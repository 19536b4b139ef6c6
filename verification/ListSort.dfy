/**
 * `core_list_mergesort` of core_list_join.c: an iterative bottom-up mergesort that
 * relinks the nodes of a heap list.
 */
module ListSort {
  import opened ListData
  import opened ListHeap
  import opened ListOrder
  import opened ListRuns
  import opened Sequences

  /** `env` describes the nodes at hand; the sort writes only `next` and `data16`. */
  ghost predicate World(env: Env, nodes: set<Node>)
    reads nodes`info, env.infos`idx
  {
    && env.info.Keys == env.idx.Keys == env.pos.Keys == nodes
    && forall n :: n in nodes ==> n.info == env.info[n] && env.info[n] in env.infos && env.info[n].idx == env.idx[n]
  }

  /** `d` is a snapshot of the data. */
  ghost predicate Agrees(env: Env, d: Data)
    reads env.infos`data16
  {
    && d.Keys == env.info.Keys
    && forall n :: n in env.info && env.info[n] in env.infos ==> d[n] == ItemOf(env.info[n].data16)
  }

  ghost function Snapshot(env: Env): (d: Data)
    reads env.infos`data16
    ensures Agrees(env, d)
  {
    map n | n in env.info :: if env.info[n] in env.infos then ItemOf(env.info[n].data16) else Item(0, 0)
  }

  ghost predicate Within(s: seq<Node>, nodes: set<Node>) {
    forall n :: n in s ==> n in nodes
  }

  /** The list built so far: its nodes, first and last. */
  ghost predicate Built(list: Node?, tail: Node?, out: seq<Node>)
    reads out`next
  {
    Links(out) && list == First(out) && tail == Last(out)
  }

  /** `cmp(p->info, q->info, res)` */
  method CompareNodes(cmp: Cmp, p: Node, q: Node, ghost env: Env, ghost nodes: set<Node>, ghost d: Data)
    returns (c: int, ghost d': Data)
    requires World(env, nodes) && Agrees(env, d) && p in nodes && q in nodes
    modifies env.infos`data16
    ensures Agrees(env, d') && Evolved(cmp, d, d') && Touched(cmp, ItemAt(d', p)) && Touched(cmp, ItemAt(d', q))
    ensures c <= 0 <==> NodeKey(cmp, env, d', p) <= NodeKey(cmp, env, d', q)
  {
    assert env.info[p] in env.infos && env.info[q] in env.infos;
    c := Compare(cmp, p.info, q.info);
    d' := Snapshot(env);
    forall n | n in d
      ensures Becomes(cmp, ItemAt(d, n), ItemAt(d', n))
    {
      var x := env.info[n];
      assert d[n] == old(ItemOf(x.data16)) && d'[n] == ItemOf(x.data16);
    }
  }

  /** Add `e` to the merged list: after the tail, or as the head of an empty list. */
  method Append(list: Node?, tail: Node?, e: Node, ghost out: seq<Node>) returns (list': Node?, tail': Node)
    requires Built(list, tail, out) && NoDup(out + [e])
    modifies (if tail == null then {} else {tail})`next
    ensures Built(list', tail', out + [e]) && list' != null
  {
    list' := list;
    if tail != null {
      tail.next := e;
      assert forall i :: 0 <= i < |out| - 1 ==> (out + [e])[i] != (out + [e])[|out| - 1];
    } else {
      list' := e;
    }
    tail' := e;
  }

  /** The nodes of a list under construction, none of them twice, in three parts. */
  ghost predicate Parts(whole: seq<Node>, a: seq<Node>, b: seq<Node>, c: seq<Node>) {
    NoDup(whole) && multiset(whole) == multiset(a) + multiset(b) + multiset(c)
  }

  lemma PartsApart(whole: seq<Node>, a: seq<Node>, b: seq<Node>, c: seq<Node>)
    requires Parts(whole, a, b, c)
    ensures NoDup(a)
    ensures forall x :: x in a ==> x !in b && x !in c
  {
    assert multiset(b + c) == multiset(b) + multiset(c);
    CountApart(whole, a, b + c);
    assert forall x :: x in b || x in c ==> x in b + c;
  }

  lemma PartsWithin(whole: seq<Node>, a: seq<Node>, b: seq<Node>, c: seq<Node>, nodes: set<Node>)
    requires Parts(whole, a, b, c) && Within(whole, nodes)
    ensures Within(a, nodes) && Within(b, nodes) && Within(c, nodes)
  {
    forall n | n in a || n in b || n in c
      ensures n in nodes
    {
      assert n in multiset(a) || n in multiset(b) || n in multiset(c);
      assert n in multiset(whole);
    }
  }

  lemma PartsMove(whole: seq<Node>, a: seq<Node>, b: seq<Node>, c: seq<Node>)
    requires Parts(whole, a, b, c) && b != []
    ensures Parts(whole, a + [b[0]], b[1..], c)
  {
    assert b == [b[0]] + b[1..];
  }

  lemma PartsSwap(whole: seq<Node>, a: seq<Node>, b: seq<Node>, c: seq<Node>)
    requires Parts(whole, a, b, c)
    ensures Parts(whole, a, c, b)
  {
  }

  /** Take the first node of the chain `s` and append it to the merged list. */
  method Take(list: Node?, tail: Node?, e: Node, ghost whole: seq<Node>, ghost out: seq<Node>,
              ghost s: seq<Node>, ghost other: seq<Node>, ghost nodes: set<Node>)
    returns (list': Node, tail': Node, next: Node?)
    requires Built(list, tail, out) && s != [] && e == s[0] && Links(s) && Links(other)
    requires Parts(whole, out, s, other) && Within(out, nodes)
    modifies nodes`next
    ensures Built(list', tail', out + [e]) && Parts(whole, out + [e], s[1..], other)
    ensures Links(s[1..]) && Links(other)
    ensures forall n :: n in s[1..] || n in other ==> n.next == old(n.next)
    ensures next == old(e.next)
  {
    PartsMove(whole, out, s, other);
    PartsApart(whole, out, s, other);
    PartsApart(whole, out + [e], s[1..], other);
    next := e.next;
    ghost var rest := s[1..];
    assert forall i :: 0 <= i < |rest| ==> rest[i] in rest && rest[i] == s[i + 1];
    assert forall i :: 0 <= i < |other| ==> other[i] in other;
    list', tail' := Append(list, tail, e, out);
  }

  /** The pointers and counters of the merge loop: `p` runs over `psize` nodes, `q` over at most `qsize`. */
  ghost predicate Cursors(p: Node?, psize: int, q: Node?, qsize: int, ps: seq<Node>, qs: seq<Node>, rest: seq<Node>)
    reads ps`next, (qs + rest)`next
  {
    && Links(ps) && psize == |ps| && (ps != [] ==> p == ps[0])
    && ToNull(qs + rest) && q == First(qs + rest)
    && |qs| <= qsize && (|qs| == qsize || rest == [])
  }

  /**
   * All pointers of the merge loop: `out` was built before it, `m` is merged since, and
   * `ps`, `qs` and `rest` are still to come.
   */
  ghost predicate Linked(list: Node?, tail: Node?, p: Node?, psize: int, q: Node?, qsize: int, nodes: set<Node>,
                         whole: seq<Node>, out: seq<Node>, m: seq<Node>, ps: seq<Node>, qs: seq<Node>, rest: seq<Node>)
    reads (out + m)`next, ps`next, (qs + rest)`next
  {
    && Built(list, tail, out + m) && Parts(whole, out + m, ps, qs + rest) && Within(whole, nodes)
    && Cursors(p, psize, q, qsize, ps, qs, rest)
  }

  method StepP(list: Node?, tail: Node?, p: Node?, psize: int, q: Node?, qsize: int, ghost nodes: set<Node>,
               ghost whole: seq<Node>, ghost out: seq<Node>, ghost m: seq<Node>, ghost ps: seq<Node>,
               ghost qs: seq<Node>, ghost rest: seq<Node>)
    returns (list': Node, tail': Node, p': Node?)
    requires Linked(list, tail, p, psize, q, qsize, nodes, whole, out, m, ps, qs, rest) && ps != []
    modifies nodes`next
    ensures Linked(list', tail', p', psize - 1, q, qsize, nodes, whole, out, m + [ps[0]], ps[1..], qs, rest)
  {
    PartsWithin(whole, out + m, ps, qs + rest, nodes);
    list', tail', p' := Take(list, tail, p, whole, out + m, ps, qs + rest, nodes);
    assert out + m + [ps[0]] == out + (m + [ps[0]]);
  }

  method StepQ(list: Node?, tail: Node?, p: Node?, psize: int, q: Node?, qsize: int, ghost nodes: set<Node>,
               ghost whole: seq<Node>, ghost out: seq<Node>, ghost m: seq<Node>, ghost ps: seq<Node>,
               ghost qs: seq<Node>, ghost rest: seq<Node>)
    returns (list': Node, tail': Node, q': Node?)
    requires Linked(list, tail, p, psize, q, qsize, nodes, whole, out, m, ps, qs, rest) && qs != []
    modifies nodes`next
    ensures Linked(list', tail', p, psize, q', qsize - 1, nodes, whole, out, m + [qs[0]], ps, qs[1..], rest)
  {
    ghost var chain := qs + rest;
    PartsWithin(whole, out + m, ps, chain, nodes);
    PartsSwap(whole, out + m, ps, chain);
    assert chain[0] == qs[0] && chain[1..] == qs[1..] + rest;
    assert |chain| > 1 ==> chain[0].next == chain[1];
    list', tail', q' := Take(list, tail, q, whole, out + m, chain, ps, nodes);
    PartsSwap(whole, out + m + [qs[0]], chain[1..], ps);
    assert out + m + [qs[0]] == out + (m + [qs[0]]);
  }

  /** What the guards of the merge loop say about the two runs. */
  ghost predicate Heads(p: Node?, psize: int, q: Node?, qsize: int, nodes: set<Node>, ps: seq<Node>, qs: seq<Node>) {
    && psize == |ps| && (ps != [] ==> p == ps[0] && ps[0] in nodes)
    && 0 <= qsize && (qs != [] <==> qsize != 0 && q != null) && (qs != [] ==> q == qs[0] && qs[0] in nodes)
  }

  lemma LinkedHeads(list: Node?, tail: Node?, p: Node?, psize: int, q: Node?, qsize: int, nodes: set<Node>,
                    whole: seq<Node>, out: seq<Node>, m: seq<Node>, ps: seq<Node>, qs: seq<Node>, rest: seq<Node>)
    requires Linked(list, tail, p, psize, q, qsize, nodes, whole, out, m, ps, qs, rest)
    ensures Heads(p, psize, q, qsize, nodes, ps, qs)
  {
    PartsWithin(whole, out + m, ps, qs + rest, nodes);
    assert qs != [] ==> (qs + rest)[0] == qs[0];
  }

  /** One node has moved from the head of `ps` or of `qs` to the end of `m`. */
  ghost predicate Moved(takeP: bool, m: seq<Node>, ps: seq<Node>, qs: seq<Node>, m': seq<Node>, ps': seq<Node>,
                        qs': seq<Node>) {
    if takeP then ps != [] && m' == m + [ps[0]] && ps' == ps[1..] && qs' == qs
    else qs != [] && m' == m + [qs[0]] && ps' == ps && qs' == qs[1..]
  }

  /** The outcome of one comparison: which node moves, and a merge that is one node further. */
  ghost predicate Chosen(cmp: Cmp, env: Env, d: Data, d': Data, ps0: seq<Node>, qs0: seq<Node>, takeP: bool,
                         m: seq<Node>, ps: seq<Node>, qs: seq<Node>, m': seq<Node>, ps': seq<Node>, qs': seq<Node>)
    reads env.infos`data16
  {
    && Moved(takeP, m, ps, qs, m', ps', qs')
    && Agrees(env, d') && Evolved(cmp, d, d') && MergeOf(cmp, env, d', ps0, qs0, m', ps', qs')
  }

  /** Decide whether the next element of the merge comes from `p` or from `q`. */
  method Choose(cmp: Cmp, p: Node?, psize: int, q: Node?, qsize: int, ghost env: Env, ghost nodes: set<Node>,
                ghost d: Data, ghost ps0: seq<Node>, ghost qs0: seq<Node>, ghost m: seq<Node>, ghost ps: seq<Node>,
                ghost qs: seq<Node>)
    returns (takeP: bool, ghost d': Data, ghost m': seq<Node>, ghost ps': seq<Node>, ghost qs': seq<Node>)
    requires World(env, nodes) && Agrees(env, d) && (ps != [] || qs != [])
    requires Heads(p, psize, q, qsize, nodes, ps, qs)
    requires MergeOf(cmp, env, d, ps0, qs0, m, ps, qs)
    modifies env.infos`data16
    ensures Chosen(cmp, env, d, d', ps0, qs0, takeP, m, ps, qs, m', ps', qs')
  {
    d' := d;
    if psize == 0 {
      takeP := false;
      TakeLastQ(cmp, env, d, ps0, qs0, m, qs);
    } else if qsize == 0 || q == null {
      takeP := true;
      TakeLastP(cmp, env, d, ps0, qs0, m, ps);
    } else {
      var c;
      c, d' := CompareNodes(cmp, p, q, env, nodes, d);
      takeP := c <= 0;
      if takeP {
        TakeSmallerP(cmp, env, d, d', ps0, qs0, m, ps, qs);
      } else {
        TakeSmallerQ(cmp, env, d, d', ps0, qs0, m, ps, qs);
      }
    }
    if takeP {
      m', ps', qs' := m + [ps[0]], ps[1..], qs;
    } else {
      m', ps', qs' := m + [qs[0]], ps, qs[1..];
    }
  }

  /** The same, with the pointers of the merge loop in the picture. */
  method ChooseLinked(cmp: Cmp, ghost list: Node?, ghost tail: Node?, p: Node?, psize: int, q: Node?, qsize: int,
                      ghost env: Env, ghost nodes: set<Node>, ghost d: Data, ghost ps0: seq<Node>, ghost qs0: seq<Node>,
                      ghost out: seq<Node>, ghost m: seq<Node>, ghost ps: seq<Node>, ghost qs: seq<Node>,
                      ghost todo: seq<Node>)
    returns (takeP: bool, ghost d': Data, ghost m': seq<Node>, ghost ps': seq<Node>, ghost qs': seq<Node>)
    requires World(env, nodes) && Agrees(env, d) && (ps != [] || qs != [])
    requires Built(list, tail, out) && Links(ps) && ToNull(todo)
    requires Heads(p, psize, q, qsize, nodes, ps, qs)
    requires MergeOf(cmp, env, d, ps0, qs0, m, ps, qs)
    modifies env.infos`data16
    ensures Built(list, tail, out) && Links(ps) && ToNull(todo)
    ensures Chosen(cmp, env, d, d', ps0, qs0, takeP, m, ps, qs, m', ps', qs')
  {
    takeP, d', m', ps', qs' := Choose(cmp, p, psize, q, qsize, env, nodes, d, ps0, qs0, m, ps, qs);
  }

  /** Relink the chosen node. */
  method Step(takeP: bool, list: Node?, tail: Node?, p: Node?, psize: int, q: Node?, qsize: int,
              ghost nodes: set<Node>, ghost whole: seq<Node>,
              ghost out: seq<Node>, ghost m: seq<Node>, ghost ps: seq<Node>, ghost qs: seq<Node>, ghost rest: seq<Node>,
              ghost m': seq<Node>, ghost ps': seq<Node>, ghost qs': seq<Node>)
    returns (list': Node?, tail': Node?, p': Node?, psize': int, q': Node?, qsize': int)
    requires Linked(list, tail, p, psize, q, qsize, nodes, whole, out, m, ps, qs, rest)
    requires Moved(takeP, m, ps, qs, m', ps', qs')
    modifies nodes`next
    ensures Linked(list', tail', p', psize', q', qsize', nodes, whole, out, m', ps', qs', rest)
  {
    p', psize', q', qsize' := p, psize, q, qsize;
    if takeP {
      list', tail', p' := StepP(list, tail, p, psize, q, qsize, nodes, whole, out, m, ps, qs, rest);
      psize' := psize - 1;
    } else {
      list', tail', q' := StepQ(list, tail, p, psize, q, qsize, nodes, whole, out, m, ps, qs, rest);
      qsize' := qsize - 1;
    }
  }

  /** One element of the merge. */
  method MergeStep(cmp: Cmp, list: Node?, tail: Node?, p: Node?, psize: int, q: Node?, qsize: int, ghost env: Env,
                   ghost nodes: set<Node>, ghost d: Data, ghost whole: seq<Node>, ghost ps0: seq<Node>,
                   ghost qs0: seq<Node>, ghost out: seq<Node>, ghost m: seq<Node>, ghost ps: seq<Node>,
                   ghost qs: seq<Node>, ghost rest: seq<Node>)
    returns (list': Node?, tail': Node?, p': Node?, psize': int, q': Node?, qsize': int,
             ghost d': Data, ghost m': seq<Node>, ghost ps': seq<Node>, ghost qs': seq<Node>)
    requires World(env, nodes) && Agrees(env, d) && (ps != [] || qs != [])
    requires Linked(list, tail, p, psize, q, qsize, nodes, whole, out, m, ps, qs, rest)
    requires MergeOf(cmp, env, d, ps0, qs0, m, ps, qs)
    modifies nodes`next, env.infos`data16
    ensures Linked(list', tail', p', psize', q', qsize', nodes, whole, out, m', ps', qs', rest)
    ensures Agrees(env, d') && Evolved(cmp, d, d') && MergeOf(cmp, env, d', ps0, qs0, m', ps', qs')
    ensures |ps'| + |qs'| < |ps| + |qs|
  {
    var takeP;
    LinkedHeads(list, tail, p, psize, q, qsize, nodes, whole, out, m, ps, qs, rest);
    takeP, d', m', ps',
      qs' := ChooseLinked(cmp, list, tail, p, psize, q, qsize, env, nodes, d, ps0, qs0, out + m, m, ps, qs, qs + rest);
    list', tail', p', psize', q', qsize' :=
      Step(takeP, list, tail, p, psize, q, qsize, nodes, whole, out, m, ps, qs, rest, m', ps', qs');
  }

  /** Merge the run at `p` with the run at `q`, appending to the list built so far. */
  method Merge(cmp: Cmp, list0: Node?, tail0: Node?, p0: Node, psize0: int, q0: Node?, insize: int,
               ghost env: Env, ghost nodes: set<Node>, ghost d0: Data, ghost whole: seq<Node>, ghost out: seq<Node>,
               ghost ps0: seq<Node>, ghost qs0: seq<Node>, ghost rest: seq<Node>)
    returns (list: Node?, tail: Node?, q: Node?, ghost d: Data, ghost merged: seq<Node>)
    requires World(env, nodes) && Agrees(env, d0)
    requires Linked(list0, tail0, p0, psize0, q0, insize, nodes, whole, out, [], ps0, qs0, rest) && ps0 != []
    requires SortedRun(cmp, env, d0, ps0) && SortedRun(cmp, env, d0, qs0) && StartedBefore(env, ps0, qs0)
    modifies nodes`next, env.infos`data16
    ensures Linked(list, tail, null, 0, q, 0, nodes, whole, out, merged, [], [], rest)
    ensures Agrees(env, d) && Evolved(cmp, d0, d) && SortedRun(cmp, env, d, merged)
    ensures multiset(merged) == multiset(ps0) + multiset(qs0)
  {
    list, tail, q, d, merged := list0, tail0, q0, d0, [];
    var p: Node?, psize, qsize := p0, psize0, insize;
    ghost var ps, qs := ps0, qs0;
    MergeStarts(cmp, env, d, ps0, qs0);
    while psize > 0 || (qsize > 0 && q != null)
      invariant Linked(list, tail, p, psize, q, qsize, nodes, whole, out, merged, ps, qs, rest)
      invariant Agrees(env, d) && Evolved(cmp, d0, d)
      invariant MergeOf(cmp, env, d, ps0, qs0, merged, ps, qs)
      decreases |ps| + |qs|
    {
      LinkedHeads(list, tail, p, psize, q, qsize, nodes, whole, out, merged, ps, qs, rest);
      ghost var d' := d;
      list, tail, p, psize, q, qsize, d, merged, ps, qs :=
        MergeStep(cmp, list, tail, p, psize, q, qsize, env, nodes, d, whole, ps0, qs0, out, merged, ps, qs, rest);
      EvolvedTrans(cmp, d0, d', d);
    }
    LinkedHeads(list, tail, p, psize, q, qsize, nodes, whole, out, merged, ps, qs, rest);
    MergeEnds(cmp, env, d, ps0, qs0, merged);
  }

  /** Step `insize` places along from `p`, or to the end of the list. */
  method Advance(p: Node, insize: int, ghost chain: seq<Node>) returns (psize: int, q: Node?)
    requires chain != [] && p == chain[0] && ToNull(chain) && insize >= 1
    ensures 1 <= psize <= |chain| && psize == (if insize < |chain| then insize else |chain|)
    ensures q == (if psize < |chain| then chain[psize] else null)
  {
    q, psize := p, 0;
    var i := 0;
    while i < insize
      invariant 0 <= i <= insize && psize == i && psize < |chain| && q == chain[psize]
    {
      assert chain[i].next == (if i + 1 < |chain| then chain[i + 1] else null);
      psize := psize + 1;
      q := q.next;
      if q == null {
        return;
      }
      i := i + 1;
    }
  }

  /** The list pointers between two merges of a pass. */
  ghost predicate PassLinked(list: Node?, tail: Node?, p: Node?, nodes: set<Node>, whole: seq<Node>, done: Runs,
                             todo: Runs)
    reads Flatten(done)`next, Flatten(todo)`next
  {
    && Built(list, tail, Flatten(done)) && ToNull(Flatten(todo)) && p == First(Flatten(todo))
    && Parts(whole, Flatten(done), [], Flatten(todo)) && Within(whole, nodes)
  }

  /** Find the second run of the pair at `p`. */
  method Split(list: Node?, tail: Node?, p: Node, insize: int, ghost nodes: set<Node>,
               ghost whole: seq<Node>, ghost done: Runs, ghost todo: Runs)
    returns (psize: int, q: Node?)
    requires PassLinked(list, tail, p, nodes, whole, done, todo) && Sizes(todo, insize) && insize >= 1
    ensures todo != []
    ensures Linked(list, tail, p, psize, q, insize, nodes, whole, Flatten(done), [], todo[0], Second(todo),
                   Flatten(AfterTwo(todo)))
  {
    ghost var out, chain := Flatten(done), Flatten(todo);
    PartsWithin(whole, out, [], chain, nodes);
    psize, q := Advance(p, insize, chain);
    assert forall i :: 0 <= i < |chain| ==> chain[i] in chain && chain[i] in nodes;
    assert forall i :: 0 <= i < |out| ==> out[i] in out && out[i] in nodes;
    SplitLinked(list, tail, p, psize, q, insize, nodes, whole, done, todo);
  }

  lemma SplitLinked(list: Node?, tail: Node?, p: Node, psize: int, q: Node?, insize: int, nodes: set<Node>,
                    whole: seq<Node>, done: Runs, todo: Runs)
    requires PassLinked(list, tail, p, nodes, whole, done, todo) && Sizes(todo, insize) && todo != []
    requires psize == (if insize < |Flatten(todo)| then insize else |Flatten(todo)|)
    requires q == (if psize < |Flatten(todo)| then Flatten(todo)[psize] else null)
    ensures Linked(list, tail, p, psize, q, insize, nodes, whole, Flatten(done), [], todo[0], Second(todo),
                   Flatten(AfterTwo(todo)))
  {
    SplitChain(todo, insize, psize, q, p);
    FlattenTwo(todo);
    PartsSplit(whole, Flatten(done), todo[0], Second(todo) + Flatten(AfterTwo(todo)));
    assert Flatten(done) + [] == Flatten(done);
  }

  /** One merge of a pass: the first two runs of `todo` become the last run of `done`. */
  method PassStep(cmp: Cmp, list0: Node?, tail0: Node?, p: Node, insize: int, ghost env: Env, ghost nodes: set<Node>,
                  ghost d0: Data, ghost whole: seq<Node>, ghost done: Runs, ghost todo: Runs)
    returns (list: Node?, tail: Node?, q: Node?, ghost d: Data, ghost merged: seq<Node>)
    requires World(env, nodes) && Agrees(env, d0) && insize >= 1
    requires PassLinked(list0, tail0, p, nodes, whole, done, todo)
    requires PassOf(cmp, env, d0, insize, done, todo)
    modifies nodes`next, env.infos`data16
    ensures todo != []
    ensures Agrees(env, d) && Evolved(cmp, d0, d)
    ensures PassLinked(list, tail, q, nodes, whole, done + [merged], AfterTwo(todo))
    ensures PassOf(cmp, env, d, insize, done + [merged], AfterTwo(todo))
  {
    var psize;
    psize, q := Split(list0, tail0, p, insize, nodes, whole, done, todo);
    ghost var rest := Flatten(AfterTwo(todo));
    PassPair(cmp, env, d0, insize, done, todo);
    list, tail, q, d, merged :=
      Merge(cmp, list0, tail0, p, psize, q, insize, env, nodes, d0, whole, Flatten(done), todo[0], Second(todo), rest);
    FlattenAppend(done, merged);
    assert [] + rest == rest;
    PassAdvances(cmp, env, d0, d, insize, done, todo, merged);
  }

  lemma PartsSplit(whole: seq<Node>, a: seq<Node>, b: seq<Node>, c: seq<Node>)
    requires Parts(whole, a, [], b + c)
    ensures Parts(whole, a, b, c)
  {
  }

  lemma ChainSplits(chain: seq<Node>, ps: seq<Node>, rest: seq<Node>)
    requires ToNull(chain) && chain == ps + rest
    ensures Links(ps) && ToNull(rest)
  {
    assert forall i :: 0 <= i < |ps| ==> ps[i] == chain[i];
    assert forall i :: 0 <= i < |rest| ==> rest[i] == chain[|ps| + i];
  }

  /** The first run is as long as the step along the list, and the second is full unless it is the last. */
  lemma FirstSizes(todo: Runs, insize: int)
    requires todo != [] && Sizes(todo, insize)
    ensures 0 < |todo[0]| == if insize < |Flatten(todo)| then insize else |Flatten(todo)|
    ensures |Second(todo)| <= insize && (|Second(todo)| == insize || Flatten(AfterTwo(todo)) == [])
  {
    FlattenTwo(todo);
  }

  /** Where the step along the list has arrived: at the second run. */
  lemma SplitChain(todo: Runs, insize: int, psize: int, q: Node?, p: Node)
    requires todo != [] && Sizes(todo, insize) && ToNull(Flatten(todo)) && p == First(Flatten(todo))
    requires psize == (if insize < |Flatten(todo)| then insize else |Flatten(todo)|)
    requires q == (if psize < |Flatten(todo)| then Flatten(todo)[psize] else null)
    ensures Cursors(p, psize, q, insize, todo[0], Second(todo), Flatten(AfterTwo(todo)))
  {
    FlattenTwo(todo);
    FirstSizes(todo, insize);
    ChainSplits(Flatten(todo), todo[0], Second(todo) + Flatten(AfterTwo(todo)));
  }

  /** The merges of one pass. */
  method PassMerges(cmp: Cmp, list0: Node, insize: int, ghost env: Env, ghost nodes: set<Node>, ghost d0: Data,
                    ghost whole: seq<Node>, ghost runs: Runs)
    returns (list: Node?, tail: Node?, nmerges: int, ghost d: Data, ghost done: Runs)
    requires World(env, nodes) && Agrees(env, d0) && insize >= 1
    requires PassLinked(null, null, list0, nodes, whole, [], runs)
    requires PassOf(cmp, env, d0, insize, [], runs)
    modifies nodes`next, env.infos`data16
    ensures Agrees(env, d) && Evolved(cmp, d0, d)
    ensures PassLinked(list, tail, null, nodes, whole, done, []) && PassOf(cmp, env, d, insize, done, [])
    ensures nmerges == |done| && 0 < |runs| <= 2 * |done| <= |runs| + 1
  {
    var p: Node? := list0;
    list, tail, nmerges, d, done := null, null, 0, d0, [];
    ghost var todo := runs;
    assert todo != [];
    while p != null
      invariant PassLinked(list, tail, p, nodes, whole, done, todo) && PassOf(cmp, env, d, insize, done, todo)
      invariant Agrees(env, d) && Evolved(cmp, d0, d)
      invariant nmerges == |done| && (2 * |done| + |todo| == |runs| || (todo == [] && 2 * |done| == |runs| + 1))
      decreases |todo|
    {
      nmerges := nmerges + 1;
      ghost var d', merged := d, [];
      list, tail, p, d, merged := PassStep(cmp, list, tail, p, insize, env, nodes, d, whole, done, todo);
      EvolvedTrans(cmp, d0, d', d);
      done, todo := done + [merged], AfterTwo(todo);
    }
    FlattenNonEmpty(todo, insize);
  }

  /** One pass over the list: merge its runs of `insize` nodes two by two. */
  method Pass(cmp: Cmp, list0: Node, insize: int, ghost env: Env, ghost nodes: set<Node>, ghost d0: Data,
              ghost whole: seq<Node>, ghost runs: Runs)
    returns (list: Node?, nmerges: int, ghost d: Data, ghost done: Runs)
    requires World(env, nodes) && Agrees(env, d0) && insize >= 1
    requires PassLinked(null, null, list0, nodes, whole, [], runs)
    requires PassOf(cmp, env, d0, insize, [], runs)
    modifies nodes`next, env.infos`data16
    ensures Agrees(env, d) && Evolved(cmp, d0, d)
    ensures PassLinked(null, null, list, nodes, whole, [], done) && PassOf(cmp, env, d, 2 * insize, [], done)
    ensures nmerges == |done| && 0 < |runs| <= 2 * |done| <= |runs| + 1
  {
    var tail: Node?;
    list, tail, nmerges, d, done := PassMerges(cmp, list0, insize, env, nodes, d0, whole, runs);
    tail := EndPass(cmp, list, tail, insize, env, nodes, d, whole, done);
  }

  lemma FlattenNonEmpty(rs: Runs, size: int)
    requires Sizes(rs, size) && Flatten(rs) == []
    ensures rs == []
  {
  }

  /** `tail->next = NULL`, after which the merged runs are the list. */
  method EndPass(cmp: Cmp, list: Node?, tail0: Node?, insize: int, ghost env: Env, ghost nodes: set<Node>,
                 ghost d: Data, ghost whole: seq<Node>, ghost done: Runs) returns (tail: Node?)
    requires PassLinked(list, tail0, null, nodes, whole, done, []) && PassOf(cmp, env, d, insize, done, []) &&
      done != []
    modifies nodes`next
    ensures PassLinked(null, null, list, nodes, whole, [], done) && PassOf(cmp, env, d, 2 * insize, [], done)
  {
    ghost var out := Flatten(done);
    PartsWithin(whole, out, [], [], nodes);
    PartsApart(whole, out, [], []);
    tail := tail0;
    if out == [] {
      DoneNonEmpty(done, 2 * insize);
      assert false;
    }
    tail.next := null;
    assert forall i :: 0 <= i < |out| - 1 ==> out[i] != out[|out| - 1];
    assert [] + done == done && done + [] == done;
  }

  lemma DoneNonEmpty(done: Runs, size: int)
    requires DoneSizes(done, size, false) && done != []
    ensures Flatten(done) != []
  {
  }

  ghost function IndexOf(s: seq<Node>, n: Node): (i: int)
    ensures n in s ==> 0 <= i < |s| && s[i] == n
  {
    if n in s then (var i :| 0 <= i < |s| && s[i] == n; i) else 0
  }

  /** The description of a list about to be sorted. */
  ghost function Describe(s: seq<Node>, nodes: set<Node>, infos: set<Info>): (env: Env)
    requires NoDup(s) && forall n :: n in nodes ==> n.info in infos
    reads nodes`info, infos`idx
    ensures World(env, nodes) && env.infos == infos
    ensures forall i :: 0 <= i < |s| && s[i] in nodes ==> PosOf(env, s[i]) == i
    ensures forall n :: n in nodes ==> PosOf(env, n) == IndexOf(s, n)
  {
    Env(infos, map n | n in nodes :: n.info, map n | n in nodes :: n.info.idx as int,
        map n | n in nodes :: IndexOf(s, n))
  }

  /** `a` belongs before `b` in a sort of `s`: by key, equal keys in their order in `s`. */
  ghost predicate Precedes(cmp: Cmp, s: seq<Node>, a: Node, b: Node)
    reads a, b, a.info, b.info
  {
    var ka, kb := Key(cmp, a.info.idx, ItemOf(a.info.data16)), Key(cmp, b.info.idx, ItemOf(b.info.data16));
    ka < kb || (ka == kb && IndexOf(s, a) < IndexOf(s, b))
  }

  /** The passes of the sort, until one of them does a single merge. */
  method SortPasses(list0: Node, cmp: Cmp, ghost s: seq<Node>, ghost env: Env, ghost nodes: set<Node>, ghost d0: Data)
    returns (list: Node?, ghost d: Data, ghost sorted: seq<Node>)
    requires World(env, nodes) && Agrees(env, d0)
    requires PassLinked(null, null, list0, nodes, s, [], Singles(s)) && PassOf(cmp, env, d0, 1, [], Singles(s))
    modifies nodes`next, env.infos`data16
    ensures PassLinked(null, null, list, nodes, s, [], [sorted]) && SortedRun(cmp, env, d, sorted)
    ensures Agrees(env, d) && Evolved(cmp, d0, d)
  {
    var insize, nmerges := 1, 2;
    ghost var runs := Singles(s);
    list, d := list0, d0;
    assert runs != [];
    while true
      invariant insize >= 1 && runs != [] && list != null
      invariant Agrees(env, d) && Evolved(cmp, d0, d)
      invariant PassLinked(null, null, list, nodes, s, [], runs) && PassOf(cmp, env, d, insize, [], runs)
      decreases |runs|
    {
      ghost var d', n := d, |runs|;
      list, nmerges, d, runs := Pass(cmp, list, insize, env, nodes, d, s, runs);
      EvolvedTrans(cmp, d0, d', d);
      PassNonEmpty(cmp, env, d, 2 * insize, runs);
      if nmerges <= 1 {
        sorted := runs[0];
        assert runs == [sorted];
        return;
      }
      insize := insize * 2;
    }
  }

  lemma PassNonEmpty(cmp: Cmp, env: Env, d: Data, size: int, runs: Runs)
    requires PassOf(cmp, env, d, size, [], runs) && runs != []
    ensures Flatten(runs) != [] && SortedRun(cmp, env, d, runs[0])
  {
  }

  /** Before the first pass nothing is built, and the whole list is to come. */
  lemma ListIsTodo(list: Node, s: seq<Node>, nodes: set<Node>, runs: Runs)
    requires IsList(list, s) && Within(s, nodes) && Flatten(runs) == s
    ensures PassLinked(null, null, list, nodes, s, [], runs)
  {
  }

  lemma PositionsIncrease(env: Env, s: seq<Node>, nodes: set<Node>)
    requires Within(s, nodes) && forall i :: 0 <= i < |s| && s[i] in nodes ==> PosOf(env, s[i]) == i
    ensures forall i, j :: 0 <= i < j < |s| ==> PosOf(env, s[i]) < PosOf(env, s[j])
  {
    assert forall i :: 0 <= i < |s| ==> s[i] in s;
  }

  lemma SortStarts(list: Node, cmp: Cmp, s: seq<Node>, nodes: set<Node>, infos: set<Info>) returns (env: Env, d: Data)
    requires IsList(list, s) && Within(s, nodes) && forall n :: n in nodes ==> n.info in infos
    ensures World(env, nodes) && env.infos == infos && Agrees(env, d)
    ensures forall n :: n in nodes ==> PosOf(env, n) == IndexOf(s, n) && ItemAt(d, n) == ItemOf(n.info.data16)
    ensures PassLinked(null, null, list, nodes, s, [], Singles(s)) && PassOf(cmp, env, d, 1, [], Singles(s))
  {
    env := Describe(s, nodes, infos);
    d := Snapshot(env);
    FlattenSingles(s);
    ListIsTodo(list, s, nodes, Singles(s));
    PositionsIncrease(env, s, nodes);
    SinglesReady(cmp, env, d, s);
  }

  lemma SortedList(list: Node?, nodes: set<Node>, whole: seq<Node>, sorted: seq<Node>)
    requires PassLinked(null, null, list, nodes, whole, [], [sorted])
    ensures IsList(list, sorted) && multiset(sorted) == multiset(whole) && Within(sorted, nodes)
  {
    assert Flatten([sorted]) == sorted;
    PartsSwap(whole, [], [], sorted);
    PartsApart(whole, [], [], sorted);
    CountNoDup(whole, sorted);
    PartsWithin(whole, [], [], sorted, nodes);
  }

  /** The order of the snapshot is the order of the nodes themselves. */
  lemma SortResult(cmp: Cmp, env: Env, nodes: set<Node>, d: Data, s: seq<Node>, sorted: seq<Node>)
    requires World(env, nodes) && Agrees(env, d) && Within(sorted, nodes) && Within(s, nodes)
    requires forall n :: n in nodes ==> PosOf(env, n) == IndexOf(s, n)
    requires SortedRun(cmp, env, d, sorted) && multiset(sorted) == multiset(s)
    ensures forall i, j {:trigger Precedes(cmp, s, sorted[i], sorted[j])} ::
              0 <= i < j < |sorted| ==> Precedes(cmp, s, sorted[i], sorted[j])
    ensures |s| >= 2 ==> forall n :: n in s ==> Touched(cmp, ItemOf(n.info.data16))
  {
    if |s| >= 2 {
      SortedTouched(cmp, env, d, s, sorted);
    }
    forall i, j | 0 <= i < j < |sorted|
      ensures Precedes(cmp, s, sorted[i], sorted[j])
    {
      assert sorted[i] in sorted && sorted[j] in sorted;
      assert Before(cmp, env, d, sorted[i], sorted[j]);
    }
  }

  /**
   * `core_list_mergesort`, on a non-empty list: the same nodes relinked in stable sorted
   * order.  In a list of two or more every item has been compared; comparing never
   * touches a high byte, nor an item compared before.
   */
  method MergeSort(list0: Node, cmp: Cmp, ghost s: seq<Node>, ghost nodes: set<Node>, ghost infos: set<Info>)
    returns (list: Node, ghost sorted: seq<Node>)
    requires IsList(list0, s) && Within(s, nodes) && forall n :: n in nodes ==> n.info in infos
    modifies nodes`next, infos`data16
    ensures IsList(list, sorted) && multiset(sorted) == multiset(s)
    ensures forall i, j {:trigger Precedes(cmp, s, sorted[i], sorted[j])} ::
              0 <= i < j < |sorted| ==> Precedes(cmp, s, sorted[i], sorted[j])
    ensures |s| >= 2 ==> forall n :: n in s ==> Touched(cmp, ItemOf(n.info.data16))
    ensures forall n :: n in nodes ==> Becomes(cmp, old(ItemOf(n.info.data16)), ItemOf(n.info.data16))
  {
    ghost var env, d0 := SortStarts(list0, cmp, s, nodes, infos);
    ghost var d;
    var head;
    head, d, sorted := SortPasses(list0, cmp, s, env, nodes, d0);
    list := head;
    SortedList(list, nodes, s, sorted);
    SortResult(cmp, env, nodes, d, s, sorted);
    assert forall n :: n in nodes ==> ItemAt(d, n) == ItemOf(n.info.data16);
  }
}
