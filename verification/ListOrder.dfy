/**
 * The order a mergesort of the CoreMark list establishes, on sequences of nodes and a
 * snapshot of their data: by key, and by first place among equal keys.
 */
module ListOrder {
  import opened ListData

  /** What the sort never changes: the data items; item, index and first place of each node. */
  datatype Env = Env(infos: set<Info>, info: map<Node, Info>, idx: map<Node, int>, pos: map<Node, int>)

  type Data = map<Node, Item>

  ghost function ItemAt(d: Data, n: Node): Item { if n in d then d[n] else Item(0, 0) }

  ghost function PosOf(env: Env, n: Node): int { if n in env.pos then env.pos[n] else 0 }

  ghost function NodeKey(cmp: Cmp, env: Env, d: Data, n: Node): int {
    Key(cmp, if n in env.idx then env.idx[n] else 0, ItemAt(d, n))
  }

  /** `a` belongs before `b`: a smaller key, or the same key and an earlier place. */
  ghost predicate Before(cmp: Cmp, env: Env, d: Data, a: Node, b: Node) {
    var ka, kb := NodeKey(cmp, env, d, a), NodeKey(cmp, env, d, b);
    ka < kb || (ka == kb && PosOf(env, a) < PosOf(env, b))
  }

  ghost predicate AllTouched(cmp: Cmp, d: Data, s: seq<Node>) {
    forall n :: n in s ==> Touched(cmp, ItemAt(d, n))
  }

  ghost predicate Sorted(cmp: Cmp, env: Env, d: Data, s: seq<Node>) {
    forall i, j {:trigger Before(cmp, env, d, s[i], s[j])} :: 0 <= i < j < |s| ==> Before(cmp, env, d, s[i], s[j])
  }

  /** A sorted run; in a run of two or more every item has been compared. */
  ghost predicate SortedRun(cmp: Cmp, env: Env, d: Data, s: seq<Node>) {
    |s| <= 1 || (AllTouched(cmp, d, s) && Sorted(cmp, env, d, s))
  }

  ghost predicate AllBefore(cmp: Cmp, env: Env, d: Data, a: seq<Node>, b: seq<Node>) {
    forall x, y {:trigger Before(cmp, env, d, x, y)} :: x in a && y in b ==> Before(cmp, env, d, x, y)
  }

  ghost predicate Earlier(env: Env, x: Node, y: Node) {
    PosOf(env, x) < PosOf(env, y)
  }

  /** Every node of `a` started before every node of `b`. */
  ghost predicate StartedBefore(env: Env, a: seq<Node>, b: seq<Node>) {
    forall x, y {:trigger Earlier(env, x, y)} :: x in a && y in b ==> Earlier(env, x, y)
  }

  /** What any number of comparisons makes of the data. */
  ghost predicate Evolved(cmp: Cmp, d: Data, d': Data) {
    d.Keys == d'.Keys && forall n :: n in d ==> Becomes(cmp, ItemAt(d, n), ItemAt(d', n))
  }

  lemma EvolvedTrans(cmp: Cmp, d: Data, d': Data, d'': Data)
    requires Evolved(cmp, d, d') && Evolved(cmp, d', d'')
    ensures Evolved(cmp, d, d'')
  {
    forall n | n in d
      ensures Becomes(cmp, ItemAt(d, n), ItemAt(d'', n))
    {
      BecomesTrans(cmp, ItemAt(d, n), ItemAt(d', n), ItemAt(d'', n));
    }
  }

  lemma TouchedStays(cmp: Cmp, d: Data, d': Data, s: seq<Node>)
    requires Evolved(cmp, d, d') && AllTouched(cmp, d, s)
    ensures AllTouched(cmp, d', s) && forall n :: n in s ==> ItemAt(d', n) == ItemAt(d, n)
  {
  }

  lemma SortedStays(cmp: Cmp, env: Env, d: Data, d': Data, s: seq<Node>)
    requires Evolved(cmp, d, d') && AllTouched(cmp, d, s) && Sorted(cmp, env, d, s)
    ensures AllTouched(cmp, d', s) && Sorted(cmp, env, d', s)
  {
    TouchedStays(cmp, d, d', s);
    forall i, j | 0 <= i < j < |s|
      ensures Before(cmp, env, d', s[i], s[j])
    {
      assert Before(cmp, env, d, s[i], s[j]);
      assert s[i] in s && s[j] in s;
    }
  }

  lemma SortedRunStays(cmp: Cmp, env: Env, d: Data, d': Data, s: seq<Node>)
    requires Evolved(cmp, d, d') && SortedRun(cmp, env, d, s)
    ensures SortedRun(cmp, env, d', s)
  {
    if |s| > 1 {
      SortedStays(cmp, env, d, d', s);
    }
  }

  lemma AllBeforeStays(cmp: Cmp, env: Env, d: Data, d': Data, a: seq<Node>, b: seq<Node>)
    requires Evolved(cmp, d, d')
    requires AllTouched(cmp, d, a) && AllTouched(cmp, d, b) && AllBefore(cmp, env, d, a, b)
    ensures AllBefore(cmp, env, d', a, b)
  {
    TouchedStays(cmp, d, d', a);
    TouchedStays(cmp, d, d', b);
    forall x, y | x in a && y in b
      ensures Before(cmp, env, d', x, y)
    {
      assert Before(cmp, env, d, x, y);
    }
  }

  /**
   * The state of a merge: `m` is merged, `p` and `q` remain.  Once two items have been
   * compared everything in sight is touched, sorted, and merged items come first.
   */
  ghost predicate Merging(cmp: Cmp, env: Env, d: Data, m: seq<Node>, p: seq<Node>, q: seq<Node>) {
    && AllTouched(cmp, d, m) && AllTouched(cmp, d, p) && AllTouched(cmp, d, q)
    && Sorted(cmp, env, d, m) && Sorted(cmp, env, d, p) && Sorted(cmp, env, d, q)
    && AllBefore(cmp, env, d, m, p) && AllBefore(cmp, env, d, m, q)
    && StartedBefore(env, p, q)
  }

  lemma MergingStays(cmp: Cmp, env: Env, d: Data, d': Data, m: seq<Node>, p: seq<Node>, q: seq<Node>)
    requires Merging(cmp, env, d, m, p, q) && Evolved(cmp, d, d')
    ensures Merging(cmp, env, d', m, p, q)
  {
    SortedStays(cmp, env, d, d', m);
    SortedStays(cmp, env, d, d', p);
    SortedStays(cmp, env, d, d', q);
    AllBeforeStays(cmp, env, d, d', m, p);
    AllBeforeStays(cmp, env, d, d', m, q);
  }

  /** The first comparison touches both heads; longer runs were touched when they were built. */
  lemma MergingStarts(cmp: Cmp, env: Env, d: Data, d': Data, p: seq<Node>, q: seq<Node>)
    requires SortedRun(cmp, env, d, p) && SortedRun(cmp, env, d, q) && p != [] && q != []
    requires Evolved(cmp, d, d') && StartedBefore(env, p, q)
    requires Touched(cmp, ItemAt(d', p[0])) && Touched(cmp, ItemAt(d', q[0]))
    ensures Merging(cmp, env, d', [], p, q)
  {
    SortedRunStays(cmp, env, d, d', p);
    SortedRunStays(cmp, env, d, d', q);
  }

  lemma SortedTail(cmp: Cmp, env: Env, d: Data, s: seq<Node>)
    requires s != [] && Sorted(cmp, env, d, s)
    ensures Sorted(cmp, env, d, s[1..]) && AllBefore(cmp, env, d, [s[0]], s[1..])
  {
    var t := s[1..];
    forall i, j | 0 <= i < j < |t|
      ensures Before(cmp, env, d, t[i], t[j])
    {
      assert Before(cmp, env, d, s[i + 1], s[j + 1]);
    }
    forall x, y | x in [s[0]] && y in t
      ensures Before(cmp, env, d, x, y)
    {
      var j :| 0 <= j < |t| && t[j] == y;
      assert Before(cmp, env, d, s[0], s[j + 1]);
    }
  }

  lemma SortedAppend(cmp: Cmp, env: Env, d: Data, m: seq<Node>, e: Node)
    requires Sorted(cmp, env, d, m) && AllBefore(cmp, env, d, m, [e])
    ensures Sorted(cmp, env, d, m + [e])
  {
    var t := m + [e];
    forall i, j | 0 <= i < j < |t|
      ensures Before(cmp, env, d, t[i], t[j])
    {
      if j < |m| {
        assert Before(cmp, env, d, m[i], m[j]);
      } else {
        assert m[i] in m && e in [e];
      }
    }
  }

  lemma BeforeTrans(cmp: Cmp, env: Env, d: Data, a: Node, b: Node, c: Node)
    requires Before(cmp, env, d, a, b) && Before(cmp, env, d, b, c)
    ensures Before(cmp, env, d, a, c)
  {
  }

  /** Moving the head of `p` to the merged part, when it belongs before everything in `q`. */
  lemma TakeHead(cmp: Cmp, env: Env, d: Data, m: seq<Node>, p: seq<Node>, q: seq<Node>)
    requires p != []
    requires AllTouched(cmp, d, m) && AllTouched(cmp, d, p)
    requires Sorted(cmp, env, d, m) && Sorted(cmp, env, d, p)
    requires AllBefore(cmp, env, d, m, p) && AllBefore(cmp, env, d, m, q)
    requires AllBefore(cmp, env, d, [p[0]], q)
    ensures var m' := m + [p[0]];
      && AllTouched(cmp, d, m') && AllTouched(cmp, d, p[1..])
      && Sorted(cmp, env, d, m') && Sorted(cmp, env, d, p[1..])
      && AllBefore(cmp, env, d, m', p[1..]) && AllBefore(cmp, env, d, m', q)
  {
    SortedTail(cmp, env, d, p);
    SortedAppend(cmp, env, d, m, p[0]);
  }

  /** The smaller head, ties going to `p`, belongs before the whole other run. */
  lemma HeadFirst(cmp: Cmp, env: Env, d: Data, p: seq<Node>, q: seq<Node>)
    requires p != [] && q != [] && Sorted(cmp, env, d, q)
    requires Before(cmp, env, d, p[0], q[0])
    ensures AllBefore(cmp, env, d, [p[0]], q)
  {
    forall x, y | x in [p[0]] && y in q
      ensures Before(cmp, env, d, x, y)
    {
      var j :| 0 <= j < |q| && q[j] == y;
      if j > 0 {
        assert Before(cmp, env, d, q[0], q[j]);
        BeforeTrans(cmp, env, d, p[0], q[0], q[j]);
      }
    }
  }

  /** Before the first comparison nothing has moved, except that a lone run is being copied. */
  ghost predicate Unstarted(cmp: Cmp, env: Env, d: Data, p0: seq<Node>, q0: seq<Node>, m: seq<Node>, p: seq<Node>,
                            q: seq<Node>) {
    && m + p == p0 && q == q0 && p0 != [] && (q0 == [] || m == [])
    && SortedRun(cmp, env, d, p0) && SortedRun(cmp, env, d, q0) && StartedBefore(env, p0, q0)
  }

  /** Where the merge of the runs `p0` and `q0` stands. */
  ghost predicate MergeOf(cmp: Cmp, env: Env, d: Data, p0: seq<Node>, q0: seq<Node>, m: seq<Node>, p: seq<Node>,
                          q: seq<Node>) {
    && multiset(m) + multiset(p) + multiset(q) == multiset(p0) + multiset(q0)
    && (Unstarted(cmp, env, d, p0, q0, m, p, q) || Merging(cmp, env, d, m, p, q))
  }

  lemma ComparedHeads(cmp: Cmp, env: Env, d: Data, d': Data, p0: seq<Node>, q0: seq<Node>, m: seq<Node>, p: seq<Node>,
                      q: seq<Node>)
    requires MergeOf(cmp, env, d, p0, q0, m, p, q) && p != [] && q != [] && Evolved(cmp, d, d')
    requires Touched(cmp, ItemAt(d', p[0])) && Touched(cmp, ItemAt(d', q[0]))
    ensures Merging(cmp, env, d', m, p, q)
  {
    if Merging(cmp, env, d, m, p, q) {
      MergingStays(cmp, env, d, d', m, p, q);
    } else {
      assert p == p0;
      MergingStarts(cmp, env, d, d', p, q);
    }
  }

  /** After a comparison in favour of `p`. */
  lemma TakeSmallerP(cmp: Cmp, env: Env, d: Data, d': Data, p0: seq<Node>, q0: seq<Node>, m: seq<Node>, p: seq<Node>,
                     q: seq<Node>)
    requires MergeOf(cmp, env, d, p0, q0, m, p, q) && p != [] && q != [] && Evolved(cmp, d, d')
    requires Touched(cmp, ItemAt(d', p[0])) && Touched(cmp, ItemAt(d', q[0]))
    requires NodeKey(cmp, env, d', p[0]) <= NodeKey(cmp, env, d', q[0])
    ensures MergeOf(cmp, env, d', p0, q0, m + [p[0]], p[1..], q)
  {
    ComparedHeads(cmp, env, d, d', p0, q0, m, p, q);
    assert Earlier(env, p[0], q[0]);
    HeadFirst(cmp, env, d', p, q);
    TakeHead(cmp, env, d', m, p, q);
    assert p == [p[0]] + p[1..];
  }

  /** After a comparison in favour of `q`. */
  lemma TakeSmallerQ(cmp: Cmp, env: Env, d: Data, d': Data, p0: seq<Node>, q0: seq<Node>, m: seq<Node>, p: seq<Node>,
                     q: seq<Node>)
    requires MergeOf(cmp, env, d, p0, q0, m, p, q) && p != [] && q != [] && Evolved(cmp, d, d')
    requires Touched(cmp, ItemAt(d', p[0])) && Touched(cmp, ItemAt(d', q[0]))
    requires NodeKey(cmp, env, d', q[0]) < NodeKey(cmp, env, d', p[0])
    ensures MergeOf(cmp, env, d', p0, q0, m + [q[0]], p, q[1..])
  {
    ComparedHeads(cmp, env, d, d', p0, q0, m, p, q);
    HeadFirst(cmp, env, d', q, p);
    TakeHead(cmp, env, d', m, q, p);
    assert q == [q[0]] + q[1..];
  }

  lemma TakeLastP(cmp: Cmp, env: Env, d: Data, p0: seq<Node>, q0: seq<Node>, m: seq<Node>, p: seq<Node>)
    requires MergeOf(cmp, env, d, p0, q0, m, p, []) && p != []
    ensures MergeOf(cmp, env, d, p0, q0, m + [p[0]], p[1..], [])
  {
    assert p == [p[0]] + p[1..];
    if Merging(cmp, env, d, m, p, []) {
      TakeHead(cmp, env, d, m, p, []);
    } else {
      assert m + [p[0]] + p[1..] == p0;
    }
  }

  lemma TakeLastQ(cmp: Cmp, env: Env, d: Data, p0: seq<Node>, q0: seq<Node>, m: seq<Node>, q: seq<Node>)
    requires MergeOf(cmp, env, d, p0, q0, m, [], q) && q != []
    ensures MergeOf(cmp, env, d, p0, q0, m + [q[0]], [], q[1..])
  {
    assert q == [q[0]] + q[1..];
    assert Merging(cmp, env, d, m, [], q);
    TakeHead(cmp, env, d, m, q, []);
  }

  lemma MergeStarts(cmp: Cmp, env: Env, d: Data, p0: seq<Node>, q0: seq<Node>)
    requires p0 != [] && SortedRun(cmp, env, d, p0) && SortedRun(cmp, env, d, q0) && StartedBefore(env, p0, q0)
    ensures MergeOf(cmp, env, d, p0, q0, [], p0, q0)
  {
    assert [] + p0 == p0;
  }

  lemma MergeEnds(cmp: Cmp, env: Env, d: Data, p0: seq<Node>, q0: seq<Node>, m: seq<Node>)
    requires MergeOf(cmp, env, d, p0, q0, m, [], [])
    ensures SortedRun(cmp, env, d, m) && multiset(m) == multiset(p0) + multiset(q0)
  {
    assert m + [] == m;
  }
}
