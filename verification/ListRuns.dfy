/**
 * The runs of one pass of the bottom-up mergesort, as sequences of nodes.
 */
module ListRuns {
  import opened ListData
  import opened ListOrder
  import opened Sequences

  type Runs = seq<seq<Node>>

  /** Runs of `size` nodes, the last of which may be shorter. */
  ghost predicate Sizes(rs: Runs, size: int) {
    forall i :: 0 <= i < |rs| ==> 0 < |rs[i]| <= size && (i < |rs| - 1 ==> |rs[i]| == size)
  }

  /** The merged runs of a pass: full ones as long as there is more to merge. */
  ghost predicate DoneSizes(done: Runs, size: int, more: bool) {
    forall i :: 0 <= i < |done| ==> 0 < |done[i]| <= size && (more || i < |done| - 1 ==> |done[i]| == size)
  }

  ghost predicate AllSorted(cmp: Cmp, env: Env, d: Data, rs: Runs) {
    forall i {:trigger SortedRun(cmp, env, d, rs[i])} :: 0 <= i < |rs| ==> SortedRun(cmp, env, d, rs[i])
  }

  /** The nodes of earlier runs started before those of later runs. */
  ghost predicate InOrder(env: Env, rs: Runs) {
    forall i, j {:trigger StartedBefore(env, rs[i], rs[j])} :: 0 <= i < j < |rs| ==> StartedBefore(env, rs[i], rs[j])
  }

  lemma AllSortedStays(cmp: Cmp, env: Env, d: Data, d': Data, rs: Runs)
    requires AllSorted(cmp, env, d, rs) && Evolved(cmp, d, d')
    ensures AllSorted(cmp, env, d', rs)
  {
    forall i | 0 <= i < |rs|
      ensures SortedRun(cmp, env, d', rs[i])
    {
      SortedRunStays(cmp, env, d, d', rs[i]);
    }
  }

  /** The second of the two runs to merge next, if there is one. */
  ghost function Second(todo: Runs): seq<Node> { if |todo| > 1 then todo[1] else [] }

  ghost function AfterTwo(todo: Runs): (rs: Runs)
    ensures |rs| == if |todo| > 1 then |todo| - 2 else 0
  {
    if |todo| > 1 then todo[2..] else []
  }

  lemma FlattenTwo(todo: Runs)
    requires todo != []
    ensures Flatten(todo) == todo[0] + (Second(todo) + Flatten(AfterTwo(todo)))
  {
    if |todo| > 1 {
      assert todo[1..][1..] == todo[2..];
    }
  }

  /** `merged` has the nodes of the first two runs of `todo`: it can take their place. */
  lemma InOrderMerged(env: Env, done: Runs, todo: Runs, merged: seq<Node>)
    requires todo != [] && InOrder(env, done + todo)
    requires multiset(merged) == multiset(todo[0]) + multiset(Second(todo))
    ensures InOrder(env, done + [merged] + AfterTwo(todo))
  {
    var rs, rs' := done + todo, done + [merged] + AfterTwo(todo);
    var k := |done|;
    assert forall i :: 0 <= i < k ==> rs'[i] == rs[i];
    assert forall i :: k < i < |rs'| ==> rs'[i] == rs[i + 1];
    forall i, j | 0 <= i < j < |rs'|
      ensures StartedBefore(env, rs'[i], rs'[j])
    {
      if i == k {
        assert j + 1 < |rs| && rs'[j] == rs[j + 1];
        MergedBefore(env, rs[k], rs[k + 1], merged, rs[j + 1]);
      } else if j == k {
        assert StartedBefore(env, rs[i], rs[k]);
        assert |todo| > 1 ==> StartedBefore(env, rs[i], rs[k + 1]) && rs[k + 1] == Second(todo);
        BeforeMerged(env, rs[k], Second(todo), merged, rs[i]);
      }
    }
  }

  lemma MergedBefore(env: Env, p: seq<Node>, q: seq<Node>, merged: seq<Node>, r: seq<Node>)
    requires multiset(merged) == multiset(p) + multiset(q)
    requires StartedBefore(env, p, r) && StartedBefore(env, q, r)
    ensures StartedBefore(env, merged, r)
  {
    forall x, y | x in merged && y in r
      ensures Earlier(env, x, y)
    {
      assert x in multiset(merged);
      assert x in p || x in q;
    }
  }

  lemma BeforeMerged(env: Env, p: seq<Node>, q: seq<Node>, merged: seq<Node>, r: seq<Node>)
    requires multiset(merged) == multiset(p) + multiset(q)
    requires StartedBefore(env, r, p) && StartedBefore(env, r, q)
    ensures StartedBefore(env, r, merged)
  {
    forall x, y | x in r && y in merged
      ensures Earlier(env, x, y)
    {
      assert y in multiset(merged);
      assert y in p || y in q;
    }
  }

  lemma MergedSize(p: seq<Node>, q: seq<Node>, merged: seq<Node>)
    requires multiset(merged) == multiset(p) + multiset(q)
    ensures |merged| == |p| + |q|
  {
    assert |multiset(merged)| == |merged| && |multiset(p)| == |p| && |multiset(q)| == |q|;
  }

  /** Where a pass over runs of `size` nodes stands: `done` is merged, `todo` is not. */
  ghost predicate PassOf(cmp: Cmp, env: Env, d: Data, size: int, done: Runs, todo: Runs) {
    && Sizes(todo, size) && DoneSizes(done, 2 * size, todo != [])
    && AllSorted(cmp, env, d, done) && AllSorted(cmp, env, d, todo)
    && InOrder(env, done + todo)
  }

  lemma PassAdvances(cmp: Cmp, env: Env, d: Data, d': Data, size: int, done: Runs, todo: Runs, merged: seq<Node>)
    requires PassOf(cmp, env, d, size, done, todo) && todo != [] && Evolved(cmp, d, d')
    requires SortedRun(cmp, env, d', merged) && multiset(merged) == multiset(todo[0]) + multiset(Second(todo))
    ensures PassOf(cmp, env, d', size, done + [merged], AfterTwo(todo))
  {
    AllSortedStays(cmp, env, d, d', done);
    AllSortedStays(cmp, env, d, d', todo);
    InOrderMerged(env, done, todo, merged);
    MergedSize(todo[0], Second(todo), merged);
  }

  /** At the start every run is one node. */
  ghost function Singles(s: seq<Node>): (rs: Runs)
    ensures |rs| == |s| && forall i :: 0 <= i < |s| ==> rs[i] == [s[i]]
  {
    if s == [] then [] else [[s[0]]] + Singles(s[1..])
  }

  lemma {:induction false} FlattenSingles(s: seq<Node>)
    ensures Flatten(Singles(s)) == s
  {
    if s != [] {
      FlattenSingles(s[1..]);
      assert Singles(s)[1..] == Singles(s[1..]);
      assert s == [s[0]] + s[1..];
    }
  }

  lemma SinglesInOrder(env: Env, s: seq<Node>)
    requires forall i, j :: 0 <= i < j < |s| ==> PosOf(env, s[i]) < PosOf(env, s[j])
    ensures InOrder(env, Singles(s))
  {
    var rs := Singles(s);
    forall i, j | 0 <= i < j < |rs|
      ensures StartedBefore(env, rs[i], rs[j])
    {
      assert rs[i] == [s[i]] && rs[j] == [s[j]];
      SingleBefore(env, s[i], s[j]);
    }
  }

  lemma SingleBefore(env: Env, a: Node, b: Node)
    requires PosOf(env, a) < PosOf(env, b)
    ensures StartedBefore(env, [a], [b])
  {
  }

  lemma SinglesSorted(cmp: Cmp, env: Env, d: Data, s: seq<Node>)
    ensures Sizes(Singles(s), 1) && AllSorted(cmp, env, d, Singles(s))
  {
  }

  lemma SinglesReady(cmp: Cmp, env: Env, d: Data, s: seq<Node>)
    requires forall i, j :: 0 <= i < j < |s| ==> PosOf(env, s[i]) < PosOf(env, s[j])
    ensures PassOf(cmp, env, d, 1, [], Singles(s))
  {
    SinglesInOrder(env, s);
    SinglesSorted(cmp, env, d, s);
    assert [] + Singles(s) == Singles(s);
  }

  /** The two runs to merge next are a sorted pair, the first of which started earlier. */
  lemma PassPair(cmp: Cmp, env: Env, d: Data, size: int, done: Runs, todo: Runs)
    requires PassOf(cmp, env, d, size, done, todo) && todo != []
    ensures todo[0] != [] && SortedRun(cmp, env, d, todo[0]) && SortedRun(cmp, env, d, Second(todo))
    ensures StartedBefore(env, todo[0], Second(todo))
  {
    if |todo| > 1 {
      assert (done + todo)[|done|] == todo[0] && (done + todo)[|done| + 1] == todo[1];
    }
  }

  lemma SortedTouched(cmp: Cmp, env: Env, d: Data, s: seq<Node>, sorted: seq<Node>)
    requires multiset(sorted) == multiset(s) && SortedRun(cmp, env, d, sorted) && |s| >= 2
    ensures AllTouched(cmp, d, s)
  {
    assert |multiset(s)| == |s| && |multiset(sorted)| == |sorted|;
    forall n | n in s
      ensures Touched(cmp, ItemAt(d, n))
    {
      assert n in multiset(sorted);
    }
  }
}
