/**
 * `core_bench_list` of core_list_join.c: search, reverse, move, sort, remove and undo,
 * and sort again, after which a list of distinct indices is back where it was.
 */
module ListBench {
  import opened MachineInts
  import opened ListData
  import opened ListHeap
  import opened ListSort

  /** The fields of `core_results` the list benchmark reads. */
  class Results {
    const list: Node
    const seed3: int16
    constructor (list: Node, seed3: int16)
      ensures this.list == list && this.seed3 == seed3
    {
      this.list, this.seed3 := list, seed3;
    }
  }

  /** The list with the node after `k` moved to second place. */
  ghost function MovedUp(r: seq<Node>, k: nat): (t: seq<Node>)
    requires k + 1 < |r|
    ensures |t| == |r| && multiset(t) == multiset(r)
  {
    assert r == [r[0]] + r[1..k + 1] + [r[k + 1]] + r[k + 2..];
    [r[0], r[k + 1]] + r[1..k + 1] + r[k + 2..]
  }

  /** "Cache next item at the head of the list": the node after `found` becomes the second one. */
  method MoveUp(list: Node, found: Node, ghost r: seq<Node>, ghost k: nat, ghost nodes: set<Node>)
    requires IsList(list, r) && Within(r, nodes) && k + 1 < |r| && found == r[k]
    modifies nodes`next
    ensures IsList(list, MovedUp(r, k))
  {
    var finder := found.next;
    assert finder == r[k + 1];
    found.next := finder.next;
    finder.next := list.next;
    list.next := finder;
    MovedUpLinks(list, r, k);
  }

  /** The node after position `i`. */
  ghost function After(r: seq<Node>, i: int): Node? {
    if 0 <= i + 1 < |r| then r[i + 1] else null
  }

  lemma MovedUpAt(r: seq<Node>, k: nat)
    requires k + 1 < |r|
    ensures var t := MovedUp(r, k);
      |t| == |r| && multiset(t) == multiset(r) && t[0] == r[0] && t[1] == r[k + 1] &&
      (forall i :: 2 <= i < k + 2 ==> t[i] == r[i - 1]) && forall i :: k + 2 <= i < |t| ==> t[i] == r[i]
  {
  }

  /** Three links make the list with the node moved up. */
  lemma MovedUpLinks(list: Node, r: seq<Node>, k: nat)
    requires k + 1 < |r| && NoDup(r) && list == r[0]
    requires r[0].next == r[k + 1] && r[k + 1].next == (if k == 0 then After(r, 1) else r[1])
    requires k > 0 ==> r[k].next == After(r, k + 1)
    requires forall i :: 0 < i < |r| && i != k && i != k + 1 ==> r[i].next == After(r, i)
    ensures IsList(list, MovedUp(r, k))
  {
    var t := MovedUp(r, k);
    MovedUpAt(r, k);
    CountNoDup(r, t);
    forall i | 0 <= i < |t|
      ensures t[i].next == After(t, i)
    {
    }
  }

  // ---------------------------------------------------------------- the order the find loop leaves

  /** What a search looks at: the index and the low byte of each node's item. */
  type Keys = map<Node, (int, nat)>

  ghost function KeysOf(nodes: set<Node>, infos: set<Info>): (keys: Keys)
    reads nodes`info, infos
    ensures keys.Keys == nodes && ((forall n :: n in nodes ==> n.info in infos) ==> Keyed(keys, nodes, infos))
  {
    map n | n in nodes :: if n.info in infos then (n.info.idx as int, Lo(n.info.data16)) else (0, 0)
  }

  ghost predicate Keyed(keys: Keys, nodes: set<Node>, infos: set<Info>)
    reads nodes`info, infos
  {
    forall n :: n in nodes ==>
      n in keys && n.info in infos && keys[n].0 == n.info.idx && keys[n].1 == Lo(n.info.data16)
  }

  ghost predicate KeyMatches(keys: Keys, n: Node, data16: int, idx: int) {
    n in keys && if idx >= 0 then keys[n].0 == idx else keys[n].1 == data16
  }

  /** The position of the first match, or the length. */
  ghost function Position(keys: Keys, s: seq<Node>, data16: int, idx: int): (at: nat)
    ensures at <= |s|
  {
    if s == [] || KeyMatches(keys, s[0], data16, idx) then 0 else 1 + Position(keys, s[1..], data16, idx)
  }

  lemma {:induction false} PositionIs(keys: Keys, s: seq<Node>, data16: int, idx: int, at: nat)
    requires at <= |s| && forall i :: 0 <= i < at ==> !KeyMatches(keys, s[i], data16, idx)
    requires at < |s| ==> KeyMatches(keys, s[at], data16, idx)
    ensures Position(keys, s, data16, idx) == at
    decreases |s|
  {
    if at > 0 {
      assert !KeyMatches(keys, s[0], data16, idx);
      PositionIs(keys, s[1..], data16, idx, at - 1);
    }
  }

  /** A turn reverses the list; unless the match was the first node, the one before it moves to second place. */
  ghost function Turned(keys: Keys, s: seq<Node>, data16: int, idx: int): (t: seq<Node>)
    ensures multiset(t) == multiset(s)
  {
    var at := Position(keys, s, data16, idx);
    if 0 < at < |s| then MovedUp(Reversed(s), |s| - 1 - at) else Reversed(s)
  }

  /** `at` is the first position whose node has the index searched for or, without one, the low byte. */
  ghost predicate FirstMatch(keys: Keys, s: seq<Node>, data16: int, idx: int, at: nat) {
    && at <= |s| && (at < |s| ==> KeyMatches(keys, s[at], data16, idx))
    && forall i :: 0 <= i < at ==> !KeyMatches(keys, s[i], data16, idx)
  }

  /**
   * The list `s` in the opposite order or, after a match at `at` behind the first node, its last node, then the one
   * before the match, and then the others in the opposite order.
   */
  ghost predicate Rearranged(s: seq<Node>, at: nat, t: seq<Node>) {
    |t| == |s| &&
    if 0 < at < |s| then
      && t[0] == s[|s| - 1] && t[1] == s[at - 1]
      && (forall i {:trigger t[i]} :: 2 <= i <= |s| - at ==> t[i] == s[|s| - i])
      && (forall i {:trigger t[i]} :: |s| - at < i < |s| ==> t[i] == s[|s| - 1 - i])
    else
      forall i {:trigger t[i]} :: 0 <= i < |s| ==> t[i] == s[|s| - 1 - i]
  }

  lemma MovedUpRearranged(s: seq<Node>, at: nat, r: seq<Node>)
    requires 0 < at < |s| == |r| && forall i :: 0 <= i < |s| ==> r[i] == s[|s| - 1 - i]
    ensures Rearranged(s, at, MovedUp(r, |s| - 1 - at))
  {
    var t := MovedUp(r, |s| - 1 - at);
    MovedUpAt(r, |s| - 1 - at);
    forall i | 2 <= i <= |s| - at
      ensures t[i] == s[|s| - i]
    {
      assert t[i] == r[i - 1];
    }
    forall i | |s| - at < i < |s|
      ensures t[i] == s[|s| - 1 - i]
    {
      assert t[i] == r[i];
    }
  }

  /** What a turn leaves, position by position. */
  lemma TurnedAt(keys: Keys, s: seq<Node>, data16: int, idx: int, at: nat)
    requires FirstMatch(keys, s, data16, idx, at)
    ensures Rearranged(s, at, Turned(keys, s, data16, idx))
  {
    PositionIs(keys, s, data16, idx, at);
    if 0 < at < |s| {
      MovedUpRearranged(s, at, Reversed(s));
    }
  }

  /** The index to search for counts up, in 16 bits, while it is not negative. */
  function NextIdx(idx: int): int {
    if idx >= 0 then S16(idx + 1) else idx
  }

  ghost function IdxAfter(idx: int, n: nat): int {
    if n == 0 then idx else NextIdx(IdxAfter(idx, n - 1))
  }

  lemma IdxOneMore(idx: int, n: nat)
    ensures IdxAfter(idx, n + 1) == NextIdx(IdxAfter(idx, n))
  {
  }

  /** The order after `n` turns, each searching for its index or, without one, for the low byte of its number. */
  ghost function Turns(keys: Keys, s: seq<Node>, n: int, idx: int): (t: seq<Node>)
    ensures multiset(t) == multiset(s)
    decreases n
  {
    if n <= 0 then s else Turned(keys, Turns(keys, s, n - 1, idx), (n - 1) % 256, IdxAfter(idx, n - 1))
  }

  /** The order `t` and the index `last` after `n` turns. */
  ghost predicate Searched(keys: Keys, s: seq<Node>, n: nat, idx: int, t: seq<Node>, last: int) {
    t == Turns(keys, s, n, idx) && last == IdxAfter(idx, n)
  }

  lemma OneTurnMore(keys: Keys, s: seq<Node>, n: nat, idx: int, was: seq<Node>, t: seq<Node>)
    requires was == Turns(keys, s, n, idx) && t == Turned(keys, was, n % 256, IdxAfter(idx, n))
    ensures t == Turns(keys, s, n + 1, idx)
  {
  }

  /** The index counts up to the largest one, and is the smallest one from then on. */
  lemma {:induction false} IdxCounts(idx: int16, n: nat)
    ensures IdxAfter(idx, n) == if idx < 0 then idx as int else if idx + n <= 0x7fff then idx + n else -0x8000
  {
    if n > 0 {
      IdxCounts(idx, n - 1);
    }
  }

  /** Turn number `n`: where it finds a node, and how it rearranges the list. */
  lemma TurnNumber(keys: Keys, s: seq<Node>, n: nat, idx: int16) returns (at: nat)
    ensures var was := Turns(keys, s, n, idx);
      FirstMatch(keys, was, n % 256, if idx < 0 then idx as int else if idx + n <= 0x7fff then idx + n else -0x8000, at)
      && Rearranged(was, at, Turns(keys, s, n + 1, idx))
  {
    var was := Turns(keys, s, n, idx);
    IdxCounts(idx, n);
    at := PositionFirst(keys, was, n % 256, IdxAfter(idx, n));
    TurnedAt(keys, was, n % 256, IdxAfter(idx, n), at);
    OneTurnMore(keys, s, n, idx, was, Turned(keys, was, n % 256, IdxAfter(idx, n)));
  }

  lemma {:induction false} PositionFirst(keys: Keys, s: seq<Node>, data16: int, idx: int) returns (at: nat)
    ensures FirstMatch(keys, s, data16, idx, at)
    decreases |s|
  {
    if s == [] || KeyMatches(keys, s[0], data16, idx) {
      at := 0;
    } else {
      var rest := PositionFirst(keys, s[1..], data16, idx);
      at := rest + 1;
      assert forall i :: 0 < i < at ==> s[i] == s[1..][i - 1];
    }
  }

  /** One turn of the find loop: search, reverse the list, and move a node up if the search found one. */
  method FindTurn(list0: Node, data16: int, idx: int, ghost s: seq<Node>, ghost nodes: set<Node>,
                  ghost keys: Keys, ghost infos: set<Info>)
    returns (list: Node, ghost t: seq<Node>, ghost at: nat)
    requires IsList(list0, s) && Within(s, nodes) && |s| >= 2 && Keyed(keys, nodes, infos)
    modifies nodes`next
    ensures IsList(list, t) && t == Turned(keys, s, data16, idx)
    ensures |t| == |s| && Within(t, nodes)
    ensures FirstMatch(keys, s, data16, idx, at) && Rearranged(s, at, t)
  {
    var thisFind;
    thisFind, at := Find(list0, data16, idx, s);
    FoundAt(keys, s, nodes, infos, data16, idx, at);
    WithinElements(s, nodes);
    var head := Reverse(list0, s, nodes);
    t := Reversed(s);
    list := head;
    SameElements(s, t, nodes);
    if thisFind != null {
      ghost var k := |s| - 1 - at;
      assert t[k] == thisFind;
      if thisFind.next != null {
        MoveUp(list, thisFind, t, k, nodes);
        t := MovedUp(t, k);
        SameElements(s, t, nodes);
      }
    }
    TurnedAt(keys, s, data16, idx, at);
  }

  lemma FoundAt(keys: Keys, s: seq<Node>, nodes: set<Node>, infos: set<Info>, data16: int, idx: int, at: nat)
    requires Within(s, nodes) && Keyed(keys, nodes, infos) && at <= |s|
    requires forall i :: 0 <= i < at ==> !Matches(s[i].info, data16, idx)
    requires at < |s| ==> Matches(s[at].info, data16, idx)
    ensures Position(keys, s, data16, idx) == at && FirstMatch(keys, s, data16, idx, at)
  {
    WithinElements(s, nodes);
    PositionIs(keys, s, data16, idx, at);
  }

  lemma WithinElements(s: seq<Node>, nodes: set<Node>)
    requires Within(s, nodes)
    ensures forall i :: 0 <= i < |s| ==> s[i] in nodes
  {
  }

  lemma SameElements(s: seq<Node>, t: seq<Node>, nodes: set<Node>)
    requires Within(s, nodes) && multiset(s) == multiset(t)
    ensures Within(t, nodes) && |s| == |t|
  {
    assert |multiset(s)| == |s| && |multiset(t)| == |t|;
    forall n | n in t
      ensures n in nodes
    {
      assert n in multiset(s);
    }
  }

  /** The find loop: `find_num` turns, the wanted index counting up if it is not negative. */
  method FindLoop(list0: Node, findNum: int16, finderIdx: int16, ghost s: seq<Node>, ghost nodes: set<Node>,
                  ghost keys: Keys, ghost infos: set<Info>)
    returns (list: Node, lastData: int, lastIdx: int, ghost t: seq<Node>)
    requires IsList(list0, s) && Within(s, nodes) && |s| >= 2 && Keyed(keys, nodes, infos)
    modifies nodes`next
    ensures IsList(list, t) && t == Turns(keys, s, findNum, finderIdx) && Within(t, nodes)
  {
    var junk: int16 :| true;   // the search key is not initialised before the loop
    list, t, lastData, lastIdx := list0, s, junk, finderIdx;
    var i: nat := 0;
    while i < findNum
      invariant IsList(list, t) && |t| == |s| && Within(t, nodes)
      invariant i > 0 ==> i <= findNum
      invariant Keyed(keys, nodes, infos)
      invariant Searched(keys, s, i, finderIdx, t, lastIdx)
      decreases findNum - i
    {
      list, lastData, lastIdx, t := OneFind(list, lastIdx, i, finderIdx, s, t, nodes, keys, infos);
      i := i + 1;
    }
    TurnsOver(keys, s, i, findNum, finderIdx, t);
  }

  /** Turn number `i` of the find loop. */
  method OneFind(list0: Node, idx: int, i: nat, finderIdx: int16, ghost s: seq<Node>, ghost was: seq<Node>,
                 ghost nodes: set<Node>, ghost keys: Keys, ghost infos: set<Info>)
    returns (list: Node, lastData: int, lastIdx: int, ghost t: seq<Node>)
    requires IsList(list0, was) && Within(was, nodes) && |was| >= 2 && Keyed(keys, nodes, infos)
    requires Searched(keys, s, i, finderIdx, was, idx)
    modifies nodes`next
    ensures IsList(list, t) && |t| == |was| && Within(t, nodes)
    ensures Searched(keys, s, i + 1, finderIdx, t, lastIdx) && Keyed(keys, nodes, infos)
  {
    lastData := i % 256;
    ghost var at;
    list, t, at := FindTurn(list0, lastData, idx, was, nodes, keys, infos);
    OneTurnMore(keys, s, i, finderIdx, was, t);
    IdxOneMore(finderIdx, i);
    lastIdx := if idx >= 0 then NextIdx(idx) else idx;
  }

  lemma TurnsOver(keys: Keys, s: seq<Node>, i: nat, n: int, idx: int, t: seq<Node>)
    requires n <= i && (i > 0 ==> i <= n) && t == Turns(keys, s, i, idx)
    ensures t == Turns(keys, s, n, idx)
  {
  }

  /** The CRC loops only walk from some node of the list to its end. */
  method Walk(start: Node?, ghost s: seq<Node>, ghost at: nat)
    requires ToNull(s) && at <= |s| && start == (if at < |s| then s[at] else null)
  {
    var finder := start;
    ghost var i := at;
    while finder != null
      invariant i <= |s| && finder == (if i < |s| then s[i] else null)
      decreases |s| - i
    {
      finder := finder.next;
      i := i + 1;
    }
  }

  /** Remove the second item, search and walk the shorter list, and undo: no link or item has changed. */
  method RemoveAndUndo(list: Node, data16: int, idx: int, ghost t: seq<Node>, ghost nodes: set<Node>)
    requires IsList(list, t) && Within(t, nodes) && |t| >= 3
    modifies nodes
    ensures forall n :: n in nodes ==> n.next == old(n.next) && n.info == old(n.info)
  {
    WithinElements(t, nodes);
    var item := list.next;
    assert item == t[1] && item.next == t[2] && t[1] != t[2];
    var remover := Remove(item);
    ghost var u := [t[0], t[1]] + t[3..];
    assert forall i :: 2 <= i < |u| ==> u[i] == t[i + 1];
    assert IsList(list, u);
    var finder, at := Find(list, data16, idx, u);
    if finder == null {
      finder, at := list.next, 1;
    }
    Walk(finder, u, at);
    var undone := UndoRemove(remover, list.next);
  }

  ghost predicate IncreasingIdx(s: seq<Node>)
    reads s, set n | n in s :: n.info
  {
    forall i, j :: 0 <= i < j < |s| ==> s[i].info.idx < s[j].info.idx
  }

  // ---------------------------------------------------------------- stable sorting by a key

  /** `a` belongs before `b`: by key, equal keys in their order in `u`. */
  ghost predicate InOrder(key: map<Node, int>, u: seq<Node>, a: Node, b: Node) {
    a in key && b in key && (key[a] < key[b] || (key[a] == key[b] && IndexOf(u, a) < IndexOf(u, b)))
  }

  ghost predicate Ordered(key: map<Node, int>, u: seq<Node>, t: seq<Node>) {
    forall i, j {:trigger InOrder(key, u, t[i], t[j])} :: 0 <= i < j < |t| ==> InOrder(key, u, t[i], t[j])
  }

  /** `t` is the stable sort of `u` by the key. */
  ghost predicate StablySorted(key: map<Node, int>, u: seq<Node>, t: seq<Node>) {
    multiset(t) == multiset(u) && Ordered(key, u, t)
  }

  /** Nothing else is. */
  lemma {:induction false} OneStableOrder(key: map<Node, int>, u: seq<Node>, s: seq<Node>, t: seq<Node>)
    requires multiset(s) == multiset(t) && Ordered(key, u, s) && Ordered(key, u, t)
    ensures s == t
  {
    assert |multiset(s)| == |s| && |multiset(t)| == |t|;
    if s != [] {
      SameHeads(key, u, s, t);
      SameTails(s, t);
      OneStableOrder(key, u, s[1..], t[1..]);
      HeadAndTail(s, t);
    }
  }

  lemma SameHeads(key: map<Node, int>, u: seq<Node>, s: seq<Node>, t: seq<Node>)
    requires multiset(s) == multiset(t) && s != [] && t != [] && Ordered(key, u, s) && Ordered(key, u, t)
    ensures s[0] == t[0]
  {
    assert s[0] in multiset(t) && t[0] in multiset(s);
    var i :| 0 <= i < |t| && t[i] == s[0];
    var j :| 0 <= j < |s| && s[j] == t[0];
    assert i > 0 ==> InOrder(key, u, t[0], t[i]);
    assert j > 0 ==> InOrder(key, u, s[0], s[j]);
  }

  lemma HeadAndTail(s: seq<Node>, t: seq<Node>)
    requires s != [] && t != [] && s[0] == t[0] && s[1..] == t[1..]
    ensures s == t
  {
    assert s == [s[0]] + s[1..] && t == [t[0]] + t[1..];
  }

  lemma SameTails(s: seq<Node>, t: seq<Node>)
    requires s != [] && t != [] && s[0] == t[0] && multiset(s) == multiset(t)
    ensures multiset(s[1..]) == multiset(t[1..])
  {
    assert s == [s[0]] + s[1..] && t == [t[0]] + t[1..];
    assert multiset(s[1..]) == multiset(s) - multiset{s[0]};
  }

  /** The sort restores `s` exactly when `s` is sorted and its nodes with equal keys come in the order of `s`. */
  lemma RestoredIff(key: map<Node, int>, u: seq<Node>, s: seq<Node>, t: seq<Node>)
    requires multiset(s) == multiset(t) && Ordered(key, u, t)
    ensures t == s <==> Ordered(key, u, s)
  {
    if Ordered(key, u, s) {
      OneStableOrder(key, u, s, t);
    }
  }

  /** The indices of the items. */
  ghost function Indices(nodes: set<Node>, infos: set<Info>): map<Node, int>
    reads nodes`info, infos`idx
  {
    map n | n in nodes && n.info in infos :: n.info.idx as int
  }

  ghost predicate Indexed(key: map<Node, int>, nodes: set<Node>, infos: set<Info>)
    reads nodes`info, infos`idx
  {
    key == Indices(nodes, infos)
  }

  /** A value of seven bits for each node. */
  ghost predicate SevenBits(values: map<Node, int>, nodes: set<Node>) {
    values.Keys == nodes && forall n :: n in nodes ==> 0 <= values[n] < 128
  }

  /** The values cached in the items. */
  ghost function CachedValues(nodes: set<Node>, infos: set<Info>): (r: map<Node, int>)
    reads nodes`info, infos
    ensures (forall n :: n in nodes ==> n.info in infos) ==> SevenBits(r, nodes)
  {
    map n | n in nodes && n.info in infos :: Low7(Lo(n.info.data16))
  }

  /** The value `calc_func` gives for an item with low byte `lo`; only operations 0 and 1 leave it to `result`. */
  ghost function DataValue(lo: nat, result: int): int {
    if Determined(lo) then Low7(lo) else result
  }

  /** The values the sort by data goes by. */
  ghost function DataValues(keys: Keys, results: map<Node, int>): map<Node, int> {
    map n | n in keys :: DataValue(keys[n].1, if n in results then results[n] else 0)
  }

  /** The order before the last sort: that of the searches or, for a positive index, the stable sort of that by data. */
  ghost predicate Shuffled(keys: Keys, results: map<Node, int>, s: seq<Node>, turns: int, idx: int, t: seq<Node>) {
    if idx > 0 then StablySorted(DataValues(keys, results), Turns(keys, s, turns, idx), t)
      else t == Turns(keys, s, turns, idx)
  }

  /** `a` ends before `b`: by index, then for a positive `idx` by data value, and last by place in `u`. */
  ghost predicate EndsBefore(key: map<Node, int>, values: map<Node, int>, u: seq<Node>, idx: int, a: Node, b: Node) {
    a in key && b in key &&
    (key[a] < key[b] ||
     (key[a] == key[b] && if idx > 0 then InOrder(values, u, a, b) else IndexOf(u, a) < IndexOf(u, b)))
  }

  ghost predicate InFinalOrder(key: map<Node, int>, values: map<Node, int>, u: seq<Node>, idx: int, t: seq<Node>) {
    forall i, j {:trigger EndsBefore(key, values, u, idx, t[i], t[j])} :: 0 <= i < j < |t| ==>
      EndsBefore(key, values, u, idx, t[i], t[j])
  }

  /** The same, told from the list before the call. */
  ghost predicate FinalOrder(keys: Keys, key: map<Node, int>, results: map<Node, int>, s: seq<Node>, turns: int,
                             idx: int, t: seq<Node>) {
    InFinalOrder(key, DataValues(keys, results), Turns(keys, s, turns, idx), idx, t)
  }

  lemma OwnValues(keys: Keys, cached: map<Node, int>)
    requires cached.Keys == keys.Keys && forall n :: n in keys && Determined(keys[n].1) ==> cached[n] == Low7(keys[n].1)
    ensures DataValues(keys, cached) == cached
  {
  }

  lemma IndexOfAt(s: seq<Node>, i: nat)
    requires NoDup(s) && i < |s|
    ensures IndexOf(s, s[i]) == i
  {
  }

  /** In a stably sorted order the places tell who is in order. */
  lemma PlaceTells(values: map<Node, int>, u: seq<Node>, w: seq<Node>, a: Node, b: Node)
    requires NoDup(w) && Ordered(values, u, w) && a in w && b in w && a != b
    ensures IndexOf(w, a) < IndexOf(w, b) <==> InOrder(values, u, a, b)
  {
    var i :| 0 <= i < |w| && w[i] == a;
    var j :| 0 <= j < |w| && w[j] == b;
    IndexOfAt(w, i);
    IndexOfAt(w, j);
    if i < j {
      assert InOrder(values, u, w[i], w[j]);
    } else {
      assert InOrder(values, u, w[j], w[i]);
    }
  }

  /** Being in order for the last sort, told without the order before it. */
  lemma OrderTold(key: map<Node, int>, keys: Keys, results: map<Node, int>, s: seq<Node>, turns: int, idx: int,
                  w: seq<Node>, t: seq<Node>)
    requires Shuffled(keys, results, s, turns, idx, w) && NoDup(w) && multiset(t) == multiset(w)
    ensures Ordered(key, w, t) <==> FinalOrder(keys, key, results, s, turns, idx, t)
  {
    var values, u := DataValues(keys, results), Turns(keys, s, turns, idx);
    CountNoDup(w, t);
    forall i, j | 0 <= i < j < |t|
      ensures InOrder(key, w, t[i], t[j]) <==> EndsBefore(key, values, u, idx, t[i], t[j])
    {
      assert t[i] in multiset(w) && t[j] in multiset(w);
      if idx > 0 {
        PlaceTells(values, u, w, t[i], t[j]);
      }
    }
    if Ordered(key, w, t) {
      forall i, j | 0 <= i < j < |t|
        ensures EndsBefore(key, values, u, idx, t[i], t[j])
      {
        assert InOrder(key, w, t[i], t[j]);
      }
    } else {
      var i, j :| 0 <= i < j < |t| && !InOrder(key, w, t[i], t[j]);
      assert !EndsBefore(key, values, u, idx, t[i], t[j]);
    }
  }

  /** The find loop, and the sort by data that follows it for a positive index. */
  method FindAndSort(res: Results, finderIdx: int16, ghost s: seq<Node>, ghost nodes: set<Node>, ghost infos: set<Info>,
                     ghost key: map<Node, int>)
    returns (list: Node, lastData: int, lastIdx: int, ghost t: seq<Node>, ghost results: map<Node, int>)
    requires IsList(res.list, s) && |s| >= 3 && Within(s, nodes) && forall n :: n in nodes ==> n.info in infos
    requires Indexed(key, nodes, infos)
    modifies nodes`next, infos`data16
    ensures IsList(list, t) && multiset(t) == multiset(s) && Within(t, nodes)
    ensures SevenBits(results, nodes) && Shuffled(old(KeysOf(nodes, infos)), results, s, res.seed3, finderIdx, t)
    ensures Indexed(key, nodes, infos)
    ensures forall n :: n in nodes ==> Hi(n.info.data16) == old(Hi(n.info.data16))
  {
    ghost var keys := KeysOf(nodes, infos);
    list, lastData, lastIdx, t := FindLoop(res.list, res.seed3, finderIdx, s, nodes, keys, infos);
    if finderIdx > 0 {
      list, t := SortByData(list, t, nodes, infos, keys, key);
    }
    results := CachedValues(nodes, infos);
    SameElements(s, t, nodes);
  }

  /** Up to the undo: the nodes in the order the loop or the sort left, with their items and high bytes. */
  method Scramble(res: Results, finderIdx: int16, ghost s: seq<Node>, ghost nodes: set<Node>, ghost infos: set<Info>)
    returns (list: Node, ghost t: seq<Node>, ghost results: map<Node, int>)
    requires IsList(res.list, s) && |s| >= 3 && Within(s, nodes) && forall n :: n in nodes ==> n.info in infos
    modifies nodes, infos`data16
    ensures IsList(list, t) && multiset(t) == multiset(s) && Within(t, nodes)
    ensures SevenBits(results, nodes) && Shuffled(old(KeysOf(nodes, infos)), results, s, res.seed3, finderIdx, t)
    ensures Indexed(old(Indices(nodes, infos)), nodes, infos)
    ensures forall n :: n in nodes ==> n.info == old(n.info) && Hi(n.info.data16) == old(Hi(n.info.data16))
  {
    ghost var key := Indices(nodes, infos);
    var lastData, lastIdx;
    list, lastData, lastIdx, t, results := FindAndSort(res, finderIdx, s, nodes, infos, key);
    SameElements(s, t, nodes);
    RemoveAndBack(list, lastData, lastIdx, t, nodes, infos, key);
    KeptList(t, nodes);
  }

  /** The removal and its undo, with the indices in the picture. */
  method RemoveAndBack(list: Node, data16: int, idx: int, ghost t: seq<Node>, ghost nodes: set<Node>,
                       ghost infos: set<Info>, ghost key: map<Node, int>)
    requires IsList(list, t) && Within(t, nodes) && |t| >= 3 && forall n :: n in nodes ==> n.info in infos
    requires Indexed(key, nodes, infos)
    modifies nodes
    ensures forall n :: n in nodes ==> n.next == old(n.next) && n.info == old(n.info)
    ensures Indexed(key, nodes, infos)
  {
    RemoveAndUndo(list, data16, idx, t, nodes);
    SameIndices(key, nodes, infos);
  }

  lemma SameIndices(key: map<Node, int>, nodes: set<Node>, infos: set<Info>)
    requires key.Keys == nodes && forall n :: n in nodes ==> n.info in infos && key[n] == n.info.idx as int
    ensures Indices(nodes, infos) == key
  {
  }

  method SortByData(list0: Node, ghost u: seq<Node>, ghost nodes: set<Node>, ghost infos: set<Info>, ghost keys: Keys,
                    ghost key: map<Node, int>)
    returns (list: Node, ghost t: seq<Node>)
    requires IsList(list0, u) && Within(u, nodes) && forall n :: n in nodes ==> n.info in infos
    requires keys.Keys == nodes && Keyed(keys, nodes, infos) && Indexed(key, nodes, infos)
    modifies nodes`next, infos`data16
    ensures Indexed(key, nodes, infos)
    ensures IsList(list, t) && StablySorted(DataValues(keys, CachedValues(nodes, infos)), u, t)
    ensures forall n :: n in nodes ==> Hi(n.info.data16) == old(Hi(n.info.data16))
  {
    list, t := MergeSort(list0, ByData, u, nodes, infos);
    SameElements(u, t, nodes);
    WithinElements(t, nodes);
    ghost var cached := CachedValues(nodes, infos);
    forall i, j | 0 <= i < j < |t|
      ensures InOrder(cached, u, t[i], t[j])
    {
      assert Precedes(ByData, u, t[i], t[j]);
    }
    OwnValues(keys, cached);
  }

  lemma KeptList(t: seq<Node>, nodes: set<Node>)
    requires Within(t, nodes)
    ensures forall i :: 0 <= i < |t| ==> t[i] in nodes
  {
  }

  /** The last sort, by index, and the walk after it. */
  method Reorder(list0: Node, ghost u: seq<Node>, ghost nodes: set<Node>, ghost infos: set<Info>)
    returns (list: Node, ghost t: seq<Node>)
    requires IsList(list0, u) && |u| >= 3 && Within(u, nodes) && forall n :: n in nodes ==> n.info in infos
    modifies nodes`next, infos`data16
    ensures IsList(list, t) && StablySorted(old(Indices(nodes, infos)), u, t)
    ensures forall n :: n in nodes ==> Hi(n.info.data16) == old(Hi(n.info.data16))
    ensures forall n :: n in u ==> Regenerated(ItemOf(n.info.data16))
  {
    list, t := MergeSort(list0, ByIdx(true), u, nodes, infos);
    SameElements(u, t, nodes);
    WithinElements(t, nodes);
    forall i, j | 0 <= i < j < |t|
      ensures InOrder(Indices(nodes, infos), u, t[i], t[j])
    {
      assert Precedes(ByIdx(true), u, t[i], t[j]);
    }
    Walk(list.next, t, 1);
  }

  /** The word `now` has the high byte of `was`, and the same low byte. */
  predicate Rebuilt(was: int16, now: int16) {
    now / 256 == was / 256 && now % 256 == was / 256 % 256
  }

  /** The body of `core_bench_list`. */
  method BenchSteps(res: Results, finderIdx: int16, ghost s: seq<Node>, ghost nodes: set<Node>, ghost infos: set<Info>)
    returns (list: Node, ghost t: seq<Node>, ghost shuffled: seq<Node>, ghost results: map<Node, int>)
    requires IsList(res.list, s) && |s| >= 3 && Within(s, nodes) && forall n :: n in nodes ==> n.info in infos
    modifies nodes, infos`data16
    ensures IsList(list, t) && multiset(t) == multiset(s) && Within(t, nodes)
    ensures SevenBits(results, nodes) && Shuffled(old(KeysOf(nodes, infos)), results, s, res.seed3, finderIdx, shuffled)
    ensures StablySorted(old(Indices(nodes, infos)), shuffled, t)
    ensures forall n :: n in nodes ==> n.info == old(n.info)
    ensures forall n :: n in s ==> Rebuilt(old(n.info.data16), n.info.data16)
    ensures forall n :: n in s && old(Regenerated(ItemOf(n.info.data16))) ==> n.info.data16 == old(n.info.data16)
  {
    list, shuffled, results := Scramble(res, finderIdx, s, nodes, infos);
    SameElements(s, shuffled, nodes);
    list, t := Reorder(list, shuffled, nodes, infos);
    SameElements(s, t, nodes);
    forall n | n in s
      ensures Rebuilt(old(n.info.data16), n.info.data16)
      ensures old(Regenerated(ItemOf(n.info.data16))) ==> n.info.data16 == old(n.info.data16)
    {
      assert n in multiset(shuffled);
      WordBack(old(n.info.data16), n.info.data16);
    }
  }

  /** A word with its high byte kept and its low byte rebuilt; one that was so before is unchanged. */
  lemma WordBack(was: int16, now: int16)
    requires Regenerated(ItemOf(now)) && Hi(now) == Hi(was)
    ensures Rebuilt(was, now) && (Regenerated(ItemOf(was)) ==> now == was)
  {
    BytesOfWord(was);
    BytesOfWord(now);
  }

  /**
   * `core_bench_list`, on a list of at least three nodes. At the end each node has its own item and each low byte is
   * rebuilt from the high one. The list is sorted by index; nodes with equal indices come, for a positive index, by
   * data value and then in the order the searches left, otherwise in that order. It is restored, links and head
   * included, exactly when it was in this order to begin with: always, if its indices increase. `results` is what
   * operations 0 and 1 returned.
   */
  method BenchList(res: Results, finderIdx: int16, ghost s: seq<Node>, ghost nodes: set<Node>, ghost infos: set<Info>)
    returns (list: Node, ghost t: seq<Node>, ghost results: map<Node, int>)
    requires IsList(res.list, s) && |s| >= 3 && Within(s, nodes) && forall n :: n in nodes ==> n.info in infos
    modifies nodes, infos`data16
    ensures IsList(list, t) && multiset(t) == multiset(s)
    ensures SevenBits(results, nodes)
    ensures FinalOrder(old(KeysOf(nodes, infos)), old(Indices(nodes, infos)), results, s, res.seed3, finderIdx, t)
    ensures t == s <==>
      FinalOrder(old(KeysOf(nodes, infos)), old(Indices(nodes, infos)), results, s, res.seed3, finderIdx, s)
    ensures forall n :: n in nodes ==> n.info == old(n.info)
    ensures forall n :: n in s ==> Rebuilt(old(n.info.data16), n.info.data16)
    ensures forall n :: n in s && old(Regenerated(ItemOf(n.info.data16))) ==> n.info.data16 == old(n.info.data16)
    ensures t == s ==> list == res.list && forall n :: n in s ==> n.next == old(n.next)
    ensures old(IncreasingIdx(s)) ==> t == s
  {
    ghost var key, keys := Indices(nodes, infos), KeysOf(nodes, infos);
    ghost var shuffled;
    WithinElements(s, nodes);
    ghost var increasing := IncreasingIdx(s);
    IncreasingKeys(key, s, nodes, infos);
    list, t, shuffled, results := BenchSteps(res, finderIdx, s, nodes, infos);
    Restored(keys, key, results, s, res.seed3, finderIdx, shuffled, t, increasing);
    if t == s {
      forall i | 0 <= i < |s|
        ensures s[i].next == old(s[i].next)
      {
        assert old(s[i].next) == if i + 1 < |s| then s[i + 1] else null;
        assert s[i].next == if i + 1 < |s| then s[i + 1] else null;
      }
    }
  }

  ghost predicate Increasing(key: map<Node, int>, s: seq<Node>) {
    forall i, j :: 0 <= i < j < |s| ==> s[i] in key && s[j] in key && key[s[i]] < key[s[j]]
  }

  lemma IncreasingKeys(key: map<Node, int>, s: seq<Node>, nodes: set<Node>, infos: set<Info>)
    requires Within(s, nodes) && (forall n :: n in nodes ==> n.info in infos) && key == Indices(nodes, infos)
    ensures IncreasingIdx(s) ==> Increasing(key, s)
  {
    WithinElements(s, nodes);
  }

  lemma Restored(keys: Keys, key: map<Node, int>, results: map<Node, int>, s: seq<Node>, turns: int, idx: int,
                 w: seq<Node>, t: seq<Node>, increasing: bool)
    requires increasing ==> Increasing(key, s)
    requires NoDup(s) && multiset(w) == multiset(s) && Shuffled(keys, results, s, turns, idx, w) &&
      StablySorted(key, w, t)
    ensures multiset(t) == multiset(s) && FinalOrder(keys, key, results, s, turns, idx, t)
    ensures t == s <==> FinalOrder(keys, key, results, s, turns, idx, s)
    ensures increasing ==> t == s
  {
    CountNoDup(s, w);
    RestoredIff(key, w, s, t);
    OrderTold(key, keys, results, s, turns, idx, w, t);
    OrderTold(key, keys, results, s, turns, idx, w, s);
  }

  /** Where no item is left to operations 0 and 1, what they return does not matter: the keys alone decide. */
  lemma ResultsUnused(keys: Keys, key: map<Node, int>, results: map<Node, int>, others: map<Node, int>, s: seq<Node>,
                      turns: int, idx: int, t: seq<Node>)
    requires forall n :: n in keys ==> Determined(keys[n].1)
    ensures FinalOrder(keys, key, results, s, turns, idx, t) <==> FinalOrder(keys, key, others, s, turns, idx, t)
  {
    assert DataValues(keys, results) == DataValues(keys, others);
  }

  // ---------------------------------------------------------------- a list that is not restored

  /** A search that finds nothing only reverses the list. */
  lemma MissReverses(keys: Keys, s: seq<Node>, idx: int)
    requires forall n :: n in s ==> !KeyMatches(keys, n, 0, idx)
    ensures Turns(keys, s, 1, idx) == Reversed(s)
  {
    PositionIs(keys, s, 0, idx, |s|);
    OneTurnMore(keys, s, 0, idx, s, Turned(keys, s, 0, idx));
  }

  lemma ReversedThree(a: Node, b: Node, c: Node)
    requires a != b && a != c && b != c
    ensures NoDup([a, b, c]) && multiset([a, b, c]) == multiset{a, b, c}
    ensures IndexOf(Reversed([a, b, c]), c) < IndexOf(Reversed([a, b, c]), b)
  {
    var u := Reversed([a, b, c]);
    assert u == [c, b, a];
    IndexOfAt(u, 0);
    IndexOfAt(u, 1);
  }

  lemma OrderOfThree(t: seq<Node>, a: Node, b: Node, c: Node)
    requires a != b && a != c && b != c && multiset(t) == multiset{a, b, c}
    requires forall i, j :: 0 <= i < j < |t| ==>
      !(t[i] == b && t[j] == a) && !(t[i] == c && t[j] == a) && !(t[i] == b && t[j] == c)
    ensures t == [a, c, b]
  {
    assert |multiset(t)| == |t|;
    assert t[0] in multiset(t) && t[1] in multiset(t) && t[2] in multiset(t);
    assert t == [t[0], t[1], t[2]];
    assert multiset(t) == multiset{t[0], t[1], t[2]};
  }

  /**
   * Two of three nodes have one index, and the later one has the smaller value; no node is found by the first search.
   */
  ghost predicate TiedKeys(keys: Keys, key: map<Node, int>, a: Node, b: Node, c: Node, idx: int) {
    && a != b && a != c && b != c
    && a in key && b in key && c in key && key[a] < key[b] == key[c]
    && b in keys && c in keys && Determined(keys[b].1) && Determined(keys[c].1) && Low7(keys[c].1) < Low7(keys[b].1)
    && forall n :: n in [a, b, c] ==> !KeyMatches(keys, n, 0, idx)
  }

  lemma LaterFirst(keys: Keys, key: map<Node, int>, values: map<Node, int>, u: seq<Node>, a: Node, b: Node, c: Node,
                   idx: int)
    requires TiedKeys(keys, key, a, b, c, idx) && IndexOf(u, c) < IndexOf(u, b)
    requires b in values && c in values && values[c] < values[b]
    ensures !EndsBefore(key, values, u, idx, b, a) && !EndsBefore(key, values, u, idx, c, a)
    ensures !EndsBefore(key, values, u, idx, b, c)
  {
  }

  /** The one turn puts the tied nodes in the opposite order, and the data values do not put them back. */
  lemma SwappedOrder(keys: Keys, key: map<Node, int>, results: map<Node, int>, a: Node, b: Node, c: Node, idx: int,
                     t: seq<Node>)
    requires TiedKeys(keys, key, a, b, c, idx) && multiset(t) == multiset([a, b, c])
    requires FinalOrder(keys, key, results, [a, b, c], 1, idx, t)
    ensures t == [a, c, b]
  {
    var s := [a, b, c];
    var values, u := DataValues(keys, results), Reversed(s);
    MissReverses(keys, s, idx);
    ReversedThree(a, b, c);
    LaterFirst(keys, key, values, u, a, b, c, idx);
    InThatOrder(key, values, u, idx, t, a, b, c);
  }

  lemma InThatOrder(key: map<Node, int>, values: map<Node, int>, u: seq<Node>, idx: int, t: seq<Node>, a: Node, b: Node,
                    c: Node)
    requires InFinalOrder(key, values, u, idx, t) && a != b && a != c && b != c && multiset(t) == multiset{a, b, c}
    requires !EndsBefore(key, values, u, idx, b, a) && !EndsBefore(key, values, u, idx, c, a)
    requires !EndsBefore(key, values, u, idx, b, c)
    ensures t == [a, c, b]
  {
    forall i, j | 0 <= i < j < |t|
      ensures !(t[i] == b && t[j] == a) && !(t[i] == c && t[j] == a) && !(t[i] == b && t[j] == c)
    {
      assert EndsBefore(key, values, u, idx, t[i], t[j]);
    }
    OrderOfThree(t, a, b, c);
  }

  /**
   * Three nodes in order, sorted by index, with equal bytes and no zero among them; the last two have the same index.
   */
  ghost predicate Tied(a: Node, b: Node, c: Node)
    reads a, b, c, a.info, b.info, c.info
  {
    && IsList(a, [a, b, c])
    && a.info.idx == 0 && b.info.idx == c.info.idx == 5
    && a.info.data16 == 0x0202 && b.info.data16 == 0x1212 && c.info.data16 == 0x0a0a
  }

  method TiedNodes() returns (a: Node, b: Node, c: Node)
    ensures fresh({a, b, c}) && fresh({a.info, b.info, c.info}) && Tied(a, b, c)
  {
    var x := new Info(0x0202, 0);
    var y := new Info(0x1212, 5);
    var z := new Info(0x0a0a, 5);
    a := new Node(x);
    b := new Node(y);
    c := new Node(z);
    a.next := b;
    b.next := c;
  }

  lemma TiedHaveTiedKeys(a: Node, b: Node, c: Node, nodes: set<Node>, infos: set<Info>, idx: int)
    requires Tied(a, b, c) && nodes == {a, b, c} && infos == {a.info, b.info, c.info} && (idx == 1 || idx == -1)
    ensures TiedKeys(KeysOf(nodes, infos), Indices(nodes, infos), a, b, c, idx)
  {
    var s := [a, b, c];
    assert s[0] != s[1] && s[0] != s[2] && s[1] != s[2];
    assert Keyed(KeysOf(nodes, infos), nodes, infos);
  }

  /** After one search, which finds nothing, either call of the program leaves the last two nodes exchanged. */
  method TiedNodesSwapped(a: Node, b: Node, c: Node, finderIdx: int16) returns (list: Node)
    requires Tied(a, b, c) && (finderIdx == 1 || finderIdx == -1)
    modifies {a, b, c}, {a.info, b.info, c.info}`data16
    ensures IsList(list, [a, c, b])
  {
    var res := new Results(a, 1);
    ghost var s, nodes, infos := [a, b, c], {a, b, c}, {a.info, b.info, c.info};
    ghost var keys, key := KeysOf(nodes, infos), Indices(nodes, infos);
    TiedHaveTiedKeys(a, b, c, nodes, infos, finderIdx);
    ghost var t, results;
    list, t, results := BenchList(res, finderIdx, s, nodes, infos);
    SwappedOrder(keys, key, results, a, b, c, finderIdx, t);
  }

  // ---------------------------------------------------------------- a list that a hit restores

  /** The second of three nodes is found by its low byte, and shares its index with the first one. */
  ghost predicate HitKeys(keys: Keys, key: map<Node, int>, a: Node, b: Node, c: Node) {
    && a != b && a != c && b != c
    && a in key && b in key && c in key && key[a] == key[b] < key[c]
    && a in keys && b in keys && keys[a].1 != 0 && keys[b].1 == 0
  }

  /** The search finds the second node, so that the first one moves up. */
  lemma HitTurn(keys: Keys, key: map<Node, int>, a: Node, b: Node, c: Node)
    requires HitKeys(keys, key, a, b, c)
    ensures Turns(keys, [a, b, c], 1, -1) == [c, a, b]
  {
    var s := [a, b, c];
    assert FirstMatch(keys, s, 0, -1, 1);
    TurnedAt(keys, s, 0, -1, 1);
    OneTurnMore(keys, s, 0, -1, s, Turned(keys, s, 0, -1));
  }

  lemma ThreeInOrder(key: map<Node, int>, values: map<Node, int>, u: seq<Node>, idx: int, a: Node, b: Node, c: Node)
    requires EndsBefore(key, values, u, idx, a, b) && EndsBefore(key, values, u, idx, a, c)
    requires EndsBefore(key, values, u, idx, b, c)
    ensures InFinalOrder(key, values, u, idx, [a, b, c])
  {
  }

  lemma PlacesOfThree(a: Node, b: Node, c: Node)
    requires a != b && a != c && b != c
    ensures IndexOf([c, a, b], a) < IndexOf([c, a, b], b)
  {
    IndexOfAt([c, a, b], 1);
    IndexOfAt([c, a, b], 2);
  }

  /** The first node is before the second again: without the move the last sort would exchange them. */
  lemma HitOrder(keys: Keys, key: map<Node, int>, results: map<Node, int>, a: Node, b: Node, c: Node)
    requires HitKeys(keys, key, a, b, c)
    ensures FinalOrder(keys, key, results, [a, b, c], 1, -1, [a, b, c])
  {
    HitTurn(keys, key, a, b, c);
    PlacesOfThree(a, b, c);
    ThreeInOrder(key, DataValues(keys, results), [c, a, b], -1, a, b, c);
  }

  /** Three nodes, sorted by index; the low byte of the second one is zero, and its index that of the first. */
  ghost predicate Hit(a: Node, b: Node, c: Node)
    reads a, b, c, a.info, b.info, c.info
  {
    && IsList(a, [a, b, c])
    && a.info.idx == b.info.idx == 5 && c.info.idx == 9
    && a.info.data16 == 0x0302 && b.info.data16 == 0x0100 && c.info.data16 == 0x0201
  }

  method HitNodes() returns (a: Node, b: Node, c: Node)
    ensures fresh({a, b, c}) && fresh({a.info, b.info, c.info}) && Hit(a, b, c)
  {
    var x := new Info(0x0302, 5);
    var y := new Info(0x0100, 5);
    var z := new Info(0x0201, 9);
    a := new Node(x);
    b := new Node(y);
    c := new Node(z);
    a.next := b;
    b.next := c;
  }

  lemma HitHaveHitKeys(a: Node, b: Node, c: Node, nodes: set<Node>, infos: set<Info>)
    requires Hit(a, b, c) && nodes == {a, b, c} && infos == {a.info, b.info, c.info}
    ensures HitKeys(KeysOf(nodes, infos), Indices(nodes, infos), a, b, c)
  {
    var s := [a, b, c];
    assert s[0] != s[1] && s[0] != s[2] && s[1] != s[2];
    assert Keyed(KeysOf(nodes, infos), nodes, infos);
  }

  /** One search by the low byte, which finds the second node: the list is restored. */
  method HitRestored(a: Node, b: Node, c: Node) returns (list: Node)
    requires Hit(a, b, c)
    modifies {a, b, c}, {a.info, b.info, c.info}`data16
    ensures IsList(list, [a, b, c])
  {
    var res := new Results(a, 1);
    ghost var s, nodes, infos := [a, b, c], {a, b, c}, {a.info, b.info, c.info};
    ghost var keys, key := KeysOf(nodes, infos), Indices(nodes, infos);
    HitHaveHitKeys(a, b, c, nodes, infos);
    ghost var t, results;
    list, t, results := BenchList(res, -1, s, nodes, infos);
    HitOrder(keys, key, results, a, b, c);
  }
}
