/**
 * Singly linked lists on the heap, seen as sequences of nodes, and the pointer
 * operations of core_list_join.c other than the sort.
 */
module ListHeap {
  import opened ListData

  ghost function First(s: seq<Node>): Node? { if s == [] then null else s[0] }

  ghost function Last(s: seq<Node>): Node? { if s == [] then null else s[|s| - 1] }

  /** Each node points to the next one; the last may point anywhere. */
  ghost predicate Links(s: seq<Node>)
    reads s`next
  {
    forall i :: 0 <= i < |s| - 1 ==> s[i].next == s[i + 1]
  }

  ghost predicate ToNull(s: seq<Node>)
    reads s`next
  {
    Links(s) && (s != [] ==> s[|s| - 1].next == null)
  }

  ghost predicate NoDup<T>(s: seq<T>) {
    forall i, j :: 0 <= i < j < |s| ==> s[i] != s[j]
  }

  ghost predicate IsList(head: Node?, s: seq<Node>)
    reads s`next
  {
    head == First(s) && ToNull(s) && NoDup(s)
  }

  lemma NoDupCount<T>(s: seq<T>, x: T)
    requires NoDup(s)
    ensures multiset(s)[x] <= 1
  {
    if s != [] {
      var n := |s| - 1;
      assert s == s[..n] + [s[n]];
      NoDupCount(s[..n], x);
      if x == s[n] {
        assert x !in s[..n];
      }
    }
  }

  /** Counting decides where a node can be: with no node twice, what is in one part is in no other. */
  lemma CountApart<T>(whole: seq<T>, a: seq<T>, b: seq<T>)
    requires NoDup(whole) && multiset(whole) == multiset(a) + multiset(b)
    ensures NoDup(a) && NoDup(b)
    ensures forall x :: x in a ==> x !in b
  {
    forall x | x in a
      ensures x !in b
    {
      NoDupCount(whole, x);
      assert x in multiset(a);
    }
    CountNoDup(whole, a);
    CountNoDup(whole, b);
  }

  lemma CountNoDup<T>(whole: seq<T>, a: seq<T>)
    requires NoDup(whole) && multiset(a) <= multiset(whole)
    ensures NoDup(a)
  {
    forall i, j | 0 <= i < j < |a|
      ensures a[i] != a[j]
    {
      NoDupCount(whole, a[i]);
      assert a == a[..j] + a[j..];
      assert a[i] in multiset(a[..j]) && a[j] in multiset(a[j..]);
    }
  }

  /** `core_list_find`: the first node with the wanted index, or low byte when the index is negative. */
  method Find(list: Node?, data16: int, idx: int, ghost s: seq<Node>) returns (found: Node?, ghost at: nat)
    requires list == First(s) && ToNull(s)
    ensures at <= |s| && found == (if at < |s| then s[at] else null)
    ensures forall i :: 0 <= i < at ==> !Matches(s[i].info, data16, idx)
    ensures at < |s| ==> Matches(s[at].info, data16, idx)
    ensures found != null ==> found in s && Matches(found.info, data16, idx)
    ensures found == null ==> forall n :: n in s ==> !Matches(n.info, data16, idx)
  {
    found, at := list, 0;
    if idx >= 0 {
      while found != null && found.info.idx != idx
        invariant at <= |s| && found == (if at < |s| then s[at] else null)
        invariant forall i :: 0 <= i < at ==> !Matches(s[i].info, data16, idx)
        decreases |s| - at
      {
        found, at := found.next, at + 1;
      }
    } else {
      while found != null && Lo(found.info.data16) != data16
        invariant at <= |s| && found == (if at < |s| then s[at] else null)
        invariant forall i :: 0 <= i < at ==> !Matches(s[i].info, data16, idx)
        decreases |s| - at
      {
        found, at := found.next, at + 1;
      }
    }
  }

  ghost predicate Matches(x: Info, data16: int, idx: int)
    reads x
  {
    if idx >= 0 then x.idx == idx else Lo(x.data16) == data16
  }

  ghost function Reversed<T>(s: seq<T>): (r: seq<T>)
    ensures |r| == |s|
    ensures forall i :: 0 <= i < |s| ==> r[i] == s[|s| - 1 - i]
    ensures multiset(r) == multiset(s)
  {
    if s == [] then []
    else
      assert s == s[..|s| - 1] + [s[|s| - 1]];
      [s[|s| - 1]] + Reversed(s[..|s| - 1])
  }

  /** `core_list_reverse` */
  method Reverse(list: Node?, ghost s: seq<Node>, ghost nodes: set<Node>) returns (r: Node?)
    requires IsList(list, s) && forall n :: n in s ==> n in nodes
    modifies nodes`next
    ensures IsList(r, Reversed(s))
  {
    var rest := list;
    r := null;
    ghost var k := 0;
    while rest != null
      invariant k <= |s| && rest == (if k < |s| then s[k] else null)
      invariant forall i :: k <= i < |s| - 1 ==> s[i].next == s[i + 1]
      invariant k < |s| ==> s[|s| - 1].next == null
      invariant r == (if k > 0 then s[k - 1] else null)
      invariant forall i :: 0 < i < k ==> s[i].next == s[i - 1]
      invariant k > 0 ==> s[0].next == null
      decreases |s| - k
    {
      var tmp := rest.next;
      assert rest == s[k] && tmp == s[k].next;
      assert forall i :: 0 <= i < |s| && i != k ==> s[i] != rest;
      rest.next := r;
      r := rest;
      rest := tmp;
      k := k + 1;
    }
    ReversedLinks(r, s);
  }

  /** Every node linked to the one before it: the reversed list. */
  lemma ReversedLinks(r: Node?, s: seq<Node>)
    requires NoDup(s) && r == (if s == [] then null else s[|s| - 1])
    requires forall i :: 0 < i < |s| ==> s[i].next == s[i - 1]
    requires s != [] ==> s[0].next == null
    ensures IsList(r, Reversed(s))
  {
    var t := Reversed(s);
    forall i | 0 <= i < |t| - 1
      ensures t[i].next == t[i + 1]
    {
      assert t[i] == s[|s| - 1 - i] && t[i + 1] == s[|s| - 1 - i - 1];
    }
  }

  /** `core_list_remove`: the information of the next node is copied over, and that node unlinked. */
  method Remove(item: Node) returns (r: Node)
    requires item.next != null && item.next != item
    modifies item, item.next
    ensures r == old(item.next)
    ensures item.info == old(item.next.info) && r.info == old(item.info)
    ensures item.next == old(item.next.next) && r.next == null
  {
    r := item.next;
    var tmp := item.info;
    item.info := r.info;
    r.info := tmp;
    item.next := item.next.next;
    r.next := null;
  }

  /** `core_list_undo_remove` */
  method UndoRemove(removed: Node, modified: Node) returns (r: Node)
    requires removed != modified
    modifies removed, modified
    ensures r == removed
    ensures removed.info == old(modified.info) && modified.info == old(removed.info)
    ensures removed.next == old(modified.next) && modified.next == removed
  {
    var tmp := removed.info;
    removed.info := modified.info;
    modified.info := tmp;
    removed.next := modified.next;
    modified.next := removed;
    r := removed;
  }
}
