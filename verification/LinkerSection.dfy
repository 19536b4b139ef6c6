/** Linker sections: their checks, sorting by start address, and inferring the missing ends. */
module LinkerSection {

  import opened RamBank

  datatype Section = Section(name: string, start: int, end: Option<int>) {

    /** `check` returns instead of raising. */
    predicate Checked() {
      name != "" && start >= 0 && (end.Some? ==> end.value > start)
    }
  }

  function BySize(name: string, start: int, size: int): (r: Option<Section>)
    ensures r.Some? <==> name != "" && start >= 0 && size > 0
    ensures r.Some? ==> r.value.Checked() && r.value.end == Some(r.value.start + size)
  {
    var s := Section(name, start, Some(start + size));
    if s.Checked() then Some(s) else None
  }

  // ---------------------------------------------------------------- stable sort by start address

  predicate Sorted(s: seq<Section>) {
    forall i, j :: 0 <= i < j < |s| ==> s[i].start <= s[j].start
  }

  /** Equal starts keep their order: `x` goes before the first section that starts later. */
  function Insert(x: Section, s: seq<Section>): (r: seq<Section>)
  {
    if s == [] || x.start <= s[0].start then [x] + s else [s[0]] + Insert(x, s[1..])
  }

  function Sort(s: seq<Section>): (r: seq<Section>)
  {
    if s == [] then [] else Insert(s[0], Sort(s[1..]))
  }

  /** The sections that start at `a`, in order. */
  function At(s: seq<Section>, a: int): seq<Section> {
    if s == [] then [] else (if s[0].start == a then [s[0]] else []) + At(s[1..], a)
  }

  lemma {:induction false} InsertSorted(x: Section, s: seq<Section>)
    requires Sorted(s)
    ensures Sorted(Insert(x, s)) && multiset(Insert(x, s)) == multiset(s) + multiset{x}
  {
    if s == [] || x.start <= s[0].start {
    } else {
      var rest := Insert(x, s[1..]);
      InsertSorted(x, s[1..]);
      assert s == [s[0]] + s[1..];
      NoneEarlier(s, x, rest);
    }
  }

  lemma AtCons(x: Section, s: seq<Section>, a: int)
    ensures At([x] + s, a) == if x.start == a then [x] + At(s, a) else At(s, a)
  {
    assert ([x] + s)[1..] == s;
  }

  lemma {:induction false} InsertAt(x: Section, s: seq<Section>, a: int)
    ensures At(Insert(x, s), a) == if x.start == a then [x] + At(s, a) else At(s, a)
  {
    if s == [] || x.start <= s[0].start {
      AtCons(x, s, a);
    } else {
      InsertAt(x, s[1..], a);
      AtCons(s[0], Insert(x, s[1..]), a);
      AtCons(s[0], s[1..], a);
      assert s == [s[0]] + s[1..];
      assert s[0].start != x.start;
    }
  }

  lemma NoneEarlier(s: seq<Section>, x: Section, rest: seq<Section>)
    requires Sorted(s) && s != [] && s[0].start < x.start
    requires Sorted(rest) && multiset(rest) == multiset(s[1..]) + multiset{x}
    ensures Sorted([s[0]] + rest)
  {
    forall j | 0 <= j < |rest|
      ensures s[0].start <= rest[j].start
    {
      assert rest[j] in multiset(rest);
      if rest[j] != x {
        assert rest[j] in s[1..];
      }
    }
  }

  /** Sorting orders the sections, keeps each of them, and keeps the order of those with the same start. */
  lemma SortIsStable(s: seq<Section>, a: int)
    ensures Sorted(Sort(s)) && multiset(Sort(s)) == multiset(s) && At(Sort(s), a) == At(s, a)
  {
    SortKeeps(s);
    SortAt(s, a);
  }

  lemma {:induction false} SortKeeps(s: seq<Section>)
    ensures Sorted(Sort(s)) && multiset(Sort(s)) == multiset(s)
  {
    if s != [] {
      SortKeeps(s[1..]);
      InsertSorted(s[0], Sort(s[1..]));
      HeadOut(s);
    }
  }

  lemma {:induction false} SortAt(s: seq<Section>, a: int)
    ensures At(Sort(s), a) == At(s, a)
  {
    if s != [] {
      SortAt(s[1..], a);
      InsertAt(s[0], Sort(s[1..]), a);
    }
  }

  lemma HeadOut(s: seq<Section>)
    requires s != []
    ensures multiset(s) == multiset(s[1..]) + multiset{s[0]}
  {
    assert s == [s[0]] + s[1..];
  }

  // ---------------------------------------------------------------- inferring ends

  /** A section without an end reaches to the next section's start, the last one to `limit`. */
  function WithEnd(s: seq<Section>, i: nat, limit: Option<int>): Section
    requires i < |s|
  {
    if s[i].end.Some? then s[i]
    else if i + 1 < |s| then s[i].(end := Some(s[i + 1].start))
    else s[i].(end := limit)
  }

  function WithEnds(s: seq<Section>, limit: Option<int>): (r: seq<Section>)
  {
    seq(|s|, i requires 0 <= i < |s| => WithEnd(s, i, limit))
  }

  /**
   * `out` is `s` with the missing ends filled in: names, starts and given ends are kept, a missing end is the start of
   * the next section, and the last one `limit`.
   */
  ghost predicate EndsFilled(s: seq<Section>, out: seq<Section>, limit: Option<int>) {
    && |out| == |s|
    && (forall i :: 0 <= i < |s| ==> out[i].name == s[i].name && out[i].start == s[i].start)
    && (forall i :: 0 <= i < |s| && s[i].end.Some? ==> out[i].end == s[i].end)
    && (forall i :: 0 <= i < |s| - 1 && s[i].end.None? ==> out[i].end == Some(s[i + 1].start))
    && (s != [] && s[|s| - 1].end.None? ==> out[|s| - 1].end == limit)
  }

  lemma WithEndsFills(s: seq<Section>, limit: Option<int>)
    ensures EndsFilled(s, WithEnds(s, limit), limit)
  {
  }

  predicate Holds(s: Section, a: int) {
    s.start <= a && s.end.Some? && a < s.end.value
  }

  /** Filled in where all were missing, the sections divide the addresses up to the limit among themselves. */
  lemma OneSectionEach(s: seq<Section>, out: seq<Section>, limit: int, a: int) returns (i: nat)
    requires Sorted(s) && s != [] && (forall k :: 0 <= k < |s| ==> s[k].end.None?) && EndsFilled(s, out, Some(limit))
    requires s[0].start <= a < limit
    ensures i < |out| && Holds(out[i], a) && forall k :: 0 <= k < |out| && k != i ==> !Holds(out[k], a)
  {
    i := LastStart(s, a, |s|);
    assert s[i].end.None? && out[i].end == if i < |s| - 1 then Some(s[i + 1].start) else Some(limit);
    forall k | 0 <= k < |out| && k != i
      ensures !Holds(out[k], a)
    {
      if k < i {
        assert out[k].end == Some(s[k + 1].start) && s[k + 1].start <= s[i].start;
      }
    }
  }

  /** The last of the first `n` sections that starts at `a` or before it. */
  lemma {:induction false} LastStart(s: seq<Section>, a: int, n: nat) returns (i: nat)
    requires 0 < n <= |s| && s[0].start <= a && Sorted(s)
    ensures i < n && s[i].start <= a && forall k :: i < k < n ==> s[k].start > a
  {
    if s[n - 1].start <= a {
      i := n - 1;
    } else {
      i := LastStart(s, a, n - 1);
    }
  }

  /** The loop that fills in the ends, remembering the last section that lacks one. */
  method InferEnds(sections: seq<Section>, last: Option<int>) returns (out: seq<Section>, raised: bool)
    ensures raised <==> sections != [] && sections[|sections| - 1].end.None? && last.None?
    ensures out == WithEnds(sections, last) && EndsFilled(sections, out, last)
  {
    out := sections;
    var oldSec: Option<int> := None;
    var i: nat := 0;
    while i < |sections|
      invariant i <= |sections| == |out|
      invariant oldSec.Some? <==> i > 0 && sections[i - 1].end.None?
      invariant oldSec.Some? ==> oldSec.value == i - 1
      invariant forall k :: 0 <= k < i - 1 ==> out[k] == WithEnd(sections, k, last)
      invariant forall k :: i - 1 <= k < |out| && 0 <= k ==> out[k] == sections[k]
    {
      if oldSec.Some? {
        var o := oldSec.value;
        out := out[o := out[o].(end := Some(out[i].start))];
      }
      oldSec := if out[i].end.None? then Some(i) else None;
      i := i + 1;
    }
    raised := false;
    if oldSec.Some? {
      if last.None? {
        raised := true;
      } else {
        var o := oldSec.value;
        out := out[o := out[o].(end := last)];
      }
    }
    WithEndsFills(sections, last);
  }
}
