/** RAM banks: the constructor's checks, and what it means for a list of banks to tile the address space from zero. */
module RamBank {

  import opened IntegerFacts
  import opened MachineInts
  import opened PowersOfTwo

  datatype Option<T> = None | Some(value: T)

  // ---------------------------------------------------------------- banks

  datatype Bank = Bank(sizeK: int, start: int, mapIdx: int, level: nat, offset: int) {
    function Size(): int { sizeK * 1024 }

    function End(): int { start + Size() * Pow2(level) }

    /** The bank belongs to the same interleaved group as `other`. */
    predicate SharesRange(other: Bank) {
      start == other.start && level == other.level && sizeK == other.sizeK
    }

    /** The address belongs to the bank or, for an interleaved one, to its group. */
    predicate Holds(a: int) { start <= a < End() }
  }

  /** The constructor: `None` stands for the raised ValueError. */
  function MakeBank(sizeK: int, start: int, mapIdx: int, level: nat, offset: int): (r: Option<Bank>)
  {
    if !IsPow2(sizeK) then None
    else if offset >= Pow2(level) then None
    else if start % 4 != 0 then None
    else Some(Bank(sizeK, start, mapIdx, level, offset))
  }

  /**
   * Which banks there can be: the range is a power of two of 1 KiB at least, word aligned at both ends, and the offset
   * is inside the group. Nothing else is refused.
   */
  lemma AcceptedBank(sizeK: int, start: int, mapIdx: int, level: nat, offset: int)
    ensures MakeBank(sizeK, start, mapIdx, level, offset).Some? <==>
      (exists k: nat :: sizeK == Pow2(k)) && offset < Pow2(level) && start % 4 == 0
    ensures var b := MakeBank(sizeK, start, mapIdx, level, offset);
      b.Some? ==> exists k: nat :: sizeK == Pow2(k) && b.value.End() == start + Pow2(k + 10 + level)
    ensures var b := MakeBank(sizeK, start, mapIdx, level, offset);
      b.Some? ==> b.value.End() > start && b.value.End() % 4 == 0
  {
    if sizeK > 0 {
      IsPow2Means(sizeK);
    }
    if MakeBank(sizeK, start, mapIdx, level, offset).Some? {
      var k := Exponent(sizeK);
      RangeIsPower(Bank(sizeK, start, mapIdx, level, offset), k);
      SizePositive(Bank(sizeK, start, mapIdx, level, offset));
      EndAligned(Bank(sizeK, start, mapIdx, level, offset));
    }
  }

  lemma RangeIsPower(b: Bank, k: nat)
    requires b.sizeK == Pow2(k)
    ensures b.End() == b.start + Pow2(k + 10 + b.level)
  {
    Kibi(k);
    Pow2Add(k + 10, b.level);
  }

  lemma Kibi(k: nat)
    ensures Pow2(k + 10) == Pow2(k) * 1024
  {
    Pow2Add(k, 10);
    assert Pow2(5) == 32;
    Pow2Add(5, 5);
  }

  lemma SizePositive(b: Bank)
    requires b.sizeK > 0
    ensures b.End() > b.start && b.End() >= b.start + b.Size()
  {
    MulMonotone(1, Pow2(b.level), b.Size());
    Commute(b.Size(), Pow2(b.level));
  }

  lemma EndAligned(b: Bank)
    requires b.start % 4 == 0
    ensures b.End() % 4 == 0
  {
    FourTimes(b.Size(), b.sizeK * 256, Pow2(b.level));
    SumAligned(b.start, b.Size() * Pow2(b.level));
  }

  lemma SumAligned(x: int, y: int)
    requires x % 4 == 0 && y % 4 == 0
    ensures (x + y) % 4 == 0
  {
  }

  lemma FourTimes(s: int, q: int, y: int)
    requires s == 4 * q
    ensures s * y % 4 == 0
  {
    assert s * y == 4 * (q * y);
  }

  // ---------------------------------------------------------------- lists of banks

  /** Where the first `n` banks end. */
  function EndOf(banks: seq<Bank>, n: nat): int
    requires n <= |banks|
  {
    if n == 0 then 0 else banks[n - 1].End()
  }

  /** How many banks had been made when the last of the first `n` was. */
  function MadeBy(banks: seq<Bank>, n: nat): int
    requires n <= |banks|
  {
    if n == 0 then 0 else banks[n - 1].mapIdx
  }

  /** The first `n` banks end with a whole group. */
  ghost predicate Whole(banks: seq<Bank>, n: nat)
    requires n <= |banks|
  {
    n > 0 ==> banks[n - 1].offset + 1 == Pow2(banks[n - 1].level)
  }

  /**
   * Going on from address `a`, with `made` banks made, at address `b`: the address moves just when banks are given up.
   */
  ghost predicate Onward(a: int, made: int, b: int, total: int) {
    a <= b && made <= total && (a == b <==> made == total) && b % 4 == 0
  }

  /** Bank `i` continues the group of the one before it, or starts a group at or after the end of the last one. */
  ghost predicate Follows(banks: seq<Bank>, i: nat)
    requires i < |banks|
  {
    var b := banks[i];
    && b.sizeK > 0 && 0 <= b.offset < Pow2(b.level)
    && if b.offset == 0 then
         Whole(banks, i) && Onward(EndOf(banks, i), MadeBy(banks, i), b.start, b.mapIdx - 1)
       else
         i > 0 && b.SharesRange(banks[i - 1]) && b.offset == banks[i - 1].offset + 1 &&
           b.mapIdx == banks[i - 1].mapIdx + 1
  }

  ghost predicate AllFollow(banks: seq<Bank>) {
    forall i {:trigger Follows(banks, i)} :: 0 <= i < |banks| ==> Follows(banks, i)
  }

  /** Whole groups in address order, the next bank to be made at `next` with index `idx`; there may be holes. */
  ghost predicate Laid(banks: seq<Bank>, next: int, idx: int) {
    && AllFollow(banks) && Whole(banks, |banks|)
    && Onward(EndOf(banks, |banks|), MadeBy(banks, |banks|), next, idx - 1)
  }

  /** Bank `i` is numbered by its position and leaves no hole in front of it. */
  ghost predicate Joins(banks: seq<Bank>, i: nat)
    requires i < |banks|
  {
    banks[i].mapIdx == i + 1 && (banks[i].offset == 0 ==> banks[i].start == EndOf(banks, i))
  }

  /** The banks fill [0, next): whole groups that follow each other without a hole. */
  ghost predicate Tiles(banks: seq<Bank>, next: int) {
    && AllFollow(banks) && Whole(banks, |banks|) && next == EndOf(banks, |banks|)
    && forall i {:trigger Joins(banks, i)} :: 0 <= i < |banks| ==> Joins(banks, i)
  }

  lemma AppendFollows(banks: seq<Bank>, b: Bank)
    requires AllFollow(banks) && Follows(banks + [b], |banks|)
    ensures AllFollow(banks + [b])
  {
    forall i | 0 <= i < |banks + [b]|
      ensures Follows(banks + [b], i)
    {
      if i < |banks| {
        assert Follows(banks, i);
      }
    }
  }

  /** No bank is numbered below its position, and those numbered by it leave no hole. */
  lemma {:induction false} NumberedFrom(banks: seq<Bank>, n: nat)
    requires AllFollow(banks) && n <= |banks|
    ensures MadeBy(banks, n) >= n
    ensures MadeBy(banks, n) == n <==> forall i {:trigger Joins(banks, i)} :: 0 <= i < n ==> Joins(banks, i)
  {
    if n > 0 {
      NumberedFrom(banks, n - 1);
      assert Follows(banks, n - 1);
      assert Joins(banks, n - 1) ==> banks[n - 1].mapIdx == n;
    }
  }

  /** There is no hole exactly when the index of the next bank is its position. */
  lemma TiledIffNumbered(banks: seq<Bank>, next: int, idx: int)
    requires Laid(banks, next, idx)
    ensures idx > |banks| && (Tiles(banks, next) <==> idx == |banks| + 1)
  {
    NumberedFrom(banks, |banks|);
    if Tiles(banks, next) && |banks| > 0 {
      assert Joins(banks, |banks| - 1);
    }
  }

  /** Two banks are either parts of one interleaved group, at different offsets, or one ends before the other starts. */
  lemma {:induction false} BanksDisjoint(banks: seq<Bank>, i: nat, j: nat)
    requires AllFollow(banks) && i < j < |banks|
    ensures banks[i].End() <= banks[j].start
         || (banks[i].SharesRange(banks[j]) && banks[j].offset == banks[i].offset + (j - i) && banks[j].level > 0)
    ensures banks[i].End() <= banks[j].End()
    decreases j
  {
    assert Follows(banks, j) && Follows(banks, j - 1);
    SizePositive(banks[j]);
    SizePositive(banks[j - 1]);
    if i < j - 1 {
      BanksDisjoint(banks, i, j - 1);
    }
  }

  // ---------------------------------------------------------------- addresses and sizes

  /** Some bank holds the address. */
  ghost predicate Backed(banks: seq<Bank>, a: int) {
    exists k :: 0 <= k < |banks| && banks[k].Holds(a)
  }

  function SizeSum(banks: seq<Bank>, n: nat): int
    requires n <= |banks|
  {
    if n == 0 then 0 else SizeSum(banks, n - 1) + banks[n - 1].Size()
  }

  function Interval(lo: int, hi: int): set<int>
    decreases hi - lo
  {
    if lo >= hi then {} else Interval(lo, hi - 1) + {hi - 1}
  }

  lemma {:induction false} InInterval(lo: int, hi: int, a: int)
    ensures a in Interval(lo, hi) <==> lo <= a < hi
    decreases hi - lo
  {
    if lo < hi {
      InInterval(lo, hi - 1, a);
    }
  }

  lemma {:induction false} IntervalSize(lo: int, hi: int)
    requires lo <= hi
    ensures |Interval(lo, hi)| == hi - lo
    decreases hi - lo
  {
    if lo < hi {
      IntervalSize(lo, hi - 1);
      InInterval(lo, hi - 1, hi - 1);
    }
  }

  /** The addresses held by the first `n` banks. */
  function Addresses(banks: seq<Bank>, n: nat): set<int>
    requires n <= |banks|
  {
    if n == 0 then {} else Addresses(banks, n - 1) + Interval(banks[n - 1].start, banks[n - 1].End())
  }

  lemma {:induction false} AddressHeld(banks: seq<Bank>, n: nat, a: int)
    requires n <= |banks|
    ensures a in Addresses(banks, n) <==> exists k :: 0 <= k < n && banks[k].Holds(a)
  {
    if n > 0 {
      AddressHeld(banks, n - 1, a);
      InInterval(banks[n - 1].start, banks[n - 1].End(), a);
      if a in Addresses(banks, n - 1) {
        var k :| 0 <= k < n - 1 && banks[k].Holds(a);
      }
    }
  }

  /** The bytes of the banks the group of `b` still lacks after it. */
  function Missing(b: Bank): int {
    (Pow2(b.level) - b.offset - 1) * b.Size()
  }

  lemma MissingNone(b: Bank)
    requires b.offset + 1 == Pow2(b.level)
    ensures Missing(b) == 0
  {
    assert Pow2(b.level) - b.offset - 1 == 0;
  }

  lemma MissingFirst(b: Bank)
    requires b.offset == 0
    ensures b.Size() + Missing(b) == b.End() - b.start
  {
    MinusTimes(Pow2(b.level), 1, b.Size());
    Commute(b.Size(), Pow2(b.level));
  }

  lemma MissingNext(b: Bank, last: Bank)
    requires b.SharesRange(last) && b.offset == last.offset + 1
    ensures b.Size() + Missing(b) == Missing(last)
  {
    MinusTimes(Pow2(b.level) - b.offset, 1, b.Size());
  }

  /** Up to bank `i` the addresses held are as many as the sizes add up to, with the banks its group still lacks. */
  lemma {:induction false} AddressesUpTo(banks: seq<Bank>, i: nat)
    requires AllFollow(banks) && i < |banks|
    ensures |Addresses(banks, i + 1)| == SizeSum(banks, i + 1) + Missing(banks[i])
  {
    assert Follows(banks, i);
    if banks[i].offset == 0 {
      if i > 0 {
        AddressesUpTo(banks, i - 1);
        MissingNone(banks[i - 1]);
      }
      assert |Addresses(banks, i)| == SizeSum(banks, i);
      FirstOfGroup(banks, i);
    } else {
      AddressesUpTo(banks, i - 1);
      NextOfGroup(banks, i);
    }
  }

  lemma FirstOfGroup(banks: seq<Bank>, i: nat)
    requires AllFollow(banks) && i < |banks| && banks[i].offset == 0
    requires |Addresses(banks, i)| == SizeSum(banks, i)
    ensures |Addresses(banks, i + 1)| == SizeSum(banks, i + 1) + Missing(banks[i])
  {
    MissingFirst(banks[i]);
    NewAddresses(banks, i);
  }

  lemma NextOfGroup(banks: seq<Bank>, i: nat)
    requires AllFollow(banks) && 0 < i < |banks| && banks[i].offset > 0
    requires |Addresses(banks, i)| == SizeSum(banks, i) + Missing(banks[i - 1])
    ensures |Addresses(banks, i + 1)| == SizeSum(banks, i + 1) + Missing(banks[i])
  {
    assert Follows(banks, i);
    MissingNext(banks[i], banks[i - 1]);
    SameAddresses(banks, i);
  }

  /** A new group starts past every bank before it. */
  lemma EndsBefore(banks: seq<Bank>, k: nat, i: nat)
    requires AllFollow(banks) && k < i < |banks| && banks[i].offset == 0
    ensures banks[k].End() <= banks[i].start
  {
    assert Follows(banks, i);
    if k < i - 1 {
      BanksDisjoint(banks, k, i - 1);
    }
  }

  lemma NewAddresses(banks: seq<Bank>, i: nat)
    requires AllFollow(banks) && i < |banks| && banks[i].offset == 0
    ensures |Addresses(banks, i + 1)| == |Addresses(banks, i)| + banks[i].End() - banks[i].start
  {
    var b := banks[i];
    assert Follows(banks, i);
    SizePositive(b);
    forall k | 0 <= k < i
      ensures banks[k].End() <= b.start
    {
      EndsBefore(banks, k, i);
    }
    forall a | a in Addresses(banks, i)
      ensures a !in Interval(b.start, b.End())
    {
      AddressHeld(banks, i, a);
      InInterval(b.start, b.End(), a);
    }
    IntervalSize(b.start, b.End());
    DisjointCount(Addresses(banks, i), Interval(b.start, b.End()));
  }

  lemma DisjointCount(s: set<int>, t: set<int>)
    requires forall a :: a in s ==> a !in t
    ensures |s + t| == |s| + |t|
  {
    forall a | a in s
      ensures a !in s * t
    {
    }
    assert s * t == {};
  }

  lemma PartCount(part: set<int>, whole: set<int>)
    requires part <= whole
    ensures |part| <= |whole| && (|part| == |whole| <==> part == whole)
  {
    assert whole == part + (whole - part);
  }

  lemma SameAddresses(banks: seq<Bank>, i: nat)
    requires AllFollow(banks) && 0 < i < |banks| && banks[i].offset > 0
    ensures Addresses(banks, i + 1) == Addresses(banks, i)
  {
    assert Follows(banks, i);
    forall a
      ensures a in Addresses(banks, i + 1) <==> a in Addresses(banks, i)
    {
      AddressHeld(banks, i, a);
      InInterval(banks[i].start, banks[i].End(), a);
      assert banks[i].Holds(a) ==> banks[i - 1].Holds(a);
    }
  }

  /** The sizes add up to the number of addresses the banks hold, holes or not. */
  lemma SizeSumIsHeld(banks: seq<Bank>)
    requires AllFollow(banks) && Whole(banks, |banks|)
    ensures |Addresses(banks, |banks|)| == SizeSum(banks, |banks|)
  {
    if |banks| > 0 {
      AddressesUpTo(banks, |banks| - 1);
      MissingNone(banks[|banks| - 1]);
    }
  }

  /** An address between the end of the first `i` banks and the start of the next is held by none. */
  lemma Unbacked(banks: seq<Bank>, i: nat, a: int)
    requires AllFollow(banks) && i <= |banks| && EndOf(banks, i) <= a
    requires i < |banks| ==> a < banks[i].start
    ensures !Backed(banks, a)
  {
    forall k | 0 <= k < |banks|
      ensures !banks[k].Holds(a)
    {
      if k < i - 1 {
        BanksDisjoint(banks, k, i - 1);
      } else if k > i {
        assert Follows(banks, i);
        SizePositive(banks[i]);
        BanksDisjoint(banks, i, k);
      }
    }
  }

  /** No holes: every address below a bank's end lies in some bank. */
  lemma {:induction false} Covered(banks: seq<Bank>, n: nat, a: int)
    requires AllFollow(banks) && n <= |banks| && 0 <= a < EndOf(banks, n)
    requires forall i {:trigger Joins(banks, i)} :: 0 <= i < n ==> Joins(banks, i)
    ensures Backed(banks, a)
  {
    assert Follows(banks, n - 1) && Joins(banks, n - 1);
    if a < banks[n - 1].start {
      if banks[n - 1].offset > 0 {
        SizePositive(banks[n - 1]);
      }
      Covered(banks, n - 1, a);
    } else {
      assert banks[n - 1].Holds(a);
    }
  }

  /** A bank numbered above its position has a hole in front of it or in front of an earlier one. */
  lemma {:induction false} HoleBefore(banks: seq<Bank>, n: nat) returns (i: nat)
    requires AllFollow(banks) && n <= |banks| && MadeBy(banks, n) > n
    ensures i < n && EndOf(banks, i) < banks[i].start
  {
    assert Follows(banks, n - 1);
    NumberedFrom(banks, n - 1);
    if MadeBy(banks, n - 1) > n - 1 {
      i := HoleBefore(banks, n - 1);
    } else {
      i := n - 1;
    }
  }

  /** To tile the addresses below `next` is to leave none of them without a bank. */
  lemma TiledIffBacked(banks: seq<Bank>, next: int, idx: int)
    requires Laid(banks, next, idx)
    ensures Tiles(banks, next) <==> forall a :: 0 <= a < next ==> Backed(banks, a)
  {
    TiledIffNumbered(banks, next, idx);
    if Tiles(banks, next) {
      forall a | 0 <= a < next
        ensures Backed(banks, a)
      {
        Covered(banks, |banks|, a);
      }
    } else {
      EndsNotNegative(banks, |banks|);
      if MadeBy(banks, |banks|) > |banks| {
        var i := HoleBefore(banks, |banks|);
        EndsNotNegative(banks, i);
        Unbacked(banks, i, EndOf(banks, i));
        StartsBelow(banks, i, next);
      } else {
        NumberedFrom(banks, |banks|);
        Unbacked(banks, |banks|, EndOf(banks, |banks|));
      }
    }
  }

  lemma {:induction false} EndsNotNegative(banks: seq<Bank>, n: nat)
    requires AllFollow(banks) && n <= |banks|
    ensures EndOf(banks, n) >= 0 && (n < |banks| ==> banks[n].start >= 0)
  {
    if n < |banks| {
      assert Follows(banks, n);
    }
    if n > 0 {
      EndsNotNegative(banks, n - 1);
      assert Follows(banks, n - 1);
      SizePositive(banks[n - 1]);
    }
  }

  lemma StartsBelow(banks: seq<Bank>, i: nat, next: int)
    requires AllFollow(banks) && i < |banks| && EndOf(banks, |banks|) <= next
    ensures banks[i].start < banks[i].End() <= next
  {
    assert Follows(banks, i);
    SizePositive(banks[i]);
    if i < |banks| - 1 {
      BanksDisjoint(banks, i, |banks| - 1);
    }
  }

  /** The sizes of the banks reach the next address exactly when they tile the addresses below it. */
  lemma SizeSumIsNextIffTiled(banks: seq<Bank>, next: int, idx: int)
    requires Laid(banks, next, idx)
    ensures SizeSum(banks, |banks|) <= next
    ensures SizeSum(banks, |banks|) == next <==> Tiles(banks, next)
  {
    EndsNotNegative(banks, |banks|);
    IntervalSize(0, next);
    SizeSumIsHeld(banks);
    HeldBelow(banks, next);
    PartCount(Addresses(banks, |banks|), Interval(0, next));
    TiledIffBacked(banks, next, idx);
    AllHeldIffBacked(banks, next);
  }

  lemma HeldBelow(banks: seq<Bank>, next: int)
    requires AllFollow(banks) && 0 <= EndOf(banks, |banks|) <= next
    ensures Addresses(banks, |banks|) <= Interval(0, next)
  {
    forall a | a in Addresses(banks, |banks|)
      ensures a in Interval(0, next)
    {
      AddressHeld(banks, |banks|, a);
      var k :| 0 <= k < |banks| && banks[k].Holds(a);
      EndsNotNegative(banks, k);
      StartsBelow(banks, k, next);
      InInterval(0, next, a);
    }
  }

  lemma AllHeldIffBacked(banks: seq<Bank>, next: int)
    requires Addresses(banks, |banks|) <= Interval(0, next)
    ensures Addresses(banks, |banks|) == Interval(0, next) <==> forall a :: 0 <= a < next ==> Backed(banks, a)
  {
    var held, below := Addresses(banks, |banks|), Interval(0, next);
    if forall a :: 0 <= a < next ==> Backed(banks, a) {
      forall a | a in below
        ensures a in held
      {
        InInterval(0, next, a);
        assert Backed(banks, a);
        AddressHeld(banks, |banks|, a);
      }
      assert held == below;
    } else {
      var a :| 0 <= a < next && !Backed(banks, a);
      InInterval(0, next, a);
      AddressHeld(banks, |banks|, a);
    }
  }

  /** Over banks without a hole an address range is backed exactly when it ends below the next address. */
  lemma BackedIffEndsBelow(banks: seq<Bank>, next: int, lo: int, hi: int)
    requires Tiles(banks, next) && 0 <= lo < hi
    ensures (forall a :: lo <= a < hi ==> Backed(banks, a)) <==> hi <= next
  {
    if hi <= next {
      forall a | lo <= a < hi
        ensures Backed(banks, a)
      {
        Covered(banks, |banks|, a);
      }
    } else {
      Unbacked(banks, |banks|, if lo < next then next else lo);
    }
  }
}
