/**
 * One axis of a padded convolution: how many patches fit, which pixel a kernel offset reaches in each patch,
 * and the division-based counts of leading and trailing zeros that the DMA transfer is programmed with.
 */
module PatchAxis {

  import opened IntegerFacts

  /** C's integer division for a positive divisor: truncation toward zero. */
  function CQuot(x: int, s: nat): int
    requires s > 0
  {
    if x >= 0 then x / s else -(-x / s)
  }

  /** C's remainder for a positive divisor: it has the sign of the dividend. */
  function CRem(x: int, s: nat): int
    requires s > 0
  {
    if x >= 0 then x % s else -(-x % s)
  }

  /** `x / s`, plus one when the division leaves a remainder. */
  function CountedUp(x: int, s: nat): int
    requires s > 0
  {
    if CRem(x, s) == 0 then CQuot(x, s) else CQuot(x, s) + 1
  }

  /** `size` pixels with `before` and `after` zeros around them, swept by `filter` taps at a stride. */
  datatype Axis = Axis(size: nat, filter: nat, stride: nat, before: nat, after: nat) {

    ghost predicate Fits() {
      size >= 1 && filter >= 1 && stride >= 1 && size + before + after >= filter
    }

    /** N_PATCHES */
    function Patches(): int
      requires stride >= 1
    {
      CQuot(size + (before + after) - filter, stride) + 1
    }

    /** ADPT_PAD: the part of the trailing pad that the last patch still covers. */
    function Adapted(): int
      requires stride >= 1
    {
      stride * (Patches() - 1) + filter - (before + size)
    }

    /** The pixel under tap `off` in patch `k`; negative or at least `size` when it lies in a pad. */
    function Pixel(off: int, k: int): int {
      off + k * stride - before
    }

    predicate Inside(x: int) {
      0 <= x < size
    }

    function LeadingZeros(off: int): int
      requires stride >= 1
    {
      if off >= before then 0 else CountedUp(before - off, stride)
    }

    function TrailingZeros(off: int): int
      requires stride >= 1
    {
      var distance := filter - 1 - off;
      if distance >= after || Adapted() == 0 then 0 else CountedUp(Adapted() - distance, stride)
    }

    /** The number of elements between the zeros. */
    function Span(off: int): int
      requires stride >= 1
    {
      Patches() - LeadingZeros(off) - TrailingZeros(off)
    }

    /** The distance from tap `off` to the last tap falls strictly between the adapted pad and the real one. */
    predicate Gap(off: int)
      requires stride >= 1
    {
      Adapted() != 0 && Adapted() < filter - 1 - off < after
    }

    /** No tap falls in the gap, told from the dimensions alone. */
    predicate Gapless()
      requires stride >= 1
    {
      Adapted() == 0 || after <= Adapted() + 1 || after <= 0 || filter <= Adapted() + 1
    }
  }

  lemma CountedUpIsCeiling(x: nat, s: nat)
    requires s > 0
    ensures x <= CountedUp(x, s) * s < x + s
  {
    DivBounds(x, s);
    var q := x / s;
    assert (q + 1) * s == q * s + s;
  }

  /** A small negative dividend still counts one, because the quotient truncates to zero and the rest is nonzero. */
  lemma CountedUpBelowZero(x: int, s: nat)
    requires s > 0 && 0 - s < x < 0
    ensures CountedUp(x, s) == 1
  {
    DivBounds(-x, s);
    if -x / s >= 1 {
      MulMonotone(1, -x / s, s);
    }
  }

  /** Counting up to `z` patches covers exactly the multiples of the stride below `x`. */
  lemma CeilingSplits(x: int, s: nat, z: int, k: int)
    requires s > 0 && x <= z * s < x + s
    ensures k < z <==> k * s < x
  {
    if k < z {
      MulMonotone(k, z - 1, s);
      assert (z - 1) * s == z * s - s;
    } else {
      MulMonotone(z, k, s);
    }
  }

  lemma PatchesPositive(a: Axis)
    requires a.Fits()
    ensures a.Patches() >= 1
    ensures a.after - a.stride < a.Adapted() <= a.after
  {
    var room := a.size + (a.before + a.after) - a.filter;
    DivBounds(room, a.stride);
    Commute(a.stride, room / a.stride);
  }

  /** The leading zeros are exactly the patches whose tap lies before the first pixel. */
  lemma LeadingExact(a: Axis, off: nat, k: nat)
    requires a.Fits()
    ensures a.LeadingZeros(off) >= 0
    ensures k < a.LeadingZeros(off) <==> a.Pixel(off, k) < 0
  {
    if off >= a.before {
      MulMonotone(0, k, a.stride);
    } else {
      var x := a.before - off;
      CountedUpIsCeiling(x, a.stride);
      CeilingSplits(x, a.stride, CountedUp(x, a.stride), k);
      CeilingSplits(x, a.stride, CountedUp(x, a.stride), 0);
    }
  }

  /** Counted from the last patch, tap `off` is past the image while `j * stride` is below the adapted rest. */
  lemma PixelFromEnd(a: Axis, off: int, j: int)
    requires a.Fits()
    ensures a.Pixel(off, a.Patches() - 1 - j) >= a.size
        <==> j * a.stride < a.Adapted() - (a.filter - 1 - off)
  {
    Commute(a.stride, a.Patches() - 1);
    MinusTimes(a.Patches() - 1, j, a.stride);
  }

  /** Outside the gap, the trailing zeros are exactly the patches whose tap lies past the last pixel. */
  lemma TrailingExact(a: Axis, off: nat, k: int)
    requires a.Fits() && off < a.filter && k < a.Patches() && !a.Gap(off)
    ensures a.TrailingZeros(off) >= 0
    ensures k >= a.Patches() - a.TrailingZeros(off) <==> a.Pixel(off, k) >= a.size
  {
    PatchesPositive(a);
    var distance := a.filter - 1 - off;
    var rest := a.Adapted() - distance;
    var j := a.Patches() - 1 - k;
    PixelFromEnd(a, off, j);
    if distance >= a.after || a.Adapted() == 0 {
      MulMonotone(0, j, a.stride);
    } else {
      CountedUpIsCeiling(rest, a.stride);
      CeilingSplits(rest, a.stride, CountedUp(rest, a.stride), j);
      CeilingSplits(rest, a.stride, CountedUp(rest, a.stride), -1);
      assert -1 * a.stride == 0 - a.stride;
    }
  }

  /** In the gap one zero is counted although every patch ends before the pad. */
  lemma TrailingInGap(a: Axis, off: nat)
    requires a.Fits() && a.Gap(off)
    ensures a.TrailingZeros(off) == 1
    ensures a.Pixel(off, a.Patches() - 1) < a.size
  {
    PatchesPositive(a);
    CountedUpBelowZero(a.Adapted() - (a.filter - 1 - off), a.stride);
    PixelFromEnd(a, off, 0);
  }

  /** The trailing count agrees with the patches that leave the image exactly when the tap avoids the gap. */
  lemma TrailingExactIffNoGap(a: Axis, off: nat)
    requires a.Fits() && off < a.filter
    ensures !a.Gap(off) <==>
      forall k :: 0 <= k < a.Patches() ==>
        (k >= a.Patches() - a.TrailingZeros(off) <==> a.Pixel(off, k) >= a.size)
  {
    if a.Gap(off) {
      PatchesPositive(a);
      TrailingInGap(a, off);
      var last := a.Patches() - 1;
      assert last >= a.Patches() - a.TrailingZeros(off) && a.Pixel(off, last) < a.size;
    } else {
      forall k | 0 <= k < a.Patches()
        ensures k >= a.Patches() - a.TrailingZeros(off) <==> a.Pixel(off, k) >= a.size
      {
        TrailingExact(a, off, k);
      }
    }
  }

  /** With both counts right, the span between the zeros is exactly the patches inside the image. */
  lemma SpanIsInside(a: Axis, off: nat, k: nat)
    requires a.Fits() && off < a.filter && k < a.Patches() && !a.Gap(off)
    ensures a.LeadingZeros(off) >= 0 && a.TrailingZeros(off) >= 0
    ensures a.LeadingZeros(off) <= k < a.Patches() - a.TrailingZeros(off) <==> a.Inside(a.Pixel(off, k))
  {
    LeadingExact(a, off, k);
    TrailingExact(a, off, k);
  }

  lemma CountsNonNegative(a: Axis, off: nat)
    requires a.Fits() && off < a.filter
    ensures a.LeadingZeros(off) >= 0 && a.TrailingZeros(off) >= 0
  {
    PatchesPositive(a);
    LeadingExact(a, off, 0);
    if a.Gap(off) {
      TrailingInGap(a, off);
    } else {
      TrailingExact(a, off, 0);
    }
  }

  /** Even with a miscounted zero, nothing outside the image lies between the zeros. */
  lemma BetweenZerosIsInside(a: Axis, off: nat, k: int)
    requires a.Fits() && off < a.filter
    requires a.LeadingZeros(off) <= k < a.Patches() - a.TrailingZeros(off)
    ensures a.Inside(a.Pixel(off, k))
  {
    CountsNonNegative(a, off);
    LeadingExact(a, off, k);
    if a.Gap(off) {
      TrailingInGap(a, off);
      MulMonotone(k, a.Patches() - 1, a.stride);
    } else {
      TrailingExact(a, off, k);
    }
  }

  lemma GaplessIffNoGap(a: Axis)
    requires a.Fits()
    ensures a.Gapless() <==> forall off :: 0 <= off < a.filter ==> !a.Gap(off)
  {
    if !a.Gapless() {
      // the smallest tap distance above the adapted pad
      var distance := if a.Adapted() >= 0 then a.Adapted() + 1 else 0;
      assert a.Gap(a.filter - 1 - distance);
    }
  }

  /** A stride of one or two leaves no room for a gap. */
  lemma SmallStrideIsGapless(a: Axis)
    requires a.Fits() && a.stride <= 2
    ensures a.Gapless()
  {
    PatchesPositive(a);
  }

  /** Three pads after five pixels, swept three taps at a stride of three: tap 0 is in the gap. */
  lemma GapExample()
    ensures var a := Axis(5, 3, 3, 0, 3); a.Fits() && a.Gap(0) && a.Span(0) == 1
  {
    var a := Axis(5, 3, 3, 0, 3);
    DivBounds(5, 3);
    assert a.Patches() == 2;
    assert a.Adapted() == 1;
    CountedUpBelowZero(-1, 3);
  }
}
