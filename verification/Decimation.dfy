/**
 * Recursive even/odd decimation, the reference the iterative FFT is compared with.
 * It is written over any arithmetic, so that the same recursion can be read with the
 * fixed-point butterfly of fft.h and with exact complex numbers.
 */
module Decimation {
  import opened IntegerFacts
  import opened MachineInts
  import opened DigitReversal

  datatype Arith<!C> = Arith(plus: (C, C) -> C, minus: (C, C) -> C, times: (C, C) -> C)

  function Evens<T>(s: seq<T>, h: nat): (r: seq<T>)
    requires |s| == 2 * h
    ensures |r| == h
  {
    seq(h, i requires 0 <= i < h => s[2 * i])
  }

  function Odds<T>(s: seq<T>, h: nat): (r: seq<T>)
    requires |s| == 2 * h
    ensures |r| == h
  {
    seq(h, i requires 0 <= i < h => s[2 * i + 1])
  }

  /** `h` butterflies; butterfly `j` uses the twiddle `tw[j * stride]`. */
  function Combine<C>(ar: Arith<C>, e: seq<C>, o: seq<C>, tw: seq<C>, stride: nat): (r: seq<C>)
    requires |e| == |o| && stride >= 1 && |e| * stride <= |tw|
    ensures |r| == 2 * |e|
  {
    var h := |e|;
    seq(2 * h, i requires 0 <= i < 2 * h =>
      if i < h then
        IndexBelow(i, h, stride);
        ar.plus(e[i], ar.times(o[i], tw[i * stride]))
      else
        IndexBelow(i - h, h, stride);
        ar.minus(e[i - h], ar.times(o[i - h], tw[(i - h) * stride])))
  }

  lemma CombineAt<C>(ar: Arith<C>, e: seq<C>, o: seq<C>, tw: seq<C>, stride: nat, j: nat)
    requires |e| == |o| && stride >= 1 && |e| * stride <= |tw| && j < |e|
    ensures 0 <= j * stride < |tw|
    ensures Combine(ar, e, o, tw, stride)[j] == ar.plus(e[j], ar.times(o[j], tw[j * stride]))
    ensures Combine(ar, e, o, tw, stride)[j + |e|] == ar.minus(e[j], ar.times(o[j], tw[j * stride]))
  {
    IndexBelow(j, |e|, stride);
  }

  lemma IndexBelow(j: int, h: nat, stride: nat)
    requires 0 <= j < h && stride >= 1
    ensures 0 <= j * stride < h * stride
  {
    MulMonotone(j + 1, h, stride);
  }

  /** Even/odd decimation of `2^k` points; the last level needs no twiddle. */
  function Dit<C>(ar: Arith<C>, x: seq<C>, tw: seq<C>, k: nat, stride: nat): (r: seq<C>)
    requires |x| == Pow2(k) && stride >= 1
    requires Pow2(k) * stride <= 2 * |tw|
    ensures |r| == |x|
    decreases k
  {
    if k == 0 then x
    else if k == 1 then [ar.plus(x[0], x[1]), ar.minus(x[0], x[1])]
    else
      var h := Pow2(k - 1);
      HalveDouble(h, stride);
      var e := Dit(ar, Evens(x, h), tw, k - 1, 2 * stride);
      var o := Dit(ar, Odds(x, h), tw, k - 1, 2 * stride);
      Combine(ar, e, o, tw, stride)
  }

  lemma DitUnfold<C>(ar: Arith<C>, x: seq<C>, tw: seq<C>, k: nat, stride: nat)
    requires |x| == Pow2(k) && stride >= 1 && k >= 2 && Pow2(k) * stride <= 2 * |tw|
    ensures var h := Pow2(k - 1);
      && |x| == 2 * h && h * (2 * stride) <= 2 * |tw| && h * stride <= |tw|
      && Dit(ar, x, tw, k, stride)
      == Combine(ar, Dit(ar, Evens(x, h), tw, k - 1, 2 * stride), Dit(ar, Odds(x, h), tw, k - 1, 2 * stride), tw,
                 stride)
  {
    HalveDouble(Pow2(k - 1), stride);
  }

  lemma HalveDouble(h: nat, stride: nat)
    ensures (2 * h) * stride == h * (2 * stride) == 2 * (h * stride)
  {
  }

  /** The points `off, off + stride, off + 2 * stride, ...` of `x`. */
  function Strided<T>(x: seq<T>, off: nat, stride: nat, len: nat): (r: seq<T>)
    requires off < stride && stride * len <= |x|
    ensures |r| == len
  {
    seq(len, t requires 0 <= t < len => (StrideBelow(off, stride, t, len); x[off + t * stride]))
  }

  lemma StrideBelow(off: nat, stride: nat, t: int, len: nat)
    requires off < stride && 0 <= t < len
    ensures 0 <= off + t * stride < stride * len
  {
    MulMonotone(t + 1, len, stride);
  }

  lemma StridedHalves<T>(x: seq<T>, off: nat, stride: nat, h: nat)
    requires off < stride && stride * (2 * h) <= |x|
    ensures (2 * stride) * h <= |x|
    ensures Evens(Strided(x, off, stride, 2 * h), h) == Strided(x, off, 2 * stride, h)
    ensures Odds(Strided(x, off, stride, 2 * h), h) == Strided(x, off + stride, 2 * stride, h)
  {
    HalveDouble(stride, h);
    forall t | 0 <= t < h
      ensures (2 * t) * stride == t * (2 * stride)
      ensures (2 * t + 1) * stride == t * (2 * stride) + stride
    {
      Distribute(2 * t, 1, stride);
    }
  }

  /** Block number `b` of `v`, cut into blocks of `len`. */
  function Block<T>(v: seq<T>, b: nat, len: nat): (r: seq<T>)
    requires (b + 1) * len <= |v|
    ensures |r| == len
  {
    Distribute(b, 1, len);
    v[b * len..b * len + len]
  }

  lemma BlockFits(b: nat, m: nat, s: nat)
    requires s <= m && b < Pow2(m - s)
    ensures (b + 1) * Pow2(s) <= Pow2(m)
    ensures Rev(2, b, m - s) < Pow2(m - s)
    ensures Pow2(m - s) * Pow2(s) == Pow2(s) * Pow2(m - s) == Pow2(m)
  {
    MulMonotone(b + 1, Pow2(m - s), Pow2(s));
    Pow2Add(m - s, s);
    RevBound(2, b, m - s);
    PowOfTwo(m - s);
  }

  /** What block `b` must hold once blocks of `2^s` points are transformed. */
  function Expected<C>(ar: Arith<C>, x: seq<C>, tw: seq<C>, m: nat, s: nat, b: nat): (r: seq<C>)
    requires |x| == Pow2(m) <= 2 * |tw| && s <= m && b < Pow2(m - s)
    ensures |r| == Pow2(s)
  {
    BlockFits(b, m, s);
    Dit(ar, Strided(x, Rev(2, b, m - s), Pow2(m - s), Pow2(s)), tw, s, Pow2(m - s))
  }

  ghost predicate StageDone<C>(ar: Arith<C>, x: seq<C>, tw: seq<C>, m: nat, s: nat, v: seq<C>)
    requires |x| == |v| == Pow2(m) <= 2 * |tw| && s <= m
  {
    forall b: nat | b < Pow2(m - s) ::
      BlockFits(b, m, s);
      Block(v, b, Pow2(s)) == Expected(ar, x, tw, m, s, b)
  }

  /** The bit-reversed order is the order the blocks of one point must have. */
  lemma StageZeroDone<C>(ar: Arith<C>, x: seq<C>, tw: seq<C>, m: nat, v: seq<C>)
    requires |x| == |v| == Pow2(m) <= 2 * |tw|
    requires forall i: nat | i < Pow2(m) :: Rev(2, i, m) < Pow2(m) && v[i] == x[Rev(2, i, m)]
    ensures StageDone(ar, x, tw, m, 0, v)
  {
    forall b: nat | b < Pow2(m)
      ensures (b + 1) * Pow2(0) <= |v| && Block(v, b, Pow2(0)) == Expected(ar, x, tw, m, 0, b)
    {
      BlockFits(b, m, 0);
      assert Block(v, b, 1) == [v[b]];
      assert Strided(x, Rev(2, b, m), Pow2(m), 1) == [x[Rev(2, b, m)]];
    }
  }

  /** Block `b` of the next stage is built from the blocks `2b` and `2b + 1` of this one. */
  lemma ExpectedStep<C>(ar: Arith<C>, x: seq<C>, tw: seq<C>, m: nat, s: nat, b: nat)
    requires |x| == Pow2(m) <= 2 * |tw| && 1 <= s < m && b < Pow2(m - s - 1)
    ensures Pow2(s) * Pow2(m - s - 1) <= |tw| && 2 * b + 1 < Pow2(m - s)
    ensures Expected(ar, x, tw, m, s + 1, b)
         == Combine(ar, Expected(ar, x, tw, m, s, 2 * b), Expected(ar, x, tw, m, s, 2 * b + 1), tw, Pow2(m - s - 1))
  {
    PairSizes(m, s, b);
    var e, o := ExpectedHalves(ar, x, tw, m, s, b);
    SameCombine(ar, tw, Pow2(m - s - 1),
      Expected(ar, x, tw, m, s + 1, b), Expected(ar, x, tw, m, s, 2 * b), Expected(ar, x, tw, m, s, 2 * b + 1), e, o);
  }

  lemma ExpectedHalves<C>(ar: Arith<C>, x: seq<C>, tw: seq<C>, m: nat, s: nat, b: nat) returns (e: seq<C>, o: seq<C>)
    requires |x| == Pow2(m) <= 2 * |tw| && 1 <= s < m && b < Pow2(m - s - 1)
    ensures 2 * b + 1 < Pow2(m - s) && |e| == |o| == Pow2(s) && |e| * Pow2(m - s - 1) <= |tw|
    ensures e == Expected(ar, x, tw, m, s, 2 * b) && o == Expected(ar, x, tw, m, s, 2 * b + 1)
    ensures Expected(ar, x, tw, m, s + 1, b) == Combine(ar, e, o, tw, Pow2(m - s - 1))
  {
    var off, stride := Rev(2, b, m - s - 1), Pow2(m - s - 1);
    PairSizes(m, s, b);
    RevPair(b, m - s - 1);
    e, o := StridedPair(ar, x, tw, s, Pow2(s), off, stride);
    ExpectedIs(ar, x, tw, m, s, 2 * b, off, 2 * stride, Pow2(s));
    ExpectedIs(ar, x, tw, m, s, 2 * b + 1, off + stride, 2 * stride, Pow2(s));
    ExpectedIs(ar, x, tw, m, s + 1, b, off, stride, Pow2(s + 1));
  }

  lemma SameCombine<C>(ar: Arith<C>, tw: seq<C>, stride: nat, r: seq<C>, e: seq<C>, o: seq<C>, e': seq<C>, o': seq<C>)
    requires |e'| == |o'| && stride >= 1 && |e'| * stride <= |tw|
    requires e == e' && o == o' && r == Combine(ar, e', o', tw, stride)
    ensures r == Combine(ar, e, o, tw, stride)
  {
  }

  lemma PairSizes(m: nat, s: nat, b: nat)
    requires s < m && b < Pow2(m - s - 1)
    ensures Pow2(m - s) == 2 * Pow2(m - s - 1) && 2 * b + 1 < Pow2(m - s)
    ensures Rev(2, b, m - s - 1) < Pow2(m - s - 1) && Pow2(m - s - 1) * (2 * Pow2(s)) == Pow2(m)
  {
    BlockFits(b, m, s + 1);
  }

  lemma ExpectedIs<C>(ar: Arith<C>, x: seq<C>, tw: seq<C>, m: nat, s: nat, b: nat, off: nat, stride: nat, h: nat)
    requires |x| == Pow2(m) <= 2 * |tw| && s <= m && b < Pow2(m - s)
    requires off == Rev(2, b, m - s) && stride == Pow2(m - s) && h == Pow2(s)
    ensures off < stride && stride * h <= |x| && h * stride <= 2 * |tw|
    ensures Expected(ar, x, tw, m, s, b) == Dit(ar, Strided(x, off, stride, h), tw, s, stride)
  {
    BlockFits(b, m, s);
  }

  /** The transform of every `stride`-th point, from those of its even and odd halves. */
  lemma StridedPair<C>(ar: Arith<C>, x: seq<C>, tw: seq<C>, s: nat, h: nat, off: nat, stride: nat)
    returns (e: seq<C>, o: seq<C>)
    requires s >= 1 && h == Pow2(s) && off < stride && stride * (2 * h) <= |x| <= 2 * |tw|
    ensures (2 * stride) * h <= |x| && (2 * h) * stride <= 2 * |tw| && h * (2 * stride) <= 2 * |tw|
    ensures |e| == |o| == h && h * stride <= |tw|
    ensures e == Dit(ar, Strided(x, off, 2 * stride, h), tw, s, 2 * stride)
    ensures o == Dit(ar, Strided(x, off + stride, 2 * stride, h), tw, s, 2 * stride)
    ensures Pow2(s + 1) == 2 * h &&
      Dit(ar, Strided(x, off, stride, 2 * h), tw, s + 1, stride) == Combine(ar, e, o, tw, stride)
  {
    HalveDouble(h, stride);
    HalveDouble(stride, h);
    StridedHalves(x, off, stride, h);
    DitUnfold(ar, Strided(x, off, stride, 2 * h), tw, s + 1, stride);
    e := Dit(ar, Strided(x, off, 2 * stride, h), tw, s, 2 * stride);
    o := Dit(ar, Strided(x, off + stride, 2 * stride, h), tw, s, 2 * stride);
  }

  /** The reversals of the numbers `2b` and `2b + 1` differ in the leading digit. */
  lemma RevPair(b: nat, k: nat)
    ensures Rev(2, 2 * b, k + 1) == Rev(2, b, k)
    ensures Rev(2, 2 * b + 1, k + 1) == Rev(2, b, k) + Pow2(k)
  {
    RevDigit(2, b, 0, k);
    RevDigit(2, b, 1, k);
    PowOfTwo(k);
  }

  lemma ExpectedFirst<C>(ar: Arith<C>, x: seq<C>, tw: seq<C>, m: nat, b: nat)
    requires |x| == Pow2(m) <= 2 * |tw| && 1 <= m && b < Pow2(m - 1)
    ensures 2 * b + 1 < Pow2(m)
    ensures var p, q := Expected(ar, x, tw, m, 0, 2 * b)[0], Expected(ar, x, tw, m, 0, 2 * b + 1)[0];
      Expected(ar, x, tw, m, 1, b) == [ar.plus(p, q), ar.minus(p, q)]
  {
    var off, stride := Rev(2, b, m - 1), Pow2(m - 1);
    BlockFits(b, m, 1);
    BlockFits(2 * b, m, 0);
    BlockFits(2 * b + 1, m, 0);
    RevPair(b, m - 1);
  }

  /** The last stage has one block: the transform of the whole input. */
  lemma LastStage<C>(ar: Arith<C>, x: seq<C>, tw: seq<C>, m: nat, v: seq<C>)
    requires |x| == |v| == Pow2(m) <= 2 * |tw|
    requires StageDone(ar, x, tw, m, m, v)
    ensures v == Dit(ar, x, tw, m, 1)
  {
    BlockFits(0, m, m);
    assert Block(v, 0, Pow2(m)) == v;
    assert Strided(x, 0, 1, Pow2(m)) == x;
  }
}
