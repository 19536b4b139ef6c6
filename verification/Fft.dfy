/**
 * The in-place radix-2 FFT of fft.h on interleaved `int16_t` arrays.
 */
module Fft {
  import opened IntegerFacts
  import opened MachineInts
  import opened DigitReversal
  import opened Decimation
  import opened FixedDft
  import opened FixedPoint

  /** Complex number `i` of an interleaved array. */
  function At(a: array<int16>, i: nat): Cplx
    requires 2 * i + 1 < a.Length
    reads a
  {
    Cplx(a[2 * i], a[2 * i + 1])
  }

  /** The first `n` complex numbers of an interleaved array. */
  function View(a: array<int16>, n: nat): (r: seq<Cplx>)
    requires 2 * n <= a.Length
    reads a
    ensures |r| == n
    ensures forall i :: 0 <= i < n ==> r[i] == At(a, i)
  {
    seq(n, i requires 0 <= i < n && 2 * n <= a.Length reads a => At(a, i))
  }

  method Reorder(x: array<int16>, xrev: array<int16>, seqn: array<nat>, n: nat)
    requires xrev != x
    requires 2 * n <= x.Length && 2 * n <= xrev.Length && n <= seqn.Length
    requires forall i :: 0 <= i < n ==> seqn[i] < n
    modifies xrev
    ensures forall i :: 0 <= i < n ==> At(xrev, i) == At(x, seqn[i])
  {
    for i := 0 to n
      invariant forall j :: 0 <= j < i ==> At(xrev, j) == At(x, seqn[j])
    {
      xrev[2 * i] := x[2 * seqn[i]];
      xrev[2 * i + 1] := x[2 * seqn[i] + 1];
    }
  }

  /** Stage 0: additions and subtractions only. */
  method StageZero(xrev: array<int16>, n: nat, ghost groups: nat)
    requires 2 * n <= xrev.Length && n == 2 * groups
    modifies xrev
    ensures forall g :: 0 <= g < groups ==> FirstDone(View(xrev, n), old(View(xrev, n)), g)
  {
    ghost var v0 := View(xrev, n);
    ghost var done: nat := 0;
    var i := 0;
    while i < n
      invariant i == 2 * done && done <= groups
      invariant forall g :: 0 <= g < done ==> FirstDone(View(xrev, n), v0, g)
      invariant forall j :: i <= j < n ==> At(xrev, j) == v0[j]
    {
      ghost var v := View(xrev, n);
      assert At(xrev, i) == v0[i] && At(xrev, i + 1) == v0[i + 1];
      FirstButterfly(xrev, i);
      ghost var v' := View(xrev, n);
      assert v'[i] == At(xrev, i) && v'[i + 1] == At(xrev, i + 1);
      assert forall j :: 0 <= j < i ==> v'[j] == v[j];
      forall g | 0 <= g < done
        ensures FirstDone(v', v0, g)
      {
        assert FirstDone(v, v0, g);
      }
      assert FirstDone(v', v0, done);
      i := i + 2;
      done := done + 1;
    }
  }

  ghost predicate FirstDone(v: seq<Cplx>, v0: seq<Cplx>, g: nat)
    requires |v| == |v0| && 2 * g + 1 < |v|
  {
    v[2 * g] == FixedPlus(v0[2 * g], v0[2 * g + 1]) && v[2 * g + 1] == FixedMinus(v0[2 * g], v0[2 * g + 1])
  }

  /** Store a complex number: the real part at the even index, the imaginary part after it. */
  method SetAt(xrev: array<int16>, i: nat, re: int16, im: int16)
    requires 2 * i + 1 < xrev.Length
    modifies xrev
    ensures At(xrev, i) == Cplx(re, im)
    ensures forall j :: 0 <= j && 2 * j + 1 < xrev.Length && j != i ==> At(xrev, j) == old(At(xrev, j))
  {
    xrev[2 * i] := re;
    xrev[2 * i + 1] := im;
  }

  method FirstButterfly(xrev: array<int16>, i: nat)
    requires 2 * i + 3 < xrev.Length
    modifies xrev
    ensures At(xrev, i) == FixedPlus(old(At(xrev, i)), old(At(xrev, i + 1)))
    ensures At(xrev, i + 1) == FixedMinus(old(At(xrev, i)), old(At(xrev, i + 1)))
    ensures forall j :: 0 <= j && 2 * j + 1 < xrev.Length && j != i && j != i + 1 ==> At(xrev, j) == old(At(xrev, j))
  {
    var aRe: int, aIm: int := xrev[2 * i], xrev[2 * i + 1];
    var bRe: int, bIm: int := xrev[2 * (i + 1)], xrev[2 * (i + 1) + 1];
    SetAt(xrev, i, S16(aRe + bRe), S16(aIm + bIm));
    SetAt(xrev, i + 1, S16(aRe - bRe), S16(aIm - bIm));
  }

  /** The twiddles of one stage, `tw[j * step]` for each `j`. */
  method LoadTwiddles(tw: array<int16>, wRe: array<int16>, wIm: array<int16>, half: nat, step: nat)
    requires tw != wRe && tw != wIm && wRe != wIm && step >= 1
    requires half <= wRe.Length && half <= wIm.Length && 2 * (half * step) <= tw.Length
    modifies wRe, wIm
    ensures forall j :: 0 <= j < half ==>
      0 <= j * step < half * step && Cplx(wRe[j], wIm[j]) == At(tw, j * step)
  {
    for j := 0 to half
      invariant forall i :: 0 <= i < j ==>
        0 <= i * step < half * step && Cplx(wRe[i], wIm[i]) == At(tw, i * step)
    {
      IndexBelow(j, half, step);
      wRe[j] := tw[2 * (j * step)];
      wIm[j] := tw[2 * (j * step) + 1];
    }
  }

  /** The 32-bit product of a point and its twiddle, before it is cut to 16 bits. */
  method Product32(b: Cplx, w: Cplx, bits: nat) returns (tRe: int, tIm: int)
    ensures FixedTimes(b, w, bits) == Cplx(S16(tRe), S16(tIm))
  {
    tRe := Shr(S32(b.re * w.re - b.im * w.im), bits);
    tIm := Shr(S32(b.re * w.im + b.im * w.re), bits);
  }

  /** Sum and difference, stored as 16 bits each. */
  method StorePair(xrev: array<int16>, p: nat, q: nat, a: Cplx, tRe: int, tIm: int)
    requires p < q && 2 * q + 1 < xrev.Length
    modifies xrev
    ensures At(xrev, p) == FixedPlus(a, Cplx(S16(tRe), S16(tIm))) &&
      At(xrev, q) == FixedMinus(a, Cplx(S16(tRe), S16(tIm)))
    ensures forall j :: 0 <= j && 2 * j + 1 < xrev.Length && j != p && j != q ==> At(xrev, j) == old(At(xrev, j))
  {
    ButterflyValues(a, tRe, tIm);
    SetAt(xrev, p, S16(a.re + tRe), S16(a.im + tIm));
    SetAt(xrev, q, S16(a.re - tRe), S16(a.im - tIm));
  }

  /** One butterfly, on the points `p` and `q` of the array. */
  method Butterfly(xrev: array<int16>, p: nat, q: nat, wRe: int16, wIm: int16, bits: nat)
    requires p < q && 2 * q + 1 < xrev.Length
    modifies xrev
    ensures var a, t := old(At(xrev, p)), FixedTimes(old(At(xrev, q)), Cplx(wRe, wIm), bits);
      At(xrev, p) == FixedPlus(a, t) && At(xrev, q) == FixedMinus(a, t)
    ensures old(ButterflyFits(At(xrev, p), At(xrev, q), Cplx(wRe, wIm), bits)) ==>
      ButterflyLaw(old(At(xrev, p)), old(At(xrev, q)), Cplx(wRe, wIm), bits, At(xrev, p), At(xrev, q))
    ensures forall j :: 0 <= j && 2 * j + 1 < xrev.Length && j != p && j != q ==> At(xrev, j) == old(At(xrev, j))
  {
    var a := Cplx(xrev[2 * p], xrev[2 * p + 1]);
    var b := Cplx(xrev[2 * q], xrev[2 * q + 1]);
    var tRe, tIm := Product32(b, Cplx(wRe, wIm), bits);
    StorePair(xrev, p, q, a, tRe, tIm);
    if ButterflyFits(a, b, Cplx(wRe, wIm), bits) {
      ButterflyIsLawful(a, b, Cplx(wRe, wIm), bits);
    }
  }

  /** All butterflies of the group of `2 * half` points that starts at `i`. */
  method Group(xrev: array<int16>, i: nat, half: nat, wRe: array<int16>, wIm: array<int16>, bits: nat)
    requires xrev != wRe && xrev != wIm
    requires half <= wRe.Length && half <= wIm.Length && 2 * (i + 2 * half) <= xrev.Length
    modifies xrev
    ensures forall j :: 0 <= j < half ==>
      var a, t := old(At(xrev, i + j)), FixedTimes(old(At(xrev, i + j + half)), Cplx(wRe[j], wIm[j]), bits);
      At(xrev, i + j) == FixedPlus(a, t) && At(xrev, i + j + half) == FixedMinus(a, t)
    ensures forall j :: 0 <= j && 2 * j + 1 < xrev.Length && !(i <= j < i + 2 * half) ==>
      At(xrev, j) == old(At(xrev, j))
  {
    for j := 0 to half
      invariant forall k :: 0 <= k < j ==>
        var a, t := old(At(xrev, i + k)), FixedTimes(old(At(xrev, i + k + half)), Cplx(wRe[k], wIm[k]), bits);
        At(xrev, i + k) == FixedPlus(a, t) && At(xrev, i + k + half) == FixedMinus(a, t)
      invariant forall k :: 0 <= k && 2 * k + 1 < xrev.Length ==>
        !(i <= k < i + j) && !(i + half <= k < i + half + j) ==> At(xrev, k) == old(At(xrev, k))
    {
      Butterfly(xrev, i + j, i + j + half, wRe[j], wIm[j], bits);
    }
  }

  /** Group `g` of `v` is made of butterflies of the same points of `v0`. */
  ghost predicate GroupDone(v: seq<Cplx>, v0: seq<Cplx>, tw: seq<Cplx>, g: nat, half: nat, step: nat, bits: nat)
    requires |v| == |v0| && step >= 1 && half * step <= |tw|
  {
    && (g + 1) * (2 * half) <= |v|
    && (2 * g + 1) * half <= (2 * g + 2) * half <= |v|
    && Block(v, g, 2 * half) == Combine(Fixed(bits), Block(v0, 2 * g, half), Block(v0, 2 * g + 1, half), tw, step)
  }

  lemma GroupBounds(g: nat, groups: nat, half: nat, n: nat)
    requires n == groups * (2 * half) && g < groups
    ensures (g + 1) * (2 * half) <= n
    ensures g * (2 * half) == (2 * g) * half
    ensures (2 * g + 1) * half == (2 * g) * half + half
    ensures (2 * g + 2) * half == (2 * g + 1 + 1) * half == (g + 1) * (2 * half) == g * (2 * half) + 2 * half
  {
    MulMonotone(g + 1, groups, 2 * half);
    Distribute(2 * g, 1, half);
    Distribute(2 * g + 1, 1, half);
  }

  /** Butterfly `j` of the group at `i`: what `v` holds, from what `v0` held. */
  ghost predicate ButterflyAt(v: seq<Cplx>, v0: seq<Cplx>, tw: seq<Cplx>, i: nat, half: nat, step: nat, bits: nat,
                              j: int) {
    0 <= j < half && i + j + half < |v| == |v0| && 0 <= j * step < |tw| &&
    var t := FixedTimes(v0[i + j + half], tw[j * step], bits);
    v[i + j] == FixedPlus(v0[i + j], t) && v[i + j + half] == FixedMinus(v0[i + j], t)
  }

  lemma ButterflyIsCombine(v: seq<Cplx>, v0: seq<Cplx>, e: seq<Cplx>, o: seq<Cplx>, tw: seq<Cplx>,
                           i: nat, half: nat, step: nat, bits: nat, j: nat)
    requires ButterflyAt(v, v0, tw, i, half, step, bits, j)
    requires |e| == |o| == half && step >= 1 && half * step <= |tw|
    requires e[j] == v0[i + j] && o[j] == v0[i + j + half]
    ensures var c := Combine(Fixed(bits), e, o, tw, step);
      v[i + j] == c[j] && v[i + j + half] == c[j + half]
  {
    CombineAt(Fixed(bits), e, o, tw, step, j);
  }

  lemma GroupIsCombine(v: seq<Cplx>, v0: seq<Cplx>, tw: seq<Cplx>, g: nat, groups: nat, half: nat, step: nat, bits: nat)
    requires |v| == |v0| == groups * (2 * half) && g < groups && step >= 1 && half * step <= |tw|
    requires forall j {:trigger ButterflyAt(v, v0, tw, g * (2 * half), half, step, bits, j)} ::
      0 <= j < half ==> ButterflyAt(v, v0, tw, g * (2 * half), half, step, bits, j)
    ensures GroupDone(v, v0, tw, g, half, step, bits)
  {
    GroupBounds(g, groups, half, |v|);
    var i := g * (2 * half);
    var e, o := Block(v0, 2 * g, half), Block(v0, 2 * g + 1, half);
    BlockAt(v0, 2 * g, half, i);
    BlockAt(v0, 2 * g + 1, half, i + half);
    BlockAt(v, g, 2 * half, i);
    BlockIsCombine(v, v0, e, o, tw, i, half, step, bits);
  }

  lemma BlockAt(v: seq<Cplx>, b: nat, len: nat, i: nat)
    requires i == b * len && (b + 1) * len == i + len <= |v|
    ensures Block(v, b, len) == v[i..i + len]
  {
  }

  lemma BlockIsCombine(v: seq<Cplx>, v0: seq<Cplx>, e: seq<Cplx>, o: seq<Cplx>, tw: seq<Cplx>,
                       i: nat, half: nat, step: nat, bits: nat)
    requires |v| == |v0| && i + 2 * half <= |v| && step >= 1 && half * step <= |tw|
    requires e == v0[i..i + half] && o == v0[i + half..i + 2 * half]
    requires forall j {:trigger ButterflyAt(v, v0, tw, i, half, step, bits, j)} ::
      0 <= j < half ==> ButterflyAt(v, v0, tw, i, half, step, bits, j)
    ensures v[i..i + 2 * half] == Combine(Fixed(bits), e, o, tw, step)
  {
    var c := Combine(Fixed(bits), e, o, tw, step);
    forall k | 0 <= k < 2 * half
      ensures v[i + k] == c[k]
    {
      var j := if k < half then k else k - half;
      assert ButterflyAt(v, v0, tw, i, half, step, bits, j);
      ButterflyIsCombine(v, v0, e, o, tw, i, half, step, bits, j);
    }
  }

  /** Later groups leave the finished ones alone. */
  lemma GroupKept(v: seq<Cplx>, v': seq<Cplx>, v0: seq<Cplx>, tw: seq<Cplx>, g: nat, done: nat, half: nat, step: nat,
                  bits: nat)
    requires |v| == |v'| == |v0| && step >= 1 && half * step <= |tw| && g < done
    requires GroupDone(v, v0, tw, g, half, step, bits)
    requires done * (2 * half) <= |v| && v[..done * (2 * half)] == v'[..done * (2 * half)]
    ensures GroupDone(v', v0, tw, g, half, step, bits)
  {
    GroupBounds(g, done, half, done * (2 * half));
    var lo, hi, top := g * (2 * half), g * (2 * half) + 2 * half, done * (2 * half);
    assert v[lo..hi] == v[..top][lo..hi] && v'[lo..hi] == v'[..top][lo..hi];
  }

  /** The group at `i` follows the `done` groups before it. */
  method NextGroup(xrev: array<int16>, i: nat, half: nat, wRe: array<int16>, wIm: array<int16>, n: nat, ghost step: nat,
                   bits: nat, ghost groups: nat, ghost done: nat, ghost w: seq<Cplx>, ghost v0: seq<Cplx>)
    requires xrev != wRe && xrev != wIm && half >= 1 && step >= 1
    requires n == groups * (2 * half) && 2 * n <= xrev.Length && |v0| == n && half * step <= |w|
    requires half <= wRe.Length && half <= wIm.Length
    requires done < groups && i == done * (2 * half) && i + 2 * half <= n
    requires forall j :: 0 <= j < half ==> 0 <= j * step < half * step && Cplx(wRe[j], wIm[j]) == w[j * step]
    requires forall g: nat :: g < done ==> GroupDone(View(xrev, n), v0, w, g, half, step, bits)
    requires forall j :: i <= j < n ==> At(xrev, j) == v0[j]
    modifies xrev
    ensures forall g: nat :: g < done + 1 ==> GroupDone(View(xrev, n), v0, w, g, half, step, bits)
    ensures forall j :: i + 2 * half <= j < n ==> At(xrev, j) == v0[j]
  {
    ghost var v := View(xrev, n);
    Group(xrev, i, half, wRe, wIm, bits);
    ghost var v' := View(xrev, n);
    assert v[..i] == v'[..i];
    forall g: nat | g < done
      ensures GroupDone(v', v0, w, g, half, step, bits)
    {
      GroupKept(v, v', v0, w, g, done, half, step, bits);
    }
    forall j | 0 <= j < half
      ensures ButterflyAt(v', v0, w, i, half, step, bits, j)
    {
      assert Cplx(wRe[j], wIm[j]) == w[j * step];
    }
    GroupIsCombine(v', v0, w, done, groups, half, step, bits);
  }

  /** One stage: the twiddles of the stage, then every group of the array. */
  method Stage(xrev: array<int16>, tw: array<int16>, wRe: array<int16>, wIm: array<int16>,
               n: nat, half: nat, ghost groups: nat, step: nat, bits: nat, ghost w: seq<Cplx>)
    requires xrev != wRe && xrev != wIm && xrev != tw && tw != wRe && tw != wIm && wRe != wIm
    requires half >= 1 && step >= 1 && n == groups * (2 * half) && 2 * n <= xrev.Length
    requires half <= wRe.Length && half <= wIm.Length && 2 * (half * step) <= tw.Length
    requires w == View(tw, half * step)
    modifies xrev, wRe, wIm
    ensures forall g: nat :: g < groups ==>
      GroupDone(View(xrev, n), old(View(xrev, n)), w, g, half, step, bits)
  {
    LoadTwiddles(tw, wRe, wIm, half, step);
    ghost var v0 := View(xrev, n);
    ghost var done: nat := 0;
    var i := 0;
    while i < n
      invariant done <= groups && i == done * (2 * half) <= n
      invariant forall j :: 0 <= j < half ==> 0 <= j * step < half * step && Cplx(wRe[j], wIm[j]) == w[j * step]
      invariant forall g: nat :: g < done ==> GroupDone(View(xrev, n), v0, w, g, half, step, bits)
      invariant forall j :: i <= j < n ==> At(xrev, j) == v0[j]
    {
      if done == groups { assert false; }
      GroupBounds(done, groups, half, n);
      NextGroup(xrev, i, half, wRe, wIm, n, step, bits, groups, done, w, v0);
      i := i + 2 * half;
      done := done + 1;
    }
    if done < groups {
      GroupBounds(done, groups, half, n);
      assert false;
    }
  }

  lemma FirstStage(x: seq<Cplx>, tw: seq<Cplx>, m: nat, v0: seq<Cplx>, v: seq<Cplx>, bits: nat)
    requires |x| == |v0| == |v| == Pow2(m) == 2 * |tw| && 1 <= m
    requires StageDone(Fixed(bits), x, tw, m, 0, v0)
    requires forall g :: 0 <= g < Pow2(m - 1) ==> FirstDone(v, v0, g)
    ensures StageDone(Fixed(bits), x, tw, m, 1, v)
  {
    forall b: nat | b < Pow2(m - 1)
      ensures (b + 1) * Pow2(1) <= |v| && Block(v, b, Pow2(1)) == Expected(Fixed(bits), x, tw, m, 1, b)
    {
      FirstStageBlock(x, tw, m, v0, v, b, bits);
    }
  }

  lemma FirstStageBlock(x: seq<Cplx>, tw: seq<Cplx>, m: nat, v0: seq<Cplx>, v: seq<Cplx>, b: nat, bits: nat)
    requires |x| == |v0| == |v| == Pow2(m) == 2 * |tw| && 1 <= m && b < Pow2(m - 1)
    requires StageDone(Fixed(bits), x, tw, m, 0, v0) && FirstDone(v, v0, b)
    ensures (b + 1) * Pow2(1) <= |v| && Block(v, b, Pow2(1)) == Expected(Fixed(bits), x, tw, m, 1, b)
  {
    var ar := Fixed(bits);
    ExpectedFirst(ar, x, tw, m, b);
    BlockFits(b, m, 1);
    BlockFits(2 * b, m, 0);
    BlockFits(2 * b + 1, m, 0);
    assert Block(v0, 2 * b, Pow2(0)) == [v0[2 * b]] == Expected(ar, x, tw, m, 0, 2 * b);
    assert Block(v0, 2 * b + 1, Pow2(0)) == [v0[2 * b + 1]] == Expected(ar, x, tw, m, 0, 2 * b + 1);
    assert Block(v, b, Pow2(1)) == [v[2 * b], v[2 * b + 1]];
  }

  lemma NextStage(x: seq<Cplx>, tw: seq<Cplx>, m: nat, s: nat, half: nat, step: nat, v0: seq<Cplx>, v: seq<Cplx>,
                  bits: nat)
    requires |x| == |v0| == |v| == Pow2(m) == 2 * |tw| && 1 <= s < m
    requires half == Pow2(s) && step == Pow2(m - s - 1) && half * step <= |tw|
    requires StageDone(Fixed(bits), x, tw, m, s, v0)
    requires forall g: nat :: g < step ==> GroupDone(v, v0, tw, g, half, step, bits)
    ensures StageDone(Fixed(bits), x, tw, m, s + 1, v)
  {
    var ar, s', double := Fixed(bits), s + 1, Pow2(s + 1);
    forall b: nat | b < Pow2(m - s')
      ensures (b + 1) * double <= |v| && Block(v, b, double) == Expected(ar, x, tw, m, s', b)
    {
      ExpectedStep(ar, x, tw, m, s, b);
      BlockFits(b, m, s');
      BlockFits(2 * b, m, s);
      BlockFits(2 * b + 1, m, s);
      assert GroupDone(v, v0, tw, b, half, step, bits);
      assert Block(v0, 2 * b, half) == Expected(ar, x, tw, m, s, 2 * b);
      assert Block(v0, 2 * b + 1, half) == Expected(ar, x, tw, m, s, 2 * b + 1);
    }
  }

  lemma LogOfPower(m: nat, log: nat)
    requires Pow(2, log) <= Pow2(m) < Pow(2, log + 1)
    ensures log == m
  {
    PowOfTwo(log);
    PowOfTwo(log + 1);
    if log < m {
      Pow2Monotone(log + 1, m);
    } else if m < log {
      Pow2Monotone(m + 1, log);
    }
  }

  /**
   * `iterative_FFT_radix2` of fft.h for `N = 2^m` points, `2 <= N <= 16384`: fed the
   * bit-reversed sequence, it leaves in `X` what recursive decimation computes.
   */
  method IterativeFftRadix2(x: array<int16>, X: array<int16>, n: nat, tw: array<int16>, bits: nat,
                            wRe: array<int16>, wIm: array<int16>, xrev: array<int16>, seqn: array<nat>,
                            ghost m: nat)
    requires 1 <= m <= 14 && n == Pow2(m)
    requires 2 * n <= x.Length && 2 * n <= X.Length && 2 * n <= xrev.Length
    requires n <= tw.Length && n <= 2 * wRe.Length && n <= 2 * wIm.Length && n <= seqn.Length
    requires xrev != x && xrev != tw && xrev != wRe && xrev != wIm && xrev != X
    requires tw != wRe && tw != wIm && wRe != wIm && x != wRe && x != wIm && tw != X && X != wRe && X != wIm
    requires forall i: nat :: i < n ==> seqn[i] == Rev(2, i, m)
    modifies xrev, wRe, wIm, X
    ensures n == 2 * (n / 2)
    ensures View(X, n) == Dit(Fixed(bits), old(View(x, n)), old(View(tw, n / 2)), m, 1)
    ensures IsDft(View(X, n), old(View(x, n)), old(View(tw, n / 2)), bits, m)
    ensures forall j :: 2 * n <= j < X.Length ==> X[j] == old(X[j])
  {
    ghost var x0, w := View(x, n), View(tw, n / 2);
    InPlace(x, n, tw, bits, wRe, wIm, xrev, seqn, m, x0, w);
    CopyOut(xrev, X, n);
    HalfOfPower(m);
    DecimationIsNear(x0, w, bits, m);
  }

  /** All stages, on the working array. */
  method InPlace(x: array<int16>, n: nat, tw: array<int16>, bits: nat,
                 wRe: array<int16>, wIm: array<int16>, xrev: array<int16>, seqn: array<nat>,
                 ghost m: nat, ghost x0: seq<Cplx>, ghost w: seq<Cplx>)
    requires 1 <= m <= 14 && n == Pow2(m)
    requires 2 * n <= x.Length && 2 * n <= xrev.Length
    requires n <= tw.Length && n <= 2 * wRe.Length && n <= 2 * wIm.Length && n <= seqn.Length
    requires xrev != x && xrev != tw && xrev != wRe && xrev != wIm && tw != wRe && tw != wIm && wRe != wIm
    requires forall i: nat :: i < n ==> seqn[i] == Rev(2, i, m)
    requires x0 == View(x, n) && w == View(tw, n / 2)
    modifies xrev, wRe, wIm
    ensures View(xrev, n) == Dit(Fixed(bits), x0, w, m, 1)
  {
    SmallEnough(m);
    HalfOfPower(m);
    var numBits := LogFloor(n, 2);
    LogOfPower(m, numBits);
    FirstTwoPasses(x, xrev, seqn, n, bits, m, x0, w);
    RemainingStages(xrev, tw, wRe, wIm, n, numBits, bits, x0, w);
    LastStage(Fixed(bits), x0, w, m, View(xrev, n));
  }

  /** The bit-reversed copy and stage 0. */
  method FirstTwoPasses(x: array<int16>, xrev: array<int16>, seqn: array<nat>, n: nat,
                        ghost bits: nat, ghost m: nat, ghost x0: seq<Cplx>, ghost w: seq<Cplx>)
    requires 1 <= m && n == Pow2(m) == 2 * |w| && xrev != x
    requires 2 * n <= x.Length && 2 * n <= xrev.Length && n <= seqn.Length
    requires forall i: nat :: i < n ==> seqn[i] == Rev(2, i, m)
    requires x0 == View(x, n)
    modifies xrev
    ensures StageDone(Fixed(bits), x0, w, m, 1, View(xrev, n))
  {
    forall i: nat | i < n
      ensures Rev(2, i, m) < n
    {
      BlockFits(i, m, 0);
    }
    Reorder(x, xrev, seqn, n);
    ghost var v0 := View(xrev, n);
    StageZeroDone(Fixed(bits), x0, w, m, v0);
    StageZero(xrev, n, Pow2(m - 1));
    FirstStage(x0, w, m, v0, View(xrev, n), bits);
  }

  /** Copy the result to the output array. */
  method CopyOut(xrev: array<int16>, X: array<int16>, n: nat)
    requires X != xrev && 2 * n <= xrev.Length && 2 * n <= X.Length
    modifies X
    ensures View(X, n) == old(View(xrev, n))
    ensures forall j :: 2 * n <= j < X.Length ==> X[j] == old(X[j])
  {
    for i := 0 to 2 * n
      invariant forall j :: 0 <= j < i ==> X[j] == xrev[j]
      invariant forall j :: 2 * n <= j < X.Length ==> X[j] == old(X[j])
    {
      X[i] := xrev[i];
    }
    assert forall i :: 0 <= i < n ==> At(X, i) == old(At(xrev, i));
  }

  lemma SmallEnough(m: nat)
    requires m <= 14
    ensures Pow2(m) <= 0x4000
  {
    Pow2Monotone(m, 14);
    assert Pow2(14) == 0x4000 by { assert Pow2(7) == 0x80; Pow2Add(7, 7); }
  }

  lemma HalfOfPower(m: nat)
    requires m >= 1
    ensures Pow2(m) == 2 * Pow2(m - 1) && Pow2(m) / 2 == Pow2(m - 1)
  {
  }

  lemma StageSizes(m: nat, stage: nat)
    requires stage < m
    ensures Pow2(stage + 1) == 2 * Pow2(stage) && Pow2(m) == 2 * Pow2(m - 1)
    ensures Pow2(m - stage) == 2 * Pow2(m - stage - 1)
    ensures Pow2(stage) * Pow2(m - stage - 1) == Pow2(m - 1)
    ensures Pow2(m - stage - 1) * (2 * Pow2(stage)) == Pow2(m)
    ensures Pow2(stage) <= Pow2(m - 1)
  {
    Pow2Add(stage, m - stage - 1);
    Pow2Monotone(stage, m - 1);
    HalveDouble(Pow2(m - stage - 1), Pow2(stage));
  }

  /** Stage number `stage` carries the block property from `2^stage` to `2^(stage + 1)` points. */
  method RunStage(xrev: array<int16>, tw: array<int16>, wRe: array<int16>, wIm: array<int16>, n: nat, half: nat,
                  twStep: nat, bits: nat, ghost m: nat, ghost stage: nat, ghost x0: seq<Cplx>, ghost w: seq<Cplx>)
    requires 1 <= stage < m && n == Pow2(m) && half == Pow2(stage) && twStep == Pow2(m - stage - 1)
    requires xrev != wRe && xrev != wIm && xrev != tw && tw != wRe && tw != wIm && wRe != wIm
    requires 2 * n <= xrev.Length && n <= tw.Length && n <= 2 * wRe.Length && n <= 2 * wIm.Length
    requires |x0| == n && w == View(tw, n / 2) && |w| == Pow2(m - 1)
    requires StageDone(Fixed(bits), x0, w, m, stage, View(xrev, n))
    modifies xrev, wRe, wIm
    ensures StageDone(Fixed(bits), x0, w, m, stage + 1, View(xrev, n))
  {
    ghost var v0 := View(xrev, n);
    StageSizes(m, stage);
    assert half * twStep == n / 2;
    Stage(xrev, tw, wRe, wIm, n, half, twStep, twStep, bits, w);
    NextStage(x0, w, m, stage, half, twStep, v0, View(xrev, n), bits);
  }

  /** The stage loop of `iterative_FFT_radix2`, from stage 1 on. */
  method RemainingStages(xrev: array<int16>, tw: array<int16>, wRe: array<int16>, wIm: array<int16>,
                         n: nat, m: nat, bits: nat, ghost x0: seq<Cplx>, ghost w: seq<Cplx>)
    requires 1 <= m <= 14 && n == Pow2(m)
    requires xrev != wRe && xrev != wIm && xrev != tw && tw != wRe && tw != wIm && wRe != wIm
    requires 2 * n <= xrev.Length && n <= tw.Length && n <= 2 * wRe.Length && n <= 2 * wIm.Length
    requires |x0| == n && w == View(tw, n / 2) && |w| == Pow2(m - 1)
    requires StageDone(Fixed(bits), x0, w, m, 1, View(xrev, n))
    modifies xrev, wRe, wIm
    ensures StageDone(Fixed(bits), x0, w, m, m, View(xrev, n))
  {
    var twStep, step, stage := n / 2, 4, 1;
    while stage < m
      invariant 1 <= stage <= m && step == Pow2(stage + 1) && twStep == Pow2(m - stage)
      invariant View(tw, n / 2) == w
      invariant StageDone(Fixed(bits), x0, w, m, stage, View(xrev, n))
    {
      var half := step / 2;
      twStep := twStep / 2;
      RunStage(xrev, tw, wRe, wIm, n, half, twStep, bits, m, stage, x0, w);
      stage := stage + 1;
      step := step * 2;
    }
  }

  /** The reversed indices are not cut by the 16 bits they are stored in. */
  lemma ReversalsFit(m: nat)
    requires m <= 14
    ensures forall i: nat :: i < Pow2(m) ==> Rev(2, i, m) % 0x1_0000 == Rev(2, i, m)
  {
    SmallEnough(m);
    forall i: nat | i < Pow2(m)
      ensures Rev(2, i, m) % 0x1_0000 == Rev(2, i, m)
    {
      BlockFits(i, m, 0);
    }
  }

  /** The program: build the bit-reversed sequence, then transform. */
  method RunRadix2(x: array<int16>, X: array<int16>, n: nat, tw: array<int16>, bits: nat,
                   wRe: array<int16>, wIm: array<int16>, xrev: array<int16>, seqn: array<nat>,
                   ghost m: nat)
    requires 1 <= m <= 14 && n == Pow2(m)
    requires 2 * n <= x.Length && 2 * n <= X.Length && 2 * n <= xrev.Length
    requires n <= tw.Length && n <= 2 * wRe.Length && n <= 2 * wIm.Length && n <= seqn.Length
    requires xrev != x && xrev != tw && xrev != wRe && xrev != wIm && xrev != X
    requires tw != wRe && tw != wIm && wRe != wIm && x != wRe && x != wIm && tw != X && X != wRe && X != wIm
    modifies seqn, xrev, wRe, wIm, X
    ensures n == 2 * (n / 2)
    ensures View(X, n) == Dit(Fixed(bits), old(View(x, n)), old(View(tw, n / 2)), m, 1)
    ensures IsDft(View(X, n), old(View(x, n)), old(View(tw, n / 2)), bits, m)
  {
    SmallEnough(m);
    var numBits := LogFloor(n, 2);
    LogOfPower(m, numBits);
    GetBitReversedSeq(seqn, n, numBits, 2);
    ReversalsFit(m);
    IterativeFftRadix2(x, X, n, tw, bits, wRe, wIm, xrev, seqn, m);
  }
}
