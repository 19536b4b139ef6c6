/**
 * What the decimation of fft.h computes when its butterflies do not round: over exact
 * arithmetic, with powers of a root of unity as twiddles, it is the discrete Fourier
 * transform.  This is the meaning of the reference the fixed-point code refines.
 * The proof is over any commutative ring; the complex numbers are one.
 */
module ExactDft {
  import opened MachineInts
  import opened Decimation

  datatype Ring<!C> = Ring(ar: Arith<C>, zero: C, one: C, neg: C) {
    function Add(a: C, b: C): C { ar.plus(a, b) }
    function Sub(a: C, b: C): C { ar.minus(a, b) }
    function Mul(a: C, b: C): C { ar.times(a, b) }
  }

  // A law is used for the elements it is asserted for, and for no others.
  ghost predicate For1<C>(a: C) { true }
  ghost predicate For2<C>(a: C, b: C) { true }
  ghost predicate For3<C>(a: C, b: C, c: C) { true }

  ghost predicate ZeroLaw<C(!new)>(r: Ring<C>) {
    forall a {:trigger For1(a)} :: For1(a) ==> r.Add(r.zero, a) == a
  }

  ghost predicate OneLaw<C(!new)>(r: Ring<C>) {
    forall a {:trigger For1(a)} :: For1(a) ==> r.Mul(a, r.one) == a
  }

  ghost predicate OppositeLaw<C(!new)>(r: Ring<C>) {
    && (forall a {:trigger For1(a)} :: For1(a) ==> r.Sub(a, a) == r.zero)
    && r.Mul(r.neg, r.neg) == r.one
  }

  ghost predicate SymmetryLaws<C(!new)>(r: Ring<C>) {
    forall a, b {:trigger For2(a, b)} :: For2(a, b) ==>
      r.Add(a, b) == r.Add(b, a) && r.Mul(a, b) == r.Mul(b, a) && r.Sub(a, b) == r.Add(a, r.Mul(b, r.neg))
  }

  ghost predicate GroupingLaws<C(!new)>(r: Ring<C>) {
    forall a, b, c {:trigger For3(a, b, c)} :: For3(a, b, c) ==>
      && r.Add(r.Add(a, b), c) == r.Add(a, r.Add(b, c))
      && r.Mul(r.Mul(a, b), c) == r.Mul(a, r.Mul(b, c))
      && r.Mul(a, r.Add(b, c)) == r.Add(r.Mul(a, b), r.Mul(a, c))
  }

  /** A commutative ring: subtraction is addition of the opposite, which is `neg` times. */
  ghost predicate Lawful<C(!new)>(r: Ring<C>) {
    ZeroLaw(r) && OneLaw(r) && OppositeLaw(r) && SymmetryLaws(r) && GroupingLaws(r)
  }

  function Power<C>(r: Ring<C>, z: C, n: nat): C {
    if n == 0 then r.one else r.Mul(Power(r, z, n - 1), z)
  }

  /** `x[0] + x[1] z + ... + x[n-1] z^(n-1)`; at `z = w^k` this is coefficient `k` of the DFT. */
  function Sum<C>(r: Ring<C>, x: seq<C>, z: C, n: nat): C
    requires n <= |x|
  {
    if n == 0 then r.zero else r.Add(Sum(r, x, z, n - 1), r.Mul(x[n - 1], Power(r, z, n - 1)))
  }

  lemma {:induction false} PowerAdd<C(!new)>(r: Ring<C>, z: C, m: nat, n: nat)
    requires Lawful(r)
    ensures Power(r, z, m + n) == r.Mul(Power(r, z, m), Power(r, z, n))
  {
    if n == 0 {
      assert For1(Power(r, z, m));
    } else {
      PowerAdd(r, z, m, n - 1);
      assert For3(Power(r, z, m), Power(r, z, n - 1), z);
    }
  }

  /** Powers of a square: `z^(2k) = (z z)^k`, and both are the square of `z^k`. */
  lemma {:induction false} SquarePower<C(!new)>(r: Ring<C>, z: C, k: nat)
    requires Lawful(r)
    ensures Power(r, z, 2 * k) == Power(r, r.Mul(z, z), k) == r.Mul(Power(r, z, k), Power(r, z, k))
  {
    PowerAdd(r, z, k, k);
    assert k + k == 2 * k;
    if k > 0 {
      SquarePower(r, z, k - 1);
      assert For3(Power(r, z, 2 * k - 2), z, z);
      assert Power(r, z, 2 * k - 1) == r.Mul(Power(r, z, 2 * k - 2), z);
    }
  }

  /** The sum splits into the even and the odd terms, each a sum at `z^2`. */
  lemma {:induction false} SumSplits<C(!new)>(r: Ring<C>, x: seq<C>, z: C, h: nat, n: nat)
    requires Lawful(r) && |x| == 2 * h && n <= h
    ensures Sum(r, x, z, 2 * n)
         == r.Add(Sum(r, Evens(x, h), r.Mul(z, z), n), r.Mul(Sum(r, Odds(x, h), r.Mul(z, z), n), z))
  {
    if n == 0 {
      assert For1(r.Mul(r.zero, z));
      ZeroTimes(r, z);
    } else {
      var zz, k := r.Mul(z, z), n - 1;
      SumSplits(r, x, z, h, k);
      SquarePower(r, z, k);
      TwoTerms(r, x, z, k);
      Regroup(r, Sum(r, Evens(x, h), zz, k), Sum(r, Odds(x, h), zz, k), x[2 * k], x[2 * k + 1], Power(r, zz, k), z);
    }
  }

  lemma TwoTerms<C>(r: Ring<C>, x: seq<C>, z: C, k: nat)
    requires 2 * k + 2 <= |x|
    ensures Sum(r, x, z, 2 * (k + 1))
         == r.Add(r.Add(Sum(r, x, z, 2 * k), r.Mul(x[2 * k], Power(r, z, 2 * k))),
                  r.Mul(x[2 * k + 1], r.Mul(Power(r, z, 2 * k), z)))
  {
    assert Sum(r, x, z, 2 * k + 1) == r.Add(Sum(r, x, z, 2 * k), r.Mul(x[2 * k], Power(r, z, 2 * k)));
  }

  /** `0 + 0 z = 0`, so `0 z = 0` only has to absorb one zero. */
  lemma ZeroTimes<C(!new)>(r: Ring<C>, z: C)
    requires Lawful(r)
    ensures r.Mul(r.zero, z) == r.zero
  {
    var y := r.Mul(z, r.zero);
    assert For2(r.zero, z) && For3(z, r.zero, r.zero) && For1(r.zero);
    assert y == r.Add(y, y);
    Cancel(r, y);
  }

  lemma Cancel<C(!new)>(r: Ring<C>, y: C)
    requires Lawful(r) && y == r.Add(y, y)
    ensures y == r.zero
  {
    assert For1(y) && For2(y, y) && For3(y, y, r.Mul(y, r.neg)) && For2(y, r.zero);
  }

  lemma Regroup<C(!new)>(r: Ring<C>, e: C, o: C, a: C, b: C, p: C, z: C)
    requires Lawful(r)
    ensures r.Add(r.Add(r.Add(e, r.Mul(o, z)), r.Mul(a, p)), r.Mul(b, r.Mul(p, z)))
         == r.Add(r.Add(e, r.Mul(a, p)), r.Mul(r.Add(o, r.Mul(b, p)), z))
  {
    var oz, ap, bpz := r.Mul(o, z), r.Mul(a, p), r.Mul(r.Mul(b, p), z);
    assert For3(b, p, z);
    assert For2(r.Add(o, r.Mul(b, p)), z) && For3(z, o, r.Mul(b, p)) && For2(z, o) && For2(z, r.Mul(b, p));
    assert r.Mul(r.Add(o, r.Mul(b, p)), z) == r.Add(oz, bpz);
    assert For3(e, oz, ap) && For2(oz, ap) && For3(e, ap, oz);
    assert For3(r.Add(e, ap), oz, bpz);
  }

  /** Both halves of a butterfly: the sums at `w^j` and at `w^(j + h) = -w^j`. */
  lemma HalfTurn<C(!new)>(r: Ring<C>, x: seq<C>, w: C, h: nat, j: nat)
    requires Lawful(r) && |x| == 2 * h && j < h && Power(r, w, h) == r.neg
    ensures var z := Power(r, r.Mul(w, w), j);
      var e, o := Sum(r, Evens(x, h), z, h), Sum(r, Odds(x, h), z, h);
      && Sum(r, x, Power(r, w, j), 2 * h) == r.Add(e, r.Mul(o, Power(r, w, j)))
      && Sum(r, x, Power(r, w, j + h), 2 * h) == r.Sub(e, r.Mul(o, Power(r, w, j)))
  {
    var z, z' := Power(r, w, j), Power(r, w, j + h);
    PowerAdd(r, w, j, h);
    SquarePower(r, w, j);
    SquareOfOpposite(r, z);
    SumSplits(r, x, z, h, h);
    SumSplits(r, x, z', h, h);
    var e, o := Sum(r, Evens(x, h), r.Mul(z, z), h), Sum(r, Odds(x, h), r.Mul(z, z), h);
    assert For3(o, z, r.neg) && For2(e, r.Mul(o, z));
  }

  lemma SquareOfOpposite<C(!new)>(r: Ring<C>, z: C)
    requires Lawful(r)
    ensures var z' := r.Mul(z, r.neg); r.Mul(z', z') == r.Mul(z, z)
  {
    var z' := r.Mul(z, r.neg);
    assert For3(z', z, r.neg) && For2(z', z) && For3(z, z, r.neg) && For3(r.Mul(z, z), r.neg, r.neg) &&
      For1(r.Mul(z, z));
  }

  /** The twiddles of a transform: `tw[j * stride] = w^j` for the first half turn. */
  ghost predicate Twiddles<C>(r: Ring<C>, tw: seq<C>, half: nat, stride: nat, w: C) {
    && half * stride <= |tw| && stride >= 1
    && Power(r, w, half) == r.neg
    && forall j: nat :: j < half ==> (IndexBelow(j, half, stride); tw[j * stride] == Power(r, w, j))
  }

  lemma SquaredTwiddles<C(!new)>(r: Ring<C>, tw: seq<C>, half: nat, stride: nat, w: C)
    requires Lawful(r) && Twiddles(r, tw, 2 * half, stride, w)
    ensures Twiddles(r, tw, half, 2 * stride, r.Mul(w, w))
  {
    HalveDouble(half, stride);
    SquarePower(r, w, half);
    forall j: nat | j < half
      ensures 0 <= j * (2 * stride) < |tw| && tw[j * (2 * stride)] == Power(r, r.Mul(w, w), j)
    {
      IndexBelow(2 * j, 2 * half, stride);
      SquarePower(r, w, j);
      HalveDouble(j, stride);
    }
  }

  /** One level: if both halves are DFTs for the root `w w`, their butterflies are the DFT for `w`. */
  lemma ButterfliesAreDft<C(!new)>(r: Ring<C>, x: seq<C>, e: seq<C>, o: seq<C>, tw: seq<C>, stride: nat, w: C, j: nat)
    requires Lawful(r) && |x| == 2 * |e| && |e| == |o| && j < |e|
    requires Twiddles(r, tw, |e|, stride, w)
    requires e[j] == Sum(r, Evens(x, |e|), Power(r, r.Mul(w, w), j), |e|)
    requires o[j] == Sum(r, Odds(x, |e|), Power(r, r.Mul(w, w), j), |e|)
    ensures Combine(r.ar, e, o, tw, stride)[j] == Sum(r, x, Power(r, w, j), |x|)
    ensures Combine(r.ar, e, o, tw, stride)[j + |e|] == Sum(r, x, Power(r, w, j + |e|), |x|)
  {
    HalfTurn(r, x, w, |e|, j);
    CombineAt(r.ar, e, o, tw, stride, j);
  }

  /** Coefficient `i` of decimation is coefficient `i` of the DFT with root `w`. */
  ghost predicate IsDftAt<C>(r: Ring<C>, x: seq<C>, tw: seq<C>, k: nat, stride: nat, w: C, i: nat) {
    && |x| == Pow2(k) && stride >= 1 && Pow2(k) * stride <= 2 * |tw| && i < |x|
    && Dit(r.ar, x, tw, k, stride)[i] == Sum(r, x, Power(r, w, i), |x|)
  }

  lemma DftLevel<C(!new)>(r: Ring<C>, x: seq<C>, tw: seq<C>, k: nat, stride: nat, w: C, j: nat, h: nat)
    requires Lawful(r) && k >= 2 && |x| == Pow2(k) && j < h == Pow2(k - 1)
    requires Pow2(k) * stride <= 2 * |tw| && Twiddles(r, tw, h, stride, w)
    requires IsDftAt(r, Evens(x, h), tw, k - 1, 2 * stride, r.Mul(w, w), j)
    requires IsDftAt(r, Odds(x, h), tw, k - 1, 2 * stride, r.Mul(w, w), j)
    ensures IsDftAt(r, x, tw, k, stride, w, j) && IsDftAt(r, x, tw, k, stride, w, j + h)
  {
    DitUnfold(r.ar, x, tw, k, stride);
    var e, o := Dit(r.ar, Evens(x, h), tw, k - 1, 2 * stride), Dit(r.ar, Odds(x, h), tw, k - 1, 2 * stride);
    BothHalves(r, x, e, o, tw, k, stride, w, j, h);
  }

  lemma BothHalves<C(!new)>(r: Ring<C>, x: seq<C>, e: seq<C>, o: seq<C>, tw: seq<C>, k: nat, stride: nat, w: C,
                                j: nat, h: nat)
    requires Lawful(r) && k >= 2 && |x| == Pow2(k) && |e| == |o| == h == Pow2(k - 1) && j < h
    requires Pow2(k) * stride <= 2 * |tw| && Twiddles(r, tw, h, stride, w)
    requires Dit(r.ar, x, tw, k, stride) == Combine(r.ar, e, o, tw, stride)
    requires e[j] == Sum(r, Evens(x, h), Power(r, r.Mul(w, w), j), h)
    requires o[j] == Sum(r, Odds(x, h), Power(r, r.Mul(w, w), j), h)
    ensures IsDftAt(r, x, tw, k, stride, w, j) && IsDftAt(r, x, tw, k, stride, w, j + h)
  {
    ButterfliesAreDft(r, x, e, o, tw, stride, w, j);
  }

  /** Decimation of `2^k` points with root `w`. */
  lemma {:induction false} DitIsDft<C(!new)>(r: Ring<C>, x: seq<C>, tw: seq<C>, k: nat, stride: nat, w: C, i: nat)
    requires Lawful(r) && k >= 1 && |x| == Pow2(k) && i < Pow2(k)
    requires Pow2(k) * stride <= 2 * |tw| && Twiddles(r, tw, Pow2(k - 1), stride, w)
    ensures IsDftAt(r, x, tw, k, stride, w, i)
    decreases k
  {
    if k == 1 {
      TwoPointsDft(r, x, tw, stride, w, i);
    } else {
      var h, ww := Pow2(k - 1), r.Mul(w, w);
      var j := if i < h then i else i - h;
      HalvesReady(r, x, tw, k, stride, w);
      DitIsDft(r, Evens(x, h), tw, k - 1, 2 * stride, ww, j);
      DitIsDft(r, Odds(x, h), tw, k - 1, 2 * stride, ww, j);
      DftLevel(r, x, tw, k, stride, w, j, h);
      assert i == j || i == j + h;
    }
  }

  /** The halves meet the conditions of the transform of half the size, with every second twiddle. */
  lemma HalvesReady<C(!new)>(r: Ring<C>, x: seq<C>, tw: seq<C>, k: nat, stride: nat, w: C)
    requires Lawful(r) && k >= 2 && |x| == Pow2(k)
    requires Pow2(k) * stride <= 2 * |tw| && Twiddles(r, tw, Pow2(k - 1), stride, w)
    ensures |x| == 2 * Pow2(k - 1) && Pow2(k - 1) * (2 * stride) <= 2 * |tw|
    ensures Twiddles(r, tw, Pow2(k - 2), 2 * stride, r.Mul(w, w))
  {
    HalveDouble(Pow2(k - 1), stride);
    SquaredTwiddles(r, tw, Pow2(k - 2), stride, w);
  }

  lemma TwoPointsDft<C(!new)>(r: Ring<C>, x: seq<C>, tw: seq<C>, stride: nat, w: C, i: nat)
    requires Lawful(r) && |x| == Pow2(1) && stride >= 1 && Pow2(1) * stride <= 2 * |tw| && Power(r, w, 1) == r.neg
    requires i < Pow2(1)
    ensures IsDftAt(r, x, tw, 1, stride, w, i)
  {
    TwoPoints(r, x, tw, stride, w);
  }

  lemma TwoPoints<C(!new)>(r: Ring<C>, x: seq<C>, tw: seq<C>, stride: nat, w: C)
    requires Lawful(r) && |x| == Pow2(1) && stride >= 1 && Pow2(1) * stride <= 2 * |tw| && Power(r, w, 1) == r.neg
    ensures Dit(r.ar, x, tw, 1, stride) == [Sum(r, x, Power(r, w, 0), 2), Sum(r, x, Power(r, w, 1), 2)]
  {
    HalfTurn(r, x, w, 1, 0);
    assert Power(r, r.Mul(w, w), 0) == r.one;
    OneTerm(r, Evens(x, 1));
    OneTerm(r, Odds(x, 1));
    assert For1(x[1]);
  }

  lemma OneTerm<C(!new)>(r: Ring<C>, x: seq<C>)
    requires Lawful(r) && |x| == 1
    ensures Sum(r, x, r.one, 1) == x[0]
  {
    assert For1(x[0]);
    assert Sum(r, x, r.one, 1) == r.Add(Sum(r, x, r.one, 0), r.Mul(x[0], Power(r, r.one, 0)));
  }

  /** Over any commutative ring with `w^(N/2) = -1`, decimation yields every DFT coefficient. */
  lemma DecimationIsDft<C(!new)>(r: Ring<C>, x: seq<C>, tw: seq<C>, m: nat, w: C, i: nat)
    requires Lawful(r) && |x| == Pow2(m) == 2 * |tw| && m >= 1 && i < |x|
    requires Power(r, w, |tw|) == r.neg
    requires forall j: nat :: j < |tw| ==> tw[j] == Power(r, w, j)
    ensures Dit(r.ar, x, tw, m, 1)[i] == Sum(r, x, Power(r, w, i), |x|)
  {
    DitIsDft(r, x, tw, m, 1, w, i);
  }

  // The complex numbers.

  datatype Complex = Complex(re: real, im: real)

  function CAdd(a: Complex, b: Complex): Complex { Complex(a.re + b.re, a.im + b.im) }
  function CSub(a: Complex, b: Complex): Complex { Complex(a.re - b.re, a.im - b.im) }
  function CMul(a: Complex, b: Complex): Complex { Complex(a.re * b.re - a.im * b.im, a.re * b.im + a.im * b.re) }

  function ComplexRing(): Ring<Complex> {
    Ring(Arith(CAdd, CSub, CMul), Complex(0.0, 0.0), Complex(1.0, 0.0), Complex(-1.0, 0.0))
  }

  /** The square of the imaginary unit is minus one. */
  lemma ImaginaryUnit()
    ensures CMul(Complex(0.0, 1.0), Complex(0.0, 1.0)) == Complex(-1.0, 0.0)
  {
  }

  lemma CMulAssoc(a: Complex, b: Complex, c: Complex)
    ensures CMul(CMul(a, b), c) == CMul(a, CMul(b, c))
  {
    assert (a.re * b.re - a.im * b.im) * c.re - (a.re * b.im + a.im * b.re) * c.im
        == a.re * (b.re * c.re - b.im * c.im) - a.im * (b.re * c.im + b.im * c.re);
    assert (a.re * b.re - a.im * b.im) * c.im + (a.re * b.im + a.im * b.re) * c.re
        == a.re * (b.re * c.im + b.im * c.re) + a.im * (b.re * c.re - b.im * c.im);
  }

  lemma CMulDistributes(a: Complex, b: Complex, c: Complex)
    ensures CMul(a, CAdd(b, c)) == CAdd(CMul(a, b), CMul(a, c))
  {
  }

  lemma ComplexOps(a: Complex, b: Complex)
    ensures ComplexRing().Add(a, b) == CAdd(a, b)
    ensures ComplexRing().Sub(a, b) == CSub(a, b)
    ensures ComplexRing().Mul(a, b) == CMul(a, b)
  {
  }

  lemma ComplexZeroLaw()
    ensures ZeroLaw(ComplexRing())
  {
    var r := ComplexRing();
    forall a: Complex {:trigger For1(a)}
      ensures r.Add(r.zero, a) == a
    {
      ComplexOps(r.zero, a);
    }
  }

  lemma ComplexOneLaw()
    ensures OneLaw(ComplexRing())
  {
    var r := ComplexRing();
    forall a: Complex {:trigger For1(a)}
      ensures r.Mul(a, r.one) == a
    {
      ComplexOps(a, r.one);
    }
  }

  lemma ComplexOppositeLaw()
    ensures OppositeLaw(ComplexRing())
  {
    var r := ComplexRing();
    forall a: Complex {:trigger For1(a)}
      ensures r.Sub(a, a) == r.zero
    {
      ComplexOps(a, a);
    }
    ComplexOps(r.neg, r.neg);
  }

  lemma ComplexSymmetryLaws()
    ensures SymmetryLaws(ComplexRing())
  {
    var r := ComplexRing();
    forall a: Complex, b: Complex {:trigger For2(a, b)}
      ensures r.Add(a, b) == r.Add(b, a) && r.Mul(a, b) == r.Mul(b, a) && r.Sub(a, b) == r.Add(a, r.Mul(b, r.neg))
    {
      ComplexOps(a, b);
      ComplexOps(b, a);
      ComplexOps(b, r.neg);
      ComplexOps(a, CMul(b, r.neg));
    }
  }

  lemma ComplexGroupingLaws()
    ensures GroupingLaws(ComplexRing())
  {
    var r := ComplexRing();
    forall a: Complex, b: Complex, c: Complex {:trigger For3(a, b, c)}
      ensures r.Add(r.Add(a, b), c) == r.Add(a, r.Add(b, c))
      ensures r.Mul(r.Mul(a, b), c) == r.Mul(a, r.Mul(b, c))
      ensures r.Mul(a, r.Add(b, c)) == r.Add(r.Mul(a, b), r.Mul(a, c))
    {
      ComplexTriple(a, b, c);
    }
  }

  lemma ComplexTriple(a: Complex, b: Complex, c: Complex)
    ensures var r := ComplexRing();
      && r.Add(r.Add(a, b), c) == r.Add(a, r.Add(b, c))
      && r.Mul(r.Mul(a, b), c) == r.Mul(a, r.Mul(b, c))
      && r.Mul(a, r.Add(b, c)) == r.Add(r.Mul(a, b), r.Mul(a, c))
  {
    ComplexOps(a, b);
    ComplexOps(b, c);
    ComplexOps(a, c);
    ComplexOps(CAdd(a, b), c);
    ComplexOps(a, CAdd(b, c));
    ComplexOps(CMul(a, b), c);
    ComplexOps(a, CMul(b, c));
    ComplexOps(CMul(a, b), CMul(a, c));
    CMulAssoc(a, b, c);
    CMulDistributes(a, b, c);
  }

  /** With exact complex arithmetic, decimation yields every coefficient of the DFT. */
  lemma ExactDecimationIsDft(x: seq<Complex>, tw: seq<Complex>, m: nat, w: Complex, i: nat)
    requires |x| == Pow2(m) == 2 * |tw| && m >= 1 && i < |x|
    requires Power(ComplexRing(), w, |tw|) == Complex(-1.0, 0.0)
    requires forall j: nat :: j < |tw| ==> tw[j] == Power(ComplexRing(), w, j)
    ensures Dit(ComplexRing().ar, x, tw, m, 1)[i] == Sum(ComplexRing(), x, Power(ComplexRing(), w, i), |x|)
  {
    ComplexZeroLaw();
    ComplexOneLaw();
    ComplexOppositeLaw();
    ComplexSymmetryLaws();
    ComplexGroupingLaws();
    DecimationIsDft(ComplexRing(), x, tw, m, w, i);
  }
}
