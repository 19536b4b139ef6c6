/**
 * How far the fixed-point transform is from the discrete Fourier transform of its input: it follows the exact
 * decimation of ExactDft butterfly by butterfly, as long as nothing overflows.
 */
module FixedDft {
  import opened IntegerFacts
  import opened MachineInts
  import opened Decimation
  import opened FixedPoint
  import opened ExactDft

  // ---------------------------------------------------------------- distances

  ghost predicate Within(x: real, e: real) {
    -e <= x <= e
  }

  /** Both parts of `a` and `b` differ by at most `e`. */
  ghost predicate Near(a: Complex, b: Complex, e: real) {
    Within(a.re - b.re, e) && Within(a.im - b.im, e)
  }

  lemma SizesMultiply(x: real, y: real, a: real, b: real)
    requires 0.0 <= x <= a && 0.0 <= y <= b
    ensures 0.0 <= x * y <= a * b
  {
    assert (a - x) * y >= 0.0;
    assert (b - y) * a >= 0.0;
  }

  lemma Signs(x: real, y: real)
    ensures (-x) * y == x * (-y) == -(x * y) && (-x) * (-y) == x * y
  {
  }

  lemma ProductWithin(x: real, y: real, a: real, b: real)
    requires Within(x, a) && Within(y, b)
    ensures Within(x * y, a * b)
  {
    SizesMultiply(if x >= 0.0 then x else -x, if y >= 0.0 then y else -y, a, b);
    Signs(x, y);
  }

  function Point(z: Cplx): Complex {
    Complex(z.re as real, z.im as real)
  }

  /** A twiddle with `bits` decimals. */
  function Scaled(w: Cplx, bits: nat): Complex {
    Complex(w.re as real / Pow2(bits) as real, w.im as real / Pow2(bits) as real)
  }

  function Points(x: seq<Cplx>): (r: seq<Complex>)
    ensures |r| == |x|
  {
    seq(|x|, i requires 0 <= i < |x| => Point(x[i]))
  }

  // ---------------------------------------------------------------- one butterfly

  lemma Quotient(x: int, s: int)
    requires s >= 1
    ensures (x as real / s as real) * s as real == x as real
  {
  }

  lemma Regroup(b: real, x: real, s: real)
    ensures b * x * s == b * (x * s)
  {
  }

  lemma IntProduct(x: int, y: int)
    ensures (x * y) as real == x as real * y as real
  {
  }

  lemma OneProduct(b: int, w: int, s: int)
    requires s >= 1
    ensures (b as real * (w as real / s as real)) * s as real == (b * w) as real
  {
    Quotient(w, s);
    Regroup(b as real, w as real / s as real, s as real);
    IntProduct(b, w);
  }

  lemma TwoProducts(x: real, y: real, s: real, p: int, q: int)
    requires x * s == p as real && y * s == q as real
    ensures (x - y) * s == (p - q) as real && (x + y) * s == (p + q) as real
  {
  }

  /** The product of a point and a scaled twiddle, times the scale, is the sum of integer products. */
  lemma ScaledProduct(b: Cplx, w: Cplx, s: int)
    requires s >= 1
    ensures var x := CMul(Point(b), Complex(w.re as real / s as real, w.im as real / s as real));
      x.re * s as real == (b.re * w.re - b.im * w.im) as real &&
      x.im * s as real == (b.re * w.im + b.im * w.re) as real
  {
    var u, v := w.re as real / s as real, w.im as real / s as real;
    OneProduct(b.re, w.re, s);
    OneProduct(b.im, w.im, s);
    OneProduct(b.re, w.im, s);
    OneProduct(b.im, w.re, s);
    TwoProducts(b.re as real * u, b.im as real * v, s as real, b.re * w.re, b.im * w.im);
    TwoProducts(b.re as real * v, b.im as real * u, s as real, b.re * w.im, b.im * w.re);
  }

  /** What rounding may take away: less than one, or nothing when the products divide. */
  function Loss(exact: bool): real {
    if exact then 0.0 else 1.0
  }

  lemma RestLoses(d: real, s: int, r: int, exact: bool)
    requires 0 <= r < s && d * s as real == r as real && (exact ==> r == 0)
    ensures 0.0 <= d <= Loss(exact)
  {
    assert d < 0.0 ==> d * s as real < 0.0;
    assert d > 0.0 ==> d * s as real > 0.0;
    assert d > 1.0 ==> (d - 1.0) * s as real > 0.0;
  }

  lemma Difference(x: real, t: int, s: int, v: int)
    requires x * s as real == v as real
    ensures (x - t as real) * s as real == (v - s * t) as real
  {
    IntProduct(t, s);
    assert (x - t as real) * s as real == x * s as real - t as real * s as real;
  }

  lemma FloorLoses(t: int, v: int, s: int, x: real, exact: bool)
    requires s >= 1 && Floors(t, v, s) && x * s as real == v as real && (exact ==> s * t == v)
    ensures x - Loss(exact) <= t as real <= x
  {
    Difference(x, t, s, v);
    RestLoses(x - t as real, s, v - s * t, exact);
  }

  lemma SplitDifference(x: real, y: real, x': real, y': real)
    ensures (x - x') * y' + x * (y - y') == x * y - x' * y'
  {
  }

  /** One term of a product, both of whose factors are off. */
  lemma TermClose(x: real, y: real, x': real, y': real, e: real, tau: real) returns (p: real, p': real)
    requires Within(x - x', e) && Within(y', 1.0) && Within(x, 32768.0) && Within(y - y', tau)
    ensures p == x * y && p' == x' * y' && Within(p - p', e + 32768.0 * tau)
  {
    p, p' := x * y, x' * y';
    ProductWithin(x - x', y', e, 1.0);
    ProductWithin(x, y - y', 32768.0, tau);
    SplitDifference(x, y, x', y');
  }

  /** The factors of a product: near each other, the second ones small. */
  ghost predicate Factors(b: Complex, v: Complex, b': Complex, w: Complex, e: real, tau: real) {
    && Near(b, b', e) && Near(v, w, tau) && Within(w.re, 1.0) && Within(w.im, 1.0)
    && Within(b.re, 32768.0) && Within(b.im, 32768.0)
  }

  lemma Parts(b: Complex, v: Complex)
    ensures CMul(b, v).re == b.re * v.re - b.im * v.im && CMul(b, v).im == b.re * v.im + b.im * v.re
  {
  }

  lemma SumsClose(x: real, x': real, p: real, q: real, p': real, q': real, d: real)
    requires (x == p - q && x' == p' - q') || (x == p + q && x' == p' + q')
    requires Within(p - p', d) && Within(q - q', d)
    ensures Within(x - x', 2.0 * d)
  {
  }

  /** Two terms of a product at once. */
  lemma TermsClose(x: real, y: real, u: real, v: real, x': real, y': real, u': real, v': real, e: real, tau: real)
    returns (p: real, q: real, p': real, q': real, d: real)
    requires Within(x - x', e) && Within(y', 1.0) && Within(x, 32768.0) && Within(y - y', tau)
    requires Within(u - u', e) && Within(v', 1.0) && Within(u, 32768.0) && Within(v - v', tau)
    ensures p == x * y && q == u * v && p' == x' * y' && q' == u' * v' && d == e + 32768.0 * tau
    ensures Within(p - p', d) && Within(q - q', d)
  {
    p, p' := TermClose(x, y, x', y', e, tau);
    q, q' := TermClose(u, v, u', v', e, tau);
    d := e + 32768.0 * tau;
  }

  lemma RealPart(b: Complex, v: Complex, b': Complex, w: Complex, e: real, tau: real)
    requires Factors(b, v, b', w, e, tau)
    ensures Within(CMul(b, v).re - CMul(b', w).re, 2.0 * (e + 32768.0 * tau))
  {
    var p, q, p', q', d := TermsClose(b.re, v.re, b.im, v.im, b'.re, w.re, b'.im, w.im, e, tau);
    Parts(b, v);
    Parts(b', w);
    SumsClose(CMul(b, v).re, CMul(b', w).re, p, q, p', q', d);
  }

  lemma ImaginaryPart(b: Complex, v: Complex, b': Complex, w: Complex, e: real, tau: real)
    requires Factors(b, v, b', w, e, tau)
    ensures Within(CMul(b, v).im - CMul(b', w).im, 2.0 * (e + 32768.0 * tau))
  {
    var p, q, p', q', d := TermsClose(b.re, v.im, b.im, v.re, b'.re, w.im, b'.im, w.re, e, tau);
    Parts(b, v);
    Parts(b', w);
    SumsClose(CMul(b, v).im, CMul(b', w).im, p, q, p', q', d);
  }

  lemma ProductClose(b: Complex, v: Complex, b': Complex, w: Complex, e: real, tau: real)
    requires Factors(b, v, b', w, e, tau)
    ensures Near(CMul(b, v), CMul(b', w), 2.0 * (e + 32768.0 * tau))
  {
    RealPart(b, v, b', w, e, tau);
    ImaginaryPart(b, v, b', w, e, tau);
  }

  /** No rounding: both sums of products are multiples of `2^bits`. */
  ghost predicate Divides(b: Cplx, w: Cplx, bits: nat) {
    var re, im, s := b.re * w.re - b.im * w.im, b.re * w.im + b.im * w.re, Pow2(bits);
    s * Shr(re, bits) == re && s * Shr(im, bits) == im
  }

  lemma SameFloor(t: int, q: int, v: int, s: int)
    requires s >= 1 && Floors(t, v, s) && s * q == v
    ensures s * t == v
  {
    QuotientUnique(t, q, s, v - s * t, 0);
  }

  lemma PartLoses(t: int, v: int, s: int, x: real, exact: bool)
    requires s >= 1 && Floors(t, v, s) && x * s as real == v as real && (exact ==> s * (v / s) == v)
    ensures Within(t as real - x, Loss(exact))
  {
    if exact {
      SameFloor(t, v / s, v, s);
    }
    FloorLoses(t, v, s, x, exact);
  }

  lemma SumSide(a: Cplx, re: int, im: int, s: int, p: Cplx, q: Cplx, x: Complex, exact: bool)
    requires s >= 1 && BothSides(a, re, im, s, p, q) && x.re * s as real == re as real && x.im * s as real == im as real
    requires exact ==> s * (re / s) == re && s * (im / s) == im
    ensures Near(CSub(Point(p), Point(a)), x, Loss(exact)) && CSub(Point(a), Point(q)) == CSub(Point(p), Point(a))
  {
    PartLoses(p.re - a.re, re, s, x.re, exact);
    PartLoses(p.im - a.im, im, s, x.im, exact);
  }

  /** Both results of a butterfly are as far from `a` as the product, but for the loss. */
  lemma Sides(a: Cplx, b: Cplx, w: Cplx, bits: nat, p: Cplx, q: Cplx, exact: bool)
    requires ButterflyLaw(a, b, w, bits, p, q) && (exact ==> Divides(b, w, bits))
    ensures Near(CSub(Point(p), Point(a)), CMul(Point(b), Scaled(w, bits)), Loss(exact))
    ensures CSub(Point(a), Point(q)) == CSub(Point(p), Point(a))
  {
    ScaledProduct(b, w, Pow2(bits));
    SumSide(a, b.re * w.re - b.im * w.im, b.re * w.im + b.im * w.re, Pow2(bits), p, q,
            CMul(Point(b), Scaled(w, bits)), exact);
  }

  /** How errors grow in a butterfly. */
  function Grown(e: real, tau: real, exact: bool): real {
    3.0 * e + 65536.0 * tau + Loss(exact)
  }

  lemma ButterflyClose(a: Cplx, b: Cplx, w: Cplx, bits: nat, exact: bool, a': Complex, b': Complex, w': Complex,
                       e: real, tau: real)
    requires ButterflyFits(a, b, w, bits) && (exact ==> Divides(b, w, bits))
    requires Near(Point(a), a', e) && Near(Point(b), b', e) && Near(Scaled(w, bits), w', tau)
    requires Within(w'.re, 1.0) && Within(w'.im, 1.0)
    ensures Near(Point(FixedPlus(a, FixedTimes(b, w, bits))), CAdd(a', CMul(b', w')), Grown(e, tau, exact))
    ensures Near(Point(FixedMinus(a, FixedTimes(b, w, bits))), CSub(a', CMul(b', w')), Grown(e, tau, exact))
  {
    var p, q := FixedPlus(a, FixedTimes(b, w, bits)), FixedMinus(a, FixedTimes(b, w, bits));
    ButterflyIsLawful(a, b, w, bits);
    Sides(a, b, w, bits, p, q, exact);
    ProductClose(Point(b), Scaled(w, bits), b', w', e, tau);
    Sums(Point(a), a', Point(p), Point(q), CMul(Point(b), Scaled(w, bits)), CMul(b', w'), e,
         2.0 * (e + 32768.0 * tau), Loss(exact));
  }

  lemma Sums(a: Complex, a': Complex, p: Complex, q: Complex, x: Complex, x': Complex, e: real, e': real, loss: real)
    requires Near(a, a', e) && Near(x, x', e') && Near(CSub(p, a), x, loss) && CSub(a, q) == CSub(p, a)
    ensures Near(p, CAdd(a', x'), e + e' + loss) && Near(q, CSub(a', x'), e + e' + loss)
  {
  }

  // ---------------------------------------------------------------- all butterflies

  /** Each twiddle is the exact one to within `tau`, and the exact ones are not longer than one in either part. */
  ghost predicate TwiddlesClose(tw: seq<Cplx>, exactTw: seq<Complex>, bits: nat, tau: real) {
    |tw| == |exactTw| && forall j :: 0 <= j < |tw| ==>
      Near(Scaled(tw[j], bits), exactTw[j], tau) && Within(exactTw[j].re, 1.0) && Within(exactTw[j].im, 1.0)
  }

  /** Butterfly `j` does not overflow and, if `exact` is asked for, does not round. */
  ghost predicate FitsAt(e: seq<Cplx>, o: seq<Cplx>, tw: seq<Cplx>, stride: nat, bits: nat, exact: bool, j: int) {
    0 <= j < |e| == |o| && 0 <= j * stride < |tw| &&
    ButterflyFits(e[j], o[j], tw[j * stride], bits) && (exact ==> Divides(o[j], tw[j * stride], bits))
  }

  ghost predicate AllFit(e: seq<Cplx>, o: seq<Cplx>, tw: seq<Cplx>, stride: nat, bits: nat, exact: bool) {
    forall j {:trigger FitsAt(e, o, tw, stride, bits, exact, j)} :: 0 <= j < |e| ==>
      FitsAt(e, o, tw, stride, bits, exact, j)
  }

  /** No butterfly of the transform overflows and, if `exact` is asked for, none rounds. */
  ghost predicate TransformFits(x: seq<Cplx>, tw: seq<Cplx>, bits: nat, k: nat, stride: nat, exact: bool)
    requires |x| == Pow2(k) && stride >= 1 && Pow2(k) * stride <= 2 * |tw|
    decreases k
  {
    if k == 0 then true
    else if k == 1 then
      InInt16(x[0].re + x[1].re) && InInt16(x[0].im + x[1].im) &&
      InInt16(x[0].re - x[1].re) && InInt16(x[0].im - x[1].im)
    else
      var h := Pow2(k - 1);
      HalveDouble(h, stride);
      TransformFits(Evens(x, h), tw, bits, k - 1, 2 * stride, exact) &&
      TransformFits(Odds(x, h), tw, bits, k - 1, 2 * stride, exact) &&
      AllFit(Dit(Fixed(bits), Evens(x, h), tw, k - 1, 2 * stride),
             Dit(Fixed(bits), Odds(x, h), tw, k - 1, 2 * stride), tw, stride, bits, exact)
  }

  /** How far each part of a coefficient of `2^k` points may be off. */
  function Error(k: nat, tau: real, exact: bool): real {
    if k <= 1 then 0.0 else Grown(Error(k - 1, tau, exact), tau, exact)
  }

  lemma CombineClose(e: seq<Cplx>, o: seq<Cplx>, tw: seq<Cplx>, e': seq<Complex>, o': seq<Complex>, tw': seq<Complex>,
                     stride: nat, bits: nat, exact: bool, err: real, tau: real, j: nat)
    requires |e| == |o| == |e'| == |o'| && stride >= 1 && |e| * stride <= |tw| && j < |e|
    requires AllFit(e, o, tw, stride, bits, exact) && TwiddlesClose(tw, tw', bits, tau)
    requires Near(Point(e[j]), e'[j], err) && Near(Point(o[j]), o'[j], err)
    ensures var r, r' := Combine(Fixed(bits), e, o, tw, stride), Combine(ComplexRing().ar, e', o', tw', stride);
      Near(Point(r[j]), r'[j], Grown(err, tau, exact)) && Near(Point(r[j + |e|]), r'[j + |e|], Grown(err, tau, exact))
  {
    CombineAt(Fixed(bits), e, o, tw, stride, j);
    CombineAt(ComplexRing().ar, e', o', tw', stride, j);
    assert FitsAt(e, o, tw, stride, bits, exact, j);
    ButterflyClose(e[j], o[j], tw[j * stride], bits, exact, e'[j], o'[j], tw'[j * stride], err, tau);
  }

  lemma HalvesOfPoints(x: seq<Cplx>, h: nat)
    requires |x| == 2 * h
    ensures Points(Evens(x, h)) == Evens(Points(x), h) && Points(Odds(x, h)) == Odds(Points(x), h)
  {
  }

  /** Point `i` of the fixed-point decimation follows that of the exact one. */
  ghost predicate CloseAt(x: seq<Cplx>, tw: seq<Cplx>, tw': seq<Complex>, bits: nat, k: nat, stride: nat, exact: bool,
                          tau: real, i: nat)
    requires |x| == Pow2(k) && stride >= 1 && Pow2(k) * stride <= 2 * |tw| && |tw| == |tw'| && i < |x|
  {
    Near(Point(Dit(Fixed(bits), x, tw, k, stride)[i]), Dit(ComplexRing().ar, Points(x), tw', k, stride)[i],
            Error(k, tau, exact))
  }

  lemma OnePointClose(x: seq<Cplx>, tw: seq<Cplx>, tw': seq<Complex>, bits: nat, stride: nat, exact: bool, tau: real)
    requires |x| == Pow2(0) && stride >= 1 && Pow2(0) * stride <= 2 * |tw| && |tw| == |tw'|
    ensures CloseAt(x, tw, tw', bits, 0, stride, exact, tau, 0)
  {
  }

  lemma TwoPointsClose(x: seq<Cplx>, tw: seq<Cplx>, tw': seq<Complex>, bits: nat, stride: nat, exact: bool, tau: real,
                       i: nat)
    requires |x| == Pow2(1) && stride >= 1 && Pow2(1) * stride <= 2 * |tw| && |tw| == |tw'| && i < |x|
    requires TransformFits(x, tw, bits, 1, stride, exact)
    ensures CloseAt(x, tw, tw', bits, 1, stride, exact, tau, i)
  {
    SumOfTwo(x[0], x[1]);
  }

  lemma FewPointsClose(x: seq<Cplx>, tw: seq<Cplx>, tw': seq<Complex>, bits: nat, k: nat, stride: nat, exact: bool,
                       tau: real, i: nat)
    requires |x| == Pow2(k) && stride >= 1 && Pow2(k) * stride <= 2 * |tw| && |tw| == |tw'| && i < |x| && k <= 1
    requires TransformFits(x, tw, bits, k, stride, exact)
    ensures CloseAt(x, tw, tw', bits, k, stride, exact, tau, i)
  {
    if k == 0 {
      OnePointClose(x, tw, tw', bits, stride, exact, tau);
    } else {
      TwoPointsClose(x, tw, tw', bits, stride, exact, tau, i);
    }
  }

  lemma SumOfTwo(a: Cplx, b: Cplx)
    requires InInt16(a.re + b.re) && InInt16(a.im + b.im) && InInt16(a.re - b.re) && InInt16(a.im - b.im)
    ensures Point(FixedPlus(a, b)) == CAdd(Point(a), Point(b))
    ensures Point(FixedMinus(a, b)) == CSub(Point(a), Point(b))
  {
  }

  lemma FitsHalves(x: seq<Cplx>, tw: seq<Cplx>, bits: nat, k: nat, stride: nat, exact: bool, h: nat)
    requires |x| == Pow2(k) && stride >= 1 && Pow2(k) * stride <= 2 * |tw| && k >= 2 && h == Pow2(k - 1)
    requires TransformFits(x, tw, bits, k, stride, exact)
    ensures |x| == 2 * h && h * (2 * stride) <= 2 * |tw|
    ensures TransformFits(Evens(x, h), tw, bits, k - 1, 2 * stride, exact)
    ensures TransformFits(Odds(x, h), tw, bits, k - 1, 2 * stride, exact)
  {
    HalveDouble(h, stride);
  }

  /** The condition on the butterflies of the last level. */
  lemma FitsUnfold(x: seq<Cplx>, tw: seq<Cplx>, bits: nat, k: nat, stride: nat, exact: bool, h: nat)
    requires |x| == Pow2(k) && stride >= 1 && Pow2(k) * stride <= 2 * |tw| && k >= 2 && h == Pow2(k - 1)
    requires TransformFits(x, tw, bits, k, stride, exact)
    ensures |x| == 2 * h && h * (2 * stride) <= 2 * |tw| && h * stride <= |tw|
    ensures AllFit(Dit(Fixed(bits), Evens(x, h), tw, k - 1, 2 * stride),
                   Dit(Fixed(bits), Odds(x, h), tw, k - 1, 2 * stride), tw, stride, bits, exact)
  {
    HalveDouble(h, stride);
  }

  /** The transforms of the halves, whose butterflies are the transform of `x`. */
  lemma Halves<C>(ar: Arith<C>, x: seq<C>, tw: seq<C>, k: nat, stride: nat, h: nat) returns (e: seq<C>, o: seq<C>)
    requires |x| == Pow2(k) && k >= 2 && h == Pow2(k - 1) && stride >= 1 && Pow2(k) * stride <= 2 * |tw|
    ensures |x| == 2 * h && h * (2 * stride) <= 2 * |tw| && h * stride <= |tw| && |e| == |o| == h
    ensures e == Dit(ar, Evens(x, h), tw, k - 1, 2 * stride) && o == Dit(ar, Odds(x, h), tw, k - 1, 2 * stride)
    ensures Dit(ar, x, tw, k, stride) == Combine(ar, e, o, tw, stride)
  {
    DitUnfold(ar, x, tw, k, stride);
    e, o := Dit(ar, Evens(x, h), tw, k - 1, 2 * stride), Dit(ar, Odds(x, h), tw, k - 1, 2 * stride);
  }

  lemma BothClose(x: seq<Cplx>, e: seq<Cplx>, o: seq<Cplx>, tw: seq<Cplx>, e': seq<Complex>, o': seq<Complex>,
                  tw': seq<Complex>, bits: nat, k: nat, stride: nat, exact: bool, tau: real, j: nat, h: nat)
    requires |x| == Pow2(k) && k >= 2 && |e| == |o| == |e'| == |o'| == h && |x| == 2 * h && j < h
    requires stride >= 1 && Pow2(k) * stride <= 2 * |tw| && h * stride <= |tw| && TwiddlesClose(tw, tw', bits, tau)
    requires AllFit(e, o, tw, stride, bits, exact)
    requires Near(Point(e[j]), e'[j], Error(k - 1, tau, exact)) && Near(Point(o[j]), o'[j], Error(k - 1, tau, exact))
    requires Dit(Fixed(bits), x, tw, k, stride) == Combine(Fixed(bits), e, o, tw, stride)
    requires Dit(ComplexRing().ar, Points(x), tw', k, stride) == Combine(ComplexRing().ar, e', o', tw', stride)
    ensures CloseAt(x, tw, tw', bits, k, stride, exact, tau, j)
    ensures CloseAt(x, tw, tw', bits, k, stride, exact, tau, j + h)
  {
    CombineClose(e, o, tw, e', o', tw', stride, bits, exact, Error(k - 1, tau, exact), tau, j);
  }

  lemma LevelClose(x: seq<Cplx>, tw: seq<Cplx>, tw': seq<Complex>, bits: nat, k: nat, stride: nat, exact: bool,
                   tau: real, i: nat, j: nat, h: nat)
    requires |x| == Pow2(k) == 2 * h && k >= 2 && h == Pow2(k - 1) && j < h && (i == j || i == j + h)
    requires stride >= 1 && Pow2(k) * stride <= 2 * |tw| && h * (2 * stride) <= 2 * |tw|
    requires TwiddlesClose(tw, tw', bits, tau)
    requires TransformFits(x, tw, bits, k, stride, exact)
    requires CloseAt(Evens(x, h), tw, tw', bits, k - 1, 2 * stride, exact, tau, j)
    requires CloseAt(Odds(x, h), tw, tw', bits, k - 1, 2 * stride, exact, tau, j)
    ensures CloseAt(x, tw, tw', bits, k, stride, exact, tau, i)
  {
    var e, o := Halves(Fixed(bits), x, tw, k, stride, h);
    var e', o' := Halves(ComplexRing().ar, Points(x), tw', k, stride, h);
    HalvesOfPoints(x, h);
    FitsUnfold(x, tw, bits, k, stride, exact, h);
    BothClose(x, e, o, tw, e', o', tw', bits, k, stride, exact, tau, j, h);
  }

  /** So does every point. */
  ghost predicate AllClose(x: seq<Cplx>, tw: seq<Cplx>, tw': seq<Complex>, bits: nat, k: nat, stride: nat, exact: bool,
                           tau: real)
    requires |x| == Pow2(k) && stride >= 1 && Pow2(k) * stride <= 2 * |tw| && |tw| == |tw'|
  {
    forall i: nat :: i < |x| ==> CloseAt(x, tw, tw', bits, k, stride, exact, tau, i)
  }

  lemma LevelsClose(x: seq<Cplx>, tw: seq<Cplx>, tw': seq<Complex>, bits: nat, k: nat, stride: nat, exact: bool,
                    tau: real, h: nat)
    requires |x| == Pow2(k) == 2 * h && k >= 2 && h == Pow2(k - 1)
    requires stride >= 1 && Pow2(k) * stride <= 2 * |tw| && h * (2 * stride) <= 2 * |tw|
    requires TwiddlesClose(tw, tw', bits, tau) && TransformFits(x, tw, bits, k, stride, exact)
    requires AllClose(Evens(x, h), tw, tw', bits, k - 1, 2 * stride, exact, tau)
    requires AllClose(Odds(x, h), tw, tw', bits, k - 1, 2 * stride, exact, tau)
    ensures AllClose(x, tw, tw', bits, k, stride, exact, tau)
  {
    forall i: nat | i < |x|
      ensures CloseAt(x, tw, tw', bits, k, stride, exact, tau, i)
    {
      LevelClose(x, tw, tw', bits, k, stride, exact, tau, i, if i < h then i else i - h, h);
    }
  }

  /** The fixed-point decimation follows the exact one. */
  lemma {:induction false} DitClose(x: seq<Cplx>, tw: seq<Cplx>, tw': seq<Complex>, bits: nat, k: nat, stride: nat,
                                    exact: bool, tau: real)
    requires |x| == Pow2(k) && stride >= 1 && Pow2(k) * stride <= 2 * |tw|
    requires TransformFits(x, tw, bits, k, stride, exact) && TwiddlesClose(tw, tw', bits, tau)
    ensures AllClose(x, tw, tw', bits, k, stride, exact, tau)
    decreases k, 1
  {
    if k <= 1 {
      FewClose(x, tw, tw', bits, k, stride, exact, tau);
    } else {
      HalvesClose(x, tw, tw', bits, k, stride, exact, tau, Pow2(k - 1));
      LevelsClose(x, tw, tw', bits, k, stride, exact, tau, Pow2(k - 1));
    }
  }

  lemma {:induction false} HalvesClose(x: seq<Cplx>, tw: seq<Cplx>, tw': seq<Complex>, bits: nat, k: nat, stride: nat,
                                       exact: bool, tau: real, h: nat)
    requires |x| == Pow2(k) && k >= 2 && h == Pow2(k - 1) && stride >= 1 && Pow2(k) * stride <= 2 * |tw|
    requires TransformFits(x, tw, bits, k, stride, exact) && TwiddlesClose(tw, tw', bits, tau)
    ensures |x| == 2 * h && h * (2 * stride) <= 2 * |tw|
    ensures AllClose(Evens(x, h), tw, tw', bits, k - 1, 2 * stride, exact, tau)
    ensures AllClose(Odds(x, h), tw, tw', bits, k - 1, 2 * stride, exact, tau)
    decreases k, 0
  {
    FitsHalves(x, tw, bits, k, stride, exact, h);
    HalfClose(Evens(x, h), tw, tw', bits, k - 1, 2 * stride, exact, tau, h);
    HalfClose(Odds(x, h), tw, tw', bits, k - 1, 2 * stride, exact, tau, h);
  }

  lemma {:induction false} HalfClose(x: seq<Cplx>, tw: seq<Cplx>, tw': seq<Complex>, bits: nat, k: nat, stride: nat,
                                     exact: bool, tau: real, n: nat)
    requires |x| == n == Pow2(k) && stride >= 1 && n * stride <= 2 * |tw|
    requires TransformFits(x, tw, bits, k, stride, exact) && TwiddlesClose(tw, tw', bits, tau)
    ensures AllClose(x, tw, tw', bits, k, stride, exact, tau)
    decreases k, 2
  {
    DitClose(x, tw, tw', bits, k, stride, exact, tau);
  }

  lemma FewClose(x: seq<Cplx>, tw: seq<Cplx>, tw': seq<Complex>, bits: nat, k: nat, stride: nat, exact: bool, tau: real)
    requires |x| == Pow2(k) && stride >= 1 && Pow2(k) * stride <= 2 * |tw| && |tw| == |tw'| && k <= 1
    requires TransformFits(x, tw, bits, k, stride, exact)
    ensures AllClose(x, tw, tw', bits, k, stride, exact, tau)
  {
    forall i: nat | i < |x|
      ensures CloseAt(x, tw, tw', bits, k, stride, exact, tau, i)
    {
      FewPointsClose(x, tw, tw', bits, k, stride, exact, tau, i);
    }
  }

  // ---------------------------------------------------------------- the discrete Fourier transform

  /** Coefficient `i` of the discrete Fourier transform with root `w`. */
  function Coefficient(x: seq<Cplx>, w: Complex, i: nat): Complex {
    Sum(ComplexRing(), Points(x), Power(ComplexRing(), w, i), |x|)
  }

  /** `w` is half a turn after `|tw|` steps, and the twiddles are its powers to within `tau`. */
  ghost predicate TwiddlesOf(tw: seq<Cplx>, w: Complex, bits: nat, tau: real) {
    && Power(ComplexRing(), w, |tw|) == Complex(-1.0, 0.0)
    && TwiddlesClose(tw, seq(|tw|, j requires 0 <= j < |tw| => Power(ComplexRing(), w, j)), bits, tau)
  }

  /**
   * Without overflow, each coefficient of the transform is that of the discrete Fourier transform, but for the error.
   */
  lemma TransformIsDft(x: seq<Cplx>, tw: seq<Cplx>, bits: nat, m: nat, exact: bool, w: Complex, tau: real, i: nat)
    requires |x| == Pow2(m) == 2 * |tw| && m >= 1 && i < |x|
    requires TransformFits(x, tw, bits, m, 1, exact) && TwiddlesOf(tw, w, bits, tau)
    ensures Near(Point(Dit(Fixed(bits), x, tw, m, 1)[i]), Coefficient(x, w, i), Error(m, tau, exact))
  {
    var tw' := seq(|tw|, j requires 0 <= j < |tw| => Power(ComplexRing(), w, j));
    DitClose(x, tw, tw', bits, m, 1, exact, tau);
    assert CloseAt(x, tw, tw', bits, m, 1, exact, tau, i);
    ExactDecimationIsDft(Points(x), tw', m, w, i);
  }

  /** The same, of a result: whatever the root and the precision of the twiddles are. */
  ghost predicate IsDft(r: seq<Cplx>, x: seq<Cplx>, tw: seq<Cplx>, bits: nat, m: nat) {
    |r| == |x| == Pow2(m) == 2 * |tw| &&
    forall exact: bool, w: Complex, tau: real, i: nat
      {:trigger TransformFits(x, tw, bits, m, 1, exact), TwiddlesOf(tw, w, bits, tau), r[i]} ::
      TransformFits(x, tw, bits, m, 1, exact) && TwiddlesOf(tw, w, bits, tau) && i < |x| ==>
        Near(Point(r[i]), Coefficient(x, w, i), Error(m, tau, exact))
  }

  lemma DecimationIsNear(x: seq<Cplx>, tw: seq<Cplx>, bits: nat, m: nat)
    requires |x| == Pow2(m) == 2 * |tw| && m >= 1
    ensures IsDft(Dit(Fixed(bits), x, tw, m, 1), x, tw, bits, m)
  {
    forall exact: bool, w: Complex, tau: real, i: nat |
      TransformFits(x, tw, bits, m, 1, exact) && TwiddlesOf(tw, w, bits, tau) && i < |x|
      ensures Near(Point(Dit(Fixed(bits), x, tw, m, 1)[i]), Coefficient(x, w, i), Error(m, tau, exact))
    {
      TransformIsDft(x, tw, bits, m, exact, w, tau, i);
    }
  }

  /** With exact twiddles and no rounding nothing is lost: the coefficients are those of the transform. */
  lemma ExactTransformIsDft(x: seq<Cplx>, tw: seq<Cplx>, bits: nat, m: nat, w: Complex, i: nat)
    requires |x| == Pow2(m) == 2 * |tw| && m >= 1 && i < |x|
    requires TransformFits(x, tw, bits, m, 1, true) && TwiddlesOf(tw, w, bits, 0.0)
    ensures Point(Dit(Fixed(bits), x, tw, m, 1)[i]) == Coefficient(x, w, i)
  {
    TransformIsDft(x, tw, bits, m, true, w, 0.0, i);
    NoError(m);
  }

  lemma {:induction false} NoError(k: nat)
    ensures Error(k, 0.0, true) == 0.0
  {
    if k > 1 {
      NoError(k - 1);
    }
  }

  // ---------------------------------------------------------------- inputs that fit

  /** Both parts of `z` are within `m`. */
  ghost predicate PartsWithin(z: Cplx, m: int) {
    -m <= z.re <= m && -m <= z.im <= m
  }

  ghost predicate Sized(x: seq<Cplx>, a: int) {
    forall i :: 0 <= i < |x| ==> PartsWithin(x[i], a)
  }

  /** How much `k` levels of butterflies can add. */
  function Growth(k: nat): nat {
    if k == 0 then 1 else if k == 1 then 2 else 3 * Growth(k - 1)
  }

  lemma IntProductBound(x: int, y: int, a: int, s: int)
    requires -a <= x <= a && -s <= y <= s
    ensures -(a * s) <= x * y <= a * s
  {
    if x >= 0 {
      MulMonotone(-s, y, x);
      MulMonotone(y, s, x);
      MulMonotone(x, a, s);
    } else {
      MulMonotone(-s, y, -x);
      MulMonotone(y, s, -x);
      MulMonotone(-x, a, s);
    }
  }

  lemma FloorBound(t: int, v: int, s: int, m: int)
    requires s >= 1 && Floors(t, v, s) && -(m * s) <= v <= m * s
    ensures -m <= t <= m
  {
    if t > m {
      MulMonotone(m + 1, t, s);
    } else if t < -m {
      MulMonotone(t + 1, -m, s);
    }
  }

  lemma DoubleProduct(m: int, s: int)
    requires 0 <= 3 * m <= 0x7fff && 0 <= s <= 0x8000
    ensures (2 * m) * s == m * s + m * s < 0x8000_0000
  {
    MulMonotone(s, 0x8000, m);
    Commute(s, m);
    Distribute(m, m, s);
  }

  /** The sums of two products of a butterfly. */
  lemma SumBound(x: int, y: int, u: int, v: int, m: int, s: int) returns (minus: int, plus: int)
    requires 0 <= 3 * m <= 0x7fff && 0 <= s <= 0x8000
    requires -m <= x <= m && -s <= y <= s && -m <= u <= m && -s <= v <= s
    ensures minus == x * y - u * v && plus == x * y + u * v && InInt32(minus) && InInt32(plus)
    ensures -((2 * m) * s) <= minus <= (2 * m) * s && -((2 * m) * s) <= plus <= (2 * m) * s
  {
    IntProductBound(x, y, m, s);
    IntProductBound(u, v, m, s);
    DoubleProduct(m, s);
    minus, plus := x * y - u * v, x * y + u * v;
  }

  lemma SizedFits(a: Cplx, re: int, im: int, bits: nat, m: int)
    requires 0 <= 3 * m <= 0x7fff && PartsWithin(a, m) && InInt32(re) && InInt32(im)
    requires -((2 * m) * Pow2(bits)) <= re <= (2 * m) * Pow2(bits)
    requires -((2 * m) * Pow2(bits)) <= im <= (2 * m) * Pow2(bits)
    ensures SidesFit(a, re, im, bits)
  {
    ShrFloors(re, bits);
    ShrFloors(im, bits);
    FloorBound(Shr(re, bits), re, Pow2(bits), 2 * m);
    FloorBound(Shr(im, bits), im, Pow2(bits), 2 * m);
  }

  lemma SizedSides(a: Cplx, re: int, im: int, s: int, p: Cplx, q: Cplx, m: int)
    requires s >= 1 && BothSides(a, re, im, s, p, q) && PartsWithin(a, m)
    requires -((2 * m) * s) <= re <= (2 * m) * s && -((2 * m) * s) <= im <= (2 * m) * s
    ensures PartsWithin(p, 3 * m) && PartsWithin(q, 3 * m)
  {
    FloorBound(p.re - a.re, re, s, 2 * m);
    FloorBound(p.im - a.im, im, s, 2 * m);
  }

  lemma ScaleBound(bits: nat)
    requires bits <= 15
    ensures 1 <= Pow2(bits) <= 0x8000
  {
    Pow2Monotone(bits, 15);
    Pow2Add(7, 8);
    assert Pow2(7) == 0x80;
    assert Pow2(8) == 0x100;
  }

  lemma SizedProducts(b: Cplx, w: Cplx, bits: nat, m: int) returns (re: int, im: int)
    requires bits <= 15 && 0 <= 3 * m <= 0x7fff && PartsWithin(b, m) && PartsWithin(w, Pow2(bits))
    ensures re == b.re * w.re - b.im * w.im && im == b.re * w.im + b.im * w.re && InInt32(re) && InInt32(im)
    ensures -((2 * m) * Pow2(bits)) <= re <= (2 * m) * Pow2(bits)
    ensures -((2 * m) * Pow2(bits)) <= im <= (2 * m) * Pow2(bits)
  {
    ScaleBound(bits);
    var other;
    re, other := SumBound(b.re, w.re, b.im, w.im, m, Pow2(bits));
    other, im := SumBound(b.re, w.im, b.im, w.re, m, Pow2(bits));
  }

  lemma SizedFit(a: Cplx, b: Cplx, w: Cplx, bits: nat, m: int)
    requires bits <= 15 && 0 <= 3 * m <= 0x7fff
    requires PartsWithin(a, m) && PartsWithin(b, m) && PartsWithin(w, Pow2(bits))
    ensures ButterflyFits(a, b, w, bits)
  {
    var re, im := SizedProducts(b, w, bits, m);
    SizedFits(a, re, im, bits, m);
  }

  lemma LawfulSides(a: Cplx, b: Cplx, w: Cplx, bits: nat, p: Cplx, q: Cplx, m: int)
    requires bits <= 15 && 0 <= 3 * m <= 0x7fff && ButterflyLaw(a, b, w, bits, p, q)
    requires PartsWithin(a, m) && PartsWithin(b, m) && PartsWithin(w, Pow2(bits))
    ensures PartsWithin(p, 3 * m) && PartsWithin(q, 3 * m)
  {
    var re, im := SizedProducts(b, w, bits, m);
    SizedSides(a, re, im, Pow2(bits), p, q, m);
  }

  /** A butterfly at most trebles the parts. */
  lemma SizedButterfly(a: Cplx, b: Cplx, w: Cplx, bits: nat, m: int)
    requires bits <= 15 && 0 <= 3 * m <= 0x7fff
    requires PartsWithin(a, m) && PartsWithin(b, m) && PartsWithin(w, Pow2(bits))
    ensures ButterflyFits(a, b, w, bits)
    ensures PartsWithin(FixedPlus(a, FixedTimes(b, w, bits)), 3 * m)
    ensures PartsWithin(FixedMinus(a, FixedTimes(b, w, bits)), 3 * m)
  {
    SizedFit(a, b, w, bits, m);
    ButterflyIsLawful(a, b, w, bits);
    LawfulSides(a, b, w, bits, FixedPlus(a, FixedTimes(b, w, bits)), FixedMinus(a, FixedTimes(b, w, bits)), m);
  }

  lemma SizedCombineAt(e: seq<Cplx>, o: seq<Cplx>, tw: seq<Cplx>, stride: nat, bits: nat, m: int, j: nat)
    requires |e| == |o| && stride >= 1 && |e| * stride <= |tw| && bits <= 15 && 0 <= 3 * m <= 0x7fff && j < |e|
    requires Sized(e, m) && Sized(o, m) && Sized(tw, Pow2(bits))
    ensures FitsAt(e, o, tw, stride, bits, false, j)
    ensures PartsWithin(Combine(Fixed(bits), e, o, tw, stride)[j], 3 * m)
    ensures PartsWithin(Combine(Fixed(bits), e, o, tw, stride)[j + |e|], 3 * m)
  {
    CombineAt(Fixed(bits), e, o, tw, stride, j);
    SizedButterfly(e[j], o[j], tw[j * stride], bits, m);
  }

  lemma SizedCombine(e: seq<Cplx>, o: seq<Cplx>, tw: seq<Cplx>, stride: nat, bits: nat, m: int)
    requires |e| == |o| && stride >= 1 && |e| * stride <= |tw| && bits <= 15 && 0 <= 3 * m <= 0x7fff
    requires Sized(e, m) && Sized(o, m) && Sized(tw, Pow2(bits))
    ensures AllFit(e, o, tw, stride, bits, false) && Sized(Combine(Fixed(bits), e, o, tw, stride), 3 * m)
  {
    forall j | 0 <= j < |e|
      ensures FitsAt(e, o, tw, stride, bits, false, j)
    {
      SizedCombineAt(e, o, tw, stride, bits, m, j);
    }
    forall i | 0 <= i < 2 * |e|
      ensures PartsWithin(Combine(Fixed(bits), e, o, tw, stride)[i], 3 * m)
    {
      SizedCombineAt(e, o, tw, stride, bits, m, if i < |e| then i else i - |e|);
    }
  }

  lemma SizedHalves(x: seq<Cplx>, h: nat, a: int)
    requires |x| == 2 * h && Sized(x, a)
    ensures Sized(Evens(x, h), a) && Sized(Odds(x, h), a)
  {
  }

  lemma SizedPair(x: seq<Cplx>, tw: seq<Cplx>, bits: nat, stride: nat, a: int)
    requires |x| == Pow2(1) && stride >= 1 && Pow2(1) * stride <= 2 * |tw|
    requires Sized(x, a) && 0 <= 2 * a <= 0x7fff
    ensures TransformFits(x, tw, bits, 1, stride, false) && Sized(Dit(Fixed(bits), x, tw, 1, stride), 2 * a)
  {
    assert PartsWithin(x[0], a) && PartsWithin(x[1], a);
    SizedSum(x[0], x[1], a);
    assert Dit(Fixed(bits), x, tw, 1, stride) == [FixedPlus(x[0], x[1]), FixedMinus(x[0], x[1])];
  }

  lemma SizedSum(p: Cplx, q: Cplx, a: int)
    requires PartsWithin(p, a) && PartsWithin(q, a) && 0 <= 2 * a <= 0x7fff
    ensures InInt16(p.re + q.re) && InInt16(p.im + q.im) && InInt16(p.re - q.re) && InInt16(p.im - q.im)
    ensures PartsWithin(FixedPlus(p, q), 2 * a) && PartsWithin(FixedMinus(p, q), 2 * a)
  {
    FitsInt16(p.re + q.re);
    FitsInt16(p.im + q.im);
    FitsInt16(p.re - q.re);
    FitsInt16(p.im - q.im);
  }

  /** Numbers this small do not overflow, for twiddles no longer than one in either part. */
  lemma {:induction false} SmallInputsFit(x: seq<Cplx>, tw: seq<Cplx>, bits: nat, k: nat, stride: nat, a: int, top: int)
    requires |x| == Pow2(k) && stride >= 1 && Pow2(k) * stride <= 2 * |tw| && bits <= 15 && k >= 1
    requires Sized(x, a) && Sized(tw, Pow2(bits)) && a >= 0 && top == Growth(k) * a <= 0x7fff
    ensures TransformFits(x, tw, bits, k, stride, false)
    ensures Sized(Dit(Fixed(bits), x, tw, k, stride), top)
    decreases k
  {
    if k == 1 {
      SizedPair(x, tw, bits, stride, a);
    } else {
      var h := Pow2(k - 1);
      var e, o := Halves(Fixed(bits), x, tw, k, stride, h);
      SizedHalves(x, h, a);
      GrowthStep(k, a);
      SmallInputsFit(Evens(x, h), tw, bits, k - 1, 2 * stride, a, Growth(k - 1) * a);
      SmallInputsFit(Odds(x, h), tw, bits, k - 1, 2 * stride, a, Growth(k - 1) * a);
      SizedCombine(e, o, tw, stride, bits, Growth(k - 1) * a);
    }
  }

  lemma GrowthStep(k: nat, a: int)
    requires k >= 2 && a >= 0
    ensures Growth(k) * a == 3 * (Growth(k - 1) * a) && Growth(k - 1) * a >= 0
  {
    MulMonotone(0, Growth(k - 1), a);
  }
}
