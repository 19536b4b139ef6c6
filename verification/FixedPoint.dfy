/** Complex numbers of two `int16_t` with `bits` decimals, and what their products and butterflies mean. */
module FixedPoint {
  import opened IntegerFacts
  import opened MachineInts
  import opened Decimation

  datatype Cplx = Cplx(re: int16, im: int16)

  /** Arithmetic right shift of a 32-bit value. */
  function Shr(v: int, bits: nat): int {
    v / Pow2(bits)
  }

  function FixedPlus(a: Cplx, b: Cplx): Cplx {
    Cplx(S16(a.re + b.re), S16(a.im + b.im))
  }

  function FixedMinus(a: Cplx, b: Cplx): Cplx {
    Cplx(S16(a.re - b.re), S16(a.im - b.im))
  }

  /** 32-bit products and difference, shift by the decimal bits, back to 16 bits. */
  function FixedTimes(b: Cplx, w: Cplx, bits: nat): Cplx {
    Cplx(S16(Shr(S32(b.re * w.re - b.im * w.im), bits)),
         S16(Shr(S32(b.re * w.im + b.im * w.re), bits)))
  }

  function Fixed(bits: nat): Arith<Cplx> {
    Arith(FixedPlus, FixedMinus, (b, w) => FixedTimes(b, w, bits))
  }

  /** The C code adds the untruncated 32-bit product: truncating it first changes nothing. */
  lemma TruncateOnce(a: int16, t: int)
    ensures S16(a + S16(t)) == S16(a + t)
    ensures S16(a - S16(t)) == S16(a - t)
  {
    S16Keeps(t);
    S16Congruent(a + S16(t), a + t);
    var k := (S16(t) - t) / 0x1_0000;
    assert (a - S16(t)) - (a - t) == 0x1_0000 * -k;
    S16Congruent(a - S16(t), a - t);
  }

  /** Adding untruncated numbers and storing 16 bits is adding their truncations. */
  lemma ButterflyValues(a: Cplx, tRe: int, tIm: int)
    ensures FixedPlus(a, Cplx(S16(tRe), S16(tIm))) == Cplx(S16(a.re + tRe), S16(a.im + tIm))
    ensures FixedMinus(a, Cplx(S16(tRe), S16(tIm))) == Cplx(S16(a.re - tRe), S16(a.im - tIm))
  {
    TruncateOnce(a.re, tRe);
    TruncateOnce(a.im, tIm);
  }

  /** `t` is `v / s` rounded down. */
  ghost predicate Floors(t: int, v: int, s: int) {
    s * t <= v < s * t + s
  }

  lemma ShrFloors(v: int, bits: nat)
    ensures Floors(Shr(v, bits), v, Pow2(bits))
  {
  }

  /** `(re, im)` fits 32 bits and, shifted, can be added to and subtracted from `a` in 16. */
  ghost predicate SidesFit(a: Cplx, re: int, im: int, bits: nat) {
    && InInt32(re) && InInt32(im)
    && InInt16(a.re + Shr(re, bits)) && InInt16(a.im + Shr(im, bits))
    && InInt16(a.re - Shr(re, bits)) && InInt16(a.im - Shr(im, bits))
  }

  /** A butterfly does not overflow. */
  ghost predicate ButterflyFits(a: Cplx, b: Cplx, w: Cplx, bits: nat) {
    SidesFit(a, b.re * w.re - b.im * w.im, b.re * w.im + b.im * w.re, bits)
  }

  /** `p` and `q` lie at the same distance on both sides of `a`: `(re, im) / s`, rounded down. */
  ghost predicate BothSides(a: Cplx, re: int, im: int, s: int, p: Cplx, q: Cplx) {
    && Floors(p.re - a.re, re, s) && Floors(p.im - a.im, im, s)
    && q.re == a.re - (p.re - a.re) && q.im == a.im - (p.im - a.im)
  }

  /** The distance is the complex product of `b` and `w`, divided by `2^bits`. */
  ghost predicate ButterflyLaw(a: Cplx, b: Cplx, w: Cplx, bits: nat, p: Cplx, q: Cplx) {
    BothSides(a, b.re * w.re - b.im * w.im, b.re * w.im + b.im * w.re, Pow2(bits), p, q)
  }

  lemma StoredParts(a: int16, t: int)
    requires InInt16(a + t) && InInt16(a - t)
    ensures S16(a + S16(t)) == a + t && S16(a - S16(t)) == a - t
  {
    TruncateOnce(a, t);
  }

  lemma FitsInt16(v: int)
    requires InInt16(v)
    ensures S16(v) == v
  {
  }

  lemma FitsInt32(v: int)
    requires InInt32(v)
    ensures S32(v) == v
  {
  }

  lemma StoredBothSides(a: Cplx, re: int, im: int, s: int, tRe: int, tIm: int)
    requires Floors(tRe, re, s) && Floors(tIm, im, s)
    requires InInt16(a.re + tRe) && InInt16(a.im + tIm) && InInt16(a.re - tRe) && InInt16(a.im - tIm)
    ensures var t := Cplx(S16(tRe), S16(tIm)); BothSides(a, re, im, s, FixedPlus(a, t), FixedMinus(a, t))
  {
    StoredParts(a.re, tRe);
    StoredParts(a.im, tIm);
  }

  /** What the fixed-point butterfly computes when nothing overflows. */
  lemma ButterflyIsLawful(a: Cplx, b: Cplx, w: Cplx, bits: nat)
    requires ButterflyFits(a, b, w, bits)
    ensures ButterflyLaw(a, b, w, bits, FixedPlus(a, FixedTimes(b, w, bits)), FixedMinus(a, FixedTimes(b, w, bits)))
  {
    var re, im := b.re * w.re - b.im * w.im, b.re * w.im + b.im * w.re;
    FitsInt32(re);
    FitsInt32(im);
    ShrFloors(re, bits);
    ShrFloors(im, bits);
    StoredBothSides(a, re, im, Pow2(bits), Shr(re, bits), Shr(im, bits));
  }
}
