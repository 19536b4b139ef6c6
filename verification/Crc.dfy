/** CoreMark's 16-bit CRC: the bit loop, and what makes it a checksum. */
module Crc {

  // ---------------------------------------------------------------- shift registers in general

  /** A register that is fed the head of its data and then the rest of it, `n` times. */
  datatype Register<!D, !S> = Register(step: (D, S) -> S, next: D -> D)

  function Run<D, S>(r: Register<D, S>, data: D, s: S, n: nat): S
    decreases n
  {
    if n == 0 then s else Run(r, r.next(data), r.step(data, s), n - 1)
  }

  function Rest<D, S>(r: Register<D, S>, data: D, n: nat): D
    decreases n
  {
    if n == 0 then data else Rest(r, r.next(data), n - 1)
  }

  lemma {:induction false} RunAdd<D, S>(r: Register<D, S>, data: D, s: S, n: nat, m: nat)
    ensures Run(r, data, s, n + m) == Run(r, Rest(r, data, n), Run(r, data, s, n), m)
    decreases n
  {
    if n > 0 {
      RunAdd(r, r.next(data), r.step(data, s), n - 1, m);
    }
  }

  lemma {:induction false} RestAdd<D, S>(r: Register<D, S>, data: D, n: nat, m: nat)
    ensures Rest(r, data, n + m) == Rest(r, Rest(r, data, n), m)
    decreases n
  {
    if n > 0 {
      RestAdd(r, r.next(data), n - 1, m);
    }
  }

  /** A register whose step commutes with addition of data and state commutes with it over any run. */
  lemma {:induction false} RunLinear<D(!new), S(!new)>(r: Register<D, S>, dplus: (D, D) -> D, splus: (S, S) -> S,
                                                       a: D, b: D, c: S, d: S, n: nat)
    requires forall a, b, c, d :: r.step(dplus(a, b), splus(c, d)) == splus(r.step(a, c), r.step(b, d))
    requires forall a, b :: r.next(dplus(a, b)) == dplus(r.next(a), r.next(b))
    ensures Run(r, dplus(a, b), splus(c, d), n) == splus(Run(r, a, c, n), Run(r, b, d, n))
    decreases n
  {
    if n > 0 {
      RunLinear(r, dplus, splus, r.next(a), r.next(b), r.step(a, c), r.step(b, d), n - 1);
    }
  }

  lemma {:induction false} RunInjective<D(!new), S(!new)>(r: Register<D, S>, data: D, s: S, t: S, n: nat)
    requires forall d, s, t :: r.step(d, s) == r.step(d, t) ==> s == t
    requires Run(r, data, s, n) == Run(r, data, t, n)
    ensures s == t
    decreases n
  {
    if n > 0 {
      RunInjective(r, r.next(data), r.step(data, s), r.step(data, t), n - 1);
    }
  }

  /** If one step of the sum of state and data needs no data, neither does a run. */
  lemma {:induction false} RunFolds<D(!new), S(!new)>(r: Register<D, S>, mix: (S, D) -> S, zero: D, data: D, s: S,
                                                      n: nat)
    requires forall d, s :: r.step(zero, mix(s, d)) == mix(r.step(d, s), r.next(d))
    requires r.next(zero) == zero
    ensures mix(Run(r, data, s, n), Rest(r, data, n)) == Run(r, zero, mix(s, data), n)
    decreases n
  {
    if n > 0 {
      RunFolds(r, mix, zero, r.next(data), r.step(data, s), n - 1);
    }
  }

  // ---------------------------------------------------------------- the CRC register

  /**
   * Shift right; when the low bit of the register differs from the data bit, flip bits 15, 13 and 0, the reflected
   * polynomial 0xa001.
   */
  function Step(data: bv16, crc: bv16): bv16 {
    var x := (crc ^ data) & 1;
    (crc >> 1) ^ (x << 15) ^ (x << 13) ^ x
  }

  function Half(data: bv16): bv16 {
    data >> 1
  }

  function Plus(a: bv16, b: bv16): bv16 {
    a ^ b
  }

  const CRC: Register<bv16, bv16> := Register(Step, Half)

  /** The register after the low `n` bits of `data`, lowest first. */
  function Bits(data: bv16, crc: bv16, n: nat): bv16 {
    Run(CRC, data, crc, n)
  }

  // ---------------------------------------------------------------- one step

  lemma StepLinear(a: bv16, b: bv16, c: bv16, d: bv16)
    ensures Step(Plus(a, b), Plus(c, d)) == Plus(Step(a, c), Step(b, d))
  {
  }

  lemma HalfLinear(a: bv16, b: bv16)
    ensures Half(Plus(a, b)) == Plus(Half(a), Half(b))
  {
  }

  lemma StepInjective(data: bv16, c: bv16, d: bv16)
    requires Step(data, c) == Step(data, d)
    ensures c == d
  {
  }

  /** The sum of register and data moves on by itself. */
  lemma StepFolds(d: bv16, c: bv16)
    ensures Step(0, Plus(c, d)) == Plus(Step(d, c), Half(d)) && Half(0) == 0
  {
  }

  /** The low bit of the byte read off the register is the low bit of the register. */
  lemma DataBit(d: bv16, c: bv16)
    ensures (d & 1) ^ (c & 0xff & 1) == (c ^ d) & 1
    ensures (c ^ d) & 1 == 0 || (c ^ d) & 1 == 1
  {
  }

  lemma TopBit(c: bv16)
    ensures ((c ^ 0x4002) >> 1) | 0x8000 == (c >> 1) ^ 0xa001
    ensures (c >> 1) & 0x7fff == c >> 1
  {
  }

  lemma Polynomial(c: bv16)
    ensures c ^ (1 << 15) ^ (1 << 13) ^ 1 == c ^ 0xa001
    ensures c ^ (0 << 15) ^ (0 << 13) ^ 0 == c
  {
  }

  /** The source's step when the bits differ: the mask is applied before the shift, the top bit set after it. */
  lemma StepOn(c: bv16, d: bv16)
    requires (c ^ d) & 1 == 1
    ensures Step(d, c) == ((c ^ 0x4002) >> 1) | 0x8000
  {
    TopBit(c);
    Polynomial(c >> 1);
  }

  lemma StepOff(c: bv16, d: bv16)
    requires (c ^ d) & 1 == 0
    ensures Step(d, c) == (c >> 1) & 0x7fff
  {
    TopBit(c);
    Polynomial(c >> 1);
  }

  // ---------------------------------------------------------------- runs

  /** The register is a linear function, over GF(2), of the data bits and the initial register together. */
  lemma BitsLinear(a: bv16, b: bv16, c: bv16, d: bv16, n: nat)
    ensures Bits(Plus(a, b), Plus(c, d), n) == Plus(Bits(a, c, n), Bits(b, d, n))
  {
    forall a, b, c, d
      ensures CRC.step(Plus(a, b), Plus(c, d)) == Plus(CRC.step(a, c), CRC.step(b, d))
    {
      StepLinear(a, b, c, d);
    }
    forall a, b
      ensures CRC.next(Plus(a, b)) == Plus(CRC.next(a), CRC.next(b))
    {
      HalfLinear(a, b);
    }
    RunLinear(CRC, Plus, Plus, a, b, c, d, n);
  }

  /** For fixed data no two registers are merged. */
  lemma BitsInjective(data: bv16, c: bv16, d: bv16, n: nat)
    requires Bits(data, c, n) == Bits(data, d, n)
    ensures c == d
  {
    forall a, c, d | CRC.step(a, c) == CRC.step(a, d)
      ensures c == d
    {
      StepInjective(a, c, d);
    }
    RunInjective(CRC, data, c, d, n);
  }

  lemma BitsFold(data: bv16, crc: bv16, n: nat)
    ensures Plus(Bits(data, crc, n), Rest(CRC, data, n)) == Bits(0, Plus(crc, data), n)
  {
    forall d, s
      ensures CRC.step(0, Plus(s, d)) == Plus(CRC.step(d, s), CRC.next(d))
    {
      StepFolds(d, s);
    }
    StepFolds(0, 0);
    RunFolds(CRC, Plus, 0, data, crc, n);
  }

  // ---------------------------------------------------------------- bytes and words

  /** One turn of the loop in crcu8, the register side. */
  method CrcBit(d: bv16, crc: bv16) returns (c: bv16)
    ensures c == Step(d, crc)
  {
    var x16 := (d & 1) ^ (crc & 0xff & 1);
    DataBit(d, crc);
    c := crc;
    var carry := false;
    if x16 == 1 {
      StepOn(crc, d);
      c := c ^ 0x4002;
      carry := true;
    } else {
      StepOff(crc, d);
    }
    c := c >> 1;
    if carry {
      c := c | 0x8000;
    } else {
      c := c & 0x7fff;
    }
  }

  /** crcu8, with the byte held in a wider variable */
  method Crcu8(data: bv16, crc: bv16) returns (out: bv16)
    ensures out == Bits(data, crc, 8)
  {
    var d := data;
    out := crc;
    var i: nat := 0;
    while i < 8
      invariant i <= 8
      invariant Bits(d, out, 8 - i) == Bits(data, crc, 8)
    {
      out := CrcBit(d, out);
      d := d >> 1;
      i := i + 1;
    }
  }

  /** crcu16 and crc16: low byte, then high byte. */
  method Crcu16(newval: bv16, crc: bv16) returns (out: bv16)
    ensures out == Bits(newval, crc, 16)
  {
    WordSplits(newval, crc);
    out := Crcu8(newval & 0xff, crc);
    out := Crcu8((newval >> 8) & 0xff, out);
  }

  lemma ShiftTwice(data: bv16)
    ensures (data >> 1) >> 1 == data >> 2 && (data >> 2) >> 2 == data >> 4 && (data >> 4) >> 4 == data >> 8
    ensures (data >> 8) >> 8 == 0
  {
  }

  lemma Rest4(data: bv16)
    ensures Rest(CRC, data, 4) == data >> 4
  {
    RestAdd(CRC, data, 2, 2);
    ShiftTwice(data);
    Rest2(data);
    Rest2(data >> 2);
  }

  lemma Rest2(data: bv16)
    ensures Rest(CRC, data, 2) == data >> 2
  {
    ShiftTwice(data);
    assert Rest(CRC, data, 2) == Rest(CRC, data >> 1, 1) == Rest(CRC, (data >> 1) >> 1, 0);
  }

  lemma Rest8(data: bv16)
    ensures Rest(CRC, data, 8) == data >> 8
  {
    RestAdd(CRC, data, 4, 4);
    Rest4(data);
    Rest4(data >> 4);
    ShiftTwice(data);
  }

  lemma Rest16(data: bv16)
    ensures Rest(CRC, data, 16) == 0
  {
    RestAdd(CRC, data, 8, 8);
    Rest8(data);
    Rest8(data >> 8);
    ShiftTwice(data);
  }

  // The low `n` bits of the data are all that `n` steps look at.

  function Low(n: nat): bv16 {
    if n == 0 then 0 else Wider(Low(n - 1))
  }

  lemma LowByte()
    ensures Low(8) == 0xff
  {
    assert Low(2) == 3;
    assert Low(4) == 0xf;
    assert Low(6) == 0x3f;
  }

  lemma MaskStep(x: bv16, m: bv16)
    ensures (x & ((m << 1) | 1)) & 1 == x & 1
    ensures (x & ((m << 1) | 1)) >> 1 == (x >> 1) & m
  {
  }

  lemma StepLow(a: bv16, b: bv16, crc: bv16)
    requires a & 1 == b & 1
    ensures Step(a, crc) == Step(b, crc)
  {
    SameLow(a, b, crc);
  }

  lemma SameLow(a: bv16, b: bv16, crc: bv16)
    requires a & 1 == b & 1
    ensures (crc ^ a) & 1 == (crc ^ b) & 1
  {
  }

  predicate Agree(a: bv16, b: bv16, n: nat)
    decreases n
  {
    n == 0 || (a & 1 == b & 1 && Agree(Half(a), Half(b), n - 1))
  }

  lemma {:induction false} LowBitsSuffice(a: bv16, b: bv16, crc: bv16, n: nat)
    requires Agree(a, b, n)
    ensures Bits(a, crc, n) == Bits(b, crc, n)
    decreases n
  {
    if n > 0 {
      StepLow(a, b, crc);
      LowBitsSuffice(Half(a), Half(b), Step(a, crc), n - 1);
    }
  }

  lemma AgreeStep(x: bv16, y: bv16, m: bv16, n: nat)
    requires Agree(Masked(Half(x), m), Half(x), n) && y == Masked(x, Wider(m))
    ensures Agree(y, x, n + 1)
  {
    MaskStep(x, m);
  }

  function Masked(x: bv16, m: bv16): bv16 {
    x & m
  }

  function Wider(m: bv16): bv16 {
    (m << 1) | 1
  }

  lemma {:induction false} MaskAgrees(x: bv16, n: nat)
    ensures Agree(Masked(x, Low(n)), x, n)
    decreases n
  {
    if n > 0 {
      MaskAgrees(Half(x), n - 1);
      AgreeStep(x, Masked(x, Low(n)), Low(n - 1), n - 1);
    }
  }

  /** A word is its low byte followed by its high byte. */
  lemma WordSplits(w: bv16, crc: bv16)
    ensures Bits(w, crc, 16) == Bits((w >> 8) & 0xff, Bits(w & 0xff, crc, 8), 8)
  {
    RunAdd(CRC, w, crc, 8, 8);
    Rest8(w);
    LowByte();
    MaskAgrees(w, 8);
    MaskAgrees(w >> 8, 8);
    LowBitsSuffice(w & 0xff, w, crc, 8);
    LowBitsSuffice((w >> 8) & 0xff, w >> 8, Bits(w, crc, 8), 8);
  }

  /** A word acts only through its sum with the register, so the CRC of one word is injective in the word. */
  lemma WordFoldsIn(w: bv16, crc: bv16)
    ensures Bits(w, crc, 16) == Bits(0, Plus(crc, w), 16)
  {
    BitsFold(w, crc, 16);
    Rest16(w);
    PlusZero(Bits(w, crc, 16));
  }

  lemma PlusZero(a: bv16)
    ensures Plus(a, 0) == a
  {
  }

  lemma PlusCancels(c: bv16, v: bv16, w: bv16)
    requires Plus(c, v) == Plus(c, w)
    ensures v == w
  {
  }

  lemma WordInjective(v: bv16, w: bv16, crc: bv16)
    requires Bits(v, crc, 16) == Bits(w, crc, 16)
    ensures v == w
  {
    WordFoldsIn(v, crc);
    WordFoldsIn(w, crc);
    BitsInjective(0, Plus(crc, v), Plus(crc, w), 16);
    PlusCancels(crc, v, w);
  }

  // ---------------------------------------------------------------- messages

  /** The register after a sequence of words. */
  function Message(words: seq<bv16>, crc: bv16): bv16 {
    if words == [] then crc else Message(words[1..], Bits(words[0], crc, 16))
  }

  /** crcu32, given the two halves of its argument: low half, then high half. */
  method Crcu32(high: bv16, low: bv16, crc: bv16) returns (out: bv16)
    ensures out == Message([low, high], crc)
  {
    out := Crcu16(low, crc);
    out := Crcu16(high, out);
    MessageCons(low, [high], crc);
    MessageCons(high, [], Bits(low, crc, 16));
  }

  lemma MessageCons(w: bv16, words: seq<bv16>, crc: bv16)
    ensures Message([w] + words, crc) == Message(words, Bits(w, crc, 16))
  {
    assert ([w] + words)[1..] == words;
  }

  function Difference(a: seq<bv16>, b: seq<bv16>): seq<bv16>
    requires |a| == |b|
  {
    if a == [] then [] else [Plus(a[0], b[0])] + Difference(a[1..], b[1..])
  }

  lemma {:induction false} MessageInjective(words: seq<bv16>, c: bv16, d: bv16)
    requires Message(words, c) == Message(words, d)
    ensures c == d
  {
    if words != [] {
      MessageInjective(words[1..], Bits(words[0], c, 16), Bits(words[0], d, 16));
      BitsInjective(words[0], c, d, 16);
    }
  }

  /** The CRC of the bitwise difference of two messages is the difference of their CRCs. */
  lemma {:induction false} MessageLinear(a: seq<bv16>, b: seq<bv16>, c: bv16, d: bv16)
    requires |a| == |b|
    ensures Message(Difference(a, b), Plus(c, d)) == Plus(Message(a, c), Message(b, d))
    decreases |a|
  {
    if a != [] {
      MessageLinear(a[1..], b[1..], Bits(a[0], c, 16), Bits(b[0], d, 16));
      BitsLinear(a[0], b[0], c, d, 16);
      MessageCons(Plus(a[0], b[0]), Difference(a[1..], b[1..]), Plus(c, d));
    }
  }

  /** A change confined to one word is always detected. */
  lemma {:induction false} OneWordDetected(a: seq<bv16>, b: seq<bv16>, k: nat, crc: bv16)
    requires |a| == |b| && k < |a| && a[k] != b[k]
    requires forall i :: 0 <= i < |a| && i != k ==> a[i] == b[i]
    ensures Message(a, crc) != Message(b, crc)
    decreases k
  {
    if k > 0 {
      OneWordDetected(a[1..], b[1..], k - 1, Bits(a[0], crc, 16));
    } else {
      assert a[1..] == b[1..];
      if Message(a, crc) == Message(b, crc) {
        MessageInjective(a[1..], Bits(a[0], crc, 16), Bits(b[0], crc, 16));
        WordInjective(a[0], b[0], crc);
      }
    }
  }
}
