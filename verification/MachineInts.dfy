/** Fixed-width integers of the C sources and the powers of two they are scaled by. */
module MachineInts {

  type byte = x: int | 0 <= x < 0x100
  type int8 = x: int | -0x80 <= x < 0x80
  type int16 = x: int | -0x8000 <= x < 0x8000
  type int32 = x: int | -0x8000_0000 <= x < 0x8000_0000

  /** A number that `int16_t` holds. */
  predicate InInt16(x: int) {
    -0x8000 <= x < 0x8000
  }

  /** A number that `int32_t` holds; a sum that leaves this range is undefined in C. */
  predicate InInt32(x: int) {
    -0x8000_0000 <= x < 0x8000_0000
  }

  /** Conversion to `int16_t`: keep the low 16 bits, read them as two's complement. */
  function S16(x: int): int16 {
    (x + 0x8000) % 0x1_0000 - 0x8000
  }

  /** Conversion to `int32_t`. */
  function S32(x: int): int32 {
    (x + 0x8000_0000) % 0x1_0000_0000 - 0x8000_0000
  }

  lemma S16Keeps(x: int)
    ensures (S16(x) - x) % 0x1_0000 == 0
  {
    assert S16(x) - x == 0x1_0000 * -((x + 0x8000) / 0x1_0000);
  }

  lemma S32Keeps(x: int)
    ensures (S32(x) - x) % 0x1_0000_0000 == 0
  {
    assert S32(x) - x == 0x1_0000_0000 * -((x + 0x8000_0000) / 0x1_0000_0000);
  }

  lemma S16Congruent(x: int, y: int)
    requires (x - y) % 0x1_0000 == 0
    ensures S16(x) == S16(y)
  {
    var k := (x - y) / 0x1_0000;
    assert x + 0x8000 == (y + 0x8000) + 0x1_0000 * k;
  }

  lemma S32Congruent(x: int, y: int)
    requires (x - y) % 0x1_0000_0000 == 0
    ensures S32(x) == S32(y)
  {
    var k := (x - y) / 0x1_0000_0000;
    assert x + 0x8000_0000 == (y + 0x8000_0000) + 0x1_0000_0000 * k;
  }

  function Pow(b: nat, k: nat): nat {
    if k == 0 then 1 else b * Pow(b, k - 1)
  }

  function Pow2(k: nat): (r: nat)
    ensures r >= 1
  {
    if k == 0 then 1 else 2 * Pow2(k - 1)
  }

  lemma Pow2Add(a: nat, b: nat)
    ensures Pow2(a + b) == Pow2(a) * Pow2(b)
  {
    if a > 0 {
      Pow2Add(a - 1, b);
      assert Pow2(a + b) == 2 * Pow2(a - 1 + b);
    }
  }

  lemma Pow2Monotone(a: nat, b: nat)
    requires a <= b
    ensures Pow2(a) <= Pow2(b)
  {
    if a < b {
      Pow2Monotone(a, b - 1);
    }
  }

  lemma PowOfTwo(k: nat)
    ensures Pow(2, k) == Pow2(k)
  {
  }
}
