/** Recognising powers of two, and of four, by bit tricks. */
module PowersOfTwo {

  import opened IntegerFacts
  import opened MachineInts

  /** Bitwise and of two natural numbers. */
  function And(x: nat, y: nat): nat {
    if x == 0 || y == 0 then 0 else (x % 2) * (y % 2) + 2 * And(x / 2, y / 2)
  }

  /** The bit trick: clearing the lowest set bit leaves nothing. */
  predicate IsPow2(n: int) {
    n > 0 && And(n, n - 1) == 0
  }

  /** The number of bits needed for `n`. */
  function BitLength(n: nat): nat {
    if n == 0 then 0 else 1 + BitLength(n / 2)
  }

  /** Python's `n.bit_length() - 1`, for a positive number. */
  function Exponent(n: nat): nat {
    if n == 0 then 0 else BitLength(n) - 1
  }

  lemma {:induction false} AndSelf(n: nat)
    ensures And(n, n) == n
  {
    if n > 0 {
      AndSelf(n / 2);
      if n % 2 == 0 {
        assert And(n, n) == 0 * 0 + 2 * And(n / 2, n / 2);
      } else {
        assert And(n, n) == 1 * 1 + 2 * And(n / 2, n / 2);
      }
    }
  }

  lemma OddNotPow2(n: nat)
    requires n % 2 == 1 && n > 1
    ensures !IsPow2(n) && forall k: nat :: n != Pow2(k)
  {
    AndSelf(n / 2);
    assert (n - 1) / 2 == n / 2;
    forall k: nat
      ensures n != Pow2(k)
    {
      assert k > 0 ==> Pow2(k) == 2 * Pow2(k - 1);
    }
  }

  lemma HalfPow2(n: nat)
    requires n % 2 == 0 && n > 0
    ensures IsPow2(n) <==> IsPow2(n / 2)
    ensures Exponent(n) == Exponent(n / 2) + 1
    ensures forall k: nat :: n == Pow2(k) ==> k > 0 && n / 2 == Pow2(k - 1)
  {
    assert (n - 1) / 2 == n / 2 - 1;
    assert BitLength(n / 2) >= 1;
  }

  /** One bit less than the bit length is the exponent. */
  lemma {:induction false} ExponentOf(n: nat)
    requires IsPow2(n)
    ensures n == Pow2(Exponent(n))
  {
    if n > 1 {
      if n % 2 == 1 {
        OddNotPow2(n);
      } else {
        HalfPow2(n);
        ExponentOf(n / 2);
        assert Pow2(Exponent(n / 2) + 1) == 2 * Pow2(Exponent(n / 2));
      }
    }
  }

  lemma {:induction false} PowerRecognised(k: nat)
    ensures IsPow2(Pow2(k))
  {
    if k > 0 {
      PowerRecognised(k - 1);
      assert Pow2(k) % 2 == 0 && Pow2(k) / 2 == Pow2(k - 1);
      HalfPow2(Pow2(k));
    }
  }

  /** The bit trick accepts exactly the powers of two. */
  lemma IsPow2Means(n: nat)
    ensures IsPow2(n) <==> exists k: nat :: n == Pow2(k)
    ensures IsPow2(n) ==> n == Pow2(Exponent(n))
  {
    if IsPow2(n) {
      ExponentOf(n);
    }
    if k: nat :| n == Pow2(k) {
      PowerRecognised(k);
    }
  }

  /** The bit `e` of `y`. */
  function Bit(y: nat, e: nat): nat {
    if e == 0 then y % 2 else Bit(y / 2, e - 1)
  }

  /** A single set bit picks that bit out of the other operand. */
  lemma {:induction false} AndPicksBit(e: nat, y: nat)
    ensures And(Pow2(e), y) == Bit(y, e) * Pow2(e)
  {
    if e > 0 {
      AndPicksBit(e - 1, y / 2);
      assert Pow2(e) % 2 == 0 && Pow2(e) / 2 == Pow2(e - 1);
      DoublePick(Bit(y / 2, e - 1), Pow2(e - 1));
      if y == 0 {
        ZeroBits(e);
      }
    }
  }

  lemma DoublePick(b: nat, p: nat)
    ensures 2 * (b * p) == b * (2 * p)
  {
  }

  lemma {:induction false} ZeroBits(e: nat)
    ensures Bit(0, e) == 0
  {
    if e > 0 {
      ZeroBits(e - 1);
    }
  }

  /** The number with the lowest `k` even-numbered bits set. */
  function EvenBits(k: nat): nat {
    if k == 0 then 0 else 1 + 4 * EvenBits(k - 1)
  }

  lemma {:induction false} EvenBitsAlternate(k: nat, e: nat)
    requires e < 2 * k
    ensures Bit(EvenBits(k), e) == 1 - e % 2
  {
    LowestTwo(EvenBits(k - 1));
    if e >= 2 {
      EvenBitsAlternate(k - 1, e - 2);
      BitTwoOn(EvenBits(k), e - 2);
    } else if e == 1 {
      assert Bit(EvenBits(k), 1) == Bit(EvenBits(k) / 2, 0);
    }
  }

  lemma LowestTwo(x: nat)
    ensures var y := 1 + 4 * x; y % 2 == 1 && y / 2 % 2 == 0 && y / 2 / 2 == x
  {
    DivMod(2 * x, 2, 1);
    DivMod(x, 2, 0);
  }

  lemma BitTwoOn(y: nat, e: nat)
    ensures Bit(y, e + 2) == Bit(y / 2 / 2, e)
  {
    assert Bit(y, e + 2) == Bit(y / 2, e + 1);
  }

  /** The mask has the bits at even positions. */
  lemma EvenMask(e: nat)
    requires e < 16
    ensures Bit(0x5555, e) == 1 - e % 2
  {
    assert EvenBits(2) == 5;
    assert EvenBits(4) == 0x55;
    assert EvenBits(6) == 0x555;
    assert EvenBits(8) == 0x5555;
    EvenBitsAlternate(8, e);
  }

  /** is_power_of, for a 16-bit argument */
  predicate IsPowerOf(n: nat, base: nat) {
    if n == 0 then false
    else if base == 2 then And(n, n - 1) == 0
    else if base == 4 then And(n, n - 1) == 0 && And(n, 0x5555) != 0
    else false
  }

  lemma MaskOfPower(e: nat)
    requires Pow2(e) < 0x1_0000
    ensures And(Pow2(e), 0x5555) != 0 <==> e % 2 == 0
  {
    ExponentBelow(e);
    AndPicksBit(e, 0x5555);
    EvenMask(e);
  }

  /** It recognises exactly the powers of two, and those with an even exponent for base four. */
  lemma IsPowerOfMeans(n: nat)
    requires n < 0x1_0000
    ensures IsPowerOf(n, 2) <==> exists k: nat :: n == Pow2(k)
    ensures IsPowerOf(n, 4) <==> exists k: nat :: n == Pow2(2 * k)
  {
    IsPow2Means(n);
    if IsPow2(n) {
      MaskOfPower(Exponent(n));
      EvenExponents(n, Exponent(n));
    } else if k: nat :| n == Pow2(2 * k) {
      PowerRecognised(2 * k);
    }
  }

  lemma ExponentBelow(e: nat)
    requires Pow2(e) < 0x1_0000
    ensures e < 16
  {
    SixteenBits();
    if e >= 16 {
      Pow2Monotone(16, e);
    }
  }

  lemma SixteenBits()
    ensures Pow2(16) == 0x1_0000
  {
    assert Pow2(4) == 16 && Pow2(8) == 0x100 && Pow2(12) == 0x1000;
  }

  lemma EvenExponents(n: nat, e: nat)
    requires n == Pow2(e)
    ensures e % 2 == 0 <==> exists k: nat :: n == Pow2(2 * k)
  {
    if e % 2 == 0 {
      assert n == Pow2(2 * (e / 2));
    }
    if k: nat :| n == Pow2(2 * k) {
      Pow2Injective(e, 2 * k);
    }
  }

  lemma {:induction false} Pow2Injective(a: nat, b: nat)
    requires Pow2(a) == Pow2(b)
    ensures a == b
  {
    if a > 0 && b > 0 {
      Pow2Injective(a - 1, b - 1);
    }
  }
}
