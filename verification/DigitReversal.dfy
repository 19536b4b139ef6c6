/**
 * Digit reversal as done by `bit_reversal` and `get_bit_reversed_seq`:
 * one bit at a time for radix 2, two bits at a time for radix 4.
 */
module DigitReversal {
  import opened IntegerFacts
  import opened MachineInts

  /** The last `k` base-`b` digits of `n`, in the opposite order. */
  function Rev(b: nat, n: nat, k: nat): nat
    requires b >= 2
    decreases k
  {
    if k == 0 then 0 else (n % b) * Pow(b, k - 1) + Rev(b, n / b, k - 1)
  }

  lemma {:induction false} RevBound(b: nat, n: nat, k: nat)
    requires b >= 2
    ensures Rev(b, n, k) < Pow(b, k)
    decreases k
  {
    if k > 0 {
      RevBound(b, n / b, k - 1);
      MulMonotone(n % b, b - 1, Pow(b, k - 1));
      Distribute(b - 1, 1, Pow(b, k - 1));
    }
  }

  /** One digit `r` below the digits `q`. */
  lemma RevDigit(b: nat, q: nat, r: nat, k: nat)
    requires b >= 2 && r < b
    ensures Rev(b, q * b + r, k + 1) == r * Pow(b, k) + Rev(b, q, k)
  {
    DivMod(q, b, r);
  }

  lemma SplitDigit(b: nat, n: nat, p: nat) returns (q: nat, r: nat)
    requires b >= 2 && n < b * p
    ensures r < b && q < p && n == q * b + r
  {
    q, r := n / b, n % b;
    DivBelow(b, n, p);
  }

  /** The number `n` of `k` digits with the digit `d` in front. */
  function Leading(b: nat, d: nat, n: nat, k: nat): (r: nat)
    ensures r == d * Pow(b, k) + n
  {
    MulMonotone(0, d, Pow(b, k));
    d * Pow(b, k) + n
  }

  lemma RevLeadingBase(b: nat, d: nat, n: nat)
    requires b >= 2 && d < b && n < Pow(b, 0)
    ensures Rev(b, Leading(b, d, n, 0), 1) == b * Rev(b, n, 0) + d
  {
    RevDigit(b, 0, d, 0);
  }

  lemma RevLeadingStep(b: nat, d: nat, q: nat, r: nat, k: nat)
    requires b >= 2 && r < b && k >= 1
    requires Rev(b, Leading(b, d, q, k - 1), k) == b * Rev(b, q, k - 1) + d
    ensures Rev(b, Leading(b, d, q * b + r, k), k + 1) == b * Rev(b, q * b + r, k) + d
  {
    var p := Pow(b, k - 1);
    LeadingTerms(b, d, p, q, r);
    RevDigit(b, d * p + q, r, k);
    RevDigit(b, q, r, k - 1);
    TrailingTerms(b, r, p, Rev(b, q, k - 1), d);
  }

  /** Reading from the other end: the leading digit of `n` becomes the last one. */
  lemma {:induction false} RevLeading(b: nat, d: nat, n: nat, k: nat)
    requires b >= 2 && d < b && n < Pow(b, k)
    ensures Rev(b, Leading(b, d, n, k), k + 1) == b * Rev(b, n, k) + d
    decreases k
  {
    if k == 0 {
      RevLeadingBase(b, d, n);
    } else {
      var q, r := SplitDigit(b, n, Pow(b, k - 1));
      RevLeading(b, d, q, k - 1);
      RevLeadingStep(b, d, q, r, k);
    }
  }

  lemma LeadingTerms(b: nat, d: nat, p: nat, q: nat, r: nat)
    ensures d * (b * p) + (q * b + r) == (d * p + q) * b + r
  {
  }

  lemma TrailingTerms(b: nat, r: nat, p: nat, v: nat, d: nat)
    ensures r * (b * p) + (b * v + d) == b * (r * p + v) + d
  {
  }

  lemma DivBelow(b: nat, n: nat, p: nat)
    requires b >= 1 && n < b * p
    ensures n / b < p
  {
    if n / b >= p {
      MulMonotone(p, n / b, b);
    }
  }

  /** Reversing twice restores every `k`-digit number. */
  lemma {:induction false} RevInvolutive(b: nat, n: nat, k: nat)
    requires b >= 2 && n < Pow(b, k)
    ensures Rev(b, Rev(b, n, k), k) == n
    decreases k
  {
    if k > 0 {
      var q, r := SplitDigit(b, n, Pow(b, k - 1));
      RevInvolutive(b, q, k - 1);
      RevInvolutiveStep(b, n, q, r, k - 1);
    }
  }

  lemma RevInvolutiveStep(b: nat, n: nat, q: nat, r: nat, k: nat)
    requires b >= 2 && r < b && Rev(b, Rev(b, q, k), k) == q && n == q * b + r
    ensures Rev(b, Rev(b, n, k + 1), k + 1) == n
  {
    RevDigit(b, q, r, k);
    RevBound(b, q, k);
    RevLeading(b, r, Rev(b, q, k), k);
    Commute(b, q);
  }

  /** `2^k` or `4^k` numbers: the reversed sequence lists each of them once. */
  lemma RevIsPermutation(b: nat, k: nat, i: nat, j: nat)
    requires b >= 2 && i < Pow(b, k) && j < Pow(b, k)
    ensures Rev(b, i, k) < Pow(b, k)
    ensures Rev(b, i, k) == Rev(b, j, k) <==> i == j
    ensures Rev(b, i, k) == j <==> Rev(b, j, k) == i
  {
    RevBound(b, i, k);
    RevInvolutive(b, i, k);
    RevInvolutive(b, j, k);
  }

  /**
   * `log_floor` of fft.h: `N >>= 1` until nothing is left, or `N >>= 2` while `N >= 4`.
   */
  method LogFloor(n: nat, base: nat) returns (log: nat)
    requires n < 0x1_0000
    ensures n > 0 && (base == 2 || base == 4) ==> Pow(base, log) <= n < Pow(base, log + 1)
    ensures n == 0 || (base != 2 && base != 4) ==> log == 0
  {
    log := 0;
    if n == 0 || (base != 2 && base != 4) {
      return;
    }
    var m := n;
    ghost var p := 1;
    while m >= base
      invariant p == Pow(base, log) && p >= 1 && m >= 1
      invariant p * m <= n < p * (m + 1)
      decreases m
    {
      LogStep(base, p, m, n);
      p := base * p;
      m := m / base;
      log := log + 1;
    }
    LogBounds(base, p, m, n);
  }

  lemma LogBounds(base: nat, p: nat, m: nat, n: nat)
    requires base > m >= 1 && p >= 1 && p * m <= n < p * (m + 1)
    ensures p <= n < base * p
  {
    MulMonotone(1, m, p);
    MulMonotone(m + 1, base, p);
  }

  lemma LogStep(base: nat, p: nat, m: nat, n: nat)
    requires base == 2 || base == 4
    requires m >= base && p >= 1 && p * m <= n < p * (m + 1)
    ensures m / base >= 1
    ensures (base * p) * (m / base) <= n < (base * p) * (m / base + 1)
  {
    var q := m / base;
    MulMonotone(base * q, m, p);
    MulMonotone(m + 1, base * (q + 1), p);
    assert (base * q) * p == (base * p) * q;
    assert (base * (q + 1)) * p == (base * p) * (q + 1);
  }

  /**
   * `bit_reversal` of fft.h.  `n & (base - 1)` is `n % base`, the shifts multiply and
   * divide by the base, and `|=` adds to digits the shift has cleared; `result` keeps 16 bits.
   */
  method BitReversal(n0: nat, numBits: nat, base: nat) returns (result: nat)
    requires base == 2 || base == 4
    requires n0 < 0x1_0000 && numBits < 0x100
    ensures result == Rev(base, n0, numBits) % 0x1_0000
  {
    result := 0;
    var n: nat := n0;
    ghost var wide: nat := 0;
    for i := 0 to numBits
      invariant wide * Pow(base, numBits - i) + Rev(base, n, numBits - i) == Rev(base, n0, numBits)
      invariant result == wide % 0x1_0000
    {
      ShiftIn(base, wide, n, numBits - i);
      ShiftLow(base, wide, n % base);
      wide := base * wide + n % base;
      result := (base * result) % 0x1_0000;
      result := result + n % base;
      n := n / base;
    }
  }

  lemma AddMultiple(x: nat, k: nat)
    requires x < 0x1_0000
    ensures (x + 0x1_0000 * k) % 0x1_0000 == x
  {
  }

  lemma ShiftLow(base: nat, wide: nat, d: nat)
    requires (base == 2 || base == 4) && d < base
    ensures (base * (wide % 0x1_0000)) % 0x1_0000 + d == (base * wide + d) % 0x1_0000
  {
    var q, r := wide / 0x1_0000, wide % 0x1_0000;
    if base == 2 {
      ShiftLowAt(2, q, r, (2 * r) / 0x1_0000, r - 0x8000 * ((2 * r) / 0x1_0000), d);
    } else {
      ShiftLowAt(4, q, r, (4 * r) / 0x1_0000, r - 0x4000 * ((4 * r) / 0x1_0000), d);
    }
  }

  lemma ShiftLowAt(base: nat, q: nat, r: nat, c: nat, kept: nat, d: nat)
    requires (base == 2 || base == 4) && d < base
    requires base * r == 0x1_0000 * c + base * kept && base * kept < 0x1_0000
    ensures (base * r) % 0x1_0000 + d == (base * (0x1_0000 * q + r) + d) % 0x1_0000
  {
    AddMultiple(base * kept, c);
    AddMultiple(base * kept + d, base * q + c);
  }

  lemma ShiftIn(base: nat, wide: nat, n: nat, k: nat)
    requires base >= 2 && k > 0
    ensures wide * Pow(base, k) + Rev(base, n, k)
         == (base * wide + n % base) * Pow(base, k - 1) + Rev(base, n / base, k - 1)
  {
    var p := Pow(base, k - 1);
    assert wide * (base * p) == (base * wide) * p;
    Distribute(base * wide, n % base, p);
  }

  /** `get_bit_reversed_seq` of fft.h. */
  method GetBitReversedSeq(s: array<nat>, n: nat, numBits: nat, base: nat)
    requires base == 2 || base == 4
    requires n <= s.Length && n < 0x1_0000 && numBits < 0x100
    modifies s
    ensures forall i :: 0 <= i < n ==> s[i] == Rev(base, i, numBits) % 0x1_0000
    ensures forall i :: n <= i < s.Length ==> s[i] == old(s[i])
  {
    for i := 0 to n
      invariant forall j :: 0 <= j < i ==> s[j] == Rev(base, j, numBits) % 0x1_0000
      invariant forall j :: n <= j < s.Length ==> s[j] == old(s[j])
    {
      var r := BitReversal(i, numBits, base);
      s[i] := r;
    }
  }
}
