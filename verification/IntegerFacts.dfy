/** The few facts about products and quotients that the index arithmetic of the C sources rests on. */
module IntegerFacts {

  lemma Commute(x: int, y: int)
    ensures x * y == y * x
  {
  }

  lemma Successor(x: int, s: int)
    ensures (x + 1) * s == x * s + s
  {
  }

  lemma MinusTimes(x: int, y: int, s: int)
    ensures (x - y) * s == x * s - y * s
  {
  }

  lemma Distribute(x: int, y: int, s: int)
    ensures (x + y) * s == x * s + y * s
  {
  }

  lemma MulMonotone(a: int, b: int, n: int)
    requires a <= b && n >= 0
    ensures a * n <= b * n
  {
    assert (b - a) * n >= 0;
  }

  lemma Product(a: int, b: int)
    requires a >= 1 && b >= 1
    ensures a * b >= 1
  {
    MulMonotone(1, a, b);
  }

  lemma DivBounds(x: nat, s: nat)
    requires s > 0
    ensures x / s >= 0 && (x / s) * s <= x < (x / s) * s + s
    ensures x % s == x - (x / s) * s
  {
  }

  lemma QuotientUnique(a: int, q: int, n: int, r: int, m: int)
    requires a * n + r == q * n + m && 0 <= r < n && 0 <= m < n
    ensures a == q && r == m
  {
    Successor(a, n);
    Successor(q, n);
    if a < q {
      MulMonotone(a + 1, q, n);
    } else if q < a {
      MulMonotone(q + 1, a, n);
    }
  }

  lemma DivMod(a: int, n: int, r: int)
    requires 0 <= r < n
    ensures (a * n + r) / n == a && (a * n + r) % n == r
  {
    QuotientUnique(a, (a * n + r) / n, n, r, (a * n + r) % n);
  }

  /** Row `i` of `h` rows of width `w` lies inside them. */
  lemma RowFits(i: int, h: int, w: int)
    requires 0 <= i < h && w >= 0
    ensures 0 <= i * w && i * w + w <= h * w
  {
    Successor(i, w);
    MulMonotone(i + 1, h, w);
    MulMonotone(0, i, w);
  }

  /** A counter reset at `n` and one incremented at each reset are the remainder and the quotient. */
  lemma CountStep(c: nat, n: nat)
    requires n > 0
    ensures (c + 1) / n == if c % n == n - 1 then c / n + 1 else c / n
    ensures (c + 1) % n == if c % n == n - 1 then 0 else c % n + 1
  {
    DivBounds(c, n);
    Successor(c / n, n);
    if c % n == n - 1 {
      DivMod(c / n + 1, n, 0);
    } else {
      DivMod(c / n, n, c % n + 1);
    }
  }
}
