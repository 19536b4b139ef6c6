/**
 * Multiply-and-accumulate on square blocks of `int8` matrices stored row by row, `size` elements a row:
 * the triple loop and the recursion on quadrants. Sums wrap as `int32_t`.
 */
module Matmul {

  import opened IntegerFacts
  import opened MachineInts

  const BLOCK_SIZE: nat := 4

  /** A block of a matrix: its upper left corner. */
  datatype Corner = Corner(row: nat, col: nat) {
    function Offset(size: nat): int { row * size + col }

    function Move(down: nat, right: nat): Corner { Corner(row + down, col + right) }

    predicate Fits(n: nat, size: nat) { row + n <= size && col + n <= size }
  }

  function Get(m: seq<int8>, i: int): int {
    if 0 <= i < |m| then m[i] else 0
  }

  /** Product number `k` of a row of `a` starting at `(ra, ca)` and a column of `b` starting at `(rb, cb)`. */
  function ProductAt(a: seq<int8>, b: seq<int8>, size: nat, ra: int, ca: int, rb: int, cb: int, k: int): int {
    Get(a, ra * size + (ca + k)) * Get(b, (rb + k) * size + cb)
  }

  /**
   * The sum of the first `n` products of a row of `a` starting at `(ra, ca)` and a column of `b` starting at `(rb,
   * cb)`.
   */
  function Dot(a: seq<int8>, b: seq<int8>, size: nat, ra: int, ca: int, rb: int, cb: int, n: nat): int {
    if n == 0 then 0
    else Dot(a, b, size, ra, ca, rb, cb, n - 1) + ProductAt(a, b, size, ra, ca, rb, cb, n - 1)
  }

  /** A longer row-times-column is the sum of its two parts. */
  lemma {:induction false} DotSplits(a: seq<int8>, b: seq<int8>, size: nat, ra: int, ca: int, rb: int, cb: int, n: nat,
                                     m: nat)
    ensures Dot(a, b, size, ra, ca, rb, cb, n + m)
         == Dot(a, b, size, ra, ca, rb, cb, n) + Dot(a, b, size, ra, ca + n, rb + n, cb, m)
  {
    if m > 0 {
      DotSplits(a, b, size, ra, ca, rb, cb, n, m - 1);
      assert n + m - 1 == n + (m - 1);
    }
  }

  /** A product of two `int8_t` is at most 2^14 in magnitude, so sums of up to 2^16 of them fit `int32_t`. */
  lemma {:induction false} DotBounded(a: seq<int8>, b: seq<int8>, size: nat, ra: int, ca: int, rb: int, cb: int, n: nat)
    ensures -0x4000 * n <= Dot(a, b, size, ra, ca, rb, cb, n) <= 0x4000 * n
  {
    if n > 0 {
      DotBounded(a, b, size, ra, ca, rb, cb, n - 1);
      ProductBounded(Get(a, ra * size + (ca + (n - 1))), Get(b, (rb + (n - 1)) * size + cb));
    }
  }

  lemma ProductBounded(x: int, y: int)
    requires -0x80 <= x < 0x80 && -0x80 <= y < 0x80
    ensures -0x4000 <= x * y <= 0x4000
  {
    if x >= 0 {
      MulMonotone(-0x80, y, x);
      MulMonotone(y, 0x80, x);
      Commute(x, y);
    } else {
      MulMonotone(-0x80, y, -x);
      MulMonotone(y, 0x80, -x);
      MinusTimes(0, x, y);
      Commute(-x, y);
    }
  }

  /** What multiplying block `at` of `a` by block `bt` of `b` adds to position `q` when accumulated at `ct`. */
  function Contribution(a: seq<int8>, b: seq<int8>, size: nat, at: Corner, bt: Corner, ct: Corner, n: nat, q: int): int
    requires size > 0
  {
    Share(a, b, size, at, bt, ct, n, q / size, q % size)
  }

  function Share(a: seq<int8>, b: seq<int8>, size: nat, at: Corner, bt: Corner, ct: Corner, n: nat, row: int,
                 col: int): int {
    if ct.row <= row < ct.row + n && ct.col <= col < ct.col + n then
      Dot(a, b, size, at.row + (row - ct.row), at.col, bt.row, bt.col + (col - ct.col), n)
    else 0
  }

  /** The eight quadrant products add up to the product of the whole blocks, at every position. */
  lemma QuadrantsAddUp(a: seq<int8>, b: seq<int8>, size: nat, at: Corner, bt: Corner, ct: Corner, h: nat, row: int,
                       col: int)
    ensures Share(a, b, size, at, bt, ct, h + h, row, col) ==
      Share(a, b, size, at, bt, ct, h, row, col)
      + Share(a, b, size, at.Move(0, h), bt.Move(h, 0), ct, h, row, col)
      + Share(a, b, size, at, bt.Move(0, h), ct.Move(0, h), h, row, col)
      + Share(a, b, size, at.Move(0, h), bt.Move(h, h), ct.Move(0, h), h, row, col)
      + Share(a, b, size, at.Move(h, 0), bt, ct.Move(h, 0), h, row, col)
      + Share(a, b, size, at.Move(h, h), bt.Move(h, 0), ct.Move(h, 0), h, row, col)
      + Share(a, b, size, at.Move(h, 0), bt.Move(0, h), ct.Move(h, h), h, row, col)
      + Share(a, b, size, at.Move(h, h), bt.Move(h, h), ct.Move(h, h), h, row, col)
  {
    if ct.row <= row < ct.row + h + h && ct.col <= col < ct.col + h + h {
      DotSplits(a, b, size, at.row + (row - ct.row), at.col, bt.row, bt.col + (col - ct.col), h, h);
    }
  }

  /** Adding wrapped sums wraps the sum. */
  lemma WrapAdd(x: int, y: int)
    ensures S32(S32(x) + y) == S32(x + y)
    ensures S32(x + S32(y)) == S32(x + y)
  {
    S32Keeps(x);
    S32Keeps(y);
    S32Congruent(S32(x) + y, x + y);
    S32Congruent(x + S32(y), x + y);
  }

  /** At most the sum of `w` products. */
  predicate Small(x: int, w: int) {
    -0x4000 * w <= x <= 0x4000 * w
  }

  lemma SmallInInt32(x: int, w: int)
    requires Small(x, w) && w <= 0x1_0000
    ensures InInt32(x) && S32(x) == x
  {
  }

  predicate Inside(t: Corner, n: nat, row: int, col: int) {
    t.row <= row < t.row + n && t.col <= col < t.col + n
  }

  /** The elements of the block are at most sums of `w` products. */
  ghost predicate Light(s: seq<int32>, size: nat, t: Corner, n: nat, w: nat)
    requires size > 0
  {
    forall q :: 0 <= q < |s| && Inside(t, n, q / size, q % size) ==> Small(s[q], w)
  }

  ghost predicate Room(a: seq<int8>, b: seq<int8>, c: array<int32>, size: nat) {
    size > 0 && |a| == size * size && |b| == size * size && c.Length == size * size
  }

  lemma InsideMatrix(row: int, col: int, size: nat)
    requires 0 <= row < size && 0 <= col < size
    ensures 0 <= row * size + col < size * size
    ensures (row * size + col) / size == row && (row * size + col) % size == col
  {
    RowFits(row, size, size);
    DivMod(row, size, col);
  }

  lemma Shifted(t: Corner, size: nat, i: int, j: int)
    ensures t.Offset(size) + i * size + j == (t.row + i) * size + (t.col + j)
  {
    Distribute(t.row, i, size);
  }

  /** Where `m[i * SIZE + k]` lies when `m` points at a block's corner. */
  function Place(size: nat, mo: int, i: int, k: int): int {
    mo + i * size + k
  }

  lemma PlaceInside(mt: Corner, size: nat, mo: int, n: nat, i: nat, k: nat)
    requires mt.Fits(n, size) && mo == mt.Offset(size) && i < n && k < n
    ensures 0 <= Place(size, mo, i, k) < size * size
    ensures Place(size, mo, i, k) == (mt.row + i) * size + (mt.col + k)
    ensures Place(size, mo, i, k) / size == mt.row + i && Place(size, mo, i, k) % size == mt.col + k
  {
    Shifted(mt, size, i, k);
    InsideMatrix(mt.row + i, mt.col + k, size);
  }

  /** One product of the innermost loop. */
  method Term(a: seq<int8>, b: seq<int8>, size: nat, ao: int, bo: int,
              ghost at: Corner, ghost bt: Corner, i: nat, j: nat, k: nat, ghost n: nat) returns (t: int)
    requires |a| == size * size && |b| == size * size
    requires at.Fits(n, size) && bt.Fits(n, size) && ao == at.Offset(size) && bo == bt.Offset(size)
    requires i < n && j < n && k < n
    ensures t == ProductAt(a, b, size, at.row + i, at.col, bt.row, bt.col + j, k)
  {
    PlaceInside(at, size, ao, n, i, k);
    PlaceInside(bt, size, bo, n, k, j);
    var x: int := a[Place(size, ao, i, k)];
    var y: int := b[Place(size, bo, k, j)];
    t := x * y;
  }

  lemma DotStep(a: seq<int8>, b: seq<int8>, size: nat, ra: int, ca: int, rb: int, cb: int, k: nat, t: int)
    requires t == ProductAt(a, b, size, ra, ca, rb, cb, k)
    ensures S32(S32(Dot(a, b, size, ra, ca, rb, cb, k)) + t) == S32(Dot(a, b, size, ra, ca, rb, cb, k + 1))
  {
    DotNext(a, b, size, ra, ca, rb, cb, k, t);
    WrapAdd(Dot(a, b, size, ra, ca, rb, cb, k), t);
  }

  lemma DotNext(a: seq<int8>, b: seq<int8>, size: nat, ra: int, ca: int, rb: int, cb: int, k: nat, t: int)
    requires t == ProductAt(a, b, size, ra, ca, rb, cb, k)
    ensures Dot(a, b, size, ra, ca, rb, cb, k + 1) == Dot(a, b, size, ra, ca, rb, cb, k) + t
  {
    assert k + 1 - 1 == k;
  }

  /** The first `n` sums of the accumulator fit `int32_t`. */
  ghost predicate SumsFit(a: seq<int8>, b: seq<int8>, size: nat, ra: int, ca: int, rb: int, cb: int, n: nat) {
    forall k: nat :: k <= n ==> InInt32(Dot(a, b, size, ra, ca, rb, cb, k))
  }

  lemma NextSumFits(a: seq<int8>, b: seq<int8>, size: nat, ra: int, ca: int, rb: int, cb: int, k: nat, t: int)
    requires t == ProductAt(a, b, size, ra, ca, rb, cb, k)
    ensures SumsFit(a, b, size, ra, ca, rb, cb, k + 1) <==>
      SumsFit(a, b, size, ra, ca, rb, cb, k) && InInt32(S32(Dot(a, b, size, ra, ca, rb, cb, k)) as int + t)
  {
    DotNext(a, b, size, ra, ca, rb, cb, k, t);
    if SumsFit(a, b, size, ra, ca, rb, cb, k) {
      InRangeStays(Dot(a, b, size, ra, ca, rb, cb, k));
    } else {
      var j: nat :| j <= k && !InInt32(Dot(a, b, size, ra, ca, rb, cb, j));
    }
  }

  lemma InRangeStays(x: int)
    requires InInt32(x)
    ensures S32(x) == x
  {
  }

  lemma ShortSumsFit(a: seq<int8>, b: seq<int8>, size: nat, ra: int, ca: int, rb: int, cb: int, n: nat)
    requires n <= 0x1_0000
    ensures SumsFit(a, b, size, ra, ca, rb, cb, n)
  {
    forall k: nat | k <= n
      ensures InInt32(Dot(a, b, size, ra, ca, rb, cb, k))
    {
      DotSmall(a, b, size, ra, ca, rb, cb, k);
    }
  }

  /** The accumulator of the innermost loop; `exact` says that no addition has left the range of `int32_t`. */
  method RowTimesColumn(a: seq<int8>, b: seq<int8>, size: nat, ao: int, bo: int, ghost at: Corner, ghost bt: Corner,
                        i: nat, j: nat, n: nat) returns (acc: int32, ghost exact: bool)
    requires |a| == size * size && |b| == size * size
    requires at.Fits(n, size) && bt.Fits(n, size) && ao == at.Offset(size) && bo == bt.Offset(size)
    requires i < n && j < n
    ensures acc == S32(Dot(a, b, size, at.row + i, at.col, bt.row, bt.col + j, n))
    ensures exact <==> SumsFit(a, b, size, at.row + i, at.col, bt.row, bt.col + j, n)
  {
    acc, exact := 0, true;
    var k: nat := 0;
    while k < n
      invariant k <= n
      invariant acc == S32(Dot(a, b, size, at.row + i, at.col, bt.row, bt.col + j, k))
      invariant exact <==> SumsFit(a, b, size, at.row + i, at.col, bt.row, bt.col + j, k)
    {
      var t := Term(a, b, size, ao, bo, at, bt, i, j, k, n);
      DotStep(a, b, size, at.row + i, at.col, bt.row, bt.col + j, k, t);
      NextSumFits(a, b, size, at.row + i, at.col, bt.row, bt.col + j, k, t);
      exact := exact && InInt32(acc as int + t);
      acc := S32(acc as int + t);
      k := k + 1;
    }
  }

  /** What has been added to position `(row, col)` once rows before `i` and columns before `j` of row `i` are done. */
  function SoFar(share: int, ct: Corner, i: int, j: int, row: int, col: int): int {
    if row < ct.row + i || (row == ct.row + i && col < ct.col + j) then share else 0
  }

  ghost predicate Added(was: seq<int32>, c: array<int32>, a: seq<int8>, b: seq<int8>, size: nat,
                        at: Corner, bt: Corner, ct: Corner, n: nat, i: int, j: int)
    requires size > 0
    reads c
  {
    |was| == c.Length &&
    forall q :: 0 <= q < c.Length ==>
      c[q] == S32(was[q] as int + SoFar(Contribution(a, b, size, at, bt, ct, n, q), ct, i, j, q / size, q % size))
  }

  /** The sums for position `(i, j)` of the block fit, and so does the last one added to what `was` holds there. */
  ghost predicate CellFits(was: seq<int32>, a: seq<int8>, b: seq<int8>, size: nat, at: Corner, bt: Corner, co: int,
                           n: nat, i: int, j: int) {
    && SumsFit(a, b, size, at.row + i, at.col, bt.row, bt.col + j, n)
    && 0 <= Place(size, co, i, j) < |was|
    && InInt32(was[Place(size, co, i, j)] as int + Dot(a, b, size, at.row + i, at.col, bt.row, bt.col + j, n))
  }

  ghost predicate CellsFit(was: seq<int32>, a: seq<int8>, b: seq<int8>, size: nat, at: Corner, bt: Corner, co: int,
                           n: nat, i: int, cols: int) {
    forall j {:trigger CellFits(was, a, b, size, at, bt, co, n, i, j)} :: 0 <= j < cols ==>
      CellFits(was, a, b, size, at, bt, co, n, i, j)
  }

  ghost predicate RowsFit(was: seq<int32>, a: seq<int8>, b: seq<int8>, size: nat, at: Corner, bt: Corner, co: int,
                          n: nat, rows: int) {
    forall i {:trigger CellsFit(was, a, b, size, at, bt, co, n, i, n)} :: 0 <= i < rows ==>
      CellsFit(was, a, b, size, at, bt, co, n, i, n)
  }

  /** With at most 2^16 products an element they all do. */
  lemma LightFits(was: seq<int32>, a: seq<int8>, b: seq<int8>, size: nat, at: Corner, bt: Corner, ct: Corner, co: int,
                  n: nat, w: nat)
    requires size > 0 && |was| == size * size && ct.Fits(n, size) && co == ct.Offset(size)
    requires Light(was, size, ct, n, w) && w + n <= 0x1_0000
    ensures RowsFit(was, a, b, size, at, bt, co, n, n)
  {
    forall i, j | 0 <= i < n && 0 <= j < n
      ensures CellFits(was, a, b, size, at, bt, co, n, i, j)
    {
      PlaceInside(ct, size, co, n, i, j);
      ShortSumsFit(a, b, size, at.row + i, at.col, bt.row, bt.col + j, n);
      DotSmall(a, b, size, at.row + i, at.col, bt.row, bt.col + j, n);
    }
  }

  /** The triple loop accumulates the product of the two blocks and changes nothing else. */
  method BlockSize(a: seq<int8>, b: seq<int8>, c: array<int32>, size: nat, ao: int, bo: int, co: int, n: nat,
                   ghost at: Corner, ghost bt: Corner, ghost ct: Corner) returns (ghost exact: bool)
    requires Room(a, b, c, size)
    requires at.Fits(n, size) && bt.Fits(n, size) && ct.Fits(n, size)
    requires ao == at.Offset(size) && bo == bt.Offset(size) && co == ct.Offset(size)
    modifies c
    ensures forall q :: 0 <= q < c.Length ==>
      c[q] == S32(old(c[q]) as int + Contribution(a, b, size, at, bt, ct, n, q))
    ensures exact <==> RowsFit(old(c[..]), a, b, size, at, bt, co, n, n)
  {
    ghost var was := c[..];
    exact := true;
    var i: nat := 0;
    while i < n
      invariant i <= n
      invariant exact <==> RowsFit(was, a, b, size, at, bt, co, n, i)
      invariant Added(was, c, a, b, size, at, bt, ct, n, i, 0)
    {
      ghost var held := BlockRow(was, a, b, c, size, ao, bo, co, n, at, bt, ct, i);
      exact := exact && held;
      i := i + 1;
    }
  }

  /** One row of the block. */
  method BlockRow(ghost was: seq<int32>, a: seq<int8>, b: seq<int8>, c: array<int32>, size: nat,
                  ao: int, bo: int, co: int, n: nat, ghost at: Corner, ghost bt: Corner, ghost ct: Corner, i: nat)
    returns (ghost exact: bool)
    requires Room(a, b, c, size)
    requires at.Fits(n, size) && bt.Fits(n, size) && ct.Fits(n, size)
    requires ao == at.Offset(size) && bo == bt.Offset(size) && co == ct.Offset(size)
    requires i < n && Added(was, c, a, b, size, at, bt, ct, n, i, 0)
    modifies c
    ensures Added(was, c, a, b, size, at, bt, ct, n, i + 1, 0)
    ensures exact <==> CellsFit(was, a, b, size, at, bt, co, n, i, n)
  {
    exact := true;
    var j: nat := 0;
    while j < n
      invariant j <= n
      invariant Added(was, c, a, b, size, at, bt, ct, n, i, j)
      invariant exact <==> CellsFit(was, a, b, size, at, bt, co, n, i, j)
    {
      ghost var held := Accumulate(was, a, b, c, size, ao, bo, co, n, at, bt, ct, i, j);
      exact := exact && held;
      j := j + 1;
    }
    RowDone(was, c, a, b, size, at, bt, ct, n, i);
  }

  lemma RowDone(was: seq<int32>, c: array<int32>, a: seq<int8>, b: seq<int8>, size: nat,
                at: Corner, bt: Corner, ct: Corner, n: nat, i: nat)
    requires size > 0 && i < n && Added(was, c, a, b, size, at, bt, ct, n, i, n)
    ensures Added(was, c, a, b, size, at, bt, ct, n, i + 1, 0)
  {
  }

  /** Two positions in the same row and column are the same. */
  lemma PositionUnique(p: nat, q: nat, size: nat)
    requires size > 0 && p / size == q / size && p % size == q % size
    ensures p == q
  {
    DivBounds(p, size);
    DivBounds(q, size);
  }

  /** The step for one position: the cell of `(i, j)` gets its share, every other one keeps what it has. */
  lemma StepAt(was: int32, now: int32, next: int32, share: int, ct: Corner, i: nat, j: nat, row: int, col: int)
    requires now == S32(was as int + SoFar(share, ct, i, j, row, col))
    requires if row == ct.row + i && col == ct.col + j then next == S32(now as int + S32(share)) else next == now
    ensures next == S32(was as int + SoFar(share, ct, i, j + 1, row, col))
  {
    if row == ct.row + i && col == ct.col + j {
      WrapAdd(was as int, S32(share) as int);
      WrapAdd(was as int, share);
    }
  }

  lemma StepAtPlace(was: int32, now: int32, next: int32, share: int, ct: Corner, i: nat, j: nat, p: nat, q: nat,
                    size: nat)
    requires size > 0 && q / size == ct.row + i && q % size == ct.col + j
    requires now == S32(was as int + SoFar(share, ct, i, j, p / size, p % size))
    requires next == if p == q then S32(now as int + S32(share)) else now
    ensures next == S32(was as int + SoFar(share, ct, i, j + 1, p / size, p % size))
  {
    if p / size == ct.row + i && p % size == ct.col + j {
      PositionUnique(p, q, size);
    }
    StepAt(was, now, next, share, ct, i, j, p / size, p % size);
  }

  /** Nothing has been added to the position yet, and the sum of its products fits on top of what it held. */
  lemma StoreExact(was: int32, now: int32, acc: int32, dot: int)
    requires now == S32(was as int + 0) && acc == S32(dot)
    ensures now == was && (InInt32(dot) ==> acc == dot)
  {
  }

  lemma DotSmall(a: seq<int8>, b: seq<int8>, size: nat, ra: int, ca: int, rb: int, cb: int, n: nat)
    ensures Small(Dot(a, b, size, ra, ca, rb, cb, n), n)
  {
    DotBounded(a, b, size, ra, ca, rb, cb, n);
  }

  method Accumulate(ghost was: seq<int32>, a: seq<int8>, b: seq<int8>, c: array<int32>, size: nat,
                    ao: int, bo: int, co: int, n: nat,
                    ghost at: Corner, ghost bt: Corner, ghost ct: Corner, i: nat, j: nat)
    returns (ghost exact: bool)
    requires Room(a, b, c, size)
    requires at.Fits(n, size) && bt.Fits(n, size) && ct.Fits(n, size)
    requires ao == at.Offset(size) && bo == bt.Offset(size) && co == ct.Offset(size)
    requires i < n && j < n && Added(was, c, a, b, size, at, bt, ct, n, i, j)
    modifies c
    ensures Added(was, c, a, b, size, at, bt, ct, n, i, j + 1)
    ensures exact <==> CellFits(was, a, b, size, at, bt, co, n, i, j)
  {
    var acc;
    acc, exact := RowTimesColumn(a, b, size, ao, bo, at, bt, i, j, n);
    PlaceInside(ct, size, co, n, i, j);
    var q := Place(size, co, i, j);
    ghost var dot := Dot(a, b, size, at.row + i, at.col, bt.row, bt.col + j, n);
    StoreExact(was[q], c[q], acc, dot);
    exact := exact && InInt32(c[q] as int + acc as int);
    assert Contribution(a, b, size, at, bt, ct, n, q) == dot;
    c[q] := S32(c[q] as int + acc as int);
    forall p | 0 <= p < c.Length
      ensures c[p] == S32(was[p] as int + SoFar(Contribution(a, b, size, at, bt, ct, n, p), ct, i, j + 1, p / size,
                                                p % size))
    {
      StepAtPlace(was[p], old(c[p]), c[p], Contribution(a, b, size, at, bt, ct, n, p), ct, i, j, p, q, size);
    }
  }

  // ---------------------------------------------------------------- the recursion on quadrants

  /** The corners of the quadrants that the recursive call number `m` multiplies and accumulates into. */
  function QuadA(at: Corner, h: nat, m: nat): Corner {
    at.Move(if m >= 4 then h else 0, if m in {1, 3, 5, 7} then h else 0)
  }

  function QuadB(bt: Corner, h: nat, m: nat): Corner {
    bt.Move(if m in {1, 3, 5, 7} then h else 0, if m in {2, 3, 6, 7} then h else 0)
  }

  function QuadC(ct: Corner, h: nat, m: nat): Corner {
    ct.Move(if m >= 4 then h else 0, if m in {2, 3, 6, 7} then h else 0)
  }

  /** What the first `m` recursive calls add at a position. */
  function Quadrants(a: seq<int8>, b: seq<int8>, size: nat, at: Corner, bt: Corner, ct: Corner, h: nat, m: nat,
                     row: int, col: int): int {
    if m == 0 then 0
    else
      Quadrants(a, b, size, at, bt, ct, h, m - 1, row, col)
      + Share(a, b, size, QuadA(at, h, m - 1), QuadB(bt, h, m - 1), QuadC(ct, h, m - 1), h, row, col)
  }

  ghost predicate AfterCalls(was: seq<int32>, c: array<int32>, a: seq<int8>, b: seq<int8>, size: nat,
                             at: Corner, bt: Corner, ct: Corner, h: nat, m: nat)
    requires size > 0
    reads c
  {
    |was| == c.Length &&
    forall q :: 0 <= q < c.Length ==>
      c[q] == S32(was[q] as int + Quadrants(a, b, size, at, bt, ct, h, m, q / size, q % size))
  }

  lemma PlaceIsCorner(size: nat, t: Corner, mo: int, i: nat, k: nat)
    requires mo == t.Offset(size)
    ensures Place(size, mo, i, k) == t.Move(i, k).Offset(size)
  {
    Shifted(t, size, i, k);
  }

  lemma NextQuadrant(was: int32, now: int32, next: int32, sum: int, share: int)
    requires now == S32(was as int + sum) && next == S32(now as int + share)
    ensures next == S32(was as int + (sum + share))
  {
    WrapAdd(was as int + sum, share);
  }

  /** Until its own two calls a quadrant has got nothing. */
  lemma {:induction false} NothingYet(a: seq<int8>, b: seq<int8>, size: nat, at: Corner, bt: Corner, ct: Corner,
                                      h: nat, j: nat, m: nat, row: int, col: int)
    requires m < 8 && j <= m / 2 * 2 && Inside(QuadC(ct, h, m), h, row, col)
    ensures Quadrants(a, b, size, at, bt, ct, h, j, row, col) == 0
  {
    if j > 0 {
      NothingYet(a, b, size, at, bt, ct, h, j - 1, m, row, col);
      OtherQuadrant(ct, h, j - 1, m, row, col);
    }
  }

  lemma OtherQuadrant(ct: Corner, h: nat, j: nat, m: nat, row: int, col: int)
    requires j < 8 && m < 8 && j / 2 != m / 2 && Inside(QuadC(ct, h, m), h, row, col)
    ensures !Inside(QuadC(ct, h, j), h, row, col)
  {
  }

  /** What `m` recursive calls make of the elements `was`. */
  ghost function After(was: seq<int32>, a: seq<int8>, b: seq<int8>, size: nat, at: Corner, bt: Corner, ct: Corner,
                       h: nat, m: nat): (r: seq<int32>)
    requires size > 0
    ensures |r| == |was|
  {
    seq(|was|, q requires 0 <= q < |was| =>
      CellAfter(was[q], a, b, size, at, bt, ct, h, m, q / size, q % size))
  }

  ghost function CellAfter(was: int32, a: seq<int8>, b: seq<int8>, size: nat, at: Corner, bt: Corner, ct: Corner,
                           h: nat, m: nat, row: int, col: int): int32
  {
    S32(was as int + Quadrants(a, b, size, at, bt, ct, h, m, row, col))
  }

  /** No addition of the recursion leaves the range of `int32_t` when it starts from the elements `was`. */
  ghost predicate TiledFits(was: seq<int32>, a: seq<int8>, b: seq<int8>, size: nat, at: Corner, bt: Corner, ct: Corner,
                            k: nat)
    requires size > 0
    decreases k, 0
  {
    if k == 0 then RowsFit(was, a, b, size, at, bt, ct.Offset(size), BLOCK_SIZE, BLOCK_SIZE)
    else
      forall m: nat {:trigger CallFits(was, a, b, size, at, bt, ct, BLOCK_SIZE * Pow2(k - 1), k - 1, m)} :: m < 8 ==>
        CallFits(was, a, b, size, at, bt, ct, BLOCK_SIZE * Pow2(k - 1), k - 1, m)
  }

  /** The same for call number `m`, which starts from what the calls before it leave. */
  ghost predicate CallFits(was: seq<int32>, a: seq<int8>, b: seq<int8>, size: nat, at: Corner, bt: Corner, ct: Corner,
                           h: nat, k: nat, m: nat)
    requires size > 0
    decreases k, 1
  {
    TiledFits(After(was, a, b, size, at, bt, ct, h, m), a, b, size, QuadA(at, h, m), QuadB(bt, h, m), QuadC(ct, h, m),
              k)
  }

  lemma EightCallsFit(was: seq<int32>, a: seq<int8>, b: seq<int8>, size: nat, at: Corner, bt: Corner, ct: Corner,
                      h: nat, k: nat)
    requires size > 0 && h == BLOCK_SIZE * Pow2(k)
    ensures TiledFits(was, a, b, size, at, bt, ct, k + 1) <==>
      CallFits(was, a, b, size, at, bt, ct, h, k, 0) && CallFits(was, a, b, size, at, bt, ct, h, k, 1) &&
      CallFits(was, a, b, size, at, bt, ct, h, k, 2) && CallFits(was, a, b, size, at, bt, ct, h, k, 3) &&
      CallFits(was, a, b, size, at, bt, ct, h, k, 4) && CallFits(was, a, b, size, at, bt, ct, h, k, 5) &&
      CallFits(was, a, b, size, at, bt, ct, h, k, 6) && CallFits(was, a, b, size, at, bt, ct, h, k, 7)
  {
  }

  /** Between the calls no element holds more than the products it has got: the next call starts within its bounds. */
  lemma QuadrantLight(was: seq<int32>, a: seq<int8>, b: seq<int8>, size: nat,
                      at: Corner, bt: Corner, ct: Corner, h: nat, m: nat, w: nat)
    requires size > 0 && m < 8 && Light(was, size, ct, h + h, w) && w + h + h <= 0x1_0000
    ensures Light(After(was, a, b, size, at, bt, ct, h, m), size, QuadC(ct, h, m), h, if m % 2 == 0 then w else w + h)
  {
    var now := After(was, a, b, size, at, bt, ct, h, m);
    forall q | 0 <= q < |now| && Inside(QuadC(ct, h, m), h, q / size, q % size)
      ensures Small(now[q], if m % 2 == 0 then w else w + h)
    {
      QuadrantSum(a, b, size, at, bt, ct, h, m, q / size, q % size);
      SmallInInt32(was[q] as int + Quadrants(a, b, size, at, bt, ct, h, m, q / size, q % size), w + h);
    }
  }

  /** With at most 2^16 products an element no addition of the recursion overflows. */
  lemma {:induction false} LightTiledFits(was: seq<int32>, a: seq<int8>, b: seq<int8>, size: nat,
                                          at: Corner, bt: Corner, ct: Corner, n: nat, k: nat, w: nat)
    requires size > 0 && |was| == size * size && n == BLOCK_SIZE * Pow2(k) && ct.Fits(n, size)
    requires Light(was, size, ct, n, w) && w + n <= 0x1_0000
    ensures TiledFits(was, a, b, size, at, bt, ct, k)
    decreases k
  {
    if k == 0 {
      LightFits(was, a, b, size, at, bt, ct, ct.Offset(size), n, w);
    } else {
      var h := BLOCK_SIZE * Pow2(k - 1);
      forall m: nat {:trigger CallFits(was, a, b, size, at, bt, ct, h, k - 1, m)} | m < 8
        ensures CallFits(was, a, b, size, at, bt, ct, h, k - 1, m)
      {
        QuadrantLight(was, a, b, size, at, bt, ct, h, m, w);
        LightTiledFits(After(was, a, b, size, at, bt, ct, h, m), a, b, size, QuadA(at, h, m), QuadB(bt, h, m),
                       QuadC(ct, h, m), h, k - 1, if m % 2 == 0 then w else w + h);
      }
    }
  }

  lemma QuadrantSum(a: seq<int8>, b: seq<int8>, size: nat, at: Corner, bt: Corner, ct: Corner, h: nat, m: nat, row: int,
                    col: int)
    requires m < 8 && Inside(QuadC(ct, h, m), h, row, col)
    ensures Inside(ct, h + h, row, col)
    ensures Small(Quadrants(a, b, size, at, bt, ct, h, m, row, col), if m % 2 == 0 then 0 else h)
  {
    NothingYet(a, b, size, at, bt, ct, h, m / 2 * 2, m, row, col);
    if m % 2 == 1 {
      LastQuadrant(a, b, size, at, bt, ct, h, m - 1, row, col);
      ShareSmall(a, b, size, QuadA(at, h, m - 1), QuadB(bt, h, m - 1), QuadC(ct, h, m - 1), h, row, col);
    }
  }

  lemma ShareSmall(a: seq<int8>, b: seq<int8>, size: nat, at: Corner, bt: Corner, ct: Corner, n: nat, row: int,
                   col: int)
    ensures Small(Share(a, b, size, at, bt, ct, n, row, col), n)
  {
    DotBounded(a, b, size, at.row + (row - ct.row), at.col, bt.row, bt.col + (col - ct.col), n);
  }

  /** Recursive call number `m`. */
  method Call(ghost was: seq<int32>, a: seq<int8>, b: seq<int8>, c: array<int32>, size: nat,
              ao: int, bo: int, co: int, h: nat,
              ghost at: Corner, ghost bt: Corner, ghost ct: Corner, ghost k: nat, ghost m: nat)
    returns (ghost exact: bool)
    requires Room(a, b, c, size) && h == BLOCK_SIZE * Pow2(k) && m < 8
    requires at.Fits(h + h, size) && bt.Fits(h + h, size) && ct.Fits(h + h, size)
    requires ao == QuadA(at, h, m).Offset(size) && bo == QuadB(bt, h, m).Offset(size) &&
      co == QuadC(ct, h, m).Offset(size)
    requires AfterCalls(was, c, a, b, size, at, bt, ct, h, m)
    modifies c
    ensures AfterCalls(was, c, a, b, size, at, bt, ct, h, m + 1)
    ensures exact <==> CallFits(was, a, b, size, at, bt, ct, h, k, m)
    decreases k, 1
  {
    AfterIs(was, c, a, b, size, at, bt, ct, h, m);
    ghost var now := c[..];
    exact := Tiled(a, b, c, size, ao, bo, co, h, QuadA(at, h, m), QuadB(bt, h, m), QuadC(ct, h, m), k);
    CallDone(was, now, c, a, b, size, at, bt, ct, h, m);
  }

  lemma CallDone(was: seq<int32>, now: seq<int32>, c: array<int32>, a: seq<int8>, b: seq<int8>, size: nat,
                 at: Corner, bt: Corner, ct: Corner, h: nat, m: nat)
    requires size > 0 && now == After(was, a, b, size, at, bt, ct, h, m) && |was| == c.Length
    requires forall q :: 0 <= q < c.Length ==>
      c[q] == S32(now[q] as int + Contribution(a, b, size, QuadA(at, h, m), QuadB(bt, h, m), QuadC(ct, h, m), h, q))
    ensures AfterCalls(was, c, a, b, size, at, bt, ct, h, m + 1)
  {
    forall q | 0 <= q < c.Length
      ensures c[q] == S32(was[q] as int + Quadrants(a, b, size, at, bt, ct, h, m + 1, q / size, q % size))
    {
      CallDoneAt(was[q], now[q], c[q], a, b, size, at, bt, ct, h, m, q);
    }
  }

  lemma CallDoneAt(was: int32, now: int32, next: int32, a: seq<int8>, b: seq<int8>, size: nat,
                   at: Corner, bt: Corner, ct: Corner, h: nat, m: nat, q: nat)
    requires size > 0 && now == S32(was as int + Quadrants(a, b, size, at, bt, ct, h, m, q / size, q % size))
    requires next == S32(now as int + Contribution(a, b, size, QuadA(at, h, m), QuadB(bt, h, m), QuadC(ct, h, m), h, q))
    ensures next == S32(was as int + Quadrants(a, b, size, at, bt, ct, h, m + 1, q / size, q % size))
  {
    LastQuadrant(a, b, size, at, bt, ct, h, m, q / size, q % size);
    NextQuadrant(was, now, next, Quadrants(a, b, size, at, bt, ct, h, m, q / size, q % size),
                 Contribution(a, b, size, QuadA(at, h, m), QuadB(bt, h, m), QuadC(ct, h, m), h, q));
  }

  lemma AfterIs(was: seq<int32>, c: array<int32>, a: seq<int8>, b: seq<int8>, size: nat,
                at: Corner, bt: Corner, ct: Corner, h: nat, m: nat)
    requires size > 0 && AfterCalls(was, c, a, b, size, at, bt, ct, h, m)
    ensures c[..] == After(was, a, b, size, at, bt, ct, h, m)
  {
  }

  /** All eight calls together add the product of the whole blocks. */
  lemma AllCalls(was: seq<int32>, c: array<int32>, a: seq<int8>, b: seq<int8>, size: nat,
                 at: Corner, bt: Corner, ct: Corner, h: nat)
    requires size > 0 && AfterCalls(was, c, a, b, size, at, bt, ct, h, 8)
    ensures forall q :: 0 <= q < c.Length ==>
      c[q] == S32(was[q] as int + Contribution(a, b, size, at, bt, ct, h + h, q))
  {
    forall q | 0 <= q < c.Length
      ensures c[q] == S32(was[q] as int + Contribution(a, b, size, at, bt, ct, h + h, q))
    {
      EightQuadrants(a, b, size, at, bt, ct, h, q / size, q % size);
    }
  }

  /**
   * The recursion on quadrants accumulates the product of the two blocks and changes nothing else,
   * for block sides of 4, 8, 16 and so on.
   */
  method Tiled(a: seq<int8>, b: seq<int8>, c: array<int32>, size: nat, ao: int, bo: int, co: int, n: nat,
               ghost at: Corner, ghost bt: Corner, ghost ct: Corner, ghost k: nat) returns (ghost exact: bool)
    requires Room(a, b, c, size) && n == BLOCK_SIZE * Pow2(k)
    requires at.Fits(n, size) && bt.Fits(n, size) && ct.Fits(n, size)
    requires ao == at.Offset(size) && bo == bt.Offset(size) && co == ct.Offset(size)
    modifies c
    ensures forall q :: 0 <= q < c.Length ==>
      c[q] == S32(old(c[q]) as int + Contribution(a, b, size, at, bt, ct, n, q))
    ensures exact <==> TiledFits(old(c[..]), a, b, size, at, bt, ct, k)
    decreases k, 0
  {
    HalfSide(n, k);
    if n == BLOCK_SIZE {
      exact := BlockSize(a, b, c, size, ao, bo, co, n, at, bt, ct);
    } else {
      var h: nat := n / 2;
      assert h + h == n;
      exact := EightCalls(a, b, c, size, ao, bo, co, h, at, bt, ct, k - 1);
    }
  }

  lemma HalfSide(n: nat, k: nat)
    requires n == BLOCK_SIZE * Pow2(k)
    ensures n == BLOCK_SIZE <==> k == 0
    ensures k > 0 ==> n / 2 == BLOCK_SIZE * Pow2(k - 1) && n / 2 + n / 2 == n
  {
  }

  /** The recursive calls, on the quadrants. */
  method EightCalls(a: seq<int8>, b: seq<int8>, c: array<int32>, size: nat, ao: int, bo: int, co: int, h: nat,
                    ghost at: Corner, ghost bt: Corner, ghost ct: Corner, ghost k: nat) returns (ghost exact: bool)
    requires Room(a, b, c, size) && h == BLOCK_SIZE * Pow2(k)
    requires at.Fits(h + h, size) && bt.Fits(h + h, size) && ct.Fits(h + h, size)
    requires ao == at.Offset(size) && bo == bt.Offset(size) && co == ct.Offset(size)
    modifies c
    ensures forall q :: 0 <= q < c.Length ==>
      c[q] == S32(old(c[q]) as int + Contribution(a, b, size, at, bt, ct, h + h, q))
    ensures exact <==> TiledFits(old(c[..]), a, b, size, at, bt, ct, k + 1)
    decreases k, 3
  {
    ghost var was := c[..];
    ghost var top := TopCalls(was, a, b, c, size, ao, bo, co, h, at, bt, ct, k);
    ghost var bottom := BottomCalls(was, a, b, c, size, ao, bo, co, h, at, bt, ct, k);
    exact := top && bottom;
    EightCallsFit(was, a, b, size, at, bt, ct, h, k);
    AllCalls(was, c, a, b, size, at, bt, ct, h);
  }

  /** The four calls that accumulate into the upper quadrants of C. */
  method TopCalls(ghost was: seq<int32>, a: seq<int8>, b: seq<int8>, c: array<int32>, size: nat,
                  ao: int, bo: int, co: int, h: nat,
                  ghost at: Corner, ghost bt: Corner, ghost ct: Corner, ghost k: nat)
    returns (ghost exact: bool)
    requires Room(a, b, c, size) && h == BLOCK_SIZE * Pow2(k)
    requires at.Fits(h + h, size) && bt.Fits(h + h, size) && ct.Fits(h + h, size)
    requires ao == at.Offset(size) && bo == bt.Offset(size) && co == ct.Offset(size)
    requires AfterCalls(was, c, a, b, size, at, bt, ct, h, 0)
    modifies c
    ensures AfterCalls(was, c, a, b, size, at, bt, ct, h, 4)
    ensures exact <==>
      CallFits(was, a, b, size, at, bt, ct, h, k, 0) && CallFits(was, a, b, size, at, bt, ct, h, k, 1) &&
      CallFits(was, a, b, size, at, bt, ct, h, k, 2) && CallFits(was, a, b, size, at, bt, ct, h, k, 3)
    decreases k, 2
  {
    Corners(size, at, bt, ct, ao, bo, co, h);
    ghost var e0 := Call(was, a, b, c, size, Place(size, ao, 0, 0), Place(size, bo, 0, 0), Place(size, co, 0, 0), h, at,
                         bt, ct, k, 0);
    ghost var e1 := Call(was, a, b, c, size, Place(size, ao, 0, h), Place(size, bo, h, 0), Place(size, co, 0, 0), h, at,
                         bt, ct, k, 1);
    ghost var e2 := Call(was, a, b, c, size, Place(size, ao, 0, 0), Place(size, bo, 0, h), Place(size, co, 0, h), h, at,
                         bt, ct, k, 2);
    ghost var e3 := Call(was, a, b, c, size, Place(size, ao, 0, h), Place(size, bo, h, h), Place(size, co, 0, h), h, at,
                         bt, ct, k, 3);
    exact := e0 && e1 && e2 && e3;
  }

  /** The four calls that accumulate into the lower quadrants of C. */
  method BottomCalls(ghost was: seq<int32>, a: seq<int8>, b: seq<int8>, c: array<int32>, size: nat,
                     ao: int, bo: int, co: int, h: nat,
                     ghost at: Corner, ghost bt: Corner, ghost ct: Corner, ghost k: nat)
    returns (ghost exact: bool)
    requires Room(a, b, c, size) && h == BLOCK_SIZE * Pow2(k)
    requires at.Fits(h + h, size) && bt.Fits(h + h, size) && ct.Fits(h + h, size)
    requires ao == at.Offset(size) && bo == bt.Offset(size) && co == ct.Offset(size)
    requires AfterCalls(was, c, a, b, size, at, bt, ct, h, 4)
    modifies c
    ensures AfterCalls(was, c, a, b, size, at, bt, ct, h, 8)
    ensures exact <==>
      CallFits(was, a, b, size, at, bt, ct, h, k, 4) && CallFits(was, a, b, size, at, bt, ct, h, k, 5) &&
      CallFits(was, a, b, size, at, bt, ct, h, k, 6) && CallFits(was, a, b, size, at, bt, ct, h, k, 7)
    decreases k, 2
  {
    Corners(size, at, bt, ct, ao, bo, co, h);
    ghost var e4 := Call(was, a, b, c, size, Place(size, ao, h, 0), Place(size, bo, 0, 0), Place(size, co, h, 0), h, at,
                         bt, ct, k, 4);
    ghost var e5 := Call(was, a, b, c, size, Place(size, ao, h, h), Place(size, bo, h, 0), Place(size, co, h, 0), h, at,
                         bt, ct, k, 5);
    ghost var e6 := Call(was, a, b, c, size, Place(size, ao, h, 0), Place(size, bo, 0, h), Place(size, co, h, h), h, at,
                         bt, ct, k, 6);
    ghost var e7 := Call(was, a, b, c, size, Place(size, ao, h, h), Place(size, bo, h, h), Place(size, co, h, h), h, at,
                         bt, ct, k, 7);
    exact := e4 && e5 && e6 && e7;
  }

  lemma Corners(size: nat, at: Corner, bt: Corner, ct: Corner, ao: int, bo: int, co: int, h: nat)
    requires ao == at.Offset(size) && bo == bt.Offset(size) && co == ct.Offset(size)
    ensures forall i, k :: (i == 0 || i == h) && (k == 0 || k == h) ==>
      Place(size, ao, i, k) == at.Move(i, k).Offset(size) &&
      Place(size, bo, i, k) == bt.Move(i, k).Offset(size) &&
      Place(size, co, i, k) == ct.Move(i, k).Offset(size)
  {
    forall i, k | (i == 0 || i == h) && (k == 0 || k == h)
      ensures Place(size, ao, i, k) == at.Move(i, k).Offset(size) &&
              Place(size, bo, i, k) == bt.Move(i, k).Offset(size) &&
              Place(size, co, i, k) == ct.Move(i, k).Offset(size)
    {
      PlaceIsCorner(size, at, ao, i, k);
      PlaceIsCorner(size, bt, bo, i, k);
      PlaceIsCorner(size, ct, co, i, k);
    }
  }

  lemma LastQuadrant(a: seq<int8>, b: seq<int8>, size: nat, at: Corner, bt: Corner, ct: Corner, h: nat, m: nat,
                     row: int, col: int)
    ensures Quadrants(a, b, size, at, bt, ct, h, m + 1, row, col) == Quadrants(a, b, size, at, bt, ct, h, m, row, col)
      + Share(a, b, size, QuadA(at, h, m), QuadB(bt, h, m), QuadC(ct, h, m), h, row, col)
  {
  }

  lemma EightQuadrants(a: seq<int8>, b: seq<int8>, size: nat, at: Corner, bt: Corner, ct: Corner, h: nat, row: int,
                       col: int)
    ensures Quadrants(a, b, size, at, bt, ct, h, 8, row, col) == Share(a, b, size, at, bt, ct, h + h, row, col)
  {
    QuadrantsAddUp(a, b, size, at, bt, ct, h, row, col);
    assert at.Move(0, 0) == at && bt.Move(0, 0) == bt && ct.Move(0, 0) == ct;
    LastQuadrant(a, b, size, at, bt, ct, h, 0, row, col);
    LastQuadrant(a, b, size, at, bt, ct, h, 1, row, col);
    LastQuadrant(a, b, size, at, bt, ct, h, 2, row, col);
    LastQuadrant(a, b, size, at, bt, ct, h, 3, row, col);
    LastQuadrant(a, b, size, at, bt, ct, h, 4, row, col);
    LastQuadrant(a, b, size, at, bt, ct, h, 5, row, col);
    LastQuadrant(a, b, size, at, bt, ct, h, 6, row, col);
    LastQuadrant(a, b, size, at, bt, ct, h, 7, row, col);
  }

  // ---------------------------------------------------------------- the result as a matrix product

  /**
   * Accumulated into zeros, a block of side up to 2^16 holds the exact product: nothing wraps, not even a partial sum.
   */
  lemma ZeroStartIsExact(a: seq<int8>, b: seq<int8>, size: nat, at: Corner, bt: Corner, ct: Corner, n: nat, q: nat)
    requires size > 0 && n <= 0x1_0000
    ensures S32(Contribution(a, b, size, at, bt, ct, n, q)) == Contribution(a, b, size, at, bt, ct, n, q)
    ensures forall ra, ca, rb, cb, k: nat :: k <= n ==>
      S32(Dot(a, b, size, ra, ca, rb, cb, k)) == Dot(a, b, size, ra, ca, rb, cb, k)
  {
    forall ra, ca, rb, cb, k: nat | k <= n
      ensures S32(Dot(a, b, size, ra, ca, rb, cb, k)) == Dot(a, b, size, ra, ca, rb, cb, k)
    {
      DotBounded(a, b, size, ra, ca, rb, cb, k);
    }
  }

  lemma WholeMatrix(a: seq<int8>, b: seq<int8>, size: nat, q: nat)
    requires 0 < size <= 0x1_0000 && q < size * size
    ensures Contribution(a, b, size, Corner(0, 0), Corner(0, 0), Corner(0, 0), size, q)
         == Dot(a, b, size, q / size, 0, 0, q % size, size)
    ensures S32(Contribution(a, b, size, Corner(0, 0), Corner(0, 0), Corner(0, 0), size, q))
         == Dot(a, b, size, q / size, 0, 0, q % size, size)
  {
    DivBounds(q, size);
    if q / size >= size {
      MulMonotone(size, q / size, size);
    } else {
      DotBounded(a, b, size, q / size, 0, 0, q % size, size);
    }
  }

  /** The element in row `i` and column `j`. */
  function Element(m: seq<int8>, size: nat, i: nat, j: nat): int
    requires |m| == size * size && i < size && j < size
  {
    InsideMatrix(i, j, size);
    m[i * size + j]
  }

  /** Where the row of `a` is zero but for the element `k`, the product takes that one times its partner in `b`. */
  lemma RowPicks(a: seq<int8>, b: seq<int8>, size: nat, i: nat, j: nat, k: nat)
    requires |a| == |b| == size * size && i < size && j < size && k < size
    requires forall l: nat :: l < size && l != k ==> Element(a, size, i, l) == 0
    ensures Dot(a, b, size, i, 0, 0, j, size) == Element(a, size, i, k) * Element(b, size, k, j)
  {
    forall l: nat | l < size
      ensures ProductAt(a, b, size, i, 0, 0, j, l) ==
        if l == k then Element(a, size, i, k) * Element(b, size, k, j) else 0
    {
      OneProduct(a, b, size, i, j, l);
    }
    OneTerm(a, b, size, i, j, k, Element(a, size, i, k) * Element(b, size, k, j), size);
  }

  /** So it does where the column of `b` is. */
  lemma ColumnPicks(a: seq<int8>, b: seq<int8>, size: nat, i: nat, j: nat, k: nat)
    requires |a| == |b| == size * size && i < size && j < size && k < size
    requires forall l: nat :: l < size && l != k ==> Element(b, size, l, j) == 0
    ensures Dot(a, b, size, i, 0, 0, j, size) == Element(a, size, i, k) * Element(b, size, k, j)
  {
    forall l: nat | l < size
      ensures ProductAt(a, b, size, i, 0, 0, j, l) ==
        if l == k then Element(a, size, i, k) * Element(b, size, k, j) else 0
    {
      OneProduct(a, b, size, i, j, l);
    }
    OneTerm(a, b, size, i, j, k, Element(a, size, i, k) * Element(b, size, k, j), size);
  }

  lemma OneProduct(a: seq<int8>, b: seq<int8>, size: nat, i: nat, j: nat, l: nat)
    requires |a| == |b| == size * size && i < size && j < size && l < size
    ensures ProductAt(a, b, size, i, 0, 0, j, l) == Element(a, size, i, l) * Element(b, size, l, j)
  {
    InsideMatrix(i, l, size);
    InsideMatrix(l, j, size);
  }

  lemma {:induction false} OneTerm(a: seq<int8>, b: seq<int8>, size: nat, i: nat, j: nat, k: nat, t: int, n: nat)
    requires n <= size
    requires forall l: nat :: l < size ==> ProductAt(a, b, size, i, 0, 0, j, l) == if l == k then t else 0
    ensures Dot(a, b, size, i, 0, 0, j, n) == if k < n then t else 0
  {
    if n > 0 {
      OneTerm(a, b, size, i, j, k, t, n - 1);
    }
  }

  /** Single ones: their product is a single one if the inner places agree, and zero otherwise. */
  ghost predicate SingleOne(m: seq<int8>, size: nat, row: nat, col: nat) {
    |m| == size * size && row < size && col < size &&
    forall i: nat, j: nat :: i < size && j < size ==>
      Element(m, size, i, j) == if i == row && j == col then 1 else 0
  }

  lemma SingleOnes(a: seq<int8>, b: seq<int8>, size: nat, r: nat, k: nat, l: nat, s: nat, i: nat, j: nat)
    requires SingleOne(a, size, r, k) && SingleOne(b, size, l, s) && i < size && j < size
    ensures Dot(a, b, size, i, 0, 0, j, size) == if k == l && i == r && j == s then 1 else 0
  {
    RowPicks(a, b, size, i, j, k);
  }

  /** The product is additive in its first matrix and, likewise, in its second. */
  lemma {:induction false} Additive(a: seq<int8>, a': seq<int8>, sum: seq<int8>, b: seq<int8>, size: nat,
                                    i: int, j: int, n: nat)
    requires |a| == |a'| == |sum| && forall q :: 0 <= q < |a| ==> sum[q] as int == a[q] as int + a'[q] as int
    ensures Dot(sum, b, size, i, 0, 0, j, n) == Dot(a, b, size, i, 0, 0, j, n) + Dot(a', b, size, i, 0, 0, j, n)
    ensures Dot(b, sum, size, i, 0, 0, j, n) == Dot(b, a, size, i, 0, 0, j, n) + Dot(b, a', size, i, 0, 0, j, n)
  {
    if n > 0 {
      Additive(a, a', sum, b, size, i, j, n - 1);
      var p, q := i * size + (0 + (n - 1)), (0 + (n - 1)) * size + j;
      Distribute(Get(a, p), Get(a', p), Get(b, q));
      Distribute(Get(a, q), Get(a', q), Get(b, p));
      Commute(Get(b, p), Get(sum, q));
      Commute(Get(b, p), Get(a, q));
      Commute(Get(b, p), Get(a', q));
    }
  }

  /** Ones in the diagonal and zeros elsewhere. */
  ghost predicate Identity(m: seq<int8>, size: nat) {
    |m| == size * size && forall i: nat, j: nat :: i < size && j < size ==>
      Element(m, size, i, j) == if i == j then 1 else 0
  }

  lemma IdentityKeeps(a: seq<int8>, b: seq<int8>, size: nat, q: nat)
    requires size > 0 && |a| == |b| == size * size && q < size * size
    ensures Identity(a, size) ==> Dot(a, b, size, q / size, 0, 0, q % size, size) == b[q]
    ensures Identity(b, size) ==> Dot(a, b, size, q / size, 0, 0, q % size, size) == a[q]
  {
    DivBounds(q, size);
    if q / size >= size {
      MulMonotone(size, q / size, size);
    } else {
      if Identity(a, size) {
        RowPicks(a, b, size, q / size, q % size, q / size);
      }
      if Identity(b, size) {
        ColumnPicks(a, b, size, q / size, q % size, q % size);
      }
    }
  }

  method Clear(c: array<int32>, size: nat)
    requires c.Length == size * size
    modifies c
    ensures forall q :: 0 <= q < c.Length ==> c[q] == 0
  {
    var i: nat := 0;
    while i < size
      invariant i <= size
      invariant forall q :: 0 <= q < i * size && q < c.Length ==> c[q] == 0
    {
      var j: nat := 0;
      RowFits(i, size, size);
      while j < size
        invariant j <= size
        invariant forall q :: 0 <= q < i * size + j ==> c[q] == 0
      {
        c[i * size + j] := 0;
        j := j + 1;
      }
      Successor(i, size);
      i := i + 1;
    }
  }

  ghost function Zeros(n: nat): (r: seq<int32>)
    ensures |r| == n && forall q :: 0 <= q < n ==> r[q] == 0
  {
    seq(n, _ => 0)
  }

  /** No addition of the chosen version overflows, on the whole matrices. */
  ghost predicate ProgramFits(was: seq<int32>, a: seq<int8>, b: seq<int8>, size: nat, highestPerf: bool, k: nat)
    requires size > 0
  {
    var origin := Corner(0, 0);
    if highestPerf then RowsFit(was, a, b, size, origin, origin, 0, size, size)
    else TiledFits(was, a, b, size, origin, origin, origin, k)
  }

  lemma ZerosFit(a: seq<int8>, b: seq<int8>, size: nat, k: nat)
    requires 0 < size <= 0x1_0000
    ensures ProgramFits(Zeros(size * size), a, b, size, true, k)
    ensures size == BLOCK_SIZE * Pow2(k) ==> ProgramFits(Zeros(size * size), a, b, size, false, k)
  {
    var zeros, origin := Zeros(size * size), Corner(0, 0);
    assert Light(zeros, size, origin, size, 0);
    LightFits(zeros, a, b, size, origin, origin, origin, 0, size, 0);
    if size == BLOCK_SIZE * Pow2(k) {
      LightTiledFits(zeros, a, b, size, origin, origin, origin, size, k, 0);
    }
  }

  /**
   * The program: clear C, then run either version on the whole matrices. Every element is the exact product, and no
   * addition on the way, to an accumulator or to an element of C, has left the range of `int32_t`.
   */
  method Multiply(a: seq<int8>, b: seq<int8>, c: array<int32>, size: nat, highestPerf: bool, ghost k: nat)
    returns (ghost exact: bool)
    requires Room(a, b, c, size) && size <= 0x1_0000
    requires !highestPerf ==> size == BLOCK_SIZE * Pow2(k)
    modifies c
    ensures forall q :: 0 <= q < c.Length ==> c[q] == Dot(a, b, size, q / size, 0, 0, q % size, size)
    ensures Identity(a, size) ==> forall q :: 0 <= q < c.Length ==> c[q] == b[q]
    ensures Identity(b, size) ==> forall q :: 0 <= q < c.Length ==> c[q] == a[q]
    ensures exact
    ensures exact <==> ProgramFits(Zeros(c.Length), a, b, size, highestPerf, k)
  {
    Clear(c, size);
    ghost var origin := Corner(0, 0);
    assert origin.Offset(size) == 0;
    assert c[..] == Zeros(c.Length);
    ZerosFit(a, b, size, k);
    if highestPerf {
      exact := BlockSize(a, b, c, size, 0, 0, 0, size, origin, origin, origin);
    } else {
      exact := Tiled(a, b, c, size, 0, 0, 0, size, origin, origin, origin, k);
    }
    ExactProduct(c, a, b, size);
    ProductWithIdentity(c, a, b, size);
  }

  lemma ProductWithIdentity(c: array<int32>, a: seq<int8>, b: seq<int8>, size: nat)
    requires Room(a, b, c, size)
    requires forall q :: 0 <= q < c.Length ==> c[q] == Dot(a, b, size, q / size, 0, 0, q % size, size)
    ensures Identity(a, size) ==> forall q :: 0 <= q < c.Length ==> c[q] == b[q]
    ensures Identity(b, size) ==> forall q :: 0 <= q < c.Length ==> c[q] == a[q]
  {
    forall q | 0 <= q < c.Length
      ensures (Identity(a, size) ==> c[q] == b[q]) && (Identity(b, size) ==> c[q] == a[q])
    {
      IdentityKeeps(a, b, size, q);
    }
  }

  lemma ExactProduct(c: array<int32>, a: seq<int8>, b: seq<int8>, size: nat)
    requires 0 < size <= 0x1_0000 && c.Length == size * size
    requires forall q :: 0 <= q < c.Length ==>
      c[q] == S32(Contribution(a, b, size, Corner(0, 0), Corner(0, 0), Corner(0, 0), size, q))
    ensures forall q :: 0 <= q < c.Length ==> c[q] == Dot(a, b, size, q / size, 0, 0, q % size, size)
  {
    forall q | 0 <= q < c.Length
      ensures c[q] == Dot(a, b, size, q / size, 0, 0, q % size, size)
    {
      WholeMatrix(a, b, size, q);
    }
  }
}
