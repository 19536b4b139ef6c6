/**
 * The 2D copy of the DMA example: extract a block with strides, pad it, and spread it over a strided output.
 * The reference loop keeps counters instead of dividing; the DMA walks two pointers.
 */
module StridedCopy {

  import opened IntegerFacts
  import D = Dma2d

  datatype Job = Job(
    sizeIn1: nat, extr1: nat, extr2: nat,
    in1: nat, in2: nat, out1: nat, out2: nat,
    top: nat, bottom: nat, left: nat, right: nat)
  {
    /** The counters hold what they count: strides fit `uint8_t` and pads `uint16_t`. */
    predicate Valid() {
      && extr1 >= 1 && extr2 >= 1 && in1 >= 1 && in2 >= 1
      && 1 <= out1 <= 0x100 && 1 <= out2 <= 0x100 && left < 0x1_0000 && top < 0x1_0000
    }

    /** OUT_D1_PAD and OUT_D2_PAD */
    function Width(): int { extr1 + left + right }

    function Height(): int { extr2 + top + bottom }

    /** OUT_D1_PAD_STRIDE and OUT_D2_PAD_STRIDE */
    function OutWidth(): int { Width() * out1 - (out1 - 1) }

    function OutHeight(): int { Height() * out2 - (out2 - 1) }

    function Source(i: int, j: int): int {
      i * in2 * sizeIn1 + j * in1
    }

    predicate Extracts(i: int, j: int) {
      top <= i < extr2 + top && left <= j < extr1 + left
    }

    /** Element `(i, j)` of the padded block. */
    function Padded(data: seq<int>, i: int, j: int): int {
      if Extracts(i, j) then D.Fetch(data, Source(i - top, j - left)) else 0
    }

    /** Cell `(i, j)` of the output: zero off the grid of the output strides. */
    function Cell(data: seq<int>, i: int, j: int): int
      requires Valid()
    {
      if i % out2 == 0 && j % out1 == 0 then Padded(data, i / out2, j / out1) else 0
    }

    ghost predicate ReadsInside(n: int) {
      forall i, j {:trigger Source(i, j)} :: 0 <= i < extr2 && 0 <= j < extr1 ==> 0 <= Source(i, j) < n
    }
  }

  function Min(a: int, b: int): int {
    if a <= b then a else b
  }

  lemma Dimensions(job: Job)
    requires job.Valid()
    ensures job.OutWidth() == (job.Width() - 1) * job.out1 + 1 && job.OutWidth() >= 1
    ensures job.OutHeight() == (job.Height() - 1) * job.out2 + 1 && job.OutHeight() >= 1
  {
    MinusTimes(job.Width(), 1, job.out1);
    MulMonotone(0, job.Width() - 1, job.out1);
    MinusTimes(job.Height(), 1, job.out2);
    MulMonotone(0, job.Height() - 1, job.out2);
  }

  // ---------------------------------------------------------------- the reference loop

  /** What a pad counter has reached: the pad positions met so far. */
  function PadCount(pos: int, stride: int, pad: int): int {
    Min(if stride == 0 then pos else pos + 1, pad)
  }

  ghost predicate CellsDone(job: Job, data: seq<int>, out: array<int>, upto: int)
    requires job.Valid()
    reads out
  {
    forall q :: 0 <= q < upto && q < out.Length ==> out[q] == Closed(job, data, q)
  }

  /** The output in closed form. */
  function Closed(job: Job, data: seq<int>, q: nat): int
    requires job.Valid()
  {
    Dimensions(job);
    job.Cell(data, q / job.OutWidth(), q % job.OutWidth())
  }

  lemma ClosedAt(job: Job, data: seq<int>, i: nat, j: nat)
    requires job.Valid() && i < job.OutHeight() && j < job.OutWidth()
    ensures 0 <= i * job.OutWidth() + j < job.OutHeight() * job.OutWidth()
    ensures Closed(job, data, i * job.OutWidth() + j) == job.Cell(data, i, j)
  {
    Dimensions(job);
    RowFits(i, job.OutHeight(), job.OutWidth());
    DivMod(i, job.OutWidth(), j);
  }

  /** The closed form in numbers: which element of the source comes to row `i` and column `j` of the output. */
  lemma CellInNumbers(job: Job, data: seq<int>, i: nat, j: nat)
    requires job.Valid() && job.ReadsInside(|data|) && i < job.OutHeight() && j < job.OutWidth()
    ensures var width := (job.extr1 + job.left + job.right) * job.out1 - (job.out1 - 1);
      var r, c := i / job.out2 - job.top, j / job.out1 - job.left;
      if i % job.out2 == 0 && j % job.out1 == 0 && 0 <= r < job.extr2 && 0 <= c < job.extr1 then
        0 <= r * job.in2 * job.sizeIn1 + c * job.in1 < |data| && 0 <= i * width + j &&
        Closed(job, data, i * width + j) == data[r * job.in2 * job.sizeIn1 + c * job.in1]
      else
        0 <= i * width + j && Closed(job, data, i * width + j) == 0
  {
    ClosedAt(job, data, i, j);
    var r, c := i / job.out2 - job.top, j / job.out1 - job.left;
    if 0 <= r < job.extr2 && 0 <= c < job.extr1 {
      assert 0 <= job.Source(r, c) < |data|;
    }
  }

  /** The value one turn of the inner loop writes. The pad counters matter only past the pads, where they are full. */
  method CellValue(job: Job, data: seq<int>, i: nat, j: nat,
                   iIn: nat, jIn: nat, stride1: nat, stride2: nat, topCount: int, leftCount: int) returns (v: int)
    requires job.Valid() && job.ReadsInside(|data|)
    requires iIn == i / job.out2 && stride2 == i % job.out2 && jIn == j / job.out1 && stride1 == j % job.out1
    requires topCount == PadCount(iIn, stride2, job.top)
    requires iIn >= job.top && stride2 == 0 ==> leftCount == PadCount(jIn, stride1, job.left)
    ensures v == job.Cell(data, i, j)
  {
    if iIn < job.top || iIn >= job.extr2 + job.top || jIn < job.left || jIn >= job.extr1 + job.left ||
       stride1 != 0 || stride2 != 0
    {
      v := 0;
    } else {
      var src := (iIn - topCount) * job.in2 * job.sizeIn1 + (jIn - leftCount) * job.in1;
      assert src == job.Source(iIn - job.top, jIn - job.left);
      v := data[src];
    }
  }

  lemma CounterStep(x: nat, n: nat, pad: nat)
    requires n >= 1
    ensures (x + 1) % n == if x % n == n - 1 then 0 else x % n + 1
    ensures (x + 1) / n == if x % n == n - 1 then x / n + 1 else x / n
    ensures PadCount((x + 1) / n, (x + 1) % n, pad)
         == PadCount(x / n, x % n, pad) + if x / n < pad && x % n == 0 then 1 else 0
    ensures x / n >= 0
  {
    CountStep(x, n);
    DivBounds(x, n);
  }

  lemma CounterStart(n: nat, pad: nat)
    requires n >= 1
    ensures 0 / n == 0 && 0 % n == 0 && PadCount(0, 0, pad) == 0
  {
    DivMod(0, n, 0);
  }

  /** One row of the reference loop. */
  method ReferenceRow(job: Job, data: seq<int>, out: array<int>, i: nat, iIn: nat, stride2: nat, topCount: int)
    requires job.Valid() && job.ReadsInside(|data|) && out.Length == job.OutHeight() * job.OutWidth()
    requires i < job.OutHeight() && iIn == i / job.out2 && stride2 == i % job.out2
    requires topCount == PadCount(iIn, stride2, job.top)
    requires CellsDone(job, data, out, i * job.OutWidth())
    modifies out
    ensures CellsDone(job, data, out, (i + 1) * job.OutWidth())
  {
    var stride1: nat := 0;
    var jIn: nat := 0;
    var leftCount: nat := 0;
    var j: nat := 0;
    Dimensions(job);
    CounterStart(job.out1, job.left);
    while j < job.OutWidth()
      invariant j <= job.OutWidth() && jIn == j / job.out1 && stride1 == j % job.out1
      invariant iIn >= job.top && stride2 == 0 ==> leftCount == PadCount(jIn, stride1, job.left)
      invariant CellsDone(job, data, out, i * job.OutWidth() + j)
    {
      ClosedAt(job, data, i, j);
      var v := CellValue(job, data, i, j, iIn, jIn, stride1, stride2, topCount, leftCount);
      out[i * job.OutWidth() + j] := v;
      CounterStep(j, job.out1, job.left);
      if jIn < job.left && iIn >= job.top && stride1 == 0 && stride2 == 0 {
        leftCount := leftCount + 1;
      }
      if stride1 == job.out1 - 1 {
        stride1 := 0;
        jIn := jIn + 1;
      } else {
        stride1 := stride1 + 1;
      }
      j := j + 1;
    }
    Successor(i, job.OutWidth());
  }

  /** The reference loop computes the closed form. */
  method Reference(job: Job, data: seq<int>, out: array<int>)
    requires job.Valid() && job.ReadsInside(|data|) && out.Length == job.OutHeight() * job.OutWidth()
    modifies out
    ensures forall q :: 0 <= q < out.Length ==> out[q] == Closed(job, data, q)
  {
    var iIn: nat := 0;
    var stride2: nat := 0;
    var topCount: int := 0;
    var i: nat := 0;
    Dimensions(job);
    CounterStart(job.out2, job.top);
    while i < job.OutHeight()
      invariant i <= job.OutHeight() && iIn == i / job.out2 && stride2 == i % job.out2
      invariant topCount == PadCount(iIn, stride2, job.top)
      invariant CellsDone(job, data, out, i * job.OutWidth())
    {
      ReferenceRow(job, data, out, i, iIn, stride2, topCount);
      CounterStep(i, job.out2, job.top);
      if iIn < job.top && stride2 == 0 {
        topCount := topCount + 1;
      }
      if stride2 == job.out2 - 1 {
        stride2 := 0;
        iIn := iIn + 1;
      } else {
        stride2 := stride2 + 1;
      }
      i := i + 1;
    }
  }

  // ---------------------------------------------------------------- the DMA's pointer walk

  /** The transfer programmed with SRC_INC_D1 and SRC_INC_D2. */
  function TransferOf(job: Job): D.Transfer {
    D.Transfer(0, job.in1, job.in2 * job.sizeIn1 - (job.extr1 - 1 + (job.in1 - 1) * (job.extr1 - 1)),
               job.extr2, job.extr1, job.top, job.bottom, job.left, job.right)
  }

  /** DST_INC_D2 */
  function DestinationTurn(job: Job): int {
    (job.out2 - 1) * job.OutWidth() + 1
  }

  /** Where element `(i, j)` of the padded block goes. */
  function Target(job: Job, i: int, j: int): int {
    i * (job.out2 * job.OutWidth()) + j * job.out1
  }

  /** The source increments visit exactly the strided source elements. */
  lemma SourceVisited(job: Job, i: int, j: int)
    requires job.Valid()
    ensures TransferOf(job).Source(i, j) == job.Source(i - job.top, j - job.left)
  {
    D.RowPitch(job.extr1, job.in1, job.in2 * job.sizeIn1);
    Regroup(i - job.top, job.in2, job.sizeIn1);
  }

  lemma Regroup(x: int, y: int, z: int)
    ensures x * (y * z) == x * y * z
  {
  }

  /** The destination increments step along the grid: within a row, and from a row's end to the next row. */
  lemma TargetSteps(job: Job, i: int, j: int)
    requires job.Valid()
    ensures Target(job, i, j) + job.out1 == Target(job, i, j + 1)
    ensures Target(job, i, job.Width() - 1) + DestinationTurn(job) == Target(job, i + 1, 0)
  {
    Successor(j, job.out1);
    Dimensions(job);
    MinusTimes(job.out2, 1, job.OutWidth());
    Successor(i, job.out2 * job.OutWidth());
  }

  /** The index in the padded block of output position `q`, when `q` is on the grid. */
  predicate OnGrid(job: Job, q: nat)
    requires job.Valid()
  {
    Dimensions(job);
    (q / job.OutWidth()) % job.out2 == 0 && (q % job.OutWidth()) % job.out1 == 0
  }

  function GridRow(job: Job, q: nat): int
    requires job.Valid()
  {
    Dimensions(job);
    q / job.OutWidth() / job.out2
  }

  function GridColumn(job: Job, q: nat): int
    requires job.Valid()
  {
    Dimensions(job);
    q % job.OutWidth() / job.out1
  }

  /** A padded element's target is the one grid position with its row and column. */
  lemma TargetOnGrid(job: Job, i: nat, j: nat)
    requires job.Valid() && i < job.Height() && j < job.Width()
    ensures 0 <= Target(job, i, j) < job.OutHeight() * job.OutWidth()
    ensures OnGrid(job, Target(job, i, j)) && GridRow(job, Target(job, i, j)) == i &&
      GridColumn(job, Target(job, i, j)) == j
  {
    Dimensions(job);
    MulMonotone(j, job.Width() - 1, job.out1);
    MulMonotone(0, j, job.out1);
    MulMonotone(i, job.Height() - 1, job.out2);
    MulMonotone(0, i, job.out2);
    Regroup(i, job.out2, job.OutWidth());
    RowFits(i * job.out2, job.OutHeight(), job.OutWidth());
    DivMod(i * job.out2, job.OutWidth(), j * job.out1);
    DivMod(i, job.out2, 0);
    DivMod(j, job.out1, 0);
  }

  lemma GridIsTarget(job: Job, q: nat)
    requires job.Valid() && OnGrid(job, q)
    ensures q == Target(job, GridRow(job, q), GridColumn(job, q))
    ensures 0 <= GridColumn(job, q) < job.Width() && GridRow(job, q) >= 0
  {
    Dimensions(job);
    var line := q / job.OutWidth();
    var column := q % job.OutWidth();
    DivBounds(q, job.OutWidth());
    DivBounds(line, job.out2);
    DivBounds(column, job.out1);
    Regroup(line / job.out2, job.out2, job.OutWidth());
    if column / job.out1 >= job.Width() {
      MulMonotone(job.Width(), column / job.out1, job.out1);
      Successor(job.Width() - 1, job.out1);
    }
  }

  /** The element has been written once all earlier rows, and columns before `j` of row `i`, have been. */
  predicate Before(job: Job, q: nat, i: int, j: int)
    requires job.Valid()
  {
    GridRow(job, q) < i || (GridRow(job, q) == i && GridColumn(job, q) < j)
  }

  ghost predicate Walked(job: Job, data: seq<int>, out: array<int>, i: int, j: int)
    requires job.Valid()
    reads out
  {
    forall q :: 0 <= q < out.Length ==>
      out[q] == if OnGrid(job, q) && Before(job, q, i, j) then Closed(job, data, q) else 0
  }

  lemma ClosedOnGrid(job: Job, data: seq<int>, q: nat)
    requires job.Valid()
    ensures Closed(job, data, q) == if OnGrid(job, q) then job.Padded(data, GridRow(job, q), GridColumn(job, q)) else 0
  {
  }

  /** One element: written at the target, and every other position keeps what it has. */
  method WalkElement(job: Job, data: seq<int>, out: array<int>, i: nat, j: nat, dst: int, src: int)
    requires job.Valid() && job.ReadsInside(|data|) && out.Length == job.OutHeight() * job.OutWidth()
    requires i < job.Height() && j < job.Width() && dst == Target(job, i, j)
    requires job.Extracts(i, j) ==> src == job.Source(i - job.top, j - job.left)
    requires Walked(job, data, out, i, j)
    modifies out
    ensures Walked(job, data, out, i, j + 1)
  {
    TargetOnGrid(job, i, j);
    if job.Extracts(i, j) {
      assert src == job.Source(i - job.top, j - job.left);
      out[dst] := data[src];
    } else {
      out[dst] := 0;
    }
    forall q | 0 <= q < out.Length
      ensures out[q] == if OnGrid(job, q) && Before(job, q, i, j + 1) then Closed(job, data, q) else 0
    {
      ClosedOnGrid(job, data, q);
      if OnGrid(job, q) {
        GridIsTarget(job, q);
      }
    }
  }

  method WalkRow(job: Job, data: seq<int>, out: array<int>, i: nat, dst: int, src: int)
    returns (nextDst: int, nextSrc: int)
    requires job.Valid() && job.ReadsInside(|data|) && out.Length == job.OutHeight() * job.OutWidth()
    requires i < job.Height() && dst == Target(job, i, 0) && src == TransferOf(job).Pointer(i)
    requires Walked(job, data, out, i, 0)
    modifies out
    ensures nextDst == Target(job, i + 1, 0) && nextSrc == TransferOf(job).Pointer(i + 1)
    ensures Walked(job, data, out, i + 1, 0)
  {
    ghost var t := TransferOf(job);
    nextDst, nextSrc := dst, src;
    D.FirstRow(t);
    var j: nat := 0;
    while j < job.Width()
      invariant j <= job.Width()
      invariant nextDst == if j < job.Width() then Target(job, i, j) else Target(job, i + 1, 0)
      invariant !(job.top <= i < job.top + job.extr2) ==> nextSrc == src
      invariant job.top <= i < job.top + job.extr2 && j <= job.left ==> nextSrc == t.Source(i, t.left)
      invariant job.Extracts(i, j) ==> nextSrc == t.Source(i, j)
      invariant job.top <= i < job.top + job.extr2 && j >= job.left + job.extr1 ==> nextSrc == t.Source(i + 1, t.left)
      invariant Walked(job, data, out, i, j)
    {
      SourceVisited(job, i, j);
      WalkElement(job, data, out, i, j, nextDst, nextSrc);
      TargetSteps(job, i, j);
      if job.Extracts(i, j) {
        D.RowTurns(t, i);
        D.NextColumn(t, i, j);
        nextSrc := nextSrc + if j == job.left + job.extr1 - 1 then TransferOf(job).inc2 else job.in1;
      }
      nextDst := nextDst + if j == job.Width() - 1 then DestinationTurn(job) else job.out1;
      j := j + 1;
    }
    RowWalked(job, data, out, i);
  }

  lemma RowWalked(job: Job, data: seq<int>, out: array<int>, i: nat)
    requires job.Valid() && Walked(job, data, out, i, job.Width())
    ensures Walked(job, data, out, i + 1, 0)
  {
    forall q | 0 <= q < out.Length
      ensures out[q] == if OnGrid(job, q) && Before(job, q, i + 1, 0) then Closed(job, data, q) else 0
    {
      if OnGrid(job, q) {
        GridIsTarget(job, q);
      }
    }
  }

  /** Started on a cleared output, the pointer walk leaves the same output as the reference loop. */
  method Walk(job: Job, data: seq<int>, out: array<int>)
    requires job.Valid() && job.ReadsInside(|data|) && out.Length == job.OutHeight() * job.OutWidth()
    requires forall q :: 0 <= q < out.Length ==> out[q] == 0
    modifies out
    ensures forall q :: 0 <= q < out.Length ==> out[q] == Closed(job, data, q)
  {
    var dst, src := 0, 0;
    var i: nat := 0;
    Dimensions(job);
    NothingWalked(job, data, out);
    while i < job.Height()
      invariant i <= job.Height() && dst == Target(job, i, 0) && src == TransferOf(job).Pointer(i)
      invariant Walked(job, data, out, i, 0)
    {
      dst, src := WalkRow(job, data, out, i, dst, src);
      i := i + 1;
    }
    AllWalked(job, data, out);
  }

  lemma NothingWalked(job: Job, data: seq<int>, out: array<int>)
    requires job.Valid() && forall q :: 0 <= q < out.Length ==> out[q] == 0
    ensures Walked(job, data, out, 0, 0)
  {
    forall q | 0 <= q < out.Length
      ensures out[q] == if OnGrid(job, q) && Before(job, q, 0, 0) then Closed(job, data, q) else 0
    {
      if OnGrid(job, q) {
        GridIsTarget(job, q);
      }
    }
  }

  lemma AllWalked(job: Job, data: seq<int>, out: array<int>)
    requires job.Valid() && out.Length == job.OutHeight() * job.OutWidth()
    requires Walked(job, data, out, job.Height(), 0)
    ensures forall q :: 0 <= q < out.Length ==> out[q] == Closed(job, data, q)
  {
    forall q | 0 <= q < out.Length
      ensures out[q] == Closed(job, data, q)
    {
      ClosedOnGrid(job, data, q);
      RowBelow(job, q);
    }
  }

  lemma RowBelow(job: Job, q: nat)
    requires job.Valid() && q < job.OutHeight() * job.OutWidth()
    ensures GridRow(job, q) < job.Height()
  {
    Dimensions(job);
    var line := q / job.OutWidth();
    DivBounds(q, job.OutWidth());
    if line >= job.OutHeight() {
      MulMonotone(job.OutHeight(), line, job.OutWidth());
    } else {
      DivBounds(line, job.out2);
      if line / job.out2 >= job.Height() {
        MulMonotone(job.Height(), line / job.out2, job.out2);
        Successor(job.Height() - 1, job.out2);
      }
    }
  }
}
