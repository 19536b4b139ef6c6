/**
 * The two-dimensional DMA transfer: a source walked with two increments, zeros around the extracted block,
 * and a destination written without gaps.
 */
module Dma2d {

  import opened IntegerFacts

  /** An element of a buffer; nothing is read beyond it. */
  function Fetch(data: seq<int>, i: int): int {
    if 0 <= i < |data| then data[i] else 0
  }

  /** A transfer in data units: `inc2` is added to the source pointer in place of `inc1` after a row's last element. */
  datatype Transfer = Transfer(
    src: int, inc1: int, inc2: int,
    rows: int, cols: int,
    top: int, bottom: int, left: int, right: int)
  {
    predicate Programmed() {
      rows >= 1 && cols >= 1 && top >= 0 && bottom >= 0 && left >= 0 && right >= 0
    }

    function Height(): int { top + rows + bottom }

    function Width(): int { left + cols + right }

    predicate Extracts(i: int, j: int) {
      top <= i < top + rows && left <= j < left + cols
    }

    /** Where the element written at row `i`, column `j` of the padded block comes from. */
    function Source(i: int, j: int): int {
      src + (i - top) * ((cols - 1) * inc1 + inc2) + (j - left) * inc1
    }

    /** The source pointer before row `i` of the padded block is written. */
    function Pointer(i: int): int {
      if i <= top then src else if i < top + rows then Source(i, left) else Source(top + rows, left)
    }

    function Element(memory: seq<int>, i: int, j: int): int {
      if Extracts(i, j) && 0 <= Source(i, j) < |memory| then memory[Source(i, j)] else 0
    }

    ghost predicate ReadsInside(n: int) {
      forall i, j :: Extracts(i, j) ==> 0 <= Source(i, j) < n
    }
  }

  lemma FirstColumn(inc: int)
    ensures 0 * inc == 0
  {
  }

  /** After a row the second increment leads to the first element of the next one. */
  lemma RowTurns(t: Transfer, i: int)
    ensures t.Source(i, t.left + t.cols - 1) + t.inc2 == t.Source(i + 1, t.left)
  {
    Successor(i - t.top, (t.cols - 1) * t.inc1 + t.inc2);
  }

  lemma NextColumn(t: Transfer, i: int, j: int)
    ensures t.Source(i, j) + t.inc1 == t.Source(i, j + 1)
  {
    Successor(j - t.left, t.inc1);
  }

  lemma FirstRow(t: Transfer)
    ensures t.Source(t.top, t.left) == t.src
  {
    FirstColumn((t.cols - 1) * t.inc1 + t.inc2);
    FirstColumn(t.inc1);
  }

  /** The source increment of the drivers, `pitch` less the distance already walked in the row, moves down one row. */
  lemma RowPitch(size: int, s: int, pitch: int)
    ensures (size - 1) * s + (pitch - (size - 1 + (s - 1) * (size - 1))) == pitch
  {
    MinusTimes(s, 1, size - 1);
    Commute(s, size - 1);
  }

  ghost predicate RowWritten(t: Transfer, memory: seq<int>, out: array<int>, at: int, i: int, upto: int)
    reads out
  {
    forall j :: 0 <= j < upto && 0 <= at + j < out.Length ==> out[at + j] == t.Element(memory, i, j)
  }

  /** One row of the padded block. The pointer moves only past extracted elements. */
  method RunRow(t: Transfer, memory: seq<int>, out: array<int>, at: nat, i: nat, ptr: int) returns (next: int)
    requires t.Programmed() && t.ReadsInside(|memory|)
    requires i < t.Height() && at + t.Width() <= out.Length
    requires ptr == t.Pointer(i)
    modifies out
    ensures RowWritten(t, memory, out, at, i, t.Width())
    ensures forall q :: 0 <= q < out.Length && !(at <= q < at + t.Width()) ==> out[q] == old(out[q])
    ensures next == t.Pointer(i + 1)
  {
    next := ptr;
    FirstRow(t);
    var j: int := 0;
    while j < t.Width()
      invariant 0 <= j <= t.Width()
      invariant RowWritten(t, memory, out, at, i, j)
      invariant forall q :: 0 <= q < out.Length && !(at <= q < at + j) ==> out[q] == old(out[q])
      invariant !(t.top <= i < t.top + t.rows) ==> next == ptr
      invariant t.top <= i < t.top + t.rows && j <= t.left ==> next == t.Source(i, t.left)
      invariant t.Extracts(i, j) ==> next == t.Source(i, j)
      invariant t.top <= i < t.top + t.rows && j >= t.left + t.cols ==> next == t.Source(i + 1, t.left)
    {
      if t.Extracts(i, j) {
        out[at + j] := memory[next];
        if j == t.left + t.cols - 1 {
          RowTurns(t, i);
          next := next + t.inc2;
        } else {
          NextColumn(t, i, j);
          next := next + t.inc1;
        }
      } else {
        out[at + j] := 0;
      }
      j := j + 1;
    }
  }

  /** The element at offset `k` of the padded block, rows laid end to end. */
  function Flat(t: Transfer, memory: seq<int>, k: int): int
    requires t.Programmed()
  {
    t.Element(memory, k / t.Width(), k % t.Width())
  }

  ghost predicate BlockWritten(t: Transfer, memory: seq<int>, out: array<int>, dst: int, upto: int)
    reads out
    requires t.Programmed()
  {
    forall k :: 0 <= k < upto && 0 <= dst + k < out.Length ==> out[dst + k] == Flat(t, memory, k)
  }

  /** A row's elements are the next `Width` offsets of the block. */
  lemma RowIsFlat(t: Transfer, memory: seq<int>, i: int, j: int)
    requires t.Programmed() && 0 <= j < t.Width()
    ensures Flat(t, memory, i * t.Width() + j) == t.Element(memory, i, j)
  {
    DivMod(i, t.Width(), j);
  }

  /** The block in numbers: which element of memory comes to row `i` and column `j`. */
  lemma BlockInNumbers(t: Transfer, memory: seq<int>, i: int, j: int)
    requires t.Programmed() && t.ReadsInside(|memory|) && 0 <= i < t.top + t.rows + t.bottom
    requires 0 <= j < t.left + t.cols + t.right
    ensures var from := t.src + (i - t.top) * ((t.cols - 1) * t.inc1 + t.inc2) + (j - t.left) * t.inc1;
      if t.top <= i < t.top + t.rows && t.left <= j < t.left + t.cols then
        0 <= from < |memory| && Flat(t, memory, i * (t.left + t.cols + t.right) + j) == memory[from]
      else
        Flat(t, memory, i * (t.left + t.cols + t.right) + j) == 0
  {
    RowIsFlat(t, memory, i, j);
    if t.Extracts(i, j) {
      assert 0 <= t.Source(i, j) < |memory|;
    }
  }

  lemma RowExtendsBlock(t: Transfer, memory: seq<int>, out: array<int>, dst: int, at: int, i: int)
    requires t.Programmed() && i >= 0 && at == dst + i * t.Width()
    requires BlockWritten(t, memory, out, dst, at - dst)
    requires RowWritten(t, memory, out, at, i, t.Width())
    ensures BlockWritten(t, memory, out, dst, at + t.Width() - dst)
  {
    forall k | 0 <= k < at + t.Width() - dst && 0 <= dst + k < out.Length
      ensures out[dst + k] == Flat(t, memory, k)
    {
      if k >= at - dst {
        var j := dst + k - at;
        RowIsFlat(t, memory, i, j);
        assert out[at + j] == t.Element(memory, i, j);
      }
    }
  }

  /** The whole transfer writes the padded block at `dst` and nothing else. */
  method Run(t: Transfer, memory: seq<int>, out: array<int>, dst: nat)
    requires t.Programmed() && t.ReadsInside(|memory|)
    requires dst + t.Height() * t.Width() <= out.Length
    modifies out
    ensures BlockWritten(t, memory, out, dst, t.Height() * t.Width())
    ensures forall q :: 0 <= q < out.Length && !(dst <= q < dst + t.Height() * t.Width()) ==> out[q] == old(out[q])
  {
    var ptr := t.src;
    var i: nat := 0;
    var at: nat := dst;
    while i < t.Height()
      invariant i <= t.Height() && at == dst + i * t.Width()
      invariant ptr == t.Pointer(i)
      invariant BlockWritten(t, memory, out, dst, at - dst)
      invariant forall q :: 0 <= q < out.Length && !(dst <= q < at) ==> out[q] == old(out[q])
    {
      RowFits(i, t.Height(), t.Width());
      ptr := RunRow(t, memory, out, at, i, ptr);
      RowExtendsBlock(t, memory, out, dst, at, i);
      Successor(i, t.Width());
      i, at := i + 1, at + t.Width();
    }
  }
}
