/** im2col over an NCHW tensor: the direct nested loops and the version built from 2D transfers. */
module Im2col {

  import opened IntegerFacts
  import opened PatchAxis
  import opened Dma2d

  /** The tensor has `batch` images of `channels` channels; rows lie along `vertical`, columns along `horizontal`. */
  datatype Layer = Layer(batch: nat, channels: nat, vertical: Axis, horizontal: Axis) {

    ghost predicate Valid() {
      batch >= 1 && channels >= 1 && vertical.Fits() && horizontal.Fits()
    }

    /** CH_COL: one output row per channel and kernel tap. */
    function Taps(): int {
      channels * (vertical.filter * horizontal.filter)
    }

    function TensorSize(): int {
      ((batch * channels) * vertical.size) * horizontal.size
    }

    /** N_PATCHES_H and N_PATCHES_W */
    function Down(): int
      requires vertical.stride >= 1
    {
      vertical.Patches()
    }

    function Across(): int
      requires horizontal.stride >= 1
    {
      horizontal.Patches()
    }

    function OutputSize(): int
      requires vertical.stride >= 1 && horizontal.stride >= 1
    {
      ((Taps() * batch) * Down()) * Across()
    }

    function Channel(c: nat): int
      requires vertical.filter >= 1 && horizontal.filter >= 1
    {
      Product(vertical.filter, horizontal.filter);
      c / (vertical.filter * horizontal.filter)
    }

    function RowTap(c: nat): int
      requires vertical.filter >= 1 && horizontal.filter >= 1
    {
      (c / horizontal.filter) % vertical.filter
    }

    function ColumnTap(c: nat): int
      requires horizontal.filter >= 1
    {
      c % horizontal.filter
    }
  }

  /** Position of an element in a dense four-dimensional array. */
  function Index(dim1: int, dim2: int, dim3: int, i0: int, i1: int, i2: int, i3: int): int {
    ((i0 * dim1 + i1) * dim2 + i2) * dim3 + i3
  }

  /** The image value for one tap, batch and patch: zero outside the image. */
  function Value(l: Layer, image: seq<int>, ch: int, kh: int, kw: int, b: int, h: int, w: int): int {
    var row := l.vertical.Pixel(kh, h);
    var col := l.horizontal.Pixel(kw, w);
    if l.vertical.Inside(row) && l.horizontal.Inside(col) then
      Fetch(image, Index(l.channels, l.vertical.size, l.horizontal.size, b, ch, row, col))
    else 0
  }

  function Quotient(x: nat, n: int): (r: nat)
    requires n > 0
  {
    DivBounds(x, n);
    x / n
  }

  /** Tap, batch and patch of position `q` of the flattened output. */
  datatype Place = Place(tap: nat, batch: int, h: int, w: int)

  function PlaceOf(l: Layer, q: nat): Place
    requires l.Valid()
  {
    PatchesPositive(l.horizontal);
    PatchesPositive(l.vertical);
    var line := Quotient(q, l.Across());
    var segment := Quotient(line, l.Down());
    Place(Quotient(segment, l.batch), segment % l.batch, line % l.Down(), q % l.Across())
  }

  /** The row-major position determines tap, batch and patch. */
  lemma PlaceOfIndex(l: Layer, c: nat, b: nat, h: nat, w: nat)
    requires l.Valid() && b < l.batch && h < l.Down() && w < l.Across()
    ensures Index(l.batch, l.Down(), l.Across(), c, b, h, w) >= 0
    ensures PlaceOf(l, Index(l.batch, l.Down(), l.Across(), c, b, h, w)) == Place(c, b, h, w)
  {
    DigitOf(c, l.batch, b);
    DigitOf(c * l.batch + b, l.Down(), h);
    DigitOf((c * l.batch + b) * l.Down() + h, l.Across(), w);
  }

  lemma DigitOf(a: nat, n: int, r: nat)
    requires r < n
    ensures a * n + r >= 0 && Quotient(a * n + r, n) == a && (a * n + r) % n == r
  {
    DivMod(a, n, r);
    MulMonotone(0, a, n);
  }

  /** The value im2col promises at position `q` of the flattened output. */
  function Expected(l: Layer, image: seq<int>, q: nat): int
    requires l.Valid()
  {
    var at := PlaceOf(l, q);
    Value(l, image, l.Channel(at.tap), l.RowTap(at.tap), l.ColumnTap(at.tap), at.batch, at.h, at.w)
  }

  lemma PositionBelow(d0: int, d1: int, d2: int, d3: int, i0: int, i1: int, i2: int, i3: int)
    requires 0 <= i0 < d0 && 0 <= i1 < d1 && 0 <= i2 < d2 && 0 <= i3 < d3
    ensures 0 <= Index(d1, d2, d3, i0, i1, i2, i3) < ((d0 * d1) * d2) * d3
  {
    RowFits(i0, d0, d1);
    RowFits(i0 * d1 + i1, d0 * d1, d2);
    RowFits((i0 * d1 + i1) * d2 + i2, (d0 * d1) * d2, d3);
  }

  lemma ChannelBelow(l: Layer, c: nat)
    requires l.Valid() && c < l.Taps()
    ensures 0 <= l.Channel(c) < l.channels
    ensures 0 <= l.RowTap(c) < l.vertical.filter && 0 <= l.ColumnTap(c) < l.horizontal.filter
  {
    Product(l.vertical.filter, l.horizontal.filter);
    var area: nat := l.vertical.filter * l.horizontal.filter;
    DivBounds(c, area);
    if c / area >= l.channels {
      MulMonotone(l.channels, c / area, area);
    }
    DivBounds(c, l.horizontal.filter);
  }

  /** The taps are numbered row by row within a channel, and channel by channel. */
  lemma TapNumber(l: Layer, ch: nat, kh: nat, kw: nat)
    requires l.Valid() && kh < l.vertical.filter && kw < l.horizontal.filter
    ensures var c := (ch * l.vertical.filter + kh) * l.horizontal.filter + kw;
      c >= 0 && l.Channel(c) == ch && l.RowTap(c) == kh && l.ColumnTap(c) == kw
  {
    var fh, fw := l.vertical.filter, l.horizontal.filter;
    MulMonotone(0, ch, fh);
    DivMod(ch * fh + kh, fw, kw);
    DivMod(ch, fh, kh);
    MulMonotone(0, ch * fh + kh, fw);
    RowFits(kh, fh, fw);
    Product(fh, fw);
    Distribute(ch * fh, kh, fw);
    Regroup(ch, fh, fw);
    DivMod(ch, fh * fw, kh * fw + kw);
  }

  lemma Regroup(x: int, y: int, z: int)
    ensures x * y * z == x * (y * z)
  {
  }

  /** The promised value in numbers: which pixel of the tensor comes to which place of the output. */
  lemma ExpectedInNumbers(l: Layer, image: seq<int>, ch: nat, kh: nat, kw: nat, b: nat, h: nat, w: nat)
    requires l.Valid() && |image| == l.TensorSize() && ch < l.channels && b < l.batch
    requires kh < l.vertical.filter && kw < l.horizontal.filter && h < l.Down() && w < l.Across()
    ensures var v, z := l.vertical, l.horizontal;
      var down := (v.size + v.before + v.after - v.filter) / v.stride + 1;
      var across := (z.size + z.before + z.after - z.filter) / z.stride + 1;
      var q := ((((ch * v.filter + kh) * z.filter + kw) * l.batch + b) * down + h) * across + w;
      var row, column := kh + h * v.stride - v.before, kw + w * z.stride - z.before;
      var pixel := ((b * l.channels + ch) * v.size + row) * z.size + column;
      q >= 0 &&
      if 0 <= row < v.size && 0 <= column < z.size then
        0 <= pixel < |image| && Expected(l, image, q) == image[pixel]
      else Expected(l, image, q) == 0
  {
    var c := (ch * l.vertical.filter + kh) * l.horizontal.filter + kw;
    TapNumber(l, ch, kh, kw);
    PlaceOfIndex(l, c, b, h, w);
    ValueInNumbers(l, image, ch, kh, kw, b, h, w);
  }

  lemma ValueInNumbers(l: Layer, image: seq<int>, ch: nat, kh: nat, kw: nat, b: nat, h: nat, w: nat)
    requires l.Valid() && |image| == l.TensorSize() && ch < l.channels && b < l.batch
    ensures var row, column := kh + h * l.vertical.stride - l.vertical.before,
      kw + w * l.horizontal.stride - l.horizontal.before;
      var pixel := ((b * l.channels + ch) * l.vertical.size + row) * l.horizontal.size + column;
      if 0 <= row < l.vertical.size && 0 <= column < l.horizontal.size then
        0 <= pixel < |image| && Value(l, image, ch, kh, kw, b, h, w) == image[pixel]
      else Value(l, image, ch, kh, kw, b, h, w) == 0
  {
    var row, column := l.vertical.Pixel(kh, h), l.horizontal.Pixel(kw, w);
    if l.vertical.Inside(row) && l.horizontal.Inside(column) {
      PositionBelow(l.batch, l.channels, l.vertical.size, l.horizontal.size, b, ch, row, column);
    }
  }

  ghost predicate Filled(l: Layer, image: seq<int>, out: array<int>, upto: int)
    requires l.Valid()
    reads out
  {
    forall q :: 0 <= q < upto && q < out.Length ==> out[q] == Expected(l, image, q)
  }

  /** The innermost loop of the direct version: one row of patches. */
  method DirectRow(l: Layer, image: seq<int>, out: array<int>, c: nat, b: nat, h: nat)
    requires l.Valid() && |image| == l.TensorSize() && out.Length == l.OutputSize()
    requires c < l.Taps() && b < l.batch && h < l.Down()
    requires Filled(l, image, out, Index(l.batch, l.Down(), l.Across(), c, b, h, 0))
    modifies out
    ensures Filled(l, image, out, Index(l.batch, l.Down(), l.Across(), c, b, h + 1, 0))
  {
    ChannelBelow(l, c);
    PatchesPositive(l.horizontal);
    var row := l.vertical.Pixel(l.RowTap(c), h);
    var w: nat := 0;
    while w < l.Across()
      invariant w <= l.Across()
      invariant Filled(l, image, out, Index(l.batch, l.Down(), l.Across(), c, b, h, w))
    {
      var col := l.horizontal.Pixel(l.ColumnTap(c), w);
      var at := Index(l.batch, l.Down(), l.Across(), c, b, h, w);
      PositionBelow(l.Taps(), l.batch, l.Down(), l.Across(), c, b, h, w);
      PlaceOfIndex(l, c, b, h, w);
      if row < 0 || col < 0 || row >= l.vertical.size || col >= l.horizontal.size {
        out[at] := 0;
      } else {
        PositionBelow(l.batch, l.channels, l.vertical.size, l.horizontal.size, b, l.Channel(c), row, col);
        out[at] := image[Index(l.channels, l.vertical.size, l.horizontal.size, b, l.Channel(c), row, col)];
      }
      w := w + 1;
    }
    NextRow(l, c, b, h);
  }

  lemma NextRow(l: Layer, c: int, b: int, h: int)
    requires l.Valid()
    ensures Index(l.batch, l.Down(), l.Across(), c, b, h, l.Across())
         == Index(l.batch, l.Down(), l.Across(), c, b, h + 1, 0)
  {
    Successor((c * l.batch + b) * l.Down() + h, l.Across());
  }

  lemma NextBatch(l: Layer, c: int, b: int)
    requires l.Valid()
    ensures Index(l.batch, l.Down(), l.Across(), c, b, l.Down(), 0)
         == Index(l.batch, l.Down(), l.Across(), c, b + 1, 0, 0)
  {
    Successor(c * l.batch + b, l.Down());
  }

  lemma NextTap(l: Layer, c: int)
    requires l.Valid()
    ensures Index(l.batch, l.Down(), l.Across(), c, l.batch, 0, 0)
         == Index(l.batch, l.Down(), l.Across(), c + 1, 0, 0, 0)
  {
    Successor(c, l.batch);
  }

  method DirectBatches(l: Layer, image: seq<int>, out: array<int>, c: nat)
    requires l.Valid() && |image| == l.TensorSize() && out.Length == l.OutputSize()
    requires c < l.Taps()
    requires Filled(l, image, out, Index(l.batch, l.Down(), l.Across(), c, 0, 0, 0))
    modifies out
    ensures Filled(l, image, out, Index(l.batch, l.Down(), l.Across(), c + 1, 0, 0, 0))
  {
    PatchesPositive(l.vertical);
    var b: nat := 0;
    while b < l.batch
      invariant b <= l.batch
      invariant Filled(l, image, out, Index(l.batch, l.Down(), l.Across(), c, b, 0, 0))
    {
      var h: nat := 0;
      while h < l.Down()
        invariant h <= l.Down()
        invariant Filled(l, image, out, Index(l.batch, l.Down(), l.Across(), c, b, h, 0))
      {
        DirectRow(l, image, out, c, b, h);
        h := h + 1;
      }
      NextBatch(l, c, b);
      b := b + 1;
    }
    NextTap(l, c);
  }

  /** The direct version fills the whole output with the promised values. */
  method Direct(l: Layer, image: seq<int>, out: array<int>)
    requires l.Valid() && |image| == l.TensorSize() && out.Length == l.OutputSize()
    modifies out
    ensures forall q :: 0 <= q < out.Length ==> out[q] == Expected(l, image, q)
  {
    var c: nat := 0;
    Product(l.vertical.filter, l.horizontal.filter);
    MulMonotone(0, l.channels, l.vertical.filter * l.horizontal.filter);
    while c < l.Taps()
      invariant c <= l.Taps()
      invariant Filled(l, image, out, Index(l.batch, l.Down(), l.Across(), c, 0, 0, 0))
    {
      DirectBatches(l, image, out, c);
      c := c + 1;
    }
  }

  // ---------------------------------------------------------------- the version built from 2D transfers

  /** Every transfer has at least one element between its zeros. */
  ghost predicate SpansPositive(l: Layer)
    requires l.Valid()
  {
    (forall off :: 0 <= off < l.horizontal.filter ==> l.horizontal.Span(off) >= 1) &&
    (forall off :: 0 <= off < l.vertical.filter ==> l.vertical.Span(off) >= 1)
  }

  predicate Gapless(l: Layer)
    requires l.vertical.stride >= 1 && l.horizontal.stride >= 1
  {
    l.vertical.Gapless() && l.horizontal.Gapless()
  }

  /** The transfer programmed for one channel, tap and batch. */
  function TransferFor(l: Layer, ch: int, kh: int, kw: int, b: int): Transfer
    requires l.vertical.stride >= 1 && l.horizontal.stride >= 1
  {
    var left := l.horizontal.LeadingZeros(kw);
    var top := l.vertical.LeadingZeros(kh);
    var size := l.horizontal.Span(kw);
    Transfer(
      Index(l.channels, l.vertical.size, l.horizontal.size, b, ch,
            l.vertical.Pixel(kh, 0) + top * l.vertical.stride,
            l.horizontal.Pixel(kw, 0) + left * l.horizontal.stride),
      l.horizontal.stride,
      l.vertical.stride * l.horizontal.size - (size - 1 + (l.horizontal.stride - 1) * (size - 1)),
      l.vertical.Span(kh), size,
      top, l.vertical.TrailingZeros(kh), left, l.horizontal.TrailingZeros(kw))
  }

  lemma PixelSteps(a: Axis, off: int, from: int, k: int)
    ensures a.Pixel(off, 0) + from * a.stride == a.Pixel(off, from)
    ensures a.Pixel(off, k) == a.Pixel(off, from) + (k - from) * a.stride
  {
    MinusTimes(k, from, a.stride);
  }

  lemma IndexMoves(dim1: int, dim2: int, dim3: int, i0: int, i1: int, row: int, col: int, dr: int, dc: int, s: int)
    ensures Index(dim1, dim2, dim3, i0, i1, row, col) + dr * (s * dim3) + dc
         == Index(dim1, dim2, dim3, i0, i1, row + dr * s, col + dc)
  {
    var base := (i0 * dim1 + i1) * dim2 + row;
    assert (base + dr * s) * dim3 == base * dim3 + dr * s * dim3;
    assert dr * s * dim3 == dr * (s * dim3);
  }

  /** The pointer walk reaches the pixel under the tap. */
  lemma SourceIsPixel(l: Layer, ch: int, kh: int, kw: int, b: int, i: int, j: int)
    requires l.Valid()
    ensures TransferFor(l, ch, kh, kw, b).Source(i, j)
         == Index(l.channels, l.vertical.size, l.horizontal.size, b, ch,
                  l.vertical.Pixel(kh, i), l.horizontal.Pixel(kw, j))
  {
    var t := TransferFor(l, ch, kh, kw, b);
    RowPitch(t.cols, t.inc1, l.vertical.stride * l.horizontal.size);
    PixelSteps(l.vertical, kh, t.top, i);
    PixelSteps(l.horizontal, kw, t.left, j);
    IndexMoves(l.channels, l.vertical.size, l.horizontal.size, b, ch,
               l.vertical.Pixel(kh, t.top), l.horizontal.Pixel(kw, t.left),
               i - t.top, (j - t.left) * l.horizontal.stride, l.vertical.stride);
  }

  /** The transfer fills one segment of the output, and reads the image only. */
  lemma TransferFits(l: Layer, ch: int, kh: int, kw: int, b: int)
    requires l.Valid() && SpansPositive(l)
    requires 0 <= b < l.batch && 0 <= ch < l.channels
    requires 0 <= kh < l.vertical.filter && 0 <= kw < l.horizontal.filter
    ensures var t := TransferFor(l, ch, kh, kw, b);
      t.Programmed() && t.Height() == l.Down() && t.Width() == l.Across() && t.ReadsInside(l.TensorSize())
  {
    var t := TransferFor(l, ch, kh, kw, b);
    CountsNonNegative(l.vertical, kh);
    CountsNonNegative(l.horizontal, kw);
    forall i, j | t.Extracts(i, j)
      ensures 0 <= t.Source(i, j) < l.TensorSize()
    {
      SourceIsPixel(l, ch, kh, kw, b, i, j);
      BetweenZerosIsInside(l.vertical, kh, i);
      BetweenZerosIsInside(l.horizontal, kw, j);
      PositionBelow(l.batch, l.channels, l.vertical.size, l.horizontal.size, b, ch,
                 l.vertical.Pixel(kh, i), l.horizontal.Pixel(kw, j));
    }
  }

  /** Outside the gaps a transfer's element is the image value under the tap. */
  lemma ElementIsValue(l: Layer, image: seq<int>, ch: int, kh: int, kw: int, b: int, h: int, w: int)
    requires l.Valid()
    requires 0 <= kh < l.vertical.filter && 0 <= kw < l.horizontal.filter
    requires 0 <= h < l.Down() && 0 <= w < l.Across()
    requires !l.vertical.Gap(kh) && !l.horizontal.Gap(kw)
    ensures TransferFor(l, ch, kh, kw, b).Element(image, h, w) == Value(l, image, ch, kh, kw, b, h, w)
  {
    SourceIsPixel(l, ch, kh, kw, b, h, w);
    SpanIsInside(l.vertical, kh, h);
    SpanIsInside(l.horizontal, kw, w);
  }

  /** What the transfers leave at position `q` of the output. */
  function Transferred(l: Layer, image: seq<int>, q: nat): int
    requires l.Valid()
  {
    var at := PlaceOf(l, q);
    TransferFor(l, l.Channel(at.tap), l.RowTap(at.tap), l.ColumnTap(at.tap), at.batch).Element(image, at.h, at.w)
  }

  ghost predicate TransfersDone(l: Layer, image: seq<int>, out: array<int>, upto: int)
    requires l.Valid()
    reads out
  {
    forall q :: 0 <= q < upto && q < out.Length ==> out[q] == Transferred(l, image, q)
  }

  /** Offset `k` of a segment is patch `(k / across, k % across)`. */
  lemma SegmentOffset(l: Layer, c: nat, b: nat, k: nat)
    requires l.Valid() && b < l.batch && k < l.Down() * l.Across()
    ensures Index(l.batch, l.Down(), l.Across(), c, b, 0, 0) + k >= 0
    ensures l.Across() > 0
    ensures PlaceOf(l, Index(l.batch, l.Down(), l.Across(), c, b, 0, 0) + k)
      == Place(c, b, k / l.Across(), k % l.Across())
  {
    PatchesPositive(l.horizontal);
    DivBounds(k, l.Across());
    var h, w := k / l.Across(), k % l.Across();
    if h >= l.Down() {
      MulMonotone(l.Down(), h, l.Across());
    } else {
      PlaceOfIndex(l, c, b, h, w);
      Distribute((c * l.batch + b) * l.Down(), h, l.Across());
    }
  }

  lemma SegmentDone(l: Layer, image: seq<int>, out: array<int>, c: nat, b: nat, dst: int, t: Transfer)
    requires l.Valid() && b < l.batch
    requires dst == Index(l.batch, l.Down(), l.Across(), c, b, 0, 0)
    requires t == TransferFor(l, l.Channel(c), l.RowTap(c), l.ColumnTap(c), b)
    requires t.Programmed() && t.Height() == l.Down() && t.Width() == l.Across()
    requires TransfersDone(l, image, out, dst)
    requires BlockWritten(t, image, out, dst, l.Down() * l.Across())
    ensures TransfersDone(l, image, out, dst + l.Down() * l.Across())
  {
    forall q | 0 <= q < dst + l.Down() * l.Across() && q < out.Length
      ensures out[q] == Transferred(l, image, q)
    {
      if q >= dst {
        SegmentOffset(l, c, b, q - dst);
        assert out[dst + (q - dst)] == Flat(t, image, q - dst);
      }
    }
  }

  /** One segment: program the transfer, run it, and move the destination pointer on. */
  method TransferSegment(l: Layer, image: seq<int>, out: array<int>, ghost c: nat,
                         b: nat, ch: nat, kh: nat, kw: nat, dst: nat)
    requires l.Valid() && SpansPositive(l) && |image| == l.TensorSize() && out.Length == l.OutputSize()
    requires c < l.Taps() && b < l.batch
    requires ch == l.Channel(c) && kh == l.RowTap(c) && kw == l.ColumnTap(c)
    requires dst == Index(l.batch, l.Down(), l.Across(), c, b, 0, 0)
    requires TransfersDone(l, image, out, dst)
    modifies out
    ensures TransfersDone(l, image, out, dst + l.Down() * l.Across())
  {
    ChannelBelow(l, c);
    TransferFits(l, ch, kh, kw, b);
    SegmentFits(l, c, b);
    var t := TransferFor(l, ch, kh, kw, b);
    Run(t, image, out, dst);
    SegmentDone(l, image, out, c, b, dst, t);
  }

  lemma SegmentFits(l: Layer, c: nat, b: nat)
    requires l.Valid() && c < l.Taps() && b < l.batch
    ensures 0 <= Index(l.batch, l.Down(), l.Across(), c, b, 0, 0)
    ensures Index(l.batch, l.Down(), l.Across(), c, b, 0, 0) + l.Down() * l.Across() <= l.OutputSize()
  {
    PatchesPositive(l.vertical);
    PatchesPositive(l.horizontal);
    RowFits(c, l.Taps(), l.batch);
    RowFits(c * l.batch + b, l.Taps() * l.batch, l.Down());
    var base := (c * l.batch + b) * l.Down();
    Distribute(base, l.Down(), l.Across());
    MulMonotone(base + l.Down(), l.Taps() * l.batch * l.Down(), l.Across());
    MulMonotone(0, base, l.Across());
  }

  lemma SegmentTurns(l: Layer, c: int, b: int)
    requires l.Valid()
    ensures Index(l.batch, l.Down(), l.Across(), c, b, 0, 0) + l.Down() * l.Across()
         == Index(l.batch, l.Down(), l.Across(), c, b + 1, 0, 0)
  {
    Successor(c * l.batch + b, l.Down());
    Distribute((c * l.batch + b) * l.Down(), l.Down(), l.Across());
  }

  method TransferBatches(l: Layer, image: seq<int>, out: array<int>, ghost c: nat,
                         ch: nat, kh: nat, kw: nat, dst: nat) returns (next: nat)
    requires l.Valid() && SpansPositive(l) && |image| == l.TensorSize() && out.Length == l.OutputSize()
    requires c < l.Taps()
    requires ch == l.Channel(c) && kh == l.RowTap(c) && kw == l.ColumnTap(c)
    requires dst == Index(l.batch, l.Down(), l.Across(), c, 0, 0, 0)
    requires TransfersDone(l, image, out, dst)
    modifies out
    ensures next == Index(l.batch, l.Down(), l.Across(), c + 1, 0, 0, 0)
    ensures TransfersDone(l, image, out, next)
  {
    next := dst;
    var b: nat := 0;
    while b < l.batch
      invariant b <= l.batch
      invariant next == Index(l.batch, l.Down(), l.Across(), c, b, 0, 0)
      invariant TransfersDone(l, image, out, next)
    {
      TransferSegment(l, image, out, c, b, ch, kh, kw, next);
      SegmentFits(l, c, b);
      SegmentTurns(l, c, b);
      PatchesPositive(l.vertical);
      PatchesPositive(l.horizontal);
      Product(l.Down(), l.Across());
      next := next + l.Down() * l.Across();
      b := b + 1;
    }
    NextTap(l, c);
  }

  /** The counters kept by the loop in place of the divisions. */
  datatype Counters = Counters(kw: nat, kh: nat, khCount: nat, ch: nat, chCount: nat) {

    function Next(filterH: int, filterW: int): Counters {
      Counters(
        if kw == filterW - 1 then 0 else kw + 1,
        if khCount == filterW - 1 then (if kh == filterH - 1 then 0 else kh + 1) else kh,
        if khCount == filterW - 1 then 0 else khCount + 1,
        if chCount == filterH * filterW - 1 then ch + 1 else ch,
        if chCount == filterH * filterW - 1 then 0 else chCount + 1)
    }
  }

  /** The counters of tap `c`, by division. */
  function CountersAt(l: Layer, c: nat): Counters
    requires l.Valid()
  {
    Product(l.vertical.filter, l.horizontal.filter);
    Counters(l.ColumnTap(c), l.RowTap(c), l.ColumnTap(c), l.Channel(c),
             c % (l.vertical.filter * l.horizontal.filter))
  }

  /** Counting on from one tap to the next replaces the three divisions. */
  lemma CountersAdvance(l: Layer, c: nat)
    requires l.Valid()
    ensures CountersAt(l, c).Next(l.vertical.filter, l.horizontal.filter) == CountersAt(l, c + 1)
  {
    Product(l.vertical.filter, l.horizontal.filter);
    CountStep(c, l.horizontal.filter);
    CountStep(Quotient(c, l.horizontal.filter), l.vertical.filter);
    CountStep(c, l.vertical.filter * l.horizontal.filter);
  }

  lemma CountersStart(l: Layer)
    requires l.Valid()
    ensures CountersAt(l, 0) == Counters(0, 0, 0, 0, 0)
  {
    Product(l.vertical.filter, l.horizontal.filter);
    DivMod(0, l.horizontal.filter, 0);
    DivMod(0, l.vertical.filter, 0);
    DivMod(0, l.vertical.filter * l.horizontal.filter, 0);
  }

  /** The transfer version: division-free counters, and a destination pointer that is only advanced. */
  method ByTransfers(l: Layer, image: seq<int>, out: array<int>)
    requires l.Valid() && SpansPositive(l) && |image| == l.TensorSize() && out.Length == l.OutputSize()
    modifies out
    ensures forall q :: 0 <= q < out.Length ==> out[q] == Transferred(l, image, q)
    ensures Gapless(l) ==> forall q :: 0 <= q < out.Length ==> out[q] == Expected(l, image, q)
  {
    Product(l.vertical.filter, l.horizontal.filter);
    MulMonotone(0, l.channels, l.vertical.filter * l.horizontal.filter);
    CountersStart(l);
    var n := Counters(0, 0, 0, 0, 0);
    var dst: nat := 0;
    var c: nat := 0;
    while c < l.Taps()
      invariant c <= l.Taps()
      invariant n == CountersAt(l, c)
      invariant dst == Index(l.batch, l.Down(), l.Across(), c, 0, 0, 0)
      invariant TransfersDone(l, image, out, dst)
    {
      dst := TransferBatches(l, image, out, c, n.ch, n.kh, n.kw, dst);
      CountersAdvance(l, c);
      n := n.Next(l.vertical.filter, l.horizontal.filter);
      c := c + 1;
    }
    if Gapless(l) {
      forall q | 0 <= q < out.Length
        ensures Transferred(l, image, q) == Expected(l, image, q)
      {
        TransferredIsExpected(l, image, q);
      }
    }
  }

  lemma PlaceInside(l: Layer, q: nat)
    requires l.Valid() && q < l.OutputSize()
    ensures var at := PlaceOf(l, q);
      at.tap < l.Taps() && 0 <= at.batch < l.batch && 0 <= at.h < l.Down() && 0 <= at.w < l.Across()
  {
    PatchesPositive(l.horizontal);
    PatchesPositive(l.vertical);
    var line := Quotient(q, l.Across());
    var segment := Quotient(line, l.Down());
    QuotientBelow(q, l.Across(), l.Taps() * l.batch * l.Down());
    QuotientBelow(line, l.Down(), l.Taps() * l.batch);
    QuotientBelow(segment, l.batch, l.Taps());
  }

  lemma QuotientBelow(x: nat, n: int, m: int)
    requires n > 0 && x < m * n
    ensures x / n < m && 0 <= x % n < n
  {
    DivBounds(x, n);
    if x / n >= m {
      MulMonotone(m, x / n, n);
    }
  }

  lemma TransferredIsExpected(l: Layer, image: seq<int>, q: nat)
    requires l.Valid() && Gapless(l) && q < l.OutputSize()
    ensures Transferred(l, image, q) == Expected(l, image, q)
  {
    PlaceInside(l, q);
    var at := PlaceOf(l, q);
    ChannelBelow(l, at.tap);
    GaplessIffNoGap(l.vertical);
    GaplessIffNoGap(l.horizontal);
    ElementIsValue(l, image, l.Channel(at.tap), l.RowTap(at.tap), l.ColumnTap(at.tap), at.batch, at.h, at.w);
  }

  /** A tap in the gap: its last patch is inside the image although a zero is written for it. */
  lemma LastPatchInside(a: Axis, off: nat)
    requires a.Fits() && off < a.filter && a.Gap(off) && a.Span(off) >= 1
    ensures a.Inside(a.Pixel(off, a.Patches() - 1))
    ensures a.Patches() - 1 == a.LeadingZeros(off) + a.Span(off)
  {
    PatchesPositive(a);
    TrailingInGap(a, off);
    LeadingExact(a, off, a.Patches() - 1);
  }

  lemma FirstExtractedInside(a: Axis, off: nat)
    requires a.Fits() && off < a.filter && a.Span(off) >= 1
    ensures 0 <= a.LeadingZeros(off) < a.Patches() && a.Inside(a.Pixel(off, a.LeadingZeros(off)))
  {
    CountsNonNegative(a, off);
    BetweenZerosIsInside(a, off, a.LeadingZeros(off));
  }

  /** On an image of ones, any patch inside the image that a transfer does not extract comes out wrong. */
  lemma OnesDiffer(l: Layer, ones: seq<int>, c: nat, kh: nat, kw: nat, h: nat, w: nat)
    requires l.Valid() && |ones| == l.TensorSize() && forall i :: 0 <= i < |ones| ==> ones[i] == 1
    requires c < l.Taps() && h < l.Down() && w < l.Across()
    requires l.Channel(c) == 0 && l.RowTap(c) == kh && l.ColumnTap(c) == kw
    requires l.vertical.Inside(l.vertical.Pixel(kh, h)) && l.horizontal.Inside(l.horizontal.Pixel(kw, w))
    requires !TransferFor(l, 0, kh, kw, 0).Extracts(h, w)
    ensures exists q: nat :: q < l.OutputSize() && Transferred(l, ones, q) != Expected(l, ones, q)
  {
    var q := Index(l.batch, l.Down(), l.Across(), c, 0, h, w);
    PlaceOfIndex(l, c, 0, h, w);
    PositionBelow(l.Taps(), l.batch, l.Down(), l.Across(), c, 0, h, w);
    PositionBelow(l.batch, l.channels, l.vertical.size, l.horizontal.size, 0, 0,
               l.vertical.Pixel(kh, h), l.horizontal.Pixel(kw, w));
    assert Transferred(l, ones, q) == 0 && Expected(l, ones, q) == 1;
  }

  /** The first channel's tap in row `kh` and column `kw`. */
  lemma TapIndex(l: Layer, kh: nat, kw: nat)
    requires l.Valid() && kh < l.vertical.filter && kw < l.horizontal.filter
    ensures var c := kh * l.horizontal.filter + kw;
      0 <= c < l.Taps() && l.Channel(c) == 0 && l.RowTap(c) == kh && l.ColumnTap(c) == kw
  {
    DigitOf(kh, l.horizontal.filter, kw);
    DivMod(0, l.vertical.filter, kh);
    RowFits(kh, l.vertical.filter, l.horizontal.filter);
    var c: nat := kh * l.horizontal.filter + kw;
    var area := l.vertical.filter * l.horizontal.filter;
    DivMod(0, area, c);
    MulMonotone(1, l.channels, area);
  }

  lemma GapShows(l: Layer, ones: seq<int>)
    requires l.Valid() && SpansPositive(l) && !Gapless(l)
    requires |ones| == l.TensorSize() && forall i :: 0 <= i < |ones| ==> ones[i] == 1
    ensures exists q: nat :: q < l.OutputSize() && Transferred(l, ones, q) != Expected(l, ones, q)
  {
    if !l.horizontal.Gapless() {
      GaplessIffNoGap(l.horizontal);
      var kw :| 0 <= kw < l.horizontal.filter && l.horizontal.Gap(kw);
      TapIndex(l, 0, kw);
      LastPatchInside(l.horizontal, kw);
      FirstExtractedInside(l.vertical, 0);
      PatchesPositive(l.horizontal);
      OnesDiffer(l, ones, kw, 0, kw, l.vertical.LeadingZeros(0), l.Across() - 1);
    } else {
      GaplessIffNoGap(l.vertical);
      var kh :| 0 <= kh < l.vertical.filter && l.vertical.Gap(kh);
      TapIndex(l, kh, 0);
      MulMonotone(0, kh, l.horizontal.filter);
      LastPatchInside(l.vertical, kh);
      FirstExtractedInside(l.horizontal, 0);
      PatchesPositive(l.vertical);
      OnesDiffer(l, ones, kh * l.horizontal.filter, kh, 0, l.Down() - 1, l.horizontal.LeadingZeros(0));
    }
  }

  /** The two versions agree on every image exactly when no kernel tap falls in a gap. */
  lemma TransfersAgreeIffGapless(l: Layer)
    requires l.Valid() && SpansPositive(l)
    ensures Gapless(l) <==>
      forall image: seq<int>, q: nat :: |image| == l.TensorSize() && q < l.OutputSize() ==>
        Transferred(l, image, q) == Expected(l, image, q)
  {
    if Gapless(l) {
      forall image: seq<int>, q: nat | |image| == l.TensorSize() && q < l.OutputSize()
        ensures Transferred(l, image, q) == Expected(l, image, q)
      {
        TransferredIsExpected(l, image, q);
      }
    } else {
      PositionBelow(l.batch, l.channels, l.vertical.size, l.horizontal.size, 0, 0, 0, 0);
      var ones := seq(l.TensorSize(), _ => 1);
      GapShows(l, ones);
    }
  }

  /**
   * One row of five pixels with three zeros after it, swept three taps at a stride of three: an image tells the two
   * apart.
   */
  lemma GapLayer()
    ensures var l := Layer(1, 1, Axis(1, 1, 1, 0, 0), Axis(5, 3, 3, 0, 3));
      l.Valid() && SpansPositive(l) &&
      exists image: seq<int>, q: nat :: |image| == l.TensorSize() && q < l.OutputSize() &&
        Transferred(l, image, q) != Expected(l, image, q)
  {
    var l := Layer(1, 1, Axis(1, 1, 1, 0, 0), Axis(5, 3, 3, 0, 3));
    GapExample();
    GaplessIffNoGap(l.horizontal);
    TransfersAgreeIffGapless(l);
  }
}
