/** Copying between memory and a device that only takes whole, aligned 32-bit accesses. */
module Mmio {

  import opened MachineInts

  /** A device region. Its only operations are aligned word accesses; `readCount` counts the volatile reads. */
  class Region {
    var bytes: seq<byte>
    var readCount: nat

    constructor (contents: seq<byte>)
      ensures bytes == contents && readCount == 0
    {
      bytes := contents;
      readCount := 0;
    }

    method Read32(at: nat) returns (word: seq<byte>)
      requires at % 4 == 0 && at + 4 <= |bytes|
      modifies `readCount
      ensures word == bytes[at..at + 4] && readCount == old(readCount) + 1
    {
      word := bytes[at..at + 4];
      readCount := readCount + 1;
    }

    method Write32(at: nat, word: seq<byte>)
      requires at % 4 == 0 && at + 4 <= |bytes| && |word| == 4
      modifies `bytes
      ensures Spliced(old(bytes), bytes, at, word)
    {
      bytes := bytes[..at] + word + bytes[at + 4..];
    }
  }

  /** `now` is `was` with `data` written at `at`, and nothing else changed. */
  ghost predicate Spliced(was: seq<byte>, now: seq<byte>, at: int, data: seq<byte>) {
    |now| == |was| &&
    forall q :: 0 <= q < |was| ==> now[q] == if at <= q < at + |data| then data[q - at] else was[q]
  }

  lemma SplicedOn(a: seq<byte>, b: seq<byte>, c: seq<byte>, at: int, data: seq<byte>, more: seq<byte>)
    requires Spliced(a, b, at, data) && Spliced(b, c, at + |data|, more)
    ensures Spliced(a, c, at, data + more)
  {
  }

  method CopyOut(data: seq<byte>, buf: array<byte>, pos: nat)
    requires pos + |data| <= buf.Length
    modifies buf
    ensures Spliced(old(buf[..]), buf[..], pos, data)
  {
    var k: nat := 0;
    while k < |data|
      invariant k <= |data|
      invariant forall q :: 0 <= q < buf.Length ==>
        buf[q] == if pos <= q < pos + k then data[q - pos] else old(buf[q])
    {
      buf[pos + k] := data[k];
      k := k + 1;
    }
  }

  /** Moves `n` bytes between one device word, from its byte `shift` on, and `buf[pos..]`. */
  method MoveWord(r: Region, at: nat, shift: nat, n: nat, buf: array<byte>, pos: nat, fromMmio: bool, mustRead: bool)
    requires at % 4 == 0 && at + 4 <= |r.bytes| && shift + n <= 4 && pos + n <= buf.Length
    requires !mustRead ==> n == 4 && !fromMmio
    modifies r, buf
    ensures r.readCount == old(r.readCount) + if mustRead then 1 else 0
    ensures fromMmio ==>
      r.bytes == old(r.bytes) && Spliced(old(buf[..]), buf[..], pos, r.bytes[at + shift..at + shift + n])
    ensures !fromMmio ==> buf[..] == old(buf[..]) && Spliced(old(r.bytes), r.bytes, at + shift, buf[pos..pos + n])
  {
    var word: seq<byte> := [0, 0, 0, 0];
    if mustRead {
      word := r.Read32(at);
    }
    if fromMmio {
      SliceOfSlice(r.bytes, at, at + 4, shift, shift + n);
      CopyOut(word[shift..shift + n], buf, pos);
    } else {
      var data := buf[pos..pos + n];
      word := word[..shift] + data + word[shift + n..];
      r.Write32(at, word);
    }
  }

  /** The bytes that bring an unaligned offset to the next word, if that many are wanted. */
  function Head(offset: nat, len: nat): (n: nat)
    ensures n <= len && n <= 3
    ensures n < len ==> (offset + n) % 4 == 0
  {
    if offset % 4 == 0 then 0 else if 4 - offset % 4 > len then len else 4 - offset % 4
  }

  /** The number of words that overlap the range. */
  function WordsTouched(offset: nat, len: nat): int {
    if len == 0 then 0 else (offset + len + 3) / 4 - offset / 4
  }

  /** The documented bound on reads. */
  lemma WordsTouchedBound(offset: nat, len: nat)
    ensures WordsTouched(offset, len) <= len / 4 + 2
  {
  }

  /** It is reached: two bytes across a word boundary take two reads. */
  lemma BoundReached()
    ensures WordsTouched(3, 2) == 2 / 4 + 2
  {
  }

  /** The state after the first `pos` bytes: one side is updated that far, the other is untouched. */
  ghost predicate Progress(fromMmio: bool, was: seq<byte>, wasBytes: seq<byte>, r: Region, buf: array<byte>,
                           offset: nat, pos: nat)
    reads r, buf
  {
    && pos <= buf.Length == |was| && offset + pos <= |wasBytes|
    && if fromMmio then r.bytes == wasBytes && Spliced(was, buf[..], 0, wasBytes[offset..offset + pos])
       else buf[..] == was && Spliced(wasBytes, r.bytes, offset, was[..pos])
  }

  /** The next `n` bytes, all in one device word. */
  method Advance(r: Region, offset: nat, buf: array<byte>, pos: nat, n: nat, fromMmio: bool, mustRead: bool,
                 ghost was: seq<byte>, ghost wasBytes: seq<byte>)
    requires Progress(fromMmio, was, wasBytes, r, buf, offset, pos) && pos + n <= buf.Length
    requires var at := offset + pos; at % 4 + n <= 4 && at - at % 4 + 4 <= |r.bytes|
    requires !mustRead ==> n == 4 && !fromMmio
    modifies r, buf
    ensures Progress(fromMmio, was, wasBytes, r, buf, offset, pos + n)
    ensures r.readCount == old(r.readCount) + if mustRead then 1 else 0
    ensures |r.bytes| == old(|r.bytes|)
  {
    var at := offset + pos;
    Floor4(at);
    MoveWord(r, at - at % 4, at % 4, n, buf, pos, fromMmio, mustRead);
    if !fromMmio {
      assert buf[pos..pos + n] == was[pos..pos + n];
      WrittenOn(wasBytes, old(r.bytes), r.bytes, offset, was, pos, n);
    } else {
      ReadOn(was, old(buf[..]), buf[..], wasBytes, offset, pos, n);
    }
  }

  lemma WrittenOn(a: seq<byte>, b: seq<byte>, c: seq<byte>, offset: nat, was: seq<byte>, pos: nat, n: nat)
    requires pos + n <= |was| && Spliced(a, b, offset, was[..pos]) && Spliced(b, c, offset + pos, was[pos..pos + n])
    ensures Spliced(a, c, offset, was[..pos + n])
  {
    SplicedOn(a, b, c, offset, was[..pos], was[pos..pos + n]);
    PrefixGrows(was, pos, pos + n);
  }

  lemma ReadOn(a: seq<byte>, b: seq<byte>, c: seq<byte>, bytes: seq<byte>, offset: nat, pos: nat, n: nat)
    requires offset + pos + n <= |bytes| && Spliced(a, b, 0, bytes[offset..offset + pos])
    requires Spliced(b, c, pos, bytes[offset + pos..offset + pos + n])
    ensures Spliced(a, c, 0, bytes[offset..offset + pos + n])
  {
    SplicedOn(a, b, c, 0, bytes[offset..offset + pos], bytes[offset + pos..offset + pos + n]);
    SlicesJoin(bytes, offset, offset + pos, offset + pos + n);
  }

  lemma SliceOfSlice(s: seq<byte>, a: nat, b: nat, c: nat, d: nat)
    requires a <= b <= |s| && c <= d <= b - a
    ensures s[a..b][c..d] == s[a + c..a + d]
  {
    var l, r := s[a..b][c..d], s[a + c..a + d];
    assert |l| == |r|;
    forall k | 0 <= k < |l|
      ensures l[k] == r[k]
    {
      assert l[k] == s[a..b][c + k] == s[a + c + k];
    }
  }

  lemma SlicesJoin(s: seq<byte>, a: nat, b: nat, c: nat)
    requires a <= b <= c <= |s|
    ensures s[a..b] + s[b..c] == s[a..c]
  {
  }

  lemma PrefixGrows(s: seq<byte>, b: nat, c: nat)
    requires b <= c <= |s|
    ensures s[..b] + s[b..c] == s[..c]
  {
  }

  lemma Floor4(x: nat)
    ensures (x - x % 4) % 4 == 0
  {
  }

  /** The volatile reads the copy performs. */
  function ReadsOf(offset: nat, len: nat, fromMmio: bool): int {
    if fromMmio then WordsTouched(offset, len)
    else if len == 0 then 0
    else (if offset % 4 != 0 then 1 else 0) + (if (len - Head(offset, len)) % 4 != 0 then 1 else 0)
  }

  /** Where the last touched word ends. */
  function WordEnd(x: nat): int {
    (x + 3) / 4 * 4
  }

  /** mmio_region_memcpy32: the copy in either direction. */
  method Memcpy32(r: Region, offset: nat, buf: array<byte>, len: nat, fromMmio: bool)
    requires len <= buf.Length && (len > 0 ==> WordEnd(offset + len) <= |r.bytes|)
    modifies r, buf
    ensures len == 0 ==> r.bytes == old(r.bytes) && buf[..] == old(buf[..])
    ensures len > 0 ==> Progress(fromMmio, old(buf[..]), old(r.bytes), r, buf, offset, len)
    ensures fromMmio ==> r.bytes == old(r.bytes) && forall k :: 0 <= k < buf.Length ==>
      buf[k] == if k < len then r.bytes[offset + k] else old(buf[k])
    ensures !fromMmio ==> buf[..] == old(buf[..]) && |r.bytes| == old(|r.bytes|) && forall q :: 0 <= q < |r.bytes| ==>
      r.bytes[q] == if offset <= q < offset + len then buf[q - offset] else old(r.bytes)[q]
    ensures r.readCount == old(r.readCount) + ReadsOf(offset, len, fromMmio)
  {
    ghost var was, wasBytes := buf[..], r.bytes;
    if len == 0 {
      return;
    }
    var pos: nat := 0;
    var misalignment := offset % 4;
    if misalignment != 0 {
      var realignment := 4 - misalignment;
      if realignment > len {
        realignment := len;
      }
      WordFits(offset, 0, realignment, len, |r.bytes|);
      Advance(r, offset, buf, 0, realignment, fromMmio, true, was, wasBytes);
      pos := realignment;
    }
    CopyWords(r, offset, buf, len, pos, fromMmio, was, wasBytes);
    ReadsAddUp(offset, len, fromMmio);
    ByteByByte(fromMmio, was, wasBytes, r, buf, offset, len);
  }

  lemma ByteByByte(fromMmio: bool, was: seq<byte>, wasBytes: seq<byte>, r: Region, buf: array<byte>, offset: nat,
                   len: nat)
    requires Progress(fromMmio, was, wasBytes, r, buf, offset, len)
    ensures fromMmio ==> r.bytes == wasBytes && forall k :: 0 <= k < buf.Length ==>
      buf[k] == if k < len then r.bytes[offset + k] else was[k]
    ensures !fromMmio ==> buf[..] == was && |r.bytes| == |wasBytes| && forall q :: 0 <= q < |r.bytes| ==>
      r.bytes[q] == if offset <= q < offset + len then buf[q - offset] else wasBytes[q]
  {
    if fromMmio {
      forall k | 0 <= k < buf.Length
        ensures buf[k] == if k < len then r.bytes[offset + k] else was[k]
      {
        assert buf[k] == buf[..][k];
      }
    }
  }

  lemma WordFits(offset: nat, pos: nat, n: nat, len: nat, size: int)
    requires 0 < n && pos + n <= len && WordEnd(offset + len) <= size && (offset + pos) % 4 + n <= 4
    ensures var at := offset + pos; at - at % 4 + 4 <= size
  {
  }

  /** The reads of the word loop from byte `pos` on. */
  function LoopReads(left: nat, fromMmio: bool): int {
    if fromMmio then (left + 3) / 4 else if left % 4 != 0 then 1 else 0
  }

  /** Whole words, and a last one that may be partial; the offset is aligned from here on. */
  method CopyWords(r: Region, offset: nat, buf: array<byte>, len: nat, from: nat, fromMmio: bool,
                   ghost was: seq<byte>, ghost wasBytes: seq<byte>)
    requires len <= buf.Length && from <= len && 0 < len && WordEnd(offset + len) <= |r.bytes|
    requires from < len ==> (offset + from) % 4 == 0
    requires Progress(fromMmio, was, wasBytes, r, buf, offset, from)
    modifies r, buf
    ensures Progress(fromMmio, was, wasBytes, r, buf, offset, len)
    ensures r.readCount == old(r.readCount) + LoopReads(len - from, fromMmio)
  {
    var pos := from;
    ghost var total := r.readCount + LoopReads(len - from, fromMmio);
    ghost var size := |r.bytes|;
    while pos < len
      invariant pos <= len && (pos < len ==> (offset + pos) % 4 == 0)
      invariant |r.bytes| == size
      invariant Progress(fromMmio, was, wasBytes, r, buf, offset, pos)
      invariant r.readCount + LoopReads(len - pos, fromMmio) == total
    {
      pos := CopyWord(r, offset, buf, len, pos, fromMmio, was, wasBytes);
    }
  }

  /** One turn of the word loop. */
  method CopyWord(r: Region, offset: nat, buf: array<byte>, len: nat, pos: nat, fromMmio: bool,
                  ghost was: seq<byte>, ghost wasBytes: seq<byte>) returns (next: nat)
    requires pos < len <= buf.Length && WordEnd(offset + len) <= |r.bytes| && (offset + pos) % 4 == 0
    requires Progress(fromMmio, was, wasBytes, r, buf, offset, pos)
    modifies r, buf
    ensures pos < next <= len && (next < len ==> (offset + next) % 4 == 0)
    ensures Progress(fromMmio, was, wasBytes, r, buf, offset, next)
    ensures |r.bytes| == old(|r.bytes|)
    ensures r.readCount + LoopReads(len - next, fromMmio) == old(r.readCount) + LoopReads(len - pos, fromMmio)
  {
    var n: nat := 4;
    if n > len - pos {
      n := len - pos;
    }
    WordFits(offset, pos, n, len, |r.bytes|);
    Advance(r, offset, buf, pos, n, fromMmio, fromMmio || n != 4, was, wasBytes);
    LoopReadsStep(len - pos, n, fromMmio);
    next := pos + n;
  }

  lemma LoopReadsStep(left: nat, n: nat, fromMmio: bool)
    requires 0 < left && n == if 4 > left then left else 4
    ensures LoopReads(left, fromMmio) == LoopReads(left - n, fromMmio) + if fromMmio || n != 4 then 1 else 0
  {
  }

  lemma ReadsAddUp(offset: nat, len: nat, fromMmio: bool)
    requires len > 0
    ensures ReadsOf(offset, len, fromMmio)
         == (if offset % 4 != 0 then 1 else 0) + LoopReads(len - Head(offset, len), fromMmio)
  {
  }

  /** mmio_region_memcpy_to_mmio32 followed by mmio_region_memcpy_from_mmio32 returns the bytes written. */
  method RoundTrip(r: Region, offset: nat, src: array<byte>, dst: array<byte>, len: nat)
    requires src != dst && len <= src.Length && len <= dst.Length && (len > 0 ==> WordEnd(offset + len) <= |r.bytes|)
    modifies r, src, dst
    ensures src[..] == old(src[..]) && dst[..len] == src[..len]
    ensures Spliced(old(r.bytes), r.bytes, offset, src[..len])
    ensures r.readCount <= old(r.readCount) + 2 + (len / 4 + 2)
  {
    Memcpy32(r, offset, src, len, false);
    ghost var device := r.bytes;
    Memcpy32(r, offset, dst, len, true);
    WordsTouchedBound(offset, len);
    forall k | 0 <= k < len
      ensures dst[k] == src[k]
    {
      assert device[offset + k] == src[..len][k];
    }
  }
}
