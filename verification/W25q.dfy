/**
 * The driver loops of w25q.c in single-speed mode without DMA: FIFO transfers, page
 * splitting and sector rewriting, on a real device.
 */
module W25q {
  import opened IntegerFacts
  import opened NorFlash

  const MAX_FLASH_ADDR: int := 0x00FF_FFFF

  datatype Status = FlashOk | FlashError

  /** A 32-bit FIFO word as the four bytes it has in memory. */
  datatype Word = Word(b0: bv8, b1: bv8, b2: bv8, b3: bv8)

  function WordBytes(w: Word): (r: Bytes)
    ensures |r| == 4
  {
    [w.b0, w.b1, w.b2, w.b3]
  }

  function Stream(ws: seq<Word>): (r: Bytes)
    ensures |r| == 4 * |ws|
  {
    if ws == [] then [] else Stream(ws[..|ws| - 1]) + WordBytes(ws[|ws| - 1])
  }

  lemma {:induction false} StreamAt(ws: seq<Word>, i: nat)
    requires i < |ws|
    ensures Stream(ws)[4 * i..4 * i + 4] == WordBytes(ws[i])
  {
    var n := |ws| - 1;
    if i < n {
      StreamAt(ws[..n], i);
      assert Stream(ws)[4 * i..4 * i + 4] == Stream(ws[..n])[4 * i..4 * i + 4];
    }
  }

  /** `w25q128jw_sanity_checks`, the sum wrapping at 32 bits. */
  function SanityChecks(addr: nat, hasData: bool, length: nat): Status {
    if addr > MAX_FLASH_ADDR then FlashError
    else if !hasData then FlashError
    else if length == 0 then FlashError
    else if (addr + length) % 0x1_0000_0000 > MAX_FLASH_ADDR then FlashError
    else FlashOk
  }

  /** A range is accepted when it ends inside the flash, or so far outside that its end wraps around 32 bits. */
  lemma RangeAccepted(addr: nat, length: nat)
    requires addr < 0x1_0000_0000 && length < 0x1_0000_0000
    ensures SanityChecks(addr, true, length) == FlashOk <==>
      addr <= MAX_FLASH_ADDR && length > 0 && (addr + length <= MAX_FLASH_ADDR || addr + length >= 0x1_0000_0000)
  {
  }

  class Driver {
    const dev: Device
    const sectorData: array<bv8>
    /** RX FIFO depth in bytes. */
    const depth: nat
    var tx: seq<Word>
    /** Words the device has still to deliver, of which `level` are sure to be in the FIFO. */
    var rx: seq<Word>
    var level: nat

    ghost predicate Valid()
      reads this, dev
    {
      && |dev.cells| == FLASH_SIZE && sectorData.Length == SECTOR
      && depth > 0 && depth % 4 == 0 && tx == [] && rx == []
    }

    constructor (dev: Device, depth: nat)
      requires |dev.cells| == FLASH_SIZE && depth > 0 && depth % 4 == 0
      ensures Valid() && this.dev == dev && this.depth == depth && fresh(sectorData)
    {
      this.dev, this.depth := dev, depth;
      sectorData := new bv8[SECTOR];
      tx, rx, level := [], [], 0;
    }

    /** Start a read segment: the bytes arrive in words, the end of the last one being junk. */
    method StartRead(addr: nat, length: nat)
      requires addr + length <= |dev.cells| && length > 0
      modifies this`rx, this`level
      ensures |rx| == (length + 3) / 4 && level == 0
      ensures Stream(rx)[..length] == dev.cells[addr..addr + length]
    {
      rx, level := [], 0;
      var n := (length + 3) / 4;
      var junk0: bv8, junk1: bv8, junk2: bv8 := *, *, *;
      var bytes := dev.cells[addr..addr + length] + [junk0, junk1, junk2];
      for i := 0 to n
        invariant |rx| == i && Stream(rx) == bytes[..4 * i]
      {
        var w := Word(bytes[4 * i], bytes[4 * i + 1], bytes[4 * i + 2], bytes[4 * i + 3]);
        assert (rx + [w])[..i] == rx;
        rx := rx + [w];
        assert bytes[..4 * (i + 1)] == bytes[..4 * i] + WordBytes(w);
      }
      level := 0;
      assert bytes[..4 * n][..length] == dev.cells[addr..addr + length];
    }

    /** `spi_set_rx_watermark` and `spi_wait_for_rx_watermark`; it would hang for words never sent. */
    method WaitForRx(watermark: nat)
      requires watermark <= |rx| && 4 * watermark <= depth
      modifies this`level
      ensures level == if old(level) < watermark then watermark else old(level)
    {
      if level < watermark {
        level := watermark;
      }
    }

    method ReadWord() returns (w: Word)
      requires 0 < level <= |rx|
      modifies this`rx, this`level
      ensures w == old(rx[0]) && rx == old(rx[1..]) && level == old(level) - 1
    {
      w := rx[0];
      rx := rx[1..];
      level := level - 1;
    }

    /** Words `from` to `to` of the stream go to the same places of the buffer. */
    method ReadWords(data: array<bv8>, from: nat, to: nat, ghost ws: seq<Word>, ghost limit: nat)
      requires from <= to <= |ws| && rx == ws[from..] && to - from <= level <= |rx| && 4 * to <= limit <= data.Length
      requires data[..4 * from] == Stream(ws)[..4 * from]
      modifies this`rx, this`level, data
      ensures rx == ws[to..] && level == old(level) - (to - from)
      ensures data[..4 * to] == Stream(ws)[..4 * to]
      ensures data[limit..] == old(data[limit..])
    {
      for i := from to to
        invariant rx == ws[i..] && level == old(level) - (i - from)
        invariant data[..4 * i] == Stream(ws)[..4 * i]
        invariant data[limit..] == old(data[limit..])
      {
        var w := ReadWord();
        StoreWord(data, i, w, ws, limit);
      }
    }

    /** `spi_read_word` into the buffer: a full word. */
    method StoreWord(data: array<bv8>, i: nat, w: Word, ghost ws: seq<Word>, ghost limit: nat)
      requires i < |ws| && w == ws[i] && 4 * i + 4 <= limit <= data.Length && data[..4 * i] == Stream(ws)[..4 * i]
      modifies data
      ensures data[..4 * (i + 1)] == Stream(ws)[..4 * (i + 1)] && data[limit..] == old(data[limit..])
    {
      StreamAt(ws, i);
      data[4 * i], data[4 * i + 1], data[4 * i + 2], data[4 * i + 3] := w.b0, w.b1, w.b2, w.b3;
      FourMore(data[..4 * i + 4], Stream(ws), i, w);
    }

    /** The bytes left over after the last whole word. */
    method ReadTail(data: array<bv8>, length: nat, tail: nat, ghost ws: seq<Word>)
      requires tail == length % 4 != 0 && length <= data.Length && |ws| == (length + 3) / 4
      requires rx == ws[length / 4..] && level == 1
      requires data[..length / 4 * 4] == Stream(ws)[..length / 4 * 4]
      modifies this`rx, this`level, data
      ensures rx == [] && data[..length] == Stream(ws)[..length] && data[length..] == old(data[length..])
    {
      var n := length / 4;
      assert |ws| == n + 1 && 4 * n < length;
      var w := ReadWord();
      assert rx == ws[n + 1..] == [];
      StreamAt(ws, n);
      var last := WordBytes(w);
      for j := 0 to tail
        invariant rx == [] && data[..4 * n + j] == Stream(ws)[..4 * n + j]
        invariant data[length..] == old(data[length..])
      {
        data[4 * n + j] := last[j];
        assert Stream(ws)[4 * n + j] == Stream(ws)[4 * n..4 * n + 4][j];
        assert data[..4 * n + j + 1] == data[..4 * n + j] + [last[j]];
      }
    }

    /** The first `done` words of `ws` have been taken, and nothing from `limit` on has been written. */
    ghost predicate Taken(ws: seq<Word>, done: nat, data: array<bv8>, limit: nat, rest: Bytes)
      reads this, data
    {
      && done <= |ws| && 4 * done <= limit <= data.Length && rx == ws[done..]
      && data[..4 * done] == Stream(ws)[..4 * done] && data[limit..] == rest
    }

    /** A turn that empties a full FIFO. */
    method FullTurn(data: array<bv8>, iStart: nat, ghost ws: seq<Word>, ghost limit: nat, ghost rest: Bytes)
      requires depth > 0 && depth % 4 == 0 && 4 * iStart + depth <= limit && |ws| == (limit + 3) / 4
      requires Taken(ws, iStart, data, limit, rest) && level == 0
      modifies this`rx, this`level, data
      ensures Taken(ws, iStart + depth / 4, data, limit, rest) && level == 0
    {
      var toRead := 4 * iStart + depth;
      assert toRead / 4 == iStart + depth / 4;
      WaitForRx(depth / 4);
      ReadWords(data, iStart, toRead / 4, ws, limit);
    }

    /** The last turn: the whole words that are left; the FIFO may still hold a partial one. */
    method LastTurn(data: array<bv8>, iStart: nat, length: nat, ghost ws: seq<Word>, ghost limit: nat,
                    ghost rest: Bytes)
      requires depth > 0 && depth % 4 == 0 && 4 * iStart + length == limit && length < depth && |ws| == (limit + 3) / 4
      requires Taken(ws, iStart, data, limit, rest) && level == 0
      modifies this`rx, this`level, data
      ensures Taken(ws, limit / 4, data, limit, rest) && level == if limit % 4 == 0 then 0 else 1
    {
      var watermark, toRead := if length % 4 == 0 then length / 4 else length / 4 + 1, 4 * iStart + length;
      LastWords(iStart, length, limit, depth, watermark, toRead / 4);
      WaitForRx(watermark);
      ReadWords(data, iStart, toRead / 4, ws, limit);
    }

    /** The drain loop of `w25q128jw_read_standard` and `_quad`: `ceil(length / 4)` words, in order. */
    method Drain(data: array<bv8>, length0: nat)
      requires depth > 0 && depth % 4 == 0 && length0 <= data.Length
      requires |rx| == (length0 + 3) / 4 && level == 0
      modifies this`rx, this`level, data
      ensures rx == []
      ensures data[..length0] == old(Stream(rx))[..length0] && data[length0..] == old(data[length0..])
    {
      ghost var ws, rest := rx, data[length0..];
      var flag := true;
      var iStart: nat, length: nat := 0, length0;
      while flag
        invariant |ws| == (length0 + 3) / 4 && 4 * iStart + length == length0
        invariant Taken(ws, if flag then iStart else length0 / 4, data, length0, rest)
        invariant level == if flag || length0 % 4 == 0 then 0 else 1
        decreases flag, length
      {
        if length >= depth {
          FullTurn(data, iStart, ws, length0, rest);
          length := length - depth;
          iStart := iStart + depth / 4;
        } else {
          LastTurn(data, iStart, length, ws, length0, rest);
          flag := false;
        }
      }
      FinishDrain(data, length0, length % 4, ws, rest);
    }

    /** Take into account the extra bytes, if any. */
    method FinishDrain(data: array<bv8>, length0: nat, tail: nat, ghost ws: seq<Word>, ghost rest: Bytes)
      requires tail == length0 % 4 && |ws| == (length0 + 3) / 4
      requires Taken(ws, length0 / 4, data, length0, rest) && level == if length0 % 4 == 0 then 0 else 1
      modifies this`rx, this`level, data
      ensures rx == [] && data[..length0] == Stream(ws)[..length0] && data[length0..] == rest
    {
      if length0 % 4 != 0 {
        ReadTail(data, length0, tail, ws);
      }
    }

    /** `w25q128jw_read_standard` */
    method ReadStandard(addr: nat, data: array<bv8>, length: nat) returns (status: Status)
      requires Valid() && length <= data.Length && length < 0x8000_0000
      modifies this`rx, this`level, data
      ensures Valid() && status == SanityChecks(addr, true, length)
      ensures status == FlashOk ==> addr + length <= FLASH_SIZE && data[..length] == dev.cells[addr..addr + length]
      ensures data[if status == FlashOk then length else 0..] == old(data[if status == FlashOk then length else 0..])
    {
      status := SanityChecks(addr, true, length);
      if status != FlashOk {
        return;
      }
      StartRead(addr, length);
      Drain(data, length);
    }

    /** Send `length` bytes of the buffer, from `off` on, through the TX FIFO: whole words, then a padded one. */
    method FillTx(data: array<bv8>, off: nat, length: nat)
      requires tx == [] && off + length <= data.Length
      modifies this`tx
      ensures |tx| == (length + 3) / 4 && Stream(tx)[..length] == data[off..off + length]
    {
      ghost var bytes := data[off..off + length];
      for i := 0 to length / 4
        invariant |tx| == i && Stream(tx) == bytes[..4 * i]
      {
        var k := off + 4 * i;
        PushWord(Word(data[k], data[k + 1], data[k + 2], data[k + 3]));
        NextFour(bytes, i);
      }
      if length % 4 != 0 {
        FillLast(data, off, length, bytes);
      } else {
        assert bytes[..length] == bytes;
      }
    }

    /** The padded word that carries the last one to three bytes. */
    method FillLast(data: array<bv8>, off: nat, length: nat, ghost bytes: Bytes)
      requires length % 4 != 0 && off + length <= data.Length && bytes == data[off..off + length]
      requires |tx| == length / 4 && Stream(tx) == bytes[..4 * (length / 4)]
      modifies this`tx
      ensures |tx| == (length + 3) / 4 && Stream(tx)[..length] == bytes
    {
      var k, r := off + length - length % 4, length % 4;
      var last := Word(data[k], if r > 1 then data[k + 1] else 0, if r > 2 then data[k + 2] else 0, 0);
      PushWord(last);
      PaddedTail(bytes, length / 4, r, last);
    }

    method PushWord(w: Word)
      modifies this`tx
      ensures tx == old(tx) + [w] && Stream(tx) == old(Stream(tx)) + WordBytes(w)
    {
      tx := tx + [w];
      assert tx[..|tx| - 1] == old(tx);
    }

    /**
     * `page_write`: enable writing, fill the FIFO, and program what the segment sends; the command has 24 address bits.
     */
    method PageWrite(addr: nat, data: array<bv8>, off: nat, length: nat)
      requires Valid() && off + length <= data.Length && 0 < length <= PAGE
      modifies this`tx, dev
      ensures Valid() && dev.cells == PageProgrammed(old(dev.cells), Cut(addr, FLASH_SIZE), data[off..off + length])
    {
      dev.WriteEnable();
      FillTx(data, off, length);
      dev.PageProgram(Cut(addr, FLASH_SIZE), Stream(tx)[..length]);
      tx := [];
    }

    /** A piece of a longer write that stays inside one page. */
    method PagePiece(addr: nat, data: array<bv8>, off: nat, length: nat, ghost c0: Bytes, ghost addr0: nat,
                     ghost off0: nat)
      requires Valid() && off0 <= off && off + length <= data.Length && 0 < length && addr % PAGE + length <= PAGE
      requires addr == addr0 + (off - off0) && |c0| == FLASH_SIZE &&
        dev.cells == ProgrammedAround(c0, addr0, data[off0..off])
      modifies this`tx, dev
      ensures Valid() && dev.cells == ProgrammedAround(c0, addr0, data[off0..off + length])
    {
      PageWrite(addr, data, off, length);
      InsideFlash(addr, length);
      ProgramInPage(ProgrammedAround(c0, addr0, data[off0..off]), Cut(addr, FLASH_SIZE), data[off..off + length]);
      ProgramOn(c0, addr0, data[off0..off], data[off..off + length]);
      assert data[off0..off] + data[off..off + length] == data[off0..off + length];
    }

    /** The first piece of a write that does not start a page: up to the page boundary, if it reaches that far. */
    method FirstPiece(addr0: nat, data: array<bv8>, off0: nat, length0: nat) returns (tmpLen: nat)
      requires Valid() && off0 + length0 <= data.Length && length0 > 0 && addr0 % PAGE != 0
      modifies this`tx, dev
      ensures Valid() && 0 < tmpLen <= length0 && (tmpLen < length0 ==> (addr0 + tmpLen) % PAGE == 0)
      ensures dev.cells == ProgrammedAround(old(dev.cells), addr0, data[off0..off0 + tmpLen])
    {
      tmpLen := (PAGE - addr0 % PAGE) % 256;
      tmpLen := (if tmpLen < length0 then tmpLen else length0) % 256;
      ToBoundary(addr0, length0, tmpLen);
      PagePiece(addr0, data, off0, tmpLen, dev.cells, addr0, off0);
    }

    /**
     * `page_write_wrapper`: pieces of 1 to 256 bytes, none of which crosses a page boundary. A range whose end wraps
     * around 32 bits is accepted and programmed around the flash.
     */
    method PageWriteWrapper(addr0: nat, data: array<bv8>, off0: nat, length0: nat) returns (status: Status)
      requires Valid() && off0 + length0 <= data.Length && addr0 < 0x1_0000_0000 && length0 < 0x1_0000_0000
      modifies this`tx, dev
      ensures Valid() && status == SanityChecks(addr0, true, length0)
      ensures dev.cells ==
        if status == FlashOk then ProgrammedAround(old(dev.cells), addr0, data[off0..off0 + length0])
          else old(dev.cells)
      ensures status == FlashOk && addr0 + length0 < 0x1_0000_0000 ==>
        dev.cells == Programmed(old(dev.cells), addr0, data[off0..off0 + length0])
      ensures status == FlashOk && addr0 + length0 < 0x1_0000_0000 ==> forall a :: 0 <= a < FLASH_SIZE ==>
        dev.cells[a] ==
        if addr0 <= a < addr0 + length0 then old(dev.cells)[a] & data[off0 + a - addr0] else old(dev.cells)[a]
    {
      status := SanityChecks(addr0, true, length0);
      if status != FlashOk {
        return;
      }
      ghost var c0 := dev.cells;
      WritePieces(addr0, data, off0, length0);
      UncutRange(c0, addr0, data[off0..off0 + length0]);
    }

    /** The first piece, up to a page boundary, and the pages after it. */
    method WritePieces(addr0: nat, data: array<bv8>, off0: nat, length0: nat)
      requires Valid() && off0 + length0 <= data.Length && length0 > 0
      modifies this`tx, dev
      ensures Valid() && dev.cells == ProgrammedAround(old(dev.cells), addr0, data[off0..off0 + length0])
    {
      ghost var c0 := dev.cells;
      var done: nat := 0;
      if addr0 % PAGE != 0 {
        done := FirstPiece(addr0, data, off0, length0);
      }
      if done < length0 {
        WritePages(addr0 + done, data, off0 + done, length0 - done, c0, addr0, off0, off0 + length0);
      }
    }

    /** The page loop: whole pages, and a last piece of at most a page. */
    method WritePages(addr1: nat, data: array<bv8>, off1: nat, length1: nat, ghost c0: Bytes, ghost addr0: nat,
                      ghost off0: nat, ghost end: nat)
      requires Valid() && off0 <= off1 && off1 + length1 == end <= data.Length && length1 > 0
      requires addr1 % PAGE == 0 && addr1 == addr0 + (off1 - off0) && |c0| == FLASH_SIZE
      requires dev.cells == ProgrammedAround(c0, addr0, data[off0..off1])
      modifies this`tx, dev
      ensures Valid() && dev.cells == ProgrammedAround(c0, addr0, data[off0..end])
    {
      var addr: nat, off: nat, length: nat := addr1, off1, length1;
      var flag := true;
      while flag
        invariant Valid() && off1 <= off && addr == addr0 + (off - off0) && off + length == end
        invariant flag ==> addr % PAGE == 0 && length > 0 && dev.cells == ProgrammedAround(c0, addr0, data[off0..off])
        invariant !flag ==> dev.cells == ProgrammedAround(c0, addr0, data[off0..end])
        decreases flag, length
      {
        if length > PAGE {
          PagePiece(addr, data, off, PAGE, c0, addr0, off0);
          NextPage(addr);
          addr, off, length := addr + PAGE, off + PAGE, length - PAGE;
        } else {
          PagePiece(addr, data, off, length, c0, addr0, off0);
          flag := false;
        }
      }
    }

    /** `w25q128jw_4k_erase` */
    method Erase4k(addr: nat) returns (status: Status)
      requires Valid()
      modifies dev
      ensures Valid()
      ensures dev.cells == if addr > MAX_FLASH_ADDR then old(dev.cells) else SectorErased(old(dev.cells), addr)
      ensures status == if addr > MAX_FLASH_ADDR then FlashError else FlashOk
    {
      if addr > MAX_FLASH_ADDR {
        return FlashError;
      }
      dev.WriteEnable();
      dev.SectorErase(addr);
      status := FlashOk;
    }

    /**
     * `erase_and_write` and its per-mode variants: sector by sector, read, erase, change and
     * program back.  Reading the last sector fails the sanity check, so a write succeeds
     * exactly when it ends at or below 0xFFF000; one that does not is done up to there.
     */
    method EraseAndWrite(addr: nat, data: array<bv8>, length: nat) returns (status: Status)
      requires Valid() && length <= data.Length && data != sectorData && addr < 0x1_0000_0000 && length < 0x1_0000_0000
      modifies this, dev, sectorData
      ensures Valid()
      ensures status == FlashOk <==> length == 0 || addr + length <= 0xFFF000
      ensures forall a :: 0 <= a < FLASH_SIZE ==>
        dev.cells[a] == if addr <= a < addr + length && a < 0xFFF000 then data[a - addr] else old(dev.cells)[a]
    {
      ghost var c0 := dev.cells;
      var remaining: nat, current: nat, off: nat := length, addr, 0;
      while remaining > 0
        invariant Valid() && off + remaining == length && current == addr + off
        invariant current < 0x1_0000_0000
        invariant off <= Reach(addr, length)
        invariant forall a :: 0 <= a < FLASH_SIZE ==>
          dev.cells[a] == if addr <= a < addr + off then data[a - addr] else c0[a]
        decreases remaining
      {
        var inSector := SECTOR - current % SECTOR;
        var n := if inSector < remaining then inSector else remaining;
        TurnReaches(addr, length, off, n);
        status := RewriteOneSector(current, data, off, n);
        if status != FlashOk {
          return;
        }
        remaining, current, off := remaining - n, current + n, off + n;
      }
      status := FlashOk;
    }

    /** Bytes written below the last sector are read back, and no other byte of the flash has changed. */
    method WriteAndReadBack(addr: nat, data: array<bv8>, buf: array<bv8>, length: nat) returns (status: Status)
      requires Valid() && 0 < length <= data.Length && length <= buf.Length && addr + length <= 0xFFF000
      requires data != sectorData && buf != sectorData && buf != data
      modifies this, dev, sectorData, buf
      ensures Valid() && status == FlashOk && buf[..length] == data[..length]
      ensures dev.cells[..addr] == old(dev.cells)[..addr] &&
        dev.cells[addr + length..] == old(dev.cells)[addr + length..]
    {
      status := EraseAndWrite(addr, data, length);
      status := ReadStandard(addr, buf, length);
    }

    /** One turn of the loop: replace `n` bytes in the sector of `current`. */
    method RewriteOneSector(current: nat, data: array<bv8>, off: nat, n: nat) returns (status: Status)
      requires Valid() && data != sectorData && off + n <= data.Length && current % SECTOR + n <= SECTOR
      requires current < 0x1_0000_0000
      modifies this, dev, sectorData
      ensures Valid() && (status == FlashOk <==> current < 0xFFF000)
      ensures status != FlashOk ==> dev.cells == old(dev.cells)
      ensures status == FlashOk ==> forall a :: 0 <= a < FLASH_SIZE ==>
        dev.cells[a] == if current <= a < current + n then data[off + a - current] else old(dev.cells)[a]
    {
      var start := current / SECTOR * SECTOR;
      SectorStart(current, n);
      SectorReadable(start);
      status := ReadStandard(start, sectorData, SECTOR);
      if status != FlashOk {
        return FlashError;
      }
      assert sectorData[..] == sectorData[..SECTOR];
      status := Reprogram(start, data, off, n, current - start);
    }

    /** Erase a sector whose contents are in the buffer, change the buffer, and program it back. */
    method Reprogram(start: nat, data: array<bv8>, off: nat, n: nat, at: nat) returns (status: Status)
      requires Valid() && data != sectorData && off + n <= data.Length && at + n <= SECTOR
      requires start % SECTOR == 0 && start < 0xFFF000 && sectorData[..] == dev.cells[start..start + SECTOR]
      modifies this`tx, dev, sectorData
      ensures Valid() && status == FlashOk
      ensures forall a :: 0 <= a < FLASH_SIZE ==>
        dev.cells[a] == if start + at <= a < start + at + n then data[off + a - start - at] else old(dev.cells)[a]
    {
      ghost var c := dev.cells;
      var erased := Erase4k(start);
      RewriteInRam(data, off, n, at);
      status := ProgramSector(start);
      SectorRewritten(c, dev.cells, start, at, data[..], off, n, sectorData[..]);
    }

    method ProgramSector(start: nat) returns (status: Status)
      requires Valid() && start % SECTOR == 0 && start < 0xFFF000
      modifies this`tx, dev
      ensures Valid() && status == FlashOk && dev.cells == Programmed(old(dev.cells), start, sectorData[..])
    {
      SectorReadable(start);
      status := PageWriteWrapper(start, sectorData, 0, SECTOR);
      assert sectorData[0..0 + SECTOR] == sectorData[..];
    }

    /** The `memcpy` of the new data into the sector buffer. */
    method RewriteInRam(data: array<bv8>, off: nat, n: nat, at: nat)
      requires data != sectorData && off + n <= data.Length && at + n <= sectorData.Length
      modifies sectorData
      ensures forall k :: 0 <= k < sectorData.Length ==>
        sectorData[k] == if at <= k < at + n then data[off + k - at] else old(sectorData[k])
    {
      for i := 0 to n
        invariant forall k :: 0 <= k < sectorData.Length ==>
          sectorData[k] == if at <= k < at + i then data[off + k - at] else old(sectorData[k])
      {
        sectorData[at + i] := data[off + i];
      }
    }
  }

  /** The sector programmed back: the new bytes in place, and every other cell as it was. */
  lemma SectorRewritten(c: Bytes, now: Bytes, start: nat, at: nat, data: Bytes, off: nat, n: nat, sector: Bytes)
    requires start % SECTOR == 0 && start + SECTOR <= |c| && at + n <= SECTOR == |sector| && off + n <= |data|
    requires now == Programmed(SectorErased(c, start), start, sector)
    requires forall k :: 0 <= k < SECTOR ==> sector[k] == if at <= k < at + n then data[off + k - at] else c[start + k]
    ensures forall a :: 0 <= a < |c| ==>
      now[a] == if start + at <= a < start + at + n then data[off + a - start - at] else c[a]
  {
    RewriteSector(c, start, at, data[off..off + n], sector);
  }

  /** The sector of an address, and which sectors can be read whole. */
  lemma SectorStart(current: nat, n: nat)
    requires current % SECTOR + n <= SECTOR
    ensures var start := current / SECTOR * SECTOR;
      start % SECTOR == 0 && start <= current && current + n <= start + SECTOR && current - start == current % SECTOR &&
      (start < 0xFFF000 <==> current < 0xFFF000)
  {
  }

  lemma SectorReadable(start: nat)
    requires start % SECTOR == 0 && start < 0x1_0000_0000
    ensures SanityChecks(start, true, SECTOR) == FlashOk <==> start < 0xFFF000
  {
    RangeAccepted(start, SECTOR);
  }

  lemma NextFour(bytes: Bytes, i: nat)
    requires 4 * i + 4 <= |bytes|
    ensures bytes[..4 * (i + 1)]
         == bytes[..4 * i] + WordBytes(Word(bytes[4 * i], bytes[4 * i + 1], bytes[4 * i + 2], bytes[4 * i + 3]))
  {
  }

  /** A piece of a page lies in one page of the flash, whatever the upper address bits are. */
  lemma InsideFlash(addr: nat, length: nat)
    requires addr % PAGE + length <= PAGE
    ensures Cut(addr, FLASH_SIZE) % PAGE == addr % PAGE && Cut(addr, FLASH_SIZE) + length <= FLASH_SIZE
  {
    var u, r := addr / 0x100_0000, addr % 0x100_0000;
    var p, o := r / 256, r % 256;
    assert addr == (u * 0x1_0000 + p) * 256 + o;
    DivMod(u * 0x1_0000 + p, 256, o);
  }

  /** The first piece of a write is not cut to eight bits, and ends at the page boundary or with the data. */
  lemma ToBoundary(addr: nat, length: nat, n: nat)
    requires addr % PAGE != 0 && length > 0
    requires var rest := (PAGE - addr % PAGE) % 256; n == (if rest < length then rest else length) % 256
    ensures 0 < n <= length && addr % PAGE + n <= PAGE && (n < length ==> (addr + n) % PAGE == 0)
  {
    var r := addr % PAGE;
    assert (PAGE - r) % 256 == PAGE - r;
    if PAGE - r < length {
      DivMod(addr / PAGE + 1, PAGE, 0);
    }
  }

  lemma NextPage(addr: nat)
    requires addr % PAGE == 0
    ensures (addr + PAGE) % PAGE == 0
  {
  }

  lemma UncutRange(cells: Bytes, addr: nat, data: Bytes)
    requires |cells| == FLASH_SIZE && |data| < 0x1_0000_0000 && SanityChecks(addr, true, |data|) == FlashOk
    ensures addr + |data| < 0x1_0000_0000 ==> ProgrammedAround(cells, addr, data) == Programmed(cells, addr, data)
  {
    RangeAccepted(addr, |data|);
    if addr + |data| < 0x1_0000_0000 {
      NotAround(cells, addr, data);
    }
  }

  lemma PaddedTail(bytes: Bytes, n: nat, r: nat, last: Word)
    requires |bytes| == 4 * n + r && 0 < r < 4
    requires last.b0 == bytes[4 * n] && (r > 1 ==> last.b1 == bytes[4 * n + 1]) &&
      (r > 2 ==> last.b2 == bytes[4 * n + 2])
    ensures (bytes[..4 * n] + WordBytes(last))[..4 * n + r] == bytes
  {
    var l := bytes[..4 * n] + WordBytes(last);
    forall k | 0 <= k < 4 * n + r
      ensures l[k] == bytes[k]
    {
      if k >= 4 * n {
        assert l[k] == WordBytes(last)[k - 4 * n];
      }
    }
  }

  /** How much of a write stays below the last sector, which the driver cannot read. */
  function Reach(addr: nat, length: nat): (n: nat)
    ensures n <= length
  {
    if addr + length <= 0xFFF000 then length else if addr <= 0xFFF000 then 0xFFF000 - addr else 0
  }

  /** A turn below the last sector stays below it; one at the last sector has done all that can be done. */
  lemma TurnReaches(addr: nat, length: nat, off: nat, n: nat)
    requires 0 < n && off + n <= length && off <= Reach(addr, length) && (addr + off) % SECTOR + n <= SECTOR
    ensures if addr + off < 0xFFF000 then addr + off + n <= 0xFFF000 && off + n <= Reach(addr, length)
            else off == Reach(addr, length)
  {
    SectorStart(addr + off, n);
  }

  /** What the last turn waits for and reads: the words left, of which a partial one is not read by the loop. */
  lemma LastWords(iStart: nat, length: nat, limit: nat, depth: nat, watermark: nat, end: nat)
    requires 4 * iStart + length == limit && length < depth && depth % 4 == 0
    requires watermark == if length % 4 == 0 then length / 4 else length / 4 + 1
    requires end == (4 * iStart + length) / 4
    ensures iStart + watermark == (limit + 3) / 4 && 4 * watermark <= depth
    ensures end == limit / 4 && iStart <= end && end - iStart == watermark - if limit % 4 == 0 then 0 else 1
  {
    var q, r := length / 4, length % 4;
    DivMod(iStart + q, 4, r);
    if r == 0 {
      DivMod(iStart + q, 4, 3);
    } else {
      DivMod(iStart + q + 1, 4, r - 1);
    }
  }

  lemma FourMore(d: Bytes, s: Bytes, i: nat, w: Word)
    requires |d| == 4 * i + 4 <= |s| && d[..4 * i] == s[..4 * i] && s[4 * i..4 * i + 4] == WordBytes(w)
    requires d[4 * i] == w.b0 && d[4 * i + 1] == w.b1 && d[4 * i + 2] == w.b2 && d[4 * i + 3] == w.b3
    ensures d == s[..4 * i + 4]
  {
    forall k | 0 <= k < 4 * i + 4
      ensures d[k] == s[k]
    {
      if k < 4 * i {
        assert d[k] == d[..4 * i][k];
      } else {
        assert s[k] == s[4 * i..4 * i + 4][k - 4 * i];
      }
    }
  }
}
