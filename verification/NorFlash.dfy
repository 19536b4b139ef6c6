/**
 * The W25Q128JW flash as the driver sees it: bits are only cleared by programming, which
 * stays inside one 256-byte page and wraps around there; erasing sets a whole 4 KiB sector.
 */
module NorFlash {

  import opened IntegerFacts

  const FLASH_SIZE: nat := 0x100_0000
  const PAGE: nat := 256
  const SECTOR: nat := 4096

  type Bytes = seq<bv8>

  /** What a page program of `data` at `addr` leaves, with the wrap-around inside the page. */
  function PageProgrammed(cells: Bytes, addr: nat, data: Bytes): (r: Bytes)
    ensures |r| == |cells|
  {
    seq(|cells|, a requires 0 <= a < |cells| =>
      var o := (a % PAGE + PAGE - addr % PAGE) % PAGE;
      if a / PAGE == addr / PAGE && o < |data| then cells[a] & data[o] else cells[a])
  }

  /** What programming does to a plain range of cells. */
  function Programmed(cells: Bytes, addr: nat, data: Bytes): (r: Bytes)
    ensures |r| == |cells|
  {
    seq(|cells|, a requires 0 <= a < |cells| =>
      if addr <= a < addr + |data| then cells[a] & data[a - addr] else cells[a])
  }

  function ProgramByte(cells: Bytes, a: nat, x: bv8): (r: Bytes)
    requires a < |cells|
    ensures |r| == |cells|
  {
    cells[a := cells[a] & x]
  }

  /** An address cut to the size of the flash. */
  function Cut(addr: nat, size: nat): (a: nat)
    requires size > 0
    ensures a < size && (addr < size ==> a == addr)
  {
    addr % size
  }

  /** Programming byte after byte, each address cut to the size of the flash. */
  function ProgrammedAround(cells: Bytes, addr: nat, data: Bytes): (r: Bytes)
    requires |cells| > 0
    ensures |r| == |cells|
    decreases |data|
  {
    if data == [] then cells
    else
      var n := |data| - 1;
      ProgramByte(ProgrammedAround(cells, addr, data[..n]), Cut(addr + n, |cells|), data[n])
  }

  /** A range inside the flash is not cut. */
  lemma {:induction false} NotAround(cells: Bytes, addr: nat, data: Bytes)
    requires |cells| > 0 && addr + |data| <= |cells|
    ensures ProgrammedAround(cells, addr, data) == Programmed(cells, addr, data)
    decreases |data|
  {
    if data != [] {
      NotAround(cells, addr, data[..|data| - 1]);
      ProgramOne(cells, addr, data);
    }
  }

  lemma ProgramOne(cells: Bytes, addr: nat, data: Bytes)
    requires |data| > 0 && addr + |data| <= |cells|
    ensures var n := |data| - 1;
      Programmed(cells, addr, data) == ProgramByte(Programmed(cells, addr, data[..n]), addr + n, data[n])
  {
  }

  /** A range that is not cut continues a programming that may have been. */
  lemma {:induction false} ProgramOn(cells: Bytes, addr: nat, d1: Bytes, d2: Bytes)
    requires |cells| > 0 && Cut(addr + |d1|, |cells|) + |d2| <= |cells|
    ensures Programmed(ProgrammedAround(cells, addr, d1), Cut(addr + |d1|, |cells|), d2)
      == ProgrammedAround(cells, addr, d1 + d2)
    decreases |d2|
  {
    if d2 == [] {
      assert d1 + d2 == d1;
    } else {
      var n := |d2| - 1;
      ProgramOn(cells, addr, d1, d2[..n]);
      ProgramOne(ProgrammedAround(cells, addr, d1), Cut(addr + |d1|, |cells|), d2);
      CutOn(addr + |d1|, n, |cells|);
      assert (d1 + d2)[..|d1| + n] == d1 + d2[..n];
    }
  }

  lemma CutOn(x: nat, n: nat, size: nat)
    requires size > 0 && Cut(x, size) + n < size
    ensures Cut(x + n, size) == Cut(x, size) + n
  {
    DivBounds(x, size);
    DivMod(x / size, size, x % size + n);
  }

  lemma BothHave(x: bv8, y: bv8, m: bv8)
    ensures (x & y) & m == m <==> x & m == m && y & m == m
  {
  }

  /** Every byte that is programmed at the cell `a` of `size` cells has the bits of `m`. */
  ghost predicate AllHave(data: Bytes, addr: nat, size: nat, a: nat, m: bv8)
    requires size > 0
  {
    forall k {:trigger data[k]} :: 0 <= k < |data| && (addr + k) % size == a ==> data[k] & m == m
  }

  lemma AllHaveOneMore(data: Bytes, addr: nat, size: nat, a: nat, m: bv8, n: nat)
    requires size > 0 && n + 1 == |data|
    ensures AllHave(data, addr, size, a, m) <==>
      AllHave(data[..n], addr, size, a, m) && (Cut(addr + n, size) == a ==> data[n] & m == m)
  {
    assert data == data[..n] + [data[n]];
  }

  /** Bits are only cleared: a cell keeps those that it and every byte programmed at its address have. */
  lemma {:induction false} BitsKept(cells: Bytes, addr: nat, data: Bytes, a: nat, m: bv8)
    requires a < |cells|
    ensures ProgrammedAround(cells, addr, data)[a] & m == m <==>
      cells[a] & m == m && AllHave(data, addr, |cells|, a, m)
    decreases |data|
  {
    if data != [] {
      var n := |data| - 1;
      BitsKept(cells, addr, data[..n], a, m);
      BothHave(ProgrammedAround(cells, addr, data[..n])[a], data[n], m);
      AllHaveOneMore(data, addr, |cells|, a, m, n);
    }
  }

  function SectorErased(cells: Bytes, addr: nat): (r: Bytes)
    ensures |r| == |cells|
  {
    seq(|cells|, a requires 0 <= a < |cells| => if a / SECTOR == addr / SECTOR then 0xFF else cells[a])
  }

  /** Inside one page nothing wraps. */
  lemma ProgramInPage(cells: Bytes, addr: nat, data: Bytes)
    requires addr % PAGE + |data| <= PAGE
    ensures PageProgrammed(cells, addr, data) == Programmed(cells, addr, data)
  {
    forall a | 0 <= a < |cells|
      ensures PageProgrammed(cells, addr, data)[a] == Programmed(cells, addr, data)[a]
    {
      OffsetInPage(addr, |data|, a);
    }
  }

  lemma OffsetInPage(addr: nat, n: nat, a: nat)
    requires addr % PAGE + n <= PAGE
    ensures var o := (a % PAGE + PAGE - addr % PAGE) % PAGE;
      (a / PAGE == addr / PAGE && o < n <==> addr <= a < addr + n) && (addr <= a < addr + n ==> o == a - addr)
  {
    var p, r := addr / PAGE, addr % PAGE;
    var q, t := a / PAGE, a % PAGE;
    assert addr == 256 * p + r && a == 256 * q + t;
    if q == p {
      assert t >= r ==> (t + 256 - r) % 256 == t - r;
      assert t < r ==> (t + 256 - r) % 256 == t + 256 - r;
    }
  }

  lemma AllOnes(x: bv8)
    ensures 0xFF & x == x
  {
  }

  /** Erase a sector, then program its old contents with some bytes replaced: only those change. */
  lemma RewriteSector(cells: Bytes, start: nat, offset: nat, data: Bytes, sector: Bytes)
    requires start % SECTOR == 0 && start + SECTOR <= |cells| && offset + |data| <= SECTOR && |sector| == SECTOR
    requires forall k :: 0 <= k < SECTOR ==>
      sector[k] == if offset <= k < offset + |data| then data[k - offset] else cells[start + k]
    ensures forall a :: 0 <= a < |cells| ==>
      Programmed(SectorErased(cells, start), start, sector)[a] ==
      if start + offset <= a < start + offset + |data| then data[a - start - offset] else cells[a]
  {
    forall a | 0 <= a < |cells|
      ensures Programmed(SectorErased(cells, start), start, sector)[a] ==
        if start + offset <= a < start + offset + |data| then data[a - start - offset] else cells[a]
    {
      assert a / SECTOR == start / SECTOR <==> start <= a < start + SECTOR;
      if start <= a < start + SECTOR {
        AllOnes(sector[a - start]);
      }
    }
  }

  /** The device: its cells and the write enable latch, which every accepted write clears. */
  class Device {
    var cells: Bytes
    var writeEnabled: bool

    constructor (initial: Bytes)
      requires |initial| == FLASH_SIZE
      ensures cells == initial && !writeEnabled
    {
      cells, writeEnabled := initial, false;
    }

    method WriteEnable()
      modifies this
      ensures writeEnabled && cells == old(cells)
    {
      writeEnabled := true;
    }

    method PageProgram(addr: nat, data: Bytes)
      modifies this
      ensures !writeEnabled
      ensures cells == if old(writeEnabled) then PageProgrammed(old(cells), addr, data) else old(cells)
    {
      if writeEnabled {
        cells := PageProgrammed(cells, addr, data);
      }
      writeEnabled := false;
    }

    method SectorErase(addr: nat)
      modifies this
      ensures !writeEnabled
      ensures cells == if old(writeEnabled) then SectorErased(old(cells), addr) else old(cells)
    {
      if writeEnabled {
        cells := SectorErased(cells, addr);
      }
      writeEnabled := false;
    }
  }
}
