/**
 * The objects of the SystemC test bench: memory, cache and the request loop, each
 * method tied to the state machine of CacheSpec.
 */
module CacheBench {
  import opened MachineInts
  import opened CacheSpec

  /** `MainMemory`: 32 KiB, addressed by words. */
  class MainMemory {
    const mem: array<int32>

    constructor (initial: seq<int32>)
      requires |initial| == MEM_WORDS
      ensures mem[..] == initial && fresh(mem)
    {
      mem := new int32[MEM_WORDS](i requires 0 <= i < MEM_WORDS => initial[i]);
      new;
      assert mem[..] == initial;
    }

    /** `b_transport`, for one aligned word inside the memory. */
    method Transport(write: bool, addr: nat, word: int32) returns (r: int32)
      requires addr / 4 < mem.Length
      modifies mem
      ensures mem[..] == if write then old(mem[..])[addr / 4 := word] else old(mem[..])
      ensures r == if write then word else old(mem[addr / 4])
    {
      if write {
        mem[addr / 4] := word;
        r := word;
      } else {
        r := mem[addr / 4];
      }
    }
  }

  /** `CacheMemory`, created with its default geometry. */
  class CacheMemory {
    const lines: array<Line>

    ghost predicate Valid()
      reads this, lines
    {
      lines.Length == BLOCKS && forall i :: 0 <= i < BLOCKS ==> |lines[i].data| == BLOCK_WORDS
    }

    /** `create_cache` and `initialize_cache`: every line invalid, its data arbitrary. */
    constructor (junk: seq<seq<int32>>)
      requires |junk| == BLOCKS && forall i :: 0 <= i < BLOCKS ==> |junk[i]| == BLOCK_WORDS
      ensures Valid() && fresh(lines)
      ensures forall i :: 0 <= i < BLOCKS ==> lines[i] == Line(false, 0, junk[i])
    {
      lines := new Line[BLOCKS](i requires 0 <= i < BLOCKS => Line(false, 0, junk[i]));
    }

    predicate CacheHit(addr: nat)
      requires Valid()
      reads this, lines
    {
      lines[Index(addr)].valid && Tag(addr) == lines[Index(addr)].tag
    }

    function GetAddressAtIndex(index: nat): nat
      requires Valid() && index < BLOCKS
      reads this, lines
    {
      LineAddress(lines[index].tag, index)
    }

    function GetWord(addr: nat): int32
      requires Valid()
      reads this, lines
    {
      lines[Index(addr)].data[WordInBlock(addr)]
    }

    method AddEntry(addr: nat, data: seq<int32>)
      requires Valid() && |data| == BLOCK_WORDS
      modifies lines
      ensures Valid() && lines[..] == old(lines[..])[Index(addr) := Line(true, Tag(addr), data)]
    {
      lines[Index(addr)] := Line(true, Tag(addr), data);
    }

    /** `set_word` adds the changed entry once for each byte of a block. */
    method SetWord(addr: nat, word: int32)
      requires Valid()
      modifies lines
      ensures Valid()
      ensures lines[..] == old(lines[..])[Index(addr) :=
                Line(true, Tag(addr), old(lines[Index(addr)].data)[WordInBlock(addr) := word])]
    {
      ghost var before := lines[..];
      var data := lines[Index(addr)].data[WordInBlock(addr) := word];
      for i := 0 to 16
        invariant Valid()
        invariant lines[..] == if i == 0 then before else before[Index(addr) := Line(true, Tag(addr), data)]
      {
        AddEntry(addr, data);
      }
    }
  }

  /** `MemoryRequest`: one outstanding request at a time. */
  class MemoryRequest {
    const cache: CacheMemory
    const memory: MainMemory
    const buffer: array<int32>
    var rwdata: int32
    var bypass: bool

    ghost predicate Valid()
      reads this, cache, cache.lines, memory, memory.mem, buffer
    {
      && cache.Valid() && memory.mem.Length == MEM_WORDS
      && buffer.Length == BLOCK_WORDS && buffer != memory.mem
    }

    ghost function Abstract(): (st: State)
      requires Valid()
      reads this, cache, cache.lines, memory, memory.mem, buffer
      ensures Shape(st)
    {
      State(cache.lines[..], memory.mem[..], bypass)
    }

    constructor (initial: seq<int32>, junk: seq<seq<int32>>)
      requires |initial| == MEM_WORDS && |junk| == BLOCKS
      requires forall i :: 0 <= i < BLOCKS ==> |junk[i]| == BLOCK_WORDS
      ensures Valid() && Abstract() == Reset(initial, junk)
      ensures fresh(cache) && fresh(memory) && fresh(buffer)
    {
      cache := new CacheMemory(junk);
      memory := new MainMemory(initial);
      buffer := new int32[BLOCK_WORDS];
      rwdata, bypass := 0, false;
    }

    /** `memory_copy`, reading: `n` words from `addr` on, addresses masked to 15 bits. */
    method CopyFromMemory(addr: nat)
      requires Valid()
      modifies buffer, memory.mem
      ensures Valid() && memory.mem[..] == old(memory.mem[..]) && buffer[..] == ReadBlock(memory.mem[..], addr)
    {
      for i := 0 to BLOCK_WORDS
        invariant memory.mem[..] == old(memory.mem[..])
        invariant forall j :: 0 <= j < i ==> buffer[j] == old(memory.mem[MemIndex(addr + 4 * j)])
      {
        var word := memory.Transport(false, (addr + i * 4) % 0x8000, 0);
        buffer[i] := word;
      }
    }

    /** `memory_copy`, writing. */
    method CopyToMemory(addr: nat, data: seq<int32>)
      requires Valid() && |data| == BLOCK_WORDS
      modifies memory.mem
      ensures Valid() && memory.mem[..] == WriteWords(old(memory.mem[..]), addr, data, BLOCK_WORDS)
    {
      for i := 0 to BLOCK_WORDS
        invariant memory.mem[..] == WriteWords(old(memory.mem[..]), addr, data, i)
      {
        var word := memory.Transport(true, (addr + i * 4) % 0x8000, data[i]);
      }
    }

    method FlushCache()
      requires Valid()
      modifies memory.mem
      ensures Valid() && Abstract() == Flush(old(Abstract()), BLOCKS)
    {
      for i := 0 to BLOCKS
        invariant Abstract() == Flush(old(Abstract()), i)
      {
        if cache.lines[i].valid {
          CopyToMemory(cache.GetAddressAtIndex(i), cache.lines[i].data);
        }
      }
    }

    /** The miss branch, up to the replacement of the line. */
    method Fill(addr: nat)
      requires Valid()
      modifies memory.mem, buffer, cache.lines
      ensures Valid() && Abstract() == Allocate(old(Abstract()), addr)
      ensures buffer[..] == cache.lines[Index(addr)].data
    {
      CopyFromMemory(BlockOf(addr) * 16);
      if cache.lines[Index(addr)].valid {
        CopyToMemory(cache.GetAddressAtIndex(Index(addr)), cache.lines[Index(addr)].data);
      }
      cache.AddEntry(addr, buffer[..]);
    }

    /** One turn of `thread_process`; `rwdata` holds the data of the request, then of the response. */
    method Serve(we: bool, addr: uint32)
      requires Valid()
      modifies this, memory.mem, buffer, cache.lines
      ensures Valid()
      ensures Abstract() == Step(old(Abstract()), Request(we, addr, old(rwdata))).state
      ensures rwdata == Step(old(Abstract()), Request(we, addr, old(rwdata))).rdata
    {
      if we && addr % 0x8000 == CONTROL {
        if rwdata == 1 {
          FlushCache();
        } else if rwdata == 2 {
          bypass := true;
        }
      } else if bypass {
        rwdata := memory.Transport(we, addr % 0x8000, rwdata);
      } else if cache.CacheHit(addr) {
        if we {
          cache.SetWord(addr, rwdata);
        } else {
          rwdata := cache.GetWord(addr);
        }
      } else {
        Fill(addr);
        if we {
          cache.SetWord(addr, rwdata);
        }
        rwdata := buffer[WordInBlock(addr)];
      }
    }
  }
}
