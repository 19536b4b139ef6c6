/**
 * The memory side of the SystemC test bench as a state machine: a direct-mapped,
 * write-back cache without dirty bits in front of a 32 KiB word memory, one request a step.
 */
module CacheSpec {
  import opened MachineInts

  const BLOCKS: nat := 256
  const BLOCK_WORDS: nat := 4
  const MEM_WORDS: nat := 8192
  const CONTROL: nat := 0x7FFC

  type uint32 = x: int | 0 <= x < 0x1_0000_0000

  datatype Line = Line(valid: bool, tag: nat, data: seq<int32>)

  datatype Request = Request(write: bool, addr: uint32, data: int32)

  datatype State = State(lines: seq<Line>, mem: seq<int32>, bypass: bool)

  ghost predicate Shape(st: State) {
    && |st.lines| == BLOCKS && |st.mem| == MEM_WORDS
    && forall i :: 0 <= i < BLOCKS ==> |st.lines[i].data| == BLOCK_WORDS
  }

  // The address split of Cache.h for 16-byte blocks and 256 lines.

  function BlockOf(addr: nat): nat { addr / 16 }

  function Index(addr: nat): (i: nat)
    ensures i < BLOCKS
  {
    addr / 16 % 256
  }

  function Tag(addr: nat): nat { addr / 4096 }

  function WordInBlock(addr: nat): (w: nat)
    ensures w < BLOCK_WORDS
  {
    addr % 16 / 4
  }

  /** Memory addresses keep 15 bits; memory is indexed by words. */
  function MemIndex(addr: nat): (i: nat)
    ensures i < MEM_WORDS
  {
    addr % 0x8000 / 4
  }

  function LineAddress(tag: nat, index: nat): nat { tag * 4096 + index * 16 }

  function ReadBlock(mem: seq<int32>, addr: nat): (r: seq<int32>)
    requires |mem| == MEM_WORDS
    ensures |r| == BLOCK_WORDS
  {
    seq(BLOCK_WORDS, i requires 0 <= i < BLOCK_WORDS => mem[MemIndex(addr + 4 * i)])
  }

  /** The first `n` words of `data` written at `addr`. */
  function WriteWords(mem: seq<int32>, addr: nat, data: seq<int32>, n: nat): (r: seq<int32>)
    requires |mem| == MEM_WORDS && n <= |data|
    ensures |r| == MEM_WORDS
  {
    if n == 0 then mem else WriteWords(mem, addr, data, n - 1)[MemIndex(addr + 4 * (n - 1)) := data[n - 1]]
  }

  predicate Hit(st: State, addr: nat)
    requires Shape(st)
  {
    st.lines[Index(addr)].valid && st.lines[Index(addr)].tag == Tag(addr)
  }

  function WriteBack(st: State, index: nat): (r: State)
    requires Shape(st) && index < BLOCKS
    ensures Shape(r)
  {
    var line := st.lines[index];
    if line.valid then st.(mem := WriteWords(st.mem, LineAddress(line.tag, index), line.data, BLOCK_WORDS)) else st
  }

  /** Write back the first `n` lines, valid ones only; none is invalidated. */
  function Flush(st: State, n: nat): (r: State)
    requires Shape(st) && n <= BLOCKS
    ensures Shape(r)
  {
    if n == 0 then st else WriteBack(Flush(st, n - 1), n - 1)
  }

  /** A miss reads the new block first and writes the replaced line back after. */
  function Allocate(st: State, addr: nat): (r: State)
    requires Shape(st)
    ensures Shape(r)
  {
    var block := ReadBlock(st.mem, BlockOf(addr) * 16);
    var evicted := WriteBack(st, Index(addr));
    evicted.(lines := evicted.lines[Index(addr) := Line(true, Tag(addr), block)])
  }

  function SetWord(st: State, addr: nat, data: int32): (r: State)
    requires Shape(st)
    ensures Shape(r)
  {
    var line := st.lines[Index(addr)];
    st.(lines := st.lines[Index(addr) := Line(true, Tag(addr), line.data[WordInBlock(addr) := data])])
  }

  predicate IsControl(r: Request) { r.write && r.addr % 0x8000 == CONTROL }

  datatype Outcome = Outcome(state: State, rdata: int32)

  /** One turn of the request loop. */
  function Step(st: State, r: Request): (o: Outcome)
    requires Shape(st)
    ensures Shape(o.state)
  {
    if IsControl(r) then
      if r.data == 1 then Outcome(Flush(st, BLOCKS), r.data)
      else if r.data == 2 then Outcome(st.(bypass := true), r.data)
      else Outcome(st, r.data)
    else if st.bypass then
      if r.write then Outcome(st.(mem := st.mem[MemIndex(r.addr) := r.data]), r.data)
      else Outcome(st, st.mem[MemIndex(r.addr)])
    else if Hit(st, r.addr) then
      if r.write then Outcome(SetWord(st, r.addr, r.data), r.data)
      else Outcome(st, st.lines[Index(r.addr)].data[WordInBlock(r.addr)])
    else
      var filled := Allocate(st, r.addr);
      var old_word := filled.lines[Index(r.addr)].data[WordInBlock(r.addr)];
      Outcome(if r.write then SetWord(filled, r.addr, r.data) else filled, old_word)
  }

  function Reset(mem: seq<int32>, junk: seq<seq<int32>>): (st: State)
    requires |mem| == MEM_WORDS && |junk| == BLOCKS && forall i :: 0 <= i < BLOCKS ==> |junk[i]| == BLOCK_WORDS
    ensures Shape(st)
  {
    State(seq(BLOCKS, i requires 0 <= i < BLOCKS => Line(false, 0, junk[i])), mem, false)
  }

  // Flat memory, the reference.

  /** A flat 32 KiB memory; writes to the control word reach no memory. */
  function FlatStep(mem: seq<int32>, r: Request): (m: seq<int32>)
    requires |mem| == MEM_WORDS
    ensures |m| == MEM_WORDS
  {
    if r.write && !IsControl(r) then mem[MemIndex(r.addr) := r.data] else mem
  }

  /** What the processor can see of each word, whether cached or not. */
  function View(st: State): (v: seq<int32>)
    requires Shape(st)
    ensures |v| == MEM_WORDS
  {
    if st.bypass then st.mem else seq(MEM_WORDS, i requires 0 <= i < MEM_WORDS => ViewWord(st, i))
  }

  /** Word `i` can only be cached in line `i / 4 % 256`, by a tag that ends in `i / 1024`. */
  function ViewWord(st: State, i: nat): int32
    requires Shape(st) && i < MEM_WORDS
  {
    var line := st.lines[i / 4 % 256];
    if line.valid && line.tag % 8 == i / 1024 then line.data[i % 4] else st.mem[i]
  }
}
