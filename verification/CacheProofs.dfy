/**
 * When the cached memory cannot be told from a flat one.
 */
module CacheProofs {
  import opened IntegerFacts
  import opened MachineInts
  import opened CacheSpec

  /** Word `w` of line `i` in the memory part whose addresses have tags ending in `v`. */
  function Cell(v: nat, i: nat, w: nat): (j: nat)
    requires v < 8 && i < BLOCKS && w < BLOCK_WORDS
    ensures j < MEM_WORDS
  {
    v * 1024 + i * 4 + w
  }

  lemma CellParts(v: nat, i: nat, w: nat)
    requires v < 8 && i < BLOCKS && w < BLOCK_WORDS
    ensures Cell(v, i, w) / 4 == v * 256 + i && Cell(v, i, w) / 1024 == v
    ensures Cell(v, i, w) / 4 % 256 == i && Cell(v, i, w) % 4 == w
  {
    assert Cell(v, i, w) / 4 == v * 256 + i;
  }

  lemma CellUnique(v: nat, i: nat, w: nat, v': nat, i': nat, w': nat)
    requires v < 8 && i < BLOCKS && w < BLOCK_WORDS && v' < 8 && i' < BLOCKS && w' < BLOCK_WORDS
    ensures Cell(v, i, w) == Cell(v', i', w') <==> v == v' && i == i' && w == w'
  {
    CellParts(v, i, w);
    CellParts(v', i', w');
  }

  lemma CellsCover(j: nat) returns (v: nat, i: nat, w: nat)
    requires j < MEM_WORDS
    ensures v < 8 && i < BLOCKS && w < BLOCK_WORDS && j == Cell(v, i, w)
  {
    v, i, w := j / 1024, j % 1024 / 4, j % 4;
    assert j % 1024 % 4 == j % 4;
  }

  lemma ComposeAddress(u: nat, v: nat, i: nat, w: nat, b: nat)
    requires v < 8 && i < BLOCKS && w < BLOCK_WORDS && b < 4
    ensures var addr := u * 0x8000 + v * 4096 + i * 16 + w * 4 + b;
      addr / 16 == u * 2048 + v * 256 + i && addr / 4096 == u * 8 + v
  {
  }

  lemma ComposeIndices(u: nat, v: nat, i: nat, w: nat, b: nat)
    requires v < 8 && i < BLOCKS && w < BLOCK_WORDS && b < 4
    ensures var addr := u * 0x8000 + v * 4096 + i * 16 + w * 4 + b;
      Index(addr) == i && Tag(addr) == u * 8 + v && WordInBlock(addr) == w && MemIndex(addr) == Cell(v, i, w)
    ensures (u * 8 + v) % 8 == v
  {
    ComposeAddress(u, v, i, w, b);
    ComposeRests(u, v, i, w, b);
    Mod256(u * 8 + v, i);
  }

  lemma ComposeRests(u: nat, v: nat, i: nat, w: nat, b: nat)
    requires v < 8 && i < BLOCKS && w < BLOCK_WORDS && b < 4
    ensures var addr := u * 0x8000 + v * 4096 + i * 16 + w * 4 + b;
      addr % 16 == w * 4 + b && addr % 0x8000 == v * 4096 + i * 16 + w * 4 + b
  {
    Mod16(u * 2048 + v * 256 + i, w * 4 + b);
    Mod32K(u, v * 4096 + i * 16 + w * 4 + b);
  }

  lemma Mod16(x: nat, r: nat)
    requires r < 16
    ensures (x * 16 + r) % 16 == r
  {
  }

  lemma Mod32K(x: nat, r: nat)
    requires r < 0x8000
    ensures (x * 0x8000 + r) % 0x8000 == r
  {
  }

  lemma Mod256(x: nat, i: nat)
    requires i < 256
    ensures (x * 256 + i) % 256 == i
  {
  }

  /** The fields of an address: window, page of the memory, index, word and byte. */
  lemma AddressDigits(addr: nat) returns (u: nat, v: nat, i: nat, w: nat, b: nat)
    ensures v < 8 && i < BLOCKS && w < BLOCK_WORDS && b < 4
    ensures addr == u * 0x8000 + v * 4096 + i * 16 + w * 4 + b
  {
    var r, s, t;
    u, r := addr / 0x8000, addr % 0x8000;
    v, s := r / 4096, r % 4096;
    i, t := s / 16, s % 16;
    w, b := t / 4, t % 4;
  }

  lemma SplitAddress(addr: nat)
    ensures MemIndex(addr) == Cell(Tag(addr) % 8, Index(addr), WordInBlock(addr))
    ensures BlockOf(addr) == Tag(addr) * 256 + Index(addr)
  {
    var u, v, i, w, b := AddressDigits(addr);
    ComposeIndices(u, v, i, w, b);
    ComposeAddress(u, v, i, w, b);
    assert (u * 8 + v) * 256 + i == u * 2048 + v * 256 + i;
  }

  /** The control word is the last word of the memory. */
  lemma ControlIsLastWord(r: Request)
    ensures IsControl(r) <==> r.write && r.addr % 4 == 0 && MemIndex(r.addr) == MEM_WORDS - 1
  {
    assert r.addr % 0x8000 % 4 == r.addr % 4;
  }

  lemma LineWord(tag: nat, index: nat, i: nat)
    requires index < BLOCKS && i < BLOCK_WORDS
    ensures MemIndex(LineAddress(tag, index) + 4 * i) == Cell(tag % 8, index, i)
  {
    ComposeIndices(tag / 8, tag % 8, index, i, 0);
  }

  lemma WriteFour(mem: seq<int32>, addr: nat, data: seq<int32>)
    requires |mem| == MEM_WORDS && |data| == BLOCK_WORDS
    ensures WriteWords(mem, addr, data, 4)
         == mem[MemIndex(addr) := data[0]][MemIndex(addr + 4) := data[1]]
              [MemIndex(addr + 8) := data[2]][MemIndex(addr + 12) := data[3]]
  {
    assert WriteWords(mem, addr, data, 1) == mem[MemIndex(addr) := data[0]];
    assert WriteWords(mem, addr, data, 2) == WriteWords(mem, addr, data, 1)[MemIndex(addr + 4) := data[1]];
    assert WriteWords(mem, addr, data, 3) == WriteWords(mem, addr, data, 2)[MemIndex(addr + 8) := data[2]];
  }

  /** A written block changes the four words of its own memory block and no others. */
  lemma WriteBlockAt(mem: seq<int32>, tag: nat, index: nat, data: seq<int32>, v: nat, i: nat, w: nat)
    requires |mem| == MEM_WORDS && index < BLOCKS && |data| == BLOCK_WORDS
    requires v < 8 && i < BLOCKS && w < BLOCK_WORDS
    ensures WriteWords(mem, LineAddress(tag, index), data, BLOCK_WORDS)[Cell(v, i, w)]
         == if v == tag % 8 && i == index then data[w] else mem[Cell(v, i, w)]
  {
    WriteFour(mem, LineAddress(tag, index), data);
    LineWords(tag, index);
    FourUpdates(mem, Cell(tag % 8, index, 0), data, Cell(v, i, w));
    InBlock(tag % 8, index, v, i, w);
  }

  lemma LineWords(tag: nat, index: nat)
    requires index < BLOCKS
    ensures var addr, j := LineAddress(tag, index), Cell(tag % 8, index, 0);
      MemIndex(addr) == j && MemIndex(addr + 4) == j + 1 && MemIndex(addr + 8) == j + 2 && MemIndex(addr + 12) == j + 3
  {
    LineWord(tag, index, 0);
    LineWord(tag, index, 1);
    LineWord(tag, index, 2);
    LineWord(tag, index, 3);
  }

  lemma InBlock(v': nat, i': nat, v: nat, i: nat, w: nat)
    requires v' < 8 && i' < BLOCKS && v < 8 && i < BLOCKS && w < BLOCK_WORDS
    ensures Cell(v', i', 0) <= Cell(v, i, w) < Cell(v', i', 0) + 4 <==> v == v' && i == i'
    ensures v == v' && i == i' ==> Cell(v, i, w) == Cell(v', i', 0) + w
  {
  }

  lemma FourUpdates(mem: seq<int32>, j: nat, data: seq<int32>, x: nat)
    requires j + 3 < |mem| && |data| == BLOCK_WORDS && x < |mem|
    ensures mem[j := data[0]][j + 1 := data[1]][j + 2 := data[2]][j + 3 := data[3]][x]
         == if j <= x < j + 4 then data[x - j] else mem[x]
  {
  }

  lemma BaseAddress(addr: nat)
    ensures BlockOf(addr) * 16 == LineAddress(Tag(addr), Index(addr))
  {
    SplitAddress(addr);
    assert (Tag(addr) * 256 + Index(addr)) * 16 == Tag(addr) * 4096 + Index(addr) * 16;
  }

  lemma ReadBlockWord(mem: seq<int32>, base: nat, line: nat, i: nat, cell: nat)
    requires |mem| == MEM_WORDS && i < BLOCK_WORDS && base == line && MemIndex(line + 4 * i) == cell
    ensures ReadBlock(mem, base)[i] == mem[cell]
  {
  }

  lemma ReadBlockAt(mem: seq<int32>, addr: nat, i: nat)
    requires |mem| == MEM_WORDS && i < BLOCK_WORDS
    ensures ReadBlock(mem, BlockOf(addr) * 16)[i] == mem[Cell(Tag(addr) % 8, Index(addr), i)]
  {
    BaseAddress(addr);
    LineWord(Tag(addr), Index(addr), i);
    ReadBlockWord(mem, BlockOf(addr) * 16, LineAddress(Tag(addr), Index(addr)), i, Cell(Tag(addr) % 8, Index(addr), i));
  }

  lemma ViewCell(st: State, v: nat, i: nat, w: nat)
    requires Shape(st) && v < 8 && i < BLOCKS && w < BLOCK_WORDS && !st.bypass
    ensures View(st)[Cell(v, i, w)]
         == if st.lines[i].valid && st.lines[i].tag % 8 == v then st.lines[i].data[w] else st.mem[Cell(v, i, w)]
  {
    CellParts(v, i, w);
  }

  /** Two memories are equal if they agree cell by cell. */
  lemma EqualByCells(m: seq<int32>, m': seq<int32>)
    requires |m| == |m'| == MEM_WORDS
    requires forall v: nat, i: nat, w: nat :: v < 8 && i < BLOCKS && w < BLOCK_WORDS ==>
      m[Cell(v, i, w)] == m'[Cell(v, i, w)]
    ensures m == m'
  {
    forall j: nat | j < MEM_WORDS
      ensures m[j] == m'[j]
    {
      var v, i, w := CellsCover(j);
    }
  }

  /** Line `i` agrees with the memory block it was read from. */
  ghost predicate CleanLine(st: State, i: nat)
    requires Shape(st) && i < BLOCKS
  {
    st.lines[i].valid ==> forall w: nat :: w < BLOCK_WORDS ==>
      st.lines[i].data[w] == st.mem[Cell(st.lines[i].tag % 8, i, w)]
  }

  ghost predicate Clean(st: State)
    requires Shape(st)
  {
    forall i: nat :: i < BLOCKS ==> CleanLine(st, i)
  }

  lemma WriteBackKeepsView(st: State, n: nat)
    requires Shape(st) && !st.bypass && n < BLOCKS
    ensures View(WriteBack(st, n)) == View(st)
  {
    var line, st' := st.lines[n], WriteBack(st, n);
    forall v: nat, i: nat, w: nat | v < 8 && i < BLOCKS && w < BLOCK_WORDS
      ensures View(st')[Cell(v, i, w)] == View(st)[Cell(v, i, w)]
    {
      ViewCell(st, v, i, w);
      ViewCell(st', v, i, w);
      if line.valid {
        WriteBlockAt(st.mem, line.tag, n, line.data, v, i, w);
      }
    }
    EqualByCells(View(st'), View(st));
  }

  lemma WriteBackCleans(st: State, n: nat, i: nat)
    requires Shape(st) && n < BLOCKS && i < BLOCKS && (i == n || CleanLine(st, i))
    ensures CleanLine(WriteBack(st, n), i)
  {
    if st.lines[n].valid && st.lines[i].valid {
      forall w: nat | w < BLOCK_WORDS
        ensures st.lines[i].data[w] == WriteBack(st, n).mem[Cell(st.lines[i].tag % 8, i, w)]
      {
        WriteBlockAt(st.mem, st.lines[n].tag, n, st.lines[n].data, st.lines[i].tag % 8, i, w);
      }
    }
  }

  /** A flush changes nothing the processor can see and leaves every valid line equal to memory. */
  lemma {:induction false} FlushKeepsView(st: State, n: nat)
    requires Shape(st) && !st.bypass && n <= BLOCKS
    ensures View(Flush(st, n)) == View(st)
    ensures Flush(st, n).lines == st.lines && !Flush(st, n).bypass
    ensures forall i: nat :: i < n ==> CleanLine(Flush(st, n), i)
  {
    if n > 0 {
      FlushKeepsView(st, n - 1);
      OneLineMore(Flush(st, n - 1), n - 1);
      assert Flush(st, n) == WriteBack(Flush(st, n - 1), n - 1);
    }
  }

  lemma OneLineMore(st: State, n: nat)
    requires Shape(st) && !st.bypass && n < BLOCKS && forall i: nat :: i < n ==> CleanLine(st, i)
    ensures View(WriteBack(st, n)) == View(st)
    ensures WriteBack(st, n).lines == st.lines && !WriteBack(st, n).bypass
    ensures forall i: nat :: i <= n ==> CleanLine(WriteBack(st, n), i)
  {
    WriteBackKeepsView(st, n);
    forall i: nat | i <= n
      ensures CleanLine(WriteBack(st, n), i)
    {
      WriteBackCleans(st, n, i);
    }
  }

  /** The line that `addr` maps to does not hold the same memory block under another tag. */
  ghost predicate NoAlias(st: State, addr: nat)
    requires Shape(st)
  {
    var line := st.lines[Index(addr)];
    line.valid && line.tag % 8 == Tag(addr) % 8 ==> line.tag == Tag(addr)
  }

  lemma AllocateKeepsView(st: State, addr: nat)
    requires Shape(st) && !st.bypass && NoAlias(st, addr) && !Hit(st, addr)
    ensures View(Allocate(st, addr)) == View(st)
    ensures Hit(Allocate(st, addr), addr)
  {
    var n, st' := Index(addr), Allocate(st, addr);
    forall v: nat, i: nat, w: nat | v < 8 && i < BLOCKS && w < BLOCK_WORDS
      ensures View(st')[Cell(v, i, w)] == View(st)[Cell(v, i, w)]
    {
      AllocateCell(st, addr, v, i, w);
    }
    EqualByCells(View(st'), View(st));
  }

  lemma AllocateCell(st: State, addr: nat, v: nat, i: nat, w: nat)
    requires Shape(st) && !st.bypass && NoAlias(st, addr) && !Hit(st, addr)
    requires v < 8 && i < BLOCKS && w < BLOCK_WORDS
    ensures View(Allocate(st, addr))[Cell(v, i, w)] == View(st)[Cell(v, i, w)]
  {
    var n := Index(addr);
    ViewCell(st, v, i, w);
    ViewCell(Allocate(st, addr), v, i, w);
    ReadBlockAt(st.mem, addr, w);
    if st.lines[n].valid {
      WriteBlockAt(st.mem, st.lines[n].tag, n, st.lines[n].data, v, i, w);
    }
  }

  lemma SetWordUpdatesView(st: State, addr: nat, data: int32)
    requires Shape(st) && !st.bypass && Hit(st, addr)
    ensures View(SetWord(st, addr, data)) == View(st)[MemIndex(addr) := data]
    ensures Hit(SetWord(st, addr, data), addr)
  {
    var m := View(st)[MemIndex(addr) := data];
    forall v: nat, i: nat, w: nat | v < 8 && i < BLOCKS && w < BLOCK_WORDS
      ensures View(SetWord(st, addr, data))[Cell(v, i, w)] == m[Cell(v, i, w)]
    {
      SetWordCell(st, addr, data, v, i, w);
    }
    EqualByCells(View(SetWord(st, addr, data)), m);
  }

  lemma SetWordCell(st: State, addr: nat, data: int32, v: nat, i: nat, w: nat)
    requires Shape(st) && !st.bypass && Hit(st, addr)
    requires v < 8 && i < BLOCKS && w < BLOCK_WORDS
    ensures View(SetWord(st, addr, data))[Cell(v, i, w)] == View(st)[MemIndex(addr) := data][Cell(v, i, w)]
  {
    var st' := SetWord(st, addr, data);
    SplitAddress(addr);
    CellUnique(v, i, w, Tag(addr) % 8, Index(addr), WordInBlock(addr));
    ViewCell(st, v, i, w);
    ViewCell(st', v, i, w);
    LineWritten(st, addr, data, i, w);
  }

  lemma LineWritten(st: State, addr: nat, data: int32, i: nat, w: nat)
    requires Shape(st) && Hit(st, addr) && i < BLOCKS && w < BLOCK_WORDS
    ensures var line := SetWord(st, addr, data).lines[i];
      line.valid == st.lines[i].valid && line.tag == st.lines[i].tag &&
      line.data[w] == if i == Index(addr) && w == WordInBlock(addr) then data else st.lines[i].data[w]
  {
  }

  lemma HitReadsView(st: State, addr: nat)
    requires Shape(st) && !st.bypass && Hit(st, addr)
    ensures st.lines[Index(addr)].data[WordInBlock(addr)] == View(st)[MemIndex(addr)]
  {
    SplitAddress(addr);
    ViewCell(st, Tag(addr) % 8, Index(addr), WordInBlock(addr));
  }

  // Runs.

  /** A set of 16-byte blocks of which no two share a memory block; one 32 KiB window is one. */
  ghost predicate AliasFree(blocks: set<nat>) {
    forall a, b :: a in blocks && b in blocks && a % 2048 == b % 2048 ==> a == b
  }

  ghost predicate Within(rs: seq<Request>, blocks: set<nat>) {
    forall i :: 0 <= i < |rs| ==> IsControl(rs[i]) || BlockOf(rs[i].addr) in blocks
  }

  ghost predicate LinesWithin(st: State, blocks: set<nat>)
    requires Shape(st)
  {
    forall i: nat :: i < BLOCKS && st.lines[i].valid ==> st.lines[i].tag * 256 + i in blocks
  }

  predicate SetsBypass(r: Request) { IsControl(r) && r.data == 2 }

  predicate Flushes(r: Request) { IsControl(r) && r.data == 1 }

  function Run(st: State, rs: seq<Request>): (r: State)
    requires Shape(st)
    ensures Shape(r)
    decreases |rs|
  {
    if rs == [] then st else Run(Step(st, rs[0]).state, rs[1..])
  }

  datatype Answer = Written | Read(data: int32)

  /** The data each read of a run answers with. */
  function Answers(st: State, rs: seq<Request>): seq<Answer>
    requires Shape(st)
    decreases |rs|
  {
    if rs == [] then []
    else
      var o := Step(st, rs[0]);
      [if rs[0].write then Written else Read(o.rdata)] + Answers(o.state, rs[1..])
  }

  function FlatRun(mem: seq<int32>, rs: seq<Request>): (m: seq<int32>)
    requires |mem| == MEM_WORDS
    ensures |m| == MEM_WORDS
    decreases |rs|
  {
    if rs == [] then mem else FlatRun(FlatStep(mem, rs[0]), rs[1..])
  }

  function FlatAnswers(mem: seq<int32>, rs: seq<Request>): seq<Answer>
    requires |mem| == MEM_WORDS
    decreases |rs|
  {
    if rs == [] then []
    else [if rs[0].write then Written else Read(mem[MemIndex(rs[0].addr)])] + FlatAnswers(FlatStep(mem, rs[0]), rs[1..])
  }

  lemma WithinHasNoAlias(st: State, addr: nat, blocks: set<nat>)
    requires Shape(st) && AliasFree(blocks) && LinesWithin(st, blocks) && BlockOf(addr) in blocks
    ensures NoAlias(st, addr)
  {
    var t, t', i := st.lines[Index(addr)].tag, Tag(addr), Index(addr);
    SplitAddress(addr);
    if st.lines[i].valid && t % 8 == t' % 8 {
      SameMemoryBlock(t, t', i);
      assert t * 256 + i in blocks && t' * 256 + i in blocks;
    }
  }

  lemma SameMemoryBlock(t: nat, t': nat, i: nat)
    requires i < BLOCKS && t % 8 == t' % 8
    ensures (t * 256 + i) % 2048 == (t' * 256 + i) % 2048
  {
    DivMod(t / 8, 2048, (t % 8) * 256 + i);
    DivMod(t' / 8, 2048, (t' % 8) * 256 + i);
  }

  /** A request for a block of the set leaves only blocks of the set in the lines. */
  lemma LinesStayWithin(st: State, r: Request, blocks: set<nat>)
    requires Shape(st) && LinesWithin(st, blocks) && !IsControl(r) && BlockOf(r.addr) in blocks && !st.bypass
    ensures LinesWithin(Step(st, r).state, blocks) && !Step(st, r).state.bypass
  {
    var st' := Step(st, r).state;
    BlockNumber(r.addr);
    forall i: nat | i < BLOCKS && st'.lines[i].valid
      ensures st'.lines[i].tag * 256 + i in blocks
    {
      LineAfter(st, r, i);
    }
    BypassKept(st, r);
  }

  /** The line of the address holds its tag, every other line what it held. */
  lemma LineAfter(st: State, r: Request, i: nat)
    requires Shape(st) && !IsControl(r) && !st.bypass && i < BLOCKS
    ensures var line := Step(st, r).state.lines[i];
      if i == Index(r.addr) then line.valid && line.tag == Tag(r.addr)
      else line.valid == st.lines[i].valid && line.tag == st.lines[i].tag
  {
  }

  lemma BypassKept(st: State, r: Request)
    requires Shape(st) && !IsControl(r)
    ensures Step(st, r).state.bypass == st.bypass
  {
  }

  lemma BlockNumber(addr: nat)
    ensures BlockOf(addr) == Tag(addr) * 256 + Index(addr)
  {
    SplitAddress(addr);
  }

  lemma HitIsFlat(st: State, r: Request)
    requires Shape(st) && !st.bypass && !IsControl(r) && Hit(st, r.addr)
    ensures View(Step(st, r).state) == FlatStep(View(st), r)
    ensures !r.write ==> Step(st, r).rdata == View(st)[MemIndex(r.addr)]
  {
    HitReadsView(st, r.addr);
    SetWordUpdatesView(st, r.addr, r.data);
  }

  lemma MissIsFlat(st: State, r: Request)
    requires Shape(st) && !st.bypass && !IsControl(r) && !Hit(st, r.addr) && NoAlias(st, r.addr)
    ensures View(Step(st, r).state) == FlatStep(View(st), r)
    ensures !r.write ==> Step(st, r).rdata == View(st)[MemIndex(r.addr)]
  {
    AllocateKeepsView(st, r.addr);
    var filled := Allocate(st, r.addr);
    HitReadsView(filled, r.addr);
    SetWordUpdatesView(filled, r.addr, r.data);
  }

  /** One request, cache on: the view changes as a flat memory does, and a read answers from it. */
  lemma StepIsFlat(st: State, r: Request, blocks: set<nat>)
    requires Shape(st) && !st.bypass && AliasFree(blocks) && LinesWithin(st, blocks)
    requires IsControl(r) || BlockOf(r.addr) in blocks
    requires !SetsBypass(r)
    ensures var st' := Step(st, r).state;
      !st'.bypass && LinesWithin(st', blocks) && View(st') == FlatStep(View(st), r)
    ensures !r.write ==> Step(st, r).rdata == View(st)[MemIndex(r.addr)]
  {
    if IsControl(r) {
      FlushKeepsView(st, BLOCKS);
    } else {
      LinesStayWithin(st, r, blocks);
      if Hit(st, r.addr) {
        HitIsFlat(st, r);
      } else {
        WithinHasNoAlias(st, r.addr, blocks);
        MissIsFlat(st, r);
      }
    }
  }

  /**
   * Every run over an alias-free set of blocks: each read answers the last value written
   * to its word, or the word the memory started with.
   */
  lemma {:induction false} RunIsFlat(st: State, rs: seq<Request>, blocks: set<nat>)
    requires Shape(st) && !st.bypass && AliasFree(blocks) && LinesWithin(st, blocks)
    requires Within(rs, blocks) && forall i :: 0 <= i < |rs| ==> !SetsBypass(rs[i])
    ensures Answers(st, rs) == FlatAnswers(View(st), rs)
    ensures var st' := Run(st, rs);
      !st'.bypass && LinesWithin(st', blocks) && View(st') == FlatRun(View(st), rs)
    decreases |rs|
  {
    if rs != [] {
      StepIsFlat(st, rs[0], blocks);
      RunIsFlat(Step(st, rs[0]).state, rs[1..], blocks);
    }
  }

  lemma ResetIsWithin(mem: seq<int32>, junk: seq<seq<int32>>, blocks: set<nat>)
    requires |mem| == MEM_WORDS && |junk| == BLOCKS && forall i :: 0 <= i < BLOCKS ==> |junk[i]| == BLOCK_WORDS
    ensures LinesWithin(Reset(mem, junk), blocks) && View(Reset(mem, junk)) == mem
  {
  }

  lemma OneWindowIsAliasFree(window: nat, blocks: set<nat>)
    requires forall b :: b in blocks ==> b / 2048 == window
    ensures AliasFree(blocks)
  {
    forall a, b | a in blocks && b in blocks && a % 2048 == b % 2048
      ensures a == b
    {
      assert a == 2048 * (a / 2048) + a % 2048 && b == 2048 * (b / 2048) + b % 2048;
    }
  }

  /** No run from reset over these blocks can tell the cached memory from a flat one. */
  ghost predicate Transparent(blocks: set<nat>, junk: seq<seq<int32>>)
    requires |junk| == BLOCKS && forall i :: 0 <= i < BLOCKS ==> |junk[i]| == BLOCK_WORDS
  {
    forall mem: seq<int32>, rs: seq<Request> ::
      |mem| == MEM_WORDS && Within(rs, blocks) && (forall i :: 0 <= i < |rs| ==> !SetsBypass(rs[i])) ==>
        Answers(Reset(mem, junk), rs) == FlatAnswers(mem, rs)
  }

  /** Write `v` to the first word of block `a`, then read the first word of block `b`. */
  function WriteThenRead(a: nat, b: nat, v: int32): seq<Request>
    requires a * 16 < 0x1_0000_0000 && b * 16 < 0x1_0000_0000
  {
    [Request(true, a * 16, v), Request(false, b * 16, 0)]
  }

  /** Two blocks with one memory block: the second misses and reads memory before the write-back. */
  lemma AliasIsStale(a: nat, b: nat, v: int32, mem: seq<int32>, junk: seq<seq<int32>>)
    requires a * 16 < 0x1_0000_0000 && b * 16 < 0x1_0000_0000 && a != b && a % 2048 == b % 2048
    requires |mem| == MEM_WORDS && |junk| == BLOCKS && forall i :: 0 <= i < BLOCKS ==> |junk[i]| == BLOCK_WORDS
    ensures Answers(Reset(mem, junk), WriteThenRead(a, b, v)) == [Written, Read(mem[a % 2048 * 4])]
    ensures FlatAnswers(mem, WriteThenRead(a, b, v)) == [Written, Read(v)]
  {
    BlockAddress(a);
    BlockAddress(b);
    var rs, st := WriteThenRead(a, b, v), Reset(mem, junk);
    var st1 := Step(st, rs[0]).state;
    assert rs[1..] == [rs[1]] && rs[1..][1..] == [];
    assert st1.mem == mem && st1.lines[a % 256].tag == a / 256;
    assert !Hit(st1, b * 16);
    ReadBlockAt(mem, b * 16, 0);
    var o := Step(st1, rs[1]);
    assert o.rdata == mem[a % 2048 * 4];
    assert Answers(st1, rs[1..]) == [Read(o.rdata)] + Answers(o.state, []);
    assert FlatAnswers(FlatStep(mem, rs[0]), rs[1..])
      == [Read(v)] + FlatAnswers(FlatStep(FlatStep(mem, rs[0]), rs[1]), []);
  }

  lemma BlockAddress(b: nat)
    ensures Index(b * 16) == b % 256 && Tag(b * 16) == b / 256 && WordInBlock(b * 16) == 0
    ensures MemIndex(b * 16) == b % 2048 * 4 == Cell(b / 256 % 8, b % 256, 0)
    ensures (b * 16) % 0x8000 != CONTROL
    ensures BlockOf(b * 16) == b
  {
    var u, r := b / 2048, b % 2048;
    var v, i := r / 256, r % 256;
    BlockParts(u, v, i);
    ComposeIndices(u, v, i, 0, 0);
    ComposeAddress(u, v, i, 0, 0);
    assert b == u * 2048 + v * 256 + i;
  }

  lemma BlockParts(u: nat, v: nat, i: nat)
    requires v < 8 && i < BLOCKS
    ensures var b := u * 2048 + v * 256 + i;
      && b % 256 == i && b / 256 == u * 8 + v && b / 256 % 8 == v && b % 2048 == v * 256 + i
      && b * 16 == u * 0x8000 + v * 4096 + i * 16 && (b * 16) % 0x8000 == v * 4096 + i * 16
  {
    var b := u * 2048 + v * 256 + i;
    assert b / 256 == u * 8 + v;
    assert b * 16 == u * 0x8000 + (v * 4096 + i * 16);
  }

  /** The cached memory is transparent for exactly the sets of blocks that do not alias. */
  lemma TransparentIffAliasFree(blocks: set<nat>, junk: seq<seq<int32>>)
    requires |junk| == BLOCKS && forall i :: 0 <= i < BLOCKS ==> |junk[i]| == BLOCK_WORDS
    requires forall b :: b in blocks ==> b * 16 < 0x1_0000_0000
    ensures Transparent(blocks, junk) <==> AliasFree(blocks)
  {
    if AliasFree(blocks) {
      forall mem: seq<int32>, rs: seq<Request> |
        |mem| == MEM_WORDS && Within(rs, blocks) && (forall i :: 0 <= i < |rs| ==> !SetsBypass(rs[i]))
        ensures Answers(Reset(mem, junk), rs) == FlatAnswers(mem, rs)
      {
        ResetIsWithin(mem, junk, blocks);
        RunIsFlat(Reset(mem, junk), rs, blocks);
      }
    } else {
      var a, b :| a in blocks && b in blocks && a % 2048 == b % 2048 && a != b;
      var mem: seq<int32> := seq(MEM_WORDS, _ => 0);
      var rs := WriteThenRead(a, b, 1);
      BlockAddress(a);
      BlockAddress(b);
      AliasIsStale(a, b, 1, mem, junk);
      assert Within(rs, blocks);
    }
  }

  // Flush and bypass.

  /** Setting bypass hides the cache: the view survives exactly when every valid line equals memory. */
  lemma BypassKeepsViewIffClean(st: State)
    requires Shape(st) && !st.bypass
    ensures View(st.(bypass := true)) == View(st) <==> Clean(st)
  {
    if Clean(st) {
      forall v: nat, i: nat, w: nat | v < 8 && i < BLOCKS && w < BLOCK_WORDS
        ensures View(st)[Cell(v, i, w)] == st.mem[Cell(v, i, w)]
      {
        ViewCell(st, v, i, w);
        assert CleanLine(st, i);
      }
      EqualByCells(View(st), st.mem);
    } else {
      var i: nat :| i < BLOCKS && !CleanLine(st, i);
      var w: nat :| w < BLOCK_WORDS && st.lines[i].data[w] != st.mem[Cell(st.lines[i].tag % 8, i, w)];
      ViewCell(st, st.lines[i].tag % 8, i, w);
    }
  }

  lemma CleanAfterFlush(st: State)
    requires Shape(st) && !st.bypass
    ensures Clean(Flush(st, BLOCKS))
  {
    FlushKeepsView(st, BLOCKS);
  }

  /** With bypass set, every run without a flush works on memory alone, and bypass stays set. */
  lemma {:induction false} BypassRunIsFlat(st: State, rs: seq<Request>)
    requires Shape(st) && st.bypass && forall i :: 0 <= i < |rs| ==> !Flushes(rs[i])
    ensures Answers(st, rs) == FlatAnswers(st.mem, rs)
    ensures Run(st, rs) == State(st.lines, FlatRun(st.mem, rs), true)
    decreases |rs|
  {
    if rs != [] {
      BypassRunIsFlat(Step(st, rs[0]).state, rs[1..]);
    }
  }

  /** A flush in bypass copies every valid line over memory: harmless exactly when all are clean. */
  lemma FlushInBypass(st: State)
    requires Shape(st) && st.bypass
    ensures Flush(st, BLOCKS).mem == st.mem <==> Clean(st)
  {
    var cached := st.(bypass := false);
    FlushKeepsView(cached, BLOCKS);
    FlushIgnoresBypass(st, BLOCKS);
    var flushed := Flush(cached, BLOCKS);
    BypassKeepsViewIffClean(cached);
    BypassKeepsViewIffClean(flushed);
    SameClean(st, cached);
    if flushed.mem == st.mem {
      assert flushed == cached;
    }
  }

  lemma SameClean(st: State, st': State)
    requires Shape(st) && Shape(st') && st.lines == st'.lines && st.mem == st'.mem
    ensures Clean(st) <==> Clean(st')
  {
    assert forall i: nat :: i < BLOCKS ==> (CleanLine(st, i) <==> CleanLine(st', i));
  }

  lemma {:induction false} FlushIgnoresBypass(st: State, n: nat)
    requires Shape(st) && n <= BLOCKS
    ensures Flush(st, n) == Flush(st.(bypass := false), n).(bypass := st.bypass)
  {
    if n > 0 {
      FlushIgnoresBypass(st, n - 1);
    }
  }

  /**
   * The intended use: run with the cache, flush, set bypass, run on.  Read for read this is
   * one run on a flat memory.
   */
  lemma FlushThenBypass(st: State, before: seq<Request>, flush: Request, bypass: Request, after: seq<Request>,
                        blocks: set<nat>)
    requires Shape(st) && !st.bypass && AliasFree(blocks) && LinesWithin(st, blocks)
    requires Within(before, blocks) && forall i :: 0 <= i < |before| ==> !SetsBypass(before[i])
    requires Flushes(flush) && SetsBypass(bypass)
    requires forall i :: 0 <= i < |after| ==> !Flushes(after[i])
    ensures var switched := Run(Run(st, before), [flush, bypass]);
      && Answers(st, before) == FlatAnswers(View(st), before)
      && Answers(switched, after) == FlatAnswers(FlatRun(View(st), before), after)
      && Run(switched, after).bypass
      && Run(switched, after).mem == FlatRun(FlatRun(View(st), before), after)
  {
    RunIsFlat(st, before, blocks);
    var st1 := Run(st, before);
    SwitchOver(st1, flush, bypass);
    BypassRunIsFlat(Run(st1, [flush, bypass]), after);
  }

  /** The machine in bypass: lines that no request reads and a memory. */
  function Bypassed(lines: seq<Line>, mem: seq<int32>): State { State(lines, mem, true) }

  /** The two commands leave the memory holding what was visible, and the lines as they were. */
  lemma SwitchOver(st: State, flush: Request, bypass: Request)
    requires Shape(st) && !st.bypass && Flushes(flush) && SetsBypass(bypass)
    ensures var st' := Run(st, [flush, bypass]); st' == Bypassed(st.lines, View(st)) && Clean(st')
  {
    var st1 := Step(st, flush).state;
    FlushKeepsView(st, BLOCKS);
    CleanAfterFlush(st);
    BypassKeepsViewIffClean(st1);
    assert [flush, bypass][1..] == [bypass] && [bypass][1..] == [];
    assert Run(st, [flush, bypass]) == Run(st1, [bypass]) == st1.(bypass := true);
    SameClean(st1, st1.(bypass := true));
  }

  // Flushes in bypass, over runs.

  /** One more request at the end of a run. */
  lemma {:induction false} RunOn(st: State, rs: seq<Request>, r: Request)
    requires Shape(st)
    ensures Run(st, rs + [r]) == Step(Run(st, rs), r).state
    decreases |rs|
  {
    if rs == [] {
      assert [r][1..] == [];
    } else {
      assert (rs + [r])[1..] == rs[1..] + [r];
      RunOn(Step(st, rs[0]).state, rs[1..], r);
    }
  }

  lemma {:induction false} FlatRunOn(mem: seq<int32>, rs: seq<Request>, r: Request)
    requires |mem| == MEM_WORDS
    ensures FlatRun(mem, rs + [r]) == FlatStep(FlatRun(mem, rs), r)
    decreases |rs|
  {
    if rs == [] {
      assert [r][1..] == [];
    } else {
      assert (rs + [r])[1..] == rs[1..] + [r];
      FlatRunOn(FlatStep(mem, rs[0]), rs[1..], r);
    }
  }

  lemma {:induction false} AnswersOn(st: State, rs: seq<Request>, r: Request)
    requires Shape(st)
    ensures Answers(st, rs + [r]) == Answers(st, rs) + [if r.write then Written else Read(Step(Run(st, rs), r).rdata)]
    decreases |rs|
  {
    if rs == [] {
      assert [r][1..] == [];
    } else {
      assert (rs + [r])[1..] == rs[1..] + [r];
      AnswersOn(Step(st, rs[0]).state, rs[1..], r);
    }
  }

  lemma {:induction false} FlatAnswersOn(mem: seq<int32>, rs: seq<Request>, r: Request)
    requires |mem| == MEM_WORDS
    ensures FlatAnswers(mem, rs + [r])
      == FlatAnswers(mem, rs) + [if r.write then Written else Read(FlatRun(mem, rs)[MemIndex(r.addr)])]
    decreases |rs|
  {
    if rs == [] {
      assert [r][1..] == [];
    } else {
      assert (rs + [r])[1..] == rs[1..] + [r];
      FlatAnswersOn(FlatStep(mem, rs[0]), rs[1..], r);
    }
  }

  /** After each of the first `n` requests the memory is the flat one. */
  ghost predicate FlatThrough(st: State, rs: seq<Request>, n: nat)
    requires Shape(st) && n <= |rs|
  {
    forall k :: 0 <= k <= n ==> Run(st, rs[..k]) == Bypassed(st.lines, FlatRun(st.mem, rs[..k]))
  }

  /** At each flush among the first `n` requests, what has been written leaves the lines clean. */
  ghost predicate CleanAtFlushes(st: State, rs: seq<Request>, n: nat)
    requires Shape(st) && n <= |rs|
  {
    forall k {:trigger rs[k]} :: 0 <= k < n && Flushes(rs[k]) ==> Clean(Bypassed(st.lines, FlatRun(st.mem, rs[..k])))
  }

  lemma StepInBypass(st: State, r: Request)
    requires Shape(st) && st.bypass
    ensures Step(st, r).state == Bypassed(st.lines, FlatStep(st.mem, r)) <==> (Flushes(r) ==> Clean(st))
  {
    if Flushes(r) {
      FlushInBypass(st);
      LinesStay(st, BLOCKS);
    }
  }

  lemma {:induction false} LinesStay(st: State, n: nat)
    requires Shape(st) && n <= BLOCKS
    ensures Flush(st, n).lines == st.lines && Flush(st, n).bypass == st.bypass
  {
    if n > 0 {
      LinesStay(st, n - 1);
    }
  }

  /** In bypass the memory is flat all through a run exactly when every flush in it finds the lines clean. */
  lemma {:induction false} FlushesInBypass(st: State, rs: seq<Request>, n: nat)
    requires Shape(st) && st.bypass && n <= |rs|
    ensures FlatThrough(st, rs, n) <==> CleanAtFlushes(st, rs, n)
  {
    if n == 0 {
      assert rs[..0] == [];
    } else {
      FlushesInBypass(st, rs, n - 1);
      assert rs[..n] == rs[..n - 1] + [rs[n - 1]];
      RunOn(st, rs[..n - 1], rs[n - 1]);
      FlatRunOn(st.mem, rs[..n - 1], rs[n - 1]);
      if FlatThrough(st, rs, n - 1) {
        StepInBypass(Run(st, rs[..n - 1]), rs[n - 1]);
      }
    }
  }

  /** Where the memory is the flat one all through, so are the answers. */
  lemma {:induction false} FlatThroughAnswers(st: State, rs: seq<Request>, n: nat)
    requires Shape(st) && st.bypass && n <= |rs| && FlatThrough(st, rs, n)
    ensures Answers(st, rs[..n]) == FlatAnswers(st.mem, rs[..n])
  {
    if n > 0 {
      FlatThroughAnswers(st, rs, n - 1);
      assert rs[..n] == rs[..n - 1] + [rs[n - 1]];
      AnswersOn(st, rs[..n - 1], rs[n - 1]);
      FlatAnswersOn(st.mem, rs[..n - 1], rs[n - 1]);
    }
  }

  /** The block that line `i` holds after a run from reset: the last one asked for that maps to it, or none. */
  function LastBlock(rs: seq<Request>, i: nat): int
    decreases |rs|
  {
    if rs == [] then -1
    else
      var r := rs[|rs| - 1];
      if !IsControl(r) && Index(r.addr) == i then BlockOf(r.addr) else LastBlock(rs[..|rs| - 1], i)
  }

  /** Line `i` is what the run from reset leaves. */
  ghost predicate HoldsLast(lines: seq<Line>, rs: seq<Request>, i: nat)
    requires |lines| == BLOCKS && i < BLOCKS
  {
    && (lines[i].valid <==> LastBlock(rs, i) >= 0)
    && (lines[i].valid ==> lines[i].tag * 256 + i == LastBlock(rs, i))
  }

  lemma {:induction false} LinesHoldLast(st: State, rs: seq<Request>, i: nat)
    requires Shape(st) && !st.bypass && i < BLOCKS && !st.lines[i].valid
    requires forall k :: 0 <= k < |rs| ==> !SetsBypass(rs[k])
    ensures !Run(st, rs).bypass && HoldsLast(Run(st, rs).lines, rs, i)
    decreases |rs|
  {
    if rs != [] {
      var front, r := rs[..|rs| - 1], rs[|rs| - 1];
      LinesHoldLast(st, front, i);
      assert rs == front + [r];
      RunOn(st, front, r);
      if IsControl(r) {
        LinesStay(Run(st, front), BLOCKS);
      } else {
        LineAfter(Run(st, front), r, i);
        BypassKept(Run(st, front), r);
        BlockNumber(r.addr);
      }
    }
  }

  /** The block `b` is the same in both memories. */
  ghost predicate SameBlock(m: seq<int32>, m': seq<int32>, b: nat)
    requires |m| == |m'| == MEM_WORDS
  {
    forall w: nat {:trigger Cell(b / 256 % 8, b % 256, w)} :: w < BLOCK_WORDS ==>
      m[Cell(b / 256 % 8, b % 256, w)] == m'[Cell(b / 256 % 8, b % 256, w)]
  }

  /** So is the block that line `i` holds after the run, if it holds one. */
  ghost predicate SameInLine(m: seq<int32>, m': seq<int32>, rs: seq<Request>, i: nat)
    requires |m| == |m'| == MEM_WORDS
  {
    LastBlock(rs, i) >= 0 ==> SameBlock(m, m', LastBlock(rs, i))
  }

  /** The memories agree on all blocks that the lines hold after the run. */
  ghost predicate SameInLines(m: seq<int32>, m': seq<int32>, rs: seq<Request>)
    requires |m| == |m'| == MEM_WORDS
  {
    forall i: nat :: i < BLOCKS ==> SameInLine(m, m', rs, i)
  }

  lemma CleanLineIffSame(st: State, m: seq<int32>, rs: seq<Request>, i: nat)
    requires Shape(st) && |m| == MEM_WORDS && i < BLOCKS && CleanLine(st, i) && HoldsLast(st.lines, rs, i)
    ensures CleanLine(Bypassed(st.lines, m), i) <==> SameInLine(m, st.mem, rs, i)
  {
    if st.lines[i].valid {
      Mod256(st.lines[i].tag, i);
      DivBy256(st.lines[i].tag, i);
    }
  }

  /** A memory agrees with clean lines exactly when it has kept the blocks that they hold. */
  lemma CleanIffSame(st: State, m: seq<int32>, rs: seq<Request>)
    requires Shape(st) && Clean(st) && |m| == MEM_WORDS && forall i: nat :: i < BLOCKS ==> HoldsLast(st.lines, rs, i)
    ensures Clean(Bypassed(st.lines, m)) <==> SameInLines(m, st.mem, rs)
  {
    forall i: nat | i < BLOCKS
      ensures CleanLine(Bypassed(st.lines, m), i) <==> SameInLine(m, st.mem, rs, i)
    {
      CleanLineIffSame(st, m, rs, i);
    }
  }

  lemma DivBy256(x: nat, i: nat)
    requires i < 256
    ensures (x * 256 + i) / 256 == x
  {
  }

  /** At each flush of the run, the memory holds the blocks of the lines as `m` does. */
  ghost predicate SameAtFlushes(m: seq<int32>, before: seq<Request>, after: seq<Request>)
    requires |m| == MEM_WORDS
  {
    forall k {:trigger after[k]} :: 0 <= k < |after| && Flushes(after[k]) ==>
      SameInLines(FlatRun(m, after[..k]), m, before)
  }

  lemma CleanIffSameAtFlushes(st: State, before: seq<Request>, after: seq<Request>)
    requires Shape(st) && Clean(st) && forall i: nat :: i < BLOCKS ==> HoldsLast(st.lines, before, i)
    ensures CleanAtFlushes(st, after, |after|) <==> SameAtFlushes(st.mem, before, after)
  {
    forall k | 0 <= k < |after|
      ensures Clean(Bypassed(st.lines, FlatRun(st.mem, after[..k]))) <==>
        SameInLines(FlatRun(st.mem, after[..k]), st.mem, before)
    {
      CleanIffSame(st, FlatRun(st.mem, after[..k]), before);
    }
  }

  /**
   * From reset, run with the cache, flush and set bypass: the memory is the flat one, and the lines hold the last
   * blocks.
   */
  lemma SwitchedFromReset(mem: seq<int32>, junk: seq<seq<int32>>, before: seq<Request>, flush: Request, bypass: Request,
                          blocks: set<nat>)
    requires |mem| == MEM_WORDS && |junk| == BLOCKS && forall i :: 0 <= i < BLOCKS ==> |junk[i]| == BLOCK_WORDS
    requires AliasFree(blocks) && Within(before, blocks) && forall i :: 0 <= i < |before| ==> !SetsBypass(before[i])
    requires Flushes(flush) && SetsBypass(bypass)
    ensures var st := Run(Run(Reset(mem, junk), before), [flush, bypass]);
      st.bypass && st.mem == FlatRun(mem, before) && Clean(st) &&
        forall i: nat :: i < BLOCKS ==> HoldsLast(st.lines, before, i)
  {
    var reset := Reset(mem, junk);
    ResetIsWithin(mem, junk, blocks);
    RunIsFlat(reset, before, blocks);
    SwitchOver(Run(reset, before), flush, bypass);
    forall i: nat | i < BLOCKS
      ensures HoldsLast(Run(reset, before).lines, before, i)
    {
      LinesHoldLast(reset, before, i);
    }
  }

  /**
   * Run with the cache from reset, flush, set bypass, run on, flushes included: the memory is the flat one all through
   * exactly when at each later flush it has kept, or got back, every block that the first run asked for last in its
   * line.
   */
  lemma FlushesAfterSwitch(mem: seq<int32>, junk: seq<seq<int32>>, before: seq<Request>, flush: Request,
                           bypass: Request, after: seq<Request>, blocks: set<nat>)
    requires |mem| == MEM_WORDS && |junk| == BLOCKS && forall i :: 0 <= i < BLOCKS ==> |junk[i]| == BLOCK_WORDS
    requires AliasFree(blocks) && Within(before, blocks) && forall i :: 0 <= i < |before| ==> !SetsBypass(before[i])
    requires Flushes(flush) && SetsBypass(bypass)
    ensures var switched := Run(Run(Reset(mem, junk), before), [flush, bypass]);
      switched.mem == FlatRun(mem, before) &&
      (FlatThrough(switched, after, |after|) <==> SameAtFlushes(FlatRun(mem, before), before, after)) &&
      (SameAtFlushes(FlatRun(mem, before), before, after) ==>
       Answers(switched, after) == FlatAnswers(FlatRun(mem, before), after))
  {
    SwitchedFromReset(mem, junk, before, flush, bypass, blocks);
    var switched := Run(Run(Reset(mem, junk), before), [flush, bypass]);
    FlushesInBypass(switched, after, |after|);
    CleanIffSameAtFlushes(switched, before, after);
    if FlatThrough(switched, after, |after|) {
      FlatThroughAnswers(switched, after, |after|);
      assert after[..|after|] == after;
    }
  }

  /** A flush in bypass puts a cached word back into memory. */
  lemma FlushBringsBack(st: State, addr: nat)
    requires Shape(st) && st.bypass && Hit(st, addr)
    ensures Flush(st, BLOCKS).mem[MemIndex(addr)] == st.lines[Index(addr)].data[WordInBlock(addr)]
  {
    FlushKeepsView(st.(bypass := false), BLOCKS);
    FlushIgnoresBypass(st, BLOCKS);
    SplitAddress(addr);
    assert CleanLine(Flush(st.(bypass := false), BLOCKS), Index(addr));
  }

  /** A write is answered, whatever it does. */
  lemma {:induction false} AfterWrite(st: State, mem: seq<int32>, r: Request, rest: seq<Request>)
    requires Shape(st) && |mem| == MEM_WORDS && r.write
    ensures Answers(st, [r] + rest) == [Written] + Answers(Step(st, r).state, rest)
    ensures FlatAnswers(mem, [r] + rest) == [Written] + FlatAnswers(FlatStep(mem, r), rest)
  {
    assert ([r] + rest)[1..] == rest;
  }

  lemma {:induction false} ReadAlone(st: State, mem: seq<int32>, addr: uint32)
    requires Shape(st) && |mem| == MEM_WORDS && st.bypass
    ensures Answers(st, [Request(false, addr, 0)]) == [Read(st.mem[MemIndex(addr)])]
    ensures FlatAnswers(mem, [Request(false, addr, 0)]) == [Read(mem[MemIndex(addr)])]
  {
    assert [Request(false, addr, 0)][1..] == [];
  }

  /** Write, flush, set bypass, write, flush, read, all at one address. */
  function FlushedOver(addr: uint32, v: int32, v': int32): seq<Request> {
    [Request(true, addr, v)] + ([Request(true, CONTROL, 1)] + ([Request(true, CONTROL, 2)] + WrittenOver(addr, v')))
  }

  function WrittenOver(addr: uint32, v: int32): seq<Request> {
    [Request(true, addr, v)] + ([Request(true, CONTROL, 1)] + [Request(false, addr, 0)])
  }

  /** In bypass, with the word in its line: the second write is undone by the flush. */
  lemma FlushUndoesWrite(st: State, mem: seq<int32>, addr: uint32, v: int32)
    requires Shape(st) && |mem| == MEM_WORDS && st.bypass && Hit(st, addr) && addr % 0x8000 != CONTROL
    ensures Answers(st, WrittenOver(addr, v))
      == [Written, Written] + [Read(st.lines[Index(addr)].data[WordInBlock(addr)])]
    ensures FlatAnswers(mem, WrittenOver(addr, v)) == [Written, Written] + [Read(v)]
  {
    var write, flush := Request(true, addr, v), Request(true, CONTROL, 1);
    var st1, m1 := Step(st, write).state, FlatStep(mem, write);
    AfterWrite(st, mem, write, [flush] + [Request(false, addr, 0)]);
    AfterWrite(st1, m1, flush, [Request(false, addr, 0)]);
    FlushBringsBack(st1, addr);
    LinesStay(st1, BLOCKS);
    ReadAlone(Step(st1, flush).state, m1, addr);
  }

  lemma ThreeWrites(st: State, mem: seq<int32>, a: Request, b: Request, c: Request, rest: seq<Request>)
    returns (st': State, m': seq<int32>)
    requires Shape(st) && |mem| == MEM_WORDS && a.write && b.write && c.write
    ensures st' == Step(Step(Step(st, a).state, b).state, c).state && |m'| == MEM_WORDS
    ensures Answers(st, [a] + ([b] + ([c] + rest))) == [Written, Written, Written] + Answers(st', rest)
    ensures FlatAnswers(mem, [a] + ([b] + ([c] + rest))) == [Written, Written, Written] + FlatAnswers(m', rest)
  {
    var st1, m1 := Step(st, a).state, FlatStep(mem, a);
    var st2, m2 := Step(st1, b).state, FlatStep(m1, b);
    st', m' := Step(st2, c).state, FlatStep(m2, c);
    AfterWrite(st, mem, a, [b] + ([c] + rest));
    AfterWrite(st1, m1, b, [c] + rest);
    AfterWrite(st2, m2, c, rest);
    OneByOne(Answers(st', rest));
    OneByOne(FlatAnswers(m', rest));
  }

  lemma OneByOne(rest: seq<Answer>)
    ensures [Written] + ([Written] + ([Written] + rest)) == [Written, Written, Written] + rest
  {
  }

  /** After a write with the cache on, a flush and the bypass command the word is in its line. */
  lemma CachedThenBypassed(st: State, addr: uint32, v: int32)
    requires Shape(st) && !st.bypass && addr % 0x8000 != CONTROL
    ensures var st1 := Step(st, Request(true, addr, v)).state;
      var st3 := Step(Step(st1, Request(true, CONTROL, 1)).state, Request(true, CONTROL, 2)).state;
      st3.bypass && Hit(st3, addr) && st3.lines[Index(addr)].data[WordInBlock(addr)] == v
  {
    var st1 := Step(st, Request(true, addr, v)).state;
    LinesStay(st1, BLOCKS);
  }

  function FiveWritten(): seq<Answer> { [Written, Written, Written, Written, Written] }

  lemma ThreeAndTwo(rest: seq<Answer>)
    ensures [Written, Written, Written] + ([Written, Written] + rest) == FiveWritten() + rest
  {
  }

  /** From reset, a flush in bypass brings back the cached word over one that was written since. */
  lemma FlushedOverIsStale(mem: seq<int32>, junk: seq<seq<int32>>, addr: uint32, v: int32, v': int32)
    requires |mem| == MEM_WORDS && |junk| == BLOCKS && forall i :: 0 <= i < BLOCKS ==> |junk[i]| == BLOCK_WORDS
    requires addr % 0x8000 != CONTROL
    ensures Answers(Reset(mem, junk), FlushedOver(addr, v, v')) == FiveWritten() + [Read(v)]
    ensures FlatAnswers(mem, FlushedOver(addr, v, v')) == FiveWritten() + [Read(v')]
  {
    var st := Reset(mem, junk);
    CachedThenBypassed(st, addr, v);
    var st3, m3 := ThreeWrites(st, mem, Request(true, addr, v), Request(true, CONTROL, 1), Request(true, CONTROL, 2),
                               WrittenOver(addr, v'));
    FlushUndoesWrite(st3, m3, addr, v');
    ThreeAndTwo([Read(v)]);
    ThreeAndTwo([Read(v')]);
  }
}
