# X-HEEP: verified models of its self-contained algorithms

X-HEEP is a microcontroller platform: Python generators, device drivers in C, a SystemC test bench and example
applications. Most of it is register access. This project models, in Dafny, the parts that carry an algorithm, and
proves what those parts promise. Every loop of the C, C++ and Python code that is modelled appears as a loop (or a
method it was split into) over the same variables, and is proved against a specification that does not mention the
loop; the theorems about each specification stand beside it.

`dafny verify dfyconfig.toml` checks the whole project.

## The parts

| files | what they model |
|---|---|
| `DigitReversal`, `Decimation`, `FixedPoint`, `Fft`, `ExactDft`, `FixedDft` | the in-place radix-2 FFT in 16-bit fixed point, what decimation computes over an exact ring, and how far the one is from the other |
| `CacheSpec`, `CacheProofs`, `CacheBench` | the write-back cache of the SystemC bench in front of a 32 KiB memory |
| `ListData`, `ListHeap`, `ListOrder`, `ListRuns`, `ListSort`, `ListBench` | CoreMark's linked list: bottom-up mergesort on heap nodes, reverse, find, remove and undo, the benchmark body |
| `NumberGrammar`, `CoreState` | CoreMark's state machine, its input block and its corruption passes |
| `Crc` | CoreMark's CRC |
| `NorFlash`, `W25q` | a NOR flash, and the driver loops that split, buffer, erase and program |
| `PatchAxis`, `Dma2d`, `Im2col`, `StridedCopy` | im2col, directly and by padded 2D transfers, and the strided 2D copy of the DMA example |
| `Matmul` | the recursive blocked matrix product |
| `PowersOfTwo`, `RamBank`, `LinkerSection`, `System`, `DmaXbar` | the generator: RAM banks, linker sections, `build` and `validate`, the DMA crossbar split |
| `Mmio` | memory-mapped copies that only use aligned words |
| `MachineInts`, `IntegerFacts`, `Sequences` | fixed-width integers, index arithmetic, sequences of sequences |

## Where the code does less than its description

Each of these is a theorem: an exact condition under which the promise holds. Where a failing input is not plain from
the condition, a lemma gives one.

- **The cache is a flat memory exactly for alias-free blocks.** Memory addresses are masked to 15 bits but tags are
  not. `CacheProofs.TransparentIffAliasFree` says the set of blocks in use makes every run transparent if and only if
  no two of them share a memory block; one 32 KiB window is such a set. `CacheProofs.AliasIsStale` is the failing run.
- **A flush after bypass overwrites memory** with whatever the lines still hold. `CacheProofs.FlushedOverIsStale` is a
  run from reset in which that brings back an old value. `CacheProofs.FlushesAfterSwitch`: after a run from reset, a
  flush and the bypass command, later flushes are harmless if and only if at each of them the memory has kept, or got
  back, every block that the first run asked for last in its line.
- **A flash write fails in the last sector.** Reading a whole sector at 0xFFF000 does not pass the sanity check, so
  `W25q.Driver.EraseAndWrite` succeeds if and only if the length is zero or the range ends at or below 0xFFF000; the
  part before the last sector is written all the same.
- **The transfer form of im2col counts one zero too many** for a kernel tap whose distance to the last tap lies
  strictly between the adapted and the real trailing pad. `Im2col.TransfersAgreeIffGapless`: with at least one element
  per transfer, the two forms agree on every image if and only if the dimensions leave no such gap. Strides of one and
  two never do; `Im2col.GapLayer` is a layer for which they differ.
- **A refused `add_ram_banks` call is not harmless.** It has already advanced the next address past the banks made
  before the refusal. `System.XHeep.AddRamBanks` states exactly when that leaves a hole, and
  `System.RefusedCallLeavesHole` makes such calls. The banks stay in order whatever is refused, and `validate` finds the
  hole: `System.Run` says, for every sequence of calls, that it answers true exactly for the right number of banks, code
  and data first, and a bank behind each address of each section.
- **A flash range that wraps around 32 bits passes the sanity check.** `W25q.RangeAccepted` says when a range is
  accepted; `W25q.Driver.PageWriteWrapper` then programs around the flash.
- **`core_bench_list` need not restore a list with equal indices.** `ListBench.BenchList`: it does if and only if the
  list is sorted by index and nodes with equal indices come, for a positive `finder_idx`, by data value and then by the
  place the searches leave them in, otherwise by that place alone. The data values are those of the items, but for the
  results of operations 0 and 1. `ListBench.TiedNodes` makes a list of three that `ListBench.TiedNodesSwapped` leaves in
  another order, for either call of the program.
- **The crossbar split can accept a negative share**: its closing check looks at the sum and for zeros only
  (`DmaXbar.AcceptedIff`, `DmaXbar.NegativeShareAccepted`). `DmaXbar.DealtIff` is the condition for a proper split.
- **CoreMark's second corruption pass does not always undo the first.** `CoreState.RestoredIff`: with equal seeds the
  block is restored if and only if the first pass turns no visited byte into a comma; `CoreState.BlockNotRestored` calls
  the modelled methods on a block that is not.
- **One of CoreMark's scientific patterns is not scientific.** `CoreState.PatternKinds`: the state machine takes an
  exponent only after a point, and calls `-87e+832` invalid.

## Model

| member | source | states |
|---|---|---|
| DigitReversal.LogFloor | sw/applications/example_fft/fft.h:20-37 | the loop returns the integer logarithm: base^log <= N < base^(log+1), for bases 2 and 4 |
| DigitReversal.BitReversal | sw/applications/example_fft/fft.h:52-67 | shifting digits out of one word and into another reverses the order of the digits |
| DigitReversal.GetBitReversedSeq | sw/applications/example_fft/fft.h:70-74 | the table holds the digit reversal of every index below N |
| DigitReversal.RevLeading | sw/applications/example_fft/fft.h:58-64 | read from the other end: the leading digit becomes the last one |
| DigitReversal.RevInvolutive | sw/applications/example_fft/fft.h:52-67 | reversing the k digits of a number twice restores it, in any base |
| DigitReversal.RevIsPermutation | sw/applications/example_fft/fft.h:70-74 | the reversals of 0 to base^k - 1 stay in that range and are all different |
| PowersOfTwo.IsPow2Means | util/x_heep_gen/ram_bank.py:3-11 | the bit trick accepts exactly the numbers 2^k, and bit_length - 1 is then k |
| PowersOfTwo.IsPowerOfMeans | sw/applications/example_fft/fft.h:39-49 | is_power_of accepts exactly the 16-bit powers of its base, 2 or 4 |
| Decimation.StageZeroDone | sw/applications/example_fft/fft.h:112-116 | the bit-reversed copy is exactly the order the one-point blocks of the recursion have |
| Decimation.ExpectedStep | sw/applications/example_fft/fft.h:137-169 | the recursion's block b of one stage is the butterfly of its blocks 2b and 2b+1 of the stage before |
| Decimation.LastStage | sw/applications/example_fft/fft.h:137-175 | after the last stage the single block is the transform of the whole input |
| Fft.StageZero | sw/applications/example_fft/fft.h:119-131 | every pair becomes its 16-bit sum and difference |
| Fft.Butterfly | sw/applications/example_fft/fft.h:151-167 | one fixed-point butterfly on two points, with 32-bit products and 16-bit results: unless something overflows, the first point moves by the complex product divided by 2^bits and rounded down, the second by its opposite; all other points keep their values |
| Fft.LoadTwiddles | sw/applications/example_fft/fft.h:141-145 | the stage's twiddles are every step-th of the table, and each index stays inside it |
| Fft.Stage | sw/applications/example_fft/fft.h:141-168 | all groups of one stage become butterflies of their old halves |
| Fft.RemainingStages | sw/applications/example_fft/fft.h:134-169 | the stage loop carries the block property from two points up to all N |
| Fft.IterativeFftRadix2 | sw/applications/example_fft/fft.h:106-175 | for every N = 2^m, 2 <= N <= 16384, and every input, the in-place loops compute what recursive decimation computes with the same fixed-point butterfly; unless something overflows, every coefficient is that of the discrete Fourier transform, but for the error of the twiddles and of rounding |
| Fft.RunRadix2 | sw/applications/example_fft/main.c:61-69 | the same for the program's order of calls: table, then transform, from any contents of the table |
| FixedPoint.TruncateOnce | sw/applications/example_fft/fft.h:159-166 | adding a 32-bit product and cutting to 16 bits equals adding the cut product |
| FixedPoint.ButterflyIsLawful | sw/applications/example_fft/fft.h:158-166 | without overflow the results lie on both sides of the first point, at the complex product divided by 2^bits and rounded down |
| FixedDft.ButterflyClose | sw/applications/example_fft/fft.h:158-166 | errors of a butterfly's points and twiddle grow at most threefold, plus 65536 times the twiddle's, plus one for rounding |
| FixedDft.DitClose | sw/applications/example_fft/fft.h:133-169 | through all stages the fixed-point points follow those of the exact decimation within that error |
| FixedDft.TransformIsDft | sw/applications/example_fft/fft.h:106-175 | without overflow each coefficient is that of the discrete Fourier transform with the twiddles' root, within the error that m stages accumulate |
| FixedDft.ExactTransformIsDft | sw/applications/example_fft/fft.h:106-175 | with exact twiddles and products that 2^bits divides, it is that coefficient |
| FixedDft.SmallInputsFit | sw/applications/example_fft/fft.h:151-167 | inputs within 32767 / (2 * 3^(m-1)) do not overflow, for twiddles no longer than one in either part |
| ExactDft.SumSplits | sw/applications/example_fft/fft.h:137-169 | a power sum splits into its even and odd terms, over any commutative ring |
| ExactDft.HalfTurn | sw/applications/example_fft/fft.h:163-166 | when w^h = -1, coefficients j and j+h are sum and difference of the same two halves |
| ExactDft.ImaginaryUnit | sw/applications/example_fft/fft.h:158-160 | the complex product squares the imaginary unit to minus one |
| ExactDft.DecimationIsDft | sw/applications/example_fft/fft.h:106-175 | over any commutative ring and root with w^(N/2) = -1, decimation is the discrete Fourier transform: coefficient i is the sum of x[k] w^(ik) |
| ExactDft.ExactDecimationIsDft | sw/applications/example_fft/fft.h:106-175 | the same for complex numbers over the reals |
| CacheBench.MainMemory.Transport | tb/systemc_tb/MainMemory.h:39-64 | one aligned word read or written, no other word changed |
| CacheBench.CacheMemory.constructor | tb/systemc_tb/Cache.h:60-74 | every line starts invalid with arbitrary data |
| CacheBench.CacheMemory.AddEntry | tb/systemc_tb/Cache.h:110-116 | one line replaced: valid, with the tag of the address |
| CacheBench.CacheMemory.SetWord | tb/systemc_tb/Cache.h:150-158 | one word of one line replaced, however often the entry is added |
| CacheBench.MemoryRequest.CopyFromMemory | tb/systemc_tb/MemoryRequest.h:59-91 | the buffer receives a block, each word address masked to 15 bits; memory is unchanged |
| CacheBench.MemoryRequest.CopyToMemory | tb/systemc_tb/MemoryRequest.h:59-91 | a block written back word by word |
| CacheBench.MemoryRequest.FlushCache | tb/systemc_tb/MemoryRequest.h:127-143 | all valid lines written back in index order |
| CacheBench.MemoryRequest.Fill | tb/systemc_tb/MemoryRequest.h:190-216 | read the new block, write the old one back, replace the line |
| CacheBench.MemoryRequest.Serve | tb/systemc_tb/MemoryRequest.h:113-230 | one turn of the thread is one step of the state machine, in state and in response |
| CacheProofs.HitReadsView | tb/systemc_tb/MemoryRequest.h:164-178 | a hit answers the view: the cached word, or the memory word when not cached |
| CacheProofs.ControlIsLastWord | tb/systemc_tb/MemoryRequest.h:125 | commands are writes to the last word of the memory |
| CacheProofs.SetWordUpdatesView | tb/systemc_tb/Cache.h:150-158 | writing a cached word changes the view at that word only |
| CacheProofs.AllocateKeepsView | tb/systemc_tb/MemoryRequest.h:190-216 | filling a line and writing back the evicted one leaves the view unchanged, when the two do not share a memory block |
| CacheProofs.StepIsFlat | tb/systemc_tb/MemoryRequest.h:113-230 | one request changes the view as a flat memory changes, and a read answers from the view |
| CacheProofs.RunIsFlat | tb/systemc_tb/MemoryRequest.h:113-230 | over every run on alias-free blocks, flushes included, each read answers the last value written to its word or the initial one |
| CacheProofs.OneWindowIsAliasFree | tb/systemc_tb/MemoryRequest.h:66 | the blocks of one 32 KiB window never share a memory block |
| CacheProofs.AliasIsStale | tb/systemc_tb/MemoryRequest.h:194-213 | two blocks with one memory block: the second is read before the first is written back, and answers old data |
| CacheProofs.TransparentIffAliasFree | tb/systemc_tb/MemoryRequest.h:113-230 | a set of blocks makes every run from reset transparent exactly when no two of them share a memory block |
| CacheProofs.FlushKeepsView | tb/systemc_tb/MemoryRequest.h:127-143 | a flush changes neither the view nor the lines |
| CacheProofs.CleanAfterFlush | tb/systemc_tb/MemoryRequest.h:127-143 | after a flush every valid line equals its memory block |
| CacheProofs.BypassKeepsViewIffClean | tb/systemc_tb/MemoryRequest.h:144-149 | setting the bypass keeps the view exactly when memory already holds what the lines hold |
| CacheProofs.FlushThenBypass | tb/systemc_tb/MemoryRequest.h:125-152 | a flush followed by the bypass command hands over to memory without a visible change |
| CacheProofs.BypassRunIsFlat | tb/systemc_tb/MemoryRequest.h:156-161 | in bypass every run without a flush is a flat memory, and the bypass is never left |
| CacheProofs.FlushInBypass | tb/systemc_tb/MemoryRequest.h:127-143 | a flush in bypass leaves memory alone exactly when every line still equals its memory block |
| CacheProofs.FlushesInBypass | tb/systemc_tb/MemoryRequest.h:125-161 | in bypass the memory is the flat one all through a run, flushes included, exactly when every flush finds the lines clean |
| CacheProofs.LinesHoldLast | tb/systemc_tb/MemoryRequest.h:190-216 | after a run from reset each line holds the last block that was asked for and maps to it, or none |
| CacheProofs.FlushesAfterSwitch | tb/systemc_tb/MemoryRequest.h:113-230 | from reset, a run, a flush, the bypass command, another run: its flushes are harmless exactly when at each the memory holds the last blocks of the first run as at the switch; then all reads are those of a flat memory |
| CacheProofs.FlushedOverIsStale | tb/systemc_tb/MemoryRequest.h:127-161 | write, flush, bypass, write, flush, read at one address: the read answers the first value |
| ListData.CalcFunc | sw/applications/coremark/core_list_join.c:86-131 | the value is cached in the low byte with bit 7 set, the rest of the word is kept; a cached value is returned unchanged, and with neither operation 0 nor 1 the value is the low byte itself |
| ListData.Compare | sw/applications/coremark/core_list_join.c:137-159 | the sign of the comparison is the order of the keys; the high bytes are kept, without results both low bytes are rebuilt, and with them a low byte keeps the value `calc_func` has for it, unless operation 0 or 1 gives a new one |
| ListHeap.Find | sw/applications/coremark/core_list_join.c:451-466 | the first node that matches, by index or by the low byte, or the end of the list |
| ListHeap.Reverse | sw/applications/coremark/core_list_join.c:481-493 | the same nodes linked in the opposite order |
| ListHeap.Remove | sw/applications/coremark/core_list_join.c:393-406 | the successor is unlinked and the two items exchanged |
| ListHeap.UndoRemove | sw/applications/coremark/core_list_join.c:424-436 | the exchange and the links are put back |
| ListOrder.TakeSmallerP | sw/applications/coremark/core_list_join.c:568-575 | taking the head of the first run when its key is not larger extends the stable merge |
| ListOrder.TakeSmallerQ | sw/applications/coremark/core_list_join.c:576-582 | taking the head of the second run when its key is smaller extends it too |
| ListOrder.MergeEnds | sw/applications/coremark/core_list_join.c:549-594 | when both runs are used up the merge is a sorted run of both, with every node compared |
| ListRuns.PassAdvances | sw/applications/coremark/core_list_join.c:532-598 | merging the next two runs keeps all runs sorted, full and in their original order |
| ListSort.Take | sw/applications/coremark/core_list_join.c:584-593 | one node moves from the head of a run to the tail of the list being built; no other link changes |
| ListSort.Merge | sw/applications/coremark/core_list_join.c:549-594 | the two runs at p and q become one sorted run at the tail, whatever the comparison rewrites in the items |
| ListSort.PassMerges | sw/applications/coremark/core_list_join.c:532-598 | one pass merges the runs in pairs and halves their number, rounding up |
| ListSort.SortPasses | sw/applications/coremark/core_list_join.c:524-608 | the passes end, with a single sorted run |
| ListSort.MergeSort | sw/applications/coremark/core_list_join.c:516-612 | on a non-empty list: the same nodes relinked, sorted by key, equal keys in their old order; with two or more nodes every item has been compared, so every low byte is rebuilt or cached; high bytes are kept |
| ListBench.MoveUp | sw/applications/coremark/core_list_join.c:206-212 | the node after the found one becomes the second of the list |
| ListBench.FindTurn | sw/applications/coremark/core_list_join.c:194-213 | one turn: with a first match behind the first node the list starts with its last node and the one before the match, and the others follow in the opposite order; without one it is just reversed |
| ListBench.TurnNumber | sw/applications/coremark/core_list_join.c:190-219 | turn n searches for its own index, counted up in 16 bits, or without one for n as a byte, and rearranges the list accordingly |
| ListBench.FindLoop | sw/applications/coremark/core_list_join.c:190-219 | any number of turns leaves the order the recursive description gives: each turn reverses the list and, unless the match was first, moves the node before it to second place; the index searched for counts up in 16 bits |
| ListBench.FindAndSort | sw/applications/coremark/core_list_join.c:186-223 | after the searches a positive index sorts by data value, stably; otherwise that order stays; a cached value counts as it is, that of operations 0 and 1 as whatever they returned, any other as the low byte; high bytes are kept |
| ListBench.RemoveAndUndo | sw/applications/coremark/core_list_join.c:224-238 | after remove, the walk and undo, every node has its own item again and the list is as before |
| ListBench.OneStableOrder | sw/applications/coremark/core_list_join.c:239-240 | an order has only one stable sort by a key |
| ListBench.RestoredIff | sw/applications/coremark/core_list_join.c:239-240 | a stable sort gives a list back exactly when the list is sorted and its nodes with equal keys come in its order |
| ListBench.BenchList | sw/applications/coremark/core_list_join.c:175-252 | with at least three nodes: the list ends sorted by index, nodes with equal indices by data value for a positive `finder_idx` and then by the place the searches left, otherwise by that place; every node has its own item, every low byte is rebuilt; the list is restored, links and head included, exactly when it was in this order before the call, so always when its indices increase; equal bytes stay as they were |
| ListBench.OrderTold | sw/applications/coremark/core_list_join.c:222-240 | sorted stably after being sorted stably by data: the same order as by index, data value and place, told without the order in between |
| ListBench.ResultsUnused | sw/applications/coremark/core_list_join.c:86-131 | when no item calls operation 0 or 1, that order does not depend on what they return |
| ListBench.TiedNodes | sw/applications/coremark/core_list_join.c:239-240 | three nodes sorted by index, the last two with one index, and no zero byte |
| ListBench.TiedNodesSwapped | sw/applications/coremark/core_list_join.c:175-252 | after one search, for a `finder_idx` of 1 or -1, those two nodes have changed places |
| ListBench.HitNodes | sw/applications/coremark/core_list_join.c:194-213 | three nodes sorted by index, the first two with one index, the second with a zero byte |
| ListBench.HitRestored | sw/applications/coremark/core_list_join.c:175-252 | one search by the low byte finds the second node, and its move restores the list: without it the first two would change places |
| NumberGrammar.ScanClassifies | sw/applications/coremark/core_state.c:222-347 | the state after any text says exactly which format it has: empty, a sign, an integer, a float, a float with E, with E and sign, scientific, or none of these |
| CoreState.Transition | sw/applications/coremark/core_state.c:233-347 | one call reads one token from a text ended by NUL, never past the NUL, and at least one byte if there is one |
| CoreState.ConsumeReads | sw/applications/coremark/core_state.c:239-246 | the token has no comma, its state is the machine's verdict on it, and it ends at a comma, the NUL or an invalid byte |
| CoreState.ScanBlock | sw/applications/coremark/core_state.c:83-92 | the scan ends with one verdict for each token of the text before the NUL |
| CoreState.SlicesPartition | sw/applications/coremark/core_state.c:83-92 | the slices the tokens take, laid end to end, are the text, and each verdict is the machine's on its own slice |
| CoreState.Corrupt | sw/applications/coremark/core_state.c:94-100 | exactly the bytes at multiples of the step are changed, commas excepted |
| CoreState.FlipTwice | sw/applications/coremark/core_state.c:97-118 | a byte comes back after two passes exactly when the first does not make it a comma |
| CoreState.CommaStays | sw/applications/coremark/core_state.c:97-118 | a minus sign under the seed 1 is not restored |
| CoreState.RestoredIff | sw/applications/coremark/core_state.c:94-120 | with equal seeds the block is restored exactly when no visited byte becomes a comma |
| CoreState.InitState | sw/applications/coremark/core_state.c:156-212 | the block is the patterns the seed selects, in order, each with a comma, as many as fit, then at least two zeros |
| CoreState.PatternsAreTable | sw/applications/coremark/core_state.c:131-144 | the source's patterns are short and free of NULs |
| CoreState.PatternKinds | sw/applications/coremark/core_state.c:131-144 | each pattern is judged to be of its kind, integer, float, scientific or invalid, but for the third scientific one, which is invalid |
| CoreState.NulSurvives | sw/applications/coremark/core_state.c:94-103 | with a step of two or more a NUL is left in the block for the second scan |
| CoreState.BenchState | sw/applications/coremark/core_state.c:62-120 | on a fresh block: the verdicts of the first scan are those of its text, those of the second of the text the first pass leaves, which ends inside the block, and every byte has been through both passes |
| CoreState.BlockNotRestored | sw/applications/coremark/core_state.c:62-120 | the block made from seed 15 starts with a minus sign, which two passes with seed 1 leave a comma |
| Crc.Crcu8 | sw/applications/coremark/core_util.c:181-205 | the bit loop is eight steps of the shift register |
| Crc.Crcu16 | sw/applications/coremark/core_util.c:206-225 | low byte then high byte is sixteen steps on the word |
| Crc.Crcu32 | sw/applications/coremark/core_util.c:213-219 | a 32-bit value is the two-word message low half, high half |
| Crc.StepOn | sw/applications/coremark/core_util.c:191-200 | the xor before the shift and the bit set after it are one flip of the reflected polynomial |
| Crc.BitsLinear | sw/applications/coremark/core_util.c:181-205 | the register is linear over GF(2) in data and initial value together |
| Crc.BitsInjective | sw/applications/coremark/core_util.c:181-205 | for fixed data different registers stay different |
| Crc.WordFoldsIn | sw/applications/coremark/core_util.c:206-212 | feeding a word equals adding it to the register and feeding zeros |
| Crc.WordInjective | sw/applications/coremark/core_util.c:206-212 | for a fixed start different words give different values |
| Crc.MessageLinear | sw/applications/coremark/core_util.c:206-212 | the CRC of the bitwise difference of two messages is the difference of their CRCs |
| Crc.OneWordDetected | sw/applications/coremark/core_util.c:206-212 | two messages of one length that differ in exactly one word never have the same CRC |
| NorFlash.ProgramInPage | sw/device/bsp/w25q/w25q.c:1516-1522 | a program that does not cross a page boundary is not affected by the wrap-around |
| NorFlash.NotAround | sw/device/bsp/w25q/w25q.c:1540 | bytes programmed one by one, their addresses cut to the flash, are the plain range when it ends inside the flash |
| NorFlash.ProgramOn | sw/device/bsp/w25q/w25q.c:1518-1528 | a piece that is not cut continues a programming that may have gone around |
| NorFlash.BitsKept | sw/device/bsp/w25q/w25q.c:1518-1528 | programmed around the flash, a cell keeps exactly the bits that it and every byte that comes to its address have |
| NorFlash.RewriteSector | sw/device/bsp/w25q/w25q.c:411-431 | erase, then program the old sector with some bytes replaced: cell by cell, those hold the new bytes and all others what they held |
| W25q.RangeAccepted | sw/device/bsp/w25q/w25q.c:1667-1681 | a range is accepted exactly when it starts inside the flash, is not empty, and ends inside it or at least 2^32 |
| W25q.Driver.ReadWords | sw/device/bsp/w25q/w25q.c:381-384 | words leave the FIFO in order and land at their own places |
| W25q.Driver.ReadTail | sw/device/bsp/w25q/w25q.c:386-391 | the last partial word fills the remaining bytes and no byte after them |
| W25q.Driver.Drain | sw/device/bsp/w25q/w25q.c:361-391 | for every length and every FIFO depth that is a multiple of four: all ceil(length/4) words are taken, the buffer holds the streamed bytes, nothing beyond is written, and no word is awaited that is not sent |
| W25q.Driver.ReadStandard | sw/device/bsp/w25q/w25q.c:322-394 | the buffer equals the flash range, or the sanity check's error and nothing |
| W25q.Driver.FillTx | sw/device/bsp/w25q/w25q.c:1559-1570 | the words sent carry the bytes of the buffer, a padded word last |
| W25q.Driver.PageWrite | sw/device/bsp/w25q/w25q.c:1532-1589 | one program of at most a page, with the wrap-around inside it, at the address cut to 24 bits |
| W25q.Driver.FirstPiece | sw/device/bsp/w25q/w25q.c:1504-1511 | the 8-bit length of the first piece is not truncated and ends at a page boundary or at the end of the data |
| W25q.Driver.PageWriteWrapper | sw/device/bsp/w25q/w25q.c:1485-1530 | for every 32-bit address and length: pieces of 1 to 256 bytes inside single pages, old AND data on the range and old elsewhere; an accepted range that wraps is programmed around the flash; a range that is not accepted changes nothing |
| W25q.Driver.Erase4k | sw/device/bsp/w25q/w25q.c:1131-1156 | the sector of the address becomes FFh |
| W25q.Driver.RewriteInRam | sw/device/bsp/w25q/w25q.c:426-427 | the sector buffer holds the new bytes in place, and its old bytes elsewhere |
| W25q.Driver.EraseAndWrite | sw/device/bsp/w25q/w25q.c:402-441 | across any number of sectors, cell by cell: the range below 0xFFF000 holds the data, every other cell is unchanged, and the call succeeds exactly when nothing is left over |
| W25q.Driver.WriteAndReadBack | sw/device/bsp/w25q/w25q.c:322-441 | what is written below the last sector is read back, and the flash before and after it is unchanged |
| PatchAxis.LeadingExact | sw/applications/example_im2col/im2col_lib.c:218-229 | the leading zeros are exactly the patches whose tap lies before the image |
| PatchAxis.TrailingExactIffNoGap | sw/applications/example_im2col/im2col_lib.c:245-261 | the trailing zeros are exactly the patches past the image if and only if the tap is not in the gap |
| PatchAxis.SpanIsInside | sw/applications/example_im2col/im2col_lib.c:283-284 | outside the gap the elements between the zeros are exactly those inside the image |
| PatchAxis.BetweenZerosIsInside | sw/applications/example_im2col/im2col_lib.c:283-290 | even in the gap nothing outside the image is transferred |
| PatchAxis.GaplessIffNoGap | sw/applications/example_im2col/im2col_lib.h:96-100 | a test of the dimensions that says no tap falls in the gap |
| PatchAxis.SmallStrideIsGapless | sw/applications/example_im2col/im2col_lib.h:96-100 | strides of one and two leave no gap |
| PatchAxis.GapExample | sw/applications/example_im2col/im2col_lib.c:249-261 | dimensions with a tap in the gap and a positive transfer |
| Dma2d.RowTurns | hw/ip/dma/rtl/dma_obiread_fsm.sv:148-180 | the second increment leads from the end of a row to the start of the next |
| Dma2d.RunRow | hw/ip/dma/rtl/dma_obiread_fsm.sv:99-180 | one padded row: zeros around the extracted elements, the source pointer moved only past those |
| Dma2d.Run | hw/ip/dma/rtl/dma_padding_fsm.sv:115-250 | the whole padded block is written row after row at the destination, and nothing else |
| Dma2d.BlockInNumbers | hw/ip/dma/rtl/dma_obiread_fsm.sv:148-180 | which element of memory comes to which place of the padded block |
| Im2col.PlaceOfIndex | sw/applications/example_im2col/im2col_lib.c:132-133 | position and (tap, batch, patch row, patch column) determine each other |
| Im2col.ExpectedInNumbers | sw/applications/example_im2col/im2col_lib.c:112-144 | which pixel of the tensor, or zero, comes to which place of the output, told from the dimensions |
| Im2col.Direct | sw/applications/example_im2col/im2col_lib.c:112-149 | every position holds the pixel under its tap, zero outside the image |
| Im2col.CountersAdvance | sw/applications/example_im2col/im2col_lib.c:331-370 | the three wrapping counters equal c % FW, (c / FW) % FH and c / (FH * FW) for every c |
| Im2col.SourceIsPixel | sw/applications/example_im2col/im2col_lib.c:289-297 | the pointer walk of a transfer visits the strided pixels under the tap |
| Im2col.TransferFits | sw/applications/example_im2col/im2col_lib.c:283-317 | a transfer fills one output row exactly and reads inside the tensor |
| Im2col.ByTransfers | sw/applications/example_im2col/im2col_lib.c:194-371 | the version built from transfers writes the promised values wherever no tap is in a gap, and in any case what its transfers deliver |
| Im2col.TransfersAgreeIffGapless | sw/applications/example_im2col/im2col_lib.c:112-371 | with positive transfer sizes, the two versions agree on every image if and only if the dimensions leave no gap |
| Im2col.GapLayer | sw/applications/example_im2col/im2col_lib.c:249-261 | a layer and an image for which the two versions differ |
| StridedCopy.CounterStep | sw/applications/example_dma_2d/main.c:234-264 | the stride and pad counters equal remainder, quotient and the pad positions met |
| StridedCopy.Reference | sw/applications/example_dma_2d/main.c:215-267 | for all pads, sizes and strides the counter-driven loop computes the closed form: zero off the grid or in a pad, else the strided source element |
| StridedCopy.CellInNumbers | sw/applications/example_dma_2d/main.c:215-267 | which source element, or zero, comes to each output cell, told from the strides, pads and sizes |
| StridedCopy.SourceVisited | sw/applications/example_dma_2d/main.c:83-86 | SRC_INC_D1 and SRC_INC_D2 visit the strided source elements |
| StridedCopy.TargetSteps | sw/applications/example_dma_2d/main.c:83-86 | DST_INC_D1 and DST_INC_D2 step along the output grid |
| StridedCopy.GridIsTarget | sw/applications/example_dma_2d/main.c:63-68 | every grid position is the target of one padded element |
| StridedCopy.Walk | sw/applications/example_dma_2d/main.c:145-166 | from a cleared output the pointer walk leaves what the reference loop leaves |
| Matmul.RowTimesColumn | sw/applications/example_matmul/main.c:77-80 | the accumulator is the inner product, wrapped to 32 bits; no addition overflows exactly when every partial sum fits |
| Matmul.BlockSize | sw/applications/example_matmul/main.c:72-85 | the block of C gains the product of the blocks; nothing else changes; no addition overflows exactly when the sums of each element fit |
| Matmul.DotSplits | sw/applications/example_matmul/main.c:98-105 | an inner product is the sum of the inner products of its halves |
| Matmul.RowPicks | sw/applications/example_matmul/main.c:75-81 | a row of A that is zero but for one element picks that element's row of B, times the element |
| Matmul.SingleOnes | sw/applications/example_matmul/main.c:75-81 | the product of two matrices with single ones is a single one if the inner places agree, else zero |
| Matmul.Additive | sw/applications/example_matmul/main.c:75-81 | the product is additive in either matrix |
| Matmul.QuadrantsAddUp | sw/applications/example_matmul/main.c:98-105 | the eight quadrant products add up to the product of the whole blocks, position by position |
| Matmul.Tiled | sw/applications/example_matmul/main.c:89-107 | for block sides 4 * 2^k the recursion does what the triple loop does; no addition leaves the range of int32_t exactly when that holds for each of its eight calls, made on what the calls before it leave in C |
| Matmul.DotBounded | sw/applications/example_matmul/main.c:77-80 | n products of two int8 are within n * 2^14 |
| Matmul.QuadrantLight | sw/applications/example_matmul/main.c:98-105 | between its calls the recursion leaves in C no more than the products added so far, so that the next call starts within its bound |
| Matmul.LightTiledFits | sw/applications/example_matmul/main.c:89-107 | while the block and its products add up to at most 2^16 products an element, no addition in any call of the recursion leaves the range of int32_t |
| Matmul.ZeroStartIsExact | sw/applications/example_matmul/main.c:46-62 | the sums a product with sides up to 2^16 is made of fit int32_t |
| Matmul.Multiply | sw/applications/example_matmul/main.c:46-62 | either version leaves the exact product in C, with the identity on either side the other matrix, and no addition on the way overflows, in the triple loop or in any call of the recursion |
| RamBank.AcceptedBank | util/x_heep_gen/ram_bank.py:29-65 | accepted are exactly the sizes 2^k at aligned addresses with an offset below the size of the group; the range is then 2^(k + 10 + level) bytes long and ends aligned |
| RamBank.BanksDisjoint | util/x_heep_gen/system.py:101-158 | two banks are parts of one interleaved group at different offsets, or do not overlap |
| RamBank.TiledIffNumbered | util/x_heep_gen/system.py:101-158 | ordered banks leave no hole exactly when the index of the next bank is its position |
| RamBank.TiledIffBacked | util/x_heep_gen/system.py:101-158 | and exactly when each address below the next one has a bank |
| RamBank.SizeSumIsHeld | util/x_heep_gen/system.py:307-315 | the sizes add up to the number of addresses the banks hold, holes or not |
| RamBank.SizeSumIsNextIffTiled | util/x_heep_gen/system.py:307-315 | that is the next address exactly when there is no hole, and less otherwise |
| RamBank.BackedIffEndsBelow | util/x_heep_gen/system.py:272-299 | without a hole an address range is backed exactly when it ends by the next address |
| System.XHeep.MakeContBanks | util/x_heep_gen/system.py:101-105 | the banks made before a refusal are laid out in order, and the next address is past them |
| System.ContBanksInSizes | util/x_heep_gen/system.py:102-106 | bank by bank: its own size, the start where the bank before it ends, the next index |
| System.XHeep.AddRamBanks | util/x_heep_gen/system.py:78-110 | accepted exactly for a non-empty list of powers of two with an unused name; accepted or refused, the banks stay whole groups in address order below the next address; a hole is left exactly by a refusal after the first size was accepted |
| System.XHeep.AddRamBanksIl | util/x_heep_gen/system.py:115-158 | accepted exactly on an interconnect that supports it, for powers of two and an unused name; then one group of banks shares one range with offsets from zero; a hole is left exactly when only the name is refused |
| System.XHeep.AddLinkerSection | util/x_heep_gen/system.py:175-192 | a checked section with an unused name is added, any other changes nothing |
| System.XHeep.ApplyOverride | util/x_heep_gen/system.py:67-75 | an override allocates its own banks and turns later calls into no-ops |
| System.XHeep.RamSizeAddress | util/x_heep_gen/system.py:307-315 | the number of addresses the banks hold, which is where the next bank would start exactly when there is no hole |
| LinkerSection.BySize | util/x_heep_gen/linker_section.py:55-73 | a section by size is accepted exactly when named, not negative and not empty |
| LinkerSection.SortIsStable | util/x_heep_gen/system.py:415 | sections ordered by start, none lost, equal starts in their old order |
| LinkerSection.InferEnds | util/x_heep_gen/system.py:417-429 | names, starts and given ends are kept; a missing end becomes the next section's start, the last one the end of the last bank, and without a bank it raises |
| LinkerSection.OneSectionEach | util/x_heep_gen/system.py:417-429 | when all ends were missing, every address from the first start to the end of the banks lies in exactly one section |
| System.XHeep.Build | util/x_heep_gen/system.py:400-429 | the override group is added, then the sections are sorted and completed; afterwards every section has an end, and the layout is as good as before |
| System.XHeep.ScanSection | util/x_heep_gen/system.py:272-299 | over ordered banks, holes or not, the scan accepts a section exactly when each of its addresses has a bank |
| System.XHeep.Validate | util/x_heep_gen/system.py:237-303 | in every state: True exactly with 2 to 16 banks, code and data named and in first and second place, every section checked and each of its addresses in a bank; raises exactly when a section fails its check |
| System.Run | util/x_heep_gen/system.py:78-303 | after any calls in any order, refused ones caught, the same of validate, and the size is the number of addresses held |
| System.RefusedCallLeavesHole | util/x_heep_gen/system.py:102-110 | calls, one of them refused, after which the banks have a hole |
| System.HoleIsReported | util/x_heep_gen/system.py:276-280 | a section across that hole fails validation, though it ends below the next address |
| DmaXbar.Split | util/mcu_gen.py:676-697 | full shares, then a remainder, then ones |
| DmaXbar.ShareInNumbers | util/mcu_gen.py:676-694 | every port's share, told from the parameters |
| DmaXbar.SumOfShares | util/mcu_gen.py:689-694 | what any number of ports has received so far |
| DmaXbar.DealtIff | util/mcu_gen.py:676-697 | every port gets 1 to K channels and all are dealt out, exactly when the channels fill the ports or cover those after the full ones |
| DmaXbar.AcceptedIff | util/mcu_gen.py:696-697 | what the closing check accepts |
| DmaXbar.NegativeShareAccepted | util/mcu_gen.py:693-697 | an accepted input with a negative share |
| Mmio.Memcpy32 | sw/device/lib/base/mmio.c:39-113 | only aligned word accesses; writing changes exactly the bytes [offset, offset+len), reading fills exactly buf[0..len); and the exact number of volatile reads |
| Mmio.WordsTouchedBound | sw/device/lib/base/mmio.h:373 | the documented bound: never more than len/4 + 2 reads |
| Mmio.BoundReached | sw/device/lib/base/mmio.h:373 | and the bound is reached |
| Mmio.RoundTrip | sw/device/lib/base/mmio.c:115-126 | bytes copied to the device and back are the same bytes |

## Left out

- How the twiddle table is computed: the bound on the transform's error takes its precision as a parameter. Inputs that overflow are followed in 16 bits, not compared with the transform.
- FFT lengths 1 and 32768: the C loop's 16-bit counters do not reach their bound for 32768.
- The radix-4 transform: its stages after the first compute a twiddled value they never use.
- The element type of the index table is `uint16_t` in the code and a natural number here; the values are shown to fit.
- SystemC time, events, logs and statistics; more than one outstanding request; unaligned requests and byte enables other than 0xF; cache geometries other than the default 256 lines of 16 bytes.
- ListData.CalcFunc: the state and matrix benchmarks it can call are arbitrary results, and the checksum fields of `core_results` are not kept.
- `core_list_init` and `core_list_insert_new`, and the value `core_bench_list` returns.
- W25q.Driver.ReadStandard: lengths from 2^31 on, for which the loop's signed byte counters overflow.
- ListBench.BenchList: what operations 0 and 1 return for an item that has no cached value is arbitrary.
- CoreState.BenchState: transition counts and the CRC are not kept; the final counts are how often each state occurs in the two sequences of verdicts.
- A block size of zero or one in `core_init_state`, and a step below two in `core_bench_state`: then no NUL need survive the corruption.
- Crc.Crcu8: the byte is held in a 16-bit variable, and `crcu32` takes the two halves of its argument.
- SPI commands, segments, FIFO status registers, the DMA and quad variants of flash transfers; busy waiting; the simulation branches that skip the erase. Buffers shorter than the length given for them.
- W25q.Driver.Erase4k: the source function returns no value when it succeeds; no caller looks at it.
- Im2col.ByTransfers: transfers without any element between their zeros, and the widths of the DMA's size, pad and increment registers; the zero fill of the output before either version, which both overwrite; the third version, on a dedicated peripheral.
- Dma2d.Run: FIFOs, bus handshakes and the two state machines' timing; only the elements and their order are modelled. Transposition, sign extension and window counts.
- StridedCopy.Reference: strides above 256 and pads of 65536 or more, which the counters' 8 and 16 bits do not hold.
- Signed 32-bit overflow, undefined in C, is modelled as wrap-around in `Matmul.BlockSize` and in the FFT's products.
- Matmul.Tiled: sides that do not halve down to 4, for which the recursion does not end.
- Python's type checks; printed messages; overlapping sections, which `validate` only prints; bank names, iterators and word counts.
- Crossbar parameters are the parsed numbers; a single port, and the limits checked before the split, are not modelled.
- Mmio.Memcpy32: offsets that wrap around 32 bits, and device registers whose reads or writes have side effects.
- The rest of the generators, drivers, linker scripts, boot ROM, and the examples that only touch hardware.
