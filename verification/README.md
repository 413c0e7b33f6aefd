# Verification of hwtLib components

A Dafny project that models components of hwtLib, a library of hardware generators, and proves what they promise.
`dafny verify dfyconfig.toml` checks all of it.

Most components are synchronous circuits. Each of these is modelled twice: as a step function on a datatype of its
registers, about which the properties are proved for all runs, and as a class whose fields are the registers and
memories and whose `Clk` method, one clock edge, is proved to be that step. A signal that the source leaves undefined
is a parameter (`x`, `undefined`), so nothing is assumed about it. Runs are sequences of inputs, one for every clock
edge, and every property of a run holds for all of them: any valid and ready signals, any data. Code that runs when a
circuit is generated (the CRC matrix, the sorting network, the sharing of timers, the groups and regions of an
interconnect) is modelled as methods with its loops, proved against specification functions.

Conventions of the generators: `x[hi:lo]` excludes `hi`, `Concat` takes the most significant part first, `log2ceil` is
at least 1, an unassigned register keeps its value, and a right-hand side reads old values unless it says `.next`.

| files | component |
|---|---|
| GrayCode, FifoAsync, FifoAsyncReverting | the FIFO between two clock domains, and why its synchronizers must not go back |
| CuckooTables, CuckooHashTable, CuckooDelete | the cuckoo hash table around its state machine, and a delete that goes wrong |
| BitonicSorter | the bitonic sorting network |
| Bits, CrcComb, CrcPolynomial, CrcStream | CRC: the XOR matrix, what it computes, and the word-by-word register |
| Timers, TimerTicks | the sharing of timers, and the counters generated for them |
| Queues, HandshakedFifo, HandshakedReg | the base FIFO with its handshaked wrapper, and register pipelines |
| FifoDrop, FifoCopy, FifoArray | FIFOs that discard, that replay frames, and many lists in one memory |
| Bcd, BinToBcd, BcdToBin, BcdRoundTrip | the double-dabble converters, each way and connected |
| StreamResizer | the AXI-stream width converter |
| Datapump, DatapumpRead, DatapumpSizes | splitting requests into AXI bursts, frames out of the words that come back, and when splitting is needed |
| AxiToAxiLite | the bridge from AXI to AXI-Lite |
| InterconnectGroups, InterconnectRegions | independent groups of a bus interconnect, and its address regions |
| Arithmetic, Wrappers | shared arithmetic and datatypes |

## Where the code does less than it promises

Each of these is proved with the exact condition under which the code is right, and with an example where it is not.

- Deleting an absent key whose cells are all taken destroys another item
  (`CuckooHashTable.DeleteDestroysExactly`, `CuckooDelete.DeleteCanDestroy`).
- `FifoDrop` copies a stale flag when it discards in the clock in which the reader leaves the last slot, the committed
  words being looped (`FifoDrop.StepIsRightExactly`, `DiscardAtWrapFills`).
- `FifoArray` writes a next pointer also for a new list; if the unused insert address is that of an item in the middle
  of a list, it cuts that list (`FifoArray.StepIsRightExactly`, `CutHappens`).
- The CRC matrix treats the lowest coefficient of the polynomial as 1 (`CrcComb.AgreesExactly`,
  `EvenConstantDiffers`).
- The width converter drops a beat without valid bytes that completes a word of several beats
  (`StreamResizer.RoundTripExactly`, `EmptyBeatIsDropped`).
- The datapump does not use splitting for some configurations whose unaligned requests need one word more than a burst
  has, and then the length wraps; with requests of one word it always reads a single word
  (`DatapumpSizes.UnsplitFitsExactly`, `SplittingMissed`, `SecondWordMissed`).
- The datapump compares addresses with the chunk size and not with `ALIGNAS`: if chunks are larger than their promised
  alignment it takes requests for which it issues nothing, and it does not report them
  (`DatapumpSizes.AllPassExactly`, `NothingIsReported`, `RequestDropped`).
- Two counters of the cuckoo hash table are one bit short if their largest value is a power of two greater than 1
  (`CuckooHashTable.CleanAddressFitsExactly`, `LookupCountFitsExactly`).
- The bridge to AXI-Lite adds the word size to the start address as it is, which is the address of AXI only for aligned
  starts (`AxiToAxiLite.BeatsAreIncrExactly`, `UnalignedStartDiffers`).

Where the code and its documentation differ, the models follow the code: an extra condition of a `StreamNode` holds
back only its own port, not all of them (hwtLib/handshaked/streamNode.py:300-331), and `FifoArray` marks the last item
of a list in a mask, not by a next pointer to itself (hwtLib/mem/fifoArray.py:210).

## Model

| member | source | states |
|---|---|---|
| `GrayCode.BinToGrayIsGray` | hwtLib/logic/cntrGray.py:16-20 | shifting and XORing a number computes its bitwise Gray word, for every width and number |
| `GrayCode.GrayInjective` | hwtLib/logic/cntrGray.py:16-20 | different numbers have different Gray words |
| `GrayCode.GrayStep` | hwtLib/logic/cntrGray.py:16-54 | counting one further, the wrap included, changes exactly one bit of the Gray word |
| `GrayCode.HalfTurnTest` | hwtLib/mem/fifoAsync.py:97-101 | comparing with the word whose top two bits are inverted holds exactly for pointers DEPTH apart modulo 2*DEPTH, for every pair of pointers |
| `FifoAsync.SampleIsOldOrNew` | hwtLib/mem/fifoAsync.py:67-78 | a synchronizer that takes every bit of a pointer in flight old or new, independently, ends up with the old or the new pointer |
| `FifoAsync.FullTest` | hwtLib/mem/fifoAsync.py:96-101 | on pointers at most DEPTH apart the registered comparison says full exactly if DEPTH words lie between them |
| `FifoAsync.OlderPointerHidesFull` | hwtLib/mem/fifoAsync.py:96-101 | why a pointer bit once seen new must not be seen old again: against the pointer before, a full memory does not look full |
| `FifoAsyncReverting.RevertingOverflows` | hwtLib/mem/fifoAsync.py:56-113 | a run from reset in which a pointer bit is once seen old again after it was seen new, and which ends with five words in four slots |
| `FifoAsync.EmptyTest` | hwtLib/mem/fifoAsync.py:115-117 | on pointers at most DEPTH apart the registered comparison says empty exactly if they are equal |
| `FifoAsync.StepKeepsInv` | hwtLib/mem/fifoAsync.py:56-130 | every edge of either clock keeps the invariant: each copy of a pointer was current at some time, later stages are older, a flag is up exactly if no word, or no slot, that its side has been told of is left, the memory holds the words between the pointers |
| `FifoAsync.Safety` | hwtLib/mem/fifoAsync.py:56-130 | for every interleaving of the two clocks and every resolution of the sampled bits: no overflow, no underflow, the words read are the first words written, and the two sides never address the same slot in use |
| `FifoAsync.FlagsAreExact` | hwtLib/mem/fifoAsync.py:96-117 | after every edge, whatever is transferred and arrives in it, the empty flag is up exactly if as many words are read as the pointer in the second stage said were written, and the full flag exactly if DEPTH more are written than it said were read |
| `FifoAsync.RefusedExactly` | hwtLib/mem/fifoAsync.py:102-121 | in every run a read is refused only if all words that the reader has been told of are read, a write only if all slots that the writer has been told to be free are taken; every other access transfers a word |
| `FifoAsync.EmptyBecomesExact` | hwtLib/mem/fifoAsync.py:115-121 | after three read clocks without late bits, with reads in them or not, the empty flag is exactly 'everything written has been read' |
| `FifoAsync.FullBecomesExact` | hwtLib/mem/fifoAsync.py:96-106 | after three write clocks without late bits, with writes in them or not, the full flag is exactly 'DEPTH words stored' |
| `FifoAsync.Fifo.DataInClk` | hwtLib/mem/fifoAsync.py:96-113 | one edge of dataIn_clk on the registers, the memory array and the synchronizer of the read pointer is the specified step |
| `FifoAsync.Fifo.DataOutClk` | hwtLib/mem/fifoAsync.py:115-130 | one edge of dataOut_clk is the specified step |
| `FifoAsync.Fifo.GrayOf` | hwtLib/logic/cntrGray.py:16-20 | the word sent to the other domain is the Gray word of the pointer |
| `CuckooTables.StoreItem` | hwtLib/mem/cuckooHashTable.py:120-140 | writing an item into its free or own cell makes the tables represent the map with it, each key staying in at most one table at its own hash |
| `CuckooTables.SwapItem` | hwtLib/mem/cuckooHashTable.py:230-241 | writing over another item makes exactly that item the one the tables are missing |
| `CuckooHashTable.ResolveTarget` | hwtLib/mem/cuckooHashTable.py:142-182 | with the result of a lookup the target becomes one hot: the cell of the key, a free cell, or, with insertFinal low, a cell of another item while all cells of the key are taken |
| `CuckooHashTable.CuckooTable.ResolveTarget` | hwtLib/mem/cuckooHashTable.py:159-181 | the next insertTargetOH and insertFinal registers: found, else first empty, else rotated |
| `CuckooHashTable.StepKeepsInv` | hwtLib/mem/cuckooHashTable.py:332-424 | every clock with any inputs keeps the invariant: tables, stash and pipeline together represent the map that the commands taken so far define |
| `CuckooHashTable.TablesHoldTheMap` | hwtLib/mem/cuckooHashTable.py:332-424 | in every run that starts with a clean: whenever the component is idle, the tables hold exactly the map, each key in one table at its own hash |
| `CuckooHashTable.NothingIsLostInFlight` | hwtLib/mem/cuckooHashTable.py:230-241 | while an item is being swapped, the tables miss exactly the item in the stash; when it is popped, exactly that is missing from then on |
| `CuckooHashTable.CommandsAreTaken` | hwtLib/mem/cuckooHashTable.py:332-364 | in every run the component takes a clean, delete or insert exactly when it is idle, no lookup is under way and none before it in the order of the ports is offered; and a lookup exactly when its counter and the stash have room |
| `CuckooHashTable.InsertsAreAnswered` | hwtLib/mem/cuckooHashTable.py:314-330 | in every run as many answers are handed over as inserts were taken, but for one insert under way, and none is missing when the component is idle |
| `CuckooHashTable.AnswersAreRight` | hwtLib/mem/cuckooHashTable.py:314-330 | every answer belongs to the insert under way and stays until it is taken; without pop it names the binding just stored, and the tables are the whole map; with pop MAX_REINSERT items were replaced, it names the one binding that is missing, and the tables are the map without it |
| `CuckooHashTable.SwapsGoInTurn` | hwtLib/mem/cuckooHashTable.py:166-178 | the items replaced for one insert are replaced in one table after the other in turn, so with more than one table an item is not put over the one that replaced it |
| `CuckooHashTable.LookupsAreAnswered` | hwtLib/mem/cuckooHashTable.py:276-295 | every lookup result is the answer that the map had when the lookup was taken, in order, under any number of overlapping lookups |
| `CuckooHashTable.LookupsFinish` | hwtLib/mem/cuckooHashTable.py:276-295 | from any state of any run, under any commands: if tables and consumer are ready, the oldest m lookups are answered, in order and rightly, within m clocks, or m + 1 if none of them is in the tables yet |
| `CuckooHashTable.LookupFinishes` | hwtLib/mem/cuckooHashTable.py:276-312 | a lookup that is taken is answered, as the map was then, within MAX_LOOKUP_OVERLAP such clocks |
| `CuckooHashTable.LookupsNeverOverlapUpdates` | hwtLib/mem/cuckooHashTable.py:297-312 | in a clock that writes a table no lookup is anywhere in the component or being taken |
| `CuckooHashTable.CleanAddressFitsExactly` | hwtLib/mem/cuckooHashTable.py:104-118 | in all runs the address of a clean stays in its register, whose width is log2ceil of its largest value, if and only if that value is no power of two greater than 1 |
| `CuckooHashTable.LookupCountFitsExactly` | hwtLib/mem/cuckooHashTable.py:297-312 | in all runs the number of lookups under way stays in its register, of log2ceil(MAX_LOOKUP_OVERLAP - 1) bits, if and only if MAX_LOOKUP_OVERLAP - 1 is no power of two greater than 1 |
| `CuckooHashTable.DeleteDestroysExactly` | hwtLib/mem/cuckooHashTable.py:137-182 | a delete destroys the item of another key exactly if its own key is in no table and all its cells are taken; otherwise it removes just its key |
| `CuckooDelete.DeleteCanDestroy` | hwtLib/mem/cuckooHashTable.py:166-178 | a run that starts with a clean, inserts a key and deletes another one that was never inserted: the inserted key is gone |
| `CuckooHashTable.NothingIsLost` | hwtLib/mem/cuckooHashTable.py:199-264 | in every run whose deletes name stored keys, no key disappears that was not deleted, cleaned or reported as popped |
| `CuckooHashTable.CommandFinishes` | hwtLib/mem/cuckooHashTable.py:366-394 | every command finishes within a number of cooperative clocks computed from the state |
| `CuckooHashTable.InsertFinishes` | hwtLib/mem/cuckooHashTable.py:221-239 | an insert finishes after at most MAX_REINSERT swaps of three clocks each, and three clocks for the answer, and in these clocks exactly one answer is handed over |
| `CuckooHashTable.CuckooTable.Clk` | hwtLib/mem/cuckooHashTable.py:332-424 | one clock edge of all registers and the tables is the specified step, with the specified results on the ports |
| `CuckooHashTable.CuckooTable.StashLoad` | hwtLib/mem/cuckooHashTable.py:199-252 | the next stash register, by origin and priority of the commands |
| `CuckooHashTable.CuckooTable.Fsm` | hwtLib/mem/cuckooHashTable.py:366-394 | the next state of the state machine |
| `CuckooHashTable.CuckooTable.DriveTables` | hwtLib/mem/cuckooHashTable.py:120-140 | which cells of which tables are written in a clock |
| `BitonicSorter.HalfCleaner` | hwtLib/logic/bitonicSorter.py:73-86 | one column of comparators on a bitonic sequence of bits leaves both halves bitonic and makes the lower half all 0 or the upper half all 1 |
| `BitonicSorter.MergeSortsBits` | hwtLib/logic/bitonicSorter.py:60-71 | the merge network sorts every bitonic sequence of 2^k bits |
| `BitonicSorter.SortedByThresholds` | hwtLib/logic/bitonicSorter.py:46-71 | a sequence is sorted exactly if all its threshold sequences of bits are |
| `BitonicSorter.MergeSorts` | hwtLib/logic/bitonicSorter.py:60-71 | the merge network sorts every bitonic sequence under any comparator of a total preorder (zero-one argument) |
| `BitonicSorter.SortSorts` | hwtLib/logic/bitonicSorter.py:46-58 | for ITEMS = 2^k and every input the network's output is sorted, its second half being built with the negated comparator |
| `BitonicSorter.SortPermutes` | hwtLib/logic/bitonicSorter.py:46-86 | the output is a permutation of the input, whatever the comparator answers |
| `BitonicSorter.BitonicCompare` | hwtLib/logic/bitonicSorter.py:73-86 | the loop over pairs drives every signal as the specified column of comparators does |
| `BitonicSorter.BitonicSorter` | hwtLib/logic/bitonicSorter.py:88-92 | the component: a sorted permutation of the inputs |
| `CrcComb.BuildCrcXorMatrix` | hwtLib/logic/crcComb.py:92-133 | the rows moved and XORed in place are the matrix defined bit by bit |
| `CrcComb.XorWhere` | hwtLib/logic/crcComb.py:123-131 | the inner loop adds the bottom row to every row with a coefficient |
| `CrcComb.ApplyCrcXorMatrix` | hwtLib/logic/crcComb.py:136-157 | the accumulating loops compute the product of the matrix with state and data |
| `CrcComb.AddBitIsTakeBit` | hwtLib/logic/crcComb.py:113-131 | one round of building the matrix is one bit taken by the serial register |
| `CrcComb.MatrixIsSerial` | hwtLib/logic/crcComb.py:92-157 | for every width, polynomial, state and word the matrix does what feeding the bits MSB first through the serial register does, of the polynomial with its lowest coefficient set |
| `CrcComb.AgreesExactly` | hwtLib/logic/crcComb.py:123-131 | it is the serial register of the given polynomial itself if and only if that has an odd constant, or no bit enters |
| `CrcComb.EvenConstantDiffers` | hwtLib/logic/crcComb.py:123-131 | an example: x^2 + x with one data bit |
| `CrcPolynomial.SerialIsTheRemainder` | hwtLib/logic/crc_test_utils.py:53-68 | the register after a word is the remainder, and the only one, of message*x^PW + state*x^DW modulo the polynomial |
| `CrcPolynomial.MatrixIsTheRemainder` | hwtLib/logic/crcComb.py:92-157 | so the XOR matrix computes that remainder, for every polynomial with constant 1 |
| `CrcPolynomial.RemainderUnique` | hwtLib/logic/crcComb.py:92-133 | quotient and remainder modulo the polynomial are unique |
| `CrcStream.MirrorStep` | hwtLib/logic/crc_test_utils.py:33-68 | the register with REFIN is the mirror image of the one without, bit by bit |
| `CrcStream.MatrixOrder` | hwtLib/logic/crcComb.py:135-140 | the order in which the matrix sees the bits of a word is the transmission order of its bytes |
| `CrcStream.WordEnters` | hwtLib/logic/crc.py:115-132 | the matrix for a word with n valid units enters exactly its first n units in transmission order |
| `CrcStream.UnitsAreSelected` | hwtLib/logic/crc.py:115-132 | for every mask of more than one bit that is a non-empty prefix the case of the switch enters exactly the units whose bit is set, and for every other such mask there is no case |
| `CrcStream.StateIsSerial` | hwtLib/logic/crc.py:82-133 | in every run the state register is the serial CRC from INIT of the units of the current frame whose mask bit is set; it is undefined once a mask of more than one bit was not a non-empty prefix |
| `CrcStream.OutputFollows` | hwtLib/logic/crc.py:127-142 | after every clock the output register is the serial CRC of the units of the current frame, those of the word of this clock included |
| `CrcStream.CapturedAtLast` | hwtLib/logic/crc.py:93-142 | what is captured with the last, masked word is the serial CRC of exactly the units of the frame whose mask bit is set, and the next frame starts from INIT |
| `CrcStream.NaiveCrcAccumulator.TakeBit` | hwtLib/logic/crc_test_utils.py:53-68 | the accumulator's value after a bit, in both reflections |
| `CrcStream.NaiveCrcAccumulator.TakeWord` | hwtLib/logic/crc_test_utils.py:70-88 | the accumulator's value after a word |
| `CrcStream.Crc.Clk` | hwtLib/logic/crc.py:99-142 | one clock edge of the registers c and state_tmp is the specified step |
| `Timers.SortTimers` | hwtLib/clocking/timers.py:39-41 | the timers with a period other than 1, by falling period, those of one period in the order given |
| `Timers.PickRootBefore` | hwtLib/clocking/timers.py:43-51 | a power of two gets the first earlier timer that is a multiple and hangs on nothing |
| `Timers.PickDivisorAfter` | hwtLib/clocking/timers.py:52-60 | any other period gets the first later timer with a dividing period |
| `Timers.ResolveSharing` | hwtLib/clocking/timers.py:38-60 | the parent fields after the nested loops are those of the specification |
| `Timers.SharesTheFirst` | hwtLib/clocking/timers.py:43-60 | every timer hangs on the first one that it could hang on, and has a counter of its own only if there is none |
| `Timers.ParentsAreWellShared` | hwtLib/clocking/timers.py:43-60 | every chosen parent is a multiple that counts itself, or has a dividing period |
| `Timers.Acyclic` | hwtLib/clocking/timers.py:38-60 | for every list of periods no walk from a timer to its parents returns |
| `TimerTicks.TickAt` | hwtLib/clocking/timers.py:63-107 | from counters that fit the number of enabled clocks every timer ticks at multiples of its own period, whatever it hangs on |
| `TimerTicks.RunAt` | hwtLib/clocking/timers.py:110-158 | in every run each counter fits the number of enabled clocks |
| `TimerTicks.TicksOnPeriod` | hwtLib/clocking/timers.py:63-202 | for every list of periods, run and timer: it ticks exactly in enabled clocks that complete a multiple of its own period |
| `TimerTicks.SharingIsInvisible` | hwtLib/clocking/timers.py:63-202 | no timer can be told from one with a counter of its own |
| `TimerTicks.TimerCounters.Clk` | hwtLib/clocking/timers.py:119-158 | one clock edge of all counters, and the ticks before it |
| `HandshakedFifo.WaitsAreExact` | hwtLib/mem/fifo.py:151-171 | wait is set exactly on a full, respectively empty, memory |
| `HandshakedFifo.QueueStep` | hwtLib/mem/fifo.py:59-192 | every clock is one of a queue: the head leaves if taken, an accepted word joins the end |
| `HandshakedFifo.IsQueue` | hwtLib/handshaked/fifo.py:95-124 | in every run what was accepted is what was delivered followed by what is queued |
| `HandshakedFifo.QueueIsBounded` | hwtLib/handshaked/fifo.py:74-93 | capacity is exact, size counts the queue and size + space is always DEPTH |
| `HandshakedFifo.Fifo.Clk` | hwtLib/mem/fifo.py:126-192 | one clock edge of memory, pointers, looped flag, sizes and output register is the specified step |
| `HandshakedReg.ChainIsQueue` | hwtLib/handshaked/reg.py:50-90 | a chain of any number of registers is a queue in every state |
| `HandshakedReg.ChainCapacity` | hwtLib/handshaked/reg.py:79-89 | a chain of n registers holds n words and refuses one exactly if it is full and its consumer is not ready |
| `HandshakedReg.ChainConserves` | hwtLib/handshaked/reg.py:217-235 | no run of a chain loses, duplicates or reorders a word |
| `HandshakedReg.PairConserves` | hwtLib/handshaked/reg.py:122-182 | no run of the ready-chain break does either |
| `HandshakedReg.PairIsQueue` | hwtLib/handshaked/reg.py:122-182 | in every state of its flags the ready-chain break is a queue of two places |
| `HandshakedReg.Chain.Clk` | hwtLib/handshaked/reg.py:217-235 | one clock edge of a chain, its ready signal driven from the last register to the first |
| `FifoDrop.StepIsRightExactly` | hwtLib/mem/fifoDrop.py:119-223 | an allowed clock keeps pointers, flags and sizes right if and only if it does not discard while the reader leaves the last slot; then the output is the oldest committed word if it is read and stays otherwise |
| `FifoDrop.DiscardAtWrapFills` | hwtLib/mem/fifoDrop.py:171-177 | an example, a run from reset: all committed words have been delivered, and after the discard the FIFO is empty and refuses words |
| `FifoDrop.ReaderGetsCommittedChunks` | hwtLib/mem/fifoDrop.py:119-223 | the reader gets exactly the committed chunks in order, never a discarded word; size is the number of stored and uncommitted words |
| `FifoDrop.Fifo.Clk` | hwtLib/mem/fifoDrop.py:97-223 | one clock edge of all registers and the memory is the specified step |
| `FifoCopy.StepKeepsInv` | hwtLib/mem/fifoCopy.py:72-134 | every clock of the FIFO and its wrapper keeps pointers, memory and output in step with the frames and the decisions |
| `FifoCopy.ReplaysFrames` | hwtLib/amba/axis_comp/fifoCopy.py:107-147 | in every run the output is each accepted frame once for every decision about it, then the part of the current one; no beat of the current frame has been overwritten |
| `FifoCopy.PortsAreExact` | hwtLib/mem/fifoCopy.py:72-134 | in every run a beat is refused exactly if the memory keeps all it can from the start of the current frame on, and a beat is offered exactly if one is there to be delivered |
| `FifoCopy.FrameAppears` | hwtLib/mem/fifoCopy.py:72-97 | a frame with n copy decisions appears n + 1 times, and then the next frame follows |
| `FifoCopy.Fifo.Clk` | hwtLib/mem/fifoCopy.py:48-134 | one clock edge of pointers, memory and output register is the specified step |
| `FifoArray.NewListKeepsExactly` | hwtLib/mem/fifoArray.py:215-220 | a new list leaves the others alone if and only if its insert address is not in the middle of one of them |
| `FifoArray.StepIsRightExactly` | hwtLib/mem/fifoArray.py:183-224 | an allowed clock of inserts, appends and pops does what it should to all lists if and only if it does not cut one |
| `FifoArray.CutHappens` | hwtLib/mem/fifoArray.py:215-218 | an example, a run from the empty pool: a list of two items, a new list inserted with address 0, and the first list is cut |
| `FifoArray.PopShowsHead` | hwtLib/mem/fifoArray.py:221-224 | the pop port shows the oldest word of the list, whether it is the last one, and the address of the next |
| `FifoArray.PoppedIsFree` | hwtLib/mem/fifoArray.py:194-209 | after a clock in which the pop port has handed out a word its slot is free and in no list |
| `FifoArray.RefusedExactly` | hwtLib/mem/fifoArray.py:192-224 | an insert is refused exactly if all slots are in lists, and a pop exactly if all lists are empty |
| `FifoArray.ListsAreFifos` | hwtLib/mem/fifoArray.py:183-224 | in every such run the lists are disjoint, and of each one the words handed out on the pop port are the first ones taken over on the insert port, the rest being in its slots in order |
| `FifoArray.Component.Clk` | hwtLib/mem/fifoArray.py:183-224 | one clock edge of the masks, the insert address and both arrays is the specified step |
| `Bcd.ShiftInValue` | hwtLib/logic/binToBcd.py:85-104 | adjusting and shifting all digits by a bit doubles their number and adds the bit, and keeps them decimal |
| `Bcd.ShiftOutValue` | hwtLib/logic/bcdToBin.py:61-65 | shifting right and reducing halves the number, the bit that leaves being the remainder |
| `Bcd.ShiftInverse` | hwtLib/logic/bcdToBin.py:61-65 | the two moves undo each other |
| `BinToBcd.TopBitsAfter` | hwtLib/logic/binToBcd.py:58-104 | after k busy clocks the digits are at most 9 and are the top k bits of the number |
| `BinToBcd.ConvertsInTime` | hwtLib/logic/binToBcd.py:58-83 | exactly INPUT_WIDTH clocks after it was accepted a number is shown, in digits that are uniquely its own |
| `BinToBcd.ConvertsInOrder` | hwtLib/logic/binToBcd.py:46-109 | in every run the numbers accepted are those delivered in order, and at most one inside |
| `BinToBcd.RefusesExactly` | hwtLib/logic/binToBcd.py:46-109 | a number is refused exactly if one is inside |
| `BinToBcd.Converter.Clk` | hwtLib/logic/binToBcd.py:46-106 | one clock edge of all registers is the specified step |
| `BinToBcd.Converter.ShiftDigits` | hwtLib/logic/binToBcd.py:85-106 | the loop over the digit registers, each taking the bit of its right neighbour |
| `BcdToBin.ConvertsInTime` | hwtLib/logic/bcdToBin.py:80-101 | BCD digits are shown as their number exactly one clock more than the number has bits after they were accepted |
| `BcdToBin.ConvertsInOrder` | hwtLib/logic/bcdToBin.py:41-101 | in every run the words accepted are those delivered as numbers in order, and at most one inside |
| `BcdToBin.RefusesExactly` | hwtLib/logic/bcdToBin.py:41-101 | a word is refused exactly if one is inside whose number is not taken in the same clock |
| `BcdToBin.WidthIsEnough` | hwtLib/logic/bcdToBin.py:37 | the result register has room for every number of that many digits |
| `BcdToBin.Converter.Clk` | hwtLib/logic/bcdToBin.py:41-101 | one clock edge of all registers is the specified step |
| `BcdRoundTrip.BinaryRoundTrip` | hwtLib/logic/binToBcd.py:46-109 | both converters connected: for every width and run the numbers that come out are the first of those that went in, with at most two on the way |
| `BcdRoundTrip.DecimalRoundTrip` | hwtLib/logic/bcdToBin.py:41-101 | connected the other way: every digit word comes out as it went in, with zeros on its left if there is room |
| `StreamResizer.SplitJoin` | hwtLib/amba/axis_comp/resizer.py:53-70 | splitting a joined word gives its beats back if and only if the last of them has a valid byte or is alone |
| `StreamResizer.UpKeeps` | hwtLib/amba/axis_comp/resizer.py:86-136 | every clock of the widening keeps the registers those of the incomplete word and shows complete words only |
| `StreamResizer.DownKeeps` | hwtLib/amba/axis_comp/resizer.py:155-194 | every clock of the narrowing shows the next beat of the word and takes a new word with its last one |
| `StreamResizer.Widens` | hwtLib/amba/axis_comp/resizer.py:72-136 | in every run the words delivered are those of the accepted beats |
| `StreamResizer.Narrows` | hwtLib/amba/axis_comp/resizer.py:138-194 | in every run the accepted words have become the delivered beats and those to come |
| `StreamResizer.RoundTripExactly` | hwtLib/amba/axis_comp/resizer.py:53-194 | widening then narrowing by any factor under any handshake timing gives back the same beats, strobes and last flags if and only if every beat that completes a word has a valid byte or is alone in it |
| `StreamResizer.EmptyBeatIsDropped` | hwtLib/amba/axis_comp/resizer.py:53-70 | an example: in a run of both directions the second of two beats, without a valid byte, disappears |
| `StreamResizer.FramesAreRecoverable` | hwtLib/amba/axis_comp/resizer.py:22-24 | which holds for frames of full words with a non-empty last one |
| `StreamResizer.Upscaler.Clk` | hwtLib/amba/axis_comp/resizer.py:72-136 | one clock edge of the item registers and the counter is the specified step |
| `StreamResizer.Downscaler.Clk` | hwtLib/amba/axis_comp/resizer.py:138-194 | one clock edge of the input register and the counter is the specified step |
| `StreamResizer.Downscaler.NextAreNotValid` | hwtLib/amba/axis_comp/resizer.py:53-70 | the comparators hold exactly if no item behind the current one has a valid byte |
| `Datapump.ReqLenIsRightExactly` | hwtLib/amba/datapump/base.py:155-161 | the number of words on the bus is that of the words with a requested byte, unless a request that was promised to be aligned is not and crosses a word boundary |
| `Datapump.CoversExactly` | hwtLib/amba/datapump/base.py:199-253 | the bursts of a request that is not refused transfer consecutive words, each once, and exactly those with a requested byte under the same condition |
| `Datapump.PartsFit` | hwtLib/amba/datapump/base.py:204-220 | every burst fits the bus, and only the final one is marked last and carries the remainder |
| `Datapump.IssuesInOrder` | hwtLib/amba/datapump/base.py:181-253 | in every run, of any requests and under any readiness, the bursts issued are those of the accepted requests that pass the check of the address, in order, and the first ones of the current request; for a refused one nothing is issued |
| `Datapump.RequestFinishes` | hwtLib/amba/datapump/base.py:185-226 | a request is accepted in exactly the last of as many clocks as it has bursts in which it is there, both consumers are ready and there is no error, whatever state the run is in and whether it is refused or not |
| `DatapumpRead.OneFramePerRequest` | hwtLib/amba/datapump/r.py:95-108 | however requests are split, the driver gets one frame for each of them, marked and with the requested bytes in its last word only |
| `DatapumpRead.OneFramePerBurst` | hwtLib/amba/datapump/r.py:178-204 | without splitting, where the mark of the stored information is not looked at, the driver gets one frame for each burst |
| `DatapumpRead.RunDeliversFrames` | hwtLib/amba/datapump/r.py:178-204 | in every run of the address handler, the size FIFO and the aligned data path, clock by clock and at any moment: if the words taken from the bus are the first ones it owes to the bursts issued, the words delivered are just as many, the first ones of the frames of the requests that are not refused |
| `DatapumpRead.ReadKeeps` | hwtLib/amba/datapump/r.py:192-204 | every clock, under any readiness, keeps the size FIFO in step with the bursts: a word passes exactly if the bus, the size FIFO and the driver have it, and its burst's information is dropped with the last one |
| `DatapumpSizes.UseTransSplitting` | hwtLib/amba/datapump/base.py:106-121 | the loop over the offsets decides the specified predicate |
| `DatapumpSizes.SplitsExactly` | hwtLib/amba/datapump/base.py:106-121 | splitting is used exactly if requests may have more words than a burst, or just as many with chunks larger than their alignment |
| `DatapumpSizes.DirectIssuesInOrder` | hwtLib/amba/datapump/base.py:254-272 | in every run without splitting one burst is issued for each accepted request that passes the check of the address, in order, and nothing for the others |
| `DatapumpSizes.DirectIsRightExactly` | hwtLib/amba/datapump/base.py:254-272 | without splitting the words read for a request are exactly the touched ones if and only if it passes the check of the address and fits a single burst; a refused request counts as no words |
| `DatapumpSizes.PassesExactly` | hwtLib/amba/datapump/base.py:149-153 | the check of the address lets a request pass if and only if any address is allowed or its address is a multiple of the chunk size rounded up to a power of two, said of its offset and its word |
| `DatapumpSizes.AllPassExactly` | hwtLib/amba/datapump/base.py:149-153 | for every configuration: all requests that a driver may make are issued if and only if ALIGNAS is 8 or chunks are not larger than ALIGNAS |
| `DatapumpSizes.NothingIsReported` | hwtLib/amba/datapump/r.py:266-273 | no request that a driver may make raises errorAlignment, so a refused one is dropped without a sign |
| `DatapumpSizes.IssuedFitExactly` | hwtLib/amba/datapump/base.py:254-272 | in a configuration without splitting every request that is issued fits a burst if and only if the largest one from the last offset that passes the check does, which it always does if there are several words and the bus allows more |
| `DatapumpSizes.UnsplitFitsExactly` | hwtLib/amba/datapump/base.py:254-272 | in a configuration without splitting everything that a driver may ask for is read as asked, dropped requests counting as wrong, if and only if ALIGNAS is 8 or chunks are not larger than ALIGNAS, and the largest request from the last aligned byte of a word fits a burst |
| `DatapumpSizes.DirectRunMakesFrames` | hwtLib/amba/datapump/base.py:254-272 | in every run without splitting in which the accepted requests fit a burst, the data in the order of the bursts makes one frame for each request that is not refused |
| `DatapumpSizes.ShorterFits` | hwtLib/amba/datapump/base.py:106-121 | without splitting a request fits a burst if requests have several words but fewer than a burst may have |
| `DatapumpSizes.RequestDropped` | hwtLib/amba/datapump/base.py:254-272 | an example: 64-bit chunks at multiples of 32 bits; a chunk from the middle of a word would fit a burst, but its request is taken and nothing is issued |
| `DatapumpSizes.SplittingMissed` | hwtLib/amba/datapump/base.py:111-119 | a configuration in which splitting is not used although a request touches one word more than a burst has, and the length wraps to a single word |
| `DatapumpSizes.SecondWordMissed` | hwtLib/amba/datapump/base.py:257-269 | a configuration with requests of one word in which a request touches two words and one is read |
| `Datapump.AddrHandler.Clk` | hwtLib/amba/datapump/base.py:181-253 | one clock edge of the splitting registers is the specified step |
| `AxiToAxiLite.BeatsAreIncrExactly` | hwtLib/amba/axi_comp/to_axiLite.py:98-119 | the beats are at the addresses of an incrementing burst (section A3.4.1 of ARM IHI 0022D) if and only if the burst starts aligned or has one beat |
| `AxiToAxiLite.UnalignedStartDiffers` | hwtLib/amba/axi_comp/to_axiLite.py:98-119 | an example: the second beat of a burst of 4-byte words from address 2 goes to 6 and belongs at 4 |
| `AxiToAxiLite.BeatsInOrder` | hwtLib/amba/axi_comp/to_axiLite.py:84-126 | in every run the beats issued and those to come are the len + 1 beats of every accepted burst in order, and every burst is stored once |
| `AxiToAxiLite.AddrPortsAreExact` | hwtLib/amba/axi_comp/to_axiLite.py:95-124 | in every run a burst is accepted exactly if all beats of those before it are issued and the bus and the queue are ready, and a beat is offered exactly if one is left or a burst can be stored |
| `AxiToAxiLite.AnswersInOrder` | hwtLib/amba/axi_comp/to_axiLite.py:138-189 | in every run the responses are, in the order of the bursts and with their ids, one for every beat of a read with only the final one marked last, and for a write that to its last beat |
| `AxiToAxiLite.RespPortsAreExact` | hwtLib/amba/axi_comp/to_axiLite.py:149-188 | in every run a response is taken exactly if the master is ready and a burst is not answered yet, the next burst is taken from the queue exactly if none is left or with the last response, and of a write only the last response is offered |
| `AxiToAxiLite.BridgeAnswers` | hwtLib/amba/axi_comp/to_axiLite.py:192-207 | both sides and the queue between them, in every run and at any moment: the bursts being answered are the first of those accepted, and the answers given are the first of all those due |
| `AxiToAxiLite.AllAnswered` | hwtLib/amba/axi_comp/to_axiLite.py:192-207 | both sides and the queue between them, in every run: after as many responses as beats were issued nothing waits, and every accepted burst has its whole answer |
| `AxiToAxiLite.CountOfAnswers` | hwtLib/amba/axi_comp/to_axiLite.py:138-189 | reads return as many beats as were asked for, writes one response for each burst |
| `AxiToAxiLite.AddrLogic.Clk` | hwtLib/amba/axi_comp/to_axiLite.py:98-126 | one clock edge of the address registers is the specified step |
| `AxiToAxiLite.ResponseLogic.Clk` | hwtLib/amba/axi_comp/to_axiLite.py:138-189 | one clock edge of the response registers is the specified step |
| `InterconnectGroups.SlavesConnectedTo` | hwtLib/abstract/busInterconnect.py:131-134 | the inverse of the connection of masters to slaves |
| `InterconnectGroups.MastersConnectedTo` | hwtLib/abstract/busInterconnect.py:128-130 | a master is connected to a slave exactly if it holds a tuple for it of the kind asked for or for both kinds |
| `InterconnectGroups.ExtractSeparableGroup` | hwtLib/abstract/busInterconnect.py:94-118 | the worklist terminates, and returns the masters connected with the first one, directly or not, with exactly their slaves; or nothing if it was seen |
| `InterconnectGroups.ExtractSeparableGroups` | hwtLib/abstract/busInterconnect.py:121-154 | for one kind of access the groups are the connected components: every master is in exactly one, masters that hold tuples of that kind or for both kinds for the same slave are together, and a group has exactly the slaves of such tuples of its masters |
| `InterconnectGroups.ComponentsAreDisjoint` | hwtLib/abstract/busInterconnect.py:94-118 | two components are the same or share nothing |
| `InterconnectRegions.PlacedAsTold` | hwtLib/abstract/busInterconnect.py:54-73 | every region has the size, the alignment and, if given, the address of its configuration |
| `InterconnectRegions.AutoOverlapsNothingBefore` | hwtLib/abstract/busInterconnect.py:60-72 | an automatic region overlaps no earlier one and starts at the first aligned address after all of them |
| `InterconnectRegions.CheckCollisions` | hwtLib/abstract/busInterconnect.py:77-83 | the pass over the sorted regions accepts exactly if no two share an address and none is negative |
| `InterconnectRegions.NormalizeSlaveConfigs` | hwtLib/abstract/busInterconnect.py:49-84 | slaves are accepted if and only if sizes are powers of two, given addresses aligned and all regions pairwise disjoint and not negative; then these are the regions returned |
| `InterconnectRegions.SortByAddress` | hwtLib/abstract/busInterconnect.py:75 | the regions ordered by address, those at one address in the order given |

## Left out

Environment and scope:

- Resets, clocks and vendor timing constraints: both clock domains start reset, and every run starts after reset. For
  the FIFO between clock domains the constraints are modelled by what they permit: a bit of a pointer that changes is
  seen old or new by the far side at each of its edges, is not seen old again once it was seen new, and has settled
  before the next change (`FifoAsyncReverting.RevertingOverflows` says why). Metastability beyond that is not
  part of the model.
- DEPTH of `FifoAsync` is a power of two of at least 4; with two slots the part of the pointer that is not inverted is
  empty.
- HDL serialization, IP packaging, interface declarations, simulation agents, builders, documentation.
- `CuckooHashTable` and its tables: the pipelines inside the tables are a queue of lookups read when they enter, the
  memories accept every write at once (their port refuses a write only while a read is issued, which never coincides),
  and the hash functions are any functions of the key. Every run starts with a clean, because `insertTargetOH` has no
  reset value. Keys and data are numbers of any size.
- `CuckooHashTable` with tables whose size is not a power of two: a hash of `log2ceil` bits can be beyond the table. The
  registers `lookup_in_progress` and `cleanupAddr` have no width in the model; the lemmas
  `CuckooHashTable.CleanAddressFitsExactly` and `LookupCountFitsExactly` say when their values fit.
- `Timers`: the timers in a list are different objects; resets of timers, `DynamicTimerInfo` and timers of period 1
  (their tick is the enable signal) are not modelled.
- `BitonicSorter` for numbers of inputs that are not powers of two: the network leaves outputs undriven.
- `CrcComb` and `Crc`: final reflection and XOROUT, and the big-endian order of `Crc`; CRC properties are about the
  state register. Of `NaiveCrcAccumulator` the final value is left out.
- `Fifo.fifo_pointers` with several readers, INIT_DATA of the FIFOs and of the register chains.
- `HandshakedFifo` of depth 1, whose memory would have no word; `HandshakedReg` with LATENCY 2 and DELAY 1.
- `FifoDrop.space` is not modelled: it is not decremented by a write without a read.
- `Axi4SFifoCopy`: the replacement of ids in replayed frames, and `Axi4SRegCopy`. That a frame longer than the memory
  is never delivered completely is not stated.
- `FifoArray` for ITEMS that are not powers of two; the first free slot is the one with the lowest index.
- `BinToBcd` of one bit: its slices are empty. The number of digits is the exact logarithm, not the floating-point one.
- `BcdToBin` for sizes whose number of bits is an exact power of two: the counter has one bit too few for its reset
  value; the model keeps the value that the bits can hold. Digits above 9 are not modelled.
- `StreamResizer`: ids and user signals, which go with the last beat of a word.
- `Datapump`: error responses and the register `errorAlignment` in runs, where the error flag is any input; the path
  that shifts unaligned data, the data path of configurations without splitting clock by clock, the write side, and the
  rule that a burst stays inside 4 KB, which the code does not look at. Chunks are whole bytes.
- `AxiToAxiLite`: burst types other than incrementing and narrow beats, which the code does not look at; the write data
  channel, which is connected directly; response codes other than that of the last beat; the register slices around it.
- `InterconnectGroups`: the expansion of the constant `ALL` in the list of masters. Python's sets are iterated in any
  order.
- `HsResizer`, `HandshakedCdc`, frame parsers and builders, joins and splits, one-hot encoders.
