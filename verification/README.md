# Verified models of rr

rr records the execution of Linux processes and replays it. This project models, in Dafny 4.11, the
parts of rr whose correctness depends on long runs, shared state or bookkeeping over many cases, and
proves what they promise. `dafny verify dfyconfig.toml` checks everything.

| part | files | source |
|---|---|---|
| Compressed trace streams: a producer and several compressor threads around a ring buffer, the reader, and the way from one to the other | `TraceFormat`, `Ring`, `CompressedWriter`, `WriterInvariant`, `WriterSteps`, `WriterProducer`, `WriterTheorems`, `WriterProgress`, `WriterFairness`, `WriterCompletion`, `WriterReturns`, `CompressedReader`, `RoundTrip` | `src/CompressedWriter.cc`, `src/CompressedReader.cc` |
| The cached memory map: mmap, munmap, mprotect, coalescing, free memory | `MemoryMap`, `AddressSpace` | `src/AddressSpace.cc`, `src/AddressSpace.h` |
| Stub pages for patched system calls | `PatchStubs` | `src/Monkeypatcher.cc` |
| gdb's memory search | `SearchMemory` | `src/GdbServer.cc` |
| Debug registers for watchpoints | `WatchRegisters` | `src/AddressSpace.cc` |
| gdb's agent expressions: the machine, rr's interpreter, the static analysis and the program variants | `GdbMachine`, `GdbExtension`, `GdbArithmetic`, `GdbInstructions`, `GdbEvaluate`, `GdbVariants`, `GdbVariantRuns` | `src/GdbExpression.cc` |
| Flushing and resetting the buffer of recorded system calls | `Syscallbuf`, `SyscallbufTheorems`, `SyscallbufExact` | `src/RecordTask.cc` |
| `rr pack`, which may be interrupted after any change to the disk | `TraceDirectory`, `PackPlan`, `Pack` | `src/PackCommand.cc` |
| Packets of gdb's remote protocol | `GdbPacket` | `src/GdbConnection.cc` |

How the models relate to the code:

- The compressed writer is a transition system. Its steps are the regions of code between taking and
  releasing the mutex, plus the unlocked work in small pieces: copying into the ring, reading from
  it, writing to the file. Any thread may take the next step, and a waiting thread may wake for no
  reason. Compression is a pair of functions; the round trip needs only that decompression undoes it.
- Everything else keeps the form of the code: classes with the same fields, methods with the same
  loops. Each method is proved against a function or predicate on values.
- The memory map is compared with a plain function from addresses to attributes (`Lookup`): live and
  recorded protection, flags, device, inode, position in the file, and the mapping's own flags.
- What rr asserts is modelled as a result, not as a precondition: a run of the recording functions
  has no result where an assertion would fire, and `AssertionExact` says exactly when that is.
- `rr pack` keeps the list of all states that the disk went through, so that a statement about every
  element of that list is a statement about every point of interruption.

Some promises do not hold without a condition, and the models say which:

- `rr pack` tells whether a file is in the trace directory by comparing the beginning of its name
  with the directory's, without the slash. A file in another directory whose name starts with this
  one's is left where it is, and its new entry then names a file in the trace directory that may not
  exist (`SiblingNotPackable`). `PackTrace` proves that the packed trace means what it meant exactly
  if `Packable` held before; `ChildrenSuffice` gives a simple sufficient condition.
- `CompressedReader::rewind` clears the end-of-file flag, which for an empty file was set by the
  constructor. Afterwards `at_end` is wrong exactly for the empty file (`Rewind`).
- A wait of the compressed writer's producer ends in every schedule unless spurious wake-ups go on for
  ever (`WaitEnds`). From every state in which it sleeps there is a schedule in which they do
  (`WakingCanGoOn`). Where nobody who can run is kept from running for ever, it always ends
  (`FairWaitEnds`), and every call returns (`WriteReturns`, `CloseReturns`).
- The program variants of an agent expression are run although only the original was analysed. What
  they fetch is what was marked if narrowing an operand cannot change where a marked instruction leads
  (`VariantFetchesMarked`). With overlapping instructions it can be something else (`OverlapEscapes`).

Where code and documentation differ the models follow the code:

- `OP_rot` reverses the three topmost values, while section F.2, "Bytecode Descriptions", of the GDB
  manual rotates them. The two agree exactly if the second and the third value are the same
  (`RotExact`); on 1, 2, 3 they do not (`RotDiffers`).
- A comment in `src/PackCommand.cc` (lines 352-355) has a retried `rr pack` clean up after an
  interrupted one. The new list is created exclusively, and a run fails exactly if a file `pack_mmaps`
  is there. In a run that succeeds exactly the states from its creation to the switch have that file,
  and there always are such states (`PackTrace`), so an interruption in between makes every later run
  fail; the trace stays safe.

## Model

| member | source | states |
|---|---|---|
| `TraceFormat.HeaderRoundTrip` | src/CompressedWriter.h:45-48 | the two 32-bit lengths are recovered from the eight header bytes |
| `TraceFormat.FrameLayout` | src/CompressedWriter.h:45-48 | a frame is the compressed length, the uncompressed length, each in four bytes with the lowest first, and the compressed block |
| `TraceFormat.FrameAt` | src/CompressedWriter.cc:156-187 | in a file of frames, block k's frame stands right behind the frames of the blocks before it |
| `TraceFormat.ChopUnique` | src/CompressedWriter.cc:150-157 | blocks that are full except perhaps the last are the only way to cut their stream into such blocks |
| `RingArithmetic.PlaceDistinct` | src/CompressedWriter.cc:89-92 | two stream positions less than one ring apart lie at different places, wrap-around included |
| `RingArithmetic.PlaceOfCopy` | src/CompressedWriter.cc:89-92 | a copied chunk lands on its own places and on no live one |
| `CompressedWriter.Configure` | src/CompressedWriter.cc:36-39 | the ring has room for two more blocks when every thread holds one, which is as large as the protocol needs |
| `WriterInvariant.InitInv` | src/CompressedWriter.cc:32-73 | the invariant holds when the threads start |
| `WriterInvariant.BroadcastInv` | src/CompressedWriter.cc:112-112 | a broadcast restores everything known about sleepers |
| `WriterSteps.DispatchInv` | src/CompressedWriter.cc:150-157 | claiming the next block keeps the invariant: tiling of the stream, one owner for every block, ring, wait conditions |
| `WriterSteps.CompressSomeInv` | src/CompressedWriter.cc:248-260 | what a thread reads from the ring, in pieces and around its end, is its block of the stream |
| `WriterSteps.TurnGoInv` | src/CompressedWriter.cc:171-184 | the thread that starts writing holds the block right behind what is in the file |
| `WriterSteps.WriteDoneInv` | src/CompressedWriter.cc:186-196 | giving up a block after writing it keeps the invariant, and nobody who waits for it stays asleep |
| `WriterSteps.CompressFailedInv` | src/CompressedWriter.cc:166-168 | a failed compression keeps the invariant; the file stays a prefix |
| `WriterProducer.CopySomeInv` | src/CompressedWriter.cc:89-95 | copying without the lock keeps every byte that is still needed |
| `WriterProducer.ReserveLoopInv` | src/CompressedWriter.cc:114-131 | reserving space, or sleeping because there is none, keeps the invariant |
| `WriterProducer.BeginClosingInv` | src/CompressedWriter.cc:216-219 | the start of closing keeps the invariant and wakes everybody |
| `WriterProducer.NextInv` | src/CompressedWriter.cc:81-236 | every step of every thread keeps the invariant |
| `WriterProducer.ReachableInv` | src/CompressedWriter.cc:81-236 | the invariant holds in every reachable state, for any number of threads, block size and schedule |
| `WriterTheorems.RingSafety` | src/CompressedWriter.cc:81-134 | in every reachable state no position the producer may write shares a ring place with a byte that a thread still has to read, and that byte is the stream's |
| `WriterTheorems.PositionsOrdered` | src/CompressedWriter.cc:105-163 | next_thread_pos <= next_thread_end_pos <= write position <= reserved end <= min(next_thread_pos, active positions) + ring size, in every reachable state |
| `WriterTheorems.InOrderOutput` | src/CompressedWriter.cc:149-197 | at most one thread writes to the file, and the file is a prefix of the frames of consecutive blocks in stream order, with or without a write error |
| `WriterTheorems.ClosedFile` | src/CompressedWriter.cc:209-236 | after a close without error the file is exactly the frames of everything ever passed to write |
| `WriterTheorems.NoLostWakeup` | src/CompressedWriter.cc:105-234 | in every reachable state in which the producer sleeps for space or joins, some live compressor thread is awake |
| `WriterProgress.WaitingCanStep` | src/CompressedWriter.cc:105-234 | no deadlock: in every reachable state in which the producer waits, a step other than a spurious wake-up is possible |
| `WriterProgress.RealStepSmaller` | src/CompressedWriter.cc:136-204 | every such step brings the waiting producer nearer to its goal, in a well-founded order |
| `WriterProgress.WaitEnds` | src/CompressedWriter.cc:105-234 | in every infinite schedule of the whole system that does something while it can, every wait of the producer ends unless spurious wake-ups go on for ever |
| `WriterProgress.WakingCanGoOn` | src/CompressedWriter.cc:105-134 | from every reachable state in which the producer sleeps there is a schedule in which they go on for ever and the wait never ends |
| `WriterFairness.MoveCases` | src/CompressedWriter.cc:105-234 | while the producer waits, any move of the system, spurious wake-ups included, ends the wait, brings its end nearer, or leaves every thread that has work to do where it is |
| `WriterFairness.SomebodyHot` | src/CompressedWriter.cc:105-234 | while the producer waits, some thread's next step is not to wait, or the producer's next look ends the wait |
| `WriterFairness.FairWaitEnds` | src/CompressedWriter.cc:105-234 | in every infinite execution of the whole system, with any number of spurious wake-ups, in which nobody who can run is kept from running for ever, every wait of the producer ends |
| `WriterCompletion.WaitCanEnd` | src/CompressedWriter.cc:114-131 | from every reachable wait for space a run leads to its end, with no new input, no error if there was none, and space in the ring unless there is an error |
| `WriterCompletion.CanFinish` | src/CompressedWriter.cc:81-236 | no trap: from every reachable state a run of the system leads to a closed writer with no more input, and if there was no error so far, with everything passed to write in the file |
| `WriterReturns.WriteReturns` | src/CompressedWriter.cc:81-134 | in every infinite execution in which nobody who can run is kept from running for ever, every call of write returns, with all its bytes in the ring unless there is an error |
| `WriterReturns.CloseReturns` | src/CompressedWriter.cc:209-236 | in every such execution every call of close returns, nothing changes afterwards, and without an error the file is exactly the frames of everything ever passed to write |
| `WriterReturns.HalfIsOffered` | src/CompressedWriter.cc:98-102 | in every reachable state between two calls without an error, less than half of the ring is written and not yet offered to the compressor threads |
| `WriterReturns.FairExists` | src/CompressedWriter.cc:81-236 | such an execution exists from every reachable state |
| `CompressedReader.Reader.constructor` | src/CompressedReader.cc:23-35 | a new reader stands at offset 0 |
| `CompressedReader.Reader.ReadFrame` | src/CompressedReader.cc:134-157 | the reads of a refill find the next block while there is one, and fail behind the last |
| `CompressedReader.Reader.RefillBuffer` | src/CompressedReader.cc:128-160 | a refill succeeds exactly if a block is left, keeps the logical offset, and puts the buffer aside for a saved state |
| `CompressedReader.Reader.Read` | src/CompressedReader.cc:106-126 | delivers exactly the next bytes of the stream across block boundaries and moves the offset by their number, or delivers what is left and fails |
| `CompressedReader.Reader.Skip` | src/CompressedReader.cc:86-104 | moves the offset as read does, and succeeds in the same cases |
| `CompressedReader.Reader.GetBuffer` | src/CompressedReader.cc:69-84 | exposes bytes of the stream at the offset without moving it; none exactly at the end |
| `CompressedReader.Reader.AtEndIffAllRead` | src/CompressedReader.h:28-28 | in a complete file at_end holds exactly at the total length |
| `CompressedReader.Reader.SaveState` | src/CompressedReader.cc:172-178 | the saved position in the file, in the buffer and in the stream is the current one |
| `CompressedReader.Reader.RestoreState` | src/CompressedReader.cc:180-192 | the saved offset, buffer and file offset are back |
| `CompressedReader.Reader.LookAhead` | src/CompressedReader.cc:69-192 | saving the state, any sequence of reads, skips and get_buffer calls and restoring it give back the same buffer, positions and end-of-file flag unless an access failed; in a complete file one fails exactly if they go past the end |
| `CompressedReader.Reader.DiscardState` | src/CompressedReader.cc:194-200 | the offset stays |
| `CompressedReader.Reader.Rewind` | src/CompressedReader.cc:162-168 | offset 0; without an error and in a complete file, at_end tells the end of the stream afterwards exactly if the file is not empty |
| `CompressedReader.Reader.UncompressedBytes` | src/CompressedReader.cc:202-211 | the headers add up to the length of the stream plus what the headers behind the last readable block say: nothing in a complete file, and only the cut block's length in a file that is cut inside a block |
| `RoundTrip.ChopBlocked` | src/CompressedWriter.cc:150-157 | every block is non-empty, all but the last have exactly block_size bytes, and together they are the stream |
| `RoundTrip.WholeFileParses` | src/CompressedReader.cc:128-160 | the frames of a whole stream parse back into its blocks |
| `RoundTrip.CrashedFileParses` | src/CompressedWriter.cc:149-197 | whenever recording stops, even in the middle of a write, the reader finds whole leading blocks of the stream and nothing else |
| `RoundTrip.ReadPieces` | src/CompressedReader.cc:106-160 | any chunking of reads returns the stream piece by piece |
| `RoundTrip.ReadBack` | src/CompressedWriter.cc:81-236 | end to end: for every chunking of writes, every schedule that closes without error and every chunking of reads, the reader returns the bytes written |
| `MemoryMap.LessIsBefore` | src/AddressSpace.h:184-188 | for non-empty ranges the map's comparator means entirely before |
| `MemoryMap.LookupMeans` | src/AddressSpace.h:45-180 | what is seen at an address is what the mapping around it says, attribute by attribute, of the tracee and of the recording |
| `MemoryMap.SpliceLookup` | src/AddressSpace.h:843-851 | replacing one mapping by pieces of it changes nothing outside it |
| `AddressSpace.MergedLookup` | src/AddressSpace.cc:1216-1240 | a run of coalescable mappings and their merger show the same at every address, per-page file position included |
| `AddressSpace.CoalescableExact` | src/AddressSpace.cc:1177-1240 | two mappings can be merged exactly if the first, extended, would show the same as the second at each of its addresses, and their names agree up to stacks and the mark of a deleted file |
| `AddressSpace.AddressSpace.CoalesceAround` | src/AddressSpace.cc:1637-1679 | the longest run of coalescable mappings around a position becomes one mapping, and nothing changes at any address |
| `AddressSpace.AddressSpace.UnmapInternal` | src/AddressSpace.cc:1095-1144 | exactly the pages of the region lose their mapping; order and disjointness are kept; the loop ends |
| `AddressSpace.AddressSpace.Unmap` | src/AddressSpace.cc:1083-1093 | the same for the rounded region; an empty region changes nothing |
| `AddressSpace.AddressSpace.MapAndCoalesce` | src/AddressSpace.cc:1747-1762 | the new mapping is put in its place and merged as far as possible; it is seen at its addresses and nothing else changes |
| `AddressSpace.AddressSpace.Map` | src/AddressSpace.cc:604-642 | the pages of the new mapping get its attributes, all others keep theirs, and the result is merged around the new mapping |
| `AddressSpace.MapFlagsKept` | src/AddressSpace.h:54-56 | of the flags of a new mapping exactly the six that rr tracks are kept |
| `AddressSpace.AddressSpace.ProtectOne` | src/AddressSpace.cc:736-804 | one mapping is split so that exactly the asked part changes its protection |
| `AddressSpace.AddressSpace.ProtectLoop` | src/AddressSpace.cc:1708-1745 | contiguous iteration reaches exactly up to the first hole |
| `AddressSpace.AddressSpace.Protect` | src/AddressSpace.cc:730-811 | exactly the pages reachable from the start of the region without a hole, with PROT_GROWSDOWN also the start of the first mapping, get the read, write and execute bits of the argument and no other bit, in the tracee's mapping and in the recorded one; no other attribute and no other page changes; the last mapping made is merged with its neighbours |
| `AddressSpace.AddressSpace.FindFreeMemory` | src/AddressSpace.cc:1933-1952 | the end of the first mapping starting at the given address or later behind which the space is free |
| `AddressSpace.AddressSpace.MappingOf` | src/AddressSpace.cc:674-680 | the mapping that contains the address |
| `AddressSpace.AddressSpace.SetFlag` | src/AddressSpace.cc:682-686 | only the flags of the mapping around the address change: the given one is set and every other is kept |
| `PatchStubs.Monkeypatcher.FindPage` | src/Monkeypatcher.cc:167-176 | the first page that is near enough and has room |
| `PatchStubs.NearMeans` | src/Monkeypatcher.cc:169-171 | near means that conversion of the distance to 32 bits does not change it |
| `PatchStubs.Monkeypatcher.NewPage` | src/Monkeypatcher.cc:178-213 | the page is the middle of the first gap of three pages behind the code, mapped if and only if it is within a signed 32-bit displacement; nothing else in the map changes |
| `PatchStubs.StubViewMeans` | src/Monkeypatcher.cc:190-204 | the page is readable and executable, private, anonymous, without a file, and flagged for stubs |
| `PatchStubs.Monkeypatcher.AllocateExtendedJump` | src/Monkeypatcher.cc:163-217 | the stub comes from the first fitting page or a new one, is near the site, inside the used part of its page and disjoint from every stub; it fails exactly if no page fits and the gap is too far away |
| `PatchStubs.Monkeypatcher.Patch` | src/Monkeypatcher.cc:258-277 | one stub is added; over any sequence of calls the stubs stay disjoint and inside their pages |
| `PatchStubs.Monkeypatcher.IsJumpStubInstruction` | src/Monkeypatcher.cc:219-227 | the predecessor lookup finds a stub exactly when a scan of all stubs would |
| `SearchMemory.SearchRange` | src/GdbServer.cc:296-309 | page by page with overlap finds the lowest match inside the range, or there is none |
| `SearchMemory.Search` | src/GdbServer.cc:282-311 | the lowest mapped start whose whole match is readable and inside the searched range, or none exists, across pages and mappings |
| `WatchRegisters.SplitRange` | src/AddressSpace.cc:1465-1477 | the loop computes the greedy split |
| `WatchRegisters.GreedyTiles` | src/AddressSpace.cc:1455-1477 | the split tiles the range exactly, in order, with naturally aligned chunks of the allowed sizes |
| `WatchRegisters.GreedyOptimal` | src/AddressSpace.cc:1455-1477 | no other such tiling has fewer chunks |
| `WatchRegisters.PlanCovers` | src/AddressSpace.cc:1479-1515 | every watched byte is covered, exec and read-write plans cover nothing else, and a write plan needs at most as many registers as the exact split and is exact unless it needs fewer |
| `WatchRegisters.PlanStaysNear` | src/AddressSpace.cc:1484-1505 | a write plan covers nothing beyond the aligned cells of 2, 4 or 8 bytes that the range touches |
| `WatchRegisters.WriteTakesTwo` | src/AddressSpace.cc:1484-1505 | on a 64-bit build two registers suffice to watch writes to up to eight bytes |
| `WatchRegisters.ConfigureWatchRegisters` | src/AddressSpace.cc:1479-1515 | the chosen plan's configurations and their numbers are appended |
| `WatchRegisters.WatchTable.GetWatchConfigs` | src/AddressSpace.cc:1517-1538 | every watched byte has a register of the kind its watchpoint asks for, exec, read-write, or write without read; every register is naturally aligned and asked for by some watchpoint of that kind; when registers are about to be set and there are at most 127, the numbers noted for a watchpoint are those of its own exec and read registers and cover all of its range; otherwise nothing changes |
| `WatchRegisters.NumbersIdentify` | src/AddressSpace.cc:1517-1538 | with at most 127 configurations a noted number is the position of one of the watchpoint's own exec or read configurations |
| `WatchRegisters.NumbersDisjoint` | src/AddressSpace.cc:1517-1538 | different watchpoints share no number |
| `GdbMachine.RotExact` | src/GdbExpression.cc:236-243 | rot is the rotation of the GDB manual exactly if the second and the third value are the same |
| `GdbMachine.RotDiffers` | src/GdbExpression.cc:236-243 | on 1, 2, 3 it leaves 1 on top and the manual's rotation leaves 2 |
| `GdbArithmetic.BinaryMeans` | src/GdbExpression.cc:146-197 | by opcode, for any two values: sums, differences and products modulo 2^64, truncating division with its remainder, unsigned division, shifts by powers of two, and, or and xor bit by bit, and comparisons; an error exactly on division by zero |
| `GdbInstructions.StepMeans` | src/GdbExpression.cc:142-289 | read off the bytes at the program counter, for every opcode: which values are taken, what is left on the stack, where the program goes on, and when there is an error |
| `GdbExtension.MaskedIsExtend` | src/GdbExpression.cc:198-216 | the formula with masks and the sign bit, in 64-bit arithmetic, is extension for every value and every width for which it is used |
| `GdbExtension.ExtendMeans` | src/GdbExpression.cc:198-216 | extension gives the number of the width's signed or unsigned range that is congruent to the operand |
| `GdbExtension.ExtensionUnique` | src/GdbExpression.cc:198-216 | there is only one such number |
| `GdbEvaluate.ExpressionState.StepOnce` | src/GdbExpression.cc:142-289 | the interpreter, with its pops, pushes and fetches one by one, does one step of the machine, and has an error exactly when the machine has |
| `GdbEvaluate.RunVariant` | src/GdbExpression.cc:434-446 | the result is v exactly if the program ends without error within the limit with v on top |
| `GdbVariants.StepFollows` | src/GdbExpression.cc:142-289 | an error-free step goes to one of the successors that the analysis knows |
| `GdbVariants.FetchedIsReachable` | src/GdbExpression.cc:332-387 | every in-bounds instruction that any run fetches before an error is reachable in the analysis |
| `GdbVariants.Mark` | src/GdbExpression.cc:332-387 | the worklist ends with exactly the reachable instructions marked and the product of their variant counts, or gives up exactly if that product exceeds 64 |
| `GdbVariants.ReachIsLeast` | src/GdbExpression.cc:332-387 | what is marked contains 0, is closed under successors and is the least such set |
| `GdbVariantRuns.SuccPossible` | src/GdbExpression.cc:343-386 | wherever the analysis goes from an instruction that can be decoded, some run goes too; the one exception is ext of zero bits, which always fails |
| `GdbVariantRuns.SuccUndecoded` | src/GdbExpression.cc:343-386 | behind an instruction that cannot be decoded it goes to the next byte, or out of the program, or to the offset of all ones |
| `GdbVariants.CountVariants` | src/GdbExpression.cc:306-318 | as many as there are narrower widths of 8, 16 or 32 bits, and the width itself |
| `GdbVariants.Generate` | src/GdbExpression.cc:389-420 | the programs are exactly those that differ from the original by narrower widths at operands of marked extension instructions, each once, as many as the product, the original last |
| `GdbVariantRuns.VariantMeans` | src/GdbExpression.cc:389-420 | a program is a variant exactly if each byte is the original one, or a smaller 8, 16 or 32 right behind a reachable ext or zero_ext |
| `GdbVariants.GdbExpression.constructor` | src/GdbExpression.cc:332-421 | no programs exactly if there would be more than 64, else all of them |
| `GdbVariants.GdbExpression.Evaluate` | src/GdbExpression.cc:427-455 | succeeds with v exactly if there are programs and all of them end without error within 10000 steps with v on top |
| `GdbVariantRuns.VariantFetchesMarked` | src/GdbExpression.cc:332-446 | every instruction that a run of any variant fetches before an error is marked, if no operand that can become 32 is marked as an instruction and none that can change is the low byte of a marked jump's target |
| `GdbVariantRuns.NoOverlapSuffices` | src/GdbExpression.cc:332-421 | that holds if no operand of a marked extension is a byte of another marked instruction |
| `GdbVariantRuns.OverlapEscapes` | src/GdbExpression.cc:332-446 | a program with overlapping instructions whose variant runs into an instruction that is not marked |
| `Syscallbuf.RecordTask.MaybeFlush` | src/RecordTask.cc:1586-1642 | the recursion through the recording functions ends and amounts to one flush: data, flush frame, flag; or nothing; or a fired assertion |
| `Syscallbuf.RecordTask.RecordLocal` | src/RecordTask.cc:1470-1481 | data is written behind a flush |
| `Syscallbuf.RecordTask.MaybeReset` | src/RecordTask.cc:1649-1658 | a reset happens exactly after a flush and without a delay, and never fires an assertion |
| `Syscallbuf.RecordTask.RecordNow` | src/RecordTask.cc:1660-1700 | flush, frame, and for events with a reliable tick count a reset; ends although the functions call each other |
| `SyscallbufExact.OperationExact` | src/RecordTask.cc:1586-1700 | after any run, an operation adds to the trace exactly what waits in the buffer, if it flushes, what it writes itself, and a reset frame if and only if it records an event other than abort-commit, flush, reset, desched, grow-map and exit, the last flush is open and neither delay is on; exactly then it empties the buffer |
| `SyscallbufTheorems.RunKeeps` | src/RecordTask.cc:1586-1700 | the invariant holds after every sequence of commits, flushes, events, data and delays |
| `SyscallbufTheorems.ExactlyOnce` | src/RecordTask.cc:1586-1700 | the flushed records, flush by flush, followed by those that wait, are the buffered records: none lost, doubled or reordered |
| `SyscallbufTheorems.FlushesAlternate` | src/RecordTask.cc:1586-1658 | flush and reset frames strictly alternate, starting with a flush, and each flush frame stands next to its own non-empty data |
| `SyscallbufTheorems.BeforeLaterEvents` | src/RecordTask.cc:1660-1700 | everything buffered before an event is in the trace before its frame exactly if the event is recorded with a flush or nothing was waiting |
| `SyscallbufTheorems.ResetDropsFlushed` | src/RecordTask.cc:1649-1658 | whenever recording empties the buffer, it held exactly what the last flush recorded, and a reset frame says so |
| `SyscallbufTheorems.AssertionExact` | src/RecordTask.cc:1602-1692 | any operation fires an assertion exactly if it flushes and a record was committed between the last flush and its reset, or if it records an event with a reliable tick count without a flush |
| `TraceDirectory.PackNameInjective` | src/PackCommand.cc:222-238 | different numbers give different names, so the search for a free name ends |
| `Pack.ChooseFiles` | src/PackCommand.cc:283-294 | for every hash the first file that is no hard link and whose name begins with the directory's, or else the last file |
| `Pack.Packer.CopyIntoTrace` | src/PackCommand.cc:204-268 | a new file with the same contents directly in the trace directory, named after the original without the prefix and number of a hard link, under the first free number; in every state on the way nothing but copies is new and no file is gone or different |
| `Pack.Packer.CopyAll` | src/PackCommand.cc:296-305 | a copy for exactly the hashes whose file is a hard link or has a name that does not begin with the directory's, and in every state on the way nothing else is new, gone or different |
| `Pack.AssignNames` | src/PackCommand.cc:306-316 | the internal error is raised exactly if some name does not pass for one in the directory; otherwise every file gets the last name component of what stands for its hash |
| `Pack.Packer.Prepare` | src/PackCommand.cc:279-317 | the internal error at line 310 is never reached, and the plan is right for every file |
| `Pack.Packer.RewriteMmaps` | src/PackCommand.cc:321-361 | the new list is put in place in one step, exactly unless a file pack_mmaps exists; every state in between keeps all files and has that file, and there is such a state |
| `Pack.Packer.DeleteUnnecessary` | src/PackCommand.cc:365-396 | exactly the unused mmap_ files of the directory are removed, one by one |
| `PackPlan.SwitchExact` | src/PackCommand.cc:306-361 | after the switch every entry finds its original contents if and only if the trace was packable |
| `Pack.Packer.PackTrace` | src/PackCommand.cc:279-396 | interrupted anywhere, every entry of the current list finds its original contents before the switch, and after it exactly if the trace was packable; exactly the states from the creation of the new list to the switch block a later run; no internal error; at the end all entries are in the directory, equal hashes share one file, no unused file is left, no entry uses a hard link, an entry uses a copy exactly if no file with its contents could stay, and nothing else on the disk has changed |
| `PackPlan.ChildrenSuffice` | src/PackCommand.cc:200-202 | packable if every file that passes the prefix test lies directly in the directory |
| `TraceDirectory.PackableMeans` | src/PackCommand.cc:279-316 | packable, said of the files: whatever stands for its hash and is not copied is also found under its last name component in the directory |
| `PackPlan.SiblingNotPackable` | src/PackCommand.cc:200-202 | a trace that is not packable: its file lies in a sibling directory whose name has this one as a prefix |
| `GdbPacket.UnescapeEscape` | src/GdbConnection.cc:341-352 | unescaping gives the data back |
| `GdbPacket.EscapedIsClean` | src/GdbConnection.cc:185-203 | no escaped body contains `#`, `$` or `*` |
| `GdbPacket.EscapeByteMeans` | src/GdbConnection.cc:191-202 | which four bytes are escaped, and as what |
| `GdbPacket.HexMeans` | src/GdbConnection.cc:149-155 | the two digits of the checksum, higher one first, have its value |
| `GdbPacket.GdbConnection.WritePacketBytes` | src/GdbConnection.cc:157-168 | `$`, the body, `#` and the sum of the body modulo 256 in two digits are appended |
| `GdbPacket.GdbConnection.WriteBinaryPacket` | src/GdbConnection.cc:174-208 | the packet holds the prefix and all data escaped; the guard of the buffer never cuts it short |
| `GdbPacket.ReadBinaryData` | src/GdbConnection.cc:341-352 | the loop computes the unescaped data, and gives up exactly on a dangling escape character |
| `GdbPacket.GdbConnection.SkipToPacketStart` | src/GdbConnection.cc:254-277 | drops exactly what precedes the first start of a packet |
| `GdbPacket.GdbConnection.ReadPacket` | src/GdbConnection.cc:287-339 | finds the next packet exactly if one is complete in what has arrived or will arrive, however it is cut into reads |
| `GdbPacket.GdbConnection.TakePacket` | src/GdbConnection.cc:1037-1048 | takes exactly one packet or interrupt out of the input |
| `GdbPacket.NextMeans` | src/GdbConnection.cc:254-339 | the next packet is what stands between the first start mark and the first end mark after it, or an interrupt byte, and nothing else is |
| `GdbPacket.PacketsOfStream` | src/GdbConnection.cc:287-339 | a stream of packets is read back as these packets, checksums and junk between them skipped |
| `GdbPacket.Receive` | src/GdbConnection.cc:254-352 | any messages written by write_binary_packet, with prefixes free of `#`, cut into any reads, are received one by one, and unescaping recovers their data |

## Left out

- ptrace, signals, scheduling, syscall emulation, perf counters, replay sessions, the trace's other streams: environment behaviour around the modelled cores.
- Brotli and BLAKE2 themselves: an invertible codec and a hash without collisions among the files of the trace.
- Compressed output longer than the buffer with its 1.1 slop, a file that cannot be opened, fsync, and 64-bit wrap-around of stream positions.
- Files that do not begin with frames the writer could have made: the reader is proved on whole files of the writer and on such files cut off anywhere.
- Mapping attributes that follow mechanically (emulated file, local mapping, stat data, monitored memory), the ranges excluded from fork, the vdso address, `remap`, breakpoints, and `/proc` parsing.
- The file name in the address-to-attributes view: merging keeps only the first name, and the names that merge may differ.
- Wrap-around at the top of the address space in the memory map, the free-memory search and the watch plan; the page size is 4096.
- Writing the stub's instructions and the jump to it; only where the stub lies is modelled.
- VariantFetchesMarked: the condition suffices but is not necessary; whether a run takes the way to an unmarked byte depends on the values it computes.
- What C++ leaves undefined in agent expressions (shifts by 64 or more, the one overflowing division) is a parameter of the machine.
- Memory reads of the tracee: whether a byte can be read depends on its page only, and a read returns the longest readable prefix.
- The mprotect records that a flush applies, the memory dump and checksum options, and a buffer that is unmapped by exec.
- A tracee that commits records while rr is inside one recording function; commits happen between them.
- The size limit on path names, directories among the `mmap_` names, and different names for the same file in `rr pack`; the threads that compute the hashes; the encoding of the entries.
- Acknowledgements, flushing of the output socket and the parsing of individual gdb requests.
