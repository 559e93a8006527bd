# Rayman 2 recompilation: verified models of its state machines

The Rayman 2 port is mostly host plumbing around six pieces that carry real state or
arithmetic. This project models those six in Dafny and proves what each of them is for.
`dafny verify dfyconfig.toml` checks all of it.

* **The spin-loop finder** (`MipsBody`, `SpinLoops`, `SpinMachine`, `SpinExact`, `CallGraph`,
  `SpinReport`, `SpinVerdict`, `SpinLimits`, `SpinRows`). It reports loops that wait on something they do not
  advance. Its set-growing loops are methods proved equal to statements about chains of
  definitions and paths of calls. Its verdict is measured against a machine in which instruction
  `p` computes a fixed function of the registers it uses and of the outside world (memory for a
  load, the callee for a call), stores and calls change that world, others may change it between
  iterations, and inner branches go where their targets say: over part of the body or out of it.
  A loop waits for others when, left alone, it goes round again after going round once. A
  condition for that is proved enough, and exact where the inner branches that matter are ways
  out; loops that are reported although they end by themselves are given. `SpinRows` says which rows
  there are in terms of the instructions of the function alone, from the target of the branch to
  the one in its delay slot.
* **The audio microcode** (`Dmem`, `AudioFetch`, `AudioHandlers`, `AudioBlocks`, `AudioWeave`,
  `WeaveTrace`, `AudioReach`, `AudioMix`, `AudioCommands`). The command processor keeps its labels and its indirect returns,
  and is proved to walk the list once, in order. The move, clear and interleave commands are
  do-while loops over a DMEM array whose addresses wrap; the conditions under which a move is a
  copy and an interleave interleaves are exact, and so is when a command reaches the window the
  command list is read from. Lists that mix these commands are followed command by command, and
  `AudioCommands` says what the eight bytes of each make of the memory.
* **The Controller Pak** (`DataCrc`, `ControllerPak`, `SiPak`, `SiWire`). The CRC is a polynomial
  remainder, and what it catches is derived from that. The store and the wire are classes proved
  against functions on values, and those are proved to be a map from (port, block) to 32 bytes
  that survives restarts up to the last flush.
* **The frame pacer** (`FramePacing`): a max-plus recurrence with its closed form, its spacing,
  and the exact condition on the speed under which its lead stays short.
* **The two memory searches** (`RdramWords`, `MemorySearch`, `DemoScan`): filters whose candidates
  are exactly the words a predicate over the whole history of samples selects. Ghost fields hold
  that history, and the class invariants state the meaning after every call.
* **The report mirror** (`DebugReport`): lines and levels that depend on the stream and not on
  how it was cut into reads.

## How to read the model

A byte is an integer below 256 and a word an integer below 2^32; wrap-around is written out.
Times are integers. `Dmem.Wrap` is reduction modulo 0x1000 (`Dmem.WrapIsMod`).
Opening a pak file for writing may fail: `writable` says when it does not. The moment a file
is created or flushed is a parameter of that event, so the results hold whatever fails.

A transfer whose length register is -1 copies nothing, the length being one more than it modulo
2^32. A call returns; the delay slot of a branch runs before the branch goes, and that of a likely
branch only if it is taken.

Where the code and its comments differ, or a property fails, the model follows the code and the
exact condition is proved:

* The comment on `loop_makes_progress` says that a wait's exit does not depend on anything the
  loop advances. For a loop without inner branches that is so exactly when nothing in it can
  change the world, or its test reads nothing it writes (`SpinExact.StraightWaitIff`); with inner
  branches, when every branch that has a say in leaving is steady, which is enough in general
  (`SpinMachine.HoldingStillWaits`) and exact when those branches are ways out
  (`SpinExact.WaitsForOthersIff`). The finder looks at none of this: it reports a loop that counts
  in memory, one whose inner branch skips its load, and one with a timeout (`SpinLimits`).
* The finder skips loops with an indirect call, but not loops whose callees make one. That a
  reported loop cannot yield is settled exactly when none of its callees leads to a function with
  an indirect call (`SpinVerdict.ReportCannotYieldIff`, `SpinLimits.IndirectYieldIsMissed`).
* The loop at L_10C8 makes sixteen passes but never advances r1, so they all clear one word
  (`AudioFetch.ClearTable`); the table ends up clear exactly when the rest of it was
  (`AudioFetch.TableClearedIff`).
* An empty command list is not skipped: one pair is dispatched. What is dispatched is the list
  exactly when that is a positive number of whole commands (`AudioFetch.WalkIsListIff`).
* A longer pak file than 32 KiB is accepted and read in part, so "equals its file" means the
  first 32 KiB of it (`ControllerPak.FileImage`), and the whole of it exactly when it is no
  longer (`ControllerPak.FileIsPakIff`).
* The report claims to record lines verbatim; a line is trimmed and written as a C string. It is
  recorded verbatim exactly when it is not empty, holds no NUL and ends in neither a carriage
  return nor a space (`DebugReport.LineIsVerbatimIff`). A tail without a newline is recorded untrimmed.
* The pacer's lead stays short across a change of speed exactly when the field does not grow
  (`FramePacing.LeadIsBoundedIff`).
* The CRC catches two flipped bits exactly when their distance is not a multiple of 127
  (`DataCrc.DoubleErrorsDetectedIff`).

## Model

| member | source | states |
|---|---|---|
| SpinLoops.CarriedRegisters | tools/find_spin_loops.py:116-125 | the set is exactly the registers read before anything in the body writes them and written somewhere in it |
| SpinLoops.LastBranch | tools/find_spin_loops.py:128-134 | the last branch, jump or call of the body, or that there is none |
| SpinLoops.BackwardPass | tools/find_spin_loops.py:147-154 | a pass that grows settles at least one instruction for good; a pass that does not leaves a closed set |
| SpinLoops.BackwardClosure | tools/find_spin_loops.py:145-156 | at most as many passes as instructions always end in a set closed under "defined here, so its uses are in", and it holds exactly the registers some chain of definitions leads to |
| SpinLoops.LoopMakesProgress | tools/find_spin_loops.py:106-158 | false exactly for a wait: a last branch that tests some register and depends, through any chain of definitions, on no loop-carried one |
| SpinMachine.WaitTestsSameValues | tools/find_spin_loops.py:39-48 | after an iteration that goes round, any other that computes what feeds the relevant tests in the same world tests the same values and goes round too, whatever happened in between, as long as no relevant test carries anything over |
| SpinMachine.HoldingStillWaits | tools/find_spin_loops.py:39-48 | if every branch with a say in leaving is steady, the loop left alone goes round for ever once it has gone round, whatever its instructions mean and its inner branches pass over |
| SpinMachine.OnlyOthersEndWait | tools/find_spin_loops.py:28-33 | between an iteration of such a loop that went round and one that leaves, by any way out, somebody other than the loop changed the world |
| SpinMachine.TakenForever | tools/find_spin_loops.py:4-10 | once such a loop has gone round it goes round for as long as the others leave the world alone |
| SpinExact.UnsteadyEnds | tools/find_spin_loops.py:106-158 | in a body whose relevant inner branches are ways out, one that is not steady can end the loop by itself: some meaning of the instructions makes it go round once and leave in the next iteration |
| SpinExact.WaitsForOthersIff | tools/find_spin_loops.py:39-48 | such a loop waits for others, for all meanings of its instructions, if and only if every way out, its own branch included, depends on nothing carried over, and on nothing computed unless nothing in it can change the world |
| SpinExact.WaitIsSteadyIff | tools/find_spin_loops.py:106-158 | the test of a loop the analysis calls a wait, if nothing that feeds it can be passed over, is steady if and only if nothing in the body can change the world or the test reads nothing the body writes |
| SpinExact.StraightWaitIff | tools/find_spin_loops.py:39-48 | a wait without inner branches waits for others if and only if nothing in it can change the world or its test reads nothing it writes |
| SpinLimits.CounterPass | tools/find_spin_loops.py:39-48 | one pass of the counting loop tests one more than the world held, and stores that |
| SpinLimits.ProgressThroughMemoryIsMissed | tools/find_spin_loops.py:106-158 | a straight-line loop that counts in memory is reported in every program, although left alone it ends when its counter reaches the limit |
| SpinLimits.ForwardBranchBreaksSoundness | tools/find_spin_loops.py:106-158 | a loop whose inner branch skips the load it tests is reported in every program, although it changes nothing, is left alone, and goes round once and ends |
| SpinLimits.WayOutIsMissed | tools/find_spin_loops.py:106-158 | a poll with a timeout is reported in every program, although left alone it goes round exactly as often as the timeout says and ends |
| SpinLimits.HarmlessBranchWaits | tools/find_spin_loops.py:39-48 | an inner branch on a carried register that passes over nothing that feeds the test does no harm: that loop waits for others |
| SpinLimits.IndirectYieldIsMissed | tools/find_spin_loops.py:269-294 | a loop is reported although the function it calls may yield through a pointer |
| CallGraph.YieldSet | tools/find_spin_loops.py:228-235 | the fixpoint is exactly the functions from which some path of calls reaches a yield point, the points included |
| CallGraph.Propagate | tools/find_spin_loops.py:237-252 | f's reads and writes end as exactly what is touched directly at the end of some chain of calls from f through known callees that cannot yield |
| CallGraph.QuietReachIsReach | tools/find_spin_loops.py:28-33 | from a function that cannot yield, those chains are all the paths of direct calls there are |
| CallGraph.NeverYieldsIff | tools/find_spin_loops.py:228-235 | whatever the indirect calls turn out to call, a function cannot yield if and only if no direct calls lead from it to a yield point or to a function with an indirect call |
| SpinReport.GlobalsOf | tools/find_spin_loops.py:278-284 | loads and stores are exactly the %lo names on non-stores and on stores |
| SpinReport.Judge | tools/find_spin_loops.py:269-294 | a loop is reported exactly when it makes no indirect call, none of its callees can yield, it is a wait, and some global is looked at and stored neither by it nor by anything it can call; the globals named are exactly those |
| SpinReport.Collect | tools/find_spin_loops.py:201-226 | the call map and the direct reads and writes are those of the body that counts under each name, the last of that name |
| SpinReport.Scan | tools/find_spin_loops.py:201-294 | from the decoded functions alone: a row for exactly the backward branches whose loops are spins, naming exactly the globals each waits on |
| SpinRows.OperandsByKind | tools/find_spin_loops.py:87-103 | an ordinary instruction's operands are its definition and then its uses; calls define v0 besides using theirs; stores, branches and nops define nothing |
| SpinRows.LoopIsTargetToDelaySlot | tools/find_spin_loops.py:267-269 | an instruction of the function belongs to the loop of a backward branch if and only if it stands between the branch's target and its delay slot, both included, in its place |
| SpinRows.LastOfNameCounts | tools/find_spin_loops.py:201-226 | of several functions with one name, it is the last one's body that counts |
| SpinRows.RowIff | tools/find_spin_loops.py:254-294 | a row is in the report if and only if its branch goes back, nothing from its target to its delay slot may yield, the last control transfer there tests a register and no chain of definitions leads from it to a register read before it is written and written there, and the globals named are those looked at and not stored there or by what it calls, at least one |
| SpinRows.RowNamesExactly | tools/find_spin_loops.py:278-289 | a global is named if and only if some instruction from the target to the delay slot, or a function it leads to, looks at it, and none of these stores it |
| SpinRows.NoRowThatYields | tools/find_spin_loops.py:270-277 | no row when an instruction there makes an indirect call, or a call from which a path leads to one of the five routines that reschedule |
| SpinRows.NoRowThatAdvances | tools/find_spin_loops.py:106-158 | no row when the test depends, through definitions anywhere in the loop, on a register read there before it is written and written there |
| SpinRows.StepInDelaySlotIsSeen | tools/find_spin_loops.py:267-269 | no row for a branch whose delay slot defines the register that what it tests is loaded through |
| SpinRows.CounterRow | tools/find_spin_loops.py:254-294 | as a function of any program, the loop that counts in memory gets one row, naming the limit and not the counter stored in its delay slot |
| SpinRows.PointerWalkHasNoRow | tools/find_spin_loops.py:254-294 | as a function of any program, a list walk that steps its pointer in the delay slot gets no row |
| SpinVerdict.QuietIsWritesNothing | tools/find_spin_loops.py:237-252 | a known function that cannot yield has empty propagated writes if and only if nothing it can reach writes a global |
| SpinVerdict.ReportIsRightIff | tools/find_spin_loops.py:269-294 | with the callees of empty propagated writes taken to change nothing, a reported straight-line loop waits for others if and only if it stores nothing and calls only known functions that lead to no write, or its test reads nothing it writes |
| SpinVerdict.ReportCannotYieldIff | tools/find_spin_loops.py:269-294 | whatever the program's indirect calls turn out to call, no callee of a reported loop can yield if and only if none leads to a function that makes one |
| AudioFetch.Refill | RecompiledRsp/rsp_audio.cpp:166-240 | the refill subroutine and its nested return fill the window with the next chunk of the list, by one DMA that writes only 0x380..0x4BF and reads only the list |
| AudioFetch.Fetch | RecompiledRsp/rsp_audio.cpp:89-116 | the words under r29 are the next command whenever its eight bytes are all in the list, and r1 is then twice the low seven bits of its first byte; r2 is the jump table's halfword at that offset; r27 falls by eight |
| AudioFetch.ClearTable | RecompiledRsp/rsp_audio.cpp:61-76 | sixteen passes, after which one word of the segment table is zero and the rest of the memory is as it was |
| AudioFetch.TableClearedIff | RecompiledRsp/rsp_audio.cpp:61-76 | the segment table is all zeros after the loop if and only if everything past its first word was zero before |
| AudioFetch.Step | RecompiledRsp/rsp_audio.cpp:51-88 | the remaining labels keep the fetch invariant and make progress |
| AudioFetch.Advance | RecompiledRsp/rsp_audio.cpp:89-204 | every label leads to the next with the invariant kept and the measure (r27, then the label) smaller |
| AudioFetch.RunTask | RecompiledRsp/rsp_audio.cpp:3-157 | for every length that is not negative the run ends after length/8 rounded up commands, and one for an empty list; every whole command of the list is dispatched exactly once and in order; the refills are the list cut into 0x140-byte windowfuls, each fetched once to 0x380 and nothing beyond the list; for any handlers that, entered with command j of the list and whatever they keep up in data memory, leave the fetch alone and keep that up |
| AudioFetch.FetchedIsList | RecompiledRsp/rsp_audio.cpp:166-204 | what such refills read is the list, each byte once and in order, in pieces of 0x140 bytes of which only the last may be shorter |
| AudioFetch.WalkIsListIff | RecompiledRsp/rsp_audio.cpp:118-140 | what is dispatched is the list's commands and nothing else if and only if the list is a positive number of whole commands |
| AudioHandlers.SegmentMissesWindowIff | RecompiledRsp/rsp_audio.cpp:447-463 | the segment command spares the command window, for all memory contents, if and only if the segment number is below 24 or at least 104 |
| AudioHandlers.SetSegmentLeavesFetchAlone | RecompiledRsp/rsp_audio.cpp:447-463 | a list of such segment commands meets the command processor's requirement |
| AudioHandlers.SetBuffersLeavesFetchAlone | RecompiledRsp/rsp_audio.cpp:464-492 | the buffer-setting command meets it in every list |
| AudioBlocks.Move | RecompiledRsp/rsp_audio.cpp:661-703 | the do-while loop performs ceil(count/16) block moves at wrapped addresses, and none for a zero count |
| AudioBlocks.MoveIsCopyIff | RecompiledRsp/rsp_audio.cpp:678-698 | for every count the destination ends holding the OLD source and nothing else changes, for all memory contents, if and only if there is one block, or the areas coincide, or the destination is at least the rounded length above the source going round the memory |
| AudioBlocks.MoveIsSafeInPlace | RecompiledRsp/rsp_audio.cpp:661-703 | for areas that do not wrap, that condition is: one block, or destination at or below the source, or at least the rounded length above it |
| AudioBlocks.Clear | RecompiledRsp/rsp_audio.cpp:278-316 | exactly count rounded up to 16 bytes from the destination become zero, and the result is the one memory of which that is so |
| AudioWeave.Interleave | RecompiledRsp/rsp_audio.cpp:585-659 | the loop computes the pass-by-pass state for any alignment, partial quadword loads included |
| AudioWeave.AlignedInterleaveIsRight | RecompiledRsp/rsp_audio.cpp:604-654 | for aligned inputs the growing output never reaches, out[2i] is left[i] and out[2i+1] is right[i] of the OLD memory, and nothing else changes |
| WeaveTrace.InterleavedFrom | RecompiledRsp/rsp_audio.cpp:604-654 | every byte of the result is the old byte found by tracing it back through the passes, once round the memory and more |
| WeaveTrace.InterleaveIsRightIff | RecompiledRsp/rsp_audio.cpp:585-659 | for every count and all addresses the loop interleaves, for all memory and register contents, if and only if it makes no pass, or both inputs are on 16-byte boundaries and the growing output never reaches either of them |
| AudioReach.ClearMissesWindowIff | RecompiledRsp/rsp_audio.cpp:278-316 | a clear spares the command window, for all memory contents, if and only if its area, going round the memory, misses it |
| AudioReach.MoveMissesWindowIff | RecompiledRsp/rsp_audio.cpp:661-703 | a move that is a copy spares the window, for all memory contents, if and only if it is onto itself or its area misses the window |
| AudioReach.MoveSparesWindowIff | RecompiledRsp/rsp_audio.cpp:661-703 | any move, smearing or not, spares the window, for all memory contents, if and only if every byte of the window traces back to itself |
| AudioReach.MoveOutsideWindow | RecompiledRsp/rsp_audio.cpp:661-703 | any move whose area misses the window spares it, smearing or not |
| AudioReach.WeaveTraces | RecompiledRsp/rsp_audio.cpp:585-659 | for any alignment, every byte of the result is the old byte, or the stale register lane, that tracing it back through the passes leads to |
| AudioReach.InterleaveMissesWindowIff | RecompiledRsp/rsp_audio.cpp:585-659 | for any alignment and count, the loop spares the window, for all memory and register contents, if and only if every byte of the window traces back to itself |
| AudioReach.RightInterleaveSparesWindowIff | RecompiledRsp/rsp_audio.cpp:604-654 | an interleave that is right spares the window, for all memory contents, if and only if its output reaches the window only at the sample of each side that lies at twice its input's offset |
| AudioReach.InterleaveOutsideWindow | RecompiledRsp/rsp_audio.cpp:585-659 | an interleave of any alignment whose output misses the window spares it |
| AudioReach.ClearLeavesFetchAlone | RecompiledRsp/rsp_audio.cpp:278-316 | a list of clear commands that miss the window meets the command processor's requirement |
| AudioReach.MoveLeavesFetchAlone | RecompiledRsp/rsp_audio.cpp:661-703 | a list of move commands that miss the window meets it |
| AudioMix.CommandKeeps | RecompiledRsp/rsp_audio.cpp:95-116 | a modelled command that is safe with the buffer cells it meets leaves the fetch alone, and makes of the cells what its kind does |
| AudioMix.MixedListLeavesFetchAlone | RecompiledRsp/rsp_audio.cpp:89-116 | a list that mixes clear, move, interleave, segment and buffer commands, each safe with the cells that the commands before it leave, meets the command processor's requirement, and the cells are followed to its end |
| AudioCommands.EnteredWithBytes | RecompiledRsp/rsp_audio.cpp:89-109 | the handler of a whole command finds the command's bytes in r26 and r25, most significant first, and the sign-extended halfword the jump table holds for the low seven bits of the first in r2 |
| AudioCommands.SegmentByBytes | RecompiledRsp/rsp_audio.cpp:447-463 | a segment command stores a zero and its last three bytes at 0x320 plus four times its fifth byte, and nothing else |
| AudioCommands.BuffersByBytes | RecompiledRsp/rsp_audio.cpp:464-510 | a buffer command stores its three offsets, made relative to the buffers, in the second group of cells when bit 3 of its second byte is set, and otherwise two of them and its last halfword in the first; nothing else changes |
| AudioCommands.ClearByBytes | RecompiledRsp/rsp_audio.cpp:278-316 | a clear command zeroes exactly the bytes its offset and its count, rounded up to sixteen, say |
| AudioCommands.MoveByBytes | RecompiledRsp/rsp_audio.cpp:661-703 | a move command that does not catch up with its source leaves the old source bytes at the destination its bytes say, and changes nothing else |
| AudioCommands.QuadByBytes | RecompiledRsp/rsp_audio.cpp:604-607 | a quadword load takes the bytes from the address to the end of its line of sixteen and leaves the rest of the register |
| AudioCommands.WeaveByBytes | RecompiledRsp/rsp_audio.cpp:585-659 | an interleave command with aligned inputs its output never reaches puts sample i of the left input at four times i and that of the right two bytes on, for the count and output the cells hold, and changes nothing else |
| DataCrc.ComputeCrc | src/si_pak.cpp:80-93 | the 33 rounds compute the register fed with the message, from the first byte to the last, and eight zeros |
| DataCrc.MessageBitAt | src/si_pak.cpp:84-89 | coefficient 8i + j of the message is bit 7 - j of its byte i |
| DataCrc.SingleBitCrc | src/si_pak.cpp:80-93 | the CRC of a message with one bit set is the power of x that says how many bits, and the eight zeros, come after it |
| DataCrc.KnownCrcs | src/si_pak.cpp:80-93 | a block whose only set bit is the last of its first byte has CRC 0x04, and one whose only set bit is its very last 0x85 |
| DataCrc.CrcIsRemainder | src/si_pak.cpp:74-93 | a value is the CRC of a message if and only if it is the remainder of message times x^8 modulo x^8+x^7+x^2+1 over GF(2) |
| DataCrc.CrcLinear | src/si_pak.cpp:80-93 | the exclusive or of two messages has the exclusive or of their CRCs |
| DataCrc.SameCrcIff | src/si_pak.cpp:80-93 | two messages share a CRC exactly when their difference leaves the register empty |
| DataCrc.OddErrorsDetected | src/si_pak.cpp:80-93 | any odd number of flipped bits changes the CRC |
| DataCrc.BurstErrorsDetected | src/si_pak.cpp:80-93 | any change confined to eight consecutive bits changes it |
| DataCrc.DoubleErrorsDetectedIff | src/si_pak.cpp:80-93 | two flipped bits change it if and only if their distance is not a multiple of 127 |
| ControllerPak.IdChecksums | src/controller_pak.cpp:73-79 | the two running sums are the 16-bit sums of 14 halfwords and of their complements |
| ControllerPak.FormatEmpty | src/controller_pak.cpp:64-101 | the buffer built by the loops is the formatted-empty image, byte for byte |
| ControllerPak.EmptyImageIsFormatted | src/controller_pak.cpp:44-63 | in that image all four ID blocks pass both checksums and have the valid bit and one bank, the inode page agrees with its checksum and its backup, every data page is free and no note exists |
| ControllerPak.EmptyImageByBytes | src/controller_pak.cpp:64-101 | every byte of the image: the marks and sums of the ID blocks, the checksum and free marks of the inode pages, and zeros everywhere else |
| ControllerPak.PakStore.EnsureLoaded | src/controller_pak.cpp:108-142 | first touch loads the first 32 KiB of a long enough file, or formats and creates one; later touches change nothing |
| ControllerPak.PakStore.ReadBlock | src/controller_pak.cpp:157-165 | the 32 bytes of the block, or nothing for an out-of-range port or block |
| ControllerPak.PakStore.WriteBlock | src/controller_pak.cpp:167-178 | one block changes and the port becomes dirty only when the data differ; out of range nothing changes |
| ControllerPak.PakStore.Flush | src/controller_pak.cpp:180-195 | exactly the loaded dirty ports whose file opens are written and become clean |
| ControllerPak.FileIsPakIff | src/controller_pak.cpp:108-142 | a loaded port with nothing unsaved equals its whole file if and only if the file is exactly a pak long |
| ControllerPak.ReadChangesNothing | src/controller_pak.cpp:108-165 | reading, loading and creating files are invisible in the live and the saved images |
| ControllerPak.WriteChangesOneBlock | src/controller_pak.cpp:167-178 | a write changes one block of one live image and nothing saved |
| ControllerPak.FlushSaves | src/controller_pak.cpp:180-195 | a flush makes the saved image the live one for every port whose file opens, and changes no live image |
| ControllerPak.RestartForgets | src/controller_pak.cpp:107-142 | after a restart every port reads as its saved image; only unflushed writes are lost |
| ControllerPak.SavedByBytes | src/controller_pak.cpp:113-128 | what a port's file is worth is its first 32 KiB byte for byte, or a fresh pak if it has fewer |
| ControllerPak.TouchedFiles | src/controller_pak.cpp:108-142 | loading a port writes its file only if that is missing or short and can be opened, and then with the image it loads |
| ControllerPak.WriteByBytes | src/controller_pak.cpp:167-178 | a write puts its bytes at 32 times the block number of the live image, and nothing anywhere else |
| ControllerPak.WriteMarksDirty | src/controller_pak.cpp:167-178 | after a write the port is dirty if and only if it was, or some byte of the block differed |
| ControllerPak.FlushedFiles | src/controller_pak.cpp:180-195 | a flush writes the whole image of exactly the loaded dirty ports whose file opens, and leaves every other file and dirty flag |
| SiPak.RecogniseExact | src/si_pak.cpp:167-210 | the search finds a request if and only if the area holds it, so no area matches two channels or shapes and the early break loses no match |
| SiPak.RecognisedByBytes | src/si_pak.cpp:173-208 | which bytes make each of the three requests, on each channel, and that no others do |
| SiPak.StatusRoundTrip | src/si_pak.cpp:20-32 | a packed status query is recognised on its channel |
| SiPak.ReadRoundTrip | src/si_pak.cpp:20-32 | a packed read is recognised on its channel with its block number, for every address |
| SiPak.WriteRoundTrip | src/si_pak.cpp:20-32 | a packed write is recognised on its channel with its block number and payload, for every address and payload |
| SiPak.SiBus.FindFrame | src/si_pak.cpp:173-208 | the nested loops with their break return the recognised request |
| SiPak.SiBus.HandlePakBlock | src/si_pak.cpp:97-144 | data moves to or from the addressed cell; the reply carries the data on a read and the CRC either way, in place |
| SiPak.SiBus.HandleStatus | src/si_pak.cpp:154-159 | three reply bytes: controller type, and card present on port 0 only |
| SiPak.SiBus.ServiceFrame | src/si_pak.cpp:173-210 | what is behind the wire and the memory become the answer to the frame; true exactly when one was recognised |
| SiPak.SiBus.RawStartDma | src/si_pak.cpp:214-247 | a frame is served only on the read half and at an address inside RDRAM, otherwise nothing changes; both halves post one completion |
| SiWire.AnswerIsLocal | src/si_pak.cpp:97-159 | a read reply changes only offsets 6..0x26 of its block, a write reply only 0x26, a status reply only 3..5, all inside the 64-byte area |
| SiWire.ServiceIsIdempotent | src/si_pak.cpp:227-240 | serving the same buffer twice leaves memory, identify cells, images, files and dirty flags as serving it once, whichever files could be opened at either time |
| SiWire.RunIsMap | src/si_pak.cpp:97-144 | over any run of frames, flushes and restarts every block of every port holds what was last written to it, a restart brings back what was last flushed, the identify cell is one remembered cell a port, ports never affect each other, and a clean loaded port matches its file |
| SiWire.FreshStartIsSound | src/controller_pak.cpp:28-32 | a new process over any directory meets the run theorem's assumption |
| SiWire.StatusAnswer | src/si_pak.cpp:154-159 | a status query is answered with the three bytes 5, 0 and 1, the last 0 on every port but the first, and changes nothing behind the wire |
| SiWire.ReadReply | src/si_pak.cpp:114-144 | a read is answered with the addressed cell, or zeros above block 0x400, and the CRC of that |
| SiWire.WriteReply | src/si_pak.cpp:143-144 | a write is answered with the CRC of the data it carried |
| SiWire.ReadByBytes | src/si_pak.cpp:97-144 | a read is answered with the bytes of the port's image at 32 times the number in its address halfword, the identify cell's at 0x400, and zeros above |
| SiWire.WriteByBytes | src/si_pak.cpp:97-144 | a write moves the bytes at offset 6 to that place of the image or to the identify cell, and changes no other byte behind the wire |
| SiWire.WriteStays | src/si_pak.cpp:97-144 | what an event of a run wrote is what its cell holds as long as nothing writes there again and nothing restarts |
| SiWire.FlushedWriteSurvives | src/controller_pak.cpp:180-195 | what was written and then flushed is what a restart brings back, whatever was written since, unless the port was flushed again |
| SiWire.ReadAfterRun | src/si_pak.cpp:97-144 | a read at the end of any run returns the data last written to its block |
| FramePacing.FieldsAreNearest | src/frame_pacing.cpp:93-117 | for every positive rate asked the field count is the one nearest to 60 frames over it, between 1 and 60 |
| FramePacing.CapIsOffIff | src/frame_pacing.cpp:96-103 | there is no cap exactly when the rate asked is not positive |
| FramePacing.FieldLengthIs | src/frame_pacing.cpp:324-327 | a field is the longest whole number of nanoseconds of which a second holds as many as sixty times the speed, a speed of zero counting as one |
| FramePacing.FieldAtIs | src/frame_pacing.cpp:334-338 | a moment is in field n exactly from n fields after the origin to n + 1 |
| FramePacing.BoundaryStartsField | src/frame_pacing.cpp:355-368 | a deadline put back by the margin is in the field aimed at, and a nanosecond earlier in the one before |
| FramePacing.Pacer.PaceDeadline | src/frame_pacing.cpp:305-377 | with the cap on and the gate true the target moves on and the deadline, put back by the margin, is the first moment of the target's field; otherwise it is due now and no state changes; after any calls, at any speeds whose 32-bit field rate is not zero, the state is the target of the fields observed so far |
| FramePacing.RunDependsOnObserved | src/frame_pacing.cpp:324-353 | calls with the gate false leave no mark on the schedule |
| FramePacing.TargetIsMaxPlus | src/frame_pacing.cpp:342-353 | after n paced calls the target is the maximum over i of now_i + (n-i)*fields |
| FramePacing.NoBurst | src/frame_pacing.cpp:347-353 | in any window of a run the schedule advances by at least the frames in it times `fields`, so a stall is never repaid |
| FramePacing.LeadIsBounded | src/frame_pacing.cpp:328-376 | in a run that waits for its deadlines, at any speeds, the target of a paced call is never before the current field and never more than fields + ceil(margin/field) ahead, provided the field has not grown since the paced call before it |
| FramePacing.LeadIsAttained | src/frame_pacing.cpp:328-376 | for every field length and margin some run that waits, by a clock that never goes back, gets exactly that far ahead, the margin rounded up to fields included |
| FramePacing.SlowingBreaksLead | src/frame_pacing.cpp:328-376 | for any two field lengths of which the second is longer, a run of two calls that wait and whose lead is longer than that |
| FramePacing.LeadIsBoundedIff | src/frame_pacing.cpp:328-376 | for all runs that wait, the lead is short at a paced call after a paced call if and only if the field has not grown in between |
| MemorySearch.KeepMoved | src/memory_search.cpp:167-182 | the kept offsets are exactly the candidates that moved the requested way, in order, with their values now |
| RdramWords.SameWordIff | src/memory_search.cpp:116-122 | two words are equal exactly when their four bytes are |
| MemorySearch.SurvivesOneMore | src/memory_search.cpp:167-185 | surviving one more press is surviving the earlier ones and moving once more |
| MemorySearch.SurvivesByValue | src/memory_search.cpp:164-182 | a word survives if and only if at every press its four bytes, read as a signed little-endian number, made less than, as much as or more than at the press before, as asked |
| MemorySearch.NarrowKeepsSurvivors | src/memory_search.cpp:156-191 | one narrowing keeps exactly the words that survive the whole history extended by it |
| MemorySearch.Search.Start | src/memory_search.cpp:137-152 | every word offset is a candidate, with its value |
| MemorySearch.Search.Narrow | src/memory_search.cpp:156-191 | after any sequence of narrowings the candidates are exactly the offsets, increasing, whose signed value moved as asked at every step, each with its latest value |
| DemoScan.PeriodRemembered | src/demo_scan.cpp:310-347 | the static state is the open label period: its label, when it opened, and whether it has been sampled |
| DemoScan.SeenIs | src/demo_scan.cpp:317-333 | a poll sees nothing within half a second of its window's start, and then idle below ten lists a second and busy above forty |
| DemoScan.StateIsLastSeen | src/demo_scan.cpp:331-343 | the label is the last one that was seen at all |
| DemoScan.SampleIsSettledIff | src/demo_scan.cpp:317-347 | a poll samples if and only if it sees the label of the open period, that was opened at least three seconds before, and nothing has been sampled in it |
| DemoScan.SampleIsMeasured | src/demo_scan.cpp:317-333 | a sample's label is the rate of the lists submitted since an earlier poll, or the start, at least half a second before, with no poll in between as late as that |
| DemoScan.TakenInOrder | src/demo_scan.cpp:344-364 | the samples are the memories of exactly the polls that sample, in order, each with the label of the moment |
| DemoScan.BuildCandidates | src/demo_scan.cpp:135-148 | the candidates are exactly the words that moved between the idle snapshot and the first demo sample |
| DemoScan.Filter | src/demo_scan.cpp:152-169 | a later sample removes exactly the candidates that do not show their label's value |
| DemoScan.CandidatesByBytes | src/demo_scan.cpp:135-169 | a word is a candidate if and only if its four bytes changed between the first idle sample and the first busy one after it, and in every sample since were those of the one its label names; the counts are those of the samples |
| DemoScan.Scan.LabelPoll | src/demo_scan.cpp:317-347 | the window, rate and settling logic is the labeller's step |
| DemoScan.Scan.DemoScanPoll | src/demo_scan.cpp:304-364 | over any run: nothing is recorded before the first idle sample; once built, the candidates are exactly the words that separate the first idle from the first later busy sample and hold their label's value in every sample since, and the counts agree |
| DebugReport.ContainsWord | src/debug_report.cpp:344-357 | true exactly when the word stands somewhere with no letter on either side |
| DebugReport.LevelByWords | src/debug_report.cpp:335-372 | a line is ERROR exactly when one of the eight failure words stands in it, in letters of either case, with no letter beside it, and WARN when only a caution does |
| DebugReport.LinesSplitStream | src/debug_report.cpp:412-431 | a stream is its lines, each with its newline, and a tail, none of which holds a newline |
| DebugReport.LineIsVerbatimIff | src/debug_report.cpp:413-430 | a line is recorded, and unchanged, if and only if it is not empty, holds no NUL and ends in neither a carriage return nor a space |
| DebugReport.LinesAreVerbatimIff | src/debug_report.cpp:413-430 | the texts recorded for a stream's completed lines are those lines if and only if each of them survives in that sense and none is empty |
| DebugReport.TrimLine | src/debug_report.cpp:419-422 | what is left of a line is a beginning of it that ends in neither a carriage return nor a space and has nothing else after it |
| DebugReport.LineRecord | src/debug_report.cpp:413-430 | a completed line that is not all carriage returns and spaces adds one record: the level of the line without those at its end, and its text as far as the first NUL |
| DebugReport.TailRecord | src/debug_report.cpp:442-446 | a tail adds one record of itself, untrimmed, as far as its first NUL |
| DebugReport.CrlfLineIsItsText | src/debug_report.cpp:413-430 | a line ended by a carriage return and a newline adds the record of its text |
| DebugReport.CountIsCardinality | src/debug_report.cpp:359-371 | the counters are the numbers of records of their level |
| DebugReport.Mirror.Classify | src/debug_report.cpp:335-372 | ERROR exactly when a failure word stands alone, else WARN when a caution does; the matching counter rises by one |
| DebugReport.Mirror.EmitLines | src/debug_report.cpp:413-430 | every complete line of the buffer is trimmed and, if not blank, recorded in order; the rest holds no newline |
| DebugReport.Mirror.Read | src/debug_report.cpp:401-441 | one read keeps: records are those of the stream's complete lines, the partial buffer is its tail, the counters count the recorded levels |
| DebugReport.Mirror.Finish | src/debug_report.cpp:442-446 | a tail without a newline is recorded untrimmed |
| DebugReport.Mirror.Pump | src/debug_report.cpp:398-447 | for any stream without a newline-free stretch over 64 KiB, however cut into reads, the records are the report of the stream, and the error count is the number of ERROR records |

## Left out

- Assembly text and mnemonic and operand regexes: the model starts from decoded instructions, each branch with the index of the instruction it goes to.
- The report's ordering by loop length, its length limit and the `--all` listing.
- Loops with inner backward branches, or a branch in a delay slot: the machine runs each instruction at most once an iteration.
- SpinExact.WaitsForOthersIff: for bodies in which an inner branch over something that matters is itself unsteady, or with likely inner branches, only one half is proved (SpinMachine.HoldingStillWaits); whether such a loop can end by itself depends on which of its paths agree, and has no condition on single instructions.
- The def/use approximation itself (a call defines only v0, `sc` and `lwl` define or use as listed by position): the register machine is the one those definitions describe, and a condition flag is not a register of it.
- AudioFetch.RunTask: lists of negative length, whose first transfer is far longer than the data memory, are not modelled.
- AudioMix.MixedListLeavesFetchAlone: what the jump table leads to for an opcode is a parameter, and so is what the vector registers hold when an interleave is met; commands outside the modelled six are not dispatched.
- SP DMA address alignment, the semaphore and busy flags (always zero in the recompiled code), and the host's byte swizzle.
- The microcode's vector commands (ADPCM, resample, envelope, mixer): the vector unit and its ROM tables are not in the repository. Quadword loads and the byte, halfword and doubleword accesses are the standard ones.
- AudioWeave.AlignedInterleaveIsRight: states the sufficient half; WeaveTrace.InterleaveIsRightIff is exact.
- AudioReach.MoveMissesWindowIff: gives the closed form for moves that are copies only; AudioReach.MoveSparesWindowIff is exact for all of them.
- Reading a pak file that exists but cannot be opened, and partial writes: files are whole byte sequences.
- `set_storage_directory` after first use: the soundness predicate assumes the directory is set, as its header demands.
- Tracing, logging and the mutexes.
- The pacer's probes, presentation statistics and environment parsing; the attract-mode test is the `attract` parameter. A speed whose 32-bit field rate is zero divides by zero in the source and is excluded.
- The demo scan's rate is compared in exact integers instead of doubles; its watch list and printing are not modelled.
- MemorySearch: the freeze list, key handling, printing, and the numbers published to the menu.
- DebugReport.Mirror.Pump: beyond the bound a long stretch is flushed in pieces that depend on the reads, so nothing is claimed there. The header, timestamps, crash blocks and the console echo are not modelled, and the report file is taken to be open.
- `draw_distance.cpp`, rendering, the frontend and the remaining tools.
