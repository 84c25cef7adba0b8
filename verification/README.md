# Verified model of the AArch64 C1 runtime code and the Linux core reader

This project models five parts of HotSpot and proves what they promise. Emitted machine code is modelled
as steps of a small machine or of threads over shared memory; C and C++ code that updates objects and
buffers is modelled as classes and methods over arrays.

1. **Thin locking and atomics** (`ThinLock*`, `Atomics*`). `lock_object`, `unlock_object` and the exclusive
   load/store loop of `cmpxchgptr` are one instruction per step; any number of threads interleave, call,
   return (move sp) and fail store-exclusives spuriously. `ThinLockSafety.Inv` holds in every reachable state, and
   the theorems about locking follow from it. `casw`, `casl`, `xadd` and `xchg` are load-exclusive/store-exclusive loops
   with interfering plain stores; a log of atomic events is the sequential reference they refine.
2. **Instruction encoding** (`InsnBits`, `FieldReaders`, `InsnBuilder`, `AddSubImm`, `LoadStore`, `Branches`, `Relocation`,
   `CodePatching`, `BranchMeaning`, `PageReferences`, `MoveWide`). The field builder with its checks, the mask-and-shift field readers, add/subtract immediates, load/store
   addressing, pc-relative branches, and in-place patching, each against a decoder written from Arm DDI 0487 chapter C4
   and, for arithmetic, the shared pseudocode function `AddWithCarry`.
3. **Fresh-object zeroing and sizing** (`Machine`, `Zeroing`, `ObjectInit`, `C1Assembler`, `ArraySize`). The assembler
   class emits code; the machine runs it; memory afterwards is described word by word.
4. **The Linux debugger agent** (`CoreMaps`, `CoreRead`, `CoreLoop`, `CoreFile`, `ProcRead`, `CoreNotes`, `Crc`). The sorted
   map index, the multi-segment reader with files of any length, the unaligned word reader, the ELF note walk (System V gABI
   chapter 5, "Note Section") and the debug-link CRC (section 8 of RFC 1952), the last against polynomial long division.
5. **Profiles and G1 queues** (`FirstSeen`, `Profile`, `PtrQueues`, `CardBarrier`, `CardRaces`). Receiver rows, the SATB and
   dirty-card queues with the in-place filter, and the post-barrier card protocol of one thread and of many, over unbounded runs.

Results where the code does less than one might expect, each with its exact condition:

- The recursive-lock test accepts a lock record less than one page above sp; its comment says "at most one
  page". `OwnLockFastIff` gives the condition, `PageBoundaryIsSlow` the difference, `BoundaryReached` a run that gets there.
- Explicit zeroing stores for a small constant size clear exactly the body if and only if the header is a
  multiple of two words or the body is empty; otherwise one word past the object is written (`ConstantObjectExact`).
  An instance header is two words, so the failing case does not arise today.
- A byte access with a shifted index register passes every check and the shift is lost (`ByteShiftIsLost`). A prefetch
  with writeback, and other combinations the architecture does not have, pass every field check too (`UnallocatedEncodes`,
  `PrefetchWriteback`). `EncodesExactly` says when an access is encoded faithfully, `EveryAccess` what goes wrong without a
  report. `offset_ok_for_immed` refuses -256, which would encode.
- The patcher accepts an adrp followed by any add into the same register and does not look at the register added to; and
  it leaves an offset added to the page by an instruction it does not recognise. Such a pair does not form the target
  (`OtherSource`, `OffsetLeft`); `PairForms` says exactly when it does. Nor does it look at the register and halfword of the
  movk instructions of an address constant (`MovesCompute`).
- The walk over the notes of a core file reads outside the buffer exactly when the buffer is no chain of headers
  (`OverrunIffNoChain`). A last note that is cut off goes unnoticed (`CutNotePasses`).
- `ROUNDUP` to four wraps for the three largest 32-bit sizes (`RoundUpExact`).
- Where a file ends inside a map with a fractional last page, a read across that end succeeds as far as the zeros of the
  page tail reach, and returns zeros for the missing bytes. `RoundRightIff` and `CoreReadData` say exactly when;
  `TwoBytesOfTen` is an instance.
- An empty map hides the map around it from the index; `FoundUnlessEmpty` says exactly when.
- The post barrier logs what `adrp` gives plus the card index: the card's own address if and only if the table base is
  page-aligned or at least 4 GB away from the stub (`LoggedAddressIsCard`; `UnalignedBases` has one base either way).
- Several threads may log a card more than once: exactly once if and only if no two of them are ever both between the
  second load and the store (`LoggedOnceIffNoRace`); `LoggedTwice` is a run with a race.
- With `G1SATBBufferEnqueueingThresholdPercent` at 100, which its range admits, a full SATB buffer that retains everything
  is neither handed over nor emptied, and the retry loop gets nowhere while that stays so (`RetryRounds`, `HundredPercentSticks`);
  `HandleZeroIndex` states that this is the only case.

Addresses and register values are numbers below 2^64 with wrap-around written out; instruction words are
sequences of 32 bits. Interleaving is sequentially consistent. Outcomes of the operating system, the
heap, marking state and queue-set policy are parameters.

## Model

| member | source | states |
|---|---|---|
| `ThinLockSteps.StepKeepsInv` | src/cpu/aarch64/vm/c1_MacroAssembler_aarch64.cpp:63-160 | every instruction of lock and unlock, every call, return and interruption keeps the locking invariant |
| `ThinLockSteps.RunKeepsInv` | src/cpu/aarch64/vm/c1_MacroAssembler_aarch64.cpp:63-160 | the invariant holds in every state of every run from unlocked headers |
| `ThinLockTheorems.MutualExclusion` | src/cpu/aarch64/vm/c1_MacroAssembler_aarch64.cpp:63-122 | in every interleaving at most one thread holds an object |
| `ThinLockTheorems.HeaderIffHeld` | src/cpu/aarch64/vm/c1_MacroAssembler_aarch64.cpp:63-160 | the header is a slot address exactly while the object is held, and then the slot is in the holder's stack, not below its sp; otherwise it is the original header |
| `ThinLockTheorems.HeaderConserved` | src/cpu/aarch64/vm/c1_MacroAssembler_aarch64.cpp:82-116 | of the records a holder has on an object exactly one, the outermost, keeps the original header and is pointed to; all inner ones keep zero |
| `ThinLockTheorems.RecordsApart` | src/cpu/aarch64/vm/c1_MacroAssembler_aarch64.cpp:70-93 | two-word lock records in use never overlap, within a thread or across threads |
| `ThinLockTheorems.LastUnlockRestores` | src/cpu/aarch64/vm/c1_MacroAssembler_aarch64.cpp:125-160 | an object nobody holds has the header it had before it was locked |
| `ThinLockTheorems.UnlockNeverSlow` | src/cpu/aarch64/vm/c1_MacroAssembler_aarch64.cpp:137-159 | unlock never reaches the slow case: its compare always finds the record's address |
| `ThinLockTheorems.RecursionTestExact` | src/cpu/aarch64/vm/c1_MacroAssembler_aarch64.cpp:95-116 | the masked difference is zero iff the thread itself holds the object with its outermost record less than a page above sp |
| `ThinLockTheorems.OwnLockFastIff` | src/cpu/aarch64/vm/c1_MacroAssembler_aarch64.cpp:95-116 | a thread locking an object it holds re-enters it iff its outermost record is less than a page above sp, and else changes nothing |
| `ThinLockTheorems.PageBoundaryIsSlow` | src/cpu/aarch64/vm/c1_MacroAssembler_aarch64.cpp:95-116 | in every run, an own record exactly one page above sp sends the lock to the slow path, against the comment |
| `ThinLockBoundary.BoundaryReached` | src/cpu/aarch64/vm/c1_MacroAssembler_aarch64.cpp:95-116 | a run that locks, moves sp down a page and is then sent to the slow path by its own record |
| `ThinLockTheorems.SoloLock` | src/cpu/aarch64/vm/c1_MacroAssembler_aarch64.cpp:63-122 | an uninterrupted lock ends in ten steps: it takes a free object, re-enters its own, and else changes nothing |
| `ThinLockTheorems.SoloUnlock` | src/cpu/aarch64/vm/c1_MacroAssembler_aarch64.cpp:125-160 | an uninterrupted unlock ends in six steps, drops the innermost record and restores the header iff it was the outermost |
| `ThinLockOutcomes.UnlockReleases` | src/cpu/aarch64/vm/c1_MacroAssembler_aarch64.cpp:125-160 | in every run, however often the store-exclusive fails, an unlock that ends has dropped the innermost record, and the original header is back iff that was the outermost |
| `ThinLockOutcomes.LockTakes` | src/cpu/aarch64/vm/c1_MacroAssembler_aarch64.cpp:63-122 | in every run a lock attempt that ends took a free object, re-entered its own within a page, or was sent to the slow path with nothing changed |
| `ThinLockOutcomes.OnlyEndsChange` | src/cpu/aarch64/vm/c1_MacroAssembler_aarch64.cpp:63-160 | no other step changes a header or a thread's records |
| `ThinLockOutcomes.SlowOnlyIfTaken` | src/cpu/aarch64/vm/macroAssembler_aarch64.cpp:2050-2075 | an attempt reaches the page test, and so the slow path, only if the object was locked at some moment of the attempt |
| `AtomicsRefinement.StepKeepsInv` | src/cpu/aarch64/vm/c1_LIRAssembler_aarch64.cpp:1559-1593 | every instruction, interfering store and spurious failure keeps memory equal to the replay of the event log |
| `AtomicsTheorems.Linearizable` | src/cpu/aarch64/vm/c1_LIRAssembler_aarch64.cpp:3137-3184 | memory is always the result of doing the logged operations one at a time |
| `AtomicsTheorems.OneEffectPerCall` | src/cpu/aarch64/vm/c1_LIRAssembler_aarch64.cpp:1559-1593 | each step has no effect, is an interfering store, or is the only effect of one running call |
| `AtomicsTheorems.FinishedCall` | src/cpu/aarch64/vm/c1_LIRAssembler_aarch64.cpp:3137-3184 | a finished call took effect exactly once, between its start and its end, and returns what that operation returns |
| `AtomicsTheorems.CasReportsSwap` | src/cpu/aarch64/vm/c1_LIRGenerator_aarch64.cpp:835 | after the XOR with 1 the result is 1 iff memory held the expected value at the moment of effect and was replaced |
| `AtomicsTheorems.ExchangeReplaces` | src/cpu/aarch64/vm/c1_LIRAssembler_aarch64.cpp:3161-3180 | a finished exchange put its new value into its cell, and changed nothing else, at one moment, and returns what the cell held just before |
| `AtomicsTheorems.AddIncreases` | src/cpu/aarch64/vm/c1_LIRAssembler_aarch64.cpp:3138-3160 | a finished add put the sum into its cell, and changed nothing else, at one moment, and returns what the cell held just before |
| `AtomicsTheorems.XaddConserves` | src/cpu/aarch64/vm/c1_LIRAssembler_aarch64.cpp:3137-3184 | memory is the initial value plus all increments that took effect, modulo the width |
| `AtomicsTheorems.XaddReturnsPrefixSum` | src/cpu/aarch64/vm/c1_LIRAssembler_aarch64.cpp:3137-3184 | each add returns the initial value plus the increments that took effect before it |
| `AtomicsTheorems.ExchangeChain` | src/cpu/aarch64/vm/c1_LIRAssembler_aarch64.cpp:3137-3184 | values found plus the final content are the initial content plus values left: none lost, none duplicated |
| `AtomicsTheorems.SoloFinishes` | src/cpu/aarch64/vm/c1_LIRAssembler_aarch64.cpp:1559-1593 | without interference every loop ends within six instructions |
| `InsnBuilder.Builds` | src/cpu/aarch64/vm/assembler_aarch64.hpp:235-261 | a list of field calls passes all checks iff every value fits and no fields overlap, and then every bit is its field's or zero |
| `FieldReaders.ExtractIsField` | src/cpu/aarch64/vm/assembler_aarch64.hpp:193-200 | shift then mask reads the named bits of every 32-bit number |
| `FieldReaders.PickIsField` | src/cpu/aarch64/vm/decode_aarch64.hpp:134-174 | mask then shift reads the same bits |
| `FieldReaders.SimmIsField` | src/cpu/aarch64/vm/decode_aarch64.hpp:200-209 | shift left then arithmetic shift right reads them as a two's complement number |
| `FieldReaders.SextractIsField` | src/cpu/aarch64/vm/assembler_aarch64.hpp:182-205 | extracting first and extending from the field's own top bit gives the same number |
| `InsnBuilder.FieldsReadBack` | src/cpu/aarch64/vm/assembler_aarch64.hpp:235-261 | every field written, signed or unsigned, is read back by the field readers |
| `InsnBuilder.PatchIsRebuild` | src/cpu/aarch64/vm/assembler_aarch64.hpp:207-233 | patching one field of a built word equals building it with the new value |
| `InsnBuilder.CompleteFills` | src/cpu/aarch64/vm/assembler_aarch64.hpp:700-704 | a field list that covers all positions leaves no unwritten bit for `emit` |
| `InsnBuilder.Instruction.Write` | src/cpu/aarch64/vm/assembler_aarch64.hpp:235-261 | the mutable builder holds what the field calls so far build |
| `InsnBits.SetSExtract` | src/cpu/aarch64/vm/assembler_aarch64.hpp:182-205 | a signed value written into a field it fits is what sign extension reads back |
| `AddSubImm.Emit` | src/cpu/aarch64/vm/assembler_aarch64.cpp:1397-1427 | the emitter makes exactly the specified field calls and reports a misaligned stack adjustment |
| `AddSubImm.EncodesIffValid` | src/cpu/aarch64/vm/assembler_aarch64.cpp:1397-1439 | for every 32-bit argument the encoding succeeds iff the constant is accepted and the registers can be named |
| `AddSubImm.ExecutesAsRequested` | src/cpu/aarch64/vm/assembler_aarch64.cpp:1397-1439 | for every accepted constant, also narrowed from 64 bits, and every operand, result and NZCV of the decoded instruction are those of the requested operation |
| `LoadStore.LdSt2` | src/cpu/aarch64/vm/assembler_aarch64.hpp:1280-1303 | in all five modes the emitter makes exactly the specified field calls and reports a failed assertion, which no acceptable access causes |
| `LoadStore.SizeReadBack` | src/cpu/aarch64/vm/assembler_aarch64.hpp:461-475 | the size, register class and width that `encode` reads from the half-built word are those written |
| `LoadStore.EncodesExactly` | src/cpu/aarch64/vm/assembler_aarch64.hpp:461-525 | all 32 bits are written once, no check fails and the word decodes, as an allocated instruction, to the access and operand asked for, iff the access is acceptable |
| `LoadStore.EveryAccess` | src/cpu/aarch64/vm/assembler_aarch64.hpp:461-525 | every access whose fields pass the checks is encoded faithfully, trips an assertion, or is one of the listed unreported errors, and only one of these |
| `LoadStore.UnallocatedEncodes` | src/cpu/aarch64/vm/assembler_aarch64.hpp:1326-1335 | a combination the architecture lacks passes every field check and decodes to nothing |
| `LoadStore.PrefetchWriteback` | src/cpu/aarch64/vm/assembler_aarch64.hpp:1333-1335 | the writeback prefetch the source warns about is one |
| `LoadStore.ScaledExact` | src/cpu/aarch64/vm/assembler_aarch64.hpp:579-586 | a scaled offset survives the conversion to the unsigned field iff `offset_ok_for_immed` accepts it |
| `LoadStore.ByteShiftIsLost` | src/cpu/aarch64/vm/assembler_aarch64.hpp:499-506 | a byte access with a written shift encodes without complaint and decodes to shift zero |
| `BranchMeaning.EmissionDecodes` | src/cpu/aarch64/vm/assembler_aarch64.hpp:862-932 | every emitted branch, literal load and adr decodes to itself: link, width, sense, tested bit, condition, register and distance |
| `BranchMeaning.PatchDecodes` | src/cpu/aarch64/vm/macroAssembler_aarch64.cpp:62-137 | patching a word that decodes changes its distance and nothing else of what it means |
| `Branches.PatchEqualsEmission` | src/cpu/aarch64/vm/macroAssembler_aarch64.cpp:62-137 | patching any emitted branch, literal load or adr for a target gives the word emission gives, or fails exactly when emission fails |
| `Branches.SelfEncodes` | src/cpu/aarch64/vm/assembler_aarch64.cpp:1344-1380 | the branch to itself emitted for an unbound label always encodes |
| `Branches.TargetRoundTrip` | src/cpu/aarch64/vm/macroAssembler_aarch64.cpp:184-206 | the target read from an emitted branch is the one asked for iff the distance is a multiple of four |
| `Branches.ReachableEncodes` | src/cpu/aarch64/vm/assembler_aarch64.hpp:855-873 | the 26-bit form encodes exactly the reachable targets and the one 128 MB back |
| `Branches.ClassesAgree` | src/cpu/aarch64/vm/macroAssembler_aarch64.cpp:62-82 | both dispatchers select the distance field of the instruction that was emitted |
| `Branches.SpatchAt` | src/cpu/aarch64/vm/assembler_aarch64.hpp:220-234 | the signed patch changes one field of one word of the code buffer or refuses |
| `Branches.PatchSlotAt` | src/cpu/aarch64/vm/macroAssembler_aarch64.cpp:67-82 | the class tests find the distance field of the word at the branch, and only that field changes, or nothing when the distance does not fit |
| `Relocation.PatchThenTarget` | src/cpu/aarch64/vm/macroAssembler_aarch64.cpp:62-82 | for every word patched as a branch or literal load, the target read back is the target rounded down to a word |
| `Relocation.SlotsAgree` | src/cpu/aarch64/vm/macroAssembler_aarch64.cpp:184-206 | the patcher's and the reader's class tests, though masked differently, agree wherever the patcher accepts |
| `Relocation.PairThenTarget` | src/cpu/aarch64/vm/macroAssembler_aarch64.cpp:83-137 | for any word after an adrp, the reader answers the target the pair was patched for |
| `PageReferences.PairForms` | src/cpu/aarch64/vm/macroAssembler_aarch64.cpp:83-137 | the patched pair, as decoded, computes or addresses the target whatever other registers hold iff the second word takes its base from the page register and adds nothing the patcher does not patch |
| `PageReferences.OtherSource` | src/cpu/aarch64/vm/macroAssembler_aarch64.cpp:118-124 | an accepted pair whose add has another source: it computes that register plus the low bits |
| `PageReferences.OffsetLeft` | src/cpu/aarch64/vm/macroAssembler_aarch64.cpp:125-132 | an accepted lone adrp whose follower adds 8: it computes the target plus 8 |
| `Relocation.MovesThenTarget` | src/cpu/aarch64/vm/macroAssembler_aarch64.cpp:138-148 | the three patched move immediates give the target back iff it is below 2^48 |
| `MoveWide.MovesCompute` | src/cpu/aarch64/vm/macroAssembler_aarch64.cpp:138-148 | the patched moves, as decoded, compute every target below 2^48 iff they name one register and the halfwords in order |
| `CodePatching.PdPatchInstructionSize` | src/cpu/aarch64/vm/macroAssembler_aarch64.cpp:62-156 | every form is patched branch by branch in place; afterwards the reader answers the target, rounded down to a word for branches and literal loads, and no word outside the one to three patched has changed; a failed check changes nothing |
| `CodePatching.PatchedTarget` | src/cpu/aarch64/vm/macroAssembler_aarch64.cpp:184-262 | after every successful patch but that of an adr, which the reader refuses, the buffer refers to the target, rounded down to a word for branches and literal loads |
| `Zeroing.ZeroMemoryClears` | src/cpu/aarch64/vm/c1_MacroAssembler_aarch64.cpp:201-258 | for every word count the computed-branch loop clears exactly those words, ends, and keeps every other register |
| `ObjectInit.BodyClears` | src/cpu/aarch64/vm/c1_MacroAssembler_aarch64.cpp:261-288 | for every size the body code clears exactly header to size and restores obj |
| `ObjectInit.SmallClears` | src/cpu/aarch64/vm/c1_MacroAssembler_aarch64.cpp:314-325 | the explicit stores clear the stated number of words and nothing else |
| `ObjectInit.LargeClears` | src/cpu/aarch64/vm/c1_MacroAssembler_aarch64.cpp:326-348 | the loop entered in its middle clears exactly header to size |
| `C1Assembler.C1MacroAssembler.InitializeObject` | src/cpu/aarch64/vm/c1_MacroAssembler_aarch64.cpp:300-348 | the emitter appends the code whose effect is proved below, for variable and constant sizes |
| `C1Assembler.VariableObjectClears` | src/cpu/aarch64/vm/c1_MacroAssembler_aarch64.cpp:310-312 | running the code for a size in a register clears exactly header to size and keeps obj |
| `C1Assembler.ConstantObjectClears` | src/cpu/aarch64/vm/c1_MacroAssembler_aarch64.cpp:300-348 | running the code for a constant size clears `ClearedWords` words from the header and keeps obj |
| `C1Assembler.ConstantObjectExact` | src/cpu/aarch64/vm/c1_MacroAssembler_aarch64.cpp:314-348 | that is exactly the body iff the loop is used, the body is empty or the header is a multiple of two words |
| `Machine.ZeroWordsExact` | src/cpu/aarch64/vm/c1_MacroAssembler_aarch64.cpp:201-258 | cleared memory is zero at exactly the words of the region and unchanged elsewhere |
| `ArraySize.SizesAgree` | src/cpu/aarch64/vm/c1_MacroAssembler_aarch64.cpp:359-382 | below the limit the inline and the stub computation agree on the least suitable multiple of eight, without 32-bit wrap |
| `ArraySize.ArraySizeUnique` | src/cpu/aarch64/vm/c1_Runtime1_aarch64.cpp:824-856 | that size is unique |
| `ArraySize.InlineSizeRuns` | src/cpu/aarch64/vm/c1_MacroAssembler_aarch64.cpp:370-374 | the emitted size instructions leave the inline size in the register |
| `ArraySize.StubSizeRuns` | src/cpu/aarch64/vm/c1_Runtime1_aarch64.cpp:839-845 | the stub's size instructions leave the stub size in the register |
| `ArraySize.InlineArrayRuns` | src/cpu/aarch64/vm/c1_MacroAssembler_aarch64.cpp:359-382 | the inline size and clearing code, with any allocation in between, clears exactly header to array size |
| `ArraySize.StubArrayRuns` | src/cpu/aarch64/vm/c1_Runtime1_aarch64.cpp:824-856 | for every length the stub accepts, its size code, header subtraction and clearing code, with any allocation in between, clear exactly header to array size |
| `CoreMaps.Qsort` | agent/src/os/linux/ps_core.c:405-417 | sorting with the comparison gives a sorted permutation |
| `CoreMaps.FirstContainingSpec` | agent/src/os/linux/ps_core.c:183-192 | the fallback list yields its first map that contains the address, and nothing iff none does |
| `CoreMaps.IndexAgreesWithScan` | agent/src/os/linux/ps_core.c:152-196 | for disjoint maps the binary search with fallback returns what a linear scan returns, for every address |
| `CoreMaps.FoundUnlessEmpty` | agent/src/os/linux/ps_core.c:152-196 | a map is found for its address iff the last map starting at or below the address is not empty |
| `CoreMaps.EmptyMapHides` | agent/src/os/linux/ps_core.c:698-701 | an instance: an empty map hides another one, which is why empty segments are not added |
| `CoreFile.CoreData.AddMapInfo` | agent/src/os/linux/ps_core.c:121-134 | the new map is at the head of the list and counted, or nothing changes when memory is short |
| `CoreFile.CoreData.AddClassShareMapInfo` | agent/src/os/linux/ps_core.c:137-149 | the new shared map is at the head of the fallback list only, or nothing changes when memory is short |
| `CoreFile.CoreData.SortMapArray` | agent/src/os/linux/ps_core.c:419-459 | the array becomes a sorted permutation of the map list, or stays when memory is short |
| `CoreFile.CoreData.CoreLookup` | agent/src/os/linux/ps_core.c:152-196 | the search loop computes the index lookup, and for disjoint maps the linear scan |
| `CoreLoop.RoundExact` | agent/src/os/linux/ps_core.c:468-500 | on fully backed maps one round delivers bytes iff the address is mapped, all of them right, up to the request or a page boundary |
| `CoreRead.RoundRightIff` | agent/src/os/linux/ps_core.c:480-500 | with files of any length a round is right iff the file has none of the request, has all of it, or the map ends on a page boundary |
| `CoreFile.CoreData.CoreReadData` | agent/src/os/linux/ps_core.c:465-513 | with files of any length the read succeeds iff the range is complete or zero-filled from a file's early end, and the bytes are right iff it is complete; on fully backed maps it succeeds iff the range is readable, always rightly |
| `CoreLoop.ProgressStep` | agent/src/os/linux/ps_core.c:468-505 | each round moves the read on, or shows that it cannot succeed |
| `CoreLoop.ShortFileReadsZeros` | agent/src/os/linux/ps_core.c:490-504 | a read across the early end of a file succeeds with zeros up to the page tail |
| `CoreLoop.TwoBytesOfTen` | agent/src/os/linux/ps_core.c:490-504 | an instance: two bytes of file under ten mapped ones |
| `CoreRead.RightByteUnique` | agent/src/os/linux/ps_core.c:465-513 | an address has only one right byte |
| `ProcRead.ProcessReadData` | agent/src/os/linux/ps_proc.c:61-108 | the read succeeds iff every word it touches can be peeked, and then the buffer is exactly the target's bytes |
| `ProcRead.NeededWords` | agent/src/os/linux/ps_proc.c:48-108 | a non-empty read needs exactly the aligned words of its own bytes |
| `CoreNotes.ProcHandle.AddThreadInfo` | agent/src/os/linux/libproc_impl.c:246-262 | a thread is prepended unless allocation fails |
| `CoreNotes.ProcHandle.CoreHandleNote` | agent/src/os/linux/ps_core.c:606-655 | on any buffer the walk ends within one round per twelve bytes with the specified outcome and the threads prepended in reverse order; on a buffer of valid notes the list begins with entries that describe the prstatus notes byte by byte, last one first, as far as memory reaches |
| `CoreNotes.OverrunIffNoChain` | agent/src/os/linux/ps_core.c:634-648 | given enough memory, the walk reads outside the buffer iff the buffer is not a chain of headers that all lie inside it, with the parts read of prstatus descriptors |
| `CoreNotes.ChainLength` | agent/src/os/linux/ps_core.c:634-648 | such a chain has at most one note per twelve bytes |
| `CoreNotes.CutNotePasses` | agent/src/os/linux/ps_core.c:634-648 | an instance: a buffer that is no list of whole notes is walked without complaint |
| `CoreNotes.EncodeIsLaidOut` | agent/src/os/linux/ps_core.c:606-655 | any serialised note list has the layout the walk inverts |
| `CoreNotes.ThreadsExact` | agent/src/os/linux/ps_core.c:543-555 | the entries added describe the prstatus notes one for one, in order, and no others: the id at its offset, the registers byte by byte at theirs |
| `CoreNotes.PrNotesSplit` | agent/src/os/linux/ps_core.c:641-645 | these notes are all those of type NT_PRSTATUS that are long enough, in order |
| `CoreNotes.WalkAdded` | agent/src/os/linux/ps_core.c:635-647 | on any buffer the entries added describe prstatus headers in it, in order |
| `CoreNotes.RoundUpExact` | agent/src/os/linux/ps_core.c:606-607 | the 32-bit rounding is the next multiple of four iff it does not wrap |
| `Crc.TableIsShift8` | agent/src/os/linux/symtab.c:68-121 | all 256 table entries are eight division steps of their index |
| `Crc.GnuDebuglinkCrc32` | agent/src/os/linux/symtab.c:65-129 | the byte loop computes the table fold of the buffer |
| `Crc.CrcIsRemainder` | agent/src/os/linux/symtab.c:65-129 | for every byte string the checksum is the remainder of polynomial long division by the CRC-32 polynomial |
| `Crc.CrcAppend` | agent/src/os/linux/symtab.c:146-151 | checksumming in pieces is checksumming the whole |
| `Crc.OpenDebugFile` | agent/src/os/linux/symtab.c:133-159 | the file is accepted iff the checksum of everything delivered before the first read that fails or is at the end matches, however the reads are cut up; iff that of the whole file does if they deliver it all |
| `Crc.StopsOnce` | agent/src/os/linux/symtab.c:146-151 | the read at which the loop stops is unique |
| `Profile.VirtualCallData.ProfileCall` | src/cpu/aarch64/vm/c1_LIRAssembler_aarch64.cpp:1278-1309 | after any call sequence the rows are the first distinct receivers in order with their exact 64-bit call counts, and the counter has the rest |
| `Profile.CallsConserved` | src/cpu/aarch64/vm/c1_LIRAssembler_aarch64.cpp:2606-2615 | row counts plus the polymorphic counter equal the number of calls, modulo 2^64 |
| `FirstSeen.OccursIsMultiplicity` | src/cpu/aarch64/vm/c1_LIRAssembler_aarch64.cpp:1278-1309 | a count of calls is the multiplicity of the receiver among all calls |
| `FirstSeen.FirstsExact` | src/cpu/aarch64/vm/c1_LIRAssembler_aarch64.cpp:1278-1309 | the receivers that compete for rows are the called ones, each once |
| `FirstSeen.FirstsPrefix` | src/cpu/aarch64/vm/c1_LIRAssembler_aarch64.cpp:1296-1308 | a later call never moves or replaces an occupied row |
| `PtrQueues.Compact` | src/share/vm/gc/g1/satbQueue.cpp:99-151 | the in-place filter leaves exactly the entries to keep, in order, at the top, and zeros below |
| `PtrQueues.PtrQueue.HandleZeroIndex` | src/share/vm/gc/g1/ptrQueue.cpp:142-197 | the full buffer is filtered, and reused iff at most the threshold percentage is retained; else it is handed over, and kept iff the set recycles it; nothing needed is lost, and there is room afterwards unless the buffer sticks, and then nothing changes |
| `PtrQueues.PtrQueue.ShouldEnqueueBuffer` | src/share/vm/gc/g1/satbQueue.cpp:160-183 | the buffer is handed over iff more than the threshold percentage of it is retained; it is handed over or has room iff the threshold is below 100 or the filter freed an entry |
| `PtrQueues.PtrQueue.EnqueueKnownActive` | src/share/vm/gc/g1/ptrQueue.cpp:60-72 | from a buffer that does not stick the retry loop ends and the value is logged once |
| `PtrQueues.PtrQueue.RetryRounds` | src/share/vm/gc/g1/ptrQueue.cpp:64-66 | with marking changing between rounds, the loop makes room in the first round in which the full buffer does not stick, and before that changes nothing |
| `PtrQueues.HundredPercentSticks` | src/share/vm/gc/g1/g1_globals.hpp:91-97 | an instance at the largest threshold the flag admits |
| `PtrQueues.PtrQueue.Enqueue` | src/cpu/aarch64/vm/c1_Runtime1_aarch64.cpp:1182-1199 | over any run the index is a word multiple within the buffer and handed plus logged entries are the values passed in, in order, up to entries the filter may drop; a value goes to the young end of the log, and a full log is first handed over or filtered |
| `CardBarrier.Barrier.PostBarrier` | src/cpu/aarch64/vm/c1_Runtime1_aarch64.cpp:1229-1265 | after any run of stores, near or far from the table, the table and the logged addresses are those of the first stores to clean, non-young cards |
| `CardBarrier.LoggedOnce` | src/cpu/aarch64/vm/c1_Runtime1_aarch64.cpp:1229-1265 | each such card is logged exactly once and no other card is |
| `CardBarrier.LoggedAddressIsCard` | src/cpu/aarch64/vm/macroAssembler_aarch64.cpp:3909-3927 | in every reachable state each logged entry is its card's address iff the table base is out of adrp range or page-aligned |
| `CardBarrier.UnalignedBases` | src/cpu/aarch64/vm/c1_Runtime1_aarch64.cpp:1229-1235 | an instance: the same unaligned base logs another card's address from nearby and the card's own from far away |
| `CardRaces.StepKeepsInv` | src/cpu/aarch64/vm/c1_Runtime1_aarch64.cpp:1229-1265 | with any number of threads, every load, store and logging step keeps the card invariant |
| `CardRaces.LoggedWhenQuiet` | src/cpu/aarch64/vm/c1_Runtime1_aarch64.cpp:1229-1265 | when no call is running, the logged cards are exactly the clean, non-young ones stored to, and these are dirty |
| `CardRaces.LoggedOnceIffNoRace` | src/cpu/aarch64/vm/c1_Runtime1_aarch64.cpp:1239-1246 | such a card is logged exactly once iff no two threads were ever both between their second load and their store of it |
| `CardRaces.LoggedTwice` | src/cpu/aarch64/vm/c1_Runtime1_aarch64.cpp:1241-1246 | a run of two threads in which one card is logged twice |

## Left out

- `CoreMaps.Qsort`: the C library's sort is modelled by an insertion sort; the proofs use only that the result is a sorted permutation.
- `FieldReaders.ExtractIsField`: not for a field of all 32 bits, for which the source shifts a 32-bit one by 32, undefined in C++; likewise `FieldReaders.SextractIsField`.
- `FieldReaders.PickIsField`: not for fields of more than 30 bits, for which the source's mask overflows a signed int.
- `Relocation.PairThenTarget`: the debug check that the target of a lone adrp is the polling page, the card table base or the CRC table is not modelled.
- `PageReferences.PairForms`: a second word other than an add/subtract immediate or an immediate-offset load or store counts as not using the page register.
- `AddSubImm.Emit`: negating the smallest 32-bit integer, undefined in C++, is modelled as wrap-around; that argument is refused either way.
- `LoadStore.EncodesExactly`: a writeback access whose base is its own data register is constrained-unpredictable in the architecture; the decoder does not single it out.
- `CardBarrier.Barrier.PostBarrier`: one thread's stores in order (`CardRaces` has many threads); cards are never cleaned, and the memory barrier is not modelled.
- `PtrQueues.PtrQueue.Enqueue`: the queue is active and has no lock; the shared, locked queue and flushing are not modelled.
- `ThinLockSteps.StepKeepsInv`: biased locking is off, unlocking is last-in first-out, and live records lie in the owner's stack above sp.
- Weak memory order: acquire and release forms are modelled as sequentially consistent steps.
- Identity-hash installation, monitor inflation and the slow paths of locking.
- TLAB and eden allocation, header initialisation, and object sizes from class metadata.
- Logical and floating-point immediate encoders, SIMD and crypto opcodes, load/store pairs, and relocation records.
- The assembler's label lists and code-buffer growth.
- Lookups inside `read_lib_segments`, which run before the index is rebuilt.
- The statically known receiver path and `emit_profile_type`; the profile model covers the dynamic path.
- Generic arraycopy resume and the three-argument runtime call.
- File opening, ptrace and waitpid, path mapping, JNI glue, debug printing, and the BSD and Mach-O agents.
- Stack walking, the simulator glue and the smoke-test table.
