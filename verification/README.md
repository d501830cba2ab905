# Assemblers, keyword matcher and lazy strings of JavaScriptCore, in Dafny

A verification project for five pieces of JavaScriptCore that rewrite what they have already produced, or that
compile one representation into another. Each piece is modelled with the branches, constants and data structures of
its source. Code that updates state in place is a class or a method on arrays, proved against a specification function;
the theorems are about those functions.

`dafny verify dfyconfig.toml` checks everything.

## Parts

### 1. Constant pools and jumps of the ARM assembler

`PoolModel` says what `AssemblerBufferWithConstantPool<2048, 4, 4, ARMAssembler>` computes: puts, constant puts, flushes,
and the distance counters. `AssemblerBuffers` (bytes in a growing array), `ConstantPoolBuffers` (pool and mask
arrays, load offsets, counters) and `ArmAssemblers` (the list of jumps) are the classes, whose methods are proved to compute it.

`PoolLayout` relates an emitted buffer to the *instruction list* that was put: a layout gives every word a role
(instruction, barrier, padding, constant). `ItemEvents` runs the instruction list; `WordEvents` runs the words, taking barrier
branches and reading memory for PC-relative loads. `PoolSteps` and `ArmJumpModel` prove that every operation keeps the
layout, and with it the two executions equal, over every *legal run* of puts, constant puts, jumps, space
requests, flushes and links. Legal means what the callers of the assembler guarantee:

- a word put as plain code is no branch and no load relative to pc, which are what the pool layer itself creates; the
  condition of a constant load or jump is a real one, below 15;
- a flush without a barrier that has constants to write comes after an unconditional transfer;
- a jump that may become a near branch loads pc;
- only unique loads are linked, and to word offsets.

Of plain words only `bx` under the condition AL ends the flow of control. A word that writes pc in another way (a
conditional `bx`, a `mov` to pc, a load of pc from elsewhere) may be put, but both executions take it as an event and go on
behind it.

`PoolRooms` says exactly when a put flushes, and that instructions which `ensureSpace` made room for stand together;
`PoolPadding` that padding traps. `ArmPrepare` proves that the relocated copy made by `prepareExecutableCopy` sends
every linked jump to its target, and changes nothing else. `ArmLabels` says what a label denotes and exactly when it
goes on denoting it. `ArmCopyRuns` executes the copy, taken jumps and barriers followed, and proves that this is
executing the instruction list with its labels, for any outcome of the conditions and any number of steps.

### 2. Immediates and what is built from them

Encoders are proved against the architecture's decoders, in both directions: `ArmImmediates`, `ArmGenInt` and
`ArmMoveImm` against modified immediates (section A5.2.4 of the ARMv7-A/R Architecture Reference Manual, DDI 0406),
`ThumbImmediates` against ThumbExpandImm (section A6.3.2 there), `LogicalImmediates` against DecodeBitMasks (section J1.1
of the ARMv8-A Architecture Reference Manual, DDI 0487). `ArmMachine` executes the ARM words; `ArmMoveImm` and
`ArmTransfers` are about the effect of what the helpers emit, on every register content. `ArmEmissions` joins them to part 1:
what the helpers emit makes a legal run. There are two decoders of ARM words: part 1 reads words as numbers, because its
proofs are about distances, and part 2 as bit vectors, because its proofs are about fields; `ArmEmissions` relates them.

### 3. Branches

`Arm64Branches` covers the two-word conditional sites of ARM64 and any number of relinks of one. `ThumbMachine` executes
Thumb halfwords with IT blocks; `ThumbBranches` covers the choice of a branch form, all linkers, and the absolute
jump that is rewritten in place; `ThumbRanges` proves the range checks exact against the decoder. `WatchpointLabels` covers
labels near code that may be overwritten by a jump, and `JumpReplacements` what that jump writes and where it goes.

### 4. The keyword compiler

`KeywordTries` (on values) and `KeywordTrieNodes` (on heap nodes whose fields are reassigned) build, compress and
order the trie by weight, at every node and stably;
`KeywordEdges` says for which keywords all edges are short enough to be compared; `KeywordMatchers` is the emitted program,
its comparison macros, and the proof that it finds exactly the keywords.

### 5. The lazily published string buffer

`OpaqueJSStrings` is the compare-and-swap protocol of `characters()`, as atomic steps of any number of calls, and the destructor.

## What the proofs found

- **Relinking on ARM64 tests for 8 where the linker writes 2.** A long site skips with a displacement of 2 words, but relinking
  recognises an inverted test by a displacement of 8. A long site is never read back (its second word is no nop), so
  the test is inverted wrongly whenever a *short* site happens to point 8 words ahead. `RelinkRun` gives the
  outcome of every run: the site follows the original test exactly when the number of such relinks is even
  (`RelinkRunRight`); `EightFlips` is a run that goes wrong and `NoFlips` a condition that callers can check.
- **The farthest backward displacement.** The range check of the ARM64 linkers is on the displacement from the first word; the
  branch of the long form starts at the second. Exactly the displacement -2^25 passes that check and not the assertion of the
  encoder (`LinkedRight`); where assertions are off, the branch goes as far forward instead (`FarthestBack`).
- **Runs of one-entry pools.** A flush inside a constant put does not restore `m_maxDistance`. Offsets stay in range
  (`RunFlushInRange`), but constants that directly follow are flushed one by one (`StarvedRun`). A plain instruction ends
  that once fewer than 12 bytes are left, and not before (`StarvationEnds`); `StarvedRunExists` is a run that gets there.
- **A label before a flush without a barrier.** In every legal run a label leads to its instruction exactly when no such
  flush wrote constants while nothing had been put after the label; else it leads into the pool (`LabelsReach`).
  `HiddenLabel` is a run with a jump linked to such a label. In the copy exactly the other labels work
  (`CopyRunsFromLabel`, `HiddenLabelStrays`).
- **The two farthest replacements on Linux.** `replaceWithJump` on Thumb checks the range from the start of the jump, but the
  short form counts from its end, four bytes further on. Exactly the two farthest even targets behind the jump that pass that
  check are not reached (`ReplacementRuns`); everywhere else the jump goes to its target.
- **The room `ensureSpace` makes.** Whatever is asked for, instructions and constants up to that much follow one another with no
  pool in between, as long as they take less than 2048 bytes together (`PutsStandTogether`); from 2048 on that fails
  (`RoomHasLimit`).
- **`genInt` never gives up too early.** Although it searches for one clear byte and then splits greedily, it finds two
  operands whenever two exist (`FindTwoOp2s`).
- **Registers in S0.** The long form of the load and store helpers builds the offset in S0 before it reads base and index.
  `DataTransfer32` and the others say exactly when they work: unless base or index is in S0 and the offset is long. They
  also say exactly when a store of S0 stores what S0 held: only if one word is enough.
- **Edges without a comparison macro.** The macros end at eight characters. Every edge has one exactly when, of every eight
  places in a row inside a keyword, one is the end of a keyword or a place where keywords part (`FitsExactly`); so
  keywords of up to eight characters always do.

## Model

| member | source | states |
|---|---|---|
| `ArmWords.EncodedLoad` | Source/JavaScriptCore/assembler/ARMAssembler.h:849-889 | A load encoded for a pending slot has an odd offset field that names the slot; one encoded for a word of the code has an even one and reads exactly that word, also in the downward form. |
| `PoolModel.SharedOrNew` | Source/JavaScriptCore/assembler/AssemblerBufferWithConstantPool.h:285-302 | Constants share an entry exactly if both are reusable and equal; a unique constant always gets an entry of its own. |
| `PoolModel.StarvedRun` | Source/JavaScriptCore/assembler/AssemblerBufferWithConstantPool.h:279-303 | Once the distance counter is too low for another constant, a flush inside a constant put does not restore it: every constant that directly follows gets a barrier and a one-entry pool of its own, at least three words each. |
| `PoolModel.StarvationEnds` | Source/JavaScriptCore/assembler/AssemblerBufferWithConstantPool.h:173-178 | A plain instruction ends that exactly when fewer than 12 bytes are left: it flushes the pool, and the next constant starts with the full distance. Until then the state stays starved, with four bytes less. |
| `ArmJumpModel.StarvedRunExists` | Source/JavaScriptCore/assembler/AssemblerBufferWithConstantPool.h:279-321 | A legal run of a constant, 508 instructions and another constant gets there. |
| `PoolLayout.ExecutesItems` | Source/JavaScriptCore/assembler/AssemblerBufferWithConstantPool.h:226-259 | In any laid-out buffer with an empty pool, executing from the word of an instruction gives exactly the events of the instruction list from there on; the words visited are those of these instructions, in order, and barriers, so no constant and no padding is executed. |
| `PoolSteps.PutKeepsInv` | Source/JavaScriptCore/assembler/AssemblerBufferWithConstantPool.h:173-178 | A checked put of an instruction word keeps the layout, reachability, pending-load and distance invariants. |
| `PoolSteps.LoadKeepsInv` | Source/JavaScriptCore/assembler/AssemblerBufferWithConstantPool.h:279-303 | Appending a load with its constant keeps them, and the load is bound to a slot that holds its constant, shared only if reusable. |
| `PoolSteps.FlushInRange` | Source/JavaScriptCore/assembler/AssemblerBufferWithConstantPool.h:252-255 | At a flush every pending load is within reach: the offset patched into it fits 12 bits, the pool has at most 511 entries and starts at an 8-byte boundary. |
| `PoolSteps.FlushedLoad` | Source/JavaScriptCore/assembler/ARMAssembler.cpp:37-50 | A patched load reads exactly the pool word of its slot, including the word right behind it, which needs the downward form. |
| `PoolSteps.FlushKeepsInv` | Source/JavaScriptCore/assembler/AssemblerBufferWithConstantPool.h:226-259 | A flush, with or without barrier, keeps every instruction executable with its own constant; without a barrier this needs an unconditional transfer before it. |
| `PoolSteps.FlushKeepsUnique` | Source/JavaScriptCore/assembler/AssemblerBufferWithConstantPool.h:226-259 | Constants that were put as unique still belong to one load each after a flush. |
| `ArmJumpModel.LinkWrites` | Source/JavaScriptCore/assembler/ARMAssembler.h:935-940 | Linking writes the very slot that the jump will read, in the pool if it is pending and in the code if it was flushed. |
| `ArmJumpModel.LinkKeepsItem` | Source/JavaScriptCore/assembler/ARMAssembler.h:935-940 | No other load changes its constant by a link. |
| `ArmJumpModel.LinkKeepsInv` | Source/JavaScriptCore/assembler/ARMAssembler.h:935-940 | Linking a unique load keeps all invariants, with that one constant replaced. |
| `ArmJumpModel.StepKeepsOk` | Source/JavaScriptCore/assembler/ARMAssembler.h:819-825 | Every operation of a legal run (put, load, jump, make room, flush, link) keeps the invariant. |
| `ArmJumpModel.RunIsOk` | Source/JavaScriptCore/assembler/AssemblerBufferWithConstantPool.h:226-321 | So it holds, with the layout of the very instruction list that was put, after every legal run. |
| `ArmJumpModel.RunExecutes` | Source/JavaScriptCore/assembler/AssemblerBufferWithConstantPool.h:226-303 | For every legal run whose pool is flushed, executing the words emitted performs exactly the abstract instruction list, each load with the constant it was given or last linked to, from the start and from every instruction; the words visited are those of the instructions, in order, and barriers. |
| `ArmJumpModel.RunFlushInRange` | Source/JavaScriptCore/assembler/AssemblerBufferWithConstantPool.h:305-321 | In every reachable state with a pool, the distance counter is at most 2048 less the bytes since the first pending load; so any flush then finds at most 511 constants, an 8-byte boundary, and offsets that fit 12 bits. |
| `PoolRooms.PutsStandTogether` | Source/JavaScriptCore/assembler/AssemblerBufferWithConstantPool.h:124-128 | After any legal run and a request for n bytes of instructions and m of constants, any words, loads and jumps of no more than that, below 2048 bytes together, stand on consecutive words: no barrier, padding or pool comes between them. |
| `PoolRooms.WordsStandTogether` | Source/JavaScriptCore/assembler/AssemblerBufferWithConstantPool.h:118-122 | The same for a request for instructions alone, of any size. |
| `PoolRooms.RoomHasLimit` | Source/JavaScriptCore/assembler/AssemblerBufferWithConstantPool.h:314-321 | The bound is the size of a pool: a request for 2048 bytes does not keep a load and 510 words together. |
| `PoolRooms.RunIsCounted` | Source/JavaScriptCore/assembler/AssemblerBufferWithConstantPool.h:262-276 | In every state of every run the distance counter is exactly 2048 less the bytes since the first pending load, or the pool began with less than 20 bytes left. |
| `PoolRooms.WordFlushesExactly` | Source/JavaScriptCore/assembler/AssemblerBufferWithConstantPool.h:305-312 | With an exact counter a word flushes the pool if and only if 2040 bytes or more have been put from the first pending load on. |
| `PoolRooms.LoadFlushesExactly` | Source/JavaScriptCore/assembler/AssemblerBufferWithConstantPool.h:314-321 | A load with a constant goes to the end of the code without a flush if and only if these bytes and the delta of the last constant are less than 2036 together, and an entry is left. |
| `PoolRooms.SpaceFlushesExactly` | Source/JavaScriptCore/assembler/AssemblerBufferWithConstantPool.h:305-321 | A request flushes if and only if what it asks for, with the barrier and one word, would go past the end of the distance, or its constants past the end of the pool. |
| `PoolRooms.FlushesBareExactly` | Source/JavaScriptCore/assembler/AssemblerBufferWithConstantPool.h:209-214 | An unforced flush without a barrier writes the pool from 308 entries on. |
| `PoolPadding.RunPadsTrap` | Source/JavaScriptCore/assembler/ARMAssembler.h:275 | In every legal run every word of padding in front of a pool is a breakpoint, whatever is put, linked or flushed later. |
| `ArmPrepare.ConditionalBranchFields` | Source/JavaScriptCore/assembler/ARMAssembler.cpp:412-413 | The word written for a near jump is a branch without link that keeps the condition and goes by the difference computed. |
| `ArmPrepare.RangeIsExact` | Source/JavaScriptCore/assembler/ARMAssembler.cpp:405-413 | The two bounds of the range check are those of the field: some branch at that word reaches the target if and only if the check passes. |
| `ArmPrepare.PreparedElsewhere` | Source/JavaScriptCore/assembler/ARMAssembler.cpp:405-420 | The rewriting rounds leave every word alone that is neither a recorded jump nor its slot. |
| `ArmPrepare.PreparedJump` | Source/JavaScriptCore/assembler/ARMAssembler.cpp:405-420 | Each recorded jump is rewritten once, whatever the other rounds do before and after. |
| `ArmPrepare.JumpRecorded` | Source/JavaScriptCore/assembler/ARMAssembler.h:819-825 | The offset recorded for a jump is that of its load, because room is made before it is taken. |
| `ArmPrepare.StepKeepsRecords` | Source/JavaScriptCore/assembler/ARMAssembler.h:819-825 | No later operation, flush or link makes a recorded offset stale. |
| `ArmPrepare.RunRecords` | Source/JavaScriptCore/assembler/ARMAssembler.h:819-829 | Over every legal run the recorded offsets are those of the jumps, each with its own slot and pool flag. |
| `ArmPrepare.PreparedJumpReaches` | Source/JavaScriptCore/assembler/ARMAssembler.cpp:405-420 | A linked jump puts its target in the copy into its register, under its own condition. It has become a direct branch exactly if it was not asked to stay in the pool and the target is near enough, and is else the load it was; unlinked, its slot keeps the mark. |
| `ArmPrepare.PreparedItemUnchanged` | Source/JavaScriptCore/assembler/ARMAssembler.cpp:405-420 | All other instructions and constants are the same in the copy. |
| `ArmPrepare.PreparedElseKept` | Source/JavaScriptCore/assembler/ARMAssembler.cpp:405-420 | Barriers and padding are the same in the copy. |
| `ArmPrepare.CopyIsExecutable` | Source/JavaScriptCore/assembler/ARMAssembler.cpp:394-421 | After the forced flush and alignment, for every legal run with no constant waiting or an unconditional transfer at its end: every jump of the relocated copy reaches where it was linked to under its original condition, rewritten exactly when it may be; unlinked slots keep InvalidBranchTarget; all other instructions with their constants, all barriers and all padding are unchanged. |
| `ArmLabels.StepKeepsReaches` | Source/JavaScriptCore/assembler/AssemblerBufferWithConstantPool.h:226-321 | No operation, except a flush without a barrier at that very place, makes a place that leads to an instruction lead elsewhere. |
| `ArmLabels.LabelsReach` | Source/JavaScriptCore/assembler/ARMAssembler.h:784-788 | In every legal run a label leads to the instruction put next after it, at its word or at a barrier that jumps there, if and only if no flush without a barrier wrote constants while the label was the last thing; a label that such a flush has hidden leads into padding or constants, and goes on doing so. |
| `ArmLabels.HiddenLabel` | Source/JavaScriptCore/assembler/AssemblerBufferWithConstantPool.h:209-214 | There is such a run: a jump, a label that the jump is linked to, and a flush. |
| `ArmLabels.PutLandsOnLabel` | Source/JavaScriptCore/assembler/ARMAssembler.h:784-788 | An instruction, load or jump put right after a label starts exactly there, because the label made room for any instruction. |
| `ArmCopyRuns.Simulates` | Source/JavaScriptCore/assembler/ARMAssembler.cpp:394-421 | For any number of instructions there is a number of words, at most twice as many, that does the same from corresponding control. |
| `ArmCopyRuns.FinishedIsCopy` | Source/JavaScriptCore/assembler/ARMAssembler.cpp:394-421 | Each word of the copy does what its instruction does and takes control where the instruction takes it, whatever its condition. |
| `ArmCopyRuns.CopyRuns` | Source/JavaScriptCore/assembler/ARMAssembler.cpp:394-421 | For every legal run with no constant waiting or an unconditional transfer at its end, every place the copy is moved to, any number of instructions and any outcome of the conditions: executing the copy with taken jumps and barriers followed does what executing the instruction list with labels as targets does, the same events in the same order at the words of the same instructions, and no constant or padding is executed. A jump to a label that a flush has hidden leaves the program. |
| `ArmCopyRuns.CopyRunsFromLabel` | Source/JavaScriptCore/assembler/ARMAssembler.cpp:394-421 | The same from the address of any label that no flush has hidden. |
| `ArmCopyRuns.HiddenLabelStrays` | Source/JavaScriptCore/assembler/ARMAssembler.cpp:394-421 | From the address of any other label of the run a constant or padding is executed. |
| `AssemblerBuffers.WordRoundTrip` | Source/JavaScriptCore/assembler/AssemblerBuffer.h:167-176 | Storing a word as bytes and reading it back gives the word. |
| `AssemblerBuffers.WordsAppendAll` | Source/JavaScriptCore/assembler/AssemblerBuffer.h:186-193 | Appending the bytes of some words appends those words. |
| `AssemblerBuffers.AssemblerBuffer.Grow` | Source/JavaScriptCore/assembler/AssemblerBuffer.h:102-106 | Growing keeps the contents and makes room for at least what was asked for. |
| `AssemblerBuffers.AssemblerBuffer.EnsureSpace` | Source/JavaScriptCore/assembler/AssemblerBuffer.h:127-131 | Growing once by half is enough for any space up to half the initial capacity, and loses nothing. |
| `AssemblerBuffers.AssemblerBuffer.PutInt` | Source/JavaScriptCore/assembler/AssemblerBuffer.h:167-176 | The contents become the old contents and the four bytes of the word, whether or not the storage had to grow. |
| `AssemblerBuffers.AssemblerBuffer.PutByte` | Source/JavaScriptCore/assembler/AssemblerBuffer.h:139 | The same for a single byte. |
| `AssemblerBuffers.AssemblerBuffer.Append` | Source/JavaScriptCore/assembler/AssemblerBuffer.h:186-193 | The contents become the old contents followed by the given bytes. |
| `ConstantPoolBuffers.ConstantPoolBuffer.FlushConstantPool` | Source/JavaScriptCore/assembler/AssemblerBufferWithConstantPool.h:226-259 | The arrays, counters and bytes after a flush are those of the specified flush: barrier, padding, constants, and every pending load patched in place. |
| `ConstantPoolBuffers.ConstantPoolBuffer.PatchLoadsAt` | Source/JavaScriptCore/assembler/AssemblerBufferWithConstantPool.h:252-255 | After the loop exactly the recorded loads are resolved against the pool; every other word is as before. |
| `ConstantPoolBuffers.ConstantPoolBuffer.WriteSlot` | Source/JavaScriptCore/assembler/ARMAssembler.h:872-873 | Writing a pending slot replaces that constant and leaves counters, loads and code alone. |
| `ConstantPoolBuffers.ConstantPoolBuffer.FlushWithoutBarrier` | Source/JavaScriptCore/assembler/AssemblerBufferWithConstantPool.h:209-214 | Flushes exactly if forced or more than three fifths full. |
| `ConstantPoolBuffers.ConstantPoolBuffer.FlushIfNoSpaceFor` | Source/JavaScriptCore/assembler/AssemblerBufferWithConstantPool.h:305-312 | Flushes exactly when the next instruction, barrier and pool start might be out of reach. |
| `ConstantPoolBuffers.ConstantPoolBuffer.FlushIfNoSpaceForBoth` | Source/JavaScriptCore/assembler/AssemblerBufferWithConstantPool.h:314-321 | The same for an instruction with a constant, or when the pool would be full; `PoolRooms.PutsStandTogether` and `SpaceFlushesExactly` say what that is good for. |
| `ConstantPoolBuffers.ConstantPoolBuffer.CorrectDeltas` | Source/JavaScriptCore/assembler/AssemblerBufferWithConstantPool.h:262-268 | Both counters go down by the size put; the last-constant delta stops at zero. |
| `ConstantPoolBuffers.ConstantPoolBuffer.CorrectDeltasWithConst` | Source/JavaScriptCore/assembler/AssemblerBufferWithConstantPool.h:270-276 | The distance also pays for the last constant, and the new constant becomes the last. |
| `ConstantPoolBuffers.ConstantPoolBuffer.FindSlot` | Source/JavaScriptCore/assembler/AssemblerBufferWithConstantPool.h:286-294 | The search finds the first entry that is reusable and holds the constant, or says that a new one is needed. |
| `ConstantPoolBuffers.ConstantPoolBuffer.PutInt` | Source/JavaScriptCore/assembler/AssemblerBufferWithConstantPool.h:173-178 | The state after a checked put is the specified one. |
| `ConstantPoolBuffers.ConstantPoolBuffer.PutIntWithConstantInt` | Source/JavaScriptCore/assembler/AssemblerBufferWithConstantPool.h:279-303 | The state after a put with a constant is the specified one: counter reset on an empty pool, possible flush, reuse of an equal reusable entry, or a new entry. |
| `ConstantPoolBuffers.PatchedOneMore` | Source/JavaScriptCore/assembler/AssemblerBufferWithConstantPool.h:252-255 | The loop over pending loads patches one more word and no other. |
| `ArmAssemblers.ArmAssembler.LoadBranchTarget` | Source/JavaScriptCore/assembler/ARMAssembler.h:819-825 | Room is made, the offset recorded and a unique load of InvalidBranchTarget appended, in that order. |
| `ArmAssemblers.ArmAssembler.LinkJump` | Source/JavaScriptCore/assembler/ARMAssembler.h:867-875 | Writes the slot in the pool for an odd offset field and the word in the code for an even one. |
| `ArmAssemblers.LinkJumpLinksItsItem` | Source/JavaScriptCore/assembler/ARMAssembler.h:935-940 | In every reachable state this is the link step of the item the label belongs to. |
| `ArmAssemblers.ArmAssembler.PrepareExecutableCopy` | Source/JavaScriptCore/assembler/ARMAssembler.cpp:394-421 | The code after the call is that of the specified flush, alignment and rewriting rounds. |
| `ArmAssemblers.ArmAssembler.RewriteJumps` | Source/JavaScriptCore/assembler/ARMAssembler.cpp:404-420 | The loop over the recorded jumps writes the code that the rewriting rounds specify, in order. |
| `ArmMachine.DecodeDataImmediate` | Source/JavaScriptCore/assembler/ARMAssembler.h:293-297 | A data-processing word decodes to its opcode, registers and modified immediate. |
| `ArmMachine.DecodeDataRegister` | Source/JavaScriptCore/assembler/ARMAssembler.h:293-297 | A data-processing word with a shifted register decodes to that register and shift. |
| `ArmMachine.DecodeTransfer` | Source/JavaScriptCore/assembler/ARMAssembler.h:559-577 | A word or byte transfer decodes to its kind, registers, direction and 12-bit offset. |
| `ArmMachine.DecodeHalf` | Source/JavaScriptCore/assembler/ARMAssembler.h:579-597 | A halfword transfer decodes to its split 8-bit offset. |
| `ArmMachine.DecodeFloat` | Source/JavaScriptCore/assembler/ARMAssembler.h:599-611 | A floating-point transfer decodes to four times its 8-bit field. |
| `ArmImmediates.GetOp2` | Source/JavaScriptCore/assembler/ARMAssembler.cpp:54-89 | Returns an operand that expands to the value exactly when the value is an 8-bit constant rotated right by an even amount, and InvalidImmediate otherwise; the two are never confused. |
| `ArmImmediates.TopByteOp2` | Source/JavaScriptCore/assembler/ARMAssembler.cpp:85-86 | The byte shifted to the top, with the rotation counted so far, expands to the original value. |
| `ArmGenInt.FindClearByte` | Source/JavaScriptCore/assembler/ARMAssembler.cpp:93-129 | Step 1 finds a rotation of the value whose low byte is clear, and reports failure only if all sixteen windows of eight bits at even places have a bit set. |
| `ArmGenInt.SplitBytes` | Source/JavaScriptCore/assembler/ARMAssembler.cpp:131-187 | Step 2 splits the rotated value into two operands that together give the value, and fails only if no two windows cover it. |
| `ArmGenInt.NeverASum` | Source/JavaScriptCore/assembler/ARMAssembler.cpp:154-187 | A value that step 2 gives up on is the union of no two modified immediates. |
| `ArmGenInt.FindTwoOp2s` | Source/JavaScriptCore/assembler/ARMAssembler.cpp:91-187 | Together: two operands are found exactly when the value is the union of two modified immediates. |
| `ArmGenInt.SumHasClearByte` | Source/JavaScriptCore/assembler/ARMAssembler.cpp:99-127 | A union of two modified immediates always leaves some window clear, so step 1 never misses one. |
| `ArmMoveImm.GenInt` | Source/JavaScriptCore/assembler/ARMAssembler.cpp:189-197 | mov and orr leave the value, mvn and bic its complement, exactly when there are two operands. |
| `ArmMoveImm.MovOrrPuts` | Source/JavaScriptCore/assembler/ARMAssembler.cpp:189-191 | mov and orr of two operands leave the union of their values and change no other register. |
| `ArmMoveImm.MvnBicPuts` | Source/JavaScriptCore/assembler/ARMAssembler.cpp:192-195 | mvn and bic of two operands leave the complement of that union. |
| `ArmMoveImm.GetImm16Op2` | Source/JavaScriptCore/assembler/ARMAssembler.h:1065-1070 | A field for movw and movt exactly for 16-bit values, and the field stands for the value. |
| `ArmMoveImm.MovwMovtPuts` | Source/JavaScriptCore/assembler/ARMAssembler.cpp:248-250 | movw of the low half and movt of the high half leave the whole word. |
| `ArmMoveImm.EncodeComplexImm` | Source/JavaScriptCore/assembler/ARMAssembler.cpp:240-261 | The value ends up in the register; the constant pool is used only before ARMv7 and only if neither the value nor its complement is a union of two modified immediates, and then nothing emitted is movw or movt. Every word is one that the decoder knows, so what is emitted can be put into any run. |
| `ArmMoveImm.MoveImm` | Source/JavaScriptCore/assembler/ARMAssembler.cpp:220-238 | For every 32-bit value and every path (mov, mvn, movw, movw and movt, mov and orr, mvn and bic, pool load), executing what is emitted leaves exactly the value in the destination and changes nothing else; the pool is used, and one word is enough, exactly in the cases stated. The pool load is tied to the pool by `ArmEmissions.EmittedRun`. |
| `ArmMoveImm.GetImm` | Source/JavaScriptCore/assembler/ARMAssembler.cpp:200-218 | The operand returned stands for the value after the emitted words: an immediate or, only on request and only if the value itself is none, an inverted immediate, exactly when no word is emitted; else the scratch register. The pool is used exactly in the cases stated. |
| `ArmEmissions.EmittedRun` | Source/JavaScriptCore/assembler/ARMAssembler.h:293-297 | Whatever a helper emits, put after any legal run, keeps it legal and appends just those instructions, the pool load as a load of its constant. |
| `ArmEmissions.PutsStay` | Source/JavaScriptCore/assembler/AssemblerBufferWithConstantPool.h:279-303 | Whatever is put, flushed or linked later, these instructions are still there, shared constants with their values. |
| `ArmEmissions.ItemExecutes` | Source/JavaScriptCore/assembler/AssemblerBufferWithConstantPool.h:226-303 | And once the pool is flushed its word does it: a pool load loads its constant. |
| `ArmTransfers.Split` | Source/JavaScriptCore/assembler/ARMAssembler.cpp:269-282 | An address formed in S0 from the high part, and the low part as offset, give base plus offset modulo 2^32. |
| `ArmTransfers.DataTransfer32` | Source/JavaScriptCore/assembler/ARMAssembler.cpp:265-288 | For every 32-bit offset there is exactly one access, of the right kind and register, at base + offset, and only S0 changes: if and only if the base is not S0 or the offset has a magnitude of at most 20 bits. The access sees what the source register held if and only if that is not S0 or the offset has at most 12 bits. Offsets of 12 bits take one word, those of 20 bits at most two. |
| `ArmTransfers.LongOverScratch` | Source/JavaScriptCore/assembler/ARMAssembler.cpp:273-276 | The long form with a base in S0 accesses twice the offset whatever S0 held, so it does not access base + offset. |
| `ArmTransfers.IndexLongOverScratch` | Source/JavaScriptCore/assembler/ARMAssembler.cpp:306-308 | With the base or the index in S0 the long form accesses an address that does not depend on what S0 held, so it is not the one asked for. |
| `ArmTransfers.LongFloatOverScratch` | Source/JavaScriptCore/assembler/ARMAssembler.cpp:383-385 | The same for floating-point transfers with a base in S0. |
| `ArmTransfers.BaseIndexTransfer32` | Source/JavaScriptCore/assembler/ARMAssembler.cpp:290-309 | The same for base + (index << scale) + offset, also when it nests the split form with S0 as base: if and only if neither base nor index is S0, or the offset is short. The source is seen as it was if and only if it is not S0 or there is no offset. |
| `ArmTransfers.DataTransfer16` | Source/JavaScriptCore/assembler/ARMAssembler.cpp:311-334 | The same for halfwords and signed bytes, with 8-bit and 16-bit offsets, and with 8 bits for the source. |
| `ArmTransfers.BaseIndexTransfer16` | Source/JavaScriptCore/assembler/ARMAssembler.cpp:336-354 | The same with an index: if and only if neither base nor index is S0, or the offset is short. The source is seen as it was if and only if it is not S0 or there is neither offset nor scale. |
| `ArmTransfers.DataTransferFloat` | Source/JavaScriptCore/assembler/ARMAssembler.cpp:356-386 | The same for floating-point registers: if and only if the base is not S0, or the offset is a multiple of four of at most 18 bits; any other offset, -0x80000000 among them, takes the long form. |
| `ArmTransfers.BaseIndexTransferFloat` | Source/JavaScriptCore/assembler/ARMAssembler.cpp:388-392 | The same with an index; S0 and S1 may change. |
| `LogicalImmediates.HighestSetBit` | Source/JavaScriptCore/assembler/ARM64Assembler.h:260-284 | The binary search returns the number of the highest set bit of every non-zero word. |
| `LogicalImmediates.PartialHSB` | Source/JavaScriptCore/assembler/ARM64Assembler.h:260-267 | One step of the search halves the width in which the highest bit can be, and counts what it shifted out. |
| `LogicalImmediates.FindBitRange` | Source/JavaScriptCore/assembler/ARM64Assembler.h:297-331 | Finds the range whenever the value is one run of set bits, or of clear ones, within the width; failure means at least four runs. |
| `LogicalImmediates.EncodedDecodes` | Source/JavaScriptCore/assembler/ARM64Assembler.h:334-378 | The fields encoded for a range decode, under DecodeBitMasks, to a word with exactly that range. |
| `LogicalImmediates.NarrowerEncodes` | Source/JavaScriptCore/assembler/ARM64Assembler.h:179-207 | A value with an encoding but no range at its full width repeats, and its lower half has that encoding: the cascade loses nothing. |
| `LogicalImmediates.WiderDecodes` | Source/JavaScriptCore/assembler/ARM64Assembler.h:179-207 | An encoding of the lower half of a repeating value decodes to the whole value. |
| `LogicalImmediates.Create32` | Source/JavaScriptCore/assembler/ARM64Assembler.h:165-208 | A valid result exactly when some N:immr:imms decodes to the 32-bit value, and the result is one that does. |
| `LogicalImmediates.Create64` | Source/JavaScriptCore/assembler/ARM64Assembler.h:210-226 | The same for 64 bits. |
| `ThumbImmediates.CountLeadingZeros` | Source/JavaScriptCore/assembler/ARMv7Assembler.h:257-269 | The binary search is exact for every word. |
| `ThumbImmediates.CountLeadingZerosPartial` | Source/JavaScriptCore/assembler/ARMv7Assembler.h:249-255 | One step halves the width and accounts for the zeros skipped. |
| `ThumbImmediates.ShiftEncodes` | Source/JavaScriptCore/assembler/ARMv7Assembler.h:307-322 | A value whose bits below the leading eight are clear gets an encoding whose rotation gives the value back. |
| `ThumbImmediates.PatternComplete` | Source/JavaScriptCore/assembler/ARMv7Assembler.h:324-343 | Every value that a byte pattern can produce is recognised by its bytes. |
| `ThumbImmediates.MakeEncodedImm` | Source/JavaScriptCore/assembler/ARMv7Assembler.h:295-346 | An encoding exactly when ThumbExpandImm can produce the value; it expands back to the value, so it is never unpredictable. |
| `ThumbImmediates.MakeUInt12OrEncodedImm` | Source/JavaScriptCore/assembler/ARMv7Assembler.h:355-361 | A plain 12-bit number when it is one, else an encoding, else nothing, exactly. |
| `Arm64Branches.DisassembleEncoded` | Source/JavaScriptCore/assembler/ARM64Assembler.h:3215-3244 | What the encoders of conditional, compare and test branches write is read back by the disassemblers, test and displacement. |
| `Arm64Branches.InvertedFails` | Source/JavaScriptCore/assembler/ARM64Assembler.h:521-524 | The inverted test passes exactly when the test fails, for conditions below AL. |
| `Arm64Branches.LinkedExit` | Source/JavaScriptCore/assembler/ARM64Assembler.h:3046-3108 | A two-word site linked to a target in range is left for the target exactly when its test passes, and otherwise past both words, in the short and in the long form. |
| `Arm64Branches.LinkedRight` | Source/JavaScriptCore/assembler/ARM64Assembler.h:3070-3085 | Of the displacements that pass the check of the linker, exactly those that pass the check of the encoder as well are linked right: all but the farthest backward one (-2^25 words). |
| `Arm64Branches.NearIsExact` | Source/JavaScriptCore/assembler/ARM64Assembler.h:3070-3085 | The short form of a test is chosen if and only if some word with this test reaches the displacement. |
| `Arm64Branches.FitsIsExact` | Source/JavaScriptCore/assembler/ARM64Assembler.h:3588-3592 | The assertion of the encoder passes if and only if some unconditional branch reaches the displacement. |
| `Arm64Branches.FarthestBack` | Source/JavaScriptCore/assembler/ARM64Assembler.h:3588-3592 | That one passes the check of the linker and fails that of the encoder; where assertions are off the branch goes as far forward instead. |
| `Arm64Branches.RelinkStep` | Source/JavaScriptCore/assembler/ARM64Assembler.h:3110-3157 | A relink rewrites the words of a site as the abstract step says: a long site stays long, a short one with displacement 8 is inverted. |
| `Arm64Branches.RelinkPlain` | Source/JavaScriptCore/assembler/ARM64Assembler.h:3110-3157 | Relinking a jump that is no part of a short site, whether a nop, an unrelated test or any other word stands in front: that word stays, and control that gets past it goes to the target. |
| `Arm64Branches.RelinkRun` | Source/JavaScriptCore/assembler/ARM64Assembler.h:3110-3157 | After any run of relinks control reaches the latest target exactly when the original test agrees with the parity of relinks that met a short displacement of 8. |
| `Arm64Branches.RelinkRunRight` | Source/JavaScriptCore/assembler/ARM64Assembler.h:3113-3153 | So a site is right exactly when that number is even, or the target is the word behind the site. |
| `Arm64Branches.EightFlips` | Source/JavaScriptCore/assembler/ARM64Assembler.h:3123-3126 | After linking to 8 and relinking to 100, control reaches the target exactly when the test fails. |
| `Arm64Branches.NoFlips` | Source/JavaScriptCore/assembler/ARM64Assembler.h:3123-3126 | Without an intermediate displacement of 8, every run leaves the site right. |
| `Arm64Branches.LinkTest` | Source/JavaScriptCore/assembler/ARM64Assembler.h:3046-3108 | Writes exactly these words in place, one in the direct form and two otherwise. |
| `Arm64Branches.LinkJumpOrCall` | Source/JavaScriptCore/assembler/ARM64Assembler.h:3029-3044 | The word becomes an unconditional branch that is read back with its target and its link bit, for every displacement the encoder accepts; no other word changes. |
| `Arm64Branches.RelinkJumpOrCall` | Source/JavaScriptCore/assembler/ARM64Assembler.h:3110-3157 | Relinks in place, given the second word of a site, a plain jump or a call: both words of a site become the words specified; where no test stands in front, or for a call, only the word given changes, and it branches to the target with the right link bit. |
| `ThumbBranches.DecodeT1` | Source/JavaScriptCore/assembler/ARMv7Assembler.h:2576-2592 | The halfword written decodes to a conditional branch by the encoded distance, which is 2 less than the real one. |
| `ThumbBranches.DecodeT2` | Source/JavaScriptCore/assembler/ARMv7Assembler.h:2594-2610 | The halfword written decodes to an unconditional branch by 2 less than the real distance. |
| `ThumbBranches.DecodeT3` | Source/JavaScriptCore/assembler/ARMv7Assembler.h:2612-2625 | The two halfwords decode to a conditional branch over the whole 21-bit range. |
| `ThumbBranches.DecodeT4` | Source/JavaScriptCore/assembler/ARMv7Assembler.h:2627-2643 | The two halfwords decode to a branch over the whole 25-bit range: flipping two bits for forward branches is what the sign-dependent J bits need. |
| `ThumbRanges.RangeT1` | Source/JavaScriptCore/assembler/ARMv7Assembler.h:2533-2544 | The range check passes for an even distance if and only if some halfword decodes to a conditional branch that far. |
| `ThumbRanges.RangeT2` | Source/JavaScriptCore/assembler/ARMv7Assembler.h:2546-2557 | The same for the unconditional halfword. |
| `ThumbRanges.RangeT3` | Source/JavaScriptCore/assembler/ARMv7Assembler.h:2559-2566 | The same for the conditional branch of two halfwords. |
| `ThumbRanges.RangeT4` | Source/JavaScriptCore/assembler/ARMv7Assembler.h:2568-2575 | The same for the unconditional branch of two halfwords. |
| `ThumbRanges.FarT4` | Source/JavaScriptCore/assembler/ARMv7Assembler.h:2627-2643 | Out of that range what is written goes elsewhere. |
| `ThumbBranches.RunLong` | Source/JavaScriptCore/assembler/ARMv7Assembler.h:2655-2679 | Executing the long sequence reaches the target in Thumb state, also predicated by a block of three. |
| `ThumbBranches.RunConditionalT4` | Source/JavaScriptCore/assembler/ARMv7Assembler.h:2645-2653 | The branch behind a one-instruction block is taken exactly under the condition. |
| `ThumbBranches.RunConditionalLong` | Source/JavaScriptCore/assembler/ARMv7Assembler.h:2671-2679 | The three instructions of the long sequence behind a block of three transfer exactly under the condition. |
| `ThumbBranches.LinkedRuns` | Source/JavaScriptCore/assembler/ARMv7Assembler.h:2576-2679 | Whatever form is linked within its range, executing it reaches the target: a conditional form exactly under the condition, an unconditional one whatever condition it is given, ConditionInvalid (15) included. |
| `ThumbBranches.ChosenCanLink` | Source/JavaScriptCore/assembler/ARMv7Assembler.h:2070-2112 | The form chosen passes its linker's range check where the shortened jump ends, and is conditional exactly for conditional jumps. |
| `ThumbBranches.ChosenIsShortest` | Source/JavaScriptCore/assembler/ARMv7Assembler.h:2061-2112 | For a jump that may be compacted, no shorter form of its kind would have passed its range check; a jump of fixed size gets the longest form. |
| `ThumbBranches.SpaceIsLongest` | Source/JavaScriptCore/assembler/ARMv7Assembler.h:480-500 | The space left for a jump is that of the halfwords of the longest form of its kind, which any target can be linked with and which jumps of fixed size get. |
| `ThumbBranches.ComputedJumpRuns` | Source/JavaScriptCore/assembler/ARMv7Assembler.h:2052-2155 | For every jump with a form: the form chosen links, is no longer than the space left, and executing what is written reaches the target, for a conditional jump exactly under its condition and for an unconditional one whatever condition is recorded. |
| `ThumbBranches.ThreeConditions` | Source/JavaScriptCore/assembler/ARMv7Assembler.h:782-789 | The mask of a then-then block repeats the condition for all three instructions. |
| `ThumbBranches.AbsoluteIsSite` | Source/JavaScriptCore/assembler/ARMv7Assembler.h:2681-2710 | Either rewriting leaves one of the two shapes that the next relink accepts. |
| `ThumbRanges.SiteDecodes` | Source/JavaScriptCore/assembler/ARMv7Assembler.h:2681-2710 | A site is accepted for relinking if and only if it decodes to the two moves and a branch to a register, or to two nops and a branch. |
| `ThumbBranches.AbsoluteRuns` | Source/JavaScriptCore/assembler/ARMv7Assembler.h:2681-2710 | Either rewriting reaches the target, on its own and under an enclosing block of three. |
| `ThumbBranches.RelinkAllRuns` | Source/JavaScriptCore/assembler/ARMv7Assembler.h:2681-2710 | After any run of relinks, execution reaches the latest target. |
| `ThumbBranches.SetThenRead` | Source/JavaScriptCore/assembler/ARMv7Assembler.h:2447-2478 | Reading a set 32-bit constant gives it back, and both moves keep their registers. |
| `ThumbBranches.SetThenRun` | Source/JavaScriptCore/assembler/ARMv7Assembler.h:2447-2461 | Executing the two moves with the scratch register in both leaves the constant in it. |
| `ThumbBranches.Link` | Source/JavaScriptCore/assembler/ARMv7Assembler.h:2127-2155 | The halfwords just before the end of the jump, executed, reach the target, for a conditional form exactly under the condition and whatever the scratch register holds; nothing else is written. |
| `ThumbBranches.LinkJumpAbsolute` | Source/JavaScriptCore/assembler/ARMv7Assembler.h:2681-2710 | Rewrites the five halfwords in place, from a recognised shape to a recognised shape. |
| `KeywordTries.InsertUpdates` | Source/JavaScriptCore/KeywordLookupGenerator.py:103-109 | Insertion is update of a finite map from strings to tokens. |
| `KeywordTries.InsertKeepsPlain` | Source/JavaScriptCore/KeywordLookupGenerator.py:103-109 | Insertion keeps edges of one character and siblings with distinct first characters. |
| `KeywordTries.InsertKeepsOrder` | Source/JavaScriptCore/KeywordLookupGenerator.py:103-109 | A new sibling comes last, as in a dictionary, and no other changes its place. |
| `KeywordTries.CoalesceKeepsFind` | Source/JavaScriptCore/KeywordLookupGenerator.py:111-126 | Path compression below an edge does not change what is found through it. |
| `KeywordTries.CoalesceKeepsTrie` | Source/JavaScriptCore/KeywordLookupGenerator.py:111-126 | A joined edge still starts with the character of the upper edge, so siblings still differ in their first characters. |
| `KeywordTries.RootCoalesceKeepsFind` | Source/JavaScriptCore/KeywordLookupGenerator.py:111-126 | Compressing all but the root keeps the map and the shape. |
| `KeywordTries.CoalesceCompresses` | Source/JavaScriptCore/KeywordLookupGenerator.py:111-126 | Afterwards no node below the root lacks a token and has a single child. |
| `KeywordTries.CoalesceKeepsOrder` | Source/JavaScriptCore/KeywordLookupGenerator.py:111-126 | Siblings stay in their order. |
| `KeywordTries.ReorderKeepsFind` | Source/JavaScriptCore/KeywordLookupGenerator.py:134-137 | Any order of siblings, at every level, keeps the map. |
| `KeywordTries.ReorderKeepsCompressed` | Source/JavaScriptCore/KeywordLookupGenerator.py:134-137 | Nor does reordering undo the compression. |
| `KeywordTries.FillOutReorders` | Source/JavaScriptCore/KeywordLookupGenerator.py:128-138 | The order by weight is such an order, and at every node of the trie the siblings stand heaviest first. |
| `KeywordTries.FillOutStable` | Source/JavaScriptCore/KeywordLookupGenerator.py:134-137 | At every node siblings of the same weight stand in the order they had. |
| `KeywordTries.WeightIsSum` | Source/JavaScriptCore/KeywordLookupGenerator.py:128-138 | The weight of a node is the sum, over the table of weights, of those texts that are the text of a node at or below it: nothing with an empty table, and each further entry adds its weight exactly if there is such a node. |
| `KeywordTries.BuildTrie` | Source/JavaScriptCore/KeywordLookupGenerator.py:214-219 | Inserting all keywords, compressing and ordering gives a trie whose map is that of the list, the last token of a repeated keyword winning, compressed below the root and ordered by weight at every node. |
| `KeywordTrieNodes.Node.Insert` | Source/JavaScriptCore/KeywordLookupGenerator.py:103-109 | The same insertion on nodes with fields that are reassigned. |
| `KeywordTrieNodes.Node.Coalesce` | Source/JavaScriptCore/KeywordLookupGenerator.py:111-126 | The same compression on nodes; a joined node shares the children of the lower one. |
| `KeywordTrieNodes.Node.Join` | Source/JavaScriptCore/KeywordLookupGenerator.py:122-126 | The new node carries both edges, and the token and children of the lower node. |
| `KeywordTrieNodes.BuildNodes` | Source/JavaScriptCore/KeywordLookupGenerator.py:214-218 | Inserting all keywords and compressing the root in place gives the map of the list. |
| `KeywordMatchers.CompareIsEqual` | Source/JavaScriptCore/KeywordLookupGenerator.py:224-302 | Each comparison macro of one to eight characters, packed or not, overlapping or not, holds exactly when the characters are equal. |
| `KeywordMatchers.ArmTest` | Source/JavaScriptCore/KeywordLookupGenerator.py:150-168 | Widening three characters to four, with the one before them, compares the same as the edge alone. |
| `KeywordMatchers.ArmsInOrder` | Source/JavaScriptCore/KeywordLookupGenerator.py:150-168 | The comparisons are emitted in the order of the siblings. |
| `KeywordMatchers.PrintInBounds` | Source/JavaScriptCore/KeywordLookupGenerator.py:176-190 | Every read of the emitted code is below the length of the longest keyword plus one. |
| `KeywordMatchers.LookAheadIsExact` | Source/JavaScriptCore/KeywordLookupGenerator.py:176-190 | maxTokenLength is the length of the longest keyword plus one, exactly. |
| `KeywordMatchers.RunSound` | Source/JavaScriptCore/KeywordLookupGenerator.py:140-174 | A token that the matcher returns is that of a keyword at the start of the input whose next character is no identifier part. |
| `KeywordMatchers.RunComplete` | Source/JavaScriptCore/KeywordLookupGenerator.py:140-174 | Such a keyword is what the matcher returns. |
| `KeywordMatchers.MatcherFinds` | Source/JavaScriptCore/KeywordLookupGenerator.py:140-210 | On every input of at least maxTokenLength characters the parser returns a token and length exactly when that keyword is at the start and the next character is no identifier part; otherwise it says identifier. |
| `KeywordMatchers.Generate` | Source/JavaScriptCore/KeywordLookupGenerator.py:184-219 | From a keyword list to its parser: it finds exactly the keywords of the list on every input, for 8-bit and 16-bit characters and with or without four-character reads, if every edge has a comparison macro, which is so if and only if the keywords are as `KeywordEdges.FitsExactly` says. |
| `KeywordEdges.FitsExactly` | Source/JavaScriptCore/KeywordLookupGenerator.py:224-302 | Every edge of a compressed trie has at most eight characters if and only if, of every eight places in a row inside a keyword, one is the end of a keyword or a place where two keywords part. |
| `OpaqueJSStrings.StepKeepsInv` | Source/JavaScriptCore/API/OpaqueJSString.cpp:78-98 | Every atomic step of every call, and the destructor, keeps the ownership invariant, and frees only live buffers. |
| `OpaqueJSStrings.RunKeepsInv` | Source/JavaScriptCore/API/OpaqueJSString.cpp:45-98 | So does every run, from any state that meets the invariant. |
| `OpaqueJSStrings.CallersAgree` | Source/JavaScriptCore/API/OpaqueJSString.cpp:78-98 | Over any interleaving all returned calls got the same pointer: null, the string's own characters, or the published buffer, live and complete; nothing is freed twice. |
| `OpaqueJSStrings.NothingLeaks` | Source/JavaScriptCore/API/OpaqueJSString.cpp:45-56 | When all calls have returned only the published buffer is live, and after the destructor none. |
| `OpaqueJSStrings.OnlyEightBitAllocates` | Source/JavaScriptCore/API/OpaqueJSString.h:73-94 | A 16-bit or null string never allocates. |
| `OpaqueJSStrings.CallProgresses` | Source/JavaScriptCore/API/OpaqueJSString.cpp:78-98 | Every call can always take its next step and returns after at most five of its own. |
| `OpaqueJSStrings.CanFinish` | Source/JavaScriptCore/API/OpaqueJSString.cpp:45-98 | From every state of a run all calls under way can return, in at most as many steps as they have left, and the destructor then leaves nothing behind. |
| `OpaqueJSStrings.AnyoneMayCall` | Source/JavaScriptCore/API/OpaqueJSString.cpp:78-98 | On a new string any number of threads may call at once, and all of them get to their end. |
| `WatchpointLabels.RunKeepsInv` | Source/JavaScriptCore/assembler/ARM64Assembler.h:2563-2581 | Over every run of emits and labels, windows of different watchpoints are disjoint and no label lies strictly inside one. |
| `WatchpointLabels.RunIsClear` | Source/JavaScriptCore/assembler/ARMv7Assembler.h:2010-2031 | So no label lies strictly inside the bytes reserved at a watchpoint. |
| `WatchpointLabels.StepKeepsInv` | Source/JavaScriptCore/assembler/ARMv7Assembler.h:2010-2031 | Each single emit or label keeps the windows apart and clear, never shrinks the code, forgets no label or watchpoint, and hands out the end of the code as the label. |
| `WatchpointLabels.LabelIsEarliest` | Source/JavaScriptCore/assembler/ARMv7Assembler.h:2020-2031 | A label is padded no further than it must be: every earlier place from the end of the code on lies in a window. |
| `WatchpointLabels.WatchIsLabel` | Source/JavaScriptCore/assembler/ARM64Assembler.h:2563-2571 | A watchpoint label stands where a label would, or on the last watchpoint if and only if nothing was emitted since. |
| `JumpReplacements.ReplacementRuns` | Source/JavaScriptCore/assembler/ARMv7Assembler.h:2263-2283 | Executing the halfwords written over the code goes to the target if and only if the target is in range of the short form, or on Linux unless it is one of the two farthest targets behind the jump that pass the check. |
| `JumpReplacements.ReplaceWithJump` | Source/JavaScriptCore/assembler/ARMv7Assembler.h:2263-2283 | These halfwords are written in place from the start of the jump on, and executed there they go to the target; nothing else changes. |
| `JumpReplacements.ReplacementBranches` | Source/JavaScriptCore/assembler/ARM64Assembler.h:2664-2670 | On ARM64 the word written is a branch without link, to the target if and only if the displacement passes the assertion of the encoder. |
| `JumpReplacements.ReplaceWithBranch` | Source/JavaScriptCore/assembler/ARM64Assembler.h:2664-2670 | That word replaces the one at the watchpoint, and no other. |
| `JumpReplacements.ReplacementIsClear` | Source/JavaScriptCore/assembler/ARMv7Assembler.h:2010-2031 | Over every run, wherever the code is loaded and whatever the target: replacing a watchpoint by a jump overwrites no label but its own; the bytes counted are those of the halfwords or the word written. |
| `JumpReplacements.LargestReplacement` | Source/JavaScriptCore/assembler/ARMv7Assembler.h:2285-2292 | maxJumpReplacementSize is the most bytes that are ever written, and some target takes that many. |
| `WatchpointLabels.LabelAssembler.Pad` | Source/JavaScriptCore/assembler/ARMv7Assembler.h:2020-2031 | The padding loop ends exactly at the end of the window, with wide and narrow nops. |
| `WatchpointLabels.LabelAssembler.Label` | Source/JavaScriptCore/assembler/ARM64Assembler.h:2573-2581 | The label is the code size or the end of the last window, whichever is later. |
| `WatchpointLabels.LabelAssembler.LabelForWatchpoint` | Source/JavaScriptCore/assembler/ARM64Assembler.h:2563-2571 | A watchpoint reuses the last one if nothing was emitted since, and else starts behind its window. |
| `WatchpointLabels.LabelAssembler.EmitUnits` | Source/JavaScriptCore/assembler/ARMv7Assembler.h:2010-2031 | Any instruction emitted in between moves the end of the code by its size and changes no mark. |

## Left out

- PoolModel.PutInt: code is counted in words; puts of bytes, halfwords and 64-bit values through the pool layer, and with them the byte and halfword padding of `flushConstantPool`, are not modelled. ARM code consists of words only.
- ConstantPoolBuffers.ConstantPoolBuffer.PatchLoadsAt: load offsets are kept as word indices, not bytes.
- ConstantPoolBuffers.ConstantPoolBuffer.PutIntWithConstantInt: the search, the tagged load and the new entry are methods of their own, and the load is recorded after it is put instead of before.
- ArmJumpModel.RunExecutes: loads are events with their value and jumps are not followed, because in the buffer their slots do not hold addresses yet; `ArmCopyRuns` follows them in the copy. `align`, calls through blx and returns are not operations of a run.
- ArmCopyRuns.CopyRuns: other instructions are events, not state changes, so the conditions are an arbitrary sequence of outcomes; a jump to anything but a label leaves the program.
- ArmAssemblers.ArmAssembler.LinkJump: requires that the word before the label is a load with a slot, which `LinkJumpLinksItsItem` proves in every reachable state.
- ArmPrepare.Rewrite: a recorded offset that is not that of a load leaves the code as it is; the source has no such case, and `RunRecords` shows that it does not arise.
- AssemblerBuffers.AssemblerBuffer.PutInt: bytes are stored least significant first. Failing allocation and sizes beyond 32 bits are not modelled, and a grown buffer is as large as the allocator likes.
- ArmMoveImm.MoveImm: destinations other than pc; emitted words are returned as a sequence instead of being put into the pool buffer, and the pool load is an element of it; `ArmEmissions` proves what putting them does. The same holds for `GenInt`, `EncodeComplexImm`, `GetImm` and all of `ArmTransfers`.
- ArmGenInt.SplitBytes: the normalising shifts that `genInt` and `getOp2` write out repeatedly are shared methods, and the two operands are found before any word is emitted.
- ArmTransfers.DataTransfer32: base and index are not pc. An access is recorded with its kind, register, address and the register file at that moment; the value it loads is not, nor what a load does to its destination. Emitted words may load into pc or store it. The same holds for the other five helpers.
- LogicalImmediates.Create32: the unrolled cascade of widths is one recursive step per width; words are sequences of bits.
- Arm64Branches.LinkTest: the three linkers differ only in the test and its range and are one method over a test; the assertions about range are in the theorems.
- Arm64Branches.RelinkRun: tests other than AL and registers other than 31, whose inverse or decoding the source does not support; fields are added where the source joins disjoint bits.
- Arm64Branches.RelinkJumpOrCall: the template argument is a parameter. A displacement that the encoder does not accept is left to `FarthestBack`.
- ThumbBranches.ComputedJumpRuns: conditions below AL, as the jump types require; the loop that moves code while compacting is in files not part of this model.
- ThumbBranches.RelinkAllRuns: odd targets are excluded, as the assertions of the source do.
- KeywordTrieNodes.Node.Coalesce: nodes on the heap cover `insert` and `coalesce`; `fillOut` and the printing are on values. A dictionary is the list of its values in insertion order, with the prefix of each as its key.
- KeywordTries.FillOutReorders: weights are integers (hundredths) where the source has decimal fractions; equal weights keep their order.
- KeywordMatchers.CompareIsEqual: little-endian packing, and the forms for aligned access; the big-endian macros are not modelled (one of them refers to itself).
- KeywordMatchers.Generate: nothing is said of what is emitted for a list with an edge that has no macro. Reading the keyword file and the text of the emitted C++ are not modelled; the emitted program is a tree of statements.
- OpaqueJSStrings.CallersAgree: steps are atomic and sequentially consistent; the reference count, which keeps the destructor from running during a call, is a precondition of that step.
- JumpReplacements.ReplaceWithJump: even targets, as the assertions of the source demand; code is an array of halfwords that starts at address 0.
- WatchpointLabels.RunIsClear: a window may extend past the end of the code if nothing follows it; the source leaves that to its callers.
- Watchpoint labels of the traditional ARM assembler, which return a later label than the start of the window.
- ADD and LDR swapping on ARM64, and its own `computeJumpType`.
- Cache flushing, page protection and executable memory; code is an array of words.
- The one-line instruction emitters, `MacroAssembler` and `LinkBuffer`.
- The JavaScriptCore C API, `JSRetainPtr`, string conversion, and command-line programs: wrappers, or code whose callees are not part of this model.
