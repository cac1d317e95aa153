# Verified core of the Dobby hooking library and its demo

This project models, in Dafny, the parts of an Android NDK demo and of its vendored copy
of Dobby (an inline-hooking library) that are hard to get right, and proves what they are for:

* **Instruction relocation.** `GenRelocateCodeAndBranch` copies the first instructions of a
  function elsewhere, rewrites the PC-relative ones and jumps back. For A64
  (`Arm64*.dfy`) and T32 (`Thumb*.dfy`) there is a small machine (sections C4.1, C6.2, F3.1 and
  F5.1 of the Arm Architecture Reference Manual, DDI 0487), the assembler with its literal
  pool, the emitting loop as a program over a code buffer, and a simulation theorem over whole
  runs of the block. The machine and the relocator read the same fields, so what the
  fields are is pinned from outside: `Arm64Encodings.dfy` and `ThumbEncodings.dfy` write every encoding
  down from the manual and show that exactly these words decode to the instruction. Instructions that are neither read nor written by the relocator are
  uninterpreted: their effect is a parameter. For x64 and x86 (`X86*.dfy`) the
  instruction decoder is a parameter, and the theorems are about targets, lengths and retries.
* **Trampolines** (`Arm64Trampoline.dfy`): the patch written over an A64 prologue.
* **Mach-O export tries** (`Uleb128.dfy`, `ExportTrie.dfy`): a walk over bytes agrees with a plain map;
  `TrieRoutes.dfy` is the walk on bytes that need not be a trie.
* **Worker hand-off** (`WorkerHandOff.dfy`): the demo's threads as interleaved steps, where a mutex is
  locked by a coordinator and unlocked by the worker it creates.
* **Hook life cycle** (`HookRegistry.dfy`, `HookLifecycle.dfy`): saving, patching and restoring
  prologues, with the registry on a circular doubly linked list. `HookedFunction.dfy` puts the
  pieces together for A64: the patched memory, the trampoline and the relocated code.
* **Memory** (`CodeArena.dfy`, `NearArena.dfy`, `NearGaps.dfy`, `BlankSearch.dfy`, `GrowingStorage.dfy`): bump allocation,
  the search for pages near an address, the search for blank bytes, buffers that grow.
* **Variable cache** (`VariableCache.dfy`): the key/value list and its file format.

`Arithmetic.dfy` and `MachineWords.dfy` hold what the others share. Machine words are integers
with explicit wrap-around. `dafny verify dfyconfig.toml` checks everything.

## Where the code does not do what it is for

The theorems name their domain. Outside it the code was kept as it is, and what it does there is stated:

* A64: `ldr(W(rt), …)` emits a 64-bit load, so a 32-bit literal load is preserved only over a zero
  upper word. B.AL and B.NV are inverted into each other and fall through. Literal loads
  clobber X17, so later instructions must not read it. The ADRP trampoline is chosen by byte distance
  but encodes a page distance.
* T32: conditional branches, backward 16-bit branches, 16-bit ADR, unaligned T2 literals and literal loads of PC reach the
  original target only in the cases stated; CBZ and CBNZ branch in the opposite cases, and the wide ADR
  runs into its literal (`ThumbLandings.dfy`). The test for the wide ADR looks at the wrong bits: it misses every
  second ADR, which is copied as it is, and takes some MOVWs for ADR. Branch labels into the range asked for are redirected by
  `reloc_label_fixup`, which has no entry for them and sends them to the start of the chunk in A32 state. This
  also hits BX PC (of two in a row, the first is sent to the relocated third instruction): it ends the covered range, but the fix-up tests against the range asked for.
  The code that would relocate A32 instructions after BX PC is never reached, because the
  covered range has been cut off there by then.
* x64 and x86: short jumps are widened without the difference entering their offset, and the offset of JMP is cut to eight bits. Near conditional jumps
  (0F 80 to 0F 8F) are copied with their offset unchanged, because the decoder reports the second opcode byte and the
  relocator looks for none of these; for the same reason 0F 71 to 0F 73 are taken for short jumps.
* `DobbyHook` ignores that relocation failed, and patches without having saved the prologue. Of overlapping
  hooks destroyed out of order, a byte comes back exactly when the hook destroyed last over it had saved the original one.
* `MemoryArena` gives a chunk larger than a page a single page. `NearMemoryArena` repeats its search
  without bound for requests of a page or more; on Arm its blank-byte fallback can take one byte behind the blank run.
* The local `memmem` is correct for needles of equal bytes only.
* Loading a file into the variable cache does not look for names already present, so a later save and load can change a value.

## Model

| member | source | states |
|---|---|---|
| `Arm64Simulation.RelocationPreservesRuns` | app/src/main/cpp/Dobby/source/InstructionRelocation/arm64/ARM64InstructionRelocation.cc:124-316 | for every block, address, entry instruction and machine state, the relocated code leaves for the address the original leaves for, with equal registers, flags and memory, X17 and registers that were stale before aside; after a call the link register is the relocated image of the return address |
| `Arm64Simulation.ResumesAfterCall` | app/src/main/cpp/Dobby/source/InstructionRelocation/arm64/ARM64InstructionRelocation.cc:177-191 | coming back from a call in the block: from states that differ in X17, the link register and what was stale before, the rest of the block runs as the original does, from the very address that the relocated call linked to |
| `Arm64Simulation.StaleOnly` | app/src/main/cpp/Dobby/source/InstructionRelocation/arm64/ARM64InstructionRelocation.cc:139-191 | no register but X17 and the link register ever differs, and the link register only after a call |
| `Arm64Simulation.StepSimulated` | app/src/main/cpp/Dobby/source/InstructionRelocation/arm64/ARM64InstructionRelocation.cc:136-288 | the same for one instruction, from any states that differ in stale registers only: fall-through arrives at the next relocated instruction, a jump or call at the same target |
| `Arm64Simulation.OriginalRuns` | app/src/main/cpp/Dobby/source/InstructionRelocation/arm64/ARM64InstructionRelocation.cc:136-140 | the run of the block that is compared is the one of the original machine: after some steps it stands at the exit instruction with the outcome compared |
| `Arm64Simulation.SettingExists` | app/src/main/cpp/Dobby/source/InstructionRelocation/arm64/ARM64InstructionRelocation.cc:124-316 | what the theorems assume can be met: every relocatable block of moderate size can be placed, with its relocated code, at any two addresses |
| `Arm64Simulation.TailRuns` | app/src/main/cpp/Dobby/source/InstructionRelocation/arm64/ARM64InstructionRelocation.cc:302-307 | falling off the block reaches the first instruction that was not copied, changing X17 only |
| `Arm64Simulation.SimLiteral` | app/src/main/cpp/Dobby/source/InstructionRelocation/arm64/ARM64InstructionRelocation.cc:139-156 | integer literal loads read the original address and fall through |
| `Arm64Simulation.SimPcAddress` | app/src/main/cpp/Dobby/source/InstructionRelocation/arm64/ARM64InstructionRelocation.cc:157-175 | ADR and ADRP leave the original absolute address in the register |
| `Arm64Simulation.SimBranch` | app/src/main/cpp/Dobby/source/InstructionRelocation/arm64/ARM64InstructionRelocation.cc:177-191 | B and BL reach the original target through the pool; BL links to the next relocated instruction |
| `Arm64Simulation.SimTest` | app/src/main/cpp/Dobby/source/InstructionRelocation/arm64/ARM64InstructionRelocation.cc:192-215 | TBZ and TBNZ branch in exactly the same states, to the same target |
| `Arm64Simulation.SimCompare` | app/src/main/cpp/Dobby/source/InstructionRelocation/arm64/ARM64InstructionRelocation.cc:217-241 | CBZ and CBNZ branch in exactly the same states, to the same target |
| `Arm64Simulation.SimCond` | app/src/main/cpp/Dobby/source/InstructionRelocation/arm64/ARM64InstructionRelocation.cc:242-266 | B.cond branches in exactly the same states, to the same target |
| `Arm64Simulation.SimPlain` | app/src/main/cpp/Dobby/source/InstructionRelocation/arm64/ARM64InstructionRelocation.cc:267-270 | an instruction that is copied has the same effect at its new address |
| `Arm64Simulation.CondBranchExact` | app/src/main/cpp/Dobby/source/InstructionRelocation/arm64/ARM64InstructionRelocation.cc:242-266 | a conditional branch keeps its meaning if and only if its condition is below 14 (or the target is the next relocated instruction); for 14 and 15 the relocated code always falls through |
| `Arm64Simulation.AlwaysBranchFails` | app/src/main/cpp/Dobby/source/InstructionRelocation/arm64/ARM64InstructionRelocation.cc:247-253 | `b.al #8` anywhere in a block: the original branches, the relocated code goes on |
| `Arm64Simulation.NarrowLiteralExact` | app/src/main/cpp/Dobby/source/InstructionRelocation/arm64/ARM64InstructionRelocation.cc:142-151 | a 32-bit literal load keeps its meaning if and only if the word after the literal is zero, or the destination is ZR or X17 |
| `Arm64Simulation.NarrowLiteralFails` | app/src/main/cpp/Dobby/source/core/modules/assembler/assembler-arm64.h:472-474 | `ldr w0, #8` anywhere in a block, over non-zero memory, is not preserved, because the load that is emitted is 64 bits wide |
| `Arm64Relocator.GenRelocateCodeAndBranch` | app/src/main/cpp/Dobby/source/InstructionRelocation/arm64/ARM64InstructionRelocation.cc:124-307 | the relocator gives up exactly on blocks with an LDRSW, PRFM or 128-bit literal load, and otherwise returns the laid-out and linked code |
| `Arm64Relocator.AbortsOnlyOnLiterals` | app/src/main/cpp/Dobby/source/InstructionRelocation/arm64/ARM64InstructionRelocation.cc:148-154 | the abort path is taken exactly for literal loads with opc 10 or 11, wherever the instruction is |
| `Arm64Relocator.TurboAssembler.RelocateInstruction` | app/src/main/cpp/Dobby/source/InstructionRelocation/arm64/ARM64InstructionRelocation.cc:139-270 | one round appends exactly the code and the label of the instruction |
| `Arm64Relocator.TurboAssembler.LinkConfusedInstructions` | app/src/main/cpp/Dobby/source/core/modules/assembler/assembler-arm64.h:72-95 | every recorded load is patched for the label, nothing else |
| `Arm64Relocator.TurboAssembler.RelocBind` | app/src/main/cpp/Dobby/source/core/modules/assembler/assembler-arm64.h:666-683 | labels are bound and their values emitted in order |
| `Arm64Relocator.TurboAssembler.LiteralLdrBranch` | app/src/main/cpp/Dobby/source/core/modules/codegen/codegen-arm64.cc:10-19 | a load of X17 that already reaches the address emitted behind the branch |
| `Arm64Relocator.LayoutLabels` | app/src/main/cpp/Dobby/source/InstructionRelocation/arm64/ARM64InstructionRelocation.cc:177-266 | each label has one load, in order, at a placeholder that the code contains |
| `Arm64Assembler.BindCode` | app/src/main/cpp/Dobby/source/core/modules/assembler/assembler-arm64.h:72-95 | after binding, a load recorded for label k carries the distance to slot k, and every other word is as emitted |
| `Arm64Assembler.BindPool` | app/src/main/cpp/Dobby/source/core/modules/assembler/assembler-arm64.h:675-683 | after binding, slot k of the pool holds the value of label k |
| `Arm64Assembler.MovRuns` | app/src/main/cpp/Dobby/source/core/modules/assembler/assembler-arm64.h:641-652 | executing the four moves leaves exactly the 64-bit immediate in the register, from any state |
| `Arm64Chunk.PieceInChunk` | app/src/main/cpp/Dobby/source/InstructionRelocation/arm64/ARM64InstructionRelocation.cc:136-307 | in the finished code every instruction's words are in place and its load reaches its own address |
| `Arm64Chunk.DecodersAgree` | app/src/main/cpp/Dobby/source/InstructionRelocation/arm64/ARM64InstructionRelocation.cc:37-108 | the shift-based decoders give the two's-complement value of each immediate field |
| `Arm64Rewrites.DecodeInvertedTest` | app/src/main/cpp/Dobby/source/InstructionRelocation/arm64/ARM64InstructionRelocation.cc:197-205 | the rewritten TBZ/TBNZ tests the same bit of the same register for the opposite value and skips 12 bytes |
| `Arm64Rewrites.DecodeInvertedCompare` | app/src/main/cpp/Dobby/source/InstructionRelocation/arm64/ARM64InstructionRelocation.cc:220-228 | the rewritten CBZ/CBNZ compares the same register at the same width the other way round and skips 12 bytes |
| `Arm64Rewrites.DecodeInvertedCond` | app/src/main/cpp/Dobby/source/InstructionRelocation/arm64/ARM64InstructionRelocation.cc:245-253 | the rewritten B.cond has the lowest condition bit flipped and skips 12 bytes |
| `Arm64Rewrites.FlipNegates` | app/src/main/cpp/Dobby/source/InstructionRelocation/arm64/ARM64InstructionRelocation.cc:247-249 | flipping the lowest bit of a condition negates it in every flag state for conditions below 14, and not at all for 14 and 15 |
| `Arm64Encodings.LiteralCoding` | app/src/main/cpp/Dobby/source/InstructionRelocation/arm64/ARM64InstructionRelocation.cc:139-147 | a word decodes as an integer literal load of a width, register and offset if and only if it is the encoding of these, put together from the manual's fields |
| `Arm64Encodings.AdrCoding` | app/src/main/cpp/Dobby/source/InstructionRelocation/arm64/ARM64InstructionRelocation.cc:157-164 | the same for ADR, with every offset within 1 MiB |
| `Arm64Encodings.AdrpCoding` | app/src/main/cpp/Dobby/source/InstructionRelocation/arm64/ARM64InstructionRelocation.cc:165-175 | the same for ADRP, with every whole number of pages within 4 GiB |
| `Arm64Encodings.BranchCoding` | app/src/main/cpp/Dobby/source/InstructionRelocation/arm64/ARM64InstructionRelocation.cc:177-191 | the same for B and BL |
| `Arm64Encodings.TestCoding` | app/src/main/cpp/Dobby/source/InstructionRelocation/arm64/ARM64InstructionRelocation.cc:192-215 | the same for TBZ and TBNZ, with the tested bit from its two fields |
| `Arm64Encodings.CompareCoding` | app/src/main/cpp/Dobby/source/InstructionRelocation/arm64/ARM64InstructionRelocation.cc:217-241 | the same for CBZ and CBNZ of both widths |
| `Arm64Encodings.CondCoding` | app/src/main/cpp/Dobby/source/InstructionRelocation/arm64/ARM64InstructionRelocation.cc:242-266 | the same for B.cond, whose bit 4 does not matter |
| `Arm64Encodings.ClassBytes` | app/src/main/cpp/Dobby/source/InstructionRelocation/arm64/ARM64InstructionRelocation.cc:139-242 | the classes that the relocator tells apart, by the upper byte of the instruction |
| `Arm64Encodings.AbortsExactly` | app/src/main/cpp/Dobby/source/InstructionRelocation/arm64/ARM64InstructionRelocation.cc:148-154 | exactly the words with upper byte 98, 9C, D8 or DC take the abort path |
| `Arm64Trampoline.TrampolineExact` | app/src/main/cpp/Dobby/source/TrampolineBridge/Trampoline/arm64/trampoline-arm64.cc:16-37 | the trampoline reaches its target, changing X17 only, unless source and target pages are exactly 4 GiB apart; then it does not |
| `Arm64Trampoline.LandsExact` | app/src/main/cpp/Dobby/source/core/modules/assembler/assembler-arm64.h:654-661 | ADRP and ADD compute the target if and only if the page difference is not 4 GiB |
| `Arm64Trampoline.TrampolineMisses` | app/src/main/cpp/Dobby/source/TrampolineBridge/Trampoline/arm64/trampoline-arm64.cc:20-25 | from 0x7000_0000_0FFC to 0x7001_0000_0FF8 the range test passes and the trampoline misses |
| `ThumbSimulation.RelocationPreservesRuns` | app/src/main/cpp/Dobby/source/InstructionRelocation/arm/ARMInstructionRelocation.cc:605-832 | for every block, entry instruction and machine state within the domain, the relocated Thumb code leaves for the same address in the same instruction-set state with equal registers, flags and memory, stale registers aside; returning from a call leads to the next relocated instruction. The code is the finished one, with branch labels fixed up |
| `ThumbSimulation.ResumesAfterCall` | app/src/main/cpp/Dobby/source/InstructionRelocation/arm/ARMInstructionRelocation.cc:425-465 | coming back from a call in the block: from states that differ in the link register and what was stale before, the rest of the block runs as the original does, from the address that the relocated call linked to |
| `ThumbSimulation.StaleOnly` | app/src/main/cpp/Dobby/source/InstructionRelocation/arm/ARMInstructionRelocation.cc:201-221 | no register but R12 and the link register ever differs, and the link register only after a call |
| `ThumbSimulation.StepSimulated` | app/src/main/cpp/Dobby/source/InstructionRelocation/arm/ARMInstructionRelocation.cc:622-668 | the same for one instruction, from any states that differ in stale registers only, including the padding in front of it |
| `ThumbSimulation.OriginalRuns` | app/src/main/cpp/Dobby/source/InstructionRelocation/arm/ARMInstructionRelocation.cc:622-668 | the run of the block that is compared is the one of the original machine |
| `ThumbSimulation.SettingExists` | app/src/main/cpp/Dobby/source/InstructionRelocation/arm/ARMInstructionRelocation.cc:605-832 | what the theorems assume can be met: every block in the domain, of moderate size, can be placed with its relocated code |
| `ThumbSimulation.TailRuns` | app/src/main/cpp/Dobby/source/InstructionRelocation/arm/ARMInstructionRelocation.cc:812-820 | falling off the block reaches the first instruction that was not copied, in Thumb state |
| `ThumbSimulation.SimJump` | app/src/main/cpp/Dobby/source/InstructionRelocation/arm/ARMInstructionRelocation.cc:407-423 | B.W reaches its target |
| `ThumbSimulation.SimCall` | app/src/main/cpp/Dobby/source/InstructionRelocation/arm/ARMInstructionRelocation.cc:425-465 | BL and BLX reach their target in the right state, and returning skips the inline address |
| `ThumbSimulation.SimWideLoad` | app/src/main/cpp/Dobby/source/InstructionRelocation/arm/ARMInstructionRelocation.cc:512-535 | a word-aligned T2 literal load reads the original address |
| `ThumbSimulation.SimNarrowLoad` | app/src/main/cpp/Dobby/source/InstructionRelocation/arm/ARMInstructionRelocation.cc:262-276 | a 16-bit literal load reads the original address through the pool |
| `ThumbSimulation.SimHigh` | app/src/main/cpp/Dobby/source/InstructionRelocation/arm/ARMInstructionRelocation.cc:201-221 | ADD, CMP and MOV with PC as source use the original PC, held in R12 |
| `ThumbSimulation.SimNarrowJump` | app/src/main/cpp/Dobby/source/InstructionRelocation/arm/ARMInstructionRelocation.cc:341-353 | a forward 16-bit B, and BX PC, reach their target through the pool when it lies outside the range asked for |
| `ThumbSimulation.SimNarrowAdr` | app/src/main/cpp/Dobby/source/InstructionRelocation/arm/ARMInstructionRelocation.cc:278-292 | a 16-bit ADR with a zero immediate at an aligned PC leaves the original value |
| `ThumbSimulation.SimNarrowCond` | app/src/main/cpp/Dobby/source/InstructionRelocation/arm/ARMInstructionRelocation.cc:294-317 | a 16-bit conditional branch with an immediate below 16 branches in exactly the same states, to the same target |
| `ThumbSimulation.SimCond` | app/src/main/cpp/Dobby/source/InstructionRelocation/arm/ARMInstructionRelocation.cc:382-404 | a forward wide conditional branch that is taken reaches its target |
| `ThumbSimulation.SimPlain` | app/src/main/cpp/Dobby/source/InstructionRelocation/arm/ARMInstructionRelocation.cc:356-362 | an instruction that is copied has the same effect at its new address |
| `ThumbSimulation.CondBranchLands` | app/src/main/cpp/Dobby/source/InstructionRelocation/arm/ARMInstructionRelocation.cc:382-404 | where a relocated wide conditional branch leads, for all inputs: its target if taken and forward; the inline address word, four bytes short of the next instruction, if not taken; a megabyte before the load if taken and backward |
| `ThumbSimulation.NarrowCondLands` | app/src/main/cpp/Dobby/source/InstructionRelocation/arm/ARMInstructionRelocation.cc:294-317 | where a relocated 16-bit conditional branch leads, for all inputs: the next instruction if not taken, its target if taken with an immediate below 16, a displaced address otherwise; a target in the range asked for is the one that the fix-up gives |
| `ThumbSimulation.NarrowTarget` | app/src/main/cpp/Dobby/source/InstructionRelocation/arm/ARMInstructionRelocation.cc:342-347 | the pooled target of a 16-bit B is the original's if and only if the branch is not backward |
| `ThumbSimulation.NarrowBackwardFails` | app/src/main/cpp/Dobby/source/InstructionRelocation/arm/ARMInstructionRelocation.cc:342-347 | `b .` at 0x1000 is relocated to a jump to 0x2000 |
| `ThumbSimulation.NarrowAdrExact` | app/src/main/cpp/Dobby/source/InstructionRelocation/arm/ARMInstructionRelocation.cc:278-287 | the pooled value of a 16-bit ADR is the original's if and only if the immediate is zero and the PC is word-aligned |
| `ThumbSimulation.LiteralAddressExact` | app/src/main/cpp/Dobby/source/InstructionRelocation/arm/ARMInstructionRelocation.cc:517-525 | the address that a relocated T2 literal load reads is the original's if and only if the immediate is a multiple of four |
| `ThumbSimulation.UnalignedLiteralFails` | app/src/main/cpp/Dobby/source/InstructionRelocation/arm/ARMInstructionRelocation.cc:517-525 | with immediate 3 at PC 0x1000 the original reads 0x1003 and the relocated code 0x1000 |
| `ThumbSimulation.LoadPcLands` | app/src/main/cpp/Dobby/source/InstructionRelocation/arm/ARMInstructionRelocation.cc:527-532 | a relocated literal load of PC goes to the address of the literal instead of its contents |
| `ThumbSimulation.TakenInPlace` | app/src/main/cpp/Dobby/source/InstructionRelocation/arm/ARMInstructionRelocation.cc:627-667 | the instructions relocated are those in memory, one after the other |
| `ThumbRelocator.GenRelocateCodeAndBranch` | app/src/main/cpp/Dobby/source/InstructionRelocation/arm/ARMInstructionRelocation.cc:738-852 | relocation aborts exactly when the block has a supervisor call or undefined instruction or a pool slot is out of reach; otherwise, given a chunk, the code is the laid-out, linked and fixed-up one, and the covered length is that of the instructions taken |
| `ThumbRelocator.ThumbTurboAssembler.RelocLabelFixup` | app/src/main/cpp/Dobby/source/InstructionRelocation/arm/ARMInstructionRelocation.cc:697-719 | exactly the branch labels into the range asked for are redirected into the chunk, and their pool words rewritten |
| `ThumbAssembler.RewriteSlot` | app/src/main/cpp/Dobby/source/InstructionRelocation/arm/ARMInstructionRelocation.h:323-325 | rewriting a pool word is binding with another value: no other halfword changes |
| `ThumbRelocator.GenThumbRelocateCode` | app/src/main/cpp/Dobby/source/InstructionRelocation/arm/ARMInstructionRelocation.cc:605-685 | the loop fails exactly on a supervisor call or undefined instruction, and otherwise lays out the instructions up to the requested size or to where a BX PC leads |
| `ThumbRelocator.ThumbTurboAssembler.Thumb1RelocateSingleInstr` | app/src/main/cpp/Dobby/source/InstructionRelocation/arm/ARMInstructionRelocation.cc:188-363 | what is appended for every 16-bit instruction, with its label |
| `ThumbRelocator.ThumbTurboAssembler.Thumb2RelocateSingleInstr` | app/src/main/cpp/Dobby/source/InstructionRelocation/arm/ARMInstructionRelocation.cc:365-546 | what is appended for every 32-bit instruction |
| `ThumbRelocator.ThumbTurboAssembler.RelocBind` | app/src/main/cpp/Dobby/source/InstructionRelocation/arm/ARMInstructionRelocation.h:312-336 | binding succeeds exactly when every distance fits in imm12, and then links every load and emits the values in order |
| `ThumbRelocator.ThumbTurboAssembler.LinkConfusedInstructions` | app/src/main/cpp/Dobby/source/InstructionRelocation/arm/ARMInstructionRelocation.h:19-51 | the CHECK on the distance passes exactly for linkable uses, and then each load is patched in place |
| `ThumbRelocator.LayoutLabels` | app/src/main/cpp/Dobby/source/InstructionRelocation/arm/ARMInstructionRelocation.h:290-299 | each label has one load and no two loads overlap |
| `ThumbLandings.CutOffLands` | app/src/main/cpp/Dobby/source/InstructionRelocation/arm/ARMInstructionRelocation.cc:846-846 | BX PC at address a, not followed by another, reaches a + 4 as the original does exactly if a + 4 is not below the end of the range asked for; otherwise the fix-up makes it a jump to the start of the chunk in A32 state |
| `ThumbLandings.CutOffFails` | app/src/main/cpp/Dobby/source/InstructionRelocation/arm/ARMInstructionRelocation.cc:697-719 | `bx pc; nop` at 0x1000 under an eight-byte trampoline: the relocated code jumps to its own start in place of 0x1004 |
| `ThumbLandings.StubAccepted` | app/src/main/cpp/Dobby/source/InstructionRelocation/arm/ARMInstructionRelocation.cc:738-852 | the relocator accepts that block |
| `ThumbLandings.ExchangeExact` | app/src/main/cpp/Dobby/source/InstructionRelocation/arm/ARMInstructionRelocation.cc:224-239 | BX PC is preserved if and only if the code it leads to lies outside the range asked for |
| `ThumbLandings.ExchangeLands` | app/src/main/cpp/Dobby/source/InstructionRelocation/arm/ARMInstructionRelocation.cc:224-239 | where a relocated BX PC leads, for all inputs |
| `ThumbLandings.ExchangeNotFound` | app/src/main/cpp/Dobby/source/InstructionRelocation/arm/ARMInstructionRelocation.cc:687-695 | the code that a BX PC leads to is not among the instructions relocated, unless another BX PC follows directly |
| `ThumbLandings.OddFixed` | app/src/main/cpp/Dobby/source/InstructionRelocation/arm/ARMInstructionRelocation.cc:687-719 | a Thumb branch label into the range asked for always becomes the start of the chunk, because the map has no odd address |
| `ThumbLandings.NarrowJumpLands` | app/src/main/cpp/Dobby/source/InstructionRelocation/arm/ARMInstructionRelocation.cc:341-353 | where a relocated 16-bit B leads, for all inputs |
| `ThumbLandings.CompareBranchLands` | app/src/main/cpp/Dobby/source/InstructionRelocation/arm/ARMInstructionRelocation.cc:319-339 | where a relocated CBZ or CBNZ leads, for all inputs: a branch that the original takes lands inside the emitted B.W, one that it does not take goes to the target |
| `ThumbLandings.CompareBranchFails` | app/src/main/cpp/Dobby/source/InstructionRelocation/arm/ARMInstructionRelocation.cc:319-339 | `cbz r0` at the start of any block, with a non-zero R0, is taken by the relocated code |
| `ThumbLandings.WideAdrLands` | app/src/main/cpp/Dobby/source/InstructionRelocation/arm/ARMInstructionRelocation.cc:480-507 | what is taken for a wide ADR loads its value and then runs into the word that holds it, for all inputs |
| `ThumbLandings.WideAdrValue` | app/src/main/cpp/Dobby/source/InstructionRelocation/arm/ARMInstructionRelocation.cc:486-499 | the value that it loads is the original's if and only if the PC is word-aligned |
| `ThumbLandings.WideAdrFails` | app/src/main/cpp/Dobby/source/InstructionRelocation/arm/ARMInstructionRelocation.cc:501-504 | `adr.w r0, #4` at the start of any block loads 0x1008 and runs into it |
| `ThumbLandings.TakenExactly` | app/src/main/cpp/Dobby/source/InstructionRelocation/arm/ARMInstructionRelocation.cc:469-484 | the instructions taken for a wide ADR are half of the ADRs, half of the MOVWs of a constant that starts with 15, and unallocated encodings |
| `ThumbLandings.CopiedAdrExact` | app/src/main/cpp/Dobby/source/InstructionRelocation/arm/ARMInstructionRelocation.cc:469-484 | a wide ADR with bit 6 of its constant set is copied, and gives the original value if and only if the copy is where the original was |
| `ThumbLandings.MovwTakenForAdr` | app/src/main/cpp/Dobby/source/InstructionRelocation/arm/ARMInstructionRelocation.cc:469-507 | `movw r0, #0xf000` at 0x1000 becomes a load of 0x1004 |
| `ThumbLandings.NarrowAdrFails` | app/src/main/cpp/Dobby/source/InstructionRelocation/arm/ARMInstructionRelocation.cc:280-285 | `adr r0, #4` at 0x1000 becomes a load of 0x1005 in place of 0x1008 |
| `ThumbLandings.ChunkIsWords` | app/src/main/cpp/Dobby/source/InstructionRelocation/arm/ARMInstructionRelocation.cc:812-832 | the finished code is a whole number of words long |
| `ThumbLandings.CondBranchFails` | app/src/main/cpp/Dobby/source/InstructionRelocation/arm/ARMInstructionRelocation.cc:394-401 | `beq.w`, anywhere in a block and not taken, goes to the inline address word |
| `ThumbLandings.NarrowCondFails` | app/src/main/cpp/Dobby/source/InstructionRelocation/arm/ARMInstructionRelocation.cc:308-311 | `beq` 32 bytes on, anywhere in a block and taken, lands 40 bytes on in the chunk |
| `ThumbLandings.LoadPcFails` | app/src/main/cpp/Dobby/source/InstructionRelocation/arm/ARMInstructionRelocation.cc:527-532 | `ldr pc, [pc, #8]` at 0x1000, at the start of any block, is relocated to a jump to 0x100c |
| `ThumbAssembler.BindUse` | app/src/main/cpp/Dobby/source/InstructionRelocation/arm/ARMInstructionRelocation.h:36-46 | after RelocBind a load recorded for label k carries the distance to slot k, whatever the number of labels and uses |
| `ThumbAssembler.BindKeeps` | app/src/main/cpp/Dobby/source/InstructionRelocation/arm/ARMInstructionRelocation.h:36-46 | no halfword outside the recorded loads changes |
| `ThumbAssembler.BindPool` | app/src/main/cpp/Dobby/source/InstructionRelocation/arm/ARMInstructionRelocation.h:327-336 | slot k holds the value of label k |
| `ThumbAssembler.BranchRoundTrip` | app/src/main/cpp/Dobby/source/InstructionRelocation/arm/ARMInstructionRelocation.h:222-246 | for every even offset from -2^24 to 2^24, decoding what is emitted gives back the offset and the link class |
| `ThumbEncodings.BranchCoding` | app/src/main/cpp/Dobby/source/InstructionRelocation/arm/ARMInstructionRelocation.cc:406-423 | two halfwords decode as B.W by an offset if and only if they are its encoding, put together from S, J1, J2, imm10 and imm11; the offsets are the even ones within 16 MiB |
| `ThumbEncodings.CallCoding` | app/src/main/cpp/Dobby/source/InstructionRelocation/arm/ARMInstructionRelocation.cc:425-444 | the same for BL |
| `ThumbEncodings.ExchangeCoding` | app/src/main/cpp/Dobby/source/InstructionRelocation/arm/ARMInstructionRelocation.cc:446-465 | the same for BLX; the offsets are the multiples of four within 16 MiB |
| `ThumbEncodings.BranchesRoundTrip` | app/src/main/cpp/Dobby/source/InstructionRelocation/arm/ARMInstructionRelocation.cc:406-465 | for every offset in reach, decoding the encodings of B.W, BL and BLX gives it back |
| `ThumbEncodings.CondCoding` | app/src/main/cpp/Dobby/source/InstructionRelocation/arm/ARMInstructionRelocation.cc:382-404 | the same for B.W with a condition: conditions below 14 and even offsets within 1 MiB, from S, J2, J1, imm6 and imm11 |
| `ThumbEncodings.LiteralCoding` | app/src/main/cpp/Dobby/source/InstructionRelocation/arm/ARMInstructionRelocation.cc:511-524 | the same for LDR (literal), added and subtracted |
| `ThumbEncodings.LoadCoding` | app/src/main/cpp/Dobby/source/InstructionRelocation/arm/ARMInstructionRelocation.h:191-203 | the same for LDR (immediate), the form that is emitted |
| `ThumbEncodings.AdrCoding` | app/src/main/cpp/Dobby/source/InstructionRelocation/arm/ARMInstructionRelocation.cc:480-499 | the same for the wide ADR, added and subtracted, from i, imm3 and imm8 |
| `ThumbEncodings.NarrowLiteralCoding` | app/src/main/cpp/Dobby/source/InstructionRelocation/arm/ARMInstructionRelocation.cc:261-267 | the same for the 16-bit LDR (literal) |
| `ThumbEncodings.NarrowAdrCoding` | app/src/main/cpp/Dobby/source/InstructionRelocation/arm/ARMInstructionRelocation.cc:278-281 | the same for the 16-bit ADR |
| `ThumbEncodings.NarrowCondCoding` | app/src/main/cpp/Dobby/source/InstructionRelocation/arm/ARMInstructionRelocation.cc:294-303 | the same for the 16-bit B with a condition |
| `ThumbEncodings.CompareCoding` | app/src/main/cpp/Dobby/source/InstructionRelocation/arm/ARMInstructionRelocation.cc:319-325 | the same for CBZ and CBNZ, from op, i, imm5 and Rn |
| `ThumbEncodings.NarrowBranchCoding` | app/src/main/cpp/Dobby/source/InstructionRelocation/arm/ARMInstructionRelocation.cc:341-345 | the same for the 16-bit B |
| `ThumbEncodings.HighOpCoding` | app/src/main/cpp/Dobby/source/InstructionRelocation/arm/ARMInstructionRelocation.cc:200-211 | the same for ADD, CMP and MOV on high registers |
| `ThumbEncodings.ExchangeRegisterCoding` | app/src/main/cpp/Dobby/source/InstructionRelocation/arm/ARMInstructionRelocation.cc:223-258 | the same for BLX with a register and for BX PC |
| `ThumbEncodings.HintCoding` | app/src/main/cpp/Dobby/source/InstructionRelocation/arm/ARMInstructionRelocation.cc:294-300 | what decodes as NOP, and exactly which 16-bit instructions are not modelled |
| `ThumbEncodings.WideExactly` | app/src/main/cpp/Dobby/source/InstructionRelocation/arm/ARMInstructionRelocation.cc:21-33 | a halfword starts a 32-bit instruction if and only if it is at least 0xE800 |
| `ThumbEncodings.AbortsExactly` | app/src/main/cpp/Dobby/source/InstructionRelocation/arm/ARMInstructionRelocation.cc:294-300 | exactly the halfwords from 0xDE00 to 0xDFFF, UDF and SVC, abort the relocation |
| `ThumbEncodings.ExchangePcExactly` | app/src/main/cpp/Dobby/source/InstructionRelocation/arm/ARMInstructionRelocation.cc:223-239 | exactly BX PC ends the covered range |
| `ThumbChunk.InUnbound` | app/src/main/cpp/Dobby/source/InstructionRelocation/arm/ARMInstructionRelocation.cc:622-634 | every piece starts at a word boundary, with only NOPs in front of it |
| `ThumbChunk.UseInChunk` | app/src/main/cpp/Dobby/source/InstructionRelocation/arm/ARMInstructionRelocation.h:290-336 | in the finished code the load of an instruction reaches the word that holds its value |
| `X86Relocator.GenRelocateCodeAndBranch` | app/src/main/cpp/Dobby/source/InstructionRelocation/x64/X64InstructionRelocation.cc:134-160 | the number of retries is exactly the least that makes the chunk large enough, ceil((len - 32) / 16); every retry covers the same instructions; failure happens only when a chunk is refused or a loop instruction is met |
| `X86Relocator.GenRelocateCodeFixed` | app/src/main/cpp/Dobby/source/InstructionRelocation/x64/X64InstructionRelocation.cc:18-118 | the loop emits the code of exactly the instructions that cover the requested size, and stops exactly at LOOP and JCXZ forms |
| `X86Relocator.CoveredLength` | app/src/main/cpp/Dobby/source/InstructionRelocation/x64/X64InstructionRelocation.cc:35-116 | the covered length is an instruction boundary between the requested size and 14 bytes more, and the first such boundary |
| `X86Relocator.BlockStable` | app/src/main/cpp/Dobby/source/InstructionRelocation/x64/X64InstructionRelocation.cc:114-116 | a second pass over the covered length takes the same instructions |
| `X86Relocator.PieceHasLength` | app/src/main/cpp/Dobby/source/InstructionRelocation/x64/X64InstructionRelocation.cc:43-90 | the emitted length of an instruction does not depend on where it comes from or goes to; exactly the opcodes E0 to E3 abort, RIP-relative operands aside |
| `X86Targets.TargetPreserved` | app/src/main/cpp/Dobby/source/InstructionRelocation/x64/X64InstructionRelocation.cc:61-80 | every instruction with opcode E8 or E9, and on x64 every RIP-relative one outside 70 to 7F and EB, keeps all other bytes and its target modulo 2^32, and its 64-bit target if and only if the new displacement fits |
| `X86Targets.MovedTarget` | app/src/main/cpp/Dobby/source/InstructionRelocation/x86/X86InstructionRelocation.cc:61-68 | moving a displacement keeps the target modulo 2^32 always, and modulo 2^64 if and only if it fits |
| `X86Targets.CopiedUnchanged` | app/src/main/cpp/Dobby/source/InstructionRelocation/x64/X64InstructionRelocation.cc:87-90 | every instruction outside 70 to 7F, EB, E8, E9 and the RIP-relative ones is copied byte for byte |
| `X86Targets.ClosingJump` | app/src/main/cpp/Dobby/source/InstructionRelocation/x64/X64InstructionRelocation.cc:107-112 | the closing jump leads to the first instruction that was not copied |
| `X86Targets.NearJump` | app/src/main/cpp/Dobby/source/InstructionRelocation/x86/X86InstructionRelocation.cc:95-98 | the 32-bit closing jump lands on its address modulo 2^32 |
| `X86Targets.ShortJccExact` | app/src/main/cpp/Dobby/source/InstructionRelocation/x64/X64InstructionRelocation.cc:43-52 | a short conditional jump becomes 0F and its opcode plus 0x10, with a target past its own by the bytes it was widened; it is right if and only if it was six bytes long and, on x64, the new offset fits |
| `X86Targets.ShortJmpExact` | app/src/main/cpp/Dobby/source/InstructionRelocation/x64/X64InstructionRelocation.cc:53-60 | a relocated short jump reaches its target, a 64-bit address on x64, if and only if it was five bytes long and the new offset fits in eight signed bits |
| `X86Targets.ShortJumpsMiss` | app/src/main/cpp/Dobby/source/InstructionRelocation/x64/X64InstructionRelocation.cc:43-60 | short jumps of two bytes never reach their target after relocation |
| `X86Targets.NearJccExact` | app/src/main/cpp/Dobby/source/InstructionRelocation/x64/X64InstructionRelocation.cc:87-90 | a near conditional jump is copied with its offset, so it keeps its target if and only if it did not move |
| `X86Targets.EscapedBecomesJump` | app/src/main/cpp/Dobby/source/InstructionRelocation/x86/x86_insn_decode/x86_insn_decode.c:438-447 | an instruction with a two-byte opcode from 0F 70 to 0F 7F that the decoder accepts is replaced by a conditional jump |
| `X86Targets.FarCallMisses` | app/src/main/cpp/Dobby/source/InstructionRelocation/x64/X64InstructionRelocation.cc:73-80 | a CALL at 0x8000_0000_1000 relocated to 0x1000 keeps the low half of its target only |
| `ExportTrie.LookupAgrees` | app/src/main/cpp/Dobby/builtin-plugin/SymbolResolver/macho/dobby_symbol_resolver.cc:98-184 | for every well-formed trie of at most 126 levels and every symbol, the walk finds exactly the payload that the plain map has for the symbol, or reports it missing |
| `ExportTrie.WalkAgrees` | app/src/main/cpp/Dobby/builtin-plugin/SymbolResolver/macho/dobby_symbol_resolver.cc:98-184 | the same from any node below the nodes already visited |
| `ExportTrie.WalkExportedTrie` | app/src/main/cpp/Dobby/builtin-plugin/SymbolResolver/macho/dobby_symbol_resolver.cc:98-184 | on any bytes whatever the walk looks at no more than 127 nodes, and returns what the specification walk returns |
| `ExportTrie.FindChild` | app/src/main/cpp/Dobby/builtin-plugin/SymbolResolver/macho/dobby_symbol_resolver.cc:121-162 | the loop over the edges takes the first edge that the symbol starts with, and skips the others |
| `ExportTrie.PicksTheEdge` | app/src/main/cpp/Dobby/builtin-plugin/SymbolResolver/macho/dobby_symbol_resolver.cc:121-162 | with prefix-free edges the chosen child is the only one that can lead to the symbol |
| `ExportTrie.EncodingUnique` | app/src/main/cpp/Dobby/builtin-plugin/SymbolResolver/macho/dobby_symbol_resolver.cc:98-130 | the bytes at an offset encode at most one well-formed trie |
| `ExportTrie.NotVisited` | app/src/main/cpp/Dobby/builtin-plugin/SymbolResolver/macho/dobby_symbol_resolver.cc:168-174 | on a well-formed trie the cycle check never rejects a child |
| `ExportTrie.ResolvesExport` | app/src/main/cpp/Dobby/builtin-plugin/SymbolResolver/macho/dobby_symbol_resolver.cc:234-245 | a symbol exported with flags and value, not a re-export, resolves to exactly these, as 64-bit numbers and whatever else its payload holds |
| `ExportTrie.ReexportGivesNothing` | app/src/main/cpp/Dobby/builtin-plugin/SymbolResolver/macho/dobby_symbol_resolver.cc:237-241 | a symbol whose flags have bit 3 set resolves to nothing |
| `ExportTrie.MissingGivesNothing` | app/src/main/cpp/Dobby/builtin-plugin/SymbolResolver/macho/dobby_symbol_resolver.cc:234-236 | a symbol that the trie does not export resolves to nothing |
| `TrieRoutes.FoundExactly` | app/src/main/cpp/Dobby/builtin-plugin/SymbolResolver/macho/dobby_symbol_resolver.cc:98-184 | on any bytes, well formed or not: a payload is found at a position if and only if a route of at most 126 edges, each the first of its node that matches, spells the symbol, visits no node twice and ends there |
| `TrieRoutes.WalkMeansRoute` | app/src/main/cpp/Dobby/builtin-plugin/SymbolResolver/macho/dobby_symbol_resolver.cc:121-180 | whatever the walk finds was reached by such a route |
| `TrieRoutes.RouteMeansWalk` | app/src/main/cpp/Dobby/builtin-plugin/SymbolResolver/macho/dobby_symbol_resolver.cc:121-180 | every such route is taken |
| `ExportTrie.IterateExportedSymbol` | app/src/main/cpp/Dobby/builtin-plugin/SymbolResolver/macho/dobby_symbol_resolver.cc:232-245 | the resolver returns flags and value of the node found, and nothing for a missing symbol or a re-export |
| `Uleb128.ReadUleb128` | app/src/main/cpp/Dobby/builtin-plugin/SymbolResolver/macho/dobby_symbol_resolver.cc:51-72 | the reader returns the number modulo 2^64 and the position after its last byte, for numbers of any length |
| `Uleb128.OrIsSum` | app/src/main/cpp/Dobby/builtin-plugin/SymbolResolver/macho/dobby_symbol_resolver.cc:59-66 | the bits of a slice do not overlap those read before, so the bitwise or is a sum |
| `Uleb128.RoundTrip` | app/src/main/cpp/Dobby/builtin-plugin/SymbolResolver/macho/dobby_symbol_resolver.cc:51-72 | every number that is encoded is read back, in any surroundings |
| `WorkerHandOff.HandOffSafe` | app/src/main/cpp/threads-lib.cpp:84-171 | over every interleaving of any number of coordinators: at most one worker is between creation and unlock, a worker reads its own number, the block is read only while allocated, written only when nobody will read it, and freed only when all workers are done |
| `WorkerHandOff.RunKeepsInv` | app/src/main/cpp/threads-lib.cpp:84-171 | every reachable state satisfies the invariant that ties the mutex to the newest worker or its coordinator |
| `WorkerHandOff.NoDeadlock` | app/src/main/cpp/threads-lib.cpp:117-160 | until all coordinators are done some thread can move, and at the end the mutex is unlocked |
| `WorkerHandOff.RunsFinish` | app/src/main/cpp/threads-lib.cpp:117-160 | no run is longer than the number of steps left at its start, and a run that cannot go on has finished every call |
| `WorkerHandOff.StepDecreases` | app/src/main/cpp/threads-lib.cpp:67-160 | every step of every thread uses up one of the steps left |
| `WorkerHandOff.MessagesInOrder` | app/src/main/cpp/threads-lib.cpp:67-82 | when a call is done its iteration messages are worker 0's in order, then worker 1's, and so on, for exactly the requested threads and iterations, whatever other calls did |
| `WorkerHandOff.ReturnedInOrder` | app/src/main/cpp/threads-lib.cpp:141-160 | when a call is done it has reported workers 0 to threads - 1 as returned, once each and in order; at any time, no worker sends after its own report, and after the first report only the last worker sends |
| `WorkerHandOff.ReportBeforeLast` | app/src/main/cpp/threads-lib.cpp:141-160 | not every message of a call comes before its first report: with two workers the second can send after the first is reported |
| `HookLifecycle.RunKeepsOverlay` | app/src/main/cpp/Dobby/source/InterceptRouting/InterceptRouting.cpp:12-70 | over every run of hooks and destructions in which a hook is destroyed after the newer ones that overlap it, memory is the original overlaid with exactly the live trampolines, newest on top |
| `HookLifecycle.DestroyedRestores` | app/src/main/cpp/Dobby/source/dobby.cpp:21-36 | when every hook has been destroyed every byte is the original one, also where a function was hooked several times over or hooks overlapped |
| `HookLifecycle.ClearWhenDisjoint` | app/src/main/cpp/Dobby/source/dobby.cpp:21-36 | hooks on ranges that are disjoint or start together can be destroyed in any order |
| `HookLifecycle.RestoredExact` | app/src/main/cpp/Dobby/source/dobby.cpp:21-36 | over every run that destroys all its hooks, in any order and with any overlap: a byte is the original one if and only if no hook was destroyed over it or the one destroyed last over it had saved the original byte |
| `HookLifecycle.DestroyExact` | app/src/main/cpp/Dobby/source/dobby.cpp:21-36 | one destruction in any order leaves the overlay of the rest if and only if, wherever a newer trampoline reaches into its range, memory shows the byte that was saved |
| `HookLifecycle.OverlapLeaks` | app/src/main/cpp/Dobby/source/dobby.cpp:21-36 | of two overlapping hooks the older destroyed first: a piece of its trampoline stays for good |
| `HookLifecycle.DestroyKeepsInv` | app/src/main/cpp/Dobby/source/dobby.cpp:21-36 | destroying the newest hook of an address uncovers exactly what was below it and disturbs no other hook |
| `HookLifecycle.InstallKeepsInv` | app/src/main/cpp/Dobby/source/InterceptRouting/InterceptRouting.cpp:35-70 | a new hook saves what is below it and covers exactly its trampoline |
| `HookLifecycle.UnrelocatedHook` | app/src/main/cpp/Dobby/source/InterceptRouting/InterceptRouting.cpp:26-28 | a hook installed without relocated code is undone by destruction if and only if its trampoline equals the bytes it replaced |
| `HookLifecycle.UnrelocatedHookLeaks` | app/src/main/cpp/Dobby/source/InterceptRouting/Routing/FunctionInlineReplace/FunctionInlineReplaceExport.cc:30-41 | a function hooked without relocated code stays patched after destruction |
| `HookLifecycle.InstallExact` | app/src/main/cpp/Dobby/source/InterceptRouting/Routing/FunctionInlineReplace/FunctionInlineReplaceExport.cc:7-41 | in every state an installation adds its hook on top and shows its trampoline, unless the address is null or the newest hook on it has the same replacement: then nothing changes |
| `HookLifecycle.SecondInstall` | app/src/main/cpp/Dobby/source/InterceptRouting/Routing/FunctionInlineReplace/FunctionInlineReplaceExport.cc:15-23 | of two installations on an address without hooks, the second adds a hook if and only if it has another replacement |
| `HookLifecycle.DestroyNewest` | app/src/main/cpp/Dobby/source/dobby.cpp:21-36 | in every state a destruction takes out the newest hook on the address and writes back what it saved, or changes nothing when there is none |
| `HookLifecycle.Dobby.DobbyHook` | app/src/main/cpp/Dobby/source/InterceptRouting/Routing/FunctionInlineReplace/FunctionInlineReplaceExport.cc:7-42 | the call is a step of the state machine, and succeeds exactly when a hook is added |
| `HookLifecycle.Dobby.DobbyDestroy` | app/src/main/cpp/Dobby/source/dobby.cpp:21-36 | the call is a step of the state machine, and succeeds exactly when a hook is removed |
| `HookedFunction.CallReachesReplacement` | app/src/main/cpp/Dobby/source/InterceptRouting/Routing/FunctionInlineReplace/FunctionInlineReplaceExport.cc:7-42 | calling a hooked A64 function reaches the replacement, changing X17 only, unless the two pages are exactly 4 GiB apart |
| `HookedFunction.RelocatedEntryBehaves` | app/src/main/cpp/Dobby/source/InterceptRouting/InterceptRouting.cpp:12-40 | with the function patched, calling the relocated entry does what the unpatched function does up to the first exit from the block, and the code after the block is the same |
| `HookedFunction.HookedWords` | app/src/main/cpp/Dobby/source/InterceptRouting/InterceptRouting.cpp:62-70 | after the patch memory holds the trampoline and the relocated code, and every word outside the block is as before |
| `HookedFunction.DestroyedIsOriginal` | app/src/main/cpp/Dobby/source/dobby.cpp:21-36 | hooking and destroying brings back every byte and the registry |
| `HookRegistry.Interceptor.FindHookEntry` | app/src/main/cpp/Dobby/source/Interceptor.cpp:15-43 | the entry found is the one added last for the address, and none is found exactly when there is none |
| `HookRegistry.Interceptor.AddHookEntry` | app/src/main/cpp/Dobby/source/Interceptor.cpp:45-50 | the list stays a well-formed circle and the sequence of entries gains the new one in front |
| `HookRegistry.Interceptor.RemoveHookEntry` | app/src/main/cpp/Dobby/source/Interceptor.cpp:52-56 | the list stays a well-formed circle and loses exactly the entry added last for the address |
| `HookRegistry.Interceptor.Unlink` | app/src/main/cpp/Dobby/source/include/list_structure.h:34-43 | unlinking a node keeps the circle well-formed and every other node in its order |
| `HookRegistry.Interceptor.GetHookEntryCount` | app/src/main/cpp/Dobby/source/Interceptor.cpp:58-71 | the count is the number of entries |
| `CodeArena.ChunksDisjoint` | app/src/main/cpp/Dobby/source/MemoryAllocator/MemoryArena.cc:11-61 | over every run of requests of one byte to one page, every chunk ever given lies inside its page, any two are disjoint, and each cursor is its base plus the lengths of its chunks |
| `CodeArena.GivenIsRecorded` | app/src/main/cpp/Dobby/source/MemoryAllocator/MemoryArena.cc:48-57 | the chunk given is recorded in a page of the permission asked for, and no other record changes |
| `CodeArena.ServedExactly` | app/src/main/cpp/Dobby/source/MemoryAllocator/MemoryArena.cc:18-57 | over every run, a further request is served from the first page of its permission whose recorded chunks leave more than its size free, right behind them; a page is mapped only when there is none, and only failing that is refused |
| `CodeArena.ChunkLeavesPage` | app/src/main/cpp/Dobby/source/MemoryAllocator/MemoryArena.cc:29-57 | a chunk lies inside its page unless the request is larger than the page mapped for it, and then it does not |
| `CodeArena.OversizedOverlaps` | app/src/main/cpp/Dobby/source/MemoryAllocator/MemoryArena.cc:29-57 | a request of 5000 bytes on pages of 4096 gets a chunk that the next one overlaps |
| `CodeArena.ChunksAligned` | app/src/main/cpp/Dobby/source/MemoryAllocator/MemoryArena.cc:48-57 | the arena does not align, but serving multiples of n from aligned pages keeps every chunk, over every run, at a multiple of n |
| `CodeArena.MemoryArena.AllocateChunk` | app/src/main/cpp/Dobby/source/MemoryAllocator/MemoryArena.cc:11-61 | the first page with room serves the request, otherwise a new page; the request fails only without one |
| `NearArena.TriesNear` | app/src/main/cpp/Dobby/source/MemoryAllocator/NearMemoryArena.cc:67-144 | for every layout, position and range of more than a page, every address that is asked for is not null and strictly within range, also as compared with wrap-around |
| `NearArena.SearchNearBlankPage` | app/src/main/cpp/Dobby/source/MemoryAllocator/NearMemoryArena.cc:67-144 | the search returns the first address granted, of those it asks for in order, or 0 |
| `NearGaps.TriesExact` | app/src/main/cpp/Dobby/source/MemoryAllocator/NearMemoryArena.cc:80-142 | what is asked for, in order, by the mapped regions alone: the lowest page under each of the two guards, then the gap before the first region in the window and the gap after every region in the window that the next one does not follow at once |
| `NearGaps.TriedExactly` | app/src/main/cpp/Dobby/source/MemoryAllocator/NearMemoryArena.cc:80-142 | an address is asked for if and only if it is one of these |
| `NearGaps.NothingGranted` | app/src/main/cpp/Dobby/source/MemoryAllocator/NearMemoryArena.cc:80-143 | the search returns 0 if and only if every address it asks for is refused |
| `NearGaps.MinPageExact` | app/src/main/cpp/Dobby/source/MemoryAllocator/NearMemoryArena.cc:69-70 | the lowest page is the page boundary within one page above the lower end of the range |
| `NearGaps.MaxPageExact` | app/src/main/cpp/Dobby/source/MemoryAllocator/NearMemoryArena.cc:69-71 | the highest page is the page boundary between one and two pages below the upper end |
| `NearArena.AddrSaturates` | app/src/main/cpp/Dobby/source/MemoryAllocator/NearMemoryArena.cc:46-52 | the address helpers saturate at both ends of the address space, except for an offset of zero |
| `NearArena.PageSaturates` | app/src/main/cpp/Dobby/source/MemoryAllocator/NearMemoryArena.cc:54-64 | the page helpers stay put at both ends of the address space |
| `NearArena.FreshPageServes` | app/src/main/cpp/Dobby/source/MemoryAllocator/NearMemoryArena.cc:221-229 | a page just found serves the request if and only if the request is smaller than a page, so larger requests search again for as long as pages are granted |
| `NearArena.ServesExactly` | app/src/main/cpp/Dobby/source/MemoryAllocator/NearMemoryArena.cc:221-229 | a page serves a request if and only if it has the permission, its recorded chunks leave more than the size free, and the place behind them is near |
| `NearArena.NearExactly` | app/src/main/cpp/Dobby/source/MemoryAllocator/NearMemoryArena.cc:223-223 | near means a distance below the range either way round the address space |
| `NearArena.NearMemoryArena.FindOrMapPage` | app/src/main/cpp/Dobby/source/MemoryAllocator/NearMemoryArena.cc:218-249 | for requests below a page exactly one search is made if no page serves and the search finds one; larger requests map a page per search, each with the layout of its time, until one finds nothing, and are never served; the pages found are appended, and the first page that serves is chosen |
| `NearArena.NearMemoryArena.AllocateChunk` | app/src/main/cpp/Dobby/source/MemoryAllocator/NearMemoryArena.cc:210-267 | a chunk starts strictly within range; it is cut from the first page that serves, if one does or can be mapped, and no other page changes; otherwise, for code, it comes from the blank-byte search of the platform, if that finds one |
| `NearArena.SearchNearBlankChunkArm` | app/src/main/cpp/Dobby/source/MemoryAllocator/NearMemoryArena.cc:157-185 | on Arm the result is the first occurrence of the needle of its region, three bytes longer with every region searched, rounded up to a word within range, and 0 exactly when there is none |
| `NearArena.RoundedInside` | app/src/main/cpp/Dobby/source/MemoryAllocator/NearMemoryArena.cc:168-174 | the chunk at the rounded address lies within the bytes found if and only if the address was not aligned already or an earlier region was searched in vain |
| `NearArena.RoundedOverruns` | app/src/main/cpp/Dobby/source/MemoryAllocator/NearMemoryArena.cc:168-174 | a run found at 0x1000 for a chunk of eight bytes is overrun by one byte |
| `NearArena.SearchNearBlankChunk` | app/src/main/cpp/Dobby/source/MemoryAllocator/NearMemoryArena.cc:149-186 | other than on Arm the result is the first run of blank bytes of a readable region wholly within range, and 0 exactly when there is none |
| `BlankSearch.ExactlyUniform` | app/src/main/cpp/Dobby/source/MemoryAllocator/NearMemoryArena.cc:19-39 | the one-pass search finds the first occurrence in every haystack if and only if all bytes of the needle are equal |
| `BlankSearch.Memmem` | app/src/main/cpp/Dobby/source/MemoryAllocator/NearMemoryArena.cc:19-39 | for a needle of equal bytes, such as the blank one, the result is the first window if there is one and NULL otherwise |
| `BlankSearch.MissesShifted` | app/src/main/cpp/Dobby/source/MemoryAllocator/NearMemoryArena.cc:19-39 | any other needle is missed after one more copy of its first byte |
| `GrowingStorage.EmitAll` | app/src/main/cpp/Dobby/source/MemoryAllocator/CodeBuffer/CodeBufferBase.cc:11-50 | any run of emitters, across any number of reallocations, leaves the concatenation of what was emitted |
| `GrowingStorage.CodeBuffer.EmitBuffer` | app/src/main/cpp/Dobby/source/MemoryAllocator/CodeBuffer/CodeBufferBase.cc:43-50 | the bytes are appended and nothing before them changes |
| `GrowingStorage.CodeBuffer.EnsureCapacity` | app/src/main/cpp/Dobby/external/xnucxx/LiteMutableBuffer.cc:14-45 | growing keeps the contents and makes room for at least what was asked |
| `GrowingStorage.CodeBuffer.RewriteAddr` | app/src/main/cpp/Dobby/source/MemoryAllocator/CodeBuffer/code-buffer-arm.cc:20-27 | four bytes are replaced and nothing else |
| `GrowingStorage.CodeBuffer.LoadWord` | app/src/main/cpp/Dobby/source/MemoryAllocator/CodeBuffer/code-buffer-arm.cc:16-18 | the word loaded is the one that the contents hold at the offset |
| `GrowingStorage.CodeBuffer.Copy` | app/src/main/cpp/Dobby/source/MemoryAllocator/CodeBuffer/CodeBufferBase.cc:5-9 | the copy has the same contents in memory of its own |
| `GrowingStorage.MutableArray.EnsureCapacity` | app/src/main/cpp/Dobby/external/xnucxx/LiteMutableArray.cc:38-70 | growing keeps the contents and moves to the next multiple of 64 above what is asked for; failing changes nothing |
| `GrowingStorage.MutableArray.PushObject` | app/src/main/cpp/Dobby/external/xnucxx/LiteMutableArray.cc:20-28 | the object is appended, unless memory is needed and refused, and then nothing changes |
| `GrowingStorage.MutableArray.Iterate` | app/src/main/cpp/Dobby/external/xnucxx/LiteMutableArray.cc:72-91 | iteration meets every object once, in order |
| `VariableCache.RunRefinesMap` | app/src/main/cpp/Dobby/external/misc-helper/variable_cache.c:26-59 | any run of cache_set from an empty cache keeps names distinct, and cache_get gives the last value set or 0 |
| `VariableCache.LoadedLookup` | app/src/main/cpp/Dobby/external/misc-helper/variable_cache.c:92-118 | loading a saved list into any cache: for a name in the list the value of its last entry wins, every other lookup is as before |
| `VariableCache.ReloadExact` | app/src/main/cpp/Dobby/external/misc-helper/variable_cache.c:66-118 | saving a cache and loading it into an empty one preserves the lookup of a name if and only if the name is absent or its first and last entry agree |
| `VariableCache.ReloadDistinct` | app/src/main/cpp/Dobby/external/misc-helper/variable_cache.c:66-118 | so every lookup of a cache with distinct names, as runs of cache_set leave it, is preserved |
| `VariableCache.ReloadChanges` | app/src/main/cpp/Dobby/external/misc-helper/variable_cache.c:107-114 | a cache that was loaded over an existing name changes its value when it is saved and loaded again |
| `VariableCache.LoadSaved` | app/src/main/cpp/Dobby/external/misc-helper/variable_cache.c:66-118 | loading what was saved gives back the entries, whatever header was read before |
| `VariableCache.LoadRecord` | app/src/main/cpp/Dobby/external/misc-helper/variable_cache.c:92-118 | any record whose fields fit, also one that the cache would not write: the key ends at its first zero byte or with its field, and a short value counts as little-endian |
| `VariableCache.Cache.UnserializedFromFile` | app/src/main/cpp/Dobby/external/misc-helper/variable_cache.c:92-118 | loading any file whose fields fit their buffers, truncated or not, puts its entries, reversed, in front of those present |
| `VariableCache.Cache.SerializedToFile` | app/src/main/cpp/Dobby/external/misc-helper/variable_cache.c:66-90 | the file is the records of the entries in list order |
| `VariableCache.RecordFields` | app/src/main/cpp/Dobby/external/misc-helper/variable_cache.c:76-84 | the fields of a written record are read back, whatever follows it |
| `VariableCache.Cache.CacheGet` | app/src/main/cpp/Dobby/external/misc-helper/variable_cache.c:53-59 | the value of the first entry with the name, or 0 |
| `VariableCache.Cache.CacheSet` | app/src/main/cpp/Dobby/external/misc-helper/variable_cache.c:38-51 | the entry of the name is updated in place, or a new one goes in front |

## Left out

- IT blocks, TBB/TBH and other T32 readers of the PC that the relocator copies: the theorem excludes them.
- A32 (ARM-state) relocation: conditional and byte literal loads, branches, and the A32 side of the label fix-up.
- A64 instructions that read or record the PC in ways that the relocator does not know, such as authenticated calls and supervisor calls: the theorem excludes them.
- A64 SIMD literal loads: the relocator treats them as integer loads; their meaning is not modelled.
- Debug builds, in which the A64 relocator emits extra NOPs.
- Loads and stores that touch either copy of the code, and code that modifies itself.
- Finalisation: allocation of the executable chunk, permission changes and cache flushing; the theorems take the code as placed at a base (word-aligned for T32, which an arena serving whole words from aligned pages guarantees).
- The x86 instruction decoder: what the relocators rely on (at most 15 bytes, the rewritten field has 32 bits and comes last or right before the immediate) is an assumption on the parameter. A chunk passed in by the caller instead of being allocated is not modelled.
- Reads past the end of a trie or a ULEB128 number: the code has no bounds check there, the model stops with `Past`.
- `read_sleb128`, the load-command loop of `iterate_exported_symbol`, symbol tables, and the other resolvers.
- Worker runs in which a pthread or JNI call fails, negative thread or iteration counts, and `nativeFree` running concurrently.
- `DobbyDestroy` on 32-bit ARM, where lookup and removal use different addresses.
- Disjointness of near pages from existing mappings: the pages are mapped at fixed addresses without a sufficient check.
- NearArena.SearchNearBlankPage: with a single mapped region the source reads a second one that is not there; the model takes whatever is read as a parameter.
- NearArena.SearchNearBlankChunk: the test for a Mach-O header, which skips a region on Apple platforms.
- NearArena.NearMemoryArena.AllocateChunk: for requests of a page or more, termination rests on the system refusing some search.
- VariableCache.Cache.UnserializedFromFile: files with a length or key that does not fit its buffer are excluded; the source writes past the buffer there.
- Names of 128 bytes or more in the variable cache, which do not fit the key buffer.
- Growth of the byte buffer when the allocation fails, or beyond 32 bits: the source then writes past the block.
- Near-branch trampolines, closures, the import-table and syscall plugins, the JNI demos and the Java side.
