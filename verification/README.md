# Verification of detour-rs

detour-rs redirects functions by rewriting machine code in place.  It copies the
first instructions of a function (the prolog) into a trampoline, relocating
whatever depends on the program counter, then overwrites the prolog with a jump
and undoes that on demand.  This project models that machinery in Dafny and
proves that it does what it is for: the trampoline means what the prolog meant,
the patch leads to the detour, and switching detours on and off never leaves
memory in a state nobody asked for.

`dafny verify dfyconfig.toml` checks everything; on a busy machine add
`--verification-time-limit 120`.

## How it is laid out

| files | subject |
|---|---|
| `Machine`, `Prolog`, `Emitter`, `Patching`, `Allocation` | bytes, words and memory; what all builders ask about addresses; `CodeEmitter`; writing a patch and taking it back; emitting into allocated memory |
| `RiscvIsa`, `RiscvThunk`, `RiscvTrampoline`, `RiscvBuild`, `RiscvLayout` | RV64I as a small-step machine, the thunk encoders, the builder, what it accepts and where it stops, and what a finished build guarantees |
| `RiscvRun`, `RiscvSimulation`, `RiscvTheorem`, `RiscvLimits` | runs through a region, the case for each instruction, the simulation theorems, and the exact limits of their hypotheses |
| `RiscvPatcher`, `RiscvDetour` | the AUIPC/JALR patch, its reach, chaining, and a whole detour |
| `X86Isa`, `X86Thunk`, `X86Trampoline`, `X86Build`, `X86Layout`, `X86Simulation`, `X86Theorem`, `X86Limits`, `X86Example`, `X86Patcher`, `X86Detour` | the same for x86-64, over an abstract instruction decoder |
| `A64Isa`, `A64Thunk`, `A64Trampoline`, `A64Build`, `A64Theorem`, `A64Limits`, `A64Patcher`, `A64Detour` | the same for AArch64, whose prolog is a single word |
| `DetourProtocol`, `NestedDetours` | `Detour::toggle` under the pool lock, byte by byte and thread by thread; several detours on one target |
| `Search`, `Proximity`, `Construction` | the search for free pages, the allocator on top of it, and `Detour::new` on top of that |
| `StaticDetour` | `initialize` and `set_detour` interleaved at their atomic operations |

Builders, emitters, patchers, iterators and the allocator are classes whose
methods have the source's loops; each is proved against a function or state
machine (`BuildFrom`, `Emission`, `NextFrom`, `Allocated`, `Next`), and the
lemmas are about those.  Machine integers are `int` with the wrap-around written
out.  A panic is a `None`.

## Reading the simulation theorems

A processor is a value: RISC-V and AArch64 processors have the real decoder and
an arbitrary function for every instruction relocation does not look into; an
x86-64 processor is an arbitrary decoder that is self-delimiting and knows the
encodings the thunks use.  An address that is not mapped traps.  A run goes
through a region and leaves it when the program counter does, or with a computed
jump.  `Answers` compares a run of the prolog, in memory as it was before
patching, with a run of the trampoline in memory that may differ at the
addresses `d` (the patch): either the prolog has not left yet and neither has
the trampoline, or both trap, or both have left with the same program counter,
registers (but for the scratch register the thunks use) and memory.  What the
theorems ask of the environment is `Tame`: along the run nothing overwrites the
prolog or the trampoline and nothing depends on the addresses in `d`.

What they ask of the code is `Relocatable`, instruction by instruction
(`SiteOk`).  Each hypothesis, and what is known without it:

| architecture | hypothesis | without it |
|---|---|---|
| RISC-V | no link register | right exactly at one address: `RiscvLimits.FarLinkKeptIff`, `CopiedLinkKeptIff` |
| RISC-V | no AUIPC into x0 | right exactly when address 0 is mapped: `AuipcZeroKeptIff` |
| RISC-V | a backward internal transfer crosses only blocks that did not grow | lands exactly then: `TransferLandsIff`; an accepted prolog that breaks it: `BackwardBranchBroken` |
| RISC-V | no unconditional forward jump stops short of its own target | leaves the trampoline: `StopsShortEscapes`; an accepted prolog: `ForwardJumpBroken` |
| RISC-V | internal targets are on word boundaries | what is fetched there is right exactly when two bytes behind it happen to match: `OffBoundaryIff`; an accepted prolog: `OffBoundaryBuilds` |
| x86-64 | the decode ended with `finished` | control runs off the end: `X86Limits.UnfinishedRunsOff`; an accepted prolog: `UnfinishedExample` |
| x86-64 | conditional jumps are unprefixed | right exactly when the prefix happens to match: `PrefixedConditionKeptIff` |
| x86-64 | a RIP-relative operand lies outside the copied prolog | right exactly when the copy was not moved: `CopiedOperandKeptIff` |
| x86-64 | a backward internal jump crosses only blocks of unchanged size | lands exactly when the distance is kept: `TransferLandsIff`; an accepted prolog that breaks it: `BackwardJumpBroken` |
| x86-64 | internal targets are on instruction boundaries | the bytes there are right exactly when those behind the block happen to match: `OffBoundaryIff`; an accepted prolog: `OffBoundaryBuilds` |
| x86-64 | the displacement of a RIP-relative operand is the last four bytes | with an immediate behind it the bytes are right exactly when the two happen to match: `TrailingImmediateKeptIff`; an instruction that breaks it: `TrailingImmediateBroken` |
| AArch64 | the word is no BL | the link is right exactly at one address, and the call returns into its own literal: `A64Limits.CallLinkKeptIff`, `CallReturnsIntoLiteral` |
| AArch64 | the word is no BLR | only the link differs, and leads back through the continuation: `CopiedCallResumes` |
| AArch64 | the word is no B.cond | right exactly when it is not taken or was not moved: `CopiedConditionKeptIff` |
| AArch64 | the word is no branch with pointer authentication and no BC.cond | not studied: the source copies them |

The margin of five is what makes the x86-64 guard enough, and it is exact: see
`X86Layout.GuardSuffices`, `TargetNotCutOff`, `BoundaryGuardSuffices`,
`GuardFailsBeyond` and `CutOffBeyond`.  `RiscvLimits.RelocatableExample` and
`X86Example.RelocatableExample` meet all hypotheses.

## Model

| member | source | states |
|---|---|---|
| `RiscvTheorem.TrampolineSimulates` | `src/arch/riscv/trampoline/mod.rs:43-156` | For every accepted prolog, base address, margin and state, whatever internal branches are taken, the trampoline traps, stays or leaves with the prolog: same pc, memory and registers except x6 |
| `RiscvTheorem.TrampolineOnlySimulates` | `src/arch/riscv/trampoline/mod.rs:43-156` | The converse: what the trampoline does within some number of steps the prolog does within as many |
| `RiscvTheorem.SameMemorySimulates` | `src/arch/riscv/trampoline/mod.rs:43-156` | In one memory it is enough that the code bytes stay in place; memory at the exit is then equal |
| `RiscvTheorem.ForwardLeaves` | `src/arch/riscv/trampoline/mod.rs:43-156` | If internal transfers only go forward, both runs leave or trap, the prolog within one step per word |
| `RiscvTheorem.SimulateStep` | `src/arch/riscv/trampoline/mod.rs:71-156` | One prolog step is matched by finitely many trampoline steps that reach the corresponding instruction or the same exit |
| `RiscvLayout.InternalTarget` | `src/arch/riscv/trampoline/mod.rs:47-66` | The target of an internal transfer is among the disassembled bytes if and only if the transfer is not an unconditional forward jump outside every branch span |
| `RiscvLayout.ForwardSpan` | `src/arch/riscv/trampoline/mod.rs:53-57` | No instruction between a forward internal transfer and its target changes size |
| `RiscvLayout.DisplacementKept` | `src/arch/riscv/trampoline/mod.rs:53-57` | Two blocks are as far apart as their words if and only if no block between them grew |
| `RiscvLayout.ForwardLayout` | `src/arch/riscv/trampoline/mod.rs:47-66` | A forward internal transfer keeps its displacement in the trampoline |
| `RiscvLayout.BuildIsAccepted` | `src/arch/riscv/trampoline/mod.rs:43-69` | A successful build accepted every word under the guard, went on exactly while it had to, and ends in the continuation jump if and only if the last word did not finish it |
| `RiscvLayout.EmissionOfBlocks` | `src/pic/emitter.rs:16-41` | Blocks the builder makes never trip the size assertion, and their code is as long as the blocks |
| `RiscvLimits.FarLinkKeptIff` | `src/arch/riscv/trampoline/mod.rs:103-112` | An expanded linking JAL reaches its target, but its link register is right only if the block lies eight bytes before the original |
| `RiscvLimits.CopiedLinkKeptIff` | `src/arch/riscv/trampoline/mod.rs:105-125` | A copied linking jump leaves the right link if and only if it was not moved |
| `RiscvLimits.AuipcZeroKeptIff` | `src/arch/riscv/trampoline/mod.rs:128-138` | The expansion of AUIPC x0 is a no-op if address 0 is mapped and traps otherwise |
| `RiscvLimits.TransferLandsIff` | `src/arch/riscv/trampoline/mod.rs:53-57` | A copied transfer in either direction lands on its block if and only if no block it crosses grew |
| `RiscvLimits.StopsShortEscapes` | `src/arch/riscv/trampoline/mod.rs:93-99` | A jump that stops short is the last instruction and leads behind the trampoline |
| `RiscvLimits.BackwardBranchBroken` | `src/arch/riscv/trampoline/mod.rs:47-66` | AUIPC followed by a branch back to it is accepted, and the branch lands inside the expanded block |
| `RiscvLimits.ForwardJumpBroken` | `src/arch/riscv/trampoline/mod.rs:93-99` | A first word that jumps to the second is accepted alone, with nothing behind it |
| `RiscvLimits.OffBoundaryBuilds` | `src/arch/riscv/trampoline/mod.rs:140-148` | A branch into the middle of a word is accepted and copied |
| `RiscvLimits.OffBoundaryIff` | `src/arch/riscv/trampoline/mod.rs:93-148` | In every accepted prolog a forward transfer into the middle of a word lands in the middle of its copy, and what is fetched there is the same if and only if the two bytes behind the word are those the next block starts with |
| `RiscvLimits.RelocatableExample` | `src/arch/riscv/trampoline/mod.rs:43-69` | A prolog with an internal branch and an instruction that grows meets all hypotheses, at every address |
| `RiscvBuild.BuildRefusedIff` | `src/arch/riscv/trampoline/mod.rs:43-81` | A build fails if and only if it comes to a word that is compressed, or that grows below the farthest destination of an earlier internal transfer |
| `RiscvBuild.BuildStopsWhere` | `src/arch/riscv/trampoline/mod.rs:43-69` | The words disassembled are exactly those up to the first jump without a link that no earlier transfer leads over, or to the margin; the continuation jump is there if and only if no such jump ended it |
| `RiscvBuild.NothingBehind` | `src/arch/riscv/trampoline/mod.rs:93-125` | Nothing behind such a jump is disassembled |
| `RiscvTrampoline.Builder.Build` | `src/arch/riscv/trampoline/mod.rs:43-69` | The loop succeeds exactly when the recursive specification does, with its blocks, prolog size and thunks |
| `RiscvTrampoline.Builder.ProcessInstruction` | `src/arch/riscv/trampoline/mod.rs:72-156` | The block, `finished` and branch address of every word |
| `RiscvTrampoline.Builder.TrackBranch` | `src/arch/riscv/trampoline/mod.rs:158-164` | The farthest destination is kept |
| `RiscvTrampoline.Builder.FinishIfFull` | `src/arch/riscv/trampoline/mod.rs:59-66` | The continuation jump is added once, when the margin is covered |
| `RiscvTrampoline.ProcessMeans` | `src/arch/riscv/trampoline/mod.rs:72-156` | The builder refuses exactly the compressed words; what it does with every other word is said of the instruction that the RISC-V manual decodes it to |
| `RiscvTrampoline.DecodeJMeaning` | `src/arch/riscv/trampoline/mod.rs:172-180` | decode_j_type is the J immediate of section 2.3 for every word |
| `RiscvTrampoline.DecodeBMeaning` | `src/arch/riscv/trampoline/mod.rs:183-191` | decode_b_type is the B immediate for every word |
| `RiscvThunk.JTypeRoundTrip` | `src/arch/riscv/thunk/mod.rs:122-130` | Every even immediate that fits survives encode_j_type and decoding |
| `RiscvThunk.BTypeRoundTrip` | `src/arch/riscv/thunk/mod.rs:134-144` | Every even immediate that fits survives encode_b_type and decoding |
| `RiscvThunk.JmpAbsRuns` | `src/arch/riscv/thunk/mod.rs:93-114` | The emitted bytes reach any destination from any address in three steps, changing x6 and the link register only |
| `RiscvThunk.LiAbsRuns` | `src/arch/riscv/thunk/mod.rs:42-63` | The emitted bytes load the value in two steps and change nothing else |
| `RiscvThunk.SkipWordDecodes` | `src/arch/riscv/thunk/mod.rs:69-87` | The first word of a far branch is the opposite branch over the jump |
| `RiscvPatcher.SplitOffset` | `src/arch/riscv/patcher.rs:57-65` | hi20 and lo12 add up to the offset, or miss it by 2^32 in its last 2 KiB; lo12 always fits |
| `RiscvPatcher.LandingExact` | `src/arch/riscv/patcher.rs:57-76` | The patch leads to its destination if and only if the offset is in [-2^31 - 2^11, 2^31 - 2^11) |
| `RiscvPatcher.PatchReachesIff` | `src/arch/riscv/patcher.rs:57-76` | Running the patch takes two steps, changes x6 only, and reaches an even destination exactly within that range |
| `RiscvPatcher.NoRelayReaches` | `src/arch/riscv/meta.rs:16-25` | Without a relay the patch reaches the detour if and only if the offset is below 2^31 - 2^11 |
| `RiscvPatcher.RelayIff` | `src/arch/riscv/meta.rs:16-25` | There is a relay if and only if the detour is neither at most 2^31 - 1 bytes below the target nor less than that above it |
| `RiscvPatcher.AreaIsSpare` | `src/arch/riscv/patcher.rs:37-54` | There is a patch area if and only if the prolog has two words, or one and a mapped word of padding behind it |
| `RiscvPatcher.ExitsAvoidPatch` | `src/arch/riscv/patcher.rs:37-54` | No static exit of a trampoline, nor its continuation, leads into the eight patched bytes, for every word sequence |
| `RiscvPatcher.BuildOverPatch` | `src/arch/riscv/trampoline/mod.rs:115-138` | A trampoline built over a patched prolog is a load of the patch's x6 and the patch's JALR |
| `RiscvPatcher.ChainReaches` | `src/arch/riscv/patcher.rs:57-76` | And its emitted code goes where the patch went |
| `RiscvDetour.NewMakes` | `src/arch/detour.rs:21-60` | Wherever the allocator puts relay and trampoline, `new` leaves the detour made, the code at the target untouched and the allocator consistent |
| `RiscvDetour.CallReachesDetour` | `src/arch/detour.rs:21-113` | With the detour on, calling the target arrives at the relay, or at the detour without one, if and only if that is less than 2^31 - 2^11 ahead, and then reaches the detour with registers but x6 and memory unchanged |
| `RiscvDetour.RelayBeyondReach` | `src/arch/riscv/meta.rs:13-25` | With one free page below 2^31 + 2^16 `new` succeeds, and the detour it makes is never reached: on every processor a call of the target does not arrive at the relay |
| `RiscvDetour.TrampolineEitherWay` | `src/arch/detour.rs:21-113` | The trampoline does what the unpatched function would do, with the detour on or off |
| `RiscvDetour.TogglesEnd` | `src/arch/detour.rs:87-113` | After any sequence of toggles memory is as `new` left it or shows the patch, and the flag says which |
| `RiscvDetour.ExitsStayOut` | `src/arch/riscv/patcher.rs:37-54` | The trampoline of a detour never exits into its own patch |
| `X86Theorem.TrampolineSimulates` | `src/arch/x86/trampoline/mod.rs:65-235` | For every decoded stream, a finished trampoline traps, stays or leaves with the prolog: same pc, registers, flags and memory |
| `X86Theorem.TrampolineOnlySimulates` | `src/arch/x86/trampoline/mod.rs:65-235` | And does nothing the prolog does not do |
| `X86Theorem.SameMemorySimulates` | `src/arch/x86/trampoline/mod.rs:65-235` | In one memory it is enough that the code bytes stay in place; the exit state is then equal, memory included |
| `X86Theorem.ForwardLeaves` | `src/arch/x86/trampoline/mod.rs:65-235` | If internal jumps only go forward, both runs leave or trap, the prolog within one step per instruction |
| `X86Theorem.Emitted` | `src/arch/x86/trampoline/mod.rs:65-117` | A successful, finished build whose emission is in memory is a program the theorems apply to |
| `X86Theorem.SimulateStep` | `src/arch/x86/trampoline/mod.rs:120-235` | One prolog step is matched by finitely many trampoline steps |
| `X86Layout.GuardSuffices` | `src/arch/x86/trampoline/mod.rs:95-111` | With a margin of at most five, no instruction in any forward internal span changes size although only the last internal target is kept |
| `X86Layout.BoundaryGuardSuffices` | `src/arch/x86/trampoline/mod.rs:95-111` | With destinations on instruction boundaries a margin of six suffices for that as well |
| `X86Layout.TargetNotCutOff` | `src/arch/x86/trampoline/mod.rs:95-111` | And no early finish cuts an earlier target off |
| `X86Layout.CutOffBeyond` | `src/arch/x86/trampoline/mod.rs:95-111` | With every margin above five there is an accepted, finished stream in which an earlier target on a boundary is not disassembled |
| `X86Layout.GuardFailsBeyond` | `src/arch/x86/trampoline/mod.rs:95-111` | With every margin above six there is an accepted, finished stream in which a jump that an earlier one crosses, on its way to a boundary, grows from two bytes to sixteen |
| `X86Layout.ForwardLayout` | `src/arch/x86/trampoline/mod.rs:95-111` | A forward internal jump keeps its displacement in the trampoline |
| `X86Layout.BuildIsAccepted` | `src/arch/x86/trampoline/mod.rs:65-117` | What a successful build says of every instruction, of where it stopped and of its continuation jump |
| `X86Layout.EmissionExactly` | `src/arch/x86/trampoline/mod.rs:170-191` | Emission succeeds if and only if every relocated operand is within two gigabytes of its new place, in an address space that wraps around |
| `X86Simulation.AdjustedOperand` | `src/arch/x86/trampoline/mod.rs:174-186` | The adjusted displacement names the original operand from any address |
| `X86Simulation.RelocateCall` | `src/arch/x86/trampoline/mod.rs:200-203` | A relocated call calls the same function and resumes behind the thunk |
| `X86Limits.CopiedOperandKeptIff` | `src/arch/x86/trampoline/mod.rs:161-164` | An operand inside the prolog is left alone and is then right if and only if the copy was not moved |
| `X86Limits.TrailingImmediateKeptIff` | `src/arch/x86/trampoline/mod.rs:181-186` | When an immediate follows the displacement the relocated bytes are right if and only if the displacement keeps its low bytes, repeats with the immediate's length and ends with it |
| `X86Limits.TrailingImmediateBroken` | `src/arch/x86/trampoline/mod.rs:181-186` | `cmp byte [rip], 1` moved by sixteen bytes becomes another instruction |
| `X86Limits.PrefixedConditionKeptIff` | `src/arch/x86/trampoline/mod.rs:226-234` | Behind a prefix the condition is taken from the prefix, right if and only if its low half is the condition |
| `X86Limits.TransferLandsIff` | `src/arch/x86/trampoline/mod.rs:95-98` | A copied jump in either direction lands on its block if and only if the distance is kept, that is if no crossed block grew when none shrank |
| `X86Limits.BackwardJumpBroken` | `src/arch/x86/trampoline/mod.rs:95-98` | A jump back over an expanded jump is accepted and lands inside the expanded block |
| `X86Limits.UnfinishedRunsOff` | `src/arch/x86/trampoline/mod.rs:83-117` | When the decoder gives up first, the last instruction falls through to the first address behind the code |
| `X86Limits.UnfinishedExample` | `src/arch/x86/trampoline/mod.rs:83-117` | A nop followed by bytes that are no instruction is accepted without a continuation |
| `X86Limits.OffBoundaryBuilds` | `src/arch/x86/trampoline/mod.rs:207-215` | A jump into the middle of an instruction is accepted and copied |
| `X86Limits.OffBoundaryIff` | `src/arch/x86/trampoline/mod.rs:95-111` | In every accepted prolog such a forward jump lands as far into the block; it finds the bytes the prolog has there, up to any length, if and only if the block ends like the instruction, as copies do, and the same bytes follow it |
| `X86Example.IsX64` | `src/arch/x86/thunk/x64.rs:17-78` | There is a processor with the laws asked of one |
| `X86Example.RelocatableExample` | `src/arch/x86/trampoline/mod.rs:65-117` | A prolog with an internal jump and a jump that grows meets all hypotheses, at every address |
| `X86Trampoline.ProcessMeans` | `src/arch/x86/trampoline/mod.rs:120-235` | Of the seven kinds of instruction only loops out of the prolog, and conditional jumps out of it that are all 0F, are refused; a return or a jump out of the prolog finishes exactly when no remembered destination lies ahead; and the block of each |
| `X86Build.BuildRefusedIff` | `src/arch/x86/trampoline/mod.rs:83-102` | A build fails if and only if it comes to an instruction that is refused, or that is resized before the destination of the last internal jump |
| `X86Build.BuildStopsWhere` | `src/arch/x86/trampoline/mod.rs:83-117` | The instructions disassembled are exactly those up to the first that stops the builder or covers the margin; it is finished if and only if there is one, and jumps on if and only if that one did not stop it |
| `X86Build.NothingBehind` | `src/arch/x86/trampoline/mod.rs:112-133` | Nothing behind a return, or a jump out of the prolog, with no remembered destination ahead is disassembled |
| `X86Trampoline.Builder.Build` | `src/arch/x86/trampoline/mod.rs:65-117` | The decode loop succeeds exactly when the recursive specification does, with its blocks, prolog size and thunks |
| `X86Trampoline.Builder.Advance` | `src/arch/x86/trampoline/mod.rs:87-110` | One pass of the loop: the guard, the thunk, the continuation jump |
| `X86Trampoline.Builder.ProcessInstruction` | `src/arch/x86/trampoline/mod.rs:120-139` | The block, `finished` and branch address of every kind of instruction |
| `X86Trampoline.Builder.HandleRipRelative` | `src/arch/x86/trampoline/mod.rs:148-192` | A RIP operand is left alone exactly when it lies in the bytes disassembled so far |
| `X86Trampoline.Builder.HandleRelativeBranch` | `src/arch/x86/trampoline/mod.rs:194-235` | Calls are expanded, internal jumps copied and recorded, far loops refused, far jumps expanded |
| `X86Thunk.JmpAbsRuns` | `src/arch/x86/thunk/x64.rs:41-51` | jmp_abs reaches any destination in one step and changes nothing |
| `X86Thunk.JccAbsRuns` | `src/arch/x86/thunk/x64.rs:65-78` | jcc_abs falls past its block when the condition fails and onto its jump when it holds |
| `X86Thunk.CallAbsRuns` | `src/arch/x86/thunk/x64.rs:17-29` | call_abs calls the destination |
| `X86Thunk.CallAbsResumes` | `src/arch/x86/thunk/x64.rs:17-29` | And on return skips the inline address |
| `X86Thunk.InvertedCond` | `src/arch/x86/thunk/x64.rs:65-72` | 0x71 ^ condition is the opposite condition, for all sixteen and all flags |
| `X86Patcher.HookTemplate` | `src/arch/x86/patcher.rs:88-109` | The template is the jumps and then as many nops as make it as long as the area |
| `X86Patcher.AreaIsSpare` | `src/arch/x86/patcher.rs:52-131` | Every overwritten byte was disassembled or is 00, 90 or CC; which of the areas, or which of the errors, is returned is told by those bytes and the page's protection alone |
| `X86Patcher.TemplateEmits` | `src/arch/x86/patcher.rs:88-109` | What is emitted for an area, and that only the range assertion can fail |
| `X86Patcher.PatchReaches` | `src/arch/x86/patcher.rs:20-34` | Whichever area is chosen, running from the target reaches the detour in at most two jumps that change nothing else |
| `X86Patcher.NoRelayReachesIff` | `src/arch/x86/meta.rs:14-24` | Without a relay the range assertion of the patch holds except for the last four displacements at one end of the range, or, for a hot patch, the very last at the other |
| `X86Patcher.RelayIff` | `src/arch/x86/meta.rs:14-24` | There is a relay if and only if the target is not within two gigabytes of the detour |
| `X86Patcher.ExitsAvoidPatch` | `src/arch/x86/patcher.rs:52-85` | No static exit, nor the continuation, leads into the five bytes of an inline patch |
| `X86Patcher.RelJumpRuns` | `src/arch/x86/thunk/x86.rs:83-93` | rel32 jumps reach every destination whose displacement passes the range check |
| `X86Detour.CallReachesDetour` | `src/arch/detour.rs:21-113` | With a detour that `new` left on, from a finished build or not, calling the target reaches the detour within three jumps, with registers, flags and memory unchanged |
| `X86Detour.NewMakes` | `src/arch/detour.rs:21-60` | Wherever the allocator puts relay and trampoline, `new` leaves them in place, the code around the target untouched and the allocator consistent; if the builder finished, the detour is made |
| `X86Detour.TogglesEnd` | `src/arch/detour.rs:87-113` | After any sequence of toggles memory is as `new` left it or shows the patch, and the flag says which |
| `X86Detour.PatchExactly` | `src/arch/x86/thunk/x86.rs:83-93` | `new` does not panic if and only if the relay, or the detour without one, is not in the first five bytes of the range for an inline patch, not at its very end for a hot patch |
| `X86Detour.HotPatchReachesRelay` | `src/arch/x86/meta.rs:13-24` | A hot patch reaches every relay the allocator gives |
| `X86Detour.RelayBeyondReach` | `src/arch/x86/meta.rs:13-24` | A setup in which the allocator returns a relay that an inline patch cannot encode, so that `new` panics |
| `X86Detour.TrampolineEitherWay` | `src/arch/detour.rs:21-113` | The trampoline does what the unpatched function would do, with the detour on or off |
| `X86Detour.BuildOverPatch` | `src/arch/x86/trampoline/mod.rs:224-228` | A trampoline built over a patched prolog is one absolute jump to where its first jump leads |
| `X86Detour.PatchDecodes` | `src/arch/x86/patcher.rs:88-102` | A patched target starts with a jump to the detour, or to the long jump above the target |
| `X86Detour.ChainReaches` | `src/arch/x86/patcher.rs:88-102` | And the emitted code of that trampoline reaches the first detour in at most two jumps that change nothing else |
| `A64Theorem.WordRelocates` | `src/arch/aarch64/trampoline/mod.rs:75-181` | For every word that is B, CBZ, CBNZ, TBZ, TBNZ, ADR, ADRP, a literal load, RET or pc-independent, at every address, the block has its effect on pc, memory and all registers but one scratch register, whose value is given |
| `A64Theorem.ScratchOnly` | `src/arch/aarch64/thunk/mod.rs:5-6` | The scratch register is X16 or X17 |
| `A64Theorem.OneBlock` | `src/arch/aarch64/trampoline/mod.rs:44-72` | With the four-byte margin a build is one block, followed by the continuation jump unless the word is B or RET; the guard never refuses |
| `A64Theorem.BuildRefusedIff` | `src/arch/aarch64/trampoline/mod.rs:44-72` | With that margin a build fails if and only if the word is such a load |
| `A64Theorem.TrampolineSimulates` | `src/arch/aarch64/trampoline/mod.rs:44-72` | The whole trampoline traps, loops or leaves with the word it replaces, also in memory that differs where the word does not look |
| `A64Theorem.Emitted` | `src/pic/emitter.rs:16-31` | The emission of a build is the code the theorem is about |
| `A64Limits.SpecialBuilds` | `src/arch/aarch64/trampoline/mod.rs:96-101` | Every BL is accepted and expanded, every BLR and B.cond accepted and copied, at every address |
| `A64Limits.CallAbsRuns` | `src/arch/aarch64/thunk/mod.rs:37-43` | call_abs calls the destination and links to its own literal |
| `A64Limits.CallLinkKeptIff` | `src/arch/aarch64/trampoline/mod.rs:96-101` | A relocated BL reaches the function with everything but X16 and the link as it should be; the link is right if and only if the block lies four bytes before the original |
| `A64Limits.CallReturnsIntoLiteral` | `src/arch/aarch64/thunk/mod.rs:37-43` | A function so called returns into its own address: the low half runs as an instruction, and then, unless that is a branch, the high half traps |
| `A64Limits.CopiedCallResumes` | `src/arch/aarch64/trampoline/mod.rs:179-180` | A copied BLR differs in the link alone, and the link leads to where the original call returns |
| `A64Limits.CopiedConditionKeptIff` | `src/arch/aarch64/trampoline/mod.rs:179-180` | A copied B.cond falls through rightly; taken, it leads where the original leads if and only if it was not moved |
| `A64Trampoline.ProcessMeans` | `src/arch/aarch64/trampoline/mod.rs:75-181` | The builder refuses exactly the literal loads to SIMD registers; what it does with every other word is said of the instruction the architecture manual decodes it to |
| `A64Trampoline.MatchMeans` | `src/arch/aarch64/trampoline/mod.rs:84-177` | The source's masks select the right instructions and the right bits for every word |
| `A64Trampoline.SignExtendMeaning` | `src/arch/aarch64/trampoline/mod.rs:200-203` | sign_extend is two's complement for the four widths in use |
| `A64Trampoline.SizeIsLength` | `src/arch/aarch64/trampoline/mod.rs:74-181` | The size announced beside a thunk is the length of its code |
| `A64Trampoline.EmissionOfBuild` | `src/pic/emitter.rs:16-41` | The code of every build, with any margin, is emitted at every address without tripping the size assertion, with the announced length and the same bytes everywhere |
| `A64Build.BuildRefusedIff` | `src/arch/aarch64/trampoline/mod.rs:44-72` | With every margin a build fails if and only if it comes to a literal load to a SIMD register, or to a word that grows below the farthest destination of an earlier internal branch |
| `A64Build.BuildStopsWhere` | `src/arch/aarch64/trampoline/mod.rs:44-72` | The words disassembled are exactly those up to the first B or RET that no earlier branch leads over, or to the margin; the continuation jump is there if and only if no such word ended it |
| `A64Build.NothingBehind` | `src/arch/aarch64/trampoline/mod.rs:82-177` | Nothing behind such a word is disassembled |
| `A64Trampoline.Builder.Build` | `src/arch/aarch64/trampoline/mod.rs:44-72` | The loop succeeds exactly when the recursive specification does, for every margin |
| `A64Trampoline.Builder.Advance` | `src/arch/aarch64/trampoline/mod.rs:48-66` | One pass of the loop |
| `A64Trampoline.Builder.ProcessInstruction` | `src/arch/aarch64/trampoline/mod.rs:75-181` | The block, size, `finished` and branch address of every word |
| `A64Trampoline.Builder.TrackBranch` | `src/arch/aarch64/trampoline/mod.rs:183-192` | The farthest destination is kept |
| `A64Thunk.MovImm64Runs` | `src/arch/aarch64/thunk/mod.rs:8-25` | MOVZ and three MOVKs load any 64-bit value and change nothing else |
| `A64Thunk.JmpAbsRuns` | `src/arch/aarch64/thunk/mod.rs:28-34` | jmp_abs reaches any destination in two steps, leaving it in X16 |
| `A64Thunk.CbzFarRuns` | `src/arch/aarch64/thunk/mod.rs:57-71` | cbz_far leaves for the destination exactly when the original branch would |
| `A64Thunk.TbzFarRuns` | `src/arch/aarch64/thunk/mod.rs:74-86` | tbz_far leaves for the destination exactly when the original branch would |
| `A64Thunk.LdrLiteralRuns` | `src/arch/aarch64/thunk/mod.rs:90-117` | The three literal loads load what the original loads, or trap with it, leaving the address in X17, or X16 if X17 is the target |
| `A64Patcher.PatchReachesIff` | `src/arch/aarch64/patcher.rs:57-66` | The patch changes only the pc and reaches its destination if and only if the offset is a multiple of four in [-2^27, 2^27) |
| `A64Patcher.RelayIff` | `src/arch/aarch64/meta.rs:15-24` | There is a relay if and only if the detour is neither at most 2^27 bytes below the target nor less than that above it |
| `A64Patcher.ExitsAvoidPatch` | `src/arch/aarch64/patcher.rs:37-54` | No static exit, nor the continuation, leads into the patched word |
| `A64Patcher.BuildOverPatch` | `src/arch/aarch64/trampoline/mod.rs:83-94` | A trampoline built over a patched prolog is one absolute jump to where the patch leads |
| `A64Patcher.ChainReaches` | `src/arch/aarch64/patcher.rs:57-66` | And its emitted code leads there |
| `A64Detour.CallReachesDetour` | `src/arch/detour.rs:21-113` | With the detour on, calling the target reaches the detour with registers but X16 and memory unchanged: always through a relay, and without one if and only if the detour is aligned |
| `A64Detour.RelayInReach` | `src/arch/aarch64/meta.rs:12-24` | The patch always reaches the relay the allocator gave |
| `A64Detour.NewMakes` | `src/arch/detour.rs:21-60` | Wherever the allocator puts relay and trampoline, `new` leaves the detour made, the code at the target untouched and the allocator consistent |
| `A64Detour.TogglesEnd` | `src/arch/detour.rs:87-113` | After any sequence of toggles memory is as `new` left it or shows the patch, and the flag says which |
| `A64Detour.TrampolineEitherWay` | `src/arch/detour.rs:21-113` | The trampoline does what the unpatched word would do, with the detour on or off |
| `Emitter.CodeEmitter.Emit` | `src/pic/emitter.rs:16-31` | The loop yields the specified emission, or fails exactly when a thunk does |
| `Emitter.CodeEmitter.Len` | `src/pic/emitter.rs:39-41` | The fold is the offset behind the last thunk |
| `Emitter.EmissionSucceeds` | `src/pic/emitter.rs:20-28` | Emission succeeds if and only if every thunk keeps to its length at its own address |
| `Emitter.EmissionPlaces` | `src/pic/emitter.rs:20-28` | Every thunk's code lies at the sum of the lengths before it, generated for that address |
| `Emitter.EmittedThunk` | `src/pic/emitter.rs:20-28` | Memory that holds an emission holds every thunk at its place |
| `Allocation.AllocatePic` | `src/arch/memory.rs:16-31` | The code generated for the address actually obtained fills the buffer and nothing else changes, or the emission fails and nothing does |
| `Allocation.Written` | `src/arch/memory.rs:22-25` | A written emission puts every thunk at its own address |
| `Construction.NewPlaces` | `src/arch/detour.rs:26-59` | Relay and trampoline stand where the allocator put them, near the target, apart from each other and from everything mapped before, and nothing else changed |
| `Construction.PicPlaces` | `src/arch/memory.rs:16-31` | Allocated code stands in a live allocation of its size, disjoint from the others |
| `Construction.NewSucceedsIff` | `src/arch/detour.rs:38-59` | A construction succeeds if and only if the relay, if there is to be one, is served, and then the trampoline from what is left |
| `Construction.PicSucceedsIff` | `src/arch/memory.rs:16-31` | Code is served if and only if the allocator has a place of its length and every thunk can be emitted there |
| `Construction.AnyTimeValid` | `src/arch/detour.rs:26-59` | After every run of the allocator, for whatever origins, the next construction finds it in the state that the theorems about `new` ask for |
| `DetourProtocol.ToggleSafety` | `src/arch/detour.rs:87-113` | For any number of threads and detours with disjoint areas, in every interleaving, whenever the lock is free memory is the initial one with exactly the enabled detours' patches over it |
| `DetourProtocol.ToggleLinearizes` | `src/arch/detour.rs:87-113` | In every interleaving, overlapping areas included, memory and flags are those of the calls made one after the other in the order of the lock; a thread leaves with the status of its own call, and unless the protection was refused its detour is as it asked |
| `DetourProtocol.AloneToggles` | `src/arch/detour.rs:87-113` | A call that nobody interrupts runs to its end and does to memory, flag and caller what the class's `Toggle` states |
| `DetourProtocol.HolderMoves` | `src/arch/detour.rs:87-113` | No run gets stuck: the thread with the lock can always go on, and a waiting one can once it is free |
| `DetourProtocol.MutualExclusion` | `src/arch/detour.rs:87-106` | At most one thread is between taking and releasing the lock |
| `DetourProtocol.OverlayAt` | `src/arch/x86/patcher.rs:41-48` | Byte by byte, memory shows a detour's patch if and only if that detour is enabled |
| `Patching.Patcher.Toggle` | `src/arch/riscv/patcher.rs:29-35` | Enabling writes the detour bytes over the area, disabling the original ones, and nothing else changes |
| `Patching.Detour.Toggle` | `src/arch/detour.rs:87-113` | A toggle to the current state or a protection failure changes nothing; otherwise the area and the flag change together |
| `Patching.Detour.Enable` | `src/arch/detour.rs:63-65` | On success the detour is enabled and its patch written unless it was |
| `Patching.Detour.Disable` | `src/arch/detour.rs:68-70` | On success the detour is disabled and its original bytes written unless it was |
| `Patching.WriteBack` | `src/arch/x86/patcher.rs:41-48` | Enabling and disabling restores memory exactly |
| `Patching.TogglesEnd` | `src/arch/detour.rs:87-113` | Any sequence of toggles ends in the original memory or the patched one, as the last toggle says |
| `NestedDetours.DisableRestores` | `src/arch/detour.rs:50-105` | However a stack-ordered run goes on after a detour was created, whenever that detour is the newest again, disabling it returns memory to exactly what it was when it was created |
| `NestedDetours.Frame` | `src/arch/detour.rs:87-105` | As long as there are more than k detours, a stack-ordered run leaves the first k as they are |
| `NestedDetours.BeforeIsCreation` | `src/arch/detour.rs:50-60` | Creating a detour adds one and leaves memory as it was, which is what the model calls the memory before it |
| `NestedDetours.UnwindingRestores` | `src/arch/detour.rs:87-105` | Unwinding the stack restores the initial memory |
| `NestedDetours.OutOfOrderIff` | `src/arch/detour.rs:87-105` | Of two detours whose areas overlap in any way, disabling the older first restores memory if and only if its patch changed none of the bytes that the newer one covers as well |
| `Search.FreeRegionIter.Next` | `src/alloc/search.rs:48-78` | The loop yields the specified item, and gets closer to the end whenever it yields one |
| `Search.SearchIsScan` | `src/alloc/search.rs:48-78` | From a mapped origin, draining the iterator yields what a page-by-page scan yields, errors included, in its order, in both directions |
| `Search.SearchYields` | `src/alloc/search.rs:48-78` | It yields exactly the free pages of the range after, or before, the origin, ascending or descending |
| `Search.NextAdvances` | `src/alloc/search.rs:69-72` | Every item shortens the distance left |
| `Proximity.ProximityAllocator.Allocate` | `src/alloc/proximity.rs:20-34` | An existing pool in order, or else a new one for the first address that can be mapped |
| `Proximity.ProximityAllocator.AllocateMemory` | `src/alloc/proximity.rs:58-79` | The first pool that is in range and has room |
| `Proximity.ProximityAllocator.AllocatePool` | `src/alloc/proximity.rs:82-102` | The first search result that fails or can be mapped |
| `Proximity.ProximityAllocator.Release` | `src/alloc/proximity.rs:37-55` | The lookup of a live allocation succeeds |
| `Proximity.EligibleIs` | `src/alloc/proximity.rs:58-79` | The pool chosen has its first and last byte in the range, and room, and no earlier one does |
| `Proximity.MappingIs` | `src/alloc/proximity.rs:92-102` | The search result chosen is the first that is a failure or can be mapped, and there is none only if every one is an address that cannot |
| `Proximity.AllocatedIs` | `src/alloc/proximity.rs:20-34` | A request is served by the first pool that can, else from a new pool at the first address that can be mapped; it fails with an earlier failure of the search, and is out of memory if and only if there is neither |
| `Proximity.RangeIs` | `src/alloc/proximity.rs:21-22` | The range of a request is the addresses within the distance of the origin, save the very last address |
| `Proximity.AllocateKeeps` | `src/alloc/proximity.rs:20-34` | A new allocation has the size asked for and is disjoint from everything live; nothing else changes |
| `Proximity.AllocateSites` | `src/alloc/proximity.rs:20-34` | A new allocation is within the maximum distance of the origin, as aligned as the sizes requested, and disjoint from everything else that is mapped |
| `Proximity.ReleaseSites` | `src/alloc/proximity.rs:37-55` | Releasing a live allocation leaves the pools where they may be |
| `Proximity.SearchedItems` | `src/alloc/proximity.rs:82-102` | The search yields free pages in the range on page boundaries only |
| `Proximity.ReleaseKeeps` | `src/alloc/proximity.rs:37-55` | Releasing a live allocation never fails and ends that one alone |
| `Proximity.ReuseInRange` | `src/alloc/proximity.rs:58-79` | A pool that is reused lies wholly in the requested range, so the allocation is within the maximum distance of the origin |
| `Proximity.MapsFreePage` | `src/alloc/proximity.rs:82-102` | A new pool is asked for at a free page in range |
| `Proximity.LiveApart` | `src/alloc/proximity.rs:20-55` | Over every run live allocations are pairwise disjoint, each in exactly one pool |
| `Proximity.RunKeeps` | `src/alloc/proximity.rs:20-55` | Over every run no lookup fails |
| `Proximity.RunSites` | `src/alloc/proximity.rs:20-55` | Over every run of requests for multiples of the unit, pools and allocations stay aligned, in user memory and apart from everything else mapped |
| `Proximity.LiveSited` | `src/alloc/proximity.rs:20-55` | So from no pools on every live allocation is aligned and disjoint from what else is mapped |
| `Proximity.ReleaseDropsIff` | `src/alloc/proximity.rs:51-54` | A release gives its pool back if and only if the pool is one byte long |
| `Proximity.PoolsStay` | `src/alloc/proximity.rs:51-54` | No pool of two bytes or more is ever given back |
| `StaticDetour.ClosuresFreedOnce` | `src/detours/statik.rs:156-166` | In every interleaving a closure that was installed is current or is dropped exactly once, and none is dropped while current |
| `StaticDetour.OneWinner` | `src/detours/statik.rs:105-126` | At most one initialize wins; the winner's detour is never freed, and every loser frees its own detour exactly once |
| `StaticDetour.DetourStays` | `src/detours/statik.rs:109-121` | The detour pointer never changes once set |
| `StaticDetour.LoadedStaysValid` | `src/detours/statik.rs:129-153` | What enable, disable and is_enabled load stays allocated |
| `StaticDetour.StaticDetour.Initialize` | `src/detours/statik.rs:105-126` | A call nobody interrupts does what its atomic operations do in the state machine |
| `StaticDetour.StaticDetour.SetDetour` | `src/detours/statik.rs:156-166` | The new closure is current and the previous one dropped, as by the call's atomic operations in the state machine when nobody interrupts |

## Where the code and its documentation disagree

- `src/arch/riscv/patcher.rs:59` says that `relay_builder` guarantees the offset; it
  accepts offsets in [2^31 - 2^11, 2^31 - 1), whose hi20/lo12 pair leads 2^32 bytes away
  (`RiscvPatcher.NoRelayReaches`).
- `src/arch/riscv/meta.rs:13-15` says that the patch can always reach the relay.  The
  allocator's range is that of `is_within_range`, so it can return a relay in
  the last 2 KiB, which the patch misses by 2^32 bytes
  (`RiscvDetour.CallReachesDetour`, `RiscvDetour.RelayBeyondReach`).
- On x86-64 a relay within five bytes of 2^31 below the target makes the assertion in
  `calculate_displacement` fail for an inline patch (`X86Detour.PatchExactly`,
  `X86Detour.RelayBeyondReach`).  On AArch64 the relay is always reached.
- `src/arch/x86/meta.rs:13` builds a relay for destinations further than 2 GB, measured from
  detour to target without the length of the jump; at the ends of the range
  there is neither a relay nor an encodable jump, and the assertion in
  `calculate_displacement` fails (`X86Patcher.NoRelayReachesIff`).
- `src/arch/aarch64/thunk/mod.rs:36` calls `call_abs` an absolute call; it links to the eight bytes that hold
  the destination, so the called function returns into them
  (`A64Limits.CallLinkKeptIff`, `A64Limits.CallReturnsIntoLiteral`).
- `src/arch/aarch64/trampoline/mod.rs:179` copies everything it does not match, B.cond among it,
  whose destination then moves with the code (`A64Limits.CopiedConditionKeptIff`).
- `src/arch/x86/trampoline/mod.rs:181-182` places the displacement at the end of the instruction, also when an
  immediate follows it (`X86Limits.TrailingImmediateKeptIff`).
- `src/arch/riscv/trampoline/mod.rs:53-57` guards forward spans only; a backward branch
  over an AUIPC is accepted (`RiscvLimits.BackwardBranchBroken`), and so is a
  forward jump as the first word (`RiscvLimits.ForwardJumpBroken`).
- `src/alloc/proximity.rs:51-54` means to release a pool whose allocation is unique, but
  compares with 1 the same `len` that the lookup above it uses as the pool's
  size in bytes (`Proximity.PoolsStay`).  The slice-pool crate is not part of
  this model.
- `src/arch/x86/trampoline/mod.rs:161` speaks of displacements within the prolog; such
  operands are copied and then address the trampoline's own bytes
  (`X86Limits.CopiedOperandKeptIff`).

## Left out

- The iced-x86 decoder is an arbitrary function subject to the laws of `X86Isa.X64`; region queries, `mmap` and slice pools are functions subject to the laws of `Search.Space` and `Proximity.World`: a mapping starts at the address asked for and is disjoint from everything mapped before, and a slice starts where a gap between allocations does.
- Memory protection is a success flag; instruction-cache flushing, and threads that run the prolog while it is being patched, are not modelled.
- The value a relocated x86 `call` pushes is the trampoline's; a call is one event that returns behind the call, with an effect that does not depend on the return address.
- Linking JAL and JALR on RISC-V, BL, BLR and B.cond on AArch64: the simulation theorems exclude them; `RiscvLimits` and `A64Limits` give the exact condition for each.
- X86Detour.NewMakes: asks for at least one decoded instruction, because what the slice-pool crate answers to a request for no bytes is not part of this model.
- JRCXZ, and far jumps into the hot-patch padding, on x86; SIMD literal loads on AArch64 are refused by the builder and therefore absent.
- RISC-V compressed code is refused by the builder; RV32 and 32-bit x86 thunks, and the ARM32 backend, whose far branches drop their condition, are not modelled.
- A64Theorem.TrampolineSimulates: is about the four-byte margin that prolog_margin returns; longer margins are covered word by word and by the builder's specification.
- A64Patcher: the padding rule is not modelled, because a prolog always has the four bytes the patch needs.
- RiscvTheorem.TrampolineSimulates: the margin is positive; a margin of zero would make every internal transfer a far one.
- RISC-V exceptions on misaligned jump targets are not modelled; destinations are taken to be even, as in an implementation with compressed instructions.
- DetourProtocol.ToggleSafety: the patch areas are disjoint; overlapping ones are the subject of `NestedDetours`, where each operation is atomic.
- Search.SearchIsScan: the origin is mapped and in the range, regions are page-aligned, and no address overflows; from a free, unaligned origin the iterator yields unaligned addresses.
- Overflow panics of debug builds in `branch_bytes`, and the allocator's page rounding inside `mmap`, are left out.
- `Detour::drop`, whose disable sits inside `debug_assert!`, `StaticDetour::drop`, and the lifetime of the reference that `__detour` returns.
- Macros, function-pointer traits, `GenericDetour` and `RawDetour`, error formatting, and the executable-address checks of `Detour::new`.
