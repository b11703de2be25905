# Zipr: moving code and data without changing what a program means

Zipr rewrites binaries. It moves instructions and data regions, and each pass that does so has to
keep the meaning of the program. This project models the passes that carry that claim and proves
what they keep. `dafny verify dfyconfig.toml` checks all of it.

## The parts

**Data regions** (`Coalescing`, `Tracking`, `References`, `Components`, `CoalescingRun`,
`MoveGlobals`, `Modular`, `Relocating`, `UnpinScoops`, `PatchedScoops`, `Referents`). Regions,
called scoops, may be tied together. Ties to pinned scoops pin, by a fixpoint; the scoops that are
still tied are merged in place; pointers lose the base of their target, scoops are sent to address
0, get a place, and pointers get the new base. `MoveGlobals` has the pass as a class over scoop
objects, `UnpinScoops` the later pass. The state as a value (`Coalescing.State`) and a map from each
original scoop to the merged one that stands for it connect the methods to the lemmas;
`Referents.MoveAndUnpin` runs all passes one after another. A pass leaves sizes and contents in
agreement exactly when no tied scoops had a gap between them, because the gap branch computes padded
contents and does not store them.

**x86 operands** (`X86Operands`, `InsnReferents`). A pc-relative, absolute or immediate operand
through the three passes that edit it, also when its scoop is merged into another.

**ARM trampolines** (`A32Machine`, `Arm32Trampoline`, `Arm32Simulation`, `BvBytes`, `Arm32Words`,
`Arm32Unpin`, `Arm32Plugin`, `Arm32PcUses`, `Arm32EveryState`; `A64Machine`, `A64Trampolines`,
`A64Words`, `A64Unpin`). Two small step machines, after sections A2.3 and A8.8 of the ARMv7-A and
ARMv7-R Architecture Reference Manual and C6.2 and C7.2 of the Arm Architecture Reference Manual for
A-profile. The bytes the plugins write are shown to decode to trampolines, and running a trampoline
is shown to do what the moved instruction did at its old address, for every placement and machine
state.

**Calls** (`ByteMemory`, `X86Calls`, `CallLowering`, `PushRelocation`, `CallChain`). A call becomes
a push and a jump with an edited operand (section 2.1.5 of volume 2 of the Intel manual), the push
later a call and a subtraction that is right under any load bias.

**Call frame programs** (`CallFrames`, `CallFrameSlicing`, `EhProgramCache`). A program with a stack
of saved rows is flattened for one address (sections 6.4.2.4 and 6.4.3 of DWARF 5), and equal
programs are shared through a cache.

**The intermediate representation** (`UnpinBudget`, `UnpinTables`, `SwitchPatching`, `SharedSlots`,
`CfgDiscovery`, `LandingPads`, `BackSearch`, `RangeIndex`, `HashTable`). Unpinning under a limit and
what patching makes of switch tables, linking and discovery of instructions, giving landing pads to
functions, searching backwards, range-ordered containers, and a chained hash table.

## What the code needs

These conditions are where the code as written keeps its promise. Each is in the contract of the
member named, and where the code fails without it a lemma says so.

- Tied scoops touch (`Components.MergeKeepsGaps`, `CoalescingRun.RunResult`).
- A data pointer is not in an executable scoop, nor in one tied to an executable scoop: its base is
  taken out and never put back (`Referents.DataPointerRightIff`, `Referents.CodeLosesBase`).
- A data pointer relocation that is there before merging does not name a scoop that is merged into
  another and shifted: its addend is ignored (`Referents.EarlierPointerRightIff`).
- A32: a literal load is not a byte load; an add does not set flags; neither the indexed load nor the
  register add has the stack pointer as its destination (`Arm32EveryState.EveryStateIff`, with
  `Arm32Simulation.AddImmWithSIsStuck` for the add-immediate). A register add uses the program counter
  once and unshifted, and a computed jump as its base only (`Arm32PcUses.TwiceIff`,
  `Arm32PcUses.ShiftedIff`, `Arm32PcUses.UnusedIff`, `Arm32PcUses.JumpOperandIff`,
  `Arm32PcUses.OtherUsesFail`). For a given state, `Arm32Simulation.TrampolineFaithfulIff` has all of
  this but the add-immediate in one condition.
- A64: the first two trampoline instructions of an integer load are on one page, and a literal is
  aligned to its size (`A64Trampolines.ReadIff`, `A64Trampolines.VectorReadIff`); adr does not name
  register 31 (`A64Trampolines.AdrIntoZeroMovesSp`); no later trampoline starts in the 8 bytes that
  the vector form uses beyond its reservation of 12 (`A64Unpin.LaterPlacementIff`).
- Calls: an operand off the stack pointer has one of the recognised encodings, without a prefix
  (`CallLowering.MovedUp`), and its word is not where the return address goes
  (`X86Calls.JumpReadsReturn`).
- An absolute operand needs a file base that is a multiple of 2^32 (`X86Operands.AbsoluteOperand`).
- The load of a type-4 table entry has no displacement from the base of the dispatch
  (`SwitchPatching.Type4PatchIff`), and only one dispatch goes through a table
  (`SharedSlots.TwoDispatchesIff`).

Preconditions that come from code outside the model: branches can be patched to reach their target
and free ranges avoid what is reserved, ties join address neighbours, an instruction has one fixup of
each kind and not both kinds of memory operand, recorded pointers do not overlap.

## Model

| member | source | states |
|---|---|---|
| MoveGlobals.MoveGlobals.PropagatePins | builtin_xforms/move_globals/mg.cpp:1820-1874 | Terminates with the largest subset of the moveable scoops that no tie crosses, ties that touch .dynamic or .jcr aside, whatever the order in which ties are visited; exactly the other ties between two moveable scoops survive. |
| Coalescing.GreatestIsUnique | builtin_xforms/move_globals/mg.cpp:1820-1874 | There is only one such subset, so the pointer order of the sets does not matter. |
| Coalescing.PinKeepsBound | builtin_xforms/move_globals/mg.cpp:1848-1866 | Pinning a scoop because its partner is pinned never loses a set that no tie crosses. |
| Coalescing.PinningKeepsOrder | builtin_xforms/move_globals/mg.cpp:1820-1874 | After pinning, every tie that is left joins two moveable scoops that are neighbours in address order. |
| Coalescing.TiesArePaths | builtin_xforms/move_globals/mg.cpp:2025-2038 | A scoop begins at most one tie and ends at most one, so ties form paths and only one tie can be found to start at the scoop that goes away. |
| Coalescing.TiedAreInOrder | builtin_xforms/move_globals/mg.cpp:1901-1917 | The order assertion holds and the overlap assertion cannot be reached. |
| Coalescing.MergeKeepsOrder | builtin_xforms/move_globals/mg.cpp:1899-2044 | After a merge the remaining ties again join disjoint, moveable neighbours in address order. |
| Coalescing.MergeUsesATie | builtin_xforms/move_globals/mg.cpp:2023-2037 | Every merge reduces the number of ties by exactly one. |
| Coalescing.PaddedReaches | builtin_xforms/move_globals/mg.cpp:1904-1999 | Offsets that grow by the size of the first scoop keep their address, gap or not; those that grow by the length of its contents do so exactly if there is no gap. |
| Coalescing.MergedRelocSections | builtin_xforms/move_globals/mg.cpp:1777-1780 | Two merged relocation sections get the name under which the scanners look for them. |
| Tracking.InsnFixupsKeepSize | builtin_xforms/move_globals/mg.cpp:1923-1941 | The fixup-set size assertion holds exactly when no instruction has a fixup to both scoops. |
| Tracking.MergeKeepsOncePerInsn | builtin_xforms/move_globals/mg.cpp:1923-1944 | One fixup per instruction is kept by merging, so that assertion holds all through a run. |
| Tracking.JoinedBytes | builtin_xforms/move_globals/mg.cpp:1992-1995 | Joining two scoops that touch leaves every byte of both at its address. |
| Tracking.MergeSizedIff | builtin_xforms/move_globals/mg.cpp:1904-1917 | A merge leaves every scoop with as many bytes as its addresses span exactly when the two scoops touch: the gap branch moves the end but stores no bytes. |
| Components.MergeKeepsGaps | builtin_xforms/move_globals/mg.cpp:1876-2048 | Whether sizes and contents agree at the end of a run is settled before it: a short scoop stays short, a gap makes one, and nothing else does. |
| Components.MergeTiesFollow | builtin_xforms/move_globals/mg.cpp:2023-2038 | Every original tie has either been merged away or is still there between what stands for its ends, and no tie appears between unlinked scoops. |
| Components.OneScoopPerComponent | builtin_xforms/move_globals/mg.cpp:1876-2050 | When no tie is left two scoops are one exactly if ties linked them, directly or not. |
| Tracking.MergeHomes | builtin_xforms/move_globals/mg.cpp:1992-1999 | Each original scoop lies at its own addresses inside the merged scoop that stands for it. |
| Tracking.MergeKept | builtin_xforms/move_globals/mg.cpp:1994-1995 | Every original byte is in the merged scoop, at its address. |
| Tracking.MergeMakesNothingUp | builtin_xforms/move_globals/mg.cpp:1994-1995 | A merged scoop has no byte that no original scoop had there. |
| Tracking.MergeFlagsFollow | builtin_xforms/move_globals/mg.cpp:1997-1999 | Through every merge, a merged scoop is read-only after relocation exactly if all of its original scoops were, and has each permission exactly if one of them had it. |
| References.MergeInsnsFollow | builtin_xforms/move_globals/mg.cpp:1923-1944 | Instruction fixups name exactly the merged scoops that stand for their old targets. |
| References.MergeDataFollows | builtin_xforms/move_globals/mg.cpp:1946-1971 | Data fixups name the same byte and the same target as before, now relative to the merged scoops. |
| References.MergeRelocsFollow | builtin_xforms/move_globals/mg.cpp:1973-2021 | Each relocation keeps its byte, and its target and addend still add up to the same address modulo 2^32. |
| References.RefsKeepAddresses | builtin_xforms/move_globals/mg.cpp:1923-2021 | In addresses: no fixup or relocation appears or is lost; each is still at the address it was at, its target is a scoop that has the old target at its old address, and the start of that scoop plus the addend is the same modulo 2^32. |
| CoalescingRun.MergeInvariant | builtin_xforms/move_globals/mg.cpp:1876-2048 | All of the above together is kept by every merge of a run. |
| CoalescingRun.RunResult | builtin_xforms/move_globals/mg.cpp:1876-2050 | What a finished run guarantees: scoops are merged exactly if ties linked them; the merged scoop is read-only after relocation, or has a permission, exactly if all of them were, or one of them had it; sizes agree exactly when there were no gaps, and then all bytes and references are at the addresses where they were. |
| CoalescingRun.CodeResult | builtin_xforms/move_globals/mg.cpp:1876-2050 | When the run is over, a scoop is part of an executable one exactly if it is executable or ties linked it to one that is. |
| MoveGlobals.MoveGlobals.UpdateInsnFixups | builtin_xforms/move_globals/mg.cpp:1923-1941 | Replaces the target in a fixup set, with the size assertion proved. |
| MoveGlobals.MoveGlobals.UpdateDataFixups | builtin_xforms/move_globals/mg.cpp:1946-1971 | Replaces source and target of data fixups and shifts the offsets of those in the scoop that goes away. |
| MoveGlobals.MoveGlobals.Retie | builtin_xforms/move_globals/mg.cpp:2023-2038 | Redirects the one tie that starts at the scoop that goes away; afterwards none starts there. |
| MoveGlobals.MoveGlobals.Coalesce | builtin_xforms/move_globals/mg.cpp:1899-2043 | One round, in place, turns the whole state into the merged state that the lemmas speak of. |
| MoveGlobals.MoveGlobals.CoalesceTied | builtin_xforms/move_globals/mg.cpp:1876-2050 | The loop ends with no tie left, no assertion in it can fail, and the run invariant holds. |
| MoveGlobals.MoveGlobals.FilterAndCoalesceTiedScoops | builtin_xforms/move_globals/mg.cpp:1802-2052 | Both steps: the pinned state is the greatest fixpoint, and coalescing from it ends in a state related to it by the run invariant. |
| MoveGlobals.MoveGlobals.ApplyDataRelocation | builtin_xforms/move_globals/mg.cpp:1272-1306 | Takes the target's start out of one pointer, modulo the pointer width, and records a relocation for it. |
| MoveGlobals.MoveGlobals.TakeBases | builtin_xforms/move_globals/mg.cpp:640-710 | Exactly the recorded operands whose scoop can move lose its start, modulo 2^32; no other byte of any instruction changes. |
| MoveGlobals.MoveGlobals.UpdateScoopLocations | builtin_xforms/move_globals/mg.cpp:2055-2098 | The three kinds of operands lose bases one kind after another, every recorded data pointer loses its target's start, no other byte changes, and every moveable scoop goes to address 0. |
| MoveGlobals.PcrelDetached | builtin_xforms/move_globals/mg.cpp:2059-2085 | In the end a pc-relative operand has lost its scoop's start exactly once, whatever else of its instruction was edited. |
| MoveGlobals.AbsoluteDetached | builtin_xforms/move_globals/mg.cpp:2059-2085 | The same of an absolute operand. |
| MoveGlobals.ImmediateDetached | builtin_xforms/move_globals/mg.cpp:2059-2085 | The same of an immediate. |
| UnpinScoops.Unpin.DoUpdateForScoops | zipr_unpin_plugin/unpin.cpp:201-342 | The relocations of every scoop without code are applied to it one after another, in whatever order they are kept; scoops with code are left alone. What that comes to is said by the lemmas of PatchedScoops. |
| PatchedScoops.AppliedWord | zipr_unpin_plugin/unpin.cpp:211-339 | Relocations that keep clear of one another each give their word its value: a data pointer gains the start of its target, a pointer to code becomes the new location, a switch entry gains addend and new location, each cut off at its width; what names a pinned instruction stays. |
| PatchedScoops.UnpinnedWord | zipr_unpin_plugin/unpin.cpp:201-342 | The same of the scoops themselves: nothing of a scoop with code changes, and of any other one only the contents. |
| PatchedScoops.SharedPointer | zipr_unpin_plugin/unpin.cpp:274-294 | However often a pointer to code is relocated, it ends as the new location, or as it was if its instruction is pinned. |
| PatchedScoops.AppliedElsewhere | zipr_unpin_plugin/unpin.cpp:211-339 | No byte that no relocation is about changes. |
| PatchedScoops.SharedWord | zipr_unpin_plugin/unpin.cpp:213-245 | Switch entries that share a slot add up in it. |
| Relocating.AddOne | builtin_xforms/move_globals/mg.cpp:1272-1306 | Adjusting one more pointer disturbs no pointer adjusted before. |
| Referents.FixupsStayApart | builtin_xforms/move_globals/mg.cpp:1946-1971 | Merging brings no two data fixups into collision and keeps them inside their scoop. |
| Referents.DataPointerRightIff | zipr_unpin_plugin/unpin.cpp:201-342 | End to end: a data pointer is, modulo its width, as far from where its referent ends up as it was from where the referent was, even if both scoops were merged into others, exactly if its scoop is neither executable nor linked by ties to an executable one, or the new base is 0 modulo the width. |
| Referents.CodeLosesBase | zipr_unpin_plugin/unpin.cpp:206 | A pointer that fails: in a clean scoop tied to an executable one it ends up without a base. |
| Referents.ConstructorsReady | zipr_unpin_plugin/unpin.cpp:206 | That input meets everything the passes ask for. |
| Referents.EarlierPointerRightIff | zipr_unpin_plugin/unpin.cpp:298-338 | A data pointer relocation that was there before merging, which puts the shift of its target into the addend that the unpinner ignores, is right exactly if that shift is 0 modulo the width. |
| Referents.ConstructorsShift | builtin_xforms/move_globals/mg.cpp:1974-1983 | A target that is shifted by 4. |
| Referents.MoveAndUnpin | builtin_xforms/move_globals/mg.cpp:156-157 | All passes run one after another, each leaving what the next one needs; then every recorded data pointer meets that condition, and every operand has lost its base. |
| X86Operands.Insn.Normalise | irdb-libs/ir_builders/fix_calls.cpp:865-895 | The displacement becomes relative to address 0 exactly if that fits in 32 bits; otherwise the instruction is left alone. |
| X86Operands.Insn.TakeBase | builtin_xforms/move_globals/mg.cpp:640-710 | The start of a moveable scoop is taken out of the displacement; an operand of a pinned scoop is not edited. |
| X86Operands.Insn.PutPcrel | zipr_unpin_plugin/unpin_x86.cpp:96-151 | Only the displacement changes, by the scoop's start less the instruction's location without the file base. |
| X86Operands.Insn.PutAbsolute | zipr_unpin_plugin/unpin_x86.cpp:153-198 | Only the displacement changes, by the scoop's start, the addend and the file base. |
| X86Operands.Insn.PutImmediate | zipr_unpin_plugin/unpin_x86.cpp:200-224 | Only the last four bytes change, by the scoop's start. |
| X86Operands.PcrelOperand | zipr_unpin_plugin/unpin_x86.cpp:96-151 | Through three passes a pc-relative operand ends up at its old target, moved as its scoop was, exactly when the displacement needed fits in 32 signed bits. |
| X86Operands.AbsoluteOperand | zipr_unpin_plugin/unpin_x86.cpp:153-198 | An absolute operand keeps its referent modulo 2^32 exactly when the file base is a multiple of 2^32. |
| X86Operands.ImmediateOperand | builtin_xforms/move_globals/mg.cpp:1134-1164 | An immediate keeps its referent modulo 2^32. |
| InsnReferents.PcrelReferent | zipr_unpin_plugin/unpin_x86.cpp:96-151 | After merging and detaching, a pc-relative operand attributed to any original scoop refers as far from where that scoop now is as before, exactly when the displacement fits. |
| InsnReferents.AbsoluteReferent | zipr_unpin_plugin/unpin_x86.cpp:153-198 | The same for an absolute operand, modulo 2^32, exactly when the file base is a multiple of 2^32. |
| InsnReferents.ImmediateReferent | zipr_unpin_plugin/unpin_x86.cpp:200-224 | The same for an immediate, modulo 2^32. |
| RangeIndex.Find | builtin_xforms/move_globals/mg.hpp:126-134 | Looking a point up with the order on ranges alone finds what a linear scan finds. |
| RangeIndex.ScanFinds | builtin_xforms/move_globals/mg.cpp:181-188 | In a sorted index the range that has a point is the only answer. |
| RangeIndex.FdeRanges.Add | irdb-libs/ir_builders/fix_calls.cpp:1107-1121 | Any run of calls keeps the ranges (a,b] disjoint and sorted; a range is inserted exactly if it is not empty and overlaps none. |
| RangeIndex.NeighboursTouch | builtin_xforms/move_globals/mg.cpp:914-921 | Scoops found at neighbouring addresses are the same or touch. |
| RangeIndex.TieWalk.Walk | builtin_xforms/move_globals/mg.cpp:914-994 | Starting in the scoop that has the address, only touching scoops are tied, of which one can move and none but the first is untieable; scoops at consecutive addresses up to where the walk stops end up the same or tied; and it stops early only where there is no scoop, an untieable one, or one that, like the last, cannot move. |
| Arm32Plugin.Plugin.HandlePcrelReloc | zipr_unpin_plugin/unpin_arm32.cpp:84-660 | For each of the six forms the bytes written decode to the intended trampoline for the instruction at `p`, and nothing else changes. Without a relocation object `p` is the original address. With one, a load with an immediate offset reads at original address plus object plus addend, and every other instruction believes itself there. |
| Arm32Trampoline.FormIs | zipr_unpin_plugin/unpin_arm32.cpp:114-119 | Which instructions get which form of trampoline. |
| Arm32Unpin.AllocateReg | zipr_unpin_plugin/unpin_arm32.cpp:84-92 | Finds the lowest register not in use; its assertion cannot be reached. |
| Arm32Plugin.ScratchFits | zipr_unpin_plugin/unpin_arm32.cpp:130-132 | With a scratch register outside the four operand fields, every regular instruction is one its trampoline simulates. |
| Arm32Plugin.RotateCase | zipr_unpin_plugin/unpin_arm32.cpp:46-53 | The rotation helper is the expansion of modified immediates of section A5.2.4. |
| Arm32Plugin.ByteFlagIsLost | zipr_unpin_plugin/unpin_arm32.cpp:275-280 | Or-ing the byte flag into the top byte changes nothing: the emitted load is always a word load. |
| Arm32Plugin.SFlagLeavesTheSpace | zipr_unpin_plugin/unpin_arm32.cpp:532-537 | Or-ing the S flag into the top byte takes the add out of the modelled encodings. |
| Arm32Words.RebasedVldr | zipr_unpin_plugin/unpin_arm32.cpp:196-200 | The copied vldr differs from the original in its base register only. |
| Arm32Words.RebasedLdr | zipr_unpin_plugin/unpin_arm32.cpp:361-367 | The copied load differs in its base register and in always being executed. |
| Arm32Words.RetargetedInsn | zipr_unpin_plugin/unpin_arm32.cpp:451-459 | The copied dispatch instruction differs in destination, base and condition only. |
| Arm32Unpin.BranchPlaced | zipr_unpin_plugin/unpin_arm32.cpp:172-178 | A patched branch in reach goes where it was aimed. |
| Arm32Trampoline.LdrImmRuns | zipr_unpin_plugin/unpin_arm32.cpp:227-297 | Running the literal-load trampoline loads from the address the literal stands for and comes back, for every state. |
| Arm32Trampoline.AddImmRuns | zipr_unpin_plugin/unpin_arm32.cpp:484-555 | Running the add-immediate trampoline leaves the sum and comes back. |
| Arm32Trampoline.SpillRuns | zipr_unpin_plugin/unpin_arm32.cpp:135-226 | Running the vldr or indexed-load trampoline does what the load did at the old address, with the scratch register restored and only one stack word used. |
| Arm32Trampoline.SpillRunsIntoSp | zipr_unpin_plugin/unpin_arm32.cpp:298-387 | When the destination is the stack pointer itself, the scratch register comes back right exactly if the word it is reloaded from happens to hold it. |
| Arm32Trampoline.DispatchRuns | zipr_unpin_plugin/unpin_arm32.cpp:388-483 | Running the computed-jump trampoline goes where the original would with the operand as it is in the trampoline, with the scratch register restored. |
| Arm32Trampoline.DispatchRunsIff | zipr_unpin_plugin/unpin_arm32.cpp:388-483 | So it reaches the original target exactly if the operand is the same in both places. |
| Arm32Trampoline.AddRegRuns | zipr_unpin_plugin/unpin_arm32.cpp:556-660 | Where the add-register trampoline ends: the sum taken in the trampoline plus the distance from there, flags as they were, and the scratch register restored from below the stack pointer as it then is. |
| Arm32Trampoline.AddRegRunsIff | zipr_unpin_plugin/unpin_arm32.cpp:556-660 | For every register add: right exactly if the sum is, the flags that S asks for are what they already are, and, into the stack pointer, the scratch register comes back. |
| Arm32PcUses.OnceIsRight | zipr_unpin_plugin/unpin_arm32.cpp:570-572 | The sum is right, everywhere, if the program counter is added once and unshifted, as the source assumes. |
| Arm32PcUses.ShiftedIff | zipr_unpin_plugin/unpin_arm32.cpp:564-572 | Shifted left it is right only if the instruction believes itself where the trampoline's add is. |
| Arm32PcUses.TwiceIff | zipr_unpin_plugin/unpin_arm32.cpp:564-572 | Added twice, exactly if the distance, shifted as well, is 0 modulo 2^32. |
| Arm32PcUses.UnusedIff | zipr_unpin_plugin/unpin_arm32.cpp:564-572 | Not used at all, as for shifted left. |
| Arm32PcUses.JumpOperandIff | zipr_unpin_plugin/unpin_arm32.cpp:388-483 | A computed jump whose operand is the program counter in its turn keeps its operand exactly if the distance, shifted as well, is 0 modulo 2^32. |
| Arm32PcUses.OtherUsesFail | zipr_unpin_plugin/unpin_arm32.cpp:564-572 | Adds that use the program counter twice or shifted and fail in every state. |
| Arm32PcUses.JumpOverPcFails | zipr_unpin_plugin/unpin_arm32.cpp:388-483 | A computed jump that fails in every state. |
| Arm32Simulation.TrampolineFaithfulIff | zipr_unpin_plugin/unpin_arm32.cpp:84-660 | All forms: for every old address, placement, flags and registers the trampoline ends as the original instruction would at its old address, the condition included, with no memory changed but the words at sp-0xfc and sp-0xf8, exactly if the state meets the condition for byte loads, flags, the stack pointer and uses of the program counter. |
| Arm32EveryState.EveryStateIff | zipr_unpin_plugin/unpin_arm32.cpp:84-660 | What can be told from the instruction: that condition holds in every state exactly if it loads no byte from a literal, sets no flags and neither indexed load nor register add goes into the stack pointer. |
| Arm32EveryState.ActsAsBefore | zipr_unpin_plugin/unpin_arm32.cpp:84-660 | So the trampoline of such an instruction that stands for the original address ends, in every state, as the instruction does there. |
| Arm32EveryState.ByteLoadReadsWord | zipr_unpin_plugin/unpin_arm32.cpp:275-280 | A byte load that fails. |
| Arm32EveryState.AddsLosesZeroFlag | zipr_unpin_plugin/unpin_arm32.cpp:619-641 | A flag-setting add that fails. |
| Arm32EveryState.AddIntoSpLosesRegister | zipr_unpin_plugin/unpin_arm32.cpp:619-648 | An add into the stack pointer that fails. |
| Arm32Simulation.LdrImmFaithfulIff | zipr_unpin_plugin/unpin_arm32.cpp:227-297 | The literal load is faithful exactly if it is a word load or the three bytes behind the loaded one are zero. |
| Arm32Simulation.AddImmWithSIsStuck | zipr_unpin_plugin/unpin_arm32.cpp:484-537 | An add-immediate with S never gets past the trampoline's second word. |
| Arm32Simulation.ObjectLoadReads | zipr_unpin_plugin/unpin_arm32.cpp:204-209 | With a relocation object, a load with an immediate offset reads at its original address plus the object's plus the addend, whatever its own displacement. |
| Arm32Simulation.LoadHitsScoop | irdb-libs/ir_builders/fill_in_cfg.cpp:679-683 | With a scoop as its object and minus the original address as its addend, a literal load reads the start of the scoop. |
| A64Words.Shift43Iff | zipr_unpin_plugin/unpin_aarch64.cpp:132-133 | Shifting left and right by 43 gives a number back exactly when it fits in 21 signed bits. |
| A64Words.Shift45Iff | zipr_unpin_plugin/unpin_aarch64.cpp:228-229 | Shifting left and right by 45 gives a number back exactly when it fits in 19 signed bits. |
| A64Words.Reencoded21 | zipr_unpin_plugin/unpin_aarch64.cpp:135-138 | Every other bit of the word is kept, and decoding gives the new immediate exactly when it fits. |
| A64Words.Reencoded19 | zipr_unpin_plugin/unpin_aarch64.cpp:231-232 | The same for the 19-bit immediate. |
| A64Unpin.LiteralInPlaceIff | zipr_unpin_plugin/unpin_aarch64.cpp:225-232 | Re-encoded in place, a literal load reads its old target plus the addend exactly when the distance moved is a multiple of 4. |
| A64Unpin.InPlaceIsRight | zipr_unpin_plugin/unpin_aarch64.cpp:111-140 | When the immediate fits, the edited word is the same instruction and forms or reads, at its new place, what it should. |
| A64Unpin.Unpin.MoveAdr | zipr_unpin_plugin/unpin_aarch64.cpp:111-219 | adr and adrp: in place exactly when in reach, otherwise the adrp and add trampoline; every other word stays as it was. |
| A64Unpin.Unpin.MoveLiteral | zipr_unpin_plugin/unpin_aarch64.cpp:221-433 | ldr of general and vector registers and ldrsw: in place exactly when in reach, otherwise the trampoline for the register kind; every other word stays as it was. |
| A64Unpin.Unpin.PlaceLiteral | zipr_unpin_plugin/unpin_aarch64.cpp:458-526 | The words written for a far literal decode to the intended trampoline, for each access size, and no word outside the place and the trampoline changes. |
| A64Unpin.LaterPlacementIff | zipr_unpin_plugin/unpin_aarch64.cpp:340-344 | A vector trampoline uses 20 bytes of which 12 are reserved: it outlives a later placement exactly if that does not start in the other 8. |
| A64Trampolines.AdrRuns | zipr_unpin_plugin/unpin_aarch64.cpp:155-214 | The adr trampoline leaves the exact address and nothing else changed. |
| A64Trampolines.AdrIntoZeroMovesSp | zipr_unpin_plugin/unpin_aarch64.cpp:194-209 | With register 31 as destination the trampoline adds the page offset to the stack pointer, which is harmless exactly if that is 0. |
| A64Trampolines.LdrRuns | zipr_unpin_plugin/unpin_aarch64.cpp:254-316 | The integer trampoline loads from the page of its target as seen from its second instruction, plus the scaled offset. |
| A64Trampolines.ReadIff | zipr_unpin_plugin/unpin_aarch64.cpp:279-308 | That is the target exactly when the first two instructions are on one page and the literal is aligned to its size. |
| A64Trampolines.VectorRuns | zipr_unpin_plugin/unpin_aarch64.cpp:322-429 | The vector trampoline loads from the page of its target and the scaled offset, restores x0 and changes only the eight bytes 128 below the stack pointer. |
| A64Trampolines.VectorReadIff | zipr_unpin_plugin/unpin_aarch64.cpp:394-410 | That is the target exactly when the literal is aligned to its size, 4, 8 or 16. |
| A64Trampolines.UnalignedVector | zipr_unpin_plugin/unpin_aarch64.cpp:394-410 | A 16-byte literal that is aligned to 4 only, and what is loaded instead. |
| A64Unpin.MovedInsnSimulates | zipr_unpin_plugin/unpin_aarch64.cpp:111-526 | All forms: from the old place and back to behind it, the destination holds what the instruction gives with the address that is used, and all else is preserved, for every placement and state. |
| A64Unpin.UsedIff | zipr_unpin_plugin/unpin_aarch64.cpp:279-410 | The address used is the one meant exactly under the alignment and page conditions. |
| A64Unpin.ActsAsBefore | zipr_unpin_plugin/unpin_aarch64.cpp:111-526 | Without an addend, and under those conditions, the moved instruction ends as the original does at its original address. |
| A64Unpin.TargetIs | zipr_unpin_plugin/unpin_aarch64.cpp:111-126 | With one, it counts bytes, but pages for adrp. |
| CallFrameSlicing.ImportProgram | irdb-libs/ir_builders/split_eh_frame.cpp:340-413 | The flattened program computes, from any state with no saved rows, the row and saved rows that the part in force at the address computes; it consists of instructions of that part and never has two frame offsets in a row. |
| CallFrameSlicing.PopToRemember | irdb-libs/ir_builders/split_eh_frame.cpp:358-375 | Popping back to the last remember_state undoes what a restore_state undoes. |
| CallFrameSlicing.RefinesCollapsed | irdb-libs/ir_builders/split_eh_frame.cpp:387-400 | Of two frame offsets in a row the first has no effect. |
| CallFrameSlicing.RefinesRestored | irdb-libs/ir_builders/split_eh_frame.cpp:358-375 | What was built since a remember_state does not survive its restore_state, and nothing before it is lost. |
| CallFrameSlicing.RefinesUnmatched | irdb-libs/ir_builders/split_eh_frame.cpp:365-370 | A restore_state without a remember_state is an error in the original too, so emptying the output loses no meaning. |
| CallFrames.TableAgrees | irdb-libs/ir_builders/split_eh_frame.cpp:346-353 | The part in force at an address computes the row that the table of section 6.4.1 of DWARF 5 has for it. |
| CallFrames.InForceEnds | irdb-libs/ir_builders/split_eh_frame.cpp:346-353 | The part in force advances no further than the address, and the next instruction would. |
| CallFrames.LookupEnds | irdb-libs/ir_builders/split_eh_frame.cpp:346-353 | The row of an address starts at or before it, and the next row after it. |
| CallFrameSlicing.BuildProgram | irdb-libs/ir_builders/split_eh_frame.cpp:416-420 | The common and the specific program stored for an instruction together give its row of the table. |
| EhProgramCache.KeyStrictTotal | irdb-libs/ir_builders/split_eh_frame.cpp:264-294 | Comparing hash codes first and tuples second is, for every hash function, a strict order whose equivalence is equality. |
| EhProgramCache.Programs.Find | irdb-libs/ir_builders/split_eh_frame.cpp:426-427 | A lookup finds a program exactly if one with the same value is cached. |
| EhProgramCache.Programs.SetEhProgram | irdb-libs/ir_builders/split_eh_frame.cpp:426-477 | An instruction gets a program with the value built for it; programs given out before are untouched. |
| EhProgramCache.Programs.BuildAll | irdb-libs/ir_builders/split_eh_frame.cpp:298-477 | Over a run, two instructions share a program exactly when their programs, and personalities, have the same value. |
| EhProgramCache.FdeMemo.Lookup | irdb-libs/ir_builders/split_eh_frame.cpp:303-320 | The remembered frame description gives the answer of a fresh search, if descriptions are disjoint. |
| CallLowering.CallInsn.AdjustEspOffset | irdb-libs/ir_builders/fix_calls.cpp:318-432 | The edited bytes decode to the same operand with its displacement grown, also where an 8-bit displacement has to become a 32-bit one. |
| CallLowering.CallInsn.ConvertToJump | irdb-libs/ir_builders/fix_calls.cpp:442-518 | A direct call becomes a direct jump. An indirect one becomes a near jump; its displacement is a word larger exactly for the bytes FF 54 and FF 94 with base 4 and, in 64-bit code, FF 14 24, short of overflow. For those and for operands off the stack, and for no others, the jump names what the call named, and pushing and jumping is calling, unless the push overwrites the word. |
| CallLowering.SurvivesIff | irdb-libs/ir_builders/fix_calls.cpp:377-431 | The operands that come out right are those off other registers and those whose displacement ends a word larger, modulo the address width. |
| CallLowering.MovedUpIff | irdb-libs/ir_builders/fix_calls.cpp:377-452 | Of the operands off the stack, these are exactly the ones with the bytes listed. |
| CallLowering.LoweredCallIsFaithful | irdb-libs/ir_builders/fix_calls.cpp:572-631 | For every call, register file and memory the jump names the same register value or word exactly for those operands, and then pushing and jumping equals calling unless the word is where the return address goes. |
| X86Calls.JumpReadsReturn | irdb-libs/ir_builders/fix_calls.cpp:572-631 | An operand just below the stack pointer makes the jump go to the return address instead. |
| CallLowering.SomeDoNotSurvive | irdb-libs/ir_builders/fix_calls.cpp:377-471 | Concrete encodings that do not come out right. |
| PushRelocation.ReturnPush.constructor | irdb-libs/ir_builders/fix_calls.cpp:572-623 | The push holds the return address without the file base, cut off at 32 bits. |
| PushRelocation.ReturnPush.HandlePush64Relocation | zipr_push64_reloc_plugin/push64_relocs.cpp:66-131 | The push becomes a call, and a subtraction whose relocation carries the pushed value as a signed offset. |
| PushRelocation.ReturnPush.UpdatePush64Add | zipr_push64_reloc_plugin/push64_relocs.cpp:166-243 | Only the immediate of the subtraction changes; it becomes the distance to the address wanted, cut off at 32 bits. |
| PushRelocation.SubIsOffStackTop | zipr_push64_reloc_plugin/push64_relocs.cpp:100-131 | The subtraction is one, of the width of an address, from the top of the stack. |
| PushRelocation.CallSubPushes | zipr_push64_reloc_plugin/push64_relocs.cpp:100-131 | Calling and subtracting has the effect of pushing the difference. |
| PushRelocation.PushedReturnIff | zipr_push64_reloc_plugin/push64_relocs.cpp:166-243 | Under every load bias the pair leaves the wanted return address: in 32-bit code always, in 64-bit code exactly when the distance fits in 32 signed bits. |
| PushRelocation.PairPushesReturn | zipr_push64_reloc_plugin/push64_relocs.cpp:166-243 | So the pair and the original push leave the same registers and memory. |
| CallChain.ChainIsCall | irdb-libs/ir_builders/fix_calls.cpp:572-631 | The whole chain: call, subtraction and edited jump together leave the stack and registers of the original call exactly if the distance fits, under every load bias, and go to the same target. |
| UnpinBudget.Unpinner.UnpinElfTable | irdb-libs/ir_builders/fill_in_indtargs.cpp:3809-3903 | Comes to looking at each eligible entry in order. For every entry from the first on that is not null, names an instruction and has only the five provenances there is, at its offset, a relocation exactly if its instruction is unpinned, and there is no other new one. |
| UnpinBudget.Unpinner.UnpinType3SwitchTable | irdb-libs/ir_builders/fill_in_indtargs.cpp:4057-4166 | The same, for entries with only the three provenances before the table; only provenances of its own unpinned targets change. |
| UnpinBudget.Unpinner.UnpinType4SwitchTable | irdb-libs/ir_builders/fill_in_indtargs.cpp:4176-4307 | The same, for a table of 4-byte entries with multiplier 1, entries being distances from its start; any other table changes nothing. |
| UnpinBudget.MarkedBits | irdb-libs/ir_builders/fill_in_indtargs.cpp:4146-4158 | After a type-3 table an eligible target whose instruction is unpinned has just the two switch provenances, and any other one what it had. |
| UnpinBudget.Unpinner.Entry | irdb-libs/ir_builders/fill_in_indtargs.cpp:4273-4304 | One eligible entry: done exactly if the limit allows another one or its instruction has been unpinned before; if so it gets its relocation and the pin is cleared, if not nothing but the count changes. |
| UnpinTables.Unpin | irdb-libs/ir_builders/fill_in_indtargs.cpp:4426-4427 | Both passes over all tables come to a run that looks at the eligible entries of each table in turn, with targets complete in every switch worked out first. |
| UnpinTables.UnpinSwitches | irdb-libs/ir_builders/fill_in_indtargs.cpp:4309-4390 | Exactly the switches that are analysed and have a scoop are run, by kind. |
| UnpinTables.AlwaysCompleteTargets | irdb-libs/ir_builders/fill_in_indtargs.cpp:4309-4355 | The targets that some complete dispatch has and no other kind has. |
| UnpinTables.ElfTablesIff | irdb-libs/ir_builders/fill_in_indtargs.cpp:3809-3812 | The tables of the object format are the four sections by name; in .got.plt the first three entries are left out, and only in .got may entries name no instruction. |
| UnpinTables.SwitchTablesIff | irdb-libs/ir_builders/fill_in_indtargs.cpp:4356-4390 | Which switches have a table, and of which type, by their provenance. |
| UnpinTables.RunIsLooks | irdb-libs/ir_builders/fill_in_indtargs.cpp:4426-4427 | A run of any tables comes to looking at all their eligible entries one after another. |
| UnpinTables.RunIsSound | irdb-libs/ir_builders/fill_in_indtargs.cpp:3848-3903 | Over any run of tables of any kind and under any limit all-or-nothing is kept, and nothing is undone. |
| UnpinTables.EveryEntryRelocated | irdb-libs/ir_builders/fill_in_indtargs.cpp:4093-4162 | After any run of tables, every entry of every table that its provenance allowed when its table was looked at has its relocation, at its own offset, exactly if its instruction has lost its pin. |
| UnpinTables.NoOtherReloc | irdb-libs/ir_builders/fill_in_indtargs.cpp:3848-3903 | And every new relocation is that of such an entry. |
| UnpinTables.ElidedInARun | irdb-libs/ir_builders/fill_in_indtargs.cpp:4273-4291 | An instruction with an elided entry in any table is never unpinned later. |
| UnpinBudget.LookAllIsSound | irdb-libs/ir_builders/fill_in_indtargs.cpp:3848-3903 | The same within any list of eligible entries. |
| UnpinBudget.AllEntriesRelocated | irdb-libs/ir_builders/fill_in_indtargs.cpp:4093-4162 | Whatever is looked at, in whatever order, an entry has its relocation exactly if its instruction is unpinned in the end. |
| UnpinBudget.RelocsStem | irdb-libs/ir_builders/fill_in_indtargs.cpp:3848-3903 | Every new relocation is that of an entry that was looked at. |
| UnpinBudget.UnpinnedIff | irdb-libs/ir_builders/fill_in_indtargs.cpp:3830-3853 | An instruction ends unpinned exactly if it was before or one of its entries is among the first that the limit allows. |
| UnpinBudget.LooksAtEach | irdb-libs/ir_builders/fill_in_indtargs.cpp:4216-4304 | Each eligible entry is looked at once, in order, and counted. |
| UnpinBudget.UnpinIsSound | irdb-libs/ir_builders/fill_in_indtargs.cpp:4273-4304 | An instruction is unpinned for the first time only while no entry has been elided, so all its entries get relocations. |
| UnpinBudget.ElidedForGood | irdb-libs/ir_builders/fill_in_indtargs.cpp:4273-4291 | An instruction with an elided entry is never unpinned later. |
| UnpinBudget.BothKindsIff | irdb-libs/ir_builders/fill_in_indtargs.hpp:99-107 | Which targets both kinds of switch table may unpin, and that a type-3 table bars type-4 tables from then on. |
| SwitchPatching.Type4PatchIff | zipr_unpin_plugin/unpin.cpp:213-245 | A patched entry makes the switch go to the new location of the instruction it was looked up as exactly when the dispatch has no displacement, modulo 2^32; and where its old target has gone exactly when the two have moved so as to make up for it. |
| SwitchPatching.DisplacedTable | irdb-libs/ir_builders/fill_in_indtargs.cpp:2626-2635 | A table with a displacement that goes wrong. |
| SwitchPatching.Type4ExactIff | zipr_unpin_plugin/unpin.cpp:213-245 | Without a displacement the switch goes exactly there when the location is within 32 signed bits of the table. |
| SwitchPatching.PatchedInScoop | zipr_unpin_plugin/unpin.cpp:233-243 | The unpinner of scoops patches an entry in that way. |
| SharedSlots.OneRelocPerLook | irdb-libs/ir_builders/fill_in_indtargs.cpp:4293-4297 | A slot gets one relocation each time it is looked at if its instruction is unpinned, and none otherwise. |
| SharedSlots.SharedSlotIff | zipr_unpin_plugin/unpin.cpp:213-245 | After any run of tables and the patching of scoops, an entry looked at n times is right exactly if the distance its instruction moved, taken n-1 times, is 0 modulo 2^32. |
| SharedSlots.PointerSlotIff | zipr_unpin_plugin/unpin.cpp:274-294 | After any run and the patching of scoops, a pointer that was looked at is the new location of its instruction, cut off at its width, exactly if that is unpinned and not pinned, however often it was looked at; if not it is as it was. |
| SharedSlots.TwoLooks | irdb-libs/ir_builders/fill_in_indtargs.cpp:4356-4390 | A table that two dispatches go through, wherever in a run of other tables, has each of its entries looked at twice. |
| SharedSlots.TwoDispatchesIff | irdb-libs/ir_builders/fill_in_indtargs.cpp:4356-4390 | Such an entry is patched right exactly if its instruction has not moved, modulo 2^32. |
| CfgDiscovery.PopulateCfg.FillInCfg | irdb-libs/ir_builders/fill_in_cfg.cpp:346-387 | Terminates; no instruction is lost or found twice; every direct successor is linked, to the right instruction, or cannot be decoded; and so is the successor of a branch past a lock prefix. |
| CfgDiscovery.FilledIn | irdb-libs/ir_builders/fill_in_cfg.cpp:74-235 | What that says of any address, in terms of lengths, branch targets and the prefix byte 0xF0. |
| CfgDiscovery.PopulateCfg.AddNewInstructions | irdb-libs/ir_builders/fill_in_cfg.cpp:244-344 | Adds exactly the decodable missed addresses, none of which had an instruction, and counts the others. |
| CfgDiscovery.RoundDiscovers | irdb-libs/ir_builders/fill_in_cfg.cpp:382-387 | A round is repeated exactly if it found something, and then fewer addresses are left to find. |
| CfgDiscovery.FallthroughIsRight | irdb-libs/ir_builders/fill_in_cfg.cpp:74-130 | A fallthrough link is to the next instruction, or its address is recorded as missed. |
| CfgDiscovery.TargetIsRight | irdb-libs/ir_builders/fill_in_cfg.cpp:157-235 | A target link is to the branch target, or one byte before it if a lock prefix is there, or the address is recorded as missed. |
| LandingPads.Absorber.Absorb | irdb-libs/ir_builders/fill_in_cfg.cpp:925-956 | The worklist gives the function exactly the instructions without one that its landing pads reach through such instructions. |
| LandingPads.Absorber.CollectPads | irdb-libs/ir_builders/fill_in_cfg.cpp:913-922 | The landing pads without a function, each under the function of an instruction that throws to it. |
| LandingPads.Absorber.FillInLandingPads | irdb-libs/ir_builders/fill_in_cfg.cpp:906-957 | Over all functions: nothing owned is reassigned, and what gets an owner is reachable from a pad of that owner. |
| LandingPads.AbsorbedMeans | irdb-libs/ir_builders/fill_in_cfg.cpp:925-956 | What had a function keeps it; the target, fallthrough and landing pad of what has got one have one. |
| LandingPads.AbsorbedFrom | irdb-libs/ir_builders/fill_in_cfg.cpp:913-956 | What has got a function is on a way from a landing pad of that function over instructions that had none. |
| LandingPads.ReachableIsAbsorbed | irdb-libs/ir_builders/fill_in_cfg.cpp:906-957 | And everything reachable from any pad gets an owner. |
| BackSearch.CalcPreds | irdb-libs/ir_builders/back_search.hpp:49-59 | The predecessors are exactly the inverse of the target and fallthrough edges. |
| BackSearch.BackupUntil | irdb-libs/ir_builders/back_search.hpp:111-174 | Ends on every graph; on success the limits allow a trail to a match. If they allow no trail to a stop, it succeeds exactly if they allow one to a match, recursing or not. A search that does not recurse fails only if the chain of unique predecessors has no match. |
| BackSearch.StepsWithin | irdb-libs/ir_builders/back_search.hpp:111-174 | What one step back uses up of the two limits: an instruction if there is one predecessor, and if there are several all but a share of the recursions. |
| BackSearch.WithinSteps | irdb-libs/ir_builders/back_search.hpp:111-174 | And there is no other way on. |
| BackSearch.FoundMeans | irdb-libs/ir_builders/back_search.hpp:111-174 | On a trail to a match nothing before it matches or stops. |
| BackSearch.ChainHasNoMatch | irdb-libs/ir_builders/back_search.hpp:111-139 | Why a failed search along unique predecessors has missed nothing. |
| HashTable.Hashtable.Put | irdb-libs/meds2pdb/gen_hash.cpp:111-141 | Stores the value for the key and changes no other entry, with at most one rehash; the count grows exactly for a new key. |
| HashTable.UpdatedMeans | irdb-libs/meds2pdb/gen_hash.cpp:111-141 | Afterwards the key has the value, under the key object that was there before if there was one, and every other key what it had. |
| HashTable.Hashtable.Get | irdb-libs/meds2pdb/gen_hash.cpp:143-154 | Returns the value of the entry with that key, or nothing if there is none. |
| HashTable.Hashtable.Rehash | irdb-libs/meds2pdb/gen_hash.cpp:83-109 | Doubles the table and keeps the entries. |
| HashTable.OneEntryPerKey | irdb-libs/meds2pdb/gen_hash.cpp:117-125 | No two entries anywhere have the same key. |
| HashTable.IndexIsRemainder | irdb-libs/meds2pdb/gen_hash.cpp:114 | The mask gives the remainder of the hash code, also of a negative one, for every length that is a power of two. |
| HashTable.FlattenIsContents | irdb-libs/meds2pdb/gen_hash.cpp:171-239 | The chains one after another are all entries, each once. |
| HashTable.Iterator.GetNext | irdb-libs/meds2pdb/gen_hash.cpp:183-239 | Successive calls give those entries in that order and then nothing. |

## Left out

- Reading and writing of databases and object files, logging, options: no property lives there.
- The disassemblers: instructions are the few encodings the passes touch, or decoded operands given
  as parameters. On A32 the loads are ldr and ldrb in the word and byte encodings; the source treats
  halfword and doubleword forms by the same mnemonic test.
- Where free ranges come from and how a branch is patched: a patched branch in reach is assumed to
  go to its target. The patching itself is not part of this model.
- Accesses that wrap around the top of the address space on A32, and A32 code that overwrites itself.
- A64Machine: instructions are fetched from a code map that stores cannot change.
- CallLowering.CallInsn.ConvertToJump: far calls are not modelled, because they push a segment too.
- Arithmetic flags in the call and subtraction pair.
- MoveGlobals.MoveGlobals.CoalesceTied: the loop over ties is one visit per round, because every
  visit merges and starts over; offsets of fixups and relocations are not cut off at 32 bits.
- Referents.MoveAndUnpin: where scoops go is a parameter, and there are no pointers to code; with
  them, Referents.DataPointerRightIff still holds.
- X86Operands.PcrelOperand: operands relative to another instruction instead of a scoop.
- Arm32Plugin.Plugin.HandlePcrelReloc: an add whose destination is the program counter, other than
  the addne and addls that dispatch, is required not to occur: the source would load the literal
  straight into the program counter.
- UnpinBudget.Unpinner.UnpinElfTable: the part for dynamic symbols is not modelled.
- EhProgramCache.Programs.BuildAll: the five numbers of a key are compared as a list of equal length.
- EhProgramCache.FdeMemo.Lookup: how the frame description parser searches is not modelled.
- CallFrames.Step: rules are kept in encoded form, and set_loc and architecture-specific
  instructions are not modelled.
- CfgDiscovery.PopulateCfg.FillInCfg: delay slots are not modelled, and executable sections are taken
  to be disjoint.
- BackSearch.BackupUntil: regular expressions are the sets of instructions they match.
- HashTable.Hashtable.Put: chains are sequences, not linked cells.
- SharedSlots.SharedSlotIff: for scoops that have not been merged since their tables were looked at.
- Arm32Trampoline.SpillRuns: a load cannot have the program counter as its index, which is
  unpredictable by section A8.8.
- RangeIndex.Find: an ordered tree is a sorted sequence that is searched by halving.
- Pattern heuristics for switch tables, analysis annotations, the fuzzy choice of a scoop, other
  processors, the reading of exception tables: no specification to hold them against.
