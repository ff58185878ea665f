# GCC flow analysis, RTL emitter and MIPS/Linux assembler output, in Dafny

This project models three files of GCC (egcs 2.91.66, MIPS configuration) and proves properties of the model.

- **gcc/flow.c.** The data-flow pass:
  - the basic-block partitioner: the counting scan, the tagging scan, the drops-in flags, the reachability marking over label references, and the deletion of unreachable blocks, with the clean-up of exception regions;
  - the predecessor and successor lists;
  - the simple-bitmap (sbitmap) routines;
  - compute_dominators;
  - register liveness: mark_set_1, mark_used_regs, insn_dead_p, libcall_dead_p, propagate_block and the relaxation of life_analysis_1;
  - auto-increment formation (find_use_as_address, try_pre_increment, find_auto_inc);
  - the recount of register usage, recompute_reg_usage.
- **gcc/emit-rtl.c.** The RTL emitter:
  - the doubly-linked instruction chain, whose pointer surgery, sequence stack and searches are modelled as an arena of handles;
  - the insn and label counters;
  - emit, emit_insn, emit_label, emit_barrier and emit_note;
  - classify_insn, gen_rtx_CONST_INT, gen_reg_rtx with its register tables;
  - subreg_lowpart_p and the constant path of gen_lowpart_common.
- **gcc/config/mips/linux.h.** The assembler-output macros:
  - the ESCAPES table;
  - ASM_OUTPUT_LIMITED_STRING and ASM_OUTPUT_ASCII. These are proved to assemble back to the bytes they were given;
  - ASM_OUTPUT_SECTION_NAME with its table of sections.

## Representation choices

- **Expressions and instructions.** RTL expressions are a datatype, `Rtl.Rtx`. Flow's instruction chain is a sequence of `Insns.Insn` in NEXT_INSN order. Pointers between instructions are INSN_UIDs.
- **Deletion.** A deleted instruction stays in its slot:
  - PUT_CODE to NOTE rewrites the element;
  - flow_delete_insn clears a per-position "linked" flag.
- **Register sets.** Regsets are `set<nat>`.
- **Bitmaps.** An sbitmap is an array of words, and each word is the set of its one bits. The C operators `&`, `|` and `~` are intersection, union and complement within a word's bits.
- **The emitter.** It is two classes:
  - `Emit.Chain` holds the arena: NEXT_INSN and PREV_INSN, first_insn and last_insn, and the sequence stack. A ghost shape lists the chains those pointers spell;
  - `Emit.InsnEmitter` holds cur_insn_uid, the label counters and the last line note.
  Each pointer rewrite is a function on the arena, in the order the source performs its stores (`InsnArena`). A lemma shows that each rewrite keeps every chain linked, disjoint and allocated.
- **Values outside the model.** Target macros, host parameters and most functions defined outside the three files become parameters or fields of `Machine.Target`. I/O is a returned string. Examples are WORDS_BIG_ENDIAN, validate_change and dead_or_set_p. Five RTL predicates from rtlanal.c, which is not part of this model, are defined outright instead: single_set (Insns.SingleSet), rtx_equal_p (Rtl.RtxEqual), reg_overlap_mentioned_p (RegUse.Overlaps), side_effects_p (Rtl.SideEffects) and volatile_refs_p (Rtl.VolatileRefs). "## Left out" says where each differs from rtlanal.c.

## Model

| member | source | states |
|---|---|---|
| Insns.LabelNotes | gcc/flow.c:485-490 | a label is in the list exactly when some REG_LABEL note of the instruction names it |
| Insns.LabelNotesAppend | gcc/flow.c:485-490 | one note contributes its label exactly when it is a REG_LABEL, and two note lists side by side give the first's labels followed by the second's: the list is the REG_LABEL labels in note order, each as often as noted |
| Insns.AsDeletedNote | gcc/flow.c:983-991 | a deleted instruction becomes NOTE_INSN_DELETED with its UID, and nothing else of it changes |
| Insns.FindUid | gcc/flow.c:1681-1690 | the position found holds the instruction with that UID, and None means no instruction of the chain has it |
| Patterns.ScanParallel | gcc/emit-rtl.c:3082-3094 | the scan of a PARALLEL's elements from the end returns the kind of the first decisive element it meets, and INSN when there is none |
| Patterns.ClassifyInsn | gcc/emit-rtl.c:3065-3097 | classify_insn picks the insn kind from the pattern's code |
| Patterns.ScanParallelLast | gcc/emit-rtl.c:3082-3094 | the scan finds the decisive element with the largest index, and none exactly when there is none |
| Patterns.ClassifyInsnCases | gcc/emit-rtl.c:3065-3097 | case by case: a label stays a label; RETURN and a SET of pc are jumps; a CALL, or a SET from one, is a call; any other SET is an INSN; a PARALLEL takes the kind of its last decisive element, and is an INSN iff it has none; any other pattern is an INSN |
| Patterns.GenConstInt | gcc/emit-rtl.c:248-261 | gen_rtx_CONST_INT returns an object carrying the value asked for |
| Patterns.GenConstIntValue | gcc/emit-rtl.c:248-261 | the object has the requested value, and it is the shared object exactly when the value lies in -MAX_SAVED_CONST_INT .. MAX_SAVED_CONST_INT |
| Patterns.GenConstIntSharing | gcc/emit-rtl.c:248-261 | two requests for small values give the same object exactly when the values agree; a large value never gets a shared object |
| Lowpart.TruncDiv | gcc/emit-rtl.c:650-652 | C division, rounding toward zero, for both signs |
| Lowpart.LowpartWord | gcc/emit-rtl.c:649-652 | the low-part word is 0 unless the target is big-endian and the value spans more than one word. Then it lies between 0 and the last word |
| Lowpart.SubregLowpartWordZero | gcc/emit-rtl.c:1085-1101 | on a little-endian target, or for a one-word value, a SUBREG is the low part iff it starts at word 0 |
| Lowpart.LowpartSubregIsLowpart | gcc/emit-rtl.c:1085-1101 | the SUBREG that gen_lowpart_common builds around a register is recognised by subreg_lowpart_p, and no other word of that register is |
| Lowpart.SignExtendRange | gcc/emit-rtl.c:754-755 | the shifted-back value lies in the signed range of the mode's width and keeps the constant's low bits |
| Lowpart.SignExtendFixes | gcc/emit-rtl.c:754-758 | a constant already in the mode's signed range is its own sign extension |
| Lowpart.SignExtendIdempotent | gcc/emit-rtl.c:754-755 | sign-extending twice is sign-extending once |
| Lowpart.LowpartConstIntNarrow | gcc/emit-rtl.c:747-759 | for a mode narrower than the host word, the low part of a CONST_INT exists, fits the mode and keeps the low bits; a constant that already fits comes back unchanged |
| Lowpart.LowpartConstIntNone | gcc/emit-rtl.c:740-746 | no low part (0) exactly for modes wider than one host word and narrower than two |
| RegTables.Doubled | gcc/emit-rtl.c:524-548 | the new table is twice as long, holds the old entries at their indices, and is zero in the new half |
| RegTables.PartMode | gcc/emit-rtl.c:512-517 | the part mode of a complex mode is a scalar of half its size |
| RegTables.RegTables.constructor | gcc/emit-rtl.c:3324-3340 | reg_rtx_no starts at LAST_VIRTUAL_REGISTER + 1, and the three tables have LAST_VIRTUAL_REGISTER + 101 entries, all zero |
| RegTables.RegTables.Grow | gcc/emit-rtl.c:524-548 | all three tables double, keep their entries and are zero in the new half |
| RegTables.RegTables.GenRegRtx | gcc/emit-rtl.c:499-562 | aborts during or after reload. A complex mode gets a CONCAT of two consecutive pseudos of its part mode; any other mode gets the REG numbered reg_rtx_no. regno_reg_rtx grows by exactly those REGs. When the tables grow, regno_pointer_flag and regno_pointer_align keep their entries and the new entries are 0 |
| RegTables.RegTables.NewPseudo | gcc/emit-rtl.c:532-561 | the REG numbered reg_rtx_no is recorded in regno_reg_rtx and reg_rtx_no advances. When the tables are full they double, keeping their entries, with the new entries 0 |
| Machine.Words | gcc/flow.c:1924-1935 | the registers a value occupies: itself for a pseudo, HARD_REGNO_NREGS consecutive hard registers, and always itself |
| Machine.Range | gcc/flow.c:1266-1272 | the register numbers lo .. hi-1, exactly |
| Rtl.Operands | gcc/flow.c:2826-2844 | the 'e' operands of an expression and its vector elements, in format order. Each is smaller than the expression |
| Rtl.StripDest | gcc/flow.c:2121-2128 | the destination with SUBREG, STRICT_LOW_PART and the bit-field extracts stripped. It is never one of those codes |
| Insns.SingleSet | gcc/flow.c:2331 | single_set: a result is a SET of a real insn; a real insn's SET pattern is its own single set; a pattern that is neither SET nor PARALLEL has none |
| Insns.SingleSetFromSpec | gcc/flow.c:2855 | the PARALLEL loop of single_set ends with a SET exactly when one element is the only counted SET (a SET whose destination has no REG_UNUSED note, or one with side effects), and then with that element |
| Insns.SingleSetParallel | gcc/flow.c:2331 | on a real PARALLEL, single_set gives a SET iff exactly one element is a counted SET, and then that element; USEs, CLOBBERs and every other element are ignored |
| RegUse.SetDest | gcc/flow.c:2102-2106 | SET_DEST of a SET or CLOBBER |
| RegUse.SetOne | gcc/flow.c:2102-2298 | the registers mark_set_1 records as set. It is empty unless the stripped destination is a register, leaves out the frame pointers, a fixed argument pointer and global registers, and spans all words of a hard register |
| RegUse.SetRegsParallel | gcc/flow.c:2076-2097 | a register is set by a PARALLEL iff one of its SET or CLOBBER elements sets it |
| RegUse.SetRegsBelow | gcc/flow.c:2076-2097 | every register set lies below `max` when the pattern mentions only registers below it |
| RegUse.StripDestRegs | gcc/flow.c:2121-2128 | stripping a destination keeps its register among the registers it mentions |
| RegUse.LastMemAfterOne | gcc/flow.c:2130-2143 | last_mem_set after one store. A store to memory, or to a register its address mentions, forgets it. A store to a memory reference without side effects that does not mention the stack pointer becomes it |
| RegUse.UsedReg | gcc/flow.c:2567-2622 | a read register makes the stack pointer, a frame pointer, a fixed argument pointer or a global register live alone; any other register with all its words |
| RegUse.ReturnUses | gcc/flow.c:2794-2815 | a RETURN uses the stack pointer when exiting needs its value, and the global registers and the registers the epilogue uses |
| RegUse.UsedBelow | gcc/flow.c:2501-2845 | every register a pattern makes live lies below `max` when the registers it mentions do |
| RegUse.UsedPlainStore | gcc/flow.c:2732-2770 | a plain store into a register other than a frame pointer uses only what its source uses |
| RegUse.UsedPartialStore | gcc/flow.c:2739-2760 | a STRICT_LOW_PART or ZERO_EXTRACT store also uses the register it stores into |
| RegUse.DeadTestDest | gcc/flow.c:1900-1903 | the destination insn_dead_p tests: SUBREG, STRICT_LOW_PART and ZERO_EXTRACT stripped; a SIGN_EXTRACT stays |
| RegUse.ExtraWordNeededIff | gcc/flow.c:1924-1935 | the loop over a hard register's extra words finds one needed iff some extra word is in `needed` |
| RegUse.InsnDeadCall | gcc/flow.c:1887-1889 | a SET from a CALL is never dead unless calls may be deleted |
| RegUse.InsnDeadRegStore | gcc/flow.c:1899-1937 | a SET of a register is dead iff the register and all its words are not needed and it is not a global register, frame pointer or fixed argument pointer |
| RegUse.InsnDeadParallel | gcc/flow.c:1939-1954 | a PARALLEL is dead iff every element other than a CLOBBER or USE is dead |
| RegUse.InsnDeadRepeatedStore | gcc/flow.c:1893-1898 | a store to the non-volatile memory reference stored into last is dead, unless its source is a call that may not be deleted |
| RegUse.LastCallSet | gcc/flow.c:2011-2017 | the last SET of a CALL among a PARALLEL's elements, if any |
| RegUse.LibcallDeadValueReg | gcc/flow.c:1983-2031 | a libcall whose call sets hard register `v` is dead iff `v` and its words are not needed and `v` is not special |
| Propagate.RetvalOf | gcc/flow.c:1681-1684 | the target of an instruction's first REG_RETVAL note |
| Propagate.FirstCall | gcc/flow.c:1996-2006 | the pattern of the first CALL_INSN of the run, and none when the run holds no call |
| Propagate.CallKilled | gcc/flow.c:1784-1792 | the call-used hard registers that are neither global nor fixed |
| Propagate.GlobalHard | gcc/flow.c:1797-1802 | the global hard registers, exactly |
| Propagate.DeleteRange | gcc/flow.c:1687-1700 | positions lo .. hi-1 become deleted notes and every other position is unchanged |
| Propagate.SkipDeleted | gcc/flow.c:1687-1688 | the first position from j on that is not INSN_DELETED_P, or None when the walk would pass k |
| Propagate.Step | gcc/flow.c:1622-1864 | one iteration of the backward scan. A NOTE adjusts the loop depth and aborts at depth 0; a real instruction is processed by RealStep |
| Propagate.RealStep | gcc/flow.c:1647-1826 | a real instruction: it is dead when it is only dead stores and not INSN_VOLATILE. A dead libcall may go as a whole. On the final pass dead code becomes deleted notes; otherwise the live set follows the sets, uses and call clobbers |
| Propagate.Scan | gcc/flow.c:1620-1864 | the scan from position k down to the block's first instruction |
| Propagate.TrailingNotes | gcc/flow.c:1587-1607 | the notes after the block's end that the scan takes in, with the loop depth adjusted going forwards |
| Propagate.Propagate | gcc/flow.c:1553-1864 | propagate_block as a function of the block, the live set at its end, the significant set, the loop depth and regs_live_at_setjmp |
| Propagate.PropagateBlock | gcc/flow.c:1553-1864 | the loop, writing deleted notes in place, computes exactly what Propagate states: the chain, the live set, the significant set and regs_live_at_setjmp |
| Propagate.StepAt | gcc/flow.c:1622-1864 | one iteration in place is one Step |
| Propagate.RealStepAt | gcc/flow.c:1647-1826 | one real instruction in place is one RealStep |
| Propagate.DeleteRun | gcc/flow.c:1687-1700 | the final pass's deletion of a dead libcall, last instruction first, leaves exactly DeleteRange |
| Propagate.LiveBeforeInsn | gcc/flow.c:1749-1808 | across a scanned instruction, a register is live before it iff it is live after it and neither set nor killed by a call, or it is used by the instruction |
| Propagate.LiveBeforeCall | gcc/flow.c:1773-1808 | before a live CALL the stack pointer and every global register are live, and a call-clobbered register the call does not read is not |
| Propagate.DeadInsnUsesNothing | gcc/flow.c:1725-1740 | outside the final pass a dead instruction makes nothing live and kills what it sets |
| Propagate.StackPopNoEffect | gcc/flow.c:1742-1747 | a surviving stack pop changes nothing |
| Propagate.FinalDeletesDead | gcc/flow.c:1666-1680 | on the final pass, a dead instruction without REG_RETVAL becomes a deleted note and the live state is unchanged |
| Propagate.FinalDeletesLibcall | gcc/flow.c:1681-1700 | on the final pass, a dead libcall becomes deleted notes from its first instruction that is not INSN_DELETED_P through its last |
| Propagate.DeadLibcallSkipped | gcc/flow.c:1703-1740 | outside the final pass the scan resumes before a dead libcall's first instruction, and nothing becomes live |
| Propagate.StepBelow | gcc/flow.c:1622-1864 | outside the final pass one iteration keeps the live set below `max` |
| Propagate.ScanBelow | gcc/flow.c:1620-1864 | outside the final pass the scan keeps the live set below `max` |
| Propagate.PropagateBelow | gcc/flow.c:1553-1864 | outside the final pass propagate_block leaves the chain alone and the live set below `max` |
| Propagate.StepSig | gcc/flow.c:1729-1740 | the live set an iteration computes does not depend on the significant set or on whether it is recorded |
| Propagate.PropagateSig | gcc/flow.c:1553-1864 | outside the final pass the live set is the same whatever significant set is handed in |
| Life.SelfSetsOnlyIff | gcc/flow.c:1176-1192 | the walk over a PARALLEL runs to its end iff every element is a USE, a CLOBBER or a SET of a register to itself |
| Life.PrePassed | gcc/flow.c:1139-1205 | an instruction changes in the pre-pass iff it is an obvious no-op move without REG_EQUAL. It then becomes a deleted note with the same UID |
| Life.VolatileDiffers | gcc/flow.c:1203-1222 | the flag as written and the intended flag differ exactly on stack allocations without volatile references |
| Life.StackAllocationDeletable | gcc/flow.c:1208-1222 | the pre-pass as written leaves a stack allocation deletable, and insn_dead_p then finds it dead |
| Life.MarkVolatile | gcc/flow.c:1135-1224 | the loop turns each instruction into its pre-passed form in place and returns INSN_VOLATILE for every position, as written or as intended, as its flag selects |
| Life.PrePass | gcc/flow.c:1135-1224 | the chain after the pre-pass, instruction by instruction, with its flags |
| Life.PrePassBelow | gcc/flow.c:1135-1224 | the pre-pass keeps every register mention of the chain |
| Life.RefBlocks | gcc/flow.c:1370-1380 | BLOCK_NUM of each instruction on a LABEL_REFS chain |
| Life.Preds | gcc/flow.c:1360-1382 | the blocks that take in a block's live_at_start: the block control drops in from, and the block of every reference to the label heading it |
| Life.ExitLive | gcc/flow.c:1226-1275 | the registers live at exit: the stack pointer unless the exit ignores it, the frame pointers, and the global and epilogue-used registers |
| Life.AddLive | gcc/flow.c:1360-1382 | `live` is added to the sets of exactly the given blocks |
| Life.NoRescanAddsDifference | gcc/flow.c:1329-1358 | without a rescan, exactly the registers newly live at the end are added to both live_at_start and live_at_end |
| Life.VisitGrowsNewAtEnd | gcc/flow.c:1360-1382 | a visit only adds to new_live_at_end, and only a predecessor gains block i's live_at_start |
| Life.VisitFacts | gcc/flow.c:1292-1383 | after a visit, block i's live_at_end is its new_live_at_end and its live_at_start is its transfer, its predecessors take that in, and nothing else changes |
| Life.VisitKeeps | gcc/flow.c:1292-1383 | a visit keeps the relaxation invariant and only grows live_at_end. Outside the first pass it grows live_at_end strictly exactly when the block is considered |
| Life.InitialFlow | gcc/flow.c:1226-1275 | before the relaxation every regset is empty except the live_at_end and new_live_at_end of the last block, which hold the exit set |
| Life.ExitLiveBelow | gcc/flow.c:1226-1275 | the registers live at exit are registers of the target |
| Life.SolvedEquations | gcc/flow.c:1277-1385 | at the fixed point, each register live at a block's start is live at the end of every block that can pass control to it. The exit set is live at the last block's end, and each live_at_start is the transfer of its live_at_end |
| Life.RoundStep | gcc/flow.c:1289-1385 | a pass keeps the invariant and never raises the deficit; outside the first pass it lowers the deficit when something changed; when nothing changed no block is left to consider |
| Life.FixedPoint | gcc/flow.c:1289-1385 | a pass that considers no block ends at the fixed point |
| Life.VisitBlock | gcc/flow.c:1292-1383 | one visit, rescanning the block when it must, leaves what VisitFacts states and the chain as it was |
| Life.RelaxPass | gcc/flow.c:1292-1384 | one pass over the blocks: `changed` iff some block was considered, and outside the first pass a change makes some live_at_end strictly larger |
| Life.Relax | gcc/flow.c:1277-1385 | the relaxation terminates, and its regsets solve the equations of SolvedEquations |
| Life.FinalFrom | gcc/flow.c:1398-1419 | the final pass from block i on: each block is scanned once more from its live_at_end, with dead stores deleted |
| Life.FinalPass | gcc/flow.c:1398-1419 | the final pass's loop leaves what FinalFrom states |
| Life.FinalOnlyDeletes | gcc/flow.c:1398-1419 | the final pass only turns instructions into deleted notes. The chain keeps its length and UIDs, and every other instruction is unchanged |
| Life.StepOnlyDeletes | gcc/flow.c:1666-1700 | one iteration of the final scan changes the chain only by deleting |
| Life.LifeAnalysis | gcc/flow.c:1075-1468 | the INSN_VOLATILE flags are the pre-pass's, under the reading its flag selects. On success the regsets are the fixed point for the chain after the pre-pass, and the chain is that chain after the final pass |
| Blocks.PrevCode | gcc/flow.c:330-343 | the code of the last non-note before k (JUMP_INSN when there is none), with a REG_RETVAL call read as an INSN when asked |
| Blocks.Starts | gcc/flow.c:454-460 | the block starts below m, in chain order |
| Blocks.StartsSound | gcc/flow.c:454-460 | every listed start satisfies the block-start rule |
| Blocks.StartsIncreasing | gcc/flow.c:454-460 | the starts are strictly increasing |
| Blocks.StartsComplete | gcc/flow.c:454-460 | a position starts a block iff it is listed |
| Blocks.StartsPrefix | gcc/flow.c:454-460 | the starts below m are a prefix of the starts below any later m' |
| Blocks.LabelHeadsBlock | gcc/flow.c:454-470 | a CODE_LABEL heads a block of its own, and its BLOCK_NUM is that block |
| Blocks.EndFrom | gcc/flow.c:476-483 | a block's end is its last real instruction, or its head |
| Blocks.EndFromIsLastReal | gcc/flow.c:476-483 | the end is the head or a real instruction, and no real instruction follows it in the block |
| Blocks.EhStack | gcc/flow.c:492-507 | the open exception regions before k, innermost first |
| Blocks.CountBlocks | gcc/flow.c:310-356 | the counting scan returns the number of block starts under the rule that reads a REG_RETVAL call as an INSN, and the largest INSN_UID |
| Blocks.TagBlocks | gcc/flow.c:436-527 | the tagging scan leaves the block heads, ends, loop depths, BLOCK_NUMs, exception tables and label lists that Tagged defines |
| Blocks.TaggedNone | gcc/flow.c:427-436 | before the scan every table is empty |
| Blocks.TagStep | gcc/flow.c:436-527 | one iteration moves every table from instruction i to i + 1 |
| Blocks.TagLabelStep | gcc/flow.c:485-490 | label_value_list after instruction i: its REG_LABEL notes are pushed in note order |
| Blocks.Advance | gcc/flow.c:440-452 | after instruction i: the loop depth and open regions follow the notes, prev_code is the last non-note, and the libcall flag drops after a REG_RETVAL |
| Blocks.TagBlockStep | gcc/flow.c:454-484 | a start opens a new block, another real instruction extends the current one, and each instruction gets the current block number |
| Blocks.StartsNow | gcc/flow.c:454-460 | the scan's test at instruction i is the block-start rule |
| Blocks.BlockStepOk | gcc/flow.c:454-484 | the block tables grow as the three cases of the scan say |
| Blocks.EndsStep | gcc/flow.c:476-483 | a new head ends its own block for now, a real instruction ends the current one, and nothing else moves the ends |
| Blocks.TagEhStep | gcc/flow.c:492-520 | a region-begin note records its enclosing region, and an instruction that can throw records the innermost open region |
| Blocks.PreservedStep | gcc/flow.c:466-475 | the preserved-label set follows the heads as they grow |
| Blocks.PrevNonNote | gcc/flow.c:536-545 | the last instruction before k that is not a NOTE |
| Blocks.ComputeDropsIn | gcc/flow.c:536-545 | basic_block_drops_in[i] is set iff the last non-note before block i's head is not a BARRIER |
| Blocks.PartitionPass1 | gcc/flow.c:529-534 | the first pass aborts exactly when the two scans count different numbers of blocks; otherwise the tables are the tagging scan's |
| Blocks.FindBasicBlocksAsWritten | gcc/flow.c:299-377 | as written: succeeds iff the two block-start rules give the same count |
| Blocks.FindBasicBlocks | gcc/flow.c:299-377 | with one rule in both scans the check always passes, and the tables are the tagging scan's |
| Blocks.RetvalCallAborts | gcc/flow.c:331-340 | the chain [CALL_INSN with REG_RETVAL, INSN] with nonlocal labels counts one block but tags two |
| LabelRefs.LabelPos | gcc/flow.c:927-977 | the position of the CODE_LABEL with the given UID, and None iff the chain holds none |
| LabelRefs.LabelBlock | gcc/flow.c:960-966 | BLOCK_NUM of the named label |
| LabelRefs.MarkRefsAborts | gcc/flow.c:940-948 | a run aborts exactly when some reference's handle is no CODE_LABEL of the chain; this is wider than the source's abort, see "## Left out" |
| LabelRefs.MarkRefsLive | gcc/flow.c:960-966 | the blocks a run marks live are blocks of labels it references |
| LabelRefs.MarkRefsKeeps | gcc/flow.c:949-959 | a reference already on a LABEL_REFS chain stays there |
| LabelRefs.MarkRefsRecorded | gcc/flow.c:949-959 | every label a run references ends up referenced from the referring instruction |
| LabelRefs.MarkRefsOthers | gcc/flow.c:927-977 | the chains of labels a run does not reference are unchanged |
| LabelRefs.MarkRefsCovers | gcc/flow.c:949-966 | every referenced label's block is marked, unless the label already had a reference from that instruction |
| LabelRefs.MarkRefsNewFrom | gcc/flow.c:949-959 | only referenced labels' chains grow, and only by references from the referring instructions |
| Reach.ListRefs | gcc/flow.c:576-582 | references to a list of labels, all from one instruction, in list order |
| Reach.RefTable | gcc/flow.c:583-699 | the reference list of every block, as the marking reads it |
| Reach.ApplyRefs | gcc/flow.c:927-977 | mark_label_ref for a run of references sets exactly the flags and chains its specification gives |
| Reach.MarkBlock | gcc/flow.c:565-699 | marking block i: the next block when control drops into it, then every label the block references |
| Reach.MarkReachable | gcc/flow.c:547-699 | the marking ends with the live blocks the least set that holds the roots and is closed under the edges: every live block lies in any such set |
| Reach.MarkInit | gcc/flow.c:427-435 | block_live holds block 0 and the preserved labels' blocks, and block_marked is clear |
| Reach.MarkFrom | gcc/flow.c:556-699 | the marking loop over a table of reference lists reaches the fixed point |
| Reach.MarkPass | gcc/flow.c:562-699 | one pass over every block; `something` iff it marked a block |
| Reach.MarkOne | gcc/flow.c:567-570 | block i is marked iff it is live and not yet marked |
| Reach.MarkFresh | gcc/flow.c:567-699 | marking a live block not yet marked marks it, makes live the blocks it leads to, and keeps the invariant |
| Reach.MarkedAll | gcc/flow.c:562-699 | a pass that marks nothing leaves the live and marked flags equal |
| Reach.MarkStep | gcc/flow.c:565-699 | marking block i keeps the marking invariant |
| Reach.OutCovered | gcc/flow.c:565-699 | after block i is marked every block it leads to is live |
| Reach.NewLiveBounded | gcc/flow.c:565-699 | the blocks newly made live lie in any closed set that holds block i |
| Reach.FixedPointClosed | gcc/flow.c:562-699 | at the fixed point the live set holds the roots and is closed under the edges |
| Reach.TaggedEnvOk | gcc/flow.c:436-545 | the tables of a finished tagging scan have the shape the marking reads |
| Prune.TaggedOrdered | gcc/flow.c:436-527 | each head is a CODE_LABEL or a real instruction, and each end lies before the next head |
| Prune.NextLive | gcc/flow.c:815-822 | the first live block from j on |
| Prune.PrunedChain | gcc/flow.c:714-848 | the chain once blocks 0 .. i-1 have passed the deletion loop |
| Prune.PrunedLinks | gcc/flow.c:714-848 | the linked flags once blocks 0 .. i-1 have passed the deletion loop |
| Prune.PrunedDrops | gcc/flow.c:810-847 | the drops-in flags once blocks 0 .. i-1 have passed the deletion loop |
| Prune.RemoveFirst | gcc/flow.c:768-776 | the list with its first occurrence of x spliced out |
| Prune.RemoveFirstAt | gcc/flow.c:768-776 | splicing out the first occurrence at j keeps the rest in order |
| Prune.EhAfterConserves | gcc/flow.c:757-792 | the handler list loses exactly the labels remove_handler is called for, each heading a dead block |
| Prune.DeleteInterior | gcc/flow.c:736-751 | every non-NOTE strictly inside dead block i is unlinked, and a BARRIER there aborts |
| Prune.FindNextLive | gcc/flow.c:815-822 | the loop finds the first live block after a dead one |
| Prune.RemoveHandler | gcc/flow.c:768-792 | the first entry naming the label is spliced out of exception_handler_labels, and remove_handler is called for it |
| Prune.DeleteBlockCode | gcc/flow.c:724-808 | dead block i's inside is unlinked and its head and end become deleted notes; a CODE_LABEL head leaves the handler list first; a BARRIER right after it is unlinked |
| Prune.SetDrops | gcc/flow.c:836-838 | basic_block_drops_in[k] = 1 for k from lo to hi and nothing else |
| Prune.RemoveJumpAround | gcc/flow.c:810-847 | when block i-1 is live and ends in a jump to the next live block, the jump becomes a deleted note, the BARRIER after it goes, and the blocks up to the target drop in |
| Prune.BlockStep | gcc/flow.c:719-848 | step i of the deletion loop, exactly as BlockStepSpec says |
| Prune.LiveStepIdle | gcc/flow.c:719-723 | step i does nothing when block i is live |
| Prune.StepAdvance | gcc/flow.c:719-848 | step i moves the state from blocks below i to blocks below i + 1 |
| Prune.DeleteDeadBlocks | gcc/flow.c:714-848 | the deletion loop aborts exactly when some step would. Otherwise the chain, the links and the drops-in flags are those of every step, and `deleted` counts the dead blocks |
| Prune.PrunedNone | gcc/flow.c:714-719 | before the loop nothing is deleted |
| Prune.DeleteStep | gcc/flow.c:719-848 | one iteration of the deletion loop |
| Prune.Remaining | gcc/flow.c:850-867 | the handlers of a region that remove_handler has not removed |
| Prune.CleanedChain | gcc/flow.c:850-867 | every linked region note whose region lost all its handlers becomes NOTE_INSN_DELETED |
| Prune.CleanedChainNoGoneRegion | gcc/flow.c:850-867 | after the clean-up no linked note names a region without handlers, and nothing but those notes changed |
| Prune.CleanEhNotes | gcc/flow.c:850-867 | the walk over the linked chain leaves CleanedChain |
| Prune.CheckLabels | gcc/flow.c:701-712 | aborts exactly when some block but the first is a live label block with no reference |
| Prune.AllBlocksClosed | gcc/flow.c:547-699 | the set of all blocks holds the roots and is closed, so it bounds the marking |
| Prune.DeadBlockOnlyNotes | gcc/flow.c:724-808 | what is left linked of a dead block is NOTEs |
| Prune.LiveBlockKept | gcc/flow.c:810-847 | a live block keeps every instruction, except that its last one becomes a deleted note when it jumps around the dead block after it |
| Prune.LiveBlockApart | gcc/flow.c:810-847 | a step leaves the inside of a live block alone but for the jump at its end |
| Prune.StepBefore | gcc/flow.c:719-848 | a step touches nothing after the BARRIER that may follow its block, nor that position unless it holds a BARRIER |
| Prune.StepAfter | gcc/flow.c:719-848 | a step touches nothing before its block, except the jump around it at the end of the block before |
| Prune.JumpReady | gcc/flow.c:810-831 | deleting a dead block's code leaves what the jump test reads: the previous block's end, the link after it, and a NOTE at the dead head |
| Prune.StepCompose | gcc/flow.c:719-848 | deleting the block's code and then the jump around it is one step |
| Prune.JumpAroundDrops | gcc/flow.c:833-838 | a jump around dead blocks leaves every block from the first dead one to the target dropping in |
| Prune.DropsOnlyGrow | gcc/flow.c:714-848 | the deletion loop only sets drops-in flags |
| Prune.DeadBelowCounts | gcc/flow.c:714-848 | `deleted` is the number of dead blocks |
| FindBlocks.PrunePass | gcc/flow.c:547-867 | marking, label check, deletion and clean-up over the tagged chain, with the results the parts state |
| FindBlocks.EmptyPass | gcc/flow.c:392-896 | a pass over a chain without blocks changes nothing |
| FindBlocks.LinkedInsns | gcc/flow.c:869-895 | the chain NEXT_INSN walks: the linked positions in order |
| FindBlocks.HandlersAfter | gcc/flow.c:869-895 | get_first_handler once remove_handler has run for the removed labels |
| FindBlocks.BuildEnv | gcc/flow.c:436-545 | the tagging scan's tables with their drops-in flags |
| FindBlocks.FindBasicBlocksFlow | gcc/flow.c:299-377 | aborts when the counting scan and the tagging scan, under the given block-start rule, count different numbers of blocks. Otherwise a first pass runs over the whole chain, and a second over what is still linked when the first deleted more than 200 blocks |
| FindBlocks.SecondPass | gcc/flow.c:869-895 | the restart over the chain the first pass left, tagged under the given block-start rule |
| FindBlocks.ComputedJumpLabels | gcc/flow.c:632-648 | the labels a computed jump reaches: label_value_list in order, then the target of every forced_labels entry in order |
| FindBlocks.HasComputedJump | gcc/flow.c:629-631 | current_function_has_computed_jump: it holds only when some block is live and some real insn satisfies computed_jump_p |
| FindBlocks.ComputedJumpTargets | gcc/flow.c:632-648 | basic_block_computed_jump_target: only block numbers below n_basic_blocks, and none unless the function has a live computed jump |
| FindBlocks.ComputedJumpTargetsLive | gcc/flow.c:625-646 | after a pass, every block that current_function_has_computed_jump and basic_block_computed_jump_target name as a computed-jump target is live, and every label a live computed jump reaches is a CODE_LABEL on the chain |
| FindBlocks.ClosedReachesComputedTargets | gcc/flow.c:625-646 | a closed set of blocks that aborts nothing, and holds a computed jump, holds the block of every label on label_value_list and forced_labels |
| FindBlocks.ComputedRefsInBlock | gcc/flow.c:625-646 | marking a block references every label that a computed jump in it reaches |
| Reach.ForcedRefsAll | gcc/flow.c:641-645 | the computed-jump walk over forced_labels references each target once, in list order, whatever its nonlocal flag |
| Reach.RangeRefsHas | gcc/flow.c:586-590 | every reference made by an instruction of a block is among the block's references |
| FindBlocks.PassLiveClosed | gcc/flow.c:547-699 | after a pass the live blocks are exactly the least closed set: they hold block 0 and the preserved labels' blocks, and every edge out of a live block leads to a live block |
| FindBlocks.PassDeadBlockNotes | gcc/flow.c:724-808 | after a pass only NOTEs stay linked inside a dead block |
| FindBlocks.PassLiveBlockKept | gcc/flow.c:810-847 | after a pass a live block keeps all its instructions, but for a jump around dead code at its end |
| FindBlocks.PassCounts | gcc/flow.c:714-848 | `deleted` is the number of dead blocks, and the removed handlers are exactly those of dead blocks |
| PredSucc.Push | gcc/flow.c:3284-3306 | the list with the value added at its head |
| PredSucc.PredsAfter | gcc/flow.c:3277-3308 | the predecessor lists after add_pred_succ for each edge in turn |
| PredSucc.SuccsAfter | gcc/flow.c:3277-3308 | the successor lists after add_pred_succ for each edge in turn |
| PredSucc.NoLists | gcc/flow.c:3318-3323 | n empty lists |
| PredSucc.PredsAfterMember | gcc/flow.c:3277-3308 | a block's predecessors are its old ones plus the source of every edge into it, none twice |
| PredSucc.SuccsAfterMember | gcc/flow.c:3277-3308 | a block's successors are its old ones plus the target of every edge out of it, none twice |
| PredSucc.AfterAppend | gcc/flow.c:3277-3308 | adding two runs of edges is adding the first, then the second |
| PredSucc.ListsConcat | gcc/flow.c:3376-3412 | list by list is edge by edge |
| PredSucc.Member | gcc/flow.c:3288-3303 | the walk down a list finds the value iff it is on the list |
| PredSucc.Cfg.constructor | gcc/flow.c:3318-3323 | every list empty and every count zero |
| PredSucc.Cfg.AddPredSucc | gcc/flow.c:3277-3308 | records the predecessor on the successor's list and the successor on the predecessor's, each unless already there or the block is EXIT_BLOCK or ENTRY_BLOCK, and counts the new entries |
| PredSucc.Cfg.AddEdges | gcc/flow.c:3277-3308 | the lists after each edge in turn are PredsAfter and SuccsAfter |
| PredSucc.Cfg.Clear | gcc/flow.c:3318-3323 | the four bzero calls: every list empty, every count zero |
| PredSucc.Cfg.ComputePredsSuccs | gcc/flow.c:3312-3422 | the lists hold exactly the edges of CfgEdges, each once |
| PredSucc.Cfg.AddBlockEdges | gcc/flow.c:3376-3412 | the body of the loop over the blocks adds block bb's edges |
| PredSucc.RefEdges | gcc/flow.c:3384-3392 | the edges into bb from the blocks of the live instructions on `xs` |
| PredSucc.LabelEdges | gcc/flow.c:3380-3393 | the edges into bb from the jumps to the label heading it |
| PredSucc.BlockEdges | gcc/flow.c:3376-3412 | block bb's calls: its label references, its edge to the exit, and the fall-through edge |
| PredSucc.CfgEdges | gcc/flow.c:3312-3422 | every call compute_preds_succs makes, the entry edge last |
| PredSucc.CfgEdgeCases | gcc/flow.c:3376-3412 | the calls by case: ENTRY_BLOCK into block 0, label references into a label's block, edges to EXIT_BLOCK, and fall-through edges |
| PredSucc.CfgOfBlocks | gcc/flow.c:3376-3412 | the lists made from all the calls are those made from each block's calls, then the entry edge |
| PredSucc.BlockEdgeExitAndDrop | gcc/flow.c:3394-3407 | block bb has an edge to EXIT_BLOCK iff it reaches the exit, and a fall-through edge from bb-1 when it drops in |
| PredSucc.CfgLists | gcc/flow.c:3312-3422 | p is a predecessor of s iff s is a successor of p; ENTRY_BLOCK precedes block 0 and nothing else; each entry appears once |
| PredSucc.LabelEdgesInto | gcc/flow.c:3384-3392 | the edges of a label's references all lead into its block |
| PredSucc.CfgSymmetric | gcc/flow.c:3312-3422 | p is a predecessor of s exactly when s is a successor of p |
| PredSucc.CfgEntry | gcc/flow.c:3408-3412 | ENTRY_BLOCK is a predecessor of block 0 |
| SBitmap.OnesWord | gcc/flow.c:3603-3607 | the all-ones word holds every bit offset |
| SBitmap.WithBit | gcc/flow.c:3968-3969 | SET_BIT sets the bit and leaves every other bit |
| SBitmap.ZeroOnesBit | gcc/flow.c:3594-3607 | no bit of the zero bitmap is set and every bit of the ones bitmap is |
| SBitmap.Copy | gcc/flow.c:3579-3589 | DST gets the first DST->size words of SRC |
| SBitmap.Zero | gcc/flow.c:3594-3598 | every word becomes zero |
| SBitmap.Ones | gcc/flow.c:3603-3607 | every word becomes all ones |
| SBitmap.SetBitIn | gcc/flow.c:3988-3989 | the bit is set and nothing else changes |
| SBitmap.VectorZero | gcc/flow.c:3612-3620 | every bitmap of the vector becomes zero |
| SBitmap.VectorOnes | gcc/flow.c:3625-3633 | every bitmap of the vector becomes all ones |
| SBitmap.UnionOfDiff | gcc/flow.c:3640-3660 | DST = A or (B and not C), word by word, and the result says whether DST changed |
| SBitmap.Not | gcc/flow.c:3665-3679 | DST = not SRC, word by word |
| SBitmap.Difference | gcc/flow.c:3686-3697 | DST = A and not B, word by word |
| SBitmap.AAndB | gcc/flow.c:3703-3722 | DST = A and B, and the result says whether DST changed |
| SBitmap.AOrB | gcc/flow.c:3727-3746 | DST = A or B, and the result says whether DST changed |
| SBitmap.AOrBAndC | gcc/flow.c:3752-3772 | DST = A or (B and C), and the result says whether DST changed |
| SBitmap.AAndBOrC | gcc/flow.c:3778-3798 | DST = A and (B or C), and the result says whether DST changed |
| SBitmap.FirstReal | gcc/flow.c:3815-3830 | the index of the first real block of the list |
| SBitmap.IntersectOf | gcc/flow.c:3804-3858 | the value left in DST: all ones for an empty list, DST itself for a list of only ENTRY_BLOCK and EXIT_BLOCK, otherwise the intersection of the listed blocks |
| SBitmap.UnionOf | gcc/flow.c:3890-3944 | the value left in DST: zero for an empty list, DST itself for a list of only ENTRY_BLOCK and EXIT_BLOCK, otherwise the union of the listed blocks |
| SBitmap.IntersectOfBit | gcc/flow.c:3804-3858 | for a list with a real block, bit k of the intersection is set iff it is set in every real block of the list |
| SBitmap.UnionOfBit | gcc/flow.c:3890-3944 | for a list with a real block, bit k of the union is set iff it is set in some real block of the list |
| SBitmap.AndOverBit | gcc/flow.c:3832-3856 | bit k of the and over the list is set iff it is set in the start and in every real block |
| SBitmap.OrOverBit | gcc/flow.c:3918-3942 | bit k of the or over the list is set iff it is set in the start or in some real block |
| SBitmap.IntersectOfPredSucc | gcc/flow.c:3804-3858 | DST becomes IntersectOf the blocks on PRED_SUCC[BB] |
| SBitmap.AndRemaining | gcc/flow.c:3832-3856 | DST is and-ed with every real block of the rest of the list |
| SBitmap.UnionOfPredSucc | gcc/flow.c:3890-3944 | DST becomes UnionOf the blocks on PRED_SUCC[BB] |
| SBitmap.OrRemaining | gcc/flow.c:3918-3942 | DST is or-ed with every real block of the rest of the list |
| SBitmap.IntersectOfPredecessors | gcc/flow.c:3864-3871 | the intersection over the predecessor lists |
| SBitmap.IntersectOfSuccessors | gcc/flow.c:3877-3884 | the intersection over the successor lists |
| SBitmap.UnionOfPredecessors | gcc/flow.c:3950-3957 | the union over the predecessor lists |
| SBitmap.UnionOfSuccessors | gcc/flow.c:3963-3970 | the union over the successor lists |
| Dominators.Singleton | gcc/flow.c:3988-3992 | the bitmap value {b} |
| Dominators.SingletonBit | gcc/flow.c:3988-3992 | bit k of {b} is set exactly when k is b |
| Dominators.SubsetWeight | gcc/flow.c:3996-4015 | shrinking a bitmap word-wise lowers its weight, strictly when it changes |
| Dominators.UpdateWeight | gcc/flow.c:3996-4015 | replacing one bitmap of a vector by a word-wise subset lowers the vector's weight, strictly when it changes (the loop terminates) |
| Dominators.AndSubset | gcc/flow.c:3703-3722 | a_and_b never adds a bit, and changes nothing exactly when DST already lies within B |
| Dominators.StableOfFixed | gcc/flow.c:3999-4013 | a block whose bitmap lies within the scratch bitmap the body forms for it is stable |
| Dominators.RefineBlock | gcc/flow.c:4001-4006 | the scratch bitmap becomes the intersection over the block's list plus the block, and V[bb] is and-ed with it |
| Dominators.KeptInit | gcc/flow.c:3984-3992 | the seeding keeps every block from 1 on holding its own bit |
| Dominators.KeptStep | gcc/flow.c:4001-4012 | and-ing with a scratch bitmap that holds bit bb keeps that property |
| Dominators.SingletonExact | gcc/flow.c:3988-3989 | a bitmap within {b} that holds b is {b} |
| Dominators.SeedZeroLosesLastBlock | gcc/flow.c:3991-3992 | with the source's seed, the last block's post-dominator set stays within {0}; for two or more blocks it never holds the block itself |
| Dominators.SeedOwnBitKeepsLastBlock | gcc/flow.c:3991-3992 | with the last block seeded with its own bit, every block from 1 on keeps its own bit and the last block's set is exactly itself |
| DominatorPasses.ComputeDominatorsSeeded | gcc/flow.c:3974-4018 | the iteration ends, every block is stable under the loop body, and no bitmap gains a bit the seeding did not give it |
| DominatorPasses.InitVectors | gcc/flow.c:3983-3992 | all ones, the scratch vector all zeros, dominators[0] = {0} and post_dominators[n-1] = {seed} |
| DominatorPasses.Pass | gcc/flow.c:3998-4014 | one pass over blocks 1 .. n-1; `changed` iff some bitmap changed, which lowers the weight |
| DominatorPasses.PassStep | gcc/flow.c:4001-4012 | the loop body at block bb keeps the pass invariant |
| DominatorPasses.DominatorStep | gcc/flow.c:4001-4006 | dominators[bb] is refined against its predecessors |
| DominatorPasses.PostDominatorStep | gcc/flow.c:4007-4012 | post_dominators[bb] is refined against its successors |
| DominatorPasses.AllocVector | gcc/flow.c:3535-3574 | N fresh, distinct bitmaps of SIZE words |
| DominatorPasses.ComputeDominators | gcc/flow.c:3974-4018 | as written: the fixed point, and with two or more blocks the last block does not post-dominate itself |
| DominatorPasses.ComputeDominatorsCorrected | gcc/flow.c:3974-4018 | with post_dominators[n-1] seeded with its own bit: every block from 1 on post-dominates itself and the last block exactly itself |
| Usage.PseudoRef | gcc/flow.c:4035-4040 | the counter bump for one register, pseudos only |
| Usage.SetsCountedIff | gcc/flow.c:4023-4071 | a pseudo is counted as set iff the liveness scan (mark_set_regs) sees the pattern set it |
| Usage.SetsCountedMentioned | gcc/flow.c:4023-4071 | only registers the pattern mentions are counted as set |
| Usage.RefsMentioned | gcc/flow.c:4076-4209 | only registers the expression mentions are counted as referenced |
| Usage.RefsMatchUsed | gcc/flow.c:4076-4209 | the pseudos counted as referenced are exactly the pseudos mark_used_regs finds used |
| Usage.UsedRegPseudo | gcc/flow.c:2567-2622 | a register read marks a pseudo exactly when it is that pseudo |
| Usage.OnlySubregs | gcc/flow.c:4160-4185 | a destination that does not mark its register used is a chain of SUBREGs around it and mentions nothing else |
| Usage.DepthPositive | gcc/flow.c:4244-4256 | without a bookkeeping error the loop depth never drops below 1 |
| Usage.HardRefsZero | gcc/flow.c:4225-4296 | every counted reference is to a pseudo; hard registers keep their REG_N_REFS |
| Usage.UnmentionedUncounted | gcc/flow.c:4225-4296 | a register that no real instruction mentions gets no sets and no references |
| Usage.RefsCoverSets | gcc/flow.c:4225-4296 | a pseudo that no REG_INC note names is referenced at least as often as it is set |
| Usage.ClearPseudos | gcc/flow.c:4236-4240 | the pseudos' counters are cleared and the hard registers' kept |
| Usage.AddWeighted | gcc/flow.c:4260-4290 | every counter is bumped by `w` times the register's multiplicity |
| Usage.CountIncNotes | gcc/flow.c:4268-4274 | one REG_N_SETS bump per REG_INC note |
| Usage.CountUsage | gcc/flow.c:4280-4288 | the references of each USE of a call's usage, at the loop depth |
| Usage.CountInsn | gcc/flow.c:4258-4290 | counting one real instruction: its sets, REG_INC notes, references and a call's USEs |
| Usage.InsnRefsSum | gcc/flow.c:4258-4290 | the three stages of counting references add up to the instruction's weighted total |
| Usage.RecomputeRegUsage | gcc/flow.c:4225-4296 | the pseudos' REG_N_SETS and REG_N_REFS are recounted over the whole chain, weighted by loop depth; `ok` is false where the compiler aborts on a depth of zero |
| AutoInc.OccurrencesAllParts | gcc/flow.c:2982-3038 | the operands together hold `y` iff one of them does, and at least as often as any one |
| AutoInc.WithOperands | gcc/flow.c:2982-3038 | the expression with its operands replaced in order; the code and the other fields stay |
| AutoInc.SubstituteAbsent | gcc/flow.c:2447-2452 | replacing something that does not occur changes nothing |
| AutoInc.SubstitutePlaces | gcc/flow.c:2447-2452 | replacing something that occurs puts the replacement in |
| AutoInc.FindUseAsAddressSpec | gcc/flow.c:2982-3038 | the three answers: nothing iff the register does not occur; a MEM with an accepted address form that is the register's only occurrence; or the "used otherwise" mark |
| AutoInc.FindUseAllSpec | gcc/flow.c:3024-3036 | over the operands: no use iff the register occurs nowhere; a found use is the register's only occurrence, inside a MEM with an accepted address form |
| AutoInc.PreIncrementPlan | gcc/flow.c:2894-2968 | the pre-increment or pre-decrement the target has, failing that a post- form with the amount folded into the address, and none otherwise |
| AutoInc.AutoIncMem | gcc/flow.c:2944-2952 | the MEM with its address replaced by the auto-increment of the register |
| AutoInc.TryPreIncrement | gcc/flow.c:2894-2968 | the changed instruction with a REG_INC note when a plan exists and validate_change accepts it; nothing otherwise |
| AutoInc.TryPreIncrement1 | gcc/flow.c:2850-2885 | when the next use is in the same block, neither kills nor sets the register and takes the increment, the increment's instruction becomes a deleted note |
| AutoInc.AutoIncPlan | gcc/flow.c:2306-2487 | the tests of find_auto_inc: the address form, the next use in the same block as a single SET plus a constant equal to the MEM's size |
| AutoInc.FindAutoInc | gcc/flow.c:2306-2487 | the MEM's address becomes the auto-increment when the register dies or is set there, otherwise through a copy into `q` when allowed |
| AutoInc.FinishAutoInc | gcc/flow.c:2440-2487 | the REG_INC note is added and the increment's SET becomes a copy (or goes); aborts when the target refuses the copy |
| AsmOutput.Run | gcc/config/mips/linux.h:616-624 | n copies of v |
| AsmOutput.EscapesTable | gcc/config/mips/linux.h:616-624 | printable ASCII except `"` and `\` as is; \b, \t, \n, \f, \r by letter; `"` and `\` escaped; every other byte in octal |
| AsmOutput.EscapeOf | gcc/config/mips/linux.h:616-624 | the closed form of the table entry for a byte |
| AsmOutput.EscapeOfTable | gcc/config/mips/linux.h:616-624 | the closed form agrees with ESCAPES entry for entry |
| AsmOutput.EscapedByte | gcc/config/mips/linux.h:658-670 | what is written for one byte: itself, `\ooo`, or a backslash and the letter |
| AsmOutput.EscapedPrintable | gcc/config/mips/linux.h:658-670 | escaped text is printable ASCII throughout |
| AsmOutput.ReadQuoted | gcc/config/mips/linux.h:654-672 | the bytes of quoted text up to its closing quote, and what follows |
| AsmOutput.ReadEscaped | gcc/config/mips/linux.h:654-672 | escaped text followed by a quote reads back as the bytes it came from |
| AsmOutput.ReadByte | gcc/config/mips/linux.h:658-670 | the escape of one byte reads back as that byte |
| AsmOutput.OctalDigits | gcc/config/mips/linux.h:664 | the three digits of `\ooo` and the byte they spell |
| AsmOutput.RenderAssembles | gcc/config/mips/linux.h:684-737 | rendered directives read back as the bytes they stand for |
| AsmOutput.CString | gcc/config/mips/linux.h:655 | the bytes before the first NUL |
| AsmOutput.NulIndex | gcc/config/mips/linux.h:698-699 | where the scan for a NUL stops |
| AsmOutput.NulIndexFirst | gcc/config/mips/linux.h:698-699 | the scan stops at the first NUL, or at the end when there is none |
| AsmOutput.StringDirAssembles | gcc/config/mips/linux.h:649-674 | a `.string` line assembles to its bytes and the NUL |
| AsmOutput.StringRun | gcc/config/mips/linux.h:700-709 | a NUL-terminated run short enough for `.string` is written after the open chunk is closed |
| AsmOutput.FinishChunk | gcc/config/mips/linux.h:734-736 | the chunk still open at the end is closed |
| AsmOutput.WriteEscaped | gcc/config/mips/linux.h:716-731 | the text written for a byte, and bytes_in_chunk grows by 1, 4 or 2 |
| AsmOutput.OutputLimitedString | gcc/config/mips/linux.h:649-674 | the `.string` directive for the C string: tab, directive, quote, the escaped bytes, quote, newline |
| AsmOutput.CStringSlice | gcc/config/mips/linux.h:698-707 | the scan stops exactly at the end of the C string |
| AsmOutput.NulFrom | gcc/config/mips/linux.h:698-699 | the scan from i stops at the first NUL at or after i, or at the end |
| AsmOutput.PlanAssembles | gcc/config/mips/linux.h:690-733 | the directives assemble to the open chunk followed by the bytes from i on: none lost, repeated or reordered |
| AsmOutput.AsciiRoundTrip | gcc/config/mips/linux.h:684-737 | the assembler reads ASM_OUTPUT_ASCII's output back as the bytes given. No `.string` operand exceeds STRING_LIMIT, and no `.ascii` chunk is left open past 60 bytes plus one escape |
| AsmOutput.OutputAscii | gcc/config/mips/linux.h:684-737 | ASM_OUTPUT_ASCII writes the text of Plan for the LENGTH bytes of STR |
| AsmOutput.AsciiStep | gcc/config/mips/linux.h:690-733 | one turn of the loop keeps the output equal to the plan so far |
| AsmOutput.StringStep | gcc/config/mips/linux.h:700-709 | a NUL-terminated run closes the open chunk, goes out as `.string` and is skipped with its NUL |
| AsmOutput.ByteStep | gcc/config/mips/linux.h:710-732 | a byte joins the open chunk, which is opened first if need be |
| AsmOutput.KindOf | gcc/config/mips/linux.h:389-394 | executable for a function, read-only for read-only data, writable otherwise |
| AsmOutput.ModeOf | gcc/config/mips/linux.h:389-394 | the flags "ax", "a" or "aw" for the kind |
| AsmOutput.Lookup | gcc/config/mips/linux.h:385-387 | the first entry with the name |
| AsmOutput.LookupUnique | gcc/config/mips/linux.h:385-405 | in a list without repeats the entry found is the only one with that name |
| AsmOutput.PrependDistinct | gcc/config/mips/linux.h:396-405 | adding a name not yet listed keeps the list free of repeats |
| AsmOutput.SectionTable.constructor | gcc/config/mips/linux.h:375-380 | no sections named yet |
| AsmOutput.SectionTable.Find | gcc/config/mips/linux.h:385-387 | the search returns Lookup of the name |
| AsmOutput.SectionTable.OutputSectionName | gcc/config/mips/linux.h:373-414 | first naming lists the section with its kind and writes its flags; naming it again writes the name only and reports a conflict when DECL is given and its kind differs |
| AsmOutput.LookupFirst | gcc/config/mips/linux.h:385-387 | the search stops at the first entry with the name, or at the end |
| InsnChain.LocatedDistinct | gcc/emit-rtl.c:2360-2518 | no insn is on two chains, or twice on one |
| InsnChain.RelocateOk | gcc/emit-rtl.c:2360-2518 | replacing a chain by one whose members are on no other chain keeps the placement sound |
| InsnChain.ChainsUpdate | gcc/emit-rtl.c:2360-2518 | one chain changes and the links of the others are untouched |
| InsnChain.LinkedInsertRun | gcc/emit-rtl.c:2389-2420 | splicing a linked run into the gap before k: the run's ends point at the neighbours, the neighbours at the run, nothing else changes |
| InsnChain.LinkedCut | gcc/emit-rtl.c:2496-2510 | cutting positions i .. j out: the neighbours point at each other, and the ends move in where the run held one |
| InsnChain.CutRun | gcc/emit-rtl.c:2496-2510 | the cut-out run keeps its internal links |
| InsnChain.LinkedTruncate | gcc/emit-rtl.c:2475-2483 | the chain ends at position k |
| InsnChain.MovedIsSplice | gcc/emit-rtl.c:2496-2518 | moving is cutting the run out and splicing it in after k |
| InsnChain.MovedOrder | gcc/emit-rtl.c:2496-2518 | the run follows the insn at k directly and in its own order, and the other insns keep their order |
| InsnChain.MovedPermutes | gcc/emit-rtl.c:2496-2518 | nothing is lost or repeated |
| InsnChain.LinkedNext | gcc/emit-rtl.c:1956-1968 | NEXT_INSN of the member at m is the member at m + 1, or null past the end |
| InsnChain.LinkedPrev | gcc/emit-rtl.c:1974-1986 | PREV_INSN of the member at m is the member before it, or null at the front |
| ChainSound.EndOnChain | gcc/emit-rtl.c:2398-2412 | a non-null end of a chain is its first or last member |
| ChainSound.NullNextIsLast | gcc/emit-rtl.c:2392-2412 | a member whose NEXT_INSN is null ends its chain |
| ChainSound.InsertSound | gcc/emit-rtl.c:2389-2420 | splicing a detached, linked run into a chain keeps the state sound |
| ChainSound.RelocateBounded | gcc/emit-rtl.c:2292-2314 | a chain of allocated insns keeps every placed insn allocated |
| ChainSound.CutSound | gcc/emit-rtl.c:2496-2510 | cutting a run out keeps the state sound, and the run is detached and linked |
| ChainSound.TruncateSound | gcc/emit-rtl.c:2475-2483 | keeping a chain's first n members keeps the state sound |
| ChainSound.PushSound | gcc/emit-rtl.c:3128-3179 | a new current chain of detached members keeps the state sound |
| ChainSound.PopSound | gcc/emit-rtl.c:3223-3234 | dropping the current chain keeps the state sound |
| ChainSound.AllocSound | gcc/emit-rtl.c:2292-2314 | a new insn with null links joins no chain and keeps the state sound |
| InsnArena.WithNodeWf | gcc/emit-rtl.c:2292-2314 | the new insn is on no chain and the chains are untouched |
| InsnArena.RenodedWf | gcc/emit-rtl.c:2959-2971 | changing an insn's contents keeps the arena well formed |
| InsnArena.AppendSound | gcc/emit-rtl.c:2360-2373 | add_insn appends the detached insn to the current chain |
| InsnArena.AppendedWf | gcc/emit-rtl.c:2360-2373 | add_insn makes the insn the last member of the current chain |
| InsnArena.InnermostSlot | gcc/emit-rtl.c:2402-2412 | the innermost pending sequence whose saved end is x |
| InsnArena.InnermostSlotSpec | gcc/emit-rtl.c:2402-2412 | the scan stops at the innermost match, and finds one when there is one |
| InsnArena.SplicedAfterWf | gcc/emit-rtl.c:2381-2421 | splicing a detached run after the insn at position t makes the chain c[..t+1] + d + c[t+1..] |
| InsnArena.SplicedEnds | gcc/emit-rtl.c:2398-2412 | the end fix-up finds the chain that `after` ends, and records the new ends of that chain |
| InsnArena.SplicedAfterKeeps | gcc/emit-rtl.c:2389-2394 | add_insn_after stores exactly the four links of the splice and keeps every insn's contents |
| InsnArena.SplicedBeforeWf | gcc/emit-rtl.c:2429-2469 | add_insn_before puts the insn at the position of `before` |
| InsnArena.SplicedBeforeKeeps | gcc/emit-rtl.c:2435-2449 | add_insn_before stores exactly its four links and keeps every insn's contents |
| InsnArena.TruncatedWf | gcc/emit-rtl.c:2475-2483 | the current chain keeps its members up to and including `from` |
| InsnArena.ReorderCutWf | gcc/emit-rtl.c:2496-2510 | cutting i .. j out leaves the rest as the current chain, and the run detached and linked |
| InsnArena.CutStores | gcc/emit-rtl.c:2500-2510 | the first four stores of reorder_insns take positions i .. j out of the chain as a detached run |
| InsnArena.ReorderPlaceIsSplice | gcc/emit-rtl.c:2511-2518 | placing the cut-out run after an insn is what SplicedAfter does |
| InsnArena.ReorderPlaceWf | gcc/emit-rtl.c:2511-2518 | the second half of reorder_insns splices the run back in after position t |
| InsnArena.MovedPlace | gcc/emit-rtl.c:2496-2518 | where the insn at position k lands once run i .. j is cut out |
| InsnArena.PushedWf | gcc/emit-rtl.c:3128-3179 | the pushed chain becomes current and the old ends are saved |
| InsnArena.PoppedWf | gcc/emit-rtl.c:3223-3234 | the current chain is dropped and the innermost saved one is current |
| InsnArena.RenewedWf | gcc/emit-rtl.c:1565-1578 | the chain from first to last replaces the current chain |
| InsnArena.SavedLastEndsChain | gcc/emit-rtl.c:3128-3150 | a saved last insn ends its chain: its NEXT_INSN is null |
| InsnArena.StaleExampleWf | gcc/emit-rtl.c:3128-3150 | the example state, one saved sequence [1] under an empty current chain, is well formed |
| InsnArena.StaleSavedEnd | gcc/emit-rtl.c:2913-2917 | emit_insns_after (2, 1) as written makes NEXT_INSN (1) = 2 but leaves the saved last insn at 1, so no shape describes the result |
| InsnSearch.NextStop | gcc/emit-rtl.c:1992-2136 | the first position from u where the search stops, or the end; nothing between stops it |
| InsnSearch.PrevStop | gcc/emit-rtl.c:1992-2136 | one past the last position before u where the search stops, or 0; nothing between stops it |
| InsnSearch.NextStopNone | gcc/emit-rtl.c:1992-2003 | a search runs off the end iff nothing from u on stops it |
| InsnSearch.NextStopFrom | gcc/emit-rtl.c:1992-2136 | starting anywhere between the start and the stop gives the same stop |
| InsnSearch.NonNoteBeforeReal | gcc/emit-rtl.c:1992-2058 | next_nonnote_insn never passes what next_real_insn finds, and likewise backwards |
| InsnSearch.ActiveIsRealBeforeReload | gcc/emit-rtl.c:2065-2104 | before reload the active searches are the real ones |
| InsnSearch.SameNextStops | gcc/emit-rtl.c:2065-2081 | two searches that stop at the same insns give the same forward result |
| InsnSearch.SamePrevStops | gcc/emit-rtl.c:2088-2104 | two searches that stop at the same insns give the same backward result |
| Emit.FindSlot | gcc/emit-rtl.c:2402-2412 | the scan over the pending sequences returns InnermostSlot |
| Emit.WalkToLast | gcc/emit-rtl.c:2905-2906 | the walk along NEXT_INSN from `first` ends at the last member of its chain |
| Emit.AfterSplice | gcc/emit-rtl.c:2389-2420 | the stores of add_insn_after, with the end `after` held moved to the new last insn |
| Emit.BeforeSplice | gcc/emit-rtl.c:2435-2467 | the stores of add_insn_before, with the start `before` held moved to the new insn |
| Emit.MaxUidWalk | gcc/emit-rtl.c:1572-1577 | the largest INSN_UID on the chain from `first` |
| Emit.MaxUid | gcc/emit-rtl.c:1572-1577 | the largest uid among the first n members, at least each of them |
| Emit.AppendStep | gcc/emit-rtl.c:2360-2373 | add_insn: the current chain gains `h` at its end and no other chain changes |
| Emit.AfterStep | gcc/emit-rtl.c:2381-2421 | add_insn_after: the chain holding `after` becomes c[..t+1] + d + c[t+1..] and no other chain changes |
| Emit.BeforeStep | gcc/emit-rtl.c:2429-2469 | add_insn_before: the chain holding `before` becomes c[..t] + [h] + c[t..] |
| Emit.TruncateStep | gcc/emit-rtl.c:2475-2483 | delete_insns_since: the current chain keeps its members up to `from`, none for 0 |
| Emit.ReorderStep | gcc/emit-rtl.c:2496-2518 | reorder_insns: the current chain becomes Moved of it, which permutes it |
| Emit.PushStep | gcc/emit-rtl.c:3168-3179 | a pushed chain is added as the new current chain |
| Emit.PopStep | gcc/emit-rtl.c:3223-3234 | end_sequence drops the current chain |
| Emit.RenewStep | gcc/emit-rtl.c:1565-1578 | the current chain is replaced by the given one |
| Emit.NoteNode | gcc/emit-rtl.c:3027-3037 | a NOTE with the given file and line |
| Emit.LabelNode | gcc/emit-rtl.c:1509-1518 | a CODE_LABEL with no uid until it is emitted |
| Emit.ReorderPlaceFrom | gcc/emit-rtl.c:2496-2518 | the run cut out goes back in after the insn that was at position k, and the arena stays well formed |
| Emit.Chain.constructor | gcc/emit-rtl.c:3307-3316 | no insns and no pending sequence |
| Emit.Chain.NewInsn | gcc/emit-rtl.c:2292-2314 | a new insn, on no chain, with the given contents |
| Emit.Chain.SetUid | gcc/emit-rtl.c:2963-2966 | the insn gets the uid and nothing else changes |
| Emit.Chain.AddInsn | gcc/emit-rtl.c:2360-2373 | the detached insn becomes the last of the current chain |
| Emit.Chain.AddInsnAfter | gcc/emit-rtl.c:2381-2421 | the detached insn is linked in after `after` on whichever chain holds it; aborts when optimizing and `after` is deleted |
| Emit.Chain.AddInsnBefore | gcc/emit-rtl.c:2429-2469 | the detached insn is linked in front of `before`; aborts when optimizing and `before` is deleted |
| Emit.Chain.DeleteInsnsSince | gcc/emit-rtl.c:2475-2483 | `from` becomes the last insn, and 0 empties the chain |
| Emit.Chain.ReorderInsns | gcc/emit-rtl.c:2496-2518 | the run from .. to moves to just after `after`, as Moved says |
| Emit.Chain.EmitInsnsAfter | gcc/emit-rtl.c:2892-2919 | the detached chain is linked in after `after` and its last insn returned; a saved last insn moves too |
| Emit.Chain.StartSequence | gcc/emit-rtl.c:3128-3150 | the current ends are saved and the chain is empty |
| Emit.Chain.PushToSequence | gcc/emit-rtl.c:3168-3179 | the current ends are saved and the chain from `first` becomes current |
| Emit.Chain.EndSequence | gcc/emit-rtl.c:3223-3234 | the innermost saved ends become current again |
| Emit.Chain.InSequence | gcc/emit-rtl.c:3239-3242 | in_sequence_p iff a sequence is pending |
| Emit.Chain.GenSequence | gcc/emit-rtl.c:3251-3297 | the insns of the current chain, or the pattern of the only one when it can stand alone |
| Emit.Chain.CountChain | gcc/emit-rtl.c:3258-3261 | the walk from first_insn along NEXT_INSN counts exactly the insns of the current chain |
| Emit.Chain.CollectChain | gcc/emit-rtl.c:3293-3294 | the walk from first_insn along NEXT_INSN collects the current chain's insns in order |
| Emit.Chain.Renew | gcc/emit-rtl.c:1565-1578 | the chain from first to last becomes current |
| Emit.Chain.NextMatching | gcc/emit-rtl.c:1992-2136 | the first insn after h on its chain where the search stops, or 0 |
| Emit.Chain.PrevMatching | gcc/emit-rtl.c:1992-2136 | the last insn before h on its chain where the search stops, or 0 |
| Emit.NextWalk | gcc/emit-rtl.c:1992-2003 | the forward loop returns NextStop |
| Emit.PrevWalk | gcc/emit-rtl.c:2009-2020 | the backward loop returns PrevStop |
| Emit.InsnEmitter.constructor | gcc/emit-rtl.c:3303-3316 | an empty chain, no pending sequence, uids from 1, the label counter carried over |
| Emit.InsnEmitter.MakeInsnRaw | gcc/emit-rtl.c:2292-2314 | a new insn numbered cur_insn_uid, which then grows by one |
| Emit.InsnEmitter.SetNewFirstAndLastInsn | gcc/emit-rtl.c:1565-1578 | the chain from first to last becomes current, and cur_insn_uid is one past its largest uid |
| Emit.InsnEmitter.MaxLabelNum | gcc/emit-rtl.c:606-611 | one past the largest label number used |
| Emit.InsnEmitter.SetNewFirstAndLastLabelNum | gcc/emit-rtl.c:1584-1590 | base_label_num takes label_num, and the range is recorded |
| Emit.InsnEmitter.GenLabelRtx | gcc/emit-rtl.c:1509-1518 | a new CODE_LABEL numbered label_num, which then grows by one |
| Emit.InsnEmitter.EmitLabel | gcc/emit-rtl.c:2959-2971 | a label not yet emitted gets the next uid and joins the chain; emitting it again does nothing |
| Emit.InsnEmitter.EmitInsn | gcc/emit-rtl.c:2821-2845 | a new insn of the kind is added at the end |
| Emit.InsnEmitter.EmitBarrier | gcc/emit-rtl.c:2977-2983 | a new BARRIER is added at the end |
| Emit.InsnEmitter.Emit | gcc/emit-rtl.c:3103-3123 | an insn of the kind classify_insn picks, with the next uid, is added at the end. A simple jump or RETURN is followed by a barrier, which is then the result. A label is emitted as emit_label does it: once, with the next uid. The whole new arena and the new saved chains are stated |
| Emit.InsnEmitter.EmitNote | gcc/emit-rtl.c:3012-3039 | a line note repeating the last file and line is dropped. With no_line_numbers a line note only uses a uid. Otherwise the NOTE is added at the end |

## Left out

- **Final-pass bookkeeping of propagate_block and mark_set_1:** REG_N_SETS, REG_N_DEATHS, REG_LIVE_LENGTH, reg_basic_block, the REG_DEAD and REG_UNUSED notes, LOG_LINKS, reg_next_use and the sometimes-live tables. None of them decides liveness.
- **Auto-increment bookkeeping:** find_auto_inc's updates of REG_N_REFS, REG_N_SETS and REG_N_CALLS_CROSSED, of the `needed` set, and of basic_block_head when the increment insn heads its block. The auto-increment functions state the rewritten address and insn only.
- FindBlocks.FindBasicBlocksFlow: the block-start rule of the tagging scans is a parameter. `false` is the source as written (prev_code = code, flow.c:519-520) and `true` the counting scan's rule, which the Findings table gives as intended; FindBlocks.SecondPass takes the same parameter.
- FindBlocks.SecondPass: the restart's tagging scan starts with in_libcall_block clear. The source declares the flag once (flow.c:410) and restarts with `goto restart`, so it keeps the value the first pass left. The two differ only when the first pass's chain has a REG_LIBCALL insn with no REG_RETVAL insn after it. Threading an initial flag through the block-start predicates is out of this model.
- FindBlocks.ComputedJumpTargets: current_function_has_computed_jump (FindBlocks.HasComputedJump) and basic_block_computed_jump_target are stated as functions of a pass's final live flags, not set inside the marking loop. The loop marks exactly the blocks that are live at its end, and both outputs are reset at the start of each pass (flow.c:422-425).
- Life.LifeAnalysis: the INSN_VOLATILE test is a parameter. `true` is the source as written (Life.VolatileAsWritten) and `false` the intended test (Life.Volatile) that the Findings table gives; Life.MarkVolatile and Life.Vols take the same parameter.
- Propagate.RealStep: returns `Abort` in two cases where the source follows a pointer the model cannot name. One is a dead insn whose REG_RETVAL note names no earlier insn of the chain. The other is a walk by NEXT_INSN from a deleted libcall start that runs past the REG_RETVAL insn (flow.c:1684-1687). The source would follow the stale pointer.
- Propagate.Scan: returns `Abort` when a skipped libcall starts before the block's first instruction. The source misses its `insn == first` stop there and goes on scanning before the block.
- LabelRefs.MarkRefs: a LABEL_REF whose CODE_LABEL is off the chain and has a non-zero INSN_UID is modelled as `Abort`. The source aborts only when the operand is not a CODE_LABEL (flow.c:943-944); for an off-chain label it pushes the reference and sets block_live_static[BLOCK_NUM (label)] (flow.c:957-959). The model names a label by the position of its CODE_LABEL on the chain, so it cannot name that label's block. LabelRefs.MarkRefsAborts states the wider abort.
- Insns.SingleSet: written from single_set of the same release, since rtlanal.c is not part of this model. find_reg_note's pointer test for a REG_UNUSED note on the SET's destination is equality of the note's register with the destination.
- Rtl.RtxEqual: rtx_equal_p is structural equality here. rtx_equal_p does not compare the MEM volatile flag, and two distinct SCRATCHes, CONST_INTs or SYMBOL_REFs are unequal there; the model compares every field.
- RegUse.Overlaps: a register mentioned in the other expression is counted by its number alone. reg_overlap_mentioned_p also counts the further words of a multi-word hard register mentioned there.
- Rtl.SideEffects: a CLOBBER is never a side effect here. side_effects_p counts a CLOBBER with a non-VOID mode, and the Rtx's Clobber carries no mode. A volatile ASM_INPUT is an `Op` without a volatile flag, so it is not a side effect either.
- Rtl.VolatileRefs: a volatile ASM_INPUT is an `Op` without a volatile flag, so volatile_refs_p's test for it is not modelled.
- **cc0 handling.** The MIPS target has no cc0.
- **Floating point.** CONST_DOUBLE and the floating-point arms of gen_lowpart_common are left out.
- **Auto-increment in liveness.** The liveness scan models the MIPS build, which has no AUTO_INC_DEC. The auto-increment functions are modelled on their own, over target flags, and propagate_block does not call them.
- **Expression codes.** CONST, CONST_DOUBLE, ASM_INPUT and the other codes without a constructor are `Op` nodes with their operands. The walks recurse into them, which is the same here because they hold no registers.
- **MAX_SAVED_CONST_INT.** It is defined in rtl.h, which is not part of this model; the value 64 is used.
- **SEQUENCE patterns.** The delay-slot fix-ups that add_insn_after, add_insn_before and emit_insn make for SEQUENCE patterns are out, because delay-slot scheduling is not modelled. emit_insn of a SEQUENCE is out for the same reason.
- **next_insn and previous_insn.** These walks are in the model only as the LinkedNext and LinkedPrev lemmas.
- **Allocation side state:** the free_insn and sequence-element free-list caches, sequence_rtl_expr, and the sequence_result cache. Only gen_sequence's store into the free list touches an insn; see the next line.
- Emit.Chain.GenSequence: the single-insn path's `NEXT_INSN (first_insn) = free_insn; free_insn = first_insn` (emit-rtl.c:3275-3276) is not modelled. The free list is not part of the model, and a current chain whose only insn links onward to it is not a chain the arena can describe. The model leaves the chain unchanged.
- **Sequence stack extras:** push_topmost_sequence, pop_topmost_sequence, emit_insns, emit_insns_before, emit_insn_before/after, set_last_insn and get_last_insn_anywhere. They are not named as core, and each is built from the modelled pointer steps.
- **Output and errors.** The FILE output of the linux.h macros is a returned string. error_with_decl is a returned conflict flag. DECL_READONLY_SECTION is an input field of the declaration.
- **State after abort ().** An operation that aborts returns `Abort` (or a flag) and leaves the state as its contract allows. The compiler would not continue.
- RegTables.PartMode: mode_for_size is approximated by a scalar mode of half the size and the matching class, because the mode tables are not part of this model.
- **Register tables:** mark_reg_pointer and the register presets of init_emit, which only fill table entries.
- Emit.Chain.ReorderInsns: restricted to a run and an `after` on the current chain, because the source fixes up only first_insn and last_insn.
- Emit.Chain.AddInsnAfter: requires `after` to be on one of the chains, and Emit.Chain.AddInsnBefore likewise for `before`. The source aborts, or corrupts a chain, in the other cases.
- Emit.Chain.PushToSequence: requires PREV_INSN (first) == 0, and so do Emit.Chain.Renew and Emit.InsnEmitter.SetNewFirstAndLastInsn. A chain with a non-null PREV_INSN at its front is not a chain the model can name.
- Emit.Chain.NextMatching: a search from an insn on no chain is not modelled. The source follows whatever stale link that insn holds. The same holds for Emit.Chain.PrevMatching.
- **Phase flags.** reload_completed, reload_in_progress, optimize and no_line_numbers are parameters.
- **Simple jumps.** simplejump_p, used by emit, is defined in jump.c, which is not part of this model. It is modelled on the pattern alone, as Rtl.SimpleJumpPattern: a SET of pc from a LABEL_REF.
- **Emitter state split.** The interface keeps the emitter state in two objects, the chain (Emit.Chain) and the counters (Emit.InsnEmitter). In the source they are one set of globals.
- **sbitmap_vector_alloc memory layout.** Its single allocation and pointer alignment are out. The vector is N separate bitmaps.
- **Dumps and debugging:** dump_flow_info, print_rtl_with_bb, debug_bb and friends, which only print.
- **try_split and copy_rtx_if_shared.** They belong to the instruction splitter and unsharing, outside the core.
- **Other gen_lowpart_common and lowpart paths:** the SUBREG, REG, ZERO_EXTEND and SIGN_EXTEND arms of gen_lowpart_common, and gen_lowpart, gen_highpart, operand_subword and the mode-size helpers. Only the constant path (LowpartConstInt) and the word offset (LowpartWord) are modelled.
- **Larger analyses.** gen_reg_rtx's register presets, life_analysis's print and regs_live_at_setjmp reporting, the regno_uninitialized and regno_clobbered_at_setjmp queries, and the recomputation of drops-in by compute_preds_succs after life analysis are not modelled.
- **Numbers.** Integers are unbounded except where the source's width matters; the model states those widths explicitly (the C division in TruncDiv, the host word in LowpartConstInt).

## Findings

| source | as written | input that shows it | evidently intended | confidence | as-written member | corrected member |
|---|---|---|---|---|---|---|
| gcc/flow.c:3991-3992 | post_dominators[n_basic_blocks-1] is seeded with bit 0 | any function of two or more blocks: the last block's set stays within {0} and never holds the block itself | the last block post-dominates itself (SET_BIT (..., n_basic_blocks-1)) | not executed; high | Dominators.SeedZeroLosesLastBlock | DominatorPasses.ComputeDominatorsCorrected |
| gcc/flow.c:331-340 | the counting scan reads a CALL_INSN that carries REG_RETVAL as an INSN; the tagging scan does not | the chain [CALL_INSN with REG_RETVAL, INSN] in a function with nonlocal labels counts one block but tags two, so pass 1 aborts | both scans apply the same block-start rule | not executed; medium | Blocks.RetvalCallAborts | Blocks.FindBasicBlocks |
| gcc/flow.c:1207-1222 | the stack-allocation test is an `else if` that is reached only when the pattern is a USE, so it never holds | `(set sp (minus sp reg))` in an INSN is not INSN_VOLATILE and insn_dead_p finds it dead once sp is not needed | such SETs are INSN_VOLATILE and never deleted | not executed; high | Life.StackAllocationDeletable | Life.MarkVolatile |
| gcc/emit-rtl.c:2913-2917 | emit_insns_after fixes up last_insn only, not the saved last insn of a pending sequence | emit_insns_after (2, 1) when insn 1 is the last insn of a saved sequence: NEXT_INSN (1) = 2 but the saved end stays 1 | the fix-up add_insn_after does, which also moves a saved end | not executed; medium | InsnArena.StaleSavedEnd | Emit.Chain.EmitInsnsAfter |
