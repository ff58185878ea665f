/** life_analysis_1: the INSN_VOLATILE pre-pass that also deletes obvious
    no-op moves, the seeding of the registers live at the function's exit,
    the relaxation that computes the registers live at the start and end of
    every basic block, and the final pass that deletes dead stores. */
module Life {
  import opened Rtl
  import opened Machine
  import opened Insns
  import opened RegUse
  import opened Propagate
  import opened PredSucc
  import Reach
  import Dominators

  // ------------------------------------------------------------------
  // The pre-pass

  /** A SET of a register to the same register. */
  predicate RegSelfSet(p: Rtx)
  {
    p.Set? && p.dest.Reg? && p.src.Reg? && p.dest.regno == p.src.regno
  }

  /** A SET of a word of a register to the same word of the same register. */
  predicate SubregSelfSet(p: Rtx)
  {
    p.Set? && p.dest.Subreg? && p.dest.inner.Reg? && p.src.Subreg? && p.src.inner.Reg? &&
    p.dest.inner.regno == p.src.inner.regno && p.dest.word == p.src.word
  }

  /** The walk over the elements of a PARALLEL runs to its end: each element
      is a USE, a CLOBBER or a SET of a register to itself. */
  predicate SelfSetsOnly(es: seq<Rtx>)
  {
    es == [] || ((es[0].Use? || es[0].Clobber? || RegSelfSet(es[0])) && SelfSetsOnly(es[1..]))
  }

  lemma {:induction false} SelfSetsOnlyIff(es: seq<Rtx>)
    ensures SelfSetsOnly(es) <==> forall k | 0 <= k < |es| :: es[k].Use? || es[k].Clobber? || RegSelfSet(es[k])
  {
    if es != [] {
      SelfSetsOnlyIff(es[1..]);
      assert forall k | 1 <= k < |es| :: es[k] == es[1..][k - 1];
    }
  }

  /** An obvious no-op move: an INSN or JUMP_INSN without a REG_EQUAL note
      whose pattern copies a register, or a word of one, to itself, or is a
      PARALLEL of nothing but such register copies, USEs and CLOBBERs. */
  predicate NoopMove(x: Insn)
  {
    (x.code == PlainInsn || x.code == JumpInsn) && !HasRegEqual(x) &&
    (RegSelfSet(x.pattern) || SubregSelfSet(x.pattern) ||
     (x.pattern.Parallel? && SelfSetsOnly(x.pattern.elts)))
  }

  /** An instruction after the pre-pass: a no-op move becomes a deleted
      note with the same UID; everything else is untouched. */
  function PrePassed(x: Insn): (r: Insn)
    ensures r.uid == x.uid && r.pattern == x.pattern && r.callUsage == x.callUsage
    ensures r != x <==> NoopMove(x)
    ensures r != x ==> r.code == NoteInsn && r.note == NoteDeleted
    ensures r.code == LabelInsn <==> x.code == LabelInsn
  {
    if NoopMove(x) then AsDeletedNote(x) else x
  }

  /** A SET that makes space on the stack for variable-size data: the stack
      pointer minus (or plus, when the stack grows upward) something. */
  predicate StackAllocation(t: Target, p: Rtx)
  {
    p.Set? && p.dest.Reg? && p.dest.regno == t.sp &&
    (if t.stackGrowsDown then p.src.Minus? else p.src.Plus?) &&
    p.src.op0.Reg? && p.src.op0.regno == t.sp
  }

  /** INSN_VOLATILE as the pre-pass leaves it. The test for a stack
      allocation sits in an arm that is only reached when the pattern is a
      USE, so it never holds there. */
  predicate VolatileAsWritten(t: Target, x: Insn)
  {
    if x.code == CallInsn then true
    else if x.code == PlainInsn || x.code == JumpInsn then
      if NoopMove(x) then false
      else if !x.pattern.Use? then VolatileRefs(x.pattern)
      else x.code == PlainInsn && StackAllocation(t, x.pattern)
    else false
  }

  /** INSN_VOLATILE as the comment before the test intends: an instruction
      that refers to volatile memory, a CALL_INSN, or a stack allocation
      (which signal handlers may need) is never deleted as dead. */
  predicate Volatile(t: Target, x: Insn)
  {
    if x.code == CallInsn then true
    else if x.code == PlainInsn || x.code == JumpInsn then
      if NoopMove(x) then false
      else if !x.pattern.Use? then VolatileRefs(x.pattern) || (x.code == PlainInsn && StackAllocation(t, x.pattern))
      else false
    else false
  }

  /** INSN_VOLATILE under either reading: the source as written when
      `asWritten` holds, the intended test otherwise. */
  predicate VolatileFlag(t: Target, asWritten: bool, x: Insn)
  {
    if asWritten then VolatileAsWritten(t, x) else Volatile(t, x)
  }

  /** The two agree except on stack allocations without volatile references. */
  lemma VolatileDiffers(t: Target, x: Insn)
    ensures VolatileAsWritten(t, x) != Volatile(t, x) <==>
      x.code == PlainInsn && !NoopMove(x) && StackAllocation(t, x.pattern) && !VolatileRefs(x.pattern)
  {
  }

  /** A stack allocation by a register amount: the pre-pass as written
      leaves it deletable, and once the stack pointer is not needed
      afterwards, insn_dead_p finds it dead. */
  lemma StackAllocationDeletable(t: Target, m: Mode, amount: nat)
    ensures var x := Insn(1, PlainInsn, Set(Reg(m, t.sp), Minus(Reg(m, t.sp), Reg(m, amount))), NoteOtherKind, [], false, []);
      t.stackGrowsDown ==>
        !VolatileAsWritten(t, x) && Volatile(t, x) &&
        (!IsGlobalHard(t, t.sp) && !IsFramePointerLike(t, t.sp) ==> InsnDead(t, x.pattern, {}, false, None))
  {
    var p := Set(Reg(m, t.sp), Minus(Reg(m, t.sp), Reg(m, amount)));
    var x := Insn(1, PlainInsn, p, NoteOtherKind, [], false, []);
    assert !HasRegEqual(x);
    NoVolatileInReg(Reg(m, amount));
    NoVolatileInReg(Reg(m, t.sp));
    NoVolatileInPair(p.src);
    NoVolatileInPair(p);
    if !IsGlobalHard(t, t.sp) && !IsFramePointerLike(t, t.sp) {
      InsnDeadRegStore(t, p.dest, p.src, {}, false, None);
    }
  }

  lemma NoVolatileInReg(x: Rtx)
    requires x.Reg?
    ensures !VolatileRefs(x)
  {
    assert Operands(x) == [];
  }

  /** A SET or MINUS without volatile operands has no volatile reference. */
  lemma NoVolatileInPair(x: Rtx)
    requires x.Set? || x.Minus?
    requires !VolatileRefs(Operands(x)[0]) && !VolatileRefs(Operands(x)[1])
    ensures !VolatileRefs(x)
  {
    var os := Operands(x);
    assert |os| == 2 && os[1..][1..] == [];
    assert !AnyVolatileRefs(x, os[1..][1..]);
    assert !AnyVolatileRefs(x, os[1..]);
  }

  /** The pre-pass over the chain: deletes the no-op moves in place and
      returns INSN_VOLATILE for every position, under the reading
      `asWritten` selects. */
  method MarkVolatile(t: Target, asWritten: bool, chain: array<Insn>) returns (vol: seq<bool>)
    modifies chain
    ensures |vol| == chain.Length
    ensures forall k | 0 <= k < chain.Length ::
      chain[k] == PrePassed(old(chain[k])) && vol[k] == VolatileFlag(t, asWritten, old(chain[k]))
  {
    var flags := new bool[chain.Length];
    for k := 0 to chain.Length
      invariant forall j | 0 <= j < k ::
        chain[j] == PrePassed(old(chain[j])) && flags[j] == VolatileFlag(t, asWritten, old(chain[j]))
      invariant forall j | k <= j < chain.Length :: chain[j] == old(chain[j])
    {
      var x := chain[k];
      flags[k] := VolatileFlag(t, asWritten, x);
      if NoopMove(x) {
        chain[k] := AsDeletedNote(x);
      }
    }
    vol := flags[..];
  }

  /** The chain after the pre-pass, and its INSN_VOLATILE flags. */
  function PrePass(chain: seq<Insn>): (r: seq<Insn>)
    ensures |r| == |chain| && forall k | 0 <= k < |chain| :: r[k] == PrePassed(chain[k])
  {
    seq(|chain|, k requires 0 <= k < |chain| => PrePassed(chain[k]))
  }

  function Vols(t: Target, asWritten: bool, chain: seq<Insn>): (r: seq<bool>)
    ensures |r| == |chain| && forall k | 0 <= k < |chain| :: r[k] == VolatileFlag(t, asWritten, chain[k])
  {
    seq(|chain|, k requires 0 <= k < |chain| => VolatileFlag(t, asWritten, chain[k]))
  }

  /** The pre-pass keeps every register mention of the chain. */
  lemma PrePassBelow(chain: seq<Insn>, max: nat)
    requires ChainBelow(chain, max)
    ensures ChainBelow(PrePass(chain), max)
  {
    var r := PrePass(chain);
    forall k | 0 <= k < |r|
      ensures InsnBelow(r[k], max)
    {
      assert InsnBelow(chain[k], max);
    }
  }

  // ------------------------------------------------------------------
  // The blocks and the regsets

  /** The tables as find_basic_blocks leaves them for life_analysis_1:
      every block ends at or after its head, control never drops into the
      first block, and every block has a loop depth. */
  predicate LifeTablesOk(t: FlowTables, depths: seq<int>)
  {
    |depths| == Blocks(t) && (Blocks(t) > 0 ==> !t.drops[0]) &&
    forall b | 0 <= b < Blocks(t) :: t.heads[b] <= t.ends[b]
  }

  /** BLOCK_NUM of each instruction on a LABEL_REFS chain. */
  function RefBlocks(t: FlowTables, refs: seq<Insn>): (r: set<nat>)
    requires forall x | x in refs :: InBlock(t, x)
    ensures forall b | b in r :: b < Blocks(t)
    ensures forall b :: b in r <==> exists x | x in refs && x.uid in t.blockNum :: t.blockNum[x.uid] == b
  {
    if refs == [] then {}
    else
      var init := refs[..|refs| - 1];
      var last := refs[|refs| - 1];
      assert last in refs && InBlock(t, last);
      assert forall x | x in refs :: x in init || x == last;
      RefBlocks(t, init) + {t.blockNum[last.uid] as nat}
  }

  /** The blocks whose new_live_at_end takes in block s's live_at_start:
      the block control drops in from, and for a block headed by a label
      the block of every instruction on the label's LABEL_REFS chain. */
  function Preds(t: FlowTables, s: nat): (r: set<nat>)
    requires s < Blocks(t)
    ensures forall p | p in r :: p < Blocks(t)
  {
    var head := t.chain[t.heads[s]];
    var refs := Referrers(t, head.uid);
    (if t.drops[s] && s > 0 then {s - 1} else {}) +
    (if head.code == LabelInsn then RefBlocks(t, refs) else {})
  }

  /** The registers live at the end of the function: the stack pointer
      unless the exit ignores it, the frame pointers, and the global
      registers and those the epilogue uses. */
  function ExitLive(c: Ctx): (r: set<nat>)
    ensures forall q :: q in r <==>
      (c.exitSp && q == c.t.sp) || q == c.t.fp || q == c.t.hfp ||
      (q < c.t.firstPseudo && (q in c.t.globalRegs || q in c.t.epilogueUses))
  {
    (if c.exitSp then {c.t.sp} else {}) + {c.t.fp, c.t.hfp} + (c.t.globalRegs + c.t.epilogueUses) * HardRegs(c.t)
  }

  /** basic_block_live_at_start, basic_block_live_at_end,
      basic_block_new_live_at_end and basic_block_significant. */
  datatype Flow = Flow(atStart: seq<set<nat>>, atEnd: seq<set<nat>>, newAtEnd: seq<set<nat>>, significant: seq<set<nat>>)

  predicate SizesOk(s: Flow, n: nat)
  {
    |s.atStart| == n && |s.atEnd| == n && |s.newAtEnd| == n && |s.significant| == n
  }

  /** `live` added to the sets of the given blocks. */
  function AddLive(ns: seq<set<nat>>, ps: set<nat>, live: set<nat>): (r: seq<set<nat>>)
    ensures |r| == |ns| && forall j | 0 <= j < |ns| :: r[j] == if j in ps then ns[j] + live else ns[j]
  {
    seq(|ns|, j requires 0 <= j < |ns| => if j in ps then ns[j] + live else ns[j])
  }

  /** The block must be thought about: registers became live at its end
      (always on the first pass). */
  predicate Consider(s: Flow, firstPass: bool, i: nat)
    requires SizesOk(s, |s.atEnd|) && i < |s.atEnd|
  {
    firstPass || s.newAtEnd[i] - s.atEnd[i] != {}
  }

  /** The block must be scanned instruction by instruction: one of the
      registers newly live at its end is significant in it. */
  predicate Rescan(s: Flow, firstPass: bool, i: nat)
    requires SizesOk(s, |s.atEnd|) && i < |s.atEnd|
  {
    firstPass || (s.newAtEnd[i] - s.atEnd[i]) * s.significant[i] != {}
  }

  /** One visit of block i in a pass of the relaxation: nothing when it
      need not be considered; otherwise its live_at_start and live_at_end
      take in the registers newly live at its end, by rescanning the block
      when one of them is significant, and its predecessors'
      new_live_at_end take in its live_at_start. The flag says whether the
      block was considered. */
  function Visit(c: Ctx, vol: seq<bool>, ch: seq<Insn>, t: FlowTables, depths: seq<int>, firstPass: bool,
                 s: Flow, i: nat): (r: Result<(Flow, bool)>)
    requires LifeTablesOk(t, depths) && |ch| == |t.chain| == |vol| && SizesOk(s, Blocks(t)) && i < Blocks(t)
  {
    var d := s.newAtEnd[i] - s.atEnd[i];
    if !Consider(s, firstPass, i) then Ok((s, false))
    else
      var s1 :=
        if !Rescan(s, firstPass, i) then
          Ok(s.(atStart := s.atStart[i := s.atStart[i] + d], atEnd := s.atEnd[i := s.atEnd[i] + d]))
        else
          match Propagate.Propagate(c, vol, ch, t.heads[i], t.ends[i], false, firstPass, s.newAtEnd[i], s.significant[i], depths[i], {})
          case Abort => Abort
          case Ok((_, st)) =>
            Ok(s.(atStart := s.atStart[i := st.live], atEnd := s.atEnd[i := s.newAtEnd[i]],
                  significant := if firstPass then s.significant[i := st.sig] else s.significant));
      match s1
      case Abort => Abort
      case Ok(s1) => Ok((s1.(newAtEnd := AddLive(s1.newAtEnd, Preds(t, i), s1.atStart[i])), true))
  }

  /** Without a rescan, exactly the registers newly live at the end are
      added to both live_at_start and live_at_end. */
  lemma NoRescanAddsDifference(c: Ctx, vol: seq<bool>, ch: seq<Insn>, t: FlowTables, depths: seq<int>, s: Flow, i: nat)
    requires LifeTablesOk(t, depths) && |ch| == |t.chain| == |vol| && SizesOk(s, Blocks(t)) && i < Blocks(t)
    requires Consider(s, false, i) && !Rescan(s, false, i)
    ensures var r := Visit(c, vol, ch, t, depths, false, s, i);
      var d := s.newAtEnd[i] - s.atEnd[i];
      r.Ok? && r.value.0.atStart == s.atStart[i := s.atStart[i] + d] &&
      r.value.0.atEnd == s.atEnd[i := s.atEnd[i] + d] && r.value.0.significant == s.significant
  {
  }

  /** A visit only adds to new_live_at_end: block p gains block i's
      live_at_start when p is one of its predecessors, and nothing else. */
  lemma VisitGrowsNewAtEnd(c: Ctx, vol: seq<bool>, ch: seq<Insn>, t: FlowTables, depths: seq<int>, firstPass: bool, s: Flow, i: nat)
    requires LifeTablesOk(t, depths) && |ch| == |t.chain| == |vol| && SizesOk(s, Blocks(t)) && i < Blocks(t)
    ensures var r := Visit(c, vol, ch, t, depths, firstPass, s, i);
      r.Ok? ==> (|r.value.0.newAtEnd| == Blocks(t) &&
        forall p | 0 <= p < Blocks(t) :: r.value.0.newAtEnd[p] ==
          if r.value.1 && p in Preds(t, i) then s.newAtEnd[p] + r.value.0.atStart[i] else s.newAtEnd[p])
  {
  }

  /** block i's scan outside the final pass, started with `live` at its
      end and without recording significant registers */
  function ScanBlock(c: Ctx, vol: seq<bool>, ch: seq<Insn>, t: FlowTables, depths: seq<int>, i: nat, live: set<nat>): Result<(seq<Insn>, ScanState)>
    requires LifeTablesOk(t, depths) && |ch| == |t.chain| == |vol| && i < Blocks(t)
  {
    Propagate.Propagate(c, vol, ch, t.heads[i], t.ends[i], false, false, live, {}, depths[i], {})
  }

  /** What block i's live_at_start is: the scan of the block from the
      live_at_end it was last scanned with, plus the registers that have
      become live at its end since, none of which is significant in it. */
  ghost predicate Transfer(c: Ctx, vol: seq<bool>, ch: seq<Insn>, t: FlowTables, depths: seq<int>, i: nat,
                           atStart: set<nat>, atEnd: set<nat>, sig: set<nat>, scanned: set<nat>)
    requires LifeTablesOk(t, depths) && |ch| == |t.chain| == |vol| && i < Blocks(t)
  {
    var r := ScanBlock(c, vol, ch, t, depths, i, scanned);
    scanned <= atEnd && (atEnd - scanned) * sig == {} && r.Ok? && atStart == r.value.1.live + (atEnd - scanned)
  }

  /** Block j has been visited once by the time block i is visited. */
  predicate Done(firstPass: bool, i: int, j: nat)
  {
    !firstPass || j > i
  }

  /** What holds during the relaxation, with blocks i+1 .. n-1 of the
      current pass visited: the regsets stay within the registers, the
      registers live at exit stay live at the end of the last block, and
      for every visited block its live_at_start is its Transfer and is part
      of the new_live_at_end of each predecessor. */
  ghost predicate Inv(c: Ctx, vol: seq<bool>, ch: seq<Insn>, t: FlowTables, depths: seq<int>, max: nat,
                      s: Flow, scanned: seq<set<nat>>, firstPass: bool, i: int)
    requires LifeTablesOk(t, depths) && |ch| == |t.chain| == |vol|
  {
    InvFlow(c, t, max, s, firstPass, i) && InvScans(c, vol, ch, t, depths, s, scanned, firstPass, i)
  }

  /** The part of the invariant about the regsets alone. */
  ghost predicate InvFlow(c: Ctx, t: FlowTables, max: nat, s: Flow, firstPass: bool, i: int)
  {
    var n := Blocks(t);
    SizesOk(s, n) &&
    (forall j | 0 <= j < n :: Below(s.newAtEnd[j], max) && s.atEnd[j] <= s.newAtEnd[j] && Below(s.atStart[j], max)) &&
    (n > 0 ==> ExitLive(c) <= s.atEnd[n - 1]) &&
    (forall j, p | 0 <= j < n && Done(firstPass, i, j) && p in Preds(t, j) :: s.atStart[j] <= s.newAtEnd[p])
  }

  /** The part of the invariant about the scans of the visited blocks. */
  ghost predicate InvScans(c: Ctx, vol: seq<bool>, ch: seq<Insn>, t: FlowTables, depths: seq<int>,
                           s: Flow, scanned: seq<set<nat>>, firstPass: bool, i: int)
    requires LifeTablesOk(t, depths) && |ch| == |t.chain| == |vol|
  {
    var n := Blocks(t);
    SizesOk(s, n) && |scanned| == n &&
    (forall j | 0 <= j < n && Done(firstPass, i, j) ::
       Transfer(c, vol, ch, t, depths, j, s.atStart[j], s.atEnd[j], s.significant[j], scanned[j]))
  }

  /** The live_at_end each block was last scanned with, after visiting block i. */
  function NextScanned(s: Flow, scanned: seq<set<nat>>, firstPass: bool, i: nat): (r: seq<set<nat>>)
    requires SizesOk(s, |s.atEnd|) && i < |s.atEnd| && |scanned| == |s.atEnd|
    ensures |r| == |scanned|
  {
    if Consider(s, firstPass, i) && Rescan(s, firstPass, i) then scanned[i := s.newAtEnd[i]] else scanned
  }

  /** What a visit does to the regsets when block i's own part of the
      invariant holds: a considered block's live_at_end becomes its
      new_live_at_end, its live_at_start its Transfer within the registers,
      and its predecessors take that in; nothing else changes. */
  lemma VisitFacts(c: Ctx, vol: seq<bool>, ch: seq<Insn>, t: FlowTables, depths: seq<int>, max: nat,
                   s: Flow, scanned: seq<set<nat>>, firstPass: bool, i: nat)
    requires LifeTablesOk(t, depths) && |ch| == |t.chain| == |vol| && i < Blocks(t)
    requires TargetOk(c.t, max) && ChainBelow(ch, max)
    requires SizesOk(s, Blocks(t)) && |scanned| == Blocks(t)
    requires s.atEnd[i] <= s.newAtEnd[i] && Below(s.newAtEnd[i], max) && Below(s.atStart[i], max)
    requires !firstPass ==> Transfer(c, vol, ch, t, depths, i, s.atStart[i], s.atEnd[i], s.significant[i], scanned[i])
    requires Visit(c, vol, ch, t, depths, firstPass, s, i).Ok?
    ensures var (s2, considered) := Visit(c, vol, ch, t, depths, firstPass, s, i).value;
      var sc2 := NextScanned(s, scanned, firstPass, i);
      considered == Consider(s, firstPass, i) &&
      (!considered ==> s2 == s && sc2 == scanned) &&
      (considered ==>
        SizesOk(s2, Blocks(t)) && sc2 == scanned[i := sc2[i]] &&
        s2.atEnd == s.atEnd[i := s.newAtEnd[i]] &&
        s2.atStart == s.atStart[i := s2.atStart[i]] && Below(s2.atStart[i], max) &&
        (forall j | 0 <= j < Blocks(t) && j != i :: s2.significant[j] == s.significant[j]) &&
        s2.newAtEnd == AddLive(s.newAtEnd, Preds(t, i), s2.atStart[i]) &&
        Transfer(c, vol, ch, t, depths, i, s2.atStart[i], s2.atEnd[i], s2.significant[i], sc2[i]))
  {
    var (s2, considered) := Visit(c, vol, ch, t, depths, firstPass, s, i).value;
    var sc2 := NextScanned(s, scanned, firstPass, i);
    if considered {
      var d := s.newAtEnd[i] - s.atEnd[i];
      assert s.atEnd[i] + d == s.newAtEnd[i];
      if Rescan(s, firstPass, i) {
        PropagateSig(c, vol, ch, t.heads[i], t.ends[i], firstPass, false, s.newAtEnd[i], s.significant[i], {}, depths[i], {});
        PropagateBelow(c, vol, ch, t.heads[i], t.ends[i], firstPass, s.newAtEnd[i], s.significant[i], depths[i], {}, max);
        assert sc2[i] == s2.atEnd[i] && s2.atEnd[i] - sc2[i] == {};
      } else {
        assert s2.atEnd[i] - scanned[i] == (s.atEnd[i] - scanned[i]) + d;
      }
    }
  }

  /** The invariant carries over a visit that replaces block i's
      live_at_start by `x` (its Transfer), its live_at_end by its
      new_live_at_end, and adds `x` to its predecessors' new_live_at_end. */
  lemma UpdateKeeps(c: Ctx, vol: seq<bool>, ch: seq<Insn>, t: FlowTables, depths: seq<int>, max: nat,
                    s: Flow, scanned: seq<set<nat>>, s2: Flow, sc2: seq<set<nat>>, firstPass: bool, i: nat, x: set<nat>)
    requires LifeTablesOk(t, depths) && |ch| == |t.chain| == |vol| && i < Blocks(t)
    requires Inv(c, vol, ch, t, depths, max, s, scanned, firstPass, i)
    requires SizesOk(s2, Blocks(t)) && |sc2| == Blocks(t)
    requires forall j | 0 <= j < Blocks(t) && j != i :: sc2[j] == scanned[j] && s2.significant[j] == s.significant[j]
    requires s2.atEnd == s.atEnd[i := s.newAtEnd[i]] && s2.atStart == s.atStart[i := x] && Below(x, max)
    requires s2.newAtEnd == AddLive(s.newAtEnd, Preds(t, i), x)
    requires Transfer(c, vol, ch, t, depths, i, x, s2.atEnd[i], s2.significant[i], sc2[i])
    ensures Inv(c, vol, ch, t, depths, max, s2, sc2, firstPass, i - 1)
  {
    UpdateTransfers(c, vol, ch, t, depths, max, s, scanned, s2, sc2, firstPass, i, x);
    UpdatePreds(c, t, max, s, s2, firstPass, i, x);
  }

  /** After the update every block visited has its Transfer. */
  lemma UpdateTransfers(c: Ctx, vol: seq<bool>, ch: seq<Insn>, t: FlowTables, depths: seq<int>, max: nat,
                        s: Flow, scanned: seq<set<nat>>, s2: Flow, sc2: seq<set<nat>>, firstPass: bool, i: nat, x: set<nat>)
    requires LifeTablesOk(t, depths) && |ch| == |t.chain| == |vol| && i < Blocks(t)
    requires InvScans(c, vol, ch, t, depths, s, scanned, firstPass, i)
    requires SizesOk(s2, Blocks(t)) && |sc2| == Blocks(t)
    requires forall j | 0 <= j < Blocks(t) && j != i :: sc2[j] == scanned[j] && s2.significant[j] == s.significant[j]
    requires s2.atEnd == s.atEnd[i := s.newAtEnd[i]] && s2.atStart == s.atStart[i := x]
    requires Transfer(c, vol, ch, t, depths, i, x, s2.atEnd[i], s2.significant[i], sc2[i])
    ensures InvScans(c, vol, ch, t, depths, s2, sc2, firstPass, i - 1)
  {
    forall j | 0 <= j < Blocks(t) && Done(firstPass, i - 1, j)
      ensures Transfer(c, vol, ch, t, depths, j, s2.atStart[j], s2.atEnd[j], s2.significant[j], sc2[j])
    {
      if j != i {
        assert Done(firstPass, i, j);
      }
    }
  }

  /** After the update every block visited has its live_at_start within
      the new_live_at_end of each predecessor, and the regsets stay within
      the registers. */
  lemma UpdatePreds(c: Ctx, t: FlowTables, max: nat, s: Flow, s2: Flow, firstPass: bool, i: nat, x: set<nat>)
    requires i < Blocks(t)
    requires InvFlow(c, t, max, s, firstPass, i)
    requires SizesOk(s2, Blocks(t))
    requires s2.atEnd == s.atEnd[i := s.newAtEnd[i]] && s2.atStart == s.atStart[i := x] && Below(x, max)
    requires s2.newAtEnd == AddLive(s.newAtEnd, Preds(t, i), x)
    ensures InvFlow(c, t, max, s2, firstPass, i - 1)
  {
    var n := Blocks(t);
    if i == n - 1 {
      assert s.atEnd[i] <= s.newAtEnd[i];
    }
    forall j | 0 <= j < n
      ensures Below(s2.newAtEnd[j], max) && s2.atEnd[j] <= s2.newAtEnd[j] && Below(s2.atStart[j], max)
    {
    }
    forall j, p | 0 <= j < n && Done(firstPass, i - 1, j) && p in Preds(t, j)
      ensures s2.atStart[j] <= s2.newAtEnd[p]
    {
      if j != i {
        assert Done(firstPass, i, j);
        assert s.atStart[j] <= s.newAtEnd[p];
      }
    }
  }

  /** A visit keeps the invariant, lets live_at_end only grow, and, outside
      the first pass, makes block i's live_at_end strictly larger exactly
      when the block is considered. */
  lemma VisitKeeps(c: Ctx, vol: seq<bool>, ch: seq<Insn>, t: FlowTables, depths: seq<int>, max: nat,
                   s: Flow, scanned: seq<set<nat>>, firstPass: bool, i: nat)
    requires LifeTablesOk(t, depths) && |ch| == |t.chain| == |vol| && i < Blocks(t)
    requires TargetOk(c.t, max) && ChainBelow(ch, max)
    requires Inv(c, vol, ch, t, depths, max, s, scanned, firstPass, i)
    requires Visit(c, vol, ch, t, depths, firstPass, s, i).Ok?
    ensures var (s2, considered) := Visit(c, vol, ch, t, depths, firstPass, s, i).value;
      Inv(c, vol, ch, t, depths, max, s2, NextScanned(s, scanned, firstPass, i), firstPass, i - 1) &&
      (forall j | 0 <= j < Blocks(t) :: s.atEnd[j] <= s2.atEnd[j]) &&
      (forall j | 0 <= j < Blocks(t) && j != i :: s2.atEnd[j] == s.atEnd[j]) &&
      (considered == Consider(s, firstPass, i)) &&
      (!considered ==> s2 == s) &&
      (considered && !firstPass ==> s2.atEnd[i] != s.atEnd[i])
  {
    assert Done(firstPass, i, i) <== !firstPass;
    VisitFacts(c, vol, ch, t, depths, max, s, scanned, firstPass, i);
    var (s2, considered) := Visit(c, vol, ch, t, depths, firstPass, s, i).value;
    var sc2 := NextScanned(s, scanned, firstPass, i);
    if considered {
      UpdateKeeps(c, vol, ch, t, depths, max, s, scanned, s2, sc2, firstPass, i, s2.atStart[i]);
      if !firstPass {
        var q :| q in s.newAtEnd[i] - s.atEnd[i];
        assert q in s2.atEnd[i] && q !in s.atEnd[i];
      }
    } else {
      assert !firstPass;
      assert Inv(c, vol, ch, t, depths, max, s, scanned, firstPass, i - 1);
    }
  }

  // ------------------------------------------------------------------
  // The relaxation in place

  /** The regsets before the relaxation: everything empty except the
      live_at_end and new_live_at_end of the last block, which hold the
      registers live at the function's exit. */
  function InitialFlow(c: Ctx, n: nat): (r: Flow)
    ensures SizesOk(r, n)
    ensures forall j | 0 <= j < n ::
      r.atStart[j] == {} && r.significant[j] == {} &&
      r.atEnd[j] == r.newAtEnd[j] == (if j == n - 1 then ExitLive(c) else {})
  {
    var e := seq(n, j => if j == n - 1 then ExitLive(c) else {});
    Flow(seq(n, j => {}), e, e, seq(n, j => {}))
  }

  /** The registers live at exit are registers of the target. */
  lemma ExitLiveBelow(c: Ctx, max: nat)
    requires TargetOk(c.t, max)
    ensures Below(ExitLive(c), max)
  {
  }

  /** Before the first pass the invariant holds with no block visited. */
  lemma InitialInv(c: Ctx, vol: seq<bool>, ch: seq<Insn>, t: FlowTables, depths: seq<int>, max: nat)
    requires LifeTablesOk(t, depths) && |ch| == |t.chain| == |vol| && TargetOk(c.t, max)
    ensures Inv(c, vol, ch, t, depths, max, InitialFlow(c, Blocks(t)), seq(Blocks(t), j => {}), true, Blocks(t) - 1)
  {
    ExitLiveBelow(c, max);
  }

  /** The relaxation has reached its fixed point: the invariant holds for
      every block and no register is newly live at the end of any block. */
  ghost predicate Solved(c: Ctx, vol: seq<bool>, ch: seq<Insn>, t: FlowTables, depths: seq<int>, max: nat,
                         s: Flow, scanned: seq<set<nat>>)
    requires LifeTablesOk(t, depths) && |ch| == |t.chain| == |vol|
  {
    Inv(c, vol, ch, t, depths, max, s, scanned, false, -1) &&
    forall j | 0 <= j < Blocks(t) :: s.newAtEnd[j] == s.atEnd[j]
  }

  /** What the fixed point means: every register live at the start of a
      block is live at the end of each block that can transfer control to
      it, the registers live at exit are live at the end of the last
      block, and each block's live_at_start is the backward scan of the
      block from its live_at_end, the registers not significant in it
      passing straight through. */
  lemma SolvedEquations(c: Ctx, vol: seq<bool>, ch: seq<Insn>, t: FlowTables, depths: seq<int>, max: nat,
                        s: Flow, scanned: seq<set<nat>>, j: nat, p: nat)
    requires LifeTablesOk(t, depths) && |ch| == |t.chain| == |vol|
    requires Solved(c, vol, ch, t, depths, max, s, scanned) && j < Blocks(t)
    ensures p in Preds(t, j) ==> s.atStart[j] <= s.atEnd[p]
    ensures ExitLive(c) <= s.atEnd[Blocks(t) - 1]
    ensures Below(s.atEnd[j], max) && Below(s.atStart[j], max)
    ensures var r := ScanBlock(c, vol, ch, t, depths, j, scanned[j]);
      scanned[j] <= s.atEnd[j] && (s.atEnd[j] - scanned[j]) * s.significant[j] == {} &&
      r.Ok? && s.atStart[j] == r.value.1.live + (s.atEnd[j] - scanned[j])
  {
    assert Done(false, -1, j);
    assert Transfer(c, vol, ch, t, depths, j, s.atStart[j], s.atEnd[j], s.significant[j], scanned[j]);
    if p in Preds(t, j) {
      assert s.atStart[j] <= s.newAtEnd[p];
    }
  }

  /** How many registers of `u` (the registers below the largest
      register number) are missing from the regsets: the measure that the
      relaxation's growing live_at_end sets push down. */
  function Deficit(ss: seq<set<nat>>, u: set<nat>): nat
  {
    if ss == [] then 0 else Deficit(ss[..|ss| - 1], u) + |u - ss[|ss| - 1]|
  }

  /** Regsets within `u` that only grow do not raise the deficit, and
      when the one at `j` grows strictly the deficit falls. */
  lemma {:induction false} DeficitShrinks(a: seq<set<nat>>, b: seq<set<nat>>, u: set<nat>, j: int)
    requires |a| == |b| && forall k | 0 <= k < |a| :: a[k] <= b[k] <= u
    ensures Deficit(b, u) <= Deficit(a, u)
    ensures 0 <= j < |a| && a[j] != b[j] ==> Deficit(b, u) < Deficit(a, u)
  {
    if a != [] {
      var m := |a| - 1;
      assert forall k | 0 <= k < m :: a[..m][k] == a[k] && b[..m][k] == b[k];
      DeficitShrinks(a[..m], b[..m], u, if j < m then j else -1);
      MissingShrinks(a[m], b[m], u);
      if 0 <= j < m && a[j] != b[j] {
        assert a[..m][j] != b[..m][j];
      }
    }
  }

  /** For x <= y within `u`, fewer members of `u` are missing from y, and
      strictly fewer when y is larger. */
  lemma MissingShrinks(x: set<nat>, y: set<nat>, u: set<nat>)
    requires x <= y <= u
    ensures |u - y| <= |u - x|
    ensures x != y ==> |u - y| < |u - x|
  {
    var mx, my := u - x, u - y;
    assert my <= mx;
    assert mx == my + (mx - my);
    if x != y {
      assert !(forall q :: q in x <==> q in y);
      var q :| q in y && q !in x;
      assert q in mx - my;
    }
  }

  /** A regset below `max` lies within the registers below `max`. */
  lemma BelowRange(x: set<nat>, max: nat)
    requires Below(x, max)
    ensures x <= Range(0, max)
  {
  }

  /** What holds inside a pass started from `s0`, with blocks i+1 .. n-1
      visited: the invariant, live_at_end only grown, no change recorded
      unless some block was considered, and outside the first pass a
      block `grown` whose live_at_end grew once a change is recorded. */
  ghost predicate PassInv(c: Ctx, vol: seq<bool>, ch: seq<Insn>, t: FlowTables, depths: seq<int>, max: nat,
                          s0: Flow, s: Flow, sc: seq<set<nat>>, firstPass: bool, i: int, changed: bool, grown: int)
    requires LifeTablesOk(t, depths) && |ch| == |t.chain| == |vol|
  {
    -1 <= i < Blocks(t) && SizesOk(s0, Blocks(t)) &&
    Inv(c, vol, ch, t, depths, max, s, sc, firstPass, i) &&
    (forall j | 0 <= j < Blocks(t) :: s0.atEnd[j] <= s.atEnd[j]) &&
    (!changed ==> s == s0 && forall j | i < j < Blocks(t) :: !Consider(s0, firstPass, j)) &&
    (changed && !firstPass ==> 0 <= grown < Blocks(t) && s.atEnd[grown] != s0.atEnd[grown])
  }

  /** Block i's visit inside a pass keeps the pass's invariant. */
  lemma PassStep(c: Ctx, vol: seq<bool>, ch: seq<Insn>, t: FlowTables, depths: seq<int>, max: nat,
                 s0: Flow, s: Flow, sc: seq<set<nat>>, firstPass: bool, i: nat, changed: bool, grown: int)
    requires LifeTablesOk(t, depths) && |ch| == |t.chain| == |vol|
    requires TargetOk(c.t, max) && ChainBelow(ch, max)
    requires PassInv(c, vol, ch, t, depths, max, s0, s, sc, firstPass, i, changed, grown)
    requires Visit(c, vol, ch, t, depths, firstPass, s, i).Ok?
    ensures var (s2, considered) := Visit(c, vol, ch, t, depths, firstPass, s, i).value;
      PassInv(c, vol, ch, t, depths, max, s0, s2, NextScanned(s, sc, firstPass, i), firstPass, i - 1,
              changed || considered, if considered && !firstPass && !changed then i else grown)
  {
    VisitKeeps(c, vol, ch, t, depths, max, s, sc, firstPass, i);
    var (s2, considered) := Visit(c, vol, ch, t, depths, firstPass, s, i).value;
    if changed && !firstPass {
      assert s0.atEnd[grown] <= s.atEnd[grown] <= s2.atEnd[grown];
    }
  }

  /** What a pass has done once all blocks are visited. */
  ghost predicate PassDone(c: Ctx, vol: seq<bool>, ch: seq<Insn>, t: FlowTables, depths: seq<int>, max: nat,
                           s0: Flow, s: Flow, sc: seq<set<nat>>, firstPass: bool, changed: bool)
    requires LifeTablesOk(t, depths) && |ch| == |t.chain| == |vol|
  {
    Inv(c, vol, ch, t, depths, max, s, sc, firstPass, -1) && SizesOk(s0, Blocks(t)) &&
    (forall j | 0 <= j < Blocks(t) :: s0.atEnd[j] <= s.atEnd[j]) &&
    (!changed ==> s == s0 && forall j | 0 <= j < Blocks(t) :: !Consider(s0, firstPass, j)) &&
    (changed && !firstPass ==> exists j | 0 <= j < Blocks(t) :: s.atEnd[j] != s0.atEnd[j])
  }

  lemma PassEnd(c: Ctx, vol: seq<bool>, ch: seq<Insn>, t: FlowTables, depths: seq<int>, max: nat,
                s0: Flow, s: Flow, sc: seq<set<nat>>, firstPass: bool, i: int, changed: bool, grown: int)
    requires LifeTablesOk(t, depths) && |ch| == |t.chain| == |vol| && i < 0
    requires PassInv(c, vol, ch, t, depths, max, s0, s, sc, firstPass, i, changed, grown)
    ensures PassDone(c, vol, ch, t, depths, max, s0, s, sc, firstPass, changed)
  {
  }

  /** After a pass the invariant holds for the next pass, whose blocks all
      count as visited once. */
  lemma NextPassInv(c: Ctx, vol: seq<bool>, ch: seq<Insn>, t: FlowTables, depths: seq<int>, max: nat,
                    s: Flow, sc: seq<set<nat>>, firstPass: bool)
    requires LifeTablesOk(t, depths) && |ch| == |t.chain| == |vol|
    requires Inv(c, vol, ch, t, depths, max, s, sc, firstPass, -1)
    ensures Inv(c, vol, ch, t, depths, max, s, sc, false, Blocks(t) - 1)
    ensures forall j | 0 <= j < Blocks(t) :: Below(s.atEnd[j], max)
  {
    forall j | 0 <= j < Blocks(t) ensures Below(s.atEnd[j], max) {
      assert s.atEnd[j] <= s.newAtEnd[j];
    }
  }

  /** One visit of block i, scanning the block in place when it must be
      rescanned (which leaves the chain as it was). */
  method VisitBlock(c: Ctx, vol: seq<bool>, chain: array<Insn>, t: FlowTables, depths: seq<int>, firstPass: bool,
                    s: Flow, i: nat) returns (r: Result<(Flow, bool)>)
    requires LifeTablesOk(t, depths) && chain.Length == |t.chain| == |vol| && SizesOk(s, Blocks(t)) && i < Blocks(t)
    modifies chain
    ensures chain[..] == old(chain[..])
    ensures r == Visit(c, vol, old(chain[..]), t, depths, firstPass, s, i)
  {
    var d := s.newAtEnd[i] - s.atEnd[i];
    if !Consider(s, firstPass, i) {
      return Ok((s, false));
    }
    var s1: Flow;
    if !Rescan(s, firstPass, i) {
      s1 := s.(atStart := s.atStart[i := s.atStart[i] + d], atEnd := s.atEnd[i := s.atEnd[i] + d]);
    } else {
      var st := PropagateBlock(c, vol, chain, t.heads[i], t.ends[i], false, firstPass, s.newAtEnd[i], s.significant[i], depths[i], {});
      if st.Abort? {
        return Abort;
      }
      s1 := s.(atStart := s.atStart[i := st.value.live], atEnd := s.atEnd[i := s.newAtEnd[i]],
               significant := if firstPass then s.significant[i := st.value.sig] else s.significant);
    }
    r := Ok((s1.(newAtEnd := AddLive(s1.newAtEnd, Preds(t, i), s1.atStart[i])), true));
  }

  /** One pass of the relaxation: the blocks visited in descending order.
      It keeps the invariant, only lets live_at_end grow, reports a change
      exactly when some block was considered, and outside the first pass a
      change makes some live_at_end strictly larger. */
  method RelaxPass(c: Ctx, vol: seq<bool>, chain: array<Insn>, t: FlowTables, depths: seq<int>, ghost max: nat,
                   s0: Flow, ghost sc0: seq<set<nat>>, firstPass: bool)
    returns (r: Result<(Flow, bool)>, ghost sc: seq<set<nat>>)
    requires LifeTablesOk(t, depths) && chain.Length == |t.chain| == |vol|
    requires TargetOk(c.t, max) && ChainBelow(chain[..], max)
    requires Inv(c, vol, chain[..], t, depths, max, s0, sc0, firstPass, Blocks(t) - 1)
    modifies chain
    ensures chain[..] == old(chain[..])
    ensures r.Ok? ==> PassDone(c, vol, chain[..], t, depths, max, s0, r.value.0, sc, firstPass, r.value.1)
  {
    ghost var ch := chain[..];
    var s := s0;
    sc := sc0;
    var changed := false;
    ghost var grown := 0;
    var i: int := Blocks(t) as int - 1;
    while i >= 0
      invariant chain[..] == ch
      invariant PassInv(c, vol, ch, t, depths, max, s0, s, sc, firstPass, i, changed, grown)
      decreases i
    {
      var ok;
      ok, i, s, changed, sc, grown := PassVisit(c, vol, chain, ch, t, depths, max, s0, s, sc, firstPass, i, changed, grown);
      if !ok {
        return Abort, sc;
      }
    }
    PassEnd(c, vol, ch, t, depths, max, s0, s, sc, firstPass, i, changed, grown);
    r := Ok((s, changed));
  }

  /** The visit of block i inside a pass, with the pass's bookkeeping:
      whether a change was seen, and (in the proof) the block whose
      live_at_end grew. */
  method PassVisit(c: Ctx, vol: seq<bool>, chain: array<Insn>, ghost ch: seq<Insn>, t: FlowTables, depths: seq<int>,
                   ghost max: nat, s0: Flow, s: Flow, ghost sc: seq<set<nat>>, firstPass: bool, i: nat, changed: bool,
                   ghost grown: int)
    returns (ok: bool, i2: int, s2: Flow, changed2: bool, ghost sc2: seq<set<nat>>, ghost grown2: int)
    requires LifeTablesOk(t, depths) && chain.Length == |t.chain| == |vol| && chain[..] == ch
    requires TargetOk(c.t, max) && ChainBelow(ch, max)
    requires PassInv(c, vol, ch, t, depths, max, s0, s, sc, firstPass, i, changed, grown)
    modifies chain
    ensures chain[..] == ch
    ensures i2 == i - 1
    ensures ok ==> PassInv(c, vol, ch, t, depths, max, s0, s2, sc2, firstPass, i2, changed2, grown2)
  {
    i2 := i - 1;
    var v := VisitBlock(c, vol, chain, t, depths, firstPass, s, i);
    sc2, grown2 := sc, grown;
    if v.Abort? {
      return false, i2, s, changed, sc2, grown2;
    }
    PassStep(c, vol, ch, t, depths, max, s0, s, sc, firstPass, i, changed, grown);
    var considered := v.value.1;
    if considered && !firstPass && !changed {
      grown2 := i;
    }
    sc2 := NextScanned(s, sc, firstPass, i);
    ok, s2, changed2 := true, v.value.0, changed || considered;
  }

  /** A pass seen from the relaxation: the invariant for the next pass, a
      deficit that does not rise and that falls outside the first pass
      when something changed, and, when nothing changed, no block left to
      consider. */
  lemma RoundStep(c: Ctx, vol: seq<bool>, ch: seq<Insn>, t: FlowTables, depths: seq<int>, max: nat,
                  s: Flow, s2: Flow, sc2: seq<set<nat>>, firstPass: bool, changed: bool)
    requires LifeTablesOk(t, depths) && |ch| == |t.chain| == |vol|
    requires PassDone(c, vol, ch, t, depths, max, s, s2, sc2, firstPass, changed)
    ensures Inv(c, vol, ch, t, depths, max, s2, sc2, false, Blocks(t) - 1)
    ensures Deficit(s2.atEnd, Range(0, max)) <= Deficit(s.atEnd, Range(0, max))
    ensures changed && !firstPass ==> Deficit(s2.atEnd, Range(0, max)) < Deficit(s.atEnd, Range(0, max))
    ensures !changed ==> forall j | 0 <= j < Blocks(t) :: !Consider(s2, false, j)
  {
    NextPassInv(c, vol, ch, t, depths, max, s2, sc2, firstPass);
    var u := Range(0, max);
    forall k | 0 <= k < Blocks(t) ensures s.atEnd[k] <= s2.atEnd[k] <= u {
      BelowRange(s2.atEnd[k], max);
    }
    if changed && !firstPass {
      var j :| 0 <= j < Blocks(t) && s2.atEnd[j] != s.atEnd[j];
      DeficitShrinks(s.atEnd, s2.atEnd, u, j);
    } else {
      DeficitShrinks(s.atEnd, s2.atEnd, u, -1);
    }
    if !changed {
      forall j | 0 <= j < Blocks(t) ensures !Consider(s2, false, j) {
        assert !Consider(s, firstPass, j);
      }
    }
  }

  /** A pass that considers no block ends the relaxation at its fixed point. */
  lemma FixedPoint(c: Ctx, vol: seq<bool>, ch: seq<Insn>, t: FlowTables, depths: seq<int>, max: nat,
                   s: Flow, sc: seq<set<nat>>)
    requires LifeTablesOk(t, depths) && |ch| == |t.chain| == |vol|
    requires Inv(c, vol, ch, t, depths, max, s, sc, false, Blocks(t) as int - 1)
    requires forall j | 0 <= j < Blocks(t) :: !Consider(s, false, j)
    ensures Solved(c, vol, ch, t, depths, max, s, sc)
  {
    forall j | 0 <= j < Blocks(t) ensures s.newAtEnd[j] == s.atEnd[j] {
      assert !Consider(s, false, j);
      assert s.atEnd[j] <= s.newAtEnd[j];
      NoDifferenceEqual(s.atEnd[j], s.newAtEnd[j]);
    }
    assert forall j | 0 <= j < Blocks(t) :: Done(false, -1, j) == Done(false, Blocks(t) as int - 1, j);
  }

  lemma NoDifferenceEqual(x: set<nat>, y: set<nat>)
    requires x <= y && y - x == {}
    ensures x == y
  {
    forall q | q in y ensures q in x {
      assert q !in y - x;
    }
  }

  /** The relaxation: passes over the blocks until one considers none.
      At the end the regsets are the fixed point. */
  method Relax(c: Ctx, vol: seq<bool>, chain: array<Insn>, t: FlowTables, depths: seq<int>, ghost max: nat)
    returns (r: Result<Flow>, ghost sc: seq<set<nat>>)
    requires LifeTablesOk(t, depths) && chain.Length == |t.chain| == |vol|
    requires TargetOk(c.t, max) && ChainBelow(chain[..], max)
    modifies chain
    ensures chain[..] == old(chain[..])
    ensures r.Ok? ==> Solved(c, vol, chain[..], t, depths, max, r.value, sc)
  {
    var s := InitialFlow(c, Blocks(t));
    sc := seq(Blocks(t), j => {});
    InitialInv(c, vol, chain[..], t, depths, max);
    var firstPass := true;
    var changed := true;
    while changed
      invariant chain[..] == old(chain[..])
      invariant Inv(c, vol, chain[..], t, depths, max, s, sc, firstPass, Blocks(t) as int - 1)
      invariant firstPass ==> changed
      invariant !changed ==> forall j | 0 <= j < Blocks(t) :: !Consider(s, false, j)
      decreases firstPass, Deficit(s.atEnd, Range(0, max)), changed
    {
      var p;
      p, sc := RelaxPass(c, vol, chain, t, depths, max, s, sc, firstPass);
      if p.Abort? {
        return Abort, sc;
      }
      RoundStep(c, vol, chain[..], t, depths, max, s, p.value.0, sc, firstPass, p.value.1);
      s, changed, firstPass := p.value.0, p.value.1, false;
    }
    FixedPoint(c, vol, chain[..], t, depths, max, s, sc);
    r := Ok(s);
  }

  // ------------------------------------------------------------------
  // The final pass

  /** The final pass from block i on: each block scanned once more, from
      its live_at_end, with dead stores deleted; regs_live_at_setjmp is
      carried from block to block. */
  function FinalFrom(c: Ctx, vol: seq<bool>, ch: seq<Insn>, t: FlowTables, depths: seq<int>, atEnd: seq<set<nat>>,
                     i: nat, atSetjmp: set<nat>): (r: Result<(seq<Insn>, set<nat>)>)
    requires LifeTablesOk(t, depths) && |ch| == |t.chain| == |vol| && |atEnd| == Blocks(t) && i <= Blocks(t)
    ensures r.Ok? ==> |r.value.0| == |ch|
    decreases Blocks(t) - i
  {
    if i == Blocks(t) then Ok((ch, atSetjmp))
    else
      match Propagate.Propagate(c, vol, ch, t.heads[i], t.ends[i], true, false, atEnd[i], {}, depths[i], atSetjmp)
      case Abort => Abort
      case Ok((ch2, st)) => FinalFrom(c, vol, ch2, t, depths, atEnd, i + 1, st.atSetjmp)
  }

  method FinalPass(c: Ctx, vol: seq<bool>, chain: array<Insn>, t: FlowTables, depths: seq<int>, atEnd: seq<set<nat>>)
    returns (r: Result<set<nat>>)
    requires LifeTablesOk(t, depths) && chain.Length == |t.chain| == |vol| && |atEnd| == Blocks(t)
    modifies chain
    ensures var f := FinalFrom(c, vol, old(chain[..]), t, depths, atEnd, 0, {});
      (r.Ok? <==> f.Ok?) && (r.Ok? ==> chain[..] == f.value.0 && r.value == f.value.1)
  {
    var atSetjmp: set<nat> := {};
    for i := 0 to Blocks(t)
      invariant FinalFrom(c, vol, old(chain[..]), t, depths, atEnd, 0, {}) == FinalFrom(c, vol, chain[..], t, depths, atEnd, i, atSetjmp)
    {
      var st := PropagateBlock(c, vol, chain, t.heads[i], t.ends[i], true, false, atEnd[i], {}, depths[i], atSetjmp);
      if st.Abort? {
        return Abort;
      }
      atSetjmp := st.value.atSetjmp;
    }
    r := Ok(atSetjmp);
  }

  /** `b` is `a` with some instructions turned into deleted notes. */
  predicate OnlyDeletes(a: seq<Insn>, b: seq<Insn>)
  {
    |a| == |b| && forall k | 0 <= k < |a| :: b[k] == a[k] || b[k] == AsDeletedNote(a[k])
  }

  lemma OnlyDeletesTrans(a: seq<Insn>, b: seq<Insn>, d: seq<Insn>)
    requires OnlyDeletes(a, b) && OnlyDeletes(b, d)
    ensures OnlyDeletes(a, d)
  {
    forall k | 0 <= k < |a| ensures d[k] == a[k] || d[k] == AsDeletedNote(a[k]) {
      assert AsDeletedNote(AsDeletedNote(a[k])) == AsDeletedNote(a[k]);
    }
  }

  /** One iteration of the scan changes the chain only by deleting. */
  lemma StepOnlyDeletes(c: Ctx, vol: seq<bool>, ch: seq<Insn>, k: nat, st: ScanState, final: bool, recordSig: bool)
    requires k < |ch| == |vol|
    ensures var r := Step(c, vol, ch, k, st, final, recordSig);
      r.Ok? ==> OnlyDeletes(ch, r.value.chain)
  {
  }

  lemma {:induction false} ScanOnlyDeletes(c: Ctx, vol: seq<bool>, ch: seq<Insn>, first: nat, k: nat, st: ScanState, final: bool, recordSig: bool)
    requires first <= k < |ch| == |vol|
    ensures var r := Scan(c, vol, ch, first, k, st, final, recordSig);
      r.Ok? ==> OnlyDeletes(ch, r.value.0)
    decreases k
  {
    StepOnlyDeletes(c, vol, ch, k, st, final, recordSig);
    match Step(c, vol, ch, k, st, final, recordSig)
    case Abort =>
    case Ok(s) =>
      if s.at > first {
        ScanOnlyDeletes(c, vol, s.chain, first, s.at - 1, s.st, final, recordSig);
        var r := Scan(c, vol, s.chain, first, s.at - 1, s.st, final, recordSig);
        if r.Ok? {
          OnlyDeletesTrans(ch, s.chain, r.value.0);
        }
      }
  }

  /** The final pass only turns instructions into deleted notes: every
      instruction of the chain is either kept as it was or deleted, and
      the chain keeps its length and its UIDs. */
  lemma {:induction false} FinalOnlyDeletes(c: Ctx, vol: seq<bool>, ch: seq<Insn>, t: FlowTables, depths: seq<int>,
                                            atEnd: seq<set<nat>>, i: nat, atSetjmp: set<nat>)
    requires LifeTablesOk(t, depths) && |ch| == |t.chain| == |vol| && |atEnd| == Blocks(t) && i <= Blocks(t)
    ensures var r := FinalFrom(c, vol, ch, t, depths, atEnd, i, atSetjmp);
      r.Ok? ==> OnlyDeletes(ch, r.value.0) && forall k | 0 <= k < |ch| :: r.value.0[k].uid == ch[k].uid
    decreases Blocks(t) - i
  {
    if i < Blocks(t) {
      var p := Propagate.Propagate(c, vol, ch, t.heads[i], t.ends[i], true, false, atEnd[i], {}, depths[i], atSetjmp);
      if p.Ok? {
        var (l, d) := TrailingNotes(ch, t.ends[i], depths[i]);
        ScanOnlyDeletes(c, vol, ch, t.heads[i], l, ScanState(atEnd[i], None, {}, d, atSetjmp), true, false);
        FinalOnlyDeletes(c, vol, p.value.0, t, depths, atEnd, i + 1, p.value.1.atSetjmp);
        var r := FinalFrom(c, vol, p.value.0, t, depths, atEnd, i + 1, p.value.1.atSetjmp);
        if r.Ok? {
          OnlyDeletesTrans(ch, p.value.0, r.value.0);
        }
      }
    } else {
      assert forall k | 0 <= k < |ch| :: ch[k] == ch[k];
    }
  }

  /** life_analysis_1: the pre-pass, the relaxation and the final pass.
      On success the regsets are the fixed point for the chain after the
      pre-pass, and the chain is that chain after the final pass.
      `asWritten` selects the pre-pass's INSN_VOLATILE test: the source as
      written, or the intended one that keeps stack allocations. */
  method LifeAnalysis(c: Ctx, asWritten: bool, chain: array<Insn>, t: FlowTables, depths: seq<int>, ghost max: nat)
    returns (r: Result<Flow>, ghost vol: seq<bool>, ghost sc: seq<set<nat>>)
    requires LifeTablesOk(t, depths) && chain.Length == |t.chain|
    requires TargetOk(c.t, max) && ChainBelow(chain[..], max)
    modifies chain
    ensures vol == Vols(c.t, asWritten, old(chain[..]))
    ensures r.Ok? ==> Solved(c, vol, PrePass(old(chain[..])), t, depths, max, r.value, sc)
    ensures r.Ok? ==>
      FinalFrom(c, vol, PrePass(old(chain[..])), t, depths, r.value.atEnd, 0, {}).Ok? &&
      chain[..] == FinalFrom(c, vol, PrePass(old(chain[..])), t, depths, r.value.atEnd, 0, {}).value.0
  {
    var v := MarkVolatile(c.t, asWritten, chain);
    vol := v;
    assert chain[..] == PrePass(old(chain[..]));
    PrePassBelow(old(chain[..]), max);
    var s;
    s, sc := Relax(c, v, chain, t, depths, max);
    if s.Abort? {
      return Abort, vol, sc;
    }
    var f := FinalPass(c, v, chain, t, depths, s.value.atEnd);
    if f.Abort? {
      return Abort, vol, sc;
    }
    r := Ok(s.value);
  }
}
