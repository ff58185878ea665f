/** propagate_block: the backward scan of one basic block that turns the
    registers live at its end into those live at its start, records the
    registers the block sets, and on the final pass turns dead stores
    (and whole dead libcalls) into deleted notes. The chain is an array in
    NEXT_INSN order; PREV_INSN of position k is k - 1. */
module Propagate {
  import opened Rtl
  import opened Machine
  import opened Insns
  import opened RegUse

  /** What the scan consults besides the chain: the target, the
      EXIT_IGNORE_STACK condition under which a RETURN needs the stack
      pointer, and INSN_DELETED_P. */
  datatype Ctx = Ctx(t: Target, exitSp: bool, deletedP: Insn -> bool)

  /** The scan's variables: OLD (the live registers), last_mem_set, the
      block's SIGNIFICANT regset, loop_depth and regs_live_at_setjmp. */
  datatype ScanState = ScanState(live: set<nat>, lastMem: Option<Rtx>, sig: set<nat>, depth: int, atSetjmp: set<nat>)

  /** The first REG_RETVAL note of an instruction (find_reg_note). */
  function RetvalOf(notes: seq<RegNote>): (r: Option<nat>)
    ensures r.Some? ==> RegRetval(r.value) in notes
    ensures r.None? ==> forall k | 0 <= k < |notes| :: !notes[k].RegRetval?
  {
    if notes == [] then None
    else if notes[0].RegRetval? then Some(notes[0].first)
    else
      assert forall k | 1 <= k < |notes| :: notes[k] == notes[1..][k - 1];
      RetvalOf(notes[1..])
  }

  /** The pattern of the first CALL_INSN of a run (the walk in libcall_dead_p
      from the libcall's first instruction up to its last). */
  function FirstCall(run: seq<Insn>): (r: Option<Rtx>)
    ensures r.Some? ==> exists k | 0 <= k < |run| :: run[k].code == CallInsn && run[k].pattern == r.value
    ensures r.None? ==> forall k | 0 <= k < |run| :: run[k].code != CallInsn
  {
    if run == [] then None
    else if run[0].code == CallInsn then Some(run[0].pattern)
    else
      var r := FirstCall(run[1..]);
      assert forall k | 1 <= k < |run| :: run[k] == run[1..][k - 1];
      assert r.Some? ==> exists k | 0 <= k < |run[1..]| :: run[1..][k].code == CallInsn && run[1..][k].pattern == r.value;
      r
  }

  /** An insn popping a constant amount off the stack, (set sp (plus sp c)):
      it has no effect on life. */
  predicate StackPop(t: Target, p: Rtx)
  {
    p.Set? && p.dest.Reg? && p.dest.regno == t.sp &&
    p.src.Plus? && p.src.op0.Reg? && p.src.op0.regno == t.sp && p.src.op1.ConstInt?
  }

  /** The call-used hard registers that are neither global nor fixed: a
      CALL kills them. */
  function CallKilled(t: Target): (r: set<nat>)
    ensures forall q :: q in r <==> q < t.firstPseudo && q in t.callUsed && q !in t.globalRegs && q !in t.fixedRegs
  {
    (t.callUsed - t.globalRegs - t.fixedRegs) * HardRegs(t)
  }

  /** The global hard registers: every CALL may read them. */
  function GlobalHard(t: Target): (r: set<nat>)
    ensures forall q :: q in r <==> IsGlobalHard(t, q)
  {
    t.globalRegs * HardRegs(t)
  }

  /** mark_used_regs on the operand of each USE in CALL_INSN_FUNCTION_USAGE. */
  function UsageUses(t: Target, exitSp: bool, us: seq<Rtx>): Uses
  {
    if us == [] then NoUses
    else Join(if us[0].Use? then Used(t, exitSp, us[0].x) else NoUses, UsageUses(t, exitSp, us[1..]))
  }

  /** What scanning one instruction does to the live set: the registers it
      kills, the registers it makes live, and last_mem_set afterwards. A
      dead instruction makes nothing live; a live CALL also kills the
      call-clobbered registers and makes the stack pointer, the global
      registers and its USEs live, and forgets the last store. */
  datatype Effect = Effect(kill: set<nat>, gen: set<nat>, lastMem: Option<Rtx>)

  function InsnEffect(c: Ctx, x: Insn, isDead: bool, lm: Option<Rtx>): Effect
  {
    var p := x.pattern;
    var lm1 := LastMemAfterSets(c.t, p, lm);
    if isDead then Effect(SetRegs(c.t, p), {}, lm1)
    else
      var u := Used(c.t, c.exitSp, p);
      if x.code == CallInsn then
        var cu := UsageUses(c.t, c.exitSp, x.callUsage);
        Effect(SetRegs(c.t, p) + CallKilled(c.t), u.regs + cu.regs + {c.t.sp} + GlobalHard(c.t), None)
      else Effect(SetRegs(c.t, p), u.regs, if u.memRead then None else lm1)
  }

  /** The state after scanning an instruction: OLD = (OLD - DEAD) | LIVE,
      and the registers it sets become significant when they are recorded. */
  function Apply(c: Ctx, x: Insn, isDead: bool, st: ScanState, recordSig: bool): ScanState
  {
    var e := InsnEffect(c, x, isDead, st.lastMem);
    st.(live := (st.live - e.kill) + e.gen, lastMem := e.lastMem,
        sig := if recordSig then st.sig + SetRegs(c.t, x.pattern) else st.sig)
  }

  /** The chain with positions lo .. hi-1 turned into deleted notes. */
  function DeleteRange(s: seq<Insn>, lo: nat, hi: nat): (r: seq<Insn>)
    ensures |r| == |s|
  {
    seq(|s|, i requires 0 <= i < |s| => if lo <= i < hi then AsDeletedNote(s[i]) else s[i])
  }

  /** The first position from `j` on, up to `k`, whose instruction is not
      INSN_DELETED_P; None when the walk would run past `k`. */
  function SkipDeleted(c: Ctx, chain: seq<Insn>, j: nat, k: nat): (r: Option<nat>)
    requires k < |chain|
    ensures r.Some? ==> j <= r.value <= k && !c.deletedP(chain[r.value])
    decreases k + 1 - j
  {
    if j > k then None
    else if !c.deletedP(chain[j]) then Some(j)
    else SkipDeleted(c, chain, j + 1, k)
  }

  /** The loop-depth change of a note met while scanning backwards. */
  function BackDepth(n: NoteKind): int
  {
    if n == NoteLoopEnd then 1 else if n == NoteLoopBeg then -1 else 0
  }

  /** The outcome of one iteration of the scan: the chain afterwards
      (changed only on the final pass), the new state, and the position
      INSN names afterwards (the instruction itself, or the first
      instruction of a dead libcall that is skipped). */
  datatype Stepped = Stepped(chain: seq<Insn>, st: ScanState, at: nat)

  /** One iteration of the scan at position k. A NOTE adjusts loop_depth
      (a depth of zero aborts); a real instruction is processed by
      RealStep; labels and barriers change nothing. */
  function Step(c: Ctx, vol: seq<bool>, chain: seq<Insn>, k: nat, st: ScanState, final: bool, recordSig: bool): (r: Result<Stepped>)
    requires k < |chain| == |vol|
    ensures r.Ok? ==> r.value.at <= k && |r.value.chain| == |chain|
    ensures r.Ok? && !final ==> r.value.chain == chain
  {
    var x := chain[k];
    if x.code == NoteInsn then
      var d := st.depth + BackDepth(x.note);
      if d == 0 then Abort
      else
        var sj := if final && x.note == NoteSetjmp then st.atSetjmp + st.live else st.atSetjmp;
        Ok(Stepped(chain, st.(depth := d, atSetjmp := sj), k))
    else if IsReal(x.code) then RealStep(c, vol, chain, k, st, final, recordSig)
    else Ok(Stepped(chain, st, k))
  }

  /** A real instruction: it is dead when its pattern is only dead stores
      and it is not INSN_VOLATILE; a dead one carrying REG_RETVAL may take
      its whole libcall with it. On the final pass a dead instruction (and
      a dead libcall) becomes deleted notes and changes nothing else;
      otherwise a dead libcall only records its destination as
      significant and is skipped, a stack pop has no effect, and any other
      instruction updates the state by Apply. A REG_RETVAL naming an
      instruction that is not earlier on the chain aborts. */
  function RealStep(c: Ctx, vol: seq<bool>, chain: seq<Insn>, k: nat, st: ScanState, final: bool, recordSig: bool): (r: Result<Stepped>)
    requires k < |chain| == |vol|
    ensures r.Ok? ==> r.value.at <= k && |r.value.chain| == |chain|
    ensures r.Ok? && !final ==> r.value.chain == chain
  {
    var x := chain[k];
    var isDead := InsnDead(c.t, x.pattern, st.live, false, st.lastMem) && !vol[k];
    var note := RetvalOf(x.regNotes);
    var first := if isDead && note.Some? then FindUid(chain[..k + 1], note.value) else None;
    if isDead && note.Some? && first.None? then Abort
    else
      var libDead := isDead && note.Some? && LibcallDead(c.t, x.pattern, st.live, FirstCall(chain[first.value..k]), st.lastMem);
      if final && isDead then
        if libDead then
          match SkipDeleted(c, chain, first.value, k)
          case None => Abort
          case Some(g) => Ok(Stepped(DeleteRange(chain, g, k + 1), st, k))
        else Ok(Stepped(chain[k := AsDeletedNote(x)], st, k))
      else if libDead then
        var sig := if recordSig then st.sig + SetRegs(c.t, x.pattern) else st.sig;
        Ok(Stepped(chain, st.(sig := sig, lastMem := LastMemAfterSets(c.t, x.pattern, st.lastMem)), first.value))
      else if StackPop(c.t, x.pattern) then Ok(Stepped(chain, st, k))
      else Ok(Stepped(chain, Apply(c, x, isDead, st, recordSig), k))
  }

  /** The scan from position k down to `first`. */
  function Scan(c: Ctx, vol: seq<bool>, chain: seq<Insn>, first: nat, k: nat, st: ScanState, final: bool, recordSig: bool)
    : (r: Result<(seq<Insn>, ScanState)>)
    requires first <= k < |chain| == |vol|
    ensures r.Ok? ==> |r.value.0| == |chain|
    ensures r.Ok? && !final ==> r.value.0 == chain
    decreases k
  {
    match Step(c, vol, chain, k, st, final, recordSig)
    case Abort => Abort
    case Ok(s) =>
      if s.at == first then Ok((s.chain, s.st))
      else if s.at < first then Abort
      else Scan(c, vol, s.chain, first, s.at - 1, s.st, final, recordSig)
  }

  /** The notes after the block's last instruction that the scan takes in,
      with the loop depth adjusted going forwards. */
  function TrailingNotes(chain: seq<Insn>, last: nat, depth: int): (r: (nat, int))
    requires last < |chain|
    ensures last <= r.0 < |chain|
    decreases |chain| - last
  {
    if last + 1 < |chain| && chain[last + 1].code == NoteInsn then
      TrailingNotes(chain, last + 1, depth - BackDepth(chain[last + 1].note))
    else (last, depth)
  }

  /** propagate_block on the block first .. last, with `live` the registers
      live at its end, `sig` its significant set so far, `depth` its loop
      depth, `atSetjmp` regs_live_at_setjmp so far, and `vol` the
      INSN_VOLATILE flags of the chain. */
  function Propagate(c: Ctx, vol: seq<bool>, chain: seq<Insn>, first: nat, last: nat, final: bool, recordSig: bool,
                     live: set<nat>, sig: set<nat>, depth: int, atSetjmp: set<nat>): (r: Result<(seq<Insn>, ScanState)>)
    requires first <= last < |chain| == |vol|
    ensures r.Ok? ==> |r.value.0| == |chain|
    ensures r.Ok? && !final ==> r.value.0 == chain
  {
    var (l, d) := TrailingNotes(chain, last, depth);
    Scan(c, vol, chain, first, l, ScanState(live, None, sig, d, atSetjmp), final, recordSig)
  }

  // ------------------------------------------------------------------
  // The scan in place

  method PropagateBlock(c: Ctx, vol: seq<bool>, chain: array<Insn>, first: nat, last: nat, final: bool, recordSig: bool,
                        live: set<nat>, sig: set<nat>, depth: int, atSetjmp: set<nat>) returns (r: Result<ScanState>)
    requires first <= last < chain.Length == |vol|
    modifies chain
    ensures var s := Propagate(c, vol, old(chain[..]), first, last, final, recordSig, live, sig, depth, atSetjmp);
      (r.Ok? <==> s.Ok?) && (r.Ok? ==> r.value == s.value.1 && chain[..] == s.value.0)
    ensures !final ==> chain[..] == old(chain[..])
  {
    hide Step;
    ghost var c0 := chain[..];
    var l, d := last, depth;
    while l + 1 < chain.Length && chain[l + 1].code == NoteInsn
      invariant last <= l < chain.Length
      invariant TrailingNotes(c0, last, depth) == TrailingNotes(c0, l, d)
      decreases chain.Length - l
    {
      l := l + 1;
      d := d - BackDepth(chain[l].note);
    }
    var st := ScanState(live, None, sig, d, atSetjmp);
    var k := l;
    while true
      invariant first <= k < chain.Length
      invariant Propagate(c, vol, c0, first, last, final, recordSig, live, sig, depth, atSetjmp)
        == Scan(c, vol, chain[..], first, k, st, final, recordSig)
      invariant !final ==> chain[..] == c0
      decreases k
    {
      var s := StepAt(c, vol, chain, k, st, final, recordSig);
      if s.Abort? {
        return Abort;
      }
      var at;
      st, at := s.value.0, s.value.1;
      if at == first {
        return Ok(st);
      }
      if at < first {
        return Abort;
      }
      k := at - 1;
    }
  }

  /** One iteration of the scan, writing the deleted notes in place. */
  method StepAt(c: Ctx, vol: seq<bool>, chain: array<Insn>, k: nat, st: ScanState, final: bool, recordSig: bool)
    returns (r: Result<(ScanState, nat)>)
    requires k < chain.Length == |vol|
    modifies chain
    ensures var s := Step(c, vol, old(chain[..]), k, st, final, recordSig);
      (r.Ok? <==> s.Ok?) && (r.Ok? ==> r.value == (s.value.st, s.value.at) && chain[..] == s.value.chain)
    ensures !final ==> chain[..] == old(chain[..])
  {
    var x := chain[k];
    if x.code == NoteInsn {
      var d := st.depth + BackDepth(x.note);
      if d == 0 {
        return Abort;
      }
      var sj := if final && x.note == NoteSetjmp then st.atSetjmp + st.live else st.atSetjmp;
      return Ok((st.(depth := d, atSetjmp := sj), k));
    }
    if !IsReal(x.code) {
      return Ok((st, k));
    }
    r := RealStepAt(c, vol, chain, k, st, final, recordSig);
  }

  method RealStepAt(c: Ctx, vol: seq<bool>, chain: array<Insn>, k: nat, st: ScanState, final: bool, recordSig: bool)
    returns (r: Result<(ScanState, nat)>)
    requires k < chain.Length == |vol|
    modifies chain
    ensures var s := RealStep(c, vol, old(chain[..]), k, st, final, recordSig);
      (r.Ok? <==> s.Ok?) && (r.Ok? ==> r.value == (s.value.st, s.value.at) && chain[..] == s.value.chain)
    ensures !final ==> chain[..] == old(chain[..])
  {
    ghost var c0 := chain[..];
    var x := chain[k];
    var isDead := InsnDead(c.t, x.pattern, st.live, false, st.lastMem) && !vol[k];
    var note := RetvalOf(x.regNotes);
    var libDead := false;
    var first: nat := 0;
    if isDead && note.Some? {
      var f := FindUid(chain[..k + 1], note.value);
      if f.None? {
        return Abort;
      }
      first := f.value;
      libDead := LibcallDead(c.t, x.pattern, st.live, FirstCall(chain[first..k]), st.lastMem);
    }
    if final && isDead {
      if libDead {
        var g := first;
        while g <= k && c.deletedP(chain[g])
          invariant first <= g <= k + 1
          invariant SkipDeleted(c, c0, first, k) == SkipDeleted(c, c0, g, k)
          decreases k + 1 - g
        {
          g := g + 1;
        }
        if g > k {
          return Abort;
        }
        DeleteRun(chain, g, k);
      } else {
        chain[k] := AsDeletedNote(x);
      }
      return Ok((st, k));
    }
    if libDead {
      var sig := if recordSig then st.sig + SetRegs(c.t, x.pattern) else st.sig;
      return Ok((st.(sig := sig, lastMem := LastMemAfterSets(c.t, x.pattern, st.lastMem)), first));
    }
    if StackPop(c.t, x.pattern) {
      return Ok((st, k));
    }
    return Ok((Apply(c, x, isDead, st, recordSig), k));
  }

  /** Turn positions lo .. hi into deleted notes, hi first and then walking
      back, as the final pass deletes a dead libcall. */
  method DeleteRun(chain: array<Insn>, lo: nat, hi: nat)
    requires lo <= hi < chain.Length
    modifies chain
    ensures chain[..] == DeleteRange(old(chain[..]), lo, hi + 1)
  {
    chain[hi] := AsDeletedNote(chain[hi]);
    var p := hi;
    while p != lo
      invariant lo <= p <= hi
      invariant chain[..] == DeleteRange(old(chain[..]), p, hi + 1)
      decreases p
    {
      p := p - 1;
      chain[p] := AsDeletedNote(chain[p]);
    }
  }

  // ------------------------------------------------------------------
  // What one iteration does

  /** The instruction at k is dead in the state `st`. */
  predicate DeadAt(c: Ctx, vol: seq<bool>, chain: seq<Insn>, k: nat, st: ScanState)
    requires k < |chain| == |vol|
  {
    InsnDead(c.t, chain[k].pattern, st.live, false, st.lastMem) && !vol[k]
  }

  /** Across an instruction that is scanned (not deleted, not a dead
      libcall, not a stack pop), a register is live before it iff it is
      live after it and neither set by it nor killed by a live CALL, or
      it is used by the live instruction, or it is the stack pointer, a
      global register or a USE of a live CALL. */
  lemma LiveBeforeInsn(c: Ctx, vol: seq<bool>, chain: seq<Insn>, k: nat, st: ScanState, final: bool, recordSig: bool)
    requires k < |chain| == |vol| && IsReal(chain[k].code)
    requires !DeadAt(c, vol, chain, k, st) || (!final && RetvalOf(chain[k].regNotes).None?)
    requires !StackPop(c.t, chain[k].pattern)
    ensures var x := chain[k];
      var isDead := DeadAt(c, vol, chain, k, st);
      var call := !isDead && x.code == CallInsn;
      var r := Step(c, vol, chain, k, st, final, recordSig);
      r.Ok? && r.value.at == k && r.value.chain == chain &&
      forall q :: q in r.value.st.live <==>
        (q in st.live && q !in SetRegs(c.t, x.pattern) && !(call && q in CallKilled(c.t))) ||
        (!isDead && q in Used(c.t, c.exitSp, x.pattern).regs) ||
        (call && (q == c.t.sp || IsGlobalHard(c.t, q) || q in UsageUses(c.t, c.exitSp, x.callUsage).regs))
  {
  }

  /** Before a live CALL the stack pointer and every global register are
      live, and a call-clobbered register that the call does not read is
      not. */
  lemma LiveBeforeCall(c: Ctx, vol: seq<bool>, chain: seq<Insn>, k: nat, st: ScanState, final: bool, recordSig: bool, q: nat)
    requires k < |chain| == |vol| && chain[k].code == CallInsn
    requires !DeadAt(c, vol, chain, k, st) && !StackPop(c.t, chain[k].pattern)
    ensures var r := Step(c, vol, chain, k, st, final, recordSig);
      r.Ok? && c.t.sp in r.value.st.live && GlobalHard(c.t) <= r.value.st.live &&
      ((q in CallKilled(c.t) && q != c.t.sp && q !in Used(c.t, c.exitSp, chain[k].pattern).regs &&
        q !in UsageUses(c.t, c.exitSp, chain[k].callUsage).regs) ==> q !in r.value.st.live)
  {
    LiveBeforeInsn(c, vol, chain, k, st, final, recordSig);
  }

  /** A dead instruction outside the final pass kills what it sets and
      makes nothing live. */
  lemma DeadInsnUsesNothing(c: Ctx, vol: seq<bool>, chain: seq<Insn>, k: nat, st: ScanState, recordSig: bool)
    requires k < |chain| == |vol| && IsReal(chain[k].code)
    requires DeadAt(c, vol, chain, k, st) && RetvalOf(chain[k].regNotes).None?
    requires !StackPop(c.t, chain[k].pattern)
    ensures var r := Step(c, vol, chain, k, st, false, recordSig);
      r.Ok? && r.value.st.live == st.live - SetRegs(c.t, chain[k].pattern)
  {
  }

  /** A stack pop that is not deleted changes nothing. */
  lemma StackPopNoEffect(c: Ctx, vol: seq<bool>, chain: seq<Insn>, k: nat, st: ScanState, final: bool, recordSig: bool)
    requires k < |chain| == |vol| && IsReal(chain[k].code) && StackPop(c.t, chain[k].pattern)
    requires !DeadAt(c, vol, chain, k, st)
    ensures Step(c, vol, chain, k, st, final, recordSig) == Ok(Stepped(chain, st, k))
  {
  }

  /** On the final pass a dead instruction without REG_RETVAL becomes a
      deleted note and the state is unchanged. */
  lemma FinalDeletesDead(c: Ctx, vol: seq<bool>, chain: seq<Insn>, k: nat, st: ScanState, recordSig: bool)
    requires k < |chain| == |vol| && IsReal(chain[k].code)
    requires DeadAt(c, vol, chain, k, st) && RetvalOf(chain[k].regNotes).None?
    ensures var r := Step(c, vol, chain, k, st, true, recordSig);
      r.Ok? && r.value.st == st && r.value.chain == chain[k := AsDeletedNote(chain[k])] &&
      r.value.chain[k].code == NoteInsn && r.value.chain[k].note == NoteDeleted
  {
  }

  /** On the final pass a dead libcall, from its first instruction that is
      not INSN_DELETED_P through its last, becomes deleted notes. */
  lemma FinalDeletesLibcall(c: Ctx, vol: seq<bool>, chain: seq<Insn>, k: nat, st: ScanState, recordSig: bool, f: nat, g: nat)
    requires k < |chain| == |vol| && IsReal(chain[k].code)
    requires DeadAt(c, vol, chain, k, st)
    requires RetvalOf(chain[k].regNotes).Some? && FindUid(chain[..k + 1], RetvalOf(chain[k].regNotes).value) == Some(f)
    requires LibcallDead(c.t, chain[k].pattern, st.live, FirstCall(chain[f..k]), st.lastMem)
    requires SkipDeleted(c, chain, f, k) == Some(g)
    ensures var r := Step(c, vol, chain, k, st, true, recordSig);
      r.Ok? && r.value.st == st &&
      forall i | 0 <= i < |chain| :: r.value.chain[i] == if g <= i <= k then AsDeletedNote(chain[i]) else chain[i]
  {
  }

  /** Outside the final pass a dead libcall is skipped: the scan resumes
      before its first instruction and nothing becomes live, so the
      call's arguments are not marked live. */
  lemma DeadLibcallSkipped(c: Ctx, vol: seq<bool>, chain: seq<Insn>, k: nat, st: ScanState, recordSig: bool, f: nat)
    requires k < |chain| == |vol| && IsReal(chain[k].code)
    requires DeadAt(c, vol, chain, k, st)
    requires RetvalOf(chain[k].regNotes).Some? && FindUid(chain[..k + 1], RetvalOf(chain[k].regNotes).value) == Some(f)
    requires LibcallDead(c.t, chain[k].pattern, st.live, FirstCall(chain[f..k]), st.lastMem)
    ensures var r := Step(c, vol, chain, k, st, false, recordSig);
      r.Ok? && r.value.at == f && r.value.st.live == st.live &&
      (recordSig ==> r.value.st.sig == st.sig + SetRegs(c.t, chain[k].pattern))
  {
  }

  // ------------------------------------------------------------------
  // Bounds, for the termination of the fixed point

  /** Every register an instruction mentions is below `max`. */
  predicate InsnBelow(x: Insn, max: nat)
  {
    Below(RegsIn(x.pattern), max) && forall e | e in x.callUsage :: Below(RegsIn(e), max)
  }

  predicate ChainBelow(chain: seq<Insn>, max: nat)
  {
    forall k | 0 <= k < |chain| :: InsnBelow(chain[k], max)
  }

  lemma {:induction false} UsageBelow(t: Target, exitSp: bool, us: seq<Rtx>, max: nat)
    requires TargetOk(t, max) && forall e | e in us :: Below(RegsIn(e), max)
    ensures Below(UsageUses(t, exitSp, us).regs, max)
  {
    if us != [] {
      assert us[0] in us && forall e | e in us[1..] :: e in us;
      if us[0].Use? {
        RegsInElement(us[0], 0);
        UsedBelow(t, exitSp, us[0].x, max);
      }
      UsageBelow(t, exitSp, us[1..], max);
    }
  }

  /** One iteration outside the final pass keeps the live set below `max`. */
  lemma StepBelow(c: Ctx, vol: seq<bool>, chain: seq<Insn>, k: nat, st: ScanState, recordSig: bool, max: nat)
    requires k < |chain| == |vol|
    requires TargetOk(c.t, max) && ChainBelow(chain, max) && Below(st.live, max)
    ensures var r := Step(c, vol, chain, k, st, false, recordSig);
      r.Ok? ==> Below(r.value.st.live, max)
  {
    var x := chain[k];
    assert InsnBelow(x, max);
    UsedBelow(c.t, c.exitSp, x.pattern, max);
    UsageBelow(c.t, c.exitSp, x.callUsage, max);
  }

  /** The scan outside the final pass keeps the live set below `max`. */
  lemma {:induction false} ScanBelow(c: Ctx, vol: seq<bool>, chain: seq<Insn>, first: nat, k: nat, st: ScanState,
                                     recordSig: bool, max: nat)
    requires first <= k < |chain| == |vol|
    requires TargetOk(c.t, max) && ChainBelow(chain, max) && Below(st.live, max)
    ensures var r := Scan(c, vol, chain, first, k, st, false, recordSig);
      r.Ok? ==> Below(r.value.1.live, max)
    decreases k
  {
    hide Step;
    StepBelow(c, vol, chain, k, st, recordSig, max);
    match Step(c, vol, chain, k, st, false, recordSig)
    case Abort =>
    case Ok(s) =>
      if s.at > first {
        assert s.chain == chain;
        ScanBelow(c, vol, chain, first, s.at - 1, s.st, recordSig, max);
        assert Scan(c, vol, chain, first, k, st, false, recordSig) == Scan(c, vol, chain, first, s.at - 1, s.st, false, recordSig);
      }
  }

  /** propagate_block outside the final pass leaves the chain alone and
      keeps the live set below `max`. */
  lemma PropagateBelow(c: Ctx, vol: seq<bool>, chain: seq<Insn>, first: nat, last: nat, recordSig: bool,
                       live: set<nat>, sig: set<nat>, depth: int, atSetjmp: set<nat>, max: nat)
    requires first <= last < |chain| == |vol|
    requires TargetOk(c.t, max) && ChainBelow(chain, max) && Below(live, max)
    ensures var r := Propagate(c, vol, chain, first, last, false, recordSig, live, sig, depth, atSetjmp);
      r.Ok? ==> r.value.0 == chain && Below(r.value.1.live, max)
  {
    var (l, d) := TrailingNotes(chain, last, depth);
    ScanBelow(c, vol, chain, first, l, ScanState(live, None, sig, d, atSetjmp), recordSig, max);
  }

  // ------------------------------------------------------------------
  // The significant set does not steer the scan

  /** Outside the final pass, what the scan does does not depend on the
      significant set it records into, nor on whether it records. */
  lemma StepSig(c: Ctx, vol: seq<bool>, chain: seq<Insn>, k: nat, st1: ScanState, st2: ScanState, rs1: bool, rs2: bool)
    requires k < |chain| == |vol| && st1.(sig := {}) == st2.(sig := {})
    ensures var a := Step(c, vol, chain, k, st1, false, rs1);
      var b := Step(c, vol, chain, k, st2, false, rs2);
      a.Ok? == b.Ok? &&
      (a.Ok? ==> a.value.at == b.value.at && a.value.chain == b.value.chain && a.value.st.(sig := {}) == b.value.st.(sig := {}))
  {
    assert st1.live == st2.live && st1.lastMem == st2.lastMem && st1.depth == st2.depth && st1.atSetjmp == st2.atSetjmp;
  }

  /** One iteration of a scan outside the final pass that does not end it. */
  lemma ScanOn(c: Ctx, vol: seq<bool>, chain: seq<Insn>, first: nat, k: nat, st: ScanState, rs: bool, s: Stepped)
    requires first <= k < |chain| == |vol|
    requires Step(c, vol, chain, k, st, false, rs) == Ok(s) && s.at > first
    ensures s.at - 1 < |chain| && s.chain == chain
    ensures Scan(c, vol, chain, first, k, st, false, rs) == Scan(c, vol, chain, first, s.at - 1, s.st, false, rs)
  {
    hide Step;
  }

  lemma {:induction false} ScanSig(c: Ctx, vol: seq<bool>, chain: seq<Insn>, first: nat, k: nat, st1: ScanState, st2: ScanState,
                                   rs1: bool, rs2: bool)
    requires first <= k < |chain| == |vol| && st1.(sig := {}) == st2.(sig := {})
    ensures var a := Scan(c, vol, chain, first, k, st1, false, rs1);
      var b := Scan(c, vol, chain, first, k, st2, false, rs2);
      a.Ok? == b.Ok? && (a.Ok? ==> a.value.1.(sig := {}) == b.value.1.(sig := {}))
    decreases k
  {
    hide Step;
    StepSig(c, vol, chain, k, st1, st2, rs1, rs2);
    match Step(c, vol, chain, k, st1, false, rs1)
    case Abort =>
    case Ok(a) =>
      var b := Step(c, vol, chain, k, st2, false, rs2).value;
      if a.at > first {
        ScanOn(c, vol, chain, first, k, st1, rs1, a);
        ScanOn(c, vol, chain, first, k, st2, rs2, b);
        ScanSig(c, vol, chain, first, a.at - 1, a.st, b.st, rs1, rs2);
      }
  }

  /** propagate_block outside the final pass computes the same live set
      whatever significant set it is handed and whether it records it. */
  lemma PropagateSig(c: Ctx, vol: seq<bool>, chain: seq<Insn>, first: nat, last: nat, rs1: bool, rs2: bool,
                     live: set<nat>, sig1: set<nat>, sig2: set<nat>, depth: int, atSetjmp: set<nat>)
    requires first <= last < |chain| == |vol|
    ensures var a := Propagate(c, vol, chain, first, last, false, rs1, live, sig1, depth, atSetjmp);
      var b := Propagate(c, vol, chain, first, last, false, rs2, live, sig2, depth, atSetjmp);
      a.Ok? == b.Ok? && (a.Ok? ==> a.value.1.live == b.value.1.live && a.value.1.atSetjmp == b.value.1.atSetjmp)
  {
    var (l, d) := TrailingNotes(chain, last, depth);
    ScanSig(c, vol, chain, first, l, ScanState(live, None, sig1, d, atSetjmp), ScanState(live, None, sig2, d, atSetjmp), rs1, rs2);
  }
}
