/** The registers an instruction pattern sets and uses, as the backward
    liveness scan sees them (mark_set_regs / mark_set_1 and mark_used_regs),
    and the dead-store tests on a pattern (insn_dead_p, libcall_dead_p).
    Only what decides liveness is modelled; the REG_N_* counters, the notes
    and LOG_LINKS that the final pass also records are not. */
module RegUse {
  import opened Rtl
  import opened Machine

  /** SET_DEST of a SET or CLOBBER (XEXP (x, 0) for both). */
  function SetDest(x: Rtx): (r: Rtx)
    requires x.Set? || x.Clobber?
    ensures r < x
  {
    if x.Set? then x.dest else x.x
  }

  /** Every element of the set is below `max`. */
  predicate Below(s: set<nat>, max: nat)
  {
    forall q | q in s :: q < max
  }

  lemma WordsBelow(t: Target, regno: nat, m: Mode, max: nat)
    requires TargetOk(t, max) && regno < max
    ensures Below(Words(t, regno, m), max)
  {
    if regno < t.firstPseudo {
      assert regno + t.nregs(regno, m) <= t.firstPseudo;
    }
  }

  // ------------------------------------------------------------------
  // mark_set_regs, mark_set_1

  /** The registers mark_set_1 puts in DEAD and SIGNIFICANT for one SET or
      CLOBBER: the destination with SUBREG, bit-field extracts and
      STRICT_LOW_PART stripped, when it is a register other than a frame
      pointer, a fixed argument pointer or a global register; a hard
      register other than the stack pointer brings its extra words. */
  function SetOne(t: Target, x: Rtx): (r: set<nat>)
    requires x.Set? || x.Clobber?
    ensures var reg := StripDest(SetDest(x));
      r != {} <==> reg.Reg? && !IsFramePointerLike(t, reg.regno) && !IsGlobalHard(t, reg.regno)
    ensures var reg := StripDest(SetDest(x));
      r != {} ==> reg.regno in r && r <= Words(t, reg.regno, reg.mode)
  {
    var reg := StripDest(SetDest(x));
    if reg.Reg? && !IsFramePointerLike(t, reg.regno) && !IsGlobalHard(t, reg.regno) then
      if reg.regno == t.sp then {reg.regno} else Words(t, reg.regno, reg.mode)
    else {}
  }

  /** mark_set_regs: the registers set by a SET, a CLOBBER, or the SETs and
      CLOBBERs directly inside a PARALLEL. */
  function SetRegs(t: Target, x: Rtx): set<nat>
  {
    if x.Set? || x.Clobber? then SetOne(t, x)
    else if x.Parallel? then SetRegsAll(t, x.elts)
    else {}
  }

  function SetRegsAll(t: Target, es: seq<Rtx>): set<nat>
  {
    if es == [] then {}
    else (if es[0].Set? || es[0].Clobber? then SetOne(t, es[0]) else {}) + SetRegsAll(t, es[1..])
  }

  /** A register is set by a PARALLEL exactly when one of its SET or
      CLOBBER elements sets it. */
  lemma {:induction false} SetRegsParallel(t: Target, es: seq<Rtx>, q: nat)
    ensures q in SetRegs(t, Parallel(es)) <==>
      exists k | 0 <= k < |es| :: (es[k].Set? || es[k].Clobber?) && q in SetOne(t, es[k])
  {
    SetRegsAllMember(t, es, q);
  }

  lemma {:induction false} SetRegsAllMember(t: Target, es: seq<Rtx>, q: nat)
    ensures q in SetRegsAll(t, es) <==>
      exists k | 0 <= k < |es| :: (es[k].Set? || es[k].Clobber?) && q in SetOne(t, es[k])
  {
    if es != [] {
      SetRegsAllMember(t, es[1..], q);
      if q in SetRegsAll(t, es[1..]) {
        var k :| 0 <= k < |es[1..]| && (es[1..][k].Set? || es[1..][k].Clobber?) && q in SetOne(t, es[1..][k]);
        assert es[k + 1] == es[1..][k];
      }
      if exists k | 0 <= k < |es| :: (es[k].Set? || es[k].Clobber?) && q in SetOne(t, es[k]) {
        var k :| 0 <= k < |es| && (es[k].Set? || es[k].Clobber?) && q in SetOne(t, es[k]);
        if k > 0 {
          assert es[1..][k - 1] == es[k];
        }
      }
    }
  }

  lemma {:induction false} SetRegsBelow(t: Target, x: Rtx, max: nat)
    requires TargetOk(t, max) && Below(RegsIn(x), max)
    ensures Below(SetRegs(t, x), max)
  {
    if x.Set? || x.Clobber? {
      SetOneBelow(t, x, max);
    } else if x.Parallel? {
      forall q | q in SetRegs(t, x) ensures q < max {
        SetRegsParallel(t, x.elts, q);
        var k :| 0 <= k < |x.elts| && (x.elts[k].Set? || x.elts[k].Clobber?) && q in SetOne(t, x.elts[k]);
        RegsInElement(x, k);
        SetOneBelow(t, x.elts[k], max);
      }
    }
  }

  lemma SetOneBelow(t: Target, x: Rtx, max: nat)
    requires x.Set? || x.Clobber?
    requires TargetOk(t, max) && Below(RegsIn(x), max)
    ensures Below(SetOne(t, x), max)
  {
    var reg := StripDest(SetDest(x));
    if SetOne(t, x) != {} {
      StripDestRegs(SetDest(x));
      RegsInElement(x, 0);
      WordsBelow(t, reg.regno, reg.mode, max);
    }
  }

  /** The registers of an operand are registers of the expression. */
  lemma RegsInElement(x: Rtx, k: nat)
    requires k < |Operands(x)|
    ensures RegsIn(Operands(x)[k]) <= RegsIn(x)
  {
    RegsInAllMember(x, Operands(x), k);
  }

  lemma {:induction false} RegsInAllMember(parent: Rtx, xs: seq<Rtx>, k: nat)
    requires forall c | c in xs :: c < parent
    requires k < |xs|
    ensures RegsIn(xs[k]) <= RegsInAll(parent, xs)
  {
    if k > 0 {
      assert forall c | c in xs[1..] :: c in xs;
      RegsInAllMember(parent, xs[1..], k - 1);
    }
  }

  /** Stripping a destination keeps it among the registers it mentions. */
  lemma {:induction false} StripDestRegs(d: Rtx)
    ensures RegsIn(StripDest(d)) <= RegsIn(d)
  {
    match d
    case Subreg(_, a, _) => StripDestRegs(a); RegsInElement(d, 0);
    case StrictLowPart(a) => StripDestRegs(a); RegsInElement(d, 0);
    case ZeroExtract(a, _, _) => StripDestRegs(a); RegsInElement(d, 0);
    case SignExtract(a, _, _) => StripDestRegs(a); RegsInElement(d, 0);
    case _ =>
  }

  /** reg_overlap_mentioned_p for a register against a memory reference:
      some word of the register is a register number occurring in it. */
  predicate Overlaps(t: Target, reg: Rtx, x: Rtx)
    requires reg.Reg?
  {
    Words(t, reg.regno, reg.mode) * RegsIn(x) != {}
  }

  /** last_mem_set after mark_set_1 on one SET or CLOBBER: a store to memory
      or to a register its address mentions forgets it; a store to a memory
      reference without side effects that does not mention the stack
      pointer becomes it. */
  function LastMemAfterOne(t: Target, x: Rtx, lm: Option<Rtx>): (r: Option<Rtx>)
    requires x.Set? || x.Clobber?
    ensures r.Some? ==> r == lm || (r.value.Mem? && !SideEffects(r.value) && !RegMentioned(t.sp, r.value))
    ensures StripDest(SetDest(x)).Mem? ==> r.None? || r.value == StripDest(SetDest(x))
  {
    var reg := StripDest(SetDest(x));
    var lm1 := if reg.Mem? || (reg.Reg? && lm.Some? && Overlaps(t, reg, lm.value)) then None else lm;
    if reg.Mem? && !SideEffects(reg) && !RegMentioned(t.sp, reg) then Some(reg) else lm1
  }

  /** last_mem_set after mark_set_regs, the elements of a PARALLEL taken
      from the last to the first. */
  function LastMemAfterSets(t: Target, x: Rtx, lm: Option<Rtx>): Option<Rtx>
  {
    if x.Set? || x.Clobber? then LastMemAfterOne(t, x, lm)
    else if x.Parallel? then LastMemAfterAll(t, x.elts, lm)
    else lm
  }

  function LastMemAfterAll(t: Target, es: seq<Rtx>, lm: Option<Rtx>): Option<Rtx>
    decreases |es|
  {
    if es == [] then lm
    else
      var e := es[|es| - 1];
      LastMemAfterAll(t, es[..|es| - 1], if e.Set? || e.Clobber? then LastMemAfterOne(t, e, lm) else lm)
  }

  // ------------------------------------------------------------------
  // mark_used_regs

  /** The registers a walk marks live, and whether it read a memory
      reference that can be stored into (which forgets last_mem_set). */
  datatype Uses = Uses(regs: set<nat>, memRead: bool)

  const NoUses: Uses := Uses({}, false)

  function Join(a: Uses, b: Uses): Uses
  {
    Uses(a.regs + b.regs, a.memRead || b.memRead)
  }

  /** A register read: the stack pointer, the frame pointers, a fixed
      argument pointer and a global register are live alone; any other
      register with all its words. */
  function UsedReg(t: Target, m: Mode, regno: nat): (r: set<nat>)
    ensures regno in r && r <= Words(t, regno, m)
  {
    if regno < t.firstPseudo && (regno == t.sp || IsFramePointerLike(t, regno) || regno in t.globalRegs) then
      {regno}
    else Words(t, regno, m)
  }

  /** A RETURN uses the stack pointer when exiting needs its value, and every
      global register and register the epilogue uses. */
  function ReturnUses(t: Target, exitSp: bool): (r: set<nat>)
    ensures exitSp ==> t.sp in r
    ensures forall q | q in r :: (q == t.sp && exitSp) || (q < t.firstPseudo && q in t.globalRegs + t.epilogueUses)
  {
    (if exitSp then {t.sp} else {}) + (t.globalRegs + t.epilogueUses) * HardRegs(t)
  }

  /** mark_dest of mark_used_regs: the stored-into register also counts as
      used, because the destination is wrapped in STRICT_LOW_PART, a
      bit-field extract, or a SUBREG narrower (in words) than its register. */
  predicate MarkDest(t: Target, d: Rtx)
  {
    match d
    case StrictLowPart(_) => true
    case ZeroExtract(_, _, _) => true
    case SignExtract(_, _, _) => true
    case Subreg(m, a, _) => RegSize(t, ModeOf(a)) > RegSize(t, m) || MarkDest(t, a)
    case _ => false
  }

  /** mark_used_regs on a pattern (outside the final pass). `exitSp` is the
      EXIT_IGNORE_STACK condition under which a RETURN needs the stack
      pointer. */
  function Used(t: Target, exitSp: bool, x: Rtx): Uses
    decreases x, 1
  {
    match x
    case LabelRef(_) => NoUses
    case SymbolRef(_, _) => NoUses
    case ConstInt(_) => NoUses
    case Pc => NoUses
    case AddrVec(_) => NoUses
    case AddrDiffVec(_, _) => NoUses
    case Clobber(c) => if c.Mem? then Used(t, exitSp, c.addr) else NoUses
    case Mem(_, a, _) => Join(Uses({}, !(a.SymbolRef? && a.inPool)), Used(t, exitSp, a))
    case Subreg(_, a, _) => if a.Reg? then Uses(UsedReg(t, a.mode, a.regno), false) else Used(t, exitSp, a)
    case Reg(m, regno) => Uses(UsedReg(t, m, regno), false)
    case Set(d, s) =>
      if d.Mem? then Join(Used(t, exitSp, d.addr), Used(t, exitSp, s))
      else
        var reg := StripDest(d);
        if reg.Reg? && !IsFramePointerLike(t, reg.regno) then
          Join(Used(t, exitSp, s), if MarkDest(t, d) then Used(t, exitSp, d) else NoUses)
        else Join(Used(t, exitSp, d), Used(t, exitSp, s))
    case Return => Uses(ReturnUses(t, exitSp), false)
    case _ => UsedAll(t, exitSp, x, Operands(x))
  }

  function UsedAll(t: Target, exitSp: bool, parent: Rtx, xs: seq<Rtx>): Uses
    requires forall c | c in xs :: c < parent
    decreases parent, 0, |xs|
  {
    if xs == [] then NoUses
    else
      assert xs[0] in xs && forall c | c in xs[1..] :: c in xs;
      Join(Used(t, exitSp, xs[0]), UsedAll(t, exitSp, parent, xs[1..]))
  }

  /** Every register a pattern uses is below `max` when the registers it
      mentions are: the walk only adds words of mentioned registers and
      hard registers. */
  lemma {:induction false} UsedBelow(t: Target, exitSp: bool, x: Rtx, max: nat)
    requires TargetOk(t, max) && Below(RegsIn(x), max)
    ensures Below(Used(t, exitSp, x).regs, max)
    decreases x, 2
  {
    if x.Set? || x.Clobber? || x.Mem? || x.Subreg? || x.Reg? {
      NodeUsedBelow(t, exitSp, x, max);
    } else if x.LabelRef? || x.SymbolRef? || x.ConstInt? || x.Pc? || x.AddrVec? || x.AddrDiffVec? || x.Return? {
    } else {
      assert Used(t, exitSp, x) == UsedAll(t, exitSp, x, Operands(x));
      UsedAllBelow(t, exitSp, x, Operands(x), max);
    }
  }

  lemma {:induction false} NodeUsedBelow(t: Target, exitSp: bool, x: Rtx, max: nat)
    requires x.Set? || x.Clobber? || x.Mem? || x.Subreg? || x.Reg?
    requires TargetOk(t, max) && Below(RegsIn(x), max)
    ensures Below(Used(t, exitSp, x).regs, max)
    decreases x, 1
  {
    match x
    case Clobber(c) =>
      if c.Mem? {
        RegsInElement(x, 0);
        RegsInElement(c, 0);
        UsedBelow(t, exitSp, c.addr, max);
      }
    case Mem(_, a, _) =>
      RegsInElement(x, 0);
      UsedBelow(t, exitSp, a, max);
    case Subreg(_, a, _) =>
      RegsInElement(x, 0);
      if a.Reg? {
        WordsBelow(t, a.regno, a.mode, max);
      } else {
        UsedBelow(t, exitSp, a, max);
      }
    case Reg(m, regno) =>
      WordsBelow(t, regno, m, max);
    case Set(d, s) =>
      RegsInElement(x, 0);
      RegsInElement(x, 1);
      UsedBelow(t, exitSp, s, max);
      UsedBelow(t, exitSp, d, max);
      if d.Mem? {
        RegsInElement(d, 0);
        UsedBelow(t, exitSp, d.addr, max);
      }
  }

  lemma {:induction false} UsedAllBelow(t: Target, exitSp: bool, parent: Rtx, xs: seq<Rtx>, max: nat)
    requires forall c | c in xs :: c < parent
    requires TargetOk(t, max) && Below(RegsInAll(parent, xs), max)
    ensures Below(UsedAll(t, exitSp, parent, xs).regs, max)
    decreases parent, 0, |xs|
  {
    if xs != [] {
      assert xs[0] in xs && forall c | c in xs[1..] :: c in xs;
      UsedBelow(t, exitSp, xs[0], max);
      UsedAllBelow(t, exitSp, parent, xs[1..], max);
    }
  }

  /** A plain store into a register other than a frame pointer uses only
      what its source uses: the old value of the register is not live. */
  lemma UsedPlainStore(t: Target, exitSp: bool, m: Mode, regno: nat, s: Rtx)
    requires !IsFramePointerLike(t, regno)
    ensures Used(t, exitSp, Set(Reg(m, regno), s)) == Used(t, exitSp, s)
  {
  }

  /** A STRICT_LOW_PART store keeps the rest of the register, so the
      register is used as well as set. */
  lemma UsedPartialStore(t: Target, exitSp: bool, m: Mode, regno: nat, s: Rtx)
    requires !IsFramePointerLike(t, regno)
    ensures regno in Used(t, exitSp, Set(StrictLowPart(Reg(m, regno)), s)).regs
  {
    var d := StrictLowPart(Reg(m, regno));
    assert Operands(d) == [Reg(m, regno)];
    assert [Reg(m, regno)][1..] == [];
    assert UsedAll(t, exitSp, d, [Reg(m, regno)]).regs ==
      Used(t, exitSp, Reg(m, regno)).regs + UsedAll(t, exitSp, d, []).regs;
    assert Used(t, exitSp, d) == UsedAll(t, exitSp, d, [Reg(m, regno)]);
  }

  // ------------------------------------------------------------------
  // insn_dead_p

  /** The destination insn_dead_p tests: SUBREG, STRICT_LOW_PART and
      ZERO_EXTRACT stripped (a SIGN_EXTRACT is kept). */
  function DeadTestDest(x: Rtx): (r: Rtx)
    ensures !r.Subreg? && !r.StrictLowPart? && !r.ZeroExtract?
    ensures x.Mem? ==> r == x
  {
    match x
    case Subreg(_, a, _) => DeadTestDest(a)
    case StrictLowPart(a) => DeadTestDest(a)
    case ZeroExtract(a, _, _) => DeadTestDest(a)
    case _ => x
  }

  /** The `while (--n > 0)` loop: one of regno+1 .. regno+n-1 is needed. */
  predicate ExtraWordNeeded(needed: set<nat>, regno: nat, n: int)
    decreases n
  {
    n - 1 > 0 && (regno + (n - 1) in needed || ExtraWordNeeded(needed, regno, n - 1))
  }

  /** The loop asks exactly whether the extra words meet `needed`. */
  lemma {:induction false} ExtraWordNeededIff(needed: set<nat>, regno: nat, n: int)
    ensures ExtraWordNeeded(needed, regno, n) <==> n > 1 && Range(regno + 1, regno + n) * needed != {}
    decreases n
  {
    if n > 1 {
      ExtraWordNeededIff(needed, regno, n - 1);
      var top := regno + (n - 1);
      assert Range(regno + 1, regno + n) == Range(regno + 1, regno + n - 1) + {top};
      assert Range(regno + 1, regno + n) * needed ==
        Range(regno + 1, regno + n - 1) * needed + (if top in needed then {top} else {});
    }
  }

  /** insn_dead_p's test for a SET of register `reg`: it is not global, not a
      frame pointer or fixed argument pointer, and neither it nor (for a
      hard register) any of its extra words is needed. */
  predicate RegStoreDead(t: Target, reg: Rtx, needed: set<nat>)
    requires reg.Reg?
  {
    !IsGlobalHard(t, reg.regno) && !IsFramePointerLike(t, reg.regno) && reg.regno !in needed &&
    !(reg.regno < t.firstPseudo && ExtraWordNeeded(needed, reg.regno, t.nregs(reg.regno, reg.mode)))
  }

  /** insn_dead_p: the pattern is only dead stores, given the registers
      `needed` after it and the last memory store `lastMem`. */
  predicate InsnDead(t: Target, x: Rtx, needed: set<nat>, callOk: bool, lastMem: Option<Rtx>)
    decreases x, 1
  {
    match x
    case Set(d, s) =>
      if !callOk && s.Call? then false
      else if d.Mem? && lastMem == Some(d) && !d.volatile then true
      else
        var r := DeadTestDest(d);
        r.Reg? && RegStoreDead(t, r, needed)
    case Parallel(es) => AllDead(t, x, es, needed, callOk, lastMem)
    case Clobber(c) => c.Reg? && c.regno >= t.firstPseudo && c.regno !in needed
    case _ => false
  }

  predicate AllDead(t: Target, parent: Rtx, es: seq<Rtx>, needed: set<nat>, callOk: bool, lastMem: Option<Rtx>)
    requires forall c | c in es :: c < parent
    decreases parent, 0, |es|
  {
    es == [] ||
    (assert es[0] in es && forall c | c in es[1..] :: c in es;
     (es[0].Clobber? || es[0].Use? || InsnDead(t, es[0], needed, callOk, lastMem)) &&
     AllDead(t, parent, es[1..], needed, callOk, lastMem))
  }

  /** A SET whose source is a CALL is never dead unless calls are allowed. */
  lemma InsnDeadCall(t: Target, d: Rtx, f: Rtx, n: Rtx, needed: set<nat>, lastMem: Option<Rtx>)
    ensures !InsnDead(t, Set(d, Call(f, n)), needed, false, lastMem)
  {
  }

  /** A SET of a register (through SUBREG, STRICT_LOW_PART or ZERO_EXTRACT)
      is dead iff the register and all its words are absent from `needed`
      and it is not a global register, a frame pointer or a fixed argument
      pointer. */
  lemma InsnDeadRegStore(t: Target, d: Rtx, s: Rtx, needed: set<nat>, callOk: bool, lastMem: Option<Rtx>)
    requires callOk || !s.Call?
    requires DeadTestDest(d).Reg?
    ensures var r := DeadTestDest(d);
      InsnDead(t, Set(d, s), needed, callOk, lastMem) <==>
        Words(t, r.regno, r.mode) * needed == {} && !IsGlobalHard(t, r.regno) && !IsFramePointerLike(t, r.regno)
  {
    var r := DeadTestDest(d);
    assert InsnDead(t, Set(d, s), needed, callOk, lastMem) == RegStoreDead(t, r, needed);
    var n := t.nregs(r.regno, r.mode);
    ExtraWordNeededIff(needed, r.regno, n);
    if r.regno < t.firstPseudo {
      assert Words(t, r.regno, r.mode) == {r.regno} + Range(r.regno + 1, r.regno + n);
      if n <= 1 {
        assert Range(r.regno + 1, r.regno + n) == {};
      }
    } else {
      assert Words(t, r.regno, r.mode) == {r.regno};
      if r.regno in needed {
        assert r.regno in {r.regno} * needed;
      } else {
        assert {r.regno} * needed == {};
      }
    }
  }

  /** A PARALLEL is dead iff every element other than a CLOBBER or USE is. */
  lemma InsnDeadParallel(t: Target, es: seq<Rtx>, needed: set<nat>, callOk: bool, lastMem: Option<Rtx>)
    ensures InsnDead(t, Parallel(es), needed, callOk, lastMem) <==>
      forall k | 0 <= k < |es| :: es[k].Clobber? || es[k].Use? || InsnDead(t, es[k], needed, callOk, lastMem)
  {
    AllDeadIff(t, Parallel(es), es, needed, callOk, lastMem);
  }

  lemma {:induction false} AllDeadIff(t: Target, parent: Rtx, es: seq<Rtx>, needed: set<nat>, callOk: bool, lastMem: Option<Rtx>)
    requires forall c | c in es :: c < parent
    ensures AllDead(t, parent, es, needed, callOk, lastMem) <==>
      forall k | 0 <= k < |es| :: es[k].Clobber? || es[k].Use? || InsnDead(t, es[k], needed, callOk, lastMem)
  {
    if es != [] {
      assert forall c | c in es[1..] :: c in es;
      AllDeadIff(t, parent, es[1..], needed, callOk, lastMem);
      assert forall k | 1 <= k < |es| :: es[k] == es[1..][k - 1];
    }
  }

  /** A store to the memory reference last stored into (not volatile) is
      dead, unless its source is a call and calls are not allowed. */
  lemma InsnDeadRepeatedStore(t: Target, d: Rtx, s: Rtx, needed: set<nat>, callOk: bool)
    requires d.Mem? && !d.volatile
    requires callOk || !s.Call?
    ensures InsnDead(t, Set(d, s), needed, callOk, Some(d))
  {
  }

  // ------------------------------------------------------------------
  // libcall_dead_p

  /** The last element of a PARALLEL that is a SET of a CALL. */
  function LastCallSet(es: seq<Rtx>): (r: Option<nat>)
    ensures r.Some? ==> (r.value < |es| && es[r.value].Set? && es[r.value].src.Call? &&
      forall k | r.value < k < |es| :: !(es[k].Set? && es[k].src.Call?))
    ensures r.None? ==> forall k | 0 <= k < |es| :: !(es[k].Set? && es[k].src.Call?)
    decreases |es|
  {
    if es == [] then None
    else if es[|es| - 1].Set? && es[|es| - 1].src.Call? then Some(|es| - 1)
    else LastCallSet(es[..|es| - 1])
  }

  /** libcall_dead_p, given the pattern of the libcall's CALL_INSN (None when
      there is none before the final insn): a final insn that copies a
      register is dead with its libcall iff the call's value is a dead store
      (calls allowed); one that does not copy a register always is. */
  predicate LibcallDead(t: Target, x: Rtx, needed: set<nat>, call: Option<Rtx>, lastMem: Option<Rtx>)
  {
    if x.Set? && x.src.Reg? then
      match call
      case None => false
      case Some(p) =>
        if p.Parallel? then
          match LastCallSet(p.elts)
          case None => false
          case Some(k) => InsnDead(t, p.elts[k], needed, true, lastMem)
        else InsnDead(t, p, needed, true, lastMem)
    else true
  }

  /** For a libcall whose call sets the hard value register `v`, the libcall
      is dead iff `v` and its words are not needed and `v` is not special. */
  lemma LibcallDeadValueReg(t: Target, x: Rtx, needed: set<nat>, m: Mode, v: nat, f: Rtx, n: Rtx, lastMem: Option<Rtx>)
    requires x.Set? && x.src.Reg?
    ensures LibcallDead(t, x, needed, Some(Set(Reg(m, v), Call(f, n))), lastMem) <==>
      Words(t, v, m) * needed == {} && !IsGlobalHard(t, v) && !IsFramePointerLike(t, v)
  {
    InsnDeadRegStore(t, Reg(m, v), Call(f, n), needed, true, lastMem);
  }
}
