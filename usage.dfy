/** Recounting register sets and references just before register allocation
    (count_reg_sets_1, count_reg_sets, count_reg_references and
    recompute_reg_usage). REG_N_SETS and REG_N_REFS are two arrays indexed by
    register number; the tree walks are functions returning, as a multiset,
    the pseudo registers whose counter they bump, and the recount applies
    them weighted by the loop depth. */
module Usage {
  import opened Rtl
  import opened Machine
  import opened Insns
  import opened RegUse

  /** The counter bump for one register: pseudos only. */
  function PseudoRef(t: Target, regno: nat): (r: multiset<nat>)
    ensures forall q | q in r :: t.firstPseudo <= q && q == regno
  {
    if regno >= t.firstPseudo then multiset{regno} else multiset{}
  }

  // ------------------------------------------------------------------
  // count_reg_sets_1, count_reg_sets

  /** count_reg_sets_1: the register stored into by a SET or CLOBBER, with
      SUBREG, bit-field extracts and STRICT_LOW_PART stripped, when it is a
      pseudo register. */
  function SetCount(t: Target, x: Rtx): (r: multiset<nat>)
    requires x.Set? || x.Clobber?
  {
    var reg := StripDest(SetDest(x));
    if reg.Reg? then PseudoRef(t, reg.regno) else multiset{}
  }

  /** count_reg_sets: one bump per SET or CLOBBER of a pseudo, for the
      pattern itself or for the elements of a PARALLEL. */
  function SetsCounted(t: Target, x: Rtx): (r: multiset<nat>)
  {
    if x.Set? || x.Clobber? then SetCount(t, x)
    else if x.Parallel? then SetsCountedAll(t, x.elts)
    else multiset{}
  }

  function SetsCountedAll(t: Target, es: seq<Rtx>): (r: multiset<nat>)
  {
    if es == [] then multiset{}
    else (if es[0].Set? || es[0].Clobber? then SetCount(t, es[0]) else multiset{}) + SetsCountedAll(t, es[1..])
  }

  /** A pseudo register is counted as set by a pattern exactly when the
      liveness scan (mark_set_regs) sees the pattern set it. */
  lemma SetsCountedIff(t: Target, max: nat, x: Rtx, q: nat)
    requires TargetOk(t, max) && t.firstPseudo <= q
    ensures q in SetsCounted(t, x) <==> q in SetRegs(t, x)
  {
    if x.Set? || x.Clobber? {
      SetCountIff(t, max, x, q);
    } else if x.Parallel? {
      SetsCountedAllIff(t, max, x.elts, q);
    }
  }

  lemma SetCountIff(t: Target, max: nat, x: Rtx, q: nat)
    requires x.Set? || x.Clobber?
    requires TargetOk(t, max) && t.firstPseudo <= q
    ensures q in SetCount(t, x) <==> q in SetOne(t, x)
  {
    var reg := StripDest(SetDest(x));
    if reg.Reg? && reg.regno < t.firstPseudo {
      assert reg.regno + t.nregs(reg.regno, reg.mode) <= t.firstPseudo;
      assert q !in Words(t, reg.regno, reg.mode);
    }
  }

  lemma {:induction false} SetsCountedAllIff(t: Target, max: nat, es: seq<Rtx>, q: nat)
    requires TargetOk(t, max) && t.firstPseudo <= q
    ensures q in SetsCountedAll(t, es) <==> q in SetRegsAll(t, es)
  {
    if es != [] {
      if es[0].Set? || es[0].Clobber? {
        SetCountIff(t, max, es[0], q);
      }
      SetsCountedAllIff(t, max, es[1..], q);
    }
  }

  /** Only registers the pattern mentions are counted as set. */
  lemma SetsCountedMentioned(t: Target, x: Rtx)
    ensures forall q | q in SetsCounted(t, x) :: q in RegsIn(x) && t.firstPseudo <= q
  {
    if x.Set? || x.Clobber? {
      SetCountMentioned(t, x);
    } else if x.Parallel? {
      forall q | q in SetsCounted(t, x) ensures q in RegsIn(x) && t.firstPseudo <= q {
        var k := CountedElement(t, x.elts, q);
        SetCountMentioned(t, x.elts[k]);
        RegsInElement(x, k);
      }
    }
  }

  lemma SetCountMentioned(t: Target, x: Rtx)
    requires x.Set? || x.Clobber?
    ensures forall q | q in SetCount(t, x) :: q in RegsIn(x) && t.firstPseudo <= q
  {
    StripDestRegs(SetDest(x));
    RegsInElement(x, 0);
  }

  /** The element of a PARALLEL whose SET or CLOBBER a counted register comes from. */
  lemma {:induction false} CountedElement(t: Target, es: seq<Rtx>, q: nat) returns (k: nat)
    requires q in SetsCountedAll(t, es)
    ensures k < |es| && (es[k].Set? || es[k].Clobber?) && q in SetCount(t, es[k])
  {
    if (es[0].Set? || es[0].Clobber?) && q in SetCount(t, es[0]) {
      k := 0;
    } else {
      var j := CountedElement(t, es[1..], q);
      k := j + 1;
    }
  }

  // ------------------------------------------------------------------
  // count_reg_references

  /** count_reg_references: one bump per reference to a pseudo register.
      Constants, labels, PC and jump tables count nothing; a CLOBBER counts
      only the address of a clobbered MEM; a store into memory counts the
      address and the value; a store into a register counts the value, and
      the destination as well when it only partly overwrites the register
      (STRICT_LOW_PART, a bit-field, or a SUBREG narrower in words than its
      register); everything else counts its operands. */
  function Refs(t: Target, x: Rtx): (r: multiset<nat>)
    decreases x, 1
  {
    match x
    case LabelRef(_) => multiset{}
    case SymbolRef(_, _) => multiset{}
    case ConstInt(_) => multiset{}
    case Pc => multiset{}
    case AddrVec(_) => multiset{}
    case AddrDiffVec(_, _) => multiset{}
    case Clobber(c) => if c.Mem? then Refs(t, c.addr) else multiset{}
    case Subreg(_, a, _) => if a.Reg? then PseudoRef(t, a.regno) else Refs(t, a)
    case Reg(_, regno) => PseudoRef(t, regno)
    case Set(d, s) =>
      if d.Mem? then Refs(t, d.addr) + Refs(t, s)
      else if StripDest(d).Reg? then Refs(t, s) + (if MarkDest(t, d) then Refs(t, d) else multiset{})
      else RefsAll(t, x, Operands(x))
    case _ => RefsAll(t, x, Operands(x))
  }

  function RefsAll(t: Target, parent: Rtx, xs: seq<Rtx>): (r: multiset<nat>)
    requires forall c | c in xs :: c < parent
    decreases parent, 0, |xs|
  {
    if xs == [] then multiset{}
    else
      assert xs[0] in xs && forall c | c in xs[1..] :: c in xs;
      Refs(t, xs[0]) + RefsAll(t, parent, xs[1..])
  }

  /** Only registers the expression mentions are counted as referenced. */
  lemma {:induction false} RefsMentioned(t: Target, x: Rtx)
    ensures forall q | q in Refs(t, x) :: q in RegsIn(x) && t.firstPseudo <= q
    decreases x, 2
  {
    if x.Set? {
      SetRefsMentioned(t, x);
    } else if x.Clobber? || x.Subreg? {
      RegsInElement(x, 0);
      if x.Clobber? && x.x.Mem? {
        RefsMentioned(t, x.x.addr);
        RegsInElement(x.x, 0);
      } else if x.Subreg? && !x.inner.Reg? {
        RefsMentioned(t, x.inner);
      }
    } else if x.LabelRef? || x.SymbolRef? || x.ConstInt? || x.Pc? || x.AddrVec? || x.AddrDiffVec? || x.Reg? {
    } else {
      assert Refs(t, x) == RefsAll(t, x, Operands(x));
      RefsAllMentioned(t, x, Operands(x));
    }
  }

  lemma {:induction false} SetRefsMentioned(t: Target, x: Rtx)
    requires x.Set?
    ensures forall q | q in Refs(t, x) :: q in RegsIn(x) && t.firstPseudo <= q
    decreases x, 1
  {
    var d, s := x.dest, x.src;
    RegsInElement(x, 0);
    RegsInElement(x, 1);
    RefsMentioned(t, s);
    if d.Mem? {
      RefsMentioned(t, d.addr);
      RegsInElement(d, 0);
    } else if StripDest(d).Reg? {
      RefsMentioned(t, d);
    } else {
      RefsAllMentioned(t, x, Operands(x));
    }
  }

  lemma {:induction false} RefsAllMentioned(t: Target, parent: Rtx, xs: seq<Rtx>)
    requires forall c | c in xs :: c < parent
    ensures forall q | q in RefsAll(t, parent, xs) :: q in RegsInAll(parent, xs) && t.firstPseudo <= q
    decreases parent, 0, |xs|
  {
    if xs != [] {
      assert xs[0] in xs && forall c | c in xs[1..] :: c in xs;
      RefsMentioned(t, xs[0]);
      RefsAllMentioned(t, parent, xs[1..]);
    }
  }

  /** The pseudo registers counted as referenced are exactly the pseudo
      registers the liveness scan (mark_used_regs) finds used: the two walks
      differ only in hard registers (the stack pointer, frame pointers and
      the registers a RETURN uses) and in what the counts weigh. */
  lemma {:induction false} RefsMatchUsed(t: Target, max: nat, exitSp: bool, x: Rtx, q: nat)
    requires TargetOk(t, max) && t.firstPseudo <= q
    ensures q in Refs(t, x) <==> q in Used(t, exitSp, x).regs
    decreases x, 2
  {
    if x.Set? {
      SetRefsMatchUsed(t, max, exitSp, x.dest, x.src, q);
    } else if x.Clobber? || x.Mem? || x.Subreg? || x.Reg? {
      NodeRefsMatchUsed(t, max, exitSp, x, q);
    } else if x.LabelRef? || x.SymbolRef? || x.ConstInt? || x.Pc? || x.AddrVec? || x.AddrDiffVec? || x.Return? {
      LeafRefsMatchUsed(t, max, exitSp, x, q);
    } else {
      assert Refs(t, x) == RefsAll(t, x, Operands(x));
      assert Used(t, exitSp, x) == UsedAll(t, exitSp, x, Operands(x));
      RefsAllMatchUsed(t, max, exitSp, x, Operands(x), q);
    }
  }

  /** Constants, labels, jump tables and RETURN: no pseudo either way. */
  lemma LeafRefsMatchUsed(t: Target, max: nat, exitSp: bool, x: Rtx, q: nat)
    requires x.LabelRef? || x.SymbolRef? || x.ConstInt? || x.Pc? || x.AddrVec? || x.AddrDiffVec? || x.Return?
    requires TargetOk(t, max) && t.firstPseudo <= q
    ensures q in Refs(t, x) <==> q in Used(t, exitSp, x).regs
  {
    if x.Return? {
      assert q !in ReturnUses(t, exitSp);
    }
  }

  /** CLOBBER, MEM, SUBREG and REG. */
  lemma {:induction false} NodeRefsMatchUsed(t: Target, max: nat, exitSp: bool, x: Rtx, q: nat)
    requires x.Clobber? || x.Mem? || x.Subreg? || x.Reg?
    requires TargetOk(t, max) && t.firstPseudo <= q
    ensures q in Refs(t, x) <==> q in Used(t, exitSp, x).regs
    decreases x, 0
  {
    match x
    case Clobber(c) =>
      if c.Mem? {
        RefsMatchUsed(t, max, exitSp, c.addr, q);
      }
    case Mem(_, a, _) =>
      RefsMatchUsed(t, max, exitSp, a, q);
      assert Refs(t, x) == RefsAll(t, x, [a]);
      assert RefsAll(t, x, [a]) == Refs(t, a) + RefsAll(t, x, []);
    case Subreg(_, a, _) =>
      if a.Reg? {
        UsedRegPseudo(t, max, a.mode, a.regno, q);
      } else {
        RefsMatchUsed(t, max, exitSp, a, q);
      }
    case Reg(m, regno) =>
      UsedRegPseudo(t, max, m, regno, q);
  }

  /** The SET case: the walks agree on the value, and on the destination
      wherever either of them looks at it. */
  lemma {:induction false} SetRefsMatchUsed(t: Target, max: nat, exitSp: bool, d: Rtx, s: Rtx, q: nat)
    requires TargetOk(t, max) && t.firstPseudo <= q
    ensures q in Refs(t, Set(d, s)) <==> q in Used(t, exitSp, Set(d, s)).regs
    decreases Set(d, s), 1
  {
    RefsMatchUsed(t, max, exitSp, s, q);
    if d.Mem? {
      RefsMatchUsed(t, max, exitSp, d.addr, q);
      assert Refs(t, Set(d, s)) == Refs(t, d.addr) + Refs(t, s);
      assert Used(t, exitSp, Set(d, s)) == Join(Used(t, exitSp, d.addr), Used(t, exitSp, s));
    } else if !StripDest(d).Reg? {
      RefsMatchUsed(t, max, exitSp, d, q);
      OtherStoreRefs(t, d, s, q);
      assert Used(t, exitSp, Set(d, s)) == Join(Used(t, exitSp, d), Used(t, exitSp, s));
    } else {
      RefsMatchUsed(t, max, exitSp, d, q);
      RegStoreMatchUsed(t, max, exitSp, d, s, q);
    }
  }

  /** A store into something other than memory or a register counts both operands. */
  lemma OtherStoreRefs(t: Target, d: Rtx, s: Rtx, q: nat)
    requires !d.Mem? && !StripDest(d).Reg?
    ensures q in Refs(t, Set(d, s)) <==> q in Refs(t, d) || q in Refs(t, s)
  {
    var x := Set(d, s);
    assert Operands(x) == [d, s];
    assert Refs(t, x) == RefsAll(t, x, [d, s]);
    assert [d, s][1..] == [s] && [s][1..] == [];
    assert q in RefsAll(t, x, [d, s]) <==> q in Refs(t, d) || q in RefsAll(t, x, [s]);
    assert q in RefsAll(t, x, [s]) <==> q in Refs(t, s);
  }

  /** A store into a register: only a frame pointer is walked differently,
      and it wraps no pseudo unless the destination is marked. */
  lemma RegStoreMatchUsed(t: Target, max: nat, exitSp: bool, d: Rtx, s: Rtx, q: nat)
    requires !d.Mem? && StripDest(d).Reg?
    requires TargetOk(t, max) && t.firstPseudo <= q
    requires q in Refs(t, d) <==> q in Used(t, exitSp, d).regs
    requires q in Refs(t, s) <==> q in Used(t, exitSp, s).regs
    ensures q in Refs(t, Set(d, s)) <==> q in Used(t, exitSp, Set(d, s)).regs
  {
    var x := Set(d, s);
    var reg := StripDest(d);
    var dRefs := if MarkDest(t, d) then Refs(t, d) else multiset{};
    assert Refs(t, x) == Refs(t, s) + dRefs;
    if IsFramePointerLike(t, reg.regno) {
      assert Used(t, exitSp, x) == Join(Used(t, exitSp, d), Used(t, exitSp, s));
      if !MarkDest(t, d) {
        // Only SUBREGs wrap the register: it is the one register `d` mentions.
        RefsMentioned(t, d);
        OnlySubregs(t, d);
        assert q !in Refs(t, d);
      }
    } else {
      assert Used(t, exitSp, x) == Join(Used(t, exitSp, s), if MarkDest(t, d) then Used(t, exitSp, d) else NoUses);
    }
  }

  lemma {:induction false} RefsAllMatchUsed(t: Target, max: nat, exitSp: bool, parent: Rtx, xs: seq<Rtx>, q: nat)
    requires forall c | c in xs :: c < parent
    requires TargetOk(t, max) && t.firstPseudo <= q
    ensures q in RefsAll(t, parent, xs) <==> q in UsedAll(t, exitSp, parent, xs).regs
    decreases parent, 0, |xs|
  {
    if xs != [] {
      assert xs[0] in xs && forall c | c in xs[1..] :: c in xs;
      RefsMatchUsed(t, max, exitSp, xs[0], q);
      RefsAllMatchUsed(t, max, exitSp, parent, xs[1..], q);
    }
  }

  /** A register read marks a pseudo exactly when it is that pseudo. */
  lemma UsedRegPseudo(t: Target, max: nat, m: Mode, regno: nat, q: nat)
    requires TargetOk(t, max) && t.firstPseudo <= q
    ensures q in UsedReg(t, m, regno) <==> q in PseudoRef(t, regno)
  {
    if regno < t.firstPseudo {
      assert regno + t.nregs(regno, m) <= t.firstPseudo;
      assert q !in Words(t, regno, m);
    }
  }

  /** A destination that does not mark its register used is a chain of
      SUBREGs around it and mentions nothing else. */
  lemma {:induction false} OnlySubregs(t: Target, d: Rtx)
    requires StripDest(d).Reg? && !MarkDest(t, d)
    ensures RegsIn(d) == {StripDest(d).regno}
  {
    match d
    case Subreg(_, a, _) =>
      OnlySubregs(t, a);
      assert Operands(d) == [a];
      assert RegsInAll(d, [a]) == RegsIn(a) + RegsInAll(d, []);
    case Reg(_, _) =>
      assert Operands(d) == [];
  }

  // ------------------------------------------------------------------
  // recompute_reg_usage

  /** The registers named by the REG_INC notes of an instruction, one per note. */
  function IncRegs(notes: seq<RegNote>): (r: multiset<nat>)
  {
    if notes == [] then multiset{}
    else
      var n := notes[|notes| - 1];
      IncRegs(notes[..|notes| - 1]) + (if n.RegInc? && n.reg.Reg? then multiset{n.reg.regno} else multiset{})
  }

  /** The references counted for the argument registers of a call: the
      operand of each USE in CALL_INSN_FUNCTION_USAGE. */
  function UsageRefs(t: Target, usage: seq<Rtx>): (r: multiset<nat>)
  {
    if usage == [] then multiset{}
    else
      var u := usage[|usage| - 1];
      UsageRefs(t, usage[..|usage| - 1]) + UseRefs(t, u)
  }

  /** The REG_N_SETS bumps of one real instruction. */
  function InsnSets(t: Target, x: Insn): multiset<nat>
  {
    SetsCounted(t, x.pattern) + IncRegs(x.regNotes)
  }

  /** The REG_N_REFS bumps of one real instruction, each worth the loop depth:
      its sets, its references, and a call's argument registers. */
  function InsnRefs(t: Target, x: Insn): multiset<nat>
  {
    SetsCounted(t, x.pattern) + Refs(t, x.pattern) + (if x.code == CallInsn then UsageRefs(t, x.callUsage) else multiset{})
  }

  /** The loop depth after an instruction. */
  function DepthStep(x: Insn, d: int): int
  {
    if x.code == NoteInsn && x.note == NoteLoopEnd then d - 1
    else if x.code == NoteInsn && x.note == NoteLoopBeg then d + 1
    else d
  }

  /** The loop depth after a chain prefix, starting from 1. */
  function Depth(c: seq<Insn>): int
  {
    if c == [] then 1 else DepthStep(c[|c| - 1], Depth(c[..|c| - 1]))
  }

  /** No NOTE brings the loop depth to 0 (on which the recount aborts). */
  predicate DepthOk(c: seq<Insn>)
  {
    c == [] || (DepthOk(c[..|c| - 1]) && (c[|c| - 1].code == NoteInsn ==> Depth(c) != 0))
  }

  /** REG_N_SETS of register `r` after counting the chain. */
  function NSets(t: Target, c: seq<Insn>, r: nat): nat
  {
    if c == [] then 0
    else
      var x := c[|c| - 1];
      NSets(t, c[..|c| - 1], r) + (if IsReal(x.code) then InsnSets(t, x)[r] else 0)
  }

  /** REG_N_REFS of register `r` after counting the chain, each instruction
      weighted by its loop depth. */
  function NRefs(t: Target, c: seq<Insn>, r: nat): int
  {
    if c == [] then 0
    else
      var x := c[|c| - 1];
      NRefs(t, c[..|c| - 1], r) + (if IsReal(x.code) then Depth(c[..|c| - 1]) * InsnRefs(t, x)[r] else 0)
  }

  /** Without a bookkeeping error the loop depth never drops below 1. */
  lemma {:induction false} DepthPositive(c: seq<Insn>)
    requires DepthOk(c)
    ensures Depth(c) >= 1
  {
    if c != [] {
      DepthPositive(c[..|c| - 1]);
    }
  }

  /** Every counted reference is to a pseudo register: hard registers keep
      their REG_N_REFS. */
  lemma {:induction false} HardRefsZero(t: Target, c: seq<Insn>, r: nat)
    requires r < t.firstPseudo
    ensures NRefs(t, c, r) == 0
  {
    if c != [] {
      HardRefsZero(t, c[..|c| - 1], r);
      var x := c[|c| - 1];
      SetsCountedMentioned(t, x.pattern);
      RefsMentioned(t, x.pattern);
      if r in UsageRefs(t, x.callUsage) {
        UsageMentioned(t, x.callUsage, r);
      }
      assert r !in InsnRefs(t, x);
    }
  }

  /** A register no real instruction mentions (in its pattern, its REG_INC
      notes or its call usage) gets no sets and no references. */
  lemma {:induction false} UnmentionedUncounted(t: Target, c: seq<Insn>, r: nat)
    requires forall k | 0 <= k < |c| && IsReal(c[k].code) :: !Mentions(c[k], r)
    ensures NSets(t, c, r) == 0 && NRefs(t, c, r) == 0
  {
    if c != [] {
      var p := c[..|c| - 1];
      assert forall k | 0 <= k < |p| :: p[k] == c[k];
      UnmentionedUncounted(t, p, r);
      var x := c[|c| - 1];
      if IsReal(x.code) {
        assert !Mentions(x, r);
        InsnMentioned(t, x, r);
      }
    }
  }

  /** The instruction mentions register `r`. */
  predicate Mentions(x: Insn, r: nat)
  {
    r in RegsIn(x.pattern) ||
    (exists k | 0 <= k < |x.regNotes| :: x.regNotes[k].RegInc? && r in RegsIn(x.regNotes[k].reg)) ||
    (exists k | 0 <= k < |x.callUsage| :: r in RegsIn(x.callUsage[k]))
  }

  lemma InsnMentioned(t: Target, x: Insn, r: nat)
    ensures r in InsnSets(t, x) || r in InsnRefs(t, x) ==> Mentions(x, r)
  {
    SetsCountedMentioned(t, x.pattern);
    RefsMentioned(t, x.pattern);
    if r in IncRegs(x.regNotes) {
      var k := IncNoteOf(x.regNotes, r);
      assert r in RegsIn(x.regNotes[k].reg);
    }
    if r in UsageRefs(t, x.callUsage) {
      UsageMentioned(t, x.callUsage, r);
    }
  }

  /** The REG_INC note a counted register comes from. */
  lemma {:induction false} IncNoteOf(notes: seq<RegNote>, q: nat) returns (k: nat)
    requires q in IncRegs(notes)
    ensures k < |notes| && notes[k].RegInc? && notes[k].reg.Reg? && notes[k].reg.regno == q
  {
    var p := notes[..|notes| - 1];
    if q in IncRegs(p) {
      k := IncNoteOf(p, q);
      assert p[k] == notes[k];
    } else {
      k := |notes| - 1;
    }
  }

  lemma {:induction false} UsageMentioned(t: Target, usage: seq<Rtx>, r: nat)
    requires r in UsageRefs(t, usage)
    ensures t.firstPseudo <= r && exists k | 0 <= k < |usage| :: r in RegsIn(usage[k])
  {
    var p := usage[..|usage| - 1];
    var u := usage[|usage| - 1];
    if r in UsageRefs(t, p) {
      UsageMentioned(t, p, r);
      var k :| 0 <= k < |p| && r in RegsIn(p[k]);
      assert p[k] == usage[k];
    } else {
      RefsMentioned(t, u.x);
      RegsInElement(u, 0);
      assert r in RegsIn(usage[|usage| - 1]);
    }
  }

  /** A pseudo register that no REG_INC note names is referenced at least as
      often as it is set: each set also counts as a reference, at a loop
      depth of at least 1. */
  lemma {:induction false} RefsCoverSets(t: Target, c: seq<Insn>, r: nat)
    requires DepthOk(c)
    requires forall k | 0 <= k < |c| :: r !in IncRegs(c[k].regNotes)
    ensures NRefs(t, c, r) >= NSets(t, c, r)
  {
    if c != [] {
      var p := c[..|c| - 1];
      assert forall k | 0 <= k < |p| :: p[k] == c[k];
      RefsCoverSets(t, p, r);
      DepthPositive(p);
      var x := c[|c| - 1];
      assert r !in IncRegs(x.regNotes);
      assert InsnRefs(t, x)[r] >= InsnSets(t, x)[r];
      MulAtLeast(Depth(p), InsnRefs(t, x)[r], InsnSets(t, x)[r]);
    }
  }

  lemma MulAdd(d: int, a: int, b: int)
    ensures d * (a + b) == d * a + d * b
  {
  }

  lemma MulAtLeast(d: int, a: int, b: int)
    requires d >= 1 && a >= b >= 0
    ensures d * a >= b
  {
  }

  /** One step of the chain-prefix definitions. */
  lemma PrefixStep(t: Target, c: seq<Insn>, k: nat)
    requires k < |c|
    ensures Depth(c[..k + 1]) == DepthStep(c[k], Depth(c[..k]))
    ensures DepthOk(c[..k + 1]) <==> DepthOk(c[..k]) && (c[k].code == NoteInsn ==> Depth(c[..k + 1]) != 0)
    ensures forall r: nat :: NSets(t, c[..k + 1], r) == NSets(t, c[..k], r) + (if IsReal(c[k].code) then InsnSets(t, c[k])[r] else 0)
    ensures forall r: nat :: NRefs(t, c[..k + 1], r) == NRefs(t, c[..k], r) + (if IsReal(c[k].code) then Depth(c[..k]) * InsnRefs(t, c[k])[r] else 0)
  {
    assert c[..k + 1][..k] == c[..k];
  }

  /** A prefix of a chain without a bookkeeping error has none. */
  lemma {:induction false} DepthOkPrefix(c: seq<Insn>, k: nat)
    requires k <= |c| && DepthOk(c)
    ensures DepthOk(c[..k])
    decreases |c|
  {
    if k < |c| {
      DepthOkPrefix(c[..|c| - 1], k);
      assert c[..|c| - 1][..k] == c[..k];
    } else {
      assert c[..k] == c;
    }
  }

  /** The pseudo registers' counters are cleared; hard registers keep theirs. */
  method ClearPseudos(t: Target, nSets: array<int>, nRefs: array<int>)
    requires nSets != nRefs && nSets.Length == nRefs.Length
    modifies nSets, nRefs
    ensures forall r | 0 <= r < nSets.Length :: nSets[r] == (if r < t.firstPseudo then old(nSets[r]) else 0)
    ensures forall r | 0 <= r < nRefs.Length :: nRefs[r] == (if r < t.firstPseudo then old(nRefs[r]) else 0)
  {
    var i := t.firstPseudo;
    while i < nSets.Length
      invariant t.firstPseudo <= i
      invariant forall r | 0 <= r < nSets.Length :: nSets[r] == (if r < t.firstPseudo || i <= r then old(nSets[r]) else 0)
      invariant forall r | 0 <= r < nRefs.Length :: nRefs[r] == (if r < t.firstPseudo || i <= r then old(nRefs[r]) else 0)
    {
      nSets[i] := 0;
      nRefs[i] := 0;
      i := i + 1;
    }
  }

  /** Every REG_INC note of the instruction names a register below `max`. */
  predicate IncBelow(notes: seq<RegNote>, max: nat)
  {
    forall k | 0 <= k < |notes| && notes[k].RegInc? && notes[k].reg.Reg? :: notes[k].reg.regno < max
  }

  /** Bump every counter by `w` times the register's multiplicity in `m`. */
  method AddWeighted(a: array<int>, m: multiset<nat>, w: int)
    modifies a
    ensures forall r | 0 <= r < a.Length :: a[r] == old(a[r]) + w * m[r]
  {
    forall r | 0 <= r < a.Length {
      a[r] := a[r] + w * m[r];
    }
  }

  /** The REG_INC loop of recompute_reg_usage: one REG_N_SETS bump per note. */
  method CountIncNotes(notes: seq<RegNote>, nSets: array<int>)
    requires IncBelow(notes, nSets.Length)
    modifies nSets
    ensures forall r | 0 <= r < nSets.Length :: nSets[r] == old(nSets[r]) + IncRegs(notes)[r]
  {
    var j := 0;
    while j < |notes|
      invariant j <= |notes|
      invariant forall r | 0 <= r < nSets.Length :: nSets[r] == old(nSets[r]) + IncRegs(notes[..j])[r]
    {
      assert notes[..j + 1][..j] == notes[..j];
      if notes[j].RegInc? && notes[j].reg.Reg? {
        var regno := notes[j].reg.regno;
        nSets[regno] := nSets[regno] + 1;
      }
      j := j + 1;
    }
    assert notes[..j] == notes;
  }

  /** The references one element of CALL_INSN_FUNCTION_USAGE contributes:
      those of the operand of a USE. */
  function UseRefs(t: Target, u: Rtx): multiset<nat>
  {
    if u.Use? then Refs(t, u.x) else multiset{}
  }

  /** The CALL_INSN_FUNCTION_USAGE loop: the references of each USE, at
      loop depth `depth`. */
  method CountUsage(t: Target, usage: seq<Rtx>, depth: int, nRefs: array<int>)
    modifies nRefs
    ensures forall r | 0 <= r < nRefs.Length :: nRefs[r] == old(nRefs[r]) + depth * UsageRefs(t, usage)[r]
  {
    var k := 0;
    while k < |usage|
      invariant k <= |usage|
      invariant forall r | 0 <= r < nRefs.Length :: nRefs[r] == old(nRefs[r]) + depth * UsageRefs(t, usage[..k])[r]
    {
      ghost var before := nRefs[..];
      var u := usage[k];
      if u.Use? {
        AddWeighted(nRefs, Refs(t, u.x), depth);
      }
      UsageStep(t, usage, k, depth, before, nRefs[..]);
      k := k + 1;
    }
    assert usage[..k] == usage;
  }

  lemma UsageStep(t: Target, usage: seq<Rtx>, k: nat, depth: int, before: seq<int>, after: seq<int>)
    requires k < |usage| && |before| == |after|
    requires forall r | 0 <= r < |after| :: after[r] == before[r] + depth * UseRefs(t, usage[k])[r]
    ensures forall r | 0 <= r < |after| ::
      after[r] - depth * UsageRefs(t, usage[..k + 1])[r] == before[r] - depth * UsageRefs(t, usage[..k])[r]
  {
    assert usage[..k + 1][..k] == usage[..k];
    forall r | 0 <= r < |after|
      ensures after[r] - depth * UsageRefs(t, usage[..k + 1])[r] == before[r] - depth * UsageRefs(t, usage[..k])[r]
    {
      MulAdd(depth, UsageRefs(t, usage[..k])[r], UseRefs(t, usage[k])[r]);
    }
  }

  /** Counting one real instruction at loop depth `depth`: count_reg_sets,
      the REG_INC notes, count_reg_references and a call's USEs. */
  method CountInsn(t: Target, x: Insn, depth: int, nSets: array<int>, nRefs: array<int>)
    requires nSets != nRefs && nSets.Length == nRefs.Length
    requires IncBelow(x.regNotes, nSets.Length)
    modifies nSets, nRefs
    ensures forall r | 0 <= r < nSets.Length :: nSets[r] == old(nSets[r]) + InsnSets(t, x)[r]
    ensures forall r | 0 <= r < nRefs.Length :: nRefs[r] == old(nRefs[r]) + depth * InsnRefs(t, x)[r]
  {
    ghost var s0 := nRefs[..];
    var sets := SetsCounted(t, x.pattern);
    AddWeighted(nSets, sets, 1);
    AddWeighted(nRefs, sets, depth);
    CountIncNotes(x.regNotes, nSets);
    ghost var s1 := nRefs[..];
    var refs := Refs(t, x.pattern);
    AddWeighted(nRefs, refs, depth);
    ghost var s2 := nRefs[..];
    if x.code == CallInsn {
      CountUsage(t, x.callUsage, depth, nRefs);
    }
    InsnRefsSum(t, x, depth, s0, s1, s2, nRefs[..]);
  }

  /** The three stages of counting an instruction's references add up to
      its weighted total. */
  lemma InsnRefsSum(t: Target, x: Insn, depth: int, s0: seq<int>, s1: seq<int>, s2: seq<int>, s3: seq<int>)
    requires |s0| == |s1| == |s2| == |s3|
    requires forall r | 0 <= r < |s1| :: s1[r] == s0[r] + depth * SetsCounted(t, x.pattern)[r]
    requires forall r | 0 <= r < |s2| :: s2[r] == s1[r] + depth * Refs(t, x.pattern)[r]
    requires forall r | 0 <= r < |s3| ::
      s3[r] == s2[r] + depth * (if x.code == CallInsn then UsageRefs(t, x.callUsage) else multiset{})[r]
    ensures forall r | 0 <= r < |s3| :: s3[r] == s0[r] + depth * InsnRefs(t, x)[r]
  {
    var calls := if x.code == CallInsn then UsageRefs(t, x.callUsage) else multiset{};
    forall r | 0 <= r < |s3|
      ensures s3[r] == s0[r] + depth * InsnRefs(t, x)[r]
    {
      var a, b, c := SetsCounted(t, x.pattern)[r], Refs(t, x.pattern)[r], calls[r];
      assert InsnRefs(t, x)[r] == a + b + c;
      MulAdd(depth, a, b);
      MulAdd(depth, a + b, c);
    }
  }

  /** recompute_reg_usage: clear the pseudo registers' REG_N_SETS and
      REG_N_REFS and recount them over the whole chain, tracking the loop
      depth through the LOOP_BEG and LOOP_END notes; `ok` is false where the
      compiler aborts because the depth reached 0. REG_INC notes also bump
      the (uncleared) counters of hard registers. */
  method RecomputeRegUsage(t: Target, chain: seq<Insn>, nSets: array<int>, nRefs: array<int>) returns (ok: bool)
    requires nSets != nRefs && nSets.Length == nRefs.Length
    requires forall k | 0 <= k < |chain| :: IncBelow(chain[k].regNotes, nSets.Length)
    modifies nSets, nRefs
    ensures ok == DepthOk(chain)
    ensures ok ==> forall r | t.firstPseudo <= r < nSets.Length ::
      nSets[r] == NSets(t, chain, r) && nRefs[r] == NRefs(t, chain, r)
    ensures ok ==> forall r | 0 <= r < t.firstPseudo && r < nSets.Length ::
      nSets[r] == old(nSets[r]) + NSets(t, chain, r) && nRefs[r] == old(nRefs[r])
  {
    ClearPseudos(t, nSets, nRefs);
    ghost var baseSets := nSets[..];
    ghost var baseRefs := nRefs[..];
    var depth := 1;
    var k := 0;
    while k < |chain|
      invariant k <= |chain|
      invariant depth == Depth(chain[..k]) && DepthOk(chain[..k])
      invariant forall r | 0 <= r < nSets.Length :: nSets[r] == baseSets[r] + NSets(t, chain[..k], r)
      invariant forall r | 0 <= r < nRefs.Length :: nRefs[r] == baseRefs[r] + NRefs(t, chain[..k], r)
    {
      var x := chain[k];
      PrefixStep(t, chain, k);
      if x.code == NoteInsn {
        if x.note == NoteLoopEnd {
          depth := depth - 1;
        } else if x.note == NoteLoopBeg {
          depth := depth + 1;
        }
        if depth == 0 {
          if DepthOk(chain) {
            DepthOkPrefix(chain, k + 1);
          }
          return false;
        }
      } else if IsReal(x.code) {
        CountInsn(t, x, depth, nSets, nRefs);
      }
      k := k + 1;
    }
    assert chain[..k] == chain;
    forall r | 0 <= r < t.firstPseudo
      ensures NRefs(t, chain, r) == 0
    {
      HardRefsZero(t, chain, r);
    }
    return true;
  }
}
