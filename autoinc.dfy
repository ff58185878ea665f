/** Auto-increment formation: find_use_as_address, which looks for the one
    memory reference that uses a register as its address, and the two
    rewrites built on it: try_pre_increment folds an increment of a
    register into a later memory reference, find_auto_inc folds a later
    increment into a memory reference. The MIPS configuration defines none
    of the HAVE_PRE/POST_INCREMENT/DECREMENT macros, so the liveness scan of
    this model never calls the rewrites; they are modelled for a target
    whose `Target` flags provide the addressing modes. Functions defined
    outside flow.c (validate_change, dead_or_set_p, reg_used_between_p,
    reg_set_between_p) are parameters. */
module AutoInc {
  import opened Rtl
  import opened Machine
  import opened Insns

  // ------------------------------------------------------------------
  // Subexpressions

  /** The number of subexpressions of `x` equal to `y` (`x` itself included). */
  function Occurrences(y: Rtx, x: Rtx): nat
    decreases x, 1
  {
    (if x == y then 1 else 0) + OccurrencesAll(y, x, Operands(x))
  }

  function OccurrencesAll(y: Rtx, parent: Rtx, xs: seq<Rtx>): nat
    requires forall c | c in xs :: c < parent
    decreases parent, 0, |xs|
  {
    if xs == [] then 0
    else
      assert xs[0] in xs && forall c | c in xs[1..] :: c in xs;
      Occurrences(y, xs[0]) + OccurrencesAll(y, parent, xs[1..])
  }

  /** The operands taken together contain `y` exactly when one of them does,
      and at least as often as any one of them. */
  lemma {:induction false} OccurrencesAllParts(y: Rtx, parent: Rtx, xs: seq<Rtx>)
    requires forall c | c in xs :: c < parent
    ensures forall k | 0 <= k < |xs| :: OccurrencesAll(y, parent, xs) >= Occurrences(y, xs[k])
    ensures OccurrencesAll(y, parent, xs) > 0 ==> exists k | 0 <= k < |xs| :: Occurrences(y, xs[k]) > 0
    decreases |xs|
  {
    if xs != [] {
      assert forall c | c in xs[1..] :: c in xs;
      OccurrencesAllParts(y, parent, xs[1..]);
      assert forall k | 1 <= k < |xs| :: xs[1..][k - 1] == xs[k];
    }
  }

  /** `x` with its operands, in the order Operands lists them, replaced by `ops`. */
  function WithOperands(x: Rtx, ops: seq<Rtx>): (r: Rtx)
    requires |ops| == |Operands(x)|
    ensures Operands(r) == ops
    ensures ops == Operands(x) ==> r == x
    ensures r.Mem? <==> x.Mem?
    ensures x.Mem? ==> r.mode == x.mode && r.addr == ops[0] && r.volatile == x.volatile
  {
    match x
    case Mem(m, _, v) => Mem(m, ops[0], v)
    case Plus(_, _) => Plus(ops[0], ops[1])
    case Minus(_, _) => Minus(ops[0], ops[1])
    case Subreg(m, _, w) => Subreg(m, ops[0], w)
    case StrictLowPart(_) => StrictLowPart(ops[0])
    case ZeroExtract(_, _, _) => ZeroExtract(ops[0], ops[1], ops[2])
    case SignExtract(_, _, _) => SignExtract(ops[0], ops[1], ops[2])
    case AutoInc(c, _) => AutoInc(c, ops[0])
    case Set(_, _) => Set(ops[0], ops[1])
    case Clobber(_) => Clobber(ops[0])
    case Use(_) => Use(ops[0])
    case Call(_, _) => Call(ops[0], ops[1])
    case Parallel(_) => Parallel(ops)
    case AddrVec(_) => AddrVec(ops)
    case AddrDiffVec(_, _) => AddrDiffVec(ops[0], ops[1..])
    case Concat(m, _, _) => Concat(m, ops[0], ops[1])
    case UnspecVolatile(_) => UnspecVolatile(ops)
    case AsmOperands(v, _) => AsmOperands(v, ops)
    case Op(c, m, _) => Op(c, m, ops)
    case _ => x
  }

  /** `x` with every subexpression equal to `from` replaced by `to`: what
      validate_change (and a direct store into XEXP) does to the place
      that holds `from`. */
  function Substitute(x: Rtx, from: Rtx, to: Rtx): Rtx
    decreases x, 1
  {
    if x == from then to
    else WithOperands(x, SubstituteAll(x, Operands(x), from, to))
  }

  function SubstituteAll(parent: Rtx, xs: seq<Rtx>, from: Rtx, to: Rtx): (r: seq<Rtx>)
    requires forall c | c in xs :: c < parent
    ensures |r| == |xs|
    decreases parent, 0
  {
    seq(|xs|, i requires 0 <= i < |xs| => assert xs[i] in xs; Substitute(xs[i], from, to))
  }

  /** Replacing something that does not occur changes nothing. */
  lemma {:induction false} SubstituteAbsent(x: Rtx, from: Rtx, to: Rtx)
    requires Occurrences(from, x) == 0
    ensures Substitute(x, from, to) == x
    decreases x
  {
    var ops := Operands(x);
    forall k | 0 <= k < |ops| ensures Substitute(ops[k], from, to) == ops[k] {
      PartAbsent(from, x, k);
      assert ops[k] in ops;
      SubstituteAbsent(ops[k], from, to);
    }
    SubstituteAllFixed(x, ops, from, to);
    SubstituteUnfold(x, from, to);
  }

  /** An operand of an expression without `y` holds no `y` either. */
  lemma PartAbsent(y: Rtx, x: Rtx, k: nat)
    requires Occurrences(y, x) == 0 && k < |Operands(x)|
    ensures x != y && Occurrences(y, Operands(x)[k]) == 0
  {
    OccurrencesAllParts(y, x, Operands(x));
  }

  lemma SubstituteUnfold(x: Rtx, from: Rtx, to: Rtx)
    requires x != from
    ensures Substitute(x, from, to) == WithOperands(x, SubstituteAll(x, Operands(x), from, to))
  {
  }

  lemma SubstituteAllFixed(parent: Rtx, xs: seq<Rtx>, from: Rtx, to: Rtx)
    requires forall c | c in xs :: c < parent
    requires forall k | 0 <= k < |xs| :: Substitute(xs[k], from, to) == xs[k]
    ensures SubstituteAll(parent, xs, from, to) == xs
  {
  }

  /** Replacing something that occurs puts the replacement in. */
  lemma {:induction false} SubstitutePlaces(x: Rtx, from: Rtx, to: Rtx)
    requires Occurrences(from, x) > 0
    ensures Occurrences(to, Substitute(x, from, to)) > 0
    decreases x
  {
    if x == from {
      assert Occurrences(to, to) >= 1;
    } else {
      var k := PartPresent(from, x);
      assert Operands(x)[k] in Operands(x);
      SubstitutePlaces(Operands(x)[k], from, to);
      SubstituteOperand(x, from, to, k);
      PartCounted(to, Substitute(x, from, to), k);
    }
  }

  /** Some operand of an expression holding `y` (other than `y` itself) holds `y`. */
  lemma PartPresent(y: Rtx, x: Rtx) returns (k: nat)
    requires Occurrences(y, x) > 0 && x != y
    ensures k < |Operands(x)| && Occurrences(y, Operands(x)[k]) > 0
  {
    OccurrencesAllParts(y, x, Operands(x));
    k :| 0 <= k < |Operands(x)| && Occurrences(y, Operands(x)[k]) > 0;
  }

  /** An expression holds `y` at least as often as any of its operands. */
  lemma PartCounted(y: Rtx, x: Rtx, k: nat)
    requires k < |Operands(x)|
    ensures Occurrences(y, x) >= Occurrences(y, Operands(x)[k])
  {
    OccurrencesAllParts(y, x, Operands(x));
  }

  /** The operands of a substituted expression are the substituted operands. */
  lemma SubstituteOperand(x: Rtx, from: Rtx, to: Rtx, k: nat)
    requires x != from && k < |Operands(x)|
    ensures k < |Operands(Substitute(x, from, to))|
    ensures Operands(Substitute(x, from, to))[k] == Substitute(Operands(x)[k], from, to)
  {
    var rops := SubstituteAll(x, Operands(x), from, to);
    assert Operands(x)[k] in Operands(x);
    assert Operands(WithOperands(x, rops)) == rops;
  }

  // ------------------------------------------------------------------
  // find_use_as_address

  /** What find_use_as_address returns: 0, the MEM, or (rtx) 1. */
  datatype AddrUse = NoUse | UseAt(mem: Rtx) | Ambiguous

  /** The addresses find_use_as_address looks for: REG itself when
      PLUSCONST is 0, and (plus REG (const_int PLUSCONST)). */
  predicate AddressOf(addr: Rtx, reg: Rtx, plusconst: int)
  {
    (addr == reg && plusconst == 0) || (addr.Plus? && addr.op0 == reg && addr.op1 == ConstInt(plusconst))
  }

  /** Two operands' answers: one that found nothing defers to the other,
      and two that found something make the register ambiguous. */
  function Combine(a: AddrUse, b: AddrUse): AddrUse
  {
    if a == NoUse then b else if b == NoUse then a else Ambiguous
  }

  /** find_use_as_address: the MEM of `x` whose address is `reg` (or
      `reg` + `plusconst`); nothing when `reg` does not occur; ambiguous
      when `reg` occurs more than once, outside such an address, or in a
      MEM inside the first operand of a bit-field extract. The source
      visits the operands from the last; the answer does not depend on the
      order. */
  function FindUseAsAddress(x: Rtx, reg: Rtx, plusconst: int): AddrUse
    decreases x, 1
  {
    if x.Mem? && AddressOf(x.addr, reg, plusconst) then UseAt(x)
    else if (x.ZeroExtract? || x.SignExtract?) && FindUseAsAddress(x.inner, reg, 0) != NoUse then Ambiguous
    else if x == reg then Ambiguous
    else FindUseAll(x, Operands(x), reg, plusconst)
  }

  function FindUseAll(parent: Rtx, xs: seq<Rtx>, reg: Rtx, plusconst: int): AddrUse
    requires forall c | c in xs :: c < parent
    decreases parent, 0, |xs|
  {
    if xs == [] then NoUse
    else
      assert xs[0] in xs && forall c | c in xs[1..] :: c in xs;
      Combine(FindUseAsAddress(xs[0], reg, plusconst), FindUseAll(parent, xs[1..], reg, plusconst))
  }

  /** The three answers of find_use_as_address, in terms of where the
      register occurs: nothing exactly when it does not occur; a MEM whose
      address is one of the accepted forms, that occurs in `x`, and is the
      register's only occurrence; ambiguous when it occurs twice or more,
      and whenever it occurs in the first operand of a bit-field extract. */
  lemma {:induction false} FindUseAsAddressSpec(x: Rtx, reg: Rtx, plusconst: int)
    requires reg.Reg?
    ensures var r := FindUseAsAddress(x, reg, plusconst);
      (r == NoUse <==> Occurrences(reg, x) == 0) &&
      (r.UseAt? ==> Occurrences(reg, x) == 1 && r.mem.Mem? && AddressOf(r.mem.addr, reg, plusconst) &&
                    Occurrences(r.mem, x) > 0) &&
      (Occurrences(reg, x) >= 2 ==> r == Ambiguous)
    ensures (x.ZeroExtract? || x.SignExtract?) && Occurrences(reg, x.inner) > 0 ==>
      FindUseAsAddress(x, reg, plusconst) == Ambiguous
    decreases x, 1
  {
    var ops := Operands(x);
    OccurrencesAllParts(reg, x, ops);
    if x.Mem? && AddressOf(x.addr, reg, plusconst) {
      assert ops == [x.addr];
      if x.addr == reg {
        assert Occurrences(reg, reg) == 1;
      } else {
        var a := x.addr;
        assert Operands(a) == [reg, a.op1];
        assert Occurrences(reg, reg) == 1 && Occurrences(reg, a.op1) == 0;
        assert OccurrencesAll(reg, a, [a.op1]) == 0 + OccurrencesAll(reg, a, []);
        assert OccurrencesAll(reg, a, [reg, a.op1]) == 1 + OccurrencesAll(reg, a, [a.op1]);
        assert Occurrences(reg, a) == 1;
      }
      assert Occurrences(reg, x.addr) == 1;
      assert OccurrencesAll(reg, x, [x.addr]) == Occurrences(reg, x.addr) + OccurrencesAll(reg, x, []);
      assert x != reg;
      assert Occurrences(x, x) >= 1;
    } else if x.ZeroExtract? || x.SignExtract? {
      FindUseAsAddressSpec(x.inner, reg, 0);
      assert ops[0] == x.inner;
      if FindUseAsAddress(x.inner, reg, 0) == NoUse {
        FindUseAllSpec(x, ops, reg, plusconst);
      }
    } else if x == reg {
      assert Occurrences(reg, x) >= 1;
    } else {
      FindUseAllSpec(x, ops, reg, plusconst);
    }
  }

  lemma {:induction false} FindUseAllSpec(parent: Rtx, xs: seq<Rtx>, reg: Rtx, plusconst: int)
    requires reg.Reg? && forall c | c in xs :: c < parent
    ensures var r := FindUseAll(parent, xs, reg, plusconst);
      (r == NoUse <==> OccurrencesAll(reg, parent, xs) == 0) &&
      (r.UseAt? ==> OccurrencesAll(reg, parent, xs) == 1 && r.mem.Mem? && AddressOf(r.mem.addr, reg, plusconst) &&
                    OccurrencesAll(r.mem, parent, xs) > 0)
    decreases parent, 0, |xs|
  {
    if xs != [] {
      assert xs[0] in xs && forall c | c in xs[1..] :: c in xs;
      FindUseAsAddressSpec(xs[0], reg, plusconst);
      FindUseAllSpec(parent, xs[1..], reg, plusconst);
    }
  }

  // ------------------------------------------------------------------
  // The addressing modes

  /** Whether the target has the addressing mode (HAVE_PRE_INCREMENT ...). */
  predicate Available(t: Target, code: IncCode)
  {
    match code
    case PreInc => t.havePreInc
    case PreDec => t.havePreDec
    case PostInc => t.havePostInc
    case PostDec => t.havePostDec
  }

  /** The address an auto-increment reference of `size` bytes uses when
      the register holds `v`. */
  function IncAddress(code: IncCode, v: int, size: nat): int
  {
    match code
    case PreInc => v + size
    case PreDec => v - size
    case PostInc => v
    case PostDec => v
  }

  /** The register's value after the reference. */
  function IncAfter(code: IncCode, v: int, size: nat): int
  {
    match code
    case PreInc => v + size
    case PostInc => v + size
    case PreDec => v - size
    case PostDec => v - size
  }

  function Abs(n: int): nat { if n < 0 then -n else n }

  /** The memory reference chosen for the change, the addressing mode, and
      the constant its address adds to the register before the change. */
  datatype IncPlan = IncPlan(mem: Rtx, code: IncCode, offset: int)

  // ------------------------------------------------------------------
  // try_pre_increment, try_pre_increment_1

  /** The choice try_pre_increment makes for INSN, which follows an
      instruction adding `amount` to `reg`: a pre-increment or
      pre-decrement on a MEM addressed by `reg` when the target has one,
      failing that a post-increment or post-decrement on a MEM addressed by
      `reg` - `amount`, provided the MEM's size is the increment and INSN
      is not a jump. */
  function PreIncrementPlan(t: Target, insn: Insn, reg: Rtx, amount: int): (r: Option<IncPlan>)
    ensures r.Some? ==>
      var p := r.value;
      insn.code != JumpInsn && p.mem.Mem? && Available(t, p.code) &&
      FindUseAsAddress(insn.pattern, reg, p.offset) == UseAt(p.mem) && p.mem.mode.size == Abs(amount) &&
      forall v :: IncAddress(p.code, v, p.mem.mode.size) == v + amount + p.offset &&
                  IncAfter(p.code, v, p.mem.mode.size) == v + amount
    ensures insn.code != JumpInsn && PreOk(t, amount) && FindUseAsAddress(insn.pattern, reg, 0).UseAt? ==>
      var m := FindUseAsAddress(insn.pattern, reg, 0).mem;
      (r.Some? <==> m.Mem? && m.mode.size == Abs(amount)) && (r.Some? ==> r.value.offset == 0 && r.value.mem == m)
    ensures amount == 0 || insn.code == JumpInsn ==> r.None?
  {
    var preOk := PreOk(t, amount);
    var postOk := PostOk(t, amount);
    if !(preOk || postOk) || insn.code == JumpInsn then None
    else
      var pre := if preOk then FindUseAsAddress(insn.pattern, reg, 0) else NoUse;
      var doPost := postOk && !pre.UseAt?;
      var offset := if doPost then -amount else 0;
      var use := if doPost then FindUseAsAddress(insn.pattern, reg, offset) else pre;
      if !use.UseAt? || !use.mem.Mem? || use.mem.mode.size != Abs(amount) then None
      else
        var code := if amount > 0 then (if doPost then PostInc else PreInc) else (if doPost then PostDec else PreDec);
        Some(IncPlan(use.mem, code, offset))
  }

  predicate PreOk(t: Target, amount: int)
  {
    (amount > 0 && t.havePreInc) || (amount < 0 && t.havePreDec)
  }

  predicate PostOk(t: Target, amount: int)
  {
    (amount > 0 && t.havePostInc) || (amount < 0 && t.havePostDec)
  }

  /** The MEM with its address replaced by the auto-increment of `reg`. */
  function AutoIncMem(mem: Rtx, code: IncCode, reg: Rtx): (r: Rtx)
    requires mem.Mem?
    ensures r.Mem? && r.mode == mem.mode && r.addr == AutoInc(code, reg)
  {
    Mem(mem.mode, AutoInc(code, reg), mem.volatile)
  }

  /** INSN with the chosen MEM's address replaced by the auto-increment of
      `reg`. */
  function WithAutoInc(insn: Insn, mem: Rtx, code: IncCode, reg: Rtx): Insn
    requires mem.Mem?
  {
    insn.(pattern := Substitute(insn.pattern, mem, AutoIncMem(mem, code, reg)))
  }

  /** try_pre_increment: the changed INSN, carrying a REG_INC note for
      `reg`, when a plan exists and the target accepts the changed
      instruction (validate_change, here `accepts`); nothing otherwise. */
  function TryPreIncrement(t: Target, insn: Insn, reg: Rtx, amount: int, accepts: Insn -> bool): (r: Option<Insn>)
    ensures r.Some? ==> PreIncrementPlan(t, insn, reg, amount).Some?
    ensures r.Some? ==>
      var p := PreIncrementPlan(t, insn, reg, amount).value;
      accepts(WithAutoInc(insn, p.mem, p.code, reg)) &&
      r.value == WithAutoInc(insn, p.mem, p.code, reg).(regNotes := [RegInc(reg)] + insn.regNotes)
    ensures PreIncrementPlan(t, insn, reg, amount).None? ==> r.None?
  {
    match PreIncrementPlan(t, insn, reg, amount)
    case None => None
    case Some(p) =>
      var changed := WithAutoInc(insn, p.mem, p.code, reg);
      if !accepts(changed) then None
      else Some(changed.(regNotes := [RegInc(reg)] + insn.regNotes))
  }

  /** The instructions propagate_block offers to try_pre_increment_1: a
      single SET of a register to itself plus or minus a constant. */
  predicate IsIncrement(insn: Insn)
  {
    var x := SingleSet(insn);
    x.Some? && x.value.dest.Reg? && (x.value.src.Plus? || x.value.src.Minus?) &&
    x.value.src.op0 == x.value.dest && x.value.src.op1.ConstInt?
  }

  /** The register an increment changes and the amount it adds. */
  function Increment(insn: Insn): (Rtx, int)
    requires IsIncrement(insn)
  {
    var x := SingleSet(insn).value;
    (x.dest, (if x.src.Plus? then 1 else -1) * x.src.op1.value)
  }

  /** try_pre_increment_1: when the next use of the incremented register
      (`next`, from reg_next_use) is in the same block, neither kills nor
      sets the register (`deadOrSet`, dead_or_set_p) and takes a
      pre/post-increment, the increment becomes a deleted NOTE and the use
      the changed instruction. In both the new and the old order the
      address used and the register's final value are the same. */
  function TryPreIncrement1(t: Target, insn: Insn, next: Option<Insn>, sameBlock: bool, deadOrSet: bool,
                            accepts: Insn -> bool): (r: Option<(Insn, Insn)>)
    requires IsIncrement(insn)
    ensures r.Some? ==>
      var (reg, amount) := Increment(insn);
      next.Some? && sameBlock && !deadOrSet &&
      r.value.0 == AsDeletedNote(insn) && TryPreIncrement(t, next.value, reg, amount, accepts) == Some(r.value.1) &&
      var p := PreIncrementPlan(t, next.value, reg, amount).value;
      forall v :: IncAddress(p.code, v, p.mem.mode.size) == v + amount + p.offset &&
                  IncAfter(p.code, v, p.mem.mode.size) == v + amount
    ensures next.None? || !sameBlock || deadOrSet ==> r.None?
  {
    var (reg, amount) := Increment(insn);
    if next.Some? && sameBlock && !deadOrSet then
      match TryPreIncrement(t, next.value, reg, amount, accepts)
      case Some(y) => Some((AsDeletedNote(insn), y))
      case None => None
    else None
  }

  // ------------------------------------------------------------------
  // find_auto_inc

  /** What find_auto_inc found to work with: the address register, the
      constant the MEM's address adds to it, the later increment's SET and
      the amount it adds, and the addressing mode. */
  datatype AutoPlan = AutoPlan(addr: Rtx, offset: int, incSet: Rtx, inc: int, code: IncCode)

  /** The tests of find_auto_inc for MEM `x` in INSN: the address is a
      register, perhaps plus a constant; the register's next use `incr`
      is in the same block, has a single SET of the register plus a
      constant, and that constant is the MEM's size (or minus it) with an
      offset the target's addressing modes allow; INSN is not a jump; and
      the register occurs in INSN only as this kind of address. The
      auto-increment then addresses what the MEM addressed, and leaves in
      the register what the increment stored. */
  function AutoIncPlan(t: Target, x: Rtx, insn: Insn, incr: Option<Insn>, sameBlock: bool): (r: Option<AutoPlan>)
    requires x.Mem?
    ensures r.Some? ==>
      var p := r.value;
      var size := x.mode.size;
      p.addr.Reg? && incr.Some? && sameBlock && insn.code != JumpInsn &&
      SingleSet(incr.value) == Some(p.incSet) && p.incSet.src == Plus(p.addr, ConstInt(p.inc)) &&
      FindUseAsAddress(insn.pattern, p.addr, p.offset).UseAt? &&
      (x.addr == p.addr || x.addr == Plus(p.addr, ConstInt(p.offset))) &&
      (size > 0 ==> Available(t, p.code)) &&
      forall v :: IncAddress(p.code, v, size) == v + p.offset && IncAfter(p.code, v, size) == v + p.inc
    ensures !x.addr.Reg? && !(x.addr.Plus? && x.addr.op1.ConstInt?) ==> r.None?
  {
    var (addr, offset) := if x.addr.Plus? && x.addr.op1.ConstInt? then (x.addr.op0, x.addr.op1.value) else (x.addr, 0);
    var size: int := x.mode.size;
    if !addr.Reg? || incr.None? || SingleSet(incr.value).None? then None
    else
      var st := SingleSet(incr.value).value;
      var y := st.src;
      if !sameBlock || insn.code == JumpInsn || !y.Plus? || y.op0 != addr || !y.op1.ConstInt? then None
      else
        var inc := y.op1.value;
        var modes :=
          (t.havePostInc && inc == size && offset == 0) || (t.havePostDec && inc == -size && offset == 0) ||
          (t.havePreInc && inc == size && offset == size) || (t.havePreDec && inc == -size && offset == -size);
        if !modes || !FindUseAsAddress(insn.pattern, addr, offset).UseAt? then None
        else
          var code := if inc == size then (if offset != 0 then PreInc else PostInc) else (if offset != 0 then PreDec else PostDec);
          Some(AutoPlan(addr, offset, st, inc, code))
  }

  /** The outcome of find_auto_inc: nothing changed, or INSN and the
      increment rewritten, the second form with the copy of the register
      into the increment's destination emitted before INSN. */
  datatype AutoIncChange =
    | Unchanged
    | Folded(insn: Insn, incr: Insn)
    | FoldedWithCopy(copy: Insn, insn: Insn, incr: Insn)

  /** find_auto_inc. When the increment's register dies or is set there
      (`deadOrSet`, dead_or_set_p), the MEM's address becomes the
      auto-increment of the register. Otherwise, when the increment stores
      into another register `q` not used or set between INSN and the
      increment (`qFree`), `q` is first set to the register by a new
      instruction with UID `copyUid` before INSN, and the MEM and the
      increment are changed to use `q`. Either way INSN gains a REG_INC
      note, and the increment becomes a copy of the incremented register,
      or a deleted NOTE when that copy would be a no-op; when the target
      refuses that copy the compiler aborts. */
  function FindAutoInc(t: Target, x: Rtx, insn: Insn, incr: Option<Insn>, sameBlock: bool, deadOrSet: bool,
                       qFree: bool, accepts: Insn -> bool, copyUid: nat): (r: Result<AutoIncChange>)
    requires x.Mem? && (incr.Some? ==> IsReal(incr.value.code))
    ensures AutoIncPlan(t, x, insn, incr, sameBlock).None? ==> r == Ok(Unchanged)
    ensures r.Ok? && !r.value.Unchanged? ==>
      var p := AutoIncPlan(t, x, insn, incr, sameBlock).value;
      var a := if r.value.FoldedWithCopy? then p.incSet.dest else p.addr;
      r.value.insn.regNotes == [RegInc(a)] + insn.regNotes &&
      r.value.insn.pattern == Substitute(insn.pattern, x, AutoIncMem(x, p.code, a)) &&
      accepts(insn.(pattern := r.value.insn.pattern)) &&
      (r.value.incr.code == NoteInsn <==> p.incSet.dest == a)
    ensures r.Ok? && r.value.FoldedWithCopy? ==>
      var p := AutoIncPlan(t, x, insn, incr, sameBlock).value;
      !deadOrSet && qFree && p.incSet.dest.Reg? && r.value.copy.pattern == Set(p.incSet.dest, p.addr) &&
      r.value.copy.uid == copyUid && r.value.incr.code == NoteInsn
    ensures r.Ok? && r.value.Folded? ==> deadOrSet
  {
    match AutoIncPlan(t, x, insn, incr, sameBlock)
    case None => Ok(Unchanged)
    case Some(p) =>
      var q := p.incSet.dest;
      if deadOrSet then
        var insn1 := insn.(pattern := Substitute(insn.pattern, x, AutoIncMem(x, p.code, p.addr)));
        if !accepts(insn1) then Ok(Unchanged)
        else
          match FinishAutoInc(insn1, incr.value, p.incSet, p.addr, accepts)
          case Abort => Abort
          case Ok((i2, c2)) => Ok(Folded(i2, c2))
      else if q.Reg? && qFree then
        var copy := Insn(copyUid, PlainInsn, Set(q, p.addr), NoteOtherKind, [], false, []);
        var insn1 := insn.(pattern := Substitute(insn.pattern, x, AutoIncMem(x, p.code, q)));
        var y1 := Plus(q, ConstInt(p.inc));
        var incr1 := incr.value.(pattern := Substitute(incr.value.pattern, p.incSet.src, y1));
        if !accepts(insn1) || !accepts(incr1) then Ok(Unchanged)
        else
          match FinishAutoInc(insn1, incr1, Set(q, y1), q, accepts)
          case Abort => Abort
          case Ok((i2, c2)) => Ok(FoldedWithCopy(copy, i2, c2))
      else Ok(Unchanged)
  }

  /** The common end of find_auto_inc: the REG_INC note for `a`, and the
      increment's SET turned into a copy of `a` (deleted when it copies
      `a` into itself); abort when the target refuses the copy. */
  function FinishAutoInc(insn: Insn, incr: Insn, st: Rtx, a: Rtx, accepts: Insn -> bool): (r: Result<(Insn, Insn)>)
    requires st.Set? && IsReal(incr.code)
    ensures r.Ok? ==> r.value.0 == insn.(regNotes := [RegInc(a)] + insn.regNotes)
    ensures r.Ok? ==> (r.value.1.code == NoteInsn <==> st.dest == a)
    ensures r.Abort? <==> !accepts(incr.(pattern := Substitute(incr.pattern, st, Set(st.dest, a))))
  {
    var incr1 := incr.(pattern := Substitute(incr.pattern, st, Set(st.dest, a)));
    if !accepts(incr1) then Abort
    else if st.dest == a then Ok((insn.(regNotes := [RegInc(a)] + insn.regNotes), AsDeletedNote(incr1)))
    else Ok((insn.(regNotes := [RegInc(a)] + insn.regNotes), incr1))
  }
}
