/** RTL expressions: the register-transfer trees that instruction patterns,
    addresses and notes are built from. Only the expression codes that the
    flow analysis and the emitter inspect have their own constructor; every
    other code is an `Op` with its operand list. */
module Rtl {

  datatype ModeClass =
    | RandomClass | IntClass | PartialIntClass | FloatClass
    | ComplexIntClass | ComplexFloatClass | CcClass

  /** A machine mode: its class and its size in bytes (GET_MODE_SIZE). */
  datatype Mode = Mode(cls: ModeClass, size: nat)

  const VoidMode: Mode := Mode(RandomClass, 0)

  datatype IncCode = PreInc | PreDec | PostInc | PostDec

  datatype Rtx =
    | Reg(mode: Mode, regno: nat)
    | Scratch(mode: Mode)
    | Mem(mode: Mode, addr: Rtx, volatile: bool)
    | ConstInt(value: int)
    | SymbolRef(name: string, inPool: bool)
      /** A LABEL_REF; `handle` is the arena handle of the CODE_LABEL it points at. */
    | LabelRef(handle: nat)
      /** A CODE_LABEL used as an expression (the argument of emit/classify). */
    | CodeLabel(handle: nat)
    | Pc
    | Return
    | Plus(op0: Rtx, op1: Rtx)
    | Minus(op0: Rtx, op1: Rtx)
    | Subreg(mode: Mode, inner: Rtx, word: nat)
    | StrictLowPart(inner: Rtx)
    | ZeroExtract(inner: Rtx, width: Rtx, pos: Rtx)
    | SignExtract(inner: Rtx, width: Rtx, pos: Rtx)
    | AutoInc(inc: IncCode, addr: Rtx)
    | Set(dest: Rtx, src: Rtx)
    | Clobber(x: Rtx)
    | Use(x: Rtx)
    | Call(fn: Rtx, nargs: Rtx)
    | Parallel(elts: seq<Rtx>)
      /** A jump table: ADDR_VEC of label references, ADDR_DIFF_VEC relative to a base. */
    | AddrVec(elts: seq<Rtx>)
    | AddrDiffVec(base: Rtx, elts: seq<Rtx>)
    | Concat(mode: Mode, op0: Rtx, op1: Rtx)
    | UnspecVolatile(elts: seq<Rtx>)
    | AsmOperands(volatile: bool, inputs: seq<Rtx>)
    | Op(code: nat, mode: Mode, ops: seq<Rtx>)

  /** The 'e' operands of `x` in format order, vector elements included;
      the walks below recurse over these. */
  function Operands(x: Rtx): (r: seq<Rtx>)
    ensures forall c | c in r :: c < x
  {
    match x
    case Mem(_, a, _) => [a]
    case Plus(a, b) => [a, b]
    case Minus(a, b) => [a, b]
    case Subreg(_, a, _) => [a]
    case StrictLowPart(a) => [a]
    case ZeroExtract(a, w, p) => [a, w, p]
    case SignExtract(a, w, p) => [a, w, p]
    case AutoInc(_, a) => [a]
    case Set(d, s) => [d, s]
    case Clobber(a) => [a]
    case Use(a) => [a]
    case Call(f, n) => [f, n]
    case Parallel(es) => es
    case AddrVec(es) => es
    case AddrDiffVec(b, es) => [b] + es
    case Concat(_, a, b) => [a, b]
    case UnspecVolatile(es) => es
    case AsmOperands(_, es) => es
    case Op(_, _, es) => es
    case _ => []
  }

  /** GET_MODE, for the codes that carry a mode here; VOIDmode for the rest. */
  function ModeOf(x: Rtx): Mode
  {
    match x
    case Reg(m, _) => m
    case Scratch(m) => m
    case Mem(m, _, _) => m
    case Subreg(m, _, _) => m
    case Concat(m, _, _) => m
    case Op(_, m, _) => m
    case _ => VoidMode
  }

  /** rtx_equal_p: structural equality. Registers are shared objects in the
      compiler, so pointer equality of REGs coincides with this. */
  predicate RtxEqual(x: Rtx, y: Rtx) { x == y }

  /** Every register number occurring in `x`. */
  function RegsIn(x: Rtx): set<nat>
    decreases x, 1
  {
    (if x.Reg? then {x.regno} else {}) + RegsInAll(x, Operands(x))
  }

  function RegsInAll(parent: Rtx, xs: seq<Rtx>): set<nat>
    requires forall c | c in xs :: c < parent
    decreases parent, 0, |xs|
  {
    if xs == [] then {}
    else
      assert xs[0] in xs && forall c | c in xs[1..] :: c in xs;
      RegsIn(xs[0]) + RegsInAll(parent, xs[1..])
  }

  /** reg_mentioned_p for a register: its number occurs somewhere in `x`. */
  predicate RegMentioned(regno: nat, x: Rtx) { regno in RegsIn(x) }

  /** side_effects_p: `x` contains an auto-increment, a call, an
      UNSPEC_VOLATILE or a volatile memory or asm reference. */
  predicate SideEffects(x: Rtx)
    decreases x, 1
  {
    match x
    case AutoInc(_, _) => true
    case Call(_, _) => true
    case UnspecVolatile(_) => true
    case Mem(_, a, v) => v || SideEffects(a)
    case AsmOperands(v, es) => v || AnySideEffects(x, es)
    case _ => AnySideEffects(x, Operands(x))
  }

  predicate AnySideEffects(parent: Rtx, xs: seq<Rtx>)
    requires forall c | c in xs :: c < parent
    decreases parent, 0, |xs|
  {
    xs != [] &&
    assert xs[0] in xs && forall c | c in xs[1..] :: c in xs;
    (SideEffects(xs[0]) || AnySideEffects(parent, xs[1..]))
  }

  /** volatile_refs_p: `x` contains an UNSPEC_VOLATILE or a volatile
      memory or asm reference. */
  predicate VolatileRefs(x: Rtx)
    decreases x, 1
  {
    match x
    case UnspecVolatile(_) => true
    case Mem(_, a, v) => v || VolatileRefs(a)
    case AsmOperands(v, es) => v || AnyVolatileRefs(x, es)
    case _ => AnyVolatileRefs(x, Operands(x))
  }

  predicate AnyVolatileRefs(parent: Rtx, xs: seq<Rtx>)
    requires forall c | c in xs :: c < parent
    decreases parent, 0, |xs|
  {
    xs != [] &&
    assert xs[0] in xs && forall c | c in xs[1..] :: c in xs;
    (VolatileRefs(xs[0]) || AnyVolatileRefs(parent, xs[1..]))
  }

  /** The destination of a SET or CLOBBER with SUBREG, STRICT_LOW_PART and
      bit-field extracts stripped, as mark_set_1 and count_reg_sets_1 do. */
  function StripDest(x: Rtx): (r: Rtx)
    ensures !r.Subreg? && !r.StrictLowPart? && !r.ZeroExtract? && !r.SignExtract?
  {
    match x
    case Subreg(_, a, _) => StripDest(a)
    case StrictLowPart(a) => StripDest(a)
    case ZeroExtract(a, _, _) => StripDest(a)
    case SignExtract(a, _, _) => StripDest(a)
    case _ => x
  }

  /** simplejump_p on a pattern: an unconditional jump (set (pc) (label_ref L)). */
  predicate SimpleJumpPattern(p: Rtx)
  {
    p.Set? && p.dest == Pc && p.src.LabelRef?
  }

  datatype Option<T> = None | Some(value: T)

  /** The outcome of a pass that can stop the compiler with abort (). */
  datatype Result<T> = Ok(value: T) | Abort
}

/** The target description the passes consult: register numbering, the
    per-register property tables and the addressing capabilities. These are
    macros and tables of the MIPS configuration; here they are parameters. */
module Machine {
  import opened Rtl

  datatype Target = Target(
    /** FIRST_PSEUDO_REGISTER */
    firstPseudo: nat,
    /** STACK_POINTER_REGNUM, FRAME_POINTER_REGNUM, HARD_FRAME_POINTER_REGNUM, ARG_POINTER_REGNUM */
    sp: nat, fp: nat, hfp: nat, ap: nat,
    /** HARD_REGNO_NREGS */
    nregs: (nat, Mode) -> nat,
    /** call_used_regs, global_regs, fixed_regs, EPILOGUE_USES */
    callUsed: set<nat>, globalRegs: set<nat>, fixedRegs: set<nat>, epilogueUses: set<nat>,
    /** HAVE_PRE_INCREMENT, HAVE_PRE_DECREMENT, HAVE_POST_INCREMENT, HAVE_POST_DECREMENT */
    havePreInc: bool, havePreDec: bool, havePostInc: bool, havePostDec: bool,
    /** UNITS_PER_WORD */
    unitsPerWord: WordBytes,
    /** STACK_GROWS_DOWNWARD */
    stackGrowsDown: bool
  )

  type WordBytes = n: nat | 0 < n witness 4

  /** REG_SIZE: the number of words a value of the mode occupies. */
  function RegSize(t: Target, m: Mode): nat
  {
    (m.size + t.unitsPerWord - 1) / t.unitsPerWord
  }

  /** The hard registers, 0 .. FIRST_PSEUDO_REGISTER-1. */
  function HardRegs(t: Target): set<nat> { Range(0, t.firstPseudo) }

  /** A target whose special registers are hard registers, whose multi-word
      hard registers stay below FIRST_PSEUDO_REGISTER, and whose register
      numbers all fit in regsets of `maxRegno` bits. */
  ghost predicate TargetOk(t: Target, maxRegno: nat)
  {
    t.firstPseudo <= maxRegno &&
    t.sp < t.firstPseudo && t.fp < t.firstPseudo && t.hfp < t.firstPseudo && t.ap < t.firstPseudo &&
    forall r: nat, m: Mode | r < t.firstPseudo :: r + t.nregs(r, m) <= t.firstPseudo
  }

  predicate IsHard(t: Target, regno: nat) { regno < t.firstPseudo }

  predicate IsGlobalHard(t: Target, regno: nat) { regno < t.firstPseudo && regno in t.globalRegs }

  /** The register numbers occupied by register `regno` in `mode`: a pseudo
      is one register, a hard register spans HARD_REGNO_NREGS words (and
      always at least itself). */
  function Words(t: Target, regno: nat, mode: Mode): (r: set<nat>)
    ensures regno in r
    ensures forall q | q in r :: regno <= q
  {
    if regno < t.firstPseudo then {regno} + Range(regno + 1, regno + t.nregs(regno, mode))
    else {regno}
  }

  /** The frame pointer, the hard frame pointer and a fixed argument pointer:
      registers whose value is always needed. */
  predicate IsFramePointerLike(t: Target, regno: nat)
  {
    regno == t.fp || regno == t.hfp || (regno == t.ap && regno in t.fixedRegs)
  }

  /** The register numbers lo .. hi-1. */
  function Range(lo: nat, hi: nat): (r: set<nat>)
    ensures forall q :: q in r <==> lo <= q < hi
    decreases hi - lo
  {
    if lo >= hi then {} else {lo} + Range(lo + 1, hi)
  }
}
