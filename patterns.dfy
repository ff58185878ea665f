/** The two pure helpers of emit-rtl.c that look at a pattern or a value
    alone: classify_insn, which picks the kind of insn a pattern needs, and
    gen_rtx_CONST_INT, which shares the CONST_INTs of small values. */
module Patterns {
  import opened Rtl
  import opened Insns

  // ---------------------------------------------------------------- classify_insn

  /** What one element of a PARALLEL says about the insn kind: a CALL or a
      SET whose source is a CALL makes a CALL_INSN, a SET of pc a JUMP_INSN. */
  function Decisive(e: Rtx): Option<InsnCode>
  {
    if e.Call? then Some(CallInsn)
    else if e.Set? && e.dest == Pc then Some(JumpInsn)
    else if e.Set? && e.src.Call? then Some(CallInsn)
    else None
  }

  /** The scan over PARALLEL elements from index j - 1 down to 0: the first
      decisive element met wins, and INSN when there is none. */
  function ScanParallel(es: seq<Rtx>, j: nat): (r: InsnCode)
    requires j <= |es|
    ensures r == PlainInsn || r == CallInsn || r == JumpInsn
    decreases j
  {
    if j == 0 then PlainInsn
    else if Decisive(es[j - 1]).Some? then Decisive(es[j - 1]).value
    else ScanParallel(es, j - 1)
  }

  /** classify_insn. */
  function ClassifyInsn(x: Rtx): (r: InsnCode)
    ensures r != BarrierInsn && r != NoteInsn
  {
    if x.CodeLabel? then LabelInsn
    else if x.Call? then CallInsn
    else if x.Return? then JumpInsn
    else if x.Set? then
      if x.dest == Pc then JumpInsn
      else if x.src.Call? then CallInsn
      else PlainInsn
    else if x.Parallel? then ScanParallel(x.elts, |x.elts|)
    else PlainInsn
  }

  /** The scan below j finds the decisive element with the largest index,
      and none when there is none. */
  lemma {:induction false} ScanParallelLast(es: seq<Rtx>, j: nat)
    requires j <= |es|
    ensures var r := ScanParallel(es, j);
      (r == PlainInsn <==> forall k | 0 <= k < j :: Decisive(es[k]).None?) &&
      (r != PlainInsn ==> exists k | 0 <= k < j :: Decisive(es[k]) == Some(r) &&
                                                  forall m | k < m < j :: Decisive(es[m]).None?)
    decreases j
  {
    if j > 0 && Decisive(es[j - 1]).None? {
      ScanParallelLast(es, j - 1);
      var r := ScanParallel(es, j);
      if r != PlainInsn {
        var k :| 0 <= k < j - 1 && Decisive(es[k]) == Some(r) && forall m | k < m < j - 1 :: Decisive(es[m]).None?;
        assert forall m | k < m < j :: Decisive(es[m]).None?;
      }
    }
  }

  /** The kinds classify_insn gives, case by case: a label stays a label;
      RETURN and a SET of pc are jumps; a CALL, or a SET from one, is a
      call; any other SET is an INSN; a PARALLEL takes the kind of its last decisive element. */
  lemma ClassifyInsnCases(x: Rtx)
    ensures x.CodeLabel? <==> ClassifyInsn(x) == LabelInsn
    ensures (x.Return? || (x.Set? && x.dest == Pc)) ==> ClassifyInsn(x) == JumpInsn
    ensures (x.Call? || (x.Set? && x.dest != Pc && x.src.Call?)) ==> ClassifyInsn(x) == CallInsn
    ensures x.Set? && x.dest != Pc && !x.src.Call? ==> ClassifyInsn(x) == PlainInsn
    ensures !x.CodeLabel? && !x.Call? && !x.Return? && !x.Set? && !x.Parallel? ==> ClassifyInsn(x) == PlainInsn
    ensures x.Parallel? ==>
      (ClassifyInsn(x) == PlainInsn <==> forall k | 0 <= k < |x.elts| :: Decisive(x.elts[k]).None?)
    ensures x.Parallel? && ClassifyInsn(x) != PlainInsn ==>
      exists k | 0 <= k < |x.elts| :: Decisive(x.elts[k]) == Some(ClassifyInsn(x)) &&
                                     forall m | k < m < |x.elts| :: Decisive(x.elts[m]).None?
  {
    if x.Parallel? {
      ScanParallelLast(x.elts, |x.elts|);
    }
  }

  // ---------------------------------------------------------------- gen_rtx_CONST_INT

  /** MAX_SAVED_CONST_INT (rtl.h): the values -64 .. 64 have one shared
      CONST_INT each. */
  const MaxSavedConstInt: int := 64

  /** A CONST_INT object: slot i of const_int_rtx, or a fresh one. */
  datatype ConstIntObj = Shared(slot: nat) | Fresh(value: int)

  /** The INTVAL of a CONST_INT object. */
  function IntVal(c: ConstIntObj): int
  {
    match c
    case Shared(i) => i - MaxSavedConstInt
    case Fresh(v) => v
  }

  /** gen_rtx_CONST_INT. STORE_FLAG_VALUE is 1 on this target, so the
      const_true_rtx case is not compiled in. */
  function GenConstInt(arg: int): (r: ConstIntObj)
    ensures r.Shared? ==> r.slot <= 2 * MaxSavedConstInt
  {
    if -MaxSavedConstInt <= arg <= MaxSavedConstInt then Shared(arg + MaxSavedConstInt)
    else Fresh(arg)
  }

  /** The object carries the value asked for, and it is the shared one
      exactly for the values in range. */
  lemma GenConstIntValue(arg: int)
    ensures IntVal(GenConstInt(arg)) == arg
    ensures GenConstInt(arg).Shared? <==> -MaxSavedConstInt <= arg <= MaxSavedConstInt
  {
  }

  /** Two requests for small values give the same object exactly when the
      values agree, and a shared object is never handed out for a large one. */
  lemma GenConstIntSharing(a: int, b: int)
    requires -MaxSavedConstInt <= a <= MaxSavedConstInt
    ensures GenConstInt(a) == GenConstInt(b) <==> a == b
  {
    GenConstIntValue(a);
    GenConstIntValue(b);
  }
}
