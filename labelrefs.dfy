/** mark_label_ref: the walk over an expression that records, for every
    LABEL_REF in it, a reference from the containing instruction on the
    label's LABEL_REFS chain and marks the label's block reachable. */
module LabelRefs {
  import opened Rtl
  import opened Insns

  /** An operand slot of an expression in rtx-format order: an 'e' operand
      or an 'E' vector. */
  datatype Slot = One(e: Rtx) | Many(es: seq<Rtx>)

  ghost predicate SlotBelow(s: Slot, x: Rtx)
  {
    match s
    case One(e) => e < x
    case Many(es) => forall c | c in es :: c < x
  }

  /** The 'e' and 'E' operands of each expression code, in format order. */
  function Slots(x: Rtx): (r: seq<Slot>)
    ensures forall j | 0 <= j < |r| :: SlotBelow(r[j], x)
  {
    match x
    case Mem(_, a, _) => [One(a)]
    case Plus(a, b) => [One(a), One(b)]
    case Minus(a, b) => [One(a), One(b)]
    case Subreg(_, a, _) => [One(a)]
    case StrictLowPart(a) => [One(a)]
    case ZeroExtract(a, w, p) => [One(a), One(w), One(p)]
    case SignExtract(a, w, p) => [One(a), One(w), One(p)]
    case AutoInc(_, a) => [One(a)]
    case Set(d, s) => [One(d), One(s)]
    case Clobber(a) => [One(a)]
    case Use(a) => [One(a)]
    case Call(f, n) => [One(f), One(n)]
    case Parallel(es) => [Many(es)]
    case AddrVec(es) => [Many(es)]
    case AddrDiffVec(b, es) => [One(b), Many(es)]
    case Concat(_, a, b) => [One(a), One(b)]
    case UnspecVolatile(es) => [Many(es)]
    case AsmOperands(_, es) => [Many(es)]
    case Op(_, _, es) => OneEach(x, es)
    case _ => []
  }

  function OneEach(parent: Rtx, es: seq<Rtx>): (r: seq<Slot>)
    requires forall c | c in es :: c < parent
    ensures |r| == |es|
    ensures forall j | 0 <= j < |r| :: r[j] == One(es[j]) && SlotBelow(r[j], parent)
  {
    if es == [] then []
    else
      assert es[0] in es && forall c | c in es[1..] :: c in es;
      [One(es[0])] + OneEach(parent, es[1..])
  }

  /** One LABEL_REF reached by the walk, with the CHECKDUP flag it is
      reached with (set for the elements of a vector). */
  datatype Visit = Visit(handle: nat, checkdup: bool)

  /** The LABEL_REFs of `x` in the order mark_label_ref reaches them: the
      operand slots from last to first, a vector's elements from first to
      last. */
  function Visits(x: Rtx, checkdup: bool): seq<Visit>
    decreases x, 2
  {
    if x.LabelRef? then [Visit(x.handle, checkdup)]
    else SlotsVisits(x, Slots(x))
  }

  function SlotsVisits(parent: Rtx, slots: seq<Slot>): seq<Visit>
    requires forall j | 0 <= j < |slots| :: SlotBelow(slots[j], parent)
    decreases parent, 1, |slots|
  {
    if slots == [] then []
    else
      var s := slots[|slots| - 1];
      assert SlotBelow(s, parent);
      assert forall j | 0 <= j < |slots| - 1 :: slots[..|slots| - 1][j] == slots[j];
      (match s
       case One(e) => Visits(e, false)
       case Many(es) => VecVisits(parent, es))
      + SlotsVisits(parent, slots[..|slots| - 1])
  }

  function VecVisits(parent: Rtx, es: seq<Rtx>): seq<Visit>
    requires forall c | c in es :: c < parent
    decreases parent, 0, |es|
  {
    if es == [] then []
    else
      assert es[0] in es && forall c | c in es[1..] :: c in es;
      Visits(es[0], true) + VecVisits(parent, es[1..])
  }

  /** Every LABEL_REF handle occurring in `x`. */
  function LabelsIn(x: Rtx): set<nat>
    decreases x, 1
  {
    (if x.LabelRef? then {x.handle} else {}) + LabelsInAll(x, Operands(x))
  }

  function LabelsInAll(parent: Rtx, xs: seq<Rtx>): set<nat>
    requires forall c | c in xs :: c < parent
    decreases parent, 0, |xs|
  {
    if xs == [] then {}
    else
      assert xs[0] in xs && forall c | c in xs[1..] :: c in xs;
      LabelsIn(xs[0]) + LabelsInAll(parent, xs[1..])
  }

  /** The position of the CODE_LABEL a handle names, if the chain holds one
      with that INSN_UID. */
  function LabelPos(insns: seq<Insn>, handle: nat): (r: Option<nat>)
    ensures r.Some? ==> r.value < |insns| && insns[r.value].code == LabelInsn && insns[r.value].uid == handle
  {
    var q := FindUid(insns, handle);
    if q.Some? && insns[q.value].code == LabelInsn then q else None
  }

  /** Every CODE_LABEL of the chain has a block number. */
  predicate LabelsNumbered(insns: seq<Insn>, blockOf: seq<int>)
  {
    |blockOf| == |insns| && forall k | 0 <= k < |insns| && insns[k].code == LabelInsn :: blockOf[k] >= 0
  }

  /** BLOCK_NUM of the label a handle names. */
  function LabelBlock(insns: seq<Insn>, blockOf: seq<int>, handle: nat): (b: nat)
    requires LabelsNumbered(insns, blockOf)
    requires LabelPos(insns, handle).Some?
    ensures b == blockOf[LabelPos(insns, handle).value]
  {
    blockOf[LabelPos(insns, handle).value]
  }

  /** The LABEL_REFS chain of a label: the UIDs of the referring
      instructions, most recent first. */
  function RefsOf(refs: map<nat, seq<nat>>, lbl: nat): seq<nat>
  {
    if lbl in refs then refs[lbl] else []
  }

  /** One call's worth of label reference: the label handle, the CHECKDUP
      flag and the UID of the referring instruction (CONTAINING_INSN). */
  datatype Ref = Ref(handle: nat, checkdup: bool, from: nat)

  function At(vs: seq<Visit>, from: nat): (r: seq<Ref>)
    ensures |r| == |vs|
    ensures forall j | 0 <= j < |vs| :: r[j] == Ref(vs[j].handle, vs[j].checkdup, from)
  {
    if vs == [] then [] else [Ref(vs[0].handle, vs[0].checkdup, from)] + At(vs[1..], from)
  }

  /** The effect of a run of label references: the new chains and the
      blocks marked reachable. */
  datatype Marks = Marks(refs: map<nat, seq<nat>>, live: set<nat>)

  /** The chains after one reference: a handle of 0 (a label never emitted)
      is ignored, a CHECKDUP reference whose label already has a reference
      from the same instruction is dropped, and otherwise the instruction is
      pushed on the label's chain. */
  function AfterRef(insns: seq<Insn>, v: Ref, refs: map<nat, seq<nat>>): map<nat, seq<nat>>
  {
    if v.handle == 0 || LabelPos(insns, v.handle).None? || (v.checkdup && v.from in RefsOf(refs, v.handle)) then refs
    else refs[v.handle := [v.from] + RefsOf(refs, v.handle)]
  }

  /** mark_label_ref applied to each reference in turn. One whose handle
      is no CODE_LABEL of the chain aborts: that covers the source's abort
      for an operand that is not a CODE_LABEL, and also a label that is off
      the chain, whose block the model cannot name. One that is pushed on a
      chain also marks its label's block reachable. */
  function MarkRefs(insns: seq<Insn>, blockOf: seq<int>, rs: seq<Ref>, refs: map<nat, seq<nat>>): Result<Marks>
    requires LabelsNumbered(insns, blockOf)
  {
    if rs == [] then Ok(Marks(refs, {}))
    else
      var v := rs[0];
      if v.handle == 0 then MarkRefs(insns, blockOf, rs[1..], refs)
      else if LabelPos(insns, v.handle).None? then Abort
      else if v.checkdup && v.from in RefsOf(refs, v.handle) then MarkRefs(insns, blockOf, rs[1..], refs)
      else
        var rest := MarkRefs(insns, blockOf, rs[1..], AfterRef(insns, v, refs));
        if rest.Abort? then Abort
        else Ok(Marks(rest.value.refs, rest.value.live + {LabelBlock(insns, blockOf, v.handle)}))
  }

  /** mark_label_ref (x, insn, checkdup). */
  function MarkLabelRef(insns: seq<Insn>, blockOf: seq<int>, x: Rtx, insn: nat, checkdup: bool, refs: map<nat, seq<nat>>): Result<Marks>
    requires LabelsNumbered(insns, blockOf)
  {
    MarkRefs(insns, blockOf, At(Visits(x, checkdup), insn), refs)
  }

  /** A reference that names a label the chain does not hold. */
  predicate Dangling(insns: seq<Insn>, v: Ref)
  {
    v.handle != 0 && LabelPos(insns, v.handle).None?
  }

  /** The run aborts exactly when some reference names no CODE_LABEL of
      the chain (a non-label, or a label off the chain). */
  lemma {:induction false} MarkRefsAborts(insns: seq<Insn>, blockOf: seq<int>, rs: seq<Ref>, refs: map<nat, seq<nat>>)
    requires LabelsNumbered(insns, blockOf)
    ensures MarkRefs(insns, blockOf, rs, refs).Abort? <==> exists j | 0 <= j < |rs| :: Dangling(insns, rs[j])
  {
    if rs != [] {
      MarkRefsAborts(insns, blockOf, rs[1..], AfterRef(insns, rs[0], refs));
      if exists j | 0 <= j < |rs[1..]| :: Dangling(insns, rs[1..][j]) {
        var j :| 0 <= j < |rs[1..]| && Dangling(insns, rs[1..][j]);
        assert Dangling(insns, rs[j + 1]);
      }
      if exists j | 0 <= j < |rs| :: Dangling(insns, rs[j]) {
        var j :| 0 <= j < |rs| && Dangling(insns, rs[j]);
        if j > 0 {
          assert Dangling(insns, rs[1..][j - 1]);
        }
      }
    }
  }

  /** The blocks a run marks reachable are blocks of labels it references. */
  lemma {:induction false} MarkRefsLive(insns: seq<Insn>, blockOf: seq<int>, rs: seq<Ref>, refs: map<nat, seq<nat>>, b: nat)
    requires LabelsNumbered(insns, blockOf)
    requires MarkRefs(insns, blockOf, rs, refs).Ok?
    requires b in MarkRefs(insns, blockOf, rs, refs).value.live
    ensures exists j | 0 <= j < |rs| :: rs[j].handle != 0 && LabelPos(insns, rs[j].handle).Some?
                                        && b == LabelBlock(insns, blockOf, rs[j].handle)
  {
    var refs' := AfterRef(insns, rs[0], refs);
    var m' := MarkRefs(insns, blockOf, rs[1..], refs');
    if m'.Ok? && b in m'.value.live {
      MarkRefsLive(insns, blockOf, rs[1..], refs', b);
      var j :| 0 <= j < |rs[1..]| && rs[1..][j].handle != 0 && LabelPos(insns, rs[1..][j].handle).Some?
               && b == LabelBlock(insns, blockOf, rs[1..][j].handle);
      assert rs[j + 1] == rs[1..][j];
    } else {
      assert rs[0].handle != 0 && LabelPos(insns, rs[0].handle).Some? && b == LabelBlock(insns, blockOf, rs[0].handle);
    }
  }

  /** A reference already on a chain stays there. */
  lemma {:induction false} MarkRefsKeeps(insns: seq<Insn>, blockOf: seq<int>, rs: seq<Ref>, refs: map<nat, seq<nat>>, l: nat, u: nat)
    requires LabelsNumbered(insns, blockOf)
    requires MarkRefs(insns, blockOf, rs, refs).Ok?
    requires u in RefsOf(refs, l)
    ensures u in RefsOf(MarkRefs(insns, blockOf, rs, refs).value.refs, l)
  {
    if rs != [] {
      var refs' := AfterRef(insns, rs[0], refs);
      assert u in RefsOf(refs', l);
      MarkRefsKeeps(insns, blockOf, rs[1..], refs', l, u);
    }
  }

  /** Every label a run references ends up referenced from the referring
      instruction. */
  lemma {:induction false} MarkRefsRecorded(insns: seq<Insn>, blockOf: seq<int>, rs: seq<Ref>, refs: map<nat, seq<nat>>, j: nat)
    requires LabelsNumbered(insns, blockOf)
    requires MarkRefs(insns, blockOf, rs, refs).Ok?
    requires j < |rs| && rs[j].handle != 0
    ensures rs[j].from in RefsOf(MarkRefs(insns, blockOf, rs, refs).value.refs, rs[j].handle)
  {
    var refs' := AfterRef(insns, rs[0], refs);
    if j > 0 {
      assert rs[1..][j - 1] == rs[j];
      MarkRefsRecorded(insns, blockOf, rs[1..], refs', j - 1);
    } else {
      assert rs[0].from in RefsOf(refs', rs[0].handle);
      MarkRefsKeeps(insns, blockOf, rs[1..], refs', rs[0].handle, rs[0].from);
    }
  }

  /** The chains of labels a run does not reference are unchanged. */
  lemma {:induction false} MarkRefsOthers(insns: seq<Insn>, blockOf: seq<int>, rs: seq<Ref>, refs: map<nat, seq<nat>>, l: nat)
    requires LabelsNumbered(insns, blockOf)
    requires MarkRefs(insns, blockOf, rs, refs).Ok?
    requires forall j | 0 <= j < |rs| :: rs[j].handle != l
    ensures RefsOf(MarkRefs(insns, blockOf, rs, refs).value.refs, l) == RefsOf(refs, l)
  {
    if rs != [] {
      assert rs[0].handle != l;
      assert forall j | 0 <= j < |rs[1..]| :: rs[1..][j] == rs[j + 1];
      MarkRefsOthers(insns, blockOf, rs[1..], AfterRef(insns, rs[0], refs), l);
    }
  }

  /** Every referenced label's block is marked by the run, unless the label
      already had a reference from the same instruction before it. */
  lemma {:induction false} MarkRefsCovers(insns: seq<Insn>, blockOf: seq<int>, rs: seq<Ref>, refs: map<nat, seq<nat>>, j: nat)
    requires LabelsNumbered(insns, blockOf)
    requires MarkRefs(insns, blockOf, rs, refs).Ok?
    requires j < |rs| && rs[j].handle != 0
    ensures LabelPos(insns, rs[j].handle).Some?
    ensures LabelBlock(insns, blockOf, rs[j].handle) in MarkRefs(insns, blockOf, rs, refs).value.live
            || rs[j].from in RefsOf(refs, rs[j].handle)
  {
    var v := rs[0];
    var refs' := AfterRef(insns, v, refs);
    if j > 0 {
      assert rs[1..][j - 1] == rs[j];
      MarkRefsCovers(insns, blockOf, rs[1..], refs', j - 1);
      if rs[j].from in RefsOf(refs', rs[j].handle) && !(rs[j].from in RefsOf(refs, rs[j].handle)) {
        assert rs[j].handle == v.handle;
      }
    }
  }

  /** The chains a run extends are those of labels it references, and a
      label gains only references from the referring instructions. */
  lemma {:induction false} MarkRefsNewFrom(insns: seq<Insn>, blockOf: seq<int>, rs: seq<Ref>, refs: map<nat, seq<nat>>, l: nat, u: nat)
    requires LabelsNumbered(insns, blockOf)
    requires MarkRefs(insns, blockOf, rs, refs).Ok?
    requires u in RefsOf(MarkRefs(insns, blockOf, rs, refs).value.refs, l) && !(u in RefsOf(refs, l))
    ensures exists j | 0 <= j < |rs| :: rs[j].handle == l && rs[j].from == u && l != 0
  {
    var v := rs[0];
    var refs' := AfterRef(insns, v, refs);
    if u in RefsOf(refs', l) {
      assert v.handle == l && v.from == u;
    } else {
      MarkRefsNewFrom(insns, blockOf, rs[1..], refs', l, u);
      var j :| 0 <= j < |rs[1..]| && rs[1..][j].handle == l && rs[1..][j].from == u && l != 0;
      assert rs[j + 1] == rs[1..][j];
    }
  }
}
