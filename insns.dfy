/** Instructions as the flow pass sees them: the insn codes, the NOTE
    kinds it reacts to and the register notes it reads or attaches. An
    instruction chain is a sequence in NEXT_INSN order; labels and the
    targets of REG_RETVAL/REG_LIBCALL/REG_LABEL notes are named by the
    INSN_UID of the instruction they point at (0: a label never emitted). */
module Insns {
  import opened Rtl

  datatype InsnCode = PlainInsn | JumpInsn | CallInsn | LabelInsn | BarrierInsn | NoteInsn

  /** NOTE_LINE_NUMBER of a NOTE: the negative note kinds flow.c tests, or a
      source line. The EH region notes carry NOTE_BLOCK_NUMBER. */
  datatype NoteKind =
    | NoteDeleted
    | NoteLoopBeg
    | NoteLoopEnd
    | NoteEhRegionBeg(region: nat)
    | NoteEhRegionEnd(region: nat)
    | NoteSetjmp
    | NoteLine(line: int)
    | NoteOtherKind

  datatype RegNote =
    | RegDead(reg: Rtx)
    | RegUnused(reg: Rtx)
    | RegInc(reg: Rtx)
    | RegEqual(value: Rtx)
      /** REG_LABEL: the instruction refers to the label as data. */
    | RegLabel(labelUid: nat)
      /** REG_RETVAL on the last insn of a libcall, naming its first insn. */
    | RegRetval(first: nat)
      /** REG_LIBCALL on the first insn of a libcall, naming its last insn. */
    | RegLibcall(last: nat)
    | RegOtherNote

  datatype Insn = Insn(
    uid: nat,
    code: InsnCode,
    pattern: Rtx,
    note: NoteKind,
    regNotes: seq<RegNote>,
    /** LABEL_PRESERVE_P of a CODE_LABEL */
    preserve: bool,
    /** CALL_INSN_FUNCTION_USAGE of a CALL_INSN */
    callUsage: seq<Rtx>
  )

  /** GET_RTX_CLASS (code) == 'i': an INSN, JUMP_INSN or CALL_INSN. */
  predicate IsReal(code: InsnCode)
  {
    code == PlainInsn || code == JumpInsn || code == CallInsn
  }

  predicate HasRetval(x: Insn)
  {
    exists k | 0 <= k < |x.regNotes| :: x.regNotes[k].RegRetval?
  }

  predicate HasLibcall(x: Insn)
  {
    exists k | 0 <= k < |x.regNotes| :: x.regNotes[k].RegLibcall?
  }

  predicate HasRegEqual(x: Insn)
  {
    exists k | 0 <= k < |x.regNotes| :: x.regNotes[k].RegEqual?
  }

  /** A real instruction that carries a REG_LIBCALL / REG_RETVAL note: the
      points at which the libcall tracking flag is raised and lowered. */
  predicate StartsLibcall(x: Insn) { IsReal(x.code) && HasLibcall(x) }

  predicate EndsLibcall(x: Insn) { IsReal(x.code) && HasRetval(x) }

  /** The labels named by the REG_LABEL notes of an instruction, in note order. */
  function LabelNotes(notes: seq<RegNote>): (r: seq<nat>)
    ensures forall l :: l in r <==> exists k | 0 <= k < |notes| :: notes[k] == RegLabel(l)
  {
    if notes == [] then []
    else
      var rest := LabelNotes(notes[1..]);
      assert forall k | 1 <= k < |notes| :: notes[k] == notes[1..][k - 1];
      if notes[0].RegLabel? then [notes[0].labelUid] + rest else rest
  }

  /** The list of a note list is made note by note: a single note gives its
      label exactly when it is a REG_LABEL, and the labels of two lists
      side by side are those of the first followed by those of the
      second. So the list holds the REG_LABEL notes' labels in note order,
      each as often as it is noted, and nothing else. */
  lemma {:induction false} LabelNotesAppend(a: seq<RegNote>, b: seq<RegNote>)
    ensures |b| == 1 ==> LabelNotes(b) == (if b[0].RegLabel? then [b[0].labelUid] else [])
    ensures LabelNotes(a + b) == LabelNotes(a) + LabelNotes(b)
  {
    if |b| == 1 {
      assert b[1..] == [];
    }
    if a == [] {
      assert a + b == b;
    } else {
      assert (a + b)[1..] == a[1..] + b;
      LabelNotesAppend(a[1..], b);
    }
  }

  /** A PARALLEL element that single_set counts: a SET whose destination
      carries no REG_UNUSED note, or one with side effects. */
  predicate CountedSet(notes: seq<RegNote>, e: Rtx)
  {
    e.Set? && (RegUnused(e.dest) !in notes || SideEffects(e))
  }

  /** Element k is the one counted SET of `es`. */
  predicate OnlyCounted(notes: seq<RegNote>, es: seq<Rtx>, k: nat)
  {
    k < |es| && CountedSet(notes, es[k]) &&
    forall m | 0 <= m < |es| && m != k :: !CountedSet(notes, es[m])
  }

  /** single_set's loop over the elements of a PARALLEL from i on, `found`
      being the counted SET seen so far: a second one gives none. */
  function SingleSetFrom(notes: seq<RegNote>, es: seq<Rtx>, i: nat, found: Option<Rtx>): Option<Rtx>
    requires i <= |es|
    decreases |es| - i
  {
    if i == |es| then found
    else if CountedSet(notes, es[i]) then
      if found.Some? then None else SingleSetFrom(notes, es, i + 1, Some(es[i]))
    else SingleSetFrom(notes, es, i + 1, found)
  }

  /** single_set (insn): the pattern of a real instruction when it is a SET;
      for a PARALLEL, its one counted SET. rtlanal.c is not part of this
      model; this is single_set of the same release. */
  function SingleSet(x: Insn): (r: Option<Rtx>)
    ensures r.Some? ==> r.value.Set? && IsReal(x.code)
    ensures IsReal(x.code) && x.pattern.Set? ==> r == Some(x.pattern)
    ensures !x.pattern.Set? && !x.pattern.Parallel? ==> r.None?
  {
    if !IsReal(x.code) then None
    else if x.pattern.Set? then Some(x.pattern)
    else if x.pattern.Parallel? then
      SingleSetFromSpec(x.regNotes, x.pattern.elts, 0, None, 0);
      SingleSetFrom(x.regNotes, x.pattern.elts, 0, None)
    else None
  }

  /** The loop from i, given that `found` is element j, the only counted
      SET before i (or that there is none when `found` is None), ends with
      the one counted SET of the whole list, and with none exactly when
      there is no such element. */
  lemma {:induction false} SingleSetFromSpec(notes: seq<RegNote>, es: seq<Rtx>, i: nat, found: Option<Rtx>, j: nat)
    requires i <= |es|
    requires found.None? ==> forall m | 0 <= m < i :: !CountedSet(notes, es[m])
    requires found.Some? ==> j < i && es[j] == found.value && CountedSet(notes, es[j]) &&
                             forall m | 0 <= m < i && m != j :: !CountedSet(notes, es[m])
    ensures var r := SingleSetFrom(notes, es, i, found);
      (r.Some? <==> exists k: nat :: OnlyCounted(notes, es, k)) &&
      (r.Some? ==> r.value.Set? && exists k: nat :: OnlyCounted(notes, es, k) && es[k] == r.value)
    decreases |es| - i
  {
    if i == |es| {
      if found.Some? {
        assert OnlyCounted(notes, es, j);
      } else {
        assert forall k: nat :: !OnlyCounted(notes, es, k);
      }
    } else if CountedSet(notes, es[i]) {
      if found.Some? {
        forall k: nat ensures !OnlyCounted(notes, es, k) {
          if k == j { assert i != k && CountedSet(notes, es[i]); }
          else { assert j != k && CountedSet(notes, es[j]); }
        }
      } else {
        SingleSetFromSpec(notes, es, i + 1, Some(es[i]), i);
      }
    } else {
      SingleSetFromSpec(notes, es, i + 1, found, j);
    }
  }

  /** single_set on a real PARALLEL: a SET exactly when one element is the
      only counted SET, and then that element. */
  lemma SingleSetParallel(x: Insn)
    requires IsReal(x.code) && x.pattern.Parallel?
    ensures SingleSet(x).Some? <==> exists k: nat :: OnlyCounted(x.regNotes, x.pattern.elts, k)
    ensures SingleSet(x).Some? ==> exists k: nat :: OnlyCounted(x.regNotes, x.pattern.elts, k) && x.pattern.elts[k] == SingleSet(x).value
  {
    SingleSetFromSpec(x.regNotes, x.pattern.elts, 0, None, 0);
  }

  /** PUT_CODE (insn, NOTE); NOTE_LINE_NUMBER (insn) = NOTE_INSN_DELETED. */
  function AsDeletedNote(x: Insn): (r: Insn)
    ensures r.code == NoteInsn && r.note == NoteDeleted && r.uid == x.uid
  {
    x.(code := NoteInsn, note := NoteDeleted)
  }

  /** The position of the instruction with the given UID, if any. */
  function FindUid(insns: seq<Insn>, uid: nat): (r: Option<nat>)
    ensures r.Some? ==> r.value < |insns| && insns[r.value].uid == uid
    ensures r.None? ==> forall k | 0 <= k < |insns| :: insns[k].uid != uid
  {
    if insns == [] then None
    else if insns[|insns| - 1].uid == uid then Some(|insns| - 1)
    else FindUid(insns[..|insns| - 1], uid)
  }
}
