/** The chain searches of emit-rtl.c (next_nonnote_insn, prev_real_insn,
    next_active_insn, next_label and their kin) as functions on a chain:
    each walks NEXT_INSN or PREV_INSN from an insn and stops at the first
    insn of the kind it looks for, or at the null end. */
module InsnSearch {
  import opened Rtl
  import opened Insns
  import opened InsnChain
  import opened ChainSound
  import opened InsnArena

  /** What a search looks for. */
  datatype Search =
    | NonNote   // next_nonnote_insn, prev_nonnote_insn
    | Real      // next_real_insn, prev_real_insn: INSN, CALL_INSN, JUMP_INSN
    | Active    // next_active_insn, prev_active_insn
    | Label     // next_label, prev_label

  /** Whether a search of kind `k` stops at `n`. After reload a USE or
      CLOBBER insn does nothing and is not active. */
  predicate Stops(k: Search, reloadCompleted: bool, n: Node)
  {
    match k
    case NonNote => n.code != NoteInsn
    case Real => n.code == PlainInsn || n.code == CallInsn || n.code == JumpInsn
    case Active =>
      n.code == CallInsn || n.code == JumpInsn ||
      (n.code == PlainInsn && (!reloadCompleted || (!n.pattern.Use? && !n.pattern.Clobber?)))
    case Label => n.code == LabelInsn
  }

  ghost predicate InNodes(node: map<nat, Node>, c: seq<nat>)
  {
    forall t | 0 <= t < |c| :: c[t] in node
  }

  /** What a walk along chain `b` of a well-formed arena relies on. */
  lemma ChainFacts(a: Arena, s: Shape, b: nat)
    requires Wf(a, s) && b < |s.chains|
    ensures Linked(s.chains[b], AllEnds(a)[b], a.nextOf, a.prevOf) && NonNull(s.chains[b]) && InNodes(a.node, s.chains[b])
  {
    SoundChain(s.chains, AllEnds(a), a.nextOf, a.prevOf, s.loc, a.bound, b);
  }

  /** The first position at or after `u` where the search stops, |c| when
      there is none. */
  function NextStop(node: map<nat, Node>, c: seq<nat>, u: nat, k: Search, rc: bool): (v: nat)
    requires u <= |c| && InNodes(node, c)
    ensures u <= v <= |c| && (v < |c| ==> Stops(k, rc, node[c[v]]))
    ensures forall w | u <= w < v :: !Stops(k, rc, node[c[w]])
    decreases |c| - u
  {
    if u == |c| then u
    else if Stops(k, rc, node[c[u]]) then u
    else NextStop(node, c, u + 1, k, rc)
  }

  /** One past the last position before `u` where the search stops, 0
      when there is none. */
  function PrevStop(node: map<nat, Node>, c: seq<nat>, u: nat, k: Search, rc: bool): (v: nat)
    requires u <= |c| && InNodes(node, c)
    ensures v <= u && (v > 0 ==> Stops(k, rc, node[c[v - 1]]))
    ensures forall w | v <= w < u :: !Stops(k, rc, node[c[w]])
    decreases u
  {
    if u == 0 then 0
    else if Stops(k, rc, node[c[u - 1]]) then u
    else PrevStop(node, c, u - 1, k, rc)
  }

  /** A search runs off the end exactly when nothing from `u` on stops it. */
  lemma NextStopNone(node: map<nat, Node>, c: seq<nat>, u: nat, k: Search, rc: bool)
    requires u <= |c| && InNodes(node, c)
    ensures NextStop(node, c, u, k, rc) == |c| <==> forall w | u <= w < |c| :: !Stops(k, rc, node[c[w]])
  {
  }

  /** A search that stops at a position stops at the same place when
      started anywhere between it and the start. */
  lemma {:induction false} NextStopFrom(node: map<nat, Node>, c: seq<nat>, u: nat, w: nat, k: Search, rc: bool)
    requires u <= |c| && InNodes(node, c) && u <= w <= NextStop(node, c, u, k, rc)
    ensures NextStop(node, c, w, k, rc) == NextStop(node, c, u, k, rc)
    decreases w - u
  {
    if u < w {
      NextStopFrom(node, c, u + 1, w, k, rc);
    }
  }

  /** The non-note search stops at every real insn: next_nonnote_insn
      never skips past what next_real_insn can find. */
  lemma NonNoteBeforeReal(node: map<nat, Node>, c: seq<nat>, u: nat, rc: bool)
    requires u <= |c| && InNodes(node, c)
    ensures NextStop(node, c, u, NonNote, rc) <= NextStop(node, c, u, Real, rc)
    ensures PrevStop(node, c, u, Real, rc) <= PrevStop(node, c, u, NonNote, rc)
  {
    var v := NextStop(node, c, u, Real, rc);
    if v < |c| {
      assert Stops(NonNote, rc, node[c[v]]);
    }
    var p := PrevStop(node, c, u, Real, rc);
    if p > 0 {
      assert Stops(NonNote, rc, node[c[p - 1]]);
    }
  }

  /** Until reload has completed the active search is the real one. */
  lemma ActiveIsRealBeforeReload(node: map<nat, Node>, c: seq<nat>, u: nat)
    requires u <= |c| && InNodes(node, c)
    ensures NextStop(node, c, u, Active, false) == NextStop(node, c, u, Real, false)
    ensures PrevStop(node, c, u, Active, false) == PrevStop(node, c, u, Real, false)
  {
    assert forall n: Node :: Stops(Active, false, n) == Stops(Real, false, n);
    SameNextStops(node, c, u, Active, Real, false);
    SamePrevStops(node, c, u, Active, Real, false);
  }

  lemma {:induction false} SameNextStops(node: map<nat, Node>, c: seq<nat>, u: nat, k: Search, k': Search, rc: bool)
    requires u <= |c| && InNodes(node, c)
    requires forall n: Node :: Stops(k, rc, n) == Stops(k', rc, n)
    ensures NextStop(node, c, u, k, rc) == NextStop(node, c, u, k', rc)
    decreases |c| - u
  {
    if u < |c| {
      SameNextStops(node, c, u + 1, k, k', rc);
    }
  }

  lemma {:induction false} SamePrevStops(node: map<nat, Node>, c: seq<nat>, u: nat, k: Search, k': Search, rc: bool)
    requires u <= |c| && InNodes(node, c)
    requires forall n: Node :: Stops(k, rc, n) == Stops(k', rc, n)
    ensures PrevStop(node, c, u, k, rc) == PrevStop(node, c, u, k', rc)
    decreases u
  {
    if u > 0 {
      SamePrevStops(node, c, u - 1, k, k', rc);
    }
  }
}
