/** The emitter's instruction arena as one value: every instruction the
    emitter has allocated (handles 1 .. bound-1; 0 is the null pointer),
    their NEXT_INSN / PREV_INSN fields, first_insn / last_insn and the
    endpoints saved on the sequence stack. Each operation of emit-rtl.c
    that rewrites pointers is a function from an arena to the next one,
    written in the order the source performs its stores, and each comes
    with a lemma that it keeps the arena well formed and what it does to
    the chains. */
module InsnArena {
  import opened Rtl
  import opened Insns
  import opened InsnChain
  import opened ChainSound

  /** The fields of an instruction the emitter reads or sets. */
  datatype Node = Node(
    code: InsnCode,
    uid: nat,
    pattern: Rtx,
    /** INSN_DELETED_P */
    deleted: bool,
    /** RTX_FRAME_RELATED_P */
    frameRelated: bool,
    /** CALL_INSN_FUNCTION_USAGE of a CALL_INSN */
    usage: seq<Rtx>,
    /** CODE_LABEL_NUMBER of a CODE_LABEL */
    labelNumber: nat,
    /** NOTE_SOURCE_FILE and NOTE_LINE_NUMBER of a NOTE */
    noteFile: Option<string>,
    noteLine: int)

  /** The zeroed pattern slot of an insn that has no pattern. */
  const NoPattern: Rtx := Op(0, VoidMode, [])

  /** A freshly allocated insn: rtx_alloc clears every field. */
  function Blank(code: InsnCode, uid: nat, pattern: Rtx): Node
  {
    Node(code, uid, pattern, false, false, [], 0, None, 0)
  }

  datatype Arena = Arena(
    node: map<nat, Node>,
    nextOf: Links,
    prevOf: Links,
    /** first_insn and last_insn */
    first: nat,
    last: nat,
    /** The (first, last) pairs saved by the pending start_sequence calls,
        innermost last. */
    stack: seq<Ends>,
    /** The next handle rtx_alloc hands out. */
    bound: nat)

  /** The chains the pointers spell out: chains[k] is the chain saved in
      stack[k], the last one is the current chain. */
  datatype Shape = Shape(chains: seq<seq<nat>>, loc: Loc)

  /** The ends of every chain, the current one last. */
  function AllEnds(a: Arena): seq<Ends>
  {
    a.stack + [Ends(a.first, a.last)]
  }

  ghost predicate Wf(a: Arena, s: Shape)
  {
    |s.chains| == |a.stack| + 1 && a.bound > 0 &&
    Sound(s.chains, AllEnds(a), a.nextOf, a.prevOf, s.loc, a.bound) &&
    (forall h | 0 < h < a.bound :: h in a.node)
  }

  /** Chain `b` replaced by `c`. */
  ghost function Reshaped(s: Shape, b: nat, c: seq<nat>): Shape
    requires b < |s.chains| && Distinct(c)
  {
    Shape(s.chains[b := c], Relocate(s.loc, b, c))
  }

  /** The current chain dropped. */
  ghost function Dropped(s: Shape): Shape
    requires |s.chains| > 0
  {
    var n := |s.chains| - 1;
    Shape(s.chains[..n], map h | h in s.loc && s.loc[h].0 < n :: s.loc[h])
  }

  /** A chain of detached insns `d` from `first` to `last`: each points at
      its neighbours, and the last one's NEXT_INSN is null. */
  ghost predicate FreeRun(a: Arena, s: Shape, d: seq<nat>, first: nat, last: nat)
  {
    first == At(d, 0) && last == Before(d, |d|) && RunLinked(d, a.nextOf, a.prevOf) &&
    (d != [] ==> a.nextOf[last] == 0) && Distinct(d) && Detached(d, s.loc, a.bound)
  }

  // ---------------------------------------------------------------- rtx_alloc

  /** rtx_alloc: handle `bound` holds `n`, with null links. */
  function WithNode(a: Arena, n: Node): Arena
  {
    a.(node := a.node[a.bound := n], nextOf := Link(a.nextOf, a.bound, 0), prevOf := Link(a.prevOf, a.bound, 0),
       bound := a.bound + 1)
  }

  /** The new insn is on no chain, and the chains are untouched. */
  lemma WithNodeWf(a: Arena, s: Shape, n: Node)
    requires Wf(a, s)
    ensures a.bound !in s.loc && Wf(WithNode(a, n), s)
  {
    AllocSound(s.chains, AllEnds(a), a.nextOf, a.prevOf, s.loc, a.bound);
  }

  /** Changing the contents of insns keeps the arena well formed. */
  lemma RenodedWf(a: Arena, s: Shape, node: map<nat, Node>)
    requires Wf(a, s) && a.node.Keys <= node.Keys
    ensures Wf(a.(node := node), s)
  {
  }

  // ---------------------------------------------------------------- add_insn

  /** add_insn: `h` linked after last_insn. */
  function Appended(a: Arena, h: nat): Arena
  {
    var nx := Link(a.nextOf, h, 0);
    a.(prevOf := Link(a.prevOf, h, a.last),
       nextOf := if a.last != 0 then Link(nx, a.last, h) else nx,
       first := if a.first == 0 then h else a.first,
       last := h)
  }

  /** add_insn: the detached `h` is appended to the current chain, the
      last of `chains`, whose ends are `first` and `last`; the primed
      arguments are the state afterwards. */
  lemma AppendSound(chains: seq<seq<nat>>, stack: seq<Ends>, first: nat, last: nat, nx: Links, pv: Links,
                    loc: Loc, bound: nat, h: nat,
                    chains': seq<seq<nat>>, first': nat, last': nat, nx': Links, pv': Links, loc': Loc)
    requires |chains| == |stack| + 1 && Sound(chains, stack + [Ends(first, last)], nx, pv, loc, bound)
    requires 0 < h < bound && h !in loc
    requires first' == (if first == 0 then h else first) && last' == h
    requires nx' == (if last != 0 then Link(Link(nx, h, 0), last, h) else Link(nx, h, 0)) && pv' == Link(pv, h, last)
    requires chains' == chains[|stack| := chains[|stack|] + [h]]
    requires Distinct(chains[|stack|] + [h]) ==> loc' == Relocate(loc, |stack|, chains[|stack|] + [h])
    ensures Distinct(chains[|stack|] + [h])
    ensures Sound(chains', stack + [Ends(first', last')], nx', pv', loc', bound)
  {
    var a := |stack|;
    var ends := stack + [Ends(first, last)];
    var c := chains[a];
    SoundChain(chains, ends, nx, pv, loc, bound, a);
    EndOnChain(chains, ends, nx, pv, loc, bound, a);
    InsertSound(chains, ends, nx, pv, loc, bound, a, |c|, [h], Ends(first', h), nx', pv');
    SnocAsInsert(c, h);
    SetLast(stack, Ends(first, last), Ends(first', h));
  }

  /** add_insn makes `h` the last member of the current chain. */
  lemma AppendedWf(a: Arena, s: Shape, h: nat)
    requires Wf(a, s) && 0 < h < a.bound && h !in s.loc
    ensures var c := s.chains[|a.stack|] + [h];
      Distinct(c) && Wf(Appended(a, h), Reshaped(s, |a.stack|, c))
  {
    var c := s.chains[|a.stack|];
    LocatedDistinct(s.chains, s.loc, |a.stack|);
    assert Distinct(c + [h]) by {
      assert forall i | 0 <= i < |c| :: c[i] in s.loc;
    }
    var a' := Appended(a, h);
    var s' := Reshaped(s, |a.stack|, c + [h]);
    AppendSound(s.chains, a.stack, a.first, a.last, a.nextOf, a.prevOf, s.loc, a.bound, h,
                s'.chains, a'.first, h, a'.nextOf, a'.prevOf, s'.loc);
  }

  /** A placed insn sits where `loc` says. */
  lemma Placed(a: Arena, s: Shape, h: nat)
    requires Wf(a, s) && h in s.loc
    ensures s.loc[h].0 < |s.chains| && s.loc[h].1 < |s.chains[s.loc[h].0]| && s.chains[s.loc[h].0][s.loc[h].1] == h
    ensures 0 < h < a.bound && h in a.node
  {
  }
  // ---------------------------------------------------------------- the sequence stack scans

  function EndAt(e: Ends, front: bool): nat
  {
    if front then e.first else e.last
  }

  /** The innermost pending sequence whose saved first insn (`front`) or
      last insn is `x`. */
  function InnermostSlot(stack: seq<Ends>, x: nat, front: bool): (r: Option<nat>)
    ensures r.Some? ==> r.value < |stack| && EndAt(stack[r.value], front) == x
    decreases |stack|
  {
    if stack == [] then None
    else if EndAt(stack[|stack| - 1], front) == x then Some(|stack| - 1)
    else InnermostSlot(stack[..|stack| - 1], x, front)
  }

  /** The scan stops at the innermost match and finds one when there is one. */
  lemma {:induction false} InnermostSlotSpec(stack: seq<Ends>, x: nat, front: bool)
    ensures var r := InnermostSlot(stack, x, front);
      (r.None? ==> forall j | 0 <= j < |stack| :: EndAt(stack[j], front) != x) &&
      (r.Some? ==> forall j | r.value < j < |stack| :: EndAt(stack[j], front) != x)
    decreases |stack|
  {
    if stack != [] && EndAt(stack[|stack| - 1], front) != x {
      var p := stack[..|stack| - 1];
      InnermostSlotSpec(p, x, front);
      assert forall j | 0 <= j < |p| :: p[j] == stack[j];
    }
  }

  lemma {:induction false} InnermostSlotIs(stack: seq<Ends>, x: nat, front: bool, b: nat)
    requires b < |stack| && EndAt(stack[b], front) == x
    requires forall j | b < j < |stack| :: EndAt(stack[j], front) != x
    ensures InnermostSlot(stack, x, front) == Some(b)
    decreases |stack|
  {
    if b + 1 < |stack| {
      var p := stack[..|stack| - 1];
      assert forall j | 0 <= j < |p| :: p[j] == stack[j];
      InnermostSlotIs(p, x, front, b);
    }
  }

  // ---------------------------------------------------------------- add_insn_after, emit_insns_after

  /** The stores that put the run first .. last between `after` and its
      old successor. */
  function SpliceLinks(a: Arena, first: nat, last: nat, after: nat): Arena
    requires after in a.nextOf
  {
    var follow := a.nextOf[after];
    var pv := Link(a.prevOf, first, after);
    a.(nextOf := Link(Link(a.nextOf, after, first), last, follow),
       prevOf := if follow != 0 then Link(pv, follow, last) else pv)
  }

  /** add_insn_after (first == last == the insn) and emit_insns_after as
      add_insn_after does it: when `after` ends its chain, last_insn or the
      matching saved end moves to `last`; `slot` is the stack scan's result
      and None when the scan finds nothing (the source aborts). */
  function SplicedAfter(a: Arena, first: nat, last: nat, after: nat, slot: Option<nat>): Option<Arena>
    requires after in a.nextOf && (slot.Some? ==> slot.value < |a.stack|)
  {
    var a' := SpliceLinks(a, first, last, after);
    if a.nextOf[after] != 0 then Some(a')
    else if a.last == after then Some(a'.(last := last))
    else if slot.Some? then Some(a'.(stack := a.stack[slot.value := Ends(a.stack[slot.value].first, last)]))
    else None
  }

  /** The end fix-up of SplicedAfter: the scan finds the chain `after`
      ends, and the ends of the new chain are the ones recorded. */
  lemma SplicedEnds(a: Arena, s: Shape, first: nat, last: nat, after: nat, b: nat, t: nat)
    requires Wf(a, s) && after in s.loc && s.loc[after] == (b, t)
    ensures after in a.nextOf && b < |AllEnds(a)| && t < |s.chains[b]|
    ensures var ends := AllEnds(a);
      var r := SplicedAfter(a, first, last, after, InnermostSlot(a.stack, after, false));
      r.Some? && AllEnds(r.value) == ends[b := Ends(ends[b].first, if t + 1 == |s.chains[b]| then last else ends[b].last)]
  {
    var ends := AllEnds(a);
    var c := s.chains[b];
    NullNextIsLast(s.chains, ends, a.nextOf, a.prevOf, s.loc, a.bound, after);
    var slot := InnermostSlot(a.stack, after, false);
    var a' := SpliceLinks(a, first, last, after);
    var r := SplicedAfter(a, first, last, after, slot);
    var e := Ends(ends[b].first, if t + 1 == |c| then last else ends[b].last);
    if a.nextOf[after] != 0 {
      assert r == Some(a');
      assert e == ends[b];
      assert AllEnds(a') == ends;
    } else if a.last == after {
      assert r == Some(a'.(last := last));
      assert b == |a.stack| by {
        EndOnChain(s.chains, ends, a.nextOf, a.prevOf, s.loc, a.bound, |a.stack|);
      }
      SetLast(a.stack, Ends(a.first, a.last), Ends(a.first, last));
    } else {
      assert b != |a.stack|;
      assert ends[b] == a.stack[b];
      SlotOfEnd(a, s, after, false, b);
      assert r == Some(a'.(stack := a.stack[b := Ends(a.stack[b].first, last)]));
      SetInner(a.stack, Ends(a.first, a.last), b, Ends(a.stack[b].first, last));
    }
  }

  /** A saved end of chain b is found by the stack scan at slot b. */
  lemma SlotOfEnd(a: Arena, s: Shape, x: nat, front: bool, b: nat)
    requires Wf(a, s) && b < |a.stack| && x != 0 && EndAt(a.stack[b], front) == x
    ensures InnermostSlot(a.stack, x, front) == Some(b)
  {
    var ends := AllEnds(a);
    EndOnChain(s.chains, ends, a.nextOf, a.prevOf, s.loc, a.bound, b);
    assert ends[b] == a.stack[b];
    forall j | b < j < |a.stack| ensures EndAt(a.stack[j], front) != x {
      EndOnChain(s.chains, ends, a.nextOf, a.prevOf, s.loc, a.bound, j);
      assert ends[j] == a.stack[j];
    }
    InnermostSlotIs(a.stack, x, front, b);
  }

  /** Splicing the detached run `d` after `after`, which sits at position
      t of chain b, makes chain b c[..t+1] + d + c[t+1..]. */
  lemma SplicedAfterWf(a: Arena, s: Shape, d: seq<nat>, after: nat, b: nat, t: nat)
    requires Wf(a, s) && after in s.loc && s.loc[after] == (b, t)
    requires d != [] && Distinct(d) && Detached(d, s.loc, a.bound) && RunLinked(d, a.nextOf, a.prevOf)
    ensures after in a.nextOf && b < |s.chains| && t < |s.chains[b]|
    ensures var r := SplicedAfter(a, d[0], d[|d| - 1], after, InnermostSlot(a.stack, after, false));
      var c' := s.chains[b][..t + 1] + d + s.chains[b][t + 1..];
      r.Some? && Distinct(c') && Wf(r.value, Reshaped(s, b, c'))
  {
    var ends := AllEnds(a);
    SplicedEnds(a, s, d[0], d[|d| - 1], after, b, t);
    var slot := InnermostSlot(a.stack, after, false);
    var r := SplicedAfter(a, d[0], d[|d| - 1], after, slot).value;
    SplicedAfterKeeps(a, d[0], d[|d| - 1], after, slot);
    var e' := Ends(ends[b].first, if t + 1 == |s.chains[b]| then d[|d| - 1] else ends[b].last);
    AfterSound(s.chains, ends, a.nextOf, a.prevOf, s.loc, a.bound, b, t, d, r.nextOf, r.prevOf, e');
    var c' := s.chains[b][..t + 1] + d + s.chains[b][t + 1..];
    WfFrom(a, s, r, Reshaped(s, b, c'), ends[b := e']);
  }

  /** SplicedAfter stores the links of SpliceLinks and keeps the insns. */
  lemma SplicedAfterKeeps(a: Arena, first: nat, last: nat, after: nat, slot: Option<nat>)
    requires after in a.nextOf && (slot.Some? ==> slot.value < |a.stack|)
    ensures var r := SplicedAfter(a, first, last, after, slot); var a' := SpliceLinks(a, first, last, after);
      r.Some? ==> r.value.nextOf == a'.nextOf && r.value.prevOf == a'.prevOf && r.value.node == a.node &&
                  r.value.bound == a.bound && |r.value.stack| == |a.stack|
  {
  }

  /** An arena whose chains are sound, with the insns of a well-formed one. */
  lemma WfFrom(a: Arena, s: Shape, r: Arena, s': Shape, ends: seq<Ends>)
    requires Wf(a, s) && r.node == a.node && r.bound == a.bound && |r.stack| == |a.stack| && |s'.chains| == |a.stack| + 1
    requires AllEnds(r) == ends && Sound(s'.chains, ends, r.nextOf, r.prevOf, s'.loc, r.bound)
    ensures Wf(r, s')
  {
  }

  /** The chains after the stores of SpliceLinks, on the raw link maps. */
  lemma AfterSound(chains: seq<seq<nat>>, ends: seq<Ends>, nx: Links, pv: Links, loc: Loc, bound: nat,
                   b: nat, t: nat, d: seq<nat>, nx': Links, pv': Links, e': Ends)
    requires Sound(chains, ends, nx, pv, loc, bound) && b < |chains| && t < |chains[b]|
    requires d != [] && Distinct(d) && Detached(d, loc, bound) && RunLinked(d, nx, pv)
    requires chains[b][t] in nx
    requires var after := chains[b][t]; var follow := nx[after];
      nx' == Link(Link(nx, after, d[0]), d[|d| - 1], follow) &&
      pv' == (if follow != 0 then Link(Link(pv, d[0], after), follow, d[|d| - 1]) else Link(pv, d[0], after))
    requires e' == Ends(ends[b].first, if t + 1 == |chains[b]| then d[|d| - 1] else ends[b].last)
    ensures var c' := chains[b][..t + 1] + d + chains[b][t + 1..];
      Distinct(c') && Sound(chains[b := c'], ends[b := e'], nx', pv', Relocate(loc, b, c'), bound)
  {
    SoundChain(chains, ends, nx, pv, loc, bound, b);
    AfterRun(chains[b], ends[b], nx, pv, loc, bound, b, t, d, nx', pv');
    InsertSound(chains, ends, nx, pv, loc, bound, b, t + 1, d, e', nx', pv');
  }

  /** The stores of SpliceLinks, in the terms InsertSound asks for: the run
      `d` goes in at position t+1 of chain c. */
  lemma AfterRun(c: seq<nat>, e: Ends, nx: Links, pv: Links, loc: Loc, bound: nat,
                 b: nat, t: nat, d: seq<nat>, nx': Links, pv': Links)
    requires Linked(c, e, nx, pv) && t < |c|
    requires forall u | 0 <= u < |c| :: c[u] in loc && loc[c[u]] == (b, u) && c[u] < bound
    requires Bounded(loc, bound) && Allocated(nx, pv, bound)
    requires d != [] && Distinct(d) && Detached(d, loc, bound) && RunLinked(d, nx, pv)
    requires var after := c[t]; var follow := nx[after];
      nx' == Link(Link(nx, after, d[0]), d[|d| - 1], follow) &&
      pv' == (if follow != 0 then Link(Link(pv, d[0], after), follow, d[|d| - 1]) else Link(pv, d[0], after))
    ensures Allocated(nx', pv', bound) && RunLinked(d, nx', pv')
    ensures nx'[d[|d| - 1]] == At(c, t + 1) && pv'[d[0]] == Before(c, t + 1)
    ensures nx'[c[t]] == d[0] && pv'[c[t]] == pv[c[t]]
    ensures t + 1 < |c| ==> pv'[c[t + 1]] == d[|d| - 1] && nx'[c[t + 1]] == nx[c[t + 1]]
    ensures forall x | x in loc && (loc[x].0 != b || (loc[x].1 + 1 != t + 1 && loc[x].1 != t + 1)) ::
      nx'[x] == nx[x] && pv'[x] == pv[x]
  {
    LinkedNext(c, e, nx, pv, t);
    var after, first, last := c[t], d[0], d[|d| - 1];
    assert first !in loc && last !in loc;
    forall u | 0 <= u < |d| - 1 ensures nx'[d[u]] == d[u + 1] && pv'[d[u + 1]] == d[u] {
      assert d[u] != last && d[u] != after && d[u + 1] != first && d[u + 1] != after;
      assert nx[after] != 0 ==> d[u + 1] != nx[after];
    }
    AfterFrame(loc, bound, nx, pv, nx', pv', after, first, last, nx[after], b, t);
  }

  /** The stores of SpliceLinks touch no insn on a chain but `after` and
      the one behind it. */
  lemma AfterFrame(loc: Loc, bound: nat, nx: Links, pv: Links, nx': Links, pv': Links,
                   after: nat, first: nat, last: nat, follow: nat, b: nat, t: nat)
    requires Bounded(loc, bound) && Allocated(nx, pv, bound) && first !in loc && last !in loc
    requires after in loc && loc[after] == (b, t) && (follow == 0 || (follow in loc && loc[follow] == (b, t + 1)))
    requires nx' == Link(Link(nx, after, first), last, follow)
    requires pv' == (if follow != 0 then Link(Link(pv, first, after), follow, last) else Link(pv, first, after))
    ensures forall x | x in loc && (loc[x].0 != b || (loc[x].1 + 1 != t + 1 && loc[x].1 != t + 1)) ::
      x in nx' && x in pv' && nx'[x] == nx[x] && pv'[x] == pv[x]
  {
  }

  /** emit_insns_after as written: only last_insn is fixed up, a saved end
      of a pending sequence is not. */
  function SplicedAfterAsWritten(a: Arena, first: nat, last: nat, after: nat): Arena
    requires after in a.nextOf
  {
    var a' := SpliceLinks(a, first, last, after);
    a'.(last := if after == a.last then last else a.last)
  }

  // ---------------------------------------------------------------- add_insn_before

  /** add_insn_before: `h` linked in front of `before`; when `before`
      starts its chain, first_insn or the matching saved start moves. */
  function SplicedBefore(a: Arena, h: nat, before: nat, slot: Option<nat>): Option<Arena>
    requires before in a.prevOf && (slot.Some? ==> slot.value < |a.stack|)
  {
    var prev := a.prevOf[before];
    var nx := Link(a.nextOf, h, before);
    var a' := a.(prevOf := Link(Link(a.prevOf, h, prev), before, h),
                 nextOf := if prev != 0 then Link(nx, prev, h) else nx);
    if prev != 0 then Some(a')
    else if a.first == before then Some(a'.(first := h))
    else if slot.Some? then Some(a'.(stack := a.stack[slot.value := Ends(h, a.stack[slot.value].last)]))
    else None
  }

  lemma SplicedBeforeEnds(a: Arena, s: Shape, h: nat, before: nat, b: nat, t: nat)
    requires Wf(a, s) && before in s.loc && s.loc[before] == (b, t)
    ensures before in a.prevOf && b < |AllEnds(a)| && t < |s.chains[b]|
    ensures var ends := AllEnds(a);
      var r := SplicedBefore(a, h, before, InnermostSlot(a.stack, before, true));
      r.Some? && AllEnds(r.value) == ends[b := Ends(if t == 0 then h else ends[b].first, ends[b].last)]
  {
    var ends := AllEnds(a);
    NullNextIsLast(s.chains, ends, a.nextOf, a.prevOf, s.loc, a.bound, before);
    var r := SplicedBefore(a, h, before, InnermostSlot(a.stack, before, true));
    var e := Ends(if t == 0 then h else ends[b].first, ends[b].last);
    var prev := a.prevOf[before];
    var nx := Link(a.nextOf, h, before);
    var a' := a.(prevOf := Link(Link(a.prevOf, h, prev), before, h), nextOf := if prev != 0 then Link(nx, prev, h) else nx);
    if prev != 0 {
      assert r == Some(a');
      assert e == ends[b];
      assert AllEnds(a') == ends;
    } else if a.first == before {
      assert r == Some(a'.(first := h));
      assert b == |a.stack| by {
        EndOnChain(s.chains, ends, a.nextOf, a.prevOf, s.loc, a.bound, |a.stack|);
      }
      SetLast(a.stack, Ends(a.first, a.last), Ends(h, a.last));
    } else {
      assert b != |a.stack|;
      assert ends[b] == a.stack[b];
      SlotOfEnd(a, s, before, true, b);
      assert r == Some(a'.(stack := a.stack[b := Ends(h, a.stack[b].last)]));
      SetInner(a.stack, Ends(a.first, a.last), b, Ends(h, a.stack[b].last));
    }
  }

  /** add_insn_before puts `h` at the position of `before`. */
  lemma SplicedBeforeWf(a: Arena, s: Shape, h: nat, before: nat, b: nat, t: nat)
    requires Wf(a, s) && before in s.loc && s.loc[before] == (b, t) && 0 < h < a.bound && h !in s.loc
    ensures before in a.prevOf && b < |s.chains| && t < |s.chains[b]|
    ensures var r := SplicedBefore(a, h, before, InnermostSlot(a.stack, before, true));
      var c' := s.chains[b][..t] + [h] + s.chains[b][t..];
      r.Some? && Distinct(c') && Wf(r.value, Reshaped(s, b, c'))
  {
    var ends := AllEnds(a);
    SplicedBeforeEnds(a, s, h, before, b, t);
    var slot := InnermostSlot(a.stack, before, true);
    var r := SplicedBefore(a, h, before, slot).value;
    SplicedBeforeKeeps(a, h, before, slot);
    var e' := Ends(if t == 0 then h else ends[b].first, ends[b].last);
    BeforeSound(s.chains, ends, a.nextOf, a.prevOf, s.loc, a.bound, b, t, h, r.nextOf, r.prevOf, e');
    var c' := s.chains[b][..t] + [h] + s.chains[b][t..];
    WfFrom(a, s, r, Reshaped(s, b, c'), ends[b := e']);
  }

  /** SplicedBefore stores add_insn_before's four links and keeps the insns. */
  lemma SplicedBeforeKeeps(a: Arena, h: nat, before: nat, slot: Option<nat>)
    requires before in a.prevOf && (slot.Some? ==> slot.value < |a.stack|)
    ensures var r := SplicedBefore(a, h, before, slot); var prev := a.prevOf[before];
      r.Some? ==>
        r.value.nextOf == (if prev != 0 then Link(Link(a.nextOf, h, before), prev, h) else Link(a.nextOf, h, before)) &&
        r.value.prevOf == Link(Link(a.prevOf, h, prev), before, h) &&
        r.value.node == a.node && r.value.bound == a.bound && |r.value.stack| == |a.stack|
  {
  }

  /** The chains after add_insn_before's four stores, on the raw link maps. */
  lemma BeforeSound(chains: seq<seq<nat>>, ends: seq<Ends>, nx: Links, pv: Links, loc: Loc, bound: nat,
                    b: nat, t: nat, h: nat, nx': Links, pv': Links, e': Ends)
    requires Sound(chains, ends, nx, pv, loc, bound) && b < |chains| && t < |chains[b]| && 0 < h < bound && h !in loc
    requires chains[b][t] in pv
    requires var before := chains[b][t]; var prev := pv[before];
      nx' == (if prev != 0 then Link(Link(nx, h, before), prev, h) else Link(nx, h, before)) &&
      pv' == Link(Link(pv, h, prev), before, h)
    requires e' == Ends(if t == 0 then h else ends[b].first, ends[b].last)
    ensures var c' := chains[b][..t] + [h] + chains[b][t..];
      Distinct(c') && Sound(chains[b := c'], ends[b := e'], nx', pv', Relocate(loc, b, c'), bound)
  {
    SoundChain(chains, ends, nx, pv, loc, bound, b);
    BeforeRun(chains[b], ends[b], nx, pv, loc, bound, b, t, h, [h], nx', pv');
    InsertSound(chains, ends, nx, pv, loc, bound, b, t, [h], e', nx', pv');
  }

  /** add_insn_before's stores, in the terms InsertSound asks for: `d` is
      the one-insn run [h] that goes in at position t of chain c. */
  lemma BeforeRun(c: seq<nat>, e: Ends, nx: Links, pv: Links, loc: Loc, bound: nat,
                  b: nat, t: nat, h: nat, d: seq<nat>, nx': Links, pv': Links)
    requires Linked(c, e, nx, pv) && t < |c| && d == [h]
    requires forall u | 0 <= u < |c| :: c[u] in loc && loc[c[u]] == (b, u) && c[u] < bound
    requires Bounded(loc, bound) && Allocated(nx, pv, bound) && 0 < h < bound && h !in loc
    requires var before := c[t]; var prev := pv[before];
      nx' == (if prev != 0 then Link(Link(nx, h, before), prev, h) else Link(nx, h, before)) &&
      pv' == Link(Link(pv, h, prev), before, h)
    ensures Distinct(d) && Detached(d, loc, bound) && Allocated(nx', pv', bound) && RunLinked(d, nx', pv')
    ensures nx'[d[|d| - 1]] == At(c, t) && pv'[d[0]] == Before(c, t)
    ensures t > 0 ==> nx'[c[t - 1]] == d[0] && pv'[c[t - 1]] == pv[c[t - 1]]
    ensures t < |c| ==> pv'[c[t]] == d[|d| - 1] && nx'[c[t]] == nx[c[t]]
    ensures forall x | x in loc && (loc[x].0 != b || (loc[x].1 + 1 != t && loc[x].1 != t)) :: nx'[x] == nx[x] && pv'[x] == pv[x]
  {
    LinkedPrev(c, e, nx, pv, t);
    BeforeFrame(loc, bound, nx, pv, nx', pv', h, c[t], pv[c[t]], b, t);
  }

  /** add_insn_before's stores touch no insn on a chain but `before` and
      the one in front of it. */
  lemma BeforeFrame(loc: Loc, bound: nat, nx: Links, pv: Links, nx': Links, pv': Links,
                    h: nat, before: nat, prev: nat, b: nat, t: nat)
    requires Bounded(loc, bound) && Allocated(nx, pv, bound) && h !in loc
    requires before in loc && loc[before] == (b, t) && (prev == 0 || (prev in loc && loc[prev] == (b, t - 1)))
    requires nx' == (if prev != 0 then Link(Link(nx, h, before), prev, h) else Link(nx, h, before))
    requires pv' == Link(Link(pv, h, prev), before, h)
    ensures forall x | x in loc && (loc[x].0 != b || (loc[x].1 + 1 != t && loc[x].1 != t)) ::
      x in nx' && x in pv' && nx'[x] == nx[x] && pv'[x] == pv[x]
  {
  }

  // ---------------------------------------------------------------- delete_insns_since

  /** delete_insns_since: `from` becomes the last insn (0 empties the chain). */
  function Truncated(a: Arena, from: nat): Arena
  {
    if from == 0 then a.(first := 0, last := 0)
    else a.(nextOf := Link(a.nextOf, from, 0), last := from)
  }

  /** The current chain keeps its members up to and including `from`. */
  lemma TruncatedWf(a: Arena, s: Shape, from: nat)
    requires Wf(a, s) && (from == 0 || (from in s.loc && s.loc[from].0 == |a.stack|))
    ensures var c := s.chains[|a.stack|]; var n := if from == 0 then 0 else s.loc[from].1 + 1;
      n <= |c| && Distinct(c[..n]) && Wf(Truncated(a, from), Reshaped(s, |a.stack|, c[..n]))
  {
    var cur := |a.stack|;
    var ends := AllEnds(a);
    var c := s.chains[cur];
    var n := if from == 0 then 0 else s.loc[from].1 + 1;
    if from != 0 {
      assert c[n - 1] == from;
    }
    TruncateSound(s.chains, ends, a.nextOf, a.prevOf, s.loc, a.bound, cur, n);
    SetLast(a.stack, Ends(a.first, a.last), Ends(if n > 0 then a.first else 0, Before(c, n)));
  }
  // ---------------------------------------------------------------- reorder_insns

  /** The first half of reorder_insns: the run from .. to is unlinked from
      its neighbours, and first_insn / last_insn move off it. */
  function ReorderCut(a: Arena, from: nat, to: nat): Arena
    requires from in a.prevOf && to in a.nextOf
  {
    var p, n := a.prevOf[from], a.nextOf[to];
    a.(nextOf := if p != 0 then Link(a.nextOf, p, n) else a.nextOf,
       prevOf := if n != 0 then Link(a.prevOf, n, p) else a.prevOf,
       last := if a.last == to then p else a.last,
       first := if a.first == from then n else a.first)
  }

  /** The second half: the run is linked in after `after`. */
  function ReorderPlace(a: Arena, from: nat, to: nat, after: nat): Arena
    requires after in a.nextOf
  {
    var follow := a.nextOf[after];
    var pv := if follow != 0 then Link(a.prevOf, follow, to) else a.prevOf;
    var nx := Link(a.nextOf, to, follow);
    a.(prevOf := Link(pv, from, after), nextOf := Link(nx, after, from),
       last := if after == a.last then to else a.last)
  }

  /** reorder_insns: the stores of the source, in its order. */
  function Reordered(a: Arena, from: nat, to: nat, after: nat): Arena
    requires from in a.prevOf && to in a.nextOf && after in a.nextOf
  {
    ReorderPlace(ReorderCut(a, from, to), from, to, after)
  }

  /** Cutting positions i .. j out of the current chain leaves the rest of
      it as the current chain and the run as a detached, linked run. */
  lemma ReorderCutWf(a: Arena, s: Shape, i: nat, j: nat)
    requires Wf(a, s) && i <= j < |s.chains[|a.stack|]|
    ensures var c := s.chains[|a.stack|]; c[i] in a.prevOf && c[j] in a.nextOf
    ensures var cur, c := |a.stack|, s.chains[|a.stack|];
      var r, d := c[..i] + c[j + 1..], c[i..j + 1];
      var a1 := ReorderCut(a, c[i], c[j]);
      Distinct(r) && Wf(a1, Reshaped(s, cur, r)) &&
      d != [] && Distinct(d) && Detached(d, Reshaped(s, cur, r).loc, a.bound) && RunLinked(d, a1.nextOf, a1.prevOf)
  {
    var cur, ends := |a.stack|, AllEnds(a);
    var c := s.chains[cur];
    CutStores(s.chains, ends, a.nextOf, a.prevOf, s.loc, a.bound, cur, i, j);
    var a1 := ReorderCut(a, c[i], c[j]);
    ReorderCutKeeps(a, c[i], c[j]);
    SetLast(a.stack, Ends(a.first, a.last), Ends(a1.first, a1.last));
    WfFrom(a, s, a1, Reshaped(s, cur, c[..i] + c[j + 1..]), ends[cur := Ends(a1.first, a1.last)]);
  }

  lemma ReorderCutKeeps(a: Arena, from: nat, to: nat)
    requires from in a.prevOf && to in a.nextOf
    ensures var a1, p, n := ReorderCut(a, from, to), a.prevOf[from], a.nextOf[to];
      a1.nextOf == (if p != 0 then Link(a.nextOf, p, n) else a.nextOf) &&
      a1.prevOf == (if n != 0 then Link(a.prevOf, n, p) else a.prevOf) &&
      a1.first == (if a.first == from then n else a.first) && a1.last == (if a.last == to then p else a.last) &&
      a1.node == a.node && a1.bound == a.bound && a1.stack == a.stack
  {
  }

  /** reorder_insns' first four stores on the raw link maps: chain b loses
      positions i .. j, which become a detached run. */
  lemma CutStores(chains: seq<seq<nat>>, ends: seq<Ends>, nx: Links, pv: Links, loc: Loc, bound: nat,
                  b: nat, i: nat, j: nat)
    requires Sound(chains, ends, nx, pv, loc, bound) && b < |chains| && i <= j < |chains[b]|
    ensures chains[b][i] in pv && chains[b][j] in nx
    ensures var c := chains[b]; var p, n := pv[c[i]], nx[c[j]];
      var nx', pv' := (if p != 0 then Link(nx, p, n) else nx), (if n != 0 then Link(pv, n, p) else pv);
      var e' := Ends(if ends[b].first == c[i] then n else ends[b].first, if ends[b].last == c[j] then p else ends[b].last);
      var r, d := c[..i] + c[j + 1..], c[i..j + 1];
      Distinct(r) && Sound(chains[b := r], ends[b := e'], nx', pv', Relocate(loc, b, r), bound) &&
      d != [] && Distinct(d) && Detached(d, Relocate(loc, b, r), bound) && RunLinked(d, nx', pv')
  {
    var c := chains[b];
    SoundChain(chains, ends, nx, pv, loc, bound, b);
    CutPremises(c, ends[b], nx, pv, loc, bound, b, i, j);
    var p, n := pv[c[i]], nx[c[j]];
    var nx', pv' := (if p != 0 then Link(nx, p, n) else nx), (if n != 0 then Link(pv, n, p) else pv);
    var e' := Ends(if i == 0 then At(c, j + 1) else ends[b].first, if j + 1 == |c| then Before(c, i) else ends[b].last);
    CutSound(chains, ends, nx, pv, loc, bound, b, i, j, e', nx', pv');
  }

  /** reorder_insns' first four stores, in the terms CutSound asks for;
      first_insn / last_insn are the run's ends exactly when the run starts
      or ends the chain. */
  lemma CutPremises(c: seq<nat>, e: Ends, nx: Links, pv: Links, loc: Loc, bound: nat, b: nat, i: nat, j: nat)
    requires Linked(c, e, nx, pv) && Distinct(c) && i <= j < |c|
    requires forall u | 0 <= u < |c| :: c[u] in loc && loc[c[u]] == (b, u) && c[u] < bound
    requires Bounded(loc, bound) && Allocated(nx, pv, bound)
    ensures c[i] in pv && c[j] in nx
    ensures var p, n := pv[c[i]], nx[c[j]];
      var nx', pv' := (if p != 0 then Link(nx, p, n) else nx), (if n != 0 then Link(pv, n, p) else pv);
      p == Before(c, i) && n == At(c, j + 1) && Allocated(nx', pv', bound) &&
      (i > 0 ==> nx'[c[i - 1]] == At(c, j + 1) && pv'[c[i - 1]] == pv[c[i - 1]]) &&
      (j + 1 < |c| ==> pv'[c[j + 1]] == Before(c, i) && nx'[c[j + 1]] == nx[c[j + 1]]) &&
      (forall h | h in loc && (loc[h].0 != b || (loc[h].1 + 1 != i && loc[h].1 != j + 1)) :: nx'[h] == nx[h] && pv'[h] == pv[h]) &&
      Ends(if e.first == c[i] then n else e.first, if e.last == c[j] then p else e.last) ==
      Ends(if i == 0 then At(c, j + 1) else e.first, if j + 1 == |c| then Before(c, i) else e.last)
  {
    LinkedPrev(c, e, nx, pv, i);
    LinkedNext(c, e, nx, pv, j);
    var p, n := pv[c[i]], nx[c[j]];
    var nx', pv' := (if p != 0 then Link(nx, p, n) else nx), (if n != 0 then Link(pv, n, p) else pv);
    CutFrame(loc, bound, nx, pv, nx', pv', p, n, b, i, j);
    assert (e.first == c[i]) == (i == 0) && (e.last == c[j]) == (j + 1 == |c|);
  }

  /** The cut touches only the insns just outside the run. */
  lemma CutFrame(loc: Loc, bound: nat, nx: Links, pv: Links, nx': Links, pv': Links,
                 p: nat, n: nat, b: nat, i: nat, j: nat)
    requires Bounded(loc, bound) && Allocated(nx, pv, bound)
    requires p == 0 || (p in loc && loc[p].0 == b && loc[p].1 + 1 == i)
    requires n == 0 || (n in loc && loc[n] == (b, j + 1))
    requires nx' == (if p != 0 then Link(nx, p, n) else nx) && pv' == (if n != 0 then Link(pv, n, p) else pv)
    ensures Allocated(nx', pv', bound)
    ensures forall h | h in loc && (loc[h].0 != b || (loc[h].1 + 1 != i && loc[h].1 != j + 1)) ::
      h in nx' && h in pv' && nx'[h] == nx[h] && pv'[h] == pv[h]
  {
  }

  /** The stores of ReorderPlace are those of SpliceLinks, in another order. */
  lemma PlaceLinks(a: Arena, from: nat, to: nat, after: nat)
    requires after in a.nextOf && after != to && a.nextOf[after] != from
    ensures var a' := SpliceLinks(a, from, to, after); var r := ReorderPlace(a, from, to, after);
      r.nextOf == a'.nextOf && r.prevOf == a'.prevOf && r == a'.(last := r.last)
  {
    var follow := a.nextOf[after];
    assert Link(Link(a.nextOf, to, follow), after, from) == Link(Link(a.nextOf, after, from), to, follow);
    if follow != 0 {
      assert Link(Link(a.prevOf, follow, to), from, after) == Link(Link(a.prevOf, from, after), follow, to);
    }
  }

  /** Once the run is cut out, placing it after an insn of the current
      chain is what SplicedAfter does. */
  lemma ReorderPlaceIsSplice(a: Arena, s: Shape, from: nat, to: nat, after: nat, t: nat)
    requires Wf(a, s) && after in s.loc && s.loc[after] == (|a.stack|, t)
    requires 0 < from && from !in s.loc && to !in s.loc
    ensures after in a.nextOf
    ensures SplicedAfter(a, from, to, after, InnermostSlot(a.stack, after, false)) == Some(ReorderPlace(a, from, to, after))
  {
    var cur, ends := |a.stack|, AllEnds(a);
    SoundChain(s.chains, ends, a.nextOf, a.prevOf, s.loc, a.bound, cur);
    LinkedNext(s.chains[cur], ends[cur], a.nextOf, a.prevOf, t);
    EndOnChain(s.chains, ends, a.nextOf, a.prevOf, s.loc, a.bound, cur);
    var follow := a.nextOf[after];
    assert follow != 0 ==> follow in s.loc;
    assert (follow == 0) == (after == a.last);
    PlaceLinks(a, from, to, after);
  }

  /** Where the insn at position k lands once the run i .. j is cut out. */
  lemma MovedPlace(c: seq<nat>, i: nat, j: nat, k: nat)
    requires i <= j < |c| && k < |c| && (k < i || j < k)
    ensures var r, t := c[..i] + c[j + 1..], if k < i then k else k - (j + 1 - i);
      t < |r| && r[t] == c[k] && Moved(c, i, j, k) == r[..t + 1] + c[i..j + 1] + r[t + 1..]
    ensures var d := c[i..j + 1]; d[0] == c[i] && d[|d| - 1] == c[j]
  {
    MovedIsSplice(c, i, j, k);
  }

  /** The second half of reorder_insns splices the cut-out run `d` back
      in after position t of the current chain `c`, giving `c'`. */
  lemma ReorderPlaceWf(a: Arena, s: Shape, cur: nat, c: seq<nat>, d: seq<nat>, t: nat,
                       first: nat, last: nat, after: nat, c': seq<nat>)
    requires Wf(a, s) && cur == |a.stack| && cur < |s.chains| && c == s.chains[cur] && t < |c|
    requires d != [] && Distinct(d) && Detached(d, s.loc, a.bound) && RunLinked(d, a.nextOf, a.prevOf)
    requires first == d[0] && last == d[|d| - 1] && after == c[t] && c' == c[..t + 1] + d + c[t + 1..]
    ensures after in a.nextOf && Distinct(c') && Wf(ReorderPlace(a, first, last, after), Reshaped(s, cur, c'))
  {
    Member(a, s, cur, t);
    ReorderPlaceIsSplice(a, s, first, last, after, t);
    SplicedAfterWf(a, s, d, after, cur, t);
  }

  /** A member of a chain is allocated and placed. */
  lemma Member(a: Arena, s: Shape, b: nat, u: nat)
    requires Wf(a, s) && b < |s.chains| && u < |s.chains[b]|
    ensures var h := s.chains[b][u];
      0 < h < a.bound && h in a.nextOf && h in a.prevOf && h in s.loc && s.loc[h] == (b, u)
  {
    SoundChain(s.chains, AllEnds(a), a.nextOf, a.prevOf, s.loc, a.bound, b);
  }
  // ---------------------------------------------------------------- the sequence stack

  /** start_sequence (first == last == 0) and push_to_sequence: the current
      ends are saved and the chain first .. last becomes current. */
  function Pushed(a: Arena, first: nat, last: nat): Arena
  {
    a.(stack := a.stack + [Ends(a.first, a.last)], first := first, last := last)
  }

  /** The pushed chain `d` must be a whole chain of insns on no chain. */
  lemma PushedWf(a: Arena, s: Shape, d: seq<nat>, first: nat, last: nat)
    requires Wf(a, s) && Linked(d, Ends(first, last), a.nextOf, a.prevOf) && Distinct(d) && Detached(d, s.loc, a.bound)
    ensures Wf(Pushed(a, first, last), Shape(s.chains + [d], Relocate(s.loc, |s.chains|, d)))
  {
    PushSound(s.chains, AllEnds(a), a.nextOf, a.prevOf, s.loc, a.bound, d, Ends(first, last));
  }

  /** end_sequence: the innermost saved ends become current again. */
  function Popped(a: Arena): Arena
    requires |a.stack| > 0
  {
    var n := |a.stack| - 1;
    a.(first := a.stack[n].first, last := a.stack[n].last, stack := a.stack[..n])
  }

  /** The current chain is dropped and the innermost saved one is current. */
  lemma PoppedWf(a: Arena, s: Shape)
    requires Wf(a, s) && |a.stack| > 0
    ensures Wf(Popped(a), Dropped(s))
  {
    PopSound(s.chains, AllEnds(a), a.nextOf, a.prevOf, s.loc, a.bound);
    DropLast(a.stack, Ends(a.first, a.last));
  }

  /** set_new_first_and_last_insn. */
  function Renewed(a: Arena, first: nat, last: nat): Arena
  {
    a.(first := first, last := last)
  }

  /** The chain `d` from first to last replaces the current chain; its
      members are allocated and on no saved chain. */
  lemma RenewedWf(a: Arena, s: Shape, d: seq<nat>, first: nat, last: nat)
    requires Wf(a, s) && Linked(d, Ends(first, last), a.nextOf, a.prevOf) && Distinct(d)
    requires forall t | 0 <= t < |d| :: 0 < d[t] < a.bound && (d[t] in s.loc ==> s.loc[d[t]].0 == |a.stack|)
    ensures var n := |a.stack|; var s1 := Dropped(s);
      s1.chains + [d] == s.chains[n := d] && Wf(Renewed(a, first, last), Shape(s1.chains + [d], Relocate(s1.loc, n, d)))
  {
    var n := |a.stack|;
    var s1 := Dropped(s);
    PopSound(s.chains, AllEnds(a), a.nextOf, a.prevOf, s.loc, a.bound);
    assert AllEnds(a)[..n] == a.stack;
    assert Detached(d, s1.loc, a.bound);
    PushSound(s1.chains, a.stack, a.nextOf, a.prevOf, s1.loc, a.bound, d, Ends(first, last));
    WfFrom(a, s, Renewed(a, first, last), Shape(s1.chains + [d], Relocate(s1.loc, n, d)), a.stack + [Ends(first, last)]);
  }

  /** A saved last insn ends its chain: its NEXT_INSN is null. */
  lemma SavedLastEndsChain(a: Arena, s: Shape, k: nat)
    requires Wf(a, s) && k < |a.stack| && a.stack[k].last != 0
    ensures a.stack[k].last in a.nextOf && a.nextOf[a.stack[k].last] == 0
  {
    var ends := AllEnds(a);
    assert ends[k] == a.stack[k];
    EndOnChain(s.chains, ends, a.nextOf, a.prevOf, s.loc, a.bound, k);
    SoundChain(s.chains, ends, a.nextOf, a.prevOf, s.loc, a.bound, k);
  }

  // ---------------------------------------------------------------- emit_insns_after as written

  /** One saved sequence [1] under an empty current chain; insn 2 is free. */
  function StaleExample(): Arena
  {
    var n := Blank(PlainInsn, 1, NoPattern);
    Arena(map[1 := n, 2 := n], map[1 := 0, 2 := 0], map[1 := 0, 2 := 0], 0, 0, [Ends(1, 1)], 3)
  }

  lemma StaleExampleWf()
    ensures Wf(StaleExample(), Shape([[1], []], map[1 := (0, 0)]))
  {
    var a := StaleExample();
    assert Linked([1], Ends(1, 1), a.nextOf, a.prevOf);
  }

  /** emit_insns_after (2, 1) as written: NEXT_INSN (1) becomes 2 but the
      saved last insn stays 1, so no shape describes the result. */
  lemma StaleSavedEnd(s: Shape)
    ensures var r := SplicedAfterAsWritten(StaleExample(), 2, 2, 1);
      r.stack[0].last == 1 && r.nextOf[1] == 2 && !Wf(r, s)
  {
    var r := SplicedAfterAsWritten(StaleExample(), 2, 2, 1);
    if Wf(r, s) {
      SavedLastEndsChain(r, s, 0);
    }
  }

}
