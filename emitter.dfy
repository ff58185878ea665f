/** The RTL emitter of emit-rtl.c as an object: the instruction arena
    (first_insn, last_insn, the NEXT_INSN / PREV_INSN fields and the
    sequence stack), cur_insn_uid, the label counters and the last line
    note. Each method performs the stores of one emit-rtl.c function
    through the arena step it is specified by; the ghost `shape` records
    the chains the pointers spell out, and Valid () says it does. */
module Emit {
  import opened Rtl
  import opened Insns
  import opened InsnChain
  import opened ChainSound
  import opened InsnArena
  import opened InsnSearch
  import opened Patterns

  // ---------------------------------------------------------------- walks over values

  /** The scan over the pending sequences in add_insn_after and
      add_insn_before, innermost first. */
  method FindSlot(stack: seq<Ends>, x: nat, front: bool) returns (r: Option<nat>)
    ensures r == InnermostSlot(stack, x, front)
  {
    var k := |stack|;
    assert stack[..k] == stack;
    while k > 0 && EndAt(stack[k - 1], front) != x
      invariant 0 <= k <= |stack|
      invariant InnermostSlot(stack, x, front) == InnermostSlot(stack[..k], x, front)
    {
      assert stack[..k][..k - 1] == stack[..k - 1];
      k := k - 1;
    }
    if k == 0 {
      return None;
    }
    return Some(k - 1);
  }

  /** The walk of push_to_sequence and emit_insns_after from `first`
      along NEXT_INSN to the insn whose NEXT_INSN is null. */
  method WalkToLast(nx: Links, first: nat, ghost d: seq<nat>) returns (last: nat)
    requires first == At(d, 0) && NonNull(d)
    requires forall t | 0 <= t < |d| :: d[t] in nx
    requires forall t | 0 <= t < |d| - 1 :: nx[d[t]] == d[t + 1]
    requires d != [] ==> nx[d[|d| - 1]] == 0
    ensures last == Before(d, |d|)
  {
    last := first;
    ghost var k := 0;
    while last != 0 && nx[last] != 0
      invariant d != [] ==> k < |d| && last == d[k]
      invariant k + 1 < |d| ==> nx[d[k]] == d[k + 1] && d[k + 1] != 0
      invariant d == [] ==> last == 0
      decreases |d| - k
    {
      last := nx[last];
      k := k + 1;
    }
  }

  /** The fix-up of add_insn_after and emit_insns_after: the stores of
      SpliceLinks, then the end that `after` held moved to `last`. */
  method AfterSplice(a: Arena, first: nat, last: nat, after: nat) returns (r: Option<Arena>)
    requires after in a.nextOf
    ensures r == SplicedAfter(a, first, last, after, InnermostSlot(a.stack, after, false))
  {
    var slot := None;
    if a.nextOf[after] == 0 && a.last != after {
      slot := FindSlot(a.stack, after, false);
    }
    return SplicedAfter(a, first, last, after, slot);
  }

  /** The fix-up of add_insn_before: the start that `before` held moves
      to `h`. */
  method BeforeSplice(a: Arena, h: nat, before: nat) returns (r: Option<Arena>)
    requires before in a.prevOf
    ensures r == SplicedBefore(a, h, before, InnermostSlot(a.stack, before, true))
  {
    var slot := None;
    if a.prevOf[before] == 0 && a.first != before {
      slot := FindSlot(a.stack, before, true);
    }
    return SplicedBefore(a, h, before, slot);
  }

  /** The walk of set_new_first_and_last_insn: the largest INSN_UID on
      the chain `d` from `first`. */
  method MaxUidWalk(node: map<nat, Node>, nx: Links, first: nat, ghost d: seq<nat>) returns (m: nat)
    requires first == At(d, 0) && NonNull(d) && InNodes(node, d)
    requires forall t | 0 <= t < |d| :: d[t] in nx
    requires forall t | 0 <= t < |d| - 1 :: nx[d[t]] == d[t + 1]
    requires d != [] ==> nx[d[|d| - 1]] == 0
    ensures m == MaxUid(node, d, |d|)
  {
    m := 0;
    var insn := first;
    ghost var n := 0;
    while insn != 0
      invariant n <= |d| && insn == At(d, n) && m == MaxUid(node, d, n)
      decreases |d| - n
    {
      if node[insn].uid > m {
        m := node[insn].uid;
      }
      insn := nx[insn];
      n := n + 1;
    }
  }

  // ---------------------------------------------------------------- the arena steps, shape returned

  /* The lemmas of InsnArena, with the shape after each step handed back
     as a value: the methods below then see only its chains. */

  lemma AppendStep(a: Arena, s: Shape, h: nat) returns (s': Shape)
    requires Wf(a, s) && 0 < h < a.bound && h !in s.loc
    ensures |a.stack| < |s.chains| && Wf(Appended(a, h), s')
    ensures s'.chains == s.chains[|a.stack| := s.chains[|a.stack|] + [h]]
  {
    AppendedWf(a, s, h);
    s' := Reshaped(s, |a.stack|, s.chains[|a.stack|] + [h]);
  }

  lemma AfterStep(a: Arena, s: Shape, d: seq<nat>, after: nat) returns (s': Shape)
    requires Wf(a, s) && after in s.loc
    requires d != [] && Distinct(d) && Detached(d, s.loc, a.bound) && RunLinked(d, a.nextOf, a.prevOf)
    ensures var b, t := s.loc[after].0, s.loc[after].1;
      after in a.nextOf && b < |s.chains| && t < |s.chains[b]| &&
      SplicedAfter(a, d[0], d[|d| - 1], after, InnermostSlot(a.stack, after, false)).Some? &&
      Wf(SplicedAfter(a, d[0], d[|d| - 1], after, InnermostSlot(a.stack, after, false)).value, s') &&
      s'.chains == s.chains[b := s.chains[b][..t + 1] + d + s.chains[b][t + 1..]]
  {
    var b, t := s.loc[after].0, s.loc[after].1;
    SplicedAfterWf(a, s, d, after, b, t);
    s' := Reshaped(s, b, s.chains[b][..t + 1] + d + s.chains[b][t + 1..]);
  }

  lemma BeforeStep(a: Arena, s: Shape, h: nat, before: nat) returns (s': Shape)
    requires Wf(a, s) && before in s.loc && 0 < h < a.bound && h !in s.loc
    ensures var b, t := s.loc[before].0, s.loc[before].1;
      before in a.prevOf && b < |s.chains| && t < |s.chains[b]| &&
      SplicedBefore(a, h, before, InnermostSlot(a.stack, before, true)).Some? &&
      Wf(SplicedBefore(a, h, before, InnermostSlot(a.stack, before, true)).value, s') &&
      s'.chains == s.chains[b := s.chains[b][..t] + [h] + s.chains[b][t..]]
  {
    var b, t := s.loc[before].0, s.loc[before].1;
    SplicedBeforeWf(a, s, h, before, b, t);
    s' := Reshaped(s, b, s.chains[b][..t] + [h] + s.chains[b][t..]);
  }

  lemma TruncateStep(a: Arena, s: Shape, from: nat) returns (s': Shape)
    requires Wf(a, s) && (from == 0 || (from in s.loc && s.loc[from].0 == |a.stack|))
    ensures var n := if from == 0 then 0 else s.loc[from].1 + 1;
      |a.stack| < |s.chains| && n <= |s.chains[|a.stack|]| && Wf(Truncated(a, from), s') &&
      s'.chains == s.chains[|a.stack| := s.chains[|a.stack|][..n]]
  {
    TruncatedWf(a, s, from);
    var n := if from == 0 then 0 else s.loc[from].1 + 1;
    s' := Reshaped(s, |a.stack|, s.chains[|a.stack|][..n]);
  }

  lemma ReorderStep(a: Arena, s: Shape, from: nat, to: nat, after: nat) returns (s': Shape)
    requires Wf(a, s) && from in s.loc && to in s.loc && after in s.loc
    requires s.loc[from].0 == |a.stack| && s.loc[to].0 == |a.stack| && s.loc[after].0 == |a.stack|
    requires s.loc[from].1 <= s.loc[to].1
    requires s.loc[after].1 < s.loc[from].1 || s.loc[to].1 < s.loc[after].1
    ensures var i, j, k := s.loc[from].1, s.loc[to].1, s.loc[after].1;
      |a.stack| < |s.chains| && j < |s.chains[|a.stack|]| && k < |s.chains[|a.stack|]| &&
      from in a.prevOf && to in a.nextOf && after in a.nextOf && Wf(Reordered(a, from, to, after), s') &&
      s'.chains == s.chains[|a.stack| := Moved(s.chains[|a.stack|], i, j, k)]
  {
    var cur := |a.stack|;
    var i, j, k := s.loc[from].1, s.loc[to].1, s.loc[after].1;
    Placed(a, s, from);
    Placed(a, s, to);
    Placed(a, s, after);
    var c := s.chains[cur];
    assert c[i] == from && c[j] == to && c[k] == after;
    Member(a, s, cur, k);
    ReorderCutWf(a, s, i, j);
    var s1 := Reshaped(s, cur, c[..i] + c[j + 1..]);
    ReorderPlaceFrom(a, s, cur, c, i, j, k, ReorderCut(a, from, to), s1, c[..i] + c[j + 1..], c[i..j + 1]);
    s' := Reshaped(s1, cur, Moved(c, i, j, k));
    UpdateTwice(s.chains, cur, c[..i] + c[j + 1..], Moved(c, i, j, k));
  }

  /** From the cut to the whole move: the run `d` cut out by ReorderCut
      goes back in after the insn that was at position k. */
  lemma ReorderPlaceFrom(a: Arena, s: Shape, cur: nat, c: seq<nat>, i: nat, j: nat, k: nat,
                         a1: Arena, s1: Shape, r: seq<nat>, d: seq<nat>)
    requires cur == |a.stack| && cur < |s.chains| && c == s.chains[cur]
    requires i <= j < |c| && k < |c| && (k < i || j < k)
    requires c[i] in a.prevOf && c[j] in a.nextOf && c[k] in a.nextOf
    requires r == c[..i] + c[j + 1..] && d == c[i..j + 1]
    requires Distinct(r) && a1 == ReorderCut(a, c[i], c[j]) && s1 == Reshaped(s, cur, r) && Wf(a1, s1)
    requires d != [] && Distinct(d) && Detached(d, s1.loc, a.bound) && RunLinked(d, a1.nextOf, a1.prevOf)
    ensures Distinct(Moved(c, i, j, k)) && Wf(Reordered(a, c[i], c[j], c[k]), Reshaped(s1, cur, Moved(c, i, j, k)))
  {
    hide Wf, Detached, RunLinked;
    var t := if k < i then k else k - (j + 1 - i);
    MovedPlace(c, i, j, k);
    assert s1.chains[cur] == r && a1.bound == a.bound && |a1.stack| == cur;
    ReorderPlaceWf(a1, s1, cur, r, d, t, c[i], c[j], c[k], Moved(c, i, j, k));
  }

  lemma UpdateTwice<T>(q: seq<T>, i: nat, x: T, y: T)
    requires i < |q|
    ensures q[i := x][i := y] == q[i := y]
  {
  }

  lemma PushStep(a: Arena, s: Shape, d: seq<nat>, first: nat, last: nat) returns (s': Shape)
    requires Wf(a, s) && Linked(d, Ends(first, last), a.nextOf, a.prevOf) && Distinct(d) && Detached(d, s.loc, a.bound)
    ensures Wf(Pushed(a, first, last), s') && s'.chains == s.chains + [d]
  {
    PushedWf(a, s, d, first, last);
    s' := Shape(s.chains + [d], Relocate(s.loc, |s.chains|, d));
  }

  lemma PopStep(a: Arena, s: Shape) returns (s': Shape)
    requires Wf(a, s) && |a.stack| > 0
    ensures Wf(Popped(a), s') && s'.chains == s.chains[..|a.stack|]
  {
    PoppedWf(a, s);
    s' := Dropped(s);
  }

  lemma RenewStep(a: Arena, s: Shape, d: seq<nat>, first: nat, last: nat) returns (s': Shape)
    requires Wf(a, s) && Linked(d, Ends(first, last), a.nextOf, a.prevOf) && Distinct(d)
    requires forall t | 0 <= t < |d| :: 0 < d[t] < a.bound && (d[t] in s.loc ==> s.loc[d[t]].0 == |a.stack|)
    ensures |a.stack| < |s.chains| && Wf(Renewed(a, first, last), s') && s'.chains == s.chains[|a.stack| := d]
  {
    RenewedWf(a, s, d, first, last);
    var s1 := Dropped(s);
    s' := Shape(s1.chains + [d], Relocate(s1.loc, |a.stack|, d));
  }

  // ---------------------------------------------------------------- specification helpers

  /** What gen_sequence returns: the pattern of a lone insn that can be
      discarded, or a SEQUENCE of the insns. */
  datatype Emitted = PatternOf(pattern: Rtx) | SequenceOf(insns: seq<nat>)

  /** An insn gen_sequence may replace by its pattern: not frame related,
      and an INSN, a JUMP_INSN or a CALL_INSN without function usage. */
  predicate Discardable(n: Node)
  {
    !n.frameRelated &&
    (n.code == PlainInsn || n.code == JumpInsn || (n.code == CallInsn && n.usage == []))
  }

  /** The largest INSN_UID among the first `n` members of `c`, 0 for none. */
  function MaxUid(node: map<nat, Node>, c: seq<nat>, n: nat): (m: nat)
    requires n <= |c| && InNodes(node, c)
    ensures forall t | 0 <= t < n :: node[c[t]].uid <= m
    ensures m == 0 || exists t | 0 <= t < n :: node[c[t]].uid == m
  {
    if n == 0 then 0
    else
      var m' := MaxUid(node, c, n - 1);
      if node[c[n - 1]].uid > m' then node[c[n - 1]].uid else m'
  }

  /** A NOTE carrying a source file and line, or a note kind in `line`. */
  function NoteNode(uid: nat, file: Option<string>, line: int): (n: Node)
    ensures n.code == NoteInsn && n.uid == uid && n.noteFile == file && n.noteLine == line
  {
    Blank(NoteInsn, uid, NoPattern).(noteFile := file, noteLine := line)
  }

  /** A CODE_LABEL as gen_label_rtx makes it: no uid until it is emitted. */
  function LabelNode(number: nat): (n: Node)
    ensures n.code == LabelInsn && n.uid == 0 && n.labelNumber == number
  {
    Blank(LabelInsn, 0, NoPattern).(labelNumber := number)
  }

  /** The insn chain: first_insn and last_insn, the fields of every insn
      (NEXT_INSN, PREV_INSN and the rest) and the sequence stack. The
      ghost `shape` records the chains the pointers spell out, and Valid ()
      says it does. */
  class Chain {
    var arena: Arena
    ghost var shape: Shape

    ghost predicate Valid()
      reads this
    {
      Wf(arena, shape)
    }

    /** The chain between first_insn and last_insn. */
    ghost function Current(): seq<nat>
      requires Valid()
      reads this
    {
      shape.chains[|arena.stack|]
    }

    /** The chain part of init_emit: no insns and no pending sequence. */
    constructor ()
      ensures Valid() && arena == Arena(map[], map[], map[], 0, 0, [], 1) && shape.chains == [[]]
    {
      arena := Arena(map[], map[], map[], 0, 0, [], 1);
      shape := Shape([[]], map[]);
    }

    /** The rtx_alloc of make_insn_raw, gen_label_rtx and emit_note: a new
        insn, on no chain. */
    method NewInsn(n: Node) returns (h: nat)
      requires Valid()
      modifies this
      ensures Valid() && h == old(arena.bound) && 0 < h && h !in shape.loc && shape == old(shape)
      ensures arena == WithNode(old(arena), n)
    {
      WithNodeWf(arena, shape, n);
      h := arena.bound;
      arena := WithNode(arena, n);
    }

    /** The INSN_UID store of emit_label. */
    method SetUid(h: nat, uid: nat)
      requires Valid() && h in arena.node
      modifies this
      ensures Valid() && shape == old(shape)
      ensures arena == old(arena).(node := old(arena.node)[h := old(arena.node[h]).(uid := uid)])
    {
      var node := arena.node[h := arena.node[h].(uid := uid)];
      RenodedWf(arena, shape, node);
      arena := arena.(node := node);
    }

    /** add_insn: `h` becomes the last insn of the current chain. */
    method AddInsn(h: nat)
      requires Valid() && 0 < h < arena.bound && h !in shape.loc
      modifies this
      ensures Valid() && arena == Appended(old(arena), h)
      ensures Current() == old(Current()) + [h] && shape.chains == old(shape.chains)[|arena.stack| := Current()]
    {
      ghost var s' := AppendStep(arena, shape, h);
      arena, shape := Appended(arena, h), s';
    }

    /** add_insn_after: the detached `h` is linked in after `after`. It
        aborts when optimizing and `after` has been deleted. */
    method AddInsnAfter(h: nat, after: nat, optimize: bool) returns (aborted: bool)
      requires Valid() && 0 < h < arena.bound && h !in shape.loc && after in shape.loc
      modifies this
      ensures Valid() && after in old(arena.node) && aborted == (optimize && old(arena.node[after].deleted))
      ensures aborted ==> arena == old(arena) && shape == old(shape)
      ensures !aborted ==>
        var b, t := old(shape.loc[after].0), old(shape.loc[after].1);
        Some(arena) == SplicedAfter(old(arena), h, h, after, InnermostSlot(old(arena.stack), after, false)) &&
        b < |old(shape.chains)| && t < |old(shape.chains[b])| &&
        shape.chains == old(shape.chains)[b := old(shape.chains[b])[..t + 1] + [h] + old(shape.chains[b])[t + 1..]]
    {
      Placed(arena, shape, after);
      if optimize && arena.node[after].deleted {
        return true;
      }
      ghost var s' := AfterStep(arena, shape, [h], after);
      var r := AfterSplice(arena, h, h, after);
      arena, shape := r.value, s';
      return false;
    }

    /** add_insn_before: the detached `h` is linked in front of `before`.
        It aborts when optimizing and `before` has been deleted. */
    method AddInsnBefore(h: nat, before: nat, optimize: bool) returns (aborted: bool)
      requires Valid() && 0 < h < arena.bound && h !in shape.loc && before in shape.loc
      modifies this
      ensures Valid() && before in old(arena.node) && aborted == (optimize && old(arena.node[before].deleted))
      ensures aborted ==> arena == old(arena) && shape == old(shape)
      ensures !aborted ==>
        var b, t := old(shape.loc[before].0), old(shape.loc[before].1);
        Some(arena) == SplicedBefore(old(arena), h, before, InnermostSlot(old(arena.stack), before, true)) &&
        b < |old(shape.chains)| && t < |old(shape.chains[b])| &&
        shape.chains == old(shape.chains)[b := old(shape.chains[b])[..t] + [h] + old(shape.chains[b])[t..]]
    {
      Placed(arena, shape, before);
      if optimize && arena.node[before].deleted {
        return true;
      }
      ghost var s' := BeforeStep(arena, shape, h, before);
      var r := BeforeSplice(arena, h, before);
      arena, shape := r.value, s';
      return false;
    }

    /** delete_insns_since: `from` becomes the last insn; 0 empties the chain. */
    method DeleteInsnsSince(from: nat)
      requires Valid() && (from == 0 || (from in shape.loc && shape.loc[from].0 == |arena.stack|))
      modifies this
      ensures Valid() && arena == Truncated(old(arena), from)
      ensures Current() == old(Current())[..if from == 0 then 0 else old(shape.loc[from].1) + 1]
      ensures shape.chains == old(shape.chains)[|arena.stack| := Current()]
    {
      ghost var s' := TruncateStep(arena, shape, from);
      arena, shape := Truncated(arena, from), s';
    }

    /** reorder_insns: the run from .. to of the current chain moves to
        just after `after`, which lies outside it. */
    method ReorderInsns(from: nat, to: nat, after: nat)
      requires Valid() && from in shape.loc && to in shape.loc && after in shape.loc
      requires shape.loc[from].0 == |arena.stack| && shape.loc[to].0 == |arena.stack| && shape.loc[after].0 == |arena.stack|
      requires shape.loc[from].1 <= shape.loc[to].1
      requires shape.loc[after].1 < shape.loc[from].1 || shape.loc[to].1 < shape.loc[after].1
      modifies this
      ensures Valid() && old(shape.loc[to].1) < |old(Current())| && old(shape.loc[after].1) < |old(Current())|
      ensures arena == Reordered(old(arena), from, to, after)
      ensures Current() == Moved(old(Current()), old(shape.loc[from].1), old(shape.loc[to].1), old(shape.loc[after].1))
      ensures shape.chains == old(shape.chains)[|arena.stack| := Current()]
    {
      ghost var s' := ReorderStep(arena, shape, from, to, after);
      arena, shape := Reordered(arena, from, to, after), s';
    }

    /** emit_insns_after: the detached chain `d` starting at `first` is
        linked in after `after`; the result is its last insn. The fix-up
        of the chain ends is add_insn_after's, which also moves a saved
        last insn. */
    method EmitInsnsAfter(first: nat, after: nat, ghost d: seq<nat>) returns (r: Result<nat>)
      requires Valid()
      requires after != 0 && first != 0 ==> after in shape.loc && d != [] && FreeRun(arena, shape, d, first, d[|d| - 1])
      modifies this
      ensures Valid()
      ensures after == 0 ==> r == Abort && arena == old(arena) && shape == old(shape)
      ensures after != 0 && first == 0 ==> r == Ok(0) && arena == old(arena) && shape == old(shape)
      ensures after != 0 && first != 0 ==>
        var b, t := old(shape.loc[after].0), old(shape.loc[after].1);
        r == Ok(d[|d| - 1]) && b < |old(shape.chains)| && t < |old(shape.chains[b])| &&
        Some(arena) == SplicedAfter(old(arena), first, d[|d| - 1], after, InnermostSlot(old(arena.stack), after, false)) &&
        shape.chains == old(shape.chains)[b := old(shape.chains[b])[..t + 1] + d + old(shape.chains[b])[t + 1..]]
    {
      if after == 0 {
        return Abort;
      }
      if first == 0 {
        return Ok(0);
      }
      Placed(arena, shape, after);
      var last := WalkToLast(arena.nextOf, first, d);
      ghost var s' := AfterStep(arena, shape, d, after);
      var spliced := AfterSplice(arena, first, last, after);
      arena, shape := spliced.value, s';
      return Ok(last);
    }

    // ---------------------------------------------------------------- the sequence stack

    /** start_sequence: the current ends are saved and the chain is empty. */
    method StartSequence()
      requires Valid()
      modifies this
      ensures Valid() && arena == Pushed(old(arena), 0, 0) && shape.chains == old(shape.chains) + [[]]
      ensures InSequence() && Current() == []
    {
      ghost var s' := PushStep(arena, shape, [], 0, 0);
      arena, shape := Pushed(arena, 0, 0), s';
    }

    /** push_to_sequence: the current ends are saved and the detached
        chain `d` from `first` becomes current. */
    method PushToSequence(first: nat, ghost d: seq<nat>)
      requires Valid() && Linked(d, Ends(first, Before(d, |d|)), arena.nextOf, arena.prevOf)
      requires Distinct(d) && Detached(d, shape.loc, arena.bound)
      modifies this
      ensures Valid() && arena == Pushed(old(arena), first, Before(d, |d|)) && shape.chains == old(shape.chains) + [d]
      ensures InSequence() && Current() == d
    {
      ghost var s' := PushStep(arena, shape, d, first, Before(d, |d|));
      StartSequence();
      var last := WalkToLast(arena.nextOf, first, d);
      arena, shape := arena.(first := first, last := last), s';
    }

    /** end_sequence: the innermost saved ends become current again. */
    method EndSequence()
      requires Valid() && InSequence()
      modifies this
      ensures Valid() && arena == Popped(old(arena)) && shape.chains == old(shape.chains)[..|old(arena.stack)|]
      ensures Current() == old(shape.chains)[|arena.stack|] && InSequence() == (|old(arena.stack)| > 1)
    {
      ghost var s' := PopStep(arena, shape);
      arena, shape := Popped(arena), s';
    }

    /** in_sequence_p */
    function InSequence(): (r: bool)
      reads this
      ensures r <==> |arena.stack| > 0
    {
      arena.stack != []
    }

    /** gen_sequence: the insns of the current chain, counted and then
        collected, or the pattern of the only one when it can stand alone. */
    method GenSequence() returns (r: Emitted)
      requires Valid()
      ensures Current() != [] ==> Current()[0] in arena.node
      ensures r == if |Current()| == 1 && Discardable(arena.node[Current()[0]])
                   then PatternOf(arena.node[Current()[0]].pattern) else SequenceOf(Current())
    {
      ChainFacts(arena, shape, |arena.stack|);
      var len := CountChain();
      if len == 1 && Discardable(arena.node[arena.first]) {
        return PatternOf(arena.node[arena.first].pattern);
      }
      var elts := CollectChain();
      return SequenceOf(elts);
    }

    /** The counting loop of gen_sequence: the length of the current chain. */
    method CountChain() returns (len: nat)
      requires Valid()
      ensures len == |Current()|
    {
      ghost var c := Current();
      ChainFacts(arena, shape, |arena.stack|);
      var nx := arena.nextOf;
      len := 0;
      var tem := arena.first;
      while tem != 0
        invariant len <= |c| && tem == At(c, len)
        decreases |c| - len
      {
        LinkedNext(c, Ends(arena.first, arena.last), nx, arena.prevOf, len);
        tem := nx[tem];
        len := len + 1;
      }
    }

    /** The collecting loop of gen_sequence: the current chain's insns in
        NEXT_INSN order. */
    method CollectChain() returns (elts: seq<nat>)
      requires Valid()
      ensures elts == Current()
    {
      ghost var c := Current();
      ChainFacts(arena, shape, |arena.stack|);
      var nx := arena.nextOf;
      elts := [];
      var tem := arena.first;
      while tem != 0
        invariant |elts| <= |c| && elts == c[..|elts|] && tem == At(c, |elts|)
        decreases |c| - |elts|
      {
        LinkedNext(c, Ends(arena.first, arena.last), nx, arena.prevOf, |elts|);
        elts := elts + [tem];
        tem := nx[tem];
      }
    }

    /** The chain part of set_new_first_and_last_insn: the chain `d` from
        `first` to `last` becomes current. */
    method Renew(first: nat, last: nat, ghost d: seq<nat>)
      requires Valid() && Linked(d, Ends(first, last), arena.nextOf, arena.prevOf) && Distinct(d)
      requires forall t | 0 <= t < |d| :: 0 < d[t] < arena.bound && (d[t] in shape.loc ==> shape.loc[d[t]].0 == |arena.stack|)
      modifies this
      ensures Valid() && arena == Renewed(old(arena), first, last) && Current() == d
      ensures shape.chains == old(shape.chains)[|arena.stack| := d]
    {
      ghost var s' := RenewStep(arena, shape, d, first, last);
      arena, shape := Renewed(arena, first, last), s';
    }

    // ---------------------------------------------------------------- searches

    /** next_nonnote_insn, next_real_insn, next_active_insn and next_label:
        the first insn after `h` on its chain where the search stops, 0
        when there is none (or when `h` is 0). */
    method NextMatching(h: nat, k: Search, reloadCompleted: bool) returns (r: nat)
      requires Valid() && (h == 0 || h in shape.loc)
      ensures h == 0 ==> r == 0
      ensures h != 0 ==>
        var b, u := shape.loc[h].0, shape.loc[h].1;
        b < |shape.chains| && u < |shape.chains[b]| && InNodes(arena.node, shape.chains[b]) &&
        r == At(shape.chains[b], NextStop(arena.node, shape.chains[b], u + 1, k, reloadCompleted))
    {
      if h == 0 {
        return 0;
      }
      Placed(arena, shape, h);
      ghost var b, u := shape.loc[h].0, shape.loc[h].1;
      ghost var c := shape.chains[b];
      ChainFacts(arena, shape, b);
      r := NextWalk(arena.node, arena.nextOf, h, k, reloadCompleted, c, AllEnds(arena)[b], arena.prevOf, u);
    }

    /** prev_nonnote_insn, prev_real_insn, prev_active_insn and prev_label:
        the last insn before `h` on its chain where the search stops, 0
        when there is none (or when `h` is 0). */
    method PrevMatching(h: nat, k: Search, reloadCompleted: bool) returns (r: nat)
      requires Valid() && (h == 0 || h in shape.loc)
      ensures h == 0 ==> r == 0
      ensures h != 0 ==>
        var b, u := shape.loc[h].0, shape.loc[h].1;
        b < |shape.chains| && u < |shape.chains[b]| && InNodes(arena.node, shape.chains[b]) &&
        r == Before(shape.chains[b], PrevStop(arena.node, shape.chains[b], u, k, reloadCompleted))
    {
      if h == 0 {
        return 0;
      }
      Placed(arena, shape, h);
      ghost var b, u := shape.loc[h].0, shape.loc[h].1;
      ghost var c := shape.chains[b];
      ChainFacts(arena, shape, b);
      r := PrevWalk(arena.node, arena.prevOf, h, k, reloadCompleted, c, AllEnds(arena)[b], arena.nextOf, u);
    }
  }

  /** The loop of the forward searches: NEXT_INSN from the member at `u`
      of the linked chain `c` until the search stops or runs off the end. */
  method NextWalk(node: map<nat, Node>, nx: Links, h: nat, k: Search, rc: bool,
                  ghost c: seq<nat>, ghost e: Ends, ghost pv: Links, ghost u: nat) returns (r: nat)
    requires Linked(c, e, nx, pv) && NonNull(c) && InNodes(node, c) && u < |c| && c[u] == h
    ensures r == At(c, NextStop(node, c, u + 1, k, rc))
  {
    LinkedNext(c, e, nx, pv, u);
    r := nx[h];
    ghost var p := u + 1;
    while r != 0 && !Stops(k, rc, node[r])
      invariant u + 1 <= p <= |c| && r == At(c, p)
      invariant NextStop(node, c, u + 1, k, rc) == NextStop(node, c, p, k, rc)
      decreases |c| - p
    {
      LinkedNext(c, e, nx, pv, p);
      r := nx[r];
      p := p + 1;
    }
  }

  /** The loop of the backward searches, along PREV_INSN. */
  method PrevWalk(node: map<nat, Node>, pv: Links, h: nat, k: Search, rc: bool,
                  ghost c: seq<nat>, ghost e: Ends, ghost nx: Links, ghost u: nat) returns (r: nat)
    requires Linked(c, e, nx, pv) && NonNull(c) && InNodes(node, c) && u < |c| && c[u] == h
    ensures r == Before(c, PrevStop(node, c, u, k, rc))
  {
    LinkedPrev(c, e, nx, pv, u);
    r := pv[h];
    ghost var p := u;
    while r != 0 && !Stops(k, rc, node[r])
      invariant 0 <= p <= u && r == Before(c, p)
      invariant PrevStop(node, c, u, k, rc) == PrevStop(node, c, p, k, rc)
      decreases p
    {
      LinkedPrev(c, e, nx, pv, p - 1);
      r := pv[r];
      p := p - 1;
    }
  }

  /** The emitter's own state, next to the chain: cur_insn_uid, the label
      counters and the last line note. */
  class InsnEmitter {
    const chain: Chain
    var curInsnUid: nat
    /** label_num, first_label_num, last_label_num, base_label_num */
    var labelNum: nat
    var firstLabelNum: nat
    var lastLabelNum: nat
    var baseLabelNum: nat
    /** last_filename and last_linenum: the last line note emitted */
    var lastFilename: Option<string>
    var lastLinenum: int
    /** optimize and no_line_numbers, fixed for the function */
    const optimize: bool
    const noLineNumbers: bool

    ghost predicate Valid()
      reads this, chain
    {
      chain.Valid() && baseLabelNum <= labelNum
    }

    function Labels(): (nat, nat, nat, nat)
      reads this
    {
      (labelNum, firstLabelNum, lastLabelNum, baseLabelNum)
    }

    function Lines(): (Option<string>, int)
      reads this
    {
      (lastFilename, lastLinenum)
    }

    /** init_emit: an empty chain, no pending sequence, uids from 1. The
        label counter carries over from the previous function. */
    constructor (optimize: bool, noLineNumbers: bool, labelNum: nat, baseLabelNum: nat)
      requires baseLabelNum <= labelNum
      ensures Valid() && fresh(chain) && chain.arena == Arena(map[], map[], map[], 0, 0, [], 1) && chain.shape.chains == [[]]
      ensures curInsnUid == 1 && Lines() == (None, 0) && Labels() == (labelNum, labelNum, 0, baseLabelNum)
      ensures this.optimize == optimize && this.noLineNumbers == noLineNumbers
    {
      this.optimize := optimize;
      this.noLineNumbers := noLineNumbers;
      chain := new Chain();
      curInsnUid := 1;
      this.labelNum := labelNum;
      firstLabelNum := labelNum;
      lastLabelNum := 0;
      this.baseLabelNum := baseLabelNum;
      lastFilename := None;
      lastLinenum := 0;
    }

    /** make_insn_raw, make_jump_insn_raw, make_call_insn_raw and the
        allocation in emit_barrier: a new insn numbered cur_insn_uid++. */
    method MakeInsnRaw(code: InsnCode, pattern: Rtx) returns (h: nat)
      requires Valid()
      modifies this, chain
      ensures Valid() && h == old(chain.arena.bound) && 0 < h && h !in chain.shape.loc && chain.shape == old(chain.shape)
      ensures chain.arena == WithNode(old(chain.arena), Blank(code, old(curInsnUid), pattern))
      ensures curInsnUid == old(curInsnUid) + 1 && Labels() == old(Labels()) && Lines() == old(Lines())
    {
      h := chain.NewInsn(Blank(code, curInsnUid, pattern));
      curInsnUid := curInsnUid + 1;
    }

    /** set_new_first_and_last_insn: the chain `d` from `first` to `last`
        becomes current, and cur_insn_uid moves past every uid on it. */
    method SetNewFirstAndLastInsn(first: nat, last: nat, ghost d: seq<nat>)
      requires Valid() && Linked(d, Ends(first, last), chain.arena.nextOf, chain.arena.prevOf) && Distinct(d)
      requires forall t | 0 <= t < |d| :: 0 < d[t] < chain.arena.bound && (d[t] in chain.shape.loc ==> chain.shape.loc[d[t]].0 == |chain.arena.stack|)
      modifies this, chain
      ensures Valid() && chain.arena == Renewed(old(chain.arena), first, last) && chain.Current() == d
      ensures chain.shape.chains == old(chain.shape.chains)[|chain.arena.stack| := d]
      ensures InNodes(chain.arena.node, d) && curInsnUid == MaxUid(chain.arena.node, d, |d|) + 1
      ensures forall t | 0 <= t < |d| :: chain.arena.node[d[t]].uid < curInsnUid
      ensures Labels() == old(Labels()) && Lines() == old(Lines())
    {
      chain.Renew(first, last, d);
      ChainFacts(chain.arena, chain.shape, |chain.arena.stack|);
      var m := MaxUidWalk(chain.arena.node, chain.arena.nextOf, first, d);
      curInsnUid := m + 1;
    }

    // ---------------------------------------------------------------- labels

    /** max_label_num: one past the largest label number used, which is
        last_label_num when an inlined function set the range and no
        label has been made since. */
    function MaxLabelNum(): (r: nat)
      reads this
      ensures r == labelNum || (r == lastLabelNum && labelNum == baseLabelNum)
    {
      if lastLabelNum != 0 && labelNum == baseLabelNum then lastLabelNum else labelNum
    }

    /** set_new_first_and_last_label_num */
    method SetNewFirstAndLastLabelNum(first: nat, last: nat)
      requires Valid()
      modifies this
      ensures Valid() && Labels() == (old(labelNum), first, last, old(labelNum))
      ensures MaxLabelNum() == if last != 0 then last else labelNum
      ensures curInsnUid == old(curInsnUid) && Lines() == old(Lines())
    {
      baseLabelNum := labelNum;
      firstLabelNum := first;
      lastLabelNum := last;
    }

    /** gen_label_rtx: a new CODE_LABEL numbered label_num++. */
    method GenLabelRtx() returns (h: nat)
      requires Valid()
      modifies this, chain
      ensures Valid() && h == old(chain.arena.bound) && 0 < h && h !in chain.shape.loc && chain.shape == old(chain.shape)
      ensures chain.arena == WithNode(old(chain.arena), LabelNode(old(labelNum)))
      ensures labelNum == old(labelNum) + 1 && MaxLabelNum() == labelNum
      ensures (firstLabelNum, lastLabelNum, baseLabelNum) == (old(firstLabelNum), old(lastLabelNum), old(baseLabelNum))
      ensures curInsnUid == old(curInsnUid) && Lines() == old(Lines())
    {
      h := chain.NewInsn(LabelNode(labelNum));
      labelNum := labelNum + 1;
    }

    /** emit_label: a label not emitted yet (uid 0) gets the next uid and
        is added to the chain; emitting it again does nothing. */
    method EmitLabel(h: nat) returns (r: nat)
      requires Valid() && 0 < h < chain.arena.bound
      requires h in chain.arena.node && chain.arena.node[h].uid == 0 ==> h !in chain.shape.loc
      modifies this, chain
      ensures Valid() && r == h && h in old(chain.arena.node)
      ensures old(chain.arena.node[h].uid) != 0 ==>
        chain.arena == old(chain.arena) && chain.shape == old(chain.shape) && curInsnUid == old(curInsnUid)
      ensures old(chain.arena.node[h].uid) == 0 ==>
        var a := old(chain.arena);
        chain.arena == Appended(a.(node := a.node[h := a.node[h].(uid := old(curInsnUid))]), h) &&
        chain.Current() == old(chain.Current()) + [h] &&
        chain.shape.chains == old(chain.shape.chains)[|chain.arena.stack| := chain.Current()] &&
        curInsnUid == old(curInsnUid) + 1
      ensures Labels() == old(Labels()) && Lines() == old(Lines())
    {
      r := h;
      if chain.arena.node[h].uid == 0 {
        chain.SetUid(h, curInsnUid);
        curInsnUid := curInsnUid + 1;
        chain.AddInsn(h);
      }
    }

    // ---------------------------------------------------------------- emitting at the end of the chain

    /** emit_insn, emit_jump_insn and emit_call_insn of a pattern that is
        not a SEQUENCE: a new insn of kind `code` added at the end. */
    method EmitInsn(code: InsnCode, pattern: Rtx) returns (h: nat)
      requires Valid()
      modifies this, chain
      ensures Valid() && h == old(chain.arena.bound) && chain.Current() == old(chain.Current()) + [h]
      ensures chain.arena == Appended(WithNode(old(chain.arena), Blank(code, old(curInsnUid), pattern)), h)
      ensures chain.shape.chains == old(chain.shape.chains)[|chain.arena.stack| := chain.Current()]
      ensures curInsnUid == old(curInsnUid) + 1 && Labels() == old(Labels()) && Lines() == old(Lines())
    {
      h := MakeInsnRaw(code, pattern);
      chain.AddInsn(h);
    }

    /** emit_barrier */
    method EmitBarrier() returns (h: nat)
      requires Valid()
      modifies this, chain
      ensures Valid() && h == old(chain.arena.bound) && chain.Current() == old(chain.Current()) + [h]
      ensures chain.arena == Appended(WithNode(old(chain.arena), Blank(BarrierInsn, old(curInsnUid), NoPattern)), h)
      ensures chain.shape.chains == old(chain.shape.chains)[|chain.arena.stack| := chain.Current()]
      ensures curInsnUid == old(curInsnUid) + 1 && Labels() == old(Labels()) && Lines() == old(Lines())
    {
      h := MakeInsnRaw(BarrierInsn, NoPattern);
      chain.AddInsn(h);
    }

    /** emit: the pattern becomes an insn of the kind classify_insn picks;
        a simple jump or a RETURN is followed by a barrier, which is then
        the result. A CODE_LABEL is emitted as itself. */
    method Emit(x: Rtx) returns (r: nat)
      requires Valid()
      requires x.CodeLabel? ==> 0 < x.handle < chain.arena.bound &&
                                (x.handle in chain.arena.node && chain.arena.node[x.handle].uid == 0 ==> x.handle !in chain.shape.loc)
      modifies this, chain
      ensures Valid() && (x.CodeLabel? ==> r == x.handle)
      ensures x.CodeLabel? && old(chain.arena.node[x.handle].uid) != 0 ==>
        chain.arena == old(chain.arena) && chain.shape == old(chain.shape) && curInsnUid == old(curInsnUid)
      ensures x.CodeLabel? && old(chain.arena.node[x.handle].uid) == 0 ==>
        var a, h := old(chain.arena), x.handle;
        chain.arena == Appended(a.(node := a.node[h := a.node[h].(uid := old(curInsnUid))]), h) &&
        chain.Current() == old(chain.Current()) + [h] &&
        chain.shape.chains == old(chain.shape.chains)[|chain.arena.stack| := chain.Current()] &&
        curInsnUid == old(curInsnUid) + 1
      ensures !x.CodeLabel? ==>
        var h, barrier := old(chain.arena.bound), ClassifyInsn(x) == JumpInsn && (SimpleJumpPattern(x) || x.Return?);
        var a1 := Appended(WithNode(old(chain.arena), Blank(ClassifyInsn(x), old(curInsnUid), x)), h);
        chain.arena == (if barrier then Appended(WithNode(a1, Blank(BarrierInsn, old(curInsnUid) + 1, NoPattern)), h + 1) else a1) &&
        chain.shape.chains == old(chain.shape.chains)[|chain.arena.stack| := chain.Current()] &&
        chain.Current() == old(chain.Current()) + [h] + (if barrier then [h + 1] else []) &&
        r == (if barrier then h + 1 else h) &&
        h in chain.arena.node && chain.arena.node[h].code == ClassifyInsn(x) && chain.arena.node[h].pattern == x &&
        curInsnUid == old(curInsnUid) + (if barrier then 2 else 1)
      ensures Labels() == old(Labels()) && Lines() == old(Lines())
    {
      var code := ClassifyInsn(x);
      ClassifyInsnCases(x);
      if code == LabelInsn {
        r := EmitLabel(x.handle);
      } else if code == JumpInsn {
        r := EmitInsn(JumpInsn, x);
        if SimpleJumpPattern(x) || x.Return? {
          ghost var n := chain.arena.node;
          ghost var cs := chain.shape.chains;
          r := EmitBarrier();
          assert chain.arena.node == n[r := Blank(BarrierInsn, curInsnUid - 1, NoPattern)];
          UpdateTwice(old(chain.shape.chains), |chain.arena.stack|, cs[|chain.arena.stack|], chain.Current());
        }
      } else {
        r := EmitInsn(code, x);
      }
    }

    /** emit_note: a line note (line > 0) that repeats the last file and
        line is dropped; with no_line_numbers a line note only uses up a
        uid; otherwise the NOTE is added at the end. The result is the
        note, or 0 when none is emitted. */
    method EmitNote(file: Option<string>, line: int) returns (r: nat)
      requires Valid()
      modifies this, chain
      ensures Valid() && Labels() == old(Labels())
      ensures var repeat := line > 0 && file.Some? && old(lastFilename).Some? && file == old(lastFilename) && line == old(lastLinenum);
        if repeat then
          r == 0 && chain.arena == old(chain.arena) && chain.shape == old(chain.shape) &&
          curInsnUid == old(curInsnUid) && Lines() == old(Lines())
        else
          Lines() == (if line > 0 then (file, line) else old(Lines())) &&
          curInsnUid == old(curInsnUid) + 1 &&
          if noLineNumbers && line > 0 then
            r == 0 && chain.arena == old(chain.arena) && chain.shape == old(chain.shape)
          else
            r == old(chain.arena.bound) && chain.Current() == old(chain.Current()) + [r] &&
            chain.arena == Appended(WithNode(old(chain.arena), NoteNode(old(curInsnUid), file, line)), r) &&
            chain.shape.chains == old(chain.shape.chains)[|chain.arena.stack| := chain.Current()]
    {
      if line > 0 {
        if file.Some? && lastFilename.Some? && file == lastFilename && line == lastLinenum {
          return 0;
        }
        lastFilename := file;
        lastLinenum := line;
      }
      if noLineNumbers && line > 0 {
        curInsnUid := curInsnUid + 1;
        return 0;
      }
      r := chain.NewInsn(NoteNode(curInsnUid, file, line));
      curInsnUid := curInsnUid + 1;
      chain.AddInsn(r);
    }
  }
}
