/** The deletion phase of find_basic_blocks_1: the sanity check on
    unreferenced labels, the removal of the code of every block the marking
    left dead, the jumps around dead code that become no-ops, the clean-up
    of exception region notes whose handlers are gone. The chain is an array of
    instructions in their original NEXT_INSN order with a flag per position
    telling whether it is still linked: PUT_CODE to NOTE rewrites an
    element, flow_delete_insn and delete_insn clear its flag. */
module Prune {
  import opened Rtl
  import opened Insns
  import opened Blocks
  import opened LabelRefs
  import opened Reach

  /** The blocks follow one another along the chain, and no block is
      headed by a BARRIER. */
  predicate Ordered(e: Env)
    requires EnvOk(e)
  {
    (forall b | 0 <= b < NBlocks(e) :: e.insns[e.p.heads[b]].code != BarrierInsn) &&
    (forall b | 0 <= b < NBlocks(e) - 1 :: e.p.ends[b] < e.p.heads[b + 1])
  }

  /** The tagging scan leaves its blocks in order: each head is a
      CODE_LABEL or a real instruction, each end lies before the next head. */
  lemma TaggedOrdered(e: Env, nonlocal: bool, retvalAsInsn: bool)
    requires EhBalanced(e.insns)
    requires Tagged(e.insns, |e.insns|, nonlocal, e.async, retvalAsInsn, e.p)
    requires |e.drops| == |e.p.heads|
    ensures EnvOk(e) && Ordered(e)
  {
    TaggedEnvOk(e, nonlocal, retvalAsInsn);
    StartsOrdered(e, nonlocal, retvalAsInsn);
  }

  lemma StartsOrdered(e: Env, nonlocal: bool, retvalAsInsn: bool)
    requires EnvOk(e)
    requires e.p.heads == Starts(e.insns, |e.insns|, nonlocal, retvalAsInsn)
    requires EndsOk(e.insns, |e.insns|, e.p.heads, e.p.ends)
    ensures Ordered(e)
  {
    var insns := e.insns;
    var heads := e.p.heads;
    forall b | 0 <= b < |heads| ensures insns[heads[b]].code != BarrierInsn {
      StartsSound(insns, |insns|, nonlocal, retvalAsInsn, b);
    }
    forall b | 0 <= b < |heads| - 1 ensures e.p.ends[b] < heads[b + 1] {
      StartsIncreasing(insns, |insns|, nonlocal, retvalAsInsn, b, b + 1);
      assert e.p.ends[b] == EndFrom(insns, heads[b], heads[b + 1]);
    }
  }

  /** The first live block from j on. */
  function NextLive(live: seq<bool>, j: nat): (r: Option<nat>)
    ensures r.Some? ==> j <= r.value < |live| && live[r.value] &&
                        forall c | j <= c < r.value :: !live[c]
    ensures r.None? ==> forall c | j <= c < |live| :: !live[c]
    decreases |live| - j
  {
    if j >= |live| then None
    else if live[j] then Some(j)
    else NextLive(live, j + 1)
  }

  /** The instruction at q is an unconditional jump (simplejump_p) to an
      emitted label of block j. */
  predicate JumpsToBlock(e: Env, q: nat, j: nat)
    requires EnvOk(e) && q < |e.insns|
  {
    var x := e.insns[q];
    x.code == JumpInsn && SimpleJumpPattern(x.pattern) && x.pattern.src.handle != 0 &&
    LabelPos(e.insns, x.pattern.src.handle).Some? &&
    LabelBlock(e.insns, e.p.blockOf, x.pattern.src.handle) == j
  }

  /** Dead block b follows live block b - 1, whose last instruction jumps to
      the first live block after b: the jump has become a no-op. */
  predicate JumpAround(e: Env, live: seq<bool>, b: nat)
    requires EnvOk(e) && |live| == NBlocks(e)
  {
    1 <= b < NBlocks(e) && !live[b] && live[b - 1] &&
    NextLive(live, b + 1).Some? && JumpsToBlock(e, e.p.ends[b - 1], NextLive(live, b + 1).value)
  }

  /** Deleting dead block b aborts: it holds a BARRIER. */
  ghost predicate DeadHasBarrier(e: Env, live: seq<bool>, b: nat)
    requires EnvOk(e) && |live| == NBlocks(e) && b < NBlocks(e)
  {
    !live[b] && exists k | e.p.heads[b] <= k <= e.p.ends[b] :: e.insns[k].code == BarrierInsn
  }

  /** Removing the jump around dead block b aborts: no BARRIER follows it. */
  ghost predicate JumpWithoutBarrier(e: Env, live: seq<bool>, b: nat)
    requires EnvOk(e) && |live| == NBlocks(e)
  {
    JumpAround(e, live, b) &&
    !(e.p.ends[b - 1] + 1 < |e.insns| && e.insns[e.p.ends[b - 1] + 1].code == BarrierInsn)
  }

  ghost predicate StepAborts(e: Env, live: seq<bool>, b: nat)
    requires EnvOk(e) && |live| == NBlocks(e) && b < NBlocks(e)
  {
    DeadHasBarrier(e, live, b) || JumpWithoutBarrier(e, live, b)
  }

  /** Deleting dead block b turns the instruction at k into a
      NOTE_INSN_DELETED note: k is its head or its end and not a NOTE. */
  ghost predicate DeadNoted(e: Env, live: seq<bool>, k: nat, b: nat)
    requires EnvOk(e) && |live| == NBlocks(e) && k < |e.insns| && b < NBlocks(e)
  {
    !live[b] && e.insns[k].code != NoteInsn && (k == e.p.heads[b] || k == e.p.ends[b])
  }

  /** Deleting dead block b unlinks the instruction at k: a non-NOTE
      strictly inside the block, or a BARRIER right after it. */
  ghost predicate DeadUnlinked(e: Env, live: seq<bool>, k: nat, b: nat)
    requires EnvOk(e) && |live| == NBlocks(e) && k < |e.insns| && b < NBlocks(e)
  {
    !live[b] &&
    ((e.insns[k].code != NoteInsn && e.p.heads[b] < k < e.p.ends[b]) ||
     (e.insns[k].code == BarrierInsn && k == e.p.ends[b] + 1))
  }

  /** Step b of the deletion loop turns the instruction at k into a deleted
      note: deleting block b does, or k holds the jump around block b. */
  ghost predicate NotedBy(e: Env, live: seq<bool>, k: nat, b: nat)
    requires EnvOk(e) && |live| == NBlocks(e) && k < |e.insns| && b < NBlocks(e)
  {
    DeadNoted(e, live, k, b) || (JumpAround(e, live, b) && k == e.p.ends[b - 1])
  }

  /** Step b of the deletion loop unlinks the instruction at k: deleting
      block b does, or k holds the BARRIER after the jump around block b. */
  ghost predicate UnlinkedBy(e: Env, live: seq<bool>, k: nat, b: nat)
    requires EnvOk(e) && |live| == NBlocks(e) && k < |e.insns| && b < NBlocks(e)
  {
    DeadUnlinked(e, live, k, b) || (JumpAround(e, live, b) && k == e.p.ends[b - 1] + 1)
  }

  /** Step b of the deletion loop sets the drops-in flag of block c: the
      jump around b is gone, so control falls from b - 1 through b up to the
      jump's target block. */
  ghost predicate DropsBy(e: Env, live: seq<bool>, c: nat, b: nat)
    requires EnvOk(e) && |live| == NBlocks(e) && b < NBlocks(e)
  {
    JumpAround(e, live, b) && b <= c <= NextLive(live, b + 1).value
  }

  ghost predicate NotedBelow(e: Env, live: seq<bool>, k: nat, i: nat)
    requires EnvOk(e) && |live| == NBlocks(e) && k < |e.insns| && i <= NBlocks(e)
  {
    exists b | 0 <= b < i :: NotedBy(e, live, k, b)
  }

  ghost predicate UnlinkedBelow(e: Env, live: seq<bool>, k: nat, i: nat)
    requires EnvOk(e) && |live| == NBlocks(e) && k < |e.insns| && i <= NBlocks(e)
  {
    exists b | 0 <= b < i :: UnlinkedBy(e, live, k, b)
  }

  ghost predicate DropsBelow(e: Env, live: seq<bool>, c: nat, i: nat)
    requires EnvOk(e) && |live| == NBlocks(e) && i <= NBlocks(e)
  {
    exists b | 0 <= b < i :: DropsBy(e, live, c, b)
  }

  /** The chain once blocks 0 .. i-1 have been through the deletion loop. */
  ghost function PrunedChain(e: Env, live: seq<bool>, i: nat): (r: seq<Insn>)
    requires EnvOk(e) && |live| == NBlocks(e) && i <= NBlocks(e)
    ensures |r| == |e.insns|
  {
    seq(|e.insns|, k requires 0 <= k < |e.insns| =>
      if NotedBelow(e, live, k, i) then AsDeletedNote(e.insns[k]) else e.insns[k])
  }

  /** Which positions are still linked once blocks 0 .. i-1 have been
      through the deletion loop. */
  ghost function PrunedLinks(e: Env, live: seq<bool>, i: nat): (r: seq<bool>)
    requires EnvOk(e) && |live| == NBlocks(e) && i <= NBlocks(e)
    ensures |r| == |e.insns|
  {
    seq(|e.insns|, k requires 0 <= k < |e.insns| => !UnlinkedBelow(e, live, k, i))
  }

  /** The drops-in flags once blocks 0 .. i-1 have been through the
      deletion loop. */
  ghost function PrunedDrops(e: Env, live: seq<bool>, i: nat): (r: seq<bool>)
    requires EnvOk(e) && |live| == NBlocks(e) && i <= NBlocks(e) && |e.drops| == NBlocks(e)
    ensures |r| == NBlocks(e)
  {
    seq(NBlocks(e), c requires 0 <= c < NBlocks(e) => e.drops[c] || DropsBelow(e, live, c, i))
  }

  ghost predicate PrunedBelow(e: Env, live: seq<bool>, chain: seq<Insn>, linked: seq<bool>, drops: seq<bool>, i: nat)
    requires EnvOk(e) && |live| == NBlocks(e) && i <= NBlocks(e)
  {
    chain == PrunedChain(e, live, i) && linked == PrunedLinks(e, live, i) && drops == PrunedDrops(e, live, i)
  }

  /** The number of dead blocks below i. */
  function DeadBelow(live: seq<bool>, i: nat): nat
    requires i <= |live|
  {
    if i == 0 then 0 else DeadBelow(live, i - 1) + (if live[i - 1] then 0 else 1)
  }

  /** The exception_handler_labels list and the labels remove_handler was
      called for, in call order. */
  datatype EhState = EhState(labels: seq<nat>, removed: seq<nat>)

  /** The list with the first occurrence of x spliced out. */
  function RemoveFirst(s: seq<nat>, x: nat): (r: seq<nat>)
    ensures x in s ==> multiset(r) + multiset{x} == multiset(s)
    ensures x !in s ==> r == s
  {
    if s == [] then []
    else
      assert s == [s[0]] + s[1..];
      if s[0] == x then s[1..] else [s[0]] + RemoveFirst(s[1..], x)
  }

  /** Splicing out the first occurrence, at j, keeps the rest in order. */
  lemma {:induction false} RemoveFirstAt(s: seq<nat>, x: nat, j: nat)
    requires j < |s| && s[j] == x && x !in s[..j]
    ensures RemoveFirst(s, x) == s[..j] + s[j + 1..]
  {
    if j > 0 {
      assert s[0] != x by { assert s[0] == s[..j][0]; }
      assert s[1..][..j - 1] == s[1..j];
      RemoveFirstAt(s[1..], x, j - 1);
      assert s[1..][j..] == s[j + 1..];
    }
  }

  /** The handler-label bookkeeping of step b: the CODE_LABEL heading a dead
      block leaves the handler list if it is on it. */
  function EhStep(e: Env, live: seq<bool>, s: EhState, b: nat): EhState
    requires EnvOk(e) && |live| == NBlocks(e) && b < NBlocks(e)
  {
    var h := e.insns[e.p.heads[b]];
    if !live[b] && h.code == LabelInsn && h.uid in s.labels then
      EhState(RemoveFirst(s.labels, h.uid), s.removed + [h.uid])
    else s
  }

  function EhAfter(e: Env, live: seq<bool>, labels0: seq<nat>, i: nat): EhState
    requires EnvOk(e) && |live| == NBlocks(e) && i <= NBlocks(e)
  {
    if i == 0 then EhState(labels0, [])
    else EhStep(e, live, EhAfter(e, live, labels0, i - 1), i - 1)
  }

  /** The handler list loses exactly the labels remove_handler is called
      for, and each of them heads a dead block. */
  lemma {:induction false} EhAfterConserves(e: Env, live: seq<bool>, labels0: seq<nat>, i: nat)
    requires EnvOk(e) && |live| == NBlocks(e) && i <= NBlocks(e)
    ensures var s := EhAfter(e, live, labels0, i);
      multiset(s.labels) + multiset(s.removed) == multiset(labels0) &&
      forall u | u in s.removed :: exists b | 0 <= b < i :: !live[b] && e.insns[e.p.heads[b]].code == LabelInsn && e.insns[e.p.heads[b]].uid == u
  {
    if i > 0 {
      EhAfterConserves(e, live, labels0, i - 1);
    }
  }

  /** NEXT_INSN from the head of dead block i up to its end: every non-NOTE
      strictly inside is unlinked; a BARRIER there aborts. */
  method DeleteInterior(e: Env, live: seq<bool>, chain: array<Insn>, linked: array<bool>, i: nat) returns (ok: bool)
    requires EnvOk(e) && |live| == NBlocks(e) && i < NBlocks(e) && !live[i]
    requires chain.Length == |e.insns| && linked.Length == |e.insns|
    requires forall k | e.p.heads[i] < k < e.p.ends[i] :: chain[k] == e.insns[k] && linked[k]
    modifies linked
    ensures ok <==> forall k | e.p.heads[i] < k < e.p.ends[i] :: e.insns[k].code != BarrierInsn
    ensures ok ==> forall k | 0 <= k < linked.Length ::
      linked[k] == (old(linked[k]) && !(e.p.heads[i] < k < e.p.ends[i] && e.insns[k].code != NoteInsn))
  {
    var k := e.p.heads[i] + 1;
    while k < e.p.ends[i]
      invariant e.p.heads[i] < k <= e.p.ends[i] || k == e.p.heads[i] + 1 == e.p.ends[i] + 1
      invariant forall q | e.p.heads[i] < q < k :: e.insns[q].code != BarrierInsn
      invariant forall q | 0 <= q < linked.Length ::
        linked[q] == (old(linked[q]) && !(e.p.heads[i] < q < k && e.insns[q].code != NoteInsn))
    {
      assert linked[k];
      var x := chain[k];
      if x.code == BarrierInsn {
        return false;
      } else if x.code != NoteInsn {
        linked[k] := false;
      }
      k := k + 1;
    }
    return true;
  }

  /** The loop looking for the first live block after a dead one. */
  method FindNextLive(live: seq<bool>, j0: nat) returns (r: Option<nat>)
    ensures r == NextLive(live, j0)
  {
    var j := j0;
    while j < |live|
      invariant j0 <= j
      invariant NextLive(live, j) == NextLive(live, j0)
      decreases |live| - j
    {
      if live[j] {
        return Some(j);
      }
      j := j + 1;
    }
    return None;
  }

  /** The walk down exception_handler_labels that splices out the first
      entry naming the label and calls remove_handler for it. */
  method RemoveHandler(s: EhState, uid: nat) returns (r: EhState)
    ensures r == (if uid in s.labels then EhState(RemoveFirst(s.labels, uid), s.removed + [uid]) else s)
  {
    var j := 0;
    while j < |s.labels|
      invariant j <= |s.labels| && uid !in s.labels[..j]
    {
      if s.labels[j] == uid {
        RemoveFirstAt(s.labels, uid, j);
        return EhState(s.labels[..j] + s.labels[j + 1..], s.removed + [uid]);
      }
      assert s.labels[..j + 1] == s.labels[..j] + [s.labels[j]];
      j := j + 1;
    }
    assert s.labels[..j] == s.labels;
    return s;
  }

  /** The code of dead block i goes: its inside is unlinked, its head and
      end become deleted notes (a CODE_LABEL head leaving the handler list
      first), and a BARRIER right after it is unlinked. */
  method DeleteBlockCode(e: Env, live: seq<bool>, chain: array<Insn>, linked: array<bool>, i: nat, eh0: EhState)
    returns (ok: bool, eh: EhState)
    requires EnvOk(e) && Ordered(e) && |live| == NBlocks(e) && i < NBlocks(e) && !live[i]
    requires chain.Length == |e.insns| && linked.Length == |e.insns|
    requires forall k | e.p.heads[i] <= k < |e.insns| :: chain[k] == e.insns[k]
    requires forall k | e.p.heads[i] < k < |e.insns| :: linked[k]
    modifies chain, linked
    ensures ok <==> !DeadHasBarrier(e, live, i)
    ensures ok ==> forall k | 0 <= k < chain.Length ::
      chain[k] == (if DeadNoted(e, live, k, i) then AsDeletedNote(old(chain[k])) else old(chain[k]))
    ensures ok ==> forall k | 0 <= k < linked.Length ::
      linked[k] == (old(linked[k]) && !DeadUnlinked(e, live, k, i))
    ensures ok ==> eh == EhStep(e, live, eh0, i)
  {
    var h := e.p.heads[i];
    var t := e.p.ends[i];
    eh := eh0;
    ok := DeleteInterior(e, live, chain, linked, i);
    if !ok {
      return;
    }
    var x := chain[h];
    if x.code != NoteInsn {
      if x.code == BarrierInsn {
        return false, eh;
      }
      if x.code == LabelInsn {
        eh := RemoveHandler(eh0, x.uid);
      }
      chain[h] := AsDeletedNote(x);
    }
    var y := chain[t];
    if y.code != NoteInsn {
      if y.code == BarrierInsn {
        return false, eh;
      }
      chain[t] := AsDeletedNote(y);
    }
    if t + 1 < chain.Length {
      assert linked[t + 1];
      if chain[t + 1].code == BarrierInsn {
        linked[t + 1] := false;
      }
    }
    ok := true;
  }

  /** basic_block_drops_in[k] = 1 for k from lo to hi inclusive. */
  method SetDrops(drops: array<bool>, lo: nat, hi: nat)
    requires hi < drops.Length
    modifies drops
    ensures forall c | 0 <= c < drops.Length :: drops[c] == (old(drops[c]) || lo <= c <= hi)
  {
    var k := lo;
    while k <= hi
      invariant lo <= k <= hi + 1 || k == lo > hi + 1
      invariant forall c | 0 <= c < drops.Length :: drops[c] == (old(drops[c]) || lo <= c < k)
    {
      drops[k] := true;
      k := k + 1;
    }
  }

  /** The jump test after deleting block i: when block i - 1 is live and its
      last instruction jumps to the next live block, the jump becomes a
      deleted note, the BARRIER after it is unlinked, and the blocks from i
      to the target drop in. */
  method RemoveJumpAround(e: Env, live: seq<bool>, chain: array<Insn>, linked: array<bool>, drops: array<bool>, i: nat)
    returns (ok: bool)
    requires EnvOk(e) && Ordered(e) && |live| == NBlocks(e) && i < NBlocks(e) && !live[i] && live[0]
    requires chain.Length == |e.insns| && linked.Length == |e.insns| && drops.Length == NBlocks(e) && linked != drops
    requires live[i - 1] ==>
      (forall k | e.p.ends[i - 1] <= k < e.p.heads[i] :: chain[k] == e.insns[k]) &&
      linked[e.p.ends[i - 1] + 1] && chain[e.p.heads[i]].code != BarrierInsn
    modifies chain, linked, drops
    ensures ok <==> !JumpWithoutBarrier(e, live, i)
    ensures ok ==> forall k | 0 <= k < chain.Length ::
      chain[k] == (if JumpAround(e, live, i) && k == e.p.ends[i - 1] then AsDeletedNote(old(chain[k])) else old(chain[k]))
    ensures ok ==> forall k | 0 <= k < linked.Length ::
      linked[k] == (old(linked[k]) && !(JumpAround(e, live, i) && k == e.p.ends[i - 1] + 1))
    ensures ok ==> forall c | 0 <= c < drops.Length :: drops[c] == (old(drops[c]) || DropsBy(e, live, c, i))
  {
    if !live[i - 1] {
      return true;
    }
    var j := FindNextLive(live, i + 1);
    if j.None? {
      return true;
    }
    var q := e.p.ends[i - 1];
    var x := chain[q];
    if x.code == JumpInsn && SimpleJumpPattern(x.pattern) && x.pattern.src.handle != 0 &&
       LabelPos(e.insns, x.pattern.src.handle).Some? &&
       LabelBlock(e.insns, e.p.blockOf, x.pattern.src.handle) == j.value
    {
      assert JumpAround(e, live, i);
      SetDrops(drops, i, j.value);
      chain[q] := AsDeletedNote(x);
      assert linked[q + 1];
      if chain[q + 1].code != BarrierInsn {
        return false;
      }
      linked[q + 1] := false;
    }
    ok := true;
  }

  /** Step i of the deletion loop. */
  method BlockStep(e: Env, live: seq<bool>, chain: array<Insn>, linked: array<bool>, drops: array<bool>,
                   i: nat, eh0: EhState)
    returns (ok: bool, eh: EhState)
    requires EnvOk(e) && Ordered(e) && |live| == NBlocks(e) && i < NBlocks(e) && live[0]
    requires chain.Length == |e.insns| && linked.Length == |e.insns| && drops.Length == NBlocks(e) && linked != drops
    requires forall k | StepFloor(e, live, i) <= k < |e.insns| :: chain[k] == e.insns[k]
    requires forall k | StepFloor(e, live, i) < k < |e.insns| :: linked[k]
    modifies chain, linked, drops
    ensures ok <==> !StepAborts(e, live, i)
    ensures ok ==> forall k | 0 <= k < chain.Length ::
      chain[k] == (if NotedBy(e, live, k, i) then AsDeletedNote(old(chain[k])) else old(chain[k]))
    ensures ok ==> forall k | 0 <= k < linked.Length :: linked[k] == (old(linked[k]) && !UnlinkedBy(e, live, k, i))
    ensures ok ==> forall c | 0 <= c < drops.Length :: drops[c] == (old(drops[c]) || DropsBy(e, live, c, i))
    ensures ok ==> eh == EhStep(e, live, eh0, i)
  {
    if live[i] {
      LiveStepIdle(e, live, i);
      return true, eh0;
    }
    ghost var c0, l0 := chain[..], linked[..];
    ok, eh := DeleteBlockCode(e, live, chain, linked, i, eh0);
    if !ok {
      return;
    }
    ghost var c1, l1 := chain[..], linked[..];
    JumpReady(e, live, i, c0, c1, l0, l1);
    ok := RemoveJumpAround(e, live, chain, linked, drops, i);
    if ok {
      StepCompose(e, live, i, c0, c1, chain[..], l0, l1, linked[..]);
    }
  }

  /** Step i does nothing when block i is live. */
  lemma LiveStepIdle(e: Env, live: seq<bool>, i: nat)
    requires EnvOk(e) && |live| == NBlocks(e) && i < NBlocks(e) && live[i]
    ensures !StepAborts(e, live, i)
    ensures forall k | 0 <= k < |e.insns| :: !NotedBy(e, live, k, i) && !UnlinkedBy(e, live, k, i)
    ensures forall c | 0 <= c < NBlocks(e) :: !DropsBy(e, live, c, i)
  {
    assert !JumpAround(e, live, i);
  }

  /** Deleting the code of dead block i leaves what the jump test reads:
      the end of block i - 1 up to the head of block i, the link after that
      end, and a NOTE at the head of block i. */
  lemma JumpReady(e: Env, live: seq<bool>, i: nat, c0: seq<Insn>, c1: seq<Insn>, l0: seq<bool>, l1: seq<bool>)
    requires EnvOk(e) && Ordered(e) && |live| == NBlocks(e) && i < NBlocks(e) && !live[i] && live[0]
    requires |c0| == |c1| == |l0| == |l1| == |e.insns|
    requires forall k | StepFloor(e, live, i) <= k < |e.insns| :: c0[k] == e.insns[k]
    requires forall k | StepFloor(e, live, i) < k < |e.insns| :: l0[k]
    requires forall k | 0 <= k < |e.insns| ::
      c1[k] == (if DeadNoted(e, live, k, i) then AsDeletedNote(c0[k]) else c0[k])
    requires forall k | 0 <= k < |e.insns| :: l1[k] == (l0[k] && !DeadUnlinked(e, live, k, i))
    ensures live[i - 1] ==>
      (forall k | e.p.ends[i - 1] <= k < e.p.heads[i] :: c1[k] == e.insns[k]) &&
      l1[e.p.ends[i - 1] + 1] && c1[e.p.heads[i]].code != BarrierInsn
  {
    if live[i - 1] {
      assert e.p.ends[i - 1] < e.p.heads[i] <= e.p.ends[i];
      assert !DeadUnlinked(e, live, e.p.ends[i - 1] + 1, i);
    }
  }

  /** Deleting the block's code and then the jump around it is step i. */
  lemma StepCompose(e: Env, live: seq<bool>, i: nat, c0: seq<Insn>, c1: seq<Insn>, c2: seq<Insn>,
                    l0: seq<bool>, l1: seq<bool>, l2: seq<bool>)
    requires EnvOk(e) && |live| == NBlocks(e) && i < NBlocks(e)
    requires |c0| == |c1| == |c2| == |l0| == |l1| == |l2| == |e.insns|
    requires forall k | 0 <= k < |e.insns| ::
      c1[k] == (if DeadNoted(e, live, k, i) then AsDeletedNote(c0[k]) else c0[k])
    requires forall k | 0 <= k < |e.insns| ::
      c2[k] == (if JumpAround(e, live, i) && k == e.p.ends[i - 1] then AsDeletedNote(c1[k]) else c1[k])
    requires forall k | 0 <= k < |e.insns| :: l1[k] == (l0[k] && !DeadUnlinked(e, live, k, i))
    requires forall k | 0 <= k < |e.insns| ::
      l2[k] == (l1[k] && !(JumpAround(e, live, i) && k == e.p.ends[i - 1] + 1))
    ensures forall k | 0 <= k < |e.insns| ::
      c2[k] == (if NotedBy(e, live, k, i) then AsDeletedNote(c0[k]) else c0[k])
    ensures forall k | 0 <= k < |e.insns| :: l2[k] == (l0[k] && !UnlinkedBy(e, live, k, i))
  {
  }

  /** The first position step i reads: the end of block i - 1 when that
      block is live (the jump test looks at it), the head of block i
      otherwise. */
  function StepFloor(e: Env, live: seq<bool>, i: nat): nat
    requires EnvOk(e) && |live| == NBlocks(e) && i < NBlocks(e)
  {
    if i > 0 && live[i - 1] then e.p.ends[i - 1] else e.p.heads[i]
  }

  /** Every block ends before any later block starts. */
  lemma {:induction false} OrderedBefore(e: Env, b: nat, c: nat)
    requires EnvOk(e) && Ordered(e) && b < c < NBlocks(e)
    ensures e.p.ends[b] < e.p.heads[c]
    decreases c - b
  {
    if b + 1 < c {
      OrderedBefore(e, b, c - 1);
    }
  }

  /** Steps 0 .. i-1 touch nothing step i reads. */
  lemma StepReady(e: Env, live: seq<bool>, chain: seq<Insn>, linked: seq<bool>, drops: seq<bool>, i: nat)
    requires EnvOk(e) && Ordered(e) && |live| == NBlocks(e) && i < NBlocks(e)
    requires PrunedBelow(e, live, chain, linked, drops, i)
    ensures forall k | StepFloor(e, live, i) <= k < |e.insns| :: chain[k] == e.insns[k]
    ensures forall k | StepFloor(e, live, i) < k < |e.insns| :: linked[k]
  {
    forall k | StepFloor(e, live, i) <= k < |e.insns|
      ensures !NotedBelow(e, live, k, i)
      ensures k > StepFloor(e, live, i) ==> !UnlinkedBelow(e, live, k, i)
    {
      forall b | 0 <= b < i
        ensures !NotedBy(e, live, k, b)
        ensures k > StepFloor(e, live, i) ==> !UnlinkedBy(e, live, k, b)
      {
        Untouched(e, live, k, b, i);
      }
    }
  }

  /** Step b < i touches no position from StepFloor(i) on (and unlinks none
      after it). */
  lemma Untouched(e: Env, live: seq<bool>, k: nat, b: nat, i: nat)
    requires EnvOk(e) && Ordered(e) && |live| == NBlocks(e) && b < i < NBlocks(e)
    requires StepFloor(e, live, i) <= k < |e.insns|
    ensures !NotedBy(e, live, k, b)
    ensures k > StepFloor(e, live, i) ==> !UnlinkedBy(e, live, k, b)
  {
    if live[b] {
      assert !DeadNoted(e, live, k, b) && !DeadUnlinked(e, live, k, b) && !JumpAround(e, live, b);
    } else {
      DeadBelowFloor(e, live, b, i);
      assert e.p.heads[b] <= e.p.ends[b];
      assert !DeadNoted(e, live, k, b);
      assert k > StepFloor(e, live, i) ==> !DeadUnlinked(e, live, k, b);
      if 1 <= b {
        assert e.p.ends[b - 1] < e.p.heads[b];
      }
    }
  }

  /** A dead block before block i ends before StepFloor(i). */
  lemma DeadBelowFloor(e: Env, live: seq<bool>, b: nat, i: nat)
    requires EnvOk(e) && Ordered(e) && |live| == NBlocks(e) && b < i < NBlocks(e) && !live[b]
    ensures e.p.ends[b] < StepFloor(e, live, i)
  {
    if live[i - 1] {
      OrderedBefore(e, b, i - 1);
      assert e.p.heads[i - 1] <= e.p.ends[i - 1];
    } else {
      OrderedBefore(e, b, i);
    }
  }

  /** Step i moves the state from blocks below i to blocks below i + 1. */
  lemma StepAdvance(e: Env, live: seq<bool>, s0: seq<Insn>, l0: seq<bool>, d0: seq<bool>,
                    s1: seq<Insn>, l1: seq<bool>, d1: seq<bool>, i: nat)
    requires EnvOk(e) && |live| == NBlocks(e) && i < NBlocks(e)
    requires PrunedBelow(e, live, s0, l0, d0, i)
    requires |s1| == |e.insns| && |l1| == |e.insns| && |d1| == NBlocks(e)
    requires forall k | 0 <= k < |e.insns| ::
      s1[k] == (if NotedBy(e, live, k, i) then AsDeletedNote(s0[k]) else s0[k])
    requires forall k | 0 <= k < |e.insns| :: l1[k] == (l0[k] && !UnlinkedBy(e, live, k, i))
    requires forall c | 0 <= c < NBlocks(e) :: d1[c] == (d0[c] || DropsBy(e, live, c, i))
    ensures PrunedBelow(e, live, s1, l1, d1, i + 1)
  {
    forall k | 0 <= k < |e.insns|
      ensures NotedBelow(e, live, k, i + 1) == (NotedBelow(e, live, k, i) || NotedBy(e, live, k, i))
      ensures UnlinkedBelow(e, live, k, i + 1) == (UnlinkedBelow(e, live, k, i) || UnlinkedBy(e, live, k, i))
    {
      if NotedBelow(e, live, k, i + 1) {
        var b :| 0 <= b < i + 1 && NotedBy(e, live, k, b);
      }
      if UnlinkedBelow(e, live, k, i + 1) {
        var b :| 0 <= b < i + 1 && UnlinkedBy(e, live, k, b);
      }
    }
    forall c | 0 <= c < NBlocks(e)
      ensures DropsBelow(e, live, c, i + 1) == (DropsBelow(e, live, c, i) || DropsBy(e, live, c, i))
    {
      if DropsBelow(e, live, c, i + 1) {
        var b :| 0 <= b < i + 1 && DropsBy(e, live, c, b);
      }
    }
  }

  /** Some step below i aborts. */
  ghost predicate AbortsBelow(e: Env, live: seq<bool>, i: nat)
    requires EnvOk(e) && |live| == NBlocks(e) && i <= NBlocks(e)
  {
    exists b | 0 <= b < i :: StepAborts(e, live, b)
  }

  lemma AbortsAdvance(e: Env, live: seq<bool>, i: nat)
    requires EnvOk(e) && |live| == NBlocks(e) && i < NBlocks(e)
    ensures AbortsBelow(e, live, i + 1) <==> AbortsBelow(e, live, i) || StepAborts(e, live, i)
  {
    if AbortsBelow(e, live, i + 1) {
      var b :| 0 <= b < i + 1 && StepAborts(e, live, b);
    }
  }

  /** The deletion loop would abort at some block. */
  ghost predicate DeleteAborts(e: Env, live: seq<bool>)
    requires EnvOk(e) && |live| == NBlocks(e)
  {
    AbortsBelow(e, live, NBlocks(e))
  }

  /** The deletion loop of find_basic_blocks_1 over the blocks the marking
      left dead. It aborts exactly when some step would; otherwise the
      chain, its links and the drops-in flags are those every step leaves,
      `deleted` counts the dead blocks and the handler list has lost the
      dead labels on it. */
  method DeleteDeadBlocks(e: Env, live: seq<bool>, chain: array<Insn>, linked: array<bool>, drops: array<bool>,
                          labels0: seq<nat>)
    returns (ok: bool, deleted: nat, eh: EhState)
    requires EnvOk(e) && Ordered(e) && |live| == NBlocks(e) && NBlocks(e) > 0 && live[0]
    requires chain[..] == e.insns && linked.Length == |e.insns| && drops[..] == e.drops && linked != drops
    requires forall k | 0 <= k < linked.Length :: linked[k]
    modifies chain, linked, drops
    ensures ok <==> !DeleteAborts(e, live)
    ensures ok ==> PrunedBelow(e, live, chain[..], linked[..], drops[..], NBlocks(e))
    ensures ok ==> deleted == DeadBelow(live, NBlocks(e)) && eh == EhAfter(e, live, labels0, NBlocks(e))
  {
    deleted := 0;
    eh := EhState(labels0, []);
    PrunedNone(e, live, chain[..], linked[..], drops[..]);
    var i := 0;
    while i < NBlocks(e)
      invariant 0 <= i <= NBlocks(e)
      invariant !AbortsBelow(e, live, i)
      invariant PrunedBelow(e, live, chain[..], linked[..], drops[..], i)
      invariant deleted == DeadBelow(live, i) && eh == EhAfter(e, live, labels0, i)
    {
      ok, deleted, eh := DeleteStep(e, live, chain, linked, drops, i, deleted, eh, labels0);
      if !ok {
        return;
      }
      i := i + 1;
    }
    ok := true;
  }

  /** Before the loop nothing is deleted. */
  lemma PrunedNone(e: Env, live: seq<bool>, chain: seq<Insn>, linked: seq<bool>, drops: seq<bool>)
    requires EnvOk(e) && |live| == NBlocks(e)
    requires chain == e.insns && drops == e.drops && |linked| == |e.insns|
    requires forall k | 0 <= k < |linked| :: linked[k]
    ensures PrunedBelow(e, live, chain, linked, drops, 0)
  {
    assert chain == PrunedChain(e, live, 0);
    assert linked == PrunedLinks(e, live, 0);
    assert drops == PrunedDrops(e, live, 0);
  }

  /** One iteration of the deletion loop, block i. */
  method DeleteStep(e: Env, live: seq<bool>, chain: array<Insn>, linked: array<bool>, drops: array<bool>,
                    i: nat, deleted0: nat, eh0: EhState, ghost labels0: seq<nat>)
    returns (ok: bool, deleted: nat, eh: EhState)
    requires EnvOk(e) && Ordered(e) && |live| == NBlocks(e) && i < NBlocks(e) && live[0]
    requires linked != drops
    requires PrunedBelow(e, live, chain[..], linked[..], drops[..], i)
    requires deleted0 == DeadBelow(live, i) && eh0 == EhAfter(e, live, labels0, i)
    requires !AbortsBelow(e, live, i)
    modifies chain, linked, drops
    ensures ok <==> !AbortsBelow(e, live, i + 1)
    ensures ok ==> PrunedBelow(e, live, chain[..], linked[..], drops[..], i + 1)
    ensures ok ==> deleted == DeadBelow(live, i + 1) && eh == EhAfter(e, live, labels0, i + 1)
  {
    StepReady(e, live, chain[..], linked[..], drops[..], i);
    ghost var s0, l0, d0 := chain[..], linked[..], drops[..];
    deleted := if live[i] then deleted0 else deleted0 + 1;
    ok, eh := BlockStep(e, live, chain, linked, drops, i, eh0);
    AbortsAdvance(e, live, i);
    if ok {
      StepAdvance(e, live, s0, l0, d0, chain[..], linked[..], drops[..], i);
    }
  }

  /** The handlers of a region that remove_handler has not taken away. */
  function Remaining(hs: seq<nat>, removed: seq<nat>): (r: seq<nat>)
    ensures forall l :: l in r <==> l in hs && l !in removed
  {
    if hs == [] then []
    else
      assert hs == [hs[0]] + hs[1..];
      (if hs[0] in removed then [] else [hs[0]]) + Remaining(hs[1..], removed)
  }

  /** A region begin/end note whose region has no handler left
      (get_first_handler returns NULL). */
  predicate RegionGone(x: Insn, handlers: nat -> seq<nat>, removed: seq<nat>)
  {
    x.code == NoteInsn && (x.note.NoteEhRegionBeg? || x.note.NoteEhRegionEnd?) &&
    Remaining(handlers(x.note.region), removed) == []
  }

  /** The chain after the region-note clean-up: every linked region note
      whose region lost all its handlers becomes NOTE_INSN_DELETED. */
  function CleanedChain(chain: seq<Insn>, linked: seq<bool>, handlers: nat -> seq<nat>, removed: seq<nat>): (r: seq<Insn>)
    requires |chain| == |linked|
    ensures |r| == |chain|
  {
    seq(|chain|, k requires 0 <= k < |chain| =>
      if linked[k] && RegionGone(chain[k], handlers, removed) then chain[k].(note := NoteDeleted) else chain[k])
  }

  /** After the clean-up no linked note names a region without handlers,
      and nothing but region notes changed. */
  lemma CleanedChainNoGoneRegion(chain: seq<Insn>, linked: seq<bool>, handlers: nat -> seq<nat>, removed: seq<nat>, k: nat)
    requires |chain| == |linked| && k < |chain|
    ensures linked[k] ==> !RegionGone(CleanedChain(chain, linked, handlers, removed)[k], handlers, removed)
    ensures CleanedChain(chain, linked, handlers, removed)[k] != chain[k] ==>
      chain[k].code == NoteInsn && (chain[k].note.NoteEhRegionBeg? || chain[k].note.NoteEhRegionEnd?)
    ensures CleanedChain(chain, linked, handlers, removed)[k].code == chain[k].code
  {
  }

  /** The walk over the linked chain after a handler was deleted. */
  method CleanEhNotes(chain: array<Insn>, linked: seq<bool>, handlers: nat -> seq<nat>, removed: seq<nat>)
    requires chain.Length == |linked|
    modifies chain
    ensures chain[..] == CleanedChain(old(chain[..]), linked, handlers, removed)
  {
    ghost var c0 := chain[..];
    var k := 0;
    while k < chain.Length
      invariant 0 <= k <= chain.Length
      invariant forall q | 0 <= q < chain.Length ::
        chain[q] == (if q < k then CleanedChain(c0, linked, handlers, removed)[q] else c0[q])
    {
      var x := chain[k];
      if linked[k] && x.code == NoteInsn && (x.note.NoteEhRegionBeg? || x.note.NoteEhRegionEnd?) {
        if Remaining(handlers(x.note.region), removed) == [] {
          chain[k] := x.(note := NoteDeleted);
        }
      }
      k := k + 1;
    }
    assert chain[..] == CleanedChain(c0, linked, handlers, removed);
  }

  /** Block i is live, control cannot fall into it, and the CODE_LABEL
      heading it has an empty LABEL_REFS chain. */
  predicate Unreferenced(e: Env, live: seq<bool>, refs: map<nat, seq<nat>>, i: nat)
    requires EnvOk(e) && |live| == NBlocks(e) && i < NBlocks(e)
  {
    var h := e.insns[e.p.heads[i]];
    live[i] && !e.drops[i] && h.code == LabelInsn && RefsOf(refs, h.uid) == []
  }

  /** No block but the first is an unreferenced live label block. */
  predicate LabelsChecked(e: Env, live: seq<bool>, refs: map<nat, seq<nat>>)
    requires EnvOk(e) && |live| == NBlocks(e)
  {
    forall i | 1 <= i < NBlocks(e) :: !Unreferenced(e, live, refs, i)
  }

  /** The sanity check after the marking: it aborts exactly when some block
      but the first is an unreferenced live label block. */
  method CheckLabels(e: Env, live: seq<bool>, refs: map<nat, seq<nat>>) returns (ok: bool)
    requires EnvOk(e) && |live| == NBlocks(e)
    ensures ok <==> LabelsChecked(e, live, refs)
  {
    var i := 1;
    while i < NBlocks(e)
      invariant 1 <= i <= NBlocks(e) || i == 1 > NBlocks(e)
      invariant forall b | 1 <= b < i && b < NBlocks(e) :: !Unreferenced(e, live, refs, b)
    {
      var h := e.insns[e.p.heads[i]];
      if live[i] && !e.drops[i] && h.code == LabelInsn && RefsOf(refs, h.uid) == [] {
        assert Unreferenced(e, live, refs, i);
        return false;
      }
      i := i + 1;
    }
    return true;
  }

  /** The blocks 0 .. n-1. */
  ghost function AllBelow(n: nat): (s: set<nat>)
    ensures forall b: nat :: b in s <==> b < n
  {
    if n == 0 then {} else AllBelow(n - 1) + {n - 1}
  }

  ghost function AllBlocks(e: Env): (s: set<nat>)
  {
    AllBelow(NBlocks(e))
  }

  /** The set of all blocks holds the roots and is closed under the
      marking's edges: every label a reference names has a block. */
  lemma AllBlocksClosed(e: Env)
    requires EnvOk(e)
    ensures Roots(e) <= AllBlocks(e) && Closed(e, RefTable(e), AllBlocks(e))
  {
    var g := RefTable(e);
    forall b | b in AllBlocks(e) ensures Out(e, g, b) <= AllBlocks(e) {
      forall c | c in RefBlocks(e, g[b]) ensures c < NBlocks(e) {
        var j :| 0 <= j < |g[b]| && g[b][j].handle != 0 && LabelPos(e.insns, g[b][j].handle).Some? &&
                 c == LabelBlock(e.insns, e.p.blockOf, g[b][j].handle);
        var q := LabelPos(e.insns, g[b][j].handle).value;
        assert e.insns[q].code == LabelInsn;
      }
    }
  }

  /** What is left of a dead block is NOTEs: its head and end have become
      notes, and every other non-NOTE inside it is unlinked. */
  lemma DeadBlockOnlyNotes(e: Env, live: seq<bool>, b: nat, k: nat)
    requires EnvOk(e) && |live| == NBlocks(e) && b < NBlocks(e) && !live[b]
    requires e.p.heads[b] <= k <= e.p.ends[b]
    ensures PrunedLinks(e, live, NBlocks(e))[k] ==> PrunedChain(e, live, NBlocks(e))[k].code == NoteInsn
  {
    if e.insns[k].code != NoteInsn {
      if k == e.p.heads[b] || k == e.p.ends[b] {
        assert NotedBy(e, live, k, b);
      } else {
        assert UnlinkedBy(e, live, k, b);
      }
    }
  }

  /** A live block keeps every instruction, linked and unchanged, except
      that its last one turns into a deleted note when it is the jump
      around the dead block after it. */
  lemma LiveBlockKept(e: Env, live: seq<bool>, b: nat, k: nat)
    requires EnvOk(e) && Ordered(e) && |live| == NBlocks(e) && b < NBlocks(e) && live[b]
    requires e.p.heads[b] <= k <= e.p.ends[b]
    ensures PrunedLinks(e, live, NBlocks(e))[k]
    ensures PrunedChain(e, live, NBlocks(e))[k] ==
      if k == e.p.ends[b] && JumpAround(e, live, b + 1) then AsDeletedNote(e.insns[k]) else e.insns[k]
  {
    var n := NBlocks(e);
    forall c | 0 <= c < n
      ensures !UnlinkedBy(e, live, k, c)
      ensures NotedBy(e, live, k, c) <==> c == b + 1 && k == e.p.ends[b] && JumpAround(e, live, b + 1)
    {
      LiveBlockApart(e, live, b, k, c);
    }
    if k == e.p.ends[b] && JumpAround(e, live, b + 1) {
      assert NotedBy(e, live, k, b + 1);
    }
  }

  /** Step c leaves the inside of live block b alone but for the jump at
      its end. */
  lemma LiveBlockApart(e: Env, live: seq<bool>, b: nat, k: nat, c: nat)
    requires EnvOk(e) && Ordered(e) && |live| == NBlocks(e) && b < NBlocks(e) && live[b] && c < NBlocks(e)
    requires e.p.heads[b] <= k <= e.p.ends[b]
    ensures !UnlinkedBy(e, live, k, c)
    ensures NotedBy(e, live, k, c) <==> c == b + 1 && k == e.p.ends[b] && JumpAround(e, live, b + 1)
  {
    if c < b {
      OrderedBefore(e, c, b);
      StepBefore(e, live, e.p.heads[b], k, c);
    } else if c == b {
      assert !JumpAround(e, live, c) && !DeadNoted(e, live, k, c);
    } else if c == b + 1 {
      StepAfter(e, live, e.p.ends[b], k, c);
    } else {
      OrderedBefore(e, b, c - 1);
      assert e.p.heads[c - 1] <= e.p.ends[c - 1];
      StepAfter(e, live, e.p.ends[b], k, c);
      assert !NotedBy(e, live, k, c);
    }
  }

  /** A step touches nothing after the BARRIER that may follow its block,
      nor that position unless it holds a BARRIER. */
  lemma StepBefore(e: Env, live: seq<bool>, h: nat, k: nat, c: nat)
    requires EnvOk(e) && Ordered(e) && |live| == NBlocks(e) && c < NBlocks(e)
    requires e.p.ends[c] < h <= k < |e.insns| && e.insns[h].code != BarrierInsn
    ensures !UnlinkedBy(e, live, k, c) && !NotedBy(e, live, k, c)
  {
    assert e.p.heads[c] <= e.p.ends[c];
    assert !DeadNoted(e, live, k, c);
    assert !DeadUnlinked(e, live, k, c);
    if 1 <= c {
      assert e.p.ends[c - 1] < e.p.heads[c];
    }
  }

  /** A step touches nothing up to position t before its block, except
      the jump at t around it when t ends the block before it. */
  lemma StepAfter(e: Env, live: seq<bool>, t: nat, k: nat, c: nat)
    requires EnvOk(e) && |live| == NBlocks(e) && 1 <= c < NBlocks(e)
    requires k <= t < e.p.heads[c] && (t == e.p.ends[c - 1] || t < e.p.ends[c - 1])
    ensures !UnlinkedBy(e, live, k, c)
    ensures NotedBy(e, live, k, c) <==> k == e.p.ends[c - 1] && JumpAround(e, live, c)
  {
    assert e.p.heads[c] <= e.p.ends[c];
  }

  /** A jump around dead blocks leaves every block from the first dead one
      up to the jump's target dropping in. */
  lemma JumpAroundDrops(e: Env, live: seq<bool>, b: nat, c: nat)
    requires EnvOk(e) && |live| == NBlocks(e) && JumpAround(e, live, b)
    requires b <= c <= NextLive(live, b + 1).value
    ensures PrunedDrops(e, live, NBlocks(e))[c]
  {
    assert DropsBy(e, live, c, b);
  }

  /** The deletion loop only sets drops-in flags. */
  lemma DropsOnlyGrow(e: Env, live: seq<bool>, c: nat)
    requires EnvOk(e) && |live| == NBlocks(e) && c < NBlocks(e) && e.drops[c]
    ensures PrunedDrops(e, live, NBlocks(e))[c]
  {
  }

  /** `deleted` is the number of dead blocks. */
  lemma {:induction false} DeadBelowCounts(live: seq<bool>, i: nat)
    requires i <= |live|
    ensures DeadBelow(live, i) == |DeadSet(live, i)|
  {
    if i > 0 {
      DeadBelowCounts(live, i - 1);
      var s0 := DeadSet(live, i - 1);
      if live[i - 1] {
        assert DeadSet(live, i) == s0;
      } else {
        assert i - 1 !in s0;
        assert |s0 + {i - 1}| == |s0| + 1;
        assert DeadSet(live, i) == s0 + {i - 1};
      }
    }
  }

  /** The dead blocks below i. */
  ghost function DeadSet(live: seq<bool>, i: nat): set<nat>
  {
    set b | 0 <= b < i && b < |live| && !live[b]
  }
}
