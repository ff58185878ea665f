/** find_basic_blocks_1 as a whole: the tagging scan, the drops-in flags,
    the reachability marking, the unreferenced-label check, the deletion of
    dead blocks and the clean-up of exception region notes, run once more
    over the chain that is left when the first pass deleted more than 200
    blocks. */
module FindBlocks {
  import opened Rtl
  import opened Insns
  import opened Blocks
  import opened LabelRefs
  import opened Reach
  import opened Prune

  /** What one pass leaves: the drops-in flags, block_live, the LABEL_REFS
      chains, the chain by position with its link flags, the handler
      labels and the number of deleted blocks. */
  datatype PassResult = PassResult(
    live: seq<bool>,
    refs: map<nat, seq<nat>>,
    chain: seq<Insn>,
    linked: seq<bool>,
    drops: seq<bool>,
    eh: EhState,
    deleted: nat
  )

  /** The region-note clean-up runs: some pass has deleted a handler label
      (deleted_handler stays set across the restart) and the pass found
      blocks. */
  predicate CleanUpRuns(e: Env, handlerDeleted: bool, eh: EhState)
  {
    NBlocks(e) > 0 && (handlerDeleted || eh.removed != [])
  }

  /** The outcome of a pass that did not abort, `bound` being a set of
      blocks that holds the roots and is closed under the marking's edges. */
  ghost predicate PassOk(e: Env, labels0: seq<nat>, handlerDeleted: bool, bound: set<nat>, r: PassResult)
    requires EnvOk(e)
  {
    var n := NBlocks(e);
    |r.live| == n &&
    Marking(e, RefTable(e), r.live, r.live, r.refs, bound) &&
    LabelsChecked(e, r.live, r.refs) &&
    !DeleteAborts(e, r.live) &&
    r.linked == PrunedLinks(e, r.live, n) &&
    r.drops == PrunedDrops(e, r.live, n) &&
    r.deleted == DeadBelow(r.live, n) &&
    r.eh == EhAfter(e, r.live, labels0, n) &&
    r.chain == (if CleanUpRuns(e, handlerDeleted, r.eh)
                then CleanedChain(PrunedChain(e, r.live, n), r.linked, e.handlers, r.eh.removed)
                else PrunedChain(e, r.live, n))
  }

  /** The pass aborts where the marking found a reference to no CODE_LABEL,
      or, the marking done, where the label check or the deletion loop
      aborts. */
  ghost predicate PassAborts(e: Env, bound: set<nat>, live: seq<bool>, refs: map<nat, seq<nat>>)
    requires EnvOk(e)
  {
    (exists b | b in bound && b < NBlocks(e) :: Bad(e, RefTable(e), b)) ||
    (Marking(e, RefTable(e), live, live, refs, bound) &&
     (!LabelsChecked(e, live, refs) || DeleteAborts(e, live)))
  }

  /** Everything after the tagging scan and the drops-in scan, over the
      environment they built. `labels0` is exception_handler_labels when
      the pass starts, `handlerDeleted` the deleted_handler flag. */
  method PrunePass(e: Env, ghost bound: set<nat>, labels0: seq<nat>, handlerDeleted: bool)
    returns (r: Result<PassResult>, ghost live: seq<bool>, ghost refs: map<nat, seq<nat>>)
    requires EnvOk(e) && Ordered(e)
    requires Roots(e) <= bound && Closed(e, RefTable(e), bound)
    ensures r.Ok? ==> PassOk(e, labels0, handlerDeleted, bound, r.value)
    ensures r.Abort? ==> PassAborts(e, bound, live, refs)
  {
    hide Marking, LabelsChecked, DeleteAborts, CleanedChain, Closed, RefTable;
    var n := NBlocks(e);
    if n == 0 {
      live, refs := [], map[];
      EmptyPass(e, labels0, handlerDeleted, bound);
      return Ok(PassResult([], map[], e.insns, seq(|e.insns|, k => true), [], EhState(labels0, []), 0)), [], map[];
    }
    var ok, liveA, marked, refsM := MarkReachable(e, bound);
    live, refs := liveA[..], refsM;
    if !ok {
      return Abort, live, refs;
    }
    ok := CheckLabels(e, liveA[..], refsM);
    if !ok {
      return Abort, live, refs;
    }
    var chain := new Insn[|e.insns|](k requires 0 <= k < |e.insns| => e.insns[k]);
    var linked := new bool[|e.insns|](k => true);
    var drops := new bool[n](c requires 0 <= c < n => e.drops[c]);
    assert chain[..] == e.insns;
    assert drops[..] == e.drops;
    var deleted, eh;
    ok, deleted, eh := DeleteDeadBlocks(e, liveA[..], chain, linked, drops, labels0);
    if !ok {
      return Abort, live, refs;
    }
    if handlerDeleted || eh.removed != [] {
      CleanEhNotes(chain, linked[..], e.handlers, eh.removed);
    }
    r := Ok(PassResult(liveA[..], refsM, chain[..], linked[..], drops[..], eh, deleted));
  }

  /** A pass over a chain without blocks changes nothing. */
  lemma EmptyPass(e: Env, labels0: seq<nat>, handlerDeleted: bool, bound: set<nat>)
    requires EnvOk(e) && NBlocks(e) == 0
    ensures PassOk(e, labels0, handlerDeleted, bound,
                   PassResult([], map[], e.insns, seq(|e.insns|, k => true), [], EhState(labels0, []), 0))
  {
    assert PrunedChain(e, [], 0) == e.insns;
    assert PrunedLinks(e, [], 0) == seq(|e.insns|, k => true);
    assert PrunedDrops(e, [], 0) == [];
  }

  /** The chain NEXT_INSN walks: the linked positions in order. */
  function LinkedInsns(chain: seq<Insn>, linked: seq<bool>): (r: seq<Insn>)
    requires |chain| == |linked|
    ensures |r| == Count(linked)
    ensures forall x | x in r :: exists k | 0 <= k < |chain| :: linked[k] && chain[k] == x
  {
    if chain == [] then []
    else
      var rest := LinkedInsns(chain[1..], linked[1..]);
      assert forall x | x in rest :: exists k | 1 <= k < |chain| :: linked[k] && chain[k] == x by {
        forall x | x in rest ensures exists k | 1 <= k < |chain| :: linked[k] && chain[k] == x {
          var j :| 0 <= j < |chain| - 1 && linked[1..][j] && chain[1..][j] == x;
          assert linked[j + 1] && chain[j + 1] == x;
        }
      }
      (if linked[0] then [chain[0]] else []) + rest
  }

  /** get_first_handler once remove_handler has run for `removed`. */
  function HandlersAfter(handlers: nat -> seq<nat>, removed: seq<nat>): (h: nat -> seq<nat>)
    ensures forall r, l :: l in h(r) <==> l in handlers(r) && l !in removed
  {
    var h := r => Remaining(handlers(r), removed);
    assert forall r :: h(r) == Remaining(handlers(r), removed);
    h
  }

  /** `e` is what the tagging scan, under block-start rule `retvalAsInsn`,
      and the drops-in scan build over the chain `insns`, with the given
      label lists and routines. */
  ghost predicate EnvBuilt(e: Env, insns: seq<Insn>, forced: seq<Forced>, nonlocalLabels: seq<nat>, async: bool,
                           computedJump: Insn -> bool, handlers: nat -> seq<nat>, retvalAsInsn: bool)
  {
    e == Env(insns, e.p, e.drops, forced, nonlocalLabels, async, computedJump, handlers) &&
    EhBalanced(insns) && Tagged(insns, |insns|, nonlocalLabels != [], async, retvalAsInsn, e.p) &&
    |e.drops| == |e.p.heads| && (forall b | 0 <= b < |e.p.heads| :: e.drops[b] == DropsIn(insns, e.p.heads[b])) &&
    EnvOk(e) && Ordered(e)
  }

  /** The tagging scan's tables, with the drops-in flags, as an environment. */
  method BuildEnv(insns: seq<Insn>, p: Partition, forced: seq<Forced>, nonlocalLabels: seq<nat>, async: bool,
                  computedJump: Insn -> bool, handlers: nat -> seq<nat>, retvalAsInsn: bool)
    returns (e: Env)
    requires EhBalanced(insns) && Tagged(insns, |insns|, nonlocalLabels != [], async, retvalAsInsn, p)
    ensures EnvBuilt(e, insns, forced, nonlocalLabels, async, computedJump, handlers, retvalAsInsn) && e.p == p
  {
    assert forall b | 0 <= b < |p.heads| :: p.heads[b] < |insns| by {
      forall b | 0 <= b < |p.heads| ensures p.heads[b] < |insns| {
        StartsSound(insns, |insns|, nonlocalLabels != [], retvalAsInsn, b);
      }
    }
    var drops := ComputeDropsIn(insns, p.heads);
    var d := drops[..];
    assert forall b | 0 <= b < |p.heads| :: d[b] == DropsIn(insns, p.heads[b]);
    e := Env(insns, p, d, forced, nonlocalLabels, async, computedJump, handlers);
    EnvOfTables(e, nonlocalLabels != [], retvalAsInsn);
  }

  /** The tables of a finished tagging scan with their drops-in flags. */
  lemma EnvOfTables(e: Env, nonlocal: bool, retvalAsInsn: bool)
    requires EhBalanced(e.insns) && Tagged(e.insns, |e.insns|, nonlocal, e.async, retvalAsInsn, e.p)
    requires |e.drops| == |e.p.heads| && forall b | 0 <= b < |e.p.heads| :: e.drops[b] == DropsIn(e.insns, e.p.heads[b])
    requires nonlocal == (e.nonlocalLabels != [])
    ensures EnvBuilt(e, e.insns, e.forced, e.nonlocalLabels, e.async, e.computedJump, e.handlers, retvalAsInsn)
  {
    TaggedOrdered(e, nonlocal, retvalAsInsn);
  }

  /** The result of find_basic_blocks: the environment of the last pass,
      that pass's outcome and the number of passes. */
  datatype Flow = Flow(env: Env, pass: PassResult, passes: nat)

  /** find_basic_blocks and find_basic_blocks_1: the counting scan, then a
      first pass over the whole chain, which aborts when the tagging scan
      finds another number of blocks, and, when it deleted more than 200
      blocks, a second over what is still linked, with the handler lists as
      remove_handler left them. `first` is the first pass's outcome. Both
      tagging scans use block-start rule `retvalAsInsn`: false is the
      source as written, true the rule of the counting scan. */
  method FindBasicBlocksFlow(insns: seq<Insn>, forced: seq<Forced>, nonlocalLabels: seq<nat>, async: bool,
                             computedJump: Insn -> bool, handlers: nat -> seq<nat>, labels0: seq<nat>,
                             retvalAsInsn: bool)
    returns (r: Result<Flow>, ghost first: PassResult)
    requires EhBalanced(insns)
    ensures |Starts(insns, |insns|, nonlocalLabels != [], true)| != |Starts(insns, |insns|, nonlocalLabels != [], retvalAsInsn)| ==>
      r.Abort?
    ensures r.Ok? && r.value.passes == 1 ==>
      EnvBuilt(r.value.env, insns, forced, nonlocalLabels, async, computedJump, handlers, retvalAsInsn) &&
      r.value.pass.deleted <= 200 &&
      PassOk(r.value.env, labels0, false, AllBlocks(r.value.env), r.value.pass)
    ensures r.Ok? && r.value.passes != 1 ==>
      r.value.passes == 2 && first.deleted > 200 && |first.chain| == |first.linked| &&
      EnvBuilt(r.value.env, LinkedInsns(first.chain, first.linked), forced, nonlocalLabels, async,
               computedJump, HandlersAfter(handlers, first.eh.removed), retvalAsInsn) &&
      PassOk(r.value.env, first.eh.labels, first.eh.removed != [], AllBlocks(r.value.env), r.value.pass)
  {
    first := PassResult([], map[], [], [], [], EhState(labels0, []), 0);
    var p := PartitionPass1(insns, nonlocalLabels != [], async, retvalAsInsn);
    if p.Abort? {
      return Abort, first;
    }
    var e := BuildEnv(insns, p.value, forced, nonlocalLabels, async, computedJump, handlers, retvalAsInsn);
    AllBlocksClosed(e);
    var r1, live1, refs1 := PrunePass(e, AllBlocks(e), labels0, false);
    if r1.Abort? {
      return Abort, first;
    }
    var p1 := r1.value;
    first := p1;
    if p1.deleted <= 200 {
      return Ok(Flow(e, p1, 1)), first;
    }
    assert |p1.chain| == |p1.linked|;
    r := SecondPass(LinkedInsns(p1.chain, p1.linked), forced, nonlocalLabels, async, computedJump,
                    HandlersAfter(handlers, p1.eh.removed), p1.eh, retvalAsInsn);
  }

  /** The restart: the tagging scan and the rest of the pass over the
      chain the first pass left, whose deletions and handler removals `eh`
      records, with block-start rule `retvalAsInsn` and no count check.
      The tagging scan follows the list of open regions, so an unbalanced
      region note left by the clean-up stops it. */
  method SecondPass(insns: seq<Insn>, forced: seq<Forced>, nonlocalLabels: seq<nat>, async: bool,
                    computedJump: Insn -> bool, handlers: nat -> seq<nat>, eh: EhState, retvalAsInsn: bool)
    returns (r: Result<Flow>)
    ensures r.Ok? ==>
      r.value.passes == 2 &&
      EnvBuilt(r.value.env, insns, forced, nonlocalLabels, async, computedJump, handlers, retvalAsInsn) &&
      PassOk(r.value.env, eh.labels, eh.removed != [], AllBlocks(r.value.env), r.value.pass)
  {
    if !EhBalanced(insns) {
      return Abort;
    }
    var p := TagBlocks(insns, nonlocalLabels != [], async, retvalAsInsn);
    var e := BuildEnv(insns, p, forced, nonlocalLabels, async, computedJump, handlers, retvalAsInsn);
    AllBlocksClosed(e);
    var r2, live2, refs2 := PrunePass(e, AllBlocks(e), eh.labels, eh.removed != []);
    if r2.Abort? {
      return Abort;
    }
    r := Ok(Flow(e, r2.value, 2));
  }

  /** After a pass the live blocks are exactly a marking's fixed point:
      they hold block 0 and the preserved labels' blocks, every edge out
      of a live block (the drop-in to the next block, each label it
      references) leads to a live block, none of them references a missing
      label, and all lie in any closed set holding the roots. */
  lemma PassLiveClosed(e: Env, labels0: seq<nat>, handlerDeleted: bool, bound: set<nat>, r: PassResult)
    requires EnvOk(e) && PassOk(e, labels0, handlerDeleted, bound, r)
    ensures Roots(e) <= LiveSet(r.live) <= bound
    ensures Closed(e, RefTable(e), LiveSet(r.live))
    ensures forall b | b in LiveSet(r.live) :: !Bad(e, RefTable(e), b)
  {
    FixedPointClosed(e, RefTable(e), r.live, r.refs, bound);
  }

  /** The labels a computed jump reaches: those of label_value_list, then
      every forced label. */
  function ComputedJumpLabels(e: Env): (r: seq<nat>)
    ensures |r| == |e.p.labelValues| + |e.forced|
    ensures forall j | 0 <= j < |e.p.labelValues| :: r[j] == e.p.labelValues[j]
    ensures forall j | 0 <= j < |e.forced| :: r[|e.p.labelValues| + j] == e.forced[j].target
  {
    e.p.labelValues + ForcedTargets(e.forced)
  }

  /** current_function_has_computed_jump after a pass that left the live
      flags `live`: a live block holds a real insn computed_jump_p accepts. */
  ghost predicate HasComputedJump(e: Env, live: seq<bool>)
    requires EnvOk(e) && |live| == NBlocks(e)
    ensures HasComputedJump(e, live) ==> exists b | 0 <= b < |live| :: live[b]
    ensures HasComputedJump(e, live) ==>
      exists k | 0 <= k < |e.insns| :: IsReal(e.insns[k].code) && e.computedJump(e.insns[k])
  {
    exists b, k | 0 <= b < NBlocks(e) && live[b] && e.p.heads[b] <= k <= e.p.ends[b] ::
      IsReal(e.insns[k].code) && e.computedJump(e.insns[k])
  }

  /** The blocks basic_block_computed_jump_target flags after that pass:
      when the function has a live computed jump, the blocks of the
      labels it reaches; none otherwise. */
  ghost function ComputedJumpTargets(e: Env, live: seq<bool>): (r: set<nat>)
    requires EnvOk(e) && |live| == NBlocks(e)
    ensures forall b | b in r :: b < NBlocks(e)
    ensures r != {} ==> HasComputedJump(e, live)
  {
    if HasComputedJump(e, live) then
      set l | l in ComputedJumpLabels(e) && l != 0 && LabelPos(e.insns, l).Some? :: LabelBlock(e.insns, e.p.blockOf, l)
    else {}
  }

  /** After a pass every block a live computed jump can reach is live,
      and every label it reaches is a CODE_LABEL on the chain. */
  lemma ComputedJumpTargetsLive(e: Env, labels0: seq<nat>, handlerDeleted: bool, bound: set<nat>, r: PassResult)
    requires EnvOk(e) && PassOk(e, labels0, handlerDeleted, bound, r)
    ensures ComputedJumpTargets(e, r.live) <= LiveSet(r.live)
    ensures HasComputedJump(e, r.live) ==>
      forall l | l in ComputedJumpLabels(e) && l != 0 :: LabelPos(e.insns, l).Some?
  {
    if HasComputedJump(e, r.live) {
      var b, k :| 0 <= b < NBlocks(e) && r.live[b] && e.p.heads[b] <= k <= e.p.ends[b] &&
                  IsReal(e.insns[k].code) && e.computedJump(e.insns[k]);
      PassLiveClosed(e, labels0, handlerDeleted, bound, r);
      ClosedReachesComputedTargets(e, RefTable(e), LiveSet(r.live), b, k);
    }
  }

  /** A closed set of blocks none of which aborts the marking, holding a
      block with a computed jump, holds the block of every label that
      jump reaches, and each such label is on the chain. */
  lemma ClosedReachesComputedTargets(e: Env, g: seq<seq<Ref>>, s: set<nat>, b: nat, k: nat)
    requires EnvOk(e) && g == RefTable(e) && Closed(e, g, s) && forall c | c in s :: !Bad(e, g, c)
    requires b in s && b < NBlocks(e) && e.p.heads[b] <= k <= e.p.ends[b]
    requires IsReal(e.insns[k].code) && e.computedJump(e.insns[k])
    ensures forall l | l in ComputedJumpLabels(e) && l != 0 ::
      LabelPos(e.insns, l).Some? && LabelBlock(e.insns, e.p.blockOf, l) in s
  {
    var u := e.insns[k].uid;
    var ls := ComputedJumpLabels(e);
    var rs := ListRefs(ls, u);
    ComputedRefsInBlock(e, b, k);
    assert !Bad(e, g, b);
    forall l | l in ls && l != 0
      ensures LabelPos(e.insns, l).Some? && LabelBlock(e.insns, e.p.blockOf, l) in s
    {
      var j :| 0 <= j < |ls| && ls[j] == l;
      assert rs[j] in g[b];
      var i :| 0 <= i < |g[b]| && g[b][i] == rs[j];
      assert !Dangling(e.insns, g[b][i]);
      assert LabelBlock(e.insns, e.p.blockOf, l) in RefBlocks(e, g[b]);
      assert LabelBlock(e.insns, e.p.blockOf, l) in Out(e, g, b);
    }
  }

  /** Marking a block references every label a computed jump in it reaches. */
  lemma ComputedRefsInBlock(e: Env, b: nat, k: nat)
    requires EnvOk(e) && b < NBlocks(e) && e.p.heads[b] <= k <= e.p.ends[b]
    requires IsReal(e.insns[k].code) && e.computedJump(e.insns[k])
    ensures forall q | q in ListRefs(ComputedJumpLabels(e), e.insns[k].uid) :: q in RefTable(e)[b]
  {
    var u := e.insns[k].uid;
    ForcedRefsAll(e.forced, u);
    assert ListRefs(ComputedJumpLabels(e), u) == ListRefs(e.p.labelValues, u) + ForcedRefs(e.forced, true, u);
    RangeRefsHas(e, e.p.heads[b], e.p.ends[b] + 1, k);
  }

  /** What the chain still links inside a dead block is NOTEs. */
  lemma PassDeadBlockNotes(e: Env, labels0: seq<nat>, handlerDeleted: bool, bound: set<nat>, r: PassResult, b: nat, k: nat)
    requires EnvOk(e) && PassOk(e, labels0, handlerDeleted, bound, r)
    requires b < NBlocks(e) && !r.live[b] && e.p.heads[b] <= k <= e.p.ends[b]
    ensures r.linked[k] ==> r.chain[k].code == NoteInsn
  {
    var n := NBlocks(e);
    DeadBlockOnlyNotes(e, r.live, b, k);
    CleanedChainNoGoneRegion(PrunedChain(e, r.live, n), r.linked, e.handlers, r.eh.removed, k);
  }

  /** A live block keeps every instruction linked, and every one that is
      not a NOTE unchanged, except its last one when that is an
      unconditional jump around the dead block after it: that one has
      become a deleted note. */
  lemma PassLiveBlockKept(e: Env, labels0: seq<nat>, handlerDeleted: bool, bound: set<nat>, r: PassResult, b: nat, k: nat)
    requires EnvOk(e) && Ordered(e) && PassOk(e, labels0, handlerDeleted, bound, r)
    requires b < NBlocks(e) && r.live[b] && e.p.heads[b] <= k <= e.p.ends[b]
    ensures r.linked[k]
    ensures k == e.p.ends[b] && JumpAround(e, r.live, b + 1) ==> r.chain[k].code == NoteInsn
    ensures !(k == e.p.ends[b] && JumpAround(e, r.live, b + 1)) && e.insns[k].code != NoteInsn ==>
      r.chain[k] == e.insns[k]
  {
    var n := NBlocks(e);
    LiveBlockKept(e, r.live, b, k);
    CleanedChainNoGoneRegion(PrunedChain(e, r.live, n), r.linked, e.handlers, r.eh.removed, k);
  }

  /** `deleted` is the number of dead blocks, and the handler labels
      removed are those of dead blocks, taken from the list without loss. */
  lemma PassCounts(e: Env, labels0: seq<nat>, handlerDeleted: bool, bound: set<nat>, r: PassResult)
    requires EnvOk(e) && PassOk(e, labels0, handlerDeleted, bound, r)
    ensures r.deleted == |DeadSet(r.live, NBlocks(e))|
    ensures multiset(r.eh.labels) + multiset(r.eh.removed) == multiset(labels0)
    ensures forall u | u in r.eh.removed :: exists b | 0 <= b < NBlocks(e) ::
      !r.live[b] && e.insns[e.p.heads[b]].code == LabelInsn && e.insns[e.p.heads[b]].uid == u
  {
    DeadBelowCounts(r.live, NBlocks(e));
    EhAfterConserves(e, r.live, labels0, NBlocks(e));
  }
}
