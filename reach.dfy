/** The reachability marking of find_basic_blocks_1: starting from block 0
    and the blocks of preserved labels, every reachable block is marked
    once, falling through into its successor and following the label
    references of its jumps, forced labels, REG_LABEL notes, computed jumps,
    exception handlers and nonlocal labels, until a pass marks nothing. */
module Reach {
  import opened Rtl
  import opened Insns
  import opened Blocks
  import opened LabelRefs

  /** An entry of forced_labels with its LABEL_REF_NONLOCAL_P flag. */
  datatype Forced = Forced(target: nat, nonlocal: bool)

  /** What the marking reads: the chain and its block tables, the drops-in
      flags, the forced and nonlocal label lists, asynchronous_exceptions,
      and the two routines of other files it calls (computed_jump_p and the
      handler list get_first_handler returns for a region). */
  datatype Env = Env(
    insns: seq<Insn>,
    p: Partition,
    drops: seq<bool>,
    forced: seq<Forced>,
    nonlocalLabels: seq<nat>,
    async: bool,
    computedJump: Insn -> bool,
    handlers: nat -> seq<nat>
  )

  function NBlocks(e: Env): nat { |e.p.heads| }

  /** The shape the tagging scan leaves the tables in. */
  predicate EnvOk(e: Env)
  {
    var n := NBlocks(e);
    |e.p.ends| == n && |e.drops| == n && |e.p.activeEh| == |e.insns| &&
    (forall b | 0 <= b < n :: e.p.heads[b] <= e.p.ends[b] < |e.insns|) &&
    LabelsNumbered(e.insns, e.p.blockOf) &&
    (forall k | 0 <= k < |e.insns| && e.insns[k].code == LabelInsn :: e.p.blockOf[k] < n) &&
    (forall b | b in e.p.preserved :: b < n)
  }

  /** References to a list of labels, all from one instruction. */
  function ListRefs(labels: seq<nat>, from: nat): (r: seq<Ref>)
    ensures |r| == |labels|
    ensures forall j | 0 <= j < |r| :: r[j] == Ref(labels[j], false, from)
  {
    if labels == [] then [] else [Ref(labels[0], false, from)] + ListRefs(labels[1..], from)
  }

  /** References to the forced labels (those flagged nonlocal only when
      `all`). */
  function ForcedRefs(forced: seq<Forced>, all: bool, from: nat): seq<Ref>
  {
    if forced == [] then []
    else (if all || !forced[0].nonlocal then [Ref(forced[0].target, false, from)] else [])
         + ForcedRefs(forced[1..], all, from)
  }

  /** The targets of every forced label, flagged nonlocal or not. */
  function ForcedTargets(forced: seq<Forced>): (r: seq<nat>)
    ensures |r| == |forced| && forall j | 0 <= j < |forced| :: r[j] == forced[j].target
  {
    seq(|forced|, j requires 0 <= j < |forced| => forced[j].target)
  }

  /** Taking all forced labels references just their targets. */
  lemma {:induction false} ForcedRefsAll(forced: seq<Forced>, from: nat)
    ensures ForcedRefs(forced, true, from) == ListRefs(ForcedTargets(forced), from)
  {
    if forced != [] {
      assert ForcedTargets(forced)[1..] == ForcedTargets(forced[1..]);
      ForcedRefsAll(forced[1..], from);
    }
  }

  /** The regions from r outwards along nested_eh_region, stopping at 0.
      The walk is bounded by the number of recorded regions, which no chain
      without a cycle exceeds. */
  function RegionChain(nested: map<nat, nat>, r: nat, fuel: nat): seq<nat>
    decreases fuel
  {
    if r == 0 || fuel == 0 then []
    else [r] + RegionChain(nested, if r in nested then nested[r] else 0, fuel - 1)
  }

  function HandlerRefs(handlers: nat -> seq<nat>, regions: seq<nat>, from: nat): seq<Ref>
  {
    if regions == [] then [] else ListRefs(handlers(regions[0]), from) + HandlerRefs(handlers, regions[1..], from)
  }

  /** The label references made for the instruction at position k while
      its block is marked: its REG_LABEL notes; for a computed jump every
      label_value_list and forced label; otherwise, for a CALL_INSN without
      REG_RETVAL (every instruction under asynchronous exceptions), the
      handlers of its region and the regions around it, and the nonlocal
      labels. */
  function InsnRefs(e: Env, k: nat): seq<Ref>
    requires k < |e.insns| && |e.p.activeEh| == |e.insns|
  {
    var x := e.insns[k];
    if !IsReal(x.code) then []
    else
      ListRefs(LabelNotes(x.regNotes), x.uid)
      + (if e.computedJump(x) then ListRefs(e.p.labelValues, x.uid) + ForcedRefs(e.forced, true, x.uid)
         else if e.async || (x.code == CallInsn && !HasRetval(x)) then
           (if e.p.activeEh[k] != 0
            then HandlerRefs(e.handlers, RegionChain(e.p.nestedEh, e.p.activeEh[k], |e.p.nestedEh|), x.uid)
            else [])
           + (if !e.async then ListRefs(e.nonlocalLabels, x.uid) else [])
         else [])
  }

  function RangeRefs(e: Env, lo: nat, hi: nat): seq<Ref>
    requires lo <= hi <= |e.insns| && |e.p.activeEh| == |e.insns|
    decreases hi - lo
  {
    if lo == hi then [] else InsnRefs(e, lo) + RangeRefs(e, lo + 1, hi)
  }

  /** A reference the instruction at k makes is among those of any range
      of instructions holding k. */
  lemma {:induction false} RangeRefsHas(e: Env, lo: nat, hi: nat, k: nat)
    requires lo <= k < hi <= |e.insns| && |e.p.activeEh| == |e.insns|
    ensures forall q | q in InsnRefs(e, k) :: q in RangeRefs(e, lo, hi)
    decreases hi - lo
  {
    hide InsnRefs;
    assert RangeRefs(e, lo, hi) == InsnRefs(e, lo) + RangeRefs(e, lo + 1, hi);
    if lo < k {
      RangeRefsHas(e, lo + 1, hi, k);
    }
  }

  /** Every label reference made while block b is marked, in order: the
      jump at its end, the forced labels, then each instruction of the
      block. */
  function BlockRefs(e: Env, b: nat): seq<Ref>
    requires EnvOk(e) && b < NBlocks(e)
  {
    var endPos := e.p.ends[b];
    var last := e.insns[endPos];
    (if last.code == JumpInsn then At(Visits(last.pattern, false), last.uid) else [])
    + ForcedRefs(e.forced, false, last.uid)
    + RangeRefs(e, e.p.heads[b], endPos + 1)
  }

  /** The reference list of every block. What marking a block references
      depends only on the chain and its tables, so the lists can be formed
      before the marking loop; the graph predicates below read them from
      this table. */
  function RefTable(e: Env): (g: seq<seq<Ref>>)
    requires EnvOk(e)
    ensures |g| == NBlocks(e)
  {
    seq(NBlocks(e), b requires 0 <= b < NBlocks(e) => BlockRefs(e, b))
  }

  /** The blocks of the labels a run of references names. */
  ghost function RefBlocks(e: Env, rs: seq<Ref>): set<nat>
    requires EnvOk(e)
  {
    set j | 0 <= j < |rs| && rs[j].handle != 0 && LabelPos(e.insns, rs[j].handle).Some?
      :: LabelBlock(e.insns, e.p.blockOf, rs[j].handle)
  }

  /** The blocks marking block b makes reachable, `g` being the table of
      reference lists. */
  ghost function Out(e: Env, g: seq<seq<Ref>>, b: nat): set<nat>
    requires EnvOk(e) && |g| == NBlocks(e) && b < NBlocks(e)
  {
    (if b + 1 < NBlocks(e) && e.drops[b + 1] then {b + 1} else {}) + RefBlocks(e, g[b])
  }

  /** Marking block b aborts: one of its references names no CODE_LABEL. */
  ghost predicate Bad(e: Env, g: seq<seq<Ref>>, b: nat)
    requires EnvOk(e) && |g| == NBlocks(e) && b < NBlocks(e)
  {
    exists j | 0 <= j < |g[b]| :: Dangling(e.insns, g[b][j])
  }

  /** Block 0 and the blocks headed by a preserved label start out live. */
  ghost function Roots(e: Env): set<nat>
  {
    (if NBlocks(e) > 0 then {0} else {}) + e.p.preserved
  }

  /** A set of blocks closed under the marking's edges. */
  ghost predicate Closed(e: Env, g: seq<seq<Ref>>, s: set<nat>)
    requires EnvOk(e) && |g| == NBlocks(e)
  {
    (forall b | b in s :: b < NBlocks(e)) &&
    forall b {:trigger Out(e, g, b)} | b in s && b < NBlocks(e) :: Out(e, g, b) <= s
  }

  /** Block b's references name label l. */
  ghost predicate RefdBy(e: Env, g: seq<seq<Ref>>, b: nat, l: nat)
    requires EnvOk(e) && |g| == NBlocks(e) && b < NBlocks(e)
  {
    l != 0 && exists j | 0 <= j < |g[b]| :: g[b][j].handle == l
  }

  /** The invariant of the marking loop over the block_live and
      block_marked flags and the label chains. */
  ghost predicate Marking(e: Env, g: seq<seq<Ref>>, live: seq<bool>, marked: seq<bool>,
                          refs: map<nat, seq<nat>>, bound: set<nat>)
    requires EnvOk(e) && |g| == NBlocks(e)
  {
    var n := NBlocks(e);
    |live| == n && |marked| == n &&
    (forall b | b in Roots(e) :: live[b]) &&
    (forall b | 0 <= b < n && marked[b] :: live[b] && !Bad(e, g, b)) &&
    (forall b, c | 0 <= b < n && marked[b] && c in Out(e, g, b) :: c < n && live[c]) &&
    (forall b | 0 <= b < n && live[b] :: b in bound) &&
    RefsLive(e, live, refs) &&
    RefsFromMarked(e, g, marked, refs)
  }

  /** Every label with a reference has its block live. */
  ghost predicate RefsLive(e: Env, live: seq<bool>, refs: map<nat, seq<nat>>)
    requires EnvOk(e) && |live| == NBlocks(e)
  {
    forall l | RefsOf(refs, l) != [] ::
      LabelPos(e.insns, l).Some? && live[LabelBlock(e.insns, e.p.blockOf, l)]
  }

  /** A label has references exactly when some marked block refers to it. */
  ghost predicate RefsFromMarked(e: Env, g: seq<seq<Ref>>, marked: seq<bool>, refs: map<nat, seq<nat>>)
    requires EnvOk(e) && |g| == NBlocks(e) && |marked| == NBlocks(e)
  {
    forall l :: RefsOf(refs, l) != [] <==> exists b | 0 <= b < NBlocks(e) && marked[b] :: RefdBy(e, g, b, l)
  }

  lemma CardBelow(s: set<nat>, n: nat)
    requires forall x | x in s :: x < n
    ensures |s| <= n
  {
    if n > 0 {
      CardBelow(s - {n - 1}, n - 1);
    }
  }

  /** The outcome of a run whose prefix marked the blocks `acc`. */
  function Join(m: Result<Marks>, acc: set<nat>): Result<Marks>
  {
    if m.Abort? then Abort else Ok(Marks(m.value.refs, m.value.live + acc))
  }

  /** The calls of mark_label_ref for a run of references, on the
      block_live flags and the label chains. */
  method ApplyRefs(e: Env, rs: seq<Ref>, live: array<bool>, refs0: map<nat, seq<nat>>)
    returns (ok: bool, refs: map<nat, seq<nat>>)
    requires EnvOk(e) && live.Length == NBlocks(e)
    modifies live
    ensures ok == MarkRefs(e.insns, e.p.blockOf, rs, refs0).Ok?
    ensures ok ==> refs == MarkRefs(e.insns, e.p.blockOf, rs, refs0).value.refs
    ensures ok ==> forall b | 0 <= b < live.Length ::
                     live[b] == (old(live[b]) || b in MarkRefs(e.insns, e.p.blockOf, rs, refs0).value.live)
  {
    refs := refs0;
    ghost var acc: set<nat> := {};
    var j := 0;
    assert rs[0..] == rs;
    JoinNone(MarkRefs(e.insns, e.p.blockOf, rs, refs0));
    while j < |rs|
      invariant 0 <= j <= |rs|
      invariant MarkRefs(e.insns, e.p.blockOf, rs, refs0) == Join(MarkRefs(e.insns, e.p.blockOf, rs[j..], refs), acc)
      invariant forall b | 0 <= b < live.Length :: live[b] == (old(live[b]) || b in acc)
    {
      var v := rs[j];
      assert rs[j..][0] == v && rs[j..][1..] == rs[j + 1..];
      ghost var rest := MarkRefs(e.insns, e.p.blockOf, rs[j + 1..], AfterRef(e.insns, v, refs));
      if v.handle != 0 {
        var q := LabelPos(e.insns, v.handle);
        if q.None? {
          assert MarkRefs(e.insns, e.p.blockOf, rs[j..], refs) == Abort;
          return false, refs;
        }
        if !(v.checkdup && v.from in RefsOf(refs, v.handle)) {
          var b := e.p.blockOf[q.value];
          assert MarkRefs(e.insns, e.p.blockOf, rs[j..], refs) == Join(rest, {b});
          JoinJoin(rest, {b}, acc);
          refs := refs[v.handle := [v.from] + RefsOf(refs, v.handle)];
          live[b] := true;
          acc := acc + {b};
        } else {
          assert MarkRefs(e.insns, e.p.blockOf, rs[j..], refs) == rest;
        }
      } else {
        assert MarkRefs(e.insns, e.p.blockOf, rs[j..], refs) == rest;
      }
      j := j + 1;
    }
    ok := true;
  }

  /** Marking block i: the next block when control drops into it, then
      every label reference the block makes. */
  method MarkBlock(e: Env, g: seq<seq<Ref>>, i: nat, live: array<bool>, refs0: map<nat, seq<nat>>)
    returns (ok: bool, refs: map<nat, seq<nat>>)
    requires EnvOk(e) && |g| == NBlocks(e) && i < NBlocks(e) && live.Length == NBlocks(e)
    modifies live
    ensures ok == MarkRefs(e.insns, e.p.blockOf, g[i], refs0).Ok?
    ensures ok ==> refs == MarkRefs(e.insns, e.p.blockOf, g[i], refs0).value.refs
    ensures ok ==> forall b | 0 <= b < live.Length ::
                     live[b] == (old(live[b]) || (b == i + 1 && e.drops[b])
                                 || b in MarkRefs(e.insns, e.p.blockOf, g[i], refs0).value.live)
  {
    if i + 1 < NBlocks(e) && e.drops[i + 1] {
      live[i + 1] := true;
    }
    ok, refs := ApplyRefs(e, g[i], live, refs0);
  }

  /** The number of set flags. */
  function Count(flags: seq<bool>): (c: nat)
    ensures c <= |flags|
  {
    if flags == [] then 0 else (if flags[0] then 1 else 0) + Count(flags[1..])
  }

  lemma {:induction false} CountSet(flags: seq<bool>, i: nat)
    requires i < |flags| && !flags[i]
    ensures Count(flags[i := true]) == Count(flags) + 1
  {
    if i > 0 {
      assert flags[i := true][1..] == flags[1..][i - 1 := true];
      CountSet(flags[1..], i - 1);
    }
  }

  lemma JoinJoin(m: Result<Marks>, x: set<nat>, y: set<nat>)
    ensures Join(Join(m, x), y) == Join(m, y + x)
  {
    if m.Ok? {
      assert m.value.live + x + y == m.value.live + (y + x);
    }
  }

  lemma JoinNone(m: Result<Marks>)
    ensures Join(m, {}) == m
  {
    if m.Ok? {
      assert m.value.live + {} == m.value.live;
    }
  }

  /** Every live block below i is marked. */
  ghost predicate MarkedBelow(live: seq<bool>, marked: seq<bool>, i: nat)
  {
    i <= |live| && i <= |marked| && forall b | 0 <= b < i :: live[b] ==> marked[b]
  }

  /** A pass that marks nothing leaves the live and marked flags equal. */
  lemma MarkedAll(e: Env, g: seq<seq<Ref>>, live: seq<bool>, marked: seq<bool>, refs: map<nat, seq<nat>>, bound: set<nat>)
    requires EnvOk(e) && |g| == NBlocks(e) && Marking(e, g, live, marked, refs, bound)
    requires MarkedBelow(live, marked, NBlocks(e))
    ensures live == marked
  {
    assert forall b | 0 <= b < NBlocks(e) :: live[b] == marked[b];
  }

  /** The marking loop of find_basic_blocks_1. `bound` is any set of blocks
      that holds the roots and is closed under the edges: every live block
      lies in it, so the live blocks are the least such set. */
  method MarkReachable(e: Env, ghost bound: set<nat>)
    returns (ok: bool, live: array<bool>, marked: array<bool>, refs: map<nat, seq<nat>>)
    requires EnvOk(e)
    requires Roots(e) <= bound && Closed(e, RefTable(e), bound)
    ensures fresh(live) && fresh(marked)
    ensures ok ==> Marking(e, RefTable(e), live[..], marked[..], refs, bound) && live[..] == marked[..]
    ensures !ok ==> exists b | b in bound && b < NBlocks(e) :: Bad(e, RefTable(e), b)
  {
    var g := RefTable(e);
    ok, live, marked, refs := MarkFrom(e, g, bound);
  }

  /** block_live holds block 0 and the blocks of preserved labels;
      block_marked is clear. */
  method MarkInit(e: Env, ghost g: seq<seq<Ref>>, ghost bound: set<nat>) returns (live: array<bool>, marked: array<bool>)
    requires EnvOk(e) && |g| == NBlocks(e) && Roots(e) <= bound
    ensures fresh(live) && fresh(marked) && live != marked
    ensures live.Length == NBlocks(e) && marked.Length == NBlocks(e)
    ensures Marking(e, g, live[..], marked[..], map[], bound)
  {
    live := new bool[NBlocks(e)](b => b == 0 || b in e.p.preserved);
    marked := new bool[NBlocks(e)](b => false);
    MarkingInit(e, g, live[..], marked[..], bound);
  }

  /** The marking loop over a table of reference lists. */
  method MarkFrom(e: Env, g: seq<seq<Ref>>, ghost bound: set<nat>)
    returns (ok: bool, live: array<bool>, marked: array<bool>, refs: map<nat, seq<nat>>)
    requires EnvOk(e) && |g| == NBlocks(e)
    requires Roots(e) <= bound && Closed(e, g, bound)
    ensures fresh(live) && fresh(marked)
    ensures ok ==> Marking(e, g, live[..], marked[..], refs, bound) && live[..] == marked[..]
    ensures !ok ==> exists b | b in bound && b < NBlocks(e) :: Bad(e, g, b)
  {
    var n := NBlocks(e);
    live, marked := MarkInit(e, g, bound);
    refs := map[];
    ok := true;
    var something := true;
    while something
      invariant live.Length == n && marked.Length == n
      invariant Marking(e, g, live[..], marked[..], refs, bound)
      invariant !something ==> live[..] == marked[..]
      decreases if something then n + 1 - Count(marked[..]) else 0
    {
      ok, something, refs := MarkPass(e, g, live, marked, refs, bound);
      if !ok {
        return;
      }
    }
  }

  /** One pass of the marking loop over every block; `something` is set
      when it marked a block. */
  method MarkPass(e: Env, g: seq<seq<Ref>>, live: array<bool>, marked: array<bool>,
                  refs0: map<nat, seq<nat>>, ghost bound: set<nat>)
    returns (ok: bool, something: bool, refs: map<nat, seq<nat>>)
    requires EnvOk(e) && |g| == NBlocks(e) && Closed(e, g, bound) && live != marked
    requires live.Length == NBlocks(e) && marked.Length == NBlocks(e)
    requires Marking(e, g, live[..], marked[..], refs0, bound)
    modifies live, marked
    ensures !ok ==> exists b | b in bound && b < NBlocks(e) :: Bad(e, g, b)
    ensures ok ==> Marking(e, g, live[..], marked[..], refs, bound)
    ensures ok && something ==> Count(marked[..]) > Count(old(marked[..]))
    ensures ok && !something ==> live[..] == marked[..]
  {
    ghost var before := Count(marked[..]);
    refs := refs0;
    something := false;
    var i := 0;
    while i < NBlocks(e)
      invariant 0 <= i <= NBlocks(e)
      invariant Marking(e, g, live[..], marked[..], refs, bound)
      invariant something ==> Count(marked[..]) > before
      invariant !something ==> Count(marked[..]) == before
      invariant !something ==> MarkedBelow(live[..], marked[..], i)
    {
      var changed;
      ok, changed, refs := MarkOne(e, g, i, live, marked, refs, bound);
      if !ok {
        return;
      }
      something := something || changed;
      i := i + 1;
    }
    ok := true;
    if !something {
      MarkedAll(e, g, live[..], marked[..], refs, bound);
    }
  }

  /** One test of the marking loop: block i is marked if it is live and not
      yet marked. */
  method MarkOne(e: Env, g: seq<seq<Ref>>, i: nat, live: array<bool>, marked: array<bool>,
                 refs0: map<nat, seq<nat>>, ghost bound: set<nat>)
    returns (ok: bool, changed: bool, refs: map<nat, seq<nat>>)
    requires EnvOk(e) && |g| == NBlocks(e) && Closed(e, g, bound) && live != marked
    requires i < NBlocks(e) && live.Length == NBlocks(e) && marked.Length == NBlocks(e)
    requires Marking(e, g, live[..], marked[..], refs0, bound)
    modifies live, marked
    ensures !ok ==> exists b | b in bound && b < NBlocks(e) :: Bad(e, g, b)
    ensures ok ==> Marking(e, g, live[..], marked[..], refs, bound)
    ensures ok && changed ==> Count(marked[..]) == Count(old(marked[..])) + 1
    ensures ok && !changed ==> live[..] == old(live[..]) && marked[..] == old(marked[..])
    ensures ok && !changed && MarkedBelow(old(live[..]), old(marked[..]), i) ==> MarkedBelow(live[..], marked[..], i + 1)
  {
    if live[i] && !marked[i] {
      ok, refs := MarkFresh(e, g, i, live, marked, refs0, bound);
      changed := true;
    } else {
      ok, changed, refs := true, false, refs0;
    }
  }

  /** Marking a live block that was not marked yet. */
  method MarkFresh(e: Env, g: seq<seq<Ref>>, i: nat, live: array<bool>, marked: array<bool>,
                   refs0: map<nat, seq<nat>>, ghost bound: set<nat>)
    returns (ok: bool, refs: map<nat, seq<nat>>)
    requires EnvOk(e) && |g| == NBlocks(e) && Closed(e, g, bound) && live != marked
    requires i < NBlocks(e) && live.Length == NBlocks(e) && marked.Length == NBlocks(e)
    requires Marking(e, g, live[..], marked[..], refs0, bound) && live[i] && !marked[i]
    modifies live, marked
    ensures !ok ==> exists b | b in bound && b < NBlocks(e) :: Bad(e, g, b)
    ensures ok ==> Marking(e, g, live[..], marked[..], refs, bound)
    ensures ok ==> Count(marked[..]) == Count(old(marked[..])) + 1
  {
    ghost var live0, marked0 := live[..], marked[..];
    CountSet(marked0, i);
    marked[i] := true;
    assert marked[..] == marked0[i := true];
    ok, refs := MarkBlock(e, g, i, live, refs0);
    if !ok {
      MarkRefsAborts(e.insns, e.p.blockOf, g[i], refs0);
      assert i in bound;
      return;
    }
    MarkStep(e, g, live0, marked0, refs0, MarkRefs(e.insns, e.p.blockOf, g[i], refs0).value,
             live[..], marked[..], i, bound);
  }

  lemma MarkingInit(e: Env, g: seq<seq<Ref>>, live: seq<bool>, marked: seq<bool>, bound: set<nat>)
    requires EnvOk(e) && |g| == NBlocks(e)
    requires Roots(e) <= bound
    requires |live| == NBlocks(e) && |marked| == NBlocks(e)
    requires forall b | 0 <= b < |live| :: live[b] == (b == 0 || b in e.p.preserved)
    requires forall b | 0 <= b < |marked| :: !marked[b]
    ensures Marking(e, g, live, marked, map[], bound)
  {
    assert forall b | 0 <= b < NBlocks(e) && live[b] :: b in Roots(e);
  }

  /** The flags after marking block i: the next block when control drops
      into it, and the blocks of the labels its references name. */
  ghost predicate MarkedLive(e: Env, live0: seq<bool>, m: Marks, live1: seq<bool>, i: nat)
    requires EnvOk(e) && i < NBlocks(e)
  {
    |live0| == NBlocks(e) && |live1| == NBlocks(e) &&
    forall b | 0 <= b < NBlocks(e) :: live1[b] == (live0[b] || (b == i + 1 && e.drops[b]) || b in m.live)
  }

  /** Marking block i keeps the invariant. */
  lemma MarkStep(e: Env, g: seq<seq<Ref>>, live0: seq<bool>, marked0: seq<bool>, refs0: map<nat, seq<nat>>,
                 m: Marks, live1: seq<bool>, marked1: seq<bool>, i: nat, bound: set<nat>)
    requires EnvOk(e) && |g| == NBlocks(e) && Closed(e, g, bound)
    requires Marking(e, g, live0, marked0, refs0, bound)
    requires i < NBlocks(e) && live0[i] && !marked0[i] && marked1 == marked0[i := true]
    requires MarkRefs(e.insns, e.p.blockOf, g[i], refs0) == Ok(m)
    requires MarkedLive(e, live0, m, live1, i)
    ensures Marking(e, g, live1, marked1, m.refs, bound)
  {
    MarkRefsAborts(e.insns, e.p.blockOf, g[i], refs0);
    assert !Bad(e, g, i);
    OutCovered(e, g, live0, refs0, m, live1, i);
    assert i in bound && Out(e, g, i) <= bound;
    NewLiveBounded(e, g, live0, refs0, m, live1, i, bound);
    RefsLiveStep(e, g[i], live0, refs0, m, live1, i);
    RefsFromMarkedStep(e, g, marked0, refs0, m, marked1, i);
  }

  /** After marking block i every block it leads to is live. */
  lemma OutCovered(e: Env, g: seq<seq<Ref>>, live0: seq<bool>, refs0: map<nat, seq<nat>>, m: Marks,
                   live1: seq<bool>, i: nat)
    requires EnvOk(e) && |g| == NBlocks(e) && i < NBlocks(e)
    requires MarkRefs(e.insns, e.p.blockOf, g[i], refs0) == Ok(m)
    requires MarkedLive(e, live0, m, live1, i) && RefsLive(e, live0, refs0)
    ensures forall c | c in Out(e, g, i) :: c < NBlocks(e) && live1[c]
  {
    var rs := g[i];
    forall c | c in Out(e, g, i) ensures c < NBlocks(e) && live1[c] {
      if c !in RefBlocks(e, rs) {
        assert c == i + 1 && e.drops[c];
      } else {
        var j :| 0 <= j < |rs| && rs[j].handle != 0 && LabelPos(e.insns, rs[j].handle).Some?
                 && c == LabelBlock(e.insns, e.p.blockOf, rs[j].handle);
        MarkRefsCovers(e.insns, e.p.blockOf, rs, refs0, j);
      }
    }
  }

  /** The blocks newly made live lie in any closed set holding block i. */
  lemma NewLiveBounded(e: Env, g: seq<seq<Ref>>, live0: seq<bool>, refs0: map<nat, seq<nat>>, m: Marks,
                       live1: seq<bool>, i: nat, bound: set<nat>)
    requires EnvOk(e) && |g| == NBlocks(e) && i < NBlocks(e)
    requires Out(e, g, i) <= bound
    requires forall b | 0 <= b < |live0| && live0[b] :: b in bound
    requires MarkRefs(e.insns, e.p.blockOf, g[i], refs0) == Ok(m)
    requires MarkedLive(e, live0, m, live1, i)
    ensures forall b | 0 <= b < NBlocks(e) && live1[b] :: b in bound
  {
    forall b | 0 <= b < NBlocks(e) && live1[b] ensures b in bound {
      if !live0[b] {
        if b == i + 1 && e.drops[b] {
          assert b in Out(e, g, i);
        } else {
          NewLiveInOut(e, g[i], refs0, m, b);
        }
      }
    }
  }

  lemma NewLiveInOut(e: Env, rs: seq<Ref>, refs0: map<nat, seq<nat>>, m: Marks, b: nat)
    requires EnvOk(e)
    requires MarkRefs(e.insns, e.p.blockOf, rs, refs0) == Ok(m)
    requires b in m.live
    ensures b in RefBlocks(e, rs)
  {
    MarkRefsLive(e.insns, e.p.blockOf, rs, refs0, b);
    var j :| 0 <= j < |rs| && rs[j].handle != 0 && LabelPos(e.insns, rs[j].handle).Some?
             && b == LabelBlock(e.insns, e.p.blockOf, rs[j].handle);
  }

  lemma RefsLiveStep(e: Env, rs: seq<Ref>, live0: seq<bool>, refs0: map<nat, seq<nat>>, m: Marks,
                     live1: seq<bool>, i: nat)
    requires EnvOk(e) && i < NBlocks(e)
    requires MarkedLive(e, live0, m, live1, i)
    requires RefsLive(e, live0, refs0)
    requires MarkRefs(e.insns, e.p.blockOf, rs, refs0) == Ok(m)
    ensures RefsLive(e, live1, m.refs)
  {
    forall l | RefsOf(m.refs, l) != []
      ensures LabelPos(e.insns, l).Some? && live1[LabelBlock(e.insns, e.p.blockOf, l)]
    {
      if RefsOf(refs0, l) == [] {
        var u := RefsOf(m.refs, l)[0];
        MarkRefsNewFrom(e.insns, e.p.blockOf, rs, refs0, l, u);
        var j :| 0 <= j < |rs| && rs[j].handle == l && rs[j].from == u && l != 0;
        MarkRefsCovers(e.insns, e.p.blockOf, rs, refs0, j);
      }
    }
  }

  lemma RefsFromMarkedStep(e: Env, g: seq<seq<Ref>>, marked0: seq<bool>, refs0: map<nat, seq<nat>>, m: Marks,
                           marked1: seq<bool>, i: nat)
    requires EnvOk(e) && |g| == NBlocks(e) && i < NBlocks(e) && |marked0| == NBlocks(e)
    requires marked1 == marked0[i := true]
    requires RefsFromMarked(e, g, marked0, refs0)
    requires MarkRefs(e.insns, e.p.blockOf, g[i], refs0) == Ok(m)
    ensures RefsFromMarked(e, g, marked1, m.refs)
  {
    var rs := g[i];
    forall l ensures RefsOf(m.refs, l) != [] <==> exists b | 0 <= b < NBlocks(e) && marked1[b] :: RefdBy(e, g, b, l)
    {
      if RefsOf(m.refs, l) != [] {
        if RefsOf(refs0, l) == [] {
          var u := RefsOf(m.refs, l)[0];
          MarkRefsNewFrom(e.insns, e.p.blockOf, rs, refs0, l, u);
          assert RefdBy(e, g, i, l);
        } else {
          var b :| 0 <= b < NBlocks(e) && marked0[b] && RefdBy(e, g, b, l);
          assert marked1[b];
        }
      }
      if exists b | 0 <= b < NBlocks(e) && marked1[b] :: RefdBy(e, g, b, l) {
        var b :| 0 <= b < NBlocks(e) && marked1[b] && RefdBy(e, g, b, l);
        if b == i {
          var j :| 0 <= j < |rs| && rs[j].handle == l;
          MarkRefsRecorded(e.insns, e.p.blockOf, rs, refs0, j);
        } else {
          assert marked0[b];
          MarkRefsKeeps(e.insns, e.p.blockOf, rs, refs0, l, RefsOf(refs0, l)[0]);
        }
      }
    }
  }

  /** At the fixed point the live set holds the roots and is closed. */
  lemma FixedPointClosed(e: Env, g: seq<seq<Ref>>, live: seq<bool>, refs: map<nat, seq<nat>>, bound: set<nat>)
    requires EnvOk(e) && |g| == NBlocks(e) && Marking(e, g, live, live, refs, bound)
    ensures Roots(e) <= LiveSet(live)
    ensures Closed(e, g, LiveSet(live))
    ensures LiveSet(live) <= bound
    ensures forall b | b in LiveSet(live) :: !Bad(e, g, b)
  {
  }

  /** The blocks whose block_live flag is set. */
  ghost function LiveSet(live: seq<bool>): set<nat>
  {
    set b | 0 <= b < |live| && live[b]
  }

  /** The tables of a finished tagging scan, with drops-in flags for each
      block, have the shape the marking reads. */
  lemma TaggedEnvOk(e: Env, nonlocal: bool, retvalAsInsn: bool)
    requires EhBalanced(e.insns)
    requires Tagged(e.insns, |e.insns|, nonlocal, e.async, retvalAsInsn, e.p)
    requires |e.drops| == |e.p.heads|
    ensures EnvOk(e)
  {
    var insns := e.insns;
    var heads := e.p.heads;
    forall b | 0 <= b < |heads| ensures heads[b] <= e.p.ends[b] < |insns| {
      if b < |heads| - 1 {
        assert e.p.ends[b] == EndFrom(insns, heads[b], heads[b + 1]);
      }
    }
    forall k | 0 <= k < |insns| && insns[k].code == LabelInsn
      ensures 0 <= e.p.blockOf[k] < |heads|
    {
      LabelHeadsBlock(insns, nonlocal, retvalAsInsn, k);
    }
  }
}
