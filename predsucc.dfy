/** Predecessor and successor lists (flow.c, add_pred_succ and
    compute_preds_succs). Each block has one list of predecessors and one of
    successors, newest entry first; ENTRY_BLOCK and EXIT_BLOCK stand for
    the function's entry and exit. */
module PredSucc {
  import opened Rtl
  import opened Insns
  import opened SBitmap

  /** The arguments of one add_pred_succ call. */
  datatype Edge = Edge(pred: int, succ: int)

  /** The arguments index the tables of n blocks: a block number, or
      ENTRY_BLOCK as predecessor, or EXIT_BLOCK as successor. */
  predicate EdgeIn(x: Edge, n: nat)
  {
    (x.pred == EntryBlock || 0 <= x.pred < n) && (x.succ == ExitBlock || 0 <= x.succ < n)
  }

  /** No value is on the list twice. */
  predicate NoDup(l: seq<int>)
  {
    l == [] || (l[0] !in l[1..] && NoDup(l[1..]))
  }

  /** The list after add_int_list_node when the value is not on it yet. */
  function Push(l: seq<int>, x: int): (r: seq<int>)
    ensures forall y :: y in r <==> y in l || y == x
    ensures NoDup(l) ==> NoDup(r)
    ensures |r| == if x in l then |l| else |l| + 1
  {
    if x in l then l else [x] + l
  }

  /** The predecessor lists after add_pred_succ (x.pred, x.succ). */
  function AddPred(ps: seq<seq<int>>, x: Edge): seq<seq<int>>
    requires x.succ == ExitBlock || 0 <= x.succ < |ps|
  {
    if x.succ != ExitBlock then ps[x.succ := Push(ps[x.succ], x.pred)] else ps
  }

  /** The successor lists after add_pred_succ (x.pred, x.succ). */
  function AddSucc(ss: seq<seq<int>>, x: Edge): seq<seq<int>>
    requires x.pred == EntryBlock || 0 <= x.pred < |ss|
  {
    if x.pred != EntryBlock then ss[x.pred := Push(ss[x.pred], x.succ)] else ss
  }

  predicate EdgesIn(es: seq<Edge>, n: nat)
  {
    forall j | 0 <= j < |es| :: EdgeIn(es[j], n)
  }

  lemma EdgesInAppend(a: seq<Edge>, b: seq<Edge>, n: nat)
    requires EdgesIn(a, n) && EdgesIn(b, n)
    ensures EdgesIn(a + b, n)
  {
    forall j | 0 <= j < |a + b|
      ensures EdgeIn((a + b)[j], n)
    {
      if j >= |a| {
        assert (a + b)[j] == b[j - |a|];
      }
    }
  }

  /** The predecessor lists after add_pred_succ for each edge in turn. */
  function PredsAfter(ps: seq<seq<int>>, es: seq<Edge>): (r: seq<seq<int>>)
    requires EdgesIn(es, |ps|)
    ensures |r| == |ps|
  {
    if es == [] then ps else AddPred(PredsAfter(ps, es[..|es| - 1]), es[|es| - 1])
  }

  /** The successor lists after add_pred_succ for each edge in turn. */
  function SuccsAfter(ss: seq<seq<int>>, es: seq<Edge>): (r: seq<seq<int>>)
    requires EdgesIn(es, |ss|)
    ensures |r| == |ss|
  {
    if es == [] then ss else AddSucc(SuccsAfter(ss, es[..|es| - 1]), es[|es| - 1])
  }

  /** n empty lists, as bzero leaves them. */
  function NoLists(n: nat): (r: seq<seq<int>>)
    ensures |r| == n && forall b | 0 <= b < n :: r[b] == []
  {
    seq(n, b => [])
  }

  /** Block s's predecessors are its old ones and the predecessor of every
      edge into s; nothing enters twice. */
  lemma {:induction false} PredsAfterMember(ps: seq<seq<int>>, es: seq<Edge>, s: nat, x: int)
    requires EdgesIn(es, |ps|) && s < |ps|
    ensures x in PredsAfter(ps, es)[s] <==> x in ps[s] || Edge(x, s) in es
    ensures NoDup(ps[s]) ==> NoDup(PredsAfter(ps, es)[s])
  {
    if es != [] {
      var init, last := es[..|es| - 1], es[|es| - 1];
      assert es == init + [last];
      assert EdgesIn(init, |ps|);
      PredsAfterMember(ps, init, s, x);
    }
  }

  /** Block p's successors are its old ones and the successor of every
      edge out of p; nothing enters twice. */
  lemma {:induction false} SuccsAfterMember(ss: seq<seq<int>>, es: seq<Edge>, p: nat, x: int)
    requires EdgesIn(es, |ss|) && p < |ss|
    ensures x in SuccsAfter(ss, es)[p] <==> x in ss[p] || Edge(p, x) in es
    ensures NoDup(ss[p]) ==> NoDup(SuccsAfter(ss, es)[p])
  {
    if es != [] {
      var init, last := es[..|es| - 1], es[|es| - 1];
      assert es == init + [last];
      assert EdgesIn(init, |ss|);
      SuccsAfterMember(ss, init, p, x);
    }
  }

  /** Adding two runs of edges is adding the first, then the second. */
  lemma {:induction false} AfterAppend(ps: seq<seq<int>>, ss: seq<seq<int>>, a: seq<Edge>, b: seq<Edge>)
    requires |ps| == |ss| && EdgesIn(a, |ps|) && EdgesIn(b, |ps|)
    ensures EdgesIn(a + b, |ps|)
    ensures PredsAfter(ps, a + b) == PredsAfter(PredsAfter(ps, a), b)
    ensures SuccsAfter(ss, a + b) == SuccsAfter(SuccsAfter(ss, a), b)
  {
    EdgesInAppend(a, b, |ps|);
    if b == [] {
      assert a + b == a;
    } else {
      var bi := b[..|b| - 1];
      assert (a + b)[..|a + b| - 1] == a + bi;
      assert EdgesIn(bi, |ps|);
      AfterAppend(ps, ss, a, bi);
    }
  }

  predicate ListsIn(ls: seq<seq<Edge>>, n: nat)
  {
    forall k | 0 <= k < |ls| :: EdgesIn(ls[k], n)
  }

  /** The first i lists one after another. */
  function Concat(ls: seq<seq<Edge>>, i: nat): seq<Edge>
    requires i <= |ls|
  {
    if i == 0 then [] else Concat(ls, i - 1) + ls[i - 1]
  }

  lemma {:induction false} ConcatIn(ls: seq<seq<Edge>>, i: nat, n: nat)
    requires i <= |ls| && ListsIn(ls, n)
    ensures EdgesIn(Concat(ls, i), n)
  {
    if i > 0 {
      ConcatIn(ls, i - 1, n);
      EdgesInAppend(Concat(ls, i - 1), ls[i - 1], n);
    }
  }

  /** An edge is among the first i lists' edges exactly when it is on one
      of them. */
  lemma {:induction false} ConcatMember(ls: seq<seq<Edge>>, i: nat, x: Edge)
    requires i <= |ls|
    ensures x in Concat(ls, i) <==> exists k | 0 <= k < i :: x in ls[k]
  {
    if i > 0 {
      ConcatMember(ls, i - 1, x);
      assert x in Concat(ls, i) <==> x in Concat(ls, i - 1) || x in ls[i - 1];
      if x in ls[i - 1] {
        assert exists k | 0 <= k < i :: x in ls[k];
      }
      if exists k | 0 <= k < i :: x in ls[k] {
        var k :| 0 <= k < i && x in ls[k];
        if k < i - 1 {
          assert exists c | 0 <= c < i - 1 :: x in ls[c];
        }
      }
    }
  }

  /** The predecessor lists after the edges of the first i lists, list by
      list. */
  function PredsOfLists(ps: seq<seq<int>>, ls: seq<seq<Edge>>, i: nat): (r: seq<seq<int>>)
    requires i <= |ls| && ListsIn(ls, |ps|)
    ensures |r| == |ps|
  {
    if i == 0 then ps else PredsAfter(PredsOfLists(ps, ls, i - 1), ls[i - 1])
  }

  /** The successor lists after the edges of the first i lists, list by
      list. */
  function SuccsOfLists(ss: seq<seq<int>>, ls: seq<seq<Edge>>, i: nat): (r: seq<seq<int>>)
    requires i <= |ls| && ListsIn(ls, |ss|)
    ensures |r| == |ss|
  {
    if i == 0 then ss else SuccsAfter(SuccsOfLists(ss, ls, i - 1), ls[i - 1])
  }

  /** List by list is edge by edge. */
  lemma {:induction false} ListsConcat(ps: seq<seq<int>>, ss: seq<seq<int>>, ls: seq<seq<Edge>>, i: nat)
    requires |ps| == |ss| && i <= |ls| && ListsIn(ls, |ps|)
    ensures EdgesIn(Concat(ls, i), |ps|)
    ensures PredsOfLists(ps, ls, i) == PredsAfter(ps, Concat(ls, i))
    ensures SuccsOfLists(ss, ls, i) == SuccsAfter(ss, Concat(ls, i))
  {
    ConcatIn(ls, i, |ps|);
    if i > 0 {
      ListsConcat(ps, ss, ls, i - 1);
      AfterAppend(ps, ss, Concat(ls, i - 1), ls[i - 1]);
    }
  }

  /** The walk down a predecessor or successor list in add_pred_succ. */
  method Member(l: seq<int>, x: int) returns (found: bool)
    ensures found <==> x in l
  {
    var j := 0;
    while j < |l|
      invariant j <= |l| && x !in l[..j]
    {
      if l[j] == x {
        return true;
      }
      assert l[..j + 1] == l[..j] + [l[j]];
      j := j + 1;
    }
    assert l[..j] == l;
    return false;
  }

  /** s_preds, s_succs, num_preds and num_succs for n blocks. */
  class Cfg {
    const n: nat
    var preds: seq<seq<int>>
    var succs: seq<seq<int>>
    var numPreds: seq<nat>
    var numSuccs: seq<nat>

    /** Every list is free of repeats and its count is its length. */
    ghost predicate Valid()
      reads this
    {
      |preds| == n && |succs| == n && |numPreds| == n && |numSuccs| == n &&
      forall b | 0 <= b < n ::
        NoDup(preds[b]) && NoDup(succs[b]) && numPreds[b] == |preds[b]| && numSuccs[b] == |succs[b]|
    }

    /** The tables as the bzero calls leave them. */
    constructor (n: nat)
      ensures Valid() && this.n == n
      ensures preds == NoLists(n) && succs == NoLists(n)
    {
      this.n := n;
      new;
      Clear();
    }

    /** add_pred_succ: records the predecessor on the successor's list and
        the successor on the predecessor's, each unless already there or
        the block is EXIT_BLOCK / ENTRY_BLOCK, and counts the entries
        added. */
    method AddPredSucc(pred: int, succ: int)
      requires Valid() && EdgeIn(Edge(pred, succ), n)
      modifies this
      ensures Valid()
      ensures preds == AddPred(old(preds), Edge(pred, succ))
      ensures succs == AddSucc(old(succs), Edge(pred, succ))
      ensures numPreds == if succ != ExitBlock && pred !in old(preds[succ])
                          then old(numPreds)[succ := old(numPreds[succ]) + 1] else old(numPreds)
      ensures numSuccs == if pred != EntryBlock && succ !in old(succs[pred])
                          then old(numSuccs)[pred := old(numSuccs[pred]) + 1] else old(numSuccs)
    {
      if succ != ExitBlock {
        var found := Member(preds[succ], pred);
        if !found {
          preds := preds[succ := [pred] + preds[succ]];
          numPreds := numPreds[succ := numPreds[succ] + 1];
        }
      }
      if pred != EntryBlock {
        var found := Member(succs[pred], succ);
        if !found {
          succs := succs[pred := [succ] + succs[pred]];
          numSuccs := numSuccs[pred := numSuccs[pred] + 1];
        }
      }
    }

    /** add_pred_succ for each edge in turn. */
    method AddEdges(es: seq<Edge>)
      requires Valid() && EdgesIn(es, n)
      modifies this
      ensures Valid()
      ensures preds == PredsAfter(old(preds), es) && succs == SuccsAfter(old(succs), es)
    {
      var j := 0;
      while j < |es|
        invariant j <= |es| && Valid()
        invariant preds == PredsAfter(old(preds), es[..j]) && succs == SuccsAfter(old(succs), es[..j])
      {
        assert es[..j + 1][..j] == es[..j];
        AddPredSucc(es[j].pred, es[j].succ);
        j := j + 1;
      }
      assert es[..j] == es;
    }

    /** The four bzero calls: every list empty, every count zero. */
    method Clear()
      modifies this
      ensures Valid() && preds == NoLists(n) && succs == NoLists(n)
    {
      preds := NoLists(n);
      succs := NoLists(n);
      numPreds := seq(n, b => 0);
      numSuccs := seq(n, b => 0);
    }

    /** compute_preds_succs: clears the tables, then records the edges
        into and out of each block in turn, then the edge from
        ENTRY_BLOCK into block 0. */
    method ComputePredsSuccs(t: FlowTables)
      requires n == Blocks(t) > 0
      modifies this
      ensures Valid()
      ensures preds == PredsAfter(NoLists(n), CfgEdges(t))
      ensures succs == SuccsAfter(NoLists(n), CfgEdges(t))
    {
      Clear();
      var bb := 0;
      while bb < n
        invariant bb <= n && Valid()
        invariant preds == PredsOfLists(NoLists(n), BlockLists(t), bb)
        invariant succs == SuccsOfLists(NoLists(n), BlockLists(t), bb)
      {
        AddBlockEdges(t, bb);
        bb := bb + 1;
      }
      CfgOfBlocks(t);
      AddPredSucc(EntryBlock, 0);
    }

    /** The body of compute_preds_succs's loop over the blocks. */
    method AddBlockEdges(t: FlowTables, bb: nat)
      requires Valid() && n == Blocks(t) && bb < n
      requires preds == PredsOfLists(NoLists(n), BlockLists(t), bb)
      requires succs == SuccsOfLists(NoLists(n), BlockLists(t), bb)
      modifies this
      ensures Valid()
      ensures preds == PredsOfLists(NoLists(n), BlockLists(t), bb + 1)
      ensures succs == SuccsOfLists(NoLists(n), BlockLists(t), bb + 1)
    {
      AddEdges(BlockEdges(t, bb));
    }
  }

  /** What compute_preds_succs reads: the chain by position, the block
      tables, uid_block_number (the block of each instruction, by
      INSN_UID), the LABEL_REFS chain of each label (by the label's
      INSN_UID, the instruction containing each reference, newest first),
      and two routines of other files: condjump_p and INSN_DELETED_P. */
  datatype Tables = Tables(
    chain: seq<Insn>,
    heads: seq<nat>,
    ends: seq<nat>,
    blockNum: map<nat, int>,
    drops: seq<bool>,
    refs: map<nat, seq<Insn>>,
    condJump: Insn -> bool,
    deletedP: Insn -> bool
  )

  /** Tables that compute_preds_succs can walk. */
  type FlowTables = t: Tables | TablesOk(t)
    witness Tables([], [], [], map[], [], map[], x => false, x => false)

  function Blocks(t: Tables): nat { |t.heads| }

  /** The LABEL_REFS chain of the label with the given UID. */
  function Referrers(t: Tables, lbl: nat): seq<Insn>
  {
    if lbl in t.refs then t.refs[lbl] else []
  }

  /** BLOCK_NUM of the instruction is a block. */
  predicate InBlock(t: Tables, x: Insn)
  {
    x.uid in t.blockNum && 0 <= t.blockNum[x.uid] < |t.heads|
  }

  /** The tables describe blocks of the chain, and every instruction on a
      block-heading label's LABEL_REFS chain is in a block. */
  predicate TablesOk(t: Tables)
  {
    var n := |t.heads|;
    |t.ends| == n && |t.drops| == n &&
    (forall b | 0 <= b < n :: t.heads[b] < |t.chain| && t.ends[b] < |t.chain|) &&
    forall b, x | 0 <= b < n && x in Referrers(t, t.chain[t.heads[b]].uid) :: InBlock(t, x)
  }

  /** The referring instruction is still part of the function: neither
      INSN_DELETED_P nor a NOTE_INSN_DELETED note. */
  predicate RefLive(t: Tables, x: Insn)
  {
    !t.deletedP(x) && !(x.code == NoteInsn && x.note == NoteDeleted)
  }

  /** The edges from the blocks of the live instructions on `xs` into bb. */
  function RefEdges(t: FlowTables, xs: seq<Insn>, bb: nat): (r: seq<Edge>)
    requires bb < Blocks(t)
    requires forall x | x in xs :: InBlock(t, x)
    ensures EdgesIn(r, Blocks(t))
  {
    if xs == [] then []
    else
      assert xs[0] in xs && InBlock(t, xs[0]);
      var head := if RefLive(t, xs[0]) then [Edge(t.blockNum[xs[0].uid], bb)] else [];
      EdgesInAppend(head, RefEdges(t, xs[1..], bb), Blocks(t));
      head + RefEdges(t, xs[1..], bb)
  }

  /** The edges into block bb from the jumps to the label heading it. */
  function LabelEdges(t: FlowTables, bb: nat): (r: seq<Edge>)
    requires bb < Blocks(t)
    ensures EdgesIn(r, Blocks(t))
  {
    var h := t.chain[t.heads[bb]];
    if h.code == LabelInsn then RefEdges(t, Referrers(t, h.uid), bb) else []
  }

  /** Block bb reaches the exit: its last instruction is a RETURN jump, or
      it is the last block and ends in a conditional jump that is not a
      simple jump, or in no jump at all. */
  predicate ReachesExit(t: FlowTables, bb: nat)
    requires bb < Blocks(t)
  {
    var x := t.chain[t.ends[bb]];
    (x.code == JumpInsn && x.pattern == Return) ||
    (((x.code == JumpInsn && t.condJump(x) && !SimpleJumpPattern(x.pattern)) || x.code != JumpInsn) &&
     bb == Blocks(t) - 1)
  }

  /** The add_pred_succ calls compute_preds_succs makes for block bb: the
      label references into it, the edge to the exit, and the fall-through
      edge from the block before it. */
  function BlockEdges(t: FlowTables, bb: nat): (r: seq<Edge>)
    requires bb < Blocks(t)
    ensures EdgesIn(r, Blocks(t))
  {
    var exit := if ReachesExit(t, bb) then [Edge(bb, ExitBlock)] else [];
    var drop := if t.drops[bb] then [Edge(bb - 1, bb)] else [];
    EdgesInAppend(LabelEdges(t, bb), exit, Blocks(t));
    EdgesInAppend(LabelEdges(t, bb) + exit, drop, Blocks(t));
    LabelEdges(t, bb) + exit + drop
  }

  /** The add_pred_succ calls of each block, by block number. */
  function BlockLists(t: FlowTables): (r: seq<seq<Edge>>)
    ensures |r| == Blocks(t) && ListsIn(r, Blocks(t))
    ensures forall bb | 0 <= bb < Blocks(t) :: r[bb] == BlockEdges(t, bb)
  {
    seq(Blocks(t), bb requires 0 <= bb < Blocks(t) => BlockEdges(t, bb))
  }

  /** Every call compute_preds_succs makes, the entry edge last. */
  function CfgEdges(t: FlowTables): (r: seq<Edge>)
    requires Blocks(t) > 0
    ensures EdgesIn(r, Blocks(t))
  {
    var n := Blocks(t);
    ConcatIn(BlockLists(t), n, n);
    EdgesInAppend(Concat(BlockLists(t), n), [Edge(EntryBlock, 0)], n);
    Concat(BlockLists(t), n) + [Edge(EntryBlock, 0)]
  }

  /** The lists of all the calls are those of the blocks' calls with the
      entry edge added. */
  lemma CfgOfBlocks(t: FlowTables)
    requires Blocks(t) > 0
    ensures PredsAfter(NoLists(Blocks(t)), CfgEdges(t)) == AddPred(PredsOfLists(NoLists(Blocks(t)), BlockLists(t), Blocks(t)), Edge(EntryBlock, 0))
    ensures SuccsAfter(NoLists(Blocks(t)), CfgEdges(t)) == AddSucc(SuccsOfLists(NoLists(Blocks(t)), BlockLists(t), Blocks(t)), Edge(EntryBlock, 0))
  {
    var n := Blocks(t);
    var ls := BlockLists(t);
    var entry := Edge(EntryBlock, 0);
    ListsConcat(NoLists(n), NoLists(n), ls, n);
    AfterAppend(NoLists(n), NoLists(n), Concat(ls, n), [entry]);
    AfterOne(PredsOfLists(NoLists(n), ls, n), SuccsOfLists(NoLists(n), ls, n), entry);
  }

  /** One edge is one add_pred_succ. */
  lemma AfterOne(ps: seq<seq<int>>, ss: seq<seq<int>>, x: Edge)
    requires |ps| == |ss| && EdgeIn(x, |ps|)
    ensures PredsAfter(ps, [x]) == AddPred(ps, x) && SuccsAfter(ss, [x]) == AddSucc(ss, x)
  {
    assert [x][..0] == [];
  }

  /** The calls in terms of the blocks: an edge into block 0 from
      ENTRY_BLOCK, edges into a label's block from the blocks of its live
      references, an edge to EXIT_BLOCK from each block that reaches the
      exit, and an edge from each block into the next when the next drops
      in. */
  lemma CfgEdgeCases(t: FlowTables, x: Edge)
    requires Blocks(t) > 0
    ensures x in CfgEdges(t) <==> x == Edge(EntryBlock, 0) || exists bb | 0 <= bb < Blocks(t) :: x in BlockEdges(t, bb)
  {
    var n := Blocks(t);
    var ls := BlockLists(t);
    ConcatMember(ls, n, x);
    if exists k | 0 <= k < n :: x in ls[k] {
      var k :| 0 <= k < n && x in ls[k];
      assert x in BlockEdges(t, k);
    }
    if exists bb | 0 <= bb < n :: x in BlockEdges(t, bb) {
      var bb :| 0 <= bb < n && x in BlockEdges(t, bb);
      assert x in ls[bb];
    }
  }

  /** The lists compute_preds_succs builds hold exactly the edges of its
      calls, each once: for blocks p and s, p is a predecessor of s exactly
      when s is a successor of p, ENTRY_BLOCK precedes block 0 and nothing
      else, and a block is followed by EXIT_BLOCK exactly when it reaches
      the exit. */
  lemma CfgLists(t: FlowTables, s: nat, x: int)
    requires Blocks(t) > 0 && s < Blocks(t)
    ensures x in PredsAfter(NoLists(Blocks(t)), CfgEdges(t))[s] <==> Edge(x, s) in CfgEdges(t)
    ensures x in SuccsAfter(NoLists(Blocks(t)), CfgEdges(t))[s] <==> Edge(s, x) in CfgEdges(t)
    ensures NoDup(PredsAfter(NoLists(Blocks(t)), CfgEdges(t))[s])
    ensures NoDup(SuccsAfter(NoLists(Blocks(t)), CfgEdges(t))[s])
  {
    var n := Blocks(t);
    var es := CfgEdges(t);
    PredsAfterMember(NoLists(n), es, s, x);
    SuccsAfterMember(NoLists(n), es, s, x);
  }

  /** The edge to EXIT_BLOCK and the fall-through edge of block bb. */
  lemma BlockEdgeExitAndDrop(t: FlowTables, bb: nat)
    requires bb < Blocks(t)
    ensures Edge(bb, ExitBlock) in BlockEdges(t, bb) <==> ReachesExit(t, bb)
    ensures t.drops[bb] ==> Edge(bb - 1, bb) in BlockEdges(t, bb)
  {
    var l := LabelEdges(t, bb);
    if Edge(bb, ExitBlock) in BlockEdges(t, bb) {
      var j :| 0 <= j < |BlockEdges(t, bb)| && BlockEdges(t, bb)[j] == Edge(bb, ExitBlock);
      if j < |l| {
        LabelEdgesInto(t, Referrers(t, t.chain[t.heads[bb]].uid), bb);
      }
    }
    if ReachesExit(t, bb) {
      assert BlockEdges(t, bb)[|l|] == Edge(bb, ExitBlock);
    }
    if t.drops[bb] {
      assert BlockEdges(t, bb)[|BlockEdges(t, bb)| - 1] == Edge(bb - 1, bb);
    }
  }

  /** The edges of a label's references all lead into its block. */
  lemma {:induction false} LabelEdgesInto(t: FlowTables, xs: seq<Insn>, bb: nat)
    requires bb < Blocks(t)
    requires forall x | x in xs :: InBlock(t, x)
    ensures forall j | 0 <= j < |RefEdges(t, xs, bb)| :: RefEdges(t, xs, bb)[j].succ == bb
  {
    if xs != [] {
      LabelEdgesInto(t, xs[1..], bb);
    }
  }

  /** p is a predecessor of s exactly when s is a successor of p. */
  lemma CfgSymmetric(t: FlowTables, p: nat, s: nat)
    requires Blocks(t) > 0 && p < Blocks(t) && s < Blocks(t)
    ensures p in PredsAfter(NoLists(Blocks(t)), CfgEdges(t))[s] <==> s in SuccsAfter(NoLists(Blocks(t)), CfgEdges(t))[p]
  {
    CfgLists(t, s, p);
    CfgLists(t, p, s);
  }

  /** ENTRY_BLOCK is a predecessor of block 0. */
  lemma CfgEntry(t: FlowTables)
    requires Blocks(t) > 0
    ensures EntryBlock in PredsAfter(NoLists(Blocks(t)), CfgEdges(t))[0]
  {
    CfgLists(t, 0, EntryBlock);
    assert CfgEdges(t)[|CfgEdges(t)| - 1] == Edge(EntryBlock, 0);
  }
}
