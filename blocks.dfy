/** The basic-block partitioner of flow.c: the counting scan of
    find_basic_blocks, the tagging scan of find_basic_blocks_1 that records
    each block's head, end and loop depth and each instruction's block
    number, and the drops-in computation. */
module Blocks {
  import opened Rtl
  import opened Insns

  /** The code prev_code holds when instruction k is examined: that of the
      last instruction before k that is not a NOTE, JUMP_INSN when there is
      none. With `retvalAsInsn` a CALL_INSN carrying REG_RETVAL reads as an
      INSN, as in the counting scan. */
  function PrevCode(insns: seq<Insn>, k: nat, retvalAsInsn: bool): (r: InsnCode)
    requires k <= |insns|
    ensures r != NoteInsn
  {
    if k == 0 then JumpInsn
    else if insns[k - 1].code == NoteInsn then PrevCode(insns, k - 1, retvalAsInsn)
    else if retvalAsInsn && insns[k - 1].code == CallInsn && HasRetval(insns[k - 1]) then PlainInsn
    else insns[k - 1].code
  }

  /** in_libcall_block before instruction k is examined: some earlier real
      instruction opened a libcall (REG_LIBCALL) that no later one before k
      closed (REG_RETVAL). */
  predicate LibcallBefore(insns: seq<Insn>, k: nat)
    requires k <= |insns|
  {
    k > 0 && (StartsLibcall(insns[k - 1]) || LibcallBefore(insns, k - 1)) && !EndsLibcall(insns[k - 1])
  }

  /** in_libcall_block while instruction k's block test runs. */
  predicate InLibcall(insns: seq<Insn>, k: nat)
    requires k < |insns|
  {
    StartsLibcall(insns[k]) || LibcallBefore(insns, k)
  }

  /** The number of NOTE_INSN_EH_REGION_BEG notes before k minus the number
      of NOTE_INSN_EH_REGION_END notes before k. */
  function EhDepth(insns: seq<Insn>, k: nat): int
    requires k <= |insns|
  {
    if k == 0 then 0
    else
      var x := insns[k - 1];
      EhDepth(insns, k - 1)
      + (if x.code == NoteInsn && x.note.NoteEhRegionBeg? then 1 else 0)
      - (if x.code == NoteInsn && x.note.NoteEhRegionEnd? then 1 else 0)
  }

  /** No region end note closes a region that was never opened. The tagging
      scan follows the list of open regions through such a note and would
      dereference an empty list otherwise. */
  predicate EhBalanced(insns: seq<Insn>)
  {
    forall k | 0 <= k <= |insns| :: EhDepth(insns, k) >= 0
  }

  /** The block-start rule: a CODE_LABEL, or a real instruction after a
      JUMP_INSN, after a BARRIER, or after a CALL_INSN outside a libcall
      while nonlocal labels exist or an exception region is open. */
  predicate StartsBlock(insns: seq<Insn>, k: nat, nonlocal: bool, retvalAsInsn: bool)
    requires k < |insns|
  {
    var c := insns[k].code;
    var p := PrevCode(insns, k, retvalAsInsn);
    c == LabelInsn ||
    (IsReal(c) &&
     (p == JumpInsn || p == BarrierInsn ||
      (p == CallInsn && (nonlocal || EhDepth(insns, k) != 0) && !InLibcall(insns, k))))
  }

  /** The positions below m at which a block starts, in chain order. */
  function Starts(insns: seq<Insn>, m: nat, nonlocal: bool, retvalAsInsn: bool): (r: seq<nat>)
    requires m <= |insns|
    ensures |r| <= m
    ensures forall j | 0 <= j < |r| :: r[j] < m
  {
    if m == 0 then []
    else if StartsBlock(insns, m - 1, nonlocal, retvalAsInsn) then Starts(insns, m - 1, nonlocal, retvalAsInsn) + [m - 1]
    else Starts(insns, m - 1, nonlocal, retvalAsInsn)
  }

  /** Every listed start is a block start. */
  lemma {:induction false} StartsSound(insns: seq<Insn>, m: nat, nonlocal: bool, retvalAsInsn: bool, j: nat)
    requires m <= |insns| && j < |Starts(insns, m, nonlocal, retvalAsInsn)|
    ensures StartsBlock(insns, Starts(insns, m, nonlocal, retvalAsInsn)[j], nonlocal, retvalAsInsn)
  {
    var r0 := Starts(insns, m - 1, nonlocal, retvalAsInsn);
    if j < |r0| {
      StartsSound(insns, m - 1, nonlocal, retvalAsInsn, j);
    }
  }

  /** The starts are listed in increasing chain order. */
  lemma {:induction false} StartsIncreasing(insns: seq<Insn>, m: nat, nonlocal: bool, retvalAsInsn: bool, j: nat, j': nat)
    requires m <= |insns| && j < j' < |Starts(insns, m, nonlocal, retvalAsInsn)|
    ensures Starts(insns, m, nonlocal, retvalAsInsn)[j] < Starts(insns, m, nonlocal, retvalAsInsn)[j']
  {
    var r0 := Starts(insns, m - 1, nonlocal, retvalAsInsn);
    if j' < |r0| {
      StartsIncreasing(insns, m - 1, nonlocal, retvalAsInsn, j, j');
    }
  }

  /** Every position at which a block starts is listed among the starts. */
  lemma {:induction false} StartsComplete(insns: seq<Insn>, m: nat, nonlocal: bool, retvalAsInsn: bool, k: nat)
    requires k < m <= |insns|
    ensures StartsBlock(insns, k, nonlocal, retvalAsInsn) <==> k in Starts(insns, m, nonlocal, retvalAsInsn)
  {
    if k < m - 1 {
      StartsComplete(insns, m - 1, nonlocal, retvalAsInsn, k);
    }
  }

  /** The starts below m are a prefix of the starts below any later m'. */
  lemma {:induction false} StartsPrefix(insns: seq<Insn>, m: nat, m': nat, nonlocal: bool, retvalAsInsn: bool)
    requires m <= m' <= |insns|
    ensures Starts(insns, m, nonlocal, retvalAsInsn) <= Starts(insns, m', nonlocal, retvalAsInsn)
    decreases m' - m
  {
    if m < m' {
      StartsPrefix(insns, m, m' - 1, nonlocal, retvalAsInsn);
    }
  }

  /** A CODE_LABEL heads a block of its own: its block number is that of a
      block of the whole chain, and that block starts at it. */
  lemma LabelHeadsBlock(insns: seq<Insn>, nonlocal: bool, retvalAsInsn: bool, k: nat)
    requires k < |insns| && insns[k].code == LabelInsn
    ensures var heads := Starts(insns, |insns|, nonlocal, retvalAsInsn);
      0 <= BlockNum(insns, k, nonlocal, retvalAsInsn) < |heads| && heads[BlockNum(insns, k, nonlocal, retvalAsInsn)] == k
  {
    StartsPrefix(insns, k + 1, |insns|, nonlocal, retvalAsInsn);
    assert Starts(insns, k + 1, nonlocal, retvalAsInsn) == Starts(insns, k, nonlocal, retvalAsInsn) + [k];
  }

  /** BLOCK_NUM of instruction k: the number of block starts up to and
      including k, less one. */
  function BlockNum(insns: seq<Insn>, k: nat, nonlocal: bool, retvalAsInsn: bool): int
    requires k < |insns|
  {
    |Starts(insns, k + 1, nonlocal, retvalAsInsn)| - 1
  }

  /** The 1 + loop depth bookkeeping: one plus the LOOP_BEG notes before k
      minus the LOOP_END notes before k. */
  function LoopDepth(insns: seq<Insn>, k: nat): int
    requires k <= |insns|
  {
    if k == 0 then 1
    else
      var x := insns[k - 1];
      LoopDepth(insns, k - 1)
      + (if x.code == NoteInsn && x.note == NoteLoopBeg then 1 else 0)
      - (if x.code == NoteInsn && x.note == NoteLoopEnd then 1 else 0)
  }

  /** The end of the block headed at h when the next block starts at m (or
      the chain ends there): its last real instruction, or h itself. */
  function EndFrom(insns: seq<Insn>, h: nat, m: nat): (r: nat)
    ensures r == h || h < r < m
  {
    if m <= h + 1 || m > |insns| then h
    else if IsReal(insns[m - 1].code) then m - 1
    else EndFrom(insns, h, m - 1)
  }

  /** The end of a block is its head or a real instruction, and no real
      instruction follows it within the block. */
  lemma {:induction false} EndFromIsLastReal(insns: seq<Insn>, h: nat, m: nat)
    requires h < m <= |insns|
    ensures var r := EndFrom(insns, h, m);
      (r == h || IsReal(insns[r].code)) && forall j | r < j < m :: !IsReal(insns[j].code)
  {
    if m != h + 1 && !IsReal(insns[m - 1].code) {
      EndFromIsLastReal(insns, h, m - 1);
    }
  }

  /** The open exception regions before k, innermost first (the eh_note list). */
  function EhStack(insns: seq<Insn>, k: nat): (r: seq<nat>)
    requires k <= |insns|
    requires EhBalanced(insns)
    ensures |r| == EhDepth(insns, k)
  {
    if k == 0 then []
    else
      var s := EhStack(insns, k - 1);
      var x := insns[k - 1];
      assert EhDepth(insns, k) >= 0;
      if x.code == NoteInsn && x.note.NoteEhRegionBeg? then [x.note.region] + s
      else if x.code == NoteInsn && x.note.NoteEhRegionEnd? then s[1..]
      else s
  }

  /** active_eh_region of instruction k: the innermost open region, for a
      CALL_INSN outside a libcall (every non-NOTE when exceptions are
      asynchronous); 0 otherwise. */
  function ActiveEh(insns: seq<Insn>, k: nat, async: bool): nat
    requires k < |insns|
    requires EhBalanced(insns)
  {
    var s := EhStack(insns, k);
    var x := insns[k];
    if x.code != NoteInsn && s != [] && (async || (x.code == CallInsn && !InLibcall(insns, k))) then s[0] else 0
  }

  /** nested_eh_region after the first m instructions: each region opened
      maps to the region that was innermost when it opened (0 for none). */
  function NestedEh(insns: seq<Insn>, m: nat): (r: map<nat, nat>)
    requires m <= |insns|
    requires EhBalanced(insns)
  {
    if m == 0 then map[]
    else
      var x := insns[m - 1];
      var s := EhStack(insns, m - 1);
      if x.code == NoteInsn && x.note.NoteEhRegionBeg? then
        NestedEh(insns, m - 1)[x.note.region := if s == [] then 0 else s[0]]
      else NestedEh(insns, m - 1)
  }

  function Reverse<T>(s: seq<T>): (r: seq<T>)
    ensures |r| == |s|
    ensures forall j | 0 <= j < |s| :: r[j] == s[|s| - 1 - j]
  {
    if s == [] then [] else Reverse(s[1..]) + [s[0]]
  }

  /** label_value_list after the first m instructions: every REG_LABEL note of
      a real instruction, the last one seen first. */
  function LabelValues(insns: seq<Insn>, m: nat): seq<nat>
    requires m <= |insns|
  {
    if m == 0 then []
    else if IsReal(insns[m - 1].code) then Reverse(LabelNotes(insns[m - 1].regNotes)) + LabelValues(insns, m - 1)
    else LabelValues(insns, m - 1)
  }

  /** The tables find_basic_blocks_1 builds in its first scan. */
  datatype Partition = Partition(
    /** basic_block_head, basic_block_end: chain positions */
    heads: seq<nat>,
    ends: seq<nat>,
    /** basic_block_loop_depth */
    depth: seq<int>,
    /** BLOCK_NUM of each instruction, by chain position (-1 before block 0) */
    blockOf: seq<int>,
    /** blocks their CODE_LABEL keeps alive: LABEL_PRESERVE_P */
    preserved: set<nat>,
    /** label_value_list */
    labelValues: seq<nat>,
    /** active_eh_region, by chain position */
    activeEh: seq<nat>,
    /** nested_eh_region */
    nestedEh: map<nat, nat>
  )

  /** The block tables after the first m instructions are scanned: the heads
      are the block starts, each end is its block's last real instruction,
      each depth the loop depth there, each instruction's block number is the
      number of starts up to it less one, and the preserved blocks are those
      headed by a CODE_LABEL with LABEL_PRESERVE_P. */
  ghost predicate TaggedBlocks(insns: seq<Insn>, m: nat, nonlocal: bool, retvalAsInsn: bool,
                               heads: seq<nat>, ends: seq<nat>, depth: seq<int>,
                               blockOf: seq<int>, preserved: set<nat>)
    requires m <= |insns|
  {
    heads == Starts(insns, m, nonlocal, retvalAsInsn) &&
    EndsOk(insns, m, heads, ends) &&
    DepthOk(insns, m, ends, depth) &&
    BlockOfOk(insns, m, nonlocal, retvalAsInsn, blockOf) &&
    PreservedOk(insns, heads, preserved)
  }

  ghost predicate EndsOk(insns: seq<Insn>, m: nat, heads: seq<nat>, ends: seq<nat>)
    requires m <= |insns|
  {
    |ends| == |heads| &&
    (forall b | 0 <= b < |heads| - 1 :: ends[b] == EndFrom(insns, heads[b], heads[b + 1])) &&
    (|heads| > 0 ==> ends[|heads| - 1] == EndFrom(insns, heads[|heads| - 1], m))
  }

  ghost predicate DepthOk(insns: seq<Insn>, m: nat, ends: seq<nat>, depth: seq<int>)
    requires m <= |insns|
  {
    |depth| == |ends| &&
    forall b | 0 <= b < |ends| :: ends[b] < m && depth[b] == LoopDepth(insns, ends[b])
  }

  ghost predicate BlockOfOk(insns: seq<Insn>, m: nat, nonlocal: bool, retvalAsInsn: bool, blockOf: seq<int>)
    requires m <= |insns|
  {
    |blockOf| == m &&
    forall k | 0 <= k < m :: blockOf[k] == BlockNum(insns, k, nonlocal, retvalAsInsn)
  }

  ghost predicate PreservedOk(insns: seq<Insn>, heads: seq<nat>, preserved: set<nat>)
  {
    forall b :: b in preserved <==>
      0 <= b < |heads| && heads[b] < |insns| && insns[heads[b]].code == LabelInsn && insns[heads[b]].preserve
  }

  /** The exception tables after the first m instructions are scanned. */
  ghost predicate TaggedEh(insns: seq<Insn>, m: nat, async: bool, activeEh: seq<nat>, nestedEh: map<nat, nat>)
    requires m <= |insns|
    requires EhBalanced(insns)
  {
    |activeEh| == m &&
    (forall k | 0 <= k < m :: activeEh[k] == ActiveEh(insns, k, async)) &&
    nestedEh == NestedEh(insns, m)
  }

  /** All tables after the first m instructions are scanned. */
  ghost predicate Tagged(insns: seq<Insn>, m: nat, nonlocal: bool, async: bool, retvalAsInsn: bool, p: Partition)
    requires m <= |insns|
    requires EhBalanced(insns)
  {
    TaggedBlocks(insns, m, nonlocal, retvalAsInsn, p.heads, p.ends, p.depth, p.blockOf, p.preserved) &&
    p.labelValues == LabelValues(insns, m) &&
    TaggedEh(insns, m, async, p.activeEh, p.nestedEh)
  }

  /** The counting scan of find_basic_blocks: the number of blocks under the
      block-start rule in which a CALL_INSN with REG_RETVAL counts as an
      INSN, and the largest INSN_UID of the chain. */
  method CountBlocks(insns: seq<Insn>, nonlocal: bool) returns (n: nat, maxUid: nat)
    ensures n == |Starts(insns, |insns|, nonlocal, true)|
    ensures forall k | 0 <= k < |insns| :: insns[k].uid <= maxUid
    ensures maxUid == 0 || exists k | 0 <= k < |insns| :: insns[k].uid == maxUid
  {
    var prev := JumpInsn;
    var inLib := false;
    var eh := 0;
    n := 0;
    maxUid := 0;
    var i := 0;
    while i < |insns|
      invariant 0 <= i <= |insns|
      invariant prev == PrevCode(insns, i, true)
      invariant inLib == LibcallBefore(insns, i)
      invariant eh == EhDepth(insns, i)
      invariant n == |Starts(insns, i, nonlocal, true)|
      invariant forall k | 0 <= k < i :: insns[k].uid <= maxUid
      invariant maxUid == 0 || exists k | 0 <= k < i :: insns[k].uid == maxUid
    {
      var x := insns[i];
      if StartsLibcall(x) {
        inLib := true;
      }
      var code := x.code;
      if x.uid > maxUid {
        maxUid := x.uid;
      }
      if code == LabelInsn
         || (IsReal(code)
             && (prev == JumpInsn
                 || (prev == CallInsn && (nonlocal || eh != 0) && !inLib)
                 || prev == BarrierInsn))
      {
        n := n + 1;
      }
      if code == CallInsn && HasRetval(x) {
        code := PlainInsn;
      }
      if code != NoteInsn {
        prev := code;
      } else if x.note.NoteEhRegionBeg? {
        eh := eh + 1;
      } else if x.note.NoteEhRegionEnd? {
        eh := eh - 1;
      }
      if EndsLibcall(x) {
        inLib := false;
      }
      i := i + 1;
    }
  }

  /** The tagging scan of find_basic_blocks_1; `retvalAsInsn` selects the
      block-start rule (the source's scan uses false). */
  method TagBlocks(insns: seq<Insn>, nonlocal: bool, async: bool, retvalAsInsn: bool) returns (p: Partition)
    requires EhBalanced(insns)
    ensures Tagged(insns, |insns|, nonlocal, async, retvalAsInsn, p)
  {
    var prev := JumpInsn;
    var inLib := false;
    var depth := 1;
    var eh: seq<nat> := [];
    p := Partition([], [], [], [], {}, [], [], map[]);
    TaggedNone(insns, nonlocal, async, retvalAsInsn);
    var i := 0;
    while i < |insns|
      invariant 0 <= i <= |insns|
      invariant ScanAt(insns, i, retvalAsInsn, prev, inLib, depth, eh)
      invariant p.heads == [] ==> prev == JumpInsn || prev == BarrierInsn
      invariant Tagged(insns, i, nonlocal, async, retvalAsInsn, p)
    {
      prev, inLib, depth, eh, p := TagStep(insns, i, nonlocal, async, retvalAsInsn, prev, inLib, depth, eh, p);
      i := i + 1;
    }
  }

  /** Before the scan, the tables are empty. */
  lemma TaggedNone(insns: seq<Insn>, nonlocal: bool, async: bool, retvalAsInsn: bool)
    requires EhBalanced(insns)
    ensures ScanAt(insns, 0, retvalAsInsn, JumpInsn, false, 1, [])
    ensures Tagged(insns, 0, nonlocal, async, retvalAsInsn, Partition([], [], [], [], {}, [], [], map[]))
  {
  }

  /** The scan variables before instruction i: prev_code, in_libcall_block,
      the loop depth and the eh_note list. */
  ghost predicate ScanAt(insns: seq<Insn>, i: nat, retvalAsInsn: bool,
                         prev: InsnCode, inLib: bool, depth: int, eh: seq<nat>)
    requires i <= |insns| && EhBalanced(insns)
  {
    prev == PrevCode(insns, i, retvalAsInsn) &&
    inLib == LibcallBefore(insns, i) &&
    depth == LoopDepth(insns, i) &&
    eh == EhStack(insns, i)
  }

  /** One iteration of the tagging scan: the block, exception and label
      tables and the scan variables move from instruction i to i + 1. */
  method TagStep(insns: seq<Insn>, i: nat, nonlocal: bool, async: bool, retvalAsInsn: bool,
                 prev0: InsnCode, inLib0: bool, depth0: int, eh0: seq<nat>, p0: Partition)
    returns (prev: InsnCode, inLib: bool, depth: int, eh: seq<nat>, p: Partition)
    requires i < |insns| && EhBalanced(insns)
    requires ScanAt(insns, i, retvalAsInsn, prev0, inLib0, depth0, eh0)
    requires p0.heads == [] ==> prev0 == JumpInsn || prev0 == BarrierInsn
    requires Tagged(insns, i, nonlocal, async, retvalAsInsn, p0)
    ensures ScanAt(insns, i + 1, retvalAsInsn, prev, inLib, depth, eh)
    ensures p.heads == [] ==> prev == JumpInsn || prev == BarrierInsn
    ensures Tagged(insns, i + 1, nonlocal, async, retvalAsInsn, p)
  {
    var x := insns[i];
    var inLibHere := StartsLibcall(x) || inLib0;
    var heads, ends, depths, blockOf, preserved :=
      TagBlockStep(insns, i, nonlocal, retvalAsInsn, prev0, inLibHere, depth0, |eh0| != 0,
                   p0.heads, p0.ends, p0.depth, p0.blockOf, p0.preserved);
    var activeEh, nestedEh := TagEhStep(insns, i, async, inLibHere, eh0, p0.activeEh, p0.nestedEh);
    var labelValues := TagLabelStep(insns, i, p0.labelValues);
    p := Partition(heads, ends, depths, blockOf, preserved, labelValues, activeEh, nestedEh);
    prev, inLib, depth, eh := Advance(insns, i, retvalAsInsn, prev0, inLib0, depth0, eh0);
  }

  /** label_value_list after instruction i: its REG_LABEL notes are pushed
      in note order. */
  method TagLabelStep(insns: seq<Insn>, i: nat, labelValues0: seq<nat>) returns (labelValues: seq<nat>)
    requires i < |insns|
    requires labelValues0 == LabelValues(insns, i)
    ensures labelValues == LabelValues(insns, i + 1)
  {
    labelValues := labelValues0;
    var x := insns[i];
    if IsReal(x.code) {
      var notes := x.regNotes;
      var k := 0;
      while k < |notes|
        invariant 0 <= k <= |notes|
        invariant labelValues == Reverse(LabelNotes(notes[..k])) + labelValues0
      {
        ReversedNotesStep(notes, k);
        if notes[k].RegLabel? {
          labelValues := [notes[k].labelUid] + labelValues;
        }
        k := k + 1;
      }
      assert notes[..k] == notes;
    }
  }

  lemma ReversedNotesStep(notes: seq<RegNote>, k: nat)
    requires k < |notes|
    ensures Reverse(LabelNotes(notes[..k + 1]))
            == (if notes[k].RegLabel? then [notes[k].labelUid] else []) + Reverse(LabelNotes(notes[..k]))
  {
    assert notes[..k + 1] == notes[..k] + [notes[k]];
    LabelNotesSnoc(notes[..k], notes[k]);
    if notes[k].RegLabel? {
      ReverseConsSnoc(LabelNotes(notes[..k]), notes[k].labelUid);
    } else {
      assert LabelNotes(notes[..k + 1]) == LabelNotes(notes[..k]) + [];
    }
  }

  lemma {:induction false} LabelNotesSnoc(notes: seq<RegNote>, n: RegNote)
    ensures LabelNotes(notes + [n]) == LabelNotes(notes) + (if n.RegLabel? then [n.labelUid] else [])
  {
    if notes == [] {
      assert [n][1..] == [];
    } else {
      assert (notes + [n])[1..] == notes[1..] + [n];
      LabelNotesSnoc(notes[1..], n);
    }
  }

  lemma ReverseConsSnoc<T>(s: seq<T>, x: T)
    ensures Reverse(s + [x]) == [x] + Reverse(s)
  {
  }

  /** The scan state after instruction i: loop depth and open regions follow
      the notes, prev_code the last non-note, and the libcall flag is lowered
      after the instruction that closes a libcall. */
  method Advance(insns: seq<Insn>, i: nat, retvalAsInsn: bool,
                 prev0: InsnCode, inLib0: bool, depth0: int, eh0: seq<nat>)
    returns (prev: InsnCode, inLib: bool, depth: int, eh: seq<nat>)
    requires i < |insns| && EhBalanced(insns)
    requires prev0 == PrevCode(insns, i, retvalAsInsn)
    requires inLib0 == LibcallBefore(insns, i)
    requires depth0 == LoopDepth(insns, i)
    requires eh0 == EhStack(insns, i)
    ensures prev == PrevCode(insns, i + 1, retvalAsInsn)
    ensures inLib == LibcallBefore(insns, i + 1)
    ensures depth == LoopDepth(insns, i + 1)
    ensures eh == EhStack(insns, i + 1)
  {
    var x := insns[i];
    prev, depth, eh := prev0, depth0, eh0;
    if x.code == NoteInsn {
      if x.note == NoteLoopBeg {
        depth := depth + 1;
      } else if x.note == NoteLoopEnd {
        depth := depth - 1;
      } else if x.note.NoteEhRegionBeg? {
        eh := [x.note.region] + eh;
      } else if x.note.NoteEhRegionEnd? {
        assert EhDepth(insns, i + 1) >= 0;
        eh := eh[1..];
      }
    } else if retvalAsInsn && x.code == CallInsn && HasRetval(x) {
      prev := PlainInsn;
    } else {
      prev := x.code;
    }
    inLib := (StartsLibcall(x) || inLib0) && !EndsLibcall(x);
  }

  /** The block tables after instruction i, given the scan state before it:
      a start opens a new block, any other real instruction extends the
      current one, and the instruction is numbered with the current block. */
  method TagBlockStep(insns: seq<Insn>, i: nat, nonlocal: bool, retvalAsInsn: bool,
                      prev: InsnCode, inLib: bool, depth: int, inRegion: bool,
                      heads0: seq<nat>, ends0: seq<nat>, depth0: seq<int>, blockOf0: seq<int>, preserved0: set<nat>)
    returns (heads: seq<nat>, ends: seq<nat>, depths: seq<int>, blockOf: seq<int>, preserved: set<nat>)
    requires i < |insns|
    requires prev == PrevCode(insns, i, retvalAsInsn)
    requires inLib == InLibcall(insns, i)
    requires depth == LoopDepth(insns, i)
    requires inRegion == (EhDepth(insns, i) != 0)
    requires heads0 == [] ==> prev == JumpInsn || prev == BarrierInsn
    requires TaggedBlocks(insns, i, nonlocal, retvalAsInsn, heads0, ends0, depth0, blockOf0, preserved0)
    ensures TaggedBlocks(insns, i + 1, nonlocal, retvalAsInsn, heads, ends, depths, blockOf, preserved)
    ensures heads == [] ==> PrevCode(insns, i + 1, retvalAsInsn) == JumpInsn || PrevCode(insns, i + 1, retvalAsInsn) == BarrierInsn
  {
    var x := insns[i];
    heads, ends, depths, preserved := heads0, ends0, depth0, preserved0;
    var starts := x.code == LabelInsn
                  || (IsReal(x.code)
                      && (prev == JumpInsn
                          || (prev == CallInsn && (nonlocal || inRegion) && !inLib)
                          || prev == BarrierInsn));
    assert starts == StartsBlock(insns, i, nonlocal, retvalAsInsn);
    if x.code == NoteInsn {
    } else if starts {
      heads, ends, depths := heads + [i], ends + [i], depths + [depth];
      if x.code == LabelInsn && x.preserve {
        preserved := preserved + {|heads0|};
      }
    } else if IsReal(x.code) {
      ends, depths := ends[|ends| - 1 := i], depths[|depths| - 1 := depth];
    }
    blockOf := blockOf0 + [|heads| - 1];
    StartsNow(insns, i, nonlocal, retvalAsInsn, prev, inLib, inRegion, starts);
    BlockStepOk(insns, i, nonlocal, retvalAsInsn, depth, starts, heads0, ends0, depth0, blockOf0, preserved0,
                heads, ends, depths, blockOf, preserved);
  }

  /** The scan's test at instruction i is the block-start rule. */
  lemma StartsNow(insns: seq<Insn>, i: nat, nonlocal: bool, retvalAsInsn: bool,
                  prev: InsnCode, inLib: bool, inRegion: bool, starts: bool)
    requires i < |insns|
    requires prev == PrevCode(insns, i, retvalAsInsn)
    requires inLib == InLibcall(insns, i)
    requires inRegion == (EhDepth(insns, i) != 0)
    requires starts == (insns[i].code == LabelInsn
                        || (IsReal(insns[i].code)
                            && (prev == JumpInsn
                                || (prev == CallInsn && (nonlocal || inRegion) && !inLib)
                                || prev == BarrierInsn)))
    ensures starts == StartsBlock(insns, i, nonlocal, retvalAsInsn)
    ensures starts ==> insns[i].code != NoteInsn
  {
  }

  /** The block tables grow as the scan's three cases say. */
  lemma BlockStepOk(insns: seq<Insn>, i: nat, nonlocal: bool, retvalAsInsn: bool, depth: int, starts: bool,
                    heads0: seq<nat>, ends0: seq<nat>, depth0: seq<int>, blockOf0: seq<int>, preserved0: set<nat>,
                    heads: seq<nat>, ends: seq<nat>, depths: seq<int>, blockOf: seq<int>, preserved: set<nat>)
    requires i < |insns| && depth == LoopDepth(insns, i)
    requires starts == StartsBlock(insns, i, nonlocal, retvalAsInsn)
    requires TaggedBlocks(insns, i, nonlocal, retvalAsInsn, heads0, ends0, depth0, blockOf0, preserved0)
    requires starts ==> heads == heads0 + [i] && ends == ends0 + [i] && depths == depth0 + [depth]
                        && preserved == if insns[i].code == LabelInsn && insns[i].preserve then preserved0 + {|heads0|} else preserved0
    requires !starts && IsReal(insns[i].code) ==>
               heads0 != [] && heads == heads0 && ends == ends0[|ends0| - 1 := i] && depths == depth0[|depth0| - 1 := depth]
               && preserved == preserved0
    requires !starts && !IsReal(insns[i].code) ==>
               heads == heads0 && ends == ends0 && depths == depth0 && preserved == preserved0
    requires blockOf == blockOf0 + [|heads| - 1]
    ensures TaggedBlocks(insns, i + 1, nonlocal, retvalAsInsn, heads, ends, depths, blockOf, preserved)
  {
    assert heads == Starts(insns, i + 1, nonlocal, retvalAsInsn);
    EndsStep(insns, i, heads0, ends0, heads, ends);
    DepthStep(insns, i, depth, ends0, depth0, ends, depths);
    BlockOfStep(insns, i, nonlocal, retvalAsInsn, blockOf0, heads, blockOf);
    PreservedStep(insns, heads0, heads, preserved0, preserved, i);
  }

  /** The ends follow the heads: a new head ends its own block for now, a
      real instruction ends the current block, anything else leaves the
      ends alone. */
  lemma EndsStep(insns: seq<Insn>, i: nat, heads0: seq<nat>, ends0: seq<nat>, heads: seq<nat>, ends: seq<nat>)
    requires i < |insns|
    requires forall j | 0 <= j < |heads0| :: heads0[j] < i
    requires EndsOk(insns, i, heads0, ends0)
    requires (heads == heads0 + [i] && ends == ends0 + [i])
          || (heads == heads0 && heads0 != [] && IsReal(insns[i].code) && ends == ends0[|ends0| - 1 := i])
          || (heads == heads0 && !IsReal(insns[i].code) && ends == ends0)
    ensures EndsOk(insns, i + 1, heads, ends)
  {
    if heads == heads0 + [i] {
      assert EndFrom(insns, i, i + 1) == i;
    } else if heads0 != [] {
      var h := heads0[|heads0| - 1];
      assert h < i;
    }
  }

  lemma DepthStep(insns: seq<Insn>, i: nat, depth: int, ends0: seq<nat>, depth0: seq<int>, ends: seq<nat>, depths: seq<int>)
    requires i < |insns| && depth == LoopDepth(insns, i)
    requires DepthOk(insns, i, ends0, depth0)
    requires (ends == ends0 + [i] && depths == depth0 + [depth])
          || (ends0 != [] && ends == ends0[|ends0| - 1 := i] && depths == depth0[|depth0| - 1 := depth])
          || (ends == ends0 && depths == depth0)
    ensures DepthOk(insns, i + 1, ends, depths)
  {
  }

  lemma BlockOfStep(insns: seq<Insn>, i: nat, nonlocal: bool, retvalAsInsn: bool,
                    blockOf0: seq<int>, heads: seq<nat>, blockOf: seq<int>)
    requires i < |insns|
    requires BlockOfOk(insns, i, nonlocal, retvalAsInsn, blockOf0)
    requires heads == Starts(insns, i + 1, nonlocal, retvalAsInsn)
    requires blockOf == blockOf0 + [|heads| - 1]
    ensures BlockOfOk(insns, i + 1, nonlocal, retvalAsInsn, blockOf)
  {
  }

  /** The exception tables after instruction i: a region begin note records
      its enclosing region, and a real instruction that can throw records
      the innermost open region. */
  method TagEhStep(insns: seq<Insn>, i: nat, async: bool, inLib: bool, eh: seq<nat>,
                   activeEh0: seq<nat>, nestedEh0: map<nat, nat>)
    returns (activeEh: seq<nat>, nestedEh: map<nat, nat>)
    requires i < |insns| && EhBalanced(insns)
    requires inLib == InLibcall(insns, i)
    requires eh == EhStack(insns, i)
    requires TaggedEh(insns, i, async, activeEh0, nestedEh0)
    ensures TaggedEh(insns, i + 1, async, activeEh, nestedEh)
  {
    var x := insns[i];
    nestedEh := nestedEh0;
    if x.code == NoteInsn {
      if x.note.NoteEhRegionBeg? {
        nestedEh := nestedEh[x.note.region := if eh == [] then 0 else eh[0]];
      }
      activeEh := activeEh0 + [0];
    } else if eh != [] && (async || (x.code == CallInsn && !inLib)) {
      activeEh := activeEh0 + [eh[0]];
    } else {
      activeEh := activeEh0 + [0];
    }
  }

  /** The preserved-label set follows the heads list as it grows. */
  lemma PreservedStep(insns: seq<Insn>, h0: seq<nat>, h: seq<nat>, s0: set<nat>, s: set<nat>, i: nat)
    requires i < |insns|
    requires h == h0 || h == h0 + [i]
    requires PreservedOk(insns, h0, s0)
    requires h == h0 ==> s == s0
    requires h != h0 ==> s == if insns[i].code == LabelInsn && insns[i].preserve then s0 + {|h0|} else s0
    ensures PreservedOk(insns, h, s)
  {
  }

  /** The last instruction before position k that is not a NOTE. */
  function PrevNonNote(insns: seq<Insn>, k: nat): (r: Option<nat>)
    requires k <= |insns|
    ensures r.Some? ==> r.value < k && insns[r.value].code != NoteInsn
                        && forall j | r.value < j < k :: insns[j].code == NoteInsn
    ensures r.None? ==> forall j | 0 <= j < k :: insns[j].code == NoteInsn
  {
    if k == 0 then None
    else if insns[k - 1].code != NoteInsn then Some(k - 1)
    else PrevNonNote(insns, k - 1)
  }

  /** basic_block_drops_in for a block headed at h: skipping back over
      NOTEs from the head reaches an instruction that is not a BARRIER. */
  predicate DropsIn(insns: seq<Insn>, h: nat)
    requires h <= |insns|
  {
    var q := PrevNonNote(insns, h);
    q.Some? && insns[q.value].code != BarrierInsn
  }

  /** The drops-in scan of find_basic_blocks_1. */
  method ComputeDropsIn(insns: seq<Insn>, heads: seq<nat>) returns (drops: array<bool>)
    requires forall b | 0 <= b < |heads| :: heads[b] < |insns|
    ensures fresh(drops) && drops.Length == |heads|
    ensures forall b | 0 <= b < |heads| :: drops[b] == DropsIn(insns, heads[b])
  {
    drops := new bool[|heads|];
    var i := 0;
    while i < |heads|
      invariant 0 <= i <= |heads|
      invariant forall b | 0 <= b < i :: drops[b] == DropsIn(insns, heads[b])
    {
      var j := heads[i];
      while j > 0 && insns[j - 1].code == NoteInsn
        invariant 0 <= j <= heads[i]
        invariant PrevNonNote(insns, j) == PrevNonNote(insns, heads[i])
      {
        j := j - 1;
      }
      drops[i] := j > 0 && insns[j - 1].code != BarrierInsn;
      i := i + 1;
    }
  }

  /** The counting scan, the tagging scan and the pass-1 consistency check
      of find_basic_blocks: the pass aborts when the two scans disagree on
      the number of blocks. `retvalAsInsn` is the tagging rule. */
  method PartitionPass1(insns: seq<Insn>, nonlocal: bool, async: bool, retvalAsInsn: bool)
    returns (r: Result<Partition>)
    requires EhBalanced(insns)
    ensures r.Ok? <==> |Starts(insns, |insns|, nonlocal, true)| == |Starts(insns, |insns|, nonlocal, retvalAsInsn)|
    ensures r.Ok? ==> Tagged(insns, |insns|, nonlocal, async, retvalAsInsn, r.value)
  {
    var n, maxUid := CountBlocks(insns, nonlocal);
    var p := TagBlocks(insns, nonlocal, async, retvalAsInsn);
    if |p.heads| != n {
      r := Abort;
    } else {
      r := Ok(p);
    }
  }

  /** find_basic_blocks as written: the tagging scan lets a CALL_INSN that
      carries REG_RETVAL end a block, the counting scan does not. */
  method FindBasicBlocksAsWritten(insns: seq<Insn>, nonlocal: bool, async: bool) returns (r: Result<Partition>)
    requires EhBalanced(insns)
    ensures r.Ok? <==> |Starts(insns, |insns|, nonlocal, true)| == |Starts(insns, |insns|, nonlocal, false)|
    ensures r.Ok? ==> Tagged(insns, |insns|, nonlocal, async, false, r.value)
  {
    r := PartitionPass1(insns, nonlocal, async, false);
  }

  /** find_basic_blocks with the tagging scan using the counting scan's
      rule: the consistency check always passes. */
  method FindBasicBlocks(insns: seq<Insn>, nonlocal: bool, async: bool) returns (r: Result<Partition>)
    requires EhBalanced(insns)
    ensures r.Ok? && Tagged(insns, |insns|, nonlocal, async, true, r.value)
  {
    r := PartitionPass1(insns, nonlocal, async, true);
  }

  /** A libcall whose last instruction is a CALL_INSN, followed by an INSN,
      in a function with nonlocal labels. */
  const RetvalCallThenInsn: seq<Insn> := [
    Insn(1, CallInsn, Call(SymbolRef("f", false), ConstInt(0)), NoteOtherKind, [RegRetval(1)], false, []),
    Insn(2, PlainInsn, Use(ConstInt(0)), NoteOtherKind, [], false, [])
  ]

  /** On that chain the counting scan finds one block and the tagging scan
      two, so find_basic_blocks aborts. */
  lemma {:induction false} RetvalCallAborts()
    ensures EhBalanced(RetvalCallThenInsn)
    ensures |Starts(RetvalCallThenInsn, 2, true, true)| == 1
    ensures |Starts(RetvalCallThenInsn, 2, true, false)| == 2
  {
    var c := RetvalCallThenInsn;
    assert HasRetval(c[0]) by { assert c[0].regNotes[0].RegRetval?; }
    assert PrevCode(c, 1, true) == PlainInsn;
    assert PrevCode(c, 1, false) == CallInsn;
    assert Starts(c, 1, true, true) == [0];
    assert Starts(c, 1, true, false) == [0];
    assert forall k | 0 <= k <= 2 :: EhDepth(c, k) == 0;
  }
}
