/** compute_dominators (flow.c): the iterative dominator and post-dominator
    computation over sbitmap vectors, indexed by block number. */
module Dominators {
  import opened SBitmap

  /** The bitmaps of the vectors are pairwise distinct objects. */
  predicate Distinct(v: seq<array<Word>>)
  {
    forall i, j | 0 <= i < |v| && 0 <= j < |v| && i != j :: v[i] != v[j]
  }

  /** Every bitmap of the vector holds `size` words. */
  predicate Shaped(v: seq<array<Word>>, size: nat)
  {
    forall i | 0 <= i < |v| :: v[i].Length == size
  }

  /** Predecessor or successor lists of `n` blocks: each entry is a block
      number below `n`, ENTRY_BLOCK or EXIT_BLOCK. */
  predicate BlockLists(lists: seq<seq<int>>, n: nat)
  {
    |lists| == n &&
    forall b, j | 0 <= b < n && 0 <= j < |lists[b]| ::
      lists[b][j] == EntryBlock || lists[b][j] == ExitBlock || 0 <= lists[b][j] < n
  }

  /** Word-wise inclusion of bitmap values. */
  predicate SubsetWords(a: seq<Word>, b: seq<Word>)
  {
    |a| == |b| && forall i | 0 <= i < |a| :: a[i] <= b[i]
  }

  /** The number of one bits of a bitmap value and of a vector of them;
      every a_and_b that changes its destination lowers it. */
  function WordsWeight(s: seq<Word>): nat
  {
    if s == [] then 0 else |s[0]| + WordsWeight(s[1..])
  }

  function VecWeight(v: seq<seq<Word>>): nat
  {
    if v == [] then 0 else WordsWeight(v[0]) + VecWeight(v[1..])
  }

  /** The single-bit bitmap value {b} of `size` words. */
  function Singleton(size: nat, b: nat): (r: seq<Word>)
    requires b / EltBits < size
    ensures |r| == size
  {
    WithBit(ZeroWords(size), b)
  }

  /** Bit k of {b} is set exactly when k is b. */
  lemma SingletonBit(size: nat, b: nat, k: nat)
    requires b / EltBits < size && k / EltBits < size
    ensures TestBit(Singleton(size, b), k) <==> k == b
  {
    ZeroOnesBit(size, k);
  }

  /** The equation the iteration stops at, bit by bit: every block in
      bb's set other than bb itself is in the set of each real block of
      its list (each of which BlockLists keeps below the vector's length).
      A list naming only ENTRY_BLOCK or EXIT_BLOCK leaves the scratch
      bitmap as it was, so no equation is stated for it. */
  ghost predicate Stable(vec: seq<seq<Word>>, lists: seq<seq<int>>, size: nat, bb: nat)
    requires bb < |vec| && bb < |lists|
  {
    (lists[bb] == [] || HasReal(lists[bb])) ==>
      forall k: nat, j | TestBit(vec[bb], k) && k != bb && 0 <= j < |lists[bb]| &&
                         IsReal(lists[bb][j]) && 0 <= lists[bb][j] < |vec| ::
        TestBit(vec[lists[bb][j]], k)
  }

  /** Blocks 1 .. hi-1 are stable in both vectors. */
  ghost predicate StableBelow(dvals: seq<seq<Word>>, pvals: seq<seq<Word>>,
                        preds: seq<seq<int>>, succs: seq<seq<int>>, size: nat, hi: nat)
  {
    forall b | 1 <= b < hi && b < |dvals| && b < |pvals| && b < |preds| && b < |succs| && b / EltBits < size ::
      Stable(dvals, preds, size, b) && Stable(pvals, succs, size, b)
  }

  /** StableBelow block by block, the form the pass loop carries: adding
      block hi-1 to a stable prefix is one unfolding. */
  ghost predicate StablePrefix(dvals: seq<seq<Word>>, pvals: seq<seq<Word>>,
                               preds: seq<seq<int>>, succs: seq<seq<int>>, size: nat, hi: nat)
    decreases hi
  {
    hi <= 1 ||
    (StablePrefix(dvals, pvals, preds, succs, size, hi - 1) &&
     (hi - 1 < |dvals| && hi - 1 < |pvals| && hi - 1 < |preds| && hi - 1 < |succs| && (hi - 1) / EltBits < size ==>
        Stable(dvals, preds, size, hi - 1) && Stable(pvals, succs, size, hi - 1)))
  }

  lemma {:induction false} StablePrefixBelow(dvals: seq<seq<Word>>, pvals: seq<seq<Word>>,
                                             preds: seq<seq<int>>, succs: seq<seq<int>>, size: nat, hi: nat)
    requires StablePrefix(dvals, pvals, preds, succs, size, hi)
    ensures StableBelow(dvals, pvals, preds, succs, size, hi)
    decreases hi
  {
    if hi > 1 {
      StablePrefixBelow(dvals, pvals, preds, succs, size, hi - 1);
    }
  }

  lemma SubsetCard(a: set<nat>, b: set<nat>)
    requires a <= b
    ensures |a| <= |b|
    ensures a != b ==> |a| < |b|
  {
    assert b == a + (b - a);
    if a != b {
      var x :| x in b && x !in a;
      assert x in b - a;
    }
  }

  /** Shrinking a bitmap value word-wise lowers its weight, strictly when
      it changes. */
  lemma {:induction false} SubsetWeight(a: seq<Word>, b: seq<Word>)
    requires SubsetWords(a, b)
    ensures WordsWeight(a) <= WordsWeight(b)
    ensures a != b ==> WordsWeight(a) < WordsWeight(b)
    decreases |a|
  {
    if a != [] {
      SubsetCard(a[0], b[0]);
      SubsetWeight(a[1..], b[1..]);
      if a != b && a[0] == b[0] {
        assert a == [a[0]] + a[1..] && b == [b[0]] + b[1..];
      }
    }
  }

  /** Replacing one bitmap of a vector by a word-wise subset lowers the
      vector's weight, strictly when the bitmap changes. */
  lemma {:induction false} UpdateWeight(v: seq<seq<Word>>, i: nat, x: seq<Word>)
    requires i < |v| && SubsetWords(x, v[i])
    ensures VecWeight(v[i := x]) <= VecWeight(v)
    ensures x != v[i] ==> VecWeight(v[i := x]) < VecWeight(v)
    decreases |v|
  {
    if i == 0 {
      SubsetWeight(x, v[0]);
      assert v[i := x][1..] == v[1..];
    } else {
      UpdateWeight(v[1..], i - 1, x);
      assert v[i := x][1..] == v[1..][i - 1 := x];
    }
  }

  /** a_and_b never adds a bit, and changes nothing exactly when the
      destination already lies within the other operand. */
  lemma AndSubset(a: seq<Word>, b: seq<Word>)
    requires |a| <= |b|
    ensures SubsetWords(AndWords(a, b, |a|), a)
    ensures AndWords(a, b, |a|) == a <==> forall i | 0 <= i < |a| :: a[i] <= b[i]
  {
    if forall i | 0 <= i < |a| :: a[i] <= b[i] {
      var r := AndWords(a, b, |a|);
      assert forall i | 0 <= i < |a| :: r[i] == a[i];
    }
  }

  /** A block whose bitmap lies within the scratch bitmap the loop body
      forms for it (the intersection over its list, plus the block itself)
      is stable. */
  lemma StableOfFixed(vec: seq<seq<Word>>, lists: seq<seq<int>>, size: nat, bb: nat, t0: seq<Word>)
    requires bb < |vec| && bb < |lists| && bb / EltBits < size && |t0| == size
    requires ListOk(vec, lists[bb], size)
    requires SubsetWords(vec[bb], WithBit(IntersectOf(t0, vec, lists[bb]), bb))
    ensures Stable(vec, lists, size, bb)
  {
    var t := WithBit(IntersectOf(t0, vec, lists[bb]), bb);
    if lists[bb] != [] && HasReal(lists[bb]) {
      forall k: nat, j | TestBit(vec[bb], k) && k != bb && 0 <= j < |lists[bb]| &&
                         IsReal(lists[bb][j]) && 0 <= lists[bb][j] < |vec|
        ensures TestBit(vec[lists[bb][j]], k)
      {
        assert k / EltBits < size;
        assert TestBit(t, k);
        IntersectOfBit(t0, vec, lists[bb], k);
      }
    }
  }

  lemma UpdateSame<T>(s: seq<T>, i: nat)
    requires i < |s|
    ensures s[i := s[i]] == s
  {
  }

  lemma BitInRange(b: nat, n: nat)
    requires b < n
    ensures b / EltBits < SetSize(n)
  {
  }

  /** One step of the loop body for block bb of vector V: the scratch bitmap
      T becomes the intersection over LISTS[BB] plus bb, and V[BB] is
      and-ed with it. */
  method RefineBlock(v: seq<array<Word>>, t: array<Word>, bb: nat, lists: seq<seq<int>>, size: nat)
    returns (changed: bool)
    requires bb < |v| && bb < |lists| && bb / EltBits < size
    requires Shaped(v, size) && t.Length == size && Distinct(v)
    requires forall j | 0 <= j < |v| :: v[j] != t
    requires ListOk(Values(v), lists[bb], size)
    modifies v[bb], t
    ensures forall j | 0 <= j < |v| && j != bb :: v[j][..] == old(v[j][..])
    ensures t[..] == WithBit(IntersectOf(old(t[..]), old(Values(v)), lists[bb]), bb)
    ensures v[bb][..] == AndWords(old(v[bb][..]), t[..], size)
    ensures changed <==> v[bb][..] != old(v[bb][..])
  {
    IntersectOfPredSucc(t, v, bb, lists);
    SetBitIn(t, bb);
    changed := AAndB(v[bb], v[bb], t);
    assert changed <==> v[bb][..] != old(v[bb][..]) by {
      if changed {
        var k :| 0 <= k < size && v[bb][k] != old(v[bb][k]);
        assert v[bb][..][k] != old(v[bb][..])[k];
      }
    }
  }

  /** The state the dominator loop keeps for one vector: the seeded bitmap
      holds within its seed, the others keep their own bit. */
  ghost predicate Kept(vals: seq<seq<Word>>, n: nat, size: nat, seedBlock: nat, seedBit: nat)
    requires |vals| == n && seedBlock < n && seedBit < n && SetSize(n) == size
    requires forall i | 0 <= i < n :: |vals[i]| == size
  {
    BitInRange(seedBit, n);
    SubsetWords(vals[seedBlock], Singleton(size, seedBit)) &&
    (seedBit == seedBlock ==> TestBit(vals[seedBlock], seedBlock)) &&
    forall b | 1 <= b < n && b != seedBlock :: TestBit(vals[b], b)
  }

  /** The seeding establishes Kept. */
  lemma KeptInit(vals: seq<seq<Word>>, n: nat, size: nat, seedBlock: nat, seedBit: nat)
    requires |vals| == n && seedBlock < n && seedBit < n && SetSize(n) == size
    requires forall i | 0 <= i < n :: |vals[i]| == size
    requires vals[seedBlock] == (BitInRange(seedBit, n); Singleton(size, seedBit))
    requires forall i | 0 <= i < n && i != seedBlock :: vals[i] == OnesWords(size)
    ensures Kept(vals, n, size, seedBlock, seedBit)
  {
    forall b | 1 <= b < n && b != seedBlock
      ensures TestBit(vals[b], b)
    {
      BitInRange(b, n);
      ZeroOnesBit(size, b);
    }
  }

  /** And-ing block bb's bitmap with a scratch bitmap that holds bit bb
      keeps Kept. */
  lemma KeptStep(vals: seq<seq<Word>>, n: nat, size: nat, seedBlock: nat, seedBit: nat,
                 bb: nat, t: seq<Word>)
    requires |vals| == n && seedBlock < n && seedBit < n && SetSize(n) == size
    requires forall i | 0 <= i < n :: |vals[i]| == size
    requires 1 <= bb < n && |t| == size && TestBit(t, bb)
    requires Kept(vals, n, size, seedBlock, seedBit)
    ensures Kept(vals[bb := AndWords(vals[bb], t, size)], n, size, seedBlock, seedBit)
  {
    var vals' := vals[bb := AndWords(vals[bb], t, size)];
    BitInRange(seedBit, n);
    AndSubset(vals[bb], t);
    var sb := Singleton(size, seedBit);
    if bb == seedBlock {
      assert SubsetWords(vals'[seedBlock], sb) by {
        assert forall i | 0 <= i < size :: vals'[seedBlock][i] <= vals[seedBlock][i] <= sb[i];
      }
    }
    BitInRange(bb, n);
  }

  /** A bitmap within {b} that holds b is {b}. */
  lemma SingletonExact(a: seq<Word>, size: nat, b: nat)
    requires b / EltBits < size
    requires SubsetWords(a, Singleton(size, b)) && TestBit(a, b)
    ensures a == Singleton(size, b)
  {
    var one := Singleton(size, b);
    forall i | 0 <= i < size
      ensures a[i] == one[i]
    {
      if i == b / EltBits {
        assert b % EltBits in a[i];
      }
    }
  }

  /** No bitmap of one vector is a bitmap of the other. */
  predicate Apart(v: seq<array<Word>>, w: seq<array<Word>>)
  {
    forall i, j | 0 <= i < |v| && 0 <= j < |w| :: v[i] != w[j]
  }

  /** The dominator, post-dominator and scratch vectors of `n` blocks. */
  predicate Layout(dom: seq<array<Word>>, post: seq<array<Word>>, temp: seq<array<Word>>, n: nat, size: nat)
  {
    |dom| == n && |post| == n && |temp| == n &&
    Shaped(dom, size) && Shaped(post, size) && Shaped(temp, size) &&
    Distinct(dom) && Distinct(post) && Apart(dom, post) && Apart(temp, dom) && Apart(temp, post)
  }

  /** What holds between passes of the loop. */
  ghost predicate Invariant(dom: seq<array<Word>>, post: seq<array<Word>>, n: nat, size: nat, exitSeed: nat)
    requires n >= 1 && exitSeed < n && size == SetSize(n)
    requires |dom| == n && |post| == n && Shaped(dom, size) && Shaped(post, size)
    reads dom, post
  {
    Values(dom)[0] == Singleton(size, 0) &&
    Kept(Values(dom), n, size, 0, 0) &&
    Kept(Values(post), n, size, n - 1, exitSeed) &&
    (n >= 2 ==> Values(post)[0] == OnesWords(size))
  }

  /** The state of a pass before block bb: the invariant holds, the
      weight has not grown (and has dropped once something changed), and
      blocks 1 .. bb-1 are stable while nothing has changed. */
  ghost predicate PassAt(dom: seq<array<Word>>, post: seq<array<Word>>,
                         preds: seq<seq<int>>, succs: seq<seq<int>>, n: nat, size: nat, exitSeed: nat,
                         bb: nat, changed: bool, w0: int)
    requires n >= 1 && exitSeed < n && size == SetSize(n)
    requires |dom| == n && |post| == n && Shaped(dom, size) && Shaped(post, size)
    reads dom, post
  {
    Invariant(dom, post, n, size, exitSeed) &&
    VecWeight(Values(dom)) + VecWeight(Values(post)) <= w0 &&
    (changed ==> VecWeight(Values(dom)) + VecWeight(Values(post)) < w0) &&
    (!changed ==> StablePrefix(Values(dom), Values(post), preds, succs, size, bb))
  }

  /** With the seed of the source, the last block's post-dominator set
      lies within {0}: for two or more blocks it never contains the block
      itself. */
  lemma {:induction false} SeedZeroLosesLastBlock(p: seq<seq<Word>>, n: nat, size: nat)
    requires n >= 2 && |p| == n && SetSize(n) == size && forall i | 0 <= i < n :: |p[i]| == size
    requires Kept(p, n, size, n - 1, 0)
    ensures !TestBit(p[n - 1], n - 1)
  {
    BitInRange(0, n);
    BitInRange(n - 1, n);
    SingletonBit(size, 0, n - 1);
    var one := Singleton(size, 0);
    var w := (n - 1) / EltBits;
    assert p[n - 1][w] <= one[w];
  }

  /** With the last block seeded with its own bit, every block from 1 on
      keeps its own bit and the last block's set is exactly itself. */
  lemma {:induction false} SeedOwnBitKeepsLastBlock(p: seq<seq<Word>>, n: nat, size: nat)
    requires n >= 1 && |p| == n && SetSize(n) == size && forall i | 0 <= i < n :: |p[i]| == size
    requires Kept(p, n, size, n - 1, n - 1)
    ensures forall bb | 1 <= bb < n :: TestBit(p[bb], bb)
    ensures p[n - 1] == Singleton(size, n - 1)
  {
    BitInRange(n - 1, n);
    SingletonExact(p[n - 1], size, n - 1);
  }

}

/** The loop of compute_dominators (flow.c) over the vectors, proved
    against the predicates of module Dominators. */
module DominatorPasses {
  import opened SBitmap
  import opened Dominators

  /** compute_dominators with the bit that seeds post_dominators[n-1] as a
      parameter; the iteration is the one of the source. */
  method ComputeDominatorsSeeded(dom: seq<array<Word>>, post: seq<array<Word>>,
                                 preds: seq<seq<int>>, succs: seq<seq<int>>, exitSeed: nat)
    requires |dom| >= 1 && |post| == |dom| && exitSeed < |dom|
    requires Shaped(dom, SetSize(|dom|)) && Shaped(post, SetSize(|dom|))
    requires Distinct(dom) && Distinct(post) && Apart(dom, post)
    requires BlockLists(preds, |dom|) && BlockLists(succs, |dom|)
    modifies dom, post
    ensures Invariant(dom, post, |dom|, SetSize(|dom|), exitSeed)
    ensures StableBelow(Values(dom), Values(post), preds, succs, SetSize(|dom|), |dom|)
  {
    var n := |dom|;
    var size := SetSize(n);
    var temp := AllocVector(n, size);
    InitVectors(dom, post, temp, n, size, exitSeed);
    var changed := true;
    var passes := 0;
    while changed
      invariant Invariant(dom, post, n, size, exitSeed)
      invariant !changed ==> StablePrefix(Values(dom), Values(post), preds, succs, size, n)
      decreases VecWeight(Values(dom)) + VecWeight(Values(post)), if changed then 1 else 0
    {
      changed := Pass(dom, post, temp, preds, succs, n, size, exitSeed);
      passes := passes + 1;
    }
    StablePrefixBelow(Values(dom), Values(post), preds, succs, size, n);
  }

  /** The initialisation: all ones, the scratch vector all zeros, then the
      two seeds dominators[0] = {0} and post_dominators[n-1] = {exitSeed}. */
  method InitVectors(dom: seq<array<Word>>, post: seq<array<Word>>, temp: seq<array<Word>>,
                     n: nat, size: nat, exitSeed: nat)
    requires n >= 1 && exitSeed < n && size == SetSize(n) && Layout(dom, post, temp, n, size)
    modifies dom, post, temp
    ensures Invariant(dom, post, n, size, exitSeed)
    ensures Values(post)[n - 1] == Singleton(size, exitSeed)
  {
    VectorOnes(dom);
    VectorOnes(post);
    VectorZero(temp);
    BitInRange(0, n);
    BitInRange(exitSeed, n);
    Zero(dom[0]);
    SetBitIn(dom[0], 0);
    Zero(post[n - 1]);
    SetBitIn(post[n - 1], exitSeed);
    ghost var d := Values(dom);
    ghost var p := Values(post);
    assert d[0] == Singleton(size, 0);
    assert p[n - 1] == Singleton(size, exitSeed);
    KeptInit(d, n, size, 0, 0);
    KeptInit(p, n, size, n - 1, exitSeed);
  }

  /** One pass of the while loop: blocks 1 .. n-1 in order, dominators then
      post-dominators for each, reporting whether anything changed. */
  method Pass(dom: seq<array<Word>>, post: seq<array<Word>>, temp: seq<array<Word>>,
              preds: seq<seq<int>>, succs: seq<seq<int>>, n: nat, size: nat, exitSeed: nat)
    returns (changed: bool)
    requires n >= 1 && exitSeed < n && size == SetSize(n) && Layout(dom, post, temp, n, size)
    requires BlockLists(preds, n) && BlockLists(succs, n)
    requires Invariant(dom, post, n, size, exitSeed)
    modifies dom, post, temp
    ensures PassAt(dom, post, preds, succs, n, size, exitSeed, n, changed,
                   old(VecWeight(Values(dom)) + VecWeight(Values(post))))
  {
    ghost var w0 := VecWeight(Values(dom)) + VecWeight(Values(post));
    changed := false;
    var bb := 1;
    while bb < n
      invariant 1 <= bb <= n
      invariant PassAt(dom, post, preds, succs, n, size, exitSeed, bb, changed, w0)
    {
      changed := PassStep(dom, post, temp, preds, succs, n, size, exitSeed, bb, changed, w0);
      bb := bb + 1;
    }
  }

  /** The loop body of a pass at block bb, keeping the pass invariant. */
  method PassStep(dom: seq<array<Word>>, post: seq<array<Word>>, temp: seq<array<Word>>,
                  preds: seq<seq<int>>, succs: seq<seq<int>>, n: nat, size: nat, exitSeed: nat,
                  bb: nat, changed0: bool, ghost w0: int)
    returns (changed: bool)
    requires 1 <= bb < n && exitSeed < n && size == SetSize(n) && Layout(dom, post, temp, n, size)
    requires BlockLists(preds, n) && BlockLists(succs, n)
    requires PassAt(dom, post, preds, succs, n, size, exitSeed, bb, changed0, w0)
    modifies dom[bb], post[bb], temp[bb]
    ensures PassAt(dom, post, preds, succs, n, size, exitSeed, bb + 1, changed, w0)
  {
    ghost var d0 := Values(dom);
    ghost var p0 := Values(post);
    var c1 := DominatorStep(dom, post, temp, bb, preds, n, size, exitSeed);
    ghost var d1 := Values(dom);
    UpdateWeight(d0, bb, d1[bb]);
    var c2 := PostDominatorStep(dom, post, temp, bb, succs, n, size, exitSeed);
    ghost var p1 := Values(post);
    UpdateWeight(p0, bb, p1[bb]);
    assert Values(dom) == d1;
    if !changed0 && !c1 && !c2 {
      UpdateSame(d0, bb);
      UpdateSame(p0, bb);
      assert d1 == d0 && p1 == p0;
      assert StablePrefix(d1, p1, preds, succs, size, bb + 1);
    }
    changed := changed0 || c1 || c2;
  }

  /** The first half of the loop body: dominators[bb] against its predecessors. */
  method DominatorStep(dom: seq<array<Word>>, post: seq<array<Word>>, temp: seq<array<Word>>,
                       bb: nat, preds: seq<seq<int>>, n: nat, size: nat, exitSeed: nat)
    returns (changed: bool)
    requires 1 <= bb < n && exitSeed < n && size == SetSize(n) && Layout(dom, post, temp, n, size)
    requires BlockLists(preds, n)
    requires Invariant(dom, post, n, size, exitSeed)
    modifies dom[bb], temp[bb]
    ensures Invariant(dom, post, n, size, exitSeed)
    ensures Values(post) == old(Values(post))
    ensures Values(dom) == old(Values(dom))[bb := Values(dom)[bb]]
    ensures SubsetWords(Values(dom)[bb], old(Values(dom))[bb])
    ensures changed <==> Values(dom)[bb] != old(Values(dom))[bb]
    ensures !changed ==> Stable(Values(dom), preds, size, bb)
  {
    BitInRange(bb, n);
    ghost var d0 := Values(dom);
    ghost var p0 := Values(post);
    ghost var t0 := temp[bb][..];
    changed := RefineBlock(dom, temp[bb], bb, preds, size);
    ghost var d1 := Values(dom);
    assert d1 == d0[bb := d1[bb]];
    KeptStep(d0, n, size, 0, 0, bb, temp[bb][..]);
    assert Values(post) == p0;
    AndSubset(d0[bb], temp[bb][..]);
    if !changed {
      UpdateSame(d0, bb);
      if preds[bb] == [] || HasReal(preds[bb]) {
        StableOfFixed(d0, preds, size, bb, t0);
      }
    }
  }

  /** The second half of the loop body: post_dominators[bb] against its successors. */
  method PostDominatorStep(dom: seq<array<Word>>, post: seq<array<Word>>, temp: seq<array<Word>>,
                           bb: nat, succs: seq<seq<int>>, n: nat, size: nat, exitSeed: nat)
    returns (changed: bool)
    requires 1 <= bb < n && exitSeed < n && size == SetSize(n) && Layout(dom, post, temp, n, size)
    requires BlockLists(succs, n)
    requires Invariant(dom, post, n, size, exitSeed)
    modifies post[bb], temp[bb]
    ensures Invariant(dom, post, n, size, exitSeed)
    ensures Values(dom) == old(Values(dom))
    ensures Values(post) == old(Values(post))[bb := Values(post)[bb]]
    ensures SubsetWords(Values(post)[bb], old(Values(post))[bb])
    ensures changed <==> Values(post)[bb] != old(Values(post))[bb]
    ensures !changed ==> Stable(Values(post), succs, size, bb)
  {
    BitInRange(bb, n);
    ghost var d0 := Values(dom);
    ghost var p0 := Values(post);
    ghost var t0 := temp[bb][..];
    changed := RefineBlock(post, temp[bb], bb, succs, size);
    ghost var p1 := Values(post);
    assert p1 == p0[bb := p1[bb]];
    KeptStep(p0, n, size, n - 1, exitSeed, bb, temp[bb][..]);
    assert Values(dom) == d0;
    AndSubset(p0[bb], temp[bb][..]);
    if !changed {
      UpdateSame(p0, bb);
      if succs[bb] == [] || HasReal(succs[bb]) {
        StableOfFixed(p0, succs, size, bb, t0);
      }
    }
  }

  /** sbitmap_vector_alloc: N fresh bitmaps of SIZE words. */
  method AllocVector(n: nat, size: nat) returns (v: seq<array<Word>>)
    ensures |v| == n && Shaped(v, size)
    ensures forall i | 0 <= i < n :: fresh(v[i])
    ensures Distinct(v)
  {
    v := [];
    while |v| < n
      invariant |v| <= n && Shaped(v, size) && Distinct(v)
      invariant forall i | 0 <= i < |v| :: fresh(v[i])
    {
      var a := new Word[size];
      v := v + [a];
    }
  }

  /** compute_dominators as written: post_dominators[n-1] is seeded with
      bit 0, so with two or more blocks the last block is never recorded
      as post-dominating itself. */
  method ComputeDominators(dom: seq<array<Word>>, post: seq<array<Word>>,
                           preds: seq<seq<int>>, succs: seq<seq<int>>)
    requires |dom| >= 1 && |post| == |dom|
    requires Shaped(dom, SetSize(|dom|)) && Shaped(post, SetSize(|dom|))
    requires Distinct(dom) && Distinct(post) && Apart(dom, post)
    requires BlockLists(preds, |dom|) && BlockLists(succs, |dom|)
    modifies dom, post
    ensures Values(dom)[0] == Singleton(SetSize(|dom|), 0)
    ensures forall bb | 1 <= bb < |dom| :: TestBit(Values(dom)[bb], bb)
    ensures StableBelow(Values(dom), Values(post), preds, succs, SetSize(|dom|), |dom|)
    ensures |dom| >= 2 ==> Values(post)[0] == OnesWords(SetSize(|dom|))
    ensures |dom| >= 2 ==> !TestBit(Values(post)[|dom| - 1], |dom| - 1)
  {
    ComputeDominatorsSeeded(dom, post, preds, succs, 0);
    if |dom| >= 2 {
      SeedZeroLosesLastBlock(Values(post), |dom|, SetSize(|dom|));
    }
  }

  /** compute_dominators with post_dominators[n-1] seeded with its own bit:
      every block from 1 on then post-dominates itself, and the last block
      exactly itself. */
  method ComputeDominatorsCorrected(dom: seq<array<Word>>, post: seq<array<Word>>,
                                    preds: seq<seq<int>>, succs: seq<seq<int>>)
    requires |dom| >= 1 && |post| == |dom|
    requires Shaped(dom, SetSize(|dom|)) && Shaped(post, SetSize(|dom|))
    requires Distinct(dom) && Distinct(post) && Apart(dom, post)
    requires BlockLists(preds, |dom|) && BlockLists(succs, |dom|)
    modifies dom, post
    ensures Values(dom)[0] == Singleton(SetSize(|dom|), 0)
    ensures forall bb | 1 <= bb < |dom| :: TestBit(Values(dom)[bb], bb)
    ensures StableBelow(Values(dom), Values(post), preds, succs, SetSize(|dom|), |dom|)
    ensures forall bb | 1 <= bb < |dom| :: TestBit(Values(post)[bb], bb)
    ensures Values(post)[|dom| - 1] == Singleton(SetSize(|dom|), |dom| - 1)
  {
    ComputeDominatorsSeeded(dom, post, preds, succs, |dom| - 1);
    SeedOwnBitKeepsLastBlock(Values(post), |dom|, SetSize(|dom|));
  }
}
