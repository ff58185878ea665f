/** Simple bitmaps: fixed-size vectors of element words (flow.c, "Bitmap
    manipulation routines"). An sbitmap is modelled by its array of element
    words; a word is modelled by the set of offsets of its one bits, so the
    word-wise C operators &, |, ~ become intersection, union and complement
    with respect to the EltBits offsets of a word. */
module SBitmap {

  /** SBITMAP_ELT_BITS for the 32-bit host word of this configuration. */
  const EltBits: nat := 32

  /** ENTRY_BLOCK and EXIT_BLOCK, the pseudo block numbers that appear in
      predecessor and successor lists. */
  const EntryBlock: int := -1
  const ExitBlock: int := -2

  type Word = set<nat>

  /** The bit offsets 0 .. EltBits-1 of a word, in order. */
  function WordOffsets(): (s: seq<nat>)
    ensures |s| == EltBits && forall i | 0 <= i < EltBits :: s[i] == i
  {
    seq(EltBits, i requires 0 <= i => i)
  }

  lemma WordOffsetsMembers()
    ensures forall b: nat :: b in WordOffsets() <==> b < EltBits
  {
    var offsets := WordOffsets();
    forall b: nat | b < EltBits
      ensures b in offsets
    {
      assert offsets[b] == b;
    }
  }

  /** The all-ones word, ~0. */
  function OnesWord(): (w: Word)
    ensures forall b: nat :: b in w <==> b < EltBits
  {
    WordOffsetsMembers();
    set b | b in WordOffsets()
  }

  /** SBITMAP_SET_SIZE: words needed for n bits. */
  function SetSize(nBits: nat): nat { (nBits + EltBits - 1) / EltBits }

  /** TEST_BIT; a bit beyond the bitmap reads as clear. */
  predicate TestBit(s: seq<Word>, bit: nat)
  {
    bit / EltBits < |s| && bit % EltBits in s[bit / EltBits]
  }

  /** SET_BIT, on the value of a bitmap. */
  function WithBit(s: seq<Word>, bit: nat): (r: seq<Word>)
    requires bit / EltBits < |s|
    ensures |r| == |s| && TestBit(r, bit)
    ensures forall b: nat | b / EltBits < |s| && b != bit :: TestBit(r, b) == TestBit(s, b)
  {
    s[bit / EltBits := s[bit / EltBits] + {bit % EltBits}]
  }

  /** The value of an all-zero and of an all-ones bitmap of `n` words. */
  function ZeroWords(n: nat): (r: seq<Word>)
    ensures |r| == n
  {
    seq(n, i => {})
  }

  function OnesWords(n: nat): (r: seq<Word>)
    ensures |r| == n
  {
    seq(n, i => OnesWord())
  }

  /** No bit of the all-zero bitmap is set, every bit of the all-ones one is. */
  lemma ZeroOnesBit(n: nat, b: nat)
    requires b / EltBits < n
    ensures !TestBit(ZeroWords(n), b) && TestBit(OnesWords(n), b)
  {
    assert b % EltBits < EltBits;
  }

  /** The word-wise formulas of the combinators, over the first n words. */
  function UnionOfDiffWords(a: seq<Word>, b: seq<Word>, c: seq<Word>, n: nat): (r: seq<Word>)
    requires n <= |a| && n <= |b| && n <= |c|
    ensures |r| == n
    ensures forall k: nat | k / EltBits < n ::
      TestBit(r, k) == (TestBit(a, k) || (TestBit(b, k) && !TestBit(c, k)))
  {
    seq(n, i requires 0 <= i < n => a[i] + (b[i] - c[i]))
  }

  function NotWords(a: seq<Word>, n: nat): (r: seq<Word>)
    requires n <= |a|
    ensures |r| == n
    ensures forall k: nat | k / EltBits < n :: TestBit(r, k) == !TestBit(a, k)
  {
    var r := seq(n, i requires 0 <= i < n => OnesWord() - a[i]);
    assert forall k: nat | k / EltBits < n :: (k % EltBits in r[k / EltBits] <==> k % EltBits !in a[k / EltBits]) by {
      forall k: nat | k / EltBits < n
        ensures k % EltBits in r[k / EltBits] <==> k % EltBits !in a[k / EltBits]
      {
        assert k % EltBits in OnesWord();
      }
    }
    r
  }

  function DifferenceWords(a: seq<Word>, b: seq<Word>, n: nat): (r: seq<Word>)
    requires n <= |a| && n <= |b|
    ensures |r| == n
    ensures forall k: nat | k / EltBits < n :: TestBit(r, k) == (TestBit(a, k) && !TestBit(b, k))
  {
    seq(n, i requires 0 <= i < n => a[i] - b[i])
  }

  function AndWords(a: seq<Word>, b: seq<Word>, n: nat): (r: seq<Word>)
    requires n <= |a| && n <= |b|
    ensures |r| == n
    ensures forall k: nat | k / EltBits < n :: TestBit(r, k) == (TestBit(a, k) && TestBit(b, k))
  {
    seq(n, i requires 0 <= i < n => a[i] * b[i])
  }

  function OrWords(a: seq<Word>, b: seq<Word>, n: nat): (r: seq<Word>)
    requires n <= |a| && n <= |b|
    ensures |r| == n
    ensures forall k: nat | k / EltBits < n :: TestBit(r, k) == (TestBit(a, k) || TestBit(b, k))
  {
    seq(n, i requires 0 <= i < n => a[i] + b[i])
  }

  function OrAndWords(a: seq<Word>, b: seq<Word>, c: seq<Word>, n: nat): (r: seq<Word>)
    requires n <= |a| && n <= |b| && n <= |c|
    ensures |r| == n
    ensures forall k: nat | k / EltBits < n ::
      TestBit(r, k) == (TestBit(a, k) || (TestBit(b, k) && TestBit(c, k)))
  {
    seq(n, i requires 0 <= i < n => a[i] + (b[i] * c[i]))
  }

  function AndOrWords(a: seq<Word>, b: seq<Word>, c: seq<Word>, n: nat): (r: seq<Word>)
    requires n <= |a| && n <= |b| && n <= |c|
    ensures |r| == n
    ensures forall k: nat | k / EltBits < n ::
      TestBit(r, k) == (TestBit(a, k) && (TestBit(b, k) || TestBit(c, k)))
  {
    seq(n, i requires 0 <= i < n => a[i] * (b[i] + c[i]))
  }

  /** sbitmap_copy: DST gets the first DST->size words of SRC. */
  method Copy(dst: array<Word>, src: array<Word>)
    requires src.Length >= dst.Length
    modifies dst
    ensures dst[..] == old(src[..])[..dst.Length]
  {
    var i := 0;
    while i < dst.Length
      invariant 0 <= i <= dst.Length
      invariant forall k | 0 <= k < i :: dst[k] == old(src[k])
      invariant forall k | i <= k < src.Length :: src[k] == old(src[k])
    {
      dst[i] := src[i];
      i := i + 1;
    }
  }

  /** sbitmap_zero and sbitmap_ones: every word of the bitmap cleared or set. */
  method Zero(bmap: array<Word>)
    modifies bmap
    ensures bmap[..] == ZeroWords(bmap.Length)
  {
    forall i | 0 <= i < bmap.Length {
      bmap[i] := {};
    }
  }

  method Ones(bmap: array<Word>)
    modifies bmap
    ensures bmap[..] == OnesWords(bmap.Length)
  {
    forall i | 0 <= i < bmap.Length {
      bmap[i] := OnesWord();
    }
  }

  /** SET_BIT on a bitmap in place. */
  method SetBitIn(bmap: array<Word>, bit: nat)
    requires bit / EltBits < bmap.Length
    modifies bmap
    ensures bmap[..] == WithBit(old(bmap[..]), bit)
  {
    bmap[bit / EltBits] := bmap[bit / EltBits] + {bit % EltBits};
  }

  /** The contents of a vector of bitmaps. */
  ghost function Values(v: seq<array<Word>>): (r: seq<seq<Word>>)
    reads v
    ensures |r| == |v| && forall i | 0 <= i < |v| :: r[i] == v[i][..]
  {
    seq(|v|, i reads v requires 0 <= i < |v| => v[i][..])
  }

  /** sbitmap_vector_zero and sbitmap_vector_ones. */
  method VectorZero(v: seq<array<Word>>)
    modifies v
    ensures forall i | 0 <= i < |v| :: v[i][..] == ZeroWords(v[i].Length)
  {
    var i := 0;
    while i < |v|
      invariant 0 <= i <= |v|
      invariant forall k | 0 <= k < i :: v[k][..] == ZeroWords(v[k].Length)
    {
      Zero(v[i]);
      i := i + 1;
    }
  }

  method VectorOnes(v: seq<array<Word>>)
    modifies v
    ensures forall i | 0 <= i < |v| :: v[i][..] == OnesWords(v[i].Length)
  {
    var i := 0;
    while i < |v|
      invariant 0 <= i <= |v|
      invariant forall k | 0 <= k < i :: v[k][..] == OnesWords(v[k].Length)
    {
      Ones(v[i]);
      i := i + 1;
    }
  }

  /** sbitmap_union_of_diff: DST = A | (B & ~C), reporting whether DST changed. */
  method UnionOfDiff(dst: array<Word>, a: array<Word>, b: array<Word>, c: array<Word>)
    returns (changed: bool)
    requires a.Length >= dst.Length && b.Length >= dst.Length && c.Length >= dst.Length
    modifies dst
    ensures dst[..] == UnionOfDiffWords(old(a[..]), old(b[..]), old(c[..]), dst.Length)
    ensures changed <==> exists k | 0 <= k < dst.Length :: dst[k] != old(dst[k])
  {
    changed := false;
    var i := 0;
    while i < dst.Length
      invariant 0 <= i <= dst.Length
      invariant forall k | 0 <= k < i :: dst[k] == old(a[k]) + (old(b[k]) - old(c[k]))
      invariant forall k | i <= k < dst.Length :: dst[k] == old(dst[k])
      invariant forall k | i <= k < a.Length :: a[k] == old(a[k])
      invariant forall k | i <= k < b.Length :: b[k] == old(b[k])
      invariant forall k | i <= k < c.Length :: c[k] == old(c[k])
      invariant changed <==> exists k | 0 <= k < i :: dst[k] != old(dst[k])
    {
      var tmp := a[i] + (b[i] - c[i]);
      if dst[i] != tmp { changed := true; }
      dst[i] := tmp;
      i := i + 1;
    }
  }

  /** sbitmap_not: DST = ~SRC. */
  method Not(dst: array<Word>, src: array<Word>)
    requires src.Length >= dst.Length
    modifies dst
    ensures dst[..] == NotWords(old(src[..]), dst.Length)
  {
    var i := 0;
    while i < dst.Length
      invariant 0 <= i <= dst.Length
      invariant forall k | 0 <= k < i :: dst[k] == OnesWord() - old(src[k])
      invariant forall k | i <= k < src.Length :: src[k] == old(src[k])
    {
      dst[i] := OnesWord() - src[i];
      i := i + 1;
    }
  }

  /** sbitmap_difference: DST = A & ~B. */
  method Difference(dst: array<Word>, a: array<Word>, b: array<Word>)
    requires a.Length >= dst.Length && b.Length >= dst.Length
    modifies dst
    ensures dst[..] == DifferenceWords(old(a[..]), old(b[..]), dst.Length)
  {
    var i := 0;
    while i < dst.Length
      invariant 0 <= i <= dst.Length
      invariant forall k | 0 <= k < i :: dst[k] == old(a[k]) - old(b[k])
      invariant forall k | i <= k < a.Length :: a[k] == old(a[k])
      invariant forall k | i <= k < b.Length :: b[k] == old(b[k])
    {
      dst[i] := a[i] - b[i];
      i := i + 1;
    }
  }

  /** sbitmap_a_and_b: DST = A & B, reporting whether DST changed. */
  method AAndB(dst: array<Word>, a: array<Word>, b: array<Word>) returns (changed: bool)
    requires a.Length >= dst.Length && b.Length >= dst.Length
    modifies dst
    ensures dst[..] == AndWords(old(a[..]), old(b[..]), dst.Length)
    ensures changed <==> exists k | 0 <= k < dst.Length :: dst[k] != old(dst[k])
  {
    changed := false;
    var i := 0;
    while i < dst.Length
      invariant 0 <= i <= dst.Length
      invariant forall k | 0 <= k < i :: dst[k] == old(a[k]) * old(b[k])
      invariant forall k | i <= k < dst.Length :: dst[k] == old(dst[k])
      invariant forall k | i <= k < a.Length :: a[k] == old(a[k])
      invariant forall k | i <= k < b.Length :: b[k] == old(b[k])
      invariant changed <==> exists k | 0 <= k < i :: dst[k] != old(dst[k])
    {
      var tmp := a[i] * b[i];
      if dst[i] != tmp { changed := true; }
      dst[i] := tmp;
      i := i + 1;
    }
  }

  /** sbitmap_a_or_b: DST = A | B, reporting whether DST changed. */
  method AOrB(dst: array<Word>, a: array<Word>, b: array<Word>) returns (changed: bool)
    requires a.Length >= dst.Length && b.Length >= dst.Length
    modifies dst
    ensures dst[..] == OrWords(old(a[..]), old(b[..]), dst.Length)
    ensures changed <==> exists k | 0 <= k < dst.Length :: dst[k] != old(dst[k])
  {
    changed := false;
    var i := 0;
    while i < dst.Length
      invariant 0 <= i <= dst.Length
      invariant forall k | 0 <= k < i :: dst[k] == old(a[k]) + old(b[k])
      invariant forall k | i <= k < dst.Length :: dst[k] == old(dst[k])
      invariant forall k | i <= k < a.Length :: a[k] == old(a[k])
      invariant forall k | i <= k < b.Length :: b[k] == old(b[k])
      invariant changed <==> exists k | 0 <= k < i :: dst[k] != old(dst[k])
    {
      var tmp := a[i] + b[i];
      if dst[i] != tmp { changed := true; }
      dst[i] := tmp;
      i := i + 1;
    }
  }

  /** sbitmap_a_or_b_and_c: DST = A | (B & C), reporting whether DST changed. */
  method AOrBAndC(dst: array<Word>, a: array<Word>, b: array<Word>, c: array<Word>)
    returns (changed: bool)
    requires a.Length >= dst.Length && b.Length >= dst.Length && c.Length >= dst.Length
    modifies dst
    ensures dst[..] == OrAndWords(old(a[..]), old(b[..]), old(c[..]), dst.Length)
    ensures changed <==> exists k | 0 <= k < dst.Length :: dst[k] != old(dst[k])
  {
    changed := false;
    var i := 0;
    while i < dst.Length
      invariant 0 <= i <= dst.Length
      invariant forall k | 0 <= k < i :: dst[k] == old(a[k]) + (old(b[k]) * old(c[k]))
      invariant forall k | i <= k < dst.Length :: dst[k] == old(dst[k])
      invariant forall k | i <= k < a.Length :: a[k] == old(a[k])
      invariant forall k | i <= k < b.Length :: b[k] == old(b[k])
      invariant forall k | i <= k < c.Length :: c[k] == old(c[k])
      invariant changed <==> exists k | 0 <= k < i :: dst[k] != old(dst[k])
    {
      var tmp := a[i] + (b[i] * c[i]);
      if dst[i] != tmp { changed := true; }
      dst[i] := tmp;
      i := i + 1;
    }
  }

  /** sbitmap_a_and_b_or_c: DST = A & (B | C), reporting whether DST changed. */
  method AAndBOrC(dst: array<Word>, a: array<Word>, b: array<Word>, c: array<Word>)
    returns (changed: bool)
    requires a.Length >= dst.Length && b.Length >= dst.Length && c.Length >= dst.Length
    modifies dst
    ensures dst[..] == AndOrWords(old(a[..]), old(b[..]), old(c[..]), dst.Length)
    ensures changed <==> exists k | 0 <= k < dst.Length :: dst[k] != old(dst[k])
  {
    changed := false;
    var i := 0;
    while i < dst.Length
      invariant 0 <= i <= dst.Length
      invariant forall k | 0 <= k < i :: dst[k] == old(a[k]) * (old(b[k]) + old(c[k]))
      invariant forall k | i <= k < dst.Length :: dst[k] == old(dst[k])
      invariant forall k | i <= k < a.Length :: a[k] == old(a[k])
      invariant forall k | i <= k < b.Length :: b[k] == old(b[k])
      invariant forall k | i <= k < c.Length :: c[k] == old(c[k])
      invariant changed <==> exists k | 0 <= k < i :: dst[k] != old(dst[k])
    {
      var tmp := a[i] * (b[i] + c[i]);
      if dst[i] != tmp { changed := true; }
      dst[i] := tmp;
      i := i + 1;
    }
  }
  /** A real block number in a predecessor or successor list. */
  predicate IsReal(p: int) { p != EntryBlock && p != ExitBlock }

  predicate HasReal(ps: seq<int>) { exists j | 0 <= j < |ps| :: IsReal(ps[j]) }

  /** Every real block of the list names a bitmap of at least `n` words. */
  predicate ListOk(vec: seq<seq<Word>>, ps: seq<int>, n: nat)
  {
    forall j | 0 <= j < |ps| && IsReal(ps[j]) :: 0 <= ps[j] < |vec| && |vec[ps[j]]| >= n
  }

  /** A real block of VEC whose bitmap has at least `n` words. */
  predicate Names(vec: seq<seq<Word>>, p: int, n: nat)
  {
    IsReal(p) && 0 <= p < |vec| && |vec[p]| >= n
  }

  /** The index of the first real block of a list, |ps| when there is none. */
  function FirstReal(ps: seq<int>): (k: nat)
    ensures k <= |ps| && (k < |ps| ==> IsReal(ps[k]))
    ensures forall j | 0 <= j < k :: !IsReal(ps[j])
    ensures k == |ps| <==> !HasReal(ps)
  {
    if ps == [] then 0
    else if IsReal(ps[0]) then 0
    else
      var k := FirstReal(ps[1..]) + 1;
      assert forall j | 1 <= j < |ps| :: ps[1..][j - 1] == ps[j];
      k
  }

  /** ACC and-ed, word by word, with the bitmap of every real block of PS. */
  function AndOver(acc: seq<Word>, vec: seq<seq<Word>>, ps: seq<int>): (r: seq<Word>)
    ensures |r| == |acc|
    decreases |ps|
  {
    if ps == [] then acc
    else
      AndOver(if Names(vec, ps[0], |acc|) then AndWords(acc, vec[ps[0]], |acc|) else acc, vec, ps[1..])
  }

  /** ACC or-ed, word by word, with the bitmap of every real block of PS. */
  function OrOver(acc: seq<Word>, vec: seq<seq<Word>>, ps: seq<int>): (r: seq<Word>)
    ensures |r| == |acc|
    decreases |ps|
  {
    if ps == [] then acc
    else
      OrOver(if Names(vec, ps[0], |acc|) then OrWords(acc, vec[ps[0]], |acc|) else acc, vec, ps[1..])
  }

  /** The value sbitmap_intersect_of_predsucc leaves in a DST of value DST0:
      all ones for an empty list, DST0 itself when the list names only
      ENTRY_BLOCK/EXIT_BLOCK, and otherwise the and of the listed blocks. */
  function IntersectOf(dst0: seq<Word>, vec: seq<seq<Word>>, ps: seq<int>): (r: seq<Word>)
    ensures |r| == |dst0|
    ensures ps == [] ==> r == OnesWords(|dst0|)
    ensures ps != [] && !HasReal(ps) ==> r == dst0
  {
    if ps == [] then OnesWords(|dst0|)
    else
      var k := FirstReal(ps);
      if k == |ps| then dst0
      else if Names(vec, ps[k], |dst0|) then AndOver(vec[ps[k]][..|dst0|], vec, ps[k + 1..])
      else dst0
  }

  /** The value sbitmap_union_of_predsucc leaves in a DST of value DST0:
      all zeros for an empty list, DST0 when the list names only
      ENTRY_BLOCK/EXIT_BLOCK, and otherwise the or of the listed blocks. */
  function UnionOf(dst0: seq<Word>, vec: seq<seq<Word>>, ps: seq<int>): (r: seq<Word>)
    ensures |r| == |dst0|
    ensures ps == [] ==> r == ZeroWords(|dst0|)
    ensures ps != [] && !HasReal(ps) ==> r == dst0
  {
    if ps == [] then ZeroWords(|dst0|)
    else
      var k := FirstReal(ps);
      if k == |ps| then dst0
      else if Names(vec, ps[k], |dst0|) then OrOver(vec[ps[k]][..|dst0|], vec, ps[k + 1..])
      else dst0
  }

  lemma {:induction false} AndOverBit(acc: seq<Word>, vec: seq<seq<Word>>, ps: seq<int>, k: nat)
    requires ListOk(vec, ps, |acc|) && k / EltBits < |acc|
    ensures TestBit(AndOver(acc, vec, ps), k) <==>
      TestBit(acc, k) && forall j | 0 <= j < |ps| && IsReal(ps[j]) :: TestBit(vec[ps[j]], k)
    decreases |ps|
  {
    if ps != [] {
      assert forall j | 0 <= j < |ps| - 1 :: ps[1..][j] == ps[j + 1];
      var acc' := if IsReal(ps[0]) then AndWords(acc, vec[ps[0]], |acc|) else acc;
      AndOverBit(acc', vec, ps[1..], k);
      if forall j | 0 <= j < |ps| && IsReal(ps[j]) :: TestBit(vec[ps[j]], k) {
      } else {
        var j :| 0 <= j < |ps| && IsReal(ps[j]) && !TestBit(vec[ps[j]], k);
        if j > 0 { assert ps[1..][j - 1] == ps[j]; }
      }
    }
  }

  lemma {:induction false} OrOverBit(acc: seq<Word>, vec: seq<seq<Word>>, ps: seq<int>, k: nat)
    requires ListOk(vec, ps, |acc|) && k / EltBits < |acc|
    ensures TestBit(OrOver(acc, vec, ps), k) <==>
      TestBit(acc, k) || exists j | 0 <= j < |ps| && IsReal(ps[j]) :: TestBit(vec[ps[j]], k)
    decreases |ps|
  {
    if ps != [] {
      assert forall j | 0 <= j < |ps| - 1 :: ps[1..][j] == ps[j + 1];
      var acc' := if IsReal(ps[0]) then OrWords(acc, vec[ps[0]], |acc|) else acc;
      OrOverBit(acc', vec, ps[1..], k);
      if exists j | 0 <= j < |ps| && IsReal(ps[j]) :: TestBit(vec[ps[j]], k) {
        var j :| 0 <= j < |ps| && IsReal(ps[j]) && TestBit(vec[ps[j]], k);
        if j > 0 { assert ps[1..][j - 1] == ps[j]; }
      }
    }
  }

  /** A list naming a real block: bit K of the intersection is set iff it is
      set in the bitmap of every real block of the list. */
  lemma {:induction false} IntersectOfBit(dst0: seq<Word>, vec: seq<seq<Word>>, ps: seq<int>, k: nat)
    requires ListOk(vec, ps, |dst0|) && HasReal(ps) && k / EltBits < |dst0|
    ensures TestBit(IntersectOf(dst0, vec, ps), k) <==>
      forall j | 0 <= j < |ps| && IsReal(ps[j]) :: TestBit(vec[ps[j]], k)
  {
    var f := FirstReal(ps);
    var rest := ps[f + 1..];
    assert ListOk(vec, rest, |dst0|) by {
      forall j | 0 <= j < |rest| && IsReal(rest[j]) ensures 0 <= rest[j] < |vec| && |vec[rest[j]]| >= |dst0| {
        assert rest[j] == ps[j + f + 1];
      }
    }
    var acc := vec[ps[f]][..|dst0|];
    assert TestBit(acc, k) == TestBit(vec[ps[f]], k);
    AndOverBit(acc, vec, rest, k);
    if !forall j | 0 <= j < |ps| && IsReal(ps[j]) :: TestBit(vec[ps[j]], k) {
      var j :| 0 <= j < |ps| && IsReal(ps[j]) && !TestBit(vec[ps[j]], k);
      if j > f { assert rest[j - f - 1] == ps[j]; }
    } else {
      forall j | 0 <= j < |rest| && IsReal(rest[j]) ensures TestBit(vec[rest[j]], k) {
        assert rest[j] == ps[j + f + 1];
      }
    }
  }

  /** A list naming a real block: bit K of the union is set iff it is set in
      the bitmap of some real block of the list. */
  lemma {:induction false} UnionOfBit(dst0: seq<Word>, vec: seq<seq<Word>>, ps: seq<int>, k: nat)
    requires ListOk(vec, ps, |dst0|) && HasReal(ps) && k / EltBits < |dst0|
    ensures TestBit(UnionOf(dst0, vec, ps), k) <==>
      exists j | 0 <= j < |ps| && IsReal(ps[j]) :: TestBit(vec[ps[j]], k)
  {
    var f := FirstReal(ps);
    var rest := ps[f + 1..];
    assert ListOk(vec, rest, |dst0|) by {
      forall j | 0 <= j < |rest| && IsReal(rest[j]) ensures 0 <= rest[j] < |vec| && |vec[rest[j]]| >= |dst0| {
        assert rest[j] == ps[j + f + 1];
      }
    }
    var acc := vec[ps[f]][..|dst0|];
    assert TestBit(acc, k) == TestBit(vec[ps[f]], k);
    OrOverBit(acc, vec, rest, k);
    if exists j | 0 <= j < |ps| && IsReal(ps[j]) :: TestBit(vec[ps[j]], k) {
      var j :| 0 <= j < |ps| && IsReal(ps[j]) && TestBit(vec[ps[j]], k);
      if j > f { assert rest[j - f - 1] == ps[j]; }
    } else {
      forall j | 0 <= j < |rest| && IsReal(rest[j]) ensures !TestBit(vec[rest[j]], k) {
        assert rest[j] == ps[j + f + 1];
      }
    }
  }

  /** One step of AndOver and OrOver along a list. */
  lemma AndOverStep(d: seq<Word>, vec: seq<seq<Word>>, ps: seq<int>, i: nat)
    requires i < |ps| && ListOk(vec, ps[i..], |d|)
    ensures ListOk(vec, ps[i + 1..], |d|)
    ensures AndOver(d, vec, ps[i..]) ==
      AndOver(if IsReal(ps[i]) then AndWords(d, vec[ps[i]], |d|) else d, vec, ps[i + 1..])
    ensures IsReal(ps[i]) ==> Names(vec, ps[i], |d|)
  {
    assert ps[i..][0] == ps[i] && ps[i..][1..] == ps[i + 1..];
  }

  lemma OrOverStep(d: seq<Word>, vec: seq<seq<Word>>, ps: seq<int>, i: nat)
    requires i < |ps| && ListOk(vec, ps[i..], |d|)
    ensures ListOk(vec, ps[i + 1..], |d|)
    ensures OrOver(d, vec, ps[i..]) ==
      OrOver(if IsReal(ps[i]) then OrWords(d, vec[ps[i]], |d|) else d, vec, ps[i + 1..])
    ensures IsReal(ps[i]) ==> Names(vec, ps[i], |d|)
  {
    assert ps[i..][0] == ps[i] && ps[i..][1..] == ps[i + 1..];
  }

  /** sbitmap_intersect_of_predsucc: DST becomes the intersection of the
      bitmaps of the blocks in PRED_SUCC[BB]. */
  method IntersectOfPredSucc(dst: array<Word>, src: seq<array<Word>>, bb: nat, predSucc: seq<seq<int>>)
    requires bb < |predSucc| && ListOk(Values(src), predSucc[bb], dst.Length)
    requires forall j | 0 <= j < |src| :: src[j] != dst
    modifies dst
    ensures dst[..] == IntersectOf(old(dst[..]), Values(src), predSucc[bb])
  {
    ghost var vec := Values(src);
    var ps := predSucc[bb];
    if ps == [] {
      Ones(dst);
      return;
    }
    var i := 0;
    while i < |ps| && !IsReal(ps[i])
      invariant 0 <= i <= |ps|
      invariant forall j | 0 <= j < i :: !IsReal(ps[j])
    {
      i := i + 1;
    }
    if i == |ps| {
      return;
    }
    assert i == FirstReal(ps);
    ghost var target := IntersectOf(dst[..], vec, ps);
    assert target == AndOver(vec[ps[i]][..dst.Length], vec, ps[i + 1..]);
    Copy(dst, src[ps[i]]);
    AndRemaining(dst, src, ps, i + 1);
  }

  /** The loop of sbitmap_intersect_of_predsucc over the rest of the list: DST is and-ed with
      the bitmap of every real block of PS[I..]. */
  method AndRemaining(dst: array<Word>, src: seq<array<Word>>, ps: seq<int>, i0: nat)
    requires i0 <= |ps| && ListOk(Values(src), ps[i0..], dst.Length)
    requires forall j | 0 <= j < |src| :: src[j] != dst
    modifies dst
    ensures dst[..] == AndOver(old(dst[..]), Values(src), ps[i0..])
  {
    ghost var vec := Values(src);
    var i := i0;
    while i < |ps|
      invariant i0 <= i <= |ps|
      invariant forall j | 0 <= j < |src| :: src[j][..] == vec[j]
      invariant ListOk(vec, ps[i..], dst.Length)
      invariant AndOver(dst[..], vec, ps[i..]) == AndOver(old(dst[..]), vec, ps[i0..])
    {
      ghost var d := dst[..];
      ghost var e := if IsReal(ps[i]) then AndWords(d, vec[ps[i]], |d|) else d;
      AndOverStep(d, vec, ps, i);
      if IsReal(ps[i]) {
        var _ := AAndB(dst, dst, src[ps[i]]);
        assert dst[..] == e;
      }
      i := i + 1;
    }
  }

  /** sbitmap_union_of_predsucc: DST becomes the union of the bitmaps of the
      blocks in PRED_SUCC[BB]. */
  method UnionOfPredSucc(dst: array<Word>, src: seq<array<Word>>, bb: nat, predSucc: seq<seq<int>>)
    requires bb < |predSucc| && ListOk(Values(src), predSucc[bb], dst.Length)
    requires forall j | 0 <= j < |src| :: src[j] != dst
    modifies dst
    ensures dst[..] == UnionOf(old(dst[..]), Values(src), predSucc[bb])
  {
    ghost var vec := Values(src);
    var ps := predSucc[bb];
    if ps == [] {
      Zero(dst);
      return;
    }
    var i := 0;
    while i < |ps| && !IsReal(ps[i])
      invariant 0 <= i <= |ps|
      invariant forall j | 0 <= j < i :: !IsReal(ps[j])
    {
      i := i + 1;
    }
    if i == |ps| {
      return;
    }
    assert i == FirstReal(ps);
    ghost var target := UnionOf(dst[..], vec, ps);
    assert target == OrOver(vec[ps[i]][..dst.Length], vec, ps[i + 1..]);
    Copy(dst, src[ps[i]]);
    OrRemaining(dst, src, ps, i + 1);
  }

  /** The loop of sbitmap_union_of_predsucc over the rest of the list: DST is or-ed with
      the bitmap of every real block of PS[I..]. */
  method OrRemaining(dst: array<Word>, src: seq<array<Word>>, ps: seq<int>, i0: nat)
    requires i0 <= |ps| && ListOk(Values(src), ps[i0..], dst.Length)
    requires forall j | 0 <= j < |src| :: src[j] != dst
    modifies dst
    ensures dst[..] == OrOver(old(dst[..]), Values(src), ps[i0..])
  {
    ghost var vec := Values(src);
    var i := i0;
    while i < |ps|
      invariant i0 <= i <= |ps|
      invariant forall j | 0 <= j < |src| :: src[j][..] == vec[j]
      invariant ListOk(vec, ps[i..], dst.Length)
      invariant OrOver(dst[..], vec, ps[i..]) == OrOver(old(dst[..]), vec, ps[i0..])
    {
      ghost var d := dst[..];
      ghost var e := if IsReal(ps[i]) then OrWords(d, vec[ps[i]], |d|) else d;
      OrOverStep(d, vec, ps, i);
      if IsReal(ps[i]) {
        var _ := AOrB(dst, dst, src[ps[i]]);
        assert dst[..] == e;
      }
      i := i + 1;
    }
  }

  /** The four entry points over predecessor and successor lists. */
  method IntersectOfPredecessors(dst: array<Word>, src: seq<array<Word>>, bb: nat, preds: seq<seq<int>>)
    requires bb < |preds| && ListOk(Values(src), preds[bb], dst.Length)
    requires forall j | 0 <= j < |src| :: src[j] != dst
    modifies dst
    ensures dst[..] == IntersectOf(old(dst[..]), Values(src), preds[bb])
  {
    IntersectOfPredSucc(dst, src, bb, preds);
  }

  method IntersectOfSuccessors(dst: array<Word>, src: seq<array<Word>>, bb: nat, succs: seq<seq<int>>)
    requires bb < |succs| && ListOk(Values(src), succs[bb], dst.Length)
    requires forall j | 0 <= j < |src| :: src[j] != dst
    modifies dst
    ensures dst[..] == IntersectOf(old(dst[..]), Values(src), succs[bb])
  {
    IntersectOfPredSucc(dst, src, bb, succs);
  }

  method UnionOfPredecessors(dst: array<Word>, src: seq<array<Word>>, bb: nat, preds: seq<seq<int>>)
    requires bb < |preds| && ListOk(Values(src), preds[bb], dst.Length)
    requires forall j | 0 <= j < |src| :: src[j] != dst
    modifies dst
    ensures dst[..] == UnionOf(old(dst[..]), Values(src), preds[bb])
  {
    UnionOfPredSucc(dst, src, bb, preds);
  }

  method UnionOfSuccessors(dst: array<Word>, src: seq<array<Word>>, bb: nat, succs: seq<seq<int>>)
    requires bb < |succs| && ListOk(Values(src), succs[bb], dst.Length)
    requires forall j | 0 <= j < |src| :: src[j] != dst
    modifies dst
    ensures dst[..] == UnionOf(old(dst[..]), Values(src), succs[bb])
  {
    UnionOfPredSucc(dst, src, bb, succs);
  }
}
