/** The doubly-linked instruction chains of the RTL emitter, as values:
    a chain is the sequence of instruction handles in NEXT_INSN order, and
    the links are the NEXT_INSN / PREV_INSN fields of every instruction
    (0 stands for a null pointer). The emitter keeps one current chain and
    one saved chain per pending sequence; `Loc` says on which chain, and
    where, each instruction sits. The lemmas here are what the emitter's
    methods use to show that their pointer updates keep every chain
    linked and the chains disjoint. */
module InsnChain {

  type Links = map<nat, nat>

  /** NEXT_INSN (k) = v or PREV_INSN (k) = v. */
  function Link(m: Links, k: nat, v: nat): Links
  {
    m[k := v]
  }

  /** For each handle on a chain: the chain's index and the position on it. */
  type Loc = map<nat, (nat, nat)>

  /** The two ends of a chain: first_insn and last_insn, or the pair saved
      on the sequence stack. */
  datatype Ends = Ends(first: nat, last: nat)

  ghost predicate Distinct(c: seq<nat>)
  {
    forall i, j | 0 <= i < j < |c| :: c[i] != c[j]
  }

  /** `c` runs from `f` to `l`: every NEXT_INSN points at the next member,
      every PREV_INSN at the one before, and the ends point at null. */
  ghost predicate Linked(c: seq<nat>, e: Ends, nx: Links, pv: Links)
  {
    (forall i | 0 <= i < |c| :: c[i] in nx && c[i] in pv) &&
    (if c == [] then e.first == 0 && e.last == 0
     else e.first == c[0] && e.last == c[|c| - 1] && pv[c[0]] == 0 && nx[c[|c| - 1]] == 0) &&
    (forall i | 0 <= i < |c| - 1 :: nx[c[i]] == c[i + 1] && pv[c[i + 1]] == c[i])
  }

  ghost predicate ChainsLinked(chains: seq<seq<nat>>, ends: seq<Ends>, nx: Links, pv: Links)
  {
    |chains| == |ends| &&
    forall a | 0 <= a < |chains| :: Linked(chains[a], ends[a], nx, pv)
  }

  /** `loc` names exactly the handles on the chains, with their places. */
  ghost predicate Located(chains: seq<seq<nat>>, loc: Loc)
  {
    (forall a, i | 0 <= a < |chains| && 0 <= i < |chains[a]| :: chains[a][i] in loc && loc[chains[a][i]] == (a, i)) &&
    (forall h | h in loc :: loc[h].0 < |chains| && loc[h].1 < |chains[loc[h].0]| && chains[loc[h].0][loc[h].1] == h)
  }

  /** The places of the handles after chain `a` has become `c`. */
  function Relocate(loc: Loc, a: nat, c: seq<nat>): (r: Loc)
    requires Distinct(c)
  {
    (map h | h in loc && loc[h].0 != a :: loc[h]) + (map i | 0 <= i < |c| :: c[i] := (a, i))
  }

  /** No handle is on two chains, and none twice on one. */
  lemma LocatedDistinct(chains: seq<seq<nat>>, loc: Loc, a: nat)
    requires Located(chains, loc) && a < |chains|
    ensures Distinct(chains[a])
  {
    forall i, j | 0 <= i < j < |chains[a]| ensures chains[a][i] != chains[a][j] {
      assert loc[chains[a][i]] == (a, i) && loc[chains[a][j]] == (a, j);
    }
  }

  /** Replacing chain `a` by `c`, whose members are on no other chain. */
  lemma RelocateOk(chains: seq<seq<nat>>, loc: Loc, a: nat, c: seq<nat>)
    requires Located(chains, loc) && a < |chains| && Distinct(c)
    requires forall i | 0 <= i < |c| :: c[i] !in loc || loc[c[i]].0 == a
    ensures Located(chains[a := c], Relocate(loc, a, c))
  {
    RelocateMembers(chains, loc, a, c);
    RelocateKeys(chains, loc, a, c);
  }

  lemma RelocateMembers(chains: seq<seq<nat>>, loc: Loc, a: nat, c: seq<nat>)
    requires Located(chains, loc) && a < |chains| && Distinct(c)
    requires forall i | 0 <= i < |c| :: c[i] !in loc || loc[c[i]].0 == a
    ensures var ch, r := chains[a := c], Relocate(loc, a, c);
      forall b, i | 0 <= b < |ch| && 0 <= i < |ch[b]| :: ch[b][i] in r && r[ch[b][i]] == (b, i)
  {
    var ch := chains[a := c];
    var r := Relocate(loc, a, c);
    forall b, i | 0 <= b < |ch| && 0 <= i < |ch[b]| ensures ch[b][i] in r && r[ch[b][i]] == (b, i) {
      if b == a {
        assert ch[b][i] == c[i];
      } else {
        var h := chains[b][i];
        assert loc[h] == (b, i);
        assert forall k | 0 <= k < |c| :: c[k] != h;
      }
    }
  }

  lemma RelocateKeys(chains: seq<seq<nat>>, loc: Loc, a: nat, c: seq<nat>)
    requires Located(chains, loc) && a < |chains| && Distinct(c)
    ensures var ch, r := chains[a := c], Relocate(loc, a, c);
      forall h | h in r :: r[h].0 < |ch| && r[h].1 < |ch[r[h].0]| && ch[r[h].0][r[h].1] == h
  {
    var ch := chains[a := c];
    var r := Relocate(loc, a, c);
    forall h | h in r ensures r[h].0 < |ch| && r[h].1 < |ch[r[h].0]| && ch[r[h].0][r[h].1] == h {
      if exists i | 0 <= i < |c| :: c[i] == h {
        var i :| 0 <= i < |c| && c[i] == h;
        assert r[h] == (a, i);
      } else {
        assert h in loc && loc[h].0 != a;
      }
    }
  }

  /** Links that agree on the members of `c` keep it linked. */
  lemma LinkedFrame(c: seq<nat>, e: Ends, nx: Links, pv: Links, nx': Links, pv': Links)
    requires Linked(c, e, nx, pv)
    requires forall i | 0 <= i < |c| :: c[i] in nx' && c[i] in pv' && nx'[c[i]] == nx[c[i]] && pv'[c[i]] == pv[c[i]]
    ensures Linked(c, e, nx', pv')
  {
    if c != [] {
      assert nx'[c[|c| - 1]] == nx[c[|c| - 1]];
    }
  }

  /** Chain `a` becomes `c` with ends `e`; the links of the handles on the
      other chains are unchanged. */
  lemma ChainsUpdate(chains: seq<seq<nat>>, ends: seq<Ends>, nx: Links, pv: Links, loc: Loc,
                     a: nat, c: seq<nat>, e: Ends, nx': Links, pv': Links)
    requires ChainsLinked(chains, ends, nx, pv) && Located(chains, loc) && a < |chains|
    requires forall h | h in loc && loc[h].0 != a :: h in nx' && h in pv' && nx'[h] == nx[h] && pv'[h] == pv[h]
    requires Linked(c, e, nx', pv')
    ensures ChainsLinked(chains[a := c], ends[a := e], nx', pv')
  {
    forall b | 0 <= b < |chains| && b != a ensures Linked(chains[b], ends[b], nx', pv') {
      assert Linked(chains[b], ends[b], nx, pv);
      forall i | 0 <= i < |chains[b]|
        ensures chains[b][i] in nx' && chains[b][i] in pv' && nx'[chains[b][i]] == nx[chains[b][i]] && pv'[chains[b][i]] == pv[chains[b][i]]
      {
        assert loc[chains[b][i]] == (b, i);
      }
      LinkedFrame(chains[b], ends[b], nx, pv, nx', pv');
    }
  }

  /** The members of a run point at each other, whatever their ends say. */
  ghost predicate RunLinked(d: seq<nat>, nx: Links, pv: Links)
  {
    (forall t | 0 <= t < |d| :: d[t] in nx && d[t] in pv) &&
    (forall t | 0 <= t < |d| - 1 :: nx[d[t]] == d[t + 1] && pv[d[t + 1]] == d[t])
  }

  /** The neighbours of the gap before position `k`: the member before it
      and the member at it, 0 past either end. */
  function Before(c: seq<nat>, k: nat): nat
    requires k <= |c|
  {
    if k > 0 then c[k - 1] else 0
  }

  function At(c: seq<nat>, k: nat): nat
    requires k <= |c|
  {
    if k < |c| then c[k] else 0
  }

  ghost predicate NonNull(c: seq<nat>)
  {
    forall i | 0 <= i < |c| :: c[i] != 0
  }

  /** Splicing the linked run `d` into the gap before position `k`: the
      run's ends are pointed at the neighbours and the neighbours at the
      run, and nothing else changes. */
  lemma LinkedInsertRun(c: seq<nat>, e: Ends, nx: Links, pv: Links, k: nat, d: seq<nat>, e': Ends, nx': Links, pv': Links)
    requires Linked(c, e, nx, pv) && k <= |c| && d != [] && NonNull(c)
    requires RunLinked(d, nx', pv')
    requires nx'[d[|d| - 1]] == At(c, k) && pv'[d[0]] == Before(c, k)
    requires k > 0 ==> c[k - 1] in nx' && c[k - 1] in pv' && nx'[c[k - 1]] == d[0] && pv'[c[k - 1]] == pv[c[k - 1]]
    requires k < |c| ==> c[k] in nx' && c[k] in pv' && pv'[c[k]] == d[|d| - 1] && nx'[c[k]] == nx[c[k]]
    requires forall i | 0 <= i < |c| && i + 1 != k && i != k ::
      c[i] in nx' && c[i] in pv' && nx'[c[i]] == nx[c[i]] && pv'[c[i]] == pv[c[i]]
    requires e' == Ends(if k == 0 then d[0] else e.first, if k == |c| then d[|d| - 1] else e.last)
    ensures Linked(c[..k] + d + c[k..], e', nx', pv')
  {
    var r := c[..k] + d + c[k..];
    InsertRunIndex(c, k, d);
    forall i | 0 <= i < |r| ensures r[i] in nx' && r[i] in pv' {
    }
    forall i | 0 <= i < |r| - 1 ensures nx'[r[i]] == r[i + 1] && pv'[r[i + 1]] == r[i] {
      if i + 1 < k {
      } else if i + 1 == k {
      } else if i + 1 < k + |d| {
        assert nx'[d[i - k]] == d[i - k + 1];
      } else if i + 1 == k + |d| {
      } else {
      }
    }
  }

  /** Where the members of a spliced chain come from. */
  lemma InsertRunIndex(c: seq<nat>, k: nat, d: seq<nat>)
    requires k <= |c|
    ensures var r := c[..k] + d + c[k..];
      |r| == |c| + |d| &&
      (forall i | 0 <= i < k :: r[i] == c[i]) &&
      (forall i | k <= i < k + |d| :: r[i] == d[i - k]) &&
      (forall i | k + |d| <= i < |r| :: r[i] == c[i - |d|])
  {
  }

  /** Cutting the run from `i` to `j` out of `c`: its neighbours are
      pointed at each other and the ends move in where the run held one. */
  lemma LinkedCut(c: seq<nat>, e: Ends, nx: Links, pv: Links, i: nat, j: nat, e': Ends, nx': Links, pv': Links)
    requires Linked(c, e, nx, pv) && i <= j < |c| && NonNull(c)
    requires i > 0 ==> c[i - 1] in nx' && c[i - 1] in pv' && nx'[c[i - 1]] == At(c, j + 1) && pv'[c[i - 1]] == pv[c[i - 1]]
    requires j + 1 < |c| ==> c[j + 1] in nx' && c[j + 1] in pv' && pv'[c[j + 1]] == Before(c, i) && nx'[c[j + 1]] == nx[c[j + 1]]
    requires forall m | 0 <= m < |c| && m + 1 != i && m != j + 1 ::
      c[m] in nx' && c[m] in pv' && nx'[c[m]] == nx[c[m]] && pv'[c[m]] == pv[c[m]]
    requires e' == Ends(if i == 0 then At(c, j + 1) else e.first, if j + 1 == |c| then Before(c, i) else e.last)
    ensures Linked(c[..i] + c[j + 1..], e', nx', pv')
    ensures RunLinked(c[i..j + 1], nx', pv')
  {
    var r := c[..i] + c[j + 1..];
    var w := j + 1 - i;
    assert |r| == |c| - w;
    assert forall m | 0 <= m < i :: r[m] == c[m];
    assert forall m | i <= m < |r| :: r[m] == c[m + w];
    forall m | 0 <= m < |r| - 1 ensures nx'[r[m]] == r[m + 1] && pv'[r[m + 1]] == r[m] {
      if m + 1 < i {
      } else if m + 1 == i {
      } else {
      }
    }
    CutRun(c, e, nx, pv, i, j, nx', pv');
  }

  /** The run that was cut out keeps its internal links. */
  lemma CutRun(c: seq<nat>, e: Ends, nx: Links, pv: Links, i: nat, j: nat, nx': Links, pv': Links)
    requires Linked(c, e, nx, pv) && i <= j < |c|
    requires forall m | 0 <= m < |c| && m + 1 != i && m != j + 1 ::
      c[m] in nx' && c[m] in pv' && nx'[c[m]] == nx[c[m]] && pv'[c[m]] == pv[c[m]]
    ensures RunLinked(c[i..j + 1], nx', pv')
  {
    var d := c[i..j + 1];
    forall t | 0 <= t < |d| - 1 ensures nx'[d[t]] == d[t + 1] && pv'[d[t + 1]] == d[t] {
      assert d[t] == c[i + t] && d[t + 1] == c[i + t + 1];
    }
  }

  /** delete_insns_since: the chain ends at position `k`. */
  lemma LinkedTruncate(c: seq<nat>, e: Ends, nx: Links, pv: Links, k: nat, nx': Links)
    requires Linked(c, e, nx, pv) && k < |c|
    requires c[k] in nx' && nx'[c[k]] == 0
    requires forall m | 0 <= m < k :: c[m] in nx' && nx'[c[m]] == nx[c[m]]
    ensures Linked(c[..k + 1], Ends(e.first, c[k]), nx', pv)
  {
    var r := c[..k + 1];
    assert forall m | 0 <= m < |r| :: r[m] == c[m];
  }

  ghost predicate DisjointFrom(c: seq<nat>, d: seq<nat>)
  {
    forall i, t | 0 <= i < |c| && 0 <= t < |d| :: c[i] != d[t]
  }

  lemma InsertDistinct(c: seq<nat>, k: nat, d: seq<nat>)
    requires k <= |c| && Distinct(c) && Distinct(d) && DisjointFrom(c, d)
    ensures Distinct(c[..k] + d + c[k..])
  {
    var r := c[..k] + d + c[k..];
    InsertRunIndex(c, k, d);
    forall x, y | 0 <= x < y < |r| ensures r[x] != r[y] {
      if y < k {
      } else if x < k && y < k + |d| {
        assert r[x] == c[x] && r[y] == d[y - k];
      } else if x < k {
      } else if y < k + |d| {
      } else if x < k + |d| {
        assert r[x] == d[x - k] && r[y] == c[y - |d|];
      } else {
      }
    }
  }

  lemma CutDistinct(c: seq<nat>, i: nat, j: nat)
    requires Distinct(c) && i <= j < |c|
    ensures Distinct(c[..i] + c[j + 1..]) && Distinct(c[i..j + 1])
    ensures DisjointFrom(c[..i] + c[j + 1..], c[i..j + 1])
  {
    var r := c[..i] + c[j + 1..];
    var w := j + 1 - i;
    assert forall m | 0 <= m < i :: r[m] == c[m];
    assert forall m | i <= m < |r| :: r[m] == c[m + w];
    var d := c[i..j + 1];
    assert forall t | 0 <= t < |d| :: d[t] == c[i + t];
  }

  /** reorder_insns: the run from `i` to `j` moved to just after position
      `k`, which lies outside it. */
  function Moved(c: seq<nat>, i: nat, j: nat, k: nat): seq<nat>
    requires i <= j < |c| && k < |c| && (k < i || j < k)
  {
    if k < i then c[..k + 1] + c[i..j + 1] + c[k + 1..i] + c[j + 1..]
    else c[..i] + c[j + 1..k + 1] + c[i..j + 1] + c[k + 1..]
  }

  /** Where the run lands once it is cut out: the gap after `k` in the
      remaining chain. */
  function Landing(i: nat, j: nat, k: nat): nat
    requires i <= j && (k < i || j < k)
  {
    if k < i then k + 1 else k + 1 - (j + 1 - i)
  }

  /** Moving is cutting the run out and splicing it in after `k`. */
  lemma MovedIsSplice(c: seq<nat>, i: nat, j: nat, k: nat)
    requires i <= j < |c| && k < |c| && (k < i || j < k)
    ensures var r, g := c[..i] + c[j + 1..], Landing(i, j, k);
      g <= |r| && Moved(c, i, j, k) == r[..g] + c[i..j + 1] + r[g..]
  {
    var r, g := c[..i] + c[j + 1..], Landing(i, j, k);
    if k < i {
      assert r[..g] == c[..k + 1];
      assert r[g..] == c[k + 1..i] + c[j + 1..];
    } else {
      assert r[..g] == c[..i] + c[j + 1..k + 1];
      assert r[g..] == c[k + 1..];
    }
  }

  /** What reorder_insns promises: the run follows the instruction at `k`
      directly and in its own order, and the other instructions keep
      their order. */
  lemma MovedOrder(c: seq<nat>, i: nat, j: nat, k: nat)
    requires i <= j < |c| && k < |c| && (k < i || j < k)
    ensures var m, g, w := Moved(c, i, j, k), Landing(i, j, k), j + 1 - i;
      |m| == |c| && 0 < g && g + w <= |m| &&
      m[g - 1] == c[k] && m[g..g + w] == c[i..j + 1] && m[..g] + m[g + w..] == c[..i] + c[j + 1..]
  {
    var r, g := c[..i] + c[j + 1..], Landing(i, j, k);
    MovedIsSplice(c, i, j, k);
    SpliceParts(r, g, c[i..j + 1]);
    assert r[g - 1] == c[k];
  }

  lemma SpliceParts(r: seq<nat>, g: nat, d: seq<nat>)
    requires g <= |r|
    ensures var m := r[..g] + d + r[g..];
      m[..g] == r[..g] && m[g..g + |d|] == d && m[..g] + m[g + |d|..] == r
  {
    var m := r[..g] + d + r[g..];
    assert m[..g] == r[..g];
    assert m[g..g + |d|] == d;
    assert m[g + |d|..] == r[g..];
    assert r[..g] + r[g..] == r;
  }

  /** ... and nothing is lost or repeated. */
  lemma MovedPermutes(c: seq<nat>, i: nat, j: nat, k: nat)
    requires i <= j < |c| && k < |c| && (k < i || j < k)
    ensures multiset(Moved(c, i, j, k)) == multiset(c)
  {
    var r, g := c[..i] + c[j + 1..], Landing(i, j, k);
    MovedIsSplice(c, i, j, k);
    SpliceMultiset(r, g, c[i..j + 1]);
    CutMultiset(c, i, j);
  }

  lemma SpliceMultiset(r: seq<nat>, g: nat, d: seq<nat>)
    requires g <= |r|
    ensures multiset(r[..g] + d + r[g..]) == multiset(r) + multiset(d)
  {
    assert r == r[..g] + r[g..];
  }

  lemma CutMultiset(c: seq<nat>, i: nat, j: nat)
    requires i <= j < |c|
    ensures multiset(c) == multiset(c[..i] + c[j + 1..]) + multiset(c[i..j + 1])
  {
    assert c == c[..i] + c[i..j + 1] + c[j + 1..];
  }

  lemma SnocAsInsert(c: seq<nat>, h: nat)
    ensures c[..|c|] + [h] + c[|c|..] == c + [h]
  {
    assert c[..|c|] == c && c[|c|..] == [];
  }

  lemma SetLast<T>(s: seq<T>, x: T, y: T)
    ensures (s + [x])[|s| := y] == s + [y]
  {
  }
  lemma SetInner<T>(s: seq<T>, x: T, k: nat, y: T)
    requires k < |s|
    ensures (s + [x])[k := y] == s[k := y] + [x]
  {
  }

  lemma DropLast<T>(s: seq<T>, x: T)
    requires |s| > 0
    ensures s[..|s| - 1] + [s[|s| - 1]] == s && (s + [x])[..|s|] == s
  {
  }

  /** Walking a linked chain forward: NEXT_INSN of the member at `m` is
      the member at `m + 1`, or null past the end. */
  lemma LinkedNext(c: seq<nat>, e: Ends, nx: Links, pv: Links, m: nat)
    requires Linked(c, e, nx, pv) && m < |c|
    ensures c[m] in nx && nx[c[m]] == At(c, m + 1)
  {
  }

  /** Walking backward: PREV_INSN of the member at `m` is the member
      before it, or null at the front. */
  lemma LinkedPrev(c: seq<nat>, e: Ends, nx: Links, pv: Links, m: nat)
    requires Linked(c, e, nx, pv) && m < |c|
    ensures c[m] in pv && pv[c[m]] == Before(c, m)
  {
  }
}
