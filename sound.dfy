/** The whole of the emitter's chain state as values: every chain linked
    between its ends, `loc` placing every member, members allocated below
    `bound`. Each lemma here is one kind of pointer surgery of emit-rtl.c
    and shows it takes a sound state to a sound state. */
module ChainSound {
  import opened InsnChain

  ghost predicate Sound(chains: seq<seq<nat>>, ends: seq<Ends>, nx: Links, pv: Links, loc: Loc, bound: nat)
  {
    ChainsLinked(chains, ends, nx, pv) && Located(chains, loc) && Bounded(loc, bound) && Allocated(nx, pv, bound)
  }

  /** Every handle on a chain is allocated and not null. */
  ghost predicate Bounded(loc: Loc, bound: nat)
  {
    forall h | h in loc :: 0 < h < bound
  }

  /** Every allocated handle has its two link fields. */
  ghost predicate Allocated(nx: Links, pv: Links, bound: nat)
  {
    forall h | 0 < h < bound :: h in nx && h in pv
  }

  /** Allocated handles that are on no chain. */
  ghost predicate Detached(d: seq<nat>, loc: Loc, bound: nat)
  {
    forall t | 0 <= t < |d| :: 0 < d[t] < bound && d[t] !in loc
  }

  lemma SoundChain(chains: seq<seq<nat>>, ends: seq<Ends>, nx: Links, pv: Links, loc: Loc, bound: nat, a: nat)
    requires Sound(chains, ends, nx, pv, loc, bound) && a < |chains|
    ensures NonNull(chains[a]) && Distinct(chains[a]) && Linked(chains[a], ends[a], nx, pv)
    ensures forall t | 0 <= t < |chains[a]| :: chains[a][t] in loc && loc[chains[a][t]] == (a, t) && chains[a][t] < bound
  {
    LocatedDistinct(chains, loc, a);
  }

  /** An end of a chain that is not null is that chain's first or last member. */
  lemma EndOnChain(chains: seq<seq<nat>>, ends: seq<Ends>, nx: Links, pv: Links, loc: Loc, bound: nat, b: nat)
    requires Sound(chains, ends, nx, pv, loc, bound) && b < |chains|
    ensures ends[b].first != 0 ==> chains[b] != [] && loc[ends[b].first] == (b, 0)
    ensures ends[b].last != 0 ==> chains[b] != [] && loc[ends[b].last] == (b, |chains[b]| - 1)
  {
    assert Linked(chains[b], ends[b], nx, pv);
    if chains[b] != [] {
      assert loc[chains[b][0]] == (b, 0);
      assert loc[chains[b][|chains[b]| - 1]] == (b, |chains[b]| - 1);
    }
  }

  /** A member whose NEXT_INSN is null is the last one of its chain. */
  lemma NullNextIsLast(chains: seq<seq<nat>>, ends: seq<Ends>, nx: Links, pv: Links, loc: Loc, bound: nat, h: nat)
    requires Sound(chains, ends, nx, pv, loc, bound) && h in loc
    ensures var (a, k) := loc[h]; (nx[h] == 0 <==> k + 1 == |chains[a]|) && (pv[h] == 0 <==> k == 0)
    ensures var (a, k) := loc[h]; (nx[h] != 0 ==> k + 1 < |chains[a]| && nx[h] == chains[a][k + 1])
    ensures var (a, k) := loc[h]; (pv[h] != 0 ==> k > 0 && pv[h] == chains[a][k - 1])
    ensures var (a, k) := loc[h]; k + 1 == |chains[a]| ==> ends[a].last == h
    ensures var (a, k) := loc[h]; k == 0 ==> ends[a].first == h
  {
    var (a, k) := loc[h];
    SoundChain(chains, ends, nx, pv, loc, bound, a);
    var c := chains[a];
    assert c[k] == h;
    if k + 1 < |c| {
      assert nx[h] == c[k + 1] && c[k + 1] != 0;
    } else {
      assert nx[c[|c| - 1]] == 0 && ends[a].last == h;
    }
    if k > 0 {
      assert pv[c[k]] == c[k - 1] && c[k - 1] != 0;
    } else {
      assert pv[c[0]] == 0 && ends[a].first == h;
    }
  }

  /** Splicing the detached, internally linked run `d` into chain `a`
      before position `k`. */
  lemma InsertSound(chains: seq<seq<nat>>, ends: seq<Ends>, nx: Links, pv: Links, loc: Loc, bound: nat,
                    a: nat, k: nat, d: seq<nat>, e': Ends, nx': Links, pv': Links)
    requires Sound(chains, ends, nx, pv, loc, bound) && a < |chains| && k <= |chains[a]|
    requires d != [] && Distinct(d) && Detached(d, loc, bound)
    requires Allocated(nx', pv', bound)
    requires RunLinked(d, nx', pv')
    requires nx'[d[|d| - 1]] == At(chains[a], k) && pv'[d[0]] == Before(chains[a], k)
    requires k > 0 ==> nx'[chains[a][k - 1]] == d[0] && pv'[chains[a][k - 1]] == pv[chains[a][k - 1]]
    requires k < |chains[a]| ==> pv'[chains[a][k]] == d[|d| - 1] && nx'[chains[a][k]] == nx[chains[a][k]]
    requires forall h | h in loc && (loc[h].0 != a || (loc[h].1 + 1 != k && loc[h].1 != k)) :: nx'[h] == nx[h] && pv'[h] == pv[h]
    requires e' == Ends(if k == 0 then d[0] else ends[a].first, if k == |chains[a]| then d[|d| - 1] else ends[a].last)
    ensures var c' := chains[a][..k] + d + chains[a][k..];
      Distinct(c') && Sound(chains[a := c'], ends[a := e'], nx', pv', Relocate(loc, a, c'), bound)
  {
    SoundChain(chains, ends, nx, pv, loc, bound, a);
    InsertLinks(chains, ends, nx, pv, loc, bound, a, k, d, e', nx', pv');
    InsertPlaces(chains, loc, bound, a, k, d);
  }

  lemma InsertLinks(chains: seq<seq<nat>>, ends: seq<Ends>, nx: Links, pv: Links, loc: Loc, bound: nat,
                    a: nat, k: nat, d: seq<nat>, e': Ends, nx': Links, pv': Links)
    requires ChainsLinked(chains, ends, nx, pv) && Located(chains, loc) && Bounded(loc, bound)
    requires a < |chains| && k <= |chains[a]| && NonNull(chains[a]) && d != []
    requires Allocated(nx', pv', bound)
    requires RunLinked(d, nx', pv')
    requires nx'[d[|d| - 1]] == At(chains[a], k) && pv'[d[0]] == Before(chains[a], k)
    requires k > 0 ==> nx'[chains[a][k - 1]] == d[0] && pv'[chains[a][k - 1]] == pv[chains[a][k - 1]]
    requires k < |chains[a]| ==> pv'[chains[a][k]] == d[|d| - 1] && nx'[chains[a][k]] == nx[chains[a][k]]
    requires forall h | h in loc && (loc[h].0 != a || (loc[h].1 + 1 != k && loc[h].1 != k)) :: nx'[h] == nx[h] && pv'[h] == pv[h]
    requires e' == Ends(if k == 0 then d[0] else ends[a].first, if k == |chains[a]| then d[|d| - 1] else ends[a].last)
    ensures ChainsLinked(chains[a := chains[a][..k] + d + chains[a][k..]], ends[a := e'], nx', pv')
  {
    var c := chains[a];
    forall i | 0 <= i < |c| && i + 1 != k && i != k
      ensures c[i] in nx' && c[i] in pv' && nx'[c[i]] == nx[c[i]] && pv'[c[i]] == pv[c[i]]
    {
      assert loc[c[i]] == (a, i);
    }
    LinkedInsertRun(c, ends[a], nx, pv, k, d, e', nx', pv');
    ChainsUpdate(chains, ends, nx, pv, loc, a, c[..k] + d + c[k..], e', nx', pv');
  }

  lemma InsertPlaces(chains: seq<seq<nat>>, loc: Loc, bound: nat, a: nat, k: nat, d: seq<nat>)
    requires Located(chains, loc) && Bounded(loc, bound) && a < |chains| && k <= |chains[a]|
    requires Distinct(chains[a]) && Distinct(d) && Detached(d, loc, bound)
    ensures var c' := chains[a][..k] + d + chains[a][k..];
      Distinct(c') && Located(chains[a := c'], Relocate(loc, a, c')) && Bounded(Relocate(loc, a, c'), bound)
  {
    var c := chains[a];
    var c' := c[..k] + d + c[k..];
    assert DisjointFrom(c, d) by {
      forall i, t | 0 <= i < |c| && 0 <= t < |d| ensures c[i] != d[t] {
        assert c[i] in loc;
      }
    }
    InsertDistinct(c, k, d);
    InsertRunIndex(c, k, d);
    forall i | 0 <= i < |c'| ensures (c'[i] !in loc || loc[c'[i]].0 == a) && 0 < c'[i] < bound {
      if i < k || i >= k + |d| {
        assert loc[c[if i < k then i else i - |d|]] == (a, if i < k then i else i - |d|);
      } else {
        assert c'[i] == d[i - k];
      }
    }
    RelocateOk(chains, loc, a, c');
    RelocateBounded(loc, bound, a, c');
  }

  /** Relocating to a chain of allocated handles keeps every place allocated. */
  lemma RelocateBounded(loc: Loc, bound: nat, a: nat, c: seq<nat>)
    requires Bounded(loc, bound) && Distinct(c) && forall i | 0 <= i < |c| :: 0 < c[i] < bound
    ensures Bounded(Relocate(loc, a, c), bound)
  {
    forall h | h in Relocate(loc, a, c) ensures 0 < h < bound {
      if h !in loc {
        var i :| 0 <= i < |c| && c[i] == h;
      }
    }
  }

  /** Cutting the run from position `i` to `j` out of chain `a`: the run
      becomes detached and keeps its internal links. */
  lemma CutSound(chains: seq<seq<nat>>, ends: seq<Ends>, nx: Links, pv: Links, loc: Loc, bound: nat,
                 a: nat, i: nat, j: nat, e': Ends, nx': Links, pv': Links)
    requires Sound(chains, ends, nx, pv, loc, bound) && a < |chains| && i <= j < |chains[a]|
    requires Allocated(nx', pv', bound)
    requires i > 0 ==> nx'[chains[a][i - 1]] == At(chains[a], j + 1) && pv'[chains[a][i - 1]] == pv[chains[a][i - 1]]
    requires j + 1 < |chains[a]| ==> pv'[chains[a][j + 1]] == Before(chains[a], i) && nx'[chains[a][j + 1]] == nx[chains[a][j + 1]]
    requires forall h | h in loc && (loc[h].0 != a || (loc[h].1 + 1 != i && loc[h].1 != j + 1)) :: nx'[h] == nx[h] && pv'[h] == pv[h]
    requires e' == Ends(if i == 0 then At(chains[a], j + 1) else ends[a].first, if j + 1 == |chains[a]| then Before(chains[a], i) else ends[a].last)
    ensures var r := chains[a][..i] + chains[a][j + 1..];
      Distinct(r) && Sound(chains[a := r], ends[a := e'], nx', pv', Relocate(loc, a, r), bound)
    ensures var r, d := chains[a][..i] + chains[a][j + 1..], chains[a][i..j + 1];
      d != [] && Distinct(d) && Detached(d, Relocate(loc, a, r), bound) && RunLinked(d, nx', pv')
  {
    SoundChain(chains, ends, nx, pv, loc, bound, a);
    CutLinks(chains, ends, nx, pv, loc, bound, a, i, j, e', nx', pv');
    CutPlaces(chains, loc, bound, a, i, j);
  }

  lemma CutLinks(chains: seq<seq<nat>>, ends: seq<Ends>, nx: Links, pv: Links, loc: Loc, bound: nat,
                 a: nat, i: nat, j: nat, e': Ends, nx': Links, pv': Links)
    requires ChainsLinked(chains, ends, nx, pv) && Located(chains, loc) && Bounded(loc, bound)
    requires a < |chains| && i <= j < |chains[a]| && NonNull(chains[a])
    requires Allocated(nx', pv', bound)
    requires i > 0 ==> nx'[chains[a][i - 1]] == At(chains[a], j + 1) && pv'[chains[a][i - 1]] == pv[chains[a][i - 1]]
    requires j + 1 < |chains[a]| ==> pv'[chains[a][j + 1]] == Before(chains[a], i) && nx'[chains[a][j + 1]] == nx[chains[a][j + 1]]
    requires forall h | h in loc && (loc[h].0 != a || (loc[h].1 + 1 != i && loc[h].1 != j + 1)) :: nx'[h] == nx[h] && pv'[h] == pv[h]
    requires e' == Ends(if i == 0 then At(chains[a], j + 1) else ends[a].first, if j + 1 == |chains[a]| then Before(chains[a], i) else ends[a].last)
    ensures ChainsLinked(chains[a := chains[a][..i] + chains[a][j + 1..]], ends[a := e'], nx', pv')
    ensures RunLinked(chains[a][i..j + 1], nx', pv')
  {
    var c := chains[a];
    forall m | 0 <= m < |c| && m + 1 != i && m != j + 1
      ensures c[m] in nx' && c[m] in pv' && nx'[c[m]] == nx[c[m]] && pv'[c[m]] == pv[c[m]]
    {
      assert loc[c[m]] == (a, m);
    }
    LinkedCut(c, ends[a], nx, pv, i, j, e', nx', pv');
    ChainsUpdate(chains, ends, nx, pv, loc, a, c[..i] + c[j + 1..], e', nx', pv');
  }

  lemma CutPlaces(chains: seq<seq<nat>>, loc: Loc, bound: nat, a: nat, i: nat, j: nat)
    requires Located(chains, loc) && Bounded(loc, bound) && a < |chains| && i <= j < |chains[a]|
    requires Distinct(chains[a])
    ensures var r, d := chains[a][..i] + chains[a][j + 1..], chains[a][i..j + 1];
      Distinct(r) && Located(chains[a := r], Relocate(loc, a, r)) && Bounded(Relocate(loc, a, r), bound) &&
      d != [] && Distinct(d) && Detached(d, Relocate(loc, a, r), bound)
  {
    var c := chains[a];
    var r, d := c[..i] + c[j + 1..], c[i..j + 1];
    CutDistinct(c, i, j);
    CutIndex(c, i, j);
    forall m | 0 <= m < |r| ensures r[m] in loc && loc[r[m]].0 == a {
      assert loc[c[if m < i then m else m + |d|]] == (a, if m < i then m else m + |d|);
    }
    RelocateOk(chains, loc, a, r);
    var loc' := Relocate(loc, a, r);
    forall t | 0 <= t < |d| ensures 0 < d[t] < bound && d[t] !in loc' {
      assert d[t] == c[i + t] && loc[d[t]].0 == a;
      assert forall m | 0 <= m < |r| :: r[m] != d[t];
    }
  }

  /** Where the members of a chain with a run cut out come from. */
  lemma CutIndex(c: seq<nat>, i: nat, j: nat)
    requires i <= j < |c|
    ensures var r, d := c[..i] + c[j + 1..], c[i..j + 1];
      |r| == |c| - |d| && |d| == j + 1 - i &&
      (forall m | 0 <= m < i :: r[m] == c[m]) &&
      (forall m | i <= m < |r| :: r[m] == c[m + |d|]) &&
      (forall t | 0 <= t < |d| :: d[t] == c[i + t])
  {
  }

  /** delete_insns_since: chain `a` keeps its first `n` members. */
  lemma TruncateSound(chains: seq<seq<nat>>, ends: seq<Ends>, nx: Links, pv: Links, loc: Loc, bound: nat,
                      a: nat, n: nat)
    requires Sound(chains, ends, nx, pv, loc, bound) && a < |chains| && n <= |chains[a]|
    ensures var nx', e' := (if n > 0 then Link(nx, chains[a][n - 1], 0) else nx),
                           Ends(if n > 0 then ends[a].first else 0, Before(chains[a], n));
      Distinct(chains[a][..n]) &&
      Sound(chains[a := chains[a][..n]], ends[a := e'], nx', pv, Relocate(loc, a, chains[a][..n]), bound)
  {
    SoundChain(chains, ends, nx, pv, loc, bound, a);
    TruncateLinks(chains, ends, nx, pv, loc, bound, a, n);
    TruncatePlaces(chains, loc, bound, a, n);
  }

  lemma TruncateLinks(chains: seq<seq<nat>>, ends: seq<Ends>, nx: Links, pv: Links, loc: Loc, bound: nat,
                      a: nat, n: nat)
    requires ChainsLinked(chains, ends, nx, pv) && Located(chains, loc) && Bounded(loc, bound)
    requires Allocated(nx, pv, bound) && a < |chains| && n <= |chains[a]| && Distinct(chains[a])
    ensures var nx', e' := (if n > 0 then Link(nx, chains[a][n - 1], 0) else nx),
                           Ends(if n > 0 then ends[a].first else 0, Before(chains[a], n));
      ChainsLinked(chains[a := chains[a][..n]], ends[a := e'], nx', pv) && Allocated(nx', pv, bound)
  {
    var c := chains[a];
    var nx' := if n > 0 then Link(nx, c[n - 1], 0) else nx;
    var e' := Ends(if n > 0 then ends[a].first else 0, Before(c, n));
    assert Linked(c, ends[a], nx, pv);
    if n > 0 {
      forall m | 0 <= m < n - 1 ensures c[m] in nx' && nx'[c[m]] == nx[c[m]] {
      }
      LinkedTruncate(c, ends[a], nx, pv, n - 1, nx');
    }
    forall h | h in loc && loc[h].0 != a ensures h in nx' && h in pv && nx'[h] == nx[h] {
      if n > 0 {
        assert loc[c[n - 1]] == (a, n - 1);
      }
    }
    ChainsUpdate(chains, ends, nx, pv, loc, a, c[..n], e', nx', pv);
  }

  lemma TruncatePlaces(chains: seq<seq<nat>>, loc: Loc, bound: nat, a: nat, n: nat)
    requires Located(chains, loc) && Bounded(loc, bound) && a < |chains| && n <= |chains[a]| && Distinct(chains[a])
    ensures var r := chains[a][..n];
      Distinct(r) && Located(chains[a := r], Relocate(loc, a, r)) && Bounded(Relocate(loc, a, r), bound)
  {
    var c := chains[a];
    assert forall m | 0 <= m < n :: c[..n][m] == c[m];
    forall m | 0 <= m < n ensures c[m] in loc && loc[c[m]].0 == a {
      assert loc[c[m]] == (a, m);
    }
    RelocateOk(chains, loc, a, c[..n]);
  }

  /** start_sequence and push_to_sequence: a new current chain `d`, made
      of detached members, joins the chains. */
  lemma PushSound(chains: seq<seq<nat>>, ends: seq<Ends>, nx: Links, pv: Links, loc: Loc, bound: nat,
                  d: seq<nat>, e: Ends)
    requires Sound(chains, ends, nx, pv, loc, bound)
    requires Linked(d, e, nx, pv) && Distinct(d) && Detached(d, loc, bound)
    ensures Sound(chains + [d], ends + [e], nx, pv, Relocate(loc, |chains|, d), bound)
  {
    PushLinks(chains, ends, nx, pv, d, e);
    PushPlaces(chains, loc, bound, d);
  }

  lemma PushLinks(chains: seq<seq<nat>>, ends: seq<Ends>, nx: Links, pv: Links, d: seq<nat>, e: Ends)
    requires ChainsLinked(chains, ends, nx, pv) && Linked(d, e, nx, pv)
    ensures ChainsLinked(chains + [d], ends + [e], nx, pv)
  {
    var ch, en := chains + [d], ends + [e];
    forall b | 0 <= b < |ch| ensures Linked(ch[b], en[b], nx, pv) {
      if b < |chains| {
        assert ch[b] == chains[b] && en[b] == ends[b];
      }
    }
  }

  lemma PushPlaces(chains: seq<seq<nat>>, loc: Loc, bound: nat, d: seq<nat>)
    requires Located(chains, loc) && Bounded(loc, bound) && Distinct(d) && Detached(d, loc, bound)
    ensures Located(chains + [d], Relocate(loc, |chains|, d)) && Bounded(Relocate(loc, |chains|, d), bound)
  {
    var ext := chains + [[]];
    assert Located(ext, loc) by {
      forall h | h in loc ensures loc[h].0 < |ext| && loc[h].1 < |ext[loc[h].0]| && ext[loc[h].0][loc[h].1] == h {
        assert ext[loc[h].0] == chains[loc[h].0];
      }
      forall b, i | 0 <= b < |ext| && 0 <= i < |ext[b]| ensures ext[b][i] in loc && loc[ext[b][i]] == (b, i) {
        assert ext[b] == chains[b];
      }
    }
    RelocateOk(ext, loc, |chains|, d);
    assert ext[|chains| := d] == chains + [d];
  }

  /** end_sequence: the current chain, the last one, is dropped. */
  lemma PopSound(chains: seq<seq<nat>>, ends: seq<Ends>, nx: Links, pv: Links, loc: Loc, bound: nat)
    requires Sound(chains, ends, nx, pv, loc, bound) && |chains| > 0
    ensures var n := |chains| - 1;
      Sound(chains[..n], ends[..n], nx, pv, map h | h in loc && loc[h].0 < n :: loc[h], bound)
  {
    var n := |chains| - 1;
    var ch, loc' := chains[..n], map h | h in loc && loc[h].0 < n :: loc[h];
    forall b | 0 <= b < n ensures Linked(ch[b], ends[..n][b], nx, pv) {
      assert Linked(chains[b], ends[b], nx, pv);
    }
    forall b, i | 0 <= b < |ch| && 0 <= i < |ch[b]| ensures ch[b][i] in loc' && loc'[ch[b][i]] == (b, i) {
      assert loc[chains[b][i]] == (b, i);
    }
  }

  /** rtx_alloc: a new handle `bound` with null links joins no chain. */
  lemma AllocSound(chains: seq<seq<nat>>, ends: seq<Ends>, nx: Links, pv: Links, loc: Loc, bound: nat)
    requires Sound(chains, ends, nx, pv, loc, bound)
    ensures Sound(chains, ends, Link(nx, bound, 0), Link(pv, bound, 0), loc, bound + 1)
  {
    forall b | 0 <= b < |chains| ensures Linked(chains[b], ends[b], Link(nx, bound, 0), Link(pv, bound, 0)) {
      SoundChain(chains, ends, nx, pv, loc, bound, b);
      LinkedFrame(chains[b], ends[b], nx, pv, Link(nx, bound, 0), Link(pv, bound, 0));
    }
  }
}
