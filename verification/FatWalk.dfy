/**
 Going along a cluster chain with read_fat, and past its end with alloc_clus and write_fat
 (reloc_clus in kernel/fat32.c): which cluster comes next, what the table and the sector cache are
 afterwards, and where a stale cell sends the walk to cluster 0.
 */
module FatWalk {
  import opened Common
  import opened FatCache

  // ---------------------------------------------------------------- the clusters a walk will take

  /** The m lowest free cells from lo up to hi, or as many as there are. */
  function Frees(fat: seq<nat>, lo: nat, hi: nat, m: nat): (r: seq<nat>)
    requires hi <= |fat|
    ensures |r| <= m
    ensures forall i :: 0 <= i < |r| ==> lo <= r[i] < hi && fat[r[i]] == 0
    ensures forall i, j :: 0 <= i < j < |r| ==> r[i] < r[j]
    ensures forall c :: lo <= c < hi && fat[c] == 0 && c !in r ==> |r| == m && forall i :: 0 <= i < |r| ==> r[i] < c
    decreases hi - lo
  {
    if m == 0 || lo >= hi then []
    else if fat[lo] == 0 then [lo] + Frees(fat, lo + 1, hi, m - 1)
    else Frees(fat, lo + 1, hi, m)
  }

  /** The chain with the lowest free clusters hung on until it reaches cluster number `to`, or as far as they go. */
  function Plan(g: Layout, fat: seq<nat>, chain: seq<nat>, to: nat): seq<nat>
    requires g.clusters + 1 < |fat|
  {
    chain + Frees(fat, 2, g.clusters + 2, if |chain| <= to then to + 1 - |chain| else 0)
  }

  /** The table once the clusters of q from number n up to i are hung on. */
  function GrownTo(fat: seq<nat>, q: seq<nat>, n: nat, i: int): (r: seq<nat>)
    requires i < |q| && forall k :: 0 <= k < |q| ==> q[k] < |fat|
    ensures |r| == |fat|
    decreases i
  {
    if i < n then fat
    else
      var f := GrownTo(fat, q, n, i - 1);
      if i == 0 then f[q[0] := CLAIM] else f[q[i] := CLAIM][q[i - 1] := q[i]]
  }

  /** Hanging clusters on takes exactly them from the free ones. */
  lemma {:induction false} GrownZeros(fat: seq<nat>, q: seq<nat>, n: nat, i: int, c: nat)
    requires i < |q| && n <= i + 1 && (forall k :: 0 <= k < |q| ==> 0 < q[k] < |fat|) && c < |fat|
    requires forall k :: 0 <= k < n ==> fat[q[k]] != 0
    ensures GrownTo(fat, q, n, i)[c] == 0 <==> fat[c] == 0 && c !in q[n..i + 1]
  {
    if i >= n {
      GrownZeros(fat, q, n, i - 1, c);
      assert q[n..i + 1] == q[n..i] + [q[i]];
      if i > 0 && c == q[i - 1] {
        assert i - 1 >= n ==> q[n..i][i - 1 - n] == c;
      }
    }
  }

  /** With t of the lowest free cells taken the lowest one left is the next of them. */
  lemma LowestLeft(fat: seq<nat>, lo: nat, hi: nat, m: nat, t: nat, c: nat)
    requires hi <= |fat| && t <= |Frees(fat, lo, hi, m)| && t < m && lo <= c < hi
    requires var r := Frees(fat, lo, hi, m); fat[c] == 0 && c !in r[..t] && forall d :: lo <= d < c ==>
      fat[d] != 0 || d in r[..t]
    ensures t < |Frees(fat, lo, hi, m)| && Frees(fat, lo, hi, m)[t] == c
  {
    hide Frees;
    var r := Frees(fat, lo, hi, m);
    assert forall k :: 0 <= k < t ==> r[..t][k] == r[k];
    assert t < |r|;
    NotBefore(r, t);
  }

  lemma NotBefore(r: seq<nat>, t: nat)
    requires t < |r| && forall i, j :: 0 <= i < j < |r| ==> r[i] < r[j]
    ensures r[t] !in r[..t]
  {
  }

  lemma Planned(g: Layout, fat: seq<nat>, chain: seq<nat>, to: nat, i: int)
    requires g.clusters + 1 < |fat| && |chain| <= i + 1 <= |Plan(g, fat, chain, to)| && i < to
    ensures Plan(g, fat, chain, to)[|chain|..i + 1] ==
      Frees(fat, 2, g.clusters + 2, to + 1 - |chain|)[..i + 1 - |chain|]
    ensures |Plan(g, fat, chain, to)| == |chain| + |Frees(fat, 2, g.clusters + 2, to + 1 - |chain|)|
    ensures forall k :: |chain| <= k < |Plan(g, fat, chain, to)| ==>
      Plan(g, fat, chain, to)[k] == Frees(fat, 2, g.clusters + 2, to + 1 - |chain|)[k - |chain|]
  {
    hide Frees;
  }

  /** All planned clusters are data clusters, the added ones free and different from each other. */
  lemma PlanOk(g: Layout, fat: seq<nat>, chain: seq<nat>, to: nat)
    requires g.clusters + 1 < |fat| && forall k :: 0 <= k < |chain| ==>
      2 <= chain[k] < g.clusters + 2 && fat[chain[k]] != 0
    ensures var q := Plan(g, fat, chain, to);
      && chain <= q && (forall k :: 0 <= k < |q| ==> 2 <= q[k] < g.clusters + 2)
      && (forall k :: |chain| <= k < |q| ==> fat[q[k]] == 0)
      && |q| <= (if |chain| <= to then to + 1 else |chain|) && (to < |chain| ==> q == chain)
  {
    hide Frees;
  }

  /** The cells still free once the plan is carried out up to number i. */
  lemma PlanZeros(g: Layout, fat: seq<nat>, chain: seq<nat>, to: nat, i: int, d: nat)
    requires g.clusters + 1 < |fat| && |chain| <= i + 1 <= |Plan(g, fat, chain, to)| && i < to && d < g.clusters + 2
    requires forall k :: 0 <= k < |chain| ==> 2 <= chain[k] < g.clusters + 2 && fat[chain[k]] != 0
    requires forall k :: 0 <= k < |Plan(g, fat, chain, to)| ==> Plan(g, fat, chain, to)[k] < |fat|
    ensures GrownTo(fat, Plan(g, fat, chain, to), |chain|, i)[d] == 0 <==>
      fat[d] == 0 && d !in Frees(fat, 2, g.clusters + 2, to + 1 - |chain|)[..i + 1 - |chain|]
  {
    hide GrownTo, Frees, Plan;
    PlanOk(g, fat, chain, to);
    Planned(g, fat, chain, to, i);
    GrownZeros(fat, Plan(g, fat, chain, to), |chain|, i, d);
  }

  /** The lowest free cluster, if there is one, is the next one planned; otherwise the plan ends here. */
  lemma NextPlanned(g: Layout, fat: seq<nat>, chain: seq<nat>, to: nat, i: int, c: nat)
    requires g.clusters + 1 < |fat| && |chain| <= i + 1 <= |Plan(g, fat, chain, to)| && i < to
    requires forall k :: 0 <= k < |chain| ==> 2 <= chain[k] < g.clusters + 2 && fat[chain[k]] != 0
    requires forall k :: 0 <= k < |Plan(g, fat, chain, to)| ==> Plan(g, fat, chain, to)[k] < |fat|
    requires var f := GrownTo(fat, Plan(g, fat, chain, to), |chain|, i);
      2 <= c <= g.clusters + 2 && (forall d :: 2 <= d < c ==> f[d] != 0) && (c < g.clusters + 2 ==> f[c] == 0)
    ensures var q := Plan(g, fat, chain, to);
      if c < g.clusters + 2 then i + 1 < |q| && q[i + 1] == c else |q| == i + 1
  {
    hide GrownTo, Frees, Plan;
    var r, t := Frees(fat, 2, g.clusters + 2, to + 1 - |chain|), i + 1 - |chain|;
    Planned(g, fat, chain, to, i);
    if c < g.clusters + 2 {
      forall d | 2 <= d < c ensures fat[d] != 0 || d in r[..t] {
        PlanZeros(g, fat, chain, to, i, d);
      }
      PlanZeros(g, fat, chain, to, i, c);
      LowestLeft(fat, 2, g.clusters + 2, to + 1 - |chain|, t, c);
    } else if t < |r| {
      NotBefore(r, t);
      PlanZeros(g, fat, chain, to, i, r[t]);
    }
  }

  // ---------------------------------------------------------------- what the cache remembers along the way

  /** From cluster number i of q to the next: a read within the first n clusters, a read, claim and link behind them. */
  ghost function Stepped(g: Layout, m: Memory, q: seq<nat>, n: nat, i: nat): Memory
    requires i + 1 < |q|
  {
    var r := AfterRead(g, m, q[i]);
    if i + 1 < n then r else AfterWrite(g, AfterClaim(g, r, q[i + 1]), q[i])
  }

  ghost function WalkTo(g: Layout, m: Memory, q: seq<nat>, n: nat, j: nat, i: nat): Memory
    requires i < |q| || i <= j
  {
    if i <= j then m else Stepped(g, WalkTo(g, m, q, n, j, i - 1), q, n, i - 1)
  }

  /** A file without clusters first claims one. */
  ghost function Begun(g: Layout, m: Memory, q: seq<nat>, n: nat): Memory {
    if n == 0 && q != [] then AfterClaim(g, m, q[0]) else m
  }

  /** The walk from number j finds the cell of number i, the end of the chain at that time, stale. */
  ghost predicate Stale(g: Layout, m: Memory, q: seq<nat>, n: nat, j: nat, i: nat)
    requires j <= i < |q|
  {
    CellOf(g, q[i]) in WalkTo(g, Begun(g, m, q, n), q, n, j, i).claimed
  }

  /** The walk from j to `to` has to go past a stale end. */
  ghost predicate Stalls(g: Layout, m: Memory, q: seq<nat>, n: nat, j: nat, to: nat) {
    exists i :: j <= i < to && i < |q| && n <= i + 1 && Stale(g, m, q, n, j, i)
  }

  // ---------------------------------------------------------------- when a cell is stale

  ghost predicate Kept(m: Memory) {
    forall k :: k in m.claimed ==> k.sector in m.recent
  }

  /** The sectors cached after the cells of the clusters q were read one after the other. */
  ghost function ReadAll(g: Layout, u: seq<nat>, q: seq<nat>): seq<nat> {
    if q == [] then u else Use(ReadAll(g, u, q[..|q| - 1]), SectorOf(g.reserved, q[|q| - 1]))
  }

  /**
   Closed form, from the cached sectors and claims before the walk.  The old end is stale if it was
   claimed and its sector stays cached while the walk reads up to it.  A new end is stale if its
   sector is cached when it is claimed and is not the sector of its predecessor, which the link refreshes.
   */
  ghost predicate StaleByCache(g: Layout, m: Memory, q: seq<nat>, n: nat, j: nat, i: nat)
    requires j <= i < |q|
  {
    var s := SectorOf(g.reserved, q[i]);
    if i < n then CellOf(g, q[i]) in m.claimed && forall k :: j <= k <= i ==> s in ReadAll(g, m.recent, q[j..k])
    else (i == 0 || s != SectorOf(g.reserved, q[i - 1])) && s in ReadAll(g, m.recent, q[j..i])
  }

  lemma UseTwice(u: seq<nat>, s: nat)
    ensures Use(Use(u, s), s) == Use(u, s)
  {
  }

  lemma {:induction false} WalkRecent(g: Layout, m: Memory, q: seq<nat>, n: nat, j: nat, i: nat)
    requires j <= i < |q| && Kept(m)
    ensures var w := WalkTo(g, m, q, n, j, i); w.recent == ReadAll(g, m.recent, q[j..i]) && Kept(w)
  {
    hide Use;
    if i > j {
      WalkRecent(g, m, q, n, j, i - 1);
      assert q[j..i][..i - j - 1] == q[j..i - 1];
      var w := WalkTo(g, m, q, n, j, i - 1);
      UseTwice(w.recent, SectorOf(g.reserved, q[i - 1]));
    }
  }

  /** Within the old chain the walk only reads, so a claim lasts as long as its sector is cached. */
  lemma {:induction false} ClaimLasts(g: Layout, m: Memory, q: seq<nat>, n: nat, j: nat, i: nat, c: Cell)
    requires j <= i < n <= |q| && Kept(m)
    ensures c in WalkTo(g, m, q, n, j, i).claimed <==>
      c in m.claimed && forall k :: j <= k <= i ==> c.sector in ReadAll(g, m.recent, q[j..k])
  {
    hide Use, ReadAll;
    WalkRecent(g, m, q, n, j, i);
    if i > j {
      ClaimLasts(g, m, q, n, j, i - 1, c);
      WalkRecent(g, m, q, n, j, i - 1);
      NextRecent(g, m.recent, q, j, i);
    } else {
      NoneRead(g, m.recent, q, j);
    }
  }

  lemma NoneRead(g: Layout, u: seq<nat>, q: seq<nat>, j: nat)
    requires j <= |q|
    ensures ReadAll(g, u, q[j..j]) == u
  {
  }

  lemma NextRecent(g: Layout, u: seq<nat>, q: seq<nat>, j: nat, i: nat)
    requires j < i <= |q|
    ensures ReadAll(g, u, q[j..i]) == Use(ReadAll(g, u, q[j..i - 1]), SectorOf(g.reserved, q[i - 1]))
  {
    assert q[j..i][..i - j - 1] == q[j..i - 1];
  }

  /** Exactly when the walk finds the end of the chain stale. */
  lemma StaleExactly(g: Layout, m: Memory, q: seq<nat>, n: nat, j: nat, i: nat)
    requires j <= i < |q| && n <= i + 1 && Kept(m) && (n == 0 ==> j == 0) && (n > 0 ==> j < n)
    ensures Stale(g, m, q, n, j, i) <==> StaleByCache(g, m, q, n, j, i)
  {
    hide Use, ReadAll;
    var b := Begun(g, m, q, n);
    if i < n {
      ClaimLasts(g, m, q, n, j, i, CellOf(g, q[i]));
    } else if i == j {
      NoneRead(g, m.recent, q, j);
    } else {
      WalkRecent(g, b, q, n, j, i - 1);
      NextRecent(g, m.recent, q, j, i);
    }
  }
}
