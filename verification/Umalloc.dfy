/**
 The user-level storage allocator (xv6-user/umalloc.c): the circular, address-ordered, coalescing
 free list of section 8.7 of Kernighan and Ritchie, second edition.

 Headers are named by their byte address; a header is UNIT bytes and sizes count units, header
 included.  The ghost `list` is the circular list unrolled from the static header `base`, which
 lies below the heap; `live` lists the blocks the program holds.
 */
module Umalloc {
  import opened Common
  import opened Paging
  import P = PrivateMemory

  const UNIT: nat := 16

  type Ptrs = map<nat, nat>
  type Sizes = map<nat, nat>

  /** Element i of the circular list. */
  function Wrap(list: seq<nat>, i: nat): nat
    requires i <= |list| && list != []
  {
    if i < |list| then list[i] else list[0]
  }

  ghost predicate Chain(ptr: Ptrs, list: seq<nat>) {
    list != [] && forall i :: 0 <= i < |list| ==> list[i] in ptr && ptr[list[i]] == Wrap(list, i + 1)
  }

  function End(size: Sizes, a: nat): nat
    requires a in size
  {
    a + UNIT * size[a]
  }

  /** Address-ordered, disjoint, non-adjacent blocks below brk, starting with the empty base. */
  ghost predicate Ordered(base: nat, size: Sizes, list: seq<nat>, brk: nat) {
    && list != [] && list[0] == base
    && (forall i :: 0 <= i < |list| ==> list[i] in size && End(size, list[i]) <= brk)
    && (forall i :: 0 < i < |list| ==> size[list[i]] > 0 && base + UNIT <= list[i])
    && size[base] == 0
    && (forall i, j :: 0 <= i < j < |list| ==> End(size, list[i]) < list[j])
  }

  predicate Apart(size: Sizes, a: nat, b: nat)
    requires a in size && b in size
  {
    End(size, a) <= b || End(size, b) <= a
  }

  ghost predicate Held(base: nat, size: Sizes, live: seq<nat>, brk: nat) {
    && (forall k :: 0 <= k < |live| ==>
          live[k] in size && size[live[k]] > 0 && base + UNIT <= live[k] && End(size, live[k]) <= brk)
    && (forall k, l :: 0 <= k < l < |live| ==> Apart(size, live[k], live[l]))
  }

  ghost predicate Separate(size: Sizes, list: seq<nat>, live: seq<nat>) {
    && (forall i :: 0 <= i < |list| ==> list[i] in size)
    && (forall k :: 0 <= k < |live| ==> live[k] in size)
    && (forall i, k :: 0 <= i < |list| && 0 <= k < |live| ==> Apart(size, list[i], live[k]))
  }

  ghost function Units(size: Sizes, q: seq<nat>): nat
    requires forall i :: 0 <= i < |q| ==> q[i] in size
  {
    if q == [] then 0 else size[q[0]] + Units(size, q[1..])
  }

  ghost predicate Inv(base: nat, ptr: Ptrs, size: Sizes, list: seq<nat>, live: seq<nat>, brk: nat, obtained: nat) {
    && Chain(ptr, list)
    && Ordered(base, size, list, brk)
    && Held(base, size, live, brk)
    && Separate(size, list, live)
    && Units(size, list) + Units(size, live) == obtained
  }

  // ---------------------------------------------------------------- sums

  lemma {:induction false} UnitsJoin(size: Sizes, a: seq<nat>, b: seq<nat>)
    requires forall i :: 0 <= i < |a| ==> a[i] in size
    requires forall i :: 0 <= i < |b| ==> b[i] in size
    ensures Units(size, a + b) == Units(size, a) + Units(size, b)
  {
    if a == [] {
      assert a + b == b;
    } else {
      UnitsJoin(size, a[1..], b);
      assert (a + b)[1..] == a[1..] + b;
    }
  }

  lemma {:induction false} UnitsSame(size: Sizes, size': Sizes, q: seq<nat>)
    requires forall i :: 0 <= i < |q| ==> q[i] in size && q[i] in size' && size'[q[i]] == size[q[i]]
    ensures Units(size', q) == Units(size, q)
  {
    if q != [] {
      UnitsSame(size, size', q[1..]);
    }
  }

  lemma UnitsDrop(size: Sizes, q: seq<nat>, k: nat)
    requires k < |q| && forall i :: 0 <= i < |q| ==> q[i] in size
    ensures Units(size, q) == Units(size, Drop(q, k)) + size[q[k]]
  {
    assert q == q[..k] + ([q[k]] + q[k + 1..]);
    UnitsJoin(size, q[..k], [q[k]] + q[k + 1..]);
    UnitsJoin(size, [q[k]], q[k + 1..]);
    UnitsJoin(size, q[..k], q[k + 1..]);
  }

  // ---------------------------------------------------------------- free: the search

  /** Index of the last list block below address a. */
  ghost predicate Place(list: seq<nat>, a: nat, t: nat) {
    t < |list| && list[t] < a && (t + 1 < |list| ==> a < list[t + 1])
  }

  lemma {:induction false} PlaceExists(base: nat, size: Sizes, list: seq<nat>, brk: nat, a: nat, n: nat)
    returns (t: nat)
    requires Ordered(base, size, list, brk) && base < a && a !in list && 0 < n <= |list| && (n < |list| ==> a < list[n])
    ensures Place(list, a, t)
  {
    if list[n - 1] < a {
      t := n - 1;
    } else {
      assert list[n - 1] in list;
      t := PlaceExists(base, size, list, brk, a, n - 1);
    }
  }

  /** The loop of free stops at the place of bp and nowhere else. */
  lemma SearchStops(base: nat, ptr: Ptrs, size: Sizes, list: seq<nat>, brk: nat, bp: nat, t: nat, k: nat)
    requires Chain(ptr, list) && Ordered(base, size, list, brk) && base < bp && bp !in list && Place(list, bp, t)
    requires k < |list|
    ensures var p := list[k]; var q := ptr[p];
      (p < bp < q) || (p >= q && (bp > p || bp < q)) <==> k == t
  {
    assert list[k] in list;
    assert forall i, j :: 0 <= i < j < |list| ==> list[i] < list[j];
    if k + 1 < |list| { assert list[k + 1] in list; }
  }

  // ---------------------------------------------------------------- free: the result

  /** bp touches the following free block, and the preceding one. */
  predicate TouchesNext(size: Sizes, list: seq<nat>, bp: nat, t: nat)
    requires bp in size
  {
    t + 1 < |list| && End(size, bp) == list[t + 1]
  }

  predicate TouchesPrev(size: Sizes, list: seq<nat>, bp: nat, t: nat)
    requires t < |list| && list[t] in size
  {
    End(size, list[t]) == bp
  }

  ghost predicate CanFree(base: nat, size: Sizes, list: seq<nat>, live: seq<nat>, brk: nat, bp: nat, t: nat, k: nat) {
    && Ordered(base, size, list, brk) && Held(base, size, live, brk) && Separate(size, list, live)
    && k < |live| && live[k] == bp && Place(list, bp, t)
  }

  /** First list index after the freed block. */
  function Rest(size: Sizes, list: seq<nat>, bp: nat, t: nat): nat
    requires bp in size
  {
    if TouchesNext(size, list, bp, t) then t + 2 else t + 1
  }

  function SizesGrown(size: Sizes, list: seq<nat>, bp: nat, t: nat): Sizes
    requires bp in size && (t + 1 < |list| ==> list[t + 1] in size)
  {
    if TouchesNext(size, list, bp, t) then size[bp := size[bp] + size[list[t + 1]]] else size
  }

  function SizesFreed(size: Sizes, list: seq<nat>, bp: nat, t: nat): Sizes
    requires bp in size && t < |list| && list[t] in size && (t + 1 < |list| ==> list[t + 1] in size)
  {
    var s := SizesGrown(size, list, bp, t);
    if TouchesPrev(size, list, bp, t) then s[list[t] := s[list[t]] + s[bp]] else s
  }

  function ListFreed(size: Sizes, list: seq<nat>, bp: nat, t: nat): seq<nat>
    requires bp in size && t < |list| && list[t] in size
  {
    list[..t + 1] + (if TouchesPrev(size, list, bp, t) then [] else [bp]) + list[Rest(size, list, bp, t)..]
  }

  function PtrsFreed(ptr: Ptrs, size: Sizes, list: seq<nat>, bp: nat, t: nat): Ptrs
    requires bp in size && t < |list| && list[t] in size
  {
    var after := Wrap(list, Rest(size, list, bp, t));
    ptr[bp := after][list[t] := if TouchesPrev(size, list, bp, t) then after else bp]
  }

  lemma FreedDistinct(base: nat, size: Sizes, list: seq<nat>, live: seq<nat>, brk: nat, bp: nat, t: nat, k: nat)
    requires CanFree(base, size, list, live, brk, bp, t, k)
    ensures bp in size && bp !in list && size[bp] > 0 && base + UNIT <= bp
    ensures forall i :: 0 <= i < |list| ==> list[i] in size
    ensures forall i, j :: 0 <= i < |list| && 0 <= j < |list| && list[i] == list[j] ==> i == j
    ensures forall l :: 0 <= l < |live| ==> live[l] !in list && (l != k ==> live[l] != bp)
  {
    forall i | 0 <= i < |list| ensures list[i] != bp {
      assert Apart(size, list[i], live[k]);
    }
    forall l | 0 <= l < |live| ensures live[l] !in list && (l != k ==> live[l] != bp) {
      assert l < k ==> Apart(size, live[l], live[k]);
      assert k < l ==> Apart(size, live[k], live[l]);
      forall i | 0 <= i < |list| ensures list[i] != live[l] {
        assert Apart(size, list[i], live[l]);
      }
    }
  }

  /** A listed block is one that was listed before, or holds the freed block. */
  ghost predicate OldOrGrown(size: Sizes, list: seq<nat>, s: Sizes, a: nat, bp: nat)
    requires bp in size
  {
    a in s && ((a in list && a in size && s[a] == size[a]) || (a <= bp && End(s, a) >= End(size, bp)))
  }

  lemma FreedBlocks(base: nat, size: Sizes, list: seq<nat>, live: seq<nat>, brk: nat, bp: nat, t: nat, k: nat)
    requires CanFree(base, size, list, live, brk, bp, t, k)
    ensures bp in size && t < |list| && (forall i :: 0 <= i < |list| ==> list[i] in size)
    ensures var l, s := ListFreed(size, list, bp, t), SizesFreed(size, list, bp, t);
      forall i :: 0 <= i < |l| ==> OldOrGrown(size, list, s, l[i], bp)
  {
    FreedDistinct(base, size, list, live, brk, bp, t, k);
    var l, s := ListFreed(size, list, bp, t), SizesFreed(size, list, bp, t);
    forall i | 0 <= i < |l| ensures OldOrGrown(size, list, s, l[i], bp) {
      assert l[i] == list[t] || l[i] == bp || (l[i] in list && l[i] != list[t]);
    }
  }

  lemma FreedListed(base: nat, ptr: Ptrs, size: Sizes, list: seq<nat>, live: seq<nat>, brk: nat, obtained: nat, bp: nat,
                    t: nat, k: nat)
    requires Inv(base, ptr, size, list, live, brk, obtained) && k < |live| && live[k] == bp && Place(list, bp, t)
    ensures bp in size && t < |list| && (forall i :: 0 <= i < |list| ==> list[i] in size)
    ensures AllOldOrGrown(size, list, SizesFreed(size, list, bp, t), ListFreed(size, list, bp, t), bp)
  {
    FreedBlocks(base, size, list, live, brk, bp, t, k);
  }

  ghost predicate AllOldOrGrown(size: Sizes, list: seq<nat>, s: Sizes, l: seq<nat>, bp: nat) {
    bp in size && forall i :: 0 <= i < |l| ==> OldOrGrown(size, list, s, l[i], bp)
  }

  lemma ChainAt(ptr: Ptrs, list: seq<nat>, i: nat)
    requires Chain(ptr, list) && i < |list|
    ensures list[i] in ptr && ptr[list[i]] == Wrap(list, i + 1)
  {
  }

  lemma DistinctAt(list: seq<nat>, i: nat, j: nat)
    requires Distinct(list) && i < |list| && j < |list| && i != j
    ensures list[i] != list[j]
  {
  }

  lemma LinkedInAt(ptr: Ptrs, list: seq<nat>, bp: nat, t: nat, r: nat, i: nat)
    requires Chain(ptr, list) && Distinct(list) && bp !in list && t < r <= |list|
    requires i < |list[..t + 1] + [bp] + list[r..]|
    ensures var m, q := list[..t + 1] + [bp] + list[r..], ptr[bp := Wrap(list, r)][list[t] := bp];
      m[i] in q && q[m[i]] == Wrap(m, i + 1)
  {
    hide Chain, Distinct;
    var m := list[..t + 1] + [bp] + list[r..];
    if i < t {
      ChainAt(ptr, list, i);
      DistinctAt(list, i, t);
    } else if i > t + 1 {
      var j := i - (t + 2) + r;
      assert m[i] == list[j];
      ChainAt(ptr, list, j);
      DistinctAt(list, j, t);
    }
  }

  /** Linking bp in after index t and in front of index r, and skipping from t to r. */
  lemma LinkedIn(ptr: Ptrs, list: seq<nat>, bp: nat, t: nat, r: nat)
    requires Chain(ptr, list) && Distinct(list) && bp !in list && t < r <= |list|
    ensures Chain(ptr[bp := Wrap(list, r)][list[t] := bp], list[..t + 1] + [bp] + list[r..])
  {
    hide Distinct, Wrap;
    var m := list[..t + 1] + [bp] + list[r..];
    var q := ptr[bp := Wrap(list, r)][list[t] := bp];
    forall i | 0 <= i < |m| ensures m[i] in q && q[m[i]] == Wrap(m, i + 1) {
      LinkedInAt(ptr, list, bp, t, r, i);
    }
  }

  lemma LinkedOver(ptr: Ptrs, list: seq<nat>, t: nat, r: nat)
    requires Chain(ptr, list) && Distinct(list) && t < r <= |list|
    ensures Chain(ptr[list[t] := Wrap(list, r)], list[..t + 1] + list[r..])
  {
    var m := list[..t + 1] + list[r..];
    var q := ptr[list[t] := Wrap(list, r)];
    forall i | 0 <= i < |m| ensures m[i] in q && q[m[i]] == Wrap(m, i + 1) {
      if i < t {
        assert m[i] == list[i] && m[i + 1] == list[i + 1];
      } else if i > t {
        var j := i - (t + 1) + r;
        assert m[i] == list[j] && (i + 1 < |m| ==> m[i + 1] == list[j + 1]);
      }
    }
  }

  lemma ChainElsewhere(ptr: Ptrs, list: seq<nat>, bp: nat, x: nat)
    requires Chain(ptr, list) && bp !in list
    ensures Chain(ptr[bp := x], list)
  {
  }

  lemma FreedChain(base: nat, ptr: Ptrs, size: Sizes, list: seq<nat>, live: seq<nat>, brk: nat, bp: nat, t: nat, k: nat)
    requires Chain(ptr, list) && CanFree(base, size, list, live, brk, bp, t, k)
    ensures bp in size && Chain(PtrsFreed(ptr, size, list, bp, t), ListFreed(size, list, bp, t))
  {
    hide Apart, Held, Separate, Chain;
    FreedDistinct(base, size, list, live, brk, bp, t, k);
    var r := Rest(size, list, bp, t);
    if TouchesPrev(size, list, bp, t) {
      ChainElsewhere(ptr, list, bp, Wrap(list, r));
      LinkedOver(ptr[bp := Wrap(list, r)], list, t, r);
      assert list[..t + 1] + [] + list[r..] == list[..t + 1] + list[r..];
    } else {
      LinkedIn(ptr, list, bp, t, r);
    }
  }

  /** The freed block, grown by the next one, ends before the rest of the list. */
  lemma GrownEnd(base: nat, size: Sizes, list: seq<nat>, live: seq<nat>, brk: nat, bp: nat, t: nat, k: nat)
    requires CanFree(base, size, list, live, brk, bp, t, k)
    ensures bp in size && var s := SizesGrown(size, list, bp, t); var r := Rest(size, list, bp, t);
      && End(s, bp) <= brk
      && (forall i :: r <= i < |list| ==> End(s, bp) < list[i])
      && (forall i :: 0 <= i <= t ==> list[i] in s && End(s, list[i]) == End(size, list[i]) <= bp)
      && (forall i :: 0 <= i < t ==> End(s, list[i]) < bp)
      && (forall i :: 0 <= i < |list| ==> s[list[i]] == size[list[i]])
  {
    FreedDistinct(base, size, list, live, brk, bp, t, k);
    assert Apart(size, list[t], live[k]);
    if t + 1 < |list| { assert Apart(size, list[t + 1], live[k]); }
    hide Apart, Held, Separate;
  }

  /** Where element i of the list with bp put in comes from. */
  function Origin(t: nat, r: nat, i: nat): int {
    if i <= t then i else i - (t + 2) + r
  }

  lemma InsertedAt(list: seq<nat>, bp: nat, t: nat, r: nat, i: nat)
    requires t < r <= |list| && i < t + 2 + |list| - r
    ensures var m := list[..t + 1] + [bp] + list[r..];
      |m| == t + 2 + |list| - r && m[i] == if i == t + 1 then bp else list[Origin(t, r, i)]
  {
  }

  lemma OrderedIn(base: nat, size: Sizes, s: Sizes, list: seq<nat>, brk: nat, bp: nat, t: nat, r: nat)
    requires Ordered(base, size, list, brk) && t < r <= |list| && bp in s && s[bp] > 0 && base + UNIT <= bp
    requires forall i :: 0 <= i < |list| ==> list[i] in s && s[list[i]] == size[list[i]]
    requires End(s, bp) <= brk && (forall i :: r <= i < |list| ==> End(s, bp) < list[i])
    requires forall i :: 0 <= i <= t ==> End(size, list[i]) < bp
    ensures Ordered(base, s, list[..t + 1] + [bp] + list[r..], brk)
  {
    var m := list[..t + 1] + [bp] + list[r..];
    InsertedAt(list, bp, t, r, 0);
    forall i | 0 <= i < |m| ensures m[i] in s && End(s, m[i]) <= brk && (i > 0 ==> s[m[i]] > 0 && base + UNIT <= m[i]) {
      InsertedAt(list, bp, t, r, i);
      assert i != t + 1 ==> End(size, list[Origin(t, r, i)]) <= brk;
    }
    forall i, j | 0 <= i < j < |m| ensures End(s, m[i]) < m[j] {
      InsertedAt(list, bp, t, r, i);
      InsertedAt(list, bp, t, r, j);
      if i != t + 1 && j != t + 1 {
        assert End(size, list[Origin(t, r, i)]) < list[Origin(t, r, j)];
      }
    }
  }

  lemma OrderedOver(base: nat, size: Sizes, s: Sizes, list: seq<nat>, brk: nat, e: nat, t: nat, r: nat)
    requires Ordered(base, size, list, brk) && 0 < t < r <= |list| && e <= brk && End(size, list[t]) <= e
    requires forall i :: 0 <= i < |list| ==> list[i] in s && (i != t ==> s[list[i]] == size[list[i]])
    requires End(s, list[t]) == e && (forall i :: r <= i < |list| ==> e < list[i])
    ensures Ordered(base, s, list[..t + 1] + list[r..], brk)
  {
    var m := list[..t + 1] + list[r..];
    forall i | 0 <= i < |m| ensures m[i] in s && End(s, m[i]) <= brk && (i > 0 ==> s[m[i]] > 0 && base + UNIT <= m[i]) {
      var i' := if i <= t then i else i - (t + 1) + r;
      assert m[i] == list[i'] && End(size, list[i']) <= brk;
    }
    forall i, j | 0 <= i < j < |m| ensures End(s, m[i]) < m[j] {
      var i', j' := if i <= t then i else i - (t + 1) + r, if j <= t then j else j - (t + 1) + r;
      assert m[i] == list[i'] && m[j] == list[j'] && i' < j';
    }
  }

  lemma FreedOrdered(base: nat, size: Sizes, list: seq<nat>, live: seq<nat>, brk: nat, bp: nat, t: nat, k: nat)
    requires CanFree(base, size, list, live, brk, bp, t, k)
    ensures bp in size && Ordered(base, SizesFreed(size, list, bp, t), ListFreed(size, list, bp, t), brk)
  {
    hide Apart, Held, Separate, Ordered;
    FreedDistinct(base, size, list, live, brk, bp, t, k);
    GrownEnd(base, size, list, live, brk, bp, t, k);
    var s := SizesGrown(size, list, bp, t);
    var r := Rest(size, list, bp, t);
    if TouchesPrev(size, list, bp, t) {
      BaseNeverTouches(base, size, list, brk, bp, t);
      OrderedOver(base, size, SizesFreed(size, list, bp, t), list, brk, End(s, bp), t, r);
      assert list[..t + 1] + [] + list[r..] == list[..t + 1] + list[r..];
    } else {
      OrderedIn(base, size, s, list, brk, bp, t, r);
    }
  }

  lemma BaseNeverTouches(base: nat, size: Sizes, list: seq<nat>, brk: nat, bp: nat, t: nat)
    requires Ordered(base, size, list, brk) && t < |list| && base < bp && TouchesPrev(size, list, bp, t)
    ensures t > 0
  {
  }

  lemma HeldSizes(base: nat, size: Sizes, list: seq<nat>, live: seq<nat>, brk: nat, bp: nat, t: nat, k: nat)
    requires CanFree(base, size, list, live, brk, bp, t, k)
    ensures bp in size && var s := SizesFreed(size, list, bp, t);
      forall l :: 0 <= l < |live| && l != k ==> live[l] in size && live[l] in s && s[live[l]] == size[live[l]]
  {
    FreedDistinct(base, size, list, live, brk, bp, t, k);
    hide Separate, Ordered, Apart;
    assert list[t] in list;
  }

  /** Blocks still held keep their sizes through the merge. */
  lemma FreedHeld(base: nat, size: Sizes, list: seq<nat>, live: seq<nat>, brk: nat, bp: nat, t: nat, k: nat)
    requires CanFree(base, size, list, live, brk, bp, t, k)
    ensures bp in size && Held(base, SizesFreed(size, list, bp, t), Drop(live, k), brk)
  {
    hide Separate, Ordered, SizesFreed;
    FreedDistinct(base, size, list, live, brk, bp, t, k);
    HeldSizes(base, size, list, live, brk, bp, t, k);
    var d := Drop(live, k);
    forall l | 0 <= l < |d| ensures d[l] == if l < k then live[l] else live[l + 1] {}
  }

  /** An interval apart from two touching ones is apart from their union. */
  lemma ApartFromUnion(a: nat, b: nat, c: nat, x: nat, y: nat)
    requires a <= b <= c && x < y && (b <= x || y <= a) && (c <= x || y <= b)
    ensures c <= x || y <= a
  {
  }

  /** A block still held is apart from whatever block of the new list it could meet. */
  lemma HeldApart(base: nat, size: Sizes, list: seq<nat>, live: seq<nat>, brk: nat, bp: nat, t: nat, k: nat, l: nat)
    requires CanFree(base, size, list, live, brk, bp, t, k) && l < |live| && l != k
    ensures bp in size && var s := SizesGrown(size, list, bp, t); var x, y := live[l], End(size, live[l]);
      && (End(s, bp) <= x || y <= bp)
      && (forall i :: 0 <= i < |list| ==> End(size, list[i]) <= x || y <= list[i])
      && (TouchesPrev(size, list, bp, t) ==> End(s, bp) <= x || y <= list[t])
  {
    FreedDistinct(base, size, list, live, brk, bp, t, k);
    var s := SizesGrown(size, list, bp, t);
    var x, y := live[l], End(size, live[l]);
    assert if l < k then Apart(size, live[l], live[k]) else Apart(size, live[k], live[l]);
    forall i | 0 <= i < |list| ensures End(size, list[i]) <= x || y <= list[i] {
      assert Apart(size, list[i], live[l]);
    }
    if TouchesNext(size, list, bp, t) {
      ApartFromUnion(bp, list[t + 1], End(size, list[t + 1]), x, y);
    }
    if TouchesPrev(size, list, bp, t) {
      ApartFromUnion(list[t], bp, End(s, bp), x, y);
    }
  }

  lemma FreedSeparate(base: nat, size: Sizes, list: seq<nat>, live: seq<nat>, brk: nat, bp: nat, t: nat, k: nat)
    requires CanFree(base, size, list, live, brk, bp, t, k)
    ensures bp in size && Separate(SizesFreed(size, list, bp, t), ListFreed(size, list, bp, t), Drop(live, k))
  {
    hide Held, Ordered, Separate;
    FreedDistinct(base, size, list, live, brk, bp, t, k);
    HeldSizes(base, size, list, live, brk, bp, t, k);
    GrownEnd(base, size, list, live, brk, bp, t, k);
    var s, m, d := SizesFreed(size, list, bp, t), ListFreed(size, list, bp, t), Drop(live, k);
    forall i | 0 <= i < |m| ensures m[i] in s {
      ListMember(size, list, bp, t, i);
    }
    forall l | 0 <= l < |d| ensures d[l] in s {
      assert d[l] == if l < k then live[l] else live[l + 1];
    }
    forall i, l | 0 <= i < |m| && 0 <= l < |d| ensures Apart(s, m[i], d[l]) {
      var l' := if l < k then l else l + 1;
      assert d[l] == live[l'];
      HeldApart(base, size, list, live, brk, bp, t, k, l');
      ListMember(size, list, bp, t, i);
    }
    SeparateIs(s, m, d);
  }

  lemma SeparateIs(s: Sizes, m: seq<nat>, d: seq<nat>)
    requires (forall i :: 0 <= i < |m| ==> m[i] in s) && (forall l :: 0 <= l < |d| ==> d[l] in s)
    requires forall i, l :: 0 <= i < |m| && 0 <= l < |d| ==> Apart(s, m[i], d[l])
    ensures Separate(s, m, d)
  {
  }

  lemma ListMember(size: Sizes, list: seq<nat>, bp: nat, t: nat, i: nat)
    requires bp in size && t < |list| && list[t] in size && i < |ListFreed(size, list, bp, t)|
    ensures var e := ListFreed(size, list, bp, t)[i];
      (exists j :: 0 <= j < |list| && list[j] == e) || (e == bp && !TouchesPrev(size, list, bp, t))
  {
    var r := Rest(size, list, bp, t);
    var a := if TouchesPrev(size, list, bp, t) then t + 1 else t + 2;
    var e := ListFreed(size, list, bp, t)[i];
    if i <= t {
      assert list[i] == e;
    } else if i >= a {
      assert list[i - a + r] == e;
    }
  }

  lemma UnitsAround(size: Sizes, a: seq<nat>, x: nat, b: seq<nat>)
    requires x in size && (forall i :: 0 <= i < |a| ==> a[i] in size) && (forall i :: 0 <= i < |b| ==> b[i] in size)
    ensures Units(size, a + [x] + b) == Units(size, a) + size[x] + Units(size, b)
  {
    UnitsJoin(size, a + [x], b);
    UnitsJoin(size, a, [x]);
  }

  /** Freeing moves the block's units from the held side to the free side. */
  lemma FreedUnits(base: nat, size: Sizes, list: seq<nat>, live: seq<nat>, brk: nat, bp: nat, t: nat, k: nat)
    requires CanFree(base, size, list, live, brk, bp, t, k)
    ensures bp in size && var s, m, d := SizesFreed(size, list, bp, t), ListFreed(size, list, bp, t), Drop(live, k);
      && (forall i :: 0 <= i < |m| ==> m[i] in s) && (forall i :: 0 <= i < |d| ==> d[i] in s)
      && (forall i :: 0 <= i < |list| ==> list[i] in size) && (forall i :: 0 <= i < |live| ==> live[i] in size)
      && Units(s, m) + Units(s, d) == Units(size, list) + Units(size, live)
  {
    FreedDistinct(base, size, list, live, brk, bp, t, k);
    HeldSizes(base, size, list, live, brk, bp, t, k);
    FreedSeparate(base, size, list, live, brk, bp, t, k);
    hide Ordered, Held, Apart;
    var s, m, d := SizesFreed(size, list, bp, t), ListFreed(size, list, bp, t), Drop(live, k);
    UnitsDrop(size, live, k);
    forall l | 0 <= l < |d| ensures d[l] in size && s[d[l]] == size[d[l]] {
      assert d[l] == if l < k then live[l] else live[l + 1];
    }
    UnitsSame(size, s, d);
    FreedListUnits(size, list, bp, t);
  }

  lemma FreedListUnits(size: Sizes, list: seq<nat>, bp: nat, t: nat)
    requires bp in size && bp !in list && t < |list| && (forall i :: 0 <= i < |list| ==> list[i] in size)
    requires forall i, j :: 0 <= i < |list| && 0 <= j < |list| && list[i] == list[j] ==> i == j
    requires forall i :: 0 <= i < |ListFreed(size, list, bp, t)| ==>
      ListFreed(size, list, bp, t)[i] in SizesFreed(size, list, bp, t)
    ensures Units(SizesFreed(size, list, bp, t), ListFreed(size, list, bp, t)) == Units(size, list) + size[bp]
  {
    var s, r := SizesFreed(size, list, bp, t), Rest(size, list, bp, t);
    hide Units;
    ListUnits(size, list, t, r);
    assert list[t] in list;
    UnitsSame(size, s, list[..t]);
    UnitsSame(size, s, list[r..]);
    if TouchesPrev(size, list, bp, t) {
      assert ListFreed(size, list, bp, t) == list[..t] + [list[t]] + list[r..];
      UnitsAround(s, list[..t], list[t], list[r..]);
    } else {
      assert ListFreed(size, list, bp, t) == (list[..t] + [list[t]]) + [bp] + list[r..];
      UnitsAround(s, list[..t] + [list[t]], bp, list[r..]);
      UnitsLast(s, list[..t], list[t]);
    }
  }

  lemma UnitsLast(size: Sizes, a: seq<nat>, x: nat)
    requires x in size && forall i :: 0 <= i < |a| ==> a[i] in size
    ensures Units(size, a + [x]) == Units(size, a) + size[x]
  {
    UnitsJoin(size, a, [x]);
  }

  lemma ListUnits(size: Sizes, list: seq<nat>, t: nat, r: nat)
    requires t < |list| && (forall i :: 0 <= i < |list| ==> list[i] in size) && (r == t + 1 || r == t + 2)
    requires r <= |list|
    ensures Units(size, list) ==
      Units(size, list[..t]) + size[list[t]] + (if r == t + 2 then size[list[t + 1]] else 0) + Units(size, list[r..])
  {
    hide Units;
    if r == t + 2 {
      assert list == (list[..t] + [list[t]]) + [list[t + 1]] + list[r..];
      UnitsAround(size, list[..t] + [list[t]], list[t + 1], list[r..]);
      UnitsLast(size, list[..t], list[t]);
    } else {
      assert list == list[..t] + [list[t]] + list[r..];
      UnitsAround(size, list[..t], list[t], list[r..]);
    }
  }

  lemma FreedKeeps(base: nat, ptr: Ptrs, size: Sizes, list: seq<nat>, live: seq<nat>, brk: nat, obtained: nat, bp: nat,
                   t: nat, k: nat)
    requires Inv(base, ptr, size, list, live, brk, obtained) && k < |live| && live[k] == bp && Place(list, bp, t)
    ensures bp in size && t < |list| && list[t] in size && (t + 1 < |list| ==> list[t + 1] in size)
    ensures Inv(base, PtrsFreed(ptr, size, list, bp, t), SizesFreed(size, list, bp, t), ListFreed(size, list, bp, t),
      Drop(live, k), brk, obtained)
    ensures list[t] in ListFreed(size, list, bp, t)
  {
    hide Chain, Ordered, Held, Separate, PtrsFreed, SizesFreed;
    FreedDistinct(base, size, list, live, brk, bp, t, k);
    FreedChain(base, ptr, size, list, live, brk, bp, t, k);
    FreedOrdered(base, size, list, live, brk, bp, t, k);
    FreedHeld(base, size, list, live, brk, bp, t, k);
    FreedSeparate(base, size, list, live, brk, bp, t, k);
    FreedUnits(base, size, list, live, brk, bp, t, k);
    assert ListFreed(size, list, bp, t)[t] == list[t];
  }

  // ---------------------------------------------------------------- malloc: the result

  /** The block at list index i is handed out whole. */
  lemma WholeTaken(base: nat, ptr: Ptrs, size: Sizes, list: seq<nat>, live: seq<nat>, brk: nat, obtained: nat, i: nat)
    requires Inv(base, ptr, size, list, live, brk, obtained) && 0 < i < |list|
    ensures Inv(base, ptr[list[i - 1] := Wrap(list, i + 1)], size, Drop(list, i), live + [list[i]], brk, obtained)
  {
    hide Units, Chain, Ordered, Held, Distinct;
    OrderedDistinct(base, size, list, brk);
    LinkedOver(ptr, list, i - 1, i + 1);
    WholeOrdered(base, size, list, brk, i);
    WholeHeld(base, size, list, live, brk, i);
    UnitsDrop(size, list, i);
    UnitsLast(size, live, list[i]);
  }

  lemma OrderedDistinct(base: nat, size: Sizes, list: seq<nat>, brk: nat)
    requires Ordered(base, size, list, brk)
    ensures Distinct(list)
  {
  }

  lemma WholeOrdered(base: nat, size: Sizes, list: seq<nat>, brk: nat, i: nat)
    requires Ordered(base, size, list, brk) && 0 < i < |list|
    ensures Ordered(base, size, Drop(list, i), brk)
  {
    var m := Drop(list, i);
    forall k | 0 <= k < |m| ensures m[k] == if k < i then list[k] else list[k + 1] {}
    hide Drop;
    forall k | 0 <= k < |m| ensures m[k] in size && End(size, m[k]) <= brk && (0 < k ==>
      size[m[k]] > 0 && base + UNIT <= m[k]) {}
    forall k, l | 0 <= k < l < |m| ensures End(size, m[k]) < m[l] {}
  }

  lemma WholeHeld(base: nat, size: Sizes, list: seq<nat>, live: seq<nat>, brk: nat, i: nat)
    requires Ordered(base, size, list, brk) && Held(base, size, live, brk) && Separate(size, list, live)
    requires 0 < i < |list|
    ensures Held(base, size, live + [list[i]], brk) && Separate(size, Drop(list, i), live + [list[i]])
  {
    var m := Drop(list, i);
    forall k | 0 <= k < |m| ensures m[k] == if k < i then list[k] else list[k + 1] {}
    var lv := live + [list[i]];
    forall k | 0 <= k < |lv| ensures lv[k] == if k < |live| then live[k] else list[i] {}
    forall k | 0 <= k < |live| ensures Apart(size, live[k], list[i]) {
      assert Apart(size, list[i], live[k]);
    }
  }

  /** The last n units of the block at list index i are handed out. */
  ghost predicate CanSplit(base: nat, size: Sizes, list: seq<nat>, live: seq<nat>, brk: nat, i: nat, n: nat) {
    && Ordered(base, size, list, brk) && Held(base, size, live, brk) && Separate(size, list, live)
    && 0 < i < |list| && 0 < n < size[list[i]]
  }

  function SizesSplit(size: Sizes, p: nat, n: nat): Sizes
    requires p in size && n <= size[p]
  {
    size[p := size[p] - n][p + UNIT * (size[p] - n) := n]
  }

  lemma SplitFresh(base: nat, size: Sizes, list: seq<nat>, live: seq<nat>, brk: nat, i: nat, n: nat)
    requires CanSplit(base, size, list, live, brk, i, n)
    ensures var q := list[i] + UNIT * (size[list[i]] - n); var s := SizesSplit(size, list[i], n);
      && q !in list && q !in live && list[i] < q && End(s, q) == End(size, list[i]) && End(s, list[i]) == q
      && (forall j :: 0 <= j < |list| && j != i ==> list[j] in s && s[list[j]] == size[list[j]])
      && (forall k :: 0 <= k < |live| ==> live[k] in s && s[live[k]] == size[live[k]])
  {
    var q := list[i] + UNIT * (size[list[i]] - n);
    forall j | 0 <= j < |list| && j != i ensures list[j] != q && list[j] != list[i] {}
    forall k | 0 <= k < |live| ensures live[k] != q && live[k] != list[i] {
      assert Apart(size, list[i], live[k]);
    }
  }

  lemma SplitKeeps(base: nat, ptr: Ptrs, size: Sizes, list: seq<nat>, live: seq<nat>, brk: nat, obtained: nat, i: nat,
                   n: nat)
    requires Inv(base, ptr, size, list, live, brk, obtained) && 0 < i < |list| && 0 < n < size[list[i]]
    ensures var q := list[i] + UNIT * (size[list[i]] - n);
      Inv(base, ptr, SizesSplit(size, list[i], n), list, live + [q], brk, obtained)
  {
    hide Chain, Ordered, Held, SizesSplit, Units;
    SplitOrdered(base, size, list, live, brk, i, n);
    SplitHeld(base, size, list, live, brk, i, n);
    SplitUnits(base, size, list, live, brk, i, n);
  }

  lemma SplitOrdered(base: nat, size: Sizes, list: seq<nat>, live: seq<nat>, brk: nat, i: nat, n: nat)
    requires CanSplit(base, size, list, live, brk, i, n)
    ensures Ordered(base, SizesSplit(size, list[i], n), list, brk)
  {
    hide Held, Separate;
    SplitFresh(base, size, list, live, brk, i, n);
  }

  lemma SplitHeld(base: nat, size: Sizes, list: seq<nat>, live: seq<nat>, brk: nat, i: nat, n: nat)
    requires CanSplit(base, size, list, live, brk, i, n)
    ensures var q := list[i] + UNIT * (size[list[i]] - n); var s := SizesSplit(size, list[i], n);
      Held(base, s, live + [q], brk) && Separate(s, list, live + [q])
  {
    SplitFresh(base, size, list, live, brk, i, n);
    var q := list[i] + UNIT * (size[list[i]] - n);
    var s := SizesSplit(size, list[i], n);
    hide SizesSplit;
    var lv := live + [q];
    forall k | 0 <= k < |lv| ensures lv[k] == if k < |live| then live[k] else q {}
    forall k | 0 <= k < |live| ensures Apart(s, live[k], q) {
      assert Apart(size, list[i], live[k]);
    }
    forall j | 0 <= j < |list| ensures Apart(s, list[j], q) {}
    forall j, k | 0 <= j < |list| && 0 <= k < |live| ensures Apart(s, list[j], live[k]) {
      assert Apart(size, list[j], live[k]);
    }
  }

  lemma SplitUnits(base: nat, size: Sizes, list: seq<nat>, live: seq<nat>, brk: nat, i: nat, n: nat)
    requires CanSplit(base, size, list, live, brk, i, n)
    ensures var q := list[i] + UNIT * (size[list[i]] - n); var s := SizesSplit(size, list[i], n);
      && (forall j :: 0 <= j < |list| ==> list[j] in s && list[j] in size)
      && (forall k :: 0 <= k < |live| ==> live[k] in size)
      && (forall k :: 0 <= k < |live + [q]| ==> (live + [q])[k] in s)
      && Units(s, list) + Units(s, live + [q]) == Units(size, list) + Units(size, live)
  {
    SplitFresh(base, size, list, live, brk, i, n);
    hide Ordered, Held, Separate, Units;
    var q := list[i] + UNIT * (size[list[i]] - n);
    var s := SizesSplit(size, list[i], n);
    UnitsLast(s, live, q);
    UnitsSame(size, s, live);
    ListUnits(size, list, i, i + 1);
    ListUnits(s, list, i, i + 1);
    UnitsSame(size, s, list[..i]);
    UnitsSame(size, s, list[i + 1..]);
  }

  /** A block of n units at the old break, just obtained from sbrk. */
  lemma FreshHeld(base: nat, ptr: Ptrs, size: Sizes, list: seq<nat>, live: seq<nat>, brk: nat, obtained: nat, n: nat)
    requires Inv(base, ptr, size, list, live, brk, obtained) && base + UNIT <= brk && 0 < n
    ensures Inv(base, ptr, size[brk := n], list, live + [brk], brk + UNIT * n, obtained + n)
  {
    hide Units, Chain, Ordered, Held;
    FreshElsewhere(base, size, list, live, brk, n);
    FreshSeparate(base, size, list, live, brk, n);
    UnitsSame(size, size[brk := n], list);
    UnitsSame(size, size[brk := n], live);
    UnitsLast(size[brk := n], live, brk);
  }

  lemma FreshElsewhere(base: nat, size: Sizes, list: seq<nat>, live: seq<nat>, brk: nat, n: nat)
    requires Ordered(base, size, list, brk) && Held(base, size, live, brk) && base + UNIT <= brk
    ensures Ordered(base, size[brk := n], list, brk + UNIT * n)
    ensures (forall j :: 0 <= j < |list| ==> list[j] < brk) && (forall k :: 0 <= k < |live| ==> live[k] < brk)
  {
    forall j | 0 <= j < |list| ensures list[j] < brk {}
  }

  lemma FreshSeparate(base: nat, size: Sizes, list: seq<nat>, live: seq<nat>, brk: nat, n: nat)
    requires Ordered(base, size, list, brk) && Held(base, size, live, brk) && Separate(size, list, live)
    requires base + UNIT <= brk && 0 < n
    ensures Held(base, size[brk := n], live + [brk], brk + UNIT * n) && Separate(size[brk := n], list, live + [brk])
  {
    FreshElsewhere(base, size, list, live, brk, n);
    var s, lv := size[brk := n], live + [brk];
    forall k | 0 <= k < |lv| ensures lv[k] == if k < |live| then live[k] else brk {}
    forall j, k | 0 <= j < |list| && 0 <= k < |lv| ensures Apart(s, list[j], lv[k]) {
      assert k < |live| ==> Apart(size, list[j], live[k]);
    }
    forall k, l | 0 <= k < l < |lv| ensures Apart(s, lv[k], lv[l]) {
      assert l < |live| ==> Apart(size, live[k], live[l]);
    }
  }

  // ---------------------------------------------------------------- the program

  /** Conversion of a size_t to the int parameter of sbrk. */
  function ToInt32(x: nat): int {
    var m := x % 0x1_0000_0000;
    if m >= 0x8000_0000 then m - 0x1_0000_0000 else m
  }

  /** sys_sbrk refuses to move the break by n. */
  predicate SbrkRefuses(brk: nat, n: int) {
    if n >= 0 then brk + n >= MAXUVA else -n > brk
  }

  /** As the memory system of the kernel refuses it. */
  lemma KernelRefuses(a: P.Memory, free: nat, p: nat, n: int)
    requires p in a && a[p].sz < MAXUVA
    ensures SbrkRefuses(a[p].sz, n) <==> P.Step(a, free, P.Sbrk(p, n), P.Failed, a)
  {
  }

  function Request(units: nat): nat { if units < 4096 then 4096 else units }

  /** malloc's header-rounded size in units. */
  function UnitsFor(nbytes: nat): nat { (nbytes + UNIT - 1) / UNIT + 1 }

  /** Steps from list index i round to index f. */
  function Dist(i: nat, f: nat, n: nat): int { if i <= f then f - i else f - i + n }

  function Next(i: nat, n: nat): nat { if i + 1 < n then i + 1 else 0 }

  type Size = n: nat | n < 0x1_0000_0000

  /** What a program does to its heap; Release names a pointer by its age among those it holds. */
  datatype Op = Alloc(nbytes: Size) | Release(k: nat) | Grow(n: nat)

  datatype More = NoCore | Core | Overrun
  datatype Allocated = Null | Ptr(addr: nat) | Wild

  datatype Out = Given(addr: nat) | Refused | Done

  /** A heap between two calls. */
  datatype View = View(freep: nat, ptr: Ptrs, size: Sizes, list: seq<nat>, live: seq<nat>, brk: nat, obtained: nat)

  ghost predicate Sound(base: nat, v: View) {
    if v.freep == 0 then v.live == [] && v.obtained == 0
    else Inv(base, v.ptr, v.size, v.list, v.live, v.brk, v.obtained) && v.freep in v.list
  }

  /** No free block has n units. */
  ghost predicate Lacks(v: View, n: nat) {
    v.freep == 0 || forall i :: 0 <= i < |v.list| ==> v.list[i] in v.size && v.size[v.list[i]] < n
  }

  /** Going round from behind index f, index m comes before index i. */
  predicate Ahead(f: nat, m: nat, i: nat) {
    if i > f then f < m < i else m > f || m < i
  }

  /** The block at index i is the first behind f that has n units. */
  ghost predicate FirstFrom(list: seq<nat>, size: Sizes, f: nat, i: nat, n: nat) {
    && f < |list| && i < |list| && list[i] in size && size[list[i]] >= n
    && forall m :: 0 <= m < |list| && Ahead(f, m, i) ==> list[m] in size && size[list[m]] < n
  }

  ghost predicate FirstFits(list: seq<nat>, size: Sizes, freep: nat, i: nat, n: nat) {
    exists f: nat :: FirstFrom(list, size, f, i, n) && list[f] == freep
  }

  /** The address given is that of the tail of the first block behind freep that fits, and freep the block before it. */
  ghost predicate Taken(v: View, n: nat, addr: nat, freep: nat) {
    exists i: nat :: FirstFits(v.list, v.size, v.freep, i, n) && 0 < i < |v.list| && v.list[i] in v.size
      && addr == End(v.size, v.list[i]) - UNIT * n + UNIT && freep == v.list[i - 1]
  }

  /** A listed block of n units ends at the break. */
  ghost predicate OnlyLastFits(size: Sizes, list: seq<nat>, brk: nat, n: nat) {
    forall i :: 0 <= i < |list| ==> list[i] in size && (size[list[i]] >= n ==> End(size, list[i]) == brk)
  }

  /** When nothing fits, only the block that holds the new core can. */
  lemma CoreFits(base: nat, ptr: Ptrs, size0: Sizes, list0: seq<nat>, size: Sizes, list: seq<nat>, live: seq<nat>,
                 brk: nat, obtained: nat, hp: nat, nu: nat, n: nat)
    requires AllOldOrGrown(size0[hp := nu], list0, size, list, hp) && hp + UNIT * nu == brk && hp !in list0
    requires Inv(base, ptr, size, list, live, brk, obtained)
    requires forall i :: 0 <= i < |list0| ==> list0[i] in size0 && size0[list0[i]] < n
    ensures OnlyLastFits(size, list, brk, n)
  {
    forall i | 0 <= i < |list| ensures list[i] in size && (size[list[i]] >= n ==> End(size, list[i]) == brk) {
      assert OldOrGrown(size0[hp := nu], list0, size, list[i], hp);
      if list[i] in list0 {
        var j :| 0 <= j < |list0| && list0[j] == list[i];
        assert size0[list0[j]] < n;
      }
    }
  }

  lemma TakenLast(v: View, n: nat, addr: nat, freep: nat)
    requires Taken(v, n, addr, freep) && OnlyLastFits(v.size, v.list, v.brk, n)
    ensures addr == v.brk - UNIT * n + UNIT
  {
  }

  /** A malloc that asks sbrk for a wrapped number of bytes, and is given them. */
  ghost predicate Wraps(v: View, op: Op) {
    op.Alloc? && Overflows(UnitsFor(op.nbytes), v.brk)
  }

  ghost predicate KeepsSizes(blocks: seq<nat>, before: Sizes, after: Sizes) {
    forall l :: 0 <= l < |blocks| ==> blocks[l] in before && blocks[l] in after && after[blocks[l]] == before[blocks[l]]
  }

  /** One call that does not wrap: a block of its own for every request that is not refused, and nothing else moved. */
  ghost predicate Step(v: View, op: Op, out: Out, w: View) {
    && !Wraps(v, op)
    && match op
       case Alloc(n) =>
         var u := UnitsFor(n);
         && (v.freep != 0 ==> KeepsSizes(v.live, v.size, w.size))
         && if Lacks(v, u) && SbrkRefuses(v.brk, AskedFor(u))
            then out == Refused && w.live == v.live && w.brk == v.brk && w.obtained == v.obtained
            else
              var added := if Lacks(v, u) then Request(u) else 0;
              && out.Given? && out.addr >= UNIT && w.live == v.live + [out.addr - UNIT]
              && out.addr - UNIT in w.size && w.size[out.addr - UNIT] == u
              && w.brk == v.brk + UNIT * added && w.obtained == v.obtained + added
              && if Lacks(v, u) then out.addr == w.brk - UNIT * u + UNIT else Taken(v, u, out.addr, w.freep)
       case Release(k) =>
         if k < |v.live|
         then out == Done && w.live == Drop(v.live, k) && w.brk == v.brk && w.obtained == v.obtained
              && KeepsSizes(w.live, v.size, w.size)
              && exists t: nat :: Place(v.list, v.live[k], t) && w.freep == v.list[t]
         else out == Done && w == v
       case Grow(n) =>
         && out == (if SbrkRefuses(v.brk, n) then Refused else Done)
         && w == v.(brk := if out == Done then v.brk + n else v.brk)
  }

  class Heap {
    var ptr: Ptrs
    var size: Sizes
    var freep: nat
    var brk: nat
    const base: nat
    ghost var list: seq<nat>
    ghost var live: seq<nat>
    ghost var obtained: nat

    ghost predicate Ready()
      reads this
    {
      && 0 < base && base + UNIT <= brk < MAXUVA
      && Inv(base, ptr, size, list, live, brk, obtained) && freep in list
    }

    ghost predicate Valid()
      reads this
    {
      if freep == 0 then 0 < base && base + UNIT <= brk < MAXUVA && live == [] && obtained == 0 else Ready()
    }

    constructor (header: nat, start: nat)
      requires 0 < header && header + UNIT <= start < MAXUVA
      ensures Valid() && freep == 0 && live == [] && brk == start
    {
      base, brk, freep := header, start, 0;
      ptr, size, list, live, obtained := map[], map[], [], [], 0;
    }

    /** The search loop of free: the list block after which bp belongs. */
    method FindPlace(bp: nat, ghost k: nat) returns (p: nat, ghost t: nat)
      requires Ready() && k < |live| && live[k] == bp
      ensures Place(list, bp, t) && p == list[t]
    {
      Bounds(base, ptr, size, list, live, brk, obtained, k);
      t := PlaceExists(base, size, list, brk, bp, |list|);
      p := freep;
      ghost var i :| 0 <= i < |list| && list[i] == p;
      while !(bp > p && bp < ptr[p])
        invariant 0 <= i < |list| && p == list[i] && p in ptr
        decreases Dist(i, t, |list|)
      {
        SearchStops(base, ptr, size, list, brk, bp, t, i);
        if p >= ptr[p] && (bp > p || bp < ptr[p]) {
          break;
        }
        p := ptr[p];
        i := if i + 1 < |list| then i + 1 else 0;
      }
      SearchStops(base, ptr, size, list, brk, bp, t, i);
    }

    /** The relinking half of free: join with the next block, then with the previous one. */
    method Splice(bp: nat, p: nat, ghost t: nat)
      requires Neighbours(ptr, size, list, bp, t) && p == list[t]
      modifies `ptr, `size, `freep
      ensures ptr == PtrsFreed(old(ptr), old(size), list, bp, t) && size == SizesFreed(old(size), list, bp, t)
      ensures freep == p
    {
      var q := ptr[p];
      if bp + UNIT * size[bp] == q {
        size := size[bp := size[bp] + size[q]];
        ptr := ptr[bp := ptr[q]];
      } else {
        ptr := ptr[bp := q];
      }
      if p + UNIT * size[p] == bp {
        size := size[p := size[p] + size[bp]];
        ptr := ptr[p := ptr[bp]];
      } else {
        ptr := ptr[p := bp];
      }
      freep := p;
    }

    /** free: put the held block with header bp back, merging it with its neighbours. */
    method Free(ap: nat, ghost k: nat)
      requires Ready() && ap >= UNIT && k < |live| && live[k] == ap - UNIT
      modifies this
      ensures Ready() && live == Drop(old(live), k) && brk == old(brk) && obtained == old(obtained)
      ensures ap - UNIT in old(size) && HasRoom(old(size)[ap - UNIT]) && freep != 0
      ensures exists t: nat :: Place(old(list), ap - UNIT, t) && freep == old(list)[t]
      ensures AllOldOrGrown(old(size), old(list), size, list, ap - UNIT)
      ensures forall l :: 0 <= l < |live| ==>
        live[l] in old(size) && live[l] in size && size[live[l]] == old(size)[live[l]]
    {
      hide Inv, PtrsFreed, SizesFreed, ListFreed, AllOldOrGrown;
      var bp := ap - UNIT;
      var p, t := FindPlace(bp, k);
      FreedKeeps(base, ptr, size, list, live, brk, obtained, bp, t, k);
      FreedNeighbours(base, ptr, size, list, live, brk, obtained, bp, t, k);
      FreedListed(base, ptr, size, list, live, brk, obtained, bp, t, k);
      FreedRoom(base, ptr, size, list, live, brk, obtained, bp, t, k);
      Splice(bp, p, t);
      list, live := ListFreed(old(size), list, bp, t), Drop(live, k);
    }

    /** The block at freep or the one after it has at least n units. */
    ghost predicate HasRoom(n: nat)
      reads this
    {
      freep in size && freep in ptr && ptr[freep] in size && (size[freep] >= n || size[ptr[freep]] >= n)
    }

    /** sys_sbrk as the program sees it: the old break, or nothing. */
    method Sbrk(n: int) returns (ok: bool, old_: nat)
      modifies `brk
      ensures ok <==> !SbrkRefuses(old(brk), n)
      ensures old_ == old(brk) && brk as int == if ok then old(brk) + n else old(brk)
    {
      old_ := brk;
      if n >= 0 {
        if brk + n >= MAXUVA { return false, brk; }
        brk := brk + n;
      } else {
        if -n > brk { return false, brk; }
        brk := brk + n;
      }
      ok := true;
    }

    /** Other code of the program growing the break by itself. */
    method ForeignSbrk(n: nat) returns (ok: bool)
      requires Valid()
      modifies `brk
      ensures Valid() && brk == (if ok then old(brk) + n else old(brk)) && (ok <==> !SbrkRefuses(old(brk), n))
    {
      ghost var b := brk;
      if freep != 0 && brk + n < MAXUVA {
        BreakMoves(base, ptr, size, list, live, brk, obtained, brk + n);
      }
      var o;
      ok, o := Sbrk(n);
    }

    /** morecore.  Overrun: sbrk was asked for a wrapped number of bytes and the block does not fit. */
    method MoreCore(nunits: nat) returns (r: More)
      requires Ready() && 0 < nunits && freep != 0
      modifies this
      ensures r == Overrun <==>
        !SbrkRefuses(old(brk), AskedFor(nunits)) && Request(nunits) * UNIT >= 0x8000_0000
      ensures r == NoCore <==> SbrkRefuses(old(brk), AskedFor(nunits))
      ensures r == NoCore ==> unchanged(this)
      ensures r == Core ==> Ready() && live == old(live) && obtained == old(obtained) + Request(nunits) && freep != 0
      ensures r == Core ==> HasRoom(nunits)
      ensures r == Core && old(NoneFits(nunits)) ==> OnlyLastFits(size, list, brk, nunits)
      ensures r == Core ==> brk == old(brk) + UNIT * Request(nunits) && SameSizes(live, old(size))
      ensures r == Overrun ==> old(brk) + UNIT * Request(nunits) > brk
    {
      hide Inv, AllOldOrGrown, OnlyLastFits;
      var nu := nunits;
      if nu < 4096 {
        nu := 4096;
      }
      var n := ToInt32(nu * UNIT);
      var ok, hp := Sbrk(n);
      if !ok {
        return NoCore;
      }
      if nu * UNIT >= 0x8000_0000 {
        return Overrun;
      }
      HeldKept(base, ptr, size, list, live, old(brk), obtained);
      FreshHeld(base, ptr, size, list, live, old(brk), obtained, nu);
      size := size[hp := nu];
      live, obtained := live + [hp], obtained + nu;
      Bounds(base, ptr, size, list, live, brk, obtained, |live| - 1);
      Free(hp + UNIT, |live| - 1);
      assert Drop(old(live) + [hp], |old(live)|) == old(live);
      if old(NoneFits(nunits)) {
        CoreFits(base, ptr, old(size), old(list), size, list, live, brk, obtained, hp, nu, nunits);
      }
      r := Core;
    }

    /** malloc's first call: the list is the empty base block alone. */
    method Start()
      requires Valid() && freep == 0
      modifies this
      ensures Ready() && freep != 0 && live == [] && obtained == 0 && brk == old(brk) && list == [base]
      ensures base in size && size[base] == 0
    {
      freep := base;
      ptr := ptr[base := base];
      size := size[base := 0];
      list := [base];
    }

    /** Hand out the last nunits of block p, or all of it, unlinking it from prevp. */
    method Carve(prevp: nat, p: nat, nunits: nat, ghost i: nat) returns (a: nat)
      requires Ready() && 0 < i < |list| && p == list[i] && prevp == list[i - 1]
      requires p in size && p in ptr && 0 < nunits <= size[p]
      modifies this
      ensures Ready() && freep != 0 && unchanged(`brk, `obtained)
      ensures a >= UNIT && live == old(live) + [a - UNIT] && a - UNIT in size && size[a - UNIT] == nunits
      ensures SameSizes(old(live), old(size))
      ensures a == End(old(size), p) - UNIT * nunits + UNIT && freep == prevp
    {
      hide Inv, SizesSplit;
      CarveFacts(base, ptr, size, list, live, brk, obtained, i, nunits);
      var b := p;
      if size[p] == nunits {
        WholeTaken(base, ptr, size, list, live, brk, obtained, i);
        ptr := ptr[prevp := ptr[p]];
        list := Drop(list, i);
      } else {
        SplitKeeps(base, ptr, size, list, live, brk, obtained, i, nunits);
        size := size[p := size[p] - nunits];
        b := p + UNIT * size[p];
        size := size[b := nunits];
        SizesSplitIs(old(size), p, nunits);
      }
      live := live + [b];
      freep := prevp;
      a := b + UNIT;
    }

    /** No block on the list has n units. */
    ghost predicate NoneFits(n: nat)
      reads this
    {
      forall i :: 0 <= i < |list| ==> list[i] in size && size[list[i]] < n
    }

    /** Units a request for n takes from sbrk. */
    ghost function Added(n: nat): nat
      reads this
    {
      if freep == 0 || NoneFits(n) then Request(n) else 0
    }

    /** Malloc's loop, once round the list from the block after freep to freep itself: the first block that fits. */
    method Scan(nunits: nat) returns (found: bool, prevp: nat, p: nat, ghost i: nat)
      requires Ready() && freep != 0 && 0 < nunits
      ensures found <==> !NoneFits(nunits)
      ensures found ==> 0 < i < |list| && p == list[i] && prevp == list[i - 1] && p in size && p in ptr
      ensures found ==> size[p] >= nunits && FirstFits(list, size, freep, i, nunits)
      ensures found ==> !Overflows(nunits, brk)
      ensures !found ==> !HasRoom(nunits)
    {
      hide Inv, Overflows, Visited, Dist;
      prevp := freep;
      ListFacts(base, ptr, size, list, live, brk, obtained);
      ghost var f :| 0 <= f < |list| && list[f] == freep;
      ghost var j := f;
      p := ptr[prevp];
      i := Next(j, |list|);
      NoneVisited(f);
      while size[p] < nunits
        invariant 0 <= j < |list| && i == Next(j, |list|) && p == list[i] && prevp == list[j]
        invariant forall m :: 0 <= m < |list| && Visited(f, m, j) ==> size[list[m]] < nunits
        decreases Dist(i, f, |list|)
      {
        DistNext(i, f, |list|);
        if p == freep {
          SameIndex(base, ptr, size, list, live, brk, obtained, i, f);
          VisitedAll(f, j, |list|);
          return false, prevp, p, i;
        }
        VisitedNext(f, j, |list|);
        prevp, j := p, i;
        p := ptr[p];
        i := Next(i, |list|);
      }
      AheadVisited(f, j, |list|);
      assert FirstFrom(list, size, f, i, nunits);
      NotBase(base, ptr, size, list, live, brk, obtained, i, nunits);
      found := true;
    }

    /** The search of malloc and what it does with the block it finds. */
    method FirstFit(nunits: nat) returns (r: Allocated)
      requires Ready() && freep != 0 && 0 < nunits
      modifies this
      ensures r.Ptr? || r.Null?
      ensures r.Null? <==> old(NoneFits(nunits))
      ensures r.Null? ==> unchanged(this) && !HasRoom(nunits)
      ensures r.Ptr? ==> Ready() && freep != 0 && SameSizes(old(live), old(size)) && !Overflows(nunits, old(brk))
      ensures r.Ptr? ==> unchanged(`brk, `obtained) && Taken(old(Now()), nunits, r.addr, freep)
      ensures r.Ptr? ==> r.addr >= UNIT && live == old(live) + [r.addr - UNIT]
      ensures r.Ptr? ==> r.addr - UNIT in size && size[r.addr - UNIT] == nunits
    {
      hide Inv, Overflows;
      var found, prevp, p;
      ghost var i;
      found, prevp, p, i := Scan(nunits);
      if !found {
        return Null;
      }
      var a := Carve(prevp, p, nunits, i);
      r := Ptr(a);
    }

    /** malloc after the first call: search, ask for core when nothing fits, search again. */
    method Search(nunits: nat) returns (r: Allocated)
      requires Ready() && freep != 0 && 0 < nunits
      modifies this
      ensures r == Wild <==> Overflows(nunits, old(brk))
      ensures r == Null <==> old(NoneFits(nunits)) && SbrkRefuses(old(brk), AskedFor(nunits))
      ensures r != Wild ==> Ready() && freep != 0 && SameSizes(old(live), old(size))
      ensures r == Null ==> unchanged(`live, `obtained, `brk)
      ensures r.Ptr? ==> brk == old(brk) + UNIT * old(Added(nunits)) && obtained == old(obtained) + old(Added(nunits))
      ensures r.Ptr? && !old(NoneFits(nunits)) ==> Taken(old(Now()), nunits, r.addr, freep)
      ensures r.Ptr? && old(NoneFits(nunits)) ==> r.addr == brk - UNIT * nunits + UNIT
      ensures r.Ptr? ==> r.addr >= UNIT && live == old(live) + [r.addr - UNIT]
      ensures r.Ptr? ==> r.addr - UNIT in size && size[r.addr - UNIT] == nunits
    {
      hide Inv, Overflows, ToInt32, SbrkRefuses;
      r := FirstFit(nunits);
      if r.Null? {
        ListFacts(base, ptr, size, list, live, brk, obtained);
        OverflowIs(nunits, brk);
        var m := MoreCore(nunits);
        if m == NoCore {
          return Null;
        }
        if m == Overrun {
          return Wild;
        }
        ghost var v := Now();
        r := FirstFit(nunits);
        TakenLast(v, nunits, r.addr, freep);
      }
    }

    /**
     malloc.  Wild: the request is so large that the byte count given to sbrk wraps, sbrk
     accepts it, and the allocator takes memory it was never given.
     */
    method Malloc(nbytes: nat) returns (r: Allocated)
      requires Valid() && nbytes < 0x1_0000_0000
      modifies this
      ensures r == Wild <==> Overflows(UnitsFor(nbytes), old(brk))
      ensures r == Null <==>
        old(freep == 0 || NoneFits(UnitsFor(nbytes))) && old(SbrkRefuses(brk, AskedFor(UnitsFor(nbytes))))
      ensures r != Wild ==> Valid() && freep != 0 && (old(freep) != 0 ==> SameSizes(old(live), old(size)))
      ensures r == Null ==> unchanged(`live, `obtained, `brk)
      ensures r.Ptr? ==> brk == old(brk) + UNIT * old(Added(UnitsFor(nbytes)))
      ensures r.Ptr? ==> obtained == old(obtained) + old(Added(UnitsFor(nbytes)))
      ensures r.Ptr? && old(freep != 0 && !NoneFits(UnitsFor(nbytes))) ==>
        Taken(old(Now()), UnitsFor(nbytes), r.addr, freep)
      ensures r.Ptr? && old(freep == 0 || NoneFits(UnitsFor(nbytes))) ==>
        r.addr == brk - UNIT * UnitsFor(nbytes) + UNIT
      ensures r.Ptr? ==> r.addr >= UNIT && live == old(live) + [r.addr - UNIT]
      ensures r.Ptr? ==> r.addr - UNIT in size && size[r.addr - UNIT] == UnitsFor(nbytes)
      ensures UNIT + nbytes <= UNIT * UnitsFor(nbytes) < UNIT + nbytes + UNIT
    {
      hide Inv, Overflows, ToInt32, SbrkRefuses;
      if freep == 0 {
        Start();
        assert NoneFits(UnitsFor(nbytes));
      }
      r := Search((nbytes + UNIT - 1) / UNIT + 1);
    }

    /** The pointers the program holds are those of the live blocks, in order. */
    ghost predicate Holds(held: seq<nat>)
      reads this
    {
      |held| == |live| && forall i :: 0 <= i < |held| ==> held[i] == live[i] + UNIT
    }

    ghost function Now(): View
      reads this
    {
      View(freep, ptr, size, list, live, brk, obtained)
    }

    /**
     Any program: a run of calls, up to exactly the first malloc that wraps.  Before and after every call
     there is one ordered circle of free blocks apart from all blocks held, with every unit obtained on
     one side or the other, and every answer is as `Step` says.
     */
    method Run(ops: seq<Op>) returns (held: seq<nat>, outs: seq<Out>, wild: bool, ghost views: seq<View>)
      requires Valid() && live == []
      modifies this
      ensures |outs| <= |ops| && |views| == |outs| + 1 && views[0] == old(Now())
      ensures forall i :: 0 <= i < |views| ==> Sound(base, views[i])
      ensures forall i :: 0 <= i < |outs| ==> Step(views[i], ops[i], outs[i], views[i + 1])
      ensures wild <==> |outs| < |ops|
      ensures wild ==> Wraps(views[|outs|], ops[|outs|])
      ensures !wild ==> Valid() && Holds(held) && views[|outs|] == Now()
    {
      hide Inv, Step, Sound;
      held, outs, wild, views := [], [], false, [Now()];
      SoundNow();
      while |outs| < |ops|
        invariant |outs| <= |ops| && |views| == |outs| + 1 && views[0] == old(Now()) && views[|outs|] == Now()
        invariant Valid() && Holds(held) && (forall i :: 0 <= i < |views| ==> Sound(base, views[i]))
        invariant forall i :: 0 <= i < |outs| ==> Step(views[i], ops[i], outs[i], views[i + 1])
      {
        var out;
        out, held, wild := Perform(ops[|outs|], held);
        if wild {
          return;
        }
        SoundNow();
        outs, views := outs + [out], views + [Now()];
      }
    }

    /** One call of a program that holds the pointers `before`. */
    method Perform(op: Op, before: seq<nat>) returns (out: Out, held: seq<nat>, wild: bool)
      requires Valid() && Holds(before)
      modifies this
      ensures wild <==> Wraps(old(Now()), op)
      ensures !wild ==> Valid() && Holds(held) && Step(old(Now()), op, out, Now())
    {
      hide Inv, Overflows, SbrkRefuses, Request, UnitsFor;
      out, held, wild := Done, before, false;
      match op {
        case Alloc(n) =>
          var r := Malloc(n);
          match r {
            case Wild => wild := true;
            case Null => out := Refused;
            case Ptr(a) => out, held := Given(a), before + [a];
          }
        case Release(k) =>
          if k < |before| {
            LiveReady();
            Free(before[k], k);
            held := before[..k] + before[k + 1..];
          }
        case Grow(n) =>
          var ok := ForeignSbrk(n);
          out := if ok then Done else Refused;
      }
    }

    lemma SoundNow()
      requires Valid()
      ensures Sound(base, Now())
    {
    }

    lemma LiveReady()
      requires Valid() && live != []
      ensures Ready()
    {
    }

    /** Every listed block has the size it had before. */
    ghost predicate SameSizes(blocks: seq<nat>, before: Sizes)
      reads this
    {
      forall l :: 0 <= l < |blocks| ==> blocks[l] in before && blocks[l] in size && size[blocks[l]] == before[blocks[l]]
    }
  }

  /** Malloc's loop, having begun after index f and being at j, has looked at index m. */
  predicate Visited(f: nat, m: nat, j: nat) {
    if j >= f then f < m <= j else m > f || m <= j
  }

  lemma AheadVisited(f: nat, j: nat, n: nat)
    requires f < n && j < n
    ensures forall m: nat :: m < n && Ahead(f, m, Next(j, n)) ==> Visited(f, m, j)
  {
  }

  lemma NoneVisited(f: nat)
    ensures forall m: nat :: !Visited(f, m, f)
  {
  }

  lemma VisitedNext(f: nat, j: nat, n: nat)
    requires f < n && j < n && Next(j, n) != f
    ensures forall m: nat :: m < n && Visited(f, m, Next(j, n)) ==> Visited(f, m, j) || m == Next(j, n)
  {
  }

  lemma VisitedAll(f: nat, j: nat, n: nat)
    requires f < n && j < n && Next(j, n) == f
    ensures forall m: nat :: m < n ==> Visited(f, m, j) || m == f
  {
  }

  lemma DistNext(i: nat, f: nat, n: nat)
    requires i < n && f < n
    ensures Dist(i, f, n) >= 0 && (i != f ==> Dist(Next(i, n), f, n) < Dist(i, f, n))
  {
  }

  lemma SameIndex(base: nat, ptr: Ptrs, size: Sizes, list: seq<nat>, live: seq<nat>, brk: nat, obtained: nat, i: nat,
                  f: nat)
    requires Inv(base, ptr, size, list, live, brk, obtained) && i < |list| && f < |list| && list[i] == list[f]
    ensures i == f
  {
  }

  /** The number of bytes morecore asks sbrk for, as sbrk's int argument has it. */
  function AskedFor(nunits: nat): int {
    ToInt32(Request(nunits) * UNIT)
  }

  /** Exactly when a request for nunits wraps the byte count passed to sbrk, and sbrk accepts it. */
  predicate Overflows(nunits: nat, brk: nat) {
    var bytes := Request(nunits) * UNIT;
    bytes >= 0x8000_0000 && !SbrkRefuses(brk, ToInt32(bytes))
  }

  /** Core comes in pieces of at least 64 kilobytes. */
  lemma CoreBytes(nbytes: nat)
    requires nbytes <= 0x7FFF_FFE0
    ensures AskedFor(UnitsFor(nbytes)) == if nbytes <= 65520 then 65536 else 16 * UnitsFor(nbytes)
  {
  }

  /** Requests below two gigabytes less a header never wrap, whatever the break. */
  lemma ModestRequestSafe(nbytes: nat, brk: nat)
    requires nbytes <= 0x7FFF_FFE0
    ensures !Overflows(UnitsFor(nbytes), brk)
  {
    assert UnitsFor(nbytes) * UNIT < 0x8000_0000;
  }

  /** malloc(0xFFFFFFFF) asks sbrk for 16 bytes and believes it got four gigabytes. */
  lemma HugeRequestWraps(brk: nat)
    requires brk + UNIT < MAXUVA
    ensures AskedFor(UnitsFor(0xFFFF_FFFF)) == 16 && Overflows(UnitsFor(0xFFFF_FFFF), brk)
  {
    assert UnitsFor(0xFFFF_FFFF) == 0x1000_0001;
  }

  lemma CarveFacts(base: nat, ptr: Ptrs, size: Sizes, list: seq<nat>, live: seq<nat>, brk: nat, obtained: nat, i: nat,
                   n: nat)
    requires Inv(base, ptr, size, list, live, brk, obtained) && 0 < i < |list| && list[i] in size
    requires 0 < n <= size[list[i]]
    ensures list[i] in ptr && ptr[list[i]] == Wrap(list, i + 1) && list[i - 1] in Drop(list, i) && list[i - 1] >= base
    ensures forall l :: 0 <= l < |live| ==> live[l] in size && live[l] != list[i]
    ensures n < size[list[i]] ==> forall l :: 0 <= l < |live| ==> live[l] != list[i] + UNIT * (size[list[i]] - n)
  {
    assert Drop(list, i)[i - 1] == list[i - 1];
    forall l | 0 <= l < |live| ensures live[l] != list[i] {
      assert Apart(size, list[i], live[l]);
    }
    if n < size[list[i]] {
      SplitFresh(base, size, list, live, brk, i, n);
    }
  }

  lemma SizesSplitIs(size: Sizes, p: nat, n: nat)
    requires p in size && n < size[p]
    ensures SizesSplit(size, p, n) == size[p := size[p] - n][p + UNIT * (size[p] - n) := n]
  {
  }

  lemma ListFacts(base: nat, ptr: Ptrs, size: Sizes, list: seq<nat>, live: seq<nat>, brk: nat, obtained: nat)
    requires Inv(base, ptr, size, list, live, brk, obtained)
    ensures forall i :: 0 <= i < |list| ==> list[i] in size && list[i] in ptr && ptr[list[i]] == Wrap(list, i + 1)
    ensures forall l :: 0 <= l < |live| ==> live[l] in size
  {
  }

  /** A block that fits is not the base, and is too small for the byte count to have wrapped. */
  lemma NotBase(base: nat, ptr: Ptrs, size: Sizes, list: seq<nat>, live: seq<nat>, brk: nat, obtained: nat, i: nat,
                n: nat)
    requires Inv(base, ptr, size, list, live, brk, obtained) && i < |list| && list[i] in size && size[list[i]] >= n > 0
    ensures i > 0 && (brk < MAXUVA ==> !Overflows(n, brk))
  {
    assert End(size, list[i]) <= brk;
  }

  lemma OverflowIs(n: nat, brk: nat)
    ensures Overflows(n, brk) <==> Request(n) * UNIT >= 0x8000_0000 && !SbrkRefuses(brk, AskedFor(n))
  {
  }

  lemma BreakMoves(base: nat, ptr: Ptrs, size: Sizes, list: seq<nat>, live: seq<nat>, brk: nat, obtained: nat,
                   brk': nat)
    requires Inv(base, ptr, size, list, live, brk, obtained) && brk <= brk'
    ensures Inv(base, ptr, size, list, live, brk', obtained)
  {
    hide Units, Chain, Separate;
  }

  lemma HeldKept(base: nat, ptr: Ptrs, size: Sizes, list: seq<nat>, live: seq<nat>, brk: nat, obtained: nat)
    requires Inv(base, ptr, size, list, live, brk, obtained)
    ensures forall l :: 0 <= l < |live| ==> live[l] in size && live[l] != brk
  {
  }

  /** What free reads around the place of bp. */
  ghost predicate Neighbours(ptr: Ptrs, size: Sizes, list: seq<nat>, bp: nat, t: nat) {
    && bp in size && t < |list| && list[t] in ptr && list[t] in size && bp != list[t]
    && ptr[list[t]] == Wrap(list, t + 1)
    && (t + 1 == |list| ==> End(size, bp) != list[0])
    && (t + 1 < |list| ==> list[t + 1] in ptr && list[t + 1] in size && ptr[list[t + 1]] == Wrap(list, t + 2))
    && (t + 1 < |list| ==> list[t + 1] != bp && list[t + 1] != list[t])
  }

  lemma FreedNeighbours(base: nat, ptr: Ptrs, size: Sizes, list: seq<nat>, live: seq<nat>, brk: nat, obtained: nat,
                        bp: nat, t: nat, k: nat)
    requires Inv(base, ptr, size, list, live, brk, obtained) && k < |live| && live[k] == bp && Place(list, bp, t)
    ensures Neighbours(ptr, size, list, bp, t)
  {
    FreedDistinct(base, size, list, live, brk, bp, t, k);
    hide Held, Separate, Apart;
  }

  /** After free, the block at freep or its successor covers the freed block; held blocks keep their sizes. */
  lemma FreedRoom(base: nat, ptr: Ptrs, size: Sizes, list: seq<nat>, live: seq<nat>, brk: nat, obtained: nat, bp: nat,
                  t: nat, k: nat)
    requires Inv(base, ptr, size, list, live, brk, obtained) && k < |live| && live[k] == bp && Place(list, bp, t)
    requires bp in size && list[t] in size && (t + 1 < |list| ==> list[t + 1] in size)
    ensures list[t] >= base
    ensures var s, q := SizesFreed(size, list, bp, t), PtrsFreed(ptr, size, list, bp, t);
      && list[t] in s && list[t] in q && q[list[t]] in s && (s[list[t]] >= size[bp] || s[q[list[t]]] >= size[bp])
      && (forall l :: 0 <= l < |Drop(live, k)| ==> var d := Drop(live, k)[l]; d in size && d in s && s[d] == size[d])
  {
    FreedDistinct(base, size, list, live, brk, bp, t, k);
    HeldSizes(base, size, list, live, brk, bp, t, k);
    hide Ordered, Held, Separate, Apart;
    forall l | 0 <= l < |Drop(live, k)| ensures Drop(live, k)[l] == if l < k then live[l] else live[l + 1] {}
    assert Rest(size, list, bp, t) < |list| ==> list[Rest(size, list, bp, t)] in list;
  }

  lemma Bounds(base: nat, ptr: Ptrs, size: Sizes, list: seq<nat>, live: seq<nat>, brk: nat, obtained: nat, k: nat)
    requires Inv(base, ptr, size, list, live, brk, obtained) && k < |live|
    ensures base < live[k] && live[k] !in list
  {
    forall i | 0 <= i < |list| ensures list[i] != live[k] {
      assert Apart(size, list[i], live[k]);
    }
  }
}
