/**
 The cache of FAT sectors (fat_cache_* in kernel/fat32.c): thirty-two entries threaded on a doubly
 linked list in order of use, in front of read_fat and write_fat, and bypassed by alloc_clus.

 `disk` is what bread and bwrite see, every sector as CELLS cells of 32 bits; the first FAT begins
 behind the reserved sectors.
 */
module FatCache {
  import opened Common

  const CAPACITY: nat := 32
  const CELLS: nat := 128
  const INVALID: nat := 0xFFFF_FFFF
  const EOC: nat := 0x0FFF_FFF8
  const NIL: int := -1

  type Cells = s: seq<nat> | |s| == CELLS witness seq(CELLS, _ => 0)

  // ---------------------------------------------------------------- the list

  ghost predicate Within(q: seq<nat>, n: nat) {
    forall i :: 0 <= i < |q| ==> q[i] < n
  }

  ghost predicate NextThreads(next: seq<int>, q: seq<nat>) {
    && Within(q, |next|)
    && (forall i, j :: 0 <= i && j == i + 1 && j < |q| ==> next[q[i]] == q[j])
    && (q != [] ==> next[q[|q| - 1]] == NIL)
  }

  ghost predicate PrevThreads(prev: seq<int>, q: seq<nat>) {
    && Within(q, |prev|)
    && (forall i, j :: 0 <= i && j == i + 1 && j < |q| ==> prev[q[j]] == q[i])
    && (q != [] ==> prev[q[0]] == NIL)
  }

  /** next and prev thread exactly the entries of `order`, from head to tail. */
  ghost predicate Linked(next: seq<int>, prev: seq<int>, head: int, tail: int, order: seq<nat>) {
    && |next| == |prev| && Distinct(order)
    && NextThreads(next, order) && PrevThreads(prev, order)
    && head == (if order == [] then NIL else order[0])
    && tail == (if order == [] then NIL else order[|order| - 1])
  }

  /** next and prev after fat_cache_remove_from_list(e). */
  function NextAfterRemove(next: seq<int>, prev: seq<int>, e: nat): seq<int>
    requires |next| == |prev| && e < |next| && (prev[e] == NIL || 0 <= prev[e] < |next|)
  {
    (if prev[e] != NIL then next[prev[e] := next[e]] else next)[e := NIL]
  }

  function PrevAfterRemove(next: seq<int>, prev: seq<int>, e: nat): seq<int>
    requires |next| == |prev| && e < |next| && (next[e] == NIL || 0 <= next[e] < |next|)
  {
    (if next[e] != NIL then prev[next[e] := prev[e]] else prev)[e := NIL]
  }

  lemma Removed(next: seq<int>, prev: seq<int>, head: int, tail: int, order: seq<nat>, k: nat)
    requires Linked(next, prev, head, tail, order) && k < |order|
    ensures |next| == |prev|
    ensures var e := order[k];
      && e < |next| && (prev[e] == NIL || 0 <= prev[e] < |next|) && (next[e] == NIL || 0 <= next[e] < |next|)
      && Linked(NextAfterRemove(next, prev, e), PrevAfterRemove(next, prev, e),
                if prev[e] == NIL then next[e] else head, if next[e] == NIL then prev[e] else tail, Drop(order, k))
  {
    var e, q := order[k], Drop(order, k);
    assert prev[e] == if k > 0 then order[k - 1] else NIL;
    assert next[e] == if k + 1 < |order| then order[k + 1] else NIL;
    RemovedNext(next, prev, head, tail, order, k);
    RemovedPrev(next, prev, head, tail, order, k);
    hide NextAfterRemove, PrevAfterRemove;
    forall i | 0 <= i < |q| ensures q[i] == if i < k then order[i] else order[i + 1] {}
  }

  lemma RemovedNext(next: seq<int>, prev: seq<int>, head: int, tail: int, order: seq<nat>, k: nat)
    requires Linked(next, prev, head, tail, order) && k < |order|
    ensures var e, q := order[k], Drop(order, k);
      && (prev[e] == NIL || 0 <= prev[e] < |next|)
      && NextThreads(NextAfterRemove(next, prev, e), q)
  {
    var e, q := order[k], Drop(order, k);
    assert prev[e] == if k > 0 then order[k - 1] else NIL;
    assert next[e] == if k + 1 < |order| then order[k + 1] else NIL;
    var n := NextAfterRemove(next, prev, e);
    forall i, j | 0 <= i && j == i + 1 && j < |q| ensures n[q[i]] == q[j] {
      assert q[i] == (if i < k then order[i] else order[i + 1]) && q[j] == (if j < k then order[j] else order[j + 1]);
    }
    assert NextThreads(n, q);
  }

  lemma RemovedPrev(next: seq<int>, prev: seq<int>, head: int, tail: int, order: seq<nat>, k: nat)
    requires Linked(next, prev, head, tail, order) && k < |order|
    ensures var e, q := order[k], Drop(order, k);
      && (next[e] == NIL || 0 <= next[e] < |next|)
      && PrevThreads(PrevAfterRemove(next, prev, e), q)
  {
    var e, q := order[k], Drop(order, k);
    assert prev[e] == if k > 0 then order[k - 1] else NIL;
    assert next[e] == if k + 1 < |order| then order[k + 1] else NIL;
    var p := PrevAfterRemove(next, prev, e);
    forall i, j | 0 <= i && j == i + 1 && j < |q| ensures p[q[j]] == q[i] {
      assert q[i] == (if i < k then order[i] else order[i + 1]) && q[j] == (if j < k then order[j] else order[j + 1]);
    }
    assert PrevThreads(p, q);
  }

  /** fat_cache_add_to_head. */
  lemma Added(next: seq<int>, prev: seq<int>, head: int, tail: int, order: seq<nat>, e: nat)
    requires Linked(next, prev, head, tail, order) && e < |next| && e !in order
    ensures |next| == |prev| && (head == NIL || 0 <= head < |next|)
    ensures Linked(next[e := head], (if head != NIL then prev[e := NIL][head := e] else prev[e := NIL]),
                   e, if tail == NIL then e else tail, [e] + order)
  {
    var q := [e] + order;
    forall i | 0 <= i < |q| ensures q[i] == if i == 0 then e else order[i - 1] {}
  }

  // ---------------------------------------------------------------- what the cache holds

  datatype Line = Line(sector: nat, cells: Cells)

  /** Entries on the list are exactly the valid ones, and no sector is cached twice. */
  ghost predicate Holds(sector: seq<nat>, order: seq<nat>) {
    && |sector| == CAPACITY && Within(order, CAPACITY)
    && (forall e :: 0 <= e < CAPACITY ==> (sector[e] != INVALID <==> e in order))
    && (forall i, j :: 0 <= i < j < |order| ==> sector[order[i]] != sector[order[j]])
  }

  /** The cached sectors with their contents, most recently used first. */
  ghost function Lines(sector: seq<nat>, data: seq<Cells>, order: seq<nat>): (q: seq<Line>)
    requires |sector| == |data| && Within(order, |sector|)
    ensures |q| == |order|
    ensures forall i :: 0 <= i < |q| ==> q[i] == Line(sector[order[i]], data[order[i]])
  {
    if order == [] then [] else [Line(sector[order[0]], data[order[0]])] + Lines(sector, data, order[1..])
  }

  /** Where sector s is in q, |q| when it is absent. */
  ghost function Place(q: seq<Line>, s: nat): (k: nat)
    ensures k <= |q| && forall i :: 0 <= i < k ==> q[i].sector != s
    ensures k < |q| ==> q[k].sector == s
  {
    if q == [] then 0 else if q[0].sector == s then 0 else 1 + Place(q[1..], s)
  }

  ghost predicate Cached(q: seq<Line>, s: nat) {
    Place(q, s) < |q|
  }

  /** The reference cache: the line comes to the front and, when it is new and the cache is full, the last one goes. */
  ghost function Used(q: seq<Line>, l: Line): seq<Line> {
    var k := Place(q, l.sector);
    if k < |q| then [l] + q[..k] + q[k + 1..]
    else if |q| < CAPACITY then [l] + q
    else [l] + q[..CAPACITY - 1]
  }

  // ---------------------------------------------------------------- counting entries

  /** The list is never longer than the table, and has its full length exactly when no entry is free. */
  lemma ListLength(sector: seq<nat>, order: seq<nat>)
    requires Holds(sector, order) && Distinct(order)
    ensures |order| <= 32
    ensures |order| == 32 <==> forall e :: 0 <= e < CAPACITY ==> sector[e] != INVALID
  {
    DistinctSize(order);
    SubsetSize(Elements(order), Upto(CAPACITY));
    if e: nat :| e < CAPACITY && sector[e] == INVALID {
      SubsetSize(Elements(order) + {e}, Upto(CAPACITY));
    } else {
      SubsetSize(Upto(CAPACITY), Elements(order));
    }
  }

  // ---------------------------------------------------------------- least recently used

  ghost function Names(q: seq<Line>): (n: seq<nat>)
    ensures |n| == |q| && forall i :: 0 <= i < |q| ==> n[i] == q[i].sector
  {
    if q == [] then [] else [q[0].sector] + Names(q[1..])
  }

  ghost function Without(u: seq<nat>, s: nat): (r: seq<nat>)
    ensures s !in u ==> r == u
  {
    if u == [] then [] else (if u[0] == s then [] else [u[0]]) + Without(u[1..], s)
  }

  /** The distinct sectors of a history of uses, in order of last use, newest first. */
  ghost function ByLastUse(h: seq<nat>): seq<nat> {
    if h == [] then [] else var s := h[|h| - 1]; [s] + Without(ByLastUse(h[..|h| - 1]), s)
  }

  ghost function Newest(u: seq<nat>): seq<nat> {
    if |u| <= CAPACITY then u else u[..CAPACITY]
  }

  /** What using s does to a list n of sectors in which it is at place k. */
  ghost function Moved(n: seq<nat>, s: nat, k: nat): seq<nat>
    requires k <= |n|
  {
    if k < |n| then [s] + n[..k] + n[k + 1..] else if k < CAPACITY then [s] + n else [s] + n[..CAPACITY - 1]
  }

  lemma {:induction false} WithoutAt(u: seq<nat>, k: nat)
    requires Distinct(u) && k < |u|
    ensures Without(u, u[k]) == u[..k] + u[k + 1..]
  {
    assert Distinct(u[1..]);
    if k == 0 {
      assert u[0] !in u[1..];
    } else {
      WithoutAt(u[1..], k - 1);
      assert u[..k] == [u[0]] + u[1..][..k - 1];
    }
  }

  lemma FrontDistinct(u: seq<nat>, k: nat)
    requires Distinct(u) && k < |u|
    ensures Distinct([u[k]] + (u[..k] + u[k + 1..]))
  {
    var v := [u[k]] + (u[..k] + u[k + 1..]);
    forall i | 0 <= i < |v| ensures v[i] == u[if i == 0 then k else if i <= k then i - 1 else i] {}
  }

  lemma {:induction false} ByLastUseDistinct(h: seq<nat>)
    ensures Distinct(ByLastUse(h))
  {
    hide Distinct;
    if h == [] {
      NoneDistinct();
    } else {
      var s, u := h[|h| - 1], ByLastUse(h[..|h| - 1]);
      ByLastUseDistinct(h[..|h| - 1]);
      if s in u {
        var k :| 0 <= k < |u| && u[k] == s;
        WithoutAt(u, k);
        FrontDistinct(u, k);
      } else {
        NewDistinct(u, s);
      }
    }
  }

  lemma NoneDistinct()
    ensures Distinct([])
  {
  }

  lemma NewDistinct(u: seq<nat>, s: nat)
    requires Distinct(u) && s !in u
    ensures Distinct([s] + u)
  {
  }

  lemma TakeMoved(u: seq<nat>, x: nat, m: nat, n: nat)
    requires m < n <= |u|
    ensures ([x] + u[..m] + u[m + 1..])[..n] == [x] + u[..n][..m] + u[..n][m + 1..]
  {
    var a, b := ([x] + u[..m] + u[m + 1..])[..n], [x] + u[..n][..m] + u[..n][m + 1..];
    forall i | 0 <= i < n ensures a[i] == b[i] {}
  }

  lemma AgainUsed(u: seq<nat>, m: nat)
    requires Distinct(u) && m < |u|
    ensures Newest([u[m]] + Without(u, u[m])) == Moved(Newest(u), u[m], if m < CAPACITY then m else CAPACITY)
  {
    hide Without, Distinct;
    WithoutAt(u, m);
    assert [u[m]] + Without(u, u[m]) == [u[m]] + u[..m] + u[m + 1..];
    if m >= CAPACITY {
      assert ([u[m]] + u[..m] + u[m + 1..])[..CAPACITY] == [u[m]] + u[..CAPACITY][..CAPACITY - 1];
    } else if |u| > CAPACITY {
      TakeMoved(u, u[m], m, CAPACITY);
    }
  }

  lemma NewlyUsed(u: seq<nat>, s: nat)
    ensures Newest([s] + u) == Moved(Newest(u), s, |Newest(u)|)
  {
  }

  lemma UsedNames(q: seq<Line>, l: Line)
    ensures Names(Used(q, l)) == Moved(Names(q), l.sector, Place(q, l.sector))
  {
    hide Place, Names;
    var a, b := Names(Used(q, l)), Moved(Names(q), l.sector, Place(q, l.sector));
    forall i | 0 <= i < |a| ensures a[i] == b[i] {
      assert a[i] == Used(q, l)[i].sector;
    }
  }

  lemma PlaceInHistory(q: seq<Line>, u: seq<nat>, s: nat, m: nat)
    requires Names(q) == Newest(u) && Distinct(u) && m < |u| && u[m] == s
    ensures Place(q, s) == if m < CAPACITY then m else CAPACITY
  {
    hide Place, Names;
    var k := Place(q, s);
    assert k < |q| ==> u[k] == Names(q)[k] == s;
    assert m < |q| ==> q[m].sector == Names(q)[m];
  }

  /** The reference cache holds exactly the CAPACITY sectors used last, in order of use. */
  lemma MostRecent(h: seq<nat>, q: seq<Line>, l: Line)
    requires Names(q) == Newest(ByLastUse(h))
    ensures Names(Used(q, l)) == Newest(ByLastUse(h + [l.sector]))
  {
    hide Without, Distinct, Newest, Names, Used, Moved, Place;
    var s, u := l.sector, ByLastUse(h);
    assert (h + [s])[..|h|] == h;
    assert ByLastUse(h + [s]) == [s] + Without(u, s);
    ByLastUseDistinct(h);
    UsedNames(q, l);
    if s in u {
      var m :| 0 <= m < |u| && u[m] == s;
      PlaceInHistory(q, u, s, m);
      AgainUsed(u, m);
    } else {
      NotInHistory(q, u, s);
      NewlyUsed(u, s);
    }
  }

  lemma NotInHistory(q: seq<Line>, u: seq<nat>, s: nat)
    requires Names(q) == Newest(u) && s !in u
    ensures Place(q, s) == |Newest(u)|
  {
    hide Place, Names;
    assert forall i :: 0 <= i < |q| ==> q[i].sector == Names(q)[i] && Names(q)[i] in u;
  }

  // ---------------------------------------------------------------- coherence with the disk

  const CLAIM: nat := EOC + 7

  datatype Cell = Cell(sector: nat, index: nat)

  /** A cached line agrees with the disk except at the claimed cells, which it still shows as free. */
  ghost predicate Fresh(l: Line, disk: seq<Cells>, claimed: set<Cell>) {
    && l.sector < |disk|
    && forall j :: 0 <= j < CELLS ==> Seen(l.cells[j], disk[l.sector][j], Cell(l.sector, j) in claimed)
  }

  ghost predicate Seen(cached: nat, stored: nat, claimed: bool) {
    if claimed then cached == 0 && stored == CLAIM else cached == stored
  }

  /** `claimed` are the cells alloc_clus took since their cached sector was last loaded or written through. */
  ghost predicate Coherent(q: seq<Line>, disk: seq<Cells>, claimed: set<Cell>) {
    && (forall i :: 0 <= i < |q| ==> Fresh(q[i], disk, claimed))
    && forall c :: c in claimed ==> Cached(q, c.sector)
  }

  /** What stays claimed when the cache is q. */
  ghost function StillCached(claimed: set<Cell>, q: seq<Line>): (r: set<Cell>) {
    set c | c in claimed && Cached(q, c.sector)
  }

  ghost function NotOf(claimed: set<Cell>, s: nat): (r: set<Cell>) {
    set c | c in claimed && c.sector != s
  }

  ghost predicate NamesDistinct(q: seq<Line>) {
    forall i, j :: 0 <= i < j < |q| ==> q[i].sector != q[j].sector
  }

  /** The lines after a use are the new line and old ones; only the last old one can be missing. */
  lemma UsedLines(q: seq<Line>, l: Line)
    requires NamesDistinct(q)
    requires |q| <= CAPACITY
    ensures var r := Used(q, l);
      && r[0] == l
      && (forall i :: 0 < i < |r| ==> r[i] in q && r[i].sector != l.sector)
      && (forall s :: Cached(r, s) ==> s == l.sector || Cached(q, s))
      && Cached(r, l.sector)
      && (Cached(q, l.sector) ==> forall s :: Cached(q, s) ==> Cached(r, s))
  {
    hide Place;
    var r, k := Used(q, l), Place(q, l.sector);
    forall i | 0 < i < |r| ensures r[i] in q && r[i].sector != l.sector {
      assert r[i] == if k < |q| && i > k then q[i] else q[i - 1];
    }
    forall s | Cached(r, s) && s != l.sector ensures Cached(q, s) {
      assert r[Place(r, s)] in q;
    }
    if k < |q| {
      forall s | Cached(q, s) ensures Cached(r, s) {
        var m := Place(q, s);
        assert m == k ==> r[0].sector == s;
        assert m < k ==> r[m + 1].sector == s;
        assert m > k ==> r[m].sector == s;
      }
    }
  }

  /** A hit only reorders the lines. */
  lemma HitCoherent(q: seq<Line>, disk: seq<Cells>, claimed: set<Cell>, s: nat)
    requires Coherent(q, disk, claimed) && Cached(q, s) && |q| <= CAPACITY
    requires NamesDistinct(q)
    ensures Coherent(Used(q, q[Place(q, s)]), disk, claimed)
  {
    hide Place, Fresh, Used;
    UsedLines(q, q[Place(q, s)]);
  }

  /** A miss loads what the disk has; the claims on an evicted sector are forgotten with it. */
  lemma MissCoherent(q: seq<Line>, disk: seq<Cells>, claimed: set<Cell>, s: nat)
    requires Coherent(q, disk, claimed) && !Cached(q, s) && |q| <= CAPACITY && s < |disk|
    requires NamesDistinct(q)
    ensures var r := Used(q, Line(s, disk[s])); Coherent(r, disk, StillCached(claimed, r))
  {
    hide Place, Used;
    var l := Line(s, disk[s]);
    var r := Used(q, l);
    UsedLines(q, l);
    var kept := StillCached(claimed, r);
    assert forall j :: Cell(s, j) in claimed ==> Cached(q, Cell(s, j).sector);
    forall i | 0 <= i < |r| ensures Fresh(r[i], disk, kept) {
      if i > 0 {
        assert Fresh(r[i], disk, claimed);
        HeldAt(r, i);
      }
    }
  }

  lemma HeldAt(q: seq<Line>, i: nat)
    requires i < |q|
    ensures Cached(q, q[i].sector)
  {
    hide Place;
  }

  function Stored(disk: seq<Cells>, s: nat, j: nat, v: nat): (r: seq<Cells>)
    requires s < |disk| && j < CELLS
    ensures |r| == |disk| && r[s][j] == v
    ensures forall t, i :: 0 <= t < |disk| && 0 <= i < CELLS && (t != s || i != j) ==> r[t][i] == disk[t][i]
  {
    var cells: Cells := disk[s][j := v];
    disk[s := cells]
  }

  /** Writing through: the cached sector, if any, is replaced by what the disk now has. */
  lemma WriteCoherent(q: seq<Line>, disk: seq<Cells>, claimed: set<Cell>, s: nat, j: nat, v: nat)
    requires Coherent(q, disk, claimed) && |q| <= CAPACITY && NamesDistinct(q) && s < |disk| && j < CELLS
    ensures var d := Stored(disk, s, j, v);
      Coherent(if Cached(q, s) then Used(q, Line(s, d[s])) else q, d, NotOf(claimed, s))
  {
    hide Place, Used;
    var d := Stored(disk, s, j, v);
    var l, kept := Line(s, d[s]), NotOf(claimed, s);
    UsedLines(q, l);
    forall m: Line | m in q && m.sector != s ensures Fresh(m, d, kept) {
      assert Fresh(m, disk, claimed);
    }
    if !Cached(q, s) {
      forall i | 0 <= i < |q| ensures Fresh(q[i], d, kept) {
        HeldAt(q, i);
        assert q[i] in q;
      }
    }
  }

  /** Claiming a free cell behind the cache's back: a cached copy of its sector keeps the old zero. */
  lemma ClaimCoherent(q: seq<Line>, disk: seq<Cells>, claimed: set<Cell>, s: nat, j: nat)
    requires Coherent(q, disk, claimed) && s < |disk| && j < CELLS && disk[s][j] == 0
    ensures Coherent(q, Stored(disk, s, j, CLAIM), if Cached(q, s) then claimed + {Cell(s, j)} else claimed)
  {
    hide Place;
    var d := Stored(disk, s, j, CLAIM);
    var more := if Cached(q, s) then claimed + {Cell(s, j)} else claimed;
    forall i | 0 <= i < |q| ensures Fresh(q[i], d, more) {
      assert Fresh(q[i], disk, claimed);
      HeldAt(q, i);
      forall k | 0 <= k < CELLS
        ensures Seen(q[i].cells[k], d[q[i].sector][k], Cell(q[i].sector, k) in more)
      {
        assert Seen(q[i].cells[k], disk[q[i].sector][k], Cell(q[i].sector, k) in claimed);
      }
    }
  }

  // ---------------------------------------------------------------- the cache's lines under list operations

  /** Bringing entry order[k] to the front, with whatever it then contains. */
  lemma FrontLines(sector: seq<nat>, data: seq<Cells>, order: seq<nat>, k: nat, cells: Cells)
    requires |data| == CAPACITY && Holds(sector, order) && Distinct(order) && k < |order|
    ensures order[k] < CAPACITY
    ensures var e := order[k];
      var q := Lines(sector, data, order);
      && Place(q, sector[e]) == k
      && Lines(sector, data[e := cells], [e] + Drop(order, k)) == Used(q, Line(sector[e], cells))
  {
    hide Place, Lines;
    var e := order[k];
    var q := Lines(sector, data, order);
    var o := [e] + Drop(order, k);
    assert q[k].sector == sector[e];
    var a, b := Lines(sector, data[e := cells], o), Used(q, Line(sector[e], cells));
    forall i | 0 <= i < |a| ensures a[i] == b[i] {
      assert o[i] == if i == 0 then e else if i <= k then order[i - 1] else order[i];
    }
  }

  lemma FrontSame(order: seq<nat>, k: nat, e: nat)
    requires k < |order|
    ensures e in order <==> e in [order[k]] + Drop(order, k)
  {
    var o := [order[k]] + Drop(order, k);
    if e in order {
      var m :| 0 <= m < |order| && order[m] == e;
      assert o[if m == k then 0 else if m < k then m + 1 else m] == e;
    }
  }

  function FrontIndex(k: nat, i: nat): nat {
    if i == 0 then k else if i <= k then i - 1 else i
  }

  lemma FrontAt(order: seq<nat>, k: nat, i: nat)
    requires k < |order| && i < |order|
    ensures |[order[k]] + Drop(order, k)| == |order|
    ensures ([order[k]] + Drop(order, k))[i] == order[FrontIndex(k, i)]
  {
  }

  lemma NamesApart(sector: seq<nat>, order: seq<nat>, a: nat, b: nat)
    requires Holds(sector, order) && a < |order| && b < |order| && a != b
    ensures sector[order[a]] != sector[order[b]]
  {
  }

  /** The order after a move to the front still lists exactly the valid entries. */
  lemma FrontHolds(sector: seq<nat>, order: seq<nat>, k: nat)
    requires Holds(sector, order) && k < |order|
    ensures Holds(sector, [order[k]] + Drop(order, k))
  {
    hide Drop;
    FrontAt(order, k, 0);
    var o := [order[k]] + Drop(order, k);
    forall i | 0 <= i < |o| ensures o[i] < CAPACITY {
      FrontAt(order, k, i);
    }
    forall e | 0 <= e < CAPACITY ensures sector[e] != INVALID <==> e in o {
      FrontSame(order, k, e);
    }
    forall i, j | 0 <= i < j < |o| ensures sector[o[i]] != sector[o[j]] {
      FrontAt(order, k, i);
      FrontAt(order, k, j);
      NamesApart(sector, order, FrontIndex(k, i), FrontIndex(k, j));
    }
  }

  /** Filling a free entry. */
  lemma FillLines(sector: seq<nat>, data: seq<Cells>, order: seq<nat>, e: nat, s: nat, cells: Cells)
    requires |data| == CAPACITY && Holds(sector, order) && e < CAPACITY && sector[e] == INVALID && s != INVALID
    requires Distinct(order) && !Cached(Lines(sector, data, order), s)
    ensures Holds(sector[e := s], [e] + order)
    ensures Lines(sector[e := s], data[e := cells], [e] + order) == Used(Lines(sector, data, order), Line(s, cells))
  {
    hide Place, Lines;
    var q := Lines(sector, data, order);
    var o := [e] + order;
    assert e !in order;
    ListLength(sector, order);
    forall i | 0 <= i < |order| ensures sector[order[i]] != s {
      HeldAt(q, i);
    }
    forall i | 0 <= i < |o| ensures o[i] == (if i == 0 then e else order[i - 1]) {}
    var a, b := Lines(sector[e := s], data[e := cells], o), Used(q, Line(s, cells));
    forall i | 0 <= i < |a| ensures a[i] == b[i] {}
  }

  /** Reusing the last entry of a full list. */
  lemma EvictLines(sector: seq<nat>, data: seq<Cells>, order: seq<nat>, s: nat, cells: Cells)
    requires |data| == CAPACITY && Holds(sector, order) && s != INVALID && |order| == CAPACITY
    requires Distinct(order) && !Cached(Lines(sector, data, order), s)
    ensures var e, o := order[CAPACITY - 1], order[..CAPACITY - 1];
      && e < CAPACITY && Holds(sector[e := s], [e] + o)
      && Lines(sector[e := s], data[e := cells], [e] + o) == Used(Lines(sector, data, order), Line(s, cells))
  {
    var q := Lines(sector, data, order);
    forall i | 0 <= i < |order| ensures sector[order[i]] != s {
      HeldAt(q, i);
    }
    EvictHolds(sector, order, s);
    hide Place, Lines, Holds;
    var e, o := order[CAPACITY - 1], [order[CAPACITY - 1]] + order[..CAPACITY - 1];
    var a, b := Lines(sector[e := s], data[e := cells], o), Used(q, Line(s, cells));
    forall i | 0 <= i < |a| ensures a[i] == b[i] {
      assert o[i] == if i == 0 then e else order[i - 1];
    }
  }

  lemma EvictHolds(sector: seq<nat>, order: seq<nat>, s: nat)
    requires Holds(sector, order) && s != INVALID && |order| == CAPACITY && Distinct(order)
    requires forall i :: 0 <= i < |order| ==> sector[order[i]] != s
    ensures var e, o := order[CAPACITY - 1], order[..CAPACITY - 1];
      e < CAPACITY && Holds(sector[e := s], [e] + o) && Within([e] + o, CAPACITY)
  {
    var e, o := order[CAPACITY - 1], [order[CAPACITY - 1]] + order[..CAPACITY - 1];
    ListLength(sector, order);
    forall i | 0 <= i < |o| ensures o[i] == (if i == 0 then e else order[i - 1]) {}
    forall x | 0 <= x < CAPACITY ensures x in order <==> x in o {
      if x in order {
        var m :| 0 <= m < |order| && order[m] == x;
        assert o[if m == CAPACITY - 1 then 0 else m + 1] == x;
      }
    }
  }

  lemma LinesShape(sector: seq<nat>, data: seq<Cells>, order: seq<nat>)
    requires |data| == CAPACITY && Holds(sector, order) && Distinct(order)
    ensures var q := Lines(sector, data, order); NamesDistinct(q) && |q| <= CAPACITY
  {
    hide Lines;
    ListLength(sector, order);
  }

  // ---------------------------------------------------------------- the uncached table

  datatype Op = Read(c: nat) | Write(c: nat, v: nat) | Alloc
  datatype Out = Content(v: nat) | Refused | Written | Claimed(c: nat) | NoClusters

  /** Where the cell of cluster c is: fat_sec_of_clus in the first FAT, and the offset as a cell index. */
  function SectorOf(reserved: nat, c: nat): nat {
    reserved + c / CELLS
  }

  /** Four bytes a cell, one behind the other from the first sector of the table on. */
  lemma CellAddress(reserved: nat, c: nat)
    ensures 512 * SectorOf(reserved, c) + 4 * (c % CELLS) == 512 * reserved + 4 * c
  {
  }

  datatype Layout = Layout(reserved: nat, fatSectors: nat, clusters: nat)

  function CellOf(g: Layout, c: nat): Cell {
    Cell(SectorOf(g.reserved, c), c % CELLS)
  }

  ghost predicate Fits(g: Layout, disk: seq<Cells>) {
    g.reserved + g.fatSectors <= |disk| <= INVALID && (g.clusters + 1) / CELLS < g.fatSectors && g.clusters + 1 < EOC
  }

  function CellAt(g: Layout, disk: seq<Cells>, c: nat): nat
    requires g.reserved + g.fatSectors <= |disk| && c < g.fatSectors * CELLS
  {
    disk[SectorOf(g.reserved, c)][c % CELLS]
  }

  /** The first cluster from c on whose cell is zero, the number of cells when there is none. */
  function NextFree(g: Layout, disk: seq<Cells>, c: nat): (r: nat)
    requires g.reserved + g.fatSectors <= |disk| && c <= g.fatSectors * CELLS
    ensures c <= r <= g.fatSectors * CELLS && (r < g.fatSectors * CELLS ==> CellAt(g, disk, r) == 0)
    ensures forall k :: c <= k < r ==> CellAt(g, disk, k) != 0
    decreases g.fatSectors * CELLS - c
  {
    if c == g.fatSectors * CELLS || CellAt(g, disk, c) == 0 then c else NextFree(g, disk, c + 1)
  }

  /** What an operation gives and leaves when every access goes to the disk. */
  function Answer(g: Layout, disk: seq<Cells>, op: Op): Out
    requires Fits(g, disk)
  {
    match op
    case Read(c) =>
      if c >= EOC then Content(c) else if c > g.clusters + 1 then Content(0) else Content(CellAt(g, disk, c))
    case Write(c, _) => if c > g.clusters + 1 then Refused else Written
    case Alloc => var c := NextFree(g, disk, 0); if c < g.fatSectors * CELLS then Claimed(c) else NoClusters
  }

  function After(g: Layout, disk: seq<Cells>, op: Op): (r: seq<Cells>)
    requires Fits(g, disk)
    ensures |r| == |disk|
  {
    match op
    case Read(_) => disk
    case Write(c, v) => if c > g.clusters + 1 then disk else Stored(disk, SectorOf(g.reserved, c), c % CELLS, v)
    case Alloc =>
      var c := NextFree(g, disk, 0);
      if c < g.fatSectors * CELLS then Stored(disk, SectorOf(g.reserved, c), c % CELLS, CLAIM) else disk
  }

  /** A whole run on the disk alone; nothing runs after the panic of alloc_clus. */
  function Answers(g: Layout, disk: seq<Cells>, ops: seq<Op>): seq<Out>
    requires Fits(g, disk)
    decreases |ops|
  {
    if ops == [] then [] else
      var o := Answer(g, disk, ops[0]);
      if o == NoClusters then [o] else [o] + Answers(g, After(g, disk, ops[0]), ops[1..])
  }

  function Final(g: Layout, disk: seq<Cells>, ops: seq<Op>): seq<Cells>
    requires Fits(g, disk)
    decreases |ops|
  {
    if ops == [] || Answer(g, disk, ops[0]) == NoClusters then disk else Final(g, After(g, disk, ops[0]), ops[1..])
  }

  /** The same answer, or a stale zero where the disk has the end-of-chain mark of alloc_clus. */
  ghost predicate Agrees(o: Out, ref: Out) {
    o == ref || (o == Content(0) && ref == Content(CLAIM))
  }

  // ---------------------------------------------------------------- what a later read depends on

  /** Which sectors are cached, last used first, and which cells are claimed. */
  datatype Memory = Memory(recent: seq<nat>, claimed: set<Cell>)

  /** Where s is in u, |u| when it is absent. */
  ghost function At(u: seq<nat>, s: nat): (k: nat)
    ensures k <= |u| && (k < |u| ==> u[k] == s) && (k < |u| <==> s in u) && forall i :: 0 <= i < k ==> u[i] != s
  {
    if u == [] then 0 else if u[0] == s then 0 else 1 + At(u[1..], s)
  }

  /** The sectors cached after a use of s. */
  ghost function Use(u: seq<nat>, s: nat): (r: seq<nat>)
    ensures s in r && r[0] == s
  {
    Moved(u, s, At(u, s))
  }

  /** What is remembered after read_fat, write_fat and the claim of alloc_clus on the cell of cluster c. */
  ghost function AfterRead(g: Layout, m: Memory, c: nat): Memory {
    var u := Use(m.recent, SectorOf(g.reserved, c));
    Memory(u, set k | k in m.claimed && k.sector in u)
  }

  ghost function AfterWrite(g: Layout, m: Memory, c: nat): Memory {
    var s := SectorOf(g.reserved, c);
    Memory(if s in m.recent then Use(m.recent, s) else m.recent, NotOf(m.claimed, s))
  }

  ghost function AfterClaim(g: Layout, m: Memory, c: nat): Memory {
    if SectorOf(g.reserved, c) in m.recent then m.(claimed := m.claimed + {CellOf(g, c)}) else m
  }

  lemma CachedNamed(q: seq<Line>, s: nat)
    ensures Cached(q, s) <==> s in Names(q)
    ensures Place(q, s) == At(Names(q), s)
  {
    hide Place, Names, At;
    var k := Place(q, s);
    assert k < |q| ==> Names(q)[k] == s;
    assert At(Names(q), s) < |q| ==> q[At(Names(q), s)].sector == s;
  }

  lemma UsedRecent(q: seq<Line>, l: Line)
    ensures Names(Used(q, l)) == Use(Names(q), l.sector)
  {
    hide Used, Moved;
    UsedNames(q, l);
    CachedNamed(q, l.sector);
  }

  lemma FilteredCached(q: seq<Line>, claimed: set<Cell>)
    ensures StillCached(claimed, q) == set k | k in claimed && k.sector in Names(q)
  {
    hide Cached, Names;
    forall k | k in claimed ensures Cached(q, k.sector) <==> k.sector in Names(q) {
      CachedNamed(q, k.sector);
    }
  }

  lemma AllCached(q: seq<Line>, disk: seq<Cells>, claimed: set<Cell>)
    requires Coherent(q, disk, claimed)
    ensures StillCached(claimed, q) == claimed
  {
    hide Cached;
  }

  ghost predicate TableOk(sector: seq<nat>, data: seq<Cells>, next: seq<int>, prev: seq<int>, head: int, tail: int,
                          order: seq<nat>)
  {
    |data| == CAPACITY == |next| && Holds(sector, order) && Linked(next, prev, head, tail, order)
  }

  lemma AbsentLine(sector: seq<nat>, data: seq<Cells>, order: seq<nat>, s: nat)
    requires |data| == CAPACITY && Holds(sector, order) && forall i :: 0 <= i < CAPACITY ==> sector[i] != s
    ensures !Cached(Lines(sector, data, order), s)
  {
    hide Place, Lines;
  }

  /** A sector found in the table is on the list, at the place of its line. */
  lemma FoundLine(sector: seq<nat>, data: seq<Cells>, order: seq<nat>, e: nat) returns (k: nat)
    requires |data| == CAPACITY && Holds(sector, order) && Distinct(order) && e < CAPACITY && sector[e] != INVALID
    ensures k < |order| && order[k] == e
    ensures var q := Lines(sector, data, order); Place(q, sector[e]) == k < |q| && q[k] == Line(sector[e], data[e])
  {
    hide Place, Lines;
    k :| 0 <= k < |order| && order[k] == e;
    var q := Lines(sector, data, order);
    HeldAt(q, k);
  }

  ghost predicate LruOk(q: seq<Line>, history: seq<nat>) {
    Names(q) == Newest(ByLastUse(history))
  }

  class Fat {
    const g: Layout
    var sector: seq<nat>
    var data: seq<Cells>
    var next: seq<int>
    var prev: seq<int>
    var head: int
    var tail: int
    var disk: seq<Cells>
    ghost var order: seq<nat>
    ghost var history: seq<nat>
    ghost var claimed: set<Cell>

    ghost predicate Table()
      reads this
    {
      TableOk(sector, data, next, prev, head, tail, order)
    }

    ghost function Cache(): seq<Line>
      requires Table()
      reads this
    {
      Lines(sector, data, order)
    }

    ghost predicate Valid(): (b: bool)
      reads this
      ensures b ==> Table() && Fits(g, disk)
    {
      Table() && Fits(g, disk) && LruOk(Cache(), history) && Coherent(Cache(), disk, claimed)
    }

    ghost function Mem(): Memory
      requires Table()
      reads this
    {
      Memory(Names(Cache()), claimed)
    }

    /** fat_cache_init. */
    constructor (g: Layout, disk: seq<Cells>)
      requires Fits(g, disk)
      ensures Valid() && Mem() == Memory([], {}) && this.g == g && this.disk == disk
    {
      this.g, this.disk := g, disk;
      sector, data := seq(CAPACITY, _ => INVALID), seq(CAPACITY, _ => seq(CELLS, _ => 0));
      next, prev, head, tail := seq(CAPACITY, _ => NIL), seq(CAPACITY, _ => NIL), NIL, NIL;
      order, history, claimed := [], [], {};
    }

    method RemoveFromList(e: nat, ghost k: nat)
      requires |next| == CAPACITY && Linked(next, prev, head, tail, order) && k < |order| && order[k] == e
      modifies `next, `prev, `head, `tail, `order
      ensures order == Drop(old(order), k) && |next| == CAPACITY && Linked(next, prev, head, tail, order)
    {
      hide Linked, Drop;
      Removed(next, prev, head, tail, order, k);
      var before, after := prev[e], next[e];
      if before != NIL {
        next := next[before := after];
      } else {
        head := after;
      }
      if after != NIL {
        prev := prev[after := before];
      } else {
        tail := before;
      }
      next := next[e := NIL];
      prev := prev[e := NIL];
      order := Drop(order, k);
    }

    method AddToHead(e: nat)
      requires |next| == CAPACITY && Linked(next, prev, head, tail, order) && e < CAPACITY && e !in order
      modifies `next, `prev, `head, `tail, `order
      ensures order == [e] + old(order) && |next| == CAPACITY && Linked(next, prev, head, tail, order)
    {
      hide Linked;
      Added(next, prev, head, tail, order, e);
      next := next[e := head];
      prev := prev[e := NIL];
      if head != NIL {
        prev := prev[head := e];
      }
      head := e;
      if tail == NIL {
        tail := e;
      }
      order := [e] + order;
    }

    /** The search loop over the entries that lookup, add and update share. */
    method Find(s: nat) returns (e: int)
      requires |sector| == CAPACITY
      ensures e == NIL ==> forall i :: 0 <= i < CAPACITY ==> sector[i] != s
      ensures e != NIL ==> 0 <= e < CAPACITY && sector[e] == s && forall i :: 0 <= i < e ==> sector[i] != s
    {
      for i := 0 to CAPACITY
        invariant forall j :: 0 <= j < i ==> sector[j] != s
      {
        if sector[i] == s {
          return i;
        }
      }
      return NIL;
    }

    /** Entry e, holding line k, becomes the most recently used one, containing cells. */
    method Refresh(e: nat, cells: Cells, ghost k: nat)
      requires Table() && LruOk(Cache(), history) && k < |order| && order[k] == e
      modifies `data, `next, `prev, `head, `tail, `order, `history
      ensures Table() && Cache() == Used(old(Cache()), Line(sector[e], cells)) && LruOk(Cache(), history)
      ensures data[e] == cells && history == old(history) + [sector[e]]
    {
      hide Place, Lines, Linked, Holds, LruOk, Used;
      TableParts();
      FrontLines(sector, data, order, k, cells);
      FrontHolds(sector, order, k);
      MostRecentOk(history, Cache(), Line(sector[e], cells));
      DropLacks(order, k);
      data := data[e := cells];
      RemoveFromList(e, k);
      AddToHead(e);
      history := history + [sector[e]];
    }

    /** fat_cache_lookup. */
    method Lookup(s: nat) returns (e: int)
      requires Table() && LruOk(Cache(), history) && s != INVALID
      modifies `data, `next, `prev, `head, `tail, `order, `history
      ensures Table() && LruOk(Cache(), history)
      ensures e == NIL <==> !Cached(old(Cache()), s)
      ensures e == NIL ==> Cache() == old(Cache())
      ensures e != NIL ==> 0 <= e < CAPACITY && Cache() == Used(old(Cache()), Line(s, data[e]))
      ensures e != NIL ==> old(Cache())[Place(old(Cache()), s)] == Line(s, data[e])
    {
      hide Place, Lines, Linked, Holds, LruOk, Used;
      TableParts();
      e := Find(s);
      if e == NIL {
        AbsentLine(sector, data, order, s);
      } else {
        ghost var k := FoundLine(sector, data, order, e);
        Refresh(e, data[e], k);
      }
    }

    /** fat_cache_add, called on a miss. */
    method Add(s: nat, cells: Cells)
      requires Table() && LruOk(Cache(), history) && s != INVALID && !Cached(Cache(), s)
      modifies `sector, `data, `next, `prev, `head, `tail, `order, `history
      ensures Table() && LruOk(Cache(), history) && Cache() == Used(old(Cache()), Line(s, cells))
    {
      hide Place, Lines, Linked, Holds, LruOk, Used;
      TableParts();
      MostRecentOk(history, Cache(), Line(s, cells));
      var e := Find(INVALID);
      if e == NIL {
        Evict(s, cells);
      } else {
        FillLines(sector, data, order, e, s, cells);
        FreeEntry(sector, order, e);
        sector := sector[e := s];
        data := data[e := cells];
        AddToHead(e);
      }
      history := history + [s];
    }

    /** The full-cache arm of fat_cache_add. */
    method Evict(s: nat, cells: Cells)
      requires Table() && s != INVALID && !Cached(Cache(), s)
      requires forall i :: 0 <= i < CAPACITY ==> sector[i] != INVALID
      modifies `sector, `data, `next, `prev, `head, `tail, `order
      ensures Table() && Cache() == Used(old(Cache()), Line(s, cells))
    {
      hide Place, Lines, Linked, Holds, LruOk, Used;
      TableParts();
      ListLength(sector, order);
      EvictLines(sector, data, order, s, cells);
      DropLacks(order, CAPACITY - 1);
      TailIsLast(next, prev, head, tail, order);
      assert Drop(order, CAPACITY - 1) == order[..CAPACITY - 1];
      var e := tail;
      RemoveFromList(e, CAPACITY - 1);
      sector := sector[e := s];
      data := data[e := cells];
      AddToHead(e);
    }

    /** fat_cache_update: a sector that is not cached stays out. */
    method Update(s: nat, cells: Cells)
      requires Table() && LruOk(Cache(), history) && s != INVALID
      modifies `data, `next, `prev, `head, `tail, `order, `history
      ensures Table() && LruOk(Cache(), history)
      ensures Cache() == if Cached(old(Cache()), s) then Used(old(Cache()), Line(s, cells)) else old(Cache())
    {
      hide Place, Lines, Linked, Holds, LruOk, Used;
      TableParts();
      var e := Find(s);
      if e == NIL {
        AbsentLine(sector, data, order, s);
      } else {
        ghost var k := FoundLine(sector, data, order, e);
        Refresh(e, cells, k);
      }
    }

    /** read_fat: the disk's cell, or a stale zero exactly where alloc_clus went past the cache. */
    method ReadFat(c: nat) returns (v: nat)
      requires Valid()
      modifies `sector, `data, `next, `prev, `head, `tail, `order, `history, `claimed
      ensures Valid() && claimed <= old(claimed)
      ensures Mem() == if c <= g.clusters + 1 then AfterRead(g, old(Mem()), c) else old(Mem())
      ensures c <= g.clusters + 1 ==> Cached(Cache(), SectorOf(g.reserved, c))
      ensures c >= EOC ==> v == c
      ensures c < EOC && c > g.clusters + 1 ==> v == 0
      ensures c <= g.clusters + 1 ==> Seen(v, CellAt(g, disk, c), CellOf(g, c) in old(claimed))
    {
      hide Place, Lines, Linked, Holds, LruOk, Used, Coherent, Fresh, Names, Use;
      if c >= EOC {
        return c;
      }
      if c > g.clusters + 1 {
        return 0;
      }
      var s, j := SectorOf(g.reserved, c), c % CELLS;
      TableParts();
      LinesShape(sector, data, order);
      ghost var q := Cache();
      var e := Lookup(s);
      if e != NIL {
        HitCoherent(q, disk, claimed, s);
        LineFresh(q, disk, claimed, s);
        v := data[e][j];
        assert Seen(v, disk[s][j], Cell(s, j) in claimed) by { SeenAt(q[Place(q, s)], disk, claimed, j); }
        AllCached(Cache(), disk, claimed);
      } else {
        MissCoherent(q, disk, claimed, s);
        NothingClaimed(q, disk, claimed, s, j);
        v := disk[s][j];
        Add(s, disk[s]);
        claimed := StillCached(claimed, Cache());
      }
      UsedRecent(q, Line(s, if e != NIL then data[e] else disk[s]));
      FilteredCached(Cache(), old(claimed));
      CachedNamed(Cache(), s);
    }

    /** write_fat: straight to the disk, then into the cache if the sector is there. */
    method WriteFat(c: nat, v: nat) returns (r: int)
      requires Valid()
      modifies `data, `next, `prev, `head, `tail, `order, `history, `claimed, `disk
      ensures Valid() && claimed <= old(claimed)
      ensures r == if c > g.clusters + 1 then -1 else 0
      ensures disk == After(g, old(disk), Write(c, v))
      ensures Mem() == if c <= g.clusters + 1 then AfterWrite(g, old(Mem()), c) else old(Mem())
    {
      hide Place, Lines, Linked, Holds, LruOk, Used, Coherent, Names, Use, Cached;
      if c > g.clusters + 1 {
        return -1;
      }
      var s, j := SectorOf(g.reserved, c), c % CELLS;
      TableParts();
      LinesShape(sector, data, order);
      ghost var q := Cache();
      WriteCoherent(q, disk, claimed, s, j, v);
      disk := Stored(disk, s, j, v);
      Update(s, disk[s]);
      claimed := NotOf(claimed, s);
      UsedRecent(q, Line(s, disk[s]));
      CachedNamed(q, s);
      return 0;
    }

    /** alloc_clus: the first zero cell on the disk, whatever data_clus_cnt says, and past the cache. */
    method AllocClus() returns (o: Out)
      requires Valid()
      modifies `disk, `claimed
      ensures Valid() && o == Answer(g, old(disk), Alloc) && disk == After(g, old(disk), Alloc)
      ensures Cache() == old(Cache())
      ensures Mem() == if o.Claimed? then AfterClaim(g, old(Mem()), o.c) else old(Mem())
    {
      hide Place, Lines, Linked, Holds, LruOk, Used, Coherent, Names, Cached;
      for i := 0 to g.fatSectors
        invariant NextFree(g, disk, 0) == NextFree(g, disk, i * CELLS)
        invariant Valid() && disk == old(disk) && claimed == old(claimed)
      {
        for j := 0 to CELLS
          invariant NextFree(g, disk, 0) == NextFree(g, disk, i * CELLS + j)
          invariant Valid() && disk == old(disk) && claimed == old(claimed)
        {
          assert SectorOf(g.reserved, i * CELLS + j) == g.reserved + i && (i * CELLS + j) % CELLS == j;
          var s := g.reserved + i;
          if disk[s][j] == 0 {
            TableParts();
            ClaimCoherent(Cache(), disk, claimed, s, j);
            CachedNamed(Cache(), s);
            claimed := if Cached(Cache(), s) then claimed + {Cell(s, j)} else claimed;
            disk := Stored(disk, s, j, CLAIM);
            return Claimed(i * CELLS + j);
          }
        }
      }
      return NoClusters;
    }

    /**
     alloc_clus, then read_fat of the cell just claimed: the end-of-chain mark exactly when the sector
     was not cached, a free cell's zero otherwise.
     */
    method AllocThenRead() returns (o: Out, v: nat)
      requires Valid()
      modifies this
      ensures Valid() && o == Answer(g, old(disk), Alloc) && disk == After(g, old(disk), Alloc)
      ensures o.Claimed? && o.c <= g.clusters + 1 ==>
        v == if Cached(old(Cache()), SectorOf(g.reserved, o.c)) then 0 else 0x0FFF_FFFF
    {
      hide Place, Lines, Linked, Holds, LruOk, Used, Coherent, NextFree, Names, Cached;
      ghost var q, was := Cache(), claimed;
      v := 0;
      o := AllocClus();
      if o.Claimed? {
        CachedNamed(q, SectorOf(g.reserved, o.c));
        if !Cached(q, SectorOf(g.reserved, o.c)) {
          NothingClaimed(q, disk, claimed, SectorOf(g.reserved, o.c), o.c % CELLS);
        }
        v := ReadFat(o.c);
      }
    }

    /** A cell that was read while free, then claimed, is read as free again. */
    method ReadAllocRead(c: nat) returns (before: nat, after: nat)
      requires Valid() && Answer(g, disk, Alloc) == Claimed(c) && c <= g.clusters + 1
      modifies this
      ensures Valid() && before == 0 == after && CellAt(g, disk, c) == CLAIM
    {
      hide Place, Lines, Linked, Holds, LruOk, Used, Coherent, Cached, Fits;
      before := ReadFat(c);
      var o;
      o, after := AllocThenRead();
    }

    /** One call, its answer next to the one the disk alone would have given. */
    method Perform(op: Op) returns (o: Out)
      requires Valid()
      modifies this
      ensures Valid() && disk == After(g, old(disk), op) && (o == NoClusters ==> disk == old(disk))
      ensures Agrees(o, Answer(g, old(disk), op)) && (o == NoClusters <==> Answer(g, old(disk), op) == NoClusters)
      ensures op != Alloc ==> claimed <= old(claimed)
      ensures old(claimed) == {} ==> o == Answer(g, old(disk), op)
    {
      hide Place, Lines, Linked, Holds, LruOk, Used, Coherent, Stored, Fits, Coherent;
      match op
      case Read(c) =>
        var v := ReadFat(c);
        o := Content(v);
      case Write(c, v) =>
        var r := WriteFat(c, v);
        o := if r == 0 then Written else Refused;
      case Alloc =>
        o := AllocClus();
    }

    /**
     Every run: the disk ends as if there were no cache, every answer is the uncached one or a stale
     zero for a claimed cell, and a run without alloc_clus gives exactly the uncached answers.
     */
    method Run(ops: seq<Op>) returns (outs: seq<Out>)
      requires Valid()
      modifies this
      ensures Valid() && disk == Final(g, old(disk), ops)
      ensures var ref := Answers(g, old(disk), ops);
        && |outs| == |ref| && (forall i :: 0 <= i < |outs| ==> Agrees(outs[i], ref[i]))
        && (old(claimed) == {} && Alloc !in ops ==> outs == ref)
      decreases |ops|
    {
      hide Place, Lines, Linked, Holds, LruOk, Used, Coherent, Answer, After;
      if ops == [] {
        return [];
      }
      var o := Perform(ops[0]);
      if o == NoClusters {
        return [o];
      }
      var rest := Run(ops[1..]);
      outs := [o] + rest;
    }

    /** Only cells of cached sectors are claimed. */
    lemma ClaimsCached()
      requires Valid()
      ensures forall k :: k in Mem().claimed ==> k.sector in Mem().recent
    {
      hide Cached, Names, Lines, LruOk;
      forall k | k in claimed ensures k.sector in Names(Cache()) {
        CachedNamed(Cache(), k.sector);
      }
    }

    lemma TableParts()
      requires Table()
      ensures |data| == |next| == |sector| == CAPACITY && Within(order, CAPACITY) && Distinct(order)
    {
    }
  }

  lemma FreeEntry(sector: seq<nat>, order: seq<nat>, e: nat)
    requires Holds(sector, order) && e < CAPACITY && sector[e] == INVALID
    ensures e !in order
  {
  }

  lemma TailIsLast(next: seq<int>, prev: seq<int>, head: int, tail: int, order: seq<nat>)
    requires Linked(next, prev, head, tail, order) && order != []
    ensures tail == order[|order| - 1]
  {
  }

  lemma SeenAt(l: Line, disk: seq<Cells>, claimed: set<Cell>, j: nat)
    requires Fresh(l, disk, claimed) && j < CELLS
    ensures l.sector < |disk| && Seen(l.cells[j], disk[l.sector][j], Cell(l.sector, j) in claimed)
  {
  }

  lemma LineFresh(q: seq<Line>, disk: seq<Cells>, claimed: set<Cell>, s: nat)
    requires Coherent(q, disk, claimed) && Cached(q, s)
    ensures Fresh(q[Place(q, s)], disk, claimed)
  {
  }

  lemma NothingClaimed(q: seq<Line>, disk: seq<Cells>, claimed: set<Cell>, s: nat, j: nat)
    requires Coherent(q, disk, claimed) && !Cached(q, s)
    ensures Cell(s, j) !in claimed
  {
    assert Cell(s, j) in claimed ==> Cached(q, Cell(s, j).sector);
  }

  lemma MostRecentOk(h: seq<nat>, q: seq<Line>, l: Line)
    requires LruOk(q, h)
    ensures LruOk(Used(q, l), h + [l.sector])
  {
    MostRecent(h, q, l);
  }

  lemma DropLacks(order: seq<nat>, k: nat)
    requires Distinct(order) && k < |order|
    ensures order[k] !in Drop(order, k)
  {
  }
}
