/**
 The table of mapped areas of a process (kernel/vma.c) and the part of sys_mmap that drives it
 (kernel/sysproc.c).

 Addresses are 64-bit words: every sum and difference of the source is taken modulo WORD.
 */
module Vma {
  import opened Paging

  const MAX_VMA: nat := 16
  const WORD: nat := 0x1_0000_0000_0000_0000

  /** Areas of well-behaved calls end below this: they begin below MAXUVA and are at most MAXUVA long. */
  const LIMIT: nat := 2 * MAXUVA

  datatype Area = Area(used: bool, addr: nat, length: nat, offset: nat, prot: int, flags: int, file: nat)

  /** PGROUNDDOWN: the page boundary at or right below an address. */
  function RoundDown(a: nat): (r: nat)
    ensures r % PGSIZE == 0 && r <= a < r + PGSIZE
  {
    a / PGSIZE * PGSIZE
  }

  /** PGROUNDUP: whole pages that hold n bytes and less than a page more, or none when the sum wraps. */
  function RoundUp(n: nat): (r: nat)
    ensures r % PGSIZE == 0 && (n + PGSIZE <= WORD ==> n <= r < n + PGSIZE)
    ensures WORD < n + PGSIZE && n < WORD ==> r == 0
  {
    (n + PGSIZE - 1) % WORD / PGSIZE * PGSIZE
  }

  /** The overlap test of vma_insert and vma_find_free_range, on words. */
  predicate Clash(v: Area, addr: nat, length: nat) {
    v.used && !(addr >= (v.addr + v.length) % WORD || (addr + length) % WORD <= v.addr)
  }

  predicate Clear(vs: seq<Area>, addr: nat, length: nat) {
    forall i :: 0 <= i < |vs| ==> !Clash(vs[i], addr, length)
  }

  function Count(vs: seq<Area>): nat {
    if vs == [] then 0 else Count(vs[1..]) + if vs[0].used then 1 else 0
  }

  ghost predicate Holds(v: Area, a: nat) {
    v.used && v.addr <= a < v.addr + v.length
  }

  ghost predicate Sane(v: Area) {
    v.used ==> v.addr % PGSIZE == 0 == v.length % PGSIZE && 0 < v.length && v.addr + v.length <= LIMIT
  }

  ghost predicate AllSane(vs: seq<Area>) {
    forall i :: 0 <= i < |vs| ==> Sane(vs[i])
  }

  /** No address is in two areas. */
  ghost predicate Disjoint(vs: seq<Area>) {
    forall i, j, a: nat :: 0 <= i < j < |vs| && Holds(vs[i], a) ==> !Holds(vs[j], a)
  }

  ghost predicate Good(vs: seq<Area>, count: int) {
    && |vs| == MAX_VMA && count == Count(vs) && Disjoint(vs)
    && AllSane(vs)
  }

  // ---------------------------------------------------------------- counting and overlapping

  lemma {:induction false} CountSet(vs: seq<Area>, i: nat, v: Area)
    requires i < |vs|
    ensures Count(vs[i := v]) == Count(vs) + (if v.used then 1 else 0) - (if vs[i].used then 1 else 0)
  {
    if i == 0 {
      assert vs[i := v][1..] == vs[1..];
    } else {
      CountSet(vs[1..], i - 1, v);
      assert vs[i := v][1..] == vs[1..][i - 1 := v];
    }
  }

  /** For areas that do not wrap, the test is overlap of the two ranges. */
  lemma ClashIsOverlap(v: Area, addr: nat, length: nat)
    requires Sane(v) && 0 < length && addr + length < WORD
    ensures Clash(v, addr, length) <==> exists a: nat :: Holds(v, a) && addr <= a < addr + length
  {
    if Clash(v, addr, length) {
      var a := if addr < v.addr then v.addr else addr;
      assert Holds(v, a);
    }
  }

  lemma PlacedDisjoint(vs: seq<Area>, i: nat, v: Area)
    requires Disjoint(vs) && i < |vs| && !vs[i].used && AllSane(vs)
    requires v.used && Sane(v) && Clear(vs, v.addr, v.length)
    ensures Disjoint(vs[i := v])
  {
    hide Clash, Sane;
    var ws := vs[i := v];
    forall j, a: nat | 0 <= j < |vs| && j != i && Holds(v, a) ensures !Holds(vs[j], a) {
      assert !Clash(vs[j], v.addr, v.length);
      NoClashNoOverlap(vs[j], v, a);
    }
    forall j, k, a: nat | 0 <= j < k < |ws| && Holds(ws[j], a) ensures !Holds(ws[k], a) {
      assert j != i ==> ws[j] == vs[j];
      assert k != i ==> ws[k] == vs[k];
    }
  }

  lemma NoClashNoOverlap(u: Area, v: Area, a: nat)
    requires Sane(u) && Sane(v) && v.used && !Clash(u, v.addr, v.length) && Holds(v, a)
    ensures !Holds(u, a)
  {
  }

  /** Taking an area away leaves the others as they were. */
  lemma RemovedDisjoint(vs: seq<Area>, i: nat, v: Area)
    requires Disjoint(vs) && i < |vs| && !v.used
    ensures Disjoint(vs[i := v])
  {
    var ws := vs[i := v];
    forall j, k, a: nat | 0 <= j < k < |ws| && Holds(ws[j], a) ensures !Holds(ws[k], a) {
      assert Holds(vs[j], a);
    }
  }

  // ---------------------------------------------------------------- the search for a place

  /** A place for n bytes that the downward search may give: within user space, off page zero, and clear. */
  predicate Place(vs: seq<Area>, n: nat, a: nat) {
    PGSIZE <= a && a + n <= MAXUVA && Clear(vs, a, n)
  }

  ghost predicate Highest(vs: seq<Area>, n: nat, a: nat) {
    Place(vs, n, a) && forall b: nat :: Place(vs, n, b) ==> b <= a
  }

  ghost predicate NoPlace(vs: seq<Area>, n: nat) {
    forall b: nat :: !Place(vs, n, b)
  }

  /** A difference that went below zero: no place at all, but the word is a large address. */
  ghost predicate Wrapped(vs: seq<Area>, n: nat, a: nat) {
    exists i :: 0 <= i < |vs| && vs[i].used && vs[i].addr < n && a == vs[i].addr + WORD - n
  }

  predicate HintServes(vs: seq<Area>, hint: nat, n: nat) {
    hint != 0 && Clear(vs, RoundDown(hint), n) && (RoundDown(hint) + n) % WORD < MAXUVA
  }

  /** Every place at or below a candidate that meets v is below v. */
  lemma BelowTheClash(vs: seq<Area>, n: nat, addr: nat, i: nat, b: nat)
    requires i < |vs| && Sane(vs[i]) && 0 < n && addr + n <= MAXUVA && Clash(vs[i], addr, n)
    requires Place(vs, n, b) && b <= addr
    ensures n <= vs[i].addr && b <= vs[i].addr - n < addr
  {
    assert !Clash(vs[i], b, n);
  }

  lemma SanePlace(vs: seq<Area>, i: nat, v: Area)
    requires i < |vs| && Sane(v) && AllSane(vs)
    ensures AllSane(vs[i := v])
  {
    hide Sane;
  }

  function NoArea(v: Area): Area {
    v.(used := false, file := 0)
  }

  /** The areas that lie whole inside [addr, end). */
  predicate Inside(v: Area, addr: nat, end: nat) {
    v.used && addr <= v.addr && (v.addr + v.length) % WORD <= end
  }

  function Without(vs: seq<Area>, addr: nat, end: nat): (r: seq<Area>)
    ensures |r| == |vs| && forall i :: 0 <= i < |vs| ==>
      r[i] == if Inside(vs[i], addr, end) then NoArea(vs[i]) else vs[i]
  {
    if vs == [] then []
    else
      var v := vs[|vs| - 1];
      Without(vs[..|vs| - 1], addr, end) + [if Inside(v, addr, end) then NoArea(v) else v]
  }

  /** Without wrapping, the test of vma_remove asks whether all of the area is in the range. */
  lemma InsideIsWithin(v: Area, addr: nat, end: nat)
    requires Sane(v) && v.used
    ensures Inside(v, addr, end) <==> forall a: nat :: Holds(v, a) ==> addr <= a < end
  {
    assert Holds(v, v.addr) && Holds(v, v.addr + v.length - 1);
  }

  /** And so does the test of sys_munmap. */
  lemma CoveredIsWithin(v: Area, addr: nat, length: nat)
    requires Sane(v) && v.used && addr + length < WORD
    ensures Covered(v, addr, length) <==> forall a: nat :: Holds(v, a) ==> addr <= a < addr + length
  {
    assert Holds(v, v.addr) && Holds(v, v.addr + v.length - 1);
  }

  lemma EmptyTable(vs: seq<Area>)
    requires forall i :: 0 <= i < |vs| ==> !vs[i].used
    ensures Count(vs) == 0 && Disjoint(vs) && AllSane(vs)
  {
  }

  lemma EmptyGood(vs: seq<Area>)
    requires |vs| == MAX_VMA && forall i :: 0 <= i < |vs| ==> !vs[i].used
    ensures Good(vs, 0)
  {
    EmptyTable(vs);
  }

  /** The first free slot now holds v, all others are as before. */
  ghost predicate PlacedIn(before: seq<Area>, after: seq<Area>, v: Area) {
    exists i :: IsFirstFree(before, i) && after == before[i := v]
  }

  /** A slot that was free holds an area at a, of all the bytes asked for and less than a page more. */
  predicate NewArea(was: Area, v: Area, a: int, length: nat) {
    !was.used && v.used && v.addr == a && length <= v.length < length + PGSIZE && v.length % PGSIZE == 0
  }

  lemma AreaPlaced(before: seq<Area>, after: seq<Area>, v: Area, length: nat)
    requires PlacedIn(before, after, v) && v.used && v.length == RoundUp(length) && length < MAXUVA
    ensures |after| == |before| && exists i :: 0 <= i < |before| && NewArea(before[i], after[i], v.addr, length)
  {
    var i :| IsFirstFree(before, i) && after == before[i := v];
    assert NewArea(before[i], after[i], v.addr, length);
  }

  ghost predicate IsFirstFree(vs: seq<Area>, i: int) {
    0 <= i < |vs| && !vs[i].used && forall j :: 0 <= j < i ==> vs[j].used
  }

  predicate Covered(v: Area, addr: nat, length: nat) {
    addr <= v.addr && (addr + length) % WORD >= (v.addr + v.length) % WORD
  }

  /** The area that holds addr is gone if the range covers it, all others are as before. */
  ghost predicate TakenOut(before: seq<Area>, after: seq<Area>, addr: nat, length: nat) {
    exists i :: 0 <= i < |before| && Holds(before[i], addr)
      && after == if Covered(before[i], addr, length) then before[i := NoArea(before[i])] else before
  }

  class Manager {
    const vmas: array<Area>
    var count: int

    ghost predicate Valid()
      reads this, vmas
    {
      Good(vmas[..], count)
    }

    /** vma_init. */
    constructor ()
      ensures Valid() && count == 0 && fresh(vmas) && vmas.Length == 16 && forall i :: 0 <= i < 16 ==> !vmas[i].used
    {
      vmas := new Area[MAX_VMA](_ => Area(false, 0, 0, 0, 0, 0, 0));
      count := 0;
      new;
      EmptyTable(vmas[..]);
    }

    /** vma_lookup: the one area that holds the address. */
    method Lookup(addr: nat) returns (r: int)
      requires Valid() && addr < WORD
      ensures r == -1 ==> forall i :: 0 <= i < MAX_VMA ==> !Holds(vmas[i], addr)
      ensures r != -1 ==> 0 <= r < MAX_VMA && forall i :: 0 <= i < MAX_VMA ==> (Holds(vmas[i], addr) <==> i == r)
    {
      for i := 0 to MAX_VMA
        invariant forall j :: 0 <= j < i ==> !Holds(vmas[j], addr)
      {
        var v := vmas[i];
        assert vmas[..][i] == v && Sane(v);
        if v.used && addr >= v.addr && addr < (v.addr + v.length) % WORD {
          assert Holds(vmas[..][i], addr);
          forall j | i < j < MAX_VMA ensures !Holds(vmas[j], addr) {
            assert !Holds(vmas[..][j], addr);
          }
          return i;
        }
      }
      return -1;
    }

    /** The scan for a clash, as vma_insert and vma_find_free_range make it. */
    method FirstClash(addr: nat, length: nat) returns (r: int)
      requires vmas.Length == MAX_VMA
      ensures r == -1 <==> Clear(vmas[..], addr, length)
      ensures r != -1 ==>
        0 <= r < MAX_VMA && Clash(vmas[r], addr, length) && forall i :: 0 <= i < r ==> !Clash(vmas[i], addr, length)
    {
      hide Clash;
      for i := 0 to MAX_VMA
        invariant forall j :: 0 <= j < i ==> !Clash(vmas[j], addr, length)
      {
        if Clash(vmas[i], addr, length) {
          assert vmas[..][i] == vmas[i];
          return i;
        }
      }
      return -1;
    }

    method FreeSlot() returns (r: int)
      requires vmas.Length == MAX_VMA
      ensures r == -1 ==> forall i :: 0 <= i < MAX_VMA ==> vmas[i].used
      ensures r != -1 ==> 0 <= r < MAX_VMA && !vmas[r].used && forall i :: 0 <= i < r ==> vmas[i].used
    {
      for i := 0 to MAX_VMA
        invariant forall j :: 0 <= j < i ==> vmas[j].used
      {
        if !vmas[i].used {
          return i;
        }
      }
      return -1;
    }

    /**
     vma_insert: refused exactly for an empty length, a clash or a full table; an accepted area that
     ends within LIMIT keeps the table good, and one that wraps or ends beyond it does not.
     */
    method Insert(addr: nat, length: nat, offset: nat, prot: int, flags: int, file: nat) returns (r: int)
      requires Valid() && addr < WORD && length < WORD
      modifies this, vmas
      ensures var a, n := RoundDown(addr), RoundUp(length);
        r == if length != 0 && old(Clear(vmas[..], a, n)) && old(SlotFree(vmas[..])) then 0 else -1
      ensures r == -1 ==> vmas[..] == old(vmas[..]) && Valid()
      ensures r == 0 ==>
        PlacedIn(old(vmas[..]), vmas[..], Area(true, RoundDown(addr), RoundUp(length), offset, prot, flags, file))
      ensures r == 0 ==> count == Count(vmas[..])
      ensures r == 0 ==> (Valid() <==> 0 < RoundUp(length) && RoundDown(addr) + RoundUp(length) <= LIMIT)
    {
      hide Clash, Disjoint, Sane, Count;
      if length == 0 {
        return -1;
      }
      var a, n := RoundDown(addr), RoundUp(length);
      var hit := FirstClash(a, n);
      if hit != -1 {
        return -1;
      }
      var i := FreeSlot();
      if i == -1 {
        return -1;
      }
      assert IsFirstFree(old(vmas[..]), i);
      ghost var was := vmas[..];
      var v := Area(true, a, n, offset, prot, flags, file);
      vmas[i] := v;
      count := count + 1;
      assert vmas[..] == was[i := v];
      CountSet(was, i, v);
      Settled(was, i, v);
      r := 0;
    }

    /** vma_remove: exactly the areas inside the range go, and they are what is counted. */
    method Remove(addr: nat, length: nat) returns (removed: int)
      requires Valid() && addr < WORD && length < WORD
      modifies this, vmas
      ensures Valid() && vmas[..] == Without(old(vmas[..]), addr, (addr + length) % WORD)
      ensures removed == Count(old(vmas[..])) - Count(vmas[..])
    {
      hide Disjoint, Sane, Count, Inside, Without, Good;
      ghost var was, end := vmas[..], (addr + length) % WORD;
      removed := 0;
      TableSize();
      for i := 0 to MAX_VMA
        invariant Valid() && removed == Count(was) - Count(vmas[..])
        invariant forall j :: 0 <= j < i ==> vmas[j] == if Inside(was[j], addr, end) then NoArea(was[j]) else was[j]
        invariant forall j :: i <= j < MAX_VMA ==> vmas[j] == was[j]
      {
        var v := vmas[i];
        if Inside(v, addr, (addr + length) % WORD) {
          Dropped(vmas[..], count, i, addr, end);
          ghost var before := vmas[..];
          vmas[i] := NoArea(v);
          count := count - 1;
          removed := removed + 1;
          assert vmas[..] == before[i := NoArea(v)];
        }
      }
      assert vmas[..] == Without(was, addr, end);
    }

    /** vma_copy into a fresh or reused table: the child's areas are the parent's. */
    method CopyFrom(src: Manager)
      requires vmas.Length == MAX_VMA && src.Valid() && src != this && src.vmas != vmas
      modifies this, vmas
      ensures Valid() && count == src.count && vmas[..] == CopyOf(src.vmas[..], old(vmas[..]))
    {
      hide Disjoint, Sane;
      src.TableSize();
      count := 0;
      for i := 0 to MAX_VMA
        invariant count == Count(src.vmas[..i])
        invariant forall j :: 0 <= j < MAX_VMA ==>
          vmas[j] == if j < i then CopiedArea(src.vmas[j], old(vmas[j])) else old(vmas[j])
      {
        CountLast(src.vmas[..i + 1]);
        assert src.vmas[..i + 1][..i] == src.vmas[..i];
        if src.vmas[i].used {
          vmas[i] := src.vmas[i];
          count := count + 1;
        } else {
          vmas[i] := NoArea(vmas[i]);
        }
      }
      assert src.vmas[..MAX_VMA] == src.vmas[..];
      CopiedGood(vmas[..], src.vmas[..], src.count);
    }

    /**
     vma_find_free_range.  A hint that serves is taken.  Otherwise the highest place is found if there
     is any; if there is none the answer is -1, unless the last area the search meets begins below the
     length asked for, when the difference wraps and is the answer.
     */
    method FindFreeRange(hint: nat, length: nat) returns (ok: bool, result: nat)
      requires Valid() && hint < WORD && 0 < length < MAXUVA
      ensures var vs, n := vmas[..], RoundUp(length);
        && (HintServes(vs, hint, n) ==> ok && result == RoundDown(hint))
        && (!HintServes(vs, hint, n) && !NoPlace(vs, n) ==> ok && Highest(vs, n, result))
        && (!HintServes(vs, hint, n) && NoPlace(vs, n) && ok ==>
              Wrapped(vs, n, result) && result == LastBegin(vs, n, MAXUVA - n) + WORD - n)
        && (!HintServes(vs, hint, n) && NoPlace(vs, n) ==> (ok <==> LastBegin(vs, n, MAXUVA - n) < n))
        && (!HintServes(vs, hint, n) && NoPlace(vs, n) && n < MAXUVA && NoneBeginsAt(vs, n) ==> ok)
      ensures result % PGSIZE == 0 && result < WORD
    {
      hide Good, Clash, Clear;
      TableSize();
      var n := RoundUp(length);
      ghost var vs := vmas[..];
      if hint != 0 {
        var a := RoundDown(hint);
        var r := FirstClash(a, n);
        if r == -1 && (a + n) % WORD < MAXUVA {
          return true, a;
        }
      }
      ok, result := Descend(n);
    }

    /** The downward search. */
    method Descend(n: nat) returns (ok: bool, result: nat)
      requires Valid() && 0 < n <= MAXUVA && n % PGSIZE == 0
      ensures !NoPlace(vmas[..], n) ==> ok && Highest(vmas[..], n, result)
      ensures NoPlace(vmas[..], n) && ok ==>
        Wrapped(vmas[..], n, result) && result == LastBegin(vmas[..], n, MAXUVA - n) + WORD - n
      ensures NoPlace(vmas[..], n) ==> (ok <==> LastBegin(vmas[..], n, MAXUVA - n) < n)
      ensures NoPlace(vmas[..], n) && n < MAXUVA && NoneBeginsAt(vmas[..], n) ==> ok
      ensures result % PGSIZE == 0 && result < WORD
    {
      hide Clash, Clear, Wrapped, Sane, Disjoint, LastBegin;
      NoRoomAtAll(vmas[..], n);
      var addr: nat := (MAXUVA + WORD - n) % WORD;
      ghost var wrapped := false;
      ghost var vs := vmas[..];
      while addr >= PGSIZE
        invariant addr % PGSIZE == 0 && addr < WORD
        invariant !wrapped ==> addr + n <= MAXUVA && forall b: nat :: Place(vs, n, b) ==> b <= addr
        invariant !wrapped && addr < PGSIZE ==> n == MAXUVA || !NoneBeginsAt(vs, n)
        invariant wrapped ==> NoPlace(vs, n) && Wrapped(vs, n, addr) && addr >= PGSIZE
        invariant !wrapped && addr >= PGSIZE ==> LastBegin(vs, n, MAXUVA - n) == LastBegin(vs, n, addr)
        invariant wrapped ==> addr == LastBegin(vs, n, MAXUVA - n) + WORD - n
        invariant wrapped || addr < PGSIZE ==> (wrapped <==> LastBegin(vs, n, MAXUVA - n) < n)
        decreases !wrapped, addr
      {
        var r := FirstClash(addr, n);
        if r == -1 {
          assert !wrapped ==> Place(vs, n, addr);
          return true, addr;
        }
        assert vs[r] == vmas[r];
        if wrapped {
          WrappedClears(vs, n, addr, r);
        }
        Lowered(vs, n, addr, r);
        LastBeginNext(vs, n, addr, r);
        addr := (vmas[r].addr + WORD - n) % WORD;
        wrapped := vmas[r].addr < n;
      }
      return false, 0;
    }

    /**
     The address part of sys_mmap: a place found is a place taken, so without MAP_FIXED only a full
     table or the lack of a place refuses.  The table stays good exactly when the address did not wrap.
     */
    method Mmap(addr: nat, length: nat, fixed: bool, offset: nat, prot: int, flags: int, file: nat) returns (r: int)
      requires Valid() && addr < WORD && length < WORD
      modifies this, vmas
      ensures r == -1 <==> Refuses(old(vmas[..]), addr, length, fixed)
      ensures r == -1 ==> Valid() && vmas[..] == old(vmas[..])
      ensures r != -1 ==> 0 <= r && MapsTo(old(vmas[..]), addr, length, fixed, r)
      ensures r != -1 ==>
        PlacedIn(old(vmas[..]), vmas[..], Area(true, r, RoundUp(length), offset, prot, flags, file))
      ensures r != -1 ==> count == Count(vmas[..])
      ensures r != -1 ==> exists i :: 0 <= i < MAX_VMA && NewArea(old(vmas[i]), vmas[i], r, length)
      ensures r != -1 && fixed ==> r <= addr < r + PGSIZE
      ensures r != -1 ==> (Escapes(old(vmas[..]), addr, length, fixed) <==> r + RoundUp(length) > LIMIT)
      ensures r != -1 ==> (Valid() <==> !Escapes(old(vmas[..]), addr, length, fixed))
    {
      hide Good, Clear, Wrapped, NoneBeginsAt, PlacedIn, LastBegin, NoPlace, Highest;
      TableSize();
      ghost var vs, n := vmas[..], RoundUp(length);
      if length == 0 || length >= MAXUVA {
        return -1;
      }
      Rounded(length);
      var at: nat := RoundDown(addr);
      if fixed {
        if addr == 0 || addr >= MAXUVA {
          return -1;
        }
      } else {
        var ok;
        ok, at := FindFreeRange(addr, length);
        if !ok {
          HighestPlace(vs, n, at);
          return -1;
        }
        FoundClear(vs, addr, n, at);
        HighestPlace(vs, n, at);
      }
      Aligned(addr, at);
      var code := Insert(at, length, offset, prot, flags, file);
      if code == -1 {
        return -1;
      }
      AreaPlaced(old(vmas[..]), vmas[..], Area(true, at, RoundUp(length), offset, prot, flags, file), length);
      r := at;
    }

    /** The table part of sys_munmap: the area that holds addr goes, alone, if the range covers all of it. */
    method Munmap(addr: nat, length: nat) returns (r: int)
      requires Valid() && addr < WORD && length < WORD
      modifies this, vmas
      ensures Valid()
      ensures r == -1 ==> vmas[..] == old(vmas[..])
      ensures r == -1 || r == 0
      ensures r == -1 <==> addr == 0 || length == 0 || !exists i :: 0 <= i < MAX_VMA && Holds(old(vmas[i]), addr)
      ensures r != -1 ==> TakenOut(old(vmas[..]), vmas[..], addr, length)
    {
      hide Good, Count, Without;
      TableSize();
      if addr == 0 || length == 0 {
        return -1;
      }
      var i := Lookup(addr);
      if i == -1 {
        return -1;
      }
      assert Holds(old(vmas[i]), addr);
      if Covered(vmas[i], addr, length) {
        OnlyItself(vmas[..], count, i);
        var n := Remove(vmas[i].addr, vmas[i].length);
      }
      return 0;
    }

    lemma TableSize()
      requires Valid()
      ensures vmas.Length == MAX_VMA && AllSane(vmas[..])
    {
    }
  }

  function CopiedArea(v: Area, d: Area): Area {
    if v.used then v else NoArea(d)
  }

  /** What vma_copy makes of the table ds: the areas of vs, in the same slots. */
  function CopyOf(vs: seq<Area>, ds: seq<Area>): (r: seq<Area>)
    requires |ds| == |vs|
    ensures |r| == |vs|
    ensures forall i :: 0 <= i < |vs| ==> r[i] == CopiedArea(vs[i], ds[i])
  {
    if vs == [] then [] else [CopiedArea(vs[0], ds[0])] + CopyOf(vs[1..], ds[1..])
  }

  ghost predicate Copied(d: Area, v: Area) {
    if v.used then d == v else !d.used
  }

  lemma {:induction false} CountLast(vs: seq<Area>)
    requires vs != []
    ensures Count(vs) == Count(vs[..|vs| - 1]) + if vs[|vs| - 1].used then 1 else 0
  {
    if |vs| > 1 {
      CountLast(vs[1..]);
      assert vs[1..][..|vs| - 2] == vs[..|vs| - 1][1..];
    }
  }

  lemma {:induction false} CopiedCount(ds: seq<Area>, vs: seq<Area>)
    requires |ds| == |vs| && forall i :: 0 <= i < |vs| ==> Copied(ds[i], vs[i])
    ensures Count(ds) == Count(vs)
  {
    if vs != [] {
      CopiedCount(ds[1..], vs[1..]);
      assert Copied(ds[0], vs[0]);
    }
  }

  lemma CopiedGood(ds: seq<Area>, vs: seq<Area>, count: int)
    requires Good(vs, count) && |ds| == |vs| && forall i :: 0 <= i < |vs| ==> Copied(ds[i], vs[i])
    ensures Good(ds, count)
  {
    CopiedCount(ds, vs);
    forall i, a: nat | 0 <= i < |ds| ensures Holds(ds[i], a) == Holds(vs[i], a) {
      assert Copied(ds[i], vs[i]);
    }
    forall i | 0 <= i < |ds| ensures Sane(ds[i]) {
      assert Copied(ds[i], vs[i]);
    }
  }

  predicate NoneBeginsAt(vs: seq<Area>, a: nat) {
    forall i :: 0 <= i < |vs| ==> !(vs[i].used && vs[i].addr == a)
  }

  /** The first slot whose area is in the way of n bytes at a, |vs| when none is. */
  function FirstInWay(vs: seq<Area>, a: nat, n: nat): (r: nat)
    ensures r <= |vs| && (r < |vs| ==> Clash(vs[r], a, n)) && forall i :: 0 <= i < r ==> !Clash(vs[i], a, n)
  {
    if vs == [] || Clash(vs[0], a, n) then 0 else 1 + FirstInWay(vs[1..], a, n)
  }

  /**
   Going down from a, each time below the area in the first slot that is in the way: where the area
   begins below which there is no room left, and n when the search starts without room.
   */
  function LastBegin(vs: seq<Area>, n: nat, a: nat): nat
    decreases a
  {
    var r := FirstInWay(vs, a, n);
    if a < PGSIZE || r == |vs| then n
    else if n + PGSIZE <= vs[r].addr < a + n then LastBegin(vs, n, vs[r].addr - n)
    else vs[r].addr
  }

  lemma LastBeginNext(vs: seq<Area>, n: nat, a: nat, r: nat)
    requires AllSane(vs) && 0 < n && a + n <= MAXUVA && a >= PGSIZE && r < |vs| && Clash(vs[r], a, n)
    requires forall i :: 0 <= i < r ==> !Clash(vs[i], a, n)
    ensures vs[r].addr >= n + PGSIZE ==> LastBegin(vs, n, a) == LastBegin(vs, n, vs[r].addr - n)
    ensures vs[r].addr < n + PGSIZE ==> LastBegin(vs, n, a) == vs[r].addr
  {
    hide Clash;
    assert FirstInWay(vs, a, n) == r;
    ClashBelow(vs[r], a, n);
  }

  lemma NoRoomAtAll(vs: seq<Area>, n: nat)
    ensures n <= MAXUVA < n + PGSIZE ==> LastBegin(vs, n, MAXUVA - n) == n
  {
  }

  lemma ClashBelow(v: Area, a: nat, n: nat)
    requires Sane(v) && a + n <= MAXUVA && Clash(v, a, n)
    ensures v.addr < a + n
  {
  }

  /** One step down: past the area that is in the way, or below zero when there is no place. */
  lemma Lowered(vs: seq<Area>, n: nat, addr: nat, r: nat)
    requires r < |vs| && AllSane(vs) && 0 < n && n % PGSIZE == 0 && addr + n <= MAXUVA && Clash(vs[r], addr, n)
    requires forall b: nat :: Place(vs, n, b) ==> b <= addr
    ensures vs[r].addr < n ==> NoPlace(vs, n) && PGSIZE <= (vs[r].addr + WORD - n) % WORD
    ensures vs[r].addr < n ==> Wrapped(vs, n, (vs[r].addr + WORD - n) % WORD)
    ensures vs[r].addr >= n ==> (vs[r].addr + WORD - n) % WORD == vs[r].addr - n < addr
    ensures vs[r].addr >= n ==> forall b: nat :: Place(vs, n, b) ==> b <= vs[r].addr - n
    ensures (vs[r].addr + WORD - n) % WORD % PGSIZE == 0
    ensures vs[r].addr >= n && vs[r].addr - n < PGSIZE ==> !NoneBeginsAt(vs, n)
  {
    forall b: nat | Place(vs, n, b) ensures n <= vs[r].addr && b <= vs[r].addr - n {
      BelowTheClash(vs, n, addr, r, b);
    }
  }

  /** At a wrapped address nothing is in the way any more. */
  lemma WrappedClears(vs: seq<Area>, n: nat, addr: nat, r: nat)
    requires AllSane(vs) && Wrapped(vs, n, addr) && n <= MAXUVA && r < |vs|
    ensures !Clash(vs[r], addr, n)
  {
  }

  /** Whatever vma_find_free_range answers passes the overlap test of vma_insert. */
  lemma FoundClear(vs: seq<Area>, hint: nat, n: nat, at: nat)
    requires AllSane(vs) && n <= MAXUVA
    requires (HintServes(vs, hint, n) && at == RoundDown(hint)) || Highest(vs, n, at) || Wrapped(vs, n, at)
    ensures Clear(vs, at, n)
  {
    if Wrapped(vs, n, at) {
      forall r | 0 <= r < |vs| ensures !Clash(vs[r], at, n) {
        WrappedClears(vs, n, at, r);
      }
    }
  }

  // ---------------------------------------------------------------- where the arithmetic wraps

  function OneArea(addr: nat, length: nat): (vs: seq<Area>)
    ensures |vs| == MAX_VMA && vs[0] == Area(true, addr, length, 0, 0, 0, 0) && forall i :: 0 < i < |vs| ==> !vs[i].used
  {
    seq(MAX_VMA, i => Area(i == 0, addr, length, 0, 0, 0, 0))
  }

  /** One area over all but the last page of user space: two pages have no place, and the search must wrap. */
  lemma SearchWraps()
    ensures var vs := OneArea(PGSIZE, MAXUVA - 2 * PGSIZE);
      && Good(vs, 1) && NoPlace(vs, 2 * PGSIZE) && NoneBeginsAt(vs, 2 * PGSIZE)
      && Escapes(vs, 0, 2 * PGSIZE, false)
  {
    var vs := OneArea(PGSIZE, MAXUVA - 2 * PGSIZE);
    EmptyTable(vs[1..]);
    forall b: nat ensures !Place(vs, 2 * PGSIZE, b) {
      assert Clear(vs, b, 2 * PGSIZE) ==> !Clash(vs[0], b, 2 * PGSIZE);
    }
    assert FirstInWay(vs, MAXUVA - 2 * PGSIZE, 2 * PGSIZE) == 0;
    assert !vs[1].used;
  }

  function NoAreas(): (vs: seq<Area>)
    ensures |vs| == MAX_VMA && forall i :: 0 <= i < |vs| ==> !vs[i].used
  {
    seq(MAX_VMA, _ => Area(false, 0, 0, 0, 0, 0, 0))
  }

  /** On an empty table a hint whose end wraps serves, and serves again once its area is there. */
  lemma HintWraps()
    ensures Good(NoAreas(), 0) && HintServes(NoAreas(), WORD - PGSIZE, PGSIZE)
    ensures Escapes(NoAreas(), WORD - PGSIZE, PGSIZE, false)
    ensures HintServes(NoAreas()[0 := Area(true, WORD - PGSIZE, PGSIZE, 0, 0, 0, 0)], WORD - PGSIZE, PGSIZE)
  {
    hide Good, Disjoint, AllSane, Count;
    EmptyGood(NoAreas());
    assert !NoAreas()[0].used;
  }

  /** A hint that serves is inside user space exactly when its end does not wrap. */
  lemma HintInside(vs: seq<Area>, hint: nat, n: nat)
    requires HintServes(vs, hint, n) && hint < WORD && n <= MAXUVA
    ensures RoundDown(hint) + n < MAXUVA <==> RoundDown(hint) + n < WORD
  {
  }

  /** sys_mmap has nowhere to go: for a fixed address, or for any. */
  ghost predicate Refuses(vs: seq<Area>, addr: nat, length: nat, fixed: bool) {
    var n := RoundUp(length);
    || length == 0 || length >= MAXUVA || !SlotFree(vs)
    || if fixed then addr == 0 || addr >= MAXUVA || !Clear(vs, RoundDown(addr), n)
       else !HintServes(vs, addr, n) && NoPlace(vs, n) && LastBegin(vs, n, MAXUVA - n) >= n
  }

  /** Where it goes otherwise. */
  ghost predicate MapsTo(vs: seq<Area>, addr: nat, length: nat, fixed: bool, r: int) {
    var n := RoundUp(length);
    0 < length < MAXUVA &&
    if fixed || HintServes(vs, addr, n) then r == RoundDown(addr)
    else if !NoPlace(vs, n) then r >= 0 && Highest(vs, n, r)
    else r == LastBegin(vs, n, MAXUVA - n) + WORD - n
  }

  /** On an empty table a page goes to the top of user space, at 0x7FFFF000. */
  lemma FirstMap(r: int)
    ensures !Refuses(NoAreas(), 0, 4096, false) && !Escapes(NoAreas(), 0, 4096, false)
    ensures MapsTo(NoAreas(), 0, 4096, false, r) <==> r == 0x7FFF_F000
  {
    var vs := NoAreas();
    assert !vs[0].used;
    assert Place(vs, 4096, 0x7FFF_F000);
  }

  /** And when that address, or the end of the area there, has wrapped. */
  ghost predicate Escapes(vs: seq<Area>, addr: nat, length: nat, fixed: bool) {
    var n := RoundUp(length);
    && !Refuses(vs, addr, length, fixed) && !fixed
    && if HintServes(vs, addr, n) then RoundDown(addr) + n >= WORD else NoPlace(vs, n)
  }

  lemma Rounded(length: nat)
    requires 0 < length < MAXUVA
    ensures 0 < RoundUp(length) <= MAXUVA && RoundUp(length) % PGSIZE == 0
  {
  }

  lemma Aligned(addr: nat, at: nat)
    ensures RoundDown(RoundDown(addr)) == RoundDown(addr) && (at % PGSIZE == 0 ==> RoundDown(at) == at)
  {
  }

  lemma HighestPlace(vs: seq<Area>, n: nat, a: nat)
    ensures Highest(vs, n, a) ==> a + n <= MAXUVA && !NoPlace(vs, n)
  {
  }

  // ---------------------------------------------------------------- the tables of several processes

  type Address = a: nat | a < WORD

  /** Copy is the vma_copy of a fork from p to q. */
  datatype Op =
    | Map(p: nat, addr: Address, length: Address, fixed: bool, offset: nat, prot: int, flags: int, file: nat)
    | Unmap(p: nat, addr: Address, length: Address)
    | Copy(p: nat, q: nat)

  predicate Proper(op: Op, n: nat) {
    op.p < n && (op.Copy? ==> op.q < n && op.q != op.p)
  }

  /** One call on the tables ts, its answer, and the tables after it. */
  ghost predicate Step(ts: seq<seq<Area>>, op: Op, r: int, us: seq<seq<Area>>)
    requires Proper(op, |ts|) && forall i :: 0 <= i < |ts| ==> |ts[i]| == MAX_VMA
  {
    var vs := ts[op.p];
    match op
    case Map(p, addr, length, fixed, offset, prot, flags, file) =>
      if Refuses(vs, addr, length, fixed) then r == -1 && us == ts
      else
        && MapsTo(vs, addr, length, fixed, r) && r >= 0 && |us| == |ts| && us == ts[p := us[p]]
        && PlacedIn(vs, us[p], Area(true, r, RoundUp(length), offset, prot, flags, file))
    case Unmap(p, addr, length) =>
      if addr == 0 || length == 0 || !exists i :: 0 <= i < MAX_VMA && Holds(vs[i], addr) then r == -1 && us == ts
      else r == 0 && |us| == |ts| && us == ts[p := us[p]] && TakenOut(vs, us[p], addr, length)
    case Copy(p, q) => r == 0 && us == ts[q := CopyOf(vs, ts[q])]
  }

  /** A map whose address or end wraps. */
  ghost predicate Leaves(ts: seq<seq<Area>>, op: Op) {
    op.Map? && op.p < |ts| && Escapes(ts[op.p], op.addr, op.length, op.fixed)
  }

  ghost predicate AllGood(ts: seq<seq<Area>>, n: nat) {
    |ts| == n && forall i :: 0 <= i < n ==> |ts[i]| == MAX_VMA && Good(ts[i], Count(ts[i]))
  }

  ghost predicate Distinct(ms: seq<Manager>) {
    forall i, j :: 0 <= i < |ms| && 0 <= j < |ms| && i != j ==> ms[i] != ms[j] && ms[i].vmas != ms[j].vmas
  }

  ghost function Arrays(ms: seq<Manager>): set<object> {
    set i | 0 <= i < |ms| :: ms[i].vmas
  }

  ghost predicate Tables(ms: seq<Manager>, ts: seq<seq<Area>>)
    reads ms, Arrays(ms)
  {
    |ts| == |ms| && forall i :: 0 <= i < |ms| ==> ms[i].Valid() && ms[i].vmas[..] == ts[i]
  }

  /** One call by one process: the other tables are as before. */
  method Perform(ms: seq<Manager>, op: Op, ghost ts: seq<seq<Area>>)
    returns (r: int, left: bool, ghost us: seq<seq<Area>>)
    requires Distinct(ms) && Tables(ms, ts) && Proper(op, |ms|)
    modifies ms, Arrays(ms)
    ensures AllGood(ts, |ms|) && Step(ts, op, r, us) && (left <==> Leaves(ts, op))
    ensures !left ==> Tables(ms, us) && AllGood(us, |ms|)
  {
    hide Good, Refuses, MapsTo, PlacedIn, TakenOut, RoundUp;
    TablesGood(ms, ts);
    var m := ms[op.p];
    assert m.vmas in Arrays(ms);
    left := false;
    match op {
      case Map(p, addr, length, fixed, offset, prot, flags, file) =>
        r := m.Mmap(addr, length, fixed, offset, prot, flags, file);
        left := r != -1 && r + RoundUp(length) > LIMIT;
        us := ts[p := m.vmas[..]];
        assert ts[p := ts[p]] == ts;
      case Unmap(p, addr, length) =>
        r := m.Munmap(addr, length);
        us := ts[p := m.vmas[..]];
        assert ts[p := ts[p]] == ts;
      case Copy(p, q) =>
        assert ms[q].vmas in Arrays(ms);
        ms[q].CopyFrom(m);
        r := 0;
        us := ts[q := ms[q].vmas[..]];
    }
    if !left {
      TablesGood(ms, us);
    }
  }

  lemma TablesGood(ms: seq<Manager>, ts: seq<seq<Area>>)
    requires Tables(ms, ts)
    ensures AllGood(ts, |ms|)
  {
  }

  /**
   Any run of maps, unmaps and copies among any number of tables keeps every table good, with every
   answer and table as `Step` says, up to exactly the first map that wraps.
   */
  method Run(ms: seq<Manager>, ops: seq<Op>, ghost ts: seq<seq<Area>>)
    returns (outs: seq<int>, stopped: bool, ghost tables: seq<seq<seq<Area>>>)
    requires Distinct(ms) && Tables(ms, ts) && forall k :: 0 <= k < |ops| ==> Proper(ops[k], |ms|)
    modifies ms, Arrays(ms)
    ensures |outs| <= |ops| && |tables| == |outs| + 1 && tables[0] == ts
    ensures forall k :: 0 <= k < |outs| ==> AllGood(tables[k], |ms|) && Step(tables[k], ops[k], outs[k], tables[k + 1])
    ensures forall k :: 0 <= k < |outs| ==> (Leaves(tables[k], ops[k]) <==> stopped && k == |outs| - 1)
    ensures stopped ==> outs != []
    ensures !stopped ==> |outs| == |ops| && Tables(ms, tables[|ops|]) && AllGood(tables[|ops|], |ms|)
  {
    hide Good, Step, Leaves;
    TablesGood(ms, ts);
    outs, tables, stopped := [], [ts], false;
    while |outs| < |ops|
      invariant |outs| <= |ops| && |tables| == |outs| + 1 && tables[0] == ts && Tables(ms, tables[|outs|])
      invariant forall k :: 0 <= k <= |outs| ==> AllGood(tables[k], |ms|)
      invariant forall k :: 0 <= k < |outs| ==>
        Step(tables[k], ops[k], outs[k], tables[k + 1]) && !Leaves(tables[k], ops[k])
    {
      ghost var now := tables[|outs|];
      var r;
      ghost var next;
      r, stopped, next := Perform(ms, ops[|outs|], now);
      outs, tables := outs + [r], tables + [next];
      if stopped {
        return;
      }
    }
  }

  /** Removing exactly an area's own range removes that area and no other. */
  lemma OnlyItself(vs: seq<Area>, count: int, i: nat)
    requires Good(vs, count) && i < |vs| && vs[i].used
    ensures Without(vs, vs[i].addr, (vs[i].addr + vs[i].length) % WORD) == vs[i := NoArea(vs[i])]
  {
    hide Without;
    assert Sane(vs[i]);
    forall j | 0 <= j < |vs| && j != i ensures !Inside(vs[j], vs[i].addr, vs[i].addr + vs[i].length) {
      assert Sane(vs[j]);
      assert vs[j].used ==> Holds(vs[j], vs[j].addr);
      assert Holds(vs[i], vs[j].addr) ==> !Holds(vs[j], vs[j].addr);
    }
  }

  ghost predicate SlotFree(vs: seq<Area>) {
    exists i :: 0 <= i < |vs| && !vs[i].used
  }

  lemma Settled(vs: seq<Area>, i: nat, v: Area)
    requires |vs| == MAX_VMA && Disjoint(vs) && AllSane(vs) && i < |vs| && !vs[i].used
    requires v.used && v.addr % PGSIZE == 0 == v.length % PGSIZE && Clear(vs, v.addr, v.length)
    ensures Good(vs[i := v], Count(vs[i := v])) <==> 0 < v.length && v.addr + v.length <= LIMIT
  {
    if 0 < v.length && v.addr + v.length <= LIMIT {
      PlacedDisjoint(vs, i, v);
      SanePlace(vs, i, v);
    } else {
      assert !Sane(vs[i := v][i]);
    }
  }

  lemma Dropped(vs: seq<Area>, count: int, i: nat, addr: nat, end: nat)
    requires Good(vs, count) && i < |vs| && Inside(vs[i], addr, end)
    ensures Good(vs[i := NoArea(vs[i])], count - 1) && Count(vs[i := NoArea(vs[i])]) == Count(vs) - 1
  {
    var v := NoArea(vs[i]);
    CountSet(vs, i, v);
    RemovedDisjoint(vs, i, v);
    SanePlace(vs, i, v);
  }
}
