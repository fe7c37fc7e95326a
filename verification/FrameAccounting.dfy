/**
 Who refers to which physical page: the value-level accounting behind the reference-counted
 page allocator (kernel/kalloc.c) and the user page tables that share its pages.

 A `State` is a snapshot of the kernel's memory bookkeeping.  Besides the real structures it
 carries three ghost notions:
   - `hand`:    pages the running kernel code holds one reference to, between taking and storing it;
   - `owed`:    pages mapped once more than has been counted yet;
   - `orphans`: pages that are neither free nor reachable.
 */
module FrameAccounting {

  import opened Common
  import opened Paging

  datatype Slot = Slot(pid: nat, vpn: nat)

  /** A user leaf entry; every one the kernel makes is valid and readable. */
  datatype Pte = Pte(frame: nat, w: bool, cow: bool, x: bool, u: bool)

  type Leaves = map<Slot, Pte>

  /** Whose a page is that the kernel keeps for a process's tables, trapframe or stack; a lost stack is nobody's. */
  datatype Holder = Of(pid: nat) | Nobody

  datatype State = State(
    ram: set<nat>, free: seq<nat>, ref: seq<nat>, mem: map<nat, Page>,
    pt: Leaves, kpt: map<Slot, nat>, sz: map<nat, nat>, tables: map<nat, Holder>,
    hand: set<nat>, owed: set<nat>, orphans: set<nat>)

  ghost function Refs(pt: Leaves, f: nat): set<Slot> {
    set k | k in pt && pt[k].frame == f
  }

  function One(b: bool): nat { if b then 1 else 0 }

  /** References to a page: user leaves, the kernel's hand, a page table using it as a node. */
  ghost function Count(pt: Leaves, hand: set<nat>, tables: map<nat, Holder>, f: nat): nat {
    |Refs(pt, f)| + One(f in hand) + One(f in tables)
  }

  /** The reference count of a page is the number of its references. */
  ghost predicate CountsAgree(ram: set<nat>, ref: seq<nat>, owed: set<nat>,
                              pt: Leaves, hand: set<nat>, tables: map<nat, Holder>)
  {
    forall f :: f in ram ==> f < |ref| && ref[f] + One(f in owed) == Count(pt, hand, tables, f)
  }

  /** A page is free or orphaned exactly when nothing refers to it, and never both. */
  ghost predicate IdleUnreferenced(ram: set<nat>, free: seq<nat>, orphans: set<nat>,
                                   pt: Leaves, hand: set<nat>, tables: map<nat, Holder>)
  {
    && Distinct(free)
    && (forall f :: f in free ==> f in ram && f !in orphans)
    && orphans <= ram
    && (forall f :: f in ram ==> (Count(pt, hand, tables, f) == 0 <==> f in free || f in orphans))
  }

  ghost predicate TablesPrivate(ram: set<nat>, tables: map<nat, Holder>, sz: map<nat, nat>, pt: Leaves,
                                hand: set<nat>)
  {
    forall f :: f in tables ==>
      f in ram && Refs(pt, f) == {} && f !in hand && (tables[f].Of? ==> tables[f].pid in sz)
  }

  /** Every leaf is a user page, either writable and then the only mapping of its page, or copy-on-write. */
  ghost predicate LeafOk(ram: set<nat>, pt: Leaves, k: Slot)
    requires k in pt
  {
    && pt[k].frame in ram
    && pt[k].w != pt[k].cow
    && pt[k].u
    && (pt[k].w ==> Refs(pt, pt[k].frame) == {k})
  }

  /** Pages are shared only between equal virtual page numbers. */
  ghost predicate LeavesOk(ram: set<nat>, pt: Leaves) {
    && (forall k :: k in pt ==> LeafOk(ram, pt, k))
    && (forall k, l :: k in pt && l in pt && pt[k].frame == pt[l].frame ==> k.vpn == l.vpn)
  }

  ghost predicate WithinSize(pt: Leaves, sz: map<nat, nat>) {
    && (forall p :: p in sz ==> sz[p] < MAXUVA)
    && (forall k :: k in pt ==> k.pid in sz && k.vpn < PageCount(sz[k.pid]))
  }

  ghost predicate Inv(s: State) {
    && s.ram <= s.mem.Keys
    && CountsAgree(s.ram, s.ref, s.owed, s.pt, s.hand, s.tables)
    && IdleUnreferenced(s.ram, s.free, s.orphans, s.pt, s.hand, s.tables)
    && TablesPrivate(s.ram, s.tables, s.sz, s.pt, s.hand)
    && LeavesOk(s.ram, s.pt)
    && WithinSize(s.pt, s.sz)
  }

  /** The per-process kernel page tables map the same pages as the user ones. */
  ghost predicate Mirror(s: State) {
    && s.kpt.Keys == s.pt.Keys
    && (forall k :: k in s.pt ==> s.kpt[k] == s.pt[k].frame)
  }

  /** Between system calls no reference is in flight. */
  ghost predicate Settled(s: State) {
    Inv(s) && Mirror(s) && s.hand == {} && s.owed == {}
  }

  // ---------------------------------------------------------------- primitive transitions

  /** Effect of kalloc on a non-empty free list. */
  ghost function Taken(s: State): State
    requires s.free != [] && s.free[0] < |s.ref|
  {
    var f := s.free[0];
    s.(free := s.free[1..], ref := s.ref[f := 1], mem := s.mem[f := Fill(5)], hand := s.hand + {f})
  }

  /** Effect of kfree. */
  ghost function Released(s: State, f: nat): State
    requires f < |s.ref|
  {
    var r := if s.ref[f] > 0 then s.ref[f] - 1 else 0;
    var t := s.(ref := s.ref[f := r], hand := s.hand - {f});
    if r > 0 then t else t.(mem := s.mem[f := Fill(1)], free := [f] + s.free)
  }

  /** The page freed last is the one handed out next. */
  lemma FreedIsNext(s: State, f: nat)
    requires f < |s.ref| && s.ref[f] <= 1
    ensures Released(s, f).free != [] && Released(s, f).free[0] == f && Taken(Released(s, f)).free == s.free
    ensures Taken(Released(s, f)).ref == s.ref[f := 1]
  {
  }

  /** Effect of decref: the count drops but the page is never put on the free list. */
  ghost function Dropped(s: State, f: nat): State
    requires f < |s.ref|
  {
    var r := if s.ref[f] > 0 then s.ref[f] - 1 else 0;
    s.(ref := s.ref[f := r], hand := s.hand - {f},
       orphans := if r == 0 then s.orphans + {f} else s.orphans)
  }

  /** Effect of storing a leaf for a reference in hand. */
  ghost function Mapped(s: State, k: Slot, e: Pte): State {
    s.(pt := s.pt[k := e], hand := s.hand - {e.frame})
  }

  /** Effect of clearing a leaf, whose reference passes to the hand. */
  ghost function Unmapped(s: State, k: Slot): State
    requires k in s.pt
  {
    s.(pt := s.pt - {k}, hand := s.hand + {s.pt[k].frame})
  }

  /** Effect of turning a page in hand into a zeroed page-table node of process p, and back. */
  ghost function Tabled(s: State, f: nat, p: nat): State {
    s.(tables := s.tables[f := Of(p)], hand := s.hand - {f}, mem := s.mem[f := Fill(0)])
  }

  /** Effect of keeping a page in hand as it is for h, or losing it to nobody. */
  ghost function Stowed(s: State, f: nat, h: Holder): State {
    s.(tables := s.tables[f := h], hand := s.hand - {f})
  }

  ghost function Untabled(s: State, f: nat): State {
    s.(tables := s.tables - {f}, hand := s.hand + {f})
  }

  /** Effect of mapping an already mapped page once more, before incref counts it. */
  ghost function Shared(s: State, k: Slot, e: Pte): State {
    s.(pt := s.pt[k := e], owed := s.owed + {e.frame})
  }

  /** Effect of incref on a page that is owed a count. */
  ghost function Counted(s: State, f: nat): State
    requires f < |s.ref|
  {
    s.(ref := s.ref[f := s.ref[f] + 1], owed := s.owed - {f})
  }

  /** Effect of clearing PTE_W and setting PTE_COW. */
  function Guarded(e: Pte): Pte { e.(w := false, cow := true) }

  ghost function Protected(s: State, k: Slot): State
    requires k in s.pt
  {
    s.(pt := s.pt[k := Guarded(s.pt[k])])
  }

  lemma HandCounts(pt: Leaves, hand: set<nat>, tables: map<nat, Holder>, f: nat)
    requires f !in hand
    ensures forall g :: Count(pt, hand + {f}, tables, g) == Count(pt, hand, tables, g) + One(g == f)
  {
    hide Refs;
  }

  lemma HandCountsDown(pt: Leaves, hand: set<nat>, tables: map<nat, Holder>, f: nat)
    requires f in hand
    ensures forall g :: Count(pt, hand - {f}, tables, g) == Count(pt, hand, tables, g) - One(g == f)
  {
    hide Count;
    HandCounts(pt, hand - {f}, tables, f);
    assert hand - {f} + {f} == hand;
  }

  lemma TakenKeeps(s: State)
    requires Inv(s) && s.free != []
    ensures s.free[0] in s.ram && Inv(Taken(s))
    ensures s.free[0] !in s.hand && Refs(s.pt, s.free[0]) == {} && s.free[0] !in s.tables
  {
    hide Count, Refs;
    var f := s.free[0];
    assert f in s.free;
    ZeroCount(s.pt, s.hand, s.tables, f);
    HandCounts(s.pt, s.hand, s.tables, f);
    assert forall g :: g in s.free <==> g == f || g in s.free[1..];
  }

  lemma ZeroCount(pt: Leaves, hand: set<nat>, tables: map<nat, Holder>, f: nat)
    ensures Count(pt, hand, tables, f) == 0 <==> f !in hand && f !in tables && Refs(pt, f) == {}
    ensures Count(pt, hand, tables, f) == 1 && f in hand ==> f !in tables && Refs(pt, f) == {}
  {
    hide Refs;
  }

  lemma ReleasedKeeps(s: State, f: nat)
    requires Inv(s) && f in s.ram && f in s.hand && f !in s.owed
    ensures Inv(Released(s, f))
  {
    hide Count, Refs, Distinct, PageCount, IdleUnreferenced, LeavesOk, WithinSize;
    ReleasedIdle(s, f);
    HandCountsDown(s.pt, s.hand, s.tables, f);
  }

  lemma ReleasedIdle(s: State, f: nat)
    requires Inv(s) && f in s.ram && f in s.hand && f !in s.owed
    ensures var t := Released(s, f); IdleUnreferenced(t.ram, t.free, t.orphans, t.pt, t.hand, t.tables)
  {
    hide Count, Refs, Distinct, PageCount, LeavesOk, WithinSize, TablesPrivate;
    ZeroCount(s.pt, s.hand, s.tables, f);
    HandCountsDown(s.pt, s.hand, s.tables, f);
    Prepended(s.free, f);
  }

  /** A page in hand is neither free nor a node, and its last reference is unmapped. */
  lemma HeldFrame(s: State, f: nat)
    requires Inv(s) && f in s.ram && f in s.hand && f !in s.owed
    ensures f !in s.free && f !in s.tables && s.ref[f] > 0 && (s.ref[f] == 1 ==> Refs(s.pt, f) == {})
  {
    hide Count, Refs, PageCount, Distinct, LeavesOk, WithinSize;
    ZeroCount(s.pt, s.hand, s.tables, f);
  }

  lemma Prepended(q: seq<nat>, f: nat)
    ensures forall g :: g in [f] + q <==> g in q || g == f
    ensures Distinct(q) && f !in q ==> Distinct([f] + q)
  {
  }

  lemma DroppedKeeps(s: State, f: nat)
    requires Inv(s) && f in s.ram && f in s.hand && f !in s.owed
    ensures Inv(Dropped(s, f))
  {
    hide Count, Refs;
    ZeroCount(s.pt, s.hand, s.tables, f);
    HandCountsDown(s.pt, s.hand, s.tables, f);
  }

  lemma RefsOfUpdate(pt: Leaves, k: Slot, e: Pte, f: nat)
    requires k !in pt
    ensures Refs(pt[k := e], f) == Refs(pt, f) + (if e.frame == f then {k} else {})
    ensures |Refs(pt[k := e], f)| == |Refs(pt, f)| + One(e.frame == f)
  {
    assert k !in Refs(pt, f);
  }

  lemma RefsOfRemoval(pt: Leaves, k: Slot, f: nat)
    requires k in pt
    ensures Refs(pt - {k}, f) == Refs(pt, f) - {k}
    ensures |Refs(pt - {k}, f)| == |Refs(pt, f)| - One(pt[k].frame == f)
  {
    assert Refs(pt - {k}, f) == Refs(pt, f) - {k};
    if pt[k].frame == f { assert k in Refs(pt, f); } else { assert Refs(pt, f) - {k} == Refs(pt, f); }
  }

  lemma MappedCounts(s: State, k: Slot, e: Pte)
    requires k !in s.pt && e.frame in s.hand
    ensures forall f :: Count(s.pt[k := e], s.hand - {e.frame}, s.tables, f) == Count(s.pt, s.hand, s.tables, f)
    ensures forall f :: Refs(s.pt[k := e], f) == Refs(s.pt, f) + (if e.frame == f then {k} else {})
  {
    forall f ensures Refs(s.pt[k := e], f) == Refs(s.pt, f) + (if e.frame == f then {k} else {})
      && Count(s.pt[k := e], s.hand - {e.frame}, s.tables, f) == Count(s.pt, s.hand, s.tables, f)
    {
      RefsOfUpdate(s.pt, k, e, f);
      hide Refs;
    }
  }

  /** Storing a leaf is safe when a writable one is alone and a shared one joins read-only peers. */
  lemma MappedKeeps(s: State, k: Slot, e: Pte)
    requires Inv(s) && k !in s.pt && e.frame in s.hand && e.frame in s.ram
    requires e.w != e.cow && e.u && (e.w ==> Refs(s.pt, e.frame) == {})
    requires forall l :: l in s.pt && s.pt[l].frame == e.frame ==> !s.pt[l].w && l.vpn == k.vpn
    requires k.pid in s.sz && k.vpn < PageCount(s.sz[k.pid])
    ensures Inv(Mapped(s, k, e))
  {
    hide Count, Refs, PageCount, Distinct;
    MappedCounts(s, k, e);
    var pt := s.pt[k := e];
    forall l | l in pt ensures LeafOk(s.ram, pt, l) {
      if l != k { assert LeafOk(s.ram, s.pt, l); }
    }
  }

  lemma UnmappedCounts(s: State, k: Slot)
    requires k in s.pt && s.pt[k].frame !in s.hand
    ensures forall f :: Count(s.pt - {k}, s.hand + {s.pt[k].frame}, s.tables, f) == Count(s.pt, s.hand, s.tables, f)
    ensures forall f :: Refs(s.pt - {k}, f) == Refs(s.pt, f) - {k}
    ensures k in Refs(s.pt, s.pt[k].frame)
  {
    forall f ensures Refs(s.pt - {k}, f) == Refs(s.pt, f) - {k}
      && Count(s.pt - {k}, s.hand + {s.pt[k].frame}, s.tables, f) == Count(s.pt, s.hand, s.tables, f)
    {
      RefsOfRemoval(s.pt, k, f);
      hide Refs;
    }
  }

  lemma UnmappedKeeps(s: State, k: Slot)
    requires Inv(s) && k in s.pt && s.pt[k].frame !in s.hand
    ensures Inv(Unmapped(s, k))
  {
    hide Count, Refs, PageCount, Distinct;
    UnmappedCounts(s, k);
    var pt := s.pt - {k};
    forall l | l in pt ensures LeafOk(s.ram, pt, l) {
      assert LeafOk(s.ram, s.pt, l);
    }
    assert s.pt[k].frame !in s.tables;
  }

  lemma TabledKeeps(s: State, f: nat, p: nat)
    requires Inv(s) && f in s.hand && f in s.ram && f !in s.tables && Refs(s.pt, f) == {} && p in s.sz
    ensures Inv(Tabled(s, f, p))
  {
    hide Count, Refs, PageCount, Distinct;
    TableCounts(s.pt, s.hand, s.tables, f, Of(p));
  }

  lemma StowedKeeps(s: State, f: nat, h: Holder)
    requires Inv(s) && f in s.hand && f in s.ram && Refs(s.pt, f) == {} && (h.Of? ==> h.pid in s.sz)
    ensures Inv(Stowed(s, f, h)) && f !in s.tables
  {
    hide Count, Refs, PageCount, Distinct;
    TableCounts(s.pt, s.hand, s.tables, f, h);
  }

  lemma TableCounts(pt: Leaves, hand: set<nat>, tables: map<nat, Holder>, f: nat, h: Holder)
    requires f in hand && f !in tables
    ensures forall g :: Count(pt, hand - {f}, tables[f := h], g) == Count(pt, hand, tables, g)
  {
    hide Refs;
  }

  lemma UntabledKeeps(s: State, f: nat)
    requires Inv(s) && f in s.tables
    ensures Inv(Untabled(s, f)) && f in s.ram && Refs(s.pt, f) == {} && f !in s.hand
  {
    hide Count, Refs, PageCount, Distinct;
    TableCounts(s.pt, s.hand + {f}, s.tables - {f}, f, s.tables[f]);
    assert s.hand + {f} - {f} == s.hand;
    assert (s.tables - {f})[f := s.tables[f]] == s.tables;
  }

  /** A further mapping of a mapped page is safe when it and its peers are copy-on-write. */
  lemma SharedKeeps(s: State, k: Slot, e: Pte)
    requires Inv(s) && k !in s.pt && e.frame !in s.owed && Refs(s.pt, e.frame) != {} && e.frame in s.ram
    requires e.cow && !e.w && e.u
    requires forall l :: l in s.pt && s.pt[l].frame == e.frame ==> !s.pt[l].w && l.vpn == k.vpn
    requires k.pid in s.sz && k.vpn < PageCount(s.sz[k.pid])
    ensures Inv(Shared(s, k, e))
  {
    hide Count, Refs, PageCount, Distinct;
    ShareCounts(s.pt, s.hand, s.tables, k, e);
    ZeroCount(s.pt, s.hand, s.tables, e.frame);
    var pt := s.pt[k := e];
    forall l | l in pt ensures LeafOk(s.ram, pt, l) {
      if l != k { assert LeafOk(s.ram, s.pt, l); }
    }
  }

  lemma ShareCounts(pt: Leaves, hand: set<nat>, tables: map<nat, Holder>, k: Slot, e: Pte)
    requires k !in pt
    ensures forall f :: Count(pt[k := e], hand, tables, f) == Count(pt, hand, tables, f) + One(f == e.frame)
    ensures forall f :: Refs(pt[k := e], f) == Refs(pt, f) + (if e.frame == f then {k} else {})
  {
    forall f ensures Refs(pt[k := e], f) == Refs(pt, f) + (if e.frame == f then {k} else {})
      && Count(pt[k := e], hand, tables, f) == Count(pt, hand, tables, f) + One(f == e.frame)
    {
      RefsOfUpdate(pt, k, e, f);
      hide Refs;
    }
  }

  lemma CountedKeeps(s: State, f: nat)
    requires Inv(s) && f in s.owed && f in s.ram
    ensures Inv(Counted(s, f))
  {
    hide Count, Refs, PageCount, Distinct, IdleUnreferenced, TablesPrivate, LeavesOk, WithinSize;
  }

  lemma ProtectedKeeps(s: State, k: Slot)
    requires Inv(s) && k in s.pt
    ensures Inv(Protected(s, k))
    ensures forall f :: Refs(Protected(s, k).pt, f) == Refs(s.pt, f)
  {
    hide Count, PageCount, Distinct;
    var pt := s.pt[k := Guarded(s.pt[k])];
    forall f ensures Refs(pt, f) == Refs(s.pt, f) {}
    SameRefs(s.pt, pt, s.hand, s.tables);
    assert pt.Keys == s.pt.Keys;
    forall l | l in pt ensures LeafOk(s.ram, pt, l) {
      assert LeafOk(s.ram, s.pt, l);
    }
  }

  lemma SameRefs(pt: Leaves, pt': Leaves, hand: set<nat>, tables: map<nat, Holder>)
    requires forall f :: Refs(pt', f) == Refs(pt, f)
    ensures forall f :: Count(pt', hand, tables, f) == Count(pt, hand, tables, f)
  {
    hide Refs;
  }

  // ---------------------------------------------------------------- conservation

  ghost function MappedFrames(pt: Leaves): set<nat> {
    set k | k in pt :: pt[k].frame
  }

  /** The pages processes have for their tables, trapframe and stack, and the stacks nobody has any more. */
  ghost function NodePages(tables: map<nat, Holder>): set<nat> {
    set f | f in tables && tables[f].Of?
  }

  ghost function LostPages(tables: map<nat, Holder>): set<nat> {
    set f | f in tables && tables[f].Nobody?
  }

  /** Every page is free, a process's, lost, orphaned or mapped, and exactly one of these. */
  lemma Conservation(s: State)
    requires Inv(s) && s.hand == {}
    ensures s.ram == Elements(s.free) + NodePages(s.tables) + LostPages(s.tables) + s.orphans + MappedFrames(s.pt)
    ensures Elements(s.free) !! NodePages(s.tables) !! LostPages(s.tables) !! s.orphans !! MappedFrames(s.pt)
    ensures Distinct(s.free)
    ensures |s.ram| ==
      |s.free| + |NodePages(s.tables)| + |LostPages(s.tables)| + |s.orphans| + |MappedFrames(s.pt)|
  {
    hide Inv, MappedFrames, Elements;
    FourParts(s);
    assert NodePages(s.tables) !! LostPages(s.tables);
    assert s.tables.Keys == NodePages(s.tables) + LostPages(s.tables);
    hide NodePages, LostPages;
    SplitSecond(Elements(s.free), NodePages(s.tables), LostPages(s.tables), s.orphans, MappedFrames(s.pt));
  }

  lemma SplitSecond(a: set<nat>, n: set<nat>, l: set<nat>, c: set<nat>, d: set<nat>)
    requires a !! (n + l) !! c !! d && n !! l
    ensures a !! n !! l !! c !! d && |n + l| == |n| + |l| && a + (n + l) + c + d == a + n + l + c + d
  {
  }

  /** A lost page has a count of one that nothing stands for. */
  lemma LostCounted(s: State, f: nat)
    requires Settled(s) && f in LostPages(s.tables)
    ensures f < |s.ref| && s.ref[f] == 1 && Refs(s.pt, f) == {} && f !in s.free && f !in s.orphans
  {
    hide PageCount, Distinct, LeavesOk;
  }

  lemma FourParts(s: State)
    requires Inv(s) && s.hand == {}
    ensures s.ram == Elements(s.free) + s.tables.Keys + s.orphans + MappedFrames(s.pt)
    ensures Elements(s.free) !! s.tables.Keys !! s.orphans !! MappedFrames(s.pt) && Distinct(s.free)
    ensures |s.ram| == |s.free| + |s.tables.Keys| + |s.orphans| + |MappedFrames(s.pt)|
  {
    hide Inv, MappedFrames;
    InvDistinct(s);
    DistinctSize(s.free);
    forall f
      ensures f in s.ram <==> f in Elements(s.free) || f in s.tables.Keys || f in s.orphans || f in MappedFrames(s.pt)
      ensures f in Elements(s.free) ==> f !in s.tables.Keys && f !in s.orphans && f !in MappedFrames(s.pt)
      ensures f in s.tables.Keys ==> f !in s.orphans && f !in MappedFrames(s.pt)
      ensures f in s.orphans ==> f !in MappedFrames(s.pt)
    {
      OneOfFour(s, f);
    }
    FourWaySplit(s.ram, Elements(s.free), s.tables.Keys, s.orphans, MappedFrames(s.pt));
  }

  /** As many pages are free as before, less those the tables have gained, when nothing else has changed hands. */
  lemma FreeFollows(s: State, t: State)
    requires Inv(s) && Inv(t) && s.hand == {} == t.hand && t.ram == s.ram && t.orphans == s.orphans
    requires MappedFrames(t.pt) == MappedFrames(s.pt)
    ensures |t.free| + |t.tables.Keys| == |s.free| + |s.tables.Keys|
  {
    hide Inv, MappedFrames;
    FourParts(s);
    FourParts(t);
  }

  lemma InvDistinct(s: State)
    requires Inv(s)
    ensures Distinct(s.free)
  {
  }

  lemma OneOfFour(s: State, f: nat)
    requires Inv(s) && s.hand == {}
    ensures f in s.ram <==> f in s.free || f in s.tables || f in s.orphans || f in MappedFrames(s.pt)
    ensures f in s.free ==> f !in s.tables && f !in s.orphans && f !in MappedFrames(s.pt)
    ensures f in s.tables ==> f !in s.orphans && f !in MappedFrames(s.pt)
    ensures f in s.orphans ==> f !in MappedFrames(s.pt)
  {
    hide Count, Refs, PageCount, Distinct, MappedFrames, LeavesOk, CountsAgree, WithinSize;
    MappedIffReferenced(s.pt);
    IdleIffUnmapped(s);
    MappedInRam(s);
  }

  lemma FourWaySplit(all: set<nat>, a: set<nat>, b: set<nat>, c: set<nat>, d: set<nat>)
    requires forall f :: f in all <==> f in a || f in b || f in c || f in d
    requires forall f :: f in a ==> f !in b && f !in c && f !in d
    requires forall f :: f in b ==> f !in c && f !in d
    requires forall f :: f in c ==> f !in d
    ensures all == a + b + c + d && a !! b !! c !! d && |all| == |a| + |b| + |c| + |d|
  {
    assert all == a + b + c + d;
  }

  lemma MappedIffReferenced(pt: Leaves)
    ensures forall f :: f in MappedFrames(pt) <==> Refs(pt, f) != {}
  {
    forall f ensures f in MappedFrames(pt) <==> Refs(pt, f) != {} {
      if f in MappedFrames(pt) {
        var k :| k in pt && pt[k].frame == f;
        assert k in Refs(pt, f);
      }
    }
  }

  lemma IdleIffUnmapped(s: State)
    requires Inv(s) && s.hand == {}
    ensures forall f :: f in s.ram ==> (f in s.free || f in s.orphans <==> f !in s.tables && Refs(s.pt, f) == {})
  {
    hide Count, Refs, PageCount, Distinct, LeavesOk, CountsAgree, TablesPrivate;
    forall f ensures Count(s.pt, s.hand, s.tables, f) == 0 <==> f !in s.tables && Refs(s.pt, f) == {} {
      ZeroCount(s.pt, s.hand, s.tables, f);
    }
  }

  lemma RefMember(pt: Leaves, k: Slot, f: nat)
    ensures k in Refs(pt, f) <==> k in pt && pt[k].frame == f
  {
  }

  lemma MappedInRam(s: State)
    requires LeavesOk(s.ram, s.pt)
    ensures MappedFrames(s.pt) <= s.ram
  {
    forall f | f in MappedFrames(s.pt) ensures f in s.ram {
      var k :| k in s.pt && s.pt[k].frame == f;
      assert LeafOk(s.ram, s.pt, k);
    }
  }
}
