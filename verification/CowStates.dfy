/**
 What a kernel memory state means to the processes, and how each bookkeeping step of
 kernel/vm.c keeps the accounting and that meaning.
 */
module CowStates {
  import opened Common
  import opened Paging
  import opened FrameAccounting
  import opened PrivateMemory

  // ---------------------------------------------------------------- abstraction

  ghost function PageAt(pt: Leaves, mem: map<nat, Page>, p: nat, v: nat): Page {
    var k := Slot(p, v);
    if k in pt && pt[k].frame in mem then mem[pt[k].frame] else Fill(0)
  }

  ghost function PagesOf(pt: Leaves, mem: map<nat, Page>, p: nat, n: nat): seq<Page> {
    seq(n, v requires 0 <= v < n => PageAt(pt, mem, p, v))
  }

  ghost function ProcOf(s: State, p: nat): Proc
    requires p in s.sz
  {
    Proc(s.sz[p], PagesOf(s.pt, s.mem, p, PageCount(s.sz[p])))
  }

  /** The private memories a kernel state stands for. */
  ghost function Abs(s: State): Memory {
    map p | p in s.sz :: ProcOf(s, p)
  }

  /** Every mapped page shows the same bytes in both states. */
  ghost predicate SameContents(s: State, t: State) {
    && t.sz == s.sz
    && forall p, v :: PageAt(t.pt, t.mem, p, v) == PageAt(s.pt, s.mem, p, v)
  }

  lemma SameAbs(s: State, t: State)
    requires SameContents(s, t)
    ensures Abs(t) == Abs(s)
  {
    hide PageAt;
    forall p | p in s.sz ensures ProcOf(t, p) == ProcOf(s, p) {
      assert PagesOf(t.pt, t.mem, p, PageCount(t.sz[p])) == PagesOf(s.pt, s.mem, p, PageCount(s.sz[p]));
    }
  }

  lemma UnreferencedWrite(pt: Leaves, mem: map<nat, Page>, f: nat, page: Page)
    requires Refs(pt, f) == {} && f in mem
    ensures forall p, v :: PageAt(pt, mem[f := page], p, v) == PageAt(pt, mem, p, v)
  {
    forall p, v ensures PageAt(pt, mem[f := page], p, v) == PageAt(pt, mem, p, v) {
      assert Slot(p, v) in pt && pt[Slot(p, v)].frame == f ==> Slot(p, v) in Refs(pt, f);
    }
  }

  /** Taking a table node touches only a free page. */
  ghost predicate Quiet(s: State, t: State) {
    && t.ram == s.ram && t.pt == s.pt && t.kpt == s.kpt && t.sz == s.sz
    && t.hand == s.hand && t.owed == s.owed && t.orphans == s.orphans && |t.ref| == |s.ref|
    && (forall f :: f in t.free ==> f in s.free)
    && (forall f :: f in s.ram && f !in s.free ==>
          f < |s.ref| && t.ref[f] == s.ref[f] && f in s.mem && f in t.mem && t.mem[f] == s.mem[f])
  }

  lemma QuietSelf(s: State)
    requires Inv(s)
    ensures Quiet(s, s) && SameContents(s, s)
  {
  }

  lemma FreeInRange(s: State)
    requires Inv(s)
    ensures forall f :: f in s.free ==> f < |s.ref|
    ensures forall f :: f in s.ram ==> f < |s.ref| && f in s.mem
  {
    hide Distinct, Count, LeavesOk, TablesPrivate;
  }

  lemma TableAdded(s: State, p: nat)
    requires Inv(s) && s.free != [] && p in s.sz && s.free[0] < |s.ref|
    ensures var t := Tabled(Taken(s), s.free[0], p); Inv(t) && Quiet(s, t) && SameContents(s, t) && t.hand == s.hand
  {
    hide Refs, PageAt, Count, LeavesOk, TablesPrivate, Distinct;
    TakenKeeps(s);
    TabledKeeps(Taken(s), s.free[0], p);
    UnreferencedWrite(s.pt, s.mem, s.free[0], Fill(0));
    assert s.mem[s.free[0] := Fill(5)][s.free[0] := Fill(0)] == s.mem[s.free[0] := Fill(0)];
  }

  lemma QuietTrans(s: State, t: State, u: State)
    requires Quiet(s, t) && Quiet(t, u)
    ensures Quiet(s, u)
  {
  }

  lemma QuietAgain(s: State, t: State, u: State)
    requires Quiet(s, t) && Quiet(t, u) && SameContents(s, t) && SameContents(t, u)
    ensures Quiet(s, u) && SameContents(s, u)
  {
    hide PageAt;
    QuietTrans(s, t, u);
  }

  /** A page in hand with no mapping, holding zeroes. */
  ghost predicate FreshZero(s: State, f: nat) {
    && f in s.ram && f in s.hand && f !in s.owed && f !in s.free
    && Refs(s.pt, f) == {} && f in s.mem && s.mem[f] == Fill(0)
  }

  lemma FreshInRam(s: State, f: nat)
    requires FreshZero(s, f)
    ensures f in s.ram && f in s.hand && f !in s.owed
  {
  }

  lemma ZeroTaken(s: State)
    requires Settled(s) && s.free != [] && s.free[0] < |s.ref|
    ensures var t := Taken(s).(mem := s.mem[s.free[0] := Fill(0)]);
      Inv(t) && SameContents(s, t) && FreshZero(t, s.free[0])
  {
    hide Refs, PageAt, Count, LeavesOk, TablesPrivate;
    TakenKeeps(s);
    UnreferencedWrite(s.pt, s.mem, s.free[0], Fill(0));
  }

  lemma FreshZeroKept(s: State, t: State, f: nat)
    requires FreshZero(s, f) && Quiet(s, t)
    ensures FreshZero(t, f)
  {
    hide Refs;
  }

  lemma ZeroMapped(s: State, k: Slot, e: Pte)
    requires k !in s.pt && e.frame in s.mem && s.mem[e.frame] == Fill(0)
    ensures SameContents(s, Mapped(s, k, e))
  {
  }

  lemma MappedFresh(s: State, k: Slot, e: Pte)
    requires Inv(s) && FreshZero(s, e.frame) && k !in s.pt && e.w && !e.cow && e.u
    requires k.pid in s.sz && k.vpn < PageCount(s.sz[k.pid])
    ensures Inv(Mapped(s, k, e)) && SameContents(s, Mapped(s, k, e))
  {
    hide Inv;
    assert forall l :: l in s.pt && s.pt[l].frame == e.frame ==> l in Refs(s.pt, e.frame);
    MappedKeeps(s, k, e);
    ZeroMapped(s, k, e);
  }

  /** A leaf whose page still holds zeroes. */
  ghost predicate ZeroLeaf(s: State, k: Slot) {
    && k in s.pt && s.pt[k].frame in s.ram && s.pt[k].frame !in s.free
    && s.pt[k].frame in s.mem && s.mem[s.pt[k].frame] == Fill(0)
  }

  lemma MappedZeroLeaf(s: State, k: Slot, e: Pte)
    requires FreshZero(s, e.frame)
    ensures ZeroLeaf(Mapped(s, k, e), k)
  {
  }

  lemma ZeroLeafIn(s: State, k: Slot)
    requires ZeroLeaf(s, k)
    ensures k in s.pt
  {
  }

  lemma MirrorWith(s: State, t: State, k: Slot, f: nat)
    requires Mirror(s) && t.kpt == s.kpt && k in t.pt && t.pt[k].frame == f && t.pt == s.pt[k := t.pt[k]]
    ensures Mirror(t.(kpt := t.kpt[k := f]))
  {
  }

  lemma ZeroLeafKept(s: State, t: State, k: Slot)
    requires ZeroLeaf(s, k) && Quiet(s, t)
    ensures ZeroLeaf(t, k)
  {
  }

  lemma UnmappedBack(s: State, k: Slot)
    requires Inv(s) && ZeroLeaf(s, k) && s.pt[k].frame !in s.hand
    ensures Inv(Unmapped(s, k)) && SameContents(s, Unmapped(s, k))
  {
    hide Inv;
    UnmappedKeeps(s, k);
  }

  /** The kernel page tables hold no references of their own. */
  lemma KernelLeavesFree(s: State, kpt: map<Slot, nat>)
    requires Inv(s)
    ensures Inv(s.(kpt := kpt)) && SameContents(s, s.(kpt := kpt))
  {
  }

  lemma SameAgain(s: State, t: State, u: State)
    requires SameContents(s, t) && SameContents(t, u)
    ensures SameContents(s, u)
  {
    hide PageAt;
  }

  /** Giving back a reference changes no process's memory. */
  lemma ReleasedSame(s: State, f: nat)
    requires Inv(s) && f in s.ram && f in s.hand && f !in s.owed
    ensures f < |s.ref| && Inv(Released(s, f)) && SameContents(s, Released(s, f))
  {
    hide Refs, PageAt, Inv;
    FreeInRange(s);
    HeldFrame(s, f);
    ReleasedKeeps(s, f);
    if s.ref[f] == 1 {
      UnreferencedWrite(s.pt, s.mem, f, Fill(1));
    }
  }

  // ---------------------------------------------------------------- what a leaf lets its process fetch

  predicate SameFetch(a: Pte, b: Pte) {
    a.x == b.x && a.u == b.u
  }

  /** A page given back to p by a fault, or mapped for it as data; nothing else changes what can be fetched. */
  ghost predicate Touched(pt0: Leaves, pt: Leaves, p: nat) {
    && pt0.Keys <= pt.Keys
    && (forall k :: k in pt0 && k in pt ==> SameFetch(pt[k], pt0[k]))
    && (forall k :: k in pt && k !in pt0 ==> k.pid == p && pt[k].u && !pt[k].x)
  }

  ghost predicate Fewer(pt0: Leaves, pt: Leaves) {
    forall k :: k in pt ==> k in pt0 && pt[k] == pt0[k]
  }

  /**
   The law of every call: a page that stays mapped is fetched from as before, a page new to a child is
   fetched from as the parent's, and every other new page is the caller's own and data.
   */
  ghost predicate FetchBy(pt0: Leaves, op: Op, pt: Leaves) {
    && (forall k :: k in pt0 && k in pt ==> SameFetch(pt[k], pt0[k]))
    && (forall k :: k in pt && k !in pt0 ==>
          if op.Fork?
          then k.pid == op.child && Slot(op.p, k.vpn) in pt0 && SameFetch(pt[k], pt0[Slot(op.p, k.vpn)])
          else k.pid == op.p && pt[k].u && !pt[k].x)
  }

  lemma TouchedTwice(a: Leaves, b: Leaves, c: Leaves, p: nat)
    requires Touched(a, b, p) && Touched(b, c, p)
    ensures Touched(a, c, p)
  {
  }

  lemma TouchedSelf(pt: Leaves, p: nat)
    ensures Touched(pt, pt, p) && Fewer(pt, pt)
  {
  }

  lemma LeafTouched(pt: Leaves, k: Slot, e: Pte)
    requires if k in pt then SameFetch(e, pt[k]) else e.u && !e.x
    ensures Touched(pt, pt[k := e], k.pid)
  {
  }

  lemma TouchedLaw(a: Leaves, b: Leaves, c: Leaves, op: Op)
    requires Touched(a, b, op.p) && Fewer(b, c) && !op.Fork?
    ensures FetchBy(a, op, c)
  {
  }

  lemma FewerWithout(pt: Leaves, p: nat, lo: nat, hi: nat)
    ensures Fewer(pt, Without(pt, p, lo, hi))
  {
  }

  lemma ForkedLaw(s: State, pt: Leaves, p: nat, c: nat, n: nat)
    requires Inv(s) && c !in s.sz && LeavesForked(s.pt, pt, p, c, n)
    ensures FetchBy(s.pt, Op.Fork(p, c), pt)
  {
    hide LeafOk, PageCount;
    forall k | k in pt && k !in s.pt ensures Slot(p, k.vpn) in s.pt && SameFetch(pt[k], s.pt[Slot(p, k.vpn)]) {
      LeafUser(s, Slot(p, k.vpn));
    }
  }

  lemma SameForked(pt: Leaves, p: nat, c: nat)
    ensures FetchBy(pt, Op.Fork(p, c), pt)
  {
  }

  lemma UnforkedLaw(pt0: Leaves, pt: Leaves, p: nat, c: nat)
    requires FramesLeft(pt0, pt, c)
    ensures FetchBy(pt0, Op.Fork(p, c), pt)
  {
  }

  /** The leaf cow_alloc writes: the private copy, writable again. */
  function Owned(e: Pte, n: nat): Pte { e.(frame := n, w := true, cow := false) }

  /** State after kalloc and the copy of page pa into the new page. */
  ghost function CopyTaken(s: State, pa: nat): State
    requires s.free != [] && s.free[0] < |s.ref| && pa in s.mem
  {
    Taken(s).(mem := s.mem[s.free[0] := s.mem[pa]])
  }

  lemma CopyTakenKeeps(s: State, k: Slot)
    requires Settled(s) && k in s.pt && s.free != [] && s.free[0] < |s.ref| && s.pt[k].frame in s.mem
    ensures var t := CopyTaken(s, s.pt[k].frame);
      Inv(t) && SameContents(s, t) && t.hand == {s.free[0]} && Refs(t.pt, s.free[0]) == {}
    ensures s.free[0] != s.pt[k].frame && s.free[0] in s.ram && s.pt[k].frame in s.ram
  {
    hide PageAt, Count, Refs, TablesPrivate;
    TakenKeeps(s);
    RefMember(s.pt, k, s.pt[k].frame);
    assert LeafOk(s.ram, s.pt, k);
    UnreferencedWrite(s.pt, s.mem, s.free[0], s.mem[s.pt[k].frame]);
  }

  /** State after the leaf is switched to the copy and the old page is dropped. */
  ghost function CowSwitched(t: State, k: Slot, n: nat): State
    requires k in t.pt && t.pt[k].frame < |t.ref|
  {
    Dropped(Mapped(Unmapped(t, k), k, Owned(t.pt[k], n)), t.pt[k].frame)
  }

  /** The net effect of kalloc, copy, decref and the leaf update, written out. */
  ghost function CowResult(s: State, k: Slot): State
    requires k in s.pt && s.free != [] && s.free[0] < |s.ref| && s.pt[k].frame in s.mem && s.pt[k].frame < |s.ref|
  {
    var pa, n := s.pt[k].frame, s.free[0];
    s.(free := s.free[1..], ref := s.ref[n := 1][pa := if s.ref[pa] > 0 then s.ref[pa] - 1 else 0],
       mem := s.mem[n := s.mem[pa]], pt := s.pt[k := Owned(s.pt[k], n)],
       orphans := if s.ref[pa] <= 1 then s.orphans + {pa} else s.orphans)
  }

  lemma CowFields(s: State, k: Slot)
    requires k in s.pt && s.free != [] && s.free[0] < |s.ref| && s.pt[k].frame in s.mem && s.pt[k].frame < |s.ref|
    ensures var t := CowResult(s, k);
      && t.ram == s.ram && t.kpt == s.kpt && t.sz == s.sz && t.tables == s.tables
      && t.hand == s.hand && t.owed == s.owed
      && t.pt == s.pt[k := Owned(s.pt[k], s.free[0])] && t.free == s.free[1..]
      && t.orphans == if s.ref[s.pt[k].frame] <= 1 then s.orphans + {s.pt[k].frame} else s.orphans
  {
  }

  lemma CowShape(s: State, k: Slot)
    requires s.hand == {} && k in s.pt && s.free != [] && s.free[0] < |s.ref| && s.free[0] != s.pt[k].frame
    requires s.pt[k].frame in s.mem && s.pt[k].frame < |s.ref|
    ensures CowSwitched(CopyTaken(s, s.pt[k].frame), k, s.free[0]) == CowResult(s, k)
  {
    assert (s.pt - {k})[k := Owned(s.pt[k], s.free[0])] == s.pt[k := Owned(s.pt[k], s.free[0])];
  }

  lemma LeafInRam(s: State, k: Slot)
    requires Inv(s) && k in s.pt
    ensures s.pt[k].frame in s.ram && s.pt[k].frame < |s.ref| && s.pt[k].frame in s.mem
    ensures forall f :: f in s.free ==> f < |s.ref|
  {
    FreeInRange(s);
    assert LeafOk(s.ram, s.pt, k);
  }

  lemma CowSwitchedKeeps(t: State, k: Slot, n: nat)
    requires Inv(t) && t.hand == {n} && t.owed == {} && Refs(t.pt, n) == {} && n in t.ram
    requires k in t.pt && t.pt[k].frame in t.ram && t.pt[k].frame != n && t.pt[k].frame < |t.ref|
    ensures Inv(CowSwitched(t, k, n))
  {
    var u := Unmapped(t, k);
    var e := Owned(t.pt[k], n);
    assert LeafOk(t.ram, t.pt, k);
    UnmappedKeeps(t, k);
    UnmappedCounts(t, k);
    assert k.pid in t.sz && k.vpn < PageCount(t.sz[k.pid]);
    assert forall l :: l in u.pt && u.pt[l].frame == n ==> l in Refs(t.pt, n);
    hide Inv, Count, PageCount;
    MappedKeeps(u, k, e);
    DroppedKeeps(Mapped(u, k, e), t.pt[k].frame);
  }

  lemma CowSwitchedSame(t: State, k: Slot, n: nat)
    requires k in t.pt && t.pt[k].frame < |t.ref| && t.pt[k].frame in t.mem && n in t.mem
    requires t.mem[n] == t.mem[t.pt[k].frame]
    ensures SameContents(t, CowSwitched(t, k, n))
  {
  }

  lemma CowKeeps(s: State, k: Slot)
    requires Settled(s) && k in s.pt && s.free != [] && s.free[0] < |s.ref|
    requires s.pt[k].frame in s.mem && s.pt[k].frame < |s.ref|
    ensures Inv(CowResult(s, k)) && SameContents(s, CowResult(s, k))
    ensures s.free[0] != s.pt[k].frame && s.ref[s.pt[k].frame] > 0
  {
    hide Inv, SameContents, CowSwitched, CowResult, Dropped;
    var pa, n := s.pt[k].frame, s.free[0];
    CopyTakenKeeps(s, k);
    LeafReferenced(s, k);
    CowShape(s, k);
    var t := CopyTaken(s, pa);
    CowSwitchedKeeps(t, k, n);
    CowSwitchedSame(t, k, n);
    SameAgain(s, t, CowSwitched(t, k, n));
  }

  lemma LeafReferenced(s: State, k: Slot)
    requires Inv(s) && k in s.pt && s.owed == {} && s.pt[k].frame < |s.ref|
    ensures s.ref[s.pt[k].frame] > 0
  {
    assert LeafOk(s.ram, s.pt, k);
    assert k in Refs(s.pt, s.pt[k].frame);
  }

  lemma UnmappedSame(s: State, k: Slot)
    requires Inv(s) && k in s.pt && s.pt[k].frame !in s.hand && s.pt[k].frame !in s.owed
    ensures var f := s.pt[k].frame; f in s.ram && f < |s.ref| && Inv(Released(Unmapped(s, k), f))
    ensures var t := Released(Unmapped(s, k), s.pt[k].frame);
      forall p, v :: PageAt(t.pt, t.mem, p, v) == if Slot(p, v) == k then Fill(0) else PageAt(s.pt, s.mem, p, v)
  {
    assert LeafOk(s.ram, s.pt, k);
    UnmappedKeeps(s, k);
    var u := Unmapped(s, k);
    assert forall p, v :: PageAt(u.pt, u.mem, p, v) == if Slot(p, v) == k then Fill(0) else PageAt(s.pt, s.mem, p, v);
    ReleasedSame(u, s.pt[k].frame);
  }

  /** The entries of process p at pages lo up to hi taken out. */
  ghost function Without<T>(m: map<Slot, T>, p: nat, lo: nat, hi: nat): map<Slot, T> {
    map k | k in m && !(k.pid == p && lo <= k.vpn < hi) :: m[k]
  }

  /** Pages lo up to hi of process p read as zero, everything else is as before. */
  ghost predicate Cut(s: State, t: State, p: nat, lo: nat, hi: nat) {
    && t.sz == s.sz
    && forall q: nat, v: nat ::
      PageAt(t.pt, t.mem, q, v) == if q == p && lo <= v < hi then Fill(0) else PageAt(s.pt, s.mem, q, v)
  }

  lemma CutNothing(s: State, p: nat, lo: nat)
    ensures Cut(s, s, p, lo, lo) && Without(s.pt, p, lo, lo) == s.pt && Without(s.kpt, p, lo, lo) == s.kpt
  {
  }

  lemma CutOne(s: State, t: State, p: nat, lo: nat, v: nat)
    requires Cut(s, t, p, lo, v) && lo <= v && Slot(p, v) !in t.pt
    ensures Cut(s, t, p, lo, v + 1)
  {
    assert PageAt(t.pt, t.mem, p, v) == Fill(0);
    hide PageAt;
  }

  lemma CutMore(s: State, t: State, p: nat, lo: nat, v: nat)
    requires Cut(s, t, p, lo, v) && lo <= v && Slot(p, v) in t.pt && Inv(t)
    requires t.pt[Slot(p, v)].frame !in t.hand && t.pt[Slot(p, v)].frame !in t.owed
    ensures var k := Slot(p, v); var f := t.pt[k].frame;
      f in t.ram && f < |t.ref| && Inv(Released(Unmapped(t, k), f)) && Cut(s, Released(Unmapped(t, k), f), p, lo, v + 1)
  {
    hide PageAt, Inv;
    UnmappedSame(t, Slot(p, v));
  }

  lemma WithoutAt<T>(m: map<Slot, T>, p: nat, lo: nat, v: nat)
    ensures Slot(p, v) in Without(m, p, lo, v) ==> Slot(p, v) in m && Without(m, p, lo, v)[Slot(p, v)] == m[Slot(p, v)]
  {
  }

  lemma WithoutOne<T>(m: map<Slot, T>, p: nat, lo: nat, v: nat)
    requires lo <= v
    ensures Without(m, p, lo, v + 1) == Without(m, p, lo, v) - {Slot(p, v)}
  {
  }

  ghost function WithSize(s: State, p: nat, z: nat): State {
    s.(sz := s.sz[p := z])
  }

  lemma WithSizeKeeps(s: State, p: nat, z: nat)
    requires Inv(s) && z < MAXUVA && (forall k :: k in s.pt && k.pid == p ==> k.vpn < PageCount(z))
    ensures Inv(WithSize(s, p, z))
  {
    hide CountsAgree, IdleUnreferenced, LeavesOk, PageCount, Refs;
  }

  ghost function Gone(s: State, p: nat): State {
    s.(sz := s.sz - {p})
  }

  lemma GoneKeeps(s: State, p: nat)
    requires Inv(s) && (forall k :: k in s.pt ==> k.pid != p) && (forall f :: f in s.tables ==> s.tables[f] != Of(p))
    ensures Inv(Gone(s, p))
  {
    hide CountsAgree, IdleUnreferenced, LeavesOk, PageCount, Refs;
  }

  /** Freeing the nodes and leaves of a process takes it out and leaves the others alone. */
  lemma GoneAbs(s: State, t: State, p: nat)
    requires t.sz == s.sz && forall q: nat, v: nat :: q != p ==> PageAt(t.pt, t.mem, q, v) == PageAt(s.pt, s.mem, q, v)
    ensures Abs(Gone(t, p)) == Abs(s) - {p}
  {
    hide PageAt;
    forall q | q in s.sz && q != p ensures ProcOf(t, q) == ProcOf(s, q) {
      assert PagesOf(t.pt, t.mem, q, PageCount(t.sz[q])) == PagesOf(s.pt, s.mem, q, PageCount(s.sz[q]));
    }
  }

  /** sbrk: the pages kept are as before and the pages gained read as zero. */
  lemma ResizedAbs(s: State, t: State, p: nat, z: nat)
    requires t.sz == s.sz && p in s.sz
    requires forall q: nat, v: nat :: q != p || (v < PageCount(z) && v < PageCount(s.sz[p])) ==>
      PageAt(t.pt, t.mem, q, v) == PageAt(s.pt, s.mem, q, v)
    requires forall v: nat :: v >= PageCount(s.sz[p]) ==> PageAt(t.pt, t.mem, p, v) == Fill(0)
    ensures Abs(WithSize(t, p, z)) == Abs(s)[p := Resized(ProcOf(s, p), z)]
  {
    hide PageAt, PageCount, Fill;
    var u := WithSize(t, p, z);
    forall q | q in s.sz && q != p ensures ProcOf(u, q) == ProcOf(s, q) {
      assert PagesOf(u.pt, u.mem, q, PageCount(u.sz[q])) == PagesOf(s.pt, s.mem, q, PageCount(s.sz[q]));
    }
    assert PagesOf(u.pt, u.mem, p, PageCount(z)) == Resized(ProcOf(s, p), z).pages;
  }

  lemma UntabledSame(s: State, f: nat)
    requires Inv(s) && f in s.tables && s.owed == {}
    ensures f < |s.ref| && Inv(Released(Untabled(s, f), f)) && SameContents(s, Released(Untabled(s, f), f))
    ensures Released(Untabled(s, f), f).hand == s.hand
  {
    hide Inv, SameContents, Refs;
    UntabledKeeps(s, f);
    ReleasedSame(Untabled(s, f), f);
    TabledContents(s, f);
    SameAgain(s, Untabled(s, f), Released(Untabled(s, f), f));
  }

  lemma TabledContents(s: State, f: nat)
    ensures SameContents(s, Untabled(s, f))
  {
  }

  ghost function TablesWithout(tables: map<nat, Holder>, p: nat): map<nat, Holder> {
    map f | f in tables && tables[f] != Of(p) :: tables[f]
  }

  lemma RestLessOne(tables: map<nat, Holder>, f: nat, p: nat)
    requires f in tables && tables[f] == Of(p)
    ensures TablesWithout(tables - {f}, p) == TablesWithout(tables, p)
  {
  }

  lemma RestNone(tables: map<nat, Holder>, p: nat)
    requires forall f :: f in tables ==> tables[f] != Of(p)
    ensures TablesWithout(tables, p) == tables
  {
  }

  lemma RestAdded(tables: map<nat, Holder>, f: nat, p: nat)
    requires f !in tables
    ensures TablesWithout(tables[f := Of(p)], p) == TablesWithout(tables, p)
  {
  }

  lemma RestTwice(tables: map<nat, Holder>, p: nat)
    ensures TablesWithout(TablesWithout(tables, p), p) == TablesWithout(tables, p)
  {
  }

  lemma RestLost(tables: map<nat, Holder>, f: nat, p: nat)
    requires f !in tables
    ensures TablesWithout(tables[f := Nobody], p) == TablesWithout(tables, p)[f := Nobody]
  {
  }

  /** A process that does not exist has no page. */
  lemma RestAll(s: State, p: nat)
    requires Inv(s) && p !in s.sz
    ensures TablesWithout(s.tables, p) == s.tables
  {
  }

  lemma RestSameLost(before: map<nat, Holder>, after: map<nat, Holder>, p: nat)
    requires TablesWithout(after, p) == TablesWithout(before, p)
    ensures LostPages(after) == LostPages(before)
  {
    forall f ensures f in LostPages(after) <==> f in LostPages(before) {
      assert f in LostPages(after) <==> f in TablesWithout(after, p) && TablesWithout(after, p)[f] == Nobody;
      assert f in LostPages(before) <==> f in TablesWithout(before, p) && TablesWithout(before, p)[f] == Nobody;
    }
  }

  lemma OneMoreLost(tables: map<nat, Holder>, f: nat)
    requires f !in tables
    ensures LostPages(tables[f := Nobody]) == LostPages(tables) + {f} && f !in LostPages(tables)
  {
  }

  lemma LostOneMore(before: map<nat, Holder>, after: map<nat, Holder>, lost: bool)
    requires lost ==> exists f: nat :: f !in before && after == before[f := Nobody]
    requires !lost ==> after == before
    ensures LostPages(before) <= LostPages(after) && |LostPages(after)| == |LostPages(before)| + One(lost)
  {
    if lost {
      var f: nat :| f !in before && after == before[f := Nobody];
      OneMoreLost(before, f);
    }
  }

  lemma HeadUntabled(s: State)
    requires Inv(s) && s.free != []
    ensures s.free[0] !in s.tables && s.free[0] in s.ram && s.free[0] !in s.hand && Refs(s.pt, s.free[0]) == {}
  {
    assert s.free[0] in s.free;
    ZeroCount(s.pt, s.hand, s.tables, s.free[0]);
  }

  lemma TakenSame(s: State)
    requires Inv(s) && s.free != [] && s.free[0] < |s.ref|
    ensures Inv(Taken(s)) && SameContents(s, Taken(s))
  {
    hide Refs, PageAt, Count, LeavesOk, TablesPrivate;
    TakenKeeps(s);
    UnreferencedWrite(s.pt, s.mem, s.free[0], Fill(5));
  }

  lemma StowedSame(s: State, f: nat, h: Holder)
    requires Inv(s) && f in s.hand && f in s.ram && Refs(s.pt, f) == {} && (h.Of? ==> h.pid in s.sz)
    ensures Inv(Stowed(s, f, h)) && SameContents(s, Stowed(s, f, h)) && f !in s.tables
  {
    hide Inv, Refs;
    StowedKeeps(s, f, h);
  }

  lemma StowedIs(s: State, f: nat, h: Holder)
    ensures Stowed(s, f, h) == s.(tables := s.tables[f := h], hand := s.hand - {f})
  {
  }

  lemma RestLacks(tables: map<nat, Holder>, f: nat, p: nat)
    requires f !in tables
    ensures f !in TablesWithout(tables, p)
  {
  }

  /** A page lost is a page less. */
  lemma SupplyFollows(s: State, t: State, lost: Option<nat>)
    requires Inv(s) && Inv(t) && s.hand == {} == t.hand && t.ram == s.ram && t.orphans == s.orphans
    requires MappedFrames(t.pt) == MappedFrames(s.pt)
    requires lost.Some? ==> lost.value !in s.tables
    requires t.tables == if lost.Some? then s.tables[lost.value := Nobody] else s.tables
    ensures |t.free| == |s.free| - One(lost.Some?)
  {
    hide Inv;
    FreeFollows(s, t);
    if lost.Some? {
      assert t.tables.Keys == s.tables.Keys + {lost.value};
    }
  }

  lemma WithoutNone<T>(m: map<Slot, T>, p: nat, lo: nat, hi: nat)
    requires forall k :: k in m ==> k.pid != p
    ensures Without(m, p, lo, hi) == m
  {
  }

  /** After p's leaves and nodes are gone, no entry names p and nobody else's page changed. */
  lemma AllCut(s: State, t: State, u: State, p: nat)
    requires Settled(s) && p in s.sz && Inv(t) && t.sz == s.sz && t.pt == Without(s.pt, p, 0, PageCount(s.sz[p]))
    requires Cut(s.(kpt := t.kpt), t, p, 0, PageCount(s.sz[p])) && t.kpt == Without(s.kpt, p, 0, PageCount(s.sz[p]))
    requires u.pt == t.pt && u.kpt == t.kpt && SameContents(t, u) && u.tables == TablesWithout(t.tables, p)
    ensures Mirror(u) && (forall k :: k in u.pt ==> k.pid != p) && (forall f :: f in u.tables ==> u.tables[f] != Of(p))
    ensures u.sz == s.sz && forall q: nat, v: nat :: q != p ==> PageAt(u.pt, u.mem, q, v) == PageAt(s.pt, s.mem, q, v)
  {
    hide CountsAgree, IdleUnreferenced, TablesPrivate, LeavesOk, PageCount, PageAt;
  }

  lemma BeyondSize(s: State, p: nat)
    requires Inv(s) && p in s.sz
    ensures forall k :: k in s.pt && k.pid == p ==> k.vpn < PageCount(s.sz[p])
    ensures forall v: nat :: v >= PageCount(s.sz[p]) ==> PageAt(s.pt, s.mem, p, v) == Fill(0)
  {
    hide CountsAgree, IdleUnreferenced, TablesPrivate, LeavesOk, PageCount;
  }

  lemma PageCountMonotone(y: nat, z: nat)
    requires y <= z
    ensures PageCount(y) <= PageCount(z)
  {
  }

  /** uvmdealloc followed by the size update. */
  lemma ShrunkKeeps(s: State, t: State, p: nat, z: nat)
    requires Settled(s) && p in s.sz && z <= s.sz[p] && Inv(t) && t.owed == {} && t.hand == {}
    requires t.pt == Without(s.pt, p, PageCount(z), PageCount(s.sz[p]))
    requires t.kpt == Without(s.kpt, p, PageCount(z), PageCount(s.sz[p]))
    requires Cut(s.(kpt := t.kpt), t, p, PageCount(z), PageCount(s.sz[p]))
    ensures Settled(WithSize(t, p, z)) && Abs(WithSize(t, p, z)) == Abs(s)[p := Resized(ProcOf(s, p), z)]
  {
    hide Inv, PageAt, PageCount, Abs, Resized, ProcOf;
    PageCountMonotone(z, s.sz[p]);
    BeyondSize(s, p);
    SizeBound(s, p);
    WithSizeKeeps(t, p, z);
    ResizedAbs(s, t, p, z);
  }

  lemma GrownKeeps(s: State, p: nat, z: nat)
    requires Settled(s) && p in s.sz && s.sz[p] <= z < MAXUVA
    ensures Settled(WithSize(s, p, z)) && Abs(WithSize(s, p, z)) == Abs(s)[p := Resized(ProcOf(s, p), z)]
  {
    hide Inv, PageAt, PageCount, Abs, Resized, ProcOf;
    PageCountMonotone(s.sz[p], z);
    BeyondSize(s, p);
    WithSizeKeeps(s, p, z);
    ResizedAbs(s, s, p, z);
  }

  // ---------------------------------------------------------------- fork

  lemma ProtectedSame(s: State, k: Slot)
    requires Settled(s) && k in s.pt
    ensures Settled(Protected(s, k)) && SameContents(s, Protected(s, k))
  {
    hide Inv, Refs;
    ProtectedKeeps(s, k);
  }

  lemma ShieldedSame(s: State, k: Slot)
    requires Settled(s) && k in s.pt
    ensures var t := s.(pt := s.pt[k := Shielded(s.pt[k])]); Settled(t) && SameContents(s, t)
  {
    hide Inv, Refs;
    if s.pt[k].w {
      ProtectedSame(s, k);
    } else {
      assert s.pt[k := s.pt[k]] == s.pt;
    }
  }

  lemma PeersReadOnly(s: State, k: Slot)
    requires Inv(s) && k in s.pt && !s.pt[k].w
    ensures forall l :: l in s.pt && s.pt[l].frame == s.pt[k].frame ==> !s.pt[l].w && l.vpn == k.vpn
    ensures Refs(s.pt, s.pt[k].frame) != {} && s.pt[k].frame in s.ram && s.pt[k].cow && s.pt[k].u
  {
    assert LeafOk(s.ram, s.pt, k);
    assert k in Refs(s.pt, s.pt[k].frame);
    forall l | l in s.pt && s.pt[l].frame == s.pt[k].frame ensures !s.pt[l].w {
      assert LeafOk(s.ram, s.pt, l);
    }
  }

  lemma LeafUser(s: State, k: Slot)
    requires Inv(s) && k in s.pt
    ensures s.pt[k].u
  {
    assert LeafOk(s.ram, s.pt, k);
  }

  lemma LeafGuarded(s: State, k: Slot)
    requires Inv(s) && k in s.pt
    ensures s.pt[k].w != s.pt[k].cow
  {
    assert LeafOk(s.ram, s.pt, k);
  }

  /** Pages of child c below v are those of p; everything else is as in s. */
  ghost predicate HalfForked(s: State, t: State, p: nat, c: nat, v: nat) {
    && t.sz == s.sz
    && (forall q: nat, w: nat ::
          PageAt(t.pt, t.mem, q, w) == if q == c && w < v then PageAt(s.pt, s.mem, p, w) else PageAt(s.pt, s.mem, q, w))
    && (forall w: nat :: w >= v ==> Slot(c, w) !in t.pt)
  }

  /** What uvmcopy makes of a leaf of the parent, and what it gives the child. */
  function Shielded(e: Pte): Pte {
    if e.w then Guarded(e) else e
  }

  function ChildLeaf(e: Pte): Pte {
    Shielded(e).(u := true)
  }

  /** The leaves after uvmcopy has done the pages of p below n: exactly those of p shielded, and shared with c. */
  ghost predicate LeavesForked(pt0: Leaves, pt: Leaves, p: nat, c: nat, n: nat) {
    && (forall k: Slot :: k in pt <==> k in pt0 || (k.pid == c && k.vpn < n && Slot(p, k.vpn) in pt0))
    && (forall k :: k in pt && k.pid == c && k.vpn < n && Slot(p, k.vpn) in pt0 ==>
          pt[k] == ChildLeaf(pt0[Slot(p, k.vpn)]))
    && (forall k :: k in pt && k.pid == p ==> pt[k] == if k.vpn < n then Shielded(pt0[k]) else pt0[k])
    && (forall k :: k in pt && k.pid != p && k.pid != c ==> pt[k] == pt0[k])
  }

  lemma LeavesStart(pt: Leaves, p: nat, c: nat)
    requires p != c
    ensures LeavesForked(pt, pt, p, c, 0)
  {
  }

  lemma LeavesHole(pt0: Leaves, pt: Leaves, p: nat, c: nat, v: nat)
    requires LeavesForked(pt0, pt, p, c, v) && p != c && Slot(p, v) !in pt
    ensures LeavesForked(pt0, pt, p, c, v + 1)
  {
    assert Slot(p, v) !in pt0;
  }

  lemma LeavesShared(pt0: Leaves, pt: Leaves, p: nat, c: nat, v: nat)
    requires LeavesForked(pt0, pt, p, c, v) && p != c && Slot(p, v) in pt && Slot(c, v) !in pt
    ensures LeavesForked(pt0, WithChild(pt, p, c, v), p, c, v + 1)
  {
    assert Slot(p, v) in pt0 && pt[Slot(p, v)] == pt0[Slot(p, v)];
  }

  /** Page v of p shielded and shared with c. */
  ghost function WithChild(pt: Leaves, p: nat, c: nat, v: nat): Leaves
    requires Slot(p, v) in pt
  {
    pt[Slot(p, v) := Shielded(pt[Slot(p, v)])][Slot(c, v) := ChildLeaf(pt[Slot(p, v)])]
  }

  lemma LeavesAt(pt0: Leaves, pt: Leaves, p: nat, c: nat, v: nat)
    requires LeavesForked(pt0, pt, p, c, v) && p != c
    ensures Slot(p, v) in pt <==> Slot(p, v) in pt0
    ensures Slot(p, v) in pt ==> pt[Slot(p, v)] == pt0[Slot(p, v)]
  {
  }

  lemma NotYetShared(s: State, t: State, p: nat, c: nat, v: nat)
    requires HalfForked(s, t, p, c, v)
    ensures Slot(c, v) !in t.pt
  {
  }

  lemma HalfForkedKept(s: State, t: State, u: State, p: nat, c: nat, v: nat)
    requires HalfForked(s, t, p, c, v) && SameContents(t, u) && u.pt.Keys == t.pt.Keys
    ensures HalfForked(s, u, p, c, v)
  {
    hide PageAt;
  }

  /** A lazy hole in the parent is a lazy hole in the child. */
  lemma HoleForked(s: State, t: State, p: nat, c: nat, v: nat)
    requires HalfForked(s, t, p, c, v) && p != c && Slot(p, v) !in t.pt
    ensures HalfForked(s, t, p, c, v + 1)
  {
    assert PageAt(t.pt, t.mem, p, v) == PageAt(s.pt, s.mem, p, v) == Fill(0);
    assert PageAt(t.pt, t.mem, c, v) == Fill(0);
    hide PageAt;
  }

  lemma SharedForked(s: State, t: State, p: nat, c: nat, v: nat, e: Pte)
    requires HalfForked(s, t, p, c, v) && p != c && Slot(p, v) in t.pt && e.frame == t.pt[Slot(p, v)].frame
    requires e.frame in t.mem
    ensures HalfForked(s, Shared(t, Slot(c, v), e), p, c, v + 1)
  {
    var u := Shared(t, Slot(c, v), e);
    assert PageAt(u.pt, u.mem, c, v) == PageAt(t.pt, t.mem, p, v);
    assert forall q: nat, w: nat :: Slot(q, w) != Slot(c, v) ==> PageAt(u.pt, u.mem, q, w) == PageAt(t.pt, t.mem, q, w);
    hide PageAt;
    assert forall w: nat :: w >= v + 1 ==> Slot(c, w) !in u.pt;
    assert PageAt(t.pt, t.mem, p, v) == PageAt(s.pt, s.mem, p, v);
    forall q: nat, w: nat ensures PageAt(u.pt, u.mem, q, w) ==
      if q == c && w < v + 1 then PageAt(s.pt, s.mem, p, w) else PageAt(s.pt, s.mem, q, w)
    {
      if Slot(q, w) != Slot(c, v) {
        assert PageAt(u.pt, u.mem, q, w) == PageAt(t.pt, t.mem, q, w);
      }
    }
  }

  lemma CountedSame(s: State, f: nat)
    requires Inv(s) && f in s.owed && f in s.ram
    ensures f < |s.ref| && Inv(Counted(s, f)) && SameContents(s, Counted(s, f))
  {
    FreeInRange(s);
    CountedKeeps(s, f);
    hide Inv;
  }

  /** The count of a page is one short of its mappings: a later kfree frees it under a live mapping. */
  ghost predicate UnderCounted(s: State, f: nat) {
    f in s.ram && f < |s.ref| && s.ref[f] + 1 == |Refs(s.pt, f)| && (s.ref[f] == 0 ==> f in s.free)
  }

  lemma UnderCountedBroken(s: State, f: nat)
    requires UnderCounted(s, f) && s.owed == {}
    ensures !Inv(s)
  {
  }

  /** Undoing a mapping whose incref never happened takes away somebody else's reference. */
  lemma UncountedRelease(s: State, k: Slot, l: Slot)
    requires Inv(s) && s.hand == {} && k in s.pt && l in s.pt && k != l && s.pt[k].frame == s.pt[l].frame
    requires s.pt[k].frame in s.owed
    ensures s.pt[k].frame < |s.ref| && UnderCounted(Released(Unmapped(s, k), s.pt[k].frame), s.pt[k].frame)
  {
    var f := s.pt[k].frame;
    assert LeafOk(s.ram, s.pt, k);
    RefsOfRemoval(s.pt, k, f);
    assert l in Refs(s.pt, f) - {k};
    assert |Refs(s.pt - {k}, f)| >= 1;
    assert f !in s.tables;
    hide Inv, Refs;
  }

  /** What undoing an uncounted mapping does to memories: a page freed under a mapping shows kfree's filling. */
  lemma UncountedSeen(s: State, k: Slot)
    requires Inv(s) && k in s.pt && s.pt[k].frame < |s.ref|
    ensures var f := s.pt[k].frame; var t := Released(Unmapped(s, k), f);
      forall q: nat, w: nat :: PageAt(t.pt, t.mem, q, w) ==
        if Slot(q, w) == k then Fill(0)
        else if Slot(q, w) in s.pt && s.pt[Slot(q, w)].frame == f && t.ref[f] == 0 then Fill(1)
        else PageAt(s.pt, s.mem, q, w)
  {
    hide Inv, Fill;
    LeafInRam(s, k);
    var f := s.pt[k].frame;
    var t := Released(Unmapped(s, k), f);
    assert t.pt == s.pt - {k};
    assert t.mem == if t.ref[f] == 0 then s.mem[f := Fill(1)] else s.mem;
  }

  /** If the page keeps a count, everything else is in order and exactly that one count stays owed. */
  lemma UncountedRest(s: State, k: Slot, l: Slot)
    requires Inv(s) && s.hand == {} && k in s.pt && l in s.pt && k != l && s.pt[k].frame == s.pt[l].frame
    requires s.pt[k].frame in s.owed
    ensures var f := s.pt[k].frame; f < |s.ref| && (Released(Unmapped(s, k), f).ref[f] > 0 ==>
      Inv(Released(Unmapped(s, k), f)))
  {
    hide Count, Refs, PageCount, LeavesOk, WithinSize;
    var f := s.pt[k].frame;
    LeafInRam(s, k);
    UnmappedKeeps(s, k);
    var u := Unmapped(s, k);
    HandCountsDown(u.pt, u.hand, u.tables, f);
    StillReferenced(s.pt, k, l);
    ZeroCount(u.pt, u.hand - {f}, u.tables, f);
  }

  lemma StillReferenced(pt: Leaves, k: Slot, l: Slot)
    requires k in pt && l in pt && k != l
    ensures Refs(pt - {k}, pt[l].frame) != {}
  {
    assert l in Refs(pt - {k}, pt[l].frame);
  }

  /** What a mapping undone without its incref shows: the page is read as freed once its count is gone. */
  ghost predicate SpoiledView(s: State, t: State, c: nat, f: nat) {
    && f < |t.ref|
    && forall q: nat, w: nat :: q != c ==> PageAt(t.pt, t.mem, q, w) == SpoiledPage(s, t.ref[f] == 0, f, q, w)
  }

  ghost function SpoiledPage(s: State, freed: bool, f: nat, q: nat, w: nat): Page {
    if freed && Slot(q, w) in s.pt && s.pt[Slot(q, w)].frame == f then Fill(1) else PageAt(s.pt, s.mem, q, w)
  }

  /**
   What the failed copy to c leaves behind: page f has one count too few.  If that count is zero the
   page is free under its mappings and reads as kfree filled it; otherwise every memory is as before
   and that one missing count is the whole damage.
   */
  ghost predicate Spoiled(s: State, t: State, c: nat, f: nat) {
    && UnderCounted(t, f) && t.owed == {} && SpoiledView(s, t, c, f) && (t.ref[f] > 0 ==> Inv(t.(owed := {f})))
    && FramesLeft(s.pt, t.pt, c)
  }

  /** The leaves of c are gone and the others map the frames they did. */
  ghost predicate FramesLeft(pt0: Leaves, pt: Leaves, c: nat) {
    && (forall k: Slot :: k in pt <==> k in pt0 && k.pid != c)
    && (forall k :: k in pt ==> pt[k].frame == pt0[k].frame && SameFetch(pt[k], pt0[k]))
  }

  /** From the start of the copy through undoing the earlier pages to undoing page v itself. */
  lemma SpoiledSince(s0: State, s: State, t: State, p: nat, c: nat, v: nat)
    requires HalfForked(s0, s, p, c, v + 1) && LeavesForked(s0.pt, s.pt, p, c, v + 1) && p != c
    requires forall k :: k in s0.pt ==> k.pid != c
    requires Cut(s, t, c, 0, v) && t.pt == Without(s.pt, c, 0, v)
    requires Slot(c, v) in t.pt && t.pt[Slot(c, v)].frame < |t.ref| && Inv(t)
    ensures var f := t.pt[Slot(c, v)].frame; SpoiledView(s0, Released(Unmapped(t, Slot(c, v)), f), c, f)
  {
    hide PageAt, Inv, LeavesForked, Fill;
    var f := t.pt[Slot(c, v)].frame;
    var u := Released(Unmapped(t, Slot(c, v)), f);
    UncountedSeen(t, Slot(c, v));
    FramesKept(s0.pt, s.pt, p, c, v + 1);
    forall q: nat, w: nat | q != c ensures PageAt(u.pt, u.mem, q, w) == SpoiledPage(s0, u.ref[f] == 0, f, q, w) {
      assert PageAt(t.pt, t.mem, q, w) == PageAt(s.pt, s.mem, q, w) == PageAt(s0.pt, s0.mem, q, w);
      var k := Slot(q, w);
      assert k in t.pt <==> k in s.pt;
      assert k in s.pt <==> k in s0.pt;
    }
  }

  /** The leaves of all but c map the frames they did. */
  ghost predicate OtherFrames(pt0: Leaves, pt: Leaves, c: nat) {
    && (forall k: Slot :: k.pid != c ==> (k in pt <==> k in pt0))
    && (forall k: Slot :: k.pid != c && k in pt ==> pt[k].frame == pt0[k].frame && SameFetch(pt[k], pt0[k]))
  }

  lemma FramesKept(pt0: Leaves, pt: Leaves, p: nat, c: nat, n: nat)
    requires LeavesForked(pt0, pt, p, c, n)
    ensures OtherFrames(pt0, pt, c)
  {
  }

  lemma FramesShielded(pt0: Leaves, pt: Leaves, c: nat, k: Slot)
    requires OtherFrames(pt0, pt, c) && k in pt
    ensures OtherFrames(pt0, pt[k := Shielded(pt[k])], c)
  {
  }

  lemma FramesCut(pt0: Leaves, pt: Leaves, c: nat, n: nat)
    requires OtherFrames(pt0, pt, c) && (forall k :: k in pt && k.pid == c ==> k.vpn < n)
    requires forall k :: k in pt0 ==> k.pid != c
    ensures FramesLeft(pt0, Without(pt, c, 0, n), c)
  {
  }

  lemma FramesSame(pt0: Leaves, pt: Leaves, c: nat)
    requires FramesLeft(pt0, pt, c) && forall k :: k in pt0 ==> k.pid != c
    ensures MappedFrames(pt) == MappedFrames(pt0)
  {
    assert pt.Keys == pt0.Keys;
    forall f ensures f in MappedFrames(pt) <==> f in MappedFrames(pt0) {
      if f in MappedFrames(pt) {
        var k :| k in pt && pt[k].frame == f;
        assert pt0[k].frame == f;
      }
      if f in MappedFrames(pt0) {
        var k :| k in pt0 && pt0[k].frame == f;
        assert pt[k].frame == f;
      }
    }
  }

  lemma FramesLeftOthers(pt0: Leaves, pt: Leaves, c: nat)
    requires FramesLeft(pt0, pt, c)
    ensures forall k :: k in pt ==> k.pid != c
  {
  }

  lemma LeavesGone(s0: State, s: State, p: nat, c: nat, v: nat)
    requires HalfForked(s0, s, p, c, v + 1) && LeavesForked(s0.pt, s.pt, p, c, v + 1)
    requires forall k :: k in s0.pt ==> k.pid != c
    ensures FramesLeft(s0.pt, Without(s.pt, c, 0, v) - {Slot(c, v)}, c)
  {
    hide PageAt;
    FramesKept(s0.pt, s.pt, p, c, v + 1);
    hide LeavesForked, FramesLeft, OtherFrames, Without;
    FramesWithout(s0.pt, s.pt, c, v);
  }

  lemma FramesWithout(pt0: Leaves, pt: Leaves, c: nat, v: nat)
    requires OtherFrames(pt0, pt, c) && (forall k :: k in pt0 ==> k.pid != c)
    requires forall w: nat :: w >= v + 1 ==> Slot(c, w) !in pt
    ensures FramesLeft(pt0, Without(pt, c, 0, v) - {Slot(c, v)}, c)
  {
    forall k: Slot | k in pt && k.pid == c ensures k.vpn <= v {
      assert k == Slot(c, k.vpn);
    }
  }

  lemma SpoiledNow(s0: State, u: State, t: State, c: nat, f: nat)
    requires SpoiledView(s0, u, c, f) && UnderCounted(u, f) && t == u.(owed := {}, kpt := t.kpt)
    requires FramesLeft(s0.pt, u.pt, c)
    requires u.owed == {f} && (u.ref[f] > 0 ==> Inv(u))
    ensures Spoiled(s0, t, c, f)
  {
    if u.ref[f] > 0 {
      KernelLeavesFree(u, t.kpt);
      assert t.(owed := {f}) == u.(kpt := t.kpt);
    }
  }

  lemma SpoiledBroken(t: State, s: State, c: nat, f: nat)
    requires Spoiled(s, t, c, f)
    ensures !Inv(t)
  {
    UnderCountedBroken(t, f);
  }

  lemma SpoiledBefore(s: State, u: State, t: State, c: nat, f: nat)
    requires Spoiled(u, t, c, f) && u.pt == s.pt
    requires forall q: nat, v: nat :: PageAt(u.pt, u.mem, q, v) == PageAt(s.pt, s.mem, q, v)
    ensures Spoiled(s, t, c, f)
  {
    hide PageAt, Inv, UnderCounted;
  }

  lemma NoLeaves(s: State)
    requires Inv(s) && s.sz == map[]
    ensures s.pt == map[]
  {
    assert forall k :: k in s.pt ==> k.pid in s.sz;
  }

  lemma PagesInAll(s: State, p: nat)
    requires p in s.sz
    ensures |Abs(s)[p].pages| == PageCount(s.sz[p])
  {
  }

  lemma SizeBound(s: State, p: nat)
    requires Inv(s) && p in s.sz
    ensures s.sz[p] < MAXUVA && Abs(s)[p] == ProcOf(s, p)
  {
    hide CountsAgree, IdleUnreferenced, TablesPrivate, LeavesOk;
  }

  lemma ForkStart(s: State, p: nat, c: nat)
    requires Inv(s) && p in s.sz && c in s.sz && (forall k :: k in s.pt ==> k.pid != c)
    ensures HalfForked(s, s, p, c, 0)
  {
    hide Inv, PageAt;
  }

  /** A process entered with the parent's size and no page yet. */
  lemma EnteredKeeps(s: State, c: nat, z: nat)
    requires Settled(s) && c !in s.sz && z < MAXUVA
    ensures Settled(WithSize(s, c, z)) && (forall k :: k in s.pt ==> k.pid != c)
  {
    hide CountsAgree, IdleUnreferenced, TablesPrivate, LeavesOk, PageCount;
    WithSizeKeeps(s, c, z);
  }

  /** A child whose allocation or copy failed leaves every memory as it was. */
  lemma ForkFailedAbs(s: State, t: State, c: nat)
    requires c !in s.sz && t.sz.Keys == s.sz.Keys + {c} && (forall q :: q in s.sz ==> t.sz[q] == s.sz[q])
    requires forall q: nat, v: nat :: q != c ==> PageAt(t.pt, t.mem, q, v) == PageAt(s.pt, s.mem, q, v)
    ensures Abs(t) - {c} == Abs(s)
  {
    hide PageAt;
    forall q | q in s.sz ensures ProcOf(t, q) == ProcOf(s, q) {
      assert PagesOf(t.pt, t.mem, q, PageCount(t.sz[q])) == PagesOf(s.pt, s.mem, q, PageCount(s.sz[q]));
    }
  }

  /** After a complete copy the child's memory is the parent's and nobody else's changed. */
  lemma ForkedAbs(s: State, u: State, t: State, p: nat, c: nat)
    requires p in s.sz && c !in s.sz && u.sz == s.sz[c := s.sz[p]]
    requires forall q: nat, v: nat :: PageAt(u.pt, u.mem, q, v) == PageAt(s.pt, s.mem, q, v)
    requires HalfForked(u, t, p, c, PageCount(s.sz[p])) && p != c
    ensures Abs(t) == Abs(s)[c := Abs(s)[p]]
  {
    hide PageAt, PageCount;
    forall q | q in s.sz ensures ProcOf(t, q) == ProcOf(s, q) {
      assert PagesOf(t.pt, t.mem, q, PageCount(t.sz[q])) == PagesOf(s.pt, s.mem, q, PageCount(s.sz[q]));
    }
    assert PagesOf(t.pt, t.mem, c, PageCount(t.sz[c])) == PagesOf(s.pt, s.mem, p, PageCount(s.sz[p]));
  }

  /** Mapping the parent's read-only page v into the child, before it is counted. */
  lemma ShareStep(s0: State, t: State, p: nat, c: nat, v: nat)
    requires Settled(t) && HalfForked(s0, t, p, c, v) && p != c && Slot(p, v) in t.pt && !t.pt[Slot(p, v)].w
    requires c in t.sz && v < PageCount(t.sz[c])
    ensures var e := t.pt[Slot(p, v)].(u := true); var u := Shared(t, Slot(c, v), e);
      Inv(u) && HalfForked(s0, u, p, c, v + 1) && e.frame in t.ram && Slot(c, v) !in t.pt
  {
    hide Inv, Refs, PageCount;
    var e := t.pt[Slot(p, v)].(u := true);
    LeafInRam(t, Slot(p, v));
    PeersReadOnly(t, Slot(p, v));
    SharedKeeps(t, Slot(c, v), e);
    SharedForked(s0, t, p, c, v, e);
  }

  /** Pages at different page numbers are different, so undoing the earlier ones leaves page v alone. */
  lemma OwedAtOnePage(s: State, c: nat, v: nat)
    requires Inv(s) && Slot(c, v) in s.pt && s.owed == {s.pt[Slot(c, v)].frame}
    ensures forall w: nat :: w < v && Slot(c, w) in s.pt ==> s.pt[Slot(c, w)].frame !in s.owed
  {
    hide CountsAgree, IdleUnreferenced, TablesPrivate, WithinSize, LeafOk;
  }

  lemma WithoutElsewhere<T>(m: map<Slot, T>, c: nat, v: nat, k: Slot)
    requires k in m && (k.pid != c || k.vpn >= v)
    ensures k in Without(m, c, 0, v) && Without(m, c, 0, v)[k] == m[k]
  {
  }

  /** Undoing a copy that failed on the child's user table restores every memory and the mirror. */
  lemma CopyUndone(s0: State, s: State, t: State, p: nat, c: nat, v: nat, n: nat)
    requires HalfForked(s0, s, p, c, v) && v <= n && Mirror(s) && (forall k :: k in s0.pt ==> k.pid != c)
    requires t.pt == Without(s.pt, c, 0, n) && t.kpt == Without(s.kpt, c, 0, n) && Cut(s, t, c, 0, n)
    requires forall k :: k in s.pt && k.pid == c ==> k.vpn < n
    ensures Mirror(t) && SameContents(s0, t) && (forall k :: k in t.pt ==> k.pid != c)
  {
    assert forall w: nat :: PageAt(s0.pt, s0.mem, c, w) == Fill(0);
    assert forall w: nat :: w >= v ==> PageAt(s.pt, s.mem, c, w) == Fill(0);
    hide PageAt;
  }

  lemma CutIgnoresKernel(s: State, t: State, kpt: map<Slot, nat>, p: nat, n: nat)
    requires Cut(s, t, p, 0, n)
    ensures Cut(s, t.(kpt := kpt), p, 0, n)
  {
  }

  // ---------------------------------------------------------------- user accesses

  /** The hardware lets the access through without a fault. */
  predicate Permits(pt: Leaves, k: Slot, store: bool) {
    k in pt && pt[k].u && (store ==> pt[k].w)
  }

  datatype FaultAction = Cow | Kill | Lazy | PanicRemap

  /**
   Which branch of the page-fault arm runs; a lazy allocation over a mapped page takes a page and then
   panics in mappages.
   */
  function FaultFor(pt: Leaves, k: Slot, store: bool, sz: nat, free: nat): FaultAction {
    if store && k in pt && pt[k].cow then Cow
    else if k.vpn * PGSIZE >= sz || k.vpn * PGSIZE >= MAXUVA then Kill
    else if k in pt then if free == 0 then Kill else PanicRemap
    else Lazy
  }

  /** A fault in a consistent state never reaches panic("remap"), and kills only beyond the size. */
  lemma FaultNeverPanics(s: State, k: Slot, store: bool)
    requires Inv(s) && k.pid in s.sz && !Permits(s.pt, k, store)
    ensures var a := FaultFor(s.pt, k, store, s.sz[k.pid], |s.free|);
      && a != PanicRemap
      && (a == Kill <==> k.vpn >= PageCount(s.sz[k.pid]))
      && (a == Cow <==> k in s.pt)
  {
    if k in s.pt {
      assert LeafOk(s.ram, s.pt, k);
    }
    assert s.sz[k.pid] < MAXUVA;
    assert k.vpn * PGSIZE >= s.sz[k.pid] <==> k.vpn >= PageCount(s.sz[k.pid]);
  }

  /**
   What one turn of uvmcopy makes of user access, whatever leaf the parent has: the child may load from a
   page its parent may not exactly when the parent's leaf lacks the user bit, as that of the guard page
   below a stack does.  The parent's own load then panics the kernel, or kills it when no page is free.
   */
  lemma GuardPageOpened(pt: Leaves, p: nat, c: nat, v: nat, sz: nat, free: nat)
    requires Slot(p, v) in pt && p != c && v * PGSIZE < sz <= MAXUVA
    ensures var t := WithChild(pt, p, c, v);
      && (Permits(t, Slot(c, v), false) && !Permits(t, Slot(p, v), false) <==> !pt[Slot(p, v)].u)
      && (!pt[Slot(p, v)].u ==>
            FaultFor(t, Slot(p, v), false, sz, free) == if free == 0 then Kill else PanicRemap)
  {
  }

  /** A byte seen through the page table is the byte of the private memory. */
  lemma SeenByte(s: State, p: nat, va: nat)
    requires Inv(s) && p in s.sz && Slot(p, va / PGSIZE) in s.pt
    ensures var f := s.pt[Slot(p, va / PGSIZE)].frame;
      f in s.mem && InRange(Abs(s)[p], va) && s.mem[f][va % PGSIZE] == ByteAt(Abs(s)[p].pages, va)
  {
    LeafInRam(s, Slot(p, va / PGSIZE));
    BeyondSize(s, p);
    hide Inv;
  }

  /** Writing through a writable leaf changes the private memory of its process and no other. */
  lemma WrittenPage(s: State, k: Slot, page: Page)
    requires Settled(s) && k in s.pt && s.pt[k].w
    ensures var t := s.(mem := s.mem[s.pt[k].frame := page]);
      && Settled(t)
      && forall q: nat, v: nat ::
           PageAt(t.pt, t.mem, q, v) == if Slot(q, v) == k then page else PageAt(s.pt, s.mem, q, v)
  {
    hide Inv;
    LeafInRam(s, k);
    SoleMapping(s, k);
    MemoryFree(s, s.mem[s.pt[k].frame := page]);
  }

  lemma SoleMapping(s: State, k: Slot)
    requires Inv(s) && k in s.pt && s.pt[k].w
    ensures forall l :: l in s.pt && l != k ==> s.pt[l].frame != s.pt[k].frame
  {
    hide CountsAgree, IdleUnreferenced, TablesPrivate, WithinSize;
    assert LeafOk(s.ram, s.pt, k);
    assert forall l :: l in s.pt && s.pt[l].frame == s.pt[k].frame ==> l in Refs(s.pt, s.pt[k].frame);
  }

  /** The accounting does not look at page contents. */
  lemma MemoryFree(s: State, mem: map<nat, Page>)
    requires Inv(s) && s.mem.Keys <= mem.Keys
    ensures Inv(s.(mem := mem))
  {
    hide CountsAgree, IdleUnreferenced, TablesPrivate, WithinSize, LeavesOk;
  }

  lemma WrittenAbs(s: State, t: State, k: Slot, page: Page, a: nat, src: seq<Byte>)
    requires t.sz == s.sz && k.pid in s.sz && k.vpn < PageCount(s.sz[k.pid])
    requires forall q: nat, v: nat ::
      PageAt(t.pt, t.mem, q, v) == if Slot(q, v) == k then page else PageAt(s.pt, s.mem, q, v)
    requires k.vpn * PGSIZE <= a && a + |src| <= (k.vpn + 1) * PGSIZE
    requires page == PageWith(PageAt(s.pt, s.mem, k.pid, k.vpn), k.vpn * PGSIZE, a, src)
    ensures Abs(t) == Abs(s)[k.pid := ProcOf(s, k.pid).(pages := Splice(ProcOf(s, k.pid).pages, a, src))]
  {
    hide PageAt, PageCount;
    forall q | q in s.sz && q != k.pid ensures ProcOf(t, q) == ProcOf(s, q) {
      assert PagesOf(t.pt, t.mem, q, PageCount(t.sz[q])) == PagesOf(s.pt, s.mem, q, PageCount(s.sz[q]));
    }
    var n := PageCount(s.sz[k.pid]);
    var old_ := PagesOf(s.pt, s.mem, k.pid, n);
    forall v | 0 <= v < n ensures PagesOf(t.pt, t.mem, k.pid, n)[v] == Splice(old_, a, src)[v] {
      if v != k.vpn {
        OtherPage(old_[v], v, k.vpn, a, src);
      }
    }
    assert PagesOf(t.pt, t.mem, k.pid, n) == Splice(old_, a, src);
    assert ProcOf(t, k.pid) == ProcOf(s, k.pid).(pages := Splice(old_, a, src));
  }

  lemma OtherPage(page: Page, v: nat, w: nat, a: nat, src: seq<Byte>)
    requires v != w && w * PGSIZE <= a && a + |src| <= (w + 1) * PGSIZE
    ensures PageWith(page, v * PGSIZE, a, src) == page
  {
    assert v < w ==> (v + 1) * PGSIZE <= w * PGSIZE;
    assert v > w ==> v * PGSIZE >= (w + 1) * PGSIZE;
    assert PageWith(page, v * PGSIZE, a, src) == page;
  }

  lemma SeenPage(s: State, p: nat, v: nat)
    requires Inv(s) && p in s.sz && Slot(p, v) in s.pt
    ensures var f := s.pt[Slot(p, v)].frame;
      f in s.mem && v < |Abs(s)[p].pages| && s.mem[f] == Abs(s)[p].pages[v]
  {
    LeafInRam(s, Slot(p, v));
    BeyondSize(s, p);
    hide Inv;
  }

  lemma BytesOfNothing(pages: seq<Page>, a: nat)
    ensures Bytes(pages, a, 0) == []
  {
  }

  lemma PageInSize(s: State, k: Slot)
    requires Inv(s) && k.pid in s.sz
    ensures k.vpn * PGSIZE < s.sz[k.pid] && k.vpn * PGSIZE < MAXUVA <==> k.vpn < PageCount(s.sz[k.pid])
  {
    hide CountsAgree, IdleUnreferenced, TablesPrivate, LeavesOk;
  }

  lemma AbsKeys(s: State)
    ensures Abs(s).Keys == s.sz.Keys && |Abs(s)| == |s.sz|
  {
    assert Abs(s).Keys == s.sz.Keys;
  }

  lemma NewSame(s: State, u: State, c: nat)
    requires c in u.sz && SameContents(WithSize(s, c, u.sz[c]), u)
    ensures forall q: nat, v: nat :: PageAt(u.pt, u.mem, q, v) == PageAt(s.pt, s.mem, q, v)
  {
    hide PageAt;
  }

  /** Reaping a child that never got its memory leaves all memories as before the fork. */
  lemma ForkUndone(s: State, t: State, c: nat, z: nat)
    requires c !in s.sz && SameContents(WithSize(s, c, z), t)
    ensures Abs(t) - {c} == Abs(s)
  {
    hide PageAt, Abs, PageCount;
    ForkFailedAbs(s, t, c);
  }

  // ---------------------------------------------------------------- start of the system

  /** Before freerange has reached them the pages of RAM are unreferenced and not yet free. */
  lemma BootKeeps(s: State, f: nat)
    requires Inv(s) && f in s.orphans && s.hand == {} && s.owed == {} && f < |s.ref|
    ensures Inv(Released(s, f).(orphans := s.orphans - {f}))
    ensures s.pt == map[] ==> Released(s, f).hand == {}
  {
    hide Count, Refs, Distinct, PageCount, LeavesOk, WithinSize;
    ZeroCount(s.pt, s.hand, s.tables, f);
    Prepended(s.free, f);
    assert s.hand - {f} == s.hand;
  }

  lemma BootStart(s: State)
    requires s.free == [] && s.pt == map[] && s.tables == map[] && s.sz == map[] && s.hand == {} && s.owed == {}
    requires s.orphans == s.ram && s.ram <= s.mem.Keys && forall f :: f in s.ram ==> f < |s.ref| && s.ref[f] == 0
    ensures Inv(s)
  {
    forall f ensures Count(s.pt, s.hand, s.tables, f) == 0 {
      assert Refs(s.pt, f) == {};
    }
  }

  function Interval(lo: nat, hi: nat): (r: set<nat>)
    requires lo <= hi
    ensures forall f :: f in r <==> lo <= f < hi
    decreases hi - lo
  {
    if lo == hi then {} else {lo} + Interval(lo + 1, hi)
  }

  lemma IntervalMembers(lo: nat, hi: nat)
    requires lo <= hi
    ensures lo < hi ==> lo in Interval(lo, hi) && Interval(lo + 1, hi) == Interval(lo, hi) - {lo}
    ensures lo == hi ==> Interval(lo, hi) == {}
  {
  }

  lemma ReleasedZero(s: State, f: nat)
    requires f < |s.ref| && s.ref[f] == 0
    ensures Released(s, f).ref == s.ref && Released(s, f).free == [f] + s.free
  {
  }

  lemma OnePage()
    ensures PageCount(PGSIZE) == 1
  {
  }

  /** The first process starts with zeroes. */
  lemma FreshProc(s: State, t: State, u: State, p: nat)
    requires Inv(s) && s.sz == map[] && SameContents(WithSize(s, p, PGSIZE), t) && SameContents(t, u)
    ensures ProcOf(u, p) == Proc(PGSIZE, Zeros(1)) && Abs(u) == map[p := ProcOf(u, p)]
  {
    assert s.pt == map[];
    assert PageAt(s.pt, s.mem, p, 0) == Fill(0);
    assert PagesOf(u.pt, u.mem, p, 1) == Zeros(1);
    hide Inv;
  }

  // ---------------------------------------------------------------- one shared page

  lemma CountMapped(s: State, f: nat)
    requires Settled(s) && Refs(s.pt, f) != {}
    ensures f in s.ram && f < |s.ref| && s.ref[f] == |Refs(s.pt, f)|
  {
    var k :| k in Refs(s.pt, f);
    assert LeafOk(s.ram, s.pt, k);
  }

  /** After the fork of a process with one page the two leaves are the page's two references. */
  lemma SharedByTwo(s: State, f: nat)
    requires Settled(s) && LeavesForked(map[Slot(1, 0) := Pte(f, true, false, true, true)], s.pt, 1, 2, 1)
    ensures s.pt == map[Slot(1, 0) := Pte(f, false, true, true, true), Slot(2, 0) := Pte(f, false, true, true, true)]
    ensures f < |s.ref| && s.ref[f] == 2
  {
    hide Inv, Mirror, LeavesForked;
    TwinLeaves(s.pt, f);
    assert Refs(s.pt, f) == {Slot(1, 0), Slot(2, 0)};
    CountMapped(s, f);
  }

  lemma TwinLeaves(pt: Leaves, f: nat)
    requires LeavesForked(map[Slot(1, 0) := Pte(f, true, false, true, true)], pt, 1, 2, 1)
    ensures pt == map[Slot(1, 0) := Pte(f, false, true, true, true), Slot(2, 0) := Pte(f, false, true, true, true)]
  {
  }

  /** Once the parent has its own copy the child's leaf is the page's only reference. */
  lemma LeftToOne(s: State, f: nat)
    requires Settled(s) && Slot(1, 0) in s.pt && s.pt[Slot(1, 0)].w
    requires s.pt - {Slot(1, 0)} == map[Slot(2, 0) := Pte(f, false, true, true, true)]
    ensures Slot(2, 0) in s.pt && s.pt[Slot(2, 0)] == Pte(f, false, true, true, true) && f < |s.ref| && s.ref[f] == 1
  {
    hide Inv;
    assert Slot(2, 0) in s.pt - {Slot(1, 0)};
    SoleMapping(s, Slot(1, 0));
    assert forall k :: k in s.pt ==> k == Slot(1, 0) || k in s.pt - {Slot(1, 0)};
    assert Refs(s.pt, f) == {Slot(2, 0)};
    CountMapped(s, f);
  }

  lemma OrphanIdle(s: State)
    requires Inv(s)
    ensures forall f :: f in s.orphans ==> f !in s.free && Refs(s.pt, f) == {}
  {
    forall f | f in s.orphans ensures f !in s.free && Refs(s.pt, f) == {} {
      assert Count(s.pt, s.hand, s.tables, f) == 0;
    }
  }

  /** The undercounted page of a process with one page is that page, now free. */
  lemma OnlySpoiled(s: State, t: State, f: nat, g: nat)
    requires s.pt == map[Slot(1, 0) := Pte(f, true, false, true, true)] && Spoiled(s, t, 2, g)
    ensures Slot(1, 0) in t.pt && t.pt[Slot(1, 0)].frame in t.free && PageAt(t.pt, t.mem, 1, 0) == Fill(1)
  {
    hide Inv;
    assert Refs(t.pt, g) <= {Slot(1, 0)};
    SubsetSize(Refs(t.pt, g), {Slot(1, 0)});
    assert t.pt[Slot(1, 0)].frame == f;
    assert g != f ==> Refs(t.pt, g) == {};
  }
}
