/**
 The kernel's memory system: the page allocator with reference counts (kernel/kalloc.c), lazy
 allocation and copy-on-write (kernel/vm.c), the page-fault arm of usertrap (kernel/trap.c),
 sbrk (kernel/sysproc.c) and the memory part of fork and freeproc (kernel/proc.c).

 The user page tables of all processes are one map from (process, virtual page) to a leaf; which
 nodes each table has, and so how many pages a walk takes, is kept beside it.
 */
module CowKernel {
  import opened Common
  import opened Paging
  import opened FrameAccounting
  import opened PrivateMemory
  import opened CowStates
  import opened TableNodes

  /** How copying one page or a whole address space ended; Corrupt names the page left undercounted. */
  datatype CopyResult = Copied | NoTable | Corrupt(pa: nat)

  /** How far a copy gets within the page of `at`, `left` bytes being left. */
  function Chunk(at: nat, left: nat): nat {
    if PGSIZE - at % PGSIZE > left then left else PGSIZE - at % PGSIZE
  }

  /** How a copyout ends. */
  lemma PutRefused(a: Memory, free: nat, p: nat, va: nat, src: seq<Byte>)
    requires p in a && (va >= a[p].sz || va + |src| > a[p].sz)
    ensures Step(a, free, Op.CopyOut(p, va, src), Failed, a)
  {
  }

  lemma PutWhole(a: Memory, free: nat, p: nat, va: nat, src: seq<Byte>)
    requires p in a && va < a[p].sz && va + |src| <= a[p].sz
    ensures Step(a, free, Op.CopyOut(p, va, src), Done([]), a[p := a[p].(pages := Splice(a[p].pages, va, src))])
  {
  }

  lemma PutMore(a: Memory, p: nat, va: nat, src: seq<Byte>, done: nat, n: nat, b: Memory, c: Memory)
    requires p in a && done + n <= |src| && b == a[p := a[p].(pages := Splice(a[p].pages, va, src[..done]))]
    requires c == b[p := Proc(b[p].sz, Splice(b[p].pages, va + done, src[done..done + n]))]
    ensures c == a[p := a[p].(pages := Splice(a[p].pages, va, src[..done + n]))]
  {
    hide Splice;
    SpliceTwice(a[p].pages, va, src[..done], src[done..done + n]);
    assert src[..done] + src[done..done + n] == src[..done + n];
  }

  lemma PutTorn(a: Memory, free: nat, p: nat, va: nat, src: seq<Byte>, k: nat)
    requires p in a && va < a[p].sz && va + |src| <= a[p].sz && k < |src| && free < TOUCH_PAGES * Spanned(va, |src|)
    ensures Step(a, free, Op.CopyOut(p, va, src), Failed, a[p := a[p].(pages := Splice(a[p].pages, va, src[..k]))])
  {
  }

  /** After a chunk the copy is over or goes on at the next page. */
  lemma ChunkEnds(at: nat, left: nat)
    requires left > 0
    ensures var n := Chunk(at, left);
      && 0 < n <= left && at % PGSIZE + n <= PGSIZE
      && (n < left ==> (at + n) / PGSIZE == at / PGSIZE + 1)
  {
  }

  lemma InSpan(va: nat, done: nat, n: nat)
    requires done < n
    ensures (va + done) / PGSIZE - va / PGSIZE + 1 <= Spanned(va, n)
    ensures (va + done) / PGSIZE <= (va + n - 1) / PGSIZE
  {
    Monotone(va + done, va + n - 1);
  }

  lemma PageBelow(a: nat, sz: nat)
    requires a < sz
    ensures a / PGSIZE < PageCount(sz)
  {
  }

  lemma Monotone(a: nat, b: nat)
    requires a <= b
    ensures a / PGSIZE <= b / PGSIZE
  {
  }

  /** Free pages lazy_alloc takes: the page, and the nodes missing in the two tables. */
  function LazyCost(nodes: Nodes, p: nat, v: nat): (n: nat)
    ensures n <= TOUCH_PAGES
  {
    1 + Missing(nodes, User(p), v) + Missing(nodes, Kern(p), v)
  }

  function LazyNodes(nodes: Nodes, p: nat, v: nat): Nodes {
    Grown(Grown(nodes, User(p), v), Kern(p), v)
  }

  lemma LazyNodesApart(nodes: Nodes, p: nat, v: nat)
    ensures Missing(Grown(nodes, User(p), v), Kern(p), v) == Missing(nodes, Kern(p), v)
  {
  }

  /** A fork, in a state with so many pages free, whose copy fails in the child's kernel table. */
  ghost predicate Breaks(s: State, op: Op) {
    && op.Fork? && op.p in s.sz && op.child !in s.sz && |s.sz| < NPROC
    && |s.free| >= PROC_PAGES && CopyBreaks(s.pt, op.p, PageCount(s.sz[op.p]), |s.free| - PROC_PAGES)
  }

  /** So many free pages get allocproc as far as the kernel stack but not through its mapping. */
  predicate LosesStack(free: nat) {
    PROC_PAGES - 2 <= free < PROC_PAGES
  }

  /** A fork that loses a kernel stack for good. */
  ghost predicate Loses(s: State, op: Op) {
    op.Fork? && op.p in s.sz && op.child !in s.sz && |s.sz| < NPROC && LosesStack(|s.free|)
  }

  /** The lost pages after op: one more exactly when it loses a stack. */
  ghost predicate LostBy(s: State, op: Op, t: State) {
    && LostPages(s.tables) <= LostPages(t.tables)
    && |LostPages(t.tables)| == |LostPages(s.tables)| + One(Loses(s, op))
  }

  class Kernel {
    var freelist: seq<nat>
    var npage: nat
    const refCount: array<nat>
    var mem: map<nat, Page>
    var pagetable: map<Slot, Pte>
    var kpagetable: map<Slot, nat>
    var size: map<nat, nat>
    var tables: map<nat, Holder>
    var nodes: Nodes
    ghost const ram: set<nat>
    ghost var hand: set<nat>
    ghost var owed: set<nat>
    ghost var orphans: set<nat>

    ghost function View(): State
      reads this, refCount
    {
      State(ram, freelist, refCount[..], mem, pagetable, kpagetable, size, tables, hand, owed, orphans)
    }

    /** The pages kept for others than p, and those nobody has. */
    ghost function Rest(p: nat): map<nat, Holder>
      reads `tables
    {
      TablesWithout(tables, p)
    }

    ghost predicate Ok()
      reads this, refCount
    {
      npage == |freelist| && Inv(View()) && Rooted(nodes, size)
    }

    /** kinit over the page numbers first up to last. */
    constructor (pages: nat, first: nat, last: nat)
      requires first <= last <= pages
      ensures Ok() && Settled(View()) && Abs(View()) == map[] && orphans == {} && size == map[] && nodes == map[]
      ensures tables == map[]
      ensures ram == Interval(first, last) && |freelist| == last - first && fresh(refCount)
    {
      ram := Interval(first, last);
      refCount := new nat[pages](_ => 0);
      freelist, npage, pagetable, kpagetable, size, tables, nodes := [], 0, map[], map[], map[], map[], map[];
      mem := map f | f in Interval(first, last) :: Fill(0);
      hand, owed, orphans := {}, {}, Interval(first, last);
      new;
      BootStart(View());
      FreeRange(first, last);
    }

    /** freerange: hand every page to kfree. */
    method FreeRange(first: nat, last: nat)
      requires Ok() && first <= last <= refCount.Length && orphans == Interval(first, last)
      requires freelist == [] && hand == {} && owed == {} && (forall f :: first <= f < last ==> refCount[f] == 0)
      modifies this, refCount
      ensures Ok() && |freelist| == last - first && orphans == {}
      ensures unchanged(`pagetable, `kpagetable, `size, `tables, `hand, `owed, `nodes)
    {
      hide Inv, Released, Interval;
      IntervalMembers(first, last);
      var i := first;
      while i < last
        invariant first <= i <= last && Ok() && |freelist| == i - first && orphans == Interval(i, last)
        invariant unchanged(`pagetable, `kpagetable, `size, `tables, `hand, `owed, `nodes)
        invariant forall f :: i <= f < last ==> refCount[f] == 0
      {
        ghost var s := View();
        IntervalMembers(i, last);
        BootKeeps(s, i);
        ReleasedZero(s, i);
        KFree(i);
        forall f | i < f < last ensures refCount[f] == 0 {
          assert refCount[..][f] == s.ref[f];
        }
        assert hand == {};
        orphans := orphans - {i};
        i := i + 1;
      }
      IntervalMembers(last, last);
    }

    // -------------------------------------------------------------- kernel/kalloc.c

    method KAlloc() returns (r: Option<nat>)
      requires npage == |freelist| && (forall f :: f in freelist ==> f < refCount.Length)
      modifies this, refCount
      ensures npage == |freelist| && unchanged(`nodes, `tables)
      ensures r.None? <==> old(freelist) == []
      ensures r.None? ==> View() == old(View())
      ensures r.Some? ==> old(freelist) != [] && r.value == old(freelist)[0] < refCount.Length
      ensures r.Some? ==> View() == Taken(old(View()))
      ensures r.Some? ==> refCount[r.value] == 1 && freelist == old(freelist)[1..]
    {
      if freelist == [] {
        return None;
      }
      var f := freelist[0];
      assert f in freelist;
      freelist := freelist[1..];
      npage := npage - 1;
      mem := mem[f := Fill(5)];
      refCount[f] := 1;
      hand := hand + {f};
      r := Some(f);
    }

    method KFree(f: nat)
      requires npage == |freelist| && f < refCount.Length
      modifies this, refCount
      ensures npage == |freelist| && View() == Released(old(View()), f)
      ensures refCount[f] == if old(refCount[f]) > 0 then old(refCount[f]) - 1 else 0
      ensures freelist == if old(refCount[f]) <= 1 then [f] + old(freelist) else old(freelist)
      ensures unchanged(`pagetable, `kpagetable, `size, `tables, `nodes, `owed, `orphans) && hand == old(hand) - {f}
    {
      hand := hand - {f};
      if refCount[f] > 0 {
        refCount[f] := refCount[f] - 1;
      }
      if refCount[f] > 0 {
        return;
      }
      mem := mem[f := Fill(1)];
      freelist := [f] + freelist;
      npage := npage + 1;
    }

    method DecRef(f: nat)
      requires f < refCount.Length
      modifies this, refCount
      ensures npage == old(npage) && unchanged(`nodes) && View() == Dropped(old(View()), f)
      ensures refCount[f] == (if old(refCount[f]) > 0 then old(refCount[f]) - 1 else 0) && unchanged(`freelist)
    {
      if refCount[f] > 0 {
        refCount[f] := refCount[f] - 1;
      }
      hand := hand - {f};
      orphans := if refCount[f] == 0 then orphans + {f} else orphans;
    }

    method IncRef(f: nat)
      requires f < refCount.Length
      modifies this, refCount
      ensures npage == old(npage) && unchanged(`nodes) && View() == Counted(old(View()), f)
      ensures refCount[f] == old(refCount[f]) + 1 && unchanged(`freelist)
    {
      refCount[f] := refCount[f] + 1;
      owed := owed - {f};
    }

    // -------------------------------------------------------------- kernel/vm.c

    /** One iteration of walk that has to add a table node for process p. */
    method AddTable(p: nat) returns (ok: bool)
      requires Ok() && p in size
      modifies this, refCount
      ensures Ok() && Quiet(old(View()), View()) && SameContents(old(View()), View())
      ensures unchanged(`pagetable, `kpagetable, `size, `nodes, `hand, `owed, `orphans)
      ensures !ok <==> old(freelist) == []
      ensures |freelist| == old(|freelist|) - One(ok) && Rest(p) == old(Rest(p))
    {
      hide Inv, Quiet, SameContents, Rooted, TablesWithout;
      ghost var s := View();
      FreeInRange(s);
      var r := KAlloc();
      if r.None? {
        QuietSelf(s);
        return false;
      }
      HeadUntabled(s);
      RestAdded(tables, r.value, p);
      mem := mem[r.value := Fill(0)];
      tables := tables[r.value := Of(p)];
      hand := hand - {r.value};
      TableAdded(s, p);
      ok := true;
    }

    /** walk with alloc set: exactly the nodes missing on the path to page v are added, or the free pages run out. */
    method Walk(t: Table, v: nat) returns (ok: bool)
      requires Ok() && t.pid in size
      modifies this, refCount
      ensures Ok() && Quiet(old(View()), View()) && SameContents(old(View()), View())
      ensures unchanged(`pagetable, `kpagetable, `size, `hand, `owed, `orphans)
      ensures Rest(t.pid) == old(Rest(t.pid))
      ensures ok <==> old(|freelist|) >= Missing(old(nodes), t, v)
      ensures ok ==> |freelist| == old(|freelist|) - Missing(old(nodes), t, v) && nodes == Grown(old(nodes), t, v)
    {
      hide Inv, Quiet, SameContents, Rooted, Missing, Grown, Path, Has;
      ghost var s := View();
      WalkAdds(nodes, t, v);
      QuietSelf(s);
      ok := AddNode(t, Mid(v / 512 / 512));
      if !ok {
        return;
      }
      ghost var u := View();
      GrowsTwice(old(nodes), t, v);
      ok := AddNode(t, Low(v / 512));
      QuietAgain(s, u, View());
    }

    /** One level of walk: the node is there or is added. */
    method AddNode(t: Table, n: Node) returns (ok: bool)
      requires Ok() && t.pid in size && (n.Low? ==> Mid(n.k / 512) in Has(nodes, t))
      modifies this, refCount
      ensures Ok() && Quiet(old(View()), View()) && SameContents(old(View()), View())
      ensures unchanged(`pagetable, `kpagetable, `size, `hand, `owed, `orphans)
      ensures Rest(t.pid) == old(Rest(t.pid))
      ensures ok <==> n in Has(old(nodes), t) || old(freelist) != []
      ensures |freelist| == old(|freelist|) - One(n !in Has(old(nodes), t) && ok)
      ensures nodes == if n !in Has(old(nodes), t) && ok then old(nodes)[t := Has(old(nodes), t) + {n}] else old(nodes)
    {
      hide Inv, Quiet, SameContents, Rooted, Has;
      QuietSelf(View());
      if n in Has(nodes, t) {
        return true;
      }
      ok := AddTable(t.pid);
      if ok {
        match n {
          case Mid(i) => MidRooted(nodes, t, i, size);
          case Low(k) => LowRooted(nodes, t, k, size);
        }
        nodes := nodes[t := Has(nodes, t) + {n}];
      }
    }

    ghost predicate IsMapped(k: Slot, before: Leaves, x: bool)
      reads this
    {
      k in pagetable && pagetable == before[k := Pte(pagetable[k].frame, true, false, x, true)]
    }

    /** mappages of a fresh zero page in the user page table. */
    method MapUser(k: Slot, f: nat, x: bool) returns (ok: bool)
      requires Ok() && FreshZero(View(), f) && hand == {f} && k !in pagetable
      requires k.pid in size && k.vpn < PageCount(size[k.pid])
      modifies this, refCount
      ensures Ok() && SameContents(old(View()), View()) && unchanged(`kpagetable, `size, `owed, `orphans)
      ensures Rest(k.pid) == old(Rest(k.pid))
      ensures ok <==> old(|freelist|) >= Missing(old(nodes), User(k.pid), k.vpn)
      ensures ok ==> hand == {} && pagetable == old(pagetable)[k := Pte(f, true, false, x, true)] && ZeroLeaf(View(), k)
      ensures ok ==> |freelist| == old(|freelist|) - Missing(old(nodes), User(k.pid), k.vpn)
      ensures ok ==> nodes == Grown(old(nodes), User(k.pid), k.vpn)
      ensures !ok ==> unchanged(`pagetable, `hand)
    {
      hide Inv, Quiet, SameContents, FreshZero, PageCount, ZeroLeaf, Rooted, Missing, Grown;
      ghost var s := View();
      ok := Walk(User(k.pid), k.vpn);
      if ok {
        ghost var t := View();
        FreshZeroKept(s, t, f);
        pagetable := pagetable[k := Pte(f, true, false, x, true)];
        hand := hand - {f};
        MappedFresh(t, k, Pte(f, true, false, x, true));
        MappedZeroLeaf(t, k, Pte(f, true, false, x, true));
        SameAgain(s, t, View());
      }
    }

    /** The user mapping, then the kernel one; a failure of the second undoes the first. */
    method MapFresh(k: Slot, f: nat, x: bool) returns (ok: bool)
      requires Ok() && FreshZero(View(), f) && hand == {f} && owed == {} && Mirror(View())
      requires k !in pagetable && k.pid in size && k.vpn < PageCount(size[k.pid])
      modifies this, refCount
      ensures Ok() && SameContents(old(View()), View()) && unchanged(`size, `owed, `orphans)
      ensures Rest(k.pid) == old(Rest(k.pid))
      ensures ok <==> old(|freelist|) >= LazyCost(old(nodes), k.pid, k.vpn) - 1
      ensures ok ==> hand == {} && Mirror(View()) && IsMapped(k, old(pagetable), x)
      ensures ok ==> |freelist| == old(|freelist|) - (LazyCost(old(nodes), k.pid, k.vpn) - 1)
      ensures ok ==> nodes == LazyNodes(old(nodes), k.pid, k.vpn)
      ensures !ok ==> unchanged(`pagetable, `kpagetable, `hand)
    {
      hide Inv, Quiet, SameContents, FreshZero, PageCount, ZeroLeaf, Rooted, Missing, Grown, TablesWithout;
      ghost var s := View();
      LazyNodesApart(nodes, k.pid, k.vpn);
      ok := MapUser(k, f, x);
      if !ok {
        return;
      }
      ghost var u := View();
      MirrorWith(s, u, k, f);
      ok := MapKernel(k, f);
      SameAgain(s, u, View());
      assert u.pt - {k} == s.pt;
    }

    /** The second mapping of lazy_alloc; a failure takes the first one out again. */
    method MapKernel(k: Slot, f: nat) returns (ok: bool)
      requires Ok() && ZeroLeaf(View(), k) && pagetable[k].frame == f && hand == {} && owed == {} && k.pid in size
      requires Mirror(View().(kpt := kpagetable[k := f]))
      modifies this, refCount
      ensures Ok() && SameContents(old(View()), View()) && unchanged(`size, `owed, `orphans)
      ensures Rest(k.pid) == old(Rest(k.pid))
      ensures ok <==> old(|freelist|) >= Missing(old(nodes), Kern(k.pid), k.vpn)
      ensures ok ==> Mirror(View()) && unchanged(`pagetable, `hand)
      ensures ok ==> |freelist| == old(|freelist|) - Missing(old(nodes), Kern(k.pid), k.vpn)
      ensures ok ==> nodes == Grown(old(nodes), Kern(k.pid), k.vpn)
      ensures !ok ==> pagetable == old(pagetable) - {k} && hand == {f} && unchanged(`kpagetable)
    {
      hide Inv, Quiet, SameContents, PageCount, ZeroLeaf, Rooted, Missing, Grown, TablesWithout;
      ghost var u := View();
      ZeroLeafIn(u, k);
      ok := Walk(Kern(k.pid), k.vpn);
      ghost var v := View();
      if ok {
        kpagetable := kpagetable[k := f];
        KernelLeavesFree(v, kpagetable);
      } else {
        ZeroLeafKept(u, v, k);
        pagetable := pagetable - {k};
        hand := hand + {f};
        UnmappedBack(v, k);
      }
      SameAgain(u, v, View());
    }

    /** Give the untouched page v of process p a zeroed frame, mapped in both page tables. */
    method LazyAlloc(p: nat, v: nat, x: bool := false) returns (ok: bool)
      requires Ok() && Settled(View()) && p in size && v < PageCount(size[p]) && Slot(p, v) !in pagetable
      modifies this, refCount
      ensures Ok() && Settled(View()) && SameContents(old(View()), View()) && unchanged(`size, `orphans)
      ensures Rest(p) == old(Rest(p))
      ensures ok <==> old(|freelist|) >= LazyCost(old(nodes), p, v)
      ensures ok ==> IsMapped(Slot(p, v), old(pagetable), x)
      ensures !x ==> Touched(old(pagetable), pagetable, p)
      ensures ok ==> |freelist| == old(|freelist|) - LazyCost(old(nodes), p, v)
      ensures ok ==> nodes == LazyNodes(old(nodes), p, v)
      ensures !ok ==> unchanged(`pagetable)
    {
      hide Inv, SameContents, FreshZero, Released, PageCount, Rooted, Missing, LazyNodes, Touched;
      ghost var s := View();
      TouchedSelf(pagetable, p);
      FreeInRange(s);
      var r := KAlloc();
      if r.None? {
        QuietSelf(s);
        return false;
      }
      var f := r.value;
      mem := mem[f := Fill(0)];
      assert mem == s.mem[f := Fill(0)];
      ZeroTaken(s);
      ghost var t := View();
      FreshInRam(t, f);
      ok := MapFresh(Slot(p, v), f, x);
      SameAgain(s, t, View());
      if ok && !x {
        LeafTouched(s.pt, Slot(p, v), pagetable[Slot(p, v)]);
      }
      if !ok {
        ghost var u := View();
        ReleasedSame(u, f);
        KFree(f);
        SameAgain(s, u, View());
      }
    }

    /** Leaf k alone is another: writable, no longer copy-on-write, fetched from as before. */
    ghost predicate IsOwned(k: Slot, before: Leaves)
      reads this
    {
      && k in pagetable && k in before && pagetable == before[k := pagetable[k]]
      && pagetable[k].w && !pagetable[k].cow && SameFetch(pagetable[k], before[k])
    }

    /** cow_alloc never frees the page it leaves, so a page with one reference is lost. */
    ghost function OrphansAfterCow(k: Slot): set<nat>
      reads this, refCount
    {
      if k in pagetable && pagetable[k].frame < refCount.Length && refCount[pagetable[k].frame] == 1
      then orphans + {pagetable[k].frame} else orphans
    }

    /** cow_alloc between its checks and the kernel page table: kalloc, memmove, decref, new leaf. */
    method CowCopy(k: Slot) returns (r: Option<nat>)
      requires npage == |freelist| && (forall f :: f in freelist ==> f < refCount.Length) && hand == {}
      requires k in pagetable && pagetable[k].frame in mem && pagetable[k].frame < refCount.Length
      requires freelist != [] ==> freelist[0] != pagetable[k].frame
      modifies this, refCount
      ensures npage == |freelist| && unchanged(`nodes, `tables)
      ensures r.None? <==> old(freelist) == []
      ensures r.None? ==> View() == old(View())
      ensures r.Some? ==> old(freelist) != [] && r.value == old(freelist)[0] < refCount.Length
      ensures r.Some? ==> View() == CowResult(old(View()), k)
    {
      var pa := pagetable[k].frame;
      r := KAlloc();
      if r.Some? {
        mem := mem[r.value := mem[pa]];
        assert mem == old(mem)[r.value := old(mem)[pa]];
        DecRef(pa);
        pagetable := pagetable[k := Owned(pagetable[k], r.value)];
        hand := {};
      }
    }

    /** Give process p its own copy of the copy-on-write page v. */
    method CowAlloc(p: nat, v: nat) returns (ok: bool)
      requires Ok() && Settled(View())
      modifies this, refCount
      ensures Ok() && Settled(View()) && SameContents(old(View()), View()) && unchanged(`size, `nodes, `tables)
      ensures var k := Slot(p, v);
        ok <==> k in old(pagetable) && old(pagetable)[k].cow && old(freelist) != []
      ensures !ok ==> View() == old(View())
      ensures ok ==> IsOwned(Slot(p, v), old(pagetable)) && orphans == old(OrphansAfterCow(Slot(p, v)))
      ensures Touched(old(pagetable), pagetable, p)
      ensures ok ==> |freelist| == old(|freelist|) - 1
    {
      hide Inv, SameContents, CowResult, Rooted, Touched;
      var k := Slot(p, v);
      ghost var s := View();
      QuietSelf(s);
      TouchedSelf(pagetable, p);
      FreeInRange(s);
      if k !in pagetable || !pagetable[k].cow {
        return false;
      }
      LeafInRam(s, k);
      if s.free != [] {
        assert s.free[0] in s.free;
        CowKeeps(s, k);
      }
      var r := CowCopy(k);
      if r.None? {
        return false;
      }
      CowFields(s, k);
      if k in kpagetable {
        kpagetable := kpagetable[k := r.value];
      }
      KernelLeavesFree(CowResult(s, k), kpagetable);
      SameAgain(s, CowResult(s, k), View());
      LeafTouched(s.pt, k, pagetable[k]);
      ok := true;
    }

    /** Body of the loop in uvmunmap with do_free set. */
    method UnmapPage(k: Slot)
      requires npage == |freelist| && (k in pagetable ==> pagetable[k].frame < refCount.Length)
      modifies this, refCount
      ensures npage == |freelist| && (old(hand) == {} ==> hand == {}) && pagetable == old(pagetable) - {k}
      ensures unchanged(`kpagetable, `size, `tables, `nodes, `owed, `orphans)
      ensures k !in old(pagetable) ==> View() == old(View())
      ensures k in old(pagetable) ==> View() == Released(Unmapped(old(View()), k), old(pagetable)[k].frame)
    {
      if k in pagetable {
        var f := pagetable[k].frame;
        hand := hand + {f};
        KFree(f);
        pagetable := pagetable - {k};
      }
      assert pagetable == old(pagetable) - {k};
    }

    method UvmUnmap(p: nat, lo: nat, hi: nat)
      requires Ok() && lo <= hi && hand == {}
      requires forall v :: lo <= v < hi && Slot(p, v) in pagetable ==> pagetable[Slot(p, v)].frame !in owed
      modifies this, refCount
      ensures Ok() && hand == {} && unchanged(`kpagetable, `size, `tables, `nodes, `owed, `orphans)
      ensures pagetable == Without(old(pagetable), p, lo, hi) && Cut(old(View()), View(), p, lo, hi)
    {
      hide Inv, Cut, Without, Released, Rooted;
      ghost var s := View();
      CutNothing(s, p, lo);
      var v := lo;
      while v < hi
        invariant lo <= v <= hi && Ok() && hand == {} && unchanged(`kpagetable, `size, `tables, `nodes, `owed, `orphans)
        invariant pagetable == Without(old(pagetable), p, lo, v) && Cut(s, View(), p, lo, v)
      {
        ghost var t := View();
        var k := Slot(p, v);
        WithoutOne(old(pagetable), p, lo, v);
        if k in pagetable {
          WithoutAt(old(pagetable), p, lo, v);
          CutMore(s, t, p, lo, v);
        } else {
          CutOne(s, t, p, lo, v);
        }
        UnmapPage(k);
        v := v + 1;
      }
    }

    /** uvmunmap on the kernel page table of p, which frees nothing. */
    method UvmUnmapKernel(p: nat, lo: nat, hi: nat)
      requires npage == |freelist| && lo <= hi
      modifies this, refCount
      ensures npage == |freelist| && unchanged(`nodes, `tables)
      ensures View() == old(View()).(kpt := Without(old(kpagetable), p, lo, hi))
    {
      hide Without;
      ghost var s := View();
      CutNothing(s, p, lo);
      var v := lo;
      while v < hi
        invariant lo <= v <= hi && npage == |freelist| && unchanged(`nodes, `tables)
        invariant View() == s.(kpt := Without(s.kpt, p, lo, v))
      {
        WithoutOne(s.kpt, p, lo, v);
        kpagetable := kpagetable - {Slot(p, v)};
        v := v + 1;
      }
    }

    /** Freeing the page-table nodes, trapframe and kernel stack of p. */
    method FreeTables(p: nat)
      requires Ok() && hand == {} && owed == {}
      modifies this, refCount
      ensures Ok() && unchanged(`pagetable, `kpagetable, `size, `hand, `owed, `orphans)
      ensures tables == TablesWithout(old(tables), p) && SameContents(old(View()), View()) && unchanged(`nodes)
    {
      hide Inv, SameContents, Released, Rooted, TablesWithout;
      ghost var s := View();
      QuietSelf(s);
      while exists f :: f in tables && tables[f] == Of(p)
        invariant Ok() && unchanged(`pagetable, `kpagetable, `size, `nodes, `hand, `owed, `orphans)
        invariant TablesWithout(tables, p) == TablesWithout(old(tables), p) && SameContents(s, View())
        decreases |tables|
      {
        var f :| f in tables && tables[f] == Of(p);
        ghost var t := View();
        UntabledSame(t, f);
        RestLessOne(tables, f, p);
        hand := hand + {f};
        tables := tables - {f};
        KFree(f);
        SameAgain(s, t, View());
      }
      RestNone(tables, p);
    }

    /** freeproc and the uvmfree under it: p's memory goes back to the allocator. */
    method FreeProc(p: nat)
      requires Ok() && Settled(View()) && p in size
      modifies this, refCount
      ensures Ok() && Settled(View()) && Abs(View()) == Abs(old(View())) - {p} && unchanged(`orphans)
      ensures nodes == old(nodes) - {User(p), Kern(p)} && tables == old(Rest(p)) && Rest(p) == old(Rest(p))
      ensures size == old(size) - {p} && pagetable == Without(old(pagetable), p, 0, PageCount(old(size)[p]))
    {
      hide Inv, SameContents, Cut, Without, Abs, PageCount, PageAt, Rooted, TablesWithout;
      ghost var s := View();
      UvmUnmapKernel(p, 0, PageCount(size[p]));
      KernelLeavesFree(s, kpagetable);
      UvmUnmap(p, 0, PageCount(size[p]));
      ghost var t := View();
      FreeTables(p);
      ghost var u := View();
      AllCut(s, t, u, p);
      RestTwice(old(tables), p);
      TablesGone(nodes, size, p);
      nodes := nodes - {User(p), Kern(p)};
      size := size - {p};
      GoneKeeps(u, p);
      GoneAbs(s, u, p);
    }

    /** sys_sbrk: growth only changes the size, shrinking unmaps at once. */
    method Sbrk(p: nat, n: int) returns (out: Out)
      requires Ok() && Settled(View()) && p in size
      modifies this, refCount
      ensures Ok() && Settled(View()) && unchanged(`orphans, `nodes, `tables)
      ensures Fewer(old(pagetable), pagetable)
      ensures Step(Abs(old(View())), old(|freelist|), Op.Sbrk(p, n), out, Abs(View()))
    {
      hide Inv, SameContents, Cut, Without, PageCount, PageAt, PagesOf, Resized, Rooted;
      ghost var s := View();
      SizeBound(s, p);
      TouchedSelf(pagetable, p);
      var oldsz := size[p];
      if n >= 0 {
        if oldsz + n >= MAXUVA {
          return Failed;
        }
        RootedWith(nodes, size, p, oldsz + n);
        size := size[p := oldsz + n];
        GrownKeeps(s, p, oldsz + n);
      } else {
        if -n > oldsz {
          return Failed;
        }
        var newsz := oldsz + n;
        UvmDealloc(p, oldsz, newsz);
        FewerWithout(s.pt, p, PageCount(newsz), PageCount(oldsz));
        RootedWith(nodes, size, p, newsz);
        size := size[p := newsz];
        ShrunkKeeps(s, View().(sz := s.sz), p, newsz);
      }
      out := Done([]);
    }

    method UvmDealloc(p: nat, oldsz: nat, newsz: nat)
      requires Ok() && hand == {} && owed == {} && newsz <= oldsz
      modifies this, refCount
      ensures Ok() && unchanged(`size, `tables, `nodes, `hand, `owed, `orphans)
      ensures pagetable == Without(old(pagetable), p, PageCount(newsz), PageCount(oldsz))
      ensures kpagetable == Without(old(kpagetable), p, PageCount(newsz), PageCount(oldsz))
      ensures Cut(old(View()).(kpt := kpagetable), View(), p, PageCount(newsz), PageCount(oldsz))
    {
      hide Inv, Cut, Without, Rooted;
      ghost var s := View();
      CutNothing(s, p, PageCount(newsz));
      if PageCount(newsz) < PageCount(oldsz) {
        UvmUnmapKernel(p, PageCount(newsz), PageCount(oldsz));
        KernelLeavesFree(s, kpagetable);
        UvmUnmap(p, PageCount(newsz), PageCount(oldsz));
      }
    }

    /** uvmcopy on a leaf of the parent, whatever its flags: write-protected. */
    method ShieldLeaf(k: Slot)
      requires k in pagetable
      modifies `pagetable
      ensures pagetable == old(pagetable)[k := Shielded(old(pagetable)[k])]
    {
      if pagetable[k].w {
        pagetable := pagetable[k := Guarded(pagetable[k])];
      }
    }

    /** ... and stored in the child's table with the user bit, not counted yet. */
    method StoreForChild(p: nat, c: nat, v: nat)
      requires Slot(p, v) in pagetable
      modifies `pagetable, `owed
      ensures pagetable == old(pagetable)[Slot(c, v) := old(pagetable)[Slot(p, v)].(u := true)]
      ensures owed == old(owed) + {old(pagetable)[Slot(p, v)].frame}
    {
      pagetable := pagetable[Slot(c, v) := pagetable[Slot(p, v)].(u := true)];
      owed := owed + {pagetable[Slot(p, v)].frame};
    }

    /** The leaves after both: see GuardPageOpened for what a leaf without the user bit comes to. */
    method CopyLeaf(p: nat, c: nat, v: nat)
      requires Slot(p, v) in pagetable && p != c
      modifies `pagetable, `owed
      ensures pagetable == WithChild(old(pagetable), p, c, v)
    {
      ShieldLeaf(Slot(p, v));
      StoreForChild(p, c, v);
    }

    /** One iteration of uvmcopy: share page v of p with c, write-protecting it on both sides. */
    method CopyPage(p: nat, c: nat, v: nat, ghost s0: State) returns (r: CopyResult)
      requires Ok() && Settled(View()) && p != c && p in size && c in size && size[c] == size[p]
      requires v < PageCount(size[p]) && HalfForked(s0, View(), p, c, v)
      modifies this, refCount
      ensures npage == |freelist| && unchanged(`size, `hand, `orphans) && Rest(c) == old(Rest(c))
      ensures r.NoTable? <==> Slot(p, v) in old(pagetable) && old(|freelist|) < Missing(old(nodes), User(c), v)
      ensures r.Corrupt? <==>
        Slot(p, v) in old(pagetable) &&
          Missing(old(nodes), User(c), v) <= old(|freelist|) < LazyCost(old(nodes), c, v) - 1
      ensures r.Copied? ==> Ok() && Settled(View()) && HalfForked(s0, View(), p, c, v + 1)
      ensures r.Copied? && Slot(p, v) !in old(pagetable) ==> unchanged(`pagetable, `nodes, `freelist)
      ensures r.Copied? && Slot(p, v) in old(pagetable) ==>
        nodes == LazyNodes(old(nodes), c, v) && |freelist| == old(|freelist|) - (LazyCost(old(nodes), c, v) - 1)
      ensures r.NoTable? ==> Ok() && Settled(View()) && HalfForked(s0, View(), p, c, v)
      ensures r.NoTable? ==> pagetable == old(pagetable)[Slot(p, v) := Shielded(old(pagetable)[Slot(p, v)])]
      ensures r.Corrupt? ==> Ok() && HalfForked(s0, View(), p, c, v + 1)
      ensures r.Corrupt? ==> owed == {r.pa} && r.pa == old(pagetable)[Slot(p, v)].frame && IsShared(p, c, v, r.pa)
      ensures !r.NoTable? && Slot(p, v) in old(pagetable) ==> pagetable == WithChild(old(pagetable), p, c, v)
    {
      hide Inv, SameContents, HalfForked, PageCount, Rooted, Missing, Grown;
      var k := Slot(p, v);
      if k !in pagetable {
        HoleForked(s0, View(), p, c, v);
        return Copied;
      }
      ghost var s := View();
      QuietSelf(s);
      var pa := pagetable[k].frame;
      ShieldedSame(s, k);
      ShieldLeaf(k);
      ghost var t := View();
      HalfForkedKept(s0, s, t, p, c, v);
      LeafGuarded(t, k);
      LazyNodesApart(nodes, c, v);
      var ok := Walk(User(c), v);
      HalfForkedKept(s0, t, View(), p, c, v);
      if !ok {
        return NoTable;
      }
      r := ShareWithChild(p, c, v, s0);
    }

    ghost predicate IsShared(p: nat, c: nat, v: nat, pa: nat)
      reads this
    {
      && Slot(p, v) in pagetable && pagetable[Slot(p, v)].frame == pa
      && Slot(c, v) in pagetable && pagetable[Slot(c, v)].frame == pa
    }

    /** Map the write-protected page v of p into the child's two tables, then count it. */
    method ShareWithChild(p: nat, c: nat, v: nat, ghost s0: State) returns (r: CopyResult)
      requires Ok() && Settled(View()) && p != c && p in size && c in size && size[c] == size[p]
      requires v < PageCount(size[p]) && HalfForked(s0, View(), p, c, v)
      requires Slot(p, v) in pagetable && !pagetable[Slot(p, v)].w
      modifies this, refCount
      ensures Ok() && HalfForked(s0, View(), p, c, v + 1) && unchanged(`size, `hand, `orphans) && !r.NoTable?
      ensures Rest(c) == old(Rest(c))
      ensures pagetable == old(pagetable)[Slot(c, v) := old(pagetable)[Slot(p, v)].(u := true)]
      ensures r.Copied? <==> old(|freelist|) >= Missing(old(nodes), Kern(c), v)
      ensures r.Copied? ==> Settled(View()) && |freelist| == old(|freelist|) - Missing(old(nodes), Kern(c), v)
      ensures r.Copied? ==> nodes == Grown(old(nodes), Kern(c), v)
      ensures r.Corrupt? ==> owed == {r.pa} && r.pa == old(pagetable)[Slot(p, v)].frame && IsShared(p, c, v, r.pa)
    {
      hide Inv, Quiet, SameContents, HalfForked, PageCount, Rooted, Missing, Grown;
      ghost var t := View();
      ShareStep(s0, t, p, c, v);
      var k := Slot(c, v);
      var e := pagetable[Slot(p, v)].(u := true);
      assert k !in pagetable;
      StoreForChild(p, c, v);
      ghost var u := View();
      var ok := Walk(Kern(c), v);
      HalfForkedKept(s0, u, View(), p, c, v + 1);
      if !ok {
        return Corrupt(e.frame);
      }
      ghost var w := View();
      assert k !in kpagetable;
      kpagetable := kpagetable[k := e.frame];
      KernelLeavesFree(w, kpagetable);
      ghost var x := View();
      HalfForkedKept(s0, w, x, p, c, v + 1);
      CountedSame(x, e.frame);
      IncRef(e.frame);
      HalfForkedKept(s0, x, View(), p, c, v + 1);
      r := Copied;
    }

    /** Where uvmcopy stands before page v: the leaves shared so far and the nodes and free pages they took. */
    ghost predicate CopiedUpTo(s0: State, p: nat, c: nat, v: nat)
      reads this, refCount
    {
      && HalfForked(s0, View(), p, c, v) && LeavesForked(s0.pt, pagetable, p, c, v)
      && Has(nodes, User(c)) == Has(nodes, Kern(c)) == Above(s0.pt, p, v)
      && |freelist| == |s0.free| - 2 * |Above(s0.pt, p, v)|
    }

    /** One iteration of uvmcopy in terms of the tables it started from. */
    method CopyNext(p: nat, c: nat, v: nat, ghost s0: State) returns (r: CopyResult)
      requires Ok() && Settled(View()) && p != c && p in size && c in size && size[c] == size[p]
      requires v < PageCount(size[p]) && CopiedUpTo(s0, p, c, v)
      modifies this, refCount
      ensures npage == |freelist| && unchanged(`size, `hand, `orphans) && Rest(c) == old(Rest(c))
      ensures r.Copied? ==> Ok() && Settled(View()) && CopiedUpTo(s0, p, c, v + 1)
      ensures r.NoTable? ==> Ok() && Settled(View()) && HalfForked(s0, View(), p, c, v)
      ensures r.NoTable? ==> UserFails(s0.pt, p, |s0.free|, v)
      ensures r.NoTable? ==> OtherFrames(s0.pt, pagetable, c)
      ensures r.Corrupt? ==> Ok() && KernelFails(s0.pt, p, |s0.free|, v) && r.pa == s0.pt[Slot(p, v)].frame
      ensures r.Corrupt? ==> owed == {r.pa} && IsShared(p, c, v, r.pa)
      ensures r.Corrupt? ==> HalfForked(s0, View(), p, c, v + 1) && LeavesForked(s0.pt, pagetable, p, c, v + 1)
    {
      hide Inv, SameContents, HalfForked, LeavesForked, PageCount, Rooted, Above, Extra, Path, Grown, Has, Missing,
        OtherFrames;
      ghost var pt := pagetable;
      NotYetShared(s0, View(), p, c, v);
      LeavesAt(s0.pt, pt, p, c, v);
      CopyCost(s0.pt, nodes, p, c, v);
      r := CopyPage(p, c, v, s0);
      if Slot(p, v) !in pt {
        LeavesHole(s0.pt, pt, p, c, v);
      } else {
        LeavesShared(s0.pt, pt, p, c, v);
        FramesKept(s0.pt, pt, p, c, v);
        FramesShielded(s0.pt, pt, c, Slot(p, v));
      }
    }

    /**
     uvmcopy.  A failure in the child's user table is undone completely.  A failure in its kernel
     table is not: vmunmap gives back a reference to the page that was never counted.
     */
    method UvmCopy(p: nat, c: nat) returns (r: CopyResult)
      requires Ok() && Settled(View()) && p != c && p in size && c in size && size[c] == size[p]
      requires (forall k :: k in pagetable ==> k.pid != c) && Has(nodes, User(c)) == {} == Has(nodes, Kern(c))
      modifies this, refCount
      ensures npage == |freelist| && unchanged(`size, `hand, `orphans) && Rest(c) == old(Rest(c))
      ensures r.Copied? <==> old(|freelist|) >= 2 * |Above(old(pagetable), p, PageCount(size[p]))|
      ensures r.Copied? ==> Ok() && Settled(View()) && CopiedUpTo(old(View()), p, c, PageCount(size[p]))
      ensures r.NoTable? ==> Ok() && Settled(View()) && SameContents(old(View()), View())
      ensures r.NoTable? ==> FramesLeft(old(pagetable), pagetable, c)
      ensures !r.Copied? ==> forall k :: k in pagetable ==> k.pid != c
      ensures r.Corrupt? <==> CopyBreaks(old(pagetable), p, PageCount(size[p]), old(|freelist|))
      ensures r.Corrupt? ==> Spoiled(old(View()), View(), c, r.pa)
    {
      hide Inv, SameContents, HalfForked, PageCount, Cut, Without, Spoiled, CopiedUpTo, UserFails, KernelFails, Above,
        Rooted;
      ghost var s0 := View();
      var n := PageCount(size[p]);
      CopyStarts(p, c);
      var v := 0;
      while v < n
        invariant v <= n && Ok() && Settled(View()) && unchanged(`size, `hand, `orphans)
        invariant CopiedUpTo(s0, p, c, v) && Rest(c) == old(Rest(c))
      {
        r := CopyNext(p, c, v, s0);
        if r.NoTable? {
          OnlyUserFails(s0.pt, p, |s0.free|, v, n);
          UndoAll(p, c, v, s0);
          return;
        }
        if r.Corrupt? {
          FailsShort(s0.pt, p, |s0.free|, v, n);
          Undo(p, c, v, r.pa, s0);
          return;
        }
        v := v + 1;
      }
      CopyFits(p, c, n, s0);
      r := Copied;
    }

    lemma CopyStarts(p: nat, c: nat)
      requires Ok() && p in size && c in size && p != c
      requires (forall k :: k in pagetable ==> k.pid != c) && Has(nodes, User(c)) == {} == Has(nodes, Kern(c))
      ensures CopiedUpTo(View(), p, c, 0)
    {
      hide Inv, HalfForked, LeavesForked, Rooted;
      ForkStart(View(), p, c);
      LeavesStart(pagetable, p, c);
    }

    lemma CopyFits(p: nat, c: nat, n: nat, s0: State)
      requires CopiedUpTo(s0, p, c, n)
      ensures |s0.free| >= 2 * |Above(s0.pt, p, n)|
      ensures !CopyBreaks(s0.pt, p, n, |s0.free|)
    {
      hide HalfForked, LeavesForked, Above, KernelFails;
      forall v: nat | v < n ensures !KernelFails(s0.pt, p, |s0.free|, v) {
        if KernelFails(s0.pt, p, |s0.free|, v) {
          FailsShort(s0.pt, p, |s0.free|, v, n);
        }
      }
    }

    /** The error path of uvmcopy when page v found no room in the child's user table. */
    method UndoAll(p: nat, c: nat, v: nat, ghost s0: State)
      requires Ok() && Settled(View()) && p != c && c in size && v <= PageCount(size[c])
      requires HalfForked(s0, View(), p, c, v) && (forall k :: k in s0.pt ==> k.pid != c)
      requires OtherFrames(s0.pt, pagetable, c)
      modifies this, refCount
      ensures Ok() && Settled(View()) && SameContents(s0, View()) && unchanged(`size, `hand, `orphans, `tables)
      ensures FramesLeft(s0.pt, pagetable, c)
      ensures forall k :: k in pagetable ==> k.pid != c
    {
      hide Inv, SameContents, HalfForked, PageCount, Cut, Without, Rooted;
      var n := PageCount(size[c]);
      ghost var s := View();
      BeyondSize(s, c);
      FramesCut(s0.pt, s.pt, c, n);
      UvmUnmap(c, 0, n);
      ghost var t := View();
      UvmUnmapKernel(c, 0, n);
      KernelLeavesFree(t, kpagetable);
      CutIgnoresKernel(s, t, kpagetable, c, n);
      CopyUndone(s0, s, View(), p, c, v, n);
    }

    /** The error path of uvmcopy once the second mappages of page v has failed. */
    method Undo(p: nat, c: nat, v: nat, pa: nat, ghost s0: State)
      requires Ok() && hand == {} && owed == {pa} && p != c && IsShared(p, c, v, pa)
      requires HalfForked(s0, View(), p, c, v + 1) && LeavesForked(s0.pt, pagetable, p, c, v + 1)
      requires forall k :: k in s0.pt ==> k.pid != c
      modifies this, refCount
      ensures npage == |freelist| && unchanged(`size, `hand, `orphans, `nodes, `tables)
      ensures Spoiled(s0, View(), c, pa) && forall k :: k in pagetable ==> k.pid != c
    {
      hide Inv, Cut, Without, Released, Unmapped, UnderCounted, HalfForked, LeavesForked, Rooted, Spoiled, SpoiledView,
        FramesLeft;
      ghost var s := View();
      OwedAtOnePage(View(), c, v);
      WithoutElsewhere(pagetable, c, v, Slot(p, v));
      WithoutElsewhere(pagetable, c, v, Slot(c, v));
      UvmUnmap(c, 0, v);
      ghost var t := View();
      UncountedRelease(t, Slot(c, v), Slot(p, v));
      UncountedRest(t, Slot(c, v), Slot(p, v));
      UncountedSeen(t, Slot(c, v));
      SpoiledSince(s0, s, t, p, c, v);
      LeavesGone(s0, s, p, c, v);
      UnmapPage(Slot(c, v));
      ghost var u := View();
      UvmUnmapKernel(c, 0, v);
      owed := {};
      SpoiledNow(s0, u, View(), c, pa);
      FramesLeftOthers(s0.pt, pagetable, c);
    }

    /** Free pages a fault on page k of its process takes: the copy, or the page and its nodes. */
    ghost function FaultCost(k: Slot): (n: nat)
      reads this
      ensures n <= TOUCH_PAGES
    {
      if k in pagetable then 1 else LazyCost(nodes, k.pid, k.vpn)
    }

    /** Free pages it takes to make page k accessible. */
    ghost function TouchCost(k: Slot, store: bool): (n: nat)
      reads this
      ensures n <= TOUCH_PAGES
    {
      if Permits(pagetable, k, store) then 0 else FaultCost(k)
    }

    /** Only a store to a copy-on-write page can lose a page. */
    ghost function OrphansAfterTouch(k: Slot, store: bool): (r: set<nat>)
      reads this, refCount
      ensures orphans <= r && (!store ==> r == orphans)
    {
      if store && k in pagetable && pagetable[k].cow && freelist != [] then OrphansAfterCow(k) else orphans
    }

    ghost predicate OtherLeaves(k: Slot, before: Leaves)
      reads this
    {
      pagetable - {k} == before - {k}
    }

    /** The page-fault arm of usertrap for page v of p; false means the process is killed. */
    method PageFault(p: nat, v: nat, store: bool) returns (ok: bool)
      requires Ok() && Settled(View()) && p in size && !Permits(pagetable, Slot(p, v), store)
      modifies this, refCount
      ensures Ok() && Settled(View()) && SameContents(old(View()), View())
      ensures unchanged(`size) && Rest(p) == old(Rest(p))
      ensures ok <==> v < PageCount(size[p]) && old(|freelist|) >= old(FaultCost(Slot(p, v)))
      ensures ok ==> Permits(pagetable, Slot(p, v), store) && OtherLeaves(Slot(p, v), old(pagetable))
      ensures Touched(old(pagetable), pagetable, p)
      ensures ok ==> |freelist| == old(|freelist|) - old(FaultCost(Slot(p, v)))
      ensures orphans == old(OrphansAfterTouch(Slot(p, v), store))
    {
      hide Inv, SameContents, PageCount, Rooted, LazyCost, OrphansAfterCow, Touched;
      var k := Slot(p, v);
      FaultNeverPanics(View(), k, store);
      QuietSelf(View());
      TouchedSelf(pagetable, p);
      BeyondSize(View(), p);
      match FaultFor(pagetable, k, store, size[p], |freelist|)
      case Cow =>
        LeafUser(View(), k);
        ok := CowAlloc(p, v);
      case Kill =>
        ok := false;
      case Lazy =>
        ok := LazyAlloc(p, v);
    }

    /** Make page v of p accessible, taking the fault if there is one. */
    method Touch(p: nat, v: nat, store: bool) returns (ok: bool)
      requires Ok() && Settled(View()) && p in size
      modifies this, refCount
      ensures Ok() && Settled(View()) && SameContents(old(View()), View())
      ensures unchanged(`size) && Rest(p) == old(Rest(p))
      ensures ok <==> v < PageCount(size[p]) && old(|freelist|) >= old(TouchCost(Slot(p, v), store))
      ensures ok ==> Permits(pagetable, Slot(p, v), store) && OtherLeaves(Slot(p, v), old(pagetable))
      ensures Touched(old(pagetable), pagetable, p)
      ensures ok ==> |freelist| == old(|freelist|) - old(TouchCost(Slot(p, v), store))
      ensures orphans == old(OrphansAfterTouch(Slot(p, v), store))
    {
      hide Inv, SameContents, PageCount, Rooted, FaultCost, OrphansAfterCow, Touched;
      QuietSelf(View());
      TouchedSelf(pagetable, p);
      ok := true;
      if !Permits(pagetable, Slot(p, v), store) {
        ok := PageFault(p, v, store);
      } else {
        LeafGuarded(View(), Slot(p, v));
        BeyondSize(View(), p);
      }
    }

    /** A user load; a killed process exits and is reaped. */
    method Load(p: nat, va: nat) returns (out: Out)
      requires Ok() && Settled(View()) && p in size
      modifies this, refCount
      ensures Ok() && Settled(View()) && unchanged(`orphans) && Rest(p) == old(Rest(p))
      ensures FetchBy(old(pagetable), Op.Load(p, va), pagetable)
      ensures Step(Abs(old(View())), old(|freelist|), Op.Load(p, va), out, Abs(View()))
      ensures out == Killed <==>
        va / PGSIZE >= PageCount(old(size)[p]) || old(|freelist|) < old(TouchCost(Slot(p, va / PGSIZE), false))
    {
      hide Inv, SameContents, PageCount, PageAt, PagesOf, Rooted, TouchCost, Touched, FetchBy, Fewer, Without;
      var ok := Touch(p, va / PGSIZE, false);
      SameAbs(old(View()), View());
      PagesInAll(old(View()), p);
      if !ok {
        ghost var pt := pagetable;
        FreeProc(p);
        FewerWithout(pt, p, 0, PageCount(old(size)[p]));
        TouchedLaw(old(pagetable), pt, pagetable, Op.Load(p, va));
        return Killed;
      }
      TouchedSelf(pagetable, p);
      TouchedLaw(old(pagetable), pagetable, pagetable, Op.Load(p, va));
      SeenByte(View(), p, va);
      out := Done([mem[pagetable[Slot(p, va / PGSIZE)].frame][va % PGSIZE]]);
    }

    method Store(p: nat, va: nat, b: Byte) returns (out: Out)
      requires Ok() && Settled(View()) && p in size
      modifies this, refCount
      ensures Ok() && Settled(View()) && orphans == old(OrphansAfterTouch(Slot(p, va / PGSIZE), true))
      ensures Rest(p) == old(Rest(p))
      ensures FetchBy(old(pagetable), Op.Store(p, va, b), pagetable)
      ensures Step(Abs(old(View())), old(|freelist|), Op.Store(p, va, b), out, Abs(View()))
      ensures out == Killed <==>
        va / PGSIZE >= PageCount(old(size)[p]) || old(|freelist|) < old(TouchCost(Slot(p, va / PGSIZE), true))
      ensures out != Killed ==> size == old(size) && OtherLeaves(Slot(p, va / PGSIZE), old(pagetable))
      ensures out != Killed ==> Permits(pagetable, Slot(p, va / PGSIZE), true)
      ensures out != Killed ==> |freelist| == old(|freelist|) - old(TouchCost(Slot(p, va / PGSIZE), true))
    {
      hide Inv, SameContents, PageCount, PageAt, PagesOf, Splice, Rooted, TouchCost, OrphansAfterTouch, Touched,
        FetchBy, Fewer, Without;
      var ok := Touch(p, va / PGSIZE, true);
      SameAbs(old(View()), View());
      PagesInAll(old(View()), p);
      if !ok {
        ghost var pt := pagetable;
        FreeProc(p);
        FewerWithout(pt, p, 0, PageCount(old(size)[p]));
        TouchedLaw(old(pagetable), pt, pagetable, Op.Store(p, va, b));
        return Killed;
      }
      TouchedSelf(pagetable, p);
      TouchedLaw(old(pagetable), pagetable, pagetable, Op.Store(p, va, b));
      SeenByte(View(), p, va);
      WriteWithin(p, va, [b]);
      out := Done([]);
    }

    /** memmove of src to address a, which lies within one writable page of p. */
    method WriteWithin(p: nat, a: nat, src: seq<Byte>)
      requires Ok() && Settled(View()) && p in size && src != []
      requires Slot(p, a / PGSIZE) in pagetable && pagetable[Slot(p, a / PGSIZE)].w
      requires a % PGSIZE + |src| <= PGSIZE
      modifies this, refCount
      ensures Ok() && Settled(View()) && unchanged(`size, `pagetable, `freelist, `tables, `nodes, `orphans)
      ensures Abs(View()) == Abs(old(View()))[p := Proc(size[p], Splice(ProcOf(old(View()), p).pages, a, src))]
    {
      hide Inv, PageCount, PagesOf, Abs, Splice;
      ghost var s := View();
      var k := Slot(p, a / PGSIZE);
      LeafInRam(s, k);
      BeyondSize(s, p);
      var f := pagetable[k].frame;
      var page := PageWith(mem[f], k.vpn * PGSIZE, a, src);
      mem := mem[f := page];
      WrittenPage(s, k, page);
      assert k.vpn * PGSIZE + a % PGSIZE == a;
      WrittenAbs(s, View(), k, page, a, src);
    }

    /** What copyin and copyout do for one page before moving bytes. */
    method Resolve(p: nat, v: nat, store: bool) returns (ok: bool)
      requires Ok() && Settled(View()) && p in size
      modifies this, refCount
      ensures Ok() && Settled(View()) && SameContents(old(View()), View())
      ensures unchanged(`size) && Rest(p) == old(Rest(p))
      ensures ok <==> v < PageCount(size[p]) && old(|freelist|) >= old(TouchCost(Slot(p, v), store))
      ensures ok ==> Permits(pagetable, Slot(p, v), store)
      ensures Touched(old(pagetable), pagetable, p)
      ensures ok ==> |freelist| == old(|freelist|) - old(TouchCost(Slot(p, v), store))
      ensures orphans == old(OrphansAfterTouch(Slot(p, v), store))
    {
      hide Inv, SameContents, PageCount, Rooted, LazyCost, OrphansAfterCow, Touched;
      var k := Slot(p, v);
      QuietSelf(View());
      TouchedSelf(pagetable, p);
      PageInSize(View(), k);
      if k in pagetable {
        LeafUser(View(), k);
        LeafGuarded(View(), k);
        BeyondSize(View(), p);
      }
      if store && k in pagetable && pagetable[k].cow {
        ok := CowAlloc(p, v);
      } else if k in pagetable {
        ok := true;
      } else if v * PGSIZE < size[p] && v * PGSIZE < MAXUVA {
        ok := LazyAlloc(p, v);
      } else {
        ok := false;
      }
    }

    /** copyin2: len bytes of p's memory from va. */
    method CopyIn(p: nat, va: nat, len: nat) returns (out: Out)
      requires Ok() && Settled(View()) && p in size
      modifies this, refCount
      ensures Ok() && Settled(View()) && unchanged(`orphans) && Rest(p) == old(Rest(p))
      ensures Touched(old(pagetable), pagetable, p)
      ensures Step(Abs(old(View())), old(|freelist|), Op.CopyIn(p, va, len), out, Abs(View()))
    {
      hide Inv, SameContents, PageCount, PageAt, PagesOf, Bytes, Chunk, Spanned, Rooted, TouchCost, OrphansAfterTouch,
        Touched;
      ghost var a := Abs(View());
      ghost var pages := a[p].pages;
      PagesInAll(View(), p);
      var dst: seq<Byte> := [];
      var done := 0;
      BytesOfNothing(pages, va);
      TouchedSelf(pagetable, p);
      while done < len
        invariant 0 <= done <= len && Ok() && Settled(View()) && p in size && Abs(View()) == a
        invariant done == 0 || (va + done - 1) / PGSIZE < |pages|
        invariant dst == Bytes(pages, va, done) && size[p] == old(size)[p]
        invariant Touched(old(pagetable), pagetable, p)
        invariant unchanged(`orphans) && Rest(p) == old(Rest(p))
        invariant done < len ==> |freelist| >= old(|freelist|) - 5 * ((va + done) / PGSIZE - va / PGSIZE)
      {
        var at := va + done;
        ghost var s := View();
        InSpan(va, done, len);
        var ok := Resolve(p, at / PGSIZE, false);
        TouchedTwice(old(pagetable), s.pt, pagetable, p);
        SameAbs(s, View());
        if !ok {
          return Failed;
        }
        var n := Chunk(at, len - done);
        ChunkEnds(at, len - done);
        SeenPage(View(), p, at / PGSIZE);
        BytesWithin(pages, at, n);
        BytesJoin(pages, va, done, n);
        dst := dst + mem[pagetable[Slot(p, at / PGSIZE)].frame][at % PGSIZE..at % PGSIZE + n];
        done := done + n;
      }
      out := Done(dst);
    }

    /** One turn of copyout2: src goes to address a, within one page. */
    method PutChunk(p: nat, a: nat, src: seq<Byte>) returns (ok: bool)
      requires Ok() && Settled(View()) && p in size && src != [] && a % PGSIZE + |src| <= PGSIZE
      modifies this, refCount
      ensures Ok() && Settled(View()) && unchanged(`size) && old(orphans) <= orphans && Rest(p) == old(Rest(p))
      ensures ok <==> a / PGSIZE < PageCount(size[p]) && old(|freelist|) >= old(TouchCost(Slot(p, a / PGSIZE), true))
      ensures Touched(old(pagetable), pagetable, p)
      ensures ok ==> |freelist| == old(|freelist|) - old(TouchCost(Slot(p, a / PGSIZE), true))
      ensures ok ==> Abs(View()) == Abs(old(View()))[p := Proc(size[p], Splice(ProcOf(old(View()), p).pages, a, src))]
      ensures !ok ==> Abs(View()) == Abs(old(View()))
    {
      hide Inv, SameContents, PageCount, PageAt, PagesOf, Splice, Rooted, TouchCost, OrphansAfterTouch, TablesWithout,
        Touched;
      ok := Resolve(p, a / PGSIZE, true);
      SameAbs(old(View()), View());
      if ok {
        WriteWithin(p, a, src);
      }
    }

    /** copyout2: src written to p's memory at va; a failure may leave a prefix written. */
    method CopyOut(p: nat, va: nat, src: seq<Byte>) returns (out: Out)
      requires Ok() && Settled(View()) && p in size
      modifies this, refCount
      ensures Ok() && Settled(View()) && old(orphans) <= orphans && Rest(p) == old(Rest(p))
      ensures Touched(old(pagetable), pagetable, p)
      ensures Step(Abs(old(View())), old(|freelist|), Op.CopyOut(p, va, src), out, Abs(View()))
    {
      hide Inv, SameContents, PageCount, PageAt, PagesOf, Splice, Chunk, Spanned, Rooted, TouchCost, OrphansAfterTouch,
        Zeros, InRange, TablesWithout, Touched, Step;
      ghost var a := Abs(View());
      ghost var m := a[p];
      TouchedSelf(pagetable, p);
      if va >= size[p] || va + |src| > size[p] {
        PutRefused(a, |freelist|, p, va, src);
        return Failed;
      }
      var done := 0;
      SpliceNothing(m.pages, va);
      while done < |src|
        invariant 0 <= done <= |src| && Ok() && Settled(View()) && p in size && size[p] == m.sz
        invariant old(orphans) <= orphans && Touched(old(pagetable), pagetable, p)
        invariant Abs(View()) == a[p := m.(pages := Splice(m.pages, va, src[..done]))] && Rest(p) == old(Rest(p))
        invariant done < |src| ==> |freelist| >= old(|freelist|) - 5 * ((va + done) / PGSIZE - va / PGSIZE)
      {
        var at := va + done;
        ghost var s := View();
        InSpan(va, done, |src|);
        PageBelow(at, size[p]);
        var n := Chunk(at, |src| - done);
        ChunkEnds(at, |src| - done);
        var ok := PutChunk(p, at, src[done..done + n]);
        TouchedTwice(old(pagetable), s.pt, pagetable, p);
        if !ok {
          PutTorn(a, old(|freelist|), p, va, src, done);
          return Failed;
        }
        PutMore(a, p, va, src, done, n, Abs(s), Abs(View()));
        done := done + n;
      }
      assert src[..done] == src;
      PutWhole(a, old(|freelist|), p, va, src);
      out := Done([]);
    }

    /** n pages for the tables and the trapframe of p, one after the other. */
    method TakePages(p: nat, n: nat) returns (ok: bool)
      requires Ok() && p in size
      modifies this, refCount
      ensures Ok() && Quiet(old(View()), View()) && SameContents(old(View()), View()) && Rest(p) == old(Rest(p))
      ensures unchanged(`pagetable, `kpagetable, `size, `nodes, `hand, `owed, `orphans)
      ensures ok <==> old(|freelist|) >= n
      ensures ok ==> |freelist| == old(|freelist|) - n
    {
      hide Inv, SameContents, Quiet, Rooted, TablesWithout;
      ghost var s := View();
      QuietSelf(s);
      var i := 0;
      while i < n
        invariant Ok() && unchanged(`pagetable, `kpagetable, `size, `nodes, `hand, `owed, `orphans)
        invariant Quiet(s, View()) && SameContents(s, View()) && Rest(p) == old(Rest(p))
        invariant i <= n && |freelist| == old(|freelist|) - i
      {
        ghost var t := View();
        ok := AddTable(p);
        QuietAgain(s, t, View());
        if !ok {
          return;
        }
        i := i + 1;
      }
      ok := true;
    }

    /**
     proc_kpagetable: the root, the kernel stack, and the two nodes of its mapping.  When the mapping
     fails, kvmfree finds no leaf for the stack, and the page is lost.
     */
    method KernelTable(c: nat) returns (ok: bool, ghost lost: Option<nat>)
      requires Ok() && Settled(View()) && c in size
      modifies this, refCount
      ensures Ok() && Settled(View()) && SameContents(old(View()), View())
      ensures unchanged(`pagetable, `kpagetable, `size, `nodes, `hand, `owed, `orphans)
      ensures ok <==> old(|freelist|) >= 4
      ensures ok ==> |freelist| == old(|freelist|) - 4
      ensures lost.Some? <==> 2 <= old(|freelist|) < 4
      ensures lost.None? ==> Rest(c) == old(Rest(c))
      ensures lost.Some? ==> lost.value !in old(Rest(c)) && Rest(c) == old(Rest(c))[lost.value := Nobody]
    {
      hide Inv, SameContents, Quiet, Rooted, TablesWithout, Refs;
      lost := None;
      ghost var s := View();
      ok := TakePages(c, 1);
      if !ok {
        return;
      }
      ghost var t := View();
      FreeInRange(t);
      var r := KAlloc();
      if r.None? {
        return false, None;
      }
      HeadUntabled(t);
      TakenSame(t);
      ghost var u := View();
      SameAgain(s, t, u);
      ok := MapStack(c, r.value);
      SameAgain(s, u, View());
      lost := if ok then None else Some(r.value);
    }

    /** The mapping of the kernel stack, whose page is in hand. */
    method MapStack(c: nat, pstack: nat) returns (ok: bool)
      requires Ok() && c in size && hand == {pstack} && owed == {} && Mirror(View())
      requires pstack in ram && Refs(pagetable, pstack) == {} && pstack !in tables
      modifies this, refCount
      ensures Ok() && Settled(View()) && SameContents(old(View()), View())
      ensures unchanged(`pagetable, `kpagetable, `size, `nodes, `owed, `orphans)
      ensures ok <==> old(|freelist|) >= 2
      ensures ok ==> |freelist| == old(|freelist|) - 2 && Rest(c) == old(Rest(c))
      ensures !ok ==> pstack !in old(Rest(c)) && Rest(c) == old(Rest(c))[pstack := Nobody]
    {
      hide Inv, SameContents, Quiet, Rooted, TablesWithout, Stowed, Refs;
      ghost var s := View();
      RestLacks(tables, pstack, c);
      ok := TakePages(c, 2);
      ghost var h := if ok then Of(c) else Nobody;
      ghost var w := View();
      StowedSame(w, pstack, h);
      StowedIs(w, pstack, h);
      SameAgain(s, w, Stowed(w, pstack, h));
      if ok {
        RestAdded(tables, pstack, c);
        tables := tables[pstack := Of(c)];
      } else {
        RestLost(tables, pstack, c);
        tables := tables[pstack := Nobody];
      }
      hand := hand - {pstack};
    }

    /**
     allocproc: the trapframe, the root of the user table and the two nodes of the trampoline, then the
     kernel table and stack, for the new process c.
     */
    method NewProc(c: nat, z: nat) returns (ok: bool)
      requires Ok() && Settled(View()) && c !in size && z < MAXUVA
      modifies this, refCount
      ensures Ok() && Settled(View()) && unchanged(`orphans, `pagetable)
      ensures ok <==> old(|freelist|) >= PROC_PAGES
      ensures ok ==> size == old(size)[c := z] && unchanged(`nodes) && (forall k :: k in pagetable ==> k.pid != c)
      ensures ok ==> Has(nodes, User(c)) == {} == Has(nodes, Kern(c)) && Rest(c) == old(tables)
      ensures ok ==> SameContents(WithSize(old(View()), c, z), View()) && |freelist| == old(|freelist|) - PROC_PAGES
      ensures !ok ==> Abs(View()) == Abs(old(View())) && size == old(size)
      ensures !ok && !LosesStack(old(|freelist|)) ==> tables == old(tables) && |freelist| == old(|freelist|)
      ensures !ok && LosesStack(old(|freelist|)) ==>
        |freelist| == old(|freelist|) - 1 && exists f: nat :: f !in old(tables) && tables == old(tables)[f := Nobody]
    {
      hide Inv, SameContents, Quiet, PageCount, Abs, Rooted, Has, TablesWithout;
      ghost var s := View();
      EnteredKeeps(s, c, z);
      RootedAgain(nodes, size, c);
      RootedWith(nodes, size, c, z);
      RestAll(s, c);
      size := size[c := z];
      ghost var s1 := View();
      ok := TakePages(c, 4);
      ghost var s2 := View();
      ghost var lost := None;
      if ok {
        ok, lost := KernelTable(c);
        SameAgain(s1, s2, View());
      }
      if !ok {
        GiveUp(c, z, s, lost);
      }
    }

    /** freeproc on a process that never got its memory. */
    method GiveUp(c: nat, z: nat, ghost s: State, ghost lost: Option<nat>)
      requires Ok() && Settled(View()) && Inv(s) && s.hand == {} && c !in s.sz && size == s.sz[c := z]
      requires (forall k :: k in pagetable ==> k.pid != c) && s.pt == pagetable && s.ram == ram && s.orphans == orphans
      requires SameContents(WithSize(s, c, z), View()) && (lost.Some? ==> lost.value !in s.tables)
      requires Rest(c) == if lost.Some? then s.tables[lost.value := Nobody] else s.tables
      modifies this, refCount
      ensures Ok() && Settled(View()) && Abs(View()) == Abs(s) && size == s.sz && unchanged(`pagetable, `orphans)
      ensures tables == old(Rest(c)) && |freelist| == |s.free| - One(lost.Some?)
    {
      hide Inv, SameContents, PageCount, Abs, Rooted, TablesWithout, MappedFrames;
      ForkUndone(s, View(), c, z);
      WithoutNone(pagetable, c, 0, PageCount(z));
      FreeProc(c);
      SupplyFollows(s, View(), lost);
    }

    /** Pages a fork of p takes: those of allocproc, and the nodes above p's pages once in each table. */
    ghost function ForkCost(p: nat): nat
      reads this
      requires p in size
    {
      PROC_PAGES + 2 * |Above(pagetable, p, PageCount(size[p]))|
    }

    /** The memory part of fork.  `corrupt` reports the undercounting failure of uvmcopy. */
    method Fork(p: nat, c: nat) returns (out: Out, corrupt: bool)
      requires Ok() && Settled(View()) && p in size
      modifies this, refCount
      ensures corrupt <==> Breaks(old(View()), Op.Fork(p, c))
      ensures out == Done([]) <==> c !in old(size) && |old(size)| < 50 && old(|freelist|) >= old(ForkCost(p))
      ensures !corrupt ==> Ok() && Settled(View())
      ensures !corrupt ==> Step(Abs(old(View())), old(|freelist|), Op.Fork(p, c), out, Abs(View()))
      ensures corrupt ==> out == Failed && !Inv(View()) && exists f :: Spoiled(old(View()), View(), c, f)
      ensures out == Done([]) ==> size == old(size)[c := old(size)[p]]
      ensures out == Done([]) ==> |freelist| == old(|freelist|) - old(ForkCost(p))
      ensures out == Done([]) ==> LeavesForked(old(pagetable), pagetable, p, c, PageCount(old(size)[p]))
      ensures out != Done([]) && !corrupt ==>
        |freelist| == old(|freelist|) - One(Loses(old(View()), Op.Fork(p, c))) && size == old(size)
      ensures !corrupt ==> FetchBy(old(pagetable), Op.Fork(p, c), pagetable)
      ensures unchanged(`orphans) && LostBy(old(View()), Op.Fork(p, c), View())
    {
      hide Inv, SameContents, PageCount, Abs, HalfForked, LeavesForked, Spoiled, Above, Rooted, CopyBreaks, Has,
        LostPages, TablesWithout, FramesLeft, MappedFrames;
      corrupt := false;
      ghost var s := View();
      AbsKeys(s);
      SameForked(s.pt, p, c);
      if c in size || |size| >= NPROC {
        return Failed, false;
      }
      SizeBound(s, p);
      RestAll(s, c);
      AboveBound(pagetable, p, PageCount(size[p]));
      var ok := NewProc(c, size[p]);
      if !ok {
        LostOneMore(s.tables, tables, LosesStack(|s.free|));
        return Failed, false;
      }
      out, corrupt := CopyTo(p, c, s);
      if out == Done([]) {
        ForkedLaw(s, pagetable, p, c, PageCount(s.sz[p]));
      } else if !corrupt {
        UnforkedLaw(s.pt, pagetable, p, c);
      }
      RestSameLost(s.tables, tables, c);
    }

    /** The copy of p's memory to the new process c, and giving c up when it fails. */
    method CopyTo(p: nat, c: nat, ghost s: State) returns (out: Out, corrupt: bool)
      requires Ok() && Settled(View()) && p in size && p != c && c in size && size[c] == size[p]
      requires (forall k :: k in pagetable ==> k.pid != c) && Has(nodes, User(c)) == {} == Has(nodes, Kern(c))
      requires Inv(s) && s.hand == {} && p in s.sz && c !in s.sz && SameContents(WithSize(s, c, s.sz[p]), View())
      requires s.ram == ram && s.orphans == orphans && s.pt == pagetable
      requires s.tables == Rest(c) && size == s.sz[c := s.sz[p]]
      modifies this, refCount
      ensures corrupt <==> CopyBreaks(old(pagetable), p, PageCount(s.sz[p]), old(|freelist|))
      ensures out == Done([]) <==> old(|freelist|) >= 2 * |Above(old(pagetable), p, PageCount(s.sz[p]))|
      ensures !corrupt ==> Ok() && Settled(View())
      ensures out == Done([]) ==> Abs(View()) == Abs(s)[c := Abs(s)[p]] && unchanged(`size)
      ensures out == Done([]) ==> |freelist| == old(|freelist|) - 2 * |Above(old(pagetable), p, PageCount(s.sz[p]))|
      ensures out == Done([]) ==> LeavesForked(old(pagetable), pagetable, p, c, PageCount(s.sz[p]))
      ensures out != Done([]) ==> out == Failed
      ensures out == Failed && !corrupt ==> Abs(View()) == Abs(s) && |freelist| == |s.free| && size == s.sz
      ensures corrupt ==> out == Failed && !Inv(View()) && exists f :: Spoiled(s, View(), c, f)
      ensures out == Failed && !corrupt ==> FramesLeft(s.pt, pagetable, c)
      ensures unchanged(`orphans) && Rest(c) == old(Rest(c))
    {
      hide Inv, SameContents, PageCount, Abs, HalfForked, LeavesForked, Spoiled, Above, Rooted, CopyBreaks, Has,
        TablesWithout, FramesLeft, MappedFrames;
      corrupt := false;
      ghost var u := View();
      NewSame(s, u, c);
      var r := UvmCopy(p, c);
      match r
      case Copied =>
        ForkedAbs(s, u, View(), p, c);
        out := Done([]);
      case NoTable =>
        SameAgain(WithSize(s, c, s.sz[p]), u, View());
        ForkUndone(s, View(), c, s.sz[p]);
        FramesSame(u.pt, pagetable, c);
        WithoutNone(pagetable, c, 0, PageCount(size[c]));
        FreeProc(c);
        SupplyFollows(s, View(), None);
        out := Failed;
      case Corrupt(pa) =>
        SpoiledBroken(View(), u, c, pa);
        SpoiledBefore(s, u, View(), c, pa);
        out, corrupt := Failed, true;
    }

    /** userinit: the first process, with one executable page holding `code`. */
    method UserInit(p: nat, code: seq<Byte>) returns (ok: bool)
      requires Ok() && Settled(View()) && size == map[] && 0 < |code| < PGSIZE
      modifies this, refCount
      ensures ok <==> old(|freelist|) >= PROC_PAGES + TOUCH_PAGES
      ensures ok ==> Ok() && Settled(View()) && Abs(View()) == map[p := Proc(PGSIZE, Splice(Zeros(1), 0, code))]
      ensures ok ==> size == map[p := PGSIZE] && IsMapped(Slot(p, 0), map[], true) && unchanged(`orphans)
      ensures ok ==> |freelist| == old(|freelist|) - PROC_PAGES - TOUCH_PAGES
      ensures ok ==> LostPages(tables) == old(LostPages(tables))
    {
      hide Inv, SameContents, PageCount, PageAt, Splice, Abs, Rooted, Missing, LazyNodes, TablesWithout, LostPages;
      ghost var s := View();
      RestAll(s, p);
      NoLeaves(s);
      ok := NewProc(p, PGSIZE);
      if ok {
        ghost var t := View();
        OnePage();
        NothingYet(nodes, User(p), 0);
        NothingYet(nodes, Kern(p), 0);
        assert Slot(p, 0) !in pagetable;
        ok := LazyAlloc(p, 0, true);
        if ok {
          SameAbs(t, View());
          FreshProc(s, t, View(), p);
          RestSameLost(s.tables, tables, p);
          WriteWithin(p, 0, code);
        }
      }
    }

    /** Perform one operation; calls by processes that do not exist change nothing. */
    method Perform(op: Op) returns (out: Out, corrupt: bool)
      requires Ok() && Settled(View())
      modifies this, refCount
      ensures !corrupt ==> Ok() && Settled(View()) && Step(Abs(old(View())), old(|freelist|), op, out, Abs(View()))
      ensures corrupt <==> Breaks(old(View()), op)
      ensures corrupt ==> op.Fork? && !Inv(View()) && exists f :: Spoiled(old(View()), View(), op.child, f)
      ensures LostBy(old(View()), op, View())
      ensures !corrupt ==> FetchBy(old(pagetable), op, pagetable)
    {
      hide Inv, Abs, Spoiled, Rooted, CopyBreaks, LostPages, TablesWithout, FetchBy, Touched, Fewer, PageCount;
      AbsKeys(View());
      corrupt := false;
      ghost var pt := pagetable;
      TouchedSelf(pt, op.p);
      if op.Fork? {
        SameForked(pt, op.p, op.child);
      } else {
        TouchedLaw(pt, pt, pt, op);
      }
      if op.p !in size {
        return Failed, false;
      }
      match op {
        case Fork(p, c) => out, corrupt := Fork(p, c);
        case Load(p, va) => out := Load(p, va);
        case Store(p, va, b) => out := Store(p, va, b);
        case Sbrk(p, n) =>
          out := Sbrk(p, n);
          TouchedLaw(pt, pt, pagetable, op);
        case CopyIn(p, va, len) =>
          out := CopyIn(p, va, len);
          TouchedSelf(pagetable, p);
          TouchedLaw(pt, pagetable, pagetable, op);
        case CopyOut(p, va, src) =>
          out := CopyOut(p, va, src);
          TouchedSelf(pagetable, p);
          TouchedLaw(pt, pagetable, pagetable, op);
        case Exit(p) =>
          FreeProc(p);
          FewerWithout(pt, p, 0, PageCount(old(size)[p]));
          TouchedLaw(pt, pt, pagetable, op);
          out := Done([]);
      }
      if !op.Fork? {
        RestSameLost(old(tables), tables, op.p);
      }
    }

    /** Before each call of a run the kernel is as `views` says: all in order, and a stack lost now and then. */
    static ghost predicate Seen(ops: seq<Op>, outs: seq<Out>, frees: seq<nat>, states: seq<Memory>, views: seq<State>) {
      && |outs| <= |ops| && |frees| == |outs| && |states| == |views| == |outs| + 1
      && (forall i :: 0 <= i <= |outs| ==> Settled(views[i]) && states[i] == Abs(views[i]))
      && (forall i :: 0 <= i < |outs| ==> frees[i] == |views[i].free| && !Breaks(views[i], ops[i]))
      && (forall i :: 0 <= i < |outs| ==> LostBy(views[i], ops[i], views[i + 1]))
      && (forall i :: 0 <= i < |outs| ==> FetchBy(views[i].pt, ops[i], views[i + 1].pt))
    }

    /**
     Any run of any operations refines the private-memory machine, up to exactly the first fork whose
     copy fails in the child's kernel table.
     */
    method Run(ops: seq<Op>) returns (outs: seq<Out>, ghost frees: seq<nat>, ghost states: seq<Memory>,
                                      ghost views: seq<State>, corrupt: bool)
      requires Ok() && Settled(View())
      modifies this, refCount
      ensures Seen(ops, outs, frees, states, views) && views[0] == old(View())
      ensures Trace(ops[..|outs|], frees, outs, states)
      ensures !corrupt ==> |outs| == |ops| && Ok() && Settled(View()) && views[|outs|] == View()
      ensures corrupt ==> |outs| < |ops| && Breaks(views[|outs|], ops[|outs|]) && !Inv(View())
    {
      hide Inv, Abs, Step, Spoiled, Rooted, Breaks, LostBy, FetchBy;
      outs, frees, states, views, corrupt := [], [], [Abs(View())], [View()], false;
      while |outs| < |ops|
        invariant Ok() && Settled(View()) && Seen(ops, outs, frees, states, views)
        invariant views[0] == old(View()) && views[|outs|] == View() && Trace(ops[..|outs|], frees, outs, states)
      {
        var i := |outs|;
        var out;
        out, corrupt := Perform(ops[i]);
        if corrupt {
          return;
        }
        outs, frees := outs + [out], frees + [|views[i].free|];
        states, views := states + [Abs(View())], views + [View()];
        assert ops[..i + 1] == ops[..i] + [ops[i]];
        assert Step(states[i], frees[i], ops[i], outs[i], states[i + 1]);
      }
    }
  }

  // ---------------------------------------------------------------- two short runs

  /** The first process, with one page in one frame. */
  method Booted(pages: nat) returns (k: Kernel, ghost f: nat)
    requires pages >= PROC_PAGES + TOUCH_PAGES
    ensures fresh(k) && fresh(k.refCount) && k.Ok() && Settled(k.View()) && k.orphans == {}
    ensures k.size == map[1 := PGSIZE] && k.pagetable == map[Slot(1, 0) := Pte(f, true, false, true, true)]
    ensures |k.freelist| == pages - PROC_PAGES - TOUCH_PAGES && LostPages(k.tables) == {}
  {
    hide Inv, Abs, Rooted, Splice;
    k := new Kernel(pages, 0, pages);
    var ok := k.UserInit(1, [0]);
    f := k.pagetable[Slot(1, 0)].frame;
  }

  lemma OneNodePair(pt: Leaves)
    requires Slot(1, 0) in pt
    ensures |Above(pt, 1, PageCount(PGSIZE))| == 2 && |Above(pt, 1, 0)| == 0 && Extra(pt, 1, 0) == 2
  {
    OnePage();
    PathSize(0);
    assert Path(0) - {} == Path(0) == {} + Path(0);
    assert Above(pt, 1, 1) == Above(pt, 1, 0) + Path(0);
  }

  /**
   A fork with ten pages free: allocproc takes eight, the child's user table the two nodes it needs,
   and the kernel table gets none.  The parent's page is then free while the parent maps it.
   */
  method ForkCorrupts() returns (k: Kernel, corrupt: bool)
    ensures corrupt && !Inv(k.View()) && Slot(1, 0) in k.pagetable && k.pagetable[Slot(1, 0)].frame in k.freelist
    ensures PageAt(k.pagetable, k.mem, 1, 0) == Fill(1)
  {
    hide Inv, Abs, Rooted, Splice, Step, Spoiled, LeavesForked, Above, Extra;
    ghost var f;
    k, f := Booted(PROC_PAGES + TOUCH_PAGES + PROC_PAGES + 2);
    OnePage();
    OneNodePair(k.pagetable);
    assert KernelFails(k.pagetable, 1, 2, 0);
    var out;
    ghost var s := k.View();
    out, corrupt := k.Fork(1, 2);
    ghost var g :| Spoiled(s, k.View(), 2, g);
    OnlySpoiled(s, k.View(), f, g);
  }

  /** A fork with six pages free: allocproc gets as far as the kernel stack, and one page is nobody's from then on. */
  method StackLost() returns (k: Kernel)
    ensures k.Ok() && Settled(k.View()) && |LostPages(k.tables)| == 1 && |k.freelist| == 5 && k.orphans == {}
    ensures k.size == map[1 := PGSIZE]
    ensures forall f :: f in LostPages(k.tables) ==>
      f < k.refCount.Length && k.refCount[f] == 1 && Refs(k.pagetable, f) == {} && f !in k.freelist
  {
    hide Inv, Abs, Rooted, Splice, Step, Spoiled, LeavesForked, Above, Extra, CopyBreaks, LostPages;
    ghost var f;
    k, f := Booted(PROC_PAGES + TOUCH_PAGES + 6);
    var out, corrupt := k.Fork(1, 2);
    forall f | f in LostPages(k.tables)
      ensures f < k.refCount.Length && k.refCount[f] == 1 && Refs(k.pagetable, f) == {} && f !in k.freelist
    {
      LostCounted(k.View(), f);
    }
  }

  /** Parent and child share the one page. */
  method Twins() returns (k: Kernel, ghost f: nat)
    ensures fresh(k) && fresh(k.refCount) && k.Ok() && Settled(k.View()) && k.orphans == {} && |k.freelist| >= 2
    ensures k.size == map[1 := PGSIZE, 2 := PGSIZE] && f < k.refCount.Length && k.refCount[f] == 2
    ensures k.pagetable ==
      map[Slot(1, 0) := Pte(f, false, true, true, true), Slot(2, 0) := Pte(f, false, true, true, true)]
  {
    hide Inv, Abs, Rooted, Splice, Step, Spoiled, LeavesForked, Above, Extra;
    k, f := Booted(PROC_PAGES + TOUCH_PAGES + PROC_PAGES + 4 + 2);
    OnePage();
    OneNodePair(k.pagetable);
    var out, corrupt := k.Fork(1, 2);
    SharedByTwo(k.View(), f);
  }

  /** Parent and child each write to the page they share: the second copy leaves the original behind. */
  method StoresStrand(b: Byte) returns (k: Kernel)
    ensures k.Ok() && Settled(k.View()) && |k.orphans| == 1
    ensures forall f :: f in k.orphans ==> f !in k.freelist && Refs(k.pagetable, f) == {}
  {
    hide Inv, Mirror, Abs, Rooted, Step, LeavesForked, PageCount, CountsAgree, LazyCost;
    ghost var f;
    k, f := Twins();
    OnePage();
    var first := k.Store(1, 0, b);
    assert k.pagetable - {Slot(1, 0)} == map[Slot(2, 0) := Pte(f, false, true, true, true)];
    LeftToOne(k.View(), f);
    var second := k.Store(2, 0, b);
    assert k.orphans == {f};
    OrphanIdle(k.View());
  }
}
