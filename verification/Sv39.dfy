/**
 The three-level Sv39 radix tree (section 4.4 of the RISC-V Privileged Architecture, version 1.12)
 as kernel/vm.c builds it: walk, mappages, uvmunmap and freewalk over 512-entry table pages.

 The ghost map `dirs` names the table page at every path of the tree.  Everything is proved about
 `At`, the entry the tree gives for a virtual page number.
 */
module Sv39 {
  import opened Common
  import opened Paging
  import T = TableNodes

  const ENTRIES: nat := 512
  const MAXVA: nat := 0x40_0000_0000

  // ---------------------------------------------------------------- entries (kernel/include/riscv.h)

  function PA2PTE(pa: nat): nat { pa / 4096 * 1024 }
  function PTE2PA(pte: nat): nat { pte / 1024 * 4096 }
  function Flags(pte: nat): nat { pte % 1024 }
  predicate Valid(pte: nat) { pte % 2 == 1 }
  /** Some of PTE_R, PTE_W and PTE_X is set. */
  predicate IsLeaf(pte: nat) { pte / 2 % 8 != 0 }

  /** PA2PTE(pa) | perm | PTE_V for permission bits below bit 10 that leave PTE_V clear. */
  function Leaf(pa: nat, perm: nat): nat
    requires perm < 1024 && perm % 2 == 0
  {
    PA2PTE(pa) + perm + 1
  }

  function Link(pa: nat): nat { PA2PTE(pa) + 1 }

  /** Packing and unpacking an entry are inverse on page-aligned addresses. */
  lemma PackedEntry(pa: nat, perm: nat)
    requires pa % PGSIZE == 0 && perm < 1024 && perm % 2 == 0
    ensures PTE2PA(Leaf(pa, perm)) == pa && Flags(Leaf(pa, perm)) == perm + 1 && Valid(Leaf(pa, perm))
    ensures IsLeaf(Leaf(pa, perm)) <==> perm / 2 % 8 != 0
  {
    var q := pa / 4096;
    assert pa == q * 4096;
    assert PA2PTE(pa) == q * 1024;
    assert (q * 1024 + perm + 1) / 1024 == q;
    assert (q * 1024 + perm + 1) / 2 == q * 512 + perm / 2;
  }

  lemma PackedLink(pa: nat)
    requires pa % PGSIZE == 0
    ensures PTE2PA(Link(pa)) == pa && Valid(Link(pa)) && Flags(Link(pa)) == 1 && !IsLeaf(Link(pa))
  {
    PackedEntry(pa, 0);
  }

  /** Entries with the same frame and flags are the same entry. */
  lemma PackingInjective(pa: nat, perm: nat, pa': nat, perm': nat)
    requires pa % PGSIZE == 0 && perm < 1024 && perm % 2 == 0
    requires pa' % PGSIZE == 0 && perm' < 1024 && perm' % 2 == 0
    requires Leaf(pa, perm) == Leaf(pa', perm')
    ensures pa == pa' && perm == perm'
  {
    PackedEntry(pa, perm);
    PackedEntry(pa', perm');
  }

  // ---------------------------------------------------------------- indices

  /** PX(level, va): nine bits of the address from bit 12 + 9 * level. */
  function PX(level: nat, va: nat): nat
    requires level < 3
  {
    var shift := if level == 0 then 0x1000 else if level == 1 then 0x20_0000 else 0x4000_0000;
    va / shift % ENTRIES
  }

  /** The three indices of a page address determine it, and are what the levels use. */
  lemma IndexSplit(va: nat)
    requires va < MAXVA
    ensures PX(2, va) < 256 && PX(1, va) < ENTRIES && PX(0, va) < ENTRIES
    ensures va / PGSIZE == (PX(2, va) * ENTRIES + PX(1, va)) * ENTRIES + PX(0, va)
  {
    var v := va / 4096;
    assert va / 0x20_0000 == v / 512;
    assert va / 0x4000_0000 == v / 512 / 512;
    assert v / 512 / 512 < 256;
  }

  lemma IndexInjective(va: nat, vb: nat)
    requires va < MAXVA && vb < MAXVA && va % PGSIZE == 0 && vb % PGSIZE == 0
    requires PX(2, va) == PX(2, vb) && PX(1, va) == PX(1, vb) && PX(0, va) == PX(0, vb)
    ensures va == vb
  {
    IndexSplit(va);
    IndexSplit(vb);
  }

  // ---------------------------------------------------------------- the tree

  datatype Path = Root | Mid(i: nat) | Low(i: nat, j: nat)

  function Child(q: Path, x: nat): Path
    requires !q.Low?
  {
    if q.Root? then Mid(x) else Low(q.i, x)
  }

  function Parent(q: Path): Path { if q.Low? then Mid(q.i) else Root }
  function Index(q: Path): nat { match q case Root => 0 case Mid(i) => i case Low(i, j) => j }

  type Tables = map<nat, seq<nat>>
  type Dirs = map<Path, nat>

  function Zeros(): seq<nat> { seq(ENTRIES, _ => 0) }

  /** The store *pte = e at index x of table page t. */
  function Put(mem: Tables, t: nat, x: nat, e: nat): Tables
    requires t in mem && x < |mem[t]|
  {
    var row: seq<nat> := mem[t][x := e];
    mem[t := row]
  }

  /** Every path names its own page, and a path exists with its prefix. */
  ghost predicate Paths(mem: Tables, dirs: Dirs) {
    && Root in dirs
    && (forall q :: q in dirs ==> dirs[q] in mem && |mem[dirs[q]]| == ENTRIES && dirs[q] % PGSIZE == 0)
    && (forall q :: q in dirs ==> Parent(q) in dirs && Index(q) < ENTRIES)
    && (forall q, r :: q in dirs && r in dirs && dirs[q] == dirs[r] ==> q == r)
  }

  /** An inner entry is valid exactly when its child path exists, and then it links to it. */
  ghost predicate Linked(mem: Tables, dirs: Dirs)
    requires Paths(mem, dirs)
  {
    forall q, x :: q in dirs && !q.Low? && 0 <= x < ENTRIES ==>
      (Valid(mem[dirs[q]][x]) <==> Child(q, x) in dirs)
      && (Child(q, x) in dirs ==> mem[dirs[q]][x] == Link(dirs[Child(q, x)]))
  }

  /** Valid entries of the lowest tables are leaves. */
  ghost predicate LeavesBelow(mem: Tables, dirs: Dirs)
    requires Paths(mem, dirs)
  {
    forall q, x :: q in dirs && q.Low? && 0 <= x < ENTRIES && Valid(mem[dirs[q]][x]) ==> IsLeaf(mem[dirs[q]][x])
  }

  ghost predicate Tree(mem: Tables, dirs: Dirs) {
    Paths(mem, dirs) && Linked(mem, dirs) && LeavesBelow(mem, dirs)
  }

  function LowPath(v: nat): Path { Low(v / ENTRIES / ENTRIES, v / ENTRIES % ENTRIES) }

  /** The map the tree stands for: the entry of virtual page v, or 0 when there is none. */
  ghost function At(mem: Tables, dirs: Dirs, v: nat): nat {
    var q := LowPath(v);
    if q in dirs && dirs[q] in mem && |mem[dirs[q]]| == ENTRIES && Valid(mem[dirs[q]][v % ENTRIES])
    then mem[dirs[q]][v % ENTRIES] else 0
  }

  /** Linking a zeroed page below an invalid inner entry keeps the tree and every translation. */
  lemma NodeAdded(mem: Tables, dirs: Dirs, q: Path, x: nat, n: nat)
    requires Tree(mem, dirs) && q in dirs && !q.Low? && x < ENTRIES && Child(q, x) !in dirs
    requires n % PGSIZE == 0 && (forall r :: r in dirs ==> dirs[r] != n)
    ensures var mem' := Put(mem[n := Zeros()], dirs[q], x, Link(n));
      var dirs' := dirs[Child(q, x) := n];
      Tree(mem', dirs') && forall v :: At(mem', dirs', v) == At(mem, dirs, v)
  {
    PackedLink(n);
    NodeAddedPaths(mem, dirs, q, x, n);
    NodeAddedAt(mem, dirs, q, x, n);
    hide At, Link, IsLeaf;
    var mem' := Put(mem[n := Zeros()], dirs[q], x, Link(n));
    var dirs' := dirs[Child(q, x) := n];
    forall r, y | r in dirs' && !r.Low? && 0 <= y < ENTRIES
      ensures (Valid(mem'[dirs'[r]][y]) <==> Child(r, y) in dirs')
        && (Child(r, y) in dirs' ==> mem'[dirs'[r]][y] == Link(dirs'[Child(r, y)]))
    {
      if r == Child(q, x) {
        assert Parent(Child(r, y)) == r;
      } else {
        assert Child(r, y) == Child(q, x) ==> r == q && y == x;
      }
    }
  }

  lemma NodeAddedPaths(mem: Tables, dirs: Dirs, q: Path, x: nat, n: nat)
    requires Tree(mem, dirs) && q in dirs && !q.Low? && x < ENTRIES && Child(q, x) !in dirs
    requires n % PGSIZE == 0 && (forall r :: r in dirs ==> dirs[r] != n)
    ensures Paths(Put(mem[n := Zeros()], dirs[q], x, Link(n)), dirs[Child(q, x) := n])
  {
    hide Linked, LeavesBelow, Link;
  }

  lemma NodeAddedAt(mem: Tables, dirs: Dirs, q: Path, x: nat, n: nat)
    requires Tree(mem, dirs) && q in dirs && !q.Low? && x < ENTRIES && Child(q, x) !in dirs
    requires n % PGSIZE == 0 && (forall r :: r in dirs ==> dirs[r] != n)
    ensures var mem' := Put(mem[n := Zeros()], dirs[q], x, Link(n));
      forall v :: At(mem', dirs[Child(q, x) := n], v) == At(mem, dirs, v)
  {
    hide Linked, LeavesBelow, Link;
  }

  /** Storing a leaf, or clearing one, changes the translation of one page only. */
  lemma EntryStored(mem: Tables, dirs: Dirs, v: nat, e: nat)
    requires Tree(mem, dirs) && LowPath(v) in dirs && (Valid(e) ==> IsLeaf(e))
    ensures var t := dirs[LowPath(v)];
      var mem' := Put(mem, t, v % ENTRIES, e);
      && Tree(mem', dirs)
      && forall w: nat :: At(mem', dirs, w) == if w == v then (if Valid(e) then e else 0) else At(mem, dirs, w)
  {
    EntryStoredAt(mem, dirs, v, e);
    hide At, IsLeaf;
  }

  lemma EntryStoredAt(mem: Tables, dirs: Dirs, v: nat, e: nat)
    requires Tree(mem, dirs) && LowPath(v) in dirs
    ensures var t := dirs[LowPath(v)];
      forall w: nat :: At(Put(mem, t, v % ENTRIES, e), dirs, w)
        == if w == v then (if Valid(e) then e else 0) else At(mem, dirs, w)
  {
    hide Linked, LeavesBelow;
    forall w: nat | LowPath(w) == LowPath(v) && w % ENTRIES == v % ENTRIES ensures w == v {
      assert w / ENTRIES == w / ENTRIES / ENTRIES * ENTRIES + w / ENTRIES % ENTRIES;
      assert v / ENTRIES == v / ENTRIES / ENTRIES * ENTRIES + v / ENTRIES % ENTRIES;
    }
  }

  /** The path walk is on before it looks at `level`. */
  function PathAt(level: nat, va: nat): Path
    requires level < 3
  {
    if level == 2 then Root else if level == 1 then Mid(PX(2, va)) else Low(PX(2, va), PX(1, va))
  }

  /** The nodes below the root that a walk has passed when it comes to `level`. */
  function Upper(level: nat, va: nat): set<Path>
    requires level < 3
  {
    if level == 2 then {} else if level == 1 then {PathAt(1, va)} else {PathAt(1, va), PathAt(0, va)}
  }

  lemma UpperNext(level: nat, va: nat, has: set<Path>)
    requires 0 < level < 3
    ensures Upper(level - 1, va) == Upper(level, va) + {PathAt(level - 1, va)}
    ensures PathAt(level - 1, va) !in Upper(level, va)
    ensures |Upper(level - 1, va) - has| == |Upper(level, va) - has| + if PathAt(level - 1, va) in has then 0 else 1
  {
    hide PX;
    var q := PathAt(level - 1, va);
    assert Upper(level - 1, va) == Upper(level, va) + {q};
    OneMore(Upper(level, va), q, has);
  }

  lemma OneMore(a: set<Path>, q: Path, has: set<Path>)
    requires q !in a
    ensures |a + {q} - has| == |a - has| + if q in has then 0 else 1
  {
    assert a + {q} - has == (a - has) + if q in has then {} else {q};
  }

  lemma UpperAll(level: nat, va: nat, has: set<Path>)
    requires level < 2
    ensures Upper(2, va) == {}
    ensures |Upper(level, va) - has| <= |Upper(0, va) - has| && Upper(level, va) <= Upper(0, va)
  {
    hide PX;
    UpperNext(1, va, has);
  }

  /** What a walk has done on its way to `level`: the nodes passed are there, each new one for a page. */
  ghost predicate Passed(dirs0: Dirs, free0: seq<nat>, dirs: Dirs, free: seq<nat>, level: nat, va: nat)
    requires level < 3
  {
    && dirs.Keys == dirs0.Keys + Upper(level, va) && |free| == |free0| - |Upper(level, va) - dirs0.Keys|
    && |free| + |dirs| == |free0| + |dirs0|
    && forall q :: q in dirs0 ==> q in dirs && dirs[q] == dirs0[q]
  }

  /** How many of the nodes a tree lacks. */
  ghost function Lacks(dirs: Dirs, nodes: set<Path>): nat {
    |nodes - dirs.Keys|
  }

  /** The tree has gained exactly those of the nodes that it lacked. */
  ghost predicate Gained(dirs0: Dirs, dirs: Dirs, nodes: set<Path>) {
    dirs.Keys == dirs0.Keys + nodes && forall q :: q in dirs0 ==> q in dirs && dirs[q] == dirs0[q]
  }

  lemma PassedNone(dirs: Dirs, free: seq<nat>, va: nat)
    ensures Passed(dirs, free, dirs, free, 2, va)
  {
  }

  lemma PassedOn(dirs0: Dirs, free0: seq<nat>, dirs: Dirs, free: seq<nat>, level: nat, va: nat)
    requires 0 < level < 3 && Passed(dirs0, free0, dirs, free, level, va) && PathAt(level - 1, va) in dirs
    ensures Passed(dirs0, free0, dirs, free, level - 1, va)
  {
    hide PX, Upper, PathAt;
    UpperNext(level, va, dirs0.Keys);
  }

  lemma PassedNew(dirs0: Dirs, free0: seq<nat>, dirs: Dirs, free: seq<nat>, level: nat, va: nat, n: nat)
    requires 0 < level < 3 && Passed(dirs0, free0, dirs, free, level, va)
    requires PathAt(level - 1, va) !in dirs && free != []
    ensures Passed(dirs0, free0, dirs[PathAt(level - 1, va) := n], free[1..], level - 1, va)
  {
    hide PX, Upper, PathAt;
    var q := PathAt(level - 1, va);
    UpperOneMore(level, va, dirs0.Keys, dirs.Keys);
    OneKeyMore(dirs, q, n);
  }

  lemma UpperOneMore(level: nat, va: nat, has: set<Path>, keys: set<Path>)
    requires 0 < level < 3 && keys == has + Upper(level, va) && PathAt(level - 1, va) !in keys
    ensures keys + {PathAt(level - 1, va)} == has + Upper(level - 1, va)
    ensures |Upper(level - 1, va) - has| == |Upper(level, va) - has| + 1
  {
    hide PX, Upper, PathAt;
    UpperNext(level, va, has);
  }

  lemma OneKeyMore(dirs: Dirs, q: Path, n: nat)
    requires q !in dirs
    ensures dirs[q := n].Keys == dirs.Keys + {q} && |dirs[q := n]| == |dirs| + 1
    ensures forall r :: r in dirs ==> r in dirs[q := n] && dirs[q := n][r] == dirs[r]
  {
    assert dirs[q := n].Keys == dirs.Keys + {q};
  }

  /** Where the walk meets a missing node without a page left, the whole path takes more than there were. */
  lemma PassedStop(dirs0: Dirs, free0: seq<nat>, dirs: Dirs, free: seq<nat>, level: nat, va: nat)
    requires 0 < level < 3 && Passed(dirs0, free0, dirs, free, level, va) && PathAt(level - 1, va) !in dirs
    ensures dirs.Keys <= dirs0.Keys + Upper(0, va) && Lacks(dirs0, Upper(0, va)) + |free| > |free0|
    ensures |free| + |dirs| == |free0| + |dirs0| && forall q :: q in dirs0 ==> q in dirs && dirs[q] == dirs0[q]
  {
    hide PX, Upper, PathAt;
    UpperShort(level, va, dirs0.Keys, dirs.Keys);
  }

  lemma UpperShort(level: nat, va: nat, has: set<Path>, keys: set<Path>)
    requires 0 < level < 3 && keys == has + Upper(level, va) && PathAt(level - 1, va) !in keys
    ensures keys <= has + Upper(0, va) && |Upper(0, va) - has| > |Upper(level, va) - has|
  {
    hide PX, Upper, PathAt;
    UpperNext(level, va, has);
    UpperAll(level - 1, va, has);
  }

  lemma PassedAll(dirs0: Dirs, free0: seq<nat>, dirs: Dirs, free: seq<nat>, va: nat)
    requires Passed(dirs0, free0, dirs, free, 0, va)
    ensures Gained(dirs0, dirs, Upper(0, va)) && Lacks(dirs0, Upper(0, va)) + |free| == |free0|
    ensures |free| + |dirs| == |free0| + |dirs0| && forall q :: q in dirs0 ==> q in dirs && dirs[q] == dirs0[q]
  {
    hide PX;
  }

  lemma WalkPath(va: nat)
    requires va < MAXVA
    ensures PathAt(0, va) == LowPath(va / PGSIZE) && PX(0, va) == va / PGSIZE % ENTRIES
    ensures PX(2, va) < ENTRIES && PX(1, va) < ENTRIES && PX(0, va) < ENTRIES
    ensures PathAt(1, va) == Child(PathAt(2, va), PX(2, va)) && PathAt(0, va) == Child(PathAt(1, va), PX(1, va))
  {
    IndexSplit(va);
    var h := PX(2, va) * ENTRIES + PX(1, va);
    assert va / PGSIZE / ENTRIES == h;
    assert h / ENTRIES == PX(2, va) && h % ENTRIES == PX(1, va);
  }

  /** A path cannot exist below a missing one. */
  lemma NoPathBelow(mem: Tables, dirs: Dirs, va: nat, level: nat)
    requires Paths(mem, dirs) && va < MAXVA && level < 3 && PathAt(level, va) !in dirs
    ensures LowPath(va / PGSIZE) !in dirs
  {
    WalkPath(va);
    assert Parent(PathAt(0, va)) == PathAt(1, va) && Parent(PathAt(1, va)) == PathAt(2, va);
  }

  lemma ChildLinked(mem: Tables, dirs: Dirs, q: Path, x: nat)
    requires Tree(mem, dirs) && q in dirs && !q.Low? && x < ENTRIES
    ensures Valid(mem[dirs[q]][x]) <==> Child(q, x) in dirs
    ensures Child(q, x) in dirs ==> PTE2PA(mem[dirs[q]][x]) == dirs[Child(q, x)]
  {
    hide LeavesBelow, Link, PTE2PA;
    if Child(q, x) in dirs {
      PackedLink(dirs[Child(q, x)]);
    }
  }

  /** Pages still to be handed out are aligned, distinct, and none of them is in the tree. */
  ghost predicate Spare(free: seq<nat>, dirs: Dirs) {
    && Distinct(free)
    && (forall f :: f in free ==> f % PGSIZE == 0)
    && (forall f, q :: f in free && q in dirs ==> dirs[q] != f)
  }

  lemma SpareTaken(free: seq<nat>, dirs: Dirs, q: Path)
    requires Spare(free, dirs) && free != [] && q !in dirs
    ensures Spare(free[1..], dirs[q := free[0]])
    ensures forall r :: r in dirs ==> dirs[r] != free[0]
    ensures free[0] % PGSIZE == 0
  {
    assert free[0] in free;
    assert forall f :: f in free[1..] ==> f in free;
  }

  // ---------------------------------------------------------------- what the hardware finds

  /** One load of the translation: the entry at nine bits of the address, in the table page at t. */
  ghost function Load(mem: Tables, t: nat, va: nat, unit: nat): nat
    requires unit > 0
  {
    if t in mem && va / unit % 512 < |mem[t]| then mem[t][va / unit % 512] else 0
  }

  /** The translation of an address by three loads from the root on: the leaf entry, 0 for a page fault. */
  ghost function Hardware(mem: Tables, root: nat, va: nat): nat {
    var a := Load(mem, root, va, 0x4000_0000);
    if a % 2 == 0 then 0 else
      var b := Load(mem, a / 1024 * 4096, va, 0x20_0000);
      if b % 2 == 0 then 0 else
        var c := Load(mem, b / 1024 * 4096, va, 0x1000);
        if c % 2 == 0 then 0 else c
  }

  /** The map the tree stands for is the one the hardware sees. */
  lemma HardwareSees(mem: Tables, dirs: Dirs, va: nat)
    requires Tree(mem, dirs) && va < MAXVA
    ensures Root in dirs && Hardware(mem, dirs[Root], va) == At(mem, dirs, va / PGSIZE)
  {
    WalkPath(va);
    IndexSplit(va);
    hide PX, LowPath, Linked, LeavesBelow, Valid, PTE2PA;
    assert Root in dirs;
    LoadedLink(mem, dirs, va, 2);
    if PathAt(1, va) in dirs {
      LoadedLink(mem, dirs, va, 1);
      if PathAt(0, va) in dirs {
        LoadedLeaf(mem, dirs, va);
      } else {
        NoPathBelow(mem, dirs, va, 0);
        EntryAt(mem, dirs, va / PGSIZE);
      }
    } else {
      NoPathBelow(mem, dirs, va, 1);
      EntryAt(mem, dirs, va / PGSIZE);
    }
  }

  function Unit(level: nat): nat
    ensures Unit(level) > 0
  {
    if level == 2 then 0x4000_0000 else if level == 1 then 0x20_0000 else 0x1000
  }

  lemma LoadedLink(mem: Tables, dirs: Dirs, va: nat, level: nat)
    requires Tree(mem, dirs) && va < MAXVA && 0 < level < 3 && PathAt(level, va) in dirs
    ensures var e := Load(mem, dirs[PathAt(level, va)], va, Unit(level));
      && (e % 2 == 1 <==> PathAt(level - 1, va) in dirs)
      && (PathAt(level - 1, va) in dirs ==> e / 1024 * 4096 == dirs[PathAt(level - 1, va)])
  {
    WalkPath(va);
    InTree(mem, dirs, PathAt(level, va));
    ChildLinked(mem, dirs, PathAt(level, va), PX(level, va));
    hide Tree, LowPath;
  }

  lemma LoadedLeaf(mem: Tables, dirs: Dirs, va: nat)
    requires Tree(mem, dirs) && va < MAXVA && PathAt(0, va) in dirs
    ensures var e := Load(mem, dirs[PathAt(0, va)], va, 0x1000);
      At(mem, dirs, va / PGSIZE) == if e % 2 == 0 then 0 else e
  {
    WalkPath(va);
    InTree(mem, dirs, PathAt(0, va));
    EntryAt(mem, dirs, va / PGSIZE);
    hide Tree, LowPath, At;
  }

  datatype Outcome = Mapped | NoMemory | Remap

  class PageTable {
    var mem: Tables
    var free: seq<nat>
    const root: nat
    ghost var dirs: Dirs

    ghost predicate Ok()
      reads this
    {
      Tree(mem, dirs) && dirs[Root] == root && Spare(free, dirs)
    }

    /** uvmcreate: an empty root table maps nothing. */
    constructor (page: nat, spare: seq<nat>)
      requires page % PGSIZE == 0 && page !in spare && Distinct(spare) && (forall f :: f in spare ==> f % PGSIZE == 0)
      ensures Ok() && (forall v :: At(mem, dirs, v) == 0) && dirs == map[Root := page] && free == spare
    {
      root := page;
      mem := map[page := Zeros()];
      free := spare;
      dirs := map[Root := page];
    }

    /** One level of walk that has to allocate: kalloc, memset, link. */
    method Grow(t: nat, x: nat, ghost q: Path) returns (r: Option<nat>)
      requires Ok() && q in dirs && !q.Low? && t == dirs[q] && x < ENTRIES && Child(q, x) !in dirs
      modifies this
      ensures Ok() && (forall v :: At(mem, dirs, v) == old(At(mem, dirs, v)))
      ensures r.None? <==> old(free) == []
      ensures r.None? ==> unchanged(this)
      ensures r.Some? ==> dirs == old(dirs)[Child(q, x) := r.value] && free == old(free)[1..]
    {
      hide Tree, At, Spare;
      if free == [] {
        return None;
      }
      var n := free[0];
      SpareTaken(free, dirs, Child(q, x));
      NodeAdded(mem, dirs, q, x, n);
      InTree(mem, dirs, q);
      free := free[1..];
      mem := mem[n := Zeros()];
      mem := Put(mem, t, x, Link(n));
      dirs := dirs[Child(q, x) := n];
      r := Some(n);
    }

    /** The lowest table and index for va, growing the tree on the way when alloc is set. */
    method Walk(va: nat, alloc: bool) returns (r: Option<(nat, nat)>)
      requires Ok() && va < MAXVA
      modifies this
      ensures Ok() && (forall v :: At(mem, dirs, v) == old(At(mem, dirs, v)))
      ensures r.Some? <==> LowPath(va / PGSIZE) in dirs
      ensures r.Some? ==> r.value == (dirs[LowPath(va / PGSIZE)], va / PGSIZE % ENTRIES)
      ensures !alloc ==> unchanged(this)
      ensures alloc ==> (r.Some? <==> Lacks(old(dirs), Upper(0, va)) <= |old(free)|)
      ensures alloc && r.Some? ==> Gained(old(dirs), dirs, Upper(0, va))
      ensures alloc && r.Some? ==> |free| == |old(free)| - Lacks(old(dirs), Upper(0, va))
      ensures alloc && r.None? ==> free == [] && dirs.Keys <= old(dirs).Keys + Upper(0, va)
      ensures |free| + |dirs| == old(|free| + |dirs|)
      ensures forall q :: q in old(dirs) ==> q in dirs && dirs[q] == old(dirs)[q]
    {
      hide Tree, At, Spare, PX, LowPath, Upper, Passed, Lacks, Gained;
      PassedNone(dirs, free, va);
      WalkPath(va);
      RootIn(mem, dirs);
      var t := root;
      var level := 2;
      while level > 0
        invariant 0 <= level <= 2 && Ok() && PathAt(level, va) in dirs && t == dirs[PathAt(level, va)]
        invariant forall v :: At(mem, dirs, v) == old(At(mem, dirs, v))
        invariant !alloc ==> unchanged(this)
        invariant Passed(old(dirs), old(free), dirs, free, level, va)
      {
        ghost var q := PathAt(level, va);
        var x := PX(level, va);
        InTree(mem, dirs, q);
        ChildLinked(mem, dirs, q, x);
        if Valid(mem[t][x]) {
          t := PTE2PA(mem[t][x]);
          PassedOn(old(dirs), old(free), dirs, free, level, va);
        } else {
          MissingBelow(mem, dirs, va, level - 1);
          PassedStop(old(dirs), old(free), dirs, free, level, va);
          if !alloc {
            return None;
          }
          ghost var was, free0 := dirs, free;
          var g := Grow(t, x, q);
          if g.None? {
            return None;
          }
          t := g.value;
          PassedNew(old(dirs), old(free), was, free0, level, va, t);
        }
        level := level - 1;
      }
      PassedAll(old(dirs), old(free), dirs, free, va);
      r := Some((t, PX(0, va)));
    }

    /**
     mappages: the pages of [va, va+size) go to consecutive frames from pa.  It stops early when a
     table page cannot be had, or (the panic) at a page that is already mapped.
     */
    method MapPages(va: nat, size: nat, pa: nat, perm: nat) returns (r: Outcome, done: nat)
      requires Ok() && 0 < size && va + size <= MAXVA && pa % PGSIZE == 0
      requires perm < 1024 && perm % 2 == 0 && perm / 2 % 8 != 0
      modifies this
      ensures Ok() && done <= PagesSpanned(va, size) && (r == Mapped <==> done == PagesSpanned(va, size))
      ensures var first, n := va / PGSIZE, PagesSpanned(va, size);
        r == Mapped <==>
          old(Unmapped(mem, dirs, first, n)) && Lacks(old(dirs), NodesOver(first, n)) <= |old(free)|
      ensures RunMapped(mem, dirs, old(mem), old(dirs), va / PGSIZE, done, pa, perm)
      ensures r == Remap ==> old(At(mem, dirs, va / PGSIZE + done)) != 0
      ensures r == NoMemory ==> free == [] && old(At(mem, dirs, va / PGSIZE + done)) == 0
      ensures r == NoMemory ==> Lacks(old(dirs), NodesOver(va / PGSIZE, done + 1)) > |old(free)|
      ensures r != NoMemory ==> Gained(old(dirs), dirs, NodesOver(va / PGSIZE, done))
      ensures r != NoMemory ==> |free| + Lacks(old(dirs), NodesOver(va / PGSIZE, done)) == |old(free)|
    {
      hide Tree, At, Spare, Leaf, NodesOver, RunMapped, Upper, Lacks, Gained;
      RunNone(mem, dirs, va / PGSIZE, pa, perm);
      var first := va / PGSIZE;
      var n := (va + size - 1) / PGSIZE - first + 1;
      done := 0;
      while done < n
        invariant 0 <= done <= n && Ok()
        invariant RunMapped(mem, dirs, old(mem), old(dirs), first, done, pa, perm)
        invariant Gained(old(dirs), dirs, NodesOver(first, done))
        invariant |free| + Lacks(old(dirs), NodesOver(first, done)) == |old(free)|
      {
        OverStep(first, done, old(dirs), dirs);
        ghost var mem1, dirs1 := mem, dirs;
        r := MapOne(first + done, pa + done * PGSIZE, perm);
        RunNext(mem, dirs, mem1, dirs1, old(mem), old(dirs), first, done, pa, perm, r);
        OverNext(first, done, old(dirs), dirs1, dirs);
        if r != Mapped {
          OverMore(first, done + 1, n);
          LacksAtLeast(old(dirs), NodesOver(first, done + 1), NodesOver(first, n));
          return;
        }
        done := done + 1;
      }
      AllUnmapped(mem, dirs, old(mem), old(dirs), first, n, pa, perm);
      r := Mapped;
    }

    /** Body of the loop in mappages. */
    method MapOne(v: nat, pa: nat, perm: nat) returns (r: Outcome)
      requires Ok() && v * PGSIZE < MAXVA && pa % PGSIZE == 0 && perm < 1024 && perm % 2 == 0 && perm / 2 % 8 != 0
      modifies this
      ensures Ok()
      ensures r == Mapped ==> old(At(mem, dirs, v)) == 0
      ensures forall w: nat ::
        At(mem, dirs, w) == if r == Mapped && w == v then Leaf(pa, perm) else old(At(mem, dirs, w))
      ensures r == Remap <==> old(At(mem, dirs, v)) != 0
      ensures r == NoMemory <==> Lacks(old(dirs), Upper(0, v * PGSIZE)) > |old(free)|
      ensures r == NoMemory ==> free == []
      ensures r != NoMemory ==> |free| == |old(free)| - Lacks(old(dirs), Upper(0, v * PGSIZE))
      ensures r != NoMemory ==> Gained(old(dirs), dirs, Upper(0, v * PGSIZE))
      ensures r == Remap ==> dirs == old(dirs) && |free| == |old(free)|
    {
      hide Tree, At, Spare, LowPath, Leaf, IsLeaf, Upper, Lacks, Gained;
      assert v * PGSIZE / PGSIZE == v;
      AllThere(mem, dirs, v);
      var w := Walk(v * PGSIZE, true);
      if w.None? {
        return NoMemory;
      }
      InTree(mem, dirs, LowPath(v));
      EntryAt(mem, dirs, v);
      var (t, x) := w.value;
      if Valid(mem[t][x]) {
        GainedNone(old(dirs), dirs, Upper(0, v * PGSIZE));
        return Remap;
      }
      PackedEntry(pa, perm);
      EntryStored(mem, dirs, v, Leaf(pa, perm));
      mem := Put(mem, t, x, Leaf(pa, perm));
      r := Mapped;
    }

    /**
     uvmunmap: pages without a path or a valid entry are skipped, the frames of the others are
     freed in order when asked for, and only the given range changes.
     */
    method Unmap(va: nat, npages: nat, doFree: bool) returns (freed: seq<nat>)
      requires Ok() && va % PGSIZE == 0 && va + npages * PGSIZE <= MAXVA
      modifies this
      ensures Ok() && dirs == old(dirs) && free == old(free)
      ensures forall v: nat ::
        At(mem, dirs, v) == if va / PGSIZE <= v < va / PGSIZE + npages then 0 else old(At(mem, dirs, v))
      ensures freed == if doFree then old(Frames(mem, dirs, va / PGSIZE, npages)) else []
    {
      hide Tree, At, Spare, LowPath, IsLeaf, PTE2PA;
      var first := va / PGSIZE;
      freed := [];
      var i := 0;
      while i < npages
        invariant 0 <= i <= npages && Ok() && dirs == old(dirs) && free == old(free)
        invariant forall v: nat :: At(mem, dirs, v) == if first <= v < first + i then 0 else old(At(mem, dirs, v))
        invariant freed == if doFree then old(Frames(mem, dirs, first, i)) else []
      {
        var v := first + i;
        assert v * PGSIZE / PGSIZE == v;
        var w := Walk(v * PGSIZE, false);
        EntryAt(mem, dirs, v);
        FramesStep(old(mem), old(dirs), first, i);
        if w.Some? {
          var (t, x) := w.value;
          InTree(mem, dirs, LowPath(v));
          if Valid(mem[t][x]) {
            LeafEntry(mem, dirs, v);
            assert Flags(mem[t][x]) != 1;
            if doFree {
              freed := freed + [PTE2PA(mem[t][x])];
            }
            EntryStored(mem, dirs, v, 0);
            mem := Put(mem, t, x, 0);
          }
        }
        i := i + 1;
      }
    }

    /**
     freewalk on the node at path q of a tree without leaves: every table page below q, and q's
     own, is given to kfree exactly once.  Entries are cleared as their subtrees go.
     */
    method FreeWalk(t: nat, ghost q: Path) returns (freed: seq<nat>)
      requires Tree(mem, dirs) && q in dirs && t == dirs[q] && Leafless(mem, dirs)
      modifies this
      ensures Tree(mem, dirs) && Leafless(mem, dirs) && dirs == Pruned(old(dirs), q, ENTRIES) && free == old(free)
      ensures multiset(freed) == multiset(PagesUnder(old(dirs), q))
      ensures t in mem && |mem[t]| == ENTRIES && forall x :: 0 <= x < ENTRIES ==> !Valid(mem[t][x])
      ensures forall f :: f in old(mem) && f !in PagesUnder(old(dirs), q) ==> f in mem && mem[f] == old(mem)[f]
      decreases Height(q)
    {
      hide Tree, Leafless, Pruned, PagesBelow, PagesUnder, PTE2PA, IsLeaf;
      freed := [];
      PrunedNone(dirs, q);
      InTree(mem, dirs, q);
      OwnPage(dirs, q);
      var i := 0;
      while i < ENTRIES
        invariant 0 <= i <= ENTRIES && Tree(mem, dirs) && Leafless(mem, dirs) && free == old(free)
        invariant dirs == Pruned(old(dirs), q, i) && q in dirs && dirs[q] == t && t in mem && |mem[t]| == ENTRIES
        invariant forall x :: 0 <= x < i ==> !Valid(mem[t][x])
        invariant multiset(freed) == multiset(PagesBelow(old(dirs), q, i))
        invariant forall f :: f in old(mem) && f !in PagesUnder(old(dirs), q) ==> f in mem && mem[f] == old(mem)[f]
      {
        PageEntry(mem, dirs, q, i);
        if Valid(mem[t][i]) && !IsLeaf(mem[t][i]) {
          ghost var mem1, dirs1 := mem, dirs;
          ghost var c := Child(q, i);
          PrunedSub(old(dirs), q, i);
          PrunedChild(old(mem), old(dirs), q, i);
          var sub := FreeWalk(PTE2PA(mem[t][i]), c);
          PrunedSelf(dirs1, c, q);
          PrunedAll(mem1, dirs1, c);
          InTree(mem, dirs, q);
          NodeRemoved(mem, dirs, q, i);
          mem := Put(mem, t, i, 0);
          dirs := dirs - {c};
          freed := freed + sub;
        } else {
          PrunedHole(old(mem), old(dirs), mem, dirs, q, i);
        }
        i := i + 1;
      }
      PagesAll(old(mem), old(dirs), q);
      freed := freed + [t];
    }
  }

  function Height(q: Path): nat { if q.Root? then 2 else if q.Mid? then 1 else 0 }

  /** r is q or lies below it. */
  predicate Below(q: Path, r: Path) {
    q == Root || r == q || (q.Mid? && r.Low? && r.i == q.i)
  }

  /** r lies below one of the first n children of q. */
  predicate BelowChild(q: Path, n: nat, r: Path) {
    !q.Low? && r != q && Below(q, r) && (if q.Root? then r != Root && r.i < n else Index(r) < n)
  }

  ghost function PagesUnder(dirs: Dirs, q: Path): set<nat> {
    set r | r in dirs && Below(q, r) :: dirs[r]
  }

  ghost function PagesBelow(dirs: Dirs, q: Path, n: nat): set<nat> {
    set r | r in dirs && BelowChild(q, n, r) :: dirs[r]
  }

  ghost function Pruned(dirs: Dirs, q: Path, n: nat): Dirs {
    map r | r in dirs && !BelowChild(q, n, r) :: dirs[r]
  }

  /** No page is mapped. */
  ghost predicate Leafless(mem: Tables, dirs: Dirs) {
    forall q, x :: q in dirs && q.Low? && 0 <= x < ENTRIES && dirs[q] in mem && x < |mem[dirs[q]]| ==>
      !Valid(mem[dirs[q]][x])
  }

  lemma PrunedNone(dirs: Dirs, q: Path)
    ensures Pruned(dirs, q, 0) == dirs && PagesBelow(dirs, q, 0) == {}
  {
  }

  lemma OwnPage(dirs: Dirs, q: Path)
    requires q in dirs
    ensures dirs[q] in PagesUnder(dirs, q)
  {
  }

  /** Removing the subtree of one more child: the paths that stay and the pages that go. */
  lemma PrunedChild(mem: Tables, dirs: Dirs, q: Path, i: nat)
    requires Tree(mem, dirs) && q in dirs && !q.Low? && i < ENTRIES && Child(q, i) in dirs
    ensures var d := Pruned(dirs, q, i); var c := Child(q, i);
      && Pruned(d, c, ENTRIES) - {c} == Pruned(dirs, q, i + 1)
      && PagesUnder(d, c) == PagesUnder(dirs, c) <= PagesUnder(dirs, q)
      && dirs[q] !in PagesUnder(d, c)
      && PagesBelow(dirs, q, i + 1) == PagesBelow(dirs, q, i) + PagesUnder(d, c)
      && PagesBelow(dirs, q, i) !! PagesUnder(d, c)
  {
    hide Linked, LeavesBelow;
    var d, c := Pruned(dirs, q, i), Child(q, i);
    assert forall r :: r in dirs ==> (BelowChild(q, i + 1, r) <==> BelowChild(q, i, r) || Below(c, r));
    assert forall r :: !(BelowChild(q, i, r) && Below(c, r));
    assert Pruned(d, c, ENTRIES) - {c} == Pruned(dirs, q, i + 1);
    assert PagesUnder(d, c) == PagesUnder(dirs, c);
  }

  lemma PrunedSub(dirs: Dirs, q: Path, i: nat)
    ensures forall r :: r in Pruned(dirs, q, i) ==> r in dirs && Pruned(dirs, q, i)[r] == dirs[r]
  {
  }

  lemma PrunedAll(mem: Tables, dirs: Dirs, c: Path)
    requires Tree(mem, dirs)
    ensures c != Root ==> forall r :: r in Pruned(dirs, c, ENTRIES) && Below(c, r) ==> r == c
  {
    hide Linked, LeavesBelow;
  }

  lemma PrunedSelf(dirs: Dirs, c: Path, q: Path)
    requires q in dirs && c != Root && q == Parent(c) && c in dirs
    ensures q in Pruned(dirs, c, ENTRIES) && Pruned(dirs, c, ENTRIES)[q] == dirs[q]
    ensures c in Pruned(dirs, c, ENTRIES) && Pruned(dirs, c, ENTRIES)[c] == dirs[c]
  {
  }

  /** A missing child changes nothing. */
  lemma PrunedHole(mem0: Tables, dirs0: Dirs, mem: Tables, dirs: Dirs, q: Path, i: nat)
    requires Tree(mem, dirs) && dirs == Pruned(dirs0, q, i) && q in dirs && (q.Low? || Child(q, i) !in dirs)
    ensures Pruned(dirs0, q, i + 1) == dirs && PagesBelow(dirs0, q, i + 1) == PagesBelow(dirs0, q, i)
  {
    hide Linked, LeavesBelow;
    forall r | r in dirs0 && BelowChild(q, i + 1, r) ensures BelowChild(q, i, r) {
      assert BelowChild(q, i, r) || r in dirs;
      assert r in dirs ==> Parent(r) in dirs;
    }
  }

  lemma PagesAll(mem: Tables, dirs: Dirs, q: Path)
    requires Tree(mem, dirs) && q in dirs
    ensures PagesUnder(dirs, q) == PagesBelow(dirs, q, ENTRIES) + {dirs[q]} && dirs[q] !in PagesBelow(dirs, q, ENTRIES)
  {
    hide Linked, LeavesBelow;
    assert forall r :: r in dirs && r != Root ==> r.i < ENTRIES by {
      assert forall r :: r in dirs && r.Low? ==> Parent(r) == Mid(r.i) && Index(Parent(r)) == r.i;
    }
  }

  /** Clearing the link to a child without paths below it takes the child out of the tree. */
  lemma NodeRemoved(mem: Tables, dirs: Dirs, q: Path, x: nat)
    requires Tree(mem, dirs) && Leafless(mem, dirs) && q in dirs && !q.Low? && x < ENTRIES && Child(q, x) in dirs
    requires forall r :: r in dirs && Below(Child(q, x), r) ==> r == Child(q, x)
    ensures dirs[q] in mem && |mem[dirs[q]]| == ENTRIES
    ensures Tree(Put(mem, dirs[q], x, 0), dirs - {Child(q, x)})
    ensures Leafless(Put(mem, dirs[q], x, 0), dirs - {Child(q, x)})
  {
    hide Link, IsLeaf;
  }

  /** An entry freewalk meets is invalid or the link to a child. */
  lemma PageEntry(mem: Tables, dirs: Dirs, q: Path, x: nat)
    requires Tree(mem, dirs) && Leafless(mem, dirs) && q in dirs && x < ENTRIES
    ensures dirs[q] in mem && |mem[dirs[q]]| == ENTRIES
    ensures var e := mem[dirs[q]][x];
      && (Valid(e) ==> !q.Low? && !IsLeaf(e) && Child(q, x) in dirs && PTE2PA(e) == dirs[Child(q, x)])
      && (!Valid(e) && !q.Low? ==> Child(q, x) !in dirs)
  {
    hide LeavesBelow, PTE2PA, IsLeaf, Link;
    if !q.Low? && Child(q, x) in dirs {
      PackedLink(dirs[Child(q, x)]);
    }
  }

  /** Pages first up to first+n are newly mapped to consecutive frames, all others are as before. */
  ghost predicate RunMapped(mem: Tables, dirs: Dirs, mem0: Tables, dirs0: Dirs, first: nat, n: nat, pa: nat, perm: nat)
    requires perm < 1024 && perm % 2 == 0
  {
    forall v: nat ::
      if first <= v < first + n
      then At(mem, dirs, v) == Leaf(pa + (v - first) * PGSIZE, perm) && At(mem0, dirs0, v) == 0
      else At(mem, dirs, v) == At(mem0, dirs0, v)
  }

  lemma RunNone(mem: Tables, dirs: Dirs, first: nat, pa: nat, perm: nat)
    requires perm < 1024 && perm % 2 == 0
    ensures RunMapped(mem, dirs, mem, dirs, first, 0, pa, perm)
    ensures Gained(dirs, dirs, NodesOver(first, 0)) && Lacks(dirs, NodesOver(first, 0)) == 0
  {
  }

  lemma RunNext(mem: Tables, dirs: Dirs, mem1: Tables, dirs1: Dirs, mem0: Tables, dirs0: Dirs,
                first: nat, n: nat, pa: nat, perm: nat, r: Outcome)
    requires perm < 1024 && perm % 2 == 0 && RunMapped(mem1, dirs1, mem0, dirs0, first, n, pa, perm)
    requires r == Mapped ==> At(mem1, dirs1, first + n) == 0
    requires forall w: nat ::
      At(mem, dirs, w) == if r == Mapped && w == first + n then Leaf(pa + n * PGSIZE, perm) else At(mem1, dirs1, w)
    ensures RunMapped(mem, dirs, mem0, dirs0, first, if r == Mapped then n + 1 else n, pa, perm)
    ensures At(mem1, dirs1, first + n) == At(mem0, dirs0, first + n)
  {
    hide At, Leaf;
  }

  ghost predicate Unmapped(mem: Tables, dirs: Dirs, first: nat, n: nat) {
    forall v: nat :: first <= v < first + n ==> At(mem, dirs, v) == 0
  }

  lemma AllUnmapped(mem: Tables, dirs: Dirs, mem0: Tables, dirs0: Dirs, first: nat, n: nat, pa: nat, perm: nat)
    requires perm < 1024 && perm % 2 == 0 && RunMapped(mem, dirs, mem0, dirs0, first, n, pa, perm)
    ensures Unmapped(mem0, dirs0, first, n)
  {
    hide At;
  }

  /** The nodes below the root that lie above the pages first up to first+n. */
  ghost function NodesOver(first: nat, n: nat): set<Path> {
    if n == 0 then {} else NodesOver(first, n - 1) + Upper(0, (first + n - 1) * PGSIZE)
  }

  /** Each page adds what its walk finds missing. */
  lemma OverStep(first: nat, n: nat, dirs0: Dirs, dirs: Dirs)
    requires Gained(dirs0, dirs, NodesOver(first, n))
    ensures Lacks(dirs0, NodesOver(first, n + 1))
      == Lacks(dirs0, NodesOver(first, n)) + Lacks(dirs, Upper(0, (first + n) * PGSIZE))
  {
    hide Upper;
    LacksMore(dirs0.Keys, dirs.Keys, NodesOver(first, n), Upper(0, (first + n) * PGSIZE));
  }

  lemma LacksMore(has: set<Path>, keys: set<Path>, a: set<Path>, u: set<Path>)
    requires keys == has + a
    ensures |a + u - has| == |a - has| + |u - keys|
  {
    assert a + u - has == (a - has) + (u - keys);
    assert (a - has) !! (u - keys);
  }

  lemma OverNext(first: nat, n: nat, dirs0: Dirs, dirs1: Dirs, dirs: Dirs)
    requires Gained(dirs0, dirs1, NodesOver(first, n))
    ensures Gained(dirs1, dirs, Upper(0, (first + n) * PGSIZE)) ==> Gained(dirs0, dirs, NodesOver(first, n + 1))
  {
    hide Upper;
  }

  lemma {:induction false} OverMore(first: nat, k: nat, n: nat)
    requires k <= n
    ensures NodesOver(first, k) <= NodesOver(first, n)
  {
    hide Upper;
    if k < n {
      OverMore(first, k, n - 1);
    }
  }

  lemma LacksAtLeast(dirs: Dirs, a: set<Path>, b: set<Path>)
    requires a <= b
    ensures Lacks(dirs, a) <= Lacks(dirs, b)
  {
    SubsetSize(a - dirs.Keys, b - dirs.Keys);
  }

  lemma GainedNone(dirs0: Dirs, dirs: Dirs, nodes: set<Path>)
    requires Gained(dirs0, dirs, nodes) && Lacks(dirs0, nodes) == 0
    ensures dirs == dirs0
  {
    forall q | q in nodes ensures q in dirs0.Keys {
      assert q !in nodes - dirs0.Keys;
    }
    assert dirs.Keys == dirs0.Keys;
  }

  /** A mapped page has its whole path. */
  lemma AllThere(mem: Tables, dirs: Dirs, v: nat)
    requires Tree(mem, dirs) && v * PGSIZE < MAXVA
    ensures At(mem, dirs, v) != 0 ==> Lacks(dirs, Upper(0, v * PGSIZE)) == 0
  {
    hide Linked, LeavesBelow, PX;
    assert v * PGSIZE / PGSIZE == v;
    WalkPath(v * PGSIZE);
    if LowPath(v) in dirs {
      assert Parent(LowPath(v)) in dirs;
      assert Upper(0, v * PGSIZE) - dirs.Keys == {};
    }
  }

  /** The nodes of a tree, as TableNodes names them. */
  function AsNode(q: Path): T.Node
    requires q != Root
  {
    if q.Mid? then T.Mid(q.i) else T.Low(q.i * ENTRIES + q.j)
  }

  ghost function NodesOf(dirs: Dirs): set<T.Node> {
    set q | q in dirs && q != Root :: AsNode(q)
  }

  lemma NodeIn(mem: Tables, dirs: Dirs, q: Path)
    requires Paths(mem, dirs) && q != Root && Index(q) < ENTRIES
    ensures AsNode(q) in NodesOf(dirs) <==> q in dirs
  {
    if AsNode(q) in NodesOf(dirs) {
      var r :| r in dirs && r != Root && AsNode(r) == AsNode(q);
      assert Index(r) < ENTRIES;
      if q.Low? {
        assert (q.i * ENTRIES + q.j) / ENTRIES == q.i && (r.i * ENTRIES + r.j) / ENTRIES == r.i;
      }
    }
  }

  /** What a walk lacks and adds in the tree is what TableNodes counts and adds. */
  lemma WalkCost(mem: Tables, dirs: Dirs, va: nat, t: T.Table, grown: Dirs)
    requires Paths(mem, dirs) && va < MAXVA && Gained(dirs, grown, Upper(0, va))
    ensures var nodes := map[t := NodesOf(dirs)]; var v := va / PGSIZE;
      && Lacks(dirs, Upper(0, va)) == T.Missing(nodes, t, v)
      && NodesOf(grown) == T.Has(T.Grown(nodes, t, v), t)
  {
    hide PX, Paths, T.Missing, T.Path, NodesOf, PathAt;
    var nodes, v := map[t := NodesOf(dirs)], va / PGSIZE;
    PathNodes(va);
    T.WalkAdds(nodes, t, v);
    NodeIn(mem, dirs, PathAt(1, va));
    NodeIn(mem, dirs, PathAt(0, va));
    UpperCount(va, dirs.Keys);
    NodesGained(dirs, grown, va);
  }

  lemma UpperCount(va: nat, has: set<Path>)
    ensures |Upper(0, va) - has| == (if PathAt(1, va) in has then 0 else 1) + (if PathAt(0, va) in has then 0 else 1)
  {
    hide PX;
    UpperNext(1, va, has);
    UpperNext(2, va, has);
  }

  lemma NodesGained(dirs: Dirs, grown: Dirs, va: nat)
    requires grown.Keys == dirs.Keys + Upper(0, va) && va < MAXVA
    ensures NodesOf(grown) == NodesOf(dirs) + T.Path(va / PGSIZE)
  {
    PathNodes(va);
    hide PX;
    forall n ensures n in NodesOf(grown) <==> n in NodesOf(dirs) || n in T.Path(va / PGSIZE) {
      if n in T.Path(va / PGSIZE) {
        var q := if n.Mid? then PathAt(1, va) else PathAt(0, va);
        assert q in grown && AsNode(q) == n;
      }
    }
  }

  lemma PathNodes(va: nat)
    requires va < MAXVA
    ensures PathAt(1, va) != Root && AsNode(PathAt(1, va)) == T.Mid(va / PGSIZE / 512 / 512)
    ensures PathAt(0, va) != Root && AsNode(PathAt(0, va)) == T.Low(va / PGSIZE / 512)
    ensures Index(PathAt(1, va)) < ENTRIES && Index(PathAt(0, va)) < ENTRIES
  {
    IndexSplit(va);
    var h := PX(2, va) * ENTRIES + PX(1, va);
    assert va / PGSIZE / ENTRIES == h;
    assert h / ENTRIES == PX(2, va);
  }

  /** Number of pages that [va, va+size) touches. */
  function PagesSpanned(va: nat, size: nat): nat
    requires size > 0
  {
    (va + size - 1) / PGSIZE - va / PGSIZE + 1
  }

  /** The frames mapped at pages first up to first+n, in order. */
  ghost function Frames(mem: Tables, dirs: Dirs, first: nat, n: nat): seq<nat> {
    if n == 0 then []
    else
      var e := At(mem, dirs, first + n - 1);
      Frames(mem, dirs, first, n - 1) + (if e == 0 then [] else [PTE2PA(e)])
  }

  lemma FramesStep(mem: Tables, dirs: Dirs, first: nat, n: nat)
    ensures var e := At(mem, dirs, first + n);
      Frames(mem, dirs, first, n + 1) == Frames(mem, dirs, first, n) + (if e == 0 then [] else [PTE2PA(e)])
  {
  }

  /** What walk's result points at is the entry of the page. */
  lemma EntryAt(mem: Tables, dirs: Dirs, v: nat)
    requires Tree(mem, dirs)
    ensures LowPath(v) !in dirs ==> At(mem, dirs, v) == 0
    ensures LowPath(v) in dirs ==> dirs[LowPath(v)] in mem && |mem[dirs[LowPath(v)]]| == ENTRIES
    ensures LowPath(v) in dirs ==>
      var e := mem[dirs[LowPath(v)]][v % ENTRIES]; At(mem, dirs, v) == (if Valid(e) then e else 0)
  {
    hide Linked, LeavesBelow;
  }

  /** uvmunmap never meets an inner entry at the lowest level. */
  lemma LeafEntry(mem: Tables, dirs: Dirs, v: nat)
    requires Tree(mem, dirs) && At(mem, dirs, v) != 0
    ensures IsLeaf(At(mem, dirs, v)) && Flags(At(mem, dirs, v)) != 1
  {
    hide Linked;
    InnerFlags(At(mem, dirs, v));
  }

  lemma InnerFlags(e: nat)
    ensures e % 1024 == 1 ==> e / 2 % 8 == 0
  {
    var q := e / 1024;
    if e == 1024 * q + 1 {
      assert e / 2 == 8 * (64 * q);
    }
  }

  lemma RootIn(mem: Tables, dirs: Dirs)
    requires Tree(mem, dirs)
    ensures Root in dirs
  {
  }

  lemma MissingBelow(mem: Tables, dirs: Dirs, va: nat, level: nat)
    requires Tree(mem, dirs) && va < MAXVA && level < 3
    ensures PathAt(level, va) !in dirs ==> LowPath(va / PGSIZE) !in dirs
  {
    hide Linked, LeavesBelow;
    if PathAt(level, va) !in dirs {
      NoPathBelow(mem, dirs, va, level);
    }
  }

  lemma InTree(mem: Tables, dirs: Dirs, q: Path)
    requires Tree(mem, dirs) && q in dirs
    ensures dirs[q] in mem && |mem[dirs[q]]| == ENTRIES
  {
  }
}
