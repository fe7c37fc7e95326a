/**
 Which table pages the tables of a process have, and so how many a walk has to add (walk in
 kernel/vm.c).  Below MAXUVA a page has one node of level 1 and one of level 0 above its leaf; the
 roots and the nodes of the trampoline and the kernel stack are counted with the process itself.
 */
module TableNodes {
  import Common
  import opened Paging
  import opened FrameAccounting

  /** The two tables of a process. */
  datatype Table = User(pid: nat) | Kern(pid: nat)

  /** A node of level 1 spans 512 nodes of level 0, which spans 512 pages. */
  datatype Node = Mid(i: nat) | Low(k: nat)

  type Nodes = map<Table, set<Node>>

  function Has(nodes: Nodes, t: Table): set<Node> {
    if t in nodes then nodes[t] else {}
  }

  function Path(v: nat): set<Node> {
    {Mid(v / 512 / 512), Low(v / 512)}
  }

  /** How many nodes a walk to page v has to add. */
  function Missing(nodes: Nodes, t: Table, v: nat): (n: nat)
    ensures n <= 2
  {
    PathSize(v);
    Common.SubsetSize(Path(v) - Has(nodes, t), Path(v));
    |Path(v) - Has(nodes, t)|
  }

  function Grown(nodes: Nodes, t: Table, v: nat): Nodes {
    nodes[t := Has(nodes, t) + Path(v)]
  }

  /** Tables belong to processes, and a node of level 0 hangs below one of level 1. */
  ghost predicate Rooted(nodes: Nodes, sz: map<nat, nat>) {
    && (forall t :: t in nodes ==> t.pid in sz)
    && (forall t, k: nat :: t in nodes && Low(k) in nodes[t] ==> Mid(k / 512) in nodes[t])
  }

  lemma PathSize(v: nat)
    ensures |Path(v)| == 2
  {
  }

  /** The two halves of a walk: the node of level 1, then the one of level 0. */
  lemma WalkAdds(nodes: Nodes, t: Table, v: nat)
    ensures var m, l, h := Mid(v / 512 / 512), Low(v / 512), Has(nodes, t);
      && Missing(nodes, t, v) == (if m in h then 0 else 1) + (if l in h then 0 else 1)
      && (m in h && l in h ==> Grown(nodes, t, v) == nodes)
      && h + {m} + {l} == h + Path(v)
  {
    hide Has;
    var m, l, h := Mid(v / 512 / 512), Low(v / 512), Has(nodes, t);
    PairMinus(m, l, h);
    if m in h && l in h {
      HasIs(nodes, t);
      assert h + Path(v) == h;
    }
  }

  /** Adding the two nodes one after the other is growing the path. */
  lemma GrowsTwice(nodes: Nodes, t: Table, v: nat)
    ensures var m, l, h := Mid(v / 512 / 512), Low(v / 512), Has(nodes, t);
      var one := if m in h then nodes else nodes[t := h + {m}];
      && m in Has(one, t) && (l in Has(one, t) <==> l in h)
      && (if l in h then one else one[t := Has(one, t) + {l}]) == Grown(nodes, t, v)
  {
    var m, l, h := Mid(v / 512 / 512), Low(v / 512), Has(nodes, t);
    if m in h {
      assert h + {l} == h + Path(v);
      assert l in h ==> h + Path(v) == h;
    } else {
      assert h + {m} + {l} == h + Path(v);
      assert l in h ==> h + {m} == h + Path(v);
    }
  }

  lemma HasIs(nodes: Nodes, t: Table)
    ensures Has(nodes, t) != {} ==> nodes[t := Has(nodes, t)] == nodes
  {
  }

  lemma PairMinus(m: Node, l: Node, h: set<Node>)
    requires m != l
    ensures |{m, l} - h| == (if m in h then 0 else 1) + (if l in h then 0 else 1)
  {
    if m in h {
      assert {m, l} - h == if l in h then {} else {l};
    } else {
      assert {m, l} - h == if l in h then {m} else {m, l};
    }
  }

  lemma MidRooted(nodes: Nodes, t: Table, i: nat, sz: map<nat, nat>)
    requires Rooted(nodes, sz) && t.pid in sz
    ensures Rooted(nodes[t := Has(nodes, t) + {Mid(i)}], sz)
  {
  }

  lemma LowRooted(nodes: Nodes, t: Table, k: nat, sz: map<nat, nat>)
    requires Rooted(nodes, sz) && t.pid in sz && Mid(k / 512) in Has(nodes, t)
    ensures Rooted(nodes[t := Has(nodes, t) + {Low(k)}], sz)
  {
  }

  /** The tables of a process gone: what is left belongs to the others. */
  lemma TablesGone(nodes: Nodes, sz: map<nat, nat>, p: nat)
    requires Rooted(nodes, sz)
    ensures Rooted(nodes - {User(p), Kern(p)}, sz) && Rooted(nodes - {User(p), Kern(p)}, sz - {p})
  {
  }

  lemma RootedWith(nodes: Nodes, sz: map<nat, nat>, p: nat, z: nat)
    requires Rooted(nodes, sz)
    ensures Rooted(nodes, sz[p := z])
  {
  }

  lemma NothingYet(nodes: Nodes, t: Table, v: nat)
    requires Has(nodes, t) == {}
    ensures Missing(nodes, t, v) == 2
  {
    PathSize(v);
    assert Path(v) - {} == Path(v);
  }

  /** A process that does not exist has no table. */
  lemma RootedAgain(nodes: Nodes, sz: map<nat, nat>, p: nat)
    requires Rooted(nodes, sz)
    ensures p !in sz ==> Has(nodes, User(p)) == {} == Has(nodes, Kern(p))
  {
  }

  // ---------------------------------------------------------------- what uvmcopy needs

  /** The nodes above the pages of p below n. */
  ghost function Above(pt: Leaves, p: nat, n: nat): set<Node> {
    if n == 0 then {} else Above(pt, p, n - 1) + if Slot(p, n - 1) in pt then Path(n - 1) else {}
  }

  /** Nodes page v adds to those of the pages below it. */
  ghost function Extra(pt: Leaves, p: nat, v: nat): nat {
    |Path(v) - Above(pt, p, v)|
  }

  /** With so many free pages the copy gets to page v and there fails in the child's user table. */
  ghost predicate UserFails(pt: Leaves, p: nat, free: nat, v: nat) {
    Slot(p, v) in pt && var a, m := |Above(pt, p, v)|, Extra(pt, p, v); 2 * a <= free < 2 * a + m
  }

  /** ... or has its user path and then fails in the kernel table. */
  ghost predicate KernelFails(pt: Leaves, p: nat, free: nat, v: nat) {
    Slot(p, v) in pt && var a, m := |Above(pt, p, v)|, Extra(pt, p, v); 2 * a + m <= free < 2 * a + 2 * m
  }

  /** The copy of the pages below n fails in a kernel table. */
  ghost predicate CopyBreaks(pt: Leaves, p: nat, n: nat, free: nat) {
    exists v: nat :: v < n && KernelFails(pt, p, free, v)
  }

  lemma AboveSteps(pt: Leaves, p: nat, v: nat)
    ensures |Above(pt, p, v + 1)| == |Above(pt, p, v)| + if Slot(p, v) in pt then Extra(pt, p, v) else 0
  {
    if Slot(p, v) in pt {
      var a := Above(pt, p, v);
      assert a + Path(v) == a + (Path(v) - a);
    }
  }

  lemma {:induction false} AboveGrows(pt: Leaves, p: nat, v: nat, n: nat)
    requires v <= n
    ensures |Above(pt, p, v)| <= |Above(pt, p, n)|
    decreases n - v
  {
    if v < n {
      AboveSteps(pt, p, v);
      AboveGrows(pt, p, v + 1, n);
    }
  }

  /** A failure means there was not enough for the whole copy. */
  lemma FailsShort(pt: Leaves, p: nat, free: nat, v: nat, n: nat)
    requires v < n && (UserFails(pt, p, free, v) || KernelFails(pt, p, free, v))
    ensures free < 2 * |Above(pt, p, n)|
  {
    hide Above, Extra;
    AboveSteps(pt, p, v);
    AboveGrows(pt, p, v + 1, n);
  }

  /** A copy fails at one page and in one way. */
  lemma NotBoth(pt: Leaves, p: nat, free: nat, v: nat, w: nat)
    requires UserFails(pt, p, free, v)
    ensures !KernelFails(pt, p, free, w)
  {
    hide Above, Extra;
    AboveSteps(pt, p, v);
    AboveSteps(pt, p, w);
    if v < w {
      AboveGrows(pt, p, v + 1, w);
    } else if w < v {
      AboveGrows(pt, p, w + 1, v);
    }
  }

  lemma OnlyUserFails(pt: Leaves, p: nat, free: nat, v: nat, n: nat)
    requires v < n && UserFails(pt, p, free, v)
    ensures free < 2 * |Above(pt, p, n)|
    ensures !CopyBreaks(pt, p, n, free)
  {
    hide UserFails, KernelFails, Above;
    FailsShort(pt, p, free, v, n);
    forall w: nat | w < n ensures !KernelFails(pt, p, free, w) {
      NotBoth(pt, p, free, v, w);
    }
  }

  /** Page v needs in each of the child's tables what it adds to the nodes above the pages before it. */
  lemma CopyCost(pt: Leaves, nodes: Nodes, p: nat, c: nat, v: nat)
    requires Has(nodes, User(c)) == Has(nodes, Kern(c)) == Above(pt, p, v)
    ensures Missing(nodes, User(c), v) == Missing(nodes, Kern(c), v) == Extra(pt, p, v)
    ensures var both := Grown(Grown(nodes, User(c), v), Kern(c), v);
      Slot(p, v) in pt ==> Has(both, User(c)) == Has(both, Kern(c)) == Above(pt, p, v + 1)
    ensures Slot(p, v) !in pt ==> Above(pt, p, v + 1) == Above(pt, p, v)
    ensures |Above(pt, p, v + 1)| == |Above(pt, p, v)| + if Slot(p, v) in pt then Extra(pt, p, v) else 0
  {
    AboveSteps(pt, p, v);
  }

  lemma {:induction false} AboveBound(pt: Leaves, p: nat, n: nat)
    ensures |Above(pt, p, n)| <= 2 * n
  {
    if n > 0 {
      AboveBound(pt, p, n - 1);
      AboveSteps(pt, p, n - 1);
      PathSize(n - 1);
      Common.SubsetSize(Path(n - 1) - Above(pt, p, n - 1), Path(n - 1));
    }
  }
}
