/** Pages and sizes shared by the memory modules (kernel/include/riscv.h, kernel/include/memlayout.h). */
module Paging {
  const PGSIZE: nat := 4096
  const MAXUVA: nat := 0x8000_0000

  type Byte = bv8
  type Page = p: seq<Byte> | |p| == PGSIZE witness seq(PGSIZE, _ => 0)

  function Fill(b: Byte): Page { seq(PGSIZE, _ => b) }

  /** Number of pages a process of `sz` bytes may touch. */
  function PageCount(sz: nat): nat { (sz + PGSIZE - 1) / PGSIZE }
}

/**
 What the memory system is for: every process owns a private memory that reads as zero until
 written.  This machine has no frames, no reference counts and no faults; of the kernel it knows
 only how many pages are free, and a call fails or kills its process only out of range or when
 that number is below what the call can need.
 */
module PrivateMemory {
  import opened Paging

  datatype Proc = Proc(sz: nat, pages: seq<Page>)
  type Memory = map<nat, Proc>

  datatype Op =
    | Fork(p: nat, child: nat)
    | Load(p: nat, va: nat)
    | Store(p: nat, va: nat, b: Byte)
    | Sbrk(p: nat, n: int)
    | CopyIn(p: nat, va: nat, len: nat)
    | CopyOut(p: nat, va: nat, src: seq<Byte>)
    | Exit(p: nat)

  datatype Out = Done(bytes: seq<Byte>) | Failed | Killed

  /** Pages allocproc takes: trapframe, user root and two nodes, kernel root, stack and two nodes. */
  const PROC_PAGES: nat := 8

  /** Pages a first touch can take: the page itself and two nodes in each table. */
  const TOUCH_PAGES: nat := 5

  /** Slots of the process table. */
  const NPROC: nat := 50

  /** Pages that n bytes from va on touch. */
  function Spanned(va: nat, n: nat): nat
    requires n > 0
  {
    (va + n - 1) / PGSIZE - va / PGSIZE + 1
  }

  function ByteAt(pages: seq<Page>, a: nat): Byte
    requires a / PGSIZE < |pages|
  {
    pages[a / PGSIZE][a % PGSIZE]
  }

  function Bytes(pages: seq<Page>, a: nat, n: nat): seq<Byte>
    requires n == 0 || (a + n - 1) / PGSIZE < |pages|
  {
    seq(n, i requires 0 <= i < n => ByteAt(pages, a + i))
  }

  function PageWith(page: Page, base: nat, a: nat, src: seq<Byte>): Page {
    seq(PGSIZE, o requires 0 <= o < PGSIZE => if a <= base + o < a + |src| then src[base + o - a] else page[o])
  }

  /** The memory with `src` written from byte address a on. */
  function Splice(pages: seq<Page>, a: nat, src: seq<Byte>): (r: seq<Page>)
  {
    seq(|pages|, v requires 0 <= v < |pages| => PageWith(pages[v], v * PGSIZE, a, src))
  }

  function Zeros(n: nat): seq<Page> { seq(n, _ => Fill(0)) }

  /** sbrk: growth adds zero pages, shrinking cuts whole pages, the last partial page keeps its bytes. */
  function Resized(m: Proc, newsz: nat): Proc {
    var n := PageCount(newsz);
    Proc(newsz, if n <= |m.pages| then m.pages[..n] else m.pages + Zeros(n - |m.pages|))
  }

  predicate InRange(m: Proc, va: nat) { va / PGSIZE < |m.pages| }

  /** One system call or memory access by process op.p, with so many pages free before it. */
  ghost predicate Step(a: Memory, free: nat, op: Op, out: Out, a': Memory) {
    if op.p !in a then out == Failed && a' == a
    else
      var m := a[op.p];
      match op
      case Fork(p, c) =>
        (out == Failed && a' == a && (c in a || |a| >= NPROC || free < PROC_PAGES + 4 * PageCount(m.sz)))
        || (out == Done([]) && c !in a && |a| < NPROC && a' == a[c := m])
      case Load(p, va) =>
        (out == Killed && a' == a - {p} && (!InRange(m, va) || free < TOUCH_PAGES))
        || (InRange(m, va) && out == Done([ByteAt(m.pages, va)]) && a' == a)
      case Store(p, va, b) =>
        (out == Killed && a' == a - {p} && (!InRange(m, va) || free < TOUCH_PAGES))
        || (InRange(m, va) && out == Done([]) && a' == a[p := m.(pages := Splice(m.pages, va, [b]))])
      case Sbrk(p, n) =>
        if 0 <= m.sz + n < MAXUVA then out == Done([]) && a' == a[p := Resized(m, m.sz + n)]
        else out == Failed && a' == a
      case CopyIn(p, va, len) =>
        a' == a && if out == Failed then len > 0 && (!InRange(m, va + len - 1) || free < TOUCH_PAGES * Spanned(va, len))
                   else (len == 0 || InRange(m, va + len - 1)) && out == Done(Bytes(m.pages, va, len))
      case CopyOut(p, va, src) =>
        if va >= m.sz || va + |src| > m.sz then out == Failed && a' == a
        else
          (out == Done([]) && a' == a[p := m.(pages := Splice(m.pages, va, src))])
          || (out == Failed && src != [] && free < TOUCH_PAGES * Spanned(va, |src|) && Torn(a, p, va, src, a'))
      case Exit(p) =>
        out == Done([]) && a' == a - {p}
  }

  /** Only a prefix of src was written. */
  ghost predicate Torn(a: Memory, p: nat, va: nat, src: seq<Byte>, a': Memory)
    requires p in a
  {
    exists k :: 0 <= k <= |src| && a' == a[p := a[p].(pages := Splice(a[p].pages, va, src[..k]))]
  }

  /** A run, with the pages that were free before each call. */
  ghost predicate Trace(ops: seq<Op>, frees: seq<nat>, outs: seq<Out>, states: seq<Memory>) {
    && |states| == |ops| + 1 && |outs| == |ops| == |frees|
    && forall i :: 0 <= i < |ops| ==> Step(states[i], frees[i], ops[i], outs[i], states[i + 1])
  }

  /** Writing two consecutive runs of bytes is writing their concatenation. */
  lemma SpliceTwice(pages: seq<Page>, a: nat, s: seq<Byte>, t: seq<Byte>)
    ensures Splice(Splice(pages, a, s), a + |s|, t) == Splice(pages, a, s + t)
  {
    forall v | 0 <= v < |pages|
      ensures PageWith(PageWith(pages[v], v * PGSIZE, a, s), v * PGSIZE, a + |s|, t) ==
        PageWith(pages[v], v * PGSIZE, a, s + t)
    {
    }
  }

  /** Every byte after a write: the one written there, or the one that was there. */
  lemma SpliceAt(pages: seq<Page>, a: nat, src: seq<Byte>, i: nat)
    requires i / PGSIZE < |pages|
    ensures ByteAt(Splice(pages, a, src), i) == if a <= i < a + |src| then src[i - a] else ByteAt(pages, i)
  {
    assert i / PGSIZE * PGSIZE + i % PGSIZE == i;
  }

  /** What is written is read back. */
  lemma ReadBack(pages: seq<Page>, a: nat, src: seq<Byte>)
    requires src != [] ==> (a + |src| - 1) / PGSIZE < |pages|
    ensures Bytes(Splice(pages, a, src), a, |src|) == src
  {
    forall i | 0 <= i < |src| ensures Bytes(Splice(pages, a, src), a, |src|)[i] == src[i] {
      LowerPage(a + i, a + |src| - 1);
      SpliceAt(pages, a, src, a + i);
    }
  }

  lemma LowerPage(a: nat, b: nat)
    requires a <= b
    ensures a / PGSIZE <= b / PGSIZE
  {
  }

  /** After sbrk the pages that stay have their bytes and the new ones read as zero. */
  lemma ResizedAt(m: Proc, newsz: nat, i: nat)
    requires i < newsz
    ensures i / PGSIZE < |Resized(m, newsz).pages|
    ensures ByteAt(Resized(m, newsz).pages, i) == if i / PGSIZE < |m.pages| then ByteAt(m.pages, i) else 0
  {
  }

  /** A load gives what the process stored there, a copyin what was copied out to it. */
  lemma StoredIsLoaded(a: Memory, f: nat, p: nat, va: nat, b: Byte, a1: Memory, g: nat, out: Out, a2: Memory)
    requires p in a && Step(a, f, Store(p, va, b), Done([]), a1) && Step(a1, g, Load(p, va), out, a2)
    ensures out == Done([b]) || out == Killed
  {
    SpliceAt(a[p].pages, va, [b], va);
  }

  lemma CopiedIsRead(a: Memory, f: nat, p: nat, va: nat, src: seq<Byte>, a1: Memory, g: nat, out: Out, a2: Memory)
    requires p in a && Step(a, f, CopyOut(p, va, src), Done([]), a1) && Step(a1, g, CopyIn(p, va, |src|), out, a2)
    ensures out == Done(src) || out == Failed
  {
    hide Splice, Bytes;
    if out != Failed {
      SpliceLength(a[p].pages, va, src);
      ReadBack(a[p].pages, va, src);
    }
  }

  lemma SpliceLength(pages: seq<Page>, a: nat, src: seq<Byte>)
    ensures |Splice(pages, a, src)| == |pages|
  {
  }

  lemma SpliceNothing(pages: seq<Page>, a: nat)
    ensures Splice(pages, a, []) == pages
  {
    forall v | 0 <= v < |pages| ensures PageWith(pages[v], v * PGSIZE, a, []) == pages[v] {
    }
  }

  lemma WithinPage(a: nat, i: nat)
    requires a % PGSIZE + i < PGSIZE
    ensures (a + i) / PGSIZE == a / PGSIZE && (a + i) % PGSIZE == a % PGSIZE + i
  {
  }

  /** Reading a run of bytes that lies within one page. */
  lemma BytesWithin(pages: seq<Page>, a: nat, n: nat)
    requires a / PGSIZE < |pages| && a % PGSIZE + n <= PGSIZE
    ensures n == 0 || (a + n - 1) / PGSIZE < |pages|
    ensures Bytes(pages, a, n) == pages[a / PGSIZE][a % PGSIZE..a % PGSIZE + n]
  {
    forall i | 0 <= i < n ensures Bytes(pages, a, n)[i] == pages[a / PGSIZE][a % PGSIZE..a % PGSIZE + n][i] {
      WithinPage(a, i);
      assert Bytes(pages, a, n)[i] == ByteAt(pages, a + i) == pages[a / PGSIZE][a % PGSIZE + i];
    }
  }

  lemma BytesJoin(pages: seq<Page>, a: nat, m: nat, n: nat)
    requires n == 0 || (a + m + n - 1) / PGSIZE < |pages|
    requires m == 0 || (a + m - 1) / PGSIZE < |pages|
    ensures m + n == 0 || (a + m + n - 1) / PGSIZE < |pages|
    ensures Bytes(pages, a, m) + Bytes(pages, a + m, n) == Bytes(pages, a, m + n)
  {
  }

  /**
   Isolation over whole runs: a process that makes no call itself, and is not the child of a
   fork, has the same memory at the end as at the start, whatever all the others do.
   */
  lemma {:induction false} Isolation(ops: seq<Op>, frees: seq<nat>, outs: seq<Out>, states: seq<Memory>, q: nat)
    requires Trace(ops, frees, outs, states) && q in states[0]
    requires forall i :: 0 <= i < |ops| ==> ops[i].p != q
    ensures q in states[|ops|] && states[|ops|][q] == states[0][q]
  {
    if ops != [] {
      var n := |ops| - 1;
      assert Step(states[n], frees[n], ops[n], outs[n], states[n + 1]);
      assert forall i :: 0 <= i < n ==> ops[..n][i] == ops[i];
      Isolation(ops[..n], frees[..n], outs[..n], states[..n + 1], q);
    }
  }
}
