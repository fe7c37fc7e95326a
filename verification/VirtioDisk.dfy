/**
 The virtio block driver (kernel/virtio_disk.c) and its device, as a state machine over the split
 ring of section 2.6 of OASIS VIRTIO 1.1.  Driver code runs under vdisk_lock, so its steps are one
 alloc-and-submit, one completion in the interrupt handler, and one free-chain-and-return; the
 device takes and completes requests in between, in any order.

 Every request gets a ticket, its number in order of submission.  Tickets, `heads`, `owners`,
 `done`, `taken` and `handled` are history; the driver and the device use only the rings, the
 16-bit and modulo-NUM indices, and in `devBusy` the heads the device has read from the ring.
 */
module VirtioDisk {
  import opened Common

  const NUM: nat := 8
  const WORD16: nat := 0x1_0000

  /** flags & VRING_DESC_F_NEXT, and next. */
  datatype Desc = Desc(chained: bool, next: nat)

  /** A process in virtio_disk_rw; it may sleep for descriptors or for its own request. */
  datatype Pc = Idle | Waiting | InFlight(ticket: nat, h: nat, m: nat, l: nat)

  datatype State = State(
    free: seq<bool>, desc: seq<Desc>, info: seq<int>, avail: seq<nat>, availIdx: nat, usedIdx: nat,
    used: seq<nat>, devUsed: nat, devTaken: nat, devBusy: map<nat, nat>,
    disk: seq<bool>, pcs: seq<Pc>,
    heads: seq<nat>, owners: seq<nat>, done: seq<nat>, taken: nat, handled: nat)

  // ---------------------------------------------------------------- descriptors

  /** alloc_desc: the lowest free descriptor from i on. */
  function FirstFree(free: seq<bool>, i: nat): (r: Option<nat>)
    requires i <= |free|
    ensures r.Some? ==> i <= r.value < |free| && free[r.value]
    ensures r.None? ==> forall j :: i <= j < |free| ==> !free[j]
    decreases |free| - i
  {
    if i == |free| then None else if free[i] then Some(i) else FirstFree(free, i + 1)
  }

  /** alloc3_desc: three descriptors marked in use, or None with everything as it was. */
  function Alloc3(free: seq<bool>): (r: Option<(nat, nat, nat)>)
    ensures r.Some? ==> var (h, m, l) := r.value;
      h < |free| && m < |free| && l < |free| && h != m && h != l && m != l && free[h] && free[m] && free[l]
  {
    var a := FirstFree(free, 0);
    if a.None? then None
    else
      var b := FirstFree(free[a.value := false], 0);
      if b.None? then None
      else
        var c := FirstFree(free[a.value := false][b.value := false], 0);
        if c.None? then None else Some((a.value, b.value, c.value))
  }

  ghost function InUse(free: seq<bool>): set<nat> {
    set i: nat | i < |free| && !free[i]
  }

  /** free_chain: follow the chain from i; None is the panic on a descriptor that is already free. */
  ghost function FreeChain(free: seq<bool>, desc: seq<Desc>, i: nat): Option<seq<bool>>
    requires |desc| == |free|
    decreases InUse(free)
  {
    if i >= |free| || free[i] then None
    else
      var f := free[i := true];
      assert i in InUse(free) && InUse(f) == InUse(free) - {i};
      if desc[i].chained then FreeChain(f, desc, desc[i].next) else Some(f)
  }

  ghost predicate IsChain(desc: seq<Desc>, h: nat, m: nat, l: nat) {
    && h < |desc| && m < |desc| && l < |desc| && h != m && h != l && m != l
    && desc[h] == Desc(true, m) && desc[m] == Desc(true, l) && desc[l] == Desc(false, 0)
  }

  /** Freeing a three-descriptor chain frees exactly its descriptors, without panicking. */
  lemma FreeChainOfThree(free: seq<bool>, desc: seq<Desc>, h: nat, m: nat, l: nat)
    requires |desc| == |free| && IsChain(desc, h, m, l) && !free[h] && !free[m] && !free[l]
    ensures FreeChain(free, desc, h) == Some(free[h := true][m := true][l := true])
  {
    var f := free[h := true];
    var g := f[m := true];
    assert FreeChain(g, desc, l) == Some(g[l := true]);
    assert FreeChain(f, desc, m) == FreeChain(g, desc, l);
  }

  lemma FirstFreeIs(free: seq<bool>, i: nat, k: nat)
    requires i <= k <= |free| && forall j :: i <= j < k ==> !free[j]
    ensures FirstFree(free, i) == FirstFree(free, k)
    decreases k - i
  {
    if i < k {
      FirstFreeIs(free, i + 1, k);
    }
  }

  /** The descriptor table as the driver changes it, under vdisk_lock. */
  class Descriptors {
    const free: array<bool>
    const desc: array<Desc>

    ghost predicate Valid()
      reads this
    {
      free.Length == NUM == desc.Length
    }

    constructor ()
      ensures Valid() && fresh(free) && fresh(desc) && free.Length == 8 && forall i :: 0 <= i < 8 ==> free[i]
    {
      free := new bool[NUM](_ => true);
      desc := new Desc[NUM](_ => Desc(false, 0));
    }

    method AllocDesc() returns (i: int)
      requires Valid()
      modifies free
      ensures FirstFree(old(free[..]), 0) == if i == -1 then None else Some(i)
      ensures i == -1 ==> free[..] == old(free[..])
      ensures i != -1 ==> 0 <= i < NUM && free[..] == old(free[..])[i := false]
    {
      i := 0;
      while i < NUM
        invariant 0 <= i <= NUM && free[..] == old(free[..]) && forall j :: 0 <= j < i ==> !free[j]
      {
        FirstFreeIs(free[..], 0, i);
        if free[i] {
          free[i] := false;
          assert free[..] == old(free[..])[i := false];
          return;
        }
        i := i + 1;
      }
      FirstFreeIs(free[..], 0, NUM);
      return -1;
    }

    /** free_desc; false is its panic. */
    method FreeDesc(i: nat) returns (ok: bool)
      requires Valid()
      modifies free
      ensures ok <==> i < NUM && !old(free[..])[i]
      ensures free[..] == if ok then old(free[..])[i := true] else old(free[..])
    {
      if i >= NUM || free[i] {
        return false;
      }
      free[i] := true;
      assert free[..] == old(free[..])[i := true];
      return true;
    }

    /** alloc3_desc: all three or, given back one by one, none. */
    method Alloc3Desc() returns (r: Option<(nat, nat, nat)>)
      requires Valid()
      modifies free
      ensures r == Alloc3(old(free[..]))
      ensures r.None? ==> free[..] == old(free[..])
      ensures r.Some? ==> free[..] == old(free[..])[r.value.0 := false][r.value.1 := false][r.value.2 := false]
    {
      hide FirstFree;
      ghost var was := free[..];
      var a := AllocDesc();
      if a == -1 {
        return None;
      }
      ghost var one := free[..];
      var b := AllocDesc();
      if b == -1 {
        var ok := FreeDesc(a);
        assert one[a := true] == was;
        return None;
      }
      ghost var two := free[..];
      var c := AllocDesc();
      if c == -1 {
        var ok := FreeDesc(a);
        ok := FreeDesc(b);
        assert two[a := true][b := true] == was;
        return None;
      }
      r := Some((a, b, c));
    }

    /** free_chain; false is the panic of free_desc on the way. */
    method FreeChainFrom(first: nat) returns (ok: bool)
      requires Valid()
      modifies free
      ensures FreeChain(old(free[..]), desc[..], first) == if ok then Some(free[..]) else None
    {
      var i := first;
      ghost var goal := FreeChain(free[..], desc[..], first);
      while true
        invariant FreeChain(free[..], desc[..], i) == goal
        decreases InUse(free[..])
      {
        ghost var was := free[..];
        ok := FreeDesc(i);
        if !ok {
          return false;
        }
        assert i in InUse(was) && InUse(was[i := true]) == InUse(was) - {i};
        if desc[i].chained {
          i := desc[i].next;
        } else {
          return true;
        }
      }
    }
  }

  // ---------------------------------------------------------------- steps

  datatype Action =
    | Begin(p: nat)       // enter virtio_disk_rw
    | Submit(p: nat)      // get three descriptors, format them, publish the head
    | Return(p: nat)      // find b->disk clear, free the chain, return
    | Intr                // one turn of the loop in virtio_disk_intr
    | DevTake             // the device reads the next avail entry
    | DevComplete(t: nat) // the device finishes a request it has taken

  ghost function Submitted(s: State, p: nat, h: nat, m: nat, l: nat): State
    requires h < |s.free| && m < |s.free| && l < |s.free| && |s.desc| == |s.free| == |s.info| && |s.avail| == NUM
    requires p < |s.pcs| == |s.disk|
  {
    s.(free := s.free[h := false][m := false][l := false],
       desc := s.desc[h := Desc(true, m)][m := Desc(true, l)][l := Desc(false, 0)],
       info := s.info[h := p], disk := s.disk[p := true],
       avail := s.avail[s.availIdx % NUM := h], availIdx := (s.availIdx + 1) % WORD16,
       pcs := s.pcs[p := InFlight(|s.heads|, h, m, l)],
       heads := s.heads + [h], owners := s.owners + [p])
  }

  /** disk.info[id].b->disk = 0 and the index step of virtio_disk_intr. */
  ghost function Handled(s: State): State
    requires s.usedIdx < |s.used| && s.used[s.usedIdx] < |s.info| && 0 <= s.info[s.used[s.usedIdx]] < |s.disk|
  {
    s.(disk := s.disk[s.info[s.used[s.usedIdx]] := false], usedIdx := (s.usedIdx + 1) % NUM, handled := s.handled + 1)
  }

  /** The test that keeps the interrupt handler's loop going. */
  predicate MoreUsed(s: State) { s.usedIdx % NUM != s.devUsed % NUM }

  ghost predicate Step(s: State, a: Action, t: State)
    requires Shape(s)
  {
    match a
    case Begin(p) => p < |s.pcs| && s.pcs[p] == Idle && t == s.(pcs := s.pcs[p := Waiting])
    case Submit(p) =>
      p < |s.pcs| && s.pcs[p] == Waiting && Alloc3(s.free).Some?
      && var (h, m, l) := Alloc3(s.free).value; t == Submitted(s, p, h, m, l)
    case Return(p) =>
      p < |s.pcs| && s.pcs[p].InFlight? && !s.disk[p] && s.pcs[p].h < NUM
      && FreeChain(s.free, s.desc, s.pcs[p].h).Some?
      && t == s.(free := FreeChain(s.free, s.desc, s.pcs[p].h).value, info := s.info[s.pcs[p].h := -1],
        pcs := s.pcs[p := Idle])
    case Intr =>
      MoreUsed(s) && s.used[s.usedIdx] < NUM && 0 <= s.info[s.used[s.usedIdx]] < |s.disk| && t == Handled(s)
    case DevTake =>
      s.devTaken != s.availIdx
      && t == s.(devBusy := s.devBusy[s.taken := s.avail[s.devTaken % NUM]], devTaken := (s.devTaken + 1) % WORD16,
        taken := s.taken + 1)
    case DevComplete(k) =>
      k in s.devBusy
      && t == s.(used := s.used[s.devUsed % NUM := s.devBusy[k]], devUsed := (s.devUsed + 1) % WORD16,
                 devBusy := s.devBusy - {k}, done := s.done + [k])
  }

  ghost predicate Shape(s: State) {
    && |s.free| == NUM && |s.desc| == NUM && |s.info| == NUM && |s.avail| == NUM && |s.used| == NUM
    && |s.disk| == |s.pcs| && |s.owners| == |s.heads| && s.usedIdx < NUM
  }

  ghost predicate Init(s: State) {
    && Shape(s) && (forall i :: 0 <= i < NUM ==> s.free[i])
    && s.availIdx == 0 && s.usedIdx == 0 && s.devUsed == 0 && s.devTaken == 0
    && (forall p :: 0 <= p < |s.pcs| ==> s.pcs[p] == Idle)
    && s.heads == [] && s.done == [] && s.taken == 0 && s.handled == 0 && s.devBusy == map[]
  }

  // ---------------------------------------------------------------- invariant

  ghost predicate Has(pc: Pc, i: nat) { pc.InFlight? && (i == pc.h || i == pc.m || i == pc.l) }

  /** Descriptors in use are partitioned into the three-descriptor chains of the requests in flight. */
  ghost predicate Partition(s: State)
    requires Shape(s)
  {
    && (forall p :: 0 <= p < |s.pcs| && s.pcs[p].InFlight? ==>
          IsChain(s.desc, s.pcs[p].h, s.pcs[p].m, s.pcs[p].l) && s.info[s.pcs[p].h] == p)
    && (forall p, i :: 0 <= p < |s.pcs| && 0 <= i < NUM && Has(s.pcs[p], i) ==> !s.free[i])
    && (forall p, q, i :: 0 <= p < |s.pcs| && 0 <= q < |s.pcs| && Has(s.pcs[p], i) && Has(s.pcs[q], i) ==> p == q)
    && (forall i :: 0 <= i < NUM && !s.free[i] ==> exists p :: 0 <= p < |s.pcs| && Has(s.pcs[p], i))
  }

  ghost predicate Over(s: State, t: nat)
    requires s.handled <= |s.done|
  {
    t in s.done[..s.handled]
  }

  /** A request is in flight, with b->disk set, until its own completion has been handled. */
  ghost predicate Tickets(s: State)
    requires Shape(s)
  {
    && s.handled <= |s.done|
    && (forall p :: 0 <= p < |s.pcs| && s.pcs[p].InFlight? ==>
          var t := s.pcs[p].ticket;
          t < |s.heads| && s.owners[t] == p && s.heads[t] == s.pcs[p].h && (s.disk[p] <==> !Over(s, t)))
    && (forall t :: 0 <= t < |s.heads| && !Over(s, t) ==>
          s.owners[t] < |s.pcs| && s.pcs[s.owners[t]].InFlight? && s.pcs[s.owners[t]].ticket == t)
  }

  ghost predicate Indices(s: State) {
    && s.taken <= |s.heads| && s.handled <= |s.done|
    && s.availIdx == |s.heads| % WORD16 && s.devTaken == s.taken % WORD16
    && s.devUsed == |s.done| % WORD16 && s.usedIdx == s.handled % NUM
  }

  /** The device completes each request it has taken once. */
  ghost predicate Device(s: State)
    requires Indices(s)
  {
    && (forall i, j :: 0 <= i < j < |s.done| ==> s.done[i] != s.done[j])
    && (forall k :: k in s.done ==> k < s.taken)
    && (forall k: nat :: k in s.devBusy <==> k < s.taken && k !in s.done)
    && (forall k :: k in s.devBusy ==> s.devBusy[k] == s.heads[k])
  }

  /** The ring slots not yet consumed by the other side still hold what was put there. */
  ghost predicate Rings(s: State)
    requires Shape(s) && Indices(s) && Device(s)
  {
    && (forall t :: s.taken <= t < |s.heads| ==> s.avail[t % NUM] == s.heads[t])
    && (forall i :: s.handled <= i < |s.done| ==> s.done[i] < |s.heads| && s.used[i % NUM] == s.heads[s.done[i]])
  }

  ghost predicate Inv(s: State) {
    Shape(s) && Partition(s) && Tickets(s) && Indices(s) && Device(s) && Rings(s)
  }

  // ---------------------------------------------------------------- at most two chains

  ghost function Triple(pc: Pc): set<nat>
    requires pc.InFlight?
  {
    {pc.h, pc.m, pc.l}
  }

  /** Three chains would need nine of the eight descriptors. */
  lemma NoThree(s: State, p: nat, q: nat, r: nat)
    requires Shape(s) && Partition(s) && p < |s.pcs| && q < |s.pcs| && r < |s.pcs| && p != q && p != r && q != r
    ensures !(s.pcs[p].InFlight? && s.pcs[q].InFlight? && s.pcs[r].InFlight?)
  {
    hide Partition, Triple, Upto, Shape;
    if s.pcs[p].InFlight? && s.pcs[q].InFlight? && s.pcs[r].InFlight? {
      ChainsApart(s, p, q);
      ChainsApart(s, p, r);
      ChainsApart(s, q, r);
      NineOfEight(Triple(s.pcs[p]), Triple(s.pcs[q]), Triple(s.pcs[r]));
    }
  }

  lemma NineOfEight(a: set<nat>, b: set<nat>, c: set<nat>)
    requires a !! b && a !! c && b !! c && |a| == 3 && |b| == 3 && |c| == 3
    ensures !(a <= Upto(NUM) && b <= Upto(NUM) && c <= Upto(NUM))
  {
    hide Upto;
    assert |a + b| == 6;
    assert |a + b + c| == 9;
    if a + b + c <= Upto(NUM) {
      SubsetSize(a + b + c, Upto(NUM));
    }
  }

  lemma ChainsApart(s: State, p: nat, q: nat)
    requires Shape(s) && Partition(s) && p < |s.pcs| && q < |s.pcs| && p != q && s.pcs[p].InFlight?
    requires s.pcs[q].InFlight?
    ensures Triple(s.pcs[p]) !! Triple(s.pcs[q]) && |Triple(s.pcs[p])| == 3 && |Triple(s.pcs[q])| == 3
    ensures Triple(s.pcs[p]) <= Upto(NUM) && Triple(s.pcs[q]) <= Upto(NUM)
  {
    hide Upto;
    TripleSize(s, p);
    TripleSize(s, q);
    TriplesDisjoint(s, p, q);
  }

  lemma TripleSize(s: State, p: nat)
    requires Shape(s) && Partition(s) && p < |s.pcs| && s.pcs[p].InFlight?
    ensures |Triple(s.pcs[p])| == 3 && Triple(s.pcs[p]) <= Upto(NUM)
  {
    hide Upto;
    var pc := s.pcs[p];
    assert IsChain(s.desc, pc.h, pc.m, pc.l);
  }

  lemma TriplesDisjoint(s: State, p: nat, q: nat)
    requires Shape(s) && Partition(s) && p < |s.pcs| && q < |s.pcs| && p != q && s.pcs[p].InFlight?
    requires s.pcs[q].InFlight?
    ensures Triple(s.pcs[p]) !! Triple(s.pcs[q])
  {
    hide IsChain, Upto;
    forall i | i in Triple(s.pcs[p]) ensures Has(s.pcs[p], i) {}
    forall i | i in Triple(s.pcs[q]) ensures Has(s.pcs[q], i) {}
  }

  /** At most two published requests are untaken, and at most two completions unhandled. */
  lemma FewOutstanding(s: State)
    requires Inv(s)
    ensures |s.heads| - s.taken <= 2 && |s.done| - s.handled <= 2
  {
    hide Partition, Device, Rings, Tickets, Over;
    if |s.heads| - s.taken > 2 {
      Untaken(s, s.taken);
      Untaken(s, s.taken + 1);
      Untaken(s, s.taken + 2);
      NoThree(s, s.owners[s.taken], s.owners[s.taken + 1], s.owners[s.taken + 2]);
    }
    if |s.done| - s.handled > 2 {
      Unhandled(s, s.handled);
      Unhandled(s, s.handled + 1);
      Unhandled(s, s.handled + 2);
      DoneApart(s);
      NoThree(s, s.owners[s.done[s.handled]], s.owners[s.done[s.handled + 1]], s.owners[s.done[s.handled + 2]]);
    }
  }

  lemma DoneApart(s: State)
    requires Inv(s)
    ensures forall i, j :: 0 <= i < j < |s.done| ==> s.done[i] != s.done[j]
  {
  }

  /** A request the device has not taken, or whose completion is not handled, belongs to a waiting caller. */
  lemma Untaken(s: State, t: nat)
    requires Inv(s) && s.taken <= t < |s.heads|
    ensures !Over(s, t) && s.owners[t] < |s.pcs| && s.pcs[s.owners[t]].InFlight? && s.pcs[s.owners[t]].ticket == t
  {
    hide Partition, Rings;
    assert forall k :: k in s.done[..s.handled] ==> k in s.done;
  }

  lemma Unhandled(s: State, i: nat)
    requires Inv(s) && s.handled <= i < |s.done|
    ensures s.done[i] < |s.heads| && !Over(s, s.done[i])
    ensures s.owners[s.done[i]] < |s.pcs| && s.pcs[s.owners[s.done[i]]].InFlight?
    ensures s.pcs[s.owners[s.done[i]]].ticket == s.done[i]
  {
    hide Partition, Rings;
    assert s.done[i] in s.done;
    assert !Over(s, s.done[i]);
  }

  // ---------------------------------------------------------------- what the invariant gives

  /** The modulo-NUM test of the interrupt handler is exact, and what it then reads is a request in flight. */
  lemma InterruptExact(s: State)
    requires Inv(s)
    ensures MoreUsed(s) <==> s.handled < |s.done|
    ensures MoreUsed(s) ==> s.used[s.usedIdx] == s.heads[s.done[s.handled]] < NUM
    ensures MoreUsed(s) ==> s.info[s.used[s.usedIdx]] == s.owners[s.done[s.handled]] < |s.pcs|
  {
    FewOutstanding(s);
    ModuloExact(s.handled, |s.done|);
    if s.handled < |s.done| {
      Unhandled(s, s.handled);
      var p := s.owners[s.done[s.handled]];
      assert IsChain(s.desc, s.pcs[p].h, s.pcs[p].m, s.pcs[p].l);
    }
  }

  lemma ModuloExact(a: nat, b: nat)
    requires a <= b <= a + 2
    ensures a % NUM % NUM == b % WORD16 % NUM <==> a == b
    ensures b % WORD16 % NUM == b % NUM
  {
    assert b == b / WORD16 * WORD16 + b % WORD16;
    assert b == (b / WORD16 * 0x2000) * NUM + b % WORD16;
    assert b % NUM == b % WORD16 % NUM;
    var q := a / NUM;
    assert a == q * NUM + a % NUM;
  }

  /** A caller goes on only after its own completion was handled, and freeing its chain cannot panic. */
  lemma ReturnSafe(s: State, p: nat)
    requires Inv(s) && p < |s.pcs| && s.pcs[p].InFlight?
    ensures !s.disk[p] <==> Over(s, s.pcs[p].ticket)
    ensures s.pcs[p].h < NUM && s.pcs[p].m < NUM && s.pcs[p].l < NUM
    ensures FreeChain(s.free, s.desc, s.pcs[p].h) ==
      Some(s.free[s.pcs[p].h := true][s.pcs[p].m := true][s.pcs[p].l := true])
  {
    var pc := s.pcs[p];
    assert IsChain(s.desc, pc.h, pc.m, pc.l);
    assert Has(pc, pc.h) && Has(pc, pc.m) && Has(pc, pc.l);
    FreeChainOfThree(s.free, s.desc, pc.h, pc.m, pc.l);
  }

  // ---------------------------------------------------------------- every step keeps the invariant

  lemma BeginKeeps(s: State, p: nat, t: State)
    requires Inv(s) && Step(s, Begin(p), t)
    ensures Inv(t)
  {
    hide IsChain;
    assert forall q, i :: 0 <= q < |s.pcs| && Has(s.pcs[q], i) ==> Has(t.pcs[q], i);
  }

  lemma DevTakeKeeps(s: State, t: State)
    requires Inv(s) && Step(s, DevTake, t)
    ensures Inv(t)
  {
    FewOutstanding(s);
    TakeIndex(s.taken, |s.heads|);
    hide Partition, Tickets;
    assert Partition(t) by { PartitionSame(s, t); }
    assert Tickets(t) by { TicketsSame(s, t); }
  }

  lemma TakeIndex(a: nat, b: nat)
    requires a <= b <= a + 2 && a % WORD16 != b % WORD16
    ensures a < b && a % WORD16 % NUM == a % NUM && (a % WORD16 + 1) % WORD16 == (a + 1) % WORD16
  {
    ModuloExact(a, a);
  }

  lemma PartitionSame(s: State, t: State)
    requires Shape(s) && Shape(t) && Partition(s) && t.free == s.free && t.desc == s.desc && t.info == s.info
    requires t.pcs == s.pcs
    ensures Partition(t)
  {
  }

  lemma TicketsSame(s: State, t: State)
    requires Shape(s) && Shape(t) && Tickets(s) && t.pcs == s.pcs && t.heads == s.heads && t.owners == s.owners
    requires t.disk == s.disk
    requires t.handled == s.handled && s.done <= t.done
    ensures Tickets(t)
  {
    assert s.handled <= |s.done| ==> t.done[..t.handled] == s.done[..s.handled];
  }

  lemma DevCompleteKeeps(s: State, k: nat, t: State)
    requires Inv(s) && Step(s, DevComplete(k), t)
    ensures Inv(t)
  {
    hide Partition, Tickets, Device, Rings, Indices;
    CompletedDevice(s, k, t);
    CompletedRings(s, k, t);
    PartitionSame(s, t);
    TicketsSame(s, t);
  }

  lemma CompletedDevice(s: State, k: nat, t: State)
    requires Inv(s) && Step(s, DevComplete(k), t)
    ensures Indices(t) && Device(t)
  {
    hide Partition, Tickets, Rings;
    assert k !in s.done;
    assert forall j :: j in t.done <==> j in s.done || j == k;
  }

  lemma CompletedRings(s: State, k: nat, t: State)
    requires Inv(s) && Step(s, DevComplete(k), t)
    ensures Indices(t) && Device(t) && Rings(t)
  {
    CompletedDevice(s, k, t);
    FewOutstanding(s);
    hide Partition, Tickets;
    ModuloExact(|s.done|, |s.done|);
    forall i | t.handled <= i < |t.done| ensures t.done[i] < |t.heads| && t.used[i % NUM] == t.heads[t.done[i]] {
      if i < |s.done| {
        ModuloExact(i, |s.done|);
      }
    }
  }

  lemma IntrKeeps(s: State, t: State)
    requires Inv(s) && Step(s, Intr, t)
    ensures Inv(t)
  {
    hide Partition, Tickets, Device, Rings, FreeChain, Alloc3;
    InterruptExact(s);
    HandledTickets(s, t);
    PartitionSame(s, t);
    NextIndex(s.handled);
    HandledRings(s, t);
  }

  lemma NextIndex(n: nat)
    ensures (n % NUM + 1) % NUM == (n + 1) % NUM
  {
  }

  lemma HandledRings(s: State, t: State)
    requires Inv(s) && s.handled < |s.done| && t == s.(disk := t.disk, usedIdx := t.usedIdx, handled := s.handled + 1)
    requires Indices(t) && Shape(t)
    ensures Device(t) && Rings(t)
  {
    hide Partition, Tickets;
  }

  lemma HandledTickets(s: State, t: State)
    requires Inv(s) && Step(s, Intr, t) && s.handled < |s.done|
    requires s.info[s.used[s.usedIdx]] == s.owners[s.done[s.handled]] < |s.pcs|
    ensures Shape(t) && Tickets(t)
  {
    Unhandled(s, s.handled);
    hide Partition, Device, Rings;
    assert t.done[..t.handled] == s.done[..s.handled] + [s.done[s.handled]];
    assert forall k :: Over(t, k) <==> Over(s, k) || k == s.done[s.handled];
  }

  lemma ReturnKeeps(s: State, p: nat, t: State)
    requires Inv(s) && Step(s, Return(p), t)
    ensures Inv(t)
  {
    hide Partition, Tickets, Device, Rings;
    ReturnSafe(s, p);
    ReturnedPartition(s, p, t);
    ReturnedTickets(s, p, t);
    assert Indices(t);
    RingsSame(s, t);
  }

  lemma RingsSame(s: State, t: State)
    requires Inv(s) && Shape(t) && Indices(t)
    requires t.avail == s.avail && t.used == s.used && t.devBusy == s.devBusy && t.heads == s.heads && t.done == s.done
    requires t.taken == s.taken && t.handled == s.handled
    ensures Device(t) && Rings(t)
  {
    hide Partition, Tickets;
  }

  lemma ReturnedPartition(s: State, p: nat, t: State)
    requires Inv(s) && p < |s.pcs| && s.pcs[p].InFlight? && Shape(t)
    requires t.free == s.free[s.pcs[p].h := true][s.pcs[p].m := true][s.pcs[p].l := true]
    requires t.pcs == s.pcs[p := Idle] && t.info == s.info[s.pcs[p].h := -1] && t.desc == s.desc
    ensures Partition(t)
  {
    hide Tickets, Device, Rings, Indices;
    var pc := s.pcs[p];
    assert IsChain(s.desc, pc.h, pc.m, pc.l);
    forall q | 0 <= q < |t.pcs| && t.pcs[q].InFlight?
      ensures IsChain(t.desc, t.pcs[q].h, t.pcs[q].m, t.pcs[q].l) && t.info[t.pcs[q].h] == q
    {
      assert Has(s.pcs[q], s.pcs[q].h) && Has(pc, pc.h);
    }
    forall i | 0 <= i < NUM && !t.free[i] ensures exists q :: 0 <= q < |t.pcs| && Has(t.pcs[q], i) {
      var q :| 0 <= q < |s.pcs| && Has(s.pcs[q], i);
      assert Has(t.pcs[q], i);
    }
    forall q, i | 0 <= q < |t.pcs| && 0 <= i < NUM && Has(t.pcs[q], i) ensures !t.free[i] {
      assert Has(s.pcs[q], i) && !Has(pc, i);
    }
    assert forall q, i :: 0 <= q < |t.pcs| && Has(t.pcs[q], i) ==> Has(s.pcs[q], i);
  }

  lemma ReturnedTickets(s: State, p: nat, t: State)
    requires Inv(s) && p < |s.pcs| && s.pcs[p].InFlight? && Over(s, s.pcs[p].ticket) && Shape(t)
    requires t.pcs == s.pcs[p := Idle] && t.disk == s.disk && t.heads == s.heads && t.owners == s.owners
    requires t.done == s.done && t.handled == s.handled
    ensures Tickets(t)
  {
    hide Partition, Device, Rings, Indices;
    assert forall k :: Over(t, k) <==> Over(s, k);
  }

  lemma SubmitKeeps(s: State, p: nat, t: State)
    requires Inv(s) && Step(s, Submit(p), t)
    ensures Inv(t)
  {
    hide Partition, Tickets, Device, Rings, Indices, Alloc3;
    var (h, m, l) := Alloc3(s.free).value;
    SubmittedPartition(s, p, h, m, l);
    SubmittedTickets(s, p, h, m, l);
    SubmittedRings(s, p, h, m, l);
  }

  ghost predicate CanSubmit(s: State, p: nat, h: nat, m: nat, l: nat) {
    && Inv(s) && p < |s.pcs| && s.pcs[p] == Waiting && h < NUM && m < NUM && l < NUM
    && h != m && h != l && m != l && s.free[h] && s.free[m] && s.free[l]
  }

  /** Chains already in flight keep clear of the three descriptors just allocated. */
  lemma OthersClear(s: State, p: nat, h: nat, m: nat, l: nat)
    requires CanSubmit(s, p, h, m, l)
    ensures forall q: nat, i: nat :: q < |s.pcs| && Has(s.pcs[q], i) ==> i != h && i != m && i != l && q != p
  {
    hide Tickets, Device, Rings, Indices;
    forall q: nat, i: nat | q < |s.pcs| && Has(s.pcs[q], i) ensures i != h && i != m && i != l && q != p {
      assert IsChain(s.desc, s.pcs[q].h, s.pcs[q].m, s.pcs[q].l);
      assert !s.free[i];
    }
  }

  lemma SubmittedChains(s: State, p: nat, h: nat, m: nat, l: nat)
    requires CanSubmit(s, p, h, m, l)
    ensures var t := Submitted(s, p, h, m, l);
      forall q :: 0 <= q < |t.pcs| && t.pcs[q].InFlight? ==>
        IsChain(t.desc, t.pcs[q].h, t.pcs[q].m, t.pcs[q].l) && t.info[t.pcs[q].h] == q
  {
    hide Tickets, Device, Rings, Indices;
    OthersClear(s, p, h, m, l);
    var t := Submitted(s, p, h, m, l);
    forall q | 0 <= q < |t.pcs| && t.pcs[q].InFlight?
      ensures IsChain(t.desc, t.pcs[q].h, t.pcs[q].m, t.pcs[q].l) && t.info[t.pcs[q].h] == q
    {
      if q != p {
        var c := s.pcs[q];
        assert Has(c, c.h) && Has(c, c.m) && Has(c, c.l);
      }
    }
  }

  lemma SubmittedPartition(s: State, p: nat, h: nat, m: nat, l: nat)
    requires CanSubmit(s, p, h, m, l)
    ensures Shape(Submitted(s, p, h, m, l)) && Partition(Submitted(s, p, h, m, l))
  {
    hide Tickets, Device, Rings, Indices, IsChain;
    OthersClear(s, p, h, m, l);
    SubmittedChains(s, p, h, m, l);
    var t := Submitted(s, p, h, m, l);
    forall q: nat, i: nat | q < |t.pcs| ensures Has(t.pcs[q], i) <==>
      if q == p then i == h || i == m || i == l else Has(s.pcs[q], i) {}
    forall i: nat | i < NUM && !t.free[i] ensures exists q :: 0 <= q < |t.pcs| && Has(t.pcs[q], i) {
      if i == h || i == m || i == l {
        assert Has(t.pcs[p], i);
      } else {
        var q :| 0 <= q < |s.pcs| && Has(s.pcs[q], i);
        assert Has(t.pcs[q], i);
      }
    }
  }

  lemma SubmittedTickets(s: State, p: nat, h: nat, m: nat, l: nat)
    requires CanSubmit(s, p, h, m, l)
    ensures Shape(Submitted(s, p, h, m, l)) && Tickets(Submitted(s, p, h, m, l))
  {
    hide Partition, Rings;
    var t := Submitted(s, p, h, m, l);
    var n := |s.heads|;
    assert forall k :: k in s.done[..s.handled] ==> k in s.done;
    assert !Over(t, n);
    assert forall k :: Over(t, k) <==> Over(s, k);
  }

  lemma SubmittedDevice(s: State, p: nat, h: nat, m: nat, l: nat)
    requires CanSubmit(s, p, h, m, l)
    ensures var t := Submitted(s, p, h, m, l); Shape(t) && Indices(t) && Device(t)
  {
    hide Partition, Tickets, Rings;
  }

  lemma SubmittedRings(s: State, p: nat, h: nat, m: nat, l: nat)
    requires CanSubmit(s, p, h, m, l)
    ensures var t := Submitted(s, p, h, m, l); Shape(t) && Indices(t) && Device(t) && Rings(t)
  {
    hide Partition, Tickets, Device;
    SubmittedDevice(s, p, h, m, l);
    FewOutstanding(s);
    var t := Submitted(s, p, h, m, l);
    ModuloExact(|s.heads|, |s.heads|);
    forall k | t.taken <= k < |t.heads| ensures t.avail[k % NUM] == t.heads[k] {
      if k < |s.heads| {
        ModuloExact(k, |s.heads|);
      }
    }
    forall i | t.handled <= i < |t.done| ensures t.done[i] < |t.heads| && t.used[i % NUM] == t.heads[t.done[i]] {
      assert s.done[i] < |s.heads| && s.used[i % NUM] == s.heads[s.done[i]];
    }
  }

  lemma StepKeeps(s: State, a: Action, t: State)
    requires Inv(s) && Step(s, a, t)
    ensures Inv(t)
  {
    hide Step, Partition, Tickets, Device, Rings, Indices;
    match a
    case Begin(p) => BeginKeeps(s, p, t);
    case Submit(p) => SubmitKeeps(s, p, t);
    case Return(p) => ReturnKeeps(s, p, t);
    case Intr => IntrKeeps(s, t);
    case DevTake => DevTakeKeeps(s, t);
    case DevComplete(k) => DevCompleteKeeps(s, k, t);
  }

  // ---------------------------------------------------------------- runs

  datatype Trace = Boot(s: State) | Then(before: Trace, a: Action, s: State)

  ghost predicate IsRun(tr: Trace) {
    match tr
    case Boot(s) => Init(s)
    case Then(before, a, t) => IsRun(before) && Shape(before.s) && Step(before.s, a, t)
  }

  lemma {:induction false} RunInv(tr: Trace)
    requires IsRun(tr)
    ensures Inv(tr.s)
  {
    match tr
    case Boot(s) =>
    case Then(before, a, t) =>
      RunInv(before);
      StepKeeps(before.s, a, t);
  }

  /** In every run: who is returning, and what the interrupt handler sees. */
  lemma EveryRun(tr: Trace)
    requires IsRun(tr)
    ensures Inv(tr.s)
    ensures forall i, j :: 0 <= i < j < |tr.s.done| ==> tr.s.done[i] != tr.s.done[j]
    ensures |tr.s.heads| - tr.s.taken <= 2 && |tr.s.done| - tr.s.handled <= 2
    ensures MoreUsed(tr.s) <==> tr.s.handled < |tr.s.done|
  {
    RunInv(tr);
    FewOutstanding(tr.s);
    InterruptExact(tr.s);
  }

  /** A step that ends virtio_disk_rw for p is one after the completion of p's own request was handled. */
  lemma ResumesAfterOwnCompletion(tr: Trace, p: nat, t: State)
    requires IsRun(tr) && Shape(tr.s) && Step(tr.s, Return(p), t)
    ensures tr.s.handled <= |tr.s.done| && tr.s.pcs[p].ticket in tr.s.done[..tr.s.handled]
    ensures tr.s.pcs[p].ticket < |tr.s.owners| && tr.s.owners[tr.s.pcs[p].ticket] == p
  {
    RunInv(tr);
    ReturnSafe(tr.s, p);
  }

  /** The interrupt handler clears the flag of the request that was completed, and of no other. */
  lemma CompletesTheRightRequest(tr: Trace, t: State)
    requires IsRun(tr) && Shape(tr.s) && Step(tr.s, Intr, t)
    ensures tr.s.handled < |tr.s.done| && var k := tr.s.done[tr.s.handled];
      k < |tr.s.heads| && tr.s.owners[k] < |tr.s.pcs| && tr.s.pcs[tr.s.owners[k]].InFlight? &&
        tr.s.pcs[tr.s.owners[k]].ticket == k
      && tr.s.disk[tr.s.owners[k]] && t.disk == tr.s.disk[tr.s.owners[k] := false]
  {
    RunInv(tr);
    InterruptExact(tr.s);
    Unhandled(tr.s, tr.s.handled);
  }
}
