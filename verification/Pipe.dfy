/**
 Pipes (kernel/pipe.c) on top of sleep and wakeup (kernel/proc.c), as a state machine whose steps
 are the points where processes can interleave: acquiring the pipe lock, moving one byte, waking
 one process, and the three stages of sleep.  A process holds its own p->lock in `Unlocking` and
 `Setting`; a waker that comes to such a process waits.

 The file layer closes an end only when its last reference goes, so no process is inside piperead
 when the read end closes, nor inside pipewrite when the write end does.
 */
module Pipe {
  import opened Common

  const PIPESIZE: nat := 512
  const WORD: nat := 0x1_0000_0000
  const NPROC: nat := 50

  type Byte = bv8

  datatype Chan = NRead | NWrite
  datatype Call = Write(todo: seq<Byte>) | Read(n: nat) | CloseWrite | CloseRead

  /** Where a process is in the pipe code. */
  datatype Pc =
    | Idle
    | WantLock(call: Call)                      // at acquire(&pi->lock)
    | WriteLoop(todo: seq<Byte>, dirty: bool)   // dirty: bytes stored since readers were last woken
    | FullWake(todo: seq<Byte>, k: nat)         // wakeup(&pi->nread) before sleeping
    | WriteDone(k: nat)                         // wakeup(&pi->nread) before returning
    | ReadWait(n: nat)
    | ReadCopy(n: nat)
    | ReadDone(k: nat)                          // wakeup(&pi->nwrite)
    | CloseWake(writable: bool, k: nat)
    | Locking(chan: Chan, call: Call)           // sleep: about to take p->lock
    | Unlocking(chan: Chan, call: Call)         // sleep: about to release the pipe lock
    | Setting(chan: Chan, call: Call)           // sleep: about to set chan and SLEEPING
    | Asleep(chan: Chan, call: Call)

  datatype State = State(
    data: seq<Byte>, nread: nat, nwrite: nat, readopen: bool, writeopen: bool, holder: int,
    pcs: seq<Pc>, killed: seq<bool>, accepted: seq<Byte>, consumed: seq<Byte>, lost: bool)

  const FREE: int := -1

  predicate Empty(nread: nat, nwrite: nat) { nread == nwrite }
  predicate IsFull(nread: nat, nwrite: nat) { nwrite == (nread + PIPESIZE) % WORD }

  predicate HoldsPipe(pc: Pc) {
    pc.WriteLoop? || pc.FullWake? || pc.WriteDone? || pc.ReadWait? || pc.ReadCopy? || pc.ReadDone? || pc.CloseWake?
    || pc.Locking? || pc.Unlocking?
  }

  predicate HoldsSelf(pc: Pc) { pc.Unlocking? || pc.Setting? }

  predicate InRead(pc: Pc) {
    pc.ReadWait? || pc.ReadCopy? || pc.ReadDone?
    || ((pc.WantLock? || pc.Locking? || pc.Unlocking? || pc.Setting? || pc.Asleep?) && pc.call.Read?)
  }

  predicate InWrite(pc: Pc) {
    pc.WriteLoop? || pc.FullWake? || pc.WriteDone?
    || ((pc.WantLock? || pc.Locking? || pc.Unlocking? || pc.Setting? || pc.Asleep?) && pc.call.Write?)
  }

  function Goto(s: State, p: nat, pc: Pc): State
    requires p < |s.pcs|
  {
    s.(pcs := s.pcs[p := pc])
  }

  function Release(s: State, p: nat): State
    requires p < |s.pcs|
  {
    s.(pcs := s.pcs[p := Idle], holder := FREE)
  }

  // ---------------------------------------------------------------- steps

  datatype Action =
    | Start(p: nat, call: Call)
    | Run(p: nat, fail: bool)     // the next step of p; fail: the user copy at this point faults
    | Kill(p: nat)

  /** acquire(&pi->lock), and for pipeclose the flag it sets first. */
  function Acquired(s: State, p: nat, call: Call): State
    requires p < |s.pcs|
  {
    var t := s.(holder := p);
    match call
    case Write(todo) => Goto(t, p, WriteLoop(todo, false))
    case Read(n) => Goto(t, p, ReadWait(n))
    case CloseWrite => Goto(t.(writeopen := false), p, CloseWake(true, 0))
    case CloseRead => Goto(t.(readopen := false), p, CloseWake(false, 0))
  }

  predicate Sleepy(pc: Pc, c: Chan) {
    (pc.Locking? || pc.Unlocking? || pc.Setting? || pc.Asleep?) && pc.chan == c
  }

  /** Some reader sleeps or is on its way to. */
  predicate ReadersWait(pcs: seq<Pc>) {
    exists q :: 0 <= q < |pcs| && Sleepy(pcs[q], NRead)
  }

  /**
   One turn of the loops in pipewrite.  `lost` notes that bytes were left without a wakeup while a
   reader waited, until the next wakeup of the readers has gone through the table.
   */
  function WriteStep(s: State, p: nat, fail: bool): State
    requires p < |s.pcs| == |s.killed| && s.pcs[p].WriteLoop? && |s.data| == PIPESIZE
  {
    var todo, dirty := s.pcs[p].todo, s.pcs[p].dirty;
    if todo == [] then Goto(s, p, WriteDone(0))
    else if IsFull(s.nread, s.nwrite) then
      if !s.readopen || s.killed[p] then Release(s, p).(lost := s.lost || (dirty && ReadersWait(s.pcs)))
      else Goto(s, p, FullWake(todo, 0))
    else if fail then Goto(s, p, WriteDone(0))
    else
      Goto(s.(data := s.data[s.nwrite % PIPESIZE := todo[0]], nwrite := (s.nwrite + 1) % WORD,
        accepted := s.accepted + [todo[0]]),
           p, WriteLoop(todo[1..], true))
  }

  function ReadWaitStep(s: State, p: nat): State
    requires p < |s.pcs| == |s.killed| && s.pcs[p].ReadWait?
  {
    if Empty(s.nread, s.nwrite) && s.writeopen then
      if s.killed[p] then Release(s, p) else Goto(s, p, Locking(NRead, Read(s.pcs[p].n)))
    else Goto(s, p, ReadCopy(s.pcs[p].n))
  }

  /** One turn of the copy loop in piperead; the byte is gone even when copying it out fails. */
  function ReadCopyStep(s: State, p: nat, fail: bool): State
    requires p < |s.pcs| && s.pcs[p].ReadCopy? && |s.data| == PIPESIZE
  {
    var n := s.pcs[p].n;
    if n == 0 || Empty(s.nread, s.nwrite) then Goto(s, p, ReadDone(0))
    else
      Goto(s.(nread := (s.nread + 1) % WORD, consumed := s.consumed + [s.data[s.nread % PIPESIZE]]),
           p, if fail then ReadDone(0) else ReadCopy(n - 1))
  }

  /** wakeup looks at process k. */
  function WokenUp(pcs: seq<Pc>, k: nat, c: Chan): seq<Pc>
    requires k < |pcs|
  {
    if pcs[k].Asleep? && pcs[k].chan == c then pcs[k := WantLock(pcs[k].call)] else pcs
  }

  function WakeStep(s: State, p: nat, k: nat, c: Chan, next: Pc): State
    requires p < |s.pcs| && k < |s.pcs|
  {
    Goto(s.(pcs := WokenUp(s.pcs, k, c)), p, next)
  }

  /** An end is closed only when no process is inside a call on it. */
  ghost predicate MayRun(pcs: seq<Pc>, call: Call) {
    && (call.CloseRead? ==> forall q :: 0 <= q < |pcs| ==> !InRead(pcs[q]))
    && (call.CloseWrite? ==> forall q :: 0 <= q < |pcs| ==> !InWrite(pcs[q]))
  }

  predicate Waking(pc: Pc) { pc.FullWake? || pc.WriteDone? || pc.ReadDone? || pc.CloseWake? }

  function WakeChan(pc: Pc): Chan
    requires Waking(pc)
  {
    if pc.ReadDone? || (pc.CloseWake? && !pc.writable) then NWrite else NRead
  }

  function Advanced(pc: Pc): Pc
    requires Waking(pc)
  {
    match pc
    case FullWake(todo, k) => FullWake(todo, k + 1)
    case WriteDone(k) => WriteDone(k + 1)
    case ReadDone(k) => ReadDone(k + 1)
    case CloseWake(w, k) => CloseWake(w, k + 1)
  }

  /** What follows a wakeup. */
  function WakeOver(s: State, p: nat): State
    requires p < |s.pcs|
  {
    if s.pcs[p].FullWake? then Goto(s, p, Locking(NWrite, Write(s.pcs[p].todo))) else Release(s, p)
  }

  /** One turn of the loop in wakeup, or what follows it. */
  function WakeTurn(s: State, p: nat): Option<State>
    requires p < |s.pcs| == NPROC && Waking(s.pcs[p])
  {
    var pc := s.pcs[p];
    if pc.k >= NPROC then Some(WakeOver(s.(lost := s.lost && WakeChan(pc) == NWrite), p))
    else if HoldsSelf(s.pcs[pc.k]) then None
    else Some(WakeStep(s, p, pc.k, WakeChan(pc), Advanced(pc)))
  }

  function SleepTurn(s: State, p: nat): State
    requires p < |s.pcs| && (s.pcs[p].Locking? || s.pcs[p].Unlocking? || s.pcs[p].Setting?)
  {
    match s.pcs[p]
    case Locking(c, call) => Goto(s, p, Unlocking(c, call))
    case Unlocking(c, call) => Goto(s.(holder := FREE), p, Setting(c, call))
    case Setting(c, call) => Goto(s, p, Asleep(c, call))
  }

  /** The step process p takes next; None when it has to wait. */
  ghost function Next(s: State, p: nat, fail: bool): Option<State>
    requires Shape(s) && p < NPROC
  {
    var pc := s.pcs[p];
    if pc.Idle? || pc.Asleep? then None
    else if pc.WantLock? then
      if s.holder == FREE && MayRun(s.pcs, pc.call) then Some(Acquired(s, p, pc.call)) else None
    else if pc.WriteLoop? then Some(WriteStep(s, p, fail))
    else if pc.ReadWait? then Some(ReadWaitStep(s, p))
    else if pc.ReadCopy? then Some(ReadCopyStep(s, p, fail))
    else if Waking(pc) then WakeTurn(s, p)
    else Some(SleepTurn(s, p))
  }

  ghost predicate Step(s: State, a: Action, t: State)
    requires Shape(s)
  {
    a.p < NPROC
    && match a
       case Start(p, call) =>
         && s.pcs[p] == Idle && t == Goto(s, p, WantLock(call))
         && (call.Read? ==> s.readopen) && (call.Write? ==> s.writeopen)
       case Run(p, fail) => Next(s, p, fail) == Some(t)
       case Kill(p) => !HoldsSelf(s.pcs[p]) && t == Killed(s, p)
  }

  function Killed(s: State, p: nat): State
    requires p < |s.pcs| == |s.killed|
  {
    s.(killed := s.killed[p := true], pcs := if s.pcs[p].Asleep? then s.pcs[p := WantLock(s.pcs[p].call)] else s.pcs)
  }

  ghost predicate Shape(s: State) {
    |s.pcs| == NPROC && |s.killed| == NPROC && |s.data| == PIPESIZE && s.nread < WORD && s.nwrite < WORD
  }

  ghost predicate Init(s: State) {
    && Shape(s) && s.nread == 0 && s.nwrite == 0 && s.readopen && s.writeopen && s.holder == FREE
    && (forall p :: 0 <= p < NPROC ==> s.pcs[p] == Idle && !s.killed[p])
    && s.accepted == [] && s.consumed == [] && !s.lost
  }

  // ---------------------------------------------------------------- the ring

  /** Consumed bytes are a prefix of the accepted ones, the rest is in the ring; the counters are wrapped counts. */
  ghost predicate RingOk(data: seq<Byte>, nread: nat, nwrite: nat, accepted: seq<Byte>, consumed: seq<Byte>) {
    && |data| == PIPESIZE && nread < WORD && nwrite < WORD
    && consumed <= accepted && |accepted| <= |consumed| + PIPESIZE
    && nwrite == |accepted| % WORD && nread == |consumed| % WORD
    && (forall i :: |consumed| <= i < |accepted| ==> data[i % PIPESIZE] == accepted[i])
  }

  ghost predicate Ring(s: State) {
    Shape(s) && RingOk(s.data, s.nread, s.nwrite, s.accepted, s.consumed)
  }

  /** The tests on the wrapped counters mean what they say. */
  lemma CounterTests(data: seq<Byte>, nread: nat, nwrite: nat, accepted: seq<Byte>, consumed: seq<Byte>)
    requires RingOk(data, nread, nwrite, accepted, consumed)
    ensures Empty(nread, nwrite) <==> |consumed| == |accepted|
    ensures IsFull(nread, nwrite) <==> |accepted| == |consumed| + 512
  {
    var d := |accepted| - |consumed|;
    var r := |consumed| % WORD;
    assert |accepted| % WORD == (r + d) % WORD;
    assert r + d < 2 * WORD;
  }

  lemma IndexWrap(n: nat)
    ensures n % WORD % PIPESIZE == n % PIPESIZE
    ensures (n % WORD + 1) % WORD == (n + 1) % WORD
  {
    var q := n / WORD;
    assert n == q * WORD + n % WORD;
    assert n == (q * 0x80_0000) * PIPESIZE + n % WORD;
  }

  /** Storing a byte appends it to what waits. */
  lemma RingStored(data: seq<Byte>, nread: nat, nwrite: nat, accepted: seq<Byte>, consumed: seq<Byte>, b: Byte)
    requires RingOk(data, nread, nwrite, accepted, consumed) && !IsFull(nread, nwrite)
    ensures RingOk(data[nwrite % PIPESIZE := b], nread, (nwrite + 1) % WORD, accepted + [b], consumed)
  {
    CounterTests(data, nread, nwrite, accepted, consumed);
    IndexWrap(|accepted|);
    var n := |accepted|;
    forall i | |consumed| <= i < n ensures i % PIPESIZE != n % PIPESIZE {
      DifferentSlots(i, n);
    }
  }

  lemma DifferentSlots(i: nat, n: nat)
    requires i < n < i + PIPESIZE
    ensures i % PIPESIZE != n % PIPESIZE
  {
  }

  /** Taking a byte takes the oldest. */
  lemma RingTaken(data: seq<Byte>, nread: nat, nwrite: nat, accepted: seq<Byte>, consumed: seq<Byte>)
    requires RingOk(data, nread, nwrite, accepted, consumed) && !Empty(nread, nwrite)
    ensures RingOk(data, (nread + 1) % WORD, nwrite, accepted, consumed + [data[nread % PIPESIZE]])
    ensures |consumed| < |accepted| && data[nread % PIPESIZE] == accepted[|consumed|]
  {
    CounterTests(data, nread, nwrite, accepted, consumed);
    IndexWrap(|consumed|);
  }

  /** The buffer of a pipe, as pipewrite and piperead use it between two sleeps. */
  class PipeBuffer {
    const data: array<Byte>
    var nread: nat
    var nwrite: nat
    ghost var accepted: seq<Byte>
    ghost var consumed: seq<Byte>

    ghost predicate Valid()
      reads this, data
    {
      RingOk(data[..], nread, nwrite, accepted, consumed)
    }

    constructor ()
      ensures Valid() && accepted == [] && consumed == [] && fresh(data)
    {
      data := new Byte[PIPESIZE](_ => 0);
      nread, nwrite, accepted, consumed := 0, 0, [], [];
    }

    /** The loop of pipewrite up to its end or a full pipe: as many bytes as there is room for. */
    method Store(src: seq<Byte>) returns (n: nat)
      requires Valid()
      modifies this, data
      ensures Valid() && consumed == old(consumed) && n <= |src| && accepted == old(accepted) + src[..n]
      ensures n < |src| ==> IsFull(nread, nwrite) && |accepted| == |consumed| + PIPESIZE
    {
      hide RingOk, IsFull;
      n := 0;
      while n < |src| && !IsFull(nread, nwrite)
        invariant Valid() && consumed == old(consumed) && n <= |src| && accepted == old(accepted) + src[..n]
      {
        BufferSize();
        RingStored(data[..], nread, nwrite, accepted, consumed, src[n]);
        ghost var was := data[..];
        data[nwrite % PIPESIZE] := src[n];
        assert data[..] == was[nwrite % PIPESIZE := src[n]];
        nwrite := (nwrite + 1) % WORD;
        accepted := accepted + [src[n]];
        n := n + 1;
      }
      CounterTests(data[..], nread, nwrite, accepted, consumed);
    }

    /** The copy loop of piperead: the oldest bytes, as many as asked for and waiting. */
    method Fetch(n: nat) returns (out: seq<Byte>)
      requires Valid()
      modifies this
      ensures Valid() && accepted == old(accepted) && consumed == old(consumed) + out <= accepted
      ensures |out| <= n && (|out| < n ==> Empty(nread, nwrite) && consumed == accepted)
    {
      hide RingOk, Empty;
      out := [];
      while |out| < n && !Empty(nread, nwrite)
        invariant Valid() && accepted == old(accepted) && consumed == old(consumed) + out && |out| <= n
      {
        BufferSize();
        RingTaken(data[..], nread, nwrite, accepted, consumed);
        var ch := data[nread % PIPESIZE];
        nread := (nread + 1) % WORD;
        consumed := consumed + [ch];
        out := out + [ch];
      }
      CounterTests(data[..], nread, nwrite, accepted, consumed);
      BufferSize();
    }

    lemma BufferSize()
      requires Valid()
      ensures data.Length == PIPESIZE && consumed <= accepted
    {
    }
  }

  /** Fields the ring depends on. */
  ghost predicate SameRing(s: State, t: State) {
    && t.data == s.data && t.nread == s.nread && t.nwrite == s.nwrite
    && t.accepted == s.accepted && t.consumed == s.consumed
    && |t.pcs| == |s.pcs| && |t.killed| == |s.killed|
  }

  lemma QuietSteps(s: State, a: Action, t: State)
    requires Shape(s) && Step(s, a, t) && (a.Run? ==> !s.pcs[a.p].WriteLoop? && !s.pcs[a.p].ReadCopy?)
    ensures SameRing(s, t)
  {
    hide HoldsSelf, MayRun, Empty, WriteStep, ReadCopyStep, Advanced, WakeChan;
    if a.Run? && Waking(s.pcs[a.p]) {
      assert WakeTurn(s, a.p) == Some(t);
    }
  }

  /** No step disturbs the ring. */
  lemma RingKept(s: State, a: Action, t: State)
    requires Ring(s) && Step(s, a, t)
    ensures Ring(t)
  {
    hide IsFull, Empty, HoldsSelf, InRead, InWrite, Next;
    if !a.Run? || (!s.pcs[a.p].WriteLoop? && !s.pcs[a.p].ReadCopy?) {
      QuietSteps(s, a, t);
    } else {
      RingMoves(s, a.p, a.fail, t);
    }
  }

  lemma RingMoves(s: State, p: nat, fail: bool, t: State)
    requires Ring(s) && p < NPROC && (s.pcs[p].WriteLoop? || s.pcs[p].ReadCopy?) && Next(s, p, fail) == Some(t)
    ensures Ring(t)
  {
    hide IsFull, Empty, RingOk;
    if s.pcs[p].WriteLoop? {
      if !IsFull(s.nread, s.nwrite) && s.pcs[p].todo != [] {
        RingStored(s.data, s.nread, s.nwrite, s.accepted, s.consumed, s.pcs[p].todo[0]);
      }
    } else if !Empty(s.nread, s.nwrite) {
      RingTaken(s.data, s.nread, s.nwrite, s.accepted, s.consumed);
    }
  }

  // ---------------------------------------------------------------- sleep and wakeup

  ghost predicate Mutex(s: State)
    requires Shape(s)
  {
    forall p :: 0 <= p < NPROC ==> (HoldsPipe(s.pcs[p]) <==> s.holder == p)
  }

  /** A call sleeps on its own channel, and nobody is inside a call on a closed end. */
  predicate CallOk(pc: Pc, full: bool, readopen: bool, writeopen: bool) {
    && (Sleepy(pc, NRead) ==> pc.call.Read?)
    && (Sleepy(pc, NWrite) ==> pc.call.Write?)
    && (InRead(pc) ==> readopen)
    && (InWrite(pc) ==> writeopen)
    && (pc.FullWake? ==> full && readopen)
  }

  lemma OkFrame(pc: Pc, full: bool, full': bool, readopen: bool, writeopen: bool, readopen': bool, writeopen': bool)
    requires CallOk(pc, full, readopen, writeopen) && !pc.FullWake?
    requires (InRead(pc) ==> readopen' == readopen) && (InWrite(pc) ==> writeopen' == writeopen)
    ensures CallOk(pc, full', readopen', writeopen')
  {
  }

  lemma OkWant(call: Call, full: bool, readopen: bool, writeopen: bool)
    requires (call.Read? ==> readopen) && (call.Write? ==> writeopen)
    ensures CallOk(WantLock(call), full, readopen, writeopen)
  {
  }

  lemma OkWoken(pc: Pc, full: bool, readopen: bool, writeopen: bool)
    requires pc.Asleep? && CallOk(pc, full, readopen, writeopen)
    ensures CallOk(WantLock(pc.call), full, readopen, writeopen)
  {
  }

  lemma OkAdvanced(pc: Pc, full: bool, readopen: bool, writeopen: bool)
    requires Waking(pc) && CallOk(pc, full, readopen, writeopen)
    ensures CallOk(Advanced(pc), full, readopen, writeopen) && CallOk(Idle, full, readopen, writeopen)
    ensures pc.FullWake? ==> CallOk(Locking(NWrite, Write(pc.todo)), full, readopen, writeopen)
  {
  }

  lemma OkAcquired(call: Call, full: bool, readopen: bool, writeopen: bool)
    requires CallOk(WantLock(call), full, readopen, writeopen)
    ensures call.Write? ==> CallOk(WriteLoop(call.todo, false), full, readopen, writeopen)
    ensures call.Read? ==> CallOk(ReadWait(call.n), full, readopen, writeopen)
    ensures CallOk(CloseWake(true, 0), full, readopen, false) && CallOk(CloseWake(false, 0), full, false, writeopen)
  {
  }

  ghost predicate CallsMatch(s: State)
    requires Shape(s)
  {
    forall p :: 0 <= p < NPROC ==> CallOk(s.pcs[p], IsFull(s.nread, s.nwrite), s.readopen, s.writeopen)
  }

  /** A process at pc is bound to wake process p on channel c before it gives up the lock. */
  predicate WillWake(pc: Pc, c: Chan, p: nat) {
    match c
    case NRead =>
      (pc.WriteLoop? && pc.dirty) || ((pc.FullWake? || pc.WriteDone? || (pc.CloseWake? && pc.writable)) && pc.k <= p)
    case NWrite => pc.ReadCopy? || (pc.ReadDone? && pc.k <= p) || (pc.CloseWake? && !pc.writable && pc.k <= p)
  }

  /** There is something for a sleeper on c to do. */
  predicate Trouble(s: State, c: Chan) {
    match c
    case NRead => (!Empty(s.nread, s.nwrite) && !s.lost) || !s.writeopen
    case NWrite => !IsFull(s.nread, s.nwrite) || !s.readopen
  }

  predicate Pending(s: State, c: Chan, p: nat)
    requires |s.pcs| == NPROC
  {
    0 <= s.holder < NPROC && WillWake(s.pcs[s.holder], c, p)
  }

  ghost predicate NoneStranded(s: State)
    requires Shape(s)
  {
    forall p, c :: 0 <= p < NPROC && Sleepy(s.pcs[p], c) && Trouble(s, c) ==> Pending(s, c, p)
  }

  /** A wakeup of the readers leaves none behind where it has been. */
  ghost predicate Swept(s: State)
    requires Shape(s)
  {
    0 <= s.holder < NPROC && Waking(s.pcs[s.holder]) && WakeChan(s.pcs[s.holder]) == NRead ==>
      forall q :: 0 <= q < NPROC && q < s.pcs[s.holder].k ==> !Sleepy(s.pcs[q], NRead)
  }

  ghost predicate Inv(s: State) {
    Ring(s) && Mutex(s) && CallsMatch(s) && NoneStranded(s) && Swept(s)
  }

  lemma InitInv(s: State)
    requires Init(s)
    ensures Inv(s)
  {
  }

  lemma StartMutex(s: State, t: State, p: nat, call: Call)
    requires Shape(s) && Shape(t) && Mutex(s) && CallsMatch(s) && NoneStranded(s)
    requires p < NPROC && s.pcs[p] == Idle && t == Goto(s, p, WantLock(call)) && (call.Read? ==> s.readopen)
    requires call.Write? ==> s.writeopen
    ensures Mutex(t)
  {
    hide IsFull, Empty, NoneStranded, CallsMatch, MayRun;
  }

  lemma StartCalls(s: State, t: State, p: nat, call: Call)
    requires Shape(s) && Shape(t) && Mutex(s) && CallsMatch(s) && NoneStranded(s)
    requires p < NPROC && s.pcs[p] == Idle && t == Goto(s, p, WantLock(call)) && (call.Read? ==> s.readopen)
    requires call.Write? ==> s.writeopen
    ensures CallsMatch(t)
  {
    hide IsFull, Empty, NoneStranded, CallOk, InRead, InWrite;
    var full, full' := IsFull(s.nread, s.nwrite), IsFull(t.nread, t.nwrite);
    forall q | 0 <= q < NPROC ensures CallOk(t.pcs[q], full', t.readopen, t.writeopen) {
      assert CallOk(s.pcs[q], full, s.readopen, s.writeopen);
      if q == p {
        OkWant(call, full, s.readopen, s.writeopen);
      }
    }
  }

  lemma StartWakeups(s: State, t: State, p: nat, call: Call)
    requires Shape(s) && Shape(t) && Mutex(s) && CallsMatch(s) && NoneStranded(s)
    requires p < NPROC && s.pcs[p] == Idle && t == Goto(s, p, WantLock(call)) && (call.Read? ==> s.readopen)
    requires call.Write? ==> s.writeopen
    ensures NoneStranded(t)
  {
    hide IsFull, Empty;
    forall q, c | 0 <= q < NPROC && Sleepy(t.pcs[q], c) && Trouble(t, c) ensures Pending(t, c, q) {
      assert Sleepy(s.pcs[q], c) && Trouble(s, c) ==> Pending(s, c, q);
    }
  }

  lemma KillMutex(s: State, t: State, p: nat)
    requires Shape(s) && Shape(t) && Mutex(s) && CallsMatch(s) && NoneStranded(s)
    requires p < NPROC && !HoldsSelf(s.pcs[p]) && t == Killed(s, p)
    ensures Mutex(t)
  {
    hide IsFull, Empty, NoneStranded, CallsMatch, MayRun;
  }

  lemma KillCalls(s: State, t: State, p: nat)
    requires Shape(s) && Shape(t) && Mutex(s) && CallsMatch(s) && NoneStranded(s)
    requires p < NPROC && !HoldsSelf(s.pcs[p]) && t == Killed(s, p)
    ensures CallsMatch(t)
  {
    hide IsFull, Empty, NoneStranded, CallOk, InRead, InWrite;
    var full, full' := IsFull(s.nread, s.nwrite), IsFull(t.nread, t.nwrite);
    forall q | 0 <= q < NPROC ensures CallOk(t.pcs[q], full', t.readopen, t.writeopen) {
      assert CallOk(s.pcs[q], full, s.readopen, s.writeopen);
      if q == p && s.pcs[p].Asleep? {
        OkWoken(s.pcs[q], full, s.readopen, s.writeopen);
      }
    }
  }

  lemma KillWakeups(s: State, t: State, p: nat)
    requires Shape(s) && Shape(t) && Mutex(s) && CallsMatch(s) && NoneStranded(s)
    requires p < NPROC && !HoldsSelf(s.pcs[p]) && t == Killed(s, p)
    ensures NoneStranded(t)
  {
    hide IsFull, Empty;
    forall q, c | 0 <= q < NPROC && Sleepy(t.pcs[q], c) && Trouble(t, c) ensures Pending(t, c, q) {
      assert Sleepy(s.pcs[q], c) && Trouble(s, c) ==> Pending(s, c, q);
    }
  }

  lemma AcquireMutex(s: State, t: State, p: nat)
    requires Shape(s) && Shape(t) && Mutex(s) && CallsMatch(s) && NoneStranded(s)
    requires p < NPROC && s.pcs[p].WantLock? && s.holder == FREE && MayRun(s.pcs, s.pcs[p].call)
    requires t == Acquired(s, p, s.pcs[p].call)
    ensures Mutex(t)
  {
    hide IsFull, Empty, NoneStranded, CallsMatch, MayRun;
  }

  lemma AcquireCalls(s: State, t: State, p: nat)
    requires Shape(s) && Shape(t) && Mutex(s) && CallsMatch(s) && NoneStranded(s)
    requires p < NPROC && s.pcs[p].WantLock? && s.holder == FREE && MayRun(s.pcs, s.pcs[p].call)
    requires t == Acquired(s, p, s.pcs[p].call)
    ensures CallsMatch(t)
  {
    hide IsFull, Empty, NoneStranded, CallOk, InRead, InWrite;
    var full, full' := IsFull(s.nread, s.nwrite), IsFull(t.nread, t.nwrite);
    forall q | 0 <= q < NPROC ensures CallOk(t.pcs[q], full', t.readopen, t.writeopen) {
      assert CallOk(s.pcs[q], full, s.readopen, s.writeopen);
      if q == p {
        OkAcquired(s.pcs[p].call, full, s.readopen, s.writeopen);
      } else {
        OkFrame(s.pcs[q], full, full', s.readopen, s.writeopen, t.readopen, t.writeopen);
      }
    }
  }

  lemma AcquireWakeups(s: State, t: State, p: nat)
    requires Shape(s) && Shape(t) && Mutex(s) && CallsMatch(s) && NoneStranded(s)
    requires p < NPROC && s.pcs[p].WantLock? && s.holder == FREE && MayRun(s.pcs, s.pcs[p].call)
    requires t == Acquired(s, p, s.pcs[p].call)
    ensures NoneStranded(t)
  {
    hide IsFull, Empty;
    forall q, c | 0 <= q < NPROC && Sleepy(t.pcs[q], c) && Trouble(t, c) ensures Pending(t, c, q) {
      assert Sleepy(s.pcs[q], c) && Trouble(s, c) ==> Pending(s, c, q);
    }
  }

  lemma WriteMutex(s: State, t: State, p: nat, fail: bool)
    requires Shape(s) && Shape(t) && Mutex(s) && CallsMatch(s) && NoneStranded(s)
    requires p < NPROC && s.pcs[p].WriteLoop? && t == WriteStep(s, p, fail)
    ensures Mutex(t)
  {
    hide IsFull, Empty, NoneStranded, CallsMatch, MayRun;
  }

  lemma WriteCalls(s: State, t: State, p: nat, fail: bool)
    requires Shape(s) && Shape(t) && Mutex(s) && CallsMatch(s) && NoneStranded(s)
    requires p < NPROC && s.pcs[p].WriteLoop? && t == WriteStep(s, p, fail)
    ensures CallsMatch(t)
  {
    hide IsFull, Empty, NoneStranded, HoldsSelf;
    forall q | 0 <= q < NPROC ensures CallOk(t.pcs[q], IsFull(t.nread, t.nwrite), t.readopen, t.writeopen) {
      assert CallOk(s.pcs[q], IsFull(s.nread, s.nwrite), s.readopen, s.writeopen);
    }
  }

  lemma WriteWakeups(s: State, t: State, p: nat, fail: bool)
    requires Shape(s) && Shape(t) && Mutex(s) && CallsMatch(s) && NoneStranded(s)
    requires p < NPROC && s.pcs[p].WriteLoop? && t == WriteStep(s, p, fail)
    ensures NoneStranded(t)
  {
    hide IsFull, Empty;
    forall q, c | 0 <= q < NPROC && Sleepy(t.pcs[q], c) && Trouble(t, c) ensures Pending(t, c, q) {
      assert Sleepy(s.pcs[q], c) && Trouble(s, c) ==> Pending(s, c, q);
    }
  }

  lemma ReadWaitMutex(s: State, t: State, p: nat)
    requires Shape(s) && Shape(t) && Mutex(s) && CallsMatch(s) && NoneStranded(s)
    requires p < NPROC && s.pcs[p].ReadWait? && t == ReadWaitStep(s, p)
    ensures Mutex(t)
  {
    hide IsFull, Empty, NoneStranded, CallsMatch, MayRun;
  }

  lemma ReadWaitCalls(s: State, t: State, p: nat)
    requires Shape(s) && Shape(t) && Mutex(s) && CallsMatch(s) && NoneStranded(s)
    requires p < NPROC && s.pcs[p].ReadWait? && t == ReadWaitStep(s, p)
    ensures CallsMatch(t)
  {
    hide IsFull, Empty, NoneStranded, HoldsSelf;
    forall q | 0 <= q < NPROC ensures CallOk(t.pcs[q], IsFull(t.nread, t.nwrite), t.readopen, t.writeopen) {
      assert CallOk(s.pcs[q], IsFull(s.nread, s.nwrite), s.readopen, s.writeopen);
    }
  }

  lemma ReadWaitWakeups(s: State, t: State, p: nat)
    requires Shape(s) && Shape(t) && Mutex(s) && CallsMatch(s) && NoneStranded(s)
    requires p < NPROC && s.pcs[p].ReadWait? && t == ReadWaitStep(s, p)
    ensures NoneStranded(t)
  {
    hide IsFull, Empty;
    forall q, c | 0 <= q < NPROC && Sleepy(t.pcs[q], c) && Trouble(t, c) ensures Pending(t, c, q) {
      assert Sleepy(s.pcs[q], c) && Trouble(s, c) ==> Pending(s, c, q);
    }
  }

  lemma ReadCopyMutex(s: State, t: State, p: nat, fail: bool)
    requires Shape(s) && Shape(t) && Mutex(s) && CallsMatch(s) && NoneStranded(s)
    requires p < NPROC && s.pcs[p].ReadCopy? && t == ReadCopyStep(s, p, fail)
    ensures Mutex(t)
  {
    hide IsFull, Empty, NoneStranded, CallsMatch, MayRun;
  }

  lemma ReadCopyCalls(s: State, t: State, p: nat, fail: bool)
    requires Shape(s) && Shape(t) && Mutex(s) && CallsMatch(s) && NoneStranded(s)
    requires p < NPROC && s.pcs[p].ReadCopy? && t == ReadCopyStep(s, p, fail)
    ensures CallsMatch(t)
  {
    hide IsFull, Empty, NoneStranded, CallOk, InRead, InWrite;
    var full, full' := IsFull(s.nread, s.nwrite), IsFull(t.nread, t.nwrite);
    forall q | 0 <= q < NPROC ensures CallOk(t.pcs[q], full', t.readopen, t.writeopen) {
      assert CallOk(s.pcs[q], full, s.readopen, s.writeopen);
      if q == p {
        OkReading(s.pcs[p], full, full', s.readopen, s.writeopen);
      } else {
        OkFrame(s.pcs[q], full, full', s.readopen, s.writeopen, s.readopen, s.writeopen);
      }
    }
  }

  lemma OkReading(pc: Pc, full: bool, full': bool, readopen: bool, writeopen: bool)
    requires pc.ReadCopy? && CallOk(pc, full, readopen, writeopen)
    ensures CallOk(ReadDone(0), full', readopen, writeopen)
    ensures pc.n > 0 ==> CallOk(ReadCopy(pc.n - 1), full', readopen, writeopen)
  {
  }

  lemma ReadCopyWakeups(s: State, t: State, p: nat, fail: bool)
    requires Shape(s) && Shape(t) && Mutex(s) && CallsMatch(s) && NoneStranded(s)
    requires p < NPROC && s.pcs[p].ReadCopy? && t == ReadCopyStep(s, p, fail)
    ensures NoneStranded(t)
  {
    hide IsFull, Empty;
    forall q, c | 0 <= q < NPROC && Sleepy(t.pcs[q], c) && Trouble(t, c) ensures Pending(t, c, q) {
      assert Sleepy(s.pcs[q], c) && Trouble(s, c) ==> Pending(s, c, q);
    }
  }

  lemma WakeMutex(s: State, t: State, p: nat)
    requires Shape(s) && Shape(t) && Mutex(s) && CallsMatch(s) && NoneStranded(s)
    requires p < NPROC && Waking(s.pcs[p]) && WakeTurn(s, p) == Some(t)
    ensures Mutex(t)
  {
    hide IsFull, Empty, NoneStranded, CallsMatch, MayRun;
  }

  lemma WakeCalls(s: State, t: State, p: nat)
    requires Shape(s) && Shape(t) && Mutex(s) && CallsMatch(s) && NoneStranded(s)
    requires p < NPROC && Waking(s.pcs[p]) && WakeTurn(s, p) == Some(t)
    ensures CallsMatch(t)
  {
    hide IsFull, Empty, NoneStranded, CallOk, InRead, InWrite, HoldsSelf, Advanced, WakeChan;
    var full, full' := IsFull(s.nread, s.nwrite), IsFull(t.nread, t.nwrite);
    forall q | 0 <= q < NPROC ensures CallOk(t.pcs[q], full', t.readopen, t.writeopen) {
      assert CallOk(s.pcs[q], full, s.readopen, s.writeopen);
      if q == p {
        OkAdvanced(s.pcs[p], full, s.readopen, s.writeopen);
      } else if s.pcs[q].Asleep? {
        OkWoken(s.pcs[q], full, s.readopen, s.writeopen);
      }
    }
  }

  lemma WakeWakeups(s: State, t: State, p: nat)
    requires Shape(s) && Shape(t) && Mutex(s) && CallsMatch(s) && NoneStranded(s) && Swept(s)
    requires p < NPROC && Waking(s.pcs[p]) && WakeTurn(s, p) == Some(t)
    ensures NoneStranded(t)
  {
    hide IsFull, Empty;
    forall q, c | 0 <= q < NPROC && Sleepy(t.pcs[q], c) && Trouble(t, c) ensures Pending(t, c, q) {
      assert Sleepy(s.pcs[q], c) && Trouble(s, c) ==> Pending(s, c, q);
    }
  }

  lemma SleepMutex(s: State, t: State, p: nat)
    requires Shape(s) && Shape(t) && Mutex(s) && CallsMatch(s) && NoneStranded(s)
    requires p < NPROC && (s.pcs[p].Locking? || s.pcs[p].Unlocking? || s.pcs[p].Setting?) && t == SleepTurn(s, p)
    ensures Mutex(t)
  {
    hide IsFull, Empty, NoneStranded, CallsMatch, MayRun;
  }

  lemma SleepCalls(s: State, t: State, p: nat)
    requires Shape(s) && Shape(t) && Mutex(s) && CallsMatch(s) && NoneStranded(s)
    requires p < NPROC && (s.pcs[p].Locking? || s.pcs[p].Unlocking? || s.pcs[p].Setting?) && t == SleepTurn(s, p)
    ensures CallsMatch(t)
  {
    hide IsFull, Empty, NoneStranded, HoldsSelf;
    forall q | 0 <= q < NPROC ensures CallOk(t.pcs[q], IsFull(t.nread, t.nwrite), t.readopen, t.writeopen) {
      assert CallOk(s.pcs[q], IsFull(s.nread, s.nwrite), s.readopen, s.writeopen);
    }
  }

  lemma SleepWakeups(s: State, t: State, p: nat)
    requires Shape(s) && Shape(t) && Mutex(s) && CallsMatch(s) && NoneStranded(s)
    requires p < NPROC && (s.pcs[p].Locking? || s.pcs[p].Unlocking? || s.pcs[p].Setting?) && t == SleepTurn(s, p)
    ensures NoneStranded(t)
  {
    hide IsFull, Empty;
    forall q, c | 0 <= q < NPROC && Sleepy(t.pcs[q], c) && Trouble(t, c) ensures Pending(t, c, q) {
      assert Sleepy(s.pcs[q], c) && Trouble(s, c) ==> Pending(s, c, q);
    }
  }

  /** Who does not hold the pipe lock does not start to wait for it to fill. */
  lemma SweptElsewhere(s: State, t: State, p: nat)
    requires Shape(s) && Shape(t) && Mutex(s) && Swept(s) && p < NPROC && s.holder == t.holder != p
    requires forall q :: 0 <= q < NPROC && q != p ==> t.pcs[q] == s.pcs[q]
    requires Sleepy(t.pcs[p], NRead) ==> Sleepy(s.pcs[p], NRead)
    ensures Swept(t)
  {
  }

  lemma WakeSwept(s: State, t: State, p: nat)
    requires Shape(s) && Shape(t) && Mutex(s) && Swept(s)
    requires p < NPROC && Waking(s.pcs[p]) && WakeTurn(s, p) == Some(t)
    ensures Swept(t)
  {
    hide IsFull, Empty;
    assert s.holder == p;
  }

  /** The lock is free, or p has it and has woken nobody yet. */
  ghost predicate Unbegun(t: State, p: nat) {
    t.holder == FREE || (t.holder == p < |t.pcs| && (Waking(t.pcs[p]) ==> t.pcs[p].k == 0))
  }

  lemma LoopsUnbegun(s: State, p: nat, fail: bool)
    requires Shape(s) && p < NPROC && s.holder == p
    ensures s.pcs[p].WriteLoop? ==> Unbegun(WriteStep(s, p, fail), p)
    ensures s.pcs[p].ReadWait? ==> Unbegun(ReadWaitStep(s, p), p)
    ensures s.pcs[p].ReadCopy? ==> Unbegun(ReadCopyStep(s, p, fail), p)
  {
    hide IsFull, Empty, ReadersWait;
  }

  lemma EndsUnbegun(s: State, p: nat)
    requires Shape(s) && p < NPROC
    ensures s.pcs[p].WantLock? ==> Unbegun(Acquired(s, p, s.pcs[p].call), p)
    ensures s.holder == p && (s.pcs[p].Locking? || s.pcs[p].Unlocking? || s.pcs[p].Setting?) ==>
      Unbegun(SleepTurn(s, p), p)
  {
  }

  lemma HolderSwept(s: State, t: State, p: nat, fail: bool)
    requires Shape(s) && Shape(t) && p < NPROC && Next(s, p, fail) == Some(t) && !Waking(s.pcs[p])
    requires s.holder == p || s.pcs[p].WantLock?
    ensures Swept(t)
  {
    hide MayRun, WriteStep, ReadWaitStep, ReadCopyStep, Acquired, SleepTurn;
    EndsUnbegun(s, p);
    if s.holder == p {
      LoopsUnbegun(s, p, fail);
    }
  }

  lemma StepSwept(s: State, a: Action, t: State)
    requires Shape(s) && Shape(t) && Mutex(s) && Swept(s) && Step(s, a, t)
    ensures Swept(t)
  {
    hide IsFull, Empty, MayRun, Swept, WriteStep, ReadWaitStep, ReadCopyStep, Acquired;
    var p := a.p;
    if a.Run? && Waking(s.pcs[p]) {
      WakeSwept(s, t, p);
    } else if a.Run? && (s.holder == p || s.pcs[p].WantLock?) {
      HolderSwept(s, t, p, a.fail);
    } else if a.Kill? && s.holder == p {
      KillSwept(s, t, p);
    } else {
      assert s.pcs[p].Setting? || !a.Run?;
      SweptElsewhere(s, t, p);
    }
  }

  /** Killing the holder changes only its flag. */
  lemma KillSwept(s: State, t: State, p: nat)
    requires Shape(s) && Shape(t) && Mutex(s) && Swept(s) && p < NPROC && s.holder == p && t == Killed(s, p)
    ensures Swept(t)
  {
  }

  /** Every step keeps the invariant. */
  lemma StepKeeps(s: State, a: Action, t: State)
    requires Inv(s) && Step(s, a, t)
    ensures Inv(t)
  {
    hide Ring, Mutex, CallsMatch, NoneStranded, Swept, WriteStep, ReadWaitStep, ReadCopyStep, WakeTurn, SleepTurn,
      Acquired, MayRun, Waking;
    RingKept(s, a, t);
    RingShape(s);
    RingShape(t);
    StepSwept(s, a, t);
    var p := a.p;
    match a
    case Start(_, call) =>
      StartMutex(s, t, p, call); StartCalls(s, t, p, call); StartWakeups(s, t, p, call);
    case Kill(_) =>
      KillMutex(s, t, p); KillCalls(s, t, p); KillWakeups(s, t, p);
    case Run(_, fail) =>
      var pc := s.pcs[p];
      if pc.WantLock? {
        AcquireMutex(s, t, p); AcquireCalls(s, t, p); AcquireWakeups(s, t, p);
      } else if pc.WriteLoop? {
        WriteMutex(s, t, p, fail); WriteCalls(s, t, p, fail); WriteWakeups(s, t, p, fail);
      } else if pc.ReadWait? {
        ReadWaitMutex(s, t, p); ReadWaitCalls(s, t, p); ReadWaitWakeups(s, t, p);
      } else if pc.ReadCopy? {
        ReadCopyMutex(s, t, p, fail); ReadCopyCalls(s, t, p, fail); ReadCopyWakeups(s, t, p, fail);
      } else if Waking(pc) {
        WakeMutex(s, t, p); WakeCalls(s, t, p); WakeWakeups(s, t, p);
      } else {
        SleepKinds(pc);
        SleepMutex(s, t, p); SleepCalls(s, t, p); SleepWakeups(s, t, p);
      }
  }

  lemma RingShape(s: State)
    requires Ring(s)
    ensures Shape(s)
  {
  }

  lemma SleepKinds(pc: Pc)
    requires !pc.Idle? && !pc.Asleep? && !pc.WantLock? && !pc.WriteLoop? && !pc.ReadWait? && !pc.ReadCopy?
    requires !Waking(pc)
    ensures pc.Locking? || pc.Unlocking? || pc.Setting?
  {
  }

  // ---------------------------------------------------------------- runs

  /** A finite run from an initial state. */
  datatype Trace = Begin(s: State) | Then(before: Trace, a: Action, s: State)

  ghost predicate IsRun(tr: Trace) {
    match tr
    case Begin(s) => Init(s)
    case Then(before, a, t) => IsRun(before) && Shape(before.s) && Step(before.s, a, t)
  }

  lemma {:induction false} RunInv(tr: Trace)
    requires IsRun(tr)
    ensures Inv(tr.s)
  {
    match tr
    case Begin(s) =>
      InitInv(s);
    case Then(before, a, t) =>
      RunInv(before);
      hide Inv, Init;
      StepKeeps(before.s, a, t);
  }

  /**
   In every interleaving, when the pipe lock is free a sleeping writer faces a full pipe that still
   has a reader, and a sleeping reader faces a pipe still open for writing that is empty, unless a
   killed writer left unannounced bytes to a waiting reader and no wakeup of the readers has ended since.
   */
  lemma NoLostWakeup(tr: Trace, p: nat)
    requires IsRun(tr) && tr.s.holder == FREE && p < NPROC
    ensures Shape(tr.s)
    ensures tr.s.pcs[p].Asleep? && tr.s.pcs[p].chan == NWrite ==> IsFull(tr.s.nread, tr.s.nwrite) && tr.s.readopen
    ensures tr.s.pcs[p].Asleep? && tr.s.pcs[p].chan == NRead ==> tr.s.writeopen
    ensures tr.s.pcs[p].Asleep? && tr.s.pcs[p].chan == NRead ==> (Empty(tr.s.nread, tr.s.nwrite) || tr.s.lost)
  {
    RunInv(tr);
    InvAwake(tr.s, p);
  }

  lemma InvAwake(s: State, p: nat)
    requires Inv(s) && s.holder == FREE && p < NPROC
    ensures s.pcs[p].Asleep? && s.pcs[p].chan == NWrite ==> IsFull(s.nread, s.nwrite) && s.readopen
    ensures s.pcs[p].Asleep? && s.pcs[p].chan == NRead ==> s.writeopen && (Empty(s.nread, s.nwrite) || s.lost)
  {
    hide Ring, CallsMatch, Swept, Mutex;
    RingShape(s);
    assert forall c :: Sleepy(s.pcs[p], c) && Trouble(s, c) ==> Pending(s, c, p);
    assert Trouble(s, NRead) <==> (!Empty(s.nread, s.nwrite) && !s.lost) || !s.writeopen;
    assert Trouble(s, NWrite) <==> !IsFull(s.nread, s.nwrite) || !s.readopen;
  }

  /** In every interleaving bytes come out in the order they went in, and at most PIPESIZE wait. */
  lemma Fifo(tr: Trace)
    requires IsRun(tr)
    ensures tr.s.consumed <= tr.s.accepted && |tr.s.accepted| - |tr.s.consumed| <= PIPESIZE
    ensures IsFull(tr.s.nread, tr.s.nwrite) <==> |tr.s.accepted| - |tr.s.consumed| == PIPESIZE
    ensures Empty(tr.s.nread, tr.s.nwrite) <==> tr.s.consumed == tr.s.accepted
  {
    RunInv(tr);
    CounterTests(tr.s.data, tr.s.nread, tr.s.nwrite, tr.s.accepted, tr.s.consumed);
  }

  // ---------------------------------------------------------------- the killed writer

  /** A killed writer at a full open pipe it has itself been filling is about to return. */
  ghost predicate LeavesUnannounced(s: State, a: Action)
    requires Shape(s)
  {
    && a.Run? && a.p < NPROC && s.pcs[a.p].WriteLoop? && s.pcs[a.p].todo != [] && s.pcs[a.p].dirty
    && s.killed[a.p] && s.readopen && IsFull(s.nread, s.nwrite)
  }

  ghost predicate ReaderAsleep(s: State) {
    exists q :: 0 <= q < |s.pcs| && s.pcs[q].Asleep? && s.pcs[q].chan == NRead
  }

  /** A reader sleeps over bytes and nobody holds the lock. */
  ghost predicate Stranded(s: State) {
    s.holder == FREE && !Empty(s.nread, s.nwrite) && ReaderAsleep(s)
  }

  /** Exactly that return, while a reader waits, loses a wakeup. */
  lemma LostExactly(s: State, a: Action, t: State)
    requires Shape(s) && CallsMatch(s) && Step(s, a, t) && !s.lost
    ensures t.lost <==> LeavesUnannounced(s, a) && ReadersWait(s.pcs)
  {
    hide IsFull, Empty, MayRun, HoldsSelf, Advanced, WakeChan;
    if ReadersWait(s.pcs) {
      var q :| 0 <= q < NPROC && Sleepy(s.pcs[q], NRead);
      assert CallOk(s.pcs[q], IsFull(s.nread, s.nwrite), s.readopen, s.writeopen);
    }
  }

  /** The end of a wakeup of the readers makes up for it. */
  lemma WakeupMakesUp(s: State, a: Action, t: State)
    requires Inv(s) && Step(s, a, t) && a.Run? && Waking(s.pcs[a.p]) && WakeChan(s.pcs[a.p]) == NRead
    requires s.pcs[a.p].k >= NPROC
    ensures !t.lost && !ReadersWait(t.pcs)
  {
    hide Ring, CallsMatch, NoneStranded, IsFull, Empty;
    RingShape(s);
    assert s.holder == a.p;
  }

  /**
   When nothing is lost yet, a step strands a reader if and only if it is the return of a killed
   writer that leaves unannounced bytes while a reader is asleep.
   */
  lemma StrandedExactly(s: State, a: Action, t: State)
    requires Inv(s) && Step(s, a, t) && !s.lost
    ensures Stranded(t) <==> LeavesUnannounced(s, a) && ReaderAsleep(s)
  {
    hide Ring, Mutex, CallsMatch, NoneStranded, Swept, IsFull, Empty, Step;
    RingShape(s);
    StepKeeps(s, a, t);
    RingShape(t);
    LostExactly(s, a, t);
    if Stranded(t) {
      var q :| 0 <= q < NPROC && t.pcs[q].Asleep? && t.pcs[q].chan == NRead;
      InvAwake(t, q);
      ReturnKeeps(s, a, t);
    } else if LeavesUnannounced(s, a) && ReaderAsleep(s) {
      ReturnKeeps(s, a, t);
      FullNotEmpty(s);
    }
  }

  lemma FullNotEmpty(s: State)
    requires Ring(s) && IsFull(s.nread, s.nwrite)
    ensures !Empty(s.nread, s.nwrite)
  {
    CounterTests(s.data, s.nread, s.nwrite, s.accepted, s.consumed);
  }

  /** The return frees the lock and leaves the bytes and every other process where they were. */
  lemma ReturnKeeps(s: State, a: Action, t: State)
    requires Shape(s) && Step(s, a, t) && LeavesUnannounced(s, a)
    ensures t.holder == FREE && t.nread == s.nread && t.nwrite == s.nwrite && (ReaderAsleep(t) <==> ReaderAsleep(s))
  {
    hide IsFull, Empty;
    assert t == WriteStep(s, a.p, a.fail);
    assert forall q :: 0 <= q < NPROC && q != a.p ==> t.pcs[q] == s.pcs[q];
  }

  /** Process 1, having the lock and n more bytes to store, stores them. */
  lemma {:induction false} Fill(tr: Trace, n: nat) returns (tr': Trace)
    requires IsRun(tr) && Shape(tr.s) && tr.s.pcs[1].WriteLoop? && n < |tr.s.pcs[1].todo|
    requires |tr.s.accepted| + n <= |tr.s.consumed| + PIPESIZE && tr.s.pcs[0].Asleep? && !tr.s.lost && tr.s.readopen
    ensures IsRun(tr') && Shape(tr'.s) && tr'.s.pcs[1].WriteLoop? && |tr'.s.pcs[1].todo| == |tr.s.pcs[1].todo| - n
    ensures tr'.s.consumed == tr.s.consumed && |tr'.s.accepted| == |tr.s.accepted| + n && tr'.s.pcs[0] == tr.s.pcs[0]
    ensures !tr'.s.lost && tr'.s.readopen && (n > 0 ==> tr'.s.pcs[1].dirty)
  {
    if n == 0 {
      tr' := tr;
    } else {
      var mid := Fill(tr, n - 1);
      RunInv(mid);
      CounterTests(mid.s.data, mid.s.nread, mid.s.nwrite, mid.s.accepted, mid.s.consumed);
      hide Inv, Ring, IsFull;
      var t := WriteStep(mid.s, 1, false);
      tr' := Then(mid, Run(1, false), t);
    }
  }

  ghost predicate Untouched(s: State) {
    Shape(s) && s.pcs[1] == Idle && s.accepted == [] && s.consumed == [] && !s.lost && s.readopen && s.writeopen
  }

  /** Process 0 takes the lock to read and finds the pipe empty. */
  lemma ReaderWaits() returns (tr: Trace)
    ensures IsRun(tr) && Untouched(tr.s) && tr.s.pcs[0] == Locking(NRead, Read(1))
  {
    var s0 := State(seq(PIPESIZE, _ => 0), 0, 0, true, true, FREE, seq(NPROC, _ => Idle), seq(NPROC, _ => false), [],
      [], false);
    var s1 := Goto(s0, 0, WantLock(Read(1)));
    var t1 := Then(Begin(s0), Start(0, Read(1)), s1);
    var s2 := Acquired(s1, 0, Read(1));
    var t2 := Then(t1, Run(0, false), s2);
    assert IsRun(t1);
    assert IsRun(t2);
    tr := Then(t2, Run(0, false), Goto(s2, 0, Locking(NRead, Read(1))));
  }

  /** ... and goes to sleep. */
  lemma ReaderSleeps() returns (tr: Trace)
    ensures IsRun(tr) && Untouched(tr.s) && tr.s.pcs[0] == Asleep(NRead, Read(1)) && tr.s.holder == FREE
  {
    hide IsRun;
    var t3 := ReaderWaits();
    var t4 := SleepRuns(t3);
    var t5 := SleepRuns(t4);
    tr := SleepRuns(t5);
  }

  /** The next stage of the sleep of process 0. */
  lemma SleepRuns(before: Trace) returns (tr: Trace)
    requires IsRun(before) && Shape(before.s)
    requires before.s.pcs[0].Locking? || before.s.pcs[0].Unlocking? || before.s.pcs[0].Setting?
    ensures IsRun(tr) && tr.s == SleepTurn(before.s, 0)
  {
    tr := Then(before, Run(0, false), SleepTurn(before.s, 0));
  }

  /**
   The excluded step is real: a writer fills the pipe, is killed, finds the pipe full and returns
   without waking anyone; the reader sleeps on over a full pipe with nobody bound to wake it.
   */
  lemma KilledWriterStrandsReader() returns (tr: Trace)
    ensures IsRun(tr) && Shape(tr.s) && tr.s.holder == FREE && tr.s.pcs[0] == Asleep(NRead, Read(1))
    ensures !Empty(tr.s.nread, tr.s.nwrite) && tr.s.lost
  {
    var r := ReaderSleeps();
    var todo := seq(PIPESIZE + 1, _ => 7 as Byte);
    var a1 := Goto(r.s, 1, WantLock(Write(todo)));
    var u1 := Then(r, Start(1, Write(todo)), a1);
    var a2 := Acquired(a1, 1, Write(todo));
    var u2 := Then(u1, Run(1, false), a2);
    assert IsRun(u1);
    assert IsRun(u2);
    var f := Fill(u2, PIPESIZE);
    tr := KilledReturns(f);
  }

  lemma KilledReturns(f: Trace) returns (tr: Trace)
    requires IsRun(f) && Shape(f.s) && f.s.pcs[1].WriteLoop? && f.s.pcs[1].dirty && f.s.pcs[1].todo != []
    requires f.s.readopen
    requires |f.s.accepted| == |f.s.consumed| + PIPESIZE && f.s.pcs[0] == Asleep(NRead, Read(1))
    ensures IsRun(tr) && Shape(tr.s) && tr.s.holder == FREE && tr.s.pcs[0] == Asleep(NRead, Read(1))
    ensures !Empty(tr.s.nread, tr.s.nwrite) && tr.s.lost
  {
    RunInv(f);
    CounterTests(f.s.data, f.s.nread, f.s.nwrite, f.s.accepted, f.s.consumed);
    hide Inv, Ring, IsFull, Empty;
    var k := Killed(f.s, 1);
    var u := Then(f, Kill(1), k);
    assert IsRun(u);
    tr := Then(u, Run(1, false), WriteStep(k, 1, false));
  }
}
