/**
 What a single call on a pipe moves (pipewrite and piperead in kernel/pipe.c), in every interleaving:
 the bytes of a write go in in order and none is skipped, a read takes no more than it asked for, and
 each call ends early only for the reasons the source names.
 */
module PipeCalls {
  import opened Pipe

  // ---------------------------------------------------------------- writers

  /** Inside pipewrite, before its last wakeup. */
  predicate Writing(pc: Pc) {
    InWrite(pc) && !pc.WriteDone?
  }

  /** The bytes a writer still has to store. */
  function Todo(pc: Pc): seq<Byte>
    requires Writing(pc)
  {
    if pc.WriteLoop? || pc.FullWake? then pc.todo else pc.call.todo
  }

  /** The bytes the call in progress of p was given; what it was asked for, if it is a read. */
  ghost function Asked(tr: Trace, p: nat): Call {
    match tr
    case Begin(_) => CloseRead
    case Then(before, a, _) => if a.Start? && a.p == p then a.call else Asked(before, p)
  }

  /** The bytes p has put into the pipe since its call began. */
  ghost function Sent(tr: Trace, p: nat): seq<Byte> {
    match tr
    case Begin(_) => []
    case Then(before, a, t) =>
      if a.Start? && a.p == p then []
      else if a.Run? && a.p == p && before.s.accepted <= t.accepted
      then Sent(before, p) + t.accepted[|before.s.accepted|..]
      else Sent(before, p)
  }

  /** The bytes p has taken out of the pipe since its call began. */
  ghost function Got(tr: Trace, p: nat): seq<Byte> {
    match tr
    case Begin(_) => []
    case Then(before, a, t) =>
      if a.Start? && a.p == p then []
      else if a.Run? && a.p == p && before.s.consumed <= t.consumed
      then Got(before, p) + t.consumed[|before.s.consumed|..]
      else Got(before, p)
  }

  /** What a step of q can do to the others: wake them; bytes are only added behind those that went before. */
  ghost predicate Kept(s: State, t: State, q: nat) {
    && |t.pcs| == |s.pcs| && s.accepted <= t.accepted && s.consumed <= t.consumed
    && forall p :: 0 <= p < |s.pcs| && p != q ==>
      t.pcs[p] == s.pcs[p] || (s.pcs[p].Asleep? && t.pcs[p] == WantLock(s.pcs[p].call))
  }

  lemma AcquiredKept(s: State, q: nat, call: Call)
    requires q < |s.pcs|
    ensures Kept(s, Acquired(s, q, call), q)
  {
  }

  lemma WriteKept(s: State, q: nat, fail: bool)
    requires q < |s.pcs| == |s.killed| && s.pcs[q].WriteLoop? && |s.data| == PIPESIZE
    ensures Kept(s, WriteStep(s, q, fail), q)
  {
    hide IsFull, ReadersWait;
  }

  lemma ReadKept(s: State, q: nat, fail: bool)
    requires q < |s.pcs| == |s.killed| && |s.data| == PIPESIZE
    ensures s.pcs[q].ReadWait? ==> Kept(s, ReadWaitStep(s, q), q)
    ensures s.pcs[q].ReadCopy? ==> Kept(s, ReadCopyStep(s, q, fail), q)
  {
    hide Empty;
  }

  lemma WakeKept(s: State, q: nat)
    requires q < |s.pcs| == NPROC && Waking(s.pcs[q]) && WakeTurn(s, q).Some?
    ensures Kept(s, WakeTurn(s, q).value, q)
  {
    hide WakeChan, Advanced, HoldsSelf;
  }

  lemma SleepKept(s: State, q: nat)
    requires q < |s.pcs| && (s.pcs[q].Locking? || s.pcs[q].Unlocking? || s.pcs[q].Setting?)
    ensures Kept(s, SleepTurn(s, q), q)
  {
  }

  lemma OthersStep(s: State, a: Action, t: State)
    requires Shape(s) && Step(s, a, t)
    ensures Kept(s, t, a.p)
  {
    hide Acquired, WriteStep, ReadWaitStep, ReadCopyStep, WakeTurn, SleepTurn, MayRun, Waking;
    if a.Run? {
      var pc := s.pcs[a.p];
      if pc.WantLock? {
        hide Kept;
        AcquiredKept(s, a.p, pc.call);
      } else if pc.WriteLoop? {
        hide Kept;
        WriteKept(s, a.p, a.fail);
      } else if pc.ReadWait? || pc.ReadCopy? {
        hide Kept;
        ReadKept(s, a.p, a.fail);
      } else if Waking(pc) {
        hide Kept;
        WakeKept(s, a.p);
      } else {
        hide Kept;
        SleepKinds(pc);
        SleepKept(s, a.p);
      }
    }
  }

  /** One step of a writer: a byte moves from what it has to do into the pipe, or none does. */
  ghost predicate WriterMoves(s: State, fail: bool, t: State, p: nat)
    requires p < |s.pcs| == |s.killed| && p < |t.pcs| && Writing(s.pcs[p])
  {
    && s.accepted <= t.accepted
    && (Writing(t.pcs[p]) ==> Todo(s.pcs[p]) == t.accepted[|s.accepted|..] + Todo(t.pcs[p]))
    && (!Writing(t.pcs[p]) ==> t.accepted == s.accepted)
    && (t.pcs[p].WriteDone? ==> fail || Todo(s.pcs[p]) == [])
    && (!Writing(t.pcs[p]) && !t.pcs[p].WriteDone? ==>
          t.pcs[p] == Idle && Todo(s.pcs[p]) != [] && IsFull(s.nread, s.nwrite) && (!s.readopen || s.killed[p]))
  }

  lemma WriteMoves(s: State, p: nat, fail: bool)
    requires p < |s.pcs| == |s.killed| && s.pcs[p].WriteLoop? && |s.data| == PIPESIZE
    ensures |WriteStep(s, p, fail).pcs| == |s.pcs| && WriterMoves(s, fail, WriteStep(s, p, fail), p)
  {
    hide IsFull, ReadersWait;
    var todo, t := s.pcs[p].todo, WriteStep(s, p, fail);
    if todo != [] && Writing(t.pcs[p]) {
      assert todo == [todo[0]] + todo[1..];
    }
  }

  /** A step that stores nothing and leaves the bytes to store as they are. */
  lemma WaitMoves(s: State, fail: bool, t: State, p: nat)
    requires p < |s.pcs| == |s.killed| && p < |t.pcs| && Writing(s.pcs[p])
    requires t.accepted == s.accepted && Writing(t.pcs[p]) && Todo(t.pcs[p]) == Todo(s.pcs[p])
    ensures WriterMoves(s, fail, t, p)
  {
    assert t.accepted[|s.accepted|..] + Todo(t.pcs[p]) == Todo(s.pcs[p]);
  }

  /** The wakeup before a writer sleeps, and the stages of sleep, store nothing. */
  lemma WriterWakes(s: State, p: nat)
    requires Shape(s) && p < NPROC && s.pcs[p].FullWake? && WakeTurn(s, p).Some?
    ensures var t := WakeTurn(s, p).value;
      |t.pcs| == NPROC && t.accepted == s.accepted && Writing(t.pcs[p]) && Todo(t.pcs[p]) == Todo(s.pcs[p])
  {
    hide WakeChan, HoldsSelf;
  }

  lemma WriterSleeps(s: State, p: nat)
    requires Shape(s) && p < NPROC && Writing(s.pcs[p])
    requires s.pcs[p].Locking? || s.pcs[p].Unlocking? || s.pcs[p].Setting?
    ensures var t := SleepTurn(s, p);
      |t.pcs| == NPROC && t.accepted == s.accepted && Writing(t.pcs[p]) && Todo(t.pcs[p]) == Todo(s.pcs[p])
  {
  }

  lemma WriterStarts(s: State, p: nat)
    requires Shape(s) && p < NPROC && Writing(s.pcs[p]) && s.pcs[p].WantLock?
    ensures var t := Acquired(s, p, s.pcs[p].call);
      |t.pcs| == NPROC && t.accepted == s.accepted && Writing(t.pcs[p]) && Todo(t.pcs[p]) == Todo(s.pcs[p])
  {
  }

  lemma WriterStep(s: State, fail: bool, t: State, p: nat)
    requires Shape(s) && p < NPROC && Step(s, Run(p, fail), t) && Writing(s.pcs[p])
    ensures |t.pcs| == NPROC && WriterMoves(s, fail, t, p)
  {
    hide WriteStep, ReadWaitStep, ReadCopyStep, MayRun, WriterMoves, WakeTurn, SleepTurn, Acquired, Todo;
    var pc := s.pcs[p];
    if pc.WriteLoop? {
      WriteMoves(s, p, fail);
    } else {
      if pc.WantLock? {
        WriterStarts(s, p);
      } else if pc.FullWake? {
        WriterWakes(s, p);
      } else if !pc.Asleep? {
        WriterSleeps(s, p);
      }
      WaitMoves(s, fail, t, p);
    }
  }

  // ---------------------------------------------------------------- readers

  /** Inside piperead, before its wakeup. */
  predicate Reading(pc: Pc) {
    InRead(pc) && !pc.ReadDone?
  }

  /** How many bytes a reader may still take. */
  function Left(pc: Pc): nat
    requires Reading(pc)
  {
    if pc.ReadWait? || pc.ReadCopy? then pc.n else pc.call.n
  }

  /** One step of a reader: a byte is taken and one less is left to take, or none is. */
  ghost predicate ReaderMoves(s: State, fail: bool, t: State, p: nat)
    requires p < |s.pcs| == |s.killed| && p < |t.pcs| && Reading(s.pcs[p])
  {
    && s.consumed <= t.consumed
    && (Reading(t.pcs[p]) ==> |t.consumed| - |s.consumed| + Left(t.pcs[p]) == Left(s.pcs[p]))
    && (t.pcs[p].ReadDone? && !fail ==> t.consumed == s.consumed)
    && (t.pcs[p].ReadDone? ==> |t.consumed| - |s.consumed| <= Left(s.pcs[p]))
    && (t.pcs[p].ReadDone? ==> fail || Left(s.pcs[p]) == 0 || Empty(s.nread, s.nwrite))
    && (!Reading(t.pcs[p]) && !t.pcs[p].ReadDone? ==>
          t.pcs[p] == Idle && t.consumed == s.consumed && Empty(s.nread, s.nwrite) && s.writeopen && s.killed[p])
  }

  lemma CopyMoves(s: State, p: nat, fail: bool)
    requires p < |s.pcs| == |s.killed| && s.pcs[p].ReadCopy? && |s.data| == PIPESIZE
    ensures |ReadCopyStep(s, p, fail).pcs| == |s.pcs| && ReaderMoves(s, fail, ReadCopyStep(s, p, fail), p)
  {
    hide Empty;
  }

  lemma WaitingMoves(s: State, p: nat, fail: bool)
    requires p < |s.pcs| == |s.killed| && s.pcs[p].ReadWait?
    ensures |ReadWaitStep(s, p).pcs| == |s.pcs| && ReaderMoves(s, fail, ReadWaitStep(s, p), p)
  {
    hide Empty;
  }

  lemma ReaderSleeps(s: State, p: nat)
    requires Shape(s) && p < NPROC && Reading(s.pcs[p])
    requires s.pcs[p].Locking? || s.pcs[p].Unlocking? || s.pcs[p].Setting?
    ensures var t := SleepTurn(s, p);
      |t.pcs| == NPROC && t.consumed == s.consumed && Reading(t.pcs[p]) && Left(t.pcs[p]) == Left(s.pcs[p])
  {
  }

  lemma ReaderStarts(s: State, p: nat)
    requires Shape(s) && p < NPROC && Reading(s.pcs[p]) && s.pcs[p].WantLock?
    ensures var t := Acquired(s, p, s.pcs[p].call);
      |t.pcs| == NPROC && t.consumed == s.consumed && Reading(t.pcs[p]) && Left(t.pcs[p]) == Left(s.pcs[p])
  {
  }

  lemma ReaderStep(s: State, fail: bool, t: State, p: nat)
    requires Shape(s) && p < NPROC && Step(s, Run(p, fail), t) && Reading(s.pcs[p])
    ensures |t.pcs| == NPROC && ReaderMoves(s, fail, t, p)
  {
    hide WriteStep, ReadWaitStep, ReadCopyStep, MayRun, WakeTurn, SleepTurn, Acquired, Left, Empty;
    var pc := s.pcs[p];
    if pc.ReadWait? {
      WaitingMoves(s, p, fail);
    } else if pc.ReadCopy? {
      CopyMoves(s, p, fail);
    } else if pc.WantLock? {
      ReaderStarts(s, p);
    } else if !pc.Asleep? {
      ReaderSleeps(s, p);
    }
  }

  // ---------------------------------------------------------------- every run

  /**
   In every interleaving the bytes a write was given are those it has stored, in order, and those it
   still has to store; the bytes a read has taken and those it may still take are as many as it asked for.
   */
  ghost predicate CallKept(tr: Trace, p: nat)
    requires p < |tr.s.pcs|
  {
    var pc, call := tr.s.pcs[p], Asked(tr, p);
    && (InWrite(pc) ==> call.Write?)
    && (Writing(pc) ==> call.todo == Sent(tr, p) + Todo(pc))
    && (pc.WriteDone? ==> Sent(tr, p) <= call.todo)
    && (InRead(pc) ==> call.Read?)
    && (Reading(pc) ==> |Got(tr, p)| + Left(pc) == call.n)
    && (pc.ReadDone? ==> |Got(tr, p)| <= call.n)
  }

  lemma {:induction false} EveryCall(tr: Trace, p: nat)
    requires IsRun(tr) && p < NPROC
    ensures |tr.s.pcs| == NPROC && CallKept(tr, p)
  {
    match tr
    case Begin(s) =>
    case Then(before, a, t) =>
      EveryCall(before, p);
      OthersStep(before.s, a, t);
      hide Step, IsRun, Kept;
      if a.p != p || a.Kill? {
        PassedBy(before, a, t, p);
      } else if a.Start? {
        CallStarts(before, a, t, p);
      } else {
        CallGoesOn(before, a, t, p);
      }
  }

  lemma PassedBy(before: Trace, a: Action, t: State, p: nat)
    requires |before.s.pcs| == NPROC && p < NPROC && CallKept(before, p)
    requires Shape(before.s) && Step(before.s, a, t) && Kept(before.s, t, a.p) && (a.p != p || a.Kill?)
    ensures CallKept(Then(before, a, t), p)
  {
    hide Next;
    var pc, qc := before.s.pcs[p], t.pcs[p];
    assert qc == pc || (pc.Asleep? && qc == WantLock(pc.call));
  }

  lemma CallStarts(before: Trace, a: Action, t: State, p: nat)
    requires |before.s.pcs| == NPROC && p < NPROC && Shape(before.s) && Step(before.s, a, t) && a.Start? && a.p == p
    ensures |t.pcs| == NPROC && CallKept(Then(before, a, t), p)
  {
    hide Next;
    if a.call.Write? {
      assert [] + a.call.todo == a.call.todo;
    }
  }

  lemma CallGoesOn(before: Trace, a: Action, t: State, p: nat)
    requires |before.s.pcs| == NPROC && p < NPROC && CallKept(before, p)
    requires Shape(before.s) && Step(before.s, a, t) && Kept(before.s, t, p) && a.Run? && a.p == p
    ensures CallKept(Then(before, a, t), p)
  {
    hide Step, Kept, CallKept;
    var s := before.s;
    var pc := s.pcs[p];
    KeptSize(s, t, p);
    if Writing(pc) {
      WriterStep(s, a.fail, t, p);
      WriteGoesOn(before, a, t, p);
    } else if Reading(pc) {
      ReaderStep(s, a.fail, t, p);
      ReadGoesOn(before, a, t, p);
    } else {
      LastStep(s, a, t, p);
      LastGoesOn(before, a, t, p);
    }
  }

  lemma KeptSize(s: State, t: State, p: nat)
    requires Kept(s, t, p)
    ensures |t.pcs| == |s.pcs| && s.accepted <= t.accepted && s.consumed <= t.consumed
  {
  }

  lemma WriteGoesOn(before: Trace, a: Action, t: State, p: nat)
    requires p < |before.s.pcs| == |t.pcs| == |before.s.killed| && CallKept(before, p) && a.Run? && a.p == p
    requires before.s.accepted <= t.accepted && Writing(before.s.pcs[p]) && WriterMoves(before.s, a.fail, t, p)
    ensures CallKept(Then(before, a, t), p)
  {
    hide IsFull;
    var s := before.s;
    var x := t.accepted[|s.accepted|..];
    if Writing(t.pcs[p]) {
      assert Sent(before, p) + (x + Todo(t.pcs[p])) == Sent(before, p) + x + Todo(t.pcs[p]);
    } else {
      assert x == [] && Sent(before, p) + x == Sent(before, p);
    }
  }

  lemma ReadGoesOn(before: Trace, a: Action, t: State, p: nat)
    requires p < |before.s.pcs| == |t.pcs| == |before.s.killed| && CallKept(before, p) && a.Run? && a.p == p
    requires before.s.consumed <= t.consumed && Reading(before.s.pcs[p]) && ReaderMoves(before.s, a.fail, t, p)
    ensures CallKept(Then(before, a, t), p)
  {
    hide Empty;
  }

  lemma LastGoesOn(before: Trace, a: Action, t: State, p: nat)
    requires p < |before.s.pcs| == |t.pcs| && CallKept(before, p) && a.Run? && a.p == p
    requires Ended(before.s, t, p)
    ensures CallKept(Then(before, a, t), p)
  {
    var s := before.s;
    assert t.accepted[|s.accepted|..] == [] && t.consumed[|s.consumed|..] == [];
    assert Sent(before, p) + [] == Sent(before, p);
  }

  /** p is neither writing nor reading any more, and moves nothing. */
  ghost predicate Ended(s: State, t: State, p: nat)
    requires p < |s.pcs| == |t.pcs|
  {
    && t.accepted == s.accepted && t.consumed == s.consumed && !Writing(t.pcs[p]) && !Reading(t.pcs[p])
    && (t.pcs[p].WriteDone? ==> s.pcs[p].WriteDone?) && (t.pcs[p].ReadDone? ==> s.pcs[p].ReadDone?)
  }

  lemma LastWake(s: State, p: nat)
    requires Shape(s) && p < NPROC && Waking(s.pcs[p]) && !s.pcs[p].FullWake? && WakeTurn(s, p).Some?
    ensures |WakeTurn(s, p).value.pcs| == NPROC && Ended(s, WakeTurn(s, p).value, p)
  {
    hide WakeChan, HoldsSelf;
  }

  lemma LastSleep(s: State, p: nat)
    requires Shape(s) && p < NPROC && !Writing(s.pcs[p]) && !Reading(s.pcs[p])
    requires s.pcs[p].Locking? || s.pcs[p].Unlocking? || s.pcs[p].Setting?
    ensures |SleepTurn(s, p).pcs| == NPROC && Ended(s, SleepTurn(s, p), p)
  {
  }

  lemma LastStart(s: State, p: nat)
    requires Shape(s) && p < NPROC && !Writing(s.pcs[p]) && !Reading(s.pcs[p]) && s.pcs[p].WantLock?
    ensures |Acquired(s, p, s.pcs[p].call).pcs| == NPROC && Ended(s, Acquired(s, p, s.pcs[p].call), p)
  {
  }

  lemma LastStep(s: State, a: Action, t: State, p: nat)
    requires Shape(s) && p < NPROC && Step(s, a, t) && a.Run? && a.p == p
    requires !Writing(s.pcs[p]) && !Reading(s.pcs[p])
    ensures |t.pcs| == NPROC && Ended(s, t, p)
  {
    hide WriteStep, ReadWaitStep, ReadCopyStep, MayRun, WakeTurn, SleepTurn, Acquired, Ended;
    var pc := s.pcs[p];
    if pc.WantLock? {
      LastStart(s, p);
    } else if Waking(pc) {
      LastWake(s, p);
    } else {
      LastSleep(s, p);
    }
  }

  /** A write returns with all its bytes stored, after a copy that failed, or from a full pipe when closed or killed. */
  lemma WriteReturns(tr: Trace, p: nat)
    requires IsRun(tr) && tr.Then? && p < NPROC && Shape(tr.before.s) && |tr.s.pcs| == NPROC
    requires Writing(tr.before.s.pcs[p]) && !Writing(tr.s.pcs[p])
    ensures tr.a.Run? && tr.a.p == p && Asked(tr, p).Write?
    ensures tr.s.pcs[p].WriteDone? ==> tr.a.fail || Sent(tr, p) == Asked(tr, p).todo
    ensures !tr.s.pcs[p].WriteDone? ==>
      var s := tr.before.s; IsFull(s.nread, s.nwrite) && (!s.readopen || s.killed[p])
  {
    var s := tr.before.s;
    EveryCall(tr.before, p);
    OthersStep(s, tr.a, tr.s);
    assert tr.a.Run? && tr.a.p == p;
    WriterStep(s, tr.a.fail, tr.s, p);
    hide Step, Kept, IsRun, IsFull;
    assert tr.s.accepted[|s.accepted|..] == [];
    assert Sent(tr.before, p) + [] == Sent(tr.before, p);
  }

  /** A read returns with all it asked for, or the pipe empty, or because copying a byte out failed, or killed. */
  lemma ReadReturns(tr: Trace, p: nat)
    requires IsRun(tr) && tr.Then? && p < NPROC && Shape(tr.before.s) && |tr.s.pcs| == NPROC
    requires Reading(tr.before.s.pcs[p]) && !Reading(tr.s.pcs[p])
    ensures tr.a.Run? && tr.a.p == p && Asked(tr, p).Read?
    ensures tr.s.pcs[p].ReadDone? ==>
      tr.a.fail || |Got(tr, p)| == Asked(tr, p).n || Empty(tr.before.s.nread, tr.before.s.nwrite)
    ensures !tr.s.pcs[p].ReadDone? ==>
      var s := tr.before.s; Empty(s.nread, s.nwrite) && s.writeopen && s.killed[p]
  {
    var s := tr.before.s;
    EveryCall(tr.before, p);
    OthersStep(s, tr.a, tr.s);
    assert tr.a.Run? && tr.a.p == p;
    ReaderStep(s, tr.a.fail, tr.s, p);
    hide Step, Kept, IsRun, Empty;
  }
}
