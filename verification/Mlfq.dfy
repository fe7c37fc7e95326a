/**
 The multi-level feedback queue (scheduler, yield, sleep, wakeup, handle_time_slice and
 higher_priority_ready in kernel/proc.c, the timer arms of kernel/trap.c) on one CPU.

 While the scheduler scans the table, interrupts may wake sleepers between any two of its tests.
 */
module Mlfq {

  const NPROC: nat := 50
  const QUEUES: nat := 3

  datatype ProcState = UNUSED | SLEEPING | RUNNABLE | RUNNING | ZOMBIE

  /** used is ticks_used, the ticks charged to the process since it was created. */
  datatype Proc = Proc(state: ProcState, chan: nat, level: nat, slice: int, used: nat)

  function Quantum(level: nat): int {
    if level == 0 then 1 else if level == 1 then 2 else 4
  }

  // ---------------------------------------------------------------- accounts

  /** The level that so many charged ticks lead to. */
  function LevelOf(used: nat): nat {
    if used == 0 then 0 else if used < 3 then 1 else 2
  }

  /** What is left of the current quantum: 1, then 2 1, then 4 3 2 1 over and over. */
  function Residue(used: nat): int {
    if used == 0 then 1 else if used < 3 then 3 - used else 4 - (used - 3) % 4
  }

  /** Between quanta: nothing charged in the current one yet. */
  predicate AtBoundary(used: nat) {
    Residue(used) == Quantum(LevelOf(used))
  }

  /** Level and slice follow from the charged ticks; a process that does not run may await a new slice. */
  predicate Accounted(p: Proc) {
    && p.level == LevelOf(p.used)
    && (p.slice == Residue(p.used) || (p.slice == 0 && p.state != RUNNING && AtBoundary(p.used)))
  }

  /** The tick: what handle_time_slice does to the running process, and whether it must yield. */
  function Charged(p: Proc): Proc {
    if p.slice - 1 > 0 then p.(slice := p.slice - 1, used := p.used + 1)
    else p.(slice := 0, used := p.used + 1, level := if p.level < QUEUES - 1 then p.level + 1 else p.level)
  }

  /** A charged process is in order again once it yields, and at once when its slice is not over. */
  lemma ChargedAccounted(p: Proc)
    requires Accounted(p) && p.state == RUNNING
    ensures Charged(p).slice <= 0 <==> Residue(p.used) == 1
    ensures Accounted(Charged(p).(state := RUNNABLE))
    ensures Charged(p).slice > 0 ==> Accounted(Charged(p))
    ensures Charged(p).state == RUNNING
  {
    if p.used >= 3 {
      Cycle(p.used - 3);
    }
  }

  lemma Cycle(x: nat)
    ensures (x + 1) % 4 == if x % 4 == 3 then 0 else x % 4 + 1
  {
  }

  // ---------------------------------------------------------------- the table

  ghost predicate AllAccounted(ps: seq<Proc>) {
    forall i :: 0 <= i < |ps| ==> Accounted(ps[i])
  }

  /** At most the current process runs. */
  ghost predicate OneRuns(ps: seq<Proc>, current: int) {
    -1 <= current < |ps| && forall i :: 0 <= i < |ps| ==> (ps[i].state == RUNNING <==> i == current)
  }

  /** What an interrupt can do to the table: sleepers become runnable, everything else stays. */
  ghost predicate Woken(before: seq<Proc>, after: seq<Proc>) {
    && |before| == |after|
    && forall i :: 0 <= i < |before| ==>
      after[i] == before[i] || (before[i].state == SLEEPING && after[i] == before[i].(state := RUNNABLE))
  }

  lemma WokenTwice(a: seq<Proc>, b: seq<Proc>, c: seq<Proc>)
    requires Woken(a, b) && Woken(b, c)
    ensures Woken(a, c)
  {
    forall i | 0 <= i < |a| ensures c[i] == a[i] || (a[i].state == SLEEPING && c[i] == a[i].(state := RUNNABLE)) {
      assert b[i] == a[i] || (a[i].state == SLEEPING && b[i] == a[i].(state := RUNNABLE));
    }
  }

  lemma WokenFine(before: seq<Proc>, after: seq<Proc>, current: int)
    requires Woken(before, after) && AllAccounted(before) && OneRuns(before, current)
    ensures AllAccounted(after) && OneRuns(after, current)
  {
    hide Residue, LevelOf, AtBoundary;
    forall i | 0 <= i < |after| ensures Accounted(after[i]) && (after[i].state == RUNNING <==> i == current) {
      assert Accounted(before[i]) && (before[i].state == RUNNING <==> i == current);
    }
  }

  ghost predicate Ready(ps: seq<Proc>, i: int) {
    0 <= i < |ps| && ps[i].state == RUNNABLE
  }

  lemma SetFine(ps: seq<Proc>, current: int, i: nat, p: Proc, next: int)
    requires AllAccounted(ps) && OneRuns(ps, current) && i < |ps| && Accounted(p)
    requires next == (if p.state == RUNNING then i else -1) && (current == -1 || current == i)
    ensures AllAccounted(ps[i := p]) && OneRuns(ps[i := p], next)
  {
    hide Accounted;
    var qs := ps[i := p];
    forall k | 0 <= k < |qs| ensures Accounted(qs[k]) && (qs[k].state == RUNNING <==> k == next) {
      assert k != i ==> Accounted(ps[k]) && (ps[k].state == RUNNING <==> k == current);
    }
  }

  /** Changing a process that does not run to one that does not. */
  lemma SetOther(ps: seq<Proc>, current: int, i: nat, p: Proc)
    requires AllAccounted(ps) && OneRuns(ps, current) && i < |ps| && i != current && Accounted(p) && p.state != RUNNING
    ensures AllAccounted(ps[i := p]) && OneRuns(ps[i := p], current)
  {
    hide Accounted;
    var qs := ps[i := p];
    forall k | 0 <= k < |qs| ensures Accounted(qs[k]) && (qs[k].state == RUNNING <==> k == current) {
      assert k != i ==> Accounted(ps[k]) && (ps[k].state == RUNNING <==> k == current);
    }
  }

  function NewProc(state: ProcState): Proc {
    Proc(state, 0, 0, 0, 0)
  }

  lemma NewAccounted(state: ProcState)
    requires state != RUNNING
    ensures Accounted(NewProc(state))
  {
  }

  /** No process that was ready at the start of the scan is in a better queue, or earlier in the same one. */
  ghost predicate BestChoice(before: seq<Proc>, i: int) {
    && 0 <= i < |before|
    && forall k :: Ready(before, k) ==>
      before[i].level < before[k].level || (before[i].level == before[k].level && i <= k)
  }

  /** The state of the scan: nothing that was ready at the start lies in the part already scanned. */
  ghost predicate Scanned(before: seq<Proc>, queue: nat, i: nat) {
    forall k :: Ready(before, k) ==> before[k].level > queue || (before[k].level == queue && k >= i)
  }

  lemma ScanStep(before: seq<Proc>, now: seq<Proc>, queue: nat, i: nat)
    requires Scanned(before, queue, i) && Woken(before, now) && i < |before|
    requires !(now[i].state == RUNNABLE && now[i].level == queue)
    ensures Scanned(before, queue, i + 1)
  {
    assert Ready(before, i) ==> now[i] == before[i];
  }

  lemma ScanQueue(before: seq<Proc>, queue: nat)
    requires Scanned(before, queue, |before|)
    ensures Scanned(before, queue + 1, 0)
  {
  }

  lemma ScanFound(before: seq<Proc>, now: seq<Proc>, queue: nat, i: nat)
    requires Scanned(before, queue, i) && Woken(before, now) && i < |before| && now[i].state == RUNNABLE
    requires now[i].level == queue
    ensures BestChoice(before, i)
  {
    assert now[i].level == before[i].level;
  }

  lemma ScanEnd(before: seq<Proc>)
    requires Scanned(before, QUEUES, 0) && AllAccounted(before)
    ensures forall k :: !Ready(before, k)
  {
    forall k | 0 <= k < |before| ensures before[k].level < QUEUES {
      assert Accounted(before[k]);
    }
  }

  class Cpu {
    const procs: array<Proc>
    var current: int

    ghost predicate Valid()
      reads this, procs
    {
      procs.Length == NPROC && AllAccounted(procs[..]) && OneRuns(procs[..], current)
    }

    ghost function Now(): View
      reads this, procs
    {
      View(procs[..], current)
    }

    constructor ()
      ensures Valid() && current == -1 && fresh(procs) && procs.Length == 50
    {
      procs := new Proc[NPROC](_ => NewProc(UNUSED));
      current := -1;
      new;
      forall i | 0 <= i < NPROC ensures Accounted(procs[i]) {
        NewAccounted(UNUSED);
      }
    }

    /** allocproc and the caller that makes the process runnable. */
    method Create() returns (i: int)
      requires Valid()
      modifies procs
      ensures Valid()
      ensures i == -1 ==> procs[..] == old(procs[..]) && forall k :: 0 <= k < NPROC ==> procs[k].state != UNUSED
      ensures i != -1 ==> FirstUnused(old(procs[..]), i)
      ensures i != -1 ==> procs[..] == old(procs[..])[i := NewProc(RUNNABLE)]
      ensures i != -1 ==> procs[i].state == RUNNABLE && procs[i].level == 0 && procs[i].used == 0 && procs[i].slice == 0
    {
      hide Accounted, AllAccounted, OneRuns;
      for k := 0 to NPROC
        invariant forall m :: 0 <= m < k ==> procs[m].state != UNUSED
        invariant Valid() && procs[..] == old(procs[..])
      {
        if procs[k].state == UNUSED {
          NewAccounted(RUNNABLE);
          NotCurrent(procs[..], current, k);
          SetOther(procs[..], current, k, NewProc(RUNNABLE));
          procs[k] := NewProc(RUNNABLE);
          assert procs[..] == old(procs[..])[k := NewProc(RUNNABLE)];
          assert FirstUnused(old(procs[..]), k);
          return k;
        }
      }
      return -1;
    }

    /** wakeup: every sleeper on the channel, and nothing else. */
    method Wakeup(chan: nat)
      requires Valid()
      modifies procs
      ensures Valid() && Woken(old(procs[..]), procs[..])
      ensures WokenOn(old(procs[..]), chan, procs[..])
    {
      hide Accounted, AllAccounted, OneRuns;
      ghost var was := procs[..];
      for i := 0 to NPROC
        invariant forall k :: 0 <= k < i ==>
          procs[k] == if Sleeps(was[k], chan) then was[k].(state := RUNNABLE) else was[k]
        invariant forall k :: i <= k < NPROC ==> procs[k] == was[k]
      {
        if procs[i].state == SLEEPING && procs[i].chan == chan {
          procs[i] := procs[i].(state := RUNNABLE);
        }
      }
      WokenFine(was, procs[..], current);
    }

    /** Whatever interrupts come in between two tests of the scan: any number of wakeups on any channels. */
    method Interrupts()
      requires Valid()
      modifies procs
      ensures Valid() && Woken(old(procs[..]), procs[..])
    {
      hide Accounted, AllAccounted, OneRuns;
      var more :| 0 <= more;
      for k := 0 to more
        invariant Valid() && Woken(old(procs[..]), procs[..])
      {
        ghost var now := procs[..];
        var chan: nat :| true;
        Wakeup(chan);
        WokenTwice(old(procs[..]), now, procs[..]);
      }
    }

    /**
     One pass of scheduler up to the switch: i is chosen, seen being the table as it was then, or
     -1 when none is found.
     */
    method Dispatch() returns (i: int, ghost seen: seq<Proc>)
      requires Valid() && current == -1
      modifies this, procs
      ensures Valid() && current == i && Woken(old(procs[..]), seen)
      ensures Switched(old(procs[..]), seen, i, procs[..])
    {
      hide Accounted, AllAccounted, OneRuns, Woken, Scanned, BestChoice, LevelOf, AtBoundary, Residue;
      ghost var was := procs[..];
      WokenNone(was);
      ScanNone(was);
      for queue := 0 to QUEUES
        invariant Valid() && current == -1 && Woken(was, procs[..]) && Scanned(was, queue, 0)
      {
        for k := 0 to NPROC
          invariant Valid() && current == -1 && Woken(was, procs[..]) && Scanned(was, queue, k)
        {
          ghost var now := procs[..];
          Interrupts();
          WokenTwice(was, now, procs[..]);
          if procs[k].state == RUNNABLE && procs[k].level == queue {
            seen := procs[..];
            ScanFound(was, seen, queue, k);
            Chosen(seen, k);
            SetFine(seen, -1, k, seen[k].(state := RUNNING, slice := Residue(seen[k].used)), k);
            var p := procs[k];
            procs[k] := p.(state := RUNNING, slice := if p.slice <= 0 then Quantum(p.level) else p.slice);
            current := k;
            assert procs[..] == seen[k := seen[k].(state := RUNNING, slice := Residue(seen[k].used))];
            return k, seen;
          }
          ScanStep(was, procs[..], queue, k);
        }
        ScanQueue(was, queue);
      }
      ScanEnd(was);
      return -1, procs[..];
    }

    /** higher_priority_ready. */
    method HigherReady() returns (r: bool)
      requires Valid() && current != -1
      ensures r <==> Urgent(procs[..], procs[current].level)
    {
      hide AllAccounted;
      for k := 0 to NPROC
        invariant forall m :: 0 <= m < k && Ready(procs[..], m) ==> procs[m].level >= procs[current].level
      {
        if k != current && procs[k].state == RUNNABLE && procs[k].level < procs[current].level {
          assert Ready(procs[..], k);
          return true;
        }
      }
      return false;
    }

    /** The current process leaves the CPU in the given state. */
    method Leave(p: Proc)
      requires Valid0(p) && p.state != RUNNING
      modifies this, procs
      ensures Valid() && current == -1 && procs[..] == old(procs[..])[old(current) := p]
    {
      hide Accounted, AllAccounted, OneRuns;
      Running(procs[..], current);
      SetFine(procs[..], current, current, p, -1);
      procs[current] := p;
      assert procs[..] == old(procs[..])[old(current) := p];
      current := -1;
    }

    /** There is a current process, and p is in order to take its place in the table. */
    ghost predicate Valid0(p: Proc)
      reads this, procs
    {
      Valid() && current != -1 && Accounted(p)
    }

    /**
     The timer arm of usertrap and kerneltrap: the tick is charged to the running process, which keeps
     the CPU unless its quantum is over or a better queue has a ready process.
     */
    method Tick()
      requires Valid() && current != -1
      modifies this, procs
      ensures Valid() && Ticked(old(Now()), old(current), Now())
    {
      hide AllAccounted, Residue, LevelOf, AtBoundary, Charged;
      var c := current;
      var p := procs[c];
      Running(procs[..], current);
      ChargedAccounted(p);
      if Charged(p).slice <= 0 {
        Leave(Charged(p).(state := RUNNABLE));
      } else {
        var better := HigherReady();
        if better {
          Leave(Charged(p).(state := RUNNABLE));
        } else {
          SetFine(procs[..], current, c, Charged(p), c);
          procs[c] := Charged(p);
          assert procs[..] == old(procs[..])[c := Charged(p)];
        }
      }
    }

    /** sleep, up to the switch. */
    method Sleep(chan: nat)
      requires Valid() && current != -1
      modifies this, procs
      ensures Valid() && current == -1
      ensures procs[..] == old(procs[..])[old(current) := old(procs[current]).(state := SLEEPING, chan := chan)]
    {
      hide AllAccounted, Residue, LevelOf, AtBoundary;
      Running(procs[..], current);
      Leave(procs[current].(state := SLEEPING, chan := chan));
    }

    /** exit, up to the switch. */
    method Exit()
      requires Valid() && current != -1
      modifies this, procs
      ensures Valid() && current == -1
      ensures procs[..] == old(procs[..])[old(current) := old(procs[current]).(state := ZOMBIE)]
    {
      hide AllAccounted, Residue, LevelOf, AtBoundary;
      Running(procs[..], current);
      Leave(procs[current].(state := ZOMBIE));
    }

    /** The table part of freeproc. */
    method Free(i: nat)
      requires Valid() && i < NPROC && procs[i].state == ZOMBIE
      modifies procs
      ensures Valid() && procs[..] == old(procs[..])[i := procs[i]] && procs[i].state == UNUSED
      ensures procs[..] == old(procs[..])[i := NewProc(UNUSED)]
    {
      hide Accounted, AllAccounted, OneRuns;
      NewAccounted(UNUSED);
      NotCurrent(procs[..], current, i);
      SetOther(procs[..], current, i, NewProc(UNUSED));
      procs[i] := NewProc(UNUSED);
      assert procs[..] == old(procs[..])[i := NewProc(UNUSED)];
    }

    /**
     Every run, an event that cannot happen being passed over: each event does what `Next` says, so
     every dispatch is a best choice, and levels follow from charged ticks throughout.
     */
    method Run(events: seq<Event>) returns (ghost views: seq<View>)
      requires Valid()
      modifies this, procs
      ensures Valid() && History(events, views) && views[0] == old(Now()) && views[|events|] == Now()
    {
      hide Next, Fine;
      views := [Now()];
      FineNow();
      for n := 0 to |events|
        invariant Valid() && |views| == n + 1 && views[0] == old(Now()) && views[n] == Now()
        invariant forall i :: 0 <= i <= n ==> Fine(views[i])
        invariant forall i :: 0 <= i < n ==> Next(views[i], events[i], views[i + 1])
      {
        Step(events[n]);
        FineNow();
        views := views + [Now()];
      }
    }

    lemma FineNow()
      requires Valid()
      ensures Fine(Now())
    {
    }

    method Step(e: Event)
      requires Valid()
      modifies this, procs
      ensures Valid() && Fine(old(Now())) && Next(old(Now()), e, Now())
    {
      hide Accounted, AllAccounted, OneRuns, Woken, BestChoice, Ready, WokenOn, Residue, Charged;
      FineNow();
      match e
      case Created => var i := Create();
      case Schedule =>
        if current == -1 {
          ghost var seen;
          var i;
          i, seen := Dispatch();
          assert Switched(old(procs[..]), seen, current, procs[..]);
        }
      case Timer =>
        if current != -1 {
          Tick();
        }
      case Wake(chan) => Wakeup(chan);
      case Block(chan) =>
        if current != -1 {
          Running(procs[..], current);
          Sleep(chan);
        }
      case Exited =>
        if current != -1 {
          Running(procs[..], current);
          Exit();
        }
      case Reaped(i) =>
        if i < NPROC && procs[i].state == ZOMBIE {
          Free(i);
        }
    }

    /** scheduler and the timer by themselves, nothing asleep: the rounds of process 0. */
    method PlayRounds(n: nat)
      requires Valid() && current == -1 && Crowded(procs[..])
      modifies this, procs
      ensures Valid() && current == -1 && procs[..] == Rounds(old(procs[..]), n)
    {
      hide Accounted, AllAccounted, OneRuns, Woken, BestChoice, Switched, UsedUp, Charged, Residue, LevelOf;
      ghost var was := procs[..];
      for k := 0 to n
        invariant Valid() && current == -1 && procs[..] == Rounds(was, k)
      {
        ghost var qs := procs[..];
        FirstAccounted(was);
        FirstStarvesOthers(was, k);
        var i;
        ghost var seen;
        i, seen := Dispatch();
        FirstSwitched(qs, seen, i, procs[..]);
        ghost var p := procs[0];
        while current != -1
          invariant Valid() && (current == 0 || current == -1) && procs[..] == qs[0 := procs[0]] && procs[0].level == 2
          invariant current == 0 ==> UsedUp(procs[0]) == UsedUp(p)
          invariant current == -1 ==> procs[0] == UsedUp(p).(state := RUNNABLE)
          decreases current == 0, procs[0].slice
        {
          Running(procs[..], 0);
          ChargedAccounted(procs[0]);
          UsedUpStep(procs[0]);
          Tick();
        }
      }
    }
  }

  /** The table and the current process at one moment. */
  datatype View = View(procs: seq<Proc>, current: int)

  ghost predicate Fine(v: View) {
    |v.procs| == NPROC && AllAccounted(v.procs) && OneRuns(v.procs, v.current)
  }

  predicate FirstUnused(ps: seq<Proc>, i: int) {
    0 <= i < |ps| && ps[i].state == UNUSED && forall k :: 0 <= k < i ==> ps[k].state != UNUSED
  }

  /**
   The switch from the table `before` by way of `seen`, after wakeups: a best choice runs with what
   is left of its quantum; none is ready when none is found.
   */
  ghost predicate Switched(before: seq<Proc>, seen: seq<Proc>, i: int, after: seq<Proc>) {
    && Woken(before, seen)
    && (i == -1 ==> after == seen && forall k :: !Ready(before, k))
    && (i != -1 ==> Ready(seen, i) && BestChoice(before, i))
    && (i != -1 ==> after == seen[i := seen[i].(state := RUNNING, slice := Residue(seen[i].used))])
  }

  ghost predicate WokenOn(before: seq<Proc>, chan: nat, after: seq<Proc>) {
    && |after| == |before|
    && forall i :: 0 <= i < |before| ==>
      after[i] == if Sleeps(before[i], chan) then before[i].(state := RUNNABLE) else before[i]
  }

  ghost predicate Urgent(ps: seq<Proc>, level: nat) {
    exists k :: Ready(ps, k) && ps[k].level < level
  }

  /** The timer interrupt of the running process c. */
  ghost predicate Ticked(v: View, c: int, w: View) {
    && 0 <= c < |v.procs|
    && var p := v.procs[c];
    && w.current == (if Residue(p.used) == 1 || Urgent(v.procs, p.level) then -1 else c)
    && w.procs == v.procs[c := Charged(p).(state := if w.current == -1 then RUNNABLE else RUNNING)]
  }

  /** What each event does; one that cannot happen does nothing. */
  ghost predicate Next(v: View, e: Event, w: View)
    requires Fine(v)
  {
    var c := v.current;
    match e
    case Created =>
      if exists i :: FirstUnused(v.procs, i)
      then exists i :: FirstUnused(v.procs, i) && w == View(v.procs[i := NewProc(RUNNABLE)], c)
      else w == v
    case Schedule => if c == -1 then exists seen :: Switched(v.procs, seen, w.current, w.procs) else w == v
    case Timer => if c != -1 then Ticked(v, c, w) else w == v
    case Wake(chan) => w.current == c && WokenOn(v.procs, chan, w.procs)
    case Block(chan) =>
      w == if c != -1 then View(v.procs[c := v.procs[c].(state := SLEEPING, chan := chan)], -1) else v
    case Exited => w == if c != -1 then View(v.procs[c := v.procs[c].(state := ZOMBIE)], -1) else v
    case Reaped(i) =>
      w == if i < NPROC && v.procs[i].state == ZOMBIE then View(v.procs[i := NewProc(UNUSED)], c) else v
  }

  /** The views before and after each of the events. */
  ghost predicate History(events: seq<Event>, views: seq<View>) {
    && |views| == |events| + 1 && (forall i :: 0 <= i < |views| ==> Fine(views[i]))
    && forall i :: 0 <= i < |events| ==> Next(views[i], events[i], views[i + 1])
  }

  datatype Event = Created | Schedule | Timer | Wake(chan: nat) | Block(chan: nat) | Exited | Reaped(i: nat)

  lemma Running(ps: seq<Proc>, current: int)
    requires AllAccounted(ps) && OneRuns(ps, current) && current != -1
    ensures 0 <= current < |ps| && Accounted(ps[current]) && ps[current].state == RUNNING
  {
  }

  predicate Sleeps(p: Proc, chan: nat) {
    p.state == SLEEPING && p.chan == chan
  }

  /** A wakeup on one channel leaves those asleep on another. */
  lemma OthersSleepOn(before: seq<Proc>, chan: nat, after: seq<Proc>, i: nat)
    requires WokenOn(before, chan, after) && i < |before| && before[i].state == SLEEPING
    ensures if before[i].chan == chan then after[i].state == RUNNABLE else after[i] == before[i]
  {
  }

  lemma NotCurrent(ps: seq<Proc>, current: int, i: nat)
    requires OneRuns(ps, current) && i < |ps| && ps[i].state != RUNNING
    ensures i != current
  {
  }

  lemma WokenNone(ps: seq<Proc>)
    ensures Woken(ps, ps)
  {
  }

  lemma ScanNone(ps: seq<Proc>)
    ensures Scanned(ps, 0, 0)
  {
  }

  lemma Chosen(ps: seq<Proc>, k: nat)
    requires AllAccounted(ps) && k < |ps| && ps[k].state == RUNNABLE
    ensures Accounted(ps[k].(state := RUNNING, slice := Residue(ps[k].used)))
    ensures Residue(ps[k].used) == if ps[k].slice <= 0 then Quantum(ps[k].level) else ps[k].slice
  {
    assert Accounted(ps[k]);
  }

  // ---------------------------------------------------------------- no fairness within a queue

  /** The process the scheduler has switched to. */
  function Dispatched(p: Proc): Proc {
    p.(state := RUNNING, slice := if p.slice <= 0 then Quantum(p.level) else p.slice)
  }

  /** Tick after tick until the slice is over. */
  function UsedUp(p: Proc): Proc
    decreases p.slice
  {
    if Charged(p).slice <= 0 then Charged(p) else UsedUp(Charged(p))
  }

  lemma UsedUpStep(p: Proc)
    ensures UsedUp(p) == if Charged(p).slice <= 0 then Charged(p) else UsedUp(Charged(p))
    ensures p.level == 2 ==> Charged(p).level == 2
    ensures Charged(p).(state := p.state) == Charged(p)
    ensures Accounted(p) && p.state == RUNNING ==> Charged(p).slice < p.slice
  {
  }

  /** Every process is ready, and in the lowest queue. */
  ghost predicate Crowded(ps: seq<Proc>) {
    forall i :: 0 <= i < |ps| ==> ps[i].state == RUNNABLE && ps[i].level == 2
  }

  lemma FirstAccounted(ps: seq<Proc>)
    requires ps != [] && AllAccounted(ps)
    ensures Accounted(ps[0])
  {
  }

  /** With nothing asleep the scan sees the table it began with, and finds process 0. */
  lemma FirstSwitched(ps: seq<Proc>, seen: seq<Proc>, i: int, after: seq<Proc>)
    requires ps != [] && Crowded(ps) && AllAccounted(ps) && Switched(ps, seen, i, after)
    ensures i == 0 && after == ps[0 := Dispatched(ps[0])]
  {
    assert seen == ps;
    assert Ready(ps, 0);
    Chosen(ps, 0);
  }

  /** n times: process 0 is dispatched, uses up what it has of its quantum and yields. */
  function Rounds(ps: seq<Proc>, n: nat): seq<Proc>
    requires ps != []
    ensures |Rounds(ps, n)| == |ps|
  {
    if n == 0 then ps else var qs := Rounds(ps, n - 1); qs[0 := UsedUp(Dispatched(qs[0])).(state := RUNNABLE)]
  }

  lemma {:induction false} UsedUpExactly(p: Proc)
    requires p.slice > 0 && p.level == 2
    ensures UsedUp(p) == p.(slice := 0, used := p.used + p.slice)
    decreases p.slice
  {
    if p.slice > 1 {
      UsedUpExactly(Charged(p));
    }
  }

  /** Ticks process 0 gets in n rounds: what was left of its quantum, then a whole one each time. */
  function TicksOf(used: nat, n: nat): int {
    if n == 0 then 0 else Residue(used) + 4 * (n - 1)
  }

  /** In the lowest queue the first process is chosen again and again; the others, as ready as it is, never run. */
  lemma {:induction false} FirstStarvesOthers(ps: seq<Proc>, n: nat)
    requires ps != [] && Accounted(ps[0]) && Crowded(ps)
    ensures Crowded(Rounds(ps, n)) && BestChoice(Rounds(ps, n), 0)
    ensures Rounds(ps, n)[0].used == ps[0].used + TicksOf(ps[0].used, n)
    ensures Rounds(ps, n)[0].state == RUNNABLE && Rounds(ps, n)[0].level == 2 && (n > 0 ==> Rounds(ps, n)[0].slice == 0)
    ensures forall i :: 0 < i < |ps| ==> Rounds(ps, n)[i] == ps[i]
  {
    if n > 0 {
      FirstStarvesOthers(ps, n - 1);
      UsedUpExactly(Dispatched(Rounds(ps, n - 1)[0]));
    }
  }

  // ---------------------------------------------------------------- nor with wakeups in between

  /** f is ready or runs, in the lowest queue; nothing else that could become ready is before it. */
  ghost predicate Hogs(v: View, f: nat) {
    && f < |v.procs| && (v.procs[f].state == RUNNABLE || v.procs[f].state == RUNNING) && v.procs[f].level == 2
    && (v.current == -1 || v.current == f)
    && forall k :: 0 <= k < |v.procs| && k != f ==> Waits(v.procs[k], k, f)
  }

  predicate Waits(p: Proc, k: int, f: nat) {
    p.state == RUNNABLE || p.state == SLEEPING ==> p.level == 2 && k > f
  }

  predicate SameAccount(p: Proc, q: Proc) {
    p.level == q.level && p.slice == q.slice && p.used == q.used
  }

  /** Whatever is woken, the next process is f again, and it is charged every tick. */
  lemma HogStep(v: View, e: Event, w: View, f: nat)
    requires Fine(v) && Hogs(v, f) && Next(v, e, w) && (e.Schedule? || e.Timer? || e.Wake?)
    ensures Hogs(w, f) && (e.Schedule? ==> w.current == f) && (v.current == -1 || v.current == f)
    ensures w.procs[f].used == v.procs[f].used + if e.Timer? && v.current == f then 1 else 0
    ensures |w.procs| == |v.procs| && forall k :: 0 <= k < |v.procs| && k != f ==> SameAccount(v.procs[k], w.procs[k])
  {
    hide AllAccounted, Residue, LevelOf, AtBoundary, Accounted;
    if e.Schedule? && v.current == -1 {
      var seen :| Switched(v.procs, seen, w.current, w.procs);
      assert Ready(v.procs, f);
      assert w.current == f;
    }
  }

  /** The ticks that come while a process runs. */
  ghost function TicksIn(events: seq<Event>, views: seq<View>): nat
    requires |views| >= |events|
  {
    if events == [] then 0
    else
      var n := |events| - 1;
      TicksIn(events[..n], views) + if events[n].Timer? && views[n].current != -1 then 1 else 0
  }

  /** Over every run of the scheduler, the timer and wakeups: f has all the ticks, the others' accounts stand still. */
  lemma {:induction false} HogStarvesOthers(events: seq<Event>, views: seq<View>, f: nat)
    requires History(events, views) && Hogs(views[0], f)
    requires forall i :: 0 <= i < |events| ==> events[i].Schedule? || events[i].Timer? || events[i].Wake?
    ensures Hogs(views[|events|], f) && |views[|events|].procs| == |views[0].procs|
    ensures views[|events|].procs[f].used == views[0].procs[f].used + TicksIn(events, views)
    ensures forall k :: 0 <= k < |views[0].procs| && k != f ==>
      SameAccount(views[0].procs[k], views[|events|].procs[k])
  {
    hide Next, Fine, Hogs;
    if events != [] {
      var n := |events| - 1;
      assert History(events[..n], views[..n + 1]);
      HogStarvesOthers(events[..n], views[..n + 1], f);
      TicksSame(events[..n], views[..n + 1], views);
      assert views[..n + 1][n] == views[n];
      HogStep(views[n], events[n], views[n + 1], f);
    }
  }

  lemma {:induction false} TicksSame(events: seq<Event>, views: seq<View>, more: seq<View>)
    requires |events| <= |views| && views <= more
    ensures TicksIn(events, views) == TicksIn(events, more)
  {
    if events != [] {
      TicksSame(events[..|events| - 1], views, more);
    }
  }
}
