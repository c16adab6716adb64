/** Runs of the process and scheduler transition system of Scheduler: what holds in every reachable state of
    src/kernel/process.c, src/kernel/locks.c and src/kernel/trap.c, whatever the interleaving. */
module Processes {
  import opened Common
  import opened Scheduler

  /** A run from boot: the states passed through and the steps between them. */
  ghost predicate Run(ss: seq<State>, es: seq<Event>) {
    && |ss| == |es| + 1 && Init(ss[0])
    && forall k :: 0 <= k < |es| ==> StepAt(ss, es, k)
  }

  ghost predicate StepAt(ss: seq<State>, es: seq<Event>, k: nat)
    requires k < |es| && |ss| == |es| + 1
  {
    Enabled(ss[k], es[k]) && ss[k + 1] == Apply(ss[k], es[k])
  }

  lemma {:induction false} RunInv(ss: seq<State>, es: seq<Event>, k: nat)
    requires Run(ss, es) && k < |ss|
    ensures Inv(ss[k])
  {
    if k == 0 {
      InitInv(ss[0]);
    } else {
      RunInv(ss, es, k - 1);
      assert StepAt(ss, es, k - 1);
      StepKeepsInv(ss[k - 1], es[k - 1]);
    }
  }

  // ---------------------------------------------------------------- main results

  /** Scheduler exclusivity: in every reachable state, a process whose lock is free is RUNNING exactly when one
      cpu's proc field names it, and then only one does. */
  lemma ExclusiveRunning(ss: seq<State>, es: seq<Event>, k: nat, p: nat)
    requires Run(ss, es) && k < |ss| && p < |ss[k].procs| && ss[k].procs[p].lock.None?
    ensures ss[k].procs[p].state == Running <==> exists c :: 0 <= c < |ss[k].cpus| && ss[k].cpus[c].proc == Some(p)
    ensures forall c, d :: 0 <= c < |ss[k].cpus| && 0 <= d < |ss[k].cpus| ==>
              ss[k].cpus[c].proc == Some(p) && ss[k].cpus[d].proc == Some(p) ==> c == d
  {
    RunInv(ss, es, k);
    var s := ss[k];
    assert ProcOk(s, p);
    forall c | 0 <= c < |s.cpus| && s.cpus[c].proc == Some(p)
      ensures s.cpus[c].spc == Away(p) && s.procs[p].state == Running && s.procs[p].host == Some(c)
    {
      assert CpuOk(s, c);
      assert s.procs[p].lock == Some(c) <==> Holds(s, c, p);
    }
    if s.procs[p].state == Running {
      assert CpuOk(s, s.procs[p].host.value);
    }
  }

  /** Spinlocks exclude: in every reachable state no two cpus hold the same one, process locks included. */
  lemma SpinlocksExclusive(ss: seq<State>, es: seq<Event>, k: nat, c: nat, d: nat)
    requires Run(ss, es) && k < |ss| && c < |ss[k].cpus| && d < |ss[k].cpus| && c != d
    ensures ss[k].cpus[c].conds !! ss[k].cpus[d].conds
    ensures forall p :: 0 <= p < |ss[k].procs| ==> !(Holds(ss[k], c, p) && Holds(ss[k], d, p))
  {
    RunInv(ss, es, k);
    var s := ss[k];
    assert c < d ==> s.cpus[c].conds !! s.cpus[d].conds;
    assert d < c ==> s.cpus[d].conds !! s.cpus[c].conds;
    forall p | 0 <= p < |s.procs| ensures !(Holds(s, c, p) && Holds(s, d, p)) {
      Exclusion(s, c, d, p);
    }
  }

  /** cpu_scheduler's choice: the process whose lock it holds is run exactly if it is RUNNABLE, and passed over
      exactly if it is not, so that no RUNNABLE process the scan comes to is skipped. */
  lemma SchedulerChoice(ss: seq<State>, es: seq<Event>, k: nat, c: nat)
    requires Run(ss, es) && k < |ss| && c < |ss[k].cpus| && ss[k].cpus[c].spc.Hold?
    ensures var s, i := ss[k], ss[k].cpus[c].spc.i;
            && i < |s.procs| && s.procs[i].lock == Some(c)
            && (Enabled(s, SchedRun(c)) <==> s.procs[i].state == Runnable)
            && (Enabled(s, SchedPass(c)) <==> s.procs[i].state != Runnable)
  {
    RunInv(ss, es, k);
    var s, i := ss[k], ss[k].cpus[c].spc.i;
    assert CpuOk(s, c) && ProcOk(s, i);
    assert s.procs[i].lock == Some(c) <==> Holds(s, c, i);
    if s.procs[i].host.Some? {
      var d := s.procs[i].host.value;
      assert CpuOk(s, d) && (s.procs[i].lock == Some(d) <==> Holds(s, d, i));
    }
  }

  /** scheduler()'s panic guards: the process lock is held, the process is not RUNNING and interrupts are off, always;
      and the lock depth is 1 if and only if the caller of sleep or exit held no lock besides the one it gave. Then
      the process lock is handed to the cpu's scheduler thread still held. */
  lemma SwitchGuards(ss: seq<State>, es: seq<Event>, k: nat, c: nat, p: nat)
    requires Run(ss, es) && k < |ss| && Executes(ss[k], c, p) && ss[k].procs[p].pc.Switch?
    ensures var s := ss[k];
            && s.procs[p].lock == Some(c) && s.procs[p].state != Running && !s.cpus[c].intr
            && (s.cpus[c].depth == 1 <==> s.cpus[c].conds == {})
            && (Enabled(s, ProcStep(c)) <==> s.cpus[c].conds == {})
            && (s.cpus[c].conds == {} ==>
                 var t := Apply(s, ProcStep(c));
                 t.procs[p].lock == Some(c) && t.cpus[c].spc == Back(p) && t.cpus[c].depth == 1)
  {
    RunInv(ss, es, k);
    var s := ss[k];
    assert CpuOk(s, c) && ProcOk(s, p);
    assert s.procs[p].lock == Some(c) <==> Holds(s, c, p);
    assert |s.cpus[c].conds| == 0 <==> s.cpus[c].conds == {};
  }

  /** When sleep or yield gives the process lock back after the switch, interrupts are as they were on entry, on
      whatever cpu the process now runs and whatever ran there before; a process only comes back from sleep after
      being woken. */
  lemma InterruptsRestored(ss: seq<State>, es: seq<Event>, k: nat, c: nat, p: nat)
    requires Run(ss, es) && k < |ss| && Executes(ss[k], c, p) && ss[k].procs[p].pc.Resumed?
    requires !ss[k].procs[p].pc.ret.InFork?
    ensures var t := Apply(ss[k], ProcStep(c));
            t.cpus[c].depth == 0 && t.cpus[c].intr == ss[k].procs[p].before && t.procs[p].lock.None?
    ensures ss[k].procs[p].pc.ret.InSleep? ==> ss[k].procs[p].woken
    ensures ss[k].procs[p].pc.ret.InYield? ==> !ss[k].procs[p].before
    ensures ss[k].procs[p].pc.ret.InSleep? ==> Apply(ss[k], ProcStep(c)).procs[p].chan == None
  {
    RunInv(ss, es, k);
    assert CpuOk(ss[k], c) && ProcOk(ss[k], p);
  }

  /** A trap handler has interrupts off from entry to sret, also after a timer yield in it and on whatever cpu it goes
      on. So no handler is interrupted, and the trap registers it writes back are its own. */
  lemma HandlersMasked(ss: seq<State>, es: seq<Event>, k: nat, c: nat, p: nat)
    requires Run(ss, es) && k < |ss| && c < |ss[k].cpus| && ss[k].cpus[c].spc == Away(p) && p < |ss[k].procs|
    ensures Handler(ss[k].procs[p].pc) ==> !ss[k].cpus[c].intr && !Interruptible(ss[k], c)
    ensures ss[k].procs[p].pc.Ktrap? ==> ss[k].procs[p].pc.next.Normal? || ss[k].procs[p].pc.next.SleepReacq?
    ensures Interruptible(ss[k], c) <==> ss[k].cpus[c].intr && ss[k].cpus[c].waker.None?
    ensures ss[k].cpus[c].intr ==> ss[k].cpus[c].depth == 0
  {
    RunInv(ss, es, k);
    assert CpuOk(ss[k], c) && ProcOk(ss[k], p);
    assert ss[k].procs[p].pc.User? ==> ss[k].cpus[c].waker.None?;
  }

  /** sleep as its caller sees it: with its lock taken back, interrupts will be as they were at entry once that lock is
      dropped, whatever handlers and yields came between the switch and the lock. */
  lemma SleepRestores(ss: seq<State>, es: seq<Event>, k: nat, c: nat, p: nat)
    requires Run(ss, es) && k < |ss| && Executes(ss[k], c, p) && ss[k].procs[p].pc.SleepReacq?
    requires Enabled(ss[k], ProcStep(c))
    ensures var lk, t := ss[k].procs[p].pc.lk, Apply(ss[k], ProcStep(c));
            && t.cpus[c].conds == {lk} && t.cpus[c].depth == 1 && !t.cpus[c].intr &&
                 t.cpus[c].prev == ss[k].procs[p].before
            && Enabled(t, ReleaseCond(c, lk)) && Apply(t, ReleaseCond(c, lk)).cpus[c].intr == ss[k].procs[p].before
  {
    RunInv(ss, es, k);
    assert CpuOk(ss[k], c) && ProcOk(ss[k], p);
  }

  /** Process x is inside sleep(chan, lk) and has not been made RUNNABLE. */
  predicate InSleepCall(x: Proc, chan: nat, lk: nat) {
    match x.pc
    case SleepAcq(ch, l) => ch == chan && l == lk
    case SleepRel(ch, l) => ch == chan && l == lk
    case SleepSet(ch, l) => ch == chan && l == lk && !x.woken
    case Switch(InSleep(ch, l)) => ch == chan && l == lk && !x.woken
    case Parked(InSleep(ch, l)) => ch == chan && l == lk && !x.woken
    case _ => false
  }

  /** A wakeup keeps its channel and its pending set until it ends. */
  lemma {:induction false} WakerKept(ss: seq<State>, es: seq<Event>, a: nat, b: nat, c: nat)
    requires Run(ss, es) && a < b < |ss| && es[a].WakeBegin? && es[a].c == c
    requires forall k :: a < k < b ==> es[k] != WakeEnd(c)
    ensures c < |ss[b].cpus| && |ss[b].procs| == |ss[a].procs|
    ensures ss[b].cpus[c].waker.Some? && ss[b].cpus[c].waker.value.chan == es[a].chan
    ensures ss[b].cpus[c].waker.value.pend == Pending(ss[a], es[a].chan)
    decreases b
  {
    assert StepAt(ss, es, b - 1);
    if b > a + 1 {
      WakerKept(ss, es, a, b - 1, c);
      RunInv(ss, es, b - 1);
      assert CpuOk(ss[b - 1], c);
      hide Inv, Run;
      WakerStep(ss[b - 1], es[b - 1], c);
    }
  }

  lemma WakerStep(s: State, e: Event, c: nat)
    requires Enabled(s, e) && c < |s.cpus| && CpuOk(s, c) && s.cpus[c].waker.Some? && e != WakeEnd(c)
    ensures var t := Apply(s, e);
            && |t.cpus| == |s.cpus| && |t.procs| == |s.procs| && t.cpus[c].waker.Some?
            && t.cpus[c].waker.value.chan == s.cpus[c].waker.value.chan &&
                 t.cpus[c].waker.value.pend == s.cpus[c].waker.value.pend
  {
  }

  /** No lost wakeup, in every interleaving: a process inside sleep(chan, lk) when a wakeup(chan) begins under lk has
      been made RUNNABLE by the time that wakeup ends. */
  lemma NoLostWakeup(ss: seq<State>, es: seq<Event>, a: nat, b: nat, c: nat, lk: nat, p: nat)
    requires Run(ss, es) && a < b < |es| && es[a].WakeBegin? && es[a].c == c && es[b] == WakeEnd(c)
    requires forall k :: a < k < b ==> es[k] != WakeEnd(c)
    requires c < |ss[a].cpus| && lk in ss[a].cpus[c].conds
    requires p < |ss[a].procs| && InSleepCall(ss[a].procs[p], es[a].chan, lk)
    ensures exists k :: a < k <= b && p < |ss[k].procs| && ss[k].procs[p].state == Runnable
  {
    RunInv(ss, es, a);
    RunInv(ss, es, b);
    assert StepAt(ss, es, a);
    CommittedUnderLock(ss[a], c, es[a].chan, lk, p);
    WakerKept(ss, es, a, b, c);
    assert StepAt(ss, es, b);
    assert WakeOk(ss[b], c);
    var w := ss[b].cpus[c].waker.value;
    assert p in w.pend && PendOk(ss[b].procs[p], w, p);
    if forall k :: a < k <= b && p < |ss[k].procs| ==> ss[k].procs[p].state != Runnable {
      StaysCommitted(ss, es, a, b, p, es[a].chan);
    }
  }

  /** A committed sleeper that is never RUNNABLE is still committed, in the same sleep. */
  lemma {:induction false} StaysCommitted(ss: seq<State>, es: seq<Event>, a: nat, b: nat, p: nat, chan: nat)
    requires Run(ss, es) && a <= b < |ss| && p < |ss[a].procs| && Committed(ss[a].procs[p], chan)
    requires forall k :: a < k <= b && p < |ss[k].procs| ==> ss[k].procs[p].state != Runnable
    ensures p < |ss[b].procs| && Committed(ss[b].procs[p], chan) && ss[b].procs[p].episode == ss[a].procs[p].episode
    decreases b
  {
    if a < b {
      StaysCommitted(ss, es, a, b - 1, p, chan);
      assert StepAt(ss, es, b - 1);
      RunInv(ss, es, b - 1);
      hide Apply, Enabled, Inv, Run, Committed;
      SleeperStep(ss[b - 1], es[b - 1], p, chan);
    }
  }

  lemma SleeperStep(s: State, e: Event, p: nat, chan: nat)
    requires Enabled(s, e) && p < |s.procs| && Inv(s) && Committed(s.procs[p], chan)
    ensures StillAsleep(s, Apply(s, e), p, chan)
  {
    assert ProcOk(s, p);
    if e.Interrupt? { assert CpuOk(s, e.c); }
    if e.ProcStep? { SleeperMoves(s, e.c, p, chan); } else { SleeperWaits(s, e, p, chan); }
  }

  ghost predicate StillAsleep(s: State, t: State, p: nat, chan: nat)
    requires p < |s.procs|
  {
    && p < |t.procs|
    && (t.procs[p].state == Runnable || (Committed(t.procs[p], chan) && t.procs[p].episode == s.procs[p].episode))
  }

  lemma SleeperMoves(s: State, c: nat, p: nat, chan: nat)
    requires Enabled(s, ProcStep(c)) && p < |s.procs| && ProcOk(s, p) && Committed(s.procs[p], chan)
    ensures StillAsleep(s, Apply(s, ProcStep(c)), p, chan)
  {
    var q := s.cpus[c].spc.i;
    if q != p { assert ApplyProc(s, c, q).procs[p] == s.procs[p]; }
  }

  lemma SleeperWaits(s: State, e: Event, p: nat, chan: nat)
    requires Enabled(s, e) && !e.ProcStep? && p < |s.procs| && ProcOk(s, p) && Committed(s.procs[p], chan)
    requires e.Interrupt? ==> CpuOk(s, e.c)
    ensures StillAsleep(s, Apply(s, e), p, chan)
  {
    hide ApplyProc, ProcReady;
  }

  // ---------------------------------------------------------------- who is woken

  /** The moves between process states, over every run and whatever the step: a sleeper is woken only by a kill of it or
      by a wakeup of the channel it sleeps on, a RUNNABLE process is only made RUNNING, by the cpu that then runs it,
      and a RUNNING one changes its state only by its own yield, sleep or exit. */
  lemma StateMoves(ss: seq<State>, es: seq<Event>, k: nat, p: nat)
    requires Run(ss, es) && k < |es| && p < |ss[k].procs|
    ensures p < |ss[k + 1].procs|
    ensures ss[k + 1].procs[p].state != ss[k].procs[p].state ==> Moves(ss[k], es[k], ss[k + 1], p)
  {
    assert StepAt(ss, es, k);
    RunInv(ss, es, k);
    hide Inv, Run;
    StateStep(ss[k], es[k], p);
  }

  ghost predicate Moves(s: State, e: Event, t: State, p: nat)
    requires p < |s.procs| && p < |t.procs|
  {
    match s.procs[p].state
    case Sleeping => t.procs[p].state == Runnable && (Kills(e, p) || Wakes(s, e, p))
    case Runnable =>
      && t.procs[p].state == Running && e.SchedRun? && e.c < |t.cpus|
      && t.cpus[e.c].proc == Some(p) && s.procs[p].lock == Some(e.c)
    case Running =>
      && e.ProcStep? && Executes(s, e.c, p)
      && (t.procs[p].state == Sleeping ==> s.procs[p].pc.SleepSet? && t.procs[p].chan == Some(s.procs[p].pc.chan))
      && (t.procs[p].state == Runnable ==> s.procs[p].pc.YieldSet?)
      && (t.procs[p].state == Zombie ==> s.procs[p].pc.ExitSet?)
      && t.procs[p].state != Unused
    case _ => false
  }

  predicate Kills(e: Event, p: nat) {
    e.Kill? && e.p == p
  }

  /** A step of a wakeup that has reached p, on the channel p sleeps on. */
  ghost predicate Wakes(s: State, e: Event, p: nat)
    requires p < |s.procs|
  {
    && e.WakeCheck? && e.c < |s.cpus| && s.cpus[e.c].waker.Some?
    && s.cpus[e.c].waker.value.next == p && s.procs[p].chan == Some(s.cpus[e.c].waker.value.chan)
  }

  lemma StateStep(s: State, e: Event, p: nat)
    requires Enabled(s, e) && Inv(s) && p < |s.procs|
    ensures var t := Apply(s, e);
            p < |t.procs| && (t.procs[p].state != s.procs[p].state ==> Moves(s, e, t, p))
  {
    assert ProcOk(s, p);
    if e.SchedRun? {
      assert CpuOk(s, e.c) && (s.procs[p].lock == Some(e.c) <==> Holds(s, e.c, p));
    }
    if e.ProcStep? { StateOwnStep(s, e.c, p); } else { StateOtherStep(s, e, p); }
  }

  lemma StateOwnStep(s: State, c: nat, p: nat)
    requires Enabled(s, ProcStep(c)) && p < |s.procs| && ProcOk(s, p)
    ensures var t := Apply(s, ProcStep(c));
            p < |t.procs| && (t.procs[p].state != s.procs[p].state ==> Moves(s, ProcStep(c), t, p))
  {
    var q := s.cpus[c].spc.i;
    if q != p { assert ApplyProc(s, c, q).procs[p] == s.procs[p]; }
  }

  lemma StateOtherStep(s: State, e: Event, p: nat)
    requires Enabled(s, e) && !e.ProcStep? && p < |s.procs| && ProcOk(s, p)
    requires e.SchedRun? && s.cpus[e.c].spc == Hold(p) ==> s.procs[p].lock == Some(e.c)
    ensures var t := Apply(s, e);
            p < |t.procs| && (t.procs[p].state != s.procs[p].state ==> Moves(s, e, t, p))
  {
    hide ApplyProc, ProcReady, Interrupted, Returned;
    if e.Interrupt? { assert Interrupted(s, e.c).procs[p].state == s.procs[p].state by { TrapsKeepStates(s, e, p); } }
    if e.Return? { TrapsKeepStates(s, e, p); }
  }

  lemma TrapsKeepStates(s: State, e: Event, p: nat)
    requires Enabled(s, e) && (e.Interrupt? || e.Return?) && p < |s.procs|
    ensures p < |Apply(s, e).procs| && Apply(s, e).procs[p].state == s.procs[p].state
  {}

  /** A sleeper on chan is not disturbed by anything else: while no wakeup of chan is under way or begins and nobody
      kills it, it stays asleep on chan, whatever the other cpus do. */
  lemma {:induction false} SleepsOn(ss: seq<State>, es: seq<Event>, a: nat, b: nat, p: nat, chan: nat)
    requires Run(ss, es) && a <= b < |ss| && p < |ss[a].procs|
    requires ss[a].procs[p].state == Sleeping && ss[a].procs[p].chan == Some(chan) && Quiet(ss[a], chan)
    requires forall k :: a <= k < b ==> !Kills(es[k], p) && !(es[k].WakeBegin? && es[k].chan == chan)
    ensures p < |ss[b].procs| && ss[b].procs[p].state == Sleeping && ss[b].procs[p].chan == Some(chan)
    ensures Quiet(ss[b], chan)
    decreases b
  {
    if a < b {
      SleepsOn(ss, es, a, b - 1, p, chan);
      assert StepAt(ss, es, b - 1);
      StateMoves(ss, es, b - 1, p);
      RunInv(ss, es, b - 1);
      assert ProcOk(ss[b - 1], p);
      hide Inv, Run, ProcOk, Apply, Enabled, StateFits, ChanFits;
      QuietStep(ss[b - 1], es[b - 1], chan);
      AsleepStep(ss[b - 1], es[b - 1], p);
    }
  }

  /** No wakeup of chan is under way. */
  ghost predicate Quiet(s: State, chan: nat) {
    forall c :: 0 <= c < |s.cpus| && s.cpus[c].waker.Some? ==> s.cpus[c].waker.value.chan != chan
  }

  lemma QuietStep(s: State, e: Event, chan: nat)
    requires Enabled(s, e) && Quiet(s, chan) && !(e.WakeBegin? && e.chan == chan)
    ensures Quiet(Apply(s, e), chan)
  {
    if e.ProcStep? { hide Interrupted, Returned; } else { hide ApplyProc, ProcReady; }
  }

  /** A process keeps its channel while it sleeps. */
  lemma AsleepStep(s: State, e: Event, p: nat)
    requires Enabled(s, e) && p < |s.procs| && ProcOk(s, p) && s.procs[p].state == Sleeping
    ensures p < |Apply(s, e).procs| && Apply(s, e).procs[p].chan == s.procs[p].chan
  {
  }

  /** Holding lk excludes a sleeper that has not released it yet. */
  lemma CommittedUnderLock(s: State, c: nat, chan: nat, lk: nat, p: nat)
    requires Inv(s) && c < |s.cpus| && lk in s.cpus[c].conds && OpenCpu(s, c)
    requires p < |s.procs| && InSleepCall(s.procs[p], chan, lk)
    ensures Committed(s.procs[p], chan)
  {
    assert ProcOk(s, p);
    if s.procs[p].host.Some? {
      var d := s.procs[p].host.value;
      assert CpuOk(s, d) && CpuOk(s, c);
      assert d < c ==> s.cpus[d].conds !! s.cpus[c].conds;
      assert c < d ==> s.cpus[c].conds !! s.cpus[d].conds;
    }
  }

  // ---------------------------------------------------------------- a run in which it matters

  function RaceEvent(k: nat): Event
    requires k < 18
  {
    [SchedAcquire(0), SchedRun(0), ProcStep(0), ProcStep(0), AcquireCond(0, 5), CallSleep(0, 9, 5), ProcStep(0),
     ProcStep(0), Interrupt(1), AcquireCond(1, 5), WakeBegin(1, 9), ProcStep(0), ProcStep(0), SchedClear(0),
     SchedRelease(0), WakeAcquire(1), WakeCheck(1), WakeEnd(1)][k]
  }

  /** The process after k steps. */
  function RaceProc(k: nat): Proc {
    var x := Proc(Runnable, None, None, Parked(InFork), false, None, 0, false, false);
    var running := x.(state := Running, host := Some(0));
    var sleeping := running.(before := true, chan := Some(9), state := Sleeping, episode := 1);
    var parked := sleeping.(pc := Parked(InSleep(9, 5)), saved := true, host := None);
    if k == 0 then x
    else if k == 1 then x.(lock := Some(0))
    else if k == 2 then running.(lock := Some(0), pc := Landed(InFork))
    else if k == 3 then running.(lock := Some(0), pc := Resumed(InFork))
    else if k <= 5 then running.(pc := Normal)
    else if k == 6 then running.(before := true, pc := SleepAcq(9, 5))
    else if k == 7 then running.(before := true, lock := Some(0), pc := SleepRel(9, 5))
    else if k <= 11 then running.(before := true, lock := Some(0), pc := SleepSet(9, 5), episode := 1)
    else if k == 12 then sleeping.(lock := Some(0), pc := Switch(InSleep(9, 5)))
    else if k <= 14 then parked.(lock := Some(0))
    else if k == 15 then parked
    else if k == 16 then parked.(lock := Some(1))
    else parked.(state := Runnable, woken := true)
  }

  /** The cpu that runs the process. */
  function RaceCpu(k: nat): Cpu {
    var u := Cpu(None, 0, false, true, Scan(0), {}, None);
    var on := u.(proc := Some(0), prev := true, spc := Away(0));
    if k == 0 then u
    else if k == 1 then u.(depth := 1, prev := true, intr := false, spc := Hold(0))
    else if k <= 3 then on.(depth := 1, intr := false)
    else if k == 4 then on
    else if k <= 6 then on.(depth := 1, intr := false, conds := {5})
    else if k == 7 then on.(depth := 2, intr := false, conds := {5})
    else if k <= 12 then on.(depth := 1, intr := false)
    else if k == 13 then on.(depth := 1, intr := false, spc := Back(0))
    else if k == 14 then on.(depth := 1, intr := false, spc := Drop(0), proc := None)
    else u.(prev := true)
  }

  /** The cpu that wakes it, from a handler entered in its scheduler loop. */
  function RaceWaker(k: nat): Cpu {
    var u := Cpu(None, 0, false, true, Scan(0), {}, None);
    var irq := u.(intr := false, spc := Irq(0, true));
    var held := irq.(depth := 1, conds := {5});
    var w := Wakeup(9, 0, false, map[0 := 1]);
    if k <= 8 then u
    else if k == 9 then irq
    else if k == 10 then held
    else if k <= 15 then held.(waker := Some(w))
    else if k == 16 then held.(depth := 2, waker := Some(w.(hold := true)))
    else if k == 17 then held.(waker := Some(w.(next := 1)))
    else held
  }

  function RaceState(k: nat): State {
    State([RaceProc(k)], [RaceCpu(k), RaceWaker(k)])
  }

  ghost predicate RaceStep(k: nat) {
    k < 18 ==> Enabled(RaceState(k), RaceEvent(k)) && Apply(RaceState(k), RaceEvent(k)) == RaceState(k + 1)
  }

  lemma RaceSteps(k: nat)
    ensures RaceStep(k)
  {
    if k < 4 { RaceStarts(k); }
    else if k < 7 { RaceSleeps(k); }
    else if k < 8 { RaceReleases(k); }
    else if k < 10 { RaceTraps(k); }
    else if k < 13 { RaceSwitches(k); }
    else if k < 15 { RaceParks(k); }
    else { RaceWakes(k); }
  }

  lemma RaceStarts(k: nat)
    requires k < 4
    ensures RaceStep(k)
  {}

  lemma RaceSleeps(k: nat)
    requires 4 <= k < 7
    ensures RaceStep(k)
  {
    var none: set<nat> := {};
    assert none + {5} == {5} && {5} - {5} == none;
    var t := Apply(RaceState(k), RaceEvent(k));
    assert t.procs == RaceState(k + 1).procs;
    assert t.cpus[0] == RaceCpu(k + 1) && t.cpus[1] == RaceWaker(k + 1);
  }

  lemma RaceReleases(k: nat)
    requires 7 <= k < 8
    ensures RaceStep(k)
  {
    var none: set<nat> := {};
    assert none + {5} == {5} && {5} - {5} == none;
    var t := Apply(RaceState(k), RaceEvent(k));
    assert t.procs == RaceState(k + 1).procs;
    assert t.cpus[0] == RaceCpu(k + 1) && t.cpus[1] == RaceWaker(k + 1);
  }

  lemma RaceTraps(k: nat)
    requires 8 <= k < 10
    ensures RaceStep(k)
  {
    var none: set<nat> := {};
    assert none + {5} == {5} && {5} - {5} == none;
    var t := Apply(RaceState(k), RaceEvent(k));
    assert t.procs == RaceState(k + 1).procs;
    assert t.cpus[0] == RaceCpu(k + 1) && t.cpus[1] == RaceWaker(k + 1);
  }

  lemma RaceSwitches(k: nat)
    requires 10 <= k < 13
    ensures RaceStep(k)
  {
    assert Pending(RaceState(10), 9) == map[0 := 1];
  }

  lemma RaceParks(k: nat)
    requires 13 <= k < 15
    ensures RaceStep(k)
  {}

  lemma RaceWakes(k: nat)
    requires 15 <= k
    ensures RaceStep(k)
  {}

  /** A wakeup that begins between a sleeper's release of its condition lock and its becoming SLEEPING: the premises of
      NoLostWakeup are met by a run from boot with one process and two cpus. */
  lemma RaceReachable() returns (ss: seq<State>, es: seq<Event>)
    ensures Run(ss, es) && |es| == 18 && es[10] == WakeBegin(1, 9) && es[17] == WakeEnd(1)
    ensures forall k :: 10 < k < 17 ==> es[k] != WakeEnd(1)
    ensures ss[10] == RaceState(10) && ss[17] == RaceState(17)
    ensures 5 in RaceWaker(10).conds && InSleepCall(RaceProc(10), 9, 5) && RaceProc(10).state == Running &&
            RaceProc(17).woken
  {
    ss := seq(19, k requires 0 <= k < 19 => RaceState(k));
    es := seq(18, k requires 0 <= k < 18 => RaceEvent(k));
    forall k | 0 <= k < 18 ensures StepAt(ss, es, k) {
      RaceSteps(k);
    }
  }

  // ---------------------------------------------------------------- a run in which the saved interrupt state matters

  /** One cpu, two processes. The first yields from timer traps in user mode, where interrupts are off; the second
      sleeps in a system call, where they are on; the first one's second trap wakes it. */
  function MixEvent(k: nat): Event
    requires k < 52
  {
    var landing := [SchedAcquire(0), SchedRun(0), ProcStep(0), ProcStep(0)];
    var trap := [Return(0), Interrupt(0)];
    var yielding := [CallYield(0), ProcStep(0), ProcStep(0), ProcStep(0), SchedClear(0), SchedRelease(0)];
    var sleeping := [SysEnter(0), AcquireCond(0, 5), CallSleep(0, 9, 5), ProcStep(0), ProcStep(0), ProcStep(0),
        ProcStep(0),
                     SchedClear(0), SchedRelease(0)];
    var waking := [AcquireCond(0, 5), WakeBegin(0, 9), WakeSelf(0), WakeAcquire(0), WakeCheck(0), WakeEnd(0),
        ReleaseCond(0, 5)];
    if k < 4 then landing[k] else if k < 5 then SysLeave(0) else if k < 7 then trap[k - 5]
    else if k < 13 then yielding[k - 7]
    else if k < 17 then landing[k - 13] else if k < 18 then SysLeave(0) else if k < 20 then trap[k - 18]
    else if k < 29 then sleeping[k - 20]
    else if k < 33 then landing[k - 29] else if k < 35 then trap[k - 33]
    else if k < 42 then waking[k - 35]
    else if k < 48 then yielding[k - 42]
    else landing[k - 48]
  }

  function MixYielder(k: nat): Proc {
    var x := Proc(Runnable, None, None, Parked(InFork), false, None, 0, false, false);
    var on := x.(state := Running, host := Some(0));
    var locked := on.(lock := Some(0));
    if k == 0 then x
    else if k == 1 then x.(lock := Some(0))
    else if k == 2 then locked.(pc := Landed(InFork))
    else if k == 3 then locked.(pc := Resumed(InFork))
    else if k == 4 then on.(pc := Normal)
    else if k == 5 || k == 7 || k == 33 || 35 <= k <= 42 then on.(pc := Utrap)
    else if k == 6 || k == 34 then on.(pc := User)
    else if k == 8 || k == 43 then on.(pc := YieldAcq(Utrap))
    else if k == 9 || k == 44 then locked.(pc := YieldSet(Utrap))
    else if k == 10 || k == 45 then locked.(pc := Switch(InYield(Utrap)), state := Runnable)
    else if k == 11 || k == 12 || k == 30 || k == 46 || k == 47 then x.(lock := Some(0), pc := Parked(InYield(Utrap)))
    else if k == 31 then locked.(pc := Landed(InYield(Utrap)))
    else if k == 32 then locked.(pc := Resumed(InYield(Utrap)))
    else x.(pc := Parked(InYield(Utrap)))
  }

  function MixSleeper(k: nat): Proc {
    var x := Proc(Runnable, None, None, Parked(InFork), false, None, 0, false, false);
    var on := x.(state := Running, host := Some(0));
    var locked := on.(lock := Some(0));
    var asleep := Proc(Sleeping, Some(9), None, Parked(InSleep(9, 5)), true, None, 1, false, true);
    var awake := asleep.(state := Runnable, woken := true);
    var back := awake.(state := Running, host := Some(0), lock := Some(0));
    if k <= 13 then x
    else if k == 14 then x.(lock := Some(0))
    else if k == 15 then locked.(pc := Landed(InFork))
    else if k == 16 then locked.(pc := Resumed(InFork))
    else if k == 17 || k == 21 || k == 22 then on.(pc := Normal)
    else if k == 18 || k == 20 then on.(pc := Utrap)
    else if k == 19 then on.(pc := User)
    else if k == 23 then on.(pc := SleepAcq(9, 5), before := true)
    else if k == 24 then locked.(pc := SleepRel(9, 5), before := true)
    else if k == 25 then locked.(pc := SleepSet(9, 5), before := true, episode := 1)
    else if k == 26 then locked.(pc := Switch(InSleep(9, 5)), before := true, episode := 1, state := Sleeping,
                         chan := Some(9))
    else if k <= 28 then asleep.(lock := Some(0))
    else if k <= 38 then asleep
    else if k == 39 then asleep.(lock := Some(0))
    else if k <= 48 then awake
    else if k == 49 then awake.(lock := Some(0))
    else if k == 50 then back.(pc := Landed(InSleep(9, 5)))
    else if k == 51 then back.(pc := Resumed(InSleep(9, 5)))
    else back.(pc := SleepReacq(5), chan := None, lock := None)
  }

  /** The cpu between processes, or with its scheduler holding a process lock. */
  function MixSched(k: nat): Cpu {
    var u := Cpu(None, 0, false, true, Scan(0), {}, None);
    var held := u.(depth := 1, intr := false);
    if k == 0 then u
    else if k == 1 || k == 30 then held.(spc := Hold(0), prev := true)
    else if k == 11 || k == 46 then held.(spc := Back(0), proc := Some(0))
    else if k == 12 || k == 47 then held.(spc := Drop(0))
    else if k == 13 || k == 48 then u.(spc := Scan(1), intr := false)
    else if k == 14 || k == 49 then held.(spc := Hold(1))
    else if k == 27 then held.(spc := Back(1), proc := Some(1), prev := true)
    else if k == 28 then held.(spc := Drop(1), prev := true)
    else u.(prev := true)
  }

  /** The cpu with a process on it. */
  function MixCpu(k: nat): Cpu {
    var u := Cpu(Some(0), 0, false, false, Away(0), {}, None);
    var v := u.(proc := Some(1), spc := Away(1));
    var w := Wakeup(9, 0, false, map[1 := 1]);
    if k == 2 || k == 3 || k == 31 then u.(depth := 1, prev := true)
    else if k == 4 || k == 6 then u.(prev := true, intr := true)
    else if k == 5 || k == 7 || k == 8 then u.(prev := true)
    else if k == 9 || k == 10 || k == 32 || k == 44 || k == 45 then u.(depth := 1)
    else if k == 15 || k == 16 || k == 50 then v.(depth := 1)
    else if k == 17 || k == 18 || k == 20 then v
    else if k == 19 || k == 21 then v.(intr := true)
    else if k == 22 || k == 23 then v.(depth := 1, prev := true, conds := {5})
    else if k == 24 then v.(depth := 2, prev := true, conds := {5})
    else if k == 25 || k == 26 || k == 51 then v.(depth := 1, prev := true)
    else if k == 33 || k == 35 || k == 42 || k == 43 then u
    else if k == 34 then u.(intr := true)
    else if k == 36 || k == 41 then u.(depth := 1, conds := {5})
    else if k == 37 then u.(depth := 1, conds := {5}, waker := Some(w))
    else if k == 38 then u.(depth := 1, conds := {5}, waker := Some(w.(next := 1)))
    else if k == 39 then u.(depth := 2, conds := {5}, waker := Some(w.(next := 1, hold := true)))
    else if k == 40 then u.(depth := 1, conds := {5}, waker := Some(w.(next := 2)))
    else if k == 52 then v.(prev := true, intr := true)
    else MixSched(k)
  }

  function MixState(k: nat): State {
    State([MixYielder(k), MixSleeper(k)], [MixCpu(k)])
  }

  ghost predicate MixStep(k: nat) {
    k < 52 ==> Enabled(MixState(k), MixEvent(k)) && Apply(MixState(k), MixEvent(k)) == MixState(k + 1)
  }

  lemma MixLeg0(k: nat)
    requires 0 <= k < 2
    ensures MixStep(k)
  {
    hide ApplyProc, ProcReady, Interrupted, Returned, CondFree, Pending;
  }

  lemma MixLeg2(k: nat)
    requires 2 <= k < 4
    ensures MixStep(k)
  {
    hide Interrupted, Returned, Pending;
  }

  lemma MixLeg4(k: nat)
    requires 4 <= k < 7
    ensures MixStep(k)
  {
    hide ApplyProc, ProcReady, CondFree, Pending;
  }

  lemma MixLeg7(k: nat)
    requires 7 <= k < 8
    ensures MixStep(k)
  {
    hide ApplyProc, ProcReady, CondFree, Pending;
  }

  lemma MixLeg8(k: nat)
    requires 8 <= k < 11
    ensures MixStep(k)
  {
    hide Interrupted, Returned, Pending;
  }

  lemma MixLeg11(k: nat)
    requires 11 <= k < 13
    ensures MixStep(k)
  {
    hide ApplyProc, ProcReady, Interrupted, Returned, CondFree, Pending;
  }

  lemma MixLeg13(k: nat)
    requires 13 <= k < 15
    ensures MixStep(k)
  {
    hide ApplyProc, ProcReady, Interrupted, Returned, CondFree, Pending;
  }

  lemma MixLeg15(k: nat)
    requires 15 <= k < 17
    ensures MixStep(k)
  {
    hide Interrupted, Returned, Pending;
  }

  lemma MixLeg17(k: nat)
    requires 17 <= k < 21
    ensures MixStep(k)
  {
    hide ApplyProc, ProcReady, CondFree, Pending;
  }

  lemma MixLeg21(k: nat)
    requires 21 <= k < 23
    ensures MixStep(k)
  {
    hide ApplyProc, ProcReady, Interrupted, Returned;
    var none: set<nat> := {};
    assert none + {5} == {5} && {5} - {5} == none;
  }

  lemma MixLeg23(k: nat)
    requires 23 <= k < 25
    ensures MixStep(k)
  {
    hide Interrupted, Returned, Pending;
    var none: set<nat> := {};
    assert none + {5} == {5} && {5} - {5} == none;
  }

  lemma MixLeg25(k: nat)
    requires 25 <= k < 27
    ensures MixStep(k)
  {
    hide Interrupted, Returned, Pending;
  }

  lemma MixLeg27(k: nat)
    requires 27 <= k < 29
    ensures MixStep(k)
  {
    hide ApplyProc, ProcReady, Interrupted, Returned, CondFree, Pending;
  }

  lemma MixLeg29(k: nat)
    requires 29 <= k < 31
    ensures MixStep(k)
  {
    hide ApplyProc, ProcReady, Interrupted, Returned, CondFree, Pending;
  }

  lemma MixLeg31(k: nat)
    requires 31 <= k < 33
    ensures MixStep(k)
  {
    hide Interrupted, Returned, Pending;
  }

  lemma MixLeg33(k: nat)
    requires 33 <= k < 35
    ensures MixStep(k)
  {
    hide ApplyProc, ProcReady, CondFree, Pending;
  }

  lemma MixLeg35(k: nat)
    requires 35 <= k < 36
    ensures MixStep(k)
  {
    hide ApplyProc, ProcReady, Interrupted, Returned;
    var none: set<nat> := {};
    assert none + {5} == {5} && {5} - {5} == none;
    hide Pending;
  }

  lemma MixLeg36(k: nat)
    requires 36 <= k < 37
    ensures MixStep(k)
  {
    assert Pending(MixState(36), 9) == map[1 := 1];
    hide ApplyProc, ProcReady, Interrupted, Returned;
  }

  lemma MixLeg37(k: nat)
    requires 37 <= k < 40
    ensures MixStep(k)
  {
    hide ApplyProc, ProcReady, Interrupted, Returned;
  }

  lemma MixLeg40(k: nat)
    requires 40 <= k < 42
    ensures MixStep(k)
  {
    hide ApplyProc, ProcReady, Interrupted, Returned;
    var none: set<nat> := {};
    assert none + {5} == {5} && {5} - {5} == none;
  }

  lemma MixLeg42(k: nat)
    requires 42 <= k < 43
    ensures MixStep(k)
  {
    hide ApplyProc, ProcReady, CondFree, Pending;
  }

  lemma MixLeg43(k: nat)
    requires 43 <= k < 46
    ensures MixStep(k)
  {
    hide Interrupted, Returned, Pending;
  }

  lemma MixLeg46(k: nat)
    requires 46 <= k < 48
    ensures MixStep(k)
  {
    hide ApplyProc, ProcReady, Interrupted, Returned, CondFree, Pending;
  }

  lemma MixLeg48(k: nat)
    requires 48 <= k < 50
    ensures MixStep(k)
  {
    hide ApplyProc, ProcReady, Interrupted, Returned, CondFree, Pending;
  }

  lemma MixLeg50(k: nat)
    requires 50 <= k < 52
    ensures MixStep(k)
  {
    hide Interrupted, Returned, Pending;
  }

  lemma MixSteps(k: nat)
    ensures MixStep(k)
  {
    if k < 23 { MixFirst(k); } else { MixSecond(k); }
  }

  lemma MixFirst(k: nat)
    requires k < 23
    ensures MixStep(k)
  {
    hide MixStep;
    if k < 2 { MixLeg0(k); }
    else if k < 4 { MixLeg2(k); }
    else if k < 7 { MixLeg4(k); }
    else if k < 8 { MixLeg7(k); }
    else if k < 11 { MixLeg8(k); }
    else if k < 13 { MixLeg11(k); }
    else if k < 15 { MixLeg13(k); }
    else if k < 17 { MixLeg15(k); }
    else if k < 21 { MixLeg17(k); }
    else if k < 23 { MixLeg21(k); }
  }

  lemma MixSecond(k: nat)
    requires 23 <= k
    ensures MixStep(k)
  {
    if k >= 52 { return; }
    hide MixStep;
    if k < 25 { MixLeg23(k); }
    else if k < 27 { MixLeg25(k); }
    else if k < 29 { MixLeg27(k); }
    else if k < 31 { MixLeg29(k); }
    else if k < 33 { MixLeg31(k); }
    else if k < 35 { MixLeg33(k); }
    else if k < 36 { MixLeg35(k); }
    else if k < 37 { MixLeg36(k); }
    else if k < 40 { MixLeg37(k); }
    else if k < 42 { MixLeg40(k); }
    else if k < 43 { MixLeg42(k); }
    else if k < 46 { MixLeg43(k); }
    else if k < 48 { MixLeg46(k); }
    else if k < 50 { MixLeg48(k); }
    else if k < 52 { MixLeg50(k); }
  }

  /** The saved interrupt state changes the cpu's in both directions: the yielder lands where it is on and needs it
      off, the sleeper lands where the yielder left it off and needs it on. */
  lemma MixReachable() returns (ss: seq<State>, es: seq<Event>)
    ensures Run(ss, es) && |es| == 52 && forall k :: 0 <= k <= 52 ==> |ss[k].procs| == 2 && |ss[k].cpus| == 1
    ensures ss[31].procs[0].pc == Landed(InYield(Utrap)) && ss[31].cpus[0].spc == Away(0) && es[31] == ProcStep(0)
    ensures !ss[31].procs[0].before && ss[31].cpus[0].prev && !ss[32].cpus[0].prev && !ss[33].cpus[0].intr
    ensures ss[50].procs[1].pc == Landed(InSleep(9, 5)) && ss[50].cpus[0].spc == Away(1) && es[50] == ProcStep(0)
    ensures ss[50].procs[1].before && !ss[50].cpus[0].prev && ss[51].cpus[0].prev && ss[52].cpus[0].intr
  {
    ss := seq(53, k requires 0 <= k < 53 => MixState(k));
    es := seq(52, k requires 0 <= k < 52 => MixEvent(k));
    forall k | 0 <= k < 52 ensures StepAt(ss, es, k) {
      MixSteps(k);
    }
    hide MixStep, Apply, Enabled;
  }
}
