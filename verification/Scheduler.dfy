/** sleep, wakeup, kill, yield_process, exit's last part, forkret, scheduler and cpu_scheduler of src/kernel/process.c
    over the spinlocks of src/kernel/locks.c and the traps of src/kernel/trap.c, as a transition system.

    Every step is one access to shared state by one cpu; a run interleaves the steps of all cpus in any order. A process
    kernel thread and a cpu's scheduler thread each have a program counter. Interrupts come wherever the cpu has them
    enabled: in user mode, in a system call, inside sleep before its lock is taken back, and in the scheduler loop.
    A wakeup is a scan that runs in a system call or in a handler. */
module Scheduler {
  import opened Common

  datatype RunState = Unused | Sleeping | Runnable | Running | Zombie

  /** Where a process left off when it transferred to the scheduler. */
  datatype Ret = InSleep(chan: nat, lk: nat) | InYield(next: Pc) | InExit | InFork

  datatype Pc =
    | User                          // user mode
    | Utrap                         // utrap and utrapret, interrupts off
    | Normal                        // a system call, exit's first part or forkret
    | Ktrap(next: Pc, spie: bool, outer: bool)  // ktrap, entered at next; the interrupt flag and `before` from there
    | SleepAcq(chan: nat, lk: nat)  // sleep: about to acquire the process lock; lk is held
    | SleepRel(chan: nat, lk: nat)  // process lock held; about to release lk
    | SleepSet(chan: nat, lk: nat)  // lk released; about to record the channel and SLEEPING
    | YieldAcq(next: Pc) | YieldSet(next: Pc)   // yield_process, called by the handler next
    | ExitAcq(lk: nat) | ExitSet(lk: nat) | ExitRel(lk: nat)
    | Switch(ret: Ret)              // in scheduler(), about to transfer
    | Parked(ret: Ret)              // transferred out
    | Landed(ret: Ret)              // transferred back; saved interrupt state not yet restored
    | Resumed(ret: Ret)             // about to release the process lock
    | SleepReacq(lk: nat)           // process lock released; about to acquire lk again

  datatype Proc = Proc(
    state: RunState,
    chan: Option<nat>,       // sleep_channel
    lock: Option<nat>,       // the cpu holding the process lock
    pc: Pc,
    saved: bool,             // scheduler()'s local copy of intr_prev_state
    host: Option<nat>,       // the cpu executing the process
    episode: nat,            // sleeps whose condition lock has been released so far
    woken: bool,             // made RUNNABLE since then
    before: bool)            // interrupts enabled when sleep or yield was entered, but for the locks its caller held

  /** Irq: ktrap, entered in the scheduler loop. */
  datatype SchedPc = Scan(i: nat) | Irq(i: nat, spie: bool) | Hold(i: nat) | Away(i: nat) | Back(i: nat) | Drop(i: nat)

  /** wakeup(chan) about to look at, or holding the lock of, process `next`. pend: the sleepers it found past the
      release of their condition lock when it began, with their episode. */
  datatype Wakeup = Wakeup(chan: nat, next: nat, hold: bool, pend: map<nat, nat>)

  datatype Cpu = Cpu(
    proc: Option<nat>,       // cpu->proc
    depth: int,              // depth_lock_intr_disable
    prev: bool,              // intr_prev_state
    intr: bool,              // interrupts enabled
    spc: SchedPc,
    conds: set<nat>,         // other spinlocks this cpu holds
    waker: Option<Wakeup>)

  datatype State = State(procs: seq<Proc>, cpus: seq<Cpu>)

  // ---------------------------------------------------------------- lock bookkeeping

  /** lock_intr_disable and lock_intr_enable, as acquire_lock and release_lock call them. */
  function Push(c: Cpu): Cpu {
    c.(depth := c.depth + 1, prev := if c.depth == 0 then c.intr else c.prev, intr := false)
  }

  function Pop(c: Cpu): Cpu {
    c.(depth := c.depth - 1, intr := c.depth == 1 && c.prev)
  }

  predicate OwnLocked(pc: Pc) {
    pc.SleepRel? || pc.SleepSet? || pc.YieldSet? || pc.ExitSet? || pc.ExitRel? || pc.Switch? || pc.Landed? ||
        pc.Resumed?
  }

  /** Program points of a process at which it may take other spinlocks and call wakeup. */
  predicate Open(pc: Pc) {
    pc.Normal? || Handler(pc)
  }

  predicate Handler(pc: Pc) {
    pc.Utrap? || pc.Ktrap?
  }

  function WithProc(s: State, p: nat, x: Proc): State
    requires p < |s.procs|
  {
    s.(procs := s.procs[p := x])
  }

  function WithCpu(s: State, c: nat, x: Cpu): State
    requires c < |s.cpus|
  {
    s.(cpus := s.cpus[c := x])
  }

  function With(s: State, p: nat, x: Proc, c: nat, y: Cpu): State
    requires p < |s.procs| && c < |s.cpus|
  {
    State(s.procs[p := x], s.cpus[c := y])
  }

  // ---------------------------------------------------------------- steps

  datatype Event =
    | AcquireCond(c: nat, l: nat) | ReleaseCond(c: nat, l: nat)
    | CallSleep(c: nat, chan: nat, lk: nat) | CallYield(c: nat) | CallExit(c: nat, lk: nat)
    | ProcStep(c: nat)               // the process on c takes its next step
    | SchedAcquire(c: nat) | SchedPass(c: nat) | SchedRun(c: nat) | SchedClear(c: nat) | SchedRelease(c: nat)
    | WakeBegin(c: nat, chan: nat) | WakeAcquire(c: nat) | WakeSelf(c: nat) | WakeCheck(c: nat) | WakeEnd(c: nat)
    | Kill(c: nat, p: nat)
    | Interrupt(c: nat) | Return(c: nat)                // a trap to utrap or ktrap, and its sret
    | SysEnter(c: nat) | SysLeave(c: nat)               // utrap's enable_intr, utrapret's disable_intr
    | Doomed(c: nat)                                    // utrap calls exit for a killed process

  /** The cpu executes process p's thread, not a wakeup on top of it. */
  predicate Executes(s: State, c: nat, p: nat) {
    c < |s.cpus| && p < |s.procs| && s.cpus[c].spc == Away(p) && s.cpus[c].waker.None?
  }

  /** The cpu is in its scheduler loop, between processes, not in an interrupt handler. */
  predicate Idle(s: State, c: nat) {
    c < |s.cpus| && s.cpus[c].waker.None? && !s.cpus[c].spc.Away?
  }

  /** The code running on c may take or drop other spinlocks and call wakeup. */
  predicate OpenCpu(s: State, c: nat) {
    && c < |s.cpus|
    && match s.cpus[c].spc
       case Irq(_, _) => true
       case Away(p) => p < |s.procs| && Open(s.procs[p].pc)
       case _ => false
  }

  /** The process on c is at a program point pc. */
  predicate At(s: State, c: nat, pc: Pc) {
    c < |s.cpus| && s.cpus[c].spc.Away? && Executes(s, c, s.cpus[c].spc.i) && s.procs[s.cpus[c].spc.i].pc == pc
  }

  predicate CondFree(s: State, l: nat) {
    forall c :: 0 <= c < |s.cpus| ==> l !in s.cpus[c].conds
  }

  /** Sleepers on chan past the release of their condition lock and not yet woken. */
  predicate Committed(x: Proc, chan: nat) {
    && !x.woken
    && match x.pc
       case SleepSet(ch, _) => ch == chan
       case Switch(InSleep(ch, _)) => ch == chan
       case Parked(InSleep(ch, _)) => ch == chan
       case _ => false
  }

  function Pending(s: State, chan: nat): map<nat, nat> {
    map p | 0 <= p < |s.procs| && Committed(s.procs[p], chan) :: s.procs[p].episode
  }

  predicate Enabled(s: State, e: Event) {
    match e
    case AcquireCond(c, l) => OpenCpu(s, c) && s.cpus[c].waker.None? && CondFree(s, l)
    case ReleaseCond(c, l) => OpenCpu(s, c) && s.cpus[c].waker.None? && l in s.cpus[c].conds
    case CallSleep(c, chan, lk) => At(s, c, Normal) && lk in s.cpus[c].conds
    case CallYield(c) => InHandler(s, c)
    case CallExit(c, lk) => At(s, c, Normal) && lk in s.cpus[c].conds
    case ProcStep(c) =>
      c < |s.cpus| && s.cpus[c].spc.Away? && Executes(s, c, s.cpus[c].spc.i) && ProcReady(s, c, s.cpus[c].spc.i)
    case SchedAcquire(c) =>
      Idle(s, c) && s.cpus[c].spc.Scan? && s.cpus[c].conds == {} &&
      s.cpus[c].spc.i < |s.procs| && s.procs[s.cpus[c].spc.i].lock.None?
    case SchedPass(c) => Idle(s, c) && s.cpus[c].spc.Hold? && s.cpus[c].spc.i < |s.procs| &&
        s.procs[s.cpus[c].spc.i].state != Runnable
    case SchedRun(c) =>
      Idle(s, c) && s.cpus[c].spc.Hold? && s.cpus[c].spc.i < |s.procs| && s.procs[s.cpus[c].spc.i].state == Runnable &&
      s.procs[s.cpus[c].spc.i].pc.Parked?
    case SchedClear(c) => Idle(s, c) && s.cpus[c].spc.Back?
    case SchedRelease(c) => Idle(s, c) && s.cpus[c].spc.Drop? && s.cpus[c].spc.i < |s.procs|
    case WakeBegin(c, chan) => OpenCpu(s, c) && s.cpus[c].waker.None?
    case WakeAcquire(c) =>
      c < |s.cpus| && s.cpus[c].waker.Some? && !s.cpus[c].waker.value.hold && s.cpus[c].waker.value.next < |s.procs| &&
      s.cpus[c].proc != Some(s.cpus[c].waker.value.next) && s.procs[s.cpus[c].waker.value.next].lock.None?
    case WakeSelf(c) =>
      c < |s.cpus| && s.cpus[c].waker.Some? && !s.cpus[c].waker.value.hold && s.cpus[c].waker.value.next < |s.procs| &&
      s.cpus[c].proc == Some(s.cpus[c].waker.value.next)
    case WakeCheck(c) =>
      c < |s.cpus| && s.cpus[c].waker.Some? && s.cpus[c].waker.value.hold && s.cpus[c].waker.value.next < |s.procs|
    case WakeEnd(c) =>
      c < |s.cpus| && s.cpus[c].waker.Some? && !s.cpus[c].waker.value.hold && s.cpus[c].waker.value.next >= |s.procs|
    case Kill(c, p) => OpenCpu(s, c) && s.cpus[c].waker.None? && p < |s.procs| && s.procs[p].lock.None?
    case Interrupt(c) => Interruptible(s, c)
    case Return(c) => InHandler(s, c) || (Idle(s, c) && s.cpus[c].spc.Irq? && s.cpus[c].conds == {})
    case SysEnter(c) => At(s, c, Utrap) && s.cpus[c].conds == {}
    case SysLeave(c) => At(s, c, Normal) && s.cpus[c].conds == {}
    case Doomed(c) => At(s, c, Utrap) && s.cpus[c].conds == {}
  }

  /** The process on c runs a trap handler that holds no spinlock. */
  predicate InHandler(s: State, c: nat) {
    && c < |s.cpus| && s.cpus[c].spc.Away? && Executes(s, c, s.cpus[c].spc.i)
    && Handler(s.procs[s.cpus[c].spc.i].pc) && s.cpus[c].conds == {}
  }

  /** A trap can happen: in user mode, or in kernel code with interrupts enabled. Every caller of wakeup has a lock. */
  predicate Interruptible(s: State, c: nat) {
    && c < |s.cpus| && s.cpus[c].waker.None?
    && match s.cpus[c].spc
       case Scan(_) => s.cpus[c].intr
       case Away(p) => p < |s.procs| && (s.procs[p].pc.User? || s.cpus[c].intr)
       case _ => false
  }

  /** The process's next step does not have to wait. */
  predicate ProcReady(s: State, c: nat, p: nat)
    requires c < |s.cpus| && p < |s.procs|
  {
    match s.procs[p].pc
    case User => false
    case Utrap => false
    case Normal => false
    case Ktrap(_, _, _) => false
    case SleepAcq(_, _) => s.procs[p].lock.None?
    case YieldAcq(_) => s.procs[p].lock.None?
    case ExitAcq(_) => s.procs[p].lock.None?
    case SleepReacq(lk) => CondFree(s, lk)
    case Switch(_) => s.cpus[c].depth == 1      // or scheduler() panics
    case Parked(_) => false
    case _ => true
  }

  /** A process made RUNNABLE by wakeup or kill. */
  function Roused(x: Proc): Proc {
    if x.state == Sleeping then x.(state := Runnable, woken := true) else x
  }

  function Apply(s: State, e: Event): State
    requires Enabled(s, e)
  {
    var c := e.c;
    var u := s.cpus[c];
    match e
    case AcquireCond(_, l) => WithCpu(s, c, Push(u).(conds := u.conds + {l}))
    case ReleaseCond(_, l) => WithCpu(s, c, Pop(u).(conds := u.conds - {l}))
    case CallSleep(_, chan, lk) =>
      WithProc(s, u.spc.i, s.procs[u.spc.i].(pc := SleepAcq(chan, lk), before := u.prev))
    case CallYield(_) => WithProc(s, u.spc.i, s.procs[u.spc.i].(pc := YieldAcq(s.procs[u.spc.i].pc), before := u.intr))
    case CallExit(_, lk) => WithProc(s, u.spc.i, s.procs[u.spc.i].(pc := ExitAcq(lk)))
    case ProcStep(_) => ApplyProc(s, c, u.spc.i)
    case SchedAcquire(_) =>
      With(s, u.spc.i, s.procs[u.spc.i].(lock := Some(c)), c, Push(u).(spc := Hold(u.spc.i)))
    case SchedPass(_) => WithCpu(s, c, u.(spc := Drop(u.spc.i)))
    case SchedRun(_) =>
      With(s, u.spc.i, s.procs[u.spc.i].(state := Running, pc := Landed(s.procs[u.spc.i].pc.ret), host := Some(c)),
           c, u.(spc := Away(u.spc.i), proc := Some(u.spc.i)))
    case SchedClear(_) => WithCpu(s, c, u.(spc := Drop(u.spc.i), proc := None))
    case SchedRelease(_) =>
      With(s, u.spc.i, s.procs[u.spc.i].(lock := None), c,
           NextScan(Pop(u), u.spc.i, |s.procs|))
    case WakeBegin(_, chan) => WithCpu(s, c, u.(waker := Some(Wakeup(chan, 0, false, Pending(s, chan)))))
    case WakeAcquire(_) =>
      var w := u.waker.value;
      With(s, w.next, s.procs[w.next].(lock := Some(c)), c, Push(u).(waker := Some(w.(hold := true))))
    case WakeSelf(_) => WithCpu(s, c, u.(waker := Some(u.waker.value.(next := u.waker.value.next + 1))))
    case WakeCheck(_) =>
      var w := u.waker.value;
      var x := s.procs[w.next];
      var y := if x.chan == Some(w.chan) then Roused(x) else x;
      With(s, w.next, y.(lock := None), c, Pop(u).(waker := Some(w.(hold := false, next := w.next + 1))))
    case WakeEnd(_) => WithCpu(s, c, u.(waker := None))
    case Kill(_, p) => WithProc(s, p, Roused(s.procs[p]))
    case Interrupt(_) => Interrupted(s, c)
    case Return(_) => Returned(s, c)
    case SysEnter(_) => With(s, u.spc.i, s.procs[u.spc.i].(pc := Normal), c, u.(intr := true))
    case SysLeave(_) => With(s, u.spc.i, s.procs[u.spc.i].(pc := Utrap), c, u.(intr := false))
    case Doomed(_) => WithProc(s, u.spc.i, s.procs[u.spc.i].(pc := Normal))
  }

  /** The trap clears the interrupt flag and keeps it for the return. */
  function Interrupted(s: State, c: nat): State
    requires Interruptible(s, c)
  {
    var u := s.cpus[c];
    if u.spc.Scan? then WithCpu(s, c, u.(spc := Irq(u.spc.i, u.intr), intr := false))
    else
      var x := s.procs[u.spc.i];
      With(s, u.spc.i, x.(pc := if x.pc.User? then Utrap else Ktrap(x.pc, u.intr, x.before)), c, u.(intr := false))
  }

  function Returned(s: State, c: nat): State
    requires Enabled(s, Return(c))
  {
    var u := s.cpus[c];
    if u.spc.Irq? then WithCpu(s, c, u.(spc := Scan(u.spc.i), intr := u.spc.spie))
    else
      var x := s.procs[u.spc.i];
      match x.pc
      case Ktrap(next, spie, outer) => With(s, u.spc.i, x.(pc := next, before := outer), c, u.(intr := spie))
      case _ => With(s, u.spc.i, x.(pc := User), c, u.(intr := true))
  }

  /** The scheduler loop enables interrupts whenever it starts a new round. */
  function NextScan(u: Cpu, i: nat, n: nat): Cpu {
    if i + 1 < n then u.(spc := Scan(i + 1)) else u.(spc := Scan(0), intr := true)
  }

  function ApplyProc(s: State, c: nat, p: nat): State
    requires c < |s.cpus| && p < |s.procs| && ProcReady(s, c, p)
  {
    var u, x := s.cpus[c], s.procs[p];
    match x.pc
    case SleepAcq(chan, lk) => With(s, p, x.(lock := Some(c), pc := SleepRel(chan, lk)), c, Push(u))
    case SleepRel(chan, lk) =>
      With(s, p, x.(pc := SleepSet(chan, lk), episode := x.episode + 1, woken := false), c,
          Pop(u).(conds := u.conds - {lk}))
    case SleepSet(chan, lk) => WithProc(s, p,
        x.(chan := Some(chan), state := Sleeping, pc := Switch(InSleep(chan, lk))))
    case YieldAcq(next) => With(s, p, x.(lock := Some(c), pc := YieldSet(next)), c, Push(u))
    case YieldSet(next) => WithProc(s, p, x.(state := Runnable, pc := Switch(InYield(next))))
    case ExitAcq(lk) => With(s, p, x.(lock := Some(c), pc := ExitSet(lk)), c, Push(u))
    case ExitSet(lk) => WithProc(s, p, x.(state := Zombie, pc := ExitRel(lk)))
    case ExitRel(lk) => With(s, p, x.(pc := Switch(InExit)), c, Pop(u).(conds := u.conds - {lk}))
    case Switch(ret) => With(s, p, x.(pc := Parked(ret), saved := u.prev, host := None), c, u.(spc := Back(p)))
    case Landed(ret) => With(s, p, x.(pc := Resumed(ret)), c, if ret.InFork? then u else u.(prev := x.saved))
    case Resumed(ret) =>
      With(s, p, x.(lock := None, chan := if ret.InSleep? then None else x.chan,
                    pc := match ret case InSleep(_, lk) => SleepReacq(lk) case InYield(next) => next case _ => Normal),
                        c, Pop(u))
    case SleepReacq(lk) => With(s, p, x.(pc := Normal), c, Push(u).(conds := u.conds + {lk}))
  }

  // ---------------------------------------------------------------- invariant

  /** Which cpu holds which process lock, read off the program counters. */
  predicate Holds(s: State, c: nat, p: nat)
    requires c < |s.cpus| && p < |s.procs|
  {
    var u := s.cpus[c];
    || u.spc == Hold(p) || u.spc == Back(p) || u.spc == Drop(p)
    || (u.spc == Away(p) && OwnLocked(s.procs[p].pc))
    || (u.waker.Some? && u.waker.value.hold && u.waker.value.next == p)
  }

  predicate StateFits(x: Proc) {
    match x.pc
    case Parked(InSleep(_, _)) => if x.woken then x.state == Runnable else x.state == Sleeping
    case Parked(InYield(_)) => x.state == Runnable
    case Parked(InFork) => x.state == Runnable || x.state == Unused
    case Parked(InExit) => x.state == Zombie
    case Switch(InSleep(_, _)) => x.state == Sleeping && !x.woken
    case Switch(InYield(_)) => x.state == Runnable
    case Switch(InExit) => x.state == Zombie
    case Switch(InFork) => false
    case ExitRel(_) => x.state == Zombie
    case SleepSet(_, _) => x.state == Running && !x.woken
    case Landed(ret) => x.state == Running && (ret.InSleep? ==> x.woken) && !ret.InExit?
    case Resumed(ret) => x.state == Running && (ret.InSleep? ==> x.woken) && !ret.InExit?
    case _ => x.state == Running
  }

  /** Handlers run on top of code that had interrupts enabled, and only handlers yield. */
  predicate Nested(pc: Pc) {
    match pc
    case Ktrap(next, spie, outer) => spie && (next.Normal? || (next.SleepReacq? && outer))
    case YieldAcq(next) => Handler(next) && Nested(next)
    case YieldSet(next) => Handler(next) && Nested(next)
    case Switch(InYield(next)) => Handler(next) && Nested(next)
    case Parked(InYield(next)) => Handler(next) && Nested(next)
    case Landed(InYield(next)) => Handler(next) && Nested(next)
    case Resumed(InYield(next)) => Handler(next) && Nested(next)
    case _ => true
  }

  predicate Yields(pc: Pc) {
    || pc.YieldAcq? || pc.YieldSet?
    || ((pc.Switch? || pc.Parked? || pc.Landed? || pc.Resumed?) && pc.ret.InYield?)
  }

  predicate ChanFits(x: Proc) {
    match x.pc
    case Switch(InSleep(ch, _)) => x.chan == Some(ch)
    case Parked(InSleep(ch, _)) => x.chan == Some(ch)
    case _ => true
  }

  predicate ProcOk(s: State, p: nat)
    requires p < |s.procs|
  {
    var x := s.procs[p];
    && StateFits(x) && ChanFits(x) && Nested(x.pc) && (Yields(x.pc) ==> !x.before)
    && (x.host.None? <==> x.pc.Parked?)
    && (x.host.Some? ==> x.host.value < |s.cpus| && s.cpus[x.host.value].spc == Away(p))
    && (x.pc.Parked? || x.pc.Landed? ==> x.pc.ret.InSleep? || x.pc.ret.InYield? ==> x.saved == x.before)
    && (x.lock.Some? ==> x.lock.value < |s.cpus|)
  }

  /** Interrupts as they will be once every spinlock is dropped. */
  function Unwound(u: Cpu): bool {
    if u.depth == 0 then u.intr else u.prev
  }

  /** 1 if the thread on c, not counting a wakeup on top of it, holds a process lock. */
  function ThreadLock(s: State, c: nat): nat
    requires c < |s.cpus|
  {
    match s.cpus[c].spc
    case Scan(_) => 0
    case Irq(_, _) => 0
    case Away(p) => if p < |s.procs| && OwnLocked(s.procs[p].pc) then 1 else 0
    case _ => 1
  }

  predicate ThreadOk(s: State, c: nat)
    requires c < |s.cpus|
  {
    var u := s.cpus[c];
    match u.spc
    case Scan(i) => u.proc.None? && i < |s.procs| && u.conds == {}
    case Irq(i, spie) => u.proc.None? && i < |s.procs| && spie && !Unwound(u)
    case Hold(i) => u.proc.None? && i < |s.procs| && u.conds == {}
    case Drop(i) => u.proc.None? && i < |s.procs| && u.conds == {}
    case Back(i) => u.proc == Some(i) && i < |s.procs| && s.procs[i].pc.Parked? && u.conds == {}
    case Away(p) =>
      && u.proc == Some(p) && p < |s.procs| && s.procs[p].host == Some(c)
      && match s.procs[p].pc
         case SleepAcq(_, lk) => lk in u.conds && u.prev == s.procs[p].before
         case SleepRel(_, lk) => lk in u.conds && u.prev == s.procs[p].before
         case SleepSet(_, _) => u.prev == s.procs[p].before
         case YieldSet(_) => u.conds == {} && u.prev == s.procs[p].before
         case Switch(ret) => (ret.InYield? ==> u.conds == {}) &&
             (ret.InSleep? || ret.InYield? ==> u.prev == s.procs[p].before)
         case Resumed(ret) => u.conds == {} && (ret.InSleep? || ret.InYield? ==> u.prev == s.procs[p].before)
         case Landed(_) => u.conds == {}
         case ExitAcq(lk) => lk in u.conds
         case ExitSet(lk) => lk in u.conds
         case ExitRel(lk) => lk in u.conds
         case SleepReacq(_) => u.conds == {} && u.intr == s.procs[p].before
         case YieldAcq(_) => u.conds == {} && !u.intr
         case User => u.conds == {} && u.intr
         case Utrap => !Unwound(u)
         case Ktrap(_, _, _) => !Unwound(u)
         case _ => true
  }

  predicate CpuOk(s: State, c: nat)
    requires c < |s.cpus|
  {
    var u := s.cpus[c];
    && ThreadOk(s, c)
    && (u.waker.Some? ==> OpenCpu(s, c))
    && u.depth == |u.conds| + ThreadLock(s, c) + (if u.waker.Some? && u.waker.value.hold then 1 else 0)
    && (u.depth > 0 ==> !u.intr)
  }

  /** Every pending sleeper the scan has passed is awake or in a later sleep; the others still sit in their sleep. */
  predicate WakeOk(s: State, c: nat)
    requires c < |s.cpus|
  {
    s.cpus[c].waker.Some? ==>
      var w := s.cpus[c].waker.value;
      && (w.hold ==> w.next < |s.procs| && s.cpus[c].proc != Some(w.next))
      && forall p :: p in w.pend ==> p < |s.procs| && PendOk(s.procs[p], w, p)
  }

  predicate PendOk(x: Proc, w: Wakeup, p: nat)
    requires p in w.pend
  {
    || x.episode > w.pend[p]
    || (x.episode == w.pend[p] && x.woken)
    || (x.episode == w.pend[p] && Committed(x, w.chan) && p >= w.next)
  }

  ghost predicate Inv(s: State) {
    && (forall p :: 0 <= p < |s.procs| ==> ProcOk(s, p))
    && (forall c :: 0 <= c < |s.cpus| ==> CpuOk(s, c) && WakeOk(s, c))
    && (forall c, p :: 0 <= c < |s.cpus| && 0 <= p < |s.procs| ==> (s.procs[p].lock == Some(c) <==> Holds(s, c, p)))
    && (forall c, d :: 0 <= c < d < |s.cpus| ==> s.cpus[c].conds !! s.cpus[d].conds)
  }

  /** Boot: every cpu scans; every process is unused or waits to start at forkret. */
  predicate Init(s: State) {
    && |s.procs| > 0
    && (forall p :: 0 <= p < |s.procs| ==>
          s.procs[p].pc == Parked(InFork) && s.procs[p].lock.None? && s.procs[p].host.None? &&
          (s.procs[p].state == Runnable || s.procs[p].state == Unused))
    && (forall c :: 0 <= c < |s.cpus| ==>
          s.cpus[c] == Cpu(None, 0, false, true, Scan(0), {}, None))
  }

  lemma InitInv(s: State)
    requires Init(s)
    ensures Inv(s)
  {
  }

  // ---------------------------------------------------------------- framing

  /** What a wakeup may rely on when process x becomes y: a committed sleep is left only by being woken. */
  predicate Settles(x: Proc, y: Proc) {
    || y.episode > x.episode
    || (y.episode == x.episode && (x.woken ==> y.woken) &&
        (!x.woken && SleepChan(x).Some? ==> y.woken || SleepChan(y) == SleepChan(x)))
  }

  /** The channel a process is committed to, woken or not. */
  function SleepChan(x: Proc): Option<nat> {
    match x.pc
    case SleepSet(ch, _) => Some(ch)
    case Switch(InSleep(ch, _)) => Some(ch)
    case Parked(InSleep(ch, _)) => Some(ch)
    case _ => None
  }

  lemma CommittedIs(x: Proc, ch: nat)
    ensures Committed(x, ch) <==> !x.woken && SleepChan(x) == Some(ch)
  {
  }

  /** Cpu c may move process p's program counter: it executes p, or holds the lock of parked p. */
  predicate MayMove(s: State, c: nat, p: nat)
    requires c < |s.cpus| && p < |s.procs|
  {
    s.cpus[c].spc == Away(p) || (s.procs[p].pc.Parked? && Holds(s, c, p))
  }

  predicate SamePoint(x: Proc, y: Proc) {
    y.pc == x.pc && y.host == x.host && y.before == x.before
  }

  /** A step of cpu c that changes only c and process p keeps the invariant if it does so locally. */
  lemma Frame(s: State, s': State, c: nat, p: nat)
    requires Inv(s) && c < |s.cpus| == |s'.cpus| && p < |s.procs| == |s'.procs|
    requires s' == With(s, p, s'.procs[p], c, s'.cpus[c])
    requires ProcOk(s', p) && CpuOk(s', c) && WakeOk(s', c)
    requires Settles(s.procs[p], s'.procs[p])
    requires MayMove(s, c, p) || SamePoint(s.procs[p], s'.procs[p])
    requires s'.cpus[c].spc == s.cpus[c].spc || s.cpus[c].spc == Away(p) || !s.cpus[c].spc.Away?
    requires forall q :: 0 <= q < |s.procs| && q != p ==> (Holds(s', c, q) <==> Holds(s, c, q))
    requires s'.procs[p].lock == Some(c) <==> Holds(s', c, p)
    requires s'.procs[p].lock == s.procs[p].lock || s.procs[p].lock == Some(c) ||
             (s.procs[p].lock.None? && s'.procs[p].lock == Some(c))
    requires s'.procs[p].lock == s.procs[p].lock || s'.procs[p].lock.None? || s'.procs[p].lock == Some(c)
    requires forall d :: 0 <= d < |s.cpus| && d != c ==> s'.cpus[c].conds !! s.cpus[d].conds
    ensures Inv(s')
  {
    forall q | 0 <= q < |s'.procs| ensures ProcOk(s', q) {
      assert ProcOk(s, q) && CpuOk(s, c);
    }
    forall d | 0 <= d < |s'.cpus| && d != c
      ensures CpuOk(s', d) && WakeOk(s', d) && (Holds(s', d, p) <==> Holds(s, d, p))
    {
      Bystander(s, s', c, d, p);
    }
    forall d, q | 0 <= d < |s'.cpus| && 0 <= q < |s'.procs| ensures s'.procs[q].lock == Some(d) <==> Holds(s', d, q) {
      assert s.procs[q].lock == Some(d) <==> Holds(s, d, q);
    }
  }

  /** Cpu d does not notice the step. */
  lemma Bystander(s: State, s': State, c: nat, d: nat, p: nat)
    requires Inv(s) && c < |s.cpus| == |s'.cpus| && d < |s.cpus| && d != c && p < |s.procs| == |s'.procs|
    requires s' == With(s, p, s'.procs[p], c, s'.cpus[c])
    requires Settles(s.procs[p], s'.procs[p])
    requires MayMove(s, c, p) || SamePoint(s.procs[p], s'.procs[p])
    ensures CpuOk(s', d) && WakeOk(s', d) && (Holds(s', d, p) <==> Holds(s, d, p))
  {
    assert CpuOk(s, d) && WakeOk(s, d) && CpuOk(s, c) && ProcOk(s, p);
    Exclusion(s, c, d, p);
    FrameWake(s, s', d, p);
  }

  lemma FrameWake(s: State, s': State, d: nat, p: nat)
    requires d < |s.cpus| && p < |s.procs| && d < |s'.cpus| && WakeOk(s, d) && s'.cpus[d] == s.cpus[d]
    requires |s'.procs| == |s.procs| && s'.procs == s.procs[p := s'.procs[p]] && Settles(s.procs[p], s'.procs[p])
    ensures WakeOk(s', d)
  {
    if s.cpus[d].waker.Some? {
      var w := s.cpus[d].waker.value;
      forall q | q in w.pend ensures q < |s'.procs| && PendOk(s'.procs[q], w, q) {
        assert PendOk(s.procs[q], w, q);
        CommittedIs(s.procs[q], w.chan);
        CommittedIs(s'.procs[q], w.chan);
      }
    }
  }

  /** Only one cpu can hold a process lock, and only one can execute a process. */
  lemma Exclusion(s: State, c: nat, d: nat, p: nat)
    requires Inv(s) && c < |s.cpus| && d < |s.cpus| && p < |s.procs| && c != d
    ensures !(Holds(s, c, p) && Holds(s, d, p))
    ensures !(s.cpus[c].spc == Away(p) && s.cpus[d].spc == Away(p))
    ensures s.procs[p].lock.None? ==> !Holds(s, c, p)
    ensures s.cpus[c].spc == Away(p) ==> s.cpus[d].spc != Back(p)
  {
    assert CpuOk(s, c) && CpuOk(s, d) && ProcOk(s, p);
    assert s.procs[p].lock == Some(c) <==> Holds(s, c, p);
    assert s.procs[p].lock == Some(d) <==> Holds(s, d, p);
  }

  lemma KeepAcquireCond(s: State, e: Event)
    requires Inv(s) && e.AcquireCond? && Enabled(s, e)
    ensures Inv(Apply(s, e))
  {
    var c, s' := e.c, Apply(s, e);
    assert CpuOk(s, c) && WakeOk(s, c);
    var p := 0;
    assert ProcOk(s, p) && (s.procs[p].lock == Some(c) <==> Holds(s, c, p));
    Frame(s, s', c, p);
  }

  lemma KeepReleaseCond(s: State, e: Event)
    requires Inv(s) && e.ReleaseCond? && Enabled(s, e)
    ensures Inv(Apply(s, e))
  {
    var c, s' := e.c, Apply(s, e);
    assert CpuOk(s, c) && WakeOk(s, c);
    var p := 0;
    assert ProcOk(s, p) && (s.procs[p].lock == Some(c) <==> Holds(s, c, p));
    Frame(s, s', c, p);
  }

  lemma KeepCallSleep(s: State, e: Event)
    requires Inv(s) && e.CallSleep? && Enabled(s, e)
    ensures Inv(Apply(s, e))
  {
    var c, s' := e.c, Apply(s, e);
    assert CpuOk(s, c) && WakeOk(s, c);
    var p := s.cpus[e.c].spc.i;
    assert ProcOk(s, p) && (s.procs[p].lock == Some(c) <==> Holds(s, c, p));
    Frame(s, s', c, p);
  }

  lemma KeepCallYield(s: State, e: Event)
    requires Inv(s) && e.CallYield? && Enabled(s, e)
    ensures Inv(Apply(s, e))
  {
    var c, s' := e.c, Apply(s, e);
    assert CpuOk(s, c) && WakeOk(s, c);
    var p := s.cpus[e.c].spc.i;
    assert ProcOk(s, p) && (s.procs[p].lock == Some(c) <==> Holds(s, c, p));
    Frame(s, s', c, p);
  }

  lemma KeepCallExit(s: State, e: Event)
    requires Inv(s) && e.CallExit? && Enabled(s, e)
    ensures Inv(Apply(s, e))
  {
    var c, s' := e.c, Apply(s, e);
    assert CpuOk(s, c) && WakeOk(s, c);
    var p := s.cpus[e.c].spc.i;
    assert ProcOk(s, p) && (s.procs[p].lock == Some(c) <==> Holds(s, c, p));
    Frame(s, s', c, p);
  }

  lemma KeepSchedAcquire(s: State, e: Event)
    requires Inv(s) && e.SchedAcquire? && Enabled(s, e)
    ensures Inv(Apply(s, e))
  {
    var c, s' := e.c, Apply(s, e);
    assert CpuOk(s, c) && WakeOk(s, c);
    var p := s.cpus[e.c].spc.i;
    assert ProcOk(s, p) && (s.procs[p].lock == Some(c) <==> Holds(s, c, p));
    Frame(s, s', c, p);
  }

  lemma KeepSchedPass(s: State, e: Event)
    requires Inv(s) && e.SchedPass? && Enabled(s, e)
    ensures Inv(Apply(s, e))
  {
    var c, s' := e.c, Apply(s, e);
    assert CpuOk(s, c) && WakeOk(s, c);
    var p := s.cpus[e.c].spc.i;
    assert ProcOk(s, p) && (s.procs[p].lock == Some(c) <==> Holds(s, c, p));
    Frame(s, s', c, p);
  }

  lemma KeepSchedRun(s: State, e: Event)
    requires Inv(s) && e.SchedRun? && Enabled(s, e)
    ensures Inv(Apply(s, e))
  {
    var c, s' := e.c, Apply(s, e);
    assert CpuOk(s, c) && WakeOk(s, c);
    var p := s.cpus[e.c].spc.i;
    assert ProcOk(s, p) && (s.procs[p].lock == Some(c) <==> Holds(s, c, p));
    Frame(s, s', c, p);
  }

  lemma KeepSchedClear(s: State, e: Event)
    requires Inv(s) && e.SchedClear? && Enabled(s, e)
    ensures Inv(Apply(s, e))
  {
    var c, s' := e.c, Apply(s, e);
    assert CpuOk(s, c) && WakeOk(s, c);
    var p := s.cpus[e.c].spc.i;
    assert ProcOk(s, p) && (s.procs[p].lock == Some(c) <==> Holds(s, c, p));
    Frame(s, s', c, p);
  }

  lemma KeepSchedRelease(s: State, e: Event)
    requires Inv(s) && e.SchedRelease? && Enabled(s, e)
    ensures Inv(Apply(s, e))
  {
    var c, s' := e.c, Apply(s, e);
    assert CpuOk(s, c) && WakeOk(s, c);
    var p := s.cpus[e.c].spc.i;
    assert ProcOk(s, p) && (s.procs[p].lock == Some(c) <==> Holds(s, c, p));
    Frame(s, s', c, p);
  }

  lemma KeepWakeBegin(s: State, e: Event)
    requires Inv(s) && e.WakeBegin? && Enabled(s, e)
    ensures Inv(Apply(s, e))
  {
    var c, s' := e.c, Apply(s, e);
    assert CpuOk(s, c) && WakeOk(s, c);
    var p := 0;
    assert ProcOk(s, p) && (s.procs[p].lock == Some(c) <==> Holds(s, c, p));
    Frame(s, s', c, p);
  }

  lemma KeepWakeAcquire(s: State, e: Event)
    requires Inv(s) && e.WakeAcquire? && Enabled(s, e)
    ensures Inv(Apply(s, e))
  {
    var c, s' := e.c, Apply(s, e);
    assert CpuOk(s, c) && WakeOk(s, c);
    var p := s.cpus[e.c].waker.value.next;
    assert ProcOk(s, p) && (s.procs[p].lock == Some(c) <==> Holds(s, c, p));
    Frame(s, s', c, p);
  }

  lemma KeepWakeSelf(s: State, e: Event)
    requires Inv(s) && e.WakeSelf? && Enabled(s, e)
    ensures Inv(Apply(s, e))
  {
    var c, s' := e.c, Apply(s, e);
    assert CpuOk(s, c) && WakeOk(s, c);
    var p := 0;
    assert ProcOk(s, p) && (s.procs[p].lock == Some(c) <==> Holds(s, c, p));
    Frame(s, s', c, p);
  }

  /** A process whose lock the wakeup holds is not in the middle of a locked routine: its sleep, if any, is
      complete, so its channel and state can be trusted. */
  lemma WakeTarget(s: State, c: nat)
    requires Inv(s) && Enabled(s, WakeCheck(c))
    ensures var p := s.cpus[c].waker.value.next;
            && !OwnLocked(s.procs[p].pc) && s.procs[p].lock == Some(c)
            && (Committed(s.procs[p], s.cpus[c].waker.value.chan) ==>
                  s.procs[p].state == Sleeping && s.procs[p].chan == Some(s.cpus[c].waker.value.chan))
  {
    var p := s.cpus[c].waker.value.next;
    assert CpuOk(s, c) && WakeOk(s, c) && ProcOk(s, p);
    assert s.procs[p].lock == Some(c) <==> Holds(s, c, p);
    if s.procs[p].host.Some? {
      var d := s.procs[p].host.value;
      assert s.procs[p].lock == Some(d) <==> Holds(s, d, p);
    }
  }

  lemma WakeChecked(s: State, c: nat)
    requires Inv(s) && Enabled(s, WakeCheck(c))
    ensures var s' := Apply(s, WakeCheck(c));
            var p := s.cpus[c].waker.value.next;
            && WakeOk(s', c) && ProcOk(s', p) && Settles(s.procs[p], s'.procs[p]) && SamePoint(s.procs[p], s'.procs[p])
  {
    var s', w := Apply(s, WakeCheck(c)), s.cpus[c].waker.value;
    WakeTarget(s, c);
    assert WakeOk(s, c) && ProcOk(s, w.next) && CpuOk(s, c);
    forall q | q in w.pend ensures q < |s'.procs| && PendOk(s'.procs[q], w.(hold := false, next := w.next + 1), q) {
      assert PendOk(s.procs[q], w, q);
    }
  }

  lemma KeepWakeCheck(s: State, e: Event)
    requires Inv(s) && e.WakeCheck? && Enabled(s, e)
    ensures Inv(Apply(s, e))
  {
    var c, s' := e.c, Apply(s, e);
    var p := s.cpus[c].waker.value.next;
    WakeTarget(s, c);
    WakeChecked(s, c);
    assert CpuOk(s, c);
    assert CpuOk(s', c) by {
      assert OpenCpu(s', c);
    }
    hide Settles, WakeOk, PendOk, ProcOk;
    Frame(s, s', c, p);
  }

  lemma KeepWakeEnd(s: State, e: Event)
    requires Inv(s) && e.WakeEnd? && Enabled(s, e)
    ensures Inv(Apply(s, e))
  {
    var c, s' := e.c, Apply(s, e);
    assert CpuOk(s, c) && WakeOk(s, c);
    var p := 0;
    assert ProcOk(s, p) && (s.procs[p].lock == Some(c) <==> Holds(s, c, p));
    Frame(s, s', c, p);
  }

  lemma KeepKill(s: State, e: Event)
    requires Inv(s) && e.Kill? && Enabled(s, e)
    ensures Inv(Apply(s, e))
  {
    var c, s' := e.c, Apply(s, e);
    assert CpuOk(s, c) && WakeOk(s, c);
    var p := e.p;
    assert ProcOk(s, p) && (s.procs[p].lock == Some(c) <==> Holds(s, c, p));
    Frame(s, s', c, p);
  }

  /** A trap or its return in a process: only the process and its cpu change, and no process lock is involved. */
  ghost predicate TrapStep(s: State, s': State, c: nat) {
    && c < |s.cpus| == |s'.cpus| && s.cpus[c].spc.Away? && s.cpus[c].spc.i < |s.procs| == |s'.procs|
    && var p := s.cpus[c].spc.i;
    && s' == With(s, p, s'.procs[p], c, s'.cpus[c])
    && CpuOk(s', c) && ProcOk(s', p) && Settles(s.procs[p], s'.procs[p])
    && s'.procs[p].lock == s.procs[p].lock && !OwnLocked(s.procs[p].pc) && !OwnLocked(s'.procs[p].pc)
    && s'.cpus[c].conds == s.cpus[c].conds && s'.cpus[c].spc == s.cpus[c].spc
    && s.cpus[c].waker.None? && s'.cpus[c].waker.None?
  }

  lemma KeepTrapStep(s: State, s': State, c: nat)
    requires Inv(s) && TrapStep(s, s', c)
    ensures Inv(s')
  {
    var p := s.cpus[c].spc.i;
    assert CpuOk(s, c) && ProcOk(s, p) && (s.procs[p].lock == Some(c) <==> Holds(s, c, p));
    hide ThreadOk, ProcOk;
    Frame(s, s', c, p);
  }

  lemma TrapInProcess(s: State, c: nat)
    requires Inv(s) && Enabled(s, Interrupt(c)) && s.cpus[c].spc.Away?
    ensures TrapStep(s, Apply(s, Interrupt(c)), c)
  {
    assert CpuOk(s, c) && ProcOk(s, s.cpus[c].spc.i);
  }

  lemma ReturnInProcess(s: State, c: nat)
    requires Inv(s) && Enabled(s, Return(c)) && s.cpus[c].spc.Away?
    ensures TrapStep(s, Apply(s, Return(c)), c)
  {
    assert CpuOk(s, c) && ProcOk(s, s.cpus[c].spc.i);
  }

  /** The same in the scheduler loop. */
  lemma KeepIrq(s: State, e: Event)
    requires Inv(s) && (e.Interrupt? || e.Return?) && Enabled(s, e) && !s.cpus[e.c].spc.Away?
    ensures Inv(Apply(s, e))
  {
    var c, s' := e.c, Apply(s, e);
    assert CpuOk(s, c) && WakeOk(s, c);
    assert ProcOk(s, 0) && (s.procs[0].lock == Some(c) <==> Holds(s, c, 0));
    Frame(s, s', c, 0);
  }

  lemma KeepInterrupt(s: State, c: nat)
    requires Inv(s) && Enabled(s, Interrupt(c))
    ensures Inv(Apply(s, Interrupt(c)))
  {
    assert c < |s.cpus|;
    hide Inv, Enabled, Apply, TrapStep;
    if s.cpus[c].spc.Away? {
      TrapInProcess(s, c);
      KeepTrapStep(s, Apply(s, Interrupt(c)), c);
    } else {
      KeepIrq(s, Interrupt(c));
    }
  }

  lemma KeepReturn(s: State, c: nat)
    requires Inv(s) && Enabled(s, Return(c))
    ensures Inv(Apply(s, Return(c)))
  {
    assert c < |s.cpus|;
    hide Inv, Enabled, Apply, TrapStep;
    if s.cpus[c].spc.Away? {
      ReturnInProcess(s, c);
      KeepTrapStep(s, Apply(s, Return(c)), c);
    } else {
      KeepIrq(s, Return(c));
    }
  }

  lemma KeepSysEnter(s: State, e: Event)
    requires Inv(s) && e.SysEnter? && Enabled(s, e)
    ensures Inv(Apply(s, e))
  {
    var c, s' := e.c, Apply(s, e);
    assert CpuOk(s, c) && WakeOk(s, c);
    var p := s.cpus[c].spc.i;
    assert ProcOk(s, p) && (s.procs[p].lock == Some(c) <==> Holds(s, c, p));
    Frame(s, s', c, p);
  }

  lemma KeepSysLeave(s: State, e: Event)
    requires Inv(s) && e.SysLeave? && Enabled(s, e)
    ensures Inv(Apply(s, e))
  {
    var c, s' := e.c, Apply(s, e);
    assert CpuOk(s, c) && WakeOk(s, c);
    var p := s.cpus[c].spc.i;
    assert ProcOk(s, p) && (s.procs[p].lock == Some(c) <==> Holds(s, c, p));
    Frame(s, s', c, p);
  }

  lemma KeepDoomed(s: State, e: Event)
    requires Inv(s) && e.Doomed? && Enabled(s, e)
    ensures Inv(Apply(s, e))
  {
    var c, s' := e.c, Apply(s, e);
    assert CpuOk(s, c) && WakeOk(s, c);
    var p := s.cpus[c].spc.i;
    assert ProcOk(s, p) && (s.procs[p].lock == Some(c) <==> Holds(s, c, p));
    Frame(s, s', c, p);
  }

  lemma KeepSleepAcq(s: State, c: nat)
    requires Inv(s) && Enabled(s, ProcStep(c)) && s.procs[s.cpus[c].spc.i].pc.SleepAcq?
    ensures Inv(Apply(s, ProcStep(c)))
  {
    var s' := Apply(s, ProcStep(c));
    assert CpuOk(s, c) && WakeOk(s, c);
    var p := s.cpus[c].spc.i;
    assert ProcOk(s, p) && (s.procs[p].lock == Some(c) <==> Holds(s, c, p));
    Frame(s, s', c, p);
  }

  lemma KeepSleepRel(s: State, c: nat)
    requires Inv(s) && Enabled(s, ProcStep(c)) && s.procs[s.cpus[c].spc.i].pc.SleepRel?
    ensures Inv(Apply(s, ProcStep(c)))
  {
    var s' := Apply(s, ProcStep(c));
    assert CpuOk(s, c) && WakeOk(s, c);
    var p := s.cpus[c].spc.i;
    assert ProcOk(s, p) && (s.procs[p].lock == Some(c) <==> Holds(s, c, p));
    Frame(s, s', c, p);
  }

  lemma KeepSleepSet(s: State, c: nat)
    requires Inv(s) && Enabled(s, ProcStep(c)) && s.procs[s.cpus[c].spc.i].pc.SleepSet?
    ensures Inv(Apply(s, ProcStep(c)))
  {
    var s' := Apply(s, ProcStep(c));
    assert CpuOk(s, c) && WakeOk(s, c);
    var p := s.cpus[c].spc.i;
    assert ProcOk(s, p) && (s.procs[p].lock == Some(c) <==> Holds(s, c, p));
    Frame(s, s', c, p);
  }

  lemma KeepYieldAcq(s: State, c: nat)
    requires Inv(s) && Enabled(s, ProcStep(c)) && s.procs[s.cpus[c].spc.i].pc.YieldAcq?
    ensures Inv(Apply(s, ProcStep(c)))
  {
    var s' := Apply(s, ProcStep(c));
    assert CpuOk(s, c) && WakeOk(s, c);
    var p := s.cpus[c].spc.i;
    assert ProcOk(s, p) && (s.procs[p].lock == Some(c) <==> Holds(s, c, p));
    Frame(s, s', c, p);
  }

  lemma KeepYieldSet(s: State, c: nat)
    requires Inv(s) && Enabled(s, ProcStep(c)) && s.procs[s.cpus[c].spc.i].pc.YieldSet?
    ensures Inv(Apply(s, ProcStep(c)))
  {
    var s' := Apply(s, ProcStep(c));
    assert CpuOk(s, c) && WakeOk(s, c);
    var p := s.cpus[c].spc.i;
    assert ProcOk(s, p) && (s.procs[p].lock == Some(c) <==> Holds(s, c, p));
    Frame(s, s', c, p);
  }

  lemma KeepExitAcq(s: State, c: nat)
    requires Inv(s) && Enabled(s, ProcStep(c)) && s.procs[s.cpus[c].spc.i].pc.ExitAcq?
    ensures Inv(Apply(s, ProcStep(c)))
  {
    var s' := Apply(s, ProcStep(c));
    assert CpuOk(s, c) && WakeOk(s, c);
    var p := s.cpus[c].spc.i;
    assert ProcOk(s, p) && (s.procs[p].lock == Some(c) <==> Holds(s, c, p));
    Frame(s, s', c, p);
  }

  lemma KeepExitSet(s: State, c: nat)
    requires Inv(s) && Enabled(s, ProcStep(c)) && s.procs[s.cpus[c].spc.i].pc.ExitSet?
    ensures Inv(Apply(s, ProcStep(c)))
  {
    var s' := Apply(s, ProcStep(c));
    assert CpuOk(s, c) && WakeOk(s, c);
    var p := s.cpus[c].spc.i;
    assert ProcOk(s, p) && (s.procs[p].lock == Some(c) <==> Holds(s, c, p));
    Frame(s, s', c, p);
  }

  lemma KeepExitRel(s: State, c: nat)
    requires Inv(s) && Enabled(s, ProcStep(c)) && s.procs[s.cpus[c].spc.i].pc.ExitRel?
    ensures Inv(Apply(s, ProcStep(c)))
  {
    var s' := Apply(s, ProcStep(c));
    assert CpuOk(s, c) && WakeOk(s, c);
    var p := s.cpus[c].spc.i;
    assert ProcOk(s, p) && (s.procs[p].lock == Some(c) <==> Holds(s, c, p));
    Frame(s, s', c, p);
  }

  lemma KeepSwitch(s: State, c: nat)
    requires Inv(s) && Enabled(s, ProcStep(c)) && s.procs[s.cpus[c].spc.i].pc.Switch?
    ensures Inv(Apply(s, ProcStep(c)))
  {
    var s' := Apply(s, ProcStep(c));
    assert CpuOk(s, c) && WakeOk(s, c);
    var p := s.cpus[c].spc.i;
    assert ProcOk(s, p) && (s.procs[p].lock == Some(c) <==> Holds(s, c, p));
    Frame(s, s', c, p);
  }

  lemma KeepLanded(s: State, c: nat)
    requires Inv(s) && Enabled(s, ProcStep(c)) && s.procs[s.cpus[c].spc.i].pc.Landed?
    ensures Inv(Apply(s, ProcStep(c)))
  {
    var s' := Apply(s, ProcStep(c));
    assert CpuOk(s, c) && WakeOk(s, c);
    var p := s.cpus[c].spc.i;
    assert ProcOk(s, p) && (s.procs[p].lock == Some(c) <==> Holds(s, c, p));
    Frame(s, s', c, p);
  }

  lemma KeepResumed(s: State, c: nat)
    requires Inv(s) && Enabled(s, ProcStep(c)) && s.procs[s.cpus[c].spc.i].pc.Resumed?
    ensures Inv(Apply(s, ProcStep(c)))
  {
    var s' := Apply(s, ProcStep(c));
    assert CpuOk(s, c) && WakeOk(s, c);
    var p := s.cpus[c].spc.i;
    assert ProcOk(s, p) && (s.procs[p].lock == Some(c) <==> Holds(s, c, p));
    Frame(s, s', c, p);
  }

  lemma KeepSleepReacq(s: State, c: nat)
    requires Inv(s) && Enabled(s, ProcStep(c)) && s.procs[s.cpus[c].spc.i].pc.SleepReacq?
    ensures Inv(Apply(s, ProcStep(c)))
  {
    var s' := Apply(s, ProcStep(c));
    assert CpuOk(s, c) && WakeOk(s, c);
    var p := s.cpus[c].spc.i;
    assert ProcOk(s, p) && (s.procs[p].lock == Some(c) <==> Holds(s, c, p));
    Frame(s, s', c, p);
  }

  // ---------------------------------------------------------------- runs

  lemma StepKeepsInv(s: State, e: Event)
    requires Inv(s) && Enabled(s, e)
    ensures Inv(Apply(s, e))
  {
    hide Inv, Enabled, Apply;
    match e
    case AcquireCond(_, _) => KeepAcquireCond(s, e);
    case ReleaseCond(_, _) => KeepReleaseCond(s, e);
    case CallSleep(_, _, _) => KeepCallSleep(s, e);
    case CallYield(_) => KeepCallYield(s, e);
    case CallExit(_, _) => KeepCallExit(s, e);
    case ProcStep(c) => KeepProcStep(s, c);
    case SchedAcquire(_) => KeepSchedAcquire(s, e);
    case SchedPass(_) => KeepSchedPass(s, e);
    case SchedRun(_) => KeepSchedRun(s, e);
    case SchedClear(_) => KeepSchedClear(s, e);
    case SchedRelease(_) => KeepSchedRelease(s, e);
    case WakeBegin(_, _) => KeepWakeBegin(s, e);
    case WakeAcquire(_) => KeepWakeAcquire(s, e);
    case WakeSelf(_) => KeepWakeSelf(s, e);
    case WakeCheck(_) => KeepWakeCheck(s, e);
    case WakeEnd(_) => KeepWakeEnd(s, e);
    case Interrupt(c) => KeepInterrupt(s, c);
    case Return(c) => KeepReturn(s, c);
    case SysEnter(_) => KeepSysEnter(s, e);
    case SysLeave(_) => KeepSysLeave(s, e);
    case Doomed(_) => KeepDoomed(s, e);
    case Kill(_, _) => KeepKill(s, e);
  }

  lemma KeepProcStep(s: State, c: nat)
    requires Inv(s) && Enabled(s, ProcStep(c))
    ensures Inv(Apply(s, ProcStep(c)))
  {
    match s.procs[s.cpus[c].spc.i].pc
    case SleepAcq(_, _) => KeepSleepAcq(s, c);
    case SleepRel(_, _) => KeepSleepRel(s, c);
    case SleepSet(_, _) => KeepSleepSet(s, c);
    case YieldAcq(_) => KeepYieldAcq(s, c);
    case YieldSet(_) => KeepYieldSet(s, c);
    case ExitAcq(_) => KeepExitAcq(s, c);
    case ExitSet(_) => KeepExitSet(s, c);
    case ExitRel(_) => KeepExitRel(s, c);
    case Switch(_) => KeepSwitch(s, c);
    case Landed(_) => KeepLanded(s, c);
    case Resumed(_) => KeepResumed(s, c);
    case SleepReacq(_) => KeepSleepReacq(s, c);
  }
}
