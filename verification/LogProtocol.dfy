/** begin_op, log_write and end_op of src/kernel/filesys.c as a transition system.

    Each step is one critical section under log.lock; any number of operations interleave. A run is any sequence of
    steps. Commit runs outside the lock, between the step that sets log.commit and the one that clears it. */
module LogProtocol {
  import opened Common

  /** An open operation and how many blocks it has added to the transaction. */
  datatype Op = Op(id: nat, added: nat)

  datatype State = State(
    blocks: seq<nat>,      // loghead.block[0 .. count-1]
    numSyscalls: int,      // log.num_syscalls
    commit: bool,          // log.commit
    ops: seq<Op>)          // operations between begin_op and end_op

  function Init(): State {
    State([], 0, false, [])
  }

  datatype Event =
    | Begin(id: nat)                 // begin_op gets past its guard
    | Write(i: nat, b: nat)          // open operation i logs block b
    | End(i: nat)                    // open operation i ends
    | CommitDone                     // the committer clears log.commit

  datatype Outcome = Next(s: State) | Sleeps | Panics | Impossible

  /** What one event does, with the source's guards. */
  function Step(s: State, e: Event): Outcome {
    match e
    case Begin(id) =>
      if s.commit || |s.blocks| + (s.numSyscalls + 1) * MAXLOGOPS > LOGSIZE then Sleeps
      else Next(s.(numSyscalls := s.numSyscalls + 1, ops := s.ops + [Op(id, 0)]))
    case Write(i, b) =>
      if i >= |s.ops| then Impossible
      else if |s.blocks| >= LOGSIZE || s.numSyscalls < 1 then Panics
      else if b in s.blocks then Next(s)
      else Next(s.(blocks := s.blocks + [b], ops := s.ops[i := s.ops[i].(added := s.ops[i].added + 1)]))
    case End(i) =>
      if i >= |s.ops| then Impossible
      else if s.commit then Panics
      else Next(s.(numSyscalls := s.numSyscalls - 1,
                   commit := s.numSyscalls - 1 == 0,
                   ops := s.ops[..i] + s.ops[i + 1..]))
    case CommitDone =>
      if !s.commit then Impossible else Next(s.(blocks := [], commit := false))
  }

  /** Reachable from boot by events none of which lets an operation add more than budget blocks. */
  ghost predicate Run(states: seq<State>, events: seq<Event>, budget: nat) {
    && |states| == |events| + 1 && states[0] == Init()
    && (forall k :: 0 <= k < |events| ==> Step(states[k], events[k]) == Next(states[k + 1]))
    && (forall k :: 0 <= k < |states| ==> WithinBudget(states[k], budget))
  }

  ghost predicate WithinBudget(s: State, budget: nat) {
    forall i :: 0 <= i < |s.ops| ==> s.ops[i].added <= budget
  }

  /** Blocks the open operations may still add out of their reservations. */
  ghost function Unused(ops: seq<Op>): int {
    if ops == [] then 0 else Unused(ops[..|ops| - 1]) + (MAXLOGOPS - ops[|ops| - 1].added)
  }

  lemma {:induction false} UnusedAt(ops: seq<Op>, i: nat)
    requires i < |ops|
    ensures Unused(ops[..i] + ops[i + 1..]) == Unused(ops) - (MAXLOGOPS - ops[i].added)
    ensures Unused(ops[i := ops[i].(added := ops[i].added + 1)]) == Unused(ops) - 1
  {
    var n := |ops| - 1;
    if i == n {
      assert ops[..i] + ops[i + 1..] == ops[..n];
      assert ops[i := ops[i].(added := ops[i].added + 1)][..n] == ops[..n];
    } else {
      UnusedAt(ops[..n], i);
      assert (ops[..i] + ops[i + 1..])[..n - 1] == ops[..n][..i] + ops[..n][i + 1..];
      assert ops[i := ops[i].(added := ops[i].added + 1)][..n] == ops[..n][i := ops[i].(added := ops[i].added + 1)];
    }
  }

  lemma {:induction false} UnusedAtLeast(ops: seq<Op>, budget: nat)
    requires budget <= MAXLOGOPS && forall i :: 0 <= i < |ops| ==> ops[i].added <= budget
    ensures Unused(ops) >= if budget < MAXLOGOPS then |ops| else 0
  {
    if ops != [] {
      UnusedAtLeast(ops[..|ops| - 1], budget);
    }
  }

  /** Logged blocks plus unused reservations fit in the log; commit excludes open operations; a log with
      blocks but no open operation is being committed. */
  ghost predicate Inv(s: State) {
    && s.numSyscalls == |s.ops|
    && (s.commit ==> s.ops == [])
    && (s.ops == [] && !s.commit ==> s.blocks == [])
    && |s.blocks| + Unused(s.ops) <= LOGSIZE
    && Distinct(s.blocks)
  }

  lemma StepKeepsInv(s: State, e: Event)
    requires Inv(s) && WithinBudget(s, MAXLOGOPS) && Step(s, e).Next? && WithinBudget(Step(s, e).s, MAXLOGOPS)
    ensures Inv(Step(s, e).s)
  {
    match e
    case Begin(id) => BeginKeepsInv(s, id);
    case Write(i, b) => WriteKeepsInv(s, i, b);
    case End(i) => EndKeepsInv(s, i);
    case CommitDone =>
  }

  lemma BeginKeepsInv(s: State, id: nat)
    requires Inv(s) && Step(s, Begin(id)).Next?
    ensures Inv(Step(s, Begin(id)).s)
  {
    var t := Step(s, Begin(id)).s;
    assert t.ops[..|s.ops|] == s.ops;
    assert Unused(t.ops) == Unused(s.ops) + MAXLOGOPS;
    UnusedAtMost(s.ops);
  }

  lemma WriteKeepsInv(s: State, i: nat, b: nat)
    requires Inv(s) && Step(s, Write(i, b)).Next?
    ensures Inv(Step(s, Write(i, b)).s)
  {
    if b !in s.blocks {
      UnusedAt(s.ops, i);
      hide Unused;
    }
  }

  lemma EndKeepsInv(s: State, i: nat)
    requires Inv(s) && WithinBudget(s, MAXLOGOPS) && Step(s, End(i)).Next?
    ensures Inv(Step(s, End(i)).s)
  {
    UnusedAt(s.ops, i);
    hide Unused;
  }

  lemma {:induction false} UnusedAtMost(ops: seq<Op>)
    ensures Unused(ops) <= |ops| * MAXLOGOPS
  {
    if ops != [] {
      UnusedAtMost(ops[..|ops| - 1]);
    }
  }

  lemma {:induction false} RunKeepsInv(states: seq<State>, events: seq<Event>, k: nat)
    requires Run(states, events, MAXLOGOPS) && k < |states|
    ensures Inv(states[k])
  {
    if k > 0 {
      RunKeepsInv(states, events, k - 1);
      assert Step(states[k - 1], events[k - 1]) == Next(states[k]);
      assert WithinBudget(states[k - 1], MAXLOGOPS) && WithinBudget(states[k], MAXLOGOPS);
      StepKeepsInv(states[k - 1], events[k - 1]);
    }
  }

  /** Reservation, over all interleavings: if no operation adds more than MAXLOGOPS blocks, the log holds the
      unused budgets of all open operations, an operation within budget never makes log_write or end_op
      panic, and commit never overlaps an open operation. */
  lemma ReservationHolds(states: seq<State>, events: seq<Event>, k: nat)
    requires Run(states, events, MAXLOGOPS) && k < |states|
    ensures var s := states[k];
            && |s.blocks| + Unused(s.ops) <= LOGSIZE && Distinct(s.blocks)
            && (s.commit ==> s.ops == [])
            && (forall i :: Step(s, End(i)) != Panics)
            && (forall i, b {:trigger Step(s, Write(i, b))} ::
                  0 <= i < |s.ops| && s.ops[i].added < MAXLOGOPS ==> Step(s, Write(i, b)).Next?)
  {
    RunKeepsInv(states, events, k);
    var s := states[k];
    forall i, b | 0 <= i < |s.ops| && s.ops[i].added < MAXLOGOPS ensures Step(s, Write(i, b)).Next? {
      UnusedAt(s.ops, i);
      assert WithinBudget(s, MAXLOGOPS);
      UnusedAtLeast(s.ops[..i] + s.ops[i + 1..], MAXLOGOPS);
    }
  }

  /** On every run: begin_op goes on exactly if nothing is being committed and the log has room for MAXLOGOPS blocks of
      each open operation and this one, so that at most three are ever open; the end of the last operation, and of no
      other, starts a commit; and a finished commit leaves the log as at boot. */
  lemma {:induction false} Rounds(states: seq<State>, events: seq<Event>, k: nat)
    requires Run(states, events, MAXLOGOPS) && k < |states|
    ensures var s := states[k];
            && |s.ops| <= 3
            && (forall id :: Step(s, Begin(id)).Next? <==> !s.commit && |s.blocks| + 10 * (|s.ops| + 1) <= 30)
            && (forall i :: 0 <= i < |s.ops| ==> Step(s, End(i)).Next? && (Step(s, End(i)).s.commit <==> |s.ops| == 1))
            && (s.commit ==> Step(s, CommitDone) == Next(State([], 0, false, [])))
  {
    RunKeepsInv(states, events, k);
    if k > 0 {
      Rounds(states, events, k - 1);
      assert Step(states[k - 1], events[k - 1]) == Next(states[k]);
    }
  }

  /** A run of three operations that use up their reservations, after which every further log_write panics, even one of
      a block that is in the log already. */
  lemma FullPanics() returns (states: seq<State>, events: seq<Event>)
    ensures Run(states, events, MAXLOGOPS) && |states[|states| - 1].ops| == 3
    ensures forall i, b {:trigger Step(states[|states| - 1], Write(i, b))} ::
              0 <= i < 3 ==> Step(states[|states| - 1], Write(i, b)) == Panics
  {
    states, events := FilledReachable(30, MAXLOGOPS);
  }

  lemma BudgetMonotone(states: seq<State>, events: seq<Event>, budget: nat)
    requires Run(states, events, budget) && budget <= MAXLOGOPS
    ensures Run(states, events, MAXLOGOPS)
  {
    forall k | 0 <= k < |states| ensures WithinBudget(states[k], MAXLOGOPS) {
      assert WithinBudget(states[k], budget);
    }
  }


  /** The state after three operations have added n blocks in turn. */
  function Filled(n: nat): State
    requires n <= LOGSIZE
  {
    State(seq(n, i => i), 3, false, [Op(0, (n + 2) / 3), Op(1, (n + 1) / 3), Op(2, n / 3)])
  }

  lemma {:induction false} FilledReachable(n: nat, budget: nat) returns (states: seq<State>, events: seq<Event>)
    requires n <= 3 * budget && budget <= MAXLOGOPS
    ensures Run(states, events, budget) && states[|states| - 1] == Filled(n)
  {
    if n == 0 {
      var three := [Op(0, 0), Op(1, 0), Op(2, 0)];
      events := [Begin(0), Begin(1), Begin(2)];
      states := [Init(), State([], 1, false, three[..1]), State([], 2, false, three[..2]), State([], 3, false, three)];
      assert Filled(0) == states[3];
    } else {
      var ss, es := FilledReachable(n - 1, budget);
      var s := ss[|ss| - 1];
      var e := Write((n - 1) % 3, n - 1);
      assert n - 1 !in s.blocks;
      assert s.blocks + [n - 1] == Filled(n).blocks;
      assert Step(s, e) == Next(Filled(n));
      states, events := ss + [Filled(n)], es + [e];
      assert WithinBudget(Filled(n), budget);
    }
  }

  /** The log stays inside its on-disk region, one slot free, on every run in which no operation adds
      more than `budget` blocks exactly when budget < MAXLOGOPS. The source's guard alone admits the 30th block,
      whose slot is outside the region. */
  lemma SlotsInsideRegionIff(budget: nat)
    requires budget <= MAXLOGOPS
    ensures (forall states: seq<State>, events: seq<Event>, k: nat ::
               Run(states, events, budget) && k < |states| ==> |states[k].blocks| <= LOGSIZE - 1)
            <==> budget < MAXLOGOPS
  {
    if budget < MAXLOGOPS {
      forall states: seq<State>, events: seq<Event>, k: nat | Run(states, events, budget) && k < |states|
        ensures |states[k].blocks| <= LOGSIZE - 1
      {
        OneSlotFree(states, events, budget, k);
      }
    } else {
      var states, events := FilledReachable(LOGSIZE, budget);
      assert |states[|states| - 1].blocks| == LOGSIZE;
    }
  }

  lemma {:induction false} OneSlotFree(states: seq<State>, events: seq<Event>, budget: nat, k: nat)
    requires Run(states, events, budget) && budget < MAXLOGOPS && k < |states|
    ensures |states[k].blocks| <= LOGSIZE - 1
  {
    BudgetMonotone(states, events, budget);
    RunKeepsInv(states, events, k);
    var s := states[k];
    if s.ops != [] {
      assert WithinBudget(s, budget);
      UnusedAtLeast(s.ops, budget);
    } else if k > 0 {
      OneSlotFree(states, events, budget, k - 1);
      var e := events[k - 1];
      assert Step(states[k - 1], e) == Next(s);
      assert e.End? || e.CommitDone?;
    }
  }
}
