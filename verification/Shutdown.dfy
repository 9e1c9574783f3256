// Shutdown of the job protocol: what cancellation does to every accepted job, and that it ends.
module ShutdownProof {
  import opened Basics
  import opened Protocol
  import opened Accounts
  import opened Safety
  import opened Guarantees

  // ---- jobs still queued at cancellation

  // Nothing was downloaded for the job, and no event says so.
  ghost predicate NeverStarted(a: Active) {
    && ((a.phase.Queued? && a.outcome.error.None?) ||
        (a.phase.Failed? && a.outcome.error == Some(SHUTTING_DOWN)))
    && forall i | 0 <= i < |a.events| :: a.events[i].state.Queued? || a.events[i].state.Failed?
  }

  ghost predicate Doomed(s: State, t: nat) {
    && s.cancelled && t < |s.actives| && NeverStarted(s.actives[t])
    && forall w | 0 <= w < |s.workers| && s.workers[w].Joining? && s.workers[w].ticket == t ::
         s.workers[w].error == Some(SHUTTING_DOWN)
  }

  lemma StepDoomed(s: State, step: Step, t: nat)
    requires Inv(s) && Enabled(s, step) && Doomed(s, t)
    ensures Doomed(Next(s, step), t)
  {
    var s' := Next(s, step);
    if step.Conclude? {
      UnfinishedInWorker(s, step.worker);
    }
    assert NeverStarted(s'.actives[t]);
  }

  lemma {:induction false} RunDoomed(s: State, steps: seq<Step>, t: nat)
    requires Inv(s) && Legal(s, steps) && Doomed(s, t)
    ensures Doomed(Run(s, steps), t)
    decreases |steps|
  {
    if steps != [] {
      StepDoomed(s, steps[0], t);
      StepKeeps(s, steps[0]);
      RunDoomed(Next(s, steps[0]), steps[1..], t);
    }
  }

  lemma QueuedDoomed(s: State, t: nat)
    requires Inv(s) && s.cancelled && InQueue(LedgerOf(s), t)
    ensures Doomed(s, t)
  {
    var a := s.actives[t];
    assert Served(s.config, a, Preparing);
    forall i | 0 <= i < |a.events| ensures a.events[i].state.Queued? {
      assert EventFits(a, i);
    }
    forall w | 0 <= w < |s.workers| && s.workers[w].Joining? ensures s.workers[w].ticket != t {
      TicketAlone(s, w);
    }
  }

  ghost predicate ReportsShutdown(a: Active) {
    && |a.events| > 0
    && a.events[|a.events| - 1] == Event(|a.events| - 1, Failed, true, Some(a.outcome))
    && a.outcome.error == Some(SHUTTING_DOWN)
  }

  lemma {:induction false} DoomedReports(s: State, t: nat)
    requires Inv(s) && Doomed(s, t) && !Live(LedgerOf(s), t)
    ensures ReportsShutdown(s.actives[t])
  {
    assert Concluded(s.config, s.actives[t]);
  }

  // A job that cancellation finds in the queue never reaches the download, whatever happens next;
  // once it has left the agent its last event reports "agent shutting down".
  lemma {:induction false} QueuedAtShutdown(config: Config, s: State, t: nat, steps: seq<Step>)
    requires Reachable(config, s) && s.cancelled && InQueue(LedgerOf(s), t) && Legal(s, steps)
    ensures var later := Run(s, steps);
            && t < |later.actives| && NeverStarted(later.actives[t])
            && (Live(LedgerOf(later), t) || ReportsShutdown(later.actives[t]))
  {
    ReachableInv(config, s);
    QueuedDoomed(s, t);
    RunDoomed(s, steps, t);
    RunKeeps(s, steps);
    var later := Run(s, steps);
    if !Live(LedgerOf(later), t) {
      DoomedReports(later, t);
    }
  }

  // ---- the work left

  function SlotWork(slot: Slot): nat {
    match slot
    case Exited => 0
    case Idle => 1
    case Reporting(_) => 2
    case Joining(_, _) => 3
    case Serving(_, _) => 4
  }

  function Pulse(a: Active): nat { if a.heartbeat.Stopped? then 0 else 1 }

  // Steps until every worker has left and every heartbeat has stopped.
  function Remaining(s: State): nat {
    4 * |s.queue| + Sum(s.workers, SlotWork) + Sum(s.actives, Pulse)
  }

  predicate IsWork(step: Step) { !step.Submit? && !step.Cancel? && !step.Beat? && !step.Advance? }

  // After cancellation execute is never polled again, and each step of a worker or the end of a
  // heartbeat is exactly one unit of the remaining work; submissions and callbacks add none.
  lemma WorkCounted(s: State, step: Step)
    requires s.cancelled && Enabled(s, step)
    ensures Next(s, step).cancelled && !step.Advance?
    ensures Remaining(s) == Remaining(Next(s, step)) + if IsWork(step) then 1 else 0
  {
    hide Execute, LedgerOf, Sum;
    var s' := Next(s, step);
    match step
    case Submit(_) =>
    case Cancel =>
    case Beat(t) => SumUpdate(s.actives, Pulse, t, s'.actives[t]);
    case BeatEnds(t) => SumUpdate(s.actives, Pulse, t, s'.actives[t]);
    case Take(w) => SumUpdate(s.workers, SlotWork, w, s'.workers[w]);
    case Leave(w) => SumUpdate(s.workers, SlotWork, w, s'.workers[w]);
    case Retire(w) => SumUpdate(s.workers, SlotWork, w, s'.workers[w]);
    case Interrupt(w, _) =>
      var t := s.workers[w].ticket;
      SumUpdate(s.workers, SlotWork, w, s'.workers[w]);
      SumUpdate(s.actives, Pulse, t, s'.actives[t]);
    case Conclude(w) =>
      var t := s.workers[w].ticket;
      SumUpdate(s.workers, SlotWork, w, s'.workers[w]);
      SumUpdate(s.actives, Pulse, t, s'.actives[t]);
    case Advance(_, _) =>
  }

  function WorkIn(steps: seq<Step>): nat {
    if steps == [] then 0 else (if IsWork(steps[0]) then 1 else 0) + WorkIn(steps[1..])
  }

  // Conservation over every run after cancellation: so no run holds more work than there was.
  lemma {:induction false} WorkConserved(s: State, steps: seq<Step>)
    requires s.cancelled && Legal(s, steps)
    ensures Remaining(s) == Remaining(Run(s, steps)) + WorkIn(steps)
    decreases |steps|
  {
    if steps != [] {
      WorkCounted(s, steps[0]);
      WorkConserved(Next(s, steps[0]), steps[1..]);
    }
  }

  ghost predicate AllExited(s: State) {
    forall w | 0 <= w < |s.workers| :: s.workers[w].Exited?
  }

  // Shutdown never gets stuck: while a worker is left, some unit of work can be done.
  lemma WorkPossible(s: State) returns (step: Step)
    requires Inv(s) && s.cancelled && !AllExited(s)
    ensures IsWork(step) && Enabled(s, step)
  {
    var w :| 0 <= w < |s.workers| && !s.workers[w].Exited?;
    assert SlotOk(s, w);
    match s.workers[w]
    case Idle =>
      step := if s.queue == [] then Leave(w) else Take(w);
    case Serving(_, _) =>
      step := Interrupt(w, Shutdown);
    case Joining(t, _) =>
      step := if s.actives[t].heartbeat.Stopped? then Conclude(w) else BeatEnds(t);
    case Reporting(_) =>
      step := Retire(w);
  }

  // From every reachable state cancellation leads to the end: a run in which every worker leaves.
  lemma {:induction false} ShutdownCompletes(s: State) returns (steps: seq<Step>)
    requires Inv(s) && s.cancelled
    ensures Legal(s, steps) && AllExited(Run(s, steps)) && Run(s, steps).cancelled
    decreases Remaining(s)
  {
    steps := [];
    if !AllExited(s) {
      var step := WorkPossible(s);
      WorkCounted(s, step);
      StepKeeps(s, step);
      var rest := ShutdownCompletes(Next(s, step));
      steps := [step] + rest;
      assert steps[1..] == rest;
    }
  }

  ghost predicate TerminalOnce(events: seq<Event>) {
    && |events| > 0 && events[|events| - 1].terminal
    && forall i | 0 <= i < |events| - 1 :: !events[i].terminal
  }

  lemma NothingLeft(s: State)
    requires Inv(s) && s.config.concurrency > 0 && AllExited(s)
    ensures s.jobs == {} && s.free == s.config.Capacity() && s.queue == [] && s.cancelled
    ensures forall t | 0 <= t < |s.actives| :: TerminalOnce(s.actives[t].events) && s.actives[t].heartbeat.Stopped?
  {
    var l := LedgerOf(s);
    assert s.workers[0].Exited?;
    NothingHeld(l.holds);
    forall t | 0 <= t < |s.actives|
      ensures TerminalOnce(s.actives[t].events) && s.actives[t].heartbeat.Stopped?
    {
      assert !Live(l, t);
      var a := s.actives[t];
      forall i | 0 <= i < |a.events| - 1 ensures !a.events[i].terminal {
        assert EventFits(a, i);
      }
    }
  }

  // When the last worker has left no id is registered, every permit is free, and every job ever
  // accepted has made exactly one terminal event, its last: shutdown loses no job.
  lemma NothingLost(config: Config, s: State)
    requires Reachable(config, s) && config.concurrency > 0 && AllExited(s)
    ensures s.jobs == {} && s.free == config.Capacity() && s.queue == [] && s.cancelled
    ensures forall t | 0 <= t < |s.actives| :: TerminalOnce(s.actives[t].events) && s.actives[t].heartbeat.Stopped?
  {
    ReachableInv(config, s);
    NothingLeft(s);
  }

  // Whatever the schedule: a run after cancellation has ended, with every worker gone, exactly if it
  // has done all the work there was. No run does more, and short of the end more is always possible.
  lemma {:induction false} ShutdownExact(s: State, steps: seq<Step>)
    requires Inv(s) && s.cancelled && s.config.concurrency > 0 && Legal(s, steps)
    ensures WorkIn(steps) <= Remaining(s)
    ensures AllExited(Run(s, steps)) <==> WorkIn(steps) == Remaining(s)
  {
    var later := Run(s, steps);
    WorkConserved(s, steps);
    RunKeeps(s, steps);
    RunConfig(s, steps);
    SumZero(later.workers, SlotWork);
    SumZero(later.actives, Pulse);
    if AllExited(later) {
      NothingLeft(later);
    }
    hide Inv, Sum;
  }
}
