// The guarantees of the job protocol over whole runs from the initial state.
module Guarantees {
  import opened Basics
  import opened JobModel
  import opened Protocol
  import opened Accounts
  import opened Safety

  ghost predicate Reachable(config: Config, s: State) {
    exists steps :: Legal(Initial(config), steps) && s == Run(Initial(config), steps)
  }

  lemma {:induction false} RunConfig(s: State, steps: seq<Step>)
    requires Legal(s, steps)
    ensures Run(s, steps).config == s.config
    decreases |steps|
  {
    if steps != [] {
      RunConfig(Next(s, steps[0]), steps[1..]);
    }
  }

  lemma {:induction false} ReachableInv(config: Config, s: State)
    requires Reachable(config, s)
    ensures Inv(s) && s.config == config
  {
    var steps :| Legal(Initial(config), steps) && s == Run(Initial(config), steps);
    InitialInv(config);
    RunKeeps(Initial(config), steps);
    RunConfig(Initial(config), steps);
  }

  ghost predicate LiveWithId(s: State, t: nat, id: string) {
    t < |s.actives| && Live(LedgerOf(s), t) && s.actives[t].job.id == id
  }

  // Permits held, ids registered, and jobs in the queue or in workers are one number; the registered
  // ids are exactly the ids of those jobs.
  lemma PermitsAreJobs(config: Config, s: State)
    requires Reachable(config, s)
    ensures config.Capacity() - s.free == |s.jobs| == |s.queue| + Working(LedgerOf(s).holds)
    ensures forall id :: id in s.jobs <==> exists t: nat :: LiveWithId(s, t, id)
    ensures forall t: nat, u: nat, id :: LiveWithId(s, t, id) && LiveWithId(s, u, id) ==> t == u
  {
    ReachableInv(config, s);
    var l := LedgerOf(s);
    forall id ensures id in s.jobs <==> exists t: nat :: LiveWithId(s, t, id) {
      if id in s.jobs {
        var t: nat :| Live(l, t) && l.ids[t] == id;
        assert LiveWithId(s, t, id);
      }
      if t: nat :| LiveWithId(s, t, id) {
        assert l.ids[t] in l.jobs;
      }
    }
    forall t: nat, u: nat, id | LiveWithId(s, t, id) && LiveWithId(s, u, id) ensures t == u {
      assert l.ids[t] == l.ids[u];
    }
  }

  // The answer to a submission, from what a caller can know: the job, shutdown, and the live jobs.
  // The channel plays no part: a job with a permit always finds room in it and an open receiver.
  lemma AdmissionExact(config: Config, s: State, job: Job)
    requires Reachable(config, s) && config.concurrency > 0
    ensures var valid := Validate(job).None?;
            var taken := exists t: nat :: LiveWithId(s, t, job.id);
            var busy := |s.queue| + Working(LedgerOf(s).holds) == config.Capacity();
            var response := Admission(s, job);
            && (response.BadRequest? <==> !valid)
            && (response.Unavailable? <==> valid && s.cancelled)
            && (response.Conflict? <==> valid && !s.cancelled && taken)
            && (response.Busy? <==> valid && !s.cancelled && !taken && busy)
            && (response.Accepted? <==> valid && !s.cancelled && !taken && !busy)
  {
    ReachableInv(config, s);
    PermitsAreJobs(config, s);
    assert job.id in s.jobs <==> exists t: nat :: LiveWithId(s, t, job.id);
    if !s.cancelled && s.free > 0 {
      ChannelNeverRefuses(s);
    }
  }

  // The order of the states: a job is queued, downloading, encoding, uploading, and then one of the last two.
  lemma StateOrder(p: Phase, q: Phase)
    ensures p.Rank() <= q.Rank() <==>
            || p == q || p == Queued || q in {Succeeded, Failed}
            || (p == Downloading && q in {Encoding, Uploading}) || (p == Encoding && q == Uploading)
  {
  }

  // The events of one job, of any reachable state.
  lemma EventsOrdered(config: Config, s: State, t: nat)
    requires Reachable(config, s) && t < |s.actives|
    ensures var events := s.actives[t].events;
            && (forall i | 0 <= i < |events| :: events[i].sequence == i)
            && (forall i, j | 0 <= i < j < |events| :: events[i].state.Rank() <= events[j].state.Rank())
            && (forall i | 0 <= i < |events| ::
                  events[i].terminal <==> events[i].state.Succeeded? || events[i].state.Failed?)
            && (forall i | 0 <= i < |events| && events[i].terminal :: i == |events| - 1)
  {
    ReachableInv(config, s);
    var a := s.actives[t];
    TracedEverywhere(s, t);
    forall i | 0 <= i < |a.events|
      ensures a.events[i].sequence == i && (a.events[i].terminal <==> a.events[i].state.Final())
      ensures a.events[i].terminal ==> i == |a.events| - 1
    {
      assert EventFits(a, i);
    }
  }

  lemma TracedEverywhere(s: State, t: nat)
    requires Inv(s) && t < |s.actives|
    ensures Traced(s.actives[t])
    ensures s.actives[t].phase.Final() ==> Concluded(s.config, s.actives[t])
  {
    var l := LedgerOf(s);
    if Some(t) in l.holds {
      var w :| 0 <= w < |l.holds| && l.holds[w] == Some(t);
      assert SlotOk(s, w);
    }
  }

  lemma TerminalTruth(c: Config, a: Active, i: nat)
    requires Traced(a) && (a.phase.Final() ==> Concluded(c, a))
    requires i < |a.events| && a.events[i].terminal
    ensures a.events[i] == Event(i, a.phase, true, Some(a.outcome)) && Concluded(c, a)
  {
    assert EventFits(a, i);
  }

  // A terminal event tells the truth: success, no error, and a stored receipt with a 2xx status are
  // the same thing, and imply exit code 0 and an output within the limit.
  lemma OutcomeExact(config: Config, s: State, t: nat, i: nat)
    requires Reachable(config, s) && t < |s.actives| && i < |s.actives[t].events|
    requires s.actives[t].events[i].terminal
    ensures var event := s.actives[t].events[i];
            && event.result == Some(s.actives[t].outcome)
            && (event.state.Succeeded? <==> event.result.value.error.None?)
            && (event.state.Succeeded? <==> event.result.value.Delivered())
            && (event.state.Succeeded? ==>
                  && event.result.value.exitCode == Some(0)
                  && s.actives[t].size.Some? && 0 < s.actives[t].size.value < config.maxOutput)
  {
    ReachableInv(config, s);
    TracedEverywhere(s, t);
    TerminalTruth(config, s.actives[t], i);
  }

  // ---- what later steps leave alone

  ghost predicate Extends(a: Active, b: Active) {
    && a.events <= b.events
    && a.phase.Rank() <= b.phase.Rank()
    && (a.phase.Final() ==> a == b)
  }

  lemma ExecuteExtends(c: Config, a: Active, stage: Stage, observation: Observation)
    requires AtStage(c, a, stage) && Suits(stage, observation)
    ensures Extends(a, Execute(c, a, stage, observation).0)
    ensures Extends(a, Abort(Execute(c, a, stage, observation).0))
  {
    assert a.phase.Rank() <= Execute(c, a, stage, observation).0.phase.Rank();
  }

  lemma UnfinishedInWorker(s: State, w: nat)
    requires Inv(s) && w < |s.workers| && (s.workers[w].Serving? || s.workers[w].Joining?)
    ensures s.workers[w].ticket < |s.actives| && !s.actives[s.workers[w].ticket].phase.Final()
    ensures s.workers[w].Serving? ==> AtStage(s.config, s.actives[s.workers[w].ticket], s.workers[w].stage)
  {
    assert SlotOk(s, w);
  }

  lemma InterruptExtends(s: State, w: nat, reason: Reason)
    requires Inv(s) && Enabled(s, Interrupt(w, reason))
    ensures Extends(s.actives[s.workers[w].ticket], Next(s, Interrupt(w, reason)).actives[s.workers[w].ticket])
  {
    UnfinishedInWorker(s, w);
  }

  lemma AdvanceExtends(s: State, w: nat, observation: Observation)
    requires Inv(s) && Enabled(s, Advance(w, observation))
    ensures Extends(s.actives[s.workers[w].ticket], Next(s, Advance(w, observation)).actives[s.workers[w].ticket])
  {
    UnfinishedInWorker(s, w);
    ExecuteExtends(s.config, s.actives[s.workers[w].ticket], s.workers[w].stage, observation);
  }

  lemma ConcludeExtends(s: State, w: nat)
    requires Inv(s) && Enabled(s, Conclude(w))
    ensures Extends(s.actives[s.workers[w].ticket], Next(s, Conclude(w)).actives[s.workers[w].ticket])
  {
    UnfinishedInWorker(s, w);
  }

  lemma BeatExtends(s: State, step: Step)
    requires Inv(s) && Enabled(s, step) && (step.Beat? || step.BeatEnds?)
    ensures Extends(s.actives[step.ticket], Next(s, step).actives[step.ticket])
  {
    TracedEverywhere(s, step.ticket);
    hide Inv, Traced, Admit;
  }

  // The job that a step is about, if it changes one.
  function Subject(s: State, step: Step): Option<nat>
    requires Enabled(s, step)
  {
    match step
    case Beat(t) => Some(t)
    case BeatEnds(t) => Some(t)
    case Interrupt(w, _) => Some(s.workers[w].ticket)
    case Advance(w, _) => Some(s.workers[w].ticket)
    case Conclude(w) => Some(s.workers[w].ticket)
    case _ => None
  }

  lemma OthersUntouched(s: State, step: Step, t: nat)
    requires Enabled(s, step) && t < |s.actives|
    ensures t < |Next(s, step).actives|
    ensures Subject(s, step) != Some(t) ==> Next(s, step).actives[t] == s.actives[t]
  {
    hide Execute, Emit, Finish, Abort, Admission, NewActive;
  }

  lemma StepExtends(s: State, step: Step, t: nat)
    requires Inv(s) && Enabled(s, step) && t < |s.actives|
    ensures t < |Next(s, step).actives|
    ensures Extends(s.actives[t], Next(s, step).actives[t])
  {
    OthersUntouched(s, step, t);
    if Subject(s, step) == Some(t) {
      hide Inv, Next, Enabled, Extends;
      match step
      case Interrupt(w, reason) => InterruptExtends(s, w, reason);
      case Advance(w, observation) => AdvanceExtends(s, w, observation);
      case Conclude(w) => ConcludeExtends(s, w);
      case _ => BeatExtends(s, step);
    } else {
      hide Next, Enabled;
    }
  }

  // Over every run a job only gains events, its phase only moves forward, and after the terminal
  // event nothing about the job changes any more.
  lemma {:induction false} RunExtends(s: State, steps: seq<Step>, t: nat)
    requires Inv(s) && Legal(s, steps) && t < |s.actives|
    ensures t < |Run(s, steps).actives|
    ensures Extends(s.actives[t], Run(s, steps).actives[t])
    decreases |steps|
  {
    if steps != [] {
      StepExtends(s, steps[0], t);
      StepKeeps(s, steps[0]);
      RunExtends(Next(s, steps[0]), steps[1..], t);
    }
  }
}
