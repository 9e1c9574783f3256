// What every reachable state of the job protocol satisfies: the invariant, kept by every step.
module Safety {
  import opened Basics
  import opened JobModel
  import opened Retrying
  import opened Protocol
  import opened Accounts

  // ---- one job

  // Sequences count up from 0, the phase never goes back, and a terminal event is the last one.
  ghost predicate Traced(a: Active) {
    && a.sequence == |a.events|
    && (forall i | 0 <= i < |a.events| :: EventFits(a, i))
    && (forall i, j | 0 <= i < j < |a.events| :: a.events[i].state.Rank() <= a.events[j].state.Rank())
  }

  ghost predicate EventFits(a: Active, i: nat)
    requires i < |a.events|
  {
    var e := a.events[i];
    && e.sequence == i
    && e.state.Rank() <= a.phase.Rank()
    && (e.terminal <==> e.state.Final())
    && (e.terminal <==> e.result.Some?)
    && (e.terminal ==> i == |a.events| - 1)
  }

  ghost predicate Ongoing(a: Active) {
    && Traced(a) && !a.phase.Final() && a.outcome.error.None? && HasAttempts(a.job)
    && forall i | 0 <= i < |a.events| :: !a.events[i].terminal
  }

  // FFmpeg exited with code 0 and left an output of a permitted size.
  ghost predicate Encoded(c: Config, a: Active) {
    a.outcome.exitCode == Some(0) && a.size.Some? && 0 < a.size.value < c.maxOutput
  }

  ghost predicate AtStage(c: Config, a: Active, stage: Stage) {
    match stage
    case Preparing => a.phase == Queued
    case Fetching(n) => a.phase == Downloading && n < Attempts(a.job.input.retry, 1)
    case Transcoding => a.phase == Encoding
    case Measuring => a.phase == Encoding && a.outcome.exitCode == Some(0)
    case Sending(n) => a.phase == Uploading && Encoded(c, a) && n < Attempts(a.job.output.retry, 1)
  }

  ghost predicate Served(c: Config, a: Active, stage: Stage) {
    Ongoing(a) && !a.heartbeat.Aborting? && !a.outcome.Delivered() && AtStage(c, a, stage)
  }

  ghost predicate Joined(c: Config, a: Active, error: Option<string>) {
    && Ongoing(a) && !a.heartbeat.Beating?
    && (error.None? <==> a.outcome.Delivered()) && (error.None? ==> Encoded(c, a))
  }

  // The terminal event has been made, and it says what the outcome is.
  ghost predicate Concluded(c: Config, a: Active) {
    && Traced(a) && a.phase.Final() && a.heartbeat.Stopped?
    && |a.events| > 0
    && a.events[|a.events| - 1] == Event(|a.events| - 1, a.phase, true, Some(a.outcome))
    && (a.phase.Succeeded? <==> a.outcome.error.None?)
    && (a.phase.Succeeded? <==> a.outcome.Delivered())
    && (a.phase.Succeeded? ==> Encoded(c, a))
  }

  ghost predicate Fits(c: Config, a: Active, slot: Slot)
    requires slot.Occupied()
  {
    match slot
    case Serving(_, stage) => Served(c, a, stage)
    case Joining(_, error) => Joined(c, a, error)
    case _ => Concluded(c, a)
  }

  lemma EmitTraced(a: Active, terminal: bool)
    requires Traced(a) && (terminal <==> a.phase.Final())
    requires forall i | 0 <= i < |a.events| :: !a.events[i].terminal
    ensures Traced(Emit(a, terminal))
  {
    var e := Emit(a, terminal);
    forall i | 0 <= i < |e.events| ensures EventFits(e, i) {
      assert i < |a.events| ==> EventFits(a, i);
    }
    forall i, j | 0 <= i < j < |e.events| ensures e.events[i].state.Rank() <= e.events[j].state.Rank() {
      assert EventFits(a, i);
    }
  }

  // The phase moves on without an event: the events so far still fit.
  lemma RetraceTraced(a: Active, b: Active)
    requires Traced(a) && b.events == a.events && b.sequence == a.sequence && a.phase.Rank() <= b.phase.Rank()
    ensures Traced(b)
  {
    forall i | 0 <= i < |b.events| ensures EventFits(b, i) {
      assert EventFits(a, i);
    }
  }

  // execute makes no event and only moves the phase forward.
  lemma ExecuteOngoing(c: Config, a: Active, stage: Stage, observation: Observation)
    requires Served(c, a, stage) && Suits(stage, observation)
    ensures var b := Execute(c, a, stage, observation).0;
            b.job == a.job && b.heartbeat == a.heartbeat && Ongoing(b) && Ongoing(Abort(b))
  {
    var b := Execute(c, a, stage, observation).0;
    assert a.phase.Rank() <= b.phase.Rank();
    RetraceTraced(a, b);
    RetraceTraced(a, Abort(b));
  }

  // A retried transfer has an attempt left.
  lemma FailureFits(retry: Option<Retry>, failures: nat, again: Stage, message: string, retryable: bool)
    requires failures < Attempts(retry, 1)
    ensures var progress := AfterFailure(retry, failures, again, message, retryable);
            if progress.Continue? then progress.stage == again && failures + 1 < Attempts(retry, 1)
            else progress.error.Some?
  {
  }

  // How an observation ends one attempt of a transfer.
  function VerdictOf(observation: Observation): Verdict
    requires observation.Fetched? || observation.SendFailed? || observation.SendAnswered?
  {
    match observation
    case Fetched(result) => result.Verdict()
    case SendFailed(_, retryable) => if retryable then Transient else Permanent
    case SendAnswered(receipt) =>
      if IsSuccess(receipt.status) then Success
      else if RetryStatus(receipt.status) then Transient
      else Permanent
    case _ => assert false; Permanent
  }

  // The stages of a transfer are its retry loop: after that many transient attempts the transfer goes
  // on with one more exactly if this attempt is not the last call of the loop's specification.
  lemma TransferFollowsLoop(c: Config, a: Active, stage: Stage, observation: Observation, outcomes: nat -> Verdict)
    requires Served(c, a, stage) && Suits(stage, observation) && (stage.Fetching? || stage.Sending?)
    requires forall i: nat | i < stage.failures :: outcomes(i) == Transient
    requires outcomes(stage.failures) == VerdictOf(observation)
    ensures var n := stage.failures;
            var attempts := Attempts(if stage.Fetching? then a.job.input.retry else a.job.output.retry, 1);
            var again := if stage.Fetching? then Fetching(n + 1) else Sending(n + 1);
            var progress := Execute(c, a, stage, observation).1;
            && (progress == Continue(again) <==> !LastCall(outcomes, attempts, n))
            && (progress != Continue(again) ==>
                  (outcomes(n) == Success <==>
                   progress == if stage.Fetching? then Continue(Transcoding) else Finished(None)))
  {
  }

  lemma ExecuteFits(c: Config, a: Active, stage: Stage, observation: Observation)
    requires Served(c, a, stage) && Suits(stage, observation)
    ensures var (b, progress) := Execute(c, a, stage, observation);
            match progress
            case Continue(next) => Served(c, b, next)
            case Finished(error) => Joined(c, Abort(b), error)
  {
    ExecuteOngoing(c, a, stage, observation);
    match observation
    case Fetched(Refused(message, retryable)) =>
      FailureFits(a.job.input.retry, stage.failures, Fetching(stage.failures + 1), message, retryable);
    case SendFailed(message, retryable) =>
      FailureFits(a.job.output.retry, stage.failures, Sending(stage.failures + 1), message, retryable);
    case SendAnswered(receipt) =>
      FailureFits(a.job.output.retry, stage.failures, Sending(stage.failures + 1),
                  PUT_REFUSED, RetryStatus(receipt.status));
    case _ =>
  }

  lemma InterruptFits(c: Config, a: Active, stage: Stage, message: string)
    requires Served(c, a, stage)
    ensures Joined(c, Abort(a), Some(message))
  {
    RetraceTraced(a, Abort(a));
  }

  lemma FinishFits(c: Config, a: Active, error: Option<string>)
    requires Joined(c, a, error) && a.heartbeat.Stopped?
    ensures Concluded(c, Finish(a, error))
  {
    var b := a.(phase := if error.None? then Succeeded else Failed, outcome := a.outcome.(error := error));
    RetraceTraced(a, b);
    EmitTraced(b, true);
  }

  lemma HeartbeatFits(c: Config, a: Active, b: Active, slot: Slot)
    requires slot.Occupied() && Fits(c, a, slot) && !a.heartbeat.Stopped?
    requires b == Emit(a, false) || b == a.(heartbeat := Stopped)
    ensures Fits(c, b, slot)
  {
    if b == Emit(a, false) {
      EmitTraced(a, false);
    } else {
      RetraceTraced(a, b);
    }
  }

  // ---- all jobs

  ghost predicate SlotOk(s: State, w: nat)
    requires w < |s.workers|
  {
    s.workers[w].Occupied() ==>
      s.workers[w].ticket < |s.actives| && Fits(s.config, s.actives[s.workers[w].ticket], s.workers[w])
  }

  // Queued jobs wait as if served at the first stage; jobs that are not live have been concluded.
  ghost predicate Staged(s: State) {
    && (forall w | 0 <= w < |s.workers| :: SlotOk(s, w))
    && (forall t: nat | InQueue(LedgerOf(s), t) :: Served(s.config, s.actives[t], Preparing))
    && (forall t: nat | t < |s.actives| && !Live(LedgerOf(s), t) :: Concluded(s.config, s.actives[t]))
  }

  ghost predicate Inv(s: State) { Accounted(s) && Staged(s) }

  lemma InitialInv(config: Config)
    ensures Inv(Initial(config))
  {
    InitialBalanced(config);
  }

  lemma NewServed(config: Config, job: Job)
    requires Validate(job).None?
    ensures Served(config, NewActive(job), Preparing)
  {
    ValidJobHasAttempts(job);
  }

  lemma EnqueueKeepsStaged(s: State, job: Job)
    requires Inv(s) && !s.cancelled && job.id !in s.jobs && s.free > 0
    requires Served(s.config, NewActive(job), Preparing)
    ensures Staged(Enqueue(s, job))
  {
    var s' := Enqueue(s, job);
    EnqueueAccounted(s, job);
    var l, l' := LedgerOf(s), LedgerOf(s');
    var n := |s.actives|;
    assert l'.holds == l.holds;
    forall w | 0 <= w < |s'.workers| ensures SlotOk(s', w) {
      assert SlotOk(s, w);
    }
    forall t: nat | InQueue(l', t) ensures Served(s'.config, s'.actives[t], Preparing) {
      assert t == n || InQueue(l, t);
    }
    forall t: nat | t < |s'.actives| && !Live(l', t) ensures Concluded(s'.config, s'.actives[t]) {
      assert t < n && !Live(l, t);
    }
  }

  lemma SubmitKeeps(s: State, job: Job)
    requires Inv(s)
    ensures Staged(Next(s, Submit(job)))
  {
    if Admission(s, job).Accepted? {
      NewServed(s.config, job);
      EnqueueKeepsStaged(s, job);
    }
  }

  // Where a ticket is: distinct workers hold distinct tickets, none of them queued.
  lemma TicketAlone(s: State, w: nat)
    requires Accounted(s) && w < |s.workers| && s.workers[w].Occupied()
    ensures Live(LedgerOf(s), s.workers[w].ticket) && !InQueue(LedgerOf(s), s.workers[w].ticket)
    ensures forall v | 0 <= v < |s.workers| && v != w && s.workers[v].Occupied() ::
              s.workers[v].ticket != s.workers[w].ticket
  {
    var l := LedgerOf(s);
    assert l.holds[w] in l.holds;
    forall v | 0 <= v < |s.workers| && v != w && s.workers[v].Occupied()
      ensures s.workers[v].ticket != s.workers[w].ticket
    {
      assert l.holds[v] != l.holds[w];
    }
  }

  // A worker's step on its own job.
  lemma UpdateKeeps(s: State, w: nat, slot: Slot, a: Active)
    requires Inv(s) && w < |s.workers| && s.workers[w].Occupied() && slot.Occupied()
    requires slot.ticket == s.workers[w].ticket < |s.actives|
    requires LedgerOf(Update(s, w, slot, slot.ticket, a)) == LedgerOf(s)
    requires Fits(s.config, a, slot)
    ensures Staged(Update(s, w, slot, slot.ticket, a))
  {
    var s' := Update(s, w, slot, slot.ticket, a);
    TicketAlone(s, w);
    forall v | 0 <= v < |s'.workers| ensures SlotOk(s', v) {
      assert SlotOk(s, v);
    }
  }

  lemma AdvanceKeeps(s: State, w: nat, observation: Observation)
    requires Inv(s) && Enabled(s, Advance(w, observation))
    ensures Staged(Next(s, Advance(w, observation)))
  {
    assert SlotOk(s, w);
    var t, stage := s.workers[w].ticket, s.workers[w].stage;
    QuietAccounted(s, Advance(w, observation));
    hide Inv, Staged, Served, Joined, Concluded, LedgerOf, Execute;
    ExecuteFits(s.config, s.actives[t], stage, observation);
    var (b, progress) := Execute(s.config, s.actives[t], stage, observation);
    if progress.Continue? {
      UpdateKeeps(s, w, Serving(t, progress.stage), b);
    } else {
      UpdateKeeps(s, w, Joining(t, progress.error), Abort(b));
    }
  }

  lemma WorkerKeeps(s: State, step: Step)
    requires Inv(s) && Enabled(s, step) && (step.Interrupt? || step.Conclude?)
    ensures Staged(Next(s, step))
  {
    var w := step.worker;
    assert SlotOk(s, w);
    var t := s.workers[w].ticket;
    QuietAccounted(s, step);
    hide Inv, Staged, Served, Joined, Concluded, LedgerOf, Finish;
    match step
    case Interrupt(_, reason) =>
      InterruptFits(s.config, s.actives[t], s.workers[w].stage, Message(reason));
      UpdateKeeps(s, w, Joining(t, Some(Message(reason))), Abort(s.actives[t]));
    case Conclude(_) =>
      FinishFits(s.config, s.actives[t], s.workers[w].error);
      UpdateKeeps(s, w, Reporting(t), Finish(s.actives[t], s.workers[w].error));
  }

  // A change to one live job that fits wherever the job fitted.
  lemma ActiveKeeps(s: State, t: nat, b: Active)
    requires Inv(s) && t < |s.actives| && Live(LedgerOf(s), t)
    requires LedgerOf(s.(actives := s.actives[t := b])) == LedgerOf(s)
    requires forall slot: Slot | slot.Occupied() && Fits(s.config, s.actives[t], slot) :: Fits(s.config, b, slot)
    ensures Staged(s.(actives := s.actives[t := b]))
  {
    var s' := s.(actives := s.actives[t := b]);
    forall w | 0 <= w < |s'.workers| ensures SlotOk(s', w) {
      assert SlotOk(s, w);
    }
    if InQueue(LedgerOf(s), t) {
      assert Fits(s.config, s.actives[t], Serving(t, Preparing));
      assert Fits(s.config, b, Serving(t, Preparing));
    }
  }

  lemma HeartbeatKeeps(s: State, step: Step)
    requires Inv(s) && Enabled(s, step) && (step.Beat? || step.BeatEnds?)
    ensures Staged(Next(s, step))
  {
    var t := step.ticket;
    QuietAccounted(s, step);
    assert Live(LedgerOf(s), t);
    hide Inv, Staged, Live, LedgerOf, Fits, Emit;
    var b := Next(s, step).actives[t];
    forall slot: Slot | slot.Occupied() && Fits(s.config, s.actives[t], slot) ensures Fits(s.config, b, slot) {
      HeartbeatFits(s.config, s.actives[t], b, slot);
    }
    ActiveKeeps(s, t, b);
  }

  // A step that changes one slot and no job, and moves jobs only out of the queue.
  lemma SlotKeeps(s: State, s': State, w: nat)
    requires Staged(s) && w < |s.workers| && s'.config == s.config && s'.actives == s.actives
    requires |s'.workers| == |s.workers| && s'.workers == s.workers[w := s'.workers[w]] && SlotOk(s', w)
    requires forall t: nat | InQueue(LedgerOf(s'), t) :: InQueue(LedgerOf(s), t)
    requires forall t: nat | t < |s.actives| && !Live(LedgerOf(s'), t) ::
               !Live(LedgerOf(s), t) || Concluded(s.config, s.actives[t])
    ensures Staged(s')
  {
    forall v | 0 <= v < |s'.workers| ensures SlotOk(s', v) {
      assert SlotOk(s, v);
    }
  }

  lemma TakeKeeps(s: State, w: nat)
    requires Inv(s) && Enabled(s, Take(w))
    ensures Staged(Next(s, Take(w)))
  {
    TakeAccounted(s, w);
    assert InQueue(LedgerOf(s), s.queue[0]);
    SlotKeeps(s, Next(s, Take(w)), w);
  }

  lemma LeaveKeeps(s: State, step: Step)
    requires Inv(s) && Enabled(s, step) && (step.Cancel? || step.Leave?)
    ensures Staged(Next(s, step))
  {
    var s' := Next(s, step);
    QuietAccounted(s, step);
    forall v | 0 <= v < |s'.workers| ensures SlotOk(s', v) {
      assert SlotOk(s, v);
    }
  }

  lemma RetireKeeps(s: State, w: nat)
    requires Inv(s) && Enabled(s, Retire(w))
    ensures Staged(Next(s, Retire(w)))
  {
    RetireAccounted(s, w);
    assert SlotOk(s, w);
    SlotKeeps(s, Next(s, Retire(w)), w);
  }

  lemma StepKeeps(s: State, step: Step)
    requires Inv(s) && Enabled(s, step)
    ensures Inv(Next(s, step))
  {
    StepAccounted(s, step);
    match step
    case Submit(job) => SubmitKeeps(s, job);
    case Cancel => LeaveKeeps(s, step);
    case Beat(_) => HeartbeatKeeps(s, step);
    case BeatEnds(_) => HeartbeatKeeps(s, step);
    case Take(w) => TakeKeeps(s, w);
    case Leave(_) => LeaveKeeps(s, step);
    case Retire(w) => RetireKeeps(s, w);
    case Advance(w, observation) => AdvanceKeeps(s, w, observation);
    case _ => WorkerKeeps(s, step);
  }

  lemma {:induction false} RunKeeps(s: State, steps: seq<Step>)
    requires Inv(s) && Legal(s, steps)
    ensures Inv(Run(s, steps))
    decreases |steps|
  {
    if steps != [] {
      StepKeeps(s, steps[0]);
      RunKeeps(Next(s, steps[0]), steps[1..]);
    }
  }
}
