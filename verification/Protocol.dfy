// The job protocol of the agent as a step system: admission (agent/src/main.rs), the workers, the
// heartbeats and their events (agent/src/engine.rs). The runtime has one thread, so the code between
// two awaits is one step. Each accepted job has a ticket, its number in the order of acceptance.
module Protocol {
  import opened Basics
  import opened Capture
  import opened JobModel
  import opened Retrying

  datatype Config = Config(concurrency: nat, queue: nat, jobTimeout: nat, maxOutput: nat) {
    function Capacity(): nat { concurrency + queue }
  }

  datatype Phase = Queued | Downloading | Encoding | Uploading | Succeeded | Failed {
    predicate Final() { Succeeded? || Failed? }

    function Rank(): nat {
      match this
      case Queued => 0
      case Downloading => 1
      case Encoding => 2
      case Uploading => 3
      case Succeeded => 4
      case Failed => 4
    }
  }

  datatype Outcome = Outcome(error: Option<string>, exitCode: Option<int>, upload: Option<Receipt>) {
    predicate Delivered() { upload.Some? && IsSuccess(upload.value.status) }
  }

  datatype Event = Event(sequence: nat, state: Phase, terminal: bool, result: Option<Outcome>)

  // Aborting: abort() was called, but the task still finishes the poll it is in.
  datatype Heartbeat = Beating | Aborting | Stopped

  // One accepted job with its progress. `size` is the local variable of execute; `events` is every
  // event made for the job, in the order in which notify made them.
  datatype Active = Active(job: Job, phase: Phase, outcome: Outcome, sequence: nat,
                           heartbeat: Heartbeat, size: Option<nat>, events: seq<Event>)

  // Where execute is awaiting; the transfers count the attempts that failed.
  datatype Stage = Preparing | Fetching(failures: nat) | Transcoding | Measuring | Sending(failures: nat)

  datatype Slot =
    | Idle
    | Serving(ticket: nat, stage: Stage)           // in the select of worker
    | Joining(ticket: nat, error: Option<string>)  // awaiting the aborted heartbeat
    | Reporting(ticket: nat)                       // awaiting the terminal callback
    | Exited
  {
    predicate Occupied() { Serving? || Joining? || Reporting? }
  }

  datatype State = State(config: Config, cancelled: bool, jobs: set<string>, free: nat,
                         queue: seq<nat>, workers: seq<Slot>, actives: seq<Active>)

  // What execute learns from the world at its next await.
  datatype Observation =
    | Directory(created: bool)
    | Fetched(result: Attempt)
    | ProcessFailed(message: string)
    | ProcessExited(code: Option<int>)
    | Output(size: Option<nat>)
    | SendFailed(message: string, retryable: bool)  // no receipt was stored
    | SendAnswered(receipt: Receipt)

  datatype Reason = Shutdown | Deadline | Stall

  datatype Step =
    | Submit(job: Job)
    | Cancel
    | Beat(ticket: nat)
    | BeatEnds(ticket: nat)
    | Take(worker: nat)
    | Leave(worker: nat)
    | Interrupt(worker: nat, reason: Reason)
    | Advance(worker: nat, observation: Observation)
    | Conclude(worker: nat)
    | Retire(worker: nat)

  datatype Response = Accepted(id: string) | BadRequest(message: string) | Conflict | Busy | Unavailable

  function Initial(config: Config): State {
    State(config, false, {}, config.Capacity(), [], seq(config.concurrency, i => Idle), [])
  }

  // ---- admission

  function NewActive(job: Job): Active {
    Active(job, Queued, Outcome(None, None, None), 0, Beating, None, [])
  }

  // try_send fails on a full channel, and on a closed one: the workers own the receiver.
  predicate ChannelAccepts(s: State) {
    && |s.queue| < s.config.Capacity()
    && exists w | 0 <= w < |s.workers| :: !s.workers[w].Exited?
  }

  function Admission(s: State, job: Job): Response {
    if Validate(job).Some? then BadRequest(Validate(job).value)
    else if s.cancelled then Unavailable
    else if job.id in s.jobs then Conflict
    else if s.free == 0 then Busy
    else if !ChannelAccepts(s) then Unavailable
    else Accepted(job.id)
  }

  // The id, the permit and the job change hands together.
  function Enqueue(s: State, job: Job): State
    requires s.free > 0
  {
    s.(jobs := s.jobs + {job.id}, free := s.free - 1,
       queue := s.queue + [|s.actives|], actives := s.actives + [NewActive(job)])
  }

  function Admit(s: State, job: Job): State {
    if Admission(s, job).Accepted? then Enqueue(s, job) else s
  }

  // ---- events

  // notify: the sequence is taken and the body is built without an await in between.
  function Emit(a: Active, terminal: bool): Active {
    a.(sequence := a.sequence + 1,
       events := a.events + [Event(a.sequence, a.phase, terminal, if terminal then Some(a.outcome) else None)])
  }

  function Abort(a: Active): Active {
    a.(heartbeat := if a.heartbeat.Stopped? then Stopped else Aborting)
  }

  function Finish(a: Active, error: Option<string>): Active {
    Emit(a.(phase := if error.None? then Succeeded else Failed, outcome := a.outcome.(error := error)), true)
  }

  // ---- execution

  const NO_DIRECTORY := "cannot create job directory"
  const BAD_EXIT := "FFmpeg exited unsuccessfully"
  const NO_OUTPUT := "FFmpeg produced no output"
  const BAD_SIZE := "output is empty or reached byte limit"
  const PUT_REFUSED := "output PUT returned non-success status"
  const SHUTTING_DOWN := "agent shutting down"
  const DEADLINE_EXCEEDED := "job deadline exceeded"
  const STALLED := "job progress stalled"

  datatype Progress = Continue(stage: Stage) | Finished(error: Option<string>)

  predicate Suits(stage: Stage, observation: Observation) {
    match stage
    case Preparing => observation.Directory?
    case Fetching(_) => observation.Fetched?
    case Transcoding => observation.ProcessFailed? || observation.ProcessExited?
    case Measuring => observation.Output?
    case Sending(_) => observation.SendFailed? || observation.SendAnswered?
  }

  // After a failed transfer attempt: the retry loop goes on or the job fails.
  function AfterFailure(retry: Option<Retry>, failures: nat, again: Stage, message: string, retryable: bool): Progress {
    if !retryable || failures + 1 == Attempts(retry, 1) then Finished(Some(message)) else Continue(again)
  }

  function Execute(config: Config, a: Active, stage: Stage, observation: Observation): (Active, Progress)
    requires Suits(stage, observation)
  {
    match observation
    case Directory(created) =>
      if created then (a.(phase := Downloading), Continue(Fetching(0)))
      else (a, Finished(Some(NO_DIRECTORY)))
    case Fetched(Done) => (a.(phase := Encoding), Continue(Transcoding))
    case Fetched(Refused(message, retryable)) =>
      (a, AfterFailure(a.job.input.retry, stage.failures, Fetching(stage.failures + 1), message, retryable))
    case ProcessFailed(message) => (a, Finished(Some(message)))
    case ProcessExited(code) =>
      (a.(outcome := a.outcome.(exitCode := code)),
       if code == Some(0) then Continue(Measuring) else Finished(Some(BAD_EXIT)))
    case Output(None) => (a, Finished(Some(NO_OUTPUT)))
    case Output(Some(size)) =>
      if size == 0 || size >= config.maxOutput then (a, Finished(Some(BAD_SIZE)))
      else (a.(phase := Uploading, size := Some(size)), Continue(Sending(0)))
    case SendFailed(message, retryable) =>
      (a, AfterFailure(a.job.output.retry, stage.failures, Sending(stage.failures + 1), message, retryable))
    case SendAnswered(receipt) =>
      var stored := a.(outcome := a.outcome.(upload := Some(receipt)));
      if IsSuccess(receipt.status) then (stored, Finished(None))
      else (stored, AfterFailure(a.job.output.retry, stage.failures, Sending(stage.failures + 1),
                                 PUT_REFUSED, RetryStatus(receipt.status)))
  }

  function Message(reason: Reason): string {
    match reason
    case Shutdown => SHUTTING_DOWN
    case Deadline => DEADLINE_EXCEEDED
    case Stall => STALLED
  }

  // ---- the step relation

  predicate Enabled(s: State, step: Step) {
    match step
    case Submit(_) => true
    case Cancel => true
    case Beat(t) => t < |s.actives| && !s.actives[t].heartbeat.Stopped?
    case BeatEnds(t) =>
      && t < |s.actives|
      && (s.actives[t].heartbeat.Aborting? || (s.actives[t].heartbeat.Beating? && s.cancelled))
    case Take(w) => w < |s.workers| && s.workers[w].Idle? && s.queue != [] && s.queue[0] < |s.actives|
    case Leave(w) => w < |s.workers| && s.workers[w].Idle? && s.queue == [] && s.cancelled
    case Interrupt(w, reason) =>
      // the select is biased: cancellation is polled first, the other branches only without it
      && w < |s.workers| && s.workers[w].Serving? && s.workers[w].ticket < |s.actives|
      && (reason.Shutdown? <==> s.cancelled)
      && (reason.Deadline? ==> s.config.jobTimeout > 0)
    case Advance(w, observation) =>
      && w < |s.workers| && s.workers[w].Serving? && s.workers[w].ticket < |s.actives|
      && !s.cancelled && Suits(s.workers[w].stage, observation)
    case Conclude(w) =>
      && w < |s.workers| && s.workers[w].Joining? && s.workers[w].ticket < |s.actives|
      && s.actives[s.workers[w].ticket].heartbeat.Stopped?
    case Retire(w) =>
      && w < |s.workers| && s.workers[w].Reporting? && s.workers[w].ticket < |s.actives|
  }

  function Update(s: State, w: nat, slot: Slot, t: nat, a: Active): State
    requires w < |s.workers| && t < |s.actives|
  {
    s.(workers := s.workers[w := slot], actives := s.actives[t := a])
  }

  function Next(s: State, step: Step): State
    requires Enabled(s, step)
  {
    match step
    case Submit(job) => Admit(s, job)
    case Cancel => s.(cancelled := true)
    case Beat(t) => s.(actives := s.actives[t := Emit(s.actives[t], false)])
    case BeatEnds(t) => s.(actives := s.actives[t := s.actives[t].(heartbeat := Stopped)])
    case Take(w) => s.(queue := s.queue[1..], workers := s.workers[w := Serving(s.queue[0], Preparing)])
    case Leave(w) => s.(workers := s.workers[w := Exited])
    case Interrupt(w, reason) =>
      var t := s.workers[w].ticket;
      Update(s, w, Joining(t, Some(Message(reason))), t, Abort(s.actives[t]))
    case Advance(w, observation) =>
      var t := s.workers[w].ticket;
      var (a, progress) := Execute(s.config, s.actives[t], s.workers[w].stage, observation);
      (match progress
       case Continue(stage) => Update(s, w, Serving(t, stage), t, a)
       case Finished(error) => Update(s, w, Joining(t, error), t, Abort(a)))
    case Conclude(w) =>
      var t := s.workers[w].ticket;
      Update(s, w, Reporting(t), t, Finish(s.actives[t], s.workers[w].error))
    case Retire(w) =>
      s.(jobs := s.jobs - {s.actives[s.workers[w].ticket].job.id}, free := s.free + 1,
         workers := s.workers[w := Idle])
  }

  // ---- runs

  predicate Legal(s: State, steps: seq<Step>)
    decreases |steps|
  {
    steps == [] || (Enabled(s, steps[0]) && Legal(Next(s, steps[0]), steps[1..]))
  }

  function Run(s: State, steps: seq<Step>): State
    requires Legal(s, steps)
    decreases |steps|
  {
    if steps == [] then s else Run(Next(s, steps[0]), steps[1..])
  }
}
