// What becomes of a job: its terminal event is a function of what its worker was told, over every run.
module Outcomes {
  import opened Basics
  import opened Capture
  import opened JobModel
  import opened Retrying
  import opened Protocol
  import opened Accounts
  import opened Safety
  import opened Guarantees

  // ---- what the answers of the world amount to

  ghost predicate TransientFetch(o: Observation) { o.Fetched? && o.result.Refused? && o.result.retryable }

  ghost predicate TransientSend(o: Observation) {
    (o.SendFailed? && o.retryable) ||
    (o.SendAnswered? && (o.receipt.status / 100 == 5 || o.receipt.status == 408 || o.receipt.status == 429))
  }

  ghost function InputAttempts(job: Job): nat {
    if job.input.retry.Some? then job.input.retry.value.maxAttempts else 1
  }

  ghost function OutputAttempts(job: Job): nat {
    if job.output.retry.Some? then job.output.retry.value.maxAttempts else 1
  }

  function Front<T>(s: seq<T>): seq<T>
    requires s != []
  {
    s[..|s| - 1]
  }

  function Final<T>(s: seq<T>): T
    requires s != []
  {
    s[|s| - 1]
  }

  // A directory, some transient failures, an attempt left.
  ghost predicate Fetches(job: Job, heard: seq<Observation>, n: nat) {
    && |heard| == n + 1 && heard[0] == Directory(true) && n < InputAttempts(job)
    && forall i | 1 <= i <= n :: TransientFetch(heard[i])
  }

  ghost predicate Encodes(job: Job, heard: seq<Observation>) {
    |heard| >= 2 && Final(heard) == Fetched(Done) && Fetches(job, Front(heard), |heard| - 2)
  }

  ghost predicate Exits(job: Job, heard: seq<Observation>) {
    heard != [] && Final(heard) == ProcessExited(Some(0)) && Encodes(job, Front(heard))
  }

  // An output of a permitted size, some transient failures, an attempt left.
  ghost predicate Sends(c: Config, job: Job, heard: seq<Observation>, n: nat) {
    && |heard| > n + 1 && n < OutputAttempts(job)
    && (forall i | |heard| - n <= i < |heard| :: TransientSend(heard[i]))
    && var output := heard[|heard| - n - 1];
    && output.Output? && output.size.Some? && 0 < output.size.value < c.maxOutput
    && Exits(job, heard[..|heard| - n - 1])
  }

  // The stage that exactly these answers lead to.
  ghost predicate Arrived(c: Config, job: Job, heard: seq<Observation>, stage: Stage) {
    match stage
    case Preparing => heard == []
    case Fetching(n) => Fetches(job, heard, n)
    case Transcoding => Encodes(job, heard)
    case Measuring => Exits(job, heard)
    case Sending(n) => Sends(c, job, heard, n)
  }

  // Everything went well: in the end the output was accepted.
  ghost predicate Succeeds(c: Config, job: Job, heard: seq<Observation>) {
    && heard != [] && Final(heard).SendAnswered? && Final(heard).receipt.status / 100 == 2
    && exists n :: Sends(c, job, Front(heard), n)
  }

  // What goes wrong at a stage, and what the outcome then says.
  ghost predicate Fails(c: Config, job: Job, stage: Stage, o: Observation, text: string) {
    match stage
    case Preparing => o == Directory(false) && text == NO_DIRECTORY
    case Fetching(n) =>
      && o.Fetched? && o.result.Refused? && text == o.result.message
      && (!o.result.retryable || n + 1 == InputAttempts(job))
    case Transcoding =>
      || (o.ProcessFailed? && text == o.message)
      || (o.ProcessExited? && o.code != Some(0) && text == BAD_EXIT)
    case Measuring =>
      && o.Output?
      && ((o.size.None? && text == NO_OUTPUT)
          || (o.size.Some? && !(0 < o.size.value < c.maxOutput) && text == BAD_SIZE))
    case Sending(n) =>
      && (!TransientSend(o) || n + 1 == OutputAttempts(job))
      && ((o.SendFailed? && text == o.message)
          || (o.SendAnswered? && o.receipt.status / 100 != 2 && text == PUT_REFUSED))
  }

  ghost predicate FailsWith(c: Config, job: Job, heard: seq<Observation>, text: string) {
    heard != [] && exists stage ::
      Arrived(c, job, Front(heard), stage) && Fails(c, job, stage, Final(heard), text)
  }

  function LastExit(heard: seq<Observation>): Option<int> {
    if heard == [] then None
    else if Final(heard).ProcessExited? then Final(heard).code
    else LastExit(Front(heard))
  }

  function LastReceipt(heard: seq<Observation>): Option<Receipt> {
    if heard == [] then None
    else if Final(heard).SendAnswered? then Some(Final(heard).receipt)
    else LastReceipt(Front(heard))
  }

  // ---- execute, told these answers one after the other

  datatype Course = Course(active: Active, progress: Progress)

  predicate TakesUp(course: Course, o: Observation) {
    course.progress.Continue? && Suits(course.progress.stage, o)
  }

  function Told(c: Config, course: Course, o: Observation): Course
    requires TakesUp(course, o)
  {
    var (a, progress) := Execute(c, course.active, course.progress.stage, o);
    Course(a, progress)
  }

  // None: the answers do not fit, or go on after the end.
  function Follow(c: Config, job: Job, heard: seq<Observation>): Option<Course> {
    if heard == [] then Some(Course(NewActive(job), Continue(Preparing)))
    else match Follow(c, job, Front(heard))
      case None => None
      case Some(course) => if TakesUp(course, Final(heard)) then Some(Told(c, course, Final(heard))) else None
  }

  // The successor of a stage on an answer that is not a failure.
  ghost predicate Proceeds(c: Config, job: Job, stage: Stage, o: Observation, next: Stage) {
    match stage
    case Preparing => o == Directory(true) && next == Fetching(0)
    case Fetching(n) =>
      || (o == Fetched(Done) && next == Transcoding)
      || (TransientFetch(o) && n + 1 != InputAttempts(job) && next == Fetching(n + 1))
    case Transcoding => o == ProcessExited(Some(0)) && next == Measuring
    case Measuring => o.Output? && o.size.Some? && 0 < o.size.value < c.maxOutput && next == Sending(0)
    case Sending(n) => TransientSend(o) && n + 1 != OutputAttempts(job) && next == Sending(n + 1)
  }

  // One answer, in full.
  lemma ExecuteExact(c: Config, a: Active, stage: Stage, o: Observation)
    requires Suits(stage, o)
    ensures var (b, progress) := Execute(c, a, stage, o);
            && (forall next :: progress == Continue(next) <==> Proceeds(c, a.job, stage, o, next))
            && (forall text :: progress == Finished(Some(text)) <==> Fails(c, a.job, stage, o, text))
            && (progress == Finished(None) <==> o.SendAnswered? && o.receipt.status / 100 == 2)
            && b.job == a.job && b.outcome.error == a.outcome.error
            && b.outcome.exitCode == (if o.ProcessExited? then o.code else a.outcome.exitCode)
            && b.outcome.upload == (if o.SendAnswered? then Some(o.receipt) else a.outcome.upload)
  {
  }

  // The stages are reached one from the other.
  lemma ArrivedStep(c: Config, job: Job, heard: seq<Observation>, stage: Stage, next: Stage)
    requires heard != [] && InputAttempts(job) > 0 && OutputAttempts(job) > 0
    ensures Arrived(c, job, Front(heard), stage) && Proceeds(c, job, stage, Final(heard), next) ==>
              Arrived(c, job, heard, next)
  {
    if Arrived(c, job, Front(heard), stage) && Proceeds(c, job, stage, Final(heard), next) && next.Sending? {
      SendsStep(c, job, heard, next.failures);
    }
  }

  lemma SendsStep(c: Config, job: Job, heard: seq<Observation>, n: nat)
    requires heard != [] && n < OutputAttempts(job)
    ensures n == 0 ==>
              (Sends(c, job, heard, 0) <==>
               && Final(heard).Output? && Final(heard).size.Some? && 0 < Final(heard).size.value < c.maxOutput
               && Exits(job, Front(heard)))
    ensures n > 0 ==>
              (Sends(c, job, heard, n) <==> TransientSend(Final(heard)) && Sends(c, job, Front(heard), n - 1))
  {
    assert !Exits(job, []);
    hide Exits, TransientSend;
    if n > 0 && |heard| > n + 1 {
      assert Front(heard)[..|Front(heard)| - (n - 1) - 1] == heard[..|heard| - n - 1];
    }
  }

  // The stage before.
  lemma ArrivedBack(c: Config, job: Job, heard: seq<Observation>, next: Stage)
    requires heard != []
    ensures Arrived(c, job, heard, next) ==>
              exists stage :: Arrived(c, job, Front(heard), stage) && Proceeds(c, job, stage, Final(heard), next)
                              && Suits(stage, Final(heard))
  {
    if Arrived(c, job, heard, next) {
      if next.Sending? {
        SendsStep(c, job, heard, next.failures);
      }
      var stage := match next
        case Preparing => Preparing
        case Fetching(n) => if n == 0 then Preparing else Fetching(n - 1)
        case Transcoding => Fetching(|heard| - 2)
        case Measuring => Transcoding
        case Sending(n) => if n == 0 then Measuring else Sending(n - 1);
      assert Arrived(c, job, Front(heard), stage);
    }
  }

  lemma SucceedsBack(c: Config, job: Job, heard: seq<Observation>)
    requires heard != []
    ensures Succeeds(c, job, heard) ==>
              exists stage :: Arrived(c, job, Front(heard), stage) && stage.Sending?
  {
    if Succeeds(c, job, heard) {
      var n :| Sends(c, job, Front(heard), n);
      assert Arrived(c, job, Front(heard), Sending(n));
    }
  }

  ghost predicate Goes(course: Option<Course>, progress: Progress) {
    course.Some? && course.value.progress == progress
  }

  ghost predicate FollowsExactly(c: Config, job: Job, heard: seq<Observation>) {
    var course := Follow(c, job, heard);
    && (forall stage :: Goes(course, Continue(stage)) <==> Arrived(c, job, heard, stage))
    && (Goes(course, Finished(None)) <==> Succeeds(c, job, heard))
    && (forall text :: Goes(course, Finished(Some(text))) <==> FailsWith(c, job, heard, text))
  }

  // In both directions: which answers lead to which stage, to success, and to which error.
  lemma {:induction false} FollowExact(c: Config, job: Job, heard: seq<Observation>)
    requires InputAttempts(job) > 0 && OutputAttempts(job) > 0
    ensures FollowsExactly(c, job, heard)
    ensures var course := Follow(c, job, heard);
            course.Some? ==>
              && course.value.active.job == job && course.value.active.outcome.error == None
              && course.value.active.outcome.exitCode == LastExit(heard)
              && course.value.active.outcome.upload == LastReceipt(heard)
    decreases |heard|
  {
    if heard != [] {
      FollowExact(c, job, Front(heard));
      FollowStep(c, job, heard);
      var before := Follow(c, job, Front(heard));
      if before.Some? && TakesUp(before.value, Final(heard)) {
        ExecuteExact(c, before.value.active, before.value.progress.stage, Final(heard));
      }
    }
  }

  lemma FollowStep(c: Config, job: Job, heard: seq<Observation>)
    requires heard != [] && InputAttempts(job) > 0 && OutputAttempts(job) > 0
    requires FollowsExactly(c, job, Front(heard))
    requires Follow(c, job, Front(heard)).Some? ==> Follow(c, job, Front(heard)).value.active.job == job
    ensures FollowsExactly(c, job, heard)
  {
    var before, o := Follow(c, job, Front(heard)), Final(heard);
    SucceedsBack(c, job, heard);
    forall next
      ensures Arrived(c, job, heard, next) ==>
                exists stage ::
                  Arrived(c, job, Front(heard), stage) && Proceeds(c, job, stage, o, next) && Suits(stage, o)
    {
      ArrivedBack(c, job, heard, next);
    }
    if before.Some? && TakesUp(before.value, o) {
      var stage := before.value.progress.stage;
      ExecuteExact(c, before.value.active, stage, o);
      assert Goes(before, Continue(stage));
      forall next ensures Proceeds(c, job, stage, o, next) ==> Arrived(c, job, heard, next) {
        ArrivedStep(c, job, heard, stage, next);
      }
    }
  }

  // ---- what a job's worker was told in a run

  // The answers its execution got, and the interrupt that cut it off, if any.
  datatype History = History(heard: seq<Observation>, cut: Option<Reason>)

  function Untold(): History { History([], None) }

  function Recall(s: State, h: History, step: Step, t: nat): History
    requires Enabled(s, step)
  {
    match step
    case Advance(w, o) => if s.workers[w].ticket == t then h.(heard := h.heard + [o]) else h
    case Interrupt(w, reason) => if s.workers[w].ticket == t then h.(cut := Some(reason)) else h
    case _ => h
  }

  function HistoryOf(s: State, h: History, steps: seq<Step>, t: nat): History
    requires Legal(s, steps)
    decreases |steps|
  {
    if steps == [] then h else HistoryOf(Next(s, steps[0]), Recall(s, h, steps[0], t), steps[1..], t)
  }

  ghost predicate Same(a: Active, b: Active) {
    a.job == b.job && a.outcome == b.outcome && a.phase == b.phase && a.size == b.size
  }

  // How the history ends: by an interrupt, or as execute ended.
  ghost predicate EndsIn(h: History, course: Course, error: Option<string>) {
    match h.cut
    case Some(reason) => course.progress.Continue? && error == Some(Message(reason))
    case None => course.progress == Finished(error)
  }

  // The state of a job in a slot, as its history has it; Idle stands for a job that has left.
  ghost predicate Agrees(a: Active, slot: Slot, h: History, course: Course) {
    match slot
    case Serving(_, stage) => h.cut.None? && course.progress == Continue(stage) && Same(a, course.active)
    case Joining(_, error) => EndsIn(h, course, error) && Same(a, course.active)
    case _ =>
      && EndsIn(h, course, a.outcome.error) && a.job == course.active.job
      && a.outcome == course.active.outcome.(error := a.outcome.error)
      && (a.phase == if a.outcome.error.None? then Succeeded else Failed)
  }

  // Where a job is.
  ghost predicate Place(s: State, t: nat, slot: Slot) {
    || (slot in s.workers && slot.Occupied() && slot.ticket == t)
    || (slot == Serving(t, Preparing) && InQueue(LedgerOf(s), t))
    || (slot == Idle && t < |s.actives| && !Live(LedgerOf(s), t))
  }

  ghost predicate Remembered(s: State, t: nat, h: History) {
    if t >= |s.actives| then h == Untold()
    else
      var course := Follow(s.config, s.actives[t].job, h.heard);
      && course.Some? && InputAttempts(s.actives[t].job) > 0 && OutputAttempts(s.actives[t].job) > 0
      && forall slot | Place(s, t, slot) :: Agrees(s.actives[t], slot, h, course.value)
  }

  lemma OnlyPlace(s: State, w: nat)
    requires Accounted(s) && w < |s.workers| && s.workers[w].Occupied()
    ensures forall slot | Place(s, s.workers[w].ticket, slot) :: slot == s.workers[w]
  {
    TicketAlone(s, w);
  }

  lemma ExecuteSame(c: Config, a: Active, b: Active, stage: Stage, o: Observation)
    requires Same(a, b) && Suits(stage, o)
    ensures Same(Execute(c, a, stage, o).0, Execute(c, b, stage, o).0)
    ensures Execute(c, a, stage, o).1 == Execute(c, b, stage, o).1
  {
  }

  lemma FollowMore(c: Config, job: Job, heard: seq<Observation>, o: Observation)
    requires Follow(c, job, heard).Some? && TakesUp(Follow(c, job, heard).value, o)
    ensures Follow(c, job, heard + [o]) == Some(Told(c, Follow(c, job, heard).value, o))
  {
    assert Front(heard + [o]) == heard;
  }

  lemma AdvanceAgrees(c: Config, a: Active, t: nat, stage: Stage, h: History, course: Course, o: Observation)
    requires Agrees(a, Serving(t, stage), h, course) && Suits(stage, o)
    ensures var ((b, progress), told) := (Execute(c, a, stage, o), Told(c, course, o));
            b.job == a.job
            && match progress
               case Continue(next) => Agrees(b, Serving(t, next), h.(heard := h.heard + [o]), told)
               case Finished(error) => Agrees(Abort(b), Joining(t, error), h.(heard := h.heard + [o]), told)
  {
    ExecuteSame(c, a, course.active, stage, o);
    ExecuteKeepsJob(c, a, stage, o);
    hide Execute;
  }

  // It is enough to agree with the slot of the worker.
  lemma RememberedAt(s: State, w: nat, h: History)
    requires Accounted(s) && w < |s.workers| && s.workers[w].Occupied() && s.workers[w].ticket < |s.actives|
    requires var a := s.actives[s.workers[w].ticket];
             && InputAttempts(a.job) > 0 && OutputAttempts(a.job) > 0 && Follow(s.config, a.job, h.heard).Some?
             && Agrees(a, s.workers[w], h, Follow(s.config, a.job, h.heard).value)
    ensures Remembered(s, s.workers[w].ticket, h)
  {
    OnlyPlace(s, w);
    hide Accounted, Place, Follow, Agrees, LedgerOf;
  }

  lemma Recalled(s: State, w: nat, h: History)
    requires w < |s.workers| && s.workers[w].Occupied() && s.workers[w].ticket < |s.actives|
    requires Remembered(s, s.workers[w].ticket, h)
    ensures var a := s.actives[s.workers[w].ticket];
            && InputAttempts(a.job) > 0 && OutputAttempts(a.job) > 0 && Follow(s.config, a.job, h.heard).Some?
            && Agrees(a, s.workers[w], h, Follow(s.config, a.job, h.heard).value)
  {
    hide Follow, Agrees, LedgerOf, InputAttempts, OutputAttempts;
    assert s.workers[w] in s.workers && Place(s, s.workers[w].ticket, s.workers[w]);
  }

  lemma AdvanceRemembered(s: State, w: nat, o: Observation, h: History)
    requires Inv(s) && Enabled(s, Advance(w, o)) && Remembered(s, s.workers[w].ticket, h)
    ensures Remembered(Next(s, Advance(w, o)), s.workers[w].ticket, h.(heard := h.heard + [o]))
  {
    Recalled(s, w, h);
    StepAccounted(s, Advance(w, o));
    hide Inv, Accounted, Remembered, Follow, Execute, Agrees, InputAttempts, OutputAttempts;
    var t, a := s.workers[w].ticket, s.actives[s.workers[w].ticket];
    AdvanceAgrees(s.config, a, t, s.workers[w].stage, h, Follow(s.config, a.job, h.heard).value, o);
    AgreesContinue(a, s.workers[w], h, Follow(s.config, a.job, h.heard).value);
    FollowMore(s.config, a.job, h.heard, o);
    RememberedAt(Next(s, Advance(w, o)), w, h.(heard := h.heard + [o]));
  }

  lemma AgreesContinue(a: Active, slot: Slot, h: History, course: Course)
    requires slot.Serving? && Agrees(a, slot, h, course)
    ensures course.progress == Continue(slot.stage)
  {
  }

  lemma InterruptAgrees(a: Active, t: nat, stage: Stage, h: History, course: Course, reason: Reason)
    requires Agrees(a, Serving(t, stage), h, course)
    ensures Agrees(Abort(a), Joining(t, Some(Message(reason))), h.(cut := Some(reason)), course)
  {
    hide Message;
  }

  lemma InterruptRemembered(s: State, w: nat, reason: Reason, h: History)
    requires Inv(s) && Enabled(s, Interrupt(w, reason)) && Remembered(s, s.workers[w].ticket, h)
    ensures Remembered(Next(s, Interrupt(w, reason)), s.workers[w].ticket, h.(cut := Some(reason)))
  {
    Recalled(s, w, h);
    StepAccounted(s, Interrupt(w, reason));
    hide Inv, Accounted, Remembered, Follow, Message, InputAttempts, OutputAttempts, Agrees;
    var t, a := s.workers[w].ticket, s.actives[s.workers[w].ticket];
    InterruptAgrees(a, t, s.workers[w].stage, h, Follow(s.config, a.job, h.heard).value, reason);
    RememberedAt(Next(s, Interrupt(w, reason)), w, h.(cut := Some(reason)));
  }

  lemma ConcludeAgrees(a: Active, t: nat, error: Option<string>, h: History, course: Course)
    requires Agrees(a, Joining(t, error), h, course)
    ensures Finish(a, error).job == a.job && Agrees(Finish(a, error), Reporting(t), h, course)
  {
    hide Message;
  }

  lemma ConcludeRemembered(s: State, w: nat, h: History)
    requires Inv(s) && Enabled(s, Conclude(w)) && Remembered(s, s.workers[w].ticket, h)
    ensures Remembered(Next(s, Conclude(w)), s.workers[w].ticket, h)
  {
    Recalled(s, w, h);
    StepAccounted(s, Conclude(w));
    hide Inv, Accounted, Remembered, Follow, Finish, InputAttempts, OutputAttempts, Agrees;
    var t, a := s.workers[w].ticket, s.actives[s.workers[w].ticket];
    ConcludeAgrees(a, t, s.workers[w].error, h, Follow(s.config, a.job, h.heard).value);
    RememberedAt(Next(s, Conclude(w)), w, h);
  }

  // Any other step leaves the job where it is, takes it from the queue, or sees it leave.
  lemma PlaceBack(s: State, step: Step, t: nat, slot: Slot)
    requires Accounted(s) && Enabled(s, step) && t < |s.actives| && Place(Next(s, step), t, slot)
    requires (step.Advance? || step.Interrupt? || step.Conclude?) ==> s.workers[step.worker].ticket != t
    ensures Place(s, t, slot) || (slot.Idle? && Place(s, t, Reporting(t)))
  {
    match step
    case Submit(job) => hide Validate;
    case Take(w) => TakeAccounted(s, w);
    case Retire(w) => RetirePlace(s, w, t, slot);
    case _ => QuietPlace(s, step, t, slot);
  }

  lemma RetirePlace(s: State, w: nat, t: nat, slot: Slot)
    requires Accounted(s) && Enabled(s, Retire(w)) && t < |s.actives| && Place(Next(s, Retire(w)), t, slot)
    ensures Place(s, t, slot) || (slot.Idle? && Place(s, t, Reporting(t)))
  {
    RetireAccounted(s, w);
    assert s.workers[w] in s.workers;
    hide Accounted, Live;
  }

  lemma QuietPlace(s: State, step: Step, t: nat, slot: Slot)
    requires Accounted(s) && Enabled(s, step) && t < |s.actives| && Place(Next(s, step), t, slot)
    requires !step.Submit? && !step.Take? && !step.Retire?
    requires (step.Advance? || step.Interrupt? || step.Conclude?) ==> s.workers[step.worker].ticket != t
    ensures Place(s, t, slot)
  {
    QuietAccounted(s, step);
    hide Accounted, LedgerOf, Execute, Emit, Finish;
  }

  lemma AgreesKept(a: Active, b: Active, t: nat, slot: Slot, h: History, course: Course)
    requires Same(b, a)
    requires Agrees(a, slot, h, course) || (slot.Idle? && Agrees(a, Reporting(t), h, course))
    ensures Agrees(b, slot, h, course)
  {
    hide Message;
  }

  lemma OtherStep(s: State, step: Step, t: nat, h: History)
    requires Inv(s) && Enabled(s, step) && Remembered(s, t, h) && t < |s.actives|
    requires (step.Advance? || step.Interrupt? || step.Conclude?) ==> s.workers[step.worker].ticket != t
    ensures Remembered(Next(s, step), t, Recall(s, h, step, t))
  {
    var s', a := Next(s, step), s.actives[t];
    OthersUntouched(s, step, t);
    assert Same(s'.actives[t], a);
    hide Next, Enabled, LedgerOf, Follow, Agrees, Place, Inv;
    var course := Follow(s.config, a.job, h.heard).value;
    forall slot | Place(s', t, slot) ensures Agrees(s'.actives[t], slot, h, course) {
      PlaceBack(s, step, t, slot);
      AgreesKept(a, s'.actives[t], t, slot, h, course);
    }
  }

  lemma NewPlace(s: State, job: Job)
    requires Accounted(s) && !s.cancelled && job.id !in s.jobs && s.free > 0
    ensures forall slot | Place(Enqueue(s, job), |s.actives|, slot) :: slot == Serving(|s.actives|, Preparing)
  {
    var t, s' := |s.actives|, Enqueue(s, job);
    EnqueueAccounted(s, job);
    forall slot | Place(s', t, slot) ensures slot == Serving(t, Preparing) {
      if slot in s'.workers && slot.Occupied() {
        var w :| 0 <= w < |s'.workers| && s'.workers[w] == slot;
        TicketAlone(s', w);
      }
    }
  }

  lemma NewRemembered(s: State, job: Job)
    requires Accounted(s) && Admission(s, job).Accepted?
    ensures Remembered(Enqueue(s, job), |s.actives|, Untold())
  {
    NewPlace(s, job);
    ValidJobHasAttempts(job);
    hide Accounted, Place, Validate;
  }

  lemma NothingNew(s: State, step: Step)
    requires Enabled(s, step) && !(step.Submit? && Admission(s, step.job).Accepted?)
    ensures |Next(s, step).actives| == |s.actives|
  {
    hide Admission, Execute, Emit, Finish;
  }

  lemma NewStep(s: State, step: Step, t: nat, h: History)
    requires Inv(s) && Enabled(s, step) && Remembered(s, t, h) && t >= |s.actives|
    ensures Remembered(Next(s, step), t, Recall(s, h, step, t))
  {
    assert Recall(s, h, step, t) == h;
    if step.Submit? && Admission(s, step.job).Accepted? {
      NewRemembered(s, step.job);
      hide Inv, Place, Admission, Follow;
    } else {
      NothingNew(s, step);
      hide Inv, Next, Enabled, Admission;
    }
  }

  lemma {:induction false} RunRemembers(s: State, steps: seq<Step>, t: nat, h: History)
    requires Inv(s) && Legal(s, steps) && Remembered(s, t, h)
    ensures Remembered(Run(s, steps), t, HistoryOf(s, h, steps, t))
    decreases |steps|
  {
    if steps != [] {
      var step := steps[0];
      if t >= |s.actives| {
        NewStep(s, step, t, h);
      } else if (step.Advance? || step.Interrupt? || step.Conclude?) && s.workers[step.worker].ticket == t {
        match step
        case Advance(w, o) => AdvanceRemembered(s, w, o, h);
        case Interrupt(w, reason) => InterruptRemembered(s, w, reason, h);
        case Conclude(w) => ConcludeRemembered(s, w, h);
      } else {
        OtherStep(s, step, t, h);
      }
      StepKeeps(s, step);
      hide Inv, Remembered;
      RunRemembers(Next(s, step), steps[1..], t, Recall(s, h, step, t));
    }
  }

  lemma CutStep(s: State, h: History, step: Step, t: nat)
    requires Enabled(s, step)
    ensures Next(s, step).config == s.config && (s.cancelled ==> Next(s, step).cancelled)
    ensures var cut := Recall(s, h, step, t).cut;
            cut == h.cut || (cut == Some(Deadline) && s.config.jobTimeout > 0 && !s.cancelled)
            || (cut == Some(Stall) && !s.cancelled) || (cut == Some(Shutdown) && s.cancelled)
  {
    hide Admission, Execute, Emit, Finish;
  }

  // A job is only cut off by the deadline if there is one, and by shutdown once it has begun.
  lemma {:induction false} RunCuts(s: State, h: History, steps: seq<Step>, t: nat)
    requires Legal(s, steps)
    requires h.cut == Some(Deadline) ==> s.config.jobTimeout > 0
    requires h.cut == Some(Shutdown) ==> s.cancelled
    ensures var cut := HistoryOf(s, h, steps, t).cut;
            && (cut == Some(Deadline) ==> s.config.jobTimeout > 0)
            && (cut == Some(Shutdown) ==> Run(s, steps).cancelled)
    decreases |steps|
  {
    if steps != [] {
      CutStep(s, h, steps[0], t);
      hide Next, Enabled;
      RunCuts(Next(s, steps[0]), Recall(s, h, steps[0], t), steps[1..], t);
    }
  }

  // What a run has told the worker of a job.
  function Story(config: Config, steps: seq<Step>, t: nat): History
    requires Legal(Initial(config), steps)
  {
    HistoryOf(Initial(config), Untold(), steps, t)
  }

  // The error in a terminal event: that of the interrupt, or of the first thing that went wrong.
  ghost predicate Blames(c: Config, job: Job, h: History, text: string) {
    match h.cut
    case Some(Shutdown) => text == SHUTTING_DOWN
    case Some(Deadline) => text == DEADLINE_EXCEEDED
    case Some(Stall) => text == STALLED
    case None => FailsWith(c, job, h.heard, text)
  }

  // Over every run, a terminal event says what the job's worker was told: it reports success exactly
  // if nothing cut the job off and all answers were good, else exactly the error to blame, and the last
  // exit code and the last receipt.
  lemma {:induction false} TerminalExact(config: Config, steps: seq<Step>, t: nat, i: nat)
    requires Legal(Initial(config), steps) && t < |Run(Initial(config), steps).actives|
    requires i < |Run(Initial(config), steps).actives[t].events|
    requires Run(Initial(config), steps).actives[t].events[i].terminal
    ensures var a := Run(Initial(config), steps).actives[t];
            var (job, event) := (a.job, a.events[i]);
            var h := Story(config, steps, t);
            && (event.state == Succeeded <==> h.cut.None? && Succeeds(config, job, h.heard))
            && (forall text ::
                  event.result.Some? && event.result.value.error == Some(text) <==> Blames(config, job, h, text))
            && event.result.Some? && event.result.value.exitCode == LastExit(h.heard)
            && event.result.value.upload == LastReceipt(h.heard)
            && (h.cut == Some(Deadline) ==> config.jobTimeout > 0)
            && (h.cut == Some(Shutdown) ==> Run(Initial(config), steps).cancelled)
  {
    RunCuts(Initial(config), Untold(), steps, t);
    var s := Run(Initial(config), steps);
    var a, h := s.actives[t], Story(config, steps, t);
    assert Reachable(config, s);
    ReachableInv(config, s);
    InitialInv(config);
    RunRemembers(Initial(config), steps, t, Untold());
    TracedEverywhere(s, t);
    TerminalTruth(config, a, i);
    var slot := ConcludedPlace(s, t);
    var course := Follow(config, a.job, h.heard).value;
    assert Agrees(a, slot, h, course);
    FollowExact(config, a.job, h.heard);
    hide Inv, Follow, Concluded, Traced, Place, Remembered;
    EndsExactly(config, a.job, h, course, a.outcome.error);
  }

  lemma EndsExactly(c: Config, job: Job, h: History, course: Course, error: Option<string>)
    requires Follow(c, job, h.heard) == Some(course) && FollowsExactly(c, job, h.heard) && EndsIn(h, course, error)
    ensures error == None <==> h.cut.None? && Succeeds(c, job, h.heard)
    ensures forall text :: error == Some(text) <==> Blames(c, job, h, text)
  {
    hide Follow, Succeeds, FailsWith, Arrived;
    assert Goes(Follow(c, job, h.heard), course.progress);
  }

  lemma ConcludedPlace(s: State, t: nat) returns (slot: Slot)
    requires Inv(s) && t < |s.actives| && s.actives[t].phase.Final()
    ensures Place(s, t, slot) && !slot.Serving? && !slot.Joining?
  {
    var l := LedgerOf(s);
    if Some(t) in l.holds {
      var w :| 0 <= w < |l.holds| && l.holds[w] == Some(t);
      assert SlotOk(s, w);
      slot := s.workers[w];
      assert slot in s.workers;
    } else {
      slot := Idle;
      assert !InQueue(l, t);
    }
  }

  // ---- the heartbeat of a job

  // Until shutdown, the heartbeat of a job that waits or is being served has not been told to stop.
  ghost predicate Beats(s: State, t: nat) {
    t < |s.actives| && !s.cancelled ==>
      forall slot | Place(s, t, slot) && slot.Serving? :: s.actives[t].heartbeat.Beating?
  }

  lemma OwnBeats(s: State, step: Step, t: nat)
    requires Inv(s) && Enabled(s, step) && Beats(s, t)
    requires (step.Advance? || step.Interrupt? || step.Conclude?) && s.workers[step.worker].ticket == t
    ensures Beats(Next(s, step), t)
  {
    var w := step.worker;
    StepAccounted(s, step);
    OnlyPlace(Next(s, step), w);
    if step.Advance? {
      assert s.workers[w] in s.workers && Place(s, t, s.workers[w]);
      ExecuteKeepsHeartbeat(s.config, s.actives[t], s.workers[w].stage, step.observation);
    }
    hide Inv, Accounted, LedgerOf, Execute, Finish, Place;
  }

  lemma ExecuteKeepsHeartbeat(c: Config, a: Active, stage: Stage, o: Observation)
    requires Suits(stage, o)
    ensures Execute(c, a, stage, o).0.heartbeat == a.heartbeat
  {
  }

  lemma OtherBeats(s: State, step: Step, t: nat)
    requires Inv(s) && Enabled(s, step) && Beats(s, t) && t < |s.actives|
    requires (step.Advance? || step.Interrupt? || step.Conclude?) ==> s.workers[step.worker].ticket != t
    ensures Beats(Next(s, step), t)
  {
    var s' := Next(s, step);
    OthersUntouched(s, step, t);
    if !s'.cancelled {
      forall slot | Place(s', t, slot) && slot.Serving? ensures s'.actives[t].heartbeat.Beating? {
        PlaceBack(s, step, t, slot);
      }
    }
  }

  lemma NewBeats(s: State, step: Step, t: nat)
    requires Inv(s) && Enabled(s, step) && t >= |s.actives|
    ensures Beats(Next(s, step), t)
  {
    hide Inv, Place, Validate, Execute;
  }

  lemma {:induction false} RunBeats(s: State, steps: seq<Step>, t: nat)
    requires Inv(s) && Legal(s, steps) && Beats(s, t)
    ensures Beats(Run(s, steps), t)
    decreases |steps|
  {
    if steps != [] {
      var step := steps[0];
      if t >= |s.actives| {
        NewBeats(s, step, t);
      } else if (step.Advance? || step.Interrupt? || step.Conclude?) && s.workers[step.worker].ticket == t {
        OwnBeats(s, step, t);
      } else {
        OtherBeats(s, step, t);
      }
      StepKeeps(s, step);
      hide Inv, Beats;
      RunBeats(Next(s, step), steps[1..], t);
    }
  }

  lemma {:induction false} ReachableBeats(config: Config, s: State, t: nat)
    requires Reachable(config, s)
    ensures Beats(s, t)
  {
    var steps :| Legal(Initial(config), steps) && s == Run(Initial(config), steps);
    InitialInv(config);
    hide Inv;
    RunBeats(Initial(config), steps, t);
  }

  // In every reachable state before shutdown, a job in the queue or in service can report: its
  // heartbeat makes a non-terminal event with the next number and the present state.
  lemma {:induction false} JobReports(config: Config, s: State, t: nat)
    requires Reachable(config, s) && !s.cancelled && t < |s.actives|
    requires InQueue(LedgerOf(s), t)
             || exists w :: 0 <= w < |s.workers| && s.workers[w].Serving? && s.workers[w].ticket == t
    ensures Enabled(s, Beat(t)) && !Enabled(s, BeatEnds(t))
    ensures var a := s.actives[t];
            Next(s, Beat(t)).actives[t].events == a.events + [Event(|a.events|, a.phase, false, None)]
  {
    ReachableInv(config, s);
    ReachableBeats(config, s, t);
    TracedEverywhere(s, t);
    hide Inv, Reachable, LedgerOf, InQueue;
    if InQueue(LedgerOf(s), t) {
      assert Place(s, t, Serving(t, Preparing));
    } else {
      var w :| 0 <= w < |s.workers| && s.workers[w].Serving? && s.workers[w].ticket == t;
      assert s.workers[w] in s.workers && Place(s, t, s.workers[w]);
    }
  }

  // ---- a good job gets on

  function Advances(w: nat, heard: seq<Observation>): seq<Step> {
    if heard == [] then [] else [Advance(w, heard[0])] + Advances(w, heard[1..])
  }

  lemma {:induction false} FollowPrefix(c: Config, job: Job, heard: seq<Observation>, more: seq<Observation>)
    requires Follow(c, job, heard + more).Some?
    ensures Follow(c, job, heard).Some?
    ensures more != [] ==> TakesUp(Follow(c, job, heard).value, more[0])
    decreases |more|
  {
    if more == [] {
      assert heard + more == heard;
    } else {
      assert Front(heard + more) == heard + Front(more);
      FollowPrefix(c, job, heard, Front(more));
      if |more| == 1 {
        assert heard + Front(more) == heard;
      } else {
        assert Front(more)[0] == more[0];
      }
    }
  }

  // A worker whose job has heard these answers and has not been cut off.
  ghost predicate Running(s: State, w: nat, t: nat, job: Job, heard: seq<Observation>) {
    && Inv(s) && !s.cancelled && w < |s.workers| && (s.workers[w].Serving? || s.workers[w].Joining?)
    && s.workers[w].ticket == t < |s.actives| && s.actives[t].job == job
    && Remembered(s, t, History(heard, None))
  }

  lemma AdvanceShape(s: State, w: nat, o: Observation)
    requires Enabled(s, Advance(w, o))
    ensures var (s', t) := (Next(s, Advance(w, o)), s.workers[w].ticket);
            && s'.config == s.config && s'.cancelled == s.cancelled && w < |s'.workers|
            && (s'.workers[w].Serving? || s'.workers[w].Joining?) && s'.workers[w].ticket == t < |s'.actives|
            && s'.actives[t].job == s.actives[t].job
  {
    ExecuteKeepsJob(s.config, s.actives[s.workers[w].ticket], s.workers[w].stage, o);
    hide Execute;
  }

  lemma RunningEnables(s: State, w: nat, t: nat, job: Job, heard: seq<Observation>, o: Observation)
    requires Running(s, w, t, job, heard)
    requires Follow(s.config, job, heard).Some? && TakesUp(Follow(s.config, job, heard).value, o)
    ensures Enabled(s, Advance(w, o))
  {
    Recalled(s, w, History(heard, None));
    AgreesServing(s.actives[t], s.workers[w], heard, Follow(s.config, job, heard).value);
    hide Inv, Follow, Remembered, Agrees;
  }

  lemma RunningStep(s: State, w: nat, t: nat, job: Job, heard: seq<Observation>, o: Observation)
    requires Running(s, w, t, job, heard)
    requires Follow(s.config, job, heard).Some? && TakesUp(Follow(s.config, job, heard).value, o)
    ensures Enabled(s, Advance(w, o)) && Next(s, Advance(w, o)).config == s.config
    ensures Running(Next(s, Advance(w, o)), w, t, job, heard + [o])
  {
    hide Inv, Follow, Remembered, Next, Enabled;
    RunningEnables(s, w, t, job, heard, o);
    AdvanceRemembered(s, w, o, History(heard, None));
    StepKeeps(s, Advance(w, o));
    AdvanceShape(s, w, o);
  }

  // While answers that fit come in and nothing interrupts, the worker takes them up one by one.
  lemma {:induction false} GetsOn(s: State, w: nat, t: nat, job: Job, before: seq<Observation>, more: seq<Observation>)
    requires Running(s, w, t, job, before) && Follow(s.config, job, before + more).Some?
    ensures Legal(s, Advances(w, more)) && Run(s, Advances(w, more)).config == s.config
    ensures Running(Run(s, Advances(w, more)), w, t, job, before + more)
    decreases |more|
  {
    hide Running, Follow, Enabled, Next;
    if more == [] {
      assert before + more == before;
    } else {
      var o := more[0];
      FollowPrefix(s.config, job, before, more);
      RunningStep(s, w, t, job, before, o);
      assert before + [o] + more[1..] == before + more;
      GetsOn(Next(s, Advance(w, o)), w, t, job, before + [o], more[1..]);
      assert Advances(w, more)[0] == Advance(w, o) && Advances(w, more)[1..] == Advances(w, more[1..]);
    }
  }

  lemma AgreesServing(a: Active, slot: Slot, heard: seq<Observation>, course: Course)
    requires (slot.Serving? || slot.Joining?) && Agrees(a, slot, History(heard, None), course)
    ensures slot.Serving? <==> course.progress.Continue?
    ensures course.progress == if slot.Serving? then Continue(slot.stage) else Finished(slot.error)
  {
  }

  // The heartbeat ends, if it has not yet, and the worker concludes.
  function WindUp(w: nat, t: nat, stopped: bool): seq<Step> {
    if stopped then [Conclude(w)] else [BeatEnds(t), Conclude(w)]
  }

  // The steps of a worker that nothing interrupts.
  ghost predicate Undisturbed(w: nat, t: nat, heard: seq<Observation>, steps: seq<Step>) {
    exists stopped :: steps == Advances(w, heard) + WindUp(w, t, stopped)
  }

  ghost predicate EndsWell(a: Active, receipt: Receipt) {
    && |a.events| > 0 && a.events[|a.events| - 1].terminal && a.events[|a.events| - 1].state == Succeeded
    && a.events[|a.events| - 1].result.Some?
    && a.events[|a.events| - 1].result.value == Outcome(None, Some(0), Some(receipt))
  }

  lemma LegalOne(s: State, step: Step, more: seq<Step>)
    requires Enabled(s, step) && Legal(Next(s, step), more)
    ensures Legal(s, [step] + more) && Run(s, [step] + more) == Run(Next(s, step), more)
  {
    hide Enabled, Next;
    assert ([step] + more)[1..] == more;
  }

  lemma Concludes(s: State, w: nat, t: nat, receipt: Receipt)
    requires w < |s.workers| && s.workers[w] == Joining(t, None) && t < |s.actives|
    requires s.actives[t].heartbeat.Stopped? && s.actives[t].outcome == Outcome(None, Some(0), Some(receipt))
    ensures Enabled(s, Conclude(w)) && t < |Next(s, Conclude(w)).actives|
    ensures EndsWell(Next(s, Conclude(w)).actives[t], receipt)
  {
  }

  lemma HeartbeatEnds(s: State, w: nat, t: nat)
    requires Inv(s) && w < |s.workers| && s.workers[w] == Joining(t, None)
    requires t < |s.actives| && !s.actives[t].heartbeat.Stopped?
    ensures Enabled(s, BeatEnds(t))
    ensures Next(s, BeatEnds(t)) == s.(actives := s.actives[t := s.actives[t].(heartbeat := Stopped)])
  {
    assert SlotOk(s, w);
    hide Accounted;
  }

  lemma WindsUp(s: State, w: nat, t: nat, receipt: Receipt)
    requires Inv(s) && w < |s.workers| && s.workers[w] == Joining(t, None) && t < |s.actives|
    requires s.actives[t].outcome == Outcome(None, Some(0), Some(receipt))
    ensures var more := WindUp(w, t, s.actives[t].heartbeat.Stopped?);
            Legal(s, more) && t < |Run(s, more).actives| && EndsWell(Run(s, more).actives[t], receipt)
  {
    hide Inv, Enabled, Next, EndsWell;
    if s.actives[t].heartbeat.Stopped? {
      Concludes(s, w, t, receipt);
      LegalOne(s, Conclude(w), []);
      assert [Conclude(w)] + [] == [Conclude(w)];
    } else {
      HeartbeatEnds(s, w, t);
      var s' := Next(s, BeatEnds(t));
      Concludes(s', w, t, receipt);
      LegalOne(s', Conclude(w), []);
      assert [Conclude(w)] + [] == [Conclude(w)];
      LegalOne(s, BeatEnds(t), [Conclude(w)]);
      assert [BeatEnds(t)] + [Conclude(w)] == [BeatEnds(t), Conclude(w)];
    }
  }

  lemma {:induction false} LegalTwo(s: State, first: seq<Step>, second: seq<Step>)
    requires Legal(s, first) && Legal(Run(s, first), second)
    ensures Legal(s, first + second) && Run(s, first + second) == Run(Run(s, first), second)
    decreases |first|
  {
    if first == [] {
      assert first + second == second;
    } else {
      assert (first + second)[1..] == first[1..] + second;
      LegalTwo(Next(s, first[0]), first[1..], second);
    }
  }

  lemma QueuedUntold(config: Config, steps: seq<Step>)
    requires Legal(Initial(config), steps) && Run(Initial(config), steps).queue != []
    ensures var s := Run(Initial(config), steps);
            Inv(s) && s.config == config && s.queue[0] < |s.actives| && Remembered(s, s.queue[0], Untold())
  {
    var s := Run(Initial(config), steps);
    assert Reachable(config, s);
    ReachableInv(config, s);
    InitialInv(config);
    var t := s.queue[0];
    assert InQueue(LedgerOf(s), t);
    RunRemembers(Initial(config), steps, t, Untold());
    var h := Story(config, steps, t);
    var course := Follow(s.config, s.actives[t].job, h.heard);
    assert Place(s, t, Serving(t, Preparing));
    assert Agrees(s.actives[t], Serving(t, Preparing), h, course.value);
    FollowExact(s.config, s.actives[t].job, h.heard);
    assert Goes(course, Continue(Preparing));
    assert h == Untold();
  }

  lemma {:induction false} GoodExit(c: Config, job: Job, heard: seq<Observation>)
    requires Succeeds(c, job, heard)
    ensures LastExit(heard) == Some(0) && LastReceipt(heard) == Some(Final(heard).receipt)
  {
    var n :| Sends(c, job, Front(heard), n);
    SendsExit(c, job, Front(heard), n);
  }

  lemma {:induction false} SendsExit(c: Config, job: Job, heard: seq<Observation>, n: nat)
    requires Sends(c, job, heard, n)
    ensures LastExit(heard) == Some(0)
  {
    SendsStep(c, job, heard, n);
    if n > 0 {
      SendsExit(c, job, Front(heard), n - 1);
    }
  }

  lemma Taken(config: Config, steps: seq<Step>, w: nat)
    requires Legal(Initial(config), steps) && !Run(Initial(config), steps).cancelled
    requires Enabled(Run(Initial(config), steps), Take(w))
    ensures var s := Run(Initial(config), steps);
            && s.config == config
            && Running(Next(s, Take(w)), w, s.queue[0], s.actives[s.queue[0]].job, [])
  {
    var s := Run(Initial(config), steps);
    QueuedUntold(config, steps);
    OtherStep(s, Take(w), s.queue[0], Untold());
    StepKeeps(s, Take(w));
    hide Inv, Remembered;
  }

  lemma Delivered(s: State, w: nat, t: nat, job: Job, heard: seq<Observation>)
    requires Running(s, w, t, job, heard) && Succeeds(s.config, job, heard)
    ensures Inv(s) && w < |s.workers| && s.workers[w] == Joining(t, None) && t < |s.actives|
    ensures s.actives[t].outcome == Outcome(None, Some(0), Some(Final(heard).receipt))
  {
    var course := Follow(s.config, job, heard).value;
    Recalled(s, w, History(heard, None));
    FollowExact(s.config, job, heard);
    GoodExit(s.config, job, heard);
    assert Goes(Follow(s.config, job, heard), Finished(None));
    AgreesServing(s.actives[t], s.workers[w], heard, course);
    hide Inv, Follow, Remembered, Succeeds, LastExit, LastReceipt;
  }

  // A queued job that a worker takes, whose answers are good and which nothing interrupts, gets all the
  // way to a terminal event that reports success.
  lemma GoodJobSucceeds(config: Config, steps: seq<Step>, w: nat, heard: seq<Observation>) returns (more: seq<Step>)
    requires Legal(Initial(config), steps) && !Run(Initial(config), steps).cancelled
    requires Enabled(Run(Initial(config), steps), Take(w))
    requires var s := Run(Initial(config), steps); Succeeds(config, s.actives[s.queue[0]].job, heard)
    ensures var (s, t) := (Run(Initial(config), steps), Run(Initial(config), steps).queue[0]);
            && more != [] && more[0] == Take(w) && Undisturbed(w, t, heard, more[1..])
            && Legal(s, more) && t < |Run(s, more).actives|
            && EndsWell(Run(s, more).actives[t], Final(heard).receipt)
  {
    var s := Run(Initial(config), steps);
    var t, job := s.queue[0], s.actives[s.queue[0]].job;
    Taken(config, steps, w);
    var taken := Next(s, Take(w));
    var rest := FromTaken(taken, w, t, job, heard);
    hide *;
    LegalOne(s, Take(w), rest);
    more := [Take(w)] + rest;
    assert more[1..] == rest;
  }

  lemma FromTaken(s: State, w: nat, t: nat, job: Job, heard: seq<Observation>) returns (more: seq<Step>)
    requires Running(s, w, t, job, []) && Succeeds(s.config, job, heard)
    ensures Undisturbed(w, t, heard, more)
    ensures Legal(s, more) && t < |Run(s, more).actives| && EndsWell(Run(s, more).actives[t], Final(heard).receipt)
  {
    var receipt := Final(heard).receipt;
    hide Running, Succeeds, WindUp, EndsWell, Follow;
    assert [] + heard == heard;
    SuccessFollows(s, w, t, job, heard);
    GetsOn(s, w, t, job, [], heard);
    var done := Run(s, Advances(w, heard));
    Delivered(done, w, t, job, heard);
    WindsUp(done, w, t, receipt);
    more := WindUp(w, t, done.actives[t].heartbeat.Stopped?);
    LegalTwo(s, Advances(w, heard), more);
    more := Advances(w, heard) + more;
  }

  lemma SuccessFollows(s: State, w: nat, t: nat, job: Job, heard: seq<Observation>)
    requires Running(s, w, t, job, []) && Succeeds(s.config, job, heard)
    ensures Follow(s.config, job, heard).Some?
  {
    Recalled(s, w, History([], None));
    FollowExact(s.config, job, heard);
    assert Goes(Follow(s.config, job, heard), Finished(None));
  }
}
