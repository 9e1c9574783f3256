// The agent's shared state as an object: the methods are the stretches of code between awaits, and
// each is one step of the protocol (or none), so the invariant and all guarantees carry over to it.
module AgentState {
  import opened Basics
  import opened JobModel
  import opened Protocol
  import opened Accounts
  import opened Safety

  lemma Carry(s: State, step: Step)
    requires Enabled(s, step)
    ensures Inv(s) ==> Inv(Next(s, step))
  {
    if Inv(s) {
      StepKeeps(s, step);
    }
  }

  class Agent {
    const config: Config
    var cancelled: bool
    var jobs: set<string>
    var free: nat               // permits of the semaphore
    var queue: seq<nat>         // the channel, by ticket
    var workers: seq<Slot>
    var actives: seq<Active>

    function View(): State
      reads this
    {
      State(config, cancelled, jobs, free, queue, workers, actives)
    }

    ghost predicate Valid()
      reads this
    {
      Inv(View())
    }

    constructor (config: Config)
      ensures View() == Initial(config) && Valid()
    {
      this.config := config;
      cancelled, jobs, free := false, {}, config.Capacity();
      queue, workers, actives := [], seq(config.concurrency, i => Idle), [];
      new;
      InitialInv(config);
    }

    predicate ChannelOpen()
      reads this
    {
      exists w | 0 <= w < |workers| :: !workers[w].Exited?
    }

    // submit in agent/src/main.rs. A send that fails gives back the permit and the id, so every
    // answer but Accepted leaves the agent as it was.
    method Submit(job: Job) returns (response: Response)
      modifies this
      ensures response == Admission(old(View()), job)
      ensures View() == Next(old(View()), Step.Submit(job))
      ensures !response.Accepted? ==> View() == old(View())
      ensures response.Accepted? ==>
                && jobs == old(jobs) + {job.id} && job.id !in old(jobs) && free == old(free) - 1
                && queue == old(queue) + [|old(actives)|] && actives == old(actives) + [NewActive(job)]
      ensures old(Valid()) ==> Valid()
    {
      hide Validate, Inv;
      ghost var s := View();
      if Validate(job).Some? {
        return BadRequest(Validate(job).value);
      }
      if cancelled {
        return Unavailable;
      }
      if job.id in jobs {
        return Conflict;
      }
      if free == 0 {
        return Busy;
      }
      assert ChannelAccepts(s) <==> |queue| < config.Capacity() && ChannelOpen();
      hide ChannelAccepts;
      free := free - 1;
      jobs := jobs + {job.id};
      var active := NewActive(job);
      if |queue| >= config.Capacity() || !ChannelOpen() {
        // the Accepted comes back: its heartbeat is aborted and its permit is dropped
        jobs := jobs - {job.id};
        free := free + 1;
        response := Unavailable;
        assert jobs == s.jobs;
      } else {
        queue := queue + [|actives|];
        actives := actives + [active];
        response := Accepted(job.id);
      }
      Carry(s, Step.Submit(job));
    }

    method Cancel()
      modifies this`cancelled
      ensures View() == Next(old(View()), Step.Cancel)
    {
      cancelled := true;
    }

    // The first part of notify: take the sequence number and build the body.
    method Notify(ticket: nat, terminal: bool) returns (event: Event)
      requires ticket < |actives|
      modifies this`actives
      ensures actives == old(actives)[ticket := Emit(old(actives[ticket]), terminal)]
      ensures event.sequence == old(actives[ticket].sequence)
      ensures event.state == old(actives[ticket].phase) && event.terminal == terminal
      ensures actives[ticket].events == old(actives[ticket].events) + [event]
      ensures event.result == if terminal then Some(old(actives[ticket].outcome)) else None
    {
      var active := actives[ticket];
      event := Event(active.sequence, active.phase, terminal, if terminal then Some(active.outcome) else None);
      actives := actives[ticket := active.(sequence := active.sequence + 1, events := active.events + [event])];
    }

    // One turn of a heartbeat task: its select may take either branch, if both are ready.
    method Heartbeat(ticket: nat, leave: bool)
      requires Valid() && ticket < |actives| && !actives[ticket].heartbeat.Stopped?
      modifies this`actives
      ensures View() == if leave && (cancelled || old(actives[ticket].heartbeat.Aborting?))
                        then Next(old(View()), BeatEnds(ticket)) else Next(old(View()), Beat(ticket))
      ensures Valid()
    {
      hide Inv;
      ghost var s := View();
      if leave && (cancelled || actives[ticket].heartbeat.Aborting?) {
        actives := actives[ticket := actives[ticket].(heartbeat := Stopped)];
        StepKeeps(s, BeatEnds(ticket));
      } else {
        var _ := Notify(ticket, false);
        StepKeeps(s, Beat(ticket));
      }
    }

    // The top of the worker loop: a queued job if there is one; leave if there is none and the
    // agent is shutting down; otherwise go on waiting.
    method Receive(w: nat) returns (ticket: Option<nat>)
      requires Valid() && w < |workers| && workers[w].Idle?
      modifies this`queue, this`workers
      ensures ticket.Some? <==> old(queue) != []
      ensures ticket.Some? ==> ticket.value == old(queue[0]) && View() == Next(old(View()), Take(w))
      ensures ticket.None? && cancelled ==> View() == Next(old(View()), Leave(w))
      ensures ticket.None? && !cancelled ==> View() == old(View())
      ensures Valid()
    {
      ghost var s := View();
      assert queue != [] ==> queue[0] < |actives| by {
        assert Placed(LedgerOf(s));
      }
      hide Inv;
      if queue != [] {
        ticket := Some(queue[0]);
        workers := workers[w := Serving(queue[0], Preparing)];
        queue := queue[1..];
        StepKeeps(s, Take(w));
      } else {
        ticket := None;
        if cancelled {
          workers := workers[w := Exited];
          StepKeeps(s, Leave(w));
        }
      }
    }

    method StopServing(w: nat, active: Active, error: Option<string>)
      requires w < |workers| && workers[w].Serving? && workers[w].ticket < |actives|
      modifies this`workers, this`actives
      ensures View() == Update(old(View()), w, Joining(old(workers[w].ticket), error),
                               old(workers[w].ticket), Abort(active))
    {
      var t := workers[w].ticket;
      workers := workers[w := Joining(t, error)];
      actives := actives[t := Abort(active)];
    }

    // The biased select of the worker: which of its branches are ready decides the step, and the
    // earlier branch wins. None of them ready: the worker goes on waiting.
    method Poll(w: nat, deadline: bool, stalled: bool, ready: Option<Observation>)
      requires Valid() && w < |workers| && workers[w].Serving? && workers[w].ticket < |actives|
      requires ready.Some? ==> Suits(workers[w].stage, ready.value)
      modifies this`workers, this`actives
      ensures cancelled ==> View() == Next(old(View()), Interrupt(w, Shutdown))
      ensures !cancelled && deadline && config.jobTimeout > 0 ==>
                View() == Next(old(View()), Interrupt(w, Deadline))
      ensures !cancelled && !(deadline && config.jobTimeout > 0) && stalled ==>
                View() == Next(old(View()), Interrupt(w, Stall))
      ensures !cancelled && !(deadline && config.jobTimeout > 0) && !stalled && ready.Some? ==>
                View() == Next(old(View()), Advance(w, ready.value))
      ensures !cancelled && !(deadline && config.jobTimeout > 0) && !stalled && ready.None? ==>
                View() == old(View())
      ensures Valid()
    {
      hide Inv, Execute, Abort;
      ghost var s := View();
      var t := workers[w].ticket;
      if cancelled {
        StopServing(w, actives[t], Some(SHUTTING_DOWN));
        StepKeeps(s, Interrupt(w, Shutdown));
      } else if deadline && config.jobTimeout > 0 {
        StopServing(w, actives[t], Some(DEADLINE_EXCEEDED));
        StepKeeps(s, Interrupt(w, Deadline));
      } else if stalled {
        StopServing(w, actives[t], Some(STALLED));
        StepKeeps(s, Interrupt(w, Stall));
      } else if ready.Some? {
        var (active, progress) := Execute(config, actives[t], workers[w].stage, ready.value);
        match progress {
          case Continue(stage) =>
            workers := workers[w := Serving(t, stage)];
            actives := actives[t := active];
          case Finished(error) =>
            StopServing(w, active, error);
        }
        StepKeeps(s, Advance(w, ready.value));
      }
    }

    // After the heartbeat has been joined: the final phase and outcome, then the terminal event.
    method Conclude(w: nat) returns (event: Event)
      requires w < |workers| && workers[w].Joining?
      requires workers[w].ticket < |actives| && actives[workers[w].ticket].heartbeat.Stopped?
      modifies this`workers, this`actives
      ensures View() == Next(old(View()), Step.Conclude(w))
      ensures event.terminal && (event.state.Succeeded? <==> old(workers[w].error).None?)
      ensures old(Valid()) ==> Valid()
    {
      ghost var s := View();
      var t, error := workers[w].ticket, workers[w].error;
      var active := actives[t];
      actives := actives[t := active.(phase := if error.None? then Succeeded else Failed,
                                      outcome := active.outcome.(error := error))];
      event := Notify(t, true);
      workers := workers[w := Reporting(t)];
      assert View() == Next(s, Step.Conclude(w));
      Carry(s, Step.Conclude(w));
    }

    // The end of the worker loop: the id leaves `jobs` and the permit is dropped with the job.
    method Retire(w: nat)
      requires w < |workers| && workers[w].Reporting? && workers[w].ticket < |actives|
      modifies this`workers, this`jobs, this`free
      ensures View() == Next(old(View()), Step.Retire(w))
      ensures old(Valid()) ==> Valid()
    {
      ghost var s := View();
      jobs := jobs - {actives[workers[w].ticket].job.id};
      workers := workers[w := Idle];
      free := free + 1;
      Carry(s, Step.Retire(w));
    }
  }
}
