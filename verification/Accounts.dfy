// The accounts of the job protocol: permits, ids and places. They see a state only through its ledger,
// so a step that moves no job between queue, workers and outside leaves them alone.
module Accounts {
  import opened Basics
  import opened JobModel
  import opened Protocol

  datatype Ledger = Ledger(capacity: nat, jobs: set<string>, free: nat, queue: seq<nat>,
                           holds: seq<Option<nat>>, ids: seq<string>)

  function Held(slot: Slot): Option<nat> { if slot.Occupied() then Some(slot.ticket) else None }

  function LedgerOf(s: State): Ledger {
    Ledger(s.config.Capacity(), s.jobs, s.free, s.queue,
           seq(|s.workers|, w requires 0 <= w < |s.workers| => Held(s.workers[w])),
           seq(|s.actives|, t requires 0 <= t < |s.actives| => s.actives[t].job.id))
  }

  function One(hold: Option<nat>): nat { if hold.Some? then 1 else 0 }

  // Jobs in workers.
  function Working(holds: seq<Option<nat>>): nat { Sum(holds, One) }

  ghost predicate InQueue(l: Ledger, t: nat) { |l.ids| - |l.queue| <= t < |l.ids| }

  ghost predicate Live(l: Ledger, t: nat) { InQueue(l, t) || Some(t) in l.holds }

  // The queue holds the latest tickets in order, and no two workers hold the same one.
  ghost predicate Placed(l: Ledger) {
    && |l.queue| <= |l.ids|
    && (forall i | 0 <= i < |l.queue| :: l.queue[i] == |l.ids| - |l.queue| + i)
    && (forall t: nat | Some(t) in l.holds :: t < |l.ids| - |l.queue|)
    && (forall v, w | 0 <= v < w < |l.holds| && l.holds[v].Some? :: l.holds[v] != l.holds[w])
  }

  // `jobs` holds exactly the ids of the live jobs, and no id is live twice.
  ghost predicate Registered(l: Ledger)
    requires Placed(l)
  {
    && (forall t: nat | Live(l, t) :: l.ids[t] in l.jobs)
    && (forall t: nat, u: nat | Live(l, t) && Live(l, u) && l.ids[t] == l.ids[u] :: t == u)
    && (forall id | id in l.jobs :: exists t: nat :: Live(l, t) && l.ids[t] == id)
  }

  ghost predicate Counted(l: Ledger) {
    && l.free + |l.queue| + Working(l.holds) == l.capacity
    && l.free + |l.jobs| == l.capacity
  }

  ghost predicate Balanced(l: Ledger) { Placed(l) && Registered(l) && Counted(l) }

  lemma {:induction false} NothingHeld(holds: seq<Option<nat>>)
    requires forall w | 0 <= w < |holds| :: holds[w].None?
    ensures Working(holds) == 0
  {
    if holds != [] {
      NothingHeld(holds[..|holds| - 1]);
    }
  }

  lemma InitialBalanced(config: Config)
    ensures Accounted(Initial(config))
  {
    NothingHeld(LedgerOf(Initial(config)).holds);
  }

  // Registered depends on the set of live tickets only.
  lemma SameLive(l: Ledger, l': Ledger)
    requires Placed(l) && Registered(l) && Placed(l') && l'.jobs == l.jobs && l'.ids == l.ids
    requires forall t: nat :: Live(l', t) <==> Live(l, t)
    ensures Registered(l')
  {
    forall id | id in l'.jobs ensures exists t: nat :: Live(l', t) && l'.ids[t] == id {
      var t: nat :| Live(l, t) && l.ids[t] == id;
      assert Live(l', t);
    }
  }

  // One more live ticket registers its new id.
  lemma OneMoreLive(l: Ledger, l': Ledger, id: string)
    requires Placed(l) && Registered(l) && Placed(l') && id !in l.jobs
    requires l'.jobs == l.jobs + {id} && l'.ids == l.ids + [id]
    requires forall t: nat :: Live(l', t) <==> Live(l, t) || t == |l.ids|
    ensures Registered(l')
  {
    assert forall t: nat | Live(l, t) :: t < |l.ids|;
    hide Live, Placed;
    assert forall t: nat | Live(l, t) :: l'.ids[t] == l.ids[t];
    forall i | i in l'.jobs ensures exists t: nat :: Live(l', t) && l'.ids[t] == i {
      if i == id {
        assert Live(l', |l.ids|);
      } else {
        var t: nat :| Live(l, t) && l.ids[t] == i;
        assert Live(l', t);
      }
    }
  }

  lemma EnqueueKeeps(l: Ledger, id: string)
    requires Balanced(l) && id !in l.jobs && l.free > 0
    ensures Balanced(l.(jobs := l.jobs + {id}, free := l.free - 1,
                        queue := l.queue + [|l.ids|], ids := l.ids + [id]))
  {
    hide Registered, Working;
    var l' := l.(jobs := l.jobs + {id}, free := l.free - 1, queue := l.queue + [|l.ids|], ids := l.ids + [id]);
    assert Placed(l');
    OneMoreLive(l, l', id);
  }

  lemma HoldsAfter(l: Ledger, w: nat, hold: Option<nat>, t: nat)
    requires Placed(l) && w < |l.holds|
    ensures Some(t) in l.holds[w := hold] <==> hold == Some(t) || (Some(t) in l.holds && l.holds[w] != Some(t))
  {
    var holds := l.holds[w := hold];
    if hold == Some(t) {
      assert holds[w] == Some(t);
    } else if Some(t) in l.holds && l.holds[w] != Some(t) {
      var v :| 0 <= v < |l.holds| && l.holds[v] == Some(t);
      assert holds[v] == Some(t);
    }
  }

  lemma DequeueKeeps(l: Ledger, w: nat)
    requires Balanced(l) && l.queue != [] && w < |l.holds| && l.holds[w].None?
    ensures var l' := l.(queue := l.queue[1..], holds := l.holds[w := Some(l.queue[0])]);
            Balanced(l') && forall t: nat :: Live(l', t) <==> Live(l, t)
  {
    var head := l.queue[0];
    var l' := l.(queue := l.queue[1..], holds := l.holds[w := Some(head)]);
    forall t: nat
      ensures Live(l', t) <==> Live(l, t)
      ensures Some(t) in l'.holds ==> t < |l.ids| - |l'.queue|
    {
      HoldsAfter(l, w, Some(head), t);
    }
    forall v, u | 0 <= v < u < |l'.holds| && l'.holds[v].Some? ensures l'.holds[v] != l'.holds[u] {
      assert l.holds[v].Some? ==> l.holds[v] in l.holds;
      assert l.holds[u].Some? ==> l.holds[u] in l.holds;
    }
    SameLive(l, l');
    SumUpdate(l.holds, One, w, Some(head));
  }

  // One live ticket less takes its id away.
  lemma OneLessLive(l: Ledger, l': Ledger, t: nat)
    requires Placed(l) && Registered(l) && Placed(l') && Live(l, t) && t < |l.ids|
    requires l'.jobs == l.jobs - {l.ids[t]} && l'.ids == l.ids
    requires forall u: nat :: Live(l', u) <==> Live(l, u) && u != t
    ensures Registered(l')
  {
    assert forall u: nat | Live(l, u) :: u < |l.ids|;
    hide Live, Placed;
    forall id | id in l'.jobs ensures exists u: nat :: Live(l', u) && l'.ids[u] == id {
      var u: nat :| Live(l, u) && l.ids[u] == id;
      assert Live(l', u);
    }
  }

  lemma ReleaseKeeps(l: Ledger, w: nat)
    requires Balanced(l) && w < |l.holds| && l.holds[w].Some?
    ensures l.holds[w].value < |l.ids|
    ensures var t := l.holds[w].value;
            var l' := l.(jobs := l.jobs - {l.ids[t]}, free := l.free + 1, holds := l.holds[w := None]);
            Balanced(l') && forall u: nat :: Live(l', u) <==> Live(l, u) && u != t
  {
    hide Sum;
    assert l.holds[w] in l.holds;
    var t := l.holds[w].value;
    var l' := l.(jobs := l.jobs - {l.ids[t]}, free := l.free + 1, holds := l.holds[w := None]);
    assert l.ids[t] in l.jobs by {
      assert Live(l, t);
    }
    hide Registered;
    forall u: nat ensures Some(u) in l'.holds <==> Some(u) in l.holds && u != t {
      HoldsAfter(l, w, None, u);
    }
    assert Placed(l');
    OneLessLive(l, l', t);
    SumUpdate(l.holds, One, w, None);
  }

  // ---- the steps of the protocol, seen by the ledger

  ghost predicate Accounted(s: State) {
    && Balanced(LedgerOf(s))
    && |s.workers| == s.config.concurrency
    // a worker has left only after cancellation, with nothing queued
    && forall w | 0 <= w < |s.workers| && s.workers[w].Exited? :: s.cancelled && s.queue == []
  }

  // The steps that move no job: heartbeats, stage changes, cancellation.
  lemma StillAccounted(s: State, s': State)
    requires Accounted(s)
    requires s' == s.(cancelled := s'.cancelled, workers := s'.workers, actives := s'.actives)
    requires s.cancelled ==> s'.cancelled
    requires |s'.actives| == |s.actives| && |s'.workers| == |s.workers|
    requires forall t | 0 <= t < |s.actives| :: s'.actives[t].job == s.actives[t].job
    requires forall w | 0 <= w < |s.workers| :: Held(s'.workers[w]) == Held(s.workers[w])
    requires forall w | 0 <= w < |s.workers| && s'.workers[w].Exited? ::
               s.workers[w].Exited? || (s.cancelled && s.queue == [])
    ensures Accounted(s') && LedgerOf(s') == LedgerOf(s)
  {
    hide Balanced, Live;
    assert LedgerOf(s') == LedgerOf(s);
  }

  lemma ExecuteKeepsJob(config: Config, a: Active, stage: Stage, observation: Observation)
    requires Suits(stage, observation)
    ensures Execute(config, a, stage, observation).0.job == a.job
  {
  }

  lemma EnqueueAccounted(s: State, job: Job)
    requires Accounted(s) && !s.cancelled && job.id !in s.jobs && s.free > 0
    ensures Accounted(Enqueue(s, job))
  {
    hide Balanced, Live;
    var l := LedgerOf(s);
    EnqueueKeeps(l, job.id);
    assert LedgerOf(Enqueue(s, job)) == l.(jobs := l.jobs + {job.id}, free := l.free - 1,
                                           queue := l.queue + [|l.ids|], ids := l.ids + [job.id]);
  }

  lemma TakeAccounted(s: State, w: nat)
    requires Accounted(s) && Enabled(s, Take(w))
    ensures Accounted(Next(s, Take(w)))
    ensures forall t: nat :: Live(LedgerOf(Next(s, Take(w))), t) <==> Live(LedgerOf(s), t)
  {
    hide Balanced, Live;
    var l := LedgerOf(s);
    DequeueKeeps(l, w);
    assert LedgerOf(Next(s, Take(w))) == l.(queue := l.queue[1..], holds := l.holds[w := Some(l.queue[0])]);
  }

  lemma RetireAccounted(s: State, w: nat)
    requires Accounted(s) && Enabled(s, Retire(w))
    ensures Accounted(Next(s, Retire(w)))
    ensures forall t: nat :: Live(LedgerOf(Next(s, Retire(w))), t) <==>
                             Live(LedgerOf(s), t) && t != s.workers[w].ticket
  {
    hide Balanced, Live;
    var l := LedgerOf(s);
    ReleaseKeeps(l, w);
    assert LedgerOf(Next(s, Retire(w))) ==
           l.(jobs := l.jobs - {l.ids[s.workers[w].ticket]}, free := l.free + 1, holds := l.holds[w := None]);
  }

  lemma QuietAccounted(s: State, step: Step)
    requires Accounted(s) && Enabled(s, step) && !step.Submit? && !step.Take? && !step.Retire?
    ensures Accounted(Next(s, step)) && LedgerOf(Next(s, step)) == LedgerOf(s)
  {
    hide Balanced, Live, Execute, LedgerOf;
    if step.Advance? {
      var w := step.worker;
      ExecuteKeepsJob(s.config, s.actives[s.workers[w].ticket], s.workers[w].stage, step.observation);
    }
    StillAccounted(s, Next(s, step));
  }

  lemma StepAccounted(s: State, step: Step)
    requires Accounted(s) && Enabled(s, step)
    ensures Accounted(Next(s, step))
  {
    hide Accounted;
    match step
    case Submit(job) => if Admission(s, job).Accepted? { EnqueueAccounted(s, job); }
    case Take(w) => TakeAccounted(s, w);
    case Retire(w) => RetireAccounted(s, w);
    case _ => QuietAccounted(s, step);
  }

  // In a state that is accounted for, a free permit means room in the channel and an open receiver:
  // the sends of submit do not fail.
  lemma ChannelNeverRefuses(s: State)
    requires Accounted(s) && !s.cancelled && s.free > 0 && s.config.concurrency > 0
    ensures ChannelAccepts(s)
  {
    assert !s.workers[0].Exited?;
  }
}
