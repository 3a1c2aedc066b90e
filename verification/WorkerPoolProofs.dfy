/** Sums over goroutines, and the conservation of jobs in every interleaving of the worker pool. */
module WorkerPoolProofs {
  import opened Common
  import opened WorkerPool

  // ----- sums over goroutines -----

  function Total(ts: seq<Thread>, f: Thread -> nat): nat {
    if ts == [] then 0 else Total(ts[..|ts| - 1], f) + f(ts[|ts| - 1])
  }

  lemma {:induction false} TotalUpdate(ts: seq<Thread>, i: nat, t: Thread, f: Thread -> nat)
    requires i < |ts|
    ensures Total(ts[i := t], f) + f(ts[i]) == Total(ts, f) + f(t)
  {
    var n := |ts| - 1;
    if i < n {
      TotalUpdate(ts[..n], i, t, f);
      assert ts[i := t][..n] == ts[..n][i := t];
    } else {
      assert ts[i := t][..n] == ts[..n];
    }
  }

  lemma TotalAppend(ts: seq<Thread>, t: Thread, f: Thread -> nat)
    ensures Total(ts + [t], f) == Total(ts, f) + f(t)
  {
    assert (ts + [t])[..|ts|] == ts;
  }

  lemma {:induction false} TotalBelow(ts: seq<Thread>, us: seq<Thread>, f: Thread -> nat, g: Thread -> nat)
    requires |ts| == |us| && forall i | 0 <= i < |ts| :: f(ts[i]) <= g(us[i])
    ensures Total(ts, f) <= Total(us, g)
  {
    if ts != [] {
      var n := |ts| - 1;
      TotalBelow(ts[..n], us[..n], f, g);
    }
  }

  lemma {:induction false} TotalPositive(ts: seq<Thread>, f: Thread -> nat) returns (i: nat)
    requires Total(ts, f) > 0
    ensures i < |ts| && f(ts[i]) > 0
  {
    if f(ts[|ts| - 1]) > 0 {
      i := |ts| - 1;
    } else {
      i := TotalPositive(ts[..|ts| - 1], f);
    }
  }

  lemma TotalWoken(ts: seq<Thread>, f: Thread -> nat)
    requires forall item, drain :: f(Asleep(item, drain)) == f(AtGate(item, drain))
    ensures Total(Woken(ts), f) == Total(ts, f)
  {
    TotalBelow(ts, Woken(ts), f, f);
    TotalBelow(Woken(ts), ts, f, f);
  }

  lemma {:induction false} IdleTotal(ts: seq<Thread>, f: Thread -> nat)
    requires (forall i | 0 <= i < |ts| :: ts[i] == Idle) && f(Idle) == 0
    ensures Total(ts, f) == 0
  {
    if ts != [] {
      IdleTotal(ts[..|ts| - 1], f);
    }
  }

  /** The effect of one step on a sum over the goroutines. */
  lemma TotalApply(s: Pool, i: nat, m: Move, f: Thread -> nat)
    requires i < |s.threads|
    ensures Total(Apply(s, i, m).threads, f) + f(s.threads[i])
         == Total(s.threads, f) + f(m.next) + (if m.spawned.None? then 0 else f(Spawned(m.spawned.value)))
  {
    TotalUpdate(s.threads, i, m.next, f);
    if m.spawned.Some? {
      TotalAppend(s.threads[i := m.next], Spawned(m.spawned.value), f);
    } else {
      assert Apply(s, i, m).threads == s.threads[i := m.next];
    }
  }

  // ----- conservation -----

  function Count(b: bool): nat {
    if b then 1 else 0
  }

  function Cargo(t: Thread): Option<Item> {
    match t
    case Acquiring(x, _) => Some(x)
    case AtGate(x, _) => Some(x)
    case Asleep(x, _) => Some(x)
    case Checking(x, _) => Some(x)
    case Passed(x, _, _) => Some(x)
    case SemWait(x, _, _, _) => Some(x)
    case Dispatching(x, _, _, _) => Some(x)
    case Spawned(x) => Some(x)
    case Armed(x, _) => Some(x)
    case Submitting(x, _) => Some(x)
    case _ => None
  }

  predicate Carrying(t: Thread, job: Job) {
    Cargo(t).Some? && Cargo(t).value.job == job
  }

  function Carries(job: Job): Thread -> nat {
    (t: Thread) => Count(Carrying(t, job))
  }

  function Queued(q: seq<Item>, job: Job): nat {
    if q == [] then 0 else Count(q[0].job == job) + Queued(q[1..], job)
  }

  lemma {:induction false} QueuedPush(q: seq<Item>, x: Item, job: Job)
    ensures Queued(q + [x], job) == Queued(q, job) + Count(x.job == job)
  {
    if q == [] {
      assert [x][1..] == [];
    } else {
      assert (q + [x])[1..] == q[1..] + [x];
      QueuedPush(q[1..], x, job);
    }
  }

  function Finished(done: seq<Done>, job: Job): nat {
    if done == [] then 0 else Finished(done[..|done| - 1], job) + Count(done[|done| - 1].job == job)
  }

  function Accepted(jobs: seq<Job>, job: Job): nat {
    if jobs == [] then 0 else Accepted(jobs[..|jobs| - 1], job) + Count(jobs[|jobs| - 1] == job)
  }

  /** Each accepted job is queued, carried by a goroutine, or has ended once in one way. */
  ghost predicate Conserved(s: Pool, job: Job) {
    Accepted(s.accepted, job) == Queued(s.queue, job) + Total(s.threads, Carries(job)) + Finished(s.done, job)
  }

  /** A step hands the job on: what leaves one place arrives in another. */
  ghost predicate HandsOn(s: Pool, t: Thread, m: Move, job: Job) {
    Queued(s.queue, job) + Count(Carrying(t, job))
    == Queued(m.queue, job) + Count(Carrying(m.next, job))
       + Count(m.spawned.Some? && m.spawned.value.job == job) + Count(m.done.Some? && m.done.value.job == job)
  }

  lemma TakingHandsOn(s: Pool, t: Thread, choice: bool, job: Job)
    requires (t.Idle? || t.Draining? || t.Submitting?) && ThreadMove(s, t, choice).Some?
    ensures HandsOn(s, t, ThreadMove(s, t, choice).value, job)
  {
    if t.Submitting? {
      QueuedPush(s.queue, t.item, job);
    }
  }

  /** Every other step leaves the queue alone. */
  lemma CarryingHandsOn(s: Pool, t: Thread, choice: bool, job: Job)
    requires !t.Idle? && !t.Draining? && !t.Submitting? && ThreadMove(s, t, choice).Some?
    ensures ThreadMove(s, t, choice).value.queue == s.queue
    ensures HandsOn(s, t, ThreadMove(s, t, choice).value, job)
  { }

  lemma MoveHandsOn(s: Pool, t: Thread, choice: bool, job: Job)
    requires ThreadMove(s, t, choice).Some?
    ensures HandsOn(s, t, ThreadMove(s, t, choice).value, job)
  {
    if t.Idle? || t.Draining? || t.Submitting? {
      TakingHandsOn(s, t, choice, job);
    } else {
      CarryingHandsOn(s, t, choice, job);
    }
  }

  lemma FinishedPush(done: seq<Done>, d: Done, job: Job)
    ensures Finished(done + [d], job) == Finished(done, job) + Count(d.job == job)
  {
    assert (done + [d])[..|done|] == done;
  }

  /** The outcomes after a step. */
  lemma FinishedApply(s: Pool, i: nat, m: Move, job: Job)
    requires i < |s.threads|
    ensures Finished(Apply(s, i, m).done, job) == Finished(s.done, job) + Count(m.done.Some? && m.done.value.job == job)
  {
    if m.done.Some? {
      FinishedPush(s.done, m.done.value, job);
    } else {
      assert Apply(s, i, m).done == s.done;
    }
  }

  /** The goroutines carrying the job after a step. */
  lemma CarriedApply(s: Pool, i: nat, m: Move, job: Job)
    requires i < |s.threads|
    ensures Total(Apply(s, i, m).threads, Carries(job)) + Count(Carrying(s.threads[i], job))
         == Total(s.threads, Carries(job)) + Count(Carrying(m.next, job)) + Count(m.spawned.Some? && m.spawned.value.job == job)
  {
    TotalApply(s, i, m, Carries(job));
  }

  lemma ApplyConserves(s: Pool, i: nat, m: Move, job: Job)
    requires i < |s.threads| && Conserved(s, job) && HandsOn(s, s.threads[i], m, job)
    ensures Conserved(Apply(s, i, m), job)
  {
    CarriedApply(s, i, m, job);
    FinishedApply(s, i, m, job);
    var s' := Apply(s, i, m);
    assert s'.queue == m.queue && s'.accepted == s.accepted;
  }

  lemma StepConserves(s: Pool, a: Action, job: Job)
    requires Conserved(s, job)
    ensures Conserved(Next(s, a), job)
  {
    match a {
      case Submit(j) =>
        QueuedPush(s.queue, Item(j, 0), job);
        assert (s.accepted + [j])[..|s.accepted|] == s.accepted;
      case Resume(_) => TotalWoken(s.threads, Carries(job));
      case StopResume => TotalWoken(s.threads, Carries(job));
      case Step(i, choice) =>
        if CanStep(s, i, choice) {
          MoveHandsOn(s, s.threads[i], choice, job);
          ApplyConserves(s, i, ThreadMove(s, s.threads[i], choice).value, job);
        }
      case _ =>
    }
  }

  /** In every run each accepted job is in exactly one place. */
  lemma {:induction false} JobsConserved(workers: nat, clock: int, acts: seq<Action>, job: Job)
    ensures Conserved(Run(NewPool(workers, clock), acts), job)
  {
    if acts == [] {
      IdleTotal(NewPool(workers, clock).threads, Carries(job));
    } else {
      JobsConserved(workers, clock, acts[..|acts| - 1], job);
      StepConserves(Run(NewPool(workers, clock), acts[..|acts| - 1]), acts[|acts| - 1], job);
    }
  }
}
