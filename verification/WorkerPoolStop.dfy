/** How the pool ends after Stop: termination, no deadlock, and what can be left in the queue. */
module WorkerPoolStop {
  import opened WorkerPool
  import opened WorkerPoolProofs
  import opened WorkerPoolSafety

  // ----- a ranking -----

  /** The work of putting a job off, as long as its window has not started. */
  function PutOffWork(x: Item, clock: int): nat {
    if x.job.window.Some? && clock < x.job.window.value.start then 14 else 0
  }

  function RestWork(drain: bool): nat {
    if drain then 1 else 2
  }

  /** An upper bound on the steps a goroutine still causes. */
  function Work(t: Thread, clock: int): nat {
    match t
    case Idle => 2
    case Draining => 1
    case Acquiring(x, drain) => RestWork(drain) + 9 + PutOffWork(x, clock)
    case AtGate(x, drain) => RestWork(drain) + 8 + PutOffWork(x, clock)
    case Asleep(x, drain) => RestWork(drain) + 8 + PutOffWork(x, clock)
    case Checking(x, drain) => RestWork(drain) + 7 + PutOffWork(x, clock)
    case Passed(_, drain, _) => RestWork(drain) + 6
    case SemWait(_, drain, _, _) => RestWork(drain) + 5
    case Dispatching(_, drain, _, _) => RestWork(drain) + 4
    case Leaving(_, _, drain, held) => RestWork(drain) + if held.Some? then 2 else 1
    case Exited => 0
    case Spawned(_) => 13
    case Armed(_, _) => 12
    case Submitting(_, _) => 11
    case Gone => 0
  }

  function WorkAt(clock: int): Thread -> nat {
    (t: Thread) => Work(t, clock)
  }

  function QueueWork(q: seq<Item>, clock: int): nat {
    if q == [] then 0 else 10 + PutOffWork(q[0], clock) + QueueWork(q[1..], clock)
  }

  function Rank(s: Pool): nat {
    Total(s.threads, WorkAt(s.clock)) + QueueWork(s.queue, s.clock)
  }

  lemma {:induction false} QueueWorkPush(q: seq<Item>, x: Item, clock: int)
    ensures QueueWork(q + [x], clock) == QueueWork(q, clock) + 10 + PutOffWork(x, clock)
  {
    if q == [] {
      assert [x][1..] == [];
    } else {
      assert (q + [x])[1..] == q[1..] + [x];
      QueueWorkPush(q[1..], x, clock);
    }
  }

  lemma {:induction false} QueueWorkLater(q: seq<Item>, clock: int, later: int)
    requires clock <= later
    ensures QueueWork(q, later) <= QueueWork(q, clock)
  {
    if q != [] {
      QueueWorkLater(q[1..], clock, later);
    }
  }

  function SpawnWork(m: Move): nat {
    if m.spawned.Some? then 13 else 0
  }

  /** The step's own work, its new goroutine and the queue afterwards are less than before. */
  ghost predicate UsesWork(s: Pool, t: Thread, m: Move) {
    Work(m.next, s.clock) + SpawnWork(m) + QueueWork(m.queue, s.clock) < Work(t, s.clock) + QueueWork(s.queue, s.clock)
  }

  lemma QueueStepUsesWork(s: Pool, t: Thread, choice: bool)
    requires (t.Idle? || t.Draining? || t.Submitting?) && TimesOk(t, s.clock) && ThreadMove(s, t, choice).Some?
    ensures UsesWork(s, t, ThreadMove(s, t, choice).value)
  {
    if t.Submitting? {
      QueueWorkPush(s.queue, t.item, s.clock);
    }
  }

  lemma EarlyStepUsesWork(s: Pool, t: Thread, choice: bool)
    requires (t.Acquiring? || t.AtGate? || t.Checking?) && s.paused == {} && ThreadMove(s, t, choice).Some?
    ensures UsesWork(s, t, ThreadMove(s, t, choice).value)
  { }

  lemma LateStepUsesWork(s: Pool, t: Thread, choice: bool)
    requires t.Passed? || t.SemWait? || t.Dispatching? || t.Leaving? || t.Spawned? || t.Armed?
    requires ThreadMove(s, t, choice).Some?
    ensures UsesWork(s, t, ThreadMove(s, t, choice).value)
  { }

  /** With no group paused, every step of a goroutine uses up work. */
  lemma MoveUsesWork(s: Pool, t: Thread, choice: bool)
    requires TimesOk(t, s.clock) && s.paused == {} && ThreadMove(s, t, choice).Some?
    ensures UsesWork(s, t, ThreadMove(s, t, choice).value)
  {
    if t.Idle? || t.Draining? || t.Submitting? {
      QueueStepUsesWork(s, t, choice);
    } else if t.Acquiring? || t.AtGate? || t.Checking? {
      EarlyStepUsesWork(s, t, choice);
    } else {
      LateStepUsesWork(s, t, choice);
    }
  }

  // ----- after Stop -----

  ghost predicate Safe(s: Pool) {
    WindowsKept(s) && NoLostWakeup(s) && SemaphoresOk(s) && forall g :: SectionIsSlots(s, g)
  }

  /** Both parts of Stop are done and no group was paused since. */
  predicate Stopped(s: Pool) {
    s.closed && s.paused == {}
  }

  /** What may still happen: no new job and no new pause. */
  predicate Quiet(a: Action) {
    !a.Submit? && !a.Pause?
  }

  lemma SafeKept(s: Pool, a: Action)
    requires Safe(s)
    ensures Safe(Next(s, a))
  {
    WindowsStayKept(s, a);
    WakeupsKept(s, a);
    SemaphoresStay(s, a);
    forall g ensures SectionIsSlots(Next(s, a), g) {
      SectionStaysSlots(s, a, g);
    }
  }

  lemma {:induction false} RunsAreSafe(workers: nat, clock: int, acts: seq<Action>)
    ensures Safe(Run(NewPool(workers, clock), acts))
  {
    WindowsRespected(workers, clock, acts);
    SleepersArePaused(workers, clock, acts);
    AtMostTwoPerGroup(workers, clock, acts, 0);
    forall g ensures SectionIsSlots(Run(NewPool(workers, clock), acts), g) {
      AtMostTwoPerGroup(workers, clock, acts, g);
    }
  }

  lemma ApplyRanks(s: Pool, i: nat, m: Move)
    requires i < |s.threads|
    ensures Rank(Apply(s, i, m)) + Work(s.threads[i], s.clock) + QueueWork(s.queue, s.clock)
         == Rank(s) + Work(m.next, s.clock) + SpawnWork(m) + QueueWork(m.queue, s.clock)
  {
    TotalApply(s, i, m, WorkAt(s.clock));
  }

  /** 1 for a goroutine step that takes place, 0 for everything else. */
  function Effective(s: Pool, a: Action): nat {
    Count(a.Step? && CanStep(s, a.thread, a.choice))
  }

  /** Waiting creates no work. */
  lemma RankWaits(s: Pool, elapsed: nat)
    requires WindowsKept(s)
    ensures Rank(Next(s, Tick(elapsed))) <= Rank(s)
  {
    TotalBelow(s.threads, s.threads, WorkAt(s.clock + elapsed), WorkAt(s.clock));
    QueueWorkLater(s.queue, s.clock, s.clock + elapsed);
  }

  lemma RankFalls(s: Pool, a: Action)
    requires WindowsKept(s) && Stopped(s) && Quiet(a)
    ensures Stopped(Next(s, a)) && Rank(Next(s, a)) + Effective(s, a) <= Rank(s)
  {
    match a {
      case Resume(_) => TotalWoken(s.threads, WorkAt(s.clock));
      case StopResume => TotalWoken(s.threads, WorkAt(s.clock));
      case Tick(elapsed) => RankWaits(s, elapsed);
      case Step(i, choice) =>
        if CanStep(s, i, choice) {
          MoveUsesWork(s, s.threads[i], choice);
          ApplyRanks(s, i, ThreadMove(s, s.threads[i], choice).value);
        }
      case _ =>
    }
  }

  /** The goroutine steps of a run that take place. */
  function EffectiveSteps(s: Pool, acts: seq<Action>): nat {
    if acts == [] then 0
    else EffectiveSteps(s, acts[..|acts| - 1]) + Effective(Run(s, acts[..|acts| - 1]), acts[|acts| - 1])
  }

  /** After Stop every run comes to an end: it has at most Rank(s) goroutine steps. */
  lemma {:induction false} StopTerminates(s: Pool, acts: seq<Action>)
    requires Safe(s) && Stopped(s) && forall i | 0 <= i < |acts| :: Quiet(acts[i])
    ensures Safe(Run(s, acts)) && Stopped(Run(s, acts))
    ensures EffectiveSteps(s, acts) + Rank(Run(s, acts)) <= Rank(s)
  {
    if acts != [] {
      var n := |acts| - 1;
      StopTerminates(s, acts[..n]);
      SafeKept(Run(s, acts[..n]), acts[n]);
      RankFalls(Run(s, acts[..n]), acts[n]);
    }
  }

  // ----- no deadlock -----

  /** Whoever holds a slot of a semaphore can go on. */
  lemma SectionCanStep(s: Pool, j: nat, g: int)
    requires SemaphoresOk(s) && SectionIsSlots(s, g) && j < |s.threads| && InSection(s.threads[j], g)
    ensures CanStep(s, j, false) && LiveWorker(s.threads[j])
  {
    TotalIncludes(s.threads, j, Sections(g));
    assert RightSemaphore(s.sems, s.threads[j]);
  }

  /** While a worker is awake, some worker can take a step at once. */
  lemma WorkersNeverStuck(s: Pool, i: nat) returns (j: nat, choice: bool)
    requires Safe(s) && s.closed && i < |s.threads| && LiveWorker(s.threads[i]) && !s.threads[i].Asleep?
    ensures CanStep(s, j, choice) && LiveWorker(s.threads[j])
  {
    var t := s.threads[i];
    j, choice := i, false;
    if t.SemWait? && s.slots[t.sem] == SEMAPHORE_SIZE {
      var g := t.item.job.group;
      assert SectionIsSlots(s, g);
      j := TotalPositive(s.threads, Sections(g));
      SectionCanStep(s, j, g);
    } else if t.Leaving? && t.held.Some? {
      SectionCanStep(s, i, t.group);
    }
  }

  /** A requeue goroutine can always finish, once the clock has moved on. */
  lemma RequeuesNeverStuck(s: Pool, i: nat) returns (elapsed: nat)
    requires Safe(s) && s.closed && i < |s.threads| && s.threads[i] != Exited && s.threads[i] != Gone
    requires !LiveWorker(s.threads[i])
    ensures CanStep(Next(s, Tick(elapsed)), i, false)
  {
    var t := s.threads[i];
    elapsed := if t.Submitting? && t.deadline > s.clock then t.deadline - s.clock else 0;
    assert TimesOk(t, s.clock);
  }

  /** Asleep at the gate, or ended. */
  predicate Still(t: Thread) {
    t.Asleep? || t == Exited || t == Gone
  }

  /** After the stop signal, some goroutine can take a step now or later exactly when one is neither asleep nor ended. */
  lemma NoDeadlock(s: Pool)
    requires Safe(s) && s.closed
    ensures (exists elapsed: nat, i: nat, choice :: CanStep(Next(s, Tick(elapsed)), i, choice))
       <==> (exists i :: 0 <= i < |s.threads| && !Still(s.threads[i]))
  {
    if i :| 0 <= i < |s.threads| && !Still(s.threads[i]) {
      if LiveWorker(s.threads[i]) {
        var j, choice := WorkersNeverStuck(s, i);
        assert Next(s, Tick(0)) == s;
        assert CanStep(Next(s, Tick(0)), j, choice);
      } else {
        var elapsed := RequeuesNeverStuck(s, i);
        assert CanStep(Next(s, Tick(elapsed)), i, false);
      }
    }
  }

  predicate AllEnded(s: Pool) {
    forall i | 0 <= i < |s.threads| :: s.threads[i] == Exited || s.threads[i] == Gone
  }

  /** With no group paused nobody sleeps, so as long as a goroutine is left, some goroutine can go on. */
  lemma StoppedNeverStuck(s: Pool)
    requires Safe(s) && Stopped(s) && !AllEnded(s)
    ensures exists elapsed: nat, i: nat, choice :: CanStep(Next(s, Tick(elapsed)), i, choice)
  {
    var i :| 0 <= i < |s.threads| && s.threads[i] != Exited && s.threads[i] != Gone;
    assert !Still(s.threads[i]);
    NoDeadlock(s);
  }

  lemma {:induction false} EndedCarryNothing(ts: seq<Thread>, job: Job)
    requires forall i | 0 <= i < |ts| :: ts[i] == Exited || ts[i] == Gone
    ensures Total(ts, Carries(job)) == 0
  {
    if ts != [] {
      EndedCarryNothing(ts[..|ts| - 1], job);
    }
  }

  /** At the end each accepted job has ended once, or is one of the requeued jobs left in the queue. */
  lemma FinalAccount(workers: nat, clock: int, acts: seq<Action>, job: Job)
    requires AllEnded(Run(NewPool(workers, clock), acts))
    ensures var s := Run(NewPool(workers, clock), acts);
            Accepted(s.accepted, job) == Finished(s.done, job) + Queued(s.queue, job)
  {
    JobsConserved(workers, clock, acts, job);
    EndedCarryNothing(Run(NewPool(workers, clock), acts).threads, job);
  }

  // ----- the queue at the end -----

  /** A worker ends only from the drain loop, on an empty queue. */
  lemma MoveEndsWorker(s: Pool, t: Thread, choice: bool)
    requires ThreadMove(s, t, choice).Some?
    ensures var m := ThreadMove(s, t, choice).value;
            && (LiveWorker(t) && !LiveWorker(m.next) ==> t.Draining? && s.queue == [] && m.queue == [])
            && (!LiveWorker(t) ==> !LiveWorker(m.next))
  { }

  /** When the last worker exits, the queue is empty. */
  lemma LastExitFindsEmptyQueue(s: Pool, a: Action)
    requires !WorkersGone(s) && WorkersGone(Next(s, a))
    ensures s.queue == [] && Next(s, a).queue == []
  {
    var k :| 0 <= k < |s.threads| && LiveWorker(s.threads[k]);
    assert !LiveWorker(Next(s, a).threads[k]);
    if a.Step? && CanStep(s, a.thread, a.choice) {
      MoveEndsWorker(s, s.threads[a.thread], a.choice);
    }
  }

  /** A worker that has not seen the stop signal. */
  predicate Unstopped(t: Thread) {
    match t
    case Idle => true
    case Acquiring(_, drain) => !drain
    case AtGate(_, drain) => !drain
    case Asleep(_, drain) => !drain
    case Checking(_, drain) => !drain
    case Passed(_, drain, _) => !drain
    case SemWait(_, drain, _, _) => !drain
    case Dispatching(_, drain, _, _) => !drain
    case Leaving(_, _, drain, _) => !drain
    case _ => false
  }

  lemma MoveStaysUnstopped(s: Pool, t: Thread, choice: bool)
    requires Unstopped(t) && !s.closed && ThreadMove(s, t, choice).Some?
    ensures Unstopped(ThreadMove(s, t, choice).value.next)
  { }

  /** Before Stop the first worker is at work; once all workers are gone, the queue holds requeued jobs only. */
  ghost predicate OnlyRequeued(s: Pool) {
    && (s.closed || (s.threads != [] && Unstopped(s.threads[0])))
    && (WorkersGone(s) ==> forall i | 0 <= i < |s.queue| :: s.queue[i].deferrals == 1)
  }

  lemma FirstStaysUnstopped(s: Pool, a: Action)
    requires !s.closed && s.threads != [] && Unstopped(s.threads[0])
    ensures Next(s, a).threads != [] && Unstopped(Next(s, a).threads[0])
  {
    if a.Step? && CanStep(s, a.thread, a.choice) && a.thread == 0 {
      MoveStaysUnstopped(s, s.threads[0], a.choice);
    }
  }

  /** Without workers, only a requeue adds to the queue. */
  lemma MoveRequeues(s: Pool, t: Thread, choice: bool)
    requires ThreadMove(s, t, choice).Some? && !LiveWorker(t) && TimesOk(t, s.clock)
    ensures var m := ThreadMove(s, t, choice).value;
            m.queue == s.queue || exists x: Item :: m.queue == s.queue + [x] && x.deferrals == 1
  {
    if t.Submitting? {
      assert t.item.deferrals == 1;
    }
  }

  lemma OnlyRequeuedKept(s: Pool, a: Action)
    requires OnlyRequeued(s) && WindowsKept(s) && (s.closed ==> !a.Submit?)
    ensures OnlyRequeued(Next(s, a))
  {
    if !s.closed {
      FirstStaysUnstopped(s, a);
      assert LiveWorker(Next(s, a).threads[0]);
    } else if WorkersGone(Next(s, a)) {
      if !WorkersGone(s) {
        LastExitFindsEmptyQueue(s, a);
      } else if a.Step? && CanStep(s, a.thread, a.choice) {
        MoveRequeues(s, s.threads[a.thread], a.choice);
      }
    }
  }

  /** With at least one worker and no Submit after Stop, only requeued jobs can be left behind. */
  lemma {:induction false} OnlyRequeuedLeft(workers: nat, clock: int, acts: seq<Action>)
    requires workers >= 1
    requires forall i | 0 <= i < |acts| && Run(NewPool(workers, clock), acts[..i]).closed :: !acts[i].Submit?
    ensures OnlyRequeued(Run(NewPool(workers, clock), acts))
  {
    if acts != [] {
      var n := |acts| - 1;
      forall i | 0 <= i < n && Run(NewPool(workers, clock), acts[..n][..i]).closed ensures !acts[..n][i].Submit? {
        assert acts[..n][..i] == acts[..i];
      }
      OnlyRequeuedLeft(workers, clock, acts[..n]);
      WindowsRespected(workers, clock, acts[..n]);
      OnlyRequeuedKept(Run(NewPool(workers, clock), acts[..n]), acts[n]);
    }
  }
}
