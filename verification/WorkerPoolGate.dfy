/**
 What the worker pool does to a job on its way: the order of the queue, the
 pause gate, the window check, the wait for the semaphore and the requeue timer.
 */
module WorkerPoolGate {
  import opened Common
  import opened WorkerPool
  import opened WorkerPoolProofs
  import opened WorkerPoolSafety

  // ----- the queue -----

  /** The job that an action puts into the queue. */
  function Entered(s: Pool, a: Action): seq<Item> {
    match a
    case Submit(job) => if |Next(s, a).accepted| > |s.accepted| then [Item(job, 0)] else []
    case Step(i, choice) =>
      if i < |s.threads| && s.threads[i].Submitting? && Next(s, a).threads[i].Gone? && Next(s, a).done == s.done
      then [s.threads[i].item] else []
    case _ => []
  }

  /** The job that an action hands to a worker. */
  function Taken(s: Pool, a: Action): seq<Item> {
    if a.Step? && a.thread < |s.threads| && !s.threads[a.thread].Acquiring? && Next(s, a).threads[a.thread].Acquiring?
    then [Next(s, a).threads[a.thread].item] else []
  }

  function AllEntered(s: Pool, acts: seq<Action>): seq<Item> {
    if acts == [] then []
    else AllEntered(s, acts[..|acts| - 1]) + Entered(Run(s, acts[..|acts| - 1]), acts[|acts| - 1])
  }

  function AllTaken(s: Pool, acts: seq<Action>): seq<Item> {
    if acts == [] then []
    else AllTaken(s, acts[..|acts| - 1]) + Taken(Run(s, acts[..|acts| - 1]), acts[|acts| - 1])
  }

  lemma QueueStep(s: Pool, a: Action)
    ensures s.queue + Entered(s, a) == Taken(s, a) + Next(s, a).queue
  {
    if a.Step? && CanStep(s, a.thread, a.choice) {
      MoveQueue(s, s.threads[a.thread], a.choice);
    }
  }

  lemma MoveQueue(s: Pool, t: Thread, choice: bool)
    requires ThreadMove(s, t, choice).Some?
    ensures var m := ThreadMove(s, t, choice).value;
            && (!t.Acquiring? && m.next.Acquiring? ==> s.queue == [m.next.item] + m.queue && m.done.None?)
            && (t.Submitting? && m.next.Gone? && m.done.None? ==> m.queue == s.queue + [t.item])
            && (!(!t.Acquiring? && m.next.Acquiring?) && !(t.Submitting? && m.next.Gone? && m.done.None?) ==> m.queue == s.queue)
  { }

  lemma Chained(q: seq<Item>, e: seq<Item>, t: seq<Item>, q1: seq<Item>, e1: seq<Item>, t1: seq<Item>, q2: seq<Item>)
    requires q + e == t + q1 && q1 + e1 == t1 + q2
    ensures q + (e + e1) == (t + t1) + q2
  {
    assert q + (e + e1) == (q + e) + e1;
    assert (t + q1) + e1 == t + (q1 + e1);
    assert t + (t1 + q2) == (t + t1) + q2;
  }

  /** Jobs leave the queue in the order in which they entered it, in every run. */
  lemma {:induction false} QueueIsFifo(s: Pool, acts: seq<Action>)
    ensures s.queue + AllEntered(s, acts) == AllTaken(s, acts) + Run(s, acts).queue
  {
    if acts != [] {
      var n := |acts| - 1;
      var s1 := Run(s, acts[..n]);
      QueueIsFifo(s, acts[..n]);
      QueueStep(s1, acts[n]);
      Chained(s.queue, AllEntered(s, acts[..n]), AllTaken(s, acts[..n]), s1.queue,
              Entered(s1, acts[n]), Taken(s1, acts[n]), Next(s1, acts[n]).queue);
    }
  }

  /** A submitted job is accepted exactly while fewer than a hundred jobs are queued. */
  lemma SubmitAcceptedIff(s: Pool, job: Job)
    ensures Next(s, Submit(job)).accepted == s.accepted + [job] <==> |s.queue| < 100
    ensures |s.queue| >= 100 ==> Next(s, Submit(job)) == s
  {
    assert |s.accepted + [job]| == |s.accepted| + 1;
  }

  /** The queue never holds more than a hundred jobs. */
  lemma {:induction false} QueueBounded(workers: nat, clock: int, acts: seq<Action>)
    ensures |Run(NewPool(workers, clock), acts).queue| <= 100
  {
    if acts != [] {
      var s, a := Run(NewPool(workers, clock), acts[..|acts| - 1]), acts[|acts| - 1];
      QueueBounded(workers, clock, acts[..|acts| - 1]);
      if a.Step? && CanStep(s, a.thread, a.choice) {
        MoveBounded(s, s.threads[a.thread], a.choice);
      }
    }
  }

  lemma MoveBounded(s: Pool, t: Thread, choice: bool)
    requires ThreadMove(s, t, choice).Some? && |s.queue| <= 100
    ensures |ThreadMove(s, t, choice).value.queue| <= 100
  { }

  // ----- the pause gate -----

  /** At the gate a job of a paused group goes to sleep and any other goes on. */
  lemma GateDecides(s: Pool, item: Item, drain: bool, choice: bool)
    ensures var m := ThreadMove(s, AtGate(item, drain), choice);
            && m.Some? && m.value.done.None?
            && m.value.next == if item.job.group in s.paused then Asleep(item, drain) else Checking(item, drain)
  { }

  /** The job of the group has passed the gate and is not yet done. */
  predicate Beyond(t: Thread, g: int) {
    match t
    case Checking(x, _) => x.job.group == g
    case Passed(x, _, _) => x.job.group == g
    case SemWait(x, _, _, _) => x.job.group == g
    case Dispatching(x, _, _, _) => x.job.group == g
    case _ => false
  }

  /** A job gets past the gate only from the gate, and only while its group is not paused. */
  lemma OnlyThroughGate(s: Pool, t: Thread, choice: bool, g: int)
    requires ThreadMove(s, t, choice).Some? && Beyond(ThreadMove(s, t, choice).value.next, g)
    ensures (Beyond(t, g) || (t.AtGate? && g !in s.paused)) && Cargo(t) == Cargo(ThreadMove(s, t, choice).value.next)
  { }

  predicate ResumesGroup(a: Action, g: int) {
    a == Resume(g) || a == StopResume
  }

  ghost predicate NoneResumes(acts: seq<Action>, g: int) {
    forall i | 0 <= i < |acts| :: !ResumesGroup(acts[i], g)
  }

  /** Whoever is past the gate in s' was already past it in s, with the same job. */
  ghost predicate NoneGotPast(s: Pool, s': Pool, g: int) {
    forall i | 0 <= i < |s'.threads| && Beyond(s'.threads[i], g) ::
      i < |s.threads| && Beyond(s.threads[i], g) && Cargo(s.threads[i]) == Cargo(s'.threads[i])
  }

  lemma PausedStep(s: Pool, a: Action, g: int)
    requires g in s.paused && !ResumesGroup(a, g)
    ensures g in Next(s, a).paused && NoneGotPast(s, Next(s, a), g)
  {
    if a.Step? && CanStep(s, a.thread, a.choice) {
      var t := s.threads[a.thread];
      if Beyond(ThreadMove(s, t, a.choice).value.next, g) {
        OnlyThroughGate(s, t, a.choice, g);
      }
    }
  }

  lemma {:induction false} PausedRun(s: Pool, acts: seq<Action>, g: int)
    requires g in s.paused && NoneResumes(acts, g)
    ensures g in Run(s, acts).paused && NoneGotPast(s, Run(s, acts), g)
  {
    if acts != [] {
      var n := |acts| - 1;
      PausedRun(s, acts[..n], g);
      PausedStep(Run(s, acts[..n]), acts[n], g);
    }
  }

  /** From a PauseGroup on, until the group is resumed, none of its jobs gets past the gate. */
  lemma PauseHolds(s: Pool, acts: seq<Action>, g: int)
    requires NoneResumes(acts, g)
    ensures var s' := Run(Next(s, Pause(g)), acts); g in s'.paused && NoneGotPast(s, s', g)
  {
    PausedRun(Next(s, Pause(g)), acts, g);
  }

  /** Action i pauses the group and no later one resumes it. */
  ghost predicate PausedAt(acts: seq<Action>, i: int, g: int) {
    0 <= i < |acts| && acts[i] == Pause(g) && forall k | i < k < |acts| :: !ResumesGroup(acts[k], g)
  }

  ghost predicate PausedSince(acts: seq<Action>, g: int) {
    exists i :: PausedAt(acts, i, g)
  }

  lemma PausedSinceNext(acts: seq<Action>, a: Action, g: int)
    ensures PausedSince(acts + [a], g) <==> a == Pause(g) || (PausedSince(acts, g) && !ResumesGroup(a, g))
  {
    var all := acts + [a];
    assert a == Pause(g) ==> PausedAt(all, |acts|, g);
    if i :| PausedAt(acts, i, g) && !ResumesGroup(a, g) {
      assert PausedAt(all, i, g);
    }
    if i :| PausedAt(all, i, g) && a != Pause(g) {
      assert !ResumesGroup(all[|acts|], g);
      assert forall k | i < k < |acts| :: acts[k] == all[k];
      assert PausedAt(acts, i, g);
    }
  }

  /** A group is paused exactly when it was paused and not resumed since. */
  lemma {:induction false} PausedIff(workers: nat, clock: int, acts: seq<Action>, g: int)
    ensures g in Run(NewPool(workers, clock), acts).paused <==> PausedSince(acts, g)
  {
    if acts != [] {
      var n := |acts| - 1;
      PausedIff(workers, clock, acts[..n], g);
      PauseChanges(Run(NewPool(workers, clock), acts[..n]), acts[n], g);
      PausedSinceNext(acts[..n], acts[n], g);
      assert acts[..n] + [acts[n]] == acts;
    }
  }

  lemma PauseChanges(s: Pool, a: Action, g: int)
    ensures g in Next(s, a).paused <==> a == Pause(g) || (g in s.paused && !ResumesGroup(a, g))
  { }

  /** Resuming a group lets its sleepers go on. */
  lemma ResumeReleases(s: Pool, i: nat, choice: bool)
    requires i < |s.threads| && s.threads[i].Asleep?
    ensures var t, s' := s.threads[i], Next(s, Resume(s.threads[i].item.job.group));
            && i < |s'.threads| && CanStep(s', i, choice)
            && Next(s', Step(i, choice)).threads[i] == Checking(t.item, t.drain)
  { }

  // ----- the window check -----

  /** A job passes, is skipped or is put off exactly by where the clock stands to its window. */
  lemma WindowDecides(s: Pool, item: Item, drain: bool, choice: bool)
    ensures var m, w := ThreadMove(s, Checking(item, drain), choice), item.job.window;
            && m.Some?
            && (m.value.next.Passed? <==> w.None? || w.value.start <= s.clock <= w.value.end - 15 * MINUTE)
            && (m.value.done == Some(Done(item.job, SkippedLate(s.clock))) <==> w.Some? && w.value.end - 15 * MINUTE < s.clock)
            && (m.value.spawned.Some? <==> w.Some? && s.clock < w.value.start && s.clock <= w.value.end - 15 * MINUTE)
            && (m.value.spawned.Some? ==> m.value.spawned.value == item.(deferrals := item.deferrals + 1))
  { }

  // ----- the semaphore -----

  /** A waiting job gets into the dispatch section exactly while fewer than two jobs of its group are in it. */
  lemma SemaphoreAdmitsIff(s: Pool, i: nat, choice: bool)
    requires SemaphoresOk(s) && i < |s.threads| && s.threads[i].SemWait? && SectionIsSlots(s, s.threads[i].item.job.group)
    ensures CanStep(s, i, choice) <==> Total(s.threads, Sections(s.threads[i].item.job.group)) < 2
  {
    assert RightSemaphore(s.sems, s.threads[i]);
  }

  // ----- the requeue timer -----

  /** The timer of a deferred job is due at the start of its window, but no sooner than in ten seconds. */
  lemma TimerDue(s: Pool, item: Item, choice: bool)
    requires item.job.window.Some?
    ensures var m := ThreadMove(s, Spawned(item), choice);
            && m.Some? && m.value.next.Armed? && m.value.next.item == item
            && var due, start := m.value.next.due, item.job.window.value.start;
               due >= start && due >= s.clock + 10 * SECOND && (due == start || due == s.clock + 10 * SECOND)
  { }

  /** A requeue fires no sooner than it is due, and is dropped no sooner than thirty seconds after it fired. */
  lemma RequeueTries(s: Pool, t: Thread, choice: bool)
    requires ThreadMove(s, t, choice).Some?
    ensures var m := ThreadMove(s, t, choice).value;
            && (m.next.Submitting? ==> t.Armed? && t.due <= s.clock && m.next == Submitting(t.item, s.clock + 30 * SECOND))
            && (m.done.Some? && m.done.value.outcome.Dropped? ==> t.Submitting? && t.deadline <= s.clock)
            && (m.done.Some? && m.done.value.outcome.Cancelled? ==> t.Armed? && s.closed)
  { }
}
