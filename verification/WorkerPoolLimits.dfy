/**
 Where the guarantees of the worker pool end, with the exact conditions: when a
 second job gets a node, when a stopped pool is blocked, and when a deferred job
 can be left in the queue.
 */
module WorkerPoolLimits {
  import opened Common
  import opened WorkerPool
  import opened WorkerPoolProofs
  import opened WorkerPoolSafety
  import opened WorkerPoolStop

  lemma NoNewPause(s: Pool, a: Action)
    requires s.stopping && s.paused == {} && !a.Pause?
    ensures Next(s, a).stopping && Next(s, a).paused == {}
  { }

  /** Stop leaves no group paused if none is paused between its two parts or later. */
  lemma {:induction false} StopSettles(s: Pool, acts: seq<Action>)
    requires forall i | 0 <= i < |acts| :: !acts[i].Pause?
    ensures var t := Run(Next(s, StopResume), acts);
            t.stopping && t.paused == {} && Stopped(Next(t, StopClose))
  {
    if acts != [] {
      StopSettles(s, acts[..|acts| - 1]);
      NoNewPause(Run(Next(s, StopResume), acts[..|acts| - 1]), acts[|acts| - 1]);
    }
  }

  // ----- reaching states step by step -----

  ghost predicate Reachable(workers: nat, s: Pool) {
    exists acts :: Run(NewPool(workers, 0), acts) == s
  }

  lemma Start(workers: nat)
    ensures Reachable(workers, NewPool(workers, 0))
  {
    assert Run(NewPool(workers, 0), []) == NewPool(workers, 0);
  }

  lemma Go(workers: nat, s: Pool, a: Action)
    requires Reachable(workers, s)
    ensures Reachable(workers, Next(s, a))
  {
    var acts :| Run(NewPool(workers, 0), acts) == s;
    assert (acts + [a])[..|acts|] == acts;
    assert Run(NewPool(workers, 0), acts + [a]) == Next(s, a);
  }

  /** A goroutine step whose effect is `m`. */
  lemma GoStep(workers: nat, s: Pool, i: nat, choice: bool, m: Move) returns (s': Pool)
    requires Reachable(workers, s) && i < |s.threads| && ThreadMove(s, s.threads[i], choice) == Some(m)
    ensures s' == Apply(s, i, m) && Reachable(workers, s')
  {
    Go(workers, s, Step(i, choice));
    s' := Apply(s, i, m);
  }

  /** A worker takes the only queued job and acquires its node. */
  lemma Acquires(workers: nat, s: Pool, i: nat, item: Item) returns (s': Pool)
    requires Reachable(workers, s) && i < |s.threads| && s.threads[i] == Idle
    requires s.queue == [item] && item.job.node !in s.active
    ensures Reachable(workers, s') && s'.threads == s.threads[i := AtGate(item, false)] && s'.queue == []
    ensures s'.clock == s.clock && s'.paused == s.paused && s'.stopping == s.stopping && s'.closed == s.closed
  {
    var s1 := GoStep(workers, s, i, true, TakeJob(s, false));
    assert s1.threads == s.threads[i := Acquiring(item, false)] && s1.queue == [];
    s' := GoStep(workers, s1, i, true, Become(s1, AtGate(item, false)).(active := s1.active[item.job.node := item.job.id]));
  }

  // ----- a node that is unregistered -----

  /** A worker about to acquire a node adds a holder exactly when the node's slot is free. */
  lemma AcquiringTakesNode(s: Pool, j: nat)
    requires j < |s.threads| && s.threads[j].Acquiring?
    ensures var node := s.threads[j].item.job.node;
            Total(Next(s, Step(j, true)).threads, Holders(node)) == Total(s.threads, Holders(node)) + Count(node !in s.active)
  {
    var node := s.threads[j].item.job.node;
    TotalApply(s, j, ThreadMove(s, s.threads[j], true).value, Holders(node));
  }

  /**
   Unregistering a node frees its job slot while its job is still being
   processed: in every state, a worker about to acquire the node then adds a
   holder, however many there are.
   */
  lemma UnregisterAdmitsSecondJob(s: Pool, j: nat)
    requires j < |s.threads| && s.threads[j].Acquiring?
    ensures var node := s.threads[j].item.job.node;
            Total(Next(Next(s, Unregister(node)), Step(j, true)).threads, Holders(node)) == Total(s.threads, Holders(node)) + 1
  {
    AcquiringTakesNode(Next(s, Unregister(s.threads[j].item.job.node)), j);
  }

  /** One worker acquires the node of the first job, the other takes the second job. */
  lemma TwoAcquire(s: Pool, item: Item) returns (s': Pool)
    requires Reachable(2, s) && s.threads == [Idle, Idle] && s.queue == [item, item] && item.job.node !in s.active
    ensures Reachable(2, s') && s'.threads == [AtGate(item, false), Acquiring(item, false)]
  {
    var s1 := GoStep(2, s, 1, true, TakeJob(s, false));
    assert s1.threads == [Idle, Acquiring(item, false)] && s1.queue == [item];
    s' := Acquires(2, s1, 0, item);
  }

  /** A pool with two workers reaches a state in which both hold one node. */
  lemma TwoJobsHoldNode(node: string, group: int) returns (s: Pool)
    ensures Reachable(2, s) && Total(s.threads, Holders(node)) == 2
  {
    var job := Job("", node, group, None);
    var item := Item(job, 0);
    Start(2);
    s := NewPool(2, 0);
    Go(2, s, Submit(job));
    s := Next(s, Submit(job));
    Go(2, s, Submit(job));
    s := Next(s, Submit(job));
    assert s.threads == [Idle, Idle] && s.queue == [item, item];
    s := TwoAcquire(s, item);
    s := SecondHolder(s, item);
  }

  lemma OneHolds(item: Item)
    ensures Total([AtGate(item, false), Acquiring(item, false)], Holders(item.job.node)) == 1
  {
    var ts, f := [AtGate(item, false), Acquiring(item, false)], Holders(item.job.node);
    assert ts[..1] == [AtGate(item, false)] && ts[..1][..0] == [];
    assert Total(ts[..1], f) == f(ts[0]);
  }

  lemma SecondHolder(s: Pool, item: Item) returns (s': Pool)
    requires Reachable(2, s) && s.threads == [AtGate(item, false), Acquiring(item, false)]
    ensures Reachable(2, s') && Total(s'.threads, Holders(item.job.node)) == 2
  {
    var node := item.job.node;
    OneHolds(item);
    UnregisterAdmitsSecondJob(s, 1);
    s' := GoTwice(2, s, Unregister(node), Step(1, true));
  }

  lemma GoTwice(workers: nat, s: Pool, a: Action, b: Action) returns (s': Pool)
    requires Reachable(workers, s)
    ensures s' == Next(Next(s, a), b) && Reachable(workers, s')
  {
    Go(workers, s, a);
    Go(workers, Next(s, a), b);
    s' := Next(Next(s, a), b);
  }

  // ----- a blocked pool -----

  predicate Wakes(a: Action) {
    a.Resume? || a.StopResume?
  }

  ghost predicate NoneWakes(acts: seq<Action>) {
    forall i | 0 <= i < |acts| :: !Wakes(acts[i])
  }

  lemma SleepsThrough(s: Pool, i: nat, a: Action)
    requires i < |s.threads| && Still(s.threads[i]) && !Wakes(a)
    ensures i < |Next(s, a).threads| && Next(s, a).threads[i] == s.threads[i]
  {
    assert a.Step? ==> !CanStep(s, i, a.choice);
  }

  /** A worker asleep at the gate of any pool stays there until some group is resumed, whatever else happens. */
  lemma {:induction false} SleepsOn(s: Pool, i: nat, acts: seq<Action>)
    requires i < |s.threads| && Still(s.threads[i]) && NoneWakes(acts)
    ensures i < |Run(s, acts).threads| && Run(s, acts).threads[i] == s.threads[i]
  {
    if acts != [] {
      SleepsOn(s, i, acts[..|acts| - 1]);
      SleepsThrough(Run(s, acts[..|acts| - 1]), i, acts[|acts| - 1]);
    }
  }

  ghost predicate AllStill(s: Pool) {
    forall i | 0 <= i < |s.threads| :: Still(s.threads[i])
  }

  lemma AllSleepThrough(s: Pool, a: Action)
    requires AllStill(s) && !Wakes(a)
    ensures Next(s, a).threads == s.threads
  {
    assert a.Step? ==> !CanStep(s, a.thread, a.choice);
  }

  lemma {:induction false} AllSleepOn(s: Pool, acts: seq<Action>)
    requires AllStill(s) && NoneWakes(acts)
    ensures Run(s, acts).threads == s.threads
  {
    if acts != [] {
      AllSleepOn(s, acts[..|acts| - 1]);
      AllSleepThrough(Run(s, acts[..|acts| - 1]), acts[|acts| - 1]);
    }
  }

  ghost predicate Stuck(s: Pool) {
    !WorkersGone(s) && forall i: nat, choice :: !CanStep(s, i, choice)
  }

  /** Workers are left, but no goroutine can step, nor can any after actions that resume no group. */
  ghost predicate Blocked(s: Pool) {
    forall acts: seq<Action> | NoneWakes(acts) :: Stuck(Run(s, acts))
  }

  lemma StillIsStuck(s: Pool, i: nat)
    requires AllStill(s) && i < |s.threads| && s.threads[i].Asleep?
    ensures Stuck(s)
  {
    assert LiveWorker(s.threads[i]);
  }

  /** A blocked pool has only sleeping and ended goroutines. */
  lemma BlockedIsStill(s: Pool)
    requires Safe(s) && s.closed && Blocked(s)
    ensures AllStill(s)
  {
    forall elapsed: nat, i: nat, choice ensures !CanStep(Next(s, Tick(elapsed)), i, choice) {
      var tick := [Tick(elapsed)];
      assert tick[..0] == [];
      assert Run(s, tick) == Next(s, Tick(elapsed));
      assert NoneWakes(tick) && Stuck(Run(s, tick));
    }
    NoDeadlock(s);
  }

  /** A stopped pool is blocked exactly when all its goroutines sleep or have ended and one sleeps. */
  lemma BlockedIff(s: Pool)
    requires Safe(s) && s.closed
    ensures Blocked(s) <==> AllStill(s) && exists i :: 0 <= i < |s.threads| && s.threads[i].Asleep?
  {
    if Blocked(s) {
      BlockedIsStill(s);
      assert NoneWakes([]) && Stuck(Run(s, []));
      var i :| 0 <= i < |s.threads| && LiveWorker(s.threads[i]);
      assert s.threads[i].Asleep?;
    }
    if AllStill(s) && exists i :: 0 <= i < |s.threads| && s.threads[i].Asleep? {
      var i :| 0 <= i < |s.threads| && s.threads[i].Asleep?;
      forall acts: seq<Action> | NoneWakes(acts) ensures Stuck(Run(s, acts)) {
        AllSleepOn(s, acts);
        StillIsStuck(Run(s, acts), i);
      }
    }
  }

  /** A group paused between the two parts of Stop can leave a pool blocked; resuming the group frees it. */
  lemma PauseDuringStopBlocks(node: string, group: int) returns (s: Pool)
    ensures Reachable(1, s) && s.closed && Blocked(s)
    ensures exists i: nat, choice :: CanStep(Next(s, Resume(group)), i, choice)
  {
    var job := Job("", node, group, None);
    var item := Item(job, 0);
    Start(1);
    s := NewPool(1, 0);
    Go(1, s, Submit(job));
    s := Next(s, Submit(job));
    s := Acquires(1, s, 0, item);
    assert s.threads == [AtGate(item, false)];
    s := StopsAroundPause(s, item);
    s := GoStep(1, s, 0, true, Become(s, Asleep(item, false)));
    assert s.threads == [Asleep(item, false)];
    var acts :| Run(NewPool(1, 0), acts) == s;
    RunsAreSafe(1, 0, acts);
    BlockedIff(s);
    assert CanStep(Next(s, Resume(group)), 0, true);
  }

  lemma StopsAroundPause(s: Pool, item: Item) returns (s': Pool)
    requires Reachable(1, s) && s.threads == [AtGate(item, false)]
    ensures Reachable(1, s') && s'.threads == [AtGate(item, false)] && s'.closed && item.job.group in s'.paused
  {
    Go(1, s, StopResume);
    s' := Next(s, StopResume);
    assert s'.threads == [AtGate(item, false)];
    Go(1, s', Pause(item.job.group));
    s' := Next(s', Pause(item.job.group));
    Go(1, s', StopClose);
    s' := Next(s', StopClose);
  }

  // ----- a deferred job left in the queue -----

  /** A job that is too early for its window is handed to a new goroutine. */
  lemma PutOff(s: Pool, item: Item) returns (s': Pool)
    requires Reachable(1, s) && s.threads == [AtGate(item, false)] && s.paused == {} && item.deferrals == 0
    requires item.job.window.Some?
    requires s.clock < item.job.window.value.start <= item.job.window.value.end - WINDOW_MARGIN
    ensures Reachable(1, s') && s'.queue == s.queue && s'.clock == s.clock
    ensures s'.threads == [Leaving(item.job.node, item.job.group, false, None), Spawned(item.(deferrals := 1))]
  {
    var s1 := GoStep(1, s, 0, true, Become(s, Checking(item, false)));
    assert s1.threads == [Checking(item, false)];
    var left := Leaving(item.job.node, item.job.group, false, None);
    s' := GoStep(1, s1, 0, true, Become(s1, left).(spawned := Some(item.(deferrals := 1))));
    assert s'.threads == [left, Spawned(item.(deferrals := 1))];
  }

  /** The worker rests and the new goroutine arms its timer. */
  lemma Arms(s: Pool, item: Item, node: string, group: int) returns (s': Pool)
    requires Reachable(1, s) && s.threads == [Leaving(node, group, false, None), Spawned(item)]
    requires item.job.window.Some? && s.clock + MIN_DELAY <= item.job.window.value.start
    ensures Reachable(1, s') && s'.queue == s.queue && s'.clock == s.clock
    ensures s'.threads == [Idle, Armed(item, item.job.window.value.start)]
  {
    var s1 := GoStep(1, s, 0, true, Become(s, Idle).(active := s.active - {node}));
    assert s1.threads == [Idle, Spawned(item)];
    s' := ArmsTimer(s1, item);
  }

  lemma ArmsTimer(s: Pool, item: Item) returns (s': Pool)
    requires Reachable(1, s) && s.threads == [Idle, Spawned(item)]
    requires item.job.window.Some? && s.clock + MIN_DELAY <= item.job.window.value.start
    ensures Reachable(1, s') && s'.queue == s.queue && s'.clock == s.clock
    ensures s'.threads == [Idle, Armed(item, item.job.window.value.start)]
  {
    s' := GoStep(1, s, 1, true, Become(s, Armed(item, item.job.window.value.start)));
    assert s'.threads == [Idle, Armed(item, item.job.window.value.start)];
  }

  /** The pool is stopped when the timer is due. */
  lemma StopsAtDue(s: Pool, item: Item, due: int) returns (s': Pool)
    requires Reachable(1, s) && s.threads == [Idle, Armed(item, due)] && s.clock <= due && s.queue == []
    ensures Reachable(1, s') && s'.threads == s.threads && s'.closed && s'.queue == [] && s'.clock == due
  {
    Go(1, s, Tick(due - s.clock));
    var s1 := Next(s, Tick(due - s.clock));
    Go(1, s1, StopResume);
    var s2 := Next(s1, StopResume);
    assert s2.threads == s.threads;
    Go(1, s2, StopClose);
    s' := Next(s2, StopClose);
  }

  lemma TimerFires(s: Pool, item: Item, due: int) returns (s': Pool)
    requires s.threads == [Idle, Armed(item, due)] && s.closed && s.queue == [] && s.clock == due
    ensures s' == Next(s, Step(1, true))
    ensures s'.threads == [Idle, Submitting(item, due + SUBMIT_TIMEOUT)] && s'.closed && s'.queue == []
  {
    s' := Next(s, Step(1, true));
  }

  /** The timer may win against the stop signal. */
  lemma TimerWins(s: Pool, item: Item, due: int) returns (s': Pool)
    requires Reachable(1, s) && s.threads == [Idle, Armed(item, due)] && s.closed && s.queue == [] && s.clock == due
    ensures Reachable(1, s') && s'.threads == [Idle, Submitting(item, due + SUBMIT_TIMEOUT)] && s'.closed && s'.queue == []
  {
    s' := TimerFires(s, item, due);
    Go(1, s, Step(1, true));
  }

  /** The last worker sees the stop signal and an empty queue. */
  lemma WorkerExits(s: Pool, t: Thread) returns (s': Pool)
    requires Reachable(1, s) && s.threads == [Idle, t] && s.closed && s.queue == []
    ensures Reachable(1, s') && s'.threads == [Exited, t] && s'.closed && s'.queue == []
  {
    var s1 := GoStep(1, s, 0, false, Become(s, Draining));
    assert s1.threads == [Draining, t];
    s' := GoStep(1, s1, 0, false, Become(s1, Exited));
    assert s'.threads == [Exited, t];
  }

  /** Only then the deferred job is put back. */
  lemma Strands(s: Pool, item: Item, deadline: int) returns (s': Pool)
    requires Reachable(1, s) && s.threads == [Exited, Submitting(item, deadline)] && s.closed && s.queue == []
    ensures Reachable(1, s') && s'.closed && WorkersGone(s') && s'.queue == [item]
  {
    s' := GoStep(1, s, 1, true, Become(s, Gone).(queue := s.queue + [item]));
    assert s'.threads == [Exited, Gone];
  }

  /** A deferred job can stay in the queue after the last worker has exited. */
  lemma RequeuedJobCanBeStranded(node: string, group: int) returns (s: Pool)
    ensures Reachable(1, s) && s.closed && WorkersGone(s) && s.queue != []
  {
    var start := 2 * MIN_DELAY;
    var job := Job("", node, group, Some(Window(start, start + WINDOW_MARGIN)));
    Start(1);
    s := NewPool(1, 0);
    Go(1, s, Submit(job));
    s := Next(s, Submit(job));
    s := Acquires(1, s, 0, Item(job, 0));
    s := PutOff(s, Item(job, 0));
    s := Arms(s, Item(job, 1), node, group);
    s := StopsAtDue(s, Item(job, 1), start);
    s := TimerWins(s, Item(job, 1), start);
    s := WorkerExits(s, Submitting(Item(job, 1), start + SUBMIT_TIMEOUT));
    s := Strands(s, Item(job, 1), start + SUBMIT_TIMEOUT);
  }

  // ----- when a job can be left in the queue -----

  /** A goroutine that still has a deferred job to put back. */
  predicate Requeues(t: Thread) {
    t.Spawned? || t.Armed? || t.Submitting?
  }

  ghost predicate AllQuiet(acts: seq<Action>) {
    forall i | 0 <= i < |acts| :: Quiet(acts[i])
  }

  /** Some continuation without a Submit puts a job into the queue. */
  ghost predicate CanStrand(s: Pool) {
    exists acts :: AllQuiet(acts) && Run(s, acts).queue != []
  }

  lemma {:induction false} RunThen(s: Pool, acts: seq<Action>, more: seq<Action>)
    ensures Run(s, acts + more) == Run(Run(s, acts), more)
  {
    if more == [] {
      assert acts + more == acts;
    } else {
      var n := |more| - 1;
      assert (acts + more)[..|acts| + n] == acts + more[..n];
      RunThen(s, acts, more[..n]);
    }
  }

  lemma StrandsAfter(s: Pool, a: Action)
    requires Quiet(a) && CanStrand(Next(s, a))
    ensures CanStrand(s)
  {
    var more :| AllQuiet(more) && Run(Next(s, a), more).queue != [];
    assert [a][..0] == [];
    RunThen(s, [a], more);
    assert AllQuiet([a] + more);
  }

  lemma SubmittingStrands(s: Pool, i: nat)
    requires i < |s.threads| && s.threads[i].Submitting? && s.queue == []
    ensures CanStrand(s)
  {
    var acts := [Step(i, true)];
    assert acts[..0] == [] && AllQuiet(acts);
    assert Run(s, acts).queue == [s.threads[i].item];
  }

  lemma ArmedStrands(s: Pool, i: nat)
    requires i < |s.threads| && s.threads[i].Armed? && s.queue == []
    ensures CanStrand(s)
  {
    var wait := Tick(if s.clock < s.threads[i].due then s.threads[i].due - s.clock else 0);
    var s1 := Next(s, wait);
    var s2 := Next(s1, Step(i, true));
    assert s2.threads[i].Submitting? && s2.queue == [];
    SubmittingStrands(s2, i);
    StrandsAfter(s1, Step(i, true));
    StrandsAfter(s, wait);
  }

  lemma SpawnedStrands(s: Pool, i: nat)
    requires i < |s.threads| && s.threads[i].Spawned? && TimesOk(s.threads[i], s.clock) && s.queue == []
    ensures CanStrand(s)
  {
    var s1 := Next(s, Step(i, true));
    assert s1.threads[i].Armed? && s1.queue == [];
    ArmedStrands(s1, i);
    StrandsAfter(s, Step(i, true));
  }

  lemma {:induction false} EndedAddsNothing(s: Pool, acts: seq<Action>)
    requires AllEnded(s) && AllQuiet(acts)
    ensures AllEnded(Run(s, acts)) && Run(s, acts).queue == s.queue
  {
    if acts != [] {
      EndedAddsNothing(s, acts[..|acts| - 1]);
      EndedStays(Run(s, acts[..|acts| - 1]), acts[|acts| - 1]);
    }
  }

  lemma EndedStays(s: Pool, a: Action)
    requires AllEnded(s) && Quiet(a)
    ensures AllEnded(Next(s, a)) && Next(s, a).queue == s.queue
  {
    assert a.Step? ==> !CanStep(s, a.thread, a.choice);
  }

  /**
   Once the last worker has left an empty queue, a job can still be stranded in
   it exactly when some goroutine has a deferred job to put back.
   */
  lemma CanStrandIff(s: Pool)
    requires Safe(s) && WorkersGone(s) && s.queue == []
    ensures CanStrand(s) <==> exists i :: 0 <= i < |s.threads| && Requeues(s.threads[i])
  {
    if i :| 0 <= i < |s.threads| && Requeues(s.threads[i]) {
      assert TimesOk(s.threads[i], s.clock);
      match s.threads[i] {
        case Spawned(_) => SpawnedStrands(s, i);
        case Armed(_, _) => ArmedStrands(s, i);
        case _ => SubmittingStrands(s, i);
      }
    } else {
      assert AllEnded(s);
      forall acts | AllQuiet(acts) ensures Run(s, acts).queue == [] {
        EndedAddsNothing(s, acts);
      }
    }
  }
}
