/** Safety of the worker pool in every interleaving: semaphores, node slots, windows, the gate. */
module WorkerPoolSafety {
  import opened WorkerPool
  import opened WorkerPoolProofs

  // ----- group semaphores -----

  /** Between acquiring and releasing a slot of the group's semaphore. */
  predicate InSection(t: Thread, g: int) {
    (t.Dispatching? && t.item.job.group == g) || (t.Leaving? && t.held.Some? && t.group == g)
  }

  function Sections(g: int): Thread -> nat {
    (t: Thread) => Count(InSection(t, g))
  }

  /** The slots held in a group's semaphore. */
  function Slots(sems: map<int, nat>, slots: seq<nat>, g: int): nat {
    if g in sems && sems[g] < |slots| then slots[sems[g]] else 0
  }

  /** A goroutine that refers to a semaphore refers to the one of its group. */
  predicate RightSemaphore(sems: map<int, nat>, t: Thread) {
    match t
    case SemWait(x, _, _, sem) => x.job.group in sems && sems[x.job.group] == sem
    case Dispatching(x, _, _, sem) => x.job.group in sems && sems[x.job.group] == sem
    case Leaving(_, g, _, held) => held.Some? ==> g in sems && sems[g] == held.value
    case _ => true
  }

  ghost predicate SemaphoreTable(sems: map<int, nat>, slots: seq<nat>) {
    && (forall g | g in sems :: sems[g] < |slots|)
    && (forall g, h | g in sems && h in sems && g != h :: sems[g] != sems[h])
    && (forall i | 0 <= i < |slots| :: slots[i] <= SEMAPHORE_SIZE)
  }

  ghost predicate SemaphoresOk(s: Pool) {
    && SemaphoreTable(s.sems, s.slots)
    && (forall i | 0 <= i < |s.threads| :: RightSemaphore(s.sems, s.threads[i]))
  }

  /** The jobs of a group in the dispatch section are exactly the slots held in its semaphore. */
  ghost predicate SectionIsSlots(s: Pool, g: int) {
    Total(s.threads, Sections(g)) == Slots(s.sems, s.slots, g)
  }

  lemma MoveKeepsSemaphores(s: Pool, t: Thread, choice: bool)
    requires SemaphoreTable(s.sems, s.slots) && RightSemaphore(s.sems, t) && ThreadMove(s, t, choice).Some?
    ensures var m := ThreadMove(s, t, choice).value;
            && SemaphoreTable(m.sems, m.slots) && RightSemaphore(m.sems, m.next)
            && forall g | g in s.sems :: g in m.sems && m.sems[g] == s.sems[g]
  {
    match t {
      case Passed(_, _, _) =>
      case SemWait(_, _, _, _) =>
      case Leaving(_, _, _, _) =>
      case Dispatching(_, _, _, _) =>
      case _ =>
    }
  }

  lemma MoveKeepsSlots(s: Pool, t: Thread, choice: bool, g: int)
    requires SemaphoreTable(s.sems, s.slots) && RightSemaphore(s.sems, t) && ThreadMove(s, t, choice).Some?
    ensures var m := ThreadMove(s, t, choice).value;
            Slots(m.sems, m.slots, g) + Count(InSection(t, g)) == Slots(s.sems, s.slots, g) + Count(InSection(m.next, g))
  { }

  /** A group's semaphore is never replaced. */
  lemma SemaphoresStay(s: Pool, a: Action)
    requires SemaphoresOk(s)
    ensures SemaphoresOk(Next(s, a))
    ensures forall g | g in s.sems :: g in Next(s, a).sems && Next(s, a).sems[g] == s.sems[g]
  {
    if a.Step? && CanStep(s, a.thread, a.choice) {
      MoveKeepsSemaphores(s, s.threads[a.thread], a.choice);
    }
  }

  lemma SectionStaysSlots(s: Pool, a: Action, g: int)
    requires SemaphoresOk(s) && SectionIsSlots(s, g)
    ensures SectionIsSlots(Next(s, a), g)
  {
    match a {
      case Resume(_) => TotalWoken(s.threads, Sections(g));
      case StopResume => TotalWoken(s.threads, Sections(g));
      case Step(i, choice) =>
        if CanStep(s, i, choice) {
          MoveKeepsSlots(s, s.threads[i], choice, g);
          TotalApply(s, i, ThreadMove(s, s.threads[i], choice).value, Sections(g));
        }
      case _ =>
    }
  }

  /** In every run at most two jobs of a group are dispatched at once, one per slot of its semaphore. */
  lemma {:induction false} AtMostTwoPerGroup(workers: nat, clock: int, acts: seq<Action>, g: int)
    ensures var s := Run(NewPool(workers, clock), acts);
            SemaphoresOk(s) && SectionIsSlots(s, g) && Total(s.threads, Sections(g)) <= 2
  {
    if acts == [] {
      IdleTotal(NewPool(workers, clock).threads, Sections(g));
    } else {
      var n := |acts| - 1;
      AtMostTwoPerGroup(workers, clock, acts[..n], g);
      SemaphoresStay(Run(NewPool(workers, clock), acts[..n]), acts[n]);
      SectionStaysSlots(Run(NewPool(workers, clock), acts[..n]), acts[n], g);
    }
  }

  // ----- one job per node -----

  /** Between AcquireJob and ReleaseJob for the node. */
  predicate HoldsNode(t: Thread, node: string) {
    match t
    case AtGate(x, _) => x.job.node == node
    case Asleep(x, _) => x.job.node == node
    case Checking(x, _) => x.job.node == node
    case Passed(x, _, _) => x.job.node == node
    case SemWait(x, _, _, _) => x.job.node == node
    case Dispatching(x, _, _, _) => x.job.node == node
    case Leaving(n, _, _, _) => n == node
    case _ => false
  }

  function Holders(node: string): Thread -> nat {
    (t: Thread) => Count(HoldsNode(t, node))
  }

  ghost predicate NodeSlot(s: Pool, node: string) {
    Total(s.threads, Holders(node)) == Count(node in s.active)
  }

  lemma MoveKeepsNode(s: Pool, t: Thread, choice: bool, node: string)
    requires ThreadMove(s, t, choice).Some? && (HoldsNode(t, node) ==> node in s.active)
    ensures var m := ThreadMove(s, t, choice).value;
            Count(node in s.active) + Count(HoldsNode(m.next, node)) == Count(node in m.active) + Count(HoldsNode(t, node))
  { }

  lemma {:induction false} TotalIncludes(ts: seq<Thread>, i: nat, f: Thread -> nat)
    requires i < |ts|
    ensures f(ts[i]) <= Total(ts, f)
  {
    if i < |ts| - 1 {
      TotalIncludes(ts[..|ts| - 1], i, f);
    }
  }

  lemma NodeSlotApply(s: Pool, i: nat, choice: bool, node: string)
    requires NodeSlot(s, node) && CanStep(s, i, choice)
    ensures NodeSlot(Apply(s, i, ThreadMove(s, s.threads[i], choice).value), node)
  {
    var t, m, f := s.threads[i], ThreadMove(s, s.threads[i], choice).value, Holders(node);
    TotalIncludes(s.threads, i, f);
    assert f(t) == Count(HoldsNode(t, node)) && f(m.next) == Count(HoldsNode(m.next, node));
    MoveKeepsNode(s, t, choice, node);
    TotalApply(s, i, m, f);
  }

  predicate NodeHeld(s: Pool, node: string) {
    exists i | 0 <= i < |s.threads| :: HoldsNode(s.threads[i], node)
  }

  lemma NodeSlotKept(s: Pool, a: Action, node: string)
    requires NodeSlot(s, node) && (a == Unregister(node) ==> !NodeHeld(s, node))
    ensures NodeSlot(Next(s, a), node)
  {
    match a {
      case Resume(_) => TotalWoken(s.threads, Holders(node));
      case StopResume => TotalWoken(s.threads, Holders(node));
      case Step(i, choice) =>
        if CanStep(s, i, choice) {
          NodeSlotApply(s, i, choice, node);
        }
      case Unregister(_) =>
        if Total(s.threads, Holders(node)) > 0 {
          var i := TotalPositive(s.threads, Holders(node));
        }
      case _ =>
    }
  }

  /** Unless a node is unregistered while a job holds it, at most one job holds it at a time. */
  lemma {:induction false} OneJobPerNode(workers: nat, clock: int, acts: seq<Action>, node: string)
    requires forall i | 0 <= i < |acts| && acts[i] == Unregister(node) :: !NodeHeld(Run(NewPool(workers, clock), acts[..i]), node)
    ensures NodeSlot(Run(NewPool(workers, clock), acts), node)
    ensures Total(Run(NewPool(workers, clock), acts).threads, Holders(node)) <= 1
  {
    if acts == [] {
      IdleTotal(NewPool(workers, clock).threads, Holders(node));
    } else {
      var n := |acts| - 1;
      forall i | 0 <= i < n && acts[..n][i] == Unregister(node)
        ensures !NodeHeld(Run(NewPool(workers, clock), acts[..n][..i]), node)
      {
        assert acts[..n][..i] == acts[..i];
      }
      OneJobPerNode(workers, clock, acts[..n], node);
      NodeSlotKept(Run(NewPool(workers, clock), acts[..n]), acts[n], node);
    }
  }

  // ----- maintenance windows -----

  /** The check lets a job through from the start of its window until 15 minutes before its end. */
  predicate InWindow(job: Job, at: int) {
    job.window.Some? ==> job.window.value.start <= at <= job.window.value.end - WINDOW_MARGIN
  }

  /** A job that was put off comes back when its window has started. */
  predicate ItemOk(x: Item, clock: int) {
    x.deferrals <= 1 && (x.deferrals == 1 ==> x.job.window.Some? && x.job.window.value.start <= clock)
  }

  predicate PutOffOnce(x: Item) {
    x.deferrals == 1 && x.job.window.Some?
  }

  predicate TimesOk(t: Thread, clock: int) {
    match t
    case Acquiring(x, _) => ItemOk(x, clock)
    case AtGate(x, _) => ItemOk(x, clock)
    case Asleep(x, _) => ItemOk(x, clock)
    case Checking(x, _) => ItemOk(x, clock)
    case Passed(x, _, checked) => ItemOk(x, clock) && InWindow(x.job, checked) && checked <= clock
    case SemWait(x, _, checked, _) => ItemOk(x, clock) && InWindow(x.job, checked) && checked <= clock
    case Dispatching(x, _, checked, _) => ItemOk(x, clock) && InWindow(x.job, checked) && checked <= clock
    case Spawned(x) => PutOffOnce(x)
    case Armed(x, due) => PutOffOnce(x) && x.job.window.value.start <= due
    case Submitting(x, _) => PutOffOnce(x) && x.job.window.value.start <= clock
    case _ => true
  }

  ghost predicate QueueOk(q: seq<Item>, clock: int) {
    forall i | 0 <= i < |q| :: ItemOk(q[i], clock)
  }

  ghost predicate WindowsKept(s: Pool) {
    QueueOk(s.queue, s.clock) && forall i | 0 <= i < |s.threads| :: TimesOk(s.threads[i], s.clock)
  }

  lemma MoveKeepsTimes(s: Pool, t: Thread, choice: bool)
    requires QueueOk(s.queue, s.clock) && TimesOk(t, s.clock) && ThreadMove(s, t, choice).Some?
    ensures var m := ThreadMove(s, t, choice).value;
            && QueueOk(m.queue, s.clock) && TimesOk(m.next, s.clock)
            && (m.spawned.Some? ==> PutOffOnce(m.spawned.value))
  { }

  lemma WindowsStayKept(s: Pool, a: Action)
    requires WindowsKept(s)
    ensures WindowsKept(Next(s, a))
  {
    if a.Step? && CanStep(s, a.thread, a.choice) {
      MoveKeepsTimes(s, s.threads[a.thread], a.choice);
    }
  }

  /**
   In every run a job is deferred at most once, and whatever waits for a
   semaphore or is dispatched passed its window check at a time in the window.
   */
  lemma {:induction false} WindowsRespected(workers: nat, clock: int, acts: seq<Action>)
    ensures WindowsKept(Run(NewPool(workers, clock), acts))
  {
    if acts != [] {
      var n := |acts| - 1;
      WindowsRespected(workers, clock, acts[..n]);
      WindowsStayKept(Run(NewPool(workers, clock), acts[..n]), acts[n]);
    }
  }

  // ----- why jobs end -----

  /** Each outcome has its reason: what was dispatched was in its window, what was late was late. */
  predicate Justified(d: Done, closed: bool) {
    match d.outcome
    case Started(checked) => InWindow(d.job, checked)
    case Failed(checked) => InWindow(d.job, checked)
    case SkippedBusy => true
    case SkippedLate(at) => d.job.window.Some? && d.job.window.value.end - at < WINDOW_MARGIN
    case Cancelled => d.job.window.Some? && closed
    case Dropped(at) => d.job.window.Some? && d.job.window.value.start <= at
  }

  ghost predicate OutcomesJustified(s: Pool) {
    forall i | 0 <= i < |s.done| :: Justified(s.done[i], s.closed)
  }

  /** A job ends as "busy" only when another job holds its node, and frees nothing. */
  lemma MoveJustified(s: Pool, t: Thread, choice: bool)
    requires TimesOk(t, s.clock) && ThreadMove(s, t, choice).Some?
    ensures var m := ThreadMove(s, t, choice).value;
            m.done.Some? ==> Justified(m.done.value, s.closed)
                             && (m.done.value.outcome == SkippedBusy ==> m.done.value.job.node in s.active && m.active == s.active)
                             && (m.done.value.outcome.Started? || m.done.value.outcome.Failed? ==> t.Dispatching?)
  { }

  lemma {:induction false} EveryOutcomeJustified(workers: nat, clock: int, acts: seq<Action>)
    ensures OutcomesJustified(Run(NewPool(workers, clock), acts))
  {
    if acts != [] {
      var n := |acts| - 1;
      EveryOutcomeJustified(workers, clock, acts[..n]);
      WindowsRespected(workers, clock, acts[..n]);
      OutcomesStayJustified(Run(NewPool(workers, clock), acts[..n]), acts[n]);
    }
  }

  lemma OutcomesStayJustified(s: Pool, a: Action)
    requires OutcomesJustified(s) && WindowsKept(s)
    ensures OutcomesJustified(Next(s, a))
  {
    if a.Step? && CanStep(s, a.thread, a.choice) {
      MoveJustified(s, s.threads[a.thread], a.choice);
    }
  }

  // ----- the pause gate -----

  /** No lost wake-up: a sleeping worker's group is paused. */
  ghost predicate NoLostWakeup(s: Pool) {
    forall i | 0 <= i < |s.threads| && s.threads[i].Asleep? :: s.threads[i].item.job.group in s.paused
  }

  lemma WakeupsKept(s: Pool, a: Action)
    requires NoLostWakeup(s)
    ensures NoLostWakeup(Next(s, a))
  {
    if a.Step? && CanStep(s, a.thread, a.choice) {
      MoveSleepsPaused(s, s.threads[a.thread], a.choice);
    }
  }

  lemma MoveSleepsPaused(s: Pool, t: Thread, choice: bool)
    requires ThreadMove(s, t, choice).Some?
    ensures var next := ThreadMove(s, t, choice).value.next;
            next.Asleep? ==> next.item.job.group in s.paused
  { }

  lemma {:induction false} SleepersArePaused(workers: nat, clock: int, acts: seq<Action>)
    ensures NoLostWakeup(Run(NewPool(workers, clock), acts))
  {
    if acts != [] {
      var n := |acts| - 1;
      SleepersArePaused(workers, clock, acts[..n]);
      WakeupsKept(Run(NewPool(workers, clock), acts[..n]), acts[n]);
    }
  }
}
