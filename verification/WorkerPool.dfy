/**
 The worker pool of server/internal/orchestration/workers.go as a step system:
 worker goroutines, the requeue goroutines of deferred jobs, the bounded queue,
 the group semaphores, the pause gate with its condition variable, and Stop.
 */
module WorkerPool {
  import opened Common

  datatype Window = Window(start: int, end: int)

  datatype Job = Job(id: string, node: string, group: int, window: Option<Window>)

  /** A job on its way; `deferrals` counts how often it was put off to its window. */
  datatype Item = Item(job: Job, deferrals: nat)

  /** Where a goroutine stands. `drain` tells whether a worker is in its drain loop. */
  datatype Thread =
    | Idle
    | Draining
    | Acquiring(item: Item, drain: bool)
    | AtGate(item: Item, drain: bool)
    | Asleep(item: Item, drain: bool)
    | Checking(item: Item, drain: bool)
    | Passed(item: Item, drain: bool, checked: int)
    | SemWait(item: Item, drain: bool, checked: int, sem: nat)
    | Dispatching(item: Item, drain: bool, checked: int, sem: nat)
    | Leaving(node: string, group: int, drain: bool, held: Option<nat>)
    | Exited
    | Spawned(item: Item)
    | Armed(item: Item, due: int)
    | Submitting(item: Item, deadline: int)
    | Gone

  /** How a job ended; `checked` and `at` are clock readings. */
  datatype Outcome =
    | Started(checked: int) | Failed(checked: int)
    | SkippedBusy | SkippedLate(at: int)
    | Cancelled | Dropped(at: int)

  datatype Done = Done(job: Job, outcome: Outcome)

  datatype Pool = Pool(
    queue: seq<Item>, threads: seq<Thread>,
    sems: map<int, nat>, slots: seq<nat>,
    paused: set<int>, active: map<string, string>,
    clock: int, stopping: bool, closed: bool,
    accepted: seq<Job>, done: seq<Done>)

  const QUEUE_CAPACITY := 100
  const SEMAPHORE_SIZE := 2
  const WINDOW_MARGIN := 15 * MINUTE
  const MIN_DELAY := 10 * SECOND
  const SUBMIT_TIMEOUT := 30 * SECOND

  function NewPool(workers: nat, clock: int): Pool {
    Pool([], seq(workers, _ => Idle), map[], [], {}, map[], clock, false, false, [], [])
  }

  function Resting(drain: bool): Thread {
    if drain then Draining else Idle
  }

  /** pauseCond.Broadcast */
  function Woken(threads: seq<Thread>): seq<Thread> {
    seq(|threads|, i requires 0 <= i < |threads| =>
      if threads[i].Asleep? then AtGate(threads[i].item, threads[i].drain) else threads[i])
  }

  /** What one step of a goroutine does: its next phase and its effects on the pool. */
  datatype Move = Move(
    next: Thread, spawned: Option<Item>, queue: seq<Item>,
    sems: map<int, nat>, slots: seq<nat>, active: map<string, string>, done: Option<Done>)

  /** A step that only changes the goroutine's own phase. */
  function Become(s: Pool, t: Thread): Move {
    Move(t, None, s.queue, s.sems, s.slots, s.active, None)
  }

  function TakeJob(s: Pool, drain: bool): Move
    requires s.queue != []
  {
    Become(s, Acquiring(s.queue[0], drain)).(queue := s.queue[1..])
  }

  /** The maintenance window check of processJob. */
  function CheckWindow(s: Pool, item: Item, drain: bool): Move {
    var job := item.job;
    var left := Become(s, Leaving(job.node, job.group, drain, None));
    if job.window.None? then Become(s, Passed(item, drain, s.clock))
    else if s.clock > job.window.value.end || job.window.value.end - s.clock < WINDOW_MARGIN then
      left.(done := Some(Done(job, SkippedLate(s.clock))))
    else if s.clock < job.window.value.start then
      left.(spawned := Some(item.(deferrals := item.deferrals + 1)))
    else Become(s, Passed(item, drain, s.clock))
  }

  /** The semaphore of a group is created once and then shared. */
  function GetSemaphore(s: Pool, item: Item, drain: bool, checked: int): Move {
    var g := item.job.group;
    if g in s.sems then Become(s, SemWait(item, drain, checked, s.sems[g]))
    else Become(s, SemWait(item, drain, checked, |s.slots|)).(sems := s.sems[g := |s.slots|], slots := s.slots + [0])
  }

  /** The next step of one goroutine; `choice` resolves a select or the outcome of a send. */
  function ThreadMove(s: Pool, t: Thread, choice: bool): Option<Move> {
    match t
    case Idle =>
      if choice then (if s.queue == [] then None else Some(TakeJob(s, false)))
      else if s.closed then Some(Become(s, Draining)) else None
    case Draining =>
      if s.queue == [] then Some(Become(s, Exited)) else Some(TakeJob(s, true))
    case Acquiring(item, drain) =>
      if item.job.node in s.active then Some(Become(s, Resting(drain)).(done := Some(Done(item.job, SkippedBusy))))
      else Some(Become(s, AtGate(item, drain)).(active := s.active[item.job.node := item.job.id]))
    case AtGate(item, drain) =>
      Some(Become(s, if item.job.group in s.paused then Asleep(item, drain) else Checking(item, drain)))
    case Asleep(_, _) => None
    case Checking(item, drain) => Some(CheckWindow(s, item, drain))
    case Passed(item, drain, checked) => Some(GetSemaphore(s, item, drain, checked))
    case SemWait(item, drain, checked, sem) =>
      if sem < |s.slots| && s.slots[sem] < SEMAPHORE_SIZE then
        Some(Become(s, Dispatching(item, drain, checked, sem)).(slots := s.slots[sem := s.slots[sem] + 1]))
      else None
    case Dispatching(item, drain, checked, sem) =>
      Some(Become(s, Leaving(item.job.node, item.job.group, drain, Some(sem)))
           .(done := Some(Done(item.job, if choice then Started(checked) else Failed(checked)))))
    case Leaving(node, group, drain, held) =>
      if held.None? then Some(Become(s, Resting(drain)).(active := s.active - {node}))
      else if held.value < |s.slots| && s.slots[held.value] > 0 then
        Some(Become(s, Leaving(node, group, drain, None)).(slots := s.slots[held.value := s.slots[held.value] - 1]))
      else None
    case Exited => None
    case Spawned(item) =>
      if item.job.window.None? then None
      else Some(Become(s, Armed(item, s.clock + Max(MIN_DELAY, item.job.window.value.start - s.clock))))
    case Armed(item, due) =>
      if choice then (if s.clock >= due then Some(Become(s, Submitting(item, s.clock + SUBMIT_TIMEOUT))) else None)
      else if s.closed then Some(Become(s, Gone).(done := Some(Done(item.job, Cancelled)))) else None
    case Submitting(item, deadline) =>
      if choice then (if |s.queue| < QUEUE_CAPACITY then Some(Become(s, Gone).(queue := s.queue + [item])) else None)
      else if s.clock >= deadline then Some(Become(s, Gone).(done := Some(Done(item.job, Dropped(s.clock))))) else None
    case Gone => None
  }

  predicate CanStep(s: Pool, i: nat, choice: bool) {
    i < |s.threads| && ThreadMove(s, s.threads[i], choice).Some?
  }

  function Apply(s: Pool, i: nat, m: Move): Pool
    requires i < |s.threads|
  {
    s.(threads := s.threads[i := m.next] + (if m.spawned.None? then [] else [Spawned(m.spawned.value)]),
       queue := m.queue, sems := m.sems, slots := m.slots, active := m.active,
       done := s.done + (if m.done.None? then [] else [m.done.value]))
  }

  /** Stop runs in two parts: it resumes every group, then it closes stopChan. */
  datatype Action =
    | Submit(job: Job)
    | Pause(group: int)
    | Resume(group: int)
    | StopResume
    | StopClose
    | Unregister(node: string)
    | Tick(elapsed: nat)
    | Step(thread: nat, choice: bool)

  /** One step; an action that cannot happen changes nothing. */
  function Next(s: Pool, a: Action): Pool {
    match a
    case Submit(job) =>
      if |s.queue| < QUEUE_CAPACITY then s.(queue := s.queue + [Item(job, 0)], accepted := s.accepted + [job]) else s
    case Pause(group) => s.(paused := s.paused + {group})
    case Resume(group) => s.(paused := s.paused - {group}, threads := Woken(s.threads))
    case StopResume => s.(paused := {}, threads := Woken(s.threads), stopping := true)
    case StopClose => if s.stopping then s.(closed := true) else s
    case Unregister(node) => s.(active := s.active - {node})
    case Tick(elapsed) => s.(clock := s.clock + elapsed)
    case Step(i, choice) => if CanStep(s, i, choice) then Apply(s, i, ThreadMove(s, s.threads[i], choice).value) else s
  }

  function Run(s: Pool, acts: seq<Action>): Pool {
    if acts == [] then s else Next(Run(s, acts[..|acts| - 1]), acts[|acts| - 1])
  }

  /** Workers that still have something to do. */
  predicate LiveWorker(t: Thread) {
    !t.Exited? && !t.Spawned? && !t.Armed? && !t.Submitting? && !t.Gone?
  }

  predicate WorkersGone(s: Pool) {
    forall i | 0 <= i < |s.threads| :: !LiveWorker(s.threads[i])
  }
}
