/**
  The worker pool of the event loop (uevent/uevent_worker.c) as a transition system.

  A step is one mutex operation, one condition-variable operation, one atomic access, or one
  access to data that the held mutex protects.  Any number of threads of four roles may be
  alive: workers (core and temporary extra ones), inserters (callers of
  uevent_worker_pool_insert), waiters (callers of uevent_worker_pool_wait_for_idle and
  uevent_worker_pool_is_idle) and stoppers
  (callers of uevent_worker_pool_stop and uevent_worker_pool_destroy).
  Condition variables may wake spuriously and a weak compare-exchange may fail spuriously.
 */
module WorkerPool {
  import opened Common

  type Tid = nat
  type EventId = nat

  /** A queued callback.  `id` numbers the insertions; it is history, the program keeps none. */
  datatype Task = Task(id: nat, ev: EventId)

  const EXTRA_WORKER_TASKS := 100
  const MAX_WORKER_MULTIPLIER := 8
  const DESTROY_TRIES := 3

  /** Core workers loop until the pool stops; an extra worker also counts its tasks down. */
  datatype Kind = Core | Extra(left: nat)

  /** Where try_spawn_extra_worker returns to. */
  datatype Back = ToPop | ToRun(task: Task)

  datatype WorkerPc =
    | WLoop               // about to test `running`
    | WLock               // about to lock task_mutex
    | WCheck              // locked: about to test queue_size and `running`
    | WPark               // locked: decided to wait on task_cond
    | WAsleep             // waiting on task_cond
    | WWoken              // woken, about to relock task_mutex
    | WGiveUp             // locked: queue empty, about to unlock and return NULL
    | WHave               // locked: queue nonempty, about to compare it with total_workers
    | WPop                // locked: about to unlink the first task
    | WCount(task: Task)  // locked: task unlinked, active_tasks not yet incremented
    | WLeave(task: Task)  // locked: about to unlock and return it
    | WDelay(task: Task)  // process_worker_task: before the callback
    | WRun(task: Task)    // inside the callback
    | WClear(task: Task)  // finalize_worker_task: about to clear the flag and drop the reference
    | WDrop               // about to decrement active_tasks
    | WIdleLock           // about to lock idle_mutex in order to broadcast
    | WIdleSend
    | WIdleUnlock
    | WSpawnRead(back: Back)
    | WSpawnCas(seen: int, back: Back)
    | WSpawnCreate(back: Back)
    | WExit               // about to decrement total_workers

  datatype InsertPc =
    | IRead(ev: EventId)  // about to test is_in_worker_pool
    | IMark(ev: EventId)  // about to take a reference and set the flag
    | ILock(ev: EventId)
    | IPush(ev: EventId)  // locked
    | ISignal             // locked: task linked, about to signal task_cond
    | IUnlock             // locked

  /** `empty` is the queue test's answer; `cut` counts the insertions made before that test. */
  datatype WaitPc =
    | VIdleLock
    | VTaskLock
    | VReadQueue
    | VTaskUnlock(empty: bool, cut: nat)
    | VReadActive(empty: bool, cut: nat)
    | VPark
    | VAsleep
    | VWoken
    | VDone(cut: nat)     // uevent_worker_pool_is_idle has answered true

  datatype StopPc =
    | SStore
    | STaskLock | STaskSend | STaskUnlock
    | SIdleLock | SIdleSend | SIdleUnlock
    | SDrainLock | SDrain | SDrainUnlock
    | SFinalLock | SFinalSend | SFinalUnlock
    | SJoin                               // destroy: joining the core workers
    | SPoll                               // destroy: polling total_workers for the extra ones
    | SDiscard                            // destroy: alone, emptying the queue

  datatype Thread =
    | Worker(kind: Kind, w: WorkerPc)
    | Inserter(i: InsertPc)
    | Waiter(blocking: bool, v: WaitPc)  // blocking: wait_for_idle; otherwise a bare is_idle
    | Stopper(destroys: bool, more: nat, p: StopPc)  // stop or destroy; `more` broadcasts to repeat

  /** The pool's fields, its two mutexes and the events' flags. */
  datatype Shared = Shared(
    running: bool,
    active: int,              // active_tasks
    queue: seq<Task>,         // task_queue
    queueSize: int,           // queue_size
    total: int,               // total_workers
    cap: nat,                 // num_workers * UEV_MAX_WORKER_MULTIPLIER
    taskOwner: Option<Tid>,   // task_mutex
    idleOwner: Option<Tid>,   // idle_mutex
    flags: set<EventId>,      // events whose is_in_worker_pool is set
    nextId: nat,              // history: insertions so far
    settled: set<nat>,        // history: tasks finalized or discarded
    stopSent: bool,           // history: a stop has broadcast task_cond
    closed: bool              // history: destroy has outlived every other thread
  )

  datatype State = State(sh: Shared, threads: map<Tid, Thread>)

  /** The scheduler's choice of what the moving thread does. */
  datatype Act =
    | Go                      // the ordinary step
    | Other                   // spurious wakeup, weak compare-exchange failure, thread or task creation failure
    | Spawn                   // take the branch that calls try_spawn_extra_worker
    | Wake(sleeper: Tid)      // pthread_cond_signal picks this sleeper
    | Create(newTid: Tid)     // pthread_create succeeds with this thread id
    | Call(thread: Thread)    // a new thread enters the pool's interface

  predicate Initial(s: State) {
    && var sh := s.sh;
    && sh.running && sh.active == 0 && sh.queue == [] && sh.queueSize == 0
    && sh.taskOwner.None? && sh.idleOwner.None?
    && sh.flags == {} && sh.nextId == 0 && sh.settled == {} && !sh.stopSent && !sh.closed
    && s.threads != map[]
    && (forall t :: t in s.threads ==> s.threads[t] == Worker(Core, WLoop))
    && sh.total == |s.threads|
    && sh.cap == |s.threads| * MAX_WORKER_MULTIPLIER
  }

  /** Entry points of the four interface calls. */
  predicate IsEntry(th: Thread) {
    match th
    case Worker(_, _) => false
    case Inserter(i) => i.IRead?
    case Waiter(blocking, v) => v == if blocking then VIdleLock else VTaskLock
    case Stopper(destroys, more, p) => p.SStore? && more == if destroys then DESTROY_TRIES - 1 else 0
  }

  /** What a step does to threads other than the one that moves. */
  datatype Touch =
    | Nobody
    | NoSleeper               // a signal on task_cond that finds nobody asleep
    | WakeOne(sleeper: Tid)   // a signal on task_cond
    | WakeAllTask             // a broadcast on task_cond
    | WakeAllIdle             // a broadcast on idle_cond
    | Start(newTid: Tid)      // a new extra worker
    | Joined                  // the core workers have all returned
    | Alone                   // nobody else is left to touch

  /** What a step does: the shared data after it, where its thread goes, and whom it touches. */
  datatype Outcome = Blocked | Outcome(sh: Shared, next: Option<Thread>, touch: Touch)

  /** The step touches nobody else. */
  function Then(sh: Shared, th: Thread): Outcome {
    Outcome(sh, Some(th), Nobody)
  }

  predicate SleepsOnTask(th: Thread) { th.Worker? && th.w.WAsleep? }

  predicate SleepsOnIdle(th: Thread) { th.Waiter? && th.v.VAsleep? }

  function WakeTask(th: Thread): Thread {
    if SleepsOnTask(th) then th.(w := WWoken) else th
  }

  function WakeIdle(th: Thread): Thread {
    if SleepsOnIdle(th) then th.(v := VWoken) else th
  }

  function Resume(b: Back): WorkerPc {
    match b
    case ToPop => WPop
    case ToRun(task) => WRun(task)
  }

  /** The two worker loops (uevent_worker.c:138-167). */
  function LoopStep(sh: Shared, t: Tid, k: Kind, pc: WorkerPc, a: Act): Outcome {
    match pc
    case WLoop =>
      if a != Go then Blocked
      else if !sh.running || (k.Extra? && k.left == 0) then Then(sh, Worker(k, WExit))
      else Then(sh, Worker(if k.Extra? then Extra(k.left - 1) else k, WLock))
    case WExit =>
      if a != Go then Blocked
      else Outcome(sh.(total := sh.total - 1), None, Nobody)
    case _ => Blocked
  }

  /** wait_and_pop_task (uevent_worker.c:55-85). */
  function PopStep(sh: Shared, t: Tid, k: Kind, pc: WorkerPc, a: Act): Outcome {
    match pc
    case WLock =>
      if a != Go || sh.taskOwner.Some? then Blocked
      else Then(sh.(taskOwner := Some(t)), Worker(k, WCheck))
    case WCheck =>
      if a != Go then Blocked
      else if sh.queueSize != 0 then
        Then(sh, Worker(k, if sh.queueSize < 1 then WGiveUp else WHave))
      else if sh.running then Then(sh, Worker(k, WPark))
      else Then(sh, Worker(k, WGiveUp))
    case WPark =>
      if a != Go then Blocked
      else Then(sh.(taskOwner := None), Worker(k, WAsleep))
    case WAsleep =>
      if a != Other then Blocked
      else Then(sh, Worker(k, WWoken))
    case WWoken =>
      if a != Go || sh.taskOwner.Some? then Blocked
      else Then(sh.(taskOwner := Some(t)), Worker(k, WCheck))
    case WGiveUp =>
      if a != Go then Blocked
      else Then(sh.(taskOwner := None), Worker(k, if k.Extra? then WExit else WLoop))
    case WHave =>
      if a == Go then Then(sh, Worker(k, WPop))
      else if a == Spawn && sh.queueSize > sh.total then Then(sh, Worker(k, WSpawnRead(ToPop)))
      else Blocked
    case WPop =>
      if a != Go || sh.queue == [] then Blocked
      else Then(sh.(queue := sh.queue[1..], queueSize := sh.queueSize - 1), Worker(k, WCount(sh.queue[0])))
    case WCount(task) =>
      if a != Go then Blocked
      else Then(sh.(active := sh.active + 1), Worker(k, WLeave(task)))
    case WLeave(task) =>
      if a != Go then Blocked
      else Then(sh.(taskOwner := None), Worker(k, WDelay(task)))
    case _ => Blocked
  }

  /** process_worker_task and finalize_worker_task (uevent_worker.c:88-135). */
  function TaskStep(sh: Shared, t: Tid, k: Kind, pc: WorkerPc, a: Act): Outcome {
    match pc
    case WDelay(task) =>
      if a == Go then Then(sh, Worker(k, WRun(task)))
      else if a == Spawn then Then(sh, Worker(k, WSpawnRead(ToRun(task))))
      else if a == Other then Then(sh, Worker(k, WClear(task)))  // reference refused or event being freed
      else Blocked
    case WRun(task) =>
      if a != Go then Blocked
      else Then(sh, Worker(k, WClear(task)))
    case WClear(task) =>
      if a != Go then Blocked
      else Then(sh.(flags := sh.flags - {task.ev}, settled := sh.settled + {task.id}), Worker(k, WDrop))
    case WDrop =>
      if a != Go then Blocked
      else Then(sh.(active := sh.active - 1), Worker(k, if sh.active == 1 then WIdleLock else WLoop))
    case WIdleLock =>
      if a != Go || sh.idleOwner.Some? then Blocked
      else Then(sh.(idleOwner := Some(t)), Worker(k, WIdleSend))
    case WIdleSend =>
      if a != Go then Blocked
      else Outcome(sh, Some(Worker(k, WIdleUnlock)), WakeAllIdle)
    case WIdleUnlock =>
      if a != Go then Blocked
      else Then(sh.(idleOwner := None), Worker(k, WLoop))
    case _ => Blocked
  }

  /** try_spawn_extra_worker (uevent_worker.c:169-207). */
  function SpawnStep(sh: Shared, t: Tid, k: Kind, pc: WorkerPc, a: Act): Outcome {
    match pc
    case WSpawnRead(b) =>
      if a != Go then Blocked
      else if sh.total >= sh.cap then Then(sh, Worker(k, Resume(b)))
      else Then(sh, Worker(k, WSpawnCas(sh.total, b)))
    case WSpawnCas(seen, b) =>
      if a == Go && sh.total == seen then Then(sh.(total := seen + 1), Worker(k, WSpawnCreate(b)))
      else if a == Other || (a == Go && sh.total != seen) then Then(sh, Worker(k, WSpawnRead(b)))
      else Blocked
    case WSpawnCreate(b) =>
      if a == Other then Then(sh.(total := sh.total - 1), Worker(k, Resume(b)))
      else if a.Create? then Outcome(sh, Some(Worker(k, Resume(b))), Start(a.newTid))
      else Blocked
    case _ => Blocked
  }

  predicate InPop(pc: WorkerPc) {
    pc.WLock? || pc.WCheck? || pc.WPark? || pc.WAsleep? || pc.WWoken? ||
    pc.WGiveUp? || pc.WHave? || pc.WPop? || pc.WCount? || pc.WLeave?
  }

  predicate InSpawn(pc: WorkerPc) {
    pc.WSpawnRead? || pc.WSpawnCas? || pc.WSpawnCreate?
  }

  /** One step of a worker thread; None when it cannot take it. */
  function WorkerStep(sh: Shared, t: Tid, k: Kind, pc: WorkerPc, a: Act): Outcome {
    if pc.WLoop? || pc.WExit? then LoopStep(sh, t, k, pc, a)
    else if InPop(pc) then PopStep(sh, t, k, pc, a)
    else if InSpawn(pc) then SpawnStep(sh, t, k, pc, a)
    else TaskStep(sh, t, k, pc, a)
  }

  /** One step of uevent_worker_pool_insert (uevent_worker.c:262-296). */
  function InsertStep(sh: Shared, t: Tid, pc: InsertPc, a: Act): Outcome {
    match pc
    case IRead(ev) =>
      if a == Other || (a == Go && ev in sh.flags) then Outcome(sh, None, Nobody)  // out of memory, or already queued
      else if a == Go then Then(sh, Inserter(IMark(ev)))
      else Blocked
    case IMark(ev) =>
      if a != Go then Blocked
      else Then(sh.(flags := sh.flags + {ev}), Inserter(ILock(ev)))
    case ILock(ev) =>
      if a != Go || sh.taskOwner.Some? then Blocked
      else Then(sh.(taskOwner := Some(t)), Inserter(IPush(ev)))
    case IPush(ev) =>
      if a != Go then Blocked
      else
        var queue := sh.queue + [Task(sh.nextId, ev)];
        Then(sh.(queue := queue, queueSize := sh.queueSize + 1, nextId := sh.nextId + 1), Inserter(ISignal))
    case ISignal =>
      if a == Go then Outcome(sh, Some(Inserter(IUnlock)), NoSleeper)
      else if a.Wake? then Outcome(sh, Some(Inserter(IUnlock)), WakeOne(a.sleeper))
      else Blocked
    case IUnlock =>
      if a != Go then Blocked
      else Outcome(sh.(taskOwner := None), None, Nobody)
  }

  /** One step of wait_for_idle or of a bare is_idle (uevent_worker.c:373-406). */
  function WaitStep(sh: Shared, t: Tid, blocking: bool, pc: WaitPc, a: Act): Outcome {
    match pc
    case VIdleLock =>
      if a != Go || sh.idleOwner.Some? then Blocked
      else Then(sh.(idleOwner := Some(t)), Waiter(blocking, VTaskLock))
    case VTaskLock =>
      if a != Go || sh.taskOwner.Some? then Blocked
      else Then(sh.(taskOwner := Some(t)), Waiter(blocking, VReadQueue))
    case VReadQueue =>
      if a != Go then Blocked
      else Then(sh, Waiter(blocking, VTaskUnlock(sh.queueSize < 1, sh.nextId)))
    case VTaskUnlock(empty, cut) =>
      if a != Go then Blocked
      else Then(sh.(taskOwner := None), Waiter(blocking, VReadActive(empty, cut)))
    case VReadActive(empty, cut) =>
      if a != Go then Blocked
      else if empty && sh.active == 0 then Then(sh, Waiter(blocking, VDone(cut)))
      else if blocking then Then(sh, Waiter(blocking, VPark))
      else Outcome(sh, None, Nobody)
    case VPark =>
      if a != Go then Blocked
      else Then(sh.(idleOwner := None), Waiter(blocking, VAsleep))
    case VAsleep =>
      if a != Other then Blocked
      else Then(sh, Waiter(blocking, VWoken))
    case VWoken =>
      if a != Go || sh.idleOwner.Some? then Blocked
      else Then(sh.(idleOwner := Some(t)), Waiter(blocking, VTaskLock))
    case VDone(cut) =>
      if a != Go then Blocked
      else Outcome(if blocking then sh.(idleOwner := None) else sh, None, Nobody)
  }

  /** Unlinks the first task unrun: clears its event's flag and drops the reference. */
  function Discard(sh: Shared): Shared
    requires sh.queue != []
  {
    var task := sh.queue[0];
    sh.(queue := sh.queue[1..], flags := sh.flags - {task.ev}, settled := sh.settled + {task.id})
  }

  /** One step of stop or destroy (uevent_worker.c:298-371, 408-440). */
  function StopStep(sh: Shared, t: Tid, d: bool, more: nat, pc: StopPc, a: Act): Outcome {
    if a != Go then Blocked else
    match pc
    case SStore => Then(sh.(running := false), Stopper(d, more, STaskLock))
    case STaskLock =>
      if sh.taskOwner.Some? then Blocked
      else Then(sh.(taskOwner := Some(t)), Stopper(d, more, STaskSend))
    case STaskSend =>
      Outcome(sh.(stopSent := true), Some(Stopper(d, more, STaskUnlock)), WakeAllTask)
    case STaskUnlock => Then(sh.(taskOwner := None), Stopper(d, more, SIdleLock))
    case SIdleLock =>
      if sh.idleOwner.Some? then Blocked
      else Then(sh.(idleOwner := Some(t)), Stopper(d, more, SIdleSend))
    case SIdleSend => Outcome(sh, Some(Stopper(d, more, SIdleUnlock)), WakeAllIdle)
    case SIdleUnlock =>
      Then(sh.(idleOwner := None),
           if !d then Stopper(d, more, SDrainLock)
           else if more > 0 then Stopper(d, more - 1, STaskLock)
           else Stopper(d, more, SJoin))
    case SDrainLock =>
      if sh.taskOwner.Some? then Blocked
      else Then(sh.(taskOwner := Some(t)), Stopper(d, more, SDrain))
    case SDrain =>
      if sh.queue == [] then Then(sh, Stopper(d, more, SDrainUnlock))
      else Then(Discard(sh).(queueSize := sh.queueSize - 1), Stopper(d, more, SDrain))
    case SDrainUnlock => Then(sh.(taskOwner := None), Stopper(d, more, SFinalLock))
    case SFinalLock =>
      if sh.idleOwner.Some? then Blocked
      else Then(sh.(idleOwner := Some(t)), Stopper(d, more, SFinalSend))
    case SFinalSend => Outcome(sh, Some(Stopper(d, more, SFinalUnlock)), WakeAllIdle)
    case SFinalUnlock => Outcome(sh.(idleOwner := None), None, Nobody)
    case SJoin => Outcome(sh, Some(Stopper(d, more, SPoll)), Joined)
    case SPoll =>
      if sh.total > 0 then Then(sh, Stopper(d, more, SPoll))
      // the pool is freed now, so its callers must be gone too
      else Outcome(sh.(closed := true), Some(Stopper(d, more, SDiscard)), Alone)
    case SDiscard =>
      if sh.queue == [] then Outcome(sh, None, Nobody)
      else Then(Discard(sh), Stopper(d, more, SDiscard))
  }

  /** The code at the program point of `th`, run by thread `t` under choice `a`. */
  function Code(sh: Shared, t: Tid, th: Thread, a: Act): Outcome {
    match th
    case Worker(k, pc) => WorkerStep(sh, t, k, pc, a)
    case Inserter(pc) => InsertStep(sh, t, pc, a)
    case Waiter(blocking, pc) => WaitStep(sh, t, blocking, pc, a)
    case Stopper(destroys, more, pc) => StopStep(sh, t, destroys, more, pc, a)
  }

  predicate TouchOk(m: map<Tid, Thread>, t: Tid, touch: Touch) {
    match touch
    case NoSleeper => forall u :: u in m ==> !SleepsOnTask(m[u])
    case WakeOne(u) => u in m && SleepsOnTask(m[u])
    case Start(u) => u !in m
    case Joined => forall u :: u in m ==> !(m[u].Worker? && m[u].kind.Core?)
    case Alone => m.Keys == {t}
    case _ => true
  }

  function Touched(m: map<Tid, Thread>, t: Tid, touch: Touch): map<Tid, Thread>
    requires TouchOk(m, t, touch)
  {
    match touch
    case Nobody => m
    case NoSleeper => m
    case Joined => m
    case Alone => m
    case WakeOne(u) => m[u := WakeTask(m[u])]
    case WakeAllTask => map u | u in m :: WakeTask(m[u])
    case WakeAllIdle => map u | u in m :: WakeIdle(m[u])
    case Start(u) => m[u := Worker(Extra(EXTRA_WORKER_TASKS), WLoop)]
  }

  function Placed(m: map<Tid, Thread>, t: Tid, next: Option<Thread>): map<Tid, Thread> {
    match next
    case Some(th) => m[t := th]
    case None => m - {t}
  }

  /** The step thread `t` takes under choice `a`, if it can; a thread not yet there may enter. */
  function Step(s: State, t: Tid, a: Act): Option<State> {
    if t !in s.threads then
      if a.Call? && IsEntry(a.thread) && !s.sh.closed then Some(State(s.sh, s.threads[t := a.thread])) else None
    else
      var o := Code(s.sh, t, s.threads[t], a);
      if o.Blocked? || !TouchOk(s.threads, t, o.touch) then None
      else Some(State(o.sh, Placed(Touched(s.threads, t, o.touch), t, o.next)))
  }

  datatype Choice = Choice(t: Tid, a: Act)

  /** The states an interleaving visits: each one a step after the last, from an initial state. */
  predicate IsRun(states: seq<State>, schedule: seq<Choice>) {
    && |states| == |schedule| + 1
    && Initial(states[0])
    && forall n :: 0 <= n < |schedule| ==> Step(states[n], schedule[n].t, schedule[n].a) == Some(states[n + 1])
  }
}
