/**
  What every step of the worker pool keeps.  The invariant is a conjunction of parts;
  each has its own preservation lemma, and they share a lemma that counts threads.
 */
module WorkerPoolInvariants {
  import opened Common
  import opened WorkerPool

  // ---------- counting threads ----------

  /** The threads of `m` that satisfy `p`. */
  ghost function Those(m: map<Tid, Thread>, p: Thread -> bool): set<Tid> {
    set t | t in m && p(m[t])
  }

  ghost function Count(m: map<Tid, Thread>, p: Thread -> bool): nat {
    |Those(m, p)|
  }

  lemma CountSet(m: map<Tid, Thread>, t: Tid, th: Thread, p: Thread -> bool)
    ensures Count(m[t := th], p) == Count(m, p) - One(t in m && p(m[t])) + One(p(th))
  {
    var rest := Those(m, p) - {t};
    assert Those(m, p) == if t in m && p(m[t]) then rest + {t} else rest;
    assert Those(m[t := th], p) == if p(th) then rest + {t} else rest;
  }

  lemma CountDrop(m: map<Tid, Thread>, t: Tid, p: Thread -> bool)
    ensures Count(m - {t}, p) == Count(m, p) - One(t in m && p(m[t]))
  {
    var rest := Those(m, p) - {t};
    assert Those(m, p) == if t in m && p(m[t]) then rest + {t} else rest;
    assert Those(m - {t}, p) == rest;
  }

  lemma CountSame(m: map<Tid, Thread>, m': map<Tid, Thread>, p: Thread -> bool)
    requires m.Keys == m'.Keys
    requires forall t :: t in m ==> p(m[t]) == p(m'[t])
    ensures Count(m, p) == Count(m', p)
  {
    assert Those(m, p) == Those(m', p);
  }

  lemma CountNone(m: map<Tid, Thread>, p: Thread -> bool)
    ensures Count(m, p) == 0 <==> forall t :: t in m ==> !p(m[t])
  {
    if t :| t in m && p(m[t]) {
      assert t in Those(m, p);
    } else {
      assert Those(m, p) == {};
    }
  }

  /** At most one thread satisfies a predicate that only the owner of a mutex satisfies. */
  lemma CountAtMostOne(m: map<Tid, Thread>, p: Thread -> bool, owner: Tid)
    requires forall t :: t in m && p(m[t]) ==> t == owner
    ensures Count(m, p) <= 1
  {
    assert Those(m, p) <= {owner};
    if owner in Those(m, p) {
      assert Those(m, p) == {owner};
    } else {
      assert Those(m, p) == {};
    }
  }

  // ---------- who holds what ----------

  predicate PopsLocked(pc: WorkerPc) {
    pc.WHave? || pc.WPop? ||
    ((pc.WSpawnRead? || pc.WSpawnCas? || pc.WSpawnCreate?) && pc.back.ToPop?)
  }

  predicate HoldsTask(th: Thread) {
    match th
    case Worker(_, pc) => pc.WCheck? || pc.WPark? || pc.WGiveUp? || pc.WCount? || pc.WLeave? || PopsLocked(pc)
    case Inserter(pc) => pc.IPush? || pc.ISignal? || pc.IUnlock?
    case Waiter(_, pc) => pc.VReadQueue? || pc.VTaskUnlock?
    case Stopper(_, _, pc) => pc.STaskSend? || pc.STaskUnlock? || pc.SDrain? || pc.SDrainUnlock?
  }

  predicate HoldsIdle(th: Thread) {
    match th
    case Worker(_, pc) => pc.WIdleSend? || pc.WIdleUnlock?
    case Inserter(_) => false
    case Waiter(blocking, pc) => blocking && !pc.VIdleLock? && !pc.VAsleep? && !pc.VWoken?
    case Stopper(_, _, pc) => pc.SIdleSend? || pc.SIdleUnlock? || pc.SFinalSend? || pc.SFinalUnlock?
  }

  /** Program points a role never reaches. */
  predicate Sensible(th: Thread) {
    match th
    case Worker(_, _) => true
    case Inserter(_) => true
    case Waiter(blocking, pc) => !blocking ==> !pc.VIdleLock? && !pc.VPark? && !pc.VAsleep? && !pc.VWoken?
    case Stopper(destroys, _, pc) =>
      if destroys then
        !pc.SDrainLock? && !pc.SDrain? && !pc.SDrainUnlock? && !pc.SFinalLock? && !pc.SFinalSend? && !pc.SFinalUnlock?
      else !pc.SJoin? && !pc.SPoll? && !pc.SDiscard?
  }

  predicate IsDiscarding(th: Thread) { th.Stopper? && th.p.SDiscard? }

  ghost predicate LockedBy(sh: Shared, t: Tid, th: Thread) {
    && (HoldsTask(th) <==> sh.taskOwner == Some(t))
    && (HoldsIdle(th) <==> sh.idleOwner == Some(t))
    && (IsDiscarding(th) <==> sh.closed)
    && Sensible(th)
  }

  /** Part 1: each mutex is owned by exactly the thread whose program point is inside it. */
  ghost predicate Locking(s: State) {
    && (forall t :: t in s.threads ==> LockedBy(s.sh, t, s.threads[t]))
    && (s.sh.taskOwner.Some? ==> s.sh.taskOwner.value in s.threads)
    && (s.sh.idleOwner.Some? ==> s.sh.idleOwner.value in s.threads)
    && (forall t :: t in s.threads && IsDiscarding(s.threads[t]) ==> s.threads.Keys == {t})
  }

  /** A mutex changes hands only between nobody and the moving thread. */
  ghost predicate Handover(before: Option<Tid>, after: Option<Tid>, t: Tid) {
    after == before || ((before == None || before == Some(t)) && (after == None || after == Some(t)))
  }

  // ---------- one step, seen from the other threads ----------

  /** What may become of a thread that does not move. */
  ghost predicate Bystander(before: Thread, after: Thread) {
    after == before
    || (SleepsOnTask(before) && after == WakeTask(before))
    || (SleepsOnIdle(before) && after == WakeIdle(before))
  }

  /** Outcome `o` of thread `t` takes the threads of `s` to those of `s'`. */
  ghost predicate Applied(s: State, s': State, t: Tid, o: Outcome) {
    && t in s.threads && o.Outcome? && TouchOk(s.threads, t, o.touch)
    && s' == State(o.sh, Placed(Touched(s.threads, t, o.touch), t, o.next))
  }

  /** From `s` to `s'` thread `t` ran code with outcome `o`; the others only woke, were born, or stayed. */
  ghost predicate Moves(s: State, s': State, t: Tid, o: Outcome) {
    && t in s.threads && o.Outcome?
    && s'.sh == o.sh
    && (o.next.Some? <==> t in s'.threads)
    && (o.next.Some? ==> s'.threads[t] == o.next.value)
    && (forall u :: u in s.threads && u != t ==> u in s'.threads && Bystander(s.threads[u], s'.threads[u]))
    && (forall u :: u in s'.threads && u != t && u !in s.threads ==>
          o.touch == Start(u) && s'.threads[u] == Worker(Extra(EXTRA_WORKER_TASKS), WLoop))
    && (o.touch.Alone? ==> s.threads.Keys == {t})
    && (o.touch.Start? ==> o.touch.newTid !in s.threads && o.touch.newTid in s'.threads && o.touch.newTid != t)
    && (o.touch.NoSleeper? ==> forall u :: u in s.threads ==> !SleepsOnTask(s.threads[u]))
    && (o.touch.WakeAllTask? ==> forall u :: u in s'.threads && u != t ==> !SleepsOnTask(s'.threads[u]))
    && (o.touch.WakeAllIdle? ==> forall u :: u in s'.threads && u != t ==> !SleepsOnIdle(s'.threads[u]))
    && (o.touch.WakeOne? ==> var w := o.touch.sleeper;
          w in s.threads && SleepsOnTask(s.threads[w]) && (w != t ==> s'.threads[w] == WakeTask(s.threads[w])))
  }

  lemma StepMoves(s: State, t: Tid, a: Act)
    requires t in s.threads && Step(s, t, a).Some?
    ensures !Code(s.sh, t, s.threads[t], a).Blocked?
    ensures Moves(s, Step(s, t, a).value, t, Code(s.sh, t, s.threads[t], a))
    ensures Applied(s, Step(s, t, a).value, t, Code(s.sh, t, s.threads[t], a))
  {
    var o := Code(s.sh, t, s.threads[t], a);
    var m, m' := s.threads, Touched(s.threads, t, o.touch);
    assert forall u :: u in m ==> u in m' && Bystander(m[u], m'[u]);
  }

  // ---------- part 1: locking ----------

  ghost predicate LockingLocal(sh: Shared, t: Tid, th: Thread, o: Outcome)
    requires o.Outcome?
  {
    && Handover(sh.taskOwner, o.sh.taskOwner, t)
    && Handover(sh.idleOwner, o.sh.idleOwner, t)
    && (o.next.Some? ==> LockedBy(o.sh, t, o.next.value))
    && (o.next.None? ==> o.sh.taskOwner != Some(t) && o.sh.idleOwner != Some(t))
    && (o.sh.closed != sh.closed ==> o.touch.Alone?)
    && (o.touch.Start? ==> !o.sh.closed)
  }

  lemma LockingHereWorker(sh: Shared, t: Tid, th: Thread, a: Act)
    requires th.Worker? && LockedBy(sh, t, th) && !Code(sh, t, th, a).Blocked?
    ensures LockingLocal(sh, t, th, Code(sh, t, th, a))
  {
    var pc := th.w;
    if pc.WLoop? || pc.WExit? {
    } else if InPop(pc) {
    } else if InSpawn(pc) {
    } else {
    }
  }

  lemma LockingHere(sh: Shared, t: Tid, th: Thread, a: Act)
    requires LockedBy(sh, t, th) && !Code(sh, t, th, a).Blocked?
    ensures LockingLocal(sh, t, th, Code(sh, t, th, a))
  {
    match th
    case Worker(_, _) => LockingHereWorker(sh, t, th, a);
    case Inserter(_) =>
    case Waiter(_, _) =>
    case Stopper(_, _, _) => LockingHereStopper(sh, t, th, a);
  }

  lemma LockingHereStopper(sh: Shared, t: Tid, th: Thread, a: Act)
    requires th.Stopper? && LockedBy(sh, t, th) && !Code(sh, t, th, a).Blocked?
    ensures LockingLocal(sh, t, th, Code(sh, t, th, a))
  {
    var pc := th.p;
    if pc.SStore? || pc.STaskLock? || pc.STaskSend? || pc.STaskUnlock? {
    } else if pc.SIdleLock? || pc.SIdleSend? || pc.SIdleUnlock? {
    } else {
    }
  }

  lemma LockingMove(s: State, s': State, t: Tid, o: Outcome)
    requires Locking(s) && Moves(s, s', t, o) && LockingLocal(s.sh, t, s.threads[t], o)
    ensures Locking(s')
  {
    forall u | u in s'.threads
      ensures LockedBy(s'.sh, u, s'.threads[u])
      ensures IsDiscarding(s'.threads[u]) ==> s'.threads.Keys == {u}
    {
    }
  }

  // ---------- part 2: counters ----------

  predicate IsWorker(th: Thread) { th.Worker? }

  /** Has incremented total_workers for a thread it has not yet created. */
  predicate IsCreating(th: Thread) { th.Worker? && th.w.WSpawnCreate? }

  /** Has incremented active_tasks and not yet decremented it. */
  predicate IsCounted(th: Thread) {
    th.Worker? &&
    var pc := th.w;
    || pc.WLeave? || pc.WDelay? || pc.WRun? || pc.WClear? || pc.WDrop?
    || ((pc.WSpawnRead? || pc.WSpawnCas? || pc.WSpawnCreate?) && pc.back.ToRun?)
  }

  predicate CasFits(cap: nat, th: Thread) { th.Worker? && th.w.WSpawnCas? ==> th.w.seen < cap }

  /** Part 2: every counter counts what it is named for, and total_workers respects its limit. */
  ghost predicate Counting(s: State) {
    && s.sh.active == Count(s.threads, IsCounted)
    && s.sh.total == Count(s.threads, IsWorker) + Count(s.threads, IsCreating)
    && s.sh.total <= s.sh.cap
    && (!s.sh.closed ==> s.sh.queueSize == |s.sh.queue|)
    && (forall t :: t in s.threads ==> CasFits(s.sh.cap, s.threads[t]))
  }

  function OneIf(next: Option<Thread>, p: Thread -> bool): nat { One(next.Some? && p(next.value)) }

  ghost predicate CountingLocal(sh: Shared, t: Tid, th: Thread, o: Outcome)
    requires o.Outcome?
  {
    && o.sh.active == sh.active - One(IsCounted(th)) + OneIf(o.next, IsCounted)
    && o.sh.total == sh.total - One(IsWorker(th)) + OneIf(o.next, IsWorker)
                     - One(IsCreating(th)) + OneIf(o.next, IsCreating) + One(o.touch.Start?)
    && o.sh.total <= o.sh.cap == sh.cap
    && (sh.closed ==> o.sh.closed)
    && (!o.sh.closed ==> o.sh.queueSize == |o.sh.queue|)
    && (o.next.Some? ==> CasFits(sh.cap, o.next.value))
  }

  ghost predicate CountingReady(sh: Shared, th: Thread) {
    sh.total <= sh.cap && CasFits(sh.cap, th) && (!sh.closed ==> sh.queueSize == |sh.queue|)
  }

  lemma CountingHerePop(sh: Shared, t: Tid, th: Thread, a: Act)
    requires th.Worker? && InPop(th.w) && !Code(sh, t, th, a).Blocked?
    requires CountingReady(sh, th)
    ensures CountingLocal(sh, t, th, Code(sh, t, th, a))
  {
  }

  lemma CountingHereSpawn(sh: Shared, t: Tid, th: Thread, a: Act)
    requires th.Worker? && InSpawn(th.w) && !Code(sh, t, th, a).Blocked?
    requires CountingReady(sh, th)
    ensures CountingLocal(sh, t, th, Code(sh, t, th, a))
  {
  }

  lemma CountingHereRest(sh: Shared, t: Tid, th: Thread, a: Act)
    requires th.Worker? && !InPop(th.w) && !InSpawn(th.w) && !Code(sh, t, th, a).Blocked?
    requires CountingReady(sh, th)
    ensures CountingLocal(sh, t, th, Code(sh, t, th, a))
  {
  }

  lemma CountingHereStopper(sh: Shared, t: Tid, th: Thread, a: Act)
    requires th.Stopper? && CountingReady(sh, th) && !Code(sh, t, th, a).Blocked?
    requires IsDiscarding(th) ==> sh.closed
    ensures CountingLocal(sh, t, th, Code(sh, t, th, a))
  {
    var pc := th.p;
    if pc.SStore? || pc.STaskLock? || pc.STaskSend? || pc.STaskUnlock? {
    } else if pc.SIdleLock? || pc.SIdleSend? || pc.SIdleUnlock? {
    } else {
    }
  }

  lemma CountingHere(sh: Shared, t: Tid, th: Thread, a: Act)
    requires CountingReady(sh, th) && !Code(sh, t, th, a).Blocked?
    requires IsDiscarding(th) ==> sh.closed
    ensures CountingLocal(sh, t, th, Code(sh, t, th, a))
  {
    match th
    case Worker(_, pc) =>
      if InPop(pc) { CountingHerePop(sh, t, th, a); }
      else if InSpawn(pc) { CountingHereSpawn(sh, t, th, a); }
      else { CountingHereRest(sh, t, th, a); }
    case Inserter(_) =>
    case Waiter(_, _) =>
    case Stopper(_, _, _) => CountingHereStopper(sh, t, th, a);
  }

  const NewWorker := Worker(Extra(EXTRA_WORKER_TASKS), WLoop)

  /** Waking a thread does not change whether it satisfies `p`. */
  ghost predicate WakeBlind(p: Thread -> bool) {
    forall th: Thread :: p(WakeTask(th)) == p(th) && p(WakeIdle(th)) == p(th)
  }

  lemma CountTouched(m: map<Tid, Thread>, t: Tid, touch: Touch, p: Thread -> bool)
    requires TouchOk(m, t, touch) && WakeBlind(p)
    ensures Count(Touched(m, t, touch), p) == Count(m, p) + One(touch.Start? && p(NewWorker))
  {
    if touch.Start? {
      CountSet(m, touch.newTid, NewWorker, p);
    } else {
      CountSame(m, Touched(m, t, touch), p);
    }
  }

  lemma CountPlaced(m: map<Tid, Thread>, t: Tid, next: Option<Thread>, p: Thread -> bool)
    requires t in m
    ensures Count(Placed(m, t, next), p) == Count(m, p) - One(p(m[t])) + OneIf(next, p)
  {
    match next
    case Some(th) => CountSet(m, t, th, p);
    case None => CountDrop(m, t, p);
  }

  /** How a step changes the number of threads satisfying a predicate that waking does not change. */
  lemma CountMoves(s: State, s': State, t: Tid, o: Outcome, p: Thread -> bool)
    requires Applied(s, s', t, o) && WakeBlind(p)
    ensures Count(s'.threads, p) == Count(s.threads, p) - One(p(s.threads[t])) + OneIf(o.next, p)
                                    + One(o.touch.Start? && p(NewWorker))
  {
    CountTouched(s.threads, t, o.touch, p);
    CountPlaced(Touched(s.threads, t, o.touch), t, o.next, p);
    assert p(Touched(s.threads, t, o.touch)[t]) == p(s.threads[t]);
  }

  lemma CountingMove(s: State, s': State, t: Tid, o: Outcome)
    requires Counting(s) && Moves(s, s', t, o) && Applied(s, s', t, o) && CountingLocal(s.sh, t, s.threads[t], o)
    ensures Counting(s')
  {
    CountMoves(s, s', t, o, IsCounted);
    CountMoves(s, s', t, o, IsWorker);
    CountMoves(s, s', t, o, IsCreating);
  }

  // ---------- part 3: no lost wakeup ----------

  /** Awake inside wait_and_pop_task and still on the way to a task. */
  predicate IsSeeking(th: Thread) {
    th.Worker? && (th.w.WLock? || th.w.WCheck? || th.w.WWoken? || PopsLocked(th.w))
  }

  /** Has linked a task and not yet signalled task_cond. */
  predicate IsSignalling(th: Thread) { th.Inserter? && th.i.ISignal? }

  predicate Parking(th: Thread) { th.Worker? && th.w.WPark? }

  /** Past uevent_worker_pool_stop's store to `running`. */
  predicate HasStopped(th: Thread) { th.Stopper? && !th.p.SStore? }

  ghost predicate Poised(sh: Shared, th: Thread) {
    && (Parking(th) ==> sh.queue == [])
    && (th.Worker? && PopsLocked(th.w) ==> sh.queue != [])
    && (HasStopped(th) ==> !sh.running)
    && (sh.stopSent ==> !sh.running && !Parking(th) && !SleepsOnTask(th))
  }

  /** Part 3: while a worker sleeps, each queued task has an awake worker or a pending signal to itself. */
  ghost predicate Waking(s: State) {
    && (forall t :: t in s.threads ==> Poised(s.sh, s.threads[t]))
    && (s.sh.stopSent ==> !s.sh.running)
    && (Count(s.threads, SleepsOnTask) > 0 ==>
          |s.sh.queue| <= Count(s.threads, IsSeeking) + Count(s.threads, IsSignalling))
  }

  ghost predicate WakingLocal(sh: Shared, t: Tid, th: Thread, o: Outcome)
    requires o.Outcome?
  {
    && (o.next.Some? ==> Poised(o.sh, o.next.value))
    && (o.sh.queue != sh.queue ==> HoldsTask(th) || IsDiscarding(th))
    && (o.sh.running ==> sh.running)
    && (o.sh.stopSent != sh.stopSent ==> HoldsTask(th) && o.touch.WakeAllTask? && !o.sh.running)
    && (o.next.Some? && SleepsOnTask(o.next.value) ==> o.sh.queue == [])
    && (SleepsOnTask(th) ==> o.touch.Nobody?)
    && (o.touch.NoSleeper? || o.touch.WakeAllTask? || o.sh.queue == [] ||
        |o.sh.queue| + One(IsSeeking(th)) + One(IsSignalling(th))
          <= |sh.queue| + OneIf(o.next, IsSeeking) + OneIf(o.next, IsSignalling) + One(o.touch.WakeOne?))
  }

  ghost predicate WakingReady(sh: Shared, t: Tid, th: Thread) {
    Poised(sh, th) && LockedBy(sh, t, th) && CountingReady(sh, th)
  }

  lemma WakingHerePop(sh: Shared, t: Tid, th: Thread, a: Act)
    requires th.Worker? && InPop(th.w) && !Code(sh, t, th, a).Blocked?
    requires WakingReady(sh, t, th)
    ensures WakingLocal(sh, t, th, Code(sh, t, th, a))
  {
  }

  lemma WakingHereSpawn(sh: Shared, t: Tid, th: Thread, a: Act)
    requires th.Worker? && InSpawn(th.w) && !Code(sh, t, th, a).Blocked?
    requires WakingReady(sh, t, th)
    ensures WakingLocal(sh, t, th, Code(sh, t, th, a))
  {
  }

  lemma WakingHereRest(sh: Shared, t: Tid, th: Thread, a: Act)
    requires th.Worker? && !InPop(th.w) && !InSpawn(th.w) && !Code(sh, t, th, a).Blocked?
    requires WakingReady(sh, t, th)
    ensures WakingLocal(sh, t, th, Code(sh, t, th, a))
  {
  }

  lemma WakingHereStopper(sh: Shared, t: Tid, th: Thread, a: Act)
    requires th.Stopper? && WakingReady(sh, t, th) && !Code(sh, t, th, a).Blocked?
    ensures WakingLocal(sh, t, th, Code(sh, t, th, a))
  {
    var pc := th.p;
    if pc.SStore? || pc.STaskLock? || pc.STaskSend? || pc.STaskUnlock? {
    } else if pc.SIdleLock? || pc.SIdleSend? || pc.SIdleUnlock? {
    } else {
    }
  }

  lemma WakingHere(sh: Shared, t: Tid, th: Thread, a: Act)
    requires WakingReady(sh, t, th) && !Code(sh, t, th, a).Blocked?
    ensures WakingLocal(sh, t, th, Code(sh, t, th, a))
  {
    match th
    case Worker(_, pc) =>
      if InPop(pc) { WakingHerePop(sh, t, th, a); }
      else if InSpawn(pc) { WakingHereSpawn(sh, t, th, a); }
      else { WakingHereRest(sh, t, th, a); }
    case Inserter(_) =>
    case Waiter(_, _) =>
    case Stopper(_, _, _) => WakingHereStopper(sh, t, th, a);
  }

  /** Nobody but the mover holds the mutex a queue change needs. */
  lemma PoisedKept(s: State, s': State, t: Tid, o: Outcome, u: Tid)
    requires Locking(s) && Waking(s) && Moves(s, s', t, o) && WakingLocal(s.sh, t, s.threads[t], o)
    requires u in s'.threads
    ensures Poised(s'.sh, s'.threads[u])
  {
    if u != t && u in s.threads {
      assert LockedBy(s.sh, u, s.threads[u]) && LockedBy(s.sh, t, s.threads[t]);
      assert Poised(s.sh, s.threads[u]) && Poised(s.sh, s.threads[t]);
    }
  }

  lemma CountMore(m: map<Tid, Thread>, m': map<Tid, Thread>, p: Thread -> bool)
    requires m.Keys == m'.Keys
    requires forall t :: t in m && p(m[t]) ==> p(m'[t])
    ensures Count(m, p) <= Count(m', p)
  {
    var a, b := Those(m, p), Those(m', p);
    assert b == a + (b - a);
  }

  /** Waking only adds to the workers that look for a task. */
  lemma SeekersMove(s: State, s': State, t: Tid, o: Outcome)
    requires Applied(s, s', t, o) && (SleepsOnTask(s.threads[t]) ==> o.touch.Nobody?)
    ensures Count(s'.threads, IsSeeking) + One(IsSeeking(s.threads[t]))
              >= Count(s.threads, IsSeeking) + OneIf(o.next, IsSeeking) + One(o.touch.WakeOne?)
  {
    var m, m1 := s.threads, Touched(s.threads, t, o.touch);
    if o.touch.WakeOne? {
      CountSet(m, o.touch.sleeper, WakeTask(m[o.touch.sleeper]), IsSeeking);
    } else if o.touch.Start? {
      CountSet(m, o.touch.newTid, NewWorker, IsSeeking);
    } else {
      CountMore(m, m1, IsSeeking);
    }
    CountPlaced(m1, t, o.next, IsSeeking);
  }

  lemma WakingMove(s: State, s': State, t: Tid, o: Outcome)
    requires Locking(s) && Waking(s) && Moves(s, s', t, o)
    requires Applied(s, s', t, o) && WakingLocal(s.sh, t, s.threads[t], o)
    ensures Waking(s')
  {
    forall u | u in s'.threads ensures Poised(s'.sh, s'.threads[u]) {
      PoisedKept(s, s', t, o, u);
    }
    if u :| u in s'.threads && SleepsOnTask(s'.threads[u]) {
      CountNone(s.threads, SleepsOnTask);
      if s'.sh.queue != [] {
        assert u in s.threads && SleepsOnTask(s.threads[u]);
        SeekersMove(s, s', t, o);
        CountMoves(s, s', t, o, IsSignalling);
      }
    } else {
      CountNone(s'.threads, SleepsOnTask);
    }
  }
}
