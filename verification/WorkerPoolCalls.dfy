/**
  What each call of the worker pool, and each task, has gone through when it ends.  Everything here is said of
  whole runs: what had happened by the time a thread settles a task or leaves the pool.
 */
module WorkerPoolCalls {
  import opened Common
  import opened WorkerPool
  import opened WorkerPoolInvariants
  import opened WorkerPoolIdle
  import opened WorkerPoolTheorems

  // ---------- one step of a run ----------

  lemma Goes(states: seq<State>, schedule: seq<Choice>, n: nat)
    requires IsRun(states, schedule) && n < |schedule|
    ensures var s, c := states[n], schedule[n];
      if c.t in s.threads then Moves(s, states[n + 1], c.t, Code(s.sh, c.t, s.threads[c.t], c.a))
      else Enters(s, states[n + 1], c.t, states[n + 1].threads[c.t])
  {
    var s, c := states[n], schedule[n];
    assert Step(s, c.t, c.a) == Some(states[n + 1]);
    if c.t in s.threads {
      StepMoves(s, c.t, c.a);
    }
  }

  /** A thread that does not move stays as it is, wakes, or is a new worker. */
  lemma Stays(states: seq<State>, schedule: seq<Choice>, n: nat, t: Tid)
    requires IsRun(states, schedule) && n < |schedule| && schedule[n].t != t
    ensures t in states[n].threads ==>
          t in states[n + 1].threads && Bystander(states[n].threads[t], states[n + 1].threads[t])
    ensures t in states[n + 1].threads && t !in states[n].threads ==>
          states[n + 1].threads[t] == Worker(Extra(EXTRA_WORKER_TASKS), WLoop)
  {
    Goes(states, schedule, n);
  }

  // ---------- every task runs its callback, once ----------

  /** From state m to state n thread `t` carries task `x`. */
  ghost predicate Holding(states: seq<State>, t: Tid, x: Task, m: nat, n: nat)
    requires n < |states|
  {
    m <= n && forall i: nat :: m <= i <= n ==> t in states[i].threads && Carried(states[i].threads[t]) == Some(x)
  }

  predicate Runs(th: Thread, x: Task) { th.Worker? && th.w == WRun(x) }

  predicate Refuses(th: Thread, x: Task, a: Act) { th.Worker? && th.w == WDelay(x) && a == Other }

  predicate Clears(th: Thread, x: Task) { th.Worker? && th.w == WClear(x) }

  /** Nobody changes role. */
  lemma RoleStays(sh: Shared, t: Tid, th: Thread, a: Act)
    requires !Code(sh, t, th, a).Blocked? && Code(sh, t, th, a).next.Some?
    ensures SameRole(th, Code(sh, t, th, a).next.value)
  {
    match th
    case Worker(_, _) =>
    case Inserter(_) =>
    case Waiter(_, _) =>
    case Stopper(_, _, _) =>
  }

  predicate SameRole(th: Thread, th': Thread) {
    match th
    case Worker(k, _) => th'.Worker? && th'.kind.Core? == k.Core?
    case Inserter(_) => th'.Inserter?
    case Waiter(blocking, _) => th'.Waiter? && th'.blocking == blocking
    case Stopper(destroys, _, _) => th'.Stopper? && th'.destroys == destroys
  }

  lemma ClearHere(sh: Shared, t: Tid, th: Thread, a: Act, x: Task)
    requires th.Worker? && !Code(sh, t, th, a).Blocked?
    requires Code(sh, t, th, a).next.Some? && Clears(Code(sh, t, th, a).next.value, x)
    ensures (Runs(th, x) || Refuses(th, x, a)) && Carried(th) == Some(x)
  {
    var pc := th.w;
    if pc.WLoop? || pc.WExit? {
    } else if InPop(pc) {
    } else if InSpawn(pc) {
    } else {
    }
  }

  /** In state m the thread is in the task's callback, or its step from there is refused the event. */
  ghost predicate Answers(states: seq<State>, schedule: seq<Choice>, m: nat, t: Tid, x: Task)
    requires m < |states| && m < |schedule| && t in states[m].threads
  {
    Runs(states[m].threads[t], x) || (Refuses(states[m].threads[t], x, schedule[m].a) && schedule[m].t == t)
  }

  /** Whoever is about to finalize a task has been in its callback, or was refused the event. */
  lemma {:induction false} ClearedAfter(states: seq<State>, schedule: seq<Choice>, n: nat, t: Tid, x: Task)
    requires IsRun(states, schedule) && n < |states| && t in states[n].threads && Clears(states[n].threads[t], x)
    ensures exists m: nat :: m < n && Holding(states, t, x, m, n) && Answers(states, schedule, m, t, x)
  {
    assert n > 0;
    ClearStep(states, schedule, n - 1, t, x);
    if Clears(states[n - 1].threads[t], x) {
      ClearedAfter(states, schedule, n - 1, t, x);
      var m: nat :| m < n - 1 && Holding(states, t, x, m, n - 1) && Answers(states, schedule, m, t, x);
      assert Holding(states, t, x, m, n);
    } else {
      assert Holding(states, t, x, n - 1, n);
    }
  }

  lemma ClearStep(states: seq<State>, schedule: seq<Choice>, n: nat, t: Tid, x: Task)
    requires IsRun(states, schedule) && n < |schedule| && t in states[n + 1].threads
    requires Clears(states[n + 1].threads[t], x)
    ensures t in states[n].threads && Carried(states[n].threads[t]) == Some(x)
    ensures Clears(states[n].threads[t], x) || Answers(states, schedule, n, t, x)
  {
    Goes(states, schedule, n);
    if schedule[n].t == t {
      RoleStays(states[n].sh, t, states[n].threads[t], schedule[n].a);
      ClearHere(states[n].sh, t, states[n].threads[t], schedule[n].a, x);
    } else {
      Stays(states, schedule, n, t);
    }
  }

  lemma SettlesHere(sh: Shared, t: Tid, th: Thread, a: Act, x: Task)
    requires Carried(th) == Some(x) && !Code(sh, t, th, a).Blocked? && Code(sh, t, th, a).sh.settled != sh.settled
    ensures Clears(th, x)
  {
    TaskHere(sh, t, th, a);
  }

  /**
    Every task that a worker settles has run its callback in that worker's hands, unless the worker was refused
    a reference to the event or found it being freed.
   */
  lemma CallbackRan(states: seq<State>, schedule: seq<Choice>, n: nat, t: Tid, x: Task)
    requires IsRun(states, schedule) && n < |schedule| && schedule[n].t == t
    requires t in states[n].threads && Carried(states[n].threads[t]) == Some(x)
    requires x.id in states[n + 1].sh.settled && x.id !in states[n].sh.settled
    ensures exists m: nat :: m < n && Holding(states, t, x, m, n) && Answers(states, schedule, m, t, x)
  {
    Goes(states, schedule, n);
    SettlesHere(states[n].sh, t, states[n].threads[t], schedule[n].a, x);
    ClearedAfter(states, schedule, n, t, x);
  }

  /** The step from state n takes thread `t` into the callback of the task numbered `id`. */
  ghost predicate EntersRun(states: seq<State>, n: nat, t: Tid, id: nat)
    requires n + 1 < |states|
  {
    && t in states[n + 1].threads && RunsId(states[n + 1].threads[t], id)
    && !(t in states[n].threads && RunsId(states[n].threads[t], id))
  }

  predicate RunsId(th: Thread, id: nat) { th.Worker? && th.w.WRun? && th.w.task.id == id }

  /** The callback of the task has begun. */
  ghost predicate Begun(s: State, id: nat) {
    id in s.sh.settled
    || exists t :: t in s.threads && s.threads[t].Worker?
        && ((s.threads[t].w.WRun? && s.threads[t].w.task.id == id)
            || (s.threads[t].w.WClear? && s.threads[t].w.task.id == id))
  }

  lemma RunHere(sh: Shared, t: Tid, th: Thread, a: Act, id: nat)
    requires !Code(sh, t, th, a).Blocked?
    requires var next := Code(sh, t, th, a).next; next.Some? && RunsId(next.value, id)
    ensures Carried(th).Some? && Carried(th).value.id == id && th.Worker? && !th.w.WRun? && !th.w.WClear?
  {
    RoleStays(sh, t, th, a);
    var pc := th.w;
    if pc.WLoop? || pc.WExit? {
    } else if InPop(pc) {
    } else if InSpawn(pc) {
    } else {
    }
  }

  lemma NotBegunYet(states: seq<State>, schedule: seq<Choice>, n: nat, t: Tid, id: nat)
    requires IsRun(states, schedule) && n + 1 < |states| && EntersRun(states, n, t, id)
    ensures !Begun(states[n], id) && Begun(states[n + 1], id)
  {
    InvAlways(states, schedule, n);
    Goes(states, schedule, n);
    if schedule[n].t != t {
      Stays(states, schedule, n, t);
    }
    RunHere(states[n].sh, t, states[n].threads[t], schedule[n].a, id);
    NobodyElse(states[n], t, id);
  }

  /** Only the thread that carries a task can be in its callback or past it. */
  lemma NobodyElse(s: State, t: Tid, id: nat)
    requires Inv(s) && t in s.threads && Carried(s.threads[t]).Some? && Carried(s.threads[t]).value.id == id
    requires s.threads[t].Worker? && !s.threads[t].w.WRun? && !s.threads[t].w.WClear?
    ensures !Begun(s, id)
  {
    var carried := LedgerOf(s).carried;
    assert t in carried && carried[t].id == id;
    forall u | u in s.threads && s.threads[u].Worker? && (s.threads[u].w.WRun? || s.threads[u].w.WClear?)
      ensures s.threads[u].w.task.id != id
    {
      assert u in carried && carried[u] == s.threads[u].w.task;
    }
  }

  lemma BegunHere(sh: Shared, t: Tid, th: Thread, a: Act)
    requires th.Worker? && (th.w.WRun? || th.w.WClear?) && !Code(sh, t, th, a).Blocked?
    ensures var o := Code(sh, t, th, a);
      th.w.task.id in o.sh.settled || (o.next.Some? && Clears(o.next.value, th.w.task))
  {
  }

  lemma BegunStays(states: seq<State>, schedule: seq<Choice>, n: nat, id: nat)
    requires IsRun(states, schedule) && n + 1 < |states| && Begun(states[n], id)
    ensures Begun(states[n + 1], id)
  {
    var s, s', c := states[n], states[n + 1], schedule[n];
    Goes(states, schedule, n);
    if id in s.sh.settled {
      SettledStays(states, schedule, n, n + 1, id);
    } else {
      var u :| u in s.threads && s.threads[u].Worker?
        && ((s.threads[u].w.WRun? && s.threads[u].w.task.id == id)
            || (s.threads[u].w.WClear? && s.threads[u].w.task.id == id));
      if u == c.t {
        BegunHere(s.sh, u, s.threads[u], c.a);
      } else {
        Stays(states, schedule, n, u);
        assert s'.threads[u] == s.threads[u];
      }
    }
  }

  lemma {:induction false} BegunForGood(states: seq<State>, schedule: seq<Choice>, m: nat, n: nat, id: nat)
    requires IsRun(states, schedule) && m <= n < |states| && Begun(states[m], id)
    ensures Begun(states[n], id)
  {
    if m < n {
      BegunForGood(states, schedule, m, n - 1, id);
      BegunStays(states, schedule, n - 1, id);
    }
  }

  /** No task's callback is entered twice, by one thread or by two. */
  lemma CallbackOnce(states: seq<State>, schedule: seq<Choice>, m: nat, n: nat, t: Tid, u: Tid, id: nat)
    requires IsRun(states, schedule) && m <= n && n + 1 < |states|
    requires EntersRun(states, m, t, id) && EntersRun(states, n, u, id)
    ensures m == n && t == u
  {
    NotBegunYet(states, schedule, m, t, id);
    NotBegunYet(states, schedule, n, u, id);
    if m < n {
      BegunForGood(states, schedule, m + 1, n, id);
    } else {
      OneAtATime(states, schedule, n, t, u, id);
    }
  }

  lemma OneAtATime(states: seq<State>, schedule: seq<Choice>, n: nat, t: Tid, u: Tid, id: nat)
    requires IsRun(states, schedule) && n + 1 < |states| && EntersRun(states, n, t, id) && EntersRun(states, n, u, id)
    ensures t == u
  {
    Goes(states, schedule, n);
    if schedule[n].t != t { Stays(states, schedule, n, t); }
    if schedule[n].t != u { Stays(states, schedule, n, u); }
  }

  // ---------- stop and destroy do all they have to ----------

  /** From state m to state n thread `t` is inside one call of stop, or of destroy. */
  ghost predicate Stopping(states: seq<State>, t: Tid, d: bool, m: nat, n: nat)
    requires n < |states|
  {
    m <= n && forall i: nat :: m <= i <= n ==> t in states[i].threads && IsStopper(states[i].threads[t], d)
  }

  predicate IsStopper(th: Thread, d: bool) { th.Stopper? && th.destroys == d }

  predicate StopperOk(th: Thread) { MoreOk(th) && (IsStopper(th, true) && th.p.SStore? ==> th.more == 2) }

  /** Destroy has two more broadcasts to repeat at first and none when it joins; stop has none. */
  predicate MoreOk(th: Thread) {
    th.Stopper? ==>
      if !th.destroys then th.more == 0
      else th.more <= if th.p.SJoin? || th.p.SPoll? || th.p.SDiscard? then 0 else 2
  }

  /** The program point from which a stopper came to the one it is at. */
  function Earlier(th: Thread): Thread
    requires th.Stopper? && !th.p.SStore?
  {
    match th.p
    case STaskLock =>
      if th.destroys && th.more != 2 then th.(more := th.more + 1, p := SIdleUnlock) else th.(p := SStore)
    case STaskSend => th.(p := STaskLock)
    case STaskUnlock => th.(p := STaskSend)
    case SIdleLock => th.(p := STaskUnlock)
    case SIdleSend => th.(p := SIdleLock)
    case SIdleUnlock => th.(p := SIdleSend)
    case SDrainLock => th.(p := SIdleUnlock)
    case SDrain => th.(p := SDrainLock)
    case SDrainUnlock => th.(p := SDrain)
    case SFinalLock => th.(p := SDrainUnlock)
    case SFinalSend => th.(p := SFinalLock)
    case SFinalUnlock => th.(p := SFinalSend)
    case SJoin => th.(p := SIdleUnlock)
    case SPoll => th.(p := SJoin)
    case SDiscard => th.(p := SPoll)
  }

  lemma EarlierHere(sh: Shared, t: Tid, th: Thread, a: Act)
    requires th.Stopper? && StopperOk(th) && !Code(sh, t, th, a).Blocked? && Code(sh, t, th, a).next.Some?
    ensures var th' := Code(sh, t, th, a).next.value;
      th'.Stopper? && StopperOk(th') && !th'.p.SStore? && (th' == th || th == Earlier(th'))
  {
  }

  lemma {:induction false} StopperOkAlways(states: seq<State>, schedule: seq<Choice>, n: nat, t: Tid)
    requires IsRun(states, schedule) && n < |states| && t in states[n].threads
    ensures StopperOk(states[n].threads[t])
  {
    if n > 0 && states[n].threads[t].Stopper? {
      StopperStep(states, schedule, n - 1, t);
      if t in states[n - 1].threads {
        StopperOkAlways(states, schedule, n - 1, t);
      }
    }
  }

  lemma StopperStep(states: seq<State>, schedule: seq<Choice>, n: nat, t: Tid)
    requires IsRun(states, schedule) && n < |schedule|
    requires t in states[n + 1].threads && states[n + 1].threads[t].Stopper?
    ensures t in states[n].threads ==> states[n].threads[t].Stopper?
    ensures (t in states[n].threads ==> StopperOk(states[n].threads[t])) ==> StopperOk(states[n + 1].threads[t])
  {
    var s := states[n];
    Goes(states, schedule, n);
    if schedule[n].t != t {
      Stays(states, schedule, n, t);
    } else if t in s.threads {
      RoleStays(s.sh, t, s.threads[t], schedule[n].a);
      if StopperOk(s.threads[t]) {
        EarlierHere(s.sh, t, s.threads[t], schedule[n].a);
      }
    }
  }

  /** The step of the same call that took a stopper from the point before to the one it is at. */
  lemma {:induction false} CameFrom(states: seq<State>, schedule: seq<Choice>, n: nat, t: Tid) returns (m: nat)
    requires IsRun(states, schedule) && n < |states| && t in states[n].threads
    requires states[n].threads[t].Stopper? && !states[n].threads[t].p.SStore?
    ensures m < n && schedule[m].t == t && Stopping(states, t, states[n].threads[t].destroys, m, n)
    ensures states[m].threads[t] == Earlier(states[n].threads[t]) && states[m + 1].threads[t] == states[n].threads[t]
  {
    assert n > 0;
    m := n - 1;
    EarlierStep(states, schedule, m, t);
    if states[m].threads[t] == states[n].threads[t] {
      m := CameFrom(states, schedule, m, t);
    }
  }

  lemma EarlierStep(states: seq<State>, schedule: seq<Choice>, n: nat, t: Tid)
    requires IsRun(states, schedule) && n < |schedule| && t in states[n + 1].threads
    requires states[n + 1].threads[t].Stopper? && !states[n + 1].threads[t].p.SStore?
    ensures t in states[n].threads && states[n].threads[t].Stopper?
    ensures states[n].threads[t] == states[n + 1].threads[t]
         || (schedule[n].t == t && states[n].threads[t] == Earlier(states[n + 1].threads[t]))
  {
    var s := states[n];
    Goes(states, schedule, n);
    if schedule[n].t != t {
      Stays(states, schedule, n, t);
    } else {
      RoleStays(s.sh, t, s.threads[t], schedule[n].a);
      StopperOkAlways(states, schedule, n, t);
      EarlierHere(s.sh, t, s.threads[t], schedule[n].a);
    }
  }

  ghost predicate NobodyOnTask(s: State) { forall u :: u in s.threads ==> !SleepsOnTask(s.threads[u]) }

  ghost predicate NobodyOnIdle(s: State) { forall u :: u in s.threads ==> !SleepsOnIdle(s.threads[u]) }

  /** What the steps of a stopper that matter to others do. */
  lemma Strikes(states: seq<State>, schedule: seq<Choice>, n: nat)
    requires IsRun(states, schedule) && n < |schedule|
    requires var t := schedule[n].t; t in states[n].threads && states[n].threads[t].Stopper?
    ensures var p := states[n].threads[schedule[n].t].p;
      && (p.SStore? ==> !states[n + 1].sh.running)
      && (p.STaskSend? ==> NobodyOnTask(states[n + 1]))
      && (p.SIdleSend? || p.SFinalSend? ==> NobodyOnIdle(states[n + 1]))
  {
    Goes(states, schedule, n);
  }

  /** In steps b and c thread `t` wakes everybody asleep on task_cond and then everybody asleep on idle_cond. */
  ghost predicate Rings(states: seq<State>, schedule: seq<Choice>, t: Tid, b: nat, c: nat)
    requires |states| == |schedule| + 1
  {
    b < c < |schedule| && schedule[b].t == schedule[c].t == t
    && NobodyOnTask(states[b + 1]) && NobodyOnIdle(states[c + 1])
  }

  /** One round of broadcasts, behind a stopper that is about to give up idle_mutex. */
  lemma Round(states: seq<State>, schedule: seq<Choice>, n: nat, t: Tid) returns (m: nat, b: nat, c: nat)
    requires IsRun(states, schedule) && n < |states| && t in states[n].threads
    requires states[n].threads[t].Stopper? && states[n].threads[t].p.SIdleUnlock?
    ensures m < b < c < n && Stopping(states, t, states[n].threads[t].destroys, m, n)
    ensures Rings(states, schedule, t, b, c)
    ensures states[m].threads[t] == states[n].threads[t].(p := STaskLock)
  {
    c := CameFrom(states, schedule, n, t);
    var i := CameFrom(states, schedule, c, t);
    var j := CameFrom(states, schedule, i, t);
    b := CameFrom(states, schedule, j, t);
    m := CameFrom(states, schedule, b, t);
    Strikes(states, schedule, b);
    Strikes(states, schedule, c);
  }

  /** A call of stop or destroy as it has gone by when the thread leaves the pool. */
  lemma LeavesHere(sh: Shared, t: Tid, th: Thread, a: Act)
    requires th.Stopper? && !Code(sh, t, th, a).Blocked? && Code(sh, t, th, a).next.None?
    ensures if th.p.SFinalUnlock? then true else th.p.SDiscard? && sh.queue == []
  {
  }

  lemma DrainedHere(sh: Shared, t: Tid, th: Thread, a: Act)
    requires th.Stopper? && th.p.SDrain? && !Code(sh, t, th, a).Blocked?
    requires Code(sh, t, th, a).next.Some? && Code(sh, t, th, a).next.value.p.SDrainUnlock?
    ensures sh.queue == []
  {
  }

  /** State d of the call: task_mutex held, the queue empty, every task so far settled or in a worker's hands. */
  ghost predicate Drained(s: State, t: Tid) {
    && s.sh.taskOwner == Some(t) && s.sh.queue == []
    && forall id: nat :: id < s.sh.nextId ==> id in s.sh.settled || Held(LedgerOf(s).carried, id)
  }

  /** Before its last broadcast a stop has drained the queue. */
  lemma DrainedBefore(states: seq<State>, schedule: seq<Choice>, n: nat, t: Tid) returns (m: nat, d: nat, e: nat)
    requires IsRun(states, schedule) && n < |states| && t in states[n].threads
    requires states[n].threads[t].Stopper? && states[n].threads[t].p.SFinalUnlock?
    ensures m < d < e < n && Stopping(states, t, states[n].threads[t].destroys, m, n)
    ensures schedule[e].t == t && Drained(states[d], t) && NobodyOnIdle(states[e + 1])
    ensures states[m].threads[t] == states[n].threads[t].(p := SIdleUnlock)
  {
    e := CameFrom(states, schedule, n, t);
    Strikes(states, schedule, e);
    var i := CameFrom(states, schedule, e, t);
    var j := CameFrom(states, schedule, i, t);
    m, d := Draining(states, schedule, j, t);
  }

  lemma Draining(states: seq<State>, schedule: seq<Choice>, n: nat, t: Tid) returns (m: nat, d: nat)
    requires IsRun(states, schedule) && n < |states| && t in states[n].threads
    requires states[n].threads[t].Stopper? && states[n].threads[t].p.SDrainUnlock?
    ensures m < d < n && Stopping(states, t, states[n].threads[t].destroys, m, n) && Drained(states[d], t)
    ensures states[m].threads[t] == states[n].threads[t].(p := SIdleUnlock)
  {
    d := CameFrom(states, schedule, n, t);
    DrainedAt(states, schedule, d);
    var k := CameFrom(states, schedule, d, t);
    m := CameFrom(states, schedule, k, t);
  }

  lemma DrainedAt(states: seq<State>, schedule: seq<Choice>, d: nat)
    requires IsRun(states, schedule) && d < |schedule|
    requires var t := schedule[d].t;
      && t in states[d].threads && states[d].threads[t].Stopper? && states[d].threads[t].p.SDrain?
      && t in states[d + 1].threads && states[d + 1].threads[t] == states[d].threads[t].(p := SDrainUnlock)
    ensures Drained(states[d], schedule[d].t)
  {
    InvAlways(states, schedule, d);
    Goes(states, schedule, d);
    var s, t := states[d], schedule[d].t;
    DrainedHere(s.sh, t, s.threads[t], schedule[d].a);
    assert LockedBy(s.sh, t, s.threads[t]);
  }

  /**
    When uevent_worker_pool_stop returns it has, in this order, stopped the pool, woken every worker asleep on
    task_cond and every waiter asleep on idle_cond, then, holding task_mutex, left the queue empty with every
    task inserted so far settled or in a worker's hands, and then woken every waiter again.
   */
  lemma StopReturns(states: seq<State>, schedule: seq<Choice>, n: nat, t: Tid)
    returns (a: nat, b: nat, c: nat, d: nat, e: nat)
    requires IsRun(states, schedule) && n < |schedule| && schedule[n].t == t && t in states[n].threads
    requires IsStopper(states[n].threads[t], false) && t !in states[n + 1].threads
    ensures a < b < c < d < e < n && Stopping(states, t, false, a, n)
    ensures schedule[a].t == t && !states[a + 1].sh.running && Rings(states, schedule, t, b, c)
    ensures Drained(states[d], t) && schedule[e].t == t && NobodyOnIdle(states[e + 1])
  {
    Leaving(states, schedule, n);
    var m;
    m, d, e := DrainedBefore(states, schedule, n, t);
    var k;
    k, b, c := Round(states, schedule, m, t);
    a := CameFrom(states, schedule, k, t);
    Strikes(states, schedule, a);
  }

  lemma Leaving(states: seq<State>, schedule: seq<Choice>, n: nat)
    requires IsRun(states, schedule) && n < |schedule|
    requires var t := schedule[n].t;
      t in states[n].threads && states[n].threads[t].Stopper? && t !in states[n + 1].threads
    ensures var th := states[n].threads[schedule[n].t];
      && MoreOk(th)
      && if th.destroys then th.p.SDiscard? && states[n].sh.closed && states[n].sh.queue == [] else th.p.SFinalUnlock?
  {
    var t, s := schedule[n].t, states[n];
    Goes(states, schedule, n);
    LeavesHere(s.sh, t, s.threads[t], schedule[n].a);
    InvAlways(states, schedule, n);
    StopperOkAlways(states, schedule, n, t);
    assert LockedBy(s.sh, t, s.threads[t]);
  }

  /**
    When uevent_worker_pool_destroy returns it has stopped the pool and three times woken every sleeper; nobody
    else is left, the queue is empty and every task ever inserted is settled.
   */
  lemma DestroyReturns(states: seq<State>, schedule: seq<Choice>, n: nat, t: Tid)
    returns (a: nat, b: seq<nat>, c: seq<nat>)
    requires IsRun(states, schedule) && n < |schedule| && schedule[n].t == t && t in states[n].threads
    requires IsStopper(states[n].threads[t], true) && t !in states[n + 1].threads
    ensures |b| == |c| == 3 && a < b[0] < c[0] < b[1] < c[1] < b[2] < c[2] < n && Stopping(states, t, true, a, n)
    ensures schedule[a].t == t && !states[a + 1].sh.running
    ensures forall i :: 0 <= i < 3 ==> Rings(states, schedule, t, b[i], c[i])
    ensures states[n].threads.Keys == {t} && states[n].sh.queue == []
    ensures forall id: nat :: id < states[n].sh.nextId <==> id in states[n].sh.settled
  {
    Leaving(states, schedule, n);
    DestroyedMeansSettled(states, schedule, n);
    InvAlways(states, schedule, n);
    assert IsDiscarding(states[n].threads[t]);
    var m := Polled(states, schedule, n, t);
    StopperOkAlways(states, schedule, m, t);
    a, b, c := ThreeRounds(states, schedule, m, t);
  }

  lemma Polled(states: seq<State>, schedule: seq<Choice>, n: nat, t: Tid) returns (m: nat)
    requires IsRun(states, schedule) && n < |states| && t in states[n].threads
    requires states[n].threads[t].Stopper? && states[n].threads[t].p.SDiscard?
    ensures m < n && Stopping(states, t, states[n].threads[t].destroys, m, n)
    ensures states[m].threads[t] == states[n].threads[t].(p := SIdleUnlock)
  {
    var i := CameFrom(states, schedule, n, t);
    m := Joining(states, schedule, i, t);
  }

  lemma Joining(states: seq<State>, schedule: seq<Choice>, n: nat, t: Tid) returns (m: nat)
    requires IsRun(states, schedule) && n < |states| && t in states[n].threads
    requires states[n].threads[t].Stopper? && states[n].threads[t].p.SPoll?
    ensures m < n && Stopping(states, t, states[n].threads[t].destroys, m, n)
    ensures states[m].threads[t] == states[n].threads[t].(p := SIdleUnlock)
  {
    var j := CameFrom(states, schedule, n, t);
    m := CameFrom(states, schedule, j, t);
  }

  lemma ThreeRounds(states: seq<State>, schedule: seq<Choice>, n: nat, t: Tid)
    returns (a: nat, b: seq<nat>, c: seq<nat>)
    requires IsRun(states, schedule) && n < |states| && t in states[n].threads
    requires states[n].threads[t] == Stopper(true, 0, SIdleUnlock)
    ensures |b| == |c| == 3 && a < b[0] < c[0] < b[1] < c[1] < b[2] < c[2] < n && Stopping(states, t, true, a, n)
    ensures schedule[a].t == t && !states[a + 1].sh.running
    ensures forall i :: 0 <= i < 3 ==> Rings(states, schedule, t, b[i], c[i])
  {
    var m2, b2, c2 := Round(states, schedule, n, t);
    var n1 := CameFrom(states, schedule, m2, t);
    var m1, b1, c1 := Round(states, schedule, n1, t);
    var n0 := CameFrom(states, schedule, m1, t);
    var m0, b0, c0 := Round(states, schedule, n0, t);
    a := CameFrom(states, schedule, m0, t);
    Strikes(states, schedule, a);
    b, c := [b0, b1, b2], [c0, c1, c2];
  }

  predicate IsPastJoin(th: Thread) { th.Stopper? && (th.p.SPoll? || th.p.SDiscard?) }

  ghost predicate NoCore(s: State) { forall u :: u in s.threads ==> !IsCore(s.threads[u]) }

  lemma JoinStep(states: seq<State>, schedule: seq<Choice>, n: nat, t: Tid)
    requires IsRun(states, schedule) && n < |schedule|
    requires t in states[n + 1].threads && IsPastJoin(states[n + 1].threads[t])
    ensures NoCore(states[n]) || (t in states[n].threads && IsPastJoin(states[n].threads[t]))
  {
    EarlierStep(states, schedule, n, t);
    assert Step(states[n], schedule[n].t, schedule[n].a) == Some(states[n + 1]);
    if schedule[n].t == t && states[n].threads[t].p.SJoin? {
      JoinHere(states[n], t, schedule[n].a);
    }
  }

  /** The join takes place only when every core worker has returned. */
  lemma JoinHere(s: State, t: Tid, a: Act)
    requires t in s.threads && s.threads[t].Stopper? && s.threads[t].p.SJoin? && Step(s, t, a).Some?
    ensures NoCore(s)
  {
  }

  /** From the join on no core worker is left. */
  lemma {:induction false} JoinedMeansGone(states: seq<State>, schedule: seq<Choice>, n: nat, t: Tid)
    requires IsRun(states, schedule) && n < |states| && t in states[n].threads && IsPastJoin(states[n].threads[t])
    ensures NoCore(states[n])
  {
    assert n > 0;
    JoinStep(states, schedule, n - 1, t);
    if !NoCore(states[n - 1]) {
      JoinedMeansGone(states, schedule, n - 1, t);
    }
    NoCoreStays(states, schedule, n - 1);
  }

  lemma NoCoreStays(states: seq<State>, schedule: seq<Choice>, n: nat)
    requires IsRun(states, schedule) && n < |schedule| && NoCore(states[n])
    ensures NoCore(states[n + 1])
  {
    var threads := states[n + 1].threads;
    forall u | u in threads ensures !IsCore(threads[u]) {
      if IsCore(threads[u]) { CoreWasCore(states, schedule, n, u); }
    }
  }

  predicate IsCore(th: Thread) { th.Worker? && th.kind.Core? }

  lemma CoreWasCore(states: seq<State>, schedule: seq<Choice>, n: nat, u: Tid)
    requires IsRun(states, schedule) && n < |schedule| && u in states[n + 1].threads && IsCore(states[n + 1].threads[u])
    ensures u in states[n].threads && IsCore(states[n].threads[u])
  {
    var s := states[n];
    Goes(states, schedule, n);
    if schedule[n].t != u {
      Stays(states, schedule, n, u);
    } else if u in s.threads {
      RoleStays(s.sh, u, s.threads[u], schedule[n].a);
    }
  }

  // ---------- an insertion queues its task ----------

  /** From state m to state n thread `t` is inside one call of insert. */
  ghost predicate Adding(states: seq<State>, t: Tid, m: nat, n: nat)
    requires n < |states|
  {
    m <= n && forall i: nat :: m <= i <= n ==> t in states[i].threads && states[i].threads[t].Inserter?
  }

  function InsertRank(pc: InsertPc): nat {
    match pc
    case IRead(_) => 0
    case IMark(_) => 1
    case ILock(_) => 2
    case IPush(_) => 3
    case ISignal => 4
    case IUnlock => 5
  }

  lemma InsertHere(sh: Shared, t: Tid, th: Thread, a: Act)
    requires th.Inserter? && !Code(sh, t, th, a).Blocked? && Code(sh, t, th, a).next.Some?
    ensures var th' := Code(sh, t, th, a).next.value;
      && th'.Inserter? && InsertRank(th'.i) == InsertRank(th.i) + 1
      && (Inserting(th').Some? ==> Inserting(th) == Inserting(th'))
  {
  }

  /** The step of the same call that brought an inserter where it is. */
  lemma {:induction false} InsertCame(states: seq<State>, schedule: seq<Choice>, n: nat, t: Tid) returns (m: nat)
    requires IsRun(states, schedule) && n < |states| && t in states[n].threads && states[n].threads[t].Inserter?
    requires InsertRank(states[n].threads[t].i) > 0
    ensures m < n && schedule[m].t == t && Adding(states, t, m, n)
    ensures InsertRank(states[m].threads[t].i) == InsertRank(states[n].threads[t].i) - 1
    ensures Inserting(states[n].threads[t]).Some? ==> Inserting(states[m].threads[t]) == Inserting(states[n].threads[t])
    ensures states[m + 1].threads[t] == states[n].threads[t]
  {
    assert n > 0;
    m := n - 1;
    InsertMoves(states, schedule, m, t);
    if states[m].threads[t] == states[n].threads[t] {
      m := InsertCame(states, schedule, m, t);
    }
  }

  lemma InsertMoves(states: seq<State>, schedule: seq<Choice>, n: nat, t: Tid)
    requires IsRun(states, schedule) && n < |schedule| && t in states[n + 1].threads
    requires states[n + 1].threads[t].Inserter? && InsertRank(states[n + 1].threads[t].i) > 0
    ensures t in states[n].threads && states[n].threads[t].Inserter?
    ensures var th, th' := states[n].threads[t], states[n + 1].threads[t];
      th == th' || (schedule[n].t == t && InsertRank(th.i) == InsertRank(th'.i) - 1
                    && (Inserting(th').Some? ==> Inserting(th) == Inserting(th')))
  {
    Goes(states, schedule, n);
    if schedule[n].t != t {
      Stays(states, schedule, n, t);
    } else {
      RoleStays(states[n].sh, t, states[n].threads[t], schedule[n].a);
      InsertHere(states[n].sh, t, states[n].threads[t], schedule[n].a);
    }
  }

  /** A signal that finds somebody asleep on task_cond wakes one of them. */
  ghost predicate Signals(s: State, s': State) {
    NobodyOnTask(s) || exists u :: u in s.threads && SleepsOnTask(s.threads[u])
                           && u in s'.threads && s'.threads[u] == WakeTask(s.threads[u])
  }

  /** What the steps of an inserter do. */
  lemma InsertStrikes(states: seq<State>, schedule: seq<Choice>, n: nat)
    requires IsRun(states, schedule) && n < |schedule|
    requires var t := schedule[n].t; t in states[n].threads && states[n].threads[t].Inserter?
    ensures var t, s, s' := schedule[n].t, states[n], states[n + 1];
      var pc := s.threads[t].i;
      && (pc.IRead? && t in s'.threads ==> pc.ev !in s.sh.flags && s'.sh == s.sh)
      && (pc.IRead? && t !in s'.threads ==> (pc.ev in s.sh.flags || schedule[n].a == Other) && s'.sh == s.sh)
      && (pc.IMark? ==> s'.sh == s.sh.(flags := s.sh.flags + {pc.ev}))
      && (pc.IPush? ==> s'.sh.queue == s.sh.queue + [Task(s.sh.nextId, pc.ev)])
      && (pc.ISignal? ==> Signals(s, s'))
      && (t !in s'.threads ==> pc.IRead? || pc.IUnlock?)
  {
    Goes(states, schedule, n);
  }

  /** uevent_worker_pool_insert gives up, with nothing done, only for a flag that is set or for want of memory. */
  lemma InsertRefuses(states: seq<State>, schedule: seq<Choice>, n: nat, t: Tid)
    requires IsRun(states, schedule) && n < |schedule| && schedule[n].t == t && t in states[n].threads
    requires states[n].threads[t].Inserter? && t !in states[n + 1].threads && Inserting(states[n].threads[t]).Some?
    ensures states[n + 1].sh == states[n].sh
    ensures Inserting(states[n].threads[t]).value in states[n].sh.flags || schedule[n].a == Other
  {
    InsertStrikes(states, schedule, n);
  }

  /**
    Otherwise, when it returns, it has found its event's flag clear, then set it, then appended one task of the
    event to the queue and then signalled task_cond.
   */
  lemma InsertQueues(states: seq<State>, schedule: seq<Choice>, n: nat, t: Tid)
    returns (ev: EventId, a: nat, b: nat, c: nat, d: nat)
    requires IsRun(states, schedule) && n < |schedule| && schedule[n].t == t && t in states[n].threads
    requires states[n].threads[t].Inserter? && t !in states[n + 1].threads && Inserting(states[n].threads[t]).None?
    ensures a < b < c < d < n && Adding(states, t, a, n)
    ensures schedule[a].t == schedule[b].t == schedule[c].t == schedule[d].t == t
    ensures ev !in states[a].sh.flags && ev in states[b + 1].sh.flags
    ensures states[c + 1].sh.queue == states[c].sh.queue + [Task(states[c].sh.nextId, ev)]
    ensures Signals(states[d], states[d + 1])
  {
    InsertStrikes(states, schedule, n);
    d := InsertCame(states, schedule, n, t);
    InsertStrikes(states, schedule, d);
    c := InsertCame(states, schedule, d, t);
    InsertStrikes(states, schedule, c);
    ev := states[c].threads[t].i.ev;
    a, b := FlagSet(states, schedule, c, t);
  }

  lemma FlagSet(states: seq<State>, schedule: seq<Choice>, n: nat, t: Tid) returns (a: nat, b: nat)
    requires IsRun(states, schedule) && n < |states| && t in states[n].threads
    requires states[n].threads[t].Inserter? && states[n].threads[t].i.IPush?
    ensures a < b < n && Adding(states, t, a, n) && schedule[a].t == schedule[b].t == t
    ensures var ev := states[n].threads[t].i.ev; ev !in states[a].sh.flags && ev in states[b + 1].sh.flags
  {
    var i := InsertCame(states, schedule, n, t);
    b := InsertCame(states, schedule, i, t);
    InsertStrikes(states, schedule, b);
    a := InsertCame(states, schedule, b, t);
    InsertStrikes(states, schedule, a);
  }

  // ---------- waiting ends only when all is settled ----------

  /** Thread `t` enters a call of wait_for_idle, or of a bare is_idle, with state k, and is in it to state n. */
  ghost predicate WaitingFrom(states: seq<State>, t: Tid, k: nat, n: nat)
    requires n < |states|
  {
    && 0 < k <= n && t !in states[k - 1].threads
    && forall i: nat :: k <= i <= n ==> t in states[i].threads && states[i].threads[t].Waiter?
  }

  function CutOf(th: Thread): Option<nat> {
    if !th.Waiter? then None else
    match th.v
    case VTaskUnlock(_, cut) => Some(cut)
    case VReadActive(_, cut) => Some(cut)
    case VDone(cut) => Some(cut)
    case _ => None
  }

  lemma CutHere(sh: Shared, t: Tid, th: Thread, a: Act)
    requires th.Waiter? && !Code(sh, t, th, a).Blocked?
    ensures var o := Code(sh, t, th, a);
      && o.sh.nextId == sh.nextId
      && (o.next.Some? && CutOf(o.next.value).Some? ==>
            CutOf(o.next.value) == CutOf(th) || CutOf(o.next.value).value == sh.nextId)
      && (o.next.None? && th.blocking ==> th.v.VDone?)
  {
  }

  lemma {:induction false} NumbersGrow(states: seq<State>, schedule: seq<Choice>, m: nat, n: nat)
    requires IsRun(states, schedule) && m <= n < |states|
    ensures states[m].sh.nextId <= states[n].sh.nextId
  {
    if m < n {
      NumbersGrow(states, schedule, m, n - 1);
      Goes(states, schedule, n - 1);
      var s, c := states[n - 1], schedule[n - 1];
      if c.t in s.threads {
        TaskHere(s.sh, c.t, s.threads[c.t], c.a);
      }
    }
  }

  /** A waiter's look at the queue is no older than its call. */
  lemma {:induction false} LooksDuringCall(states: seq<State>, schedule: seq<Choice>, t: Tid, k: nat, n: nat)
    requires IsRun(states, schedule) && n < |states| && WaitingFrom(states, t, k, n)
    ensures CutOf(states[n].threads[t]).Some? ==> CutOf(states[n].threads[t]).value >= states[k].sh.nextId
  {
    if k < n {
      LooksDuringCall(states, schedule, t, k, n - 1);
      NumbersGrow(states, schedule, k, n - 1);
      LookStep(states, schedule, t, n - 1);
    } else {
      EntersUnseeing(states, schedule, t, n - 1);
    }
  }

  lemma EntersUnseeing(states: seq<State>, schedule: seq<Choice>, t: Tid, n: nat)
    requires IsRun(states, schedule) && n < |schedule| && t !in states[n].threads
    requires t in states[n + 1].threads && states[n + 1].threads[t].Waiter?
    ensures CutOf(states[n + 1].threads[t]).None?
  {
    Goes(states, schedule, n);
  }

  lemma LookStep(states: seq<State>, schedule: seq<Choice>, t: Tid, n: nat)
    requires IsRun(states, schedule) && n < |schedule| && t in states[n].threads && states[n].threads[t].Waiter?
    requires t in states[n + 1].threads
    ensures var cut := CutOf(states[n + 1].threads[t]);
      cut.Some? ==> cut == CutOf(states[n].threads[t]) || cut.value == states[n].sh.nextId
  {
    Goes(states, schedule, n);
    if schedule[n].t == t {
      CutHere(states[n].sh, t, states[n].threads[t], schedule[n].a);
    } else {
      Stays(states, schedule, n, t);
    }
  }

  /** When wait_for_idle returns, every task inserted before it was called has been finalized or discarded. */
  lemma WaitReturns(states: seq<State>, schedule: seq<Choice>, t: Tid, k: nat, n: nat)
    requires IsRun(states, schedule) && n < |schedule| && WaitingFrom(states, t, k, n) && schedule[n].t == t
    requires states[n].threads[t].blocking && t !in states[n + 1].threads
    ensures forall id: nat :: id < states[k].sh.nextId ==> id in states[n].sh.settled
  {
    Goes(states, schedule, n);
    CutHere(states[n].sh, t, states[n].threads[t], schedule[n].a);
    LooksDuringCall(states, schedule, t, k, n);
    forall id: nat | id < states[k].sh.nextId ensures id in states[n].sh.settled {
      IdleMeansSettled(states, schedule, n, t, id);
    }
  }

  // ---------- is_idle answers no only with reason ----------

  predicate SaysNo(th: Thread) {
    th.Waiter? && match th.v
    case VTaskUnlock(empty, _) => !empty
    case VReadActive(empty, _) => !empty
    case _ => false
  }

  /** A waiter that has found the queue not empty did so during its call. */
  lemma {:induction false} SawQueue(states: seq<State>, schedule: seq<Choice>, t: Tid, k: nat, n: nat)
    requires IsRun(states, schedule) && n < |states| && WaitingFrom(states, t, k, n) && SaysNo(states[n].threads[t])
    ensures exists m: nat :: k <= m <= n && states[m].sh.queue != []
  {
    if k < n {
      if SaysNo(states[n - 1].threads[t]) {
        SawQueue(states, schedule, t, k, n - 1);
      } else {
        SeesQueue(states, schedule, t, n - 1);
      }
    } else {
      EntersUnseeing(states, schedule, t, n - 1);
    }
  }

  lemma SeesQueue(states: seq<State>, schedule: seq<Choice>, t: Tid, n: nat)
    requires IsRun(states, schedule) && n < |schedule| && t in states[n].threads && states[n].threads[t].Waiter?
    requires t in states[n + 1].threads && SaysNo(states[n + 1].threads[t]) && !SaysNo(states[n].threads[t])
    ensures states[n].sh.queue != []
  {
    Goes(states, schedule, n);
    if schedule[n].t != t {
      Stays(states, schedule, n, t);
    } else {
      InvAlways(states, schedule, n);
      NoHere(states[n].sh, t, states[n].threads[t], schedule[n].a);
    }
  }

  lemma NoHere(sh: Shared, t: Tid, th: Thread, a: Act)
    requires th.Waiter? && !SaysNo(th) && sh.queueSize == |sh.queue| && !Code(sh, t, th, a).Blocked?
    requires Code(sh, t, th, a).next.Some? && SaysNo(Code(sh, t, th, a).next.value)
    ensures sh.queue != []
  {
  }

  /** The answer no is given only if, during the call, a task was queued or counted as active. */
  lemma NotIdleForReason(states: seq<State>, schedule: seq<Choice>, t: Tid, k: nat, n: nat)
    requires IsRun(states, schedule) && n < |schedule| && WaitingFrom(states, t, k, n) && schedule[n].t == t
    requires t !in states[n + 1].threads && !states[n].threads[t].v.VDone?
    ensures exists m: nat :: k <= m <= n && (states[m].sh.queue != [] || states[m].sh.active != 0)
  {
    assert Step(states[n], t, schedule[n].a).Some?;
    Goes(states, schedule, n);
    assert states[n].threads[t].v.VReadActive?;
    if SaysNo(states[n].threads[t]) {
      SawQueue(states, schedule, t, k, n);
    } else {
      assert states[n].sh.active != 0;
    }
  }

  // ---------- workers leave a stopped pool ----------

  /** The most steps of its own that a worker of a stopped pool still takes, failed exchanges apart. */
  function Ahead(pc: WorkerPc): nat {
    match pc
    case WExit => 1
    case WLoop => 2
    case WGiveUp => 3
    case WIdleUnlock => 3
    case WIdleSend => 4
    case WIdleLock => 5
    case WDrop => 6
    case WClear(_) => 7
    case WRun(_) => 8
    case WSpawnCreate(b) => if b.ToRun? then 9 else 16
    case WSpawnCas(_, b) => if b.ToRun? then 10 else 17
    case WSpawnRead(b) => if b.ToRun? then 11 else 18
    case WDelay(_) => 12
    case WLeave(_) => 13
    case WCount(_) => 14
    case WPop => 15
    case WHave => 19
    case WCheck => 20
    case WLock => 21
    case WWoken => 21
    case WAsleep => 22
    case WPark => 23
  }

  /** A compare-exchange on total_workers that fails sends its worker back to reading it. */
  predicate Retries(th: Thread, th': Thread) { th.Worker? && th.w.WSpawnCas? && th'.Worker? && th'.w.WSpawnRead? }

  lemma AheadHere(sh: Shared, t: Tid, th: Thread, a: Act)
    requires th.Worker? && !sh.running && !Code(sh, t, th, a).Blocked? && Code(sh, t, th, a).next.Some?
    ensures var th' := Code(sh, t, th, a).next.value;
      th'.Worker? && Ahead(th'.w) <= if Retries(th, th') then Ahead(th.w) + 1 else Ahead(th.w) - 1
  {
    var pc := th.w;
    if pc.WLoop? || pc.WExit? {
    } else if InPop(pc) {
    } else if InSpawn(pc) {
    } else {
    }
  }

  /** How many of the steps m, ..., n - 1 thread `t` takes. */
  function Taken(schedule: seq<Choice>, t: Tid, m: nat, n: nat): nat
    requires m <= n <= |schedule|
  {
    if m == n then 0 else Taken(schedule, t, m, n - 1) + One(schedule[n - 1].t == t)
  }

  /** How many of them are failed exchanges. */
  function Retried(states: seq<State>, schedule: seq<Choice>, t: Tid, m: nat, n: nat): nat
    requires m <= n <= |schedule| && |states| == |schedule| + 1
  {
    if m == n then 0 else Retried(states, schedule, t, m, n - 1) + One(RetriesAt(states, schedule, t, n - 1))
  }

  predicate RetriesAt(states: seq<State>, schedule: seq<Choice>, t: Tid, n: nat)
    requires n < |schedule| && |states| == |schedule| + 1
  {
    schedule[n].t == t && t in states[n].threads && t in states[n + 1].threads
    && Retries(states[n].threads[t], states[n + 1].threads[t])
  }

  ghost predicate Working(states: seq<State>, t: Tid, m: nat, n: nat)
    requires n < |states|
  {
    m <= n && forall i: nat :: m <= i <= n ==> t in states[i].threads && states[i].threads[t].Worker?
  }

  lemma {:induction false} NeverRunsAgain(states: seq<State>, schedule: seq<Choice>, m: nat, n: nat)
    requires IsRun(states, schedule) && m <= n < |states| && !states[m].sh.running
    ensures !states[n].sh.running
  {
    if m < n {
      NeverRunsAgain(states, schedule, m, n - 1);
      Goes(states, schedule, n - 1);
      var s, c := states[n - 1], schedule[n - 1];
      if c.t in s.threads && states[n].sh.running {
        CoreHere(s.sh, c.t, s.threads[c.t], c.a);
      }
    }
  }

  /** The step from state n brings the worker nearer to its end, or is a failed exchange. */
  ghost predicate NearerAt(states: seq<State>, schedule: seq<Choice>, t: Tid, n: nat)
    requires n < |schedule| && |states| == |schedule| + 1
    requires t in states[n].threads && states[n].threads[t].Worker?
    requires t in states[n + 1].threads && states[n + 1].threads[t].Worker?
  {
    One(schedule[n].t == t) + Ahead(states[n + 1].threads[t].w)
      <= Ahead(states[n].threads[t].w) + 2 * One(RetriesAt(states, schedule, t, n))
  }

  lemma {:induction false} NearerAddsUp(states: seq<State>, schedule: seq<Choice>, t: Tid, m: nat, n: nat)
    requires |states| == |schedule| + 1 && n < |states| && Working(states, t, m, n)
    requires forall i: nat :: m <= i < n ==> NearerAt(states, schedule, t, i)
    ensures Taken(schedule, t, m, n) + Ahead(states[n].threads[t].w)
         <= Ahead(states[m].threads[t].w) + 2 * Retried(states, schedule, t, m, n)
  {
    if m < n {
      NearerAddsUp(states, schedule, t, m, n - 1);
      assert NearerAt(states, schedule, t, n - 1);
    }
  }

  lemma OneStepLess(states: seq<State>, schedule: seq<Choice>, t: Tid, n: nat)
    requires IsRun(states, schedule) && n < |schedule| && Working(states, t, n, n + 1) && !states[n].sh.running
    ensures NearerAt(states, schedule, t, n)
  {
    Goes(states, schedule, n);
    if schedule[n].t == t {
      AheadHere(states[n].sh, t, states[n].threads[t], schedule[n].a);
    } else {
      Stays(states, schedule, n, t);
    }
  }

  /**
    A worker leaves a stopped pool: it takes fewer than 23 more steps of its own, and two for every
    compare-exchange of its own that fails, and then it is gone.
   */
  lemma StopDrivesOut(states: seq<State>, schedule: seq<Choice>, t: Tid, m: nat, n: nat)
    requires IsRun(states, schedule) && n < |states| && Working(states, t, m, n) && !states[m].sh.running
    ensures Taken(schedule, t, m, n) < 23 + 2 * Retried(states, schedule, t, m, n)
  {
    forall i: nat | m <= i < n ensures NearerAt(states, schedule, t, i) {
      NeverRunsAgain(states, schedule, m, i);
      OneStepLess(states, schedule, t, i);
    }
    NearerAddsUp(states, schedule, t, m, n);
  }

  // ---------- an extra worker takes at most a hundred tasks ----------

  /** The step from state n hands thread `t` a task. */
  predicate TakesTask(states: seq<State>, t: Tid, n: nat)
    requires n + 1 < |states|
  {
    t in states[n].threads && t in states[n + 1].threads
    && Carried(states[n].threads[t]).None? && Carried(states[n + 1].threads[t]).Some?
  }

  function TasksTaken(states: seq<State>, t: Tid, m: nat, n: nat): nat
    requires m <= n < |states|
  {
    if m == n then 0 else TasksTaken(states, t, m, n - 1) + One(TakesTask(states, t, n - 1))
  }

  /** Counted down for a task it has not got yet. */
  predicate Owed(pc: WorkerPc) {
    pc.WLock? || pc.WCheck? || pc.WPark? || pc.WAsleep? || pc.WWoken? || pc.WHave? || pc.WPop?
    || (InSpawn(pc) && pc.back.ToPop?)
  }

  predicate IsExtra(th: Thread) { th.Worker? && th.kind.Extra? }

  function Allowed(th: Thread): int
    requires IsExtra(th)
  {
    th.kind.left + One(Owed(th.w))
  }

  lemma AllowedHere(sh: Shared, t: Tid, th: Thread, a: Act)
    requires IsExtra(th) && !Code(sh, t, th, a).Blocked? && Code(sh, t, th, a).next.Some?
    ensures var th' := Code(sh, t, th, a).next.value;
      IsExtra(th') && Allowed(th') + One(Carried(th).None? && Carried(th').Some?) <= Allowed(th)
  {
    var pc := th.w;
    if pc.WLoop? || pc.WExit? {
    } else if InPop(pc) {
    } else if InSpawn(pc) {
    } else {
    }
  }

  lemma {:induction false} AllowanceFalls(states: seq<State>, schedule: seq<Choice>, t: Tid, m: nat, n: nat)
    requires IsRun(states, schedule) && n < |states| && Working(states, t, m, n) && IsExtra(states[m].threads[t])
    ensures IsExtra(states[n].threads[t])
    ensures TasksTaken(states, t, m, n) + Allowed(states[n].threads[t]) <= Allowed(states[m].threads[t])
  {
    if m < n {
      AllowanceFalls(states, schedule, t, m, n - 1);
      AllowanceStep(states, schedule, t, n - 1);
    }
  }

  lemma AllowanceStep(states: seq<State>, schedule: seq<Choice>, t: Tid, n: nat)
    requires IsRun(states, schedule) && n < |schedule| && Working(states, t, n, n + 1) && IsExtra(states[n].threads[t])
    ensures IsExtra(states[n + 1].threads[t])
    ensures One(TakesTask(states, t, n)) + Allowed(states[n + 1].threads[t]) <= Allowed(states[n].threads[t])
  {
    Goes(states, schedule, n);
    if schedule[n].t == t {
      AllowedHere(states[n].sh, t, states[n].threads[t], schedule[n].a);
    } else {
      Stays(states, schedule, n, t);
    }
  }

  lemma NullHere(sh: Shared, t: Tid, th: Thread, a: Act)
    requires th.Worker? && sh.running && sh.queueSize >= 0 && !Code(sh, t, th, a).Blocked?
    requires Code(sh, t, th, a).next.Some?
    ensures !Code(sh, t, th, a).next.value.w.WGiveUp?
  {
    var pc := th.w;
    if pc.WLoop? || pc.WExit? {
    } else if InPop(pc) {
    } else if InSpawn(pc) {
    } else {
    }
  }

  /** A worker gets no task from wait_and_pop_task only in a stopped pool. */
  lemma {:induction false} NullMeansStopped(states: seq<State>, schedule: seq<Choice>, n: nat, t: Tid)
    requires IsRun(states, schedule) && n < |states| && t in states[n].threads && states[n].threads[t].Worker?
    requires states[n].threads[t].w.WGiveUp?
    ensures !states[n].sh.running
  {
    if n > 0 {
      if states[n - 1].sh.running {
        NullStep(states, schedule, n - 1, t);
        NullMeansStopped(states, schedule, n - 1, t);
      }
      NeverRunsAgain(states, schedule, n - 1, n);
    }
  }

  lemma NullStep(states: seq<State>, schedule: seq<Choice>, n: nat, t: Tid)
    requires IsRun(states, schedule) && n < |schedule| && states[n].sh.running && t in states[n + 1].threads
    requires states[n + 1].threads[t].Worker? && states[n + 1].threads[t].w.WGiveUp?
    ensures t in states[n].threads && states[n].threads[t] == states[n + 1].threads[t]
  {
    Goes(states, schedule, n);
    if schedule[n].t != t {
      Stays(states, schedule, n, t);
    } else {
      InvAlways(states, schedule, n);
      RoleStays(states[n].sh, t, states[n].threads[t], schedule[n].a);
      NullHere(states[n].sh, t, states[n].threads[t], schedule[n].a);
    }
  }

  /** While the pool runs an extra worker's tasks, those to come and those taken, are a hundred. */
  predicate Even(th: Thread, taken: nat) {
    IsExtra(th) && !th.w.WGiveUp? && taken + Allowed(th) == 100 && (th.w.WExit? ==> th.kind.left == 0)
  }

  lemma EvenHere(sh: Shared, t: Tid, th: Thread, a: Act, taken: nat)
    requires Even(th, taken) && sh.running && sh.queueSize >= 0 && !Code(sh, t, th, a).Blocked?
    ensures var next := Code(sh, t, th, a).next;
      if next.None? then taken == 100
      else Even(next.value, taken + One(Carried(th).None? && Carried(next.value).Some?))
  {
    if Code(sh, t, th, a).next.Some? {
      NullHere(sh, t, th, a);
    }
    var pc := th.w;
    if pc.WLoop? || pc.WExit? {
    } else if InPop(pc) {
    } else if InSpawn(pc) {
    } else {
    }
  }

  lemma EvenStep(states: seq<State>, schedule: seq<Choice>, t: Tid, n: nat, taken: nat)
    requires IsRun(states, schedule) && n < |schedule| && states[n].sh.running
    requires t in states[n].threads && Even(states[n].threads[t], taken)
    ensures t in states[n + 1].threads ==> Even(states[n + 1].threads[t], taken + One(TakesTask(states, t, n)))
    ensures t !in states[n + 1].threads ==> taken == 100
  {
    Goes(states, schedule, n);
    if schedule[n].t == t {
      InvAlways(states, schedule, n);
      EvenHere(states[n].sh, t, states[n].threads[t], schedule[n].a, taken);
    } else {
      Stays(states, schedule, n, t);
    }
  }

  /** The step from state n keeps the balance, whatever has been taken before. */
  ghost predicate EvenKept(states: seq<State>, t: Tid, n: nat)
    requires n + 1 < |states| && t in states[n].threads && t in states[n + 1].threads
  {
    forall taken: nat :: Even(states[n].threads[t], taken) ==>
      Even(states[n + 1].threads[t], taken + One(TakesTask(states, t, n)))
  }

  lemma {:induction false} EvenAddsUp(states: seq<State>, t: Tid, m: nat, n: nat)
    requires n < |states| && Working(states, t, m, n) && Even(states[m].threads[t], 0)
    requires forall i: nat :: m <= i < n ==> EvenKept(states, t, i)
    ensures Even(states[n].threads[t], TasksTaken(states, t, m, n))
  {
    if m < n {
      EvenAddsUp(states, t, m, n - 1);
      assert EvenKept(states, t, n - 1);
    }
  }

  lemma EvenAlways(states: seq<State>, schedule: seq<Choice>, t: Tid, m: nat, n: nat)
    requires IsRun(states, schedule) && n < |states| && Working(states, t, m, n) && m > 0 && t !in states[m - 1].threads
    requires states[n].sh.running
    ensures Even(states[n].threads[t], TasksTaken(states, t, m, n))
  {
    BornExtra(states, schedule, t, m - 1);
    forall i: nat | m <= i < n ensures EvenKept(states, t, i) {
      RanBefore(states, schedule, i, n);
      forall taken: nat | Even(states[i].threads[t], taken)
        ensures Even(states[i + 1].threads[t], taken + One(TakesTask(states, t, i)))
      {
        EvenStep(states, schedule, t, i, taken);
      }
    }
    EvenAddsUp(states, t, m, n);
  }

  lemma RanBefore(states: seq<State>, schedule: seq<Choice>, m: nat, n: nat)
    requires IsRun(states, schedule) && m <= n < |states| && states[n].sh.running
    ensures states[m].sh.running
  {
    if !states[m].sh.running { NeverRunsAgain(states, schedule, m, n); }
  }

  lemma BornExtra(states: seq<State>, schedule: seq<Choice>, t: Tid, n: nat)
    requires IsRun(states, schedule) && n < |schedule| && t !in states[n].threads
    requires t in states[n + 1].threads && states[n + 1].threads[t].Worker?
    ensures states[n + 1].threads[t] == Worker(Extra(100), WLoop)
  {
    Goes(states, schedule, n);
    if schedule[n].t != t {
      Stays(states, schedule, n, t);
    }
  }

  /**
    A worker that was not there before is an extra one and takes at most 100 tasks.  While the pool runs
    it does not leave before it has taken just as many, and a core worker does not leave at all.
   */
  lemma ExtraTakesHundred(states: seq<State>, schedule: seq<Choice>, t: Tid, m: nat, n: nat)
    requires IsRun(states, schedule) && n < |states| && Working(states, t, m, n) && m > 0 && t !in states[m - 1].threads
    ensures IsExtra(states[m].threads[t]) && TasksTaken(states, t, m, n) <= 100
    ensures n < |schedule| && t !in states[n + 1].threads && states[n].sh.running ==> TasksTaken(states, t, m, n) == 100
  {
    BornExtra(states, schedule, t, m - 1);
    AllowanceFalls(states, schedule, t, m, n);
    if n < |schedule| && states[n].sh.running {
      EvenAlways(states, schedule, t, m, n);
      EvenStep(states, schedule, t, n, TasksTaken(states, t, m, n));
    }
  }

  lemma CoreLeavesStopped(states: seq<State>, schedule: seq<Choice>, n: nat, t: Tid)
    requires IsRun(states, schedule) && n < |schedule| && t in states[n].threads && IsCore(states[n].threads[t])
    requires t !in states[n + 1].threads
    ensures !states[n].sh.running
  {
    Goes(states, schedule, n);
    CoreOut(states, schedule, n, t);
  }

  /** A core worker at its end has seen the pool stopped. */
  lemma {:induction false} CoreOut(states: seq<State>, schedule: seq<Choice>, n: nat, t: Tid)
    requires IsRun(states, schedule) && n < |states| && t in states[n].threads && IsCore(states[n].threads[t])
    requires states[n].threads[t].w.WExit?
    ensures !states[n].sh.running
  {
    if n > 0 {
      CoreWasCore(states, schedule, n - 1, t);
      CoreOutStep(states, schedule, n - 1, t);
      if states[n - 1].threads[t].w.WExit? {
        CoreOut(states, schedule, n - 1, t);
      }
      if !states[n - 1].sh.running { NeverRunsAgain(states, schedule, n - 1, n); }
    }
  }

  lemma CoreOutStep(states: seq<State>, schedule: seq<Choice>, n: nat, t: Tid)
    requires IsRun(states, schedule) && n < |schedule| && t in states[n].threads && IsCore(states[n].threads[t])
    requires t in states[n + 1].threads && IsCore(states[n + 1].threads[t]) && states[n + 1].threads[t].w.WExit?
    ensures states[n].threads[t].w.WExit? || !states[n].sh.running
  {
    Goes(states, schedule, n);
    if schedule[n].t != t {
      Stays(states, schedule, n, t);
    } else {
      ExitHere(states[n].sh, t, states[n].threads[t], schedule[n].a);
    }
  }

  lemma ExitHere(sh: Shared, t: Tid, th: Thread, a: Act)
    requires IsCore(th) && !Code(sh, t, th, a).Blocked?
    requires var next := Code(sh, t, th, a).next; next.Some? && next.value.Worker? && next.value.w.WExit?
    ensures !sh.running
  {
    var pc := th.w;
    if pc.WLoop? || pc.WExit? {
    } else if InPop(pc) {
    } else if InSpawn(pc) {
    } else {
    }
  }

  // ---------- an extra worker is asked for only when the workers are behind ----------

  /** Unlocked nothing since: about to create a worker, or to try to, from inside wait_and_pop_task. */
  predicate AsksInPop(th: Thread) { th.Worker? && InSpawn(th.w) && th.w.back.ToPop? }

  /** Holding task_mutex, the worker saw more tasks queued than there were workers. */
  ghost predicate Behindhand(s: State, t: Tid) { s.sh.taskOwner == Some(t) && |s.sh.queue| > s.sh.total }

  lemma StillWorking(states: seq<State>, t: Tid, m: nat, n: nat)
    requires 0 < n < |states| && Working(states, t, m, n - 1) && t in states[n].threads && states[n].threads[t].Worker?
    ensures Working(states, t, m, n)
  {
  }

  lemma AskHere(sh: Shared, t: Tid, th: Thread, a: Act)
    requires th.Worker? && !Code(sh, t, th, a).Blocked?
    requires Code(sh, t, th, a).next.Some? && AsksInPop(Code(sh, t, th, a).next.value)
    ensures AsksInPop(th) || (HoldsTask(th) && sh.queueSize > sh.total)
  {
    var pc := th.w;
    if pc.WLoop? || pc.WExit? {
    } else if InPop(pc) {
    } else if InSpawn(pc) {
    } else {
    }
  }

  lemma AskStep(states: seq<State>, schedule: seq<Choice>, n: nat, t: Tid)
    requires IsRun(states, schedule) && n < |schedule|
    requires t in states[n + 1].threads && AsksInPop(states[n + 1].threads[t])
    ensures t in states[n].threads && states[n].threads[t].Worker?
    ensures AsksInPop(states[n].threads[t]) || Behindhand(states[n], t)
  {
    Goes(states, schedule, n);
    if schedule[n].t != t {
      Stays(states, schedule, n, t);
    } else {
      InvAlways(states, schedule, n);
      RoleStays(states[n].sh, t, states[n].threads[t], schedule[n].a);
      AskHere(states[n].sh, t, states[n].threads[t], schedule[n].a);
      assert LockedBy(states[n].sh, t, states[n].threads[t]);
    }
  }

  /** wait_and_pop_task asks for an extra worker only behind a queue longer than the number of workers. */
  lemma {:induction false} AskedWhenBehind(states: seq<State>, schedule: seq<Choice>, n: nat, t: Tid)
    requires IsRun(states, schedule) && n < |states| && t in states[n].threads && AsksInPop(states[n].threads[t])
    ensures exists m: nat :: m < n && Working(states, t, m, n) && Behindhand(states[m], t)
  {
    assert n > 0;
    AskStep(states, schedule, n - 1, t);
    if AsksInPop(states[n - 1].threads[t]) {
      AskedWhenBehind(states, schedule, n - 1, t);
      var m: nat :| m < n - 1 && Working(states, t, m, n - 1) && Behindhand(states[m], t);
      StillWorking(states, t, m, n);
    } else {
      StillWorking(states, t, n - 1, n);
    }
  }

  // ---------- a worker broadcasts idle_cond only for the last active task ----------

  predicate Broadcasts(th: Thread) { th.Worker? && (th.w.WIdleLock? || th.w.WIdleSend? || th.w.WIdleUnlock?) }

  /** The step from state n takes active_tasks from one to zero. */
  ghost predicate LastTaskEnds(states: seq<State>, schedule: seq<Choice>, n: nat, t: Tid)
    requires n < |schedule| && |states| == |schedule| + 1
  {
    schedule[n].t == t && states[n].sh.active == 1 && states[n + 1].sh.active == 0
  }

  lemma BroadcastHere(sh: Shared, t: Tid, th: Thread, a: Act)
    requires th.Worker? && !Code(sh, t, th, a).Blocked?
    requires Code(sh, t, th, a).next.Some? && Broadcasts(Code(sh, t, th, a).next.value)
    ensures Broadcasts(th) || (sh.active == 1 && Code(sh, t, th, a).sh.active == 0)
  {
    var pc := th.w;
    if pc.WLoop? || pc.WExit? {
    } else if InPop(pc) {
    } else if InSpawn(pc) {
    } else {
    }
  }

  lemma BroadcastStep(states: seq<State>, schedule: seq<Choice>, n: nat, t: Tid)
    requires IsRun(states, schedule) && n < |schedule|
    requires t in states[n + 1].threads && Broadcasts(states[n + 1].threads[t])
    ensures t in states[n].threads && states[n].threads[t].Worker?
    ensures Broadcasts(states[n].threads[t]) || LastTaskEnds(states, schedule, n, t)
  {
    Goes(states, schedule, n);
    if schedule[n].t != t {
      Stays(states, schedule, n, t);
    } else {
      RoleStays(states[n].sh, t, states[n].threads[t], schedule[n].a);
      BroadcastHere(states[n].sh, t, states[n].threads[t], schedule[n].a);
    }
  }

  /** A worker goes to broadcast idle_cond only when it has itself taken active_tasks from one to zero. */
  lemma {:induction false} BroadcastForLast(states: seq<State>, schedule: seq<Choice>, n: nat, t: Tid)
    requires IsRun(states, schedule) && n < |states| && t in states[n].threads && Broadcasts(states[n].threads[t])
    ensures exists m: nat :: m < n && Working(states, t, m, n) && LastTaskEnds(states, schedule, m, t)
  {
    assert n > 0;
    BroadcastStep(states, schedule, n - 1, t);
    if Broadcasts(states[n - 1].threads[t]) {
      BroadcastForLast(states, schedule, n - 1, t);
      var m: nat :| m < n - 1 && Working(states, t, m, n - 1) && LastTaskEnds(states, schedule, m, t);
      StillWorking(states, t, m, n);
    } else {
      StillWorking(states, t, n - 1, n);
    }
  }
}
