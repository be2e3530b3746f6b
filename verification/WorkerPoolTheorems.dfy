/** What holds in every state of every interleaving of the worker pool. */
module WorkerPoolTheorems {
  import opened Common
  import opened WorkerPool
  import opened WorkerPoolInvariants
  import opened WorkerPoolIdle

  ghost predicate Inv(s: State) {
    Locking(s) && Counting(s) && Waking(s) && Announced(s) && Accounted(LedgerOf(s)) && Truthful(s)
  }

  lemma InvInitially(s: State)
    requires Initial(s)
    ensures Inv(s) && Flagged(LedgerOf(s)) && MarksInTime(s)
  {
    CountNone(s.threads, IsCounted);
    CountNone(s.threads, IsCreating);
    CountNone(s.threads, SleepsOnTask);
    assert Those(s.threads, IsWorker) == s.threads.Keys;
    assert LedgerOf(s) == Ledger([], 0, {}, {}, map[], map[]);
  }

  lemma InvAfterMove(s: State, t: Tid, a: Act)
    requires Inv(s) && t in s.threads && Step(s, t, a).Some?
    ensures Inv(Step(s, t, a).value)
  {
    var s', th, o := Step(s, t, a).value, s.threads[t], Code(s.sh, t, s.threads[t], a);
    StepMoves(s, t, a);
    LockingHere(s.sh, t, th, a);
    LockingMove(s, s', t, o);
    CountingHere(s.sh, t, th, a);
    CountingMove(s, s', t, o);
    WakingHere(s.sh, t, th, a);
    WakingMove(s, s', t, o);
    AnnouncedHere(s.sh, t, th, a);
    AnnouncedMove(s, s', t, o);
    TaskHere(s.sh, t, th, a);
    LedgerMoves(s, s', t, o);
    AccountedKept(LedgerOf(s), t, TransferOf(s.sh, th));
    TruthfulHere(s.sh, t, th, a);
    TruthfulMove(s, s', t, o);
  }

  predicate Enters(s: State, s': State, t: Tid, th: Thread) {
    t !in s.threads && IsEntry(th) && !s.sh.closed && s' == State(s.sh, s.threads[t := th])
  }

  lemma CountersAfterEntry(s: State, s': State, t: Tid, th: Thread)
    requires Enters(s, s', t, th) && Counting(s) && Waking(s)
    ensures Counting(s') && Waking(s')
  {
    CountSet(s.threads, t, th, IsCounted);
    CountSet(s.threads, t, th, IsWorker);
    CountSet(s.threads, t, th, IsCreating);
    CountSet(s.threads, t, th, SleepsOnTask);
    CountSet(s.threads, t, th, IsSeeking);
    CountSet(s.threads, t, th, IsSignalling);
  }

  lemma AnswersAfterEntry(s: State, s': State, t: Tid, th: Thread)
    requires Enters(s, s', t, th) && Announced(s) && Truthful(s)
    ensures Announced(s') && Truthful(s')
  {
    if Quiet(s') && exists u :: u in s'.threads && IsStale(s'.threads[u]) {
      assert forall u :: u in s.threads ==> s'.threads[u] == s.threads[u];
      assert Quiet(s);
      var u :| u in s'.threads && IsStale(s'.threads[u]);
      assert u in s.threads;
      var w :| w in s.threads && IsAnnouncing(s.threads[w]);
      assert IsAnnouncing(s'.threads[w]);
    }
    forall u | u in s'.threads && Sure(s'.threads[u]).Some? ensures Clear(s', Sure(s'.threads[u]).value) {
      assert Clear(s, Sure(s.threads[u]).value);
    }
  }

  lemma LedgerAfterEntry(s: State, s': State, t: Tid, th: Thread)
    requires Enters(s, s', t, th)
    ensures LedgerOf(s') == LedgerOf(s)
  {
    assert LedgerOf(s').carried == LedgerOf(s).carried;
    assert LedgerOf(s').marked == LedgerOf(s).marked;
  }

  lemma LockingAfterEntry(s: State, s': State, t: Tid, th: Thread)
    requires Enters(s, s', t, th) && Locking(s)
    ensures Locking(s')
  {
    forall u | u in s'.threads ensures LockedBy(s'.sh, u, s'.threads[u]) && !IsDiscarding(s'.threads[u]) {
      if u in s.threads {
        assert LockedBy(s.sh, u, s.threads[u]);
      }
    }
  }

  lemma InvAfterEntry(s: State, t: Tid, a: Act)
    requires Inv(s) && t !in s.threads && Step(s, t, a).Some?
    ensures Inv(Step(s, t, a).value)
  {
    var s' := Step(s, t, a).value;
    LockingAfterEntry(s, s', t, a.thread);
    CountersAfterEntry(s, s', t, a.thread);
    AnswersAfterEntry(s, s', t, a.thread);
    LedgerAfterEntry(s, s', t, a.thread);
  }

  lemma InvStep(s: State, t: Tid, a: Act)
    requires Inv(s) && Step(s, t, a).Some?
    ensures Inv(Step(s, t, a).value)
  {
    if t in s.threads {
      InvAfterMove(s, t, a);
    } else {
      InvAfterEntry(s, t, a);
    }
  }

  lemma {:induction false} InvAlways(states: seq<State>, schedule: seq<Choice>, n: nat)
    requires IsRun(states, schedule) && n < |states|
    ensures Inv(states[n])
  {
    if n == 0 {
      InvInitially(states[0]);
    } else {
      InvAlways(states, schedule, n - 1);
      assert Step(states[n - 1], schedule[n - 1].t, schedule[n - 1].a) == Some(states[n]);
      InvStep(states[n - 1], schedule[n - 1].t, schedule[n - 1].a);
    }
  }

  // ---------- the theorems ----------

  /**
    No lost wakeup.  In every reachable state, if some worker sleeps on task_cond then the queue
    is no longer than the number of workers awake inside wait_and_pop_task plus the one insertion
    that may be about to signal; so a queued task never meets a pool whose workers all sleep.
   */
  lemma NoLostWakeup(states: seq<State>, schedule: seq<Choice>, n: nat)
    requires IsRun(states, schedule) && n < |states|
    ensures var s := states[n];
      && ((exists t :: t in s.threads && SleepsOnTask(s.threads[t])) ==>
            |s.sh.queue| <= Count(s.threads, IsSeeking) + Count(s.threads, IsSignalling))
      && Count(s.threads, IsSignalling) <= 1
      && (s.sh.taskOwner.None? && s.sh.queue != [] && (exists t :: t in s.threads && SleepsOnTask(s.threads[t])) ==>
            exists t :: t in s.threads && IsSeeking(s.threads[t]))
  {
    InvAlways(states, schedule, n);
    var s := states[n];
    CountNone(s.threads, SleepsOnTask);
    CountNone(s.threads, IsSeeking);
    CountNone(s.threads, IsSignalling);
    forall t | t in s.threads && IsSignalling(s.threads[t]) ensures s.sh.taskOwner == Some(t) {
      assert LockedBy(s.sh, t, s.threads[t]);
    }
    if t :| t in s.threads && IsSignalling(s.threads[t]) {
      CountAtMostOne(s.threads, IsSignalling, t);
    }
  }

  /** Once a stop or destroy has broadcast task_cond, no worker sleeps there, now or later. */
  lemma NoSleepAfterStop(states: seq<State>, schedule: seq<Choice>, n: nat, m: nat)
    requires IsRun(states, schedule) && n <= m < |states| && states[n].sh.stopSent
    ensures forall t :: t in states[m].threads ==> !SleepsOnTask(states[m].threads[t])
    ensures !states[m].sh.running
  {
    StopSentStays(states, schedule, n, m);
    InvAlways(states, schedule, m);
    forall t | t in states[m].threads ensures !SleepsOnTask(states[m].threads[t]) {
      assert Poised(states[m].sh, states[m].threads[t]);
    }
  }

  lemma {:induction false} StopSentStays(states: seq<State>, schedule: seq<Choice>, n: nat, m: nat)
    requires IsRun(states, schedule) && n <= m < |states| && states[n].sh.stopSent
    ensures states[m].sh.stopSent
  {
    if n < m {
      StopSentStays(states, schedule, n, m - 1);
      var s, c := states[m - 1], schedule[m - 1];
      assert Step(s, c.t, c.a) == Some(states[m]);
      if c.t in s.threads {
        StopSentHere(s.sh, c.t, s.threads[c.t], c.a);
      }
    }
  }

  lemma StopSentHere(sh: Shared, t: Tid, th: Thread, a: Act)
    requires sh.stopSent && !Code(sh, t, th, a).Blocked?
    ensures Code(sh, t, th, a).sh.stopSent
  {
    match th
    case Worker(_, _) =>
    case Inserter(_) =>
    case Waiter(_, _) =>
    case Stopper(_, _, _) =>
  }

  /**
    No lost idle broadcast.  In every reachable state, if the pool is idle and a thread sleeps in
    wait_for_idle, or holds a stale answer that will send it to sleep, then some thread is between
    making the pool idle and its broadcast on idle_cond.
   */
  lemma NoLostIdle(states: seq<State>, schedule: seq<Choice>, n: nat, waiter: Tid)
    requires IsRun(states, schedule) && n < |states|
    requires Quiet(states[n]) && waiter in states[n].threads && IsStale(states[n].threads[waiter])
    ensures exists t :: t in states[n].threads && IsAnnouncing(states[n].threads[t])
  {
    InvAlways(states, schedule, n);
  }

  /** When is_idle has answered true, every task inserted before its queue test has been finalized or discarded. */
  lemma IdleMeansSettled(states: seq<State>, schedule: seq<Choice>, n: nat, t: Tid, id: nat)
    requires IsRun(states, schedule) && n < |states|
    requires t in states[n].threads && states[n].threads[t].Waiter? && states[n].threads[t].v.VDone?
    requires id < states[n].threads[t].v.cut
    ensures id in states[n].sh.settled
  {
    InvAlways(states, schedule, n);
  }

  /** A task that a step settles was queued or in one worker's hands before, and is neither after. */
  lemma SettledOnce(states: seq<State>, schedule: seq<Choice>, n: nat, id: nat)
    requires IsRun(states, schedule) && n + 1 < |states|
    requires id in states[n + 1].sh.settled && id !in states[n].sh.settled
    ensures Queued(states[n].sh.queue, id) || Held(LedgerOf(states[n]).carried, id)
    ensures !Queued(states[n + 1].sh.queue, id) && !Held(LedgerOf(states[n + 1]).carried, id)
  {
    InvAlways(states, schedule, n);
    InvAlways(states, schedule, n + 1);
    var s, c := states[n], schedule[n];
    assert Step(s, c.t, c.a) == Some(states[n + 1]);
    assert c.t in s.threads;
    TaskHere(s.sh, c.t, s.threads[c.t], c.a);
    assert id < states[n + 1].sh.nextId;
  }

  /** The task that a step of thread `t` finalizes or discards. */
  function Settles(s: State, t: Tid): Option<Task> {
    if t !in s.threads then None
    else match TransferOf(s.sh, s.threads[t])
      case Finalize => Carried(s.threads[t])
      case Drop => Some(s.sh.queue[0])
      case _ => None
  }

  /** Whoever finalizes or discards a task is the first to do so, and thereby settles it. */
  lemma SettledFirst(states: seq<State>, schedule: seq<Choice>, n: nat)
    requires IsRun(states, schedule) && n < |schedule| && Settles(states[n], schedule[n].t).Some?
    ensures var id := Settles(states[n], schedule[n].t).value.id;
      id !in states[n].sh.settled && states[n + 1].sh.settled == states[n].sh.settled + {id}
  {
    InvAlways(states, schedule, n);
    var s, c := states[n], schedule[n];
    assert Step(s, c.t, c.a) == Some(states[n + 1]);
    TaskHere(s.sh, c.t, s.threads[c.t], c.a);
    var l, task := LedgerOf(s), Carried(s.threads[c.t]);
    assert TransferOf(s.sh, s.threads[c.t]).Finalize? ==> c.t in l.carried && l.carried[c.t] == task.value;
  }

  lemma {:induction false} SettledStays(states: seq<State>, schedule: seq<Choice>, n: nat, m: nat, id: nat)
    requires IsRun(states, schedule) && n <= m < |states| && id in states[n].sh.settled
    ensures id in states[m].sh.settled
  {
    if n < m {
      SettledStays(states, schedule, n, m - 1, id);
      var s, c := states[m - 1], schedule[m - 1];
      assert Step(s, c.t, c.a) == Some(states[m]);
      if c.t in s.threads {
        TaskHere(s.sh, c.t, s.threads[c.t], c.a);
      }
    }
  }

  /** A settled task stays settled, is never queued or held again, and no later step settles it again. */
  lemma SettledForGood(states: seq<State>, schedule: seq<Choice>, n: nat, m: nat, id: nat)
    requires IsRun(states, schedule) && n <= m < |states| && id in states[n].sh.settled
    ensures id in states[m].sh.settled && !Queued(states[m].sh.queue, id) && !Held(LedgerOf(states[m]).carried, id)
    ensures m < |schedule| && Settles(states[m], schedule[m].t).Some? ==>
          Settles(states[m], schedule[m].t).value.id != id
  {
    SettledStays(states, schedule, n, m, id);
    InvAlways(states, schedule, m);
    if m < |schedule| && Settles(states[m], schedule[m].t).Some? {
      SettledFirst(states, schedule, m);
    }
  }

  /** Once destroy has emptied the queue of the pool it has outlived, every task ever inserted is settled. */
  lemma DestroyedMeansSettled(states: seq<State>, schedule: seq<Choice>, n: nat)
    requires IsRun(states, schedule) && n < |states| && states[n].sh.closed && states[n].sh.queue == []
    ensures forall id: nat :: id < states[n].sh.nextId <==> id in states[n].sh.settled
  {
    InvAlways(states, schedule, n);
    var s := states[n];
    assert forall t :: t in s.threads ==> Carried(s.threads[t]).None?;
  }

  /** total_workers counts the live workers and those being created, and never exceeds its limit. */
  lemma WorkersCounted(states: seq<State>, schedule: seq<Choice>, n: nat)
    requires IsRun(states, schedule) && n < |states|
    ensures var s := states[n];
      && Count(s.threads, IsWorker) + Count(s.threads, IsCreating) == s.sh.total <= s.sh.cap
      && s.sh.cap == 8 * |states[0].threads|
  {
    InvAlways(states, schedule, n);
    CapStays(states, schedule, n);
  }

  /** When destroy's poll ends, total_workers is zero and no worker, core or extra, is left. */
  lemma PollEndsAlone(states: seq<State>, schedule: seq<Choice>, n: nat)
    requires IsRun(states, schedule) && n < |states| && states[n].sh.total <= 0
    ensures forall t :: t in states[n].threads ==> !IsWorker(states[n].threads[t]) && !IsCreating(states[n].threads[t])
  {
    WorkersCounted(states, schedule, n);
    CountNone(states[n].threads, IsWorker);
    CountNone(states[n].threads, IsCreating);
  }

  lemma {:induction false} CapStays(states: seq<State>, schedule: seq<Choice>, n: nat)
    requires IsRun(states, schedule) && n < |states|
    ensures states[n].sh.cap == states[0].sh.cap
  {
    if n > 0 {
      CapStays(states, schedule, n - 1);
      var s, c := states[n - 1], schedule[n - 1];
      assert Step(s, c.t, c.a) == Some(states[n]);
      if c.t in s.threads {
        CapHere(s.sh, c.t, s.threads[c.t], c.a);
      }
    }
  }

  lemma CapHere(sh: Shared, t: Tid, th: Thread, a: Act)
    requires !Code(sh, t, th, a).Blocked?
    ensures Code(sh, t, th, a).sh.cap == sh.cap
  {
    match th
    case Worker(_, _) =>
    case Inserter(_) =>
    case Waiter(_, _) =>
    case Stopper(_, _, _) =>
  }

  // ---------- one outstanding task per event ----------

  /** No inserter sets a flag late in the first n steps of a run. */
  ghost predicate NoneLate(states: seq<State>, schedule: seq<Choice>, n: nat)
    requires |states| == |schedule| + 1 && n < |states|
  {
    forall k: nat :: k < n ==> !MarksLate(states[k], schedule[k].t)
  }

  lemma {:induction false} FlaggedAlways(states: seq<State>, schedule: seq<Choice>, n: nat)
    requires IsRun(states, schedule) && n < |states| && NoneLate(states, schedule, n)
    ensures Flagged(LedgerOf(states[n]))
  {
    if n == 0 {
      InvInitially(states[0]);
    } else {
      var s, s', c := states[n - 1], states[n], schedule[n - 1];
      FlaggedAlways(states, schedule, n - 1);
      assert Step(s, c.t, c.a) == Some(s');
      if c.t in s.threads {
        ExclusiveStep(s, s', c.t, c.a);
      } else {
        LedgerAfterEntry(s, s', c.t, c.a.thread);
      }
    }
  }

  /**
    Over any interleaving, with any number of inserters, no event ever has two tasks if and only if
    no inserter ever sets a flag that it finds set already.
   */
  lemma {:induction false} OneTaskIffNoneLate(states: seq<State>, schedule: seq<Choice>, n: nat)
    requires IsRun(states, schedule) && n < |states|
    ensures (forall k: nat :: k <= n ==> Exclusive(LedgerOf(states[k]))) <==> NoneLate(states, schedule, n)
  {
    if NoneLate(states, schedule, n) {
      forall k: nat | k <= n ensures Exclusive(LedgerOf(states[k])) {
        FlaggedAlways(states, schedule, k);
      }
    } else if n > 0 {
      OneTaskIffNoneLate(states, schedule, n - 1);
      if NoneLate(states, schedule, n - 1) {
        var s, c := states[n - 1], schedule[n - 1];
        FlaggedAlways(states, schedule, n - 1);
        assert Step(s, c.t, c.a) == Some(states[n]);
        ExclusiveStep(s, states[n], c.t, c.a);
      }
    }
  }

  /** With at most one inserter per event at a time nobody sets a flag late, however many insert. */
  lemma {:induction false} OnePerEventNoneLate(states: seq<State>, schedule: seq<Choice>, n: nat)
    requires IsRun(states, schedule) && n < |states|
    requires forall m: nat :: m < n ==> OnePerEvent(states[m])
    ensures NoneLate(states, schedule, n) && MarksInTime(states[n])
  {
    if n == 0 {
      InvInitially(states[0]);
    } else {
      var s, s', c := states[n - 1], states[n], schedule[n - 1];
      OnePerEventNoneLate(states, schedule, n - 1);
      assert Step(s, c.t, c.a) == Some(s');
      if c.t in s.threads {
        MarksInTimeMove(s, s', c.t, c.a);
        assert MarksLate(s, c.t) ==> Marking(s.threads[c.t], TransferOf(s.sh, s.threads[c.t]).ev);
      }
    }
  }

  /** The workers that hold a task of event `ev`, the running callbacks among them. */
  predicate WorksOn(s: State, t: Tid, ev: EventId) {
    t in s.threads && Carried(s.threads[t]).Some? && Carried(s.threads[t]).value.ev == ev
  }

  /**
    As long as no inserter has set a flag late, an event's flag is set exactly while a task of it is
    being linked, queued or worked on; no event is queued twice, queued and worked on, or worked on by
    two workers.
   */
  lemma OneOutstandingTask(states: seq<State>, schedule: seq<Choice>, n: nat, ev: EventId)
    requires IsRun(states, schedule) && n < |states| && NoneLate(states, schedule, n)
    ensures var s, q := states[n], states[n].sh.queue;
      && (ev in s.sh.flags <==> Outstanding(LedgerOf(s), ev))
      && (forall t, u :: WorksOn(s, t, ev) && WorksOn(s, u, ev) ==> t == u)
      && (forall i, j :: 0 <= i < j < |q| ==> !(q[i].ev == ev == q[j].ev))
      && (forall t, i :: WorksOn(s, t, ev) && 0 <= i < |q| ==> q[i].ev != ev)
  {
    FlaggedAlways(states, schedule, n);
    var s := states[n];
    var l := LedgerOf(s);
    forall t, u | WorksOn(s, t, ev) && WorksOn(s, u, ev) ensures t == u {
      assert l.carried[t].ev == l.carried[u].ev;
    }
    forall t, i | WorksOn(s, t, ev) && 0 <= i < |s.sh.queue| ensures s.sh.queue[i].ev != ev {
      assert l.carried[t].ev == ev;
    }
  }

  const OneWorker :=
    State(Shared(true, 0, [], 0, 1, 8, None, None, {}, 0, {}, false, false), map[0 := Worker(Core, WLoop)])

  /** Two inserters of event 7 have come. */
  lemma BothEntered() returns (s: State, states: seq<State>, schedule: seq<Choice>)
    ensures IsRun(states, schedule) && states[|states| - 1] == s
    ensures s == State(OneWorker.sh, map[0 := Worker(Core, WLoop), 1 := Inserter(IRead(7)), 2 := Inserter(IRead(7))])
  {
    assert OneWorker.threads.Keys == {0};
    var enter := Call(Inserter(IRead(7)));
    var s1 := Step(OneWorker, 1, enter).value;
    s := Step(s1, 2, enter).value;
    states := [OneWorker, s1, s];
    schedule := [Choice(1, enter), Choice(2, enter)];
  }

  /** Both have found its flag clear. */
  lemma BothRead() returns (s: State, states: seq<State>, schedule: seq<Choice>)
    ensures IsRun(states, schedule) && states[|states| - 1] == s
    ensures s == State(OneWorker.sh, map[0 := Worker(Core, WLoop), 1 := Inserter(IMark(7)), 2 := Inserter(IMark(7))])
  {
    var s0, prefix, before := BothEntered();
    var s1 := Step(s0, 1, Go).value;
    s := Step(s1, 2, Go).value;
    states := prefix + [s1, s];
    schedule := before + [Choice(1, Go), Choice(2, Go)];
  }

  /** Both have gone on to set it. */
  lemma BothReadClear() returns (s: State, states: seq<State>, schedule: seq<Choice>)
    ensures IsRun(states, schedule) && states[|states| - 1] == s
    ensures s.threads == map[0 := Worker(Core, WLoop), 1 := Inserter(ILock(7)), 2 := Inserter(ILock(7))]
    ensures s.sh == OneWorker.sh.(flags := {7})
  {
    var s0, prefix, before := BothRead();
    var s1 := Step(s0, 1, Go).value;
    s := Step(s1, 2, Go).value;
    states := prefix + [s1, s];
    schedule := before + [Choice(1, Go), Choice(2, Go)];
  }

  /** The first of the two has linked its task. */
  lemma FirstLinked() returns (s: State, states: seq<State>, schedule: seq<Choice>)
    ensures IsRun(states, schedule) && states[|states| - 1] == s
    ensures s.threads == map[0 := Worker(Core, WLoop), 1 := Inserter(ISignal), 2 := Inserter(ILock(7))]
    ensures s.sh.queue == [Task(0, 7)] && s.sh.taskOwner == Some(1)
  {
    var s0, prefix, before := BothReadClear();
    var s1 := Step(s0, 1, Go).value;
    s := Step(s1, 1, Go).value;
    states := prefix + [s1, s];
    schedule := before + [Choice(1, Go), Choice(1, Go)];
  }

  /** It has signalled and gone. */
  lemma FirstQueued() returns (s: State, states: seq<State>, schedule: seq<Choice>)
    ensures IsRun(states, schedule) && states[|states| - 1] == s
    ensures s.threads == map[0 := Worker(Core, WLoop), 2 := Inserter(ILock(7))]
    ensures s.sh.queue == [Task(0, 7)] && s.sh.taskOwner.None?
  {
    var s0, prefix, before := FirstLinked();
    var s1 := Step(s0, 1, Go).value;
    s := Step(s1, 1, Go).value;
    states := prefix + [s1, s];
    schedule := before + [Choice(1, Go), Choice(1, Go)];
  }

  /** It can happen: two inserters of one event read the flag before either sets it. */
  lemma TwoInsertersRace() returns (states: seq<State>, schedule: seq<Choice>)
    ensures IsRun(states, schedule)
    ensures var q := states[|states| - 1].sh.queue; |q| == 2 && q[0].ev == q[1].ev
  {
    var s, prefix, before := FirstQueued();
    var s1 := Step(s, 2, Go).value;
    var s2 := Step(s1, 2, Go).value;
    states := prefix + [s1, s2];
    schedule := before + [Choice(2, Go), Choice(2, Go)];
  }

  // ---------- no deadlock ----------

  /** Waiting on a condition variable, or in destroy waiting for the other threads to be gone. */
  predicate IsWaiting(th: Thread) {
    SleepsOnTask(th) || SleepsOnIdle(th) || (th.Stopper? && (th.p.SJoin? || th.p.SPoll?))
  }

  predicate WantsTask(th: Thread) {
    match th
    case Worker(_, pc) => pc.WLock? || pc.WWoken?
    case Inserter(pc) => pc.ILock?
    case Waiter(_, pc) => pc.VTaskLock?
    case Stopper(_, _, pc) => pc.STaskLock? || pc.SDrainLock?
  }

  predicate WantsIdle(th: Thread) {
    match th
    case Worker(_, pc) => pc.WIdleLock?
    case Inserter(_) => false
    case Waiter(_, pc) => pc.VIdleLock? || pc.VWoken?
    case Stopper(_, _, pc) => pc.SIdleLock? || pc.SFinalLock?
  }

  ghost predicate CanStep(s: State, t: Tid) { exists a :: Step(s, t, a).Some? }

  /** A thread that neither waits nor wants a mutex somebody owns can take a step. */
  lemma FreeToStep(s: State, t: Tid)
    requires Inv(s) && t in s.threads && !IsWaiting(s.threads[t])
    requires (WantsTask(s.threads[t]) ==> s.sh.taskOwner.None?) && (WantsIdle(s.threads[t]) ==> s.sh.idleOwner.None?)
    ensures CanStep(s, t)
  {
    var th := s.threads[t];
    assert Poised(s.sh, th) && LockedBy(s.sh, t, th);
    match th
    case Worker(_, pc) => WorkerFree(s, t);
    case Inserter(pc) => InserterFree(s, t);
    case Waiter(_, _) => assert Step(s, t, Go).Some?;
    case Stopper(_, _, _) => StopperFree(s, t);
  }

  lemma InserterFree(s: State, t: Tid)
    requires t in s.threads && s.threads[t].Inserter? && (WantsTask(s.threads[t]) ==> s.sh.taskOwner.None?)
    ensures CanStep(s, t)
  {
    var pc := s.threads[t].i;
    if u :| u in s.threads && SleepsOnTask(s.threads[u]) {
      assert Step(s, t, if pc.ISignal? then Wake(u) else Go).Some?;
    } else {
      assert Step(s, t, Go).Some?;
    }
  }

  lemma StopperFree(s: State, t: Tid)
    requires t in s.threads && s.threads[t].Stopper? && !IsWaiting(s.threads[t])
    requires (WantsTask(s.threads[t]) ==> s.sh.taskOwner.None?) && (WantsIdle(s.threads[t]) ==> s.sh.idleOwner.None?)
    ensures CanStep(s, t)
  {
    assert Step(s, t, Go).Some?;
  }

  lemma WorkerFree(s: State, t: Tid)
    requires t in s.threads && s.threads[t].Worker? && Poised(s.sh, s.threads[t]) && !IsWaiting(s.threads[t])
    requires (WantsTask(s.threads[t]) ==> s.sh.taskOwner.None?) && (WantsIdle(s.threads[t]) ==> s.sh.idleOwner.None?)
    ensures CanStep(s, t)
  {
    assert Step(s, t, if s.threads[t].w.WSpawnCreate? then Other else Go).Some?;
  }

  /** Follows the ownership of the mutexes from a thread to one that is free to step. */
  lemma FindFree(s: State, t: Tid) returns (u: Tid)
    requires Locking(s) && t in s.threads && !IsWaiting(s.threads[t])
    ensures u in s.threads && !IsWaiting(s.threads[u])
    ensures (WantsTask(s.threads[u]) ==> s.sh.taskOwner.None?) && (WantsIdle(s.threads[u]) ==> s.sh.idleOwner.None?)
  {
    u := t;
    if WantsIdle(s.threads[u]) && s.sh.idleOwner.Some? {
      u := s.sh.idleOwner.value;
      assert LockedBy(s.sh, u, s.threads[u]);
    }
    if WantsTask(s.threads[u]) && s.sh.taskOwner.Some? {
      u := s.sh.taskOwner.value;
      assert LockedBy(s.sh, u, s.threads[u]);
    }
  }

  /**
    No deadlock: in every reachable state in which some thread is neither asleep nor waiting in
    destroy, some such thread can take a step.  Only wait_for_idle nests the mutexes, and always
    task_mutex inside idle_mutex.
   */
  lemma NoDeadlock(states: seq<State>, schedule: seq<Choice>, n: nat, t: Tid)
    requires IsRun(states, schedule) && n < |states|
    requires t in states[n].threads && !IsWaiting(states[n].threads[t])
    ensures exists u :: u in states[n].threads && !IsWaiting(states[n].threads[u]) && CanStep(states[n], u)
  {
    InvAlways(states, schedule, n);
    var u := FindFree(states[n], t);
    FreeToStep(states[n], u);
  }

  // ---------- when everybody waits ----------

  ghost predicate AllWait(s: State) { forall t :: t in s.threads ==> IsWaiting(s.threads[t]) }

  ghost predicate SomeWaiterSleeps(s: State) { exists t :: t in s.threads && SleepsOnIdle(s.threads[t]) }

  /** If everybody waits and somebody sleeps in wait_for_idle, tasks are queued and no worker is left to take them. */
  lemma AllWaitMeansNoWorker(states: seq<State>, schedule: seq<Choice>, n: nat)
    requires IsRun(states, schedule) && n < |states| && AllWait(states[n]) && SomeWaiterSleeps(states[n])
    ensures states[n].sh.queue != [] && forall t :: t in states[n].threads ==> !states[n].threads[t].Worker?
  {
    InvAlways(states, schedule, n);
    NoLostWakeup(states, schedule, n);
    QueuedIfAllWait(states[n]);
    NobodySeeks(states[n]);
  }

  lemma NobodySeeks(s: State)
    requires AllWait(s)
    ensures Count(s.threads, IsSeeking) == 0 && Count(s.threads, IsSignalling) == 0
    ensures forall t :: t in s.threads && s.threads[t].Worker? ==> SleepsOnTask(s.threads[t])
  {
    assert forall t :: t in s.threads ==> !IsSeeking(s.threads[t]) && !IsSignalling(s.threads[t]);
    CountNone(s.threads, IsSeeking);
    CountNone(s.threads, IsSignalling);
  }

  lemma QueuedIfAllWait(s: State)
    requires Inv(s) && AllWait(s) && SomeWaiterSleeps(s)
    ensures s.sh.queue != []
  {
    CountNone(s.threads, IsCounted);
    var t :| t in s.threads && SleepsOnIdle(s.threads[t]);
    assert IsStale(s.threads[t]) by { assert Poised(s.sh, s.threads[t]) && LockedBy(s.sh, t, s.threads[t]); }
    assert forall u :: u in s.threads ==> !HasPopped(s.threads[u]) && !IsAnnouncing(s.threads[u]);
  }

  /** A core worker that has not left its loop. */
  predicate IsCoreInLoop(th: Thread) { th.Worker? && th.kind.Core? && !th.w.WExit? }

  ghost predicate CoreLives(s: State) {
    s.sh.running ==> exists t :: t in s.threads && IsCoreInLoop(s.threads[t])
  }

  lemma CoreStays(s: State, s': State, t: Tid, a: Act)
    requires CoreLives(s) && Step(s, t, a) == Some(s')
    ensures CoreLives(s')
  {
    if s'.sh.running {
      if t in s.threads {
        CoreHere(s.sh, t, s.threads[t], a);
        StepMoves(s, t, a);
      }
      var u :| u in s.threads && IsCoreInLoop(s.threads[u]);
      assert u in s'.threads && IsCoreInLoop(s'.threads[u]);
    }
  }

  /** A core worker leaves its loop only after a stop, and nothing sets `running` again. */
  lemma CoreHere(sh: Shared, t: Tid, th: Thread, a: Act)
    requires !Code(sh, t, th, a).Blocked? && Code(sh, t, th, a).sh.running
    ensures sh.running
    ensures IsCoreInLoop(th) ==> Code(sh, t, th, a).next.Some? && IsCoreInLoop(Code(sh, t, th, a).next.value)
  {
    match th
    case Worker(_, _) =>
    case Inserter(_) =>
    case Waiter(_, _) =>
    case Stopper(_, _, _) =>
  }

  lemma {:induction false} CoreLivesAlways(states: seq<State>, schedule: seq<Choice>, n: nat)
    requires IsRun(states, schedule) && n < |states|
    ensures CoreLives(states[n])
  {
    if n == 0 {
      var t :| t in states[0].threads;
      assert IsCoreInLoop(states[0].threads[t]);
    } else {
      CoreLivesAlways(states, schedule, n - 1);
      assert Step(states[n - 1], schedule[n - 1].t, schedule[n - 1].a) == Some(states[n]);
      CoreStays(states[n - 1], states[n], schedule[n - 1].t, schedule[n - 1].a);
    }
  }

  /**
    In a pool that runs, a sleeper in wait_for_idle is never left alone: some thread that does not wait
    can take a step.
   */
  lemma NoStall(states: seq<State>, schedule: seq<Choice>, n: nat)
    requires IsRun(states, schedule) && n < |states| && states[n].sh.running && SomeWaiterSleeps(states[n])
    ensures exists u :: u in states[n].threads && !IsWaiting(states[n].threads[u]) && CanStep(states[n], u)
  {
    var s := states[n];
    CoreLivesAlways(states, schedule, n);
    SomebodyAwake(states, schedule, n);
    var t :| t in s.threads && !IsWaiting(s.threads[t]);
    NoDeadlock(states, schedule, n, t);
  }

  lemma SomebodyAwake(states: seq<State>, schedule: seq<Choice>, n: nat)
    requires IsRun(states, schedule) && n < |states| && states[n].sh.running && SomeWaiterSleeps(states[n])
    ensures !AllWait(states[n])
  {
    CoreLivesAlways(states, schedule, n);
    if AllWait(states[n]) {
      AllWaitMeansNoWorker(states, schedule, n);
    }
  }
}
