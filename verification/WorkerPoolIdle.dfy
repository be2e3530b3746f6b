/**
  Idle detection in the worker pool: no waiter misses the moment the pool becomes idle, and
  every inserted task is accounted for, so that the answer "idle" means what it says.
 */
module WorkerPoolIdle {
  import opened Common
  import opened WorkerPool
  import opened WorkerPoolInvariants

  // ---------- part 4: no lost idle broadcast ----------

  predicate HasPopped(th: Thread) { th.Worker? && th.w.WCount? }

  /** The pool has nothing queued and nothing popped and not yet dropped from active_tasks. */
  ghost predicate Quiet(s: State) {
    s.sh.queue == [] && s.sh.active == 0 && forall t :: t in s.threads ==> !HasPopped(s.threads[t])
  }

  /** Asleep in wait_for_idle, or bound to go to sleep on an answer already computed. */
  predicate IsStale(th: Thread) {
    th.Waiter? && th.blocking &&
    match th.v
    case VAsleep => true
    case VPark => true
    case VTaskUnlock(empty, _) => !empty
    case VReadActive(empty, _) => !empty
    case _ => false
  }

  /** Bound to broadcast idle_cond. */
  predicate IsAnnouncing(th: Thread) {
    match th
    case Worker(_, pc) => pc.WIdleLock? || pc.WIdleSend?
    case Stopper(d, _, pc) => !d && (pc.SDrain? || pc.SDrainUnlock? || pc.SFinalLock? || pc.SFinalSend?)
    case _ => false
  }

  /** Part 4: while the pool is idle and a waiter sleeps or will sleep, somebody is about to wake it. */
  ghost predicate Announced(s: State) {
    Quiet(s) && (exists t :: t in s.threads && IsStale(s.threads[t])) ==>
      exists t :: t in s.threads && IsAnnouncing(s.threads[t])
  }

  ghost predicate AnnouncedLocal(sh: Shared, t: Tid, th: Thread, o: Outcome)
    requires o.Outcome?
  {
    && var still := o.sh.queue == [] && o.sh.active == 0;
    && (o.next.Some? && IsStale(o.next.value) && !IsStale(th) ==> !still)
    && (still && !(sh.queue == [] && sh.active == 0) ==>
          o.next.Some? && (IsAnnouncing(o.next.value) || HasPopped(o.next.value) || IsDiscarding(o.next.value)))
    && (HasPopped(th) ==> o.sh.active != 0)
    && (IsAnnouncing(th) ==>
          (o.next.Some? && IsAnnouncing(o.next.value)) || (o.touch.WakeAllIdle? && HoldsIdle(th)))
  }

  ghost predicate AnnouncedReady(sh: Shared, t: Tid, th: Thread) {
    LockedBy(sh, t, th) && CountingReady(sh, th) && sh.active >= 0
  }

  lemma AnnouncedHereWorker(sh: Shared, t: Tid, th: Thread, a: Act)
    requires th.Worker? && AnnouncedReady(sh, t, th) && !Code(sh, t, th, a).Blocked?
    ensures AnnouncedLocal(sh, t, th, Code(sh, t, th, a))
  {
    var pc := th.w;
    if pc.WLoop? || pc.WExit? {
    } else if InPop(pc) {
    } else if InSpawn(pc) {
    } else {
    }
  }

  lemma AnnouncedHereStopper(sh: Shared, t: Tid, th: Thread, a: Act)
    requires th.Stopper? && AnnouncedReady(sh, t, th) && !Code(sh, t, th, a).Blocked?
    ensures AnnouncedLocal(sh, t, th, Code(sh, t, th, a))
  {
  }

  lemma AnnouncedHere(sh: Shared, t: Tid, th: Thread, a: Act)
    requires AnnouncedReady(sh, t, th) && !Code(sh, t, th, a).Blocked?
    ensures AnnouncedLocal(sh, t, th, Code(sh, t, th, a))
  {
    match th
    case Worker(_, _) => AnnouncedHereWorker(sh, t, th, a);
    case Inserter(_) =>
    case Waiter(_, _) =>
    case Stopper(_, _, _) => AnnouncedHereStopper(sh, t, th, a);
  }

  lemma AnnouncedMove(s: State, s': State, t: Tid, o: Outcome)
    requires Locking(s) && Locking(s') && Announced(s) && Moves(s, s', t, o)
    requires AnnouncedLocal(s.sh, t, s.threads[t], o)
    ensures Announced(s')
  {
    if Quiet(s') && exists u :: u in s'.threads && IsStale(s'.threads[u]) {
      var u :| u in s'.threads && IsStale(s'.threads[u]);
      var th := s.threads[t];
      if s.sh.queue == [] && s.sh.active == 0 {
        assert u in s.threads && IsStale(s.threads[u]);
        assert Quiet(s);
        var w :| w in s.threads && IsAnnouncing(s.threads[w]);
        assert LockedBy(s.sh, t, th) && LockedBy(s.sh, u, s.threads[u]);
        assert w in s'.threads && IsAnnouncing(s'.threads[w]);
      } else {
        assert t in s'.threads && (IsDiscarding(s'.threads[t]) ==> u == t);
        assert IsAnnouncing(s'.threads[t]);
      }
    }
  }

  // ---------- part 5: every task is in exactly one place ----------

  /** What a worker holds between unlinking it and finalizing it. */
  function Carried(th: Thread): Option<Task> {
    if !th.Worker? then None else
    match th.w
    case WCount(task) => Some(task)
    case WLeave(task) => Some(task)
    case WDelay(task) => Some(task)
    case WRun(task) => Some(task)
    case WClear(task) => Some(task)
    case WSpawnRead(ToRun(task)) => Some(task)
    case WSpawnCas(_, ToRun(task)) => Some(task)
    case WSpawnCreate(ToRun(task)) => Some(task)
    case _ => None
  }

  /** The event whose flag an inserter has set for a task it has not yet linked. */
  function Marked(th: Thread): Option<EventId> {
    if !th.Inserter? then None else
    match th.i
    case ILock(ev) => Some(ev)
    case IPush(ev) => Some(ev)
    case _ => None
  }

  /** How tasks move in a step. */
  datatype Transfer = Stay | Mark(ev: EventId) | Push | Pop | Finalize | Drop

  function TransferOf(sh: Shared, th: Thread): Transfer {
    match th
    case Worker(_, pc) => if pc.WPop? then Pop else if pc.WClear? then Finalize else Stay
    case Inserter(pc) => if pc.IMark? then Mark(pc.ev) else if pc.IPush? then Push else Stay
    case Waiter(_, _) => Stay
    case Stopper(_, _, pc) => if (pc.SDrain? || pc.SDiscard?) && sh.queue != [] then Drop else Stay
  }

  function CarriedBy(next: Option<Thread>): Option<Task> {
    if next.Some? then Carried(next.value) else None
  }

  function MarkedBy(next: Option<Thread>): Option<EventId> {
    if next.Some? then Marked(next.value) else None
  }

  ghost predicate TaskLocal(sh: Shared, th: Thread, o: Outcome)
    requires o.Outcome?
  {
    && var before, after := Carried(th), CarriedBy(o.next);
    && var marked, marked' := Marked(th), MarkedBy(o.next);
    && var sh' := o.sh;
    match TransferOf(sh, th)
    case Stay =>
      after == before && marked' == marked && sh'.queue == sh.queue && sh'.flags == sh.flags
      && sh'.nextId == sh.nextId && sh'.settled == sh.settled
    case Mark(ev) =>
      after == before == None && marked == None && marked' == Some(ev) && sh'.queue == sh.queue
      && sh'.flags == sh.flags + {ev} && sh'.nextId == sh.nextId && sh'.settled == sh.settled
    case Push =>
      after == before == None && marked.Some? && marked' == None
      && sh'.queue == sh.queue + [Task(sh.nextId, marked.value)] && sh'.flags == sh.flags
      && sh'.nextId == sh.nextId + 1 && sh'.settled == sh.settled
    case Pop =>
      sh.queue != [] && before == None && after == Some(sh.queue[0]) && marked == marked' == None
      && sh'.queue == sh.queue[1..] && sh'.flags == sh.flags
      && sh'.nextId == sh.nextId && sh'.settled == sh.settled
    case Finalize =>
      before.Some? && after == None && marked == marked' == None && sh'.queue == sh.queue
      && sh'.flags == sh.flags - {before.value.ev}
      && sh'.nextId == sh.nextId && sh'.settled == sh.settled + {before.value.id}
    case Drop =>
      sh.queue != [] && before == after == None && marked == marked' == None && sh'.queue == sh.queue[1..]
      && sh'.flags == sh.flags - {sh.queue[0].ev}
      && sh'.nextId == sh.nextId && sh'.settled == sh.settled + {sh.queue[0].id}
  }

  lemma TaskHerePop(sh: Shared, t: Tid, th: Thread, a: Act)
    requires th.Worker? && InPop(th.w) && !Code(sh, t, th, a).Blocked?
    ensures TaskLocal(sh, th, Code(sh, t, th, a))
  {
  }

  lemma TaskHereWorker(sh: Shared, t: Tid, th: Thread, a: Act)
    requires th.Worker? && !Code(sh, t, th, a).Blocked?
    ensures TaskLocal(sh, th, Code(sh, t, th, a))
  {
    var pc := th.w;
    if pc.WLoop? || pc.WExit? {
    } else if InPop(pc) {
      TaskHerePop(sh, t, th, a);
    } else if InSpawn(pc) {
    } else {
    }
  }

  lemma TaskHereStopper(sh: Shared, t: Tid, th: Thread, a: Act)
    requires th.Stopper? && !Code(sh, t, th, a).Blocked?
    ensures TaskLocal(sh, th, Code(sh, t, th, a))
  {
  }

  lemma TaskHere(sh: Shared, t: Tid, th: Thread, a: Act)
    requires !Code(sh, t, th, a).Blocked?
    ensures TaskLocal(sh, th, Code(sh, t, th, a))
  {
    match th
    case Worker(_, _) => TaskHereWorker(sh, t, th, a);
    case Inserter(_) =>
    case Waiter(_, _) =>
    case Stopper(_, _, _) => TaskHereStopper(sh, t, th, a);
  }

  /** Where the tasks are: the queue, the workers' hands and the inserters' hands. */
  datatype Ledger = Ledger(queue: seq<Task>, nextId: nat, settled: set<nat>, flags: set<EventId>,
                           carried: map<Tid, Task>, marked: map<Tid, EventId>)

  function LedgerOf(s: State): Ledger {
    Ledger(s.sh.queue, s.sh.nextId, s.sh.settled, s.sh.flags,
           map t | t in s.threads && Carried(s.threads[t]).Some? :: Carried(s.threads[t]).value,
           map t | t in s.threads && Marked(s.threads[t]).Some? :: Marked(s.threads[t]).value)
  }

  predicate CanTransfer(l: Ledger, t: Tid, x: Transfer) {
    match x
    case Stay => true
    case Mark(ev) => t !in l.carried && t !in l.marked
    case Push => t !in l.carried && t in l.marked
    case Pop => l.queue != [] && t !in l.carried && t !in l.marked
    case Finalize => t in l.carried && t !in l.marked
    case Drop => l.queue != [] && t !in l.carried && t !in l.marked
  }

  function Transferred(l: Ledger, t: Tid, x: Transfer): Ledger
    requires CanTransfer(l, t, x)
  {
    match x
    case Stay => l
    case Mark(ev) => l.(flags := l.flags + {ev}, marked := l.marked[t := ev])
    case Push => l.(queue := l.queue + [Task(l.nextId, l.marked[t])], nextId := l.nextId + 1, marked := l.marked - {t})
    case Pop => l.(queue := l.queue[1..], carried := l.carried[t := l.queue[0]])
    case Finalize =>
      l.(flags := l.flags - {l.carried[t].ev}, settled := l.settled + {l.carried[t].id}, carried := l.carried - {t})
    case Drop =>
      l.(queue := l.queue[1..], flags := l.flags - {l.queue[0].ev}, settled := l.settled + {l.queue[0].id})
  }

  lemma CarriedMoves(s: State, s': State, t: Tid, o: Outcome)
    requires Moves(s, s', t, o)
    ensures LedgerOf(s').carried ==
      if CarriedBy(o.next).Some? then LedgerOf(s).carried[t := CarriedBy(o.next).value] else LedgerOf(s).carried - {t}
  {
  }

  lemma MarkedMoves(s: State, s': State, t: Tid, o: Outcome)
    requires Moves(s, s', t, o)
    ensures LedgerOf(s').marked ==
      if MarkedBy(o.next).Some? then LedgerOf(s).marked[t := MarkedBy(o.next).value] else LedgerOf(s).marked - {t}
  {
  }

  lemma LedgerMoves(s: State, s': State, t: Tid, o: Outcome)
    requires Moves(s, s', t, o) && TaskLocal(s.sh, s.threads[t], o)
    ensures CanTransfer(LedgerOf(s), t, TransferOf(s.sh, s.threads[t]))
    ensures LedgerOf(s') == Transferred(LedgerOf(s), t, TransferOf(s.sh, s.threads[t]))
  {
    CarriedMoves(s, s', t, o);
    MarkedMoves(s, s', t, o);
    var l, before, marked := LedgerOf(s), Carried(s.threads[t]), Marked(s.threads[t]);
    assert t in l.carried <==> before.Some?;
    assert t in l.marked <==> marked.Some?;
    assert before.Some? ==> l.carried[t] == before.value && l.carried[t := before.value] == l.carried;
    assert before.None? ==> l.carried - {t} == l.carried;
    assert marked.Some? ==> l.marked[t] == marked.value && l.marked[t := marked.value] == l.marked;
    assert marked.None? ==> l.marked - {t} == l.marked;
  }

  predicate Queued(queue: seq<Task>, id: nat) {
    exists n :: 0 <= n < |queue| && queue[n].id == id
  }

  ghost predicate Held(carried: map<Tid, Task>, id: nat) {
    exists t :: t in carried && carried[t].id == id
  }

  /** No task is in two places, and tasks leave the queue in the order of their insertion. */
  ghost predicate InOrder(l: Ledger) {
    && var q := l.queue;
    && (forall n :: 0 <= n < |q| ==> q[n].id < l.nextId && q[n].id !in l.settled)
    && (forall n, m :: 0 <= n < m < |q| ==> q[n].id < q[m].id)
    && (forall id :: id in l.settled ==> id < l.nextId)
    && (forall t :: t in l.carried ==> l.carried[t].id < l.nextId && l.carried[t].id !in l.settled)
    && (forall t, n :: t in l.carried && 0 <= n < |q| ==> l.carried[t].id < q[n].id)
    && (forall t, u :: t in l.carried && u in l.carried && l.carried[t].id == l.carried[u].id ==> t == u)
  }

  /** Part 5: each task inserted so far is queued, carried by one worker, or settled, and only one of these. */
  ghost predicate Accounted(l: Ledger) {
    InOrder(l) && forall id: nat :: id < l.nextId ==> id in l.settled || Queued(l.queue, id) || Held(l.carried, id)
  }

  lemma InOrderAfterPop(l: Ledger, t: Tid)
    requires InOrder(l) && CanTransfer(l, t, Pop)
    ensures InOrder(Transferred(l, t, Pop))
  {
  }

  lemma InOrderAfterFinalize(l: Ledger, t: Tid)
    requires InOrder(l) && CanTransfer(l, t, Finalize)
    ensures InOrder(Transferred(l, t, Finalize))
  {
  }

  lemma InOrderAfterDrop(l: Ledger, t: Tid)
    requires InOrder(l) && CanTransfer(l, t, Drop)
    ensures InOrder(Transferred(l, t, Drop))
  {
  }

  lemma InOrderAfterPush(l: Ledger, t: Tid)
    requires InOrder(l) && CanTransfer(l, t, Push)
    ensures InOrder(Transferred(l, t, Push))
  {
  }

  lemma AccountedKept(l: Ledger, t: Tid, x: Transfer)
    requires Accounted(l) && CanTransfer(l, t, x)
    ensures Accounted(Transferred(l, t, x))
  {
    match x {
      case Stay =>
      case Mark(_) =>
      case Push => InOrderAfterPush(l, t);
      case Pop => InOrderAfterPop(l, t);
      case Finalize => InOrderAfterFinalize(l, t);
      case Drop => InOrderAfterDrop(l, t);
    }
    forall id: nat | id < Transferred(l, t, x).nextId
      ensures var l' := Transferred(l, t, x); id in l'.settled || Queued(l'.queue, id) || Held(l'.carried, id)
    {
      NowhereLost(l, t, x, id);
    }
  }

  lemma NowhereLost(l: Ledger, t: Tid, x: Transfer, id: nat)
    requires Accounted(l) && CanTransfer(l, t, x) && id < Transferred(l, t, x).nextId
    ensures var l' := Transferred(l, t, x); id in l'.settled || Queued(l'.queue, id) || Held(l'.carried, id)
  {
    var l' := Transferred(l, t, x);
    if id == l.nextId {
      assert l'.queue[|l.queue|].id == id;
    } else if n :| 0 <= n < |l.queue| && l.queue[n].id == id {
      if x.Pop? && n == 0 {
        assert l'.carried[t].id == id;
      } else if x.Pop? || x.Drop? {
        assert n > 0 ==> l'.queue[n - 1].id == id;
      } else {
        assert l'.queue[n].id == id;
      }
    } else if u :| u in l.carried && l.carried[u].id == id {
      assert u in l'.carried ==> l'.carried[u].id == id;
    }
  }

  // ---------- part 6: the answer "idle" ----------

  /** The cut of a waiter that has seen the queue empty and has not finished its test. */
  function Sure(th: Thread): Option<nat> {
    if !th.Waiter? then None else
    match th.v
    case VTaskUnlock(true, cut) => Some(cut)
    case VReadActive(true, cut) => Some(cut)
    case _ => None
  }

  /** No task inserted before `cut` is queued or uncounted. */
  ghost predicate Clear(s: State, cut: nat) {
    && cut <= s.sh.nextId
    && (forall n :: 0 <= n < |s.sh.queue| ==> cut <= s.sh.queue[n].id)
    && (forall u :: u in s.threads && HasPopped(s.threads[u]) ==> cut <= s.threads[u].w.task.id)
  }

  /** Part 6: "idle" is answered only when every task inserted before the queue test is settled. */
  ghost predicate Truthful(s: State) {
    && (forall t :: t in s.threads && Sure(s.threads[t]).Some? ==> Clear(s, Sure(s.threads[t]).value))
    && (forall t :: t in s.threads && s.threads[t].Waiter? && s.threads[t].v.VDone? ==>
          forall id: nat :: id < s.threads[t].v.cut ==> id in s.sh.settled)
  }

  ghost predicate TruthfulLocal(sh: Shared, th: Thread, o: Outcome)
    requires o.Outcome?
  {
    && (o.next.Some? && HasPopped(o.next.value) ==>
          TransferOf(sh, th).Pop? && sh.queue != [] && o.next.value.w.task == sh.queue[0])
    && (o.next.Some? && Sure(o.next.value).Some? && Sure(o.next.value) != Sure(th) ==>
          HoldsTask(th) && sh.queue == [] && Sure(o.next.value).value == sh.nextId && o.sh == sh)
    && (o.next.Some? && o.next.value.Waiter? && o.next.value.v.VDone? ==>
          Sure(th) == Some(o.next.value.v.cut) && sh.active == 0 && o.sh == sh)
  }

  lemma TruthfulHereWorker(sh: Shared, t: Tid, th: Thread, a: Act)
    requires th.Worker? && !Code(sh, t, th, a).Blocked?
    ensures TruthfulLocal(sh, th, Code(sh, t, th, a))
  {
    var pc := th.w;
    if pc.WLoop? || pc.WExit? {
    } else if InPop(pc) {
    } else if InSpawn(pc) {
    } else {
    }
  }

  lemma TruthfulHere(sh: Shared, t: Tid, th: Thread, a: Act)
    requires LockedBy(sh, t, th) && CountingReady(sh, th) && !Code(sh, t, th, a).Blocked?
    ensures TruthfulLocal(sh, th, Code(sh, t, th, a))
  {
    match th
    case Worker(_, _) => TruthfulHereWorker(sh, t, th, a);
    case Inserter(_) =>
    case Waiter(_, _) =>
    case Stopper(_, _, _) =>
  }

  lemma ClearKept(s: State, s': State, t: Tid, o: Outcome, cut: nat)
    requires Clear(s, cut) && Moves(s, s', t, o)
    requires TruthfulLocal(s.sh, s.threads[t], o) && TaskLocal(s.sh, s.threads[t], o)
    ensures Clear(s', cut)
  {
  }

  lemma EverythingSettled(s: State, cut: nat)
    requires Clear(s, cut) && Counting(s) && Accounted(LedgerOf(s)) && s.sh.active == 0
    ensures forall id: nat :: id < cut ==> id in s.sh.settled
  {
    CountNone(s.threads, IsCounted);
    var l := LedgerOf(s);
    forall t | t in l.carried ensures cut <= l.carried[t].id {
      assert IsCounted(s.threads[t]) || HasPopped(s.threads[t]);
    }
  }

  lemma SureMove(s: State, s': State, t: Tid, o: Outcome, u: Tid)
    requires Truthful(s) && Locking(s) && Moves(s, s', t, o)
    requires TruthfulLocal(s.sh, s.threads[t], o) && TaskLocal(s.sh, s.threads[t], o)
    requires u in s'.threads && Sure(s'.threads[u]).Some?
    ensures Clear(s', Sure(s'.threads[u]).value)
  {
    var cut := Sure(s'.threads[u]).value;
    if !(u in s.threads && Sure(s.threads[u]) == Some(cut)) {
      QueueSeenEmpty(s, t);
    }
    ClearKept(s, s', t, o, cut);
  }

  lemma TruthfulMove(s: State, s': State, t: Tid, o: Outcome)
    requires Truthful(s) && Locking(s) && Counting(s) && Accounted(LedgerOf(s)) && Moves(s, s', t, o)
    requires TruthfulLocal(s.sh, s.threads[t], o) && TaskLocal(s.sh, s.threads[t], o)
    ensures Truthful(s')
  {
    forall u | u in s'.threads && Sure(s'.threads[u]).Some? ensures Clear(s', Sure(s'.threads[u]).value) {
      SureMove(s, s', t, o, u);
    }
    forall u | u in s'.threads && s'.threads[u].Waiter? && s'.threads[u].v.VDone?
      ensures forall id: nat :: id < s'.threads[u].v.cut ==> id in s'.sh.settled
    {
      if u == t {
        EverythingSettled(s, s'.threads[u].v.cut);
      } else {
        assert s.threads[u] == s'.threads[u];
      }
    }
  }

  /** Whoever holds task_mutex and sees the queue empty sees every earlier task counted. */
  lemma QueueSeenEmpty(s: State, t: Tid)
    requires Locking(s) && t in s.threads && HoldsTask(s.threads[t]) && !HasPopped(s.threads[t]) && s.sh.queue == []
    ensures Clear(s, s.sh.nextId)
  {
    forall u | u in s.threads ensures !HasPopped(s.threads[u]) {
      assert LockedBy(s.sh, u, s.threads[u]) && LockedBy(s.sh, t, s.threads[t]);
    }
  }

  // ---------- part 7: one outstanding task per event ----------

  /** The events of queued, carried and not yet linked tasks are all different. */
  ghost predicate Exclusive(l: Ledger) {
    && var q := l.queue;
    && (forall n, m :: 0 <= n < m < |q| ==> q[n].ev != q[m].ev)
    && (forall t, u :: t in l.carried && u in l.carried && l.carried[t].ev == l.carried[u].ev ==> t == u)
    && (forall t, u :: t in l.marked && u in l.marked && l.marked[t] == l.marked[u] ==> t == u)
    && (forall t, n :: t in l.carried && 0 <= n < |q| ==> l.carried[t].ev != q[n].ev)
    && (forall t, n :: t in l.marked && 0 <= n < |q| ==> l.marked[t] != q[n].ev)
    && (forall t, u :: t in l.carried && u in l.marked ==> l.carried[t].ev != l.marked[u])
  }

  ghost predicate Outstanding(l: Ledger, ev: EventId) {
    || (exists n :: 0 <= n < |l.queue| && l.queue[n].ev == ev)
    || (exists t :: t in l.carried && l.carried[t].ev == ev)
    || (exists t :: t in l.marked && l.marked[t] == ev)
  }

  /** Part 7: an event's flag is set exactly while a task of it is outstanding, and at most one is. */
  ghost predicate Flagged(l: Ledger) {
    Exclusive(l) && forall ev :: ev in l.flags <==> Outstanding(l, ev)
  }

  lemma ExclusiveAfterPop(l: Ledger, t: Tid)
    requires Exclusive(l) && CanTransfer(l, t, Pop)
    ensures Exclusive(Transferred(l, t, Pop))
  {
  }

  lemma ExclusiveAfterPush(l: Ledger, t: Tid)
    requires Exclusive(l) && CanTransfer(l, t, Push)
    ensures Exclusive(Transferred(l, t, Push))
  {
  }

  lemma ExclusiveAfterMark(l: Ledger, t: Tid, ev: EventId)
    requires Exclusive(l) && CanTransfer(l, t, Mark(ev)) && !Outstanding(l, ev)
    ensures Exclusive(Transferred(l, t, Mark(ev)))
  {
  }

  lemma ExclusiveKept(l: Ledger, t: Tid, x: Transfer)
    requires Flagged(l) && CanTransfer(l, t, x) && (x.Mark? ==> x.ev !in l.flags)
    ensures Exclusive(Transferred(l, t, x))
  {
    match x {
      case Stay =>
      case Mark(ev) => ExclusiveAfterMark(l, t, ev);
      case Push => ExclusiveAfterPush(l, t);
      case Pop => ExclusiveAfterPop(l, t);
      case Finalize =>
      case Drop =>
    }
  }

  lemma OutstandingMoves(l: Ledger, t: Tid, x: Transfer, ev: EventId)
    requires Flagged(l) && CanTransfer(l, t, x)
    ensures ev in Transferred(l, t, x).flags <==> Outstanding(Transferred(l, t, x), ev)
  {
    var l' := Transferred(l, t, x);
    assert ev in l.flags <==> Outstanding(l, ev);
    if n :| 0 <= n < |l.queue| && l.queue[n].ev == ev {
      assert (x.Pop? || x.Drop?) && n > 0 ==> l'.queue[n - 1].ev == ev;
      assert x.Pop? && n == 0 ==> l'.carried[t].ev == ev;
      assert !x.Pop? && !x.Drop? ==> l'.queue[n].ev == ev;
    }
    if u :| u in l.carried && l.carried[u].ev == ev {
      assert u in l'.carried ==> l'.carried[u].ev == ev;
    }
    if u :| u in l.marked && l.marked[u] == ev {
      assert u in l'.marked ==> l'.marked[u] == ev;
      assert u !in l'.marked ==> l'.queue[|l.queue|].ev == ev;
    }
    assert x.Mark? ==> l'.marked[t] == x.ev;
  }

  /**
    A late mark: an inserter, having found its event's flag clear, is about to set it and finds it set.
    It is the one transfer that breaks exclusiveness.
   */
  predicate LateMark(l: Ledger, x: Transfer) { x.Mark? && x.ev in l.flags }

  lemma LateMarkDoubles(l: Ledger, t: Tid, x: Transfer)
    requires Flagged(l) && CanTransfer(l, t, x) && LateMark(l, x)
    ensures !Exclusive(Transferred(l, t, x))
  {
    var ev, l' := x.ev, Transferred(l, t, x);
    assert l'.marked[t] == ev && Outstanding(l, ev);
    if n :| 0 <= n < |l.queue| && l.queue[n].ev == ev {
      assert l'.queue[n].ev == ev;
    } else if u :| u in l.carried && l.carried[u].ev == ev {
      assert l'.carried[u].ev == ev;
    } else {
      var u :| u in l.marked && l.marked[u] == ev;
      assert l'.marked[u] == ev && u != t;
    }
  }

  /** A transfer keeps every event's tasks to one if and only if it is no late mark. */
  lemma ExclusiveIff(l: Ledger, t: Tid, x: Transfer)
    requires Flagged(l) && CanTransfer(l, t, x)
    ensures Exclusive(Transferred(l, t, x)) <==> !LateMark(l, x)
    ensures !LateMark(l, x) ==> Flagged(Transferred(l, t, x))
  {
    if LateMark(l, x) {
      LateMarkDoubles(l, t, x);
    } else {
      ExclusiveKept(l, t, x);
      forall ev ensures ev in Transferred(l, t, x).flags <==> Outstanding(Transferred(l, t, x), ev) {
        OutstandingMoves(l, t, x, ev);
      }
    }
  }

  /** The thread that moves is an inserter about to set a flag that is set already. */
  predicate MarksLate(s: State, t: Tid) {
    t in s.threads && LateMark(LedgerOf(s), TransferOf(s.sh, s.threads[t]))
  }

  /** The same for a step of the pool. */
  lemma ExclusiveStep(s: State, s': State, t: Tid, a: Act)
    requires Flagged(LedgerOf(s)) && t in s.threads && Step(s, t, a) == Some(s')
    ensures Exclusive(LedgerOf(s')) <==> !MarksLate(s, t)
    ensures !MarksLate(s, t) ==> Flagged(LedgerOf(s'))
  {
    var th, o := s.threads[t], Code(s.sh, t, s.threads[t], a);
    StepMoves(s, t, a);
    TaskHere(s.sh, t, th, a);
    LedgerMoves(s, s', t, o);
    ExclusiveIff(LedgerOf(s), t, TransferOf(s.sh, th));
  }

  /** The event whose flag an inserter has yet to test or set, or whose task it has yet to link. */
  function Inserting(th: Thread): Option<EventId> {
    if !th.Inserter? then None else
    match th.i
    case IRead(ev) => Some(ev)
    case IMark(ev) => Some(ev)
    case ILock(ev) => Some(ev)
    case IPush(ev) => Some(ev)
    case _ => None
  }

  /** At most one inserter per event; any number of inserters of different events. */
  ghost predicate OnePerEvent(s: State) {
    forall t, u ::
      t in s.threads && u in s.threads && Inserting(s.threads[t]).Some?
      && Inserting(s.threads[t]) == Inserting(s.threads[u])
      ==> t == u
  }

  predicate Marking(th: Thread, ev: EventId) { th == Inserter(IMark(ev)) }

  /** Whoever has found a flag clear would still find it clear. */
  ghost predicate MarksInTime(s: State) {
    forall t, ev :: t in s.threads && Marking(s.threads[t], ev) ==> ev !in s.sh.flags
  }

  lemma MarkingHere(sh: Shared, t: Tid, th: Thread, a: Act, ev: EventId)
    requires !Code(sh, t, th, a).Blocked?
    requires var o := Code(sh, t, th, a); o.next.Some? && Marking(o.next.value, ev)
    ensures ev !in sh.flags && Code(sh, t, th, a).sh == sh && th.Inserter?
  {
    match th
    case Worker(_, _) =>
    case Inserter(_) =>
    case Waiter(_, _) =>
    case Stopper(_, _, _) =>
  }

  lemma MarksInTimeMove(s: State, s': State, t: Tid, a: Act)
    requires MarksInTime(s) && OnePerEvent(s) && t in s.threads && Step(s, t, a) == Some(s')
    ensures MarksInTime(s')
  {
    var th, o := s.threads[t], Code(s.sh, t, s.threads[t], a);
    StepMoves(s, t, a);
    TaskHere(s.sh, t, th, a);
    forall u, ev | u in s'.threads && Marking(s'.threads[u], ev) ensures ev !in s'.sh.flags {
      if u == t {
        MarkingHere(s.sh, t, th, a, ev);
      } else {
        assert s.threads[u] == s'.threads[u];
        assert Marking(th, ev) ==> Inserting(th) == Inserting(s.threads[u]);
        assert TransferOf(s.sh, th).Mark? ==> Marking(th, TransferOf(s.sh, th).ev);
      }
    }
  }
}
