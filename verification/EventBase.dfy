/**
  Event slots, reference counts, timers and counters of the event loop (uevent/uevent.c), one API
  call or one turn of a handler loop at a time.

  Heap and epoll set are values here: the heap maps an armed slot to its deadline (ArrayHeap shows
  how the array heap keeps such contents), the epoll set holds the registered slots.
 */
module EventBase {
  import opened Common

  const EPOLL_MAX_TIMEOUT_MS := 60000
  const UEV_TIMEOUT_FROM_EVENT := -2

  datatype Status = OK | EPOLL | INVAL | PENDING_FREE | BUSY

  /** uevent_t: what it watches, then its state. */
  datatype Event = Event(
    watchesFd: bool,       // an fd event with a valid fd (internal_is_fd_event)
    watchesTime: bool,     // UEV_TIMEOUT
    persist: bool,         // UEV_PERSIST
    timeout: int,          // timeout_ms
    fdActive: bool,        // active_fd
    timerArmed: bool,      // active_timer
    pendingFree: bool,
    queued: bool           // is_in_worker_pool
  )

  /** uev_t */
  datatype Slot = Slot(count: int, ev: Option<Event>)

  datatype Base = Base(
    slots: seq<Slot>,      // uev_arr
    free: seq<nat>,        // free_uev_arr, the top of the stack last
    heap: map<nat, nat>,   // timer_heap: deadline of each armed slot
    fds: set<nat>,         // the user slots registered with epoll
    numFd: int,            // num_active_fd
    numTimers: int,        // num_active_timers
    running: bool,
    wakeup: nat,           // the slot of wakeup_event
    handles: seq<nat>      // history: references callers and handlers hold on each slot
  )

  /** The references an event accounts for: owner, timer heap, epoll, task, holders. */
  function References(e: Event, isWakeup: bool, handles: nat): nat {
    One(!e.pendingFree) + One(e.timerArmed) + One(e.fdActive && !isWakeup) + One(e.queued) + handles
  }

  ghost predicate SlotGood(b: Base, i: nat)
    requires i < |b.slots| == |b.handles|
  {
    match b.slots[i].ev
    case None => b.slots[i].count == 0 && b.handles[i] == 0 && i !in b.heap && i !in b.fds
    case Some(e) =>
      && b.slots[i].count == References(e, i == b.wakeup, b.handles[i]) > 0
      && (e.pendingFree ==> !e.timerArmed && !e.fdActive)
      && (e.timerArmed <==> i in b.heap)
      && (e.fdActive && i != b.wakeup <==> i in b.fds)
  }

  /** Everything every step keeps. */
  ghost predicate Good(b: Base) {
    && |b.handles| == |b.slots|
    && (forall i: nat :: i < |b.slots| ==> SlotGood(b, i))
    // the free stack holds exactly the unused slots, each once
    && (forall k :: 0 <= k < |b.free| ==> b.free[k] < |b.slots| && b.slots[b.free[k]].ev.None?)
    && (forall k, l :: 0 <= k < l < |b.free| ==> b.free[k] != b.free[l])
    && (forall i: nat :: i < |b.slots| && b.slots[i].ev.None? ==> i in b.free)
    // the counters count
    && (forall i :: i in b.heap ==> i < |b.slots|)
    && (forall i :: i in b.fds ==> i < |b.slots|)
    && b.numTimers == |b.heap|
    && b.numFd == |b.fds|
    // the wakeup event is the loop's own: it is never armed or freed, and has no other holder of its registration
    && b.wakeup < |b.slots| && b.slots[b.wakeup].ev.Some? && b.wakeup !in b.heap && b.wakeup !in b.fds
    && !b.slots[b.wakeup].ev.value.pendingFree
  }

  function SetSlot(b: Base, i: nat, s: Slot): Base
    requires i < |b.slots|
  {
    b.(slots := b.slots[i := s])
  }

  function SetEvent(b: Base, i: nat, e: Event): Base
    requires i < |b.slots|
  {
    SetSlot(b, i, b.slots[i].(ev := Some(e)))
  }

  predicate Live(b: Base, i: nat) { i < |b.slots| && b.slots[i].ev.Some? }

  function Ev(b: Base, i: nat): Event
    requires Live(b, i)
  {
    b.slots[i].ev.value
  }

  /** uevent_ref */
  function Ref(b: Base, i: nat): Base
    requires i < |b.slots|
  {
    SetSlot(b, i, b.slots[i].(count := b.slots[i].count + 1))
  }

  /** uevent_put, with uevent_destroy_uev_internal_unsafe and uev_return: whether the event was destroyed. */
  function Put(b: Base, i: nat): (r: (Base, bool))
    requires i < |b.slots|
    ensures |r.0.slots| == |b.slots|
  {
    var s := b.slots[i];
    if s.count == 0 then (b, false)
    else if s.count == 1 then
      (SetSlot(b, i, Slot(0, None)).(free := if s.ev.Some? then b.free + [i] else b.free), true)
    else (SetSlot(b, i, s.(count := s.count - 1)), false)
  }

  /** uevent_try_ref: None when it refuses, leaving the base as it was. */
  function TryRef(b: Base, i: nat): Option<Base>
    requires |b.slots| == |b.handles|
  {
    if i >= |b.slots| || b.slots[i].count == 0 then None
    else if b.slots[i].ev.None? || b.slots[i].ev.value.pendingFree then None
    else Some(Ref(b, i).(handles := b.handles[i := b.handles[i] + 1]))
  }

  /** uevent_put of a reference obtained from uevent_try_ref. */
  function Release(b: Base, i: nat): (r: Base)
    requires i < |b.slots| == |b.handles| && b.handles[i] > 0
    ensures |r.slots| == |b.slots|
  {
    Put(b, i).0.(handles := b.handles[i := b.handles[i] - 1])
  }

  /** insert_fd_to_epoll; `ok` is epoll_ctl's answer. */
  function InsertFd(b: Base, i: nat, ok: bool): (r: (Base, Status))
    requires Live(b, i)
    ensures |r.0.slots| == |b.slots|
  {
    var e := Ev(b, i);
    if !ok then (b, EPOLL)
    else if e.fdActive then (b, OK)
    else if i == b.wakeup then (SetEvent(b, i, e.(fdActive := true)), OK)
    else (Ref(SetEvent(b, i, e.(fdActive := true)), i).(numFd := b.numFd + 1, fds := b.fds + {i}), OK)
  }

  /** Deadline `timeout` milliseconds after `from`, in 64 bits; a negative timeout counts as zero. */
  function Deadline(from: nat, timeout: int): nat { (from + if timeout >= 0 then timeout else 0) % U64 }

  /** insert_timer_to_heap.  mh_insert refuses a full heap, and its answer is ignored. */
  function InsertTimer(b: Base, i: nat, from: nat, timeout: int): (r: Base)
    requires Live(b, i)
    ensures |r.slots| == |b.slots|
  {
    var e := Ev(b, i);
    var b1 := if |b.heap| < |b.slots| then b.(heap := b.heap[i := Deadline(from, timeout)]) else b;
    if e.timerArmed then b1
    else Ref(SetEvent(b1, i, e.(timerArmed := true)), i).(numTimers := b.numTimers + 1)
  }

  /** remove_event_from_epoll */
  function RemoveFd(b: Base, i: nat): (r: Base)
    requires Live(b, i)
    ensures |r.slots| == |b.slots|
  {
    var e := Ev(b, i);
    if !e.fdActive then b
    else
      var b1 := SetEvent(b, i, e.(fdActive := false));
      Put(if i == b.wakeup then b1 else b1.(numFd := b.numFd - 1, fds := b.fds - {i}), i).0
  }

  /** remove_event_from_heap */
  function RemoveTimer(b: Base, i: nat): (r: Base)
    requires i < |b.slots|
    ensures |r.slots| == |b.slots|
  {
    if b.slots[i].ev.None? || !Ev(b, i).timerArmed then b
    else
      var b1 := SetEvent(b, i, Ev(b, i).(timerArmed := false));
      Put(b1.(heap := b.heap - {i}, numTimers := b.numTimers - 1), i).0
  }

  /** b' differs from b at slot `i` only, whose event lives on. */
  ghost predicate Touches(b: Base, b': Base, i: nat) {
    && Live(b, i) && |b'.slots| == |b.slots| && Live(b', i)
    && b'.slots == b.slots[i := b'.slots[i]]
    && |b'.handles| == |b.slots| == |b.handles| && b'.handles == b.handles[i := b'.handles[i]]
    && b'.free == b.free && b'.wakeup == b.wakeup
    && b'.heap - {i} == b.heap - {i} && b'.fds - {i} == b.fds - {i}
    && b'.numTimers - b.numTimers == One(i in b'.heap) - One(i in b.heap)
    && b'.numFd - b.numFd == One(i in b'.fds) - One(i in b.fds)
  }

  lemma SizeAt(m: map<nat, nat>, m': map<nat, nat>, i: nat)
    requires m - {i} == m' - {i}
    ensures |m'| - |m| == One(i in m') - One(i in m)
  {
    assert m.Keys - {i} == (m - {i}).Keys && m'.Keys - {i} == (m' - {i}).Keys;
    assert |m.Keys| == |m.Keys - {i}| + One(i in m);
    assert |m'.Keys| == |m'.Keys - {i}| + One(i in m');
  }

  lemma CardAt(m: set<nat>, m': set<nat>, i: nat)
    requires m - {i} == m' - {i}
    ensures |m'| - |m| == One(i in m') - One(i in m)
  {
    assert |m| == |m - {i}| + One(i in m);
    assert |m'| == |m' - {i}| + One(i in m');
  }

  lemma OtherKeys(m: map<nat, nat>, m': map<nat, nat>, i: nat)
    requires m - {i} == m' - {i}
    ensures forall j :: j != i ==> (j in m <==> j in m')
  {
    forall j | j != i ensures j in m <==> j in m' {
      assert j in m <==> j in m - {i};
      assert j in m' <==> j in m' - {i};
    }
  }

  lemma OtherMembers(m: set<nat>, m': set<nat>, i: nat)
    requires m - {i} == m' - {i}
    ensures forall j :: j != i ==> (j in m <==> j in m')
  {
    forall j | j != i ensures j in m <==> j in m' {
      assert j in m <==> j in m - {i};
    }
  }

  /** Good needs rechecking only at the slot a step touches. */
  lemma GoodAfter(b: Base, b': Base, i: nat)
    requires Good(b) && Touches(b, b', i) && SlotGood(b', i)
    requires i == b.wakeup ==> i !in b'.heap && i !in b'.fds && !Ev(b', i).pendingFree
    ensures Good(b')
  {
    SizeAt(b.heap, b'.heap, i);
    CardAt(b.fds, b'.fds, i);
    OtherKeys(b.heap, b'.heap, i);
    OtherMembers(b.fds, b'.fds, i);
    forall j: nat | j < |b'.slots| ensures SlotGood(b', j) {
      assert j != i ==> SlotGood(b, j);
    }
  }

  lemma TryRefGood(b: Base, i: nat)
    requires Good(b)
    ensures TryRef(b, i).Some? <==> Live(b, i) && !Ev(b, i).pendingFree
    ensures TryRef(b, i).Some? ==> Good(TryRef(b, i).value)
  {
    if i < |b.slots| {
      assert SlotGood(b, i);
      if TryRef(b, i).Some? {
        GoodAfter(b, TryRef(b, i).value, i);
      }
    }
  }

  /** Dropping the last reference takes the event away and puts its slot on the free stack. */
  lemma ReleaseGood(b: Base, i: nat)
    requires Good(b) && i < |b.slots| && b.handles[i] > 0
    ensures Good(Release(b, i))
    ensures Live(Release(b, i), i) <==> b.slots[i].count > 1
    ensures b.slots[i].count > 1 ==>
          Release(b, i) == b.(slots := b.slots[i := b.slots[i].(count := b.slots[i].count - 1)],
                                                        handles := b.handles[i := b.handles[i] - 1])
  {
    var b' := Release(b, i);
    assert SlotGood(b, i);
    if b.slots[i].count > 1 {
      GoodAfter(b, b', i);
    } else {
      DestroyGood(b, i);
    }
  }

  lemma DestroyGood(b: Base, i: nat)
    requires Good(b) && i < |b.slots| && b.handles[i] == 1 && i != b.wakeup && b.slots[i].count == 1 && Live(b, i)
    ensures Good(Release(b, i)) && Release(b, i).free == b.free + [i] && Release(b, i).slots[i] == Slot(0, None)
  {
    var b' := Release(b, i);
    assert SlotGood(b, i);
    assert i !in b.free;
    forall j: nat | j < |b'.slots| ensures SlotGood(b', j) {
      assert j != i ==> SlotGood(b, j);
    }
    forall j: nat | j < |b'.slots| && b'.slots[j].ev.None? ensures j in b'.free {
      assert j != i ==> j in b.free;
    }
  }

  lemma InsertFdGood(b: Base, i: nat, ok: bool)
    requires Good(b) && Live(b, i) && !Ev(b, i).pendingFree
    ensures Good(InsertFd(b, i, ok).0)
    ensures var b' := InsertFd(b, i, ok).0; Live(b', i) && b'.handles == b.handles && !Ev(b', i).pendingFree
  {
    assert SlotGood(b, i);
    if ok && !Ev(b, i).fdActive { RegisterGood(b, i); }
  }

  lemma RegisterGood(b: Base, i: nat)
    requires Good(b) && Live(b, i) && !Ev(b, i).pendingFree && !Ev(b, i).fdActive
    ensures Good(InsertFd(b, i, true).0)
  {
    RegisterTouches(b, i);
    GoodAfter(b, InsertFd(b, i, true).0, i);
  }

  lemma RegisterTouches(b: Base, i: nat)
    requires Good(b) && Live(b, i) && !Ev(b, i).pendingFree && !Ev(b, i).fdActive
    ensures var b' := InsertFd(b, i, true).0;
      && Touches(b, b', i) && SlotGood(b', i)
      && (i == b.wakeup ==> i !in b'.heap && i !in b'.fds && !Ev(b', i).pendingFree)
  {
    if i == b.wakeup { RegisterWakeup(b); } else { RegisterUser(b, i); }
  }

  lemma RegisterWakeup(b: Base)
    requires Good(b) && Live(b, b.wakeup) && !Ev(b, b.wakeup).pendingFree && !Ev(b, b.wakeup).fdActive
    ensures var b' := InsertFd(b, b.wakeup, true).0;
      && Touches(b, b', b.wakeup) && SlotGood(b', b.wakeup)
      && b.wakeup !in b'.heap && b.wakeup !in b'.fds && !Ev(b', b.wakeup).pendingFree
  {
    assert SlotGood(b, b.wakeup);
  }

  lemma RegisterUser(b: Base, i: nat)
    requires Good(b) && Live(b, i) && !Ev(b, i).pendingFree && !Ev(b, i).fdActive && i != b.wakeup
    ensures Touches(b, InsertFd(b, i, true).0, i) && SlotGood(InsertFd(b, i, true).0, i)
  {
    assert SlotGood(b, i);
    assert InsertFd(b, i, true).0.fds - {i} == b.fds - {i};
  }

  /** Since the wakeup event's slot is never armed, the heap is never full and mh_insert never refuses. */
  lemma HeapNeverFull(b: Base)
    requires Good(b)
    ensures |b.heap| < |b.slots|
  {
    var all := UpTo(|b.slots|);
    UpToSize(|b.slots|);
    assert b.heap.Keys <= all - {b.wakeup};
    SubsetSize(b.heap.Keys, all - {b.wakeup});
  }

  function UpTo(n: nat): set<nat> { if n == 0 then {} else UpTo(n - 1) + {n - 1} }

  lemma {:induction false} UpToSize(n: nat)
    ensures |UpTo(n)| == n && forall i: nat :: i in UpTo(n) <==> i < n
  {
    if n > 0 {
      UpToSize(n - 1);
      assert n - 1 !in UpTo(n - 1);
    }
  }

  lemma SubsetSize<T>(a: set<T>, b: set<T>)
    requires a <= b
    ensures |a| <= |b|
  {
    assert b == a + (b - a);
  }

  lemma InsertTimerGood(b: Base, i: nat, from: nat, timeout: int)
    requires Good(b) && Live(b, i) && !Ev(b, i).pendingFree && i != b.wakeup
    ensures var b' := InsertTimer(b, i, from, timeout);
      && Good(b') && Live(b', i) && b'.handles == b.handles && !Ev(b', i).pendingFree
      && i in b'.heap && b'.heap[i] == Deadline(from, timeout)
  {
    HeapNeverFull(b);
    assert SlotGood(b, i);
    if Ev(b, i).timerArmed {
      GoodAfter(b, InsertTimer(b, i, from, timeout), i);
    } else {
      ArmGood(b, i, from, timeout);
    }
  }

  lemma ArmGood(b: Base, i: nat, from: nat, timeout: int)
    requires Good(b) && Live(b, i) && !Ev(b, i).pendingFree && i != b.wakeup && !Ev(b, i).timerArmed
    requires |b.heap| < |b.slots|
    ensures Good(InsertTimer(b, i, from, timeout))
  {
    ArmTouches(b, i, from, timeout);
    GoodAfter(b, InsertTimer(b, i, from, timeout), i);
  }

  lemma ArmTouches(b: Base, i: nat, from: nat, timeout: int)
    requires Good(b) && Live(b, i) && !Ev(b, i).pendingFree && i != b.wakeup && !Ev(b, i).timerArmed
    requires |b.heap| < |b.slots|
    ensures Touches(b, InsertTimer(b, i, from, timeout), i) && SlotGood(InsertTimer(b, i, from, timeout), i)
  {
    assert SlotGood(b, i);
    SetThenDrop(b.heap, i, Deadline(from, timeout));
  }

  lemma SetThenDrop(m: map<nat, nat>, i: nat, d: nat)
    ensures m[i := d] - {i} == m - {i}
  {
  }

  lemma RemoveFdGood(b: Base, i: nat)
    requires Good(b) && Live(b, i) && i != b.wakeup && b.handles[i] > 0
    ensures var b' := RemoveFd(b, i);
      Good(b') && Live(b', i) && !Ev(b', i).fdActive && b'.handles == b.handles
      && Ev(b', i) == Ev(b, i).(fdActive := false)
  {
    assert SlotGood(b, i);
    GoodAfter(b, RemoveFd(b, i), i);
  }

  lemma RemoveTimerGood(b: Base, i: nat)
    requires Good(b) && Live(b, i) && i != b.wakeup && b.handles[i] > 0
    ensures var b' := RemoveTimer(b, i);
      Good(b') && Live(b', i) && b'.handles == b.handles && Ev(b', i) == Ev(b, i).(timerArmed := false)
  {
    assert SlotGood(b, i);
    GoodAfter(b, RemoveTimer(b, i), i);
  }
}
