/**
  The event loop's base object (struct uevent_base_t, uevent/uevent.c:95-114), changed in place.
  Each method does to the object what the function of the same purpose in EventBase or EventSteps
  does to its value, so that what is proved there of every run holds of this object.
 */
module EventLoop {
  import opened Common
  import opened EventBase
  import opened EventSteps
  import TimerPass

  const MAX_TURNS := 500

  class Loop {
    const uev: array<Slot>          // uev_arr
    const freeArr: array<nat>       // free_uev_arr
    var freeCnt: nat                // free_uev_arr_cnt
    var heap: map<nat, nat>         // timer_heap
    var fds: set<nat>               // epoll's interest list
    var numFd: int
    var numTimers: int
    var running: bool
    var wakeup: nat
    ghost var handles: seq<nat>

    ghost predicate Shaped()
      reads this
    {
      uev.Length == freeArr.Length && freeCnt <= freeArr.Length && |handles| == uev.Length
    }

    ghost function Value(): Base
      requires freeCnt <= freeArr.Length
      reads this, uev, freeArr
    {
      Base(uev[..], freeArr[..freeCnt], heap, fds, numFd, numTimers, running, wakeup, handles)
    }

    ghost predicate Valid()
      reads this, uev, freeArr
    {
      Shaped() && Good(Value())
    }

    /** uevent_base_new; `ok` is epoll_ctl's answer for the wakeup event. */
    constructor (maxEvents: nat, ok: bool)
      requires maxEvents > 0
      ensures Valid() && Value() == New(maxEvents, ok) && fresh(uev) && fresh(freeArr)
    {
      uev := new Slot[maxEvents](_ => Slot(0, None));
      freeArr := new nat[maxEvents](i => i);
      freeCnt := maxEvents;
      heap, fds, numFd, numTimers, running := map[], {}, 0, 0, false;
      handles := seq(maxEvents, _ => 0);
      wakeup := maxEvents - 1;
      new;
      assert Value() == SlotsInit(maxEvents);
      var slot := CreateEvent(WAKEUP_EVENT);
      assert uev[wakeup].ev.Some?;
      var status := InsertFdMethod(wakeup, ok);
      NewGood(maxEvents, ok);
    }

    /** uev_get_unused and uevent_create_or_assign_event */
    method CreateEvent(e: Event) returns (slot: Option<nat>)
      requires Shaped() && (freeCnt > 0 ==> freeArr[freeCnt - 1] < uev.Length)
      modifies this`freeCnt, uev
      ensures Shaped() && (Value(), slot) == Create(old(Value()), e)
    {
      if freeCnt == 0 { return None; }
      freeCnt := freeCnt - 1;
      var i := freeArr[freeCnt];
      uev[i] := Slot(1, Some(e.(fdActive := false, timerArmed := false, pendingFree := false, queued := false)));
      assert freeArr[..freeCnt] == old(freeArr[..freeCnt])[..freeCnt];
      return Some(i);
    }

    /** uevent_ref */
    method RefMethod(i: nat)
      requires Shaped() && i < uev.Length
      modifies uev
      ensures Shaped() && Value() == Ref(old(Value()), i)
    {
      uev[i] := uev[i].(count := uev[i].count + 1);
    }

    /** uevent_put; the last reference destroys the event and returns the slot. */
    method PutMethod(i: nat) returns (gone: bool)
      requires Shaped() && i < uev.Length && (uev[i].count == 1 ==> freeCnt < freeArr.Length)
      modifies this`freeCnt, uev, freeArr
      ensures Shaped() && (Value(), gone) == Put(old(Value()), i)
    {
      if uev[i].count == 0 { return false; }
      var ev := uev[i].ev;
      uev[i] := uev[i].(count := uev[i].count - 1);
      if uev[i].count == 0 {
        uev[i] := uev[i].(ev := None);
        if ev.Some? {
          freeArr[freeCnt] := i;
          freeCnt := freeCnt + 1;
          assert freeArr[..freeCnt] == old(freeArr[..freeCnt]) + [i];
        }
        assert uev[..] == old(uev[..])[i := Slot(0, None)];
        return true;
      }
      return false;
    }

    /** uevent_try_ref */
    method TryRefMethod(i: nat) returns (ok: bool)
      requires Shaped() && i < uev.Length
      modifies this`handles, uev
      ensures Shaped() && ok == TryRef(old(Value()), i).Some?
      ensures Value() == if ok then TryRef(old(Value()), i).value else old(Value())
    {
      if uev[i].count == 0 { return false; }
      uev[i] := uev[i].(count := uev[i].count + 1);
      if uev[i].ev.None? || uev[i].ev.value.pendingFree {
        uev[i] := uev[i].(count := uev[i].count - 1);
        assert uev[..] == old(uev[..]);
        return false;
      }
      handles := handles[i := handles[i] + 1];
      return true;
    }

    /** uevent_put of a reference that uevent_try_ref gave */
    method ReleaseMethod(i: nat)
      requires Shaped() && i < uev.Length && handles[i] > 0 && (uev[i].count == 1 ==> freeCnt < freeArr.Length)
      modifies this`handles, this`freeCnt, uev, freeArr
      ensures Shaped() && Value() == Release(old(Value()), i)
    {
      var gone := PutMethod(i);
      handles := handles[i := handles[i] - 1];
    }

    /** insert_fd_to_epoll */
    method InsertFdMethod(i: nat, ok: bool) returns (status: Status)
      requires Shaped() && i < uev.Length && uev[i].ev.Some?
      modifies this`numFd, this`fds, uev
      ensures Shaped() && (Value(), status) == InsertFd(old(Value()), i, ok)
    {
      var was := uev[i].ev.value.fdActive;
      if !ok { return EPOLL; }
      if !was {
        uev[i] := uev[i].(ev := Some(uev[i].ev.value.(fdActive := true)));
        if i != wakeup {
          numFd, fds := numFd + 1, fds + {i};
          RefMethod(i);
        }
      }
      return OK;
    }

    /** insert_timer_to_heap */
    method InsertTimerMethod(i: nat, from: nat, timeout: int)
      requires Shaped() && i < uev.Length && uev[i].ev.Some?
      modifies this`heap, this`numTimers, uev
      ensures Shaped() && Value() == InsertTimer(old(Value()), i, from, timeout)
    {
      var t := if timeout >= 0 then timeout else 0;
      var key := (from + t) % U64;
      if |heap| < uev.Length {
        heap := heap[i := key];
      }
      if !uev[i].ev.value.timerArmed {
        numTimers := numTimers + 1;
        uev[i] := uev[i].(ev := Some(uev[i].ev.value.(timerArmed := true)));
        RefMethod(i);
      }
    }

    /** remove_event_from_epoll */
    method RemoveFdMethod(i: nat)
      requires Shaped() && i < uev.Length && uev[i].ev.Some? && (uev[i].count == 1 ==> freeCnt < freeArr.Length)
      modifies this`numFd, this`fds, this`freeCnt, uev, freeArr
      ensures Shaped() && Value() == RemoveFd(old(Value()), i)
    {
      if !uev[i].ev.value.fdActive { return; }
      uev[i] := uev[i].(ev := Some(uev[i].ev.value.(fdActive := false)));
      if i != wakeup {
        numFd, fds := numFd - 1, fds - {i};
      }
      var gone := PutMethod(i);
    }

    /** remove_event_from_heap */
    method RemoveTimerMethod(i: nat)
      requires Shaped() && i < uev.Length && (uev[i].count == 1 ==> freeCnt < freeArr.Length)
      modifies this`numTimers, this`heap, this`freeCnt, uev, freeArr
      ensures Shaped() && Value() == RemoveTimer(old(Value()), i)
    {
      if uev[i].ev.None? || !uev[i].ev.value.timerArmed { return; }
      uev[i] := uev[i].(ev := Some(uev[i].ev.value.(timerArmed := false)));
      heap, numTimers := heap - {i}, numTimers - 1;
      var gone := PutMethod(i);
    }

    lemma RoomToReturn()
      requires Valid()
      ensures freeCnt < freeArr.Length
    {
      FreeAndLive(Value());
    }

    /** uevent_add */
    method AddMethod(i: nat, now: nat, timeout: int, busy: bool, ok: bool) returns (status: Status)
      requires Valid() && i < uev.Length && i != wakeup
      modifies this, uev, freeArr
      ensures Valid() && (Value(), status) == Add(old(Value()), i, now, timeout, busy, ok)
    {
      ghost var b := Value();
      AddGood(b, i, now, timeout, busy, ok);
      TryRefGood(b, i);
      var held := TryRefMethod(i);
      if !held { return PENDING_FREE; }
      RoomToReturn();
      if busy {
        ReleaseMethod(i);
        return BUSY;
      }
      var t := if timeout == UEV_TIMEOUT_FROM_EVENT then uev[i].ev.value.timeout else timeout;
      status := AddInternalMethod(i, now, t, ok);
      ReleaseMethod(i);
    }

    /** uevent_add_internal_unsafe */
    method AddInternalMethod(i: nat, now: nat, timeout: int, ok: bool) returns (status: Status)
      requires Shaped() && i < uev.Length && uev[i].ev.Some?
      modifies this`numFd, this`fds, this`heap, this`numTimers, uev
      ensures Shaped() && (Value(), status) == AddInternal(old(Value()), i, now, timeout, ok)
    {
      if uev[i].ev.value.pendingFree { return PENDING_FREE; }
      status := OK;
      if uev[i].ev.value.watchesFd {
        status := InsertFdMethod(i, ok);
        if status != OK { return; }
      }
      if uev[i].ev.value.watchesTime || timeout < 0 {
        InsertTimerMethod(i, now, timeout);
      }
    }

    /** uevent_del */
    method DelMethod(i: nat) returns (status: Status)
      requires Valid() && i < uev.Length && i != wakeup
      modifies this, uev, freeArr
      ensures Valid() && (Value(), status) == Del(old(Value()), i)
    {
      ghost var b := Value();
      DelGood(b, i);
      TryRefGood(b, i);
      var held := TryRefMethod(i);
      if !held { return PENDING_FREE; }
      RemoveBoth(i);
      RoomToReturn();
      var gone := PutMethod(i);
      handles := b.handles;
      return OK;
    }

    /** Both removals, under a reference. */
    method RemoveBoth(i: nat)
      requires Valid() && i < uev.Length && i != wakeup && uev[i].ev.Some? && handles[i] > 0
      modifies this, uev, freeArr
      ensures Valid() && Live(RemoveFd(old(Value()), i), i) && Value() == RemoveTimer(RemoveFd(old(Value()), i), i)
    {
      RoomToReturn();
      RemoveFdGood(Value(), i);
      RemoveFdMethod(i);
      RoomToReturn();
      RemoveTimerGood(Value(), i);
      RemoveTimerMethod(i);
    }

    /** uevent_free */
    method FreeMethod(i: nat)
      requires Valid() && i < uev.Length && i != wakeup
      modifies this, uev, freeArr
      ensures Valid() && Value() == Free(old(Value()), i)
    {
      ghost var b := Value();
      FreeGood(b, i);
      if uev[i].count < 1 || uev[i].ev.None? || uev[i].ev.value.pendingFree { return; }
      DelGood(b, i);
      var status := DelMethod(i);
      if uev[i].ev.value.pendingFree { return; }
      RoomToReturn();
      uev[i] := uev[i].(ev := Some(uev[i].ev.value.(pendingFree := true)));
      var gone := PutMethod(i);
    }

    /** dispatch_event_callback with a worker pool, and the accounting of uevent_worker_pool_insert */
    method DispatchMethod(i: nat)
      requires Valid() && i < uev.Length
      modifies this`handles, this`freeCnt, uev, freeArr
      ensures Valid() && Value() == Dispatch(old(Value()), i)
    {
      DispatchGood(Value(), i);
      TryRefGood(Value(), i);
      var held := TryRefMethod(i);
      if !held { return; }
      RoomToReturn();
      ghost var h := Value();
      if !running || uev[i].ev.value.queued {
        ReleaseMethod(i);
        return;
      }
      uev[i] := uev[i].(ev := Some(uev[i].ev.value.(queued := true)), count := uev[i].count + 1);
      assert Value() == Ref(SetEvent(h, i, Ev(h, i).(queued := true)), i);
      ReleaseMethod(i);
    }

    /** finalize_worker_task's accounting */
    method FinishMethod(i: nat)
      requires Valid() && i < uev.Length && uev[i].ev.Some? && uev[i].ev.value.queued
      modifies this`freeCnt, uev, freeArr
      ensures Valid() && Value() == Finish(old(Value()), i)
    {
      FinishGood(Value(), i);
      RoomToReturn();
      uev[i] := uev[i].(ev := Some(uev[i].ev.value.(queued := false)));
      var gone := PutMethod(i);
    }

    /** One turn of uevent_handle_timers for the slot at the top of the heap. */
    method ExpireMethod(i: nat)
      requires Valid() && i in heap
      modifies this, uev, freeArr
      ensures Valid() && Value() == Expire(old(Value()), i)
    {
      ghost var b := Value();
      RearmGood(b, i);
      ExpireGood(b, i);
      RoomToReturn();
      var cron := heap[i];
      heap, numTimers := heap - {i}, numTimers - 1;
      uev[i] := uev[i].(ev := Some(uev[i].ev.value.(timerArmed := false)));
      UnarmGood(b, i);
      var gone := PutMethod(i);
      assert Value() == Unarm(b, i);
      var e := uev[i].ev.value;
      if !e.pendingFree && running && e.persist && e.watchesTime {
        InsertTimerMethod(i, cron, MinTimeout(e.timeout));
      }
      assert Value() == Rearm(b, i);
      DispatchMethod(i);
    }

    /** mh_get_min: a slot with a least deadline, if any timer is armed. */
    method GetMin() returns (min: Option<nat>)
      ensures min.None? <==> heap == map[]
      ensures min.Some? ==> min.value in heap && forall j :: j in heap ==> heap[min.value] <= heap[j]
    {
      if heap == map[] { return None; }
      var i :| i in heap;
      var rest := heap.Keys - {i};
      while rest != {}
        invariant i in heap && rest <= heap.Keys
        invariant forall j :: j in heap && j !in rest ==> heap[i] <= heap[j]
        decreases rest
      {
        var j :| j in rest;
        rest := rest - {j};
        if heap[j] < heap[i] { i := j; }
      }
      return Some(i);
    }

    /**
      uevent_handle_timers at time `now`: nothing when the loop has stopped; else at most 500 turns, each
      on a least timer that is due, and short of 500 only when no timer is due any more.
     */
    method HandleTimers(now: nat) returns (ghost states: seq<Base>, ghost log: seq<nat>)
      requires Valid()
      modifies this, uev, freeArr
      ensures Valid() && IsExpiryPass(states, log, now)
      ensures states[0] == old(Value()) && states[|log|] == Value()
      ensures !old(running) ==> log == []
      ensures |log| <= 500 && (old(running) && |log| < 500 ==> TimerPass.Ended(heap, now))
    {
      states, log := [Value()], [];
      if !running { return; }
      var max := MAX_TURNS;
      while max > 0
        invariant 0 <= max == MAX_TURNS - |log| && Valid() && running
        invariant IsExpiryPass(states, log, now) && states[0] == old(Value()) && states[|log|] == Value()
        modifies this, uev, freeArr
        decreases max
      {
        var min := GetMin();
        if min.None? || heap[min.value] > now { return; }
        ExpireAchieves(Value(), min.value);
        ExpireMethod(min.value);
        ExtendPass(states, log, now, min.value);
        states, log, max := states + [Value()], log + [min.value], max - 1;
      }
    }

    /** The timer part of uevent_base_loopbreak. */
    method LoopBreakMethod()
      requires Valid()
      modifies this, uev, freeArr
      ensures Valid() && Value() == LoopBreak(old(Value()))
      ensures !running && heap == map[]
    {
      ghost var b0 := Value().(running := false);
      StopGood(Value());
      running := false;
      while heap != map[]
        invariant Valid() && Unarmed(b0, Value())
        decreases |heap|
      {
        var min := GetMin();
        UnarmMethod(min.value, b0);
      }
      UnarmedFully(b0, Value());
    }

    /** One turn of uevent_base_loopbreak's loop. */
    method UnarmMethod(i: nat, ghost b0: Base)
      requires Valid() && i in heap && Good(b0) && Unarmed(b0, Value())
      modifies this, uev, freeArr
      ensures Valid() && Unarmed(b0, Value()) && heap == old(heap) - {i} && |heap| < |old(heap)|
    {
      UnarmedStep(b0, Value(), i);
      UnarmGood(Value(), i);
      TakeTimer(i);
    }

    /** The timer is taken out of the heap and its reference given back. */
    method TakeTimer(i: nat)
      requires Valid() && i in heap && Live(Value(), i) && Good(Unarm(Value(), i))
      modifies this, uev, freeArr
      ensures Valid() && Value() == Unarm(old(Value()), i)
    {
      RoomToReturn();
      heap, numTimers := heap - {i}, numTimers - 1;
      uev[i] := uev[i].(ev := Some(uev[i].ev.value.(timerArmed := false)));
      var gone := PutMethod(i);
    }
  }

  /** Successive turns of the expiry loop, each on a least timer that is due. */
  ghost predicate IsExpiryPass(states: seq<Base>, log: seq<nat>, now: nat) {
    && |states| == |log| + 1
    && forall n: nat :: n < |log| ==> ExpiryAt(states[n], states[n + 1], log[n], now)
  }

  ghost predicate ExpiryAt(b: Base, b': Base, i: nat, now: nat) {
    Good(b) && b.running && Enabled(b, ExpireOp(i, now)) && b' == Expire(b, i)
  }

  lemma ExtendPass(states: seq<Base>, log: seq<nat>, now: nat, i: nat)
    requires IsExpiryPass(states, log, now)
    requires Good(states[|log|]) && states[|log|].running && Enabled(states[|log|], ExpireOp(i, now))
    ensures IsExpiryPass(states + [Expire(states[|log|], i)], log + [i], now)
  {
    var states', log' := states + [Expire(states[|log|], i)], log + [i];
    forall n: nat | n < |log'| ensures ExpiryAt(states'[n], states'[n + 1], log'[n], now) {
      assert n < |log| ==> ExpiryAt(states[n], states[n + 1], log[n], now);
    }
  }

  /** The timers that re-arm themselves, with their periods. */
  ghost function Periods(b: Base): map<nat, nat> {
    map i | i in UpTo(|b.slots|) && Live(b, i) && Ev(b, i).persist && Ev(b, i).watchesTime ::
      MinTimeout(Ev(b, i).timeout)
  }

  /** A timer re-arms itself when it is a persistent timer: by its timeout, or by one millisecond if that is less. */
  lemma PeriodsAre(b: Base, i: nat)
    ensures i in Periods(b) <==> Live(b, i) && Ev(b, i).persist && Ev(b, i).watchesTime
    ensures i in Periods(b) ==> Periods(b)[i] == if Ev(b, i).timeout >= 1 then Ev(b, i).timeout else 1
  {
    UpToSize(|b.slots|);
  }

  /** No deadline reckoned in a pass at `now` overflows 64 bits. */
  ghost predicate ClockFits(b: Base, now: nat) {
    forall i :: i in Periods(b) ==> now + Periods(b)[i] < U64
  }

  lemma PeriodsStay(b: Base, b': Base, i: nat, now: nat)
    requires ExpiryAt(b, b', i, now)
    ensures Periods(b') == Periods(b) && b'.running
  {
    ExpireAchieves(b, i);
    forall j: nat | j < |b.slots| ensures SamePeriod(b.slots[j], b'.slots[j]) {
      assert j != i ==> b'.slots[j] == b.slots[j];
    }
    SamePeriods(b, b');
  }

  predicate SamePeriod(s: Slot, s': Slot) {
    match (s.ev, s'.ev)
    case (None, None) => true
    case (Some(e), Some(e')) => e'.persist == e.persist && e'.watchesTime == e.watchesTime && e'.timeout == e.timeout
    case _ => false
  }

  lemma SamePeriods(b: Base, b': Base)
    requires |b.slots| == |b'.slots| && forall j: nat :: j < |b.slots| ==> SamePeriod(b.slots[j], b'.slots[j])
    ensures Periods(b') == Periods(b)
  {
    UpToSize(|b.slots|);
    assert forall j: nat :: j < |b.slots| ==> SamePeriod(b.slots[j], b'.slots[j]);
  }

  /** A pass over the loop's state is a pass over its heap, to which ExpiresExactly, InOrder and BacklogFalls apply. */
  lemma PassIsPass(states: seq<Base>, log: seq<nat>, now: nat, n: nat)
    requires IsExpiryPass(states, log, now) && ClockFits(states[0], now) && n <= |log| && Good(states[0])
    ensures TimerPass.IsPass(HeapsOf(states[..n + 1]), log[..n], Periods(states[0]), now)
    ensures Periods(states[n]) == Periods(states[0])
  {
    UpToSize(|states[0].slots|);
    if n > 0 {
      PassIsPass(states, log, now, n - 1);
      var b, b', i := states[n - 1], states[n], log[n - 1];
      assert ExpiryAt(b, b', i, now);
      PeriodsStay(b, b', i, now);
      ExpireAchieves(b, i);
      TurnIsTurn(b, b', i, now);
      var heaps, log' := HeapsOf(states[..n + 1]), log[..n];
      forall k: nat | k < n ensures TimerPass.TurnAt(heaps, log', Periods(states[0]), now, k) {
        assert k < n - 1 ==> TimerPass.TurnAt(HeapsOf(states[..n]), log[..n - 1], Periods(states[0]), now, k);
      }
    }
  }

  ghost function HeapsOf(states: seq<Base>): seq<map<nat, nat>> {
    seq(|states|, n requires 0 <= n < |states| => states[n].heap)
  }

  lemma TurnIsTurn(b: Base, b': Base, i: nat, now: nat)
    requires ExpiryAt(b, b', i, now) && ClockFits(b, now)
    ensures TimerPass.Due(b.heap, now, i) && b'.heap == TimerPass.Turn(b.heap, Periods(b), i)
  {
    ExpireHeap(b, i);
    HeapTurn(b, b'.heap, i, now);
  }

  lemma HeapTurn(b: Base, heap: map<nat, nat>, i: nat, now: nat)
    requires Live(b, i) && i in b.heap && b.heap[i] <= now && ClockFits(b, now)
    requires var e := Ev(b, i);
      var d := Deadline(b.heap[i], MinTimeout(e.timeout));
      heap == if e.persist && e.watchesTime then b.heap[i := d] else b.heap - {i}
    ensures heap == TimerPass.Turn(b.heap, Periods(b), i)
  {
    UpToSize(|b.slots|);
    assert i in Periods(b) <==> Ev(b, i).persist && Ev(b, i).watchesTime;
  }
}
