/** The calls and handler turns of the event loop, and what holds after any sequence of them. */
module EventSteps {
  import opened Common
  import opened EventBase

  // ---------- the interface calls ----------

  /** uevent_create_or_assign_event: the new event's slot, or None when no slot is free. */
  function Create(b: Base, e: Event): (r: (Base, Option<nat>))
    requires b.free == [] || b.free[|b.free| - 1] < |b.slots|
    ensures |r.0.slots| == |b.slots|
  {
    if b.free == [] then (b, None)
    else
      var i := b.free[|b.free| - 1];
      var fresh_ := e.(fdActive := false, timerArmed := false, pendingFree := false, queued := false);
      (SetSlot(b, i, Slot(1, Some(fresh_))).(free := b.free[..|b.free| - 1]), Some(i))
  }

  /** uevent_add_internal_unsafe */
  function AddInternal(b: Base, i: nat, now: nat, timeout: int, ok: bool): (r: (Base, Status))
    requires Live(b, i)
    ensures Live(r.0, i) && |r.0.slots| == |b.slots| && r.0.handles == b.handles
  {
    if Ev(b, i).pendingFree then (b, PENDING_FREE)
    else
      var (b1, status) := if Ev(b, i).watchesFd then InsertFd(b, i, ok) else (b, OK);
      if status != OK then (b1, status)
      else if Ev(b, i).watchesTime || timeout < 0 then (InsertTimer(b1, i, now, timeout), OK)
      else (b1, OK)
  }

  /** uevent_add; `busy` tells whether the event's modification lock was taken, `ok` is epoll_ctl's answer. */
  function Add(b: Base, i: nat, now: nat, timeout: int, busy: bool, ok: bool): (r: (Base, Status))
    requires Good(b)
    ensures |r.0.slots| == |b.slots|
  {
    TryRefGood(b, i);
    var held := TryRef(b, i);
    if held.None? then (b, PENDING_FREE)
    else if busy then (Release(held.value, i), BUSY)
    else
      var t := if timeout == UEV_TIMEOUT_FROM_EVENT then Ev(held.value, i).timeout else timeout;
      var (b1, status) := AddInternal(held.value, i, now, t, ok);
      (Release(b1, i), status)
  }

  /** uevent_del */
  function Del(b: Base, i: nat): (r: (Base, Status))
    requires Good(b)
    ensures |r.0.slots| == |b.slots|
  {
    TryRefGood(b, i);
    var held := TryRef(b, i);
    if held.None? then (b, PENDING_FREE)
    else (Put(RemoveTimer(RemoveFd(held.value, i), i), i).0.(handles := b.handles), OK)
  }

  /** uevent_free */
  function Free(b: Base, i: nat): (r: Base)
    requires Good(b)
    ensures |r.slots| == |b.slots|
  {
    if !Live(b, i) || b.slots[i].count < 1 || Ev(b, i).pendingFree then b
    else
      var b1 := Del(b, i).0;
      if b1.slots[i].ev.None? then Put(b1, i).0
      else if Ev(b1, i).pendingFree then b1
      else MarkFreed(b1, i)
  }

  /** The close of uevent_free: pending_free is set and the owner's reference dropped. */
  function MarkFreed(b: Base, i: nat): (r: Base)
    requires Live(b, i)
    ensures |r.slots| == |b.slots|
  {
    Put(SetEvent(b, i, Ev(b, i).(pendingFree := true)), i).0
  }

  /** uevent_set_timeout */
  function SetTimeout(b: Base, i: nat, timeout: int): (r: Base)
    requires Good(b)
    ensures |r.slots| == |b.slots|
  {
    TryRefGood(b, i);
    var held := TryRef(b, i);
    if held.None? then b
    else Release(SetEvent(held.value, i, Ev(held.value, i).(timeout := timeout)), i)
  }

  // ---------- the loop's turns ----------

  /** uevent_handle_ev_cb with a worker pool: queues a task unless one is outstanding or the loop has stopped. */
  function Dispatch(b: Base, i: nat): (r: Base)
    requires Good(b)
    ensures |r.slots| == |b.slots|
  {
    TryRefGood(b, i);
    var held := TryRef(b, i);
    if held.None? then b
    else if !b.running || Ev(b, i).queued then Release(held.value, i)
    else Release(Ref(SetEvent(held.value, i, Ev(b, i).(queued := true)), i), i)
  }

  /** get_min_timeout_internal */
  function MinTimeout(timeout: int): int { if timeout < 1 then 1 else timeout }

  /** What one turn of uevent_handle_timers does to the heap and the event, before the callback. */
  function Rearm(b: Base, i: nat): (r: Base)
    requires Live(b, i) && i in b.heap
    ensures |r.slots| == |b.slots|
  {
    var cron, e := b.heap[i], Ev(b, i);
    var b1 := SetEvent(b, i, e.(timerArmed := false)).(heap := b.heap - {i}, numTimers := b.numTimers - 1);
    var (b2, gone) := Put(b1, i);
    if gone || b2.slots[i].ev.None? || e.pendingFree || !b.running || !(e.persist && e.watchesTime) then b2
    else InsertTimer(b2, i, cron, MinTimeout(e.timeout))
  }

  /** One turn of uevent_base_loopbreak's loop. */
  function Unarm(b: Base, i: nat): (r: Base)
    requires Live(b, i) && i in b.heap
    ensures |r.slots| == |b.slots|
  {
    Put(SetEvent(b, i, Ev(b, i).(timerArmed := false)).(heap := b.heap - {i}, numTimers := b.numTimers - 1), i).0
  }

  lemma UnarmGood(b: Base, i: nat)
    requires Good(b) && i in b.heap
    ensures Live(b, i) && Good(Unarm(b, i)) && Live(Unarm(b, i), i)
    ensures Unarm(b, i).heap == b.heap - {i} && Unarm(b, i).handles == b.handles
    ensures Ev(Unarm(b, i), i) == Ev(b, i).(timerArmed := false)
    ensures Unarm(b, i)
         == b.(slots := b.slots[i := Unarm(b, i).slots[i]], heap := b.heap - {i}, numTimers := b.numTimers - 1)
  {
    assert SlotGood(b, i);
    UnarmTouches(b, i);
    GoodAfter(b, Unarm(b, i), i);
  }

  lemma UnarmTouches(b: Base, i: nat)
    requires Good(b) && i in b.heap && Live(b, i) && SlotGood(b, i)
    ensures Touches(b, Unarm(b, i), i) && SlotGood(Unarm(b, i), i)
  {
    assert b.heap - {i} - {i} == b.heap - {i};
  }

  lemma RearmGood(b: Base, i: nat)
    requires Good(b) && i in b.heap
    ensures Live(b, i) && Good(Rearm(b, i)) && Live(Rearm(b, i), i)
  {
    UnarmGood(b, i);
    var e, b2 := Ev(b, i), Unarm(b, i);
    if !e.pendingFree && b.running && e.persist && e.watchesTime {
      InsertTimerGood(b2, i, b.heap[i], MinTimeout(e.timeout));
    }
  }

  /** One turn of uevent_handle_timers, for the slot it extracts. */
  function Expire(b: Base, i: nat): (r: Base)
    requires Good(b) && i in b.heap
    ensures |r.slots| == |b.slots|
  {
    RearmGood(b, i);
    Dispatch(Rearm(b, i), i)
  }

  /** One turn of uevent_handle_epoll, for an event that polled. */
  function Fire(b: Base, i: nat): (r: Base)
    requires Good(b) && Live(b, i)
    ensures |r.slots| == |b.slots|
  {
    if !Ev(b, i).fdActive then b
    else
      DispatchGood(b, i);
      var b1 := Dispatch(b, i);
      if Ev(b, i).persist then b1 else Del(b1, i).0
  }

  /** finalize_worker_task, or a task discarded by the pool. */
  function Finish(b: Base, i: nat): (r: Base)
    requires Live(b, i)
    ensures |r.slots| == |b.slots|
  {
    Put(SetEvent(b, i, Ev(b, i).(queued := false)), i).0
  }

  lemma DispatchGood(b: Base, i: nat)
    requires Good(b)
    ensures Good(Dispatch(b, i)) && Dispatch(b, i).handles == b.handles
    ensures Live(b, i) ==> Live(Dispatch(b, i), i)
    ensures Live(b, i) ==>
          Ev(Dispatch(b, i), i) == Ev(b, i).(queued := Ev(b, i).queued || (b.running && !Ev(b, i).pendingFree))
  {
    TryRefGood(b, i);
    var held := TryRef(b, i);
    if held.Some? {
      assert SlotGood(b, i);
      if !b.running || Ev(b, i).queued {
        ReleaseGood(held.value, i);
      } else {
        HandOver(b, i);
      }
    }
  }

  /** The event's task takes a reference of its own before the loop gives up the one it held meanwhile. */
  lemma HandOver(b: Base, i: nat)
    requires Good(b) && TryRef(b, i).Some? && !Ev(b, i).queued
    ensures var held := TryRef(b, i).value;
      var b1 := Ref(SetEvent(held, i, Ev(b, i).(queued := true)), i);
      && Live(b, i) && Good(b1) && Good(Release(b1, i)) && Release(b1, i).handles == b.handles
      && Live(Release(b1, i), i) && Ev(Release(b1, i), i) == Ev(b, i).(queued := true)
  {
    TryRefGood(b, i);
    QueueGood(TryRef(b, i).value, i);
    assert b.handles[i := b.handles[i] + 1][i := b.handles[i]] == b.handles;
  }

  lemma QueueGood(b: Base, i: nat)
    requires Good(b) && Live(b, i) && !Ev(b, i).queued && b.handles[i] > 0
    ensures var b1 := Ref(SetEvent(b, i, Ev(b, i).(queued := true)), i);
      && Good(b1) && Good(Release(b1, i)) && Release(b1, i).handles == b.handles[i := b.handles[i] - 1]
      && Live(Release(b1, i), i) && Ev(Release(b1, i), i) == Ev(b, i).(queued := true)
  {
    assert SlotGood(b, i);
    var b1 := Ref(SetEvent(b, i, Ev(b, i).(queued := true)), i);
    GoodAfter(b, b1, i);
    ReleaseGood(b1, i);
  }

  // ---------- every step keeps Good ----------

  lemma CreateGood(b: Base, e: Event)
    requires Good(b)
    ensures Good(Create(b, e).0)
    ensures Create(b, e).1.None? <==> forall i: nat :: i < |b.slots| ==> Live(b, i)
    ensures Create(b, e).1.Some? ==> !Live(b, Create(b, e).1.value) && Live(Create(b, e).0, Create(b, e).1.value)
  {
    if b.free != [] {
      CreateSlots(b, e);
    }
  }

  lemma CreateSlots(b: Base, e: Event)
    requires Good(b) && b.free != []
    ensures var i, b' := b.free[|b.free| - 1], Create(b, e).0;
      && SlotGood(b, i) && !Live(b, i) && |b'.slots| == |b'.handles|
      && forall j: nat :: j < |b'.slots| ==> SlotGood(b', j) && (b'.slots[j].ev.None? ==> j in b'.free)
  {
    var i, b' := b.free[|b.free| - 1], Create(b, e).0;
    assert SlotGood(b, i) && !Live(b, i);
    forall j: nat | j < |b'.slots| ensures SlotGood(b', j) && (b'.slots[j].ev.None? ==> j in b'.free) {
      assert SlotGood(b, j);
      if b'.slots[j].ev.None? {
        var k :| 0 <= k < |b.free| && b.free[k] == j;
        assert b'.free[k] == j;
      }
    }
  }

  lemma AddInternalGood(b: Base, i: nat, now: nat, timeout: int, ok: bool)
    requires Good(b) && Live(b, i) && i != b.wakeup && !Ev(b, i).pendingFree
    ensures var b' := AddInternal(b, i, now, timeout, ok).0; Good(b') && Live(b', i) && b'.handles == b.handles
  {
    InsertFdGood(b, i, ok);
    var b1 := if Ev(b, i).watchesFd then InsertFd(b, i, ok).0 else b;
    InsertTimerGood(b1, i, now, timeout);
  }

  lemma AddGood(b: Base, i: nat, now: nat, timeout: int, busy: bool, ok: bool)
    requires Good(b) && i != b.wakeup
    ensures Good(Add(b, i, now, timeout, busy, ok).0)
  {
    TryRefGood(b, i);
    var held := TryRef(b, i);
    if held.Some? {
      if busy {
        ReleaseGood(held.value, i);
      } else {
        var t := if timeout == UEV_TIMEOUT_FROM_EVENT then Ev(held.value, i).timeout else timeout;
        AddInternalGood(held.value, i, now, t, ok);
        ReleaseGood(AddInternal(held.value, i, now, t, ok).0, i);
      }
    }
  }

  /** After uevent_del the event is neither registered nor armed, and lives on. */
  lemma DelGood(b: Base, i: nat)
    requires Good(b) && i != b.wakeup
    ensures var b' := Del(b, i).0;
      Good(b') && (Live(b, i) && !Ev(b, i).pendingFree ==>
        Live(b', i) && b'.handles == b.handles && Ev(b', i) == Ev(b, i).(fdActive := false, timerArmed := false))
  {
    TryRefGood(b, i);
    var held := TryRef(b, i);
    if held.Some? {
      assert SlotGood(b, i);
      RemoveFdGood(held.value, i);
      var b1 := RemoveFd(held.value, i);
      RemoveTimerGood(b1, i);
      ReleaseDel(b, RemoveTimer(b1, i), i);
    }
  }

  lemma ReleaseDel(b: Base, b2: Base, i: nat)
    requires Good(b) && TryRef(b, i).Some? && Good(b2) && b2.handles == TryRef(b, i).value.handles
    requires Live(b2, i) && !Ev(b2, i).pendingFree
    ensures var b3 := Put(b2, i).0.(handles := b.handles); Good(b3) && Live(b3, i) && Ev(b3, i) == Ev(b2, i)
  {
    assert SlotGood(b2, i);
    ReleaseGood(b2, i);
    assert Release(b2, i).handles == b.handles;
  }

  /** A reference given up by its owner is like a handle released. */
  lemma GiveUp(b: Base, i: nat, e: Event)
    requires Good(b) && Live(b, i) && i != b.wakeup
    requires References(e, false, b.handles[i]) == References(Ev(b, i), false, b.handles[i]) - 1
    requires e.pendingFree ==> !e.timerArmed && !e.fdActive
    requires e.timerArmed == Ev(b, i).timerArmed && e.fdActive == Ev(b, i).fdActive
    ensures Good(Put(SetEvent(b, i, e), i).0)
    ensures Live(Put(SetEvent(b, i, e), i).0, i) <==> References(e, false, b.handles[i]) > 0
  {
    var lent := SetEvent(b, i, e).(handles := b.handles[i := b.handles[i] + 1]);
    assert SlotGood(b, i);
    GoodAfter(b, lent, i);
    ReleaseGood(lent, i);
    assert Release(lent, i).handles == b.handles;
  }

  lemma MarkFreedGood(b: Base, i: nat)
    requires Good(b) && Live(b, i) && i != b.wakeup
    requires !Ev(b, i).pendingFree && !Ev(b, i).fdActive && !Ev(b, i).timerArmed
    ensures Good(MarkFreed(b, i))
    ensures Live(MarkFreed(b, i), i) <==> Ev(b, i).queued || b.handles[i] > 0
    ensures Live(MarkFreed(b, i), i) ==> Ev(MarkFreed(b, i), i) == Ev(b, i).(pendingFree := true)
  {
    GiveUp(b, i, Ev(b, i).(pendingFree := true));
  }

  /** uevent_free of a user's event: afterwards it is gone, or only tasks and holders still keep it. */
  lemma FreeGood(b: Base, i: nat)
    requires Good(b) && i != b.wakeup
    ensures Good(Free(b, i))
    ensures Live(Free(b, i), i) ==> var e := Ev(Free(b, i), i); e.pendingFree && !e.fdActive && !e.timerArmed
    ensures Live(b, i) && !Ev(b, i).pendingFree ==> (Live(Free(b, i), i) <==> Ev(b, i).queued || b.handles[i] > 0)
  {
    if Live(b, i) && !Ev(b, i).pendingFree {
      FreeMarksGood(b, Free(b, i), i);
    } else {
      FreeIgnored(b, i);
    }
  }

  lemma FreeMarksGood(b: Base, b': Base, i: nat)
    requires Good(b) && i != b.wakeup && Live(b, i) && !Ev(b, i).pendingFree && b' == Free(b, i)
    ensures Good(b')
    ensures Live(b', i) ==> var e := Ev(b', i); e.pendingFree && !e.fdActive && !e.timerArmed
    ensures Live(b', i) <==> Ev(b, i).queued || b.handles[i] > 0
  {
    FreeMarks(b, i);
    DelGood(b, i);
    MarksGood(b, Del(b, i).0, b', i);
  }

  lemma MarksGood(b: Base, b1: Base, b': Base, i: nat)
    requires Good(b1) && i != b1.wakeup && Live(b, i) && !Ev(b, i).pendingFree && Live(b1, i)
    requires b1.handles == b.handles && Ev(b1, i) == Ev(b, i).(fdActive := false, timerArmed := false)
    requires i < |b.handles| && b' == MarkFreed(b1, i)
    ensures Good(b')
    ensures Live(b', i) ==> var e := Ev(b', i); e.pendingFree && !e.fdActive && !e.timerArmed
    ensures Live(b', i) <==> Ev(b, i).queued || b.handles[i] > 0
  {
    MarkFreedGood(b1, i);
  }

  lemma FreeIgnored(b: Base, i: nat)
    requires Good(b) && i != b.wakeup && (!Live(b, i) || Ev(b, i).pendingFree)
    ensures Free(b, i) == b
    ensures Live(b, i) ==> !Ev(b, i).fdActive && !Ev(b, i).timerArmed
  {
    if Live(b, i) { assert SlotGood(b, i); }
  }

  /** Freeing an event that is not freed yet is a removal and then the mark. */
  lemma FreeMarks(b: Base, i: nat)
    requires Good(b) && i != b.wakeup && Live(b, i) && !Ev(b, i).pendingFree
    ensures Live(Del(b, i).0, i) && Free(b, i) == MarkFreed(Del(b, i).0, i)
    ensures Del(b, i).0.wakeup == b.wakeup && i < |b.handles|
  {
    assert SlotGood(b, i);
    DelGood(b, i);
  }

  lemma SetTimeoutGood(b: Base, i: nat, timeout: int)
    requires Good(b)
    ensures Good(SetTimeout(b, i, timeout))
  {
    TryRefGood(b, i);
    var held := TryRef(b, i);
    if held.Some? {
      assert SlotGood(b, i);
      var b1 := SetEvent(held.value, i, Ev(held.value, i).(timeout := timeout));
      GoodAfter(held.value, b1, i);
      ReleaseGood(b1, i);
    }
  }

  /** uevent_set_timeout: a live event has the new timeout from then on, and nothing else changes. */
  lemma SetTimeoutAchieves(b: Base, i: nat, timeout: int)
    requires Good(b)
    ensures var b' := SetTimeout(b, i, timeout);
      if Live(b, i) && !Ev(b, i).pendingFree then
        && Live(b', i) && Ev(b', i) == Ev(b, i).(timeout := timeout)
        && b' == b.(slots := b.slots[i := b.slots[i].(ev := b'.slots[i].ev)])
      else b' == b
  {
    TryRefGood(b, i);
    var held := TryRef(b, i);
    if held.Some? {
      assert SlotGood(b, i);
      assert b.handles[i := b.handles[i] + 1][i := b.handles[i]] == b.handles;
    }
  }

  lemma ExpireGood(b: Base, i: nat)
    requires Good(b) && i in b.heap
    ensures Good(Expire(b, i))
  {
    RearmGood(b, i);
    DispatchGood(Rearm(b, i), i);
  }

  lemma FireGood(b: Base, i: nat)
    requires Good(b) && Live(b, i) && (i == b.wakeup ==> Ev(b, i).persist)
    ensures Good(Fire(b, i))
  {
    DispatchGood(b, i);
    if i != b.wakeup {
      DelGood(Dispatch(b, i), i);
    }
  }

  lemma FinishGood(b: Base, i: nat)
    requires Good(b) && Live(b, i) && Ev(b, i).queued
    ensures Good(Finish(b, i))
  {
    assert SlotGood(b, i);
    var e := Ev(b, i).(queued := false);
    if i == b.wakeup {
      GoodAfter(b, Finish(b, i), i);
    } else {
      GiveUp(b, i, e);
    }
  }

  // ---------- what the steps achieve ----------

  /** uevent_put says that the event is gone exactly when it was, and then its slot is on top of the stack. */
  lemma PutTells(b: Base, i: nat)
    requires Good(b) && Live(b, i)
    ensures var (b', gone) := Put(b, i);
      && (gone <==> !Live(b', i)) && (gone <==> b.slots[i].count == 1)
      && b'.slots[i].count == b.slots[i].count - 1 && b'.free == (if gone then b.free + [i] else b.free)
      && (!gone ==> Ev(b', i) == Ev(b, i))
  {
    assert SlotGood(b, i);
  }

  /** A reference taken by uevent_try_ref and put again leaves the base as it was. */
  lemma HoldThenRelease(b: Base, i: nat)
    requires Good(b) && Live(b, i) && !Ev(b, i).pendingFree
    ensures var b' := Apply(b, HoldOp(i));
      && i < |b'.slots| == |b'.handles| && b'.slots[i].count == b.slots[i].count + 1 && Live(b', i)
      && b'.handles == b.handles[i := b.handles[i] + 1] && Enabled(b', ReleaseOp(i))
      && Apply(b', ReleaseOp(i)) == b
  {
    TryRefGood(b, i);
    assert SlotGood(b, i);
    assert b.handles[i := b.handles[i] + 1][i := b.handles[i]] == b.handles;
  }

  /** The loop runs from uevent_base_dispatch until a loopbreak, which every live event survives, disarmed. */
  lemma StartThenBreak(b: Base)
    requires Good(b)
    ensures Apply(b, StartOp).running && Apply(b, StartOp) == b.(running := Apply(b, StartOp).running)
    ensures var b' := Apply(Apply(b, StartOp), BreakOp);
      !b'.running && b'.heap == map[] && b'.fds == b.fds && forall i: nat :: Live(b, i) ==> Live(b', i)
  {
    StopGood(b);
    LoopBreakAchieves(b.(running := true));
  }

  /** Nothing but slot `i`, its timer and its registration changed. */
  ghost predicate OnlyAt(b: Base, b': Base, i: nat) {
    && |b'.slots| == |b.slots| && (forall j: nat :: j < |b.slots| && j != i ==> b'.slots[j] == b.slots[j])
    && (forall j: nat :: j != i ==> (j in b'.heap <==> j in b.heap) && (j in b.heap ==> b'.heap[j] == b.heap[j]))
    && (forall j: nat :: j != i ==> (j in b'.fds <==> j in b.fds))
    && b'.handles == b.handles && b'.wakeup == b.wakeup && b'.running == b.running
  }

  /**
    uevent_add.  Refused, it changes nothing.  Otherwise a watched descriptor is registered, and the
    timer is armed, or re-armed, for the given deadline when the event watches time or is to fire now;
    re-arming takes no second reference.
   */
  lemma AddAchieves(b: Base, i: nat, now: nat, timeout: int, busy: bool, ok: bool)
    requires Good(b) && i != b.wakeup
    ensures var (b', status) := Add(b, i, now, timeout, busy, ok);
      && OnlyAt(b, b', i)
      && (status == PENDING_FREE <==> !Live(b, i) || Ev(b, i).pendingFree)
      && (status != OK ==> b' == b)
      && (Live(b, i) && !Ev(b, i).pendingFree ==>
            (status == BUSY <==> busy) && (status == EPOLL <==> !busy && Ev(b, i).watchesFd && !ok))
      && (status == OK ==>
            Live(b, i) && Live(b', i) &&
            var e, e' := Ev(b, i), Ev(b', i);
            var t := if timeout == -2 then e.timeout else timeout;  // UEV_TIMEOUT_FROM_EVENT
            && e' == e.(fdActive := e.fdActive || e.watchesFd, timerArmed := e.timerArmed || e.watchesTime || t < 0)
            && (e.watchesTime || t < 0 ==> i in b'.heap && b'.heap[i] == Deadline(now, t))
            && (!e.watchesTime && t >= 0 && i in b.heap ==> i in b'.heap && b'.heap[i] == b.heap[i]))
  {
    TryRefGood(b, i);
    var held := TryRef(b, i);
    if held.Some? {
      var h := held.value;
      if busy {
        Borrowed(b, h, i);
      } else {
        var t := if timeout == UEV_TIMEOUT_FROM_EVENT then Ev(h, i).timeout else timeout;
        AddInternalGood(h, i, now, t, ok);
        AddInternalAchieves(h, i, now, t, ok);
        Borrowed(b, AddInternal(h, i, now, t, ok).0, i);
      }
    }
  }

  /** An add that arms does so for `t` milliseconds from now, and for now itself when t is zero or less. */
  lemma AddArms(b: Base, i: nat, now: nat, timeout: int, busy: bool, ok: bool)
    requires Good(b) && i != b.wakeup && Add(b, i, now, timeout, busy, ok).1 == OK && now < U64
    ensures Live(b, i)
    ensures var t, b' := if timeout == -2 then Ev(b, i).timeout else timeout, Add(b, i, now, timeout, busy, ok).0;
      && (t < 0 || (t == 0 && Ev(b, i).watchesTime) ==> i in b'.heap && b'.heap[i] == now)
      && (t > 0 && Ev(b, i).watchesTime && now + t < U64 ==> i in b'.heap && b'.heap[i] == now + t)
  {
    AddAchieves(b, i, now, timeout, busy, ok);
    FirstDeadline(now, if timeout == -2 then Ev(b, i).timeout else timeout);
  }

  lemma FirstDeadline(now: nat, t: int)
    requires now < U64
    ensures t <= 0 ==> Deadline(now, t) == now
    ensures t > 0 && now + t < U64 ==> Deadline(now, t) == now + t
  {
  }

  /** Taking a reference around a change that keeps the event alive leaves just the change. */
  lemma Borrowed(b: Base, b1: Base, i: nat)
    requires Good(b) && TryRef(b, i).Some? && Good(b1) && OnlyAt(TryRef(b, i).value, b1, i)
    requires Live(b1, i) && !Ev(b1, i).pendingFree
    ensures i < |b1.slots| == |b1.handles| && b1.handles[i] > 0
    ensures var b2 := Release(b1, i);
      && OnlyAt(b, b2, i) && Live(b2, i) && Ev(b2, i) == Ev(b1, i) && b2.heap == b1.heap
      && (b1 == TryRef(b, i).value ==> b2 == b)
  {
    assert SlotGood(b1, i);
    ReleaseGood(b1, i);
    assert b.handles[i := b.handles[i] + 1][i := b.handles[i]] == b.handles;
  }

  lemma AddInternalAchieves(b: Base, i: nat, now: nat, t: int, ok: bool)
    requires Good(b) && Live(b, i) && i != b.wakeup && !Ev(b, i).pendingFree
    ensures var (b', status) := AddInternal(b, i, now, t, ok);
      var e, e' := Ev(b, i), Ev(b', i);
      && OnlyAt(b, b', i)
      && (if e.watchesFd && !ok then status == EPOLL && b' == b else
            && status == OK
            && e' == e.(fdActive := e.fdActive || e.watchesFd, timerArmed := e.timerArmed || e.watchesTime || t < 0)
            && (e.watchesTime || t < 0 ==> i in b'.heap && b'.heap[i] == Deadline(now, t))
            && (!e.watchesTime && t >= 0 ==> b'.heap == b.heap))
  {
    if Ev(b, i).watchesFd {
      InsertFdGood(b, i, ok);
      InsertFdAchieves(b, i, ok);
      InsertTimerAchieves(InsertFd(b, i, ok).0, i, now, t);
    } else {
      InsertTimerAchieves(b, i, now, t);
    }
  }

  lemma InsertFdAchieves(b: Base, i: nat, ok: bool)
    requires Live(b, i) && i != b.wakeup
    ensures var (b', status) := InsertFd(b, i, ok);
      && OnlyAt(b, b', i) && b'.heap == b.heap
      && (if ok then status == OK && Ev(b', i) == Ev(b, i).(fdActive := true) else status == EPOLL && b' == b)
  {
  }

  lemma InsertTimerAchieves(b: Base, i: nat, from: nat, timeout: int)
    requires Good(b) && Live(b, i) && i != b.wakeup
    ensures var b' := InsertTimer(b, i, from, timeout);
      && OnlyAt(b, b', i) && b'.heap == b.heap[i := Deadline(from, timeout)]
      && Ev(b', i) == Ev(b, i).(timerArmed := true)
  {
    HeapNeverFull(b);
  }

  /** A created event gets the slot most recently returned, one reference, and a clean state. */
  lemma CreateAchieves(b: Base, e: Event)
    requires Good(b) && b.free != []
    ensures var (b', slot) := Create(b, e);
      && slot == Some(b.free[|b.free| - 1]) && b.free == b'.free + [slot.value] && OnlyAt(b, b', slot.value)
      && b'.slots[slot.value].count == 1
      && var f := Ev(b', slot.value);
         !f.fdActive && !f.timerArmed && !f.pendingFree && !f.queued && f.watchesFd == e.watchesFd
           && f.watchesTime == e.watchesTime && f.persist == e.persist && f.timeout == e.timeout
  {
  }

  /**
    The slot whose last reference was dropped most recently is the
    next one used, with nothing left of its old event.
   */
  lemma CreateReuses(b: Base, i: nat, e: Event)
    requires Good(b) && i != b.wakeup && Live(b, i) && b.handles[i] == 1 && b.slots[i].count == 1
    ensures var b1 := Release(b, i);
      && !Live(b1, i) && Create(b1, e).1 == Some(i) && Create(b1, e).0.free == b.free
      && Create(b1, e).0.slots[i].count == 1
      && Ev(Create(b1, e).0, i) == e.(fdActive := false, timerArmed := false, pendingFree := false, queued := false)
  {
    DestroyGood(b, i);
    CreateAchieves(Release(b, i), e);
  }

  /**
    One turn of the expiry loop: the timer is re-armed from its own deadline, not from the clock, if
    it is persistent, and disarmed otherwise; a task is queued unless one is outstanding.  When the
    loop has been stopped in the middle of a pass, the timer is disarmed and nothing is queued.
   */
  lemma ExpireAchieves(b: Base, i: nat)
    requires Good(b) && i in b.heap
    ensures Live(b, i) && Live(Expire(b, i), i)
    ensures var e, b' := Ev(b, i), Expire(b, i);
      var again := b.running && e.persist && e.watchesTime;
      && OnlyAt(b, b', i)
      && Ev(b', i) == e.(timerArmed := again, queued := e.queued || b.running)
      && (again <==> i in b'.heap)
      && (again ==> b'.heap[i] == Deadline(b.heap[i], MinTimeout(e.timeout)))
      // while the clock does not wrap, one period after the deadline that has passed
      && (again && e.timeout >= 1 && b.heap[i] + e.timeout < U64 ==> b'.heap[i] == b.heap[i] + e.timeout)
      && (again && e.timeout < 1 && b.heap[i] + 1 < U64 ==> b'.heap[i] == b.heap[i] + 1)
  {
    ExpireTurn(b, i);
    NextDeadline(b.heap[i], Ev(b, i).timeout);
  }

  lemma NextDeadline(k: nat, timeout: int)
    ensures var d := Deadline(k, MinTimeout(timeout));
      && (timeout >= 1 && k + timeout < U64 ==> d == k + timeout)
      && (timeout < 1 && k + 1 < U64 ==> d == k + 1)
  {
  }

  lemma ExpireTurn(b: Base, i: nat)
    requires Good(b) && i in b.heap
    ensures Live(b, i) && Live(Expire(b, i), i)
    ensures var e, b' := Ev(b, i), Expire(b, i);
      var again := b.running && e.persist && e.watchesTime;
      && OnlyAt(b, b', i)
      && Ev(b', i) == e.(timerArmed := again, queued := e.queued || b.running)
      && (again <==> i in b'.heap)
      && (again ==> b'.heap[i] == Deadline(b.heap[i], MinTimeout(e.timeout)))
  {
    assert SlotGood(b, i);
    UnarmGood(b, i);
    RearmGood(b, i);
    RearmAchieves(b, i);
    var b1 := Rearm(b, i);
    assert SlotGood(b1, i);
    DispatchGood(b1, i);
    DispatchAchieves(b1, i);
  }

  lemma ExpireHeap(b: Base, i: nat)
    requires Good(b) && i in b.heap
    ensures Live(b, i)
    ensures var e := Ev(b, i);
      var d := Deadline(b.heap[i], MinTimeout(e.timeout));
      Expire(b, i).heap == if b.running && e.persist && e.watchesTime then b.heap[i := d] else b.heap - {i}
  {
    RearmHeap(b, i);
    DispatchAchieves(Rearm(b, i), i);
  }

  lemma RearmHeap(b: Base, i: nat)
    requires Good(b) && i in b.heap
    ensures Live(b, i) && Good(Rearm(b, i)) && Live(Rearm(b, i), i) && Rearm(b, i).running == b.running
    ensures var e := Ev(b, i);
      var d := Deadline(b.heap[i], MinTimeout(e.timeout));
      Rearm(b, i).heap == if b.running && e.persist && e.watchesTime then b.heap[i := d] else b.heap - {i}
  {
    RearmGood(b, i);
    RearmAchieves(b, i);
    var d := Deadline(b.heap[i], MinTimeout(Ev(b, i).timeout));
    assert (b.heap - {i})[i := d] == b.heap[i := d];
  }

  lemma RearmAchieves(b: Base, i: nat)
    requires Good(b) && i in b.heap
    ensures Live(b, i) && Live(Rearm(b, i), i)
    ensures var e, b' := Ev(b, i), Rearm(b, i);
      var again := b.running && e.persist && e.watchesTime;
      && OnlyAt(b, b', i)
      && Ev(b', i) == e.(timerArmed := again)
      && b'.heap == if again then (b.heap - {i})[i := Deadline(b.heap[i], MinTimeout(e.timeout))] else b.heap - {i}
  {
    assert SlotGood(b, i);
    UnarmGood(b, i);
    InsertTimerAchieves(Unarm(b, i), i, b.heap[i], MinTimeout(Ev(b, i).timeout));
  }

  lemma DispatchAchieves(b: Base, i: nat)
    requires Good(b) && Live(b, i)
    ensures OnlyAt(b, Dispatch(b, i), i) && Dispatch(b, i).heap == b.heap
  {
    DispatchGood(b, i);
    TryRefGood(b, i);
    assert SlotGood(b, i);
  }

  /** uevent_del of one event touches no other; a dead or freed event is left as it was and reported. */
  lemma DelAchieves(b: Base, i: nat)
    requires Good(b) && i != b.wakeup
    ensures OnlyAt(b, Del(b, i).0, i)
    ensures Del(b, i).1 == PENDING_FREE <==> !Live(b, i) || Ev(b, i).pendingFree
    ensures Del(b, i).1 == PENDING_FREE ==> Del(b, i).0 == b
  {
    TryRefGood(b, i);
    if i < |b.slots| { assert SlotGood(b, i); }
  }

  /** uevent_free of one event touches no other, and a second uevent_free nothing at all. */
  lemma FreeAchieves(b: Base, i: nat)
    requires Good(b) && i != b.wakeup
    ensures OnlyAt(b, Free(b, i), i)
    ensures !Live(b, i) || Ev(b, i).pendingFree ==> Free(b, i) == b
  {
    if Live(b, i) && !Ev(b, i).pendingFree {
      DelAchieves(b, i);
      DelGood(b, i);
      MarkFreedAchieves(Del(b, i).0, i);
    }
  }

  lemma MarkFreedAchieves(b: Base, i: nat)
    requires Good(b) && Live(b, i)
    ensures OnlyAt(b, MarkFreed(b, i), i)
  {
    assert SlotGood(b, i);
  }

  /**
    One descriptor that polled: a task is queued unless one is outstanding or the loop has stopped,
    and an event that is not persistent is removed from epoll and from the timers.
   */
  lemma FireAchieves(b: Base, i: nat)
    requires Good(b) && Live(b, i) && (i == b.wakeup ==> Ev(b, i).persist)
    ensures OnlyAt(b, Fire(b, i), i) && (!Ev(b, i).fdActive ==> Fire(b, i) == b)
    ensures Ev(b, i).fdActive ==>
              var e := Ev(b, i).(queued := Ev(b, i).queued || b.running);
              Live(Fire(b, i), i) && Fire(b, i).handles == b.handles
              && Ev(Fire(b, i), i) == if e.persist then e else e.(fdActive := false, timerArmed := false)
  {
    DispatchGood(b, i);
    if i != b.wakeup {
      DelGood(Dispatch(b, i), i);
      DelAchieves(Dispatch(b, i), i);
    }
    DispatchAchieves(b, i);
    assert SlotGood(b, i);
  }

  /**
    A task that ends, run or discarded, clears its event's flag and gives back its reference; if it
    was the last, the event is gone and its slot is on top of the free stack.
   */
  lemma FinishAchieves(b: Base, i: nat)
    requires Good(b) && Live(b, i) && Ev(b, i).queued
    ensures OnlyAt(b, Finish(b, i), i) && Finish(b, i).heap == b.heap && Finish(b, i).fds == b.fds
    ensures Live(Finish(b, i), i) <==> b.slots[i].count > 1
    ensures Live(Finish(b, i), i) ==>
              Ev(Finish(b, i), i) == Ev(b, i).(queued := false) && Finish(b, i).slots[i].count == b.slots[i].count - 1
              && Finish(b, i).free == b.free
    ensures !Live(Finish(b, i), i) ==> Finish(b, i).free == b.free + [i]
  {
    assert SlotGood(b, i);
  }

  // ---------- stopping the loop ----------

  ghost function Pick(m: map<nat, nat>): (i: nat)
    requires m != map[]
    ensures i in m
  {
    var i :| i in m; i
  }

  /** The timer part of uevent_base_loopbreak, in whatever order the heap hands its timers out. */
  ghost function UnarmAll(b: Base): Base
    requires Good(b)
    decreases |b.heap|
  {
    if b.heap == map[] then b
    else
      var i := Pick(b.heap);
      UnarmGood(b, i);
      SizeAt(b.heap, Unarm(b, i).heap, i);
      UnarmAll(Unarm(b, i))
  }

  /** uevent_base_loopbreak */
  ghost function LoopBreak(b: Base): Base
    requires Good(b)
  {
    StopGood(b);
    UnarmAll(b.(running := false))
  }

  lemma StopGood(b: Base)
    requires Good(b)
    ensures Good(b.(running := false)) && Good(b.(running := true))
  {
    assert forall i: nat :: i < |b.slots| ==> SlotGood(b, i) ==> SlotGood(b.(running := false), i);
    assert forall i: nat :: i < |b.slots| ==> SlotGood(b, i) ==> SlotGood(b.(running := true), i);
  }

  /** From b0 some of the armed timers have been disarmed, each giving back its reference, and nothing else happened. */
  ghost predicate Unarmed(b0: Base, b: Base) {
    && |b.slots| == |b0.slots| && b.free == b0.free && b.fds == b0.fds && b.numFd == b0.numFd && b.handles == b0.handles
    && b.running == b0.running && b.wakeup == b0.wakeup && b.heap.Keys <= b0.heap.Keys
    && forall i: nat :: i < |b.slots| ==> UnarmedAt(b0, b, i)
  }

  ghost predicate UnarmedAt(b0: Base, b: Base, i: nat)
    requires i < |b.slots| == |b0.slots|
  {
    if i in b0.heap && i !in b.heap then
      && Live(b0, i) && Live(b, i) && b.slots[i].count == b0.slots[i].count - 1
      && Ev(b, i) == Ev(b0, i).(timerArmed := false)
    else b.slots[i] == b0.slots[i]
  }

  lemma UnarmedStep(b0: Base, b: Base, i: nat)
    requires Good(b0) && Unarmed(b0, b) && Good(b) && i in b.heap
    ensures Live(b, i) && Good(Unarm(b, i)) && Unarmed(b0, Unarm(b, i)) && |Unarm(b, i).heap| < |b.heap|
  {
    UnarmGood(b, i);
    SizeAt(b.heap, Unarm(b, i).heap, i);
    assert SlotGood(b, i) && UnarmedAt(b0, b, i);
    var b' := Unarm(b, i);
    forall j: nat | j < |b'.slots| ensures UnarmedAt(b0, b', j) {
      assert UnarmedAt(b0, b, j);
    }
  }

  lemma UnarmedOnce(b: Base, i: nat)
    requires Good(b) && i in b.heap
    ensures Live(b, i) && Good(Unarm(b, i)) && Unarmed(b, Unarm(b, i)) && |Unarm(b, i).heap| < |b.heap|
  {
    UnarmedStep(b, b, i);
  }

  lemma UnarmedTransitive(b0: Base, b1: Base, b2: Base)
    requires Unarmed(b0, b1) && Unarmed(b1, b2)
    ensures Unarmed(b0, b2)
  {
    forall i: nat | i < |b2.slots| ensures UnarmedAt(b0, b2, i) {
      assert UnarmedAt(b0, b1, i) && UnarmedAt(b1, b2, i);
    }
  }

  /** Every armed timer is disarmed, gives back its one reference, and nothing else happens. */
  lemma {:induction false} UnarmAllGood(b: Base)
    requires Good(b)
    ensures Good(UnarmAll(b)) && UnarmAll(b).heap == map[] && UnarmAll(b).numTimers == 0 && Unarmed(b, UnarmAll(b))
    decreases |b.heap|
  {
    if b.heap != map[] {
      var i := Pick(b.heap);
      UnarmedOnce(b, i);
      UnarmAllGood(Unarm(b, i));
      UnarmedTransitive(b, Unarm(b, i), UnarmAll(b));
    }
  }

  /** There is only one base that all timers can be disarmed to. */
  lemma UnarmedFully(b0: Base, b: Base)
    requires Good(b0) && Good(b) && Unarmed(b0, b) && b.heap == map[]
    ensures b == UnarmAll(b0)
  {
    UnarmAllGood(b0);
    var b' := UnarmAll(b0);
    forall i: nat | i < |b.slots| ensures b.slots[i] == b'.slots[i] {
      assert UnarmedAt(b0, b, i) && UnarmedAt(b0, b', i);
    }
  }

  /** uevent_base_loopbreak stops the loop and disarms every timer, each giving back its reference, and no more. */
  lemma LoopBreakAchieves(b: Base)
    requires Good(b)
    ensures var b' := LoopBreak(b);
      && Good(b') && !b'.running && b'.heap == map[] && b'.numTimers == 0 && Unarmed(b.(running := false), b')
      && forall i: nat :: Live(b, i) ==> Live(b', i) && Ev(b', i) == Ev(b, i).(timerArmed := false)
  {
    StopGood(b);
    UnarmAllGood(b.(running := false));
    var b' := LoopBreak(b);
    forall i: nat | Live(b, i) ensures Live(b', i) && Ev(b', i) == Ev(b, i).(timerArmed := false) {
      assert SlotGood(b, i) && UnarmedAt(b.(running := false), b', i);
    }
  }

  // ---------- runs ----------

  const WAKEUP_EVENT := Event(true, false, true, 0, false, false, false, false)

  /** uev_slots_init: every slot unused, the stack holding 0, 1, ..., n - 1. */
  function SlotsInit(n: nat): Base
    requires n > 0
  {
    Base(seq(n, _ => Slot(0, None)), seq(n, i => i), map[], {}, 0, 0, false, n - 1, seq(n, _ => 0))
  }

  /** uevent_base_new: the wakeup event takes the top slot; `ok` is epoll_ctl's answer to its registration. */
  function New(n: nat, ok: bool): Base
    requires n > 0
  {
    var b := Create(SlotsInit(n), WAKEUP_EVENT).0;
    InsertFd(b, n - 1, ok).0
  }

  lemma NewGood(n: nat, ok: bool)
    requires n > 0
    ensures Good(New(n, ok))
  {
    var b := New(n, ok);
    assert b.free == seq(n, i => i)[..n - 1];
    forall i: nat | i < |b.slots| ensures SlotGood(b, i) && (b.slots[i].ev.None? ==> i in b.free) {
      assert i < n - 1 ==> b.free[i] == i;
    }
  }

  /** A new base: stopped, nothing armed, the wakeup event alone alive and, if epoll agreed, registered for good. */
  lemma NewAchieves(n: nat, ok: bool)
    requires n > 0
    ensures var b := New(n, ok);
      && |b.slots| == n && b.wakeup == n - 1 && Live(b, n - 1) && b.slots[n - 1].count == 1
      && Ev(b, n - 1).watchesFd && Ev(b, n - 1).persist && !Ev(b, n - 1).watchesTime && Ev(b, n - 1).fdActive == ok
      && (forall i: nat :: i < n - 1 ==> b.slots[i].ev.None? && b.slots[i].count == 0)
      && |b.free| == n - 1 && (forall i: nat :: i < n - 1 ==> b.free[i] == i && b.handles[i] == 0)
      && !b.running && b.heap == map[] && b.fds == {} && b.numTimers == b.numFd == 0
  {
  }

  datatype Op =
    | CreateOp(e: Event)
    | AddOp(i: nat, now: nat, timeout: int, busy: bool, ok: bool)
    | DelOp(i: nat)
    | FreeOp(i: nat)
    | SetTimeoutOp(i: nat, timeout: int)
    | HoldOp(i: nat)             // uevent_try_ref by a caller or a worker
    | ReleaseOp(i: nat)          // uevent_put of what uevent_try_ref gave
    | StartOp                    // uevent_base_dispatch sets `running`
    | BreakOp
    | ExpireOp(i: nat, now: nat)
    | FireOp(i: nat)
    | FinishOp(i: nat)

  /** What callers owe: they never name the wakeup event and put only what they hold. */
  ghost predicate Enabled(b: Base, op: Op) {
    |b.handles| == |b.slots| &&
    match op
    case CreateOp(_) => true
    case AddOp(i, _, _, _, _) => i != b.wakeup
    case DelOp(i) => i != b.wakeup
    case FreeOp(i) => i != b.wakeup
    case SetTimeoutOp(_, _) => true
    case HoldOp(_) => true
    case ReleaseOp(i) => i < |b.slots| && b.handles[i] > 0
    case StartOp => true
    case BreakOp => true
    case ExpireOp(i, now) => i in b.heap && b.heap[i] <= now && forall j :: j in b.heap ==> b.heap[i] <= b.heap[j]
    case FireOp(i) => Live(b, i) && (i == b.wakeup ==> Ev(b, i).persist)
    case FinishOp(i) => Live(b, i) && Ev(b, i).queued
  }

  /** (`Good` guards the definitions; GoodAlways shows that no run ever fails it.) */
  ghost function Apply(b: Base, op: Op): Base {
    if !Good(b) || !Enabled(b, op) then b else
    match op
    case CreateOp(e) => Create(b, e).0
    case AddOp(i, now, timeout, busy, ok) => Add(b, i, now, timeout, busy, ok).0
    case DelOp(i) => Del(b, i).0
    case FreeOp(i) => Free(b, i)
    case SetTimeoutOp(i, timeout) => SetTimeout(b, i, timeout)
    case HoldOp(i) => (var h := TryRef(b, i); if h.Some? then h.value else b)
    case ReleaseOp(i) => Release(b, i)
    case StartOp => b.(running := true)
    case BreakOp => LoopBreak(b)
    case ExpireOp(i, _) => Expire(b, i)
    case FireOp(i) => Fire(b, i)
    case FinishOp(i) => Finish(b, i)
  }

  lemma GoodStep(b: Base, op: Op)
    requires Good(b) && Enabled(b, op)
    ensures Good(Apply(b, op))
  {
    match op
    case CreateOp(e) => CreateGood(b, e);
    case AddOp(i, now, timeout, busy, ok) => AddGood(b, i, now, timeout, busy, ok);
    case DelOp(i) => DelGood(b, i);
    case FreeOp(i) => FreeGood(b, i);
    case SetTimeoutOp(i, timeout) => SetTimeoutGood(b, i, timeout);
    case HoldOp(i) => TryRefGood(b, i);
    case ReleaseOp(i) => ReleaseGood(b, i);
    case StartOp => StopGood(b);
    case BreakOp => StopGood(b); UnarmAllGood(b.(running := false));
    case ExpireOp(i, _) => ExpireGood(b, i);
    case FireOp(i) => FireGood(b, i);
    case FinishOp(i) => FinishGood(b, i);
  }

  /** The states a program drives a base of `n` slots through. */
  ghost predicate IsRun(n: nat, states: seq<Base>, ops: seq<Op>) {
    && n > 0 && |states| == |ops| + 1
    && (exists ok :: states[0] == New(n, ok))
    && forall k :: 0 <= k < |ops| ==> Enabled(states[k], ops[k]) && states[k + 1] == Apply(states[k], ops[k])
  }

  lemma {:induction false} GoodAlways(n: nat, states: seq<Base>, ops: seq<Op>, k: nat)
    requires IsRun(n, states, ops) && k < |states|
    ensures Good(states[k])
  {
    if k == 0 {
      var ok :| states[0] == New(n, ok);
      NewGood(n, ok);
    } else {
      GoodAlways(n, states, ops, k - 1);
      GoodStep(states[k - 1], ops[k - 1]);
    }
  }

  // ---------- the theorems ----------

  /** The count of every live user event, in every reachable state. */
  lemma CountAccounted(n: nat, states: seq<Base>, ops: seq<Op>, k: nat, i: nat)
    requires IsRun(n, states, ops) && k < |states| && Live(states[k], i) && i != states[k].wakeup
    ensures i < |states[k].handles|
    ensures var b, e := states[k], Ev(states[k], i);
      && b.slots[i].count == One(!e.pendingFree) + One(e.timerArmed) + One(e.fdActive) + One(e.queued) + b.handles[i]
      && (e.pendingFree ==> !e.timerArmed && !e.fdActive)
  {
    GoodAlways(n, states, ops, k);
    assert SlotGood(states[k], i);
  }

  /** A slot whose event is freed, has no task and no holder is back on the free stack. */
  lemma FreedComesBack(n: nat, states: seq<Base>, ops: seq<Op>, k: nat, i: nat)
    requires IsRun(n, states, ops) && k < |states| && i < |states[k].slots| && i != states[k].wakeup
    requires i < |states[k].handles|
    requires Live(states[k], i) ==>
          Ev(states[k], i).pendingFree && !Ev(states[k], i).queued && states[k].handles[i] == 0
    ensures i in states[k].free && !Live(states[k], i)
  {
    GoodAlways(n, states, ops, k);
    assert SlotGood(states[k], i);
  }

  ghost function LiveSlots(b: Base): set<nat> { set i | i in UpTo(|b.slots|) && Live(b, i) }

  function Elements(s: seq<nat>): set<nat> { if s == [] then {} else Elements(s[..|s| - 1]) + {s[|s| - 1]} }

  lemma {:induction false} SizeOfDistinct(s: seq<nat>)
    ensures forall x :: x in Elements(s) <==> x in s
    ensures (forall k, l :: 0 <= k < l < |s| ==> s[k] != s[l]) ==> |Elements(s)| == |s|
  {
    if s != [] {
      var t, x := s[..|s| - 1], s[|s| - 1];
      SizeOfDistinct(t);
      assert s == t + [x];
    }
  }

  /**
    The free stack holds exactly the indices of the slots with a count of zero, each once; so it has
    room for every slot that is returned, and free and live slots add up to the slots there are.
   */
  lemma FreeStackExact(n: nat, states: seq<Base>, ops: seq<Op>, k: nat)
    requires IsRun(n, states, ops) && k < |states|
    ensures var b := states[k];
      && |b.slots| == n
      && (forall i: nat :: i < n ==> (i in b.free <==> b.slots[i].count == 0))
      && (forall x, y :: 0 <= x < y < |b.free| ==> b.free[x] != b.free[y])
      && |b.free| + |LiveSlots(b)| == n && |b.free| < n
  {
    GoodAlways(n, states, ops, k);
    SizeStays(n, states, ops, k);
    FreeAndLive(states[k]);
  }

  lemma FreeAndLive(b: Base)
    requires Good(b)
    ensures forall i: nat :: i < |b.slots| ==> (i in b.free <==> b.slots[i].count == 0)
    ensures |b.free| + |LiveSlots(b)| == |b.slots| && |b.free| < |b.slots|
  {
    forall i: nat | i < |b.slots| ensures i in b.free <==> b.slots[i].count == 0 {
      assert SlotGood(b, i);
    }
    SizeOfDistinct(b.free);
    UpToSize(|b.slots|);
    var free := Elements(b.free);
    var live := LiveSlots(b);
    forall i: nat | i < |b.slots| ensures i in free <==> i !in live {
      assert i in UpTo(|b.slots|);
    }
    assert forall i: nat :: i in free ==> i < |b.slots|;
    assert forall i: nat :: i in live ==> i < |b.slots|;
    Partition(free, live, UpTo(|b.slots|));
    assert b.wakeup in live;
  }

  lemma Partition(x: set<nat>, y: set<nat>, all: set<nat>)
    requires forall i :: i in all <==> i in x || i in y
    requires forall i :: i in x ==> i !in y
    ensures |x| + |y| == |all|
  {
    assert x + y == all && x !! y;
  }

  lemma {:induction false} SizeStays(n: nat, states: seq<Base>, ops: seq<Op>, k: nat)
    requires IsRun(n, states, ops) && k < |states|
    ensures |states[k].slots| == n
  {
    if k > 0 {
      SizeStays(n, states, ops, k - 1);
      GoodAlways(n, states, ops, k - 1);
      SameSize(states[k - 1], ops[k - 1]);
    }
  }

  lemma SameSize(b: Base, op: Op)
    requires Good(b) && Enabled(b, op)
    ensures |Apply(b, op).slots| == |b.slots|
  {
    match op
    case BreakOp => StopGood(b); UnarmAllGood(b.(running := false));
    case _ =>
  }

  /** The heap never fills, so the answer of mh_insert that insert_timer_to_heap ignores is never a refusal. */
  lemma InsertNeverRefused(n: nat, states: seq<Base>, ops: seq<Op>, k: nat)
    requires IsRun(n, states, ops) && k < |states|
    ensures |states[k].heap| < n
  {
    GoodAlways(n, states, ops, k);
    SizeStays(n, states, ops, k);
    HeapNeverFull(states[k]);
  }

  /** num_active_timers counts the armed slots and num_active_fd the registered user slots. */
  lemma CountersExact(n: nat, states: seq<Base>, ops: seq<Op>, k: nat)
    requires IsRun(n, states, ops) && k < |states|
    ensures var b := states[k];
      && b.numTimers == |set i | i in UpTo(|b.slots|) && Live(b, i) && Ev(b, i).timerArmed|
      && b.numFd == |set i | i in UpTo(|b.slots|) && Live(b, i) && Ev(b, i).fdActive && i != b.wakeup|
  {
    GoodAlways(n, states, ops, k);
    var b := states[k];
    UpToSize(|b.slots|);
    var armed := set i | i in UpTo(|b.slots|) && Live(b, i) && Ev(b, i).timerArmed;
    var watched := set i | i in UpTo(|b.slots|) && Live(b, i) && Ev(b, i).fdActive && i != b.wakeup;
    forall i: nat ensures (i in b.heap <==> i in armed) && (i in b.fds <==> i in watched) {
      assert i < |b.slots| ==> SlotGood(b, i);
    }
    assert b.heap.Keys == armed;
    assert b.fds == watched;
  }

  /** uevent_base_has_events */
  predicate HasEvents(b: Base) { b.numFd > 0 || b.numTimers > 0 }

  /** The loop stops for lack of work only when no timer is armed and no user descriptor registered. */
  lemma StopsOnlyWhenIdle(n: nat, states: seq<Base>, ops: seq<Op>, k: nat)
    requires IsRun(n, states, ops) && k < |states|
    ensures HasEvents(states[k]) <==>
      exists i: nat ::
        Live(states[k], i) && (Ev(states[k], i).timerArmed || (Ev(states[k], i).fdActive && i != states[k].wakeup))
  {
    GoodAlways(n, states, ops, k);
    var b := states[k];
    if i: nat :| Live(b, i) && (Ev(b, i).timerArmed || (Ev(b, i).fdActive && i != b.wakeup)) {
      assert SlotGood(b, i);
    }
    if b.heap != map[] {
      var i :| i in b.heap;
      assert SlotGood(b, i) && Live(b, i) && Ev(b, i).timerArmed;
    } else if b.fds != {} {
      var i :| i in b.fds;
      assert SlotGood(b, i) && Live(b, i) && Ev(b, i).fdActive;
    }
  }

  /** calculate_epoll_timeout at time `now`; `least` is the deadline mh_get_min finds in a heap that is not empty. */
  function EpollTimeout(b: Base, least: nat, now: nat): int {
    if b.numTimers == 0 || b.heap == map[] then EPOLL_MAX_TIMEOUT_MS
    else if least <= now then 0
    else if least - now < EPOLL_MAX_TIMEOUT_MS then least - now
    else EPOLL_MAX_TIMEOUT_MS
  }

  /** The wait is within 0..60000 ms and ends no later than the deadline of any armed timer, nor sooner than need be. */
  lemma TimeoutRight(n: nat, states: seq<Base>, ops: seq<Op>, k: nat, least: nat, now: nat)
    requires IsRun(n, states, ops) && k < |states|
    requires states[k].heap != map[] ==>
      (exists i :: i in states[k].heap && states[k].heap[i] == least)
      && forall i :: i in states[k].heap ==> least <= states[k].heap[i]
    ensures var b := states[k]; var wait := EpollTimeout(b, least, now);
      && 0 <= wait <= 60000
      && (forall i: nat :: Live(b, i) && Ev(b, i).timerArmed ==> i in b.heap && (wait == 0 || now + wait <= b.heap[i]))
      && (wait < 60000 ==> exists i :: i in b.heap && b.heap[i] <= now + wait)
  {
    GoodAlways(n, states, ops, k);
    var b := states[k];
    forall i: nat | Live(b, i) && Ev(b, i).timerArmed ensures i in b.heap {
      assert SlotGood(b, i);
    }
  }

  // ---------- a descriptor polled and then freed ----------

  /**
    uevent_handle_epoll reads the event of each descriptor without a test.  An event that is freed between
    the poll and its turn is still there for the turn exactly when a task or a holder keeps it.
   */
  lemma PolledThenFreed(b: Base, i: nat)
    requires Good(b) && Live(b, i) && i != b.wakeup && Ev(b, i).fdActive
    ensures Enabled(b, FireOp(i)) && Enabled(b, FreeOp(i))
    ensures Enabled(Apply(b, FreeOp(i)), FireOp(i)) <==> Ev(b, i).queued || b.handles[i] > 0
    ensures Live(Apply(b, FreeOp(i)), i) <==> Ev(b, i).queued || b.handles[i] > 0
  {
    assert SlotGood(b, i);
    FreeGood(b, i);
    FreeAchieves(b, i);
  }

  /** A descriptor event that has just been created. */
  ghost predicate Fresh(b: Base, i: nat) {
    Good(b) && Live(b, i) && i != b.wakeup && b.handles[i] == 0
    && Ev(b, i).watchesFd && !Ev(b, i).pendingFree && !Ev(b, i).queued
  }

  lemma CreatedFresh(b: Base, e: Event)
    requires Good(b) && b.free != [] && e.watchesFd
    ensures Enabled(b, CreateOp(e)) && Fresh(Apply(b, CreateOp(e)), b.free[|b.free| - 1])
  {
    CreateGood(b, e);
    CreateAchieves(b, e);
    assert SlotGood(b, b.free[|b.free| - 1]);
  }

  lemma AddedFresh(b: Base, i: nat)
    requires Fresh(b, i)
    ensures var op := AddOp(i, 0, 0, false, true);
      Enabled(b, op) && Fresh(Apply(b, op), i) && Ev(Apply(b, op), i).fdActive
  {
    AddGood(b, i, 0, 0, false, true);
    AddAchieves(b, i, 0, 0, false, true);
  }

  /** It can happen: a run in which a registered event is freed before its turn and the turn finds none. */
  lemma TurnFindsNone() returns (states: seq<Base>, ops: seq<Op>, i: nat)
    ensures IsRun(2, states, ops) && |ops| == 3 && Enabled(states[2], FireOp(i)) && Ev(states[2], i).fdActive
    ensures !Live(states[3], i)
  {
    var b0, e := New(2, true), Event(true, false, true, 0, false, false, false, false);
    NewGood(2, true);
    assert b0.free == [0];
    states, ops := [b0], [];
    assert IsRun(2, states, ops);
    states, ops := CreateAddFree(2, b0, e, 0);
    i := 0;
  }

  lemma CreateAddFree(n: nat, b0: Base, e: Event, i: nat) returns (states: seq<Base>, ops: seq<Op>)
    requires Good(b0) && IsRun(n, [b0], []) && b0.free == [i] && e.watchesFd
    ensures IsRun(n, states, ops) && |ops| == 3 && Enabled(states[2], FireOp(i)) && Ev(states[2], i).fdActive
    ensures !Live(states[3], i)
  {
    CreatedFresh(b0, e);
    var b1 := Apply(b0, CreateOp(e));
    AddedFresh(b1, i);
    PolledThenFreed(Apply(b1, AddOp(i, 0, 0, false, true)), i);
    states, ops := OneMore(n, [b0], [], CreateOp(e));
    states, ops := OneMore(n, states, ops, AddOp(i, 0, 0, false, true));
    states, ops := OneMore(n, states, ops, FreeOp(i));
  }

  lemma OneMore(n: nat, states: seq<Base>, ops: seq<Op>, op: Op) returns (states': seq<Base>, ops': seq<Op>)
    requires IsRun(n, states, ops) && Enabled(states[|ops|], op)
    ensures IsRun(n, states', ops') && ops' == ops + [op] && states' == states + [Apply(states[|ops|], op)]
  {
    states', ops' := states + [Apply(states[|ops|], op)], ops + [op];
    forall k | 0 <= k < |ops'| ensures Enabled(states'[k], ops'[k]) && states'[k + 1] == Apply(states'[k], ops'[k]) {
      assert k < |ops| ==> Enabled(states[k], ops[k]) && states[k + 1] == Apply(states[k], ops[k]);
    }
  }

  // ---------- the wakeup event ----------

  /**
    Removing the wakeup event destroys it, although its owner has not given it up, exactly when it is
    registered and no task or holder keeps it.
   */
  lemma WakeupDestroyedIff(b: Base)
    requires Good(b)
    ensures !Live(Del(b, b.wakeup).0, b.wakeup) <==>
            Ev(b, b.wakeup).fdActive && !Ev(b, b.wakeup).queued && b.handles[b.wakeup] == 0
  {
    assert SlotGood(b, b.wakeup);
    TryRefGood(b, b.wakeup);
  }

  /**
    Registering the wakeup event takes no reference, but removing it drops one.  Freed with no task
    of its own outstanding, it is destroyed one uevent_put early, its slot goes back once, and the
    last uevent_put finds a count of zero and does nothing.
   */
  lemma WakeupFreed(b: Base)
    requires Good(b) && Ev(b, b.wakeup).fdActive && b.handles[b.wakeup] == 0
    ensures var b' := Free(b, b.wakeup);
      && !Live(b', b.wakeup) && b'.slots[b.wakeup].count == 0 && b'.free == b.free + [b.wakeup]
      // so a task of it still outstanding would be left with a slot that is no longer its own
      && (Ev(b, b.wakeup).queued <==> b.slots[b.wakeup].count == 2)
      && (!Ev(b, b.wakeup).queued <==> !Live(Del(b, b.wakeup).0, b.wakeup))
  {
    assert SlotGood(b, b.wakeup);
    TryRefGood(b, b.wakeup);
  }
}
