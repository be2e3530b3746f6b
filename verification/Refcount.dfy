/**
  The reference count of one event slot (uevent/uevent.c:200-216, 543-554, 1167-1247), with every
  atomic access a step of its own and any number of threads.

  A reference is a token, and a thread may put only a token that is outstanding.  uevent_ref counts
  up without any test.  uevent_try_ref counts up from a count that is not zero, and undoes that when
  the event turns out to be gone or pending free.
 */
module Refcount {
  import opened Common

  type Tid = nat
  type Ref = nat

  /** Where a thread stands; `mine` is the reference it is about to put or has just taken. */
  datatype Pc =
    | Idle
    | TryLoad                   // refcount_inc_not_zero: first load
    | TryCas(seen: int)         // about to compare and exchange
    | TryEvent(mine: Ref)       // counted; about to load uev->ev
    | TryPending(mine: Ref)     // about to load pending_free
    | TryUndo(mine: Ref)        // about to count down again, without a test for zero
    | PutLoad(mine: Ref)        // uevent_put: first load
    | PutDec(mine: Ref)         // about to count down and test
    | Popped                    // uevent_create_or_assign_event: slot taken, about to store the count
    | Counted(mine: Ref)        // count stored, about to store uev->ev
    | Unlink                    // counted down to zero: about to exchange uev->ev for NULL
    | Return                    // about to give the slot back

  datatype Slot = Slot(
    count: int,              // refcount
    linked: bool,            // uev->ev is not NULL
    pending: bool,           // the event's pending_free
    free: bool,              // the slot is on the free stack
    threads: map<Tid, Pc>,
    refs: set<Ref>,          // history: the references outstanding, transient ones included
    destroyed: nat,          // history: destructions begun since the slot was issued
    leaked: bool             // history: a try_ref has undone the last reference
  )

  datatype Act =
    | Issue                  // uevent_create_or_assign_event takes the slot from the free stack
    | Copy(r: Ref)           // uevent_ref, which tests nothing
    | StartTry
    | StartPut(r: Ref)
    | MarkPending            // uevent_free sets pending_free
    | Go
    | Fail                   // a weak compare-exchange fails spuriously
    | Take(r: Ref)           // a compare-exchange succeeds or the first count is stored; `r` names the reference

  predicate Initial(s: Slot) {
    s.count == 0 && !s.linked && !s.pending && s.free && s.refs == {} && s.destroyed == 0 && !s.leaked
    && forall t :: t in s.threads ==> s.threads[t].Idle?
  }

  /** The reference a thread's program point is using up. */
  function Mine(pc: Pc): Option<Ref> {
    match pc
    case TryEvent(r) => Some(r)
    case TryPending(r) => Some(r)
    case TryUndo(r) => Some(r)
    case PutLoad(r) => Some(r)
    case PutDec(r) => Some(r)
    case Counted(r) => Some(r)
    case _ => None
  }

  /** Outstanding and not claimed by any thread's program point: somebody holds it. */
  predicate Available(s: Slot, r: Ref) {
    r in s.refs && forall t :: t in s.threads ==> Mine(s.threads[t]) != Some(r)
  }

  function At(s: Slot, t: Tid, pc: Pc): Slot { s.(threads := s.threads[t := pc]) }

  function Idling(s: Slot, t: Tid, a: Act): Option<Slot> {
    match a
    case Issue => if s.free then Some(At(s.(free := false, destroyed := 0), t, Popped)) else None
    case Copy(r) =>
      if r in s.refs then None
      else Some(s.(count := s.count + 1, refs := s.refs + {r}))
    case StartTry => Some(At(s, t, TryLoad))
    case StartPut(r) => if Available(s, r) then Some(At(s, t, PutLoad(r))) else None
    case MarkPending => if s.refs != {} then Some(s.(pending := true)) else None
    case _ => None
  }

  /** The step thread `t` takes under choice `a`, if it can. */
  function Step(s: Slot, t: Tid, a: Act): Option<Slot> {
    if t !in s.threads then None else
    match s.threads[t]
    case Idle => Idling(s, t, a)
    case TryLoad =>
      if a != Go then None
      else Some(At(s, t, if s.count == 0 then Idle else TryCas(s.count)))
    case TryCas(seen) =>
      if a.Take? && s.count == seen && a.r !in s.refs then
        Some(At(s.(count := seen + 1, refs := s.refs + {a.r}), t, TryEvent(a.r)))
      else if a == Fail || (a == Go && s.count != seen) then
        Some(At(s, t, if s.count == 0 then Idle else TryCas(s.count)))  // the failed exchange reloads
      else None
    case TryEvent(r) =>
      if a != Go then None
      else Some(At(s, t, if s.linked then TryPending(r) else TryUndo(r)))
    case TryPending(r) =>
      if a != Go then None
      else Some(At(s, t, if s.pending then TryUndo(r) else Idle))  // Idle: the caller now holds `r`
    case TryUndo(r) =>
      if a != Go then None
      else Some(At(s.(count := s.count - 1, refs := s.refs - {r}, leaked := s.leaked || s.count == 1), t, Idle))
    case PutLoad(r) =>
      if a != Go then None
      else Some(At(s, t, if s.count == 0 then Idle else PutDec(r)))
    case PutDec(r) =>
      if a != Go then None
      else Some(At(s.(count := s.count - 1, refs := s.refs - {r}), t, if s.count == 1 then Unlink else Idle))
    case Popped =>
      if a.Take? then Some(At(s.(count := 1, refs := {a.r}), t, Counted(a.r))) else None
    case Counted(r) =>
      if a != Go then None
      else Some(At(s.(linked := true, pending := false), t, Idle))  // Idle: the owner now holds `r`
    case Unlink =>
      if a != Go then None
      else Some(At(s.(linked := false, destroyed := s.destroyed + 1), t, if s.linked then Return else Idle))
    case Return =>
      if a != Go then None
      else Some(At(s.(free := true), t, Idle))
  }

  datatype Choice = Choice(t: Tid, a: Act)

  predicate IsRun(states: seq<Slot>, schedule: seq<Choice>) {
    && |states| == |schedule| + 1
    && Initial(states[0])
    && forall n :: 0 <= n < |schedule| ==> Step(states[n], schedule[n].t, schedule[n].a) == Some(states[n + 1])
  }

  predicate Destroying(pc: Pc) { pc.Unlink? || pc.Return? }

  predicate Issuing(pc: Pc) { pc.Popped? || pc.Counted? }

  predicate Busy(pc: Pc) { Destroying(pc) || Issuing(pc) }

  /** The slot is in the hands of the thread that destroys or issues it, with no reference outstanding. */
  predicate Keeps(pc: Pc) { Destroying(pc) || pc.Popped? }

  /** Some thread has stored the count of a slot it has not linked yet. */
  ghost predicate BeingLinked(s: Slot) { exists t :: t in s.threads && s.threads[t].Counted? }

  ghost predicate Kept(s: Slot) { exists t :: t in s.threads && Keeps(s.threads[t]) }

  /** The references that program points use up are outstanding and their own. */
  ghost predicate Owned(s: Slot) {
    && s.count == |s.refs|
    && (forall t :: t in s.threads && s.threads[t].TryCas? ==> s.threads[t].seen != 0)
    && (forall t :: t in s.threads && Mine(s.threads[t]).Some? ==> Mine(s.threads[t]).value in s.refs)
    && (forall t, u ::
          t in s.threads && u in s.threads && Mine(s.threads[t]).Some? && Mine(s.threads[t]) == Mine(s.threads[u])
          ==> t == u)
  }

  /** What a destroying or issuing thread may rely on. */
  ghost predicate Alone(s: Slot, pc: Pc) {
    && (Destroying(pc) ==>
          s.refs == {} && s.destroyed == (if pc.Unlink? then 0 else 1) && (s.linked <==> pc.Unlink?))
    && (Issuing(pc) ==> !s.linked && s.destroyed == 0 && (pc.Popped? ==> s.refs == {}))
    && (Busy(pc) ==> !s.free && !s.leaked)
  }

  /** Everything every step keeps. */
  ghost predicate Inv(s: Slot) {
    && Owned(s)
    // a slot is free, being issued or destroyed by one thread, live, or leaked
    && (s.free ==> s.refs == {} && !s.linked && !s.leaked)
    && (s.refs != {} ==> s.destroyed == 0 && !s.leaked && (s.linked || BeingLinked(s)))
    && (forall t :: t in s.threads ==> Alone(s, s.threads[t]))
    && (forall t, u :: t in s.threads && u in s.threads && Busy(s.threads[t]) && Busy(s.threads[u]) ==> t == u)
    && s.destroyed <= 1
    && (s.leaked ==> s.refs == {} && !s.free && s.destroyed == 0)
    && (s.refs == {} && !s.free && !s.leaked ==> Kept(s))
  }

  lemma Minus(refs: set<Ref>, r: Ref)
    requires r in refs
    ensures |refs - {r}| == |refs| - 1
    ensures |refs| == 1 <==> refs - {r} == {}
  {
    if |refs| == 1 {
      assert |refs - {r}| == 0;
    }
  }

  /** uevent_ref finds a count of zero: it holds no reference, and nobody else holds one. */
  predicate FromZero(s: Slot, a: Act) { a.Copy? && s.count == 0 }

  lemma OthersStay(s: Slot, s': Slot, t: Tid)
    requires t in s.threads && t in s'.threads && s'.threads == s.threads[t := s'.threads[t]]
    ensures BeingLinked(s) && !s.threads[t].Counted? ==> BeingLinked(s')
    ensures Kept(s) && !Keeps(s.threads[t]) ==> Kept(s')
  {
    if BeingLinked(s) && !s.threads[t].Counted? {
      var u :| u in s.threads && s.threads[u].Counted?;
      assert s'.threads[u].Counted?;
    }
    if Kept(s) && !Keeps(s.threads[t]) {
      var u :| u in s.threads && Keeps(s.threads[u]);
      assert Keeps(s'.threads[u]);
    }
  }

  lemma InvIdling(s: Slot, t: Tid, a: Act)
    requires Inv(s) && t in s.threads && s.threads[t].Idle? && Step(s, t, a).Some? && !FromZero(s, a)
    ensures Inv(Step(s, t, a).value)
  {
    match a
    case Issue => InvIssue(s, t);
    case Copy(r) => InvCopy(s, Step(s, t, a).value, r);
    case StartTry => InvElsewhere(s, t, TryLoad);
    case StartPut(r) => InvClaim(s, t, r);
    case MarkPending => InvPending(s);
    case _ =>
  }

  lemma InvIssue(s: Slot, t: Tid)
    requires Inv(s) && t in s.threads && s.threads[t].Idle? && s.free
    ensures Inv(At(s.(free := false, destroyed := 0), t, Popped))
  {
    var s' := At(s.(free := false, destroyed := 0), t, Popped);
    assert Keeps(s'.threads[t]);
  }

  lemma InvClaim(s: Slot, t: Tid, r: Ref)
    requires Inv(s) && t in s.threads && s.threads[t].Idle? && Available(s, r)
    ensures Inv(At(s, t, PutLoad(r)))
  {
    OthersStay(s, At(s, t, PutLoad(r)), t);
  }

  lemma InvPending(s: Slot)
    requires Inv(s)
    ensures Inv(s.(pending := true))
  {
    var s' := s.(pending := true);
    assert BeingLinked(s) ==> BeingLinked(s');
    assert Kept(s) ==> Kept(s');
  }

  lemma InvCopy(s: Slot, s': Slot, r: Ref)
    requires Inv(s) && r !in s.refs && s.count != 0 && s' == s.(count := s.count + 1, refs := s.refs + {r})
    ensures Inv(s')
  {
    assert s.refs != {};
    assert BeingLinked(s) ==> BeingLinked(s');
  }

  /** A plain uevent_ref on a count of zero breaks the invariant: it brings back a slot that is nobody's any more. */
  lemma FromZeroBreaks(s: Slot, t: Tid, a: Act)
    requires Inv(s) && Step(s, t, a).Some? && FromZero(s, a)
    ensures !Inv(Step(s, t, a).value)
  {
    var s' := Step(s, t, a).value;
    assert s.refs == {} && s'.refs == {a.r} && s'.threads == s.threads;
    if !s.free && !s.leaked {
      var u :| u in s.threads && Keeps(s.threads[u]);
      assert !Alone(s', s'.threads[u]);
    }
  }

  lemma InvTaking(s: Slot, t: Tid, a: Act)
    requires Inv(s) && t in s.threads && s.threads[t].TryCas? && a.Take? && Step(s, t, a).Some?
    ensures Inv(Step(s, t, a).value)
  {
    assert s.refs != {};
    OthersStay(s, Step(s, t, a).value, t);
  }

  /** Moving between program points that hold no reference and keep no slot changes nothing. */
  lemma InvElsewhere(s: Slot, t: Tid, pc: Pc)
    requires Inv(s) && t in s.threads && Mine(s.threads[t]).None? && !Keeps(s.threads[t])
    requires Mine(pc).None? && !Keeps(pc) && (pc.TryCas? ==> pc.seen != 0)
    ensures Inv(At(s, t, pc))
  {
    OthersStay(s, At(s, t, pc), t);
  }

  lemma InvTesting(s: Slot, t: Tid, a: Act)
    requires Inv(s) && t in s.threads && Step(s, t, a).Some?
    requires s.threads[t].TryEvent? || s.threads[t].TryPending? || s.threads[t].PutLoad?
    ensures Inv(Step(s, t, a).value)
  {
    var pc := Step(s, t, a).value.threads[t];
    assert s.refs != {};
    InvPasses(s, t, pc);
  }

  /** A thread that uses up a reference goes on with it, or leaves it to its caller. */
  lemma InvPasses(s: Slot, t: Tid, pc: Pc)
    requires Inv(s) && t in s.threads && s.refs != {} && !Busy(s.threads[t]) && !Busy(pc) && !pc.TryCas?
    requires Mine(pc) == Mine(s.threads[t]) || Mine(pc).None?
    ensures Inv(At(s, t, pc))
  {
    OthersStay(s, At(s, t, pc), t);
  }

  lemma InvDropping(s: Slot, t: Tid, a: Act)
    requires Inv(s) && t in s.threads && Step(s, t, a).Some?
    requires s.threads[t].TryUndo? || s.threads[t].PutDec?
    ensures Inv(Step(s, t, a).value)
  {
    Minus(s.refs, s.threads[t].mine);
    if s.refs == {s.threads[t].mine} {
      InvLast(s, t, a);
    } else {
      InvNotLast(s, t, a);
    }
  }

  lemma InvNotLast(s: Slot, t: Tid, a: Act)
    requires Inv(s) && t in s.threads && Step(s, t, a).Some?
    requires (s.threads[t].TryUndo? || s.threads[t].PutDec?) && s.refs != {s.threads[t].mine}
    ensures Inv(Step(s, t, a).value)
  {
    var r, s' := s.threads[t].mine, Step(s, t, a).value;
    Minus(s.refs, r);
    assert s.refs - {r} == {} ==> s.refs == {r};
    assert s.count > 1;
    OthersStay(s, s', t);
  }

  lemma InvLast(s: Slot, t: Tid, a: Act)
    requires Inv(s) && t in s.threads && Step(s, t, a).Some?
    requires (s.threads[t].TryUndo? || s.threads[t].PutDec?) && s.refs == {s.threads[t].mine}
    ensures Inv(Step(s, t, a).value)
  {
    LastIsLinked(s, t);
    var s' := Step(s, t, a).value;
    assert s'.refs == {};
    assert !s'.leaked ==> Keeps(s'.threads[t]);
  }

  /** The thread that uses up the last reference finds no slot still to be linked. */
  lemma LastIsLinked(s: Slot, t: Tid)
    requires Inv(s) && t in s.threads && Mine(s.threads[t]).Some? && s.refs == {Mine(s.threads[t]).value}
    requires !s.threads[t].Counted?
    ensures s.linked && !BeingLinked(s)
  {
    OnlyUser(s, t);
  }

  lemma OnlyUser(s: Slot, t: Tid)
    requires Owned(s) && t in s.threads && Mine(s.threads[t]).Some? && s.refs == {Mine(s.threads[t]).value}
    ensures forall u :: u in s.threads && Mine(s.threads[u]).Some? ==> u == t
  {
    forall u | u in s.threads && Mine(s.threads[u]).Some? ensures u == t {
      assert Mine(s.threads[u]).value in s.refs;
    }
  }

  lemma InvDestroying(s: Slot, t: Tid, a: Act)
    requires Inv(s) && t in s.threads && Step(s, t, a).Some? && Destroying(s.threads[t])
    ensures Inv(Step(s, t, a).value)
  {
    var s' := Step(s, t, a).value;
    assert s'.free || Keeps(s'.threads[t]);
  }

  lemma InvIssuing(s: Slot, t: Tid, a: Act)
    requires Inv(s) && t in s.threads && Step(s, t, a).Some? && Issuing(s.threads[t])
    ensures Inv(Step(s, t, a).value)
  {
    var s' := Step(s, t, a).value;
    assert s'.linked || s'.threads[t].Counted?;
  }

  lemma InvStep(s: Slot, t: Tid, a: Act)
    requires Inv(s) && Step(s, t, a).Some? && !FromZero(s, a)
    ensures Inv(Step(s, t, a).value)
  {
    match s.threads[t]
    case Idle => InvIdling(s, t, a);
    case TryUndo(_) => InvDropping(s, t, a);
    case PutDec(_) => InvDropping(s, t, a);
    case Popped => InvIssuing(s, t, a);
    case Counted(_) => InvIssuing(s, t, a);
    case Unlink => InvDestroying(s, t, a);
    case Return => InvDestroying(s, t, a);
    case TryLoad => InvElsewhere(s, t, if s.count == 0 then Idle else TryCas(s.count));
    case TryCas(_) =>
      if a.Take? { InvTaking(s, t, a); } else { InvElsewhere(s, t, if s.count == 0 then Idle else TryCas(s.count)); }
    case _ => InvTesting(s, t, a);
  }

  /** None of the first n steps of a run is a plain uevent_ref on a count of zero. */
  ghost predicate NoneFromZero(states: seq<Slot>, schedule: seq<Choice>, n: nat)
    requires |states| == |schedule| + 1 && n < |states|
  {
    forall k: nat :: k < n ==> !FromZero(states[k], schedule[k].a)
  }

  lemma {:induction false} InvAlways(states: seq<Slot>, schedule: seq<Choice>, n: nat)
    requires IsRun(states, schedule) && n < |states| && NoneFromZero(states, schedule, n)
    ensures Inv(states[n])
  {
    if n > 0 {
      InvAlways(states, schedule, n - 1);
      var c := schedule[n - 1];
      assert Step(states[n - 1], c.t, c.a) == Some(states[n]);
      InvStep(states[n - 1], c.t, c.a);
    }
  }

  /** Over any run the invariant holds throughout if and only if no plain uevent_ref ever finds a count of zero. */
  lemma {:induction false} InvIff(states: seq<Slot>, schedule: seq<Choice>, n: nat)
    requires IsRun(states, schedule) && n < |states|
    ensures (forall k: nat :: k <= n ==> Inv(states[k])) <==> NoneFromZero(states, schedule, n)
  {
    if NoneFromZero(states, schedule, n) {
      forall k: nat | k <= n ensures Inv(states[k]) {
        InvAlways(states, schedule, k);
      }
    } else if n > 0 {
      InvIff(states, schedule, n - 1);
      if NoneFromZero(states, schedule, n - 1) {
        var c := schedule[n - 1];
        InvAlways(states, schedule, n - 1);
        assert Step(states[n - 1], c.t, c.a) == Some(states[n]);
        FromZeroBreaks(states[n - 1], c.t, c.a);
      }
    }
  }

  // ---------- the theorems ----------

  /** The count is the number of outstanding references, so counting down always starts above zero. */
  lemma CountIsReferences(states: seq<Slot>, schedule: seq<Choice>, n: nat)
    requires IsRun(states, schedule) && n < |states| && NoneFromZero(states, schedule, n)
    ensures states[n].count == |states[n].refs|
    ensures forall t :: t in states[n].threads && (states[n].threads[t].PutDec? || states[n].threads[t].TryUndo?) ==>
              states[n].count > 0
    ensures forall t :: t in states[n].threads && states[n].threads[t].PutLoad? ==> states[n].count > 0
  {
    InvAlways(states, schedule, n);
  }

  /** Zero is absorbing: from a count of zero only the count's store for a new issue leads away. */
  lemma ZeroIsAbsorbing(states: seq<Slot>, schedule: seq<Choice>, n: nat)
    requires IsRun(states, schedule) && n + 1 < |states| && NoneFromZero(states, schedule, n + 1)
    requires states[n].count == 0 && states[n + 1].count != 0
    ensures schedule[n].t in states[n].threads && states[n].threads[schedule[n].t].Popped?
  {
    InvAlways(states, schedule, n);
    assert Step(states[n], schedule[n].t, schedule[n].a) == Some(states[n + 1]);
  }

  /** A live event is pending free only since a uevent_free of its own: what its slot's last event left is gone. */
  lemma {:induction false} PendingSinceLinked(states: seq<Slot>, schedule: seq<Choice>, n: nat)
    requires IsRun(states, schedule) && n < |states| && states[n].linked && states[n].pending
    ensures exists m: nat :: m < n && schedule[m].a == MarkPending && forall i: nat :: m <= i <= n ==> states[i].linked
  {
    assert n > 0;
    assert Step(states[n - 1], schedule[n - 1].t, schedule[n - 1].a) == Some(states[n]);
    if !(schedule[n - 1].a.MarkPending? && states[n - 1].linked) {
      PendingSinceLinked(states, schedule, n - 1);
    }
  }

  // ---------- what uevent_try_ref answers ----------

  predicate InTry(pc: Pc) { pc.TryLoad? || pc.TryCas? || pc.TryEvent? || pc.TryPending? || pc.TryUndo? }

  /** From state m to state n thread `t` is inside one call of uevent_try_ref. */
  ghost predicate Trying(states: seq<Slot>, t: Tid, m: nat, n: nat)
    requires n < |states|
  {
    m <= n && forall i: nat :: m <= i <= n ==> t in states[i].threads && InTry(states[i].threads[t])
  }

  predicate Refusable(s: Slot) { s.count == 0 || !s.linked || s.pending }

  lemma OtherStands(s: Slot, t: Tid, a: Act, u: Tid)
    requires Step(s, t, a).Some? && u != t
    ensures u in s.threads <==> u in Step(s, t, a).value.threads
    ensures u in s.threads ==> Step(s, t, a).value.threads[u] == s.threads[u]
  {
    if s.threads[t].Idle? { IdleStands(s, t, a, u); }
  }

  lemma IdleStands(s: Slot, t: Tid, a: Act, u: Tid)
    requires t in s.threads && Idling(s, t, a).Some? && u != t
    ensures u in s.threads <==> u in Idling(s, t, a).value.threads
    ensures u in s.threads ==> Idling(s, t, a).value.threads[u] == s.threads[u]
  {
  }

  /** A thread on its way to giving or refusing has just seen why. */
  lemma TryHere(s: Slot, t: Tid, a: Act)
    requires Step(s, t, a).Some? && t in Step(s, t, a).value.threads
    ensures var pc' := Step(s, t, a).value.threads[t];
      && (pc'.TryPending? ==> s.threads[t].TryEvent? && s.linked)
      && (pc'.TryUndo? ==> (s.threads[t].TryEvent? || s.threads[t].TryPending?) && Refusable(s))
  {
    match s.threads[t]
    case Idle =>
    case _ =>
  }

  lemma {:induction false} TrySaw(states: seq<Slot>, schedule: seq<Choice>, n: nat, t: Tid)
    requires IsRun(states, schedule) && n < |states| && t in states[n].threads
    ensures states[n].threads[t].TryPending? ==> exists m: nat :: Trying(states, t, m, n) && states[m].linked
    ensures states[n].threads[t].TryUndo? ==> exists m: nat :: Trying(states, t, m, n) && Refusable(states[m])
  {
    if n > 0 && (states[n].threads[t].TryPending? || states[n].threads[t].TryUndo?) {
      TryStep(states, schedule, n - 1, t);
      if Reasoned(states[n - 1], states[n], t) {
        assert Trying(states, t, n - 1, n);
      } else {
        TrySaw(states, schedule, n - 1, t);
        var m: nat :| Trying(states, t, m, n - 1)
          && if states[n].threads[t].TryPending? then states[m].linked else Refusable(states[m]);
        assert Trying(states, t, m, n);
      }
    }
  }

  /** In state s the thread sees what makes it go where it is in s'. */
  predicate Reasoned(s: Slot, s': Slot, t: Tid) {
    && t in s.threads && t in s'.threads && InTry(s.threads[t])
    && (s'.threads[t].TryPending? ==> s.linked) && (s'.threads[t].TryUndo? ==> Refusable(s))
  }

  lemma TryStep(states: seq<Slot>, schedule: seq<Choice>, n: nat, t: Tid)
    requires IsRun(states, schedule) && n < |schedule| && t in states[n + 1].threads
    requires states[n + 1].threads[t].TryPending? || states[n + 1].threads[t].TryUndo?
    ensures t in states[n].threads
    ensures states[n].threads[t] == states[n + 1].threads[t] || Reasoned(states[n], states[n + 1], t)
  {
    var c := schedule[n];
    assert Step(states[n], c.t, c.a) == Some(states[n + 1]);
    if c.t == t {
      TryHere(states[n], t, c.a);
    } else {
      OtherStands(states[n], c.t, c.a, t);
    }
  }

  /**
    uevent_try_ref's answer was right at some moment of the call.  It gives a reference, which is then
    outstanding, only for an event that it found in the slot and not pending free; it refuses, and leaves no
    reference behind, only if it found the count at zero, no event, or one pending free.
   */
  lemma TryAnswers(states: seq<Slot>, schedule: seq<Choice>, n: nat, t: Tid)
    requires IsRun(states, schedule) && n < |schedule| && NoneFromZero(states, schedule, n) && schedule[n].t == t
    requires t in states[n].threads && InTry(states[n].threads[t]) && states[n + 1].threads[t].Idle?
    ensures var mine := Mine(states[n].threads[t]);
      if mine.Some? && mine.value in states[n + 1].refs then
        !states[n].pending && exists m: nat :: Trying(states, t, m, n) && states[m].linked
      else
        && states[n + 1].refs <= states[n].refs
        && exists m: nat :: Trying(states, t, m, n) && Refusable(states[m])
  {
    InvAlways(states, schedule, n);
    TrySaw(states, schedule, n, t);
    assert Step(states[n], t, schedule[n].a) == Some(states[n + 1]);
    assert Trying(states, t, n, n);
  }

  /** Destruction: by one thread, once per issue, and with no reference outstanding, not even a transient one. */
  lemma DestroyedOnce(states: seq<Slot>, schedule: seq<Choice>, n: nat, t: Tid)
    requires IsRun(states, schedule) && n < |states| && NoneFromZero(states, schedule, n)
    requires t in states[n].threads && Destroying(states[n].threads[t])
    ensures states[n].refs == {} && !states[n].free && states[n].destroyed <= 1
    ensures forall u :: u in states[n].threads && Destroying(states[n].threads[u]) ==> u == t
    ensures states[n].threads[t].Unlink? ==> states[n].linked && states[n].destroyed == 0
  {
    InvAlways(states, schedule, n);
  }

  /**
    When no reference is outstanding the slot is free, is being issued or destroyed, or is lost for
    good; it is lost exactly when the last reference was a transient one that uevent_try_ref undid,
    because that undoing does not test for zero.
   */
  lemma DestroyedUnlessUndone(states: seq<Slot>, schedule: seq<Choice>, n: nat)
    requires IsRun(states, schedule) && n < |states| && NoneFromZero(states, schedule, n)
    requires states[n].refs == {} && !states[n].free
    ensures states[n].leaked <==> !exists t :: t in states[n].threads && Keeps(states[n].threads[t])
  {
    InvAlways(states, schedule, n);
  }

  /** A lost slot stays lost: it is never destroyed, never free and never issued again. */
  lemma LostForGood(states: seq<Slot>, schedule: seq<Choice>, n: nat, m: nat)
    requires IsRun(states, schedule) && n <= m < |states| && NoneFromZero(states, schedule, m) && states[n].leaked
    ensures states[m].leaked && !states[m].free && states[m].count == 0 && states[m].destroyed == 0
  {
    InvAlways(states, schedule, m);
    LostFrom(states, schedule, n, m);
  }

  lemma {:induction false} LostFrom(states: seq<Slot>, schedule: seq<Choice>, n: nat, m: nat)
    requires IsRun(states, schedule) && n <= m < |states| && states[n].leaked
    ensures states[m].leaked
  {
    if n < m {
      LostFrom(states, schedule, n, m - 1);
      assert Step(states[m - 1], schedule[m - 1].t, schedule[m - 1].a) == Some(states[m]);
      LostStays(states[m - 1], schedule[m - 1].t, schedule[m - 1].a);
    }
  }

  lemma LostStays(s: Slot, t: Tid, a: Act)
    requires s.leaked && Step(s, t, a).Some?
    ensures Step(s, t, a).value.leaked
  {
  }

  /** A step loses the slot exactly when it is try_ref's undoing of the only reference left. */
  lemma LostWhen(s: Slot, t: Tid, a: Act)
    requires Inv(s) && Step(s, t, a).Some? && !s.leaked
    ensures Step(s, t, a).value.leaked <==> s.threads[t].TryUndo? && s.refs == {s.threads[t].mine}
  {
    if s.threads[t].TryUndo? {
      LostByUndo(s, s.threads[t].mine);
    } else {
      LostNoOtherWay(s, t, a);
    }
  }

  lemma LostNoOtherWay(s: Slot, t: Tid, a: Act)
    requires Step(s, t, a).Some? && !s.leaked && !s.threads[t].TryUndo?
    ensures !Step(s, t, a).value.leaked
  {
  }

  lemma LostByUndo(s: Slot, r: Ref)
    requires Owned(s) && r in s.refs
    ensures s.count == 1 <==> s.refs == {r}
  {
    Minus(s.refs, r);
    if s.count == 1 {
      assert s.refs == (s.refs - {r}) + {r};
    }
  }

  /** A slot issued by thread 1 under reference 7, in five steps from a free one. */
  lemma JustIssued() returns (s: Slot, states: seq<Slot>, schedule: seq<Choice>)
    ensures IsRun(states, schedule) && states[|states| - 1] == s
    ensures forall k: nat :: k < |schedule| ==> !schedule[k].a.Copy?
    ensures s == Slot(1, true, false, false, map[1 := Idle, 2 := Idle], {7}, 0, false)
  {
    var s0 := Slot(0, false, false, true, map[1 := Idle, 2 := Idle], {}, 0, false);
    var s1 := Step(s0, 1, Issue).value;
    var s2 := Step(s1, 1, Take(7)).value;
    s := Step(s2, 1, Go).value;
    states := [s0, s1, s2, s];
    schedule := [Choice(1, Issue), Choice(1, Take(7)), Choice(1, Go)];
  }

  /** Thread 2 has counted up just before the owner, thread 1, set pending_free. */
  lemma CountedJustBefore() returns (s: Slot, states: seq<Slot>, schedule: seq<Choice>)
    ensures IsRun(states, schedule) && states[|states| - 1] == s
    ensures forall k: nat :: k < |schedule| ==> !schedule[k].a.Copy?
    ensures s.threads == map[1 := Idle, 2 := TryEvent(8)] && s.refs == {7, 8}
    ensures s.count == 2 && s.linked && s.pending
  {
    var s1, prefix, before := JustIssued();
    var s2 := Step(s1, 2, StartTry).value;
    var s3 := Step(s2, 2, Go).value;
    var s4 := Step(s3, 2, Take(8)).value;
    s := Step(s4, 1, MarkPending).value;
    states := prefix + [s2, s3, s4, s];
    schedule := before + [Choice(2, StartTry), Choice(2, Go), Choice(2, Take(8)), Choice(1, MarkPending)];
  }

  /** It can happen: an owner frees the event while another thread is inside uevent_try_ref. */
  lemma SlotLost() returns (states: seq<Slot>, schedule: seq<Choice>)
    ensures IsRun(states, schedule) && NoneFromZero(states, schedule, |schedule|) && states[|states| - 1].leaked
  {
    var s, prefix, before := CountedJustBefore();
    var s1 := Step(s, 2, Go).value;
    var s2 := Step(s1, 2, Go).value;
    var s3 := Step(s2, 1, StartPut(7)).value;
    var s4 := Step(s3, 1, Go).value;
    var s5 := Step(s4, 1, Go).value;
    var s6 := Step(s5, 2, Go).value;
    states := prefix + [s1, s2, s3, s4, s5, s6];
    schedule := before + [Choice(2, Go), Choice(2, Go), Choice(1, StartPut(7)),
                          Choice(1, Go), Choice(1, Go), Choice(2, Go)];
  }

  /** uevent_try_ref can meet a slot that is counted and not yet linked: it then undoes its count. */
  lemma EventMissing() returns (states: seq<Slot>, schedule: seq<Choice>)
    ensures IsRun(states, schedule)
    ensures var s := states[|states| - 1]; 2 in s.threads && s.threads[2] == TryUndo(8) && !s.linked && s.count == 2
  {
    var s0 := Slot(0, false, false, true, map[1 := Idle, 2 := Idle], {}, 0, false);
    var s1 := Step(s0, 1, Issue).value;
    var s2 := Step(s1, 1, Take(7)).value;
    var s3 := Step(s2, 2, StartTry).value;
    var s4 := Step(s3, 2, Go).value;
    var s5 := Step(s4, 2, Take(8)).value;
    var s6 := Step(s5, 2, Go).value;
    states := [s0, s1, s2, s3, s4, s5, s6];
    schedule := [Choice(1, Issue), Choice(1, Take(7)), Choice(2, StartTry),
                 Choice(2, Go), Choice(2, Take(8)), Choice(2, Go)];
  }

  /** The expiry loop, thread 2, has dropped the timer's reference and holds none; the owner has freed the event. */
  lemma TimerDropped() returns (s: Slot, states: seq<Slot>, schedule: seq<Choice>)
    ensures IsRun(states, schedule) && states[|states| - 1] == s
    ensures s.threads == map[1 := Unlink, 2 := Idle] && s.refs == {} && s.count == 0
  {
    var s1, prefix, before := JustIssued();
    var s2 := Step(s1, 1, Copy(9)).value;
    var s3 := Step(s2, 2, StartPut(9)).value;
    var s4 := Step(s3, 2, Go).value;
    var s5 := Step(s4, 2, Go).value;
    var s6 := Step(s5, 1, MarkPending).value;
    var s7 := Step(s6, 1, StartPut(7)).value;
    var s8 := Step(s7, 1, Go).value;
    s := Step(s8, 1, Go).value;
    states := prefix + [s2, s3, s4, s5, s6, s7, s8, s];
    schedule := before + [Choice(1, Copy(9)), Choice(2, StartPut(9)), Choice(2, Go), Choice(2, Go),
                          Choice(1, MarkPending), Choice(1, StartPut(7)), Choice(1, Go), Choice(1, Go)];
  }

  /**
    It can happen: the expiry loop re-arms a timer by a plain uevent_ref after it has dropped the timer's
    own reference, and the owner frees the event in between.
   */
  lemma RefFromZero() returns (states: seq<Slot>, schedule: seq<Choice>)
    ensures IsRun(states, schedule) && |schedule| > 0 && !Inv(states[|states| - 1])
    ensures FromZero(states[|states| - 2], schedule[|schedule| - 1].a)
  {
    var s, prefix, before := TimerDropped();
    var s1 := Step(s, 2, Copy(10)).value;
    states := prefix + [s1];
    schedule := before + [Choice(2, Copy(10))];
    assert s1.threads[1] == Unlink && !Alone(s1, s1.threads[1]);
  }
}
