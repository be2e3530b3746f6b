/**
  One pass of the expiry loop (uevent/uevent.c:829-914) as a sequence of turns on the timer heap.
  A persistent timer is re-armed from its own deadline; any other leaves the heap.
 */
module TimerPass {

  /** What a turn for timer `i` does to the heap; `period` holds the persistent timers. */
  function Turn(heap: map<nat, nat>, period: map<nat, nat>, i: nat): map<nat, nat>
    requires i in heap
  {
    if i in period then heap[i := heap[i] + period[i]] else heap - {i}
  }

  /** The loop would take timer `i` next at time `now`. */
  ghost predicate Due(heap: map<nat, nat>, now: nat, i: nat) {
    i in heap && heap[i] <= now && forall j :: j in heap ==> heap[i] <= heap[j]
  }

  /** The heaps a pass goes through, and the timers it expires. */
  ghost predicate IsPass(heaps: seq<map<nat, nat>>, log: seq<nat>, period: map<nat, nat>, now: nat) {
    && |heaps| == |log| + 1
    && (forall i :: i in period ==> period[i] > 0)
    && (forall n: nat :: n < |log| ==> TurnAt(heaps, log, period, now, n))
  }

  ghost predicate TurnAt(heaps: seq<map<nat, nat>>, log: seq<nat>, period: map<nat, nat>, now: nat, n: nat)
    requires |heaps| == |log| + 1 && n < |log|
  {
    Due(heaps[n], now, log[n]) && heaps[n + 1] == Turn(heaps[n], period, log[n])
  }

  /** No timer is due any more: the pass ended of itself, not for lack of budget. */
  ghost predicate Ended(heap: map<nat, nat>, now: nat) {
    forall i :: i in heap ==> heap[i] > now
  }

  function Times(log: seq<nat>, i: nat): nat {
    if log == [] then 0 else Times(log[..|log| - 1], i) + if log[|log| - 1] == i then 1 else 0
  }

  lemma TimesStep(log: seq<nat>, n: nat, i: nat)
    requires n < |log|
    ensures Times(log[..n + 1], i) == Times(log[..n], i) + if log[n] == i then 1 else 0
  {
    assert log[..n + 1][..n] == log[..n];
  }

  /** Where a timer stands after `c` expiries. */
  ghost predicate Stands(heap0: map<nat, nat>, heap: map<nat, nat>, period: map<nat, nat>, now: nat, i: nat, c: nat) {
    if i !in heap0 then c == 0 && i !in heap
    else if i in period then
      && i in heap && heap[i] == heap0[i] + c * period[i]
      && (c > 0 ==> heap0[i] + (c - 1) * period[i] <= now)
    else
      && c <= 1 && (c == 1 ==> heap0[i] <= now)
      && (if c == 0 then i in heap && heap[i] == heap0[i] else i !in heap)
  }

  lemma {:induction false} StandsAlways(heaps: seq<map<nat, nat>>, log: seq<nat>, period: map<nat, nat>,
                                        now: nat, n: nat, i: nat)
    requires IsPass(heaps, log, period, now) && n <= |log|
    ensures Stands(heaps[0], heaps[n], period, now, i, Times(log[..n], i))
  {
    if n > 0 {
      StandsAlways(heaps, log, period, now, n - 1, i);
      assert TurnAt(heaps, log, period, now, n - 1);
      TimesStep(log, n - 1, i);
      if log[n - 1] == i && i in heaps[0] && i in period {
        StandsNext(heaps[0][i], period[i], Times(log[..n - 1], i));
      }
    } else {
      assert log[..0] == [];
      if i in period {
        assert 0 * period[i] == 0;
      }
    }
  }

  lemma StandsNext(k: nat, t: nat, c: nat)
    ensures k + c * t + t == k + (c + 1) * t
  {
  }

  /** Expiries happen in the order of their deadlines, none before its time. */
  lemma {:induction false} InOrder(heaps: seq<map<nat, nat>>, log: seq<nat>, period: map<nat, nat>,
                                   now: nat, n: nat, m: nat)
    requires IsPass(heaps, log, period, now) && n <= m < |log|
    ensures log[n] in heaps[n] && log[m] in heaps[m] && heaps[n][log[n]] <= heaps[m][log[m]] <= now
  {
    assert TurnAt(heaps, log, period, now, m);
    if n < m {
      InOrder(heaps, log, period, now, n, m - 1);
      assert TurnAt(heaps, log, period, now, m - 1);
    }
  }

  /**
    How often each timer expires in a pass that ended of itself.  A persistent timer with deadline
    k <= now and period t expires floor((now - k) / t) + 1 times and is left at its first deadline
    after now; a one-shot timer that was due expires once and is gone; no other timer expires.
   */
  lemma ExpiresExactly(heaps: seq<map<nat, nat>>, log: seq<nat>, period: map<nat, nat>, now: nat, i: nat)
    requires IsPass(heaps, log, period, now) && Ended(heaps[|log|], now) && i in heaps[0]
    ensures var k, c, last := heaps[0][i], Times(log, i), heaps[|log|];
      if k > now then c == 0 && i in last && last[i] == k
      else if i in period then
        && period[i] > 0 && c == (now - k) / period[i] + 1
        && i in last && last[i] == k + c * period[i] && last[i] > now && last[i] - period[i] <= now
      else c == 1 && i !in last
  {
    StandsAlways(heaps, log, period, now, |log|, i);
    assert log[..|log|] == log;
    if i in period {
      Exactly(heaps[0][i], period[i], Times(log, i), now, heaps[|log|][i]);
    }
  }

  lemma Exactly(k: nat, t: nat, c: nat, now: nat, last: nat)
    requires t > 0 && last == k + c * t && last > now && (c > 0 ==> k + (c - 1) * t <= now)
    ensures if k > now then c == 0 && last == k else c == (now - k) / t + 1 && last - t <= now
  {
    assert c > 0 ==> (c - 1) * t >= 0;
    assert c == 0 ==> c * t == 0;
    if k <= now { Quotient(now - k, t, c); }
  }

  lemma Quotient(d: nat, t: nat, c: nat)
    requires t > 0 && c > 0 && (c - 1) * t <= d < c * t
    ensures c == d / t + 1 && c * t - t <= d
  {
    var q := d / t;
    assert q * t <= d < q * t + t;
    assert (c - 1) * t == c * t - t && (q + 1) * t == q * t + t;
    assert q >= c ==> q * t >= c * t;
    assert q + 1 <= c - 1 ==> (q + 1) * t <= (c - 1) * t;
  }

  // ---------- the loop would end without its budget ----------

  function Overdue(key: nat, now: nat): nat { if key <= now then now + 1 - key else 0 }

  /** The milliseconds by which the heap's timers are overdue, added up. */
  ghost function Backlog(heap: map<nat, nat>, now: nat): nat
    decreases |heap|
  {
    if heap == map[] then 0
    else
      var i :| i in heap;
      Smaller(heap, i);
      Overdue(heap[i], now) + Backlog(heap - {i}, now)
  }

  lemma Smaller(heap: map<nat, nat>, i: nat)
    requires i in heap
    ensures |heap - {i}| == |heap| - 1
  {
    assert (heap - {i}).Keys == heap.Keys - {i};
  }

  lemma {:induction false} BacklogSplit(heap: map<nat, nat>, now: nat, i: nat)
    requires i in heap
    ensures Backlog(heap, now) == Overdue(heap[i], now) + Backlog(heap - {i}, now)
    decreases |heap|
  {
    var j :| j in heap && Backlog(heap, now) == (Smaller(heap, j); Overdue(heap[j], now) + Backlog(heap - {j}, now));
    if j != i {
      Smaller(heap, j);
      Smaller(heap, i);
      BacklogSplit(heap - {j}, now, i);
      BacklogSplit(heap - {i}, now, j);
      assert heap - {j} - {i} == heap - {i} - {j};
    }
  }

  /** Each turn lowers the backlog, so the loop ends even without its budget of 500 turns. */
  lemma BacklogFalls(heap: map<nat, nat>, period: map<nat, nat>, now: nat, i: nat)
    requires i in heap && heap[i] <= now && (i in period ==> period[i] > 0)
    ensures Backlog(Turn(heap, period, i), now) < Backlog(heap, now)
  {
    var heap' := Turn(heap, period, i);
    BacklogSplit(heap, now, i);
    if i in period {
      BacklogSplit(heap', now, i);
      assert heap' - {i} == heap - {i};
    }
  }
}
