/**
  Both heaps against one abstract priority queue: on the same operations the array heap and the
  pointer heap hand out the same keys in the same order, namely those a multiset of keys would.
 */
module HeapRuns {
  import opened Common
  import ArrayHeap
  import LinkedHeap
  import opened HeapOrder

  /** Put a key, take a least key, drop one node with the given key or change its key, if there is one. */
  datatype Op = Put(key: nat) | TakeLeast | Drop(key: nat) | Move(key: nat, to: nat)

  ghost predicate IsLeast(b: multiset<nat>, k: nat) {
    k in b && forall x :: x in b ==> k <= x
  }

  lemma {:induction false} LeastExists(b: multiset<nat>)
    requires b != multiset{}
    ensures exists k :: IsLeast(b, k)
    decreases |b|
  {
    var x :| x in b;
    var rest := b - multiset{x};
    if rest == multiset{} {
      assert b == multiset{x};
      assert IsLeast(b, x);
    } else {
      LeastExists(rest);
      var k :| IsLeast(rest, k);
      assert forall y :: y in b ==> y == x || y in rest;
      assert IsLeast(b, if x < k then x else k);
    }
  }

  ghost function Least(b: multiset<nat>): (k: nat)
    requires b != multiset{}
    ensures IsLeast(b, k)
  {
    LeastExists(b);
    var k :| IsLeast(b, k);
    k
  }

  /** The bag's answer to one operation. */
  ghost function Answer(b: multiset<nat>, op: Op): seq<Option<nat>> {
    if !op.TakeLeast? then [] else if b == multiset{} then [None] else [Some(Least(b))]
  }

  /** The bag after one operation. */
  ghost function After(b: multiset<nat>, op: Op): multiset<nat> {
    match op
    case Put(k) => b + multiset{k}
    case TakeLeast => if b == multiset{} then b else b - multiset{Least(b)}
    case Drop(k) => b - multiset{k}
    case Move(k, to) => if k in b then b - multiset{k} + multiset{to} else b
  }

  /** What a multiset of keys hands out in a run. */
  ghost function Outputs(b: multiset<nat>, ops: seq<Op>): seq<Option<nat>>
    decreases |ops|
  {
    if ops == [] then [] else Answer(b, ops[0]) + Outputs(After(b, ops[0]), ops[1..])
  }

  /** The bag after a run of operations. */
  ghost function BagFrom(b: multiset<nat>, ops: seq<Op>): multiset<nat>
    decreases |ops|
  {
    if ops == [] then b else BagFrom(After(b, ops[0]), ops[1..])
  }

  ghost function Bag(ops: seq<Op>): multiset<nat> { BagFrom(multiset{}, ops) }

  lemma {:induction false} BagMore(b: multiset<nat>, ops: seq<Op>, op: Op)
    ensures BagFrom(b, ops + [op]) == After(BagFrom(b, ops), op)
    decreases |ops|
  {
    if ops == [] {
      assert ops + [op] == [op] && [op][1..] == [];
    } else {
      assert (ops + [op])[1..] == ops[1..] + [op];
      BagMore(After(b, ops[0]), ops[1..], op);
    }
  }

  /** One operation more at the end of a run. */
  lemma {:induction false} OutputsMore(b: multiset<nat>, ops: seq<Op>, op: Op)
    ensures Outputs(b, ops + [op]) == Outputs(b, ops) + Answer(BagFrom(b, ops), op)
    decreases |ops|
  {
    if ops == [] {
      assert ops + [op] == [op] && [op][1..] == [];
    } else {
      assert (ops + [op])[0] == ops[0] && (ops + [op])[1..] == ops[1..] + [op];
      OutputsMore(After(b, ops[0]), ops[1..], op);
    }
  }

  /** A full array heap refuses a put. */
  ghost predicate Refused(b: multiset<nat>, op: Op, capacity: nat) { op.Put? && |b| >= capacity }

  /** The operations of a run that an array heap does not refuse. */
  ghost function Kept(ops: seq<Op>, capacity: nat): seq<Op> {
    if ops == [] then []
    else
      var kept, op := Kept(ops[..|ops| - 1], capacity), ops[|ops| - 1];
      if Refused(Bag(kept), op, capacity) then kept else kept + [op]
  }

  lemma KeptMore(ops: seq<Op>, i: nat, capacity: nat)
    requires i < |ops|
    ensures var kept := Kept(ops[..i], capacity);
      Kept(ops[..i + 1], capacity) == if Refused(Bag(kept), ops[i], capacity) then kept else kept + [ops[i]]
  {
    assert ops[..i + 1][..i] == ops[..i];
  }

  /** Operation n of a run is not refused when all before it are done. */
  ghost predicate Accepted(ops: seq<Op>, n: nat, capacity: nat)
    requires n < |ops|
  {
    !Refused(Bag(ops[..n]), ops[n], capacity)
  }

  /** A run whose puts never find the heap full is kept whole. */
  lemma {:induction false} KeptWhole(ops: seq<Op>, n: nat, capacity: nat)
    requires n <= |ops| && forall k: nat :: k < n ==> Accepted(ops, k, capacity)
    ensures Kept(ops[..n], capacity) == ops[..n]
  {
    if n > 0 {
      var k := n - 1;
      KeptWhole(ops, k, capacity);
      KeptMore(ops, k, capacity);
      assert Accepted(ops, k, capacity);
      OneLonger(ops, k);
    }
  }

  lemma OneLonger<T>(s: seq<T>, k: nat)
    requires k < |s|
    ensures s[..k + 1] == s[..k] + [s[k]]
  {
  }

  /**
    The array heap can do an operation: a node that is put gets a back-index that fits, and a node's
    key changes only while some slot is free.  A full heap can be taken and dropped from.
   */
  ghost predicate ArrayFits(b: multiset<nat>, op: Op, capacity: nat) {
    match op
    case Put(_) => |b| < capacity ==> |b| < ArrayHeap.MAX_NODES
    case Move(k, _) => k in b ==> |b| < capacity
    case _ => true
  }

  /** The pointer heap has room for an operation: its count stays in 32 bits. */
  ghost predicate LinkedFits(b: multiset<nat>, op: Op) { op.Put? ==> |b| + 1 < U32 }

  lemma SeqIsBag<T>(s: seq<T>)
    ensures forall x :: x in s <==> x in multiset(s)
    ensures s == [] <==> multiset(s) == multiset{}
  {
    if s != [] {
      assert s[0] in multiset(s);
    }
  }

  lemma SplitOne<T>(s: seq<T>, i: nat)
    requires i < |s|
    ensures multiset(s) == multiset(MoveLast(s, i)) + multiset{s[i]}
  {
    MoveLastBag(s, i);
    assert s[i] in multiset(s);
  }

  /** Nodes that are the same bag have the same bag of keys. */
  lemma {:induction false} SameKeys<N>(s: seq<N>, ks: seq<nat>, t: seq<N>, kt: seq<nat>)
    requires |s| == |ks| && |t| == |kt| && multiset(s) == multiset(t)
    requires forall i, j :: 0 <= i < |s| && 0 <= j < |t| && s[i] == t[j] ==> ks[i] == kt[j]
    ensures multiset(ks) == multiset(kt)
    decreases |s|
  {
    SeqIsBag(s);
    SeqIsBag(t);
    if s != [] {
      var n := |s| - 1;
      assert s[n] in t;
      var j :| 0 <= j < |t| && t[j] == s[n];
      MoveLastBag(s, n);
      MoveLastBag(t, j);
      PairsKept(s, ks, t, kt, n, j);
      SameKeys(MoveLast(s, n), MoveLast(ks, n), MoveLast(t, j), MoveLast(kt, j));
      SplitOne(ks, n);
      SplitOne(kt, j);
    } else {
      assert t == [];
    }
  }

  lemma PairsKept<N>(s: seq<N>, ks: seq<nat>, t: seq<N>, kt: seq<nat>, n: nat, m: nat)
    requires |s| == |ks| && |t| == |kt| && n < |s| && m < |t|
    requires forall i, j :: 0 <= i < |s| && 0 <= j < |t| && s[i] == t[j] ==> ks[i] == kt[j]
    ensures var s', ks', t', kt' := MoveLast(s, n), MoveLast(ks, n), MoveLast(t, m), MoveLast(kt, m);
      forall i, j :: 0 <= i < |s'| && 0 <= j < |t'| && s'[i] == t'[j] ==> ks'[i] == kt'[j]
  {
  }

  /** The same, when `t` and `x` together make up `s`. */
  lemma SameKeysPlus<N>(s: seq<N>, ks: seq<nat>, t: seq<N>, kt: seq<nat>, x: N, kx: nat)
    requires |s| == |ks| && |t| == |kt| && x in s && multiset(t) == multiset(s) - multiset{x}
    requires forall i, j :: 0 <= i < |s| && 0 <= j < |t| && s[i] == t[j] ==> ks[i] == kt[j]
    requires forall i :: 0 <= i < |s| && s[i] == x ==> ks[i] == kx
    ensures multiset(kt) == multiset(ks) - multiset{kx}
    ensures kx in multiset(ks)
  {
    SeqIsBag(s);
    PairsAppended(s, ks, t, kt, x, kx);
    assert multiset(t + [x]) == multiset(s);
    SameKeys(s, ks, t + [x], kt + [kx]);
  }

  lemma PairsAppended<N>(s: seq<N>, ks: seq<nat>, t: seq<N>, kt: seq<nat>, x: N, kx: nat)
    requires |s| == |ks| && |t| == |kt|
    requires forall i, j :: 0 <= i < |s| && 0 <= j < |t| && s[i] == t[j] ==> ks[i] == kt[j]
    requires forall i :: 0 <= i < |s| && s[i] == x ==> ks[i] == kx
    ensures var t', kt' := t + [x], kt + [kx];
      forall i, j :: 0 <= i < |s| && 0 <= j < |t'| && s[i] == t'[j] ==> ks[i] == kt'[j]
  {
  }

  lemma LeastOfSeq(keys: seq<nat>, k: nat)
    requires k in keys && forall i :: 0 <= i < |keys| ==> k <= keys[i]
    ensures multiset(keys) != multiset{} && Least(multiset(keys)) == k
  {
    SeqIsBag(keys);
    assert IsLeast(multiset(keys), k);
  }

  method IndexOf<T(==)>(s: seq<T>, x: T) returns (i: int)
    ensures -1 <= i < |s|
    ensures if i < 0 then x !in s else s[i] == x
  {
    i := 0;
    while i < |s|
      invariant 0 <= i <= |s| && x !in s[..i]
    {
      if s[i] == x { return; }
      i := i + 1;
    }
    i := -1;
  }

  // ---------- the array heap ----------

  method ArrayPut(heap: ArrayHeap.MinHeap, key: nat)
    requires heap.Whole() && ArrayFits(multiset(heap.keys), Put(key), heap.capacity)
    modifies heap, heap.arr, heap.slots`idx
    ensures heap.Whole()
    ensures var b := old(multiset(heap.keys));
      multiset(heap.keys) == if Refused(b, Put(key), heap.capacity) then b else b + multiset{key}
    ensures forall n :: n in heap.slots && n !in old(heap.slots) ==> fresh(n)
  {
    var n := new ArrayHeap.Node(key);
    ghost var slots, keys := heap.slots, heap.keys;
    var r := heap.Insert(n);
    if r == 0 {
      SameKeys(slots + [n], keys + [key], heap.slots, heap.keys);
      SeqIsBag(slots);
      SeqIsBag(heap.slots);
    }
  }

  lemma TakenLeast(slots: seq<ArrayHeap.Node>, keys: seq<nat>, slots': seq<ArrayHeap.Node>,
                   keys': seq<nat>, min: ArrayHeap.Node)
    requires |slots| == |keys| && |slots'| == |keys'| && min in slots
    requires multiset(slots') == multiset(slots) - multiset{min}
    requires forall i :: 0 <= i < |slots| ==> slots[i].key == keys[i]
    requires forall i :: 0 <= i < |slots'| ==> slots'[i].key == keys'[i]
    requires forall n :: n in slots ==> min.key <= n.key
    ensures multiset(keys) != multiset{} && Least(multiset(keys)) == min.key
    ensures multiset(keys') == multiset(keys) - multiset{min.key}
    ensures min.key in keys && forall k :: k in keys ==> min.key <= k
    ensures [Some(min.key)] == Answer(multiset(keys), TakeLeast)
    ensures multiset(keys') == After(multiset(keys), TakeLeast)
    ensures forall n :: n in slots' ==> n in slots
  {
    SeqIsBag(slots);
    SeqIsBag(slots');
    SameKeysPlus(slots, keys, slots', keys', min, min.key);
    SeqIsBag(keys);
    assert forall i :: 0 <= i < |keys| ==> slots[i] in slots && min.key <= keys[i];
    LeastOfSeq(keys, min.key);
  }

  method ArrayTake(heap: ArrayHeap.MinHeap) returns (out: Option<nat>)
    requires heap.Whole()
    modifies heap, heap.arr, heap.slots`idx
    ensures heap.Whole() && heap.size <= old(heap.size)
    ensures [out] == Answer(old(multiset(heap.keys)), TakeLeast)
    ensures multiset(heap.keys) == After(old(multiset(heap.keys)), TakeLeast)
    ensures out.None? ==> old(heap.keys) == []
    ensures out.Some? ==>
          && out.value in old(heap.keys) && (forall k :: k in old(heap.keys) ==> out.value <= k)
          && multiset(heap.keys) == old(multiset(heap.keys)) - multiset{out.value}
    ensures forall n :: n in heap.slots ==> n in old(heap.slots)
  {
    ghost var slots, keys := heap.slots, heap.keys;
    var min := heap.ExtractMin();
    if min == null {
      assert keys == [];
      return None;
    }
    TakenLeast(slots, keys, heap.slots, heap.keys, min);
    return Some(min.key);
  }

  /** A node with this key, if there is one. */
  method ArrayFind(heap: ArrayHeap.MinHeap, key: nat) returns (i: nat, n: ArrayHeap.Node?)
    requires heap.Whole()
    ensures n == null ==> key !in heap.keys
    ensures n != null ==> i < heap.size && n == heap.slots[i] && heap.keys[i] == key
  {
    i := 0;
    while i < heap.size && heap.arr[i].key != key
      invariant 0 <= i <= heap.size && key !in heap.keys[..i]
    {
      i := i + 1;
    }
    assert i == heap.size ==> heap.keys[..i] == heap.keys;
    n := heap.GetNode(i);
  }

  method ArrayDrop(heap: ArrayHeap.MinHeap, key: nat)
    requires heap.Whole()
    modifies heap, heap.arr, heap.slots`idx
    ensures heap.Whole() && heap.size <= old(heap.size)
    ensures multiset(heap.keys) == old(multiset(heap.keys)) - multiset{key}
    ensures forall n :: n in heap.slots ==> n in old(heap.slots)
  {
    ghost var slots, keys := heap.slots, heap.keys;
    SeqIsBag(slots);
    SeqIsBag(keys);
    var i, n := ArrayFind(heap, key);
    if n != null {
      heap.Delete(n);
      SameKeysPlus(slots, keys, heap.slots, heap.keys, n, key);
    }
  }

  /** A live node's key is changed in place and the node inserted again, as re-arming a timer does. */
  method ArrayMove(heap: ArrayHeap.MinHeap, key: nat, to: nat)
    requires heap.Whole() && ArrayFits(multiset(heap.keys), Move(key, to), heap.capacity)
    modifies heap, heap.arr, heap.slots`idx, heap.slots`key
    ensures heap.Whole() && heap.size == old(heap.size)
    ensures multiset(heap.keys) == After(old(multiset(heap.keys)), Move(key, to))
    ensures multiset(heap.keys) == old(multiset(heap.keys))
      - (if key in old(heap.keys) then multiset{key} else multiset{})
      + (if key in old(heap.keys) then multiset{to} else multiset{})
    ensures forall n :: n in heap.slots ==> n in old(heap.slots)
  {
    SeqIsBag(heap.keys);
    var i, n := ArrayFind(heap, key);
    if n != null { ArrayRekey(heap, i, n, to); }
  }

  method ArrayRekey(heap: ArrayHeap.MinHeap, i: nat, n: ArrayHeap.Node, to: nat)
    requires heap.Whole() && heap.size < heap.capacity && i < heap.size && heap.slots[i] == n
    modifies heap, heap.arr, heap.slots`idx, n`key
    ensures heap.Whole() && heap.size == old(heap.size)
    ensures multiset(heap.keys) == old(multiset(heap.keys)) - multiset{old(heap.keys[i])} + multiset{to}
    ensures forall x :: x in heap.slots ==> x in old(heap.slots)
  {
    ghost var slots, keys := heap.slots, heap.keys;
    assert forall j :: 0 <= j < |slots| && slots[j] == n ==> j == i;
    n.key := to;
    var r := heap.Insert(n);
    Rekeyed(slots, keys[i := to], heap.slots, heap.keys);
  }

  lemma Rekeyed(slots: seq<ArrayHeap.Node>, keys: seq<nat>, slots': seq<ArrayHeap.Node>, keys': seq<nat>)
    requires |slots| == |keys| && |slots'| == |keys'| && multiset(slots) == multiset(slots')
    requires forall i :: 0 <= i < |slots| ==> slots[i].key == keys[i]
    requires forall i :: 0 <= i < |slots'| ==> slots'[i].key == keys'[i]
    ensures |slots| == |slots'| && multiset(keys) == multiset(keys') && forall n :: n in slots' ==> n in slots
  {
    SeqIsBag(slots);
    SeqIsBag(slots');
    SameKeys(slots, keys, slots', keys');
    assert |slots| == |multiset(slots)| && |slots'| == |multiset(slots')|;
  }

  method ArrayDo(heap: ArrayHeap.MinHeap, op: Op) returns (out: seq<Option<nat>>)
    requires heap.Whole() && ArrayFits(multiset(heap.keys), op, heap.capacity)
    modifies heap, heap.arr, heap.slots`idx, heap.slots`key
    ensures heap.Whole()
    ensures out == Answer(old(multiset(heap.keys)), op)
    ensures var b := old(multiset(heap.keys));
      multiset(heap.keys) == if Refused(b, op, heap.capacity) then b else After(b, op)
    ensures forall n :: n in heap.slots && n !in old(heap.slots) ==> fresh(n)
  {
    match op {
      case Put(k) =>
        ArrayPut(heap, k);
        out := [];
      case TakeLeast =>
        var o := ArrayTake(heap);
        out := [o];
      case Drop(k) =>
        ArrayDrop(heap, k);
        out := [];
      case Move(k, to) =>
        ArrayMove(heap, k, to);
        out := [];
    }
  }

  /** Runs operations, however many, on a fresh array heap; the puts it refuses do nothing. */
  method RunArray(ops: seq<Op>, capacity: nat) returns (out: seq<Option<nat>>)
    requires 0 < capacity
    requires forall n: nat :: n < |ops| ==> ArrayFits(Bag(Kept(ops[..n], capacity)), ops[n], capacity)
    ensures out == Outputs(multiset{}, Kept(ops, capacity))
  {
    var heap := new ArrayHeap.MinHeap(capacity);
    out := [];
    var i := 0;
    ghost var kept := [];
    while i < |ops|
      invariant 0 <= i <= |ops| && heap.Whole() && heap.capacity == capacity
      invariant fresh(heap) && fresh(heap.arr) && fresh(set n | n in heap.slots)
      invariant kept == Kept(ops[..i], capacity) && multiset(heap.keys) == Bag(kept) && out == Outputs(multiset{}, kept)
    {
      KeptMore(ops, i, capacity);
      BagMore(multiset{}, kept, ops[i]);
      OutputsMore(multiset{}, kept, ops[i]);
      var o := ArrayDo(heap, ops[i]);
      kept := Kept(ops[..i + 1], capacity);
      out := out + o;
      i := i + 1;
    }
    assert ops[..i] == ops;
  }

  /** The drain loop of uevent_base_loopbreak: the nodes come out in key order, each once. */
  method Drain(heap: ArrayHeap.MinHeap) returns (out: seq<ArrayHeap.Node>)
    requires heap.Whole()
    modifies heap, heap.arr, heap.slots`idx
    ensures heap.Whole() && heap.slots == []
    ensures multiset(out) == old(multiset(heap.slots))
    ensures forall i, j :: 0 <= i < j < |out| ==> out[i].key <= out[j].key
  {
    out := [];
    ghost var keys, low, all := [], 0, heap.slots;
    while heap.size > 0
      invariant heap.Whole() && multiset(out) + multiset(heap.slots) == multiset(all)
      invariant forall i :: 0 <= i < |heap.slots| ==> heap.slots[i] in all && low <= heap.slots[i].key
      invariant |keys| == |out| && forall i :: 0 <= i < |keys| ==> out[i].key == keys[i] <= low
      invariant forall i, j :: 0 <= i < j < |keys| ==> keys[i] <= keys[j]
      decreases heap.size
    {
      var min := DrainOne(heap, all);
      out, keys, low := out + [min], keys + [min.key], min.key;
    }
  }

  method DrainOne(heap: ArrayHeap.MinHeap, ghost all: seq<ArrayHeap.Node>) returns (min: ArrayHeap.Node)
    requires heap.Whole() && heap.size > 0 && forall i :: 0 <= i < |heap.slots| ==> heap.slots[i] in all
    modifies heap, heap.arr, heap.slots`idx
    ensures heap.Whole() && heap.size == old(heap.size) - 1 && min in old(heap.slots)
    ensures old(multiset(heap.slots)) == multiset(heap.slots) + multiset{min}
    ensures forall i :: 0 <= i < |heap.slots| ==>
          heap.slots[i] in all && heap.slots[i] in old(heap.slots) && min.key <= heap.slots[i].key
  {
    ghost var slots := heap.slots;
    var least := heap.ExtractMin();
    MinTaken(slots, heap.slots, least);
    min := least;
  }

  lemma MinTaken(slots: seq<ArrayHeap.Node>, slots': seq<ArrayHeap.Node>, min: ArrayHeap.Node)
    requires min in slots && multiset(slots') == multiset(slots) - multiset{min}
    requires forall n :: n in slots ==> min.key <= n.key
    ensures multiset(slots) == multiset(slots') + multiset{min}
    ensures forall i :: 0 <= i < |slots'| ==> slots'[i] in slots && min.key <= slots'[i].key
  {
    SeqIsBag(slots);
    SeqIsBag(slots');
    assert forall i :: 0 <= i < |slots'| ==> slots'[i] in slots';
  }

  // ---------- the pointer heap ----------

  predicate NatLess(x: nat, y: nat) { x < y }

  ghost predicate Ready(heap: LinkedHeap.Heap<nat>)
    reads heap, heap.slots
  {
    heap.Valid() && heap.less == NatLess && heap.InHeapOrder()
  }

  ghost function KeyBag(slots: seq<LinkedHeap.HNode<nat>>): multiset<nat> {
    multiset(LinkedHeap.KeysOf(slots))
  }

  lemma KeyBagMinus(slots: seq<LinkedHeap.HNode<nat>>, slots': seq<LinkedHeap.HNode<nat>>, n: LinkedHeap.HNode<nat>)
    requires n in slots && multiset(slots') == multiset(slots) - multiset{n}
    ensures KeyBag(slots') == KeyBag(slots) - multiset{n.key}
    ensures n.key in KeyBag(slots)
    ensures forall x :: x in slots' ==> x in slots
  {
    SameKeysPlus(slots, LinkedHeap.KeysOf(slots), slots', LinkedHeap.KeysOf(slots'), n, n.key);
    SeqIsBag(slots);
    SeqIsBag(slots');
  }

  method LinkedPut(heap: LinkedHeap.Heap<nat>, key: nat) returns (n: LinkedHeap.HNode<nat>)
    requires Ready(heap) && heap.nelts + 1 < U32
    modifies heap, heap.slots
    ensures Ready(heap) && fresh(n) && multiset(heap.slots) == old(multiset(heap.slots)) + multiset{n}
    ensures heap.nelts == old(heap.nelts) + 1
    ensures KeyBag(heap.slots) == old(KeyBag(heap.slots)) + multiset{key}
    ensures forall x :: x in heap.slots ==> x in old(heap.slots) || x == n
  {
    n := new LinkedHeap.HNode(key);
    ghost var slots := heap.slots;
    heap.Insert(n);
    SeqIsBag(heap.slots);
    SeqIsBag(slots);
    assert n in heap.slots && multiset(slots) == multiset(heap.slots) - multiset{n};
    KeyBagMinus(heap.slots, slots, n);
    assert |heap.slots| == |multiset(heap.slots)| && |slots| == |multiset(slots)|;
  }

  /** Takes `node` out of the heap and of the caller's list of live nodes. */
  method Forget(heap: LinkedHeap.Heap<nat>, live: seq<LinkedHeap.HNode<nat>>, i: nat)
    returns (live': seq<LinkedHeap.HNode<nat>>)
    requires Ready(heap) && heap.nelts < U32 && i < |live| && multiset(live) == multiset(heap.slots)
    modifies heap, heap.slots
    ensures Ready(heap) && heap.nelts == old(heap.nelts) - 1 && multiset(live') == multiset(heap.slots)
    ensures KeyBag(heap.slots) == old(KeyBag(heap.slots)) - multiset{live[i].key}
    ensures forall x :: x in heap.slots ==> x in old(heap.slots)
  {
    ghost var slots := heap.slots;
    SeqIsBag(slots);
    SeqIsBag(live);
    heap.Remove(live[i]);
    MoveLastBag(live, i);
    live' := MoveLast(live, i);
    KeyBagMinus(slots, heap.slots, live[i]);
    assert |heap.slots| == |multiset(heap.slots)| && |slots| == |multiset(slots)|;
  }

  method LinkedTake(heap: LinkedHeap.Heap<nat>, live: seq<LinkedHeap.HNode<nat>>)
    returns (out: Option<nat>, live': seq<LinkedHeap.HNode<nat>>)
    requires Ready(heap) && heap.nelts < U32 && multiset(live) == multiset(heap.slots)
    modifies heap, heap.slots
    ensures Ready(heap) && heap.nelts <= old(heap.nelts) && multiset(live') == multiset(heap.slots)
    ensures [out] == Answer(old(KeyBag(heap.slots)), TakeLeast)
    ensures KeyBag(heap.slots) == After(old(KeyBag(heap.slots)), TakeLeast)
    ensures forall x :: x in heap.slots ==> x in old(heap.slots)
  {
    var min := heap.Min();
    SeqIsBag(live);
    SeqIsBag(heap.slots);
    if min == null {
      assert LinkedHeap.KeysOf(heap.slots) == [];
      return None, live;
    }
    var i := IndexOf(live, min);
    ghost var keys := LinkedHeap.KeysOf(heap.slots);
    assert min.key in keys by {
      var j :| 0 <= j < |heap.slots| && heap.slots[j] == min;
      assert keys[j] == min.key;
    }
    LeastOfSeq(keys, min.key);
    live' := Forget(heap, live, i);
    return Some(min.key), live';
  }

  /** The first live node with this key, if any. */
  method LinkedFind(heap: LinkedHeap.Heap<nat>, live: seq<LinkedHeap.HNode<nat>>, key: nat) returns (i: nat)
    requires Ready(heap) && multiset(live) == multiset(heap.slots)
    ensures i <= |live| && (i < |live| ==> live[i].key == key) && (i == |live| ==> key !in KeyBag(heap.slots))
  {
    i := 0;
    while i < |live| && live[i].key != key
      invariant 0 <= i <= |live| && forall j :: 0 <= j < i ==> live[j].key != key
    {
      i := i + 1;
    }
    if i == |live| {
      ghost var keys := LinkedHeap.KeysOf(heap.slots);
      SeqIsBag(live);
      SeqIsBag(heap.slots);
      SeqIsBag(keys);
      assert forall j :: 0 <= j < |keys| ==> heap.slots[j] in live && keys[j] != key;
    }
  }

  method LinkedDrop(heap: LinkedHeap.Heap<nat>, live: seq<LinkedHeap.HNode<nat>>, key: nat)
    returns (live': seq<LinkedHeap.HNode<nat>>)
    requires Ready(heap) && heap.nelts < U32 && multiset(live) == multiset(heap.slots)
    modifies heap, heap.slots
    ensures Ready(heap) && heap.nelts <= old(heap.nelts) && multiset(live') == multiset(heap.slots)
    ensures KeyBag(heap.slots) == old(KeyBag(heap.slots)) - multiset{key}
    ensures forall x :: x in heap.slots ==> x in old(heap.slots)
  {
    var i := LinkedFind(heap, live, key);
    live' := live;
    if i < |live| { live' := Forget(heap, live, i); }
  }

  /** This heap changes a key by removing the node and inserting it with the other key. */
  method LinkedMove(heap: LinkedHeap.Heap<nat>, live: seq<LinkedHeap.HNode<nat>>, key: nat, to: nat)
    returns (live': seq<LinkedHeap.HNode<nat>>)
    requires Ready(heap) && heap.nelts < U32 && multiset(live) == multiset(heap.slots)
    modifies heap, heap.slots
    ensures Ready(heap) && heap.nelts == old(heap.nelts) && multiset(live') == multiset(heap.slots)
    ensures KeyBag(heap.slots) == After(old(KeyBag(heap.slots)), Move(key, to))
    ensures forall x :: x in heap.slots ==> x in old(heap.slots) || fresh(x)
  {
    var i := LinkedFind(heap, live, key);
    live' := live;
    if i < |live| { live' := Rekey(heap, live, i, to); }
  }

  method Rekey(heap: LinkedHeap.Heap<nat>, live: seq<LinkedHeap.HNode<nat>>, i: nat, to: nat)
    returns (live': seq<LinkedHeap.HNode<nat>>)
    requires Ready(heap) && heap.nelts < U32 && multiset(live) == multiset(heap.slots) && i < |live|
    modifies heap, heap.slots
    ensures Ready(heap) && heap.nelts == old(heap.nelts) && multiset(live') == multiset(heap.slots)
    ensures live[i].key in old(KeyBag(heap.slots))
    ensures KeyBag(heap.slots) == old(KeyBag(heap.slots)) - multiset{live[i].key} + multiset{to}
    ensures forall x :: x in heap.slots ==> x in old(heap.slots) || fresh(x)
  {
    ghost var slots := heap.slots;
    SeqIsBag(live);
    SeqIsBag(slots);
    KeyThere(slots, live[i]);
    live' := Forget(heap, live, i);
    assert forall j :: 0 <= j < |heap.slots| ==> heap.slots[j] in slots;
    var n := LinkedPut(heap, to);
    live' := live' + [n];
  }

  lemma KeyThere(slots: seq<LinkedHeap.HNode<nat>>, n: LinkedHeap.HNode<nat>)
    requires n in slots
    ensures n.key in KeyBag(slots)
  {
    var keys := LinkedHeap.KeysOf(slots);
    var j :| 0 <= j < |slots| && slots[j] == n;
    assert keys[j] == n.key;
    SeqIsBag(keys);
  }

  method LinkedDo(heap: LinkedHeap.Heap<nat>, live: seq<LinkedHeap.HNode<nat>>, op: Op)
    returns (out: seq<Option<nat>>, live': seq<LinkedHeap.HNode<nat>>)
    requires Ready(heap) && heap.nelts < U32 && multiset(live) == multiset(heap.slots)
    requires LinkedFits(KeyBag(heap.slots), op)
    modifies heap, heap.slots
    ensures Ready(heap) && heap.nelts < U32 && multiset(live') == multiset(heap.slots)
    ensures out == Answer(old(KeyBag(heap.slots)), op)
    ensures KeyBag(heap.slots) == After(old(KeyBag(heap.slots)), op)
    ensures forall x :: x in heap.slots ==> x in old(heap.slots) || fresh(x)
  {
    match op {
      case Put(k) =>
        var n := LinkedPut(heap, k);
        out, live' := [], live + [n];
      case TakeLeast =>
        var o;
        o, live' := LinkedTake(heap, live);
        out := [o];
      case Drop(k) =>
        live' := LinkedDrop(heap, live, k);
        out := [];
      case Move(k, to) =>
        live' := LinkedMove(heap, live, k, to);
        out := [];
    }
  }

  /** Runs operations, however many, on a fresh pointer heap that has room for each when it comes. */
  method RunLinked(ops: seq<Op>) returns (out: seq<Option<nat>>)
    requires forall n: nat :: n < |ops| ==> LinkedFits(Bag(ops[..n]), ops[n])
    ensures out == Outputs(multiset{}, ops)
  {
    var heap := new LinkedHeap.Heap<nat>(NatLess);
    var live: seq<LinkedHeap.HNode<nat>> := [];
    out := [];
    var i := 0;
    assert LinkedHeap.KeysOf(heap.slots) == [] && ops[..0] == [];
    while i < |ops|
      invariant 0 <= i <= |ops| && Ready(heap) && heap.nelts < U32 && multiset(live) == multiset(heap.slots)
      invariant fresh(heap) && fresh(set n | n in heap.slots)
      invariant KeyBag(heap.slots) == Bag(ops[..i]) && out == Outputs(multiset{}, ops[..i])
    {
      BagMore(multiset{}, ops[..i], ops[i]);
      OutputsMore(multiset{}, ops[..i], ops[i]);
      OneLonger(ops, i);
      var o;
      o, live := LinkedDo(heap, live, ops[i]);
      out := out + o;
      i := i + 1;
    }
    assert ops[..i] == ops;
  }
}
