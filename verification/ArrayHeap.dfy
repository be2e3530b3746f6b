/**
  The timer heap (minheap/minheap.c, minheap/minheap_internal.h): a 4-ary min-heap in an array of
  node pointers.  Each node stores its own position plus one in a 16-bit field, zero meaning
  "not in a heap"; so the heap is right only while it holds at most 65535 nodes.
 */
module ArrayHeap {
  import opened Common
  import opened HeapOrder

  const MAX_NODES := U16 - 1

  class Node {
    var key: nat
    var idx: nat

    constructor (key: nat)
      ensures this.key == key && idx == 0
    {
      this.key := key;
      idx := 0;
    }
  }

  /** What mh_map_set stores for position `i`: the cast and the field are both 16 bits wide. */
  function StoredIndex(i: nat): nat { (i % U16 + 1) % U16 }

  /** mh_map_get recovers a position exactly when it is below 65535; position 65535 reads as "not in a heap". */
  lemma StoredIndexFaithful(i: nat)
    ensures StoredIndex(i) - 1 == i <==> i < MAX_NODES
    ensures StoredIndex(MAX_NODES) == 0
  {
  }

  /** Keys are unsigned 64-bit times. */
  predicate Less(x: nat, y: nat) { x < y }

  function LeftChild(i: int): int { 4 * i + 1 }

  /** mh_map_set, where the position fits. */
  method MapSet(node: Node, i: nat)
    requires i < MAX_NODES
    modifies node`idx
    ensures node.idx == i + 1
  {
    node.idx := StoredIndex(i);
  }

  class MinHeap {
    const arr: array<Node?>
    const capacity: nat
    var size: nat
    ghost var slots: seq<Node>  // the heap's contents, by slot
    ghost var keys: seq<nat>    // their keys, by slot

    /** The first `size` slots hold the contents, each node knowing its slot. */
    ghost predicate Valid()
      reads this, arr, slots
    {
      && arr.Length == capacity && |slots| == |keys| == size <= capacity && size <= MAX_NODES
      && (forall i :: 0 <= i < size ==> arr[i] == slots[i])
      && (forall i :: 0 <= i < size ==> slots[i].idx == i + 1)
      && (forall i :: size <= i < arr.Length ==> arr[i] == null)
    }

    /** The recorded keys are the nodes' own, except perhaps the key of `changed`. */
    ghost predicate KeysBut(changed: set<Node>)
      reads this, slots`key
    {
      |keys| == |slots| && forall i :: 0 <= i < |slots| && slots[i] !in changed ==> slots[i].key == keys[i]
    }

    /** The heap is whole and its keys are in order. */
    ghost predicate Whole()
      reads this, arr, slots
    {
      Valid() && KeysBut({}) && Ordered(Less, 4, keys)
    }

    constructor (capacity: nat)
      requires capacity > 0
      ensures Whole() && slots == [] && this.capacity == capacity && fresh(arr)
    {
      this.capacity := capacity;
      arr := new Node?[capacity](_ => null);
      size := 0;
      slots, keys := [], [];
    }

    /** A sift under way: `hole` is still to receive its node; every other slot is as in Valid. */
    ghost predicate Sifting(hole: int)
      reads this, arr, slots
    {
      && arr.Length == capacity && |slots| == |keys| == size <= capacity && size <= MAX_NODES && 0 <= hole < size
      && (forall i :: 0 <= i < size && i != hole ==> arr[i] == slots[i])
      && (forall i :: 0 <= i < size && i != hole ==> slots[i].idx == i + 1)
      && (forall i :: 0 <= i < size && i != hole ==> slots[i] != slots[hole])
      && (forall i :: size <= i < arr.Length ==> arr[i] == null)
    }

    /** Moves the node of slot `from` into the hole, which moves to `from`. */
    method Shift(hole: int, from: int, moving: Node)
      requires Sifting(hole) && KeysBut({}) && 0 <= from < size && from != hole && arr[from] == moving
      modifies this`slots, this`keys, arr, moving`idx
      ensures Sifting(from) && slots == Swap(old(slots), hole, from) && keys == Swap(old(keys), hole, from)
      ensures KeysBut({}) && multiset(slots) == old(multiset(slots))
      ensures forall i :: 0 <= i < |slots| ==> slots[i] in old(slots)
    {
      arr[hole] := moving;
      MapSet(moving, hole);
      SwapBag(slots, hole, from);
      slots, keys := Swap(slots, hole, from), Swap(keys, hole, from);
    }

    method Fill(hole: int, node: Node)
      requires Sifting(hole) && slots[hole] == node && KeysBut({})
      modifies arr, node`idx
      ensures Valid() && KeysBut({})
    {
      arr[hole] := node;
      MapSet(node, hole);
    }

    /** One turn of mh_sift_up: the hole goes to the parent's slot if the parent's key is larger. */
    method Ascend(hole: int, node: Node) returns (next: int)
      requires Sifting(hole) && KeysBut({}) && slots[hole] == node && 0 < hole && OrderedExcept(Less, 4, keys, hole)
      modifies this`slots, this`keys, arr, slots`idx
      ensures 0 <= next <= hole && Sifting(next) && KeysBut({}) && slots[next] == node
      ensures multiset(slots) == old(multiset(slots)) && forall i :: 0 <= i < |slots| ==> slots[i] in old(slots)
      ensures next == hole ==> slots == old(slots) && keys == old(keys) && InOrder(Less, 4, keys, hole)
      ensures next != hole ==> OrderedButUp(Less, 4, keys, next)
    {
      next := Parent(4, hole);
      if node.key >= arr[next].key { return hole; }
      UpStep(Less, 4, keys, hole);
      Shift(hole, next, arr[next]);
    }

    /** mh_sift_up */
    method SiftUp(idx: int)
      requires Valid() && KeysBut({}) && (0 <= idx < size ==> OrderedExcept(Less, 4, keys, idx))
      modifies this`slots, this`keys, arr, slots`idx
      ensures Valid() && KeysBut({}) && multiset(slots) == old(multiset(slots))
      ensures forall n :: n in slots ==> n in old(slots)
      ensures !(0 <= idx < size) ==> slots == old(slots) && keys == old(keys)
      // either the node moved and everything is in order, or it stayed and only its children may be too small
      ensures 0 <= idx < size ==>
        Ordered(Less, 4, keys) || (slots == old(slots) && keys == old(keys) && OrderedButDown(Less, 4, keys, idx))
    {
      if idx < 0 || idx >= size { return; }
      var newNode := arr[idx];
      var hole := idx;
      while hole > 0
        invariant 0 <= hole <= idx && Sifting(hole) && KeysBut({}) && slots[hole] == newNode
        invariant multiset(slots) == old(multiset(slots)) && forall i :: 0 <= i < |slots| ==> slots[i] in old(slots)
        invariant OrderedExcept(Less, 4, keys, hole)
        invariant if hole == idx then slots == old(slots) && keys == old(keys) else OrderedButUp(Less, 4, keys, hole)
      {
        var next := Ascend(hole, newNode);
        if next == hole { break; }
        hole := next;
      }
      Fill(hole, newNode);
    }

    /** The child of `hole` with the least key, the first of several. */
    method LeastChild(hole: int) returns (least: int)
      requires Sifting(hole) && KeysBut({}) && LeftChild(hole) < size
      ensures 0 < least < size && Parent(4, least) == hole
      ensures forall j: nat :: 0 < j < size && Parent(4, j) == hole ==> keys[least] <= keys[j]
    {
      var mc := LeftChild(hole);
      least := mc;
      var minKey := arr[mc].key;
      if mc + 1 < size {
        var key := arr[mc + 1].key;
        if key < minKey { minKey, least := key, mc + 1; }
      }
      if mc + 2 < size {
        var key := arr[mc + 2].key;
        if key < minKey { minKey, least := key, mc + 2; }
      }
      if mc + 3 < size {
        var key := arr[mc + 3].key;
        if key < minKey { minKey, least := key, mc + 3; }
      }
    }

    /** One turn of the loop of mh_sift_down: moves the least child up if it is smaller, and follows the hole. */
    method Descend(hole: int, node: Node) returns (next: int)
      requires Sifting(hole) && KeysBut({}) && OrderedButDown(Less, 4, keys, hole)
      requires slots[hole] == node && LeftChild(hole) < size
      modifies this`slots, this`keys, arr, slots`idx
      ensures hole <= next < size && Sifting(next) && KeysBut({})
      ensures OrderedButDown(Less, 4, keys, next) && slots[next] == node
      ensures multiset(slots) == old(multiset(slots)) && forall i :: 0 <= i < |slots| ==> slots[i] in old(slots)
      ensures next == hole ==> slots == old(slots) && keys == old(keys) && Ordered(Less, 4, keys)
      ensures next != hole ==> !old(Ordered(Less, 4, keys))
    {
      next := LeastChild(hole);
      if arr[next].key >= node.key { return hole; }
      assert !InOrder(Less, 4, keys, next);
      DownStep(Less, 4, keys, hole, next);
      Shift(hole, next, arr[next]);
    }

    /** mh_sift_down */
    method SiftDown(idx: int)
      requires Valid() && KeysBut({}) && (0 <= idx < size ==> OrderedButDown(Less, 4, keys, idx))
      modifies this`slots, this`keys, arr, slots`idx
      ensures Valid() && KeysBut({}) && multiset(slots) == old(multiset(slots))
      ensures forall i :: 0 <= i < |slots| ==> slots[i] in old(slots)
      ensures 0 <= idx < size ==> Ordered(Less, 4, keys)
      // harmless on a heap already in order
      ensures old(Ordered(Less, 4, keys)) ==> slots == old(slots) && keys == old(keys)
    {
      if idx < 0 || idx >= size { return; }
      var node := arr[idx];
      var hole := idx;
      ghost var calm := Ordered(Less, 4, keys);
      while LeftChild(hole) < size
        invariant Sifting(hole) && KeysBut({}) && slots[hole] == node
        invariant multiset(slots) == old(multiset(slots)) && forall i :: 0 <= i < |slots| ==> slots[i] in old(slots)
        invariant OrderedButDown(Less, 4, keys, hole)
        invariant calm ==> hole == idx && slots == old(slots) && keys == old(keys)
        decreases size - hole
      {
        var next := Descend(hole, node);
        if next == hole { break; }
        hole := next;
      }
      assert Ordered(Less, 4, keys);
      Fill(hole, node);
    }

    /** Sifts a slot up and then, at the same slot, down. */
    method Resift(idx: int)
      requires Valid() && KeysBut({}) && 0 <= idx < size && OrderedExcept(Less, 4, keys, idx)
      modifies this`slots, this`keys, arr, slots`idx
      ensures Whole() && multiset(slots) == old(multiset(slots))
      ensures forall i :: 0 <= i < |slots| ==> slots[i] in old(slots)
    {
      SiftUp(idx);
      if Ordered(Less, 4, keys) {
        OrderedThroughout(Less, 4, keys, idx);
      }
      assert forall i :: 0 <= i < |slots| ==> slots[i] in slots;
      SiftDown(idx);
    }

    /** Clears the back-index of slot `i`, moves the last node there, and drops the last slot. */
    method TakeOut(i: int)
      requires Valid() && KeysBut({}) && 0 <= i < size
      modifies this, arr, slots`idx
      ensures Valid() && KeysBut({})
      ensures slots == MoveLast(old(slots), i) && keys == MoveLast(old(keys), i)
      ensures old(slots[i]).idx == 0
      ensures forall n :: n in slots ==> n in old(slots)
    {
      arr[i].idx := 0;
      var last := size - 1;
      if i < last {
        Shift(i, last, arr[last]);
      }
      DropLast();
    }

    /** Drops the last slot, whose node has gone. */
    method DropLast()
      requires 0 < size && Sifting(size - 1) && KeysBut({})
      modifies this, arr
      ensures Valid() && KeysBut({})
      ensures slots == old(slots)[..|old(slots)| - 1] && keys == old(keys)[..|old(keys)| - 1]
    {
      size := size - 1;
      arr[size] := null;
      slots, keys := slots[..size], keys[..size];
    }

    /** Appends a node in the first free slot. */
    method Append(node: Node)
      requires Valid() && KeysBut({}) && node !in slots && size < capacity && size < MAX_NODES
      modifies this, arr, node`idx
      ensures Valid() && KeysBut({})
      ensures slots == old(slots) + [node] && keys == old(keys) + [node.key]
    {
      arr[size] := node;
      MapSet(node, size);
      size := size + 1;
      slots, keys := slots + [node], keys + [node.key];
    }

    /** mh_map_get: the node's slot, or -1. */
    function MapGet(node: Node): int
      reads node
    {
      node.idx - 1
    }

    /**
      mh_insert.  Inserts a node, or puts a node already present, whose key has been changed, back
      in order.  A full heap refuses both: then a changed key leaves the heap as it is.
     */
    method Insert(node: Node) returns (r: int)
      requires Valid() && KeysBut({node}) && Ordered(Less, 4, keys)
      requires node in slots || (node.idx == 0 && (size < capacity ==> size < MAX_NODES))
      modifies this, arr, slots`idx, node`idx
      ensures r == if old(size) < capacity then 0 else -1
      ensures r != 0 ==> Valid() && slots == old(slots) && keys == old(keys)
      ensures r == 0 ==> Whole()
      ensures r == 0 ==>
            multiset(slots) == old(multiset(slots)) + if node in old(slots) then multiset{} else multiset{node}
    {
      if size >= capacity { return -1; }
      var idx := MapGet(node);
      if idx >= 0 {
        assert slots[idx] == node;
        Overwrite(Less, 4, keys, idx, node.key);
        keys := keys[idx := node.key];
        Resift(idx);
        return 0;
      }
      idx := size;
      AppendExcept(Less, 4, keys, node.key);
      Append(node);
      SiftUp(idx);
      LastHasNoChildren(Less, 4, keys);
      return 0;
    }

    /** mh_get_node */
    method GetNode(i: int) returns (n: Node?)
      requires Valid()
      ensures n == if 0 <= i < size then slots[i] else null
    {
      if i < 0 || i >= size { return null; }
      n := arr[i];
    }

    /** mh_get_min */
    method GetMin() returns (min: Node?)
      requires Whole()
      ensures min == null <==> slots == []
      ensures min != null ==> min in slots && forall n :: n in slots ==> min.key <= n.key
    {
      if size == 0 { return null; }
      min := arr[0];
      LeastOfAll();
    }

    lemma LeastOfAll()
      requires Whole() && size > 0
      ensures forall n :: n in slots ==> slots[0].key <= n.key
    {
      forall n | n in slots ensures slots[0].key <= n.key {
        var j :| 0 <= j < |slots| && slots[j] == n;
        RootIsLeast(Less, 4, keys, j);
      }
    }

    method RemoveRoot()
      requires Whole() && size > 0
      modifies this, arr, slots`idx
      ensures Whole() && old(slots[0]).idx == 0
      ensures multiset(slots) == old(multiset(slots)) - multiset{old(slots[0])} && size == old(size) - 1
      ensures forall i :: 0 <= i < |slots| ==> slots[i] in old(slots)
    {
      ghost var root := slots[0];
      MoveLastBag(slots, 0);
      AfterMoveLast(0);
      TakeOut(0);
      assert root !in slots;
      if size > 0 {
        SiftDown(0);
      }
    }

    /** mh_extract_min */
    method ExtractMin() returns (min: Node?)
      requires Whole()
      modifies this, arr, slots`idx
      ensures Whole()
      ensures min == null <==> old(slots) == []
      ensures min == null ==> slots == []
      ensures min != null ==>
            min in old(slots) && min.idx == 0 && multiset(slots) == old(multiset(slots)) - multiset{min}
      ensures min != null ==> forall n :: n in old(slots) ==> min.key <= n.key
      ensures size == (if old(size) == 0 then 0 else old(size) - 1) && forall n :: n in slots ==> n in old(slots)
    {
      if size == 0 { return null; }
      min := arr[0];
      LeastOfAll();
      RemoveRoot();
    }

    /** Moving the last node to a slot leaves order everywhere but at that slot. */
    lemma AfterMoveLast(i: int)
      requires Whole() && 0 <= i < size
      ensures if i == size - 1 then Ordered(Less, 4, MoveLast(keys, i))
        else OrderedExcept(Less, 4, MoveLast(keys, i), i)
    {
      if i == size - 1 {
        OrderedPrefix(Less, 4, keys);
        assert MoveLast(keys, i) == keys[..size - 1];
      } else {
        MoveLastOrder(Less, 4, keys, i);
      }
    }

    /** mh_delete_node */
    method Delete(node: Node)
      requires Whole() && (node in slots || node.idx == 0)
      modifies this, arr, slots`idx
      ensures Whole() && node.idx == 0
      ensures multiset(slots) == old(multiset(slots)) - multiset{node}
      ensures size <= old(size) && forall n :: n in slots ==> n in old(slots)
    {
      if size == 0 { return; }
      var i := MapGet(node);
      if i < 0 { return; }
      assert slots[i] == node;
      MoveLastBag(slots, i);
      AfterMoveLast(i);
      var last := i == size - 1;
      TakeOut(i);
      if last { return; }
      Resift(i);
    }
  }

  /** A heap that is full when a key changes can be left out of order: the root is no least node any more. */
  method RefusedUpdate() returns (heap: MinHeap)
    ensures heap.Valid() && heap.size == heap.capacity == 2
    ensures heap.slots[Parent(4, 1)].key > heap.slots[1].key
  {
    var node;
    heap, node := FullPair();
    node.key := 0;
    var refused := heap.Insert(node);
  }

  method FullPair() returns (heap: MinHeap, node: Node)
    ensures heap.Whole() && heap.size == heap.capacity == 2 && heap.slots[1] == node
    ensures fresh(heap) && fresh(heap.arr) && fresh(heap.slots[0]) && fresh(node)
    ensures heap.slots[0].key == 1
  {
    var root;
    heap, root := OneNode();
    node := new Node(2);
    var _ := heap.Insert(node);
    AlikeBags(heap.slots, [root, node]);
    assert InOrder(Less, 4, heap.keys, 1);
  }

  method OneNode() returns (heap: MinHeap, root: Node)
    ensures heap.Whole() && heap.slots == [root] && heap.capacity == 2 && root.key == 1
    ensures fresh(heap) && fresh(heap.arr) && fresh(root)
  {
    heap := new MinHeap(2);
    root := new Node(1);
    var _ := heap.Insert(root);
    AlikeBags(heap.slots, [root]);
  }

  lemma AlikeBags(s: seq<Node>, t: seq<Node>)
    requires multiset(s) == multiset(t)
    ensures |s| == |t| && forall x :: x in s <==> x in t
  {
    assert |s| == |multiset(s)| && |t| == |multiset(t)|;
    assert forall x :: x in s <==> x in multiset(s);
    assert forall x :: x in t <==> x in multiset(t);
  }
}
