/**
  The pointer heap (minheap/heap-inl.h): a complete binary tree of nodes linked to their parent and
  two children, ordered by a comparison function, that finds its insertion and removal points from
  the bits of its element count.
 */
module LinkedHeap {
  import opened Common
  import opened HeapOrder

  class HNode<K(!new)> {
    const key: K
    var left: HNode?<K>
    var right: HNode?<K>
    var parent: HNode?<K>
    ghost var pos: nat  // the node's place in level order, while it is in the tree

    constructor (key: K)
      ensures this.key == key
    {
      this.key := key;
      left, right, parent := null, null, null;
    }
  }

  /** The node at level-order place `i`, if the tree reaches that far. */
  function At<K(!new)>(slots: seq<HNode<K>>, i: int): HNode?<K>
    requires 0 <= i
  {
    if i < |slots| then slots[i] else null
  }

  /** The node at place `i` is linked to the nodes at places 2i + 1, 2i + 2 and (i - 1) / 2. */
  ghost predicate LinkedIn<K(!new)>(slots: seq<HNode<K>>, i: nat)
    requires i < |slots|
    reads slots[i]
  {
    && slots[i].pos == i
    && slots[i].left == At(slots, 2 * i + 1)
    && slots[i].right == At(slots, 2 * i + 2)
    && slots[i].parent == if i == 0 then null else slots[Parent(2, i)]
  }

  /** A child, its parent, and the nodes linked to the two: sibling, grandchildren and grandparent. */
  datatype Corner<K(!new)> = Corner(parent: HNode<K>, child: HNode<K>, sib: HNode?<K>,
                                    l: HNode?<K>, r: HNode?<K>, g: HNode?<K>)

  function CornerAt<K(!new)>(s: seq<HNode<K>>, c: nat): Corner<K>
    requires 0 < c < |s|
  {
    var p := Parent(2, c);
    Corner(s[p], s[c], At(s, Beside(c)), At(s, 2 * c + 1), At(s, 2 * c + 2), if p == 0 then null else s[Parent(2, p)])
  }

  /** The place beside `c`, under the same parent. */
  function Beside(c: nat): nat
    requires c > 0
  {
    if c % 2 == 1 then c + 1 else c - 1
  }

  /** What a swap at place `c` leaves as it was in the nodes around the pair. */
  ghost predicate Rim<K(!new)>(s: seq<HNode<K>>, c: nat, k: Corner<K>)
    requires 0 < c < |s|
    reads k.sib, k.l, k.r, k.g
  {
    var b, p := Beside(c), Parent(2, c);
    && (k.sib != null ==> k.sib.pos == b && k.sib.left == At(s, 2 * b + 1) && k.sib.right == At(s, 2 * b + 2))
    && (k.l != null ==> k.l.pos == 2 * c + 1 && k.l.left == At(s, 4 * c + 3) && k.l.right == At(s, 4 * c + 4))
    && (k.r != null ==> k.r.pos == 2 * c + 2 && k.r.left == At(s, 4 * c + 5) && k.r.right == At(s, 4 * c + 6))
    && (k.g != null ==> p > 0 && var q := Parent(2, p);
          k.g.pos == q && k.g.parent == if q == 0 then null else s[Parent(2, q)])
  }

  /** The links around place `c` as they should be, and the nodes there all different. */
  ghost predicate Joined<K(!new)>(s: seq<HNode<K>>, c: nat, k: Corner<K>)
    requires 0 < c < |s|
    reads k.parent, k.child, k.sib, k.l, k.r, k.g
  {
    var p := Parent(2, c);
    && Rim(s, c, k)
    && k.parent != k.child && k.child.left == k.l && k.child.right == k.r && k.parent.parent == k.g
    && (if c % 2 == 1 then k.parent.left == k.child && k.parent.right == k.sib
        else k.parent.left == k.sib && k.parent.right == k.child)
    && k.parent !in {k.sib, k.l, k.r, k.g} && k.child !in {k.sib, k.l, k.r, k.g}
    && (k.sib != null ==> k.sib != k.l && k.sib != k.r && k.sib != k.g)
    && (k.l != null ==> k.l != k.r)
    && (k.g != null ==> k.g != k.l && k.g != k.r)
    && (k.g != null ==> if p % 2 == 1 then k.g.left == k.parent && k.g.right == At(s, p + 1) != k.parent
                        else k.g.left == At(s, p - 1) != k.parent && k.g.right == k.parent)
  }

  /** The same links once the pair has changed places. */
  ghost predicate Exchanged<K(!new)>(s: seq<HNode<K>>, c: nat, k: Corner<K>)
    requires 0 < c < |s|
    reads k.parent, k.child, k.sib, k.l, k.r, k.g
  {
    var p := Parent(2, c);
    && Rim(s, c, k)
    && k.parent.left == k.l && k.parent.right == k.r && k.parent.parent == k.child && k.child.parent == k.g
    && (if c % 2 == 1 then k.child.left == k.parent && k.child.right == k.sib
        else k.child.left == k.sib && k.child.right == k.parent)
    && k.child.pos == p && k.parent.pos == c
    && (k.sib != null ==> k.sib.parent == k.child)
    && (k.l != null ==> k.l.parent == k.parent)
    && (k.r != null ==> k.r.parent == k.parent)
    && (k.g != null ==> if p % 2 == 1 then k.g.left == k.child && k.g.right == At(s, p + 1)
                        else k.g.left == At(s, p - 1) && k.g.right == k.child)
  }

  /** Places that a swap of `c` with its parent does not concern. */
  predicate Far(c: nat, i: nat)
    requires c > 0
  {
    var p := Parent(2, c);
    && i != c && i != p && i != 2 * c + 1 && i != 2 * c + 2 && i != 2 * p + 1 && i != 2 * p + 2
    && (p > 0 ==> i != Parent(2, p))
  }

  lemma FarLinks<K(!new)>(was: seq<HNode<K>>, c: nat)
    requires 0 < c < |was| && forall i: nat :: i < |was| && Far(c, i) ==> LinkedIn(was, i)
    ensures forall i: nat :: i < |was| && Far(c, i) ==> LinkedIn(Swap(was, c, Parent(2, c)), i)
  {
    forall i: nat | i < |was| && Far(c, i) ensures LinkedIn(Swap(was, c, Parent(2, c)), i) {
      assert LinkedIn(was, i);
    }
  }

  /** The place reached from place `n` by `k` turns, the next one in the lowest bit of `path`; the root is place 1. */
  function Walk(n: nat, path: nat, k: nat): nat
    decreases k
  {
    if k == 0 then n else Walk(2 * n + path % 2, path / 2, k - 1)
  }

  lemma {:induction false} WalkDown(n: nat, path: nat, k: nat)
    ensures n <= Walk(n, path, k)
    ensures k > 0 && n > 0 ==> 2 * n <= Walk(n, path, k)
    decreases k
  {
    if k > 0 {
      WalkDown(2 * n + path % 2, path / 2, k - 1);
    }
  }

  lemma {:induction false} Pow2Below(k: nat, m: nat)
    requires k <= m
    ensures 1 <= Pow2(k) <= Pow2(m)
  {
    if k < m { Pow2Below(k, m - 1); } else if m > 0 { Pow2Below(k - 1, m - 1); }
  }

  /** The turns from the root to place `target`, packed in 32 bits. */
  method PathTo(target: nat) returns (path: nat, k: nat)
    requires 0 < target < U32
    ensures Walk(1, path, k) == target && path < U32
  {
    path, k := 0, 0;
    var n := target;
    Pow2Of32();
    while n >= 2
      invariant n >= 1 && Walk(n, path, k) == target
      invariant Room(k, path, n)
    {
      PathStep(k, path, n);
      path := (path * 2) % U32 + n % 2;
      k, n := k + 1, n / 2;
    }
    PathFits(k, path);
  }

  /** The turns so far and those to come share 32 bits. */
  predicate Room(k: nat, path: nat, n: nat) { k <= 31 && path < Pow2(k) && n < Pow2(32 - k) }

  lemma PathFits(k: nat, path: nat)
    requires k <= 31 && path < Pow2(k)
    ensures path < U32 && (k < 31 ==> (path * 2) % U32 == 2 * path)
  {
    Pow2Of32();
    Pow2Below(k, 31);
  }

  lemma PathStep(k: nat, path: nat, n: nat)
    requires n >= 2 && Room(k, path, n)
    ensures (path * 2) % U32 == 2 * path && Room(k + 1, 2 * path + n % 2, n / 2)
    ensures Walk(n / 2, 2 * path + n % 2, k + 1) == Walk(n, path, k)
  {
    PathFits(k, path);
    assert Pow2(1) == 2 && Pow2(32 - k) == 2 * Pow2(32 - (k + 1));
    assert 2 * (n / 2) + (2 * path + n % 2) % 2 == n && (2 * path + n % 2) / 2 == path;
  }

  ghost function KeysOf<K(!new)>(slots: seq<HNode<K>>): seq<K> {
    seq(|slots|, i requires 0 <= i < |slots| => slots[i].key)
  }

  lemma KeysSwap<K(!new)>(slots: seq<HNode<K>>, i: nat, j: nat)
    requires i < |slots| && j < |slots|
    ensures KeysOf(Swap(slots, i, j)) == Swap(KeysOf(slots), i, j)
  {
  }

  class Heap<K(!new)> {
    const less: (K, K) -> bool
    var min: HNode?<K>
    var nelts: nat
    ghost var slots: seq<HNode<K>>  // the nodes in level order

    /** The tree is the complete binary tree on its `nelts` nodes, with parent links inverse to child links. */
    ghost predicate Valid()
      reads this, slots
    {
      && nelts == |slots|
      && min == At(slots, 0)
      && forall i: nat :: i < |slots| ==> LinkedIn(slots, i)
    }

    /** No node occurs twice. */
    lemma Places()
      requires Valid()
      ensures forall i: nat :: i < |slots| ==> slots[i].pos == i
    {
      forall i: nat | i < |slots| ensures slots[i].pos == i {
        assert LinkedIn(slots, i);
      }
    }

    constructor (less: (K, K) -> bool)
      ensures Valid() && slots == [] && this.less == less
    {
      this.less := less;
      min, nelts, slots := null, 0, [];
    }

    /** heap_node_swap, first half: the two structures are exchanged and the pair and the sibling relinked. */
    method Exchange(parent: HNode<K>, child: HNode<K>, ghost onLeft: bool,
                    ghost sib: HNode?<K>, ghost l: HNode?<K>, ghost r: HNode?<K>, ghost g: HNode?<K>)
      requires parent != child && child.left == l && child.right == r && parent.parent == g
      requires if onLeft then parent.left == child && parent.right == sib
        else parent.left == sib && parent.right == child
      requires parent !in {sib, l, r, g} && child !in {sib, l, r, g}
      modifies parent, child, sib
      ensures parent.left == l && parent.right == r && parent.parent == child && child.parent == g
      ensures if onLeft then child.left == parent && child.right == sib else child.left == sib && child.right == parent
      ensures sib != null ==>
            sib.parent == child && sib.left == old(sib.left) && sib.right == old(sib.right) && sib.pos == old(sib.pos)
      ensures child.pos == old(child.pos) && parent.pos == old(parent.pos)
    {
      var tl, tr, tp := parent.left, parent.right, parent.parent;
      parent.left, parent.right, parent.parent := child.left, child.right, child.parent;
      child.left, child.right, child.parent := tl, tr, tp;

      parent.parent := child;
      var sibling;
      if child.left == child {
        child.left := parent;
        sibling := child.right;
      } else {
        child.right := parent;
        sibling := child.left;
      }
      if sibling != null {
        sibling.parent := child;
      }
    }

    /** heap_node_swap, second half: the children left to the parent, and the link from above. */
    method Reattach(parent: HNode<K>, child: HNode<K>, ghost l: HNode?<K>, ghost r: HNode?<K>, ghost g: HNode?<K>)
      requires parent != child && parent.left == l && parent.right == r && child.parent == g
      requires parent !in {l, r, g} && child !in {l, r, g}
      requires g != null ==> g != l && g != r && ((g.left == parent) != (g.right == parent))
      requires l != null ==> l != r
      modifies this`min, l, r, g
      ensures l != null ==>
            l.parent == parent && l.left == old(l.left) && l.right == old(l.right) && l.pos == old(l.pos)
      ensures r != null ==>
            r.parent == parent && r.left == old(r.left) && r.right == old(r.right) && r.pos == old(r.pos)
      ensures g != null ==> g.parent == old(g.parent) && g.pos == old(g.pos)
      ensures g != null ==> g.left == (if old(g.left) == parent then child else old(g.left))
      ensures g != null ==> g.right == (if old(g.right) == parent then child else old(g.right))
      ensures min == if g == null then child else old(min)
    {
      if parent.left != null {
        parent.left.parent := parent;
      }
      if parent.right != null {
        parent.right.parent := parent;
      }
      if child.parent == null {
        min := child;
      } else if child.parent.left == parent {
        child.parent.left := child;
      } else {
        child.parent.right := child;
      }
    }

    /** heap_node_swap on the nodes it touches. */
    method Rewire(parent: HNode<K>, child: HNode<K>, ghost c: nat, ghost k: Corner<K>)
      requires 0 < c < |slots| && Joined(slots, c, k) && k.parent == parent && k.child == child
      requires forall i: nat :: i < |slots| && Far(c, i) ==>
            LinkedIn(slots, i) && slots[i] !in {parent, child, k.sib, k.l, k.r, k.g}
      modifies this`min, this`slots, parent, child, k.sib, k.l, k.r, k.g
      ensures Exchanged(old(slots), c, k) && slots == Swap(old(slots), c, Parent(2, c))
      ensures min == if k.g == null then child else old(min)
      ensures forall i: nat :: i < |slots| && Far(c, i) ==> LinkedIn(slots, i)
    {
      Exchange(parent, child, c % 2 == 1, k.sib, k.l, k.r, k.g);
      Reattach(parent, child, k.l, k.r, k.g);
      child.pos, parent.pos := Parent(2, c), c;
      forall i: nat | i < |slots| && Far(c, i) ensures LinkedIn(slots, i) {
        assert old(LinkedIn(slots, i));
      }
      FarLinks(slots, c);
      slots := Swap(slots, c, Parent(2, c));
    }

    /** What a swap at place `c` needs to know of the nodes around it. */
    lemma Neighbours(c: nat, k: Corner<K>)
      requires Valid() && 0 < c < |slots| && k == CornerAt(slots, c)
      ensures Joined(slots, c, k)
    {
      Places();
      Kin(c);
      Around(c, k);
      var p := Parent(2, c);
      assert LinkedIn(slots, c) && LinkedIn(slots, p);
      assert k.sib != null ==> LinkedIn(slots, Beside(c));
      assert k.l != null ==> LinkedIn(slots, 2 * c + 1);
      assert k.r != null ==> LinkedIn(slots, 2 * c + 2);
      assert p > 0 ==> LinkedIn(slots, Parent(2, p));
    }

    lemma Around(c: nat, k: Corner<K>)
      requires Valid() && 0 < c < |slots| && k == CornerAt(slots, c)
      ensures Rim(slots, c, k)
    {
      assert k.sib != null ==> LinkedIn(slots, Beside(c));
      assert k.l != null ==> LinkedIn(slots, 2 * c + 1);
      assert k.r != null ==> LinkedIn(slots, 2 * c + 2);
      assert Parent(2, c) > 0 ==> LinkedIn(slots, Parent(2, Parent(2, c)));
    }

    /** Nobody else is one of them. */
    lemma Beyond(c: nat, k: Corner<K>)
      requires Valid() && 0 < c < |slots| && k == CornerAt(slots, c)
      ensures forall i: nat :: i < |slots| && Far(c, i) ==> slots[i] !in {k.parent, k.child, k.sib, k.l, k.r, k.g}
    {
      Places();
    }

    /** How the places of a corner are related. */
    lemma Kin(c: nat)
      requires c > 0
      ensures var p := Parent(2, c); c == (if c % 2 == 1 then 2 * p + 1 else 2 * p + 2)
      ensures var p := Parent(2, c); Beside(c) == if c % 2 == 1 then 2 * p + 2 else 2 * p + 1
      ensures Parent(2, Beside(c)) == Parent(2, c) && Parent(2, 2 * c + 1) == Parent(2, 2 * c + 2) == c
    {
      var p := (c - 1) / 2;
      if c % 2 == 1 {
        assert c == 2 * p + 1;
      } else {
        assert c == 2 * p + 2;
      }
    }

    lemma NearLinks(was: seq<HNode<K>>, c: nat, k: Corner<K>)
      requires 0 < c < |was| && k == CornerAt(was, c) && Exchanged(was, c, k)
      ensures forall i: nat :: i < |was| && !Far(c, i) ==> LinkedIn(Swap(was, c, Parent(2, c)), i)
    {
      PairLinks(was, c, k);
      BelowLinks(was, c, k);
    }

    lemma PairLinks(was: seq<HNode<K>>, c: nat, k: Corner<K>)
      requires 0 < c < |was| && k == CornerAt(was, c) && Exchanged(was, c, k)
      ensures LinkedIn(Swap(was, c, Parent(2, c)), c) && LinkedIn(Swap(was, c, Parent(2, c)), Parent(2, c))
    {
      Kin(c);
    }

    lemma BelowLinks(was: seq<HNode<K>>, c: nat, k: Corner<K>)
      requires 0 < c < |was| && k == CornerAt(was, c) && Exchanged(was, c, k)
      ensures forall i: nat :: i < |was| && i in {Beside(c), 2 * c + 1, 2 * c + 2} ==>
        LinkedIn(Swap(was, c, Parent(2, c)), i)
    {
      Kin(c);
    }

    /** heap_node_swap: the child moves up, the parent down, and the tree keeps its shape. */
    method NodeSwap(parent: HNode<K>, child: HNode<K>, ghost c: nat)
      requires Valid() && 0 < c < |slots| && slots[c] == child && slots[Parent(2, c)] == parent
      modifies this`min, this`slots, slots
      ensures Valid() && slots == Swap(old(slots), c, Parent(2, c))
    {
      ghost var k := CornerAt(slots, c);
      Neighbours(c, k);
      Beyond(c, k);
      Rewire(parent, child, c, k);
      NearLinks(old(slots), c, k);
    }

    /** What the link `(owner, right)` points to; the link of no owner is the heap's own. */
    function Deref(owner: HNode?<K>, right: bool): HNode?<K>
      reads this, owner
    {
      if owner == null then min else if right then owner.right else owner.left
    }

    /** Follows a path from the root to the link of place `target`. */
    method Follow(path0: nat, k0: nat, ghost target: nat) returns (owner: HNode?<K>, right: bool)
      requires Valid() && Walk(1, path0, k0) == target && 1 <= target <= nelts + 1
      ensures if target == 1 then owner == null
        else owner == At(slots, target / 2 - 1) && owner != null && right == (target % 2 == 1)
      ensures Deref(owner, right) == At(slots, target - 1)
    {
      var path, k := path0, k0;
      owner, right := null, false;
      ghost var n := 1;
      while k > 0
        invariant n >= 1 && Walk(n, path, k) == target && n <= target
        invariant if n == 1 then owner == null
          else owner == At(slots, n / 2 - 1) && owner != null && right == (n % 2 == 1)
      {
        WalkDown(n, path, k);
        if n > 1 {
          assert LinkedIn(slots, n / 2 - 1);
        }
        assert Deref(owner, right) == slots[n - 1];
        owner, right := Deref(owner, right), path % 2 == 1;
        n := 2 * n + path % 2;
        path := path / 2;
        k := k - 1;
        WalkDown(n, path, k);
      }
      if n > 1 {
        assert LinkedIn(slots, n / 2 - 1);
      }
    }

    /** Hangs `newnode`, whose links are clear, on the first free link of the bottom row. */
    method Hang(newnode: HNode<K>, owner: HNode?<K>, right: bool)
      requires Valid() && newnode !in slots && newnode.left == newnode.right == newnode.parent == null
      requires var o := |slots| + 1;
        if o == 1 then owner == null else owner == At(slots, o / 2 - 1) && owner != null && right == (o % 2 == 1)
      modifies this, slots, newnode
      ensures Valid() && slots == old(slots) + [newnode]
    {
      ghost var was := slots;
      newnode.parent := owner;
      if owner == null {
        min := newnode;
      } else if right {
        owner.right := newnode;
      } else {
        owner.left := newnode;
      }
      nelts := nelts + 1;
      newnode.pos := |slots|;
      slots := slots + [newnode];
      assert owner != null ==> old(LinkedIn(was, (|was| + 1) / 2 - 1));
      forall i: nat | i < |was| ensures LinkedIn(slots, i) {
        assert old(LinkedIn(was, i));
        if i != (|was| + 1) / 2 - 1 {
          assert 2 * i + 1 != |was| && 2 * i + 2 != |was|;
          assert was[i] != owner;
        }
      }
    }

    /** Links a node at the first free place of the bottom row. */
    method Attach(newnode: HNode<K>)
      requires Valid() && newnode !in slots && nelts + 1 < U32
      modifies this, slots, newnode
      ensures Valid() && slots == old(slots) + [newnode]
    {
      newnode.left, newnode.right, newnode.parent := null, null, null;
      assert Valid() by {
        forall i: nat | i < |slots| ensures LinkedIn(slots, i) {
          assert old(LinkedIn(slots, i));
        }
      }
      var path, k := PathTo(1 + nelts);
      var owner, right := Follow(path, k, 1 + nelts);
      Hang(newnode, owner, right);
    }

    ghost predicate InHeapOrder()
      reads this
    {
      Ordered(less, 2, KeysOf(slots))
    }

    /** The closing loops of heap_insert and heap_remove: swaps a node upwards while it is below its parent. */
    method Rise(node: HNode<K>, ghost c0: nat)
      requires Valid() && StrictWeak(less) && c0 < |slots| && slots[c0] == node
      requires OrderedButUp(less, 2, KeysOf(slots), c0)
      modifies this`min, this`slots, slots
      ensures Valid() && InHeapOrder() && multiset(slots) == old(multiset(slots))
    {
      ghost var c: nat := c0;
      while node.parent != null && less(node.key, node.parent.key)
        invariant Valid() && c < |slots| && slots[c] == node
        invariant OrderedButUp(less, 2, KeysOf(slots), c)
        invariant multiset(slots) == old(multiset(slots)) && forall i :: 0 <= i < |slots| ==> slots[i] in old(slots)
        decreases c
      {
        assert LinkedIn(slots, c);
        ghost var p := Parent(2, c);
        UpStep(less, 2, KeysOf(slots), c);
        KeysSwap(slots, c, p);
        SwapBag(slots, c, p);
        NodeSwap(node.parent, node, c);
        c := p;
      }
      assert LinkedIn(slots, c);
      assert c > 0 ==> InOrder(less, 2, KeysOf(slots), c);
    }

    /** heap_insert */
    method Insert(newnode: HNode<K>)
      requires Valid() && StrictWeak(less) && InHeapOrder() && newnode !in slots && nelts + 1 < U32
      modifies this, slots, newnode
      ensures Valid() && InHeapOrder()
      ensures multiset(slots) == old(multiset(slots)) + multiset{newnode}
    {
      AppendExcept(less, 2, KeysOf(slots), newnode.key);
      Attach(newnode);
      assert KeysOf(slots) == old(KeysOf(slots)) + [newnode.key];
      Rise(newnode, |slots| - 1);
    }

    /** Unlinks the last node of the bottom row. */
    method Detach() returns (last: HNode<K>)
      requires Valid() && 0 < nelts < U32
      modifies this, slots
      ensures Valid() && last == old(slots)[|old(slots)| - 1] && slots == old(slots)[..|old(slots)| - 1]
      ensures forall n :: n in slots ==> n != last
    {
      Places();
      var path, k := PathTo(nelts);
      var owner, right := Follow(path, k, nelts);
      last := Deref(owner, right);
      Clip(owner, right);
    }

    /** Clears the link to the last node of the bottom row. */
    method Clip(owner: HNode?<K>, right: bool)
      requires Valid() && slots != []
      requires var o := |slots|;
        if o == 1 then owner == null else owner == At(slots, o / 2 - 1) && owner != null && right == (o % 2 == 1)
      modifies this, slots
      ensures Valid() && slots == old(slots)[..|old(slots)| - 1]
    {
      ghost var was := slots;
      Places();
      if owner == null {
        min := null;
      } else if right {
        owner.right := null;
      } else {
        owner.left := null;
      }
      nelts := nelts - 1;
      slots := slots[..|slots| - 1];
      assert owner != null ==> old(LinkedIn(was, |was| / 2 - 1));
      forall i: nat | i < |slots| ensures LinkedIn(slots, i) {
        assert old(LinkedIn(was, i));
        if i != |was| / 2 - 1 {
          assert was[i] != owner;
        }
      }
    }

    /** Places that replacing the node at `i` does not concern. */
    predicate Away(i: nat, j: nat) {
      j != i && j != 2 * i + 1 && j != 2 * i + 2 && (i > 0 ==> j != Parent(2, i))
    }

    /** The replacement on the nodes it touches. */
    method Substitute(node: HNode<K>, child: HNode<K>, ghost l: HNode?<K>, ghost r: HNode?<K>,
                      ghost g: HNode?<K>, ghost i: nat)
      requires node != child && node !in {l, r, g} && child !in {l, r, g} && i < |slots|
      requires node.left == l && node.right == r && node.parent == g
      requires l != null ==> l != r && l != g
      requires g != null ==> g != r && ((g.left == node) != (g.right == node))
      modifies this`min, this`slots, child, l, r, g
      ensures child.left == l && child.right == r && child.parent == g && child.pos == i
      ensures l != null ==> l.parent == child && l.left == old(l.left) && l.right == old(l.right) && l.pos == old(l.pos)
      ensures r != null ==> r.parent == child && r.left == old(r.left) && r.right == old(r.right) && r.pos == old(r.pos)
      ensures g != null ==> g.parent == old(g.parent) && g.pos == old(g.pos)
      ensures g != null ==> g.left == (if old(g.left) == node then child else old(g.left))
      ensures g != null ==> g.right == (if old(g.right) == node then child else old(g.right))
      ensures min == if g == null then child else old(min)
      ensures slots == old(slots)[i := child]
    {
      child.left, child.right, child.parent := node.left, node.right, node.parent;
      if child.left != null {
        child.left.parent := child;
      }
      if child.right != null {
        child.right.parent := child;
      }
      if node.parent == null {
        min := child;
      } else if node.parent.left == node {
        node.parent.left := child;
      } else {
        node.parent.right := child;
      }
      child.pos := i;
      slots := slots[i := child];
    }

    /** What a replacement at place `i` needs to know of the nodes around it. */
    lemma Surroundings(i: nat, child: HNode<K>, l: HNode?<K>, r: HNode?<K>, g: HNode?<K>)
      requires Valid() && i < |slots| && child !in slots
      requires l == slots[i].left && r == slots[i].right && g == slots[i].parent
      ensures l == At(slots, 2 * i + 1) && r == At(slots, 2 * i + 2)
      ensures g == (if i == 0 then null else slots[Parent(2, i)])
      ensures slots[i] !in {child, l, r, g} && child !in {l, r, g}
      ensures l != null ==>
            l != r && l != g && l.pos == 2 * i + 1 && l.left == At(slots, 4 * i + 3) && l.right == At(slots, 4 * i + 4)
      ensures r != null ==> r.pos == 2 * i + 2 && r.left == At(slots, 4 * i + 5) && r.right == At(slots, 4 * i + 6)
      ensures g != null ==> g != r && LinkedIn(slots, Parent(2, i)) && ((g.left == slots[i]) != (g.right == slots[i]))
      ensures forall j: nat :: j < |slots| && Away(i, j) ==> slots[j] !in {child, l, r, g}
    {
      Places();
      assert LinkedIn(slots, i);
      assert 2 * i + 1 < |slots| ==> LinkedIn(slots, 2 * i + 1);
      assert 2 * i + 2 < |slots| ==> LinkedIn(slots, 2 * i + 2);
      assert forall j: nat :: j < |slots| ==> slots[j] in slots;
    }

    lemma AwayLinks(was: seq<HNode<K>>, i: nat, child: HNode<K>)
      requires i < |was| && forall j: nat :: j < |was| && Away(i, j) ==> LinkedIn(was, j)
      ensures forall j: nat :: j < |was| && Away(i, j) ==> LinkedIn(was[i := child], j)
    {
      forall j: nat | j < |was| && Away(i, j) ensures LinkedIn(was[i := child], j) {
        assert LinkedIn(was, j);
      }
    }

    lemma CloseLinks(was: seq<HNode<K>>, i: nat, child: HNode<K>, l: HNode?<K>, r: HNode?<K>, g: HNode?<K>)
      requires i < |was| && l == At(was, 2 * i + 1) && r == At(was, 2 * i + 2)
      requires g == (if i == 0 then null else was[Parent(2, i)])
      requires child.left == l && child.right == r && child.parent == g && child.pos == i
      requires l != null ==>
            l.pos == 2 * i + 1 && l.parent == child && l.left == At(was, 4 * i + 3) && l.right == At(was, 4 * i + 4)
      requires r != null ==>
            r.pos == 2 * i + 2 && r.parent == child && r.left == At(was, 4 * i + 5) && r.right == At(was, 4 * i + 6)
      requires g != null ==> var q := Parent(2, i);
        && g.pos == q && g.parent == (if q == 0 then null else was[Parent(2, q)])
        && g.left == (if i == 2 * q + 1 then child else At(was, 2 * q + 1))
        && g.right == (if i == 2 * q + 2 then child else At(was, 2 * q + 2))
      ensures forall j: nat :: j < |was| && !Away(i, j) ==> LinkedIn(was[i := child], j)
    {
    }

    /** Puts `child`, which is in no tree, in the place of `node`. */
    method Replace(node: HNode<K>, child: HNode<K>, ghost i: nat)
      requires Valid() && i < |slots| && slots[i] == node && child !in slots
      modifies this, slots, child
      ensures Valid() && slots == old(slots)[i := child]
    {
      ghost var was, l, r, g := slots, node.left, node.right, node.parent;
      Surroundings(i, child, l, r, g);
      Substitute(node, child, l, r, g, i);
      forall j: nat | j < |was| && Away(i, j) ensures LinkedIn(was, j) {
        assert old(LinkedIn(was, j));
      }
      AwayLinks(was, i, child);
      CloseLinks(was, i, child, l, r, g);
      forall j: nat | j < |slots| ensures LinkedIn(slots, j) {
        assert Away(i, j) || !Away(i, j);
      }
    }

    /** The smallest of a node and its children, and its place. */
    method SmallestOf(child: HNode<K>, ghost c: nat) returns (smallest: HNode<K>, ghost s: nat)
      requires Valid() && StrictWeak(less) && c < |slots| && slots[c] == child
      ensures s < |slots| && slots[s] == smallest
      ensures smallest == child <==> s == c
      ensures s != c ==> s > 0 && Parent(2, s) == c && less(smallest.key, child.key)
      ensures forall j: nat :: 0 < j < |slots| && Parent(2, j) == c ==> !less(slots[j].key, smallest.key)
    {
      Places();
      assert LinkedIn(slots, c);
      smallest, s := child, c;
      if child.left != null && less(child.left.key, smallest.key) {
        smallest, s := child.left, 2 * c + 1;
      }
      if child.right != null && less(child.right.key, smallest.key) {
        smallest, s := child.right, 2 * c + 2;
      }
      forall j: nat | 0 < j < |slots| && Parent(2, j) == c ensures !less(slots[j].key, smallest.key) {
        assert j == 2 * c + 1 || j == 2 * c + 2;
      }
    }

    /** One turn of the downward loop; at rest it gives back the place it was given. */
    method Lower(child: HNode<K>, ghost c: nat) returns (smallest: HNode<K>, ghost s: nat)
      requires Valid() && StrictWeak(less) && c < |slots| && slots[c] == child
      requires OrderedExcept(less, 2, KeysOf(slots), c)
      modifies this`min, this`slots, slots
      ensures Valid() && c <= s < |slots| && slots[s] == child && (smallest == child <==> s == c)
      ensures OrderedExcept(less, 2, KeysOf(slots), s)
      ensures s == c ==> OrderedButUp(less, 2, KeysOf(slots), c)
      ensures multiset(slots) == old(multiset(slots)) && forall i :: 0 <= i < |slots| ==> slots[i] in old(slots)
    {
      smallest, s := SmallestOf(child, c);
      if smallest == child { return; }
      DownStep(less, 2, KeysOf(slots), c, s);
      KeysSwap(slots, s, c);
      SwapSymmetric(KeysOf(slots), s, c);
      SwapBag(slots, s, c);
      NodeSwap(child, smallest, s);
    }

    /** The downward loop of heap_remove: swaps a node with the smaller of its children while that is smaller. */
    method Sink(child: HNode<K>, ghost c0: nat) returns (ghost c: nat)
      requires Valid() && StrictWeak(less) && c0 < |slots| && slots[c0] == child
      requires OrderedExcept(less, 2, KeysOf(slots), c0)
      modifies this`min, this`slots, slots
      ensures Valid() && c < |slots| && slots[c] == child && OrderedButUp(less, 2, KeysOf(slots), c)
      ensures multiset(slots) == old(multiset(slots)) && forall i :: 0 <= i < |slots| ==> slots[i] in old(slots)
    {
      c := c0;
      while true
        invariant Valid() && c < |slots| && slots[c] == child
        invariant OrderedExcept(less, 2, KeysOf(slots), c)
        invariant multiset(slots) == old(multiset(slots)) && forall i :: 0 <= i < |slots| ==> slots[i] in old(slots)
        decreases |slots| - c
      {
        var smallest, s := Lower(child, c);
        if smallest == child { break; }
        c := s;
      }
    }

    /** heap_remove, of any node in the heap; an empty heap is left alone. */
    method Remove(node: HNode?<K>)
      requires Valid() && StrictWeak(less) && InHeapOrder() && nelts < U32
      requires nelts == 0 || (node != null && node in slots)
      modifies this, slots
      ensures Valid() && InHeapOrder()
      ensures old(slots) == [] ==> slots == []
      ensures old(slots) != [] ==> multiset(slots) == old(multiset(slots)) - multiset{node}
    {
      if nelts == 0 { return; }
      ghost var i: nat :| i < |slots| && slots[i] == node;
      ghost var keys := KeysOf(slots);
      MoveLastBag(slots, i);
      ghost var rest := MoveLast(slots, i);
      var child := Detach();
      if child == node {
        assert rest == slots;
        OrderedPrefix(less, 2, keys);
        assert KeysOf(slots) == keys[..|keys| - 1];
        return;
      }
      Replace(node, child, i);
      assert slots == rest && KeysOf(slots) == MoveLast(keys, i);
      MoveLastOrder(less, 2, keys, i);
      Settle(child, i);
    }

    /** The two loops that close heap_remove. */
    method Settle(child: HNode<K>, ghost i: nat)
      requires Valid() && StrictWeak(less) && i < |slots| && slots[i] == child
      requires OrderedExcept(less, 2, KeysOf(slots), i)
      modifies this`min, this`slots, slots
      ensures Valid() && InHeapOrder() && multiset(slots) == old(multiset(slots))
    {
      ghost var c := Sink(child, i);
      Rise(child, c);
    }

    /** heap_min: null only for an empty heap, and otherwise a node below which there is none. */
    method Min() returns (m: HNode?<K>)
      requires Valid() && StrictWeak(less) && InHeapOrder()
      ensures m == min
      ensures m == null <==> slots == []
      ensures m != null ==> m in slots && forall n :: n in slots ==> !less(n.key, m.key)
    {
      m := min;
      forall n | n in slots ensures !less(n.key, m.key) {
        var j: nat :| j < |slots| && slots[j] == n;
        RootIsLeast(less, 2, KeysOf(slots), j);
      }
    }

    /** heap_dequeue */
    method Dequeue()
      requires Valid() && StrictWeak(less) && InHeapOrder() && nelts < U32
      modifies this, slots
      ensures Valid() && InHeapOrder()
      ensures old(slots) == [] ==> slots == []
      ensures old(slots) != [] ==> old(min) != null && multiset(slots) == old(multiset(slots)) - multiset{old(min)}
    {
      Remove(min);
    }
  }
}
