/**
  Heap order on sequences of keys, for a heap in which slot `i > 0` has parent slot `(i - 1) / d`
  and keys are compared by any strict weak ordering.
 */
module HeapOrder {

  /** The two heaps of the repository. */
  type Arity = d: nat | d == 2 || d == 4 witness 2

  function Parent(d: Arity, i: int): (p: int)
    requires i > 0
    ensures 0 <= p < i
  {
    if d == 2 then (i - 1) / 2 else (i - 1) / 4
  }

  function Swap<T>(ks: seq<T>, i: nat, j: nat): seq<T>
    requires i < |ks| && j < |ks|
  {
    ks[i := ks[j]][j := ks[i]]
  }

  lemma SwapSymmetric<T>(ks: seq<T>, i: nat, j: nat)
    requires i < |ks| && j < |ks|
    ensures Swap(ks, i, j) == Swap(ks, j, i)
  {
  }

  lemma SwapBag<T>(s: seq<T>, i: nat, j: nat)
    requires i < |s| && j < |s|
    ensures multiset(Swap(s, i, j)) == multiset(s)
  {
  }

  /** Slot `i` overwritten by the last element, and the last slot dropped. */
  function MoveLast<T>(s: seq<T>, i: nat): seq<T>
    requires i < |s|
  {
    s[i := s[|s| - 1]][..|s| - 1]
  }

  lemma MoveLastBag<T>(s: seq<T>, i: nat)
    requires i < |s|
    ensures multiset(MoveLast(s, i)) == multiset(s) - multiset{s[i]}
  {
    var last := s[|s| - 1];
    var front := s[..|s| - 1];
    assert s == front + [last];
    if i < |s| - 1 {
      assert MoveLast(s, i) == front[i := last];
    } else {
      assert MoveLast(s, i) == front;
    }
  }

  /** `lt` is a strict weak ordering: irreflexive, transitive, and so is incomparability. */
  ghost predicate StrictWeak<K(!new)>(lt: (K, K) -> bool) {
    && (forall x :: !lt(x, x))
    && (forall x, y, z :: lt(x, y) && lt(y, z) ==> lt(x, z))
    && (forall x, y, z :: !lt(x, y) && !lt(y, z) ==> !lt(x, z))
  }

  ghost predicate InOrder<K(!new)>(lt: (K, K) -> bool, d: Arity, ks: seq<K>, j: nat)
    requires 0 < j < |ks|
  {
    !lt(ks[j], ks[Parent(d, j)])
  }

  ghost predicate Ordered<K(!new)>(lt: (K, K) -> bool, d: Arity, ks: seq<K>) {
    forall j: nat :: 0 < j < |ks| ==> InOrder(lt, d, ks, j)
  }

  /** The children of `h` are not below the parent of `h`. */
  ghost predicate Across<K(!new)>(lt: (K, K) -> bool, d: Arity, ks: seq<K>, h: nat)
    requires h < |ks|
  {
    forall j: nat :: 0 < j < |ks| && Parent(d, j) == h && h > 0 ==> !lt(ks[j], ks[Parent(d, h)])
  }

  /** Heap order away from slot `h`, and across it. */
  ghost predicate OrderedExcept<K(!new)>(lt: (K, K) -> bool, d: Arity, ks: seq<K>, h: nat)
    requires h < |ks|
  {
    && (forall j: nat :: 0 < j < |ks| && j != h && Parent(d, j) != h ==> InOrder(lt, d, ks, j))
    && Across(lt, d, ks, h)
  }

  /** Order except perhaps between `h` and its parent. */
  ghost predicate OrderedButUp<K(!new)>(lt: (K, K) -> bool, d: Arity, ks: seq<K>, h: nat)
    requires h < |ks|
  {
    OrderedExcept(lt, d, ks, h) && forall j: nat :: 0 < j < |ks| && Parent(d, j) == h ==> InOrder(lt, d, ks, j)
  }

  /** Order except perhaps between `h` and its children. */
  ghost predicate OrderedButDown<K(!new)>(lt: (K, K) -> bool, d: Arity, ks: seq<K>, h: nat)
    requires h < |ks|
  {
    OrderedExcept(lt, d, ks, h) && (h > 0 ==> InOrder(lt, d, ks, h))
  }

  /** Swapping a slot with a larger parent repairs everything but the parent's own pair upwards. */
  lemma UpStep<K(!new)>(lt: (K, K) -> bool, d: Arity, ks: seq<K>, h: nat)
    requires StrictWeak(lt) && 0 < h < |ks| && OrderedExcept(lt, d, ks, h) && lt(ks[h], ks[Parent(d, h)])
    ensures OrderedButUp(lt, d, Swap(ks, h, Parent(d, h)), Parent(d, h))
  {
    var p, ks' := Parent(d, h), Swap(ks, h, Parent(d, h));
    forall j: nat | 0 < j < |ks| && j != p ensures InOrder(lt, d, ks', j) {
      assert j != h && Parent(d, j) != h ==> InOrder(lt, d, ks, j);
    }
    if p > 0 {
      assert InOrder(lt, d, ks, p);
      forall j: nat | 0 < j < |ks| && Parent(d, j) == p ensures !lt(ks'[j], ks'[Parent(d, p)]) {
        assert j != h ==> InOrder(lt, d, ks, j);
      }
    }
  }

  /** Swapping a slot with its least child, when that is smaller, moves the trouble to the child. */
  lemma DownStep<K(!new)>(lt: (K, K) -> bool, d: Arity, ks: seq<K>, h: nat, c: nat)
    requires StrictWeak(lt) && h < |ks| && OrderedExcept(lt, d, ks, h)
    requires 0 < c < |ks| && Parent(d, c) == h && lt(ks[c], ks[h])
    requires forall j: nat :: 0 < j < |ks| && Parent(d, j) == h ==> !lt(ks[j], ks[c])
    ensures OrderedButDown(lt, d, Swap(ks, h, c), c)
  {
    var ks' := Swap(ks, h, c);
    forall j: nat | 0 < j < |ks| && Parent(d, j) != c ensures InOrder(lt, d, ks', j) {
      assert j != h && Parent(d, j) != h ==> InOrder(lt, d, ks, j);
    }
    forall j: nat | 0 < j < |ks| && Parent(d, j) == c ensures !lt(ks'[j], ks'[h]) {
      assert InOrder(lt, d, ks, j);
    }
  }

  /** In an ordered heap the key of any one slot may be overwritten. */
  lemma Overwrite<K(!new)>(lt: (K, K) -> bool, d: Arity, ks: seq<K>, h: nat, k: K)
    requires StrictWeak(lt) && h < |ks| && Ordered(lt, d, ks)
    ensures OrderedExcept(lt, d, ks[h := k], h)
  {
    var ks' := ks[h := k];
    forall j: nat | 0 < j < |ks| && j != h && Parent(d, j) != h ensures InOrder(lt, d, ks', j) {
      assert InOrder(lt, d, ks, j);
    }
    forall j: nat | 0 < j < |ks| && Parent(d, j) == h && h > 0 ensures !lt(ks'[j], ks'[Parent(d, h)]) {
      assert InOrder(lt, d, ks, j) && InOrder(lt, d, ks, h);
    }
  }

  /**
    An overwritten key that is not sifted, as when a full heap refuses an update, keeps the order exactly when it
    fits its place.
   */
  lemma OverwrittenInOrderIff<K(!new)>(lt: (K, K) -> bool, d: Arity, ks: seq<K>, h: nat, k: K)
    requires StrictWeak(lt) && h < |ks| && Ordered(lt, d, ks)
    ensures Ordered(lt, d, ks[h := k])
       <==> (h > 0 ==> !lt(k, ks[Parent(d, h)])) && forall j: nat :: 0 < j < |ks| && Parent(d, j) == h ==> !lt(ks[j], k)
  {
    var ks' := ks[h := k];
    forall j: nat | 0 < j < |ks| && j != h && Parent(d, j) != h ensures InOrder(lt, d, ks', j) {
      assert InOrder(lt, d, ks, j);
    }
    forall j: nat | 0 < j < |ks| && Parent(d, j) == h ensures InOrder(lt, d, ks', j) <==> !lt(ks[j], k) {
    }
    assert h > 0 ==> (InOrder(lt, d, ks', h) <==> !lt(k, ks[Parent(d, h)]));
  }

  lemma OrderedThroughout<K(!new)>(lt: (K, K) -> bool, d: Arity, ks: seq<K>, h: nat)
    requires StrictWeak(lt) && Ordered(lt, d, ks) && h < |ks|
    ensures OrderedButDown(lt, d, ks, h) && OrderedButUp(lt, d, ks, h)
  {
    Overwrite(lt, d, ks, h, ks[h]);
    assert ks[h := ks[h]] == ks;
  }

  /** A key appended to an ordered heap can be out of order only with its parent. */
  lemma AppendExcept<K(!new)>(lt: (K, K) -> bool, d: Arity, ks: seq<K>, k: K)
    requires Ordered(lt, d, ks)
    ensures OrderedExcept(lt, d, ks + [k], |ks|)
  {
    forall j: nat | 0 < j < |ks| ensures InOrder(lt, d, ks + [k], j) {
      assert InOrder(lt, d, ks, j);
    }
  }

  /** The last slot has no children to be out of order with. */
  lemma LastHasNoChildren<K(!new)>(lt: (K, K) -> bool, d: Arity, ks: seq<K>)
    requires ks != [] && (Ordered(lt, d, ks) || OrderedButDown(lt, d, ks, |ks| - 1))
    ensures Ordered(lt, d, ks)
  {
    forall j: nat | 0 < j < |ks| ensures InOrder(lt, d, ks, j) {
      assert Parent(d, j) < |ks| - 1;
    }
  }

  lemma OrderedPrefix<K(!new)>(lt: (K, K) -> bool, d: Arity, ks: seq<K>)
    requires Ordered(lt, d, ks) && ks != []
    ensures Ordered(lt, d, ks[..|ks| - 1])
  {
    var front := ks[..|ks| - 1];
    forall j: nat | 0 < j < |front| ensures InOrder(lt, d, front, j) {
      assert InOrder(lt, d, ks, j);
    }
  }

  lemma MoveLastOrder<K(!new)>(lt: (K, K) -> bool, d: Arity, ks: seq<K>, i: nat)
    requires StrictWeak(lt) && Ordered(lt, d, ks) && i < |ks| - 1
    ensures OrderedExcept(lt, d, MoveLast(ks, i), i)
  {
    OrderedPrefix(lt, d, ks);
    Overwrite(lt, d, ks[..|ks| - 1], i, ks[|ks| - 1]);
    assert MoveLast(ks, i) == ks[..|ks| - 1][i := ks[|ks| - 1]];
  }

  /** The first slot holds a least key. */
  lemma {:induction false} RootIsLeast<K(!new)>(lt: (K, K) -> bool, d: Arity, ks: seq<K>, j: nat)
    requires StrictWeak(lt) && j < |ks| && Ordered(lt, d, ks)
    ensures !lt(ks[j], ks[0])
  {
    if j > 0 {
      assert InOrder(lt, d, ks, j);
      RootIsLeast(lt, d, ks, Parent(d, j));
    }
  }
}
