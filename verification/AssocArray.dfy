/**
  The associative array of hashtable-linux-kernel/assoc_array.c: one set of entries held at once in the
  chains of a hash table and in a list in insertion order, both linked through the entries themselves
  (hashtable-linux-kernel/list.h). Keys have one fixed size per array, as memcmp with the size of the key
  looked for demands.
 */
module AssocArray {
  import opened Common
  import opened Hashing

  type Key = seq<byte>

  /** The stored data pointer. */
  type Data = nat

  /** What pprev points to: the head of a bucket or the next field of an entry; Unlinked is the poison. */
  datatype Back = Head(b: nat) | NextOf(e: Entry) | Unlinked

  class Entry {
    const key: Key
    const data: Data
    var hnext: Entry?
    var pprev: Back
    /** Neighbours in the circular list; null is the poison. */
    var lnext: Entry?
    var lprev: Entry?

    constructor (key: Key, data: Data)
      ensures this.key == key && this.data == data
    {
      this.key, this.data := key, data;
      pprev := Unlinked;
    }
  }

  function At(s: seq<Entry>, i: int): Entry? { if 0 <= i < |s| then s[i] else null }

  function Without<T>(s: seq<T>, k: nat): seq<T>
    requires k < |s|
  {
    s[..k] + s[k + 1..]
  }

  ghost predicate Distinct(s: seq<Entry>) { forall i: nat, j: nat :: i < j < |s| ==> s[i] != s[j] }

  // ---------- the chains that belong to an insertion order ----------

  function Home(e: Entry, bits: nat): nat
    requires bits < 31
  {
    Bucket(e.key, bits)
  }

  /** The entries of bucket b, the newest first. */
  ghost function Chain(order: seq<Entry>, b: nat, bits: nat): seq<Entry>
    requires bits < 31
  {
    if |order| == 0 then []
    else
      var e, rest := order[|order| - 1], Chain(order[..|order| - 1], b, bits);
      if Home(e, bits) == b then [e] + rest else rest
  }

  lemma {:induction false} ChainAppend(xs: seq<Entry>, ys: seq<Entry>, b: nat, bits: nat)
    requires bits < 31
    ensures Chain(xs + ys, b, bits) == Chain(ys, b, bits) + Chain(xs, b, bits)
  {
    if |ys| == 0 {
      assert xs + ys == xs;
    } else {
      var n := |ys| - 1;
      assert (xs + ys)[..|xs + ys| - 1] == xs + ys[..n];
      ChainAppend(xs, ys[..n], b, bits);
    }
  }

  lemma {:induction false} ChainMembers(order: seq<Entry>, b: nat, bits: nat)
    requires bits < 31
    ensures forall i: nat :: i < |Chain(order, b, bits)| ==>
          Chain(order, b, bits)[i] in order && Home(Chain(order, b, bits)[i], bits) == b
  {
    if |order| > 0 { ChainMembers(order[..|order| - 1], b, bits); }
  }

  lemma {:induction false} ChainDistinct(order: seq<Entry>, b: nat, bits: nat)
    requires bits < 31 && Distinct(order)
    ensures Distinct(Chain(order, b, bits))
  {
    if |order| > 0 {
      ChainDistinct(order[..|order| - 1], b, bits);
      ChainMembers(order[..|order| - 1], b, bits);
    }
  }

  lemma ChainMiddle(xs: seq<Entry>, x: Entry, ys: seq<Entry>, b: nat, bits: nat)
    requires bits < 31
    ensures Chain(xs + [x] + ys, b, bits)
         == Chain(ys, b, bits) + ((if Home(x, bits) == b then [x] else []) + Chain(xs, b, bits))
  {
    assert (xs + [x])[..|xs|] == xs && (xs + [x])[|xs|] == x;
    ChainAppend(xs + [x], ys, b, bits);
  }

  lemma Splits(order: seq<Entry>, k: nat)
    requires k < |order|
    ensures order == order[..k] + [order[k]] + order[k + 1..]
  {
  }

  /** Where entry k of the order stands in its chain. */
  ghost function Spot(order: seq<Entry>, k: nat, b: nat, bits: nat): nat
    requires bits < 31 && k < |order|
  {
    |Chain(order[k + 1..], b, bits)|
  }

  lemma ChainElsewhere(order: seq<Entry>, k: nat, b: nat, bits: nat)
    requires bits < 31 && k < |order| && Home(order[k], bits) != b
    ensures Chain(Without(order, k), b, bits) == Chain(order, b, bits)
  {
    Splits(order, k);
    ChainMiddle(order[..k], order[k], order[k + 1..], b, bits);
    ChainAppend(order[..k], order[k + 1..], b, bits);
  }

  lemma ChainWithout(order: seq<Entry>, k: nat, b: nat, bits: nat)
    requires bits < 31 && k < |order| && Home(order[k], bits) == b
    ensures Spot(order, k, b, bits) < |Chain(order, b, bits)|
    ensures Chain(order, b, bits)[Spot(order, k, b, bits)] == order[k]
    ensures Chain(Without(order, k), b, bits) == Without(Chain(order, b, bits), Spot(order, k, b, bits))
  {
    var older, newer := Chain(order[..k], b, bits), Chain(order[k + 1..], b, bits);
    Splits(order, k);
    ChainMiddle(order[..k], order[k], order[k + 1..], b, bits);
    ChainAppend(order[..k], order[k + 1..], b, bits);
    CutMiddle(newer, order[k], older);
  }

  lemma CutMiddle(xs: seq<Entry>, x: Entry, ys: seq<Entry>)
    ensures (xs + ([x] + ys))[|xs|] == x && Without(xs + ([x] + ys), |xs|) == xs + ys
  {
  }

  lemma WithoutAt(s: seq<Entry>, k: nat)
    requires k < |s|
    ensures forall i {:trigger At(Without(s, k), i)} :: -1 <= i <= |s| ==>
          At(Without(s, k), i) == if i < k then At(s, i) else At(s, i + 1)
    ensures forall i {:trigger Without(s, k)[i]} :: 0 <= i < |s| - 1 ==>
          Without(s, k)[i] == if i < k then s[i] else s[i + 1]
  {
  }

  /** Entry k stands nowhere else. */
  ghost predicate Only(s: seq<Entry>, k: int) {
    0 <= k < |s| ==> forall i: nat :: i < |s| && i != k ==> s[i] != s[k]
  }

  lemma OnlyOnce(s: seq<Entry>, k: int)
    requires Distinct(s)
    ensures Only(s, k)
  {
  }

  /** One chain for every bucket. */
  ghost predicate Chains(cs: seq<seq<Entry>>, order: seq<Entry>, bits: nat)
    requires bits < 31
  {
    |cs| == Pow2(bits) && forall b: nat :: b < |cs| ==> cs[b] == Chain(order, b, bits)
  }

  lemma ChainsAdd(cs: seq<seq<Entry>>, order: seq<Entry>, e: Entry, bits: nat)
    requires bits < 31 && Chains(cs, order, bits)
    ensures Chains(cs[Home(e, bits) := [e] + cs[Home(e, bits)]], order + [e], bits)
  {
    assert (order + [e])[..|order|] == order;
  }

  lemma ChainsDel(cs: seq<seq<Entry>>, order: seq<Entry>, k: nat, bits: nat)
    requires bits < 31 && Chains(cs, order, bits) && k < |order|
    ensures var b := Home(order[k], bits);
            var j := Spot(order, k, b, bits);
            j < |cs[b]| && cs[b][j] == order[k] && Chains(cs[b := Without(cs[b], j)], Without(order, k), bits)
  {
    var b := Home(order[k], bits);
    ChainWithout(order, k, b, bits);
    forall a: nat | a < |cs| && a != b ensures Chain(Without(order, k), a, bits) == cs[a] {
      ChainElsewhere(order, k, a, bits);
    }
  }

  lemma DistinctAdd(order: seq<Entry>, e: Entry)
    requires Distinct(order) && e !in order
    ensures Distinct(order + [e])
  {
  }

  lemma DistinctWithout(order: seq<Entry>, k: nat)
    requires k < |order| && Distinct(order)
    ensures Distinct(Without(order, k)) && order[k] !in Without(order, k)
    ensures forall e :: e in Without(order, k) <==> e in order && e != order[k]
  {
    Splits(order, k);
  }

  // ---------- the array's contents ----------

  datatype Item = Item(key: Key, data: Data)

  ghost function View(order: seq<Entry>): (v: seq<Item>)
    ensures |v| == |order| && forall i: nat :: i < |v| ==> v[i] == Item(order[i].key, order[i].data)
  {
    seq(|order|, i requires 0 <= i < |order| => Item(order[i].key, order[i].data))
  }

  lemma ViewAdd(order: seq<Entry>, e: Entry)
    ensures View(order + [e]) == View(order) + [Item(e.key, e.data)]
  {
  }

  lemma ViewWithout(order: seq<Entry>, k: nat)
    requires k < |order|
    ensures View(Without(order, k)) == Without(View(order), k)
  {
  }

  /** The position of the newest item with this key, -1 when there is none. */
  ghost function LastAt(v: seq<Item>, key: Key): (k: int)
    ensures -1 <= k < |v| && (k >= 0 ==> v[k].key == key)
    ensures forall i: nat :: k < i < |v| ==> v[i].key != key
  {
    if |v| == 0 then -1 else if v[|v| - 1].key == key then |v| - 1 else LastAt(v[..|v| - 1], key)
  }

  ghost function Removed(v: seq<Item>, key: Key): seq<Item> {
    if LastAt(v, key) < 0 then v else Without(v, LastAt(v, key))
  }

  /** The first entry of a chain with this key. */
  ghost function FirstWith(c: seq<Entry>, key: Key): Entry? {
    if |c| == 0 then null else if c[0].key == key then c[0] else FirstWith(c[1..], key)
  }

  /** The chain of a key's bucket finds the newest entry of the whole array. */
  lemma {:induction false} ChainFinds(order: seq<Entry>, key: Key, bits: nat)
    requires bits < 31
    ensures FirstWith(Chain(order, Bucket(key, bits), bits), key) == At(order, LastAt(View(order), key))
  {
    if |order| > 0 {
      var n := |order| - 1;
      ChainFinds(order[..n], key, bits);
      assert View(order)[..n] == View(order[..n]);
      var c := Chain(order[..n], Bucket(key, bits), bits);
      assert ([order[n]] + c)[1..] == c;
    }
  }

  // ---------- the two linked structures ----------

  ghost function Before(c: seq<Entry>, b: nat, i: nat): Back {
    if i == 0 || i > |c| then Head(b) else NextOf(c[i - 1])
  }

  ghost predicate Linked(c: seq<Entry>, b: nat)
    reads c`hnext, c`pprev
  {
    forall i: nat :: i < |c| ==> c[i].hnext == At(c, i + 1) && c[i].pprev == Before(c, b, i)
  }

  /** No entry stands in two places of the chains. */
  ghost predicate Apart(cs: seq<seq<Entry>>, bits: nat)
    requires bits < 31
  {
    forall b: nat :: b < |cs| ==> Distinct(cs[b]) && forall i: nat :: i < |cs[b]| ==> Home(cs[b][i], bits) == b
  }

  /** The chains' entries lie in es, a footprint. */
  ghost predicate Inside(cs: seq<seq<Entry>>, es: set<Entry>) {
    forall b: nat, i: nat :: b < |cs| && i < |cs[b]| ==> cs[b][i] in es
  }

  lemma ChainsInside(cs: seq<seq<Entry>>, order: seq<Entry>, es: set<Entry>, bits: nat)
    requires bits < 31 && Chains(cs, order, bits) && forall e :: e in order ==> e in es
    ensures Inside(cs, es)
  {
    forall b: nat | b < |cs| ensures forall i: nat :: i < |cs[b]| ==> cs[b][i] in es {
      ChainMembers(order, b, bits);
    }
  }

  /** What the order of insertion and the chains have in common. */
  ghost predicate Agree(cs: seq<seq<Entry>>, order: seq<Entry>, es: set<Entry>, bits: nat, width: nat) {
    bits < 31 && Distinct(order) && Chains(cs, order, bits)
    && Inside(cs, es) && (forall e :: e in order ==> e in es && |e.key| == width)
  }

  lemma AgreeApart(cs: seq<seq<Entry>>, order: seq<Entry>, es: set<Entry>, bits: nat, width: nat)
    requires Agree(cs, order, es, bits, width)
    ensures Apart(cs, bits)
  {
    forall b: nat | b < |cs| ensures Distinct(cs[b]) && forall i: nat :: i < |cs[b]| ==> Home(cs[b][i], bits) == b {
      ChainDistinct(order, b, bits);
      ChainMembers(order, b, bits);
    }
  }

  lemma AgreeAdd(cs: seq<seq<Entry>>, order: seq<Entry>, es: set<Entry>, e: Entry, bits: nat, width: nat)
    requires Agree(cs, order, es, bits, width) && e !in order && |e.key| == width
    ensures Agree(cs[Home(e, bits) := [e] + cs[Home(e, bits)]], order + [e], es + {e}, bits, width)
  {
    ChainsAdd(cs, order, e, bits);
    DistinctAdd(order, e);
    ChainsInside(cs[Home(e, bits) := [e] + cs[Home(e, bits)]], order + [e], es + {e}, bits);
  }

  lemma AgreeDel(cs: seq<seq<Entry>>, order: seq<Entry>, es: set<Entry>, k: nat, bits: nat, width: nat)
    requires Agree(cs, order, es, bits, width) && k < |order|
    ensures var b := Home(order[k], bits);
            var j := Spot(order, k, b, bits);
            b < |cs| && j < |cs[b]| && cs[b][j] == order[k]
            && Agree(cs[b := Without(cs[b], j)], Without(order, k), es, bits, width)
  {
    var b := Home(order[k], bits);
    var j := Spot(order, k, b, bits);
    ChainsDel(cs, order, k, bits);
    DistinctWithout(order, k);
    ChainsInside(cs[b := Without(cs[b], j)], Without(order, k), es, bits);
  }

  class AssocArray {
    const bits: nat
    const width: nat
    const table: array<Entry?>
    /** The list head: of this entry only the links are used. */
    const head: Entry
    var size: nat
    ghost var order: seq<Entry>
    /** A footprint: every entry that was ever linked. */
    ghost var entries: set<Entry>
    ghost var chains: seq<seq<Entry>>

    /** Entry i of the list; the head stands before the first and behind the last. */
    ghost function Ring(o: seq<Entry>, i: int): Entry { if 0 <= i < |o| then o[i] else head }

    ghost predicate ListOk(o: seq<Entry>, es: set<Entry>)
      requires forall i: nat :: i < |o| ==> o[i] in es
      reads head`lnext, head`lprev, es`lnext, es`lprev
    {
      head !in es && head.lnext == Ring(o, 0) && head.lprev == Ring(o, |o| - 1)
      && (forall i: nat {:trigger o[i].lnext} :: i < |o| ==> o[i].lnext == Ring(o, i + 1))
      && (forall i: nat {:trigger o[i].lprev} :: i < |o| ==> o[i].lprev == Ring(o, i - 1))
    }

    ghost predicate TableOk(cs: seq<seq<Entry>>, es: set<Entry>)
      requires Inside(cs, es)
      reads table, es`hnext, es`pprev
    {
      table.Length == |cs|
      && (forall b: nat :: b < |cs| ==> table[b] == At(cs[b], 0))
      && (forall b: nat :: b < |cs| ==> Linked(cs[b], b))
    }

    ghost predicate Valid()
      reads this, table, head, entries
    {
      Agree(chains, order, entries, bits, width) && ListOk(order, entries) && TableOk(chains, entries)
      && size == |order|
    }

    constructor (bits: nat, width: nat)
      requires bits < 31
      ensures Valid() && order == [] && this.bits == bits && this.width == width && entries == {}
      ensures fresh(table) && fresh(head)
    {
      var h := new Entry([], 0);
      h.lnext, h.lprev := h, h;
      this.bits, this.width, head := bits, width, h;
      size, order, entries := 0, [], {};
      table := new Entry?[Pow2(bits)](_ => null);
      chains := seq(Pow2(bits), _ => []);
    }

    // ---------- list.h ----------

    /** k_list_add_tail: between the last entry and the list head. */
    method ListAddTail(e: Entry)
      requires e in entries && e !in order && forall i: nat :: i < |order| ==> order[i] in entries
      requires ListOk(order, entries) && Only(order, |order| - 1)
      modifies head`lnext, head`lprev, entries`lnext, entries`lprev
      ensures ListOk(order + [e], entries)
    {
      var prev := head.lprev;
      head.lprev := e;
      e.lnext := head;
      e.lprev := prev;
      prev.lnext := e;
    }

    /** __list_del: the two neighbours of entry `k` are linked to each other. */
    method Bridge(prev: Entry, next: Entry, ghost k: nat)
      requires forall i: nat :: i < |order| ==> order[i] in entries
      requires ListOk(order, entries) && k < |order| && prev == Ring(order, k - 1) && next == Ring(order, k + 1)
      requires Only(order, k - 1) && Only(order, k + 1)
      modifies head`lnext, head`lprev, entries`lnext, entries`lprev
      ensures ListOk(Without(order, k), entries)
    {
      next.lprev := prev;
      prev.lnext := next;
      RingWithout(order, k);
    }

    /** k_list_del */
    method ListDel(e: Entry, ghost k: nat)
      requires forall i: nat :: i < |order| ==> order[i] in entries
      requires ListOk(order, entries) && k < |order| && e == order[k]
      requires Only(order, k - 1) && Only(order, k) && Only(order, k + 1)
      modifies head`lnext, head`lprev, entries`lnext, entries`lprev
      ensures ListOk(Without(order, k), entries)
    {
      Bridge(e.lprev, e.lnext, k);
      RingWithout(order, k);
      e.lnext, e.lprev := null, null;
    }

    lemma RingWithout(o: seq<Entry>, k: nat)
      requires k < |o|
      ensures forall i {:trigger Ring(Without(o, k), i)} :: -1 <= i <= |o| - 1 ==>
                Ring(Without(o, k), i) == if i < k then Ring(o, i) else Ring(o, i + 1)
      ensures forall i {:trigger Without(o, k)[i]} :: 0 <= i < |o| - 1 ==>
            Without(o, k)[i] == if i < k then o[i] else o[i + 1]
    {
    }

    /** hlist_add_head */
    method ChainAdd(e: Entry, b: nat, ghost c: seq<Entry>)
      requires b < table.Length && table[b] == At(c, 0) && Linked(c, b) && Only(c, 0) && e !in c
      modifies table, c`pprev, e`hnext, e`pprev
      ensures Linked([e] + c, b) && table[b] == e
      ensures forall a: nat :: a < table.Length && a != b ==> table[a] == old(table[a])
    {
      var first := table[b];
      e.hnext := first;
      if first != null { first.pprev := NextOf(e); }
      table[b] := e;
      e.pprev := Head(b);
    }

    /** hlist_del */
    method ChainDel(e: Entry, ghost b: nat, ghost c: seq<Entry>, ghost j: nat)
      requires b < table.Length && table[b] == At(c, 0) && Linked(c, b)
      requires j < |c| && e == c[j] && Only(c, j - 1) && Only(c, j) && Only(c, j + 1)
      modifies table, c`hnext, c`pprev
      ensures Linked(Without(c, j), b) && table[b] == At(Without(c, j), 0)
      ensures forall a: nat :: a < table.Length && a != b ==> table[a] == old(table[a])
    {
      var next, pprev := e.hnext, e.pprev;
      match pprev {
        case Head(bucket) => table[bucket] := next;
        case NextOf(before) => before.hnext := next;
        case Unlinked =>
      }
      if next != null { next.pprev := pprev; }
      e.hnext, e.pprev := null, Unlinked;
      WithoutAt(c, j);
    }

    /** hlist_add_head on the whole table. */
    method TableAdd(e: Entry)
      requires bits < 31 && Inside(chains, entries) && TableOk(chains, entries)
      requires Apart(chains, bits) && Home(e, bits) < |chains|
      requires e in entries && e !in order
      requires forall b: nat, i: nat :: b < |chains| && i < |chains[b]| ==> chains[b][i] != e
      modifies table, entries`hnext, entries`pprev
      ensures TableOk(chains[Home(e, bits) := [e] + chains[Home(e, bits)]], entries)
    {
      ghost var b := Home(e, bits);
      OnlyOnce(chains[b], 0);
      var bucket := BucketOf(e.key, bits);
      ChainAdd(e, bucket, chains[b]);
      forall a: nat | a < |chains| && a != b ensures Linked(chains[a], a) {
        assert old(Linked(chains[a], a));
      }
    }

    /** hlist_del on the whole table. */
    method TableDel(e: Entry, ghost j: nat)
      requires bits < 31 && Inside(chains, entries) && TableOk(chains, entries) && Apart(chains, bits)
      requires Home(e, bits) < |chains| && j < |chains[Home(e, bits)]| && chains[Home(e, bits)][j] == e
      modifies table, entries`hnext, entries`pprev
      ensures TableOk(chains[Home(e, bits) := Without(chains[Home(e, bits)], j)], entries)
    {
      ghost var b := Home(e, bits);
      OnlyOnce(chains[b], j - 1);
      OnlyOnce(chains[b], j);
      OnlyOnce(chains[b], j + 1);
      ChainDel(e, b, chains[b], j);
      forall a: nat | a < |chains| && a != b ensures Linked(chains[a], a) {
        assert old(Linked(chains[a], a));
      }
    }

    // ---------- both structures together ----------

    method Settle(n: nat, ghost cs: seq<seq<Entry>>, ghost o: seq<Entry>)
      requires Agree(cs, o, entries, bits, width) && ListOk(o, entries) && TableOk(cs, entries) && n == |o|
      modifies this`size, this`order, this`chains
      ensures Valid() && order == o
    {
      chains, order, size := cs, o, n;
    }

    ghost method Adopt(e: Entry)
      requires Agree(chains, order, entries, bits, width) && ListOk(order, entries) && TableOk(chains, entries)
      requires e != head
      modifies this`entries
      ensures entries == old(entries) + {e}
      ensures Agree(chains, order, entries, bits, width) && ListOk(order, entries) && TableOk(chains, entries)
    {
      entries := entries + {e};
    }

    method LinkBoth(e: Entry, ghost cs: seq<seq<Entry>>, ghost o: seq<Entry>)
      requires Agree(chains, order, entries, bits, width) && ListOk(order, entries) && TableOk(chains, entries)
      requires e in entries && e !in order
      requires forall b: nat, i: nat :: b < |chains| && i < |chains[b]| ==> chains[b][i] != e
      requires Agree(cs, o, entries, bits, width)
      requires cs == chains[Home(e, bits) := [e] + chains[Home(e, bits)]] && o == order + [e]
      modifies head, table, entries
      ensures ListOk(o, entries) && TableOk(cs, entries)
    {
      AgreeApart(chains, order, entries, bits, width);
      OnlyOnce(order, |order| - 1);
      TableAdd(e);
      ListAddTail(e);
    }

    method UnlinkBoth(e: Entry, ghost j: nat, ghost k: nat, ghost cs: seq<seq<Entry>>, ghost o: seq<Entry>)
      requires Agree(chains, order, entries, bits, width) && ListOk(order, entries) && TableOk(chains, entries)
      requires Agree(cs, o, entries, bits, width) && k < |order| && order[k] == e && o == Without(order, k)
      requires j < |chains[Home(e, bits)]| && chains[Home(e, bits)][j] == e
      requires cs == chains[Home(e, bits) := Without(chains[Home(e, bits)], j)]
      modifies head, table, entries
      ensures ListOk(o, entries) && TableOk(cs, entries)
    {
      AgreeApart(chains, order, entries, bits, width);
      OnlyOnce(order, k - 1);
      OnlyOnce(order, k);
      OnlyOnce(order, k + 1);
      TableDel(e, j);
      ListDel(e, k);
    }

    /** Links a new entry into both structures. */
    method Enter(e: Entry)
      requires Valid() && e !in entries && e != head && |e.key| == width
      modifies head, this`size, this`order, this`chains, this`entries, table, entries, e
      ensures Valid() && order == old(order) + [e] && entries == old(entries) + {e}
    {
      ghost var b := Home(e, bits);
      ghost var cs, o := chains[b := [e] + chains[b]], order + [e];
      AgreeAdd(chains, order, entries, e, bits, width);
      assert forall i: nat, j: nat :: i < |chains| && j < |chains[i]| ==> chains[i][j] != e;
      Adopt(e);
      LinkBoth(e, cs, o);
      Settle(size + 1, cs, o);
    }

    /** Unlinks the entry from both structures; what array_del and the two ends' deletions share. */
    method Unlink(e: Entry, ghost k: nat)
      requires Valid() && k < |order| && order[k] == e
      modifies head, this`size, this`order, this`chains, table, entries
      ensures Valid() && order == Without(old(order), k)
    {
      ghost var b := Home(e, bits);
      ghost var j := Spot(order, k, b, bits);
      AgreeDel(chains, order, entries, k, bits, width);
      ghost var cs, o := chains[b := Without(chains[b], j)], Without(order, k);
      UnlinkBoth(e, j, k, cs, o);
      Settle(size - 1, cs, o);
    }

    // ---------- assoc_array.c ----------

    /** array_get_by_key: the newest entry with this key, if any. */
    method Get(key: Key) returns (r: Entry?)
      requires Valid() && |key| == width
      ensures r == At(order, LastAt(View(order), key))
    {
      var b := BucketOf(key, bits);
      var cur := table[b];
      ghost var i := 0;
      ghost var c := chains[b];
      while cur != null
        invariant 0 <= i <= |c| && cur == At(c, i)
        invariant FirstWith(c[i..], key) == FirstWith(c, key)
        decreases |c| - i
      {
        if cur.key == key {
          ChainFinds(order, key, bits);
          return cur;
        }
        assert c[i..][1..] == c[i + 1..];
        cur := cur.hnext;
        i := i + 1;
      }
      ChainFinds(order, key, bits);
      return null;
    }

    /** array_add: the same key may stand more than once. */
    method Add(data: Data, key: Key)
      requires Valid() && |key| == width
      modifies head, this`size, this`order, this`chains, this`entries, table, entries
      ensures Valid() && View(order) == View(old(order)) + [Item(key, data)]
      ensures order[..|order| - 1] == old(order) && fresh(order[|order| - 1])
      ensures fresh(entries - old(entries))
    {
      var e := new Entry(key, data);
      ViewAdd(order, e);
      Enter(e);
    }

    /** array_del: 1 when there is no such key. */
    method Del(key: Key) returns (ret: int)
      requires Valid() && |key| == width
      modifies head, this`size, this`order, this`chains, table, entries
      ensures Valid() && View(order) == Removed(View(old(order)), key)
      ensures ret == if LastAt(View(old(order)), key) < 0 then 1 else 0
      ensures ret == 1 ==> order == old(order)
    {
      ghost var k := LastAt(View(order), key);
      var e := Get(key);
      if e == null { return 1; }
      ViewWithout(order, k);
      Unlink(e, k);
      return 0;
    }

    /** array_add_replace: drops the newest entry with this key, then adds. */
    method AddReplace(data: Data, key: Key)
      requires Valid() && |key| == width
      modifies head, this`size, this`order, this`chains, this`entries, table, entries
      ensures Valid() && View(order) == Removed(View(old(order)), key) + [Item(key, data)]
      ensures fresh(entries - old(entries))
    {
      var _ := Del(key);
      Add(data, key);
    }

    /** array_get_first and array_get_last */
    method GetEnd(first: bool) returns (r: Entry?)
      requires Valid()
      ensures r == if first then At(order, 0) else At(order, |order| - 1)
    {
      if head.lnext == head || size == 0 { return null; }
      r := if first then head.lnext else head.lprev;
    }

    /** array_del_first and array_del_last: -1 on an empty array. */
    method DelEnd(first: bool) returns (ret: int)
      requires Valid()
      modifies head, this`size, this`order, this`chains, table, entries
      ensures Valid() && ret == if old(order) == [] then -1 else 0
      ensures order == if old(order) == [] then [] else Without(old(order), if first then 0 else |old(order)| - 1)
    {
      if head.lnext == head || size == 0 { return -1; }
      var e := if first then head.lnext else head.lprev;
      Unlink(e, if first then 0 else |order| - 1);
      return 0;
    }

    /** array_collision_percent: entries beyond the first of their bucket, per hundred entries. */
    method CollisionPercent() returns (percent: int)
      requires Valid()
      ensures order == [] ==> percent == 0
      ensures order != [] ==>
            percent * |order| <= 100 * (|order| - |Used(order, bits)|) < (percent + 1) * |order|
    {
      if size == 0 { return 0; }
      var collisions := Collisions();
      percent := (collisions * 100) / size;
      Percent(collisions * 100, size, percent);
    }

    method Collisions() returns (collisions: int)
      requires Valid()
      ensures collisions == |order| - |Used(order, bits)|
    {
      collisions := 0;
      var i := 0;
      while i < table.Length
        invariant i <= table.Length && collisions == Excess(order, i, bits)
      {
        var count := Count(i);
        if count > 1 { collisions := collisions + (count - 1); }
        i := i + 1;
      }
      ExcessIsUnused(order, bits);
    }

    method Count(b: nat) returns (count: nat)
      requires Valid() && b < table.Length
      ensures count == |Chain(order, b, bits)|
    {
      var cur := table[b];
      ghost var c := chains[b];
      count := 0;
      while cur != null
        invariant count <= |c| && cur == At(c, count)
        decreases |c| - count
      {
        assert Linked(c, b);
        cur := cur.hnext;
        count := count + 1;
      }
    }
  }

  // ---------- collisions ----------

  lemma Percent(n: int, size: nat, percent: int)
    requires size > 0 && percent == n / size
    ensures percent * size <= n < (percent + 1) * size
  {
    assert (percent + 1) * size == percent * size + size;
  }

  /** The buckets in use. */
  ghost function Used(order: seq<Entry>, bits: nat): set<nat>
    requires bits < 31
  {
    if |order| == 0 then {} else Used(order[..|order| - 1], bits) + {Home(order[|order| - 1], bits)}
  }

  /** What the loop of array_collision_percent adds up over the first n buckets. */
  ghost function Excess(order: seq<Entry>, n: nat, bits: nat): nat
    requires bits < 31
  {
    if n == 0 then 0
    else
      var count := |Chain(order, n - 1, bits)|;
      Excess(order, n - 1, bits) + (if count > 1 then count - 1 else 0)
  }

  lemma {:induction false} UsedIffChained(order: seq<Entry>, b: nat, bits: nat)
    requires bits < 31
    ensures b in Used(order, bits) <==> Chain(order, b, bits) != []
  {
    if |order| > 0 { UsedIffChained(order[..|order| - 1], b, bits); }
  }

  lemma {:induction false} ExcessGrows(order: seq<Entry>, n: nat, bits: nat)
    requires bits < 31 && |order| > 0
    ensures var rest, h := order[..|order| - 1], Home(order[|order| - 1], bits);
            Excess(order, n, bits) == Excess(rest, n, bits) + (if h < n && h in Used(rest, bits) then 1 else 0)
  {
    if n > 0 {
      ExcessGrows(order, n - 1, bits);
      UsedIffChained(order[..|order| - 1], n - 1, bits);
    }
  }

  lemma {:induction false} NoExcess(n: nat, bits: nat)
    requires bits < 31
    ensures Excess([], n, bits) == 0
  {
    if n > 0 { NoExcess(n - 1, bits); }
  }

  /** The collisions are the entries less the buckets in use. */
  lemma {:induction false} ExcessIsUnused(order: seq<Entry>, bits: nat)
    requires bits < 31
    ensures Excess(order, Pow2(bits), bits) == |order| - |Used(order, bits)|
  {
    if |order| == 0 {
      NoExcess(Pow2(bits), bits);
    } else {
      var rest, h := order[..|order| - 1], Home(order[|order| - 1], bits);
      ExcessIsUnused(rest, bits);
      ExcessGrows(order, Pow2(bits), bits);
      assert |Used(rest, bits) + {h}| == |Used(rest, bits)| + if h in Used(rest, bits) then 0 else 1 by {
        if h in Used(rest, bits) { assert Used(rest, bits) + {h} == Used(rest, bits); }
      }
    }
  }

  // ---------- what runs of add_replace and del leave ----------

  ghost predicate Unique(v: seq<Item>) { forall i: nat, j: nat :: i < j < |v| ==> v[i].key != v[j].key }

  ghost function Lookup(v: seq<Item>, key: Key): Option<Data> {
    if LastAt(v, key) < 0 then None else Some(v[LastAt(v, key)].data)
  }

  lemma {:induction false} LastAtIs(v: seq<Item>, key: Key, k: int)
    requires -1 <= k < |v| && (k >= 0 ==> v[k].key == key) && forall i: nat :: k < i < |v| ==> v[i].key != key
    ensures LastAt(v, key) == k
  {
    if k < |v| - 1 { LastAtIs(v[..|v| - 1], key, k); }
  }

  /** Deleting right after adding restores the contents, whatever stood under the key before. */
  lemma DelUndoesAdd(v: seq<Item>, key: Key, data: Data)
    ensures Removed(v + [Item(key, data)], key) == v
    ensures Lookup(v + [Item(key, data)], key) == Some(data)
  {
    LastAtIs(v + [Item(key, data)], key, |v|);
  }

  /** Adding or deleting one key changes no other key's value. */
  lemma OthersKept(v: seq<Item>, key: Key, data: Data, other: Key)
    requires other != key
    ensures Lookup(v + [Item(key, data)], other) == Lookup(v, other)
    ensures Lookup(Removed(v, key), other) == Lookup(v, other)
  {
    OtherKeptAdd(v, key, data, other);
    if LastAt(v, key) >= 0 { OtherKeptWithout(v, LastAt(v, key), other); }
  }

  lemma OtherKeptAdd(v: seq<Item>, key: Key, data: Data, other: Key)
    requires other != key
    ensures Lookup(v + [Item(key, data)], other) == Lookup(v, other)
  {
    assert (v + [Item(key, data)])[..|v|] == v;
    assert LastAt(v + [Item(key, data)], other) == LastAt(v, other);
  }

  lemma OtherKeptWithout(v: seq<Item>, k: nat, other: Key)
    requires k < |v| && v[k].key != other
    ensures Lookup(Without(v, k), other) == Lookup(v, other)
  {
    var l, w := LastAt(v, other), Without(v, k);
    ItemsWithout(v, k);
    LastAtIs(w, other, if l < k then l else l - 1);
  }

  lemma ItemsWithout(v: seq<Item>, k: nat)
    requires k < |v|
    ensures |Without(v, k)| == |v| - 1
    ensures forall i: nat :: i < |v| - 1 ==> Without(v, k)[i] == if i < k then v[i] else v[i + 1]
  {
  }

  datatype Op = Put(key: Key, data: Data) | Take(key: Key)

  ghost function Apply(v: seq<Item>, op: Op): seq<Item> {
    match op
    case Put(key, data) => Removed(v, key) + [Item(key, data)]
    case Take(key) => Removed(v, key)
  }

  ghost function Run(ops: seq<Op>): seq<Item> {
    if |ops| == 0 then [] else Apply(Run(ops[..|ops| - 1]), ops[|ops| - 1])
  }

  ghost predicate Mentions(ops: seq<Op>, key: Key) { exists i: nat :: i < |ops| && ops[i].key == key }

  /** The puts that no later operation on their key follows, in their order. */
  ghost function LastPuts(ops: seq<Op>): seq<Item> {
    if |ops| == 0 then []
    else
      var rest := LastPuts(ops[1..]);
      if ops[0].Put? && !Mentions(ops[1..], ops[0].key) then [Item(ops[0].key, ops[0].data)] + rest else rest
  }

  lemma {:induction false} LastPutsMentioned(ops: seq<Op>)
    ensures forall i: nat :: i < |LastPuts(ops)| ==> Mentions(ops, LastPuts(ops)[i].key)
  {
    if |ops| > 0 {
      LastPutsMentioned(ops[1..]);
      assert Mentions(ops, ops[0].key);
      forall key | Mentions(ops[1..], key) ensures Mentions(ops, key) {
        var i: nat :| i < |ops[1..]| && ops[1..][i].key == key;
        assert ops[i + 1].key == key;
      }
    }
  }

  lemma {:induction false} LastPutsUnique(ops: seq<Op>)
    ensures Unique(LastPuts(ops))
  {
    if |ops| > 0 {
      LastPutsUnique(ops[1..]);
      LastPutsMentioned(ops[1..]);
    }
  }

  lemma MentionsMore(ops: seq<Op>, op: Op, key: Key)
    ensures Mentions(ops + [op], key) <==> Mentions(ops, key) || op.key == key
  {
    if Mentions(ops, key) {
      var i: nat :| i < |ops| && ops[i].key == key;
      assert (ops + [op])[i].key == key;
    }
    assert (ops + [op])[|ops|] == op;
  }

  /** Without the items of a key. */
  ghost function Purged(v: seq<Item>, key: Key): seq<Item> {
    if |v| == 0 then [] else (if v[0].key == key then [] else [v[0]]) + Purged(v[1..], key)
  }

  lemma {:induction false} PurgedAbsent(v: seq<Item>, key: Key)
    requires forall i: nat :: i < |v| ==> v[i].key != key
    ensures Purged(v, key) == v
  {
    if |v| > 0 { PurgedAbsent(v[1..], key); }
  }

  lemma RemovedCons(v: seq<Item>, key: Key)
    requires |v| > 0 && v[0].key != key
    ensures Removed(v, key) == [v[0]] + Removed(v[1..], key)
  {
    var k := LastAt(v[1..], key);
    assert forall i: nat :: 0 < i < |v| ==> v[i] == v[1..][i - 1];
    LastAtIs(v, key, if k < 0 then -1 else k + 1);
    if k >= 0 { WithoutNext(v, k); }
  }

  lemma WithoutNext<T>(v: seq<T>, k: nat)
    requires k + 1 < |v|
    ensures Without(v, k + 1) == [v[0]] + Without(v[1..], k)
  {
  }

  lemma {:induction false} PurgedIsRemoved(v: seq<Item>, key: Key)
    requires Unique(v)
    ensures Purged(v, key) == Removed(v, key)
  {
    if |v| > 0 {
      if v[0].key == key {
        LastAtIs(v, key, 0);
        PurgedAbsent(v[1..], key);
      } else {
        PurgedIsRemoved(v[1..], key);
        RemovedCons(v, key);
      }
    }
  }

  /** One more operation on the reference form. */
  lemma {:induction false} LastPutsSnoc(ops: seq<Op>, op: Op)
    ensures LastPuts(ops + [op]) == Purged(LastPuts(ops), op.key) + (if op.Put? then [Item(op.key, op.data)] else [])
  {
    if |ops| == 0 {
      assert (ops + [op])[1..] == [];
    } else {
      assert (ops + [op])[1..] == ops[1..] + [op];
      LastPutsSnoc(ops[1..], op);
      MentionsMore(ops[1..], op, ops[0].key);
      var rest := LastPuts(ops[1..]);
      assert ([Item(ops[0].key, 0)] + rest)[1..] == rest;
      assert ops[0].Put? ==> ([Item(ops[0].key, ops[0].data)] + rest)[1..] == rest;
    }
  }

  /**
    Any run of add_replace and del leaves, without repeats, the last
    put of every key not since deleted, oldest first.
   */
  lemma {:induction false} RunIsLastPuts(ops: seq<Op>)
    ensures Run(ops) == LastPuts(ops) && Unique(Run(ops))
  {
    LastPutsUnique(ops);
    if |ops| > 0 {
      var n := |ops| - 1;
      RunIsLastPuts(ops[..n]);
      assert ops[..n] + [ops[n]] == ops;
      LastPutsSnoc(ops[..n], ops[n]);
      PurgedIsRemoved(Run(ops[..n]), ops[n].key);
    }
  }

  method Turn(a: AssocArray, op: Op)
    requires a.Valid() && |op.key| == a.width
    modifies a.head, a`size, a`order, a`chains, a`entries, a.table, a.entries
    ensures a.Valid() && View(a.order) == Apply(View(old(a.order)), op) && fresh(a.entries - old(a.entries))
  {
    match op {
      case Put(key, data) => a.AddReplace(data, key);
      case Take(key) => var _ := a.Del(key);
    }
  }

  /** The linked structure over a whole run. */
  method Replay(bits: nat, width: nat, ops: seq<Op>) returns (a: AssocArray)
    requires bits < 31 && forall i: nat :: i < |ops| ==> |ops[i].key| == width
    ensures a.Valid() && View(a.order) == LastPuts(ops)
  {
    a := new AssocArray(bits, width);
    var i := 0;
    while i < |ops|
      invariant i <= |ops| && a.Valid() && a.width == width && fresh(a)
      invariant fresh(a.table) && fresh(a.head) && fresh(a.entries)
      invariant View(a.order) == Run(ops[..i])
    {
      assert ops[..i + 1][..i] == ops[..i];
      Turn(a, ops[i]);
      i := i + 1;
    }
    assert ops[..i] == ops;
    RunIsLastPuts(ops);
  }
}
