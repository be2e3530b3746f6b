/**
  The hash functions behind the associative array (hashtable-linux-kernel/hash.h and calc_bkt of
  hashtable.h): the fast forms against the simple ones, with every machine word's wrap-around.
 */
module Hashing {
  import opened Common

  const GOLDEN_RATIO_PRIME_32 := 0x9e370001
  const GOLDEN_RATIO_PRIME_64 := 0x9e37fffffffc0001

  // ---------- arithmetic modulo a word ----------

  lemma SmallMultiple(d: int, m: int)
    requires -m < d * m < m
    ensures d == 0
  {
    assert d >= 1 ==> (d - 1) * m >= 0;
    assert d <= -1 ==> (-d - 1) * m >= 0;
  }

  lemma ModUnique(a: int, b: int, m: nat, q: int)
    requires m > 0 && a == b + q * m
    ensures a % m == b % m
  {
    var d := b / m + q - a / m;
    calc {
      d * m;
      (b / m) * m + q * m - (a / m) * m;
      (b - b % m) + (a - b) - (a - a % m);
      a % m - b % m;
    }
    SmallMultiple(d, m);
  }

  lemma ModTimes(a: int, k: int, m: nat)
    requires m > 0
    ensures ((a % m) * k) % m == (a * k) % m
  {
    assert a == (a / m) * m + a % m;
    assert a * k == (a % m) * k + ((a / m) * k) * m;
    ModUnique(a * k, (a % m) * k, m, (a / m) * k);
  }

  lemma Sum64(a: int, b: int)
    ensures (a % U64 + b % U64) % U64 == (a + b) % U64
    ensures (a % U64 - b % U64) % U64 == (a - b) % U64
  {
  }

  lemma Distribute(v: int, a: int, b: int)
    ensures v * a + v * b == v * (a + b)
    ensures v * a - v * b == v * (a - b)
  {
  }

  lemma Associate(v: int, a: int, b: int)
    ensures v * a * b == v * (a * b)
  {
  }

  // ---------- hash_64 ----------

  /** `n` and `hash` are `val` times `a` and `c`, in 64 bits. */
  predicate Multiples(val: nat, n: nat, a: int, hash: nat, c: int) {
    n == (val * a) % U64 && hash == (val * c) % U64
  }

  /** One pair of statements of the shift-and-add form: n <<= k, then hash += n or hash -= n. */
  method ShiftAdd(ghost val: nat, n: nat, k: nat, hash: nat, plus: bool, ghost a: int, ghost c: int)
    returns (n': nat, hash': nat)
    requires Multiples(val, n, a, hash, c)
    ensures Multiples(val, n', a * Pow2(k), hash', if plus then c + a * Pow2(k) else c - a * Pow2(k))
  {
    n' := ShiftLeft(n, k);
    ghost var step := a * Pow2(k);
    ModTimes(val * a, Pow2(k), U64);
    Associate(val, a, Pow2(k));
    hash' := if plus then (hash + n') % U64 else (hash - n') % U64;
    Sum64(val * c, val * step);
    Distribute(val, c, step);
  }

  /** n <<= k in 64 bits. */
  function ShiftLeft(n: nat, k: nat): nat { (n * Pow2(k)) % U64 }

  /** The mixing of hash_64 in its shift-and-add form. */
  method Mix64(val: nat) returns (hash: nat)
    requires val < U64
    ensures hash == (val * GOLDEN_RATIO_PRIME_64) % U64
  {
    hash := val;
    var n := hash;
    assert Multiples(val, n, 1, hash, 1);
    assert Pow2(18) == 0x4_0000 && Pow2(3) == 8 && Pow2(4) == 16 && Pow2(2) == 4 && Pow2(33) == 0x2_0000_0000;
    n, hash := ShiftAdd(val, n, 18, hash, false, 1, 1);
    n, hash := ShiftAdd(val, n, 33, hash, false, 0x4_0000, 1 - 0x4_0000);
    n, hash := ShiftAdd(val, n, 3, hash, true, 0x8_0000_0000_0000, 1 - 0x4_0000 - 0x8_0000_0000_0000);
    n, hash := ShiftAdd(val, n, 3, hash, false, 0x40_0000_0000_0000, 1 - 0x4_0000 + 0x38_0000_0000_0000);
    n, hash := ShiftAdd(val, n, 4, hash, true, 0x200_0000_0000_0000, 1 - 0x4_0000 - 0x1C8_0000_0000_0000);
    n, hash := ShiftAdd(val, n, 2, hash, true, 0x2000_0000_0000_0000, 1 - 0x4_0000 + 0x1E38_0000_0000_0000);
  }

  /** x >> k. */
  function Shifted(x: nat, k: nat): nat { if k == 0 then x else Shifted(x / 2, k - 1) }

  /** Shifting right divides. */
  lemma {:induction false} ShiftedIs(x: nat, k: nat)
    ensures Shifted(x, k) == x / Pow2(k)
  {
    if k > 0 {
      ShiftedIs(x / 2, k - 1);
      HalfQuotient(x, Pow2(k - 1));
    }
  }

  lemma HalfQuotient(x: nat, m: nat)
    requires m > 0
    ensures x / 2 / m == x / (2 * m)
  {
    var q, r := x / 2 / m, x / 2 % m;
    assert x == q * (2 * m) + (2 * r + x % 2);
    QuotientIs(x, 2 * m, q, 2 * r + x % 2);
  }

  lemma QuotientIs(x: nat, m: nat, q: nat, r: nat)
    requires x == q * m + r && r < m
    ensures x / m == q
  {
    SmallMultiple(x / m - q, m);
  }

  /** hash_64 keeps the high bits of the product. */
  method Hash64(val: nat, bits: nat) returns (h: nat)
    requires val < U64 && 1 <= bits <= 64
    ensures h == (val * 0x9e37fffffffc0001) % U64 / Pow2(64 - bits)
  {
    var hash := Mix64(val);
    h := Shifted(hash, 64 - bits);
    ShiftedIs(hash, 64 - bits);
  }

  /** hash_32 keeps the high bits of its product. */
  function Hash32(val: nat, bits: nat): (h: nat)
    requires val < U32 && 1 <= bits <= 32
    ensures h == (val * 0x9e370001) % U32 / Pow2(32 - bits)
  {
    ShiftedIs((val * GOLDEN_RATIO_PRIME_32) % U32, 32 - bits);
    Shifted((val * GOLDEN_RATIO_PRIME_32) % U32, 32 - bits)
  }

  // ---------- hash_time33 ----------

  /** The value a 32-bit two's-complement int keeps of x. */
  function Wrap32(x: int): (r: int)
    ensures -0x8000_0000 <= r < 0x8000_0000 && (x - r) % U32 == 0
  {
    if x % U32 < 0x8000_0000 then x % U32 else x % U32 - U32
  }

  type schar = x: int | -128 <= x < 128

  /** One unrolled statement, each of its three operations wrapping: shift, addition, addition. */
  function Turn33(hash: int, c: schar): int { Wrap32(Wrap32(Wrap32(hash * 32) + hash) + c) }

  /** The plain fold over unbounded integers. */
  function Fold33(s: seq<schar>): int {
    if |s| == 0 then 5381 else Fold33(s[..|s| - 1]) * 33 + s[|s| - 1]
  }

  lemma WrapSame(a: int, b: int, q: int)
    requires a == b + q * U32
    ensures Wrap32(a) == Wrap32(b)
  {
  }

  lemma Gap(x: int) returns (q: int)
    ensures Wrap32(x) == x + q * U32
  {
    q := (Wrap32(x) - x) / U32;
  }

  /** Wrapping at every operation keeps what wrapping once at the end keeps. */
  lemma TurnWraps(x: int, c: schar)
    ensures Turn33(Wrap32(x), c) == Wrap32(33 * x + c)
  {
    var h := Wrap32(x);
    var q := Gap(x);
    var r := Gap(h * 32);
    var t := Gap(Wrap32(h * 32) + h);
    WrapSame(Wrap32(Wrap32(h * 32) + h) + c, 33 * x + c, 33 * q + r + t);
  }

  /** The form unrolled eight times, with its fall-through tail; a negative length reads nothing. */
  method HashTime33(s: seq<schar>, len: int) returns (hash: int)
    requires len <= |s|
    ensures hash == Wrap32(Fold33(s[..if len < 0 then 0 else len]))
    ensures len <= 0 ==> hash == 5381
  {
    hash := 5381;
    assert s[..0] == [];
    var rest, p := len, 0;
    while rest >= 8
      invariant 0 <= p && (len >= 0 ==> 0 <= rest) && rest == len - p && (len < 0 ==> p == 0)
      invariant hash == Wrap32(Fold33(s[..p]))
    {
      hash := NextFour(s, p, hash);
      hash := NextFour(s, p + 4, hash);
      rest, p := rest - 8, p + 8;
    }
    hash := Tail33(s, p, rest, hash);
  }

  /** The fall-through switch: case n goes on through the cases below it. */
  method Tail33(s: seq<schar>, start: nat, rest: int, hash0: int) returns (hash: int)
    requires rest < 8 && start + rest <= |s| && start <= |s| && hash0 == Wrap32(Fold33(s[..start]))
    ensures hash == Wrap32(Fold33(s[..if rest < 0 then start else start + rest]))
  {
    hash := hash0;
    var p := start;
    if rest == 7 { hash := NextChar(s, p, hash); p := p + 1; }
    if 6 <= rest <= 7 { hash := NextChar(s, p, hash); p := p + 1; }
    if 5 <= rest <= 7 { hash := NextChar(s, p, hash); p := p + 1; }
    if 4 <= rest <= 7 { hash := NextChar(s, p, hash); p := p + 1; }
    if 3 <= rest <= 7 { hash := NextChar(s, p, hash); p := p + 1; }
    if 2 <= rest <= 7 { hash := NextChar(s, p, hash); p := p + 1; }
    if 1 <= rest <= 7 { hash := NextChar(s, p, hash); p := p + 1; }
  }

  method NextChar(s: seq<schar>, p: nat, hash: int) returns (h: int)
    requires p < |s| && hash == Wrap32(Fold33(s[..p]))
    ensures h == Wrap32(Fold33(s[..p + 1]))
  {
    assert s[..p + 1][..p] == s[..p];
    TurnWraps(Fold33(s[..p]), s[p]);
    h := Turn33(hash, s[p]);
  }

  method NextFour(s: seq<schar>, p: nat, hash: int) returns (h: int)
    requires p + 4 <= |s| && hash == Wrap32(Fold33(s[..p]))
    ensures h == Wrap32(Fold33(s[..p + 4]))
  {
    h := NextChar(s, p, hash);
    h := NextChar(s, p + 1, h);
    h := NextChar(s, p + 2, h);
    h := NextChar(s, p + 3, h);
  }

  // ---------- hash_str ----------

  /** Where byte i of an n-byte key stands in its block: blocks of 8, then one of 4, then single bytes. */
  function Place(i: nat, n: nat): (p: nat)
    requires i < n
    ensures p < 8
  {
    var whole := n - n % 8;
    if i < whole then i % 8 else if n % 8 >= 4 && i < whole + 4 then i - whole else 0
  }

  function Pow256(k: nat): nat { if k == 0 then 1 else 256 * Pow256(k - 1) }

  /** Every byte from position i on, weighed by its place in its block. */
  function Weighed(s: seq<byte>, i: nat): nat
    requires i <= |s|
    decreases |s| - i
  {
    if i == |s| then 0 else s[i] * Pow256(Place(i, |s|)) + Weighed(s, i + 1)
  }

  /** The four bytes at p as a little-endian number. */
  function Little4(s: seq<byte>, p: nat): int
    requires p + 4 <= |s|
  {
    s[p] as int + 0x100 * (s[p + 1] as int) + 0x1_0000 * (s[p + 2] as int) + 0x100_0000 * (s[p + 3] as int)
  }

  function Little8(s: seq<byte>, p: nat): int
    requires p + 8 <= |s|
  {
    Little4(s, p) + 0x1_0000_0000 * Little4(s, p + 4)
  }

  lemma Four(s: seq<byte>, p: nat)
    requires p + 4 <= |s|
    requires Place(p, |s|) == 0 && Place(p + 1, |s|) == 1 && Place(p + 2, |s|) == 2 && Place(p + 3, |s|) == 3
    ensures Weighed(s, p) == Little4(s, p) + Weighed(s, p + 4)
  {
    assert Pow256(0) == 1 && Pow256(1) == 0x100 && Pow256(2) == 0x1_0000 && Pow256(3) == 0x100_0000;
    assert Weighed(s, p) == s[p] * Pow256(0) + Weighed(s, p + 1);
    assert Weighed(s, p + 1) == s[p + 1] * Pow256(1) + Weighed(s, p + 2);
    assert Weighed(s, p + 2) == s[p + 2] * Pow256(2) + Weighed(s, p + 3);
    assert Weighed(s, p + 3) == s[p + 3] * Pow256(3) + Weighed(s, p + 4);
  }

  /** The four bytes at p are the upper half of a block of eight. */
  lemma Upper(s: seq<byte>, p: nat)
    requires p + 4 <= |s|
    requires Place(p, |s|) == 4 && Place(p + 1, |s|) == 5 && Place(p + 2, |s|) == 6 && Place(p + 3, |s|) == 7
    ensures Weighed(s, p) == 0x1_0000_0000 * Little4(s, p) + Weighed(s, p + 4)
  {
    assert Pow256(3) == 0x100_0000 && Pow256(5) == 0x100_0000_0000 && Pow256(7) == 0x100_0000_0000_0000;
    assert Weighed(s, p) == s[p] * Pow256(4) + Weighed(s, p + 1);
    assert Weighed(s, p + 1) == s[p + 1] * Pow256(5) + Weighed(s, p + 2);
    assert Weighed(s, p + 2) == s[p + 2] * Pow256(6) + Weighed(s, p + 3);
    assert Weighed(s, p + 3) == s[p + 3] * Pow256(7) + Weighed(s, p + 4);
  }

  lemma Eight(s: seq<byte>, p: nat)
    requires p + 8 <= |s| - |s| % 8 && p % 8 == 0
    ensures Weighed(s, p) == Little8(s, p) + Weighed(s, p + 8)
  {
    Four(s, p);
    Upper(s, p + 4);
  }

  /** Where the loop of hash_str can be: between two blocks. */
  predicate Between(p: nat, n: nat) {
    p <= n && (p <= n - n % 8 ==> p % 8 == 0) && (n - n % 8 < p && n % 8 >= 4 ==> p >= n - n % 8 + 4)
  }

  lemma NextBlock(p: nat, n: nat)
    requires Between(p, n) && p < n
    ensures n - p >= 8 ==> p + 8 <= n - n % 8 && p % 8 == 0 && Between(p + 8, n)
    ensures 4 <= n - p < 8 ==> Place(p, n) == 0 && Place(p + 1, n) == 1 && Place(p + 2, n) == 2 && Place(p + 3, n) == 3
    ensures 4 <= n - p < 8 ==> Between(p + 4, n)
    ensures n - p < 4 ==> Place(p, n) == 0 && Between(p + 1, n)
  {
    assert 4 <= n - p < 8 ==> p == n - n % 8;
  }

  /** One accumulating addition in 64 bits. */
  method Add(hash: int, v: int, ghost carry: int) returns (h: int, ghost carry': int)
    ensures 0 <= h < U64 && h + carry' * U64 == hash + v + carry * U64
  {
    h := (hash + v) % U64;
    carry' := carry + (hash + v) / U64;
  }

  /** The loop of hash_str, on a little-endian machine. */
  method SumBlocks(s: seq<byte>) returns (hash: int)
    ensures hash == Weighed(s, 0) % U64
  {
    hash := 0;
    var p := 0;
    ghost var carry := 0;
    while p < |s|
      invariant Between(p, |s|) && 0 <= hash < U64
      invariant hash + carry * U64 + Weighed(s, p) == Weighed(s, 0)
    {
      NextBlock(p, |s|);
      if |s| - p >= 8 {
        Eight(s, p);
        hash, carry := Add(hash, Little8(s, p), carry);
        p := p + 8;
      } else if |s| - p >= 4 {
        Four(s, p);
        hash, carry := Add(hash, Little4(s, p), carry);
        p := p + 4;
      } else {
        assert Pow256(0) == 1;
        hash, carry := Add(hash, s[p], carry);
        p := p + 1;
      }
    }
    ModUnique(Weighed(s, 0), hash, U64, carry);
    ModOfSmall(hash, U64);
  }

  lemma LowHalf(x: nat)
    ensures x % U64 % U32 == x % U32
  {
  }

  method HashStr(s: seq<byte>, bits: nat) returns (h: nat)
    requires 1 <= bits <= 64
    ensures bits <= 32 ==> h == Hash32(Weighed(s, 0) % U32, bits)
    ensures bits > 32 ==> h == (Weighed(s, 0) * 0x9e37fffffffc0001) % U64 / Pow2(64 - bits)
  {
    var hash := SumBlocks(s);
    if bits <= 32 {
      LowHalf(Weighed(s, 0));
      h := Hash32(hash % U32, bits);
    } else {
      h := Hash64(hash, bits);
      ModTimes(Weighed(s, 0), GOLDEN_RATIO_PRIME_64, U64);
    }
  }

  // ---------- the bucket of a key ----------

  /** Bitwise and. */
  function And(x: nat, y: nat): nat
    decreases x
  {
    if x == 0 then 0 else 2 * And(x / 2, y / 2) + (if x % 2 == 1 && y % 2 == 1 then 1 else 0)
  }

  /** Masking with a power of two less one is the remainder. */
  lemma {:induction false} MaskIsRemainder(num: nat, bits: nat)
    ensures And(num, Pow2(bits) - 1) == num % Pow2(bits)
  {
    if bits == 0 {
      NothingMasked(num);
    } else if num != 0 {
      MaskIsRemainder(num / 2, bits - 1);
      HalfRemainder(num, Pow2(bits - 1));
      assert (Pow2(bits) - 1) / 2 == Pow2(bits - 1) - 1;
    } else {
      assert 0 % Pow2(bits) == 0;
    }
  }

  lemma {:induction false} NothingMasked(num: nat)
    ensures And(num, 0) == 0
  {
    if num != 0 { NothingMasked(num / 2); }
  }

  lemma HalfRemainder(num: nat, m: nat)
    requires m > 0
    ensures num % (2 * m) == 2 * (num / 2 % m) + num % 2
  {
    var q, r := num / 2 / m, num / 2 % m;
    assert num / 2 == q * m + r;
    assert num == q * (2 * m) + (2 * r + num % 2);
    ModUnique(num, 2 * r + num % 2, 2 * m, q);
    ModOfSmall(2 * r + num % 2, 2 * m);
  }

  lemma ModOfSmall(x: nat, m: nat)
    requires x < m
    ensures x % m == x
  {
  }

  /** calc_bkt of the 32-bit hash of a key, in a table of 2^bits buckets. */
  function Bucket(key: seq<byte>, bits: nat): (b: nat)
    requires bits < 31
    ensures b < Pow2(bits)
  {
    MaskIsRemainder(Hash32(Weighed(key, 0) % U32, 32), bits);
    And(Hash32(Weighed(key, 0) % U32, 32), Pow2(bits) - 1)
  }

  /** calc_bkt(hash32_str(key, key_size), 1 << bits) */
  method BucketOf(key: seq<byte>, bits: nat) returns (b: nat)
    requires bits < 31
    ensures b == Bucket(key, bits)
  {
    var h := HashStr(key, 32);
    b := And(h, Pow2(bits) - 1);
  }

  lemma {:induction false} Pow2Adds(a: nat, b: nat)
    ensures Pow2(a + b) == Pow2(a) * Pow2(b)
  {
    if a != 0 { Pow2Adds(a - 1, b); }
  }

  /** A remainder modulo a multiple of m keeps the remainder modulo m. */
  lemma ModMultiple(x: nat, m: nat, k: nat)
    requires m > 0 && k > 0 && m * k > 0
    ensures x % (m * k) % m == x % m
  {
    var q := x / (m * k);
    assert x == x % (m * k) + q * (m * k);
    assert q * (m * k) == (q * k) * m;
    ModUnique(x, x % (m * k), m, q * k);
  }

  /**
    calc_bkt takes the low bits, which the multiplication does not mix: up to 65536 buckets, the bucket
    of a key is the plain sum of its blocks modulo the number of buckets.
   */
  lemma BucketIsSum(key: seq<byte>, bits: nat)
    requires bits <= 16
    ensures Bucket(key, bits) == Weighed(key, 0) % Pow2(bits)
  {
    var m, k := Pow2(bits), Pow2(32 - bits);
    var w := Weighed(key, 0);
    var v := w % U32;
    MaskIsRemainder(Hash32(v, 32), bits);
    Pow2Adds(bits, 32 - bits);
    Pow2Of32();
    OneSmall((v * GOLDEN_RATIO_PRIME_32) % U32);
    ModMultiple(v * GOLDEN_RATIO_PRIME_32, m, k);
    PrimeIsOne(v, bits);
    ModMultiple(w, m, k);
  }

  lemma OneSmall(x: nat)
    ensures Shifted(x, 0) == x
  {
  }

  /** The multiplier is 1 modulo 2^16. */
  lemma PrimeIsOne(v: nat, bits: nat)
    requires bits <= 16
    ensures v * GOLDEN_RATIO_PRIME_32 % Pow2(bits) == v % Pow2(bits)
  {
    var m, j := Pow2(bits), Pow2(16 - bits);
    Pow2Adds(bits, 16 - bits);
    Pow2Of32();
    Regroup(v * 0x9e37, m, j);
    ModUnique(v * GOLDEN_RATIO_PRIME_32, v, m, v * 0x9e37 * j);
  }

  lemma Regroup(x: int, m: int, j: int)
    requires m * j == 0x1_0000
    ensures x * 0x1_0000 == x * j * m
  {
  }

  /** From 17 bits on the multiplication shows: the one-byte key 1 tells the bucket from the sum. */
  lemma BucketIsNoSum(bits: nat)
    requires 17 <= bits < 31
    ensures Bucket([1], bits) != Weighed([1], 0) % Pow2(bits)
  {
    PrimeIsNotOne(bits);
    HashOfOne();
    BucketIsRemainder([1], bits);
  }

  lemma HashOfOne()
    ensures Weighed([1], 0) == 1 && Hash32(Weighed([1], 0) % U32, 32) == GOLDEN_RATIO_PRIME_32
  {
    assert Pow256(0) == 1;
    OneSmall(GOLDEN_RATIO_PRIME_32);
  }

  lemma BucketIsRemainder(key: seq<byte>, bits: nat)
    requires bits < 31
    ensures Bucket(key, bits) == Hash32(Weighed(key, 0) % U32, 32) % Pow2(bits)
  {
    MaskIsRemainder(Hash32(Weighed(key, 0) % U32, 32), bits);
  }

  lemma PrimeIsNotOne(bits: nat)
    requires 17 <= bits
    ensures GOLDEN_RATIO_PRIME_32 % Pow2(bits) != 1 % Pow2(bits)
  {
    var m, k := Pow2(17), Pow2(bits - 17);
    Pow2Of32();
    Pow2Adds(17, bits - 17);
    assert m == 0x2_0000;
    ModMultiple(GOLDEN_RATIO_PRIME_32, m, k);
    ModMultiple(1, m, k);
  }

  /** The bucket of every key is its plain sum exactly in tables of up to 65536 buckets. */
  lemma BucketIsSumIff(bits: nat)
    requires bits < 31
    ensures (forall key :: Bucket(key, bits) == Weighed(key, 0) % Pow2(bits)) <==> bits <= 16
  {
    if bits <= 16 {
      forall key ensures Bucket(key, bits) == Weighed(key, 0) % Pow2(bits) {
        BucketIsSum(key, bits);
      }
    } else {
      BucketIsNoSum(bits);
    }
  }
}
