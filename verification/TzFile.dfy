/**
  The TZif parser of timeutil/timeutil.c against an encoder of version 2+ files as sections 3.1 to 3.3
  of RFC 8536 lay them out. Memory is a total function, so that what the parser reads past the size it
  was given has a value too.
 */
module TzFile {
  import opened Common

  type Memory = nat -> byte

  const NEWLINE: byte := 10
  const COMMA: byte := 44
  const TAIL_MAX := 127

  // ---------- numbers ----------

  function Rd16(m: Memory, at: nat): (x: nat)
    ensures x < U16
  {
    m(at) * 256 + m(at + 1)
  }

  /** rd_be32 */
  function Rd32(m: Memory, at: nat): (x: nat)
    ensures x < U32
  {
    Rd16(m, at) * U16 + Rd16(m, at + 2)
  }

  /** rd_be32s */
  function Rd32s(m: Memory, at: nat): int {
    if Rd32(m, at) < 0x8000_0000 then Rd32(m, at) else Rd32(m, at) - U32
  }

  /** rd_be64s: with the sign bit set, what lies above it plus the least 64-bit integer. */
  function Rd64s(m: Memory, at: nat): int {
    var v := Rd32(m, at) * U32 + Rd32(m, at + 4);
    if v >= 0x8000_0000_0000_0000 then (v - 0x8000_0000_0000_0000) + -0x8000_0000_0000_0000 else v
  }

  function Put16(x: nat): (b: Bytes)
    requires x < U16
    ensures |b| == 2
  {
    [x / 256, x % 256]
  }

  function Put32(x: nat): (b: Bytes)
    requires x < U32
    ensures |b| == 4
  {
    Put16(x / U16) + Put16(x % U16)
  }

  function Put32s(x: int): (b: Bytes)
    ensures |b| == 4
  {
    Put32(x % U32)
  }

  function Put64s(x: int): (b: Bytes)
    ensures |b| == 8
  {
    Put32(x % U64 / U32) + Put32(x % U64 % U32)
  }

  /** The memory holds these bytes from `at` on. */
  ghost predicate Holds(m: Memory, at: nat, b: Bytes) { forall i: nat :: i < |b| ==> m(at + i) == b[i] }

  lemma HoldsBoth(m: Memory, at: nat, a: Bytes, b: Bytes)
    ensures Holds(m, at, a + b) <==> Holds(m, at, a) && Holds(m, at + |a|, b)
  {
    if Holds(m, at, a + b) {
      HoldsParted(m, at, a, b);
    } else {
      var i: nat :| i < |a + b| && m(at + i) != (a + b)[i];
      assert i >= |a| ==> (a + b)[i] == b[i - |a|] && m(at + |a| + (i - |a|)) != b[i - |a|];
    }
  }

  lemma HoldsParted(m: Memory, at: nat, a: Bytes, b: Bytes)
    requires Holds(m, at, a + b)
    ensures Holds(m, at, a) && Holds(m, at + |a|, b)
  {
    forall i: nat | i < |a| ensures m(at + i) == a[i] {
      assert m(at + i) == (a + b)[i];
    }
    forall i: nat | i < |b| ensures m(at + |a| + i) == b[i] {
      var j := |a| + i;
      assert m(at + j) == (a + b)[j];
    }
  }

  lemma Rd16Put16(m: Memory, at: nat, x: nat)
    requires x < U16 && Holds(m, at, Put16(x))
    ensures Rd16(m, at) == x
  {
    assert m(at + 0) == Put16(x)[0] && m(at + 1) == Put16(x)[1];
  }

  lemma Rd32Put32(m: Memory, at: nat, x: nat)
    requires x < U32 && Holds(m, at, Put32(x))
    ensures Rd32(m, at) == x
  {
    HoldsBoth(m, at, Put16(x / U16), Put16(x % U16));
    Rd16Put16(m, at, x / U16);
    Rd16Put16(m, at + 2, x % U16);
  }

  /** Every 32-bit integer reads back. */
  lemma Rd32sPut32s(m: Memory, at: nat, x: int)
    requires -0x8000_0000 <= x < 0x8000_0000 && Holds(m, at, Put32s(x))
    ensures Rd32s(m, at) == x
  {
    Rd32Put32(m, at, x % U32);
  }

  lemma SignedWord(x: int)
    requires -0x8000_0000_0000_0000 <= x < 0x8000_0000_0000_0000
    ensures var u := x % U64; u / U32 * U32 + u % U32 == u && x == if u >= 0x8000_0000_0000_0000 then u - U64 else u
  {
  }

  /** Every 64-bit integer reads back. */
  lemma Rd64sPut64s(m: Memory, at: nat, x: int)
    requires -0x8000_0000_0000_0000 <= x < 0x8000_0000_0000_0000 && Holds(m, at, Put64s(x))
    ensures Rd64s(m, at) == x
  {
    var u := x % U64;
    HoldsBoth(m, at, Put32(u / U32), Put32(u % U32));
    Rd32Put32(m, at, u / U32);
    Rd32Put32(m, at + 4, u % U32);
    SignedWord(x);
  }

  // ---------- headers ----------

  datatype Counts = Counts(isut: nat, isstd: nat, leaps: nat, times: nat, kinds: nat, chars: nat)

  function ReadCounts(m: Memory, at: nat): Counts {
    Counts(Rd32(m, at + 20), Rd32(m, at + 24), Rd32(m, at + 28), Rd32(m, at + 32), Rd32(m, at + 36), Rd32(m, at + 40))
  }

  predicate Magic(m: Memory, at: nat) { m(at) == 84 && m(at + 1) == 90 && m(at + 2) == 105 && m(at + 3) == 102 }

  /** The bytes of a data block with 4-byte and with 8-byte times. */
  function Size32(c: Counts): nat { c.times * 4 + c.times + c.kinds * 6 + c.chars + c.leaps * 8 + c.isstd + c.isut }

  function Size64(c: Counts): nat { c.times * 8 + c.times + c.kinds * 6 + c.chars + c.leaps * 12 + c.isstd + c.isut }

  const HDR := 44

  /** Where the second header begins; the size of the first block is computed in 32 bits. */
  function Second(m: Memory): nat { HDR + Wrapped(Size32(ReadCounts(m, 0))) }

  // ---------- transitions ----------

  /** The year-day gmtime_r gives, if it gives one. */
  type YearDay = int -> Option<int>

  /**
    A transition with everything the parser looks up for it: its time,
    its UTC offset and whether it is daylight time.
   */
  datatype Change = Change(at: int, offset: int, dst: bool)

  /** Where the type indices of a block at d stand; the product is computed in 32 bits. */
  function TypesAt(d: nat, c: Counts): nat { d + Wrapped(c.times * 8) }

  /** Transition i of the block whose data begins at d, None when its type index is out of range. */
  function ReadChange(m: Memory, d: nat, c: Counts, i: nat): Option<Change> {
    var types := TypesAt(d, c);
    var info := types + c.times;
    var idx := m(types + i);
    if idx >= c.kinds then None
    else Some(Change(Rd64s(m, d + i * 8), Rd32s(m, info + idx * 6), m(info + idx * 6 + 4) != 0))
  }

  function ReadChanges(m: Memory, d: nat, c: Counts): (cs: seq<Option<Change>>)
    ensures |cs| == c.times && forall i: nat :: i < c.times ==> cs[i] == ReadChange(m, d, c, i)
  {
    seq(c.times, i requires 0 <= i < c.times => ReadChange(m, d, c, i))
  }

  predicate Usable(c: Option<Change>, dst: bool, yday: YearDay) {
    c.Some? && c.value.dst == dst && yday(c.value.at).Some?
  }

  /** The last of the first n changes that is, or is not, daylight time and has a year-day. */
  function Last(cs: seq<Option<Change>>, n: nat, dst: bool, yday: YearDay): (r: Option<Change>)
    requires n <= |cs|
    ensures r.Some? ==> Usable(r, dst, yday)
  {
    if n == 0 then None else if Usable(cs[n - 1], dst, yday) then cs[n - 1] else Last(cs, n - 1, dst, yday)
  }

  /** Nothing usable stands behind the last. */
  lemma {:induction false} LastIsLast(cs: seq<Option<Change>>, n: nat, dst: bool, yday: YearDay)
    requires n <= |cs|
    ensures Last(cs, n, dst, yday).None? ==> forall i: nat :: i < n ==> !Usable(cs[i], dst, yday)
    ensures Last(cs, n, dst, yday).Some? ==>
              exists k: nat :: k < n && cs[k] == Last(cs, n, dst, yday)
                && forall i: nat :: k < i < n ==> !Usable(cs[i], dst, yday)
  {
    if n > 0 && !Usable(cs[n - 1], dst, yday) { LastIsLast(cs, n - 1, dst, yday); }
  }

  datatype Tz = Tz(standard: int, daylight: int, summer: int, winter: int, hasDst: bool, tail: Bytes)

  function DayOf(c: Option<Change>, yday: YearDay): int {
    if c.Some? && yday(c.value.at).Some? then yday(c.value.at).value else -1
  }

  function OffsetOf(c: Option<Change>): int { if c.Some? then c.value.offset else 0 }

  /** What the last standard and the last daylight transition make of the zone, before the footer. */
  function Summary(std: Option<Change>, dst: Option<Change>, yday: YearDay): Tz {
    Tz(OffsetOf(std), if dst.Some? then OffsetOf(dst) else OffsetOf(std),
       DayOf(dst, yday), if dst.Some? then DayOf(std, yday) else -1, dst.Some?, [])
  }

  function Zone(cs: seq<Option<Change>>, yday: YearDay): Tz {
    Summary(Last(cs, |cs|, false, yday), Last(cs, |cs|, true, yday), yday)
  }

  // ---------- the footer ----------

  /** memchr: the distance to the first x among n bytes, n when there is none. */
  function Find(m: Memory, at: nat, n: nat, x: byte): (k: nat)
    ensures k <= n && (k < n ==> m(at + k) == x) && forall p: nat :: at <= p < at + k ==> m(p) != x
    decreases n
  {
    if n == 0 || m(at) == x then 0
    else Find(m, at + 1, n - 1, x) + 1
  }

  function Text(m: Memory, at: nat, n: nat): (t: Bytes)
    ensures |t| == n && forall i: nat :: i < n ==> t[i] == m(at + i)
  {
    seq(n, i requires 0 <= i < n => m(at + i))
  }

  /** strchr: x stands in the text before any NUL. */
  predicate HasBeforeNul(t: Bytes, x: byte) {
    exists i: nat :: i < |t| && t[i] == x && forall j: nat :: j < i ==> t[j] != 0
  }

  function Cut(n: nat): (c: nat)
    ensures c <= n
  {
    if n > TAIL_MAX then TAIL_MAX else n
  }

  /** The footer at `at` cut to what the structure holds, None when no newline opens one. */
  function ReadFooter(m: Memory, at: nat, sz: nat): Option<Bytes> {
    if at < sz && m(at) == NEWLINE then
      Some(Text(m, at + 1, Cut(Find(m, at + 1, sz - (at + 1), NEWLINE))))
    else None
  }

  function WithFooter(tz: Tz, footer: Option<Bytes>): Tz {
    match footer
    case None => tz
    case Some(t) => tz.(hasDst := HasBeforeNul(t, COMMA), tail := t)
  }

  // ---------- the parser ----------

  /** The loop over the transitions. */
  method Scan(m: Memory, d: nat, h: Counts, yday: YearDay) returns (tz: Tz)
    ensures tz == Zone(ReadChanges(m, d, h), yday)
  {
    var lastSum, lastWin, offSum, offWin, sawDst := -1, -1, 0, 0, false;
    ghost var cs := ReadChanges(m, d, h);
    var i := 0;
    while i < h.times
      invariant i <= h.times
      invariant sawDst == Last(cs, i, true, yday).Some?
      invariant lastSum == DayOf(Last(cs, i, true, yday), yday) && offSum == OffsetOf(Last(cs, i, true, yday))
      invariant lastWin == DayOf(Last(cs, i, false, yday), yday) && offWin == OffsetOf(Last(cs, i, false, yday))
    {
      var c := ReadChange(m, d, h, i);
      if c.Some? && yday(c.value.at).Some? {
        if c.value.dst {
          sawDst, lastSum, offSum := true, yday(c.value.at).value, c.value.offset;
        } else {
          lastWin, offWin := yday(c.value.at).value, c.value.offset;
        }
      }
      i := i + 1;
    }
    tz := Tz(offWin, if sawDst then offSum else offWin,
             if sawDst then lastSum else -1, if sawDst then lastWin else -1, sawDst, []);
  }

  /** The checks on the second header, then the data. */
  method ParseBlock(m: Memory, d: nat, h: Counts, sz: nat, yday: YearDay) returns (r: Option<Tz>)
    ensures r == Block(m, d, h, sz, yday)
  {
    if h.times == 0 || h.kinds == 0 { return None; }
    var blk := Wrapped(Size64(h));
    if d + blk > sz { return None; }
    var tz := Scan(m, d, h, yday);
    r := Some(WithFooter(tz, ReadFooter(m, d + blk, sz)));
  }

  /** The second header. */
  method ParseSecond(m: Memory, p: nat, sz: nat, yday: YearDay) returns (r: Option<Tz>)
    ensures r == FromSecond(m, p, sz, yday)
  {
    if p > sz || !Magic(m, p) { return None; }
    var h := ReadCounts(m, p);
    r := ParseBlock(m, p + HDR, h, sz, yday);
  }

  /** parse_tzdata; None is its -1. */
  method ParseTzdata(m: Memory, sz: nat, yday: YearDay) returns (r: Option<Tz>)
    ensures r == Parsed(m, sz, yday)
  {
    if sz < HDR || !Magic(m, 0) { return None; }
    var h := ReadCounts(m, 0);
    if h.times == 0 || h.kinds == 0 { return None; }
    r := ParseSecond(m, HDR + Wrapped(Size32(h)), sz, yday);
  }

  /**
    The zone of the last transition of each kind in the block at d, overruled by the footer; None when the block
    has no data or does not fit.
   */
  function Block(m: Memory, d: nat, h: Counts, sz: nat, yday: YearDay): Option<Tz> {
    var end := d + Wrapped(Size64(h));
    if h.times == 0 || h.kinds == 0 || end > sz then None
    else Some(WithFooter(Zone(ReadChanges(m, d, h), yday), ReadFooter(m, end, sz)))
  }

  /** The size and the first header. */
  predicate Opens(m: Memory, sz: nat) {
    sz >= HDR && Magic(m, 0) && ReadCounts(m, 0).times != 0 && ReadCounts(m, 0).kinds != 0
  }

  /** What parse_tzdata returns. */
  function Parsed(m: Memory, sz: nat, yday: YearDay): Option<Tz> {
    if Opens(m, sz) then FromSecond(m, Second(m), sz, yday) else None
  }

  function FromSecond(m: Memory, s: nat, sz: nat, yday: YearDay): Option<Tz> {
    if s <= sz && Magic(m, s) then Block(m, s + HDR, ReadCounts(m, s), sz, yday) else None
  }

  // ---------- what lies past the size ----------

  ghost predicate SameBelow(a: Memory, b: Memory, sz: nat) { forall p: nat :: p < sz ==> a(p) == b(p) }

  /** The last flag byte that an index of one byte can lead to. */
  function LastFlag(d: nat, h: Counts): nat
    requires h.kinds > 0
  {
    TypesAt(d, h) + h.times + (if h.kinds < 256 then h.kinds - 1 else 255) * 6 + 4
  }

  /** The block is refused, or the times and the types that the loop may read end below the size. */
  predicate ReadsBelow(d: nat, h: Counts, sz: nat) {
    h.times == 0 || h.kinds == 0 || d + Wrapped(Size64(h)) > sz || (d + h.times * 8 <= sz && LastFlag(d, h) < sz)
  }

  /** A size that does not wrap is enough. */
  lemma NoWrapReadsBelow(d: nat, h: Counts, sz: nat)
    requires Size64(h) < U32
    ensures ReadsBelow(d, h, sz)
  {
  }

  /** No bytes past the size can change what the block gives, whatever stands below it. */
  ghost predicate Unaffected(d: nat, h: Counts, sz: nat) {
    forall a: Memory, b: Memory, yday: YearDay ::
      SameBelow(a, b, sz) ==> Block(a, d, h, sz, yday) == Block(b, d, h, sz, yday)
  }

  /** Bytes past the size are without influence if and only if the loop reads none of them. */
  lemma UnaffectedIff(d: nat, h: Counts, sz: nat)
    ensures Unaffected(d, h, sz) <==> ReadsBelow(d, h, sz)
  {
    if ReadsBelow(d, h, sz) {
      forall a: Memory, b: Memory, yday: YearDay | SameBelow(a, b, sz)
        ensures Block(a, d, h, sz, yday) == Block(b, d, h, sz, yday)
      {
        SameBlock(a, b, d, h, sz, yday);
      }
    } else if LastFlag(d, h) >= sz {
      FlagDecides(d, h, sz);
    } else {
      TimeDecides(d, h, sz);
    }
  }

  /** A memory whose type indices are all idx, with value v at p and ones elsewhere. */
  function Filled(d: nat, h: Counts, idx: byte, p: nat, v: byte): Memory {
    (q: nat) => if TypesAt(d, h) <= q < TypesAt(d, h) + h.times then idx else if q == p then v else 1
  }

  lemma FilledAlike(d: nat, h: Counts, sz: nat, idx: byte, p: nat)
    requires sz <= p
    ensures SameBelow(Filled(d, h, idx, p, 1), Filled(d, h, idx, p, 0), sz)
  {
  }

  /** The flag of the last type lies past the size: it decides whether there is daylight time. */
  lemma FlagDecides(d: nat, h: Counts, sz: nat)
    requires Taken(d, h, sz) && sz <= LastFlag(d, h)
    ensures !Unaffected(d, h, sz)
  {
    var idx: byte := if h.kinds < 256 then h.kinds - 1 else 255;
    var p := LastFlag(d, h);
    var a, b := Filled(d, h, idx, p, 1), Filled(d, h, idx, p, 0);
    var yday: YearDay := _ => Some(0);
    FilledAlike(d, h, sz, idx, p);
    FilledFlags(a, d, h, idx, 1);
    FilledFlags(b, d, h, idx, 0);
    var last := ReadChange(a, d, h, h.times - 1);
    DayOfLast(a, d, h, yday, last.value);
    NoDaylight(b, d, h, yday);
    SummersDiffer(a, b, d, h, sz, yday);
  }

  /** Every change takes its flag from the one byte. */
  lemma FilledFlags(m: Memory, d: nat, h: Counts, idx: byte, v: byte)
    requires h.kinds > 0 && idx == (if h.kinds < 256 then h.kinds - 1 else 255)
    requires m == Filled(d, h, idx, LastFlag(d, h), v)
    ensures forall i: nat :: i < h.times ==>
              ReadChange(m, d, h, i).Some? && (ReadChange(m, d, h, i).value.dst <==> v != 0)
  {
    forall i: nat | i < h.times
      ensures ReadChange(m, d, h, i).Some? && (ReadChange(m, d, h, i).value.dst <==> v != 0)
    {
      FlagRead(m, d, h, idx, i);
    }
  }

  lemma FlagRead(m: Memory, d: nat, h: Counts, idx: byte, i: nat)
    requires i < h.times && idx < h.kinds && m(TypesAt(d, h) + i) == idx
    ensures ReadChange(m, d, h, i).Some?
    ensures ReadChange(m, d, h, i).value.dst <==> m(TypesAt(d, h) + h.times + idx * 6 + 4) != 0
    ensures ReadChange(m, d, h, i).value.at == Rd64s(m, d + i * 8)
  {
  }

  /** The loop reads the block. */
  predicate Taken(d: nat, h: Counts, sz: nat) { h.times > 0 && h.kinds > 0 && d + Wrapped(Size64(h)) <= sz }

  /** The summer day of a block that is taken. */
  function SummerOf(m: Memory, d: nat, h: Counts, yday: YearDay): int { Zone(ReadChanges(m, d, h), yday).summer }

  lemma SummersDiffer(a: Memory, b: Memory, d: nat, h: Counts, sz: nat, yday: YearDay)
    requires SameBelow(a, b, sz) && Taken(d, h, sz) && SummerOf(a, d, h, yday) != SummerOf(b, d, h, yday)
    ensures !Unaffected(d, h, sz)
  {
    BlockSummer(a, d, h, sz, yday);
    BlockSummer(b, d, h, sz, yday);
    assert Block(a, d, h, sz, yday) != Block(b, d, h, sz, yday);
  }

  lemma BlockSummer(m: Memory, d: nat, h: Counts, sz: nat, yday: YearDay)
    requires Taken(d, h, sz)
    ensures Block(m, d, h, sz, yday).Some? && Block(m, d, h, sz, yday).value.summer == SummerOf(m, d, h, yday)
  {
    var cs, footer := ReadChanges(m, d, h), ReadFooter(m, d + Wrapped(Size64(h)), sz);
    BlockIs(m, d, h, sz, yday, cs, footer);
    FooterKeepsSummer(Zone(cs, yday), footer);
  }

  lemma FooterKeepsSummer(tz: Tz, footer: Option<Bytes>)
    ensures WithFooter(tz, footer).summer == tz.summer
  {
  }

  lemma DayOfLast(m: Memory, d: nat, h: Counts, yday: YearDay, c: Change)
    requires h.times > 0 && ReadChange(m, d, h, h.times - 1) == Some(c) && c.dst && yday(c.at).Some?
    ensures SummerOf(m, d, h, yday) == yday(c.at).value
  {
    var cs := ReadChanges(m, d, h);
    assert Usable(cs[h.times - 1], true, yday);
  }

  lemma NoDaylight(m: Memory, d: nat, h: Counts, yday: YearDay)
    requires forall i: nat :: i < h.times ==> ReadChange(m, d, h, i).Some? && !ReadChange(m, d, h, i).value.dst
    ensures SummerOf(m, d, h, yday) == -1
  {
    var cs := ReadChanges(m, d, h);
    LastIsLast(cs, |cs|, true, yday);
    assert forall i: nat :: i < |cs| ==> cs[i] == ReadChange(m, d, h, i);
  }

  /** The last time lies past the size, behind all types: it decides the year-day. */
  lemma TimeDecides(d: nat, h: Counts, sz: nat)
    requires Taken(d, h, sz) && LastFlag(d, h) < sz < d + h.times * 8
    ensures !Unaffected(d, h, sz)
  {
    var p, at := d + h.times * 8 - 1, d + (h.times - 1) * 8;
    var a, b := Filled(d, h, 0, p, 1), Filled(d, h, 0, p, 0);
    FilledAlike(d, h, sz, 0, p);
    LastRead(a, d, h, p, 1);
    LastRead(b, d, h, p, 0);
    FilledTimes(a, b, d, h, at);
    var ca, cb := ReadChange(a, d, h, h.times - 1).value, ReadChange(b, d, h, h.times - 1).value;
    DaysDiffer(a, b, d, h, sz, ca, cb);
  }

  lemma FilledTimes(a: Memory, b: Memory, d: nat, h: Counts, at: nat)
    requires h.kinds > 0 && LastFlag(d, h) < at + 7
    requires a == Filled(d, h, 0, at + 7, 1) && b == Filled(d, h, 0, at + 7, 0)
    ensures Rd64s(a, at) != Rd64s(b, at)
  {
    LastTimeDiffers(a, b, at);
  }

  /** Where the last change is daylight time in both, a year-day can tell its two times apart. */
  lemma DaysDiffer(a: Memory, b: Memory, d: nat, h: Counts, sz: nat, ca: Change, cb: Change)
    requires SameBelow(a, b, sz) && Taken(d, h, sz) && ca.dst && cb.dst && ca.at != cb.at
    requires ReadChange(a, d, h, h.times - 1) == Some(ca) && ReadChange(b, d, h, h.times - 1) == Some(cb)
    ensures !Unaffected(d, h, sz)
  {
    var t := ca.at;
    var yday: YearDay := x => if x == t then Some(1) else Some(2);
    DayOfLast(a, d, h, yday, ca);
    DayOfLast(b, d, h, yday, cb);
    SummersDiffer(a, b, d, h, sz, yday);
  }

  lemma LastRead(m: Memory, d: nat, h: Counts, p: nat, v: byte)
    requires h.times > 0 && h.kinds > 0 && m == Filled(d, h, 0, p, v) && p > LastFlag(d, h)
    ensures var c := ReadChange(m, d, h, h.times - 1);
      c.Some? && c.value.dst && c.value.at == Rd64s(m, d + (h.times - 1) * 8)
  {
    FlagRead(m, d, h, 0, h.times - 1);
  }

  lemma LastTimeDiffers(a: Memory, b: Memory, at: nat)
    requires a(at + 7) != b(at + 7) && forall q: nat :: at <= q < at + 7 ==> a(q) == b(q)
    ensures Rd64s(a, at) != Rd64s(b, at)
  {
  }

  /** While the loop reads nothing past the size, no byte there has any influence on the whole result. */
  lemma BeyondIrrelevant(a: Memory, b: Memory, sz: nat, yday: YearDay)
    requires SameBelow(a, b, sz)
    requires sz >= HDR && Second(a) + HDR <= sz ==> ReadsBelow(Second(a) + HDR, ReadCounts(a, Second(a)), sz)
    ensures Parsed(a, sz, yday) == Parsed(b, sz, yday)
  {
    if sz >= HDR {
      SameHeader(a, b, 0, sz);
      var s := Second(a);
      assert s == Second(b);
      SameSecond(a, b, s, ReadCounts(a, s), sz, yday);
      assert Opens(a, sz) == Opens(b, sz);
    }
  }

  lemma SameSecond(a: Memory, b: Memory, s: nat, h: Counts, sz: nat, yday: YearDay)
    requires SameBelow(a, b, sz) && h == ReadCounts(a, s) && (s + HDR <= sz ==> ReadsBelow(s + HDR, h, sz))
    ensures FromSecond(a, s, sz, yday) == FromSecond(b, s, sz, yday)
  {
    if s + HDR <= sz {
      SameHeader(a, b, s, sz);
      SameBlock(a, b, s + HDR, h, sz, yday);
    } else {
      NoSecond(a, s, sz, yday);
      NoSecond(b, s, sz, yday);
    }
  }

  lemma NoSecond(m: Memory, s: nat, sz: nat, yday: YearDay)
    requires s + HDR > sz
    ensures FromSecond(m, s, sz, yday) == None
  {
  }

  lemma SameHeader(a: Memory, b: Memory, at: nat, sz: nat)
    requires SameBelow(a, b, sz) && at + HDR <= sz
    ensures ReadCounts(a, at) == ReadCounts(b, at) && Magic(a, at) == Magic(b, at)
  {
  }

  lemma SameBlock(a: Memory, b: Memory, d: nat, h: Counts, sz: nat, yday: YearDay)
    requires SameBelow(a, b, sz) && ReadsBelow(d, h, sz)
    ensures Block(a, d, h, sz, yday) == Block(b, d, h, sz, yday)
  {
    var end := d + Wrapped(Size64(h));
    if h.times > 0 && h.kinds > 0 && end <= sz {
      SameChanges(a, b, d, h, sz);
      SameFooter(a, b, end, sz);
      BlockIs(a, d, h, sz, yday, ReadChanges(a, d, h), ReadFooter(a, end, sz));
      BlockIs(b, d, h, sz, yday, ReadChanges(a, d, h), ReadFooter(a, end, sz));
    }
  }

  lemma BlockIs(m: Memory, d: nat, h: Counts, sz: nat, yday: YearDay, cs: seq<Option<Change>>, footer: Option<Bytes>)
    requires h.times > 0 && h.kinds > 0 && d + Wrapped(Size64(h)) <= sz
    requires cs == ReadChanges(m, d, h) && footer == ReadFooter(m, d + Wrapped(Size64(h)), sz)
    ensures Block(m, d, h, sz, yday) == Some(WithFooter(Zone(cs, yday), footer))
  {
  }

  lemma SameChanges(a: Memory, b: Memory, d: nat, h: Counts, sz: nat)
    requires SameBelow(a, b, sz) && h.kinds > 0 && d + h.times * 8 <= sz && LastFlag(d, h) < sz
    ensures ReadChanges(a, d, h) == ReadChanges(b, d, h)
  {
    var ca, cb := ReadChanges(a, d, h), ReadChanges(b, d, h);
    forall i: nat | i < h.times ensures ca[i] == cb[i] {
      SameChange(a, b, d, h, sz, i);
    }
  }

  lemma SameChange(a: Memory, b: Memory, d: nat, h: Counts, sz: nat, i: nat)
    requires SameBelow(a, b, sz) && h.kinds > 0 && d + h.times * 8 <= sz && LastFlag(d, h) < sz && i < h.times
    ensures ReadChange(a, d, h, i) == ReadChange(b, d, h, i)
  {
    var idx := a(TypesAt(d, h) + i);
    assert idx == b(TypesAt(d, h) + i);
  }

  lemma SameFooter(a: Memory, b: Memory, at: nat, sz: nat)
    requires SameBelow(a, b, sz)
    ensures ReadFooter(a, at, sz) == ReadFooter(b, at, sz)
  {
    if at < sz {
      SameFind(a, b, at + 1, sz - (at + 1), NEWLINE);
      SameText(a, b, at + 1, Cut(Find(a, at + 1, sz - (at + 1), NEWLINE)), sz);
    }
  }

  lemma SameText(a: Memory, b: Memory, at: nat, n: nat, sz: nat)
    requires SameBelow(a, b, sz) && at + n <= sz
    ensures Text(a, at, n) == Text(b, at, n)
  {
  }

  lemma {:induction false} SameFind(a: Memory, b: Memory, at: nat, n: nat, x: byte)
    requires SameBelow(a, b, at + n)
    ensures Find(a, at, n, x) == Find(b, at, n, x)
    decreases n
  {
    if n > 0 { SameFind(a, b, at + 1, n - 1, x); }
  }

  /** 107 bytes whose second header announces 0x1c71c71c transitions, so that the size it adds up to wraps to 8. */
  function Wrapping(beyond: byte): Memory {
    (p: nat) =>
      if p == 0 || p == 55 then 84 else if p == 1 || p == 56 then 90
      else if p == 2 || p == 57 then 105 else if p == 3 || p == 58 then 102
      else if p == 35 || p == 39 then 1
      else if p == 87 || p == 90 then 0x1c else if p == 88 then 0x71 else if p == 89 then 0xc7
      else if p == 94 then 2
      else if p >= 107 then beyond else 0
  }

  const WrappingCounts := Counts(0, 0, 0, 0x1c71c71c, 2, 0)

  lemma WrappingFirst(m: Memory, beyond: byte)
    requires m == Wrapping(beyond)
    ensures Magic(m, 0) && ReadCounts(m, 0) == Counts(0, 0, 0, 1, 1, 0) && Magic(m, 55)
  {
  }

  lemma WrappingSecond(m: Memory, beyond: byte)
    requires m == Wrapping(beyond)
    ensures ReadCounts(m, 55) == WrappingCounts
  {
  }

  lemma WrappingSize()
    ensures Wrapped(Size64(WrappingCounts)) == 8
  {
  }

  /** A block that ends the file has no footer behind it. */
  lemma BlockAtEnd(m: Memory, d: nat, h: Counts, sz: nat, yday: YearDay)
    requires h.times > 0 && h.kinds > 0 && sz == d + Wrapped(Size64(h))
    ensures Block(m, d, h, sz, yday) == Some(Zone(ReadChanges(m, d, h), yday))
  {
  }

  lemma WrappingParsed(m: Memory, beyond: byte, yday: YearDay)
    requires m == Wrapping(beyond)
    ensures Parsed(m, 107, yday) == Some(Zone(ReadChanges(m, 99, WrappingCounts), yday))
  {
    WrappingFirst(m, beyond);
    WrappingSecond(m, beyond);
    WrappingSize();
    BlockAtEnd(m, 99, WrappingCounts, 107, yday);
    ParsedIsBlock(m, 107, 55, Counts(0, 0, 0, 1, 1, 0), WrappingCounts, yday);
  }

  lemma WrappingAlike()
    ensures SameBelow(Wrapping(0), Wrapping(1), 107)
  {
  }

  /** The hypothesis is needed: when the size wraps, bytes past the size can decide whether there is daylight time. */
  lemma BeyondCanMatter(yday: YearDay, a: Memory, b: Memory)
    requires (forall t :: yday(t).Some?) && a == Wrapping(0) && b == Wrapping(1)
    ensures SameBelow(a, b, 107)
    ensures Parsed(a, 107, yday).Some? && !Parsed(a, 107, yday).value.hasDst
    ensures Parsed(b, 107, yday).Some? && Parsed(b, 107, yday).value.hasDst
  {
    WrappingAlike();
    WrappingParsed(a, 0, yday);
    WrappingParsed(b, 1, yday);
    WrappingStandard(ReadChanges(a, 99, WrappingCounts), WrappingCounts, yday);
    WrappingDaylight(ReadChanges(b, 99, WrappingCounts), WrappingCounts, yday);
  }

  lemma WrappingStandard(cs: seq<Option<Change>>, h: Counts, yday: YearDay)
    requires h == WrappingCounts && cs == ReadChanges(Wrapping(0), 99, h)
    ensures Last(cs, |cs|, true, yday).None?
  {
    LastIsLast(cs, |cs|, true, yday);
    forall i: nat | i < |cs| ensures !Usable(cs[i], true, yday) {
      assert cs[i] == ReadChange(Wrapping(0), 99, h, i);
    }
  }

  lemma WrappingDaylight(cs: seq<Option<Change>>, h: Counts, yday: YearDay)
    requires h == WrappingCounts && cs == ReadChanges(Wrapping(1), 99, h) && forall t :: yday(t).Some?
    ensures Last(cs, |cs|, true, yday).Some?
  {
    var last := |cs| - 1;
    assert cs[last] == ReadChange(Wrapping(1), 99, h, last);
    assert Usable(cs[last], true, yday);
  }

  /** The magic is not there, or a count that must not be zero is. */
  predicate BadHeader(m: Memory, at: nat) {
    (m(at), m(at + 1), m(at + 2), m(at + 3)) != (84, 90, 105, 102) || Rd32(m, at + 32) == 0 || Rd32(m, at + 36) == 0
  }

  /** The size of the block that the header at `at` announces, with 4-byte and with 8-byte times. */
  function Announced32(m: Memory, at: nat): nat {
    Rd32(m, at + 32) * 5 + Rd32(m, at + 36) * 6 + Rd32(m, at + 40) + Rd32(m, at + 28) * 8
    + Rd32(m, at + 24) + Rd32(m, at + 20)
  }

  function Announced64(m: Memory, at: nat): nat {
    Rd32(m, at + 32) * 9 + Rd32(m, at + 36) * 6 + Rd32(m, at + 40) + Rd32(m, at + 28) * 12
    + Rd32(m, at + 24) + Rd32(m, at + 20)
  }

  /** What parse_tzdata refuses. */
  predicate Unfit(m: Memory, sz: nat) {
    var s := 44 + Announced32(m, 0) % U32;
    sz < 44 || BadHeader(m, 0) || s > sz || BadHeader(m, s) || s + 44 + Announced64(m, s) % U32 > sz
  }

  /** parse_tzdata refuses exactly these inputs. */
  lemma RefusedIff(m: Memory, sz: nat, yday: YearDay)
    ensures Parsed(m, sz, yday).None? <==> Unfit(m, sz)
  {
    var s := Second(m);
    RefusedHeaders(m, sz, yday, s, ReadCounts(m, 0), ReadCounts(m, s));
    Sizes(m, 0);
    UnfitIs(m, sz, s, ReadCounts(m, 0), ReadCounts(m, s));
  }

  predicate Refuses(m: Memory, sz: nat, s: nat, h1: Counts, h2: Counts) {
    sz < 44 || !Magic(m, 0) || h1.times == 0 || h1.kinds == 0 || s > sz || !Magic(m, s)
    || h2.times == 0 || h2.kinds == 0 || s + 44 + Wrapped(Size64(h2)) > sz
  }

  lemma RefusedHeaders(m: Memory, sz: nat, yday: YearDay, s: nat, h1: Counts, h2: Counts)
    requires s == Second(m) && h1 == ReadCounts(m, 0) && h2 == ReadCounts(m, s)
    ensures Parsed(m, sz, yday).None? <==> Refuses(m, sz, s, h1, h2)
  {
  }

  lemma UnfitIs(m: Memory, sz: nat, s: nat, h1: Counts, h2: Counts)
    requires s == 44 + Announced32(m, 0) % U32 && h1 == ReadCounts(m, 0) && h2 == ReadCounts(m, s)
    ensures Unfit(m, sz) <==> Refuses(m, sz, s, h1, h2)
  {
    Sizes(m, s);
    BadHeaderIs(m, 0);
    BadHeaderIs(m, s);
  }

  lemma BadHeaderIs(m: Memory, at: nat)
    ensures BadHeader(m, at) <==> !Magic(m, at) || ReadCounts(m, at).times == 0 || ReadCounts(m, at).kinds == 0
  {
  }

  lemma Sizes(m: Memory, at: nat)
    ensures Size32(ReadCounts(m, at)) == Announced32(m, at) && Size64(ReadCounts(m, at)) == Announced64(m, at)
  {
  }

  // ---------- an encoder ----------

  datatype Transition = Transition(at: int, kind: byte)

  datatype LocalType = LocalType(offset: int, dst: bool, designation: byte)

  /** The footer a file can end with: none, a text closed by a newline, or one that runs to the end. */
  datatype Footer = Absent | Closed(text: Bytes) | Open(text: Bytes)

  datatype Leap = Leap(at: word, total: word)

  /** The first block, of 4-byte times; the parser skips it, so only the lengths of its parts matter. */
  datatype FirstBlock = FirstBlock(times: seq<word>, indices: Bytes, types: seq<LocalType>, names: Bytes,
                                   leaps: seq<Leap>, isstd: Bytes, isut: Bytes)

  function CountsOf(b: FirstBlock): Counts {
    Counts(|b.isut|, |b.isstd|, |b.leaps|, |b.times|, |b.types|, |b.names|)
  }

  /**
    A version 2+ file. Of the second block's designations, leap seconds and indicators only the lengths matter,
    so these are any bytes.
   */
  datatype File = File(version: byte, first: FirstBlock, second: Counts,
                       transitions: seq<Transition>, types: seq<LocalType>, rest: Bytes, footer: Footer)

  predicate Fits(c: Counts) {
    c.isut < U32 && c.isstd < U32 && c.leaps < U32 && c.times < U32 && c.kinds < U32 && c.chars < U32
  }

  predicate WellFormed(f: File) {
    && |Body(f.first)| < U32 && |f.first.indices| == |f.first.times| > 0 && |f.first.types| > 0
    && Fits(f.second) && Size64(f.second) < U32
    && f.second.times == |f.transitions| > 0 && f.second.kinds == |f.types| > 0
    && |f.rest| == f.second.chars + f.second.leaps * 12 + f.second.isstd + f.second.isut
    && (forall i: nat :: i < |f.transitions| ==> -0x8000_0000_0000_0000 <= f.transitions[i].at < 0x8000_0000_0000_0000)
    && (forall i: nat :: i < |f.types| ==> -0x8000_0000 <= f.types[i].offset < 0x8000_0000)
    && (f.footer.Absent? || NEWLINE !in f.footer.text)
  }

  /** The first block's parts in their order. */
  function Body(b: FirstBlock): Bytes {
    Words(b.times) + (b.indices + (Types(b.types) + (b.names + (Leaps(b.leaps) + (b.isstd + b.isut)))))
  }

  function Leaps(ls: seq<Leap>): (b: Bytes)
    ensures |b| == 8 * |ls|
  {
    if |ls| == 0 then [] else Put32(ls[0].at) + Put32(ls[0].total) + Leaps(ls[1..])
  }

  function Zeros(n: nat): (b: Bytes)
    ensures |b| == n
  {
    seq(n, _ => 0)
  }

  type word = x: int | 0 <= x < 0x1_0000_0000

  function Words(ws: seq<word>): (b: Bytes)
    ensures |b| == 4 * |ws|
  {
    if |ws| == 0 then [] else Put32(ws[0]) + Words(ws[1..])
  }

  function Header(version: byte, c: Counts): (b: Bytes)
    requires Fits(c)
    ensures |b| == HDR
  {
    [84, 90, 105, 102, version] + Zeros(15) + Words([c.isut, c.isstd, c.leaps, c.times, c.kinds, c.chars])
  }

  function Times(ts: seq<Transition>): (b: Bytes)
    ensures |b| == 8 * |ts|
  {
    if |ts| == 0 then [] else Put64s(ts[0].at) + Times(ts[1..])
  }

  function Kinds(ts: seq<Transition>): (b: Bytes)
    ensures |b| == |ts| && forall i: nat :: i < |ts| ==> b[i] == ts[i].kind
  {
    seq(|ts|, i requires 0 <= i < |ts| => ts[i].kind)
  }

  function PutType(t: LocalType): (b: Bytes)
    ensures |b| == 6
  {
    Put32s(t.offset) + [if t.dst then 1 else 0, t.designation]
  }

  function Types(ts: seq<LocalType>): (b: Bytes)
    ensures |b| == 6 * |ts|
  {
    if |ts| == 0 then [] else PutType(ts[0]) + Types(ts[1..])
  }

  function FooterBytes(f: Footer): Bytes {
    match f
    case Absent => []
    case Closed(text) => [NEWLINE] + text + [NEWLINE]
    case Open(text) => [NEWLINE] + text
  }

  function Data(f: File): Bytes { Times(f.transitions) + (Kinds(f.transitions) + (Types(f.types) + f.rest)) }

  function Encode(f: File): Bytes
    requires WellFormed(f)
  {
    Header(f.version, CountsOf(f.first))
    + (Body(f.first) + (Header(f.version, f.second) + (Data(f) + FooterBytes(f.footer))))
  }

  // ---------- the round trip ----------

  lemma HeaderReads(m: Memory, at: nat, version: byte, c: Counts)
    requires Fits(c) && Holds(m, at, Header(version, c))
    ensures Magic(m, at) && ReadCounts(m, at) == c
  {
    var magic, zeros: Bytes := [84, 90, 105, 102, version], Zeros(15);
    var words: seq<word> := [c.isut, c.isstd, c.leaps, c.times, c.kinds, c.chars];
    HoldsBoth(m, at, magic + zeros, Words(words));
    HoldsBoth(m, at, magic, zeros);
    assert m(at + 0) == magic[0] && m(at + 1) == magic[1] && m(at + 2) == magic[2] && m(at + 3) == magic[3];
    WordsRead(m, at + 20, words, 0);
    WordsRead(m, at + 20, words, 1);
    WordsRead(m, at + 20, words, 2);
    WordsRead(m, at + 20, words, 3);
    WordsRead(m, at + 20, words, 4);
    WordsRead(m, at + 20, words, 5);
  }

  lemma {:induction false} WordsRead(m: Memory, at: nat, ws: seq<word>, i: nat)
    requires Holds(m, at, Words(ws)) && i < |ws|
    ensures Rd32(m, at + i * 4) == ws[i]
    decreases i
  {
    HoldsBoth(m, at, Put32(ws[0]), Words(ws[1..]));
    if i == 0 { Rd32Put32(m, at, ws[0]); } else { WordsRead(m, at + 4, ws[1..], i - 1); }
  }

  lemma {:induction false} TimesRead(m: Memory, at: nat, ts: seq<Transition>, i: nat)
    requires Holds(m, at, Times(ts)) && i < |ts| && -0x8000_0000_0000_0000 <= ts[i].at < 0x8000_0000_0000_0000
    ensures Rd64s(m, at + i * 8) == ts[i].at
    decreases i
  {
    HoldsBoth(m, at, Put64s(ts[0].at), Times(ts[1..]));
    if i == 0 { Rd64sPut64s(m, at, ts[0].at); } else { TimesRead(m, at + 8, ts[1..], i - 1); }
  }

  lemma {:induction false} TypesRead(m: Memory, at: nat, ts: seq<LocalType>, i: nat)
    requires Holds(m, at, Types(ts)) && i < |ts| && -0x8000_0000 <= ts[i].offset < 0x8000_0000
    ensures Rd32s(m, at + i * 6) == ts[i].offset && (m(at + i * 6 + 4) != 0 <==> ts[i].dst)
    decreases i
  {
    HoldsBoth(m, at, PutType(ts[0]), Types(ts[1..]));
    if i == 0 {
      var flags: Bytes := [if ts[0].dst then 1 else 0, ts[0].designation];
      HoldsBoth(m, at, Put32s(ts[0].offset), flags);
      Rd32sPut32s(m, at, ts[0].offset);
      assert m(at + 4 + 0) == flags[0];
    } else {
      TypesRead(m, at + 6, ts[1..], i - 1);
    }
  }

  /** Transition i as the file means it. */
  function Meant(f: File, i: nat): Option<Change>
    requires i < |f.transitions|
  {
    var t := f.transitions[i];
    if t.kind >= |f.types| then None else Some(Change(t.at, f.types[t.kind].offset, f.types[t.kind].dst))
  }

  function Meaning(f: File): (cs: seq<Option<Change>>)
    ensures |cs| == |f.transitions| && forall i: nat :: i < |cs| ==> cs[i] == Meant(f, i)
  {
    seq(|f.transitions|, i requires 0 <= i < |f.transitions| => Meant(f, i))
  }

  lemma ChangesRead(m: Memory, d: nat, f: File)
    requires WellFormed(f) && Holds(m, d, Data(f))
    ensures ReadChanges(m, d, f.second) == Meaning(f)
  {
    var times, kinds, types := Times(f.transitions), Kinds(f.transitions), Types(f.types);
    HoldsBoth(m, d, times, kinds + (types + f.rest));
    HoldsBoth(m, d + |times|, kinds, types + f.rest);
    HoldsBoth(m, d + |times| + |kinds|, types, f.rest);
    forall i: nat | i < |f.transitions| ensures ReadChanges(m, d, f.second)[i] == Meaning(f)[i] {
      ChangeRead(m, d, f, i);
    }
  }

  lemma ChangeRead(m: Memory, d: nat, f: File, i: nat)
    requires WellFormed(f) && i < |f.transitions| && Holds(m, d, Times(f.transitions))
    requires Holds(m, d + |f.transitions| * 8, Kinds(f.transitions))
    requires Holds(m, d + |f.transitions| * 8 + |f.transitions|, Types(f.types))
    ensures ReadChange(m, d, f.second, i) == Meant(f, i)
  {
    var n := |f.transitions|;
    var t := f.transitions[i];
    TimesRead(m, d, f.transitions, i);
    assert Wrapped(n * 8) == n * 8;
    assert m(d + n * 8 + i) == Kinds(f.transitions)[i];
    if t.kind < |f.types| { TypesRead(m, d + n * 8 + n, f.types, t.kind); }
  }

  /** The text of a footer cut to what the structure holds. */
  function CutText(f: Footer): Option<Bytes> {
    if f.Absent? then None else Some(f.text[..Cut(|f.text|)])
  }

  /** A footer is read exactly where a newline opens one inside the size. */
  lemma FooterOpens(m: Memory, at: nat, sz: nat)
    ensures ReadFooter(m, at, sz).Some? <==> at < sz && m(at) == 10
  {
  }

  lemma {:induction false} FindIs(m: Memory, at: nat, n: nat, x: byte, k: nat)
    requires k <= n && (k < n ==> m(at + k) == x) && forall p: nat :: at <= p < at + k ==> m(p) != x
    ensures Find(m, at, n, x) == k
    decreases n
  {
    if k > 0 { FindIs(m, at + 1, n - 1, x, k - 1); }
  }

  lemma FooterRead(m: Memory, at: nat, f: Footer)
    requires Holds(m, at, FooterBytes(f)) && (f.Absent? || NEWLINE !in f.text)
    ensures ReadFooter(m, at, at + |FooterBytes(f)|) == CutText(f)
  {
    if !f.Absent? {
      var text, tail: Bytes := f.text, if f.Closed? then [NEWLINE] else [];
      assert FooterBytes(f) == [NEWLINE] + (text + tail);
      HoldsBoth(m, at, [NEWLINE], text + tail);
      HoldsBoth(m, at + 1, text, tail);
      assert m(at + 0) == [NEWLINE][0];
      assert f.Closed? ==> m(at + 1 + |text| + 0) == tail[0];
      TextRead(m, at, text, at + 1 + |text + tail|);
    }
  }

  lemma TextRead(m: Memory, at: nat, text: Bytes, sz: nat)
    requires m(at) == NEWLINE && Holds(m, at + 1, text) && NEWLINE !in text
    requires at + 1 + |text| <= sz && (at + 1 + |text| < sz ==> m(at + 1 + |text|) == NEWLINE)
    ensures ReadFooter(m, at, sz) == CutText(Open(text))
  {
    forall p: nat | at + 1 <= p < at + 1 + |text| ensures m(p) != NEWLINE {
      assert m(at + 1 + (p - (at + 1))) == text[p - (at + 1)];
    }
    FindIs(m, at + 1, sz - (at + 1), NEWLINE, |text|);
    assert Text(m, at + 1, Cut(|text|)) == text[..Cut(|text|)];
  }

  /** A text has the mark that makes daylight time exactly when a comma stands in it before the first NUL. */
  lemma CommaMeansDst(t: Bytes, k: nat)
    requires k <= |t| && 0 !in t[..k] && (k < |t| ==> t[k] == 0)
    ensures HasBeforeNul(t, 44) <==> 44 in t[..k]
  {
    assert forall i: nat :: i < k ==> t[..k][i] == t[i];
  }

  /** What a file says: the zone of its last standard and daylight transitions, overruled by its footer. */
  function Expected(f: File, yday: YearDay): Tz { WithFooter(Zone(Meaning(f), yday), CutText(f.footer)) }

  /** Parsing an encoded file skips exactly its first block and returns what the file says. */
  lemma RoundTrip(m: Memory, f: File, yday: YearDay)
    requires WellFormed(f) && Holds(m, 0, Encode(f))
    ensures Second(m) == HDR + |Body(f.first)|
    ensures Parsed(m, |Encode(f)|, yday) == Some(Expected(f, yday))
  {
    var s := HDR + |Body(f.first)|;
    FileHolds(m, f);
    BlockRead(m, s + HDR, |Encode(f)|, f, yday);
    HeadersRead(m, s, |Encode(f)|, f, yday);
  }

  lemma HeadersRead(m: Memory, s: nat, sz: nat, f: File, yday: YearDay)
    requires WellFormed(f) && s == HDR + |Body(f.first)| <= sz
    requires Holds(m, 0, Header(f.version, CountsOf(f.first))) && Holds(m, s, Header(f.version, f.second))
    ensures Second(m) == s && Parsed(m, sz, yday) == Block(m, s + HDR, f.second, sz, yday)
  {
    HeaderReads(m, 0, f.version, CountsOf(f.first));
    HeaderReads(m, s, f.version, f.second);
    ParsedIsBlock(m, sz, s, CountsOf(f.first), f.second, yday);
  }

  /** Where the parts of an encoded file stand. */
  lemma FileHolds(m: Memory, f: File)
    requires WellFormed(f) && Holds(m, 0, Encode(f))
    ensures var s := HDR + |Body(f.first)|;
            && Holds(m, 0, Header(f.version, CountsOf(f.first))) && Holds(m, s, Header(f.version, f.second))
            && Holds(m, s + HDR, Data(f)) && Holds(m, s + HDR + |Data(f)|, FooterBytes(f.footer))
            && |Encode(f)| == s + HDR + |Data(f)| + |FooterBytes(f.footer)|
  {
    var h1, h2 := Header(f.version, CountsOf(f.first)), Header(f.version, f.second);
    HoldsParts(m, h1, Body(f.first), h2, Data(f), FooterBytes(f.footer));
  }

  lemma HoldsParts(m: Memory, a: Bytes, b: Bytes, c: Bytes, d: Bytes, e: Bytes)
    requires Holds(m, 0, a + (b + (c + (d + e))))
    ensures Holds(m, 0, a) && Holds(m, |a| + |b|, c)
    ensures Holds(m, |a| + |b| + |c|, d) && Holds(m, |a| + |b| + |c| + |d|, e)
  {
    HoldsBoth(m, 0, a, b + (c + (d + e)));
    HoldsBoth(m, |a|, b, c + (d + e));
    HoldsBoth(m, |a| + |b|, c, d + e);
    HoldsBoth(m, |a| + |b| + |c|, d, e);
  }

  lemma ParsedIsBlock(m: Memory, sz: nat, s: nat, h1: Counts, h2: Counts, yday: YearDay)
    requires Magic(m, 0) && ReadCounts(m, 0) == h1 && h1.times > 0
    requires h1.kinds > 0 && Size32(h1) < U32 && s == HDR + Size32(h1) <= sz
    requires Magic(m, s) && ReadCounts(m, s) == h2
    ensures Second(m) == s && Parsed(m, sz, yday) == Block(m, s + HDR, h2, sz, yday)
  {
  }

  lemma BlockRead(m: Memory, d: nat, sz: nat, f: File, yday: YearDay)
    requires WellFormed(f) && Holds(m, d, Data(f)) && Holds(m, d + |Data(f)|, FooterBytes(f.footer))
    requires sz == d + |Data(f)| + |FooterBytes(f.footer)|
    ensures Block(m, d, f.second, sz, yday) == Some(Expected(f, yday))
  {
    ChangesRead(m, d, f);
    assert |Data(f)| == Wrapped(Size64(f.second));
    FooterRead(m, d + |Data(f)|, f.footer);
    BlockIs(m, d, f.second, sz, yday, Meaning(f), CutText(f.footer));
  }

  /** Transition k of the file has a local time type, of the kind asked for, and its time a year-day. */
  predicate UsableIn(f: File, k: nat, dst: bool, yday: YearDay) {
    k < |f.transitions| && f.transitions[k].kind < |f.types| && f.types[f.transitions[k].kind].dst == dst
    && yday(f.transitions[k].at).Some?
  }

  ghost predicate LastIn(f: File, k: nat, dst: bool, yday: YearDay) {
    UsableIn(f, k, dst, yday) && forall i: nat :: i > k ==> !UsableIn(f, i, dst, yday)
  }

  ghost predicate NoneIn(f: File, dst: bool, yday: YearDay) { forall k: nat :: !UsableIn(f, k, dst, yday) }

  /** What a zone keeps of the file's transitions. */
  ghost predicate Says(tz: Tz, f: File, yday: YearDay) {
    && (forall k: nat :: LastIn(f, k, false, yday) ==> tz.standard == f.types[f.transitions[k].kind].offset)
    && (NoneIn(f, false, yday) ==> tz.standard == 0 && tz.winter == -1)
    && (forall k: nat :: LastIn(f, k, true, yday) ==>
          && tz.daylight == f.types[f.transitions[k].kind].offset
          && yday(f.transitions[k].at) == Some(tz.summer))
    && (forall k: nat :: LastIn(f, k, false, yday) && !NoneIn(f, true, yday) ==>
          yday(f.transitions[k].at) == Some(tz.winter))
    && (NoneIn(f, true, yday) ==> tz.daylight == tz.standard && tz.summer == -1 && tz.winter == -1)
  }

  /** What the result keeps of the file's footer; without one, daylight time is told by the transitions. */
  ghost predicate SaysFooter(tz: Tz, f: File, yday: YearDay) {
    if f.footer.Absent? then tz.tail == [] && (tz.hasDst <==> !NoneIn(f, true, yday))
    else
      && tz.tail == f.footer.text[..if |f.footer.text| > 127 then 127 else |f.footer.text|]
      && (tz.hasDst <==> HasBeforeNul(tz.tail, 44))
  }

  /** The parser's result in the file's own terms. */
  lemma EncodedMeans(m: Memory, f: File, yday: YearDay)
    requires WellFormed(f) && Holds(m, 0, Encode(f))
    ensures var r := Parsed(m, |Encode(f)|, yday);
      r.Some? && Says(r.value, f, yday) && SaysFooter(r.value, f, yday)
  {
    RoundTrip(m, f, yday);
    LastMeans(f, false, yday);
    LastMeans(f, true, yday);
  }

  /** The search through the transitions read finds the last usable one of the file. */
  lemma LastMeans(f: File, dst: bool, yday: YearDay)
    ensures var c := Last(Meaning(f), |f.transitions|, dst, yday);
      && (c.None? <==> NoneIn(f, dst, yday))
      && forall k: nat :: LastIn(f, k, dst, yday) ==> c == Meant(f, k)
  {
    var cs := Meaning(f);
    LastIsLast(cs, |cs|, dst, yday);
    assert forall i: nat :: i < |cs| ==> (Usable(cs[i], dst, yday) <==> UsableIn(f, i, dst, yday));
    var c := Last(cs, |cs|, dst, yday);
    if c.Some? {
      var j: nat :| j < |cs| && cs[j] == c && forall i: nat :: j < i < |cs| ==> !Usable(cs[i], dst, yday);
      assert UsableIn(f, j, dst, yday);
      forall k: nat | LastIn(f, k, dst, yday) ensures c == Meant(f, k) {
        assert !(k < j) && !(j < k);
      }
    }
  }

  /** Loading an encoded file. */
  method LoadEncoded(f: File, beyond: byte, yday: YearDay) returns (r: Option<Tz>)
    requires WellFormed(f)
    ensures r == Some(Expected(f, yday))
  {
    var b := Encode(f);
    RoundTrip(AsMemory(b, beyond), f, yday);
    r := ParseTzdata(AsMemory(b, beyond), |b|, yday);
  }

  /** The file at address 0, one value behind it. */
  function AsMemory(b: Bytes, beyond: byte): (m: Memory)
    ensures Holds(m, 0, b)
  {
    (i: nat) => if i < |b| then b[i] else beyond
  }
}
