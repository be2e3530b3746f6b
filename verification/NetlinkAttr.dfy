/**
  The attribute writer and parser of netlink_getlink/libnl_getlink.c, over bytes on a little-endian
  machine: type-length-value records aligned to four bytes, as in section 2.2 of RFC 3549.
 */
module NetlinkAttr {
  import opened Common

  /** The sizes of struct rtattr, struct nlmsghdr and struct ifinfomsg, field by field. */
  const RTA_HDR := 2 + 2
  const NLMSG_HDR := 4 + 2 + 2 + 4 + 4
  const IFINFO_HDR := 1 + 1 + 2 + 4 + 4 + 4

  /** NLMSG_LENGTH(sizeof(struct ifinfomsg)) */
  const MSG_HDR := NLMSG_HDR + IFINFO_HDR

  /** RTA_ALIGN and NLMSG_ALIGN below the wrap-around. */
  function Align(n: nat): (r: nat)
    ensures n <= r < n + 4 && r % 4 == 0 && (n % 4 == 0 ==> r == n)
  {
    n + 3 - (n + 3) % 4
  }

  function Get16(b: Bytes, at: nat): (x: nat)
    requires at + 2 <= |b|
    ensures x < U16
  {
    b[at] as int + 256 * (b[at + 1] as int)
  }

  function Get32(b: Bytes, at: nat): (x: nat)
    requires at + 4 <= |b|
    ensures x < U32
  {
    Get16(b, at) + U16 * Get16(b, at + 2)
  }

  function Put16(x: nat): Bytes
    requires x < U16
  {
    [x % 256, x / 256]
  }

  function Put32(x: nat): Bytes
    requires x < U32
  {
    Put16(x % U16) + Put16(x / U16)
  }

  lemma Get16Put16(b: Bytes, at: nat, x: nat)
    requires x < U16 && at + 2 <= |b| && b[at..at + 2] == Put16(x)
    ensures Get16(b, at) == x
  {
    assert b[at] == b[at..at + 2][0] && b[at + 1] == b[at..at + 2][1];
  }

  lemma Get32Put32(b: Bytes, at: nat, x: nat)
    requires x < U32 && at + 4 <= |b| && b[at..at + 4] == Put32(x)
    ensures Get32(b, at) == x
  {
    assert b[at..at + 2] == b[at..at + 4][..2] == Put16(x % U16);
    assert b[at + 2..at + 4] == b[at..at + 4][2..] == Put16(x / U16);
    Get16Put16(b, at, x % U16);
    Get16Put16(b, at + 2, x / U16);
  }

  // ---------- an attribute in a buffer ----------

  function RtaLen(b: Bytes, at: nat): nat
    requires at + RTA_HDR <= |b|
  {
    Get16(b, at)
  }

  function RtaType(b: Bytes, at: nat): nat
    requires at + RTA_HDR <= |b|
  {
    Get16(b, at + 2)
  }

  /** A whole attribute lies at `at` before `end`. */
  predicate Whole(b: Bytes, at: nat, end: int) {
    at + RTA_HDR <= end <= |b| && RTA_HDR <= RtaLen(b, at) <= end - at
  }

  function Payload(b: Bytes, at: nat): Bytes
    requires Whole(b, at, |b|)
  {
    b[at + RTA_HDR..at + RtaLen(b, at)]
  }

  // ---------- the parser ----------

  /** RTA_OK, with the length left written as the distance to `end`. */
  predicate RtaOk(b: Bytes, at: nat, end: int)
    requires end <= |b|
  {
    end - at >= RTA_HDR && RTA_HDR <= RtaLen(b, at) <= end - at
  }

  /** RTA_NEXT */
  function Next(b: Bytes, at: nat): (n: nat)
    requires at + RTA_HDR <= |b|
    ensures at + RtaLen(b, at) <= n
  {
    at + Align(RtaLen(b, at))
  }

  /** The attributes from `at` on, up to `end`; padding may lead past it. */
  function Attributes(b: Bytes, at: nat, end: int): seq<nat>
    requires end <= |b|
    decreases end - at
  {
    if RtaOk(b, at, end) then [at] + Attributes(b, Next(b, at), end) else []
  }

  /** The length that is left at the end; negative when the last attribute's padding passes it. */
  function Leftover(b: Bytes, at: nat, end: int): int
    requires end <= |b|
    decreases end - at
  {
    if RtaOk(b, at, end) then Leftover(b, Next(b, at), end) else end - at
  }

  /** Where the attribute behind the i-th of `offs` would begin, or the first one if i is 0. */
  function Behind(b: Bytes, offs: seq<nat>, at: nat, i: nat): nat
    requires i <= |offs| && forall j: nat :: j < |offs| ==> offs[j] + RTA_HDR <= |b|
  {
    if i == 0 then at else offs[i - 1] + Align(RtaLen(b, offs[i - 1]))
  }

  /** The parser meets attributes one right behind the other until no whole one follows, and is left with the rest. */
  lemma {:induction false} AttributesInRow(b: Bytes, at: nat, end: int)
    requires end <= |b|
    ensures var offs := Attributes(b, at, end);
      && (forall j: nat :: j < |offs| ==> Whole(b, offs[j], end) && offs[j] + RTA_HDR <= |b|)
      && (forall j: nat :: j < |offs| ==> offs[j] == Behind(b, offs, at, j))
      && !Whole(b, Behind(b, offs, at, |offs|), end)
      && Leftover(b, at, end) == end - Behind(b, offs, at, |offs|)
    decreases end - at
  {
    if RtaOk(b, at, end) {
      AttributesInRow(b, Next(b, at), end);
      var offs, rest := Attributes(b, at, end), Attributes(b, Next(b, at), end);
      forall j: nat | j < |offs| ensures Whole(b, offs[j], end) && offs[j] + RTA_HDR <= |b| {
        assert j > 0 ==> offs[j] == rest[j - 1];
      }
      forall j: nat | j <= |rest| ensures Behind(b, offs, at, j + 1) == Behind(b, rest, Next(b, at), j) {
        assert j > 0 ==> offs[j] == rest[j - 1];
      }
    }
  }

  /** The attributes start no earlier than `at`, lie wholly before `end`, and follow one another. */
  ghost predicate Placed(b: Bytes, offs: seq<nat>, at: nat, end: int) {
    (forall i: nat :: i < |offs| ==> at <= offs[i] && Whole(b, offs[i], end))
    && (forall i: nat, j: nat :: i < j < |offs| ==> offs[i] + RtaLen(b, offs[i]) <= offs[j])
  }

  lemma PlacedFirst(b: Bytes, offs: seq<nat>, at: nat, next: nat, end: int)
    requires Whole(b, at, end) && at + RtaLen(b, at) <= next && Placed(b, offs, next, end)
    ensures Placed(b, [at] + offs, at, end)
  {
    assert forall i: nat :: 0 < i <= |offs| ==> ([at] + offs)[i] == offs[i - 1];
  }

  /** Every attribute found lies wholly inside the bytes given, one after the other, whatever the bytes are. */
  lemma {:induction false} AttributesInside(b: Bytes, at: nat, end: int)
    requires end <= |b|
    ensures Placed(b, Attributes(b, at, end), at, end)
    decreases end - at
  {
    if RtaOk(b, at, end) {
      AttributesInside(b, Next(b, at), end);
      PlacedFirst(b, Attributes(b, Next(b, at), end), at, Next(b, at), end);
    }
  }

  const NULL := -1

  /** Attribute i of these is the first that has type t. */
  predicate IsFirst(b: Bytes, offs: seq<nat>, t: nat, i: nat)
    requires forall j: nat :: j < |offs| ==> offs[j] + RTA_HDR <= |b|
  {
    i < |offs| && RtaType(b, offs[i]) == t && forall j: nat :: j < i ==> RtaType(b, offs[j]) != t
  }

  /** The first of these attributes that has type t. */
  function First(b: Bytes, offs: seq<nat>, t: nat): (o: int)
    requires forall i: nat :: i < |offs| ==> offs[i] + RTA_HDR <= |b|
    ensures o == NULL <==> forall i: nat :: i < |offs| ==> RtaType(b, offs[i]) != t
    ensures o != NULL ==> exists i: nat :: IsFirst(b, offs, t, i) && o == offs[i]
  {
    if |offs| == 0 then NULL
    else if RtaType(b, offs[0]) == t then offs[0]
    else
      var o := First(b, offs[1..], t);
      assert o == NULL ==> forall i: nat :: 0 < i < |offs| ==> offs[i] == offs[1..][i - 1];
      assert o != NULL ==> exists i: nat :: IsFirst(b, offs, t, i) && o == offs[i] by {
        if o != NULL {
          var i: nat :| IsFirst(b, offs[1..], t, i) && o == offs[1..][i];
          assert o == offs[i + 1];
          assert forall j: nat :: 0 < j < i + 1 ==> offs[j] == offs[1..][j - 1];
          assert IsFirst(b, offs, t, i + 1);
        }
      }
      o
  }

  /** The first attribute of type t met on the way; it lies wholly inside the bytes given. */
  function FirstIn(b: Bytes, at: nat, end: int, t: nat): (o: int)
    requires end <= |b|
    ensures o != NULL ==> at <= o && Whole(b, o, end) && RtaType(b, o) == t
    decreases end - at
  {
    if !RtaOk(b, at, end) then NULL else if RtaType(b, at) == t then at else FirstIn(b, Next(b, at), end, t)
  }

  lemma {:induction false} FirstInIsFirst(b: Bytes, at: nat, end: int, t: nat)
    requires end <= |b|
    ensures forall i: nat :: i < |Attributes(b, at, end)| ==> Attributes(b, at, end)[i] + RTA_HDR <= |b|
    ensures FirstIn(b, at, end, t) == First(b, Attributes(b, at, end), t)
    decreases end - at
  {
    if RtaOk(b, at, end) {
      FirstInIsFirst(b, Next(b, at), end, t);
      FirstCons(b, at, Attributes(b, Next(b, at), end), t);
    }
  }

  lemma FirstCons(b: Bytes, at: nat, rest: seq<nat>, t: nat)
    requires at + RTA_HDR <= |b| && forall i: nat :: i < |rest| ==> rest[i] + RTA_HDR <= |b|
    ensures forall i: nat :: i <= |rest| ==> ([at] + rest)[i] + RTA_HDR <= |b|
    ensures First(b, [at] + rest, t) == if RtaType(b, at) == t then at else First(b, rest, t)
  {
    assert ([at] + rest)[1..] == rest;
  }

  /**
    A table entry in the middle of the loop: `all` is the first
    attribute of its type, `left` the first still to come.
   */
  predicate Entry(was: int, now: int, inRange: bool, all: int, left: int) {
    if inRange && was == NULL then all == (if now != NULL then now else left) else now == was
  }

  /**
    parse_rtattr: keeps the first attribute of each type and any entry the table already has; the deficit is what
    it logs.
   */
  method ParseRtattr(tb: array<int>, max: int, b: Bytes, at: nat, len: int) returns (ret: int, deficit: int)
    requires at + len <= |b| && max < tb.Length
    modifies tb
    ensures max <= 0 ==> ret == -1 && tb[..] == old(tb[..])
    ensures max > 0 ==> ret == 0 && deficit == Leftover(b, at, at + len)
    ensures max > 0 ==> forall t: nat :: t < tb.Length ==>
              tb[t] == if 1 <= t <= max && old(tb[t]) == NULL then FirstIn(b, at, at + len, t) else old(tb[t])
  {
    if max <= 0 { return -1, 0; }
    var p, rest := at, len;
    ghost var end := at + len;
    while RtaOk(b, p, p + rest)
      invariant p + rest == end && Leftover(b, p, end) == Leftover(b, at, end)
      invariant forall t: nat :: t < tb.Length ==>
            Entry(old(tb[t]), tb[t], 1 <= t <= max, FirstIn(b, at, end, t), FirstIn(b, p, end, t))
      decreases rest
    {
      var kind := RtaType(b, p);
      if kind > 0 && kind <= max && tb[kind] == NULL { tb[kind] := p; }
      p, rest := Next(b, p), rest - Align(RtaLen(b, p));
    }
    return 0, rest;
  }

  /** The 32-bit int that a 32-bit unsigned value becomes. */
  function AsInt(x: nat): int
    requires x < U32
  {
    if x < 0x8000_0000 then x else x - U32
  }

  /** parse_nlbuf: the length of the message, or -1 when it has no room for its headers. */
  method ParseNlbuf(b: Bytes, tb: array<int>, max: nat) returns (ret: int, deficit: int)
    requires 4 <= |b| && Get32(b, 0) <= |b| && 0 < max < tb.Length
    modifies tb
    ensures ret == if Get32(b, 0) < 32 then -1 else Get32(b, 0)
    ensures MSG_HDR <= Get32(b, 0) < 0x8000_0000 ==> deficit == Leftover(b, MSG_HDR, Get32(b, 0))
    ensures forall t: nat :: t < tb.Length ==>
              tb[t] == if 1 <= t <= max && old(tb[t]) == NULL && MSG_HDR <= Get32(b, 0) < 0x8000_0000 + MSG_HDR
                       then FirstIn(b, MSG_HDR, Get32(b, 0), t) else old(tb[t])
  {
    var nlen := Get32(b, 0);
    deficit := 0;
    if nlen < MSG_HDR { return -1, 0; }
    var alen := nlen - MSG_HDR;
    if alen > 0 {
      var _, d := ParseRtattr(tb, max, b, MSG_HDR, AsInt(alen));
      deficit := d;
    }
    return nlen, deficit;
  }

  // ---------- the writer ----------

  /** b with x written at `at`. */
  function Over(b: Bytes, at: nat, x: Bytes): (r: Bytes)
    requires at + |x| <= |b|
    ensures |r| == |b| && r[at..at + |x|] == x
    ensures forall i: nat :: i < |b| && !(at <= i < at + |x|) ==> r[i] == b[i]
  {
    b[..at] + x + b[at + |x|..]
  }

  datatype Attr = Attr(kind: nat, data: Bytes)

  /** Room for one more attribute at `at`, the aligned length of the message. */
  predicate Room(b: Bytes, at: nat, size: nat) { at + Align(RTA_HDR + size) <= |b| && at + Align(RTA_HDR + size) < U32 }

  /** The bytes written lie in the buffer. */
  predicate Writable(b: Bytes, at: nat, size: nat) { 4 <= |b| && at + RTA_HDR + size <= |b| }

  /** An append that the check against `maxlen` admits lies in the buffer. */
  predicate SafeAppend(b: Bytes, maxlen: nat, size: nat)
    requires 4 <= |b|
  {
    Bound(Get32(b, 0), size) <= maxlen ==> Writable(b, Wrapped(Align(Get32(b, 0))), size)
  }

  /** What addattr_l compares with its bound, and then stores: both lengths aligned and added in 32 bits. */
  function Bound(stored: nat, size: nat): (sum: nat)
    ensures sum < U32
  {
    Wrapped(Wrapped(Align(stored)) + Wrapped(Align(Wrapped(RTA_HDR + size))))
  }

  /** The length, type and payload of an attribute; the stored length is truncated to 16 bits. */
  function AttrBytes(a: Attr): Bytes
    requires a.kind < U16
  {
    Put16((RTA_HDR + |a.data|) % U16) + Put16(a.kind) + a.data
  }

  /** The message with one more attribute: its length is read again, after the attribute has been written. */
  function AfterAdd(b: Bytes, at: nat, a: Attr): (r: Bytes)
    requires Writable(b, at, |a.data|) && a.kind < U16
    ensures |r| == |b|
  {
    var written := Over(b, at, AttrBytes(a));
    Over(written, 0, Put32(Bound(Get32(written, 0), |a.data|)))
  }

  /** r is b with the attribute at `at`; the rest, padding included, is as before. */
  ghost predicate Added(b: Bytes, r: Bytes, at: nat, a: Attr)
    requires Room(b, at, |a.data|)
  {
    var len := RTA_HDR + |a.data|;
    |r| == |b| && RtaLen(r, at) == len % U16 && RtaType(r, at) == a.kind && r[at + RTA_HDR..at + len] == a.data
    && (forall i: nat :: 4 <= i < |b| && !(at <= i < at + len) ==> r[i] == b[i])
  }

  /** The message's own length is out of the attribute's way. */
  lemma LengthKept(b: Bytes, at: nat, x: Bytes)
    requires 4 <= at && at + |x| <= |b|
    ensures Get32(Over(b, at, x), 0) == Get32(b, 0)
  {
  }

  lemma AfterAddPlain(b: Bytes, at: nat, a: Attr)
    requires Room(b, at, |a.data|) && a.kind < U16 && 4 <= at && Align(Get32(b, 0)) == at
    ensures AfterAdd(b, at, a) == Over(Over(b, at, AttrBytes(a)), 0, Put32(at + Align(RTA_HDR + |a.data|)))
  {
    LengthKept(b, at, AttrBytes(a));
    BoundIsLength(Get32(b, 0), |a.data|);
  }

  lemma AfterAddIs(b: Bytes, at: nat, a: Attr)
    requires Room(b, at, |a.data|) && a.kind < U16 && 4 <= at && Align(Get32(b, 0)) == at
    ensures Get32(AfterAdd(b, at, a), 0) == at + Align(RTA_HDR + |a.data|)
    ensures Added(b, AfterAdd(b, at, a), at, a)
  {
    AfterAddPlain(b, at, a);
    StoredIs(b, AfterAdd(b, at, a), at, a, at + Align(RTA_HDR + |a.data|));
  }

  lemma StoredIs(b: Bytes, r: Bytes, at: nat, a: Attr, end: nat)
    requires Room(b, at, |a.data|) && a.kind < U16 && 4 <= at && end < U32
    requires r == Over(Over(b, at, AttrBytes(a)), 0, Put32(end))
    ensures Get32(r, 0) == end && Added(b, r, at, a)
  {
    AttributeStands(b, at, a, Put32(end));
    LengthStands(Over(b, at, AttrBytes(a)), end);
  }

  lemma LengthStands(b: Bytes, x: nat)
    requires x < U32 && 4 <= |b|
    ensures Get32(Over(b, 0, Put32(x)), 0) == x
  {
    Get32Put32(Over(b, 0, Put32(x)), 0, x);
  }

  /** The attribute stands where it was written, whatever length is stored before it. */
  lemma AttributeStands(b: Bytes, at: nat, a: Attr, length: Bytes)
    requires Room(b, at, |a.data|) && a.kind < U16 && |length| == 4 <= at
    ensures Added(b, Over(Over(b, at, AttrBytes(a)), 0, length), at, a)
  {
    var len, x := RTA_HDR + |a.data|, AttrBytes(a);
    var r := Over(Over(b, at, x), 0, length);
    assert r[at..at + len] == Over(b, at, x)[at..at + len] == x;
    assert r[at..at + 2] == x[0..2] == Put16(len % U16);
    assert r[at + 2..at + 4] == x[2..4] == Put16(a.kind);
    assert r[at + 4..at + len] == x[4..] == a.data;
    Get16Put16(r, at, len % U16);
    Get16Put16(r, at + 2, a.kind);
  }

  method Store(buf: array<byte>, at: nat, x: Bytes)
    requires at + |x| <= buf.Length
    modifies buf
    ensures buf[..] == Over(old(buf[..]), at, x)
  {
    forall i | 0 <= i < |x| { buf[at + i] := x[i]; }
  }

  lemma OverParts(b: Bytes, at: nat, x: Bytes, y: Bytes, z: Bytes)
    requires at + |x| + |y| + |z| <= |b|
    ensures Over(Over(Over(b, at + |x|, y), at, x), at + |x| + |y|, z) == Over(b, at, x + y + z)
  {
  }

  /** The true length of the message after an append. */
  function Length(stored: nat, size: nat): nat { Align(stored) + Align(RTA_HDR + size) }

  /** The sum compared is the true length modulo 2^32. */
  lemma BoundIsMod(stored: nat, size: nat)
    requires stored < U32 && size < U32
    ensures Bound(stored, size) == Length(stored, size) % U32
  {
    AlignWraps(RTA_HDR + size);
    SumWraps(Align(stored), Align(RTA_HDR + size));
  }

  lemma SumWraps(x: nat, y: nat)
    ensures Wrapped(Wrapped(x) + Wrapped(y)) == (x + y) % U32
  {
  }

  lemma AlignWraps(x: nat)
    ensures Wrapped(Align(Wrapped(x))) == Wrapped(Align(x))
  {
    AlignShifts(Wrapped(x), x / U32);
  }

  lemma AlignShifts(x: nat, q: nat)
    ensures Align(x + q * U32) == Align(x) + q * U32
  {
  }

  lemma BoundIsLength(stored: nat, size: nat)
    requires Length(stored, size) < U32
    ensures Bound(stored, size) == Length(stored, size)
  {
  }

  /** The check lets an append pass that does not fit if and only if the true length wraps to at most maxlen. */
  lemma AdmitsIff(stored: nat, size: nat, maxlen: nat)
    requires stored < U32 && size < U32 && maxlen < U32
    ensures Bound(stored, size) <= maxlen < Length(stored, size)
       <==> Length(stored, size) >= U32 && Length(stored, size) % U32 <= maxlen
  {
    BoundIsMod(stored, size);
  }

  /** addattr_l: -1 and nothing written when the sum passes maxlen; what it lets pass must lie in the buffer. */
  method AddAttrL(buf: array<byte>, maxlen: nat, kind: int, data: Bytes) returns (ret: int)
    requires maxlen < U32 && 4 <= buf.Length && |data| < U32
    requires SafeAppend(buf[..], maxlen, |data|)
    modifies buf
    ensures ret == if Bound(old(Get32(buf[..], 0)), |data|) > maxlen then -1 else 0
    ensures ret != 0 ==> buf[..] == old(buf[..])
    ensures ret == 0 ==> Writable(old(buf[..]), Wrapped(Align(old(Get32(buf[..], 0)))), |data|)
    ensures ret == 0 ==>
              buf[..] == AfterAdd(old(buf[..]), Wrapped(Align(old(Get32(buf[..], 0)))), Attr(kind % U16, data))
  {
    var stored := Get32(buf[..], 0);
    if Bound(stored, |data|) > maxlen { return -1; }
    StoreBoth(buf, Wrapped(Align(stored)), kind % U16, data);
    return 0;
  }

  /** The attribute, then the message's new length. */
  method StoreBoth(buf: array<byte>, at: nat, kind: nat, data: Bytes)
    requires Writable(buf[..], at, |data|) && kind < U16
    modifies buf
    ensures buf[..] == AfterAdd(old(buf[..]), at, Attr(kind, data))
  {
    StoreAttr(buf, at, kind, data);
    Store(buf, 0, Put32(Bound(Get32(buf[..], 0), |data|)));
  }

  /** Type, length and payload of one attribute. */
  method StoreAttr(buf: array<byte>, at: nat, kind: nat, data: Bytes)
    requires at + RTA_HDR + |data| <= buf.Length && kind < U16
    modifies buf
    ensures buf[..] == Over(old(buf[..]), at, AttrBytes(Attr(kind, data)))
  {
    var len := RTA_HDR + |data|;
    ghost var was := buf[..];
    Store(buf, at + 2, Put16(kind));
    Store(buf, at, Put16(len % U16));
    Store(buf, at + 4, data);
    OverParts(was, at, Put16(len % U16), Put16(kind), data);
  }

  /** One attribute reads back exactly when its length fits the 16 bits it is stored in. */
  lemma ReadsBackIff(b: Bytes, r: Bytes, at: nat, a: Attr)
    requires Room(b, at, |a.data|) && Added(b, r, at, a)
    ensures var end := at + Align(RTA_HDR + |a.data|);
            (RtaOk(r, at, end) && Payload(r, at) == a.data
             && Attributes(r, at, end) == [at] && Leftover(r, at, end) == 0)
            <==> |a.data| <= 65531
  {
    if |a.data| <= 65531 { OneAttribute(r, at, RTA_HDR + |a.data|); }
  }

  lemma OneAttribute(r: Bytes, at: nat, len: nat)
    requires at + Align(len) <= |r| && len >= RTA_HDR && RtaLen(r, at) == len
    ensures Attributes(r, at, at + Align(len)) == [at] && Leftover(r, at, at + Align(len)) == 0
  {
    assert Attributes(r, Next(r, at), at + Align(len)) == [];
  }

  // ---------- the round trip ----------

  /** More bytes after a list of attributes without leftover add the attributes they hold. */
  lemma {:induction false} Extends(b: Bytes, r: Bytes, at: nat, mid: int, end: int)
    requires mid <= end <= |b| == |r| && Leftover(b, at, mid) == 0
    requires forall i: nat :: at <= i < mid ==> r[i] == b[i]
    ensures mid >= at
    ensures Attributes(r, at, end) == Attributes(b, at, mid) + Attributes(r, mid, end)
    ensures Leftover(r, at, end) == Leftover(r, mid, end)
    decreases mid - at
  {
    if RtaOk(b, at, mid) {
      Extends(b, r, Next(b, at), mid, end);
      assert RtaLen(r, at) == RtaLen(b, at);
    }
  }

  predicate Proper(attrs: seq<Attr>) {
    forall i: nat :: i < |attrs| ==> attrs[i].kind < U16 && |attrs[i].data| <= 65531
  }

  /** Where attributes appended to a message of headers only begin; the last offset is the message's end. */
  predicate Layout(offs: seq<nat>, attrs: seq<Attr>) {
    |offs| == |attrs| + 1 && offs[0] == MSG_HDR
    && forall i: nat :: i < |attrs| ==> offs[i + 1] == offs[i] + Align(RTA_HDR + |attrs[i].data|)
  }

  /** The buffer before the first, between any two and after the last of a run of appends. */
  ghost predicate IsAppendRun(run: seq<Bytes>, offs: seq<nat>, attrs: seq<Attr>)
    requires Layout(offs, attrs)
  {
    |run| == |attrs| + 1
    && forall i: nat {:trigger attrs[i]} :: i < |attrs| ==>
         Room(run[i], offs[i], |attrs[i].data|) && Added(run[i], run[i + 1], offs[i], attrs[i])
  }

  ghost predicate ReadsOne(b: Bytes, at: nat, a: Attr, end: int) {
    Whole(b, at, end) && RtaType(b, at) == a.kind && Payload(b, at) == a.data
  }

  /** Parsing what was appended finds every attribute, in order, with its payload and nothing left over. */
  lemma {:induction false} RoundTrip(run: seq<Bytes>, offs: seq<nat>, attrs: seq<Attr>, n: nat)
    requires Layout(offs, attrs) && Proper(attrs) && IsAppendRun(run, offs, attrs)
    requires n <= |attrs| && offs[n] <= |run[n]|
    ensures MSG_HDR <= offs[n] && Leftover(run[n], MSG_HDR, offs[n]) == 0
    ensures Attributes(run[n], MSG_HDR, offs[n]) == offs[..n]
    ensures forall i: nat :: i < n ==> offs[i] >= 4 && ReadsOne(run[n], offs[i], attrs[i], offs[n])
  {
    if n > 0 {
      var k := n - 1;
      var a := attrs[k];
      RoundTrip(run, offs, attrs, k);
      Appended(run[k], run[n], offs[k], a);
      forall i: nat | i < k ensures ReadsOne(run[n], offs[i], attrs[i], offs[n]) {
        ReadsKept(run[k], run[n], offs[i], attrs[i], offs[k], offs[n]);
      }
    }
  }

  /** One append: the parser finds one attribute more. */
  lemma Appended(b: Bytes, r: Bytes, at: nat, a: Attr)
    requires MSG_HDR <= at && Room(b, at, |a.data|) && |a.data| <= 65531 && Added(b, r, at, a)
    requires Leftover(b, MSG_HDR, at) == 0
    ensures var end := at + Align(RTA_HDR + |a.data|);
            ReadsOne(r, at, a, end) && Leftover(r, MSG_HDR, end) == 0
            && Attributes(r, MSG_HDR, end) == Attributes(b, MSG_HDR, at) + [at]
  {
    var len := RTA_HDR + |a.data|;
    OneAttribute(r, at, len);
    Extends(b, r, MSG_HDR, at, at + Align(len));
  }

  lemma ReadsKept(b: Bytes, r: Bytes, o: nat, a: Attr, end: nat, later: nat)
    requires |b| == |r| && end <= later <= |b| && o >= 4 && ReadsOne(b, o, a, end)
    requires forall i: nat :: 4 <= i < end ==> r[i] == b[i]
    ensures ReadsOne(r, o, a, later)
  {
    assert Payload(r, o) == Payload(b, o);
  }

  /** The first attribute of kind t in a list. */
  function FirstKind(attrs: seq<Attr>, t: nat): (i: int)
    ensures -1 <= i < |attrs|
  {
    if |attrs| == 0 then -1
    else if attrs[0].kind == t then 0
    else var i := FirstKind(attrs[1..], t); if i < 0 then -1 else i + 1
  }

  lemma {:induction false} FirstReads(b: Bytes, offs: seq<nat>, attrs: seq<Attr>, t: nat)
    requires |offs| == |attrs| && forall i: nat :: i < |offs| ==> ReadsOne(b, offs[i], attrs[i], |b|)
    requires forall i: nat :: i < |offs| ==> offs[i] + RTA_HDR <= |b|
    ensures First(b, offs, t) == if FirstKind(attrs, t) < 0 then NULL else offs[FirstKind(attrs, t)]
  {
    if |offs| > 0 {
      assert ReadsOne(b, offs[0], attrs[0], |b|);
      forall i: nat | i < |offs| - 1 ensures ReadsOne(b, offs[1..][i], attrs[1..][i], |b|) {
        assert ReadsOne(b, offs[i + 1], attrs[i + 1], |b|);
      }
      FirstReads(b, offs[1..], attrs[1..], t);
    }
  }

  /** Entry `o` of the table is what this list of attributes puts under type t. */
  ghost predicate Holds(b: Bytes, o: int, attrs: seq<Attr>, t: nat) {
    var i := FirstKind(attrs, t);
    if i < 0 then o == NULL else o >= 0 && Whole(b, o, |b|) && RtaType(b, o) == t && Payload(b, o) == attrs[i].data
  }

  lemma {:induction false} FirstKindIs(attrs: seq<Attr>, t: nat)
    ensures FirstKind(attrs, t) >= 0 ==> attrs[FirstKind(attrs, t)].kind == t
    ensures forall j: nat :: j < (if FirstKind(attrs, t) < 0 then |attrs| else FirstKind(attrs, t)) ==>
          attrs[j].kind != t
  {
    if |attrs| > 0 && attrs[0].kind != t {
      FirstKindIs(attrs[1..], t);
      assert forall j: nat :: 0 < j < |attrs| ==> attrs[j] == attrs[1..][j - 1];
    }
  }

  /** The table the parser fills holds, under every type, the first attribute appended with it, or nothing. */
  lemma Delivered(run: seq<Bytes>, offs: seq<nat>, attrs: seq<Attr>, t: nat)
    requires Layout(offs, attrs) && Proper(attrs) && IsAppendRun(run, offs, attrs) && offs[|attrs|] <= |run[|attrs|]|
    ensures MSG_HDR <= offs[|attrs|] && Leftover(run[|attrs|], MSG_HDR, offs[|attrs|]) == 0
    ensures Holds(run[|attrs|], FirstIn(run[|attrs|], MSG_HDR, offs[|attrs|], t), attrs, t)
  {
    var n := |attrs|;
    RoundTrip(run, offs, attrs, n);
    forall i: nat | i < n ensures ReadsOne(run[n], offs[..n][i], attrs[i], |run[n]|) {
      assert ReadsOne(run[n], offs[i], attrs[i], offs[n]);
    }
    FirstInIsFirst(run[n], MSG_HDR, offs[n], t);
    FirstReads(run[n], offs[..n], attrs, t);
    FirstKindIs(attrs, t);
  }

  /** With distinct kinds every attribute is the first of its kind. */
  lemma DistinctFirst(attrs: seq<Attr>, i: nat)
    requires i < |attrs| && forall j: nat, k: nat :: j < k < |attrs| ==> attrs[j].kind != attrs[k].kind
    ensures FirstKind(attrs, attrs[i].kind) == i
  {
    FirstKindIs(attrs, attrs[i].kind);
  }

  lemma {:induction false} LayoutAligned(offs: seq<nat>, attrs: seq<Attr>, n: nat)
    requires Layout(offs, attrs) && n <= |attrs|
    ensures MSG_HDR <= offs[n] <= offs[|attrs|] && offs[n] % 4 == 0
    decreases |attrs| - n
  {
    LayoutUpward(offs, attrs, n);
    if n < |attrs| { LayoutAligned(offs, attrs, n + 1); }
  }

  lemma {:induction false} LayoutUpward(offs: seq<nat>, attrs: seq<Attr>, n: nat)
    requires Layout(offs, attrs) && n <= |attrs|
    ensures MSG_HDR <= offs[n] && offs[n] % 4 == 0
  {
    if n > 0 { LayoutUpward(offs, attrs, n - 1); }
  }

  /** Appends the attributes one by one. */
  method WriteAll(buf: array<byte>, maxlen: nat, attrs: seq<Attr>, ghost offs: seq<nat>) returns (ghost run: seq<Bytes>)
    requires Layout(offs, attrs) && Proper(attrs) && Get32Is(buf[..], MSG_HDR)
    requires offs[|attrs|] <= maxlen <= buf.Length < 0x8000_0000
    modifies buf
    ensures IsAppendRun(run, offs, attrs) && run[|attrs|] == buf[..] && Get32Is(buf[..], offs[|attrs|])
  {
    run := [buf[..]];
    var i := 0;
    while i < |attrs|
      invariant i <= |attrs| && |run| == i + 1 && run[i] == buf[..] && Get32Is(buf[..], offs[i])
      invariant forall j: nat {:trigger attrs[j]} :: j < i ==>
            Room(run[j], offs[j], |attrs[j].data|) && Added(run[j], run[j + 1], offs[j], attrs[j])
    {
      LayoutAligned(offs, attrs, i);
      LayoutAligned(offs, attrs, i + 1);
      AddNext(buf, maxlen, offs[i], attrs[i]);
      run := run + [buf[..]];
      i := i + 1;
    }
  }

  ghost predicate Get32Is(b: Bytes, x: nat) { 4 <= |b| && Get32(b, 0) == x }

  lemma BoundAligned(b: Bytes, at: nat, size: nat)
    requires Get32Is(b, at) && at % 4 == 0 && at + Align(RTA_HDR + size) < U32
    ensures Align(Get32(b, 0)) == at && Bound(Get32(b, 0), size) == at + Align(RTA_HDR + size)
  {
    BoundIsLength(at, size);
  }

  lemma KindKept(a: Attr)
    requires a.kind < U16
    ensures Attr(a.kind % U16, a.data) == a
  {
  }

  lemma NextAdded(b: Bytes, maxlen: nat, at: nat, a: Attr)
    requires Get32Is(b, at) && 16 <= at && at % 4 == 0 && a.kind < U16
    requires at + Align(RTA_HDR + |a.data|) <= maxlen <= |b| && maxlen < U32
    ensures Room(b, at, |a.data|) && Added(b, AfterAdd(b, at, a), at, a)
    ensures Get32Is(AfterAdd(b, at, a), at + Align(RTA_HDR + |a.data|))
    ensures |a.data| < U32 && SafeAppend(b, maxlen, |a.data|) && Bound(Get32(b, 0), |a.data|) <= maxlen
    ensures Wrapped(Align(Get32(b, 0))) == at && Attr(a.kind % U16, a.data) == a
  {
    KindKept(a);
    BoundAligned(b, at, |a.data|);
    AfterAddIs(b, at, a);
  }

  method AddNext(buf: array<byte>, maxlen: nat, ghost at: nat, a: Attr)
    requires Get32Is(buf[..], at) && 16 <= at && at % 4 == 0 && a.kind < U16
    requires at + Align(RTA_HDR + |a.data|) <= maxlen <= buf.Length && maxlen < U32
    modifies buf
    ensures Room(old(buf[..]), at, |a.data|) && Added(old(buf[..]), buf[..], at, a)
    ensures Get32Is(buf[..], at + Align(RTA_HDR + |a.data|))
  {
    ghost var b := buf[..];
    NextAdded(b, maxlen, at, a);
    var ret := AddAttrL(buf, maxlen, a.kind, a.data);
    assert buf[..] == AfterAdd(b, at, a);
  }

  /** Appends the attributes one by one and parses the message into an empty table. */
  method WriteAndParse(buf: array<byte>, maxlen: nat, attrs: seq<Attr>, ghost offs: seq<nat>, max: nat)
    returns (tb: array<int>, deficit: int)
    requires Layout(offs, attrs) && Proper(attrs) && Get32Is(buf[..], MSG_HDR) && 0 < max
    requires offs[|attrs|] <= maxlen <= buf.Length < 0x8000_0000
    modifies buf
    ensures deficit == 0 && tb.Length == max + 1
    ensures forall t: nat :: 1 <= t <= max ==> Holds(buf[..], tb[t], attrs, t)
  {
    ghost var run := WriteAll(buf, maxlen, attrs, offs);
    tb := new int[max + 1](_ => NULL);
    var _, d := ParseNlbuf(buf[..], tb, max);
    deficit := d;
    Delivered(run, offs, attrs, 0);
    forall t: nat | 1 <= t <= max ensures Holds(buf[..], tb[t], attrs, t) {
      Delivered(run, offs, attrs, t);
    }
  }

  /** fill_from_rta: the payload cut to the destination's size, the rest zero. */
  method FillFromRta(dst: array<byte>, size: nat, b: Bytes, rta: int) returns (ret: int)
    requires size <= dst.Length
    requires rta != NULL ==> 0 <= rta && rta + RTA_HDR <= |b| && rta + RtaLen(b, rta) <= |b|
    modifies dst
    ensures ret == if size == 0 || rta == NULL || RtaLen(b, rta) < RTA_HDR then -1 else 0
    ensures ret == -1 ==> dst[..] == old(dst[..])
    ensures ret == 0 ==> forall i: nat :: i < dst.Length ==>
              dst[i] == if i >= size then old(dst[i]) else if i < |Payload(b, rta)| then Payload(b, rta)[i] else 0
  {
    if rta == NULL || size == 0 { return -1; }
    var len := RtaLen(b, rta);
    if len < RTA_HDR { return -1; }
    var plen := len - RTA_HDR;
    var n := if plen < size then plen else size;
    forall i | 0 <= i < n { dst[i] := b[rta + RTA_HDR + i]; }
    forall i | n <= i < size { dst[i] := 0; }
    return 0;
  }
}
