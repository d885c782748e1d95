/** The PUBLISH packet and the remaining-length field (sections 2.2.3 and 3.3 of MQTT 3.1.1). */
module PublishCodec {
  import opened Arith
  import opened ByteOps

  // ----- the remaining length, seven bits at a time

  function Low7(n: nat): (r: nat)
    ensures r < 128
  {
    n % 128
  }

  function High7(n: nat): (r: nat)
    ensures n == 128 * r + Low7(n) && (n > 0 ==> r < n)
  {
    n / 128
  }

  function EncodedLen(n: nat): (r: seq<nat>)
    ensures |r| > 0 && Bytes(r)
  {
    if n < 128 then [n] else [Low7(n) + 128] + EncodedLen(High7(n))
  }

  /** Bytes behind the buffer are not modelled and read as 0. */
  function At(s: seq<nat>, i: nat): nat {
    if i < |s| then s[i] else 0
  }

  function From(s: seq<nat>, i: nat): seq<nat> {
    if i < |s| then s[i..] else []
  }

  /** Reads a length of at most k bytes: its value and the number of bytes. */
  function DecodedLen(s: seq<nat>, k: nat): (r: Option<(nat, nat)>)
    ensures r.Some? ==> 1 <= r.value.1 <= k
    decreases k
  {
    if k == 0 then None
    else if At(s, 0) < 128 then Some((At(s, 0), 1))
    else match DecodedLen(From(s, 1), k - 1)
      case None => None
      case Some((v, m)) => Some((Low7(At(s, 0)) + 128 * v, m + 1))
  }

  /** Decoding undoes encoding; a length fits in k bytes exactly below 128^k. */
  lemma {:induction false} DecodeEncode(n: nat, k: nat, rest: seq<nat>)
    requires k > 0
    ensures DecodedLen(EncodedLen(n) + rest, k) ==
      if n < Pow(128, k) then Some((n, |EncodedLen(n)|)) else None
    ensures n < Pow(128, k) <==> |EncodedLen(n)| <= k
    decreases k
  {
    assert Pow(128, 0) == 1 && Pow(128, k) == 128 * Pow(128, k - 1);
    var s := EncodedLen(n) + rest;
    if n < 128 {
      assert s[0] == n;
    } else {
      var h := High7(n);
      assert s[0] == Low7(n) + 128 && From(s, 1) == EncodedLen(h) + rest;
      Low7Of(n);
      if k > 1 { DecodeEncode(h, k - 1, rest); }
    }
  }

  lemma Low7Of(n: nat)
    ensures Low7(Low7(n) + 128) == Low7(n)
  {
  }

  /** 32-bit arithmetic. */
  function Wrap32(n: nat): (r: nat)
    ensures n < 0x1_0000_0000 ==> r == n
    ensures 0x1_0000_0000 <= n < 0x2_0000_0000 ==> r == n - 0x1_0000_0000
  {
    n % 0x1_0000_0000
  }

  /** The size estimate made before serialising: header byte, length field and remaining bytes. */
  function FinalLength(remLen: nat): nat {
    var n := Wrap32(remLen + 1);
    Wrap32(if n < 128 then n + 1 else if n < 16384 then n + 2 else if n < 2097152 then n + 3 else n + 4)
  }

  /** The estimate is exact except that it is one too large at three lengths; from 2^28 on, where four
      length bytes no longer do, it is one too small; and at the five largest lengths it wraps. */
  lemma FinalLengthExact(n: nat)
    requires n < 0x1_0000_0000
    ensures n < 0xFFFF_FFFB ==> FinalLength(n) == 1 + |EncodedLen(n)| + n + Surplus(n)
    ensures n >= 0xFFFF_FFFB ==> FinalLength(n) == if n == 0xFFFF_FFFF then 1 else n - 0xFFFF_FFFB
  {
    hide EncodedLen, Wrap32;
    LengthBytes(n);
  }

  function Surplus(n: nat): int {
    if n == 127 || n == 16383 || n == 2097151 then 1 else if n < 0x1000_0000 then 0 else -1
  }

  lemma LengthBytes(n: nat)
    requires n < 0x1_0000_0000
    ensures |EncodedLen(n)| ==
      if n < 128 then 1 else if n < 16384 then 2 else if n < 2097152 then 3 else if n < 0x1000_0000 then 4 else 5
  {
    hide EncodedLen, DecodedLen, Pow;
    PowersOf128();
    DecodeEncode(n, 1, []);
    DecodeEncode(n, 2, []);
    DecodeEncode(n, 3, []);
    DecodeEncode(n, 4, []);
    DecodeEncode(n, 5, []);
  }

  method WriteLen(buf: array<nat>, at: nat, n: nat) returns (k: nat)
    requires at + |EncodedLen(n)| <= buf.Length
    modifies buf
    ensures k == |EncodedLen(n)| && buf[..at + k] == old(buf[..at]) + EncodedLen(n)
    ensures forall i :: at + k <= i < buf.Length ==> buf[i] == old(buf[i])
  {
    hide Low7, High7, EncodedLen;
    ghost var all := EncodedLen(n);
    ghost var was := buf[..];
    var length, more := n, true;
    k := 0;
    while more
      invariant k <= |all| && (more ==> EncodedLen(length) == all[k..]) && (!more ==> k == |all|)
      invariant forall i :: 0 <= i < k ==> buf[at + i] == all[i]
      invariant forall i :: 0 <= i < at || at + |all| <= i < buf.Length ==> buf[i] == was[i]
      decreases |all| - k
    {
      EncodedStep(length);
      assert all[k] == all[k..][0] && all[k..][1..] == all[k + 1..];
      var byte := Low7(length);
      length := High7(length);
      more := length > 0;
      if more {
        byte := byte + 128;
      }
      buf[at + k] := byte;
      k := k + 1;
    }
    assert buf[..at + k] == was[..at] + all;
  }

  lemma EncodedStep(n: nat)
    ensures EncodedLen(n) == if High7(n) > 0 then [Low7(n) + 128] + EncodedLen(High7(n)) else [Low7(n)]
  {
    if n < 128 { SmallLength(n); }
  }

  lemma SmallLength(n: nat)
    requires n < 128
    ensures Low7(n) == n && High7(n) == 0
  {
  }

  /** What is read so far, and what remains to be read. */
  function Continue(value: nat, multiplier: nat, len: nat, r: Option<(nat, nat)>): Option<(nat, nat)> {
    match r
    case None => None
    case Some((v, m)) => Some((value + multiplier * v, len + m))
  }

  method DecodeLen(s: seq<nat>) returns (r: Option<(nat, nat)>)
    requires Bytes(s)
    ensures r == DecodedLen(s, 4)
  {
    hide Low7, DecodedLen, Continue, From;
    var value: nat, multiplier: nat, len: nat := 0, 1, 0;
    FromSteps(s, 0);
    NothingRead(DecodedLen(s, 4));
    while true
      invariant len <= 4
      invariant Continue(value, multiplier, len, DecodedLen(From(s, len), 4 - len)) == DecodedLen(s, 4)
      decreases 4 - len
    {
      DecodedStep(From(s, len), 4 - len);
      NoMore(value, multiplier, len);
      if len + 1 > 4 {
        return None;
      }
      var byte := At(s, len);
      FromSteps(s, len);
      ReadOne(value, multiplier, len, byte, DecodedLen(From(s, len + 1), 4 - len - 1));
      value := value + Low7(byte) * multiplier;
      multiplier := multiplier * 128;
      len := len + 1;
      if byte < 128 {
        return Some((value, len));
      }
    }
  }

  lemma FromSteps(s: seq<nat>, i: nat)
    ensures From(s, 0) == s && At(From(s, i), 0) == At(s, i) && From(From(s, i), 1) == From(s, i + 1)
  {
  }

  lemma NothingRead(r: Option<(nat, nat)>)
    ensures Continue(0, 1, 0, r) == r
  {
  }

  lemma NoMore(value: nat, multiplier: nat, len: nat)
    ensures Continue(value, multiplier, len, None) == None
  {
  }

  /** One byte of a length, and the rest. */
  lemma DecodedStep(s: seq<nat>, k: nat)
    ensures k == 0 ==> DecodedLen(s, k) == None
    ensures k > 0 && At(s, 0) < 128 ==> DecodedLen(s, k) == Some((Low7(At(s, 0)), 1))
    ensures k > 0 && At(s, 0) >= 128 ==> DecodedLen(s, k) == WithByte(At(s, 0), DecodedLen(From(s, 1), k - 1))
  {
    if At(s, 0) < 128 { SmallLength(At(s, 0)); }
  }

  function WithByte(byte: nat, r: Option<(nat, nat)>): Option<(nat, nat)> {
    match r
    case None => None
    case Some((v, m)) => Some((Low7(byte) + 128 * v, m + 1))
  }

  lemma ReadOne(value: nat, multiplier: nat, len: nat, byte: nat, r: Option<(nat, nat)>)
    ensures Continue(value, multiplier, len, WithByte(byte, r))
         == Continue(value + Low7(byte) * multiplier, multiplier * 128, len + 1, r)
    ensures Continue(value, multiplier, len, Some((Low7(byte), 1))) == Some((value + Low7(byte) * multiplier, len + 1))
  {
    MulComm(multiplier, Low7(byte));
    if r.Some? { Gathered(multiplier, Low7(byte), r.value.0); }
  }

  lemma Gathered(m: int, l: int, v: int)
    ensures m * (l + 128 * v) == l * m + (m * 128) * v
  {
    MulDistr(l, 128 * v, m);
    MulAssoc(m, 128, v);
  }

  // ----- the packet

  datatype Publish = Publish(dup: bool, qos: nat, retained: bool, id: nat, topic: seq<nat>, payload: seq<nat>)

  ghost predicate ValidPublish(p: Publish) {
    && p.qos <= 1 && p.id < 0x1_0000 && |p.topic| < 0x1_0000 && Bytes(p.topic) && Bytes(p.payload)
    && RemainingLength(p) < 0x1_0000_0000
  }

  /** The length field has at most four bytes, as section 2.2.3 demands. */
  ghost predicate FitsProtocol(p: Publish) {
    RemainingLength(p) < 0x1000_0000
  }

  function RemainingLength(p: Publish): nat {
    |p.topic| + |p.payload| + 2 + if p.qos > 0 then 2 else 0
  }

  function Bit(b: bool): nat {
    if b then 1 else 0
  }

  /** Packet type 3 in the upper four bits, then the flags. */
  function HeaderByte(p: Publish): nat {
    3 * 16 + Bit(p.dup) * 8 + p.qos * 2 + Bit(p.retained)
  }

  function TypeOf(header: nat): nat {
    header / 16
  }

  function DupOf(header: nat): bool {
    header / 8 % 2 == 1
  }

  function QosOf(header: nat): nat {
    header / 2 % 4
  }

  function RetainedOf(header: nat): bool {
    header % 2 == 1
  }

  function Uint16(v: nat): (r: seq<nat>)
    ensures |r| == 2
  {
    [High(v), Low(v)]
  }

  /** The bytes that the remaining length counts. */
  function Body(p: Publish): (r: seq<nat>)
    ensures |r| == RemainingLength(p)
  {
    Uint16(|p.topic|) + p.topic + (if p.qos > 0 then Uint16(p.id) else []) + p.payload
  }

  function Wire(p: Publish): seq<nat> {
    [HeaderByte(p)] + EncodedLen(RemainingLength(p)) + Body(p)
  }

  method Put(buf: array<nat>, at: nat, s: seq<nat>) returns (next: nat)
    requires at + |s| <= buf.Length
    modifies buf
    ensures next == at + |s| && buf[..next] == old(buf[..at]) + s
    ensures forall i :: next <= i < buf.Length ==> buf[i] == old(buf[i])
  {
    forall i | 0 <= i < |s| { buf[at + i] := s[i]; }
    next := at + |s|;
  }

  /** Writes the packet if the estimate fits the buffer. The code does not refuse lengths beyond the
      protocol's; for those the estimate alone does not make the buffer large enough. */
  method Serialize(buf: array<nat>, p: Publish) returns (r: Option<nat>)
    requires ValidPublish(p)
    requires FitsProtocol(p) || FinalLength(RemainingLength(p)) > buf.Length || |Wire(p)| <= buf.Length
    modifies buf
    ensures r.Some? <==> FinalLength(RemainingLength(p)) <= buf.Length
    ensures r.Some? ==> r.value == |Wire(p)| <= buf.Length && buf[..r.value] == Wire(p)
    ensures r.Some? ==> buf[r.value..] == old(buf[r.value..])
    ensures r.None? ==> buf[..] == old(buf[..])
  {
    hide FinalLength, EncodedLen, HeaderByte, Uint16;
    var remLen := |p.topic| + |p.payload| + 2;
    if p.qos > 0 {
      remLen := remLen + 2;
    }
    if FinalLength(remLen) > buf.Length {
      return None;
    }
    FinalLengthExact(remLen);
    ghost var was := buf[..];
    var ptr := Put(buf, 0, [HeaderByte(p)]);
    assert buf[..ptr] == [HeaderByte(p)];
    var k := WriteLen(buf, ptr, remLen);
    ptr := ptr + k;
    assert buf[..ptr] == [HeaderByte(p)] + EncodedLen(remLen);
    ptr := PutBody(buf, ptr, p);
    assert buf[ptr..] == was[ptr..];
    r := Some(ptr);
  }

  method PutBody(buf: array<nat>, at: nat, p: Publish) returns (ptr: nat)
    requires at + |Body(p)| <= buf.Length
    modifies buf
    ensures ptr == at + |Body(p)| && buf[..ptr] == old(buf[..at]) + Body(p)
    ensures forall i :: ptr <= i < buf.Length ==> buf[i] == old(buf[i])
  {
    hide Uint16, Body, PayloadPart;
    ghost var was := buf[..at];
    ghost var start := Uint16(|p.topic|) + p.topic;
    BodyHalves(p);
    ptr := Put(buf, at, Uint16(|p.topic|));
    if |p.topic| > 0 {
      ptr := Put(buf, ptr, p.topic);
    }
    assert buf[..ptr] == was + start;
    ptr := PutTail(buf, ptr, p);
    assert (was + start) + PayloadPart(p) == was + (start + PayloadPart(p));
  }

  lemma BodyHalves(p: Publish)
    ensures Body(p) == (Uint16(|p.topic|) + p.topic) + PayloadPart(p)
  {
    hide Uint16;
    var a, i := Uint16(|p.topic|) + p.topic, if p.qos > 0 then Uint16(p.id) else [];
    assert (a + i) + p.payload == a + (i + p.payload);
  }

  /** Identifier and payload. */
  function PayloadPart(p: Publish): seq<nat> {
    (if p.qos > 0 then Uint16(p.id) else []) + p.payload
  }

  method PutTail(buf: array<nat>, at: nat, p: Publish) returns (ptr: nat)
    requires at + |PayloadPart(p)| <= buf.Length
    modifies buf
    ensures ptr == at + |PayloadPart(p)| && buf[..ptr] == old(buf[..at]) + PayloadPart(p)
    ensures forall i :: ptr <= i < buf.Length ==> buf[i] == old(buf[i])
  {
    hide Uint16;
    ptr := at;
    if p.qos > 0 {
      ptr := Put(buf, ptr, Uint16(p.id));
    }
    ptr := Put(buf, ptr, p.payload);
  }

  // ----- reading it back

  /** What deserialising reports: flags, and where topic and payload are. The payload length is a
      difference of positions; the original stores it in an unsigned type. */
  datatype Parsed =
    | Message(dup: bool, qos: nat, retained: bool, id: Option<nat>,
              topicAt: nat, topicLen: nat, payloadAt: nat, payloadLen: int)
    | TooShort | NotPublish | BadLength | BadTopic

  function ReadUint16(s: seq<nat>, i: nat): nat {
    At(s, i + 1) + 256 * At(s, i)
  }

  /** The message's parts are those of p. */
  ghost predicate Reads(rx: seq<nat>, r: Parsed, p: Publish) {
    && r.Message? && r.dup == p.dup && r.qos == p.qos && r.retained == p.retained
    && r.id == (if p.qos > 0 then Some(p.id) else None)
    && r.topicAt + r.topicLen <= |rx| && rx[r.topicAt..r.topicAt + r.topicLen] == p.topic
    && 0 <= r.payloadLen && r.payloadAt + r.payloadLen <= |rx|
    && rx[r.payloadAt..r.payloadAt + r.payloadLen] == p.payload
  }

  /** The fields, given where the body starts and how long it is declared to be. */
  ghost function BodyFields(rx: seq<nat>, start: nat, declared: nat): Parsed {
    var header := At(rx, 0);
    var topicLen := ReadUint16(rx, start);
    var qos := QosOf(header);
    if declared < 2 || 2 + topicLen > declared then BadTopic
    else
      var cur := start + 2 + topicLen;
      var idLen := if qos == 0 then 0 else 2;
      Message(DupOf(header), qos, RetainedOf(header), if qos == 0 then None else Some(ReadUint16(rx, cur)),
              start + 2, topicLen, cur + idLen, start + declared - (cur + idLen))
  }

  /** A packet that begins with the encoding of p has p's fields. */
  lemma FieldsOfWire(rx: seq<nat>, p: Publish)
    requires ValidPublish(p) && FitsProtocol(p) && Wire(p) <= rx
    ensures |rx| >= 4 && TypeOf(rx[0]) == 3
    ensures DecodedLen(rx[1..], 4) == Some((RemainingLength(p), |EncodedLen(RemainingLength(p))|))
    ensures Reads(rx, BodyFields(rx, 1 + |EncodedLen(RemainingLength(p))|, RemainingLength(p)), p)
  {
    hide HeaderByte, Uint16, ReadUint16, BodyFields, Reads, Bytes, EncodedLen, DecodedLen, Body;
    var n := RemainingLength(p);
    var e := EncodedLen(n);
    var start := 1 + |e|;
    var wire := Wire(p);
    assert |wire| == start + n && wire[0] == HeaderByte(p) && wire[1..start] == e && wire[start..] == Body(p);
    assert rx == wire + rx[|wire|..];
    HeaderFields(p);
    assert Pow(128, 4) == 0x1000_0000 by { PowersOf128(); }
    assert rx[1..] == e + rx[start..];
    DecodeEncode(n, 4, rx[start..]);
    assert rx[start..start + n] == Body(p);
    BodyOfWire(rx, start, p);
  }

  lemma PowersOf128()
    ensures Pow(128, 1) == 128 && Pow(128, 2) == 16384 && Pow(128, 3) == 2097152
    ensures Pow(128, 4) == 0x1000_0000 && Pow(128, 5) == 0x8_0000_0000
  {
    PowNext(128, 0);
    PowNext(128, 1);
    PowNext(128, 2);
    PowNext(128, 3);
    PowNext(128, 4);
  }

  lemma HeaderFields(p: Publish)
    requires p.qos <= 1
    ensures var h := HeaderByte(p);
      TypeOf(h) == 3 && DupOf(h) == p.dup && QosOf(h) == p.qos && RetainedOf(h) == p.retained
  {
  }

  lemma Uint16Back(rx: seq<nat>, i: nat, v: nat)
    requires i + 2 <= |rx| && rx[i..i + 2] == Uint16(v)
    ensures ReadUint16(rx, i) == v
  {
    assert rx[i..i + 2][0] == High(v) && rx[i..i + 2][1] == Low(v);
    NextByte(v);
  }

  lemma BodyOfWire(rx: seq<nat>, start: nat, p: Publish)
    requires ValidPublish(p) && 1 <= start && start + RemainingLength(p) <= |rx| && rx[0] == HeaderByte(p)
    requires rx[start..start + RemainingLength(p)] == Body(p)
    ensures Reads(rx, BodyFields(rx, start, RemainingLength(p)), p)
  {
    hide HeaderByte, Uint16, ReadUint16, RemainingLength, DupOf, QosOf, RetainedOf, Body, Bytes, Reads;
    HeaderFields(p);
    BodyParts(p);
    var n, t := RemainingLength(p), |p.topic|;
    var idLen := if p.qos > 0 then 2 else 0;
    Slice(rx, start, n, 0, 2);
    Slice(rx, start, n, 2, 2 + t);
    Slice(rx, start, n, 2 + t + idLen, n);
    Uint16Back(rx, start, t);
    if p.qos > 0 {
      Slice(rx, start, n, 2 + t, 2 + t + 2);
      Uint16Back(rx, start + 2 + t, p.id);
    }
    ReadsParts(rx, p, start + 2, start + 2 + t + idLen);
  }

  lemma ReadsParts(rx: seq<nat>, p: Publish, topicAt: nat, payloadAt: nat)
    requires topicAt + |p.topic| <= |rx| && rx[topicAt..topicAt + |p.topic|] == p.topic
    requires payloadAt + |p.payload| <= |rx| && rx[payloadAt..payloadAt + |p.payload|] == p.payload
    ensures Reads(rx, Message(p.dup, p.qos, p.retained, if p.qos > 0 then Some(p.id) else None,
                              topicAt, |p.topic|, payloadAt, |p.payload|), p)
  {
  }

  /** A part of a part. */
  lemma Slice(s: seq<nat>, start: nat, n: nat, a: nat, b: nat)
    requires a <= b <= n && start + n <= |s|
    ensures s[start..start + n][a..b] == s[start + a..start + b]
  {
    var x, y := s[start..start + n][a..b], s[start + a..start + b];
    assert |x| == |y|;
    assert forall i :: 0 <= i < |x| ==> x[i] == s[start + a + i] == y[i];
  }

  lemma BodyParts(p: Publish)
    ensures var t, idLen := |p.topic|, if p.qos > 0 then 2 else 0;
      && RemainingLength(p) == |Body(p)| == 2 + t + idLen + |p.payload|
      && Body(p)[0..2] == Uint16(t) && Body(p)[2..2 + t] == p.topic
      && (p.qos > 0 ==> Body(p)[2 + t..2 + t + 2] == Uint16(p.id))
      && Body(p)[2 + t + idLen..|Body(p)|] == p.payload
  {
    hide Uint16;
    var t, i := |p.topic|, if p.qos > 0 then Uint16(p.id) else [];
    assert Body(p) == Uint16(t) + (p.topic + i + p.payload);
    assert Body(p) == (Uint16(t) + p.topic) + (i + p.payload);
  }

  /** A QoS 1 packet whose declared two bytes are used up by an empty topic: its payload length would
      be -2. */
  lemma IdentifierMissing()
    ensures var rx := [0x32, 2, 0, 0];
      DecodedLen(rx[1..], 4) == Some((2, 1)) && BodyFields(rx, 2, 2) == Message(false, 1, false, Some(0), 4, 0, 6, -2)
  {
    var rx := [0x32, 2, 0, 0];
    assert rx[1..] == [2, 0, 0];
    assert QosOf(0x32) == 1 && !DupOf(0x32) && !RetainedOf(0x32);
    assert ReadUint16(rx, 2) == 0 && ReadUint16(rx, 4) == 0;
  }

  /** Reads a packet. Every serialised message that starts the buffer comes back field by field. The
      payload length is the rest of the declared length, and goes below zero exactly when a packet
      with an identifier declares too few bytes to hold one. The declared length is not compared with the
      buffer: topic and payload end inside it exactly when the declared bytes do. */
  method Deserialize(rx: seq<nat>) returns (r: Parsed)
    requires Bytes(rx)
    ensures forall p :: ValidPublish(p) && FitsProtocol(p) && Wire(p) <= rx ==> Reads(rx, r, p)
    ensures r.Message? ==> |rx| >= 4 && DecodedLen(rx[1..], 4).Some?
    ensures r.Message? ==>
      (var declared, used := DecodedLen(rx[1..], 4).value.0, DecodedLen(rx[1..], 4).value.1;
      && r.topicAt == 1 + used + 2 && 2 + r.topicLen <= declared
      && r.payloadAt + r.payloadLen == 1 + used + declared
      && (r.payloadLen < 0 <==> r.qos != 0 && declared < 2 + r.topicLen + 2)
      && (1 + used + declared <= |rx| ==> r.topicAt + r.topicLen <= |rx|))
  {
    hide BodyFields, Reads, Wire, EncodedLen, DecodedLen, RemainingLength, ValidPublish, FitsProtocol, TypeOf;
    forall p | ValidPublish(p) && FitsProtocol(p) && Wire(p) <= rx
      ensures |rx| >= 4 && TypeOf(rx[0]) == 3
      ensures DecodedLen(rx[1..], 4) == Some((RemainingLength(p), |EncodedLen(RemainingLength(p))|))
      ensures Reads(rx, BodyFields(rx, 1 + |EncodedLen(RemainingLength(p))|, RemainingLength(p)), p)
    {
      FieldsOfWire(rx, p);
    }
    if |rx| < 4 {
      return TooShort;
    }
    if TypeOf(rx[0]) != 3 {
      return NotPublish;
    }
    var length := DecodeLen(rx[1..]);
    if length.None? {
      return BadLength;
    }
    r := ReadBody(rx, 1 + length.value.1, length.value.0);
    BodyBounds(rx, 1 + length.value.1, length.value.0);
  }

  lemma BodyBounds(rx: seq<nat>, start: nat, declared: nat)
    ensures var r := BodyFields(rx, start, declared);
      r.Message? ==>
        && r.topicAt == start + 2 && 2 + r.topicLen <= declared
        && r.payloadAt + r.payloadLen == start + declared
        && (r.payloadLen < 0 <==> r.qos != 0 && declared < 2 + r.topicLen + 2)
  {
    hide ReadUint16, DupOf, QosOf, RetainedOf;
  }

  /** Reads topic, identifier and payload with a moving position. */
  method ReadBody(rx: seq<nat>, start: nat, declared: nat) returns (r: Parsed)
    requires |rx| > 0
    ensures r == BodyFields(rx, start, declared)
  {
    var dup, qos, retained := DupOf(rx[0]), QosOf(rx[0]), RetainedOf(rx[0]);
    var cur, end := start, start + declared;
    if end - cur <= 1 {
      return BadTopic;
    }
    var topicLen := ReadUint16(rx, cur);
    cur := cur + 2;
    if cur + topicLen > end {
      return BadTopic;
    }
    var topicAt := cur;
    cur := cur + topicLen;
    var id := None;
    if qos != 0 {
      id := Some(ReadUint16(rx, cur));
      cur := cur + 2;
    }
    r := Message(dup, qos, retained, id, topicAt, topicLen, cur, end - cur);
  }

  // ----- the wire format, field by field

  /** Two bytes, the most significant first. */
  lemma Uint16Bytes(v: nat)
    requires v < 0x1_0000
    ensures Bytes(Uint16(v)) && BytesValue(Uint16(v)) == v
  {
    NextByte(v);
    BytesFront(High(v), [Low(v)]);
    assert [High(v)] + [Low(v)] == Uint16(v) && [Low(v)][..0] == [];
    PowNext(256, 0);
    assert BytesValue([Low(v)]) == Low(v);
    assert High(v) < 256;
  }

  /** The header: packet type 3 in bits 7 to 4, then bit 3 for a duplicate, bits 2 and 1 for the quality of
      service, bit 0 for retention. */
  lemma HeaderBits(p: Publish)
    requires p.qos <= 1
    ensures var h := HeaderByte(p);
      && h < 256 && h / 16 == 3 && (BitAt(h, 3) <==> p.dup) && !BitAt(h, 2) && (BitAt(h, 1) <==> p.qos == 1)
      && (BitAt(h, 0) <==> p.retained)
  {
    var h := HeaderByte(p);
    ShiftIsDiv(h, 0);
    ShiftIsDiv(h, 1);
    ShiftIsDiv(h, 2);
    ShiftIsDiv(h, 3);
    PowersOfTwo();
    var a, q, r := Bit(p.dup), p.qos, Bit(p.retained);
    DivModUnique(h, 16, 3, a * 8 + q * 2 + r);
    DivModUnique(h, 8, 6 + a, q * 2 + r);
    DivModUnique(h, 4, 12 + a * 2, q * 2 + r);
    DivModUnique(h, 2, 24 + a * 4 + q, r);
  }

  lemma PowersOfTwo()
    ensures Pow(2, 0) == 1 && Pow(2, 1) == 2 && Pow(2, 2) == 4 && Pow(2, 3) == 8
  {
    PowNext(2, 0);
    PowNext(2, 1);
    PowNext(2, 2);
  }

  /** The sum of the low seven bits of byte i times 128^i. */
  ghost function SevenBits(s: seq<nat>, i: nat): int
    requires i <= |s|
    decreases |s| - i
  {
    if i == |s| then 0 else (s[i] % 128) * Pow(128, i) + SevenBits(s, i + 1)
  }

  /** The remaining length: seven bits a byte, the least significant first; bit 7 is set on all but the last. */
  lemma EncodedLenBytes(n: nat)
    ensures SevenBits(EncodedLen(n), 0) == n
    ensures forall i :: 0 <= i < |EncodedLen(n)| ==> (EncodedLen(n)[i] >= 128 <==> i < |EncodedLen(n)| - 1)
  {
    hide EncodedLen, SevenBits;
    PowNext(128, 0);
    assert [] + EncodedLen(n) == EncodedLen(n);
    SevenBitsFrom([], n);
    ContinuationBits(n);
  }

  lemma {:induction false} SevenBitsFrom(front: seq<nat>, n: nat)
    ensures SevenBits(front + EncodedLen(n), |front|) == n * Pow(128, |front|)
    decreases n
  {
    hide Pow;
    var s, i := front + EncodedLen(n), |front|;
    PowNext(128, i);
    if n < 128 {
      assert s[i] == n && |s| == i + 1;
      DivModUnique(n, 128, 0, n);
    } else {
      var l, h := Low7(n), High7(n);
      assert s[i] == l + 128 && s == (front + [l + 128]) + EncodedLen(h);
      DivModUnique(l + 128, 128, 1, l);
      SevenBitsFrom(front + [l + 128], h);
      SevenCore(l, h, Pow(128, i));
    }
  }

  lemma SevenCore(l: int, h: int, p: int)
    ensures l * p + h * (128 * p) == (128 * h + l) * p
  {
    MulDistr(128 * h, l, p);
    MulAssoc(h, 128, p);
    MulComm(h, 128);
  }

  lemma {:induction false} ContinuationBits(n: nat)
    ensures forall i :: 0 <= i < |EncodedLen(n)| ==> (EncodedLen(n)[i] >= 128 <==> i < |EncodedLen(n)| - 1)
    decreases n
  {
    if n >= 128 {
      ContinuationBits(High7(n));
      var s, t := EncodedLen(n), EncodedLen(High7(n));
      assert forall i :: 0 < i < |s| ==> s[i] == t[i - 1];
    }
  }

  /** The packet: header, length field, length of the topic, topic, identifier if there is one, payload. */
  lemma WireLayout(p: Publish)
    requires ValidPublish(p)
    ensures var w, at, t := Wire(p), 1 + |EncodedLen(RemainingLength(p))|, |p.topic|;
      var idLen := if p.qos > 0 then 2 else 0;
      && |w| == at + RemainingLength(p) && w[0] == HeaderByte(p) && w[1..at] == EncodedLen(RemainingLength(p))
      && BytesValue(w[at..at + 2]) == t && w[at + 2..at + 2 + t] == p.topic
      && (p.qos > 0 ==> BytesValue(w[at + 2 + t..at + 4 + t]) == p.id)
      && w[at + 2 + t + idLen..] == p.payload
  {
    hide HeaderByte, Uint16, EncodedLen, Body, BytesValue, Bytes;
    var e, t := EncodedLen(RemainingLength(p)), |p.topic|;
    var w, at := Wire(p), 1 + |e|;
    var idLen := if p.qos > 0 then 2 else 0;
    BodyParts(p);
    assert w[0] == HeaderByte(p) && w[1..at] == e && w[at..] == Body(p);
    assert w[at..at + |Body(p)|] == Body(p);
    Slice(w, at, |Body(p)|, 0, 2);
    Slice(w, at, |Body(p)|, 2, 2 + t);
    Slice(w, at, |Body(p)|, 2 + t + idLen, |Body(p)|);
    assert w[at + 2 + t + idLen..] == w[at + 2 + t + idLen..at + |Body(p)|];
    Uint16Bytes(t);
    if p.qos > 0 {
      Slice(w, at, |Body(p)|, 2 + t, 4 + t);
      Uint16Bytes(p.id);
    }
  }
}
