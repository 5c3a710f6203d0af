/** The UART side of the BLE bridge: the incremental H4 receiver of rx_isr against a parser of the
    whole byte stream, and the outgoing stream of tx_isr. Packet indicators are those of the
    Bluetooth Core Specification, Vol 4, Part A, section 2; header and length formats those of
    Vol 4, Part E, section 5.4. */
module H4 {
  import opened Bytes

  const CMD: u8 := 1
  const ACL: u8 := 2
  const ISO: u8 := 5

  /** A received packet: its indicator and header followed by payload. */
  datatype Packet = Packet(typ: u8, data: bytes)

  predicate ValidType(t: u8) {
    t == CMD || t == ACL || t == ISO
  }

  function HdrLen(t: u8): nat {
    if t == CMD then 3 else 4
  }

  /** Payload length announced by a complete header; an ISO length has 14 bits. */
  function GetLen(hdr: bytes, t: u8): nat
    requires |hdr| == HdrLen(t)
  {
    if t == CMD then hdr[2]
    else if t == ISO then FromLe16(hdr[2..4]) % 0x4000
    else FromLe16(hdr[2..4])
  }

  /** Bytes of the packet at the head of s, indicator included, once its header is there. */
  function Span(s: bytes): nat
    requires |s| > 0 && |s| >= 1 + HdrLen(s[0])
  {
    1 + HdrLen(s[0]) + GetLen(s[1..1 + HdrLen(s[0])], s[0])
  }

  // ---- The reference parser ------------------------------------------------------------------

  /** The Bluetooth stack's buffers: the tailroom one of each type has left behind its header, and whether
      the n-th request for one succeeds. */
  datatype Buffers = Buffers(room: u8 -> nat, gives: nat -> bool)

  /** Packets queued, the unfinished packet at the end, and how many buffers were asked for before it. */
  datatype Parsed = Parsed(packets: seq<Packet>, rest: bytes, asked: nat)

  /** The packets of a byte stream whose payload fits. A packet whose buffer is refused is forgotten after
      its header: the parser goes on with its payload as if packets started there. */
  function Parse(pool: Buffers, k: nat, s: bytes): (r: Parsed)
    ensures |r.rest| <= |s|
    decreases |s|
  {
    if |s| == 0 then Parsed([], [], k)
    else if !ValidType(s[0]) then Parse(pool, k, s[1..])
    else if |s| < 1 + HdrLen(s[0]) then Parsed([], s, k)
    else if !pool.gives(k) then Parse(pool, k + 1, s[1 + HdrLen(s[0])..])
    else if |s| < Span(s) then Parsed([], s, k)
    else
      var r := Parse(pool, k + 1, s[Span(s)..]);
      r.(packets := Kept(pool, s[0], s[1..Span(s)]) + r.packets)
  }

  /** The packet, unless its payload exceeds the tailroom. */
  function Kept(pool: Buffers, t: u8, data: bytes): seq<Packet>
    requires |data| >= HdrLen(t)
  {
    if |data| - HdrLen(t) <= pool.room(t) then [Packet(t, data)] else []
  }

  lemma SpanAppend(s: bytes, x: bytes)
    requires |s| > 0 && |s| >= 1 + HdrLen(s[0])
    ensures (s + x)[0] == s[0] && Span(s + x) == Span(s)
    ensures (s + x)[1 + HdrLen(s[0])..] == s[1 + HdrLen(s[0])..] + x
    ensures |s| >= Span(s) ==> (s + x)[1..Span(s)] == s[1..Span(s)] && (s + x)[Span(s)..] == s[Span(s)..] + x
  {
    assert (s + x)[1..1 + HdrLen(s[0])] == s[1..1 + HdrLen(s[0])];
  }

  /** Parsing continues from the unfinished rest: nothing else of the past matters. */
  lemma {:induction false} ParseAppend(pool: Buffers, k: nat, s: bytes, x: bytes)
    ensures var a := Parse(pool, k, s);
            var b := Parse(pool, a.asked, a.rest + x);
            Parse(pool, k, s + x) == b.(packets := a.packets + b.packets)
    decreases |s|
  {
    hide GetLen;
    hide Kept;
    hide FromLe16;
    var all := Parse(pool, k, s + x);
    if |s| == 0 {
      assert s + x == x && [] + x == x;
      assert [] + all.packets == all.packets;
    } else if !ValidType(s[0]) {
      ParseAppend(pool, k, s[1..], x);
      assert (s + x)[1..] == s[1..] + x;
    } else if |s| < 1 + HdrLen(s[0]) {
      assert [] + all.packets == all.packets;
    } else {
      SpanAppend(s, x);
      if !pool.gives(k) {
        ParseAppend(pool, k + 1, s[1 + HdrLen(s[0])..], x);
      } else if |s| < Span(s) {
        assert [] + all.packets == all.packets;
      } else {
        var t := s[Span(s)..];
        ParseAppend(pool, k + 1, t, x);
        var p, a := Kept(pool, s[0], s[1..Span(s)]), Parse(pool, k + 1, t);
        var b := Parse(pool, a.asked, a.rest + x);
        assert all.packets == p + Parse(pool, k + 1, t + x).packets;
        assert p + (a.packets + b.packets) == (p + a.packets) + b.packets;
      }
    }
  }

  /** The header of a packet, alone. */
  lemma HeaderDone(pool: Buffers, t: u8, hdr: bytes)
    requires ValidType(t) && |hdr| == HdrLen(t)
    ensures var s := [t] + hdr;
            && s[1..] == hdr && hdr[..HdrLen(t)] == hdr && Span(s) == |s| + GetLen(hdr, t)
            && (if GetLen(hdr, t) == 0 then Whole(s) else Unfinished(s))
            && Kept(pool, t, hdr) == [Packet(t, hdr)]
  {
    var s := [t] + hdr;
    assert s[1..1 + HdrLen(t)] == hdr;
  }

  predicate HeaderThere(s: bytes) {
    |s| > 0 && ValidType(s[0]) && |s| >= 1 + HdrLen(s[0])
  }

  /** A packet s whose header, or with its header whose payload, is not all there. */
  predicate Unfinished(s: bytes) {
    |s| > 0 && ValidType(s[0]) && (|s| < 1 + HdrLen(s[0]) || |s| < Span(s))
  }

  predicate Whole(s: bytes) {
    HeaderThere(s) && |s| == Span(s)
  }

  lemma ParseWhole(pool: Buffers, k: nat, s: bytes)
    requires Whole(s) && pool.gives(k)
    ensures Parse(pool, k, s) == Parsed(Kept(pool, s[0], s[1..]), [], k + 1)
  {
    assert s[|s|..] == [] && s[1..|s|] == s[1..];
    assert Kept(pool, s[0], s[1..]) + [] == Kept(pool, s[0], s[1..]);
  }

  /** The effect on the parse of the bytes b following c. */
  ghost predicate Fed(pool: Buffers, c: bytes, b: bytes) {
    var p := Parse(pool, 0, c);
    var r := p.rest + b;
    var q := Parse(pool, 0, c + b);
    && (Unfinished(r) && (HeaderThere(r) ==> pool.gives(p.asked)) ==> q == p.(rest := r))
    && (Whole(r) && pool.gives(p.asked) ==>
          q == Parsed(p.packets + Kept(pool, r[0], r[1..]), [], p.asked + 1))
    && (HeaderThere(r) && |r| == 1 + HdrLen(r[0]) && !pool.gives(p.asked) ==> q == Parsed(p.packets, [], p.asked + 1))
    && (r == [] || (|r| == 1 && !ValidType(r[0])) ==> q == p.(rest := []))
  }

  lemma Feed(pool: Buffers, c: bytes, b: bytes)
    ensures Fed(pool, c, b)
  {
    var p := Parse(pool, 0, c);
    var r := p.rest + b;
    ParseAppend(pool, 0, c, b);
    assert p.packets + [] == p.packets;
    if Whole(r) && pool.gives(p.asked) {
      ParseWhole(pool, p.asked, r);
    }
  }

  /** The parse p once the unfinished packet at its end has its whole header: it waits for its payload, is
      forgotten, or, without a payload, is complete. */
  ghost function AfterHeader(pool: Buffers, p: Parsed, t: u8, hdr: bytes): Parsed
    requires |hdr| == HdrLen(t)
  {
    if !pool.gives(p.asked) then Parsed(p.packets, [], p.asked + 1)
    else if GetLen(hdr, t) == 0 then Parsed(p.packets + [Packet(t, hdr)], [], p.asked + 1)
    else p.(rest := [t] + hdr)
  }

  lemma FeedHeader(pool: Buffers, c: bytes, b: bytes, t: u8, part: bytes)
    requires Fed(pool, c, b) && ValidType(t) && |part| <= HdrLen(t) && Parse(pool, 0, c).rest + b == [t] + part
    ensures var p := Parse(pool, 0, c);
            Parse(pool, 0, c + b) ==
              if |part| == HdrLen(t) then AfterHeader(pool, p, t, part) else p.(rest := [t] + part)
  {
    hide Parse;
    hide GetLen;
    if |part| == HdrLen(t) {
      HeaderDone(pool, t, part);
    }
  }

  // ---- Round trip ----------------------------------------------------------------------------

  /** A packet whose header announces the payload it carries. */
  ghost predicate WellFormed(p: Packet) {
    && ValidType(p.typ) && |p.data| >= HdrLen(p.typ)
    && |p.data| == HdrLen(p.typ) + GetLen(p.data[..HdrLen(p.typ)], p.typ)
  }

  function Encode(p: Packet): bytes {
    [p.typ] + p.data
  }

  /** A packet as its sender builds it: the two bytes in front of the length, and the payload. The upper two
      bits of an ISO length field are not part of the length. */
  datatype Built =
    | Command(opcode: u16, payload: bytes)
    | AclData(handle: u16, payload: bytes)
    | IsoData(handle: u16, flags: nat, payload: bytes)
  {
    /** The payload's length can be written in its field. */
    predicate Valid() {
      match this
      case Command(_, payload) => |payload| < 0x100
      case AclData(_, payload) => |payload| < 0x1_0000
      case IsoData(_, flags, payload) => |payload| < 0x4000 && flags < 4
    }

    function OnWire(): (b: bytes)
      requires Valid()
      ensures |b| > 0
    {
      match this
      case Command(opcode, payload) => [1] + Le16(opcode) + [|payload|] + payload
      case AclData(handle, payload) => [2] + Le16(handle) + Le16(|payload|) + payload
      case IsoData(handle, flags, payload) => [5] + Le16(handle) + Le16(|payload| + 0x4000 * flags) + payload
    }

    /** What is queued for it: indicator and the rest, unless a buffer of its type is too small. */
    function Received(pool: Buffers): seq<Packet>
      requires Valid()
    {
      if |payload| <= pool.room(OnWire()[0]) then [Packet(OnWire()[0], OnWire()[1..])] else []
    }
  }

  /** The length field of each header, for all its values. */
  lemma LengthFields(x: u8, y: u8, n: u16, flags: nat)
    requires flags < 4
    ensures n < 0x100 ==> HdrLen(1) == 3 && GetLen([x, y, n], 1) == n
    ensures HdrLen(2) == 4 && GetLen([x, y] + Le16(n), 2) == n
    ensures n < 0x4000 ==> HdrLen(5) == 4 && GetLen([x, y] + Le16(n + 0x4000 * flags), 5) == n
  {
    assert ([x, y] + Le16(n))[2..4] == Le16(n);
    if n < 0x4000 {
      assert ([x, y] + Le16(n + 0x4000 * flags))[2..4] == Le16(n + 0x4000 * flags);
    }
  }

  /** The packet built, as the parser sees it. */
  lemma BuiltIsWellFormed(b: Built) returns (p: Packet)
    requires b.Valid()
    ensures p == Packet(b.OnWire()[0], b.OnWire()[1..]) && b.OnWire() == Encode(p)
    ensures WellFormed(p) && p.data[HdrLen(p.typ)..] == b.payload
  {
    hide Le16;
    hide FromLe16;
    p := Packet(b.OnWire()[0], b.OnWire()[1..]);
    var h := Le16(if b.Command? then b.opcode else b.handle);
    LengthFields(h[0], h[1], |b.payload|, if b.IsoData? then b.flags else 0);
    match b
    case Command(_, _) => assert p.data[..3] == [h[0], h[1], |b.payload|];
    case AclData(_, _) => assert p.data[..4] == [h[0], h[1]] + Le16(|b.payload|);
    case IsoData(_, flags, _) => assert p.data[..4] == [h[0], h[1]] + Le16(|b.payload| + 0x4000 * flags);
  }

  /** How a well-formed packet was built. */
  lemma Build(p: Packet) returns (b: Built)
    requires WellFormed(p)
    ensures b.Valid() && b.OnWire() == Encode(p)
  {
    hide Le16;
    hide FromLe16;
    var n := HdrLen(p.typ);
    var h, payload := p.data[..n], p.data[n..];
    Le16Inverse(h[..2]);
    assert p.data == h + payload;
    if p.typ == CMD {
      b := Command(FromLe16(h[..2]), payload);
      assert h == h[..2] + [|payload|];
    } else {
      Le16Inverse(h[2..4]);
      assert h == h[..2] + h[2..4];
      var len := FromLe16(h[2..4]);
      b := if p.typ == ACL then AclData(FromLe16(h[..2]), payload)
           else IsoData(FromLe16(h[..2]), len / 0x4000, payload);
    }
  }

  /** The well-formed packets are those a sender can build. */
  lemma WellFormedExactly(p: Packet)
    ensures WellFormed(p) <==> exists b: Built :: b.Valid() && b.OnWire() == Encode(p)
  {
    hide WellFormed;
    hide Le16;
    if b: Built :| b.Valid() && b.OnWire() == Encode(p) {
      var q := BuiltIsWellFormed(b);
      assert Encode(p)[0] == Encode(q)[0] && Encode(p)[1..] == p.data && Encode(q)[1..] == q.data;
    }
    if WellFormed(p) {
      var b := Build(p);
    }
  }

  /** The bytes of a stream of packets. */
  function Stream(bs: seq<Built>): bytes
    requires forall b :: b in bs ==> b.Valid()
  {
    if |bs| == 0 then [] else bs[0].OnWire() + Stream(bs[1..])
  }

  function AllReceived(pool: Buffers, bs: seq<Built>): seq<Packet>
    requires forall b :: b in bs ==> b.Valid()
  {
    if |bs| == 0 then [] else bs[0].Received(pool) + AllReceived(pool, bs[1..])
  }

  /** A packet that gets a buffer is consumed exactly, whether it is kept or too long for it, and whatever
      follows is parsed as if it stood alone. Of one that gets none, only the header is. */
  lemma Resynchronises(pool: Buffers, k: nat, p: Packet, s: bytes)
    requires WellFormed(p)
    ensures var r := Parse(pool, k + 1, s);
            pool.gives(k) ==>
              Parse(pool, k, Encode(p) + s) == r.(packets := Kept(pool, p.typ, p.data) + r.packets)
    ensures !pool.gives(k) ==>
              Parse(pool, k, Encode(p) + s) == Parse(pool, k + 1, p.data[HdrLen(p.typ)..] + s)
  {
    var e := Encode(p);
    assert e[1..1 + HdrLen(p.typ)] == p.data[..HdrLen(p.typ)] && e[1..] == p.data;
    if pool.gives(k) {
      ParseWhole(pool, k, e);
      ParseAppend(pool, k, e, s);
      assert [] + s == s;
    } else {
      assert (e + s)[1 + HdrLen(p.typ)..] == p.data[HdrLen(p.typ)..] + s;
    }
  }

  /** The same for every packet a sender can build. A refused one leaves its payload to be parsed as if
      packets started there. */
  lemma BuiltResynchronises(pool: Buffers, k: nat, b: Built, s: bytes)
    requires b.Valid()
    ensures var r := Parse(pool, k + 1, s);
            pool.gives(k) ==> Parse(pool, k, b.OnWire() + s) == r.(packets := b.Received(pool) + r.packets)
    ensures !pool.gives(k) ==> Parse(pool, k, b.OnWire() + s) == Parse(pool, k + 1, b.payload + s)
  {
    hide Parse;
    hide GetLen;
    var p := BuiltIsWellFormed(b);
    KeptIs(pool, p);
    Resynchronises(pool, k, p, s);
  }

  /** A byte that is no packet indicator is skipped where a packet should start, and no other byte is. */
  lemma SkippedExactly(pool: Buffers, k: nat, t: u8)
    ensures t !in {1, 2, 5} ==> forall s: bytes :: Parse(pool, k, [t] + s) == Parse(pool, k, s)
    ensures t in {1, 2, 5} ==> Parse(pool, k, [t]).rest == [t]
  {
    if t !in {1, 2, 5} {
      forall s: bytes
        ensures Parse(pool, k, [t] + s) == Parse(pool, k, s)
      {
        assert ([t] + s)[1..] == s;
      }
    }
  }

  /** While buffers are given, parsing a stream of commands, ACL and ISO packets with any payloads their
      length fields can announce yields exactly those that fit their buffers, in order, with no rest. */
  lemma {:induction false} RoundTrip(pool: Buffers, k: nat, bs: seq<Built>)
    requires forall b :: b in bs ==> b.Valid()
    requires forall j :: k <= j < k + |bs| ==> pool.gives(j)
    ensures Parse(pool, k, Stream(bs)) == Parsed(AllReceived(pool, bs), [], k + |bs|)
    decreases |bs|
  {
    if |bs| > 0 {
      RoundTrip(pool, k + 1, bs[1..]);
      BuiltResynchronises(pool, k, bs[0], Stream(bs[1..]));
    }
  }

  /** Once every buffer is given, how many were asked for before does not matter. */
  lemma {:induction false} AskedIsIrrelevant(pool: Buffers, k: nat, k': nat, s: bytes)
    requires forall n :: n >= k || n >= k' ==> pool.gives(n)
    ensures var a, b := Parse(pool, k, s), Parse(pool, k', s);
            a.packets == b.packets && a.rest == b.rest && a.asked >= k && b.asked >= k'
    decreases |s|
  {
    hide GetLen;
    hide Kept;
    if |s| == 0 {
    } else if !ValidType(s[0]) {
      AskedIsIrrelevant(pool, k, k', s[1..]);
    } else if |s| >= 1 + HdrLen(s[0]) && |s| >= Span(s) {
      AskedIsIrrelevant(pool, k + 1, k' + 1, s[Span(s)..]);
    }
  }

  /** What Parse leaves as its rest is an unfinished packet. */
  lemma {:induction false} RestIsUnfinished(pool: Buffers, k: nat, s: bytes)
    requires forall n :: n >= k ==> pool.gives(n)
    ensures var r := Parse(pool, k, s);
            r.asked >= k && (r.rest == [] || Unfinished(r.rest))
    decreases |s|
  {
    hide GetLen;
    hide Kept;
    if |s| == 0 {
    } else if !ValidType(s[0]) {
      RestIsUnfinished(pool, k, s[1..]);
    } else if |s| >= 1 + HdrLen(s[0]) && |s| >= Span(s) {
      RestIsUnfinished(pool, k + 1, s[Span(s)..]);
    }
  }

  lemma {:induction false} ParseZeros(pool: Buffers, k: nat, s: bytes)
    requires forall i :: 0 <= i < |s| ==> s[i] == 0
    ensures Parse(pool, k, s) == Parsed([], [], k)
    decreases |s|
  {
    if |s| > 0 {
      ParseZeros(pool, k, s[1..]);
    }
  }

  /** The smallest command, in bytes 1, 0, 0, 0. */
  const NOP: Packet := Packet(CMD, [0, 0, 0])

  lemma ParseNop(pool: Buffers, k: nat)
    requires pool.gives(k)
    ensures WellFormed(NOP) && Encode(NOP) == [CMD, 0, 0, 0]
    ensures Parse(pool, k, Encode(NOP)).packets == [NOP]
  {
    var s := Encode(NOP);
    assert NOP.data[..3] == NOP.data && s[1..4] == NOP.data && s[1..] == NOP.data;
    ParseWhole(pool, k, s);
  }

  /** An unfinished packet swallows the beginning of the smallest command, and what is left of that is no
      packet. */
  lemma UnfinishedSwallows(pool: Buffers, k: nat, rest: bytes)
    requires Unfinished(rest) && pool.gives(k)
    ensures NOP !in Parse(pool, k, rest + Encode(NOP)).packets
  {
    hide GetLen;
    hide Kept;
    var u := rest + Encode(NOP);
    SwallowsInto(rest);
    if |u| >= Span(u) {
      ParseZeros(pool, k + 1, u[Span(u)..]);
      KeptIs(pool, Packet(u[0], u[1..Span(u)]));
    }
  }

  /** The packet the swallowed command ends up in is another one, and only zeros are left behind it. */
  lemma SwallowsInto(rest: bytes)
    requires Unfinished(rest)
    ensures var u := rest + Encode(NOP);
            && HeaderThere(u)
            && (|u| >= Span(u) ==>
                  Packet(u[0], u[1..Span(u)]) != NOP && forall i :: Span(u) <= i < |u| ==> u[i] == 0)
  {
    hide GetLen;
    var s := Encode(NOP);
    var u := rest + s;
    assert s == [CMD, 0, 0, 0];
    assert u[0] == rest[0] && u[|rest|] == CMD;
    assert forall i :: |rest| < i < |u| ==> u[i] == s[i - |rest|] == 0;
    if |rest| >= 1 + HdrLen(rest[0]) {
      SpanAppend(rest, s);
    }
    if |u| >= Span(u) {
      var x := u[1..Span(u)];
      if |rest| <= HdrLen(rest[0]) {
        assert x[|rest| - 1] == CMD;
      } else {
        assert |x| >= |rest| > HdrLen(rest[0]);
      }
    }
  }

  /** When a refused buffer costs no more than its own packet, whatever follows: exactly when its payload,
      read as a stream of its own, holds no packet and leaves none unfinished. */
  lemma RefusalIsHarmlessExactly(pool: Buffers, k: nat, p: Packet)
    requires WellFormed(p) && !pool.gives(k) && forall n :: n > k ==> pool.gives(n)
    ensures var r := Parse(pool, k + 1, p.data[HdrLen(p.typ)..]);
            (forall s :: Parse(pool, k, Encode(p) + s).packets == Parse(pool, k + 1, s).packets)
            <==> r.packets == [] && r.rest == []
  {
    hide Parse;
    hide WellFormed;
    var payload := PayloadOf(p);
    var r := Parse(pool, k + 1, payload);
    RestIsUnfinished(pool, k + 1, payload);
    forall s
      ensures Parse(pool, k, Encode(p) + s).packets == r.packets + Parse(pool, k + 1, r.rest + s).packets
    {
      Resynchronises(pool, k, p, s);
      ParseAppend(pool, k + 1, payload, s);
      AskedIsIrrelevant(pool, k + 1, r.asked, r.rest + s);
    }
    if r.packets == [] && r.rest == [] {
      forall s: bytes
        ensures r.packets + Parse(pool, k + 1, r.rest + s).packets == Parse(pool, k + 1, s).packets
      {
        assert [] + s == s;
      }
    } else {
      Distinguished(pool, k, p, r);
    }
  }

  function PayloadOf(p: Packet): bytes
    requires WellFormed(p)
  {
    p.data[HdrLen(p.typ)..]
  }

  /** Nothing, or the smallest command, tells such a refusal from a clean one. */
  lemma Distinguished(pool: Buffers, k: nat, p: Packet, r: Parsed)
    requires forall n :: n > k ==> pool.gives(n)
    requires r.packets != [] || Unfinished(r.rest)
    requires forall s :: Parse(pool, k, Encode(p) + s).packets == r.packets + Parse(pool, k + 1, r.rest + s).packets
    ensures exists s :: Parse(pool, k, Encode(p) + s).packets != Parse(pool, k + 1, s).packets
  {
    hide Parse;
    if r.packets != [] {
      ParseZeros(pool, k + 1, []);
      assert Parse(pool, k, Encode(p) + []).packets != Parse(pool, k + 1, []).packets;
    } else {
      var s := Encode(NOP);
      ParseNop(pool, k + 1);
      UnfinishedSwallows(pool, k + 1, r.rest);
      assert NOP in Parse(pool, k + 1, s).packets;
      assert NOP !in Parse(pool, k, Encode(p) + s).packets;
    }
  }

  /** It happens: the payload of this refused command reads as the beginning of another one, which swallows
      the command that follows although that could have a buffer. */
  lemma RefusalDisturbs(pool: Buffers, k: nat)
    requires !pool.gives(k) && forall n :: n > k ==> pool.gives(n)
    ensures var p := Packet(CMD, [0, 0, 3, CMD, 0, 0]);
            && WellFormed(p)
            && (exists s :: Parse(pool, k, Encode(p) + s).packets != Parse(pool, k + 1, s).packets)
            && Parse(pool, k + 1, Encode(NOP)).packets == [NOP]
            && NOP !in Parse(pool, k, Encode(p) + Encode(NOP)).packets
  {
    hide Parse;
    var p := Packet(CMD, [0, 0, 3, CMD, 0, 0]);
    assert p.data[..3] == [0, 0, 3] && p.data[3..] == [CMD, 0, 0];
    ParseNop(pool, k + 1);
    Resynchronises(pool, k, p, Encode(NOP));
    UnfinishedSwallows(pool, k + 1, [CMD, 0, 0]);
    assert NOP in [NOP];
  }

  lemma KeptIs(pool: Buffers, p: Packet)
    requires |p.data| >= HdrLen(p.typ)
    ensures Kept(pool, p.typ, p.data) == if |p.data| - HdrLen(p.typ) <= pool.room(p.typ) then [p] else []
  {
  }

  /** Whatever bytes arrive and whatever is refused, every packet queued is well formed and fits its
      buffer. */
  lemma {:induction false} ParsedAreWellFormed(pool: Buffers, k: nat, s: bytes)
    ensures forall i :: 0 <= i < |Parse(pool, k, s).packets| ==>
              var p := Parse(pool, k, s).packets[i];
              WellFormed(p) && |p.data| <= HdrLen(p.typ) + pool.room(p.typ)
    decreases |s|
  {
    if |s| == 0 {
    } else if !ValidType(s[0]) {
      ParsedAreWellFormed(pool, k, s[1..]);
    } else if |s| >= 1 + HdrLen(s[0]) {
      if !pool.gives(k) {
        ParsedAreWellFormed(pool, k + 1, s[1 + HdrLen(s[0])..]);
      } else if |s| >= Span(s) {
        var n := Span(s);
        ParsedAreWellFormed(pool, k + 1, s[n..]);
        assert s[1..n][..HdrLen(s[0])] == s[1..1 + HdrLen(s[0])];
      }
    }
  }

  // ---- The receiver --------------------------------------------------------------------------

  /** The receive FIFO of the UART: a read returns any number of the bytes available up to the limit,
      at least one if there is one. */
  class Uart {
    var pending: bytes

    constructor (pending: bytes)
      ensures this.pending == pending
    {
      this.pending := pending;
    }

    method Read(limit: nat) returns (b: bytes)
      modifies this
      ensures old(pending) == b + pending && |b| <= limit
      ensures limit > 0 && old(pending) != [] ==> |b| > 0
    {
      var most := Min(limit, |pending|);
      assert 0 <= most <= most;
      var n: nat :| n <= most && (most > 0 ==> n > 0);
      b := pending[..n];
      pending := pending[n..];
    }
  }

  datatype RxState = Idle | Header | Payload | Discard

  const DISCARD_LEN: nat := 33

  /** The machine's variables describe the unfinished packet r; k buffers were asked for before it and
      asked in all. */
  ghost predicate Describes(
      pool: Buffers, state: RxState, typ: u8, remaining: nat, hdrBuf: bytes, buf: bytes, asked: nat, r: bytes, k: nat)
    requires |hdrBuf| == 4
  {
    match state
    case Idle => r == [] && asked == k
    case Header =>
      && ValidType(typ) && 0 < remaining <= HdrLen(typ) && asked == k
      && r == [typ] + hdrBuf[..HdrLen(typ) - remaining]
    case Payload =>
      && ValidType(typ) && |buf| >= HdrLen(typ) && |buf| - HdrLen(typ) + remaining <= pool.room(typ)
      && |buf| + remaining == HdrLen(typ) + GetLen(buf[..HdrLen(typ)], typ)
      && (if remaining > 0 then r == [typ] + buf && asked == k + 1 && pool.gives(k)
          else r == [] && asked == k && |buf| == HdrLen(typ))
    case Discard =>
      && ValidType(typ) && |r| >= 1 + HdrLen(typ) && r[0] == typ && remaining > 0
      && |r| + remaining == Span(r) && Span(r) - 1 - HdrLen(typ) > pool.room(typ)
      && asked == k + 1 && pool.gives(k)
  }

  /** Payload bytes b behind a header and some payload, as many as are still missing or fewer. */
  lemma FeedPayload(pool: Buffers, c: bytes, b: bytes, t: u8, buf: bytes)
    requires Fed(pool, c, b) && ValidType(t) && |buf| >= HdrLen(t)
    requires Parse(pool, 0, c).rest == [t] + buf && pool.gives(Parse(pool, 0, c).asked)
    requires var n := HdrLen(t) + GetLen(buf[..HdrLen(t)], t); |buf + b| <= n && n - HdrLen(t) <= pool.room(t)
    ensures (buf + b)[..HdrLen(t)] == buf[..HdrLen(t)]
    ensures var p := Parse(pool, 0, c);
            Parse(pool, 0, c + b) ==
              if |buf + b| < HdrLen(t) + GetLen(buf[..HdrLen(t)], t) then p.(rest := [t] + (buf + b))
              else Parsed(p.packets + [Packet(t, buf + b)], [], p.asked + 1)
  {
    hide Parse;
    hide GetLen;
    var s := [t] + (buf + b);
    assert ([t] + buf) + b == s && s[1..] == buf + b;
    assert s[1..1 + HdrLen(t)] == buf[..HdrLen(t)];
    KeptIs(pool, Packet(t, buf + b));
  }

  class Receiver {
    const uart: Uart
    const pool: Buffers
    /** How many buffers were asked for. */
    var asked: nat

    // The static variables of rx_isr.
    var state: RxState
    var typ: u8
    var remaining: nat
    const hdrBuf: array<u8>
    var buf: bytes

    /** tx_queue, towards the Bluetooth stack. */
    var queue: seq<Packet>

    /** Every byte read so far. */
    ghost var consumed: bytes

    constructor (uart: Uart, pool: Buffers)
      ensures Settled() && fresh(hdrBuf)
      ensures this.uart == uart && this.pool == pool && queue == [] && consumed == []
    {
      this.uart := uart;
      this.pool := pool;
      asked, state, typ, remaining, buf := 0, Idle, 0, 0, [];
      hdrBuf := new u8[4];
      queue, consumed := [], [];
    }

    /** A packet that is complete but not yet queued. */
    ghost function Completed(): seq<Packet>
      reads this
    {
      if state.Payload? && remaining == 0 then [Packet(typ, buf)] else []
    }

    /** The queue and the machine's variables are exactly what the parser makes of the bytes read. */
    ghost predicate Valid()
      reads this, hdrBuf
    {
      var p := Parse(pool, 0, consumed);
      && hdrBuf.Length == 4
      && p.packets == queue + Completed()
      && Describes(pool, state, typ, remaining, hdrBuf[..], buf, asked, p.rest, p.asked)
    }

    /** Between interrupts nothing complete is held back. */
    ghost predicate Settled()
      reads this, hdrBuf
    {
      Valid() && Completed() == []
    }

    /** h4_read, with what the bytes read do to the parse. */
    method Take(limit: nat) returns (b: bytes)
      modifies uart, this`consumed
      ensures old(uart.pending) == b + uart.pending && |b| <= limit
      ensures consumed == old(consumed) + b && consumed + uart.pending == old(consumed + uart.pending)
      ensures limit > 0 && old(uart.pending) != [] ==> |b| > 0
      ensures Fed(pool, old(consumed), b)
    {
      b := uart.Read(limit);
      Assoc(consumed, b, uart.pending);
      Feed(pool, consumed, b);
      consumed := consumed + b;
    }

    method ReadType() returns (read: nat)
      requires Valid() && state.Idle?
      modifies this, uart
      ensures Valid() && consumed + uart.pending == old(consumed + uart.pending)
      ensures read == |old(uart.pending)| - |uart.pending|
      ensures old(uart.pending) != [] ==> read > 0
      ensures Completed() == []
    {
      hide Parse;
      var b := Take(1);
      read := |b|;
      assert [] + b == b;
      if read > 0 {
        typ := b[0];
        if ValidType(typ) {
          remaining := HdrLen(typ);
          state := Header;
          assert b == [typ] + hdrBuf[..][..0];
        }
      }
    }

    method StoreHeader(at: nat, b: bytes)
      requires at + |b| <= hdrBuf.Length
      modifies hdrBuf
      ensures hdrBuf[..at + |b|] == old(hdrBuf[..at]) + b
    {
      forall i | 0 <= i < |b| {
        hdrBuf[at + i] := b[i];
      }
    }

    /** h4_read into the header buffer, behind the part already there. */
    method TakeHeader() returns (read: nat)
      requires Valid() && state.Header?
      modifies uart, this`consumed, this`remaining, hdrBuf
      ensures consumed + uart.pending == old(consumed + uart.pending)
      ensures read == |old(uart.pending)| - |uart.pending| && remaining == old(remaining) - read
      ensures old(uart.pending) != [] ==> read > 0
      ensures var was, part := old(Parse(pool, 0, consumed)), hdrBuf[..HdrLen(typ) - remaining];
              Parse(pool, 0, consumed) ==
                if remaining == 0 then AfterHeader(pool, was, typ, part) else was.(rest := [typ] + part)
    {
      hide Parse;
      hide AfterHeader;
      hide Fed;
      hide GetLen;
      hide Span;
      ghost var before := consumed;
      var at := HdrLen(typ) - remaining;
      ghost var part := hdrBuf[..at];
      var b := Take(remaining);
      read := |b|;
      StoreHeader(at, b);
      remaining := remaining - read;
      assert ([typ] + part) + b == [typ] + (part + b);
      FeedHeader(pool, before, b, typ, part + b);
    }

    /** The header is complete: ask for a buffer, then read the payload or, if it exceeds the tailroom,
        discard it. Without a buffer the machine is reset. before is what was parsed without this header. */
    method BeginPayload(ghost before: Parsed) returns (given: bool)
      requires hdrBuf.Length == 4 && ValidType(typ) && asked == before.asked && queue == before.packets
      requires Parse(pool, 0, consumed) == AfterHeader(pool, before, typ, hdrBuf[..HdrLen(typ)])
      modifies this`state, this`remaining, this`buf, this`asked
      ensures Valid() && asked == old(asked) + 1 && given == pool.gives(old(asked))
      ensures !given ==> state.Idle?
    {
      hide Parse;
      hide GetLen;
      given := pool.gives(asked);
      asked := asked + 1;
      if !given {
        state := Idle;
        return;
      }
      buf := hdrBuf[..HdrLen(typ)];
      HeaderDone(pool, typ, buf);
      remaining := GetLen(buf, typ);
      if remaining > pool.room(typ) {
        buf := [];
        state := Discard;
      } else {
        state := Payload;
      }
    }

    /** ok is false where the interrupt is left because no buffer was given. */
    method ReadHeader() returns (read: nat, ok: bool)
      requires Valid() && state.Header?
      modifies this, uart, hdrBuf
      ensures Valid() && consumed + uart.pending == old(consumed + uart.pending)
      ensures read == |old(uart.pending)| - |uart.pending|
      ensures old(uart.pending) != [] ==> read > 0
      ensures Completed() != [] ==> read > 0
      ensures !ok ==> read > 0 && state.Idle? && asked == old(asked) + 1 && !pool.gives(old(asked))
    {
      hide Parse;
      hide AfterHeader;
      ghost var was := Parse(pool, 0, consumed);
      read := TakeHeader();
      ok := true;
      if remaining == 0 {
        ok := BeginPayload(was);
      }
    }

    method ReadPayload() returns (read: nat)
      requires Valid() && state.Payload?
      modifies this, uart
      ensures Settled() && consumed + uart.pending == old(consumed + uart.pending)
      ensures read == |old(uart.pending)| - |uart.pending|
      ensures old(uart.pending) != [] && old(remaining) > 0 ==> read > 0
      ensures read == 0 && old(uart.pending) != [] ==> state.Idle? && LastWasEmpty()
    {
      hide Parse;
      hide GetLen;
      hide Fed;
      hide Span;
      ghost var before := consumed;
      var b := Take(remaining);
      read := |b|;
      if remaining > 0 {
        FeedPayload(pool, before, b, typ, buf);
      } else {
        assert consumed == before && buf + b == buf;
      }
      buf := buf + b;
      remaining := remaining - read;
      if remaining == 0 {
        queue := queue + [Packet(typ, buf)];
        assert queue[|queue| - 1] == Packet(typ, buf);
        state := Idle;
      }
    }

    method ReadDiscard() returns (read: nat)
      requires Valid() && state.Discard?
      modifies this, uart
      ensures Settled() && consumed + uart.pending == old(consumed + uart.pending)
      ensures read == |old(uart.pending)| - |uart.pending| <= 33
      ensures old(uart.pending) != [] ==> read > 0
    {
      hide Parse;
      ghost var r := Parse(pool, 0, consumed).rest;
      var b := Take(Min(remaining, DISCARD_LEN));
      read := |b|;
      remaining := remaining - read;
      SpanAppend(r, b);
      if remaining == 0 {
        state := Idle;
      }
    }

    /** The packet queued last has no payload. */
    ghost predicate LastWasEmpty()
      reads this
    {
      queue != [] && |queue[|queue| - 1].data| == HdrLen(queue[|queue| - 1].typ)
    }

    /** One receive interrupt. It may leave bytes in the FIFO: a zero-length payload ends the loop, and so
        does a refused buffer. */
    method RxIsr()
      requires Settled()
      modifies this, uart, hdrBuf
      ensures Settled() && consumed + uart.pending == old(consumed + uart.pending)
      ensures old(uart.pending) != [] ==> |uart.pending| < |old(uart.pending)|
      ensures uart.pending != [] ==> state.Idle? && (LastWasEmpty() || (asked > 0 && !pool.gives(asked - 1)))
    {
      hide Parse;
      hide Describes;
      var read: nat := 1;
      while read > 0
        invariant Valid() && consumed + uart.pending == old(consumed + uart.pending)
        invariant Completed() != [] ==> read > 0
        invariant |uart.pending| <= |old(uart.pending)|
        invariant read == 0 && uart.pending != [] ==> state.Idle? && LastWasEmpty()
        invariant |uart.pending| < |old(uart.pending)| || old(uart.pending) == [] || (read > 0 && Completed() == [])
        decreases |uart.pending|, read
      {
        ghost var before := |uart.pending|;
        match state {
          case Idle => read := ReadType();
          case Header =>
            var ok: bool;
            read, ok := ReadHeader();
            if !ok {
              return;
            }
          case Payload => read := ReadPayload();
          case Discard => read := ReadDiscard();
        }
      }
    }

    /** The receive half of bt_uart_isr: interrupts until the FIFO is empty. For every byte stream and
        every pattern of short reads and refused buffers the queue is what the parser makes of the whole
        stream. */
    method HandleRx()
      requires Settled()
      modifies this, uart, hdrBuf
      ensures Settled() && uart.pending == [] && consumed == old(consumed) + old(uart.pending)
      ensures queue == Parse(pool, 0, old(consumed) + old(uart.pending)).packets
    {
      while uart.pending != []
        invariant Settled() && consumed + uart.pending == old(consumed + uart.pending)
        decreases |uart.pending|
      {
        RxIsr();
      }
      assert consumed + [] == consumed;
    }
  }

  // ---- The outgoing stream -------------------------------------------------------------------

  class Sender {
    /** uart_tx_queue and the buffer tx_isr is working on. */
    var queue: seq<bytes>
    var buf: Option<bytes>
    var irqEnabled: bool
    var written: bytes

    /** Every buffer ever passed to h4_send, in order. */
    ghost var submitted: seq<bytes>

    constructor ()
      ensures Valid() && submitted == [] && written == []
    {
      queue, buf, irqEnabled, written := [], None, false, [];
      submitted := [];
    }

    ghost function Current(): bytes
      reads this
    {
      if buf.Some? then buf.value else []
    }

    /** What is on the wire, then the current buffer, then the queue are together the buffers in the
        order they were sent, and the interrupt is only off when nothing waits. */
    ghost predicate Valid()
      reads this
    {
      && written + Current() + Concat(queue) == Concat(submitted)
      && (!irqEnabled ==> buf.None? && queue == [])
    }

    /** h4_send. */
    method Send(b: bytes)
      requires Valid()
      modifies this
      ensures Valid() && submitted == old(submitted) + [b]
      ensures queue == old(queue) + [b] && irqEnabled && buf == old(buf) && written == old(written)
    {
      ConcatAppend(queue, [b]);
      ConcatAppend(submitted, [b]);
      Assoc(written + Current(), Concat(queue), Concat([b]));
      queue := queue + [b];
      submitted := submitted + [b];
      irqEnabled := true;
    }

    /** uart_fifo_fill: of the bytes offered the UART takes as many as it has space for. */
    method Fill(b: bytes, space: nat) returns (n: nat)
      modifies this`written
      ensures n == Min(space, |b|) && written == old(written) + b[..n]
    {
      n := Min(space, |b|);
      written := written + b[..n];
    }

    /** One transmit interrupt, with any space in the UART: the current buffer, or else the head of the
        queue, loses what the UART takes, and is released once it is empty. */
    method TxIsr(space: nat)
      requires Valid()
      modifies this
      ensures Valid() && submitted == old(submitted)
      ensures queue == if old(buf).None? && old(queue) != [] then old(queue)[1..] else old(queue)
      ensures var b := if old(queue) != [] && old(buf).None? then old(queue)[0] else old(Current());
              var n := Min(space, |b|);
              written == old(written) + b[..n] && buf == if n == |b| then None else Some(b[n..])
      ensures irqEnabled == (old(irqEnabled) && (old(buf).Some? || old(queue) != []))
      ensures old(written) <= written <= Concat(submitted)
      ensures !irqEnabled ==> written == Concat(submitted)
    {
      hide Concat;
      if buf.None? {
        if queue == [] {
          irqEnabled := false;
          NothingLeft(written, Concat(submitted));
          return;
        }
        HeadLeaves(written, queue);
        buf, queue := Some(queue[0]), queue[1..];
      }
      var b := buf.value;
      var n := Fill(b, space);
      BytesLeave(old(written), b, n, Concat(queue));
      buf := if n == |b| then None else Some(b[n..]);
    }
  }

  lemma NothingLeft(w: bytes, all: bytes)
    ensures (w + []) + Concat([]) == all ==> w == all
  {
  }

  lemma HeadLeaves(w: bytes, queue: seq<bytes>)
    requires queue != []
    ensures (w + queue[0]) + Concat(queue[1..]) == (w + []) + Concat(queue)
  {
  }

  /** Of b, the next bytes to go after w, n have gone. */
  lemma BytesLeave(w: bytes, b: bytes, n: nat, rest: bytes)
    requires n <= |b|
    ensures ((w + b[..n]) + b[n..]) + rest == (w + b) + rest
    ensures n == |b| ==> b[n..] == []
    ensures w <= w + b[..n] <= (w + b) + rest
  {
    assert b == b[..n] + b[n..];
  }
}
