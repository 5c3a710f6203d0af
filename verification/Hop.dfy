/** A whole hop: a message written over BLE, handed up at a device, forwarded by its router and written over
    DECT to the device its header names. */
module Hop {
  import opened Bytes
  import opened Reassembly
  import opened Fragmentation
  import opened Wire
  import opened StopAndWait
  import opened Routing
  import opened AlfieRouter
  import opened Stack
  import Protocol
  import Transport

  /** The write call a hand-up causes: to the destination in its header, unless there is no room for one. */
  function ForwardedOne(h: HandUp): seq<WriteCall> {
    if |h.data| >= HEADER_SIZE then [WriteCall(DstId(h.data), h.data)] else []
  }

  /** The write calls the router makes on each DECT transport for what the BLE service hands up. */
  function Forwarded(got: seq<HandUp>): seq<WriteCall> {
    if |got| == 0 then [] else ForwardedOne(got[0]) + Forwarded(got[1..])
  }

  /** Hand-ups are forwarded one by one and in order. */
  lemma {:induction false} ForwardedAppend(a: seq<HandUp>, b: seq<HandUp>)
    ensures Forwarded(a + b) == Forwarded(a) + Forwarded(b)
  {
    hide ForwardedOne;
    if |a| == 0 {
      assert a + b == b;
    } else {
      ForwardedAppend(a[1..], b);
      assert (a + b)[1..] == a[1..] + b;
    }
  }

  /** A message with a whole header goes to the destination there, whoever sent it; a shorter one goes
      nowhere. */
  lemma ForwardedWhere(s: Option<u32>, e: u8, src: u32, dst: u32, rest: bytes, short: bytes)
    requires |short| < 10
    ensures var data := [0, e] + Le32(src) + Le32(dst) + rest;
            Forwarded([HandUp(s, data)]) == [WriteCall(dst, data)]
    ensures Forwarded([HandUp(s, short)]) == []
  {
    hide Le32;
    hide DstId;
    HeaderFields(e, src, dst, rest);
  }

  // ---- Through the device --------------------------------------------------------------------

  /** What a data frame adds to the router's work. */
  lemma HandedIsForwarded(
      fifo: seq<nat>, slots: seq<Slot>, now: u32, f: Reassembly.Frame, fifo': seq<nat>, slots': seq<Slot>)
    requires PoolOk(slots) && Queued(fifo, slots) && Queued(fifo', slots')
    requires Transport.Handed(Receive(slots, now, None, f), true, fifo, fifo', slots')
    ensures Calls(fifo', slots') == Calls(fifo, slots) + Forwarded(GivenBy(Receive(slots, now, None, f)))
  {
    hide Receive;
    var o := Receive(slots, now, None, f);
    Transport.FrameKeepsQueue(fifo, slots, now, None, f);
    forall i | i in fifo
      ensures o.slots[i] == slots[i] && o.done != Some(i)
    {
      ReceiveRefs(slots, now, None, f, i);
    }
    assert Forwarded([]) == [];
    var a, b := Calls(fifo, slots), Calls(fifo', slots');
    forall k | 0 <= k < |fifo|
      ensures k < |fifo'| && b[k] == a[k]
    {
      assert fifo[k] in fifo && fifo'[k] in fifo';
    }
    if fifo' != fifo {
      assert fifo'[|fifo|] in fifo';
    }
  }

  function GivenBy(o: Outcome): seq<HandUp>
    requires o.done.Some? ==> o.done.value < |o.slots| && o.slots[o.done.value].buf.Some?
  {
    if o.done.Some? then [Given(o.slots, o.done.value, false)] else []
  }

  /** A frame of the phone reaches the device: what the router then owes each DECT transport has grown by
      what the frame made the BLE service hand up. */
  method HearFrame(ble: Transport.Transport, buf: bytes, now: u32) returns (rejected: bool)
    requires ble.Valid() && ble.layout.Ble? && ble.registered
    modifies ble`acks, ble`ackSem, ble.pool.contexts, ble.pool.bufferPool
    modifies ble.router`fromUpstream, ble.router`fromDownstream
    ensures ble.Valid()
    ensures Calls(ble.router.fromUpstream, ble.pool.View())
         == old(Calls(ble.router.fromUpstream, ble.pool.View())) + HandedBy(old(ble.pool.View()), buf, now)
  {
    hide Receive;
    hide Queued;
    hide Calls;
    hide Forwarded;
    hide GivenBy;
    hide DecodeData;
    hide PoolOk;
    hide Transport.Handed;
    ghost var fifo, slots := ble.router.fromUpstream, ble.pool.View();
    ghost var before := Calls(fifo, slots);
    rejected := ble.OnRx(0, buf, now);
    if IsData(buf) {
      HandedIsForwarded(fifo, slots, now, DecodeData(Ble, buf), ble.router.fromUpstream, ble.pool.View());
    } else {
      assert before + [] == before;
    }
  }

  /** The write calls that come of the bytes of one BLE frame. */
  function HandedBy(slots: seq<Slot>, buf: bytes, now: u32): seq<WriteCall>
    requires PoolOk(slots)
  {
    if IsData(buf) then Forwarded(GivenBy(Receive(slots, now, None, DecodeData(Ble, buf)))) else []
  }

  /** A frame of the phone reaches the device, and the router's thread works until there is nothing left:
      every DECT transport is asked to write exactly what the frame made the BLE service hand up, after
      what was queued before. */
  method RelayFrame(ble: Transport.Transport, buf: bytes, now: u32) returns (rejected: bool)
    requires ble.Valid() && ble.layout.Ble? && ble.registered
    modifies ble`acks, ble`ackSem, ble.pool.contexts, ble.pool.bufferPool
    modifies ble.router`fromUpstream, ble.router`fromDownstream, ble.router`sent, ble.router`notified
    modifies ble.router.up.contexts, ble.router.up.bufferPool`bufs
    modifies ble.router.down.contexts, ble.router.down.bufferPool`bufs
    ensures ble.Valid() && ble.router.fromUpstream == [] && ble.router.fromDownstream == []
    ensures forall k :: 0 <= k < |ble.router.transports| && ble.router.transports[k].Downstream? ==>
              ble.router.sent[k] == old(ble.router.sent[k] + ble.router.Due(k))
                                  + HandedBy(old(ble.pool.View()), buf, now)
  {
    hide HandedBy;
    hide Queued;
    hide Calls;
    hide PoolOk;
    ghost var due, more := Calls(ble.router.fromUpstream, ble.pool.View()), HandedBy(ble.pool.View(), buf, now);
    rejected := HearFrame(ble, buf, now);
    forall k | 0 <= k < |ble.router.transports| && ble.router.transports[k].Downstream?
      ensures ble.router.sent[k] + ble.router.Due(k) == old(ble.router.sent[k] + ble.router.Due(k)) + more
    {
      Regroup(ble.router.sent[k], due, more);
    }
    ble.router.Drain();
  }

  lemma Regroup(a: seq<WriteCall>, b: seq<WriteCall>, c: seq<WriteCall>)
    ensures a + (b + c) == (a + b) + c
  {
  }

  // ---- From phone to device ------------------------------------------------------------------

  /** One write on the DECT side: the message with its own sequence id, and what its channel does. */
  datatype Leg = Leg(m: Message, ch: Channel, path: Path)

  /** A leg carries the write call of these data out of device relay. */
  ghost predicate LegFor(leg: Leg, data: bytes, relay: u32) {
    && FromDect(leg.m, relay) && leg.m.data == data && |data| >= HEADER_SIZE
    && leg.path.Valid() && leg.path.src == relay && leg.path.dst == DstId(data)
    && leg.ch.Valid() && leg.ch.Apart(leg.m)
  }

  /** Each leg's message is unknown to the next device when it is sent. */
  ghost predicate Prepared(w: World, legs: seq<Leg>, data: bytes, relay: u32)
    requires PoolOk(w.slots)
    decreases |legs|
  {
    |legs| > 0 ==>
      && LegFor(legs[0], data, relay) && Idle(w.slots, legs[0].m)
      && Prepared(AirFrom(w, legs[0].m, 0, legs[0].ch, legs[0].path).0, legs[1..], data, relay)
  }

  /** The next device after the legs, one write after the other. */
  ghost function Onward(w: World, legs: seq<Leg>, data: bytes, relay: u32): World
    requires PoolOk(w.slots) && Prepared(w, legs, data, relay)
    decreases |legs|
  {
    if |legs| == 0 then w
    else Onward(AirFrom(w, legs[0].m, 0, legs[0].ch, legs[0].path).0, legs[1..], data, relay)
  }

  ghost function OnwardReceipts(w: World, legs: seq<Leg>, data: bytes, relay: u32): seq<HandUp>
    requires PoolOk(w.slots) && Prepared(w, legs, data, relay)
    decreases |legs|
  {
    if |legs| == 0 then []
    else
      Receipts(w, legs[0].m, legs[0].ch)
      + OnwardReceipts(AirFrom(w, legs[0].m, 0, legs[0].ch, legs[0].path).0, legs[1..], data, relay)
  }

  lemma {:induction false} OnwardOutcome(w: World, legs: seq<Leg>, data: bytes, relay: u32)
    requires PoolOk(w.slots) && Prepared(w, legs, data, relay)
    ensures Onward(w, legs, data, relay).got == w.got + OnwardReceipts(w, legs, data, relay)
    ensures forall h :: h in OnwardReceipts(w, legs, data, relay) ==> h == HandUp(Some(relay), data)
    decreases |legs|
  {
    hide AirFrom;
    hide Receipts;
    hide Reported;
    hide Idle;
    hide FromDect;
    hide DstId;
    hide PoolOk;
    if |legs| > 0 {
      var leg := legs[0];
      AirOutcome(w, leg.m, leg.ch, leg.path);
      OnwardOutcome(AirFrom(w, leg.m, 0, leg.ch, leg.path).0, legs[1..], data, relay);
    }
  }

  lemma {:induction false} ForwardedAll(got: seq<HandUp>, data: bytes)
    requires |data| >= HEADER_SIZE && forall h :: h in got ==> h.data == data
    ensures |Forwarded(got)| == |got| && forall c :: c in Forwarded(got) ==> c == WriteCall(DstId(data), data)
  {
    if |got| > 0 {
      ForwardedAll(got[1..], data);
    }
  }

  /** The whole hop, over every two lossy links: what a phone writes to a device is forwarded as often as it
      is handed up there, each time to the destination in its header, and the next device is given exactly
      the phone's bytes with the relaying device's address, as often as the transfer theorems say for those
      writes; nothing else arrives on their account. */
  lemma HopOutcome(w1: World, m: Message, ch: Channel, w2: World, legs: seq<Leg>, relay: u32)
    requires PoolOk(w1.slots) && m.Valid() && m.src.None? && HEADER_SIZE <= |m.data| <= BUFFER_SIZE
    requires ch.Valid() && ch.Apart(m) && Idle(w1.slots, m)
    requires PoolOk(w2.slots) && Prepared(w2, legs, m.data, relay) && |legs| == |Receipts(w1, m, ch)|
    ensures var calls := Forwarded(Receipts(w1, m, ch));
            && SendFrom(w1, m, 0, ch).0.got == w1.got + Receipts(w1, m, ch)
            && |calls| == |legs| && (forall c :: c in calls ==> c == WriteCall(DstId(m.data), m.data))
    ensures Onward(w2, legs, m.data, relay).got == w2.got + OnwardReceipts(w2, legs, m.data, relay)
    ensures forall h :: h in OnwardReceipts(w2, legs, m.data, relay) ==> h == HandUp(Some(relay), m.data)
  {
    hide SendFrom;
    hide Receipts;
    hide Forwarded;
    hide Prepared;
    hide Onward;
    hide OnwardReceipts;
    SendOutcome(w1, m, ch);
    ForwardedAll(Receipts(w1, m, ch), m.data);
    OnwardOutcome(w2, legs, m.data, relay);
  }

  /** The header of a packed text names its destination and the messaging endpoint. */
  lemma TextHeader(t: Protocol.TextMessage)
    requires |t.uuid| == Protocol.UUID_SIZE
    ensures |Protocol.Pack(t)| >= HEADER_SIZE
    ensures DstId(Protocol.Pack(t)) == t.dst && EndpointId(Protocol.Pack(t)) == 0
  {
    var rest := [Protocol.FRAME_TYPE_TEXT] + t.uuid + t.text + [0];
    HeaderFields(0, t.src, t.dst, rest);
    assert Protocol.Pack(t) == [0, 0] + Le32(t.src) + Le32(t.dst) + rest;
  }

  /** A text over the hop: each copy handed up at the relaying device is written to the device the text is
      for and to no other, and whatever arrives there unpacks to the text without its trailing NULs. */
  lemma TextHop(
      t: Protocol.TextMessage, w1: World, m: Message, ch: Channel, w2: World, legs: seq<Leg>, relay: u32)
    requires |t.uuid| == Protocol.UUID_SIZE && |t.text| <= 484 && m.data == Protocol.Pack(t)
    requires PoolOk(w1.slots) && m.Valid() && m.src.None? && ch.Valid() && ch.Apart(m) && Idle(w1.slots, m)
    requires PoolOk(w2.slots) && Prepared(w2, legs, m.data, relay) && |legs| == |Receipts(w1, m, ch)|
    ensures |Forwarded(Receipts(w1, m, ch))| == |legs|
    ensures forall c :: c in Forwarded(Receipts(w1, m, ch)) ==> c == WriteCall(t.dst, Protocol.Pack(t))
    ensures Onward(w2, legs, m.data, relay).got == w2.got + OnwardReceipts(w2, legs, m.data, relay)
    ensures forall h :: h in OnwardReceipts(w2, legs, m.data, relay) ==>
              && h.src == Some(relay)
              && Protocol.Unpack(h.data) == Protocol.Text(t.(text := Protocol.StripNuls(t.text)))
  {
    hide Protocol.Pack;
    hide Protocol.Unpack;
    hide Receipts;
    hide Forwarded;
    hide Prepared;
    hide Onward;
    hide OnwardReceipts;
    hide DstId;
    hide Idle;
    TextHeader(t);
    Protocol.PackRoundTrip(t);
    HopOutcome(w1, m, ch, w2, legs, relay);
  }

  /** Where each link needs more than one fragment: the message arrives at the end once, exactly when every
      fragment gets through in time on both links. */
  lemma HopOnce(w1: World, m: Message, ch: Channel, w2: World, legs: seq<Leg>, relay: u32)
    requires PoolOk(w1.slots) && m.Valid() && m.src.None? && HEADER_SIZE <= |m.data| <= BUFFER_SIZE && m.Count() >= 2
    requires ch.Valid() && ch.Apart(m) && Idle(w1.slots, m)
    requires PoolOk(w2.slots) && Prepared(w2, legs, m.data, relay) && |legs| == |Receipts(w1, m, ch)|
    requires |m.data| > DECT_PAYLOAD
    ensures Onward(w2, legs, m.data, relay).got
         == w2.got + if && |legs| == 1 && Reaches(ch, Landing(w1, m, ch), m.Count() - 1)
                        && Reaches(legs[0].ch, Landing(w2, legs[0].m, legs[0].ch), legs[0].m.Count() - 1)
                     then [HandUp(Some(relay), m.data)] else []
  {
    hide AirFrom;
    hide Onward;
    hide OnwardReceipts;
    hide Reaches;
    hide Receipts;
    hide LegFor;
    hide FromDect;
    hide Landing;
    hide Idle;
    OnwardOutcome(w2, legs, m.data, relay);
    ReceiptsOfMany(w1, m, ch);
    if |legs| == 1 {
      OneLeg(w2, legs, m.data, relay);
      LegCount(legs[0], m.data, relay);
      ReceiptsOfMany(w2, legs[0].m, legs[0].ch);
    } else {
      NoLeg(w2, legs, m.data, relay);
    }
  }

  lemma OneLeg(w: World, legs: seq<Leg>, data: bytes, relay: u32)
    requires PoolOk(w.slots) && Prepared(w, legs, data, relay) && |legs| == 1
    ensures LegFor(legs[0], data, relay)
    ensures OnwardReceipts(w, legs, data, relay) == Receipts(w, legs[0].m, legs[0].ch)
  {
    hide AirFrom;
    hide Receipts;
    hide Idle;
    var v := AirFrom(w, legs[0].m, 0, legs[0].ch, legs[0].path).0;
    assert OnwardReceipts(v, legs[1..], data, relay) == [];
  }

  lemma LegCount(leg: Leg, data: bytes, relay: u32)
    requires LegFor(leg, data, relay) && |data| > DECT_PAYLOAD
    ensures leg.m.Valid() && leg.m.Count() >= 2 && leg.m.Whole() == HandUp(Some(relay), data)
  {
    CountBounds(|data|, DECT_PAYLOAD);
  }

  lemma NoLeg(w: World, legs: seq<Leg>, data: bytes, relay: u32)
    requires PoolOk(w.slots) && Prepared(w, legs, data, relay) && |legs| == 0
    ensures OnwardReceipts(w, legs, data, relay) == []
  {
  }

  lemma ReceiptsOfMany(w: World, m: Message, ch: Channel)
    requires PoolOk(w.slots) && m.Valid() && m.Count() >= 2
    ensures Receipts(w, m, ch) == if Reaches(ch, Landing(w, m, ch), m.Count() - 1) then [m.Whole()] else []
  {
    hide Landing;
    hide Reaches;
    hide Repeat;
    hide Copies;
    CountBounds(|m.data|, m.p);
  }
}
