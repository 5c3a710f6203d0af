/** dect_transport_layer.c and alfie_ble_service.c: two instances of one reliable transport that
    differ in payload size, frame layout, the source key of the pool and a few early returns. */
module Transport {
  import opened Bytes
  import opened Reassembly
  import opened Fragmentation
  import opened Wire
  import opened Sending
  import opened Routing
  import opened TransportBuffer
  import opened AlfieRouter
  import LinkLayer

  function PayloadSize(l: Layout): nat {
    if l.Dect? then DECT_PAYLOAD else BLE_PAYLOAD
  }

  function SourceKey(l: Layout, src: u32): Option<u32> {
    if l.Dect? then Some(src) else None
  }

  /** Position of the fragment index in the header. */
  function IndexPos(l: Layout): nat {
    if l.Dect? then 5 else 6
  }

  function TheMessage(l: Layout, src: u32, seqId: u16, data: bytes): Message {
    Message(SourceKey(l, src), seqId, PayloadSize(l), data)
  }

  lemma MessageValid(l: Layout, src: u32, seqId: u16, data: bytes)
    requires 1 <= |data| <= BUFFER_SIZE
    ensures TheMessage(l, src, seqId, data).Valid()
  {
    CountFitsByte(PayloadSize(l));
  }

  /** Overwriting the index byte of a header is the header of the other fragment. */
  lemma HeaderIndex(l: Layout, seqId: u16, fragTotal: u8, i: u8, j: u8, total: u16)
    ensures EncodeHeader(l, seqId, fragTotal, i, total)[IndexPos(l) := j] == EncodeHeader(l, seqId, fragTotal, j, total)
  {
  }

  /** The buffer starts with the header of some fragment of the message. */
  ghost predicate HeaderSet(l: Layout, m: Message, b: bytes)
    requires m.Valid()
  {
    |b| >= HEADER && exists j: u8 :: b[..HEADER] == EncodeHeader(l, m.seqId, m.Count(), j, |m.data|)
  }

  /** A header with index i followed by the chunk is the frame of fragment i. */
  lemma FrameBytes(l: Layout, m: Message, i: u8, frame: bytes, off: nat, size: nat)
    requires m.Valid() && i < m.Count() && off == m.p * i && size == Min(|m.data| - off, m.p) && off + size <= |m.data|
    requires |frame| == HEADER + size && frame[..HEADER] == EncodeHeader(l, m.seqId, m.Count(), i, |m.data|)
    requires frame[HEADER..] == m.data[off..off + size]
    ensures frame == EncodeData(l, FrameOf(m, i))
  {
    ChunkStep(m, i);
    assert FrameOf(m, i).payload == m.data[off..off + size];
    assert frame == frame[..HEADER] + frame[HEADER..];
  }

  /** The payload bytes of one fragment go behind the header, which stays as it is. */
  method CopyPayload(txBuffer: array<u8>, data: bytes, off: nat, size: nat) returns (frame: bytes)
    requires HEADER + size <= txBuffer.Length && off + size <= |data|
    modifies txBuffer
    ensures txBuffer[..HEADER] == old(txBuffer[..HEADER])
    ensures frame == old(txBuffer[..HEADER]) + data[off..off + size]
    ensures |frame| == HEADER + size
    ensures frame[..HEADER] == old(txBuffer[..HEADER]) && frame[HEADER..] == data[off..off + size]
  {
    forall k | 0 <= k < size {
      txBuffer[HEADER + k] := data[off + k];
    }
    frame := txBuffer[..HEADER + size];
    assert txBuffer[HEADER..HEADER + size] == data[off..off + size];
    assert frame == txBuffer[..HEADER] + txBuffer[HEADER..HEADER + size];
  }

  /** The body of the fragment loop up to the link write: index and payload of fragment i go into the
      reused buffer, and exactly the bytes of this fragment are taken from it. */
  method StoreFragment(l: Layout, ghost m: Message, data: bytes, txBuffer: array<u8>, i: u8) returns (frame: bytes)
    requires m.Valid() && m.data == data && m.p == PayloadSize(l) && i < m.Count()
    requires txBuffer.Length == HEADER + PayloadSize(l) && HeaderSet(l, m, txBuffer[..])
    modifies txBuffer
    ensures frame == EncodeData(l, FrameOf(m, i)) && HeaderSet(l, m, txBuffer[..])
  {
    hide EncodeHeader;
    hide EncodeData;
    hide FrameOf;
    hide Chunk;
    hide Upto;
    hide FragCount;
    ghost var j: u8 :| txBuffer[..][..HEADER] == EncodeHeader(l, m.seqId, m.Count(), j, |data|);
    HeaderIndex(l, m.seqId, m.Count(), j, i, |data|);
    ghost var header := EncodeHeader(l, m.seqId, m.Count(), i, |data|);
    txBuffer[IndexPos(l)] := i;
    assert txBuffer[..HEADER] == header;
    ChunkStep(m, i);
    var p := PayloadSize(l);
    var off := p * i;
    var size := Min(|data| - off, p);
    frame := CopyPayload(txBuffer, data, off, size);
    assert txBuffer[..][..HEADER] == txBuffer[..HEADER];
    FrameBytes(l, m, i, frame, off, size);
  }

  /** What one GATT notification holds. */
  const L2CAP_TX_MTU: nat := 251

  /** What a transport frame can be long on its link. */
  function FrameRoom(l: Layout): nat {
    if l.Dect? then LinkLayer.MAX_PAYLOAD else L2CAP_TX_MTU
  }

  /** Every frame of a write fits its link, and every one but those of the last fragment fills it. */
  lemma FramesFillTheLink(l: Layout, src: u32, seqId: u16, data: bytes, link: Link, b: bytes)
    requires 1 <= |data| <= BUFFER_SIZE
    ensures TheMessage(l, src, seqId, data).Valid()
    ensures b in SendLog(l, TheMessage(l, src, seqId, data), link, 0) ==>
              && IsData(b) && |b| <= FrameRoom(l)
              && (DecodeData(l, b).fragIdx + 1 < DecodeData(l, b).fragTotal ==> |b| == FrameRoom(l))
  {
    hide InOrder;
    hide SendLog;
    MessageValid(l, src, seqId, data);
    var m := TheMessage(l, src, seqId, data);
    if b in SendLog(l, m, link, 0) {
      LogInOrder(l, m, link, 0);
      FragmentInOrder(l, m, SendLog(l, m, link, 0), 0, b);
      var i := DecodeData(l, b).fragIdx;
      DataRoundTrip(l, FrameOf(m, i));
      Partition(m);
    }
  }

  lemma {:induction false} FragmentInOrder(l: Layout, m: Message, log: seq<bytes>, lo: nat, b: bytes)
    requires m.Valid() && InOrder(l, m, log, lo) && b in log
    ensures IsFragment(l, m, b, 0)
    decreases |log|
  {
    if b != log[0] {
      FragmentInOrder(l, m, log[1..], DecodeData(l, log[0]).fragIdx, b);
    }
  }

  /** The frames of one write, all to the same addressee. */
  function Addressed(dst: u32, frames: seq<bytes>): (r: seq<(u32, bytes)>)
    ensures |r| == |frames| && forall k :: 0 <= k < |r| ==> r[k] == (dst, frames[k])
  {
    seq(|frames|, k requires 0 <= k < |frames| => (dst, frames[k]))
  }

  lemma AddressedStep(dst: u32, frame: bytes, n: nat)
    ensures Addressed(dst, Copies(frame, n)) + [(dst, frame)] == Addressed(dst, Copies(frame, n + 1))
    ensures Addressed(dst, Copies(frame, 0)) == []
  {
  }

  predicate IsAck(l: Layout, b: bytes) {
    |b| >= 2 && b[1] == FRAME_DATA_ACK && (l.Ble? ==> |b| >= 5)
  }

  /** Every ACK a receiver builds is one on both links. A shorter one still is over DECT, from its two header
      bytes on, and never over BLE; and no data frame is. */
  lemma AcksExactly(l: Layout, seqId: u16, fragIdx: u8, b: bytes)
    ensures IsAck(l, [0, 1] + Le16(seqId) + [fragIdx])
    ensures |b| < 5 ==> (IsAck(l, b) <==> l.Dect? && |b| >= 2 && b[1] == 1)
    ensures |b| >= 5 ==> (IsAck(l, b) <==> b[1] == 1)
    ensures IsData(b) ==> !IsAck(l, b)
  {
  }

  /** A context completed by a frame carries a message of the announced length with the transport's one
      reference, and was in no FIFO; what is in a FIFO is not disturbed. */
  lemma FrameKeepsQueue(fifo: seq<nat>, slots: seq<Slot>, now: u32, src: Option<u32>, f: Reassembly.Frame)
    requires PoolOk(slots) && Queued(fifo, slots)
    ensures var o := Receive(slots, now, src, f);
            && Queued(fifo, o.slots)
            && (o.done.Some? ==>
                  && o.done.value !in fifo
                  && o.slots[o.done.value].total == |Payload(o.slots, o.done.value)|)
  {
    var o := Receive(slots, now, src, f);
    forall i | i in fifo
      ensures o.slots[i] == slots[i] && o.done != Some(i)
    {
      ReceiveRefs(slots, now, src, f, i);
    }
  }

  /** Dropping the transport's reference to a completed context that nobody queued, or that was queued
      once after an extra reference was taken. */
  lemma UnrefKeepsQueue(fifo: seq<nat>, slots: seq<Slot>, d: nat)
    requires PoolOk(slots) && Queued(fifo, slots) && d < |slots| && d !in fifo
    requires slots[d].state.Referenced? && slots[d].buf.value.refs == 1
    ensures Queued(fifo, Unref(slots, d))
    ensures Unref(Ref(slots, d), d) == slots
    ensures HEADER_SIZE <= slots[d].total == |slots[d].buf.value.data| ==> Queued(fifo + [d], slots)
  {
    assert slots[d := slots[d]] == slots;
    assert multiset(fifo + [d]) == multiset(fifo) + multiset{d};
    forall i | i in fifo + [d]
      ensures i in fifo || i == d
    {
    }
  }

  /** Where a frame's completed message ends up: queued for the router with the router's reference, or,
      when there is no callback or it is too short for a message header, freed again. */
  ghost predicate Handed(o: Outcome, registered: bool, fifo: seq<nat>, fifo': seq<nat>, slots: seq<Slot>)
    requires o.done.Some? ==> o.done.value < |o.slots|
    requires o.done.Some? && o.slots[o.done.value].buf.Some? ==> o.slots[o.done.value].buf.value.refs >= 1
  {
    if o.done.None? then fifo' == fifo && slots == o.slots
    else if registered && o.slots[o.done.value].total >= HEADER_SIZE
    then fifo' == fifo + [o.done.value] && slots == o.slots
    else fifo' == fifo && slots == Unref(o.slots, o.done.value)
  }

  /** The transport's thread in module Routing: a data frame is the steps Frame, Callback and Release, with
      the result that the transport's own methods promise. */
  lemma FrameIsLaneSteps(l: Lane, now: u32, src: Option<u32>, f: Reassembly.Frame, registered: bool)
    requires Conserved(l) && InTransit(l) && l.hold.Nothing?
    ensures var o := Receive(l.slots, now, src, f);
            var l1 := Next(l, Step.Frame(now, src, f));
            && Conserved(l1) && InTransit(l1)
            && (o.done.None? ==> Handed(o, registered, l.fifo, l1.fifo, l1.slots))
            && (o.done.Some? ==>
                  && Enabled(l1, Callback(registered))
                  && (var l2 := Next(l1, Callback(registered));
                      && Conserved(l2) && InTransit(l2) && Enabled(l2, Release)
                      && (var l3 := Next(l2, Release);
                          l3.hold.Nothing? && Handed(o, registered, l.fifo, l3.fifo, l3.slots))))
  {
    hide Receive;
    FrameConserves(l, now, src, f);
    var o := Receive(l.slots, now, src, f);
    if o.done.Some? {
      var l1 := Next(l, Step.Frame(now, src, f));
      CallbackConserves(l1, registered);
      HeldIsReferenced(l1, o.done.value);
      var s := o.slots[o.done.value];
      assert o.slots[o.done.value := s] == o.slots;
    }
  }

  /** The router's thread there: forwarding the head of a FIFO is the steps Take and Finish. */
  lemma ForwardIsLaneSteps(l: Lane)
    requires Conserved(l) && InTransit(l) && Enabled(l, Take)
    ensures var l1 := Next(l, Take);
            && Conserved(l1) && InTransit(l1) && Enabled(l1, Finish)
            && (var l2 := Next(l1, Finish);
                && l.fifo[0] < |l.slots| && l.slots[l.fifo[0]].buf.Some? && l.slots[l.fifo[0]].buf.value.refs >= 1
                && l2.slots == Unref(l.slots, l.fifo[0]) && l2.fifo == l.fifo[1..] && l2.taken.None?
                && l2.forwarded == l.forwarded + [Payload(l.slots, l.fifo[0])])
  {
    TakeConserves(l);
    HeldIsReferenced(Next(l, Take), l.fifo[0]);
  }

  class Transport {
    const layout: Layout
    const deviceId: u32
    const pool: TransportBufferPool
    const router: Router

    var initialized: bool
    var connected: bool
    /** Whether the router's rx callback is registered. */
    var registered: bool

    /** Data frames the link or GATT layer accepted, and ACK frames, with their addressee. */
    var tx: seq<(u32, bytes)>
    var acks: seq<(u32, bytes)>
    var ackSem: bool

    /** The DECT transport is the router's downstream side and keys its pool by source, the BLE service
        is the upstream side and does not. */
    ghost predicate Valid()
      reads this, router, router.up, router.up.contexts, router.up.bufferPool
      reads router.down, router.down.contexts, router.down.bufferPool
    {
      && router.Valid()
      && pool == (if layout.Dect? then router.down else router.up)
      && pool.bySource == layout.Dect?
    }

    constructor (layout: Layout, deviceId: u32, router: Router)
      requires router.Valid()
      requires layout.Dect? ==> router.down.bySource
      requires layout.Ble? ==> !router.up.bySource
      ensures Valid() && this.layout == layout && this.deviceId == deviceId && this.router == router
      ensures tx == [] && acks == [] && !ackSem && !initialized && !connected && !registered
    {
      this.layout, this.deviceId, this.router := layout, deviceId, router;
      this.pool := if layout.Dect? then router.down else router.up;
      initialized, connected, registered, tx, acks, ackSem := false, false, false, [], [], false;
    }

    ghost function Fifo(): seq<nat>
      reads this, router
    {
      if layout.Dect? then router.fromDownstream else router.fromUpstream
    }

    /** prv_handle_complete_incoming_data_transaction: the callback, then the transport's own reference. */
    method HandleComplete(d: nat)
      requires Valid() && d < pool.contexts.Length && d !in Fifo()
      requires var s := pool.View()[d];
               s.state.Referenced? && s.buf.value.refs == 1 && s.total == |s.buf.value.data|
      modifies pool.contexts, pool.bufferPool`bufs, router`fromUpstream, router`fromDownstream
      ensures Valid()
      ensures if registered && old(pool.View())[d].total >= HEADER_SIZE
              then pool.View() == old(pool.View()) && Fifo() == old(Fifo()) + [d]
              else pool.View() == Unref(old(pool.View()), d) && Fifo() == old(Fifo())
      ensures if layout.Dect? then router.fromUpstream == old(router.fromUpstream)
              else router.fromDownstream == old(router.fromDownstream)
    {
      hide Queued;
      hide Calls;
      hide Ref;
      hide Unref;
      hide ViewOf;
      UnrefKeepsQueue(Fifo(), pool.View(), d);
      if registered {
        if layout.Dect? {
          router.HandleDownstreamRx(d);
        } else {
          router.HandleUpstreamRx(d);
        }
      }
      pool.Unref(d);
    }

    /** prv_handle_data_frame and prv_handle_incoming_data_frame, with the length check passed. The frame
        overruns a net_buf exactly when it leaves more in one than its size. */
    method HandleDataFrame(src: u32, frame: bytes, now: u32)
      requires Valid() && IsData(frame)
      modifies this`acks, pool.contexts, pool.bufferPool, router`fromUpstream, router`fromDownstream
      ensures Valid()
      ensures var f := DecodeData(layout, frame);
              var o := Receive(old(pool.View()), now, SourceKey(layout, src), f);
              && acks == old(acks) + (if o.ack then [(src, EncodeAck(f.seqId, f.fragIdx))] else [])
              && Handed(o, registered, old(Fifo()), Fifo(), pool.View())
              && pool.bufferPool.overrun == (old(pool.bufferPool.overrun) || !Within(o.slots))
      ensures if layout.Dect? then router.fromUpstream == old(router.fromUpstream)
              else router.fromDownstream == old(router.fromDownstream)
    {
      hide Queued;
      hide Calls;
      hide Unref;
      hide ViewOf;
      hide Receive;
      hide Within;
      hide HandlesInRange;
      hide DecodeData;
      var f := DecodeData(layout, frame);
      FrameKeepsQueue(Fifo(), pool.View(), now, SourceKey(layout, src), f);
      var ack, done := pool.Receive(now, SourceKey(layout, src), f);
      if ack {
        acks := acks + [(src, EncodeAck(f.seqId, f.fragIdx))];
      }
      if done.Some? {
        HandleComplete(done.value);
      }
    }

    /** prv_on_data_layer_rx and prv_on_data_write: dispatch on length and frame type. Any ACK gives the
        semaphore. The BLE service answers a write with an error exactly when it is rejected here. */
    method OnRx(src: u32, buf: bytes, now: u32) returns (rejected: bool)
      requires Valid()
      modifies this`acks, this`ackSem, pool.contexts, pool.bufferPool, router`fromUpstream, router`fromDownstream
      ensures Valid()
      ensures rejected <==> |buf| < 2 || buf[1] > 1
      ensures ackSem == (old(ackSem) || (|buf| >= (if layout.Dect? then 2 else 5) && buf[1] == 1))
      ensures if |buf| >= 8 && buf[1] == 0
              then var f := DecodeData(layout, buf);
                   var o := Receive(old(pool.View()), now, SourceKey(layout, src), f);
                   && acks == old(acks) + (if o.ack then [(src, EncodeAck(f.seqId, f.fragIdx))] else [])
                   && Handed(o, registered, old(Fifo()), Fifo(), pool.View())
                   && pool.bufferPool.overrun == (old(pool.bufferPool.overrun) || !Within(o.slots))
              else && acks == old(acks) && pool.View() == old(pool.View()) && Fifo() == old(Fifo())
                   && pool.bufferPool.overrun == old(pool.bufferPool.overrun)
      ensures if layout.Dect? then router.fromUpstream == old(router.fromUpstream)
              else router.fromDownstream == old(router.fromDownstream)
    {
      if |buf| < 2 {
        return true;
      }
      rejected := false;
      if buf[1] == FRAME_DATA {
        if |buf| < HEADER {
          return;
        }
        HandleDataFrame(src, buf, now);
      } else if buf[1] == FRAME_DATA_ACK {
        if layout.Ble? && |buf| < 5 {
          return;
        }
        ackSem := true;
      } else {
        rejected := true;
      }
    }

    /** prv_write_data_frame: up to four attempts, each waiting for any ACK. */
    method WriteDataFrame(dst: u32, frame: bytes, i: nat, link: Link) returns (st: Status)
      modifies this`tx, this`ackSem
      ensures tx == old(tx) + Addressed(dst, Copies(frame, CopiesSent(link, i, 0)))
      ensures st == FragmentStatus(link, i, 0) && !ackSem
    {
      hide Copies;
      hide Addressed;
      var a := 0;
      AddressedStep(dst, frame, 0);
      while a < TX_ATTEMPTS
        invariant a <= TX_ATTEMPTS
        invariant tx == old(tx) + Addressed(dst, Copies(frame, a))
        invariant a > 0 ==> !ackSem
        invariant CopiesSent(link, i, 0) == a + CopiesSent(link, i, a)
        invariant FragmentStatus(link, i, 0) == FragmentStatus(link, i, a)
      {
        ackSem := false;
        var answer := link(i, a);
        if answer.Refused? {
          return Failed(answer.error);
        }
        tx := tx + [(dst, frame)];
        AddressedStep(dst, frame, a);
        if answer.Acked? {
          return Ok;
        }
        a := a + 1;
      }
      st := NoAck;
    }

    /** The fragment loop of the two write functions. */
    method WriteFragments(ghost m: Message, dst: u32, data: bytes, fragTotal: u8, txBuffer: array<u8>, link: Link)
      returns (st: Status)
      requires m.Valid() && m.data == data && m.p == PayloadSize(layout) && fragTotal == m.Count()
      requires txBuffer.Length == HEADER + PayloadSize(layout) && HeaderSet(layout, m, txBuffer[..])
      modifies this`tx, this`ackSem, txBuffer
      ensures tx == old(tx) + Addressed(dst, SendLog(layout, m, link, 0)) && st == SendStatus(m, link, 0)
      ensures ackSem == (old(ackSem) && fragTotal == 0)
    {
      hide FrameOf;
      hide EncodeData;
      hide HeaderSet;
      var i := 0;
      st := Ok;
      while i < fragTotal
        invariant i <= fragTotal && st.Ok? && ackSem == (old(ackSem) && i == 0)
        invariant HeaderSet(layout, m, txBuffer[..])
        invariant tx + Addressed(dst, SendLog(layout, m, link, i))
               == old(tx) + Addressed(dst, SendLog(layout, m, link, 0))
        invariant SendStatus(m, link, i) == SendStatus(m, link, 0)
      {
        var frame := StoreFragment(layout, m, data, txBuffer, i);
        ghost var before := tx;
        st := WriteDataFrame(dst, frame, i, link);
        Regroup(dst, before, Copies(frame, CopiesSent(link, i, 0)),
                if st.Ok? then SendLog(layout, m, link, i + 1) else []);
        if !st.Ok? {
          return;
        }
        i := i + 1;
      }
    }

    /** dect_transport_layer_write and alfie_ble_service_write. The transmit buffer is reused from
        fragment to fragment, and only the bytes of the current one reach the link. The BLE service
        ignores the destination and writes to its one connection, recorded as 0 here. */
    method Write(dst: u32, data: bytes, seqId: u16, link: Link) returns (st: Status)
      modifies this`tx, this`ackSem
      ensures !initialized && layout.Dect? ==> st == NotReady
      ensures |data| == 0 && (initialized || layout.Ble?) ==> st == Invalid
      ensures |data| > BUFFER_SIZE && (initialized || layout.Ble?) ==> st == TooLong
      ensures 1 <= |data| <= BUFFER_SIZE && layout.Ble? && !initialized ==> st == NotReady
      ensures 1 <= |data| <= BUFFER_SIZE && layout.Ble? && initialized && !connected ==> st == NotConnected
      ensures if 1 <= |data| <= BUFFER_SIZE && initialized && (layout.Dect? || connected)
              then (MessageValid(layout, deviceId, seqId, data);
                    var m := TheMessage(layout, deviceId, seqId, data);
                    && tx == old(tx) + Addressed(if layout.Dect? then dst else 0, SendLog(layout, m, link, 0))
                    && st == SendStatus(m, link, 0) && !ackSem)
              else tx == old(tx) && ackSem == old(ackSem)
      ensures |old(tx)| <= |tx| && forall k :: |old(tx)| <= k < |tx| ==>
                && tx[k].0 == (if layout.Dect? then dst else 0)
                && IsData(tx[k].1) && |tx[k].1| <= FrameRoom(layout)
                && (DecodeData(layout, tx[k].1).fragIdx + 1 < DecodeData(layout, tx[k].1).fragTotal ==>
                      |tx[k].1| == FrameRoom(layout))
    {
      if layout.Dect? && !initialized {
        return NotReady;
      }
      if |data| == 0 {
        return Invalid;
      }
      if |data| > BUFFER_SIZE {
        return TooLong;
      }
      if !initialized {
        return NotReady;
      }
      if layout.Ble? && !connected {
        return NotConnected;
      }
      MessageValid(layout, deviceId, seqId, data);
      CountBounds(|data|, PayloadSize(layout));
      var p := PayloadSize(layout);
      var fragTotal: u8 := ((|data| + p - 1) / p) % 0x100;
      var txBuffer := new u8[HEADER + p](_ => 0);
      var header := EncodeHeader(layout, seqId, fragTotal, 0, |data|);
      forall k | 0 <= k < HEADER {
        txBuffer[k] := header[k];
      }
      assert txBuffer[..][..HEADER] == header;
      st := WriteFragments(TheMessage(layout, deviceId, seqId, data), if layout.Dect? then dst else 0, data, fragTotal,
                           txBuffer, link);
      ghost var log := SendLog(layout, TheMessage(layout, deviceId, seqId, data), link, 0);
      forall k | |old(tx)| <= k < |tx|
        ensures tx[k] == (if layout.Dect? then dst else 0, log[k - |old(tx)|]) && tx[k].1 in log
      {
      }
      forall b | b in log
        ensures IsData(b) && |b| <= FrameRoom(layout)
        ensures DecodeData(layout, b).fragIdx + 1 < DecodeData(layout, b).fragTotal ==> |b| == FrameRoom(layout)
      {
        FramesFillTheLink(layout, deviceId, seqId, data, link, b);
      }
    }
  }

  lemma Regroup(dst: u32, a: seq<(u32, bytes)>, b: seq<bytes>, c: seq<bytes>)
    ensures a + Addressed(dst, b + c) == (a + Addressed(dst, b)) + Addressed(dst, c)
    ensures c == [] ==> a + Addressed(dst, b + c) == a + Addressed(dst, b)
  {
    assert Addressed(dst, b + c) == Addressed(dst, b) + Addressed(dst, c);
  }
}
