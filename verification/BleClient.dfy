/** client.py: the second implementation of the BLE fragment protocol, with a dictionary instead of a
    pool, and its agreement with the firmware's receiver. */
module BleClient {
  import opened Bytes
  import opened Reassembly
  import opened Fragmentation
  import opened StopAndWait
  import opened Wire
  import Sending

  /** _ReassemblyCtx. */
  datatype Ctx = Ctx(fragTotal: u8, total: u16, fragIdx: nat, buffer: bytes)

  datatype PyOutcome = PyOutcome(ctxs: map<u16, Ctx>, ack: bool, done: Option<bytes>)

  /** _handle_rx_payload on values. */
  function PyReceive(ctxs: map<u16, Ctx>, f: Frame): PyOutcome {
    if f.seqId !in ctxs && f.fragIdx != 0 then PyOutcome(ctxs, false, None)
    else
      var ctx := if f.seqId in ctxs then ctxs[f.seqId] else Ctx(f.fragTotal, f.total, 0, []);
      var kept := ctxs[f.seqId := ctx];
      if f.fragIdx < ctx.fragIdx then PyOutcome(kept, true, None)
      else if f.fragIdx != ctx.fragIdx then PyOutcome(kept, false, None)
      else
        var next := ctx.(buffer := ctx.buffer + f.payload, fragIdx := ctx.fragIdx + 1);
        if next.fragIdx == next.fragTotal then PyOutcome(ctxs - {f.seqId}, true, Some(next.buffer))
        else PyOutcome(ctxs[f.seqId := next], true, None)
  }

  class Client {
    var rxContexts: map<u16, Ctx>
    var ackEvent: bool
    /** Payload size adapted to the negotiated MTU. */
    var maxFramePayload: nat

    /** Frames written, ACKs scheduled and messages delivered. */
    var tx: seq<bytes>
    var acks: seq<bytes>
    var delivered: seq<bytes>

    constructor ()
      ensures rxContexts == map[] && !ackEvent && maxFramePayload == BLE_PAYLOAD
      ensures tx == [] && acks == [] && delivered == []
    {
      rxContexts, ackEvent, maxFramePayload, tx, acks, delivered := map[], false, BLE_PAYLOAD, [], [], [];
    }

    /** connect: the payload size follows the negotiated MTU, which ATT keeps at 23 or more; 0 is unknown. */
    method AdaptToMtu(mtu: nat)
      requires mtu == 0 || mtu >= 23
      modifies this`maxFramePayload
      ensures mtu > 0 ==> 12 <= maxFramePayload && maxFramePayload + HEADER + 3 <= mtu
      ensures 0 < mtu <= 254 ==> maxFramePayload + HEADER + 3 == mtu
      ensures mtu > 254 ==> maxFramePayload + HEADER == 251
      ensures mtu == 0 ==> maxFramePayload == old(maxFramePayload)
    {
      if mtu > 0 {
        maxFramePayload := Min(BLE_PAYLOAD, mtu - 3 - HEADER);
      }
    }

    method HandleRxPayload(f: Frame)
      modifies this`rxContexts, this`acks, this`delivered
      ensures var o := PyReceive(old(rxContexts), f);
              && rxContexts == o.ctxs
              && acks == old(acks) + (if o.ack then [EncodeAck(f.seqId, f.fragIdx)] else [])
              && delivered == old(delivered) + (if o.done.Some? then [o.done.value] else [])
    {
      if f.seqId !in rxContexts {
        if f.fragIdx != 0 {
          return;
        }
        rxContexts := rxContexts[f.seqId := Ctx(f.fragTotal, f.total, 0, [])];
      }
      var ctx := rxContexts[f.seqId];
      if f.fragIdx < ctx.fragIdx {
        acks := acks + [EncodeAck(f.seqId, f.fragIdx)];
        return;
      }
      if f.fragIdx != ctx.fragIdx {
        return;
      }
      ctx := ctx.(buffer := ctx.buffer + f.payload);
      ctx := ctx.(fragIdx := ctx.fragIdx + 1);
      rxContexts := rxContexts[f.seqId := ctx];
      acks := acks + [EncodeAck(f.seqId, f.fragIdx)];
      if ctx.fragIdx == ctx.fragTotal {
        rxContexts := rxContexts - {f.seqId};
        delivered := delivered + [ctx.buffer];
        assert rxContexts == old(rxContexts) - {f.seqId};
      }
    }

    /** _on_notification. */
    method OnNotification(data: bytes)
      modifies this`rxContexts, this`acks, this`delivered, this`ackEvent
      ensures ackEvent == (old(ackEvent) || (|data| >= 2 && data[1] == 1))
      ensures if |data| >= 8 && data[1] == 0
              then var f := DecodeData(Ble, data);
                   var o := PyReceive(old(rxContexts), f);
                   && rxContexts == o.ctxs
                   && acks == old(acks) + (if o.ack then [EncodeAck(f.seqId, f.fragIdx)] else [])
                   && delivered == old(delivered) + (if o.done.Some? then [o.done.value] else [])
              else rxContexts == old(rxContexts) && delivered == old(delivered) && acks == old(acks)
    {
      if |data| < 2 {
        return;
      }
      if data[1] == FRAME_DATA_ACK {
        ackEvent := true;
        return;
      }
      if data[1] == FRAME_DATA {
        if |data| < HEADER {
          return;
        }
        HandleRxPayload(DecodeData(Ble, data));
      }
    }

    /** The attempts loop of _send_fragmented for one frame. */
    method SendFrame(frame: bytes, i: nat, link: Sending.Link) returns (st: Sending.Status)
      modifies this`tx, this`ackEvent
      ensures tx == old(tx) + Sending.Copies(frame, Sending.CopiesSent(link, i, 0))
      ensures st == Sending.FragmentStatus(link, i, 0) && ackEvent == st.Ok?
    {
      hide Sending.Copies;
      var attempt := 0;
      Sending.CopiesStep(frame, 0);
      while attempt < TX_ATTEMPTS
        invariant attempt <= TX_ATTEMPTS
        invariant tx == old(tx) + Sending.Copies(frame, attempt)
        invariant attempt > 0 ==> !ackEvent
        invariant Sending.CopiesSent(link, i, 0) == attempt + Sending.CopiesSent(link, i, attempt)
        invariant Sending.FragmentStatus(link, i, 0) == Sending.FragmentStatus(link, i, attempt)
      {
        ackEvent := false;
        var answer := link(i, attempt);
        if answer.Refused? {
          return Sending.Failed(answer.error);
        }
        tx := tx + [frame];
        Sending.CopiesStep(frame, attempt);
        if answer.Acked? {
          ackEvent := true;
          return Sending.Ok;
        }
        attempt := attempt + 1;
      }
      st := Sending.NoAck;
    }

    /** _send_fragmented. Packing the first header raises an error where a value exceeds its field. */
    method SendFragmented(data: bytes, seqId: u16, link: Sending.Link) returns (st: Sending.Status)
      requires maxFramePayload > 0
      modifies this`tx, this`ackEvent
      ensures if Packable(data, maxFramePayload)
              then && tx == old(tx) + ClientLog(data, seqId, maxFramePayload, link, 0)
                   && st == ClientStatus(data, maxFramePayload, link, 0) && ackEvent == st.Ok?
              else st == Sending.Unpackable && tx == old(tx) && ackEvent == old(ackEvent)
    {
      hide EncodeData;
      var fragTotal := FragTotal(data, maxFramePayload);
      var i := 0;
      while i < fragTotal
        invariant i <= fragTotal && (i > 0 ==> Packable(data, maxFramePayload) && ackEvent)
        invariant i == 0 ==> tx == old(tx) && ackEvent == old(ackEvent)
        invariant i > 0 ==>
                    && tx + ClientLog(data, seqId, maxFramePayload, link, i)
                       == old(tx) + ClientLog(data, seqId, maxFramePayload, link, 0)
                    && ClientStatus(data, maxFramePayload, link, i) == ClientStatus(data, maxFramePayload, link, 0)
      {
        if |data| >= 0x1_0000 || fragTotal >= 0x100 {
          return Sending.Unpackable;
        }
        var frame := EncodeData(Ble, ClientFrame(data, seqId, maxFramePayload, i));
        ghost var before := tx;
        st := SendFrame(frame, i, link);
        Regroup(before, Sending.Copies(frame, Sending.CopiesSent(link, i, 0)),
                if st.Ok? then ClientLog(data, seqId, maxFramePayload, link, i + 1) else []);
        if !st.Ok? {
          return;
        }
        i := i + 1;
      }
      st := Sending.Ok;
    }
  }

  // ---- The client's sender -------------------------------------------------------------------

  /** frag_total of _send_fragmented. */
  function FragTotal(data: bytes, p: nat): (n: nat)
    requires p > 0
    ensures n >= 1
  {
    if 1 < FragCount(|data|, p) then FragCount(|data|, p) else 1
  }

  /** Length and fragment count fit their header fields. */
  predicate Packable(data: bytes, p: nat)
    requires p > 0
  {
    |data| < 0x1_0000 && FragTotal(data, p) < 0x100
  }

  /** Header and chunk of fragment i; the slice is clamped at the end of the message. */
  function ClientFrame(data: bytes, seqId: u16, p: nat, i: nat): Frame
    requires p > 0 && Packable(data, p) && i < FragTotal(data, p)
  {
    var offset := i * p;
    Frame(seqId, FragTotal(data, p), i, |data|, data[Min(offset, |data|)..Min(offset + p, |data|)])
  }

  /** Frames written from fragment i on. */
  function ClientLog(data: bytes, seqId: u16, p: nat, link: Sending.Link, i: nat): seq<bytes>
    requires p > 0 && Packable(data, p) && i <= FragTotal(data, p)
    decreases FragTotal(data, p) - i
  {
    if i == FragTotal(data, p) then []
    else
      Sending.Copies(EncodeData(Ble, ClientFrame(data, seqId, p, i)), Sending.CopiesSent(link, i, 0))
      + if Sending.FragmentStatus(link, i, 0).Ok? then ClientLog(data, seqId, p, link, i + 1) else []
  }

  function ClientStatus(data: bytes, p: nat, link: Sending.Link, i: nat): Sending.Status
    requires p > 0 && i <= FragTotal(data, p)
    decreases FragTotal(data, p) - i
  {
    if i == FragTotal(data, p) then Sending.Ok
    else if Sending.FragmentStatus(link, i, 0).Ok? then ClientStatus(data, p, link, i + 1)
    else Sending.FragmentStatus(link, i, 0)
  }

  lemma FramesAgree(m: Message, i: nat)
    requires m.Valid() && i < m.Count()
    ensures Packable(m.data, m.p) && FragTotal(m.data, m.p) == m.Count()
    ensures ClientFrame(m.data, m.seqId, m.p, i) == FrameOf(m, i)
  {
    CountBounds(|m.data|, m.p);
    ChunkStep(m, i);
    assert i * m.p == m.p * i && m.p * (i + 1) == m.p * i + m.p;
  }

  /** The client cuts and sends a message exactly as the firmware does with its payload size. */
  lemma {:induction false} SendersAgree(m: Message, link: Sending.Link, i: nat)
    requires m.Valid() && i <= m.Count()
    ensures Packable(m.data, m.p) && FragTotal(m.data, m.p) == m.Count()
    ensures ClientLog(m.data, m.seqId, m.p, link, i) == Sending.SendLog(Ble, m, link, i)
    ensures ClientStatus(m.data, m.p, link, i) == Sending.SendStatus(m, link, i)
    decreases m.Count() - i
  {
    hide EncodeData;
    hide FrameOf;
    hide ClientFrame;
    hide FragTotal;
    CountBounds(|m.data|, m.p);
    FramesAgree(m, 0);
    if i < m.Count() {
      FramesAgree(m, i);
      SendersAgree(m, link, i + 1);
    }
  }

  /** An empty message goes out as one empty frame, which the firmware's pool never acknowledges. */
  lemma EmptyIsNeverAcknowledged(seqId: u16, p: nat, link: Sending.Link, slots: seq<Slot>, now: u32)
    requires p > 0 && PoolOk(slots)
    ensures Packable([], p) && FragTotal([], p) == 1
    ensures ClientLog([], seqId, p, link, 0)
         == Sending.Copies(EncodeData(Ble, ClientFrame([], seqId, p, 0)), Sending.CopiesSent(link, 0, 0))
    ensures !Receive(slots, now, None, ClientFrame([], seqId, p, 0)).ack
  {
    assert FragCount(0, p) == 0;
    assert ClientLog([], seqId, p, link, 1) == [];
  }

  lemma Regroup(a: seq<bytes>, b: seq<bytes>, c: seq<bytes>)
    ensures a + (b + c) == (a + b) + c
    ensures c == [] ==> a + (b + c) == a + b
  {
  }

  // ---- Agreement of the two receivers --------------------------------------------------------

  /** What a sequence id stands for in a stream of sender-built frames: length and payload size. */
  datatype Plan = Plan(total: u16, p: nat) {
    ghost predicate Valid() {
      total >= 1 && p > 0 && FragCount(total, p) < 0x100
    }
  }

  /** A frame some sender built for this plan: the chunk's length is the one the plan gives, its bytes
      are arbitrary. */
  ghost predicate Conforms(plan: Plan, f: Frame) {
    && plan.Valid() && f.total == plan.total && f.fragTotal == FragCount(plan.total, plan.p)
    && f.fragIdx < f.fragTotal
    && plan.p * f.fragIdx < plan.total
    && |f.payload| == Min(plan.p, plan.total - plan.p * f.fragIdx)
  }

  /** A context of the pool and one of the dictionary hold the same partial message. */
  ghost predicate SameContext(plan: Plan, s: Slot, c: Ctx) {
    && plan.Valid() && s.state.Receiving? && s.buf.Some?
    && s.total == c.total == plan.total && s.fragTotal == c.fragTotal == FragCount(plan.total, plan.p)
    && s.fragIdx == c.fragIdx < c.fragTotal
    && s.buf.value.data == c.buffer && |c.buffer| == Min(plan.total, plan.p * c.fragIdx)
  }

  /** Slots and dictionary match, one receiving slot for each key. */
  ghost predicate Agree(plans: u16 -> Plan, slots: seq<Slot>, ctxs: map<u16, Ctx>) {
    && PoolOk(slots)
    && (forall j :: 0 <= j < |slots| && slots[j].state.Receiving? ==>
          slots[j].seqId in ctxs && SameContext(plans(slots[j].seqId), slots[j], ctxs[slots[j].seqId]))
    && (forall i, j :: 0 <= i < j < |slots| && slots[i].state.Receiving? && slots[j].state.Receiving? ==>
          slots[i].seqId != slots[j].seqId)
    && (forall q :: q in ctxs ==> Present(slots, q))
  }

  ghost predicate Present(slots: seq<Slot>, q: u16) {
    exists j :: 0 <= j < |slots| && slots[j].state.Receiving? && slots[j].seqId == q
  }

  ghost predicate NoneExpired(slots: seq<Slot>, now: u32) {
    forall j :: 0 <= j < |slots| ==> !Expired(slots[j], now)
  }

  /** Arithmetic of the next chunk of a plan. */
  lemma NextChunk(plan: Plan, k: nat)
    requires plan.Valid() && k < FragCount(plan.total, plan.p)
    ensures plan.p * k < plan.total
    ensures Min(plan.total, plan.p * k) == plan.p * k
    ensures plan.p * k + Min(plan.p, plan.total - plan.p * k) == Min(plan.total, plan.p * (k + 1))
    ensures k + 1 == FragCount(plan.total, plan.p) ==> Min(plan.total, plan.p * (k + 1)) == plan.total
  {
    CountBounds(plan.total, plan.p);
    MulMonotone(plan.p, k, FragCount(plan.total, plan.p) - 1);
    assert plan.p * (k + 1) == plan.p * k + plan.p;
  }

  /** Writing the next fragment to matching contexts: same acknowledgement, same completion. */
  lemma WriteAgrees(plan: Plan, s: Slot, c: Ctx, now: u32, f: Frame)
    requires SameContext(plan, s, c) && Conforms(plan, f) && s.seqId == f.seqId
    ensures var w := Write(s, now, f.fragIdx, f.payload);
            var next := c.(buffer := c.buffer + f.payload, fragIdx := c.fragIdx + 1);
            && Acked(w.1) == (f.fragIdx <= c.fragIdx)
            && (w.1.Complete? <==> f.fragIdx == c.fragIdx && next.fragIdx == next.fragTotal)
            && (w.1.Complete? ==> w.0.state.Referenced? && w.0.buf.value.data == next.buffer)
            && (w.1.Success? ==> f.fragIdx == c.fragIdx && SameContext(plan, w.0, next) && w.0.seqId == f.seqId)
            && (!w.1.Complete? && !w.1.Success? ==> f.fragIdx != c.fragIdx && w.0 == s)
  {
    NextChunk(plan, c.fragIdx);
    NextChunk(plan, f.fragIdx);
  }

  /** Replacing the context of one sequence id on both sides. */
  lemma ReplaceAgrees(
      plans: u16 -> Plan, slots: seq<Slot>, ctxs: map<u16, Ctx>, i: nat, s: Slot, q: u16, c: Option<Ctx>)
    requires Agree(plans, slots, ctxs) && i < |slots| && SlotOk(s)
    requires slots[i].state.Receiving? ==> slots[i].seqId == q
    requires forall j :: 0 <= j < |slots| && j != i && slots[j].state.Receiving? ==> slots[j].seqId != q
    requires if s.state.Receiving? then s.seqId == q && c.Some? && SameContext(plans(q), s, c.value) else c.None?
    ensures Agree(plans, slots[i := s], if c.Some? then ctxs[q := c.value] else ctxs - {q})
  {
    var slots' := slots[i := s];
    var ctxs' := if c.Some? then ctxs[q := c.value] else ctxs - {q};
    forall x | x in ctxs'
      ensures Present(slots', x)
    {
      if x == q {
        assert slots'[i].state.Receiving?;
      } else {
        assert Present(slots, x);
        var j :| 0 <= j < |slots| && slots[j].state.Receiving? && slots[j].seqId == x;
        assert slots'[j].state.Receiving?;
      }
    }
  }

  lemma FoundAgrees(plans: u16 -> Plan, slots: seq<Slot>, ctxs: map<u16, Ctx>, f: Frame)
    requires Agree(plans, slots, ctxs) && Conforms(plans(f.seqId), f)
    ensures var m := FirstMatch(slots, None, f, 0);
            && (m.Some? <==> f.seqId in ctxs)
            && (forall j :: 0 <= j < |slots| && m != Some(j) && slots[j].state.Receiving? ==> slots[j].seqId != f.seqId)
  {
    if f.seqId in ctxs {
      assert Present(slots, f.seqId);
      var j :| 0 <= j < |slots| && slots[j].state.Receiving? && slots[j].seqId == f.seqId;
      assert Matches(slots[j], None, f);
    }
  }

  /** One frame: the firmware's pool without a source key and the client's dictionary make the same ACK
      decision, deliver the same bytes and still agree afterwards. */
  lemma FrameAgrees(plans: u16 -> Plan, slots: seq<Slot>, ctxs: map<u16, Ctx>, now: u32, f: Frame)
    requires Agree(plans, slots, ctxs) && Conforms(plans(f.seqId), f)
    requires NoneExpired(slots, now) && HasFree(slots)
    ensures var o := Receive(slots, now, None, f);
            var p := PyReceive(ctxs, f);
            && o.ack == p.ack && Agree(plans, o.slots, p.ctxs)
            && p.done == if o.done.Some? then Some(Payload(o.slots, o.done.value)) else None
  {
    hide Agree;
    assert Expire(slots, now) == slots;
    var plan := plans(f.seqId);
    AgreePool(plans, slots, ctxs);
    FoundAgrees(plans, slots, ctxs, f);
    var m := FirstMatch(slots, None, f, 0);
    if m.Some? {
      AgreeAt(plans, slots, ctxs, m.value);
      var s, c := slots[m.value], ctxs[f.seqId];
      CommitAgrees(plans, slots, ctxs, m.value, s, c, now, f);
    } else if f.fragIdx == 0 {
      var x :| 0 <= x < |slots| && slots[x].state.Free?;
      var i := FirstFree(slots, 0).value;
      var s, c := Opened(slots[i], now, f), Ctx(f.fragTotal, f.total, 0, []);
      assert plan.p * 0 == 0;
      assert SameContext(plan, s, c);
      CommitAgrees(plans, slots, ctxs, i, s, c, now, f);
      var w := Write(s, now, 0, f.payload).0;
      assert slots[i := s][i := w] == slots[i := w];
    }
  }

  lemma AgreePool(plans: u16 -> Plan, slots: seq<Slot>, ctxs: map<u16, Ctx>)
    requires Agree(plans, slots, ctxs)
    ensures PoolOk(slots)
  {
  }

  lemma AgreeAt(plans: u16 -> Plan, slots: seq<Slot>, ctxs: map<u16, Ctx>, j: nat)
    requires Agree(plans, slots, ctxs) && j < |slots| && slots[j].state.Receiving?
    ensures slots[j].seqId in ctxs && SameContext(plans(slots[j].seqId), slots[j], ctxs[slots[j].seqId])
    ensures SlotOk(slots[j])
  {
  }

  /** Both sides write the frame to the context they found or opened. */
  lemma CommitAgrees(
      plans: u16 -> Plan, slots: seq<Slot>, ctxs: map<u16, Ctx>, i: nat, s: Slot, c: Ctx, now: u32, f: Frame)
    requires Agree(plans, slots, ctxs) && Conforms(plans(f.seqId), f) && i < |slots| && SlotOk(s)
    requires s.seqId == f.seqId && SameContext(plans(f.seqId), s, c)
    requires if f.seqId in ctxs then slots[i] == s && ctxs[f.seqId] == c
             else slots[i].state.Free? && c.fragIdx == 0 == f.fragIdx
    requires f.seqId !in ctxs ==> c == Ctx(f.fragTotal, f.total, 0, [])
    requires forall j :: 0 <= j < |slots| && j != i && slots[j].state.Receiving? ==> slots[j].seqId != f.seqId
    ensures var w := Write(s, now, f.fragIdx, f.payload);
            var p := PyReceive(ctxs, f);
            && Acked(w.1) == p.ack && Agree(plans, slots[i := w.0], p.ctxs)
            && p.done == if w.1.Complete? then Some(w.0.buf.value.data) else None
  {
    hide Agree;
    WriteAgrees(plans(f.seqId), s, c, now, f);
    var w := Write(s, now, f.fragIdx, f.payload);
    var next := c.(buffer := c.buffer + f.payload, fragIdx := c.fragIdx + 1);
    if w.1.Complete? {
      ReplaceAgrees(plans, slots, ctxs, i, w.0, f.seqId, None);
    } else if w.1.Success? {
      ReplaceAgrees(plans, slots, ctxs, i, w.0, f.seqId, Some(next));
    } else {
      assert slots[i := s] == slots && ctxs[f.seqId := c] == ctxs;
    }
  }

  /** Exactly when the two receivers make the same ACK decision on a sender-built frame: they part when
      the pool has given up a partial message the client still holds, or has no room for a new one. */
  lemma AckAgreesExactly(plans: u16 -> Plan, slots: seq<Slot>, ctxs: map<u16, Ctx>, now: u32, f: Frame)
    requires Agree(plans, slots, ctxs) && Conforms(plans(f.seqId), f)
    ensures var same := Receive(slots, now, None, f).ack == PyReceive(ctxs, f).ack;
            if f.seqId in ctxs
            then same <==> (forall j :: 0 <= j < |slots| && slots[j].seqId == f.seqId && Expired(slots[j], now) ==>
                              f.fragIdx == 0 || f.fragIdx > ctxs[f.seqId].fragIdx)
            else same <==> f.fragIdx != 0 || HasFree(Expire(slots, now))
  {
    var plan := plans(f.seqId);
    var e := Expire(slots, now);
    FoundAgrees(plans, slots, ctxs, f);
    var m := FirstMatch(slots, None, f, 0);
    assert forall j :: 0 <= j < |slots| ==> e[j] == Reclaim(slots[j], now);
    if m.Some? {
      var i := m.value;
      AgreeAt(plans, slots, ctxs, i);
      var c := ctxs[f.seqId];
      if Expired(slots[i], now) {
        assert e[i].state.Free?;
        assert FirstMatch(e, None, f, 0).None?;
        if f.fragIdx == 0 {
          OpenAcks(plan, e, now, f);
        }
      } else {
        WriteAgrees(plan, slots[i], c, now, f);
        assert FirstMatch(e, None, f, 0) == Some(i);
      }
    } else {
      assert FirstMatch(e, None, f, 0).None?;
      if f.fragIdx == 0 && HasFree(e) {
        OpenAcks(plan, e, now, f);
      }
    }
  }

  /** The first fragment of a message is acknowledged once it has a context. */
  lemma OpenAcks(plan: Plan, e: seq<Slot>, now: u32, f: Frame)
    requires Conforms(plan, f) && f.fragIdx == 0 && HasFree(e)
    ensures FirstFree(e, 0).Some?
    ensures Acked(Write(Opened(e[FirstFree(e, 0).value], now, f), now, 0, f.payload).1)
  {
    var x :| 0 <= x < |e| && e[x].state.Free?;
    assert plan.p * 0 == 0;
    var s := Opened(e[FirstFree(e, 0).value], now, f);
    WriteAgrees(plan, s, Ctx(f.fragTotal, f.total, 0, []), now, f);
  }

  /** What either sender builds conforms, and before the first frame the two receivers agree. */
  lemma SentConforms(m: Message, i: nat)
    requires m.Valid() && i < m.Count()
    ensures Conforms(Plan(|m.data|, m.p), FrameOf(m, i))
  {
    CountBounds(|m.data|, m.p);
    ChunkStep(m, i);
  }

  lemma AgreeAtStart(plans: u16 -> Plan, capacity: nat)
    ensures Agree(plans, Empty(capacity), map[])
  {
  }

  /** The client never looks at the announced total. */
  lemma TotalIsIgnored(ctxs: map<u16, Ctx>, f: Frame, total: u16)
    ensures var a, b := PyReceive(ctxs, f), PyReceive(ctxs, f.(total := total));
            a.ack == b.ack && a.done == b.done && a.ctxs.Keys == b.ctxs.Keys
  {
  }

  // ---- Whole streams -------------------------------------------------------------------------

  /** ACK decisions and deliveries of a stream of frames at the firmware, completed buffers released at
      once. */
  ghost function PoolRun(slots: seq<Slot>, fs: seq<(u32, Frame)>): (seq<bool>, seq<bytes>)
    requires PoolOk(slots)
    decreases |fs|
  {
    if |fs| == 0 then ([], [])
    else
      var o := Receive(slots, fs[0].0, None, fs[0].1);
      var r := PoolRun(if o.done.Some? then Unref(o.slots, o.done.value) else o.slots, fs[1..]);
      ([o.ack] + r.0, (if o.done.Some? then [Payload(o.slots, o.done.value)] else []) + r.1)
  }

  ghost function PyRun(ctxs: map<u16, Ctx>, fs: seq<(u32, Frame)>): (seq<bool>, seq<bytes>)
    decreases |fs|
  {
    if |fs| == 0 then ([], [])
    else
      var o := PyReceive(ctxs, fs[0].1);
      var r := PyRun(o.ctxs, fs[1..]);
      ([o.ack] + r.0, (if o.done.Some? then [o.done.value] else []) + r.1)
  }

  /** Sender-built frames, each of which meets a free context and no expired one. */
  ghost predicate Smooth(plans: u16 -> Plan, slots: seq<Slot>, fs: seq<(u32, Frame)>)
    requires PoolOk(slots)
    decreases |fs|
  {
    |fs| > 0 ==>
      && Conforms(plans(fs[0].1.seqId), fs[0].1) && NoneExpired(slots, fs[0].0) && HasFree(slots)
      && (var o := Receive(slots, fs[0].0, None, fs[0].1);
          Smooth(plans, if o.done.Some? then Unref(o.slots, o.done.value) else o.slots, fs[1..]))
  }

  lemma ReleaseAgrees(plans: u16 -> Plan, slots: seq<Slot>, ctxs: map<u16, Ctx>, i: nat)
    requires Agree(plans, slots, ctxs) && i < |slots| && slots[i].state.Referenced?
    requires slots[i].buf.Some? && slots[i].buf.value.refs >= 1
    ensures Agree(plans, Unref(slots, i), ctxs)
  {
    var slots' := Unref(slots, i);
    forall q | q in ctxs
      ensures Present(slots', q)
    {
      assert Present(slots, q);
      var j :| 0 <= j < |slots| && slots[j].state.Receiving? && slots[j].seqId == q;
      assert slots'[j].state.Receiving?;
    }
  }

  /** On any such stream the two receivers acknowledge the same frames and deliver the same messages in
      the same order. */
  lemma {:induction false} StreamsAgree(
      plans: u16 -> Plan, slots: seq<Slot>, ctxs: map<u16, Ctx>, fs: seq<(u32, Frame)>)
    requires Agree(plans, slots, ctxs) && Smooth(plans, slots, fs)
    ensures PoolRun(slots, fs) == PyRun(ctxs, fs)
    decreases |fs|
  {
    hide Agree;
    hide Receive;
    hide PyReceive;
    AgreePool(plans, slots, ctxs);
    if |fs| > 0 {
      var (now, f) := fs[0];
      FrameAgrees(plans, slots, ctxs, now, f);
      var o := Receive(slots, now, None, f);
      var p := PyReceive(ctxs, f);
      if o.done.Some? {
        ReleaseAgrees(plans, o.slots, p.ctxs, o.done.value);
      }
      StreamsAgree(plans, if o.done.Some? then Unref(o.slots, o.done.value) else o.slots, p.ctxs, fs[1..]);
    }
  }
}
