/** The pool of reassembly contexts of transport_buffer.c as a value: what one call of
    transport_buffer_pool_get and transport_buffer_write does to the contexts. A context that
    points at a net_buf carries that net_buf's contents and reference count here; the class
    TransportBufferPool works on the handles and is proved against these functions. */
module Reassembly {
  import opened Bytes

  const BUFFER_SIZE: nat := 512
  const RX_TIMEOUT_MS: nat := 10000
  const WRAP32: nat := 0x1_0000_0000

  datatype State = Free | Receiving | Referenced

  datatype NetBuf = NetBuf(data: bytes, refs: nat)

  datatype Slot = Slot(
    state: State, seqId: u16, total: u16, fragTotal: u8, fragIdx: u8,
    lastRx: u32, srcId: u32, buf: Option<NetBuf>)

  /** A data frame once its header is decoded. */
  datatype Frame = Frame(seqId: u16, fragTotal: u8, fragIdx: u8, total: u16, payload: bytes)

  datatype WriteRet = Success | Duplicate | Complete | Overrun | InvalidFinalSize | OutOfOrder | InvalidArgs

  /** FREE holds exactly when there is no buffer, and only the transport owns a partial message. */
  predicate SlotOk(s: Slot) {
    && (s.state.Free? <==> s.buf.None?)
    && (s.state.Receiving? ==> s.buf.value.refs == 1)
    && (s.state.Referenced? ==> s.buf.value.refs >= 1)
  }

  predicate PoolOk(slots: seq<Slot>) {
    forall i :: 0 <= i < |slots| ==> SlotOk(slots[i])
  }

  /** A pool as initialised. */
  function Empty(capacity: nat): (slots: seq<Slot>)
    ensures PoolOk(slots)
  {
    seq(capacity, _ => Slot(Free, 0, 0, 0, 0, 0, 0, None))
  }

  /** Every buffer is within its size. */
  predicate Within(slots: seq<Slot>) {
    forall i :: 0 <= i < |slots| && slots[i].buf.Some? ==> |slots[i].buf.value.data| <= BUFFER_SIZE
  }

  // ---- Expiry --------------------------------------------------------------------------------

  /** Difference of two readings of the wrapping 32-bit millisecond counter. */
  function Elapsed(now: u32, last: u32): u32 {
    (now - last) % WRAP32
  }

  predicate Expired(s: Slot, now: u32) {
    s.state.Receiving? && Elapsed(now, s.lastRx) >= RX_TIMEOUT_MS
  }

  function Reclaim(s: Slot, now: u32): Slot {
    if Expired(s, now) then s.(buf := None, state := Free) else s
  }

  /** The contexts after the expiry scan has passed the first n of them. */
  function ExpireUpTo(slots: seq<Slot>, now: u32, n: nat): (r: seq<Slot>)
    ensures |r| == |slots|
  {
    seq(|slots|, i requires 0 <= i < |slots| => if i < n then Reclaim(slots[i], now) else slots[i])
  }

  function Expire(slots: seq<Slot>, now: u32): (r: seq<Slot>)
    ensures |r| == |slots|
  {
    ExpireUpTo(slots, now, |slots|)
  }

  // ---- Lookup --------------------------------------------------------------------------------

  /** src is None for a pool without the additional query callback (the BLE service). */
  predicate Matches(s: Slot, src: Option<u32>, f: Frame) {
    && s.state.Receiving?
    && s.seqId == f.seqId && s.fragTotal == f.fragTotal && s.total == f.total
    && (src.Some? ==> s.srcId == src.value)
  }

  function FirstMatch(slots: seq<Slot>, src: Option<u32>, f: Frame, from: nat): (r: Option<nat>)
    requires from <= |slots|
    ensures r.Some? ==>
              && from <= r.value < |slots| && Matches(slots[r.value], src, f)
              && forall j :: from <= j < r.value ==> !Matches(slots[j], src, f)
    ensures r.None? ==> forall j :: from <= j < |slots| ==> !Matches(slots[j], src, f)
    decreases |slots| - from
  {
    if from == |slots| then None
    else if Matches(slots[from], src, f) then Some(from)
    else FirstMatch(slots, src, f, from + 1)
  }

  function FirstFree(slots: seq<Slot>, from: nat): (r: Option<nat>)
    requires from <= |slots|
    ensures r.Some? ==>
              && from <= r.value < |slots| && slots[r.value].state.Free?
              && forall j :: from <= j < r.value ==> !slots[j].state.Free?
    ensures r.None? ==> forall j :: from <= j < |slots| ==> !slots[j].state.Free?
    decreases |slots| - from
  {
    if from == |slots| then None
    else if slots[from].state.Free? then Some(from)
    else FirstFree(slots, from + 1)
  }

  /** A free context claimed for the message of f. The source id is not written here, so an
      augmented context still shows the source of its previous use. */
  function Opened(s: Slot, now: u32, f: Frame): Slot {
    s.(state := Receiving, seqId := f.seqId, total := f.total, fragTotal := f.fragTotal, fragIdx := 0,
       lastRx := now, buf := Some(NetBuf([], 1)))
  }

  function Get(slots: seq<Slot>, now: u32, src: Option<u32>, f: Frame): (r: (seq<Slot>, Option<nat>))
    ensures |r.0| == |slots|
    ensures r.1.Some? ==> r.1.value < |slots| && r.0[r.1.value].state.Receiving? && r.0[r.1.value].total == f.total
    ensures PoolOk(slots) ==> PoolOk(r.0)
  {
    var e := Expire(slots, now);
    var m := FirstMatch(e, src, f, 0);
    if m.Some? then (e, m)
    else if f.fragIdx != 0 then (e, None)
    else
      var i := FirstFree(e, 0);
      if i.None? then (e, None) else (e[i.value := Opened(e[i.value], now, f)], i)
  }

  // ---- Write ---------------------------------------------------------------------------------

  function Write(s: Slot, now: u32, fragIdx: u8, payload: bytes): (r: (Slot, WriteRet))
    requires s.buf.Some?
    ensures r.0.buf.Some?
    ensures SlotOk(s) && s.state.Receiving? ==> SlotOk(r.0)
  {
    if payload == [] then (s, InvalidArgs)
    else if fragIdx > s.fragIdx then (s, OutOfOrder)
    else if fragIdx < s.fragIdx then (s, Duplicate)
    else if |s.buf.value.data| + |payload| > s.total then (s, Overrun)
    else
      var data := s.buf.value.data + payload;
      var next := (s.fragIdx + 1) % 0x100;
      var t := s.(buf := Some(s.buf.value.(data := data)), lastRx := now, fragIdx := next);
      if next != s.fragTotal then (t, Success)
      else if |data| != s.total then (t, InvalidFinalSize)
      else (t.(state := Referenced), Complete)
  }

  /** Which return code means what, and that every failure but a wrong final size leaves the context alone. */
  lemma ReturnCodes(s: Slot, now: u32, fragIdx: u8, payload: bytes)
    requires s.buf.Some?
    ensures var (t, ret) := Write(s, now, fragIdx, payload);
            && (ret == InvalidArgs <==> payload == [])
            && (payload != [] ==>
                  && (ret == OutOfOrder <==> fragIdx > s.fragIdx)
                  && (ret == Duplicate <==> fragIdx < s.fragIdx)
                  && (ret == Overrun <==> fragIdx == s.fragIdx && |s.buf.value.data| + |payload| > s.total))
            && (ret in {InvalidArgs, OutOfOrder, Duplicate, Overrun} <==> t == s)
            && (ret == Success ==> t.fragIdx != s.fragTotal && t.state == s.state)
            && (ret == InvalidFinalSize ==>
                  t.fragIdx == s.fragTotal && |t.buf.value.data| < s.total && t.state == s.state)
            && (ret == Complete ==> t.fragIdx == s.fragTotal && |t.buf.value.data| == s.total && t.state == Referenced)
  {
  }

  predicate Acked(ret: WriteRet) {
    ret.Success? || ret.Duplicate? || ret.Complete?
  }

  // ---- One received data frame ---------------------------------------------------------------

  /** Contexts after the frame, whether it was acknowledged, and the context it completed. */
  datatype Outcome = Outcome(slots: seq<Slot>, ack: bool, done: Option<nat>)

  function Tag(s: Slot, src: Option<u32>): Slot {
    if src.Some? then s.(srcId := src.value) else s
  }

  function Receive(slots: seq<Slot>, now: u32, src: Option<u32>, f: Frame): (o: Outcome)
    requires PoolOk(slots)
    ensures |o.slots| == |slots|
    ensures PoolOk(o.slots)
    ensures o.done.Some? ==>
              && o.ack && o.done.value < |slots|
              && o.slots[o.done.value].state.Referenced? && o.slots[o.done.value].buf.value.refs == 1
  {
    var g := Get(slots, now, src, f);
    if g.1.None? then Outcome(g.0, false, None)
    else
      var i := g.1.value;
      var w := Write(Tag(g.0[i], src), now, f.fragIdx, f.payload);
      Outcome(g.0[i := w.0], Acked(w.1), if w.1.Complete? then Some(i) else None)
  }

  // ---- References ----------------------------------------------------------------------------

  function Ref(slots: seq<Slot>, i: nat): (r: seq<Slot>)
    requires i < |slots|
    ensures PoolOk(slots) && !slots[i].state.Receiving? ==> PoolOk(r)
  {
    if slots[i].buf.None? then slots
    else slots[i := slots[i].(buf := Some(slots[i].buf.value.(refs := slots[i].buf.value.refs + 1)))]
  }

  function Unref(slots: seq<Slot>, i: nat): (r: seq<Slot>)
    requires i < |slots|
    requires slots[i].buf.Some? ==> slots[i].buf.value.refs >= 1
    ensures PoolOk(slots) ==> PoolOk(r)
  {
    if slots[i].buf.None? then slots
    else if slots[i].buf.value.refs == 1 then slots[i := slots[i].(state := Free, buf := None)]
    else slots[i := slots[i].(buf := Some(slots[i].buf.value.(refs := slots[i].buf.value.refs - 1)))]
  }

  /** Contents of a completed context. */
  function Payload(slots: seq<Slot>, i: nat): bytes
    requires i < |slots| && slots[i].buf.Some?
  {
    slots[i].buf.value.data
  }

  /** What the rx callback can read off a completed context; only an augmented one has a source. */
  datatype HandUp = HandUp(src: Option<u32>, data: bytes)

  function Given(slots: seq<Slot>, i: nat, bySource: bool): HandUp
    requires i < |slots| && slots[i].buf.Some?
  {
    HandUp(if bySource then Some(slots[i].srcId) else None, Payload(slots, i))
  }
}
