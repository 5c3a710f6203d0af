/** One write over the DECT link in bytes: the transport frames, their link frames on air, the receiver's
    link layer and pool, and its acknowledgements all the way back to the sender. */
module Stack {
  import opened Bytes
  import opened Reassembly
  import opened Fragmentation
  import opened Wire
  import opened StopAndWait
  import opened WriteOutcome
  import LinkLayer
  import Sending
  import Transport

  /** Sender and receiver, what their link layers' slots hold before attempt a of fragment i, and what lies
      behind the slots in memory. */
  datatype Path = Path(
    src: u32, dst: u32, rxSlot: (nat, nat) -> bytes, txSlot: (nat, nat) -> bytes, beyond: bytes)
  {
    ghost predicate Valid() {
      && (forall i, a :: |rxSlot(i, a)| == LinkLayer.MTU && |txSlot(i, a)| == LinkLayer.MTU)
      && |beyond| == LinkLayer.BEYOND
    }
  }

  /** A message the DECT transport of device src sends. */
  ghost predicate FromDect(m: Message, src: u32) {
    m.Valid() && |m.data| <= BUFFER_SIZE && m.p == DECT_PAYLOAD && m.src == Some(src)
  }

  function FrameOnAir(m: Message, i: nat, src: u32, dst: u32): bytes
    requires m.Valid() && m.p == DECT_PAYLOAD && i < m.Count()
  {
    ChunkStep(m, i);
    LinkLayer.EncodeFrame(src, dst, EncodeData(Dect, FrameOf(m, i)))
  }

  /** A device hears a link frame, alone in its receive window: its world, its slot, and the ACK it puts on
      air. */
  function HearData(w: World, deviceId: u32, slot: bytes, beyond: bytes, raw: bytes): (World, bytes, Option<bytes>)
    requires PoolOk(w.slots) && |slot| == LinkLayer.MTU && |beyond| == LinkLayer.BEYOND
  {
    var r := LinkLayer.Window(deviceId, slot, [raw]);
    if !r.1 then (w, r.0, None)
    else
      var (src, buf) := LinkLayer.Extract(r.0, beyond);
      if !IsData(buf) then (w, r.0, None)
      else
        var f := DecodeData(Dect, buf);
        var x := Arrive(w, Transport.SourceKey(Dect, src), f);
        (x.0, r.0,
         if x.1 then Some(LinkLayer.EncodeFrame(deviceId, src, EncodeAck(f.seqId, f.fragIdx))) else None)
  }

  /** Whether what a device hears gives its semaphore. */
  function HearAck(deviceId: u32, slot: bytes, beyond: bytes, raw: bytes): bool
    requires |slot| == LinkLayer.MTU && |beyond| == LinkLayer.BEYOND
  {
    var r := LinkLayer.Window(deviceId, slot, [raw]);
    r.1 && Transport.IsAck(Dect, LinkLayer.Extract(r.0, beyond).1)
  }

  /** The attempts of fragment i on air, from attempt a on. */
  ghost function AirFragment(w: World, m: Message, i: nat, a: nat, ch: Channel, path: Path): (r: (World, bool))
    requires PoolOk(w.slots) && FromDect(m, path.src) && path.Valid() && i < m.Count() && a <= TX_ATTEMPTS
    ensures PoolOk(r.0.slots)
    decreases TX_ATTEMPTS - a
  {
    if a == TX_ATTEMPTS then (w, false)
    else if ch.fate(i, a).DataLost? then AirFragment(Pass(w, Waits(1), ch.other(i, a)), m, i, a + 1, ch, path)
    else
      var (v, _, ack) := HearData(w, path.dst, path.rxSlot(i, a), path.beyond, FrameOnAir(m, i, path.src, path.dst));
      if ch.fate(i, a).BothArrive? && ack.Some? && HearAck(path.src, path.txSlot(i, a), path.beyond, ack.value)
      then (Pass(v, ch.wait(i), ch.other(i, a)), true)
      else AirFragment(Pass(v, Waits(1), ch.other(i, a)), m, i, a + 1, ch, path)
  }

  /** The write on air from fragment i on. */
  ghost function AirFrom(w: World, m: Message, i: nat, ch: Channel, path: Path): (r: (World, bool))
    requires PoolOk(w.slots) && FromDect(m, path.src) && path.Valid() && i <= m.Count()
    ensures PoolOk(r.0.slots)
    decreases m.Count() - i
  {
    if i == m.Count() then (w, true)
    else
      var r := AirFragment(w, m, i, 0, ch, path);
      if r.1 then AirFrom(r.0, m, i + 1, ch, path) else r
  }

  /** A link frame alone in its window reaches its addressee, whole, and nobody else. */
  lemma AloneInWindow(src: u32, dst: u32, payload: bytes, deviceId: u32, slot: bytes, beyond: bytes)
    requires |payload| <= LinkLayer.MAX_PAYLOAD && |slot| == LinkLayer.MTU && |beyond| == LinkLayer.BEYOND
    ensures var r := LinkLayer.Window(deviceId, slot, [LinkLayer.EncodeFrame(src, dst, payload)]);
            r.1 == (deviceId == dst) && (r.1 ==> LinkLayer.Extract(r.0, beyond) == (src, payload))
  {
    hide LinkLayer.Accepted;
    hide LinkLayer.EncodeFrame;
    hide LinkLayer.Extract;
    LinkLayer.LinkRoundTrip(src, dst, payload, deviceId, slot, beyond);
    var events: seq<bytes> := [LinkLayer.EncodeFrame(src, dst, payload)];
    assert events[..0] == [];
    assert LinkLayer.Window(deviceId, slot, []) == (slot, false);
  }

  /** A data frame of the message on air means to its addressee what the frame itself does, and its ACK
      on air is an ACK to the sender. */
  lemma OnAirIsArrival(w: World, m: Message, i: nat, path: Path, rx: bytes, tx: bytes)
    requires PoolOk(w.slots) && FromDect(m, path.src) && path.Valid() && i < m.Count()
    requires |rx| == LinkLayer.MTU && |tx| == LinkLayer.MTU
    ensures var (v, _, ack) := HearData(w, path.dst, rx, path.beyond, FrameOnAir(m, i, path.src, path.dst));
            var r := Arrive(w, m.src, FrameOf(m, i));
            v == r.0 && ack.Some? == r.1 && (ack.Some? ==> HearAck(path.src, tx, path.beyond, ack.value))
  {
    hide Arrive;
    hide LinkLayer.Window;
    hide LinkLayer.Extract;
    hide LinkLayer.EncodeFrame;
    ChunkStep(m, i);
    var f := FrameOf(m, i);
    DataRoundTrip(Dect, f);
    AloneInWindow(path.src, path.dst, EncodeData(Dect, f), path.dst, rx, path.beyond);
    AloneInWindow(path.dst, path.src, EncodeAck(f.seqId, f.fragIdx), path.src, tx, path.beyond);
  }

  lemma {:induction false} AirFragmentAgrees(w: World, m: Message, i: nat, a: nat, ch: Channel, path: Path)
    requires PoolOk(w.slots) && FromDect(m, path.src) && path.Valid() && i < m.Count() && a <= TX_ATTEMPTS
    ensures AirFragment(w, m, i, a, ch, path) == SendFragment(w, m, i, a, ch)
    decreases TX_ATTEMPTS - a
  {
    hide Arrive;
    hide Pass;
    hide HearData;
    hide HearAck;
    hide FrameOnAir;
    if a < TX_ATTEMPTS {
      var v := w;
      if !ch.fate(i, a).DataLost? {
        OnAirIsArrival(w, m, i, path, path.rxSlot(i, a), path.txSlot(i, a));
        v := Arrive(w, m.src, FrameOf(m, i)).0;
      }
      AirFragmentAgrees(Pass(v, Waits(1), ch.other(i, a)), m, i, a + 1, ch, path);
    }
  }

  /** The write on air is the write of module StopAndWait. */
  lemma {:induction false} AirAgrees(w: World, m: Message, i: nat, ch: Channel, path: Path)
    requires PoolOk(w.slots) && FromDect(m, path.src) && path.Valid() && i <= m.Count()
    ensures AirFrom(w, m, i, ch, path) == SendFrom(w, m, i, ch)
    decreases m.Count() - i
  {
    hide AirFragment;
    hide SendFragment;
    if i < m.Count() {
      AirFragmentAgrees(w, m, i, 0, ch, path);
      var r := SendFragment(w, m, i, 0, ch);
      if r.1 {
        AirAgrees(r.0, m, i + 1, ch, path);
      }
    }
  }

  /** The whole stack in bytes, over every lossy channel and for every message the DECT transport sends: the
      receiving device is given exactly the bytes written and the sender's address, exactly as often as the
      transfer theorems say, and the write returns 0 exactly when they say. */
  lemma AirOutcome(w: World, m: Message, ch: Channel, path: Path)
    requires PoolOk(w.slots) && FromDect(m, path.src) && path.Valid()
    requires ch.Valid() && ch.Apart(m) && Idle(w.slots, m)
    ensures var r := AirFrom(w, m, 0, ch, path);
            r.0.got == w.got + Receipts(w, m, ch) && (r.1 <==> Reported(w, m, ch))
    ensures forall h :: h in Receipts(w, m, ch) ==> h == HandUp(Some(path.src), m.data)
  {
    hide AirFrom;
    hide SendFrom;
    AirAgrees(w, m, 0, ch, path);
    SendOutcome(w, m, ch);
  }

  /** One call of the DECT transport's write, by a device src with data of 1 to 512 bytes: the message it sends
      is one the stack theorem speaks about, and with the answers of that channel its status is success
      exactly when the theorem says. */
  lemma DectWriteOutcome(w: World, src: u32, seqId: u16, data: bytes, ch: Channel, path: Path, link: Sending.Link)
    requires 1 <= |data| <= BUFFER_SIZE
    ensures FromDect(Transport.TheMessage(Dect, src, seqId, data), src)
    ensures var m := Transport.TheMessage(Dect, src, seqId, data);
            PoolOk(w.slots) && path.Valid() && path.src == src && ch.Valid() && ch.Apart(m) && Idle(w.slots, m)
            && Answers(link, w, m, ch) ==>
              && AirFrom(w, m, 0, ch, path).0.got == w.got + Receipts(w, m, ch)
              && (forall h :: h in Receipts(w, m, ch) ==> h == HandUp(Some(src), data))
              && (Sending.SendStatus(m, link, 0) == Sending.Ok <==> Reported(w, m, ch))
  {
    hide AirFrom;
    hide Receipts;
    hide Reported;
    hide Answers;
    hide Idle;
    Transport.MessageValid(Dect, src, seqId, data);
    var m := Transport.TheMessage(Dect, src, seqId, data);
    if PoolOk(w.slots) && path.Valid() && path.src == src && ch.Valid() && ch.Apart(m) && Idle(w.slots, m)
       && Answers(link, w, m, ch)
    {
      AirOutcome(w, m, ch, path);
      WriteSucceedsExactly(link, w, m, ch);
    }
  }

  /** Where nothing is lost, every message the DECT transport sends comes back whole with its source, and
      the write returns 0. */
  lemma StackRoundTrip(w: World, m: Message, ch: Channel, path: Path)
    requires PoolOk(w.slots) && FromDect(m, path.src) && path.Valid()
    requires ch.Valid() && ch.Apart(m) && Idle(w.slots, m) && Room(w) && forall i, a :: ch.fate(i, a).BothArrive?
    ensures var r := AirFrom(w, m, 0, ch, path);
            r.1 && r.0.got == w.got + [HandUp(Some(path.src), m.data)]
  {
    hide AirFrom;
    hide Room;
    CountBounds(|m.data|, m.p);
    AirOutcome(w, m, ch, path);
    assert Land(w, m, 0, ch) == (w, 0);
    if m.Count() == 1 {
      assert Repeat(m.Whole(), 1) == [m.Whole()];
    } else {
      LosslessReaches(ch, m.Count() - 1);
    }
  }

  lemma {:induction false} LosslessReaches(ch: Channel, i: nat)
    requires forall i, a :: ch.fate(i, a).BothArrive?
    ensures Reaches(ch, 0, i) && Heard(ch, 0, i) == Arrived(ch, 0, i) == 0
  {
    if i > 0 {
      LosslessReaches(ch, i - 1);
    }
  }

  /** A device hears link frames, each alone in its window. */
  function HearAll(w: World, deviceId: u32, slot: bytes, beyond: bytes, raws: seq<bytes>): World
    requires PoolOk(w.slots) && |slot| == LinkLayer.MTU && |beyond| == LinkLayer.BEYOND
    decreases |raws|
  {
    if |raws| == 0 then w
    else
      var h := HearData(w, deviceId, slot, beyond, raws[0]);
      HearAll(h.0, deviceId, h.1, beyond, raws[1..])
  }

  /** A device that link frames are not addressed to is untouched by them, whatever they carry. */
  lemma {:induction false} OthersHearNothing(
      w: World, deviceId: u32, slot: bytes, beyond: bytes, src: u32, dst: u32, payloads: seq<bytes>, raws: seq<bytes>)
    requires PoolOk(w.slots) && |slot| == LinkLayer.MTU && |beyond| == LinkLayer.BEYOND && deviceId != dst
    requires |raws| == |payloads|
    requires forall k :: 0 <= k < |raws| ==>
               |payloads[k]| <= LinkLayer.MAX_PAYLOAD && raws[k] == LinkLayer.EncodeFrame(src, dst, payloads[k])
    ensures HearAll(w, deviceId, slot, beyond, raws) == w
    decreases |raws|
  {
    hide LinkLayer.Window;
    hide LinkLayer.EncodeFrame;
    hide Arrive;
    if |raws| > 0 {
      AloneInWindow(src, dst, payloads[0], deviceId, slot, beyond);
      var h := HearData(w, deviceId, slot, beyond, raws[0]);
      OthersHearNothing(w, deviceId, h.1, beyond, src, dst, payloads[1..], raws[1..]);
    }
  }
}
