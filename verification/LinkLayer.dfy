/** dect_link_layer.c without the modem: framing, the address filter and the one-slot receive. */
module LinkLayer {
  import opened Bytes

  const MAGIC: u32 := 0xDEC7DA7A
  const HEADER: nat := 15
  const MTU: nat := 37
  const MAX_PAYLOAD: nat := 22

  /** As much memory behind the stored frame as any payload size can reach. */
  const BEYOND: nat := 0x1_0000

  function Zeros(n: nat): bytes {
    seq(n, _ => 0)
  }

  /** A transmitted frame: packed header, payload, zero padding up to the MTU. */
  function EncodeFrame(src: u32, dst: u32, payload: bytes): (b: bytes)
    requires |payload| <= MAX_PAYLOAD
    ensures |b| == MTU
  {
    Le32(MAGIC) + [1] + Le32(src) + Le32(dst) + Le16(|payload|) + payload + Zeros(MAX_PAYLOAD - |payload|)
  }

  /** The checks of the PDC event handler. */
  predicate Accepted(deviceId: u32, data: bytes) {
    && HEADER <= |data| <= MTU
    && FromLe32(data[0..4]) == MAGIC
    && FromLe32(data[9..13]) == deviceId
  }

  function PayloadSize(frame: bytes): u16
    requires |frame| >= HEADER
  {
    FromLe16(frame[13..15])
  }

  /** What the rx callback is given for a stored frame. The payload size is the frame's own claim; where it
      is too big, what lies behind the frame in memory is read as well. */
  function Extract(frame: bytes, beyond: bytes): (u32, bytes)
    requires |frame| == MTU && |beyond| == BEYOND
  {
    (FromLe32(frame[5..9]), (frame + beyond)[HEADER..HEADER + PayloadSize(frame)])
  }

  /** memcpy of a received frame over the stored one: a short frame leaves the old tail. */
  function Store(frame: bytes, data: bytes): (r: bytes)
    requires |data| <= |frame|
    ensures |r| == |frame|
  {
    data + frame[|data|..]
  }

  /** The stored frame after the events of one receive window, and whether there was one for us. */
  function Window(deviceId: u32, frame: bytes, events: seq<bytes>): (r: (bytes, bool))
    requires |frame| == MTU
    ensures |r.0| == MTU
  {
    if |events| == 0 then (frame, false)
    else
      var last := events[|events| - 1];
      var w := Window(deviceId, frame, events[..|events| - 1]);
      if Accepted(deviceId, last) then (Store(w.0, last), true) else w
  }

  /** Only the addressee accepts a frame, and extracts exactly source and payload whatever the slot held
      before. */
  lemma LinkRoundTrip(src: u32, dst: u32, payload: bytes, deviceId: u32, slot: bytes, beyond: bytes)
    requires |payload| <= MAX_PAYLOAD && |slot| == MTU && |beyond| == BEYOND
    ensures var b := EncodeFrame(src, dst, payload);
            && (Accepted(deviceId, b) <==> deviceId == dst)
            && Extract(Store(slot, b), beyond) == (src, payload)
  {
    var b := EncodeFrame(src, dst, payload);
    assert b[0..4] == Le32(MAGIC) && b[5..9] == Le32(src) && b[9..13] == Le32(dst) && b[13..15] == Le16(|payload|);
    assert Store(slot, b) == b;
    assert (b + beyond)[HEADER..HEADER + |payload|] == payload;
  }

  /** What a received frame makes the callback be given, whatever was stored and lies in memory before. */
  ghost predicate Clean(data: bytes)
    requires HEADER <= |data| <= MTU
  {
    forall slot: bytes, slot': bytes, beyond: bytes, beyond': bytes ::
      |slot| == MTU && |slot'| == MTU && |beyond| == BEYOND && |beyond'| == BEYOND ==>
        Extract(Store(slot, data), beyond) == Extract(Store(slot', data), beyond')
  }

  function Filled(n: nat, x: u8): bytes {
    seq(n, _ => x)
  }

  /** The callback is given the sender's bytes and nothing else exactly when the frame claims no more payload
      than it has: not the tail of an earlier frame behind a short one, nor memory behind the slot. */
  lemma CleanExactly(data: bytes)
    requires HEADER <= |data| <= MTU
    ensures Clean(data) <==> PayloadSize(data) <= |data| - HEADER
    ensures Clean(data) ==> forall slot: bytes, beyond: bytes :: |slot| == MTU && |beyond| == BEYOND ==>
              Extract(Store(slot, data), beyond) == (FromLe32(data[5..9]), data[HEADER..HEADER + PayloadSize(data)])
  {
    hide Extract;
    hide Store;
    hide PayloadSize;
    var n := PayloadSize(data);
    if n <= |data| - HEADER {
      forall slot: bytes, beyond: bytes | |slot| == MTU && |beyond| == BEYOND
        ensures Extract(Store(slot, data), beyond) == (FromLe32(data[5..9]), data[HEADER..HEADER + n])
      {
        OwnBytes(data, slot, beyond);
      }
    } else {
      StaleByte(data, 0);
      StaleByte(data, 1);
      var a := Extract(Store(Filled(MTU, 0), data), Filled(BEYOND, 0));
      var b := Extract(Store(Filled(MTU, 1), data), Filled(BEYOND, 1));
      assert a.1[|data| - HEADER] != b.1[|data| - HEADER];
      assert a != b;
    }
  }

  lemma OwnBytes(data: bytes, slot: bytes, beyond: bytes)
    requires HEADER <= |data| <= MTU && |slot| == MTU && |beyond| == BEYOND && PayloadSize(data) <= |data| - HEADER
    ensures Extract(Store(slot, data), beyond) == (FromLe32(data[5..9]), data[HEADER..HEADER + PayloadSize(data)])
  {
    hide Extract;
    hide PayloadSize;
    var n := PayloadSize(data);
    ExtractStored(data, slot, beyond);
    assert (Store(slot, data) + beyond)[HEADER..HEADER + n] == data[HEADER..HEADER + n];
  }

  lemma StaleByte(data: bytes, x: u8)
    requires HEADER <= |data| <= MTU && PayloadSize(data) > |data| - HEADER
    ensures var p := Extract(Store(Filled(MTU, x), data), Filled(BEYOND, x)).1;
            |data| - HEADER < |p| && p[|data| - HEADER] == x
  {
    hide Extract;
    hide PayloadSize;
    ExtractStored(data, Filled(MTU, x), Filled(BEYOND, x));
    var memory := Store(Filled(MTU, x), data) + Filled(BEYOND, x);
    var n := PayloadSize(data);
    var p := Extract(Store(Filled(MTU, x), data), Filled(BEYOND, x)).1;
    assert memory[|data|] == x;
    assert p == memory[HEADER..HEADER + n] && |p| == n;
    assert p[|data| - HEADER] == memory[|data|];
  }

  lemma ExtractStored(data: bytes, slot: bytes, beyond: bytes)
    requires HEADER <= |data| <= MTU && |slot| == MTU && |beyond| == BEYOND
    ensures PayloadSize(Store(slot, data)) == PayloadSize(data)
    ensures Extract(Store(slot, data), beyond)
         == (FromLe32(data[5..9]), (Store(slot, data) + beyond)[HEADER..HEADER + PayloadSize(data)])
  {
    assert Store(slot, data)[13..15] == data[13..15] && Store(slot, data)[5..9] == data[5..9];
  }

  /** Of several frames in one window the last one for the device is what it gets. */
  lemma {:induction false} LastForUsWins(
      deviceId: u32, frame: bytes, before: seq<bytes>, src: u32, payload: bytes, after: seq<bytes>, beyond: bytes)
    requires |frame| == MTU && |payload| <= MAX_PAYLOAD && |beyond| == BEYOND
    requires forall e :: e in after ==> !Accepted(deviceId, e)
    ensures var w := Window(deviceId, frame, before + [EncodeFrame(src, deviceId, payload)] + after);
            w.1 && Extract(w.0, beyond) == (src, payload)
    decreases |after|
  {
    hide Window;
    hide EncodeFrame;
    hide Extract;
    hide Accepted;
    var b := EncodeFrame(src, deviceId, payload);
    var all := before + [b] + after;
    WindowStep(deviceId, frame, all);
    if |after| == 0 {
      assert all[..|all| - 1] == before;
      LinkRoundTrip(src, deviceId, payload, deviceId, Window(deviceId, frame, before).0, beyond);
    } else {
      var rest := after[..|after| - 1];
      assert all[..|all| - 1] == before + [b] + rest;
      assert all[|all| - 1] == after[|after| - 1];
      assert after[|after| - 1] in after;
      LastForUsWins(deviceId, frame, before, src, payload, rest, beyond);
    }
  }

  lemma WindowStep(deviceId: u32, frame: bytes, events: seq<bytes>)
    requires |frame| == MTU && |events| > 0
    ensures var last := events[|events| - 1];
            var w := Window(deviceId, frame, events[..|events| - 1]);
            Window(deviceId, frame, events) == if Accepted(deviceId, last) then (Store(w.0, last), true) else w
  {
  }

  datatype Status = Ok | NotInitialized | TooLong

  class LinkLayer {
    const deviceId: u32
    var initialized: bool
    /** tx_queue; a full queue blocks the writer, which is not modelled. */
    var txQueue: seq<bytes>
    const rxFrame: array<u8>
    var validRx: bool
    /** Whether the transport's rx callback is registered. */
    var registered: bool

    ghost predicate Valid()
      reads this, rxFrame
    {
      rxFrame.Length == MTU
    }

    constructor (deviceId: u32)
      ensures Valid() && fresh(rxFrame) && this.deviceId == deviceId
      ensures !initialized && txQueue == [] && !validRx && !registered
    {
      this.deviceId := deviceId;
      rxFrame := new u8[MTU](_ => 0);
      initialized, txQueue, validRx, registered := false, [], false, false;
    }

    /** dect_link_layer_write. */
    method Write(dst: u32, buf: bytes) returns (st: Status)
      modifies this`txQueue
      ensures !initialized ==> st == NotInitialized
      ensures initialized ==> st == if |buf| > MAX_PAYLOAD then TooLong else Status.Ok
      ensures txQueue == old(txQueue) + if st.Ok? then [EncodeFrame(deviceId, dst, buf)] else []
    {
      if !initialized {
        return NotInitialized;
      }
      if |buf| > MAX_PAYLOAD {
        return TooLong;
      }
      txQueue := txQueue + [EncodeFrame(deviceId, dst, buf)];
      st := Ok;
    }

    /** prv_on_phy_pdc_event. */
    method OnPdc(data: bytes)
      requires Valid()
      modifies this`validRx, rxFrame
      ensures Valid()
      ensures if Accepted(deviceId, data)
              then validRx && rxFrame[..] == Store(old(rxFrame[..]), data)
              else validRx == old(validRx) && rxFrame[..] == old(rxFrame[..])
    {
      if |data| < HEADER || |data| > MTU {
        return;
      }
      if FromLe32(data[0..4]) != MAGIC {
        return;
      }
      if FromLe32(data[9..13]) != deviceId {
        return;
      }
      forall k | 0 <= k < |data| {
        rxFrame[k] := data[k];
      }
      validRx := true;
    }

    /** One receive operation: the flag is cleared, PDC events overwrite the one slot, and afterwards the
        callback gets what is in it. */
    method ReceiveWindow(events: seq<bytes>, beyond: bytes) returns (r: Option<(u32, bytes)>)
      requires Valid() && |beyond| == BEYOND
      modifies this`validRx, rxFrame
      ensures Valid()
      ensures var w := Window(deviceId, old(rxFrame[..]), events);
              rxFrame[..] == w.0 && validRx == w.1 && r == if w.1 then Some(Extract(w.0, beyond)) else None
    {
      validRx := false;
      var k := 0;
      while k < |events|
        invariant k <= |events| && Valid()
        invariant (rxFrame[..], validRx) == Window(deviceId, old(rxFrame[..]), events[..k])
      {
        assert events[..k + 1][..k] == events[..k];
        OnPdc(events[k]);
        k := k + 1;
      }
      assert events[..k] == events;
      if !validRx {
        return None;
      }
      r := Some(Extract(rxFrame[..], beyond));
    }

    /** One turn of prv_link_layer_thread: the oldest queued frame goes on air, in whatever way the modem
        takes it, then one receive operation; only a registered callback is given its result. */
    method Turn(events: seq<bytes>, beyond: bytes) returns (onAir: Option<bytes>, r: Option<(u32, bytes)>)
      requires Valid() && |beyond| == BEYOND
      modifies this`txQueue, this`validRx, rxFrame
      ensures Valid()
      ensures old(txQueue) == (if onAir.Some? then [onAir.value] else []) + txQueue
      ensures onAir.None? ==> old(txQueue) == []
      ensures var w := Window(deviceId, old(rxFrame[..]), events);
              rxFrame[..] == w.0 && r == if w.1 && registered then Some(Extract(w.0, beyond)) else None
    {
      onAir := None;
      if txQueue != [] {
        onAir, txQueue := Some(txQueue[0]), txQueue[1..];
      }
      r := ReceiveWindow(events, beyond);
      if !registered {
        r := None;
      }
    }
  }

  /** Every frame is 37 bytes: magic, version 1, source, destination and payload size, 22 bytes of payload
      and padding. */
  lemma FrameBytes(src: u32, dst: u32, payload: bytes)
    requires |payload| <= 22
    ensures var b := EncodeFrame(src, dst, payload);
            && |b| == 37 && b[..5] == [0x7A, 0xDA, 0xC7, 0xDE, 1]
            && b[5..9] == Le32(src) && b[9..13] == Le32(dst) && b[13..15] == [|payload|, 0]
            && b[15..15 + |payload|] == payload
            && (forall i :: 15 + |payload| <= i < 37 ==> b[i] == 0)
    ensures MAX_PAYLOAD == 22
  {
    FrameParts(src, dst, payload);
    assert Le32(MAGIC) == [0x7A, 0xDA, 0xC7, 0xDE] && Le16(|payload|) == [|payload|, 0];
  }

  lemma FrameParts(src: u32, dst: u32, payload: bytes)
    requires |payload| <= MAX_PAYLOAD
    ensures var b := EncodeFrame(src, dst, payload);
            && b[..5] == Le32(MAGIC) + [1] && b[5..9] == Le32(src) && b[9..13] == Le32(dst)
            && b[13..15] == Le16(|payload|) && b[15..15 + |payload|] == payload
            && (forall i :: 15 + |payload| <= i < |b| ==> b[i] == 0)
  {
    hide Le16;
    hide Le32;
  }

  /** What the address filter lets through, byte by byte. */
  lemma AcceptedExactly(deviceId: u32, data: bytes)
    ensures Accepted(deviceId, data) <==>
              15 <= |data| <= 37 && data[0..4] == [0x7A, 0xDA, 0xC7, 0xDE] && data[9..13] == Le32(deviceId)
  {
    if |data| >= 15 {
      Le32Inverse(data[0..4]);
      Le32Inverse(data[9..13]);
      assert Le32(MAGIC) == [0x7A, 0xDA, 0xC7, 0xDE];
    }
  }
}
