/** TextMessage of protocol.py. Text is its UTF-8 encoding, in which NUL is the byte 0 and nothing else. */
module Protocol {
  import opened Bytes
  import opened Reassembly
  import opened Fragmentation
  import opened StopAndWait

  const MESSAGING_ENDPOINT_ID: u8 := 0
  const FRAME_TYPE_TEXT: u8 := 0
  const HEADER_SIZE: nat := 11
  const UUID_SIZE: nat := 16

  datatype TextMessage = TextMessage(src: u32, dst: u32, uuid: bytes, text: bytes)

  datatype Unpacked = Text(m: TextMessage) | TooShort | UnknownType(t: u8)

  function Pack(m: TextMessage): bytes {
    [0, MESSAGING_ENDPOINT_ID] + Le32(m.src) + Le32(m.dst) + [FRAME_TYPE_TEXT] + m.uuid + m.text + [0]
  }

  /** Python slicing: bounds beyond the end are clamped. */
  function Slice(b: bytes, lo: nat, hi: nat): bytes
    requires lo <= hi
  {
    b[Min(lo, |b|)..Min(hi, |b|)]
  }

  function StripNuls(text: bytes): bytes {
    if |text| > 0 && text[|text| - 1] == 0 then StripNuls(text[..|text| - 1]) else text
  }

  function Unpack(data: bytes): Unpacked {
    if |data| < HEADER_SIZE then TooShort
    else if data[10] != FRAME_TYPE_TEXT then UnknownType(data[10])
    else
      var start := HEADER_SIZE + UUID_SIZE;
      Text(TextMessage(FromLe32(data[2..6]), FromLe32(data[6..10]), Slice(data, HEADER_SIZE, start),
                       StripNuls(data[Min(start, |data|)..])))
  }

  /** Stripping leaves a prefix with no NUL at its end and only NULs after it. */
  lemma {:induction false} StripSpec(text: bytes)
    ensures var r := StripNuls(text);
            && r <= text && (|r| > 0 ==> r[|r| - 1] != 0)
            && (forall k :: |r| <= k < |text| ==> text[k] == 0)
            && (r == text <==> |text| == 0 || text[|text| - 1] != 0)
  {
    if |text| > 0 && text[|text| - 1] == 0 {
      StripSpec(text[..|text| - 1]);
    }
  }

  /** Unpacking a packed message strips the trailing NULs of its text, so it is the identity exactly
      when the text does not end in NUL; the message fits a transport exactly up to 484 bytes of text. */
  lemma PackRoundTrip(m: TextMessage)
    requires |m.uuid| == UUID_SIZE
    ensures Unpack(Pack(m)) == Text(m.(text := StripNuls(m.text)))
    ensures Unpack(Pack(m)) == Text(m) <==> |m.text| == 0 || m.text[|m.text| - 1] != 0
    ensures |Pack(m)| <= BUFFER_SIZE <==> |m.text| <= 484
  {
    var b := Pack(m);
    assert b[2..6] == Le32(m.src) && b[6..10] == Le32(m.dst) && b[11..27] == m.uuid && b[27..] == m.text + [0];
    assert (m.text + [0])[..|m.text|] == m.text;
    StripSpec(m.text);
  }

  /** Text end to end: over every channel the receiver is given the packed message as often as the transfer
      theorems say, and each time unpacks it to the message without the trailing NULs of its text. */
  lemma TextEndToEnd(w: World, t: TextMessage, m: Fragmentation.Message, ch: Channel)
    requires PoolOk(w.slots) && |t.uuid| == UUID_SIZE && |t.text| <= 484
    requires m.Valid() && m.data == Pack(t) && ch.Valid() && ch.Apart(m) && Idle(w.slots, m)
    ensures SendFrom(w, m, 0, ch).0.got == w.got + Receipts(w, m, ch)
    ensures forall h :: h in Receipts(w, m, ch) ==> Unpack(h.data) == Text(t.(text := StripNuls(t.text)))
  {
    hide SendFrom;
    hide Receipts;
    hide Pack;
    hide Unpack;
    PackRoundTrip(t);
    SendOutcome(w, m, ch);
  }

  /** The packed message byte by byte: version, endpoint, source, destination, frame type, uuid, text, NUL. */
  lemma PackBytes(m: TextMessage)
    requires |m.uuid| == UUID_SIZE
    ensures var b := Pack(m);
            && b[..2] == [0, 0] && b[2..6] == Le32(m.src) && b[6..10] == Le32(m.dst) && b[10] == 0
            && |b| == 28 + |m.text| && b[11..27] == m.uuid && b[27..27 + |m.text|] == m.text && b[27 + |m.text|] == 0
  {
    var b := Pack(m);
    assert b[2..6] == Le32(m.src) && b[6..10] == Le32(m.dst) && b[11..27] == m.uuid;
    assert b[27..27 + |m.text|] == m.text;
  }

  /** What unpacking refuses, and that it looks at nothing else: not at version or endpoint. */
  lemma UnpackRefusals(data: bytes)
    ensures Unpack(data) == TooShort <==> |data| < 11
    ensures |data| >= 11 && data[10] != 0 ==> Unpack(data) == UnknownType(data[10])
    ensures |data| >= 11 && data[10] == 0 ==> Unpack(data).Text?
    ensures |data| >= 11 ==> forall v: u8, e: u8 :: Unpack([v, e] + data[2..]) == Unpack(data)
  {
    if |data| >= 11 {
      forall v: u8, e: u8
        ensures Unpack([v, e] + data[2..]) == Unpack(data)
      {
        var d := [v, e] + data[2..];
        assert d[2..6] == data[2..6] && d[6..10] == data[6..10];
        assert forall k :: 2 <= k < |data| ==> d[k] == data[k];
        var start := Min(HEADER_SIZE + UUID_SIZE, |data|);
        assert d[11..start] == data[11..start] && d[start..] == data[start..];
      }
    }
  }

  /** What unpacking takes from every text message long enough for a header, whoever built it: a message cut
      off within the uuid gives what there is of it, and no text. */
  lemma UnpackParts(v: u8, e: u8, src: u32, dst: u32, uuid: bytes, text: bytes)
    requires |uuid| == 16 || (|uuid| < 16 && text == [])
    ensures Unpack([v, e] + Le32(src) + Le32(dst) + [0] + uuid + text)
         == Text(TextMessage(src, dst, uuid, StripNuls(text)))
  {
    var data := [v, e] + Le32(src) + Le32(dst) + [0] + uuid + text;
    assert data[2..6] == Le32(src) && data[6..10] == Le32(dst) && data[11..11 + |uuid|] == uuid;
    assert data[11 + |uuid|..] == text;
  }
}
