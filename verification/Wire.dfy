/** Byte layouts of the data and ACK frames of the DECT transport and of the BLE service. The Python
    client packs the BLE layout. */
module Wire {
  import opened Bytes
  import opened Reassembly

  datatype Layout = Dect | Ble

  const HEADER: nat := 8
  const FRAME_DATA: u8 := 0
  const FRAME_DATA_ACK: u8 := 1

  /** Version 0, frame type, sequence id; the two layouts order the rest differently. */
  function EncodeHeader(l: Layout, seqId: u16, fragTotal: u8, fragIdx: u8, total: u16): (b: bytes)
    ensures |b| == HEADER
  {
    [0, FRAME_DATA] + Le16(seqId)
    + match l
      case Dect => [fragTotal, fragIdx] + Le16(total)
      case Ble => Le16(total) + [fragIdx, fragTotal]
  }

  function EncodeData(l: Layout, f: Frame): bytes {
    EncodeHeader(l, f.seqId, f.fragTotal, f.fragIdx, f.total) + f.payload
  }

  function DecodeData(l: Layout, b: bytes): Frame
    requires |b| >= HEADER
  {
    match l
    case Dect => Frame(FromLe16(b[2..4]), b[4], b[5], FromLe16(b[6..8]), b[8..])
    case Ble => Frame(FromLe16(b[2..4]), b[7], b[6], FromLe16(b[4..6]), b[8..])
  }

  function EncodeAck(seqId: u16, fragIdx: u8): (b: bytes)
    ensures |b| == 5
  {
    [0, FRAME_DATA_ACK] + Le16(seqId) + [fragIdx]
  }

  predicate IsData(b: bytes) {
    |b| >= HEADER && b[1] == FRAME_DATA
  }

  /** Every frame a sender builds is recognised as data and decoded to itself. */
  lemma DataRoundTrip(l: Layout, f: Frame)
    ensures IsData(EncodeData(l, f)) && DecodeData(l, EncodeData(l, f)) == f
  {
    var b := EncodeData(l, f);
    assert b[2..4] == Le16(f.seqId) && b[8..] == f.payload;
    match l {
      case Dect => assert b[6..8] == Le16(f.total);
      case Ble => assert b[4..6] == Le16(f.total);
    }
  }

  /** And every data frame with version 0 is the encoding of what it decodes to. */
  lemma DecodeInjective(l: Layout, b: bytes)
    requires IsData(b) && b[0] == 0
    ensures EncodeData(l, DecodeData(l, b)) == b
  {
    Le16Inverse(b[2..4]);
    Le16Inverse(b[4..6]);
    Le16Inverse(b[6..8]);
  }

  /** The data frames byte by byte: both are packed and little-endian, and the DECT transport puts the
      fragment count and index before the total, the BLE service the total before index and count. */
  lemma DataBytes(v: u8, s0: u8, s1: u8, t0: u8, t1: u8, fragTotal: u8, fragIdx: u8, payload: bytes)
    ensures var f := Frame(s0 + 256 * s1, fragTotal, fragIdx, t0 + 256 * t1, payload);
            var dect := [v, 0, s0, s1, fragTotal, fragIdx, t0, t1] + payload;
            var ble := [v, 0, s0, s1, t0, t1, fragIdx, fragTotal] + payload;
            && IsData(dect) && DecodeData(Dect, dect) == f
            && IsData(ble) && DecodeData(Ble, ble) == f
            && (v == 0 ==> EncodeData(Dect, f) == dect && EncodeData(Ble, f) == ble)
  {
    var f := Frame(s0 + 256 * s1, fragTotal, fragIdx, t0 + 256 * t1, payload);
    var dect := [v, 0, s0, s1, fragTotal, fragIdx, t0, t1] + payload;
    var ble := [v, 0, s0, s1, t0, t1, fragIdx, fragTotal] + payload;
    assert dect[2..4] == [s0, s1] && dect[6..8] == [t0, t1] && dect[8..] == payload;
    assert ble[2..4] == [s0, s1] && ble[4..6] == [t0, t1] && ble[8..] == payload;
    assert Le16(s0 + 256 * s1) == [s0, s1] && Le16(t0 + 256 * t1) == [t0, t1];
  }

  /** An ACK carries the sequence id and the index it is given. */
  lemma AckBytes(s0: u8, s1: u8, fragIdx: u8)
    ensures EncodeAck(s0 + 256 * s1, fragIdx) == [0, 1, s0, s1, fragIdx]
  {
    assert Le16(s0 + 256 * s1) == [s0, s1];
  }
}
