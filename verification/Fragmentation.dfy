/** Cutting a message into fragments, as the DECT transport, the BLE service and the Python client
    do it, each with its own payload size. */
module Fragmentation {
  import opened Bytes
  import opened Reassembly

  const DECT_PAYLOAD: nat := 14
  const BLE_PAYLOAD: nat := 243

  /** Every sender makes up to four attempts, and shares the receiver's timeout out among them. */
  const TX_ATTEMPTS: nat := 4
  const ACK_TIMEOUT_MS: nat := RX_TIMEOUT_MS / TX_ATTEMPTS

  function FragCount(len: nat, p: nat): nat
    requires p > 0
  {
    (len + p - 1) / p
  }

  /** One write: the sender's address (None where the pool does not key on it), its sequence id,
      the payload size it cuts with and the message. */
  datatype Message = Message(src: Option<u32>, seqId: u16, p: nat, data: bytes) {
    /** Nonempty, and length and fragment count fit their header fields. */
    ghost predicate Valid() {
      1 <= |data| < 0x1_0000 && p > 0 && FragCount(|data|, p) < 0x100
    }

    function Count(): u8
      requires Valid()
    {
      FragCount(|data|, p)
    }

    /** The message as its receiver is to be given it. */
    function Whole(): HandUp {
      HandUp(src, data)
    }
  }

  /** Offset of chunk i, or the end of the message. */
  function Offset(m: Message, i: nat): nat {
    Min(|m.data|, m.p * i)
  }

  function Upto(m: Message, i: nat): bytes {
    m.data[..Offset(m, i)]
  }

  function Chunk(m: Message, i: nat): bytes
    requires Offset(m, i) <= Offset(m, i + 1)
  {
    m.data[Offset(m, i)..Offset(m, i + 1)]
  }

  lemma OffsetGrows(m: Message, i: nat)
    ensures Offset(m, i) <= Offset(m, i + 1)
  {
    assert m.p * (i + 1) == m.p * i + m.p;
  }

  lemma CountBounds(len: nat, p: nat)
    requires p > 0 && len > 0
    ensures FragCount(len, p) >= 1
    ensures p * (FragCount(len, p) - 1) < len <= p * FragCount(len, p)
  {
    var n := FragCount(len, p);
    assert len + p - 1 == p * n + (len + p - 1) % p;
    assert p * (n - 1) == p * n - p;
  }

  /** Every chunk below the count is nonempty, at most p long, and extends the prefix before it;
      the last prefix is the whole message. */
  lemma ChunkStep(m: Message, i: nat)
    requires m.Valid() && i < m.Count()
    ensures Offset(m, i) == m.p * i < |m.data| && Offset(m, i) < Offset(m, i + 1)
    ensures 1 <= |Chunk(m, i)| <= m.p && |Chunk(m, i)| == Min(|m.data| - m.p * i, m.p)
    ensures Upto(m, i) + Chunk(m, i) == Upto(m, i + 1)
    ensures if i + 1 == m.Count() then Upto(m, i + 1) == m.data else |Upto(m, i + 1)| < |m.data|
  {
    var n := m.Count();
    CountBounds(|m.data|, m.p);
    MulMonotone(m.p, i, n - 1);
    assert m.p * (i + 1) == m.p * i + m.p;
    if i + 1 < n {
      MulMonotone(m.p, i + 1, n - 1);
    }
  }

  lemma MulMonotone(p: nat, a: nat, b: nat)
    requires a <= b
    ensures p * a <= p * b
  {
    assert p * b == p * a + p * (b - a);
  }

  /** The i-th data frame of a message. */
  function FrameOf(m: Message, i: nat): Frame
    requires m.Valid() && i < m.Count()
  {
    OffsetGrows(m, i);
    Frame(m.seqId, m.Count(), i, |m.data|, Chunk(m, i))
  }

  function Chunks(m: Message, n: nat): seq<bytes> {
    seq(n, i requires 0 <= i < n => (OffsetGrows(m, i); Chunk(m, i)))
  }

  lemma {:induction false} ChunksConcat(m: Message, n: nat)
    requires m.Valid() && n <= m.Count()
    ensures Concat(Chunks(m, n)) == Upto(m, n)
  {
    if n == 0 {
      assert m.p * 0 == 0;
    } else {
      ChunksConcat(m, n - 1);
      ChunkStep(m, n - 1);
      OffsetGrows(m, n - 1);
      assert Chunks(m, n) == Chunks(m, n - 1) + [Chunk(m, n - 1)];
      ConcatAppend(Chunks(m, n - 1), [Chunk(m, n - 1)]);
      assert Concat([Chunk(m, n - 1)]) == Chunk(m, n - 1) + [] == Chunk(m, n - 1);
    }
  }

  /** Fragmentation is a partition of the message into nonempty chunks of at most p bytes. */
  lemma Partition(m: Message)
    requires m.Valid()
    ensures Concat(Chunks(m, m.Count())) == m.data
    ensures forall i :: 0 <= i < m.Count() ==> 1 <= |FrameOf(m, i).payload| <= m.p
    ensures forall i :: 0 <= i < m.Count() - 1 ==> |FrameOf(m, i).payload| == m.p
  {
    CountBounds(|m.data|, m.p);
    ChunksConcat(m, m.Count());
    ChunkStep(m, m.Count() - 1);
    forall i | 0 <= i < m.Count()
      ensures 1 <= |FrameOf(m, i).payload| <= m.p
      ensures i < m.Count() - 1 ==> |FrameOf(m, i).payload| == m.p
    {
      ChunkStep(m, i);
      if i < m.Count() - 1 {
        ChunkStep(m, i + 1);
        assert m.p * (i + 1) == m.p * i + m.p;
      }
    }
  }

  /** Exactly which payload sizes keep the fragment count of every message up to 512 bytes in its
      byte: 14 and 243 do, the client's MTU-dependent size does from 3 on. */
  lemma CountFitsByte(p: nat)
    requires p > 0
    ensures (forall len :: 1 <= len <= BUFFER_SIZE ==> FragCount(len, p) < 0x100) <==> p >= 3
  {
    if p >= 3 {
      forall len | 1 <= len <= BUFFER_SIZE
        ensures FragCount(len, p) < 0x100
      {
        CountBounds(len, p);
        MulMonotone(0xFF, 3, p);
        if FragCount(len, p) >= 0x100 {
          MulMonotone(p, 0xFF, FragCount(len, p) - 1);
        }
      }
    } else {
      assert FragCount(BUFFER_SIZE, 1) == 512 && FragCount(BUFFER_SIZE, 2) == 256;
      assert FragCount(BUFFER_SIZE, p) >= 0x100;
    }
  }

  // ---- A context in the middle of a message --------------------------------------------------

  predicate SameKey(s: Slot, m: Message)
    requires m.Valid()
  {
    && s.seqId == m.seqId && s.fragTotal == m.Count() && s.total == |m.data|
    && (m.src.Some? ==> s.srcId == m.src.value)
  }

  /** s is receiving m and holds exactly its first k chunks. */
  predicate Carries(s: Slot, m: Message, k: nat)
    requires m.Valid()
  {
    && s.state.Receiving? && SameKey(s, m)
    && k < m.Count() && s.fragIdx == k
    && s.buf == Some(NetBuf(Upto(m, k), 1))
  }

  /** Writing the next chunk either extends the prefix or completes exactly the message. */
  lemma WriteNext(s: Slot, m: Message, k: nat, now: u32)
    requires m.Valid() && Carries(s, m, k)
    ensures var w := Write(s, now, k, FrameOf(m, k).payload);
            && w.0.lastRx == now && w.0.srcId == s.srcId
            && (k + 1 < m.Count() ==> w.1.Success? && Carries(w.0, m, k + 1))
            && (k + 1 == m.Count() ==>
                  w.1.Complete? && w.0.state.Referenced? && w.0.buf == Some(NetBuf(m.data, 1)))
  {
    ChunkStep(m, k);
  }

  /** A context opened by the first frame of m, once tagged, holds none of its chunks yet. */
  lemma OpenedCarries(s: Slot, m: Message, now: u32)
    requires m.Valid()
    ensures m.Count() >= 1
    ensures Carries(Tag(Opened(s, now, FrameOf(m, 0)), m.src), m, 0)
  {
    CountBounds(|m.data|, m.p);
    assert m.p * 0 == 0;
  }
}
