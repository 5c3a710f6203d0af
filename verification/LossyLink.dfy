/** From the frames one write puts on the link to how often it is handed up, over a link that loses frames
    but keeps their order. */
module LossyLink {
  import opened Bytes
  import opened Reassembly
  import opened Fragmentation
  import opened Wire
  import opened KeyedMap
  import opened DeliveryCount
  import Sending
  import StopAndWait

  /** What happens at the receiver, where the copies that arrive are some of the frames in the log, in the
      order of the log. */
  ghost predicate Arrivals(l: Layout, m: Message, log: seq<bytes>, hs: seq<Happening>)
    requires m.Valid()
    decreases |hs|
  {
    |hs| > 0 ==>
      match hs[0]
      case Copy(now, i) =>
        exists k ::
          && 0 <= k < |log| && i < m.Count() && log[k] == EncodeData(l, FrameOf(m, i))
          && Arrivals(l, m, log[k + 1..], hs[1..])
      case Other(now, x) => StopAndWait.Elsewhere(m, x) && Arrivals(l, m, log, hs[1..])
  }

  function CopyCount(hs: seq<Happening>): nat {
    if |hs| == 0 then 0 else (if hs[0].Copy? then 1 else 0) + CopyCount(hs[1..])
  }

  /** Entry k of an ordered log is a fragment from lo on, and the log behind it starts from that one. */
  lemma {:induction false} LogAt(l: Layout, m: Message, log: seq<bytes>, lo: nat, k: nat, i: nat)
    requires m.Valid() && Sending.InOrder(l, m, log, lo) && k < |log| && i < m.Count()
    requires log[k] == EncodeData(l, FrameOf(m, i))
    ensures lo <= i && Sending.InOrder(l, m, log[k + 1..], i)
    decreases k
  {
    hide EncodeData;
    hide DecodeData;
    DataRoundTrip(l, FrameOf(m, i));
    if k > 0 {
      LogAt(l, m, log[1..], DecodeData(l, log[0]).fragIdx, k - 1, i);
      assert log[1..][k..] == log[k + 1..];
    }
  }

  lemma {:induction false} ArrivalsInOrder(l: Layout, m: Message, log: seq<bytes>, hs: seq<Happening>, lo: nat)
    requires m.Valid() && Sending.InOrder(l, m, log, lo) && Arrivals(l, m, log, hs)
    ensures InOrder(m, hs, lo) && CopyCount(hs) <= |log|
    decreases |hs|
  {
    hide FrameOf;
    hide EncodeData;
    if |hs| > 0 {
      match hs[0] {
        case Copy(now, i) =>
          var k :| 0 <= k < |log| && i < m.Count() && log[k] == EncodeData(l, FrameOf(m, i))
                   && Arrivals(l, m, log[k + 1..], hs[1..]);
          LogAt(l, m, log, lo, k, i);
          ArrivalsInOrder(l, m, log[k + 1..], hs[1..], i);
        case Other(now, x) =>
          ArrivalsInOrder(l, m, log, hs[1..], lo);
      }
    }
  }

  lemma {:induction false} RoomBound(m: Message, slots: seq<Slot>, hs: seq<Happening>, lo: nat)
    requires m.Valid() && PoolOk(slots) && InOrder(m, hs, lo)
    ensures CopiesWithRoom(m, slots, hs, lo) <= CopyCount(hs)
    decreases |hs|
  {
    hide After;
    if |hs| > 0 {
      RoomBound(m, After(m, slots, hs[0]).0, hs[1..], if hs[0].Copy? then hs[0].i else lo);
    }
  }

  /** Whatever the link answers the sender, drops on the way and lets in between: one write of two or more
      fragments is handed up at most once. */
  lemma WriteHandedUpAtMostOnce(l: Layout, m: Message, link: Sending.Link, slots: seq<Slot>, hs: seq<Happening>)
    requires m.Valid() && m.Count() >= 2 && PoolOk(slots) && UniqueKeys(slots, m.src.Some?)
    requires Arrivals(l, m, Sending.SendLog(l, m, link, 0), hs)
    ensures InOrder(m, hs, 0) && HandUps(m, slots, hs, 0) <= 1
  {
    Sending.LogInOrder(l, m, link, 0);
    ArrivalsInOrder(l, m, Sending.SendLog(l, m, link, 0), hs, 0);
    AtMostOnce(m, slots, hs, 0);
  }

  /** A write of one fragment is handed up once for exactly each copy that finds room, so up to four
      times. */
  lemma SingleHandedUpPerCopy(l: Layout, m: Message, link: Sending.Link, slots: seq<Slot>, hs: seq<Happening>)
    requires m.Valid() && m.Count() == 1 && PoolOk(slots) && StopAndWait.Idle(slots, m)
    requires Arrivals(l, m, Sending.SendLog(l, m, link, 0), hs)
    ensures InOrder(m, hs, 0) && HandUps(m, slots, hs, 0) == CopiesWithRoom(m, slots, hs, 0) <= TX_ATTEMPTS
  {
    Sending.LogInOrder(l, m, link, 0);
    ArrivalsInOrder(l, m, Sending.SendLog(l, m, link, 0), hs, 0);
    OncePerCopy(m, slots, hs, 0);
    RoomBound(m, slots, hs, 0);
  }
}
