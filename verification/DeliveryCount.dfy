/** How often one write is handed up over a link that loses frames but keeps their order, with other
    traffic, expiries and released buffers between its copies. */
module DeliveryCount {
  import opened Bytes
  import opened Reassembly
  import opened Fragmentation
  import opened KeyedMap
  import opened StopAndWait

  /** What happens at the receiver: a copy of fragment i of the write arrives, or other traffic. */
  datatype Happening = Copy(now: u32, i: nat) | Other(now: u32, x: Traffic)

  /** Stop and wait over an order-preserving link: the copies that arrive, from fragment lo on, have
      nondecreasing indices. */
  ghost predicate InOrder(m: Message, hs: seq<Happening>, lo: nat)
    requires m.Valid()
  {
    hs != [] ==>
      match hs[0]
      case Copy(now, i) => lo <= i < m.Count() && InOrder(m, hs[1..], i)
      case Other(now, x) => Elsewhere(m, x) && InOrder(m, hs[1..], lo)
  }

  /** The contexts after one happening, and whether it handed the message up. */
  ghost function After(m: Message, slots: seq<Slot>, h: Happening): (r: (seq<Slot>, bool))
    requires m.Valid() && PoolOk(slots) && (h.Copy? ==> h.i < m.Count())
    ensures PoolOk(r.0)
  {
    match h
    case Copy(now, i) =>
      var o := Receive(slots, now, m.src, FrameOf(m, i));
      (o.slots, o.done.Some?)
    case Other(now, x) => (Disturb(slots, now, x), false)
  }

  ghost function HandUps(m: Message, slots: seq<Slot>, hs: seq<Happening>, lo: nat): nat
    requires m.Valid() && PoolOk(slots) && InOrder(m, hs, lo)
    decreases hs
  {
    if hs == [] then 0
    else
      var r := After(m, slots, hs[0]);
      (if r.1 then 1 else 0) + HandUps(m, r.0, hs[1..], if hs[0].Copy? then hs[0].i else lo)
  }

  /** Only the last fragment completes the message, and afterwards no context knows it. */
  lemma CompletedByLast(m: Message, slots: seq<Slot>, now: u32, i: nat)
    requires m.Valid() && PoolOk(slots) && UniqueKeys(slots, m.src.Some?) && i < m.Count()
    ensures var o := Receive(slots, now, m.src, FrameOf(m, i));
            o.done.Some? ==> i + 1 == m.Count() && Idle(o.slots, m)
  {
    var f := FrameOf(m, i);
    var o := Receive(slots, now, m.src, f);
    if o.done.Some? {
      var d := o.done.value;
      var g := Get(slots, now, m.src, f);
      var s := Tag(g.0[d], m.src);
      assert KeyOf(s, m.src.Some?) == FrameKey(m.src, f);
      var e := Expire(slots, now);
      MatchedAlone(slots, now, m.src, f);
      forall j | 0 <= j < |o.slots| && o.slots[j].state.Receiving?
        ensures !SameKey(o.slots[j], m)
      {
        assert j != d && o.slots[j] == e[j] && !Matches(e[j], m.src, f);
      }
    }
  }

  /** The lookup never leaves a second context with the key of the frame. */
  lemma MatchedAlone(slots: seq<Slot>, now: u32, src: Option<u32>, f: Frame)
    requires PoolOk(slots) && UniqueKeys(slots, src.Some?)
    ensures var g := Get(slots, now, src, f);
            g.1.Some? ==>
              forall j :: 0 <= j < |slots| && j != g.1.value ==>
                g.0[j] == Expire(slots, now)[j] && !Matches(Expire(slots, now)[j], src, f)
  {
    ExpireRefines(slots, now, src.Some?);
    MatchIsKey(Expire(slots, now), src, f);
  }

  lemma IdleAfter(m: Message, slots: seq<Slot>, h: Happening)
    requires m.Valid() && PoolOk(slots) && Idle(slots, m)
    requires h.Copy? ==> 0 < h.i < m.Count()
    requires h.Other? ==> Elsewhere(m, h.x)
    ensures Idle(After(m, slots, h).0, m) && !After(m, slots, h).1
  {
    match h {
      case Copy(now, i) =>
        var e := Expire(slots, now);
        IdleExpire(slots, m, now);
        forall j | 0 <= j < |e|
          ensures !Matches(e[j], m.src, FrameOf(m, i))
        {
          MatchesIsKey(e[j], m, i);
        }
      case Other(now, x) =>
        DisturbIdle(m, slots, now, x);
    }
  }

  lemma {:induction false} NothingLeft(m: Message, slots: seq<Slot>, hs: seq<Happening>, lo: nat)
    requires m.Valid() && PoolOk(slots) && Idle(slots, m) && lo > 0 && InOrder(m, hs, lo)
    ensures HandUps(m, slots, hs, lo) == 0
    decreases hs
  {
    hide After;
    hide Idle;
    if hs != [] {
      IdleAfter(m, slots, hs[0]);
      NothingLeft(m, After(m, slots, hs[0]).0, hs[1..], if hs[0].Copy? then hs[0].i else lo);
    }
  }

  lemma UniqueAfter(m: Message, slots: seq<Slot>, h: Happening)
    requires m.Valid() && PoolOk(slots) && UniqueKeys(slots, m.src.Some?)
    requires h.Copy? ==> h.i < m.Count()
    requires h.Other? ==> Elsewhere(m, h.x)
    ensures UniqueKeys(After(m, slots, h).0, m.src.Some?)
  {
    hide Receive;
    match h {
      case Copy(now, i) => PoolRefinesMap(slots, now, m.src, FrameOf(m, i));
      case Other(now, x) =>
        if x.Foreign? {
          PoolRefinesMap(slots, now, x.src, x.f);
        }
    }
  }

  /** A write of two or more fragments is handed up at most once, whatever is lost, retransmitted,
      interleaved or expired. */
  lemma {:induction false} AtMostOnce(m: Message, slots: seq<Slot>, hs: seq<Happening>, lo: nat)
    requires m.Valid() && m.Count() >= 2
    requires PoolOk(slots) && UniqueKeys(slots, m.src.Some?) && InOrder(m, hs, lo)
    ensures HandUps(m, slots, hs, lo) <= 1
    decreases hs
  {
    hide Receive;
    hide UniqueKeys;
    hide Idle;
    if hs != [] {
      var h := hs[0];
      var r := After(m, slots, h);
      UniqueAfter(m, slots, h);
      if r.1 {
        CompletedByLast(m, slots, h.now, h.i);
        NothingLeft(m, r.0, hs[1..], h.i);
      } else {
        AtMostOnce(m, r.0, hs[1..], if h.Copy? then h.i else lo);
      }
    }
  }

  /** Copies that arrive while some context is free once the stale ones are reclaimed. */
  ghost function CopiesWithRoom(m: Message, slots: seq<Slot>, hs: seq<Happening>, lo: nat): nat
    requires m.Valid() && PoolOk(slots) && InOrder(m, hs, lo)
    decreases hs
  {
    if hs == [] then 0
    else
      (if hs[0].Copy? && FirstFree(Expire(slots, hs[0].now), 0).Some? then 1 else 0)
      + CopiesWithRoom(m, After(m, slots, hs[0]).0, hs[1..], if hs[0].Copy? then hs[0].i else lo)
  }

  lemma SingleCopy(m: Message, slots: seq<Slot>, now: u32)
    requires m.Valid() && m.Count() == 1 && PoolOk(slots) && Idle(slots, m)
    ensures var r := After(m, slots, Copy(now, 0));
            Idle(r.0, m) && (r.1 <==> FirstFree(Expire(slots, now), 0).Some?)
  {
    var f := FrameOf(m, 0);
    var e := Expire(slots, now);
    IdleExpire(slots, m, now);
    forall j | 0 <= j < |e|
      ensures !Matches(e[j], m.src, f)
    {
      MatchesIsKey(e[j], m, 0);
    }
    var x := FirstFree(e, 0);
    if x.Some? {
      OpenedCarries(e[x.value], m, now);
      WriteNext(Tag(Opened(e[x.value], now, f), m.src), m, 0, now);
    }
  }

  /** A one-fragment write is handed up once for exactly each copy that finds room. */
  lemma {:induction false} OncePerCopy(m: Message, slots: seq<Slot>, hs: seq<Happening>, lo: nat)
    requires m.Valid() && m.Count() == 1 && PoolOk(slots) && Idle(slots, m) && InOrder(m, hs, lo)
    ensures HandUps(m, slots, hs, lo) == CopiesWithRoom(m, slots, hs, lo)
    decreases hs
  {
    hide After;
    hide Idle;
    if hs != [] {
      var h := hs[0];
      if h.Copy? {
        assert h == Copy(h.now, 0);
        SingleCopy(m, slots, h.now);
      } else {
        IdleAfter(m, slots, h);
      }
      OncePerCopy(m, After(m, slots, h).0, hs[1..], if h.Copy? then h.i else lo);
    }
  }
}
