/** Expiry of partial messages against true time, although contexts only keep a wrapping 32-bit stamp. */
module Expiry {
  import opened Bytes
  import opened Reassembly
  import opened StopAndWait

  /** The verdict of the wrapping comparison is right exactly when the true age is below the timeout, or
      its remainder modulo 2^32 ms is not: always below 2^32 ms, and later except within one timeout
      after each wrap. */
  lemma ExpiryIsExact(s: Slot, t0: nat, t1: nat)
    requires s.state.Receiving? && s.lastRx == Now(t0) && t0 <= t1
    ensures (Expired(s, Now(t1)) <==> t1 - t0 >= RX_TIMEOUT_MS)
            <==> (t1 - t0 < RX_TIMEOUT_MS || (t1 - t0) % WRAP32 >= RX_TIMEOUT_MS)
    ensures t1 - t0 < WRAP32 ==> (Expired(s, Now(t1)) <==> t1 - t0 >= RX_TIMEOUT_MS)
  {
    ElapsedExact(t0, t1);
  }

  /** True times at which a context was opened and its last fragment accepted. */
  datatype Stamp = Stamp(start: nat, last: nat)

  /** A pool with the true times behind its wrapping stamps, and the time of the last frame. */
  datatype Aged = Aged(slots: seq<Slot>, stamps: seq<Stamp>, seen: nat)

  /** The stamp of a context after a frame at time t that found it as before and left it as after. */
  function StampAfter(before: Slot, after: Slot, s: Stamp, t: nat): Stamp {
    if before.state.Receiving? then if after.fragIdx != before.fragIdx then s.(last := t) else s
    else if before.state.Free? && !after.state.Free? then Stamp(t, t)
    else s
  }

  function Next(a: Aged, t: nat, x: Traffic): (r: Aged)
    requires PoolOk(a.slots) && |a.stamps| == |a.slots|
    ensures PoolOk(r.slots) && |r.stamps| == |r.slots| == |a.slots|
  {
    var slots := Disturb(a.slots, Now(t), x);
    if x.LetGo? then a.(slots := slots)
    else
      var e := Expire(a.slots, Now(t));
      Aged(slots, seq(|slots|, i requires 0 <= i < |slots| => StampAfter(e[i], slots[i], a.stamps[i], t)), t)
  }

  function After(a: Aged, xs: seq<(nat, Traffic)>): (r: Aged)
    requires PoolOk(a.slots) && |a.stamps| == |a.slots|
    ensures PoolOk(r.slots) && |r.stamps| == |r.slots| == |a.slots|
    decreases |xs|
  {
    if |xs| == 0 then a else After(Next(a, xs[0].0, xs[0].1), xs[1..])
  }

  /** The stamps mean what they say: a frame restarts one exactly where it opens a context, and otherwise moves
      it exactly where a fragment is accepted. */
  lemma StampsAreTrue(a: Aged, t: nat, src: Option<u32>, f: Frame, i: nat)
    requires PoolOk(a.slots) && |a.stamps| == |a.slots| && i < |a.slots| && a.stamps[i].last < t
    ensures var e, r := Expire(a.slots, Now(t))[i], Next(a, t, Foreign(src, f));
            && (r.stamps[i] == Stamp(t, t) && e.state.Free? <==> e.state.Free? && !r.slots[i].state.Free?)
            && (!e.state.Free? ==> r.stamps[i].start == a.stamps[i].start)
            && (e.state.Receiving? ==> (r.stamps[i].last == t <==> r.slots[i].buf != e.buf))
            && (e.state.Referenced? ==> r.stamps[i] == a.stamps[i])
  {
    LookupAt(a.slots, Now(t), src, f, i);
  }

  /** Frames at nondecreasing times, the next one before the counter can wrap past an expiry, from senders
      whose indices stay below the fragment count; and releases. */
  ghost predicate Paced(seen: nat, xs: seq<(nat, Traffic)>)
    decreases |xs|
  {
    |xs| > 0 ==>
      var (t, x) := xs[0];
      if x.LetGo? then Paced(seen, xs[1..])
      else seen <= t <= seen + WRAP32 - RX_TIMEOUT_MS && x.f.fragIdx < x.f.fragTotal && Paced(t, xs[1..])
  }

  /** One millisecond less than the timeout for each of k fragments. */
  function Slack(k: nat): nat {
    (RX_TIMEOUT_MS - 1) * k
  }

  /** The k-th fragment accepted, the completing one included, came less than k timeouts after the context
      was opened; a partial message has not been silent for the timeout. */
  ghost predicate Young(s: Slot, d: Stamp, seen: nat) {
    !s.state.Free? ==>
      && s.lastRx == Now(d.last) && d.start <= d.last <= seen && d.last <= d.start + Slack(s.fragIdx)
      && s.fragIdx <= s.fragTotal
      && (if s.state.Receiving? then seen - d.last < RX_TIMEOUT_MS else s.fragIdx == s.fragTotal)
  }

  ghost predicate AllYoung(a: Aged) {
    && PoolOk(a.slots) && |a.stamps| == |a.slots|
    && forall i :: 0 <= i < |a.slots| ==> Young(a.slots[i], a.stamps[i], a.seen)
  }

  /** What the lookup does to context i. */
  lemma LookupAt(slots: seq<Slot>, now: u32, src: Option<u32>, f: Frame, i: nat)
    requires PoolOk(slots) && i < |slots|
    ensures var e, g := Expire(slots, now), Get(slots, now, src, f);
            && e[i] == Reclaim(slots[i], now)
            && (g.1 != Some(i) ==> g.0[i] == e[i])
            && (g.1 == Some(i) ==>
                  || (e[i].state.Receiving? && e[i].fragTotal == f.fragTotal && g.0[i] == e[i])
                  || (e[i].state.Free? && f.fragIdx == 0 && g.0[i] == Opened(e[i], now, f)))
  {
  }

  lemma FrameKeepsYoung(slots: seq<Slot>, seen: nat, t: nat, src: Option<u32>, f: Frame, i: nat, d: Stamp)
    requires PoolOk(slots) && i < |slots| && Young(slots[i], d, seen)
    requires seen <= t <= seen + WRAP32 - RX_TIMEOUT_MS && f.fragIdx < f.fragTotal
    ensures var s := Receive(slots, Now(t), src, f).slots[i];
            Young(s, StampAfter(Expire(slots, Now(t))[i], s, d, t), t)
  {
    hide Get;
    hide Expire;
    hide Write;
    var now := Now(t);
    assert SlotOk(slots[i]);
    LookupAt(slots, now, src, f, i);
    if slots[i].state.Receiving? {
      ElapsedExact(d.last, t);
    }
    var g := Get(slots, now, src, f);
    if g.1 == Some(i) {
      var stamp := if Expire(slots, now)[i].state.Receiving? then d else Stamp(t, t);
      WriteKeepsYoung(Tag(g.0[i], src), stamp, t, f);
    }
  }

  /** A write to a receiving context of the same fragment count. */
  lemma WriteKeepsYoung(s: Slot, d: Stamp, t: nat, f: Frame)
    requires s.state.Receiving? && s.buf.Some? && Young(s, d, t) && f.fragIdx < f.fragTotal == s.fragTotal
    ensures var w := Write(s, Now(t), f.fragIdx, f.payload).0;
            Young(w, if w.fragIdx != s.fragIdx then d.(last := t) else d, t) && !w.state.Free?
  {
  }

  /** Repeats never extend a message's life: over all frames and releases at a pool, each context's k-th
      accepted fragment, the completing one included, came less than k timeouts after it was opened. */
  lemma {:induction false} LifeIsBounded(a: Aged, xs: seq<(nat, Traffic)>)
    requires AllYoung(a) && Paced(a.seen, xs)
    ensures AllYoung(After(a, xs))
    decreases |xs|
  {
    if |xs| > 0 {
      var (t, x) := xs[0];
      if x.Foreign? {
        forall i | 0 <= i < |a.slots|
          ensures Young(Next(a, t, x).slots[i], Next(a, t, x).stamps[i], t)
        {
          FrameKeepsYoung(a.slots, a.seen, t, x.src, x.f, i, a.stamps[i]);
        }
      }
      LifeIsBounded(Next(a, t, x), xs[1..]);
    }
  }

  /** So it is from the empty pool on. */
  lemma MessageLife(capacity: nat, stamps: seq<Stamp>, seen: nat, xs: seq<(nat, Traffic)>, i: nat)
    requires |stamps| == capacity && Paced(seen, xs) && i < capacity
    ensures var r := After(Aged(Empty(capacity), stamps, seen), xs);
            r.slots[i].state.Referenced? ==>
              r.stamps[i].last - r.stamps[i].start <= Slack(r.slots[i].fragTotal)
  {
    LifeIsBounded(Aged(Empty(capacity), stamps, seen), xs);
    var r := After(Aged(Empty(capacity), stamps, seen), xs);
    assert Young(r.slots[i], r.stamps[i], r.seen);
  }
}
