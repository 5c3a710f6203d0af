/** One complete write over a lossy link: the sender's retry loop against the receiver's pool, with
    the clock. Every attempt either loses its data frame, or delivers it and loses the ACK, or gets
    both through; delivery is instantaneous and the consumer releases a completed buffer at once. */
module StopAndWait {
  import opened Bytes
  import opened Reassembly
  import opened Fragmentation

  /** Length of k acknowledgement waits that time out. */
  function Waits(k: int): int {
    2500 * k
  }

  lemma WaitsAreTimeouts(k: int)
    ensures Waits(k) == ACK_TIMEOUT_MS * k
  {
  }

  datatype Fate = DataLost | AckLost | BothArrive

  /** Anything else that happens at the receiving pool: a frame of another message, or the consumer
      letting go of a completed buffer. */
  datatype Traffic = Foreign(src: Option<u32>, f: Frame) | LetGo(j: nat)

  /** What the link does to attempt a of fragment i, how long the wait that hears the ACK of fragment i
      lasts, and the traffic during the wait of each attempt, each item with its distance in milliseconds
      from the one before. */
  datatype Channel = Channel(
    fate: (nat, nat) -> Fate, wait: nat -> nat, other: (nat, nat) -> seq<(nat, Traffic)>)
  {
    ghost predicate Valid() {
      forall i :: wait(i) < Waits(1)
    }

    /** The other traffic has nothing to do with m. */
    ghost predicate Apart(m: Message)
      requires m.Valid()
    {
      forall i, a :: AllElsewhere(m, other(i, a))
    }
  }

  ghost predicate OtherKey(m: Message, src: Option<u32>, f: Frame)
    requires m.Valid()
  {
    && src.Some? == m.src.Some?
    && !(src == m.src && f.seqId == m.seqId && f.fragTotal == m.Count() && f.total == |m.data|)
  }

  ghost predicate Elsewhere(m: Message, x: Traffic)
    requires m.Valid()
  {
    x.Foreign? ==> OtherKey(m, x.src, x.f)
  }

  ghost predicate AllElsewhere(m: Message, xs: seq<(nat, Traffic)>)
    requires m.Valid()
  {
    forall k :: 0 <= k < |xs| ==> Elsewhere(m, xs[k].1)
  }

  /** The receiver's contexts, the true time in milliseconds and what the frames of the write under
      consideration made the callback be given so far. */
  datatype World = World(slots: seq<Slot>, clock: nat, got: seq<HandUp>)

  function Now(clock: nat): u32 {
    clock % WRAP32
  }

  function Disturb(slots: seq<Slot>, now: u32, x: Traffic): (r: seq<Slot>)
    requires PoolOk(slots)
    ensures PoolOk(r) && |r| == |slots|
  {
    match x
    case Foreign(src, f) => Receive(slots, now, src, f).slots
    case LetGo(j) =>
      if j < |slots| && slots[j].state.Referenced? then slots[j := slots[j].(state := Free, buf := None)] else slots
  }

  /** ms milliseconds pass, with traffic. */
  function Pass(w: World, ms: nat, xs: seq<(nat, Traffic)>): (r: World)
    requires PoolOk(w.slots)
    ensures PoolOk(r.slots) && r.clock == w.clock + ms && r.got == w.got
    decreases |xs|
  {
    if |xs| == 0 then w.(clock := w.clock + ms)
    else
      var d := Min(xs[0].0, ms);
      Pass(w.(clock := w.clock + d, slots := Disturb(w.slots, Now(w.clock + d), xs[0].1)), ms - d, xs[1..])
  }

  /** A data frame reaches the receiver. */
  function Arrive(w: World, src: Option<u32>, f: Frame): (r: (World, bool))
    requires PoolOk(w.slots)
    ensures PoolOk(r.0.slots) && r.0.clock == w.clock
  {
    var o := Receive(w.slots, Now(w.clock), src, f);
    (w.(slots := o.slots,
        got := w.got + if o.done.Some? then [Given(o.slots, o.done.value, src.Some?)] else []),
     o.ack)
  }

  /** prv_write_data_frame: attempts a, a + 1, ... of fragment i until one is acknowledged. */
  function SendFragment(w: World, m: Message, i: nat, a: nat, ch: Channel): (r: (World, bool))
    requires PoolOk(w.slots) && m.Valid() && i < m.Count() && a <= TX_ATTEMPTS
    ensures PoolOk(r.0.slots)
    decreases TX_ATTEMPTS - a
  {
    if a == TX_ATTEMPTS then (w, false)
    else if ch.fate(i, a).DataLost? then SendFragment(Pass(w, Waits(1), ch.other(i, a)), m, i, a + 1, ch)
    else
      var r := Arrive(w, m.src, FrameOf(m, i));
      if r.1 && ch.fate(i, a).BothArrive? then (Pass(r.0, ch.wait(i), ch.other(i, a)), true)
      else SendFragment(Pass(r.0, Waits(1), ch.other(i, a)), m, i, a + 1, ch)
  }

  /** The write loop from fragment i on; true when the write returns 0. */
  function SendFrom(w: World, m: Message, i: nat, ch: Channel): (r: (World, bool))
    requires PoolOk(w.slots) && m.Valid() && i <= m.Count()
    ensures PoolOk(r.0.slots)
    decreases m.Count() - i
  {
    if i == m.Count() then (w, true)
    else
      var r := SendFragment(w, m, i, 0, ch);
      if r.1 then SendFrom(r.0, m, i + 1, ch) else r
  }

  // ---- The channel, seen from outside --------------------------------------------------------

  /** First attempt from a on whose data frame arrives; TX_ATTEMPTS if there is none. */
  function FirstArrival(ch: Channel, i: nat, a: nat): (r: nat)
    requires a <= TX_ATTEMPTS
    ensures a <= r <= TX_ATTEMPTS
    ensures r < TX_ATTEMPTS ==> !ch.fate(i, r).DataLost?
    decreases TX_ATTEMPTS - a
  {
    if a == TX_ATTEMPTS || !ch.fate(i, a).DataLost? then a else FirstArrival(ch, i, a + 1)
  }

  /** First attempt from a on that gets both its data frame and its ACK through. */
  function FirstHeard(ch: Channel, i: nat, a: nat): (r: nat)
    requires a <= TX_ATTEMPTS
    ensures a <= r <= TX_ATTEMPTS
    ensures r < TX_ATTEMPTS ==> ch.fate(i, r).BothArrive?
    decreases TX_ATTEMPTS - a
  {
    if a == TX_ATTEMPTS || ch.fate(i, a).BothArrive? then a else FirstHeard(ch, i, a + 1)
  }

  /** The attempt of fragment i that the receiver accepts first, and the first one heard from then on. Of
      the first fragment that is attempt land, where its frame arrives and finds room. */
  function Arrived(ch: Channel, land: nat, i: nat): (r: nat)
    requires land <= TX_ATTEMPTS
    ensures r <= TX_ATTEMPTS
  {
    if i == 0 then land else FirstArrival(ch, i, 0)
  }

  function Heard(ch: Channel, land: nat, i: nat): (r: nat)
    requires land <= TX_ATTEMPTS
    ensures r <= TX_ATTEMPTS
  {
    FirstHeard(ch, i, if i == 0 then land else 0)
  }

  /** Fragments 0..i all get through, and between the first arrivals of two neighbours at most
      three attempts time out: one more and the receiver has dropped the partial message. */
  predicate Reaches(ch: Channel, land: nat, i: nat)
    requires land <= TX_ATTEMPTS
  {
    && Arrived(ch, land, i) < TX_ATTEMPTS
    && (i > 0 ==>
          && Reaches(ch, land, i - 1)
          && Heard(ch, land, i - 1) < TX_ATTEMPTS
          && Heard(ch, land, i - 1) - Arrived(ch, land, i - 1) + Arrived(ch, land, i) < TX_ATTEMPTS)
  }

  function Repeat(h: HandUp, n: nat): seq<HandUp> {
    seq(n, _ => h)
  }

  // ---- The receiver with respect to one message ----------------------------------------------

  /** The write made the callback be given nothing between w and v. */
  predicate Silent(w: World, v: World) {
    v == World(v.slots, v.clock, w.got)
  }

  /** No context is receiving the message. */
  ghost predicate Idle(slots: seq<Slot>, m: Message)
    requires m.Valid()
  {
    forall j :: 0 <= j < |slots| ==> !(slots[j].state.Receiving? && SameKey(slots[j], m))
  }

  /** Context j alone is receiving m, holds its first k chunks and was last extended at time t. */
  ghost predicate Holds(slots: seq<Slot>, m: Message, j: nat, k: nat, t: nat)
    requires m.Valid()
  {
    && j < |slots| && Carries(slots[j], m, k) && slots[j].lastRx == Now(t)
    && forall i :: 0 <= i < |slots| && i != j ==> !(slots[i].state.Receiving? && SameKey(slots[i], m))
  }

  /** The same, unless the timeout is over and other traffic has reclaimed the context. */
  ghost predicate Kept(w: World, m: Message, j: nat, k: nat, t: nat)
    requires m.Valid()
  {
    && t <= w.clock < t + WRAP32
    && (Holds(w.slots, m, j, k, t) || (w.clock >= t + RX_TIMEOUT_MS && Idle(w.slots, m)))
  }

  ghost predicate HasFree(slots: seq<Slot>) {
    exists j :: 0 <= j < |slots| && slots[j].state.Free?
  }

  /** A frame arriving now finds a free context, perhaps one that expires just then. */
  ghost predicate Room(w: World) {
    HasFree(Expire(w.slots, Now(w.clock)))
  }

  /** The wrapping subtraction is the elapsed time while that is below 2^32 ms. */
  lemma ElapsedExact(t0: nat, t1: nat)
    requires t0 <= t1
    ensures Elapsed(Now(t1), Now(t0)) == (t1 - t0) % WRAP32
    ensures t1 - t0 < WRAP32 ==> Elapsed(Now(t1), Now(t0)) == t1 - t0
  {
    assert t1 == WRAP32 * (t1 / WRAP32) + Now(t1);
    assert t0 == WRAP32 * (t0 / WRAP32) + Now(t0);
  }

  lemma MatchesIsKey(s: Slot, m: Message, i: nat)
    requires m.Valid() && i < m.Count()
    ensures Matches(s, m.src, FrameOf(m, i)) <==> s.state.Receiving? && SameKey(s, m)
  {
  }

  lemma IdleExpire(slots: seq<Slot>, m: Message, now: u32)
    requires m.Valid() && Idle(slots, m)
    ensures Idle(Expire(slots, now), m)
  {
  }

  /** A later fragment that finds no context changes nothing but expiries and is not acknowledged. */
  lemma ArriveIdle(w: World, m: Message, i: nat)
    requires PoolOk(w.slots) && m.Valid() && 0 < i < m.Count() && Idle(w.slots, m)
    ensures var r := Arrive(w, m.src, FrameOf(m, i));
            !r.1 && Silent(w, r.0) && Idle(r.0.slots, m)
  {
    var e := Expire(w.slots, Now(w.clock));
    IdleExpire(w.slots, m, Now(w.clock));
    forall j | 0 <= j < |e|
      ensures !Matches(e[j], m.src, FrameOf(m, i))
    {
      MatchesIsKey(e[j], m, i);
    }
  }

  /** The first fragment opens a context when one is free. A longer message is then held; a message
      of one fragment is complete at once. */
  lemma ArriveFirst(w: World, m: Message)
    requires PoolOk(w.slots) && m.Valid() && Idle(w.slots, m) && Room(w)
    ensures m.Count() >= 1
    ensures var r := Arrive(w, m.src, FrameOf(m, 0));
            && r.1
            && (m.Count() > 1 ==> Silent(w, r.0) && exists j :: Holds(r.0.slots, m, j, 1, w.clock))
            && (m.Count() == 1 ==> r.0.got == w.got + [m.Whole()] && Idle(r.0.slots, m))
  {
    CountBounds(|m.data|, m.p);
    var now, f := Now(w.clock), FrameOf(m, 0);
    var e := Expire(w.slots, now);
    IdleExpire(w.slots, m, now);
    forall j | 0 <= j < |e|
      ensures !Matches(e[j], m.src, f)
    {
      MatchesIsKey(e[j], m, 0);
    }
    var z :| 0 <= z < |e| && e[z].state.Free?;
    var j := FirstFree(e, 0).value;
    var s := Tag(Opened(e[j], now, f), m.src);
    OpenedCarries(e[j], m, now);
    WriteNext(s, m, 0, now);
    var t := Write(s, now, 0, f.payload).0;
    assert e[j := Opened(e[j], now, f)][j := t] == e[j := t];
    var r := Arrive(w, m.src, f).0;
    assert r.slots == e[j := t];
    if m.Count() > 1 {
      assert Holds(r.slots, m, j, 1, w.clock);
    }
  }

  // ---- Other traffic -------------------------------------------------------------------------

  /** A frame of another message neither makes a context for m nor touches an unexpired one, and an
      expired one does not survive it. */
  lemma ForeignKeeps(m: Message, slots: seq<Slot>, now: u32, src: Option<u32>, f: Frame, x: nat)
    requires m.Valid() && PoolOk(slots) && OtherKey(m, src, f) && x < |slots|
    ensures var s := Receive(slots, now, src, f).slots[x];
            if slots[x].state.Receiving? && SameKey(slots[x], m) && !Expired(slots[x], now) then s == slots[x]
            else !(s.state.Receiving? && SameKey(s, m))
  {
    var e := Expire(slots, now);
    assert e[x] == Reclaim(slots[x], now);
    var g := Get(slots, now, src, f);
    if g.1 == Some(x) {
      var s := Tag(g.0[x], src);
      assert s.seqId == f.seqId && s.fragTotal == f.fragTotal && s.total == f.total;
      assert !SameKey(s, m);
      assert !SameKey(Write(s, now, f.fragIdx, f.payload).0, m);
    }
  }

  lemma DisturbIdle(m: Message, slots: seq<Slot>, now: u32, x: Traffic)
    requires m.Valid() && PoolOk(slots) && Idle(slots, m) && Elsewhere(m, x)
    ensures Idle(Disturb(slots, now, x), m)
  {
    hide Receive;
    hide SameKey;
    if x.Foreign? {
      forall i | 0 <= i < |slots|
        ensures var s := Disturb(slots, now, x)[i]; !(s.state.Receiving? && SameKey(s, m))
      {
        ForeignKeeps(m, slots, now, x.src, x.f, i);
      }
    }
  }

  lemma DisturbKeeps(w: World, m: Message, j: nat, k: nat, t: nat, x: Traffic)
    requires m.Valid() && PoolOk(w.slots) && Kept(w, m, j, k, t) && Elsewhere(m, x)
    ensures Kept(w.(slots := Disturb(w.slots, Now(w.clock), x)), m, j, k, t)
  {
    hide Receive;
    var now := Now(w.clock);
    ElapsedExact(t, w.clock);
    if Idle(w.slots, m) {
      DisturbIdle(m, w.slots, now, x);
    }
    if x.Foreign? && Holds(w.slots, m, j, k, t) {
      forall i | 0 <= i < |w.slots|
        ensures var s := Disturb(w.slots, now, x)[i];
                if i == j && w.clock < t + RX_TIMEOUT_MS then s == w.slots[j]
                else !(s.state.Receiving? && SameKey(s, m))
      {
        ForeignKeeps(m, w.slots, now, x.src, x.f, i);
      }
    }
  }

  lemma {:induction false} PassKeeps(w: World, ms: nat, xs: seq<(nat, Traffic)>, m: Message, j: nat, k: nat, t: nat)
    requires m.Valid() && PoolOk(w.slots) && Kept(w, m, j, k, t) && AllElsewhere(m, xs)
    requires w.clock + ms < t + WRAP32
    ensures Kept(Pass(w, ms, xs), m, j, k, t)
    decreases |xs|
  {
    hide Disturb;
    if |xs| > 0 {
      var d := Min(xs[0].0, ms);
      var v := w.(clock := w.clock + d);
      DisturbKeeps(v, m, j, k, t, xs[0].1);
      PassKeeps(v.(slots := Disturb(w.slots, Now(v.clock), xs[0].1)), ms - d, xs[1..], m, j, k, t);
    }
  }

  lemma {:induction false} PassIdle(w: World, ms: nat, xs: seq<(nat, Traffic)>, m: Message)
    requires m.Valid() && PoolOk(w.slots) && Idle(w.slots, m) && AllElsewhere(m, xs)
    ensures Idle(Pass(w, ms, xs).slots, m)
    decreases |xs|
  {
    hide Disturb;
    hide Idle;
    if |xs| > 0 {
      var d := Min(xs[0].0, ms);
      var slots := Disturb(w.slots, Now(w.clock + d), xs[0].1);
      DisturbIdle(m, w.slots, Now(w.clock + d), xs[0].1);
      PassIdle(w.(clock := w.clock + d, slots := slots), ms - d, xs[1..], m);
    }
  }

  // ---- Arrivals at a held context ------------------------------------------------------------

  /** While the held context is unexpired, the lookup finds it and leaves it as it is. */
  lemma HeldIsFound(slots: seq<Slot>, m: Message, j: nat, k: nat, t: nat, clock: nat, i: nat)
    requires PoolOk(slots) && m.Valid() && i < m.Count()
    requires Holds(slots, m, j, k, t) && t <= clock < t + RX_TIMEOUT_MS
    ensures var e := Expire(slots, Now(clock));
            && Holds(e, m, j, k, t) && Tag(e[j], m.src) == e[j]
            && Get(slots, Now(clock), m.src, FrameOf(m, i)) == (e, Some(j))
  {
    ElapsedExact(t, clock);
    var e := Expire(slots, Now(clock));
    assert e[j] == slots[j];
    forall x | 0 <= x < |e|
      ensures Matches(e[x], m.src, FrameOf(m, i)) <==> x == j
    {
      MatchesIsKey(e[x], m, i);
    }
  }

  /** The next fragment extends the held prefix, and the last one hands up exactly the message. */
  lemma ArriveNext(w: World, m: Message, j: nat, k: nat, t: nat)
    requires PoolOk(w.slots) && m.Valid() && Holds(w.slots, m, j, k, t)
    requires t <= w.clock < t + RX_TIMEOUT_MS
    ensures var r := Arrive(w, m.src, FrameOf(m, k));
            && r.1
            && (k + 1 < m.Count() ==> Silent(w, r.0) && Holds(r.0.slots, m, j, k + 1, w.clock))
            && (k + 1 == m.Count() ==> r.0.got == w.got + [m.Whole()] && Idle(r.0.slots, m))
  {
    var now, f := Now(w.clock), FrameOf(m, k);
    HeldIsFound(w.slots, m, j, k, t, w.clock, k);
    var e := Expire(w.slots, now);
    WriteNext(e[j], m, k, now);
    var t' := Write(e[j], now, k, f.payload).0;
    assert Receive(w.slots, now, m.src, f).slots == e[j := t'];
  }

  /** A repeated fragment is acknowledged again and does not touch the held context. */
  lemma ArriveAgain(w: World, m: Message, j: nat, k: nat, t: nat, i: nat)
    requires PoolOk(w.slots) && m.Valid() && Holds(w.slots, m, j, k, t) && i < k
    requires t <= w.clock < t + RX_TIMEOUT_MS
    ensures var r := Arrive(w, m.src, FrameOf(m, i));
            r.1 && Silent(w, r.0) && Holds(r.0.slots, m, j, k, t)
  {
    HeldIsFound(w.slots, m, j, k, t, w.clock, i);
    ChunkStep(m, i);
    var e := Expire(w.slots, Now(w.clock));
    assert e[j := e[j]] == e;
  }

  /** Once the held context is older than the timeout any frame of the pool reclaims it, and a later
      fragment is then dropped. */
  lemma ArriveStale(w: World, m: Message, j: nat, k: nat, t: nat, i: nat)
    requires PoolOk(w.slots) && m.Valid() && Kept(w, m, j, k, t) && 0 < i < m.Count()
    requires t + RX_TIMEOUT_MS <= w.clock
    ensures var r := Arrive(w, m.src, FrameOf(m, i));
            !r.1 && Silent(w, r.0) && Idle(r.0.slots, m)
  {
    if Idle(w.slots, m) {
      ArriveIdle(w, m, i);
    } else {
      ElapsedExact(t, w.clock);
      var e := Expire(w.slots, Now(w.clock));
      assert Idle(e, m);
      forall x | 0 <= x < |e|
        ensures !Matches(e[x], m.src, FrameOf(m, i))
      {
        MatchesIsKey(e[x], m, i);
      }
    }
  }

  // ---- One fragment's retry loop -------------------------------------------------------------

  /** The world in which the first data frame of fragment i to arrive, from attempt a on, arrives. */
  function Skipped(w: World, i: nat, a: nat, ch: Channel): (r: World)
    requires PoolOk(w.slots) && a <= TX_ATTEMPTS
    ensures PoolOk(r.slots) && r.got == w.got && r.clock == w.clock + Waits(FirstArrival(ch, i, a) - a)
    decreases TX_ATTEMPTS - a
  {
    if a == TX_ATTEMPTS || !ch.fate(i, a).DataLost? then w
    else Skipped(Pass(w, Waits(1), ch.other(i, a)), i, a + 1, ch)
  }

  lemma {:induction false} SkipLost(w: World, m: Message, i: nat, a: nat, ch: Channel)
    requires PoolOk(w.slots) && m.Valid() && i < m.Count() && a <= TX_ATTEMPTS
    ensures SendFragment(w, m, i, a, ch) == SendFragment(Skipped(w, i, a, ch), m, i, FirstArrival(ch, i, a), ch)
    decreases TX_ATTEMPTS - a
  {
    hide Arrive;
    hide Pass;
    if a < TX_ATTEMPTS && ch.fate(i, a).DataLost? {
      SkipLost(Pass(w, Waits(1), ch.other(i, a)), m, i, a + 1, ch);
    }
  }

  lemma {:induction false} SkipKeeps(w: World, m: Message, j: nat, k: nat, t: nat, i: nat, a: nat, ch: Channel)
    requires PoolOk(w.slots) && m.Valid() && ch.Apart(m) && a <= TX_ATTEMPTS && Kept(w, m, j, k, t)
    requires w.clock + Waits(TX_ATTEMPTS - a) < t + WRAP32
    ensures Kept(Skipped(w, i, a, ch), m, j, k, t)
    decreases TX_ATTEMPTS - a
  {
    hide Pass;
    hide Kept;
    if a < TX_ATTEMPTS && ch.fate(i, a).DataLost? {
      PassKeeps(w, Waits(1), ch.other(i, a), m, j, k, t);
      SkipKeeps(Pass(w, Waits(1), ch.other(i, a)), m, j, k, t, i, a + 1, ch);
    }
  }

  lemma {:induction false} SkipIdle(w: World, m: Message, i: nat, a: nat, ch: Channel)
    requires PoolOk(w.slots) && m.Valid() && ch.Apart(m) && a <= TX_ATTEMPTS && Idle(w.slots, m)
    ensures Idle(Skipped(w, i, a, ch).slots, m)
    decreases TX_ATTEMPTS - a
  {
    hide Pass;
    hide Idle;
    if a < TX_ATTEMPTS && ch.fate(i, a).DataLost? {
      PassIdle(w, Waits(1), ch.other(i, a), m);
      SkipIdle(Pass(w, Waits(1), ch.other(i, a)), m, i, a + 1, ch);
    }
  }

  lemma {:induction false} SendIdle(w: World, m: Message, i: nat, a: nat, ch: Channel)
    requires PoolOk(w.slots) && m.Valid() && ch.Apart(m) && 0 < i < m.Count() && a <= TX_ATTEMPTS
    requires Idle(w.slots, m)
    ensures var r := SendFragment(w, m, i, a, ch);
            !r.1 && Silent(w, r.0) && Idle(r.0.slots, m)
    decreases TX_ATTEMPTS - a
  {
    hide Arrive;
    hide Pass;
    hide Idle;
    if a < TX_ATTEMPTS {
      var v := if ch.fate(i, a).DataLost? then w else Arrive(w, m.src, FrameOf(m, i)).0;
      ArriveIdle(w, m, i);
      PassIdle(v, Waits(1), ch.other(i, a), m);
      SendIdle(Pass(v, Waits(1), ch.other(i, a)), m, i, a + 1, ch);
    }
  }

  /** Retries of a fragment the receiver already holds: heard or given up, never delivered twice.
      The first attempt of the fragment was made at time t0. */
  lemma {:induction false} SendAgain(
      w: World, m: Message, j: nat, k: nat, t: nat, i: nat, a: nat, ch: Channel, t0: nat)
    requires PoolOk(w.slots) && m.Valid() && ch.Valid() && ch.Apart(m) && i < k < m.Count() && a <= TX_ATTEMPTS
    requires Kept(w, m, j, k, t) && w.clock == t0 + Waits(a) && t0 <= t
    ensures var b := FirstHeard(ch, i, a);
            var r := SendFragment(w, m, i, a, ch);
            && r.1 == (b < TX_ATTEMPTS) && Silent(w, r.0)
            && (r.1 ==> Holds(r.0.slots, m, j, k, t) && r.0.clock == t0 + Waits(b) + ch.wait(i))
    decreases TX_ATTEMPTS - a
  {
    hide Arrive;
    hide Pass;
    hide Holds;
    hide Idle;
    hide SendFragment;
    if a == TX_ATTEMPTS {
      SendNone(w, m, i, ch);
    } else if ch.fate(i, a).DataLost? {
      SendLost(w, m, i, a, ch);
      PassKeeps(w, Waits(1), ch.other(i, a), m, j, k, t);
      SendAgain(Pass(w, Waits(1), ch.other(i, a)), m, j, k, t, i, a + 1, ch, t0);
    } else {
      SendStep(w, m, i, a, ch);
      ArriveAgain(w, m, j, k, t, i);
      var v := Arrive(w, m.src, FrameOf(m, i)).0;
      if ch.fate(i, a).BothArrive? {
        PassKeeps(v, ch.wait(i), ch.other(i, a), m, j, k, t);
      } else {
        PassKeeps(v, Waits(1), ch.other(i, a), m, j, k, t);
        SendAgain(Pass(v, Waits(1), ch.other(i, a)), m, j, k, t, i, a + 1, ch, t0);
      }
    }
  }

  /** State before the first attempt of fragment i > 0: the receiver holds the first i chunks since
      the first arrival of fragment i - 1. */
  ghost predicate Ready(w: World, m: Message, i: nat, ch: Channel, land: nat)
    requires m.Valid() && i > 0 && land <= TX_ATTEMPTS
  {
    exists j, t0 :: Waiting(w, m, i, ch, land, j, t0)
  }

  ghost predicate Waiting(w: World, m: Message, i: nat, ch: Channel, land: nat, j: nat, t0: nat)
    requires m.Valid() && i > 0 && land <= TX_ATTEMPTS
  {
    && Holds(w.slots, m, j, i, t0 + Waits(Arrived(ch, land, i - 1)))
    && w.clock == t0 + Waits(Heard(ch, land, i - 1)) + ch.wait(i - 1)
  }

  /** The retry budget against the reassembly timeout: the context is still there exactly when at
      most three attempts timed out between the two first arrivals, so always for the first
      transmission of the next fragment. */
  lemma BudgetIsExact(ch: Channel, land: nat, i: nat)
    requires ch.Valid() && land <= TX_ATTEMPTS && Heard(ch, land, i) < TX_ATTEMPTS
    ensures Arrived(ch, land, i) <= Heard(ch, land, i)
    ensures var lag := Waits(Heard(ch, land, i) - Arrived(ch, land, i)) + ch.wait(i);
            && lag < RX_TIMEOUT_MS
            && (lag + Waits(Arrived(ch, land, i + 1)) < RX_TIMEOUT_MS
                <==> Heard(ch, land, i) - Arrived(ch, land, i) + Arrived(ch, land, i + 1) < TX_ATTEMPTS)
  {
    HeardAfterArrived(ch, i, 0);
    assert ch.wait(i) < Waits(1);
  }

  lemma {:induction false} HeardAfterArrived(ch: Channel, i: nat, a: nat)
    requires a <= TX_ATTEMPTS
    ensures FirstArrival(ch, i, a) <= FirstHeard(ch, i, a)
    ensures FirstHeard(ch, i, a) == FirstHeard(ch, i, FirstArrival(ch, i, a))
    decreases TX_ATTEMPTS - a
  {
    if a < TX_ATTEMPTS && ch.fate(i, a).DataLost? {
      HeardAfterArrived(ch, i, a + 1);
    }
  }

  lemma HeardStep(ch: Channel, i: nat, a: nat)
    requires a < TX_ATTEMPTS
    ensures FirstHeard(ch, i, a) == if ch.fate(i, a).BothArrive? then a else FirstHeard(ch, i, a + 1)
  {
  }

  lemma SendNone(w: World, m: Message, i: nat, ch: Channel)
    requires PoolOk(w.slots) && m.Valid() && i < m.Count()
    ensures SendFragment(w, m, i, TX_ATTEMPTS, ch) == (w, false)
  {
  }

  lemma SendLost(w: World, m: Message, i: nat, a: nat, ch: Channel)
    requires PoolOk(w.slots) && m.Valid() && i < m.Count() && a < TX_ATTEMPTS && ch.fate(i, a).DataLost?
    ensures SendFragment(w, m, i, a, ch) == SendFragment(Pass(w, Waits(1), ch.other(i, a)), m, i, a + 1, ch)
  {
  }

  lemma SendStep(w: World, m: Message, i: nat, a: nat, ch: Channel)
    requires PoolOk(w.slots) && m.Valid() && i < m.Count() && a < TX_ATTEMPTS && !ch.fate(i, a).DataLost?
    ensures var r := Arrive(w, m.src, FrameOf(m, i));
            SendFragment(w, m, i, a, ch)
            == if r.1 && ch.fate(i, a).BothArrive? then (Pass(r.0, ch.wait(i), ch.other(i, a)), true)
               else SendFragment(Pass(r.0, Waits(1), ch.other(i, a)), m, i, a + 1, ch)
  {
  }

  /** After the arrival that the receiver accepted as fragment i, with more fragments to come. */
  lemma AfterAccept(w: World, m: Message, i: nat, ch: Channel, land: nat, j: nat, r: World, t0: nat)
    requires PoolOk(w.slots) && m.Valid() && ch.Valid() && ch.Apart(m)
    requires i + 1 < m.Count() && land <= TX_ATTEMPTS && Arrived(ch, land, i) < TX_ATTEMPTS
    requires i == 0 ==> !ch.fate(0, land).DataLost?
    requires w.clock == t0 + Waits(Arrived(ch, land, i))
    requires Arrive(w, m.src, FrameOf(m, i)) == (r, true)
    requires Silent(w, r) && Holds(r.slots, m, j, i + 1, w.clock)
    ensures var s := SendFragment(w, m, i, Arrived(ch, land, i), ch);
            && s.1 == (Heard(ch, land, i) < TX_ATTEMPTS) && Silent(w, s.0)
            && (s.1 ==> Ready(s.0, m, i + 1, ch, land))
  {
    hide FirstArrival;
    hide FirstHeard;
    hide SendFragment;
    hide Arrive;
    hide Pass;
    hide Skipped;
    hide Carries;
    hide Idle;
    hide Holds;
    hide FrameOf;
    var a := Arrived(ch, land, i);
    var s := SendFragment(w, m, i, a, ch);
    SendStep(w, m, i, a, ch);
    HeardAfterArrived(ch, i, 0);
    HeardStep(ch, i, a);
    if ch.fate(i, a).BothArrive? {
      PassKeeps(r, ch.wait(i), ch.other(i, a), m, j, i + 1, w.clock);
    } else {
      PassKeeps(r, Waits(1), ch.other(i, a), m, j, i + 1, w.clock);
      SendAgain(Pass(r, Waits(1), ch.other(i, a)), m, j, i + 1, w.clock, i, a + 1, ch, t0);
    }
    if s.1 {
      assert Waiting(s.0, m, i + 1, ch, land, j, t0);
    }
  }

  /** Fragment i > 0 that is not the last. */
  lemma SendMiddle(w: World, m: Message, i: nat, ch: Channel, land: nat)
    requires PoolOk(w.slots) && m.Valid() && ch.Valid() && ch.Apart(m) && 0 < i < m.Count() - 1
    requires land <= TX_ATTEMPTS && Heard(ch, land, i - 1) < TX_ATTEMPTS && Ready(w, m, i, ch, land)
    ensures var r := SendFragment(w, m, i, 0, ch);
            && Silent(w, r.0)
            && (r.1 <==> && Heard(ch, land, i) < TX_ATTEMPTS && Arrived(ch, land, i) < TX_ATTEMPTS
                         && Heard(ch, land, i - 1) - Arrived(ch, land, i - 1) + Arrived(ch, land, i) < TX_ATTEMPTS)
            && (r.1 ==> Ready(r.0, m, i + 1, ch, land))
  {
    hide FirstArrival;
    hide FirstHeard;
    hide SendFragment;
    hide Arrive;
    hide Pass;
    hide Skipped;
    hide Carries;
    var a := Arrived(ch, land, i);
    SkipLost(w, m, i, 0, ch);
    HeardAfterArrived(ch, i, 0);
    BudgetIsExact(ch, land, i - 1);
    var j: nat, t0: nat :| Waiting(w, m, i, ch, land, j, t0);
    var t := t0 + Waits(Arrived(ch, land, i - 1));
    var v := Skipped(w, i, 0, ch);
    SkipKeeps(w, m, j, i, t, i, 0, ch);
    if a == TX_ATTEMPTS {
      SendNone(v, m, i, ch);
    } else if v.clock < t + RX_TIMEOUT_MS {
      ArriveNext(v, m, j, i, t);
      AfterAccept(v, m, i, ch, land, j, Arrive(v, m.src, FrameOf(m, i)).0, w.clock);
    } else {
      SendStep(v, m, i, a, ch);
      ArriveStale(v, m, j, i, t, i);
      var u := Arrive(v, m.src, FrameOf(m, i)).0;
      PassIdle(u, Waits(1), ch.other(i, a), m);
      SendIdle(Pass(u, Waits(1), ch.other(i, a)), m, i, a + 1, ch);
    }
  }

  /** The last fragment: handed up when its first arrival is in time, and reported as written only
      when that very arrival is also heard, because the receiver no longer knows the message. */
  lemma SendLast(w: World, m: Message, i: nat, ch: Channel, land: nat)
    requires PoolOk(w.slots) && m.Valid() && ch.Valid() && ch.Apart(m) && 0 < i == m.Count() - 1
    requires land <= TX_ATTEMPTS && Heard(ch, land, i - 1) < TX_ATTEMPTS && Ready(w, m, i, ch, land)
    ensures var r := SendFragment(w, m, i, 0, ch);
            var inTime := Arrived(ch, land, i) < TX_ATTEMPTS
                          && Heard(ch, land, i - 1) - Arrived(ch, land, i - 1) + Arrived(ch, land, i) < TX_ATTEMPTS;
            && r.0.got == w.got + (if inTime then [m.Whole()] else [])
            && r.1 == (inTime && Heard(ch, land, i) == Arrived(ch, land, i))
  {
    hide FirstArrival;
    hide FirstHeard;
    hide SendFragment;
    hide Arrive;
    hide Pass;
    hide Skipped;
    hide Carries;
    var a := Arrived(ch, land, i);
    SkipLost(w, m, i, 0, ch);
    HeardAfterArrived(ch, i, 0);
    BudgetIsExact(ch, land, i - 1);
    var j: nat, t0: nat :| Waiting(w, m, i, ch, land, j, t0);
    var t := t0 + Waits(Arrived(ch, land, i - 1));
    var v := Skipped(w, i, 0, ch);
    SkipKeeps(w, m, j, i, t, i, 0, ch);
    if a < TX_ATTEMPTS {
      SendStep(v, m, i, a, ch);
      HeardStep(ch, i, a);
      if v.clock < t + RX_TIMEOUT_MS {
        ArriveNext(v, m, j, i, t);
      } else {
        ArriveStale(v, m, j, i, t, i);
      }
      if !(v.clock < t + RX_TIMEOUT_MS && ch.fate(i, a).BothArrive?) {
        var u := Arrive(v, m.src, FrameOf(m, i)).0;
        PassIdle(u, Waits(1), ch.other(i, a), m);
        SendIdle(Pass(u, Waits(1), ch.other(i, a)), m, i, a + 1, ch);
      }
    } else {
      SendNone(v, m, i, ch);
    }
  }

  // ---- The whole write -----------------------------------------------------------------------

  lemma {:induction false} ReachesDown(ch: Channel, land: nat, i: nat, k: nat)
    requires land <= TX_ATTEMPTS && i <= k && Reaches(ch, land, k)
    ensures Reaches(ch, land, i)
    ensures i < k ==> Heard(ch, land, i) < TX_ATTEMPTS
  {
    if i < k {
      ReachesDown(ch, land, i, k - 1);
    }
  }

  lemma {:induction false} SendRest(w: World, m: Message, i: nat, ch: Channel, land: nat)
    requires PoolOk(w.slots) && m.Valid() && ch.Valid() && ch.Apart(m) && 0 < i < m.Count()
    requires land <= TX_ATTEMPTS && Reaches(ch, land, i - 1) && Heard(ch, land, i - 1) < TX_ATTEMPTS
    requires Ready(w, m, i, ch, land)
    ensures var r := SendFrom(w, m, i, ch);
            var n := m.Count();
            && r.0.got == w.got + (if Reaches(ch, land, n - 1) then [m.Whole()] else [])
            && r.1 == (Reaches(ch, land, n - 1) && Heard(ch, land, n - 1) == Arrived(ch, land, n - 1))
    decreases m.Count() - i
  {
    hide FirstArrival;
    hide FirstHeard;
    hide Arrive;
    hide SendFragment;
    hide Waiting;
    var n := m.Count();
    if i == n - 1 {
      SendLast(w, m, i, ch, land);
      var r := SendFragment(w, m, i, 0, ch);
      assert SendFrom(r.0, m, n, ch) == (r.0, true);
    } else {
      SendMiddle(w, m, i, ch, land);
      var r := SendFragment(w, m, i, 0, ch);
      if r.1 {
        SendRest(r.0, m, i + 1, ch, land);
      } else if Reaches(ch, land, n - 1) {
        ReachesDown(ch, land, i, n - 1);
      }
    }
  }

  /** The first attempt of the first fragment, from a on, whose frame arrives and finds room, and the world
      then; TX_ATTEMPTS if there is none. */
  ghost function Land(w: World, m: Message, a: nat, ch: Channel): (r: (World, nat))
    requires PoolOk(w.slots) && m.Valid() && m.Count() > 0 && a <= TX_ATTEMPTS
    ensures PoolOk(r.0.slots) && a <= r.1 <= TX_ATTEMPTS && r.0.clock == w.clock + Waits(r.1 - a)
    ensures r.1 < TX_ATTEMPTS ==> Room(r.0) && !ch.fate(0, r.1).DataLost?
    decreases TX_ATTEMPTS - a
  {
    if a == TX_ATTEMPTS then (w, a)
    else if ch.fate(0, a).DataLost? then Land(Pass(w, Waits(1), ch.other(0, a)), m, a + 1, ch)
    else if Room(w) then (w, a)
    else Land(Pass(Arrive(w, m.src, FrameOf(m, 0)).0, Waits(1), ch.other(0, a)), m, a + 1, ch)
  }

  ghost function Landing(w: World, m: Message, ch: Channel): (r: nat)
    requires PoolOk(w.slots) && m.Valid() && m.Count() > 0
    ensures r <= TX_ATTEMPTS
  {
    Land(w, m, 0, ch).1
  }

  /** A first fragment that finds the pool full is not acknowledged and changes nothing but expiries. */
  lemma ArriveFull(w: World, m: Message)
    requires PoolOk(w.slots) && m.Valid() && m.Count() > 0 && Idle(w.slots, m) && !Room(w)
    ensures var r := Arrive(w, m.src, FrameOf(m, 0));
            !r.1 && Silent(w, r.0) && Idle(r.0.slots, m)
  {
    var e := Expire(w.slots, Now(w.clock));
    IdleExpire(w.slots, m, Now(w.clock));
    forall j | 0 <= j < |e|
      ensures !Matches(e[j], m.src, FrameOf(m, 0))
    {
      MatchesIsKey(e[j], m, 0);
    }
  }

  /** Until then nothing is acknowledged, handed up or held. */
  lemma {:induction false} SendToLanding(w: World, m: Message, a: nat, ch: Channel)
    requires PoolOk(w.slots) && m.Valid() && m.Count() > 0 && ch.Apart(m) && a <= TX_ATTEMPTS && Idle(w.slots, m)
    ensures var (v, l) := Land(w, m, a, ch);
            && SendFragment(w, m, 0, a, ch) == SendFragment(v, m, 0, l, ch)
            && Idle(v.slots, m) && v.got == w.got
    decreases TX_ATTEMPTS - a
  {
    hide Arrive;
    hide Pass;
    hide Idle;
    hide Room;
    hide SendFragment;
    if a < TX_ATTEMPTS {
      if ch.fate(0, a).DataLost? {
        SendLost(w, m, 0, a, ch);
        PassIdle(w, Waits(1), ch.other(0, a), m);
        SendToLanding(Pass(w, Waits(1), ch.other(0, a)), m, a + 1, ch);
      } else if !Room(w) {
        SendStep(w, m, 0, a, ch);
        ArriveFull(w, m);
        var v := Arrive(w, m.src, FrameOf(m, 0)).0;
        PassIdle(v, Waits(1), ch.other(0, a), m);
        SendToLanding(Pass(v, Waits(1), ch.other(0, a)), m, a + 1, ch);
      }
    }
  }

  /** Main theorem. For every message of two or more fragments, every channel, any other traffic and every
      pool with no trace of the message: the message is handed up, once, byte for byte and with its source,
      exactly when every fragment reaches the receiver in time, the first one finding room, and the write
      reports success exactly when in addition the first copy of the last fragment to arrive is also the
      first to be heard. */
  lemma TransferOutcome(w: World, m: Message, ch: Channel)
    requires PoolOk(w.slots) && m.Valid() && |m.data| <= BUFFER_SIZE && m.Count() >= 2
    requires ch.Valid() && ch.Apart(m) && Idle(w.slots, m)
    ensures var r := SendFrom(w, m, 0, ch);
            var n, land := m.Count(), Landing(w, m, ch);
            && r.0.got == w.got + (if Reaches(ch, land, n - 1) then [m.Whole()] else [])
            && (r.1 <==> Reaches(ch, land, n - 1) && Heard(ch, land, n - 1) == Arrived(ch, land, n - 1))
  {
    hide SendFragment;
    hide Carries;
    hide FrameOf;
    hide FirstArrival;
    hide FirstHeard;
    hide Arrive;
    hide Land;
    hide Room;
    var n := m.Count();
    var (v, land) := Land(w, m, 0, ch);
    SendToLanding(w, m, 0, ch);
    if land < TX_ATTEMPTS {
      ArriveFirst(v, m);
      var j :| Holds(Arrive(v, m.src, FrameOf(m, 0)).0.slots, m, j, 1, v.clock);
      AfterAccept(v, m, 0, ch, land, j, Arrive(v, m.src, FrameOf(m, 0)).0, w.clock);
    } else {
      SendNone(v, m, 0, ch);
    }
    var r := SendFragment(w, m, 0, 0, ch);
    if r.1 {
      SendRest(r.0, m, 1, ch, land);
    } else if Reaches(ch, land, n - 1) {
      ReachesDown(ch, land, 0, n - 1);
    }
  }

  /** How many copies of a one-fragment message arrive and find room before the attempts stop. */
  ghost function Copies(w: World, m: Message, a: nat, ch: Channel): (n: nat)
    requires PoolOk(w.slots) && m.Valid() && m.Count() == 1 && a <= TX_ATTEMPTS
    ensures n <= TX_ATTEMPTS - a
    decreases TX_ATTEMPTS - a
  {
    var (v, l) := Land(w, m, a, ch);
    if l == TX_ATTEMPTS then 0
    else if ch.fate(0, l).BothArrive? then 1
    else 1 + Copies(Pass(Arrive(v, m.src, FrameOf(m, 0)).0, Waits(1), ch.other(0, l)), m, l + 1, ch)
  }

  /** Some copy arrives, finds room and is heard. */
  ghost predicate Confirmed(w: World, m: Message, a: nat, ch: Channel)
    requires PoolOk(w.slots) && m.Valid() && m.Count() == 1 && a <= TX_ATTEMPTS
    decreases TX_ATTEMPTS - a
  {
    var (v, l) := Land(w, m, a, ch);
    && l < TX_ATTEMPTS
    && (ch.fate(0, l).BothArrive?
        || Confirmed(Pass(Arrive(v, m.src, FrameOf(m, 0)).0, Waits(1), ch.other(0, l)), m, l + 1, ch))
  }

  lemma {:induction false} SendSingle(w: World, m: Message, a: nat, ch: Channel)
    requires PoolOk(w.slots) && m.Valid() && m.Count() == 1 && a <= TX_ATTEMPTS
    requires ch.Apart(m) && Idle(w.slots, m)
    ensures var r := SendFragment(w, m, 0, a, ch);
            && r.0.got == w.got + Repeat(m.Whole(), Copies(w, m, a, ch))
            && r.1 == Confirmed(w, m, a, ch)
    decreases TX_ATTEMPTS - a
  {
    hide Arrive;
    hide Pass;
    hide Idle;
    hide Room;
    hide Land;
    hide SendFragment;
    var (v, l) := Land(w, m, a, ch);
    SendToLanding(w, m, a, ch);
    if l == TX_ATTEMPTS {
      SendNone(v, m, 0, ch);
      assert Repeat(m.Whole(), 0) == [];
    } else {
      ArriveFirst(v, m);
      SendStep(v, m, 0, l, ch);
      var r := Arrive(v, m.src, FrameOf(m, 0)).0;
      if ch.fate(0, l).BothArrive? {
        assert [m.Whole()] == Repeat(m.Whole(), 1);
      } else {
        PassIdle(r, Waits(1), ch.other(0, l), m);
        var u := Pass(r, Waits(1), ch.other(0, l));
        SendSingle(u, m, l + 1, ch);
        assert [m.Whole()] + Repeat(m.Whole(), Copies(u, m, l + 1, ch)) == Repeat(m.Whole(), Copies(w, m, a, ch));
      }
    }
  }

  /** A message of one fragment is handed up once for every copy that arrives and finds room, up to four
      times, and the write succeeds exactly when some such copy is heard. */
  lemma SingleFragmentOutcome(w: World, m: Message, ch: Channel)
    requires PoolOk(w.slots) && m.Valid() && m.Count() == 1 && ch.Apart(m) && Idle(w.slots, m)
    ensures var r := SendFrom(w, m, 0, ch);
            && r.0.got == w.got + Repeat(m.Whole(), Copies(w, m, 0, ch))
            && Copies(w, m, 0, ch) <= TX_ATTEMPTS
            && (r.1 <==> Confirmed(w, m, 0, ch))
  {
    hide SendFragment;
    SendSingle(w, m, 0, ch);
    var r := SendFragment(w, m, 0, 0, ch);
    assert SendFrom(r.0, m, 1, ch) == (r.0, true);
  }

  /** What the receiver is given of a write: of two or more fragments the message once, exactly when
      every fragment reaches it in time; of one fragment, once for every copy that arrives and finds room. */
  ghost function Receipts(w: World, m: Message, ch: Channel): seq<HandUp>
    requires PoolOk(w.slots) && m.Valid()
  {
    CountBounds(|m.data|, m.p);
    if m.Count() == 1 then Repeat(m.Whole(), Copies(w, m, 0, ch))
    else if Reaches(ch, Landing(w, m, ch), m.Count() - 1) then [m.Whole()] else []
  }

  /** When the write returns 0. */
  ghost predicate Reported(w: World, m: Message, ch: Channel)
    requires PoolOk(w.slots) && m.Valid()
  {
    CountBounds(|m.data|, m.p);
    var n := m.Count();
    if n == 1 then Confirmed(w, m, 0, ch)
    else
      var land := Landing(w, m, ch);
      Reaches(ch, land, n - 1) && Heard(ch, land, n - 1) == Arrived(ch, land, n - 1)
  }

  /** Both theorems in one. */
  lemma SendOutcome(w: World, m: Message, ch: Channel)
    requires PoolOk(w.slots) && m.Valid() && |m.data| <= BUFFER_SIZE
    requires ch.Valid() && ch.Apart(m) && Idle(w.slots, m)
    ensures var r := SendFrom(w, m, 0, ch);
            r.0.got == w.got + Receipts(w, m, ch) && (r.1 <==> Reported(w, m, ch))
    ensures forall h :: h in Receipts(w, m, ch) ==> h == m.Whole()
  {
    CountBounds(|m.data|, m.p);
    if m.Count() == 1 {
      SingleFragmentOutcome(w, m, ch);
    } else {
      TransferOutcome(w, m, ch);
    }
  }
}
