/** Any number of senders, an unordered channel that loses, repeats and delays data frames and
    acknowledgements, and one receiving pool, as a labelled step relation. */
module Network {
  import opened Bytes
  import opened Reassembly
  import opened Fragmentation
  import StopAndWait

  /** One write call; equal messages may be written twice, under different names. */
  datatype Transfer = Transfer(id: nat, m: Message)

  datatype Fragment = Fragment(t: Transfer, i: nat)

  /** One transmission of a fragment in flight, or the acknowledgement it caused. The receiver only sees
      the source address and FrameOf(t.m, i). */
  datatype Packet = Packet(frag: Fragment, serial: nat)

  /** A write in progress: the fragment it is waiting for and its latest transmission of that fragment. */
  datatype Writer = Writer(t: Transfer, i: nat, serial: Option<nat>)

  /** What the rx callback was given on arrival of a packet of t. */
  datatype Delivery = Delivery(t: Transfer, given: HandUp)

  /** bySource and p tell the link: pool keyed by source or not, and the payload size of its senders. */
  datatype Net = Net(
    bySource: bool, p: nat,
    slots: seq<Slot>, clock: nat, sent: nat,
    live: set<Transfer>, writers: map<Option<u32>, Writer>,
    chan: set<Packet>, acks: set<Packet>,
    delivered: set<Delivery>, begun: set<Transfer>)

  datatype Event =
    | Begin(t: Transfer)
    | Transmit(src: Option<u32>)
    | Lose(p: Packet)
    | Deliver(p: Packet, keep: bool)
    | LoseAck(p: Packet)
    | HearAck(src: Option<u32>, p: Packet, keep: bool)
    | GiveUp(src: Option<u32>)
    | Tick(ms: nat)
    | Release(j: nat)
    | Retire(t: Transfer)

  /** The DECT link, or a BLE link with a payload size negotiated between the smallest MTU and 254. */
  predicate IsLink(bySource: bool, p: nat) {
    if bySource then p == DECT_PAYLOAD else 12 <= p <= BLE_PAYLOAD
  }

  /** What the senders on that link can write. */
  ghost predicate Sendable(bySource: bool, p: nat, m: Message) {
    m.Valid() && |m.data| <= BUFFER_SIZE && m.p == p && m.src.Some? == bySource
  }

  ghost predicate SameMessageKey(a: Message, b: Message)
    requires a.Valid() && b.Valid()
  {
    a.src == b.src && a.seqId == b.seqId && a.Count() == b.Count() && |a.data| == |b.data|
  }

  ghost predicate Init(n: Net) {
    && IsLink(n.bySource, n.p)
    && (forall j :: 0 <= j < |n.slots| ==> n.slots[j].state.Free? && n.slots[j].buf.None?)
    && n.live == {} && n.writers == map[] && n.chan == {} && n.acks == {}
    && n.delivered == {} && n.begun == {}
  }

  /** The receiver's pool after a packet, with what it hands up and acknowledges. */
  ghost function Handled(n: Net, p: Packet): Net
    requires PoolOk(n.slots) && p.frag.t.m.Valid() && p.frag.i < p.frag.t.m.Count()
  {
    var m := p.frag.t.m;
    var o := Receive(n.slots, StopAndWait.Now(n.clock), m.src, FrameOf(m, p.frag.i));
    var r := n.(slots := o.slots, acks := if o.ack then n.acks + {p} else n.acks);
    if o.done.None? then r
    else r.(delivered := n.delivered + {Delivery(p.frag.t, Given(o.slots, o.done.value, n.bySource))})
  }

  ghost predicate Step(n: Net, e: Event, n': Net) {
    match e
    case Begin(t) =>
      // A new write, one transmission at a time per sender, and a key no live message of it has.
      && Sendable(n.bySource, n.p, t.m) && t.m.src !in n.writers
      && (forall x :: x in n.begun ==> x.id != t.id)
      && (forall x :: x in n.live ==> x.m.Valid() && !SameMessageKey(x.m, t.m))
      && n' == n.(live := n.live + {t}, begun := n.begun + {t},
                  writers := n.writers[t.m.src := Writer(t, 0, None)])
    case Transmit(src) =>
      && src in n.writers
      && (var w := n.writers[src];
          n' == n.(sent := n.sent + 1, chan := n.chan + {Packet(Fragment(w.t, w.i), n.sent)},
                   writers := n.writers[src := w.(serial := Some(n.sent))]))
    case Lose(p) =>
      n' == n.(chan := n.chan - {p})
    case Deliver(p, keep) =>
      && p in n.chan && PoolOk(n.slots) && p.frag.t.m.Valid() && p.frag.i < p.frag.t.m.Count()
      && n' == Handled(n, p).(chan := if keep then n.chan else n.chan - {p})
    case LoseAck(p) =>
      n' == n.(acks := n.acks - {p})
    case HearAck(src, p, keep) =>
      // The sender waits once it has transmitted, and does not compare the acknowledgement.
      && p in n.acks && p.frag.t.m.src == src
      && src in n.writers && n.writers[src].t.m.Valid() && n.writers[src].serial.Some?
      && (var w := n.writers[src];
          var r := n.(acks := if keep then n.acks else n.acks - {p});
          n' == if w.i + 1 < w.t.m.Count()
                then r.(writers := n.writers[src := Writer(w.t, w.i + 1, None)])
                else r.(writers := n.writers - {src}))
    case GiveUp(src) =>
      n' == n.(writers := n.writers - {src})
    case Tick(ms) =>
      n' == n.(clock := n.clock + ms)
    case Release(j) =>
      && j < |n.slots| && n.slots[j].state.Referenced?
      && n' == n.(slots := n.slots[j := n.slots[j].(state := Free, buf := None)])
    case Retire(t) =>
      // Nothing of the message is left anywhere.
      && t in n.live && t.m.Valid()
      && (forall s :: s in n.writers ==> n.writers[s].t != t)
      && (forall p :: p in n.chan + n.acks ==> p.frag.t != t)
      && (forall j :: 0 <= j < |n.slots| ==> !(n.slots[j].state.Receiving? && SameKey(n.slots[j], t.m)))
      && n' == n.(live := n.live - {t})
  }

  /** A run and its events. */
  ghost predicate Run(ns: seq<Net>, es: seq<Event>) {
    && |ns| == |es| + 1 && Init(ns[0])
    && forall i :: 0 <= i < |es| ==> Step(ns[i], es[i], ns[i + 1])
  }

  // ---- The invariant -------------------------------------------------------------------------

  ghost predicate Known(live: set<Transfer>, f: Fragment) {
    f.t in live && f.t.m.Valid() && f.i < f.t.m.Count()
  }

  /** A receiving context holds exactly the first fragIdx chunks of some live message. */
  ghost predicate Faithful(live: set<Transfer>, s: Slot) {
    s.state.Receiving? ==> exists t :: t in live && t.m.Valid() && Carries(s, t.m, s.fragIdx)
  }

  ghost predicate AllFaithful(live: set<Transfer>, slots: seq<Slot>) {
    forall j :: 0 <= j < |slots| ==> Faithful(live, slots[j])
  }

  /** Live messages are sendable and no two share a key. */
  ghost predicate Distinct(live: set<Transfer>, bySource: bool) {
    && (forall t :: t in live ==> t.m.Valid() && t.m.src.Some? == bySource)
    && (forall a, b :: a in live && b in live && a != b ==> !SameMessageKey(a.m, b.m))
  }

  /** No transmission is of two fragments. */
  ghost predicate SameTransmission(w: Writer, p: Packet) {
    w.serial == Some(p.serial) ==> p.frag == Fragment(w.t, w.i)
  }

  ghost predicate Traffic(n: Net) {
    && (forall p :: p in n.chan || p in n.acks ==> Known(n.live, p.frag) && p.serial < n.sent)
    && (forall s :: s in n.writers ==>
          var w := n.writers[s];
          && Known(n.live, Fragment(w.t, w.i)) && w.t.m.src == s
          && (w.serial.Some? ==> w.serial.value < n.sent))
    && (forall s, p :: s in n.writers && (p in n.chan || p in n.acks) ==> SameTransmission(n.writers[s], p))
  }

  ghost predicate Genuine(n: Net, d: Delivery) {
    d.t in n.begun && d.given == d.t.m.Whole()
  }

  ghost predicate History(n: Net) {
    && n.live <= n.begun
    && (forall d :: d in n.delivered ==> Genuine(n, d))
    && (forall p :: p in n.acks && p.frag.t.m.Valid() && p.frag.i + 1 == p.frag.t.m.Count() ==>
          Delivery(p.frag.t, p.frag.t.m.Whole()) in n.delivered)
  }

  ghost predicate Inv(n: Net) {
    && PoolOk(n.slots) && AllFaithful(n.live, n.slots) && Distinct(n.live, n.bySource)
    && Traffic(n) && History(n)
  }

  /** The lookup for a frame of a live message ends at a context that, once tagged, carries that very
      message, and leaves the other contexts faithful. */
  lemma LookupFaithful(slots: seq<Slot>, live: set<Transfer>, now: u32, t: Transfer, i: nat)
    requires PoolOk(slots) && t in live && Distinct(live, t.m.src.Some?) && AllFaithful(live, slots)
    requires t.m.Valid() && i < t.m.Count()
    ensures var g := Get(slots, now, t.m.src, FrameOf(t.m, i));
            && (forall j :: 0 <= j < |slots| && g.1 != Some(j) ==> Faithful(live, g.0[j]))
            && (g.1.Some? ==> var s := Tag(g.0[g.1.value], t.m.src); Carries(s, t.m, s.fragIdx))
  {
    var f := FrameOf(t.m, i);
    var e := Expire(slots, now);
    assert forall j :: 0 <= j < |slots| ==> Faithful(live, slots[j]);
    assert forall j :: 0 <= j < |slots| && e[j].state.Receiving? ==> e[j] == slots[j];
    var x := FirstMatch(e, t.m.src, f, 0);
    if x.Some? {
      var s := slots[x.value];
      var y :| y in live && y.m.Valid() && Carries(s, y.m, s.fragIdx);
      assert SameMessageKey(y.m, t.m);
    } else if i == 0 && FirstFree(e, 0).Some? {
      OpenedCarries(e[FirstFree(e, 0).value], t.m, now);
    }
  }

  /** A frame of a live message is acknowledged together with a hand-up exactly when it is the last
      one, and what is then handed up is the message and its source. */
  lemma ReceiveFaithful(slots: seq<Slot>, live: set<Transfer>, now: u32, t: Transfer, i: nat)
    requires PoolOk(slots) && t in live && Distinct(live, t.m.src.Some?) && AllFaithful(live, slots)
    requires t.m.Valid() && i < t.m.Count()
    ensures var o := Receive(slots, now, t.m.src, FrameOf(t.m, i));
            && AllFaithful(live, o.slots)
            && (o.ack ==> (o.done.Some? <==> i + 1 == t.m.Count()))
            && (o.done.Some? ==> Given(o.slots, o.done.value, t.m.src.Some?) == t.m.Whole())
  {
    hide Get;
    LookupFaithful(slots, live, now, t, i);
    var g := Get(slots, now, t.m.src, FrameOf(t.m, i));
    if g.1.Some? {
      var s := Tag(g.0[g.1.value], t.m.src);
      var w := Write(s, now, i, FrameOf(t.m, i).payload);
      if i == s.fragIdx {
        WriteNext(s, t.m, i, now);
        assert i + 1 < t.m.Count() ==> Carries(w.0, t.m, w.0.fragIdx);
      } else {
        assert w.0 == s;
      }
      assert Faithful(live, w.0);
    }
  }

  lemma DeliverKeepsInv(n: Net, p: Packet, keep: bool, n': Net)
    requires Inv(n) && Step(n, Deliver(p, keep), n')
    ensures Inv(n')
  {
    hide Receive;
    hide FrameOf;
    hide AllFaithful;
    hide Traffic;
    hide History;
    DeliverKeepsTraffic(n, p, keep, n');
    DeliverKeepsHistory(n, p, keep, n');
    ReceiveFaithful(n.slots, n.live, StopAndWait.Now(n.clock), p.frag.t, p.frag.i);
  }

  lemma DeliverKeepsTraffic(n: Net, p: Packet, keep: bool, n': Net)
    requires Inv(n) && Step(n, Deliver(p, keep), n')
    ensures Traffic(n') && Known(n.live, p.frag)
  {
    hide Receive;
    hide FrameOf;
    hide AllFaithful;
    hide History;
    hide SameTransmission;
    hide Distinct;
    assert Known(n.live, p.frag);
    hide Known;
    assert n'.chan <= n.chan && n'.acks <= n.acks + {p} && n'.writers == n.writers && n'.live == n.live;
  }

  lemma DeliverKeepsHistory(n: Net, p: Packet, keep: bool, n': Net)
    requires Inv(n) && Step(n, Deliver(p, keep), n')
    ensures History(n')
  {
    hide Receive;
    hide FrameOf;
    hide AllFaithful;
    assert Known(n.live, p.frag);
    ReceiveFaithful(n.slots, n.live, StopAndWait.Now(n.clock), p.frag.t, p.frag.i);
    forall d | d in n'.delivered
      ensures Genuine(n', d)
    {
      if d in n.delivered {
        assert Genuine(n, d);
      }
    }
  }

  /** Every other step leaves each receiving context alone and lets no message of one retire. */
  lemma PoolKept(n: Net, e: Event, n': Net)
    requires Inv(n) && Step(n, e, n') && !e.Deliver?
    ensures PoolOk(n'.slots) && AllFaithful(n'.live, n'.slots)
  {
    hide Traffic;
    hide History;
    hide Step;
    hide Carries;
    SlotsKept(n, e, n');
    forall j | 0 <= j < |n'.slots| && n'.slots[j].state.Receiving?
      ensures Faithful(n'.live, n'.slots[j])
    {
      assert n'.slots[j] == n.slots[j] && Faithful(n.live, n.slots[j]);
      var t :| t in n.live && t.m.Valid() && Carries(n.slots[j], t.m, n.slots[j].fragIdx);
      StaysLive(n, e, n', j, t);
    }
  }

  lemma SlotsKept(n: Net, e: Event, n': Net)
    requires PoolOk(n.slots) && Step(n, e, n') && !e.Deliver?
    ensures PoolOk(n'.slots) && |n'.slots| == |n.slots|
    ensures forall j :: 0 <= j < |n.slots| && n'.slots[j].state.Receiving? ==> n'.slots[j] == n.slots[j]
  {
    hide Sendable;
    hide SameMessageKey;
    hide SameKey;
  }

  lemma StaysLive(n: Net, e: Event, n': Net, j: nat, t: Transfer)
    requires Step(n, e, n') && !e.Deliver? && t in n.live && t.m.Valid()
    requires j < |n.slots| && Carries(n.slots[j], t.m, n.slots[j].fragIdx)
    ensures t in n'.live
  {
    hide Sendable;
    hide SameMessageKey;
  }

  lemma HistoryKept(n: Net, e: Event, n': Net)
    requires Inv(n) && Step(n, e, n') && !e.Deliver?
    ensures History(n')
  {
    hide Traffic;
    hide AllFaithful;
    assert n'.delivered == n.delivered && n'.acks <= n.acks && n.begun <= n'.begun;
    forall d | d in n'.delivered
      ensures Genuine(n', d)
    {
      assert Genuine(n, d);
    }
  }

  lemma RetireKeepsTraffic(n: Net, t: Transfer, n': Net)
    requires Traffic(n) && Step(n, Retire(t), n')
    ensures Traffic(n')
  {
    assert forall f :: Known(n.live, f) && f.t != t ==> Known(n'.live, f);
    forall s | s in n'.writers
      ensures Known(n'.live, Fragment(n'.writers[s].t, n'.writers[s].i))
    {
      assert Known(n.live, Fragment(n.writers[s].t, n.writers[s].i)) && n.writers[s].t != t;
    }
  }

  lemma BeginKeepsTraffic(n: Net, t: Transfer, n': Net)
    requires Traffic(n) && Step(n, Begin(t), n')
    ensures Traffic(n')
  {
    CountBounds(|t.m.data|, t.m.p);
    assert forall f :: Known(n.live, f) ==> Known(n'.live, f);
    assert Known(n'.live, Fragment(t, 0));
  }

  lemma TransmitKeepsTraffic(n: Net, src: Option<u32>, n': Net)
    requires Traffic(n) && Step(n, Transmit(src), n')
    ensures Traffic(n')
  {
    hide Sendable;
    hide Handled;
    hide SameKey;
    var w := n.writers[src];
    assert Known(n.live, Fragment(w.t, w.i));
  }

  lemma HearKeepsTraffic(n: Net, e: Event, n': Net)
    requires Traffic(n) && Step(n, e, n') && e.HearAck?
    ensures Traffic(n')
  {
    hide Sendable;
    hide Handled;
    hide SameKey;
    var w := n.writers[e.src];
    assert Known(n.live, Fragment(w.t, w.i));
    assert w.i + 1 < w.t.m.Count() ==> Known(n'.live, Fragment(w.t, w.i + 1));
    hide Known;
    forall s | s in n'.writers
      ensures var x := n'.writers[s];
              Known(n'.live, Fragment(x.t, x.i)) && x.t.m.src == s && (x.serial.Some? ==> x.serial.value < n'.sent)
      ensures n'.writers[s].serial.None? || (s in n.writers && n'.writers[s] == n.writers[s])
    {
    }
  }

  lemma TrafficKept(n: Net, e: Event, n': Net)
    requires Inv(n) && Step(n, e, n') && !e.Deliver?
    ensures Traffic(n')
  {
    hide AllFaithful;
    hide History;
    hide Distinct;
    hide PoolOk;
    hide Known;
    hide SameTransmission;
    match e {
      case Begin(t) => BeginKeepsTraffic(n, t, n');
      case Transmit(src) => TransmitKeepsTraffic(n, src, n');
      case HearAck(src, p, keep) => HearKeepsTraffic(n, e, n');
      case Retire(t) => RetireKeepsTraffic(n, t, n');
      case Lose(p) =>
      case LoseAck(p) =>
      case GiveUp(src) =>
      case Tick(ms) =>
      case Release(j) =>
      case Deliver(p, keep) =>
    }
  }

  lemma StepKeepsInv(n: Net, e: Event, n': Net)
    requires Inv(n) && Step(n, e, n')
    ensures Inv(n')
  {
    hide AllFaithful;
    hide History;
    hide Traffic;
    if e.Deliver? {
      DeliverKeepsInv(n, e.p, e.keep, n');
    } else {
      PoolKept(n, e, n');
      HistoryKept(n, e, n');
      TrafficKept(n, e, n');
    }
  }

  lemma {:induction false} RunKeepsInv(ns: seq<Net>, es: seq<Event>, k: nat)
    requires Run(ns, es) && k < |ns|
    ensures Inv(ns[k])
  {
    if k > 0 {
      RunKeepsInv(ns, es, k - 1);
      assert Step(ns[k - 1], es[k - 1], ns[k]);
      StepKeepsInv(ns[k - 1], es[k - 1], ns[k]);
    }
  }

  // ---- Integrity -----------------------------------------------------------------------------

  /** The step at which the callback is given the message of t. */
  ghost predicate HandsUp(n: Net, e: Event, t: Transfer) {
    && e.Deliver? && e.p.frag.t == t && PoolOk(n.slots) && t.m.Valid() && e.p.frag.i < t.m.Count()
    && (var o := Receive(n.slots, StopAndWait.Now(n.clock), t.m.src, FrameOf(t.m, e.p.frag.i));
        o.done.Some? && Given(o.slots, o.done.value, n.bySource) == t.m.Whole())
  }

  /** Integrity: whatever is lost, repeated, delayed, reordered or interleaved, and whatever expires,
      everything the callback is ever given is byte for byte the data of one earlier write, with its
      source. */
  lemma Integrity(ns: seq<Net>, es: seq<Event>, k: nat, d: Delivery)
    requires Run(ns, es) && k < |ns| && d in ns[k].delivered
    ensures d.given == HandUp(d.t.m.src, d.t.m.data)
    ensures exists b, j :: 0 <= b < j < k && es[b] == Begin(d.t) && HandsUp(ns[j], es[j], d.t)
  {
    RunKeepsInv(ns, es, k);
    assert Genuine(ns[k], d);
    var j := GivenByEvent(ns, es, k, d);
    RunKeepsInv(ns, es, j);
    assert Known(ns[j].live, es[j].p.frag);
    var b := BegunByEvent(ns, es, j, d.t);
    assert es[b] == Begin(d.t) && HandsUp(ns[j], es[j], d.t);
  }

  lemma {:induction false} GivenByEvent(ns: seq<Net>, es: seq<Event>, k: nat, d: Delivery) returns (j: nat)
    requires Run(ns, es) && k < |ns| && d in ns[k].delivered
    ensures j < k && HandsUp(ns[j], es[j], d.t) && Step(ns[j], es[j], ns[j + 1]) && es[j].p in ns[j].chan
    decreases k
  {
    hide Inv;
    hide Receive;
    hide FrameOf;
    assert k > 0;
    var n, e := ns[k - 1], es[k - 1];
    assert Step(n, e, ns[k]);
    if d in n.delivered {
      j := GivenByEvent(ns, es, k - 1, d);
    } else {
      j := k - 1;
      RunKeepsInv(ns, es, k);
      DeliveryIsGenuine(ns[k], d);
    }
  }

  lemma DeliveryIsGenuine(n: Net, d: Delivery)
    requires Inv(n) && d in n.delivered
    ensures d.given == d.t.m.Whole()
  {
    assert Genuine(n, d);
  }

  lemma {:induction false} BegunByEvent(ns: seq<Net>, es: seq<Event>, k: nat, t: Transfer) returns (i: nat)
    requires Run(ns, es) && k < |ns| && t in ns[k].begun
    ensures i < k && es[i] == Begin(t)
    decreases k
  {
    hide Receive;
    assert k > 0;
    assert Step(ns[k - 1], es[k - 1], ns[k]);
    if t in ns[k - 1].begun {
      i := BegunByEvent(ns, es, k - 1, t);
    } else {
      assert es[k - 1] == Begin(t);
      i := k - 1;
    }
  }
}
