/** Whether every write that returned 0 was itself handed up, in every run of module Network, depends on
    which acknowledgements the sender lets end the wait for its last fragment. */
module AckCheck {
  import opened Bytes
  import opened Reassembly
  import opened Fragmentation
  import opened Network
  import StopAndWait

  /** Whether the acknowledgement of a fragment may end the wait for the last fragment of a write. The ACK
      handlers let every one do so. */
  type Check = (Fragment, Transfer) -> bool

  /** The write t returns 0 in this step. */
  ghost predicate Returns(n: Net, e: Event, t: Transfer) {
    && e.HearAck? && e.src in n.writers && n.writers[e.src].t == t
    && t.m.Valid() && n.writers[e.src].i + 1 == t.m.Count()
  }

  ghost predicate Passes(c: Check, n: Net, e: Event) {
    forall t :: Returns(n, e, t) ==> c(e.p.frag, t)
  }

  ghost predicate Checked(c: Check, ns: seq<Net>, es: seq<Event>)
    requires |es| <= |ns|
  {
    forall i :: 0 <= i < |es| ==> Passes(c, ns[i], es[i])
  }

  /** Write t was begun, then handed up whole, both before step r. */
  ghost predicate HandedUpBefore(ns: seq<Net>, es: seq<Event>, r: nat, t: Transfer)
    requires r <= |es| <= |ns|
  {
    exists b, d :: 0 <= b < d < r && es[b] == Begin(t) && HandsUp(ns[d], es[d], t)
  }

  /** In every run, whatever is lost and whatever expires, a write that returns 0 was itself handed up
      between its begin and its return. */
  ghost predicate Sound(c: Check) {
    forall ns: seq<Net>, es: seq<Event>, r: nat, t: Transfer ::
      Run(ns, es) && Checked(c, ns, es) && r < |es| && Returns(ns[r], es[r], t) ==> HandedUpBefore(ns, es, r, t)
  }

  /** A sender of the link can be waiting for the last fragment of t while an acknowledgement of f is on
      its way. */
  ghost predicate Confusable(f: Fragment, t: Transfer) {
    && IsLink(t.m.src.Some?, t.m.p)
    && Sendable(t.m.src.Some?, t.m.p, f.t.m) && Sendable(t.m.src.Some?, t.m.p, t.m)
    && f.i < f.t.m.Count() && f.t.m.src == t.m.src
    && (f.t == t || (f.t.id != t.id && !SameMessageKey(f.t.m, t.m)))
  }

  /** f is the last fragment of this very write. */
  ghost predicate Tells(f: Fragment, t: Transfer) {
    t.m.Valid() && f == Fragment(t, t.m.Count() - 1)
  }

  // ---- Acknowledgements of the last fragment are enough --------------------------------------

  /** A write that returns on an acknowledgement of its last fragment was handed up. */
  lemma ReturnedWasHandedUp(ns: seq<Net>, es: seq<Event>, r: nat, t: Transfer)
    requires Run(ns, es) && r < |es| && Returns(ns[r], es[r], t) && Tells(es[r].p.frag, t)
    ensures HandedUpBefore(ns, es, r, t)
  {
    hide Receive;
    hide FrameOf;
    var d := Delivery(t, t.m.Whole());
    RunKeepsInv(ns, es, r);
    assert Step(ns[r], es[r], ns[r + 1]);
    AckedLastWasDelivered(ns[r], es[r].p);
    var j := GivenByEvent(ns, es, r, d);
    RunKeepsInv(ns, es, j);
    PacketIsBegun(ns[j], es[j].p);
    var b := BegunByEvent(ns, es, j, t);
    assert es[b] == Begin(t) && HandsUp(ns[j], es[j], t);
  }

  lemma AckedLastWasDelivered(n: Net, p: Packet)
    requires Inv(n) && p in n.acks && Tells(p.frag, p.frag.t)
    ensures Delivery(p.frag.t, p.frag.t.m.Whole()) in n.delivered
  {
  }

  lemma PacketIsBegun(n: Net, p: Packet)
    requires Inv(n) && p in n.chan
    ensures p.frag.t in n.begun
  {
    assert Known(n.live, p.frag);
  }

  /** What is on its way while a write waits for its last fragment. */
  lemma ReturnIsConfusable(n: Net, e: Event, n': Net, t: Transfer)
    requires Inv(n) && Step(n, e, n') && Returns(n, e, t) && AllSendable(n)
    ensures Confusable(e.p.frag, t)
  {
    hide AllFaithful;
    assert Known(n.live, e.p.frag) && Known(n.live, Fragment(t, n.writers[e.src].i));
    assert e.p.frag.t in n.begun && t in n.begun;
  }

  /** Everything begun is sendable on the link, and names are unique. */
  ghost predicate AllSendable(n: Net) {
    && IsLink(n.bySource, n.p)
    && (forall t :: t in n.begun ==> Sendable(n.bySource, n.p, t.m))
    && (forall a, b :: a in n.begun && b in n.begun && a.id == b.id ==> a == b)
  }

  lemma StepKeepsSendable(n: Net, e: Event, n': Net)
    requires AllSendable(n) && Step(n, e, n')
    ensures AllSendable(n')
  {
    hide Receive;
  }

  lemma {:induction false} RunIsSendable(ns: seq<Net>, es: seq<Event>, k: nat)
    requires Run(ns, es) && k < |ns|
    ensures AllSendable(ns[k])
  {
    if k > 0 {
      RunIsSendable(ns, es, k - 1);
      assert Step(ns[k - 1], es[k - 1], ns[k]);
      StepKeepsSendable(ns[k - 1], es[k - 1], ns[k]);
    }
  }

  lemma TellingIsSound(c: Check)
    requires forall f, t :: Confusable(f, t) && c(f, t) ==> Tells(f, t)
    ensures Sound(c)
  {
    hide Confusable;
    hide Tells;
    hide Inv;
    hide HandedUpBefore;
    forall ns: seq<Net>, es: seq<Event>, r: nat, t: Transfer |
      Run(ns, es) && Checked(c, ns, es) && r < |es| && Returns(ns[r], es[r], t)
      ensures HandedUpBefore(ns, es, r, t)
    {
      RunKeepsInv(ns, es, r);
      RunIsSendable(ns, es, r);
      assert Step(ns[r], es[r], ns[r + 1]) && Passes(c, ns[r], es[r]);
      ReturnIsConfusable(ns[r], es[r], ns[r + 1], t);
      ReturnedWasHandedUp(ns, es, r, t);
    }
  }

  // ---- And they are necessary ----------------------------------------------------------------

  ghost predicate Reached(c: Check, n: Net) {
    exists ns, es :: Run(ns, es) && Checked(c, ns, es) && ns[|es|] == n
  }

  lemma Extend(c: Check, ns: seq<Net>, es: seq<Event>, e: Event, n': Net)
    requires Run(ns, es) && Checked(c, ns, es) && Step(ns[|es|], e, n') && Passes(c, ns[|es|], e)
    ensures Run(ns + [n'], es + [e]) && Checked(c, ns + [n'], es + [e])
  {
    hide Step;
    hide Passes;
    var ns', es' := ns + [n'], es + [e];
    forall i | 0 <= i < |es'|
      ensures Step(ns'[i], es'[i], ns'[i + 1]) && Passes(c, ns'[i], es'[i])
    {
      if i < |es| {
        assert Step(ns[i], es[i], ns[i + 1]) && Passes(c, ns[i], es[i]);
      }
    }
  }

  lemma ReachedStep(c: Check, n: Net, e: Event, n': Net)
    requires Reached(c, n) && Step(n, e, n') && Passes(c, n, e)
    ensures Reached(c, n') && Inv(n')
  {
    hide Step;
    hide Inv;
    hide Passes;
    var ns, es :| Run(ns, es) && Checked(c, ns, es) && ns[|es|] == n;
    Extend(c, ns, es, e, n');
    var ns', es' := ns + [n'], es + [e];
    assert Run(ns', es') && Checked(c, ns', es') && ns'[|es'|] == n';
    RunKeepsInv(ns', es', |es'|);
  }

  ghost predicate Held(slots: seq<Slot>, m: Message, k: nat)
    requires m.Valid()
  {
    exists j :: StopAndWait.Holds(slots, m, j, k, 0)
  }

  /** Only x is alive, its sender waits for fragment k, and everything before it has been accepted. */
  ghost predicate Awaiting(n: Net, x: Transfer, k: nat) {
    && Sendable(n.bySource, n.p, x.m) && k < x.m.Count() && PoolOk(n.slots) && n.clock == 0
    && n.live == {x} && n.begun == {x} && n.delivered == {}
    && n.writers.Keys == {x.m.src} && n.writers[x.m.src].t == x && n.writers[x.m.src].i == k
    && if k == 0 then StopAndWait.Idle(n.slots, x.m) && StopAndWait.HasFree(n.slots) else Held(n.slots, x.m, k)
  }

  /** As before, and fragment k has just been acknowledged. */
  ghost predicate Acknowledged(n: Net, x: Transfer, k: nat, p: Packet) {
    && Sendable(n.bySource, n.p, x.m) && k < x.m.Count() && PoolOk(n.slots) && n.clock == 0
    && n.live == {x} && n.begun == {x}
    && n.writers.Keys == {x.m.src} && n.writers[x.m.src] == Writer(x, k, Some(p.serial))
    && p in n.acks && p.frag == Fragment(x, k)
    && (forall d :: d in n.delivered ==> d.t == x && k + 1 == x.m.Count())
    && (k + 1 < x.m.Count() ==> Held(n.slots, x.m, k + 1))
  }

  /** Transmitting and delivering the awaited fragment. */
  lemma DeliverAwaited(c: Check, n: Net, x: Transfer, k: nat) returns (n': Net, p: Packet)
    requires Reached(c, n) && Inv(n) && Awaiting(n, x, k)
    ensures Reached(c, n') && Inv(n') && Acknowledged(n', x, k, p)
  {
    hide Reached;
    hide Inv;
    hide Held;
    hide StopAndWait.Idle;
    hide Receive;
    hide FrameOf;
    p := Packet(Fragment(x, k), n.sent);
    var n1 := n.(sent := n.sent + 1, chan := n.chan + {p}, writers := n.writers[x.m.src := Writer(x, k, Some(n.sent))]);
    assert Step(n, Transmit(x.m.src), n1);
    ReachedStep(c, n, Transmit(x.m.src), n1);
    n' := Handled(n1, p);
    assert Step(n1, Deliver(p, true), n');
    ReachedStep(c, n1, Deliver(p, true), n');
    AwaitedIsAccepted(n1, x, k, p);
  }

  lemma AwaitedIsAccepted(n: Net, x: Transfer, k: nat, p: Packet)
    requires Inv(n) && Awaiting(n, x, k) && p.frag == Fragment(x, k)
    requires n.writers[x.m.src] == Writer(x, k, Some(p.serial))
    ensures Acknowledged(Handled(n, p), x, k, p)
  {
    hide StopAndWait.Idle;
    hide StopAndWait.Holds;
    hide Receive;
    hide FrameOf;
    var w := StopAndWait.World(n.slots, 0, []);
    ReceiveFaithful(n.slots, n.live, 0, x, k);
    if k == 0 {
      StillRoom(n.slots, 0);
      StopAndWait.ArriveFirst(w, x.m);
    } else {
      var j :| StopAndWait.Holds(n.slots, x.m, j, k, 0);
      StopAndWait.ArriveNext(w, x.m, j, k, 0);
    }
  }

  lemma StillRoom(slots: seq<Slot>, now: u32)
    requires StopAndWait.HasFree(slots)
    ensures StopAndWait.HasFree(Expire(slots, now))
  {
    var j :| 0 <= j < |slots| && slots[j].state.Free?;
    assert Expire(slots, now)[j].state.Free?;
  }

  /** A run in which the receiver accepts fragments 0..k of x and the acknowledgement of k is still on its
      way. */
  lemma {:induction false} RunTo(c: Check, x: Transfer, k: nat) returns (n: Net, p: Packet)
    requires IsLink(x.m.src.Some?, x.m.p) && Sendable(x.m.src.Some?, x.m.p, x.m) && k < x.m.Count()
    ensures Reached(c, n) && Inv(n) && Acknowledged(n, x, k, p) && n.bySource == x.m.src.Some? && n.p == x.m.p
  {
    hide Reached;
    hide Inv;
    hide Held;
    hide StopAndWait.Idle;
    if k == 0 {
      var n1 := Start(c, x);
      n, p := DeliverAwaited(c, n1, x, 0);
    } else {
      var n1, q := RunTo(c, x, k - 1);
      var e := HearAck(x.m.src, q, true);
      var n2 := n1.(writers := n1.writers[x.m.src := Writer(x, k, None)]);
      assert Step(n1, e, n2);
      ReachedStep(c, n1, e, n2);
      n, p := DeliverAwaited(c, n2, x, k);
    }
  }

  lemma Start(c: Check, x: Transfer) returns (n: Net)
    requires IsLink(x.m.src.Some?, x.m.p) && Sendable(x.m.src.Some?, x.m.p, x.m)
    ensures Reached(c, n) && Inv(n) && Awaiting(n, x, 0) && n.bySource == x.m.src.Some? && n.p == x.m.p
  {
    CountBounds(|x.m.data|, x.m.p);
    var s := Slot(Free, 0, 0, 0, 0, 0, 0, None);
    var n0 := Net(x.m.src.Some?, x.m.p, [s], 0, 0, {}, map[], {}, {}, {}, {});
    assert Init(n0) && Run([n0], []) && Checked(c, [n0], []);
    assert Reached(c, n0) by {
      var ns: seq<Net>, es: seq<Event> := [n0], [];
      assert ns[|es|] == n0;
    }
    n := n0.(live := {x}, begun := {x}, writers := map[x.m.src := Writer(x, 0, None)]);
    assert Step(n0, Begin(x), n);
    ReachedStep(c, n0, Begin(x), n);
    assert [s][0].state.Free?;
  }

  /** A check that lets a write return that was not handed up. */
  lemma Refuted(c: Check, n: Net, e: Event, n': Net, t: Transfer)
    requires Reached(c, n) && Step(n, e, n') && Passes(c, n, e) && Returns(n, e, t)
    requires forall d :: d in n.delivered ==> d.t != t
    ensures !Sound(c)
  {
    hide Step;
    hide Passes;
    hide Returns;
    hide HandsUp;
    var ns, es :| Run(ns, es) && Checked(c, ns, es) && ns[|es|] == n;
    Extend(c, ns, es, e, n');
    var ns', es' := ns + [n'], es + [e];
    if HandedUpBefore(ns', es', |es|, t) {
      var b, d :| 0 <= b < d < |es| && es'[b] == Begin(t) && HandsUp(ns'[d], es'[d], t);
      assert ns'[d] == ns[d] && es'[d] == es[d];
      HandUpIsRecorded(ns, es, d, |es|, t);
      assert false;
    }
    assert ns'[|es|] == n && es'[|es|] == e && |es| < |es'|;
  }

  lemma {:induction false} HandUpIsRecorded(ns: seq<Net>, es: seq<Event>, d: nat, k: nat, t: Transfer)
    requires Run(ns, es) && d < k < |ns| && HandsUp(ns[d], es[d], t)
    ensures Delivery(t, t.m.Whole()) in ns[k].delivered
    decreases k
  {
    hide Receive;
    hide FrameOf;
    assert Step(ns[k - 1], es[k - 1], ns[k]);
    if d < k - 1 {
      HandUpIsRecorded(ns, es, d, k - 1, t);
    }
  }

  /** An acknowledgement that stays around and is not checked until the end carries a write through,
      although its own frames are all lost. */
  lemma {:induction false} Creep(c: Check, n: Net, t: Transfer, i: nat, p: Packet)
    requires Reached(c, n) && t.m.Valid() && i < t.m.Count()
    requires t.m.src in n.writers && n.writers[t.m.src].t == t && n.writers[t.m.src].i == i
    requires p in n.acks && p.frag.t.m.src == t.m.src && c(p.frag, t)
    requires forall d :: d in n.delivered ==> d.t != t
    ensures !Sound(c)
    decreases t.m.Count() - i
  {
    hide Reached;
    hide Inv;
    hide Sound;
    var src := t.m.src;
    var q := Packet(Fragment(t, i), n.sent);
    var n1 := n.(sent := n.sent + 1, chan := n.chan + {q}, writers := n.writers[src := Writer(t, i, Some(n.sent))]);
    assert Step(n, Transmit(src), n1);
    ReachedStep(c, n, Transmit(src), n1);
    var e := HearAck(src, p, true);
    if i + 1 < t.m.Count() {
      var n2 := n1.(writers := n1.writers[src := Writer(t, i + 1, None)]);
      assert Step(n1, e, n2);
      ReachedStep(c, n1, e, n2);
      Creep(c, n2, t, i + 1, p);
    } else {
      var n2 := n1.(writers := n1.writers - {src});
      assert Step(n1, e, n2);
      Refuted(c, n1, e, n2, t);
    }
  }

  /** A check that lets any other acknowledgement pass is unsound: a run exists in which a write returns 0
      that was never handed up. */
  lemma Misled(c: Check, f: Fragment, t: Transfer)
    requires Confusable(f, t) && c(f, t) && !Tells(f, t)
    ensures !Sound(c)
  {
    hide Reached;
    hide Inv;
    hide Sound;
    CountBounds(|t.m.data|, t.m.p);
    var n1, p := RunTo(c, f.t, f.i);
    if f.t == t {
      Creep(c, n1, t, f.i, p);
    } else {
      var n2 := n1.(writers := n1.writers - {t.m.src});
      assert Step(n1, GiveUp(t.m.src), n2);
      ReachedStep(c, n1, GiveUp(t.m.src), n2);
      var n3 := n2.(live := n2.live + {t}, begun := n2.begun + {t},
                    writers := n2.writers[t.m.src := Writer(t, 0, None)]);
      assert Step(n2, Begin(t), n3);
      ReachedStep(c, n2, Begin(t), n3);
      Creep(c, n3, t, 0, p);
    }
  }

  /** Sender soundness, exactly: a check makes every write that returns 0 one that was itself handed up
      before, over all runs, if and only if every acknowledgement it lets end a write is one of the last
      fragment of that write. */
  lemma CheckIsSoundExactly(c: Check)
    ensures Sound(c) <==> forall f, t :: Confusable(f, t) && c(f, t) ==> Tells(f, t)
  {
    hide Confusable;
    hide Tells;
    hide Sound;
    if forall f, t :: Confusable(f, t) && c(f, t) ==> Tells(f, t) {
      TellingIsSound(c);
    } else {
      var f, t :| Confusable(f, t) && c(f, t) && !Tells(f, t);
      Misled(c, f, t);
    }
  }

  // ---- Four checks, and attempt windows -----------------------------------------------------

  /** What the ACK handlers do. */
  predicate AnyAck(f: Fragment, t: Transfer) {
    true
  }

  /** Comparison of the two fields an ACK frame has with the outstanding data frame. */
  predicate SameFields(f: Fragment, t: Transfer) {
    f.t.m.seqId == t.m.seqId && t.m.p > 0 && f.i + 1 == FragCount(|t.m.data|, t.m.p)
  }

  /** The last fragment of an equal message, written now or before. */
  predicate SameText(f: Fragment, t: Transfer) {
    f.t.m.data == t.m.data && f.t.m.p > 0 && f.i + 1 == FragCount(|f.t.m.data|, f.t.m.p)
  }

  /** The acknowledged fragment is the outstanding one. */
  predicate SameFragment(f: Fragment, t: Transfer) {
    f.t == t && t.m.p > 0 && f.i + 1 == FragCount(|t.m.data|, t.m.p)
  }

  /** The code as it is can report success for a write nobody received. So it could if it compared the
      fields of the ACK frame but still allowed two live messages to share a sequence id, or if it took the
      ACK of an equal message written before; identifying the outstanding fragment rules it out. The
      witnesses are DECT messages of 30 and 16 bytes. */
  lemma SoundnessOfChecks()
    ensures !Sound(AnyAck) && !Sound(SameFields) && !Sound(SameText) && Sound(SameFragment)
  {
    hide Sound;
    CheckIsSoundExactly(AnyAck);
    CheckIsSoundExactly(SameFields);
    CheckIsSoundExactly(SameText);
    CheckIsSoundExactly(SameFragment);
    var longer := Transfer(0, Message(Some(1), 7, DECT_PAYLOAD, seq(30, _ => 0)));
    var shorter := Transfer(1, Message(Some(1), 7, DECT_PAYLOAD, seq(16, _ => 0)));
    assert longer.m.Valid() && longer.m.Count() == 3 && shorter.m.Valid() && shorter.m.Count() == 2;
    var f := Fragment(longer, 1);
    assert Confusable(f, shorter) && AnyAck(f, shorter) && SameFields(f, shorter) && !Tells(f, shorter);
    var again := Transfer(2, shorter.m.(seqId := 8));
    var g := Fragment(again, 1);
    assert Confusable(g, shorter) && SameText(g, shorter) && !Tells(g, shorter);
  }

  /** The acknowledgement heard is one of the sender's latest transmission. */
  ghost predicate InWindow(n: Net, e: Event) {
    e.HearAck? && e.src in n.writers ==> n.writers[e.src].serial == Some(e.p.serial)
  }

  /** The assumption under which the code needs no check: if each acknowledgement that ends a write is heard
      in the window of the transmission that caused it, the write was handed up before. */
  lemma WindowsAreSound(ns: seq<Net>, es: seq<Event>, r: nat, t: Transfer)
    requires Run(ns, es) && r < |es| && Returns(ns[r], es[r], t) && InWindow(ns[r], es[r])
    ensures HandedUpBefore(ns, es, r, t)
  {
    hide HandedUpBefore;
    RunKeepsInv(ns, es, r);
    assert Step(ns[r], es[r], ns[r + 1]);
    assert SameTransmission(ns[r].writers[es[r].src], es[r].p);
    ReturnedWasHandedUp(ns, es, r, t);
  }

  /** Live messages of one source have different sequence ids. */
  ghost predicate SeqIdsDiffer(n: Net) {
    forall a, b :: a in n.live && b in n.live && a != b && a.m.src == b.m.src ==> a.m.seqId != b.m.seqId
  }

  /** When comparing the two fields of an ACK frame is enough: in every step in which the live messages of a
      source have different sequence ids. */
  lemma SameFieldsSuffice(ns: seq<Net>, es: seq<Event>, r: nat, t: Transfer)
    requires Run(ns, es) && r < |es| && Returns(ns[r], es[r], t)
    requires SameFields(es[r].p.frag, t) && SeqIdsDiffer(ns[r])
    ensures HandedUpBefore(ns, es, r, t)
  {
    hide HandedUpBefore;
    hide AllFaithful;
    var n, e := ns[r], es[r];
    RunKeepsInv(ns, es, r);
    assert Step(n, e, ns[r + 1]);
    assert Known(n.live, e.p.frag) && Known(n.live, Fragment(t, n.writers[e.src].i));
    ReturnedWasHandedUp(ns, es, r, t);
  }
}
