/** Buffer ownership on its way from a transport through a router FIFO to the router thread, as
    interleaved atomic steps of the two threads. */
module Routing {
  import opened Bytes
  import opened Reassembly

  const HEADER_SIZE: nat := 10

  datatype Side = Upstream | Downstream

  /** Packed message header: version, endpoint id, source id, destination id. */
  function EndpointId(data: bytes): u8
    requires |data| >= HEADER_SIZE
  {
    data[1]
  }

  function DstId(data: bytes): u32
    requires |data| >= HEADER_SIZE
  {
    FromLe32(data[6..10])
  }

  /** The header is ten bytes: version, endpoint, then source before destination, both little-endian. */
  lemma HeaderFields(e: u8, src: u32, dst: u32, rest: bytes)
    ensures var header := [0, e] + Le32(src) + Le32(dst);
            && |header| == HEADER_SIZE == 10
            && EndpointId(header + rest) == e && DstId(header + rest) == dst
  {
    var data := [0, e] + Le32(src) + Le32(dst) + rest;
    assert data[6..10] == Le32(dst);
  }

  /** What the transport's thread is doing with a message it completed: about to call the rx callback
      or about to drop its own reference. */
  datatype Hold = Nothing | Calling(i: nat) | Releasing(i: nat)

  /** One transport's pool, the FIFO its messages go to, and who is holding what. arrived and forwarded
      record the contents of the messages put into the FIFO and passed on by the router. */
  datatype Lane = Lane(
    slots: seq<Slot>, fifo: seq<nat>, hold: Hold, taken: Option<nat>,
    arrived: seq<bytes>, forwarded: seq<bytes>)

  datatype Step =
    | Frame(now: u32, src: Option<u32>, f: Reassembly.Frame)
    | Callback(registered: bool)
    | Release
    | Take
    | Finish

  predicate Enabled(l: Lane, s: Step) {
    match s
    case Frame(now, src, f) => l.hold.Nothing?
    case Callback(registered) => l.hold.Calling?
    case Release => l.hold.Releasing?
    case Take => l.taken.None? && l.fifo != []
    case Finish => l.taken.Some?
  }

  /** Occurrences of context i among the holders outside the pool's own reassembly. */
  function Holders(l: Lane, i: nat): nat {
    multiset(l.fifo)[i]
    + (if l.taken == Some(i) then 1 else 0)
    + (if l.hold == Calling(i) || l.hold == Releasing(i) then 1 else 0)
  }

  function RefsOf(s: Slot): nat {
    if s.buf.Some? then s.buf.value.refs else 0
  }

  /** Reference conservation: every count is the number of holders, a context being received counting
      as held once by the transport. */
  ghost predicate Conserved(l: Lane) {
    && PoolOk(l.slots)
    && (forall i :: 0 <= i < |l.slots| ==>
          RefsOf(l.slots[i]) == Holders(l, i) + if l.slots[i].state.Receiving? then 1 else 0)
    && (forall i :: 0 <= i < |l.slots| && l.slots[i].state.Receiving? ==> Holders(l, i) == 0)
    && (forall i :: i in l.fifo ==> i < |l.slots|)
    && (l.taken.Some? ==> l.taken.value < |l.slots|)
    && (!l.hold.Nothing? ==> l.hold.i < |l.slots|)
  }

  ghost predicate InRange(l: Lane) {
    && (forall i :: i in l.fifo ==> i < |l.slots| && l.slots[i].buf.Some?)
    && (l.taken.Some? ==> l.taken.value < |l.slots| && l.slots[l.taken.value].buf.Some?)
  }

  /** Contents of the messages the router still has to pass on, oldest first. */
  ghost function Waiting(l: Lane): seq<bytes>
    requires InRange(l)
  {
    (if l.taken.Some? then [Payload(l.slots, l.taken.value)] else [])
    + seq(|l.fifo|, k requires 0 <= k < |l.fifo| => (assert l.fifo[k] in l.fifo; Payload(l.slots, l.fifo[k])))
  }

  /** Nothing is lost, repeated, reordered or altered on the way through. */
  ghost predicate InTransit(l: Lane) {
    InRange(l) && l.arrived == l.forwarded + Waiting(l)
  }

  ghost function Next(l: Lane, s: Step): Lane
    requires Conserved(l) && InRange(l) && Enabled(l, s)
  {
    match s
    case Frame(now, src, f) =>
      var o := Receive(l.slots, now, src, f);
      l.(slots := o.slots, hold := if o.done.Some? then Calling(o.done.value) else Nothing)
    case Callback(registered) =>
      var i := l.hold.i;
      HeldIsReferenced(l, i);
      if registered && l.slots[i].total >= HEADER_SIZE
      then l.(slots := Ref(l.slots, i), fifo := l.fifo + [i], hold := Releasing(i),
              arrived := l.arrived + [Payload(l.slots, i)])
      else l.(hold := Releasing(i))
    case Release =>
      HeldIsReferenced(l, l.hold.i);
      l.(slots := Unref(l.slots, l.hold.i), hold := Nothing)
    case Take =>
      l.(taken := Some(l.fifo[0]), fifo := l.fifo[1..])
    case Finish =>
      var i := l.taken.value;
      HeldIsReferenced(l, i);
      l.(slots := Unref(l.slots, i), taken := None, forwarded := l.forwarded + [Payload(l.slots, i)])
  }

  lemma HeldIsReferenced(l: Lane, i: nat)
    requires Conserved(l) && i < |l.slots| && Holders(l, i) > 0
    ensures l.slots[i].state.Referenced? && l.slots[i].buf.Some? && l.slots[i].buf.value.refs >= 1
  {
    assert SlotOk(l.slots[i]);
  }

  /** What a frame does to the contexts: referenced ones stay, others end with one reference or none. */
  lemma ReceiveRefs(slots: seq<Slot>, now: u32, src: Option<u32>, f: Reassembly.Frame, i: nat)
    requires PoolOk(slots) && i < |slots|
    ensures var o := Receive(slots, now, src, f);
            && (slots[i].state.Referenced? ==> o.slots[i] == slots[i] && o.done != Some(i))
            && (!slots[i].state.Referenced? ==>
                  RefsOf(o.slots[i]) == if o.slots[i].state.Free? then 0 else 1)
            && (!slots[i].state.Referenced? && o.done != Some(i) ==> !o.slots[i].state.Referenced?)
            && (o.done == Some(i) ==> o.slots[i].state.Referenced?)
  {
    var o := Receive(slots, now, src, f);
    assert SlotOk(slots[i]) && SlotOk(o.slots[i]);
    var e := Expire(slots, now);
    assert e[i] == Reclaim(slots[i], now);
  }

  lemma FrameConserves(l: Lane, now: u32, src: Option<u32>, f: Reassembly.Frame)
    requires Conserved(l) && InTransit(l) && l.hold.Nothing?
    ensures Conserved(Next(l, Step.Frame(now, src, f))) && InTransit(Next(l, Step.Frame(now, src, f)))
  {
    hide Receive;
    var l' := Next(l, Step.Frame(now, src, f));
    forall i | 0 <= i < |l.slots|
      ensures RefsOf(l'.slots[i]) == Holders(l', i) + if l'.slots[i].state.Receiving? then 1 else 0
      ensures l'.slots[i].state.Receiving? ==> Holders(l', i) == 0
      ensures Holders(l, i) > 0 ==> l'.slots[i] == l.slots[i]
    {
      ReceiveRefs(l.slots, now, src, f, i);
      assert SlotOk(l.slots[i]) && SlotOk(l'.slots[i]);
      if Holders(l, i) > 0 {
        HeldIsReferenced(l, i);
      }
    }
    SameContents(l, l');
  }

  /** Waiting messages keep their contents while every held context keeps its buffer's data. */
  lemma SameContents(l: Lane, l': Lane)
    requires InRange(l) && l'.fifo == l.fifo && l'.taken == l.taken && |l'.slots| == |l.slots|
    requires forall i :: 0 <= i < |l.slots| && Holders(l.(hold := Nothing), i) > 0 ==>
               l'.slots[i].buf.Some? && l'.slots[i].buf.value.data == l.slots[i].buf.value.data
    ensures InRange(l') && Waiting(l') == Waiting(l)
  {
    forall k | 0 <= k < |l.fifo|
      ensures l'.slots[l.fifo[k]].buf.Some?
      ensures l'.slots[l.fifo[k]].buf.value.data == l.slots[l.fifo[k]].buf.value.data
    {
      assert l.fifo[k] in l.fifo;
      assert Holders(l.(hold := Nothing), l.fifo[k]) > 0;
    }
    assert l.taken.Some? ==> Holders(l.(hold := Nothing), l.taken.value) > 0;
  }

  lemma CallbackConserves(l: Lane, registered: bool)
    requires Conserved(l) && InTransit(l) && l.hold.Calling?
    ensures Conserved(Next(l, Callback(registered))) && InTransit(Next(l, Callback(registered)))
  {
    var i := l.hold.i;
    HeldIsReferenced(l, i);
    var l' := Next(l, Callback(registered));
    if registered && l.slots[i].total >= HEADER_SIZE {
      CallbackInTransit(l);
    } else {
      SameContents(l, l');
    }
  }

  lemma CallbackInTransit(l: Lane)
    requires Conserved(l) && InTransit(l) && l.hold.Calling? && l.slots[l.hold.i].total >= HEADER_SIZE
    ensures InTransit(Next(l, Callback(true)))
  {
    var i := l.hold.i;
    HeldIsReferenced(l, i);
    var l' := Next(l, Callback(true));
    SameContents(l, l.(slots := l'.slots));
    assert Waiting(l') == Waiting(l) + [Payload(l.slots, i)];
    assert l.arrived + [Payload(l.slots, i)] == l.forwarded + (Waiting(l) + [Payload(l.slots, i)]);
  }

  lemma ReleaseConserves(l: Lane)
    requires Conserved(l) && InTransit(l) && l.hold.Releasing?
    ensures Conserved(Next(l, Release)) && InTransit(Next(l, Release))
  {
    HeldIsReferenced(l, l.hold.i);
    SameContents(l, Next(l, Release));
  }

  lemma TakeConserves(l: Lane)
    requires Conserved(l) && InTransit(l) && Enabled(l, Take)
    ensures Conserved(Next(l, Take)) && InTransit(Next(l, Take))
  {
    hide InTransit;
    hide InRange;
    hide PoolOk;
    hide RefsOf;
    hide Holders;
    TakeInTransit(l);
    TakeKeepsHolders(l);
    assert InRange(l) by {
      InTransitIsInRange(l);
    }
  }

  lemma InTransitIsInRange(l: Lane)
    requires InTransit(l)
    ensures InRange(l)
  {
  }

  /** The head of the FIFO only changes hands. */
  lemma TakeKeepsHolders(l: Lane)
    requires l.fifo != [] && l.taken.None?
    ensures var l' := l.(taken := Some(l.fifo[0]), fifo := l.fifo[1..]);
            && l.fifo[0] in l.fifo
            && (forall i :: i in l'.fifo ==> i in l.fifo)
            && forall i: nat :: Holders(l', i) == Holders(l, i)
  {
    var rest := l.fifo[1..];
    assert l.fifo == [l.fifo[0]] + rest;
    assert multiset(l.fifo) == multiset{l.fifo[0]} + multiset(rest);
  }

  lemma TakeInTransit(l: Lane)
    requires Conserved(l) && InTransit(l) && Enabled(l, Take)
    ensures InTransit(Next(l, Take))
  {
    var l' := Next(l, Take);
    assert l.fifo[0] in l.fifo && forall i :: i in l'.fifo ==> i in l.fifo;
    assert Waiting(l') == Waiting(l);
  }

  lemma FinishConserves(l: Lane)
    requires Conserved(l) && InTransit(l) && Enabled(l, Finish)
    ensures Conserved(Next(l, Finish)) && InTransit(Next(l, Finish))
  {
    HeldIsReferenced(l, l.taken.value);
    FinishInTransit(l);
  }

  lemma FinishInTransit(l: Lane)
    requires Conserved(l) && InTransit(l) && Enabled(l, Finish)
    ensures InTransit(Next(l, Finish))
  {
    hide Waiting;
    var i := l.taken.value;
    HeldIsReferenced(l, i);
    var l' := Next(l, Finish);
    var m := l.(taken := None);
    FinishKeepsContents(l);
    var p := Payload(l.slots, i);
    TakenIsFirst(l);
    assert l.forwarded + ([p] + Waiting(m)) == (l.forwarded + [p]) + Waiting(m);
  }

  lemma TakenIsFirst(l: Lane)
    requires InRange(l) && l.taken.Some?
    ensures Waiting(l) == [Payload(l.slots, l.taken.value)] + Waiting(l.(taken := None))
  {
  }

  lemma FinishKeepsContents(l: Lane)
    requires Conserved(l) && InRange(l) && Enabled(l, Finish)
    ensures InRange(Next(l, Finish)) && Waiting(Next(l, Finish)) == Waiting(l.(taken := None))
  {
    hide Waiting;
    HeldIsReferenced(l, l.taken.value);
    SameContents(l.(taken := None), Next(l, Finish));
  }

  /** Every interleaving of the transport's and the router's steps keeps every count equal to the
      number of holders, and every message on its way unaltered and in order. */
  lemma StepConserves(l: Lane, s: Step)
    requires Conserved(l) && InTransit(l) && Enabled(l, s)
    ensures Conserved(Next(l, s)) && InTransit(Next(l, s))
  {
    hide Next;
    match s {
      case Frame(now, src, f) => FrameConserves(l, now, src, f);
      case Callback(registered) => CallbackConserves(l, registered);
      case Release => ReleaseConserves(l);
      case Take => TakeConserves(l);
      case Finish => FinishConserves(l);
    }
  }

  ghost predicate Initial(l: Lane) {
    && (forall i :: 0 <= i < |l.slots| ==> l.slots[i].state.Free? && l.slots[i].buf.None?)
    && l.fifo == [] && l.hold.Nothing? && l.taken.None? && l.arrived == [] && l.forwarded == []
  }

  /** Next is only asked for in the states that StepConserves shows to be the only ones reached. */
  ghost predicate Run(ls: seq<Lane>, ss: seq<Step>) {
    && |ls| == |ss| + 1 && Initial(ls[0])
    && forall k :: 0 <= k < |ss| ==>
         Enabled(ls[k], ss[k]) && (Conserved(ls[k]) && InRange(ls[k]) ==> ls[k + 1] == Next(ls[k], ss[k]))
  }

  lemma {:induction false} RunConserves(ls: seq<Lane>, ss: seq<Step>, k: nat)
    requires Run(ls, ss) && k < |ls|
    ensures Conserved(ls[k]) && InTransit(ls[k])
  {
    if k == 0 {
      assert Waiting(ls[0]) == [];
    } else {
      RunConserves(ls, ss, k - 1);
      StepConserves(ls[k - 1], ss[k - 1]);
    }
  }

  /** Over every run, what the router has passed on is a prefix of what arrived, byte for byte and in
      order; and once nothing is held and nothing is being received, every context is free again and
      everything that arrived has been passed on. */
  lemma DrainedIsFree(ls: seq<Lane>, ss: seq<Step>, k: nat)
    requires Run(ls, ss) && k < |ls|
    ensures ls[k].forwarded <= ls[k].arrived
    ensures (ls[k].fifo == [] && ls[k].hold.Nothing? && ls[k].taken.None?
             && forall i :: 0 <= i < |ls[k].slots| ==> !ls[k].slots[i].state.Receiving?) ==>
              && (forall i :: 0 <= i < |ls[k].slots| ==> ls[k].slots[i].state.Free?)
              && ls[k].forwarded == ls[k].arrived
  {
    RunConserves(ls, ss, k);
    var l := ls[k];
    assert forall i :: 0 <= i < |l.slots| ==> SlotOk(l.slots[i]);
    if l.fifo == [] && l.taken.None? {
      assert Waiting(l) == [];
    }
  }

  /** The transport may hold its reference while the router finishes first, or the other way round:
      the last of the two frees the context. */
  lemma LastHolderFrees(l: Lane, i: nat, s: Step)
    requires Conserved(l) && InTransit(l) && Enabled(l, s) && i < |l.slots|
    requires (s == Release && l.hold.i == i) || (s == Finish && l.taken == Some(i))
    ensures Next(l, s).slots[i].state.Free? <==> Holders(l, i) == 1
  {
    HeldIsReferenced(l, i);
  }
}
