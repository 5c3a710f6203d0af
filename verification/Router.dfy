/** alfie_router.c: the rx callback that queues completed messages per direction, and the thread that
    forwards them to every transport of the other side and to one local endpoint. */
module AlfieRouter {
  import opened Bytes
  import opened Reassembly
  import opened Routing
  import opened TransportBuffer

  /** One call of a transport's write function. */
  datatype WriteCall = WriteCall(dst: u32, data: bytes)

  /** Index of the first registered endpoint with this id. */
  function FirstEndpoint(endpoints: seq<u8>, id: u8, from: nat): (r: Option<nat>)
    requires from <= |endpoints|
    ensures r.Some? ==> from <= r.value < |endpoints| && endpoints[r.value] == id
                        && forall k :: from <= k < r.value ==> endpoints[k] != id
    ensures r.None? ==> forall k :: from <= k < |endpoints| ==> endpoints[k] != id
    decreases |endpoints| - from
  {
    if from == |endpoints| then None
    else if endpoints[from] == id then Some(from)
    else FirstEndpoint(endpoints, id, from + 1)
  }

  /** The notification a message causes: at most one, to the first endpoint with its id. */
  function NoticeFor(endpoints: seq<u8>, data: bytes): seq<(nat, bytes)>
    requires |data| >= HEADER_SIZE
  {
    var e := FirstEndpoint(endpoints, EndpointId(data), 0);
    if e.Some? then [(e.value, data)] else []
  }

  /** Messages in a FIFO are complete, at least a header long, and referenced as often as queued. */
  ghost predicate Queued(fifo: seq<nat>, slots: seq<Slot>) {
    forall i :: i in fifo ==>
      && i < |slots| && slots[i].state.Referenced? && slots[i].buf.Some?
      && HEADER_SIZE <= slots[i].total == |slots[i].buf.value.data|
      && multiset(fifo)[i] <= slots[i].buf.value.refs
  }

  /** The write calls that forwarding a FIFO makes, oldest first. */
  ghost function Calls(fifo: seq<nat>, slots: seq<Slot>): (r: seq<WriteCall>)
    requires Queued(fifo, slots)
    ensures |r| == |fifo| && forall k :: 0 <= k < |r| ==> |r[k].data| >= HEADER_SIZE
  {
    seq(|fifo|, k requires 0 <= k < |fifo| => (assert fifo[k] in fifo; CallFor(slots[fifo[k]])))
  }

  ghost function CallFor(s: Slot): WriteCall
    requires s.buf.Some? && |s.buf.value.data| >= HEADER_SIZE
  {
    WriteCall(DstId(s.buf.value.data), s.buf.value.data)
  }

  ghost function NoticeOf(endpoints: seq<u8>, calls: seq<WriteCall>): seq<(nat, bytes)>
    requires forall k :: 0 <= k < |calls| ==> |calls[k].data| >= HEADER_SIZE
  {
    if |calls| > 0 then NoticeFor(endpoints, calls[0].data) else []
  }

  ghost function Rest<T>(s: seq<T>): seq<T> {
    if |s| > 0 then s[1..] else []
  }

  /** The notifications of a drain: each wake-up serves the head of the upstream FIFO, then the head of
      the downstream one. */
  ghost function Notices(endpoints: seq<u8>, a: seq<WriteCall>, b: seq<WriteCall>): seq<(nat, bytes)>
    requires forall k :: 0 <= k < |a| ==> |a[k].data| >= HEADER_SIZE
    requires forall k :: 0 <= k < |b| ==> |b[k].data| >= HEADER_SIZE
    decreases |a| + |b|
  {
    if |a| == 0 && |b| == 0 then []
    else NoticeOf(endpoints, a) + NoticeOf(endpoints, b) + Notices(endpoints, Rest(a), Rest(b))
  }

  /** Dropping the router's reference to the head of the FIFO leaves the rest queued as it was. */
  lemma UnrefHead(fifo: seq<nat>, slots: seq<Slot>)
    requires fifo != [] && Queued(fifo, slots)
    ensures var i := fifo[0];
            && i < |slots| && slots[i].buf.Some? && slots[i].buf.value.refs >= 1
            && HEADER_SIZE <= slots[i].total == |slots[i].buf.value.data|
            && Queued(fifo[1..], Unref(slots, i))
            && Calls(fifo, slots) == [CallFor(slots[i])] + Calls(fifo[1..], Unref(slots, i))
  {
    hide Calls;
    hide Unref;
    var i := fifo[0];
    assert i in fifo && multiset(fifo)[i] >= 1;
    UnrefQueued(fifo, slots);
    SameCalls(fifo, slots, Unref(slots, i));
  }

  lemma UnrefQueued(fifo: seq<nat>, slots: seq<Slot>)
    requires fifo != [] && Queued(fifo, slots)
    requires fifo[0] < |slots| && slots[fifo[0]].buf.Some? && slots[fifo[0]].buf.value.refs >= 1
    ensures var slots' := Unref(slots, fifo[0]);
            && Queued(fifo[1..], slots')
            && forall j :: j in fifo[1..] ==> slots'[j].buf.value.data == slots[j].buf.value.data
  {
    var i, rest := fifo[0], fifo[1..];
    assert fifo == [i] + rest && multiset(fifo) == multiset{i} + multiset(rest);
    var slots' := Unref(slots, i);
    forall j | j in rest
      ensures j < |slots'| && slots'[j].state.Referenced? && slots'[j].buf.Some?
      ensures slots'[j].total == slots[j].total && slots'[j].buf.value.data == slots[j].buf.value.data
      ensures multiset(rest)[j] <= slots'[j].buf.value.refs
    {
      assert j in fifo && multiset(rest)[j] >= 1;
    }
  }

  lemma SameCalls(fifo: seq<nat>, slots: seq<Slot>, slots': seq<Slot>)
    requires fifo != [] && Queued(fifo, slots) && Queued(fifo[1..], slots')
    requires forall j :: j in fifo && j in fifo[1..] ==> slots'[j].buf.value.data == slots[j].buf.value.data
    ensures fifo[0] in fifo && Calls(fifo, slots) == [CallFor(slots[fifo[0]])] + Calls(fifo[1..], slots')
  {
    var rest := fifo[1..];
    assert fifo[0] in fifo;
    var a, b := Calls(fifo, slots), [CallFor(slots[fifo[0]])] + Calls(rest, slots');
    forall k | 0 <= k < |fifo|
      ensures a[k] == b[k]
    {
      assert fifo[k] in fifo;
      if k > 0 {
        assert fifo[k] == rest[k - 1] && rest[k - 1] in rest;
      }
    }
  }

  lemma QueueAppend(fifo: seq<nat>, slots: seq<Slot>, i: nat)
    requires Queued(fifo, slots) && i < |slots| && slots[i].state.Referenced? && slots[i].buf.Some?
    requires HEADER_SIZE <= slots[i].total == |slots[i].buf.value.data|
    requires multiset(fifo)[i] < slots[i].buf.value.refs + 1
    ensures Queued(fifo + [i], Ref(slots, i))
    ensures Calls(fifo + [i], Ref(slots, i)) == Calls(fifo, slots) + [CallFor(slots[i])]
  {
    var slots', fifo' := Ref(slots, i), fifo + [i];
    assert multiset(fifo') == multiset(fifo) + multiset{i};
    forall j | j in fifo'
      ensures j < |slots'| && slots'[j].state.Referenced? && slots'[j].buf.Some?
      ensures slots'[j].total == slots[j].total && slots'[j].buf.value.data == slots[j].buf.value.data
      ensures multiset(fifo')[j] <= slots'[j].buf.value.refs
    {
      assert j in fifo || j == i;
    }
    var a, b := Calls(fifo', slots'), Calls(fifo, slots) + [CallFor(slots[i])];
    forall k | 0 <= k < |fifo'|
      ensures a[k] == b[k]
    {
      assert fifo'[k] in fifo' && (k < |fifo| ==> fifo[k] in fifo);
    }
    assert a == b;
  }

  lemma Join(a: seq<WriteCall>, x: WriteCall, b: seq<WriteCall>)
    ensures a + ([x] + b) == (a + [x]) + b
  {
  }

  class Router {
    /** Receive pools of the upstream (BLE) and downstream (DECT) transports. */
    const up: TransportBufferPool
    const down: TransportBufferPool

    /** Registered transports and endpoint ids, in registration order. */
    var transports: seq<Side>
    var endpoints: seq<u8>

    var fromUpstream: seq<nat>
    var fromDownstream: seq<nat>

    /** Write calls made on each transport, and endpoints notified with which message. */
    var sent: seq<seq<WriteCall>>
    var notified: seq<(nat, bytes)>

    ghost predicate Valid()
      reads this, up, up.contexts, up.bufferPool, down, down.contexts, down.bufferPool
    {
      && up != down && up.contexts != down.contexts && up.bufferPool != down.bufferPool
      && up.Valid() && down.Valid()
      && |sent| == |transports|
      && Queued(fromUpstream, up.View()) && Queued(fromDownstream, down.View())
    }

    constructor (up: TransportBufferPool, down: TransportBufferPool)
      requires up != down && up.contexts != down.contexts && up.bufferPool != down.bufferPool
      requires up.Valid() && down.Valid()
      ensures Valid() && this.up == up && this.down == down
      ensures transports == [] && endpoints == [] && fromUpstream == [] && fromDownstream == []
    {
      this.up, this.down := up, down;
      transports, endpoints, fromUpstream, fromDownstream, sent, notified := [], [], [], [], [], [];
    }

    method RegisterTransport(side: Side)
      requires Valid()
      modifies this`transports, this`sent
      ensures Valid() && transports == old(transports) + [side] && sent == old(sent) + [[]]
    {
      transports, sent := transports + [side], sent + [[]];
    }

    method RegisterEndpoint(id: u8)
      requires Valid()
      modifies this`endpoints
      ensures Valid() && endpoints == old(endpoints) + [id]
    {
      endpoints := endpoints + [id];
    }

    /** prv_handle_transport_rx for the upstream transport. The buffer is refused when it cannot hold a
        message header; otherwise the router takes its own reference. */
    method HandleUpstreamRx(i: nat)
      requires Valid() && i < up.contexts.Length
      requires var s := up.View()[i];
               s.state.Referenced? && s.total == |s.buf.value.data| && multiset(fromUpstream)[i] < s.buf.value.refs
      modifies this`fromUpstream, up.bufferPool`bufs
      ensures Valid()
      ensures if old(up.View())[i].total < HEADER_SIZE
              then fromUpstream == old(fromUpstream) && up.View() == old(up.View())
              else && fromUpstream == old(fromUpstream) + [i] && up.View() == Ref(old(up.View()), i)
                   && Calls(fromUpstream, up.View())
                      == old(Calls(fromUpstream, up.View())) + [CallFor(old(up.View())[i])]
    {
      if up.contexts[i].total < HEADER_SIZE {
        return;
      }
      QueueAppend(fromUpstream, up.View(), i);
      up.Ref(i);
      fromUpstream := fromUpstream + [i];
    }

    /** prv_handle_transport_rx for the downstream transport. */
    method HandleDownstreamRx(i: nat)
      requires Valid() && i < down.contexts.Length
      requires var s := down.View()[i];
               s.state.Referenced? && s.total == |s.buf.value.data| && multiset(fromDownstream)[i] < s.buf.value.refs
      modifies this`fromDownstream, down.bufferPool`bufs
      ensures Valid()
      ensures if old(down.View())[i].total < HEADER_SIZE
              then fromDownstream == old(fromDownstream) && down.View() == old(down.View())
              else && fromDownstream == old(fromDownstream) + [i] && down.View() == Ref(old(down.View()), i)
                   && Calls(fromDownstream, down.View())
                      == old(Calls(fromDownstream, down.View())) + [CallFor(old(down.View())[i])]
    {
      if down.contexts[i].total < HEADER_SIZE {
        return;
      }
      QueueAppend(fromDownstream, down.View(), i);
      down.Ref(i);
      fromDownstream := fromDownstream + [i];
    }

    /** prv_notify_endpoint: the first endpoint with the message's id, or none. */
    method NotifyEndpoint(data: bytes)
      requires |data| >= HEADER_SIZE
      modifies this`notified
      ensures notified == old(notified) + NoticeFor(endpoints, data)
      ensures if data[1] in endpoints
              then exists k :: 0 <= k < |endpoints| && endpoints[k] == data[1] && data[1] !in endpoints[..k]
                               && notified == old(notified) + [(k, data)]
              else notified == old(notified)
    {
      var k := 0;
      while k < |endpoints|
        invariant k <= |endpoints|
        invariant FirstEndpoint(endpoints, EndpointId(data), 0) == FirstEndpoint(endpoints, EndpointId(data), k)
        invariant data[1] !in endpoints[..k] && notified == old(notified)
      {
        if endpoints[k] == EndpointId(data) {
          notified := notified + [(k, data)];
          return;
        }
        k := k + 1;
      }
    }

    /** The list walk of prv_forward_to_downstream and prv_forward_to_upstream: one write on every
        transport of the target side, none on the others. */
    method WriteAll(target: Side, data: bytes)
      requires |sent| == |transports| && |data| >= HEADER_SIZE
      modifies this`sent
      ensures |sent| == |transports|
      ensures forall k :: 0 <= k < |transports| ==>
                sent[k] == old(sent[k]) + if transports[k] == target then [WriteCall(DstId(data), data)] else []
    {
      var k := 0;
      while k < |transports|
        invariant k <= |transports| == |sent|
        invariant forall j :: 0 <= j < k ==>
                    sent[j] == old(sent[j]) + if transports[j] == target then [WriteCall(DstId(data), data)] else []
        invariant forall j :: k <= j < |transports| ==> sent[j] == old(sent[j])
      {
        if transports[k] == target {
          sent := sent[k := sent[k] + [WriteCall(DstId(data), data)]];
        }
        k := k + 1;
      }
    }

    /** Write calls still due on transport k for what is queued. */
    ghost function Due(k: nat): seq<WriteCall>
      requires Valid() && k < |transports|
      reads this, up, up.contexts, up.bufferPool, down, down.contexts, down.bufferPool
    {
      if transports[k].Downstream? then Calls(fromUpstream, up.View()) else Calls(fromDownstream, down.View())
    }

    /** The step of the thread loop for the upstream FIFO: k_fifo_get and prv_forward_to_downstream. */
    method ForwardToDownstream()
      requires Valid() && fromUpstream != []
      modifies this`fromUpstream, this`sent, this`notified, up.contexts, up.bufferPool`bufs
      ensures Valid() && fromUpstream == old(fromUpstream)[1..]
      ensures old(fromUpstream)[0] < |old(up.View())| && up.View() == Unref(old(up.View()), old(fromUpstream)[0])
      ensures Calls(fromUpstream, up.View()) == old(Calls(fromUpstream, up.View()))[1..]
      ensures forall k :: 0 <= k < |transports| ==> sent[k] + Due(k) == old(sent[k] + Due(k))
      ensures forall k :: 0 <= k < |transports| ==>
                sent[k] == old(sent[k])
                         + if transports[k].Downstream? then [old(CallFor(up.View()[fromUpstream[0]]))] else []
      ensures notified == old(notified) + NoticeFor(endpoints, old(CallFor(up.View()[fromUpstream[0]])).data)
    {
      hide Queued;
      hide Calls;
      hide Unref;
      hide PoolOk;
      UnrefHead(fromUpstream, up.View());
      var i := fromUpstream[0];
      fromUpstream := fromUpstream[1..];
      var data := up.bufferPool.bufs[up.contexts[i].buffer.value].data[..up.contexts[i].total];
      assert data == up.View()[i].buf.value.data;
      WriteAll(Downstream, data);
      NotifyEndpoint(data);
      up.Unref(i);
      forall k | 0 <= k < |transports|
        ensures sent[k] + Due(k) == old(sent[k] + Due(k))
      {
        if transports[k].Downstream? {
          Join(old(sent[k]), CallFor(old(up.View())[i]), Due(k));
        }
      }
    }

    /** The same for the downstream FIFO: k_fifo_get and prv_forward_to_upstream. */
    method ForwardToUpstream()
      requires Valid() && fromDownstream != []
      modifies this`fromDownstream, this`sent, this`notified, down.contexts, down.bufferPool`bufs
      ensures Valid() && fromDownstream == old(fromDownstream)[1..]
      ensures old(fromDownstream)[0] < |old(down.View())|
      ensures down.View() == Unref(old(down.View()), old(fromDownstream)[0])
      ensures Calls(fromDownstream, down.View()) == old(Calls(fromDownstream, down.View()))[1..]
      ensures forall k :: 0 <= k < |transports| ==> sent[k] + Due(k) == old(sent[k] + Due(k))
      ensures forall k :: 0 <= k < |transports| ==>
                sent[k] == old(sent[k])
                         + if transports[k].Upstream? then [old(CallFor(down.View()[fromDownstream[0]]))] else []
      ensures notified == old(notified) + NoticeFor(endpoints, old(CallFor(down.View()[fromDownstream[0]])).data)
    {
      hide Queued;
      hide Calls;
      hide Unref;
      hide PoolOk;
      UnrefHead(fromDownstream, down.View());
      var i := fromDownstream[0];
      fromDownstream := fromDownstream[1..];
      var data := down.bufferPool.bufs[down.contexts[i].buffer.value].data[..down.contexts[i].total];
      assert data == down.View()[i].buf.value.data;
      WriteAll(Upstream, data);
      NotifyEndpoint(data);
      down.Unref(i);
      forall k | 0 <= k < |transports|
        ensures sent[k] + Due(k) == old(sent[k] + Due(k))
      {
        if transports[k].Upstream? {
          Join(old(sent[k]), CallFor(old(down.View())[i]), Due(k));
        }
      }
    }

    /** Notifications still due for what is queued. */
    ghost function NoticesDue(): seq<(nat, bytes)>
      requires Valid()
      reads this, up, up.contexts, up.bufferPool, down, down.contexts, down.bufferPool
    {
      Notices(endpoints, Calls(fromUpstream, up.View()), Calls(fromDownstream, down.View()))
    }

    /** One wake-up of prv_thread: every nonempty FIFO advances by one, its head loses the router's
        reference, and the calls and notifications made and still due are together what they were. */
    method Wake()
      requires Valid() && (fromUpstream != [] || fromDownstream != [])
      modifies this`fromUpstream, this`fromDownstream, this`sent, this`notified
      modifies up.contexts, up.bufferPool`bufs, down.contexts, down.bufferPool`bufs
      ensures Valid()
      ensures fromUpstream == Rest(old(fromUpstream)) && fromDownstream == Rest(old(fromDownstream))
      ensures if old(fromUpstream) == [] then up.View() == old(up.View())
              else old(fromUpstream)[0] < |old(up.View())| && up.View() == Unref(old(up.View()), old(fromUpstream)[0])
      ensures if old(fromDownstream) == [] then down.View() == old(down.View())
              else && old(fromDownstream)[0] < |old(down.View())|
                   && down.View() == Unref(old(down.View()), old(fromDownstream)[0])
      ensures forall k :: 0 <= k < |transports| ==> sent[k] + Due(k) == old(sent[k] + Due(k))
      ensures notified + NoticesDue() == old(notified + NoticesDue())
    {
      hide Queued;
      hide Calls;
      hide Unref;
      hide NoticeFor;
      hide ViewOf;
      hide PoolOk;
      hide HandlesInRange;
      ghost var a, b := Calls(fromUpstream, up.View()), Calls(fromDownstream, down.View());
      ghost var before := notified;
      var upstreamReady, downstreamReady := fromUpstream != [], fromDownstream != [];
      if upstreamReady {
        HeadCall(fromUpstream, up.View());
        ForwardToDownstream();
      }
      if downstreamReady {
        HeadCall(fromDownstream, down.View());
        ForwardToUpstream();
      }
      assert Calls(fromUpstream, up.View()) == Rest(a);
      assert Calls(fromDownstream, down.View()) == Rest(b);
      assert notified == before + NoticeOf(endpoints, a) + NoticeOf(endpoints, b);
      JoinNotices(before, NoticeOf(endpoints, a), NoticeOf(endpoints, b), NoticesDue());
    }

    /** When arrivals stop the queues empty, and every message queued on one side has been written
        exactly once, in queue order, to every transport of the other side and to none of its own, and
        its endpoint notified. */
    method Drain()
      requires Valid()
      modifies this`fromUpstream, this`fromDownstream, this`sent, this`notified
      modifies up.contexts, up.bufferPool`bufs, down.contexts, down.bufferPool`bufs
      ensures Valid() && fromUpstream == [] && fromDownstream == []
      ensures forall k :: 0 <= k < |transports| ==> sent[k] == old(sent[k] + Due(k))
      ensures notified == old(notified + NoticesDue())
    {
      hide Queued;
      while fromUpstream != [] || fromDownstream != []
        invariant Valid()
        invariant forall k :: 0 <= k < |transports| ==> sent[k] + Due(k) == old(sent[k] + Due(k))
        invariant notified + NoticesDue() == old(notified + NoticesDue())
        decreases |fromUpstream| + |fromDownstream|
      {
        Wake();
      }
      assert NoticesDue() == [];
    }
  }

  lemma HeadCall(fifo: seq<nat>, slots: seq<Slot>)
    requires Queued(fifo, slots) && fifo != []
    ensures fifo[0] < |slots| && slots[fifo[0]].buf.Some? && |slots[fifo[0]].buf.value.data| >= HEADER_SIZE
    ensures Calls(fifo, slots)[0] == CallFor(slots[fifo[0]])
  {
    assert fifo[0] in fifo;
  }

  lemma JoinNotices<T>(a: seq<T>, b: seq<T>, c: seq<T>, d: seq<T>)
    ensures ((a + b) + c) + d == a + (b + c + d)
  {
  }
}
