/** Whether what the links can deliver stays inside the 512-byte net_bufs. */
module BufferBound {
  import opened Bytes
  import opened Reassembly
  import opened Fragmentation
  import opened StopAndWait

  /** The pool after frames and releases at given times. */
  function After(slots: seq<Slot>, xs: seq<(u32, Traffic)>): (r: seq<Slot>)
    requires PoolOk(slots)
    ensures PoolOk(r) && |r| == |slots|
  {
    if |xs| == 0 then slots
    else Disturb(After(slots, xs[..|xs| - 1]), xs[|xs| - 1].0, xs[|xs| - 1].1)
  }

  /** Frames as the link delivers them: at most p payload bytes, and here a total of at most limit. */
  ghost predicate FromLink(p: nat, bySource: bool, limit: nat, xs: seq<(u32, Traffic)>) {
    forall k :: 0 <= k < |xs| && xs[k].1.Foreign? ==>
      && xs[k].1.src.Some? == bySource
      && |xs[k].1.f.payload| <= p && xs[k].1.f.total <= limit
  }

  ghost predicate Bounded(slots: seq<Slot>, limit: nat) {
    forall i :: 0 <= i < |slots| && slots[i].buf.Some? ==> |slots[i].buf.value.data| <= slots[i].total <= limit
  }

  lemma {:induction false} StaysBounded(slots: seq<Slot>, xs: seq<(u32, Traffic)>, p: nat, bySource: bool, limit: nat)
    requires PoolOk(slots) && Bounded(slots, limit) && FromLink(p, bySource, limit, xs)
    ensures Bounded(After(slots, xs), limit)
  {
    if |xs| > 0 {
      var before, x := After(slots, xs[..|xs| - 1]), xs[|xs| - 1];
      StaysBounded(slots, xs[..|xs| - 1], p, bySource, limit);
      if x.1.Foreign? {
        FrameBounded(before, x.0, x.1.src, x.1.f, limit);
      }
    }
  }

  lemma LookupBounded(slots: seq<Slot>, now: u32, src: Option<u32>, f: Frame, limit: nat)
    requires PoolOk(slots) && Bounded(slots, limit) && f.total <= limit
    ensures Bounded(Get(slots, now, src, f).0, limit)
  {
    hide FirstMatch;
    hide FirstFree;
    hide Matches;
    var e := Expire(slots, now);
    assert forall i :: 0 <= i < |e| ==> e[i] == Reclaim(slots[i], now);
  }

  /** A frame that announces at most limit writes no context beyond it. */
  lemma FrameBounded(slots: seq<Slot>, now: u32, src: Option<u32>, f: Frame, limit: nat)
    requires PoolOk(slots) && Bounded(slots, limit) && f.total <= limit
    ensures Bounded(Receive(slots, now, src, f).slots, limit)
  {
    hide Get;
    LookupBounded(slots, now, src, f, limit);
    var g := Get(slots, now, src, f);
    if g.1.Some? {
      var s := Tag(g.0[g.1.value], src);
      assert SlotOk(g.0[g.1.value]);
      var t := Write(s, now, f.fragIdx, f.payload).0;
      assert |t.buf.value.data| <= t.total <= limit;
    }
  }

  /** The frames of one write, all at time 0. */
  function FramesOf(m: Message, n: nat): seq<(u32, Traffic)>
    requires m.Valid() && n <= m.Count()
  {
    seq(n, k requires 0 <= k < n => (0, Foreign(m.src, FrameOf(m, k))))
  }

  lemma {:induction false} Filling(m: Message, capacity: nat, n: nat)
    requires m.Valid() && capacity > 0 && 0 < n <= m.Count()
    ensures var slots := After(Empty(capacity), FramesOf(m, n));
            if n < m.Count() then exists j :: Holds(slots, m, j, n, 0)
            else exists j :: 0 <= j < |slots| && slots[j].buf.Some? && slots[j].buf.value.data == m.data
  {
    hide Receive;
    hide FrameOf;
    hide Idle;
    hide Holds;
    var xs := FramesOf(m, n);
    var before := After(Empty(capacity), FramesOf(m, n - 1));
    assert xs[..n - 1] == FramesOf(m, n - 1);
    var w := World(before, 0, []);
    if n == 1 {
      EmptyPool(m, capacity);
      ArriveFirst(w, m);
    } else {
      Filling(m, capacity, n - 1);
      var j :| Holds(before, m, j, n - 1, 0);
      ArriveNext(w, m, j, n - 1, 0);
    }
    var o := Receive(before, 0, m.src, FrameOf(m, n - 1));
    assert After(Empty(capacity), xs) == o.slots;
    if n == m.Count() {
      assert Arrive(w, m.src, FrameOf(m, n - 1)).0.got == [m.Whole()];
      assert o.done.Some? && [Given(o.slots, o.done.value, m.src.Some?)][0] == [m.Whole()][0];
    }
  }

  lemma EmptyPool(m: Message, capacity: nat)
    requires m.Valid() && capacity > 0
    ensures After(Empty(capacity), []) == Empty(capacity) && Idle(Empty(capacity), m)
    ensures Room(World(Empty(capacity), 0, []))
  {
    assert Expire(Empty(capacity), 0)[0].state.Free?;
  }

  /** The code compares a buffer's length with the announced total only. So exactly the limits up to 512 on
      what is announced keep every buffer of every pool within its size, over all frames a link with
      payloads of p bytes can deliver; above, the fragments of a 513-byte message overrun one. */
  lemma TotalGuardsBuffer(p: nat, bySource: bool, capacity: nat, limit: u16)
    requires p >= 3 && capacity > 0
    ensures (forall xs :: FromLink(p, bySource, limit, xs) ==> Within(After(Empty(capacity), xs)))
            <==> limit <= BUFFER_SIZE
  {
    if limit <= BUFFER_SIZE {
      forall xs | FromLink(p, bySource, limit, xs)
        ensures Within(After(Empty(capacity), xs))
      {
        StaysBounded(Empty(capacity), xs, p, bySource, limit);
        assert Bounded(After(Empty(capacity), xs), limit);
      }
    } else {
      var m := Message(if bySource then Some(1) else None, 7, p, seq(BUFFER_SIZE + 1, _ => 0));
      CountBounds(BUFFER_SIZE + 1, p);
      if FragCount(BUFFER_SIZE + 1, p) >= 0x100 {
        MulMonotone(p, 0xFF, FragCount(BUFFER_SIZE + 1, p) - 1);
      }
      var n := m.Count();
      var xs := FramesOf(m, n);
      forall k | 0 <= k < n
        ensures |FrameOf(m, k).payload| <= p
      {
        ChunkStep(m, k);
      }
      assert FromLink(p, bySource, limit, xs);
      Filling(m, capacity, n);
      assert !Within(After(Empty(capacity), xs));
    }
  }
}
