/** transport_buffer.c in its own form: an array of context structures scanned by index, each
    holding a handle into a fixed pool of reference-counted net_bufs. */
module TransportBuffer {
  import opened Bytes
  import opened Reassembly

  /** Zephyr's fixed net_buf pool. A buffer with no reference is on the free list. */
  class NetBufPool {
    var bufs: seq<NetBuf>
    /** Whether bytes were ever added to a buffer without room for them. What that does to memory is not
        modelled: the buffer just holds more than its size. */
    var overrun: bool

    constructor (count: nat)
      ensures |bufs| == count && !overrun
      ensures forall h :: 0 <= h < count ==> bufs[h].refs == 0
    {
      bufs, overrun := seq(count, _ => NetBuf([], 0)), false;
    }

    /** net_buf_alloc with K_NO_WAIT: an empty buffer with one reference, or nothing. */
    method Alloc() returns (r: Option<nat>)
      modifies this`bufs
      ensures r.None? ==> bufs == old(bufs) && forall h :: 0 <= h < |bufs| ==> bufs[h].refs > 0
      ensures r.Some? ==>
                && r.value < |old(bufs)| && old(bufs)[r.value].refs == 0
                && bufs == old(bufs)[r.value := NetBuf([], 1)]
    {
      var h := 0;
      while h < |bufs|
        invariant h <= |bufs| && bufs == old(bufs)
        invariant forall k :: 0 <= k < h ==> bufs[k].refs > 0
      {
        if bufs[h].refs == 0 {
          bufs := bufs[h := NetBuf([], 1)];
          return Some(h);
        }
        h := h + 1;
      }
      r := None;
    }

    /** net_buf_destroy: back to the free list whatever the count. */
    method Destroy(h: nat)
      requires h < |bufs|
      modifies this`bufs
      ensures bufs == old(bufs)[h := old(bufs)[h].(refs := 0)]
    {
      bufs := bufs[h := bufs[h].(refs := 0)];
    }

    method AddRef(h: nat)
      requires h < |bufs|
      modifies this`bufs
      ensures bufs == old(bufs)[h := old(bufs)[h].(refs := old(bufs)[h].refs + 1)]
    {
      bufs := bufs[h := bufs[h].(refs := bufs[h].refs + 1)];
    }

    /** net_buf_unref: the last reference returns the buffer to the free list. */
    method Release(h: nat)
      requires h < |bufs| && bufs[h].refs >= 1
      modifies this`bufs
      ensures bufs == old(bufs)[h := old(bufs)[h].(refs := old(bufs)[h].refs - 1)]
    {
      bufs := bufs[h := bufs[h].(refs := bufs[h].refs - 1)];
    }

    /** net_buf_add_mem, which leaves it to the caller to see to the room. */
    method AddMem(h: nat, data: bytes)
      requires h < |bufs|
      modifies this
      ensures bufs == old(bufs)[h := old(bufs)[h].(data := old(bufs)[h].data + data)]
      ensures overrun == (old(overrun) || |bufs[h].data| > BUFFER_SIZE)
    {
      overrun := overrun || |bufs[h].data| + |data| > BUFFER_SIZE;
      bufs := bufs[h := bufs[h].(data := bufs[h].data + data)];
    }
  }

  /** One context structure; buffer is the handle of its net_buf, None for NULL. */
  datatype Context = Context(
    state: State, seqId: u16, total: u16, fragTotal: u8, fragIdx: u8,
    lastRx: u32, srcId: u32, buffer: Option<nat>)

  ghost predicate HandlesInRange(cs: seq<Context>, bufs: seq<NetBuf>) {
    forall i :: 0 <= i < |cs| && cs[i].buffer.Some? ==> cs[i].buffer.value < |bufs|
  }

  ghost function SlotOf(c: Context, bufs: seq<NetBuf>): Slot
    requires c.buffer.Some? ==> c.buffer.value < |bufs|
  {
    Slot(c.state, c.seqId, c.total, c.fragTotal, c.fragIdx, c.lastRx, c.srcId,
         if c.buffer.Some? then Some(bufs[c.buffer.value]) else None)
  }

  /** The contexts together with the net_bufs they point at. */
  ghost function ViewOf(cs: seq<Context>, bufs: seq<NetBuf>): (v: seq<Slot>)
    requires HandlesInRange(cs, bufs)
    ensures |v| == |cs|
  {
    seq(|cs|, i requires 0 <= i < |cs| => SlotOf(cs[i], bufs))
  }

  /** Every handle is in range and allocated, no two contexts share one, and every allocated
      net_buf belongs to a context. */
  ghost predicate Owned(cs: seq<Context>, bufs: seq<NetBuf>) {
    && HandlesInRange(cs, bufs)
    && (forall i :: 0 <= i < |cs| && cs[i].buffer.Some? ==> bufs[cs[i].buffer.value].refs > 0)
    && (forall i, j :: 0 <= i < j < |cs| && cs[i].buffer.Some? ==> cs[i].buffer != cs[j].buffer)
    && (forall h :: 0 <= h < |bufs| && bufs[h].refs > 0 ==> HasOwner(cs, h))
  }

  ghost predicate HasOwner(cs: seq<Context>, h: nat) {
    exists i :: 0 <= i < |cs| && cs[i].buffer == Some(h)
  }

  /** Indices of the contexts that hold one of the first k net_bufs. */
  ghost function HoldersBelow(cs: seq<Context>, k: nat): set<nat> {
    set i | 0 <= i < |cs| && cs[i].buffer.Some? && cs[i].buffer.value < k
  }

  lemma {:induction false} HoldersAtLeast(cs: seq<Context>, k: nat)
    requires forall h :: 0 <= h < k ==> HasOwner(cs, h)
    ensures |HoldersBelow(cs, k)| >= k
  {
    if k > 0 {
      HoldersAtLeast(cs, k - 1);
      assert HasOwner(cs, k - 1);
      var i :| 0 <= i < |cs| && cs[i].buffer == Some(k - 1);
      assert HoldersBelow(cs, k - 1) + {i} <= HoldersBelow(cs, k);
      SetSizes(HoldersBelow(cs, k - 1) + {i}, HoldersBelow(cs, k));
    }
  }

  lemma {:induction false} SetSizes(a: set<nat>, b: set<nat>)
    requires a <= b
    ensures |a| <= |b|
  {
    assert b == a + (b - a);
  }

  ghost function Range(n: nat): (r: set<nat>)
    ensures |r| == n && forall k: nat :: k in r <==> k < n
  {
    if n == 0 then {} else Range(n - 1) + {n - 1}
  }

  /** With as many net_bufs as contexts, a context without a buffer leaves a net_buf unallocated:
      the allocation failure branch behind a free context cannot be taken. */
  lemma FreeContextHasFreeBuffer(cs: seq<Context>, bufs: seq<NetBuf>, i: nat)
    requires Owned(cs, bufs) && |cs| == |bufs|
    requires i < |cs| && cs[i].buffer.None?
    ensures exists h :: 0 <= h < |bufs| && bufs[h].refs == 0
  {
    if forall h :: 0 <= h < |bufs| ==> bufs[h].refs > 0 {
      HoldersAtLeast(cs, |bufs|);
      SetSizes(HoldersBelow(cs, |bufs|), Range(|cs|) - {i});
      assert false;
    }
  }

  /** Replacing one context together with its net_buf: the buffer is kept, newly claimed or given
      back. Ownership survives and no other context's view changes. */
  lemma ReplaceContext(cs: seq<Context>, bufs: seq<NetBuf>, i: nat, c: Context, h: nat, b: NetBuf)
    requires Owned(cs, bufs) && i < |cs| && h < |bufs|
    requires cs[i].buffer == Some(h) || (cs[i].buffer.None? && bufs[h].refs == 0)
    requires if c.buffer.None? then b.refs == 0 else c.buffer == Some(h) && b.refs > 0
    ensures Owned(cs[i := c], bufs[h := b])
    ensures ViewOf(cs[i := c], bufs[h := b]) == ViewOf(cs, bufs)[i := SlotOf(c, bufs[h := b])]
  {
    var cs', bufs' := cs[i := c], bufs[h := b];
    forall k | 0 <= k < |bufs'| && bufs'[k].refs > 0
      ensures HasOwner(cs', k)
    {
      if k == h {
        assert cs'[i].buffer == Some(h);
      } else {
        assert HasOwner(cs, k);
        var j :| 0 <= j < |cs| && cs[j].buffer == Some(k);
        assert cs'[j].buffer == Some(k);
      }
    }
    forall j | 0 <= j < |cs| && j != i && cs[j].buffer.Some?
      ensures cs[j].buffer.value != h
    {
    }
    assert ViewOf(cs', bufs') == ViewOf(cs, bufs)[i := SlotOf(c, bufs')];
  }

  class TransportBufferPool {
    const contexts: array<Context>
    const bufferPool: NetBufPool
    /** Whether the additional query callback (the source id comparison) is registered. */
    const bySource: bool

    /** transport_buffer_pool_init with one net_buf for each context. */
    constructor (numBuffers: nat, bySource: bool)
      requires numBuffers > 0
      ensures Valid() && fresh(contexts) && fresh(bufferPool)
      ensures contexts.Length == numBuffers && this.bySource == bySource
      ensures !bufferPool.overrun && forall i :: 0 <= i < numBuffers ==> View()[i].state.Free?
    {
      contexts := new Context[numBuffers](_ => Context(Free, 0, 0, 0, 0, 0, 0, None));
      bufferPool := new NetBufPool(numBuffers);
      this.bySource := bySource;
    }

    ghost predicate Valid()
      reads this, contexts, bufferPool
    {
      && |bufferPool.bufs| == contexts.Length
      && Owned(contexts[..], bufferPool.bufs)
      && PoolOk(View())
      && (!bufferPool.overrun ==> Within(View()))
    }

    ghost function View(): (v: seq<Slot>)
      requires HandlesInRange(contexts[..], bufferPool.bufs)
      reads this, contexts, bufferPool
      ensures |v| == contexts.Length
    {
      ViewOf(contexts[..], bufferPool.bufs)
    }

    /** First scan of transport_buffer_pool_get: reclaim the contexts silent for the timeout. */
    method ReclaimExpired(now: u32)
      requires Valid()
      modifies contexts, bufferPool`bufs
      ensures Valid() && View() == Expire(old(View()), now)
    {
      var i := 0;
      ghost var slots := View();
      assert ExpireUpTo(slots, now, 0) == slots;
      while i < contexts.Length
        invariant i <= contexts.Length && Valid()
        invariant View() == ExpireUpTo(slots, now, i)
      {
        ReclaimAt(i, now);
        assert ExpireUpTo(slots, now, i)[i := Reclaim(slots[i], now)] == ExpireUpTo(slots, now, i + 1);
        i := i + 1;
      }
    }

    method ReclaimAt(i: nat, now: u32)
      requires Valid() && i < contexts.Length
      modifies contexts, bufferPool`bufs
      ensures Valid() && View() == old(View())[i := Reclaim(old(View())[i], now)]
    {
      var c := contexts[i];
      assert SlotOk(View()[i]);
      if c.state.Receiving? && Elapsed(now, c.lastRx) >= RX_TIMEOUT_MS {
        ReplaceContext(contexts[..], bufferPool.bufs, i, c.(buffer := None, state := Free),
                       c.buffer.value, bufferPool.bufs[c.buffer.value].(refs := 0));
        bufferPool.Destroy(c.buffer.value);
        contexts[i] := c.(buffer := None, state := Free);
      } else {
        assert View()[i := View()[i]] == View();
      }
    }

    /** Second scan: is the message of this frame already being received? */
    method Find(f: Frame, src: Option<u32>) returns (r: Option<nat>)
      requires Valid() && src.Some? == bySource
      ensures r == FirstMatch(View(), src, f, 0)
    {
      var i := 0;
      while i < contexts.Length
        invariant i <= contexts.Length
        invariant FirstMatch(View(), src, f, 0) == FirstMatch(View(), src, f, i)
      {
        var c := contexts[i];
        if && c.state.Receiving?
           && f.seqId == c.seqId && f.fragTotal == c.fragTotal && f.total == c.total
           && (!bySource || src.value == c.srcId)
        {
          return Some(i);
        }
        i := i + 1;
      }
      r := None;
    }

    /** Turns the free context i into one receiving the message of f. The source's failure branch
        behind net_buf_alloc is dead. */
    method Claim(i: nat, now: u32, f: Frame)
      requires Valid() && i < contexts.Length && contexts[i].state.Free?
      modifies contexts, bufferPool`bufs
      ensures Valid() && View() == old(View())[i := Opened(old(View())[i], now, f)]
    {
      assert SlotOk(View()[i]);
      FreeContextHasFreeBuffer(contexts[..], bufferPool.bufs, i);
      ghost var cs, bufs := contexts[..], bufferPool.bufs;
      var h := bufferPool.Alloc();
      if h.None? {
        assert false;
      } else {
        var c := contexts[i].(buffer := h, total := f.total, seqId := f.seqId, fragIdx := 0,
          fragTotal := f.fragTotal, lastRx := now, state := Receiving);
        ReplaceContext(cs, bufs, i, c, h.value, NetBuf([], 1));
        contexts[i] := c;
      }
    }

    /** transport_buffer_pool_get. The clock is read once for the whole call; f carries the header
        fields of the frame. */
    method Get(now: u32, f: Frame, src: Option<u32>) returns (r: Option<nat>)
      requires Valid() && (bySource ==> src.Some?)
      modifies contexts, bufferPool`bufs
      ensures Valid()
      ensures src.Some? && !bySource ==> r.None? && View() == old(View())
      ensures src.Some? == bySource ==> (View(), r) == Reassembly.Get(old(View()), now, src, f)
    {
      if src.Some? && !bySource {
        return None;
      }
      ReclaimExpired(now);
      r := Find(f, src);
      if r.Some? || f.fragIdx != 0 {
        return;
      }
      ghost var e := View();
      var i := 0;
      while i < contexts.Length
        invariant i <= contexts.Length
        invariant FirstFree(e, 0) == FirstFree(e, i)
      {
        if contexts[i].state.Free? {
          Claim(i, now, f);
          return Some(i);
        }
        i := i + 1;
      }
    }

    /** The augmented context of the DECT transport records its source after the lookup. */
    method SetSource(i: nat, src: u32)
      requires Valid() && i < contexts.Length
      modifies contexts
      ensures Valid() && View() == old(View())[i := old(View())[i].(srcId := src)]
    {
      ghost var cs := contexts[..];
      assert SlotOk(View()[i]);
      contexts[i] := contexts[i].(srcId := src);
      KeepBuffers(cs, bufferPool.bufs, i, contexts[i]);
    }

    /** transport_buffer_write. It overruns the net_buf exactly when what it accepts has no room there. */
    method Write(i: nat, now: u32, fragIdx: u8, data: bytes) returns (ret: WriteRet)
      requires Valid() && i < contexts.Length && View()[i].state.Receiving?
      modifies contexts, bufferPool
      ensures Valid()
      ensures var w := Reassembly.Write(old(View())[i], now, fragIdx, data);
              && View() == old(View())[i := w.0] && ret == w.1
              && bufferPool.overrun == (old(bufferPool.overrun) || |w.0.buf.value.data| > BUFFER_SIZE)
    {
      assert SlotOk(View()[i]);
      assert !bufferPool.overrun ==> |View()[i].buf.value.data| <= BUFFER_SIZE;
      var c := contexts[i];
      if |data| == 0 {
        return InvalidArgs;
      }
      if fragIdx > c.fragIdx {
        return OutOfOrder;
      }
      if fragIdx < c.fragIdx {
        return Duplicate;
      }
      var h := c.buffer.value;
      if |bufferPool.bufs[h].data| + |data| > c.total {
        return Overrun;
      }
      ghost var bufs := bufferPool.bufs;
      bufferPool.AddMem(h, data);
      c := c.(lastRx := now);
      c := c.(fragIdx := (c.fragIdx + 1) % 0x100);
      ret := Success;
      if c.fragIdx == c.fragTotal {
        if |bufferPool.bufs[h].data| != c.total {
          ret := InvalidFinalSize;
        } else {
          c := c.(state := Referenced);
          ret := Complete;
        }
      }
      ghost var cs := contexts[..];
      ReplaceContext(cs, bufs, i, c, h, bufferPool.bufs[h]);
      contexts[i] := c;
      assert contexts[..] == cs[i := c];
    }

    /** transport_buffer_ref. On a partial message, which no caller has a reference to, it would break the
        rule that only the transport owns it. */
    method Ref(i: nat)
      requires Valid() && i < contexts.Length
      modifies bufferPool`bufs
      ensures Owned(contexts[..], bufferPool.bufs) && View() == Reassembly.Ref(old(View()), i)
      ensures Valid() <==> !old(View())[i].state.Receiving?
    {
      assert SlotOk(View()[i]);
      if contexts[i].buffer.Some? {
        ghost var cs, bufs := contexts[..], bufferPool.bufs;
        var h := contexts[i].buffer.value;
        bufferPool.AddRef(h);
        ReplaceContext(cs, bufs, i, cs[i], h, bufferPool.bufs[h]);
        assert contexts[..] == cs[i := cs[i]];
        assert View() == Reassembly.Ref(old(View()), i);
        assert contexts[i].state.Receiving? ==> !SlotOk(View()[i]);
      }
    }

    /** transport_buffer_unref, as one atomic step. */
    method Unref(i: nat)
      requires Valid() && i < contexts.Length
      modifies contexts, bufferPool`bufs
      ensures Valid() && View() == Reassembly.Unref(old(View()), i)
    {
      if contexts[i].buffer.Some? {
        ghost var cs, bufs := contexts[..], bufferPool.bufs;
        var c := contexts[i];
        var h := c.buffer.value;
        var lastReference := bufferPool.bufs[h].refs == 1;
        bufferPool.Release(h);
        if lastReference {
          c := c.(state := Free, buffer := None);
        }
        contexts[i] := c;
        ReplaceContext(cs, bufs, i, c, h, bufferPool.bufs[h]);
        assert contexts[..] == cs[i := c];
        assert View() == Reassembly.Unref(old(View()), i);
      }
    }

    /** One data frame handed to the pool: lookup, source tag, write. */
    method Receive(now: u32, src: Option<u32>, f: Frame) returns (ack: bool, done: Option<nat>)
      requires Valid() && src.Some? == bySource
      modifies contexts, bufferPool
      ensures Valid()
      ensures Outcome(View(), ack, done) == Reassembly.Receive(old(View()), now, src, f)
      ensures bufferPool.overrun == (old(bufferPool.overrun) || !Within(View()))
    {
      hide Reassembly.Get;
      hide Reassembly.Write;
      hide ViewOf;
      hide HandlesInRange;
      hide PoolOk;
      hide Within;
      var i := Get(now, f, src);
      if i.None? {
        return false, None;
      }
      if src.Some? {
        SetSource(i.value, src.value);
      }
      ghost var before := View();
      var ret := Write(i.value, now, f.fragIdx, f.payload);
      WithinUpdate(before, i.value, View()[i.value]);
      ack := Acked(ret);
      done := if ret.Complete? then i else None;
    }
  }

  lemma WithinUpdate(slots: seq<Slot>, i: nat, s: Slot)
    requires i < |slots| && s.buf.Some?
    ensures Within(slots) ==> (Within(slots[i := s]) <==> |s.buf.value.data| <= BUFFER_SIZE)
    ensures !Within(slots[i := s]) <== |s.buf.value.data| > BUFFER_SIZE
  {
    assert slots[i := s][i] == s;
  }

  /** Changing fields of a context other than its handle. */
  lemma KeepBuffers(cs: seq<Context>, bufs: seq<NetBuf>, i: nat, c: Context)
    requires Owned(cs, bufs) && i < |cs| && c.buffer == cs[i].buffer
    ensures Owned(cs[i := c], bufs)
    ensures ViewOf(cs[i := c], bufs) == ViewOf(cs, bufs)[i := SlotOf(c, bufs)]
  {
    forall h | 0 <= h < |bufs| && bufs[h].refs > 0
      ensures HasOwner(cs[i := c], h)
    {
      assert HasOwner(cs, h);
      var j :| 0 <= j < |cs| && cs[j].buffer == Some(h);
      assert cs[i := c][j].buffer == Some(h);
    }
    assert ViewOf(cs[i := c], bufs) == ViewOf(cs, bufs)[i := SlotOf(c, bufs)];
  }
}
