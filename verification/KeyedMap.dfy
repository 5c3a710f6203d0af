/** The context array with its linear scans implements a map of bounded capacity from message keys
    to partial messages. */
module KeyedMap {
  import opened Bytes
  import opened Reassembly

  /** src is None in a pool that does not compare source ids. */
  datatype Key = Key(src: Option<u32>, seqId: u16, fragTotal: u8, total: u16)

  datatype Partial = Partial(data: bytes, fragIdx: u8, lastRx: u32)

  /** The partial messages and how many completed ones still occupy a context. */
  datatype Table = Table(live: map<Key, Partial>, held: nat)

  datatype Result = Result(table: Table, ack: bool, done: Option<bytes>)

  function FrameKey(src: Option<u32>, f: Frame): Key {
    Key(src, f.seqId, f.fragTotal, f.total)
  }

  function KeyOf(s: Slot, bySource: bool): Key {
    Key(if bySource then Some(s.srcId) else None, s.seqId, s.fragTotal, s.total)
  }

  function PartialOf(s: Slot): Partial
    requires s.buf.Some?
  {
    Partial(s.buf.value.data, s.fragIdx, s.lastRx)
  }

  // ---- The map specification -----------------------------------------------------------------

  function Unexpired(live: map<Key, Partial>, now: u32): map<Key, Partial> {
    map k | k in live && Elapsed(now, live[k].lastRx) < RX_TIMEOUT_MS :: live[k]
  }

  /** The next fragment of a live message. */
  function Extend(t: Table, now: u32, key: Key, f: Frame): Result
    requires key in t.live
  {
    var p := t.live[key];
    if f.payload == [] || f.fragIdx > p.fragIdx then Result(t, false, None)
    else if f.fragIdx < p.fragIdx then Result(t, true, None)
    else if |p.data| + |f.payload| > key.total then Result(t, false, None)
    else
      var next := (p.fragIdx + 1) % 0x100;
      var data := p.data + f.payload;
      if next == key.fragTotal && |data| == key.total
      then Result(Table(t.live - {key}, t.held + 1), true, Some(data))
      else Result(Table(t.live[key := Partial(data, next, now)], t.held), next != key.fragTotal, None)
  }

  function MapReceive(t: Table, capacity: nat, now: u32, src: Option<u32>, f: Frame): Result {
    var key := FrameKey(src, f);
    var u := Table(Unexpired(t.live, now), t.held);
    if key in u.live then Extend(u, now, key, f)
    else if f.fragIdx == 0 && |u.live| + u.held < capacity
    then Extend(u.(live := u.live[key := Partial([], 0, now)]), now, key, f)
    else Result(u, false, None)
  }

  // ---- Abstraction ---------------------------------------------------------------------------

  ghost predicate UniqueKeys(slots: seq<Slot>, bySource: bool) {
    forall i, j :: 0 <= i < j < |slots| && slots[i].state.Receiving? && slots[j].state.Receiving? ==>
      KeyOf(slots[i], bySource) != KeyOf(slots[j], bySource)
  }

  ghost function LiveOf(slots: seq<Slot>, bySource: bool): map<Key, Partial>
    requires PoolOk(slots)
  {
    if slots == [] then map[]
    else
      var n := |slots| - 1;
      var rest := LiveOf(slots[..n], bySource);
      assert SlotOk(slots[n]);
      if slots[n].state.Receiving? then rest[KeyOf(slots[n], bySource) := PartialOf(slots[n])] else rest
  }

  ghost function Count(slots: seq<Slot>, st: State): nat {
    if slots == [] then 0
    else Count(slots[..|slots| - 1], st) + if slots[|slots| - 1].state == st then 1 else 0
  }

  ghost function Abs(slots: seq<Slot>, bySource: bool): Table
    requires PoolOk(slots)
  {
    Table(LiveOf(slots, bySource), Count(slots, Referenced))
  }

  ghost predicate HasKey(slots: seq<Slot>, b: bool, k: Key) {
    exists i :: 0 <= i < |slots| && slots[i].state.Receiving? && KeyOf(slots[i], b) == k
  }

  lemma {:induction false} LiveHas(slots: seq<Slot>, b: bool, k: Key)
    requires PoolOk(slots)
    ensures k in LiveOf(slots, b) <==> HasKey(slots, b, k)
  {
    if slots != [] {
      var n := |slots| - 1;
      var rest := slots[..n];
      LiveHas(rest, b, k);
      if HasKey(rest, b, k) {
        var i :| 0 <= i < n && rest[i].state.Receiving? && KeyOf(rest[i], b) == k;
        assert slots[i].state.Receiving? && KeyOf(slots[i], b) == k;
      }
      if HasKey(slots, b, k) {
        var i :| 0 <= i < |slots| && slots[i].state.Receiving? && KeyOf(slots[i], b) == k;
        assert i < n ==> rest[i].state.Receiving? && KeyOf(rest[i], b) == k;
      }
    }
  }

  lemma {:induction false} LiveAt(slots: seq<Slot>, b: bool, i: nat)
    requires PoolOk(slots) && UniqueKeys(slots, b)
    requires i < |slots| && slots[i].state.Receiving?
    ensures slots[i].buf.Some? && KeyOf(slots[i], b) in LiveOf(slots, b)
    ensures LiveOf(slots, b)[KeyOf(slots[i], b)] == PartialOf(slots[i])
  {
    assert SlotOk(slots[i]);
    var n := |slots| - 1;
    if i < n {
      LiveAt(slots[..n], b, i);
    }
  }

  lemma {:induction false} LiveSize(slots: seq<Slot>, b: bool)
    requires PoolOk(slots) && UniqueKeys(slots, b)
    ensures |LiveOf(slots, b)| == Count(slots, Receiving)
  {
    if slots != [] {
      var n := |slots| - 1;
      LiveSize(slots[..n], b);
      LiveHas(slots[..n], b, KeyOf(slots[n], b));
    }
  }

  /** Membership, contents and size of the abstract map, context by context. */
  lemma LiveSpec(slots: seq<Slot>, b: bool)
    requires PoolOk(slots) && UniqueKeys(slots, b)
    ensures forall i :: 0 <= i < |slots| && slots[i].state.Receiving? ==>
              KeyOf(slots[i], b) in LiveOf(slots, b)
              && slots[i].buf.Some? && LiveOf(slots, b)[KeyOf(slots[i], b)] == PartialOf(slots[i])
    ensures forall k :: k in LiveOf(slots, b) ==> HasKey(slots, b, k)
    ensures |LiveOf(slots, b)| == Count(slots, Receiving)
  {
    LiveSize(slots, b);
    forall i | 0 <= i < |slots| && slots[i].state.Receiving?
      ensures KeyOf(slots[i], b) in LiveOf(slots, b)
      ensures slots[i].buf.Some? && LiveOf(slots, b)[KeyOf(slots[i], b)] == PartialOf(slots[i])
    {
      LiveAt(slots, b, i);
    }
    forall k | k in LiveOf(slots, b)
      ensures HasKey(slots, b, k)
    {
      LiveHas(slots, b, k);
    }
  }

  lemma {:induction false} CountSum(slots: seq<Slot>)
    ensures Count(slots, Free) + Count(slots, Receiving) + Count(slots, Referenced) == |slots|
    ensures Count(slots, Free) > 0 <==> exists i :: 0 <= i < |slots| && slots[i].state.Free?
  {
    if slots != [] {
      var n := |slots| - 1;
      CountSum(slots[..n]);
      if i :| 0 <= i < n && slots[..n][i].state.Free? {
        assert slots[i].state.Free?;
      }
      if i :| 0 <= i < |slots| && slots[i].state.Free? {
        assert i < n ==> slots[..n][i].state.Free?;
      }
    }
  }

  lemma {:induction false} CountUpdate(slots: seq<Slot>, i: nat, s: Slot, st: State)
    requires i < |slots|
    ensures Count(slots[i := s], st)
         == Count(slots, st) - (if slots[i].state == st then 1 else 0) + (if s.state == st then 1 else 0)
  {
    var n := |slots| - 1;
    if i < n {
      CountUpdate(slots[..n], i, s, st);
      assert slots[i := s][..n] == slots[..n][i := s];
    } else {
      assert slots[i := s][..n] == slots[..n];
    }
  }

  lemma {:induction false} CountExpire(slots: seq<Slot>, now: u32)
    ensures Count(Expire(slots, now), Referenced) == Count(slots, Referenced)
  {
    if slots != [] {
      var n := |slots| - 1;
      CountExpire(slots[..n], now);
      assert Expire(slots, now)[..n] == Expire(slots[..n], now);
    }
  }

  /** Two maps described by the same contexts are equal. */
  lemma LiveIs(slots: seq<Slot>, b: bool, m: map<Key, Partial>)
    requires PoolOk(slots) && UniqueKeys(slots, b)
    requires forall i :: 0 <= i < |slots| && slots[i].state.Receiving? ==>
               KeyOf(slots[i], b) in m && slots[i].buf.Some? && m[KeyOf(slots[i], b)] == PartialOf(slots[i])
    requires forall k :: k in m ==> HasKey(slots, b, k)
    ensures LiveOf(slots, b) == m
  {
    LiveSpec(slots, b);
    assert LiveOf(slots, b).Keys == m.Keys;
  }

  lemma ExpireUnique(slots: seq<Slot>, now: u32, b: bool)
    requires PoolOk(slots) && UniqueKeys(slots, b)
    ensures var e := Expire(slots, now); PoolOk(e) && UniqueKeys(e, b)
  {
    var e := Expire(slots, now);
    assert forall i :: 0 <= i < |slots| ==> SlotOk(slots[i]) && e[i] == Reclaim(slots[i], now);
  }

  lemma ExpireRefines(slots: seq<Slot>, now: u32, b: bool)
    requires PoolOk(slots) && UniqueKeys(slots, b)
    ensures var e := Expire(slots, now);
            && PoolOk(e) && UniqueKeys(e, b)
            && Abs(e, b) == Table(Unexpired(LiveOf(slots, b), now), Count(slots, Referenced))
  {
    hide LiveOf;
    hide UniqueKeys;
    var e := Expire(slots, now);
    ExpireUnique(slots, now, b);
    var m := Unexpired(LiveOf(slots, b), now);
    ExpireKeys(slots, now, b);
    LiveIs(e, b, m);
    CountExpire(slots, now);
  }

  lemma ExpireKeys(slots: seq<Slot>, now: u32, b: bool)
    requires PoolOk(slots) && UniqueKeys(slots, b)
    ensures var e := Expire(slots, now);
            var m := Unexpired(LiveOf(slots, b), now);
            && (forall i :: 0 <= i < |e| && e[i].state.Receiving? ==>
                  KeyOf(e[i], b) in m && e[i].buf.Some? && m[KeyOf(e[i], b)] == PartialOf(e[i]))
            && (forall k :: k in m ==> HasKey(e, b, k))
  {
    hide LiveOf;
    hide UniqueKeys;
    hide PoolOk;
    LiveSpec(slots, b);
    var e := Expire(slots, now);
    var m := Unexpired(LiveOf(slots, b), now);
    forall k | k in m
      ensures HasKey(e, b, k)
    {
      var i :| 0 <= i < |slots| && slots[i].state.Receiving? && KeyOf(slots[i], b) == k;
      assert slots[i].buf.Some? && m[k] == PartialOf(slots[i]);
      assert e[i].state.Receiving?;
    }
    forall i | 0 <= i < |e| && e[i].state.Receiving?
      ensures KeyOf(e[i], b) in m && e[i].buf.Some? && m[KeyOf(e[i], b)] == PartialOf(e[i])
    {
      assert e[i] == slots[i];
    }
  }

  /** Putting a context of key k at i, where no other context has k, adds, replaces or removes
      exactly that key. */
  lemma UpdateRefines(e: seq<Slot>, b: bool, i: nat, s: Slot, k: Key)
    requires PoolOk(e) && UniqueKeys(e, b) && i < |e| && SlotOk(s)
    requires e[i].state.Receiving? ==> KeyOf(e[i], b) == k
    requires KeyOf(s, b) == k
    requires forall j :: 0 <= j < |e| && j != i && e[j].state.Receiving? ==> KeyOf(e[j], b) != k
    ensures PoolOk(e[i := s]) && UniqueKeys(e[i := s], b)
    ensures LiveOf(e[i := s], b)
         == if s.state.Receiving? then LiveOf(e, b)[k := PartialOf(s)] else LiveOf(e, b) - {k}
  {
    hide LiveOf;
    hide HasKey;
    var e' := e[i := s];
    UpdateUnique(e, b, i, s, k);
    UpdateKeys(e, b, i, s, k);
    LiveIs(e', b, if s.state.Receiving? then LiveOf(e, b)[k := PartialOf(s)] else LiveOf(e, b) - {k});
  }

  lemma UpdateUnique(e: seq<Slot>, b: bool, i: nat, s: Slot, k: Key)
    requires PoolOk(e) && UniqueKeys(e, b) && i < |e| && SlotOk(s) && KeyOf(s, b) == k
    requires forall j :: 0 <= j < |e| && j != i && e[j].state.Receiving? ==> KeyOf(e[j], b) != k
    ensures PoolOk(e[i := s]) && UniqueKeys(e[i := s], b)
  {
  }

  lemma UpdateKeys(e: seq<Slot>, b: bool, i: nat, s: Slot, k: Key)
    requires PoolOk(e) && UniqueKeys(e, b) && i < |e| && SlotOk(s)
    requires e[i].state.Receiving? ==> KeyOf(e[i], b) == k
    requires KeyOf(s, b) == k
    requires forall j :: 0 <= j < |e| && j != i && e[j].state.Receiving? ==> KeyOf(e[j], b) != k
    ensures var e' := e[i := s];
            var m := if s.state.Receiving? then LiveOf(e, b)[k := PartialOf(s)] else LiveOf(e, b) - {k};
            && (forall x :: x in m ==> HasKey(e', b, x))
            && (forall j :: 0 <= j < |e'| && e'[j].state.Receiving? ==>
                  e'[j].buf.Some? && KeyOf(e'[j], b) in m && m[KeyOf(e'[j], b)] == PartialOf(e'[j]))
  {
    hide LiveOf;
    hide UniqueKeys;
    var e' := e[i := s];
    var m := if s.state.Receiving? then LiveOf(e, b)[k := PartialOf(s)] else LiveOf(e, b) - {k};
    LiveSpec(e, b);
    forall x | x in m
      ensures HasKey(e', b, x)
    {
      if x == k {
        assert e'[i].state.Receiving?;
      } else {
        assert HasKey(e, b, x);
        var j :| 0 <= j < |e| && e[j].state.Receiving? && KeyOf(e[j], b) == x;
        assert e'[j].state.Receiving?;
      }
    }
    forall j | 0 <= j < |e'| && e'[j].state.Receiving?
      ensures e'[j].buf.Some? && KeyOf(e'[j], b) in m && m[KeyOf(e'[j], b)] == PartialOf(e'[j])
    {
      assert j != i ==> e'[j] == e[j] && KeyOf(e[j], b) != k;
    }
  }

  /** The write step at the context i that carries the key of the frame. */
  lemma WriteRefines(e: seq<Slot>, now: u32, src: Option<u32>, f: Frame, i: nat, s: Slot)
    requires PoolOk(e) && UniqueKeys(e, src.Some?) && i < |e|
    requires s.state.Receiving? && SlotOk(s) && KeyOf(s, src.Some?) == FrameKey(src, f)
    requires e[i].state.Free? || (e[i].state.Receiving? && KeyOf(e[i], src.Some?) == FrameKey(src, f))
    requires forall j :: 0 <= j < |e| && j != i ==> !Matches(e[j], src, f)
    ensures var w := Write(s, now, f.fragIdx, f.payload);
            var k := FrameKey(src, f);
            var b := src.Some?;
            && PoolOk(e[i := w.0]) && UniqueKeys(e[i := w.0], b)
            && Extend(Table(LiveOf(e, b)[k := PartialOf(s)], Count(e, Referenced)), now, k, f)
               == Result(Abs(e[i := w.0], b), Acked(w.1),
                         if w.1.Complete? then Some(w.0.buf.value.data) else None)
  {
    hide LiveOf;
    hide UniqueKeys;
    hide PoolOk;
    hide Count;
    var b, k := src.Some?, FrameKey(src, f);
    var w := Write(s, now, f.fragIdx, f.payload);
    UpdateRefines(e, b, i, w.0, k);
    CountUpdate(e, i, w.0, Referenced);
    var t := LiveOf(e, b)[k := PartialOf(s)];
    assert t - {k} == LiveOf(e, b) - {k};
    if w.0.state.Receiving? {
      assert t[k := PartialOf(w.0)] == LiveOf(e, b)[k := PartialOf(w.0)];
    }
  }

  /** Main refinement: one received frame acts on the context array exactly as on the map, and after
      the whole frame no two receiving contexts share a key, whatever stale source id the context
      carried between its allocation and its tagging. */
  lemma PoolRefinesMap(slots: seq<Slot>, now: u32, src: Option<u32>, f: Frame)
    requires PoolOk(slots) && UniqueKeys(slots, src.Some?)
    ensures var o := Receive(slots, now, src, f);
            && UniqueKeys(o.slots, src.Some?)
            && MapReceive(Abs(slots, src.Some?), |slots|, now, src, f)
               == Result(Abs(o.slots, src.Some?), o.ack,
                         if o.done.Some? then Some(Payload(o.slots, o.done.value)) else None)
  {
    var b, k := src.Some?, FrameKey(src, f);
    var e := Expire(slots, now);
    ExpireRefines(slots, now, b);
    MatchIsKey(e, src, f);
    FreeIsRoom(e, b);
    var m, i := FirstMatch(e, src, f, 0), FirstFree(e, 0);
    if m.Some? {
      assert SlotOk(e[m.value]) && Tag(e[m.value], src) == e[m.value];
      LiveAt(e, b, m.value);
      assert LiveOf(e, b)[k := PartialOf(e[m.value])] == LiveOf(e, b);
      WriteRefines(e, now, src, f, m.value, e[m.value]);
    } else if f.fragIdx == 0 && i.Some? {
      var o := Opened(e[i.value], now, f);
      var s := Tag(o, src);
      var w := Write(s, now, 0, f.payload).0;
      assert e[i.value := o][i.value] == o && e[i.value := o][i.value := w] == e[i.value := w];
      WriteRefines(e, now, src, f, i.value, s);
    }
  }

  /** A scan finds a context exactly when the key is live. */
  lemma MatchIsKey(e: seq<Slot>, src: Option<u32>, f: Frame)
    requires PoolOk(e) && UniqueKeys(e, src.Some?)
    ensures FrameKey(src, f) in LiveOf(e, src.Some?) <==> FirstMatch(e, src, f, 0).Some?
    ensures var m := FirstMatch(e, src, f, 0);
            m.Some? ==> forall j :: 0 <= j < |e| && j != m.value ==> !Matches(e[j], src, f)
  {
    var b, k := src.Some?, FrameKey(src, f);
    var m := FirstMatch(e, src, f, 0);
    LiveHas(e, b, k);
    if m.Some? {
      assert e[m.value].state.Receiving? && KeyOf(e[m.value], b) == k;
    }
    if HasKey(e, b, k) {
      var i :| 0 <= i < |e| && e[i].state.Receiving? && KeyOf(e[i], b) == k;
      assert Matches(e[i], src, f);
    }
  }

  /** A scan finds a free context exactly when the map is below its capacity. */
  lemma FreeIsRoom(e: seq<Slot>, b: bool)
    requires PoolOk(e) && UniqueKeys(e, b)
    ensures FirstFree(e, 0).Some? <==> |LiveOf(e, b)| + Count(e, Referenced) < |e|
  {
    LiveSize(e, b);
    CountSum(e);
  }

  /** A frame of another key leaves an unexpired partial message, and any frame leaves a completed
      one, exactly as it was. */
  lemma OtherKeysUntouched(slots: seq<Slot>, now: u32, src: Option<u32>, f: Frame, i: nat)
    requires PoolOk(slots) && i < |slots|
    requires slots[i].state.Referenced?
          || (slots[i].state.Receiving? && !Matches(slots[i], src, f) && !Expired(slots[i], now))
    ensures Receive(slots, now, src, f).slots[i] == slots[i]
  {
    assert Expire(slots, now)[i] == slots[i];
  }

  /** Exactly when two receiving contexts share a key between the lookup and the source tag: a new message
      is opened in a context that still shows the source of its previous one, and that source is just
      sending a message of the same sequence id, fragment count and total. */
  lemma KeysClashExactly(slots: seq<Slot>, now: u32, src: u32, f: Frame)
    requires PoolOk(slots) && UniqueKeys(slots, true)
    ensures var e := Expire(slots, now);
            !UniqueKeys(Get(slots, now, Some(src), f).0, true) <==>
              && f.fragIdx == 0 && FirstMatch(e, Some(src), f, 0).None? && FirstFree(e, 0).Some?
              && FirstMatch(e, Some(e[FirstFree(e, 0).value].srcId), f, 0).Some?
  {
    var e := Expire(slots, now);
    ExpireUnique(slots, now, true);
    var i := FirstFree(e, 0);
    if f.fragIdx == 0 && FirstMatch(e, Some(src), f, 0).None? && i.Some? {
      var o := Opened(e[i.value], now, f);
      var g := e[i.value := o];
      var m := FirstMatch(e, Some(o.srcId), f, 0);
      if m.Some? {
        var lo, hi := Min(m.value, i.value), if m.value < i.value then i.value else m.value;
        assert lo < hi && g[lo].state.Receiving? && g[hi].state.Receiving? && KeyOf(g[lo], true) == KeyOf(g[hi], true);
      } else {
        forall x, y | 0 <= x < y < |g| && g[x].state.Receiving? && g[y].state.Receiving?
          ensures KeyOf(g[x], true) != KeyOf(g[y], true)
        {
          assert x != i.value ==> g[x] == e[x] && !Matches(e[x], Some(o.srcId), f);
          assert y != i.value ==> g[y] == e[y] && !Matches(e[y], Some(o.srcId), f);
        }
      }
    }
  }

  /** It does happen, with two sources that choose the same sequence id; after the frame it is over. */
  lemma StaleSourceWindow()
    ensures exists slots, now, src, f ::
              && PoolOk(slots) && UniqueKeys(slots, true)
              && !UniqueKeys(Get(slots, now, Some(src), f).0, true)
              && UniqueKeys(Receive(slots, now, Some(src), f).slots, true)
  {
    var busy := Slot(Receiving, 7, 20, 2, 1, 0, 1, Some(NetBuf(seq(14, _ => 0), 1)));
    var stale := Slot(Free, 0, 0, 0, 0, 0, 1, None);
    var f := Frame(7, 2, 0, 20, seq(14, _ => 0));
    var slots := [busy, stale];
    assert SlotOk(busy) && SlotOk(stale);
    var e := Expire(slots, 0);
    assert e == slots;
    assert FirstMatch(e, Some(2), f, 0).None? && FirstFree(e, 0) == Some(1) && Matches(e[0], Some(1), f);
    assert UniqueKeys(slots, true);
    KeysClashExactly(slots, 0, 2, f);
    PoolRefinesMap(slots, 0, Some(2), f);
    assert !UniqueKeys(Get(slots, 0, Some(2 as u32), f).0, true);
  }
}
