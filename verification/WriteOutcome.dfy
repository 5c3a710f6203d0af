/** The sender's loop of module Sending, run against the receiver and channel of module StopAndWait. */
module WriteOutcome {
  import opened Reassembly
  import opened Fragmentation
  import opened StopAndWait
  import opened Sending

  /** The world in which attempt a of fragment i is made, if all attempts before it timed out. */
  function BeforeAttempt(w: World, m: Message, i: nat, a: nat, ch: Channel): (v: World)
    requires PoolOk(w.slots) && m.Valid() && i < m.Count()
    ensures PoolOk(v.slots)
  {
    if a == 0 then w
    else
      var v := BeforeAttempt(w, m, i, a - 1, ch);
      Pass(if ch.fate(i, a - 1).DataLost? then v else Arrive(v, m.src, FrameOf(m, i)).0, Waits(1), ch.other(i, a - 1))
  }

  function BeforeFragment(w: World, m: Message, i: nat, ch: Channel): (v: World)
    requires PoolOk(w.slots) && m.Valid() && i <= m.Count()
    ensures PoolOk(v.slots)
  {
    if i == 0 then w else SendFragment(BeforeFragment(w, m, i - 1, ch), m, i - 1, 0, ch).0
  }

  /** The answers the receiver and the channel give the sender. */
  ghost predicate Answers(link: Link, w: World, m: Message, ch: Channel)
    requires PoolOk(w.slots) && m.Valid()
  {
    forall i, a :: 0 <= i < m.Count() && 0 <= a < TX_ATTEMPTS ==>
      link(i, a) == if ch.fate(i, a).BothArrive?
                       && Arrive(BeforeAttempt(BeforeFragment(w, m, i, ch), m, i, a, ch), m.src, FrameOf(m, i)).1
                    then Acked else TimedOut
  }

  /** One unfolding of the retry loop. */
  lemma SendAttempt(v: World, m: Message, i: nat, a: nat, ch: Channel)
    requires PoolOk(v.slots) && m.Valid() && i < m.Count() && a < TX_ATTEMPTS
    ensures var r := Arrive(v, m.src, FrameOf(m, i));
            var next := Pass(if ch.fate(i, a).DataLost? then v else r.0, Waits(1), ch.other(i, a));
            if ch.fate(i, a).BothArrive? && r.1 then SendFragment(v, m, i, a, ch).1
            else SendFragment(v, m, i, a, ch) == SendFragment(next, m, i, a + 1, ch)
  {
    hide Arrive;
    hide Pass;
  }

  lemma {:induction false} FragmentRun(link: Link, w: World, m: Message, ch: Channel, i: nat, a: nat)
    requires PoolOk(w.slots) && m.Valid() && i < m.Count() && a <= TX_ATTEMPTS && Answers(link, w, m, ch)
    ensures var v := BeforeAttempt(BeforeFragment(w, m, i, ch), m, i, a, ch);
            FragmentStatus(link, i, a) == if SendFragment(v, m, i, a, ch).1 then Ok else NoAck
    decreases TX_ATTEMPTS - a
  {
    hide Arrive;
    hide FrameOf;
    hide SendFragment;
    hide BeforeFragment;
    var v := BeforeAttempt(BeforeFragment(w, m, i, ch), m, i, a, ch);
    if a == TX_ATTEMPTS {
      SendNone(v, m, i, ch);
    } else {
      FragmentRun(link, w, m, ch, i, a + 1);
      SendAttempt(v, m, i, a, ch);
    }
  }

  lemma {:induction false} WriteRun(link: Link, w: World, m: Message, ch: Channel, i: nat)
    requires PoolOk(w.slots) && m.Valid() && i <= m.Count() && Answers(link, w, m, ch)
    ensures SendStatus(m, link, i).Ok? <==> SendFrom(BeforeFragment(w, m, i, ch), m, i, ch).1
    decreases m.Count() - i
  {
    hide Arrive;
    hide FrameOf;
    hide Answers;
    hide SendFragment;
    if i < m.Count() {
      FragmentRun(link, w, m, ch, i, 0);
      WriteRun(link, w, m, ch, i + 1);
    }
  }

  /** The result of a write whose answers come from that receiver over that channel is success exactly under
      the condition of the transfer theorems. */
  lemma WriteSucceedsExactly(link: Link, w: World, m: Message, ch: Channel)
    requires PoolOk(w.slots) && m.Valid() && |m.data| <= BUFFER_SIZE && ch.Valid() && ch.Apart(m)
    requires Answers(link, w, m, ch) && Idle(w.slots, m)
    ensures SendStatus(m, link, 0).Ok? <==> Reported(w, m, ch)
  {
    hide SendFrom;
    hide Reported;
    WriteRun(link, w, m, ch, 0);
    SendOutcome(w, m, ch);
  }
}
