/** What a stop-and-wait sender puts on the link, given how the link answers each attempt. */
module Sending {
  import opened Bytes
  import opened Fragmentation
  import opened Wire

  /** The link refuses the frame, no ACK comes in time, or one does. */
  datatype Answer = Refused(error: int) | TimedOut | Acked

  datatype Status = Ok | Invalid | TooLong | NotReady | NotConnected | Unpackable | Failed(error: int) | NoAck

  /** Answer to attempt a of fragment i. */
  type Link = (nat, nat) -> Answer

  /** Copies of fragment i put on the link from attempt a on. */
  function CopiesSent(link: Link, i: nat, a: nat): (n: nat)
    requires a <= TX_ATTEMPTS
    ensures n <= TX_ATTEMPTS - a
    decreases TX_ATTEMPTS - a
  {
    if a == TX_ATTEMPTS || link(i, a).Refused? then 0
    else if link(i, a).Acked? then 1
    else 1 + CopiesSent(link, i, a + 1)
  }

  function FragmentStatus(link: Link, i: nat, a: nat): Status
    requires a <= TX_ATTEMPTS
    decreases TX_ATTEMPTS - a
  {
    if a == TX_ATTEMPTS then NoAck
    else match link(i, a)
      case Refused(e) => Failed(e)
      case Acked => Ok
      case TimedOut => FragmentStatus(link, i, a + 1)
  }

  function Copies(b: bytes, n: nat): (r: seq<bytes>)
    ensures |r| == n
  {
    seq(n, _ => b)
  }

  lemma CopiesStep(b: bytes, n: nat)
    ensures Copies(b, n) + [b] == Copies(b, n + 1)
    ensures Copies(b, 0) == []
  {
  }

  /** Frames put on the link from fragment i on, and the result of the write. */
  function SendLog(l: Layout, m: Message, link: Link, i: nat): seq<bytes>
    requires m.Valid() && i <= m.Count()
    decreases m.Count() - i
  {
    if i == m.Count() then []
    else
      Copies(EncodeData(l, FrameOf(m, i)), CopiesSent(link, i, 0))
      + if FragmentStatus(link, i, 0).Ok? then SendLog(l, m, link, i + 1) else []
  }

  function SendStatus(m: Message, link: Link, i: nat): Status
    requires m.Valid() && i <= m.Count()
    decreases m.Count() - i
  {
    if i == m.Count() then Ok
    else if FragmentStatus(link, i, 0).Ok? then SendStatus(m, link, i + 1)
    else FragmentStatus(link, i, 0)
  }

  /** b is a data frame of m with index lo or higher. */
  ghost predicate IsFragment(l: Layout, m: Message, b: bytes, lo: nat)
    requires m.Valid()
  {
    && |b| >= HEADER && lo <= DecodeData(l, b).fragIdx < m.Count()
    && b == EncodeData(l, FrameOf(m, DecodeData(l, b).fragIdx))
  }

  /** Only fragments of m from lo on, in nondecreasing order of their indices. */
  ghost predicate InOrder(l: Layout, m: Message, log: seq<bytes>, lo: nat)
    requires m.Valid()
  {
    |log| > 0 ==> IsFragment(l, m, log[0], lo) && InOrder(l, m, log[1..], DecodeData(l, log[0]).fragIdx)
  }

  lemma {:induction false} InOrderFrom(l: Layout, m: Message, log: seq<bytes>, lo: nat, hi: nat)
    requires m.Valid() && lo <= hi && InOrder(l, m, log, hi)
    ensures InOrder(l, m, log, lo)
  {
  }

  lemma {:induction false} CopiesThen(l: Layout, m: Message, i: nat, n: nat, rest: seq<bytes>)
    requires m.Valid() && i < m.Count() && InOrder(l, m, rest, i)
    ensures InOrder(l, m, Copies(EncodeData(l, FrameOf(m, i)), n) + rest, i)
  {
    var b := EncodeData(l, FrameOf(m, i));
    if n == 0 {
      assert Copies(b, 0) + rest == rest;
    } else {
      CopiesThen(l, m, i, n - 1, rest);
      DataRoundTrip(l, FrameOf(m, i));
      assert (Copies(b, n) + rest)[1..] == Copies(b, n - 1) + rest;
    }
  }

  /** Every frame on the link is a fragment of the message, their indices never decrease, and there are
      at most four copies of each. */
  lemma {:induction false} LogInOrder(l: Layout, m: Message, link: Link, i: nat)
    requires m.Valid() && i <= m.Count()
    ensures InOrder(l, m, SendLog(l, m, link, i), i)
    ensures |SendLog(l, m, link, i)| <= TX_ATTEMPTS * (m.Count() - i)
    decreases m.Count() - i
  {
    hide FrameOf;
    hide EncodeData;
    hide InOrder;
    if i == m.Count() {
      NoneInOrder(l, m, i);
    } else {
      var ok := FragmentStatus(link, i, 0).Ok?;
      if ok {
        LogInOrder(l, m, link, i + 1);
        InOrderFrom(l, m, SendLog(l, m, link, i + 1), i, i + 1);
      } else {
        NoneInOrder(l, m, i);
      }
      CopiesThen(l, m, i, CopiesSent(link, i, 0), if ok then SendLog(l, m, link, i + 1) else []);
    }
  }

  lemma NoneInOrder(l: Layout, m: Message, lo: nat)
    requires m.Valid()
    ensures InOrder(l, m, [], lo)
  {
  }

  /** A write that succeeds has put every fragment on the link. */
  lemma {:induction false} OkSendsAll(l: Layout, m: Message, link: Link, i: nat, x: nat)
    requires m.Valid() && i <= x < m.Count() && SendStatus(m, link, i).Ok?
    ensures EncodeData(l, FrameOf(m, x)) in SendLog(l, m, link, i)
    decreases m.Count() - i
  {
    hide FrameOf;
    hide EncodeData;
    var b := EncodeData(l, FrameOf(m, i));
    var rest := SendLog(l, m, link, i + 1);
    OkMeansSent(link, i, 0);
    var log := Copies(b, CopiesSent(link, i, 0)) + rest;
    assert SendLog(l, m, link, i) == log && log[0] == b;
    if i < x {
      OkSendsAll(l, m, link, i + 1, x);
    }
  }

  lemma {:induction false} OkMeansSent(link: Link, i: nat, a: nat)
    requires a <= TX_ATTEMPTS && FragmentStatus(link, i, a).Ok?
    ensures CopiesSent(link, i, a) > 0
    decreases TX_ATTEMPTS - a
  {
    if a < TX_ATTEMPTS && link(i, a).TimedOut? {
      OkMeansSent(link, i, a + 1);
    }
  }

  // ---- Attempts and answers, one by one ------------------------------------------------------

  /** No attempt of fragment i before attempt a was refused or acknowledged. */
  ghost predicate TimedOutBefore(link: Link, i: nat, a: nat) {
    forall x :: 0 <= x < a ==> link(i, x) == TimedOut
  }

  lemma {:induction false} FirstAnswer(link: Link, i: nat, a: nat, d: nat)
    requires d <= a <= 4 && TimedOutBefore(link, i, a)
    ensures FragmentStatus(link, i, d) == FragmentStatus(link, i, a)
    ensures CopiesSent(link, i, d) == a - d + CopiesSent(link, i, a)
    decreases a - d
  {
    if d < a {
      assert link(i, d) == TimedOut;
      FirstAnswer(link, i, a, d + 1);
    }
  }

  /** The first answer that is not a timeout decides: a refusal ends the fragment at once with its error and
      without a copy of its own, an acknowledgement with success; four timeouts are a failure after four
      copies. */
  lemma FirstAnswerDecides(link: Link, i: nat)
    ensures forall a, error :: 0 <= a < 4 && TimedOutBefore(link, i, a) && link(i, a) == Refused(error) ==>
              FragmentStatus(link, i, 0) == Failed(error) && CopiesSent(link, i, 0) == a
    ensures forall a :: 0 <= a < 4 && TimedOutBefore(link, i, a) && link(i, a) == Acked ==>
              FragmentStatus(link, i, 0) == Ok && CopiesSent(link, i, 0) == a + 1
    ensures TimedOutBefore(link, i, 4) ==> FragmentStatus(link, i, 0) == NoAck && CopiesSent(link, i, 0) == 4
  {
    forall a | 0 <= a <= 4 && TimedOutBefore(link, i, a)
      ensures FragmentStatus(link, i, 0) == FragmentStatus(link, i, a)
      ensures CopiesSent(link, i, 0) == a + CopiesSent(link, i, a)
    {
      FirstAnswer(link, i, a, 0);
    }
  }

  /** All fragments from i on and before x got through. */
  ghost predicate OkBetween(link: Link, i: nat, x: nat) {
    forall y :: i <= y < x ==> FragmentStatus(link, y, 0) == Ok
  }

  /** How often each fragment's frame is in the log of a write: as often as its attempts sent it if all
      before it got through, and not at all otherwise. */
  lemma {:induction false} LogCounts(l: Layout, m: Message, link: Link, i: nat, x: nat)
    requires m.Valid() && i <= m.Count() && x < m.Count()
    ensures multiset(SendLog(l, m, link, i))[EncodeData(l, FrameOf(m, x))]
         == if i <= x && OkBetween(link, i, x) then CopiesSent(link, x, 0) else 0
    decreases m.Count() - i
  {
    hide EncodeData;
    hide FrameOf;
    hide Copies;
    hide CopiesSent;
    hide FragmentStatus;
    hide SendLog;
    hide OkBetween;
    LogStep(l, m, link, i);
    if i < m.Count() {
      var b, c := EncodeData(l, FrameOf(m, i)), EncodeData(l, FrameOf(m, x));
      var ok := FragmentStatus(link, i, 0) == Ok;
      CopiesCount(b, CopiesSent(link, i, 0), c);
      FramesDiffer(l, m, i, x);
      CountOf(Copies(b, CopiesSent(link, i, 0)), if ok then SendLog(l, m, link, i + 1) else [], c);
      if ok {
        LogCounts(l, m, link, i + 1, x);
      }
      OkStep(link, i, x);
    }
  }

  lemma LogStep(l: Layout, m: Message, link: Link, i: nat)
    requires m.Valid() && i <= m.Count()
    ensures SendLog(l, m, link, i)
         == if i == m.Count() then []
            else Copies(EncodeData(l, FrameOf(m, i)), CopiesSent(link, i, 0))
                 + if FragmentStatus(link, i, 0) == Ok then SendLog(l, m, link, i + 1) else []
  {
  }

  lemma CountOf(a: seq<bytes>, b: seq<bytes>, c: bytes)
    ensures multiset(a + b)[c] == multiset(a)[c] + multiset(b)[c]
  {
    assert multiset(a + b) == multiset(a) + multiset(b);
  }

  lemma OkStep(link: Link, i: nat, x: nat)
    ensures i < x ==> (OkBetween(link, i, x) <==> FragmentStatus(link, i, 0) == Ok && OkBetween(link, i + 1, x))
    ensures OkBetween(link, x, x)
  {
    hide FragmentStatus;
  }

  lemma {:induction false} CopiesCount(b: bytes, n: nat, c: bytes)
    ensures multiset(Copies(b, n))[c] == if b == c then n else 0
  {
    if n > 0 {
      CopiesCount(b, n - 1, c);
      CopiesStep(b, n - 1);
      assert multiset(Copies(b, n - 1) + [b]) == multiset(Copies(b, n - 1)) + multiset{b};
    }
  }

  lemma FramesDiffer(l: Layout, m: Message, i: nat, x: nat)
    requires m.Valid() && i < m.Count() && x < m.Count()
    ensures EncodeData(l, FrameOf(m, i)) == EncodeData(l, FrameOf(m, x)) <==> i == x
  {
    hide EncodeData;
    hide DecodeData;
    DataRoundTrip(l, FrameOf(m, i));
    DataRoundTrip(l, FrameOf(m, x));
  }

  /** A write fails with the first fragment that does, which is the last to be sent; it succeeds when none
      does. */
  lemma FirstFailureDecides(l: Layout, m: Message, link: Link, x: nat)
    requires m.Valid() && x < m.Count() && OkBetween(link, 0, x)
    ensures FragmentStatus(link, x, 0) != Ok ==>
              && SendStatus(m, link, 0) == FragmentStatus(link, x, 0)
              && forall y :: x < y < m.Count() ==> EncodeData(l, FrameOf(m, y)) !in SendLog(l, m, link, 0)
    ensures x + 1 == m.Count() && FragmentStatus(link, x, 0) == Ok ==> SendStatus(m, link, 0) == Ok
  {
    hide EncodeData;
    hide FrameOf;
    hide SendLog;
    hide FragmentStatus;
    StatusFrom(m, link, 0, x);
    forall y | x < y < m.Count() && FragmentStatus(link, x, 0) != Ok
      ensures EncodeData(l, FrameOf(m, y)) !in SendLog(l, m, link, 0)
    {
      LogCounts(l, m, link, 0, y);
    }
  }

  lemma {:induction false} StatusFrom(m: Message, link: Link, i: nat, x: nat)
    requires m.Valid() && i <= x < m.Count() && OkBetween(link, i, x)
    ensures SendStatus(m, link, i) == SendStatus(m, link, x)
    decreases x - i
  {
    hide FragmentStatus;
    if i < x {
      OkStep(link, i, x);
      StatusFrom(m, link, i + 1, x);
    }
  }
}
