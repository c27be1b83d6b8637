/** What reaches the log: every verified envelope that its handler commits, once and in order. */
module OtDelivery {
  import opened Bytes
  import opened OtFrame
  import opened OtGateway

  // ----- What a handler holds -----

  predicate Reads(e: Event, h: nat) {
    e.Arrive? && e.handler == h && Verified(e.cipher, e.buf).Ok?
  }

  /** Event `i` gave handler `h` a frame that it has not committed: nothing it read since its last commit came before. */
  ghost predicate Holding(events: seq<Event>, h: nat, i: nat) {
    && i < |events| && Reads(events[i], h)
    && (forall k :: i < k < |events| ==> events[k] != Commit(h))
    && (forall j :: 0 <= j < i && Reads(events[j], h) ==> exists k :: j < k < i && events[k] == Commit(h))
  }

  ghost predicate Idle(events: seq<Event>, h: nat) {
    forall i :: 0 <= i < |events| && Reads(events[i], h) ==> exists k :: i < k < |events| && events[k] == Commit(h)
  }

  function FrameOf(e: Event): Frame
    requires e.Arrive? && Verified(e.cipher, e.buf).Ok?
  {
    Verified(e.cipher, e.buf).value
  }

  /** A commit settles whatever came before it. */
  lemma CommitSettles(events: seq<Event>, e: Event, h: nat)
    ensures e == Commit(h) ==> Idle(events + [e], h)
    ensures !Reads(e, h) && Idle(events, h) ==> Idle(events + [e], h)
    ensures Reads(e, h) && Idle(events, h) ==> Holding(events + [e], h, |events|)
  {
    var more := events + [e];
    if e == Commit(h) {
      forall i | 0 <= i < |more| && Reads(more[i], h)
        ensures exists k :: i < k < |more| && more[k] == Commit(h)
      {
        assert more[|events|] == Commit(h);
      }
    } else if Idle(events, h) {
      forall i | 0 <= i < |events| && Reads(more[i], h)
        ensures exists k :: i < k < |events| && more[k] == Commit(h)
      {
        assert Reads(events[i], h);
        var k :| i < k < |events| && events[k] == Commit(h);
        assert more[k] == Commit(h);
      }
    }
  }

  lemma HoldingStays(events: seq<Event>, e: Event, h: nat, i: nat)
    requires Holding(events, h, i) && e != Commit(h)
    ensures Holding(events + [e], h, i)
  {
    var more := events + [e];
    forall j | 0 <= j < i && Reads(more[j], h)
      ensures exists k :: j < k < i && more[k] == Commit(h)
    {
      assert Reads(events[j], h);
      var k :| j < k < i && events[k] == Commit(h);
      assert more[k] == Commit(h);
    }
  }

  /** What the pending table says of a handler is what it holds. */
  ghost predicate Agrees(events: seq<Event>, pending: map<nat, Frame>, h: nat, i: nat) {
    if h in pending then Holding(events, h, i) && pending[h] == FrameOf(events[i]) else Idle(events, h)
  }

  lemma PendingStep(init: seq<Event>, g: Gateway, e: Event, h: nat, i: nat) returns (j: nat)
    requires Agrees(init, g.pending, h, i)
    ensures Agrees(init + [e], Step(g, e).pending, h, j)
  {
    CommitSettles(init, e, h);
    j := i;
    if h in g.pending && e != Commit(h) {
      HoldingStays(init, e, h, i);
    } else if Reads(e, h) {
      j := |init|;
    }
  }

  /** The pending table is exactly what the handlers hold. */
  lemma {:induction false} PendingExactly(events: seq<Event>, h: nat) returns (i: nat)
    ensures Agrees(events, Run(events).pending, h, i)
  {
    if events == [] {
      i := 0;
    } else {
      var init, e := events[..|events| - 1], events[|events| - 1];
      var j := PendingExactly(init, h);
      i := PendingStep(init, Run(init), e, h, j);
      assert events == init + [e];
    }
  }

  lemma OnlyOneHolding(events: seq<Event>, h: nat, i: nat, j: nat)
    requires Holding(events, h, i) && Holding(events, h, j)
    ensures i == j
  {
  }

  lemma NotBoth(events: seq<Event>, h: nat, i: nat)
    requires Holding(events, h, i)
    ensures !Idle(events, h)
  {
  }

  // ----- What a commit does to the log -----

  /** Above every number the log has for the device. */
  ghost predicate Fresh(log: seq<Attempt>, f: Frame) {
    f.aad.seqno > 0 && forall j :: 0 <= j < |log| && Key(log[j]) == f.aad.Key() ==> Seqno(log[j]) < f.aad.seqno
  }

  /** A held frame, once committed, is the last attempt, accepted exactly when its number is fresh. */
  lemma Delivered(events: seq<Event>, h: nat, i: nat) returns (t: Attempt)
    requires Holding(events, h, i)
    ensures Run(events + [Commit(h)]).log == Run(events).log + [t]
    ensures t.frame == FrameOf(events[i]) && (t.accepted <==> Fresh(Run(events).log, t.frame))
  {
    var held := PendingExactly(events, h);
    if Idle(events, h) {
      NotBoth(events, h, i);
    }
    OnlyOneHolding(events, h, i, held);
    var more := events + [Commit(h)];
    assert more[..|events|] == events;
    t := Run(more).log[|Run(events).log|];
    RunInvariant(events);
    HighestIsMaximum(Run(events).log, t.frame.aad.Key(), t.frame.aad.seqno);
  }

  /** Nothing else is ever logged. */
  lemma OtherwiseUnchanged(events: seq<Event>, e: Event)
    requires e.Arrive? || Idle(events, e.handler)
    ensures Run(events + [e]).log == Run(events).log
  {
    assert (events + [e])[..|events|] == events;
    if e.Commit? {
      var i := PendingExactly(events, e.handler);
      if e.handler in Run(events).pending {
        NotBoth(events, e.handler, i);
      }
    }
  }

  lemma {:induction false} LogGrows(events: seq<Event>, more: seq<Event>)
    ensures Run(events).log <= Run(events + more).log
    decreases |more|
  {
    if more == [] {
      assert events + more == events;
    } else {
      var n := |more| - 1;
      LogGrows(events, more[..n]);
      LogStep(events + more[..n], more[n], events + more);
    }
  }

  lemma LogStep(events: seq<Event>, e: Event, all: seq<Event>)
    requires all == events + [e]
    ensures Run(events).log <= Run(all).log
  {
    assert all[..|all| - 1] == events;
  }

  lemma {:induction false} HoldingLasts(events: seq<Event>, mid: seq<Event>, h: nat, i: nat)
    requires Holding(events, h, i) && forall k :: 0 <= k < |mid| ==> mid[k].handler != h
    ensures Holding(events + mid, h, i)
    decreases |mid|
  {
    if mid == [] {
      assert events + mid == events;
    } else {
      var n := |mid| - 1;
      HoldingLasts(events, mid[..n], h, i);
      HoldingStays(events + mid[..n], mid[n], h, i);
      assert events + mid == events + mid[..n] + [mid[n]];
    }
  }

  /**
   Whatever the other handlers do in between: an envelope that verifies, read by a handler that
   holds nothing and then committed, ends the log with an attempt of its frame.
   */
  lemma Delivery(es: seq<Event>, h: nat, cipher: Cipher, buf: seq<byte>, mid: seq<Event>, f: Frame) returns (t: Attempt)
    requires Idle(es, h) && Verified(cipher, buf) == Ok(f) && forall k :: 0 <= k < |mid| ==> mid[k].handler != h
    ensures var before := es + [Arrive(h, cipher, buf)] + mid;
            && Run(es).log <= Run(before).log && Run(before + [Commit(h)]).log == Run(before).log + [t]
            && t.frame == f && (t.accepted <==> Fresh(Run(before).log, f))
  {
    var e := Arrive(h, cipher, buf);
    CommitSettles(es, e, h);
    HoldingLasts(es + [e], mid, h, |es|);
    t := Delivered(es + [e] + mid, h, |es|);
    LogGrows(es, [e]);
    LogGrows(es + [e], mid);
  }

  // ----- The log is the list of commits -----

  /** Event `c` commits the frame that event `i` brought. */
  ghost predicate Serves(events: seq<Event>, i: nat, c: nat) {
    i < c < |events| && events[i].Arrive? && events[c] == Commit(events[i].handler) && Holding(events[..c], events[i].handler, i)
  }

  /** Where the attempt of a commit stands in the log. */
  function Place(events: seq<Event>, c: nat): nat
    requires c <= |events|
  {
    |Run(events[..c]).log|
  }

  lemma Logged(events: seq<Event>, i: nat, c: nat)
    requires Serves(events, i, c)
    ensures Place(events, c) < |Run(events).log|
    ensures var log, p := Run(events).log, Place(events, c);
            log[p].frame == FrameOf(events[i]) && (log[p].accepted <==> Fresh(log[..p], log[p].frame))
  {
    var t := Delivered(events[..c], events[i].handler, i);
    CommittedPrefix(events, c, events[i].handler, t);
    PrefixThen(Run(events[..c]).log, t, Run(events).log);
  }

  lemma CommittedPrefix(events: seq<Event>, c: nat, h: nat, t: Attempt)
    requires c < |events| && events[c] == Commit(h)
    requires Run(events[..c] + [Commit(h)]).log == Run(events[..c]).log + [t]
    ensures Run(events[..c]).log + [t] <= Run(events).log
  {
    SplitAt(events, c);
    LogGrowsTo(events[..c] + [Commit(h)], events[c + 1..], events);
  }

  lemma SplitAt(events: seq<Event>, c: nat)
    requires c < |events|
    ensures events == events[..c] + [events[c]] + events[c + 1..]
  {
  }

  lemma LogGrowsTo(a: seq<Event>, b: seq<Event>, whole: seq<Event>)
    requires whole == a + b
    ensures Run(a).log <= Run(whole).log
  {
    LogGrows(a, b);
  }

  lemma PrefixThen(a: seq<Attempt>, t: Attempt, log: seq<Attempt>)
    requires a + [t] <= log
    ensures |a| < |log| && log[|a|] == t && log[..|a|] == a
  {
  }

  /** Every attempt was committed by some event. */
  lemma {:induction false} LoggedFrom(events: seq<Event>, p: nat) returns (i: nat, c: nat)
    requires p < |Run(events).log|
    ensures Serves(events, i, c) && Place(events, c) == p
  {
    var n := |events| - 1;
    var init, e := events[..n], events[n];
    assert events == init + [e];
    if p < |Run(init).log| {
      i, c := LoggedFrom(init, p);
      assert init[..c] == events[..c];
    } else {
      i := PendingExactly(init, e.handler);
      if e.Arrive? || Idle(init, e.handler) {
        OtherwiseUnchanged(init, e);
        assert false;
      }
      var t := Delivered(init, e.handler, i);
      c := n;
    }
  }

  lemma {:induction false} PlacesAscend(events: seq<Event>, b: nat, c: nat)
    requires b <= c <= |events|
    ensures Place(events, b) <= Place(events, c)
  {
    LogGrows(events[..b], events[b..c]);
    assert events[..b] + events[b..c] == events[..c];
  }

  // ----- Genuine traffic in order -----

  /** Frames of the device are committed in the order in which they were issued. */
  ghost predicate InIssueOrder(events: seq<Event>, issued: seq<OtAad>, k: DeviceKey) {
    forall i: nat, b: nat, j: nat, c: nat, m: nat, n: nat ::
      Serves(events, i, b) && Serves(events, j, c) && b < c && FrameOf(events[i]).aad.Key() == FrameOf(events[j]).aad.Key() == k
      && m < |issued| && issued[m] == FrameOf(events[i]).aad && n < |issued| && issued[n] == FrameOf(events[j]).aad
      ==> m < n
  }

  lemma ServedIsGenuine(events: seq<Event>, issued: seq<OtAad>, i: nat, c: nat) returns (m: nat)
    requires NoForgery(events, issued) && Serves(events, i, c)
    ensures m < |issued| && issued[m] == FrameOf(events[i]).aad
  {
    assert Genuine(events[i], issued);
    m :| 0 <= m < |issued| && issued[m] == FrameOf(events[i]).aad;
  }

  /** Genuine frames committed in order of issue are all logged and all accepted. */
  lemma AllAccepted(events: seq<Event>, requests: seq<DeviceKey>, k: DeviceKey, i: nat, c: nat)
    requires NoForgery(events, Issue(requests).issued) && InIssueOrder(events, Issue(requests).issued, k)
    requires Serves(events, i, c) && FrameOf(events[i]).aad.Key() == k
    ensures Place(events, c) < |Run(events).log|
    ensures Run(events).log[Place(events, c)] == Attempt(FrameOf(events[i]), true)
  {
    Logged(events, i, c);
    var log, p, issued := Run(events).log, Place(events, c), Issue(requests).issued;
    var n := ServedIsGenuine(events, issued, i, c);
    NumberedFromOne(requests, log[p], n);
    forall q | 0 <= q < p && Key(log[q]) == k
      ensures Seqno(log[q]) < Seqno(log[p])
    {
      var j, b := LoggedFrom(events, q);
      Logged(events, j, b);
      if b >= c {
        PlacesAscend(events, c, b);
      }
      var m := ServedIsGenuine(events, issued, j, b);
      IssueOrder(requests, m, n);
    }
  }

  // ----- One connection -----

  /** A handler that reads and commits one envelope after the other. */
  function OneByOne(h: nat, arrivals: seq<(Cipher, seq<byte>)>): seq<Event> {
    if arrivals == [] then []
    else
      var n := |arrivals| - 1;
      OneByOne(h, arrivals[..n]) + [Arrive(h, arrivals[n].0, arrivals[n].1), Commit(h)]
  }

  /** The PDUs of the accepted attempts. */
  function Passed(log: seq<Attempt>): seq<seq<byte>> {
    if log == [] then []
    else Passed(log[..|log| - 1]) + if log[|log| - 1].accepted then [log[|log| - 1].frame.pdu] else []
  }

  lemma PassedAppended(log: seq<Attempt>, t: Attempt)
    ensures Passed(log + [t]) == Passed(log) + if t.accepted then [t.frame.pdu] else []
  {
    assert (log + [t])[..|log|] == log;
  }

  lemma TwoSteps(events: seq<Event>, a: Event, b: Event)
    ensures Run(events + [a, b]) == Step(Step(Run(events), a), b)
  {
    assert (events + [a, b])[..|events| + 1] == events + [a];
    assert (events + [a])[..|events|] == events;
  }

  predicate Admitted(g: Gateway, after: Gateway, f: Frame) {
    && after.window == Admit(g.window, f.aad)
    && after.log == g.log + [Attempt(f, f.aad.seqno > Last(g.window, f.aad.Key()))]
  }

  /** An envelope read and committed at once: refused, it leaves no trace; verified, it is offered to the window. */
  lemma ReadAndCommit(events: seq<Event>, h: nat, cipher: Cipher, buf: seq<byte>)
    requires Idle(events, h)
    ensures var g, after := Run(events), Run(events + [Arrive(h, cipher, buf), Commit(h)]);
            if Verified(cipher, buf).Err? then after.window == g.window && after.log == g.log
            else Admitted(g, after, Verified(cipher, buf).value)
    ensures Idle(events + [Arrive(h, cipher, buf), Commit(h)], h)
  {
    var i := PendingExactly(events, h);
    if h in Run(events).pending {
      NotBoth(events, h, i);
    }
    TwoSteps(events, Arrive(h, cipher, buf), Commit(h));
    assert events + [Arrive(h, cipher, buf), Commit(h)] == events + [Arrive(h, cipher, buf)] + [Commit(h)];
    CommitSettles(events + [Arrive(h, cipher, buf)], Commit(h), h);
  }

  /** The handler is idle, the window is that of the run, and the run has passed what was forwarded. */
  ghost predicate Tracks(w: Window, all: seq<Event>, h: nat, forwarded: seq<seq<byte>>) {
    w == Run(all).window && Idle(all, h) && Passed(Run(all).log) == forwarded
  }

  lemma TracksNext(all: seq<Event>, h: nat, forwarded: seq<seq<byte>>, cipher: Cipher, buf: seq<byte>, next: seq<Event>)
    requires Tracks(Run(all).window, all, h, forwarded) && next == all + [Arrive(h, cipher, buf), Commit(h)]
    ensures Verified(cipher, buf).Err? ==> Tracks(Run(all).window, next, h, forwarded)
    ensures Verified(cipher, buf).Ok? ==>
              var f := Verified(cipher, buf).value;
              Tracks(Admit(Run(all).window, f.aad), next, h,
                     forwarded + if f.aad.seqno > Last(Run(all).window, f.aad.Key()) then [f.pdu] else [])
  {
    ReadAndCommit(all, h, cipher, buf);
    if Verified(cipher, buf).Ok? {
      var f := Verified(cipher, buf).value;
      PassedAppended(Run(all).log, Attempt(f, f.aad.seqno > Last(Run(all).window, f.aad.Key())));
    }
  }

  /** One turn: unwrap the envelope and forward what the window lets through. */
  method ReceiveOne(h: nat, cipher: Cipher, buf: seq<byte>, counters: SequenceCounter, forwarded: seq<seq<byte>>,
                    ghost all: seq<Event>, ghost next: seq<Event>)
    returns (more: seq<seq<byte>>)
    requires Tracks(counters.recvState, all, h, forwarded) && next == all + [Arrive(h, cipher, buf), Commit(h)]
    modifies counters`recvState
    ensures Tracks(counters.recvState, next, h, more) && forwarded <= more
  {
    TracksNext(all, h, forwarded, cipher, buf, next);
    var pdu := UnwrapPdu(cipher, buf, counters);
    more := if pdu.Ok? then forwarded + [pdu.value] else forwarded;
  }

  /**
   The receiving loop of one connection, whatever has happened before: it forwards exactly the
   PDUs of the attempts that the run accepts, and the window is that of the run.
   */
  method HandleEgress(h: nat, arrivals: seq<(Cipher, seq<byte>)>, counters: SequenceCounter,
                      before: seq<seq<byte>>, ghost events: seq<Event>)
    returns (forwarded: seq<seq<byte>>)
    requires Tracks(counters.recvState, events, h, before)
    modifies counters`recvState
    ensures Tracks(counters.recvState, events + OneByOne(h, arrivals), h, forwarded)
  {
    forwarded := before;
    ghost var all := events;
    assert events + [] == events;
    for n := 0 to |arrivals|
      invariant all == events + OneByOne(h, arrivals[..n]) && Tracks(counters.recvState, all, h, forwarded)
    {
      var (cipher, buf) := arrivals[n];
      ghost var next := OneMore(events, all, h, arrivals, n);
      forwarded := ReceiveOne(h, cipher, buf, counters, forwarded, all, next);
      all := next;
    }
    assert arrivals[..|arrivals|] == arrivals;
  }

  lemma OneMore(events: seq<Event>, all: seq<Event>, h: nat, arrivals: seq<(Cipher, seq<byte>)>, n: nat) returns (next: seq<Event>)
    requires n < |arrivals| && all == events + OneByOne(h, arrivals[..n])
    ensures next == all + [Arrive(h, arrivals[n].0, arrivals[n].1), Commit(h)] == events + OneByOne(h, arrivals[..n + 1])
  {
    next := all + [Arrive(h, arrivals[n].0, arrivals[n].1), Commit(h)];
    assert arrivals[..n + 1][..n] == arrivals[..n];
  }
}
