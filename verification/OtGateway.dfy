/**
 The receiving gateway: any number of handlers unwrap envelopes at once. Verification reads no
 shared state, so an unwrap is two steps, a local one and an atomic commit to the replay window;
 a run is any interleaving of such steps.
 */
module OtGateway {
  import opened Bytes
  import opened OtFrame

  /** A handler receives an envelope under the key it loaded, or commits what it verified. */
  datatype Event = Arrive(handler: nat, cipher: Cipher, buf: seq<byte>) | Commit(handler: nat)

  datatype Attempt = Attempt(frame: Frame, accepted: bool)

  datatype Gateway = Gateway(window: Window, pending: map<nat, Frame>, log: seq<Attempt>)

  function Key(t: Attempt): DeviceKey { t.frame.aad.Key() }

  function Seqno(t: Attempt): u64 { t.frame.aad.seqno }

  /** A handler that holds a verified frame does not read another before it commits. */
  function Step(g: Gateway, e: Event): Gateway {
    match e
    case Arrive(h, cipher, buf) =>
      if h in g.pending || Verified(cipher, buf).Err? then g
      else g.(pending := g.pending[h := Verified(cipher, buf).value])
    case Commit(h) =>
      if h !in g.pending then g
      else
        var f := g.pending[h];
        Gateway(Admit(g.window, f.aad), g.pending - {h},
                g.log + [Attempt(f, f.aad.seqno > Last(g.window, f.aad.Key()))])
  }

  function Run(events: seq<Event>): Gateway {
    if events == [] then Gateway(map[], map[], []) else Step(Run(events[..|events| - 1]), events[|events| - 1])
  }

  // ----- The window -----

  /** The highest number any attempt has carried for a device, zero before the first. */
  function Highest(log: seq<Attempt>, k: DeviceKey): u64 {
    if log == [] then 0
    else
      var before, t := Highest(log[..|log| - 1], k), log[|log| - 1];
      if Key(t) == k && Seqno(t) > before then Seqno(t) else before
  }

  lemma {:induction false} HighestIsMaximum(log: seq<Attempt>, k: DeviceKey, n: u64)
    ensures Highest(log, k) < n <==> n > 0 && forall j :: 0 <= j < |log| && Key(log[j]) == k ==> Seqno(log[j]) < n
  {
    if log != [] {
      HighestIsMaximum(log[..|log| - 1], k, n);
    }
  }

  ghost predicate WindowHolds(g: Gateway) {
    forall k :: Last(g.window, k) == Highest(g.log, k)
  }

  ghost predicate VerdictsHold(log: seq<Attempt>) {
    forall i :: 0 <= i < |log| ==> (log[i].accepted <==> Highest(log[..i], Key(log[i])) < Seqno(log[i]))
  }

  lemma {:induction false} RunInvariant(events: seq<Event>)
    ensures WindowHolds(Run(events)) && VerdictsHold(Run(events).log)
  {
    if events != [] {
      var e, g := events[|events| - 1], Run(events[..|events| - 1]);
      RunInvariant(events[..|events| - 1]);
      if e.Commit? && e.handler in g.pending {
        CommitKeeps(g, e.handler);
      }
    }
  }

  lemma CommitKeeps(g: Gateway, h: nat)
    requires WindowHolds(g) && VerdictsHold(g.log) && h in g.pending
    ensures WindowHolds(Step(g, Commit(h))) && VerdictsHold(Step(g, Commit(h)).log)
  {
    var f := g.pending[h];
    var t := Attempt(f, f.aad.seqno > Last(g.window, f.aad.Key()));
    forall k
      ensures Last(Admit(g.window, f.aad), k) == Highest(g.log + [t], k)
    {
      HighestAppended(g.log, t, k);
    }
    VerdictsAppended(g.log, t);
  }

  lemma HighestAppended(log: seq<Attempt>, t: Attempt, k: DeviceKey)
    ensures Highest(log + [t], k) == if Key(t) == k && Seqno(t) > Highest(log, k) then Seqno(t) else Highest(log, k)
  {
    assert (log + [t])[..|log|] == log;
  }

  lemma VerdictsAppended(log: seq<Attempt>, t: Attempt)
    requires VerdictsHold(log) && (t.accepted <==> Highest(log, Key(t)) < Seqno(t))
    ensures VerdictsHold(log + [t])
  {
    assert (log + [t])[..|log|] == log;
    assert forall i :: 0 <= i < |log| ==> (log + [t])[..i] == log[..i];
  }

  /** An attempt is accepted exactly when its number is above every earlier one of its device. */
  lemma AcceptedExactly(events: seq<Event>, i: nat)
    requires i < |Run(events).log|
    ensures var log := Run(events).log;
            log[i].accepted <==>
              Seqno(log[i]) > 0 && forall j :: 0 <= j < i && Key(log[j]) == Key(log[i]) ==> Seqno(log[j]) < Seqno(log[i])
  {
    var log := Run(events).log;
    RunInvariant(events);
    HighestIsMaximum(log[..i], Key(log[i]), Seqno(log[i]));
  }

  /** In every interleaving the accepted numbers of a device strictly increase. */
  lemma AcceptedIncrease(events: seq<Event>, i: nat, j: nat)
    requires i < j < |Run(events).log|
    requires Run(events).log[i].accepted && Run(events).log[j].accepted
    requires Key(Run(events).log[i]) == Key(Run(events).log[j])
    ensures Seqno(Run(events).log[i]) < Seqno(Run(events).log[j])
  {
    AcceptedExactly(events, j);
  }

  /** No frame is accepted twice, however often and through whichever handlers it is replayed. */
  lemma NeverTwice(events: seq<Event>, i: nat, j: nat)
    requires i < |Run(events).log| && j < |Run(events).log|
    requires Run(events).log[i].accepted && Run(events).log[j].accepted
    requires Run(events).log[i].frame.aad == Run(events).log[j].frame.aad
    ensures i == j
  {
    if i < j {
      AcceptedIncrease(events, i, j);
    } else if j < i {
      AcceptedIncrease(events, j, i);
    }
  }

  // ----- Injected junk -----

  predicate Junk(e: Event) {
    e.Arrive? && Verified(e.cipher, e.buf).Err?
  }

  function WithoutJunk(events: seq<Event>): seq<Event> {
    if events == [] then []
    else
      var e := events[|events| - 1];
      WithoutJunk(events[..|events| - 1]) + if Junk(e) then [] else [e]
  }

  /** Unauthenticated envelopes change nothing: the run is the run without them. */
  lemma {:induction false} JunkChangesNothing(events: seq<Event>)
    ensures Run(WithoutJunk(events)) == Run(events)
  {
    if events != [] {
      var e, rest := events[|events| - 1], events[..|events| - 1];
      JunkChangesNothing(rest);
      var kept := WithoutJunk(rest);
      if Junk(e) {
        assert kept + [] == kept;
      } else {
        assert (kept + [e])[..|kept|] == kept;
      }
    }
  }

  // ----- The sender's numbering -----

  function Count(issued: seq<OtAad>, k: DeviceKey): nat {
    if issued == [] then 0
    else Count(issued[..|issued| - 1], k) + if issued[|issued| - 1].Key() == k then 1 else 0
  }

  lemma {:induction false} CountMonotone(issued: seq<OtAad>, n: nat, k: DeviceKey)
    requires n <= |issued|
    ensures Count(issued[..n], k) <= Count(issued, k)
  {
    if n < |issued| {
      CountMonotone(issued[..|issued| - 1], n, k);
      assert issued[..|issued| - 1][..n] == issued[..n];
    } else {
      assert issued[..n] == issued;
    }
  }

  /** Numbers of a device run from one without a gap. */
  ghost predicate Numbered(issued: seq<OtAad>) {
    forall n :: 0 <= n < |issued| ==> issued[n].seqno == Count(issued[..n], issued[n].Key()) + 1
  }

  lemma {:induction false} LastIsCount(requests: seq<DeviceKey>, k: DeviceKey)
    ensures Last(Issue(requests).last, k) == Count(Issue(requests).issued, k)
  {
    if requests != [] {
      var s, r := Issue(requests[..|requests| - 1]), requests[|requests| - 1];
      LastIsCount(requests[..|requests| - 1], k);
      CountAppended(s.issued, OtAad(r.0, r.1, Last(Issue(requests).last, r)), k);
    }
  }

  lemma CountAppended(issued: seq<OtAad>, a: OtAad, k: DeviceKey)
    ensures Count(issued + [a], k) == Count(issued, k) + if a.Key() == k then 1 else 0
  {
    assert (issued + [a])[..|issued|] == issued;
  }

  lemma {:induction false} IssueNumbers(requests: seq<DeviceKey>)
    ensures Numbered(Issue(requests).issued)
  {
    if requests != [] {
      var s, k := Issue(requests[..|requests| - 1]), requests[|requests| - 1];
      IssueNumbers(requests[..|requests| - 1]);
      LastIsCount(requests[..|requests| - 1], k);
      var next := Number(s, k);
      if next.issued != s.issued {
        NumberedAppended(s.issued, OtAad(k.0, k.1, Last(next.last, k)));
      }
    }
  }

  /** Every request gets a number, unless some device has used all 2^64 - 1 of them. */
  lemma {:induction false} EveryRequestNumbered(requests: seq<DeviceKey>)
    ensures var s := Issue(requests);
            && (!s.poisoned ==> |s.issued| == |requests| && forall n :: 0 <= n < |requests| ==> s.issued[n].Key() == requests[n])
            && (s.poisoned ==> exists k :: Count(s.issued, k) == 0xFFFF_FFFF_FFFF_FFFF)
  {
    if requests != [] {
      var s, k := Issue(requests[..|requests| - 1]), requests[|requests| - 1];
      EveryRequestNumbered(requests[..|requests| - 1]);
      LastIsCount(requests[..|requests| - 1], k);
    }
  }

  lemma NumberedAppended(issued: seq<OtAad>, a: OtAad)
    requires Numbered(issued) && a.seqno == Count(issued, a.Key()) + 1
    ensures Numbered(issued + [a])
  {
    assert (issued + [a])[..|issued|] == issued;
    assert forall n :: 0 <= n < |issued| ==> (issued + [a])[..n] == issued[..n];
  }

  /** For one device, the order of numbers is the order of issue. */
  lemma IssueOrder(requests: seq<DeviceKey>, m: nat, n: nat)
    requires m < |Issue(requests).issued| && n < |Issue(requests).issued|
    requires Issue(requests).issued[m].Key() == Issue(requests).issued[n].Key()
    ensures Issue(requests).issued[m].seqno < Issue(requests).issued[n].seqno <==> m < n
  {
    IssueNumbers(requests);
    var issued := Issue(requests).issued;
    if m < n {
      EarlierCount(issued, m, n);
    } else if n < m {
      EarlierCount(issued, n, m);
    }
  }

  lemma EarlierCount(issued: seq<OtAad>, m: nat, n: nat)
    requires m < n < |issued| && issued[m].Key() == issued[n].Key()
    ensures Count(issued[..m], issued[m].Key()) < Count(issued[..n], issued[n].Key())
  {
    assert issued[..n][..m + 1] == issued[..m + 1];
    assert issued[..m + 1][..m] == issued[..m];
    CountMonotone(issued[..n], m + 1, issued[m].Key());
  }

  // ----- Genuine traffic -----

  /** Every envelope that verifies carries associated data the sender issued. */
  ghost predicate NoForgery(events: seq<Event>, issued: seq<OtAad>) {
    forall i :: 0 <= i < |events| && events[i].Arrive? ==> Genuine(events[i], issued)
  }

  ghost predicate Genuine(e: Event, issued: seq<OtAad>)
    requires e.Arrive?
  {
    Verified(e.cipher, e.buf).Ok? ==> Verified(e.cipher, e.buf).value.aad in issued
  }

  lemma {:induction false} OnlyGenuine(events: seq<Event>, issued: seq<OtAad>)
    requires NoForgery(events, issued)
    ensures forall h :: h in Run(events).pending ==> Run(events).pending[h].aad in issued
    ensures forall i :: 0 <= i < |Run(events).log| ==> Run(events).log[i].frame.aad in issued
  {
    if events != [] {
      OnlyGenuine(events[..|events| - 1], issued);
    }
  }

  /** The frame of the attempt has number `n` in the order of issue. */
  ghost predicate IssuedAs(requests: seq<DeviceKey>, t: Attempt, n: nat) {
    n < |Issue(requests).issued| && Issue(requests).issued[n] == t.frame.aad
  }

  ghost predicate IssuedBefore(requests: seq<DeviceKey>, t: Attempt, n: nat) {
    forall m: nat :: IssuedAs(requests, t, m) ==> m < n
  }

  lemma BeforeMeansBelow(requests: seq<DeviceKey>, t: Attempt, u: Attempt, n: nat)
    requires t.frame.aad in Issue(requests).issued && IssuedAs(requests, u, n) && Key(t) == Key(u)
    ensures IssuedBefore(requests, t, n) <==> Seqno(t) < Seqno(u)
  {
    var m :| 0 <= m < |Issue(requests).issued| && Issue(requests).issued[m] == t.frame.aad;
    assert IssuedAs(requests, t, m);
    IssueOrder(requests, m, n);
    forall l: nat | IssuedAs(requests, t, l)
      ensures l == m
    {
      IssueOrder(requests, l, m);
      IssueOrder(requests, m, l);
    }
  }

  lemma NumberedFromOne(requests: seq<DeviceKey>, t: Attempt, n: nat)
    requires IssuedAs(requests, t, n)
    ensures Seqno(t) > 0
  {
    IssueNumbers(requests);
  }

  /**
   Without forgeries, a frame is accepted exactly when every frame of its device committed
   before it was issued before it, whatever was lost, injected or replayed in between.
   */
  lemma AcceptedInOrder(events: seq<Event>, requests: seq<DeviceKey>, i: nat, n: nat)
    requires NoForgery(events, Issue(requests).issued)
    requires i < |Run(events).log| && IssuedAs(requests, Run(events).log[i], n)
    ensures var log := Run(events).log;
            log[i].accepted <==>
              forall j :: 0 <= j < i && Key(log[j]) == Key(log[i]) ==> IssuedBefore(requests, log[j], n)
  {
    var log := Run(events).log;
    AcceptedExactly(events, i);
    OnlyGenuine(events, Issue(requests).issued);
    NumberedFromOne(requests, log[i], n);
    forall j | 0 <= j < i && Key(log[j]) == Key(log[i])
      ensures IssuedBefore(requests, log[j], n) <==> Seqno(log[j]) < Seqno(log[i])
    {
      BeforeMeansBelow(requests, log[j], log[i], n);
    }
  }
}
