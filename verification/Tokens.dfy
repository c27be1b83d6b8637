/**
 Token emission and recovery. A nonce fixes a schedule: which ciphertext positions carry noise,
 and the key element and addend of every slot. Encoder and decoder walk it in lock-step.
 A run of noise has at most 19 positions (MAX_NOISE_RUN), so a slot takes at most 20 tokens.
 */
module Tokens {
  import opened Arithmetic
  import opened Bytes
  import Primes

  datatype Schedule = Schedule(
    noise: nat -> bool,
    key: nat -> nat,
    addend: nat -> nat,
    noiseChar: nat -> nat,
    noiseAddend: (nat, nat) -> nat)
  {
    /** What a valid key gives: elements in range, addends strictly below their element. */
    ghost predicate Valid() {
      && (forall r: nat :: 2 <= key(r) <= Primes.MAX_KEY_PRIME)
      && (forall r: nat :: 1 <= addend(r) < key(r))
      && (forall p: nat :: 32 <= noiseChar(p) < 128)
      && (forall p: nat, k: nat :: 2 <= k ==> 1 <= noiseAddend(p, k) < k)
    }

    function RealToken(c: nat, r: nat): nat {
      Affine(c, key(r), addend(r))
    }

    /** The decoy at position `p` while slot `r` is next. */
    function NoiseToken(p: nat, r: nat): nat {
      Affine(noiseChar(p), key(r), noiseAddend(p, key(r)))
    }
  }

  function Affine(c: nat, k: nat, a: nat): nat {
    assert c * k >= 0;
    c * k + a
  }

  // ----- The hidden schedule -----

  /** Where the noise run at `pos` ends, `run` of its at most 19 positions already passed. */
  function RunEnd(s: Schedule, pos: nat, run: nat): (end: nat)
    requires run <= 19
    ensures pos <= end <= pos + 19 - run
    decreases 19 - run
  {
    if run < 19 && s.noise(pos) then RunEnd(s, pos + 1, run + 1) else pos
  }

  /** The run is the longest stretch of noise positions, cut at the cap. */
  lemma {:induction false} RunLongest(s: Schedule, pos: nat, run: nat)
    requires run <= 19
    ensures forall i :: pos <= i < RunEnd(s, pos, run) ==> s.noise(i)
    ensures RunEnd(s, pos, run) == pos + 19 - run || !s.noise(RunEnd(s, pos, run))
    decreases 19 - run
  {
    if run < 19 && s.noise(pos) {
      RunLongest(s, pos + 1, run + 1);
    }
  }

  /** The scan position on entering slot `r`. */
  function SlotStart(s: Schedule, r: nat): nat
    decreases r, 0
  {
    if r == 0 then 0 else SlotPos(s, r - 1) + 1
  }

  /** The position of the real token of slot `r`. */
  function SlotPos(s: Schedule, r: nat): nat
    decreases r, 1
  {
    RunEnd(s, SlotStart(s, r), 0)
  }

  /** The scan never runs ahead of 20 tokens a slot, whatever the noise oracle says. */
  lemma {:induction false} LockStepBound(s: Schedule, r: nat)
    ensures r <= SlotStart(s, r) <= 20 * r
    ensures SlotPos(s, r) < 20 * (r + 1)
  {
    if r > 0 {
      LockStepBound(s, r - 1);
    }
  }

  lemma {:induction false} SlotsAscend(s: Schedule, q: nat, r: nat)
    requires q < r
    ensures SlotPos(s, q) < SlotStart(s, r) <= SlotPos(s, r)
  {
    if q < r - 1 {
      SlotsAscend(s, q, r - 1);
    }
  }

  // ----- Emission -----

  function NoiseTokens(s: Schedule, from: nat, to: nat, r: nat): (t: seq<nat>)
    requires from <= to
    ensures |t| == to - from
  {
    seq<nat>(to - from, i requires 0 <= i < to - from => s.NoiseToken(from + i, r))
  }

  /** The tokens of the first `r` slots: each slot's decoys, then its real token. */
  function Slots(s: Schedule, cs: seq<nat>, r: nat): (t: seq<nat>)
    requires r <= |cs|
    ensures |t| == SlotStart(s, r)
  {
    if r == 0 then []
    else
      Slots(s, cs, r - 1) + NoiseTokens(s, SlotStart(s, r - 1), SlotPos(s, r - 1), r - 1) + [s.RealToken(cs[r - 1], r - 1)]
  }

  /** All tokens of a chunk, topped up with decoys to the fixed ceiling. */
  function Emitted(s: Schedule, cs: seq<nat>): (t: seq<nat>)
    ensures |t| == 20 * |cs|
  {
    LockStepBound(s, |cs|);
    Slots(s, cs, |cs|) + NoiseTokens(s, SlotStart(s, |cs|), 20 * |cs|, |cs|)
  }

  lemma SlotAppended(before: seq<nat>, decoys: seq<nat>, token: nat, p: nat)
    requires |before| <= p <= |before| + |decoys|
    ensures (before + decoys + [token])[p] == if p == |before| + |decoys| then token else decoys[p - |before|]
  {
  }

  lemma LastSlotAt(s: Schedule, cs: seq<nat>, r: nat, p: nat)
    requires r < |cs| && SlotStart(s, r) <= p <= SlotPos(s, r)
    ensures Slots(s, cs, r + 1)[p] == if p == SlotPos(s, r) then s.RealToken(cs[r], r) else s.NoiseToken(p, r)
  {
    SlotAppended(Slots(s, cs, r), NoiseTokens(s, SlotStart(s, r), SlotPos(s, r), r), s.RealToken(cs[r], r), p);
  }

  lemma {:induction false} SlotsAt(s: Schedule, cs: seq<nat>, r: nat, q: nat, p: nat)
    requires q < r <= |cs| && SlotStart(s, q) <= p <= SlotPos(s, q)
    ensures p < SlotStart(s, r)
    ensures Slots(s, cs, r)[p] == if p == SlotPos(s, q) then s.RealToken(cs[q], q) else s.NoiseToken(p, q)
  {
    SlotsAscend(s, q, r);
    if q < r - 1 {
      SlotsAt(s, cs, r - 1, q, p);
      SlotsAppend(s, cs, r - 1);
    } else {
      LastSlotAt(s, cs, q, p);
    }
  }

  lemma SlotsAppend(s: Schedule, cs: seq<nat>, r: nat)
    requires r < |cs|
    ensures Slots(s, cs, r) <= Slots(s, cs, r + 1)
  {
  }

  /** Slot `q` holds position `p`: its run and its real token, or the top-up when `q` is the number of slots. */
  predicate InSlot(s: Schedule, count: nat, q: nat, p: nat) {
    SlotStart(s, q) <= p && (q == count || (q < count && p <= SlotPos(s, q)))
  }

  lemma EmittedInSlot(s: Schedule, cs: seq<nat>, q: nat, p: nat)
    requires p < 20 * |cs| && InSlot(s, |cs|, q, p)
    ensures Emitted(s, cs)[p] == if q < |cs| && p == SlotPos(s, q) then s.RealToken(cs[q], q) else s.NoiseToken(p, q)
  {
    LockStepBound(s, |cs|);
    if q < |cs| {
      SlotsAt(s, cs, |cs|, q, p);
    }
  }

  lemma {:induction false} SlotOf(s: Schedule, count: nat, p: nat) returns (q: nat)
    ensures InSlot(s, count, q, p)
  {
    if SlotStart(s, count) <= p {
      q := count;
    } else {
      q := SlotOf(s, count - 1, p);
    }
  }

  /** Every position lies in a slot, and there is the slot's real token, a decoy of its run, or the top-up. */
  lemma EmittedAt(s: Schedule, cs: seq<nat>, p: nat) returns (q: nat)
    requires p < 20 * |cs|
    ensures InSlot(s, |cs|, q, p)
    ensures Emitted(s, cs)[p] == if q < |cs| && p == SlotPos(s, q) then s.RealToken(cs[q], q) else s.NoiseToken(p, q)
  {
    q := SlotOf(s, |cs|, p);
    EmittedInSlot(s, cs, q, p);
  }

  lemma RealAt(s: Schedule, cs: seq<nat>, q: nat)
    requires q < |cs|
    ensures SlotPos(s, q) < |Emitted(s, cs)| && Emitted(s, cs)[SlotPos(s, q)] == s.RealToken(cs[q], q)
  {
    LockStepBound(s, q);
    assert 20 * (q + 1) <= 20 * |cs|;
    EmittedInSlot(s, cs, q, SlotPos(s, q));
  }

  lemma AffineBound(c: nat, k: nat, a: nat)
    requires c <= 0x10FFFF && k <= Primes.MAX_KEY_PRIME && a < k
    ensures Affine(c, k, a) < 0x1000_0000_0000
  {
    assert c * k <= 0x10FFFF * k;
    assert 0x10FFFF * k <= 0x10FFFF * Primes.MAX_KEY_PRIME;
  }

  ghost predicate AllBelow(t: seq<nat>, bound: nat) {
    forall i :: 0 <= i < |t| ==> t[i] < bound
  }

  lemma {:induction false} SlotsBelow(s: Schedule, cs: seq<nat>, r: nat)
    requires s.Valid() && r <= |cs| && forall i :: 0 <= i < |cs| ==> cs[i] <= 0x10FFFF
    ensures AllBelow(Slots(s, cs, r), 0x1000_0000_0000)
  {
    if r > 0 {
      SlotsBelow(s, cs, r - 1);
      NoiseBelow(s, SlotStart(s, r - 1), SlotPos(s, r - 1), r - 1);
      AffineBound(cs[r - 1], s.key(r - 1), s.addend(r - 1));
    }
  }

  lemma NoiseBelow(s: Schedule, from: nat, to: nat, r: nat)
    requires s.Valid() && from <= to
    ensures AllBelow(NoiseTokens(s, from, to, r), 0x1000_0000_0000)
  {
    forall p: nat
      ensures s.NoiseToken(p, r) < 0x1000_0000_0000
    {
      AffineBound(s.noiseChar(p), s.key(r), s.noiseAddend(p, s.key(r)));
    }
  }

  /** No token product wraps 64 bits: every emitted token is below 2^44. */
  lemma EmittedBelow(s: Schedule, cs: seq<scalar>)
    requires s.Valid()
    ensures AllBelow(Emitted(s, cs), 0x1000_0000_0000)
  {
    LockStepBound(s, |cs|);
    SlotsBelow(s, cs, |cs|);
    NoiseBelow(s, SlotStart(s, |cs|), 20 * |cs|, |cs|);
  }

  lemma NoiseAppend(s: Schedule, from: nat, to: nat, r: nat)
    requires from <= to
    ensures NoiseTokens(s, from, to + 1, r) == NoiseTokens(s, from, to, r) + [s.NoiseToken(to, r)]
  {
  }

  /** One codepoint's turn of the emission loop: its noise run, then its own token. */
  method EmitSlot(s: Schedule, c: nat, realIdx: nat, start: nat) returns (slot: seq<nat>, ctPos: nat)
    ensures slot == NoiseTokens(s, start, RunEnd(s, start, 0), realIdx) + [s.RealToken(c, realIdx)]
    ensures ctPos == RunEnd(s, start, 0) + 1
  {
    slot, ctPos := [], start;
    var noiseRun := 0;
    while noiseRun < 19 && s.noise(ctPos)
      invariant noiseRun <= 19 && start <= ctPos
      invariant RunEnd(s, ctPos, noiseRun) == RunEnd(s, start, 0)
      invariant slot == NoiseTokens(s, start, ctPos, realIdx)
    {
      NoiseAppend(s, start, ctPos, realIdx);
      slot := slot + [s.NoiseToken(ctPos, realIdx)];
      ctPos := ctPos + 1;
      noiseRun := noiseRun + 1;
    }
    slot := slot + [s.RealToken(c, realIdx)];
    ctPos := ctPos + 1;
  }

  /** The emission loop, with its top-up to the fixed ceiling. */
  method EmitTokens(s: Schedule, padded: seq<nat>) returns (cypher: seq<nat>)
    ensures cypher == Emitted(s, padded)
  {
    var ceiling := |padded| * 20;
    cypher := [];
    var realIdx, ctPos := 0, 0;
    while realIdx < |padded|
      invariant realIdx <= |padded|
      invariant ctPos == SlotStart(s, realIdx)
      invariant cypher == Slots(s, padded, realIdx)
    {
      var slot, next := EmitSlot(s, padded[realIdx], realIdx, ctPos);
      SlotsNext(s, padded, realIdx, slot);
      cypher := cypher + slot;
      realIdx, ctPos := realIdx + 1, next;
    }
    LockStepBound(s, realIdx);
    cypher := TopUp(s, cypher, realIdx, ceiling);
  }

  /** Fill up with decoys to the fixed ceiling. */
  method TopUp(s: Schedule, emitted: seq<nat>, realIdx: nat, ceiling: nat) returns (cypher: seq<nat>)
    requires |emitted| <= ceiling
    ensures cypher == emitted + NoiseTokens(s, |emitted|, ceiling, realIdx)
  {
    cypher := emitted;
    while |cypher| < ceiling
      invariant |emitted| <= |cypher| <= ceiling
      invariant cypher == emitted + NoiseTokens(s, |emitted|, |cypher|, realIdx)
    {
      NoiseAppend(s, |emitted|, |cypher|, realIdx);
      cypher := cypher + [s.NoiseToken(|cypher|, realIdx)];
    }
  }

  lemma SlotsNext(s: Schedule, cs: seq<nat>, r: nat, slot: seq<nat>)
    requires r < |cs|
    requires slot == NoiseTokens(s, SlotStart(s, r), SlotPos(s, r), r) + [s.RealToken(cs[r], r)]
    ensures Slots(s, cs, r + 1) == Slots(s, cs, r) + slot
  {
    var decoys := NoiseTokens(s, SlotStart(s, r), SlotPos(s, r), r);
    assert Slots(s, cs, r) + decoys + [s.RealToken(cs[r], r)] == Slots(s, cs, r) + (decoys + [s.RealToken(cs[r], r)]);
  }

  // ----- Recovery -----

  datatype TokenError = Truncated | NotAffine(pos: nat) | NotScalar(pos: nat)

  /** Invert one real token, refusing every value that no codepoint produces. */
  function Recover(token: nat, k: nat, a: nat, pos: nat): Result<scalar, TokenError>
    requires k > 0
  {
    if token < a || (token - a) % k != 0 then Err(NotAffine(pos))
    else if !IsScalar((token - a) / k) then Err(NotScalar(pos))
    else Ok((token - a) / k)
  }

  /** A token is accepted exactly when it is a codepoint's own token. */
  lemma RecoverExact(token: nat, k: nat, a: nat, pos: nat, c: scalar)
    requires 0 < k
    ensures Recover(token, k, a, pos) == Ok(c) <==> token == Affine(c, k, a)
  {
    if token == Affine(c, k, a) {
      DivideMultiple(c, k);
    } else if token >= a && (token - a) % k == 0 {
      assert token - a == (token - a) / k * k;
    }
  }

  /** Slots `r` up to `count`, from a token vector of any length. */
  function RecoverFrom(s: Schedule, tokens: seq<nat>, r: nat, count: nat): Result<seq<scalar>, TokenError>
    requires s.Valid() && r <= count
    decreases count - r
  {
    if r == count then Ok([])
    else if SlotPos(s, r) >= |tokens| then Err(Truncated)
    else
      match Recover(tokens[SlotPos(s, r)], s.key(r), s.addend(r), SlotPos(s, r))
      case Err(e) => Err(e)
      case Ok(c) =>
        Prepend([c], RecoverFrom(s, tokens, r + 1, count))
  }

  function Prepend(cs: seq<scalar>, rest: Result<seq<scalar>, TokenError>): Result<seq<scalar>, TokenError> {
    match rest
    case Ok(tail) => Ok(cs + tail)
    case Err(e) => Err(e)
  }

  ghost predicate SameSlots(s: Schedule, t: seq<nat>, u: seq<nat>, count: nat) {
    && |t| == |u| == 20 * count
    && forall r: nat :: r < count && SlotPos(s, r) < 20 * count ==> t[SlotPos(s, r)] == u[SlotPos(s, r)]
  }

  /** On a full-length vector the scan cannot run out, and only the scheduled tokens matter. */
  lemma {:induction false} LockStep(s: Schedule, t: seq<nat>, u: seq<nat>, r: nat, count: nat)
    requires s.Valid() && r <= count && SameSlots(s, t, u, count)
    ensures RecoverFrom(s, t, r, count) != Err(Truncated)
    ensures RecoverFrom(s, t, r, count) == RecoverFrom(s, u, r, count)
    decreases count - r
  {
    if r < count {
      LockStepBound(s, r);
      assert 20 * (r + 1) <= 20 * count;
      LockStep(s, t, u, r + 1, count);
    }
  }

  ghost predicate Carries(s: Schedule, tokens: seq<nat>, r: nat, cs: seq<scalar>) {
    forall q :: r <= q < r + |cs| ==>
      SlotPos(s, q) < |tokens| && tokens[SlotPos(s, q)] == s.RealToken(cs[q - r], q)
  }

  /** Recovery succeeds with `cs` exactly when the scheduled tokens are those of `cs`. */
  lemma {:induction false} RecoveredExactly(s: Schedule, tokens: seq<nat>, r: nat, count: nat, cs: seq<scalar>)
    requires s.Valid() && r <= count
    ensures RecoverFrom(s, tokens, r, count) == Ok(cs) <==> |cs| == count - r && Carries(s, tokens, r, cs)
    decreases count - r
  {
    if r < count && cs != [] {
      RecoveredExactly(s, tokens, r + 1, count, cs[1..]);
      CarriesSplit(s, tokens, r, cs);
      if SlotPos(s, r) < |tokens| {
        RecoverExact(tokens[SlotPos(s, r)], s.key(r), s.addend(r), SlotPos(s, r), cs[0]);
      }
      assert cs == [cs[0]] + cs[1..];
    }
  }

  lemma CarriesSplit(s: Schedule, tokens: seq<nat>, r: nat, cs: seq<scalar>)
    requires cs != []
    ensures Carries(s, tokens, r, cs) <==>
            && SlotPos(s, r) < |tokens| && tokens[SlotPos(s, r)] == s.RealToken(cs[0], r)
            && Carries(s, tokens, r + 1, cs[1..])
  {
    if Carries(s, tokens, r, cs) {
      forall q | r + 1 <= q < r + |cs|
        ensures SlotPos(s, q) < |tokens| && tokens[SlotPos(s, q)] == s.RealToken(cs[1..][q - r - 1], q)
      {
      }
    } else if SlotPos(s, r) < |tokens| && tokens[SlotPos(s, r)] == s.RealToken(cs[0], r) && Carries(s, tokens, r + 1, cs[1..]) {
      forall q | r <= q < r + |cs|
        ensures SlotPos(s, q) < |tokens| && tokens[SlotPos(s, q)] == s.RealToken(cs[q - r], q)
      {
        assert q > r ==> cs[q - r] == cs[1..][q - r - 1];
      }
    }
  }

  /** What was emitted is recovered. */
  lemma TokenRoundTrip(s: Schedule, cs: seq<scalar>)
    requires s.Valid()
    ensures RecoverFrom(s, Emitted(s, cs), 0, |cs|) == Ok(cs)
  {
    forall i | 0 <= i < |cs| {
      RealAt(s, cs, i);
    }
    RecoveredExactly(s, Emitted(s, cs), 0, |cs|, cs);
  }

  lemma PrependNothing(rest: Result<seq<scalar>, TokenError>)
    ensures Prepend([], rest) == rest
  {
    if rest.Ok? {
      assert [] + rest.value == rest.value;
    }
  }

  lemma PrependTwice(cs: seq<scalar>, c: scalar, rest: Result<seq<scalar>, TokenError>)
    ensures Prepend(cs, Prepend([c], rest)) == Prepend(cs + [c], rest)
  {
    if rest.Ok? {
      assert cs + ([c] + rest.value) == cs + [c] + rest.value;
    }
  }

  lemma RecoverStep(s: Schedule, tokens: seq<nat>, r: nat, count: nat, pos: nat, cp: Result<scalar, TokenError>)
    requires s.Valid() && r < count && pos == SlotPos(s, r) < |tokens|
    requires cp == Recover(tokens[pos], s.key(r), s.addend(r), pos)
    ensures RecoverFrom(s, tokens, r, count) ==
            match cp case Err(e) => Err(e) case Ok(c) => Prepend([c], RecoverFrom(s, tokens, r + 1, count))
    ensures SlotStart(s, r + 1) == pos + 1
  {
  }

  /** Skip the noise run that starts at `start`, at most 19 tokens and never past the end. */
  method SkipRun(s: Schedule, tokens: seq<nat>, start: nat) returns (ctPos: nat)
    requires start <= |tokens|
    ensures ctPos <= |tokens|
    ensures ctPos < |tokens| ==> ctPos == RunEnd(s, start, 0)
    ensures ctPos == |tokens| ==> RunEnd(s, start, 0) >= |tokens|
  {
    ctPos := start;
    var noiseRun := 0;
    while noiseRun < 19 && ctPos < |tokens| && s.noise(ctPos)
      invariant noiseRun <= 19 && ctPos <= |tokens|
      invariant RunEnd(s, ctPos, noiseRun) == RunEnd(s, start, 0)
    {
      ctPos := ctPos + 1;
      noiseRun := noiseRun + 1;
    }
  }

  /** The recovery loop. */
  method RecoverTokens(s: Schedule, tokens: seq<nat>, count: nat) returns (res: Result<seq<scalar>, TokenError>)
    requires s.Valid()
    ensures res == RecoverFrom(s, tokens, 0, count)
  {
    var padded: seq<scalar> := [];
    var realIdx, ctPos := 0, 0;
    PrependNothing(RecoverFrom(s, tokens, 0, count));
    while realIdx < count
      invariant realIdx <= count && ctPos == SlotStart(s, realIdx)
      invariant ctPos <= |tokens|
      invariant RecoverFrom(s, tokens, 0, count) == Prepend(padded, RecoverFrom(s, tokens, realIdx, count))
    {
      ctPos := SkipRun(s, tokens, ctPos);
      if ctPos >= |tokens| {
        return Err(Truncated);
      }
      var cp := Recover(tokens[ctPos], s.key(realIdx), s.addend(realIdx), ctPos);
      RecoverStep(s, tokens, realIdx, count, ctPos, cp);
      if cp.Err? {
        return Err(cp.error);
      }
      PrependTwice(padded, cp.value, RecoverFrom(s, tokens, realIdx + 1, count));
      padded := padded + [cp.value];
      ctPos := ctPos + 1;
      realIdx := realIdx + 1;
    }
    assert padded + [] == padded;
    return Ok(padded);
  }

  // ----- Fixed-width serialisation -----

  /** Eight bytes a token. */
  function Encoded(tokens: seq<nat>): (b: seq<byte>)
    ensures |b| == 8 * |tokens|
  {
    if tokens == [] then [] else Encoded(tokens[..|tokens| - 1]) + BE(tokens[|tokens| - 1], 8)
  }

  function Decoded(blob: seq<byte>): seq<nat>
    requires |blob| % 8 == 0
  {
    seq(|blob| / 8, i requires 0 <= i < |blob| / 8 => FromBE(blob[8 * i..8 * i + 8]))
  }

  lemma {:induction false} FieldAt(tokens: seq<nat>, i: nat)
    requires i < |tokens|
    ensures Encoded(tokens)[8 * i..8 * i + 8] == BE(tokens[i], 8)
  {
    var rest := tokens[..|tokens| - 1];
    if i < |rest| {
      FieldAt(rest, i);
      assert Encoded(tokens)[8 * i..8 * i + 8] == Encoded(rest)[8 * i..8 * i + 8];
    }
  }

  lemma TokenFits(t: nat)
    requires t < 0x1_0000_0000_0000_0000
    ensures FromBE(BE(t, 8)) == t
  {
    FieldSizes();
    ReadBack(t, 8);
  }

  /** Every vector of 64-bit tokens is read back. */
  lemma EncodingRoundTrip(tokens: seq<nat>)
    requires AllBelow(tokens, 0x1_0000_0000_0000_0000)
    ensures Decoded(Encoded(tokens)) == tokens
  {
    forall i | 0 <= i < |tokens|
      ensures Decoded(Encoded(tokens))[i] == tokens[i]
    {
      FieldAt(tokens, i);
      TokenFits(tokens[i]);
    }
  }

  method EncodeTokens(tokens: seq<nat>) returns (out: seq<byte>)
    ensures out == Encoded(tokens)
  {
    out := [];
    for n := 0 to |tokens|
      invariant out == Encoded(tokens[..n])
    {
      out := out + BE(tokens[n], 8);
      assert tokens[..n + 1][..n] == tokens[..n];
    }
    assert tokens[..|tokens|] == tokens;
  }

  method DecodeTokens(blob: seq<byte>) returns (res: Result<seq<nat>, ()>)
    ensures res == if |blob| % 8 == 0 then Ok(Decoded(blob)) else Err(())
  {
    if |blob| % 8 != 0 {
      return Err(());
    }
    var tokens: seq<nat> := [];
    for i := 0 to |blob| / 8
      invariant |tokens| == i
      invariant forall j :: 0 <= j < i ==> tokens[j] == Decoded(blob)[j]
    {
      tokens := tokens + [FromBE(blob[8 * i..8 * i + 8])];
    }
    assert tokens == Decoded(blob);
    return Ok(tokens);
  }
}
