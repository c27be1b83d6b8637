/**
 The incremental Python decoder: byte chunks arrive in any slicing, and a decoded chunk is
 held back until its successor or the sentinel has verified.
 */
module Incremental {
  import opened Bytes
  import opened ByteReader
  import opened Stream
  import opened StreamDecode

  datatype ReadError = InHeader(why: StreamError) | InBody(what: StreamError) | IndexOverflow

  /** Between two reads of the generator: what it still has to read, and what it has yielded. */
  datatype Machine =
    | Running(ss: Session, rest: seq<byte>, idx: nat, pending: Option<seq<scalar>>, out: seq<scalar>)
    | Done(out: seq<scalar>)
    | Failed(out: seq<scalar>, error: ReadError)

  /** Reading the header. */
  function Begin(keying: Keying, s: seq<byte>): Machine {
    match HeaderError(s)
    case Some(e) => Failed([], InHeader(e))
    case None => Running(keying(HeaderFrame(s), s[5..21]), s[21..], 0, None, [])
  }

  /** One turn of the loop: a chunk frame or the sentinel. */
  function Step(m: Machine): Machine
    requires m.Running?
  {
    if |m.rest| < 4 then Failed(m.out, InBody(Truncated))
    else if FromBE(m.rest[..4]) == 0 then StepSentinel(m)
    else StepChunk(m, FromBE(m.rest[..4]))
  }

  function StepSentinel(m: Machine): Machine
    requires m.Running? && |m.rest| >= 4
  {
    if |m.rest| < 44 then Failed(m.out, InBody(Truncated))
    else if m.idx > 0xFFFF_FFFF then Failed(m.out, IndexOverflow)
    else
      var total := UnmaskedTotal(m.ss, m.rest[4..12], m.idx);
      if m.rest[12..44] != m.ss.sentinelTag(m.idx, total) then Failed(m.out, InBody(BadSentinelTag))
      else
        match m.pending
        case None => if total != |m.out| then Failed(m.out, InBody(BadCount)) else Done(m.out)
        case Some(chunk) =>
          if !(|m.out| < total <= |m.out| + |chunk|) then Failed(m.out, InBody(BadCount))
          else Done(m.out + chunk[..total - |m.out|])
  }

  function StepChunk(m: Machine, len: nat): Machine
    requires m.Running? && |m.rest| >= 4
  {
    if len != 160 * m.ss.f then Failed(m.out, InBody(BadFrameLength))
    else if |m.rest| < 36 + len then Failed(m.out, InBody(Truncated))
    else if m.idx > 0xFFFF_FFFF then Failed(m.out, IndexOverflow)
    else if m.rest[4 + len..36 + len] != m.ss.chunkTag(m.idx, m.rest[4..4 + len]) then Failed(m.out, InBody(BadChunkTag(m.idx)))
    else
      match m.ss.open(m.idx, m.rest[4..4 + len])
      case Err(e) => Failed(m.out, InBody(BadChunk(e)))
      case Ok(chunk) => Running(m.ss, m.rest[36 + len..], m.idx + 1, Some(chunk), Decoded(m.out, m.pending))
  }

  /** The state after `n` turns. */
  function After(m: Machine, n: nat): Machine
    decreases n
  {
    if n == 0 || !m.Running? then m else After(Step(m), n - 1)
  }

  /** The state in which the generator stops. */
  function Final(m: Machine): (end: Machine)
    ensures !end.Running?
    decreases if m.Running? then |m.rest| + 1 else 0
  {
    if m.Running? then Final(Step(m)) else m
  }

  class IncrementalDecoder {
    const reader: StreamReader
    var ss: Option<Session>
    var chunkIdx: nat
    var pending: Option<seq<scalar>>
    var deliveredReal: nat
    var yielded: seq<scalar>
    var finished: bool
    var failure: Option<ReadError>

    ghost predicate Valid()
      reads this
    {
      && (failure.None? && !finished ==> ss.Some?)
      && deliveredReal <= |yielded| && (!finished ==> deliveredReal == |yielded|)
    }

    /** The fields as one state of the machine. */
    function State(): Machine
      requires Valid()
      reads this, reader
    {
      if failure.Some? then Failed(yielded, failure.value)
      else if finished then Done(yielded)
      else Running(ss.value, reader.Rest(), chunkIdx, pending, yielded)
    }

    constructor (keying: Keying, byteChunks: seq<seq<byte>>)
      ensures Valid() && fresh(reader)
      ensures State() == Begin(keying, Concat(byteChunks))
    {
      var input := new StreamReader(byteChunks);
      ghost var all := input.Rest();
      var header := input.ReadN(21);
      reader := input;
      chunkIdx, pending, deliveredReal, yielded, finished := 0, None, 0, [], false;
      if header.None? {
        ss, failure := None, Some(InHeader(ShortHeader));
      } else {
        var h := header.value;
        assert h[0] == all[0] && h[1..5] == all[1..5] && h[5..21] == all[5..21];
        var bad := HeaderError(h);
        failure := match bad case None => None case Some(e) => Some(InHeader(e));
        ss := if bad.None? then Some(keying(HeaderFrame(h), h[5..21])) else None;
      }
    }

    method Fail(e: ReadError)
      requires Valid()
      modifies this
      ensures Valid() && State() == Failed(old(yielded), e)
    {
      failure := Some(e);
    }

    /** One turn of the generator's loop. */
    method Advance()
      requires Valid() && State().Running?
      modifies this, reader
      ensures Valid() && State() == Step(old(State()))
    {
      ghost var m := State();
      var prefix := reader.ReadN(4);
      if prefix.None? {
        Fail(InBody(Truncated));
        return;
      }
      var chunkLen := FromBE(prefix.value);
      if chunkLen == 0 {
        AdvanceSentinel(m);
      } else {
        AdvanceChunk(m, chunkLen);
      }
    }

    method AdvanceSentinel(ghost m: Machine)
      requires Valid() && m.Running? && |m.rest| >= 4 && State() == m.(rest := m.rest[4..])
      modifies this, reader
      ensures Valid() && State() == StepSentinel(m)
    {
      var field := reader.ReadN(8);
      if field.None? {
        Fail(InBody(Truncated));
        return;
      }
      var tag := reader.ReadN(32);
      if tag.None? {
        Fail(InBody(Truncated));
        return;
      }
      assert field.value == m.rest[4..12] && tag.value == m.rest[12..44];
      if chunkIdx > 0xFFFF_FFFF {
        Fail(IndexOverflow);
        return;
      }
      var total := UnmaskedTotal(ss.value, field.value, chunkIdx);
      if tag.value != ss.value.sentinelTag(chunkIdx, total) {
        Fail(InBody(BadSentinelTag));
        return;
      }
      var pendingLen := if pending.None? then 0 else |pending.value|;
      var consistent := if pending.None? then total == deliveredReal else deliveredReal < total <= deliveredReal + pendingLen;
      if !consistent {
        Fail(InBody(BadCount));
        return;
      }
      finished := true;
      if pending.Some? {
        yielded := yielded + pending.value[..total - deliveredReal];
      }
    }

    method AdvanceChunk(ghost m: Machine, chunkLen: nat)
      requires Valid() && m.Running? && |m.rest| >= 4 && State() == m.(rest := m.rest[4..])
      modifies this, reader
      ensures Valid() && State() == StepChunk(m, chunkLen)
    {
      if chunkLen != 160 * ss.value.f {
        Fail(InBody(BadFrameLength));
        return;
      }
      var masked := reader.ReadN(chunkLen);
      if masked.None? {
        Fail(InBody(Truncated));
        return;
      }
      var tag := reader.ReadN(32);
      if tag.None? {
        Fail(InBody(Truncated));
        return;
      }
      assert masked.value == m.rest[4..4 + chunkLen] && tag.value == m.rest[4 + chunkLen..36 + chunkLen];
      assert reader.Rest() == m.rest[36 + chunkLen..];
      if chunkIdx > 0xFFFF_FFFF {
        Fail(IndexOverflow);
        return;
      }
      if tag.value != ss.value.chunkTag(chunkIdx, masked.value) {
        Fail(InBody(BadChunkTag(chunkIdx)));
        return;
      }
      var cps := ss.value.open(chunkIdx, masked.value);
      if cps.Err? {
        Fail(InBody(BadChunk(cps.error)));
        return;
      }
      if pending.Some? {
        yielded := yielded + pending.value;
        deliveredReal := deliveredReal + |pending.value|;
      }
      pending := Some(cps.value);
      chunkIdx := chunkIdx + 1;
    }
  }

  lemma StepShrinks(m: Machine)
    requires m.Running?
    ensures Step(m).Running? ==> |Step(m).rest| < |m.rest|
  {
  }

  /** Exhausting the generator: the result depends on the bytes, not on how they were sliced. */
  method DecryptIncremental(keying: Keying, byteChunks: seq<seq<byte>>) returns (out: seq<scalar>, failure: Option<ReadError>)
    ensures match Final(Begin(keying, Concat(byteChunks)))
            case Done(m) => out == m && failure == None
            case Failed(m, e) => out == m && failure == Some(e)
            case Running(_, _, _, _, _) => false
  {
    var d := new IncrementalDecoder(keying, byteChunks);
    while !d.finished && d.failure.None?
      invariant d.Valid() && fresh(d) && fresh(d.reader)
      invariant Final(d.State()) == Final(Begin(keying, Concat(byteChunks)))
      decreases if d.State().Running? then |d.State().rest| + 1 else 0
    {
      StepShrinks(d.State());
      d.Advance();
    }
    return d.yielded, d.failure;
  }

  // ----- Against the sequential decoder -----

  ghost predicate Coherent(m: Machine) {
    m.Running? ==>
      && m.ss.Valid() && (m.pending.None? <==> m.idx == 0) && (m.idx == 0 ==> m.out == [])
      && (m.pending.Some? ==> |m.pending.value| == m.ss.f)
  }

  lemma StepCoherent(m: Machine)
    requires Coherent(m) && m.Running?
    ensures Coherent(Step(m))
  {
  }

  /** A sentinel ends the generator exactly where the sequential decoder accepts and stops. */
  lemma SentinelStops(m: Machine)
    requires Coherent(m) && m.Running? && |m.rest| >= 44 && FromBE(m.rest[..4]) == 0 && m.idx <= 0xFFFF_FFFF
    ensures SequentialFrom(m.ss, m.rest[..44], m.idx, Decoded(m.out, m.pending)) ==
            match StepSentinel(m) case Done(out) => Ok(out) case Failed(_, InBody(e)) => Err(e) case _ => Err(Truncated)
  {
    var head := m.rest[..44];
    assert head[..4] == m.rest[..4] && head[4..][..8] == m.rest[4..12] && head[4..][8..40] == m.rest[12..44];
    if StepSentinel(m).Done? && m.pending.Some? {
      var total := UnmaskedTotal(m.ss, m.rest[4..12], m.idx);
      assert (m.out + m.pending.value)[..total] == m.out + m.pending.value[..total - |m.out|];
    }
  }

  /** One frame leaves both decoders with the same decoded text. */
  lemma ChunkSteps(m: Machine, k: nat)
    requires Coherent(m) && m.Running? && 4 <= k <= |m.rest| && FromBE(m.rest[..4]) != 0
    requires StepChunk(m, FromBE(m.rest[..4])).Running? && m.idx < 0xFFFF_FFFF && k >= FrameLen(m.ss)
    ensures var next := StepChunk(m, FromBE(m.rest[..4]));
            SequentialFrom(m.ss, m.rest[..k], m.idx, Decoded(m.out, m.pending)) ==
            SequentialFrom(next.ss, next.rest[..k - FrameLen(m.ss)], next.idx, Decoded(next.out, next.pending))
  {
    var head := m.rest[..k];
    var len := FromBE(m.rest[..4]);
    assert head[..4] == m.rest[..4] && head[4..][..len] == m.rest[4..4 + len];
    assert head[4..][len..len + 32] == m.rest[4 + len..36 + len];
    assert head[4..][len + 32..] == m.rest[36 + len..][..k - FrameLen(m.ss)];
  }

  /** If the generator completes, the sequential decoder accepts a prefix, with the same text. */
  lemma {:induction false} CompletedPrefix(m: Machine) returns (k: nat)
    requires Coherent(m) && m.Running? && Final(m).Done?
    ensures k <= |m.rest| && m.idx <= 0xFFFF_FFFF
    ensures SequentialFrom(m.ss, m.rest[..k], m.idx, Decoded(m.out, m.pending)) == Ok(Final(m).out)
    decreases |m.rest|
  {
    if FromBE(m.rest[..4]) == 0 {
      SentinelStops(m);
      k := 44;
    } else {
      StepCoherent(m);
      var j := CompletedPrefix(Step(m));
      k := j + FrameLen(m.ss);
      ChunkSteps(m, k);
    }
  }

  /** If the sequential decoder accepts a prefix, the generator completes on it and ignores the rest. */
  lemma {:induction false} PrefixCompletes(m: Machine, k: nat)
    requires Coherent(m) && m.Running? && k <= |m.rest| && m.idx <= 0xFFFF_FFFF
    requires SequentialFrom(m.ss, m.rest[..k], m.idx, Decoded(m.out, m.pending)).Ok?
    ensures Final(m) == Done(SequentialFrom(m.ss, m.rest[..k], m.idx, Decoded(m.out, m.pending)).value)
    decreases |m.rest|
  {
    var head := m.rest[..k];
    assert head[..4] == m.rest[..4];
    if FromBE(m.rest[..4]) == 0 {
      SentinelStops(m);
    } else {
      HeadVerifies(m, k);
      StepCoherent(m);
      ChunkSteps(m, k);
      PrefixCompletes(Step(m), k - FrameLen(m.ss));
    }
  }

  lemma AcceptedNeedsChunk(ss: Session, rest: seq<byte>, idx: nat, cps: seq<scalar>)
    requires |rest| >= 4 && FromBE(rest[..4]) != 0 && SequentialFrom(ss, rest, idx, cps).Ok?
    ensures VerifiedChunk(ss, rest[4..], FromBE(rest[..4]), idx).Ok?
  {
  }

  lemma HeadVerifies(m: Machine, k: nat)
    requires Coherent(m) && m.Running? && 4 <= k <= |m.rest| && m.idx <= 0xFFFF_FFFF && FromBE(m.rest[..4]) != 0
    requires SequentialFrom(m.ss, m.rest[..k], m.idx, Decoded(m.out, m.pending)).Ok?
    ensures k >= FrameLen(m.ss) && m.idx < 0xFFFF_FFFF && StepChunk(m, FromBE(m.rest[..4])).Running?
  {
    var head := m.rest[..k];
    assert head[..4] == m.rest[..4];
    AcceptedNeedsChunk(m.ss, head, m.idx, Decoded(m.out, m.pending));
    HeadPieces(m.rest, k, FromBE(m.rest[..4]));
  }

  lemma HeadPieces(rest: seq<byte>, k: nat, len: nat)
    requires 36 + len <= k <= |rest|
    ensures rest[..k][4..][..len] == rest[4..4 + len] && rest[..k][4..][len..len + 32] == rest[4 + len..36 + len]
  {
  }

  /**
   The generator completes with `out` exactly when some prefix of its input is a stream the
   sequential decoder accepts as `out`: unlike the other ports it never looks past the sentinel.
   */
  lemma CompletesOnPrefix(keying: Keying, s: seq<byte>, out: seq<scalar>)
    requires Sound(keying)
    ensures Final(Begin(keying, s)) == Done(out) <==> exists k :: 0 <= k <= |s| && Sequential(keying, s[..k]) == Ok(out)
  {
    if Final(Begin(keying, s)) == Done(out) {
      var k := AcceptedPrefix(keying, s, out);
    }
    if k :| 0 <= k <= |s| && Sequential(keying, s[..k]) == Ok(out) {
      CompletesOnAccepted(keying, s, out, k);
    }
  }

  lemma AcceptedPrefix(keying: Keying, s: seq<byte>, out: seq<scalar>) returns (k: nat)
    requires Sound(keying) && Final(Begin(keying, s)) == Done(out)
    ensures k <= |s| && Sequential(keying, s[..k]) == Ok(out)
  {
    var n := CompletedPrefix(Begin(keying, s));
    k := 21 + n;
    SameHeader(keying, s, k);
  }

  lemma CompletesOnAccepted(keying: Keying, s: seq<byte>, out: seq<scalar>, k: nat)
    requires Sound(keying) && k <= |s| && Sequential(keying, s[..k]) == Ok(out)
    ensures Final(Begin(keying, s)) == Done(out)
  {
    SameHeader(keying, s, k);
    PrefixCompletes(Begin(keying, s), k - 21);
  }

  lemma SameHeader(keying: Keying, s: seq<byte>, k: nat)
    requires 21 <= k <= |s|
    ensures HeaderError(s[..k]) == HeaderError(s)
    ensures HeaderError(s).None? ==>
              && HeaderFrame(s[..k]) == HeaderFrame(s) && s[..k][5..21] == s[5..21]
              && s[..k][21..] == s[21..][..k - 21]
  {
    assert s[..k][1..5] == s[1..5] && s[..k][5..21] == s[5..21];
  }

  /** Bytes after the sentinel: the generator completes as if they were not there, the sequential decoder refuses. */
  lemma TrailingBytes(keying: Keying, s: seq<byte>, extra: seq<byte>, msg: seq<scalar>)
    requires Sound(keying) && Sequential(keying, s) == Ok(msg) && extra != []
    ensures Final(Begin(keying, s + extra)) == Done(msg)
    ensures Sequential(keying, s + extra).Err?
  {
    assert (s + extra)[..|s|] == s;
    CompletesOnAccepted(keying, s + extra, msg, |s|);
    LongerRefused(keying, s, s + extra, extra);
  }

  lemma LongerRefused(keying: Keying, s: seq<byte>, all: seq<byte>, extra: seq<byte>)
    requires Sequential(keying, s).Ok? && extra != [] && all == s + extra
    ensures Sequential(keying, all).Err?
  {
    assert all[..|s|] == s && all[21..] == s[21..] + extra;
    SameHeader(keying, all, |s|);
    TrailingRefused(keying(HeaderFrame(s), s[5..21]), s[21..], extra, 0, []);
  }

  lemma {:induction false} TrailingRefused(ss: Session, rest: seq<byte>, extra: seq<byte>, idx: nat, cps: seq<scalar>)
    requires SequentialFrom(ss, rest, idx, cps).Ok? && extra != []
    ensures SequentialFrom(ss, rest + extra, idx, cps).Err?
    decreases |rest|
  {
    var len, after := FromBE(rest[..4]), rest[4..];
    assert (rest + extra)[..4] == rest[..4] && (rest + extra)[4..] == after + extra;
    if len == 0 {
      SentinelNotLast(ss, after, extra, idx, cps);
    } else {
      AcceptedNeedsChunk(ss, rest, idx, cps);
      var chunk, later := VerifiedChunk(ss, after, len, idx).value, after[len + 32..];
      SameChunk(ss, after, extra, len, idx);
      TakeChunk(ss, rest, after, len, idx, cps, chunk, later);
      TrailingRefused(ss, later, extra, idx + 1, cps + chunk);
      TakeChunk(ss, rest + extra, after + extra, len, idx, cps, chunk, later + extra);
    }
  }

  lemma TakeChunk(ss: Session, rest: seq<byte>, after: seq<byte>, len: nat, idx: nat, cps: seq<scalar>,
                  chunk: seq<scalar>, later: seq<byte>)
    requires |rest| >= 4 && len == FromBE(rest[..4]) > 0 && after == rest[4..]
    requires VerifiedChunk(ss, after, len, idx) == Ok(chunk) && later == after[len + 32..]
    ensures SequentialFrom(ss, rest, idx, cps) == SequentialFrom(ss, later, idx + 1, cps + chunk)
  {
  }

  lemma SentinelNotLast(ss: Session, after: seq<byte>, extra: seq<byte>, idx: nat, cps: seq<scalar>)
    requires CheckSentinel(ss, after, idx, cps).Ok? && extra != []
    ensures CheckSentinel(ss, after + extra, idx, cps).Err?
  {
    assert (after + extra)[..8] == after[..8] && (after + extra)[8..40] == after[8..40];
  }

  lemma SameChunk(ss: Session, after: seq<byte>, extra: seq<byte>, len: nat, idx: nat)
    requires VerifiedChunk(ss, after, len, idx).Ok?
    ensures VerifiedChunk(ss, after + extra, len, idx) == VerifiedChunk(ss, after, len, idx)
    ensures (after + extra)[len + 32..] == after[len + 32..] + extra
  {
    assert (after + extra)[..len] == after[..len] && (after + extra)[len..len + 32] == after[len..len + 32];
  }
}
