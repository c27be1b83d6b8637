/**
 What tag unforgeability gives the stream format. First for one session whose verifying tags are
 all those of one message; then for every set of encryptor runs with distinct nonces.
 */
module Authenticity {
  import opened Bytes
  import opened Chunking
  import opened Derivation
  import opened Incremental
  import opened Keyed
  import opened Stream
  import opened StreamDecode
  import opened StreamSession
  import opened StreamTheorems

  // ----- One session -----

  /** The head of `rest` has the length prefix of a frame and carries a chunk tag that verifies. */
  predicate ChunkVerifies(ss: Session, rest: seq<byte>, i: nat) {
    && |rest| >= FrameLen(ss) && FromBE(rest[..4]) == 160 * ss.f
    && rest[4 + 160 * ss.f..FrameLen(ss)] == ss.chunkTag(i, rest[4..4 + 160 * ss.f])
  }

  function TotalAt(ss: Session, rest: seq<byte>, i: nat): nat
    requires |rest| >= 12
  {
    UnmaskedTotal(ss, rest[4..12], i)
  }

  predicate SentinelVerifies(ss: Session, rest: seq<byte>, i: nat) {
    |rest| >= 44 && FromBE(rest[..4]) == 0 && rest[12..44] == ss.sentinelTag(i, TotalAt(ss, rest, i))
  }

  /** A chunk tag that verifies at the head of `rest` is the one `msg` has there. */
  ghost predicate ChunkFaithful(ss: Session, msg: seq<scalar>, rest: seq<byte>, i: nat)
    requires ss.f > 0
  {
    i <= 0xFFFF_FFFF && ChunkVerifies(ss, rest, i) ==>
      i < |ss.AllChunks(0, msg)| && rest[4..4 + 160 * ss.f] == ss.seal(i, ss.AllChunks(0, msg)[i])
  }

  /** A sentinel tag that verifies at the head of `rest` is that of `msg`. */
  ghost predicate SentinelFaithful(ss: Session, msg: seq<scalar>, rest: seq<byte>, i: nat)
    requires ss.f > 0
  {
    i <= 0xFFFF_FFFF && SentinelVerifies(ss, rest, i) ==> i == |ss.AllChunks(0, msg)| && TotalAt(ss, rest, i) == |msg|
  }

  /** From frame `i` on, the tags of the stream that verify are tags of `msg`. */
  ghost predicate Faithful(ss: Session, msg: seq<scalar>, rest: seq<byte>, i: nat)
    requires ss.Valid()
    decreases |rest|
  {
    && ChunkFaithful(ss, msg, rest, i) && SentinelFaithful(ss, msg, rest, i)
    && (|rest| >= FrameLen(ss) ==> Faithful(ss, msg, rest[FrameLen(ss)..], i + 1))
  }

  lemma GenuineChunk(ss: Session, msg: seq<scalar>, rest: seq<byte>, i: nat)
    requires ss.Valid() && Faithful(ss, msg, rest, i) && i <= 0xFFFF_FFFF && ChunkVerifies(ss, rest, i)
    ensures i < |ss.AllChunks(0, msg)|
    ensures ss.open(i, rest[4..4 + 160 * ss.f]) == Ok(ss.AllChunks(0, msg)[i])
    ensures Faithful(ss, msg, rest[36 + 160 * ss.f..], i + 1)
  {
    ChunksHold(ss, msg);
  }

  /** A verified frame of a faithful stream is, byte for byte, the frame of its own chunk. */
  lemma GenuineFrame(ss: Session, msg: seq<scalar>, rest: seq<byte>, i: nat, chunk: seq<scalar>)
    requires ss.Valid() && Faithful(ss, msg, rest, i) && |rest| >= 4 && FromBE(rest[..4]) != 0
    requires VerifiedChunk(ss, rest[4..], FromBE(rest[..4]), i) == Ok(chunk) && i <= 0xFFFF_FFFF
    ensures i < |ss.AllChunks(0, msg)| && chunk == ss.AllChunks(0, msg)[i]
    ensures |rest| >= FrameLen(ss) && rest == ss.Frame(i, chunk) + rest[FrameLen(ss)..]
    ensures rest[4..][FromBE(rest[..4]) + 32..] == rest[FrameLen(ss)..]
  {
    Pieces(rest, 160 * ss.f);
    GenuineChunk(ss, msg, rest, i);
    WriteBack(rest[..4]);
  }

  lemma Pieces(rest: seq<byte>, len: nat)
    requires |rest| >= 36 + len
    ensures rest == rest[..4] + rest[4..4 + len] + rest[4 + len..36 + len] + rest[36 + len..]
    ensures rest[4..][..len] == rest[4..4 + len] && rest[4..][len..len + 32] == rest[4 + len..36 + len]
    ensures rest[4..][len + 32..] == rest[36 + len..]
  {
  }

  /** A verified sentinel of a faithful stream is, byte for byte, that of the message. */
  lemma GenuineSentinel(ss: Session, msg: seq<scalar>, rest: seq<byte>, i: nat)
    requires ss.Valid() && Faithful(ss, msg, rest, i) && i <= 0xFFFF_FFFF
    requires |rest| == 44 && FromBE(rest[..4]) == 0 && SentinelVerifies(ss, rest, i)
    ensures i == |ss.AllChunks(0, msg)| && rest == ss.Sentinel(i, |msg|)
  {
    ZeroPrefix(rest[..4]);
    WriteBack(rest[..4]);
    var field, mask := rest[4..12], ss.countMask(i)[..8];
    WriteBack(XorBytes(field, mask));
    XorBytesInvolution(field, mask);
    assert rest == rest[..4] + field + rest[12..44];
  }

  /** An accepted faithful stream is the encryption of `msg` and decrypts to it. */
  lemma {:induction false} AcceptedIsGenuine(ss: Session, msg: seq<scalar>, rest: seq<byte>, i: nat, cps: seq<scalar>)
    requires ss.Valid() && Faithful(ss, msg, rest, i) && i <= |ss.AllChunks(0, msg)| && i <= 0xFFFF_FFFF
    requires cps == Flatten(ss.AllChunks(0, msg)[..i]) && SequentialFrom(ss, rest, i, cps).Ok?
    ensures rest == ss.Frames(i, ss.AllChunks(0, msg)[i..]) + ss.Sentinel(|ss.AllChunks(0, msg)|, |msg|)
    ensures SequentialFrom(ss, rest, i, cps) == Ok(msg)
    decreases |rest|
  {
    if FromBE(rest[..4]) == 0 {
      AcceptedSentinel(ss, msg, rest, i, cps);
    } else {
      var chunk := VerifiedChunk(ss, rest[4..], FromBE(rest[..4]), i).value;
      AcceptedFrame(ss, msg, rest, i, cps, chunk);
      AcceptedIsGenuine(ss, msg, rest[FrameLen(ss)..], i + 1, cps + chunk);
      Reassemble(ss, ss.AllChunks(0, msg), i, rest, rest[FrameLen(ss)..], ss.Sentinel(|ss.AllChunks(0, msg)|, |msg|));
    }
  }

  lemma AcceptedSentinel(ss: Session, msg: seq<scalar>, rest: seq<byte>, i: nat, cps: seq<scalar>)
    requires ss.Valid() && Faithful(ss, msg, rest, i) && i <= |ss.AllChunks(0, msg)| && i <= 0xFFFF_FFFF
    requires cps == Flatten(ss.AllChunks(0, msg)[..i]) && |rest| >= 4 && FromBE(rest[..4]) == 0
    requires SequentialFrom(ss, rest, i, cps).Ok?
    ensures rest == ss.Frames(i, ss.AllChunks(0, msg)[i..]) + ss.Sentinel(|ss.AllChunks(0, msg)|, |msg|)
    ensures SequentialFrom(ss, rest, i, cps) == Ok(msg)
  {
    var chunks := ss.AllChunks(0, msg);
    assert rest[4..][..8] == rest[4..12] && rest[4..][8..40] == rest[12..44];
    GenuineSentinel(ss, msg, rest, i);
    assert chunks[i..] == [] && chunks[..i] == chunks;
    ChunksHold(ss, msg);
    assert cps[..|msg|] == msg;
  }

  lemma AcceptedFrame(ss: Session, msg: seq<scalar>, rest: seq<byte>, i: nat, cps: seq<scalar>, chunk: seq<scalar>)
    requires ss.Valid() && Faithful(ss, msg, rest, i) && i <= |ss.AllChunks(0, msg)| && i <= 0xFFFF_FFFF
    requires cps == Flatten(ss.AllChunks(0, msg)[..i]) && |rest| >= 4 && FromBE(rest[..4]) != 0
    requires VerifiedChunk(ss, rest[4..], FromBE(rest[..4]), i) == Ok(chunk)
    ensures i < |ss.AllChunks(0, msg)| && i < 0xFFFF_FFFF && |rest| >= FrameLen(ss)
    ensures rest == ss.Frame(i, ss.AllChunks(0, msg)[i]) + rest[FrameLen(ss)..]
    ensures SequentialFrom(ss, rest, i, cps) == SequentialFrom(ss, rest[FrameLen(ss)..], i + 1, cps + chunk)
    ensures cps + chunk == Flatten(ss.AllChunks(0, msg)[..i + 1])
  {
    var chunks := ss.AllChunks(0, msg);
    GenuineFrame(ss, msg, rest, i, chunk);
    assert chunks[..i + 1] == chunks[..i] + [chunk];
    FlattenAppend(chunks[..i], chunk);
  }

  lemma Reassemble(ss: Session, chunks: seq<seq<scalar>>, i: nat, rest: seq<byte>, later: seq<byte>, tail: seq<byte>)
    requires i < |chunks| && rest == ss.Frame(i, chunks[i]) + later
    requires later == ss.Frames(i + 1, chunks[i + 1..]) + tail
    ensures rest == ss.Frames(i, chunks[i..]) + tail
  {
    assert chunks[i..] == [chunks[i]] + chunks[i + 1..];
  }

  // ----- No unverified text, and no filler, at any step -----

  /** The machine has read `i` genuine frames and yielded all but the last of their chunks. */
  ghost predicate OnTrack(ss: Session, msg: seq<scalar>, m: Machine) {
    match m
    case Running(ms, rest, idx, pending, out) =>
      && ms == ss && ss.Valid() && Faithful(ss, msg, rest, idx)
      && idx <= |ss.AllChunks(0, msg)|
      && (pending.None? <==> idx == 0)
      && (idx == 0 ==> out == [])
      && (idx > 0 ==> pending.value == ss.AllChunks(0, msg)[idx - 1] && out == Flatten(ss.AllChunks(0, msg)[..idx - 1]))
    case Done(out) => out == msg
    case Failed(out, _) => out <= msg
  }

  /** All chunks but the last consist of message codepoints only. */
  lemma HeldBackPrefix(ss: Session, msg: seq<scalar>, k: nat)
    requires ss.f > 0 && (k < |ss.AllChunks(0, msg)| || k == 0)
    ensures Flatten(ss.AllChunks(0, msg)[..k]) <= msg
  {
    var full, left := FullChunks(ss.f, msg), Leftover(ss.f, msg);
    CutWhole(ss.f, msg);
    assert ss.AllChunks(0, msg)[..k] == full[..k];
    FlattenSplit(full, k);
  }

  lemma {:induction false} FlattenSplit<T>(chunks: seq<seq<T>>, k: nat)
    requires k <= |chunks|
    ensures Flatten(chunks[..k]) <= Flatten(chunks)
  {
    if k > 0 {
      assert chunks[..k][1..] == chunks[1..][..k - 1];
      FlattenSplit(chunks[1..], k - 1);
    }
  }

  lemma OnTrackStep(ss: Session, msg: seq<scalar>, m: Machine)
    requires OnTrack(ss, msg, m) && m.Running?
    ensures OnTrack(ss, msg, Step(m))
  {
    var chunks := ss.AllChunks(0, msg);
    HeldBackPrefix(ss, msg, if m.idx == 0 then 0 else m.idx - 1);
    if |m.rest| >= 4 {
      if FromBE(m.rest[..4]) == 0 {
        OnTrackSentinel(ss, msg, m);
      } else {
        OnTrackChunk(ss, msg, m);
      }
    }
  }

  lemma OnTrackSentinel(ss: Session, msg: seq<scalar>, m: Machine)
    requires OnTrack(ss, msg, m) && m.Running? && |m.rest| >= 4 && FromBE(m.rest[..4]) == 0 && m.out <= msg
    ensures OnTrack(ss, msg, StepSentinel(m))
  {
    var chunks := ss.AllChunks(0, msg);
    if |m.rest| >= 44 && m.idx <= 0xFFFF_FFFF && SentinelVerifies(ss, m.rest, m.idx) {
      ChunksHold(ss, msg);
      assert m.rest[4..12] == m.rest[4..][..8];
      if m.idx > 0 {
        assert chunks == chunks[..m.idx - 1] + [chunks[m.idx - 1]];
        FlattenAppend(chunks[..m.idx - 1], chunks[m.idx - 1]);
      }
    }
  }

  lemma OnTrackChunk(ss: Session, msg: seq<scalar>, m: Machine)
    requires OnTrack(ss, msg, m) && m.Running? && |m.rest| >= 4 && FromBE(m.rest[..4]) != 0 && m.out <= msg
    ensures OnTrack(ss, msg, StepChunk(m, FromBE(m.rest[..4])))
  {
    var len := FromBE(m.rest[..4]);
    if len == 160 * ss.f && m.idx <= 0xFFFF_FFFF && ChunkVerifies(ss, m.rest, m.idx) {
      OnTrackVerified(ss, msg, m);
    } else {
      Refused(m, len);
    }
  }

  lemma OnTrackVerified(ss: Session, msg: seq<scalar>, m: Machine)
    requires OnTrack(ss, msg, m) && m.Running? && m.idx <= 0xFFFF_FFFF && ChunkVerifies(ss, m.rest, m.idx)
    ensures OnTrack(ss, msg, StepChunk(m, 160 * ss.f))
  {
    TrackNext(ss, msg, m.rest, m.idx, m.pending, m.out);
    Granted(m, 160 * ss.f, ss.AllChunks(0, msg)[m.idx]);
  }

  lemma Refused(m: Machine, len: nat)
    requires m.Running? && |m.rest| >= 4 && len == FromBE(m.rest[..4])
    requires len != 160 * m.ss.f || m.idx > 0xFFFF_FFFF || !ChunkVerifies(m.ss, m.rest, m.idx)
    ensures StepChunk(m, len).Failed? && StepChunk(m, len).out == m.out
  {
  }

  lemma Granted(m: Machine, len: nat, chunk: seq<scalar>)
    requires m.Running? && len == 160 * m.ss.f && m.idx <= 0xFFFF_FFFF && ChunkVerifies(m.ss, m.rest, m.idx)
    requires m.ss.open(m.idx, m.rest[4..4 + len]) == Ok(chunk)
    ensures StepChunk(m, len) == Running(m.ss, m.rest[36 + len..], m.idx + 1, Some(chunk), Decoded(m.out, m.pending))
  {
  }

  lemma TrackNext(ss: Session, msg: seq<scalar>, rest: seq<byte>, i: nat, pending: Option<seq<scalar>>, out: seq<scalar>)
    requires ss.Valid() && Faithful(ss, msg, rest, i) && i <= 0xFFFF_FFFF && ChunkVerifies(ss, rest, i)
    requires (pending.None? <==> i == 0) && (i == 0 ==> out == []) && i <= |ss.AllChunks(0, msg)|
    requires i > 0 ==> pending.value == ss.AllChunks(0, msg)[i - 1] && out == Flatten(ss.AllChunks(0, msg)[..i - 1])
    ensures i < |ss.AllChunks(0, msg)| && ss.open(i, rest[4..4 + 160 * ss.f]) == Ok(ss.AllChunks(0, msg)[i])
    ensures OnTrack(ss, msg, Running(ss, rest[36 + 160 * ss.f..], i + 1, Some(ss.AllChunks(0, msg)[i]), Decoded(out, pending)))
  {
    GenuineChunk(ss, msg, rest, i);
    NextReleased(ss, msg, i, pending, out);
  }

  lemma NextReleased(ss: Session, msg: seq<scalar>, i: nat, pending: Option<seq<scalar>>, out: seq<scalar>)
    requires ss.f > 0 && i < |ss.AllChunks(0, msg)| && (pending.None? <==> i == 0) && (i == 0 ==> out == [])
    requires i > 0 ==> pending.value == ss.AllChunks(0, msg)[i - 1] && out == Flatten(ss.AllChunks(0, msg)[..i - 1])
    ensures Decoded(out, pending) == Flatten(ss.AllChunks(0, msg)[..i])
  {
    var chunks := ss.AllChunks(0, msg);
    if i > 0 {
      assert chunks[..i] == chunks[..i - 1] + [chunks[i - 1]];
      FlattenAppend(chunks[..i - 1], chunks[i - 1]);
    }
  }

  /** After any number of turns on any input, what has been yielded is a prefix of the message. */
  lemma {:induction false} YieldedIsPrefix(ss: Session, msg: seq<scalar>, m: Machine, n: nat)
    requires OnTrack(ss, msg, m)
    ensures OnTrack(ss, msg, After(m, n)) && After(m, n).out <= msg
    ensures After(m, n).Done? ==> After(m, n).out == msg
    decreases n
  {
    if m.Running? {
      HeldBackPrefix(ss, msg, if m.idx == 0 then 0 else m.idx - 1);
      if n > 0 {
        OnTrackStep(ss, msg, m);
        YieldedIsPrefix(ss, msg, Step(m), n - 1);
      }
    }
  }

  // ----- All runs of all encryptors under one key -----

  /** One encryptor run; `msg` is what has been pushed, and a run dropped early is not finished. */
  datatype Run = Run(f: nat, nonce: seq<byte>, aad: seq<byte>, msg: seq<scalar>, finished: bool) {
    ghost predicate Valid() {
      1 <= f <= 16_384 && |nonce| == 16 && FitsAad(aad) && ChunkCount(f, msg) <= 0xFFFF_FFFF
    }

    function SessionIn(c: Ctx): Session
      requires Usable(c)
    {
      SessionOf(c, f, nonce, aad)
    }

    /** Chunk tags issued: an unfinished run has sent its full chunks only. */
    function Sent(): (n: nat)
      requires f > 0
      ensures n <= ChunkCount(f, msg)
    {
      if finished then ChunkCount(f, msg) else |FullChunks(f, msg)|
    }

    /** The tag queries this run made. */
    ghost predicate Issued(c: Ctx, q: Query)
      requires Usable(c) && f > 0
    {
      var chunks := SessionIn(c).AllChunks(0, msg);
      || (finished && q == SentinelTag(f, nonce, |chunks|, aad, |msg|))
      || exists i :: 0 <= i < Sent() && q == ChunkTag(f, nonce, i, aad, SessionIn(c).seal(i, chunks[i]))
    }
  }

  ghost predicate DistinctNonces(runs: seq<Run>) {
    forall i, j :: 0 <= i < j < |runs| ==> runs[i].nonce != runs[j].nonce
  }

  ghost predicate Runs(runs: seq<Run>) {
    (forall i :: 0 <= i < |runs| ==> runs[i].Valid()) && DistinctNonces(runs)
  }

  /** Some run computed the tag of `q`. */
  ghost predicate IssuedBySome(c: Ctx, runs: seq<Run>, q: Query)
    requires Usable(c) && Runs(runs)
  {
    exists k, p :: 0 <= k < |runs| && runs[k].Issued(c, p) && Message(p) == Message(q)
  }

  /** For one header: which chunk tags (index, body) and sentinel tags (count, total) have been issued. */
  datatype Tags = Tags(chunk: (nat, seq<byte>) -> bool, sentinel: (nat, nat) -> bool)

  /** From frame `i` on, a chunk or sentinel tag that a decoder could check and that verifies has been issued. */
  ghost predicate Unforged(ss: Session, tags: Tags, rest: seq<byte>, i: nat)
    requires ss.f > 0
    decreases |rest|
  {
    && ChunkIssued(ss, tags, rest, i) && SentinelIssued(ss, tags, rest, i)
    && (|rest| >= FrameLen(ss) ==> Unforged(ss, tags, rest[FrameLen(ss)..], i + 1))
  }

  ghost predicate ChunkIssued(ss: Session, tags: Tags, rest: seq<byte>, i: nat) {
    i <= 0xFFFF_FFFF && ChunkVerifies(ss, rest, i) ==> tags.chunk(i, rest[4..4 + 160 * ss.f])
  }

  ghost predicate SentinelIssued(ss: Session, tags: Tags, rest: seq<byte>, i: nat) {
    i <= 0xFFFF_FFFF && SentinelVerifies(ss, rest, i) ==> tags.sentinel(i, TotalAt(ss, rest, i))
  }

  lemma UnforgedHead(ss: Session, tags: Tags, rest: seq<byte>, i: nat)
    requires ss.f > 0 && ChunkIssued(ss, tags, rest, i) && SentinelIssued(ss, tags, rest, i)
    requires |rest| >= FrameLen(ss) ==> Unforged(ss, tags, rest[FrameLen(ss)..], i + 1)
    ensures Unforged(ss, tags, rest, i)
  {
  }

  /** The tags issued under a header are those of one message. */
  ghost predicate TagsOf(ss: Session, tags: Tags, msg: seq<scalar>)
    requires ss.f > 0
  {
    && (forall i: nat, masked :: i <= 0xFFFF_FFFF && tags.chunk(i, masked) ==>
          i < |ss.AllChunks(0, msg)| && masked == ss.seal(i, ss.AllChunks(0, msg)[i]))
    && (forall i: nat, total: nat :: i <= 0xFFFF_FFFF && total < Pow256(8) && tags.sentinel(i, total) ==>
          i == |ss.AllChunks(0, msg)| && total == |msg|)
  }

  /** Unforgeability makes every stream faithful to the message its tags belong to. */
  lemma {:induction false} FaithfulToSource(ss: Session, tags: Tags, msg: seq<scalar>, rest: seq<byte>, i: nat)
    requires ss.Valid() && TagsOf(ss, tags, msg) && Unforged(ss, tags, rest, i)
    ensures Faithful(ss, msg, rest, i)
    decreases |rest|
  {
    if |rest| >= 12 {
      TotalBound(ss, rest, i);
    }
    if |rest| >= FrameLen(ss) {
      FaithfulToSource(ss, tags, msg, rest[FrameLen(ss)..], i + 1);
    }
  }

  lemma TotalBound(ss: Session, rest: seq<byte>, i: nat)
    requires |rest| >= 12
    ensures TotalAt(ss, rest, i) < Pow256(8)
  {
    FromBEBound(XorBytes(rest[4..12], ss.countMask(i)[..8]));
  }

  /** The sentinel that ends an accepted stream has been issued. */
  lemma {:induction false} AcceptedSentinelIssued(ss: Session, tags: Tags, rest: seq<byte>, i: nat, cps: seq<scalar>)
    returns (count: nat, total: nat)
    requires ss.f > 0 && i <= 0xFFFF_FFFF && Unforged(ss, tags, rest, i) && SequentialFrom(ss, rest, i, cps).Ok?
    ensures count <= 0xFFFF_FFFF && total < Pow256(8) && tags.sentinel(count, total)
    decreases |rest|
  {
    if FromBE(rest[..4]) == 0 {
      SentinelHead(ss, rest, i, cps);
      TotalBound(ss, rest, i);
      count, total := i, TotalAt(ss, rest, i);
    } else {
      var chunk := FrameHead(ss, rest, i, cps);
      count, total := AcceptedSentinelIssued(ss, tags, rest[FrameLen(ss)..], i + 1, cps + chunk);
    }
  }

  lemma SentinelHead(ss: Session, rest: seq<byte>, i: nat, cps: seq<scalar>)
    requires SequentialFrom(ss, rest, i, cps).Ok? && FromBE(rest[..4]) == 0
    ensures SentinelVerifies(ss, rest, i)
  {
    assert rest[4..][..8] == rest[4..12] && rest[4..][8..40] == rest[12..44];
  }

  lemma FrameHead(ss: Session, rest: seq<byte>, i: nat, cps: seq<scalar>) returns (chunk: seq<scalar>)
    requires SequentialFrom(ss, rest, i, cps).Ok? && FromBE(rest[..4]) != 0 && i <= 0xFFFF_FFFF
    ensures |rest| >= FrameLen(ss) && i < 0xFFFF_FFFF
    ensures SequentialFrom(ss, rest[FrameLen(ss)..], i + 1, cps + chunk).Ok?
  {
    chunk := VerifiedChunk(ss, rest[4..], FromBE(rest[..4]), i).value;
    Pieces(rest, 160 * ss.f);
  }

  /** A prefix shows the decoder no tag that the whole input does not show. */
  lemma {:induction false} UnforgedPrefix(ss: Session, tags: Tags, rest: seq<byte>, i: nat, k: nat)
    requires ss.f > 0 && k <= |rest| && Unforged(ss, tags, rest, i)
    ensures Unforged(ss, tags, rest[..k], i)
    decreases |rest|
  {
    SameTags(ss, rest, i, k);
    if k >= FrameLen(ss) {
      UnforgedPrefix(ss, tags, rest[FrameLen(ss)..], i + 1, k - FrameLen(ss));
      DropOfPrefix(rest, k, FrameLen(ss));
    }
    UnforgedHead(ss, tags, rest[..k], i);
  }

  lemma DropOfPrefix(rest: seq<byte>, k: nat, len: nat)
    requires len <= k <= |rest|
    ensures rest[..k][len..] == rest[len..][..k - len]
  {
  }

  lemma SameTags(ss: Session, rest: seq<byte>, i: nat, k: nat)
    requires k <= |rest|
    ensures ChunkVerifies(ss, rest[..k], i) ==> ChunkVerifies(ss, rest, i) && rest[..k][4..4 + 160 * ss.f] == rest[4..4 + 160 * ss.f]
    ensures SentinelVerifies(ss, rest[..k], i) ==> SentinelVerifies(ss, rest, i) && TotalAt(ss, rest[..k], i) == TotalAt(ss, rest, i)
  {
    if k >= 4 {
      assert rest[..k][..4] == rest[..4];
    }
    if k >= FrameLen(ss) {
      assert rest[..k][4..4 + 160 * ss.f] == rest[4..4 + 160 * ss.f];
      assert rest[..k][4 + 160 * ss.f..FrameLen(ss)] == rest[4 + 160 * ss.f..FrameLen(ss)];
    }
    if k >= 44 {
      assert rest[..k][4..12] == rest[4..12] && rest[..k][12..44] == rest[12..44];
    }
  }

  // ----- The tags of all runs -----

  /** The tags the runs have issued under one header and associated data. */
  ghost function Issues(c: Ctx, runs: seq<Run>, f: nat, nonce: seq<byte>, aad: seq<byte>): Tags
    requires Usable(c) && Runs(runs)
  {
    Tags(
      (i: nat, masked: seq<byte>) => IssuedBySome(c, runs, ChunkTag(f, nonce, i, aad, masked)),
      (count: nat, total: nat) => IssuedBySome(c, runs, SentinelTag(f, nonce, count, aad, total)))
  }

  /** Unforgeability, for the tags a decoder could check on this one stream: those that verify were computed by some run. */
  ghost predicate NoForgery(c: Ctx, runs: seq<Run>, f: nat, nonce: seq<byte>, aad: seq<byte>, rest: seq<byte>)
    requires Usable(c) && Runs(runs) && f > 0
  {
    Unforged(SessionOf(c, f, nonce, aad), Issues(c, runs, f, nonce, aad), rest, 0)
  }

  ghost predicate Matches(r: Run, f: nat, nonce: seq<byte>, aad: seq<byte>) {
    r.f == f && r.nonce == nonce && r.aad == aad
  }

  lemma IssuedWellFormed(c: Ctx, r: Run, q: Query)
    requires Usable(c) && r.Valid() && r.Issued(c, q)
    ensures WellFormed(q)
  {
    FieldSizes();
    TotalFits(r.f, r.msg);
  }

  /** A verifying stream tag comes from the one run with the same header and associated data. */
  lemma IssuedByMatching(c: Ctx, runs: seq<Run>, q: Query) returns (k: nat)
    requires Usable(c) && Runs(runs) && IssuedBySome(c, runs, q) && WellFormed(q)
    requires q.ChunkTag? || q.SentinelTag?
    ensures k < |runs| && Matches(runs[k], q.frame, q.nonce, q.aad) && runs[k].Issued(c, q)
  {
    var j, p :| 0 <= j < |runs| && runs[j].Issued(c, p) && Message(p) == Message(q);
    IssuedWellFormed(c, runs[j], p);
    DomainSeparation(p, q);
    k := j;
  }

  /** The message a stream with this header can only come from; none when no run matches. */
  ghost predicate Source(runs: seq<Run>, f: nat, nonce: seq<byte>, aad: seq<byte>, msg: seq<scalar>) {
    || (exists k :: 0 <= k < |runs| && Matches(runs[k], f, nonce, aad) && msg == runs[k].msg)
    || (msg == [] && forall k :: 0 <= k < |runs| ==> !Matches(runs[k], f, nonce, aad))
  }

  lemma OneSource(runs: seq<Run>, f: nat, nonce: seq<byte>, aad: seq<byte>, msg: seq<scalar>, k: nat)
    requires Runs(runs) && Source(runs, f, nonce, aad, msg) && k < |runs| && Matches(runs[k], f, nonce, aad)
    ensures msg == runs[k].msg
  {
  }

  /** All tags issued under a header belong to the message of the one run that has it. */
  lemma SourceOfTags(c: Ctx, runs: seq<Run>, f: nat, nonce: seq<byte>, aad: seq<byte>, msg: seq<scalar>)
    requires Usable(c) && Runs(runs) && 1 <= f <= 16_384 && |nonce| == 16 && FitsAad(aad)
    requires Source(runs, f, nonce, aad, msg)
    ensures TagsOf(SessionOf(c, f, nonce, aad), Issues(c, runs, f, nonce, aad), msg)
  {
    var ss := SessionOf(c, f, nonce, aad);
    forall i: nat, masked | i <= 0xFFFF_FFFF && IssuedBySome(c, runs, ChunkTag(f, nonce, i, aad, masked))
      ensures i < |ss.AllChunks(0, msg)| && masked == ss.seal(i, ss.AllChunks(0, msg)[i])
    {
      IssuedChunk(c, runs, f, nonce, aad, msg, masked, i);
    }
    forall i: nat, total: nat | i <= 0xFFFF_FFFF && total < Pow256(8) && IssuedBySome(c, runs, SentinelTag(f, nonce, i, aad, total))
      ensures i == |ss.AllChunks(0, msg)| && total == |msg|
    {
      var k := IssuedSentinel(c, runs, f, nonce, aad, i, total);
      OneSource(runs, f, nonce, aad, msg, k);
    }
  }

  lemma IssuedChunk(c: Ctx, runs: seq<Run>, f: nat, nonce: seq<byte>, aad: seq<byte>, msg: seq<scalar>, masked: seq<byte>, i: nat)
    requires Usable(c) && Runs(runs) && 1 <= f <= 16_384 && |nonce| == 16 && FitsAad(aad) && i <= 0xFFFF_FFFF
    requires Source(runs, f, nonce, aad, msg) && IssuedBySome(c, runs, ChunkTag(f, nonce, i, aad, masked))
    ensures var ss := SessionOf(c, f, nonce, aad);
            i < |ss.AllChunks(0, msg)| && masked == ss.seal(i, ss.AllChunks(0, msg)[i])
  {
    FieldSizes();
    var k := IssuedByMatching(c, runs, ChunkTag(f, nonce, i, aad, masked));
    OneSource(runs, f, nonce, aad, msg, k);
  }

  /** A sentinel tag was issued by a finished run, whose counts it carries. */
  lemma IssuedSentinel(c: Ctx, runs: seq<Run>, f: nat, nonce: seq<byte>, aad: seq<byte>, i: nat, total: nat) returns (k: nat)
    requires Usable(c) && Runs(runs) && 1 <= f <= 16_384 && |nonce| == 16 && FitsAad(aad) && i <= 0xFFFF_FFFF
    requires total < Pow256(8) && IssuedBySome(c, runs, SentinelTag(f, nonce, i, aad, total))
    ensures k < |runs| && Matches(runs[k], f, nonce, aad) && runs[k].finished
    ensures i == ChunkCount(f, runs[k].msg) && total == |runs[k].msg|
  {
    FieldSizes();
    k := IssuedByMatching(c, runs, SentinelTag(f, nonce, i, aad, total));
  }

  lemma AcceptedMatches(c: Ctx, runs: seq<Run>, f: nat, nonce: seq<byte>, aad: seq<byte>, body: seq<byte>) returns (k: nat)
    requires Usable(c) && Runs(runs) && 1 <= f <= 16_384 && |nonce| == 16 && FitsAad(aad)
    requires NoForgery(c, runs, f, nonce, aad, body)
    requires SequentialFrom(SessionOf(c, f, nonce, aad), body, 0, []).Ok?
    ensures k < |runs| && Matches(runs[k], f, nonce, aad) && runs[k].finished
  {
    var count, total := AcceptedSentinelIssued(SessionOf(c, f, nonce, aad), Issues(c, runs, f, nonce, aad), body, 0, []);
    k := IssuedSentinel(c, runs, f, nonce, aad, count, total);
  }

  lemma FaithfulToRuns(c: Ctx, runs: seq<Run>, f: nat, nonce: seq<byte>, aad: seq<byte>, msg: seq<scalar>, body: seq<byte>)
    requires Usable(c) && Runs(runs) && 1 <= f <= 16_384 && |nonce| == 16 && FitsAad(aad)
    requires Source(runs, f, nonce, aad, msg) && NoForgery(c, runs, f, nonce, aad, body)
    ensures SessionOf(c, f, nonce, aad).Valid() && Faithful(SessionOf(c, f, nonce, aad), msg, body, 0)
  {
    SessionValid(c, f, nonce, aad);
    SourceOfTags(c, runs, f, nonce, aad, msg);
    FaithfulToSource(SessionOf(c, f, nonce, aad), Issues(c, runs, f, nonce, aad), msg, body, 0);
  }

  lemma HeaderRewrites(s: seq<byte>)
    requires HeaderError(s).None?
    ensures s == Header(HeaderFrame(s), s[5..21]) + s[21..]
  {
    WriteBack(s[1..5]);
    assert s == [s[0]] + s[1..5] + s[5..21] + s[21..];
  }

  /**
   Whatever stream is accepted is, byte for byte, the whole output of one finished encryptor run
   under the same associated data, and decrypts to that run's message.
   */
  lemma StreamAuthenticity(c: Ctx, runs: seq<Run>, aad: seq<byte>, s: seq<byte>) returns (k: nat)
    requires Usable(c) && Runs(runs) && FitsAad(aad)
    requires Sequential(KeyingOf(c, aad), s).Ok?
    requires NoForgery(c, runs, HeaderFrame(s), s[5..21], aad, s[21..])
    ensures k < |runs| && runs[k].aad == aad && runs[k].finished
    ensures Encrypted(runs[k].SessionIn(c), runs[k].msg) == Ok(s)
    ensures Sequential(KeyingOf(c, aad), s) == Ok(runs[k].msg)
  {
    var f, nonce, body := HeaderFrame(s), s[5..21], s[21..];
    k := AcceptedMatches(c, runs, f, nonce, aad, body);
    FaithfulToRuns(c, runs, f, nonce, aad, runs[k].msg, body);
    BodyIsGenuine(SessionOf(c, f, nonce, aad), runs[k].msg, body);
    HeaderRewrites(s);
    assert Header(f, nonce) + body == s;
  }

  lemma BodyIsGenuine(ss: Session, msg: seq<scalar>, body: seq<byte>)
    requires ss.Valid() && Faithful(ss, msg, body, 0) && SequentialFrom(ss, body, 0, []).Ok?
    ensures Header(ss.f, ss.nonce) + body == ss.StreamBytes(msg)
    ensures SequentialFrom(ss, body, 0, []) == Ok(msg)
  {
    var chunks := ss.AllChunks(0, msg);
    assert chunks[..0] == [] && chunks[0..] == chunks;
    AcceptedIsGenuine(ss, msg, body, 0, []);
    var frames, sentinel := ss.Frames(0, chunks), ss.Sentinel(|chunks|, |msg|);
    assert Header(ss.f, ss.nonce) + (frames + sentinel) == Header(ss.f, ss.nonce) + frames + sentinel;
  }

  lemma PickSource(runs: seq<Run>, f: nat, nonce: seq<byte>, aad: seq<byte>) returns (msg: seq<scalar>)
    ensures Source(runs, f, nonce, aad, msg)
  {
    if k :| 0 <= k < |runs| && Matches(runs[k], f, nonce, aad) {
      msg := runs[k].msg;
    } else {
      msg := [];
    }
  }

  /**
   After any number of turns of the incremental decoder, on any input, the characters yielded are
   a prefix of the message of a run with this header; without such a run nothing is ever yielded.
   */
  lemma IncrementalSafety(c: Ctx, runs: seq<Run>, aad: seq<byte>, s: seq<byte>, n: nat)
    requires Usable(c) && Runs(runs) && FitsAad(aad)
    requires HeaderError(s).None? ==> NoForgery(c, runs, HeaderFrame(s), s[5..21], aad, s[21..])
    ensures var out := After(Begin(KeyingOf(c, aad), s), n).out;
            out == [] || exists k :: 0 <= k < |runs| && Matches(runs[k], HeaderFrame(s), s[5..21], aad) && out <= runs[k].msg
  {
    if HeaderError(s).None? {
      var f, nonce := HeaderFrame(s), s[5..21];
      var msg := PickSource(runs, f, nonce, aad);
      FaithfulToRuns(c, runs, f, nonce, aad, msg, s[21..]);
      YieldedIsPrefix(SessionOf(c, f, nonce, aad), msg, Begin(KeyingOf(c, aad), s), n);
    }
  }

  lemma NoForgeryInCut(c: Ctx, runs: seq<Run>, aad: seq<byte>, s: seq<byte>, cut: nat)
    requires Usable(c) && Runs(runs) && 21 <= cut <= |s| && HeaderError(s).None?
    requires NoForgery(c, runs, HeaderFrame(s), s[5..21], aad, s[21..])
    ensures HeaderError(s[..cut]).None?
    ensures NoForgery(c, runs, HeaderFrame(s[..cut]), s[..cut][5..21], aad, s[..cut][21..])
  {
    var f, nonce := HeaderFrame(s), s[5..21];
    SameHeader(KeyingOf(c, aad), s, cut);
    UnforgedPrefix(SessionOf(c, f, nonce, aad), Issues(c, runs, f, nonce, aad), s[21..], 0, cut - 21);
  }

  /** If the incremental decoder completes, its input starts with one finished run's whole output, and it yielded that message. */
  lemma CompletionIsGenuine(c: Ctx, runs: seq<Run>, aad: seq<byte>, s: seq<byte>) returns (k: nat, cut: nat)
    requires Usable(c) && Runs(runs) && FitsAad(aad)
    requires Final(Begin(KeyingOf(c, aad), s)).Done?
    requires |s| >= 21 && NoForgery(c, runs, HeaderFrame(s), s[5..21], aad, s[21..])
    ensures k < |runs| && runs[k].aad == aad && runs[k].finished && cut <= |s|
    ensures Encrypted(runs[k].SessionIn(c), runs[k].msg) == Ok(s[..cut])
    ensures Final(Begin(KeyingOf(c, aad), s)) == Done(runs[k].msg)
  {
    KeyingSound(c, aad);
    var out := Final(Begin(KeyingOf(c, aad), s)).out;
    cut := AcceptedPrefix(KeyingOf(c, aad), s, out);
    NoForgeryInCut(c, runs, aad, s, cut);
    k := StreamAuthenticity(c, runs, aad, s[..cut]);
  }

  // ----- Genuine streams meet the hypothesis -----

  /** The tags of a message have been issued. */
  ghost predicate HasTags(ss: Session, tags: Tags, msg: seq<scalar>)
    requires ss.f > 0
  {
    && (forall i :: 0 <= i < |ss.AllChunks(0, msg)| ==> tags.chunk(i, ss.seal(i, ss.AllChunks(0, msg)[i])))
    && tags.sentinel(|ss.AllChunks(0, msg)|, |msg|)
  }

  /** What the decoder reads off the head of a written frame. */
  lemma FrameShows(ss: Session, i: nat, masked: seq<byte>, tail: seq<byte>)
    requires 1 <= ss.f <= 16_384 && |masked| == 160 * ss.f
    ensures var rest := ss.Tagged(i, masked) + tail;
            && |rest| >= 36 + 160 * ss.f && FromBE(rest[..4]) != 0
            && rest[4..4 + 160 * ss.f] == masked && rest[36 + 160 * ss.f..] == tail
  {
    PrefixReadsBack(|masked|);
    CutWritten(BE(|masked|, 4), masked, ss.chunkTag(i, masked), tail);
  }

  lemma FrameUnforged(ss: Session, tags: Tags, i: nat, masked: seq<byte>, tail: seq<byte>)
    requires 1 <= ss.f <= 16_384 && |masked| == 160 * ss.f && tags.chunk(i, masked) && Unforged(ss, tags, tail, i + 1)
    ensures Unforged(ss, tags, ss.Tagged(i, masked) + tail, i)
  {
    FrameShows(ss, i, masked, tail);
    UnforgedHead(ss, tags, ss.Tagged(i, masked) + tail, i);
  }

  lemma CutWritten(a: seq<byte>, b: seq<byte>, t: seq<byte>, d: seq<byte>)
    requires |a| == 4 && |t| == 32
    ensures var s := a + b + t + d;
            s[..4] == a && s[4..4 + |b|] == b && s[4 + |b|..36 + |b|] == t && s[36 + |b|..] == d
  {
  }

  lemma SentinelUnforged(ss: Session, tags: Tags, n: nat, total: nat)
    requires 1 <= ss.f && total < Pow256(8) && tags.sentinel(n, total)
    ensures Unforged(ss, tags, ss.Sentinel(n, total), n)
  {
    FieldSizes();
    CutSentinel(BE(0, 4), ss.CountField(n, total), ss.sentinelTag(n, total));
    ReadBack(0, 4);
    XorBytesInvolution(BE(total, 8), ss.countMask(n)[..8]);
    ReadBack(total, 8);
    UnforgedHead(ss, tags, ss.Sentinel(n, total), n);
  }

  lemma CutSentinel(a: seq<byte>, b: seq<byte>, t: seq<byte>)
    requires |a| == 4 && |b| == 8 && |t| == 32
    ensures var s := a + b + t; |s| == 44 && s[..4] == a && s[4..12] == b && s[12..44] == t
  {
  }

  lemma {:induction false} FramesUnforged(ss: Session, tags: Tags, msg: seq<scalar>, i: nat)
    requires ss.Valid() && HasTags(ss, tags, msg) && i <= |ss.AllChunks(0, msg)| && |msg| < Pow256(8)
    ensures var chunks := ss.AllChunks(0, msg);
            Unforged(ss, tags, ss.Frames(i, chunks[i..]) + ss.Sentinel(|chunks|, |msg|), i)
    decreases |ss.AllChunks(0, msg)| - i
  {
    var chunks := ss.AllChunks(0, msg);
    var ending := ss.Sentinel(|chunks|, |msg|);
    if i == |chunks| {
      assert chunks[i..] == [] && ss.Frames(i, []) + ending == ending;
      SentinelUnforged(ss, tags, i, |msg|);
    } else {
      var tail := ss.Frames(i + 1, chunks[i + 1..]) + ending;
      FramesUnforged(ss, tags, msg, i + 1);
      ChunksHold(ss, msg);
      FrameUnforged(ss, tags, i, ss.seal(i, chunks[i]), tail);
      Reassemble(ss, chunks, i, ss.Frame(i, chunks[i]) + tail, tail, ending);
    }
  }

  lemma IssuedHere(c: Ctx, runs: seq<Run>, k: nat, q: Query)
    requires Usable(c) && Runs(runs) && k < |runs| && runs[k].Issued(c, q)
    ensures IssuedBySome(c, runs, q)
  {
    var p := q;
    assert runs[k].Issued(c, p) && Message(p) == Message(q);
  }

  lemma RunHasTags(c: Ctx, runs: seq<Run>, k: nat)
    requires Usable(c) && Runs(runs) && k < |runs| && runs[k].finished
    ensures var r := runs[k]; HasTags(r.SessionIn(c), Issues(c, runs, r.f, r.nonce, r.aad), r.msg)
  {
    var r, ss := runs[k], runs[k].SessionIn(c);
    var chunks := ss.AllChunks(0, r.msg);
    forall i | 0 <= i < |chunks|
      ensures IssuedBySome(c, runs, ChunkTag(r.f, r.nonce, i, r.aad, ss.seal(i, chunks[i])))
    {
      IssuedHere(c, runs, k, ChunkTag(r.f, r.nonce, i, r.aad, ss.seal(i, chunks[i])));
    }
    IssuedHere(c, runs, k, SentinelTag(r.f, r.nonce, |chunks|, r.aad, |r.msg|));
  }

  /**
   Under any HMAC the whole output of a finished run shows no tag that a run did not compute: the
   hypothesis of the theorems above holds of every genuine stream.
   */
  lemma GenuineUnforged(c: Ctx, runs: seq<Run>, k: nat)
    requires Usable(c) && Runs(runs) && k < |runs| && runs[k].finished
    ensures Encrypted(runs[k].SessionIn(c), runs[k].msg).Ok?
    ensures var s := Encrypted(runs[k].SessionIn(c), runs[k].msg).value;
            |s| >= 21 && HeaderFrame(s) == runs[k].f && s[5..21] == runs[k].nonce
            && NoForgery(c, runs, HeaderFrame(s), s[5..21], runs[k].aad, s[21..])
  {
    var r, ss := runs[k], runs[k].SessionIn(c);
    var chunks := ss.AllChunks(0, r.msg);
    SessionValid(c, r.f, r.nonce, r.aad);
    TotalFits(r.f, r.msg);
    FieldSizes();
    RunHasTags(c, runs, k);
    FramesUnforged(ss, Issues(c, runs, r.f, r.nonce, r.aad), r.msg, 0);
    assert chunks[0..] == chunks;
    var body := ss.Frames(0, chunks) + ss.Sentinel(|chunks|, |r.msg|);
    assert ss.StreamBytes(r.msg) == Header(r.f, r.nonce) + body;
    HeaderReads(ss, body);
  }
}
