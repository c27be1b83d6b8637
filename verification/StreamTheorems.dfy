/** What the stream decoders recover, and that they agree. */
module StreamTheorems {
  import opened Arithmetic
  import opened Bytes
  import opened Chunking
  import opened Derivation
  import opened Stream
  import opened StreamDecode

  // ----- Both decoders accept the same streams -----

  lemma ZeroPrefix(s: seq<byte>)
    requires |s| == 4
    ensures FromBE(s) == 0 <==> s == [0, 0, 0, 0]
  {
    WriteBack(s);
    ReadBack(0, 4);
    assert BE(0, 4) == [0, 0, 0, 0];
  }

  /** On a frame that is all there, the two decoders make the same checks. */
  lemma SameFrame(ss: Session, rest: seq<byte>, idx: nat)
    requires ss.Valid() && |rest| >= FrameLen(ss) && idx < 0xFFFF_FFFF
    ensures OpenFrame(ss, rest, idx) ==
            if FromBE(rest[..4]) == 0 then None
            else match VerifiedChunk(ss, rest[4..], FromBE(rest[..4]), idx) case Err(_) => None case Ok(chunk) => Some(chunk)
  {
    FramePieces(rest, 160 * ss.f);
  }

  lemma FramePieces(rest: seq<byte>, len: nat)
    requires |rest| >= 36 + len
    ensures rest[4..][..len] == rest[4..4 + len] && rest[4..][len..len + 32] == rest[4 + len..36 + len]
  {
  }

  /** What the 44 closing bytes yield once `count` chunks have been decoded to `cps`. */
  function Closing(ss: Session, sentinel: seq<byte>, count: nat, cps: seq<scalar>): Option<seq<scalar>>
    requires |sentinel| == 44
  {
    if sentinel[..4] != [0, 0, 0, 0] then None
    else match CheckSentinel(ss, sentinel[4..], count, cps) case Err(_) => None case Ok(m) => Some(m)
  }

  function Accepted(r: Result<seq<scalar>, StreamError>): Option<seq<scalar>> {
    match r case Err(_) => None case Ok(m) => Some(m)
  }

  /** `n` frames and a sentinel: what the sequential loop makes of exactly that many bytes. */
  function ByLength(ss: Session, rest: seq<byte>, idx: nat, cps: seq<scalar>, n: nat): Option<seq<scalar>>
    requires |rest| == n * FrameLen(ss) + 44
  {
    assert n * FrameLen(ss) >= 0;
    match OpenFrames(ss, rest, idx, n)
    case None => None
    case Some(tail) => Closing(ss, rest[n * FrameLen(ss)..], idx + n, cps + tail)
  }

  lemma LastBytes(ss: Session, rest: seq<byte>, idx: nat, cps: seq<scalar>)
    requires ss.Valid() && |rest| == 44
    ensures Accepted(SequentialFrom(ss, rest, idx, cps)) == Closing(ss, rest, idx, cps)
  {
    ZeroPrefix(rest[..4]);
  }

  /** A zero prefix anywhere but 44 bytes before the end is never accepted. */
  lemma EarlySentinel(ss: Session, rest: seq<byte>, idx: nat, cps: seq<scalar>)
    requires |rest| >= 4 && |rest| != 44 && FromBE(rest[..4]) == 0
    ensures SequentialFrom(ss, rest, idx, cps).Err?
  {
  }

  lemma {:induction false} SequentialByLength(ss: Session, rest: seq<byte>, idx: nat, cps: seq<scalar>, n: nat)
    requires ss.Valid() && |rest| == n * FrameLen(ss) + 44 && idx + n <= 0xFFFF_FFFF
    ensures Accepted(SequentialFrom(ss, rest, idx, cps)) == ByLength(ss, rest, idx, cps, n)
    decreases n
  {
    if n == 0 {
      LastBytes(ss, rest, idx, cps);
      assert rest[0 * FrameLen(ss)..] == rest && cps + [] == cps;
    } else {
      Offset(n - 1, n, FrameLen(ss));
      SameFrame(ss, rest, idx);
      if FromBE(rest[..4]) == 0 {
        EarlySentinel(ss, rest, idx, cps);
      } else if OpenFrame(ss, rest, idx).Some? {
        PeelFrame(ss, rest, idx, cps, n, OpenFrame(ss, rest, idx).value);
      }
    }
  }

  lemma PeelFrame(ss: Session, rest: seq<byte>, idx: nat, cps: seq<scalar>, n: nat, chunk: seq<scalar>)
    requires ss.Valid() && n > 0 && |rest| == n * FrameLen(ss) + 44 && idx + n <= 0xFFFF_FFFF
    requires |rest| >= FrameLen(ss) && FromBE(rest[..4]) != 0 && OpenFrame(ss, rest, idx) == Some(chunk)
    ensures Accepted(SequentialFrom(ss, rest, idx, cps)) == ByLength(ss, rest, idx, cps, n)
    decreases n, 0
  {
    Offset(n - 1, n, FrameLen(ss));
    StepOver(ss, rest, idx, cps, chunk);
    SequentialByLength(ss, rest[FrameLen(ss)..], idx + 1, cps + chunk, n - 1);
    ByLengthStep(ss, rest, idx, cps, n, chunk, rest[FrameLen(ss)..]);
  }

  lemma ByLengthStep(ss: Session, rest: seq<byte>, idx: nat, cps: seq<scalar>, n: nat, chunk: seq<scalar>, next: seq<byte>)
    requires n > 0 && |rest| == n * FrameLen(ss) + 44 && |next| == (n - 1) * FrameLen(ss) + 44
    requires |rest| >= FrameLen(ss) && OpenFrame(ss, rest, idx) == Some(chunk) && next == rest[FrameLen(ss)..]
    ensures ByLength(ss, rest, idx, cps, n) == ByLength(ss, next, idx + 1, cps + chunk, n - 1)
  {
    SameTail(rest, next, FrameLen(ss), n);
    FramesStep(ss, rest, idx, n, chunk);
    AfterChunk(cps, chunk, OpenFrames(ss, next, idx + 1, n - 1));
  }

  lemma SameTail(rest: seq<byte>, next: seq<byte>, len: nat, n: nat)
    requires n > 0 && |rest| == n * len + 44 && len <= |rest| && next == rest[len..]
    ensures 0 <= (n - 1) * len <= |next| && 0 <= n * len <= |rest|
    ensures next[(n - 1) * len..] == rest[n * len..]
  {
    Offset(n - 1, n, len);
  }

  lemma StepOver(ss: Session, rest: seq<byte>, idx: nat, cps: seq<scalar>, chunk: seq<scalar>)
    requires ss.Valid() && idx < 0xFFFF_FFFF && |rest| >= FrameLen(ss)
    requires FromBE(rest[..4]) != 0 && OpenFrame(ss, rest, idx) == Some(chunk)
    ensures SequentialFrom(ss, rest, idx, cps) == SequentialFrom(ss, rest[FrameLen(ss)..], idx + 1, cps + chunk)
  {
    SameFrame(ss, rest, idx);
    assert rest[4..][160 * ss.f + 32..] == rest[FrameLen(ss)..];
  }

  /** Whatever the sequential loop accepts is whole frames and one sentinel, within the chunk limit. */
  lemma {:induction false} AcceptedIsWhole(ss: Session, rest: seq<byte>, idx: nat, cps: seq<scalar>) returns (n: nat)
    requires ss.Valid() && idx <= 0xFFFF_FFFF && SequentialFrom(ss, rest, idx, cps).Ok?
    ensures |rest| == n * FrameLen(ss) + 44 && idx + n <= 0xFFFF_FFFF
    decreases |rest|
  {
    var len := FromBE(rest[..4]);
    if len == 0 {
      n := 0;
    } else {
      var chunk := VerifiedChunk(ss, rest[4..], len, idx).value;
      var k := AcceptedIsWhole(ss, rest[4..][len + 32..], idx + 1, cps + chunk);
      n := k + 1;
      Offset(k, n, FrameLen(ss));
    }
  }

  /** The C bounds on the total are the Rust consistency test. */
  lemma TotalsAgree(ss: Session, n: nat, decoded: nat, total: nat)
    requires n > 0 && decoded == n * ss.f
    ensures Consistent(ss, n, decoded, total) <==> LeastTotal(n, ss.f) <= total <= MostTotal(n, ss.f)
  {
    MulMono(1, n, ss.f);
  }

  lemma CountFrames(ss: Session, length: nat, n: nat)
    requires ss.Valid() && length == n * FrameLen(ss)
    ensures length % FrameLen(ss) == 0 && length / FrameLen(ss) == n
  {
    DivideMultiple(n, FrameLen(ss));
  }

  /** Checking the sentinel before the frames or after them is the same test. */
  lemma SameClosing(ss: Session, body: seq<byte>, n: nat)
    requires ss.Valid() && |body| == n * FrameLen(ss) + 44 && n <= 0xFFFF_FFFF
    ensures RandomAccessBody(ss, body) == Filtered(ByLength(ss, body, 0, [], n))
  {
    assert n * FrameLen(ss) >= 0;
    CountFrames(ss, |body| - 44, n);
    var chunks := OpenFrames(ss, body, 0, n);
    if chunks.Some? {
      OpenFramesLength(ss, body, 0, n);
      assert [] + chunks.value == chunks.value;
      assert body[n * FrameLen(ss)..] == body[|body| - 44..];
    }
    CountedIsClosing(ss, body[|body| - 44..], n, chunks);
  }

  lemma CountedIsClosing(ss: Session, sentinel: seq<byte>, n: nat, chunks: Option<seq<scalar>>)
    requires |sentinel| == 44 && (chunks.Some? ==> |chunks.value| == n * ss.f) && (n == 0 ==> chunks == Some([]))
    ensures Counted(ss, sentinel, n, chunks) ==
            Filtered(match chunks case None => None case Some(cps) => Closing(ss, sentinel, n, cps))
  {
    if chunks.Some? {
      SentinelAgrees(ss, sentinel, n, chunks.value);
    }
  }

  lemma SentinelAgrees(ss: Session, sentinel: seq<byte>, n: nat, cps: seq<scalar>)
    requires |sentinel| == 44 && |cps| == n * ss.f
    ensures var total := UnmaskedTotal(ss, sentinel[4..12], n);
            Closing(ss, sentinel, n, cps) ==
            if sentinel[..4] == [0, 0, 0, 0] && sentinel[12..] == ss.sentinelTag(n, total)
               && (if n == 0 then total == 0 else LeastTotal(n, ss.f) <= total <= MostTotal(n, ss.f))
            then Some(cps[..total]) else None
  {
    var total := UnmaskedTotal(ss, sentinel[4..12], n);
    assert sentinel[4..][..8] == sentinel[4..12] && sentinel[4..][8..40] == sentinel[12..];
    if n > 0 {
      TotalsAgree(ss, n, |cps|, total);
    }
  }

  lemma BodiesAgree(ss: Session, body: seq<byte>)
    requires ss.Valid()
    ensures RandomAccessBody(ss, body) == Filtered(Accepted(SequentialFrom(ss, body, 0, [])))
  {
    var n := (|body| - 44) / FrameLen(ss);
    if |body| >= 44 && |body| == n * FrameLen(ss) + 44 && n <= 0xFFFF_FFFF {
      SequentialByLength(ss, body, 0, [], n);
      SameClosing(ss, body, n);
    } else if SequentialFrom(ss, body, 0, []).Ok? {
      var k := AcceptedIsWhole(ss, body, 0, []);
      CountFrames(ss, |body| - 44, k);
      assert false;
    } else {
      NotWhole(ss, body);
    }
  }

  lemma NotWhole(ss: Session, body: seq<byte>)
    requires ss.Valid()
    requires var n := (|body| - 44) / FrameLen(ss); |body| < 44 || |body| != n * FrameLen(ss) + 44 || n > 0xFFFF_FFFF
    ensures RandomAccessBody(ss, body).None?
  {
    if |body| >= 44 {
      Quotient(|body| - 44, FrameLen(ss));
    }
  }

  lemma Quotient(length: nat, len: nat)
    requires len > 0
    ensures length == length / len * len + length % len
  {
  }

  /** The C output filter: 8-bit codepoints only. */
  function Filtered(m: Option<seq<scalar>>): Option<seq<scalar>> {
    if m.Some? && Latin1(m.value) then m else None
  }

  /** The C and Rust decoders accept the same streams and recover the same text, but for 8-bit output. */
  lemma DecodersAgree(keying: Keying, s: seq<byte>)
    requires Sound(keying)
    ensures RandomAccess(keying, s) == Filtered(Accepted(Sequential(keying, s)))
  {
    if HeaderError(s).None? {
      BodiesAgree(keying(HeaderFrame(s), s[5..21]), s[21..]);
    }
  }

  // ----- Round trip -----

  lemma PrefixReadsBack(n: nat)
    requires 0 < n <= 160 * 16_384
    ensures FromBE(BE(n, 4)) == n
  {
    FieldSizes();
    ReadBack(n, 4);
  }

  /** A written frame is read, verified and opened, whatever follows it. */
  lemma FrameReads(ss: Session, i: nat, chunk: seq<scalar>, tail: seq<byte>, cps: seq<scalar>)
    requires ss.Valid() && |chunk| == ss.f && i < 0xFFFF_FFFF
    ensures SequentialFrom(ss, ss.Frame(i, chunk) + tail, i, cps) == SequentialFrom(ss, tail, i + 1, cps + chunk)
  {
    var masked := ss.seal(i, chunk);
    PrefixReadsBack(|masked|);
    CutFrame(ss, i, masked, tail);
  }

  lemma CutFrame(ss: Session, i: nat, masked: seq<byte>, tail: seq<byte>)
    ensures var rest := ss.Tagged(i, masked) + tail;
            && rest[..4] == BE(|masked|, 4) && rest[4..][..|masked|] == masked
            && rest[4..][|masked|..|masked| + 32] == ss.chunkTag(i, masked)
            && rest[4..][|masked| + 32..] == tail
  {
    CutFour(BE(|masked|, 4), masked, ss.chunkTag(i, masked), tail);
  }

  lemma CutFour(a: seq<byte>, b: seq<byte>, c: seq<byte>, d: seq<byte>)
    requires |a| == 4 && |c| == 32
    ensures var s := a + b + c + d;
            s[..4] == a && s[4..][..|b|] == b && s[4..][|b|..|b| + 32] == c && s[4..][|b| + 32..] == d
  {
    var s := a + b + c + d;
    assert s[4..] == b + (c + d);
  }

  ghost predicate Uniform(ss: Session, chunks: seq<seq<scalar>>) {
    forall k :: 0 <= k < |chunks| ==> |chunks[k]| == ss.f
  }

  lemma {:induction false} FramesRead(ss: Session, i: nat, chunks: seq<seq<scalar>>, tail: seq<byte>, cps: seq<scalar>,
                                      last: nat, decoded: seq<scalar>)
    requires ss.Valid() && Uniform(ss, chunks) && last == i + |chunks| <= 0xFFFF_FFFF
    requires decoded == cps + Flatten(chunks)
    ensures SequentialFrom(ss, ss.Frames(i, chunks) + tail, i, cps) == SequentialFrom(ss, tail, last, decoded)
    decreases |chunks|
  {
    if chunks == [] {
      assert ss.Frames(i, chunks) + tail == tail && cps + Flatten(chunks) == cps;
    } else {
      FramesHead(ss, i, chunks, tail, cps);
      FramesRead(ss, i + 1, chunks[1..], tail, cps + chunks[0], last, decoded);
      FrameReads(ss, i, chunks[0], ss.Frames(i + 1, chunks[1..]) + tail, cps);
    }
  }

  lemma FramesHead(ss: Session, i: nat, chunks: seq<seq<scalar>>, tail: seq<byte>, cps: seq<scalar>)
    requires chunks != []
    ensures ss.Frames(i, chunks) + tail == ss.Frame(i, chunks[0]) + (ss.Frames(i + 1, chunks[1..]) + tail)
    ensures cps + chunks[0] + Flatten(chunks[1..]) == cps + Flatten(chunks)
  {
  }

  /** The masked count is recovered and the tag over it verifies. */
  lemma SentinelReads(ss: Session, count: nat, total: nat, cps: seq<scalar>)
    requires total < 0x1_0000_0000_0000_0000 && Consistent(ss, count, |cps|, total)
    ensures SequentialFrom(ss, ss.Sentinel(count, total), count, cps) == Ok(cps[..total])
  {
    var s := ss.Sentinel(count, total);
    CutFour(BE(0, 4), ss.CountField(count, total), ss.sentinelTag(count, total), []);
    assert BE(0, 4) + ss.CountField(count, total) + ss.sentinelTag(count, total) + [] == s;
    FieldSizes();
    ReadBack(0, 4);
    XorBytesInvolution(BE(total, 8), ss.countMask(count)[..8]);
    ReadBack(total, 8);
  }

  /** The encrypted chunks are the message followed by less than a chunk of filler. */
  lemma ChunksHold(ss: Session, msg: seq<scalar>)
    requires ss.f > 0
    ensures Uniform(ss, ss.AllChunks(0, msg))
    ensures msg <= Flatten(ss.AllChunks(0, msg))
    ensures Consistent(ss, ChunkCount(ss.f, msg), |Flatten(ss.AllChunks(0, msg))|, |msg|)
  {
    CutWhole(ss.f, msg);
    var full, left := FullChunks(ss.f, msg), Leftover(ss.f, msg);
    if |left| == 0 {
      assert ss.AllChunks(0, msg) == full && Flatten(full) + left == Flatten(full);
    } else {
      FlattenAppend(full, ss.Filled(|full|, left));
      assert Flatten(full) + ss.Filled(|full|, left) == msg + ss.Fillers(|full|, ss.f - |left|);
    }
  }

  lemma HeaderReads(ss: Session, tail: seq<byte>)
    requires 1 <= ss.f <= 16_384 && |ss.nonce| == 16
    ensures var s := Header(ss.f, ss.nonce) + tail;
            HeaderError(s).None? && HeaderFrame(s) == ss.f && s[5..21] == ss.nonce && s[21..] == tail
  {
    var s := Header(ss.f, ss.nonce) + tail;
    FieldSizes();
    ReadBack(ss.f, 4);
    assert s[1..5] == BE(ss.f, 4);
  }

  lemma {:induction false} TotalFits(f: nat, msg: seq<scalar>)
    requires 1 <= f <= 16_384
    ensures |msg| <= 16_384 * ChunkCount(f, msg)
    decreases |msg|
  {
    if |msg| >= f {
      TotalFits(f, msg[f..]);
    }
  }

  /** Decryption inverts encryption for every message within the chunk limit, the empty one included. */
  lemma RoundTrip(keying: Keying, f: nat, nonce: seq<byte>, msg: seq<scalar>)
    requires Sound(keying) && 1 <= f <= 16_384 && |nonce| == 16
    requires Encrypted(keying(f, nonce), msg).Ok?
    ensures Sequential(keying, Encrypted(keying(f, nonce), msg).value) == Ok(msg)
  {
    var ss := keying(f, nonce);
    var body := ss.Frames(0, ss.AllChunks(0, msg)) + ss.Sentinel(ChunkCount(f, msg), |msg|);
    assert ss.StreamBytes(msg) == Header(f, nonce) + body;
    BodyReads(ss, msg);
    HeaderThenBody(keying, ss, body);
  }

  /** The C decoder inverts encryption exactly for 8-bit text. */
  lemma RoundTripInC(keying: Keying, f: nat, nonce: seq<byte>, msg: seq<scalar>)
    requires Sound(keying) && 1 <= f <= 16_384 && |nonce| == 16
    requires Encrypted(keying(f, nonce), msg).Ok?
    ensures RandomAccess(keying, Encrypted(keying(f, nonce), msg).value) == if Latin1(msg) then Some(msg) else None
  {
    RoundTrip(keying, f, nonce, msg);
    DecodersAgree(keying, Encrypted(keying(f, nonce), msg).value);
  }

  lemma HeaderThenBody(keying: Keying, ss: Session, body: seq<byte>)
    requires 1 <= ss.f <= 16_384 && |ss.nonce| == 16 && keying(ss.f, ss.nonce) == ss
    ensures Sequential(keying, Header(ss.f, ss.nonce) + body) == SequentialFrom(ss, body, 0, [])
  {
    HeaderReads(ss, body);
  }

  lemma BodyReads(ss: Session, msg: seq<scalar>)
    requires ss.Valid() && ChunkCount(ss.f, msg) <= 0xFFFF_FFFF
    ensures SequentialFrom(ss, ss.Frames(0, ss.AllChunks(0, msg)) + ss.Sentinel(ChunkCount(ss.f, msg), |msg|), 0, []) == Ok(msg)
  {
    ChunksHold(ss, msg);
    TotalFits(ss.f, msg);
    ChunksRead(ss, ss.AllChunks(0, msg), |msg|);
    assert Flatten(ss.AllChunks(0, msg))[..|msg|] == msg;
  }

  lemma ChunksRead(ss: Session, chunks: seq<seq<scalar>>, total: nat)
    requires ss.Valid() && Uniform(ss, chunks) && |chunks| <= 0xFFFF_FFFF && total < 0x1_0000_0000_0000_0000
    requires Consistent(ss, |chunks|, |Flatten(chunks)|, total)
    ensures SequentialFrom(ss, ss.Frames(0, chunks) + ss.Sentinel(|chunks|, total), 0, []) == Ok(Flatten(chunks)[..total])
  {
    assert [] + Flatten(chunks) == Flatten(chunks);
    FramesRead(ss, 0, chunks, ss.Sentinel(|chunks|, total), [], |chunks|, Flatten(chunks));
    SentinelReads(ss, |chunks|, total, Flatten(chunks));
  }
}
