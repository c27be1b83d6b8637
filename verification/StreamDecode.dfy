/**
 Two independently written decoders of the stream format: the sequential Rust one, which reads
 frame by frame, and the C one, which locates the sentinel from the length and checks it first.
 */
module StreamDecode {
  import opened Arithmetic
  import opened Bytes
  import opened Derivation
  import opened Stream

  datatype StreamError =
    | ShortHeader | BadFormat | BadFrameSize
    | Truncated | BadFrameLength | BadChunkTag(idx: nat) | TooManyChunks | BadChunk(chunk: ChunkError)
    | BadSentinelTag | BadCount | Trailing

  /** The session that a header's frame size and nonce select. */
  type Keying = (nat, seq<byte>) -> Session

  ghost predicate Sound(keying: Keying) {
    forall f: nat, nonce: seq<byte> :: 1 <= f <= 16_384 && |nonce| == 16 ==>
      keying(f, nonce).Valid() && keying(f, nonce).f == f && keying(f, nonce).nonce == nonce
  }

  function HeaderFrame(s: seq<byte>): nat
    requires |s| >= 21
  {
    FromBE(s[1..5])
  }

  /** The checks every port makes on the 21 header bytes. */
  function HeaderError(s: seq<byte>): Option<StreamError> {
    if |s| < 21 then Some(ShortHeader)
    else if s[0] != FORMAT_STREAM_AE_V8 then Some(BadFormat)
    else if HeaderFrame(s) < 1 || HeaderFrame(s) > 16_384 then Some(BadFrameSize)
    else None
  }

  // ----- The sequential decoder -----

  function UnmaskedTotal(ss: Session, field: seq<byte>, count: nat): nat {
    FromBE(XorBytes(field, ss.countMask(count)[..8]))
  }

  /** The sentinel's total must end inside the last chunk (or be zero when there is none). */
  predicate Consistent(ss: Session, count: nat, decoded: nat, total: nat) {
    if count == 0 then total == decoded else decoded < total + ss.f && total <= decoded
  }

  function CheckSentinel(ss: Session, after: seq<byte>, idx: nat, cps: seq<scalar>): Result<seq<scalar>, StreamError> {
    if |after| < 40 then Err(Truncated)
    else
      var total := UnmaskedTotal(ss, after[..8], idx);
      if after[8..40] != ss.sentinelTag(idx, total) then Err(BadSentinelTag)
      else if !Consistent(ss, idx, |cps|, total) then Err(BadCount)
      else if |after| != 40 then Err(Trailing)
      else Ok(cps[..total])
  }

  /** Frames until the sentinel; `cps` holds every codepoint decoded so far. */
  function SequentialFrom(ss: Session, rest: seq<byte>, idx: nat, cps: seq<scalar>): Result<seq<scalar>, StreamError>
    decreases |rest|
  {
    if |rest| < 4 then Err(Truncated)
    else
      var len, after := FromBE(rest[..4]), rest[4..];
      if len == 0 then CheckSentinel(ss, after, idx, cps)
      else
        match VerifiedChunk(ss, after, len, idx)
        case Err(e) => Err(e)
        case Ok(chunk) => SequentialFrom(ss, after[len + 32..], idx + 1, cps + chunk)
  }

  /** The frame whose length prefix said `len`: checked, then opened. */
  function VerifiedChunk(ss: Session, after: seq<byte>, len: nat, idx: nat): (r: Result<seq<scalar>, StreamError>)
    ensures r.Ok? ==> |after| >= len + 32
  {
    if len != 160 * ss.f then Err(BadFrameLength)
    else if |after| < len + 32 then Err(Truncated)
    else if after[len..len + 32] != ss.chunkTag(idx, after[..len]) then Err(BadChunkTag(idx))
    else if idx == 0xFFFF_FFFF then Err(TooManyChunks)
    else match ss.open(idx, after[..len]) case Err(e) => Err(BadChunk(e)) case Ok(chunk) => Ok(chunk)
  }

  function Sequential(keying: Keying, s: seq<byte>): Result<seq<scalar>, StreamError> {
    match HeaderError(s)
    case Some(e) => Err(e)
    case None => SequentialFrom(keying(HeaderFrame(s), s[5..21]), s[21..], 0, [])
  }

  /** The decoding loop: the newest chunk stays pending until the next frame arrives. */
  method DecryptSequential(keying: Keying, stream: seq<byte>) returns (res: Result<seq<scalar>, StreamError>)
    requires Sound(keying)
    ensures res == Sequential(keying, stream)
  {
    var bad := HeaderError(stream);
    if bad.Some? {
      return Err(bad.value);
    }
    var ss := keying(HeaderFrame(stream), stream[5..21]);
    var pos, chunkIdx := 21, 0;
    var delivered: seq<scalar>, pending: Option<seq<scalar>> := [], None;
    ghost var decoded: seq<scalar>, expected := [], Sequential(keying, stream);
    while true
      invariant pos <= |stream|
      invariant pending.None? ==> chunkIdx == 0 && delivered == []
      invariant pending.Some? ==> chunkIdx > 0 && |pending.value| == ss.f
      invariant decoded == Decoded(delivered, pending)
      invariant expected == SequentialFrom(ss, stream[pos..], chunkIdx, decoded)
      decreases |stream| - pos
    {
      if |stream| < pos + 4 {
        return Err(Truncated);
      }
      var chunkLen := FromBE(stream[pos..pos + 4]);
      Cursor(stream, pos, 4);
      if chunkLen == 0 {
        res := FinishSequential(ss, stream[pos + 4..], chunkIdx, delivered, pending);
        return;
      }
      var cps := ReadChunk(ss, stream, pos + 4, chunkLen, chunkIdx);
      if cps.Err? {
        return Err(cps.error);
      }
      ReadLength(ss, stream[pos + 4..], chunkLen, chunkIdx);
      Newest(delivered, pending, cps.value);
      ghost var was, before, idx := pos, decoded, chunkIdx;
      pos := pos + 4 + chunkLen + 32;
      delivered := Decoded(delivered, pending);
      pending := Some(cps.value);
      chunkIdx, decoded := chunkIdx + 1, decoded + cps.value;
      OneFrame(ss, stream, was, idx, before, cps.value, pos, chunkIdx, decoded);
    }
  }

  /** A verified frame moves the cursor past it. */
  lemma OneFrame(ss: Session, stream: seq<byte>, pos: nat, idx: nat, cps: seq<scalar>, chunk: seq<scalar>,
                 pos': nat, idx': nat, cps': seq<scalar>)
    requires pos + 4 <= |stream| && FromBE(stream[pos..pos + 4]) != 0
    requires VerifiedChunk(ss, stream[pos + 4..], FromBE(stream[pos..pos + 4]), idx) == Ok(chunk)
    requires pos' == pos + 4 + FromBE(stream[pos..pos + 4]) + 32 && idx' == idx + 1 && cps' == cps + chunk
    ensures SequentialFrom(ss, stream[pos..], idx, cps) == SequentialFrom(ss, stream[pos'..], idx', cps')
  {
    Cursor(stream, pos, 4);
    Cursor(stream, pos + 4, FromBE(stream[pos..pos + 4]) + 32);
  }

  lemma ReadLength(ss: Session, after: seq<byte>, len: nat, idx: nat)
    requires ss.Valid() && VerifiedChunk(ss, after, len, idx).Ok?
    ensures |VerifiedChunk(ss, after, len, idx).value| == ss.f
  {
  }

  lemma Newest(delivered: seq<scalar>, pending: Option<seq<scalar>>, chunk: seq<scalar>)
    ensures Decoded(Decoded(delivered, pending), Some(chunk)) == Decoded(delivered, pending) + chunk
  {
  }

  lemma Cursor(stream: seq<byte>, pos: nat, n: nat)
    requires pos + n <= |stream|
    ensures stream[pos..][..n] == stream[pos..pos + n] && stream[pos..][n..] == stream[pos + n..]
  {
  }

  method ReadChunk(ss: Session, stream: seq<byte>, pos: nat, chunkLen: nat, chunkIdx: nat)
    returns (res: Result<seq<scalar>, StreamError>)
    requires pos <= |stream|
    ensures res == VerifiedChunk(ss, stream[pos..], chunkLen, chunkIdx)
  {
    if chunkLen != 160 * ss.f {
      return Err(BadFrameLength);
    }
    if |stream| < pos + chunkLen + 32 {
      return Err(Truncated);
    }
    var masked := stream[pos..pos + chunkLen];
    Cursor(stream, pos, chunkLen);
    assert stream[pos + chunkLen..pos + chunkLen + 32] == stream[pos..][chunkLen..chunkLen + 32];
    if stream[pos + chunkLen..pos + chunkLen + 32] != ss.chunkTag(chunkIdx, masked) {
      return Err(BadChunkTag(chunkIdx));
    }
    if chunkIdx == 0xFFFF_FFFF {
      return Err(TooManyChunks);
    }
    var cps := ss.open(chunkIdx, masked);
    return if cps.Err? then Err(BadChunk(cps.error)) else Ok(cps.value);
  }

  /** Delivered codepoints extended by the pending chunk, if there is one. */
  function Decoded(delivered: seq<scalar>, pending: Option<seq<scalar>>): seq<scalar> {
    match pending case None => delivered case Some(p) => delivered + p
  }

  method FinishSequential(ss: Session, after: seq<byte>, chunkIdx: nat, delivered: seq<scalar>, pending: Option<seq<scalar>>)
    returns (res: Result<seq<scalar>, StreamError>)
    requires pending.None? ==> chunkIdx == 0 && delivered == []
    requires pending.Some? ==> chunkIdx > 0 && |pending.value| == ss.f
    ensures res == CheckSentinel(ss, after, chunkIdx, Decoded(delivered, pending))
  {
    if |after| < 40 {
      return Err(Truncated);
    }
    var total := UnmaskedTotal(ss, after[..8], chunkIdx);
    if after[8..40] != ss.sentinelTag(chunkIdx, total) {
      return Err(BadSentinelTag);
    }
    var pendingLen := if pending.Some? then |pending.value| else 0;
    var consistent := if pending.Some? then |delivered| < total <= |delivered| + pendingLen else total == |delivered|;
    if !consistent {
      return Err(BadCount);
    }
    var plain := delivered;
    if pending.Some? {
      plain := delivered + pending.value[..total - |delivered|];
    }
    assert plain == Decoded(delivered, pending)[..total];
    if |after| != 40 {
      return Err(Trailing);
    }
    return Ok(plain);
  }

  // ----- The random-access decoder -----

  /** Bytes of one frame. */
  function FrameLen(ss: Session): (n: nat)
    ensures n > 36 || ss.f == 0
  {
    36 + 160 * ss.f
  }

  /** Frame `idx` at the head of `region`, its body verified and opened. */
  function OpenFrame(ss: Session, region: seq<byte>, idx: nat): Option<seq<scalar>>
    requires |region| >= FrameLen(ss)
  {
    var len := 160 * ss.f;
    if FromBE(region[..4]) != len then None
    else if region[4 + len..36 + len] != ss.chunkTag(idx, region[4..4 + len]) then None
    else match ss.open(idx, region[4..4 + len]) case Err(_) => None case Ok(chunk) => Some(chunk)
  }

  /** `n` consecutive frames from the head of `region`. */
  function OpenFrames(ss: Session, region: seq<byte>, idx: nat, n: nat): Option<seq<scalar>>
    decreases n
  {
    if n == 0 then Some([])
    else if |region| < FrameLen(ss) then None
    else
      match OpenFrame(ss, region, idx)
      case None => None
      case Some(chunk) =>
        match OpenFrames(ss, region[FrameLen(ss)..], idx + 1, n - 1)
        case None => None
        case Some(tail) => Some(chunk + tail)
  }

  lemma {:induction false} OpenFramesLength(ss: Session, region: seq<byte>, idx: nat, n: nat)
    requires ss.Valid() && OpenFrames(ss, region, idx, n).Some?
    ensures |OpenFrames(ss, region, idx, n).value| == n * ss.f
    decreases n
  {
    if n > 0 {
      OpenFramesLength(ss, region[FrameLen(ss)..], idx + 1, n - 1);
      Offset(n - 1, n, ss.f);
    }
  }

  predicate Latin1(cps: seq<scalar>) {
    forall i :: 0 <= i < |cps| ==> cps[i] <= 0xFF
  }

  /** Sentinel first, then the frames it counts, then the 8-bit output filter. */
  function RandomAccess(keying: Keying, s: seq<byte>): Option<seq<scalar>>
    requires Sound(keying)
  {
    if HeaderError(s).Some? then None
    else RandomAccessBody(keying(HeaderFrame(s), s[5..21]), s[21..])
  }

  function RandomAccessBody(ss: Session, body: seq<byte>): Option<seq<scalar>>
    requires ss.Valid()
  {
    if |body| < 44 || (|body| - 44) % FrameLen(ss) != 0 then None
    else
      var n := (|body| - 44) / FrameLen(ss);
      if n > 0xFFFF_FFFF then None else Counted(ss, body[|body| - 44..], n, OpenFrames(ss, body, 0, n))
  }

  /** The checks on the sentinel that counts `n` frames, and what it leaves of their codepoints. */
  function Counted(ss: Session, sentinel: seq<byte>, n: nat, chunks: Option<seq<scalar>>): Option<seq<scalar>>
    requires |sentinel| == 44
  {
    if sentinel[..4] != [0, 0, 0, 0] then None
    else
      var total := UnmaskedTotal(ss, sentinel[4..12], n);
      if sentinel[12..] != ss.sentinelTag(n, total) then None
      else if n == 0 then if total != 0 then None else Some([])
      else if total < LeastTotal(n, ss.f) || total > MostTotal(n, ss.f) then None
      else Narrowed(chunks, total)
  }

  /** The real codepoints of the decoded chunks, if all of them fit in 8 bits. */
  function Narrowed(chunks: Option<seq<scalar>>, total: nat): Option<seq<scalar>> {
    match chunks
    case None => None
    case Some(cps) => if |cps| < total || !Latin1(cps[..total]) then None else Some(cps[..total])
  }

  function MostTotal(n: nat, f: nat): nat {
    assert n * f >= 0;
    n * f
  }

  function LeastTotal(n: nat, f: nat): nat
    requires n > 0
  {
    MulMono(1, n, f);
    n * f - f + 1
  }

  method DecryptRandomAccess(keying: Keying, stream: seq<byte>) returns (res: Option<seq<scalar>>)
    requires Sound(keying)
    ensures res == RandomAccess(keying, stream)
  {
    var bad := HeaderError(stream);
    if bad.Some? {
      return None;
    }
    res := DecryptBody(keying(HeaderFrame(stream), stream[5..21]), stream[21..]);
  }

  /** Locate the sentinel from the length, check it, then decode the chunks it counts. */
  method DecryptBody(ss: Session, body: seq<byte>) returns (res: Option<seq<scalar>>)
    requires ss.Valid()
    ensures res == RandomAccessBody(ss, body)
  {
    if |body| < 44 {
      return None;
    }
    var frameLen := FrameLen(ss);
    var chunksBytes := |body| - 44;
    if chunksBytes % frameLen != 0 {
      return None;
    }
    var n := chunksBytes / frameLen;
    if n > 0xFFFF_FFFF {
      return None;
    }
    res := DecryptCounted(ss, body, n);
  }

  /** Check the sentinel that counts `n` frames, then decode them. */
  method DecryptCounted(ss: Session, body: seq<byte>, n: nat) returns (res: Option<seq<scalar>>)
    requires ss.Valid() && |body| == n * FrameLen(ss) + 44
    ensures res == Counted(ss, body[|body| - 44..], n, OpenFrames(ss, body, 0, n))
  {
    var sentinel := body[|body| - 44..];
    if sentinel[..4] != [0, 0, 0, 0] {
      return None;
    }
    var total := UnmaskedTotal(ss, sentinel[4..12], n);
    if sentinel[12..] != ss.sentinelTag(n, total) {
      return None;
    }
    if n == 0 {
      return if total != 0 then None else Some([]);
    }
    if total < LeastTotal(n, ss.f) || total > MostTotal(n, ss.f) {
      return None;
    }
    res := DecryptChunks(ss, body, n, total);
  }

  lemma Offset(i: nat, n: nat, len: nat)
    requires i < n
    ensures i * len + len == (i + 1) * len <= n * len
  {
    MulMono(i + 1, n, len);
  }

  lemma FramesStep(ss: Session, rest: seq<byte>, idx: nat, n: nat, chunk: seq<scalar>)
    requires n > 0 && |rest| >= FrameLen(ss) && OpenFrame(ss, rest, idx) == Some(chunk)
    ensures OpenFrames(ss, rest, idx, n) == AfterChunks(chunk, OpenFrames(ss, rest[FrameLen(ss)..], idx + 1, n - 1))
  {
  }

  lemma NextFrame(ss: Session, expected: Option<seq<scalar>>, cps: seq<scalar>, rest: seq<byte>, i: nat, k: nat, chunk: seq<scalar>)
    requires k > 0 && |rest| >= FrameLen(ss) && OpenFrame(ss, rest, i) == Some(chunk)
    requires expected == AfterChunks(cps, OpenFrames(ss, rest, i, k))
    ensures expected == AfterChunks(cps + chunk, OpenFrames(ss, rest[FrameLen(ss)..], i + 1, k - 1))
  {
    FramesStep(ss, rest, i, k, chunk);
    AfterChunk(cps, chunk, OpenFrames(ss, rest[FrameLen(ss)..], i + 1, k - 1));
  }

  /** What is left of `body` behind its first `i` frames. */
  ghost function Behind(body: seq<byte>, i: nat, len: nat): seq<byte> {
    if i == 0 then body
    else
      var before := Behind(body, i - 1, len);
      if |before| < len then [] else before[len..]
  }

  lemma {:induction false} BehindAt(body: seq<byte>, i: nat, len: nat, at: nat)
    requires at == i * len <= |body|
    ensures Behind(body, i, len) == body[at..]
  {
    if i > 0 {
      assert at - len == (i - 1) * len >= 0;
      BehindAt(body, i - 1, len, at - len);
      Skip(body, at - len, len);
    }
  }

  /** Frame `i` sits at `i * frameLen`. */
  method OpenAt(ss: Session, body: seq<byte>, i: nat, ghost n: nat, ghost rest: seq<byte>) returns (chunk: Option<seq<scalar>>)
    requires i < n && |body| == n * FrameLen(ss) + 44 && rest == Behind(body, i, FrameLen(ss))
    ensures |rest| >= FrameLen(ss) && chunk == OpenFrame(ss, rest, i)
    ensures Behind(body, i + 1, FrameLen(ss)) == rest[FrameLen(ss)..]
  {
    Offset(i, n, FrameLen(ss));
    BehindAt(body, i, FrameLen(ss), i * FrameLen(ss));
    chunk := OpenFrame(ss, body[i * FrameLen(ss)..], i);
  }

  /** The chunk loop: only the last chunk is cut short. */
  method DecryptChunks(ss: Session, body: seq<byte>, n: nat, total: nat) returns (res: Option<seq<scalar>>)
    requires ss.Valid() && n > 0 && |body| == n * FrameLen(ss) + 44
    requires LeastTotal(n, ss.f) <= total <= MostTotal(n, ss.f)
    ensures res == Narrowed(OpenFrames(ss, body, 0, n), total)
  {
    var plain: seq<scalar> := [];
    ghost var cps: seq<scalar> := [];
    var i := 0;
    ghost var rest, expected := body, OpenFrames(ss, body, 0, n);
    AfterNothing(expected);
    while i < n
      invariant i <= n && rest == Behind(body, i, FrameLen(ss))
      invariant |cps| == i * ss.f
      invariant plain == if i < n then cps else cps[..total]
      invariant i == n ==> total <= |cps|
      invariant expected == AfterChunks(cps, OpenFrames(ss, rest, i, n - i))
    {
      Offset(i, n, ss.f);
      var chunk := OpenAt(ss, body, i, n, rest);
      if chunk.None? {
        return None;
      }
      var keep := if i + 1 == n then total - |plain| else ss.f;
      plain := plain + chunk.value[..keep];
      NextFrame(ss, expected, cps, rest, i, n - i, chunk.value);
      rest := rest[FrameLen(ss)..];
      cps := cps + chunk.value;
      i := i + 1;
    }
    assert cps + [] == cps;
    return if Latin1(plain) then Some(plain) else None;
  }

  lemma Skip(s: seq<byte>, m: nat, n: nat)
    requires m + n <= |s|
    ensures s[m..][n..] == s[m + n..]
  {
  }

  ghost function AfterChunks(cps: seq<scalar>, tail: Option<seq<scalar>>): Option<seq<scalar>> {
    match tail case None => None case Some(t) => Some(cps + t)
  }

  lemma AfterNothing(tail: Option<seq<scalar>>)
    ensures AfterChunks([], tail) == tail
  {
    if tail.Some? {
      assert [] + tail.value == tail.value;
    }
  }

  lemma AfterChunk(cps: seq<scalar>, chunk: seq<scalar>, tail: Option<seq<scalar>>)
    ensures AfterChunks(cps, AfterChunks(chunk, tail)) == AfterChunks(cps + chunk, tail)
  {
    if tail.Some? {
      assert cps + (chunk + tail.value) == cps + chunk + tail.value;
    }
  }
}
