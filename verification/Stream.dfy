/**
 The v8 streaming format: header, one tagged frame per F codepoints, masked-count sentinel.
 A session is the keyed primitives one stream calls, chunk by chunk; SessionOf derives them.
 */
module Stream {
  import opened Bytes
  import opened Chunking
  import opened Derivation
  import Tokens

  datatype ChunkError = NotWholeTokens | BadToken(token: Tokens.TokenError)

  datatype Session = Session(
    f: nat,
    nonce: seq<byte>,
    seal: (nat, seq<scalar>) -> seq<byte>,
    open: (nat, seq<byte>) -> Result<seq<scalar>, ChunkError>,
    filler: (nat, nat) -> scalar,
    chunkTag: (nat, seq<byte>) -> Digest,
    sentinelTag: (nat, nat) -> Digest,
    countMask: nat -> Digest)
  {
    /** What the primitives guarantee: fixed sizes, and opening inverts sealing. */
    ghost predicate Valid() {
      && 1 <= f <= 16_384 && |nonce| == 16
      && (forall i: nat, chunk: seq<scalar> :: |seal(i, chunk)| == 160 * |chunk|)
      && (forall i: nat, chunk: seq<scalar> :: |chunk| == f ==> open(i, seal(i, chunk)) == Ok(chunk))
      && (forall i: nat, masked: seq<byte> :: open(i, masked).Ok? ==> |open(i, masked).value| == f)
    }

    /** Length prefix, body, tag. */
    function Tagged(i: nat, masked: seq<byte>): (b: seq<byte>)
      ensures |b| == 36 + |masked|
    {
      BE(|masked|, 4) + masked + chunkTag(i, masked)
    }

    function Frame(i: nat, chunk: seq<scalar>): seq<byte> {
      Tagged(i, seal(i, chunk))
    }

    /** The count field: its 64-bit XOR with the mask, byte by byte. */
    function CountField(count: nat, total: nat): (b: seq<byte>)
      ensures |b| == 8
    {
      XorBytes(BE(total, 8), countMask(count)[..8])
    }

    function Sentinel(count: nat, total: nat): (b: seq<byte>)
      ensures |b| == 44
    {
      BE(0, 4) + CountField(count, total) + sentinelTag(count, total)
    }

    function Fillers(i: nat, count: nat): (p: seq<scalar>)
      ensures |p| == count
    {
      if count == 0 then [] else Fillers(i, count - 1) + [filler(i, count - 1)]
    }

    /** Frames of whole chunks, numbered from `i`. */
    function Frames(i: nat, chunks: seq<seq<scalar>>): seq<byte>
      decreases |chunks|
    {
      if chunks == [] then [] else Frame(i, chunks[0]) + Frames(i + 1, chunks[1..])
    }

    /** A partial last chunk is filled up to F codepoints. */
    function Filled(i: nat, left: seq<scalar>): (chunk: seq<scalar>)
      requires |left| <= f
      ensures |chunk| == f
    {
      left + Fillers(i, f - |left|)
    }

    /** The chunks as they are encrypted, numbered from `i`. */
    function AllChunks(i: nat, msg: seq<scalar>): (chunks: seq<seq<scalar>>)
      requires f > 0
      ensures |chunks| == ChunkCount(f, msg)
    {
      var full, left := FullChunks(f, msg), Leftover(f, msg);
      full + if |left| == 0 then [] else [Filled(i + |full|, left)]
    }

    function LastFrame(msg: seq<scalar>): seq<byte>
      requires f > 0
    {
      ClosingFrame(|FullChunks(f, msg)|, Leftover(f, msg))
    }

    function ClosingFrame(n: nat, left: seq<scalar>): seq<byte>
      requires |left| <= f
    {
      if |left| == 0 then [] else Frame(n, Filled(n, left))
    }

    function StreamBytes(msg: seq<scalar>): seq<byte>
      requires f > 0
    {
      Header(f, nonce) + Frames(0, AllChunks(0, msg)) + Sentinel(ChunkCount(f, msg), |msg|)
    }
  }

  datatype EncodeError = ChunkLimit | Finished

  /** Chunk indices are 32-bit and must not wrap. */
  function Encrypted(ss: Session, msg: seq<scalar>): Result<seq<byte>, EncodeError>
    requires ss.f > 0
  {
    if ChunkCount(ss.f, msg) > 0xFFFF_FFFF then Err(ChunkLimit) else Ok(ss.StreamBytes(msg))
  }

  /** Encryption is refused exactly for messages longer than F * (2^32 - 1) codepoints. */
  lemma RefusedExactly(ss: Session, msg: seq<scalar>)
    requires ss.f > 0
    ensures Encrypted(ss, msg).Err? <==> |msg| > ss.f * 0xFFFF_FFFF
  {
    ChunkCountExact(ss.f, msg, 0xFFFF_FFFF);
  }

  lemma {:induction false} FramesAppend(ss: Session, i: nat, chunks: seq<seq<scalar>>, chunk: seq<scalar>)
    ensures ss.Frames(i, chunks + [chunk]) == ss.Frames(i, chunks) + ss.Frame(i + |chunks|, chunk)
    decreases |chunks|
  {
    var more := chunks + [chunk];
    if chunks == [] {
      assert more[1..] == [];
    } else {
      assert more[1..] == chunks[1..] + [chunk];
      FramesAppend(ss, i + 1, chunks[1..], chunk);
    }
  }

  lemma LastChunk(ss: Session, msg: seq<scalar>)
    requires ss.f > 0
    ensures ss.Frames(0, ss.AllChunks(0, msg)) == ss.Frames(0, FullChunks(ss.f, msg)) + ss.LastFrame(msg)
  {
    var full, left := FullChunks(ss.f, msg), Leftover(ss.f, msg);
    if |left| == 0 {
      assert ss.AllChunks(0, msg) == full;
    } else {
      FramesAppend(ss, 0, full, ss.Filled(|full|, left));
    }
  }

  lemma Regroup(head: seq<byte>, frames: seq<byte>, last: seq<byte>, sentinel: seq<byte>)
    ensures head + (frames + last) + sentinel == head + frames + (last + sentinel)
  {
  }

  // ----- Encoding -----

  method EmitChunk(ss: Session, i: nat, chunk: seq<scalar>) returns (out: seq<byte>)
    ensures out == ss.Frame(i, chunk)
  {
    var masked := ss.seal(i, chunk);
    out := BE(|masked|, 4) + masked + ss.chunkTag(i, masked);
  }

  method FillChunk(ss: Session, i: nat, left: seq<scalar>) returns (chunk: seq<scalar>)
    requires |left| <= ss.f
    ensures chunk == ss.Filled(i, left)
  {
    chunk := left;
    for j := 0 to ss.f - |left|
      invariant chunk == left + ss.Fillers(i, j)
    {
      chunk := chunk + [ss.filler(i, j)];
    }
  }

  /** The partial last chunk, if there is one, and the sentinel. */
  method EmitRest(ss: Session, chunkIdx: nat, cpBuf: seq<scalar>, total: nat) returns (out: seq<byte>)
    requires |cpBuf| <= ss.f
    ensures out == ss.ClosingFrame(chunkIdx, cpBuf) + ss.Sentinel(chunkIdx + if |cpBuf| == 0 then 0 else 1, total)
  {
    out := [];
    var count := chunkIdx;
    if cpBuf != [] {
      var chunk := FillChunk(ss, chunkIdx, cpBuf);
      out := EmitChunk(ss, chunkIdx, chunk);
      count := chunkIdx + 1;
    }
    out := out + ss.Sentinel(count, total);
  }

  /** The one-shot encoder. */
  method EncryptStream(ss: Session, plaintext: seq<scalar>) returns (res: Result<seq<byte>, EncodeError>)
    requires ss.f > 0
    ensures res == Encrypted(ss, plaintext)
  {
    var stream := Header(ss.f, ss.nonce);
    var cpBuf: seq<scalar> := [];
    var total, chunkIdx := 0, 0;
    ghost var done: seq<seq<scalar>> := [];
    while total < |plaintext|
      invariant total <= |plaintext| && chunkIdx <= 0xFFFF_FFFF
      invariant done == FullChunks(ss.f, plaintext[..total]) && chunkIdx == |done|
      invariant cpBuf == Leftover(ss.f, plaintext[..total])
      invariant stream == Header(ss.f, ss.nonce) + ss.Frames(0, done)
    {
      AppendOne(ss.f, plaintext[..total], plaintext[total]);
      assert plaintext[..total] + [plaintext[total]] == plaintext[..total + 1];
      cpBuf := cpBuf + [plaintext[total]];
      total := total + 1;
      if |cpBuf| >= ss.f {
        if chunkIdx == 0xFFFF_FFFF {
          CountGrows(ss.f, plaintext, total);
          return Err(ChunkLimit);
        }
        var frame := EmitChunk(ss, chunkIdx, cpBuf);
        FramesAppend(ss, 0, done, cpBuf);
        done := done + [cpBuf];
        stream := stream + frame;
        cpBuf := [];
        chunkIdx := chunkIdx + 1;
      }
    }
    assert plaintext[..total] == plaintext;
    res := CloseStream(ss, plaintext, stream, cpBuf, chunkIdx, total);
  }

  /** The end of the encoder: the last chunk, refused at the limit, and the sentinel. */
  method CloseStream(ss: Session, ghost plaintext: seq<scalar>, stream: seq<byte>, cpBuf: seq<scalar>, chunkIdx: nat, total: nat)
    returns (res: Result<seq<byte>, EncodeError>)
    requires ss.f > 0 && chunkIdx == |FullChunks(ss.f, plaintext)| <= 0xFFFF_FFFF && total == |plaintext|
    requires cpBuf == Leftover(ss.f, plaintext)
    requires stream == Header(ss.f, ss.nonce) + ss.Frames(0, FullChunks(ss.f, plaintext))
    ensures res == Encrypted(ss, plaintext)
  {
    if cpBuf != [] && chunkIdx == 0xFFFF_FFFF {
      return Err(ChunkLimit);
    }
    LastChunk(ss, plaintext);
    var last := EmitRest(ss, chunkIdx, cpBuf, total);
    Regroup(Header(ss.f, ss.nonce), ss.Frames(0, FullChunks(ss.f, plaintext)), ss.LastFrame(plaintext),
            ss.Sentinel(ChunkCount(ss.f, plaintext), |plaintext|));
    res := Ok(stream + last);
  }

  /** The chunk-at-a-time encoder. */
  class StreamV8Encryptor {
    const ss: Session
    var chunkIdx: nat
    var totalRealCps: nat
    var cpBuf: seq<scalar>
    var finished: bool
    /** Every codepoint pushed, and every byte handed out since the header. */
    ghost var pushed: seq<scalar>
    ghost var emitted: seq<byte>

    ghost predicate Valid()
      reads this
    {
      && ss.f > 0
      && chunkIdx == |FullChunks(ss.f, pushed)| <= 0xFFFF_FFFF
      && totalRealCps == |pushed|
      && cpBuf == Leftover(ss.f, pushed)
      && emitted == ss.Frames(0, FullChunks(ss.f, pushed))
      && (chunkIdx == 0xFFFF_FFFF ==> cpBuf == [])
    }

    constructor (ss: Session)
      requires ss.f > 0
      ensures Valid() && !finished && this.ss == ss && pushed == [] && emitted == []
    {
      this.ss := ss;
      chunkIdx, totalRealCps, cpBuf, finished := 0, 0, [], false;
      pushed, emitted := [], [];
    }

    method Push(ch: scalar) returns (res: Result<Option<seq<byte>>, EncodeError>)
      requires Valid()
      modifies this
      ensures finished == old(finished)
      ensures old(finished) ==> res == Err(Finished)
      ensures !old(finished) ==> if |old(pushed)| >= ss.f * 0xFFFF_FFFF then res == Err(ChunkLimit) else res.Ok?
      ensures res.Err? ==> Valid() && pushed == old(pushed) && emitted == old(emitted)
      ensures res.Ok? ==> Valid() && pushed == old(pushed) + [ch]
      ensures res.Ok? ==> (res.value.Some? <==> |old(cpBuf)| + 1 == ss.f)
      ensures res.Ok? ==> emitted == old(emitted) + if res.value.Some? then res.value.value else []
    {
      ChunkCountExact(ss.f, pushed, 0xFFFF_FFFF);
      if finished {
        return Err(Finished);
      }
      if chunkIdx == 0xFFFF_FFFF {
        return Err(ChunkLimit);
      }
      AppendOne(ss.f, pushed, ch);
      FramesAppend(ss, 0, FullChunks(ss.f, pushed), cpBuf + [ch]);
      cpBuf := cpBuf + [ch];
      totalRealCps := totalRealCps + 1;
      pushed := pushed + [ch];
      if |cpBuf| >= ss.f {
        var frame := EmitChunk(ss, chunkIdx, cpBuf);
        cpBuf := [];
        chunkIdx := chunkIdx + 1;
        emitted := emitted + frame;
        return Ok(Some(frame));
      }
      return Ok(None);
    }

    /** Header, every pushed frame and this output are the one-shot encoding of what was pushed. */
    method Finish() returns (res: Result<seq<byte>, EncodeError>)
      requires Valid()
      modifies this
      ensures finished && Valid() && pushed == old(pushed) && emitted == old(emitted)
      ensures old(finished) ==> res == Err(Finished)
      ensures !old(finished) ==>
                res.Ok? && Encrypted(ss, old(pushed)) == Ok(Header(ss.f, ss.nonce) + old(emitted) + res.value)
    {
      if finished {
        return Err(Finished);
      }
      finished := true;
      var out := EmitRest(ss, chunkIdx, cpBuf, totalRealCps);
      LastChunk(ss, pushed);
      Regroup(Header(ss.f, ss.nonce), emitted, ss.LastFrame(pushed), ss.Sentinel(ChunkCount(ss.f, pushed), |pushed|));
      return Ok(out);
    }
  }

  /** Driving the class over a whole message gives the one-shot result, refusals included. */
  method EncryptByPushing(ss: Session, msg: seq<scalar>) returns (res: Result<seq<byte>, EncodeError>)
    requires ss.f > 0
    ensures res == Encrypted(ss, msg)
  {
    var enc := new StreamV8Encryptor(ss);
    var stream := Header(ss.f, ss.nonce);
    for i := 0 to |msg|
      invariant enc.Valid() && !enc.finished && enc.ss == ss && fresh(enc) && enc.pushed == msg[..i]
      invariant stream == Header(ss.f, ss.nonce) + enc.emitted
    {
      var out := enc.Push(msg[i]);
      if out.Err? {
        RefusedExactly(ss, msg);
        return Err(ChunkLimit);
      }
      stream := stream + if out.value.Some? then out.value.value else [];
      assert msg[..i + 1] == msg[..i] + [msg[i]];
    }
    assert msg[..|msg|] == msg;
    var last := enc.Finish();
    return Ok(stream + last.value);
  }
}
