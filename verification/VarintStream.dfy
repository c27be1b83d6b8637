/**
 The older streams. Frames cut the masked bytes without regard to token edges, and the transport
 cuts the frames again; neither cut shows in what the receiver recovers.
 */
module VarintStream {
  import opened Bytes
  import opened ByteReader
  import opened Chunking
  import opened Tokens
  import opened Varint

  /** What key, nonce and associated data determine. */
  datatype Session = Session(
    sched: Schedule,
    flip: Flip,
    chunkTag: (nat, seq<byte>) -> Digest,
    finalTag: nat -> Digest,
    streamTag: seq<byte> -> Digest)
  {
    ghost predicate Valid() { sched.Valid() && Involutive(flip) }
  }

  /** `Overflow`: a chunk index beyond 32 bits, or a keystream beyond 2^32 blocks of 32 bytes. */
  datatype Outcome = Complete | CutShort | BadChunkTag(idx: nat) | BadFinalTag | BadTag | BadChar | Overflow

  // ----- Frames with a tag each -----

  function Frame(ss: Session, i: nat, data: seq<byte>): seq<byte> {
    BE(|data|, 4) + data + ss.chunkTag(i, data)
  }

  function Frames(ss: Session, chunks: seq<seq<byte>>, i: nat): seq<byte> {
    if chunks == [] then [] else Frame(ss, i, chunks[0]) + Frames(ss, chunks[1..], i + 1)
  }

  function Sentinel(ss: Session, count: nat): seq<byte> {
    BE(0, 4) + ss.finalTag(count)
  }

  /** The cut of the masked bytes, the short last piece included. */
  function Cut(size: nat, blob: seq<byte>): seq<seq<byte>>
    requires size > 0
  {
    FullChunks(size, blob) + if Leftover(size, blob) == [] then [] else [Leftover(size, blob)]
  }

  ghost function Blob(ss: Session, text: seq<codepoint>): seq<byte>
    requires RunsEnd(ss.sched)
  {
    Mask(ss.flip, 0, Plain(ss.sched, text))
  }

  /** Every length and index fits its four-byte field; otherwise the encoder raises. */
  predicate Fits(chunks: seq<seq<byte>>) {
    |chunks| < 0x1_0000_0000 && forall i :: 0 <= i < |chunks| ==> |chunks[i]| < 0x1_0000_0000
  }

  /** The keystream has a 32-bit block counter. */
  ghost predicate Encodable(ss: Session, size: nat, text: seq<codepoint>)
    requires RunsEnd(ss.sched) && size > 0
  {
    |Blob(ss, text)| <= 0x20_0000_0000 && Fits(Cut(size, Blob(ss, text)))
  }

  /** Everything after the nonce. */
  ghost function Body(ss: Session, size: nat, text: seq<codepoint>): seq<byte>
    requires RunsEnd(ss.sched) && size > 0
  {
    var chunks := Cut(size, Blob(ss, text));
    Frames(ss, chunks, 0) + Sentinel(ss, |chunks|)
  }

  // ----- Decoding, on the whole byte string -----

  function Scanned(ss: Session, st: Scan, chunk: seq<byte>): Scan
    requires ss.Valid()
  {
    TakeAll(TokenReader(ss.sched), st, Mask(ss.flip, st.off, chunk))
  }

  type Scanner = (Scan, seq<byte>) -> Scan

  function ScannerOf(ss: Session): Scanner
    requires ss.Valid()
  {
    (st: Scan, chunk: seq<byte>) => Scanned(ss, st, chunk)
  }

  /** What has been yielded when the generator stops, and how it stops. */
  function DecodeFrames(ss: Session, scan: Scanner, rest: seq<byte>, i: nat, st: Scan): (seq<codepoint>, Outcome)
    decreases |rest|
  {
    if |rest| < 4 then (st.out, CutShort)
    else
      var len := FromBE(rest[..4]);
      if len == 0 then
        if |rest| < 36 then (st.out, CutShort)
        else if i > 0xFFFF_FFFF then (st.out, Overflow)
        else if rest[4..36] != ss.finalTag(i) then (st.out, BadFinalTag)
        else (st.out, Complete)
      else if |rest| < 36 + len then (st.out, CutShort)
      else if i > 0xFFFF_FFFF then (st.out, Overflow)
      else if rest[4 + len..36 + len] != ss.chunkTag(i, rest[4..4 + len]) then (st.out, BadChunkTag(i))
      else if st.off + len > 0x20_0000_0000 then (st.out, Overflow)
      else
        var next := scan(st, rest[4..4 + len]);
        if next.failed then (next.out, BadChar) else DecodeFrames(ss, scan, rest[36 + len..], i + 1, next)
  }

  type Keying = seq<byte> -> Session

  ghost predicate ValidKeying(keying: Keying) {
    forall nonce: seq<byte> :: keying(nonce).Valid()
  }

  function Decode(keying: Keying, s: seq<byte>): (seq<codepoint>, Outcome)
    requires ValidKeying(keying)
  {
    if |s| < 16 then ([], CutShort) else DecodeFrames(keying(s[..16]), ScannerOf(keying(s[..16])), s[16..], 0, START)
  }

  /** The chunk-reading loop, over any slicing of the stream. */
  method DecryptStreamAe(keying: Keying, slices: seq<seq<byte>>) returns (text: seq<codepoint>, how: Outcome)
    requires ValidKeying(keying)
    ensures (text, how) == Decode(keying, Concat(slices))
  {
    var src := new StreamReader(slices);
    var nonce := src.ReadN(16);
    if nonce.None? {
      return [], CutShort;
    }
    var ss := keying(nonce.value);
    var scan := ScannerOf(ss);
    var st, i := START, 0;
    while true
      invariant fresh(src) && !st.failed
      invariant Decode(keying, Concat(slices)) == DecodeFrames(ss, scan, src.Rest(), i, st)
      decreases |src.Rest()|
    {
      ghost var rest := src.Rest();
      var header := src.ReadN(4);
      if header.None? {
        return st.out, CutShort;
      }
      var len := FromBE(header.value);
      if len == 0 {
        var tag := src.ReadN(32);
        if tag.None? {
          return st.out, CutShort;
        }
        if i > 0xFFFF_FFFF {
          return st.out, Overflow;
        }
        assert rest[4..][..32] == rest[4..36];
        return st.out, if tag.value != ss.finalTag(i) then BadFinalTag else Complete;
      }
      var chunk := src.ReadN(len);
      if chunk.None? {
        return st.out, CutShort;
      }
      var tag := src.ReadN(32);
      if tag.None? {
        return st.out, CutShort;
      }
      if i > 0xFFFF_FFFF {
        return st.out, Overflow;
      }
      Reads(rest, len);
      if tag.value != ss.chunkTag(i, chunk.value) {
        return st.out, BadChunkTag(i);
      }
      if st.off + len > 0x20_0000_0000 {
        return st.out, Overflow;
      }
      st := scan(st, chunk.value);
      if st.failed {
        return st.out, BadChar;
      }
      i := i + 1;
    }
  }

  lemma Reads(rest: seq<byte>, len: nat)
    requires |rest| >= 36 + len
    ensures rest[4..][..len] == rest[4..4 + len]
    ensures rest[4..][len..][..32] == rest[4 + len..36 + len]
    ensures rest[4..][len..][32..] == rest[36 + len..]
  {
  }

  // ----- The encoder -----

  lemma {:induction false} FramesAppend(ss: Session, chunks: seq<seq<byte>>, i: nat, data: seq<byte>)
    ensures Frames(ss, chunks + [data], i) == Frames(ss, chunks, i) + Frame(ss, i + |chunks|, data)
    decreases |chunks|
  {
    var more := chunks + [data];
    if chunks == [] {
      assert more[1..] == [];
    } else {
      assert more[1..] == chunks[1..] + [data];
      FramesAppend(ss, chunks[1..], i + 1, data);
    }
  }

  /** Cutting the open piece and what follows it continues the cut. */
  lemma {:induction false} AppendMany<T>(size: nat, a: seq<T>, b: seq<T>)
    requires size > 0
    ensures FullChunks(size, a + b) == FullChunks(size, a) + FullChunks(size, Leftover(size, a) + b)
    ensures Leftover(size, a + b) == Leftover(size, Leftover(size, a) + b)
    decreases |a|
  {
    if |a| >= size {
      AppendMany(size, a[size..], b);
      assert (a + b)[..size] == a[..size] && (a + b)[size..] == a[size..] + b;
    }
  }

  lemma Regrouped<T>(a: seq<T>, x: T, b: seq<T>)
    ensures a + ([x] + b) == a + [x] + b
  {
  }

  /** Send every complete chunk of `pending`; nothing when a field would overflow. */
  method Flush(ss: Session, size: nat, pending: seq<byte>, idx: nat)
    returns (frames: seq<byte>, left: seq<byte>, next: nat, ok: bool)
    requires size > 0
    ensures ok ==> frames == Frames(ss, FullChunks(size, pending), idx) && left == Leftover(size, pending)
    ensures ok ==> next == idx + |FullChunks(size, pending)|
    ensures ok && FullChunks(size, pending) != [] ==> size < 0x1_0000_0000
    ensures !ok ==> idx + |FullChunks(size, pending)| > 0x1_0000_0000 || size >= 0x1_0000_0000
    ensures !ok ==> FullChunks(size, pending) != []
  {
    frames, left, next, ok := [], pending, idx, true;
    ghost var sent := [];
    while |left| >= size
      invariant FullChunks(size, pending) == sent + FullChunks(size, left) && Leftover(size, pending) == Leftover(size, left)
      invariant frames == Frames(ss, sent, idx) && next == idx + |sent|
      invariant sent != [] ==> size < 0x1_0000_0000
      decreases |left|
    {
      var data := left[..size];
      if next >= 0x1_0000_0000 || size >= 0x1_0000_0000 {
        return frames, left, next, false;
      }
      FramesAppend(ss, sent, idx, data);
      Regrouped(sent, data, FullChunks(size, left[size..]));
      sent := sent + [data];
      frames, left, next := frames + Frame(ss, next, data), left[size..], next + 1;
    }
    assert sent + [] == sent;
  }

  /** After the masked bytes `done`: what has been sent and what is held. */
  ghost predicate Encoded(ss: Session, size: nat, nonce: seq<byte>, done: seq<byte>, out: seq<byte>, pending: seq<byte>, idx: nat)
    requires size > 0
  {
    && out == nonce + Frames(ss, FullChunks(size, done), 0) && pending == Leftover(size, done)
    && idx == |FullChunks(size, done)|
  }

  lemma EncodedNext(ss: Session, size: nat, nonce: seq<byte>, done: seq<byte>, out: seq<byte>, pending: seq<byte>, idx: nat,
                    masked: seq<byte>, frames: seq<byte>, more: seq<byte>)
    requires size > 0 && Encoded(ss, size, nonce, done, out, pending, idx) && more == pending + masked
    requires frames == Frames(ss, FullChunks(size, more), idx)
    ensures Encoded(ss, size, nonce, done + masked, out + frames, Leftover(size, more), idx + |FullChunks(size, more)|)
  {
    AppendMany(size, done, masked);
    SentNext(ss, nonce, FullChunks(size, done), FullChunks(size, more), out, frames);
  }

  lemma SentNext(ss: Session, nonce: seq<byte>, a: seq<seq<byte>>, b: seq<seq<byte>>, out: seq<byte>, frames: seq<byte>)
    requires out == nonce + Frames(ss, a, 0) && frames == Frames(ss, b, |a|)
    ensures out + frames == nonce + Frames(ss, a + b, 0)
  {
    FramesJoin(ss, a, b);
  }

  lemma EncodedAll(ss: Session, size: nat, nonce: seq<byte>, done: seq<byte>, out: seq<byte>, pending: seq<byte>, idx: nat)
    requires size > 0 && Encoded(ss, size, nonce, done, out, pending, idx)
    ensures nonce + Frames(ss, Cut(size, done), 0) == if pending == [] then out else out + Frame(ss, idx, pending)
    ensures |Cut(size, done)| == if pending == [] then idx else idx + 1
  {
    if pending == [] {
      assert Cut(size, done) == FullChunks(size, done);
    } else {
      FramesAppend(ss, FullChunks(size, done), 0, pending);
    }
  }

  /** The encoder before character `i`. */
  ghost predicate Encoding(ss: Session, size: nat, nonce: seq<byte>, text: seq<codepoint>, i: nat, done: seq<byte>, e: Encoder)
    requires RunsEnd(ss.sched) && size > 0 && i <= |text|
  {
    && e.pos == PosAfter(ss.sched, i) && e.off == |done| <= 0x20_0000_0000 && done == Blob(ss, text[..i])
    && Encoded(ss, size, nonce, done, e.out, e.pending, e.idx)
    && (FullChunks(size, done) != [] ==> size < 0x1_0000_0000)
  }

  /** Bytes sent and held, token position, keystream offset and chunk index. */
  datatype Encoder = Encoder(out: seq<byte>, pending: seq<byte>, pos: nat, off: nat, idx: nat)

  lemma EncodingNext(ss: Session, size: nat, nonce: seq<byte>, text: seq<codepoint>, i: nat, done: seq<byte>, e: Encoder,
                     masked: seq<byte>, more: seq<byte>, frames: seq<byte>)
    requires RunsEnd(ss.sched) && size > 0 && i < |text| && Encoding(ss, size, nonce, text, i, done, e)
    requires done + masked == Blob(ss, text[..i + 1]) && |done + masked| <= 0x20_0000_0000
    requires more == e.pending + masked && frames == Frames(ss, FullChunks(size, more), e.idx)
    requires FullChunks(size, more) != [] ==> size < 0x1_0000_0000
    ensures Encoding(ss, size, nonce, text, i + 1, done + masked,
                     Encoder(e.out + frames, Leftover(size, more), RealPos(ss.sched, e.pos) + 1, e.off + |masked|,
                             e.idx + |FullChunks(size, more)|))
  {
    EncodedNext(ss, size, nonce, done, e.out, e.pending, e.idx, masked, frames, more);
    AppendMany(size, done, masked);
  }

  lemma TooLong(ss: Session, size: nat, text: seq<codepoint>, n: nat)
    requires RunsEnd(ss.sched) && size > 0 && n <= |text| && |Blob(ss, text[..n])| > 0x20_0000_0000
    ensures !Encodable(ss, size, text)
  {
    BlobGrows(ss, text, n);
  }

  lemma NotFlushed(ss: Session, size: nat, nonce: seq<byte>, text: seq<codepoint>, i: nat, done: seq<byte>, e: Encoder, masked: seq<byte>)
    requires RunsEnd(ss.sched) && size > 0 && i < |text| && Encoding(ss, size, nonce, text, i, done, e)
    requires done + masked == Blob(ss, text[..i + 1])
    requires var chunks := FullChunks(size, e.pending + masked);
             chunks != [] && (e.idx + |chunks| > 0x1_0000_0000 || size >= 0x1_0000_0000)
    ensures !Encodable(ss, size, text)
  {
    AppendMany(size, done, masked);
    Overflows(ss, size, text, i + 1);
  }

  /** One turn of the loop over the characters. */
  method EncodeNext(ss: Session, size: nat, ghost nonce: seq<byte>, text: seq<codepoint>, i: nat, ghost done: seq<byte>, e: Encoder)
    returns (ghost more: seq<byte>, next: Option<Encoder>)
    requires RunsEnd(ss.sched) && size > 0 && i < |text| && Encoding(ss, size, nonce, text, i, done, e)
    ensures next.Some? ==> Encoding(ss, size, nonce, text, i + 1, more, next.value)
    ensures next.None? ==> !Encodable(ss, size, text)
  {
    var buf, pos := EncodeChar(ss.sched, e.pos, i, text[i]);
    var masked := Mask(ss.flip, e.off, buf);
    more := done + masked;
    NextBlob(ss, text, i, done, masked);
    if e.off + |buf| > 0x20_0000_0000 {
      TooLong(ss, size, text, i + 1);
      return more, None;
    }
    var frames, left, idx, ok := Flush(ss, size, e.pending + masked, e.idx);
    if !ok {
      NotFlushed(ss, size, nonce, text, i, done, e, masked);
      return more, None;
    }
    next := Some(Encoder(e.out + frames, left, pos, e.off + |buf|, idx));
    EncodingNext(ss, size, nonce, text, i, done, e, masked, e.pending + masked, frames);
  }

  /** One pass over the characters; `None` when the keystream, a length or an index overflows. */
  method EncryptStreamAe(ss: Session, nonce: seq<byte>, text: seq<codepoint>, size: nat) returns (res: Option<seq<byte>>)
    requires RunsEnd(ss.sched) && size > 0
    ensures res.Some? ==> res.value == nonce + Body(ss, size, text)
    ensures res.None? <==> !Encodable(ss, size, text)
  {
    var e := Encoder(nonce, [], 0, 0, 0);
    ghost var done: seq<byte> := [];
    for i := 0 to |text|
      invariant Encoding(ss, size, nonce, text, i, done, e)
    {
      ghost var more;
      var next;
      more, next := EncodeNext(ss, size, nonce, text, i, done, e);
      if next.None? {
        return None;
      }
      done, e := more, next.value;
    }
    assert text[..|text|] == text;
    EncodedAll(ss, size, nonce, done, e.out, e.pending, e.idx);
    res := Finish(ss, nonce, Cut(size, done), e.out, e.pending, e.idx);
  }

  /** The short last frame, if there is one, and the sentinel. */
  method Finish(ss: Session, ghost nonce: seq<byte>, ghost chunks: seq<seq<byte>>, out: seq<byte>, pending: seq<byte>, idx: nat)
    returns (res: Option<seq<byte>>)
    requires nonce + Frames(ss, chunks, 0) == if pending == [] then out else out + Frame(ss, idx, pending)
    requires |chunks| == if pending == [] then idx else idx + 1
    requires pending != [] ==> chunks[idx] == pending
    requires forall i :: 0 <= i < idx ==> |chunks[i]| < 0x1_0000_0000
    ensures res.Some? ==> res.value == nonce + (Frames(ss, chunks, 0) + Sentinel(ss, |chunks|))
    ensures res.None? <==> !Fits(chunks)
  {
    if pending == [] {
      res := Seal(ss, out, idx);
    } else if |pending| >= 0x1_0000_0000 {
      return None;
    } else if idx >= 0x1_0000_0000 {
      return None;
    } else {
      res := Seal(ss, out + Frame(ss, idx, pending), idx + 1);
    }
    Reassociate(nonce, Frames(ss, chunks, 0), Sentinel(ss, |chunks|));
  }

  method Seal(ss: Session, sent: seq<byte>, count: nat) returns (res: Option<seq<byte>>)
    ensures res == if count >= 0x1_0000_0000 then None else Some(sent + Sentinel(ss, count))
  {
    if count >= 0x1_0000_0000 {
      return None;
    }
    return Some(sent + Sentinel(ss, count));
  }

  lemma NextBlob(ss: Session, text: seq<codepoint>, i: nat, done: seq<byte>, masked: seq<byte>)
    requires RunsEnd(ss.sched) && i < |text| && done == Blob(ss, text[..i])
    requires masked == Mask(ss.flip, |done|, CharBytes(ss.sched, PosAfter(ss.sched, i), i, text[i]))
    ensures Blob(ss, text[..i + 1]) == done + masked
  {
    assert text[..i + 1][..i] == text[..i];
    MaskSplit(ss.flip, 0, Plain(ss.sched, text[..i]), CharBytes(ss.sched, PosAfter(ss.sched, i), i, text[i]));
  }

  lemma {:induction false} FramesJoin(ss: Session, a: seq<seq<byte>>, b: seq<seq<byte>>)
    ensures Frames(ss, a + b, 0) == Frames(ss, a, 0) + Frames(ss, b, |a|)
    decreases |b|
  {
    if b == [] {
      assert a + b == a;
    } else {
      var n := |b| - 1;
      FramesJoin(ss, a, b[..n]);
      FramesAppend(ss, a + b[..n], 0, b[n]);
      FramesAppend(ss, b[..n], |a|, b[n]);
      assert b == b[..n] + [b[n]] && a + b == a + b[..n] + [b[n]];
    }
  }

  /** An overflow in the cut of a prefix is one in the cut of the whole. */
  lemma Overflows(ss: Session, size: nat, text: seq<codepoint>, n: nat)
    requires RunsEnd(ss.sched) && size > 0 && n <= |text|
    requires var full := FullChunks(size, Blob(ss, text[..n]));
             full != [] && (|full| > 0x1_0000_0000 || size >= 0x1_0000_0000)
    ensures !Fits(Cut(size, Blob(ss, text)))
  {
    BlobGrows(ss, text, n);
    var part := Blob(ss, text[..n]);
    CountGrows(size, Blob(ss, text), |part|);
    var full := FullChunks(size, Blob(ss, text));
    assert Cut(size, Blob(ss, text))[0] == full[0];
  }

  lemma {:induction false} BlobGrows(ss: Session, text: seq<codepoint>, n: nat)
    requires RunsEnd(ss.sched) && n <= |text|
    ensures |Blob(ss, text[..n])| <= |Blob(ss, text)| && Blob(ss, text)[..|Blob(ss, text[..n])|] == Blob(ss, text[..n])
    decreases |text|
  {
    if n == |text| {
      assert text[..n] == text;
    } else {
      var m := |text| - 1;
      BlobGrows(ss, text[..m], n);
      assert text[..m][..n] == text[..n];
      MaskSplit(ss.flip, 0, Plain(ss.sched, text[..m]), CharBytes(ss.sched, PosAfter(ss.sched, m), m, text[m]));
    }
  }
}
