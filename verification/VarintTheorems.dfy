/** Round trips of the older streams, and the sliding tail of the unframed one. */
module VarintTheorems {
  import opened Bytes
  import opened Chunking
  import opened Tokens
  import opened Varint
  import opened VarintStream

  // ----- The scan does not see frame edges -----

  /** After a failure nothing moves. */
  lemma {:induction false} Sticky(read: Reader, st: Scan, data: seq<byte>)
    requires st.failed
    ensures TakeAll(read, st, data) == st
    decreases |data|
  {
    if data != [] {
      Sticky(read, st, data[1..]);
    }
  }

  lemma {:induction false} OffsetAdvances(s: Schedule, st: Scan, data: seq<byte>)
    requires s.Valid() && !TakeAll(TokenReader(s), st, data).failed
    ensures !st.failed && TakeAll(TokenReader(s), st, data).off == st.off + |data|
    decreases |data|
  {
    if data != [] {
      OffsetAdvances(s, Take(TokenReader(s), st, data[0]), data[1..]);
    }
  }

  lemma ScanSplit(ss: Session, st: Scan, a: seq<byte>, b: seq<byte>)
    requires ss.Valid() && !Scanned(ss, st, a).failed
    ensures Scanned(ss, st, a + b) == Scanned(ss, Scanned(ss, st, a), b)
  {
    OffsetAdvances(ss.sched, st, Mask(ss.flip, st.off, a));
    MaskSplit(ss.flip, st.off, a, b);
    TakeTwo(TokenReader(ss.sched), st, Mask(ss.flip, st.off, a + b), Mask(ss.flip, st.off, a), Mask(ss.flip, st.off + |a|, b),
            Scanned(ss, st, a));
  }

  lemma TakeTwo(read: Reader, st: Scan, whole: seq<byte>, x: seq<byte>, y: seq<byte>, mid: Scan)
    requires whole == x + y && mid == TakeAll(read, st, x)
    ensures TakeAll(read, st, whole) == TakeAll(read, mid, y)
  {
    TakeSplit(read, st, x, y);
  }

  /** A scan that succeeds in the end has not failed on the way. */
  lemma ScanPrefix(ss: Session, st: Scan, a: seq<byte>, b: seq<byte>)
    requires ss.Valid() && !Scanned(ss, st, a + b).failed
    ensures !Scanned(ss, st, a).failed
  {
    MaskSplit(ss.flip, st.off, a, b);
    var later := Mask(ss.flip, st.off + |a|, b);
    TakeSplit(TokenReader(ss.sched), st, Mask(ss.flip, st.off, a), later);
    if Scanned(ss, st, a).failed {
      Sticky(TokenReader(ss.sched), Scanned(ss, st, a), later);
    }
  }

  /** Unmasking what the encoder masked, the scan recovers the text. */
  lemma ScanBlob(ss: Session, text: seq<codepoint>)
    requires ss.Valid() && RunsEnd(ss.sched)
    ensures !Scanned(ss, START, Blob(ss, text)).failed && Scanned(ss, START, Blob(ss, text)).out == text
  {
    MaskTwice(ss.flip, 0, Plain(ss.sched, text));
    TextRoundTrip(ss.sched, text);
  }

  // ----- Frames -----

  lemma FrameFields(ss: Session, i: nat, data: seq<byte>, later: seq<byte>)
    requires |data| < 0x1_0000_0000
    ensures var s := Frame(ss, i, data) + later;
            && |s| >= 36 + |data| && FromBE(s[..4]) == |data| && s[4..4 + |data|] == data
            && s[4 + |data|..36 + |data|] == ss.chunkTag(i, data) && s[36 + |data|..] == later
  {
    FieldSizes();
    ReadBack(|data|, 4);
    CutFrame(BE(|data|, 4), data, ss.chunkTag(i, data), later);
  }

  lemma CutFrame(len: seq<byte>, data: seq<byte>, tag: Digest, later: seq<byte>)
    requires |len| == 4
    ensures var s := len + data + tag + later;
            && s[..4] == len && s[4..4 + |data|] == data && s[4 + |data|..36 + |data|] == tag && s[36 + |data|..] == later
  {
  }

  lemma DecodeFrame(ss: Session, scan: Scanner, i: nat, data: seq<byte>, later: seq<byte>, st: Scan)
    requires 0 < |data| < 0x1_0000_0000 && i <= 0xFFFF_FFFF && st.off + |data| <= 0x20_0000_0000 && !scan(st, data).failed
    ensures DecodeFrames(ss, scan, Frame(ss, i, data) + later, i, st) == DecodeFrames(ss, scan, later, i + 1, scan(st, data))
  {
    FrameFields(ss, i, data, later);
  }

  lemma DecodeSentinel(ss: Session, scan: Scanner, i: nat, extra: seq<byte>, st: Scan)
    requires i <= 0xFFFF_FFFF
    ensures DecodeFrames(ss, scan, Sentinel(ss, i) + extra, i, st) == (st.out, Complete)
  {
    FieldSizes();
    ReadBack(0, 4);
    var s := Sentinel(ss, i) + extra;
    assert s[..4] == BE(0, 4) && s[4..36] == ss.finalTag(i);
  }

  /** Cutting the input does not change where a scan that succeeds ends. */
  ghost predicate Seamless(scan: Scanner) {
    && (forall st :: scan(st, []) == st)
    && (forall st, a :: !scan(st, a).failed ==> scan(st, a).off == st.off + |a|)
    && forall st, a, b :: !scan(st, a + b).failed ==>
         !scan(st, a).failed && scan(st, a + b) == scan(scan(st, a), b)
  }

  lemma ScannerSeamless(ss: Session)
    requires ss.Valid()
    ensures Seamless(ScannerOf(ss))
  {
    forall st, a | !ScannerOf(ss)(st, a).failed
      ensures ScannerOf(ss)(st, a).off == st.off + |a|
    {
      OffsetAdvances(ss.sched, st, Mask(ss.flip, st.off, a));
    }
    forall st, a, b | !ScannerOf(ss)(st, a + b).failed
      ensures !ScannerOf(ss)(st, a).failed
      ensures ScannerOf(ss)(st, a + b) == ScannerOf(ss)(ScannerOf(ss)(st, a), b)
    {
      ScanPrefix(ss, st, a, b);
      ScanSplit(ss, st, a, b);
    }
  }

  lemma FrameThen(ss: Session, scan: Scanner, i: nat, data: seq<byte>, frames: seq<byte>, ending: seq<byte>, st: Scan,
                  res: (seq<codepoint>, Outcome))
    requires 0 < |data| < 0x1_0000_0000 && i <= 0xFFFF_FFFF && st.off + |data| <= 0x20_0000_0000 && !scan(st, data).failed
    requires DecodeFrames(ss, scan, frames + ending, i + 1, scan(st, data)) == res
    ensures DecodeFrames(ss, scan, (Frame(ss, i, data) + frames) + ending, i, st) == res
  {
    DecodeFrame(ss, scan, i, data, frames + ending, st);
    Reassociate(Frame(ss, i, data), frames, ending);
  }

  ghost predicate WholeFrames(chunks: seq<seq<byte>>) {
    forall k :: 0 <= k < |chunks| ==> 0 < |chunks[k]| < 0x1_0000_0000
  }

  /** Genuine frames are scanned as if they had never been cut. */
  lemma {:induction false} DecodeAll(ss: Session, scan: Scanner, chunks: seq<seq<byte>>, i: nat, total: nat, extra: seq<byte>,
                                     st: Scan, last: Scan)
    requires Seamless(scan) && WholeFrames(chunks) && total == i + |chunks| <= 0xFFFF_FFFF
    requires st.off + |Flatten(chunks)| <= 0x20_0000_0000
    requires last == scan(st, Flatten(chunks)) && !last.failed
    ensures DecodeFrames(ss, scan, Frames(ss, chunks, i) + (Sentinel(ss, total) + extra), i, st) == (last.out, Complete)
    decreases |chunks|
  {
    var ending := Sentinel(ss, total) + extra;
    if chunks == [] {
      assert Frames(ss, chunks, i) + ending == ending;
      DecodeSentinel(ss, scan, i, extra, st);
    } else {
      var data, later := chunks[0], chunks[1..];
      assert Flatten(chunks) == data + Flatten(later);
      DecodeAll(ss, scan, later, i + 1, total, extra, scan(st, data), last);
      FrameThen(ss, scan, i, data, Frames(ss, later, i + 1), ending, st, (last.out, Complete));
    }
  }

  lemma AfterNonce(nonce: seq<byte>, frames: seq<byte>, sentinel: seq<byte>, extra: seq<byte>, s: seq<byte>)
    requires |nonce| == 16 && s == nonce + (frames + sentinel) + extra
    ensures |s| >= 16 && s[..16] == nonce && s[16..] == frames + (sentinel + extra)
  {
  }

  lemma CutRestores(size: nat, blob: seq<byte>)
    requires size > 0
    ensures Flatten(Cut(size, blob)) == blob
    ensures Fits(Cut(size, blob)) ==> WholeFrames(Cut(size, blob))
  {
    CutWhole(size, blob);
    if Leftover(size, blob) != [] {
      FlattenAppend(FullChunks(size, blob), Leftover(size, blob));
    } else {
      assert FullChunks(size, blob) + [] == FullChunks(size, blob);
    }
  }

  /**
   For every frame size, every slicing of the stream and anything after it, decryption returns
   exactly the encrypted text, whenever every noise run is finite.
   */
  lemma AeRoundTrip(keying: Keying, nonce: seq<byte>, size: nat, text: seq<codepoint>, extra: seq<byte>, slices: seq<seq<byte>>)
    requires ValidKeying(keying) && |nonce| == 16 && size > 0 && RunsEnd(keying(nonce).sched)
    requires Encodable(keying(nonce), size, text)
    requires Concat(slices) == nonce + Body(keying(nonce), size, text) + extra
    ensures Decode(keying, Concat(slices)) == (text, Complete)
  {
    var ss, s := keying(nonce), Concat(slices);
    var chunks := Cut(size, Blob(ss, text));
    AfterNonce(nonce, Frames(ss, chunks, 0), Sentinel(ss, |chunks|), extra, s);
    DecodeGenuine(ss, size, text, extra);
    DecodeBody(keying, s, Frames(ss, chunks, 0) + (Sentinel(ss, |chunks|) + extra));
  }

  lemma DecodeGenuine(ss: Session, size: nat, text: seq<codepoint>, extra: seq<byte>)
    requires ss.Valid() && size > 0 && RunsEnd(ss.sched) && Encodable(ss, size, text)
    ensures var chunks := Cut(size, Blob(ss, text));
            DecodeFrames(ss, ScannerOf(ss), Frames(ss, chunks, 0) + (Sentinel(ss, |chunks|) + extra), 0, START) == (text, Complete)
  {
    CutRestores(size, Blob(ss, text));
    ScanBlob(ss, text);
    ScannerSeamless(ss);
    var chunks := Cut(size, Blob(ss, text));
    DecodeAll(ss, ScannerOf(ss), chunks, 0, |chunks|, extra, START, Scanned(ss, START, Blob(ss, text)));
  }

  lemma DecodeBody(keying: Keying, s: seq<byte>, rest: seq<byte>)
    requires ValidKeying(keying) && |s| >= 16 && s[16..] == rest
    ensures Decode(keying, s) == DecodeFrames(keying(s[..16]), ScannerOf(keying(s[..16])), rest, 0, START)
  {
  }

  // ----- The unframed stream -----

  ghost function Unframed(ss: Session, nonce: seq<byte>, text: seq<codepoint>): seq<byte>
    requires RunsEnd(ss.sched)
  {
    nonce + Blob(ss, text) + ss.streamTag(Blob(ss, text))
  }

  method EncryptStream(ss: Session, nonce: seq<byte>, text: seq<codepoint>) returns (out: seq<byte>)
    requires RunsEnd(ss.sched)
    ensures out == Unframed(ss, nonce, text)
  {
    var masked, pos := [], 0;
    for i := 0 to |text|
      invariant pos == PosAfter(ss.sched, i) && masked == Blob(ss, text[..i])
    {
      var buf, next := EncodeChar(ss.sched, pos, i, text[i]);
      NextBlob(ss, text, i, masked, Mask(ss.flip, |masked|, buf));
      masked, pos := masked + Mask(ss.flip, |masked|, buf), next;
    }
    assert text[..|text|] == text;
    out := nonce + masked + ss.streamTag(masked);
  }

  /** What the whole string decodes to: the last 32 bytes are the tag, all before them is text. */
  function DecodeUnframed(keying: Keying, s: seq<byte>): (seq<codepoint>, Outcome)
    requires ValidKeying(keying)
  {
    if |s| < 48 then ([], CutShort)
    else
      var ss, body := keying(s[..16]), s[16..|s| - 32];
      var st := Scanned(ss, START, body);
      if st.failed then (st.out, BadChar)
      else if ss.streamTag(body) != s[|s| - 32..] then (st.out, BadTag)
      else (st.out, Complete)
  }

  /** A failure in any part of the body is a failure of the body. */
  lemma DrainFails(ss: Session, drained: seq<byte>, rest: seq<byte>)
    requires ss.Valid() && Scanned(ss, START, drained).failed
    ensures Scanned(ss, START, drained + rest) == Scanned(ss, START, drained)
  {
    var read := TokenReader(ss.sched);
    MaskSplit(ss.flip, 0, drained, rest);
    TakeSplit(read, START, Mask(ss.flip, 0, drained), Mask(ss.flip, |drained|, rest));
    Sticky(read, Scanned(ss, START, drained), Mask(ss.flip, |drained|, rest));
  }

  /** Nothing is drained that could still be in the last 32 bytes. */
  ghost predicate Sliding(ss: Session, drained: seq<byte>, tail: seq<byte>, st: Scan)
    requires ss.Valid()
  {
    (drained == [] || |tail| >= 32) && !st.failed && st == Scanned(ss, START, drained)
  }

  /** The scan of everything but the last 32 bytes of the tail. */
  method Drain(ss: Session, drained: seq<byte>, tail: seq<byte>, st: Scan)
    returns (fed: seq<byte>, left: seq<byte>, next: Scan)
    requires ss.Valid() && Sliding(ss, drained, tail, st)
    ensures drained + tail == fed + left && next == Scanned(ss, START, fed)
    ensures if |tail| >= 32 then |left| == 32 else left == tail && fed == drained
  {
    fed, left, next := drained, tail, st;
    if |tail| > 32 {
      var data := tail[..|tail| - 32];
      ScanSplit(ss, START, drained, data);
      next := Scanned(ss, st, data);
      fed, left := drained + data, tail[|tail| - 32..];
      assert tail == data + left;
    }
  }

  lemma RegroupTail(drained: seq<byte>, tail: seq<byte>, slice: seq<byte>, later: seq<byte>, fed: seq<byte>, left: seq<byte>)
    requires drained + (tail + slice) == fed + left
    ensures drained + tail + (slice + later) == fed + left + later
  {
    assert drained + tail + (slice + later) == drained + (tail + slice) + later;
  }

  /** Any slicing: the sliding tail isolates exactly the last 32 bytes of the stream. */
  method DecryptStream(keying: Keying, slices: seq<seq<byte>>) returns (text: seq<codepoint>, how: Outcome)
    requires ValidKeying(keying)
    ensures (text, how) == DecodeUnframed(keying, Concat(slices))
  {
    ghost var s := Concat(slices);
    var head, j := [], 0;
    while |head| < 16
      invariant j <= |slices| && head + Concat(slices[j..]) == s
      decreases |slices| - j
    {
      if j == |slices| {
        return [], CutShort;
      }
      assert slices[j..] == [slices[j]] + slices[j + 1..];
      head, j := head + slices[j], j + 1;
    }
    var ss := keying(head[..16]);
    assert s[..16] == head[..16];
    var drained, tail, st := [], head[16..], START;
    while j < |slices|
      invariant j <= |slices| && s[16..] == drained + tail + Concat(slices[j..])
      invariant Sliding(ss, drained, tail, st)
    {
      assert slices[j..] == [slices[j]] + slices[j + 1..];
      var fed, left, next := Drain(ss, drained, tail + slices[j], st);
      RegroupTail(drained, tail, slices[j], Concat(slices[j + 1..]), fed, left);
      j := j + 1;
      if next.failed {
        FailsAt(keying, s, fed, left, Concat(slices[j..]));
        return next.out, BadChar;
      }
      drained, tail, st := fed, left, next;
    }
    if |tail| < 32 {
      return [], CutShort;
    }
    var fed, left, next := Drain(ss, drained, tail, st);
    EndsAt(keying, s, fed, left);
    if next.failed {
      return next.out, BadChar;
    }
    return next.out, if ss.streamTag(fed) != left then BadTag else Complete;
  }

  lemma BodySplit(s: seq<byte>, fed: seq<byte>, left: seq<byte>, later: seq<byte>)
    requires |s| >= 16 && s[16..] == fed + left + later && |left| == 32
    ensures |s| >= 48 + |fed| && s[16..|s| - 32] == fed + s[16 + |fed|..|s| - 32]
    ensures later == [] ==> s[16..|s| - 32] == fed && s[|s| - 32..] == left
  {
    assert s[16..][..|fed|] == fed;
  }

  lemma FailsAt(keying: Keying, s: seq<byte>, fed: seq<byte>, left: seq<byte>, later: seq<byte>)
    requires ValidKeying(keying) && |s| >= 16 && s[16..] == fed + left + later && |left| == 32
    requires Scanned(keying(s[..16]), START, fed).failed
    ensures DecodeUnframed(keying, s) == (Scanned(keying(s[..16]), START, fed).out, BadChar)
  {
    BodySplit(s, fed, left, later);
    DrainFails(keying(s[..16]), fed, s[16 + |fed|..|s| - 32]);
  }

  lemma EndsAt(keying: Keying, s: seq<byte>, fed: seq<byte>, left: seq<byte>)
    requires ValidKeying(keying) && |s| >= 16 && s[16..] == fed + left && |left| == 32
    ensures var ss, st := keying(s[..16]), Scanned(keying(s[..16]), START, fed);
            DecodeUnframed(keying, s) ==
              (st.out, if st.failed then BadChar else if ss.streamTag(fed) != left then BadTag else Complete)
  {
    assert fed + left + [] == fed + left;
    BodySplit(s, fed, left, []);
  }

  /** The unframed stream decodes to its text, and its scan sees all of it. */
  lemma UnframedRoundTrip(keying: Keying, nonce: seq<byte>, text: seq<codepoint>, slices: seq<seq<byte>>)
    requires ValidKeying(keying) && |nonce| == 16 && RunsEnd(keying(nonce).sched)
    requires Concat(slices) == Unframed(keying(nonce), nonce, text)
    ensures DecodeUnframed(keying, Concat(slices)) == (text, Complete)
  {
    var ss, s := keying(nonce), Concat(slices);
    var blob := Blob(ss, text);
    ScanBlob(ss, text);
    assert s[..16] == nonce && s[16..|s| - 32] == blob && s[|s| - 32..] == ss.streamTag(blob);
  }
}
