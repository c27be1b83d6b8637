/** Authenticity of the older streams: what was yielded had its tags checked, and whose tags those can be. */
module VarintAuthenticity {
  import opened Bytes
  import opened Chunking
  import opened Derivation
  import opened Keyed
  import opened Varint
  import opened VarintStream
  import opened VarintTheorems
  import opened VarintSession
  import Tokens

  // ----- What a decoded stream must look like -----

  /** A frame whose tag verifies is, byte for byte, the frame of its data. */
  lemma FrameAtHead(ss: Session, rest: seq<byte>, i: nat, len: nat)
    requires |rest| >= 36 + len && len == FromBE(rest[..4])
    requires rest[4 + len..36 + len] == ss.chunkTag(i, rest[4..4 + len])
    ensures len < 0x1_0000_0000 && rest == Frame(ss, i, rest[4..4 + len]) + rest[36 + len..]
  {
    FromBEBound(rest[..4]);
    FieldSizes();
    WriteBack(rest[..4]);
    assert rest == rest[..4] + rest[4..4 + len] + rest[4 + len..36 + len] + rest[36 + len..];
  }

  lemma SentinelAtHead(ss: Session, rest: seq<byte>, i: nat)
    requires |rest| >= 36 && FromBE(rest[..4]) == 0 && rest[4..36] == ss.finalTag(i)
    ensures Sentinel(ss, i) <= rest
  {
    WriteBack(rest[..4]);
    assert rest[..36] == rest[..4] + rest[4..36];
  }

  /** `chunks` are the frames at the head of `rest` that were scanned, and `res` is what came of them. */
  ghost predicate Shows(ss: Session, rest: seq<byte>, i: nat, st: Scan, chunks: seq<seq<byte>>, res: (seq<codepoint>, Outcome))
    requires ss.Valid()
  {
    && WholeFrames(chunks) && Frames(ss, chunks, i) <= rest
    && res.0 == Scanned(ss, st, Flatten(chunks)).out
    && (res.1 == BadChar <==> Scanned(ss, st, Flatten(chunks)).failed)
    && (chunks != [] ==> i + |chunks| <= 0x1_0000_0000)
    && (res.1 == Complete ==> i + |chunks| <= 0xFFFF_FFFF && Frames(ss, chunks, i) + Sentinel(ss, i + |chunks|) <= rest)
  }

  lemma ShowsNothing(ss: Session, rest: seq<byte>, i: nat, st: Scan, how: Outcome)
    requires ss.Valid() && !st.failed && how != BadChar
    requires how == Complete ==> i <= 0xFFFF_FFFF && Sentinel(ss, i) <= rest
    ensures Shows(ss, rest, i, st, [], (st.out, how))
  {
    assert Flatten<byte>([]) == [];
    assert Frames(ss, [], i) + Sentinel(ss, i) == Sentinel(ss, i);
  }

  lemma ShowsLast(ss: Session, rest: seq<byte>, i: nat, st: Scan, data: seq<byte>, later: seq<byte>)
    requires ss.Valid() && 0 < |data| < 0x1_0000_0000 && i <= 0xFFFF_FFFF && rest == Frame(ss, i, data) + later
    requires Scanned(ss, st, data).failed
    ensures Shows(ss, rest, i, st, [data], (Scanned(ss, st, data).out, BadChar))
  {
    assert Flatten([data]) == data;
    assert Frames(ss, [data], i) == Frame(ss, i, data);
  }

  lemma ShowsMore(ss: Session, rest: seq<byte>, i: nat, st: Scan, data: seq<byte>, later: seq<byte>, chunks: seq<seq<byte>>,
                  res: (seq<codepoint>, Outcome))
    requires ss.Valid() && 0 < |data| < 0x1_0000_0000 && i <= 0xFFFF_FFFF && rest == Frame(ss, i, data) + later
    requires !Scanned(ss, st, data).failed && Shows(ss, later, i + 1, Scanned(ss, st, data), chunks, res)
    ensures Shows(ss, rest, i, st, [data] + chunks, res)
  {
    var all := [data] + chunks;
    assert all[1..] == chunks;
    FlattenHead(data, chunks);
    ScanSplit(ss, st, data, Flatten(chunks));
    LongerHead(Frame(ss, i, data), Frames(ss, chunks, i + 1), later);
    LongerHead(Frame(ss, i, data), Frames(ss, chunks, i + 1) + Sentinel(ss, i + 1 + |chunks|), later);
    Reassociate(Frame(ss, i, data), Frames(ss, chunks, i + 1), Sentinel(ss, i + 1 + |chunks|));
  }

  lemma FlattenHead(data: seq<byte>, chunks: seq<seq<byte>>)
    ensures Flatten([data] + chunks) == data + Flatten(chunks)
  {
    assert ([data] + chunks)[1..] == chunks;
  }

  lemma LongerHead(head: seq<byte>, a: seq<byte>, later: seq<byte>)
    ensures a <= later ==> head + a <= head + later
  {
  }

  lemma {:induction false} FramesShown(ss: Session, rest: seq<byte>, i: nat, st: Scan) returns (chunks: seq<seq<byte>>)
    requires ss.Valid() && !st.failed
    ensures Shows(ss, rest, i, st, chunks, DecodeFrames(ss, ScannerOf(ss), rest, i, st))
    decreases |rest|
  {
    var len := if |rest| < 4 then 0 else FromBE(rest[..4]);
    if TakesFrame(ss, rest, i, len, st.off) {
      var data, later := rest[4..4 + len], rest[36 + len..];
      FrameAtHead(ss, rest, i, len);
      if Scanned(ss, st, data).failed {
        chunks := [data];
        ShowsLast(ss, rest, i, st, data, later);
      } else {
        var more := FramesShown(ss, later, i + 1, Scanned(ss, st, data));
        chunks := [data] + more;
        ShowsMore(ss, rest, i, st, data, later, more, DecodeFrames(ss, ScannerOf(ss), later, i + 1, Scanned(ss, st, data)));
      }
    } else {
      chunks := [];
      var how := DecodeFrames(ss, ScannerOf(ss), rest, i, st).1;
      if how == Complete {
        SentinelAtHead(ss, rest, i);
      }
      ShowsNothing(ss, rest, i, st, how);
    }
  }

  /** The frame at the head passes every check before its scan. */
  predicate TakesFrame(ss: Session, rest: seq<byte>, i: nat, len: nat, off: nat) {
    && |rest| >= 36 + len && len != 0 && len == FromBE(rest[..4]) && i <= 0xFFFF_FFFF
    && rest[4 + len..36 + len] == ss.chunkTag(i, rest[4..4 + len]) && off + len <= 0x20_0000_0000
  }

  /**
   Whatever is decoded, and however decoding ends: the text is the scan of frames that stand at
   the head of the stream with their tags, and a complete stream goes on with the sentinel.
   */
  lemma DecodeShows(keying: Keying, s: seq<byte>) returns (chunks: seq<seq<byte>>)
    requires ValidKeying(keying) && |s| >= 16
    ensures var ss := keying(s[..16]);
            && s[..16] + Frames(ss, chunks, 0) <= s
            && Decode(keying, s).0 == Scanned(ss, START, Flatten(chunks)).out
            && (Decode(keying, s).1 == BadChar <==> Scanned(ss, START, Flatten(chunks)).failed)
            && (Decode(keying, s).1 == Complete ==> s[..16] + Frames(ss, chunks, 0) + Sentinel(ss, |chunks|) <= s)
  {
    var ss := keying(s[..16]);
    chunks := FramesShown(ss, s[16..], 0, START);
    HeadOf(s, Frames(ss, chunks, 0));
    HeadOf(s, Frames(ss, chunks, 0) + Sentinel(ss, |chunks|));
    Reassociate(s[..16], Frames(ss, chunks, 0), Sentinel(ss, |chunks|));
  }

  lemma HeadOf(s: seq<byte>, t: seq<byte>)
    requires |s| >= 16
    ensures t <= s[16..] ==> s[..16] + t <= s
  {
  }

  // ----- Tag messages are injective -----

  /** Every field fits the width it is written with. */
  ghost predicate FitsTag(q: TagQuery) {
    && |q.nonce| == 16 && |q.aad| < Pow256(4)
    && (q.FrameTag? ==> q.idx < Pow256(4)) && (q.CountTag? ==> q.count < Pow256(4))
  }

  lemma SplitShort(a: seq<byte>, s: seq<byte>, b: seq<byte>, t: seq<byte>)
    requires |a| < Pow256(4) && |b| < Pow256(4) && ShortPrefixed(a) + s == ShortPrefixed(b) + t
    ensures a == b && s == t
  {
    Reassociate(BE(|a|, 4), a, s);
    Reassociate(BE(|b|, 4), b, t);
    SplitHead(BE(|a|, 4), a + s, BE(|b|, 4), b + t);
    BEInjective(|a|, |b|, 4);
    SplitHead(a, s, b, t);
  }

  lemma SplitFrame(n: seq<byte>, a: seq<byte>, i: nat, s: seq<byte>, m: seq<byte>, b: seq<byte>, j: nat, t: seq<byte>)
    requires |n| == |m| && |a| < Pow256(4) && |b| < Pow256(4) && i < Pow256(4) && j < Pow256(4)
    requires n + (ShortPrefixed(a) + (BE(i, 4) + s)) == m + (ShortPrefixed(b) + (BE(j, 4) + t))
    ensures n == m && a == b && i == j && s == t
  {
    SplitHead(n, ShortPrefixed(a) + (BE(i, 4) + s), m, ShortPrefixed(b) + (BE(j, 4) + t));
    SplitShort(a, BE(i, 4) + s, b, BE(j, 4) + t);
    SplitHead(BE(i, 4), s, BE(j, 4), t);
    BEInjective(i, j, 4);
  }

  /** No two different tags are computed over the same bytes. */
  lemma TagsSeparate(p: TagQuery, q: TagQuery)
    requires FitsTag(p) && FitsTag(q) && TagMessage(p) == TagMessage(q)
    ensures p == q
  {
    assert TagMessage(p)[0] == TagMessage(q)[0];
    assert TagMessage(p)[1..] == TagMessage(q)[1..];
    match p
    case FrameTag(n, a, i, s) =>
      SplitFrame(n, a, i, s, q.nonce, q.aad, q.idx, q.data);
    case CountTag(n, a, i) =>
      assert BE(i, 4) + [] == BE(i, 4) && BE(q.count, 4) + [] == BE(q.count, 4);
      SplitFrame(n, a, i, [], q.nonce, q.aad, q.count, []);
    case StreamTag(n, a, s) =>
      SplitShort(a, n + s, q.aad, q.nonce + q.body);
      SplitHead(n, s, q.nonce, q.body);
  }

  // ----- The runs of all encoders under one key -----

  /** One encryption, framed in pieces of `size` bytes or unframed; `text` is what it has consumed. */
  datatype Run =
    | InFrames(nonce: seq<byte>, aad: seq<byte>, size: nat, text: seq<codepoint>, finished: bool)
    | Whole(nonce: seq<byte>, aad: seq<byte>, text: seq<codepoint>, finished: bool)

  ghost predicate RunValid(ss: Session, r: Run) {
    && |r.nonce| == 16 && |r.aad| < Pow256(4) && ss.Valid() && RunsEnd(ss.sched)
    && (r.InFrames? ==>
          r.size > 0 && Fits(FullChunks(r.size, Blob(ss, r.text))) && (r.finished ==> Encodable(ss, r.size, r.text)))
  }

  /** The pieces sent: all of them by a finished run, the full ones by one that was abandoned. */
  ghost function Pieces(ss: Session, r: Run): seq<seq<byte>>
    requires RunValid(ss, r) && r.InFrames?
  {
    if r.finished then Cut(r.size, Blob(ss, r.text)) else FullChunks(r.size, Blob(ss, r.text))
  }

  /** The tags that a run computes. */
  ghost predicate Issued(ss: Session, r: Run, q: TagQuery)
    requires RunValid(ss, r)
  {
    && q.nonce == r.nonce && q.aad == r.aad
    && match q
       case FrameTag(_, _, i, data) => r.InFrames? && i < |Pieces(ss, r)| && data == Pieces(ss, r)[i]
       case CountTag(_, _, count) => r.InFrames? && r.finished && count == |Pieces(ss, r)|
       case StreamTag(_, _, body) => r.Whole? && r.finished && body == Blob(ss, r.text)
  }

  function SessionIn(c: Ctx, noisy: NoiseTest, r: Run): Session
    requires |c.primes| > 0
  {
    SessionV7(c, noisy, r.nonce, r.aad)
  }

  /** Valid runs under distinct nonces. */
  ghost predicate Runs(c: Ctx, noisy: NoiseTest, runs: seq<Run>)
    requires |c.primes| > 0
  {
    && (forall k :: 0 <= k < |runs| ==> RunValid(SessionIn(c, noisy, runs[k]), runs[k]))
    && (forall j, k :: 0 <= j < k < |runs| ==> runs[j].nonce != runs[k].nonce)
  }

  ghost predicate IssuedBySome(c: Ctx, noisy: NoiseTest, runs: seq<Run>, q: TagQuery)
    requires |c.primes| > 0 && Runs(c, noisy, runs)
  {
    exists k, p :: 0 <= k < |runs| && Issued(SessionIn(c, noisy, runs[k]), runs[k], p) && TagMessage(p) == TagMessage(q)
  }

  lemma IssuedFits(ss: Session, r: Run, q: TagQuery)
    requires RunValid(ss, r) && Issued(ss, r, q)
    ensures FitsTag(q)
  {
    FieldSizes();
  }

  /** A tag some run computed was computed by the one run with its nonce and associated data. */
  lemma IssuedByOne(c: Ctx, noisy: NoiseTest, runs: seq<Run>, q: TagQuery) returns (k: nat)
    requires |c.primes| > 0 && Runs(c, noisy, runs) && IssuedBySome(c, noisy, runs, q) && FitsTag(q)
    ensures k < |runs| && Issued(SessionIn(c, noisy, runs[k]), runs[k], q)
  {
    var j, p :| 0 <= j < |runs| && Issued(SessionIn(c, noisy, runs[j]), runs[j], p) && TagMessage(p) == TagMessage(q);
    IssuedFits(SessionIn(c, noisy, runs[j]), runs[j], p);
    TagsSeparate(p, q);
    k := j;
  }

  // ----- Unforgeability -----

  /** For one nonce: which frame tags (index, data) and count tags have been issued. */
  datatype Tags = Tags(frame: (nat, seq<byte>) -> bool, count: nat -> bool)

  /** The tags a decoder could check on these bytes: those that verify have been issued. */
  ghost predicate Unforged(ss: Session, tags: Tags, rest: seq<byte>, i: nat)
    decreases |rest|
  {
    |rest| < 4 ||
    (var len := FromBE(rest[..4]);
     if len == 0 then |rest| >= 36 && i <= 0xFFFF_FFFF && rest[4..36] == ss.finalTag(i) ==> tags.count(i)
     else |rest| >= 36 + len ==>
       && (i <= 0xFFFF_FFFF && rest[4 + len..36 + len] == ss.chunkTag(i, rest[4..4 + len]) ==> tags.frame(i, rest[4..4 + len]))
       && Unforged(ss, tags, rest[36 + len..], i + 1))
  }

  ghost function Issues(c: Ctx, noisy: NoiseTest, runs: seq<Run>, nonce: seq<byte>, aad: seq<byte>): Tags
    requires |c.primes| > 0 && Runs(c, noisy, runs)
  {
    Tags(
      (i: nat, data: seq<byte>) => IssuedBySome(c, noisy, runs, FrameTag(nonce, aad, i, data)),
      (count: nat) => IssuedBySome(c, noisy, runs, CountTag(nonce, aad, count)))
  }

  /** A written frame at the head: its tag has been issued, and what follows is unforged too. */
  lemma UnforgedFrame(ss: Session, tags: Tags, rest: seq<byte>, i: nat, data: seq<byte>, later: seq<byte>)
    requires 0 < |data| < 0x1_0000_0000 && rest == Frame(ss, i, data) + later && i <= 0xFFFF_FFFF
    ensures Unforged(ss, tags, rest, i) <==> tags.frame(i, data) && Unforged(ss, tags, later, i + 1)
  {
    FrameFields(ss, i, data, later);
  }

  lemma UnforgedSentinel(ss: Session, tags: Tags, rest: seq<byte>, i: nat, extra: seq<byte>)
    requires rest == Sentinel(ss, i) + extra && i <= 0xFFFF_FFFF
    ensures Unforged(ss, tags, rest, i) <==> tags.count(i)
  {
    FieldSizes();
    ReadBack(0, 4);
    assert rest[..4] == BE(0, 4) && rest[4..36] == ss.finalTag(i);
  }

  ghost predicate AllIssued(tags: Tags, i: nat, chunks: seq<seq<byte>>) {
    forall k: nat :: k < |chunks| ==> tags.frame(i + k, chunks[k])
  }

  lemma OneMoreIssued(tags: Tags, i: nat, chunks: seq<seq<byte>>)
    requires chunks != [] && tags.frame(i, chunks[0]) && AllIssued(tags, i + 1, chunks[1..])
    ensures AllIssued(tags, i, chunks)
  {
    forall k: nat | k < |chunks|
      ensures tags.frame(i + k, chunks[k])
    {
      if k > 0 {
        assert tags.frame(i + 1 + (k - 1), chunks[1..][k - 1]);
      }
    }
  }

  /** The frames that a stream shows have been issued, and what follows them is unforged. */
  lemma {:induction false} ShownIssued(ss: Session, tags: Tags, rest: seq<byte>, i: nat, chunks: seq<seq<byte>>, extra: seq<byte>)
    requires WholeFrames(chunks) && i + |chunks| <= 0x1_0000_0000 && Unforged(ss, tags, rest, i)
    requires rest == Frames(ss, chunks, i) + extra
    ensures AllIssued(tags, i, chunks) && Unforged(ss, tags, extra, i + |chunks|)
    decreases |chunks|
  {
    if chunks == [] {
      assert rest == extra;
    } else {
      var later := Frames(ss, chunks[1..], i + 1) + extra;
      Reassociate(Frame(ss, i, chunks[0]), Frames(ss, chunks[1..], i + 1), extra);
      UnforgedFrame(ss, tags, rest, i, chunks[0], later);
      ShownIssued(ss, tags, later, i + 1, chunks[1..], extra);
      OneMoreIssued(tags, i, chunks);
    }
  }

  // ----- The run behind a stream -----

  ghost predicate Behind(r: Run, nonce: seq<byte>, aad: seq<byte>) {
    r.InFrames? && r.nonce == nonce && r.aad == aad
  }

  /** What decoding showed was issued. */
  ghost predicate ShownBy(c: Ctx, noisy: NoiseTest, runs: seq<Run>, nonce: seq<byte>, aad: seq<byte>, chunks: seq<seq<byte>>)
    requires |c.primes| > 0 && Runs(c, noisy, runs)
  {
    && |chunks| <= 0x1_0000_0000
    && forall j :: 0 <= j < |chunks| ==> IssuedBySome(c, noisy, runs, FrameTag(nonce, aad, j, chunks[j]))
  }

  /** A frame whose tag was issued is a piece of the run with its nonce. */
  lemma PieceOfRun(c: Ctx, noisy: NoiseTest, runs: seq<Run>, nonce: seq<byte>, aad: seq<byte>, j: nat, data: seq<byte>)
    returns (k: nat)
    requires |c.primes| > 0 && Runs(c, noisy, runs) && |nonce| == 16 && |aad| < Pow256(4) && j < 0x1_0000_0000
    requires IssuedBySome(c, noisy, runs, FrameTag(nonce, aad, j, data))
    ensures k < |runs| && Behind(runs[k], nonce, aad)
    ensures var pieces := Pieces(SessionIn(c, noisy, runs[k]), runs[k]); j < |pieces| && data == pieces[j]
  {
    FieldSizes();
    k := IssuedByOne(c, noisy, runs, FrameTag(nonce, aad, j, data));
  }

  lemma PieceAt(c: Ctx, noisy: NoiseTest, runs: seq<Run>, nonce: seq<byte>, aad: seq<byte>, j: nat, data: seq<byte>,
                k: nat, pieces: seq<seq<byte>>)
    requires |c.primes| > 0 && Runs(c, noisy, runs) && |nonce| == 16 && |aad| < Pow256(4) && j < 0x1_0000_0000
    requires IssuedBySome(c, noisy, runs, FrameTag(nonce, aad, j, data))
    requires k < |runs| && Behind(runs[k], nonce, aad) && pieces == Pieces(SessionIn(c, noisy, runs[k]), runs[k])
    ensures j < |pieces| && data == pieces[j]
  {
    FieldSizes();
    var l := IssuedByOne(c, noisy, runs, FrameTag(nonce, aad, j, data));
    OneNonce(c, noisy, runs, l, k);
    IssuedPiece(SessionIn(c, noisy, runs[k]), runs[k], nonce, aad, j, data, pieces);
  }

  lemma OneNonce(c: Ctx, noisy: NoiseTest, runs: seq<Run>, j: nat, k: nat)
    requires |c.primes| > 0 && Runs(c, noisy, runs) && j < |runs| && k < |runs| && runs[j].nonce == runs[k].nonce
    ensures j == k
  {
  }

  lemma IssuedPiece(ss: Session, r: Run, nonce: seq<byte>, aad: seq<byte>, j: nat, data: seq<byte>, pieces: seq<seq<byte>>)
    requires RunValid(ss, r) && r.InFrames? && pieces == Pieces(ss, r) && Issued(ss, r, FrameTag(nonce, aad, j, data))
    ensures j < |pieces| && data == pieces[j]
  {
  }

  /** Frames whose tags were issued are, in order, the first pieces of one run. */
  lemma PiecesOfRun(c: Ctx, noisy: NoiseTest, runs: seq<Run>, nonce: seq<byte>, aad: seq<byte>,
                    chunks: seq<seq<byte>>, k: nat, pieces: seq<seq<byte>>)
    requires |c.primes| > 0 && Runs(c, noisy, runs) && |nonce| == 16 && |aad| < Pow256(4)
    requires ShownBy(c, noisy, runs, nonce, aad, chunks)
    requires k < |runs| && Behind(runs[k], nonce, aad) && pieces == Pieces(SessionIn(c, noisy, runs[k]), runs[k])
    ensures chunks <= pieces
  {
    forall j | 0 <= j < |chunks|
      ensures AgreeAt(chunks, pieces, j)
    {
      ShownAt(c, noisy, runs, nonce, aad, chunks, j);
      PieceAt(c, noisy, runs, nonce, aad, j, chunks[j], k, pieces);
    }
    PointwisePrefix(chunks, pieces);
  }

  lemma ShownAt(c: Ctx, noisy: NoiseTest, runs: seq<Run>, nonce: seq<byte>, aad: seq<byte>, chunks: seq<seq<byte>>, j: nat)
    requires |c.primes| > 0 && Runs(c, noisy, runs) && ShownBy(c, noisy, runs, nonce, aad, chunks) && j < |chunks|
    ensures j < 0x1_0000_0000 && IssuedBySome(c, noisy, runs, FrameTag(nonce, aad, j, chunks[j]))
  {
  }

  predicate AgreeAt(a: seq<seq<byte>>, b: seq<seq<byte>>, j: int) {
    0 <= j < |a| && j < |b| && a[j] == b[j]
  }

  lemma PointwisePrefix(a: seq<seq<byte>>, b: seq<seq<byte>>)
    requires forall j :: 0 <= j < |a| ==> AgreeAt(a, b, j)
    ensures a <= b
  {
    if a != [] {
      assert AgreeAt(a, b, |a| - 1);
    }
    forall j | 0 <= j < |a|
      ensures a[j] == b[j]
    {
      assert AgreeAt(a, b, j);
    }
  }

  // ----- The scan of the first pieces -----

  lemma {:induction false} OutGrows(sched: Tokens.Schedule, st: Scan, data: seq<byte>)
    requires sched.Valid()
    ensures st.out <= TakeAll(TokenReader(sched), st, data).out
    decreases |data|
  {
    if data != [] {
      OutGrows(sched, Take(TokenReader(sched), st, data[0]), data[1..]);
    }
  }

  lemma {:induction false} FlattenSplit(a: seq<seq<byte>>, b: seq<seq<byte>>)
    ensures Flatten(a + b) == Flatten(a) + Flatten(b)
    decreases |a|
  {
    if a == [] {
      assert a + b == b;
    } else {
      assert (a + b)[1..] == a[1..] + b;
      FlattenSplit(a[1..], b);
      Reassociate(a[0], Flatten(a[1..]), Flatten(b));
    }
  }

  /** The first pieces of a run scan to the beginning of its text; all of them to the whole. */
  lemma ScanPieces(ss: Session, r: Run, chunks: seq<seq<byte>>)
    requires RunValid(ss, r) && r.InFrames? && chunks <= Pieces(ss, r)
    ensures !Scanned(ss, START, Flatten(chunks)).failed && Scanned(ss, START, Flatten(chunks)).out <= r.text
    ensures chunks == Cut(r.size, Blob(ss, r.text)) ==> Scanned(ss, START, Flatten(chunks)).out == r.text
  {
    var cut, blob := Cut(r.size, Blob(ss, r.text)), Blob(ss, r.text);
    CutRestores(r.size, blob);
    ScanBlob(ss, r.text);
    var later := cut[|chunks|..];
    FlattenSplit(chunks, later);
    assert cut == chunks + later;
    ScanPrefix(ss, START, Flatten(chunks), Flatten(later));
    ScanSplit(ss, START, Flatten(chunks), Flatten(later));
    OutGrows(ss.sched, Scanned(ss, START, Flatten(chunks)),
             Mask(ss.flip, Scanned(ss, START, Flatten(chunks)).off, Flatten(later)));
  }

  // ----- Authenticity -----

  /** The tags that this stream shows under the key and the associated data were computed by some run. */
  ghost predicate NoForgery(c: Ctx, noisy: NoiseTest, runs: seq<Run>, aad: seq<byte>, s: seq<byte>)
    requires |c.primes| > 0 && Runs(c, noisy, runs) && |s| >= 16
  {
    Unforged(SessionV7(c, noisy, s[..16], aad), Issues(c, noisy, runs, s[..16], aad), s[16..], 0)
  }

  lemma ShownBySome(c: Ctx, noisy: NoiseTest, runs: seq<Run>, aad: seq<byte>, s: seq<byte>, chunks: seq<seq<byte>>,
                    res: (seq<codepoint>, Outcome))
    requires Usable(c) && Runs(c, noisy, runs) && |s| >= 16 && NoForgery(c, noisy, runs, aad, s)
    requires SessionV7(c, noisy, s[..16], aad).Valid()
    requires Shows(SessionV7(c, noisy, s[..16], aad), s[16..], 0, START, chunks, res)
    ensures ShownBy(c, noisy, runs, s[..16], aad, chunks)
    ensures res.1 == Complete ==> IssuedBySome(c, noisy, runs, CountTag(s[..16], aad, |chunks|))
  {
    var ss, tags := SessionV7(c, noisy, s[..16], aad), Issues(c, noisy, runs, s[..16], aad);
    var extra := s[16..][|Frames(ss, chunks, 0)|..];
    ShownIssued(ss, tags, s[16..], 0, chunks, extra);
    IssuedAreShown(c, noisy, runs, s[..16], aad, chunks);
    if res.1 == Complete {
      SentinelNext(Frames(ss, chunks, 0), Sentinel(ss, |chunks|), s[16..]);
      UnforgedSentinel(ss, tags, extra, |chunks|, extra[36..]);
    }
  }

  lemma IssuedAreShown(c: Ctx, noisy: NoiseTest, runs: seq<Run>, nonce: seq<byte>, aad: seq<byte>, chunks: seq<seq<byte>>)
    requires |c.primes| > 0 && Runs(c, noisy, runs) && |chunks| <= 0x1_0000_0000
    requires AllIssued(Issues(c, noisy, runs, nonce, aad), 0, chunks)
    ensures ShownBy(c, noisy, runs, nonce, aad, chunks)
  {
    var tags := Issues(c, noisy, runs, nonce, aad);
    forall j: nat | j < |chunks|
      ensures IssuedBySome(c, noisy, runs, FrameTag(nonce, aad, j, chunks[j]))
    {
      assert tags.frame(0 + j, chunks[j]);
    }
  }

  lemma SentinelNext(frames: seq<byte>, sentinel: seq<byte>, rest: seq<byte>)
    requires frames + sentinel <= rest
    ensures |rest| >= |frames| + |sentinel|
    ensures rest[|frames|..] == sentinel + rest[|frames|..][|sentinel|..]
  {
    assert rest[|frames|..|frames| + |sentinel|] == sentinel;
  }

  /**
   Without forged tags, whatever the decoder yields, complete or not, is the beginning of the text
   of a run under the same nonce and associated data; no character ever fails to decode.
   */
  lemma FramedSafety(c: Ctx, noisy: NoiseTest, runs: seq<Run>, aad: seq<byte>, s: seq<byte>)
    requires Usable(c) && Runs(c, noisy, runs) && |aad| < Pow256(4) && |s| >= 16 && NoForgery(c, noisy, runs, aad, s)
    ensures ValidKeying(KeyingV7(c, noisy, aad))
    ensures var (text, how) := Decode(KeyingV7(c, noisy, aad), s);
            && how != BadChar
            && (text == [] || exists k :: 0 <= k < |runs| && Behind(runs[k], s[..16], aad) && text <= runs[k].text)
  {
    KeyingV7Valid(c, noisy, aad);
    SessionV7Valid(c, noisy, s[..16], aad);
    var ss := SessionV7(c, noisy, s[..16], aad);
    var chunks := FramesShown(ss, s[16..], 0, START);
    ShownBySome(c, noisy, runs, aad, s, chunks, Decode(KeyingV7(c, noisy, aad), s));
    if chunks != [] {
      var k := PieceOfRun(c, noisy, runs, s[..16], aad, 0, chunks[0]);
      PiecesOfRun(c, noisy, runs, s[..16], aad, chunks, k, Pieces(ss, runs[k]));
      ScanPieces(ss, runs[k], chunks);
    }
  }

  /**
   Without forged tags, a stream that decodes completely starts with the whole output of one
   finished run under the same associated data, and decodes to that run's text.
   */
  lemma FramedAuthenticity(c: Ctx, noisy: NoiseTest, runs: seq<Run>, aad: seq<byte>, s: seq<byte>) returns (k: nat)
    requires Usable(c) && Runs(c, noisy, runs) && |aad| < Pow256(4) && |s| >= 16 && NoForgery(c, noisy, runs, aad, s)
    requires ValidKeying(KeyingV7(c, noisy, aad)) && Decode(KeyingV7(c, noisy, aad), s).1 == Complete
    ensures k < |runs| && Behind(runs[k], s[..16], aad) && runs[k].finished
    ensures runs[k].nonce + VarintStream.Body(SessionIn(c, noisy, runs[k]), runs[k].size, runs[k].text) <= s
    ensures Decode(KeyingV7(c, noisy, aad), s) == (runs[k].text, Complete)
  {
    SessionV7Valid(c, noisy, s[..16], aad);
    var ss := SessionV7(c, noisy, s[..16], aad);
    var chunks := FramesShown(ss, s[16..], 0, START);
    ShownBySome(c, noisy, runs, aad, s, chunks, Decode(KeyingV7(c, noisy, aad), s));
    k := CountOfRun(c, noisy, runs, s[..16], aad, |chunks|);
    PiecesOfRun(c, noisy, runs, s[..16], aad, chunks, k, Pieces(ss, runs[k]));
    AllPieces(ss, runs[k], chunks);
    HeadOf(s, Frames(ss, chunks, 0) + Sentinel(ss, |chunks|));
  }

  lemma CountOfRun(c: Ctx, noisy: NoiseTest, runs: seq<Run>, nonce: seq<byte>, aad: seq<byte>, count: nat) returns (k: nat)
    requires |c.primes| > 0 && Runs(c, noisy, runs) && |nonce| == 16 && |aad| < Pow256(4) && count < 0x1_0000_0000
    requires IssuedBySome(c, noisy, runs, CountTag(nonce, aad, count))
    ensures k < |runs| && Behind(runs[k], nonce, aad) && runs[k].finished
    ensures count == |Pieces(SessionIn(c, noisy, runs[k]), runs[k])|
  {
    FieldSizes();
    k := IssuedByOne(c, noisy, runs, CountTag(nonce, aad, count));
  }

  lemma AllPieces(ss: Session, r: Run, chunks: seq<seq<byte>>)
    requires RunValid(ss, r) && r.InFrames? && r.finished && chunks <= Pieces(ss, r) && |chunks| == |Pieces(ss, r)|
    ensures Frames(ss, chunks, 0) + Sentinel(ss, |chunks|) == VarintStream.Body(ss, r.size, r.text)
    ensures !Scanned(ss, START, Flatten(chunks)).failed && Scanned(ss, START, Flatten(chunks)).out == r.text
  {
    assert chunks == Pieces(ss, r);
    ScanPieces(ss, r, chunks);
  }

  // ----- The unframed stream -----

  /** If the tag of this stream verifies, some run computed it. */
  ghost predicate NoForgedStream(c: Ctx, noisy: NoiseTest, runs: seq<Run>, aad: seq<byte>, s: seq<byte>)
    requires |c.primes| > 0 && Runs(c, noisy, runs) && |s| >= 48
  {
    s[|s| - 32..] == SessionV7(c, noisy, s[..16], aad).streamTag(s[16..|s| - 32]) ==>
      IssuedBySome(c, noisy, runs, StreamTag(s[..16], aad, s[16..|s| - 32]))
  }

  /** Without a forged tag, an unframed stream that decodes completely is one finished run, byte for byte. */
  lemma UnframedAuthenticity(c: Ctx, noisy: NoiseTest, runs: seq<Run>, aad: seq<byte>, s: seq<byte>) returns (k: nat)
    requires Usable(c) && Runs(c, noisy, runs) && |aad| < Pow256(4) && |s| >= 48 && NoForgedStream(c, noisy, runs, aad, s)
    requires ValidKeying(KeyingV7(c, noisy, aad)) && DecodeUnframed(KeyingV7(c, noisy, aad), s).1 == Complete
    ensures k < |runs| && runs[k].Whole? && runs[k].finished && runs[k].aad == aad
    ensures s == Unframed(SessionIn(c, noisy, runs[k]), runs[k].nonce, runs[k].text)
    ensures DecodeUnframed(KeyingV7(c, noisy, aad), s) == (runs[k].text, Complete)
  {
    var nonce, body := s[..16], s[16..|s| - 32];
    k := BodyOfRun(c, noisy, runs, nonce, aad, body);
    WholeRun(SessionIn(c, noisy, runs[k]), runs[k], s, body);
  }

  lemma BodyOfRun(c: Ctx, noisy: NoiseTest, runs: seq<Run>, nonce: seq<byte>, aad: seq<byte>, body: seq<byte>) returns (k: nat)
    requires |c.primes| > 0 && Runs(c, noisy, runs) && |nonce| == 16 && |aad| < Pow256(4)
    requires IssuedBySome(c, noisy, runs, StreamTag(nonce, aad, body))
    ensures k < |runs| && runs[k].Whole? && runs[k].finished && runs[k].aad == aad && runs[k].nonce == nonce
    ensures body == Blob(SessionIn(c, noisy, runs[k]), runs[k].text)
  {
    k := IssuedByOne(c, noisy, runs, StreamTag(nonce, aad, body));
  }

  lemma WholeRun(ss: Session, r: Run, s: seq<byte>, body: seq<byte>)
    requires RunValid(ss, r) && |s| >= 48 && s[..16] == r.nonce && body == s[16..|s| - 32] == Blob(ss, r.text)
    requires ss.streamTag(body) == s[|s| - 32..]
    ensures s == Unframed(ss, r.nonce, r.text)
    ensures !Scanned(ss, START, body).failed && Scanned(ss, START, body).out == r.text
  {
    ScanBlob(ss, r.text);
    assert s == s[..16] + s[16..|s| - 32] + s[|s| - 32..];
  }

  // ----- Genuine streams meet the hypotheses -----

  lemma IssuedHere(c: Ctx, noisy: NoiseTest, runs: seq<Run>, k: nat, q: TagQuery)
    requires |c.primes| > 0 && Runs(c, noisy, runs) && k < |runs| && Issued(SessionIn(c, noisy, runs[k]), runs[k], q)
    ensures IssuedBySome(c, noisy, runs, q)
  {
    var p := q;
    assert Issued(SessionIn(c, noisy, runs[k]), runs[k], p) && TagMessage(p) == TagMessage(q);
  }

  lemma {:induction false} FramesUnforged(ss: Session, tags: Tags, i: nat, chunks: seq<seq<byte>>, total: nat)
    requires WholeFrames(chunks) && AllIssued(tags, i, chunks) && tags.count(total) && total == i + |chunks| <= 0xFFFF_FFFF
    ensures Unforged(ss, tags, Frames(ss, chunks, i) + Sentinel(ss, total), i)
    decreases |chunks|
  {
    var rest := Frames(ss, chunks, i) + Sentinel(ss, total);
    if chunks == [] {
      assert rest == Sentinel(ss, total) + [];
      UnforgedSentinel(ss, tags, rest, i, []);
    } else {
      var later := Frames(ss, chunks[1..], i + 1) + Sentinel(ss, total);
      assert tags.frame(i + 0, chunks[0]);
      FewerIssued(tags, i, chunks);
      FramesUnforged(ss, tags, i + 1, chunks[1..], total);
      Reassociate(Frame(ss, i, chunks[0]), Frames(ss, chunks[1..], i + 1), Sentinel(ss, total));
      UnforgedFrame(ss, tags, rest, i, chunks[0], later);
    }
  }

  lemma FewerIssued(tags: Tags, i: nat, chunks: seq<seq<byte>>)
    requires chunks != [] && AllIssued(tags, i, chunks)
    ensures AllIssued(tags, i + 1, chunks[1..])
  {
    forall k: nat | k < |chunks| - 1
      ensures tags.frame(i + 1 + k, chunks[1..][k])
    {
      assert tags.frame(i + (k + 1), chunks[k + 1]);
    }
  }

  /** Under any HMAC, what a finished run has written shows no tag that no run computed. */
  lemma GenuineUnforged(c: Ctx, noisy: NoiseTest, runs: seq<Run>, k: nat)
    requires Usable(c) && Runs(c, noisy, runs) && k < |runs| && runs[k].finished
    ensures runs[k].InFrames? ==>
              NoForgery(c, noisy, runs, runs[k].aad,
                        runs[k].nonce + VarintStream.Body(SessionIn(c, noisy, runs[k]), runs[k].size, runs[k].text))
    ensures runs[k].Whole? ==>
              NoForgedStream(c, noisy, runs, runs[k].aad, Unframed(SessionIn(c, noisy, runs[k]), runs[k].nonce, runs[k].text))
  {
    var r, ss := runs[k], SessionIn(c, noisy, runs[k]);
    if r.InFrames? {
      GenuineFrames(c, noisy, runs, k, Pieces(ss, r));
    } else {
      var s := Unframed(ss, r.nonce, r.text);
      assert s[..16] == r.nonce && s[16..|s| - 32] == Blob(ss, r.text);
      IssuedHere(c, noisy, runs, k, StreamTag(r.nonce, r.aad, Blob(ss, r.text)));
    }
  }

  lemma GenuineFrames(c: Ctx, noisy: NoiseTest, runs: seq<Run>, k: nat, pieces: seq<seq<byte>>)
    requires Usable(c) && Runs(c, noisy, runs) && k < |runs| && runs[k].finished && runs[k].InFrames?
    requires pieces == Pieces(SessionIn(c, noisy, runs[k]), runs[k])
    ensures var s := runs[k].nonce + VarintStream.Body(SessionIn(c, noisy, runs[k]), runs[k].size, runs[k].text);
            NoForgery(c, noisy, runs, runs[k].aad, s)
  {
    var r, ss := runs[k], SessionIn(c, noisy, runs[k]);
    var tags := Issues(c, noisy, runs, r.nonce, r.aad);
    forall j: nat | j < |pieces|
      ensures tags.frame(0 + j, pieces[j])
    {
      IssuedHere(c, noisy, runs, k, FrameTag(r.nonce, r.aad, j, pieces[j]));
    }
    IssuedHere(c, noisy, runs, k, CountTag(r.nonce, r.aad, |pieces|));
    CutRestores(r.size, Blob(ss, r.text));
    FramesUnforged(ss, tags, 0, pieces, |pieces|);
    var s := r.nonce + VarintStream.Body(ss, r.size, r.text);
    assert s[..16] == r.nonce && s[16..] == VarintStream.Body(ss, r.size, r.text);
  }
}
