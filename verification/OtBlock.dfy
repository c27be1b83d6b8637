/** The OT envelope over the v8 block format. */
module OtBlock {
  import opened Bytes
  import opened Derivation
  import opened Keyed
  import opened OtFrame
  import opened Padding
  import Block

  ghost function SealBlock(c: Ctx, m: seq<scalar>, a: seq<byte>): Option<seq<byte>>
    requires Usable(c)
  {
    match Block.Encrypted(c, a, m, Bucket) case Err(_) => None case Ok(ct) => Some(ct)
  }

  ghost function OpenBlock(c: Ctx, ct: seq<byte>, a: seq<byte>): Option<seq<scalar>>
    requires Usable(c)
  {
    match Block.Decrypted(c, a, ct) case Err(_) => None case Ok(m) => Some(m)
  }

  ghost function BlockCipher(c: Ctx): Cipher
    requires Usable(c)
  {
    Cipher((m, a) => SealBlock(c, m, a), (b, a) => OpenBlock(c, b, a))
  }

  lemma SealOpens(c: Ctx, m: seq<scalar>, a: seq<byte>)
    requires Usable(c)
    ensures SealBlock(c, m, a).Some? <==> |m| <= 0xFFFF
    ensures SealBlock(c, m, a).Some? ==>
              |SealBlock(c, m, a).value| < 0x1_0000_0000 && OpenBlock(c, SealBlock(c, m, a).value, a) == Some(m)
  {
    Block.LengthLaw(c, a, m, Bucket);
    if |m| <= 0xFFFF {
      LeastRung(Bucket, |m|);
      Block.RoundTrip(c, a, m, Bucket);
    }
  }

  lemma BlockCipherSound(c: Ctx)
    requires Usable(c)
    ensures BlockCipher(c).Sound()
  {
    forall m, a | BlockCipher(c).seal(m, a).Some?
      ensures |BlockCipher(c).seal(m, a).value| < 0x1_0000_0000
      ensures BlockCipher(c).unseal(BlockCipher(c).seal(m, a).value, a) == Some(m)
    {
      SealOpens(c, m, a);
    }
  }

  /** Any PDU of at most 65535 bytes wraps, and verifies back to itself. */
  lemma FrameRoundTrip(c: Ctx, f: Frame, rest: seq<byte>)
    requires Usable(c)
    ensures Wrapped(BlockCipher(c), f.aad, f.pdu).Ok? <==> |f.pdu| <= 0xFFFF
    ensures |f.pdu| <= 0xFFFF ==>
              Verified(BlockCipher(c), Wrapped(BlockCipher(c), f.aad, f.pdu).value + rest) == Ok(f)
  {
    SealOpens(c, Latin1(f.pdu), AadBytes(f.aad));
    BlockCipherSound(c);
    WrapsWhatSeals(BlockCipher(c), f, rest);
  }

  lemma WrapsWhatSeals(cipher: Cipher, f: Frame, rest: seq<byte>)
    requires cipher.Sound()
    ensures Wrapped(cipher, f.aad, f.pdu).Ok? <==> cipher.seal(Latin1(f.pdu), AadBytes(f.aad)).Some?
    ensures Wrapped(cipher, f.aad, f.pdu).Ok? ==>
              Verified(cipher, Wrapped(cipher, f.aad, f.pdu).value + rest) == Ok(f)
  {
    if Wrapped(cipher, f.aad, f.pdu).Ok? {
      VerifyWrapped(cipher, f, rest);
    }
  }

  // ----- Authenticity -----

  function SentFrame(f: Frame): Block.Sent {
    Block.Sent(AadBytes(f.aad), Latin1(f.pdu), Bucket)
  }

  function SentFrames(frames: seq<Frame>): (s: seq<Block.Sent>)
    ensures |s| == |frames|
  {
    seq(|frames|, (i: nat) requires i < |frames| => SentFrame(frames[i]))
  }

  /** Frames that can be wrapped. */
  ghost predicate Wrappable(frames: seq<Frame>) {
    forall i :: 0 <= i < |frames| ==> |frames[i].pdu| <= 0xFFFF
  }

  lemma SentAreBlocks(c: Ctx, frames: seq<Frame>)
    requires Usable(c) && Wrappable(frames)
    ensures Block.SentBlocks(c, SentFrames(frames))
  {
    FieldSizes();
    forall i | 0 <= i < |frames|
      ensures Block.Encrypted(c, AadBytes(frames[i].aad), Latin1(frames[i].pdu), Bucket).Ok?
    {
      SealOpens(c, Latin1(frames[i].pdu), AadBytes(frames[i].aad));
    }
  }

  /** The tag of the enclosed block verifies only if one of the wrapped frames carries it. */
  ghost predicate NoForgedFrame(c: Ctx, frames: seq<Frame>, buf: seq<byte>)
    requires Usable(c) && Wrappable(frames)
  {
    SentAreBlocks(c, frames);
    Parse(buf).Ok? && |Parse(buf).value.1| >= 48 ==>
      Block.NoForgedTag(c, SentFrames(frames), AadBytes(Parse(buf).value.0), Parse(buf).value.1)
  }

  /** Whatever verifies starts with the envelope of one wrapped frame and yields that frame. */
  lemma VerifiedIsWrapped(c: Ctx, frames: seq<Frame>, buf: seq<byte>) returns (i: nat)
    requires Usable(c) && Wrappable(frames) && NoForgedFrame(c, frames, buf)
    requires Verified(BlockCipher(c), buf).Ok?
    ensures i < |frames| && Verified(BlockCipher(c), buf).value == frames[i]
    ensures Wrapped(BlockCipher(c), frames[i].aad, frames[i].pdu).Ok?
    ensures Wrapped(BlockCipher(c), frames[i].aad, frames[i].pdu).value <= buf
  {
    var (a, blob) := Parse(buf).value;
    SentAreBlocks(c, frames);
    i := OpenedIsSent(c, frames, a, blob);
    Reframe(BlockCipher(c), buf, frames[i]);
  }

  lemma OpenedIsSent(c: Ctx, frames: seq<Frame>, a: OtAad, blob: seq<byte>) returns (i: nat)
    requires Usable(c) && Block.SentBlocks(c, SentFrames(frames)) && OpenBlock(c, blob, AadBytes(a)).Some?
    requires |blob| >= 48 ==> Block.NoForgedTag(c, SentFrames(frames), AadBytes(a), blob)
    ensures i < |frames| && frames[i].aad == a
    ensures SealBlock(c, Latin1(frames[i].pdu), AadBytes(a)) == Some(blob)
    ensures OpenBlock(c, blob, AadBytes(a)) == Some(Latin1(frames[i].pdu))
  {
    FieldSizes();
    i := Block.Authentic(c, SentFrames(frames), AadBytes(a), blob);
    AadInjective(frames[i].aad, a);
  }

  lemma Reframe(cipher: Cipher, buf: seq<byte>, f: Frame)
    requires Parse(buf).Ok? && Parse(buf).value.0 == f.aad
    requires cipher.seal(Latin1(f.pdu), AadBytes(f.aad)) == Some(Parse(buf).value.1)
    requires cipher.unseal(Parse(buf).value.1, AadBytes(f.aad)) == Some(Latin1(f.pdu))
    ensures Verified(cipher, buf) == Ok(f)
    ensures Wrapped(cipher, f.aad, f.pdu).Ok? && Wrapped(cipher, f.aad, f.pdu).value <= buf
  {
    Latin1Inverse(f.pdu);
    BlobBound(buf);
    ParseExactly(buf, f.aad, Parse(buf).value.1);
  }
}
