/** The older streams under a prime key: every value is HMAC under the serialised key. */
module VarintSession {
  import opened Bytes
  import opened Derivation
  import opened Independence
  import opened Keyed
  import opened Tokens
  import opened Varint
  import opened VarintStream
  import opened VarintTheorems
  import Primes

  /** Five bytes an element. */
  function KeyBytes(primes: seq<nat>): seq<byte> {
    if primes == [] then [] else KeyBytes(primes[..|primes| - 1]) + BE(primes[|primes| - 1], 5)
  }

  /** Different keys are serialised differently. */
  lemma {:induction false} KeyBytesInjective(p: seq<nat>, q: seq<nat>)
    requires forall i :: 0 <= i < |p| ==> p[i] < Pow256(5)
    requires forall i :: 0 <= i < |q| ==> q[i] < Pow256(5)
    requires KeyBytes(p) == KeyBytes(q)
    ensures p == q
  {
    KeyBytesSize(p);
    KeyBytesSize(q);
    if p != [] && q != [] {
      var m, n := |p| - 1, |q| - 1;
      KeyBytesSize(p[..m]);
      KeyBytesSize(q[..n]);
      SplitHead(KeyBytes(p[..m]), BE(p[m], 5), KeyBytes(q[..n]), BE(q[n], 5));
      BEInjective(p[m], q[n], 5);
      KeyBytesInjective(p[..m], q[..n]);
      assert p == p[..m] + [p[m]] && q == q[..n] + [q[n]];
    }
  }

  lemma {:induction false} KeyBytesSize(p: seq<nat>)
    ensures |KeyBytes(p)| == 5 * |p|
  {
    if p != [] {
      KeyBytesSize(p[..|p| - 1]);
    }
  }

  function KeyCtx(hmac: Oracle, primes: seq<nat>): Ctx {
    Ctx(m => hmac(KeyBytes(primes), m), primes)
  }

  /** The floating-point comparison of a position's digest with the threshold's. */
  type NoiseTest = (Digest, Digest) -> bool

  function ScheduleV7(c: Ctx, noisy: NoiseTest, nonce: seq<byte>): Schedule
    requires |c.primes| > 0
  {
    Schedule(
      (p: nat) => noisy(c.Ask(NoisePosition(nonce, p)), c.Ask(Threshold(nonce))),
      (r: nat) => KeyElement(c, r),
      (r: nat) => AddendAt(c, nonce, r),
      (p: nat) => NoiseCharAt(c, nonce, p),
      (p: nat, k: nat) => NoiseAddendAt(c, nonce, p, k))
  }

  function KeystreamByte(c: Ctx, nonce: seq<byte>): nat -> byte {
    (off: nat) => c.Ask(KeyBlock(nonce, off / 32))[off % 32]
  }

  function ShortPrefixed(aad: seq<byte>): seq<byte> {
    BE(|aad|, 4) + aad
  }

  /** What one tag is computed over: a frame, the count of frames, or an unframed stream. */
  datatype TagQuery =
    | FrameTag(nonce: seq<byte>, aad: seq<byte>, idx: nat, data: seq<byte>)
    | CountTag(nonce: seq<byte>, aad: seq<byte>, count: nat)
    | StreamTag(nonce: seq<byte>, aad: seq<byte>, body: seq<byte>)

  /** The HMAC input of a tag. */
  function TagMessage(q: TagQuery): seq<byte> {
    match q
    case FrameTag(nonce, aad, idx, data) => [0x08] + (nonce + (ShortPrefixed(aad) + (BE(idx, 4) + data)))
    case CountTag(nonce, aad, count) => [0x09] + (nonce + (ShortPrefixed(aad) + BE(count, 4)))
    case StreamTag(nonce, aad, body) => [0x03] + (ShortPrefixed(aad) + (nonce + body))
  }

  function SessionV7(c: Ctx, noisy: NoiseTest, nonce: seq<byte>, aad: seq<byte>): Session
    requires |c.primes| > 0
  {
    Session(
      ScheduleV7(c, noisy, nonce),
      XorWith(KeystreamByte(c, nonce)),
      (i: nat, data: seq<byte>) => c.mac(TagMessage(FrameTag(nonce, aad, i, data))),
      (count: nat) => c.mac(TagMessage(CountTag(nonce, aad, count))),
      (body: seq<byte>) => c.mac(TagMessage(StreamTag(nonce, aad, body))))
  }

  lemma ScheduleV7Valid(c: Ctx, noisy: NoiseTest, nonce: seq<byte>)
    requires Usable(c)
    ensures ScheduleV7(c, noisy, nonce).Valid()
  {
  }

  lemma SessionV7Valid(c: Ctx, noisy: NoiseTest, nonce: seq<byte>, aad: seq<byte>)
    requires Usable(c)
    ensures SessionV7(c, noisy, nonce, aad).Valid()
  {
    ScheduleV7Valid(c, noisy, nonce);
    XorInvolutive(KeystreamByte(c, nonce));
  }

  /** The mask of a byte is the keystream byte of its offset, and one HMAC answer decides exactly 32 of them. */
  lemma MasksIndependent(c: Ctx, noisy: NoiseTest, nonce: seq<byte>, aad: seq<byte>, b: nat, d: Digest, x: byte, off: nat)
    requires Usable(c) && |nonce| == 16 && b < 0x1_0000_0000 && off < 0x20_0000_0000
    ensures SessionV7(Changed(c, KeyBlock(nonce, b), d), noisy, nonce, aad).flip(x, off) ==
            if off / 32 == b then Xor(x, d[off % 32]) else SessionV7(c, noisy, nonce, aad).flip(x, off)
  {
    FieldSizes();
    AskChanged(c, KeyBlock(nonce, b), d, KeyBlock(nonce, off / 32));
  }

  /** What a receiver holding the key and the associated data derives from a nonce. */
  function KeyingV7(c: Ctx, noisy: NoiseTest, aad: seq<byte>): Keying
    requires |c.primes| > 0
  {
    (nonce: seq<byte>) => SessionV7(c, noisy, nonce, aad)
  }

  lemma KeyingV7Valid(c: Ctx, noisy: NoiseTest, aad: seq<byte>)
    requires Usable(c)
    ensures ValidKeying(KeyingV7(c, noisy, aad))
  {
    forall nonce: seq<byte>
      ensures SessionV7(c, noisy, nonce, aad).Valid()
    {
      SessionV7Valid(c, noisy, nonce, aad);
    }
  }

  /**
   For every HMAC, valid key, noise test, associated data, nonce, frame size and slicing: what the
   framed encoder can encode decrypts to its text, whenever every noise run is finite.
   */
  lemma AeUnderEveryOracle(hmac: Oracle, primes: seq<nat>, noisy: NoiseTest, aad: seq<byte>, nonce: seq<byte>,
                           size: nat, text: seq<codepoint>, extra: seq<byte>, slices: seq<seq<byte>>)
    requires Primes.ValidKey(primes) && |nonce| == 16 && size > 0
    requires RunsEnd(ScheduleV7(KeyCtx(hmac, primes), noisy, nonce))
    requires var ss := SessionV7(KeyCtx(hmac, primes), noisy, nonce, aad);
             Encodable(ss, size, text) && Concat(slices) == nonce + VarintStream.Body(ss, size, text) + extra
    ensures Usable(KeyCtx(hmac, primes)) && ValidKeying(KeyingV7(KeyCtx(hmac, primes), noisy, aad))
    ensures Decode(KeyingV7(KeyCtx(hmac, primes), noisy, aad), Concat(slices)) == (text, Complete)
  {
    var c := KeyCtx(hmac, primes);
    ValidKeyUsable(c.mac, primes);
    KeyingV7Valid(c, noisy, aad);
    AeRoundTrip(KeyingV7(c, noisy, aad), nonce, size, text, extra, slices);
  }

  /** The same for the unframed stream. */
  lemma UnframedUnderEveryOracle(hmac: Oracle, primes: seq<nat>, noisy: NoiseTest, aad: seq<byte>, nonce: seq<byte>,
                                 text: seq<codepoint>, slices: seq<seq<byte>>)
    requires Primes.ValidKey(primes) && |nonce| == 16
    requires RunsEnd(ScheduleV7(KeyCtx(hmac, primes), noisy, nonce))
    requires Concat(slices) == Unframed(SessionV7(KeyCtx(hmac, primes), noisy, nonce, aad), nonce, text)
    ensures Usable(KeyCtx(hmac, primes)) && ValidKeying(KeyingV7(KeyCtx(hmac, primes), noisy, aad))
    ensures DecodeUnframed(KeyingV7(KeyCtx(hmac, primes), noisy, aad), Concat(slices)) == (text, Complete)
  {
    var c := KeyCtx(hmac, primes);
    ValidKeyUsable(c.mac, primes);
    KeyingV7Valid(c, noisy, aad);
    UnframedRoundTrip(KeyingV7(c, noisy, aad), nonce, text, slices);
  }
}
