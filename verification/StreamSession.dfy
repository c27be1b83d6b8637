/** The sessions that HMAC and a prime key give. */
module StreamSession {
  import opened Bytes
  import opened Derivation
  import opened Keyed
  import opened Stream
  import opened StreamDecode
  import Primes
  import StreamTheorems

  /** sub_nonce_i: every chunk is a primitive call of its own. */
  function SubNonceOf(c: Ctx, nonce: seq<byte>, i: nat): (n: seq<byte>)
    ensures |n| == 16
  {
    c.Ask(SubNonce(nonce, i))[..16]
  }

  function OpenChunk(c: Ctx, nonce: seq<byte>, f: nat, i: nat, masked: seq<byte>): Result<seq<scalar>, ChunkError>
    requires Usable(c)
  {
    if |masked| % 8 != 0 then Err(NotWholeTokens)
    else match Opened(c, SubNonceOf(c, nonce, i), masked, f) case Err(e) => Err(BadToken(e)) case Ok(cs) => Ok(cs)
  }

  function SessionOf(c: Ctx, f: nat, nonce: seq<byte>, aad: seq<byte>): Session
    requires Usable(c)
  {
    Session(
      f,
      nonce,
      (i: nat, chunk: seq<scalar>) => Sealed(c, SubNonceOf(c, nonce, i), chunk),
      (i: nat, masked: seq<byte>) => OpenChunk(c, nonce, f, i, masked),
      (i: nat, j: nat) => FillerAt(c, SubNonceOf(c, nonce, i), j),
      (i: nat, masked: seq<byte>) => c.Ask(ChunkTag(f, nonce, i, aad, masked)),
      (count: nat, total: nat) => c.Ask(SentinelTag(f, nonce, count, aad, total)),
      (count: nat) => c.Ask(CountMask(f, nonce, count)))
  }

  lemma SessionValid(c: Ctx, f: nat, nonce: seq<byte>, aad: seq<byte>)
    requires Usable(c) && 1 <= f <= 16_384 && |nonce| == 16
    ensures SessionOf(c, f, nonce, aad).Valid()
  {
    forall i: nat, chunk: seq<scalar> | |chunk| == f
      ensures OpenChunk(c, nonce, f, i, Sealed(c, SubNonceOf(c, nonce, i), chunk)) == Ok(chunk)
    {
      OpenSealed(c, SubNonceOf(c, nonce, i), chunk);
    }
    forall i: nat, masked: seq<byte> | OpenChunk(c, nonce, f, i, masked).Ok?
      ensures |OpenChunk(c, nonce, f, i, masked).value| == f
    {
      OpenedLength(c, SubNonceOf(c, nonce, i), masked, f);
    }
  }

  /** What a receiver holding `c` and `aad` derives from a header. */
  function KeyingOf(c: Ctx, aad: seq<byte>): Keying
    requires Usable(c)
  {
    (f: nat, nonce: seq<byte>) => SessionOf(c, f, nonce, aad)
  }

  lemma KeyingSound(c: Ctx, aad: seq<byte>)
    requires Usable(c)
    ensures Sound(KeyingOf(c, aad))
  {
    forall f: nat, nonce: seq<byte> | 1 <= f <= 16_384 && |nonce| == 16
      ensures SessionOf(c, f, nonce, aad).Valid()
    {
      SessionValid(c, f, nonce, aad);
    }
  }

  /** The chunk primitive as the ports run it: the same sealing, by their loops. */
  method SealChunk(c: Ctx, nonce: seq<byte>, aad: seq<byte>, i: nat, chunk: seq<scalar>) returns (masked: seq<byte>)
    requires Usable(c)
    ensures masked == SessionOf(c, |chunk|, nonce, aad).seal(i, chunk)
  {
    masked := Seal(c, SubNonceOf(c, nonce, i), chunk);
  }

  /** For every HMAC, master secret, valid key, nonce, associated data and frame size. */
  lemma RoundTripUnderEveryOracle(hmac: Oracle, sk: seq<byte>, primes: seq<nat>, aad: seq<byte>, f: nat, nonce: seq<byte>, msg: seq<scalar>)
    requires Primes.ValidKey(primes) && 1 <= f <= 16_384 && |nonce| == 16
    ensures var c := FormatCtx(hmac, sk, primes, FORMAT_STREAM_AE_V8);
            && Usable(c)
            && (Encrypted(SessionOf(c, f, nonce, aad), msg).Ok? <==> |msg| <= f * 0xFFFF_FFFF)
            && (Encrypted(SessionOf(c, f, nonce, aad), msg).Ok? ==>
                  Sequential(KeyingOf(c, aad), Encrypted(SessionOf(c, f, nonce, aad), msg).value) == Ok(msg))
  {
    var c := FormatCtx(hmac, sk, primes, FORMAT_STREAM_AE_V8);
    ValidKeyUsable(c.mac, primes);
    KeyingSound(c, aad);
    RefusedExactly(SessionOf(c, f, nonce, aad), msg);
    if Encrypted(SessionOf(c, f, nonce, aad), msg).Ok? {
      StreamTheorems.RoundTrip(KeyingOf(c, aad), f, nonce, msg);
    }
  }
}
