/** From HMAC to schedules and keystream: the primitives the block and stream formats share. */
module Keyed {
  import opened Bytes
  import opened Derivation
  import opened Tokens
  import Primes

  /** What the codec needs of a key; every key that validation accepts has it. */
  ghost predicate Usable(c: Ctx) {
    |c.primes| > 0 && forall i :: 0 <= i < |c.primes| ==> 2 <= c.primes[i] <= Primes.MAX_KEY_PRIME
  }

  lemma ValidKeyUsable(mac: seq<byte> -> Digest, primes: seq<nat>)
    requires Primes.ValidKey(primes)
    ensures Usable(Ctx(mac, primes))
  {
  }

  // ----- Schedule derivation -----

  function KeyElement(c: Ctx, r: nat): nat
    requires |c.primes| > 0
  {
    c.primes[r % |c.primes|]
  }

  /** An addend in [1, k - 1]; a key element below 2 never passes validation. */
  function AddendFrom(d: Digest, k: nat): nat {
    if k < 2 then 0 else Low32(d) % (k - 1) + 1
  }

  predicate NoiseAt(c: Ctx, nonce: seq<byte>, theta: nat, p: nat) {
    Low64(c.Ask(NoisePosition(nonce, p))) < theta
  }

  function AddendAt(c: Ctx, nonce: seq<byte>, r: nat): nat
    requires |c.primes| > 0
  {
    AddendFrom(c.Ask(Addend(nonce, r)), KeyElement(c, r))
  }

  function NoiseCharAt(c: Ctx, nonce: seq<byte>, p: nat): nat {
    Low32(c.Ask(NoiseChar(nonce, p))) % 96 + 32
  }

  function NoiseAddendAt(c: Ctx, nonce: seq<byte>, p: nat, k: nat): nat {
    AddendFrom(c.Ask(NoiseAddend(nonce, p)), k)
  }

  function FillerAt(c: Ctx, nonce: seq<byte>, i: nat): scalar {
    Low32(c.Ask(Filler(nonce, i))) % 95 + 32
  }

  /** The hidden schedule of one nonce. */
  function ScheduleOf(c: Ctx, nonce: seq<byte>): (s: Schedule)
    requires |c.primes| > 0
  {
    var theta := NoiseThreshold(c, nonce);
    Schedule(
      (p: nat) => NoiseAt(c, nonce, theta, p),
      (r: nat) => KeyElement(c, r),
      (r: nat) => AddendAt(c, nonce, r),
      (p: nat) => NoiseCharAt(c, nonce, p),
      (p: nat, k: nat) => NoiseAddendAt(c, nonce, p, k))
  }

  lemma ScheduleValid(c: Ctx, nonce: seq<byte>)
    requires Usable(c)
    ensures ScheduleOf(c, nonce).Valid()
  {
  }

  // ----- Keystream -----

  /** HMAC in counter mode: byte `i` comes from block `i / 32`. */
  function Keystream(c: Ctx, nonce: seq<byte>, length: nat): (ks: seq<byte>)
    ensures |ks| == length
  {
    seq(length, i requires 0 <= i < length => c.Ask(KeyBlock(nonce, i / 32))[i % 32])
  }

  method MakeKeystream(c: Ctx, nonce: seq<byte>, length: nat) returns (out: seq<byte>)
    ensures out == Keystream(c, nonce, length)
  {
    out := [];
    var block := 0;
    while |out| < length
      invariant |out| == 32 * block
      invariant forall i :: 0 <= i < |out| ==> out[i] == c.Ask(KeyBlock(nonce, i / 32))[i % 32]
      decreases length - |out|
    {
      var digest := c.Ask(KeyBlock(nonce, block));
      forall i | |out| <= i < |out| + 32
        ensures i / 32 == block && i % 32 == i - |out|
      {
      }
      out := out + digest;
      block := block + 1;
    }
    out := out[..length];
  }

  lemma SealedSize(n: nat)
    ensures 160 * n % 8 == 0 && 8 * (20 * n) == 160 * n
  {
  }

  /** Serialised tokens under the keystream of a nonce. */
  function Sealed(c: Ctx, nonce: seq<byte>, cs: seq<scalar>): (masked: seq<byte>)
    requires |c.primes| > 0
    ensures |masked| == 160 * |cs| && |masked| % 8 == 0
  {
    SealedSize(|cs|);
    XorBytes(Encoded(Emitted(ScheduleOf(c, nonce), cs)), Keystream(c, nonce, 160 * |cs|))
  }

  function Opened(c: Ctx, nonce: seq<byte>, masked: seq<byte>, count: nat): Result<seq<scalar>, TokenError>
    requires Usable(c) && |masked| % 8 == 0
  {
    ScheduleValid(c, nonce);
    RecoverFrom(ScheduleOf(c, nonce), Decoded(XorBytes(masked, Keystream(c, nonce, |masked|))), 0, count)
  }

  /** Masking, serialisation and emission are undone in turn. */
  lemma OpenSealed(c: Ctx, nonce: seq<byte>, cs: seq<scalar>)
    requires Usable(c)
    ensures Opened(c, nonce, Sealed(c, nonce, cs), |cs|) == Ok(cs)
  {
    ScheduleValid(c, nonce);
    Unmask(ScheduleOf(c, nonce), Keystream(c, nonce, 160 * |cs|), cs);
  }

  lemma Unmask(s: Schedule, ks: seq<byte>, cs: seq<scalar>)
    requires s.Valid() && |ks| == 160 * |cs|
    ensures RecoverFrom(s, Decoded(XorBytes(XorBytes(Encoded(Emitted(s, cs)), ks), ks)), 0, |cs|) == Ok(cs)
  {
    XorBytesInvolution(Encoded(Emitted(s, cs)), ks);
    EmittedBelow(s, cs);
    EncodingRoundTrip(Emitted(s, cs));
    TokenRoundTrip(s, cs);
  }

  lemma OpenedLength(c: Ctx, nonce: seq<byte>, masked: seq<byte>, count: nat)
    requires Usable(c) && |masked| % 8 == 0
    requires Opened(c, nonce, masked, count).Ok?
    ensures |Opened(c, nonce, masked, count).value| == count
  {
    ScheduleValid(c, nonce);
    var tokens := Decoded(XorBytes(masked, Keystream(c, nonce, |masked|)));
    RecoveredExactly(ScheduleOf(c, nonce), tokens, 0, count, Opened(c, nonce, masked, count).value);
  }

  method Seal(c: Ctx, nonce: seq<byte>, cs: seq<scalar>) returns (masked: seq<byte>)
    requires |c.primes| > 0
    ensures masked == Sealed(c, nonce, cs)
  {
    var tokens := EmitTokens(ScheduleOf(c, nonce), cs);
    var blob := EncodeTokens(tokens);
    var ks := MakeKeystream(c, nonce, |blob|);
    masked := XorBytes(blob, ks);
  }

  method Open(c: Ctx, nonce: seq<byte>, masked: seq<byte>, count: nat) returns (res: Result<seq<scalar>, TokenError>)
    requires Usable(c) && |masked| % 8 == 0
    ensures res == Opened(c, nonce, masked, count)
  {
    ScheduleValid(c, nonce);
    var ks := MakeKeystream(c, nonce, |masked|);
    var tokens := DecodeTokens(XorBytes(masked, ks));
    res := RecoverTokens(ScheduleOf(c, nonce), tokens.value, count);
  }
}
