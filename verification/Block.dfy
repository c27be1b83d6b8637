/** The v8 block format: synthetic nonce, padded block, masked tokens, tag. */
module Block {
  import opened Bytes
  import opened Derivation
  import opened Keyed
  import opened Padding
  import opened Tokens
  import Primes

  datatype EncryptError = MessageTooLong | BadPadding(pad: PadError)
  datatype DecryptError =
    | TooShort
    | BadTokenCount
    | BadTag
    | BadBlockSize
    | BadToken(token: TokenError)
    | BadPrefix(prefix: UnpadError)

  /** UTF-8, the bytes the synthetic nonce is computed over. */
  function Utf8(msg: seq<scalar>): seq<byte> {
    if msg == [] then [] else Utf8Char(msg[0]) + Utf8(msg[1..])
  }

  function Utf8Char(c: scalar): seq<byte> {
    if c < 0x80 then [c]
    else if c < 0x800 then [0xC0 + c / 0x40, Trail(c)]
    else if c < 0x10000 then [0xE0 + c / 0x1000, Trail(c / 0x40), Trail(c)]
    else [Lead(c), Trail(c / 0x1000), Trail(c / 0x40), Trail(c)]
  }

  /** The first byte of a four-byte sequence. */
  function Lead(c: scalar): byte {
    assert IsScalar(c) && c < 5 * 0x40000;
    0xF0 + c / 0x40000
  }

  function Trail(x: nat): byte {
    0x80 + x % 0x40
  }

  // ----- UTF-8 is injective -----

  lemma CharLength(c: scalar, d: scalar)
    requires Utf8Char(c)[0] == Utf8Char(d)[0]
    ensures |Utf8Char(c)| == |Utf8Char(d)|
  {
  }

  /** The codepoint that the bits of a UTF-8 sequence spell. */
  function Spelled(s: seq<byte>): int
    requires 1 <= |s| <= 4
  {
    if |s| == 1 then s[0]
    else if |s| == 2 then (s[0] as int - 0xC0) * 0x40 + (s[1] as int - 0x80)
    else if |s| == 3 then ((s[0] as int - 0xE0) * 0x40 + (s[1] as int - 0x80)) * 0x40 + (s[2] as int - 0x80)
    else (((s[0] as int - 0xF0) * 0x40 + (s[1] as int - 0x80)) * 0x40 + (s[2] as int - 0x80)) * 0x40 + (s[3] as int - 0x80)
  }

  lemma CharSpelled(c: scalar)
    ensures Spelled(Utf8Char(c)) == c
  {
    assert c == c / 0x40 * 0x40 + c % 0x40;
    assert c / 0x40 == c / 0x1000 * 0x40 + c / 0x40 % 0x40;
    assert c / 0x1000 == c / 0x40000 * 0x40 + c / 0x1000 % 0x40;
  }

  lemma CharInjective(c: scalar, d: scalar)
    requires Utf8Char(c) == Utf8Char(d)
    ensures c == d
  {
    CharSpelled(c);
    CharSpelled(d);
  }

  lemma SplitChar(c: scalar, s: seq<byte>, d: scalar, t: seq<byte>)
    requires Utf8Char(c) + s == Utf8Char(d) + t
    ensures c == d && s == t
  {
    assert (Utf8Char(c) + s)[0] == Utf8Char(c)[0] && (Utf8Char(d) + t)[0] == Utf8Char(d)[0];
    CharLength(c, d);
    SplitHead(Utf8Char(c), s, Utf8Char(d), t);
    CharInjective(c, d);
  }

  /** No two texts have the same UTF-8. */
  lemma {:induction false} Utf8Injective(a: seq<scalar>, b: seq<scalar>)
    requires Utf8(a) == Utf8(b)
    ensures a == b
  {
    if a != [] && b != [] {
      SplitChar(a[0], Utf8(a[1..]), b[0], Utf8(b[1..]));
      Utf8Injective(a[1..], b[1..]);
    }
  }

  // ----- The format -----

  function BlockNonce(c: Ctx, aad: seq<byte>, msg: seq<scalar>): (n: seq<byte>)
    ensures |n| == 16
  {
    c.Ask(SyntheticNonce(aad, Utf8(msg)))[..16]
  }

  function Tagged(c: Ctx, nonce: seq<byte>, aad: seq<byte>, masked: seq<byte>): seq<byte> {
    nonce + masked + c.Ask(BlockTag(nonce, aad, masked))
  }

  /** The masked blob of a message whose block size is `size`. */
  function MaskedBlock(c: Ctx, aad: seq<byte>, msg: seq<scalar>, size: nat): (masked: seq<byte>)
    requires |c.primes| > 0 && |msg| < size <= 0x10000
    ensures |masked| == 160 * (size + 2)
  {
    Sealed(c, BlockNonce(c, aad, msg), Padded(c, BlockNonce(c, aad, msg), msg, size))
  }

  function Encrypted(c: Ctx, aad: seq<byte>, msg: seq<scalar>, profile: PadProfile): Result<seq<byte>, EncryptError>
    requires |c.primes| > 0
  {
    if |msg| > 0xFFFF then Err(MessageTooLong)
    else
      LeastRung(profile, |msg|);
      match BlockSize(profile, |msg|)
      case Err(e) => Err(BadPadding(e))
      case Ok(size) => Ok(Tagged(c, BlockNonce(c, aad, msg), aad, MaskedBlock(c, aad, msg, size)))
  }

  method EncryptBlock(c: Ctx, aad: seq<byte>, msg: seq<scalar>, profile: PadProfile)
    returns (res: Result<seq<byte>, EncryptError>)
    requires |c.primes| > 0
    ensures res == Encrypted(c, aad, msg, profile)
  {
    var nonce := BlockNonce(c, aad, msg);
    if |msg| > 0xFFFF {
      return Err(MessageTooLong);
    }
    var size := BlockSize(profile, |msg|);
    if size.Err? {
      return Err(BadPadding(size.error));
    }
    LeastRung(profile, |msg|);
    var padded := PadToBlock(c, nonce, msg, size.value);
    var masked := Seal(c, nonce, padded);
    return Ok(Tagged(c, nonce, aad, masked));
  }

  /** A legal real-token count is B + 2 for a block size B on the ladder. */
  predicate LegalCount(count: nat) {
    count >= 2 && Log2(count - 2).Some? && 4 <= Log2(count - 2).value <= 16
  }

  function Decrypted(c: Ctx, aad: seq<byte>, ct: seq<byte>): Result<seq<scalar>, DecryptError>
    requires Usable(c)
  {
    if |ct| < 48 then Err(TooShort)
    else if (|ct| - 48) % 160 != 0 then Err(BadTokenCount)
    else
      var nonce, masked := ct[..16], ct[16..|ct| - 32];
      if ct[|ct| - 32..] != c.Ask(BlockTag(nonce, aad, masked)) then Err(BadTag)
      else DecryptCore(c, nonce, masked)
  }

  /** After the tag has verified. */
  function DecryptCore(c: Ctx, nonce: seq<byte>, masked: seq<byte>): Result<seq<scalar>, DecryptError>
    requires Usable(c) && |masked| % 160 == 0
  {
    if !LegalCount(|masked| / 160) then Err(BadBlockSize)
    else
      WholeTokens(|masked|);
      Unmasked(c, nonce, masked, |masked| / 160)
  }

  /** Recover the padded block and strip it. */
  function Unmasked(c: Ctx, nonce: seq<byte>, masked: seq<byte>, count: nat): Result<seq<scalar>, DecryptError>
    requires Usable(c) && |masked| % 8 == 0
  {
    match Opened(c, nonce, masked, count)
    case Err(e) => Err(BadToken(e))
    case Ok(padded) =>
      match Unpad(padded)
      case Err(e) => Err(BadPrefix(e))
      case Ok(msg) => Ok(msg)
  }

  lemma WholeTokens(length: nat)
    requires length % 160 == 0
    ensures length % 8 == 0 && length == 160 * (length / 160)
  {
  }

  method DecryptBlock(c: Ctx, aad: seq<byte>, ct: seq<byte>) returns (res: Result<seq<scalar>, DecryptError>)
    requires Usable(c)
    ensures res == Decrypted(c, aad, ct)
  {
    if |ct| < 48 {
      return Err(TooShort);
    }
    if (|ct| - 48) % 160 != 0 {
      return Err(BadTokenCount);
    }
    var split := |ct| - 32;
    var nonce, masked := ct[..16], ct[16..split];
    if ct[split..] != c.Ask(BlockTag(nonce, aad, masked)) {
      return Err(BadTag);
    }
    res := DecryptBlob(c, nonce, masked);
  }

  method DecryptBlob(c: Ctx, nonce: seq<byte>, masked: seq<byte>) returns (res: Result<seq<scalar>, DecryptError>)
    requires Usable(c) && |masked| % 160 == 0
    ensures res == DecryptCore(c, nonce, masked)
  {
    var count := |masked| / 160;
    if !LegalCount(count) {
      return Err(BadBlockSize);
    }
    WholeTokens(|masked|);
    var padded := Open(c, nonce, masked, count);
    if padded.Err? {
      return Err(BadToken(padded.error));
    }
    var msg := Unpad(padded.value);
    return if msg.Err? then Err(BadPrefix(msg.error)) else Ok(msg.value);
  }

  // ----- Round trip and length -----

  /** Ciphertext length is a function of the profile's rung alone. */
  lemma LengthLaw(c: Ctx, aad: seq<byte>, msg: seq<scalar>, profile: PadProfile)
    requires |c.primes| > 0
    ensures Encrypted(c, aad, msg, profile).Ok? <==> |msg| <= 0xFFFF && BlockSize(profile, |msg|).Ok?
    ensures Encrypted(c, aad, msg, profile).Ok? ==>
              |Encrypted(c, aad, msg, profile).value| == 48 + 160 * (BlockSize(profile, |msg|).value + 2)
  {
  }

  lemma CutTagged(c: Ctx, nonce: seq<byte>, aad: seq<byte>, masked: seq<byte>)
    requires |nonce| == 16
    ensures var ct := Tagged(c, nonce, aad, masked);
            && |ct| == 48 + |masked| && ct[..16] == nonce && ct[16..|ct| - 32] == masked
            && ct[|ct| - 32..] == c.Ask(BlockTag(nonce, aad, masked))
  {
  }

  /** Decryption inverts encryption without being told the profile. */
  lemma RoundTrip(c: Ctx, aad: seq<byte>, msg: seq<scalar>, profile: PadProfile)
    requires Usable(c) && Encrypted(c, aad, msg, profile).Ok?
    ensures Decrypted(c, aad, Encrypted(c, aad, msg, profile).value) == Ok(msg)
  {
    var size := LegalRung(profile, |msg|);
    var nonce := BlockNonce(c, aad, msg);
    OpensMasked(c, aad, nonce, msg, size);
  }

  lemma OpensMasked(c: Ctx, aad: seq<byte>, nonce: seq<byte>, msg: seq<scalar>, size: nat)
    requires Usable(c) && nonce == BlockNonce(c, aad, msg) && |msg| < size <= 0x10000 && LegalCount(size + 2)
    ensures Decrypted(c, aad, Tagged(c, nonce, aad, MaskedBlock(c, aad, msg, size))) == Ok(msg)
  {
    var padded := PaddedOpens(c, nonce, msg, size);
    OpensPadded(c, aad, nonce, padded, msg);
  }

  lemma PaddedOpens(c: Ctx, nonce: seq<byte>, msg: seq<scalar>, size: nat) returns (padded: seq<scalar>)
    requires |msg| < size <= 0x10000
    ensures padded == Padded(c, nonce, msg, size) && |padded| == size + 2 && Unpad(padded) == Ok(msg)
  {
    padded := Padded(c, nonce, msg, size);
    UnpadPadded(c, nonce, msg, size);
  }

  lemma LegalRung(profile: PadProfile, n: nat) returns (size: nat)
    requires n <= 0xFFFF && BlockSize(profile, n).Ok?
    ensures BlockSize(profile, n) == Ok(size) && n < size <= 0x10000 && LegalCount(size + 2)
  {
    LeastRung(profile, n);
    size := BlockSize(profile, n).value;
    var t :| Lowest(profile, n, t) && size == Pow2(t);
    LegalSize(size, t);
  }

  lemma LegalSize(size: nat, t: nat)
    requires size == Pow2(t) && 4 <= t <= 16
    ensures LegalCount(size + 2)
  {
    Log2Exact(size, t);
  }

  lemma OpensPadded(c: Ctx, aad: seq<byte>, nonce: seq<byte>, padded: seq<scalar>, msg: seq<scalar>)
    requires Usable(c) && |nonce| == 16 && Unpad(padded) == Ok(msg) && LegalCount(|padded|)
    ensures Decrypted(c, aad, Tagged(c, nonce, aad, Sealed(c, nonce, padded))) == Ok(msg)
  {
    UnmaskSealed(c, nonce, padded, msg);
    DecryptTagged(c, nonce, aad, Sealed(c, nonce, padded), |padded|, msg);
  }

  lemma DecryptTagged(c: Ctx, nonce: seq<byte>, aad: seq<byte>, masked: seq<byte>, count: nat, msg: seq<scalar>)
    requires Usable(c) && |nonce| == 16 && |masked| == 160 * count && LegalCount(count)
    requires |masked| % 8 == 0 && Unmasked(c, nonce, masked, count) == Ok(msg)
    ensures Decrypted(c, aad, Tagged(c, nonce, aad, masked)) == Ok(msg)
  {
    CutTagged(c, nonce, aad, masked);
    BlockCount(|masked|, count);
  }

  lemma BlockCount(length: nat, count: nat)
    requires length == 160 * count
    ensures length % 160 == 0 && length / 160 == count
  {
  }

  lemma UnmaskSealed(c: Ctx, nonce: seq<byte>, padded: seq<scalar>, msg: seq<scalar>)
    requires Usable(c) && Unpad(padded) == Ok(msg)
    ensures Unmasked(c, nonce, Sealed(c, nonce, padded), |padded|) == Ok(msg)
  {
    OpenSealed(c, nonce, padded);
  }

  // ----- Authenticity -----

  /** What a sender under this key has encrypted. */
  datatype Sent = Sent(aad: seq<byte>, msg: seq<scalar>, profile: PadProfile)

  ghost predicate SentBlocks(c: Ctx, sent: seq<Sent>) {
    |c.primes| > 0 && forall i :: 0 <= i < |sent| ==> FitsAad(sent[i].aad) && Encrypted(c, sent[i].aad, sent[i].msg, sent[i].profile).Ok?
  }

  function SentTag(c: Ctx, s: Sent): Query
    requires |c.primes| > 0 && Encrypted(c, s.aad, s.msg, s.profile).Ok?
  {
    LeastRung(s.profile, |s.msg|);
    BlockTag(BlockNonce(c, s.aad, s.msg), s.aad, MaskedBlock(c, s.aad, s.msg, BlockSize(s.profile, |s.msg|).value))
  }

  /** The one tag the decryptor checks on `ct` verifies only if a sender computed it. */
  ghost predicate NoForgedTag(c: Ctx, sent: seq<Sent>, aad: seq<byte>, ct: seq<byte>)
    requires SentBlocks(c, sent) && |ct| >= 48
  {
    var q := BlockTag(ct[..16], aad, ct[16..|ct| - 32]);
    ct[|ct| - 32..] == c.Ask(q) ==> exists i :: 0 <= i < |sent| && Message(SentTag(c, sent[i])) == Message(q)
  }

  /** Whatever decrypts is one sent ciphertext, under its own associated data, with its own message. */
  lemma Authentic(c: Ctx, sent: seq<Sent>, aad: seq<byte>, ct: seq<byte>) returns (i: nat)
    requires Usable(c) && SentBlocks(c, sent) && FitsAad(aad)
    requires Decrypted(c, aad, ct).Ok? && NoForgedTag(c, sent, aad, ct)
    ensures i < |sent| && sent[i].aad == aad
    ensures Encrypted(c, aad, sent[i].msg, sent[i].profile) == Ok(ct)
    ensures Decrypted(c, aad, ct) == Ok(sent[i].msg)
  {
    var q := BlockTag(ct[..16], aad, ct[16..|ct| - 32]);
    i :| 0 <= i < |sent| && Message(SentTag(c, sent[i])) == Message(q);
    SameCiphertext(c, sent[i], q);
    Recut(c, aad, ct);
    RoundTrip(c, aad, sent[i].msg, sent[i].profile);
  }

  /** Every sent ciphertext meets the hypothesis, under any HMAC. */
  lemma GenuineUnforged(c: Ctx, sent: seq<Sent>, i: nat)
    requires SentBlocks(c, sent) && i < |sent|
    ensures var s := sent[i];
            && Encrypted(c, s.aad, s.msg, s.profile).Ok? && |Encrypted(c, s.aad, s.msg, s.profile).value| >= 48
            && NoForgedTag(c, sent, s.aad, Encrypted(c, s.aad, s.msg, s.profile).value)
  {
    var s := sent[i];
    LeastRung(s.profile, |s.msg|);
    var q := SentTag(c, s);
    CutTagged(c, q.nonce, q.aad, q.masked);
  }

  lemma SameCiphertext(c: Ctx, s: Sent, q: Query)
    requires |c.primes| > 0 && FitsAad(s.aad) && Encrypted(c, s.aad, s.msg, s.profile).Ok?
    requires q.BlockTag? && WellFormed(q) && Message(SentTag(c, s)) == Message(q)
    ensures s.aad == q.aad && Encrypted(c, s.aad, s.msg, s.profile) == Ok(Tagged(c, q.nonce, q.aad, q.masked))
  {
    DomainSeparation(SentTag(c, s), q);
  }

  lemma Recut(c: Ctx, aad: seq<byte>, ct: seq<byte>)
    requires |ct| >= 48 && ct[|ct| - 32..] == c.Ask(BlockTag(ct[..16], aad, ct[16..|ct| - 32]))
    ensures ct == Tagged(c, ct[..16], aad, ct[16..|ct| - 32])
  {
    assert ct == ct[..16] + ct[16..|ct| - 32] + ct[|ct| - 32..];
  }

  // ----- For every HMAC, master secret and valid key -----

  lemma RoundTripUnderEveryOracle(hmac: Oracle, sk: seq<byte>, primes: seq<nat>, aad: seq<byte>, msg: seq<scalar>, profile: PadProfile)
    requires Primes.ValidKey(primes)
    ensures var c := FormatCtx(hmac, sk, primes, FORMAT_BLOCK_V8);
            Encrypted(c, aad, msg, profile).Ok? ==> Decrypted(c, aad, Encrypted(c, aad, msg, profile).value) == Ok(msg)
  {
    var c := FormatCtx(hmac, sk, primes, FORMAT_BLOCK_V8);
    ValidKeyUsable(c.mac, primes);
    if Encrypted(c, aad, msg, profile).Ok? {
      RoundTrip(c, aad, msg, profile);
    }
  }
}
