/**
 The HMAC the C port links in, as one of the oracles the other modules quantify over: every
 nonce-indexed value it derives by streaming is the oracle's answer to the abstract query.
 */
module CHmac {
  import opened Bytes
  import opened Derivation
  import Sha256

  /** HMAC-SHA256 as a pure function of key and message. */
  function OracleOf(core: Sha256.Core): Oracle {
    (key: seq<byte>, msg: seq<byte>) => Sha256.Hmac(core, key, msg)
  }

  /** Nonce and tail of the queries that consist of a domain byte, the nonce and an optional index. */
  function NonceAndTail(q: Query): Option<(seq<byte>, seq<byte>)> {
    match q
    case NoisePosition(nonce, pos) => Some((nonce, BE(pos, 5)))
    case Addend(nonce, idx) => Some((nonce, BE(idx, 5)))
    case Threshold(nonce) => Some((nonce, []))
    case NoiseChar(nonce, pos) => Some((nonce, BE(pos, 5)))
    case NoiseAddend(nonce, pos) => Some((nonce, BE(pos, 5)))
    case Filler(nonce, idx) => Some((nonce, BE(idx, 4)))
    case KeyBlock(nonce, block) => Some((nonce, BE(block, 4)))
    case SubNonce(nonce, idx) => Some((nonce, BE(idx, 4)))
    case _ => None
  }

  lemma MessageLayout(q: Query)
    requires NonceAndTail(q).Some?
    ensures Message(q) == [Domain(q)] + NonceAndTail(q).value.0 + NonceAndTail(q).value.1
  {
    var (nonce, tail) := NonceAndTail(q).value;
    assert [Domain(q)] + nonce + tail == [Domain(q)] + (nonce + tail);
    assert nonce + [] == nonce;
  }

  method Derive(core: Sha256.Core, sk: seq<byte>, format: byte, q: Query, ghost primes: seq<nat>) returns (d: Digest)
    requires core.Sound() && NonceAndTail(q).Some?
    ensures d == FormatCtx(OracleOf(core), sk, primes, format).Ask(q)
  {
    var skFmt := Sha256.HmacOneShot(core, sk, [0x0B, format]);
    var (nonce, tail) := NonceAndTail(q).value;
    d := Sha256.HmacWithSep(core, skFmt, nonce, Domain(q), tail);
    MessageLayout(q);
  }
}
