/**
 The v8 key schedule: every value the cipher derives is HMAC(sk_fmt, m) for a message m laid
 out domain byte first. HMAC itself is a parameter, so each theorem holds for any such function.
 */
module Derivation {
  import opened Bytes

  const NONCE_SIZE: nat := 16
  const FORMAT_BLOCK_V8: byte := 0x01
  const FORMAT_STREAM_AE_V8: byte := 0x02

  /** What one HMAC call under the format subkey asks for. */
  datatype Query =
    | NoisePosition(nonce: seq<byte>, pos: nat)
    | Addend(nonce: seq<byte>, idx: nat)
    | Threshold(nonce: seq<byte>)
    | BlockTag(nonce: seq<byte>, aad: seq<byte>, masked: seq<byte>)
    | NoiseChar(nonce: seq<byte>, pos: nat)
    | NoiseAddend(nonce: seq<byte>, pos: nat)
    | Filler(nonce: seq<byte>, idx: nat)
    | KeyBlock(nonce: seq<byte>, block: nat)
    | SyntheticNonce(aad: seq<byte>, text: seq<byte>)
    | ChunkTag(frame: nat, nonce: seq<byte>, idx: nat, aad: seq<byte>, masked: seq<byte>)
    | SentinelTag(frame: nat, nonce: seq<byte>, count: nat, aad: seq<byte>, total: nat)
    | SubNonce(nonce: seq<byte>, idx: nat)
    | CountMask(frame: nat, nonce: seq<byte>, count: nat)

  function Domain(q: Query): byte {
    match q
    case NoisePosition(_, _) => 0x00
    case Addend(_, _) => 0x01
    case Threshold(_) => 0x02
    case BlockTag(_, _, _) => 0x03
    case NoiseChar(_, _) => 0x04
    case NoiseAddend(_, _) => 0x05
    case Filler(_, _) => 0x06
    case KeyBlock(_, _) => 0x07
    case SyntheticNonce(_, _) => 0x0A
    case ChunkTag(_, _, _, _, _) => 0x0C
    case SentinelTag(_, _, _, _, _) => 0x0D
    case SubNonce(_, _) => 0x0E
    case CountMask(_, _, _) => 0x0F
  }

  /** The 21-byte stream header, also bound into every stream tag. */
  function Header(frame: nat, nonce: seq<byte>): seq<byte> {
    [FORMAT_STREAM_AE_V8] + BE(frame, 4) + nonce
  }

  /** Length-prefixed associated data. */
  function Prefixed(aad: seq<byte>): seq<byte> {
    BE(|aad|, 8) + aad
  }

  function Body(q: Query): seq<byte> {
    match q
    case NoisePosition(nonce, pos) => nonce + BE(pos, 5)
    case Addend(nonce, idx) => nonce + BE(idx, 5)
    case Threshold(nonce) => nonce
    case BlockTag(nonce, aad, masked) => nonce + (Prefixed(aad) + masked)
    case NoiseChar(nonce, pos) => nonce + BE(pos, 5)
    case NoiseAddend(nonce, pos) => nonce + BE(pos, 5)
    case Filler(nonce, idx) => nonce + BE(idx, 4)
    case KeyBlock(nonce, block) => nonce + BE(block, 4)
    case SyntheticNonce(aad, text) => Prefixed(aad) + text
    case ChunkTag(frame, nonce, idx, aad, masked) =>
      Header(frame, nonce) + (BE(idx, 4) + (Prefixed(aad) + masked))
    case SentinelTag(frame, nonce, count, aad, total) =>
      Header(frame, nonce) + (BE(count, 4) + (Prefixed(aad) + BE(total, 8)))
    case SubNonce(nonce, idx) => nonce + BE(idx, 4)
    case CountMask(frame, nonce, count) => Header(frame, nonce) + BE(count, 4)
  }

  /** The HMAC input of a query. */
  function Message(q: Query): seq<byte> {
    [Domain(q)] + Body(q)
  }

  ghost predicate FitsAad(aad: seq<byte>) {
    |aad| < Pow256(8)
  }

  /** Every field fits the width it is written with. */
  ghost predicate WellFormed(q: Query) {
    match q
    case NoisePosition(nonce, pos) => |nonce| == NONCE_SIZE && pos < Pow256(5)
    case Addend(nonce, idx) => |nonce| == NONCE_SIZE && idx < Pow256(5)
    case Threshold(nonce) => |nonce| == NONCE_SIZE
    case BlockTag(nonce, aad, masked) => |nonce| == NONCE_SIZE && FitsAad(aad)
    case NoiseChar(nonce, pos) => |nonce| == NONCE_SIZE && pos < Pow256(5)
    case NoiseAddend(nonce, pos) => |nonce| == NONCE_SIZE && pos < Pow256(5)
    case Filler(nonce, idx) => |nonce| == NONCE_SIZE && idx < Pow256(4)
    case KeyBlock(nonce, block) => |nonce| == NONCE_SIZE && block < Pow256(4)
    case SyntheticNonce(aad, text) => FitsAad(aad)
    case ChunkTag(frame, nonce, idx, aad, masked) =>
      frame < Pow256(4) && |nonce| == NONCE_SIZE && idx < Pow256(4) && FitsAad(aad)
    case SentinelTag(frame, nonce, count, aad, total) =>
      frame < Pow256(4) && |nonce| == NONCE_SIZE && count < Pow256(4) && FitsAad(aad) && total < Pow256(8)
    case SubNonce(nonce, idx) => |nonce| == NONCE_SIZE && idx < Pow256(4)
    case CountMask(frame, nonce, count) => frame < Pow256(4) && |nonce| == NONCE_SIZE && count < Pow256(4)
  }

  // ----- Domain separation -----

  lemma SplitHead(a: seq<byte>, s: seq<byte>, b: seq<byte>, t: seq<byte>)
    requires |a| == |b| && a + s == b + t
    ensures a == b && s == t
  {
    assert (a + s)[..|a|] == a && (b + t)[..|a|] == b;
    assert (a + s)[|a|..] == s && (b + t)[|a|..] == t;
  }

  lemma SplitPrefixed(a: seq<byte>, s: seq<byte>, b: seq<byte>, t: seq<byte>)
    requires FitsAad(a) && FitsAad(b)
    requires Prefixed(a) + s == Prefixed(b) + t
    ensures a == b && s == t
  {
    Reassociate(BE(|a|, 8), a, s);
    Reassociate(BE(|b|, 8), b, t);
    SplitHead(BE(|a|, 8), a + s, BE(|b|, 8), b + t);
    BEInjective(|a|, |b|, 8);
    SplitHead(a, s, b, t);
  }

  lemma SplitHeader(f: nat, n: seq<byte>, s: seq<byte>, g: nat, m: seq<byte>, t: seq<byte>)
    requires f < Pow256(4) && g < Pow256(4) && |n| == |m|
    requires Header(f, n) + s == Header(g, m) + t
    ensures f == g && n == m && s == t
  {
    SplitHead(Header(f, n), s, Header(g, m), t);
    assert Header(f, n)[1..5] == BE(f, 4) && Header(g, m)[1..5] == BE(g, 4);
    assert Header(f, n)[5..] == n && Header(g, m)[5..] == m;
    BEInjective(f, g, 4);
  }

  /** A stream-tag body is read back field by field. */
  lemma SplitStreamTag(f: nat, n: seq<byte>, i: nat, a: seq<byte>, s: seq<byte>,
                       g: nat, m: seq<byte>, j: nat, b: seq<byte>, t: seq<byte>)
    requires f < Pow256(4) && g < Pow256(4) && |n| == |m| && i < Pow256(4) && j < Pow256(4)
    requires FitsAad(a) && FitsAad(b)
    requires Header(f, n) + (BE(i, 4) + (Prefixed(a) + s)) == Header(g, m) + (BE(j, 4) + (Prefixed(b) + t))
    ensures f == g && n == m && i == j && a == b && s == t
  {
    SplitHeader(f, n, BE(i, 4) + (Prefixed(a) + s), g, m, BE(j, 4) + (Prefixed(b) + t));
    SplitHead(BE(i, 4), Prefixed(a) + s, BE(j, 4), Prefixed(b) + t);
    BEInjective(i, j, 4);
    SplitPrefixed(a, s, b, t);
  }

  lemma SplitIndexed(n: seq<byte>, i: nat, m: seq<byte>, j: nat, w: nat)
    requires |n| == |m| && i < Pow256(w) && j < Pow256(w)
    requires n + BE(i, w) == m + BE(j, w)
    ensures n == m && i == j
  {
    SplitHead(n, BE(i, w), m, BE(j, w));
    BEInjective(i, j, w);
  }

  /** No two distinct queries, of any domain, are ever sent to HMAC as the same bytes. */
  lemma DomainSeparation(p: Query, q: Query)
    requires WellFormed(p) && WellFormed(q)
    requires Message(p) == Message(q)
    ensures p == q
  {
    SplitHead([Domain(p)], Body(p), [Domain(q)], Body(q));
    assert Domain(p) == Domain(q);
    match p
    case NoisePosition(n, i) => SplitIndexed(n, i, q.nonce, q.pos, 5);
    case Addend(n, i) => SplitIndexed(n, i, q.nonce, q.idx, 5);
    case Threshold(n) =>
    case BlockTag(n, a, s) =>
      SplitHead(n, Prefixed(a) + s, q.nonce, Prefixed(q.aad) + q.masked);
      SplitPrefixed(a, s, q.aad, q.masked);
    case NoiseChar(n, i) => SplitIndexed(n, i, q.nonce, q.pos, 5);
    case NoiseAddend(n, i) => SplitIndexed(n, i, q.nonce, q.pos, 5);
    case Filler(n, i) => SplitIndexed(n, i, q.nonce, q.idx, 4);
    case KeyBlock(n, i) => SplitIndexed(n, i, q.nonce, q.block, 4);
    case SyntheticNonce(a, s) => SplitPrefixed(a, s, q.aad, q.text);
    case ChunkTag(f, n, i, a, s) =>
      SplitStreamTag(f, n, i, a, s, q.frame, q.nonce, q.idx, q.aad, q.masked);
    case SentinelTag(f, n, i, a, total) =>
      SplitStreamTag(f, n, i, a, BE(total, 8), q.frame, q.nonce, q.count, q.aad, BE(q.total, 8));
      BEInjective(total, q.total, 8);
    case SubNonce(n, i) => SplitIndexed(n, i, q.nonce, q.idx, 4);
    case CountMask(f, n, i) =>
      SplitHeader(f, n, BE(i, 4), q.frame, q.nonce, BE(q.count, 4));
      BEInjective(i, q.count, 4);
  }

  // ----- Derived values -----

  type Oracle = (seq<byte>, seq<byte>) -> Digest

  /** One keyed format: HMAC under sk_fmt, and the prime tuple. */
  datatype Ctx = Ctx(mac: seq<byte> -> Digest, primes: seq<nat>) {
    function Ask(q: Query): Digest {
      mac(Message(q))
    }
  }

  /** sk_fmt = HMAC(sk, 0x0B || format): the domain that is keyed by sk itself. */
  function FormatCtx(hmac: Oracle, sk: seq<byte>, primes: seq<nat>, format: byte): Ctx {
    var skFmt := hmac(sk, [0x0B, format]);
    Ctx(m => hmac(skFmt, m), primes)
  }

  const THETA_MIN: nat := 75 * 0x1_0000_0000_0000_0000 / 100
  const THETA_MAX: nat := 99 * 0x1_0000_0000_0000_0000 / 100

  function Low32(d: Digest): nat {
    FromBE(d[..4])
  }

  function Low64(d: Digest): nat {
    FromBE(d[..8])
  }

  /** floor(a * b / 2^64), the high half of the 128-bit product. */
  function HighProduct(a: nat, b: nat): nat {
    assert a * b >= 0;
    a * b / 0x1_0000_0000_0000_0000
  }

  function NoiseThreshold(c: Ctx, nonce: seq<byte>): nat {
    THETA_MIN + HighProduct(Low64(c.Ask(Threshold(nonce))), THETA_MAX - THETA_MIN)
  }

  /** theta(N) stays in [theta_min, theta_max), so it is a 64-bit value. */
  lemma ThresholdRange(c: Ctx, nonce: seq<byte>)
    ensures THETA_MIN <= NoiseThreshold(c, nonce) < THETA_MAX < 0x1_0000_0000_0000_0000
  {
    FromBEBound(c.Ask(Threshold(nonce))[..8]);
    FieldSizes();
    HighProductBelow(Low64(c.Ask(Threshold(nonce))), THETA_MAX - THETA_MIN);
  }

  lemma HighProductBelow(a: nat, b: nat)
    requires a < 0x1_0000_0000_0000_0000 && b > 0
    ensures HighProduct(a, b) < b
  {
    assert a * b < 0x1_0000_0000_0000_0000 * b;
    DividedBelow(a * b, b);
  }

  lemma DividedBelow(product: nat, b: nat)
    requires product < 0x1_0000_0000_0000_0000 * b
    ensures product / 0x1_0000_0000_0000_0000 < b
  {
  }

  // ----- The portable 64-bit high product -----

  /** A 64-bit multiplication. */
  function Mul64(x: nat, y: nat): nat {
    assert x * y >= 0;
    x * y % 0x1_0000_0000_0000_0000
  }

  /** The carry chain of the limb fallback, reduced modulo 2^64 as C evaluates it. */
  function Combine(ll: nat, lh: nat, hl: nat, hh: nat): nat {
    var mid := (ll / 0x1_0000_0000 + lh % 0x1_0000_0000 + hl % 0x1_0000_0000) % 0x1_0000_0000_0000_0000;
    (hh + lh / 0x1_0000_0000 + hl / 0x1_0000_0000 + mid / 0x1_0000_0000) % 0x1_0000_0000_0000_0000
  }

  function MulHi64(a: nat, b: nat): nat {
    var aLo, aHi := a % 0x1_0000_0000, a / 0x1_0000_0000;
    var bLo, bHi := b % 0x1_0000_0000, b / 0x1_0000_0000;
    Combine(Mul64(aLo, bLo), Mul64(aLo, bHi), Mul64(aHi, bLo), Mul64(aHi, bHi))
  }

  lemma ProductBound(x: nat, y: nat, m: nat)
    requires x <= m && y <= m
    ensures x * y <= m * m
    ensures m * m < 0x1_0000_0000_0000_0000 ==> Mul64(x, y) == x * y
  {
    assert x * y <= m * y;
    assert m * y <= m * m;
  }

  lemma Expand(a: nat, b: nat, aHi: nat, aLo: nat, bHi: nat, bLo: nat, m: nat)
    requires a == aHi * m + aLo && b == bHi * m + bLo
    ensures a * b == (aHi * bHi) * (m * m) + (aLo * bHi + aHi * bLo) * m + aLo * bLo
  {
    assert a * b == (aHi * m) * (bHi * m) + (aHi * m) * bLo + aLo * (bHi * m) + aLo * bLo;
    assert (aHi * m) * (bHi * m) == (aHi * bHi) * (m * m);
    assert (aHi * m) * bLo == (aHi * bLo) * m;
    assert aLo * (bHi * m) == (aLo * bHi) * m;
  }

  lemma Divided(product: nat, high: nat, low: nat)
    requires product == high * 0x1_0000_0000_0000_0000 + low && low < 0x1_0000_0000_0000_0000
    ensures product / 0x1_0000_0000_0000_0000 == high
  {
  }

  /** Carry propagation over the four partial products. */
  lemma Carries(ll: nat, lh: nat, hl: nat, hh: nat, product: nat)
    requires ll <= 0xFFFF_FFFF * 0xFFFF_FFFF && lh <= 0xFFFF_FFFF * 0xFFFF_FFFF
    requires hl <= 0xFFFF_FFFF * 0xFFFF_FFFF && hh <= 0xFFFF_FFFF * 0xFFFF_FFFF
    requires product == hh * 0x1_0000_0000_0000_0000 + (lh + hl) * 0x1_0000_0000 + ll
    ensures Combine(ll, lh, hl, hh) == product / 0x1_0000_0000_0000_0000
  {
    var mid := ll / 0x1_0000_0000 + lh % 0x1_0000_0000 + hl % 0x1_0000_0000;
    HighLimb(ll);
    HighLimb(lh);
    HighLimb(hl);
    NotReduced(mid);
    NotReduced(hh + lh / 0x1_0000_0000 + hl / 0x1_0000_0000 + mid / 0x1_0000_0000);
    CarryChain(ll / 0x1_0000_0000, ll % 0x1_0000_0000, lh / 0x1_0000_0000, lh % 0x1_0000_0000,
               hl / 0x1_0000_0000, hl % 0x1_0000_0000, mid / 0x1_0000_0000, mid % 0x1_0000_0000, hh, product);
  }

  lemma NotReduced(x: nat)
    ensures x < 0x1_0000_0000_0000_0000 ==> x % 0x1_0000_0000_0000_0000 == x
  {
  }

  lemma HighLimb(x: nat)
    requires x <= 0xFFFF_FFFF * 0xFFFF_FFFF
    ensures x / 0x1_0000_0000 < 0xFFFF_FFFF
    ensures x == x / 0x1_0000_0000 * 0x1_0000_0000 + x % 0x1_0000_0000
  {
  }

  /** The same step on quotients and remainders, where it is linear. */
  lemma CarryChain(qll: nat, rll: nat, qlh: nat, rlh: nat, qhl: nat, rhl: nat, qm: nat, rm: nat, hh: nat, product: nat)
    requires rll < 0x1_0000_0000 && rlh < 0x1_0000_0000 && rhl < 0x1_0000_0000 && rm < 0x1_0000_0000
    requires qll < 0x1_0000_0000 && qlh < 0xFFFF_FFFF && qhl < 0xFFFF_FFFF && hh <= 0xFFFF_FFFE_0000_0001
    requires qll + rlh + rhl == qm * 0x1_0000_0000 + rm
    requires product == hh * 0x1_0000_0000_0000_0000
                        + (qlh * 0x1_0000_0000 + rlh + qhl * 0x1_0000_0000 + rhl) * 0x1_0000_0000
                        + (qll * 0x1_0000_0000 + rll)
    ensures qm < 3 && hh + qlh + qhl + qm < 0x1_0000_0000_0000_0000
    ensures product / 0x1_0000_0000_0000_0000 == hh + qlh + qhl + qm
  {
    Divided(product, hh + qlh + qhl + qm, rm * 0x1_0000_0000 + rll);
  }

  /** No carry is lost: the limb code is the high half of the 128-bit product. */
  lemma MulHi64Exact(a: nat, b: nat)
    requires a < 0x1_0000_0000_0000_0000 && b < 0x1_0000_0000_0000_0000
    ensures MulHi64(a, b) == HighProduct(a, b)
  {
    var aLo, aHi := a % 0x1_0000_0000, a / 0x1_0000_0000;
    var bLo, bHi := b % 0x1_0000_0000, b / 0x1_0000_0000;
    ProductBound(aLo, bLo, 0x1_0000_0000 - 1);
    ProductBound(aLo, bHi, 0x1_0000_0000 - 1);
    ProductBound(aHi, bLo, 0x1_0000_0000 - 1);
    ProductBound(aHi, bHi, 0x1_0000_0000 - 1);
    Expand(a, b, aHi, aLo, bHi, bLo, 0x1_0000_0000);
    Carries(aLo * bLo, aLo * bHi, aHi * bLo, aHi * bHi, a * b);
  }
}
