/** The C SHA-256 with the functions and constants of FIPS 180-4. */
module Sha256Fips {
  import opened Bytes
  import opened Sha256

  // ----- Sections 3.2 and 4.1.2 -----

  function Rotr(x: bv32, n: bv6): bv32
    requires n <= 32
  {
    (x >> n) | (x << (32 - n))
  }

  function Ch(x: bv32, y: bv32, z: bv32): bv32 { (x & y) ^ (!x & z) }
  function Maj(x: bv32, y: bv32, z: bv32): bv32 { (x & y) ^ (x & z) ^ (y & z) }
  function BigSigma0(x: bv32): bv32 { Rotr(x, 2) ^ Rotr(x, 13) ^ Rotr(x, 22) }
  function BigSigma1(x: bv32): bv32 { Rotr(x, 6) ^ Rotr(x, 11) ^ Rotr(x, 25) }
  function SmallSigma0(x: bv32): bv32 { Rotr(x, 7) ^ Rotr(x, 18) ^ (x >> 3) }
  function SmallSigma1(x: bv32): bv32 { Rotr(x, 17) ^ Rotr(x, 19) ^ (x >> 10) }
  function Add(x: bv32, y: bv32): bv32 { x + y }

  function Wide(b: byte): bv32 {
    (b as bv8) as bv32
  }

  function Load(b0: byte, b1: byte, b2: byte, b3: byte): bv32 {
    (Wide(b0) << 24) | (Wide(b1) << 16) | (Wide(b2) << 8) | Wide(b3)
  }

  // ----- Sections 4.2.2 and 5.3.3 -----

  /** Eight rows of eight constants. */
  function Row(r: int): (ks: seq<bv32>)
    ensures |ks| == 8
  {
    match r
    case 0 => [0x428a2f98, 0x71374491, 0xb5c0fbcf, 0xe9b5dba5, 0x3956c25b, 0x59f111f1, 0x923f82a4, 0xab1c5ed5]
    case 1 => [0xd807aa98, 0x12835b01, 0x243185be, 0x550c7dc3, 0x72be5d74, 0x80deb1fe, 0x9bdc06a7, 0xc19bf174]
    case 2 => [0xe49b69c1, 0xefbe4786, 0x0fc19dc6, 0x240ca1cc, 0x2de92c6f, 0x4a7484aa, 0x5cb0a9dc, 0x76f988da]
    case 3 => [0x983e5152, 0xa831c66d, 0xb00327c8, 0xbf597fc7, 0xc6e00bf3, 0xd5a79147, 0x06ca6351, 0x14292967]
    case 4 => [0x27b70a85, 0x2e1b2138, 0x4d2c6dfc, 0x53380d13, 0x650a7354, 0x766a0abb, 0x81c2c92e, 0x92722c85]
    case 5 => [0xa2bfe8a1, 0xa81a664b, 0xc24b8b70, 0xc76c51a3, 0xd192e819, 0xd6990624, 0xf40e3585, 0x106aa070]
    case 6 => [0x19a4c116, 0x1e376c08, 0x2748774c, 0x34b0bcb5, 0x391c0cb3, 0x4ed8aa4a, 0x5b9cca4f, 0x682e6ff3]
    case _ => [0x748f82ee, 0x78a5636f, 0x84c87814, 0x8cc70208, 0x90befffa, 0xa4506ceb, 0xbef9a3f7, 0xc67178f2]
  }

  function Constant(t: int): bv32 {
    Row(t / 8)[t % 8]
  }

  function InitialHash(): Hash {
    Hash(0x6a09e667, 0xbb67ae85, 0x3c6ef372, 0xa54ff53a, 0x510e527f, 0x9b05688c, 0x1f83d9ab, 0x5be0cd19)
  }

  function Fips(): (core: Core)
    ensures core.Sound()
  {
    CoreOf(InitialHash(), FipsWords())
  }

  function FipsWords(): Words {
    Words(Constant, Load, Add, SmallSigma0, SmallSigma1, BigSigma0, BigSigma1, Ch, Maj)
  }

  // ----- What the word functions mean -----

  /** Where `x` has ones the choice is `y`, elsewhere `z`. */
  lemma Choice(x: bv32, y: bv32, z: bv32)
    ensures Ch(x, y, z) & x == y & x && Ch(x, y, z) & !x == z & !x
  {
  }

  /** Where `x` and `y` agree the majority is theirs. */
  lemma MajorityAgrees(x: bv32, y: bv32, z: bv32)
    ensures Maj(x, y, z) & !(x ^ y) == x & !(x ^ y)
  {
  }

  /** Where they differ `z` decides. */
  lemma MajorityDecides(x: bv32, y: bv32, z: bv32)
    ensures Maj(x, y, z) & (x ^ y) == z & (x ^ y)
  {
  }

  // ----- Words and their bytes -----

  lemma OctetBack(y: bv8)
    ensures (y as int) as bv8 == y
  {
  }

  lemma WideOfLow(x: bv32)
    ensures Wide(LowByte(x)) == x & 0xFF
  {
    OctetBack(Octet(x));
  }

  lemma FourOctets(x: bv32)
    ensures (((x >> 24) & 0xFF) << 24) | (((x >> 16) & 0xFF) << 16) | (((x >> 8) & 0xFF) << 8) | (x & 0xFF) == x
  {
  }

  /** Loading the four bytes of a word gives the word. */
  lemma LoadOfBytes(x: bv32)
    ensures var b := WordBytes(x); FipsWords().load(b[0], b[1], b[2], b[3]) == x
  {
    WideOfLow(x >> 24);
    WideOfLow(x >> 16);
    WideOfLow(x >> 8);
    WideOfLow(x);
    FourOctets(x);
  }

  /** The C digest of a message fed in any pieces. */
  method Digest256(pieces: seq<seq<byte>>) returns (out: Digest)
    ensures out == Sha(Fips(), Concat(pieces))
  {
    out := Sha256OfPieces(Fips(), pieces);
  }
  /** HMAC-SHA256. */
  method Hmac256(key: seq<byte>, msg: seq<byte>) returns (out: Digest)
    ensures out == Hmac(Fips(), key, msg)
  {
    out := HmacOneShot(Fips(), key, msg);
  }
}
