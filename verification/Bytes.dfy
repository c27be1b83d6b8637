/** Octet strings, big-endian fields and XOR, as every port of the cipher uses them. */
module Bytes {

  type byte = x: int | 0 <= x < 256

  /** An HMAC-SHA256 output. */
  type Digest = s: seq<byte> | |s| == 32 witness seq(32, _ => 0)

  /** A Unicode scalar value: what a Rust `char` can hold. */
  predicate IsScalar(c: int) {
    0 <= c <= 0x10FFFF && !(0xD800 <= c <= 0xDFFF)
  }

  type scalar = c: nat | IsScalar(c)

  datatype Result<+T, +E> = Ok(value: T) | Err(error: E)

  datatype Option<+T> = None | Some(value: T)

  function Min(a: nat, b: nat): nat {
    if a <= b then a else b
  }

  function Pow2(w: nat): (p: nat)
    ensures p > 0
  {
    if w == 0 then 1 else 2 * Pow2(w - 1)
  }

  lemma {:induction false} Pow2Mono(m: nat, n: nat)
    requires m <= n
    ensures Pow2(m) <= Pow2(n)
  {
    if m < n {
      Pow2Mono(m, n - 1);
    }
  }

  function Pow256(w: nat): (p: nat)
    ensures p > 0
  {
    if w == 0 then 1 else 256 * Pow256(w - 1)
  }

  // ----- Big-endian fields -----

  /** The low `w` bytes of `n`, most significant first (a narrowing cast drops the rest). */
  function BE(n: nat, w: nat): (s: seq<byte>)
    ensures |s| == w
  {
    if w == 0 then [] else BE(n / 256, w - 1) + [n % 256]
  }

  function FromBE(s: seq<byte>): nat {
    if |s| == 0 then 0 else FromBE(s[..|s| - 1]) * 256 + s[|s| - 1]
  }

  lemma {:induction false} FromBEBound(s: seq<byte>)
    ensures FromBE(s) < Pow256(|s|)
  {
    if |s| > 0 {
      FromBEBound(s[..|s| - 1]);
    }
  }

  /** A field wide enough for its value is read back exactly. */
  lemma {:induction false} ReadBack(n: nat, w: nat)
    requires n < Pow256(w)
    ensures FromBE(BE(n, w)) == n
  {
    if w > 0 {
      ReadBack(n / 256, w - 1);
      assert BE(n, w)[..w - 1] == BE(n / 256, w - 1);
    }
  }

  /** Every field is the encoding of the value read from it. */
  lemma {:induction false} WriteBack(s: seq<byte>)
    ensures BE(FromBE(s), |s|) == s
  {
    if |s| > 0 {
      WriteBack(s[..|s| - 1]);
      assert FromBE(s) / 256 == FromBE(s[..|s| - 1]);
    }
  }

  lemma BEInjective(a: nat, b: nat, w: nat)
    requires a < Pow256(w) && b < Pow256(w)
    requires BE(a, w) == BE(b, w)
    ensures a == b
  {
    ReadBack(a, w);
    ReadBack(b, w);
  }

  lemma FieldSizes()
    ensures Pow256(4) == 0x1_0000_0000
    ensures Pow256(5) == 0x100_0000_0000
    ensures Pow256(8) == 0x1_0000_0000_0000_0000
  {
    assert Pow256(2) == 0x1_0000;
    assert Pow256(4) == 0x1_0000_0000;
    assert Pow256(6) == 0x1_0000_0000_0000;
  }

  // ----- XOR -----

  /** XOR of the lowest bits. */
  function XorBit(a: nat, b: nat): (x: nat)
    ensures x < 2
  {
    if a % 2 == b % 2 then 0 else 1
  }

  function XorBits(a: nat, b: nat, w: nat): (r: nat)
    ensures r < Pow2(w)
  {
    if w == 0 then 0 else XorBit(a, b) + 2 * XorBits(a / 2, b / 2, w - 1)
  }

  lemma XorHalves(a: nat, b: nat, w: nat)
    requires w > 0
    ensures XorBits(a, b, w) % 2 == XorBit(a, b) && XorBits(a, b, w) / 2 == XorBits(a / 2, b / 2, w - 1)
  {
    var x, rest := XorBit(a, b), XorBits(a / 2, b / 2, w - 1);
    assert (x + 2 * rest) % 2 == x && (x + 2 * rest) / 2 == rest;
  }

  lemma {:induction false} XorBitsInvolution(a: nat, b: nat, w: nat)
    requires a < Pow2(w)
    ensures XorBits(XorBits(a, b, w), b, w) == a
  {
    if w > 0 {
      XorBitsInvolution(a / 2, b / 2, w - 1);
      XorHalves(a, b, w);
      SameParity(a, b, XorBits(a, b, w));
    }
  }

  lemma SameParity(a: nat, b: nat, x: nat)
    requires x % 2 == XorBit(a, b)
    ensures XorBit(x, b) == a % 2
  {
  }

  function Xor(a: byte, b: byte): byte {
    assert Pow2(4) == 16;
    assert Pow2(8) == 256;
    XorBits(a, b, 8)
  }

  lemma XorInvolution(a: byte, b: byte)
    ensures Xor(Xor(a, b), b) == a
  {
    assert Pow2(4) == 16;
    assert Pow2(8) == 256;
    XorBitsInvolution(a, b, 8);
  }

  /** Bytewise XOR over the common length, as zipping two iterators gives. */
  function XorBytes(a: seq<byte>, b: seq<byte>): (r: seq<byte>)
    ensures |r| == Min(|a|, |b|)
  {
    seq(Min(|a|, |b|), i requires 0 <= i < |a| && i < |b| => Xor(a[i], b[i]))
  }

  lemma XorBytesInvolution(a: seq<byte>, b: seq<byte>)
    requires |a| <= |b|
    ensures XorBytes(XorBytes(a, b), b) == a
  {
    forall i | 0 <= i < |a|
      ensures XorBytes(XorBytes(a, b), b)[i] == a[i]
    {
      XorInvolution(a[i], b[i]);
    }
  }

  // ----- Concatenation -----

  lemma Reassociate(a: seq<byte>, b: seq<byte>, c: seq<byte>)
    ensures (a + b) + c == a + (b + c)
  {
  }

  function Concat<T>(parts: seq<seq<T>>): seq<T> {
    if |parts| == 0 then [] else parts[0] + Concat(parts[1..])
  }

  lemma {:induction false} ConcatAppend<T>(a: seq<seq<T>>, b: seq<seq<T>>)
    ensures Concat(a + b) == Concat(a) + Concat(b)
  {
    if |a| == 0 {
      assert a + b == b;
    } else {
      assert (a + b)[1..] == a[1..] + b;
      ConcatAppend(a[1..], b);
    }
  }
}
