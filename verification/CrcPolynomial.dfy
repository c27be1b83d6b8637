/**
 What the CRC register holds: the remainder of the message, as a polynomial over GF(2), modulo
 the generator x^16 + x^13 + x^12 + x^11 + x^10 + x^8 + x^6 + x^5 + x^2 + 1.
 A polynomial is the set of its exponents; the first bit sent has the highest.
 */
module CrcPolynomial {
  import opened Bytes
  import opened Crc

  type Poly = set<nat>

  function Generator(): Poly {
    {16, 13, 12, 11, 10, 8, 6, 5, 2, 0}
  }

  function Sum(p: Poly, q: Poly): Poly {
    (p - q) + (q - p)
  }

  /** Times x to the power `n`. */
  function Raised(p: Poly, n: nat): (r: Poly)
    ensures forall e: nat :: e in r <==> e >= n && e - n in p
  {
    set e | e in p :: e + n
  }

  function If(b: bool, p: Poly): Poly {
    if b then p else {}
  }

  /** The polynomial of bits, first bit highest. */
  function OfBits(bits: seq<bool>): Poly {
    if bits == [] then {} else Sum(Raised(OfBits(bits[..|bits| - 1]), 1), If(bits[|bits| - 1], {0}))
  }

  /** The product of the generator and the polynomial of `q`, by Horner's rule. */
  function Multiple(q: seq<bool>): Poly {
    if q == [] then {} else Sum(Raised(Multiple(q[..|q| - 1]), 1), If(q[|q| - 1], Generator()))
  }

  // ----- The register as a polynomial -----

  predicate BitAt(r: nat, j: nat) {
    if j == 0 then r % 2 == 1 else BitAt(r / 2, j - 1)
  }

  /** Bit `j` of the register is the coefficient of x^(15 - j). */
  predicate Coefficient(c: u16, e: nat) {
    e < 16 && BitAt(c, 15 - e)
  }

  function OfRegister(c: u16): Poly {
    set e: nat | e < 16 && Coefficient(c, e)
  }

  lemma {:induction false} XorAt(a: nat, b: nat, w: nat, j: nat)
    requires j < w
    ensures BitAt(XorBits(a, b, w), j) == (BitAt(a, j) != BitAt(b, j))
  {
    XorHalves(a, b, w);
    if j > 0 {
      XorAt(a / 2, b / 2, w - 1, j - 1);
    }
  }

  lemma XorIsSum(a: u16, b: u16)
    ensures OfRegister(Xor16(a, b)) == Sum(OfRegister(a), OfRegister(b))
  {
    forall e: nat | e < 16
      ensures e in OfRegister(Xor16(a, b)) <==> e in Sum(OfRegister(a), OfRegister(b))
    {
      XorAt(a, b, 16, 15 - e);
    }
  }

  lemma FourHigher(r: nat, q: nat, j: nat)
    requires q == r / 16
    ensures BitAt(r, j + 4) == BitAt(q, j)
  {
    assert BitAt(r, j + 4) == BitAt(r / 2, j + 3) == BitAt(r / 2 / 2, j + 2) == BitAt(r / 2 / 2 / 2, j + 1);
    assert BitAt(r / 2 / 2 / 2, j + 1) == BitAt(r / 2 / 2 / 2 / 2, j);
  }

  /** The lowest four bits. */
  lemma Nibble(q: nat)
    ensures BitAt(q, 0) == (q % 2 == 1) && BitAt(q, 1) == (q / 2 % 2 == 1)
    ensures BitAt(q, 2) == (q / 2 / 2 % 2 == 1) && BitAt(q, 3) == (q / 2 / 2 / 2 % 2 == 1)
  {
    assert BitAt(q, 3) == BitAt(q / 2, 2) == BitAt(q / 2 / 2, 1);
  }

  lemma TapAt(j: nat)
    requires j < 16
    ensures BitAt(0xA6BC, j) ==
            BitAt(if j < 4 then 0xA6BC else if j < 8 then 0xA6B else if j < 12 then 0xA6 else 0xA, j % 4)
  {
    if j >= 4 {
      FourHigher(0xA6BC, 0xA6B, j - 4);
    }
    if j >= 8 {
      FourHigher(0xA6B, 0xA6, j - 8);
    }
    if j >= 12 {
      FourHigher(0xA6, 0xA, j - 12);
    }
  }

  /** The tap word holds the generator without its leading term. */
  lemma TapIsGenerator()
    ensures OfRegister(0xA6BC) == Generator() - {16}
  {
    Nibble(0xA6BC);
    Nibble(0xA6B);
    Nibble(0xA6);
    Nibble(0xA);
    forall e: nat | e < 16
      ensures Coefficient(0xA6BC, e) <==> e in Generator()
    {
      TapAt(15 - e);
    }
  }

  /** A shift multiplies by x, dropping the term that leaves the register. */
  lemma ShiftIsRaise(c: u16)
    ensures Raised(OfRegister(c), 1) == OfRegister(c / 2) + If(c % 2 == 1, {16})
    ensures 16 !in OfRegister(c / 2)
  {
    forall e: nat | e < 16
      ensures Coefficient(c / 2, e) <==> e > 0 && Coefficient(c, e - 1)
    {
      if e > 0 {
        assert BitAt(c, 15 - e + 1) == BitAt(c / 2, 15 - e);
      } else {
        Widths();
        HighBitClear(c / 2, 15);
      }
    }
    assert Coefficient(c, 15) <==> c % 2 == 1;
  }

  lemma {:induction false} HighBitClear(r: nat, w: nat)
    requires r < Pow2(w)
    ensures !BitAt(r, w)
  {
    if w > 0 {
      HighBitClear(r / 2, w - 1);
    }
  }

  // ----- One bit, one step of the division -----

  lemma FeedPoly(c: u16, bit: bool)
    ensures OfRegister(FeedBit(c, if bit then 1 else 0)) ==
            Sum(OfRegister(c / 2), If((c % 2 == 1) != bit, Generator() - {16}))
  {
    TapIsGenerator();
    XorIsSum(c / 2, 0xA6BC);
  }

  /** If the message so far, raised by 16, and the register differ by a multiple of the generator, they still do after one bit. */
  lemma DivideOne(m: Poly, r: Poly, product: Poly, c: u16, bit: bool)
    requires r == OfRegister(c) && Sum(Raised(m, 16), r) == product
    ensures var x := (c % 2 == 1) != bit;
            Sum(Raised(Sum(Raised(m, 1), If(bit, {0})), 16), OfRegister(FeedBit(c, if bit then 1 else 0))) ==
            Sum(Raised(product, 1), If(x, Generator()))
  {
    ShiftIsRaise(c);
    FeedPoly(c, bit);
    Balance(m, r, OfRegister(c / 2), c % 2 == 1, bit);
  }

  /** The same step on exponents. */
  lemma Balance(m: Poly, r: Poly, half: Poly, top: bool, bit: bool)
    requires Raised(r, 1) == half + If(top, {16}) && 16 !in half
    ensures Sum(Raised(Sum(Raised(m, 1), If(bit, {0})), 16), Sum(half, If(top != bit, Generator() - {16}))) ==
            Sum(Raised(Sum(Raised(m, 16), r), 1), If(top != bit, Generator()))
  {
    RaiseSum(Raised(m, 1), If(bit, {0}), 16);
    RaiseSum(Raised(m, 16), r, 1);
    assert Raised(Raised(m, 1), 16) == Raised(m, 17) == Raised(Raised(m, 16), 1);
    assert Raised(If(bit, {0}), 16) == If(bit, {16});
    Cancel(Raised(m, 17), half, top, bit);
  }

  lemma RaiseSum(p: Poly, q: Poly, n: nat)
    ensures Raised(Sum(p, q), n) == Sum(Raised(p, n), Raised(q, n))
  {
  }

  lemma Cancel(m: Poly, half: Poly, top: bool, bit: bool)
    requires 16 !in half
    ensures Sum(Sum(m, If(bit, {16})), Sum(half, If(top != bit, Generator() - {16}))) ==
            Sum(Sum(m, half + If(top, {16})), If(top != bit, Generator()))
  {
  }

  // ----- The whole message -----

  /** The low `n` bits of a byte in transmission order. */
  function BitsOf(b: nat, n: nat): (bits: seq<bool>)
    ensures |bits| == n
  {
    if n == 0 then [] else [b % 2 == 1] + BitsOf(b / 2, n - 1)
  }

  function Bits(data: seq<byte>): seq<bool> {
    if data == [] then [] else Bits(data[..|data| - 1]) + BitsOf(data[|data| - 1], 8)
  }

  /** `c` is the remainder of the bits, raised by 16, modulo the generator; `q` is the quotient. */
  ghost predicate Remainder(bits: seq<bool>, c: u16, q: seq<bool>) {
    |q| == |bits| && Sum(Raised(OfBits(bits), 16), OfRegister(c)) == Multiple(q)
  }

  lemma RemainderOne(bits: seq<bool>, c: u16, q: seq<bool>, bit: bool) returns (more: seq<bool>)
    requires Remainder(bits, c, q)
    ensures Remainder(bits + [bit], FeedBit(c, if bit then 1 else 0), more)
  {
    more := q + [(c % 2 == 1) != bit];
    assert more[..|q|] == q && (bits + [bit])[..|bits|] == bits;
    DivideOne(OfBits(bits), OfRegister(c), Multiple(q), c, bit);
  }

  lemma {:induction false} RemainderBits(bits: seq<bool>, c: u16, q: seq<bool>, b: nat, n: nat) returns (more: seq<bool>)
    requires Remainder(bits, c, q)
    ensures Remainder(bits + BitsOf(b, n), FeedBits(c, b, n), more)
    decreases n
  {
    if n == 0 {
      assert bits + BitsOf(b, n) == bits;
      more := q;
    } else {
      var next := RemainderOne(bits, c, q, b % 2 == 1);
      more := RemainderBits(bits + [b % 2 == 1], FeedBit(c, b % 2), next, b / 2, n - 1);
      assert bits + [b % 2 == 1] + BitsOf(b / 2, n - 1) == bits + BitsOf(b, n);
    }
  }

  /** The check value complements the remainder of the message modulo the generator. */
  lemma {:induction false} CrcIsRemainder(data: seq<byte>) returns (q: seq<bool>)
    ensures Remainder(Bits(data), 0xFFFF - Crc16(data), q)
  {
    if data == [] {
      q := [];
      ZeroRegister();
    } else {
      var n := |data| - 1;
      var before := CrcIsRemainder(data[..n]);
      q := RemainderBits(Bits(data[..n]), Register(data[..n]), before, data[n], 8);
    }
  }

  lemma ZeroRegister()
    ensures OfRegister(0) == {}
  {
    forall e: nat | e < 16
      ensures !Coefficient(0, e)
    {
      HighBitClear(0, 15 - e);
    }
  }
}
