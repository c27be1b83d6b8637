/** The DNP3 CRC: a table-driven loop against the shift register it tabulates. */
module Crc {
  import opened Bytes

  type u16 = x: nat | x < 0x10000

  lemma Widths()
    ensures Pow2(1) == 2 && Pow2(8) == 0x100 && Pow2(15) == 0x8000 && Pow2(16) == 0x10000
  {
    assert Pow2(4) == 16;
    assert Pow2(12) == 0x1000;
  }

  // ----- XOR on words -----

  function Xor16(a: nat, b: nat): u16 {
    Widths();
    XorBits(a, b, 16)
  }

  lemma {:induction false} XorCommutes(a: nat, b: nat, w: nat)
    ensures XorBits(a, b, w) == XorBits(b, a, w)
  {
    if w > 0 {
      XorCommutes(a / 2, b / 2, w - 1);
    }
  }

  lemma {:induction false} XorAssociates(a: nat, b: nat, c: nat, w: nat)
    ensures XorBits(XorBits(a, b, w), c, w) == XorBits(a, XorBits(b, c, w), w)
  {
    if w > 0 {
      XorHalves(a, b, w);
      XorHalves(b, c, w);
      XorAssociates(a / 2, b / 2, c / 2, w - 1);
      BitAssociates(a, b, c, XorBits(a, b, w), XorBits(b, c, w));
    }
  }

  lemma BitAssociates(a: nat, b: nat, c: nat, ab: nat, bc: nat)
    requires ab % 2 == XorBit(a, b) && bc % 2 == XorBit(b, c)
    ensures XorBit(ab, c) == XorBit(a, bc)
  {
  }

  lemma {:induction false} XorZero(a: nat, w: nat)
    requires a < Pow2(w)
    ensures XorBits(a, 0, w) == a
  {
    if w > 0 {
      XorZero(a / 2, w - 1);
    }
  }

  lemma {:induction false} XorSelf(a: nat, w: nat)
    ensures XorBits(a, a, w) == 0
  {
    if w > 0 {
      XorSelf(a / 2, w - 1);
    }
  }

  /** Narrow operands have a narrow XOR. */
  lemma {:induction false} XorNarrow(a: nat, b: nat, v: nat, w: nat)
    requires v <= w && a < Pow2(v) && b < Pow2(v)
    ensures XorBits(a, b, w) == XorBits(a, b, v)
  {
    if v > 0 {
      XorNarrow(a / 2, b / 2, v - 1, w - 1);
    } else {
      XorZero(0, w);
    }
  }

  /** Two words with the same XOR to a third are equal. */
  lemma XorCancel(a: u16, b: u16, c: nat)
    requires Xor16(a, c) == Xor16(b, c)
    ensures a == b
  {
    Widths();
    XorBitsInvolution(a, c, 16);
    XorBitsInvolution(b, c, 16);
  }

  // ----- The shift register -----

  /** One shift; the bit shifted out selects the polynomial. */
  function Step(c: u16): u16 {
    if c % 2 == 1 then Xor16(c / 2, 0xA6BC) else c / 2
  }

  function Steps(c: u16, n: nat): u16
    decreases n, c
  {
    if n == 0 then c else Steps(Step(c), n - 1)
  }

  /** One data bit enters the register. */
  function FeedBit(c: u16, bit: nat): u16 {
    if XorBit(c, bit) == 1 then Xor16(c / 2, 0xA6BC) else c / 2
  }

  /** The low `n` bits of `b` enter in transmission order, least significant first. */
  function FeedBits(c: u16, b: nat, n: nat): u16
    decreases n, c
  {
    if n == 0 then c else FeedBits(FeedBit(c, b % 2), b / 2, n - 1)
  }

  /** The register after the whole message, from zero. */
  function Register(data: seq<byte>): u16 {
    if data == [] then 0 else FeedBits(Register(data[..|data| - 1]), data[|data| - 1], 8)
  }

  // ----- The step is linear over XOR -----

  /** The polynomial when `bit` is one. */
  function Tap(bit: nat): u16 {
    if bit == 1 then 0xA6BC else 0
  }

  lemma StepAsXor(c: u16)
    ensures Step(c) == Xor16(c / 2, Tap(c % 2))
  {
    Widths();
    XorZero(c / 2, 16);
  }

  lemma TapLinear(a: nat, b: nat)
    ensures Tap(XorBit(a, b)) == Xor16(Tap(a % 2), Tap(b % 2))
  {
    Widths();
    XorSelf(0xA6BC, 16);
    XorZero(0xA6BC, 16);
    XorZero(0, 16);
    XorCommutes(0, 0xA6BC, 16);
  }

  lemma StepLinear(a: u16, b: u16)
    ensures Step(Xor16(a, b)) == Xor16(Step(a), Step(b))
  {
    Widths();
    StepAsXor(a);
    StepAsXor(b);
    StepAsXor(Xor16(a, b));
    XorHalves(a, b, 16);
    XorNarrow(a / 2, b / 2, 15, 16);
    TapLinear(a, b);
    Interchange(a / 2, b / 2, Tap(a % 2), Tap(b % 2));
  }

  lemma Interchange(a: nat, b: nat, c: nat, d: nat)
    ensures Xor16(Xor16(a, b), Xor16(c, d)) == Xor16(Xor16(a, c), Xor16(b, d))
  {
    XorAssociates(a, b, Xor16(c, d), 16);
    XorAssociates(b, c, d, 16);
    XorCommutes(b, c, 16);
    XorAssociates(c, b, d, 16);
    XorAssociates(a, c, Xor16(b, d), 16);
  }

  lemma {:induction false} StepsLinear(a: u16, b: u16, n: nat)
    ensures Steps(Xor16(a, b), n) == Xor16(Steps(a, n), Steps(b, n))
    decreases n
  {
    if n > 0 {
      StepLinear(a, b);
      StepsLinear(Step(a), Step(b), n - 1);
    }
  }

  // ----- A byte at a time -----

  lemma FeedBitIsStep(c: u16, bit: nat)
    requires bit < 2
    ensures FeedBit(c, bit) == Step(Xor16(c, bit))
  {
    Widths();
    XorHalves(c, bit, 16);
    XorZero(c / 2, 15);
  }

  /** Bits still to come may be folded into the register at once. */
  lemma {:induction false} FeedBitsAreSteps(c: u16, b: nat, n: nat)
    requires b < Pow2(n) && n <= 16
    ensures b < 0x10000 && FeedBits(c, b, n) == Steps(Xor16(c, b), n)
    decreases n
  {
    Pow2Mono(n, 16);
    Widths();
    if n == 0 {
      XorZero(c, 16);
    } else {
      FeedBitsAreSteps(FeedBit(c, b % 2), b / 2, n - 1);
      FeedOne(c, b);
    }
  }

  lemma FeedByte(c: u16, b: byte)
    ensures FeedBits(c, b, 8) == Steps(Xor16(c, b), 8)
  {
    Widths();
    FeedBitsAreSteps(c, b, 8);
  }

  lemma FeedOne(c: u16, b: u16)
    ensures Xor16(FeedBit(c, b % 2), b / 2) == Step(Xor16(c, b))
  {
    FeedBitIsStep(c, b % 2);
    LowBit(b);
    XorAssociates(c, b % 2, 2 * (b / 2), 16);
    StepLinear(Xor16(c, b % 2), 2 * (b / 2));
  }

  lemma LowBit(b: u16)
    ensures Xor16(b % 2, 2 * (b / 2)) == b && Step(2 * (b / 2)) == b / 2
  {
    Widths();
    XorHalves(b % 2, 2 * (b / 2), 16);
    XorCommutes(0, b / 2, 15);
    XorZero(b / 2, 15);
  }

  // ----- The table -----

  lemma Doubled(p: nat, h: nat)
    ensures 2 * p * h == 2 * (p * h)
  {
  }

  /** High bits move down unchanged. */
  lemma {:induction false} StepsOfHigh(h: nat, n: nat, c: u16)
    requires c == Pow2(n) * h
    ensures h < 0x10000 && Steps(c, n) == h
  {
    if n > 0 {
      Doubled(Pow2(n - 1), h);
      EvenStep(c, Pow2(n - 1) * h);
      StepsOfHigh(h, n - 1, c / 2);
    }
  }

  lemma EvenStep(c: u16, m: nat)
    requires c == 2 * m
    ensures Step(c) == c / 2 == m
  {
  }

  lemma {:induction false} XorDisjoint(h: nat, l: nat, k: nat, w: nat)
    requires l < Pow2(k) && k <= w && Pow2(k) * h + l < Pow2(w)
    ensures XorBits(Pow2(k) * h, l, w) == Pow2(k) * h + l
  {
    if k == 0 {
      XorZero(h, w);
    } else {
      var m := Pow2(k - 1) * h;
      Doubled(Pow2(k - 1), h);
      XorDisjoint(h, l / 2, k - 1, w - 1);
      assert 2 * m / 2 == m;
    }
  }

  lemma SplitWord(h: byte, l: byte)
    ensures Xor16(256 * h, l) == 256 * h + l
  {
    Widths();
    XorDisjoint(h, l, 8, 16);
  }

  lemma XorOfBytes(a: byte, b: byte)
    ensures Xor16(a, b) < 256
  {
    Widths();
    XorNarrow(a, b, 8, 16);
  }

  /** A data byte only reaches the low byte of the register. */
  lemma XorLow(c: u16, b: byte)
    ensures Xor16(c, b) == 256 * (c / 256) + Xor16(c % 256, b)
  {
    var h, l := c / 256, c % 256;
    SplitWord(h, l);
    XorAssociates(256 * h, l, b, 16);
    XorOfBytes(l, b);
    SplitWord(h, Xor16(l, b));
  }

  function TableEntry(i: byte): u16 {
    Steps(i, 8)
  }

  /** Eight shifts by one table look-up. */
  lemma TableStep(c: u16, b: byte)
    ensures FeedBits(c, b, 8) == Xor16(c / 256, TableEntry(Xor16(c, b) % 256))
  {
    FeedByte(c, b);
    XorLow(c, b);
    XorOfBytes(c % 256, b);
    LowByteOf(c / 256, Xor16(c % 256, b), Xor16(c, b));
    EightSteps(c / 256, Xor16(c % 256, b));
  }

  lemma LowByteOf(h: byte, l: byte, x: u16)
    requires x == 256 * h + l
    ensures x % 256 == l
  {
  }

  lemma EightSteps(h: byte, l: byte)
    ensures Steps(256 * h + l, 8) == Xor16(h, TableEntry(l))
  {
    SplitWord(h, l);
    StepsLinear(256 * h, l, 8);
    HighSteps(h);
  }

  lemma HighSteps(h: byte)
    ensures Steps(256 * h, 8) == h
  {
    Widths();
    StepsOfHigh(h, 8, 256 * h);
  }

  ghost predicate IsTable(table: array<u16>)
    reads table
  {
    table.Length == 256 && forall i :: 0 <= i < 256 ==> table[i] == TableEntry(i)
  }

  method ShiftEight(i: byte) returns (crc: u16)
    ensures crc == TableEntry(i)
  {
    crc := i;
    var j := 0;
    while j < 8
      invariant j <= 8 && Steps(crc, 8 - j) == TableEntry(i)
    {
      OneMore(crc, 8 - j);
      if crc % 2 != 0 {
        crc := Xor16(crc / 2, 0xA6BC);
      } else {
        crc := crc / 2;
      }
      j := j + 1;
    }
  }

  lemma OneMore(c: u16, n: nat)
    requires n > 0
    ensures Steps(c, n) == Steps(Step(c), n - 1)
  {
  }

  method PrecomputeTable() returns (table: array<u16>)
    ensures fresh(table) && IsTable(table)
  {
    table := new u16[256](_ => 0);
    for i := 0 to 256
      invariant forall k :: 0 <= k < i ==> table[k] == TableEntry(k)
    {
      var crc := ShiftEight(i);
      table[i] := crc;
    }
  }

  /** The transmitted check value: the register complemented. */
  function Crc16(data: seq<byte>): u16 {
    0xFFFF - Register(data)
  }

  /** The look-up loop computes the register of the bit-by-bit form. */
  method CrcByTable(table: array<u16>, data: seq<byte>) returns (crc: u16)
    requires IsTable(table)
    ensures crc == Crc16(data)
  {
    crc := 0;
    for i := 0 to |data|
      invariant crc == Register(data[..i])
    {
      var b := data[i];
      TableStep(crc, b);
      assert data[..i + 1][..i] == data[..i];
      crc := Xor16(crc / 256, table[Xor16(crc, b) % 256]);
    }
    assert data[..|data|] == data;
    crc := 0xFFFF - crc;
  }

  // ----- Error detection -----

  lemma TopBitSet(a: u16)
    requires a < 0x8000
    ensures Xor16(a, 0xA6BC) >= 0x8000
  {
    Widths();
    XorDisjoint(1, 0x26BC, 15, 16);
    XorAssociates(0x8000, 0x26BC, a, 16);
    XorCommutes(a, 0xA6BC, 16);
    XorNarrow(0x26BC, a, 15, 16);
    XorDisjoint(1, XorBits(0x26BC, a, 15), 15, 16);
  }

  /** When the top `n` bits are clear after `n` steps, no bit shifted out was set. */
  lemma {:induction false} NoFeedback(d: u16, n: nat, z: nat)
    requires z == Pow2(n) * Steps(d, n) < 0x10000
    ensures d == z
    decreases n
  {
    if n > 0 {
      OneMore(d, n);
      HalfProduct(Pow2(n), Pow2(n - 1), Steps(d, n), z);
      NoFeedback(Step(d), n - 1, z / 2);
      EvenBefore(d, z);
    }
  }

  lemma HalfProduct(p2: nat, p: nat, t: nat, z: nat)
    requires p2 == 2 * p && z == p2 * t
    ensures z % 2 == 0 && z / 2 == p * t
  {
    Doubled(p, t);
  }

  lemma EvenBefore(d: u16, z: nat)
    requires z == 2 * Step(d) < 0x10000
    ensures d == z
  {
    if d % 2 == 1 {
      TopBitSet(d / 2);
    }
  }

  lemma ZeroDifference(a: u16, b: u16)
    ensures Xor16(a, b) == 0 <==> a == b
  {
    XorSelf(b, 16);
    if Xor16(a, b) == 0 {
      XorCancel(a, b, b);
    }
  }

  lemma TimesZero(p: nat, t: nat)
    requires t == 0
    ensures p * t == 0
  {
  }

  lemma StepsInjective(a: u16, b: u16, n: nat)
    requires Steps(a, n) == Steps(b, n)
    ensures a == b
  {
    StepsLinear(a, b, n);
    ZeroDifference(Steps(a, n), Steps(b, n));
    TimesZero(Pow2(n), Steps(Xor16(a, b), n));
    NoFeedback(Xor16(a, b), n, 0);
    ZeroDifference(a, b);
  }

  lemma ZeroLeft(a: u16)
    ensures Xor16(0, a) == a
  {
    Widths();
    XorCommutes(0, a, 16);
    XorZero(a, 16);
  }

  lemma CommonPart(u: u16, a: u16, b: u16)
    ensures Xor16(Xor16(u, a), Xor16(u, b)) == Xor16(a, b)
  {
    Interchange(u, a, u, b);
    XorSelf(u, 16);
    ZeroLeft(Xor16(a, b));
  }

  lemma SmallDifference(x: byte, y: byte)
    requires Steps(Xor16(x, y), 8) < 256
    ensures x == y
  {
    Widths();
    XorOfBytes(x, y);
    NoFeedback(Xor16(x, y), 8, 256 * Steps(Xor16(x, y), 8));
    ZeroDifference(x, y);
  }

  lemma SecondDifference(ra: u16, rb: u16, a: u16, b: u16)
    requires Xor16(ra, a) == Xor16(rb, b)
    ensures Xor16(ra, rb) == Xor16(a, b)
  {
    ZeroDifference(Xor16(ra, a), Xor16(rb, b));
    Interchange(ra, a, rb, b);
    ZeroDifference(Xor16(ra, rb), Xor16(a, b));
  }

  lemma FirstDifference(c: u16, a: u16, b: u16)
    ensures Xor16(Steps(Xor16(c, a), 8), Steps(Xor16(c, b), 8)) == Steps(Xor16(a, b), 8)
  {
    StepsLinear(Xor16(c, a), Xor16(c, b), 8);
    CommonPart(c, a, b);
  }

  /** From one register, two byte pairs that lead to the same register are the same pair. */
  lemma PairInjective(c: u16, a0: byte, a1: byte, b0: byte, b1: byte)
    requires FeedBits(FeedBits(c, a0, 8), a1, 8) == FeedBits(FeedBits(c, b0, 8), b1, 8)
    ensures a0 == b0 && a1 == b1
  {
    var ra, rb := FeedBits(c, a0, 8), FeedBits(c, b0, 8);
    FeedByte(ra, a1);
    FeedByte(rb, b1);
    StepsInjective(Xor16(ra, a1), Xor16(rb, b1), 8);
    SecondDifference(ra, rb, a1, b1);
    FirstByteSame(c, a0, b0, a1, b1);
    ZeroDifference(ra, rb);
    ZeroDifference(a1, b1);
  }

  lemma FirstByteSame(c: u16, a0: byte, b0: byte, a1: byte, b1: byte)
    requires Xor16(FeedBits(c, a0, 8), FeedBits(c, b0, 8)) == Xor16(a1, b1)
    ensures a0 == b0
  {
    FeedByte(c, a0);
    FeedByte(c, b0);
    FirstDifference(c, a0, b0);
    XorOfBytes(a1, b1);
    SmallDifference(a0, b0);
  }

  lemma FeedInjective(c: u16, d: u16, b: byte)
    requires FeedBits(c, b, 8) == FeedBits(d, b, 8)
    ensures c == d
  {
    FeedByte(c, b);
    FeedByte(d, b);
    StepsInjective(Xor16(c, b), Xor16(d, b), 8);
    XorCancel(c, d, b);
  }

  /** A common suffix keeps different registers different. */
  lemma {:induction false} SuffixInjective(a: seq<byte>, b: seq<byte>, s: seq<byte>)
    requires Register(a + s) == Register(b + s)
    ensures Register(a) == Register(b)
  {
    if s == [] {
      assert a + s == a && b + s == b;
    } else {
      var t := s[..|s| - 1];
      assert (a + s)[..|a + s| - 1] == a + t && (b + s)[..|b + s| - 1] == b + t;
      FeedInjective(Register(a + t), Register(b + t), s[|s| - 1]);
      SuffixInjective(a, b, t);
    }
  }

  predicate DifferWithin(a: seq<byte>, b: seq<byte>, i: nat) {
    |a| == |b| && forall k :: 0 <= k < |a| && k != i && k != i + 1 ==> a[k] == b[k]
  }

  lemma RegisterOfPair(s: seq<byte>, i: nat)
    requires i + 2 <= |s|
    ensures Register(s[..i + 2]) == FeedBits(FeedBits(Register(s[..i]), s[i], 8), s[i + 1], 8)
  {
    assert s[..i + 2][..i + 1] == s[..i + 1];
    assert s[..i + 1][..i] == s[..i];
  }

  /** Messages of one length that differ only within two adjacent bytes never share a CRC. */
  lemma BurstDetected(a: seq<byte>, b: seq<byte>, i: nat)
    requires DifferWithin(a, b, i) && Crc16(a) == Crc16(b)
    ensures a == b
  {
    if i + 2 <= |a| {
      assert a == a[..i + 2] + a[i + 2..] && b == b[..i + 2] + a[i + 2..];
      SuffixInjective(a[..i + 2], b[..i + 2], a[i + 2..]);
      assert a[..i] == b[..i];
      RegisterOfPair(a, i);
      RegisterOfPair(b, i);
      PairInjective(Register(a[..i]), a[i], a[i + 1], b[i], b[i + 1]);
    } else if i + 1 == |a| {
      LastByteDetected(a, b, i);
    }
  }

  lemma LastByteDetected(a: seq<byte>, b: seq<byte>, i: nat)
    requires |a| == |b| == i + 1 && a[..i] == b[..i] && Register(a) == Register(b)
    ensures a == b
  {
    var c := Register(a[..i]);
    FeedByte(c, a[i]);
    FeedByte(c, b[i]);
    StepsInjective(Xor16(c, a[i]), Xor16(c, b[i]), 8);
    SecondDifference(c, c, a[i], b[i]);
    XorSelf(c, 16);
    ZeroDifference(a[i], b[i]);
    assert a == a[..i] + [a[i]] && b == b[..i] + [b[i]];
  }

  lemma SameHighByte(h: byte, la: byte, lb: byte)
    ensures Xor16(256 * h + la, 256 * h + lb) == Xor16(la, lb) < 256
  {
    SplitWord(h, la);
    SplitWord(h, lb);
    CommonPart(256 * h, la, lb);
    XorOfBytes(la, lb);
  }

  /** The last byte shows in the high byte of the register. */
  lemma HighByteInjective(c: u16, x: byte, y: byte)
    requires FeedBits(c, x, 8) / 256 == FeedBits(c, y, 8) / 256
    ensures x == y
  {
    var rx, ry := FeedBits(c, x, 8), FeedBits(c, y, 8);
    FeedByte(c, x);
    FeedByte(c, y);
    SameHighByte(rx / 256, rx % 256, ry % 256);
    FirstDifference(c, x, y);
    SmallDifference(x, y);
  }

  lemma ComplementHigh(r: u16)
    ensures (0xFFFF - r) / 256 == 255 - r / 256
  {
  }

  /** Messages that differ in their last byte differ in the high byte of the CRC. */
  lemma LastByteInHigh(a: seq<byte>, b: seq<byte>, n: nat)
    requires |a| == |b| == n + 1 && a[..n] == b[..n] && Crc16(a) / 256 == Crc16(b) / 256
    ensures a == b
  {
    ComplementHigh(Register(a));
    ComplementHigh(Register(b));
    HighByteInjective(Register(a[..n]), a[n], b[n]);
    assert a == a[..n] + [a[n]] && b == b[..n] + [b[n]];
  }
}
