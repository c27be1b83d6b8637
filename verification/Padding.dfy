/** Padding profiles and the padded block of the v8 block format. */
module Padding {
  import opened Arithmetic
  import opened Bytes
  import opened Derivation
  import opened Keyed

  /** The sender's map from message length to block size. */
  datatype PadProfile = Bucket | Coarse(g: nat) | Frame(f: nat)

  datatype PadError = TooLong | BadStride | BadFrame | FrameTooSmall

  /** Bits needed to write `n`. */
  function BitLength(n: nat): nat {
    if n == 0 then 0 else 1 + BitLength(n / 2)
  }

  /** The exponent of `n` when `n` is a power of two. */
  function Log2(n: nat): Option<nat> {
    if n == 0 then None
    else if n == 1 then Some(0)
    else if n % 2 != 0 then None
    else match Log2(n / 2) case None => None case Some(h) => Some(h + 1)
  }

  function BucketExponent(n: nat): nat {
    if BitLength(n) < 4 then 4 else BitLength(n)
  }

  /** Round the height above the lowest rung up to a multiple of the stride. */
  function CoarseExponent(g: nat, e: nat): nat
    requires g > 0 && e >= 4
  {
    4 + g * ((e - 4 + g - 1) / g)
  }

  /** The padded size for `n` codepoints. */
  function BlockSize(profile: PadProfile, n: nat): Result<nat, PadError> {
    if n >= 0x10000 then Err(TooLong)
    else
      var e := BucketExponent(n);
      match profile
      case Bucket => Ok(Pow2(e))
      case Coarse(g) =>
        if g == 0 || 12 % g != 0 then Err(BadStride)
        else Ok(Pow2(CoarseExponent(g, e)))
      case Frame(f) =>
        match Log2(f) {
          case None => Err(BadFrame)
          case Some(t) => if t < 4 || t > 16 then Err(BadFrame) else if n >= f then Err(FrameTooSmall) else Ok(f)
        }
  }

  // ----- The ladder of block sizes -----

  lemma {:induction false} BitLengthExact(n: nat, e: nat)
    ensures n < Pow2(e) <==> BitLength(n) <= e
  {
    if n > 0 && e > 0 {
      BitLengthExact(n / 2, e - 1);
    } else if e > 0 {
      assert Pow2(e) > 0;
    }
  }

  lemma {:induction false} Pow2Strict(d: nat, e: nat)
    requires d < e
    ensures Pow2(d) < Pow2(e)
  {
    if d < e - 1 {
      Pow2Strict(d, e - 1);
    }
  }

  lemma {:induction false} Log2Exact(n: nat, e: nat)
    ensures Log2(n) == Some(e) <==> n == Pow2(e)
  {
    if n > 0 && e > 0 {
      Log2Exact(n / 2, e - 1);
    }
  }

  lemma LadderEnds()
    ensures Pow2(4) == 16 && Pow2(16) == 0x10000
  {
    assert Pow2(8) == 256;
    assert Pow2(12) == 4096;
  }

  /** Stride `g` reaches the exponent `e` when `g` divides its height above the lowest rung. */
  predicate OnStride(g: nat, e: nat)
    requires g > 0 && e >= 4
  {
    (e - 4) % g == 0
  }

  /** The smallest exponent on the stride that is at least `e`, within the ladder. */
  lemma StrideCeiling(g: nat, e: nat)
    requires g > 0 && 12 % g == 0 && 4 <= e <= 16
    ensures var t := CoarseExponent(g, e);
            e <= t <= 16 && OnStride(g, t) && forall u :: e <= u && OnStride(g, u) ==> t <= u
  {
    StrideCases(g);
    StrideRounding(g, e);
    forall u | e <= u && OnStride(g, u)
      ensures CoarseExponent(g, e) <= u
    {
      StrideStep(g, g * ((e - 4 + g - 1) / g), u - 4);
    }
  }

  lemma StrideRounding(g: nat, e: nat)
    requires g == 1 || g == 2 || g == 3 || g == 4 || g == 6 || g == 12
    requires 4 <= e <= 16
    ensures e <= 4 + g * ((e - 4 + g - 1) / g) <= 16
    ensures g * ((e - 4 + g - 1) / g) % g == 0
    ensures g * ((e - 4 + g - 1) / g) < e - 4 + g
  {
    if g == 1 {
    } else if g == 2 {
    } else if g == 3 {
    } else if g == 4 {
    } else if g == 6 {
    } else {
      assert g == 12;
    }
  }

  lemma StrideStep(g: nat, a: nat, b: nat)
    requires g > 0 && a % g == 0 && b % g == 0 && a < b + g
    ensures a <= b
  {
    var p, q := a / g, b / g;
    assert a == p * g && b == q * g;
    ProductAtLeast(p, q + 1, g);
    assert (q + 1) * g == q * g + g;
    ProductAtMost(p, q, g);
  }

  lemma StrideCases(g: nat)
    requires g > 0 && 12 % g == 0
    ensures g == 1 || g == 2 || g == 3 || g == 4 || g == 6 || g == 12
  {
    var m := 12 / g;
    assert 12 == m * g;
    ProductAtLeast(m, 1, g);
  }

  /** Which block sizes a profile can produce. */
  ghost predicate Reachable(profile: PadProfile, e: nat) {
    match profile
    case Bucket => 4 <= e <= 16
    case Coarse(g) => 4 <= e <= 16 && g > 0 && 12 % g == 0 && OnStride(g, e)
    case Frame(f) => 4 <= e <= 16 && f == Pow2(e)
  }

  /** `t` is the lowest rung of the profile strictly above `n`. */
  ghost predicate Lowest(profile: PadProfile, n: nat, t: nat) {
    Reachable(profile, t) && n < Pow2(t) && forall u :: Reachable(profile, u) && n < Pow2(u) ==> t <= u
  }

  /** The size is the lowest rung above `n`; a refusal means there is none. */
  ghost predicate FindsLowest(profile: PadProfile, n: nat) {
    match BlockSize(profile, n)
    case Ok(b) => n < b <= 0x10000 && exists t :: Lowest(profile, n, t) && b == Pow2(t)
    case Err(_) => forall t :: Reachable(profile, t) ==> Pow2(t) <= n
  }

  /** Every profile finds the lowest of its at most thirteen rungs, or refuses for lack of one. */
  lemma LeastRung(profile: PadProfile, n: nat)
    ensures FindsLowest(profile, n)
  {
    LadderEnds();
    if n >= 0x10000 {
      forall t | Reachable(profile, t)
        ensures Pow2(t) <= n
      {
        Pow2Mono(t, 16);
      }
    } else {
      match profile
      case Frame(f) => FrameRung(f, n);
      case Bucket => BucketRung(n);
      case Coarse(g) => CoarseRung(g, n);
    }
  }

  lemma BucketRung(n: nat)
    requires n < 0x10000
    ensures FindsLowest(Bucket, n)
  {
    LadderEnds();
    BitLengthExact(n, 16);
    StridedRung(Bucket, n, BucketExponent(n), BucketExponent(n));
  }

  lemma CoarseRung(g: nat, n: nat)
    requires n < 0x10000
    ensures FindsLowest(Coarse(g), n)
  {
    LadderEnds();
    BitLengthExact(n, 16);
    if g > 0 && 12 % g == 0 {
      var t := CoarseExponent(g, BucketExponent(n));
      StrideCeiling(g, BucketExponent(n));
      StridedRung(Coarse(g), n, BucketExponent(n), t);
    }
  }

  lemma StridedRung(profile: PadProfile, n: nat, e: nat, t: nat)
    requires e == BucketExponent(n) <= t && Reachable(profile, t)
    requires forall u :: e <= u && Reachable(profile, u) ==> t <= u
    ensures Lowest(profile, n, t) && Pow2(t) <= 0x10000
  {
    LadderEnds();
    Pow2Mono(t, 16);
    BitLengthExact(n, t);
    forall u | Reachable(profile, u) && n < Pow2(u)
      ensures t <= u
    {
      BitLengthExact(n, u);
    }
  }

  lemma FrameRung(f: nat, n: nat)
    requires n < 0x10000
    ensures FindsLowest(Frame(f), n)
  {
    LadderEnds();
    forall t: nat | Reachable(Frame(f), t)
      ensures Log2(f) == Some(t)
    {
      Log2Exact(f, t);
    }
    if Log2(f).Some? {
      var t := Log2(f).value;
      Log2Exact(f, t);
      if 4 <= t <= 16 {
        Pow2Mono(t, 16);
        assert Reachable(Frame(f), t);
        assert n < f ==> Lowest(Frame(f), n, t);
      }
    }
  }

  // ----- The padded block -----

  function Fillers(c: Ctx, nonce: seq<byte>, count: nat): (p: seq<scalar>)
    ensures |p| == count
  {
    if count == 0 then [] else Fillers(c, nonce, count - 1) + [FillerAt(c, nonce, count - 1)]
  }

  /** Length prefix, message, derived filler. */
  function Padded(c: Ctx, nonce: seq<byte>, msg: seq<scalar>, size: nat): (p: seq<scalar>)
    requires |msg| < size <= 0x10000
    ensures |p| == size + 2
  {
    [|msg| / 256, |msg| % 256] + msg + Fillers(c, nonce, size - |msg|)
  }

  lemma HighByte(n: nat)
    requires n < 0x10000
    ensures n / 256 % 256 == n / 256
  {
  }

  method PadToBlock(c: Ctx, nonce: seq<byte>, msg: seq<scalar>, size: nat) returns (out: seq<scalar>)
    requires |msg| < size <= 0x10000
    ensures out == Padded(c, nonce, msg, size)
  {
    var n := |msg|;
    HighByte(n);
    out := [n / 256 % 256, n % 256] + msg;
    ghost var head := out;
    for i := 0 to size - n
      invariant out == head + Fillers(c, nonce, i)
    {
      out := out + [FillerAt(c, nonce, i)];
    }
  }

  datatype UnpadError = NoPrefix | PrefixNotBytes | PrefixTooLarge

  function Unpad(padded: seq<scalar>): Result<seq<scalar>, UnpadError> {
    if |padded| < 2 then Err(NoPrefix)
    else if padded[0] > 0xFF || padded[1] > 0xFF then Err(PrefixNotBytes)
    else
      var n := (padded[0] as nat) * 256 + padded[1] as nat;
      if 2 + n > |padded| then Err(PrefixTooLarge) else Ok(padded[2..2 + n])
  }

  lemma UnpadPadded(c: Ctx, nonce: seq<byte>, msg: seq<scalar>, size: nat)
    requires |msg| < size <= 0x10000
    ensures Unpad(Padded(c, nonce, msg, size)) == Ok(msg)
  {
    assert Padded(c, nonce, msg, size)[2..2 + |msg|] == msg;
  }
}
