/** Trial-division primality, and the key generation and validation that rest on it. */
module Primes {
  import opened Arithmetic
  import opened Bytes

  ghost predicate IsPrime(n: nat) {
    n >= 2 && forall d :: 2 <= d < n ==> n % d != 0
  }

  // ----- Exact integer square root -----

  /** 64-bit checked multiplication. */
  function CheckedMul(x: nat, y: nat): Option<nat> {
    assert x * y >= 0;
    if x * y < 0x1_0000_0000_0000_0000 then Some(x * y) else None
  }

  /** `guess` is the rounded floating-point root; the loops correct any error it may have. */
  method Isqrt(n: nat, guess: nat) returns (r: nat)
    requires n < 0x1_0000_0000_0000_0000
    ensures r * r <= n < (r + 1) * (r + 1)
  {
    r := guess;
    while CheckedMul(r, r).None? || CheckedMul(r, r).value > n
      decreases r
    {
      r := r - 1;
    }
    while CheckedMul(r + 1, r + 1).Some? && CheckedMul(r + 1, r + 1).value <= n
      invariant r * r <= n
      decreases n - r
    {
      r := r + 1;
      assert r <= r * r;
    }
  }

  // ----- Primality -----

  /** SMALL_ODD_PRIMES. */
  const SmallOddPrimes: seq<nat> := [3, 5, 7, 11, 13, 17, 19, 23, 29, 31, 37, 41, 43, 47, 53]

  /** The least of 2, 3, 5, 7 dividing `d`, else `d` itself. */
  function SmallFactor(d: nat): nat {
    if d % 2 == 0 then 2 else if d % 3 == 0 then 3 else if d % 5 == 0 then 5 else if d % 7 == 0 then 7 else d
  }

  ghost predicate Listed(p: nat) {
    || p == 3 || p == 5 || p == 7 || p == 11 || p == 13 || p == 17 || p == 19 || p == 23
    || p == 29 || p == 31 || p == 37 || p == 41 || p == 43 || p == 47 || p == 53
  }

  lemma SmallFactorListed(d: nat)
    requires 2 <= d < 59
    ensures d % SmallFactor(d) == 0 && SmallFactor(d) <= d
    ensures SmallFactor(d) == 2 || Listed(SmallFactor(d))
  {
    if d < 20 {
    } else if d < 32 {
    } else if d < 46 {
    } else {
    }
  }

  lemma TableIndex(p: nat) returns (j: nat)
    requires Listed(p)
    ensures j < |SmallOddPrimes| && SmallOddPrimes[j] == p
  {
    j := if p == 3 then 0 else if p == 5 then 1 else if p == 7 then 2 else if p == 11 then 3
         else if p == 13 then 4 else if p == 17 then 5 else if p == 19 then 6 else if p == 23 then 7
         else if p == 29 then 8 else if p == 31 then 9 else if p == 37 then 10 else if p == 41 then 11
         else if p == 43 then 12 else if p == 47 then 13 else 14;
  }

  /** Ruling out 2 and the table rules out every divisor below 59. */
  lemma NoSmallDivisor(n: nat, d: nat)
    requires n % 2 != 0 && forall i :: 0 <= i < |SmallOddPrimes| ==> n % SmallOddPrimes[i] != 0
    requires 2 <= d < 59
    ensures n % d != 0
  {
    SmallFactorListed(d);
    if n % d == 0 {
      DivisorTransitive(SmallFactor(d), d, n);
      if SmallFactor(d) != 2 {
        var j := TableIndex(SmallFactor(d));
      }
    }
  }

  lemma SmallPrime(p: nat)
    requires 2 < p < 59 && p % 2 != 0
    requires (p % 3 == 0 ==> p == 3) && (p % 5 == 0 ==> p == 5) && (p % 7 == 0 ==> p == 7)
    ensures IsPrime(p)
  {
    forall d | 2 <= d < p
      ensures p % d != 0
    {
      NotDividing(p, d);
    }
  }

  lemma NotDividing(p: nat, d: nat)
    requires 2 <= d < p < 59 && p % 2 != 0
    requires (p % 3 == 0 ==> p == 3) && (p % 5 == 0 ==> p == 5) && (p % 7 == 0 ==> p == 7)
    ensures p % d != 0
  {
    if p % d == 0 {
      SmallFactorListed(d);
      DivisorTransitive(SmallFactor(d), d, p);
      assert p == p / d * d;
      if SmallFactor(d) == d && d >= 11 {
        LargeCofactor(p / d, d);
      }
    }
  }

  lemma LargeCofactor(m: nat, d: nat)
    requires d >= 11 && d < m * d < 59
    ensures m * d % 2 == 0 || m * d % 3 == 0 || m * d % 5 == 0
  {
    ProductAtLeast(m, 6, d);
    ProductAtMost(m, 1, d);
    assert 2 <= m <= 5;
  }

  lemma TablePrime(i: nat)
    requires i < |SmallOddPrimes|
    ensures IsPrime(SmallOddPrimes[i])
  {
    SmallPrime(SmallOddPrimes[i]);
  }

  /** The cofactor of a divisor beyond the root lies at or below it. */
  lemma Cofactor(n: nat, root: nat, d: nat)
    requires n < (root + 1) * (root + 1) && root < d < n && n % d == 0
    ensures 2 <= n / d <= root && n % (n / d) == 0
  {
    var m := n / d;
    assert n == m * d;
    ProductAtLeast(m, root + 1, d);
    ProductAtLeast(d, root + 1, root + 1);
    ProductAtMost(m, 1, d);
    assert m * d == d * m;
    DivideMultiple(d, m);
  }

  ghost predicate NoDivisorBelow(n: nat, i: nat) {
    forall d :: 2 <= d < i && d < n ==> n % d != 0
  }

  /** A number without a divisor up to its root is prime. */
  lemma RootSuffices(n: nat, root: nat, i: nat)
    requires n >= 2 && n < (root + 1) * (root + 1) && root < i
    requires NoDivisorBelow(n, i)
    ensures IsPrime(n)
  {
    forall d | 2 <= d < n
      ensures n % d != 0
    {
      if d >= i && n % d == 0 {
        Cofactor(n, root, d);
      }
    }
  }

  /** Exact for every u64, whatever the floating-point root was. */
  method TestPrime(n: nat, guess: nat) returns (b: bool)
    requires n < 0x1_0000_0000_0000_0000
    ensures b <==> IsPrime(n)
  {
    if n < 2 {
      return false;
    }
    if n % 2 == 0 {
      return n == 2;
    }
    for j := 0 to |SmallOddPrimes|
      invariant forall k :: 0 <= k < j ==> n % SmallOddPrimes[k] != 0
    {
      if n % SmallOddPrimes[j] == 0 {
        TablePrime(j);
        return n == SmallOddPrimes[j];
      }
    }
    forall d | 2 <= d < 59
      ensures n % d != 0
    {
      NoSmallDivisor(n, d);
    }
    var limit := Isqrt(n, guess);
    b := TrialDivide(n, limit);
  }

  lemma BelowSquare(i: nat, limit: nat, n: nat)
    requires 1 < i <= limit && limit * limit <= n
    ensures i < n
  {
    SquareMono(i, limit);
    MulMono(2, i, i);
  }

  /** An odd `n` needs no even trial divisor. */
  lemma SkipEven(n: nat, i: nat)
    requires NoDivisorBelow(n, i) && 59 <= i && i % 2 == 1 && n > 2 && n % i != 0
    ensures NoDivisorBelow(n, i + 2)
  {
    if n % (i + 1) == 0 {
      DivisorTransitive(2, i + 1, n);
    }
  }

  /** The odd trial divisors from 59 up to the root. */
  method TrialDivide(n: nat, limit: nat) returns (b: bool)
    requires limit * limit <= n < (limit + 1) * (limit + 1) && n > 2
    requires NoDivisorBelow(n, 59)
    ensures b <==> IsPrime(n)
  {
    var i := 59;
    while i <= limit
      invariant i >= 59 && i % 2 == 1 && NoDivisorBelow(n, i)
      decreases limit + 2 - i
    {
      if n % i == 0 {
        BelowSquare(i, limit, n);
        return false;
      }
      SkipEven(n, i);
      i := i + 2;
    }
    RootSuffices(n, limit, i);
    return true;
  }

  // ----- Key validation -----

  const MIN_KEY_PRIME: nat := 1_000_000
  const MAX_KEY_PRIME: nat := 14_999_999
  const MAX_KEY_ELEMENTS: nat := 128

  ghost predicate Distinct(key: seq<nat>) {
    forall i, j :: 0 <= i < j < |key| ==> key[i] != key[j]
  }

  /** The v8 key policy. */
  ghost predicate ValidKey(key: seq<nat>) {
    && 1 <= |key| <= 128
    && (forall i :: 0 <= i < |key| ==> MIN_KEY_PRIME <= key[i] <= MAX_KEY_PRIME && IsPrime(key[i]))
    && Distinct(key)
  }

  datatype KeyError = Empty | TooMany | Below(idx: nat) | Above(idx: nat) | NotPrime(idx: nat) | Duplicate(first: nat, second: nat)

  /** Accepts exactly the keys of the policy, and each refusal names a real defect. */
  method ValidateKey(key: seq<nat>, guess: nat -> nat) returns (res: Result<(), KeyError>)
    ensures res.Ok? <==> ValidKey(key)
    ensures match res
            case Ok(_) => true
            case Err(Empty) => key == []
            case Err(TooMany) => |key| > MAX_KEY_ELEMENTS
            case Err(Below(i)) => i < |key| && key[i] < MIN_KEY_PRIME
            case Err(Above(i)) => i < |key| && key[i] > MAX_KEY_PRIME
            case Err(NotPrime(i)) => i < |key| && !IsPrime(key[i])
            case Err(Duplicate(i, j)) => i < j < |key| && key[i] == key[j]
  {
    if key == [] {
      return Err(Empty);
    }
    if |key| > MAX_KEY_ELEMENTS {
      return Err(TooMany);
    }
    for i := 0 to |key|
      invariant forall k :: 0 <= k < i ==> MIN_KEY_PRIME <= key[k] <= MAX_KEY_PRIME
    {
      if key[i] < MIN_KEY_PRIME {
        return Err(Below(i));
      }
      if key[i] > MAX_KEY_PRIME {
        return Err(Above(i));
      }
    }
    for i := 0 to |key|
      invariant forall k :: 0 <= k < i ==> IsPrime(key[k])
    {
      var prime := TestPrime(key[i], guess(key[i]));
      if !prime {
        return Err(NotPrime(i));
      }
    }
    for i := 0 to |key|
      invariant forall a, b :: 0 <= a < i && a < b < |key| ==> key[a] != key[b]
    {
      for j := i + 1 to |key|
        invariant forall b :: i < b < j ==> key[i] != key[b]
      {
        if key[i] == key[j] {
          return Err(Duplicate(i, j));
        }
      }
    }
    return Ok(());
  }

  // ----- Key generation -----

  /** The distinct primes among the first `n` draws, in order of first appearance. */
  ghost function Kept(draw: nat -> nat, n: nat): seq<nat> {
    if n == 0 then []
    else if IsPrime(draw(n - 1)) && draw(n - 1) !in Kept(draw, n - 1) then Kept(draw, n - 1) + [draw(n - 1)]
    else Kept(draw, n - 1)
  }

  lemma {:induction false} KeptDistinctPrimes(draw: nat -> nat, n: nat, lo: nat, hi: nat)
    requires forall i: nat :: lo <= draw(i) <= hi
    ensures Distinct(Kept(draw, n))
    ensures forall p :: p in Kept(draw, n) ==> IsPrime(p) && lo <= p <= hi
  {
    if n > 0 {
      KeptDistinctPrimes(draw, n - 1, lo, hi);
    }
  }

  /** Every prime drawn is kept, and nothing else is. */
  lemma {:induction false} KeptExactly(draw: nat -> nat, n: nat, p: nat)
    ensures p in Kept(draw, n) <==> IsPrime(p) && exists i: nat :: i < n && draw(i) == p
  {
    if n > 0 {
      KeptExactly(draw, n - 1, p);
      if p in Kept(draw, n) && p !in Kept(draw, n - 1) {
        assert draw(n - 1) == p;
      }
    }
  }

  /** Each kept prime was kept when it was first drawn, after those before it. */
  lemma {:induction false} KeptInOrder(draw: nat -> nat, n: nat, k: nat) returns (i: nat)
    requires k < |Kept(draw, n)|
    ensures i < n && draw(i) == Kept(draw, n)[k] && Kept(draw, i) == Kept(draw, n)[..k]
  {
    var before := Kept(draw, n - 1);
    if k < |before| {
      i := KeptInOrder(draw, n - 1, k);
      assert Kept(draw, n)[..k] == before[..k];
    } else {
      i := n - 1;
      assert Kept(draw, n)[..k] == before;
    }
  }

  lemma {:induction false} KeptGrows(draw: nat -> nat, m: nat, n: nat)
    requires m <= n
    ensures Kept(draw, m) <= Kept(draw, n)
  {
    if m < n {
      KeptGrows(draw, m, n - 1);
    }
  }

  ghost predicate Ascending(s: seq<nat>) {
    forall i, j :: 0 <= i < j < |s| ==> s[i] < s[j]
  }

  /** Where `num` is, or where it belongs, in an ascending index. */
  method BinarySearch(sorted: seq<nat>, num: nat) returns (found: bool, pos: nat)
    requires Ascending(sorted)
    ensures pos <= |sorted|
    ensures found <==> num in sorted
    ensures found ==> pos < |sorted| && sorted[pos] == num
    ensures !found ==> (forall i :: 0 <= i < pos ==> sorted[i] < num) && (forall i :: pos <= i < |sorted| ==> num < sorted[i])
  {
    var lo, hi := 0, |sorted|;
    while lo < hi
      invariant 0 <= lo <= hi <= |sorted|
      invariant forall i :: 0 <= i < lo ==> sorted[i] < num
      invariant forall i :: hi <= i < |sorted| ==> num < sorted[i]
    {
      var mid := lo + (hi - lo) / 2;
      if sorted[mid] == num {
        return true, mid;
      } else if sorted[mid] < num {
        lo := mid + 1;
      } else {
        hi := mid;
      }
    }
    return false, lo;
  }

  datatype GenError = BadCount | EmptyRange | BadRange | TooFewFound | CounterExhausted

  lemma InsertKeepsOrder(sorted: seq<nat>, pos: nat, num: nat)
    requires Ascending(sorted) && pos <= |sorted|
    requires (forall i :: 0 <= i < pos ==> sorted[i] < num) && (forall i :: pos <= i < |sorted| ==> num < sorted[i])
    ensures Ascending(sorted[..pos] + [num] + sorted[pos..])
    ensures forall x :: x in sorted[..pos] + [num] + sorted[pos..] <==> x == num || x in sorted
  {
    assert sorted == sorted[..pos] + sorted[pos..];
  }

  /** The first `count` distinct primes drawn, if the draw budget yields that many. */
  method GeneratePrimes(count: nat, minVal: nat, maxVal: nat, draw: nat -> nat, guess: nat -> nat)
    returns (res: Result<seq<nat>, GenError>)
    requires maxVal < 0x1_0000_0000_0000_0000
    requires minVal < maxVal ==> forall i: nat :: minVal <= draw(i) <= maxVal
    ensures res ==
            if !(1 <= count <= 128) then Err(BadCount)
            else if maxVal <= minVal then Err(EmptyRange)
            else if |Kept(draw, 4096 * count)| < count then Err(TooFewFound)
            else Ok(Kept(draw, 4096 * count)[..count])
  {
    if count == 0 || count > MAX_KEY_ELEMENTS {
      return Err(BadCount);
    }
    if maxVal <= minVal {
      return Err(EmptyRange);
    }
    var maxAttempts := count * 4096;
    var primes: seq<nat>, sorted: seq<nat> := [], [];
    var attempts := 0;
    while |primes| < count && attempts < maxAttempts
      invariant attempts <= maxAttempts && |primes| <= count
      invariant primes == Kept(draw, attempts)
      invariant Ascending(sorted) && forall x :: x in sorted <==> x in primes
      decreases maxAttempts - attempts
    {
      var num := draw(attempts);
      var found, pos := BinarySearch(sorted, num);
      if !found {
        var prime := TestPrime(num, guess(num));
        if prime {
          InsertKeepsOrder(sorted, pos, num);
          sorted := sorted[..pos] + [num] + sorted[pos..];
          primes := primes + [num];
        }
      }
      attempts := attempts + 1;
    }
    KeptGrows(draw, attempts, maxAttempts);
    if |primes| < count {
      return Err(TooFewFound);
    }
    assert Kept(draw, maxAttempts)[..count] == primes;
    return Ok(primes);
  }

  predicate InKeyRange(minVal: nat, maxVal: nat) {
    MIN_KEY_PRIME <= minVal && maxVal <= MAX_KEY_PRIME
  }

  method GenerateV8Primes(count: nat, minVal: nat, maxVal: nat, draw: nat -> nat, guess: nat -> nat)
    returns (res: Result<seq<nat>, GenError>)
    requires maxVal < 0x1_0000_0000_0000_0000
    requires minVal < maxVal ==> forall i: nat :: minVal <= draw(i) <= maxVal
    ensures res.Ok? <==> InKeyRange(minVal, maxVal) && 1 <= count <= 128 && minVal < maxVal && |Kept(draw, 4096 * count)| >= count
    ensures res.Ok? ==> res.value == Kept(draw, 4096 * count)[..count] && ValidKey(res.value)
    ensures res == Err(BadRange) <==> !InKeyRange(minVal, maxVal)
    ensures res == Err(BadCount) <==> InKeyRange(minVal, maxVal) && !(1 <= count <= 128)
    ensures res == Err(EmptyRange) <==> InKeyRange(minVal, maxVal) && 1 <= count <= 128 && maxVal <= minVal
    ensures res != Err(CounterExhausted)
  {
    if !InKeyRange(minVal, maxVal) {
      return Err(BadRange);
    }
    res := GeneratePrimes(count, minVal, maxVal, draw, guess);
    if res.Ok? {
      KeptDistinctPrimes(draw, 4096 * count, minVal, maxVal);
      TakenIsValid(draw, 4096 * count, count);
    }
  }

  lemma TakenIsValid(draw: nat -> nat, n: nat, count: nat)
    requires 1 <= count <= 128 && count <= |Kept(draw, n)| && Distinct(Kept(draw, n))
    requires forall p :: p in Kept(draw, n) ==> IsPrime(p) && MIN_KEY_PRIME <= p <= MAX_KEY_PRIME
    ensures ValidKey(Kept(draw, n)[..count])
  {
    var key := Kept(draw, n)[..count];
    forall i | 0 <= i < |key|
      ensures MIN_KEY_PRIME <= key[i] <= MAX_KEY_PRIME && IsPrime(key[i])
    {
      assert key[i] in Kept(draw, n);
    }
  }

  /** The candidate that counter value `i` gives, in [1 000 000, 15 000 000). */
  function Candidate(mac: seq<byte> -> Digest, i: nat): nat {
    FromBE(mac(BE(i, 4))[..8]) % 14_000_000 + MIN_KEY_PRIME
  }

  /** Any candidate can come up at any counter, whatever comes up at the others. */
  lemma CandidatesIndependent(mac: seq<byte> -> Digest, i: nat, v: nat) returns (changed: seq<byte> -> Digest)
    requires i < 0x1_0000_0000 && MIN_KEY_PRIME <= v <= MAX_KEY_PRIME
    ensures Candidate(changed, i) == v
    ensures forall j: nat :: j < 0x1_0000_0000 && j != i ==> Candidate(changed, j) == Candidate(mac, j)
  {
    FieldSizes();
    var d: Digest := BE(v - MIN_KEY_PRIME, 8) + seq(24, _ => 0);
    ReadBack(v - MIN_KEY_PRIME, 8);
    assert d[..8] == BE(v - MIN_KEY_PRIME, 8);
    changed := m => if m == BE(i, 4) then d else mac(m);
    forall j: nat | j < 0x1_0000_0000 && j != i
      ensures Candidate(changed, j) == Candidate(mac, j)
    {
      if BE(j, 4) == BE(i, 4) {
        BEInjective(i, j, 4);
      }
    }
  }

  function Candidates(mac: seq<byte> -> Digest): (draw: nat -> nat)
    ensures forall i: nat :: MIN_KEY_PRIME <= draw(i) <= MAX_KEY_PRIME
  {
    (i: nat) => Candidate(mac, i)
  }

  /** The expansion loop: it keeps the first thirteen distinct primes, or runs out of counters. */
  method CollectPrimes(draw: nat -> nat, guess: nat -> nat) returns (res: Result<seq<nat>, GenError>)
    requires forall i: nat :: MIN_KEY_PRIME <= draw(i) <= MAX_KEY_PRIME
    ensures res.Ok? ==> |res.value| == 13 && res.value <= Kept(draw, 0xFFFF_FFFF) && ValidKey(res.value)
    ensures res.Err? ==> res.error == CounterExhausted && |Kept(draw, 0xFFFF_FFFF)| < 13
  {
    var primes: seq<nat>, seen: set<nat> := [], {};
    var counter := 0;
    while |primes| < 13
      invariant counter <= 0xFFFF_FFFF && |primes| <= 13
      invariant primes == Kept(draw, counter)
      invariant forall x :: x in seen <==> x in primes
      decreases 0x1_0000_0000 - counter
    {
      var raw := draw(counter);
      if counter == 0xFFFF_FFFF {
        return Err(CounterExhausted);
      }
      counter := counter + 1;
      var prime := TestPrime(raw, guess(raw));
      if raw !in seen && prime {
        primes := primes + [raw];
        seen := seen + {raw};
      }
    }
    KeptGrows(draw, counter, 0xFFFF_FFFF);
    KeptDistinctPrimes(draw, counter, MIN_KEY_PRIME, MAX_KEY_PRIME);
    TakenIsValid(draw, counter, 13);
    assert primes[..13] == primes;
    return Ok(primes);
  }

  /** Counter-mode expansion of a key-encapsulation seed into thirteen primes. */
  method ExpandSeedToPrimes(mac: seq<byte> -> Digest, guess: nat -> nat) returns (res: Result<seq<nat>, GenError>)
    ensures res.Ok? ==> |res.value| == 13 && res.value <= Kept(Candidates(mac), 0xFFFF_FFFF) && ValidKey(res.value)
    ensures res.Err? ==> res.error == CounterExhausted && |Kept(Candidates(mac), 0xFFFF_FFFF)| < 13
  {
    res := CollectPrimes(Candidates(mac), guess);
  }
}
