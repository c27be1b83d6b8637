/** Facts about products and quotients that the other modules share. */
module Arithmetic {

  lemma MulMono(x: nat, y: nat, k: nat)
    requires x <= y
    ensures x * k <= y * k
  {
  }

  lemma ProductAtLeast(m: nat, low: nat, d: nat)
    ensures m >= low ==> m * d >= low * d
  {
  }

  lemma ProductAtMost(m: nat, high: nat, d: nat)
    ensures m <= high ==> m * d <= high * d
  {
  }

  lemma SquareMono(x: nat, y: nat)
    requires x <= y
    ensures x * x <= y * y
  {
    assert x * x <= x * y;
    assert x * y <= y * y;
  }

  lemma DivideMultiple(c: nat, k: nat)
    requires k > 0
    ensures c * k % k == 0 && c * k / k == c
  {
    var n := c * k;
    var q := n / k;
    assert n == q * k + n % k;
    if q < c {
      MulMono(q + 1, c, k);
    } else if q > c {
      MulMono(c + 1, q, k);
    }
  }

  /** Division with remainder has one answer. */
  lemma OneQuotient(d: nat, q: nat, r: nat, q': nat, r': nat)
    requires q * d + r == q' * d + r' && r < d && r' < d
    ensures q == q'
  {
    if q < q' {
      MulMono(q + 1, q', d);
    } else if q > q' {
      MulMono(q' + 1, q, d);
    }
  }

  lemma Quotient(n: nat, d: nat, q: nat, r: nat)
    requires n == q * d + r && r < d
    ensures n / d == q && n % d == r
  {
    OneQuotient(d, q, r, n / d, n % d);
  }

  lemma DivisorTransitive(p: nat, d: nat, n: nat)
    requires 0 < p && 0 < d && d % p == 0 && n % d == 0
    ensures n % p == 0
  {
    var a, b := d / p, n / d;
    assert d == a * p && n == b * d;
    assert b * (a * p) == (b * a) * p;
    assert b * a >= 0;
    DivideMultiple(b * a, p);
  }
}
