/** The linear complexity test's Berlekamp-Massey loop over GF(2). */
module BerlekampMassey {

  /** The bit a register of length `l` with taps `c[1..l]` predicts at position `n`. */
  function Feedback(c: seq<bool>, s: seq<bool>, n: nat, l: nat): bool
    requires l < |c| && l <= n <= |s|
  {
    if l == 0 then false else Feedback(c, s, n, l - 1) != (c[l] && s[n - l])
  }

  /** The register reproduces the first `n` bits of `s` from its first `l`. */
  ghost predicate Generates(c: seq<bool>, l: nat, s: seq<bool>, n: nat)
    requires n <= |s|
  {
    l < |c| && forall j {:trigger Feedback(c, s, j, l)} :: l <= j < n ==> s[j] == Feedback(c, s, j, l)
  }

  /** `l` is the length of a shortest register that generates `s`. */
  ghost predicate IsLinearComplexity(s: seq<bool>, l: nat) {
    && (exists c :: Generates(c, l, s, |s|))
    && forall c, k: nat :: Generates(c, k, s, |s|) ==> l <= k
  }

  // ----- Massey's bound -----

  /** Predicting with `a` from bits that are themselves predicted with `b`. */
  function Twice(a: seq<bool>, k: nat, b: seq<bool>, l: nat, s: seq<bool>, n: nat): bool
    requires k < |a| && l < |b| && k + l <= n <= |s|
  {
    if k == 0 then false else Twice(a, k - 1, b, l, s, n) != (a[k] && Feedback(b, s, n - k, l))
  }

  lemma {:induction false} SplitInner(a: seq<bool>, k: nat, b: seq<bool>, l: nat, s: seq<bool>, n: nat)
    requires 0 < k < |a| && l < |b| && k + l <= n <= |s|
    ensures Twice(b, l, a, k, s, n) == (Twice(b, l, a, k - 1, s, n) != (a[k] && Feedback(b, s, n - k, l)))
  {
    if l > 0 {
      SplitInner(a, k, b, l - 1, s, n);
    }
  }

  lemma {:induction false} OrderIrrelevant(a: seq<bool>, k: nat, b: seq<bool>, l: nat, s: seq<bool>, n: nat)
    requires k < |a| && l < |b| && k + l <= n <= |s|
    ensures Twice(a, k, b, l, s, n) == Twice(b, l, a, k, s, n)
  {
    if k == 0 {
      NothingTwice(b, l, a, s, n);
    } else {
      OrderIrrelevant(a, k - 1, b, l, s, n);
      SplitInner(a, k, b, l, s, n);
    }
  }

  lemma {:induction false} NothingTwice(b: seq<bool>, l: nat, a: seq<bool>, s: seq<bool>, n: nat)
    requires 0 < |a| && l < |b| && l <= n <= |s|
    ensures !Twice(b, l, a, 0, s, n)
  {
    if l > 0 {
      NothingTwice(b, l - 1, a, s, n);
    }
  }

  /** Replacing the bits a register reads by the predictions of another changes nothing. */
  lemma {:induction false} Substitute(a: seq<bool>, k: nat, b: seq<bool>, l: nat, s: seq<bool>, n: nat)
    requires k < |a| && k + l <= n <= |s| && Generates(b, l, s, n)
    ensures Feedback(a, s, n, k) == Twice(a, k, b, l, s, n)
  {
    if k > 0 {
      Substitute(a, k - 1, b, l, s, n);
    }
  }

  /** A register that gets bit `n` right where one of length `l` fails has length at least n + 1 - l. */
  lemma MasseyBound(c: seq<bool>, l: nat, c': seq<bool>, k: nat, s: seq<bool>, n: nat)
    requires n < |s| && l <= n && Generates(c, l, s, n) && s[n] != Feedback(c, s, n, l)
    requires Generates(c', k, s, n + 1)
    ensures k >= n + 1 - l
  {
    if k + l <= n {
      Substitute(c', k, c, l, s, n);
      Substitute(c, l, c', k, s, n);
      OrderIrrelevant(c', k, c, l, s, n);
    }
  }

  // ----- Combining two connection polynomials -----

  /** The discrepancy sum of `c` at `n`, taps 0 to `d`. */
  function Sum(c: seq<bool>, s: seq<bool>, n: nat, d: nat): bool
    requires d < |c| && d <= n < |s|
  {
    if d == 0 then c[0] && s[n] else Sum(c, s, n, d - 1) != (c[d] && s[n - d])
  }

  lemma {:induction false} SumIsDiscrepancy(c: seq<bool>, s: seq<bool>, n: nat, l: nat)
    requires l < |c| && l <= n < |s| && c[0]
    ensures Sum(c, s, n, l) == (s[n] != Feedback(c, s, n, l))
  {
    if l > 0 {
      SumIsDiscrepancy(c, s, n, l - 1);
    }
  }

  /** No taps beyond `l`. */
  ghost predicate DegreeAtMost(c: seq<bool>, l: int) {
    forall i :: 0 <= i < |c| && i > l ==> !c[i]
  }

  lemma {:induction false} SumTruncates(c: seq<bool>, s: seq<bool>, n: nat, l: nat, d: nat)
    requires l <= d < |c| && d <= n < |s| && DegreeAtMost(c, l)
    ensures Sum(c, s, n, d) == Sum(c, s, n, l)
  {
    if d > l {
      SumTruncates(c, s, n, l, d - 1);
    }
  }

  /** `c'` is c + x^m b. */
  ghost predicate Added(c': seq<bool>, c: seq<bool>, b: seq<bool>, m: nat) {
    |c'| == |c| == |b| && forall i :: 0 <= i < |c| ==> c'[i] == (c[i] != (i >= m && b[i - m]))
  }

  lemma {:induction false} SumOfAdded(c': seq<bool>, c: seq<bool>, b: seq<bool>, m: nat, s: seq<bool>, n: nat, d: nat)
    requires Added(c', c, b, m) && m > 0 && d < |c| && d <= n < |s|
    ensures Sum(c', s, n, d) == (Sum(c, s, n, d) != (d >= m && Sum(b, s, n - m, d - m)))
  {
    if d > 0 {
      SumOfAdded(c', c, b, m, s, n, d - 1);
    }
  }

  // ----- The state of the loop -----

  /** Where `b` stood at the last length change: it failed at bit n - m, and had length n - m + 1 - l. */
  ghost predicate Previous(b: seq<bool>, l: nat, m: nat, s: seq<bool>, n: nat)
    requires n <= |s|
  {
    && 1 <= m <= n + 1 && l <= n + 1 - m && |b| == |s| + 1 && b[0]
    && DegreeAtMost(b, n + 1 - m - l)
    && (m == n + 1 ==> l == 0)
    && (m <= n ==> l >= 1 && Generates(b, n + 1 - m - l, s, n - m) && s[n - m] != Feedback(b, s, n - m, n + 1 - m - l))
  }

  ghost predicate Current(c: seq<bool>, l: nat, s: seq<bool>, n: nat)
    requires n <= |s|
  {
    && l <= n && |c| == |s| + 1 && c[0] && DegreeAtMost(c, l) && Generates(c, l, s, n)
    && NoneShorter(s, n, l)
  }

  ghost predicate NoneShorter(s: seq<bool>, n: nat, l: nat)
    requires n <= |s|
  {
    forall c, k: nat :: Generates(c, k, s, n) ==> l <= k
  }

  /** Correcting `c` with the shifted `b` repairs bit `n` without breaking an earlier one. */
  lemma Repaired(c: seq<bool>, b: seq<bool>, c': seq<bool>, l: nat, m: nat, s: seq<bool>, n: nat, l': nat)
    requires n < |s| && Current(c, l, s, n) && Previous(b, l, m, s, n) && s[n] != Feedback(c, s, n, l)
    requires Added(c', c, b, m) && l' == if 2 * l <= n then n + 1 - l else l
    ensures c'[0] && DegreeAtMost(c', l') && Generates(c', l', s, n + 1)
  {
    forall j | l' <= j < n + 1
      ensures s[j] == Feedback(c', s, j, l')
    {
      RepairedAt(c, b, c', l, n + 1 - m - l, m, s, n, n - m, l', j, j - m);
    }
  }

  lemma RepairedAt(c: seq<bool>, b: seq<bool>, c': seq<bool>, l: nat, lb: nat, m: nat, s: seq<bool>, n: nat, q: nat, d: nat, j: nat, i: nat)
    requires Added(c', c, b, m) && |c| > 0 && c[0] && b[0] && c'[0] && m > 0 && q + m == n < |s| && i + m == j <= n
    requires l <= d < |c| && lb + m <= d <= j
    requires DegreeAtMost(c, l) && Generates(c, l, s, n) && s[n] != Feedback(c, s, n, l)
    requires DegreeAtMost(b, lb) && Generates(b, lb, s, q) && s[q] != Feedback(b, s, q, lb)
    ensures s[j] == Feedback(c', s, j, d)
  {
    FirstFailure(c, l, s, n, j, d);
    FirstFailure(b, lb, s, q, i, d - m);
    Cancels(c', c, b, m, s, j, d);
  }

  lemma Cancels(c': seq<bool>, c: seq<bool>, b: seq<bool>, m: nat, s: seq<bool>, j: nat, d: nat)
    requires Added(c', c, b, m) && 0 < m <= d < |c| && d <= j < |s| && c'[0]
    requires Sum(c, s, j, d) == Sum(b, s, j - m, d - m)
    ensures s[j] == Feedback(c', s, j, d)
  {
    SumOfAdded(c', c, b, m, s, j, d);
    SumIsDiscrepancy(c', s, j, d);
  }

  /** A register that first fails at bit `q` has discrepancy there and nowhere before. */
  lemma FirstFailure(c: seq<bool>, l: nat, s: seq<bool>, q: nat, j: nat, d: nat)
    requires l <= d < |c| && d <= j <= q < |s| && c[0] && DegreeAtMost(c, l)
    requires Generates(c, l, s, q) && s[q] != Feedback(c, s, q, l)
    ensures Sum(c, s, j, d) == (j == q)
  {
    SumTruncates(c, s, j, l, d);
    SumIsDiscrepancy(c, s, j, l);
  }

  /** No register shorter than the new length generates one bit more. */
  lemma StillShortest(c: seq<bool>, l: nat, s: seq<bool>, n: nat, l': nat)
    requires n < |s| && Current(c, l, s, n) && s[n] != Feedback(c, s, n, l)
    requires l' == if 2 * l <= n then n + 1 - l else l
    ensures NoneShorter(s, n + 1, l')
  {
    var next := n + 1;
    forall c', k: nat | Generates(c', k, s, next)
      ensures l' <= k
    {
      assert Generates(c', k, s, n);
      MasseyBound(c, l, c', k, s, n);
    }
  }

  /** Nor when the bit is predicted correctly. */
  lemma NoneShorterGrows(s: seq<bool>, n: nat, l: nat)
    requires n < |s| && NoneShorter(s, n, l)
    ensures NoneShorter(s, n + 1, l)
  {
    var next := n + 1;
    forall c, k: nat | Generates(c, k, s, next)
      ensures l <= k
    {
      assert Generates(c, k, s, n);
    }
  }

  /** One turn of the loop: nothing to repair, a repair with a longer register, or a repair alone. */
  ghost predicate Turn(c: seq<bool>, b: seq<bool>, l: nat, m: nat, c': seq<bool>, b': seq<bool>, l': nat, m': nat, s: seq<bool>, n: nat)
    requires n < |s|
  {
    if l < |c| && l <= n && s[n] == Feedback(c, s, n, l) then c' == c && b' == b && l' == l && m' == m + 1
    else if 2 * l <= n then Added(c', c, b, m) && b' == c && l' == n + 1 - l && m' == 1
    else Added(c', c, b, m) && b' == b && l' == l && m' == m + 1
  }

  lemma TurnKeeps(c: seq<bool>, b: seq<bool>, l: nat, m: nat, c': seq<bool>, b': seq<bool>, l': nat, m': nat, s: seq<bool>, n: nat, n': nat)
    requires n < |s| && Current(c, l, s, n) && Previous(b, l, m, s, n) && n' == n + 1
    requires Turn(c, b, l, m, c', b', l', m', s, n)
    ensures Current(c', l', s, n') && Previous(b', l', m', s, n')
  {
    if s[n] == Feedback(c, s, n, l) {
      NoneShorterGrows(s, n, l);
    } else {
      Repaired(c, b, c', l, m, s, n, l');
      StillShortest(c, l, s, n, l');
    }
  }

  /** The discrepancy loop. */
  method Discrepancy(c: array<bool>, s: seq<bool>, nn: nat, l: nat) returns (d: bool)
    requires l <= nn < |s| && c.Length == |s| + 1
    ensures d == (s[nn] != Feedback(c[..], s, nn, l))
  {
    d := s[nn];
    var i := 1;
    while i <= l
      invariant 1 <= i <= l + 1
      invariant d == (s[nn] != Feedback(c[..], s, nn, i - 1))
    {
      d := d != (c[i] && s[nn - i]);
      i := i + 1;
    }
  }

  /** c += x^m b, in place, over the taps `b` can have. */
  method AddShifted(c: array<bool>, b: array<bool>, m: nat, end: nat)
    requires c != b && c.Length == b.Length && m > 0 && m + end < c.Length
    requires DegreeAtMost(b[..], end)
    modifies c
    ensures Added(c[..], old(c[..]), b[..], m) && b[..] == old(b[..])
  {
    ghost var was := c[..];
    var j := 0;
    while j <= end
      invariant 0 <= j <= end + 1
      invariant b[..] == old(b[..])
      invariant forall i :: 0 <= i < c.Length ==> c[i] == (was[i] != (m <= i < m + j && b[i - m]))
    {
      c[j + m] := c[j + m] != b[j];
      j := j + 1;
    }
  }

  /** The length of the shortest linear feedback shift register that generates `s`. */
  method Massey(s: seq<bool>) returns (l: nat)
    ensures IsLinearComplexity(s, l)
  {
    var n := |s|;
    var c, b := new bool[n + 1](_ => false), new bool[n + 1](_ => false);
    c[0], b[0] := true, true;
    l := 0;
    var m := 1;
    var nn := 0;
    while nn < n
      invariant nn <= n && c != b && c.Length == b.Length == n + 1
      invariant fresh(c) && fresh(b)
      invariant Current(c[..], l, s, nn) && Previous(b[..], l, m, s, nn)
    {
      var d := Discrepancy(c, s, nn, l);
      ghost var c0, b0, l0, m0 := c[..], b[..], l, m;
      if !d {
        m := m + 1;
      } else if 2 * l <= nn {
        var t := new bool[n + 1](i requires 0 <= i < c.Length reads c => c[i]);
        assert t[..] == c0;
        AddShifted(c, b, m, nn + 1 - m);
        l := nn + 1 - l;
        b := t;
        m := 1;
      } else {
        AddShifted(c, b, m, nn + 1 - m);
        m := m + 1;
      }
      nn := nn + 1;
      TurnKeeps(c0, b0, l0, m0, c[..], b[..], l, m, s, nn - 1, nn);
    }
    assert Generates(c[..], l, s, |s|);
  }
}
