/** The hybrid key exchange binds every public value through one length-prefixed transcript. */
module Hybrid {
  import opened Bytes

  /** The parts, each behind its four-byte length. */
  function Joined(parts: seq<seq<byte>>): seq<byte> {
    if parts == [] then [] else Joined(parts[..|parts| - 1]) + (BE(|parts[|parts| - 1]|, 4) + parts[|parts| - 1])
  }

  /** The info string: the version prefix "v2", then the four public values. */
  function Transcript(pkPq: seq<byte>, ctPq: seq<byte>, pkStatic: seq<byte>, pkEphemeral: seq<byte>): seq<byte> {
    [0x76, 0x32] + Joined([pkPq, ctPq, pkStatic, pkEphemeral])
  }

  method HybridTranscript(pkPq: seq<byte>, ctPq: seq<byte>, pkStatic: seq<byte>, pkEphemeral: seq<byte>)
    returns (out: seq<byte>)
    ensures out == Transcript(pkPq, ctPq, pkStatic, pkEphemeral)
  {
    out := [0x76, 0x32];
    var parts := [pkPq, ctPq, pkStatic, pkEphemeral];
    for i := 0 to 4
      invariant out == [0x76, 0x32] + Joined(parts[..i])
    {
      assert parts[..i + 1][..i] == parts[..i];
      out := out + BE(|parts[i]|, 4);
      out := out + parts[i];
    }
    assert parts[..4] == parts;
  }

  ghost predicate Prefixable(parts: seq<seq<byte>>) {
    forall i :: 0 <= i < |parts| ==> |parts[i]| < 0x1_0000_0000
  }

  /** The parts in reading order. */
  lemma {:induction false} JoinedFront(parts: seq<seq<byte>>)
    requires parts != []
    ensures Joined(parts) == BE(|parts[0]|, 4) + (parts[0] + Joined(parts[1..]))
    decreases |parts|
  {
    var n := |parts| - 1;
    if n > 0 {
      JoinedFront(parts[..n]);
      assert parts[..n][1..] == parts[1..][..n - 1];
      Regroup(BE(|parts[0]|, 4), parts[0], Joined(parts[1..][..n - 1]), BE(|parts[n]|, 4) + parts[n]);
    } else {
      assert parts[..0] == [] && parts[1..] == [];
    }
  }

  lemma Regroup(a: seq<byte>, b: seq<byte>, c: seq<byte>, d: seq<byte>)
    ensures a + (b + c) + d == a + (b + (c + d))
  {
  }

  lemma SameFront(a: seq<byte>, b: seq<byte>, x: seq<byte>, y: seq<byte>)
    requires |a| < 0x1_0000_0000 && |b| < 0x1_0000_0000
    requires BE(|a|, 4) + (a + x) == BE(|b|, 4) + (b + y)
    ensures a == b && x == y
  {
    FieldSizes();
    var s, t := BE(|a|, 4) + (a + x), BE(|b|, 4) + (b + y);
    assert s[..4] == BE(|a|, 4) && t[..4] == BE(|b|, 4);
    BEInjective(|a|, |b|, 4);
    assert s[4..] == a + x && t[4..] == b + y;
    assert (a + x)[..|a|] == a && (b + y)[..|a|] == b;
    assert (a + x)[|a|..] == x && (b + y)[|a|..] == y;
  }

  lemma {:induction false} JoinedInjective(p: seq<seq<byte>>, q: seq<seq<byte>>)
    requires |p| == |q| && Prefixable(p) && Prefixable(q) && Joined(p) == Joined(q)
    ensures p == q
    decreases |p|
  {
    if p != [] {
      JoinedFront(p);
      JoinedFront(q);
      SameFront(p[0], q[0], Joined(p[1..]), Joined(q[1..]));
      JoinedInjective(p[1..], q[1..]);
      assert p == [p[0]] + p[1..] && q == [q[0]] + q[1..];
    }
  }

  /** Two exchanges with the same transcript agree on all four public values. */
  lemma TranscriptInjective(a: seq<byte>, b: seq<byte>, c: seq<byte>, d: seq<byte>,
                            a': seq<byte>, b': seq<byte>, c': seq<byte>, d': seq<byte>)
    requires Prefixable([a, b, c, d]) && Prefixable([a', b', c', d'])
    requires Transcript(a, b, c, d) == Transcript(a', b', c', d')
    ensures a == a' && b == b' && c == c' && d == d'
  {
    var p, q := [a, b, c, d], [a', b', c', d'];
    assert Transcript(a, b, c, d)[2..] == Joined(p) && Transcript(a', b', c', d')[2..] == Joined(q);
    JoinedInjective(p, q);
    assert p[0] == q[0] && p[1] == q[1] && p[2] == q[2] && p[3] == q[3];
  }
}
