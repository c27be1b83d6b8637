/**
 The older token encoding: base-128 varints under a byte mask. A varint may be cut at any byte,
 so the decoder is a scan that carries an unfinished one over.
 */
module Varint {
  import opened Arithmetic
  import opened Bytes
  import opened Tokens

  /** What a Python `str` can hold; lone surrogates included. */
  type codepoint = c: nat | c <= 0x10FFFF

  // ----- Varints -----

  /** Seven bits a byte, low bits first, the top bit set on all but the last. */
  function Leb(n: nat): (s: seq<byte>)
    ensures |s| > 0
    decreases n
  {
    if n <= 0x7F then [n] else [n % 128 + 128] + Leb(n / 128)
  }

  method EncodeToken(n: nat) returns (out: seq<byte>)
    ensures out == Leb(n)
  {
    out := [];
    var m := n;
    while m > 0x7F
      invariant out + Leb(m) == Leb(n)
      decreases m
    {
      out, m := out + [m % 128 + 128], m / 128;
    }
    out := out + [m];
  }

  /** The number a varint spells. */
  function Value(s: seq<byte>): nat {
    if s == [] then 0 else s[0] % 128 + 128 * Value(s[1..])
  }

  lemma {:induction false} ValueOfLeb(n: nat)
    ensures Value(Leb(n)) == n
    decreases n
  {
    if n > 0x7F {
      assert Leb(n)[1..] == Leb(n / 128);
      ValueOfLeb(n / 128);
    }
  }

  function LebAll(tokens: seq<nat>): seq<byte> {
    if tokens == [] then [] else Leb(tokens[0]) + LebAll(tokens[1..])
  }

  // ----- The scan -----

  /** Mask byte, unfinished varint, token position, real index, characters so far. */
  datatype Scan = Scan(off: nat, buf: seq<byte>, pos: nat, idx: nat, out: seq<codepoint>, failed: bool)

  const START: Scan := Scan(0, [], 0, 0, [], false)

  /** A complete token: noise is dropped, anything else must be a character. */
  function Token(s: Schedule, st: Scan, token: nat): Scan
    requires s.Valid()
  {
    if s.noise(st.pos) then st.(pos := st.pos + 1)
    else
      var c := (token - s.addend(st.idx)) / s.key(st.idx);
      if 0 <= c <= 0x10FFFF then st.(pos := st.pos + 1, idx := st.idx + 1, out := st.out + [c])
      else st.(failed := true)
  }

  type Reader = (Scan, nat) -> Scan

  function TokenReader(s: Schedule): Reader
    requires s.Valid()
  {
    (st: Scan, token: nat) => Token(s, st, token)
  }

  /** One unmasked byte. Nothing is read after a failure. */
  function Take(read: Reader, st: Scan, u: byte): Scan {
    if st.failed then st
    else if u >= 128 then st.(off := st.off + 1, buf := st.buf + [u])
    else read(st.(off := st.off + 1, buf := []), Value(st.buf + [u]))
  }

  function TakeAll(read: Reader, st: Scan, data: seq<byte>): Scan
    decreases |data|
  {
    if data == [] then st else TakeAll(read, Take(read, st, data[0]), data[1..])
  }

  /** However the bytes are cut, the scan ends in the same state. */
  lemma {:induction false} TakeSplit(read: Reader, st: Scan, a: seq<byte>, b: seq<byte>)
    ensures TakeAll(read, st, a + b) == TakeAll(read, TakeAll(read, st, a), b)
    decreases |a|
  {
    if a == [] {
      assert a + b == b;
    } else {
      assert (a + b)[1..] == a[1..] + b;
      TakeSplit(read, Take(read, st, a[0]), a[1..], b);
    }
  }

  // ----- The mask -----

  /** A byte under the keystream byte of an offset. */
  type Flip = (byte, nat) -> byte

  function XorWith(ks: nat -> byte): Flip {
    (b: byte, off: nat) => Xor(b, ks(off))
  }

  ghost predicate Involutive(flip: Flip) {
    forall b, off :: flip(flip(b, off), off) == b
  }

  lemma XorInvolutive(ks: nat -> byte)
    ensures Involutive(XorWith(ks))
  {
    forall b: byte, off: nat
      ensures Xor(Xor(b, ks(off)), ks(off)) == b
    {
      XorInvolution(b, ks(off));
    }
  }

  function Mask(flip: Flip, off: nat, data: seq<byte>): (m: seq<byte>)
    ensures |m| == |data|
  {
    seq(|data|, (i: nat) requires i < |data| => flip(data[i], off + i))
  }

  lemma MaskTwice(flip: Flip, off: nat, data: seq<byte>)
    requires Involutive(flip)
    ensures Mask(flip, off, Mask(flip, off, data)) == data
  {
  }

  lemma MaskSplit(flip: Flip, off: nat, a: seq<byte>, b: seq<byte>)
    ensures Mask(flip, off, a + b) == Mask(flip, off, a) + Mask(flip, off + |a|, b)
  {
  }

  // ----- Emission -----

  /** `q` is the first position from `p` on that carries no noise. */
  ghost predicate RunEndsAt(s: Schedule, p: nat, q: nat) {
    p <= q && !s.noise(q) && forall i :: p <= i < q ==> s.noise(i)
  }

  /** Every noise run is finite. */
  ghost predicate RunsEnd(s: Schedule) {
    forall p: nat :: RunEnds(s, p)
  }

  ghost predicate RunEnds(s: Schedule, p: nat) {
    exists q: nat :: RunEndsAt(s, p, q)
  }

  ghost function RealPos(s: Schedule, p: nat): (q: nat)
    requires RunsEnd(s)
    ensures RunEndsAt(s, p, q)
  {
    assert RunEnds(s, p);
    var q: nat :| RunEndsAt(s, p, q);
    q
  }

  /** The varints of the character with index `idx`: its noise run, then its own. */
  ghost function CharBytes(s: Schedule, p: nat, idx: nat, c: codepoint): seq<byte>
    requires RunsEnd(s)
  {
    LebAll(NoiseTokens(s, p, RealPos(s, p), idx)) + Leb(s.RealToken(c, idx))
  }

  /** The position after the first `idx` characters. */
  ghost function PosAfter(s: Schedule, idx: nat): nat
    requires RunsEnd(s)
  {
    if idx == 0 then 0 else RealPos(s, PosAfter(s, idx - 1)) + 1
  }

  ghost function Plain(s: Schedule, text: seq<codepoint>): seq<byte>
    requires RunsEnd(s)
  {
    if text == [] then []
    else
      var n := |text| - 1;
      Plain(s, text[..n]) + CharBytes(s, PosAfter(s, n), n, text[n])
  }

  /** The encoder's inner loop, one character. */
  method EncodeChar(s: Schedule, p: nat, idx: nat, c: codepoint) returns (buf: seq<byte>, next: nat)
    requires RunsEnd(s)
    ensures buf == CharBytes(s, p, idx, c) && next == RealPos(s, p) + 1
  {
    buf, next := [], p;
    ghost var q := RealPos(s, p);
    while s.noise(next)
      invariant p <= next <= q && buf == LebAll(NoiseTokens(s, p, next, idx))
      decreases q - next
    {
      var token := EncodeToken(s.NoiseToken(next, idx));
      OneMoreNoise(s, p, next, idx);
      buf, next := buf + token, next + 1;
    }
    assert next == q;
    var token := EncodeToken(s.RealToken(c, idx));
    buf, next := buf + token, next + 1;
  }

  lemma {:induction false} LebAllAppend(tokens: seq<nat>, t: nat)
    ensures LebAll(tokens + [t]) == LebAll(tokens) + Leb(t)
  {
    var more := tokens + [t];
    if tokens == [] {
      assert more[1..] == [];
    } else {
      assert more[1..] == tokens[1..] + [t];
      LebAllAppend(tokens[1..], t);
    }
  }

  lemma OneMoreNoise(s: Schedule, p: nat, next: nat, idx: nat)
    requires p <= next
    ensures LebAll(NoiseTokens(s, p, next + 1, idx)) == LebAll(NoiseTokens(s, p, next, idx)) + Leb(s.NoiseToken(next, idx))
  {
    LebAllAppend(NoiseTokens(s, p, next, idx), s.NoiseToken(next, idx));
    assert NoiseTokens(s, p, next + 1, idx) == NoiseTokens(s, p, next, idx) + [s.NoiseToken(next, idx)];
  }

  // ----- The scan reads back what was emitted -----

  lemma TakeOne(read: Reader, st: Scan, u: byte, rest: seq<byte>)
    ensures TakeAll(read, st, [u] + rest) == TakeAll(read, Take(read, st, u), rest)
  {
    assert ([u] + rest)[1..] == rest;
  }

  lemma Regroup(buf: seq<byte>, u: byte, rest: seq<byte>)
    ensures buf + [u] + rest == buf + ([u] + rest) && |[u] + rest| == 1 + |rest|
  {
  }

  /** A varint is one token, wherever the scan already stands inside it. */
  lemma {:induction false} TakeLeb(read: Reader, st: Scan, n: nat)
    requires !st.failed
    ensures TakeAll(read, st, Leb(n)) == read(st.(off := st.off + |Leb(n)|, buf := []), Value(st.buf + Leb(n)))
    decreases n
  {
    if n > 0x7F {
      var u, rest := n % 128 + 128, Leb(n / 128);
      var next := st.(off := st.off + 1, buf := st.buf + [u]);
      TakeOne(read, st, u, rest);
      TakeLeb(read, next, n / 128);
      Regroup(st.buf, u, rest);
    } else {
      TakeOne(read, st, n, []);
      assert Leb(n) == [n] + [];
    }
  }

  /** At a token boundary. */
  ghost predicate Ready(st: Scan, pos: nat, idx: nat, out: seq<codepoint>) {
    !st.failed && st.buf == [] && st.pos == pos && st.idx == idx && st.out == out
  }

  lemma TakeToken(s: Schedule, st: Scan, t: nat)
    requires s.Valid() && Ready(st, st.pos, st.idx, st.out)
    ensures TakeAll(TokenReader(s), st, Leb(t)) == Token(s, st.(off := st.off + |Leb(t)|), t)
  {
    TakeLeb(TokenReader(s), st, t);
    ValueOfLeb(t);
    assert st.buf + Leb(t) == Leb(t);
  }

  lemma {:induction false} TakeNoise(s: Schedule, st: Scan, n: nat, r: nat)
    requires s.Valid() && Ready(st, st.pos, st.idx, st.out)
    requires forall i :: st.pos <= i < st.pos + n ==> s.noise(i)
    ensures Ready(TakeAll(TokenReader(s), st, LebAll(NoiseTokens(s, st.pos, st.pos + n, r))), st.pos + n, st.idx, st.out)
    decreases n
  {
    var tokens := NoiseTokens(s, st.pos, st.pos + n, r);
    if n > 0 {
      TakeSplit(TokenReader(s), st, Leb(tokens[0]), LebAll(tokens[1..]));
      TakeToken(s, st, tokens[0]);
      var next := TakeAll(TokenReader(s), st, Leb(tokens[0]));
      assert tokens[1..] == NoiseTokens(s, next.pos, next.pos + (n - 1), r);
      TakeNoise(s, next, n - 1, r);
    }
  }

  lemma TakeReal(s: Schedule, st: Scan, p: nat, idx: nat, out: seq<codepoint>, c: codepoint)
    requires s.Valid() && Ready(st, p, idx, out) && !s.noise(p)
    ensures Ready(TakeAll(TokenReader(s), st, Leb(s.RealToken(c, idx))), p + 1, idx + 1, out + [c])
  {
    var k, a := s.key(idx), s.addend(idx);
    TakeToken(s, st, Affine(c, k, a));
    DivideMultiple(c, k);
    assert Affine(c, k, a) - a == c * k;
  }

  lemma TakeRun(s: Schedule, st: Scan, p: nat, q: nat, idx: nat, out: seq<codepoint>)
    requires s.Valid() && Ready(st, p, idx, out) && RunEndsAt(s, p, q)
    ensures Ready(TakeAll(TokenReader(s), st, LebAll(NoiseTokens(s, p, q, idx))), q, idx, out)
  {
    TakeNoise(s, st, q - p, idx);
  }

  lemma TakeChar(s: Schedule, st: Scan, p: nat, idx: nat, out: seq<codepoint>, c: codepoint)
    requires s.Valid() && RunsEnd(s) && Ready(st, p, idx, out)
    ensures Ready(TakeAll(TokenReader(s), st, CharBytes(s, p, idx, c)), RealPos(s, p) + 1, idx + 1, out + [c])
  {
    var q := RealPos(s, p);
    var noise := LebAll(NoiseTokens(s, p, q, idx));
    TakeRun(s, st, p, q, idx, out);
    TakeReal(s, TakeAll(TokenReader(s), st, noise), q, idx, out, c);
    TakeSplit(TokenReader(s), st, noise, Leb(s.RealToken(c, idx)));
  }

  /** The scan of the emitted bytes yields the text, whenever every noise run is finite. */
  lemma {:induction false} TextRoundTrip(s: Schedule, text: seq<codepoint>)
    requires s.Valid() && RunsEnd(s)
    ensures Ready(TakeAll(TokenReader(s), START, Plain(s, text)), PosAfter(s, |text|), |text|, text)
  {
    if text != [] {
      var n := |text| - 1;
      TextRoundTrip(s, text[..n]);
      TakeSplit(TokenReader(s), START, Plain(s, text[..n]), CharBytes(s, PosAfter(s, n), n, text[n]));
      TakeChar(s, TakeAll(TokenReader(s), START, Plain(s, text[..n])), PosAfter(s, n), n, text[..n], text[n]);
      assert text == text[..n] + [text[n]];
    }
  }
}
