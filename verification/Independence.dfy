/**
 Which HMAC answer decides what. A context is changed at one query; the laws say what follows
 and what stays: every position, slot, keystream block and chunk has an answer of its own.
 */
module Independence {
  import opened Arithmetic
  import opened Bytes
  import opened Derivation
  import opened Keyed
  import opened Tokens
  import opened StreamSession
  import Block

  function Answer(c: Ctx, q: Query, d: Digest, m: seq<byte>): Digest {
    if m == Message(q) then d else c.mac(m)
  }

  /** The context whose HMAC answers `d` to the query `q`, and everything else as before. */
  function Changed(c: Ctx, q: Query, d: Digest): Ctx {
    Ctx(m => Answer(c, q, d, m), c.primes)
  }

  lemma AskChanged(c: Ctx, q: Query, d: Digest, p: Query)
    requires WellFormed(p) && WellFormed(q)
    ensures Changed(c, q, d).Ask(p) == if p == q then d else c.Ask(p)
  {
    if Message(p) == Message(q) {
      DomainSeparation(p, q);
    }
  }

  lemma OtherDomain(c: Ctx, q: Query, d: Digest, p: Query)
    requires Domain(p) != Domain(q)
    ensures Changed(c, q, d).Ask(p) == c.Ask(p)
  {
    assert Message(p)[0] == Domain(p) && Message(q)[0] == Domain(q);
  }

  // ----- The schedule of one nonce -----

  lemma NoiseIndependent(c: Ctx, nonce: seq<byte>, theta: nat, p: nat, d: Digest, q: nat)
    requires |nonce| == 16 && p < 0x100_0000_0000 && q < 0x100_0000_0000
    ensures NoiseAt(Changed(c, NoisePosition(nonce, p), d), nonce, theta, q) <==>
              if p == q then Low64(d) < theta else NoiseAt(c, nonce, theta, q)
  {
    FieldSizes();
    AskChanged(c, NoisePosition(nonce, p), d, NoisePosition(nonce, q));
  }

  lemma AddendsIndependent(c: Ctx, nonce: seq<byte>, r: nat, d: Digest, t: nat)
    requires |c.primes| > 0 && |nonce| == 16 && r < 0x100_0000_0000 && t < 0x100_0000_0000
    ensures AddendAt(Changed(c, Addend(nonce, r), d), nonce, t) ==
            if r == t then AddendFrom(d, KeyElement(c, t)) else AddendAt(c, nonce, t)
  {
    FieldSizes();
    AskChanged(c, Addend(nonce, r), d, Addend(nonce, t));
  }

  lemma DecoysIndependent(c: Ctx, nonce: seq<byte>, p: nat, d: Digest, q: nat, k: nat)
    requires |nonce| == 16 && p < 0x100_0000_0000 && q < 0x100_0000_0000
    ensures NoiseCharAt(Changed(c, NoiseChar(nonce, p), d), nonce, q) ==
            if p == q then Low32(d) % 96 + 32 else NoiseCharAt(c, nonce, q)
    ensures NoiseAddendAt(Changed(c, NoiseAddend(nonce, p), d), nonce, q, k) ==
            if p == q then AddendFrom(d, k) else NoiseAddendAt(c, nonce, q, k)
  {
    FieldSizes();
    AskChanged(c, NoiseChar(nonce, p), d, NoiseChar(nonce, q));
    AskChanged(c, NoiseAddend(nonce, p), d, NoiseAddend(nonce, q));
  }

  lemma FillersIndependent(c: Ctx, nonce: seq<byte>, i: nat, d: Digest, j: nat)
    requires |nonce| == 16 && i < 0x1_0000_0000 && j < 0x1_0000_0000
    ensures FillerAt(Changed(c, Filler(nonce, i), d), nonce, j) == if i == j then Low32(d) % 95 + 32 else FillerAt(c, nonce, j)
  {
    FieldSizes();
    AskChanged(c, Filler(nonce, i), d, Filler(nonce, j));
  }

  /** Every message has a block nonce of its own under every associated data. */
  lemma NoncesIndependent(c: Ctx, aad: seq<byte>, msg: seq<scalar>, d: Digest, aad': seq<byte>, msg': seq<scalar>)
    requires FitsAad(aad) && FitsAad(aad')
    ensures Block.BlockNonce(Changed(c, SyntheticNonce(aad, Block.Utf8(msg)), d), aad', msg') ==
            if aad == aad' && msg == msg' then d[..16] else Block.BlockNonce(c, aad', msg')
  {
    AskChanged(c, SyntheticNonce(aad, Block.Utf8(msg)), d, SyntheticNonce(aad', Block.Utf8(msg')));
    if Block.Utf8(msg) == Block.Utf8(msg') {
      Block.Utf8Injective(msg, msg');
    }
  }

  /** The slots take the elements of the key in turn, each as often as the others. */
  lemma KeyInTurn(c: Ctx, r: nat, n: nat)
    requires r < |c.primes|
    ensures n * |c.primes| + r >= 0 && KeyElement(c, n * |c.primes| + r) == c.primes[r]
  {
    var m := |c.primes|;
    assert n * m >= 0;
    Quotient(n * m + r, m, n, r);
  }

  // ----- The keystream -----

  /** One block answers for exactly its 32 bytes. */
  lemma BlocksIndependent(c: Ctx, nonce: seq<byte>, b: nat, d: Digest, length: nat, i: nat)
    requires |nonce| == 16 && b < 0x1_0000_0000 && i < length <= 0x20_0000_0000
    ensures Keystream(Changed(c, KeyBlock(nonce, b), d), nonce, length)[i] ==
            if i / 32 == b then d[i % 32] else Keystream(c, nonce, length)[i]
  {
    FieldSizes();
    AskChanged(c, KeyBlock(nonce, b), d, KeyBlock(nonce, i / 32));
  }

  /** A longer keystream continues a shorter one. */
  lemma KeystreamContinues(c: Ctx, nonce: seq<byte>, m: nat, n: nat)
    requires m <= n
    ensures Keystream(c, nonce, m) <= Keystream(c, nonce, n)
  {
  }

  // ----- Schedules that agree emit the same tokens -----

  ghost predicate Alike(s: Schedule, t: Schedule) {
    && (forall p: nat :: s.noise(p) == t.noise(p) && s.noiseChar(p) == t.noiseChar(p))
    && (forall r: nat :: s.key(r) == t.key(r) && s.addend(r) == t.addend(r))
    && (forall p: nat, k: nat :: s.noiseAddend(p, k) == t.noiseAddend(p, k))
  }

  lemma {:induction false} SameRunEnd(s: Schedule, t: Schedule, pos: nat, run: nat)
    requires Alike(s, t) && run <= 19
    ensures RunEnd(s, pos, run) == RunEnd(t, pos, run)
    decreases 19 - run
  {
    if run < 19 && s.noise(pos) {
      SameRunEnd(s, t, pos + 1, run + 1);
    }
  }

  lemma {:induction false} SameSlots(s: Schedule, t: Schedule, r: nat)
    requires Alike(s, t)
    ensures SlotStart(s, r) == SlotStart(t, r) && SlotPos(s, r) == SlotPos(t, r)
  {
    if r > 0 {
      SameSlots(s, t, r - 1);
    }
    SameRunEnd(s, t, SlotStart(s, r), 0);
  }

  lemma SameNoise(s: Schedule, t: Schedule, from: nat, to: nat, r: nat)
    requires Alike(s, t) && from <= to
    ensures NoiseTokens(s, from, to, r) == NoiseTokens(t, from, to, r)
  {
    forall i | 0 <= i < to - from
      ensures NoiseTokens(s, from, to, r)[i] == NoiseTokens(t, from, to, r)[i]
    {
      SameDecoy(s, t, from + i, r);
    }
  }

  lemma SameDecoy(s: Schedule, t: Schedule, p: nat, r: nat)
    requires Alike(s, t)
    ensures s.NoiseToken(p, r) == t.NoiseToken(p, r)
  {
    assert s.key(r) == t.key(r) && s.noiseChar(p) == t.noiseChar(p);
    assert s.noiseAddend(p, s.key(r)) == t.noiseAddend(p, s.key(r));
  }

  lemma {:induction false} SameTokens(s: Schedule, t: Schedule, cs: seq<nat>, r: nat)
    requires Alike(s, t) && r <= |cs|
    ensures Slots(s, cs, r) == Slots(t, cs, r)
  {
    if r > 0 {
      var q: nat := r - 1;
      SameTokens(s, t, cs, q);
      SameSlot(s, t, cs, q);
      assert r == q + 1;
    } else {
      assert Slots(s, cs, 0) == [];
    }
  }

  lemma SameSlot(s: Schedule, t: Schedule, cs: seq<nat>, q: nat)
    requires Alike(s, t) && q < |cs| && Slots(s, cs, q) == Slots(t, cs, q)
    ensures Slots(s, cs, q + 1) == Slots(t, cs, q + 1)
  {
    SameSlots(s, t, q);
    SameNoise(s, t, SlotStart(s, q), SlotPos(s, q), q);
    assert s.RealToken(cs[q], q) == t.RealToken(cs[q], q);
  }

  lemma SameEmitted(s: Schedule, t: Schedule, cs: seq<nat>)
    requires Alike(s, t)
    ensures Emitted(s, cs) == Emitted(t, cs)
  {
    SameTokens(s, t, cs, |cs|);
    SameSlots(s, t, |cs|);
    LockStepBound(s, |cs|);
    SameNoise(s, t, SlotStart(s, |cs|), 20 * |cs|, |cs|);
  }

  // ----- The chunks of one stream -----

  /** Everything but the sub-nonces is answered alike. */
  ghost predicate AlikeUnder(c: Ctx, e: Ctx) {
    c.primes == e.primes && forall p: Query :: !p.SubNonce? ==> c.Ask(p) == e.Ask(p)
  }

  lemma SubNonceChanges(c: Ctx, nonce: seq<byte>, i: nat, d: Digest)
    ensures AlikeUnder(c, Changed(c, SubNonce(nonce, i), d))
  {
    forall p: Query | !p.SubNonce?
      ensures c.Ask(p) == Changed(c, SubNonce(nonce, i), d).Ask(p)
    {
      OtherDomain(c, SubNonce(nonce, i), d, p);
    }
  }

  lemma SameSealed(c: Ctx, e: Ctx, nonce: seq<byte>, cs: seq<scalar>)
    requires |c.primes| > 0 && AlikeUnder(c, e)
    ensures Sealed(c, nonce, cs) == Sealed(e, nonce, cs)
  {
    SameSchedule(c, e, nonce);
    SameEmitted(ScheduleOf(c, nonce), ScheduleOf(e, nonce), cs);
    assert Keystream(c, nonce, 160 * |cs|) == Keystream(e, nonce, 160 * |cs|);
  }

  lemma SameSchedule(c: Ctx, e: Ctx, nonce: seq<byte>)
    requires |c.primes| > 0 && AlikeUnder(c, e)
    ensures Alike(ScheduleOf(c, nonce), ScheduleOf(e, nonce))
  {
  }

  /** Every chunk has a sub-nonce of its own: changing one leaves the other chunks and their filler as they were. */
  lemma ChunksIndependent(c: Ctx, f: nat, nonce: seq<byte>, aad: seq<byte>, i: nat, d: Digest, j: nat, chunk: seq<scalar>, k: nat)
    requires Usable(c) && |nonce| == 16 && i != j && i < 0x1_0000_0000 && j < 0x1_0000_0000
    ensures var e := Changed(c, SubNonce(nonce, i), d);
            && SessionOf(e, f, nonce, aad).seal(j, chunk) == SessionOf(c, f, nonce, aad).seal(j, chunk)
            && SessionOf(e, f, nonce, aad).filler(j, k) == SessionOf(c, f, nonce, aad).filler(j, k)
  {
    var e := Changed(c, SubNonce(nonce, i), d);
    FieldSizes();
    AskChanged(c, SubNonce(nonce, i), d, SubNonce(nonce, j));
    SubNonceChanges(c, nonce, i, d);
    SameSealed(c, e, SubNonceOf(c, nonce, j), chunk);
  }

  lemma {:induction false} TopByteZero(n: nat, w: nat)
    requires n < Pow256(w)
    ensures BE(n, w + 1)[0] == 0
  {
    if w > 0 {
      TopByteZero(n / 256, w - 1);
    }
  }

  /** Tokens are below 2^44, so the first serialised byte is zero and the first masked one is the keystream's. */
  lemma FirstByte(c: Ctx, nonce: seq<byte>, cs: seq<scalar>)
    requires Usable(c) && cs != []
    ensures Sealed(c, nonce, cs)[0] == Xor(0, c.Ask(KeyBlock(nonce, 0))[0])
  {
    var s := ScheduleOf(c, nonce);
    ScheduleValid(c, nonce);
    EmittedBelow(s, cs);
    FieldAt(Emitted(s, cs), 0);
    assert Pow256(2) == 0x1_0000 && Pow256(4) == 0x1_0000_0000 && Pow256(7) == 0x100_0000_0000_0000;
    TopByteZero(Emitted(s, cs)[0], 7);
    assert Encoded(Emitted(s, cs))[0..8][0] == Encoded(Emitted(s, cs))[0];
  }

  /** Under some HMAC two chunks of one stream with the same text are sealed differently. */
  lemma ChunksDiffer(primes: seq<nat>, f: nat, nonce: seq<byte>, aad: seq<byte>, i: nat, j: nat, chunk: seq<scalar>)
    returns (c: Ctx)
    requires Usable(Ctx(m => seq(32, _ => 0), primes)) && |nonce| == 16 && chunk != []
    requires i != j && i < 0x1_0000_0000 && j < 0x1_0000_0000
    ensures Usable(c) && c.primes == primes
    ensures SessionOf(c, f, nonce, aad).seal(i, chunk) != SessionOf(c, f, nonce, aad).seal(j, chunk)
  {
    var zero: Digest := seq(32, _ => 0);
    var one: Digest := seq(32, _ => 1);
    var marked := Changed(Ctx(m => zero, primes), SubNonce(nonce, i), one);
    c := Changed(marked, KeyBlock(zero[..16], 0), one);
    MarkedSubNonce(Ctx(m => zero, primes), nonce, i, one, zero[..16], i);
    MarkedSubNonce(Ctx(m => zero, primes), nonce, i, one, zero[..16], j);
    MarkedBlock(Ctx(m => zero, primes), nonce, i, one, zero[..16], one[..16]);
    FirstByte(c, one[..16], chunk);
    FirstByte(c, zero[..16], chunk);
    XorOfZero();
  }

  lemma MarkedSubNonce(base: Ctx, nonce: seq<byte>, i: nat, d: Digest, n: seq<byte>, k: nat)
    requires |nonce| == 16 && i < 0x1_0000_0000 && k < 0x1_0000_0000
    ensures var c := Changed(Changed(base, SubNonce(nonce, i), d), KeyBlock(n, 0), d);
            SubNonceOf(c, nonce, k) == if k == i then d[..16] else SubNonceOf(base, nonce, k)
  {
    FieldSizes();
    OtherDomain(Changed(base, SubNonce(nonce, i), d), KeyBlock(n, 0), d, SubNonce(nonce, k));
    AskChanged(base, SubNonce(nonce, i), d, SubNonce(nonce, k));
  }

  lemma MarkedBlock(base: Ctx, nonce: seq<byte>, i: nat, d: Digest, n: seq<byte>, o: seq<byte>)
    requires |n| == |o| == 16 && n[0] != o[0]
    ensures var c := Changed(Changed(base, SubNonce(nonce, i), d), KeyBlock(n, 0), d);
            c.Ask(KeyBlock(n, 0)) == d && c.Ask(KeyBlock(o, 0)) == base.Ask(KeyBlock(o, 0))
  {
    FieldSizes();
    OtherDomain(base, SubNonce(nonce, i), d, KeyBlock(o, 0));
    AskChanged(Changed(base, SubNonce(nonce, i), d), KeyBlock(n, 0), d, KeyBlock(o, 0));
  }

  lemma XorOfZero()
    ensures Xor(0, 1) != Xor(0, 0)
  {
    XorInvolution(0, 1);
    XorInvolution(0, 0);
  }

  // ----- Formats and counts -----

  /** Every format has a subkey of its own: under some HMAC two formats never get the same answer. */
  lemma FormatsApart(sk: seq<byte>, primes: seq<nat>, f: byte, g: byte) returns (hmac: Oracle)
    requires f != g
    ensures forall q: Query :: FormatCtx(hmac, sk, primes, f).Ask(q) != FormatCtx(hmac, sk, primes, g).Ask(q)
  {
    hmac := (key, m) => Telling(f, key, m);
    forall q: Query
      ensures FormatCtx(hmac, sk, primes, f).Ask(q) != FormatCtx(hmac, sk, primes, g).Ask(q)
    {
      assert Message(q)[0] == Domain(q) != 0x0B;
      assert Telling(f, hmac(sk, [0x0B, f]), Message(q))[0] != Telling(f, hmac(sk, [0x0B, g]), Message(q))[0];
    }
  }

  /** An HMAC that tells format `f` from all others, and answers by the subkey. */
  function Telling(f: byte, key: seq<byte>, m: seq<byte>): Digest {
    if |m| == 2 && m[0] == 0x0B then (if m[1] == f then seq(32, _ => 1) else seq(32, _ => 0))
    else if |key| == 32 && key[0] == 1 then seq(32, _ => 1)
    else seq(32, _ => 0)
  }

  /** The count field is masked by the HMAC answer for its chunk count and no other. */
  lemma CountsIndependent(c: Ctx, f: nat, nonce: seq<byte>, aad: seq<byte>, n: nat, d: Digest, m: nat, total: nat)
    requires Usable(c) && |nonce| == 16 && f < 0x1_0000_0000 && n < 0x1_0000_0000 && m < 0x1_0000_0000
    ensures SessionOf(Changed(c, CountMask(f, nonce, n), d), f, nonce, aad).CountField(m, total) ==
            if m == n then XorBytes(BE(total, 8), d[..8]) else SessionOf(c, f, nonce, aad).CountField(m, total)
  {
    FieldSizes();
    AskChanged(c, CountMask(f, nonce, n), d, CountMask(f, nonce, m));
  }
}
