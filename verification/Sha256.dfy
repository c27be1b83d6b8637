/** The C SHA-256 context and HMAC, against FIPS 180-4 and RFC 2104. */
module Sha256 {
  import opened Bytes

  datatype Hash = Hash(a: bv32, b: bv32, c: bv32, d: bv32, e: bv32, f: bv32, g: bv32, h: bv32)

  // ----- FIPS 180-4, section 6.2.2 -----

  type Block = b: seq<byte> | |b| == 64 witness seq(64, _ => 0)

  /** The constants and word functions of the rounds; the loops below are correct for any choice of them. */
  datatype Words = Words(
    constant: int -> bv32,
    load: (byte, byte, byte, byte) -> bv32,
    add: (bv32, bv32) -> bv32,
    ssig0: bv32 -> bv32,
    ssig1: bv32 -> bv32,
    bsig0: bv32 -> bv32,
    bsig1: bv32 -> bv32,
    ch: (bv32, bv32, bv32) -> bv32,
    maj: (bv32, bv32, bv32) -> bv32)
  {
    function Sum3(x: bv32, y: bv32, z: bv32): bv32 {
      add(add(x, y), z)
    }

    function Expanded(w2: bv32, w7: bv32, w15: bv32, w16: bv32): bv32 {
      add(Sum3(ssig1(w2), w7, ssig0(w15)), w16)
    }

    /** The message schedule. */
    function W(b: Block, t: nat): bv32
      requires t < 64
    {
      if t < 16 then load(b[4 * t], b[4 * t + 1], b[4 * t + 2], b[4 * t + 3])
      else Expanded(W(b, t - 2), W(b, t - 7), W(b, t - 15), W(b, t - 16))
    }

    /** One round on the working variables. */
    function Round(v: Hash, k: bv32, w: bv32): Hash {
      var t1 := Sum3(Sum3(v.h, bsig1(v.e), ch(v.e, v.f, v.g)), k, w);
      var t2 := add(bsig0(v.a), maj(v.a, v.b, v.c));
      Hash(add(t1, t2), v.a, v.b, v.c, add(v.d, t1), v.e, v.f, v.g)
    }

    /** The working variables after `t` rounds. */
    function Rounds(b: Block, h: Hash, t: nat): Hash
      requires t <= 64
    {
      if t == 0 then h else Round(Rounds(b, h, t - 1), constant(t - 1), W(b, t - 1))
    }

    function Plus(x: Hash, y: Hash): Hash {
      Hash(add(x.a, y.a), add(x.b, y.b), add(x.c, y.c), add(x.d, y.d),
           add(x.e, y.e), add(x.f, y.f), add(x.g, y.g), add(x.h, y.h))
    }

    function Compressed(h: Hash, b: Block): Hash {
      Plus(h, Rounds(b, h, 64))
    }
  }

  /** The initial value and the block function with the rounds that make it up. */
  datatype Core = Core(iv: Hash, compress: (Hash, Block) -> Hash, words: Words)
  {
    ghost predicate Sound() {
      forall h, b {:trigger words.Compressed(h, b)} :: compress(h, b) == words.Compressed(h, b)
    }
  }

  function CoreOf(iv: Hash, words: Words): (core: Core)
    ensures core.Sound() && core.words == words && core.iv == iv
  {
    Core(iv, (h: Hash, b: Block) => words.Compressed(h, b), words)
  }

  /** Whole blocks, in order. */
  function Chain(core: Core, h: Hash, bytes: seq<byte>): Hash
    decreases |bytes|
  {
    if |bytes| < 64 then h else Chain(core, core.compress(h, bytes[..64]), bytes[64..])
  }

  // ----- FIPS 180-4, section 5.1.1 -----

  /** Zero bytes between the marker and the length. */
  function ZeroCount(n: nat): nat {
    ZerosAfter(n % 64)
  }

  function ZerosAfter(n: nat): nat
    requires n < 64
  {
    if n < 56 then 55 - n else 119 - n
  }

  lemma ZeroCountAt(whole: nat, n: nat)
    requires whole % 64 == 0 && n < 64
    ensures ZeroCount(whole + n) == ZerosAfter(n)
  {
  }

  function Zeros(n: nat): (z: seq<byte>)
    ensures |z| == n
  {
    seq(n, _ => 0)
  }

  lemma AppendZeros(s: seq<byte>, m: nat, n: nat, t: seq<byte>)
    requires t == s + Zeros(m) + Zeros(n)
    ensures t == s + Zeros(m + n)
  {
    assert Zeros(m) + Zeros(n) == Zeros(m + n);
    assert s + Zeros(m) + Zeros(n) == s + (Zeros(m) + Zeros(n));
  }

  /** The length field holds the bit count modulo 2^64. */
  function Padded(msg: seq<byte>): seq<byte> {
    msg + [0x80] + Zeros(ZeroCount(|msg|)) + BE(8 * |msg|, 8)
  }

  function Octet(x: bv32): bv8 {
    (x & 0xFF) as bv8
  }

  /** The narrowing cast of a word to a byte. */
  function LowByte(x: bv32): byte {
    Octet(x) as int
  }

  function WordBytes(x: bv32): (s: seq<byte>)
    ensures |s| == 4
  {
    [LowByte(x >> 24), LowByte(x >> 16), LowByte(x >> 8), LowByte(x)]
  }

  function FourWords(a: bv32, b: bv32, c: bv32, d: bv32): (s: seq<byte>)
    ensures |s| == 16
  {
    FourFours(WordBytes(a), WordBytes(b), WordBytes(c), WordBytes(d));
    WordBytes(a) + WordBytes(b) + WordBytes(c) + WordBytes(d)
  }

  lemma FourFours(a: seq<byte>, b: seq<byte>, c: seq<byte>, d: seq<byte>)
    requires |a| == |b| == |c| == |d| == 4
    ensures |a + b + c + d| == 16
  {
  }

  function HashBytes(h: Hash): Digest {
    FourWords(h.a, h.b, h.c, h.d) + FourWords(h.e, h.f, h.g, h.h)
  }

  /** The hash function of a core. */
  function Sha(core: Core, msg: seq<byte>): Digest {
    HashBytes(Chain(core, core.iv, Padded(msg)))
  }

  lemma ShaOfBlocks(core: Core, msg: seq<byte>, blocks: seq<byte>, h: Hash)
    requires blocks == Padded(msg) && h == Chain(core, core.iv, blocks)
    ensures HashBytes(h) == Sha(core, msg)
  {
  }

  lemma SameRemainder(n: nat, m: nat)
    ensures (n + m) % 64 == (n % 64 + m) % 64
  {
  }

  lemma NoShorterRun(r: nat, k: nat)
    requires r < 64
    ensures (r + 1 + ZerosAfter(r) + 8) % 64 == 0
    ensures (r + 1 + k + 8) % 64 == 0 ==> k >= ZerosAfter(r)
  {
  }

  /** The zero run is the shortest that ends the padded message on a block boundary. */
  lemma PaddingIsShortest(msg: seq<byte>, k: nat)
    ensures |Padded(msg)| % 64 == 0
    ensures (|msg| + 1 + k + 8) % 64 == 0 ==> k >= ZeroCount(|msg|)
  {
    var r := |msg| % 64;
    NoShorterRun(r, k);
    SameRemainder(|msg|, 1 + ZerosAfter(r) + 8);
    SameRemainder(|msg|, 1 + k + 8);
  }

  /** Below 2^61 bytes, two messages never pad to the same blocks. */
  lemma PaddingInjective(a: seq<byte>, b: seq<byte>)
    requires |a| < 0x2000_0000_0000_0000 && |b| < 0x2000_0000_0000_0000
    requires Padded(a) == Padded(b)
    ensures a == b
  {
    var n := |Padded(a)|;
    assert Padded(a)[n - 8..] == BE(8 * |a|, 8);
    assert Padded(b)[n - 8..] == BE(8 * |b|, 8);
    FieldSizes();
    BEInjective(8 * |a|, 8 * |b|, 8);
    assert Padded(a)[..|a|] == a && Padded(b)[..|b|] == b;
  }

  lemma {:induction false} ChainAppend(core: Core, h: Hash, a: seq<byte>, b: seq<byte>)
    requires |a| % 64 == 0
    ensures Chain(core, h, a + b) == Chain(core, Chain(core, h, a), b)
    decreases |a|
  {
    if |a| == 0 {
      assert a + b == b;
    } else {
      assert (a + b)[..64] == a[..64] && (a + b)[64..] == a[64..] + b;
      ChainAppend(core, core.compress(h, a[..64]), a[64..], b);
    }
  }

  /** One more block at the end. */
  lemma ChainBlock(core: Core, h: Hash, a: seq<byte>, b: Block)
    requires |a| % 64 == 0
    ensures Chain(core, h, a + b) == core.compress(Chain(core, h, a), b)
  {
    ChainAppend(core, h, a, b);
    assert b[..64] == b && b[64..] == [];
  }

  // ----- The compression loops -----

  lemma LoadedWord(words: Words, blk: Block, t: nat)
    requires t < 16
    ensures words.W(blk, t) == words.load(blk[t * 4], blk[t * 4 + 1], blk[t * 4 + 2], blk[t * 4 + 3])
  {
  }

  lemma ScheduledWord(words: Words, blk: Block, t: nat)
    requires 16 <= t < 64
    ensures words.W(blk, t) ==
            words.Expanded(words.W(blk, t - 2), words.W(blk, t - 7), words.W(blk, t - 15), words.W(blk, t - 16))
  {
  }

  method MakeSchedule(words: Words, blk: Block) returns (w: array<bv32>)
    ensures fresh(w) && w.Length == 64
    ensures forall t :: 0 <= t < 64 ==> w[t] == words.W(blk, t)
  {
    w := new bv32[64](_ => 0);
    for i := 0 to 16
      invariant forall t {:trigger w[t]} :: 0 <= t < i ==> w[t] == words.W(blk, t)
    {
      LoadedWord(words, blk, i);
      w[i] := words.load(blk[i * 4], blk[i * 4 + 1], blk[i * 4 + 2], blk[i * 4 + 3]);
    }
    for i := 16 to 64
      invariant forall t {:trigger w[t]} :: 0 <= t < i ==> w[t] == words.W(blk, t)
    {
      ScheduledWord(words, blk, i);
      w[i] := words.add(words.Sum3(words.ssig1(w[i - 2]), w[i - 7], words.ssig0(w[i - 15])), w[i - 16]);
    }
  }

  method CompressBlock(words: Words, state: Hash, blk: Block) returns (out: Hash)
    ensures out == words.Compressed(state, blk)
  {
    var w := MakeSchedule(words, blk);
    var a, b, c, d := state.a, state.b, state.c, state.d;
    var e, f, g, h := state.e, state.f, state.g, state.h;
    for i := 0 to 64
      invariant Hash(a, b, c, d, e, f, g, h) == words.Rounds(blk, state, i)
    {
      var t1 := words.Sum3(words.Sum3(h, words.bsig1(e), words.ch(e, f, g)), words.constant(i), w[i]);
      var t2 := words.add(words.bsig0(a), words.maj(a, b, c));
      h := g;
      g := f;
      f := e;
      e := words.add(d, t1);
      d := c;
      c := b;
      b := a;
      a := words.add(t1, t2);
    }
    out := words.Plus(state, Hash(a, b, c, d, e, f, g, h));
  }

  /** A field keeps only the low bytes of its value. */
  lemma {:induction false} LowBytes(n: nat, k: nat, w: nat)
    ensures BE(n + k * Pow256(w), w) == BE(n, w)
  {
    if w > 0 {
      var m := k * Pow256(w - 1);
      Times256(k, Pow256(w - 1));
      CarryOver(n, m);
      LowBytes(n / 256, k, w - 1);
    }
  }

  lemma Times256(k: nat, p: nat)
    ensures k * (256 * p) == 256 * (k * p)
  {
  }

  lemma CarryOver(n: nat, m: nat)
    ensures (n + 256 * m) / 256 == n / 256 + m && (n + 256 * m) % 256 == n % 256
  {
  }

  /** A right shift by `i` bytes. */
  function Shr(n: nat, i: nat): nat {
    if i == 0 then n else Shr(n, i - 1) / 256
  }

  /** The first bytes of a `w`-byte field, all but the last `i`. */
  function TopBytes(n: nat, i: nat, w: nat): seq<byte>
    requires i <= w
  {
    BE(Shr(n, i), w - i)
  }

  lemma TopBytesStep(n: nat, i: nat, w: nat)
    requires i < w
    ensures TopBytes(n, i, w) == TopBytes(n, i + 1, w) + [Shr(n, i) % 256]
  {
  }

  // ----- The incremental context -----

  /** The 64-bit counter after `n` bytes. */
  function BitCount(n: nat): nat {
    8 * n % 0x1_0000_0000_0000_0000
  }

  lemma BitCountAdd(m: nat, n: nat)
    ensures (BitCount(m) + n * 8) % 0x1_0000_0000_0000_0000 == BitCount(m + n)
  {
  }

  lemma LengthField(n: nat)
    ensures BE(BitCount(n), 8) == BE(8 * n, 8)
  {
    FieldSizes();
    LowBytes(BitCount(n), 8 * n / 0x1_0000_0000_0000_0000, 8);
  }

  lemma TakeBlock(s: seq<byte>, t: seq<byte>)
    requires |t| >= 64
    ensures s + t[..64] + t[64..] == s + t
  {
  }

  class Sha256Ctx {
    const core: Core
    var state: Hash
    var bitlen: nat
    const buffer: array<byte>
    var buflen: nat
    /** The whole blocks compressed so far. */
    ghost var done: seq<byte>

    /** Everything fed in. */
    ghost function Fed(): seq<byte>
      requires buflen <= buffer.Length
      reads this, buffer
    {
      done + buffer[..buflen]
    }

    /** The state is the chain over the compressed blocks; the block buffer may be full. */
    ghost predicate Consistent()
      reads this, buffer
    {
      core.Sound() && buffer.Length == 64 && buflen <= 64 && |done| % 64 == 0 && state == Chain(core, core.iv, done)
    }

    ghost predicate Valid()
      reads this, buffer
    {
      Consistent() && buflen < 64 && bitlen == BitCount(|Fed()|)
    }

    constructor (core: Core)
      requires core.Sound()
      ensures Valid() && Fed() == [] && fresh(buffer) && this.core == core
    {
      this.core := core;
      state, bitlen, buflen, done := core.iv, 0, 0, [];
      buffer := new byte[64](_ => 0);
    }

    method Absorb(blk: Block)
      requires core.Sound() && |done| % 64 == 0 && state == Chain(core, core.iv, done)
      modifies this`state, this`done
      ensures done == old(done) + blk && |done| % 64 == 0 && state == Chain(core, core.iv, done)
    {
      state := CompressBlock(core.words, state, blk);
      ChainBlock(core, core.iv, done, blk);
      done := done + blk;
    }

    /** Compress the full buffer and empty it. */
    method Flush()
      requires Consistent() && buflen == 64
      modifies this`state, this`done, this`buflen
      ensures Consistent() && buflen == 0 && Fed() == old(Fed())
    {
      Absorb(buffer[..]);
      buflen := 0;
    }

    method Copy(data: seq<byte>)
      requires Consistent() && buflen + |data| <= 64
      modifies this`buflen, buffer
      ensures Consistent() && buflen == old(buflen) + |data| && Fed() == old(Fed()) + data
    {
      forall i | 0 <= i < |data| {
        buffer[buflen + i] := data[i];
      }
      buflen := buflen + |data|;
      assert buffer[..buflen] == old(buffer[..buflen]) + data;
    }

    /** Complete the buffered block with the first bytes of `data`. */
    method TopUp(data: seq<byte>) returns (rest: seq<byte>)
      requires Consistent() && 0 < buflen < 64 && |data| >= 64 - buflen
      modifies this`state, this`done, this`buflen, buffer
      ensures Consistent() && buflen == 0 && Fed() + rest == old(Fed()) + data
    {
      var need := 64 - buflen;
      ghost var start := Fed();
      Copy(data[..need]);
      Flush();
      rest := data[need..];
      assert data == data[..need] + data[need..];
      assert start + data == start + data[..need] + data[need..];
    }

    /** Compress the whole blocks of `data`. */
    method AbsorbBlocks(data: seq<byte>) returns (rest: seq<byte>)
      requires Consistent() && buflen == 0
      modifies this`state, this`done
      ensures Consistent() && |rest| < 64 && Fed() + rest == old(Fed()) + data
    {
      rest := data;
      ghost var all := done + data;
      while |rest| >= 64
        invariant Consistent() && done + rest == all
        decreases |rest|
      {
        TakeBlock(done, rest);
        Absorb(rest[..64]);
        rest := rest[64..];
      }
      assert Fed() == done;
    }

    /** Buffer or compress `data`, however much of a block is already buffered. */
    method Take(data: seq<byte>)
      requires Consistent() && buflen < 64
      modifies this`state, this`done, this`buflen, buffer
      ensures Consistent() && buflen < 64 && Fed() == old(Fed()) + data
    {
      var rest := data;
      if buflen > 0 {
        if |data| < 64 - buflen {
          Copy(data);
          return;
        }
        rest := TopUp(data);
      }
      rest := AbsorbBlocks(rest);
      if rest != [] {
        Copy(rest);
      }
    }

    method Update(data: seq<byte>)
      requires Valid()
      modifies this, buffer
      ensures Valid() && Fed() == old(Fed()) + data
    {
      BitCountAdd(|Fed()|, |data|);
      bitlen := (bitlen + |data| * 8) % 0x1_0000_0000_0000_0000;
      Take(data);
    }

    /** Append zero bytes up to buffer position `to`. */
    method ZeroTo(to: nat)
      requires Consistent() && buflen <= to <= 64
      modifies this`buflen, buffer
      ensures Consistent() && buflen == to && Fed() == old(Fed()) + Zeros(to - old(buflen))
    {
      ghost var start, from := Fed(), buflen;
      while buflen < to
        invariant Consistent() && from <= buflen <= to && Fed() == start + Zeros(buflen - from)
        modifies this`buflen, buffer
      {
        Copy([0]);
      }
    }

    /** Append the bit count, most significant byte first. */
    method PutLength(bits: nat)
      requires Consistent() && buflen == 56
      modifies this`buflen, buffer
      ensures Consistent() && buflen == 64 && Fed() == old(Fed()) + BE(bits, 8)
    {
      ghost var start := Fed();
      var i := 8;
      while i > 0
        invariant 0 <= i <= 8 && Consistent() && buflen == 64 - i
        invariant Fed() == start + TopBytes(bits, i, 8)
        modifies this`buflen, buffer
      {
        i := i - 1;
        Copy([Shr(bits, i) % 256]);
        TopBytesStep(bits, i, 8);
      }
    }

    /** The marker and the zero run, over one more block when the length would not fit. */
    method PutMarker(ghost zeros: nat)
      requires Consistent() && buflen < 64 && zeros == ZerosAfter(buflen)
      modifies this`state, this`done, this`buflen, buffer
      ensures Consistent() && buflen == 56 && Fed() == old(Fed()) + [0x80] + Zeros(zeros)
    {
      ghost var from := buflen;
      Copy([0x80]);
      ghost var marked := Fed();
      if buflen > 56 {
        ZeroTo(64);
        Flush();
        ZeroTo(56);
        AppendZeros(marked, 63 - from, 56, Fed());
      } else {
        ZeroTo(56);
      }
    }

    /** The digest of everything fed in. The context is spent. */
    method Final() returns (out: Digest)
      requires Valid()
      modifies this, buffer
      ensures out == Sha(core, old(Fed()))
    {
      ghost var msg := Fed();
      var bits := bitlen;
      ZeroCountAt(|done|, buflen);
      PutMarker(ZeroCount(|msg|));
      LengthField(|msg|);
      PutLength(bits);
      assert Fed() == Padded(msg);
      Flush();
      assert done == Fed();
      out := HashBytes(state);
      ShaOfBlocks(core, msg, done, state);
    }
  }

  /** The one-shot hash of the C sources. */
  method Sha256OneShot(core: Core, data: seq<byte>) returns (out: Digest)
    requires core.Sound()
    ensures out == Sha(core, data)
  {
    var c := new Sha256Ctx(core);
    c.Update(data);
    assert c.Fed() == data;
    out := c.Final();
  }

  /** However a message is cut into updates, the digest is that of the whole. */
  method Sha256OfPieces(core: Core, pieces: seq<seq<byte>>) returns (out: Digest)
    requires core.Sound()
    ensures out == Sha(core, Concat(pieces))
  {
    var c := new Sha256Ctx(core);
    for i := 0 to |pieces|
      invariant c.Valid() && fresh(c) && fresh(c.buffer) && c.core == core
      invariant c.Fed() == Concat(pieces[..i])
    {
      c.Update(pieces[i]);
      assert pieces[..i + 1] == pieces[..i] + [pieces[i]];
      ConcatAppend(pieces[..i], [pieces[i]]);
      assert Concat([pieces[i]]) == pieces[i];
    }
    assert pieces[..|pieces|] == pieces;
    out := c.Final();
  }

  // ----- RFC 2104, section 2 -----

  /** The key brought to the block length: hashed when longer, then zero filled. */
  function KeyBlock(core: Core, key: seq<byte>): Block {
    if |key| > 64 then Sha(core, key) + Zeros(32) else key + Zeros(64 - |key|)
  }

  function Masked(b: Block, mask: byte): Block {
    seq(64, (i: nat) requires i < 64 => Xor(b[i], mask))
  }

  function Hmac(core: Core, key: seq<byte>, msg: seq<byte>): Digest {
    var k0 := KeyBlock(core, key);
    Sha(core, Masked(k0, 0x5c) + Sha(core, Masked(k0, 0x36) + msg))
  }

  /** The pads of a key give the key back. */
  lemma PadsOfKey(core: Core, key: seq<byte>, mask: byte, i: nat)
    requires |key| <= 64 && i < 64
    ensures Xor(Masked(KeyBlock(core, key), mask)[i], mask) == if i < |key| then key[i] else 0
  {
    XorInvolution(KeyBlock(core, key)[i], mask);
  }

  lemma XorWithZero()
    ensures Xor(0, 0x36) == 0x36 && Xor(0, 0x5c) == 0x5c
  {
    assert XorBits(0, 0x36 / 16, 4) == 3 && XorBits(0, 0x5c / 16, 4) == 5;
  }

  /** With an empty key the two hashes run over the plain pads, the inner one over 0x36. */
  lemma HmacOfEmptyKey(core: Core, msg: seq<byte>)
    ensures Hmac(core, [], msg) == Sha(core, seq(64, _ => 0x5c) + Sha(core, seq(64, _ => 0x36) + msg))
  {
    XorWithZero();
    assert Masked(KeyBlock(core, []), 0x5c) == seq(64, _ => 0x5c);
    assert Masked(KeyBlock(core, []), 0x36) == seq(64, _ => 0x36);
  }

  method MakePads(core: Core, key: seq<byte>) returns (ipad: Block, opad: Block)
    requires core.Sound()
    ensures ipad == Masked(KeyBlock(core, key), 0x36) && opad == Masked(KeyBlock(core, key), 0x5c)
  {
    var k0: seq<byte>;
    if |key| > 64 {
      var d := Sha256OneShot(core, key);
      k0 := d + Zeros(32);
    } else {
      k0 := key + Zeros(64 - |key|);
    }
    var inner, outer: seq<byte> := [], [];
    for i := 0 to 64
      invariant |inner| == |outer| == i && |k0| == 64
      invariant forall j :: 0 <= j < i ==> inner[j] == Xor(k0[j], 0x36) && outer[j] == Xor(k0[j], 0x5c)
    {
      inner, outer := inner + [Xor(k0[i], 0x36)], outer + [Xor(k0[i], 0x5c)];
    }
    ipad, opad := inner, outer;
  }

  method HashPair(core: Core, a: seq<byte>, b: seq<byte>) returns (out: Digest)
    requires core.Sound()
    ensures out == Sha(core, a + b)
  {
    var c := new Sha256Ctx(core);
    c.Update(a);
    assert c.Fed() == a;
    c.Update(b);
    out := c.Final();
  }

  method HmacOneShot(core: Core, key: seq<byte>, msg: seq<byte>) returns (out: Digest)
    requires core.Sound()
    ensures out == Hmac(core, key, msg)
  {
    var ipad, opad := MakePads(core, key);
    var inner := HashPair(core, ipad, msg);
    out := HashPair(core, opad, inner);
  }

  lemma ThreeParts(s: seq<byte>, a: seq<byte>, b: seq<byte>, c: seq<byte>)
    ensures s + a + b + c == s + (a + b + c)
    ensures c == [] ==> s + a + b == s + (a + b + c)
  {
  }

  method Feed(c: Sha256Ctx, sep: byte, nonce: seq<byte>, tail: seq<byte>)
    requires c.Valid()
    modifies c, c.buffer
    ensures c.Valid() && c.Fed() == old(c.Fed()) + ([sep] + nonce + tail)
  {
    ghost var start := c.Fed();
    c.Update([sep]);
    c.Update(nonce);
    if tail != [] {
      c.Update(tail);
    }
    ThreeParts(start, [sep], nonce, tail);
  }

  /** The streaming form: the separator, the nonce and the tail are never joined in memory. */
  method HmacWithSep(core: Core, key: seq<byte>, nonce: seq<byte>, sep: byte, tail: seq<byte>) returns (out: Digest)
    requires core.Sound()
    ensures out == Hmac(core, key, [sep] + nonce + tail)
  {
    var ipad, opad := MakePads(core, key);
    var c := new Sha256Ctx(core);
    c.Update(ipad);
    assert c.Fed() == ipad;
    Feed(c, sep, nonce, tail);
    var inner := c.Final();
    out := HashPair(core, opad, inner);
  }
}
