/**
 The digest of "abc" as FIPS 180-4 gives it, round by round: the constants, the word functions,
 the schedule, the round and the final addition all take part.
 */
module Sha256Vector {
  import opened Bytes
  import opened Sha256
  import opened Sha256Fips

  // ----- Sixteen words to sixty-four -----

  ghost predicate Expands(f: Words, w: int -> bv32, t: int) {
    w(t) == f.Expanded(w(t - 2), w(t - 7), w(t - 15), w(t - 16))
  }

  ghost predicate Expanding(f: Words, w: int -> bv32) {
    forall t :: 16 <= t < 64 ==> Expands(f, w, t)
  }

  ghost predicate Expansions16(f: Words) {
    && f.Expanded(0x00000000, 0x00000000, 0x00000000, 0x61626380) == 0x61626380
    && f.Expanded(0x00000018, 0x00000000, 0x00000000, 0x00000000) == 0x000f0000
    && f.Expanded(0x61626380, 0x00000000, 0x00000000, 0x00000000) == 0x7da86405
    && f.Expanded(0x000f0000, 0x00000000, 0x00000000, 0x00000000) == 0x600003c6
    && f.Expanded(0x7da86405, 0x00000000, 0x00000000, 0x00000000) == 0x3e9d7b78
    && f.Expanded(0x600003c6, 0x00000000, 0x00000000, 0x00000000) == 0x0183fc00
    && f.Expanded(0x3e9d7b78, 0x00000018, 0x00000000, 0x00000000) == 0x12dcbfdb
    && f.Expanded(0x0183fc00, 0x61626380, 0x00000000, 0x00000000) == 0xe2e2c38e
  }

  ghost predicate Expansions24(f: Words) {
    && f.Expanded(0x12dcbfdb, 0x000f0000, 0x00000000, 0x00000000) == 0xc8215c1a
    && f.Expanded(0xe2e2c38e, 0x7da86405, 0x00000000, 0x00000000) == 0xb73679a2
    && f.Expanded(0xc8215c1a, 0x600003c6, 0x00000000, 0x00000000) == 0xe5bc3909
    && f.Expanded(0xb73679a2, 0x3e9d7b78, 0x00000000, 0x00000000) == 0x32663c5b
    && f.Expanded(0xe5bc3909, 0x0183fc00, 0x00000000, 0x00000000) == 0x9d209d67
    && f.Expanded(0x32663c5b, 0x12dcbfdb, 0x00000000, 0x00000000) == 0xec8726cb
    && f.Expanded(0x9d209d67, 0xe2e2c38e, 0x00000018, 0x00000000) == 0x702138a4
    && f.Expanded(0xec8726cb, 0xc8215c1a, 0x61626380, 0x00000018) == 0xd3b7973b
  }

  ghost predicate Expansions32(f: Words) {
    && f.Expanded(0x702138a4, 0xb73679a2, 0x000f0000, 0x61626380) == 0x93f5997f
    && f.Expanded(0xd3b7973b, 0xe5bc3909, 0x7da86405, 0x000f0000) == 0x3b68ba73
    && f.Expanded(0x93f5997f, 0x32663c5b, 0x600003c6, 0x7da86405) == 0xaff4ffc1
    && f.Expanded(0x3b68ba73, 0x9d209d67, 0x3e9d7b78, 0x600003c6) == 0xf10a5c62
    && f.Expanded(0xaff4ffc1, 0xec8726cb, 0x0183fc00, 0x3e9d7b78) == 0x0a8b3996
    && f.Expanded(0xf10a5c62, 0x702138a4, 0x12dcbfdb, 0x0183fc00) == 0x72af830a
    && f.Expanded(0x0a8b3996, 0xd3b7973b, 0xe2e2c38e, 0x12dcbfdb) == 0x9409e33e
    && f.Expanded(0x72af830a, 0x93f5997f, 0xc8215c1a, 0xe2e2c38e) == 0x24641522
  }

  ghost predicate Expansions40(f: Words) {
    && f.Expanded(0x9409e33e, 0x3b68ba73, 0xb73679a2, 0xc8215c1a) == 0x9f47bf94
    && f.Expanded(0x24641522, 0xaff4ffc1, 0xe5bc3909, 0xb73679a2) == 0xf0a64f5a
    && f.Expanded(0x9f47bf94, 0xf10a5c62, 0x32663c5b, 0xe5bc3909) == 0x3e246a79
    && f.Expanded(0xf0a64f5a, 0x0a8b3996, 0x9d209d67, 0x32663c5b) == 0x27333ba3
    && f.Expanded(0x3e246a79, 0x72af830a, 0xec8726cb, 0x9d209d67) == 0x0c4763f2
    && f.Expanded(0x27333ba3, 0x9409e33e, 0x702138a4, 0xec8726cb) == 0x840abf27
    && f.Expanded(0x0c4763f2, 0x24641522, 0xd3b7973b, 0x702138a4) == 0x7a290d5d
    && f.Expanded(0x840abf27, 0x9f47bf94, 0x93f5997f, 0xd3b7973b) == 0x065c43da
  }

  ghost predicate Expansions48(f: Words) {
    && f.Expanded(0x7a290d5d, 0xf0a64f5a, 0x3b68ba73, 0x93f5997f) == 0xfb3e89cb
    && f.Expanded(0x065c43da, 0x3e246a79, 0xaff4ffc1, 0x3b68ba73) == 0xcc7617db
    && f.Expanded(0xfb3e89cb, 0x27333ba3, 0xf10a5c62, 0xaff4ffc1) == 0xb9e66c34
    && f.Expanded(0xcc7617db, 0x0c4763f2, 0x0a8b3996, 0xf10a5c62) == 0xa9993667
    && f.Expanded(0xb9e66c34, 0x840abf27, 0x72af830a, 0x0a8b3996) == 0x84badedd
    && f.Expanded(0xa9993667, 0x7a290d5d, 0x9409e33e, 0x72af830a) == 0xc21462bc
    && f.Expanded(0x84badedd, 0x065c43da, 0x24641522, 0x9409e33e) == 0x1487472c
    && f.Expanded(0xc21462bc, 0xfb3e89cb, 0x9f47bf94, 0x24641522) == 0xb20f7a99
  }

  ghost predicate Expansions56(f: Words) {
    && f.Expanded(0x1487472c, 0xcc7617db, 0xf0a64f5a, 0x9f47bf94) == 0xef57b9cd
    && f.Expanded(0xb20f7a99, 0xb9e66c34, 0x3e246a79, 0xf0a64f5a) == 0xebe6b238
    && f.Expanded(0xef57b9cd, 0xa9993667, 0x27333ba3, 0x3e246a79) == 0x9fe3095e
    && f.Expanded(0xebe6b238, 0x84badedd, 0x0c4763f2, 0x27333ba3) == 0x78bc8d4b
    && f.Expanded(0x9fe3095e, 0xc21462bc, 0x840abf27, 0x0c4763f2) == 0xa43fcf15
    && f.Expanded(0x78bc8d4b, 0x1487472c, 0x7a290d5d, 0x840abf27) == 0x668b2ff8
    && f.Expanded(0xa43fcf15, 0xb20f7a99, 0x065c43da, 0x7a290d5d) == 0xeeaba2cc
    && f.Expanded(0x668b2ff8, 0xef57b9cd, 0xfb3e89cb, 0x065c43da) == 0x12b1edeb
  }

  ghost predicate SomeExpansions(f: Words, i: nat) {
    match i
    case 2 => Expansions16(f)
    case 3 => Expansions24(f)
    case 4 => Expansions32(f)
    case 5 => Expansions40(f)
    case 6 => Expansions48(f)
    case 7 => Expansions56(f)
    case _ => true
  }

  ghost predicate AllExpansions(f: Words) {
    forall i :: 2 <= i < 8 ==> SomeExpansions(f, i)
  }

  lemma Words16(f: Words, w: int -> bv32)
    requires Expanding(f, w) && AllExpansions(f)
    requires w(0) == 0x61626380 && w(1) == 0x00000000 && w(2) == 0x00000000 && w(3) == 0x00000000
    requires w(4) == 0x00000000 && w(5) == 0x00000000 && w(6) == 0x00000000 && w(7) == 0x00000000
    requires w(8) == 0x00000000 && w(9) == 0x00000000 && w(10) == 0x00000000 && w(11) == 0x00000000
    requires w(12) == 0x00000000 && w(13) == 0x00000000 && w(14) == 0x00000000 && w(15) == 0x00000018
    ensures w(16) == 0x61626380 && w(17) == 0x000f0000 && w(18) == 0x7da86405 && w(19) == 0x600003c6
    ensures w(20) == 0x3e9d7b78 && w(21) == 0x0183fc00 && w(22) == 0x12dcbfdb && w(23) == 0xe2e2c38e
  {
    assert SomeExpansions(f, 2);
    assert Expands(f, w, 16) && Expands(f, w, 17) && Expands(f, w, 18) && Expands(f, w, 19);
    assert Expands(f, w, 20) && Expands(f, w, 21) && Expands(f, w, 22) && Expands(f, w, 23);
  }

  lemma Words24(f: Words, w: int -> bv32)
    requires Expanding(f, w) && AllExpansions(f)
    requires w(8) == 0x00000000 && w(9) == 0x00000000 && w(10) == 0x00000000 && w(11) == 0x00000000
    requires w(12) == 0x00000000 && w(13) == 0x00000000 && w(14) == 0x00000000 && w(15) == 0x00000018
    requires w(16) == 0x61626380 && w(17) == 0x000f0000 && w(18) == 0x7da86405 && w(19) == 0x600003c6
    requires w(20) == 0x3e9d7b78 && w(21) == 0x0183fc00 && w(22) == 0x12dcbfdb && w(23) == 0xe2e2c38e
    ensures w(24) == 0xc8215c1a && w(25) == 0xb73679a2 && w(26) == 0xe5bc3909 && w(27) == 0x32663c5b
    ensures w(28) == 0x9d209d67 && w(29) == 0xec8726cb && w(30) == 0x702138a4 && w(31) == 0xd3b7973b
  {
    assert SomeExpansions(f, 3);
    assert Expands(f, w, 24) && Expands(f, w, 25) && Expands(f, w, 26) && Expands(f, w, 27);
    assert Expands(f, w, 28) && Expands(f, w, 29) && Expands(f, w, 30) && Expands(f, w, 31);
  }

  lemma Words32(f: Words, w: int -> bv32)
    requires Expanding(f, w) && AllExpansions(f)
    requires w(16) == 0x61626380 && w(17) == 0x000f0000 && w(18) == 0x7da86405 && w(19) == 0x600003c6
    requires w(20) == 0x3e9d7b78 && w(21) == 0x0183fc00 && w(22) == 0x12dcbfdb && w(23) == 0xe2e2c38e
    requires w(24) == 0xc8215c1a && w(25) == 0xb73679a2 && w(26) == 0xe5bc3909 && w(27) == 0x32663c5b
    requires w(28) == 0x9d209d67 && w(29) == 0xec8726cb && w(30) == 0x702138a4 && w(31) == 0xd3b7973b
    ensures w(32) == 0x93f5997f && w(33) == 0x3b68ba73 && w(34) == 0xaff4ffc1 && w(35) == 0xf10a5c62
    ensures w(36) == 0x0a8b3996 && w(37) == 0x72af830a && w(38) == 0x9409e33e && w(39) == 0x24641522
  {
    assert SomeExpansions(f, 4);
    assert Expands(f, w, 32) && Expands(f, w, 33) && Expands(f, w, 34) && Expands(f, w, 35);
    assert Expands(f, w, 36) && Expands(f, w, 37) && Expands(f, w, 38) && Expands(f, w, 39);
  }

  lemma Words40(f: Words, w: int -> bv32)
    requires Expanding(f, w) && AllExpansions(f)
    requires w(24) == 0xc8215c1a && w(25) == 0xb73679a2 && w(26) == 0xe5bc3909 && w(27) == 0x32663c5b
    requires w(28) == 0x9d209d67 && w(29) == 0xec8726cb && w(30) == 0x702138a4 && w(31) == 0xd3b7973b
    requires w(32) == 0x93f5997f && w(33) == 0x3b68ba73 && w(34) == 0xaff4ffc1 && w(35) == 0xf10a5c62
    requires w(36) == 0x0a8b3996 && w(37) == 0x72af830a && w(38) == 0x9409e33e && w(39) == 0x24641522
    ensures w(40) == 0x9f47bf94 && w(41) == 0xf0a64f5a && w(42) == 0x3e246a79 && w(43) == 0x27333ba3
    ensures w(44) == 0x0c4763f2 && w(45) == 0x840abf27 && w(46) == 0x7a290d5d && w(47) == 0x065c43da
  {
    assert SomeExpansions(f, 5);
    assert Expands(f, w, 40) && Expands(f, w, 41) && Expands(f, w, 42) && Expands(f, w, 43);
    assert Expands(f, w, 44) && Expands(f, w, 45) && Expands(f, w, 46) && Expands(f, w, 47);
  }

  lemma Words48(f: Words, w: int -> bv32)
    requires Expanding(f, w) && AllExpansions(f)
    requires w(32) == 0x93f5997f && w(33) == 0x3b68ba73 && w(34) == 0xaff4ffc1 && w(35) == 0xf10a5c62
    requires w(36) == 0x0a8b3996 && w(37) == 0x72af830a && w(38) == 0x9409e33e && w(39) == 0x24641522
    requires w(40) == 0x9f47bf94 && w(41) == 0xf0a64f5a && w(42) == 0x3e246a79 && w(43) == 0x27333ba3
    requires w(44) == 0x0c4763f2 && w(45) == 0x840abf27 && w(46) == 0x7a290d5d && w(47) == 0x065c43da
    ensures w(48) == 0xfb3e89cb && w(49) == 0xcc7617db && w(50) == 0xb9e66c34 && w(51) == 0xa9993667
    ensures w(52) == 0x84badedd && w(53) == 0xc21462bc && w(54) == 0x1487472c && w(55) == 0xb20f7a99
  {
    assert SomeExpansions(f, 6);
    assert Expands(f, w, 48) && Expands(f, w, 49) && Expands(f, w, 50) && Expands(f, w, 51);
    assert Expands(f, w, 52) && Expands(f, w, 53) && Expands(f, w, 54) && Expands(f, w, 55);
  }

  lemma Words56(f: Words, w: int -> bv32)
    requires Expanding(f, w) && AllExpansions(f)
    requires w(40) == 0x9f47bf94 && w(41) == 0xf0a64f5a && w(42) == 0x3e246a79 && w(43) == 0x27333ba3
    requires w(44) == 0x0c4763f2 && w(45) == 0x840abf27 && w(46) == 0x7a290d5d && w(47) == 0x065c43da
    requires w(48) == 0xfb3e89cb && w(49) == 0xcc7617db && w(50) == 0xb9e66c34 && w(51) == 0xa9993667
    requires w(52) == 0x84badedd && w(53) == 0xc21462bc && w(54) == 0x1487472c && w(55) == 0xb20f7a99
    ensures w(56) == 0xef57b9cd && w(57) == 0xebe6b238 && w(58) == 0x9fe3095e && w(59) == 0x78bc8d4b
    ensures w(60) == 0xa43fcf15 && w(61) == 0x668b2ff8 && w(62) == 0xeeaba2cc && w(63) == 0x12b1edeb
  {
    assert SomeExpansions(f, 7);
    assert Expands(f, w, 56) && Expands(f, w, 57) && Expands(f, w, 58) && Expands(f, w, 59);
    assert Expands(f, w, 60) && Expands(f, w, 61) && Expands(f, w, 62) && Expands(f, w, 63);
  }

  // ----- The rounds -----

  ghost predicate Turns(f: Words, k: int -> bv32, w: int -> bv32, v: int -> Hash, t: int) {
    v(t + 1) == f.Round(v(t), k(t), w(t))
  }

  ghost predicate Turning(f: Words, k: int -> bv32, w: int -> bv32, v: int -> Hash) {
    forall t :: 0 <= t < 64 ==> Turns(f, k, w, v, t)
  }

  /** Rounds 0 to 7, on the words themselves. */
  ghost predicate Rounds0(f: Words) {
    && f.Round(Hash(0x6a09e667, 0xbb67ae85, 0x3c6ef372, 0xa54ff53a, 0x510e527f, 0x9b05688c, 0x1f83d9ab, 0x5be0cd19),
               0x428a2f98, 0x61626380) ==
       Hash(0x5d6aebcd, 0x6a09e667, 0xbb67ae85, 0x3c6ef372, 0xfa2a4622, 0x510e527f, 0x9b05688c, 0x1f83d9ab)
    && f.Round(Hash(0x5d6aebcd, 0x6a09e667, 0xbb67ae85, 0x3c6ef372, 0xfa2a4622, 0x510e527f, 0x9b05688c, 0x1f83d9ab),
               0x71374491, 0x00000000) ==
       Hash(0x5a6ad9ad, 0x5d6aebcd, 0x6a09e667, 0xbb67ae85, 0x78ce7989, 0xfa2a4622, 0x510e527f, 0x9b05688c)
    && f.Round(Hash(0x5a6ad9ad, 0x5d6aebcd, 0x6a09e667, 0xbb67ae85, 0x78ce7989, 0xfa2a4622, 0x510e527f, 0x9b05688c),
               0xb5c0fbcf, 0x00000000) ==
       Hash(0xc8c347a7, 0x5a6ad9ad, 0x5d6aebcd, 0x6a09e667, 0xf92939eb, 0x78ce7989, 0xfa2a4622, 0x510e527f)
    && f.Round(Hash(0xc8c347a7, 0x5a6ad9ad, 0x5d6aebcd, 0x6a09e667, 0xf92939eb, 0x78ce7989, 0xfa2a4622, 0x510e527f),
               0xe9b5dba5, 0x00000000) ==
       Hash(0xd550f666, 0xc8c347a7, 0x5a6ad9ad, 0x5d6aebcd, 0x24e00850, 0xf92939eb, 0x78ce7989, 0xfa2a4622)
    && f.Round(Hash(0xd550f666, 0xc8c347a7, 0x5a6ad9ad, 0x5d6aebcd, 0x24e00850, 0xf92939eb, 0x78ce7989, 0xfa2a4622),
               0x3956c25b, 0x00000000) ==
       Hash(0x04409a6a, 0xd550f666, 0xc8c347a7, 0x5a6ad9ad, 0x43ada245, 0x24e00850, 0xf92939eb, 0x78ce7989)
    && f.Round(Hash(0x04409a6a, 0xd550f666, 0xc8c347a7, 0x5a6ad9ad, 0x43ada245, 0x24e00850, 0xf92939eb, 0x78ce7989),
               0x59f111f1, 0x00000000) ==
       Hash(0x2b4209f5, 0x04409a6a, 0xd550f666, 0xc8c347a7, 0x714260ad, 0x43ada245, 0x24e00850, 0xf92939eb)
    && f.Round(Hash(0x2b4209f5, 0x04409a6a, 0xd550f666, 0xc8c347a7, 0x714260ad, 0x43ada245, 0x24e00850, 0xf92939eb),
               0x923f82a4, 0x00000000) ==
       Hash(0xe5030380, 0x2b4209f5, 0x04409a6a, 0xd550f666, 0x9b27a401, 0x714260ad, 0x43ada245, 0x24e00850)
    && f.Round(Hash(0xe5030380, 0x2b4209f5, 0x04409a6a, 0xd550f666, 0x9b27a401, 0x714260ad, 0x43ada245, 0x24e00850),
               0xab1c5ed5, 0x00000000) ==
       Hash(0x85a07b5f, 0xe5030380, 0x2b4209f5, 0x04409a6a, 0x0c657a79, 0x9b27a401, 0x714260ad, 0x43ada245)
  }

  /** Rounds 8 to 15, on the words themselves. */
  ghost predicate Rounds8(f: Words) {
    && f.Round(Hash(0x85a07b5f, 0xe5030380, 0x2b4209f5, 0x04409a6a, 0x0c657a79, 0x9b27a401, 0x714260ad, 0x43ada245),
               0xd807aa98, 0x00000000) ==
       Hash(0x8e04ecb9, 0x85a07b5f, 0xe5030380, 0x2b4209f5, 0x32ca2d8c, 0x0c657a79, 0x9b27a401, 0x714260ad)
    && f.Round(Hash(0x8e04ecb9, 0x85a07b5f, 0xe5030380, 0x2b4209f5, 0x32ca2d8c, 0x0c657a79, 0x9b27a401, 0x714260ad),
               0x12835b01, 0x00000000) ==
       Hash(0x8c87346b, 0x8e04ecb9, 0x85a07b5f, 0xe5030380, 0x1cc92596, 0x32ca2d8c, 0x0c657a79, 0x9b27a401)
    && f.Round(Hash(0x8c87346b, 0x8e04ecb9, 0x85a07b5f, 0xe5030380, 0x1cc92596, 0x32ca2d8c, 0x0c657a79, 0x9b27a401),
               0x243185be, 0x00000000) ==
       Hash(0x4798a3f4, 0x8c87346b, 0x8e04ecb9, 0x85a07b5f, 0x436b23e8, 0x1cc92596, 0x32ca2d8c, 0x0c657a79)
    && f.Round(Hash(0x4798a3f4, 0x8c87346b, 0x8e04ecb9, 0x85a07b5f, 0x436b23e8, 0x1cc92596, 0x32ca2d8c, 0x0c657a79),
               0x550c7dc3, 0x00000000) ==
       Hash(0xf71fc5a9, 0x4798a3f4, 0x8c87346b, 0x8e04ecb9, 0x816fd6e9, 0x436b23e8, 0x1cc92596, 0x32ca2d8c)
    && f.Round(Hash(0xf71fc5a9, 0x4798a3f4, 0x8c87346b, 0x8e04ecb9, 0x816fd6e9, 0x436b23e8, 0x1cc92596, 0x32ca2d8c),
               0x72be5d74, 0x00000000) ==
       Hash(0x87912990, 0xf71fc5a9, 0x4798a3f4, 0x8c87346b, 0x1e578218, 0x816fd6e9, 0x436b23e8, 0x1cc92596)
    && f.Round(Hash(0x87912990, 0xf71fc5a9, 0x4798a3f4, 0x8c87346b, 0x1e578218, 0x816fd6e9, 0x436b23e8, 0x1cc92596),
               0x80deb1fe, 0x00000000) ==
       Hash(0xd932eb16, 0x87912990, 0xf71fc5a9, 0x4798a3f4, 0x745a48de, 0x1e578218, 0x816fd6e9, 0x436b23e8)
    && f.Round(Hash(0xd932eb16, 0x87912990, 0xf71fc5a9, 0x4798a3f4, 0x745a48de, 0x1e578218, 0x816fd6e9, 0x436b23e8),
               0x9bdc06a7, 0x00000000) ==
       Hash(0xc0645fde, 0xd932eb16, 0x87912990, 0xf71fc5a9, 0x0b92f20c, 0x745a48de, 0x1e578218, 0x816fd6e9)
    && f.Round(Hash(0xc0645fde, 0xd932eb16, 0x87912990, 0xf71fc5a9, 0x0b92f20c, 0x745a48de, 0x1e578218, 0x816fd6e9),
               0xc19bf174, 0x00000018) ==
       Hash(0xb0fa238e, 0xc0645fde, 0xd932eb16, 0x87912990, 0x07590dcd, 0x0b92f20c, 0x745a48de, 0x1e578218)
  }

  /** Rounds 16 to 23, on the words themselves. */
  ghost predicate Rounds16(f: Words) {
    && f.Round(Hash(0xb0fa238e, 0xc0645fde, 0xd932eb16, 0x87912990, 0x07590dcd, 0x0b92f20c, 0x745a48de, 0x1e578218),
               0xe49b69c1, 0x61626380) ==
       Hash(0x21da9a9b, 0xb0fa238e, 0xc0645fde, 0xd932eb16, 0x8034229c, 0x07590dcd, 0x0b92f20c, 0x745a48de)
    && f.Round(Hash(0x21da9a9b, 0xb0fa238e, 0xc0645fde, 0xd932eb16, 0x8034229c, 0x07590dcd, 0x0b92f20c, 0x745a48de),
               0xefbe4786, 0x000f0000) ==
       Hash(0xc2fbd9d1, 0x21da9a9b, 0xb0fa238e, 0xc0645fde, 0x846ee454, 0x8034229c, 0x07590dcd, 0x0b92f20c)
    && f.Round(Hash(0xc2fbd9d1, 0x21da9a9b, 0xb0fa238e, 0xc0645fde, 0x846ee454, 0x8034229c, 0x07590dcd, 0x0b92f20c),
               0x0fc19dc6, 0x7da86405) ==
       Hash(0xfe777bbf, 0xc2fbd9d1, 0x21da9a9b, 0xb0fa238e, 0xcc899961, 0x846ee454, 0x8034229c, 0x07590dcd)
    && f.Round(Hash(0xfe777bbf, 0xc2fbd9d1, 0x21da9a9b, 0xb0fa238e, 0xcc899961, 0x846ee454, 0x8034229c, 0x07590dcd),
               0x240ca1cc, 0x600003c6) ==
       Hash(0xe1f20c33, 0xfe777bbf, 0xc2fbd9d1, 0x21da9a9b, 0xb0638179, 0xcc899961, 0x846ee454, 0x8034229c)
    && f.Round(Hash(0xe1f20c33, 0xfe777bbf, 0xc2fbd9d1, 0x21da9a9b, 0xb0638179, 0xcc899961, 0x846ee454, 0x8034229c),
               0x2de92c6f, 0x3e9d7b78) ==
       Hash(0x9dc68b63, 0xe1f20c33, 0xfe777bbf, 0xc2fbd9d1, 0x8ada8930, 0xb0638179, 0xcc899961, 0x846ee454)
    && f.Round(Hash(0x9dc68b63, 0xe1f20c33, 0xfe777bbf, 0xc2fbd9d1, 0x8ada8930, 0xb0638179, 0xcc899961, 0x846ee454),
               0x4a7484aa, 0x0183fc00) ==
       Hash(0xc2606d6d, 0x9dc68b63, 0xe1f20c33, 0xfe777bbf, 0xe1257970, 0x8ada8930, 0xb0638179, 0xcc899961)
    && f.Round(Hash(0xc2606d6d, 0x9dc68b63, 0xe1f20c33, 0xfe777bbf, 0xe1257970, 0x8ada8930, 0xb0638179, 0xcc899961),
               0x5cb0a9dc, 0x12dcbfdb) ==
       Hash(0xa7a3623f, 0xc2606d6d, 0x9dc68b63, 0xe1f20c33, 0x49f5114a, 0xe1257970, 0x8ada8930, 0xb0638179)
    && f.Round(Hash(0xa7a3623f, 0xc2606d6d, 0x9dc68b63, 0xe1f20c33, 0x49f5114a, 0xe1257970, 0x8ada8930, 0xb0638179),
               0x76f988da, 0xe2e2c38e) ==
       Hash(0xc5d53d8d, 0xa7a3623f, 0xc2606d6d, 0x9dc68b63, 0xaa47c347, 0x49f5114a, 0xe1257970, 0x8ada8930)
  }

  /** Rounds 24 to 31, on the words themselves. */
  ghost predicate Rounds24(f: Words) {
    && f.Round(Hash(0xc5d53d8d, 0xa7a3623f, 0xc2606d6d, 0x9dc68b63, 0xaa47c347, 0x49f5114a, 0xe1257970, 0x8ada8930),
               0x983e5152, 0xc8215c1a) ==
       Hash(0x1c2c2838, 0xc5d53d8d, 0xa7a3623f, 0xc2606d6d, 0x2823ef91, 0xaa47c347, 0x49f5114a, 0xe1257970)
    && f.Round(Hash(0x1c2c2838, 0xc5d53d8d, 0xa7a3623f, 0xc2606d6d, 0x2823ef91, 0xaa47c347, 0x49f5114a, 0xe1257970),
               0xa831c66d, 0xb73679a2) ==
       Hash(0xcde8037d, 0x1c2c2838, 0xc5d53d8d, 0xa7a3623f, 0x14383d8e, 0x2823ef91, 0xaa47c347, 0x49f5114a)
    && f.Round(Hash(0xcde8037d, 0x1c2c2838, 0xc5d53d8d, 0xa7a3623f, 0x14383d8e, 0x2823ef91, 0xaa47c347, 0x49f5114a),
               0xb00327c8, 0xe5bc3909) ==
       Hash(0xb62ec4bc, 0xcde8037d, 0x1c2c2838, 0xc5d53d8d, 0xc74c6516, 0x14383d8e, 0x2823ef91, 0xaa47c347)
    && f.Round(Hash(0xb62ec4bc, 0xcde8037d, 0x1c2c2838, 0xc5d53d8d, 0xc74c6516, 0x14383d8e, 0x2823ef91, 0xaa47c347),
               0xbf597fc7, 0x32663c5b) ==
       Hash(0x77d37528, 0xb62ec4bc, 0xcde8037d, 0x1c2c2838, 0xedffbff8, 0xc74c6516, 0x14383d8e, 0x2823ef91)
    && f.Round(Hash(0x77d37528, 0xb62ec4bc, 0xcde8037d, 0x1c2c2838, 0xedffbff8, 0xc74c6516, 0x14383d8e, 0x2823ef91),
               0xc6e00bf3, 0x9d209d67) ==
       Hash(0x363482c9, 0x77d37528, 0xb62ec4bc, 0xcde8037d, 0x6112a3b7, 0xedffbff8, 0xc74c6516, 0x14383d8e)
    && f.Round(Hash(0x363482c9, 0x77d37528, 0xb62ec4bc, 0xcde8037d, 0x6112a3b7, 0xedffbff8, 0xc74c6516, 0x14383d8e),
               0xd5a79147, 0xec8726cb) ==
       Hash(0xa0060b30, 0x363482c9, 0x77d37528, 0xb62ec4bc, 0xade79437, 0x6112a3b7, 0xedffbff8, 0xc74c6516)
    && f.Round(Hash(0xa0060b30, 0x363482c9, 0x77d37528, 0xb62ec4bc, 0xade79437, 0x6112a3b7, 0xedffbff8, 0xc74c6516),
               0x06ca6351, 0x702138a4) ==
       Hash(0xea992a22, 0xa0060b30, 0x363482c9, 0x77d37528, 0x0109ab3a, 0xade79437, 0x6112a3b7, 0xedffbff8)
    && f.Round(Hash(0xea992a22, 0xa0060b30, 0x363482c9, 0x77d37528, 0x0109ab3a, 0xade79437, 0x6112a3b7, 0xedffbff8),
               0x14292967, 0xd3b7973b) ==
       Hash(0x73b33bf5, 0xea992a22, 0xa0060b30, 0x363482c9, 0xba591112, 0x0109ab3a, 0xade79437, 0x6112a3b7)
  }

  /** Rounds 32 to 39, on the words themselves. */
  ghost predicate Rounds32(f: Words) {
    && f.Round(Hash(0x73b33bf5, 0xea992a22, 0xa0060b30, 0x363482c9, 0xba591112, 0x0109ab3a, 0xade79437, 0x6112a3b7),
               0x27b70a85, 0x93f5997f) ==
       Hash(0x98e12507, 0x73b33bf5, 0xea992a22, 0xa0060b30, 0x9cd9f5f6, 0xba591112, 0x0109ab3a, 0xade79437)
    && f.Round(Hash(0x98e12507, 0x73b33bf5, 0xea992a22, 0xa0060b30, 0x9cd9f5f6, 0xba591112, 0x0109ab3a, 0xade79437),
               0x2e1b2138, 0x3b68ba73) ==
       Hash(0xfe604df5, 0x98e12507, 0x73b33bf5, 0xea992a22, 0x59249dd3, 0x9cd9f5f6, 0xba591112, 0x0109ab3a)
    && f.Round(Hash(0xfe604df5, 0x98e12507, 0x73b33bf5, 0xea992a22, 0x59249dd3, 0x9cd9f5f6, 0xba591112, 0x0109ab3a),
               0x4d2c6dfc, 0xaff4ffc1) ==
       Hash(0xa9a7738c, 0xfe604df5, 0x98e12507, 0x73b33bf5, 0x085f3833, 0x59249dd3, 0x9cd9f5f6, 0xba591112)
    && f.Round(Hash(0xa9a7738c, 0xfe604df5, 0x98e12507, 0x73b33bf5, 0x085f3833, 0x59249dd3, 0x9cd9f5f6, 0xba591112),
               0x53380d13, 0xf10a5c62) ==
       Hash(0x65a0cfe4, 0xa9a7738c, 0xfe604df5, 0x98e12507, 0xf4b002d6, 0x085f3833, 0x59249dd3, 0x9cd9f5f6)
    && f.Round(Hash(0x65a0cfe4, 0xa9a7738c, 0xfe604df5, 0x98e12507, 0xf4b002d6, 0x085f3833, 0x59249dd3, 0x9cd9f5f6),
               0x650a7354, 0x0a8b3996) ==
       Hash(0x41a65cb1, 0x65a0cfe4, 0xa9a7738c, 0xfe604df5, 0x0772a26b, 0xf4b002d6, 0x085f3833, 0x59249dd3)
    && f.Round(Hash(0x41a65cb1, 0x65a0cfe4, 0xa9a7738c, 0xfe604df5, 0x0772a26b, 0xf4b002d6, 0x085f3833, 0x59249dd3),
               0x766a0abb, 0x72af830a) ==
       Hash(0x34df1604, 0x41a65cb1, 0x65a0cfe4, 0xa9a7738c, 0xa507a53d, 0x0772a26b, 0xf4b002d6, 0x085f3833)
    && f.Round(Hash(0x34df1604, 0x41a65cb1, 0x65a0cfe4, 0xa9a7738c, 0xa507a53d, 0x0772a26b, 0xf4b002d6, 0x085f3833),
               0x81c2c92e, 0x9409e33e) ==
       Hash(0x6dc57a8a, 0x34df1604, 0x41a65cb1, 0x65a0cfe4, 0xf0781bc8, 0xa507a53d, 0x0772a26b, 0xf4b002d6)
    && f.Round(Hash(0x6dc57a8a, 0x34df1604, 0x41a65cb1, 0x65a0cfe4, 0xf0781bc8, 0xa507a53d, 0x0772a26b, 0xf4b002d6),
               0x92722c85, 0x24641522) ==
       Hash(0x79ea687a, 0x6dc57a8a, 0x34df1604, 0x41a65cb1, 0x1efbc0a0, 0xf0781bc8, 0xa507a53d, 0x0772a26b)
  }

  /** Rounds 40 to 47, on the words themselves. */
  ghost predicate Rounds40(f: Words) {
    && f.Round(Hash(0x79ea687a, 0x6dc57a8a, 0x34df1604, 0x41a65cb1, 0x1efbc0a0, 0xf0781bc8, 0xa507a53d, 0x0772a26b),
               0xa2bfe8a1, 0x9f47bf94) ==
       Hash(0xd6670766, 0x79ea687a, 0x6dc57a8a, 0x34df1604, 0x26352d63, 0x1efbc0a0, 0xf0781bc8, 0xa507a53d)
    && f.Round(Hash(0xd6670766, 0x79ea687a, 0x6dc57a8a, 0x34df1604, 0x26352d63, 0x1efbc0a0, 0xf0781bc8, 0xa507a53d),
               0xa81a664b, 0xf0a64f5a) ==
       Hash(0xdf46652f, 0xd6670766, 0x79ea687a, 0x6dc57a8a, 0x838b2711, 0x26352d63, 0x1efbc0a0, 0xf0781bc8)
    && f.Round(Hash(0xdf46652f, 0xd6670766, 0x79ea687a, 0x6dc57a8a, 0x838b2711, 0x26352d63, 0x1efbc0a0, 0xf0781bc8),
               0xc24b8b70, 0x3e246a79) ==
       Hash(0x17aa0dfe, 0xdf46652f, 0xd6670766, 0x79ea687a, 0xdecd4715, 0x838b2711, 0x26352d63, 0x1efbc0a0)
    && f.Round(Hash(0x17aa0dfe, 0xdf46652f, 0xd6670766, 0x79ea687a, 0xdecd4715, 0x838b2711, 0x26352d63, 0x1efbc0a0),
               0xc76c51a3, 0x27333ba3) ==
       Hash(0x9d4baf93, 0x17aa0dfe, 0xdf46652f, 0xd6670766, 0xfda24c2e, 0xdecd4715, 0x838b2711, 0x26352d63)
    && f.Round(Hash(0x9d4baf93, 0x17aa0dfe, 0xdf46652f, 0xd6670766, 0xfda24c2e, 0xdecd4715, 0x838b2711, 0x26352d63),
               0xd192e819, 0x0c4763f2) ==
       Hash(0x26628815, 0x9d4baf93, 0x17aa0dfe, 0xdf46652f, 0xa80f11f0, 0xfda24c2e, 0xdecd4715, 0x838b2711)
    && f.Round(Hash(0x26628815, 0x9d4baf93, 0x17aa0dfe, 0xdf46652f, 0xa80f11f0, 0xfda24c2e, 0xdecd4715, 0x838b2711),
               0xd6990624, 0x840abf27) ==
       Hash(0x72ab4b91, 0x26628815, 0x9d4baf93, 0x17aa0dfe, 0xb7755da1, 0xa80f11f0, 0xfda24c2e, 0xdecd4715)
    && f.Round(Hash(0x72ab4b91, 0x26628815, 0x9d4baf93, 0x17aa0dfe, 0xb7755da1, 0xa80f11f0, 0xfda24c2e, 0xdecd4715),
               0xf40e3585, 0x7a290d5d) ==
       Hash(0xa14c14b0, 0x72ab4b91, 0x26628815, 0x9d4baf93, 0xd57b94a9, 0xb7755da1, 0xa80f11f0, 0xfda24c2e)
    && f.Round(Hash(0xa14c14b0, 0x72ab4b91, 0x26628815, 0x9d4baf93, 0xd57b94a9, 0xb7755da1, 0xa80f11f0, 0xfda24c2e),
               0x106aa070, 0x065c43da) ==
       Hash(0x4172328d, 0xa14c14b0, 0x72ab4b91, 0x26628815, 0xfecf0bc6, 0xd57b94a9, 0xb7755da1, 0xa80f11f0)
  }

  /** Rounds 48 to 55, on the words themselves. */
  ghost predicate Rounds48(f: Words) {
    && f.Round(Hash(0x4172328d, 0xa14c14b0, 0x72ab4b91, 0x26628815, 0xfecf0bc6, 0xd57b94a9, 0xb7755da1, 0xa80f11f0),
               0x19a4c116, 0xfb3e89cb) ==
       Hash(0x05757ceb, 0x4172328d, 0xa14c14b0, 0x72ab4b91, 0xbd714038, 0xfecf0bc6, 0xd57b94a9, 0xb7755da1)
    && f.Round(Hash(0x05757ceb, 0x4172328d, 0xa14c14b0, 0x72ab4b91, 0xbd714038, 0xfecf0bc6, 0xd57b94a9, 0xb7755da1),
               0x1e376c08, 0xcc7617db) ==
       Hash(0xf11bfaa8, 0x05757ceb, 0x4172328d, 0xa14c14b0, 0x6e5c390c, 0xbd714038, 0xfecf0bc6, 0xd57b94a9)
    && f.Round(Hash(0xf11bfaa8, 0x05757ceb, 0x4172328d, 0xa14c14b0, 0x6e5c390c, 0xbd714038, 0xfecf0bc6, 0xd57b94a9),
               0x2748774c, 0xb9e66c34) ==
       Hash(0x7a0508a1, 0xf11bfaa8, 0x05757ceb, 0x4172328d, 0x52f1ccf7, 0x6e5c390c, 0xbd714038, 0xfecf0bc6)
    && f.Round(Hash(0x7a0508a1, 0xf11bfaa8, 0x05757ceb, 0x4172328d, 0x52f1ccf7, 0x6e5c390c, 0xbd714038, 0xfecf0bc6),
               0x34b0bcb5, 0xa9993667) ==
       Hash(0x886e7a22, 0x7a0508a1, 0xf11bfaa8, 0x05757ceb, 0x49231c1e, 0x52f1ccf7, 0x6e5c390c, 0xbd714038)
    && f.Round(Hash(0x886e7a22, 0x7a0508a1, 0xf11bfaa8, 0x05757ceb, 0x49231c1e, 0x52f1ccf7, 0x6e5c390c, 0xbd714038),
               0x391c0cb3, 0x84badedd) ==
       Hash(0x101fd28f, 0x886e7a22, 0x7a0508a1, 0xf11bfaa8, 0x529e7d00, 0x49231c1e, 0x52f1ccf7, 0x6e5c390c)
    && f.Round(Hash(0x101fd28f, 0x886e7a22, 0x7a0508a1, 0xf11bfaa8, 0x529e7d00, 0x49231c1e, 0x52f1ccf7, 0x6e5c390c),
               0x4ed8aa4a, 0xc21462bc) ==
       Hash(0xf5702fdb, 0x101fd28f, 0x886e7a22, 0x7a0508a1, 0x9f4787c3, 0x529e7d00, 0x49231c1e, 0x52f1ccf7)
    && f.Round(Hash(0xf5702fdb, 0x101fd28f, 0x886e7a22, 0x7a0508a1, 0x9f4787c3, 0x529e7d00, 0x49231c1e, 0x52f1ccf7),
               0x5b9cca4f, 0x1487472c) ==
       Hash(0x3ec45cdb, 0xf5702fdb, 0x101fd28f, 0x886e7a22, 0xe50e1b4f, 0x9f4787c3, 0x529e7d00, 0x49231c1e)
    && f.Round(Hash(0x3ec45cdb, 0xf5702fdb, 0x101fd28f, 0x886e7a22, 0xe50e1b4f, 0x9f4787c3, 0x529e7d00, 0x49231c1e),
               0x682e6ff3, 0xb20f7a99) ==
       Hash(0x38cc9913, 0x3ec45cdb, 0xf5702fdb, 0x101fd28f, 0x54cb266b, 0xe50e1b4f, 0x9f4787c3, 0x529e7d00)
  }

  /** Rounds 56 to 63, on the words themselves. */
  ghost predicate Rounds56(f: Words) {
    && f.Round(Hash(0x38cc9913, 0x3ec45cdb, 0xf5702fdb, 0x101fd28f, 0x54cb266b, 0xe50e1b4f, 0x9f4787c3, 0x529e7d00),
               0x748f82ee, 0xef57b9cd) ==
       Hash(0xfcd1887b, 0x38cc9913, 0x3ec45cdb, 0xf5702fdb, 0x9b5e906c, 0x54cb266b, 0xe50e1b4f, 0x9f4787c3)
    && f.Round(Hash(0xfcd1887b, 0x38cc9913, 0x3ec45cdb, 0xf5702fdb, 0x9b5e906c, 0x54cb266b, 0xe50e1b4f, 0x9f4787c3),
               0x78a5636f, 0xebe6b238) ==
       Hash(0xc062d46f, 0xfcd1887b, 0x38cc9913, 0x3ec45cdb, 0x7e44008e, 0x9b5e906c, 0x54cb266b, 0xe50e1b4f)
    && f.Round(Hash(0xc062d46f, 0xfcd1887b, 0x38cc9913, 0x3ec45cdb, 0x7e44008e, 0x9b5e906c, 0x54cb266b, 0xe50e1b4f),
               0x84c87814, 0x9fe3095e) ==
       Hash(0xffb70472, 0xc062d46f, 0xfcd1887b, 0x38cc9913, 0x6d83bfc6, 0x7e44008e, 0x9b5e906c, 0x54cb266b)
    && f.Round(Hash(0xffb70472, 0xc062d46f, 0xfcd1887b, 0x38cc9913, 0x6d83bfc6, 0x7e44008e, 0x9b5e906c, 0x54cb266b),
               0x8cc70208, 0x78bc8d4b) ==
       Hash(0xb6ae8fff, 0xffb70472, 0xc062d46f, 0xfcd1887b, 0xb21bad3d, 0x6d83bfc6, 0x7e44008e, 0x9b5e906c)
    && f.Round(Hash(0xb6ae8fff, 0xffb70472, 0xc062d46f, 0xfcd1887b, 0xb21bad3d, 0x6d83bfc6, 0x7e44008e, 0x9b5e906c),
               0x90befffa, 0xa43fcf15) ==
       Hash(0xb85e2ce9, 0xb6ae8fff, 0xffb70472, 0xc062d46f, 0x961f4894, 0xb21bad3d, 0x6d83bfc6, 0x7e44008e)
    && f.Round(Hash(0xb85e2ce9, 0xb6ae8fff, 0xffb70472, 0xc062d46f, 0x961f4894, 0xb21bad3d, 0x6d83bfc6, 0x7e44008e),
               0xa4506ceb, 0x668b2ff8) ==
       Hash(0x04d24d6c, 0xb85e2ce9, 0xb6ae8fff, 0xffb70472, 0x948d25b6, 0x961f4894, 0xb21bad3d, 0x6d83bfc6)
    && f.Round(Hash(0x04d24d6c, 0xb85e2ce9, 0xb6ae8fff, 0xffb70472, 0x948d25b6, 0x961f4894, 0xb21bad3d, 0x6d83bfc6),
               0xbef9a3f7, 0xeeaba2cc) ==
       Hash(0xd39a2165, 0x04d24d6c, 0xb85e2ce9, 0xb6ae8fff, 0xfb121210, 0x948d25b6, 0x961f4894, 0xb21bad3d)
    && f.Round(Hash(0xd39a2165, 0x04d24d6c, 0xb85e2ce9, 0xb6ae8fff, 0xfb121210, 0x948d25b6, 0x961f4894, 0xb21bad3d),
               0xc67178f2, 0x12b1edeb) ==
       Hash(0x506e3058, 0xd39a2165, 0x04d24d6c, 0xb85e2ce9, 0x5ef50f24, 0xfb121210, 0x948d25b6, 0x961f4894)
  }

  ghost predicate SomeRounds(f: Words, i: nat) {
    match i
    case 0 => Rounds0(f)
    case 1 => Rounds8(f)
    case 2 => Rounds16(f)
    case 3 => Rounds24(f)
    case 4 => Rounds32(f)
    case 5 => Rounds40(f)
    case 6 => Rounds48(f)
    case 7 => Rounds56(f)
    case _ => true
  }

  ghost predicate AllRounds(f: Words) {
    forall i :: 0 <= i < 8 ==> SomeRounds(f, i)
  }

  lemma Turns0(f: Words, k: int -> bv32, w: int -> bv32, v: int -> Hash)
    requires Turning(f, k, w, v) && AllRounds(f)
    requires v(0) == Hash(0x6a09e667, 0xbb67ae85, 0x3c6ef372, 0xa54ff53a, 0x510e527f, 0x9b05688c, 0x1f83d9ab, 0x5be0cd19)
    requires w(0) == 0x61626380 && w(1) == 0x00000000 && w(2) == 0x00000000 && w(3) == 0x00000000
    requires w(4) == 0x00000000 && w(5) == 0x00000000 && w(6) == 0x00000000 && w(7) == 0x00000000
    requires k(0) == 0x428a2f98 && k(1) == 0x71374491 && k(2) == 0xb5c0fbcf && k(3) == 0xe9b5dba5
    requires k(4) == 0x3956c25b && k(5) == 0x59f111f1 && k(6) == 0x923f82a4 && k(7) == 0xab1c5ed5
    ensures v(8) == Hash(0x85a07b5f, 0xe5030380, 0x2b4209f5, 0x04409a6a, 0x0c657a79, 0x9b27a401, 0x714260ad, 0x43ada245)
  {
    assert SomeRounds(f, 0);
    assert Turns(f, k, w, v, 0) && Turns(f, k, w, v, 1) && Turns(f, k, w, v, 2) && Turns(f, k, w, v, 3);
    assert Turns(f, k, w, v, 4) && Turns(f, k, w, v, 5) && Turns(f, k, w, v, 6) && Turns(f, k, w, v, 7);
  }

  lemma Turns8(f: Words, k: int -> bv32, w: int -> bv32, v: int -> Hash)
    requires Turning(f, k, w, v) && AllRounds(f)
    requires v(8) == Hash(0x85a07b5f, 0xe5030380, 0x2b4209f5, 0x04409a6a, 0x0c657a79, 0x9b27a401, 0x714260ad, 0x43ada245)
    requires w(8) == 0x00000000 && w(9) == 0x00000000 && w(10) == 0x00000000 && w(11) == 0x00000000
    requires w(12) == 0x00000000 && w(13) == 0x00000000 && w(14) == 0x00000000 && w(15) == 0x00000018
    requires k(8) == 0xd807aa98 && k(9) == 0x12835b01 && k(10) == 0x243185be && k(11) == 0x550c7dc3
    requires k(12) == 0x72be5d74 && k(13) == 0x80deb1fe && k(14) == 0x9bdc06a7 && k(15) == 0xc19bf174
    ensures v(16) == Hash(0xb0fa238e, 0xc0645fde, 0xd932eb16, 0x87912990, 0x07590dcd, 0x0b92f20c, 0x745a48de, 0x1e578218)
  {
    assert SomeRounds(f, 1);
    assert Turns(f, k, w, v, 8) && Turns(f, k, w, v, 9) && Turns(f, k, w, v, 10) && Turns(f, k, w, v, 11);
    assert Turns(f, k, w, v, 12) && Turns(f, k, w, v, 13) && Turns(f, k, w, v, 14) && Turns(f, k, w, v, 15);
  }

  lemma Turns16(f: Words, k: int -> bv32, w: int -> bv32, v: int -> Hash)
    requires Turning(f, k, w, v) && AllRounds(f)
    requires v(16) == Hash(0xb0fa238e, 0xc0645fde, 0xd932eb16, 0x87912990, 0x07590dcd, 0x0b92f20c, 0x745a48de, 0x1e578218)
    requires w(16) == 0x61626380 && w(17) == 0x000f0000 && w(18) == 0x7da86405 && w(19) == 0x600003c6
    requires w(20) == 0x3e9d7b78 && w(21) == 0x0183fc00 && w(22) == 0x12dcbfdb && w(23) == 0xe2e2c38e
    requires k(16) == 0xe49b69c1 && k(17) == 0xefbe4786 && k(18) == 0x0fc19dc6 && k(19) == 0x240ca1cc
    requires k(20) == 0x2de92c6f && k(21) == 0x4a7484aa && k(22) == 0x5cb0a9dc && k(23) == 0x76f988da
    ensures v(24) == Hash(0xc5d53d8d, 0xa7a3623f, 0xc2606d6d, 0x9dc68b63, 0xaa47c347, 0x49f5114a, 0xe1257970, 0x8ada8930)
  {
    assert SomeRounds(f, 2);
    assert Turns(f, k, w, v, 16) && Turns(f, k, w, v, 17) && Turns(f, k, w, v, 18) && Turns(f, k, w, v, 19);
    assert Turns(f, k, w, v, 20) && Turns(f, k, w, v, 21) && Turns(f, k, w, v, 22) && Turns(f, k, w, v, 23);
  }

  lemma Turns24(f: Words, k: int -> bv32, w: int -> bv32, v: int -> Hash)
    requires Turning(f, k, w, v) && AllRounds(f)
    requires v(24) == Hash(0xc5d53d8d, 0xa7a3623f, 0xc2606d6d, 0x9dc68b63, 0xaa47c347, 0x49f5114a, 0xe1257970, 0x8ada8930)
    requires w(24) == 0xc8215c1a && w(25) == 0xb73679a2 && w(26) == 0xe5bc3909 && w(27) == 0x32663c5b
    requires w(28) == 0x9d209d67 && w(29) == 0xec8726cb && w(30) == 0x702138a4 && w(31) == 0xd3b7973b
    requires k(24) == 0x983e5152 && k(25) == 0xa831c66d && k(26) == 0xb00327c8 && k(27) == 0xbf597fc7
    requires k(28) == 0xc6e00bf3 && k(29) == 0xd5a79147 && k(30) == 0x06ca6351 && k(31) == 0x14292967
    ensures v(32) == Hash(0x73b33bf5, 0xea992a22, 0xa0060b30, 0x363482c9, 0xba591112, 0x0109ab3a, 0xade79437, 0x6112a3b7)
  {
    assert SomeRounds(f, 3);
    assert Turns(f, k, w, v, 24) && Turns(f, k, w, v, 25) && Turns(f, k, w, v, 26) && Turns(f, k, w, v, 27);
    assert Turns(f, k, w, v, 28) && Turns(f, k, w, v, 29) && Turns(f, k, w, v, 30) && Turns(f, k, w, v, 31);
  }

  lemma Turns32(f: Words, k: int -> bv32, w: int -> bv32, v: int -> Hash)
    requires Turning(f, k, w, v) && AllRounds(f)
    requires v(32) == Hash(0x73b33bf5, 0xea992a22, 0xa0060b30, 0x363482c9, 0xba591112, 0x0109ab3a, 0xade79437, 0x6112a3b7)
    requires w(32) == 0x93f5997f && w(33) == 0x3b68ba73 && w(34) == 0xaff4ffc1 && w(35) == 0xf10a5c62
    requires w(36) == 0x0a8b3996 && w(37) == 0x72af830a && w(38) == 0x9409e33e && w(39) == 0x24641522
    requires k(32) == 0x27b70a85 && k(33) == 0x2e1b2138 && k(34) == 0x4d2c6dfc && k(35) == 0x53380d13
    requires k(36) == 0x650a7354 && k(37) == 0x766a0abb && k(38) == 0x81c2c92e && k(39) == 0x92722c85
    ensures v(40) == Hash(0x79ea687a, 0x6dc57a8a, 0x34df1604, 0x41a65cb1, 0x1efbc0a0, 0xf0781bc8, 0xa507a53d, 0x0772a26b)
  {
    assert SomeRounds(f, 4);
    assert Turns(f, k, w, v, 32) && Turns(f, k, w, v, 33) && Turns(f, k, w, v, 34) && Turns(f, k, w, v, 35);
    assert Turns(f, k, w, v, 36) && Turns(f, k, w, v, 37) && Turns(f, k, w, v, 38) && Turns(f, k, w, v, 39);
  }

  lemma Turns40(f: Words, k: int -> bv32, w: int -> bv32, v: int -> Hash)
    requires Turning(f, k, w, v) && AllRounds(f)
    requires v(40) == Hash(0x79ea687a, 0x6dc57a8a, 0x34df1604, 0x41a65cb1, 0x1efbc0a0, 0xf0781bc8, 0xa507a53d, 0x0772a26b)
    requires w(40) == 0x9f47bf94 && w(41) == 0xf0a64f5a && w(42) == 0x3e246a79 && w(43) == 0x27333ba3
    requires w(44) == 0x0c4763f2 && w(45) == 0x840abf27 && w(46) == 0x7a290d5d && w(47) == 0x065c43da
    requires k(40) == 0xa2bfe8a1 && k(41) == 0xa81a664b && k(42) == 0xc24b8b70 && k(43) == 0xc76c51a3
    requires k(44) == 0xd192e819 && k(45) == 0xd6990624 && k(46) == 0xf40e3585 && k(47) == 0x106aa070
    ensures v(48) == Hash(0x4172328d, 0xa14c14b0, 0x72ab4b91, 0x26628815, 0xfecf0bc6, 0xd57b94a9, 0xb7755da1, 0xa80f11f0)
  {
    assert SomeRounds(f, 5);
    assert Turns(f, k, w, v, 40) && Turns(f, k, w, v, 41) && Turns(f, k, w, v, 42) && Turns(f, k, w, v, 43);
    assert Turns(f, k, w, v, 44) && Turns(f, k, w, v, 45) && Turns(f, k, w, v, 46) && Turns(f, k, w, v, 47);
  }

  lemma Turns48(f: Words, k: int -> bv32, w: int -> bv32, v: int -> Hash)
    requires Turning(f, k, w, v) && AllRounds(f)
    requires v(48) == Hash(0x4172328d, 0xa14c14b0, 0x72ab4b91, 0x26628815, 0xfecf0bc6, 0xd57b94a9, 0xb7755da1, 0xa80f11f0)
    requires w(48) == 0xfb3e89cb && w(49) == 0xcc7617db && w(50) == 0xb9e66c34 && w(51) == 0xa9993667
    requires w(52) == 0x84badedd && w(53) == 0xc21462bc && w(54) == 0x1487472c && w(55) == 0xb20f7a99
    requires k(48) == 0x19a4c116 && k(49) == 0x1e376c08 && k(50) == 0x2748774c && k(51) == 0x34b0bcb5
    requires k(52) == 0x391c0cb3 && k(53) == 0x4ed8aa4a && k(54) == 0x5b9cca4f && k(55) == 0x682e6ff3
    ensures v(56) == Hash(0x38cc9913, 0x3ec45cdb, 0xf5702fdb, 0x101fd28f, 0x54cb266b, 0xe50e1b4f, 0x9f4787c3, 0x529e7d00)
  {
    assert SomeRounds(f, 6);
    assert Turns(f, k, w, v, 48) && Turns(f, k, w, v, 49) && Turns(f, k, w, v, 50) && Turns(f, k, w, v, 51);
    assert Turns(f, k, w, v, 52) && Turns(f, k, w, v, 53) && Turns(f, k, w, v, 54) && Turns(f, k, w, v, 55);
  }

  lemma Turns56(f: Words, k: int -> bv32, w: int -> bv32, v: int -> Hash)
    requires Turning(f, k, w, v) && AllRounds(f)
    requires v(56) == Hash(0x38cc9913, 0x3ec45cdb, 0xf5702fdb, 0x101fd28f, 0x54cb266b, 0xe50e1b4f, 0x9f4787c3, 0x529e7d00)
    requires w(56) == 0xef57b9cd && w(57) == 0xebe6b238 && w(58) == 0x9fe3095e && w(59) == 0x78bc8d4b
    requires w(60) == 0xa43fcf15 && w(61) == 0x668b2ff8 && w(62) == 0xeeaba2cc && w(63) == 0x12b1edeb
    requires k(56) == 0x748f82ee && k(57) == 0x78a5636f && k(58) == 0x84c87814 && k(59) == 0x8cc70208
    requires k(60) == 0x90befffa && k(61) == 0xa4506ceb && k(62) == 0xbef9a3f7 && k(63) == 0xc67178f2
    ensures v(64) == Hash(0x506e3058, 0xd39a2165, 0x04d24d6c, 0xb85e2ce9, 0x5ef50f24, 0xfb121210, 0x948d25b6, 0x961f4894)
  {
    assert SomeRounds(f, 7);
    assert Turns(f, k, w, v, 56) && Turns(f, k, w, v, 57) && Turns(f, k, w, v, 58) && Turns(f, k, w, v, 59);
    assert Turns(f, k, w, v, 60) && Turns(f, k, w, v, 61) && Turns(f, k, w, v, 62) && Turns(f, k, w, v, 63);
  }

  // ----- The steps of the standard -----

  lemma Expansions16Hold()
    ensures Expansions16(FipsWords())
  {
  }

  lemma Expansions24Hold()
    ensures Expansions24(FipsWords())
  {
  }

  lemma Expansions32Hold()
    ensures Expansions32(FipsWords())
  {
  }

  lemma Expansions40Hold()
    ensures Expansions40(FipsWords())
  {
  }

  lemma Expansions48Hold()
    ensures Expansions48(FipsWords())
  {
  }

  lemma Expansions56Hold()
    ensures Expansions56(FipsWords())
  {
  }

  lemma Rounds0Hold()
    ensures Rounds0(FipsWords())
  {
  }

  lemma Rounds8Hold()
    ensures Rounds8(FipsWords())
  {
  }

  lemma Rounds16Hold()
    ensures Rounds16(FipsWords())
  {
  }

  lemma Rounds24Hold()
    ensures Rounds24(FipsWords())
  {
  }

  lemma Rounds32Hold()
    ensures Rounds32(FipsWords())
  {
  }

  lemma Rounds40Hold()
    ensures Rounds40(FipsWords())
  {
  }

  lemma Rounds48Hold()
    ensures Rounds48(FipsWords())
  {
  }

  lemma Rounds56Hold()
    ensures Rounds56(FipsWords())
  {
  }

  lemma Constants0(k: int -> bv32)
    requires forall t :: 0 <= t < 64 ==> k(t) == Constant(t)
    ensures k(0) == 0x428a2f98 && k(1) == 0x71374491 && k(2) == 0xb5c0fbcf && k(3) == 0xe9b5dba5
    ensures k(4) == 0x3956c25b && k(5) == 0x59f111f1 && k(6) == 0x923f82a4 && k(7) == 0xab1c5ed5
    ensures k(8) == 0xd807aa98 && k(9) == 0x12835b01 && k(10) == 0x243185be && k(11) == 0x550c7dc3
    ensures k(12) == 0x72be5d74 && k(13) == 0x80deb1fe && k(14) == 0x9bdc06a7 && k(15) == 0xc19bf174
  {
  }

  lemma Constants16(k: int -> bv32)
    requires forall t :: 0 <= t < 64 ==> k(t) == Constant(t)
    ensures k(16) == 0xe49b69c1 && k(17) == 0xefbe4786 && k(18) == 0x0fc19dc6 && k(19) == 0x240ca1cc
    ensures k(20) == 0x2de92c6f && k(21) == 0x4a7484aa && k(22) == 0x5cb0a9dc && k(23) == 0x76f988da
    ensures k(24) == 0x983e5152 && k(25) == 0xa831c66d && k(26) == 0xb00327c8 && k(27) == 0xbf597fc7
    ensures k(28) == 0xc6e00bf3 && k(29) == 0xd5a79147 && k(30) == 0x06ca6351 && k(31) == 0x14292967
  {
  }

  lemma Constants32(k: int -> bv32)
    requires forall t :: 0 <= t < 64 ==> k(t) == Constant(t)
    ensures k(32) == 0x27b70a85 && k(33) == 0x2e1b2138 && k(34) == 0x4d2c6dfc && k(35) == 0x53380d13
    ensures k(36) == 0x650a7354 && k(37) == 0x766a0abb && k(38) == 0x81c2c92e && k(39) == 0x92722c85
    ensures k(40) == 0xa2bfe8a1 && k(41) == 0xa81a664b && k(42) == 0xc24b8b70 && k(43) == 0xc76c51a3
    ensures k(44) == 0xd192e819 && k(45) == 0xd6990624 && k(46) == 0xf40e3585 && k(47) == 0x106aa070
  {
  }

  lemma Constants48(k: int -> bv32)
    requires forall t :: 0 <= t < 64 ==> k(t) == Constant(t)
    ensures k(48) == 0x19a4c116 && k(49) == 0x1e376c08 && k(50) == 0x2748774c && k(51) == 0x34b0bcb5
    ensures k(52) == 0x391c0cb3 && k(53) == 0x4ed8aa4a && k(54) == 0x5b9cca4f && k(55) == 0x682e6ff3
    ensures k(56) == 0x748f82ee && k(57) == 0x78a5636f && k(58) == 0x84c87814 && k(59) == 0x8cc70208
    ensures k(60) == 0x90befffa && k(61) == 0xa4506ceb && k(62) == 0xbef9a3f7 && k(63) == 0xc67178f2
  {
  }

  // ----- The whole block -----

  function WordAt(f: Words, b: Block): int -> bv32 {
    t => if 0 <= t < 64 then f.W(b, t) else 0
  }

  function StateAt(f: Words, b: Block, h: Hash): int -> Hash {
    t => if 0 <= t <= 64 then f.Rounds(b, h, t) else h
  }

  lemma WordsExpand(f: Words, b: Block)
    ensures Expanding(f, WordAt(f, b))
  {
    forall t | 16 <= t < 64
      ensures Expands(f, WordAt(f, b), t)
    {
      ScheduledWord(f, b, t);
    }
  }

  lemma RoundsTurn(f: Words, b: Block, h: Hash)
    ensures Turning(f, f.constant, WordAt(f, b), StateAt(f, b, h))
  {
  }

  /** The words of the padded message. */
  ghost predicate AbcWords(w: int -> bv32) {
    && w(0) == 0x61626380 && w(1) == 0 && w(2) == 0 && w(3) == 0 && w(4) == 0 && w(5) == 0 && w(6) == 0 && w(7) == 0
    && w(8) == 0 && w(9) == 0 && w(10) == 0 && w(11) == 0 && w(12) == 0 && w(13) == 0 && w(14) == 0 && w(15) == 0x18
  }

  function Abc(): seq<byte> {
    [0x61, 0x62, 0x63]
  }

  lemma AbcRounds(f: Words, k: int -> bv32, w: int -> bv32, v: int -> Hash)
    requires Expanding(f, w) && AllExpansions(f) && Turning(f, k, w, v) && AllRounds(f)
    requires AbcWords(w) && v(0) == InitialHash() && forall t :: 0 <= t < 64 ==> k(t) == Constant(t)
    ensures v(64) == Hash(0x506e3058, 0xd39a2165, 0x04d24d6c, 0xb85e2ce9, 0x5ef50f24, 0xfb121210, 0x948d25b6, 0x961f4894)
  {
    Words16(f, w);
    Words24(f, w);
    Words32(f, w);
    Words40(f, w);
    Words48(f, w);
    Words56(f, w);
    Constants0(k);
    Constants16(k);
    Constants32(k);
    Constants48(k);
    Turns0(f, k, w, v);
    Turns8(f, k, w, v);
    Turns16(f, k, w, v);
    Turns24(f, k, w, v);
    Turns32(f, k, w, v);
    Turns40(f, k, w, v);
    Turns48(f, k, w, v);
    Turns56(f, k, w, v);
  }

  lemma PaddedBytes() returns (b: Block)
    ensures Padded(Abc()) == b
    ensures b[0] == 0x61 && b[1] == 0x62 && b[2] == 0x63 && b[3] == 0x80 && b[63] == 0x18
    ensures forall i :: 4 <= i < 63 ==> b[i] == 0
  {
    assert Abc() + [0x80] == [0x61, 0x62, 0x63, 0x80];
    assert BE(24, 8) == Zeros(7) + [0x18] by {
      BEZero(7);
    }
    b := [0x61, 0x62, 0x63, 0x80] + Zeros(52) + (Zeros(7) + [0x18]);
  }

  lemma {:induction false} BEZero(w: nat)
    ensures BE(0, w) == Zeros(w)
  {
    if w > 0 {
      BEZero(w - 1);
    }
  }

  lemma ThreeLoads()
    ensures FipsWords().load(0x61, 0x62, 0x63, 0x80) == 0x61626380
    ensures FipsWords().load(0, 0, 0, 0) == 0 && FipsWords().load(0, 0, 0, 0x18) == 0x18
  {
  }

  lemma LoadedAt(b: Block, t: nat, b0: byte, b1: byte, b2: byte, b3: byte, x: bv32)
    requires t < 16 && b[4 * t] == b0 && b[4 * t + 1] == b1 && b[4 * t + 2] == b2 && b[4 * t + 3] == b3
    requires FipsWords().load(b0, b1, b2, b3) == x
    ensures WordAt(FipsWords(), b)(t) == x
  {
  }

  lemma AbcPadded() returns (b: Block)
    ensures Padded(Abc()) == b && AbcWords(WordAt(FipsWords(), b))
  {
    b := PaddedBytes();
    ThreeLoads();
    LoadedAt(b, 0, 0x61, 0x62, 0x63, 0x80, 0x61626380);
    LoadedAt(b, 15, 0, 0, 0, 0x18, 0x18);
    forall t | 0 < t < 15
      ensures WordAt(FipsWords(), b)(t) == 0
    {
      LoadedAt(b, t, 0, 0, 0, 0, 0);
    }
  }

  lemma StepsHold()
    ensures AllExpansions(FipsWords()) && AllRounds(FipsWords())
  {
    forall i | 2 <= i < 8
      ensures SomeExpansions(FipsWords(), i)
    {
      match i
      case 2 => Expansions16Hold();
      case 3 => Expansions24Hold();
      case 4 => Expansions32Hold();
      case 5 => Expansions40Hold();
      case 6 => Expansions48Hold();
      case 7 => Expansions56Hold();
    }
    forall i | 0 <= i < 8
      ensures SomeRounds(FipsWords(), i)
    {
      match i
      case 0 => Rounds0Hold();
      case 1 => Rounds8Hold();
      case 2 => Rounds16Hold();
      case 3 => Rounds24Hold();
      case 4 => Rounds32Hold();
      case 5 => Rounds40Hold();
      case 6 => Rounds48Hold();
      case 7 => Rounds56Hold();
    }
  }

  lemma AbcRun(f: Words, b: Block)
    requires AbcWords(WordAt(f, b)) && AllExpansions(f) && AllRounds(f) && forall t :: 0 <= t < 64 ==> f.constant(t) == Constant(t)
    ensures f.Rounds(b, InitialHash(), 64) ==
            Hash(0x506e3058, 0xd39a2165, 0x04d24d6c, 0xb85e2ce9, 0x5ef50f24, 0xfb121210, 0x948d25b6, 0x961f4894)
  {
    WordsExpand(f, b);
    RoundsTurn(f, b, InitialHash());
    AbcRounds(f, f.constant, WordAt(f, b), StateAt(f, b, InitialHash()));
  }

  lemma LastState(b: Block)
    requires AbcWords(WordAt(FipsWords(), b))
    ensures FipsWords().Rounds(b, InitialHash(), 64) ==
            Hash(0x506e3058, 0xd39a2165, 0x04d24d6c, 0xb85e2ce9, 0x5ef50f24, 0xfb121210, 0x948d25b6, 0x961f4894)
  {
    StepsHold();
    AbcRun(FipsWords(), b);
  }

  lemma AbcCompressed(b: Block)
    requires AbcWords(WordAt(FipsWords(), b))
    ensures FipsWords().Compressed(InitialHash(), b) ==
            Hash(0xba7816bf, 0x8f01cfea, 0x414140de, 0x5dae2223, 0xb00361a3, 0x96177a9c, 0xb410ff61, 0xf20015ad)
  {
    LastState(b);
  }

  lemma OneBlock(core: Core, h: Hash, b: Block)
    ensures Chain(core, h, b) == core.compress(h, b)
  {
    assert b[..64] == b && b[64..] == [];
  }

  lemma DigestBytes()
    ensures HashBytes(Hash(0xba7816bf, 0x8f01cfea, 0x414140de, 0x5dae2223, 0xb00361a3, 0x96177a9c, 0xb410ff61, 0xf20015ad)) ==
    [0xba, 0x78, 0x16, 0xbf, 0x8f, 0x01, 0xcf, 0xea, 0x41, 0x41, 0x40, 0xde, 0x5d, 0xae, 0x22, 0x23,
     0xb0, 0x03, 0x61, 0xa3, 0x96, 0x17, 0x7a, 0x9c, 0xb4, 0x10, 0xff, 0x61, 0xf2, 0x00, 0x15, 0xad]
  {
  }

  lemma AbcDigest()
    ensures Sha(Fips(), Abc()) ==
    [0xba, 0x78, 0x16, 0xbf, 0x8f, 0x01, 0xcf, 0xea, 0x41, 0x41, 0x40, 0xde, 0x5d, 0xae, 0x22, 0x23,
     0xb0, 0x03, 0x61, 0xa3, 0x96, 0x17, 0x7a, 0x9c, 0xb4, 0x10, 0xff, 0x61, 0xf2, 0x00, 0x15, 0xad]
  {
    var b := AbcPadded();
    OneBlock(Fips(), InitialHash(), b);
    AbcCompressed(b);
    ShaOfBlocks(Fips(), Abc(), b, Fips().compress(InitialHash(), b));
    DigestBytes();
  }
}
