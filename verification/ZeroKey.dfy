/**
 A known answer: the hash of 32 zero bytes, worked out round by round, and what it makes of the zero
 address and of the zero key.
 */
module ZeroKey {
  import opened Bits
  import opened Digits
  import opened Base32
  import opened Sha512Spec
  import opened Address
  import Mnemonic
  import Repack
  import Words

  // ----- the message schedule, eight words at a time -----

  datatype Sixteen = Sixteen(
    w0: word, w1: word, w2: word, w3: word, w4: word, w5: word, w6: word, w7: word,
    w8: word, w9: word, w10: word, w11: word, w12: word, w13: word, w14: word, w15: word)

  /** Sixteen words of a schedule, moved on by eight. */
  function Next8(w: Sixteen): Sixteen {
    hide Expand;
    var n0 := Expand(w.w14, w.w9, w.w1, w.w0);
    var n1 := Expand(w.w15, w.w10, w.w2, w.w1);
    var n2 := Expand(n0, w.w11, w.w3, w.w2);
    var n3 := Expand(n1, w.w12, w.w4, w.w3);
    var n4 := Expand(n2, w.w13, w.w5, w.w4);
    var n5 := Expand(n3, w.w14, w.w6, w.w5);
    var n6 := Expand(n4, w.w15, w.w7, w.w6);
    var n7 := Expand(n5, n0, w.w8, w.w7);
    Sixteen(w.w8, w.w9, w.w10, w.w11, w.w12, w.w13, w.w14, w.w15, n0, n1, n2, n3, n4, n5, n6, n7)
  }

  ghost predicate WordsFrom(b: block, t: nat, w: Sixteen)
    requires t + 16 <= 80
  {
    hide Schedule;
    && Schedule(b, t + 0) == w.w0 && Schedule(b, t + 1) == w.w1 && Schedule(b, t + 2) == w.w2
    && Schedule(b, t + 3) == w.w3 && Schedule(b, t + 4) == w.w4 && Schedule(b, t + 5) == w.w5
    && Schedule(b, t + 6) == w.w6 && Schedule(b, t + 7) == w.w7 && Schedule(b, t + 8) == w.w8
    && Schedule(b, t + 9) == w.w9 && Schedule(b, t + 10) == w.w10 && Schedule(b, t + 11) == w.w11
    && Schedule(b, t + 12) == w.w12 && Schedule(b, t + 13) == w.w13 && Schedule(b, t + 14) == w.w14
    && Schedule(b, t + 15) == w.w15
  }

  lemma NextWords(b: block, t: nat, w: Sixteen)
    requires t + 24 <= 80 && WordsFrom(b, t, w)
    ensures WordsFrom(b, t + 8, Next8(w))
  {
    hide Expand, Schedule;
    ScheduleAt(b, t + 16);
    ScheduleAt(b, t + 17);
    ScheduleAt(b, t + 18);
    ScheduleAt(b, t + 19);
    ScheduleAt(b, t + 20);
    ScheduleAt(b, t + 21);
    ScheduleAt(b, t + 22);
    ScheduleAt(b, t + 23);
  }

  lemma ScheduleAt(b: block, t: nat)
    requires 16 <= t < 80
    ensures Schedule(b, t)
         == Expand(Schedule(b, t - 2), Schedule(b, t - 7), Schedule(b, t - 15), Schedule(b, t - 16))
  {
  }

  // ----- the rounds, eight at a time -----

  function Low(w: Sixteen): Eight {
    Eight(w.w0, w.w1, w.w2, w.w3, w.w4, w.w5, w.w6, w.w7)
  }

  function High(w: Sixteen): Eight {
    Eight(w.w8, w.w9, w.w10, w.w11, w.w12, w.w13, w.w14, w.w15)
  }

  ghost predicate EightFrom(b: block, t: nat, w: Eight)
    requires t + 8 <= 80
  {
    hide Schedule;
    && Schedule(b, t + 0) == w.x0 && Schedule(b, t + 1) == w.x1 && Schedule(b, t + 2) == w.x2
    && Schedule(b, t + 3) == w.x3 && Schedule(b, t + 4) == w.x4 && Schedule(b, t + 5) == w.x5
    && Schedule(b, t + 6) == w.x6 && Schedule(b, t + 7) == w.x7
  }

  lemma Halves(b: block, t: nat, w: Sixteen)
    requires t + 16 <= 80 && WordsFrom(b, t, w)
    ensures EightFrom(b, t, Low(w)) && EightFrom(b, t + 8, High(w))
  {
    hide Schedule;
  }

  /** Eight rounds with these constants and schedule words. */
  function Rounds8(v: state, k: Eight, w: Eight): state {
    hide Round;
    var v4 := Round(Round(Round(Round(v, k.x0, w.x0), k.x1, w.x1), k.x2, w.x2), k.x3, w.x3);
    Round(Round(Round(Round(v4, k.x4, w.x4), k.x5, w.x5), k.x6, w.x6), k.x7, w.x7)
  }

  lemma EightKeys(i: nat)
    requires i < 10
    ensures var k := Keys(i);
            && Constant(8 * i + 0) == k.x0 && Constant(8 * i + 1) == k.x1 && Constant(8 * i + 2) == k.x2
            && Constant(8 * i + 3) == k.x3 && Constant(8 * i + 4) == k.x4 && Constant(8 * i + 5) == k.x5
            && Constant(8 * i + 6) == k.x6 && Constant(8 * i + 7) == k.x7
  {
    hide Keys, Eight.At;
    forall j: nat | j < 8 ensures Constant(8 * i + j) == Keys(i).At(j) {
      assert (8 * i + j) / 8 == i && (8 * i + j) % 8 == j;
    }
    EightAt(Keys(i));
  }

  lemma EightAt(k: Eight)
    ensures k.At(0) == k.x0 && k.At(1) == k.x1 && k.At(2) == k.x2 && k.At(3) == k.x3
    ensures k.At(4) == k.x4 && k.At(5) == k.x5 && k.At(6) == k.x6 && k.At(7) == k.x7
  {
  }

  lemma EightRounds(h: state, b: block, i: nat, w: Eight)
    requires i < 10 && EightFrom(b, 8 * i, w)
    ensures Rounds(h, b, 8 * i + 8) == Rounds8(Rounds(h, b, 8 * i), Keys(i), w)
  {
    hide Round, Rounds, Constant, Schedule, Keys;
    EightKeys(i);
    RoundAt(h, b, 8 * i + 0);
    RoundAt(h, b, 8 * i + 1);
    RoundAt(h, b, 8 * i + 2);
    RoundAt(h, b, 8 * i + 3);
    RoundAt(h, b, 8 * i + 4);
    RoundAt(h, b, 8 * i + 5);
    RoundAt(h, b, 8 * i + 6);
    RoundAt(h, b, 8 * i + 7);
  }

  lemma RoundAt(h: state, b: block, t: nat)
    requires t < 80
    ensures Rounds(h, b, t + 1) == Round(Rounds(h, b, t), Constant(t), Schedule(b, t))
  {
  }

  // ----- the padded block of 32 zero bytes -----

  const ZERO: addr32 := Zeros(32)

  const BLOCK: block := Zeros(32) + [0x80] + Zeros(93) + [1, 0]

  const W0 := Sixteen(
    0x0000000000000000, 0x0000000000000000, 0x0000000000000000, 0x0000000000000000,
    0x8000000000000000, 0x0000000000000000, 0x0000000000000000, 0x0000000000000000,
    0x0000000000000000, 0x0000000000000000, 0x0000000000000000, 0x0000000000000000,
    0x0000000000000000, 0x0000000000000000, 0x0000000000000000, 0x0000000000000100)
  const W1 := Sixteen(
    0x0000000000000000, 0x0020000000000804, 0x0000000000000000, 0x4180000400004000,
    0x8000000000000000, 0x0506081010028102, 0x0200100000000104, 0x7804180001560014,
    0x1048000002001028, 0x01c25f6089b55889, 0xc184220d1008c140, 0x2504d2418460001c,
    0x1c1520e0404a0c04, 0x2ab115e5bf59b171, 0x195de80328a340b0, 0x73544e2c508c6bcf)
  const W2 := Sixteen(
    0xa86ef3f37e6e4a39, 0xd7baf03dccedaf09, 0xcd98639d7155a804, 0xaa7d71be0ea3c373,
    0x863308cceaa6b11f, 0x4c9605bc5bb91777, 0x8381d8d658bbf649, 0x87f4805a6cdc2701,
    0x52b04b315bd5c960, 0xaa37408b39987f7b, 0xa8d38b1132105c1e, 0x1264363c78218664,
    0x9c8f44293298ddad, 0x0e5ca46d5f692790, 0x154ff3eacac0b155, 0x0902b47c31d100e4)
  const W3 := Sixteen(
    0xf24bedbd5b7e7c5e, 0x4c563cc946f7fb3a, 0xe5da753d01e2e4cd, 0xc1887e9a36e6835c,
    0xd80be292e8f726f1, 0xca58b4c44d6ac641, 0x77d7eb1cd3b12521, 0xcd156118335c4f04,
    0xeab0ab2eb7f8d3bf, 0xbe222bc53be592a4, 0x23b9277ef20c2980, 0x8f0f8dead1f01918,
    0x969c8be4e79f6f74, 0xdf2ff9ec62d3b8c8, 0x1e5072c0d8f18eb6, 0xa700f5f4ac47964d)
  const W4 := Sixteen(
    0x909a11ac5acc9d26, 0x7724d0dcaf2ab3c1, 0xc7a6e22dae35b829, 0x6315333073bb1e04,
    0xe5db424fd17e5e8b, 0xfe01f6666d78a922, 0x6952740d8ef375cb, 0x8feae2598309b2f1,
    0x82387440490441b7, 0x62b7ef820635ccad, 0x80e2e4a704df79c5, 0x6180c0a1c69c804d,
    0x25c12dfe41631493, 0x9f16e22dcac34d14, 0x99b0e0fc7f75262a, 0x2c9fea1e0c49d000)

  lemma Words1()
    ensures Next8(Next8(W0)) == W1
  {
  }

  lemma Words2()
    ensures Next8(Next8(W1)) == W2
  {
  }

  lemma Words3()
    ensures Next8(Next8(W2)) == W3
  {
  }

  lemma Words4()
    ensures Next8(Next8(W3)) == W4
  {
  }

  const LAST: state := [
    0x8ce29eb39ce62d79, 0x457104a0a31c25ed, 0x25679beb6be2780f, 0x84c874fcb333fa97,
    0x65825b3b05d10f12, 0x077258e429747ccc, 0x857acafd1c2b2473, 0x799e835ea0a96ccf
  ]

  lemma Run0()
    ensures Rounds8(IV, K0, Low(W0))
      == [0x5d43463ef15e7a87, 0x7b346d2661f254fa, 0xae35728b55b79961, 0xf05cab59108bc6d5,
        0x9aac73d67b50f6cf, 0x6d5d48e010210fd1, 0x32d78d801ba36b14, 0xebcc549737382983]
  {
  }

  lemma Run1()
    ensures Rounds8([0x5d43463ef15e7a87, 0x7b346d2661f254fa, 0xae35728b55b79961, 0xf05cab59108bc6d5,
        0x9aac73d67b50f6cf, 0x6d5d48e010210fd1, 0x32d78d801ba36b14, 0xebcc549737382983], K1, High(W0))
      == [0x3bacc3f69d8a7bbe, 0xcc1856f0c7c788cd, 0xeffbafe0c1011665, 0x78601cd7d828bcb2,
        0x375a1a73aa78aa79, 0xc189a06770f3f276, 0x2a73dec4e108b1f4, 0x9582718ba47d1e41]
  {
  }

  lemma Run2()
    ensures Rounds8([0x3bacc3f69d8a7bbe, 0xcc1856f0c7c788cd, 0xeffbafe0c1011665, 0x78601cd7d828bcb2,
        0x375a1a73aa78aa79, 0xc189a06770f3f276, 0x2a73dec4e108b1f4, 0x9582718ba47d1e41], K2, Low(W1))
      == [0x5a4659e319311400, 0x047ade63b8cc8555, 0x8986d80502557d95, 0x3a12c179b2f821de,
        0x7fcd7bc5ce5ebf4e, 0x022233c0d3c2c504, 0x27ad6202ad3cd7a7, 0xd13d2192416723b6]
  {
  }

  lemma Run3()
    ensures Rounds8([0x5a4659e319311400, 0x047ade63b8cc8555, 0x8986d80502557d95, 0x3a12c179b2f821de,
        0x7fcd7bc5ce5ebf4e, 0x022233c0d3c2c504, 0x27ad6202ad3cd7a7, 0xd13d2192416723b6], K3, High(W1))
      == [0xdcb822c572f9da8f, 0xf4f47a0b6d37bcb7, 0x732ea13fa39466fc, 0x106b39f0e09d584d,
        0xc51013a3f6bf9b32, 0xcafc84ca15b373a3, 0x4eff583d03811650, 0x29045848ef3a3399]
  {
  }

  lemma Run4()
    ensures Rounds8([0xdcb822c572f9da8f, 0xf4f47a0b6d37bcb7, 0x732ea13fa39466fc, 0x106b39f0e09d584d,
        0xc51013a3f6bf9b32, 0xcafc84ca15b373a3, 0x4eff583d03811650, 0x29045848ef3a3399], K4, Low(W2))
      == [0x6373a26727d15101, 0xbb61742b3c4b8be1, 0x1ae1a0507a54a392, 0x3b1184c837410c20,
        0x6b361d4ec810b91a, 0xe66d768875dc4b12, 0x18bf4f869aabdb34, 0xae252289d6b21cdb]
  {
  }

  lemma Run5()
    ensures Rounds8([0x6373a26727d15101, 0xbb61742b3c4b8be1, 0x1ae1a0507a54a392, 0x3b1184c837410c20,
        0x6b361d4ec810b91a, 0xe66d768875dc4b12, 0x18bf4f869aabdb34, 0xae252289d6b21cdb], K5, High(W2))
      == [0x61f81606a03b4e44, 0x0df71cbde08e9935, 0xa7891d3ffcf74950, 0x9f6c95999b4bdb45,
        0x1ffc94caed699ade, 0xd0a3c4e55aeffce6, 0x228f10fb38463dd7, 0xbc211c262a36115c]
  {
  }

  lemma Run6()
    ensures Rounds8([0x61f81606a03b4e44, 0x0df71cbde08e9935, 0xa7891d3ffcf74950, 0x9f6c95999b4bdb45,
        0x1ffc94caed699ade, 0xd0a3c4e55aeffce6, 0x228f10fb38463dd7, 0xbc211c262a36115c], K6, Low(W3))
      == [0x9c4e38c4d7a8c5aa, 0x0179b4146ce6e7c3, 0x7917bd352ebc2af8, 0x462e09011fffeca7,
        0xb62ce44d972e8e46, 0x662c257ca1d4e4a3, 0xa534f31638b09b97, 0x59ad2668b3cdcbf8]
  {
  }

  lemma Run7()
    ensures Rounds8([0x9c4e38c4d7a8c5aa, 0x0179b4146ce6e7c3, 0x7917bd352ebc2af8, 0x462e09011fffeca7,
        0xb62ce44d972e8e46, 0x662c257ca1d4e4a3, 0xa534f31638b09b97, 0x59ad2668b3cdcbf8], K7, High(W3))
      == [0x1540a69ac2b26734, 0xdb38b0f1c4951da3, 0x2bf8d73fc9211ce1, 0x9e74bd49d3024cd5,
        0xfda954ce9c24d5c0, 0x59040d5c3e773286, 0x3cc1dd51e4b5ea87, 0x75267fbbb665f368]
  {
  }

  lemma Run8()
    ensures Rounds8([0x1540a69ac2b26734, 0xdb38b0f1c4951da3, 0x2bf8d73fc9211ce1, 0x9e74bd49d3024cd5,
        0xfda954ce9c24d5c0, 0x59040d5c3e773286, 0x3cc1dd51e4b5ea87, 0x75267fbbb665f368], K8, Low(W4))
      == [0xa21e979bba92a6f1, 0xa4018e8933fe9268, 0x13012973633dc95f, 0xba6533966c4c0721,
        0xc43ae47701a31ed5, 0xefe1019eb756743b, 0x7a7fea7cd94b10c8, 0x68ee62c37a73354d]
  {
  }

  lemma Run9()
    ensures Rounds8([0xa21e979bba92a6f1, 0xa4018e8933fe9268, 0x13012973633dc95f, 0xba6533966c4c0721,
        0xc43ae47701a31ed5, 0xefe1019eb756743b, 0x7a7fea7cd94b10c8, 0x68ee62c37a73354d], K9, High(W4))
      == LAST
  {
  }

  lemma FirstWords()
    ensures WordsFrom(BLOCK, 0, W0)
  {
    hide Schedule, BLOCK;
    ZeroWord(0);
    ZeroWord(1);
    ZeroWord(2);
    ZeroWord(3);
    ZeroWord(5);
    ZeroWord(6);
    ZeroWord(7);
    ZeroWord(8);
    ZeroWord(9);
    ZeroWord(10);
    ZeroWord(11);
    ZeroWord(12);
    ZeroWord(13);
    ZeroWord(14);
    PadWord();
    LengthWord();
  }

  lemma WordIs(t: nat, p: bytes, x: word)
    requires t < 16 && |p| == 8 && BLOCK[8 * t..8 * t + 8] == p && WordValue(p) == Number(x)
    ensures Schedule(BLOCK, t) == x
  {
    hide WordValue, BLOCK;
    assert (x as int) as bv64 == x;
  }

  lemma ZeroWord(t: nat)
    requires t < 15 && t != 4
    ensures Schedule(BLOCK, t) == 0
  {
    hide Schedule;
    assert BLOCK[8 * t..8 * t + 8] == [0, 0, 0, 0, 0, 0, 0, 0];
    WordIs(t, [0, 0, 0, 0, 0, 0, 0, 0], 0);
  }

  lemma PadWord()
    ensures Schedule(BLOCK, 4) == 0x8000000000000000
  {
    hide Schedule;
    assert BLOCK[32..40] == [0x80, 0, 0, 0, 0, 0, 0, 0];
    WordIs(4, [0x80, 0, 0, 0, 0, 0, 0, 0], 0x8000000000000000);
  }

  lemma LengthWord()
    ensures Schedule(BLOCK, 15) == 0x100
  {
    hide Schedule;
    assert BLOCK[120..128] == [0, 0, 0, 0, 0, 0, 1, 0];
    WordIs(15, [0, 0, 0, 0, 0, 0, 1, 0], 0x100);
  }

  lemma LastRound()
    ensures Rounds(IV, BLOCK, 80)
      == LAST
  {
    hide *;
    FirstWords();
    NoRoundsYet(IV, BLOCK);
    KeyRows();
    Halves(BLOCK, 0, W0);
    EightRounds(IV, BLOCK, 0, Low(W0));
    EightRounds(IV, BLOCK, 1, High(W0));
    Run0();
    Run1();
    NextWords(BLOCK, 0, W0);
    NextWords(BLOCK, 8, Next8(W0));
    Words1();
    Halves(BLOCK, 16, W1);
    EightRounds(IV, BLOCK, 2, Low(W1));
    EightRounds(IV, BLOCK, 3, High(W1));
    Run2();
    Run3();
    NextWords(BLOCK, 16, W1);
    NextWords(BLOCK, 24, Next8(W1));
    Words2();
    Halves(BLOCK, 32, W2);
    EightRounds(IV, BLOCK, 4, Low(W2));
    EightRounds(IV, BLOCK, 5, High(W2));
    Run4();
    Run5();
    NextWords(BLOCK, 32, W2);
    NextWords(BLOCK, 40, Next8(W2));
    Words3();
    Halves(BLOCK, 48, W3);
    EightRounds(IV, BLOCK, 6, Low(W3));
    EightRounds(IV, BLOCK, 7, High(W3));
    Run6();
    Run7();
    NextWords(BLOCK, 48, W3);
    NextWords(BLOCK, 56, Next8(W3));
    Words4();
    Halves(BLOCK, 64, W4);
    EightRounds(IV, BLOCK, 8, Low(W4));
    EightRounds(IV, BLOCK, 9, High(W4));
    Run8();
    Run9();
  }

  lemma KeyRows()
    ensures Keys(0) == K0 && Keys(1) == K1 && Keys(2) == K2 && Keys(3) == K3 && Keys(4) == K4
    ensures Keys(5) == K5 && Keys(6) == K6 && Keys(7) == K7 && Keys(8) == K8 && Keys(9) == K9
  {
  }

  lemma NoRoundsYet(h: state, b: block)
    ensures Rounds(h, b, 0) == h
  {
  }

  lemma PaddedZero()
    ensures Pad(ZERO) == BLOCK
  {
    LengthOf();
    assert ZeroPad(32) == 79;
    hide BigEndian;
  }

  lemma LengthOf()
    ensures BigEndian(256, 16) == Zeros(14) + [1, 0]
  {
    hide BigEndian;
    ZeroBytes(14);
    OneMoreByte(0, 1, 14);
    OneMoreByte(1, 0, 15);
  }

  lemma {:induction false} ZeroBytes(k: nat)
    ensures BigEndian(0, k) == Zeros(k)
  {
    if k == 0 {
    } else {
      ZeroBytes(k - 1);
    }
  }

  lemma OneMoreByte(v: nat, d: uint8, k: nat)
    ensures BigEndian(v * 256 + d, k + 1) == BigEndian(v, k) + [d]
  {
  }

  /** The bytes of a word are the eight bytes whose value it is. */
  lemma BytesOf(w: word, p: bytes)
    requires |p| == 8 && Number(w) == WordValue(p)
    ensures WordBytes(w) == p
  {
    hide BigEndian, Number;
    var v1: nat := p[0] as int * 256 + p[1];
    var v2 := v1 * 256 + p[2];
    var v3 := v2 * 256 + p[3];
    var v4 := v3 * 256 + p[4];
    var v5 := v4 * 256 + p[5];
    var v6 := v5 * 256 + p[6];
    ZeroBytes(0);
    OneMoreByte(0, p[0], 0);
    OneMoreByte(p[0], p[1], 1);
    OneMoreByte(v1, p[2], 2);
    OneMoreByte(v2, p[3], 3);
    OneMoreByte(v3, p[4], 4);
    OneMoreByte(v4, p[5], 5);
    OneMoreByte(v5, p[6], 6);
    OneMoreByte(v6, p[7], 7);
  }

  lemma OneBlock(b: block)
    ensures HashBlocks(b) == Compress(IV, b)
  {
    assert b[..|b| - 128] == [] && b[|b| - 128..] == b;
    hide Compress;
  }

  lemma FinalWords()
    ensures AddStates(IV, LAST)[0] == 0xaf13c048991224a5 && AddStates(IV, LAST)[1] == 0xe4c664446b688aaf
    ensures AddStates(IV, LAST)[2] == 0x48fb5456db362960 && AddStates(IV, LAST)[3] == 0x1b00ec160c74e554
  {
  }

  lemma HashBytes()
    ensures WordBytes(0xaf13c048991224a5) == [0xaf, 0x13, 0xc0, 0x48, 0x99, 0x12, 0x24, 0xa5]
    ensures WordBytes(0xe4c664446b688aaf) == [0xe4, 0xc6, 0x64, 0x44, 0x6b, 0x68, 0x8a, 0xaf]
    ensures WordBytes(0x48fb5456db362960) == [0x48, 0xfb, 0x54, 0x56, 0xdb, 0x36, 0x29, 0x60]
    ensures WordBytes(0x1b00ec160c74e554) == [0x1b, 0x00, 0xec, 0x16, 0x0c, 0x74, 0xe5, 0x54]
  {
    hide WordBytes;
    BytesOf(0xaf13c048991224a5, [0xaf, 0x13, 0xc0, 0x48, 0x99, 0x12, 0x24, 0xa5]);
    BytesOf(0xe4c664446b688aaf, [0xe4, 0xc6, 0x64, 0x44, 0x6b, 0x68, 0x8a, 0xaf]);
    BytesOf(0x48fb5456db362960, [0x48, 0xfb, 0x54, 0x56, 0xdb, 0x36, 0x29, 0x60]);
    BytesOf(0x1b00ec160c74e554, [0x1b, 0x00, 0xec, 0x16, 0x0c, 0x74, 0xe5, 0x54]);
  }

  /** The SHA-512/256 of 32 zero bytes. */
  lemma ZeroHash()
    ensures Sha512_256(ZERO)
         == [0xaf, 0x13, 0xc0, 0x48, 0x99, 0x12, 0x24, 0xa5, 0xe4, 0xc6, 0x64, 0x44, 0x6b, 0x68, 0x8a, 0xaf,
             0x48, 0xfb, 0x54, 0x56, 0xdb, 0x36, 0x29, 0x60, 0x1b, 0x00, 0xec, 0x16, 0x0c, 0x74, 0xe5, 0x54]
  {
    hide WordBytes, Pad, HashBlocks, AddStates, Rounds, ZERO, BLOCK, LAST, IV;
    PaddedZero();
    OneBlock(BLOCK);
    LastRound();
    FinalWords();
    HashBytes();
  }

  // ----- the zero address -----

  function As(n: nat): (r: string)
    ensures |r| == n
  {
    seq(n, _ => 'A')
  }

  lemma ZeroChecksum()
    ensures Checksum(ZERO) == [0x0c, 0x74, 0xe5, 0x54]
  {
    hide Sha512_256, ZERO;
    ZeroHash();
  }

  lemma LeadingZeros(z: seq<int>, t: seq<int>, base: nat)
    requires base >= 1 && forall i :: 0 <= i < |z| ==> z[i] == 0
    ensures Value(z + t, base) == Value(t, base)
  {
    ValueConcat(z, t, base);
    ZerosValue(z, base);
    hide Value, Power;
  }

  /** The string's indices: 52 zeros and six others. */
  lemma ZeroDigits(s: string)
    requires s == As(52) + "Y5HFKQ"
    ensures forall c :: c in s ==> InAlphabet(c)
    ensures DigitsOf(s) == seq(52, _ => 0) + [24, 29, 7, 5, 10, 16]
  {
    forall i | 0 <= i < 52 ensures s[i] == 'A' {
      assert s[i] == As(52)[i];
    }
    assert s[52..] == "Y5HFKQ";
    assert s[52] == 'Y' && s[53] == '5' && s[54] == 'H' && s[55] == 'F' && s[56] == 'K' && s[57] == 'Q';
  }

  lemma SixDigits()
    ensures Value([24, 29, 7, 5, 10, 16], 32) == Value([0x0c, 0x74, 0xe5, 0x54], 256) * 4
  {
    ValueOfFour(0x0c, 0x74, 0xe5, 0x54);
    ValueOfSix(24, 29, 7, 5, 10, 16);
  }

  lemma ValueOfFour(a: int, b: int, c: int, d: int)
    ensures Value([a, b, c, d], 256) == ((a * 256 + b) * 256 + c) * 256 + d
  {
    assert [a, b, c, d] == [] + [a] + [b] + [c] + [d];
    ValueAppend([], a, 256);
    ValueAppend([] + [a], b, 256);
    ValueAppend([] + [a] + [b], c, 256);
    ValueAppend([] + [a] + [b] + [c], d, 256);
  }

  lemma ValueOfSix(a: int, b: int, c: int, d: int, e: int, f: int)
    ensures Value([a, b, c, d, e, f], 32) == ((((a * 32 + b) * 32 + c) * 32 + d) * 32 + e) * 32 + f
  {
    assert [a, b, c, d, e, f] == [] + [a] + [b] + [c] + [d] + [e] + [f];
    ValueAppend([], a, 32);
    ValueAppend([] + [a], b, 32);
    ValueAppend([] + [a] + [b], c, 32);
    ValueAppend([] + [a] + [b] + [c], d, 32);
    ValueAppend([] + [a] + [b] + [c] + [d], e, 32);
    ValueAppend([] + [a] + [b] + [c] + [d] + [e], f, 32);
  }

  /** The zero address in characters. */
  lemma ZeroAddress()
    ensures Display(ZERO) == As(52) + "Y5HFKQ"
  {
    hide Checksum, Indices, Letters, DigitsOf, As, Value;
    ZeroChecksum();
    var s := ZERO + [0x0c, 0x74, 0xe5, 0x54];
    var text := As(52) + "Y5HFKQ";
    ZeroDigits(text);
    IndicesValue(s);
    assert |PadBits(288)| == 2 && Power(2, 2) == 4;
    LeadingZeros(ZERO, [0x0c, 0x74, 0xe5, 0x54], 256);
    LeadingZeros(seq(52, _ => 0), [24, 29, 7, 5, 10, 16], 32);
    SixDigits();
    ValueInjective(Indices(s), DigitsOf(text), 32);
    LettersMatch(Indices(s), text);
  }

  // ----- the mnemonic of the zero key -----

  /** n copies of a text. */
  function Copies(n: nat, s: string): string {
    if n == 0 then "" else Copies(n - 1, s) + s
  }

  lemma {:induction false} SpacedCopies(n: nat, w: string)
    ensures Words.Spaced(seq(n, _ => w)) == Copies(n, w + " ")
  {
    var ws := seq(n, _ => w);
    if n == 0 {
    } else {
      assert ws[..n - 1] == seq(n - 1, _ => w);
      SpacedCopies(n - 1, w);
    }
  }

  lemma ZeroIndex()
    ensures Mnemonic.ChecksumIndex(ZERO) == 943
  {
    hide Sha512_256, ZERO;
    ZeroHash();
  }

  lemma {:induction false} ZeroLittle(z: seq<int>, base: nat)
    requires forall i :: 0 <= i < |z| ==> z[i] == 0
    ensures Little(z, base) == 0
  {
    if z == [] {
    } else {
      ZeroLittle(z[1..], base);
    }
  }

  lemma ZeroPacked()
    ensures Repack.Packed(ZERO) == seq(24, _ => 0)
  {
    ZeroLittle(ZERO, 256);
    ZeroLittle(seq(24, _ => 0), 2048);
    DigitsOfLittle(seq(24, _ => 0), 2048);
  }

  /** The zero key's text: the first word 24 times, and word 943. */
  lemma ZeroMnemonic(list: seq<string>)
    requires |list| == 2048
    ensures Words.Join(Mnemonic.MnemonicWords(list, ZERO)) == Copies(24, list[0] + " ") + list[943]
  {
    hide Mnemonic.ChecksumIndex, Repack.Packed, ZERO, Copies;
    ZeroIndex();
    ZeroPacked();
    SpacedCopies(24, list[0]);
    var ws := Mnemonic.MnemonicWords(list, ZERO);
    assert ws[..24] == seq(24, _ => list[0]) && ws[24] == list[943];
  }
}
