/**
 The hash of the message "abc", step by step: the value that FIPS 180-4 is published with.  It shows
 that the functions of `Sha256` are put together in the right order.
 */
module Sha256Vectors {
  import opened Bytes
  import opened Sha256

  const ABC: seq<byte> := ['a' as byte, 'b' as byte, 'c' as byte]

  /** The single block of the padded message. */
  function AbcBlock(): (block: seq<byte>)
    ensures |block| == BLOCK
  {
    ABC + [0x80] + Zeros(59) + [24]
  }

  lemma AbcPadded()
    ensures Pad(ABC) == AbcBlock()
  {
    assert BigEndian(24, 8) == [0, 0, 0, 0, 0, 0, 0, 24];
    assert Zeros(52) + BigEndian(24, 8) == Zeros(59) + [24];
  }

  // ---- The message schedule ----------------------------------------------------------------------

  function W(t: nat): Word
    requires t < 64
  {
    Schedule(AbcBlock(), 64)[t]
  }

  lemma {:induction false} ScheduleSettled(block: seq<byte>, n: nat, t: nat)
    requires |block| == BLOCK && t < n
    ensures Schedule(block, n)[t] == Schedule(block, t + 1)[t]
  {
    if t + 1 < n {
      ScheduleSettled(block, n - 1, t);
    }
  }

  lemma FirstWords(t: nat)
    requires t < 16
    ensures W(t) == BlockWord(AbcBlock(), t)
  {
    hide BlockWord, AbcBlock, NextWord;
    ScheduleSettled(AbcBlock(), 64, t);
  }

  lemma NextIs(block: seq<byte>, t: nat)
    requires |block| == BLOCK && 16 <= t < 64
    ensures Schedule(block, 64)[t] == NextWord(Schedule(block, t))
  {
    hide BlockWord, NextWord;
    ScheduleSettled(block, 64, t);
  }

  /** The recurrence of section 6.2.2, step 1. */
  lemma LaterWords(t: nat)
    requires 16 <= t < 64
    ensures W(t) == Add(Add(Add(Sig1(W(t - 2)), W(t - 7)), Sig0(W(t - 15))), W(t - 16))
  {
    hide Schedule, AbcBlock, Sig0, Sig1, Add;
    NextIs(AbcBlock(), t);
    Earlier(t, t - 2);
    Earlier(t, t - 7);
    Earlier(t, t - 15);
    Earlier(t, t - 16);
  }

  lemma Earlier(t: nat, s: nat)
    requires s < t < 64
    ensures Schedule(AbcBlock(), t)[s] == W(s)
  {
    hide Schedule, AbcBlock;
    ScheduleSettled(AbcBlock(), 64, s);
    ScheduleSettled(AbcBlock(), t, s);
  }

  lemma BytesOfBlock()
    ensures AbcBlock()[..4] == [97, 98, 99, 0x80]
    ensures forall i :: 4 <= i < 63 ==> AbcBlock()[i] == 0
    ensures AbcBlock()[63] == 24
  {
  }

  lemma Words0()
    ensures W(0) == 0x61626380 && forall t :: 1 <= t < 15 ==> W(t) == 0
    ensures W(15) == 24
  {
    hide W, AbcBlock;
    BytesOfBlock();
    FirstWords(0);
    FirstWords(15);
    forall t | 1 <= t < 15
      ensures W(t) == 0
    {
      FirstWords(t);
    }
  }

  lemma Words2()
    ensures W(16) == 0x61626380 && W(17) == 0x000f0000
    ensures W(18) == 0x7da86405 && W(19) == 0x600003c6
    ensures W(20) == 0x3e9d7b78 && W(21) == 0x0183fc00
    ensures W(22) == 0x12dcbfdb && W(23) == 0xe2e2c38e
  {
    hide W;
    Words0();
    LaterWords(16);
    LaterWords(17);
    LaterWords(18);
    LaterWords(19);
    LaterWords(20);
    LaterWords(21);
    LaterWords(22);
    LaterWords(23);
  }

  lemma Words3()
    ensures W(24) == 0xc8215c1a && W(25) == 0xb73679a2
    ensures W(26) == 0xe5bc3909 && W(27) == 0x32663c5b
    ensures W(28) == 0x9d209d67 && W(29) == 0xec8726cb
    ensures W(30) == 0x702138a4 && W(31) == 0xd3b7973b
  {
    hide W;
    Words0();
    Words2();
    LaterWords(24);
    LaterWords(25);
    LaterWords(26);
    LaterWords(27);
    LaterWords(28);
    LaterWords(29);
    LaterWords(30);
    LaterWords(31);
  }

  lemma Words4()
    ensures W(32) == 0x93f5997f && W(33) == 0x3b68ba73
    ensures W(34) == 0xaff4ffc1 && W(35) == 0xf10a5c62
    ensures W(36) == 0x0a8b3996 && W(37) == 0x72af830a
    ensures W(38) == 0x9409e33e && W(39) == 0x24641522
  {
    hide W;
    Words2();
    Words3();
    LaterWords(32);
    LaterWords(33);
    LaterWords(34);
    LaterWords(35);
    LaterWords(36);
    LaterWords(37);
    LaterWords(38);
    LaterWords(39);
  }

  lemma Words5()
    ensures W(40) == 0x9f47bf94 && W(41) == 0xf0a64f5a
    ensures W(42) == 0x3e246a79 && W(43) == 0x27333ba3
    ensures W(44) == 0x0c4763f2 && W(45) == 0x840abf27
    ensures W(46) == 0x7a290d5d && W(47) == 0x065c43da
  {
    hide W;
    Words3();
    Words4();
    LaterWords(40);
    LaterWords(41);
    LaterWords(42);
    LaterWords(43);
    LaterWords(44);
    LaterWords(45);
    LaterWords(46);
    LaterWords(47);
  }

  lemma Words6()
    ensures W(48) == 0xfb3e89cb && W(49) == 0xcc7617db
    ensures W(50) == 0xb9e66c34 && W(51) == 0xa9993667
    ensures W(52) == 0x84badedd && W(53) == 0xc21462bc
    ensures W(54) == 0x1487472c && W(55) == 0xb20f7a99
  {
    hide W;
    Words4();
    Words5();
    LaterWords(48);
    LaterWords(49);
    LaterWords(50);
    LaterWords(51);
    LaterWords(52);
    LaterWords(53);
    LaterWords(54);
    LaterWords(55);
  }

  lemma Words7()
    ensures W(56) == 0xef57b9cd && W(57) == 0xebe6b238
    ensures W(58) == 0x9fe3095e && W(59) == 0x78bc8d4b
    ensures W(60) == 0xa43fcf15 && W(61) == 0x668b2ff8
    ensures W(62) == 0xeeaba2cc && W(63) == 0x12b1edeb
  {
    hide W;
    Words5();
    Words6();
    LaterWords(56);
    LaterWords(57);
    LaterWords(58);
    LaterWords(59);
    LaterWords(60);
    LaterWords(61);
    LaterWords(62);
    LaterWords(63);
  }

  // ---- The rounds --------------------------------------------------------------------------------

  /** The working variables before round `n`. */
  function At(n: nat): Vars
    requires n <= 64
  {
    Rounds(VarsOf(INITIAL), Schedule(AbcBlock(), 64), n)
  }

  lemma OneRound(n: nat)
    requires n < 64
    ensures At(n + 1) == Round(At(n), K[n], W(n))
  {
  }

  lemma AtStart()
    ensures At(0) == Vars(0x6a09e667, 0xbb67ae85, 0x3c6ef372, 0xa54ff53a,
                          0x510e527f, 0x9b05688c, 0x1f83d9ab, 0x5be0cd19)
  {
  }

  lemma Constants0()
    ensures |K| == 64
    ensures K[0] == 0x428a2f98 && K[1] == 0x71374491 && K[2] == 0xb5c0fbcf && K[3] == 0xe9b5dba5
    ensures K[4] == 0x3956c25b && K[5] == 0x59f111f1 && K[6] == 0x923f82a4 && K[7] == 0xab1c5ed5
  {
  }

  lemma Constants1()
    ensures |K| == 64
    ensures K[8] == 0xd807aa98 && K[9] == 0x12835b01 && K[10] == 0x243185be && K[11] == 0x550c7dc3
    ensures K[12] == 0x72be5d74 && K[13] == 0x80deb1fe && K[14] == 0x9bdc06a7 && K[15] == 0xc19bf174
  {
  }

  lemma Constants2()
    ensures |K| == 64
    ensures K[16] == 0xe49b69c1 && K[17] == 0xefbe4786 && K[18] == 0x0fc19dc6 && K[19] == 0x240ca1cc
    ensures K[20] == 0x2de92c6f && K[21] == 0x4a7484aa && K[22] == 0x5cb0a9dc && K[23] == 0x76f988da
  {
  }

  lemma Constants3()
    ensures |K| == 64
    ensures K[24] == 0x983e5152 && K[25] == 0xa831c66d && K[26] == 0xb00327c8 && K[27] == 0xbf597fc7
    ensures K[28] == 0xc6e00bf3 && K[29] == 0xd5a79147 && K[30] == 0x06ca6351 && K[31] == 0x14292967
  {
  }

  lemma Constants4()
    ensures |K| == 64
    ensures K[32] == 0x27b70a85 && K[33] == 0x2e1b2138 && K[34] == 0x4d2c6dfc && K[35] == 0x53380d13
    ensures K[36] == 0x650a7354 && K[37] == 0x766a0abb && K[38] == 0x81c2c92e && K[39] == 0x92722c85
  {
  }

  lemma Constants5()
    ensures |K| == 64
    ensures K[40] == 0xa2bfe8a1 && K[41] == 0xa81a664b && K[42] == 0xc24b8b70 && K[43] == 0xc76c51a3
    ensures K[44] == 0xd192e819 && K[45] == 0xd6990624 && K[46] == 0xf40e3585 && K[47] == 0x106aa070
  {
  }

  lemma Constants6()
    ensures |K| == 64
    ensures K[48] == 0x19a4c116 && K[49] == 0x1e376c08 && K[50] == 0x2748774c && K[51] == 0x34b0bcb5
    ensures K[52] == 0x391c0cb3 && K[53] == 0x4ed8aa4a && K[54] == 0x5b9cca4f && K[55] == 0x682e6ff3
  {
  }

  lemma Constants7()
    ensures |K| == 64
    ensures K[56] == 0x748f82ee && K[57] == 0x78a5636f && K[58] == 0x84c87814 && K[59] == 0x8cc70208
    ensures K[60] == 0x90befffa && K[61] == 0xa4506ceb && K[62] == 0xbef9a3f7 && K[63] == 0xc67178f2
  {
  }

  lemma Rounds0()
    ensures At(4) == Vars(0xd550f666, 0xc8c347a7, 0x5a6ad9ad, 0x5d6aebcd,
                         0x24e00850, 0xf92939eb, 0x78ce7989, 0xfa2a4622)
  {
    hide At, W, K;
    Constants0();
    AtStart();
    Words0();
    OneRound(0);
    OneRound(1);
    OneRound(2);
    OneRound(3);
  }

  lemma Rounds1()
    ensures At(8) == Vars(0x85a07b5f, 0xe5030380, 0x2b4209f5, 0x04409a6a,
                         0x0c657a79, 0x9b27a401, 0x714260ad, 0x43ada245)
  {
    hide At, W, K;
    Constants0();
    Rounds0();
    Words0();
    OneRound(4);
    OneRound(5);
    OneRound(6);
    OneRound(7);
  }

  lemma Rounds2()
    ensures At(12) == Vars(0xf71fc5a9, 0x4798a3f4, 0x8c87346b, 0x8e04ecb9,
                          0x816fd6e9, 0x436b23e8, 0x1cc92596, 0x32ca2d8c)
  {
    hide At, W, K;
    Constants1();
    Rounds1();
    Words0();
    OneRound(8);
    OneRound(9);
    OneRound(10);
    OneRound(11);
  }

  lemma Rounds3()
    ensures At(16) == Vars(0xb0fa238e, 0xc0645fde, 0xd932eb16, 0x87912990,
                          0x07590dcd, 0x0b92f20c, 0x745a48de, 0x1e578218)
  {
    hide At, W, K;
    Constants1();
    Rounds2();
    Words0();
    OneRound(12);
    OneRound(13);
    OneRound(14);
    OneRound(15);
  }

  lemma Rounds4()
    ensures At(20) == Vars(0xe1f20c33, 0xfe777bbf, 0xc2fbd9d1, 0x21da9a9b,
                          0xb0638179, 0xcc899961, 0x846ee454, 0x8034229c)
  {
    hide At, W, K;
    Constants2();
    Rounds3();
    Words2();
    OneRound(16);
    OneRound(17);
    OneRound(18);
    OneRound(19);
  }

  lemma Rounds5()
    ensures At(24) == Vars(0xc5d53d8d, 0xa7a3623f, 0xc2606d6d, 0x9dc68b63,
                          0xaa47c347, 0x49f5114a, 0xe1257970, 0x8ada8930)
  {
    hide At, W, K;
    Constants2();
    Rounds4();
    Words2();
    OneRound(20);
    OneRound(21);
    OneRound(22);
    OneRound(23);
  }

  lemma Rounds6()
    ensures At(28) == Vars(0x77d37528, 0xb62ec4bc, 0xcde8037d, 0x1c2c2838,
                          0xedffbff8, 0xc74c6516, 0x14383d8e, 0x2823ef91)
  {
    hide At, W, K;
    Constants3();
    Rounds5();
    Words3();
    OneRound(24);
    OneRound(25);
    OneRound(26);
    OneRound(27);
  }

  lemma Rounds7()
    ensures At(32) == Vars(0x73b33bf5, 0xea992a22, 0xa0060b30, 0x363482c9,
                          0xba591112, 0x0109ab3a, 0xade79437, 0x6112a3b7)
  {
    hide At, W, K;
    Constants3();
    Rounds6();
    Words3();
    OneRound(28);
    OneRound(29);
    OneRound(30);
    OneRound(31);
  }

  lemma Rounds8()
    ensures At(36) == Vars(0x65a0cfe4, 0xa9a7738c, 0xfe604df5, 0x98e12507,
                          0xf4b002d6, 0x085f3833, 0x59249dd3, 0x9cd9f5f6)
  {
    hide At, W, K;
    Constants4();
    Rounds7();
    Words4();
    OneRound(32);
    OneRound(33);
    OneRound(34);
    OneRound(35);
  }

  lemma Rounds9()
    ensures At(40) == Vars(0x79ea687a, 0x6dc57a8a, 0x34df1604, 0x41a65cb1,
                          0x1efbc0a0, 0xf0781bc8, 0xa507a53d, 0x0772a26b)
  {
    hide At, W, K;
    Constants4();
    Rounds8();
    Words4();
    OneRound(36);
    OneRound(37);
    OneRound(38);
    OneRound(39);
  }

  lemma Rounds10()
    ensures At(44) == Vars(0x9d4baf93, 0x17aa0dfe, 0xdf46652f, 0xd6670766,
                          0xfda24c2e, 0xdecd4715, 0x838b2711, 0x26352d63)
  {
    hide At, W, K;
    Constants5();
    Rounds9();
    Words5();
    OneRound(40);
    OneRound(41);
    OneRound(42);
    OneRound(43);
  }

  lemma Rounds11()
    ensures At(48) == Vars(0x4172328d, 0xa14c14b0, 0x72ab4b91, 0x26628815,
                          0xfecf0bc6, 0xd57b94a9, 0xb7755da1, 0xa80f11f0)
  {
    hide At, W, K;
    Constants5();
    Rounds10();
    Words5();
    OneRound(44);
    OneRound(45);
    OneRound(46);
    OneRound(47);
  }

  lemma Rounds12()
    ensures At(52) == Vars(0x886e7a22, 0x7a0508a1, 0xf11bfaa8, 0x05757ceb,
                          0x49231c1e, 0x52f1ccf7, 0x6e5c390c, 0xbd714038)
  {
    hide At, W, K;
    Constants6();
    Rounds11();
    Words6();
    OneRound(48);
    OneRound(49);
    OneRound(50);
    OneRound(51);
  }

  lemma Rounds13()
    ensures At(56) == Vars(0x38cc9913, 0x3ec45cdb, 0xf5702fdb, 0x101fd28f,
                          0x54cb266b, 0xe50e1b4f, 0x9f4787c3, 0x529e7d00)
  {
    hide At, W, K;
    Constants6();
    Rounds12();
    Words6();
    OneRound(52);
    OneRound(53);
    OneRound(54);
    OneRound(55);
  }

  lemma Rounds14()
    ensures At(60) == Vars(0xb6ae8fff, 0xffb70472, 0xc062d46f, 0xfcd1887b,
                          0xb21bad3d, 0x6d83bfc6, 0x7e44008e, 0x9b5e906c)
  {
    hide At, W, K;
    Constants7();
    Rounds13();
    Words7();
    OneRound(56);
    OneRound(57);
    OneRound(58);
    OneRound(59);
  }

  lemma Rounds15()
    ensures At(64) == Vars(0x506e3058, 0xd39a2165, 0x04d24d6c, 0xb85e2ce9,
                          0x5ef50f24, 0xfb121210, 0x948d25b6, 0x961f4894)
  {
    hide At, W, K;
    Constants7();
    Rounds14();
    Words7();
    OneRound(60);
    OneRound(61);
    OneRound(62);
    OneRound(63);
  }

  lemma OneBlock(h: seq<Word>, block: seq<byte>)
    requires |h| == 8 && |block| == BLOCK
    ensures HashBlocks(h, block) == Compress(h, block)
  {
    hide Compress;
    assert [] + block == block;
    HashOneMore(h, [], block);
  }

  lemma HashOfAbc()
    ensures HashBlocks(INITIAL, Pad(ABC))
         == [0xba7816bf, 0x8f01cfea, 0x414140de, 0x5dae2223, 0xb00361a3, 0x96177a9c, 0xb410ff61, 0xf20015ad]
  {
    hide Schedule, AbcBlock, Rounds, Pad, HashBlocks;
    AbcPadded();
    OneBlock(INITIAL, AbcBlock());
    Rounds15();
  }

  lemma BytesOf(w: Word, b0: byte, b1: byte, b2: byte, b3: byte)
    requires TopByte(w, 24) == b0 && TopByte(w, 16) == b1 && TopByte(w, 8) == b2 && TopByte(w, 0) == b3
    ensures ToBytes(w) == [b0, b1, b2, b3]
  {
    hide TopByte;
  }

  lemma DigestNext(h: seq<Word>, n: nat)
    requires n < |h|
    ensures DigestBytes(h[..n + 1]) == DigestBytes(h[..n]) + ToBytes(h[n])
  {
    hide ToBytes;
    assert h[..n + 1][..n] == h[..n];
  }

  lemma DigestOfFour(h: seq<Word>)
    requires |h| == 8
    ensures DigestBytes(h[..4]) == ToBytes(h[0]) + ToBytes(h[1]) + ToBytes(h[2]) + ToBytes(h[3])
  {
    hide ToBytes, DigestBytes;
    NothingToWrite(h);
    DigestNext(h, 0);
    DigestNext(h, 1);
    DigestNext(h, 2);
    DigestNext(h, 3);
    assert [] + ToBytes(h[0]) == ToBytes(h[0]);
  }

  lemma DigestOfEight(h: seq<Word>)
    requires |h| == 8
    ensures DigestBytes(h) == ToBytes(h[0]) + ToBytes(h[1]) + ToBytes(h[2]) + ToBytes(h[3])
                            + ToBytes(h[4]) + ToBytes(h[5]) + ToBytes(h[6]) + ToBytes(h[7])
  {
    hide ToBytes, DigestBytes;
    DigestOfFour(h);
    DigestNext(h, 4);
    DigestNext(h, 5);
    DigestNext(h, 6);
    DigestNext(h, 7);
    WholeHash(h);
  }

  lemma WholeHash(h: seq<Word>)
    requires |h| == 8
    ensures h[..8] == h
  {
  }

  lemma NothingToWrite(h: seq<Word>)
    ensures DigestBytes(h[..0]) == []
  {
  }

  /** The digest of "abc". */
  lemma Sha256OfAbc()
    ensures Sha256.Sha256(ABC) == [
      0xba, 0x78, 0x16, 0xbf, 0x8f, 0x01, 0xcf, 0xea,
      0x41, 0x41, 0x40, 0xde, 0x5d, 0xae, 0x22, 0x23,
      0xb0, 0x03, 0x61, 0xa3, 0x96, 0x17, 0x7a, 0x9c,
      0xb4, 0x10, 0xff, 0x61, 0xf2, 0x00, 0x15, 0xad
    ]
  {
    hide HashBlocks, Pad, ToBytes, DigestBytes;
    HashOfAbc();
    var h := HashBlocks(INITIAL, Pad(ABC));
    DigestOfEight(h);
    BytesOf(0xba7816bf, 0xba, 0x78, 0x16, 0xbf);
    BytesOf(0x8f01cfea, 0x8f, 0x01, 0xcf, 0xea);
    BytesOf(0x414140de, 0x41, 0x41, 0x40, 0xde);
    BytesOf(0x5dae2223, 0x5d, 0xae, 0x22, 0x23);
    BytesOf(0xb00361a3, 0xb0, 0x03, 0x61, 0xa3);
    BytesOf(0x96177a9c, 0x96, 0x17, 0x7a, 0x9c);
    BytesOf(0xb410ff61, 0xb4, 0x10, 0xff, 0x61);
    BytesOf(0xf20015ad, 0xf2, 0x00, 0x15, 0xad);
  }
}
