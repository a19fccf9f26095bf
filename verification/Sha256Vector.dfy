/** The digest of "abc", the example of appendix B.1 of FIPS 180-2, followed round by round. */
module Sha256Vector {
  import opened BitTurns
  import opened BitVectors
  import opened CWord
  import opened Endian
  import opened Sha256Spec

  function Xor3(a: bv32, b: bv32, c: bv32): bv32
  {
    XorWord(XorWord(a, b), c)
  }

  lemma Xor3Is(a: bv32, b: bv32, c: bv32)
    ensures Xor(Xor(Word(a), Word(b)), Word(c)) == Word(Xor3(a, b, c))
  {
    hide Word, Xor, XorWord;
    WordOperators(a, b);
    WordOperators(XorWord(a, b), c);
  }

  function Sum0(a: bv32): bv32
  {
    Xor3(R2(a), R13(a), R22(a))
  }

  lemma BigSigma0Is(a: bv32)
    ensures BigSigma0(Word(a)) == Word(Sum0(a))
  {
    hide Word, R2, R13, R22, Xor3, Rotr, Xor;
    R2Is(a);
    R13Is(a);
    R22Is(a);
    Xor3Is(R2(a), R13(a), R22(a));
  }

  function Sum1(e: bv32): bv32
  {
    Xor3(R6(e), R11(e), R25(e))
  }

  lemma BigSigma1Is(e: bv32)
    ensures BigSigma1(Word(e)) == Word(Sum1(e))
  {
    hide Word, R6, R11, R25, Xor3, Rotr, Xor;
    R6Is(e);
    R11Is(e);
    R25Is(e);
    Xor3Is(R6(e), R11(e), R25(e));
  }

  function Small0(w: bv32): bv32
  {
    Xor3(R7(w), R18(w), S3(w))
  }

  lemma SmallSigma0Is(w: bv32)
    ensures SmallSigma0(Word(w)) == Word(Small0(w))
  {
    hide Word, R7, R18, S3, Xor3, Rotr, Xor, Shr;
    R7Is(w);
    R18Is(w);
    S3Is(w);
    Xor3Is(R7(w), R18(w), S3(w));
  }

  function Small1(w: bv32): bv32
  {
    Xor3(R17(w), R19(w), S10(w))
  }

  lemma SmallSigma1Is(w: bv32)
    ensures SmallSigma1(Word(w)) == Word(Small1(w))
  {
    hide Word, R17, R19, S10, Xor3, Rotr, Xor, Shr;
    R17Is(w);
    R19Is(w);
    S10Is(w);
    Xor3Is(R17(w), R19(w), S10(w));
  }

  function ChWord(e: bv32, f: bv32, g: bv32): bv32
  {
    XorWord(AndWord(e, f), AndWord(NotWord(e), g))
  }

  lemma ChIs(e: bv32, f: bv32, g: bv32)
    ensures Ch(Word(e), Word(f), Word(g)) == Word(ChWord(e, f, g))
  {
    WordComplement(e);
    hide Word, Xor, And, XorWord, AndWord, NotWord;
    WordOperators(e, f);
    WordOperators(NotWord(e), g);
    WordOperators(AndWord(e, f), AndWord(NotWord(e), g));
  }

  function MajWord(a: bv32, b: bv32, c: bv32): bv32
  {
    Xor3(AndWord(a, b), AndWord(a, c), AndWord(b, c))
  }

  lemma MajIs(a: bv32, b: bv32, c: bv32)
    ensures Maj(Word(a), Word(b), Word(c)) == Word(MajWord(a, b, c))
  {
    hide Word, Xor, And, Xor3, AndWord;
    WordOperators(a, b);
    WordOperators(a, c);
    WordOperators(b, c);
    Xor3Is(AndWord(a, b), AndWord(a, c), AndWord(b, c));
  }

  // The message schedule of the one padded block.

  /** The message "abc" with its padding. */
  predicate Abc(block: Block)
  {
    && block[0] == 0x61 && block[1] == 0x62 && block[2] == 0x63 && block[3] == 0x80 && block[63] == 24
    && forall i :: 4 <= i < 63 ==> block[i] == 0
  }

  lemma WordStep(block: Block, t: nat)
    requires 16 <= t < 64
    ensures W(block, t)
         == (SmallSigma1(W(block, t - 2)) + W(block, t - 7) + SmallSigma0(W(block, t - 15)) + W(block, t - 16)) % TWO32
  {
    hide SmallSigma0, SmallSigma1;
  }

  /** Word t from the words 2, 15, 7 and 16 places before. */
  lemma NextWord(block: Block, t: nat, w2: bv32, w15: bv32, w7: U32, w16: U32, w: U32)
    requires 16 <= t < 64
    requires W(block, t - 2) == Word(w2) && W(block, t - 15) == Word(w15)
    requires W(block, t - 7) == w7 && W(block, t - 16) == w16
    requires w == (Word(Small1(w2)) + w7 + Word(Small0(w15)) + w16) % TWO32
    ensures W(block, t) == w
  {
    hide W, Word, SmallSigma0, SmallSigma1, Small0, Small1;
    WordStep(block, t);
    SmallSigma0Is(w15);
    SmallSigma1Is(w2);
  }

  predicate StartsWithAbc(block: Block)
  {
    forall t :: 0 <= t < 16 ==> W(block, t) == if t == 0 then 0x6162_6380 else if t == 15 then 24 else 0
  }

  lemma FirstWords(block: Block)
    requires Abc(block)
    ensures StartsWithAbc(block)
  {
    forall t | 0 <= t < 16
      ensures W(block, t) == if t == 0 then 0x6162_6380 else if t == 15 then 24 else 0
    {
    }
  }

  lemma Words16(block: Block)
    requires Abc(block)
    ensures W(block, 16) == 0x61626380 && W(block, 17) == 0x000f0000
    ensures W(block, 18) == 0x7da86405 && W(block, 19) == 0x600003c6
  {
    hide W, Xor, And, SmallSigma0, SmallSigma1;
    FirstWords(block);
    NextWord(block, 16, 0x00000000, 0x00000000, 0x00000000, 0x61626380, 0x61626380);
    NextWord(block, 17, 0x00000018, 0x00000000, 0x00000000, 0x00000000, 0x000f0000);
    NextWord(block, 18, 0x61626380, 0x00000000, 0x00000000, 0x00000000, 0x7da86405);
    NextWord(block, 19, 0x000f0000, 0x00000000, 0x00000000, 0x00000000, 0x600003c6);
  }

  lemma Words20(block: Block)
    requires Abc(block)
    ensures W(block, 20) == 0x3e9d7b78 && W(block, 21) == 0x0183fc00
    ensures W(block, 22) == 0x12dcbfdb && W(block, 23) == 0xe2e2c38e
  {
    hide W, Xor, And, SmallSigma0, SmallSigma1;
    FirstWords(block); Words16(block);
    NextWord(block, 20, 0x7da86405, 0x00000000, 0x00000000, 0x00000000, 0x3e9d7b78);
    NextWord(block, 21, 0x600003c6, 0x00000000, 0x00000000, 0x00000000, 0x0183fc00);
    NextWord(block, 22, 0x3e9d7b78, 0x00000000, 0x00000018, 0x00000000, 0x12dcbfdb);
    NextWord(block, 23, 0x0183fc00, 0x00000000, 0x61626380, 0x00000000, 0xe2e2c38e);
  }

  lemma Words24(block: Block)
    requires Abc(block)
    ensures W(block, 24) == 0xc8215c1a && W(block, 25) == 0xb73679a2
    ensures W(block, 26) == 0xe5bc3909 && W(block, 27) == 0x32663c5b
  {
    hide W, Xor, And, SmallSigma0, SmallSigma1;
    FirstWords(block); Words16(block); Words20(block);
    NextWord(block, 24, 0x12dcbfdb, 0x00000000, 0x000f0000, 0x00000000, 0xc8215c1a);
    NextWord(block, 25, 0xe2e2c38e, 0x00000000, 0x7da86405, 0x00000000, 0xb73679a2);
    NextWord(block, 26, 0xc8215c1a, 0x00000000, 0x600003c6, 0x00000000, 0xe5bc3909);
    NextWord(block, 27, 0xb73679a2, 0x00000000, 0x3e9d7b78, 0x00000000, 0x32663c5b);
  }

  lemma Words28(block: Block)
    requires Abc(block)
    ensures W(block, 28) == 0x9d209d67 && W(block, 29) == 0xec8726cb
    ensures W(block, 30) == 0x702138a4 && W(block, 31) == 0xd3b7973b
  {
    hide W, Xor, And, SmallSigma0, SmallSigma1;
    FirstWords(block); Words16(block); Words20(block); Words24(block);
    NextWord(block, 28, 0xe5bc3909, 0x00000000, 0x0183fc00, 0x00000000, 0x9d209d67);
    NextWord(block, 29, 0x32663c5b, 0x00000000, 0x12dcbfdb, 0x00000000, 0xec8726cb);
    NextWord(block, 30, 0x9d209d67, 0x00000018, 0xe2e2c38e, 0x00000000, 0x702138a4);
    NextWord(block, 31, 0xec8726cb, 0x61626380, 0xc8215c1a, 0x00000018, 0xd3b7973b);
  }

  lemma Words32(block: Block)
    requires Abc(block)
    ensures W(block, 32) == 0x93f5997f && W(block, 33) == 0x3b68ba73
    ensures W(block, 34) == 0xaff4ffc1 && W(block, 35) == 0xf10a5c62
  {
    hide W, Xor, And, SmallSigma0, SmallSigma1;
    Words16(block); Words20(block); Words24(block); Words28(block);
    NextWord(block, 32, 0x702138a4, 0x000f0000, 0xb73679a2, 0x61626380, 0x93f5997f);
    NextWord(block, 33, 0xd3b7973b, 0x7da86405, 0xe5bc3909, 0x000f0000, 0x3b68ba73);
    NextWord(block, 34, 0x93f5997f, 0x600003c6, 0x32663c5b, 0x7da86405, 0xaff4ffc1);
    NextWord(block, 35, 0x3b68ba73, 0x3e9d7b78, 0x9d209d67, 0x600003c6, 0xf10a5c62);
  }

  lemma Words36(block: Block)
    requires Abc(block)
    ensures W(block, 36) == 0x0a8b3996 && W(block, 37) == 0x72af830a
    ensures W(block, 38) == 0x9409e33e && W(block, 39) == 0x24641522
  {
    hide W, Xor, And, SmallSigma0, SmallSigma1;
    Words20(block); Words24(block); Words28(block); Words32(block);
    NextWord(block, 36, 0xaff4ffc1, 0x0183fc00, 0xec8726cb, 0x3e9d7b78, 0x0a8b3996);
    NextWord(block, 37, 0xf10a5c62, 0x12dcbfdb, 0x702138a4, 0x0183fc00, 0x72af830a);
    NextWord(block, 38, 0x0a8b3996, 0xe2e2c38e, 0xd3b7973b, 0x12dcbfdb, 0x9409e33e);
    NextWord(block, 39, 0x72af830a, 0xc8215c1a, 0x93f5997f, 0xe2e2c38e, 0x24641522);
  }

  lemma Words40(block: Block)
    requires Abc(block)
    ensures W(block, 40) == 0x9f47bf94 && W(block, 41) == 0xf0a64f5a
    ensures W(block, 42) == 0x3e246a79 && W(block, 43) == 0x27333ba3
  {
    hide W, Xor, And, SmallSigma0, SmallSigma1;
    Words24(block); Words28(block); Words32(block); Words36(block);
    NextWord(block, 40, 0x9409e33e, 0xb73679a2, 0x3b68ba73, 0xc8215c1a, 0x9f47bf94);
    NextWord(block, 41, 0x24641522, 0xe5bc3909, 0xaff4ffc1, 0xb73679a2, 0xf0a64f5a);
    NextWord(block, 42, 0x9f47bf94, 0x32663c5b, 0xf10a5c62, 0xe5bc3909, 0x3e246a79);
    NextWord(block, 43, 0xf0a64f5a, 0x9d209d67, 0x0a8b3996, 0x32663c5b, 0x27333ba3);
  }

  lemma Words44(block: Block)
    requires Abc(block)
    ensures W(block, 44) == 0x0c4763f2 && W(block, 45) == 0x840abf27
    ensures W(block, 46) == 0x7a290d5d && W(block, 47) == 0x065c43da
  {
    hide W, Xor, And, SmallSigma0, SmallSigma1;
    Words28(block); Words32(block); Words36(block); Words40(block);
    NextWord(block, 44, 0x3e246a79, 0xec8726cb, 0x72af830a, 0x9d209d67, 0x0c4763f2);
    NextWord(block, 45, 0x27333ba3, 0x702138a4, 0x9409e33e, 0xec8726cb, 0x840abf27);
    NextWord(block, 46, 0x0c4763f2, 0xd3b7973b, 0x24641522, 0x702138a4, 0x7a290d5d);
    NextWord(block, 47, 0x840abf27, 0x93f5997f, 0x9f47bf94, 0xd3b7973b, 0x065c43da);
  }

  lemma Words48(block: Block)
    requires Abc(block)
    ensures W(block, 48) == 0xfb3e89cb && W(block, 49) == 0xcc7617db
    ensures W(block, 50) == 0xb9e66c34 && W(block, 51) == 0xa9993667
  {
    hide W, Xor, And, SmallSigma0, SmallSigma1;
    Words32(block); Words36(block); Words40(block); Words44(block);
    NextWord(block, 48, 0x7a290d5d, 0x3b68ba73, 0xf0a64f5a, 0x93f5997f, 0xfb3e89cb);
    NextWord(block, 49, 0x065c43da, 0xaff4ffc1, 0x3e246a79, 0x3b68ba73, 0xcc7617db);
    NextWord(block, 50, 0xfb3e89cb, 0xf10a5c62, 0x27333ba3, 0xaff4ffc1, 0xb9e66c34);
    NextWord(block, 51, 0xcc7617db, 0x0a8b3996, 0x0c4763f2, 0xf10a5c62, 0xa9993667);
  }

  lemma Words52(block: Block)
    requires Abc(block)
    ensures W(block, 52) == 0x84badedd && W(block, 53) == 0xc21462bc
    ensures W(block, 54) == 0x1487472c && W(block, 55) == 0xb20f7a99
  {
    hide W, Xor, And, SmallSigma0, SmallSigma1;
    Words36(block); Words40(block); Words44(block); Words48(block);
    NextWord(block, 52, 0xb9e66c34, 0x72af830a, 0x840abf27, 0x0a8b3996, 0x84badedd);
    NextWord(block, 53, 0xa9993667, 0x9409e33e, 0x7a290d5d, 0x72af830a, 0xc21462bc);
    NextWord(block, 54, 0x84badedd, 0x24641522, 0x065c43da, 0x9409e33e, 0x1487472c);
    NextWord(block, 55, 0xc21462bc, 0x9f47bf94, 0xfb3e89cb, 0x24641522, 0xb20f7a99);
  }

  lemma Words56(block: Block)
    requires Abc(block)
    ensures W(block, 56) == 0xef57b9cd && W(block, 57) == 0xebe6b238
    ensures W(block, 58) == 0x9fe3095e && W(block, 59) == 0x78bc8d4b
  {
    hide W, Xor, And, SmallSigma0, SmallSigma1;
    Words40(block); Words44(block); Words48(block); Words52(block);
    NextWord(block, 56, 0x1487472c, 0xf0a64f5a, 0xcc7617db, 0x9f47bf94, 0xef57b9cd);
    NextWord(block, 57, 0xb20f7a99, 0x3e246a79, 0xb9e66c34, 0xf0a64f5a, 0xebe6b238);
    NextWord(block, 58, 0xef57b9cd, 0x27333ba3, 0xa9993667, 0x3e246a79, 0x9fe3095e);
    NextWord(block, 59, 0xebe6b238, 0x0c4763f2, 0x84badedd, 0x27333ba3, 0x78bc8d4b);
  }

  lemma Words60(block: Block)
    requires Abc(block)
    ensures W(block, 60) == 0xa43fcf15 && W(block, 61) == 0x668b2ff8
    ensures W(block, 62) == 0xeeaba2cc && W(block, 63) == 0x12b1edeb
  {
    hide W, Xor, And, SmallSigma0, SmallSigma1;
    Words44(block); Words48(block); Words52(block); Words56(block);
    NextWord(block, 60, 0x9fe3095e, 0x840abf27, 0xc21462bc, 0x0c4763f2, 0xa43fcf15);
    NextWord(block, 61, 0x78bc8d4b, 0x7a290d5d, 0x1487472c, 0x840abf27, 0x668b2ff8);
    NextWord(block, 62, 0xa43fcf15, 0x065c43da, 0xb20f7a99, 0x7a290d5d, 0xeeaba2cc);
    NextWord(block, 63, 0x668b2ff8, 0xfb3e89cb, 0xef57b9cd, 0x065c43da, 0x12b1edeb);
  }


  // The rounds.

  /** t1 of a round. */
  function First(e3: bv32, e2: bv32, e1: bv32, h: U32, k: U32, w: U32): U32
  {
    (h + Word(Sum1(e3)) + Word(ChWord(e3, e2, e1)) + k + w) % TWO32
  }

  /** Its t2. */
  function Second(a3: bv32, a2: bv32, a1: bv32): U32
  {
    (Word(Sum0(a3)) + Word(MajWord(a3, a2, a1))) % TWO32
  }

  /** The values of a and e in the last four rounds, latest first, are the registers. */
  function Held(a3: bv32, a2: bv32, a1: bv32, a0: bv32, e3: bv32, e2: bv32, e1: bv32, e0: bv32): Registers
  {
    Registers(Word(a3), Word(a2), Word(a1), Word(a0), Word(e3), Word(e2), Word(e1), Word(e0))
  }

  lemma NextRound(block: Block, t: nat, w: U32, t1: U32, t2: U32, a4: bv32, a3: bv32, a2: bv32, a1: bv32, a0: bv32,
                  e4: bv32, e3: bv32, e2: bv32, e1: bv32, e0: bv32)
    requires t < 64 && W(block, t) == w && Rounds(H0, block, t) == Held(a3, a2, a1, a0, e3, e2, e1, e0)
    requires t1 == First(e3, e2, e1, Word(e0), K(t), w) && t2 == Second(a3, a2, a1)
    requires Word(a4) == (t1 + t2) % TWO32 && Word(e4) == (Word(a0) + t1) % TWO32
    ensures Rounds(H0, block, t + 1) == Held(a4, a3, a2, a1, e4, e3, e2, e1)
  {
    hide Word, Sum0, Sum1, ChWord, MajWord, BigSigma0, BigSigma1, Ch, Maj, W, K;
    BigSigma0Is(a3);
    BigSigma1Is(e3);
    ChIs(e3, e2, e1);
    MajIs(a3, a2, a1);
  }

  lemma Rounds0(block: Block)
    ensures Rounds(H0, block, 0) == Held(0x6a09e667, 0xbb67ae85, 0x3c6ef372, 0xa54ff53a,
                                       0x510e527f, 0x9b05688c, 0x1f83d9ab, 0x5be0cd19)
  {
  }

  lemma Rounds2(block: Block)
    requires Abc(block)
    ensures Rounds(H0, block, 2) == Held(0x5a6ad9ad, 0x5d6aebcd, 0x6a09e667, 0xbb67ae85,
                                      0x78ce7989, 0xfa2a4622, 0x510e527f, 0x9b05688c)
  {
    hide W, Xor, And, BigSigma0, BigSigma1, Ch, Maj, Rounds, Held;
    Rounds0(block);
    FirstWords(block);
    NextRound(block, 0, 0x61626380, 0x54da50e8, 0x08909ae5, 0x5d6aebcd, 0x6a09e667, 0xbb67ae85, 0x3c6ef372, 0xa54ff53a,
              0xfa2a4622, 0x510e527f, 0x9b05688c, 0x1f83d9ab, 0x5be0cd19);
    NextRound(block, 1, 0x00000000, 0x3c5f8617, 0x1e0b5396, 0x5a6ad9ad, 0x5d6aebcd, 0x6a09e667, 0xbb67ae85, 0x3c6ef372,
              0x78ce7989, 0xfa2a4622, 0x510e527f, 0x9b05688c, 0x1f83d9ab);
  }

  lemma Rounds4(block: Block)
    requires Abc(block)
    ensures Rounds(H0, block, 4) == Held(0xd550f666, 0xc8c347a7, 0x5a6ad9ad, 0x5d6aebcd,
                                      0x24e00850, 0xf92939eb, 0x78ce7989, 0xfa2a4622)
  {
    hide W, Xor, And, BigSigma0, BigSigma1, Ch, Maj, Rounds, Held;
    Rounds2(block);
    FirstWords(block);
    NextRound(block, 2, 0x00000000, 0x3dc18b66, 0x8b01bc41, 0xc8c347a7, 0x5a6ad9ad, 0x5d6aebcd, 0x6a09e667, 0xbb67ae85,
              0xf92939eb, 0x78ce7989, 0xfa2a4622, 0x510e527f, 0x9b05688c);
    NextRound(block, 3, 0x00000000, 0xbad621e9, 0x1a7ad47d, 0xd550f666, 0xc8c347a7, 0x5a6ad9ad, 0x5d6aebcd, 0x6a09e667,
              0x24e00850, 0xf92939eb, 0x78ce7989, 0xfa2a4622, 0x510e527f);
  }

  lemma Rounds6(block: Block)
    requires Abc(block)
    ensures Rounds(H0, block, 6) == Held(0x2b4209f5, 0x04409a6a, 0xd550f666, 0xc8c347a7,
                                      0x714260ad, 0x43ada245, 0x24e00850, 0xf92939eb)
  {
    hide W, Xor, And, BigSigma0, BigSigma1, Ch, Maj, Rounds, Held;
    Rounds4(block);
    FirstWords(block);
    NextRound(block, 4, 0x00000000, 0xe642b678, 0x1dfde3f2, 0x04409a6a, 0xd550f666, 0xc8c347a7, 0x5a6ad9ad, 0x5d6aebcd,
              0x43ada245, 0x24e00850, 0xf92939eb, 0x78ce7989, 0xfa2a4622);
    NextRound(block, 5, 0x00000000, 0x16d78700, 0x146a82f5, 0x2b4209f5, 0x04409a6a, 0xd550f666, 0xc8c347a7, 0x5a6ad9ad,
              0x714260ad, 0x43ada245, 0x24e00850, 0xf92939eb, 0x78ce7989);
  }

  lemma Rounds8(block: Block)
    requires Abc(block)
    ensures Rounds(H0, block, 8) == Held(0x85a07b5f, 0xe5030380, 0x2b4209f5, 0x04409a6a,
                                      0x0c657a79, 0x9b27a401, 0x714260ad, 0x43ada245)
  {
    hide W, Xor, And, BigSigma0, BigSigma1, Ch, Maj, Rounds, Held;
    Rounds6(block);
    FirstWords(block);
    NextRound(block, 6, 0x00000000, 0xd2645c5a, 0x129ea726, 0xe5030380, 0x2b4209f5, 0x04409a6a, 0xd550f666, 0xc8c347a7,
              0x9b27a401, 0x714260ad, 0x43ada245, 0x24e00850, 0xf92939eb);
    NextRound(block, 7, 0x00000000, 0x37148413, 0x4e8bf74c, 0x85a07b5f, 0xe5030380, 0x2b4209f5, 0x04409a6a, 0xd550f666,
              0x0c657a79, 0x9b27a401, 0x714260ad, 0x43ada245, 0x24e00850);
  }

  lemma Rounds10(block: Block)
    requires Abc(block)
    ensures Rounds(H0, block, 10) == Held(0x8c87346b, 0x8e04ecb9, 0x85a07b5f, 0xe5030380,
                                       0x1cc92596, 0x32ca2d8c, 0x0c657a79, 0x9b27a401)
  {
    hide W, Xor, And, BigSigma0, BigSigma1, Ch, Maj, Rounds, Held;
    Rounds8(block);
    FirstWords(block);
    NextRound(block, 8, 0x00000000, 0x2e899322, 0x5f7b5997, 0x8e04ecb9, 0x85a07b5f, 0xe5030380, 0x2b4209f5, 0x04409a6a,
              0x32ca2d8c, 0x0c657a79, 0x9b27a401, 0x714260ad, 0x43ada245);
    NextRound(block, 9, 0x00000000, 0xf1871ba1, 0x9b0018ca, 0x8c87346b, 0x8e04ecb9, 0x85a07b5f, 0xe5030380, 0x2b4209f5,
              0x1cc92596, 0x32ca2d8c, 0x0c657a79, 0x9b27a401, 0x714260ad);
  }

  lemma Rounds12(block: Block)
    requires Abc(block)
    ensures Rounds(H0, block, 12) == Held(0xf71fc5a9, 0x4798a3f4, 0x8c87346b, 0x8e04ecb9,
                                       0x816fd6e9, 0x436b23e8, 0x1cc92596, 0x32ca2d8c)
  {
    hide W, Xor, And, BigSigma0, BigSigma1, Ch, Maj, Rounds, Held;
    Rounds10(block);
    FirstWords(block);
    NextRound(block, 10, 0x00000000, 0x5e682068, 0xe930838c, 0x4798a3f4, 0x8c87346b, 0x8e04ecb9, 0x85a07b5f, 0xe5030380,
              0x436b23e8, 0x1cc92596, 0x32ca2d8c, 0x0c657a79, 0x9b27a401);
    NextRound(block, 11, 0x00000000, 0xfbcf5b8a, 0xfb506a1f, 0xf71fc5a9, 0x4798a3f4, 0x8c87346b, 0x8e04ecb9, 0x85a07b5f,
              0x816fd6e9, 0x436b23e8, 0x1cc92596, 0x32ca2d8c, 0x0c657a79);
  }

  lemma Rounds14(block: Block)
    requires Abc(block)
    ensures Rounds(H0, block, 14) == Held(0xd932eb16, 0x87912990, 0xf71fc5a9, 0x4798a3f4,
                                       0x745a48de, 0x1e578218, 0x816fd6e9, 0x436b23e8)
  {
    hide W, Xor, And, BigSigma0, BigSigma1, Ch, Maj, Rounds, Held;
    Rounds12(block);
    FirstWords(block);
    NextRound(block, 12, 0x00000000, 0x9052955f, 0xf73e9431, 0x87912990, 0xf71fc5a9, 0x4798a3f4, 0x8c87346b, 0x8e04ecb9,
              0x1e578218, 0x816fd6e9, 0x436b23e8, 0x1cc92596, 0x32ca2d8c);
    NextRound(block, 13, 0x00000000, 0xe7d31473, 0xf15fd6a3, 0xd932eb16, 0x87912990, 0xf71fc5a9, 0x4798a3f4, 0x8c87346b,
              0x745a48de, 0x1e578218, 0x816fd6e9, 0x436b23e8, 0x1cc92596);
  }

  lemma Rounds16(block: Block)
    requires Abc(block)
    ensures Rounds(H0, block, 16) == Held(0xb0fa238e, 0xc0645fde, 0xd932eb16, 0x87912990,
                                       0x07590dcd, 0x0b92f20c, 0x745a48de, 0x1e578218)
  {
    hide W, Xor, And, BigSigma0, BigSigma1, Ch, Maj, Rounds, Held;
    Rounds14(block);
    FirstWords(block);
    NextRound(block, 14, 0x00000000, 0xc3fa4e18, 0xfc6a11c6, 0xc0645fde, 0xd932eb16, 0x87912990, 0xf71fc5a9, 0x4798a3f4,
              0x0b92f20c, 0x745a48de, 0x1e578218, 0x816fd6e9, 0x436b23e8);
    NextRound(block, 15, 0x00000018, 0x10394824, 0xa0c0db6a, 0xb0fa238e, 0xc0645fde, 0xd932eb16, 0x87912990, 0xf71fc5a9,
              0x07590dcd, 0x0b92f20c, 0x745a48de, 0x1e578218, 0x816fd6e9);
  }

  lemma Rounds18(block: Block)
    requires Abc(block)
    ensures Rounds(H0, block, 18) == Held(0xc2fbd9d1, 0x21da9a9b, 0xb0fa238e, 0xc0645fde,
                                       0x846ee454, 0x8034229c, 0x07590dcd, 0x0b92f20c)
  {
    hide W, Xor, And, BigSigma0, BigSigma1, Ch, Maj, Rounds, Held;
    Rounds16(block);
    Words16(block);
    NextRound(block, 16, 0x61626380, 0xf8a2f90c, 0x2937a18f, 0x21da9a9b, 0xb0fa238e, 0xc0645fde, 0xd932eb16, 0x87912990,
              0x8034229c, 0x07590dcd, 0x0b92f20c, 0x745a48de, 0x1e578218);
    NextRound(block, 17, 0x000f0000, 0xab3bf93e, 0x17bfe093, 0xc2fbd9d1, 0x21da9a9b, 0xb0fa238e, 0xc0645fde, 0xd932eb16,
              0x846ee454, 0x8034229c, 0x07590dcd, 0x0b92f20c, 0x745a48de);
  }

  lemma Rounds20(block: Block)
    requires Abc(block)
    ensures Rounds(H0, block, 20) == Held(0xe1f20c33, 0xfe777bbf, 0xc2fbd9d1, 0x21da9a9b,
                                       0xb0638179, 0xcc899961, 0x846ee454, 0x8034229c)
  {
    hide W, Xor, And, BigSigma0, BigSigma1, Ch, Maj, Rounds, Held;
    Rounds18(block);
    Words16(block);
    NextRound(block, 18, 0x7da86405, 0x0c253983, 0xf252423c, 0xfe777bbf, 0xc2fbd9d1, 0x21da9a9b, 0xb0fa238e, 0xc0645fde,
              0xcc899961, 0x846ee454, 0x8034229c, 0x07590dcd, 0x0b92f20c);
    NextRound(block, 19, 0x600003c6, 0xff695deb, 0xe288ae48, 0xe1f20c33, 0xfe777bbf, 0xc2fbd9d1, 0x21da9a9b, 0xb0fa238e,
              0xb0638179, 0xcc899961, 0x846ee454, 0x8034229c, 0x07590dcd);
  }

  lemma Rounds22(block: Block)
    requires Abc(block)
    ensures Rounds(H0, block, 22) == Held(0xc2606d6d, 0x9dc68b63, 0xe1f20c33, 0xfe777bbf,
                                       0xe1257970, 0x8ada8930, 0xb0638179, 0xcc899961)
  {
    hide W, Xor, And, BigSigma0, BigSigma1, Ch, Maj, Rounds, Held;
    Rounds20(block);
    Words20(block);
    NextRound(block, 20, 0x3e9d7b78, 0x68ffee95, 0x34c69cce, 0x9dc68b63, 0xe1f20c33, 0xfe777bbf, 0xc2fbd9d1, 0x21da9a9b,
              0x8ada8930, 0xb0638179, 0xcc899961, 0x846ee454, 0x8034229c);
    NextRound(block, 21, 0x0183fc00, 0x1e299f9f, 0xa436cdce, 0xc2606d6d, 0x9dc68b63, 0xe1f20c33, 0xfe777bbf, 0xc2fbd9d1,
              0xe1257970, 0x8ada8930, 0xb0638179, 0xcc899961, 0x846ee454);
  }

  lemma Rounds24(block: Block)
    requires Abc(block)
    ensures Rounds(H0, block, 24) == Held(0xc5d53d8d, 0xa7a3623f, 0xc2606d6d, 0x9dc68b63,
                                       0xaa47c347, 0x49f5114a, 0xe1257970, 0x8ada8930)
  {
    hide W, Xor, And, BigSigma0, BigSigma1, Ch, Maj, Rounds, Held;
    Rounds22(block);
    Words20(block);
    NextRound(block, 22, 0x12dcbfdb, 0x4b7d958b, 0x5c25ccb4, 0xa7a3623f, 0xc2606d6d, 0x9dc68b63, 0xe1f20c33, 0xfe777bbf,
              0x49f5114a, 0xe1257970, 0x8ada8930, 0xb0638179, 0xcc899961);
    NextRound(block, 23, 0xe2e2c38e, 0xc855b714, 0xfd7f8679, 0xc5d53d8d, 0xa7a3623f, 0xc2606d6d, 0x9dc68b63, 0xe1f20c33,
              0xaa47c347, 0x49f5114a, 0xe1257970, 0x8ada8930, 0xb0638179);
  }

  lemma Rounds26(block: Block)
    requires Abc(block)
    ensures Rounds(H0, block, 26) == Held(0xcde8037d, 0x1c2c2838, 0xc5d53d8d, 0xa7a3623f,
                                       0x14383d8e, 0x2823ef91, 0xaa47c347, 0x49f5114a)
  {
    hide W, Xor, And, BigSigma0, BigSigma1, Ch, Maj, Rounds, Held;
    Rounds24(block);
    Words24(block);
    NextRound(block, 24, 0xc8215c1a, 0x8a5d642e, 0x91cec40a, 0x1c2c2838, 0xc5d53d8d, 0xa7a3623f, 0xc2606d6d, 0x9dc68b63,
              0x2823ef91, 0xaa47c347, 0x49f5114a, 0xe1257970, 0x8ada8930);
    NextRound(block, 25, 0xb73679a2, 0x51d7d021, 0x7c10335c, 0xcde8037d, 0x1c2c2838, 0xc5d53d8d, 0xa7a3623f, 0xc2606d6d,
              0x14383d8e, 0x2823ef91, 0xaa47c347, 0x49f5114a, 0xe1257970);
  }

  lemma Rounds28(block: Block)
    requires Abc(block)
    ensures Rounds(H0, block, 28) == Held(0x77d37528, 0xb62ec4bc, 0xcde8037d, 0x1c2c2838,
                                       0xedffbff8, 0xc74c6516, 0x14383d8e, 0x2823ef91)
  {
    hide W, Xor, And, BigSigma0, BigSigma1, Ch, Maj, Rounds, Held;
    Rounds26(block);
    Words24(block);
    NextRound(block, 26, 0xe5bc3909, 0x1fa902d7, 0x9685c1e5, 0xb62ec4bc, 0xcde8037d, 0x1c2c2838, 0xc5d53d8d, 0xa7a3623f,
              0xc74c6516, 0x14383d8e, 0x2823ef91, 0xaa47c347, 0x49f5114a);
    NextRound(block, 27, 0x32663c5b, 0x282a826b, 0x4fa8f2bd, 0x77d37528, 0xb62ec4bc, 0xcde8037d, 0x1c2c2838, 0xc5d53d8d,
              0xedffbff8, 0xc74c6516, 0x14383d8e, 0x2823ef91, 0xaa47c347);
  }

  lemma Rounds30(block: Block)
    requires Abc(block)
    ensures Rounds(H0, block, 30) == Held(0xa0060b30, 0x363482c9, 0x77d37528, 0xb62ec4bc,
                                       0xade79437, 0x6112a3b7, 0xedffbff8, 0xc74c6516)
  {
    hide W, Xor, And, BigSigma0, BigSigma1, Ch, Maj, Rounds, Held;
    Rounds28(block);
    Words28(block);
    NextRound(block, 28, 0x9d209d67, 0x44e67b7f, 0xf14e074a, 0x363482c9, 0x77d37528, 0xb62ec4bc, 0xcde8037d, 0x1c2c2838,
              0x6112a3b7, 0xedffbff8, 0xc74c6516, 0x14383d8e, 0x2823ef91);
    NextRound(block, 29, 0xec8726cb, 0xdfff90ba, 0xc0067a76, 0xa0060b30, 0x363482c9, 0x77d37528, 0xb62ec4bc, 0xcde8037d,
              0xade79437, 0x6112a3b7, 0xedffbff8, 0xc74c6516, 0x14383d8e);
  }

  lemma Rounds32(block: Block)
    requires Abc(block)
    ensures Rounds(H0, block, 32) == Held(0x73b33bf5, 0xea992a22, 0xa0060b30, 0x363482c9,
                                       0xba591112, 0x0109ab3a, 0xade79437, 0x6112a3b7)
  {
    hide W, Xor, And, BigSigma0, BigSigma1, Ch, Maj, Rounds, Held;
    Rounds30(block);
    Words28(block);
    NextRound(block, 30, 0x702138a4, 0x4adae67e, 0x9fbe43a4, 0xea992a22, 0xa0060b30, 0x363482c9, 0x77d37528, 0xb62ec4bc,
              0x0109ab3a, 0xade79437, 0x6112a3b7, 0xedffbff8, 0xc74c6516);
    NextRound(block, 31, 0xd3b7973b, 0x42859bea, 0x312da00b, 0x73b33bf5, 0xea992a22, 0xa0060b30, 0x363482c9, 0x77d37528,
              0xba591112, 0x0109ab3a, 0xade79437, 0x6112a3b7, 0xedffbff8);
  }

  lemma Rounds34(block: Block)
    requires Abc(block)
    ensures Rounds(H0, block, 34) == Held(0xfe604df5, 0x98e12507, 0x73b33bf5, 0xea992a22,
                                       0x59249dd3, 0x9cd9f5f6, 0xba591112, 0x0109ab3a)
  {
    hide W, Xor, And, BigSigma0, BigSigma1, Ch, Maj, Rounds, Held;
    Rounds32(block);
    Words32(block);
    NextRound(block, 32, 0x93f5997f, 0x66a5732d, 0x323bb1da, 0x98e12507, 0x73b33bf5, 0xea992a22, 0xa0060b30, 0x363482c9,
              0x9cd9f5f6, 0xba591112, 0x0109ab3a, 0xade79437, 0x6112a3b7);
    NextRound(block, 33, 0x3b68ba73, 0xb91e92a3, 0x4541bb52, 0xfe604df5, 0x98e12507, 0x73b33bf5, 0xea992a22, 0xa0060b30,
              0x59249dd3, 0x9cd9f5f6, 0xba591112, 0x0109ab3a, 0xade79437);
  }

  lemma Rounds36(block: Block)
    requires Abc(block)
    ensures Rounds(H0, block, 36) == Held(0x65a0cfe4, 0xa9a7738c, 0xfe604df5, 0x98e12507,
                                       0xf4b002d6, 0x085f3833, 0x59249dd3, 0x9cd9f5f6)
  {
    hide W, Xor, And, BigSigma0, BigSigma1, Ch, Maj, Rounds, Held;
    Rounds34(block);
    Words32(block);
    NextRound(block, 34, 0xaff4ffc1, 0x1dc60e11, 0x8be1657b, 0xa9a7738c, 0xfe604df5, 0x98e12507, 0x73b33bf5, 0xea992a22,
              0x085f3833, 0x59249dd3, 0x9cd9f5f6, 0xba591112, 0x0109ab3a);
    NextRound(block, 35, 0xf10a5c62, 0x80fcc6e1, 0xe4a40903, 0x65a0cfe4, 0xa9a7738c, 0xfe604df5, 0x98e12507, 0x73b33bf5,
              0xf4b002d6, 0x085f3833, 0x59249dd3, 0x9cd9f5f6, 0xba591112);
  }

  lemma Rounds38(block: Block)
    requires Abc(block)
    ensures Rounds(H0, block, 38) == Held(0x34df1604, 0x41a65cb1, 0x65a0cfe4, 0xa9a7738c,
                                       0xa507a53d, 0x0772a26b, 0xf4b002d6, 0x085f3833)
  {
    hide W, Xor, And, BigSigma0, BigSigma1, Ch, Maj, Rounds, Held;
    Rounds36(block);
    Words36(block);
    NextRound(block, 36, 0x0a8b3996, 0x6e917d64, 0xd314df4d, 0x41a65cb1, 0x65a0cfe4, 0xa9a7738c, 0xfe604df5, 0x98e12507,
              0x0772a26b, 0xf4b002d6, 0x085f3833, 0x59249dd3, 0x9cd9f5f6);
    NextRound(block, 37, 0x72af830a, 0xa6a75748, 0x8e37bebc, 0x34df1604, 0x41a65cb1, 0x65a0cfe4, 0xa9a7738c, 0xfe604df5,
              0xa507a53d, 0x0772a26b, 0xf4b002d6, 0x085f3833, 0x59249dd3);
  }

  lemma Rounds40(block: Block)
    requires Abc(block)
    ensures Rounds(H0, block, 40) == Held(0x79ea687a, 0x6dc57a8a, 0x34df1604, 0x41a65cb1,
                                       0x1efbc0a0, 0xf0781bc8, 0xa507a53d, 0x0772a26b)
  {
    hide W, Xor, And, BigSigma0, BigSigma1, Ch, Maj, Rounds, Held;
    Rounds38(block);
    Words36(block);
    NextRound(block, 38, 0x9409e33e, 0x46d0a83c, 0x26f4d24e, 0x6dc57a8a, 0x34df1604, 0x41a65cb1, 0x65a0cfe4, 0xa9a7738c,
              0xf0781bc8, 0xa507a53d, 0x0772a26b, 0xf4b002d6, 0x085f3833);
    NextRound(block, 39, 0x24641522, 0xb95af0bc, 0xc08f77be, 0x79ea687a, 0x6dc57a8a, 0x34df1604, 0x41a65cb1, 0x65a0cfe4,
              0x1efbc0a0, 0xf0781bc8, 0xa507a53d, 0x0772a26b, 0xf4b002d6);
  }

  lemma Rounds42(block: Block)
    requires Abc(block)
    ensures Rounds(H0, block, 42) == Held(0xdf46652f, 0xd6670766, 0x79ea687a, 0x6dc57a8a,
                                       0x838b2711, 0x26352d63, 0x1efbc0a0, 0xf0781bc8)
  {
    hide W, Xor, And, BigSigma0, BigSigma1, Ch, Maj, Rounds, Held;
    Rounds40(block);
    Words40(block);
    NextRound(block, 40, 0x9f47bf94, 0xe48ed0b2, 0xf1d836b4, 0xd6670766, 0x79ea687a, 0x6dc57a8a, 0x34df1604, 0x41a65cb1,
              0x26352d63, 0x1efbc0a0, 0xf0781bc8, 0xa507a53d, 0x0772a26b);
    NextRound(block, 41, 0xf0a64f5a, 0x4eac110d, 0x909a5422, 0xdf46652f, 0xd6670766, 0x79ea687a, 0x6dc57a8a, 0x34df1604,
              0x838b2711, 0x26352d63, 0x1efbc0a0, 0xf0781bc8, 0xa507a53d);
  }

  lemma Rounds44(block: Block)
    requires Abc(block)
    ensures Rounds(H0, block, 44) == Held(0x9d4baf93, 0x17aa0dfe, 0xdf46652f, 0xd6670766,
                                       0xfda24c2e, 0xdecd4715, 0x838b2711, 0x26352d63)
  {
    hide W, Xor, And, BigSigma0, BigSigma1, Ch, Maj, Rounds, Held;
    Rounds42(block);
    Words40(block);
    NextRound(block, 42, 0x3e246a79, 0x7107cc8b, 0xa6a24173, 0x17aa0dfe, 0xdf46652f, 0xd6670766, 0x79ea687a, 0x6dc57a8a,
              0xdecd4715, 0x838b2711, 0x26352d63, 0x1efbc0a0, 0xf0781bc8);
    NextRound(block, 43, 0x27333ba3, 0x83b7e3b4, 0x1993cbdf, 0x9d4baf93, 0x17aa0dfe, 0xdf46652f, 0xd6670766, 0x79ea687a,
              0xfda24c2e, 0xdecd4715, 0x838b2711, 0x26352d63, 0x1efbc0a0);
  }

  lemma Rounds46(block: Block)
    requires Abc(block)
    ensures Rounds(H0, block, 46) == Held(0x72ab4b91, 0x26628815, 0x9d4baf93, 0x17aa0dfe,
                                       0xb7755da1, 0xa80f11f0, 0xfda24c2e, 0xdecd4715)
  {
    hide W, Xor, And, BigSigma0, BigSigma1, Ch, Maj, Rounds, Held;
    Rounds44(block);
    Words44(block);
    NextRound(block, 44, 0x0c4763f2, 0xd1a80a8a, 0x54ba7d8b, 0x26628815, 0x9d4baf93, 0x17aa0dfe, 0xdf46652f, 0xd6670766,
              0xa80f11f0, 0xfda24c2e, 0xdecd4715, 0x838b2711, 0x26352d63);
    NextRound(block, 45, 0x840abf27, 0xd82ef872, 0x9a7c531f, 0x72ab4b91, 0x26628815, 0x9d4baf93, 0x17aa0dfe, 0xdf46652f,
              0xb7755da1, 0xa80f11f0, 0xfda24c2e, 0xdecd4715, 0x838b2711);
  }

  lemma Rounds48(block: Block)
    requires Abc(block)
    ensures Rounds(H0, block, 48) == Held(0x4172328d, 0xa14c14b0, 0x72ab4b91, 0x26628815,
                                       0xfecf0bc6, 0xd57b94a9, 0xb7755da1, 0xa80f11f0)
  {
    hide W, Xor, And, BigSigma0, BigSigma1, Ch, Maj, Rounds, Held;
    Rounds46(block);
    Words44(block);
    NextRound(block, 46, 0x7a290d5d, 0xbdd186ab, 0xe37a8e05, 0xa14c14b0, 0x72ab4b91, 0x26628815, 0x9d4baf93, 0x17aa0dfe,
              0xd57b94a9, 0xb7755da1, 0xa80f11f0, 0xfda24c2e, 0xdecd4715);
    NextRound(block, 47, 0x065c43da, 0x61835c33, 0xdfeed65a, 0x4172328d, 0xa14c14b0, 0x72ab4b91, 0x26628815, 0x9d4baf93,
              0xfecf0bc6, 0xd57b94a9, 0xb7755da1, 0xa80f11f0, 0xfda24c2e);
  }

  lemma Rounds50(block: Block)
    requires Abc(block)
    ensures Rounds(H0, block, 50) == Held(0xf11bfaa8, 0x05757ceb, 0x4172328d, 0xa14c14b0,
                                       0x6e5c390c, 0xbd714038, 0xfecf0bc6, 0xd57b94a9)
  {
    hide W, Xor, And, BigSigma0, BigSigma1, Ch, Maj, Rounds, Held;
    Rounds48(block);
    Words48(block);
    NextRound(block, 48, 0xfb3e89cb, 0x970eb823, 0x6e66c4c8, 0x05757ceb, 0x4172328d, 0xa14c14b0, 0x72ab4b91, 0x26628815,
              0xbd714038, 0xfecf0bc6, 0xd57b94a9, 0xb7755da1, 0xa80f11f0);
    NextRound(block, 49, 0xcc7617db, 0xfbb0ed7b, 0xf56b0d2d, 0xf11bfaa8, 0x05757ceb, 0x4172328d, 0xa14c14b0, 0x72ab4b91,
              0x6e5c390c, 0xbd714038, 0xfecf0bc6, 0xd57b94a9, 0xb7755da1);
  }

  lemma Rounds52(block: Block)
    requires Abc(block)
    ensures Rounds(H0, block, 52) == Held(0x886e7a22, 0x7a0508a1, 0xf11bfaa8, 0x05757ceb,
                                       0x49231c1e, 0x52f1ccf7, 0x6e5c390c, 0xbd714038)
  {
    hide W, Xor, And, BigSigma0, BigSigma1, Ch, Maj, Rounds, Held;
    Rounds50(block);
    Words48(block);
    NextRound(block, 50, 0xb9e66c34, 0xb1a5b847, 0xc85f505a, 0x7a0508a1, 0xf11bfaa8, 0x05757ceb, 0x4172328d, 0xa14c14b0,
              0x52f1ccf7, 0x6e5c390c, 0xbd714038, 0xfecf0bc6, 0xd57b94a9);
    NextRound(block, 51, 0xa9993667, 0x07b0e991, 0x80bd9091, 0x886e7a22, 0x7a0508a1, 0xf11bfaa8, 0x05757ceb, 0x4172328d,
              0x49231c1e, 0x52f1ccf7, 0x6e5c390c, 0xbd714038, 0xfecf0bc6);
  }

  lemma Rounds54(block: Block)
    requires Abc(block)
    ensures Rounds(H0, block, 54) == Held(0xf5702fdb, 0x101fd28f, 0x886e7a22, 0x7a0508a1,
                                       0x9f4787c3, 0x529e7d00, 0x49231c1e, 0x52f1ccf7)
  {
    hide W, Xor, And, BigSigma0, BigSigma1, Ch, Maj, Rounds, Held;
    Rounds52(block);
    Words52(block);
    NextRound(block, 52, 0x84badedd, 0x4d290015, 0xc2f6d27a, 0x101fd28f, 0x886e7a22, 0x7a0508a1, 0xf11bfaa8, 0x05757ceb,
              0x529e7d00, 0x49231c1e, 0x52f1ccf7, 0x6e5c390c, 0xbd714038);
    NextRound(block, 53, 0xc21462bc, 0xae2b8d1b, 0x4744a2c0, 0xf5702fdb, 0x101fd28f, 0x886e7a22, 0x7a0508a1, 0xf11bfaa8,
              0x9f4787c3, 0x529e7d00, 0x49231c1e, 0x52f1ccf7, 0x6e5c390c);
  }

  lemma Rounds56(block: Block)
    requires Abc(block)
    ensures Rounds(H0, block, 56) == Held(0x38cc9913, 0x3ec45cdb, 0xf5702fdb, 0x101fd28f,
                                       0x54cb266b, 0xe50e1b4f, 0x9f4787c3, 0x529e7d00)
  {
    hide W, Xor, And, BigSigma0, BigSigma1, Ch, Maj, Rounds, Held;
    Rounds54(block);
    Words52(block);
    NextRound(block, 54, 0x1487472c, 0x6b0912ae, 0xd3bb4a2d, 0x3ec45cdb, 0xf5702fdb, 0x101fd28f, 0x886e7a22, 0x7a0508a1,
              0xe50e1b4f, 0x9f4787c3, 0x529e7d00, 0x49231c1e, 0x52f1ccf7);
    NextRound(block, 55, 0xb20f7a99, 0xcc5cac49, 0x6c6fecca, 0x38cc9913, 0x3ec45cdb, 0xf5702fdb, 0x101fd28f, 0x886e7a22,
              0x54cb266b, 0xe50e1b4f, 0x9f4787c3, 0x529e7d00, 0x49231c1e);
  }

  lemma Rounds58(block: Block)
    requires Abc(block)
    ensures Rounds(H0, block, 58) == Held(0xc062d46f, 0xfcd1887b, 0x38cc9913, 0x3ec45cdb,
                                       0x7e44008e, 0x9b5e906c, 0x54cb266b, 0xe50e1b4f)
  {
    hide W, Xor, And, BigSigma0, BigSigma1, Ch, Maj, Rounds, Held;
    Rounds56(block);
    Words56(block);
    NextRound(block, 56, 0xef57b9cd, 0x8b3ebddd, 0x7192ca9e, 0xfcd1887b, 0x38cc9913, 0x3ec45cdb, 0xf5702fdb, 0x101fd28f,
              0x9b5e906c, 0x54cb266b, 0xe50e1b4f, 0x9f4787c3, 0x529e7d00);
    NextRound(block, 57, 0xebe6b238, 0x88d3d0b3, 0x378f03bc, 0xc062d46f, 0xfcd1887b, 0x38cc9913, 0x3ec45cdb, 0xf5702fdb,
              0x7e44008e, 0x9b5e906c, 0x54cb266b, 0xe50e1b4f, 0x9f4787c3);
  }

  lemma Rounds60(block: Block)
    requires Abc(block)
    ensures Rounds(H0, block, 60) == Held(0xb6ae8fff, 0xffb70472, 0xc062d46f, 0xfcd1887b,
                                       0xb21bad3d, 0x6d83bfc6, 0x7e44008e, 0x9b5e906c)
  {
    hide W, Xor, And, BigSigma0, BigSigma1, Ch, Maj, Rounds, Held;
    Rounds58(block);
    Words56(block);
    NextRound(block, 58, 0x9fe3095e, 0x2ebf62eb, 0xd0f7a187, 0xffb70472, 0xc062d46f, 0xfcd1887b, 0x38cc9913, 0x3ec45cdb,
              0x6d83bfc6, 0x7e44008e, 0x9b5e906c, 0x54cb266b, 0xe50e1b4f);
    NextRound(block, 59, 0x78bc8d4b, 0x794f142a, 0x3d5f7bd5, 0xb6ae8fff, 0xffb70472, 0xc062d46f, 0xfcd1887b, 0x38cc9913,
              0xb21bad3d, 0x6d83bfc6, 0x7e44008e, 0x9b5e906c, 0x54cb266b);
  }

  lemma Rounds62(block: Block)
    requires Abc(block)
    ensures Rounds(H0, block, 62) == Held(0x04d24d6c, 0xb85e2ce9, 0xb6ae8fff, 0xffb70472,
                                       0x948d25b6, 0x961f4894, 0xb21bad3d, 0x6d83bfc6)
  {
    hide W, Xor, And, BigSigma0, BigSigma1, Ch, Maj, Rounds, Held;
    Rounds60(block);
    Words60(block);
    NextRound(block, 60, 0xa43fcf15, 0x994dc019, 0x1f106cd0, 0xb85e2ce9, 0xb6ae8fff, 0xffb70472, 0xc062d46f, 0xfcd1887b,
              0x961f4894, 0xb21bad3d, 0x6d83bfc6, 0x7e44008e, 0x9b5e906c);
    NextRound(block, 61, 0x668b2ff8, 0xd42a5147, 0x30a7fc25, 0x04d24d6c, 0xb85e2ce9, 0xb6ae8fff, 0xffb70472, 0xc062d46f,
              0x948d25b6, 0x961f4894, 0xb21bad3d, 0x6d83bfc6, 0x7e44008e);
  }

  lemma Rounds64(block: Block)
    requires Abc(block)
    ensures Rounds(H0, block, 64) == Held(0x506e3058, 0xd39a2165, 0x04d24d6c, 0xb85e2ce9,
                                       0x5ef50f24, 0xfb121210, 0x948d25b6, 0x961f4894)
  {
    hide W, Xor, And, BigSigma0, BigSigma1, Ch, Maj, Rounds, Held;
    Rounds62(block);
    Words60(block);
    NextRound(block, 62, 0xeeaba2cc, 0xfb5b0d9e, 0xd83f13c7, 0xd39a2165, 0x04d24d6c, 0xb85e2ce9, 0xb6ae8fff, 0xffb70472,
              0xfb121210, 0x948d25b6, 0x961f4894, 0xb21bad3d, 0x6d83bfc6);
    NextRound(block, 63, 0x12b1edeb, 0xa8467f25, 0xa827b133, 0x506e3058, 0xd39a2165, 0x04d24d6c, 0xb85e2ce9, 0xb6ae8fff,
              0x5ef50f24, 0xfb121210, 0x948d25b6, 0x961f4894, 0xb21bad3d);
  }

  // The digest.

  lemma BytesOfWord(v: U32, b3: U8, b2: U8, b1: U8, b0: U8)
    requires v == Word4(b3, b2, b1, b0)
    ensures BigEndian(v, 4) == [b3, b2, b1, b0]
  {
    var s := [b0, b1, b2, b3];
    assert s[1..] == [b1, b2, b3] && s[1..][1..] == [b2, b3] && s[1..][1..][1..] == [b3];
    assert LE([b3]) == b3 && LE([b2, b3]) == b2 + 256 * LE([b3]) && LE([b1, b2, b3]) == b1 + 256 * LE([b2, b3]);
    assert LE(s) == v;
    hide LE, Bytes, Reverse;
    BytesOfLE(s);
    ReverseAt(s, 0); ReverseAt(s, 1); ReverseAt(s, 2); ReverseAt(s, 3);
  }

  lemma LengthOfAbc()
    ensures BigEndian(24, 8) == ZeroBytes(7) + [24]
  {
    var s: seq<U8> := [24] + ZeroBytes(7);
    LEOfZeros(ZeroBytes(7));
    assert s[1..] == ZeroBytes(7) && LE(s) == 24;
    hide LE, Bytes, Reverse;
    BytesOfLE(s);
    forall i: nat | i < 8
      ensures Reverse(s)[i] == s[7 - i]
    {
      ReverseAt(s, i);
    }
  }

  lemma PaddedAbc()
    ensures |Pad([0x61, 0x62, 0x63])| == 64 && Abc(Pad([0x61, 0x62, 0x63]))
  {
    LengthOfAbc();
    hide BigEndian;
  }

  lemma HashOfAbc(block: Block)
    requires Abc(block)
    ensures HashBlocks(block) == [0xba7816bf, 0x8f01cfea, 0x414140de, 0x5dae2223,
                                  0xb00361a3, 0x96177a9c, 0xb410ff61, 0xf20015ad]
  {
    hide Rounds, Abc;
    Rounds64(block);
    assert block[..0] == [] && block[0..] == block;
  }

  /** SHA-256 of the three characters "abc". */
  lemma DigestOfAbc()
    ensures Digest([0x61, 0x62, 0x63]) ==
            [0xba, 0x78, 0x16, 0xbf, 0x8f, 0x01, 0xcf, 0xea, 0x41, 0x41, 0x40, 0xde, 0x5d, 0xae, 0x22, 0x23,
             0xb0, 0x03, 0x61, 0xa3, 0x96, 0x17, 0x7a, 0x9c, 0xb4, 0x10, 0xff, 0x61, 0xf2, 0x00, 0x15, 0xad]
  {
    hide HashBlocks, Pad, BigEndian;
    PaddedAbc();
    var block := Pad([0x61, 0x62, 0x63]);
    HashOfAbc(block);
    var hash := HashBlocks(block);
    BytesOfWord(hash[0], 0xba, 0x78, 0x16, 0xbf);
    BytesOfWord(hash[1], 0x8f, 0x01, 0xcf, 0xea);
    BytesOfWord(hash[2], 0x41, 0x41, 0x40, 0xde);
    BytesOfWord(hash[3], 0x5d, 0xae, 0x22, 0x23);
    BytesOfWord(hash[4], 0xb0, 0x03, 0x61, 0xa3);
    BytesOfWord(hash[5], 0x96, 0x17, 0x7a, 0x9c);
    BytesOfWord(hash[6], 0xb4, 0x10, 0xff, 0x61);
    BytesOfWord(hash[7], 0xf2, 0x00, 0x15, 0xad);
    OutputUnfolds(hash);
  }

  lemma OutputUnfolds(state: State)
    ensures Output(state, 8) == BigEndian(state[0], 4) + BigEndian(state[1], 4) + BigEndian(state[2], 4)
                                + BigEndian(state[3], 4) + BigEndian(state[4], 4) + BigEndian(state[5], 4)
                                + BigEndian(state[6], 4) + BigEndian(state[7], 4)
  {
    hide BigEndian;
    assert Output(state, 0) == [];
    assert Output(state, 2) == BigEndian(state[0], 4) + BigEndian(state[1], 4);
    assert Output(state, 4) == Output(state, 2) + BigEndian(state[2], 4) + BigEndian(state[3], 4);
    assert Output(state, 6) == Output(state, 4) + BigEndian(state[4], 4) + BigEndian(state[5], 4);
  }
}
