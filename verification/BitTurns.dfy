/** Rotations of words, computed on bit vectors: from the rotation by one place all others are composed. */
module BitTurns {
  import opened BitVectors
  import opened CWord
  import opened Sha256Bits
  import opened Sha256Spec

  function TurnByte(p: bv8, q: bv8): bv8 { (p >> 1) | (q << 7) }

  function LastBit(p: bv8): nat { if p & 1 == 1 then 1 else 0 }

  lemma TurnParts(p: bv8, q: bv8)
    ensures 2 * ByteValue(TurnByte(p, q)) + LastBit(p) == ByteValue(p) + 0x100 * LastBit(q) && LastBit(p) < 2
  {
    assert p & 1 == 0 || p & 1 == 1;
    assert q & 1 == 0 || q & 1 == 1;
    assert q & 1 == 0 ==> q << 7 == 0;
    assert q & 1 == 1 ==> q << 7 == 0x80;
  }

  lemma BytesOfR1(b: bv32)
    ensures Byte(R1(b), 0) == TurnByte(Byte(b, 0), Byte(b, 1))
    ensures Byte(R1(b), 1) == TurnByte(Byte(b, 1), Byte(b, 2))
    ensures Byte(R1(b), 2) == TurnByte(Byte(b, 2), Byte(b, 3))
    ensures Byte(R1(b), 3) == TurnByte(Byte(b, 3), Byte(b, 0))
  {
  }

  lemma FourBytesTurned(p3: bv8, p2: bv8, p1: bv8, p0: bv8)
    ensures 2 * FourBytes(TurnByte(p3, p0), TurnByte(p2, p3), TurnByte(p1, p2), TurnByte(p0, p1))
         == FourBytes(p3, p2, p1, p0) - LastBit(p0) + TWO32 * LastBit(p0)
    ensures FourBytes(p3, p2, p1, p0) % 2 == LastBit(p0)
  {
    hide ByteValue, TurnByte, LastBit;
    TurnParts(p3, p0);
    TurnParts(p2, p3);
    TurnParts(p1, p2);
    TurnParts(p0, p1);
  }

  lemma R1Is(b: bv32)
    ensures Rotr(Word(b), 1) == Word(R1(b))
  {
    hide Word, Byte, FourBytes, R1, TurnByte, Rotr, LastBit;
    BytesOfR1(b);
    WordIsFourBytes(b);
    WordIsFourBytes(R1(b));
    FourBytesTurned(Byte(b, 3), Byte(b, 2), Byte(b, 1), Byte(b, 0));
    RotrByOne(Word(b));
  }

  lemma RotrByOne(x: U32)
    ensures 2 * Rotr(x, 1) == x - x % 2 + TWO32 * (x % 2)
  {
    Pow2Add(24, 7);
    Pow2Upto8();
    Pow2OfBytes();
    hide Rotr, Pow2;
    RotrOf(x, 1, 2, 0x8000_0000, x / 2, x % 2);
  }

  /** Turning twice. */
  lemma RotrTwice(x: U32, m: nat, n: nat)
    requires m + n < 32
    ensures Rotr(x, m) < TWO32 && Rotr(Rotr(x, m), n) == Rotr(x, m + n)
  {
    hide Rotr, TestBit;
    RotrBound(x, m);
    RotrBound(Rotr(x, m), n);
    RotrBound(x, m + n);
    forall k: nat
      ensures TestBit(Rotr(Rotr(x, m), n), k) == TestBit(Rotr(x, m + n), k)
    {
      if k < 32 {
        RotrBit(Rotr(x, m), n, k);
        RotrBit(x, m, (k + n) % 32);
        RotrBit(x, m + n, k);
      } else {
        Pow2OfBytes();
        HighBitsZero(Rotr(Rotr(x, m), n), 32, k);
        HighBitsZero(Rotr(x, m + n), 32, k);
      }
    }
    BitsDetermine(Rotr(Rotr(x, m), n), Rotr(x, m + n));
  }

  lemma RotrBound(x: U32, n: nat)
    requires n < 32
    ensures Rotr(x, n) < TWO32
  {
    Pow2OfBytes();
    hide Shr, Shl, Low, Or, Pow2;
    OrBound(Shr(x, n), Low(Shl(x, 32 - n), 32), 32);
  }

  function R1(b: bv32): bv32 { (b >> 1) | (b << 31) }

  function R2(b: bv32): bv32 { (b >> 2) | (b << 30) }

  function R4(b: bv32): bv32 { (b >> 4) | (b << 28) }

  function R6(b: bv32): bv32 { (b >> 6) | (b << 26) }

  function R7(b: bv32): bv32 { (b >> 7) | (b << 25) }

  function R11(b: bv32): bv32 { (b >> 11) | (b << 21) }

  function R13(b: bv32): bv32 { (b >> 13) | (b << 19) }

  function R17(b: bv32): bv32 { (b >> 17) | (b << 15) }

  function R18(b: bv32): bv32 { (b >> 18) | (b << 14) }

  function R19(b: bv32): bv32 { (b >> 19) | (b << 13) }

  function R22(b: bv32): bv32 { (b >> 22) | (b << 10) }

  function R25(b: bv32): bv32 { (b >> 25) | (b << 7) }

  lemma Composed2(b: bv32) ensures R1(R1(b)) == R2(b) {}

  lemma Composed4(b: bv32) ensures R2(R2(b)) == R4(b) {}

  lemma Composed6(b: bv32) ensures R2(R4(b)) == R6(b) {}

  lemma Composed7(b: bv32) ensures R1(R6(b)) == R7(b) {}

  lemma Composed11(b: bv32) ensures R4(R7(b)) == R11(b) {}

  lemma Composed13(b: bv32) ensures R2(R11(b)) == R13(b) {}

  lemma Composed17(b: bv32) ensures R4(R13(b)) == R17(b) {}

  lemma Composed18(b: bv32) ensures R1(R17(b)) == R18(b) {}

  lemma Composed19(b: bv32) ensures R1(R18(b)) == R19(b) {}

  lemma Composed22(b: bv32) ensures R4(R18(b)) == R22(b) {}

  lemma Composed25(b: bv32) ensures R7(R18(b)) == R25(b) {}

  lemma R2Is(b: bv32)
    ensures Rotr(Word(b), 2) == Word(R2(b))
  {
    hide *;
    Composed2(b);
    R1Is(b);
    R1Is(R1(b));
    RotrTwice(Word(b), 1, 1);
  }

  lemma R4Is(b: bv32)
    ensures Rotr(Word(b), 4) == Word(R4(b))
  {
    hide *;
    Composed4(b);
    R2Is(b);
    R2Is(R2(b));
    RotrTwice(Word(b), 2, 2);
  }

  lemma R6Is(b: bv32)
    ensures Rotr(Word(b), 6) == Word(R6(b))
  {
    hide *;
    Composed6(b);
    R4Is(b);
    R2Is(R4(b));
    RotrTwice(Word(b), 4, 2);
  }

  lemma R7Is(b: bv32)
    ensures Rotr(Word(b), 7) == Word(R7(b))
  {
    hide *;
    Composed7(b);
    R6Is(b);
    R1Is(R6(b));
    RotrTwice(Word(b), 6, 1);
  }

  lemma R11Is(b: bv32)
    ensures Rotr(Word(b), 11) == Word(R11(b))
  {
    hide *;
    Composed11(b);
    R7Is(b);
    R4Is(R7(b));
    RotrTwice(Word(b), 7, 4);
  }

  lemma R13Is(b: bv32)
    ensures Rotr(Word(b), 13) == Word(R13(b))
  {
    hide *;
    Composed13(b);
    R11Is(b);
    R2Is(R11(b));
    RotrTwice(Word(b), 11, 2);
  }

  lemma R17Is(b: bv32)
    ensures Rotr(Word(b), 17) == Word(R17(b))
  {
    hide *;
    Composed17(b);
    R13Is(b);
    R4Is(R13(b));
    RotrTwice(Word(b), 13, 4);
  }

  lemma R18Is(b: bv32)
    ensures Rotr(Word(b), 18) == Word(R18(b))
  {
    hide *;
    Composed18(b);
    R17Is(b);
    R1Is(R17(b));
    RotrTwice(Word(b), 17, 1);
  }

  lemma R19Is(b: bv32)
    ensures Rotr(Word(b), 19) == Word(R19(b))
  {
    hide *;
    Composed19(b);
    R18Is(b);
    R1Is(R18(b));
    RotrTwice(Word(b), 18, 1);
  }

  lemma R22Is(b: bv32)
    ensures Rotr(Word(b), 22) == Word(R22(b))
  {
    hide *;
    Composed22(b);
    R18Is(b);
    R4Is(R18(b));
    RotrTwice(Word(b), 18, 4);
  }

  lemma R25Is(b: bv32)
    ensures Rotr(Word(b), 25) == Word(R25(b))
  {
    hide *;
    Composed25(b);
    R18Is(b);
    R7Is(R18(b));
    RotrTwice(Word(b), 18, 7);
  }

  // Plain shifts, in the same way.

  function S1(b: bv32): bv32 { b >> 1 }

  function S2(b: bv32): bv32 { b >> 2 }

  function S3(b: bv32): bv32 { b >> 3 }

  function S5(b: bv32): bv32 { b >> 5 }

  function S10(b: bv32): bv32 { b >> 10 }

  lemma BytesOfS1(b: bv32)
    ensures Byte(S1(b), 0) == TurnByte(Byte(b, 0), Byte(b, 1))
    ensures Byte(S1(b), 1) == TurnByte(Byte(b, 1), Byte(b, 2))
    ensures Byte(S1(b), 2) == TurnByte(Byte(b, 2), Byte(b, 3))
    ensures Byte(S1(b), 3) == TurnByte(Byte(b, 3), 0)
  {
  }

  lemma FourBytesHalved(p3: bv8, p2: bv8, p1: bv8, p0: bv8)
    ensures FourBytes(TurnByte(p3, 0), TurnByte(p2, p3), TurnByte(p1, p2), TurnByte(p0, p1))
         == FourBytes(p3, p2, p1, p0) / 2
  {
    assert LastBit(0) == 0;
    hide ByteValue, TurnByte, LastBit;
    TurnParts(p3, 0);
    TurnParts(p2, p3);
    TurnParts(p1, p2);
    TurnParts(p0, p1);
  }

  lemma S1Is(b: bv32)
    ensures Shr(Word(b), 1) == Word(S1(b))
  {
    ShrIsDiv(Word(b), 1);
    assert Pow2(1) == 2;
    hide Word, Byte, FourBytes, S1, TurnByte, Shr, Pow2;
    BytesOfS1(b);
    WordIsFourBytes(b);
    WordIsFourBytes(S1(b));
    FourBytesHalved(Byte(b, 3), Byte(b, 2), Byte(b, 1), Byte(b, 0));
  }

  lemma Shifted2(b: bv32) ensures S1(S1(b)) == S2(b) {}

  lemma Shifted3(b: bv32) ensures S1(S2(b)) == S3(b) {}

  lemma Shifted5(b: bv32) ensures S2(S3(b)) == S5(b) {}

  lemma Shifted10(b: bv32) ensures S5(S5(b)) == S10(b) {}

  lemma S2Is(b: bv32)
    ensures Shr(Word(b), 2) == Word(S2(b))
  {
    hide *;
    Shifted2(b);
    S1Is(b);
    S1Is(S1(b));
    ShrShr(Word(b), 1, 1);
  }

  lemma S3Is(b: bv32)
    ensures Shr(Word(b), 3) == Word(S3(b))
  {
    hide *;
    Shifted3(b);
    S2Is(b);
    S1Is(S2(b));
    ShrShr(Word(b), 2, 1);
  }

  lemma S5Is(b: bv32)
    ensures Shr(Word(b), 5) == Word(S5(b))
  {
    hide *;
    Shifted5(b);
    S3Is(b);
    S2Is(S3(b));
    ShrShr(Word(b), 3, 2);
  }

  lemma S10Is(b: bv32)
    ensures Shr(Word(b), 10) == Word(S10(b))
  {
    hide *;
    Shifted10(b);
    S5Is(b);
    S5Is(S5(b));
    ShrShr(Word(b), 5, 5);
  }
}
