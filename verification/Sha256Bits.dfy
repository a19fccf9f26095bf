/** What the functions of FIPS 180-4, section 4.1.2, compute: bit by bit, bit 0 being the least significant one. */
module Sha256Bits {
  import opened CWord
  import opened Sha256Spec

  /** Rotr turns: bit k comes from n places further up, around the end of the word. */
  lemma RotrBit(x: U32, n: nat, k: nat)
    requires n < 32 && k < 32
    ensures TestBit(Rotr(x, n), k) == TestBit(x, (k + n) % 32)
  {
    Pow2OfBytes();
    hide Or, Low, Shl, Shr, TestBit, Pow2;
    OrBit(Shr(x, n), Low(Shl(x, 32 - n), 32), k);
    ShrBit(x, n, k);
    LowBit(Shl(x, 32 - n), 32, k);
    ShlBit(x, 32 - n, k);
    if k + n >= 32 {
      HighBitsZero(x, 32, k + n);
    }
  }

  predicate Odd(a: bool, b: bool, c: bool)
  {
    (a != b) != c
  }

  lemma SigmaBits(x: U32, k: nat)
    requires k < 32
    ensures TestBit(BigSigma0(x), k) ==
            Odd(TestBit(x, (k + 2) % 32), TestBit(x, (k + 13) % 32), TestBit(x, (k + 22) % 32))
    ensures TestBit(BigSigma1(x), k) ==
            Odd(TestBit(x, (k + 6) % 32), TestBit(x, (k + 11) % 32), TestBit(x, (k + 25) % 32))
  {
    hide Rotr, Xor, TestBit;
    XorBit(Xor(Rotr(x, 2), Rotr(x, 13)), Rotr(x, 22), k);
    XorBit(Rotr(x, 2), Rotr(x, 13), k);
    RotrBit(x, 2, k); RotrBit(x, 13, k); RotrBit(x, 22, k);
    XorBit(Xor(Rotr(x, 6), Rotr(x, 11)), Rotr(x, 25), k);
    XorBit(Rotr(x, 6), Rotr(x, 11), k);
    RotrBit(x, 6, k); RotrBit(x, 11, k); RotrBit(x, 25, k);
  }

  lemma SmallSigmaBits(x: U32, k: nat)
    requires k < 32
    ensures TestBit(SmallSigma0(x), k) ==
            Odd(TestBit(x, (k + 7) % 32), TestBit(x, (k + 18) % 32), k + 3 < 32 && TestBit(x, k + 3))
    ensures TestBit(SmallSigma1(x), k) ==
            Odd(TestBit(x, (k + 17) % 32), TestBit(x, (k + 19) % 32), k + 10 < 32 && TestBit(x, k + 10))
  {
    Pow2OfBytes();
    hide Rotr, Xor, TestBit, Shr, Pow2;
    XorBit(Xor(Rotr(x, 7), Rotr(x, 18)), Shr(x, 3), k);
    XorBit(Rotr(x, 7), Rotr(x, 18), k);
    RotrBit(x, 7, k); RotrBit(x, 18, k); ShrBit(x, 3, k);
    XorBit(Xor(Rotr(x, 17), Rotr(x, 19)), Shr(x, 10), k);
    XorBit(Rotr(x, 17), Rotr(x, 19), k);
    RotrBit(x, 17, k); RotrBit(x, 19, k); ShrBit(x, 10, k);
    HighBitsZero(x, 32, if k + 3 < 32 then 32 else k + 3);
    HighBitsZero(x, 32, if k + 10 < 32 then 32 else k + 10);
  }

  lemma ChBit(x: U32, y: U32, z: U32, k: nat)
    requires k < 32
    ensures TestBit(Ch(x, y, z), k) == if TestBit(x, k) then TestBit(y, k) else TestBit(z, k)
  {
    Pow2OfBytes();
    hide Xor, And, TestBit, Pow2;
    XorBit(And(x, y), And(TWO32 - 1 - x, z), k);
    AndBit(x, y, k);
    AndBit(TWO32 - 1 - x, z, k);
    ComplementBit(x, 32, k);
  }

  lemma MajBit(x: U32, y: U32, z: U32, k: nat)
    requires k < 32
    ensures TestBit(Maj(x, y, z), k) ==
            ((TestBit(x, k) && TestBit(y, k)) || (TestBit(x, k) && TestBit(z, k)) || (TestBit(y, k) && TestBit(z, k)))
  {
    hide Xor, And, TestBit;
    XorBit(Xor(And(x, y), And(x, z)), And(y, z), k);
    XorBit(And(x, y), And(x, z), k);
    AndBit(x, y, k);
    AndBit(x, z, k);
    AndBit(y, z, k);
  }

  /** As a number: the high bits moved down and the low bits up. */
  lemma RotrIsArithmetic(x: U32, n: nat)
    requires 0 < n < 32
    ensures Rotr(x, n) == x / Pow2(n) + x % Pow2(n) * Pow2(32 - n)
  {
    var m := 32 - n;
    ShrIsDiv(x, n);
    LowIsMod(x, n);
    MovedUp(x, n);
    QuotientFits(x, n);
    hide Or, Shr, Shl, Low, Pow2;
    OrIsPlus(Low(x, n), Shr(x, n), m);
    OrCommutes(Shr(x, n), Shl(Low(x, n), m));
  }

  lemma MovedUp(x: U32, n: nat)
    requires n < 32
    ensures Low(Shl(x, 32 - n), 32) == Shl(Low(x, n), 32 - n)
  {
    hide Low, Shl, TestBit;
    var m := 32 - n;
    var a, b := Low(Shl(x, m), 32), Shl(Low(x, n), m);
    forall k: nat
      ensures TestBit(a, k) == TestBit(b, k)
    {
      LowBit(Shl(x, m), 32, k);
      ShlBit(x, m, k);
      ShlBit(Low(x, n), m, k);
      if k >= m {
        LowBit(x, n, k - m);
      }
    }
    BitsDetermine(a, b);
  }

  lemma QuotientFits(x: U32, n: nat)
    requires n < 32
    ensures Shr(x, n) < Pow2(32 - n)
  {
    Pow2OfBytes();
    Pow2Add(n, 32 - n);
    ShrIsDiv(x, n);
    hide Shr, Pow2;
    QuotientBelow(x, Pow2(n), Pow2(32 - n));
  }

  /** The same with quotient and remainder given. */
  lemma RotrOf(x: U32, n: nat, p: nat, p': nat, q: nat, m: nat)
    requires 0 < n < 32 && p == Pow2(n) && p' == Pow2(32 - n) && x == p * q + m && m < p
    ensures Rotr(x, n) == q + m * p'
  {
    hide Rotr, Pow2;
    RotrIsArithmetic(x, n);
    DivUnique(x, p, q, m);
  }
}
