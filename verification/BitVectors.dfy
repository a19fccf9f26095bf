/** Words as bit vectors, on which the bitwise operators can be computed. */
module BitVectors {
  import opened CWord

  function ByteValue(p: bv8): U8
  {
    p as int
  }

  function Byte(b: bv32, i: nat): bv8
    requires i < 4
  {
    if i == 0 then (b & 0xff) as bv8
    else if i == 1 then ((b >> 8) & 0xff) as bv8
    else if i == 2 then ((b >> 16) & 0xff) as bv8
    else (b >> 24) as bv8
  }

  function Join(x: nat, p: bv8): nat
  {
    0x100 * x + ByteValue(p)
  }

  function FourBytes(p3: bv8, p2: bv8, p1: bv8, p0: bv8): U32
  {
    Join(Join(Join(ByteValue(p3), p2), p1), p0)
  }

  /** The number that a bit vector writes. */
  function Word(b: bv32): U32
  {
    0x100_0000 * ((b >> 24) as bv8 as int) + 0x1_0000 * (((b >> 16) & 0xff) as bv8 as int)
    + 0x100 * (((b >> 8) & 0xff) as bv8 as int) + ((b & 0xff) as bv8 as int)
  }

  lemma WordIsFourBytes(b: bv32)
    ensures Word(b) == FourBytes(Byte(b, 3), Byte(b, 2), Byte(b, 1), Byte(b, 0))
  {
  }

  // The operators under names, so that proofs about their composition need not look into them.

  function Half(p: bv8): bv8 { p >> 1 }

  predicate Odd(p: bv8) { p & 1 == 1 }

  function XorByte(p: bv8, q: bv8): bv8 { p ^ q }

  function AndByte(p: bv8, q: bv8): bv8 { p & q }

  function XorWord(a: bv32, b: bv32): bv32 { a ^ b }

  function AndWord(a: bv32, b: bv32): bv32 { a & b }

  function NotByte(p: bv8): bv8 { !p }

  function NotWord(b: bv32): bv32 { !b }

  lemma ByteHalf(p: bv8)
    ensures ByteValue(p) == 2 * ByteValue(Half(p)) + if Odd(p) then 1 else 0
    ensures ByteValue(0) == 0 && (p != 0 ==> ByteValue(p) > 0)
  {
    assert p & 1 == 0 || p & 1 == 1;
  }

  /** The lowest bit and the rest. */
  lemma OperatorStep(x: nat, y: nat)
    ensures Xor(x, y) == 2 * Xor(x / 2, y / 2) + if x % 2 != y % 2 then 1 else 0
    ensures And(x, y) == 2 * And(x / 2, y / 2) + if x % 2 == 1 && y % 2 == 1 then 1 else 0
    ensures Xor(0, y) == y && And(0, y) == 0
  {
  }

  lemma ByteParts(p: bv8, q: bv8)
    ensures Half(XorByte(p, q)) == XorByte(Half(p), Half(q)) && Odd(XorByte(p, q)) == (Odd(p) != Odd(q))
    ensures Half(AndByte(p, q)) == AndByte(Half(p), Half(q)) && Odd(AndByte(p, q)) == (Odd(p) && Odd(q))
    ensures p == 0 ==> XorByte(p, q) == q && AndByte(p, q) == 0
  {
  }

  lemma {:induction false} ByteXor(p: bv8, q: bv8)
    ensures Xor(ByteValue(p), ByteValue(q)) == ByteValue(XorByte(p, q))
    decreases ByteValue(p)
  {
    hide *;
    ByteHalf(p);
    ByteHalf(q);
    ByteHalf(XorByte(p, q));
    ByteParts(p, q);
    OperatorStep(ByteValue(p), ByteValue(q));
    if p != 0 {
      ByteXor(Half(p), Half(q));
    }
  }

  lemma {:induction false} ByteAnd(p: bv8, q: bv8)
    ensures And(ByteValue(p), ByteValue(q)) == ByteValue(AndByte(p, q))
    decreases ByteValue(p)
  {
    hide *;
    ByteHalf(p);
    ByteHalf(q);
    ByteHalf(AndByte(p, q));
    ByteParts(p, q);
    OperatorStep(ByteValue(p), ByteValue(q));
    if p != 0 {
      ByteAnd(Half(p), Half(q));
    }
  }

  function Scaled(x: nat, n: nat): nat
  {
    x * Pow2(n)
  }

  lemma ScaledStep(x: nat, n: nat)
    ensures Scaled(x, 0) == x
    ensures n > 0 ==> Scaled(x, n) == 2 * Scaled(x, n - 1)
  {
    if n > 0 {
      TimesPow2(x, n);
    }
  }

  /** The operators work on high and low parts separately. */
  lemma {:induction false} OperatorParts(x: nat, y: nat, p: nat, q: nat, n: nat)
    requires p < Pow2(n) && q < Pow2(n)
    ensures Xor(Scaled(x, n) + p, Scaled(y, n) + q) == Scaled(Xor(x, y), n) + Xor(p, q)
    ensures And(Scaled(x, n) + p, Scaled(y, n) + q) == Scaled(And(x, y), n) + And(p, q)
    decreases n
  {
    hide Xor, And, Scaled;
    ScaledStep(x, n);
    ScaledStep(y, n);
    ScaledStep(Xor(x, y), n);
    ScaledStep(And(x, y), n);
    OperatorStep(p, q);
    if n > 0 {
      OperatorStep(Scaled(x, n) + p, Scaled(y, n) + q);
      OperatorParts(x, y, p / 2, q / 2, n - 1);
    }
  }

  lemma BytePart(x: nat, y: nat, p: U8, q: U8)
    ensures Xor(0x100 * x + p, 0x100 * y + q) == 0x100 * Xor(x, y) + Xor(p, q)
    ensures And(0x100 * x + p, 0x100 * y + q) == 0x100 * And(x, y) + And(p, q)
  {
    Pow2Upto8();
    hide Xor, And, Pow2;
    OperatorParts(x, y, p, q, 8);
  }

  lemma NextByte(x: nat, y: nat, p: bv8, q: bv8)
    ensures Xor(Join(x, p), Join(y, q)) == Join(Xor(x, y), XorByte(p, q))
    ensures And(Join(x, p), Join(y, q)) == Join(And(x, y), AndByte(p, q))
  {
    hide ByteValue, Xor, And, XorByte, AndByte;
    ByteXor(p, q);
    ByteAnd(p, q);
    BytePart(x, y, ByteValue(p), ByteValue(q));
  }

  lemma LowBytesOfXor(a: bv32, b: bv32)
    ensures Byte(XorWord(a, b), 0) == XorByte(Byte(a, 0), Byte(b, 0))
    ensures Byte(XorWord(a, b), 1) == XorByte(Byte(a, 1), Byte(b, 1))
  {
  }

  lemma HighBytesOfXor(a: bv32, b: bv32)
    ensures Byte(XorWord(a, b), 2) == XorByte(Byte(a, 2), Byte(b, 2))
    ensures Byte(XorWord(a, b), 3) == XorByte(Byte(a, 3), Byte(b, 3))
  {
  }

  lemma BytesOfAnd(a: bv32, b: bv32)
    ensures Byte(AndWord(a, b), 0) == AndByte(Byte(a, 0), Byte(b, 0))
    ensures Byte(AndWord(a, b), 1) == AndByte(Byte(a, 1), Byte(b, 1))
    ensures Byte(AndWord(a, b), 2) == AndByte(Byte(a, 2), Byte(b, 2))
    ensures Byte(AndWord(a, b), 3) == AndByte(Byte(a, 3), Byte(b, 3))
  {
  }

  lemma FourByteOperators(p3: bv8, p2: bv8, p1: bv8, p0: bv8, q3: bv8, q2: bv8, q1: bv8, q0: bv8)
    ensures Xor(FourBytes(p3, p2, p1, p0), FourBytes(q3, q2, q1, q0))
         == FourBytes(XorByte(p3, q3), XorByte(p2, q2), XorByte(p1, q1), XorByte(p0, q0))
    ensures And(FourBytes(p3, p2, p1, p0), FourBytes(q3, q2, q1, q0))
         == FourBytes(AndByte(p3, q3), AndByte(p2, q2), AndByte(p1, q1), AndByte(p0, q0))
  {
    hide Join, ByteValue, Xor, And, XorByte, AndByte;
    ByteXor(p3, q3);
    ByteAnd(p3, q3);
    var x, y := ByteValue(p3), ByteValue(q3);
    NextByte(x, y, p2, q2);
    NextByte(Join(x, p2), Join(y, q2), p1, q1);
    NextByte(Join(Join(x, p2), p1), Join(Join(y, q2), q1), p0, q0);
  }

  /** Exclusive or and conjunction of words are those of bit vectors. */
  lemma WordOperators(a: bv32, b: bv32)
    ensures Xor(Word(a), Word(b)) == Word(XorWord(a, b))
    ensures And(Word(a), Word(b)) == Word(AndWord(a, b))
  {
    LowBytesOfXor(a, b);
    HighBytesOfXor(a, b);
    BytesOfAnd(a, b);
    WordIsFourBytes(a); WordIsFourBytes(b); WordIsFourBytes(XorWord(a, b)); WordIsFourBytes(AndWord(a, b));
    hide Word, Byte, FourBytes, Xor, And, XorByte, AndByte, XorWord, AndWord;
    FourByteOperators(Byte(a, 3), Byte(a, 2), Byte(a, 1), Byte(a, 0), Byte(b, 3), Byte(b, 2), Byte(b, 1), Byte(b, 0));
  }

  lemma BytesOfComplement(b: bv32)
    ensures Byte(NotWord(b), 0) == NotByte(Byte(b, 0)) && Byte(NotWord(b), 1) == NotByte(Byte(b, 1))
    ensures Byte(NotWord(b), 2) == NotByte(Byte(b, 2)) && Byte(NotWord(b), 3) == NotByte(Byte(b, 3))
  {
  }

  lemma ComplementValue(p: bv8)
    ensures ByteValue(NotByte(p)) == 0xff - ByteValue(p)
  {
  }

  lemma FourByteComplement(p3: bv8, p2: bv8, p1: bv8, p0: bv8)
    ensures FourBytes(NotByte(p3), NotByte(p2), NotByte(p1), NotByte(p0)) == TWO32 - 1 - FourBytes(p3, p2, p1, p0)
  {
    hide ByteValue, NotByte;
    ComplementValue(p3);
    ComplementValue(p2);
    ComplementValue(p1);
    ComplementValue(p0);
  }

  lemma WordComplement(b: bv32)
    ensures Word(NotWord(b)) == TWO32 - 1 - Word(b)
  {
    hide Word, Byte, FourBytes, NotWord, NotByte;
    BytesOfComplement(b);
    WordIsFourBytes(b);
    WordIsFourBytes(NotWord(b));
    FourByteComplement(Byte(b, 3), Byte(b, 2), Byte(b, 1), Byte(b, 0));
  }
}
