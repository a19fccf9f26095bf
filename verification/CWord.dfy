/** C's unsigned integers as naturals, with the bitwise operators defined bit by bit. */
module CWord {
  type U8 = x: int | 0 <= x < 0x100
  type U16 = x: int | 0 <= x < 0x1_0000
  type U32 = x: int | 0 <= x < 0x1_0000_0000
  type U64 = x: int | 0 <= x < 0x1_0000_0000_0000_0000

  const TWO32 := 0x1_0000_0000
  const TWO64 := 0x1_0000_0000_0000_0000

  function Pow2(n: nat): (r: nat)
    ensures r >= 1
  {
    if n == 0 then 1 else 2 * Pow2(n - 1)
  }

  /** Bit k of x, the least significant bit being bit 0. */
  predicate TestBit(x: nat, k: nat)
  {
    if k == 0 then x % 2 == 1 else TestBit(x / 2, k - 1)
  }

  /** That is the bit of weight 2^k. */
  lemma {:induction false} TestBitIsArithmetic(x: nat, k: nat)
    ensures TestBit(x, k) <==> x / Pow2(k) % 2 == 1
    decreases k
  {
    if k > 0 {
      TestBitIsArithmetic(x / 2, k - 1);
      DivDiv(x, 2, Pow2(k - 1));
    }
  }

  function And(x: nat, y: nat): (r: nat)
    ensures r <= x && r <= y
  {
    if x == 0 || y == 0 then 0 else 2 * And(x / 2, y / 2) + (if x % 2 == 1 && y % 2 == 1 then 1 else 0)
  }

  function Or(x: nat, y: nat): (r: nat)
    ensures x <= r && y <= r
    ensures r <= x + y
    decreases x + y
  {
    if x == 0 then y else if y == 0 then x
    else 2 * Or(x / 2, y / 2) + (if x % 2 == 1 || y % 2 == 1 then 1 else 0)
  }

  function Xor(x: nat, y: nat): (r: nat)
    ensures r <= x + y
    decreases x + y
  {
    if x == 0 then y else if y == 0 then x
    else 2 * Xor(x / 2, y / 2) + (if x % 2 != y % 2 then 1 else 0)
  }

  /** x << k before any truncation. */
  function Shl(x: nat, k: nat): nat
    decreases k, x
  {
    if k == 0 then x else Shl(2 * x, k - 1)
  }

  /** x >> k. */
  function Shr(x: nat, k: nat): (r: nat)
    ensures r <= x
    decreases k, x
  {
    if k == 0 then x else Shr(x / 2, k - 1)
  }

  /** The low n bits of x: conversion to an n-bit unsigned type. */
  function Low(x: nat, n: nat): (r: nat)
    ensures r < Pow2(n)
    decreases n, x
  {
    if n == 0 then 0 else 2 * Low(x / 2, n - 1) + x % 2
  }

  lemma {:induction false} AndBit(x: nat, y: nat, k: nat)
    ensures TestBit(And(x, y), k) == (TestBit(x, k) && TestBit(y, k))
    decreases k
  {
    if x == 0 || y == 0 {
      ZeroBit(k);
    } else if k > 0 {
      AndBit(x / 2, y / 2, k - 1);
    }
  }

  lemma {:induction false} ZeroBit(k: nat)
    ensures !TestBit(0, k)
  {
    if k > 0 { ZeroBit(k - 1); }
  }

  lemma {:induction false} OrBit(x: nat, y: nat, k: nat)
    ensures TestBit(Or(x, y), k) == (TestBit(x, k) || TestBit(y, k))
    decreases k
  {
    if x == 0 || y == 0 {
      ZeroBit(k);
    } else if k > 0 {
      OrBit(x / 2, y / 2, k - 1);
    }
  }

  lemma {:induction false} XorBit(x: nat, y: nat, k: nat)
    ensures TestBit(Xor(x, y), k) == (TestBit(x, k) != TestBit(y, k))
    decreases k
  {
    if x == 0 || y == 0 {
      ZeroBit(k);
    } else if k > 0 {
      XorBit(x / 2, y / 2, k - 1);
    }
  }

  lemma {:induction false} ShlBit(x: nat, n: nat, k: nat)
    ensures TestBit(Shl(x, n), k) == (k >= n && TestBit(x, k - n))
    decreases n
  {
    if n > 0 {
      ShlBit(2 * x, n - 1, k);
      if k == n - 1 {
        assert (2 * x) % 2 == 0;
      }
    }
  }

  lemma {:induction false} ShrBit(x: nat, n: nat, k: nat)
    ensures TestBit(Shr(x, n), k) == TestBit(x, k + n)
    decreases n
  {
    if n > 0 { ShrBit(x / 2, n - 1, k); }
  }

  lemma {:induction false} LowBit(x: nat, n: nat, k: nat)
    ensures TestBit(Low(x, n), k) == (k < n && TestBit(x, k))
    decreases n
  {
    if n == 0 {
      ZeroBit(k);
    } else if k > 0 {
      LowBit(x / 2, n - 1, k - 1);
    }
  }

  lemma {:induction false} ShlIsTimes(x: nat, k: nat)
    ensures Shl(x, k) == x * Pow2(k)
    decreases k
  {
    if k > 0 {
      ShlIsTimes(2 * x, k - 1);
      assert 2 * x * Pow2(k - 1) == x * (2 * Pow2(k - 1));
    }
  }

  lemma {:induction false} ShrIsDiv(x: nat, k: nat)
    ensures Shr(x, k) == x / Pow2(k)
    decreases k
  {
    if k > 0 {
      ShrIsDiv(x / 2, k - 1);
      DivDiv(x, 2, Pow2(k - 1));
    }
  }

  lemma DivDiv(x: nat, a: nat, b: nat)
    requires a > 0 && b > 0
    ensures a * b > 0
    ensures x / a / b == x / (a * b)
  {
    var q, r := x / a / b, x / a % b;
    var s := x % a;
    assert x / a == b * q + r;
    assert x == a * (b * q + r) + s;
    assert a * (b * q + r) == (a * b) * q + a * r;
    assert 0 <= a * r <= a * (b - 1) ;
    assert a * (b - 1) == a * b - a;
    DivUnique(x, a * b, q, a * r + s);
  }

  lemma DivUnique(x: int, d: nat, q: int, r: int)
    requires d > 0 && 0 <= r < d && x == d * q + r
    ensures x / d == q && x % d == r
  {
    EuclidUnique(d, q, r, x / d, x % d);
  }

  lemma EuclidUnique(d: nat, q: int, r: int, q': int, r': int)
    requires 0 <= r < d && 0 <= r' < d && d * q + r == d * q' + r'
    ensures q == q' && r == r'
  {
    if q > q' {
      MulGap(d, q, q');
    } else if q < q' {
      MulGap(d, q', q);
    }
  }

  lemma {:induction false} MulGap(d: nat, a: int, b: int)
    requires a > b
    ensures d * a >= d * b + d
    decreases a - b
  {
    if a > b + 1 {
      MulGap(d, a - 1, b);
    }
    assert d * a == d * (a - 1) + d;
  }

  lemma QuotientBelow(q: nat, s: nat, h: nat)
    requires q < s * h
    ensures s > 0 && q / s < h
  {
    if q / s >= h {
      MulGap(s, q / s + 1, h);
    }
  }

  lemma {:induction false} LowIsMod(x: nat, n: nat)
    ensures Low(x, n) == x % Pow2(n)
  {
    if n > 0 {
      LowIsMod(x / 2, n - 1);
      ModDoubles(x, Pow2(n - 1));
    }
  }

  lemma ModDoubles(x: nat, p: nat)
    requires p > 0
    ensures x % (2 * p) == 2 * (x / 2 % p) + x % 2
  {
    var q, r := x / 2 / p, x / 2 % p;
    DoubleSplit(x, p, q, r);
    DivUnique(x, 2 * p, q, 2 * r + x % 2);
  }

  lemma DoubleSplit(x: nat, p: nat, q: nat, r: nat)
    requires x / 2 == p * q + r
    ensures x == (2 * p) * q + (2 * r + x % 2)
  {
  }

  lemma {:induction false} OrBound(x: nat, y: nat, n: nat)
    requires x < Pow2(n) && y < Pow2(n)
    ensures Or(x, y) < Pow2(n)
    decreases n
  {
    if n > 0 && x != 0 && y != 0 {
      OrBound(x / 2, y / 2, n - 1);
    }
  }

  /** The bits of the constant 2^w - 2^n: ones from bit n up to bit w - 1. */
  lemma {:induction false} MaskBit(w: nat, n: nat, k: nat)
    requires n <= w
    ensures Pow2(n) <= Pow2(w)
    ensures TestBit(Pow2(w) - Pow2(n), k) == (n <= k < w)
    decreases w, n, k
  {
    if w == n {
      ZeroBit(k);
    } else if n > 0 {
      MaskBit(w - 1, n - 1, if k > 0 then k - 1 else 0);
      assert (Pow2(w) - Pow2(n)) / 2 == Pow2(w - 1) - Pow2(n - 1);
    } else {
      MaskBit(w - 1, 0, if k > 0 then k - 1 else 0);
      assert (Pow2(w) - 1) / 2 == Pow2(w - 1) - 1;
    }
  }

  lemma {:induction false} HighBitsZero(x: nat, n: nat, k: nat)
    requires x < Pow2(n) && k >= n
    ensures !TestBit(x, k)
    decreases n
  {
    if n == 0 {
      ZeroBit(k);
    } else {
      HighBitsZero(x / 2, n - 1, k - 1);
    }
  }

  lemma {:induction false} BitsDetermine(x: nat, y: nat)
    requires forall k: nat :: TestBit(x, k) == TestBit(y, k)
    ensures x == y
    decreases x + y
  {
    assert TestBit(x, 0) == TestBit(y, 0);
    if x > 0 || y > 0 {
      forall k: nat
        ensures TestBit(x / 2, k) == TestBit(y / 2, k)
      {
        assert TestBit(x, k + 1) == TestBit(y, k + 1);
      }
      BitsDetermine(x / 2, y / 2);
    }
  }

  lemma {:induction false} ComplementBit(x: nat, w: nat, k: nat)
    requires x < Pow2(w)
    ensures TestBit(Pow2(w) - 1 - x, k) == (k < w && !TestBit(x, k))
    decreases w
  {
    if w == 0 {
      ZeroBit(k);
    } else {
      assert (Pow2(w) - 1 - x) / 2 == Pow2(w - 1) - 1 - x / 2;
      if k > 0 {
        ComplementBit(x / 2, w - 1, k - 1);
      }
    }
  }

  lemma {:induction false} Pow2Add(m: nat, n: nat)
    ensures Pow2(m + n) == Pow2(m) * Pow2(n)
    decreases m
  {
    if m > 0 {
      Pow2Add(m - 1, n);
      assert 2 * (Pow2(m - 1) * Pow2(n)) == (2 * Pow2(m - 1)) * Pow2(n);
    }
  }

  /** Or of a multiple of 2^n and a number below 2^n is their sum. */
  lemma {:induction false} OrIsPlus(x: nat, y: nat, n: nat)
    requires y < Pow2(n)
    ensures Or(Shl(x, n), y) == x * Pow2(n) + y
    decreases n
  {
    hide Shl;
    ShlIsTimes(x, n);
    if n > 0 {
      ShlDoubles(x, n);
      OrEven(Shl(x, n - 1), y);
      OrIsPlus(x, y / 2, n - 1);
      TimesPow2(x, n);
    }
  }

  lemma {:induction false} OrCommutes(x: nat, y: nat)
    ensures Or(x, y) == Or(y, x)
    decreases x
  {
    if x != 0 && y != 0 {
      OrCommutes(x / 2, y / 2);
    }
  }

  lemma OrEven(a: nat, b: nat)
    ensures Or(2 * a, b) == 2 * Or(a, b / 2) + b % 2
  {
  }

  lemma ShlDoubles(x: nat, n: nat)
    requires n > 0
    ensures Shl(x, n) == 2 * Shl(x, n - 1)
  {
    ShlIsTimes(x, n);
    ShlIsTimes(x, n - 1);
    TimesPow2(x, n);
  }

  lemma TimesPow2(f: nat, n: nat)
    requires n > 0
    ensures f * Pow2(n) == 2 * (f * Pow2(n - 1))
  {
  }

  lemma LowByte(x: nat)
    ensures Low(x, 8) == x % 0x100 && Shr(x, 8) == x / 0x100
  {
    assert Pow2(8) == 0x100;
    LowIsMod(x, 8);
    ShrIsDiv(x, 8);
  }

  /** Cutting a number into a high part and its last n bits. */
  lemma CutOfSum(q: nat, r: nat, n: nat)
    requires r < Pow2(n)
    ensures Shr(q * Pow2(n) + r, n) == q && Low(q * Pow2(n) + r, n) == r
  {
    var x, d := q * Pow2(n) + r, Pow2(n);
    assert x == d * q + r;
    DivUnique(x, d, q, r);
    ShrIsDiv(x, n);
    LowIsMod(x, n);
  }

  lemma LowSmall(x: nat, n: nat)
    requires x < Pow2(n)
    ensures Low(x, n) == x
  {
    CutOfSum(0, x, n);
  }

  /** Or-ing in the next byte below a byte-shifted accumulator. */
  lemma OrNextByte(x: nat, b: U8, n: nat)
    ensures Or(Shl(x, n + 8), Shl(b, n)) == Shl(256 * x + b, n)
  {
    var p := Pow2(n);
    assert Pow2(n + 8) == 0x100 * p by {
      Pow2Add(n, 8);
      assert Pow2(8) == 0x100;
    }
    ShlIsTimes(b, n);
    ShlIsTimes(256 * x + b, n);
    NextByteValue(x, b, p);
    OrIsPlus(x, Shl(b, n), n + 8);
  }

  lemma NextByteValue(x: nat, b: U8, p: nat)
    requires p >= 1
    ensures b * p < 0x100 * p
    ensures (256 * x + b) * p == x * (0x100 * p) + b * p
  {
  }

  lemma Pow2Upto8()
    ensures Pow2(0) == 1 && Pow2(1) == 2 && Pow2(2) == 4 && Pow2(3) == 8 && Pow2(4) == 16
    ensures Pow2(5) == 32 && Pow2(6) == 64 && Pow2(7) == 128 && Pow2(8) == 256
  {
  }

  lemma Pow2OfBytes()
    ensures Pow2(8) == 0x100 && Pow2(16) == 0x1_0000 && Pow2(24) == 0x100_0000 && Pow2(32) == 0x1_0000_0000
    ensures Pow2(40) == 0x100_0000_0000 && Pow2(48) == 0x1_0000_0000_0000
    ensures Pow2(56) == 0x100_0000_0000_0000 && Pow2(64) == 0x1_0000_0000_0000_0000
  {
    Pow2Upto8();
    Pow2Add(8, 8); Pow2Add(16, 8); Pow2Add(24, 8); Pow2Add(32, 8); Pow2Add(40, 8); Pow2Add(48, 8); Pow2Add(56, 8);
  }

  lemma {:induction false} Pow2Mono(m: nat, n: nat)
    requires m <= n
    ensures Pow2(m) <= Pow2(n)
  {
    if m < n {
      Pow2Mono(m, n - 1);
    }
  }

  lemma {:induction false} ShrShr(x: nat, a: nat, b: nat)
    ensures Shr(Shr(x, a), b) == Shr(x, a + b)
    decreases a
  {
    if a > 0 {
      ShrShr(x / 2, a - 1, b);
    }
  }

  /** The constant with ones in bits s up to s + n - 1. */
  function Mask(s: nat, n: nat): nat
  {
    MaskBit(s + n, s, 0);
    Pow2(s + n) - Pow2(s)
  }

  /** Masking selects a group of bits and leaves it where it is. */
  lemma MaskedField(x: nat, s: nat, n: nat)
    ensures And(x, Mask(s, n)) == Shl(Low(Shr(x, s), n), s)
  {
    forall k: nat
      ensures TestBit(And(x, Mask(s, n)), k) == TestBit(Shl(Low(Shr(x, s), n), s), k)
    {
      AndBit(x, Mask(s, n), k);
      MaskBit(s + n, s, k);
      ShlBit(Low(Shr(x, s), n), s, k);
      if k >= s {
        LowBit(Shr(x, s), n, k - s);
        ShrBit(x, s, k - s);
      }
    }
    BitsDetermine(And(x, Mask(s, n)), Shl(Low(Shr(x, s), n), s));
  }

  lemma MaskedByte(x: nat)
    ensures And(x, 0xFF) == Low(x, 8)
  {
    Pow2Upto8();
    MaskedField(x, 0, 8);
  }
}
