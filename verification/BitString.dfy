/** Byte strings read as bit strings, the most significant bit of byte 0 being bit 0. */
module BitString {
  import opened CWord

  /** Bit i of a byte, the most significant bit being bit 0. */
  predicate ByteBit(b: U8, i: int)
    requires 0 <= i < 8
  {
    TestBit(b, 7 - i)
  }

  /** Bit p of a byte string. */
  predicate Bit(s: seq<U8>, p: int)
    requires 0 <= p < 8 * |s|
  {
    ByteBit(s[p / 8], p % 8)
  }

  /** The number written by the n bits of s that start at bit p. */
  function Field(s: seq<U8>, p: nat, n: nat): (r: nat)
    requires p + n <= 8 * |s|
    ensures r < Pow2(n)
  {
    if n == 0 then 0 else 2 * Field(s, p, n - 1) + if Bit(s, p + n - 1) then 1 else 0
  }

  /** The big-endian integer of a byte string. */
  function BE(s: seq<U8>): nat
  {
    if |s| == 0 then 0 else 256 * BE(s[..|s| - 1]) + s[|s| - 1]
  }

  lemma AlignedBit(s: seq<U8>, q: nat, i: int)
    requires q < |s| && 0 <= i < 8
    ensures Bit(s, 8 * q + i) == ByteBit(s[q], i)
  {
    assert (8 * q + i) / 8 == q && (8 * q + i) % 8 == i;
  }

  lemma BytesEqual(x: U8, y: U8)
    requires forall i :: 0 <= i < 8 ==> ByteBit(x, i) == ByteBit(y, i)
    ensures x == y
  {
    Pow2Upto8();
    forall k: nat
      ensures TestBit(x, k) == TestBit(y, k)
    {
      if k < 8 {
        assert ByteBit(x, 7 - k) == ByteBit(y, 7 - k);
      } else {
        HighBitsZero(x, 8, k);
        HighBitsZero(y, 8, k);
      }
    }
    BitsDetermine(x, y);
  }

  /** A byte string is determined by its bits. */
  lemma BitsDetermineBytes(s: seq<U8>, t: seq<U8>)
    requires |s| == |t|
    requires forall p :: 0 <= p < 8 * |s| ==> Bit(s, p) == Bit(t, p)
    ensures s == t
  {
    forall q | 0 <= q < |s|
      ensures s[q] == t[q]
    {
      forall i | 0 <= i < 8
        ensures ByteBit(s[q], i) == ByteBit(t[q], i)
      {
        AlignedBit(s, q, i);
        AlignedBit(t, q, i);
        assert Bit(s, 8 * q + i) == Bit(t, 8 * q + i);
      }
      BytesEqual(s[q], t[q]);
    }
  }

  lemma {:induction false} FieldSplit(s: seq<U8>, p: nat, m: nat, n: nat)
    requires p + m + n <= 8 * |s|
    ensures Field(s, p, m + n) == Field(s, p, m) * Pow2(n) + Field(s, p + m, n)
    decreases n
  {
    if n > 0 {
      FieldSplit(s, p, m, n - 1);
      TimesPow2(Field(s, p, m), n);
    }
  }

  ghost predicate SameBits(s: seq<U8>, p: nat, t: seq<U8>, q: nat, n: nat)
    requires p + n <= 8 * |s| && q + n <= 8 * |t|
  {
    forall i :: p <= i < p + n ==> Bit(s, i) == Bit(t, i - p + q)
  }

  /** Equal fields have equal bits, and conversely. */
  lemma {:induction false} FieldsAgree(s: seq<U8>, p: nat, t: seq<U8>, q: nat, n: nat)
    requires p + n <= 8 * |s| && q + n <= 8 * |t|
    ensures Field(s, p, n) == Field(t, q, n) <==> SameBits(s, p, t, q, n)
    decreases n
  {
    if n > 0 {
      FieldsAgree(s, p, t, q, n - 1);
      assert SameBits(s, p, t, q, n) <==>
        SameBits(s, p, t, q, n - 1) && Bit(s, p + n - 1) == Bit(t, p + n - 1 - p + q);
      assert q + n - 1 == p + n - 1 - p + q;
    }
  }

  lemma {:induction false} ZeroField(s: seq<U8>, p: nat, n: nat)
    requires p + n <= 8 * |s|
    requires forall i :: p <= i < p + n ==> !Bit(s, i)
    ensures Field(s, p, n) == 0
    decreases n
  {
    if n > 0 {
      ZeroField(s, p, n - 1);
    }
  }

  lemma {:induction false} FieldTop(s: seq<U8>, q: nat, n: nat)
    requires q < |s| && n <= 8
    ensures Field(s, 8 * q, n) == Shr(s[q], 8 - n)
    decreases n
  {
    if n == 0 {
      Pow2Upto8();
      ShrIsDiv(s[q], 8);
    } else {
      FieldTop(s, q, n - 1);
      AlignedBit(s, q, n - 1);
      ShrStep(s[q], 8 - n);
    }
  }

  lemma {:induction false} ShrStep(x: nat, k: nat)
    ensures Shr(x, k) == 2 * Shr(x, k + 1) + if TestBit(x, k) then 1 else 0
    decreases k
  {
    if k > 0 {
      ShrStep(x / 2, k - 1);
    }
  }

  lemma FieldOfByte(s: seq<U8>, q: nat)
    requires q < |s|
    ensures Field(s, 8 * q, 8) == s[q]
  {
    FieldTop(s, q, 8);
  }

  lemma {:induction false} FieldOfPrefix(s: seq<U8>, l: nat)
    requires l <= |s|
    ensures Field(s, 0, 8 * l) == BE(s[..l])
  {
    if l > 0 {
      FieldOfPrefix(s, l - 1);
      FieldSplit(s, 0, 8 * (l - 1), 8);
      FieldOfByte(s, l - 1);
      Pow2Upto8();
      assert s[..l][..l - 1] == s[..l - 1];
    }
  }

  /** A field read bit by bit is the shifted and masked big-endian integer. */
  lemma FieldIsArithmetic(s: seq<U8>, p: nat, n: nat)
    requires p + n <= 8 * |s|
    ensures Field(s, p, n) == BE(s) / Pow2(8 * |s| - p - n) % Pow2(n)
  {
    hide Field, BE, Pow2;
    var r := 8 * |s| - p - n;
    WholeSplits(s, p + n, r);
    FieldSplit(s, 0, p, n);
    QuotientField(BE(s), Pow2(r), Field(s, 0, p + n), Field(s, p + n, r), Pow2(n), Field(s, 0, p), Field(s, p, n));
  }

  lemma WholeSplits(s: seq<U8>, m: nat, r: nat)
    requires m + r == 8 * |s|
    ensures BE(s) == Field(s, 0, m) * Pow2(r) + Field(s, m, r)
  {
    hide Field, BE, Pow2;
    FieldOfPrefix(s, |s|);
    assert s[..|s|] == s;
    FieldSplit(s, 0, m, r);
  }

  lemma QuotientField(x: nat, dr: nat, y: nat, c: nat, dn: nat, a: nat, b: nat)
    requires b < dn && c < dr
    requires x == y * dr + c && y == a * dn + b
    ensures x / dr % dn == b
  {
    assert x / dr == y by {
      assert x == dr * y + c;
      DivUnique(x, dr, y, c);
    }
    assert y % dn == b by {
      assert y == dn * a + b;
      DivUnique(y, dn, a, b);
    }
  }

  /** Dropping the last k bits of a field. */
  lemma FieldShr(s: seq<U8>, p: nat, m: nat, k: nat)
    requires p + m + k <= 8 * |s|
    ensures Shr(Field(s, p, m + k), k) == Field(s, p, m)
  {
    FieldSplit(s, p, m, k);
    CutOfSum(Field(s, p, m), Field(s, p + m, k), k);
  }

  /** Keeping the last n bits of a field. */
  lemma FieldLow(s: seq<U8>, p: nat, m: nat, n: nat)
    requires p + m + n <= 8 * |s|
    ensures Low(Field(s, p, m + n), n) == Field(s, p + m, n)
  {
    FieldSplit(s, p, m, n);
    CutOfSum(Field(s, p, m), Field(s, p + m, n), n);
  }
}
