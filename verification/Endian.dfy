/** Unsigned integers as byte strings, least or most significant byte first. */
module Endian {
  import opened CWord

  /** The low n bytes of v, least significant first. */
  function Bytes(v: nat, n: nat): (r: seq<U8>)
    ensures |r| == n
  {
    if n == 0 then [] else Pow2Upto8(); [Low(v, 8)] + Bytes(Shr(v, 8), n - 1)
  }

  /** The value of a byte string, least significant byte first. */
  function LE(s: seq<U8>): nat
  {
    if |s| == 0 then 0 else s[0] + 256 * LE(s[1..])
  }

  lemma LEOfZeros(s: seq<U8>)
    requires forall i :: 0 <= i < |s| ==> s[i] == 0
    ensures LE(s) == 0
  {
  }

  lemma {:induction false} BytesOfLE(s: seq<U8>)
    ensures Bytes(LE(s), |s|) == s
  {
    if |s| > 0 {
      BytesOfLE(s[1..]);
      SplitByte(s[0], LE(s[1..]));
    }
  }

  lemma SplitByte(b: U8, x: nat)
    ensures Low(b + 256 * x, 8) == b && Shr(b + 256 * x, 8) == x
  {
    LowByte(b + 256 * x);
  }

  lemma {:induction false} LEOfBytes(v: nat, n: nat)
    requires v < Pow2(8 * n)
    ensures LE(Bytes(v, n)) == v
    decreases n
  {
    if n > 0 {
      Pow2Upto8();
      LowIsMod(v, 8);
      ShrIsDiv(v, 8);
      Pow2Add(8, 8 * (n - 1));
      LEOfBytes(Shr(v, 8), n - 1);
    }
  }

  lemma {:induction false} BytesAt(v: nat, n: nat, i: nat)
    requires i < n
    ensures Bytes(v, n)[i] == Low(Shr(v, 8 * i), 8)
    decreases n
  {
    if i > 0 {
      BytesAt(Shr(v, 8), n - 1, i - 1);
      ShrShr(v, 8, 8 * (i - 1));
    }
  }

  lemma {:induction false} LEBound(s: seq<U8>)
    ensures LE(s) < Pow2(8 * |s|)
  {
    if |s| > 0 {
      LEBound(s[1..]);
      Pow2Add(8, 8 * (|s| - 1));
      Pow2Upto8();
    }
  }

  function Reverse(s: seq<U8>): (r: seq<U8>)
    ensures |r| == |s|
  {
    if |s| == 0 then [] else Reverse(s[1..]) + [s[0]]
  }

  lemma {:induction false} ReverseAppend(s: seq<U8>, b: U8)
    ensures Reverse(s + [b]) == [b] + Reverse(s)
  {
    if |s| == 0 {
      assert s + [b] == [b];
    } else {
      ReverseAppend(s[1..], b);
      assert (s + [b])[1..] == s[1..] + [b];
    }
  }

  lemma {:induction false} ReverseAt(s: seq<U8>, i: nat)
    requires i < |s|
    ensures Reverse(s)[i] == s[|s| - 1 - i]
  {
    if i < |s| - 1 {
      ReverseAt(s[1..], i);
    }
  }

  lemma {:induction false} ReverseReverse(s: seq<U8>)
    ensures Reverse(Reverse(s)) == s
  {
    if |s| > 0 {
      ReverseReverse(s[1..]);
      ReverseAppend(Reverse(s[1..]), s[0]);
    }
  }

  /** The low n bytes of v, most significant first. */
  function BigEndian(v: nat, n: nat): (r: seq<U8>)
    ensures |r| == n
  {
    Reverse(Bytes(v, n))
  }

  lemma BigEndianAt(v: nat, n: nat, i: nat)
    requires i < n
    ensures BigEndian(v, n)[n - 1 - i] == Low(Shr(v, 8 * i), 8)
  {
    ReverseAt(Bytes(v, n), n - 1 - i);
    BytesAt(v, n, i);
  }

  lemma BigEndianInjective(v: nat, w: nat, n: nat)
    requires BigEndian(v, n) == BigEndian(w, n) && v < Pow2(8 * n) && w < Pow2(8 * n)
    ensures v == w
  {
    ReverseReverse(Bytes(v, n));
    ReverseReverse(Bytes(w, n));
    LEOfBytes(v, n);
    LEOfBytes(w, n);
  }
}
