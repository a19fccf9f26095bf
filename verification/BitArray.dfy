/**
 * copy_bits and its relatives. Arrays stand for C memory: a source array may be longer than the source_length that
 * the caller passes, and its bytes beyond the selected range are arbitrary. Source and destination do not alias.
 * Ghost results named `loaded` are the highest source index that has been loaded, -1 for none.
 */
module BitArray {
  import opened BitString
  import opened CWord

  const CHAR_BIT := 8
  const REVERSE_MASK: seq<U8> := [0x00, 0x80, 0xc0, 0xe0, 0xf0, 0xf8, 0xfc, 0xfe, 0xff]
  const REVERSE_MASK_XOR: seq<U8> := [0xff, 0x7f, 0x3f, 0x1f, 0x0f, 0x07, 0x03, 0x01, 0x00]

  /** The two mask tables select the first m bits of a byte, and all the others. */
  lemma ReverseMaskBit(m: int, i: int)
    requires 0 <= m <= 8 && 0 <= i < 8
    ensures ByteBit(REVERSE_MASK[m], i) == (i < m)
    ensures ByteBit(REVERSE_MASK_XOR[m], i) == (i >= m)
  {
    Pow2Upto8();
    MaskBit(8, 8 - m, 7 - i);
    MaskBit(8 - m, 0, 7 - i);
  }

  /** The one-line meaning of a bit copy: n bits from so, in order, to off; every other bit as before. */
  ghost predicate Copied(src: seq<U8>, so: nat, n: nat, before: seq<U8>, off: nat, after: seq<U8>)
    requires so + n <= 8 * |src| && off + n <= 8 * |before|
  {
    && |after| == |before|
    && forall p :: 0 <= p < 8 * |before| ==>
         Bit(after, p) == if off <= p < off + n then Bit(src, so + p - off) else Bit(before, p)
  }

  /** Replacing byte d by one with the next m source bits carries a partial copy m bits further. */
  lemma CopiedExtends(src: seq<U8>, so: nat, k: nat, before: seq<U8>, off: nat, mid: seq<U8>, d: nat, m: nat, b: U8)
    requires so + k + m <= 8 * |src| && off + k + m <= 8 * |before|
    requires Copied(src, so, k, before, off, mid)
    requires 8 * d <= off + k && off + k + m <= 8 * d + 8 && d < |mid|
    requires forall i :: 0 <= i < 8 ==>
               ByteBit(b, i) == if off + k <= 8 * d + i < off + k + m then Bit(src, so + 8 * d + i - off)
                                else ByteBit(mid[d], i)
    ensures Copied(src, so, k + m, before, off, mid[d := b])
  {
    var after := mid[d := b];
    forall p | 0 <= p < 8 * |before|
      ensures Bit(after, p) == if off <= p < off + k + m then Bit(src, so + p - off) else Bit(before, p)
    {
      if p / 8 == d {
        assert after[p / 8] == b;
        assert 8 * d + p % 8 == p;
        assert Bit(mid, p) == ByteBit(mid[d], p % 8);
      } else {
        assert Bit(after, p) == Bit(mid, p);
      }
    }
  }

  /** (uint8_t)(x << k) */
  function ShiftLeft8(x: U8, k: nat): U8
  {
    Pow2Upto8();
    Low(Shl(x, k), 8)
  }

  function Or8(x: U8, y: U8): U8
  {
    Pow2Upto8();
    OrBound(x, y, 8);
    Or(x, y)
  }

  lemma OrByteBit(x: U8, y: U8, i: int)
    requires 0 <= i < 8
    ensures ByteBit(Or8(x, y), i) == (ByteBit(x, i) || ByteBit(y, i))
  {
    OrBit(x, y, 7 - i);
  }

  lemma AndByteBit(x: U8, y: U8, i: int)
    requires 0 <= i < 8
    ensures ByteBit(And(x, y), i) == (ByteBit(x, i) && ByteBit(y, i))
  {
    AndBit(x, y, 7 - i);
  }

  lemma ShiftLeftByteBit(x: U8, k: nat, i: int)
    requires 0 <= i < 8 && k <= 8
    ensures ByteBit(ShiftLeft8(x, k), i) == (i + k < 8 && ByteBit(x, i + k))
  {
    LowBit(Shl(x, k), 8, 7 - i);
    ShlBit(x, k, 7 - i);
  }

  lemma ShiftRightByteBit(x: U8, k: nat, i: int)
    requires 0 <= i < 8 && k <= 8
    ensures ByteBit(Shr(x, k), i) == (i >= k && ByteBit(x, i - k))
  {
    ShrBit(x, k, 7 - i);
    if i < k {
      Pow2Upto8();
      HighBitsZero(x, 8, 7 - i + k);
    }
  }

  /** Two neighbouring source bytes shifted together: (uint8_t)(x << l) | y >> (8 - l). */
  function Funnel(x: U8, y: U8, l: int): U8
    requires 0 < l < 8
  {
    Or8(ShiftLeft8(x, l), Shr(y, 8 - l))
  }

  lemma FunnelByteBit(x: U8, y: U8, l: int, i: int)
    requires 0 < l < 8 && 0 <= i < 8
    ensures ByteBit(Funnel(x, y, l), i) == if i + l < 8 then ByteBit(x, i + l) else ByteBit(y, i + l - 8)
  {
    OrByteBit(ShiftLeft8(x, l), Shr(y, 8 - l), i);
    ShiftLeftByteBit(x, l, i);
    ShiftRightByteBit(y, 8 - l, i);
  }

  /** The funnelled byte holds the eight source bits that start l bits into byte q. */
  lemma FunnelBit(s: seq<U8>, q: nat, l: int, i: int)
    requires q + 1 < |s| && 0 < l < 8 && 0 <= i < 8
    ensures ByteBit(Funnel(s[q], s[q + 1], l), i) == Bit(s, 8 * q + l + i)
  {
    FunnelByteBit(s[q], s[q + 1], l, i);
    if i + l < 8 {
      AlignedBit(s, q, i + l);
    } else {
      AlignedBit(s, q + 1, i + l - 8);
    }
  }

  /** The range check at the head of copy_bits. */
  predicate RangesFit(sourceLength: U16, so: U16, n: U16, destinationLength: U16, off: U16)
  {
    n >= 1 && so + n <= sourceLength * CHAR_BIT && off + n <= destinationLength * CHAR_BIT
  }

  /** Index of the last source byte that copy_bits loads. */
  function LastByteLoaded(so: nat, n: nat, off: nat): nat
    requires n >= 1
  {
    so / 8 + (off % 8 + n - 1) / 8 + if so % 8 > off % 8 then 1 else 0
  }

  function Min(a: int, b: int): int { if a < b then a else b }

  /** The macro PREPARE_FIRST_COPY, which edits *destination, bit_count and c. */
  method PrepareFirstCopy(destination: array<U8>, d: nat, modulo: nat, bitCount: U16, c: U8)
    returns (bitCount': U16, c': U8)
    requires d < destination.Length && modulo < 8 && bitCount >= 1
    modifies destination
    ensures bitCount' == bitCount - Min(bitCount, 8 - modulo)
    ensures destination[..] == old(destination[..])[d := destination[d]]
    ensures forall i :: 0 <= i < 8 ==>
              ByteBit(destination[d], i) == ((i < modulo || i >= modulo + bitCount) && ByteBit(old(destination[d]), i))
    ensures forall i :: 0 <= i < 8 ==> ByteBit(c', i) == (ByteBit(c, i) && i < modulo + bitCount)
  {
    if bitCount >= CHAR_BIT - modulo {
      destination[d] := And(destination[d], REVERSE_MASK[modulo]);
      bitCount' := bitCount - (CHAR_BIT - modulo);
      c' := c;
    } else {
      destination[d] := And(destination[d], Or8(REVERSE_MASK[modulo], REVERSE_MASK_XOR[modulo + bitCount]));
      c' := And(c, REVERSE_MASK[modulo + bitCount]);
      bitCount' := 0;
    }
    forall i | 0 <= i < 8
      ensures ByteBit(destination[d], i) == ((i < modulo || i >= modulo + bitCount) && ByteBit(old(destination[d]), i))
      ensures ByteBit(c', i) == (ByteBit(c, i) && i < modulo + bitCount)
    {
      ReverseMaskBit(modulo, i);
      if bitCount >= CHAR_BIT - modulo {
        AndByteBit(old(destination[d]), REVERSE_MASK[modulo], i);
      } else {
        ReverseMaskBit(modulo + bitCount, i);
        OrByteBit(REVERSE_MASK[modulo], REVERSE_MASK_XOR[modulo + bitCount], i);
        AndByteBit(old(destination[d]), Or8(REVERSE_MASK[modulo], REVERSE_MASK_XOR[modulo + bitCount]), i);
        AndByteBit(c, REVERSE_MASK[modulo + bitCount], i);
      }
    }
  }

  /** Bits lo up to hi - 1 of byte c are the source bits from p on. */
  ghost predicate Holds(c: U8, lo: nat, hi: nat, src: seq<U8>, p: nat)
    requires lo <= hi <= 8 && p + hi - lo <= 8 * |src|
  {
    forall i :: lo <= i < hi ==> ByteBit(c, i) == Bit(src, p + i - lo)
  }

  /** PREPARE_FIRST_COPY() and the or-ing of c that follows it. */
  method FirstCopy(ghost src: seq<U8>, ghost so: nat, destination: array<U8>, off: nat, bitCount: U16, c: U8)
    returns (remaining: U16)
    requires bitCount >= 1 && off + bitCount <= 8 * destination.Length && so + bitCount <= 8 * |src|
    requires forall i :: 0 <= i < off % 8 ==> !ByteBit(c, i)
    requires Holds(c, off % 8, Min(8, off % 8 + bitCount), src, so)
    modifies destination
    ensures remaining == bitCount - Min(bitCount, 8 - off % 8)
    ensures Copied(src, so, bitCount - remaining, old(destination[..]), off, destination[..])
  {
    ghost var before := destination[..];
    var d, modulo := off / CHAR_BIT, off % CHAR_BIT;
    var c';
    remaining, c' := PrepareFirstCopy(destination, d, modulo, bitCount, c);
    ghost var kept := destination[d];
    destination[d] := Or8(destination[d], c');
    forall i | 0 <= i < 8
      ensures ByteBit(destination[d], i) ==
              if modulo <= i < modulo + bitCount then Bit(src, so + i - modulo) else ByteBit(before[d], i)
    {
      OrByteBit(kept, c', i);
    }
    assert destination[..] == before[d := destination[d]];
    CopiedExtends(src, so, 0, before, off, before, d, bitCount - remaining, destination[d]);
  }

  lemma CopiedBlock(src: seq<U8>, so: nat, k: nat, before: seq<U8>, off: nat, mid: seq<U8>, s: nat, d: nat, len: nat)
    requires so + k + 8 * len <= 8 * |src| && off + k + 8 * len <= 8 * |before|
    requires Copied(src, so, k, before, off, mid)
    requires len > 0 ==> so + k == 8 * s && off + k == 8 * d
    requires s + len <= |src| && d + len <= |mid|
    ensures Copied(src, so, k + 8 * len, before, off, mid[..d] + src[s..s + len] + mid[d + len..])
  {
    var after := mid[..d] + src[s..s + len] + mid[d + len..];
    forall p | 0 <= p < 8 * |before|
      ensures Bit(after, p) == if off <= p < off + k + 8 * len then Bit(src, so + p - off) else Bit(before, p)
    {
      if d <= p / 8 < d + len {
        var q := s + p / 8 - d;
        assert after[p / 8] == src[q];
        AlignedBit(src, q, p % 8);
        assert 8 * q + p % 8 == so + p - off;
      } else {
        assert after[p / 8] == mid[p / 8];
        assert Bit(after, p) == Bit(mid, p);
      }
    }
  }

  lemma TailByteBit(oldByte: U8, c: U8, masked: U8, n: int, i: int)
    requires 0 <= n <= 8 && 0 <= i < 8
    requires masked == And(REVERSE_MASK[n], c) || masked == And(c, REVERSE_MASK[n])
    ensures ByteBit(Or8(And(oldByte, REVERSE_MASK_XOR[n]), masked), i)
         == if i < n then ByteBit(c, i) else ByteBit(oldByte, i)
  {
    ReverseMaskBit(n, i);
    AndByteBit(oldByte, REVERSE_MASK_XOR[n], i);
    AndByteBit(REVERSE_MASK[n], c, i);
    AndByteBit(c, REVERSE_MASK[n], i);
    OrByteBit(And(oldByte, REVERSE_MASK_XOR[n]), masked, i);
  }

  /** The final partial byte: mask *destination, then or the selected bits of c into it. */
  method LastCopy(ghost src: seq<U8>, ghost so: nat, ghost n: nat, ghost before: seq<U8>, ghost off: nat,
                  destination: array<U8>, d: nat, c: U8, bitCountModulo: nat)
    requires 0 < bitCountModulo < 8 && bitCountModulo <= n
    requires so + n <= 8 * |src| && off + n <= 8 * |before| && off + n == 8 * d + bitCountModulo
    requires Copied(src, so, n - bitCountModulo, before, off, destination[..])
    requires Holds(c, 0, bitCountModulo, src, so + n - bitCountModulo)
    modifies destination
    ensures Copied(src, so, n, before, off, destination[..])
  {
    ghost var mid := destination[..];
    destination[d] := And(destination[d], REVERSE_MASK_XOR[bitCountModulo]);
    destination[d] := Or8(destination[d], And(c, REVERSE_MASK[bitCountModulo]));
    forall i | 0 <= i < 8
      ensures ByteBit(destination[d], i) == if i < bitCountModulo then ByteBit(c, i) else ByteBit(mid[d], i)
    {
      TailByteBit(mid[d], c, And(c, REVERSE_MASK[bitCountModulo]), bitCountModulo, i);
    }
    assert destination[..] == mid[d := destination[d]];
    CopiedExtends(src, so, n - bitCountModulo, before, off, mid, d, bitCountModulo, destination[d]);
  }

  lemma AlignedLead(src: seq<U8>, so: nat, n: nat)
    requires n >= 1 && so + n <= 8 * |src|
    ensures var c := And(REVERSE_MASK_XOR[so % 8], src[so / 8]);
            && (forall i :: 0 <= i < so % 8 ==> !ByteBit(c, i))
            && Holds(c, so % 8, Min(8, so % 8 + n), src, so)
  {
    var c := And(REVERSE_MASK_XOR[so % 8], src[so / 8]);
    forall i | 0 <= i < 8
      ensures ByteBit(c, i) == (i >= so % 8 && Bit(src, so - so % 8 + i))
    {
      ReverseMaskBit(so % 8, i);
      AndByteBit(REVERSE_MASK_XOR[so % 8], src[so / 8], i);
      AlignedBit(src, so / 8, i);
    }
  }

  lemma AlignedByte(src: seq<U8>, q: nat, n: nat)
    requires n <= 8 && q < |src|
    ensures Holds(src[q], 0, n, src, 8 * q)
  {
    var c := src[q];
    forall i | 0 <= i < n
      ensures ByteBit(c, i) == Bit(src, 8 * q + i)
    {
      AlignedBit(src, q, i);
    }
  }

  lemma FunnelByte(src: seq<U8>, q: nat, l: int, n: nat)
    requires n <= 8 && q + 1 < |src| && 0 < l < 8
    ensures Holds(Funnel(src[q], src[q + 1], l), 0, n, src, 8 * q + l)
  {
    var c := Funnel(src[q], src[q + 1], l);
    forall i | 0 <= i < n
      ensures ByteBit(c, i) == Bit(src, 8 * q + l + i)
    {
      FunnelBit(src, q, l, i);
    }
  }

  /** The branch for equal offsets within a byte. */
  method CopyAligned(source: array<U8>, so: U16, bitCount: U16, destination: array<U8>, off: U16)
    returns (ghost loaded: int)
    requires source != destination && bitCount >= 1 && so % 8 == off % 8
    requires off + bitCount <= 8 * destination.Length && so + bitCount <= 8 * source.Length
    modifies destination
    ensures Copied(source[..], so, bitCount, old(destination[..]), off, destination[..])
    ensures loaded == LastByteLoaded(so, bitCount, off)
  {
    ghost var src, before := source[..], destination[..];
    loaded := -1;
    var s, d := so / CHAR_BIT, off / CHAR_BIT;
    var modulo := off % CHAR_BIT;
    var remaining := bitCount;

    if modulo > 0 {
      AlignedLead(src, so, bitCount);
      remaining := FirstCopy(src, so, destination, off, bitCount, And(REVERSE_MASK_XOR[modulo], source[s]));
      loaded := s;
      s, d := s + 1, d + 1;
    }
    ghost var done := bitCount - remaining;
    assert remaining > 0 ==> 8 * s == so + done && 8 * d == off + done;

    var byteLen := remaining / CHAR_BIT;
    var bitCountModulo := remaining % CHAR_BIT;
    loaded := CopyBytes(src, so, done, before, off, source, s, destination, d, byteLen, loaded);
    s, d := s + byteLen, d + byteLen;

    if bitCountModulo > 0 {
      AlignedByte(src, s, bitCountModulo);
      LastCopy(src, so, bitCount, before, off, destination, d, source[s], bitCountModulo);
      loaded := s;
    }
  }

  /** memcpy of the whole bytes. */
  method CopyBytes(ghost src: seq<U8>, ghost so: nat, ghost k: nat, ghost before: seq<U8>, ghost off: nat,
                   source: array<U8>, s: nat, destination: array<U8>, d: nat, byteLen: nat, ghost loaded0: int)
    returns (ghost loaded: int)
    requires source != destination && src == source[..]
    requires so + k + 8 * byteLen <= 8 * |src| && off + k + 8 * byteLen <= 8 * |before|
    requires Copied(src, so, k, before, off, destination[..])
    requires byteLen > 0 ==> so + k == 8 * s && off + k == 8 * d
    modifies destination
    ensures Copied(src, so, k + 8 * byteLen, before, off, destination[..])
    ensures loaded == if byteLen > 0 then s + byteLen - 1 else loaded0
  {
    loaded := loaded0;
    if byteLen > 0 {
      ghost var mid := destination[..];
      forall j | 0 <= j < byteLen {
        destination[d + j] := source[s + j];
      }
      loaded := s + byteLen - 1;
      assert destination[..] == mid[..d] + src[s..s + byteLen] + mid[d + byteLen..];
      CopiedBlock(src, so, k, before, off, mid, s, d, byteLen);
    }
  }

  lemma FunnelLead(src: seq<U8>, so: nat, modulo: nat, n: nat)
    requires n >= 1 && so / 8 + 1 < |src| && modulo < so % 8
    requires so + n <= 8 * |src|
    ensures var c := And(Funnel(src[so / 8], src[so / 8 + 1], so % 8 - modulo), REVERSE_MASK_XOR[modulo]);
            && (forall i :: 0 <= i < modulo ==> !ByteBit(c, i))
            && Holds(c, modulo, Min(8, modulo + n), src, so)
  {
    var f := Funnel(src[so / 8], src[so / 8 + 1], so % 8 - modulo);
    forall i | 0 <= i < 8
      ensures i >= modulo ==> so + i - modulo < 8 * |src|
      ensures ByteBit(And(f, REVERSE_MASK_XOR[modulo]), i) == (i >= modulo && Bit(src, so + i - modulo))
    {
      ReverseMaskBit(modulo, i);
      AndByteBit(f, REVERSE_MASK_XOR[modulo], i);
      FunnelBit(src, so / 8, so % 8 - modulo, i);
    }
  }

  lemma ShiftedLead(src: seq<U8>, so: nat, modulo: nat, n: nat)
    requires n >= 1 && so + n <= 8 * |src| && so % 8 < modulo < 8
    ensures var c := And(Shr(src[so / 8], modulo - so % 8), REVERSE_MASK_XOR[modulo]);
            && (forall i :: 0 <= i < modulo ==> !ByteBit(c, i))
            && Holds(c, modulo, Min(8, modulo + n), src, so)
  {
    var r := modulo - so % 8;
    forall i | 0 <= i < 8
      ensures i >= modulo ==> so + i - modulo < 8 * |src|
      ensures ByteBit(And(Shr(src[so / 8], r), REVERSE_MASK_XOR[modulo]), i)
           == (i >= modulo && Bit(src, so + i - modulo))
    {
      ReverseMaskBit(modulo, i);
      AndByteBit(Shr(src[so / 8], r), REVERSE_MASK_XOR[modulo], i);
      ShiftRightByteBit(src[so / 8], r, i);
      if i >= r {
        AlignedBit(src, so / 8, i - r);
      }
    }
  }

  /** The first byte of the shifting branch. */
  method LineUp(source: array<U8>, so: U16, ghost bitCount: U16, off: U16)
    returns (c: U8, s: nat, leftShift: nat, ghost loaded: int)
    requires bitCount >= 1 && so % 8 != off % 8 && so + bitCount <= 8 * source.Length
    requires LastByteLoaded(so, bitCount, off) < source.Length
    ensures 0 < leftShift < 8
    ensures 8 * s + leftShift == so + 8 - off % 8
    ensures forall i :: 0 <= i < off % 8 ==> !ByteBit(c, i)
    ensures Holds(c, off % 8, Min(8, off % 8 + bitCount), source[..], so)
    ensures loaded == s == so / 8 + if so % 8 > off % 8 then 1 else 0
  {
    s := so / CHAR_BIT;
    var sourceModulo, destinationModulo := so % CHAR_BIT, off % CHAR_BIT;
    if sourceModulo > destinationModulo {
      leftShift := sourceModulo - destinationModulo;
      FunnelLead(source[..], so, destinationModulo, bitCount);
      c := And(Funnel(source[s], source[s + 1], leftShift), REVERSE_MASK_XOR[destinationModulo]);
      loaded := s + 1;
      s := s + 1;
    } else {
      var rightShift := destinationModulo - sourceModulo;
      leftShift := CHAR_BIT - rightShift;
      ShiftedLead(source[..], so, destinationModulo, bitCount);
      c := And(Shr(source[s], rightShift), REVERSE_MASK_XOR[destinationModulo]);
      loaded := s;
    }
  }

  /** The branch for different offsets within a byte. */
  method CopyUnaligned(source: array<U8>, so: U16, bitCount: U16, destination: array<U8>, off: U16)
    returns (ghost loaded: int)
    requires source != destination && bitCount >= 1 && so % 8 != off % 8
    requires off + bitCount <= 8 * destination.Length && so + bitCount <= 8 * source.Length
    requires LastByteLoaded(so, bitCount, off) < source.Length
    modifies destination
    ensures Copied(source[..], so, bitCount, old(destination[..]), off, destination[..])
    ensures loaded == LastByteLoaded(so, bitCount, off)
  {
    ghost var src, before := source[..], destination[..];
    // The first destination byte, from one or two source bytes.
    var c, s, leftShift;
    c, s, leftShift, loaded := LineUp(source, so, bitCount, off);
    var remaining := FirstCopy(src, so, destination, off, bitCount, c);
    var d := off / CHAR_BIT + 1;

    loaded := CopyShifted(src, so, bitCount, before, off, source, s, leftShift, destination, d, remaining, loaded);
  }

  /** The loop over whole bytes and the final partial byte of the shifting branch. */
  method CopyShifted(ghost src: seq<U8>, ghost so: nat, ghost n: nat, ghost before: seq<U8>, ghost off: nat,
                     source: array<U8>, s0: nat, leftShift: nat, destination: array<U8>, d0: nat, bitCount: nat,
                     ghost loaded0: int) returns (ghost loaded: int)
    requires source != destination && src == source[..] && 0 < leftShift < 8 && bitCount <= n
    requires so + n <= 8 * |src| && off + n <= 8 * |before|
    requires bitCount > 0 ==> 8 * s0 + leftShift == so + n - bitCount && 8 * d0 == off + n - bitCount
    requires bitCount > 0 ==> s0 + (bitCount + 7) / 8 < |src|
    requires Copied(src, so, n - bitCount, before, off, destination[..]) && loaded0 == s0
    modifies destination
    ensures Copied(src, so, n, before, off, destination[..])
    ensures loaded == s0 + (bitCount + 7) / 8
  {
    loaded := loaded0;
    var s, d := s0, d0;
    var c: U8;

    // Whole destination bytes, each from two source bytes.
    var byteLen := bitCount / CHAR_BIT - 1;
    ghost var done := n - bitCount;
    while byteLen >= 0
      invariant -1 <= byteLen && done == n - bitCount % 8 - 8 * (byteLen + 1)
      invariant bitCount > 0 ==> 8 * s + leftShift == so + done && 8 * d == off + done
      invariant loaded == s == s0 + bitCount / 8 - (byteLen + 1)
      invariant Copied(src, so, done, before, off, destination[..])
    {
      c := Funnel(source[s], source[s + 1], leftShift);
      loaded := s + 1;
      FunnelByte(src, s, leftShift, 8);
      WholeCopy(src, so, done, before, off, destination, d, c);
      s, d := s + 1, d + 1;
      done := done + 8;
      byteLen := byteLen - 1;
    }

    // What is left fills a part of one more byte.
    var bitCountModulo := bitCount % CHAR_BIT;
    if bitCountModulo > 0 {
      c := Funnel(source[s], source[s + 1], leftShift);
      loaded := s + 1;
      FunnelByte(src, s, leftShift, bitCountModulo);
      LastCopy(src, so, n, before, off, destination, d, c, bitCountModulo);
    }
  }

  /** One turn of that loop. */
  method WholeCopy(ghost src: seq<U8>, ghost so: nat, ghost k: nat, ghost before: seq<U8>, ghost off: nat,
                   destination: array<U8>, d: nat, c: U8)
    requires so + k + 8 <= 8 * |src| && off + k + 8 <= 8 * |before| && off + k == 8 * d
    requires Copied(src, so, k, before, off, destination[..])
    requires Holds(c, 0, 8, src, so + k)
    modifies destination
    ensures Copied(src, so, k + 8, before, off, destination[..])
  {
    ghost var mid := destination[..];
    destination[d] := c;
    assert destination[..] == mid[d := c];
    CopiedExtends(src, so, k, before, off, mid, d, 8, c);
  }

  method CopyBits(source: array<U8>, sourceLength: U16, sourceOffset: U16, bitCount: U16,
                  destination: array<U8>, destinationLength: U16, destinationOffset: U16)
    returns (ok: bool, ghost loaded: int)
    requires source != destination && destinationLength <= destination.Length
    requires RangesFit(sourceLength, sourceOffset, bitCount, destinationLength, destinationOffset) ==>
               LastByteLoaded(sourceOffset, bitCount, destinationOffset) < source.Length
    modifies destination
    ensures ok <==> && 1 <= bitCount && sourceOffset + bitCount <= 8 * sourceLength
                    && destinationOffset + bitCount <= 8 * destinationLength
    ensures ok ==> sourceOffset + bitCount <= 8 * source.Length
    ensures ok ==> Copied(source[..], sourceOffset, bitCount, old(destination[..]), destinationOffset,
                          destination[..])
    ensures !ok ==> destination[..] == old(destination[..])
    ensures loaded == if ok then LastByteLoaded(sourceOffset, bitCount, destinationOffset) else -1
  {
    if bitCount < 1 {
      return false, -1;
    }
    if sourceOffset + bitCount > sourceLength * CHAR_BIT ||
       destinationOffset + bitCount > destinationLength * CHAR_BIT {
      return false, -1;
    }
    LoadsBeyondRange(sourceOffset, bitCount, destinationOffset);
    if sourceOffset % CHAR_BIT == destinationOffset % CHAR_BIT {
      loaded := CopyAligned(source, sourceOffset, bitCount, destination, destinationOffset);
    } else {
      loaded := CopyUnaligned(source, sourceOffset, bitCount, destination, destinationOffset);
    }
    ok := true;
  }

  /**
   * The loads end with the byte of the last selected bit, or one byte behind it exactly when the range ends earlier
   * within its byte in the destination than in the source.
   */
  lemma LoadsBeyondRange(so: nat, n: nat, off: nat)
    requires n >= 1
    ensures LastByteLoaded(so, n, off)
         == (so + n - 1) / 8 + if (off + n - 1) % 8 < (so + n - 1) % 8 then 1 else 0
  {
    PlaceOf(so, n - 1);
    PlaceOf(off, n - 1);
    CarriesCompared(so % 8, off % 8, n - 1);
  }

  lemma PlaceOf(p: nat, m: nat)
    ensures (p + m) / 8 == p / 8 + (p % 8 + m) / 8 && (p + m) % 8 == (p % 8 + m) % 8
  {
    assert p == 8 * (p / 8) + p % 8;
  }

  lemma CarriesCompared(a: nat, b: nat, m: nat)
    requires a < 8 && b < 8
    ensures (b + m) / 8 + (if a > b then 1 else 0) == (a + m) / 8 + if (b + m) % 8 < (a + m) % 8 then 1 else 0
  {
    var q := m / 8;
    assert m == 8 * q + m % 8;
  }

  /**
   * A copy that passes the range check loads the byte behind its source exactly when the range reaches the last source
   * byte and ends earlier within its byte in the destination.
   */
  lemma OverreadsExactlyWhen(sourceLength: U16, so: U16, n: U16, destinationLength: U16, off: U16)
    requires RangesFit(sourceLength, so, n, destinationLength, off)
    ensures LastByteLoaded(so, n, off) <= sourceLength
    ensures LastByteLoaded(so, n, off) == sourceLength <==>
            so + n > 8 * (sourceLength - 1) && (off + n - 1) % 8 < (so + n - 1) % 8
  {
    LoadsBeyondRange(so, n, off);
    hide LastByteLoaded;
  }

  /** The result is determined by the selected source bits and the old destination alone. */
  lemma CopyIgnoresOtherSourceBits(src: seq<U8>, src': seq<U8>, so: nat, n: nat, before: seq<U8>, off: nat,
                                   after: seq<U8>, after': seq<U8>)
    requires so + n <= 8 * |src| && so + n <= 8 * |src'| && off + n <= 8 * |before|
    requires SameBits(src, so, src', so, n)
    requires Copied(src, so, n, before, off, after) && Copied(src', so, n, before, off, after')
    ensures after == after'
  {
    forall p | 0 <= p < 8 * |before|
      ensures Bit(after, p) == Bit(after', p)
    {
      if off <= p < off + n {
        assert Bit(src, so + p - off) == Bit(src', so + p - off - so + so);
      }
    }
    BitsDetermineBytes(after, after');
  }

  /** bits_to_bytes: the count is kept in a uint8_t. */
  function BitsToBytes(bits: nat): U16
  {
    var byteCount := bits / CHAR_BIT % 0x100;
    if bits % CHAR_BIT != 0 then (byteCount + 1) % 0x100 else byteCount
  }

  function FindEndBit(numBits: nat): nat
  {
    if numBits % CHAR_BIT == 0 then CHAR_BIT else numBits % CHAR_BIT
  }

  /** The destination offset that copy_bits_right_aligned passes on, as a uint16_t. */
  function RightAlignedOffset(destinationLength: U16, bitCount: U16): U16
  {
    ((destinationLength - BitsToBytes(bitCount)) * CHAR_BIT + CHAR_BIT - FindEndBit(bitCount)) % 0x1_0000
  }

  /** When the offset really right-aligns the copy: the 8-bit byte counter must not have wrapped. */
  lemma RightAlignedExactlyWhen(destinationLength: U16, bitCount: U16)
    requires 1 <= bitCount <= 8 * destinationLength
    ensures RightAlignedOffset(destinationLength, bitCount) == 8 * destinationLength - bitCount <==>
            8 * destinationLength - bitCount < 0x1_0000 && (bitCount <= 2040 || bitCount >= 65529)
    ensures RightAlignedOffset(destinationLength, bitCount)
         == (8 * destinationLength - bitCount + 2048 * ((bitCount + 7) / 8 / 256)) % 0x1_0000
  {
    var t, w := (bitCount + 7) / 8, 8 * destinationLength - bitCount;
    assert bitCount == 8 * (t - 1) + FindEndBit(bitCount);
    assert BitsToBytes(bitCount) == t - 256 * (t / 256);
    assert RightAlignedOffset(destinationLength, bitCount) == (w + 2048 * (t / 256)) % 0x1_0000;
  }

  /** The least failing width: 2041 bits are refused, though they fit source and destination. */
  lemma RefusedCall()
    ensures 2041 <= 8 * 256
    ensures !RangesFit(256, 0, 2041, 256, RightAlignedOffset(256, 2041))
    ensures RangesFit(256, 0, 2040, 256, RightAlignedOffset(256, 2040))
  {
  }

  /** Whatever narrows on the way, a right-aligned range ends on a byte boundary: nothing behind it is loaded. */
  lemma RightAlignedLoadsRange(sourceLength: U16, offset: U16, bitCount: U16, destinationLength: U16)
    requires RangesFit(sourceLength, offset, bitCount, destinationLength,
                       RightAlignedOffset(destinationLength, bitCount))
    ensures LastByteLoaded(offset, bitCount, RightAlignedOffset(destinationLength, bitCount))
         == (offset + bitCount - 1) / 8 < sourceLength
  {
    var to := RightAlignedOffset(destinationLength, bitCount);
    EndsOnByte(destinationLength, bitCount);
    hide RightAlignedOffset, LastByteLoaded;
    LoadsBeyondRange(offset, bitCount, to);
    LastOfByte(to, bitCount);
  }

  lemma EndsOnByte(destinationLength: U16, bitCount: U16)
    ensures (RightAlignedOffset(destinationLength, bitCount) + bitCount) % 8 == 0
  {
    hide BitsToBytes, FindEndBit;
    var bytes := destinationLength - BitsToBytes(bitCount);
    NarrowedModulo(bytes * CHAR_BIT + CHAR_BIT - FindEndBit(bitCount));
    EndBitModulo(bytes, bitCount);
    SumModulo(RightAlignedOffset(destinationLength, bitCount), bitCount);
    hide RightAlignedOffset;
  }

  lemma EndBitModulo(bytes: int, n: nat)
    ensures ((bytes * CHAR_BIT + CHAR_BIT - FindEndBit(n)) % 8 + n % 8) % 8 == 0
  {
  }

  lemma SumModulo(x: nat, y: nat)
    ensures (x + y) % 8 == (x % 8 + y % 8) % 8
  {
  }

  lemma NarrowedModulo(x: int)
    ensures x % 0x1_0000 % 8 == x % 8
  {
    assert x == 8 * (0x2000 * (x / 0x1_0000)) + x % 0x1_0000;
  }

  lemma LastOfByte(to: nat, n: nat)
    requires n >= 1 && (to + n) % 8 == 0
    ensures (to + n - 1) % 8 == 7
  {
  }

  method CopyBitsRightAligned(source: array<U8>, sourceLength: U16, offset: U16, bitCount: U16,
                              destination: array<U8>, destinationLength: U16) returns (ok: bool, ghost loaded: int)
    requires source != destination && destinationLength <= destination.Length && sourceLength <= source.Length
    modifies destination
    ensures ok == RangesFit(sourceLength, offset, bitCount, destinationLength,
                            RightAlignedOffset(destinationLength, bitCount))
    ensures ok ==> offset + bitCount <= 8 * source.Length
    ensures ok ==> Copied(source[..], offset, bitCount, old(destination[..]),
                          RightAlignedOffset(destinationLength, bitCount), destination[..])
    ensures !ok ==> destination[..] == old(destination[..])
    ensures loaded == if ok then (offset + bitCount - 1) / 8 else -1
  {
    hide RightAlignedOffset, LastByteLoaded, Copied;
    var to := RightAlignedOffset(destinationLength, bitCount);
    if RangesFit(sourceLength, offset, bitCount, destinationLength, to) {
      RightAlignedLoadsRange(sourceLength, offset, bitCount, destinationLength);
    }
    ok, loaded := CopyBits(source, sourceLength, offset, bitCount, destination, destinationLength, to);
  }

  /** Between byte boundaries a bit copy is a copy of bytes. */
  lemma CopiedIsSlice(src: seq<U8>, s: nat, n: nat, before: seq<U8>, d: nat, after: seq<U8>)
    requires s + n <= |src| && d + n <= |before|
    ensures Copied(src, 8 * s, 8 * n, before, 8 * d, after) <==>
            after == before[..d] + src[s..s + n] + before[d + n..]
  {
    var slice := before[..d] + src[s..s + n] + before[d + n..];
    CopiedBlock(src, 8 * s, 0, before, 8 * d, before, s, d, n);
    if Copied(src, 8 * s, 8 * n, before, 8 * d, after) {
      CopyIgnoresOtherSourceBits(src, src, 8 * s, 8 * n, before, 8 * d, after, slice);
    }
  }

  /** A number of bytes as a number of bits, narrowed to the uint16_t parameter it is passed to. */
  function NarrowedBits(bytes: U16): U16
  {
    bytes * CHAR_BIT % 0x1_0000
  }

  /** What narrowing leaves differs from the number of bits by a multiple of 65536. */
  lemma NarrowedBitsWrap(bytes: U16)
    ensures NarrowedBits(bytes) == 8 * bytes - 0x1_0000 * (bytes / 0x2000)
  {
  }

  /** The byte counts and offsets for which none of the narrowings changes a number. */
  predicate PlainBytes(offset: U16, byteCount: U16, destinationLength: U16)
  {
    offset < 0x2000 && 1 <= byteCount <= 255 && byteCount <= destinationLength < byteCount + 0x2000
  }

  /** A byte copy that right-aligns what was asked for: exactly the plain ones. */
  lemma PlainBytesExactlyWhen(offset: U16, byteCount: U16, destinationLength: U16)
    requires 1 <= byteCount <= destinationLength
    ensures PlainBytes(offset, byteCount, destinationLength) <==>
            && NarrowedBits(offset) == 8 * offset && NarrowedBits(byteCount) == 8 * byteCount
            && RightAlignedOffset(destinationLength, NarrowedBits(byteCount)) == 8 * (destinationLength - byteCount)
  {
    hide RightAlignedOffset;
    if byteCount < 0x2000 {
      RightAlignedExactlyWhen(destinationLength, 8 * byteCount);
    }
  }

  lemma PlainBytesFit(sourceLength: U16, offset: U16, byteCount: U16, destinationLength: U16)
    requires PlainBytes(offset, byteCount, destinationLength)
    ensures var n := NarrowedBits(byteCount);
            var to := RightAlignedOffset(destinationLength, n);
            && NarrowedBits(offset) == 8 * offset && n == 8 * byteCount && to == 8 * (destinationLength - byteCount)
            && (RangesFit(sourceLength, NarrowedBits(offset), n, destinationLength, to)
                <==> offset + byteCount <= sourceLength)
  {
    hide RightAlignedOffset;
    PlainBytesExactlyWhen(offset, byteCount, destinationLength);
  }

  method CopyBytesRightAligned(source: array<U8>, sourceLength: U16, offset: U16, byteCount: U16,
                               destination: array<U8>, destinationLength: U16) returns (ok: bool, ghost loaded: int)
    requires source != destination && destinationLength <= destination.Length && sourceLength <= source.Length
    modifies destination
    ensures ok == RangesFit(sourceLength, NarrowedBits(offset), NarrowedBits(byteCount), destinationLength,
                            RightAlignedOffset(destinationLength, NarrowedBits(byteCount)))
    ensures ok ==> Copied(source[..], NarrowedBits(offset), NarrowedBits(byteCount), old(destination[..]),
                          RightAlignedOffset(destinationLength, NarrowedBits(byteCount)), destination[..])
    ensures !ok ==> destination[..] == old(destination[..])
    ensures PlainBytes(offset, byteCount, destinationLength) ==>
              && ok == (offset + byteCount <= sourceLength)
              && (ok ==> destination[..] == old(destination[..destinationLength - byteCount])
                                            + source[offset..offset + byteCount]
                                            + old(destination[destinationLength..]))
    ensures loaded == if ok then (NarrowedBits(offset) + NarrowedBits(byteCount) - 1) / 8 else -1
    ensures loaded < sourceLength
  {
    ghost var before := destination[..];
    hide RangesFit, RightAlignedOffset, NarrowedBits, Copied, LastByteLoaded;
    ok, loaded := CopyBitsRightAligned(source, sourceLength, NarrowedBits(offset), NarrowedBits(byteCount),
                                       destination, destinationLength);
    if PlainBytes(offset, byteCount, destinationLength) {
      PlainBytesFit(sourceLength, offset, byteCount, destinationLength);
      if ok {
        CopiedIsSlice(source[..], offset, byteCount, before, destinationLength - byteCount, destination[..]);
      }
    }
  }
}
