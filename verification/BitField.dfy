/** The CAN-signal accessors get_bitfield and set_bitfield, on a little-endian host. */
module BitField {
  import opened BitArray
  import opened BitString
  import opened CWord
  import opened Endian

  const UINT64_MAX: U64 := 0xFFFF_FFFF_FFFF_FFFF

  function Bitmask(bitCount: U8): (r: U64)
    ensures bitCount <= 64 ==> r == Pow2(bitCount) - 1
    ensures bitCount >= 64 ==> r == UINT64_MAX
  {
    Pow2OfBytes();
    if bitCount >= 64 then UINT64_MAX
    else
      ShlIsTimes(1, bitCount);
      Pow2Mono(bitCount, 64);
      Shl(1, bitCount) - 1
  }

  const BSWAP_MASKS: seq<U64> := [
    0xff00_0000_0000_0000, 0x00ff_0000_0000_0000, 0x0000_ff00_0000_0000, 0x0000_00ff_0000_0000,
    0x0000_0000_ff00_0000, 0x0000_0000_00ff_0000, 0x0000_0000_0000_ff00, 0x0000_0000_0000_00ff]

  /** Term i of the written-out bswap64: v << 56, 40, 24, 8 and then v >> 8, 24, 40, 56, each masked. */
  function BswapTerm(v: U64, i: nat): nat
    requires i < 8
  {
    And(if i < 4 then Low(Shl(v, 56 - 16 * i), 64) else Shr(v, 16 * i - 56), BSWAP_MASKS[i])
  }

  /** The terms or-ed together from the left. */
  function OrAll(terms: seq<nat>): nat
  {
    if |terms| == 0 then 0 else Or(OrAll(terms[..|terms| - 1]), terms[|terms| - 1])
  }

  function Bswap64(v: U64): nat
  {
    OrAll(seq(8, i requires 0 <= i < 8 => BswapTerm(v, i)))
  }

  lemma ShlThenShr(v: nat, a: nat, s: nat, n: nat)
    requires a <= s && s + n <= 64
    ensures Low(Shr(Low(Shl(v, a), 64), s), n) == Low(Shr(v, s - a), n)
  {
    var x, y := Shr(Low(Shl(v, a), 64), s), Shr(v, s - a);
    forall k: nat
      ensures TestBit(Low(x, n), k) == TestBit(Low(y, n), k)
    {
      LowBit(x, n, k);
      LowBit(y, n, k);
      ShrBit(Low(Shl(v, a), 64), s, k);
      LowBit(Shl(v, a), 64, k + s);
      ShlBit(v, a, k + s);
      ShrBit(v, s - a, k);
    }
    BitsDetermine(Low(x, n), Low(y, n));
  }

  lemma BswapMask(i: nat)
    requires i < 8
    ensures BSWAP_MASKS[i] == Mask(56 - 8 * i, 8)
  {
    Pow2OfBytes();
  }

  lemma BswapTermMovesByte(v: U64, i: nat)
    requires i < 8
    ensures BswapTerm(v, i) == Shl(Bytes(v, 8)[i], 56 - 8 * i)
  {
    BswapMask(i);
    BytesAt(v, 8, i);
    if i < 4 {
      MaskedField(Low(Shl(v, 56 - 16 * i), 64), 56 - 8 * i, 8);
      ShlThenShr(v, 56 - 16 * i, 56 - 8 * i, 8);
    } else {
      MaskedField(Shr(v, 16 * i - 56), 56 - 8 * i, 8);
      ShrShr(v, 16 * i - 56, 56 - 8 * i);
    }
  }

  lemma {:induction false} OrAllIsBE(s: seq<U8>, terms: seq<nat>, n: nat)
    requires n <= |s| == |terms| == 8
    requires forall i :: 0 <= i < 8 ==> terms[i] == Shl(s[i], 56 - 8 * i)
    ensures OrAll(terms[..n]) == Shl(BE(s[..n]), 64 - 8 * n)
  {
    if n == 0 {
      ShlIsTimes(0, 64);
    } else {
      OrAllIsBE(s, terms, n - 1);
      assert terms[..n][..n - 1] == terms[..n - 1] && s[..n][..n - 1] == s[..n - 1];
      OrNextByte(BE(s[..n - 1]), s[n - 1], 64 - 8 * n);
    }
  }

  /** The masked shifts reverse the eight bytes: bswap64 takes the big-endian value of the memory image. */
  lemma BswapIsReversal(v: U64)
    ensures Bswap64(v) == BE(Bytes(v, 8))
  {
    var s, terms := Bytes(v, 8), seq(8, i requires 0 <= i < 8 => BswapTerm(v, i));
    forall i | 0 <= i < 8
      ensures terms[i] == Shl(s[i], 56 - 8 * i)
    {
      BswapTermMovesByte(v, i);
    }
    OrAllIsBE(s, terms, 8);
    assert terms[..8] == terms && s[..8] == s;
  }

  /** What a successful set leaves behind. */
  ghost predicate Written(before: seq<U8>, after: seq<U8>, offset: nat, n: nat, value: nat)
  {
    && |after| == |before|
    && offset + n <= 8 * |before|
    && Field(after, offset, n) == value
    && forall p :: 0 <= p < 8 * |before| && !(offset <= p < offset + n) ==> Bit(after, p) == Bit(before, p)
  }

  lemma CopiedIsWritten(src: seq<U8>, so: nat, n: nat, before: seq<U8>, off: nat, after: seq<U8>)
    requires so + n <= 8 * |src| && off + n <= 8 * |before|
    requires Copied(src, so, n, before, off, after)
    ensures Written(before, after, off, n, Field(src, so, n))
  {
    FieldsAgree(after, off, src, so, n);
    forall p | off <= p < off + n
      ensures Bit(after, p) == Bit(src, p - off + so)
    {
      assert so + p - off == p - off + so;
    }
  }

  /** Right-aligning n bits in eight zero bytes makes the big-endian word equal to the field. */
  lemma RightAlignedValue(zeros: seq<U8>, after: seq<U8>, n: nat, value: nat)
    requires |zeros| == 8 && n <= 64 && Written(zeros, after, 64 - n, n, value)
    requires forall i :: 0 <= i < 8 ==> zeros[i] == 0
    ensures BE(after) == value
  {
    forall p | 0 <= p < 64
      ensures !Bit(zeros, p)
    {
      ZeroBit(7 - p % 8);
    }
    ZeroField(after, 0, 64 - n);
    WholeSplits(after, 64 - n, n);
  }

  lemma WordOfBytes(s: seq<U8>)
    requires |s| == 8
    ensures LE(s) <= UINT64_MAX && Bswap64(LE(s)) == BE(s)
  {
    Pow2OfBytes();
    LEBound(s);
    BytesOfLE(s);
    BswapIsReversal(LE(s));
  }

  method GetBitfield(source: array<U8>, sourceLength: U16, offset: U16, bitCount: U16)
    returns (r: U64, ghost loaded: int)
    requires sourceLength <= source.Length
    ensures 1 <= bitCount <= 64 && offset + bitCount <= 8 * sourceLength ==>
              r == BE(source[..sourceLength]) / Pow2(8 * sourceLength - offset - bitCount) % Pow2(bitCount)
    ensures !(1 <= bitCount <= 64 && offset + bitCount <= 8 * sourceLength) ==> r == 0 && loaded == -1
    ensures 1 <= bitCount <= 64 && offset + bitCount <= 8 * sourceLength ==> loaded == (offset + bitCount - 1) / 8
  {
    if bitCount > 64 || bitCount < 1 {
      return 0, -1;
    }
    var combined := new U8[8](_ => 0);
    ghost var zeros := combined[..];
    LEOfZeros(zeros);
    RightAlignedExactlyWhen(8, bitCount);
    var ok;
    ok, loaded := CopyBitsRightAligned(source, sourceLength, offset, bitCount, combined, 8);
    if ok {
      CombinedValue(source[..], sourceLength, offset, bitCount, zeros, combined[..]);
      r := Bswap64(LE(combined[..]));
    } else {
      r := LE(combined[..]);
    }
  }

  /** The word that get_bitfield returns after its copy. */
  lemma CombinedValue(src: seq<U8>, l: nat, offset: nat, n: nat, zeros: seq<U8>, after: seq<U8>)
    requires l <= |src| && 1 <= n <= 64 && offset + n <= 8 * l
    requires |zeros| == 8 && forall i :: 0 <= i < 8 ==> zeros[i] == 0
    requires Copied(src, offset, n, zeros, 64 - n, after)
    ensures LE(after) <= UINT64_MAX && Bswap64(LE(after)) <= UINT64_MAX
    ensures Bswap64(LE(after)) == BE(src[..l]) / Pow2(8 * l - offset - n) % Pow2(n)
  {
    CopiedIsWritten(src, offset, n, zeros, 64 - n, after);
    RightAlignedValue(zeros, after, n, Field(src, offset, n));
    WordOfBytes(after);
    FieldOfSource(src, l, offset, n);
    Pow2OfBytes();
    Pow2Mono(n, 64);
  }

  lemma FieldOfSource(s: seq<U8>, l: nat, p: nat, n: nat)
    requires l <= |s| && p + n <= 8 * l
    ensures Field(s, p, n) == BE(s[..l]) / Pow2(8 * l - p - n) % Pow2(n)
  {
    FieldIsArithmetic(s[..l], p, n);
    FieldsAgree(s, p, s[..l], p, n);
  }

  /** Swapping a word reverses its memory image. */
  lemma BswapReverses(v: U64)
    ensures Bswap64(v) <= UINT64_MAX && Bytes(Bswap64(v), 8) == BigEndian(v, 8)
  {
    var b := Bytes(v, 8);
    BswapIsReversal(v);
    Pow2OfBytes();
    ReverseSwapsOrder(Reverse(b));
    ReverseReverse(b);
    LEBound(Reverse(b));
    BytesOfLE(Reverse(b));
  }

  lemma BswapInvolutive(v: U64)
    ensures Bswap64(v) <= UINT64_MAX && BE(Bytes(Bswap64(v), 8)) == v
  {
    BswapReverses(v);
    ReverseSwapsOrder(Bytes(v, 8));
    Pow2OfBytes();
    LEOfBytes(v, 8);
  }

  lemma {:induction false} ReverseSwapsOrder(s: seq<U8>)
    ensures BE(Reverse(s)) == LE(s)
  {
    if |s| > 0 {
      ReverseSwapsOrder(s[1..]);
      var r := Reverse(s);
      assert r[..|r| - 1] == Reverse(s[1..]);
    }
  }

  predicate Writable(value: U64, offset: U16, bitCount: U16, destinationLength: U16)
  {
    1 <= bitCount <= 64 && value < Pow2(bitCount) && offset + bitCount <= 8 * destinationLength
  }

  /** The low n bits of the swapped word in memory spell a value that fits in n bits. */
  lemma SwappedWordField(src: seq<U8>, value: U64, n: nat)
    requires |src| >= 8 && src[..8] == Bytes(Bswap64(value), 8)
    requires n <= 64 && value < Pow2(n)
    ensures Field(src, 64 - n, n) == value
  {
    var s := src[..8];
    BswapInvolutive(value);
    WholeSplits(s, 64 - n, n);
    NoHighPart(value, Pow2(n), Field(s, 0, 64 - n), Field(s, 64 - n, n));
    FieldsAgree(src, 64 - n, s, 64 - n, n);
  }

  lemma NoHighPart(v: nat, d: nat, q: nat, r: nat)
    requires v == q * d + r && v < d
    ensures v == r
  {
    if q > 0 {
      MulGap(d, q, 0);
    }
  }

  /** sizeof(combined) * CHAR_BIT - bit_count, narrowed to the uint16_t parameter of copy_bits. */
  function SetSourceOffset(bitCount: U16): (so: U16)
    ensures bitCount <= 64 ==> so == 64 - bitCount
    ensures bitCount > 64 ==> so == 65600 - bitCount
  {
    (64 - bitCount) % 0x1_0000
  }

  /** The narrowed offset passes the range check exactly for the widths that fit a word. */
  lemma SetRangesFit(bitCount: U16, offset: U16, destinationLength: U16)
    ensures RangesFit(8, SetSourceOffset(bitCount), bitCount, destinationLength, offset)
            <==> 1 <= bitCount <= 64 && offset + bitCount <= 8 * destinationLength
  {
  }

  /** set_bitfield loads the byte behind its eight-byte union exactly for fields that do not end on a byte boundary. */
  lemma SetOverreadsExactlyWhen(bitCount: U16, offset: U16)
    requires 1 <= bitCount <= 64
    ensures LastByteLoaded(SetSourceOffset(bitCount), bitCount, offset)
         == if (offset + bitCount) % 8 == 0 then 7 else 8
  {
    LoadsBeyondRange(64 - bitCount, bitCount, offset);
    hide LastByteLoaded;
  }

  lemma MaskCheck(value: U64, bitCount: U16, offset: U16, destinationLength: U16)
    ensures value > Bitmask(bitCount % 0x100) ==> !Writable(value, offset, bitCount, destinationLength)
    ensures value <= Bitmask(bitCount % 0x100) && 1 <= bitCount <= 64 ==> value < Pow2(bitCount)
  {
  }

  lemma SetResult(src: seq<U8>, value: U64, bitCount: U16, before: seq<U8>, offset: nat, after: seq<U8>)
    requires |src| >= 8 && src[..8] == Bytes(Bswap64(value), 8)
    requires 1 <= bitCount <= 64 && value < Pow2(bitCount) && offset + bitCount <= 8 * |before|
    requires Copied(src, 64 - bitCount, bitCount, before, offset, after)
    ensures Written(before, after, offset, bitCount, value)
  {
    var f := Field(src, 64 - bitCount, bitCount);
    assert f == value by {
      SwappedWordField(src, value, bitCount);
    }
    CopiedIsWritten(src, 64 - bitCount, bitCount, before, offset, after);
  }

  method SetBitfield(value: U64, offset: U16, bitCount: U16, destination: array<U8>, destinationLength: U16)
    returns (ok: bool, ghost loaded: int)
    requires destinationLength <= destination.Length
    modifies destination
    ensures ok <==> 1 <= bitCount <= 64 && value < Pow2(bitCount) && offset + bitCount <= 8 * destinationLength
    ensures ok ==> Written(old(destination[..]), destination[..], offset, bitCount, value)
    ensures !ok ==> destination[..] == old(destination[..])
    ensures loaded == if !ok then -1 else if (offset + bitCount) % 8 == 0 then 7 else 8
  {
    hide LastByteLoaded;
    MaskCheck(value, bitCount, offset, destinationLength);
    if value > Bitmask(bitCount % 0x100) {
      return false, -1;
    }
    SetRangesFit(bitCount, offset, destinationLength);
    if 1 <= bitCount <= 64 {
      SetOverreadsExactlyWhen(bitCount, offset);
    }
    var combined := MemoryOf(value);
    ghost var src := combined[..];
    ok, loaded := CopyBits(combined, 8, SetSourceOffset(bitCount), bitCount, destination, destinationLength, offset);
    if ok {
      assert combined[..] == src;
      SetResult(src, value, bitCount, old(destination[..]), offset, destination[..]);
    }
  }

  /** The union holding the swapped value; the ninth byte, of arbitrary value, stands for whatever follows it. */
  method MemoryOf(value: U64) returns (combined: array<U8>)
    ensures fresh(combined) && combined.Length == 9 && combined[..8] == Bytes(Bswap64(value), 8)
  {
    BswapInvolutive(value);
    var whole := Bytes(Bswap64(value), 8);
    combined := new U8[9];
    forall i | 0 <= i < 8 {
      combined[i] := whole[i];
    }
  }

  lemma MaskedLow(x: nat, n: nat)
    requires n <= 64
    ensures And(x, Bitmask(n)) == Low(x, n)
  {
    MaskedField(x, 0, n);
  }

  function GetByte(source: seq<U8>, byteIndex: U8): U8
  {
    if byteIndex < |source| then source[byteIndex] else 0
  }

  function GetNibble(source: seq<U8>, nibbleIndex: U8): nat
  {
    var byte := GetByte(source, nibbleIndex / 2);
    And(if nibbleIndex % 2 == 0 then Shr(byte, 4) else byte, Bitmask(4))
  }

  lemma ByteParts(s: seq<U8>, q: nat, h: nat, l: nat)
    requires q < |s| && h + l == 8
    ensures And(Shr(s[q], l), Bitmask(h)) == Field(s, 8 * q, h)
    ensures And(s[q], Bitmask(l)) == Field(s, 8 * q + h, l)
  {
    hide Field, And, Shr, Low, Pow2;
    FieldOfByte(s, q);
    assert Shr(s[q], l) == Field(s, 8 * q, h) by {
      FieldShr(s, 8 * q, h, l);
    }
    MaskedLow(Field(s, 8 * q, h), h);
    LowSmall(Field(s, 8 * q, h), h);
    assert And(s[q], Bitmask(l)) == Field(s, 8 * q + h, l) by {
      MaskedLow(s[q], l);
      FieldLow(s, 8 * q, h, l);
    }
  }

  lemma GetNibbleIsField(source: seq<U8>, nibbleIndex: U8)
    ensures nibbleIndex < 2 * |source| ==> GetNibble(source, nibbleIndex) == Field(source, 4 * nibbleIndex, 4)
    ensures nibbleIndex >= 2 * |source| ==> GetNibble(source, nibbleIndex) == 0
  {
    if nibbleIndex < 2 * |source| {
      ByteParts(source, nibbleIndex / 2, 4, 4);
    }
  }

  function NibbleOffset(nibbleIndex: U16): U16
  {
    nibbleIndex * 4 % 0x1_0000
  }

  lemma NibbleOffsetExactlyWhen(nibbleIndex: U16)
    ensures NibbleOffset(nibbleIndex) == 4 * nibbleIndex <==> nibbleIndex < 0x4000
    ensures NibbleOffset(nibbleIndex) == 4 * nibbleIndex - 0x1_0000 * (nibbleIndex / 0x4000)
  {
  }

  /** The least failing index: nibble 0x4000 is written at offset 0, even of a destination too short for it. */
  lemma MisplacedNibbleCall()
    ensures NibbleOffset(0x4000) == 0 && NibbleOffset(0x4000) + 4 <= 8 * 1 < 4 * 0x4000
  {
  }

  /** set_nibble loads the byte behind its one-byte parameter exactly for even indices. */
  lemma SetNibbleOverreadsExactlyWhen(nibbleIndex: U16)
    ensures LastByteLoaded(4, 4, NibbleOffset(nibbleIndex)) == if nibbleIndex % 2 == 0 then 1 else 0
  {
    LoadsBeyondRange(4, 4, NibbleOffset(nibbleIndex));
    hide LastByteLoaded;
    assert NibbleOffset(nibbleIndex) % 8 == if nibbleIndex % 2 == 0 then 0 else 4;
  }

  method SetNibble(nibbleIndex: U16, value: U8, destination: array<U8>, destinationLength: U16)
    returns (ok: bool, ghost loaded: int)
    requires destinationLength <= destination.Length
    modifies destination
    ensures ok == (NibbleOffset(nibbleIndex) + 4 <= 8 * destinationLength)
    ensures ok ==> Written(old(destination[..]), destination[..], NibbleOffset(nibbleIndex), 4, value % 16)
    ensures ok ==> (Field(destination[..], NibbleOffset(nibbleIndex), 4) == value <==> value < 16)
    ensures !ok ==> destination[..] == old(destination[..])
    ensures loaded == if !ok then -1 else if nibbleIndex % 2 == 0 then 1 else 0
  {
    hide LastByteLoaded;
    // The second byte, of arbitrary value, stands for whatever follows the parameter in memory.
    var memory := new U8[2];
    memory[0] := value;
    ghost var src := memory[..];
    SetNibbleOverreadsExactlyWhen(nibbleIndex);
    // The call passes CHAR_BIT where a length in bytes is expected.
    ok, loaded := CopyBits(memory, CHAR_BIT, 4, 4, destination, destinationLength, NibbleOffset(nibbleIndex));
    if ok {
      assert memory[..] == src;
      NibbleOfByte(src, value);
      CopiedIsWritten(src, 4, 4, old(destination[..]), NibbleOffset(nibbleIndex), destination[..]);
    }
  }

  /** The smallest failing calls: a one-bit field at offset 0, and nibble 0. */
  lemma OverreadingCalls()
    ensures Writable(1, 0, 1, 1) && LastByteLoaded(SetSourceOffset(1), 1, 0) == 8
    ensures NibbleOffset(0) + 4 <= 8 && LastByteLoaded(4, 4, NibbleOffset(0)) == 1
  {
    SetOverreadsExactlyWhen(1, 0);
    SetNibbleOverreadsExactlyWhen(0);
  }

  lemma NibbleOfByte(src: seq<U8>, value: U8)
    requires |src| > 0 && src[0] == value
    ensures Field(src, 4, 4) == value % 16
  {
    FieldOfByte(src, 0);
    FieldLow(src, 0, 4, 4);
    LowIsMod(value, 4);
    Pow2Upto8();
  }
}
