/** The word-level accessors over a uint64_t, on a little-endian host. */
module EightByte {
  import opened BitArray
  import opened BitField
  import BitFieldLaws
  import opened BitString
  import opened CWord
  import opened Endian

  /** Memory image of the source after the conditional swap at the head of eightbyte_get_bitfield. */
  function Image(source: U64, dataIsBigEndian: bool): (r: seq<U8>)
    ensures |r| == 8
  {
    BswapInvolutive(source);
    Bytes(if dataIsBigEndian then source else Bswap64(source), 8)
  }

  /** One step of the accumulating loop: ret << 8 | bytes[i]. */
  lemma AppendByte(s: seq<U8>, p: nat, c: nat)
    requires p + c < |s| && c < 8
    ensures Or(Low(Shl(Field(s, 8 * p, 8 * c), 8), 64), s[p + c]) == Field(s, 8 * p, 8 * (c + 1))
  {
    hide Field, Shl, Or, Low;
    var f := Field(s, 8 * p, 8 * c);
    Pow2Upto8();
    FieldSplit(s, 8 * p, 8 * c, 8);
    FieldOfByte(s, p + c);
    OrIsPlus(f, s[p + c], 8);
    ShlIsTimes(f, 8);
    Pow2Add(8 * c, 8);
    Pow2Mono(8 * c + 8, 64);
    LowSmall(Shl(f, 8), 64);
  }

  function Max(a: int, b: int): int { if a > b then a else b }

  method GatherBytes(bytes: seq<U8>, startByte: nat, endByte: nat) returns (ret: nat)
    requires startByte < |bytes| == 8 && endByte < 8
    ensures ret == Field(bytes, 8 * startByte, 8 * (Max(startByte, endByte) + 1 - startByte))
  {
    hide Field, Low, Shl, Or;
    FieldOfByte(bytes, startByte);
    ret := bytes[startByte];
    if startByte != endByte {
      var i := startByte + 1;
      while i <= endByte
        invariant startByte < i <= Max(startByte, endByte) + 1
        invariant ret == Field(bytes, 8 * startByte, 8 * (i - startByte))
      {
        AppendByte(bytes, startByte, i - startByte);
        ret := Low(Shl(ret, 8), 64);
        ret := Or(ret, bytes[i]);
        i := i + 1;
      }
    }
  }

  /** Shifting the excess bits out on the right and masking those on the left leaves the field. */
  lemma ShiftAndMask(s: seq<U8>, p: nat, before: nat, n: nat, drop: nat)
    requires p + before + n + drop <= 8 * |s| && n <= 64
    ensures And(Shr(Field(s, p, before + n + drop), drop), Bitmask(n)) == Field(s, p + before, n)
  {
    FieldShr(s, p, before + n, drop);
    MaskedLow(Field(s, p, before + n), n);
    FieldLow(s, p, before, n);
  }

  /** endByte, with C's division, which rounds -1 / 8 to 0. */
  function EndByte(offset: nat, bitCount: nat): nat
  {
    if offset + bitCount == 0 then 0 else (offset + bitCount - 1) / CHAR_BIT
  }

  /** The getter loads bytes of its word alone exactly for fields that lie in it, an empty one included. */
  lemma TouchesWordExactlyWhen(offset: nat, n: nat)
    ensures Max(offset / CHAR_BIT, EndByte(offset, n)) < 8 <==> offset < 64 && offset + n <= 64
    ensures n == 4 && offset % 4 == 0 ==> (EndByte(offset, n) < 8 <==> offset / 4 < 16)
  {
  }

  /** The bytes gathered for a field hold it with offset % 8 bits before and the end-bit excess after. */
  lemma GatheredWidth(offset: nat, n: nat)
    requires 1 <= n && offset + n <= 64
    ensures offset / 8 <= EndByte(offset, n) < 8 && FindEndBit(offset + n) <= 8
    ensures 8 * (EndByte(offset, n) + 1 - offset / 8) == offset % 8 + n + (8 - FindEndBit(offset + n))
  {
  }

  method GetBitfield(source: U64, offset: U16, bitCount: U16, dataIsBigEndian: bool) returns (r: U64)
    requires offset < 64 && offset + bitCount <= 64
    ensures r == Field(Image(source, dataIsBigEndian), offset, bitCount)
  {
    hide Field, And, Shr, Bytes;
    var startByte := offset / CHAR_BIT;
    var endByte := EndByte(offset, bitCount);
    var bytes := Image(source, dataIsBigEndian);
    TouchesWordExactlyWhen(offset, bitCount);
    var ret := GatherBytes(bytes, startByte, endByte);
    var drop := 8 - FindEndBit(offset + bitCount);
    if bitCount == 0 {
      EmptyField(bytes, offset, Shr(ret, drop));
    } else {
      GatheredWidth(offset, bitCount);
      ShiftAndMask(bytes, 8 * startByte, offset % 8, bitCount, drop);
      assert 8 * startByte + offset % 8 == offset;
    }
    r := And(Shr(ret, drop), Bitmask(bitCount));
  }

  lemma EmptyField(s: seq<U8>, p: nat, x: nat)
    requires p <= 8 * |s|
    ensures And(x, Bitmask(0)) == 0 == Field(s, p, 0)
  {
    MaskedLow(x, 0);
  }

  /** With the flag false the image is the word written most significant byte first. */
  lemma ImageIsBigEndian(source: U64)
    ensures BE(Image(source, false)) == source
    ensures Image(source, false) == BigEndian(source, 8)
    ensures Image(source, true) == Reverse(Image(source, false))
  {
    BswapInvolutive(source);
    BswapReverses(source);
    ReverseReverse(Bytes(source, 8));
  }

  /** Both accessor families compute the same arithmetic function of the image; flag false reads the word itself. */
  lemma AccessorsAgree(source: U64, offset: nat, n: nat, dataIsBigEndian: bool)
    requires offset + n <= 64
    ensures var s := Image(source, dataIsBigEndian);
            Field(s, offset, n) == BE(s) / Pow2(8 * |s| - offset - n) % Pow2(n)
    ensures Field(Image(source, false), offset, n) == source / Pow2(64 - offset - n) % Pow2(n)
  {
    FieldIsArithmetic(Image(source, dataIsBigEndian), offset, n);
    FieldIsArithmetic(Image(source, false), offset, n);
    ImageIsBigEndian(source);
  }

  /** The shift count of eightbyte_get_byte, in the unsigned 64-bit type of EIGHTBYTE_BIT. */
  function ByteShift(byteIndex: U8): nat
  {
    (64 - (byteIndex + 1) * 8) % TWO64
  }

  /** The shift is one that a 64-bit word allows exactly for the indices of its bytes. */
  lemma ByteShiftExactlyWhen(byteIndex: U8)
    ensures ByteShift(byteIndex) < 64 <==> byteIndex < 8
    ensures byteIndex < 8 ==> ByteShift(byteIndex) == 8 * (7 - byteIndex)
  {
  }

  function GetByte(source: U64, byteIndex: U8, dataIsBigEndian: bool): nat
    requires byteIndex < 8
  {
    BswapReverses(source);
    And(Shr(if dataIsBigEndian then Bswap64(source) else source, ByteShift(byteIndex)), 0xFF)
  }

  lemma GetByteIsField(source: U64, byteIndex: U8, dataIsBigEndian: bool)
    requires byteIndex < 8
    ensures GetByte(source, byteIndex, dataIsBigEndian)
         == Field(Image(source, dataIsBigEndian), 8 * byteIndex, 8)
  {
    hide Field, Bytes, Shr, And, Low, ByteShift;
    ByteShiftExactlyWhen(byteIndex);
    var word: U64 := (BswapReverses(source); if dataIsBigEndian then Bswap64(source) else source);
    var s := Image(source, dataIsBigEndian);
    ImageIsBigEndian(source);
    ReverseAt(Bytes(word, 8), byteIndex);
    assert s == Reverse(Bytes(word, 8));
    BytesAt(word, 8, 7 - byteIndex);
    MaskedByte(Shr(word, 8 * (7 - byteIndex)));
    FieldOfByte(s, byteIndex);
  }

  method GetNibble(source: U64, nibbleIndex: U8, dataIsBigEndian: bool) returns (r: U8)
    requires nibbleIndex < 16
    ensures r == BitField.GetNibble(Image(source, dataIsBigEndian), nibbleIndex)
  {
    var field := GetBitfield(source, 4 * nibbleIndex, 4, dataIsBigEndian);
    GetNibbleIsField(Image(source, dataIsBigEndian), nibbleIndex);
    Pow2Upto8();
    r := field;
  }

  /** Bit p of the big-endian image is bit 63 - p of the word. */
  lemma ImageBit(w: U64, p: nat)
    requires p < 64
    ensures Bit(Image(w, false), p) == TestBit(w, 63 - p)
  {
    hide Bytes, Shr, Low;
    var q, i := p / 8, p % 8;
    ImageIsBigEndian(w);
    ReverseAt(Bytes(w, 8), q);
    BytesAt(w, 8, 7 - q);
    LowBit(Shr(w, 8 * (7 - q)), 8, 7 - i);
    ShrBit(w, 8 * (7 - q), 7 - i);
  }

  /** *destination &= ~(bitmask << shift); *destination |= value << shift. */
  function StoreField(word: U64, value: U64, offset: nat, n: nat): U64
    requires 1 <= offset + n <= 64
  {
    var shift := 64 - offset - n;
    Pow2OfBytes();
    var cleared := And(word, UINT64_MAX - Low(Shl(Bitmask(n), shift), 64));
    OrBound(cleared, Low(Shl(value, shift), 64), 64);
    Or(cleared, Low(Shl(value, shift), 64))
  }

  lemma StoreFieldBit(word: U64, value: U64, offset: nat, n: nat, k: nat)
    requires 1 <= offset + n <= 64 && value < Pow2(n) && k < 64
    ensures var shift := 64 - offset - n;
            TestBit(StoreField(word, value, offset, n), k)
            == if shift <= k < shift + n then TestBit(value, k - shift) else TestBit(word, k)
  {
    hide And, Or, Shl, Low, TestBit;
    var shift := 64 - offset - n;
    var mask := Low(Shl(Bitmask(n), shift), 64);
    Pow2OfBytes();
    OrBit(And(word, UINT64_MAX - mask), Low(Shl(value, shift), 64), k);
    AndBit(word, UINT64_MAX - mask, k);
    ComplementBit(mask, 64, k);
    LowBit(Shl(Bitmask(n), shift), 64, k);
    ShlBit(Bitmask(n), shift, k);
    LowBit(Shl(value, shift), 64, k);
    ShlBit(value, shift, k);
    if k >= shift {
      MaskBit(n, 0, k - shift);
      if k - shift >= n {
        HighBitsZero(value, n, k - shift);
      }
    }
  }

  lemma StoredValue(word: U64, value: U64, offset: nat, n: nat)
    requires 1 <= offset + n <= 64 && value < Pow2(n)
    ensures Low(Shr(StoreField(word, value, offset, n), 64 - offset - n), n) == value
  {
    hide And, Or, Shl, Shr, Low, TestBit, StoreField;
    var shift, w := 64 - offset - n, StoreField(word, value, offset, n);
    forall k: nat
      ensures TestBit(Low(Shr(w, shift), n), k) == TestBit(value, k)
    {
      LowBit(Shr(w, shift), n, k);
      ShrBit(w, shift, k);
      if k < n {
        StoreFieldBit(word, value, offset, n, k + shift);
      } else {
        HighBitsZero(value, n, k);
      }
    }
    BitsDetermine(Low(Shr(w, shift), n), value);
  }

  /** The masked read-modify-write writes the field of the big-endian image and nothing else. */
  lemma StoreFieldIsWritten(word: U64, value: U64, offset: nat, n: nat)
    requires 1 <= offset + n <= 64 && value < Pow2(n)
    ensures Written(Image(word, false), Image(StoreField(word, value, offset, n), false), offset, n, value)
  {
    hide StoreField, Field, Bit, TestBit, Image, Low, Shr;
    var w := StoreField(word, value, offset, n);
    AccessorsAgree(w, offset, n, false);
    StoredValue(word, value, offset, n);
    ShrIsDiv(w, 64 - offset - n);
    LowIsMod(Shr(w, 64 - offset - n), n);
    var before, after := Image(word, false), Image(w, false);
    forall p | 0 <= p < 64 && !(offset <= p < offset + n)
      ensures Bit(after, p) == Bit(before, p)
    {
      ImageBit(word, p);
      ImageBit(w, p);
      StoreFieldBit(word, value, offset, n, 63 - p);
    }
  }

  /** On the eight bytes of a word set_bitfield stores exactly what eightbyte_set_bitfield does. */
  lemma SettersAgree(word: U64, value: U64, offset: nat, n: nat, after: seq<U8>)
    requires 1 <= n && offset + n <= 64 && value < Pow2(n)
    requires Written(Image(word, false), after, offset, n, value)
    ensures after == Image(StoreField(word, value, offset, n), false)
  {
    hide StoreField, Field, Bit, Image;
    StoreFieldIsWritten(word, value, offset, n);
    BitFieldLaws.FieldAndRestDetermine(after, Image(StoreField(word, value, offset, n), false), offset, n);
  }

  method SetBitfield(value: U64, offset: U16, bitCount: U16, destination: array<U64>) returns (ok: bool)
    requires destination.Length >= 1
    requires value <= Bitmask(bitCount % 0x100) ==> 1 <= offset + bitCount <= 64
    modifies destination
    ensures ok == (value <= Bitmask(bitCount % 0x100))
    ensures bitCount <= 64 ==> ok == (value < Pow2(bitCount))
    ensures ok ==> Written(Image(old(destination[0]), false), Image(destination[0], false), offset, bitCount, value)
    ensures destination[..] == old(destination[..])[0 := destination[0]]
    ensures !ok ==> destination[0] == old(destination[0])
  {
    if value > Bitmask(bitCount % 0x100) {
      return false;
    }
    StoreFieldIsWritten(destination[0], value, offset, bitCount);
    destination[0] := StoreField(destination[0], value, offset, bitCount);
    return true;
  }
}
