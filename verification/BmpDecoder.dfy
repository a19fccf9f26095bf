/** Converting an uncompressed BMP to a raw RGBA image. */
module BmpDecoder {
  import opened CWord

  const MINHEADER := 54

  /** scanlineBytes: the width in bytes, extended to a multiple of 4. */
  function Padded(bytes: nat): nat
  {
    if bytes % 4 != 0 then bytes / 4 * 4 + 4 else bytes
  }

  /** What the header says about the pixel data. */
  datatype Layout = Layout(pixelOffset: nat, w: nat, h: nat, channels: nat)
  {
    function RowBytes(): nat
    {
      w * channels
    }

    function Stride(): nat
    {
      Padded(RowBytes())
    }

    function DataEnd(): nat
    {
      Stride() * h + pixelOffset
    }
  }

  /** (signed short) of a 16-bit field, assigned to an unsigned int. */
  function SignExtended(field: U16): U32
  {
    if field < 0x8000 then field else TWO32 - 0x1_0000 + field
  }

  /** The header checks before any pixel arithmetic; 0 when they pass. */
  function HeaderError(bmp: seq<U8>): U32
  {
    if |bmp| < MINHEADER then 0xFFFF_FFFF
    else if bmp[0] != 0x42 || bmp[1] != 0x4D then 1
    else if bmp[28] != 24 && bmp[28] != 32 then 2
    else 0
  }

  function Header(bmp: seq<U8>): Layout
    requires |bmp| >= MINHEADER
  {
    Layout(bmp[10] + 256 * (bmp[11] as int), bmp[18] + 256 * (bmp[19] as int),
           SignExtended(bmp[22] + 256 * (bmp[23] as int)), bmp[28] / 8)
  }

  lemma StrideIsLeast(l: Layout)
    ensures l.Stride() % 4 == 0 && l.Stride() >= l.w * l.channels
    ensures forall m :: m % 4 == 0 && m >= l.w * l.channels ==> m >= l.Stride()
  {
  }

  function Times(a: nat, b: nat): nat
  {
    a * b
  }

  /** Where pixel (x, y) of the upright image lies in the file: rows are stored bottom up. */
  function PixelStart(l: Layout, x: nat, y: nat): nat
    requires y < l.h
  {
    l.pixelOffset + Times(l.h - y - 1, l.Stride()) + Times(l.channels, x)
  }

  /** Byte offset of pixel (x, y) in a raw RGBA image of width w. */
  function PixelOffset(w: nat, x: nat, y: nat): nat
  {
    4 * Times(y, w) + 4 * x
  }

  /** The bytes that the image is resized to. */
  function ImageSize(l: Layout): nat
  {
    4 * Times(l.h, l.w) % TWO32
  }

  /** The sum of two unsigned ints. */
  function Sum32(a: nat, b: nat): U32
  {
    (a + b) % TWO32
  }

  /** Index of byte k of pixel (x, y) in the file, as the loops compute it. */
  function ReadIndex(l: Layout, x: nat, y: nat, k: nat): U32
    requires y < l.h
  {
    Sum32(PixelStart(l, x, y), k)
  }

  /** Index of byte k of pixel (x, y) in the image, likewise. */
  function WriteIndex(l: Layout, x: nat, y: nat, k: nat): U32
  {
    Sum32(PixelOffset(l.w, x, y), k)
  }

  /** What the loops demand: every index they compute lies in the image or in the file of the given size. */
  ghost predicate StaysInside(l: Layout, size: nat)
  {
    forall x: nat, y: nat, k: nat :: x < l.w && y < l.h && k < 4 ==>
      WriteIndex(l, x, y, k) < ImageSize(l) && (k < l.channels ==> ReadIndex(l, x, y, k) < size)
  }

  ghost predicate InInput(bmp: seq<U8>, l: Layout)
  {
    (l.channels == 3 || l.channels == 4) && StaysInside(l, |bmp|)
  }

  /** The size check, in unsigned ints. */
  predicate SizeCheck(l: Layout, size: nat)
  {
    !(size < (l.Stride() * l.h % TWO32 + l.pixelOffset) % TWO32)
  }

  /** None of the 32-bit products wraps. */
  predicate Fits(l: Layout)
  {
    l.DataEnd() < TWO32 && 4 * Times(l.h, l.w) < TWO32
  }

  /** The bytes of pixel (x, y) as the loops fetch them: B and R swapped, alpha copied or opaque. */
  function Pixel(bmp: seq<U8>, l: Layout, x: nat, y: nat): (r: seq<U8>)
    requires InInput(bmp, l) && x < l.w && y < l.h
    ensures |r| == 4
  {
    InsideAt(bmp, l, x, y);
    [bmp[ReadIndex(l, x, y, 2)], bmp[ReadIndex(l, x, y, 1)], bmp[ReadIndex(l, x, y, 0)],
     if l.channels == 3 then 255 else bmp[ReadIndex(l, x, y, 3)]]
  }

  lemma InsideAt(bmp: seq<U8>, l: Layout, x: nat, y: nat)
    requires InInput(bmp, l) && x < l.w && y < l.h
    ensures forall k: nat :: k < 4 ==> WriteIndex(l, x, y, k) < ImageSize(l)
    ensures forall k: nat :: k < l.channels ==> ReadIndex(l, x, y, k) < |bmp|
  {
    hide WriteIndex, ReadIndex, ImageSize;
  }

  /** Where the last byte of the pixels ends: they are stored bottom up, so it is that of row 0. */
  function PixelEnd(l: Layout): nat
  {
    if l.w == 0 || l.h == 0 then 0 else l.pixelOffset + Times(l.h - 1, l.Stride()) + l.RowBytes()
  }

  /** The loops fetch every byte from its own place exactly when the pixels end below 2^32. */
  lemma ReadsInPlaceExactlyWhen(l: Layout)
    requires l.channels > 0
    ensures (forall x: nat, y: nat, k: nat :: x < l.w && y < l.h && k < l.channels ==>
               ReadIndex(l, x, y, k) == PixelStart(l, x, y) + k)
            <==> PixelEnd(l) <= TWO32
  {
    hide Times, Padded;
    if l.w > 0 && l.h > 0 {
      if PixelEnd(l) <= TWO32 {
        forall x: nat, y: nat, k: nat | x < l.w && y < l.h && k < l.channels
          ensures ReadIndex(l, x, y, k) == PixelStart(l, x, y) + k
        {
          PixelBeforeEnd(l, x, y, k);
        }
      } else {
        LastPixelByte(l);
        assert ReadIndex(l, l.w - 1, 0, l.channels - 1) < TWO32;
      }
    }
  }

  lemma LastPixelByte(l: Layout)
    requires l.channels > 0 && l.w > 0 && l.h > 0
    ensures PixelStart(l, l.w - 1, 0) + l.channels == PixelEnd(l)
  {
  }

  lemma PixelBeforeEnd(l: Layout, x: nat, y: nat, k: nat)
    requires x < l.w && y < l.h && k < l.channels
    ensures PixelStart(l, x, y) + k < PixelEnd(l)
  {
    TimesMono(l.h - y - 1, l.h - 1, l.Stride());
    ColumnInRow(l, x, k);
    hide Times, Padded;
  }

  lemma TimesMono(a: nat, b: nat, s: nat)
    requires a <= b
    ensures Times(a, s) <= Times(b, s)
  {
    if a < b {
      MulGap(s, b, a);
    }
  }

  /** In a file that fits and is complete, pixel (x, y) is what row h - 1 - y, column x of its pixel data holds. */
  lemma PixelOfCompleteFile(bmp: seq<U8>, l: Layout, x: nat, y: nat)
    requires (l.channels == 3 || l.channels == 4) && Fits(l) && l.DataEnd() <= |bmp| && x < l.w && y < l.h
    ensures InInput(bmp, l)
    ensures var p := PixelStart(l, x, y);
            && p + l.channels <= |bmp|
            && Pixel(bmp, l, x, y) == [bmp[p + 2], bmp[p + 1], bmp[p], if l.channels == 3 then 255 else bmp[p + 3]]
  {
    CompleteFileStaysInside(l, |bmp|);
    ReadsOfCompleteFile(l, x, y);
    InsideAt(bmp, l, x, y);
    hide StaysInside, PixelStart, ReadIndex, InInput, Fits, Times;
  }

  lemma ReadsOfCompleteFile(l: Layout, x: nat, y: nat)
    requires Fits(l) && x < l.w && y < l.h
    ensures PixelStart(l, x, y) + l.channels <= l.DataEnd()
    ensures forall k: nat :: k < l.channels ==> ReadIndex(l, x, y, k) == PixelStart(l, x, y) + k
  {
    PixelBeforeDataEnd(l, x, y);
    hide PixelStart, Times;
  }

  lemma PixelBeforeDataEnd(l: Layout, x: nat, y: nat)
    requires x < l.w && y < l.h
    ensures PixelStart(l, x, y) + l.channels <= l.DataEnd()
  {
    var s := l.Stride();
    assert l.channels * (x + 1) <= l.channels * l.w;
    assert (l.h - y - 1) * s + s <= l.h * s by {
      MulGap(s, l.h, l.h - y - 1);
    }
  }

  function Row(bmp: seq<U8>, l: Layout, y: nat, n: nat): (r: seq<U8>)
    requires InInput(bmp, l) && n <= l.w && y < l.h
    ensures |r| == 4 * n
  {
    if n == 0 then [] else Row(bmp, l, y, n - 1) + Pixel(bmp, l, n - 1, y)
  }

  lemma TimesStep(n: nat, w: nat)
    ensures n == 0 ==> Times(n, w) == 0
    ensures n > 0 ==> Times(n, w) == Times(n - 1, w) + w
  {
  }

  function Rows(bmp: seq<U8>, l: Layout, n: nat): (r: seq<U8>)
    requires InInput(bmp, l) && n <= l.h
    ensures |r| == 4 * Times(n, l.w)
  {
    TimesStep(n, l.w);
    if n == 0 then [] else Rows(bmp, l, n - 1) + Row(bmp, l, n - 1, l.w)
  }

  lemma {:induction false} RowAt(bmp: seq<U8>, l: Layout, y: nat, n: nat, x: nat)
    requires InInput(bmp, l) && x < n <= l.w && y < l.h
    ensures Row(bmp, l, y, n)[4 * x..4 * x + 4] == Pixel(bmp, l, x, y)
  {
    hide Pixel;
    if x < n - 1 {
      RowAt(bmp, l, y, n - 1, x);
    }
  }

  lemma {:induction false} OffsetInImage(w: nat, n: nat, x: nat, y: nat)
    requires x < w && y < n
    ensures PixelOffset(w, x, y) + 4 <= 4 * Times(y, w) + 4 * w <= 4 * Times(n, w)
    decreases n
  {
    hide Times;
    TimesStep(n, w);
    TimesStep(y + 1, w);
    if y < n - 1 {
      OffsetInImage(w, n - 1, x, y);
    }
  }

  /** Every pixel of the image is where a raw RGBA image has it. */
  lemma {:induction false} PixelAt(bmp: seq<U8>, l: Layout, n: nat, x: nat, y: nat)
    requires InInput(bmp, l) && x < l.w && y < n <= l.h
    ensures var p := PixelOffset(l.w, x, y);
            p + 4 <= |Rows(bmp, l, n)| && Rows(bmp, l, n)[p..p + 4] == Pixel(bmp, l, x, y)
    decreases n
  {
    hide Pixel, Row, Times, InInput;
    OffsetInImage(l.w, n, x, y);
    if y == n - 1 {
      RowAt(bmp, l, y, l.w, x);
    } else {
      OffsetInImage(l.w, n - 1, x, y);
      PixelAt(bmp, l, n - 1, x, y);
    }
  }

  /** std::vector::resize: the old elements stay, new ones are zero. */
  function Resized(image: seq<U8>, n: nat): (r: seq<U8>)
    ensures |r| == n
  {
    if n <= |image| then image[..n] else image + seq(n - |image|, _ => 0)
  }

  predicate Accepted(bmp: seq<U8>)
  {
    HeaderError(bmp) == 0 && Header(bmp).DataEnd() <= |bmp|
  }

  /** The unsigned stride computation; width and channel fields are too small for it to wrap. */
  method ScanlineBytes(w: U32, numChannels: U32) returns (scanlineBytes: U32)
    requires w < 0x1_0000 && (numChannels == 3 || numChannels == 4)
    ensures scanlineBytes == Padded(w * numChannels)
  {
    scanlineBytes := w * numChannels % TWO32;
    if scanlineBytes % 4 != 0 {
      scanlineBytes := scanlineBytes / 4 * 4 + 4;
    }
  }

  /** The two nested loops: row by row, pixel by pixel. */
  method FillImage(image0: seq<U8>, bmp: seq<U8>, l: Layout) returns (image: seq<U8>)
    requires InInput(bmp, l) && |image0| == 4 * Times(l.h, l.w)
    ensures image == Rows(bmp, l, l.h)
  {
    hide Times, Pixel, InInput, Row, Rows;
    image := image0;
    var y := 0;
    FirstRow(bmp, l);
    while y < l.h
      invariant 0 <= y <= l.h && |image| == |image0|
      invariant 4 * Times(y, l.w) <= |image| && image[..4 * Times(y, l.w)] == Rows(bmp, l, y)
    {
      var x := 0;
      RowStarts(bmp, l, y);
      while x < l.w
        invariant 0 <= x <= l.w && |image| == |image0|
        invariant PixelOffset(l.w, x, y) <= |image|
        invariant image[..PixelOffset(l.w, x, y)] == Rows(bmp, l, y) + Row(bmp, l, y, x)
      {
        RowGrows(bmp, l, x, y);
        image := PutPixel(image, bmp, l, x, y);
        x := x + 1;
      }
      RowsGrow(bmp, l, y);
      y := y + 1;
    }
    assert image[..|image|] == image;
  }

  lemma FirstRow(bmp: seq<U8>, l: Layout)
    requires InInput(bmp, l)
    ensures Times(0, l.w) == 0 && Rows(bmp, l, 0) == []
  {
  }

  lemma RowStarts(bmp: seq<U8>, l: Layout, y: nat)
    requires InInput(bmp, l) && y < l.h
    ensures Row(bmp, l, y, 0) == [] && PixelOffset(l.w, 0, y) == 4 * Times(y, l.w)
  {
  }

  lemma RowGrows(bmp: seq<U8>, l: Layout, x: nat, y: nat)
    requires InInput(bmp, l) && x < l.w && y < l.h
    ensures Row(bmp, l, y, x + 1) == Row(bmp, l, y, x) + Pixel(bmp, l, x, y)
  {
    hide Pixel;
  }

  lemma RowsGrow(bmp: seq<U8>, l: Layout, y: nat)
    requires InInput(bmp, l) && y < l.h
    ensures Rows(bmp, l, y + 1) == Rows(bmp, l, y) + Row(bmp, l, y, l.w)
    ensures PixelOffset(l.w, l.w, y) == 4 * Times(y + 1, l.w)
  {
    hide Row;
  }

  /** The loop body, with its index arithmetic in unsigned ints. */
  method PutPixel(image0: seq<U8>, bmp: seq<U8>, l: Layout, x: nat, y: nat) returns (image: seq<U8>)
    requires InInput(bmp, l) && |image0| == 4 * Times(l.h, l.w) && x < l.w && y < l.h
    ensures |image| == |image0| && PixelOffset(l.w, x + 1, y) <= |image|
    ensures image[..PixelOffset(l.w, x + 1, y)] == image0[..PixelOffset(l.w, x, y)] + Pixel(bmp, l, x, y)
  {
    WriteIndices(bmp, l, x, y);
    ReadIndices(bmp, l, x, y);
    image := image0;
    var bmpos: U32 := PixelStart(l, x, y) % TWO32;
    var newpos: U32 := PixelOffset(l.w, x, y) % TWO32;
    hide Times, StaysInside, InInput, PixelStart, PixelOffset, Sum32, ReadIndex;
    if l.channels == 3 {
      image := image[Sum32(newpos, 0) := bmp[Sum32(bmpos, 2)]];
      image := image[Sum32(newpos, 1) := bmp[Sum32(bmpos, 1)]];
      image := image[Sum32(newpos, 2) := bmp[Sum32(bmpos, 0)]];
      image := image[Sum32(newpos, 3) := 255];
    } else {
      image := image[Sum32(newpos, 0) := bmp[Sum32(bmpos, 2)]];
      image := image[Sum32(newpos, 1) := bmp[Sum32(bmpos, 1)]];
      image := image[Sum32(newpos, 2) := bmp[Sum32(bmpos, 0)]];
      image := image[Sum32(newpos, 3) := bmp[Sum32(bmpos, 3)]];
    }
  }

  /** The loop body's indices in the image do not wrap. */
  lemma WriteIndices(bmp: seq<U8>, l: Layout, x: nat, y: nat)
    requires InInput(bmp, l) && x < l.w && y < l.h
    ensures l.channels == 3 || l.channels == 4
    ensures PixelOffset(l.w, x, y) + 4 <= 4 * Times(l.h, l.w) < TWO32
    ensures PixelOffset(l.w, x + 1, y) == PixelOffset(l.w, x, y) + 4
    ensures var i := PixelOffset(l.w, x, y);
            i % TWO32 == i && Sum32(i, 0) == i && Sum32(i, 1) == i + 1 && Sum32(i, 2) == i + 2 && Sum32(i, 3) == i + 3
  {
    ImageDoesNotWrap(l, |bmp|);
    OffsetInImage(l.w, l.h, x, y);
    hide Times, StaysInside, ImageSize;
    SmallSums(PixelOffset(l.w, x, y));
  }

  lemma SmallSums(i: nat)
    requires i + 3 < TWO32
    ensures i % TWO32 == i && Sum32(i, 0) == i && Sum32(i, 1) == i + 1 && Sum32(i, 2) == i + 2 && Sum32(i, 3) == i + 3
  {
  }

  /** Its indices in the file lie inside it. */
  lemma ReadIndices(bmp: seq<U8>, l: Layout, x: nat, y: nat)
    requires InInput(bmp, l) && x < l.w && y < l.h
    ensures forall k: nat :: Sum32(PixelStart(l, x, y) % TWO32, k) == ReadIndex(l, x, y, k)
    ensures forall k: nat :: k < l.channels ==> Sum32(PixelStart(l, x, y) % TWO32, k) < |bmp|
  {
    InsideAt(bmp, l, x, y);
    hide PixelStart, InInput;
  }

  method DecodeBMP(image0: seq<U8>, w0: U32, h0: U32, bmp: seq<U8>) returns (error: U32, image: seq<U8>, w: U32, h: U32)
    requires HeaderError(bmp) == 0 && SizeCheck(Header(bmp), |bmp|) ==> StaysInside(Header(bmp), |bmp|)
    ensures error == 0xFFFF_FFFF <==> |bmp| < 54
    ensures error == 1 <==> |bmp| >= 54 && !(bmp[0] == 0x42 && bmp[1] == 0x4D)
    ensures error == 2 <==> |bmp| >= 54 && bmp[0] == 0x42 && bmp[1] == 0x4D && bmp[28] != 24 && bmp[28] != 32
    ensures error == 0 || error == 2 || error == 3 ==>
              var field := bmp[22] + 256 * (bmp[23] as int);
              w == bmp[18] + 256 * (bmp[19] as int) && h == if field < 0x8000 then field else 0xFFFF_0000 + field
    ensures error == 0 <==> HeaderError(bmp) == 0 && SizeCheck(Header(bmp), |bmp|)
    ensures HeaderError(bmp) == 0 && Fits(Header(bmp)) ==> (error == 0 <==> Accepted(bmp))
    ensures error == 0 ==> InInput(bmp, Header(bmp)) && w == Header(bmp).w && h == Header(bmp).h
    ensures error == 0 ==> image == Rows(bmp, Header(bmp), h)
    ensures error != 0 ==> image == image0 && error == if HeaderError(bmp) != 0 then HeaderError(bmp) else 3
    ensures error == 2 || error == 3 ==> w == Header(bmp).w && h == Header(bmp).h
    ensures error == 1 || error == 0xFFFF_FFFF ==> w == w0 && h == h0
  {
    hide StaysInside, Rows;
    image, w, h := image0, w0, h0;
    if |bmp| < MINHEADER {
      return 0xFFFF_FFFF, image, w, h;
    }
    if bmp[0] != 0x42 || bmp[1] != 0x4D {
      return 1, image, w, h;
    }
    var pixeloffset: U32 := bmp[10] + 256 * (bmp[11] as int);
    w := bmp[18] + 256 * (bmp[19] as int);
    h := SignExtended(bmp[22] + 256 * (bmp[23] as int));
    if bmp[28] != 24 && bmp[28] != 32 {
      return 2, image, w, h;
    }
    var numChannels: U32 := bmp[28] / 8;
    var scanlineBytes := ScanlineBytes(w, numChannels);
    ghost var l := Layout(pixeloffset, w, h, numChannels);
    assert l == Header(bmp) && scanlineBytes == l.Stride();
    CheckOfFitting(l, |bmp|);
    hide Header;
    var dataSize: U32 := scanlineBytes * h % TWO32;
    if |bmp| < (dataSize + pixeloffset) % TWO32 {
      return 3, image, w, h;
    }
    ImageDoesNotWrap(l, |bmp|);
    image := Resized(image, w * h * 4 % TWO32);
    image := FillImage(image, bmp, Layout(pixeloffset, w, h, numChannels));
    return 0, image, w, h;
  }

  /** The 32-bit size check accepts exactly the files that hold all pixel data if and only if its sum does not wrap. */
  lemma SizeCheckExactlyWhen(l: Layout)
    ensures forall size: nat :: SizeCheck(l, size) <==> size >= l.DataEnd() % 0x1_0000_0000
    ensures (forall size: nat :: SizeCheck(l, size) <==> size >= l.DataEnd()) <==> l.DataEnd() < TWO32
  {
    var t := l.DataEnd();
    WrappedSum(l.Stride() * l.h, l.pixelOffset);
    if t >= TWO32 {
      assert SizeCheck(l, t % TWO32);
    }
  }

  lemma WrappedSum(a: nat, b: nat)
    ensures (a % TWO32 + b) % TWO32 == (a + b) % TWO32
  {
  }

  lemma CheckOfFitting(l: Layout, size: nat)
    ensures Fits(l) ==> (SizeCheck(l, size) <==> l.DataEnd() <= size)
  {
    SizeCheckExactlyWhen(l);
    hide SizeCheck;
  }

  /** Once the number of image bytes wraps, some pixel's last byte has the greatest index, outside every image. */
  lemma WrappingImageIsLeft(l: Layout, size: nat)
    requires 4 * Times(l.h, l.w) >= TWO32
    ensures !StaysInside(l, size)
  {
    var j := TWO32 / 4 - 1;
    RowAndColumn(j, l.w, l.h);
    assert WriteIndex(l, j % l.w, j / l.w, 3) == TWO32 - 1;
  }

  lemma ImageDoesNotWrap(l: Layout, size: nat)
    requires StaysInside(l, size)
    ensures 4 * Times(l.h, l.w) < TWO32 && l.w * l.h * 4 % TWO32 == 4 * Times(l.h, l.w)
  {
    hide StaysInside;
    if 4 * Times(l.h, l.w) >= TWO32 {
      WrappingImageIsLeft(l, size);
    }
  }

  lemma RowAndColumn(j: nat, w: nat, h: nat)
    requires j < Times(h, w)
    ensures w > 0 && j / w < h && Times(j / w, w) + j % w == j
  {
    if j / w >= h {
      MulGap(w, j / w + 1, h);
    }
  }

  lemma CompleteFileStaysInside(l: Layout, size: nat)
    requires Fits(l) && l.DataEnd() <= size
    ensures StaysInside(l, size)
  {
    forall x: nat, y: nat, k: nat | x < l.w && y < l.h && k < 4
      ensures WriteIndex(l, x, y, k) < ImageSize(l) && (k < l.channels ==> ReadIndex(l, x, y, k) < size)
    {
      hide Times, PixelStart, WriteIndex, ReadIndex, ImageSize, Padded;
      WritesStay(l, x, y, k);
      ReadsOfCompleteFile(l, x, y);
    }
  }

  lemma WritesStay(l: Layout, x: nat, y: nat, k: nat)
    requires 4 * Times(l.h, l.w) < TWO32 && x < l.w && y < l.h && k < 4
    ensures WriteIndex(l, x, y, k) < ImageSize(l)
  {
    OffsetInImage(l.w, l.h, x, y);
    hide Times;
  }

  /** What every header yields that passes the header checks. */
  predicate Plausible(l: Layout)
  {
    (l.channels == 3 || l.channels == 4) && l.pixelOffset < 0x1_0000
  }

  /** The pixel data extends to 2^32 at least. */
  predicate Reaches(l: Layout)
  {
    Plausible(l) && l.DataEnd() >= TWO32
  }

  /** The row of the file in which byte 2^32 - 1 lies. */
  function LastRow(l: Layout): nat
    requires Reaches(l)
  {
    ReachingData(l);
    (TWO32 - 1 - l.pixelOffset) / l.Stride()
  }

  /** Its column in that row. */
  function LastColumn(l: Layout): nat
    requires Reaches(l)
  {
    ReachingData(l);
    (TWO32 - 1 - l.pixelOffset) % l.Stride()
  }

  /** 2^32, less the padding bytes right below it: the least file size that covers the pixels' bytes below 2^32. */
  function TopRead(l: Layout): nat
    requires Reaches(l)
  {
    if LastColumn(l) < l.RowBytes() then TWO32 else l.pixelOffset + Times(LastRow(l), l.Stride()) + l.RowBytes()
  }

  /** Pixel data that reaches 2^32 is not empty, and byte 2^32 - 1 lies in one of its rows. */
  lemma ReachingData(l: Layout)
    requires Reaches(l)
    ensures 0 < l.RowBytes() <= l.Stride() <= l.RowBytes() + 3 && l.Stride() <= 4 * l.w
    ensures (TWO32 - 1 - l.pixelOffset) / l.Stride() < l.h
  {
    StrideOf(l);
    hide Padded;
    QuotientBelow(TWO32 - 1 - l.pixelOffset, l.Stride(), l.h);
  }

  lemma StrideOf(l: Layout)
    requires Plausible(l)
    ensures l.RowBytes() <= l.Stride() <= l.RowBytes() + 3 && l.Stride() <= 4 * l.w
    ensures l.w == 0 ==> l.DataEnd() == l.pixelOffset
  {
  }

  lemma LastPlace(l: Layout)
    requires Reaches(l)
    ensures LastRow(l) < l.h && LastColumn(l) < l.Stride() && 0 < l.RowBytes() <= l.Stride()
    ensures TWO32 - 1 == l.pixelOffset + Times(LastRow(l), l.Stride()) + LastColumn(l)
    ensures TWO32 - 3 <= TopRead(l) <= TWO32
  {
    ReachingData(l);
    Divided(TWO32 - 1 - l.pixelOffset, l.Stride());
    hide Times, Padded;
  }

  lemma Divided(q: nat, s: nat)
    requires s > 0
    ensures q == Times(q / s, s) + q % s && q % s < s
  {
  }

  /** Byte c of the pixels in row r of the file, as the loops name it. */
  lemma ByteOfRow(l: Layout, r: nat, c: nat)
    requires r < l.h && c < l.RowBytes()
    ensures l.channels > 0 && c / l.channels < l.w
    ensures PixelStart(l, c / l.channels, l.h - 1 - r) + c % l.channels == l.pixelOffset + Times(r, l.Stride()) + c
  {
    QuotientBelow(c, l.channels, l.w);
    assert Times(l.channels, c / l.channels) + c % l.channels == c;
    hide Times, Padded;
  }

  /** In a smaller file the byte before TopRead is fetched from behind its end. */
  lemma WrappingReadsLeave(l: Layout, size: nat)
    requires Reaches(l) && size < TopRead(l)
    ensures !StaysInside(l, size)
  {
    TopByte(l);
    var c := TopColumn(l);
    hide Times, LastRow, TopColumn, TopRead, ReadIndex, WriteIndex, ImageSize;
    assert ReadIndex(l, c / l.channels, l.h - 1 - LastRow(l), c % l.channels) == TopRead(l) - 1;
  }

  function TopColumn(l: Layout): nat
    requires Reaches(l)
  {
    ReachingData(l);
    if LastColumn(l) < l.RowBytes() then LastColumn(l) else l.RowBytes() - 1
  }

  lemma TopByte(l: Layout)
    requires Reaches(l)
    ensures var c := TopColumn(l);
            && l.channels > 0 && c / l.channels < l.w && LastRow(l) < l.h
            && ReadIndex(l, c / l.channels, l.h - 1 - LastRow(l), c % l.channels) == TopRead(l) - 1
  {
    LastPlace(l);
    ByteOfRow(l, LastRow(l), TopColumn(l));
    hide Times, LastRow, LastColumn, PixelStart;
  }

  /** From that size on every fetch lies in the file, though not in its own place for bytes behind 2^32. */
  lemma WrappingReadsStay(l: Layout, size: nat, x: nat, y: nat, k: nat)
    requires Reaches(l) && 4 * Times(l.h, l.w) < TWO32 && size >= TopRead(l)
    requires x < l.w && y < l.h && k < l.channels
    ensures ReadIndex(l, x, y, k) < size
  {
    LastPlace(l);
    StrideTimes(l);
    PixelBeforeDataEnd(l, x, y);
    ColumnInRow(l, x, k);
    InLaterRow(LastRow(l), l.h - y - 1, l.Stride(), LastColumn(l), Times(l.channels, x) + k, l.RowBytes());
    hide Times, LastRow, LastColumn, Padded;
    IndexBelow(PixelStart(l, x, y) + k, size);
  }

  lemma ColumnInRow(l: Layout, x: nat, k: nat)
    requires x < l.w && k < l.channels
    ensures Times(l.channels, x) + k < l.RowBytes()
  {
    MulGap(l.channels, l.w, x);
  }

  lemma IndexBelow(p: nat, size: nat)
    requires p < TWO32 + 0x1_0000 && size >= TWO32 - 3 && (p < TWO32 ==> p < size)
    ensures p % TWO32 < size
  {
  }

  lemma InLaterRow(r: nat, r': nat, s: nat, c: nat, c': nat, n: nat)
    requires c < s && c' < n <= s
    ensures Times(r', s) + c' <= Times(r, s) + c ==> Times(r', s) + c' < Times(r, s) + n
  {
    if r' > r {
      MulGap(s, r', r);
    } else if r' < r {
      MulGap(s, r, r');
    }
  }

  lemma StrideTimes(l: Layout)
    requires Reaches(l) && 4 * Times(l.h, l.w) < TWO32
    ensures l.DataEnd() < TWO32 + l.pixelOffset
  {
    ReachingData(l);
    var d := 4 * l.w - l.Stride();
    assert l.Stride() * l.h + d * l.h == 4 * (l.h * l.w);
  }

  /**
   * A file that passes the size check is decoded inside the two arrays exactly when no product wraps, or when only the
   * end of the pixel data does and the file extends over all indices below 2^32 that are fetched.
   */
  lemma StaysInsideExactlyWhen(l: Layout, size: nat)
    requires Plausible(l) && SizeCheck(l, size)
    ensures StaysInside(l, size) <==>
            Fits(l) || (Reaches(l) && 4 * Times(l.h, l.w) < TWO32 && size >= TopRead(l))
  {
    hide StaysInside, SizeCheck, TopRead, Times;
    CheckOfFitting(l, size);
    if Fits(l) {
      CompleteFileStaysInside(l, size);
    } else if 4 * Times(l.h, l.w) >= TWO32 {
      WrappingImageIsLeft(l, size);
    } else if size < TopRead(l) {
      WrappingReadsLeave(l, size);
    } else {
      WrappingFileStays(l, size);
    }
  }

  lemma WrappingFileStays(l: Layout, size: nat)
    requires Reaches(l) && 4 * Times(l.h, l.w) < TWO32 && size >= TopRead(l)
    ensures StaysInside(l, size)
  {
    forall x: nat, y: nat, k: nat | x < l.w && y < l.h && k < 4
      ensures WriteIndex(l, x, y, k) < ImageSize(l) && (k < l.channels ==> ReadIndex(l, x, y, k) < size)
    {
      hide Times, ReadIndex, WriteIndex, TopRead, ImageSize;
      WritesStay(l, x, y, k);
      if k < l.channels {
        WrappingReadsStay(l, size, x, y, k);
      }
    }
  }

  /** Files below 4 GiB, less three bytes: the loops stay inside exactly when no product wraps. */
  lemma SmallFileStaysInsideExactlyWhen(l: Layout, size: nat)
    requires Plausible(l) && SizeCheck(l, size) && size < TWO32 - 3
    ensures StaysInside(l, size) <==> Fits(l)
  {
    hide StaysInside, SizeCheck, Times;
    StaysInsideExactlyWhen(l, size);
    if Reaches(l) {
      LastPlace(l);
    }
  }

  /**
   * A negative height field makes h wrap. Such a non-empty top-down file is never decoded: the size check compares with
   * the negated size of its pixel data, and where that passes the loops leave the arrays.
   */
  lemma TopDownNeverDecoded(l: Layout, size: nat)
    requires l.w > 0 && TWO32 - 0x8000 <= l.h < TWO32
    ensures SizeCheck(l, size) <==> size >= (l.pixelOffset - l.Stride() * (TWO32 - l.h)) % TWO32
    ensures !StaysInside(l, size)
  {
    var s, m := l.Stride(), TWO32 - l.h;
    WrappedSum(s * l.h, l.pixelOffset);
    WrappedDifference(s, l.h, m, l.pixelOffset);
    assert Times(l.h, l.w) >= l.h by {
      MulGap(l.h, l.w, 0);
    }
    WrappingImageIsLeft(l, size);
  }

  lemma WrappedDifference(s: nat, h: nat, m: nat, offset: nat)
    requires h + m == TWO32
    ensures (s * h + offset) % TWO32 == (offset - s * m) % TWO32
  {
    assert s * h + offset == offset - s * m + TWO32 * s;
  }

  /** A header alone, with width and height fields 0x8000: it passes the check and the loops leave the arrays. */
  lemma LeavingHeader(bmp: seq<U8>)
    requires |bmp| == MINHEADER && HeaderError(bmp) == 0 && bmp[28] == 32
    requires bmp[10] == 54 && bmp[11] == 0 && bmp[18] == bmp[22] == 0 && bmp[19] == bmp[23] == 0x80
    ensures SizeCheck(Header(bmp), |bmp|) && !StaysInside(Header(bmp), |bmp|)
  {
    var l := Header(bmp);
    assert l == Layout(54, 0x8000, TWO32 - 0x8000, 4);
    hide StaysInside, SizeCheck, Padded, Header, HeaderError;
    LeavingStride(l);
    TopDownNeverDecoded(l, MINHEADER);
    NegatedSize(l.Stride() * (TWO32 - l.h));
  }

  lemma LeavingStride(l: Layout)
    requires l.w == 0x8000 && l.channels == 4 && l.h == TWO32 - 0x8000
    ensures l.Stride() * (TWO32 - l.h) == TWO32
  {
  }

  lemma NegatedSize(p: nat)
    requires p == TWO32
    ensures (MINHEADER - p) % TWO32 == MINHEADER
  {
  }
}
