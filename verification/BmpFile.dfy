/** Writing an uncompressed BMP, and decoding what was written. */
module BmpFile {
  import opened BmpDecoder
  import opened CWord
  import opened Endian

  /** Bytes of a pixel in the file, and of a row with its padding. */
  function PixelBytes(alpha: bool): nat
  {
    if alpha then 4 else 3
  }

  function RowLength(w: nat, alpha: bool): nat
  {
    (w * PixelBytes(alpha) + 3) / 4 * 4
  }

  /** Where pixel (x, y) stands in the file: the last row of the image comes first. */
  function Place(offset: nat, w: nat, h: nat, alpha: bool, x: nat, y: nat): nat
    requires y < h
  {
    offset + Times(h - 1 - y, RowLength(w, alpha)) + PixelBytes(alpha) * x
  }

  /** The sizes that fit the header's fields and the 32-bit products. */
  predicate Sizes(offset: nat, w: nat, h: nat, alpha: bool)
  {
    && w < 0x1_0000 && h < 0x8000 && 54 <= offset < 0x1_0000
    && offset + Times(h, RowLength(w, alpha)) < 0x1_0000_0000 && 4 * Times(h, w) < 0x1_0000_0000
  }

  /** The file describes the image: rgba is four bytes per pixel, row by row from the top. */
  ghost predicate Describes(bmp: seq<U8>, offset: nat, w: nat, h: nat, alpha: bool, rgba: seq<U8>)
    requires Sizes(offset, w, h, alpha)
  {
    && |rgba| == 4 * Times(h, w) && |bmp| >= offset + Times(h, RowLength(w, alpha))
    && bmp[0] == 0x42 && bmp[1] == 0x4D
    && bmp[10..12] == Bytes(offset, 2) && bmp[18..20] == Bytes(w, 2) && bmp[22..24] == Bytes(h, 2)
    && bmp[28] == (if alpha then 32 else 24)
    && forall x: nat, y: nat :: x < w && y < h ==>
         PixelDescribed(bmp, Place(offset, w, h, alpha, x, y), rgba, 4 * (Times(y, w) + x), alpha)
  }

  /** In the file blue, green, red and perhaps alpha; in the image red, green, blue, alpha. */
  predicate PixelDescribed(bmp: seq<U8>, p: nat, rgba: seq<U8>, q: nat, alpha: bool)
  {
    && p + PixelBytes(alpha) <= |bmp| && q + 4 <= |rgba|
    && bmp[p] == rgba[q + 2] && bmp[p + 1] == rgba[q + 1] && bmp[p + 2] == rgba[q]
    && if alpha then bmp[p + 3] == rgba[q + 3] else rgba[q + 3] == 255
  }

  lemma TwoBytes(v: nat)
    requires v < 0x1_0000
    ensures Bytes(v, 2) == [v % 0x100, v / 0x100]
  {
    var s: seq<U8> := [v % 0x100, v / 0x100];
    assert s[1..] == [v / 0x100] && LE([v / 0x100]) == v / 0x100 && LE(s) == v;
    hide Bytes, LE;
    BytesOfLE(s);
  }

  lemma HeaderOfDescribed(bmp: seq<U8>, offset: nat, w: nat, h: nat, alpha: bool, rgba: seq<U8>)
    requires Sizes(offset, w, h, alpha) && Describes(bmp, offset, w, h, alpha, rgba)
    ensures HeaderError(bmp) == 0 && Header(bmp) == Layout(offset, w, h, PixelBytes(alpha))
  {
    TwoBytes(offset);
    TwoBytes(w);
    TwoBytes(h);
    hide Bytes, Times, PixelDescribed;
    assert bmp[10] == bmp[10..12][0] && bmp[11] == bmp[10..12][1];
    assert bmp[18] == bmp[18..20][0] && bmp[19] == bmp[18..20][1];
    assert bmp[22] == bmp[22..24][0] && bmp[23] == bmp[22..24][1];
  }

  lemma LayoutFits(offset: nat, w: nat, h: nat, alpha: bool)
    requires Sizes(offset, w, h, alpha)
    ensures var l := Layout(offset, w, h, PixelBytes(alpha));
            Fits(l) && l.Stride() == RowLength(w, alpha) && l.DataEnd() == offset + Times(h, RowLength(w, alpha))
  {
    PaddedIsRoundedUp(w * PixelBytes(alpha));
    hide Padded;
  }

  lemma PaddedIsRoundedUp(bytes: nat)
    ensures Padded(bytes) == (bytes + 3) / 4 * 4
  {
  }

  lemma StartIsPlace(offset: nat, w: nat, h: nat, alpha: bool, x: nat, y: nat)
    requires y < h
    ensures PixelStart(Layout(offset, w, h, PixelBytes(alpha)), x, y) == Place(offset, w, h, alpha, x, y)
  {
    PaddedIsRoundedUp(w * PixelBytes(alpha));
    TimesIsProduct(PixelBytes(alpha), x);
    hide Padded, Times;
  }

  lemma TimesIsProduct(a: nat, b: nat)
    ensures Times(a, b) == a * b
  {
  }

  lemma DescribedAt(bmp: seq<U8>, offset: nat, w: nat, h: nat, alpha: bool, rgba: seq<U8>, x: nat, y: nat)
    requires Sizes(offset, w, h, alpha) && Describes(bmp, offset, w, h, alpha, rgba) && x < w && y < h
    ensures PixelDescribed(bmp, Place(offset, w, h, alpha, x, y), rgba, 4 * (Times(y, w) + x), alpha)
    ensures Layout(offset, w, h, PixelBytes(alpha)).DataEnd() <= |bmp|
  {
    hide Times, PixelDescribed, Place;
    LayoutFits(offset, w, h, alpha);
  }

  lemma FourBytes(bmp: seq<U8>, p: nat, rgba: seq<U8>, q: nat, alpha: bool)
    requires PixelDescribed(bmp, p, rgba, q, alpha)
    ensures rgba[q..q + 4] == [bmp[p + 2], bmp[p + 1], bmp[p], if alpha then bmp[p + 3] else 255]
  {
  }

  /** Every pixel of the decoded image is the one described. */
  lemma PixelsOfDescribed(bmp: seq<U8>, offset: nat, w: nat, h: nat, alpha: bool, rgba: seq<U8>, x: nat, y: nat)
    requires Sizes(offset, w, h, alpha) && Describes(bmp, offset, w, h, alpha, rgba) && x < w && y < h
    ensures var l, q := Layout(offset, w, h, PixelBytes(alpha)), 4 * (Times(y, w) + x);
            InInput(bmp, l) && q + 4 <= |rgba| && Pixel(bmp, l, x, y) == rgba[q..q + 4]
  {
    hide Times, Describes, Sizes, InInput, Pixel, PixelStart, Place, Fits, RowLength;
    var l := Layout(offset, w, h, PixelBytes(alpha));
    LayoutFits(offset, w, h, alpha);
    DescribedAt(bmp, offset, w, h, alpha, rgba, x, y);
    StartIsPlace(offset, w, h, alpha, x, y);
    PixelOfCompleteFile(bmp, l, x, y);
    FourBytes(bmp, Place(offset, w, h, alpha, x, y), rgba, 4 * (Times(y, w) + x), alpha);
  }

  lemma ByteOfPixel(bmp: seq<U8>, offset: nat, w: nat, h: nat, alpha: bool, rgba: seq<U8>, x: nat, y: nat, i: nat)
    requires Sizes(offset, w, h, alpha) && Describes(bmp, offset, w, h, alpha, rgba) && x < w && y < h
    requires 4 * (Times(y, w) + x) <= i < 4 * (Times(y, w) + x) + 4
    ensures var l := Layout(offset, w, h, PixelBytes(alpha));
            InInput(bmp, l) && i < |rgba| && i < |Rows(bmp, l, h)| && Rows(bmp, l, h)[i] == rgba[i]
  {
    hide Times, Rows, Pixel, Sizes, InInput, StaysInside, Describes;
    var l := Layout(offset, w, h, PixelBytes(alpha));
    PixelsOfDescribed(bmp, offset, w, h, alpha, rgba, x, y);
    PixelAt(bmp, l, h, x, y);
    SameAt(Rows(bmp, l, h), rgba, 4 * (Times(y, w) + x), i);
  }

  lemma ByteOfDescribed(bmp: seq<U8>, offset: nat, w: nat, h: nat, alpha: bool, rgba: seq<U8>, i: nat)
    requires Sizes(offset, w, h, alpha) && Describes(bmp, offset, w, h, alpha, rgba) && i < 4 * Times(h, w)
    ensures var l := Layout(offset, w, h, PixelBytes(alpha));
            InInput(bmp, l) && i < |rgba| && i < |Rows(bmp, l, h)| && Rows(bmp, l, h)[i] == rgba[i]
  {
    hide Times, Rows, Sizes, InInput, StaysInside, Describes;
    RowAndColumn(i / 4, w, h);
    ByteOfPixel(bmp, offset, w, h, alpha, rgba, i / 4 % w, i / 4 / w, i);
  }

  lemma SameAt(s: seq<U8>, t: seq<U8>, q: nat, i: nat)
    requires q + 4 <= |s| && q + 4 <= |t| && s[q..q + 4] == t[q..q + 4] && q <= i < q + 4
    ensures s[i] == t[i]
  {
    assert s[i] == s[q..q + 4][i - q];
  }

  lemma RowsOfDescribed(bmp: seq<U8>, offset: nat, w: nat, h: nat, alpha: bool, rgba: seq<U8>)
    requires Sizes(offset, w, h, alpha) && Describes(bmp, offset, w, h, alpha, rgba)
    ensures var l := Layout(offset, w, h, PixelBytes(alpha)); InInput(bmp, l) && Rows(bmp, l, h) == rgba
  {
    var l := Layout(offset, w, h, PixelBytes(alpha));
    LayoutFits(offset, w, h, alpha);
    CompleteFileStaysInside(l, |bmp|);
    hide Times, Rows, Sizes, InInput, StaysInside, PixelDescribed;
    forall i: nat | i < 4 * Times(h, w)
      ensures Rows(bmp, l, h)[i] == rgba[i]
    {
      ByteOfDescribed(bmp, offset, w, h, alpha, rgba, i);
    }
  }

  /** A file that describes an image is decoded to that image. */
  method DecodeDescribed(image0: seq<U8>, w0: U32, h0: U32, bmp: seq<U8>, ghost offset: nat, ghost w': nat,
                         ghost h': nat, ghost alpha: bool, ghost rgba: seq<U8>)
    returns (error: U32, image: seq<U8>, w: U32, h: U32)
    requires Sizes(offset, w', h', alpha) && Describes(bmp, offset, w', h', alpha, rgba)
    ensures error == 0 && w == w' && h == h' && image == rgba
  {
    HeaderOfDescribed(bmp, offset, w', h', alpha, rgba);
    LayoutFits(offset, w', h', alpha);
    CheckOfFitting(Header(bmp), |bmp|);
    RowsOfDescribed(bmp, offset, w', h', alpha, rgba);
    hide HeaderError, Header, Rows, Times, Padded, StaysInside, SizeCheck, Describes;
    error, image, w, h := DecodeBMP(image0, w0, h0, bmp);
  }

  // The writer.

  function Zeros(n: nat): (r: seq<U8>)
    ensures |r| == n
  {
    seq(n, _ => 0)
  }

  /** Signature, pixel offset, width, height and bits per pixel at their places, zeros elsewhere. */
  function FileHeader(offset: nat, w: nat, h: nat, alpha: bool): (r: seq<U8>)
    requires offset >= 54
    ensures |r| == offset
  {
    [0x42, 0x4D] + Zeros(8) + Bytes(offset, 2) + Zeros(6) + Bytes(w, 2) + Zeros(2) + Bytes(h, 2) + Zeros(4)
    + [if alpha then 32 else 24] + Zeros(offset - 29)
  }

  /** Blue, green, red and perhaps alpha of the pixel at q. */
  function FilePixel(rgba: seq<U8>, q: nat, alpha: bool): (r: seq<U8>)
    requires q + 4 <= |rgba|
    ensures |r| == PixelBytes(alpha)
  {
    [rgba[q + 2], rgba[q + 1], rgba[q]] + if alpha then [rgba[q + 3]] else []
  }

  /** The first n pixels of a row that begins at pixel `first` of the image. */
  function FilePixels(rgba: seq<U8>, first: nat, n: nat, alpha: bool): (r: seq<U8>)
    requires 4 * (first + n) <= |rgba|
    ensures |r| == n * PixelBytes(alpha)
  {
    if n == 0 then [] else FilePixels(rgba, first, n - 1, alpha) + FilePixel(rgba, 4 * (first + n - 1), alpha)
  }

  function FileRow(rgba: seq<U8>, first: nat, w: nat, alpha: bool): (r: seq<U8>)
    requires 4 * (first + w) <= |rgba|
    ensures |r| == RowLength(w, alpha)
  {
    FilePixels(rgba, first, w, alpha) + Zeros(RowLength(w, alpha) - w * PixelBytes(alpha))
  }

  lemma RowInImage(w: nat, h: nat, y: nat)
    requires y < h
    ensures Times(y, w) + w <= Times(h, w)
  {
    MulGap(w, h, y);
  }

  /** The last n rows of the image, from the bottom up. */
  function FileRows(rgba: seq<U8>, w: nat, h: nat, n: nat, alpha: bool): (r: seq<U8>)
    requires |rgba| == 4 * Times(h, w) && n <= h
    ensures |r| == Times(n, RowLength(w, alpha))
  {
    TimesStep(n, RowLength(w, alpha));
    if n == 0 then []
    else
      RowInImage(w, h, h - n);
      FileRows(rgba, w, h, n - 1, alpha) + FileRow(rgba, Times(h - n, w), w, alpha)
  }

  function Written(offset: nat, w: nat, h: nat, alpha: bool, rgba: seq<U8>): seq<U8>
    requires offset >= 54 && |rgba| == 4 * Times(h, w)
  {
    FileHeader(offset, w, h, alpha) + FileRows(rgba, w, h, h, alpha)
  }

  /** The alpha bytes that a file without them stands for. */
  predicate Opaque(rgba: seq<U8>)
  {
    forall i :: 0 <= i < |rgba| && i % 4 == 3 ==> rgba[i] == 255
  }

  lemma {:induction false} PixelInRow(rgba: seq<U8>, first: nat, n: nat, alpha: bool, x: nat)
    requires x < n && 4 * (first + n) <= |rgba|
    ensures var c, s := PixelBytes(alpha), FilePixels(rgba, first, n, alpha);
            c * x + c <= |s| && s[c * x..c * x + c] == FilePixel(rgba, 4 * (first + x), alpha)
    decreases n
  {
    hide FilePixel;
    if x < n - 1 {
      PixelInRow(rgba, first, n - 1, alpha, x);
    }
  }

  lemma {:induction false} RowInFile(rgba: seq<U8>, w: nat, h: nat, n: nat, alpha: bool, y: nat)
    requires |rgba| == 4 * Times(h, w) && n <= h && h - n <= y < h
    ensures var r, s, p := RowLength(w, alpha), FileRows(rgba, w, h, n, alpha), Times(h - 1 - y, RowLength(w, alpha));
            && Times(y, w) + w <= Times(h, w)
            && p + r <= |s| && s[p..p + r] == FileRow(rgba, Times(y, w), w, alpha)
    decreases n
  {
    hide FileRow, Times, RowLength;
    RowInImage(w, h, y);
    TimesStep(n, RowLength(w, alpha));
    if y > h - n {
      RowInFile(rgba, w, h, n - 1, alpha, y);
    } else {
      assert h - 1 - y == n - 1;
    }
  }

  lemma HeaderFields(offset: nat, w: nat, h: nat, alpha: bool)
    requires offset >= 54
    ensures var r := FileHeader(offset, w, h, alpha);
            && r[0] == 0x42 && r[1] == 0x4D && r[28] == (if alpha then 32 else 24)
            && r[10..12] == Bytes(offset, 2) && r[18..20] == Bytes(w, 2) && r[22..24] == Bytes(h, 2)
  {
    hide Bytes;
  }

  /** What the writer writes describes the image. */
  lemma WrittenDescribes(offset: nat, w: nat, h: nat, alpha: bool, rgba: seq<U8>)
    requires Sizes(offset, w, h, alpha) && |rgba| == 4 * Times(h, w) && (!alpha ==> Opaque(rgba))
    ensures Describes(Written(offset, w, h, alpha, rgba), offset, w, h, alpha, rgba)
  {
    var head, rows := FileHeader(offset, w, h, alpha), FileRows(rgba, w, h, h, alpha);
    var bmp := head + rows;
    HeaderFields(offset, w, h, alpha);
    hide FileHeader, FileRows, Times, RowLength, Bytes, Opaque;
    assert bmp[10..12] == head[10..12] && bmp[18..20] == head[18..20] && bmp[22..24] == head[22..24];
    forall x: nat, y: nat | x < w && y < h
      ensures PixelDescribed(bmp, Place(offset, w, h, alpha, x, y), rgba, 4 * (Times(y, w) + x), alpha)
    {
      PixelWritten(offset, w, h, alpha, rgba, x, y);
    }
  }

  lemma PartOfPart(head: seq<U8>, rows: seq<U8>, p: nat, r: nat, a: nat, c: nat)
    requires p + r <= |rows| && a + c <= r
    ensures |head| + p + a + c <= |head + rows|
    ensures (head + rows)[|head| + p + a..|head| + p + a + c] == rows[p..p + r][a..a + c]
  {
    var row, whole := rows[p..p + r], head + rows;
    var part, same := row[a..a + c], whole[|head| + p + a..|head| + p + a + c];
    forall i | 0 <= i < c
      ensures part[i] == same[i]
    {
      assert row[a + i] == rows[p + a + i] == whole[|head| + p + a + i];
    }
  }

  lemma PixelOfFile(bmp: seq<U8>, place: nat, rgba: seq<U8>, q: nat, alpha: bool)
    requires place + PixelBytes(alpha) <= |bmp| && q + 4 <= |rgba|
    requires bmp[place..place + PixelBytes(alpha)] == FilePixel(rgba, q, alpha) && (!alpha ==> rgba[q + 3] == 255)
    ensures PixelDescribed(bmp, place, rgba, q, alpha)
  {
    var s := bmp[place..place + PixelBytes(alpha)];
    assert s[0] == bmp[place] && s[1] == bmp[place + 1] && s[2] == bmp[place + 2];
    if alpha {
      assert s[3] == bmp[place + 3];
    }
  }

  /** Pixel (x, y) lies in its row, the row in the file. */
  lemma PixelWritten(offset: nat, w: nat, h: nat, alpha: bool, rgba: seq<U8>, x: nat, y: nat)
    requires offset >= 54 && |rgba| == 4 * Times(h, w) && (!alpha ==> Opaque(rgba)) && x < w && y < h
    ensures PixelDescribed(Written(offset, w, h, alpha, rgba), Place(offset, w, h, alpha, x, y), rgba,
                           4 * (Times(y, w) + x), alpha)
  {
    hide FileHeader, FileRows, FilePixel, FilePixels, FileRow, Times, RowLength, PixelDescribed;
    var c, r := PixelBytes(alpha), RowLength(w, alpha);
    var head, rows := FileHeader(offset, w, h, alpha), FileRows(rgba, w, h, h, alpha);
    var p, q := Times(h - 1 - y, r), 4 * (Times(y, w) + x);
    RowInFile(rgba, w, h, h, alpha, y);
    PixelOfRow(rgba, Times(y, w), w, alpha, x);
    PartOfPart(head, rows, p, r, c * x, c);
    PixelOfFile(head + rows, offset + p + c * x, rgba, q, alpha);
  }

  lemma PixelOfRow(rgba: seq<U8>, first: nat, w: nat, alpha: bool, x: nat)
    requires x < w && 4 * (first + w) <= |rgba|
    ensures var c, row := PixelBytes(alpha), FileRow(rgba, first, w, alpha);
            c * x + c <= |row| && row[c * x..c * x + c] == FilePixel(rgba, 4 * (first + x), alpha)
  {
    hide FilePixel, FilePixels;
    PixelInRow(rgba, first, w, alpha, x);
  }

  /** The round trip: what is written is decoded again, for every image whose sizes fit. */
  method WriteThenDecode(image0: seq<U8>, w0: U32, h0: U32, offset: nat, width: nat, height: nat, alpha: bool,
                         rgba: seq<U8>)
    returns (error: U32, image: seq<U8>, w: U32, h: U32)
    requires Sizes(offset, width, height, alpha) && |rgba| == 4 * Times(height, width) && (!alpha ==> Opaque(rgba))
    ensures error == 0 && w == width && h == height && image == rgba
  {
    hide Describes, Written, Opaque, Times;
    WrittenDescribes(offset, width, height, alpha, rgba);
    error, image, w, h := DecodeDescribed(image0, w0, h0, Written(offset, width, height, alpha, rgba),
                                          offset, width, height, alpha, rgba);
  }
}
