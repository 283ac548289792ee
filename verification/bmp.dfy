/**
 The bitmap encoder of `HttpBitmap/main.cpp`: the packed 54-byte `BMPHeader`
 (a 14-byte file header followed by the 40-byte info header) and
 `generateBMPImage`, which fills `width * height` pixels with one colour and
 appends them to the header. The colour is a parameter here; in the program it
 comes from a time-seeded `rand()`.

 The pixel layout is the one the program writes, which is not quite the
 Windows bitmap layout: each pixel is stored R, G, B (the format stores B, G,
 R) and rows are not padded to a multiple of four bytes. `StandardPixelAt` and
 the lemmas after it state what a reader following the format makes of that.
 */
module Bmp {
  import opened Bytes

  /** `sizeof(BMPHeader)` under `#pragma pack(1)`. */
  const HEADER_SIZE: nat := 54
  /** The value the program stores in `headerSize`: the size of the info header. */
  const INFO_HEADER_SIZE: nat := 40
  /** "BM" read as a little-endian `uint16_t`. */
  const SIGNATURE: nat := 0x4D42
  const BITS_PER_PIXEL: nat := 24
  /** One more than the largest `int`; the byte counts are computed in `int`. */
  const INT_LIMIT: nat := 0x8000_0000

  /** The colour the program fills the image with, one byte per channel. */
  datatype Color = Color(r: byte, g: byte, b: byte)

  /** The fields of the packed `BMPHeader` struct, in declaration order. */
  datatype BmpHeader = BmpHeader(
    signature: nat,
    fileSize: nat,
    reserved: nat,
    dataOffset: nat,
    headerSize: nat,
    width: nat,
    height: nat,
    planes: nat,
    bpp: nat,
    compression: nat,
    imageSize: nat,
    xPixelsPerMeter: nat,
    yPixelsPerMeter: nat,
    colorsUsed: nat,
    colorsImportant: nat)

  /** Every field fits its declared `uint16_t` or `uint32_t`. */
  predicate ValidHeader(h: BmpHeader) {
    && h.signature < TWO_16
    && h.fileSize < TWO_32
    && h.reserved < TWO_32
    && h.dataOffset < TWO_32
    && h.headerSize < TWO_32
    && h.width < TWO_32
    && h.height < TWO_32
    && h.planes < TWO_16
    && h.bpp < TWO_16
    && h.compression < TWO_32
    && h.imageSize < TWO_32
    && h.xPixelsPerMeter < TWO_32
    && h.yPixelsPerMeter < TWO_32
    && h.colorsUsed < TWO_32
    && h.colorsImportant < TWO_32
  }

  /** The header bytes `memcpy` copies out of the packed struct. */
  function SerializeHeader(h: BmpHeader): (r: seq<byte>)
    requires ValidHeader(h)
    ensures |r| == HEADER_SIZE
  {
    FileHeaderBytes(h) + InfoHeaderBytes(h)
  }

  /** Bytes 0 to 13: signature, file size, reserved word and pixel data offset. */
  function FileHeaderBytes(h: BmpHeader): (r: seq<byte>)
    requires ValidHeader(h)
    ensures |r| == 14
  {
    LE16(h.signature) + LE32(h.fileSize) + LE32(h.reserved) + LE32(h.dataOffset)
  }

  /** Bytes 14 to 53: the 40-byte info header. */
  function InfoHeaderBytes(h: BmpHeader): (r: seq<byte>)
    requires ValidHeader(h)
    ensures |r| == INFO_HEADER_SIZE
  {
    LE32(h.headerSize) + LE32(h.width) + LE32(h.height) + LE16(h.planes)
    + LE16(h.bpp) + LE32(h.compression) + LE32(h.imageSize)
    + LE32(h.xPixelsPerMeter) + LE32(h.yPixelsPerMeter) + LE32(h.colorsUsed)
    + LE32(h.colorsImportant)
  }

  /** The header a reader of the packed layout sees in the first 54 bytes of `s`. */
  function ParseHeader(s: seq<byte>): (h: BmpHeader)
    requires |s| >= HEADER_SIZE
    ensures ValidHeader(h)
  {
    BmpHeader(
      U16At(s, 0), U32At(s, 2), U32At(s, 6), U32At(s, 10), U32At(s, 14),
      U32At(s, 18), U32At(s, 22), U16At(s, 26), U16At(s, 28), U32At(s, 30),
      U32At(s, 34), U32At(s, 38), U32At(s, 42), U32At(s, 46), U32At(s, 50))
  }

  /** Serializing a header and parsing it back gives the same header. */
  lemma ParseSerialize(h: BmpHeader)
    requires ValidHeader(h)
    ensures ParseHeader(SerializeHeader(h)) == h
  {
    var s := SerializeHeader(h);
    U16FieldAt(s, 0, h.signature);
    U32FieldAt(s, 2, h.fileSize);
    U32FieldAt(s, 6, h.reserved);
    U32FieldAt(s, 10, h.dataOffset);
    U32FieldAt(s, 14, h.headerSize);
    U32FieldAt(s, 18, h.width);
    U32FieldAt(s, 22, h.height);
    U16FieldAt(s, 26, h.planes);
    U16FieldAt(s, 28, h.bpp);
    U32FieldAt(s, 30, h.compression);
    U32FieldAt(s, 34, h.imageSize);
    U32FieldAt(s, 38, h.xPixelsPerMeter);
    U32FieldAt(s, 42, h.yPixelsPerMeter);
    U32FieldAt(s, 46, h.colorsUsed);
    U32FieldAt(s, 50, h.colorsImportant);
  }

  lemma U32FieldAt(s: seq<byte>, off: nat, v: nat)
    requires v < TWO_32 && off + 4 <= |s|
    requires s[off..off + 4] == LE32(v)
    ensures U32At(s, off) == v
  {
    U32AtSlice(s, off, off + 4, 0);
    U32RoundTrip(v);
  }

  lemma U16FieldAt(s: seq<byte>, off: nat, v: nat)
    requires v < TWO_16 && off + 2 <= |s|
    requires s[off..off + 2] == LE16(v)
    ensures U16At(s, off) == v
  {
    U16AtSlice(s, off, off + 2, 0);
    U16RoundTrip(v);
  }

  /** Parsing any 54 bytes as a header and serializing it gives the same bytes. */
  lemma SerializeParse(s: seq<byte>)
    requires |s| == HEADER_SIZE
    ensures SerializeHeader(ParseHeader(s)) == s
  {
    FileHeaderParse(s);
    InfoHeaderParse(s);
    assert s[..14] + s[14..] == s;
  }

  lemma FileHeaderParse(s: seq<byte>)
    requires |s| == HEADER_SIZE
    ensures FileHeaderBytes(ParseHeader(s)) == s[..14]
  {
    var acc := LE16(U16At(s, 0));
    LE16OfU16(s, 0);
    LE32OfU32(s, 2);
    Extend(s, 0, acc, LE32(U32At(s, 2)), 2, 6);
    acc := acc + LE32(U32At(s, 2));
    LE32OfU32(s, 6);
    Extend(s, 0, acc, LE32(U32At(s, 6)), 6, 10);
    acc := acc + LE32(U32At(s, 6));
    LE32OfU32(s, 10);
    Extend(s, 0, acc, LE32(U32At(s, 10)), 10, 14);
    acc := acc + LE32(U32At(s, 10));
    assert FileHeaderBytes(ParseHeader(s)) == acc;
  }

  lemma InfoHeaderParse(s: seq<byte>)
    requires |s| == HEADER_SIZE
    ensures InfoHeaderBytes(ParseHeader(s)) == s[14..]
  {
    var acc := LE32(U32At(s, 14));
    LE32OfU32(s, 14);
    LE32OfU32(s, 18);
    Extend(s, 14, acc, LE32(U32At(s, 18)), 18, 22);
    acc := acc + LE32(U32At(s, 18));
    LE32OfU32(s, 22);
    Extend(s, 14, acc, LE32(U32At(s, 22)), 22, 26);
    acc := acc + LE32(U32At(s, 22));
    LE16OfU16(s, 26);
    Extend(s, 14, acc, LE16(U16At(s, 26)), 26, 28);
    acc := acc + LE16(U16At(s, 26));
    LE16OfU16(s, 28);
    Extend(s, 14, acc, LE16(U16At(s, 28)), 28, 30);
    acc := acc + LE16(U16At(s, 28));
    LE32OfU32(s, 30);
    Extend(s, 14, acc, LE32(U32At(s, 30)), 30, 34);
    acc := acc + LE32(U32At(s, 30));
    LE32OfU32(s, 34);
    Extend(s, 14, acc, LE32(U32At(s, 34)), 34, 38);
    acc := acc + LE32(U32At(s, 34));
    LE32OfU32(s, 38);
    Extend(s, 14, acc, LE32(U32At(s, 38)), 38, 42);
    acc := acc + LE32(U32At(s, 38));
    LE32OfU32(s, 42);
    Extend(s, 14, acc, LE32(U32At(s, 42)), 42, 46);
    acc := acc + LE32(U32At(s, 42));
    LE32OfU32(s, 46);
    Extend(s, 14, acc, LE32(U32At(s, 46)), 46, 50);
    acc := acc + LE32(U32At(s, 46));
    LE32OfU32(s, 50);
    Extend(s, 14, acc, LE32(U32At(s, 50)), 50, 54);
    acc := acc + LE32(U32At(s, 50));
    assert InfoHeaderBytes(ParseHeader(s)) == acc;
  }

  lemma Extend(s: seq<byte>, from: nat, acc: seq<byte>, piece: seq<byte>, lo: nat, hi: nat)
    requires from <= lo <= hi <= |s|
    requires acc == s[from..lo] && piece == s[lo..hi]
    ensures acc + piece == s[from..hi]
  {
  }

  // ------------------------------------------------------------- the image

  /** The `int` arithmetic of `generateBMPImage` stays in range: the sizes are
      non-negative and `sizeof(BMPHeader) + width * height * 3` is below 2^31. */
  predicate ImageFits(width: int, height: int) {
    && 0 <= width < INT_LIMIT
    && 0 <= height < INT_LIMIT
    && HEADER_SIZE + width * height * 3 < INT_LIMIT
  }

  /** The header `generateBMPImage` fills in for a `width` by `height` image. */
  function MakeHeader(width: int, height: int): (h: BmpHeader)
    requires ImageFits(width, height)
    ensures ValidHeader(h)
    ensures h.width == width && h.height == height
    ensures h.fileSize == h.dataOffset + h.imageSize && h.dataOffset == HEADER_SIZE
  {
    BmpHeader(
      signature := SIGNATURE,
      fileSize := HEADER_SIZE + width * height * 3,
      reserved := 0,
      dataOffset := HEADER_SIZE,
      headerSize := INFO_HEADER_SIZE,
      width := width,
      height := height,
      planes := 1,
      bpp := BITS_PER_PIXEL,
      compression := 0,
      imageSize := width * height * 3,
      xPixelsPerMeter := 0,
      yPixelsPerMeter := 0,
      colorsUsed := 0,
      colorsImportant := 0)
  }

  /** The byte a pixel holds at position `k` (0, 1 or 2) within it, in the
      program's R, G, B order. */
  function Channel(c: Color, k: nat): byte
    requires k < 3
  {
    if k == 0 then c.r else if k == 1 then c.g else c.b
  }

  /** `n` pixels of colour `c`, three bytes each. */
  function Pixels(n: nat, c: Color): (r: seq<byte>)
    decreases n
    ensures |r| == 3 * n
    ensures forall k :: 0 <= k < |r| ==> r[k] == Channel(c, k % 3)
  {
    if n == 0 then [] else [c.r, c.g, c.b] + Pixels(n - 1, c)
  }

  /** The buffer `generateBMPImage(width, height)` returns when the colour drawn is `c`. */
  function Encode(width: int, height: int, c: Color): (r: seq<byte>)
    requires ImageFits(width, height)
    ensures |r| == HEADER_SIZE + width * height * 3
    ensures r[0] == 'B' as int && r[1] == 'M' as int
    ensures forall k :: HEADER_SIZE <= k < |r| ==> r[k] == Channel(c, (k - HEADER_SIZE) % 3)
  {
    var h := MakeHeader(width, height);
    var file := FileHeaderBytes(h);
    assert file[0] == 'B' as int && file[1] == 'M' as int by {
      assert file[..2] == LE16(SIGNATURE);
    }
    SerializeHeader(h) + Pixels(width * height, c)
  }

  /** Reading the fields of the encoded header at their packed offsets gives the
      values the program stores: the sizes, the dimensions and the constants. */
  lemma EncodedHeaderFields(width: int, height: int, c: Color)
    requires ImageFits(width, height)
    ensures var e := Encode(width, height, c);
      && U16At(e, 0) == SIGNATURE
      && U32At(e, 2) == |e|
      && U32At(e, 6) == 0
      && U32At(e, 10) == HEADER_SIZE
      && U32At(e, 14) == INFO_HEADER_SIZE
      && U32At(e, 18) == width
      && U32At(e, 22) == height
      && U16At(e, 26) == 1
      && U16At(e, 28) == BITS_PER_PIXEL
      && U32At(e, 30) == 0
      && U32At(e, 34) == width * height * 3
      && U32At(e, 38) == 0
      && U32At(e, 42) == 0
      && U32At(e, 46) == 0
      && U32At(e, 50) == 0
  {
    var e := Encode(width, height, c);
    var h := MakeHeader(width, height);
    ParseSerialize(h);
    assert e[..HEADER_SIZE] == SerializeHeader(h);
    var offs32 := [2, 6, 10, 14, 18, 22, 30, 34, 38, 42, 46, 50];
    forall i | 0 <= i < |offs32|
      ensures U32At(e, offs32[i]) == U32At(e[..HEADER_SIZE], offs32[i])
    {
      U32AtSlice(e, 0, HEADER_SIZE, offs32[i]);
    }
    U16AtSlice(e, 0, HEADER_SIZE, 0);
    U16AtSlice(e, 0, HEADER_SIZE, 26);
    U16AtSlice(e, 0, HEADER_SIZE, 28);
  }

  /** The size fields agree: the file is the header followed by the pixel data. */
  lemma HeaderSizesAgree(width: int, height: int)
    requires ImageFits(width, height)
    ensures var h := MakeHeader(width, height);
      && h.fileSize == h.dataOffset + h.imageSize
      && h.imageSize == h.width * h.height * 3
      && h.dataOffset == HEADER_SIZE
  {
  }

  /** Pixel `i` of the encoded image holds the colour's R, G and B bytes, in that order. */
  lemma EncodedPixel(width: int, height: int, c: Color, i: nat)
    requires ImageFits(width, height)
    requires i < width * height
    ensures var e := Encode(width, height, c);
      && e[HEADER_SIZE + 3 * i] == c.r
      && e[HEADER_SIZE + 3 * i + 1] == c.g
      && e[HEADER_SIZE + 3 * i + 2] == c.b
  {
    var e := Encode(width, height, c);
    var px := Pixels(width * height, c);
    assert e == SerializeHeader(MakeHeader(width, height)) + px;
    PixelsAt(width * height, c, i);
    assert e[HEADER_SIZE + 3 * i..HEADER_SIZE + 3 * i + 3] == px[3 * i..3 * i + 3];
  }

  /** Pixel `i` of a pixel run is the colour, R then G then B. */
  lemma {:induction false} PixelsAt(n: nat, c: Color, i: nat)
    requires i < n
    ensures var px := Pixels(n, c);
      px[3 * i] == c.r && px[3 * i + 1] == c.g && px[3 * i + 2] == c.b
    decreases n
  {
    if i > 0 {
      PixelsAt(n - 1, c, i - 1);
    }
  }

  /** `generateBMPImage` step by step: the pixel buffer is filled by
      `FillPixels` and the header bytes are copied in front of it. It builds the
      same bytes as `Encode`. */
  method GenerateImage(width: int, height: int, color: Color) returns (bmp: seq<byte>)
    requires ImageFits(width, height)
    ensures bmp == Encode(width, height, color)
  {
    var header := MakeHeader(width, height);
    var imageData := FillPixels(width, height, color);
    bmp := SerializeHeader(header) + imageData;
  }

  /** The nested loop of `generateBMPImage`: pixel (x, y) goes to index
      `(y * width + x) * 3` of a `width * height * 3` byte buffer. */
  method FillPixels(width: int, height: int, color: Color) returns (data: seq<byte>)
    requires ImageFits(width, height)
    ensures data == Pixels(width * height, color)
  {
    var n := width * height;
    var imageData: seq<byte> := seq(n * 3, _ => 0);
    ghost var done := 0;
    var y := 0;
    while y < height
      invariant 0 <= y <= height
      invariant done == y * width && |imageData| == n * 3
      invariant forall k :: 0 <= k < done * 3 ==> imageData[k] == Channel(color, k % 3)
    {
      RowsInBuffer(y, width, height);
      imageData := FillRow(imageData, y * width, width, color);
      NextRow(y, width);
      done := done + width;
      y := y + 1;
    }
    assert done == n;
    data := imageData;
  }

  /** The inner loop of `generateBMPImage` for the row starting at pixel
      `start`: the row gets the colour, and the pixels before it keep it. */
  method FillRow(buf: seq<byte>, start: nat, width: nat, color: Color) returns (out: seq<byte>)
    requires (start + width) * 3 <= |buf|
    requires forall k :: 0 <= k < start * 3 ==> buf[k] == Channel(color, k % 3)
    ensures |out| == |buf|
    ensures forall k :: 0 <= k < (start + width) * 3 ==> out[k] == Channel(color, k % 3)
  {
    out := buf;
    var x := 0;
    while x < width
      invariant 0 <= x <= width
      invariant |out| == |buf|
      invariant forall k :: 0 <= k < (start + x) * 3 ==> out[k] == Channel(color, k % 3)
    {
      var index := (start + x) * 3;
      out := out[index := color.r][index + 1 := color.g][index + 2 := color.b];
      forall k | index <= k < index + 3
        ensures out[k] == Channel(color, k % 3)
      {
        assert k % 3 == k - index;
      }
      x := x + 1;
    }
  }

  /** The rows before row `y + 1` are those before row `y` and row `y`. */
  lemma NextRow(y: int, width: int)
    ensures (y + 1) * width == y * width + width
  {
  }

  /** Row `y` ends inside the image. */
  lemma RowsInBuffer(y: int, width: int, height: int)
    requires 0 <= y < height && 0 <= width
    ensures y * width + width <= width * height
  {
    MulMono(y + 1, height, width);
  }

  // ------------------------------------------------------ reading it back

  /** A decoded image: its dimensions and its pixels, row after row. */
  datatype Bitmap = Bitmap(width: nat, height: nat, pixels: seq<Color>)

  /** The `n` pixels stored in `data`, three bytes each in the program's R, G, B order. */
  function ReadPixels(data: seq<byte>, n: nat): (r: seq<Color>)
    requires |data| == 3 * n
    ensures |r| == n
  {
    seq(n, i requires 0 <= i < n => Color(data[3 * i], data[3 * i + 1], data[3 * i + 2]))
  }

  /** A reader for the layout the program writes: it checks the header against
      the buffer and reads the pixels that follow it. */
  function Decode(s: seq<byte>): Option<Bitmap>
  {
    if |s| < HEADER_SIZE then None
    else
      var h := ParseHeader(s);
      if h.signature != SIGNATURE || h.dataOffset != HEADER_SIZE
         || h.planes != 1 || h.bpp != BITS_PER_PIXEL || h.compression != 0
         || h.fileSize != |s| || h.imageSize != h.width * h.height * 3
         || |s| != HEADER_SIZE + h.imageSize
      then None
      else Some(Bitmap(h.width, h.height,
                       ReadPixels(s[HEADER_SIZE..], h.width * h.height)))
  }

  /** Decoding an encoded image gives its dimensions and `width * height`
      pixels, all of the requested colour. */
  lemma DecodeEncode(width: int, height: int, c: Color)
    requires ImageFits(width, height)
    ensures Decode(Encode(width, height, c))
         == Some(Bitmap(width, height, seq(width * height, _ => c)))
  {
    var e := Encode(width, height, c);
    var h := MakeHeader(width, height);
    ParseSerialize(h);
    assert e[..HEADER_SIZE] == SerializeHeader(h);
    ParseHeaderPrefix(e);
    var n := width * height;
    var px := ReadPixels(e[HEADER_SIZE..], n);
    forall i | 0 <= i < n
      ensures px[i] == c
    {
      EncodedPixel(width, height, c, i);
    }
    assert px == seq(n, _ => c);
  }

  /** The header only depends on the first 54 bytes. */
  lemma ParseHeaderPrefix(s: seq<byte>)
    requires |s| >= HEADER_SIZE
    ensures ParseHeader(s) == ParseHeader(s[..HEADER_SIZE])
  {
    var p := s[..HEADER_SIZE];
    var offs32 := [2, 6, 10, 14, 18, 22, 30, 34, 38, 42, 46, 50];
    forall i | 0 <= i < |offs32|
      ensures U32At(s, offs32[i]) == U32At(p, offs32[i])
    {
      U32AtSlice(s, 0, HEADER_SIZE, offs32[i]);
    }
    U16AtSlice(s, 0, HEADER_SIZE, 0);
    U16AtSlice(s, 0, HEADER_SIZE, 26);
    U16AtSlice(s, 0, HEADER_SIZE, 28);
  }

  // ------------------------------------------- a reader following the format

  /** The bytes per row the bitmap format prescribes for 24-bit pixels: the
      row is padded to a multiple of four bytes. */
  function RowStride(width: nat): nat {
    ((BITS_PER_PIXEL * width + 31) / 32) * 4
  }

  /** The program's unpadded rows match the format exactly when the width is a multiple of four. */
  lemma UnpaddedRowsIff(width: nat)
    ensures RowStride(width) == 3 * width <==> width % 4 == 0
  {
  }

  /** Pixel (x, y) as a reader following the format sees it: rows stored bottom
      row first at `RowStride` bytes each, channels in B, G, R order. */
  function StandardPixelAt(s: seq<byte>, width: nat, height: nat, x: nat, y: nat): Option<Color>
    requires x < width && y < height
  {
    var row := height - 1 - y;
    var off := HEADER_SIZE + row * RowStride(width) + 3 * x;
    if 0 <= off && off + 3 <= |s| then Some(Color(s[off + 2], s[off + 1], s[off])) else None
  }

  /** When the width is a multiple of four, a reader following the format finds
      every pixel, and sees the colour with red and blue exchanged. */
  lemma StandardReaderSwapsRedAndBlue(width: int, height: int, c: Color, x: nat, y: nat)
    requires ImageFits(width, height)
    requires width % 4 == 0
    requires x < width && y < height
    ensures StandardPixelAt(Encode(width, height, c), width, height, x, y)
         == Some(Color(c.b, c.g, c.r))
  {
    UnpaddedRowsIff(width);
    var i := (height - 1 - y) * width + x;
    RowBound(height - 1 - y, height, width, x);
    assert (height - 1 - y) * RowStride(width) + 3 * x == 3 * i;
    EncodedPixel(width, height, c, i);
  }

  /** When the width is not a multiple of four, the padded rows a reader
      following the format expects run past the end of the buffer. */
  lemma PaddedRowsOverrun(width: int, height: int, c: Color)
    requires ImageFits(width, height)
    requires width % 4 != 0 && height > 0
    ensures HEADER_SIZE + height * RowStride(width) > |Encode(width, height, c)|
  {
    var stride := RowStride(width);
    UnpaddedRowsIff(width);
    assert stride > 3 * width;
    MulStrict(height, stride, 3 * width);
    Rearrange(height, width);
  }

  /** Row `row` of `width` pixels lies inside `height` rows. */
  lemma RowBound(row: nat, height: nat, width: nat, x: nat)
    requires row < height && x < width
    ensures row * width + x < height * width
  {
    assert (row + 1) * width <= height * width by {
      MulMono(row + 1, height, width);
    }
  }

  lemma MulMono(a: nat, b: nat, m: nat)
    requires a <= b
    ensures a * m <= b * m
  {
  }

  lemma Rearrange(h: int, w: int)
    ensures h * (3 * w) == w * h * 3
  {
  }

  lemma MulStrict(h: nat, a: nat, b: nat)
    requires h > 0 && a > b
    ensures h * a > h * b
  {
  }
}
