/**
  What the encoded buffer promises a reader: every header block reads back as
  the values the encoder wrote, the size and offset fields describe the buffer
  itself, the height field marks the raster top-down, and pixel (x, y) sits
  big-endian at offset 66 + 2 * (y * width + x) with no row padding.
*/
module BmpProperties {
  import opened Results
  import opened Bits
  import opened StructPack
  import opened Rgb565
  import opened Bmp

  // Each header block reads back as the values it was packed from

  lemma FileHeaderRoundTrip(h: FileHeader, rest: Bytes)
    requires PackFileHeader(h).Success?
    ensures ParseFileHeader(PackFileHeader(h).value + rest) == Some(h)
  {
    var size, reserved1, reserved2, offset :=
      PackU32LE(h.fileSize).value, PackU16LE(h.reserved1).value,
      PackU16LE(h.reserved2).value, PackU32LE(h.dataOffset).value;
    assert PackFileHeader(h).value == Signature + size + reserved1 + reserved2 + offset;
    FileHeaderFields(size, reserved1, reserved2, offset, rest);
  }

  /** The reader takes the four fields of a file header from their fixed offsets. */
  lemma FileHeaderFields(size: Bytes, reserved1: Bytes, reserved2: Bytes, offset: Bytes, rest: Bytes)
    requires |size| == 4 && |reserved1| == 2 && |reserved2| == 2 && |offset| == 4
    ensures ParseFileHeader(Signature + size + reserved1 + reserved2 + offset + rest) ==
      Some(FileHeader(UnpackU32LE(size), UnpackU16LE(reserved1), UnpackU16LE(reserved2), UnpackU32LE(offset)))
  {
    var b := Signature + size + reserved1 + reserved2 + offset + rest;
    assert b[..2] == Signature && b[2..6] == size && b[6..8] == reserved1;
    assert b[8..10] == reserved2 && b[10..14] == offset;
  }

  lemma InfoHeaderRoundTrip(h: InfoHeader, rest: Bytes)
    requires PackInfoHeader(h).Success?
    ensures ParseInfoHeader(PackInfoHeader(h).value + rest) == Some(h)
  {
    var f0, f1, f2, f3, f4, f5 :=
      PackU32LE(h.headerSize).value, PackI32LE(h.width).value, PackI32LE(h.height).value,
      PackU16LE(h.planes).value, PackU16LE(h.bitCount).value, PackU32LE(h.compression).value;
    var f6, f7, f8, f9, f10 :=
      PackU32LE(h.imageSize).value, PackI32LE(h.xPelsPerMeter).value, PackI32LE(h.yPelsPerMeter).value,
      PackU32LE(h.colorsUsed).value, PackU32LE(h.colorsImportant).value;
    assert PackInfoHeader(h).value == f0 + f1 + f2 + f3 + f4 + f5 + f6 + f7 + f8 + f9 + f10;
    InfoHeaderFront(f0 + f1 + f2 + f3 + f4 + f5, f0, f1, f2, f3, f4, f5);
    InfoHeaderFields(f0 + f1 + f2 + f3 + f4 + f5 + f6 + f7 + f8 + f9 + f10 + rest,
                     f0 + f1 + f2 + f3 + f4 + f5, f6, f7, f8, f9, f10, rest);
  }

  /** The reader takes the eleven fields of an info header from their fixed offsets. */
  lemma InfoHeaderFields(b: Bytes, front: Bytes,
                         f6: Bytes, f7: Bytes, f8: Bytes, f9: Bytes, f10: Bytes, rest: Bytes)
    requires b == front + f6 + f7 + f8 + f9 + f10 + rest
    requires |front| == 20 && |f6| == 4 && |f7| == 4 && |f8| == 4 && |f9| == 4 && |f10| == 4
    ensures |b| >= InfoHeaderSize
    ensures b[0..4] == front[0..4] && b[4..8] == front[4..8] && b[8..12] == front[8..12]
    ensures b[12..14] == front[12..14] && b[14..16] == front[14..16] && b[16..20] == front[16..20]
    ensures b[20..24] == f6 && b[24..28] == f7 && b[28..32] == f8
    ensures b[32..36] == f9 && b[36..40] == f10
  {
  }

  /** Size, width, height, planes, bit count and compression: the first twenty bytes of an info header. */
  lemma InfoHeaderFront(front: Bytes, f0: Bytes, f1: Bytes, f2: Bytes, f3: Bytes, f4: Bytes, f5: Bytes)
    requires front == f0 + f1 + f2 + f3 + f4 + f5
    requires |f0| == 4 && |f1| == 4 && |f2| == 4 && |f3| == 2 && |f4| == 2 && |f5| == 4
    ensures front[0..4] == f0 && front[4..8] == f1 && front[8..12] == f2
    ensures front[12..14] == f3 && front[14..16] == f4 && front[16..20] == f5
  {
  }

  lemma ColorMasksRoundTrip(m: ColorMasks, rest: Bytes)
    requires PackColorMasks(m).Success?
    ensures ParseColorMasks(PackColorMasks(m).value + rest) == Some(m)
  {
    var red, green, blue := PackU32LE(m.red).value, PackU32LE(m.green).value, PackU32LE(m.blue).value;
    assert PackColorMasks(m).value == red + green + blue;
    ColorMasksFields(red, green, blue, rest);
  }

  /** The reader takes the three masks from their fixed offsets. */
  lemma ColorMasksFields(red: Bytes, green: Bytes, blue: Bytes, rest: Bytes)
    requires |red| == 4 && |green| == 4 && |blue| == 4
    ensures ParseColorMasks(red + green + blue + rest) ==
      Some(ColorMasks(UnpackU32LE(red), UnpackU32LE(green), UnpackU32LE(blue)))
  {
    var b := red + green + blue + rest;
    assert b[0..4] == red && b[4..8] == green && b[8..12] == blue;
  }

  // Placement of the pixel values

  /** Pixel i of the sequence occupies bytes 2i (high byte) and 2i + 1 (low byte). */
  lemma {:induction false} PixelDataAt(pixels: seq<Rgb>, i: nat)
    requires i < |pixels|
    ensures PixelData(pixels)[2 * i] == Pack565(pixels[i]) / 0x100
    ensures PixelData(pixels)[2 * i + 1] == Pack565(pixels[i]) % 0x100
  {
    var n := |pixels|;
    var front, last := PixelData(pixels[..n - 1]), PackU16BE(Pack565(pixels[n - 1])).value;
    assert PixelData(pixels) == front + last;
    if i < n - 1 {
      PixelDataAt(pixels[..n - 1], i);
      assert pixels[..n - 1][i] == pixels[i];
    }
  }

  /** In row-major order, cell (x, y) of a raster of the given width is at index y * width + x. */
  lemma {:induction false} RowMajorAt<T>(rows: seq<seq<T>>, width: nat, y: nat, x: nat)
    requires forall j :: 0 <= j < |rows| ==> |rows[j]| == width
    requires y < |rows| && x < width
    ensures y * width + x < |RowMajor(rows)|
    ensures RowMajor(rows)[y * width + x] == rows[y][x]
  {
    var n := |rows|;
    RowMajorLength(rows, width);
    RowMajorLength(rows[..n - 1], width);
    CellIndex(width, y, x, n);
    if y < n - 1 {
      RowMajorAt(rows[..n - 1], width, y, x);
      assert rows[..n - 1][y] == rows[y];
    }
  }

  /** Index arithmetic of a raster with n rows: row y < n - 1 ends before row n - 1 starts. */
  lemma CellIndex(width: nat, y: nat, x: nat, n: nat)
    requires x < width && y < n
    ensures 0 <= y * width
    ensures y * width + x < width * n
    ensures y < n - 1 ==> y * width + x < width * (n - 1)
    ensures y == n - 1 ==> y * width + x == width * (n - 1) + x
  {
    MulSign(width, y);
    assert (y + 1) * width <= n * width by { MulSign(width, n - y); }
    if y < n - 1 {
      assert (y + 1) * width <= (n - 1) * width by { MulSign(width, n - 1 - y); }
    }
  }

  /** Reading pixel (x, y) big-endian from the pixel data gives its packed RGB565 value. */
  lemma PixelValueAt(img: Image, y: nat, x: nat)
    requires WellFormed(img) && y < img.height && x < img.width
    ensures 2 * (y * img.width + x) + 2 <= |PixelData(RowMajor(img.pixels))|
    ensures PixelValue(PixelData(RowMajor(img.pixels)), img.width, x, y) == Pack565(img.pixels[y][x])
  {
    var data, i, v := PixelData(RowMajor(img.pixels)), 2 * (y * img.width + x), Pack565(img.pixels[y][x]);
    RasterAt(img, y, x);
    assert PixelValue(data, img.width, x, y) == v by {
      ReadBe16(data, i, v);
    }
  }

  /** Pixel (x, y) of the image occupies bytes 2 * (y * width + x) (high byte) and the one after it (low byte). */
  lemma RasterAt(img: Image, y: nat, x: nat)
    requires WellFormed(img) && y < img.height && x < img.width
    ensures 0 <= y * img.width
    ensures 2 * (y * img.width + x) + 2 <= |PixelData(RowMajor(img.pixels))|
    ensures PixelData(RowMajor(img.pixels))[2 * (y * img.width + x)] == Pack565(img.pixels[y][x]) / 0x100
    ensures PixelData(RowMajor(img.pixels))[2 * (y * img.width + x) + 1] == Pack565(img.pixels[y][x]) % 0x100
  {
    RowMajorAt(img.pixels, img.width, y, x);
    CellIndex(img.width, y, x, img.height);
    PixelDataAt(RowMajor(img.pixels), y * img.width + x);
  }

  // The encoded buffer

  /** The encoder's output is the three header blocks followed by the pixel data. */
  lemma EncodedValue(img: Image)
    requires WellFormed(img) && Encodable(img.width, img.height)
    ensures HeadersFitFor(img.width, img.height)
    ensures EncodeBmp(img).Success?
    ensures EncodeBmp(img).value ==
      PackFileHeader(FileHeaderFor(img.width, img.height)).value +
      PackInfoHeader(InfoHeaderFor(img.width, img.height)).value +
      PackColorMasks(Rgb565Masks).value + PixelData(RowMajor(img.pixels))
  {
    HeadersFit(img.width, img.height);
  }

  /** All three header blocks of a w x h image pack without error. */
  predicate HeadersFitFor(width: nat, height: nat) {
    && PackFileHeader(FileHeaderFor(width, height)).Success?
    && PackInfoHeader(InfoHeaderFor(width, height)).Success?
    && PackColorMasks(Rgb565Masks).Success?
  }

  /** The encoder's output split into its header blocks and the pixel data. */
  lemma EncodedParts(img: Image)
    requires WellFormed(img) && Encodable(img.width, img.height)
    ensures HeadersFitFor(img.width, img.height)
    ensures EncodeBmp(img).Success?
    ensures var b := EncodeBmp(img).value;
      && b[..FileHeaderSize] == PackFileHeader(FileHeaderFor(img.width, img.height)).value
      && b[FileHeaderSize..] == PackInfoHeader(InfoHeaderFor(img.width, img.height)).value + b[HeadersSize - MasksSize..]
      && b[HeadersSize - MasksSize..] == PackColorMasks(Rgb565Masks).value + b[HeadersSize..]
      && b[HeadersSize..] == PixelData(RowMajor(img.pixels))
  {
    EncodedValue(img);
    Split4(EncodeBmp(img).value, PackFileHeader(FileHeaderFor(img.width, img.height)).value,
           PackInfoHeader(InfoHeaderFor(img.width, img.height)).value,
           PackColorMasks(Rgb565Masks).value, PixelData(RowMajor(img.pixels)));
  }

  /** A buffer made of the three header blocks and the pixel data, cut at the block boundaries. */
  lemma Split4(b: Bytes, fh: Bytes, ih: Bytes, m: Bytes, px: Bytes)
    requires b == fh + ih + m + px
    requires |fh| == FileHeaderSize && |ih| == InfoHeaderSize && |m| == MasksSize
    ensures b[..FileHeaderSize] == fh
    ensures b[FileHeaderSize..] == ih + b[HeadersSize - MasksSize..]
    ensures b[HeadersSize - MasksSize..] == m + b[HeadersSize..]
    ensures b[HeadersSize..] == px
  {
    assert b == fh + (ih + (m + px));
  }

  /** Each header block of the encoder's output parses, from its own offset, as the values the encoder wrote. */
  lemma EncodedHeaders(img: Image)
    requires WellFormed(img) && Encodable(img.width, img.height)
    ensures EncodeBmp(img).Success?
    ensures var b := EncodeBmp(img).value;
      && |b| == HeadersSize + img.width * img.height * 2
      && ParseFileHeader(b) == Some(FileHeaderFor(img.width, img.height))
      && ParseInfoHeader(b[FileHeaderSize..]) == Some(InfoHeaderFor(img.width, img.height))
      && ParseColorMasks(b[HeadersSize - MasksSize..]) == Some(Rgb565Masks)
      && b[HeadersSize..] == PixelData(RowMajor(img.pixels))
  {
    EncodedParts(img);
    var b := EncodeBmp(img).value;
    FileHeaderRoundTrip(FileHeaderFor(img.width, img.height), b[FileHeaderSize..]);
    InfoHeaderRoundTrip(InfoHeaderFor(img.width, img.height), b[HeadersSize - MasksSize..]);
    ColorMasksRoundTrip(Rgb565Masks, b[HeadersSize..]);
    assert b == b[..FileHeaderSize] + b[FileHeaderSize..];
  }

  /** The header blocks of the encoder's output read back as the values they were packed from. */
  lemma DecodedHeaders(img: Image)
    requires WellFormed(img) && Encodable(img.width, img.height)
    ensures EncodeBmp(img).Success?
    ensures DecodeBmp(EncodeBmp(img).value).Some?
    ensures var bm := DecodeBmp(EncodeBmp(img).value).value;
      && bm.fileHeader == FileHeaderFor(img.width, img.height)
      && bm.infoHeader == InfoHeaderFor(img.width, img.height)
      && bm.masks == Rgb565Masks
      && bm.pixelData == PixelData(RowMajor(img.pixels))
  {
    EncodedHeaders(img);
  }

  /**
    Reading the encoder's output back: the file header gives the buffer's own
    length and the offset where the pixel data starts, the info header gives the
    geometry (height negated: top-down), 16 bits per pixel, BI_BITFIELDS and the
    pixel data's length, and the masks are the RGB565 ones.
  */
  lemma DecodeEncoded(img: Image)
    requires WellFormed(img) && Encodable(img.width, img.height)
    ensures EncodeBmp(img).Success?
    ensures DecodeBmp(EncodeBmp(img).value).Some?
    ensures var b := EncodeBmp(img).value;
      var bm := DecodeBmp(b).value;
      && bm.fileHeader == FileHeader(|b|, 0, 0, HeadersSize)
      && |bm.pixelData| == |b| - HeadersSize == img.width * img.height * 2
      && bm.infoHeader == InfoHeader(InfoHeaderSize, img.width, -(img.height as int), 1, 16,
                                     BiBitfields, |bm.pixelData|, PixelsPerMeter, PixelsPerMeter, 0, 0)
      && bm.masks == ColorMasks(0xF800, 0x07E0, 0x001F)
  {
    DecodedHeaders(img);
  }

  /**
    Pixel (x, y) of the decoded pixel data, read big-endian at 2 * (y * width + x),
    is the pixel's packed RGB565 value, and the declared masks recover its
    quantised channels from it.
  */
  lemma PixelReadBack(img: Image, y: nat, x: nat)
    requires WellFormed(img) && Encodable(img.width, img.height)
    requires y < img.height && x < img.width
    ensures EncodeBmp(img).Success? && DecodeBmp(EncodeBmp(img).value).Some?
    ensures var data := DecodeBmp(EncodeBmp(img).value).value.pixelData;
      && 2 * (y * img.width + x) + 2 <= |data|
      && PixelValue(data, img.width, x, y) == Pack565(img.pixels[y][x])
      && Unpack565(PixelValue(data, img.width, x, y)) == Quantise(img.pixels[y][x])
  {
    DecodedHeaders(img);
    PixelValueAt(img, y, x);
    MasksRecoverLevels(img.pixels[y][x]);
  }

  // The encoded buffer, byte by byte

  /** The file header: "BM", the buffer's own length, two zero reserved words and the pixel data offset 66. */
  lemma FileHeaderBytes(img: Image)
    requires WellFormed(img) && Encodable(img.width, img.height)
    ensures EncodeBmp(img).Success?
    ensures var b := EncodeBmp(img).value;
      && |b| == 66 + 2 * img.width * img.height
      && b[0] == 0x42 && b[1] == 0x4D
      && UnpackU32LE(b[2..6]) == |b|
      && b[6] == 0 && b[7] == 0 && b[8] == 0 && b[9] == 0
      && UnpackU32LE(b[10..14]) == 66
  {
    EncodedHeaders(img);
    FileHeaderLayout(EncodeBmp(img).value, img.width, img.height);
  }

  lemma FileHeaderLayout(b: Bytes, width: nat, height: nat)
    requires |b| == HeadersSize + width * height * 2
    requires ParseFileHeader(b) == Some(FileHeaderFor(width, height))
    ensures |b| == 66 + 2 * width * height
    ensures b[0] == 0x42 && b[1] == 0x4D && UnpackU32LE(b[2..6]) == |b|
    ensures b[6] == 0 && b[7] == 0 && b[8] == 0 && b[9] == 0
    ensures UnpackU32LE(b[10..14]) == 66
  {
    assert b[..2] == Signature;
    assert UnpackU16LE(b[6..8]) == 0 && UnpackU16LE(b[8..10]) == 0;
  }

  /**
    The geometry fields are signed: the width is stored as itself, with a clear
    sign bit, and the height negated, which for a non-empty raster is the
    unsigned value 2^32 - height with the sign bit set: rows run top-down.
  */
  lemma GeometryBytes(img: Image)
    requires WellFormed(img) && Encodable(img.width, img.height)
    ensures EncodeBmp(img).Success?
    ensures var b := EncodeBmp(img).value;
      && UnpackI32LE(b[18..22]) == img.width && b[21] < 0x80
      && UnpackI32LE(b[22..26]) == -(img.height as int)
      && UnpackU32LE(b[22..26]) == (if img.height == 0 then 0 else TwoTo32 - img.height)
      && (b[25] >= 0x80 <==> img.height > 0)
  {
    EncodedHeaders(img);
    GeometryLayout(EncodeBmp(img).value, img.width, img.height);
  }

  lemma GeometryLayout(b: Bytes, width: nat, height: nat)
    requires |b| >= HeadersSize
    requires ParseInfoHeader(b[FileHeaderSize..]) == Some(InfoHeaderFor(width, height))
    ensures UnpackI32LE(b[18..22]) == width && b[21] < 0x80
    ensures UnpackI32LE(b[22..26]) == -(height as int)
    ensures UnpackU32LE(b[22..26]) == if height == 0 then 0 else TwoTo32 - height
    ensures b[25] >= 0x80 <==> height > 0
  {
    var t := b[FileHeaderSize..];
    assert UnpackI32LE(t[4..8]) == width && UnpackI32LE(t[8..12]) == -(height as int);
    assert t[4..8] == b[18..22] && t[8..12] == b[22..26];
  }

  /**
    Pixel (x, y) is stored at offset 66 + 2 * (y * width + x) of the file as
    `pixel >> 8` followed by `pixel & 0xFF`: top-down, row-major, big-endian,
    with no padding at the end of a row.
  */
  lemma EncodedPixelBytes(img: Image, y: nat, x: nat)
    requires WellFormed(img) && Encodable(img.width, img.height)
    requires y < img.height && x < img.width
    ensures EncodeBmp(img).Success?
    ensures 0 <= y * img.width
    ensures var b := EncodeBmp(img).value;
      var i := HeadersSize + 2 * (y * img.width + x);
      && i + 1 < |b|
      && b[i] == Shr(Pack565(img.pixels[y][x]), 8)
      && b[i + 1] == And(Pack565(img.pixels[y][x]), 0xFF)
  {
    EncodedParts(img);
    RasterAt(img, y, x);
    ByteHalves(Pack565(img.pixels[y][x]));
  }

  /** A solid red pixel is stored as the bytes 0xF8, 0x00 and a white one as 0xFF, 0xFF. */
  lemma SolidColourBytes(img: Image, y: nat, x: nat)
    requires WellFormed(img) && Encodable(img.width, img.height)
    requires y < img.height && x < img.width
    ensures EncodeBmp(img).Success?
    ensures 0 <= y * img.width
    ensures var b := EncodeBmp(img).value;
      var i := HeadersSize + 2 * (y * img.width + x);
      && i + 1 < |b|
      && (img.pixels[y][x] == Rgb(255, 0, 0) ==> b[i] == 0xF8 && b[i + 1] == 0x00)
      && (img.pixels[y][x] == Rgb(255, 255, 255) ==> b[i] == 0xFF && b[i + 1] == 0xFF)
  {
    EncodedPixelBytes(img, y, x);
    ByteHalves(Pack565(img.pixels[y][x]));
    PackedColours();
  }

  /** The encoder's own 170 x 320 frame is a 108,866-byte file that says so in its header. */
  lemma DisplayFrame(img: Image)
    requires WellFormed(img) && img.width == 170 && img.height == 320
    ensures EncodeBmp(img).Success?
    ensures |EncodeBmp(img).value| == 108866
    ensures UnpackU32LE(EncodeBmp(img).value[2..6]) == 108866
  {
    FileHeaderBytes(img);
  }

  /**
    The `struct.error` for dimensions the headers cannot hold is the first field
    packed out of range: the file size as `<I`, else the width as `<i`, else the
    negated height as `<i`.
  */
  lemma EncodeFailure(img: Image)
    requires WellFormed(img) && !Encodable(img.width, img.height)
    ensures EncodeBmp(img).Failure?
    ensures EncodeBmp(img).error ==
      if HeadersSize + img.width * img.height * 2 >= TwoTo32 then
        OutOfRange("<I", HeadersSize + img.width * img.height * 2)
      else if img.width >= TwoTo31 then OutOfRange("<i", img.width)
      else OutOfRange("<i", -(img.height as int))
  {
    var w, h := img.width, img.height;
    var size := HeadersSize + w * h * 2;
    if size >= TwoTo32 {
      assert PackFileHeader(FileHeaderFor(w, h)) == Failure(OutOfRange("<I", size));
    } else {
      assert PackFileHeader(FileHeaderFor(w, h)).Success?;
      assert PackU32LE(InfoHeaderSize).Success?;
      if w >= TwoTo31 {
        assert PackInfoHeader(InfoHeaderFor(w, h)) == Failure(OutOfRange("<i", w));
      } else {
        assert PackInfoHeader(InfoHeaderFor(w, h)) == Failure(OutOfRange("<i", -(h as int)));
      }
    }
  }
}
