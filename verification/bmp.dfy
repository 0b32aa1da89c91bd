/**
  The BMP buffer built by `convert_png_to_bmp_rgb565` (png-bmp.py:24-66): a
  14-byte BITMAPFILEHEADER, a 40-byte BITMAPINFOHEADER with compression
  BI_BITFIELDS, three 32-bit channel masks, then one RGB565 value per pixel.
  Every header field is little-endian; the pixel values are big-endian, and the
  rows are stored top-down (negative height) without the usual padding of each
  row to a multiple of four bytes.

  Alongside the encoder sits a reader for the same layout, the partner the
  round-trip properties are stated against.
*/
module Bmp {
  import opened Results
  import opened StructPack
  import opened Rgb565
  import Bits

  /** A normalised RGB raster, `pixels[y][x]`, row 0 at the top. */
  datatype Image = Image(width: nat, height: nat, pixels: seq<seq<Rgb>>)

  /** The pixel grid has `height` rows of `width` pixels each. */
  predicate WellFormed(img: Image) {
    && |img.pixels| == img.height
    && forall y :: 0 <= y < |img.pixels| ==> |img.pixels[y]| == img.width
  }

  /** BITMAPFILEHEADER after the "BM" signature. */
  datatype FileHeader = FileHeader(fileSize: int, reserved1: int, reserved2: int, dataOffset: int)

  /** BITMAPINFOHEADER. */
  datatype InfoHeader = InfoHeader(
    headerSize: int, width: int, height: int, planes: int, bitCount: int,
    compression: int, imageSize: int, xPelsPerMeter: int, yPelsPerMeter: int,
    colorsUsed: int, colorsImportant: int)

  /** The BI_BITFIELDS channel masks. */
  datatype ColorMasks = ColorMasks(red: int, green: int, blue: int)

  const Signature: Bytes := [0x42, 0x4D]  // "BM"
  const FileHeaderSize: nat := 14
  const InfoHeaderSize: nat := 40
  const MasksSize: nat := 12
  /** Offset of the pixel data: the three header blocks, written as 54 + 12 in the encoder. */
  const HeadersSize: nat := FileHeaderSize + InfoHeaderSize + MasksSize
  const BiBitfields: int := 3
  const PixelsPerMeter: int := 2835

  // Serialisation of the three header blocks, field by field in the encoder's order

  function PackFileHeader(h: FileHeader): (r: Result<Bytes, PackError>)
    ensures r.Success? <==>
      0 <= h.fileSize < TwoTo32 && 0 <= h.reserved1 < TwoTo16 &&
      0 <= h.reserved2 < TwoTo16 && 0 <= h.dataOffset < TwoTo32
    ensures r.Success? ==> |r.value| == FileHeaderSize
  {
    var size :- PackU32LE(h.fileSize);
    var reserved1 :- PackU16LE(h.reserved1);
    var reserved2 :- PackU16LE(h.reserved2);
    var offset :- PackU32LE(h.dataOffset);
    Success(Signature + size + reserved1 + reserved2 + offset)
  }

  function PackInfoHeader(h: InfoHeader): (r: Result<Bytes, PackError>)
    ensures r.Success? <==>
      0 <= h.headerSize < TwoTo32 && -TwoTo31 <= h.width < TwoTo31 &&
      -TwoTo31 <= h.height < TwoTo31 && 0 <= h.planes < TwoTo16 &&
      0 <= h.bitCount < TwoTo16 && 0 <= h.compression < TwoTo32 &&
      0 <= h.imageSize < TwoTo32 && -TwoTo31 <= h.xPelsPerMeter < TwoTo31 &&
      -TwoTo31 <= h.yPelsPerMeter < TwoTo31 && 0 <= h.colorsUsed < TwoTo32 &&
      0 <= h.colorsImportant < TwoTo32
    ensures r.Success? ==> |r.value| == InfoHeaderSize
  {
    var headerSize :- PackU32LE(h.headerSize);
    var width :- PackI32LE(h.width);
    var height :- PackI32LE(h.height);
    var planes :- PackU16LE(h.planes);
    var bitCount :- PackU16LE(h.bitCount);
    var compression :- PackU32LE(h.compression);
    var imageSize :- PackU32LE(h.imageSize);
    var xPels :- PackI32LE(h.xPelsPerMeter);
    var yPels :- PackI32LE(h.yPelsPerMeter);
    var colorsUsed :- PackU32LE(h.colorsUsed);
    var colorsImportant :- PackU32LE(h.colorsImportant);
    Success(headerSize + width + height + planes + bitCount + compression +
            imageSize + xPels + yPels + colorsUsed + colorsImportant)
  }

  function PackColorMasks(m: ColorMasks): (r: Result<Bytes, PackError>)
    ensures r.Success? <==>
      0 <= m.red < TwoTo32 && 0 <= m.green < TwoTo32 && 0 <= m.blue < TwoTo32
    ensures r.Success? ==> |r.value| == MasksSize
  {
    var red :- PackU32LE(m.red);
    var green :- PackU32LE(m.green);
    var blue :- PackU32LE(m.blue);
    Success(red + green + blue)
  }

  // Pixel data

  /** The pixels in the order the encoder visits them: rows top to bottom, each left to right. */
  function RowMajor<T>(rows: seq<seq<T>>): (r: seq<T>)
    ensures forall y, x :: 0 <= y < |rows| && 0 <= x < |rows[y]| ==> rows[y][x] in r
    ensures forall e :: e in r ==> exists y :: 0 <= y < |rows| && e in rows[y]
  {
    if rows == [] then [] else RowMajor(rows[..|rows| - 1]) + rows[|rows| - 1]
  }

  /** Each pixel as its big-endian RGB565 value, in order, with nothing in between. */
  function PixelData(pixels: seq<Rgb>): (r: Bytes)
    ensures |r| == 2 * |pixels|
  {
    if pixels == [] then []
    else PixelData(pixels[..|pixels| - 1]) + PackU16BE(Pack565(pixels[|pixels| - 1])).value
  }

  /** A raster of n rows of w cells has n * w cells in row-major order. */
  lemma {:induction false} RowMajorLength<T>(rows: seq<seq<T>>, width: nat)
    requires forall y :: 0 <= y < |rows| ==> |rows[y]| == width
    ensures |RowMajor(rows)| == width * |rows|
  {
    if rows != [] {
      var n := |rows|;
      RowMajorLength(rows[..n - 1], width);
      assert width * (n - 1) + width == width * n;
    }
  }

  // The encoder

  /**
    The header blocks fit their `struct` formats: the encoder raises nothing.
    For a raster with cells only the file size can overflow; for an empty one
    only the dimensions themselves.
  */
  predicate Encodable(width: nat, height: nat): (ok: bool)
    ensures ok ==> width * height < TwoTo31
    ensures width > 0 && height > 0 ==> (ok <==> HeadersSize + width * height * 2 < TwoTo32)
    ensures width == 0 || height == 0 ==> (ok <==> width < TwoTo31 && height <= TwoTo31)
  {
    var fits :=
      && HeadersSize + width * height * 2 < TwoTo32
      && width < TwoTo31
      && height <= TwoTo31;
    if width > 0 && height > 0 then
      Bits.MulSign(width, height); Bits.MulSign(height, width); fits
    else fits
  }

  /**
    The file header of a width x height image: pixel data starts right after the
    three header blocks and runs to the end of the file, two bytes per cell.
  */
  function FileHeaderFor(width: nat, height: nat): (h: FileHeader)
    ensures h.dataOffset == FileHeaderSize + InfoHeaderSize + MasksSize
    ensures h.fileSize - h.dataOffset == 2 * (width * height)
    ensures h.reserved1 == 0 && h.reserved2 == 0
  {
    FileHeader(HeadersSize + width * height * 2, 0, 0, 54 + 12)
  }

  /**
    The info header of a width x height image: a negative height marks the rows
    as stored top-down, 16 bits per pixel with the layout given by bit masks, and
    the image size is the pixel data's length.
  */
  function InfoHeaderFor(width: nat, height: nat): (h: InfoHeader)
    ensures h.headerSize == InfoHeaderSize && h.planes == 1
    ensures h.width == width && h.height <= 0 && -h.height == height
    ensures h.bitCount == 16 && h.compression == BiBitfields
    ensures h.imageSize == h.width * -h.height * (h.bitCount / 8)
    ensures h.xPelsPerMeter == h.yPelsPerMeter
    ensures h.colorsUsed == 0 && h.colorsImportant == 0
  {
    InfoHeader(InfoHeaderSize, width, -(height as int), 1, 16, BiBitfields, width * height * 2,
               PixelsPerMeter, PixelsPerMeter, 0, 0)
  }

  const Rgb565Masks: ColorMasks := ColorMasks(RedMask, GreenMask, BlueMask)

  /**
    The buffer `convert_png_to_bmp_rgb565` writes for a normalised image, or the
    `struct.error` it raises when a header field does not fit its format.
  */
  function EncodeBmp(img: Image): (r: Result<Bytes, PackError>)
    requires WellFormed(img)
    ensures r.Success? <==> Encodable(img.width, img.height)
    ensures r.Success? ==> |r.value| == HeadersSize + img.width * img.height * 2
  {
    HeadersFit(img.width, img.height);
    RowMajorLength(img.pixels, img.width);
    var fileHeader :- PackFileHeader(FileHeaderFor(img.width, img.height));
    var infoHeader :- PackInfoHeader(InfoHeaderFor(img.width, img.height));
    var masks := PackColorMasks(Rgb565Masks).value;
    Success(fileHeader + infoHeader + masks + PixelData(RowMajor(img.pixels)))
  }

  /** The headers pack without error exactly when the dimensions are encodable. */
  lemma HeadersFit(width: nat, height: nat)
    ensures Encodable(width, height) <==>
      PackFileHeader(FileHeaderFor(width, height)).Success? &&
      PackInfoHeader(InfoHeaderFor(width, height)).Success?
    ensures PackColorMasks(Rgb565Masks).Success?
  {
    Bits.MulNonneg(width, height);
    var size := width * height * 2;
    assert PackFileHeader(FileHeaderFor(width, height)).Success? <==> HeadersSize + size < TwoTo32;
    assert PackInfoHeader(InfoHeaderFor(width, height)).Success? <==>
      size < TwoTo32 && width < TwoTo31 && height <= TwoTo31;
  }

  // The reader

  function ParseFileHeader(b: Bytes): (r: Option<FileHeader>)
    ensures r.Some? ==> |b| >= FileHeaderSize && b[..2] == Signature
  {
    if |b| < FileHeaderSize || b[..2] != Signature then None
    else Some(FileHeader(UnpackU32LE(b[2..6]), UnpackU16LE(b[6..8]),
                         UnpackU16LE(b[8..10]), UnpackU32LE(b[10..14])))
  }

  function ParseInfoHeader(b: Bytes): (r: Option<InfoHeader>)
    ensures r.Some? <==> |b| >= InfoHeaderSize
  {
    if |b| < InfoHeaderSize then None
    else Some(InfoHeader(
      UnpackU32LE(b[0..4]), UnpackI32LE(b[4..8]), UnpackI32LE(b[8..12]),
      UnpackU16LE(b[12..14]), UnpackU16LE(b[14..16]), UnpackU32LE(b[16..20]),
      UnpackU32LE(b[20..24]), UnpackI32LE(b[24..28]), UnpackI32LE(b[28..32]),
      UnpackU32LE(b[32..36]), UnpackU32LE(b[36..40])))
  }

  function ParseColorMasks(b: Bytes): (r: Option<ColorMasks>)
    ensures r.Some? <==> |b| >= MasksSize
  {
    if |b| < MasksSize then None
    else Some(ColorMasks(UnpackU32LE(b[0..4]), UnpackU32LE(b[4..8]), UnpackU32LE(b[8..12])))
  }

  /** A BMP file split into its header blocks and the bytes after them. */
  datatype Bitmap = Bitmap(fileHeader: FileHeader, infoHeader: InfoHeader, masks: ColorMasks, pixelData: Bytes)

  function DecodeBmp(b: Bytes): (r: Option<Bitmap>)
    ensures r.Some? <==> |b| >= HeadersSize && b[..2] == Signature
    ensures r.Some? ==> r.value.pixelData == b[HeadersSize..]
  {
    var fileHeader :- ParseFileHeader(b);
    var infoHeader :- ParseInfoHeader(b[FileHeaderSize..]);
    var masks :- ParseColorMasks(b[FileHeaderSize + InfoHeaderSize..]);
    Some(Bitmap(fileHeader, infoHeader, masks, b[HeadersSize..]))
  }

  /** The 16-bit value stored big-endian for pixel (x, y) of a top-down, unpadded raster. */
  function PixelValue(data: Bytes, width: nat, x: nat, y: nat): nat
    requires x < width && 2 * (y * width + x) + 2 <= |data|
  {
    UnpackU16BE(data[2 * (y * width + x)..2 * (y * width + x) + 2])
  }
}
