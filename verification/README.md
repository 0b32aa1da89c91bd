# RGB565 BMP encoder, modelled in Dafny

`png-bmp.py` converts PNG images into a BMP variant that a small 170 x 320
portrait display reads directly. Its core is the encoding half of
`convert_png_to_bmp_rgb565` (png-bmp.py:24-66):

- a 14-byte BITMAPFILEHEADER: "BM", the file size, two zero reserved words, and the pixel data offset 54 + 12;
- a 40-byte BITMAPINFOHEADER: width, negated height (top-down rows), 1 plane, 16 bits per pixel,
  compression 3 (BI_BITFIELDS), the pixel data size, 2835 pixels per metre both ways, and no palette;
- three 32-bit channel masks, 0xF800, 0x07E0 and 0x001F;
- each pixel, row by row from the top and left to right, as a big-endian 16-bit RGB565 value.
  Each channel is scaled with `c * 31 // 255` or `c * 63 // 255` and masked, then the
  fields are combined with `(r << 11) | (g << 5) | b`. Rows are not padded.

The model follows the code's own operations:

- `Bits` defines Python's `&`, `|`, `<<` and `>>` on non-negative integers, bit by bit.
- `StructPack` models the four `struct.pack` formats the encoder uses (`<H`, `<I`, `<i`, `>H`),
  including the `struct.error` a value out of range raises. Each format comes with the
  reader that undoes it.
- `Rgb565` models per-pixel quantisation and packing, and what the declared masks
  extract from a packed value.
- `Bmp` holds the encoder `EncodeBmp` (a `Result`: the buffer, or the first `struct.error`),
  and a reader `DecodeBmp` for the same layout. The reader is the partner that the
  round-trip properties are stated against.
- `BmpProperties` holds the properties of the encoded buffer:
  - every header block reads back as what was written;
  - the size and offset fields describe the buffer itself;
  - the height field marks the rows top-down;
  - pixel (x, y) sits big-endian at offset 66 + 2 * (y * width + x);
  - the masks recover the quantised channels of every pixel.

A pixel is `pixels[y][x]` in the model; the code reads it as `pixels[x, y]` from
PIL's pixel access object.

The code performs no dimension check. A zero width or height, with the other
dimension in range, encodes as a 66-byte file with an empty pixel section.
The only failures the model has are the ones the code can raise, namely
`struct.pack` range errors on the header fields.
`EncodeBmp` succeeds exactly when 66 + 2 * width * height < 2^32, width < 2^31
and height <= 2^31.

## Model

| member | source | states |
|---|---|---|
| `Bits.Shl` | png-bmp.py:65 | Python's `<<` on the levels: shifting never makes a value smaller, and gives 0 only for 0 |
| `Bits.Shr` | png-bmp.py:52-54 | Python's `>>`, which the encoder never applies: a reader of the declared masks uses it to bring a masked field down; the result never exceeds its operand |
| `Bits.And` | png-bmp.py:62-64 | Python's `&`, the masking of each level: the result is at most either operand |
| `Bits.Or` | png-bmp.py:65 | Python's `\|`, the combining of the three fields: the result is at least either operand and at most their sum |
| `Bits.ShlMul` | png-bmp.py:65 | `a << n` is `a * 2^n` |
| `Bits.ShrDiv` | png-bmp.py:52-54 | the reader's `a >> n`, used to extract a masked field, is `a // 2^n` |
| `Bits.AndLowMask` | png-bmp.py:62-64 | masking with `2^n - 1` is reduction modulo `2^n` |
| `Bits.OrShifted` | png-bmp.py:65 | or-ing `a << k` with a value below `2^k` is addition: the bits do not overlap |
| `Bits.AndShifted` | png-bmp.py:52-54 | and-ing with a mask shifted left by k is and-ing `a >> k` with the mask, shifted back |
| `Bits.ShrShl` | png-bmp.py:52-54 | the reader's `>>` undoes the encoder's `<<`: `(a << k) >> k == a` |
| `Bits.ByteHalves` | png-bmp.py:66 | `v >> 8` and `v & 0xFF`, the byte split `>H` performs, are `v // 256` and `v % 256`, the two bytes `>H` writes |
| `StructPack.PackU16LE` | png-bmp.py:34-35 | `<H` succeeds iff 0 <= v < 2^16; its two bytes read back little-endian as v; otherwise the error names `<H` and v |
| `StructPack.PackU32LE` | png-bmp.py:33 | `<I` succeeds iff 0 <= v < 2^32; its four bytes read back as v; otherwise the error names `<I` and v |
| `StructPack.PackI32LE` | png-bmp.py:40-41 | `<i` succeeds iff -2^31 <= v < 2^31; it reads back as v signed, and as v + 2^32 unsigned when v is negative |
| `StructPack.PackU16BE` | png-bmp.py:66 | `>H` succeeds iff 0 <= v < 2^16; the high byte `v // 256` comes first and the low byte `v % 256` second |
| `StructPack.UnpackI32LE` | png-bmp.py:40-41 | the reader of the `<i` fields packed for the width and -height: a signed 32-bit field is negative exactly when its top byte has bit 7 set |
| `StructPack.Le32Unpack` | png-bmp.py:33 | the little-endian 32-bit layout reads back as its value |
| `StructPack.ReadBe16` | png-bmp.py:66 | two bytes holding `v // 256` then `v % 256` read back big-endian as v |
| `StructPack.U16LERoundTrip` | png-bmp.py:34-35 | every 2-byte string is the `<H` packing of the value it reads as |
| `StructPack.U32LERoundTrip` | png-bmp.py:33 | every 4-byte string is the `<I` packing of the value it reads as |
| `StructPack.I32LERoundTrip` | png-bmp.py:40-41 | every 4-byte string is the `<i` packing of the signed value it reads as |
| `StructPack.U16BERoundTrip` | png-bmp.py:66 | every 2-byte string is the `>H` packing of the value it reads as |
| `Rgb565.Quant5` | png-bmp.py:62 | the red/blue level is at most 31, the mask `& 0x1F` changes nothing, and it is the largest q with 255q <= 31c |
| `Rgb565.Quant6` | png-bmp.py:63 | the green level is at most 63, the mask `& 0x3F` changes nothing, and it is the largest q with 255q <= 63c |
| `Rgb565.Quantise` | png-bmp.py:62-64 | each of the three levels of a pixel fits its field (at most 31, 63 and 31) and is the channel scaled to that range, rounded down |
| `Rgb565.LowMaskKeeps` | png-bmp.py:62-64 | a level already below `2^n` is unchanged by the mask |
| `Rgb565.FieldsDisjoint` | png-bmp.py:65 | `(r << 11) \| (g << 5) \| b` on in-range levels is `r*2048 + g*32 + b` |
| `Rgb565.Pack565` | png-bmp.py:65 | the packed pixel is below 2^16 and holds the three quantised levels in base 32/64/32 |
| `Rgb565.Unpack565` | png-bmp.py:52-54 | what the declared masks extract from a 16-bit value: fields below 32, 64 and 32 that rebuild the value |
| `Rgb565.MaskedFields` | png-bmp.py:52-54 | `(v & 0xF800) >> 11`, `(v & 0x07E0) >> 5` and `v & 0x1F` are the base-32/64/32 digits of v |
| `Rgb565.MasksRecoverLevels` | png-bmp.py:61-65 | the declared masks recover exactly the quantised levels of every packed pixel |
| `Rgb565.LevelEndpoints` | png-bmp.py:62-64 | 0 quantises to 0, and 255 to 31 (five bits) and to 63 (six bits) |
| `Rgb565.QuantMonotone` | png-bmp.py:62-64 | a brighter channel never gets a lower level |
| `Rgb565.ReconstructionError` | png-bmp.py:62-64 | scaling a level back with `round(v * 255 / max)` lands within one step below the channel: at most 8 for 5 bits and 4 for 6 bits |
| `Rgb565.PackedColours` | png-bmp.py:62-65 | solid red packs to 0xF800 and white to 0xFFFF |
| `Bmp.PackFileHeader` | png-bmp.py:31-36 | the file header packs iff every field fits its format, into 14 bytes |
| `Bmp.PackInfoHeader` | png-bmp.py:39-49 | the info header packs iff every field fits its format, into 40 bytes |
| `Bmp.PackColorMasks` | png-bmp.py:52-54 | the masks pack iff each fits `<I`, into 12 bytes |
| `Bmp.FileHeaderFor` | png-bmp.py:27-36 | the file header's values: the pixel data starts right after the 14 + 40 + 12 header bytes and the file size exceeds that offset by two bytes per pixel; both reserved words are zero |
| `Bmp.InfoHeaderFor` | png-bmp.py:27-49 | the info header's values: a 40-byte header, the width, a non-positive height whose negation is the image height (rows top-down), one plane, 16 bits per pixel with BI_BITFIELDS, an image size of width * height * bitCount / 8 bytes, equal horizontal and vertical resolution, and no palette |
| `Bmp.RowMajor` | png-bmp.py:59-60 | the nested loops visit every pixel of every row, and nothing that is not a pixel of some row |
| `Bmp.PixelData` | png-bmp.py:57-66 | the pixel data holds two bytes per pixel |
| `Bmp.RowMajorLength` | png-bmp.py:59-60 | visiting height rows of width pixels visits width * height pixels |
| `Bmp.Encodable` | png-bmp.py:27-41 | the dimensions for which no `struct.error` is raised: they always leave fewer than 2^31 pixels; with pixels present only the file size can overflow `<I`; with width or height zero only the width (`<i`) and -height (`<i`) can fail |
| `Bmp.EncodeBmp` | png-bmp.py:24-66 | the encoder succeeds iff the dimensions fit the header formats, and then writes 66 + 2 * width * height bytes |
| `Bmp.HeadersFit` | png-bmp.py:27-54 | the header blocks pack without `struct.error` exactly for encodable dimensions; the masks always pack |
| `BmpProperties.FileHeaderRoundTrip` | png-bmp.py:31-36 | a packed file header, whatever follows it, reads back as the header that was packed |
| `BmpProperties.FileHeaderFields` | png-bmp.py:31-36 | the file header fields sit at offsets 2, 6, 8 and 10 |
| `BmpProperties.InfoHeaderRoundTrip` | png-bmp.py:39-49 | a packed info header, whatever follows it, reads back as the header that was packed |
| `BmpProperties.InfoHeaderFields` | png-bmp.py:39-49 | the info header fields sit at their fixed offsets |
| `BmpProperties.InfoHeaderFront` | png-bmp.py:39-44 | the first six info header fields sit at offsets 0, 4, 8, 12, 14 and 16 |
| `BmpProperties.ColorMasksRoundTrip` | png-bmp.py:52-54 | the packed masks read back as the masks that were packed |
| `BmpProperties.ColorMasksFields` | png-bmp.py:52-54 | the three masks sit at offsets 0, 4 and 8 |
| `BmpProperties.PixelDataAt` | png-bmp.py:57-66 | pixel i of the visiting order occupies bytes 2i (high byte) and 2i + 1 (low byte) |
| `BmpProperties.RowMajorAt` | png-bmp.py:59-61 | the nested loops visit pixel (x, y) as the (y * width + x)-th pixel |
| `BmpProperties.CellIndex` | png-bmp.py:59-60 | y * width + x falls inside the raster, and row y ends before the last row starts |
| `BmpProperties.RasterAt` | png-bmp.py:57-66 | pixel (x, y) occupies bytes 2(y * width + x) and the one after of the pixel data |
| `BmpProperties.PixelValueAt` | png-bmp.py:57-66 | reading pixel (x, y) big-endian from the pixel data gives its packed value |
| `BmpProperties.EncodedParts` | png-bmp.py:31-71 | the output is the file header, the info header, the masks and the pixel data, cut at offsets 14, 54 and 66 |
| `BmpProperties.EncodedHeaders` | png-bmp.py:27-66 | each header block of the output parses, at its own offset, as the values the encoder wrote |
| `BmpProperties.DecodedHeaders` | png-bmp.py:27-66 | decoding the output gives back the three header blocks and the pixel data that were written |
| `BmpProperties.DecodeEncoded` | png-bmp.py:27-54 | the decoded file size is the buffer's length and the offset is 66; the info header is (40, w, -h, 1, 16, 3, 2wh, 2835, 2835, 0, 0), and 2wh is the pixel data's length; the masks are 0xF800, 0x07E0 and 0x001F |
| `BmpProperties.PixelReadBack` | png-bmp.py:57-66 | pixel (x, y) of the decoded pixel data is the pixel's packed value, and the masks recover its quantised channels |
| `BmpProperties.FileHeaderBytes` | png-bmp.py:28-36 | the output is 66 + 2wh bytes; bytes 0-1 are "BM"; bytes 2-5 hold the output's length; bytes 6-9 are zero; bytes 10-13 hold 66 |
| `BmpProperties.FileHeaderLayout` | png-bmp.py:31-36 | any buffer whose file header parses as the encoder's has those bytes |
| `BmpProperties.GeometryBytes` | png-bmp.py:40-41 | bytes 18-21 hold the width with a clear sign bit; bytes 22-25 hold -height, unsigned 2^32 - height, with the sign bit set iff height > 0 |
| `BmpProperties.GeometryLayout` | png-bmp.py:40-41 | any buffer whose info header parses as the encoder's has those geometry bytes |
| `BmpProperties.EncodedPixelBytes` | png-bmp.py:59-66 | byte 66 + 2(y * width + x) of the output is `pixel >> 8`, and the next byte is `pixel & 0xFF` |
| `BmpProperties.SolidColourBytes` | png-bmp.py:61-66 | a solid red pixel is stored as 0xF8, 0x00 and a white one as 0xFF, 0xFF |
| `BmpProperties.DisplayFrame` | png-bmp.py:21-28 | a 170 x 320 frame encodes to 108,866 bytes, and its size field says 108,866 |
| `BmpProperties.EncodeFailure` | png-bmp.py:27-41 | for dimensions the headers cannot hold, the error is the first field out of range: the file size as `<I`, else the width as `<i`, else -height as `<i` |

## Left out

- PIL image handling (png-bmp.py:10-21): opening the PNG, flattening RGBA onto white, converting other modes to RGB, and resampling to 170 x 320. The model starts from the normalised RGB raster; the resampling filter is PIL's and not part of this model.
- Writing the two buffers to the output file and the success message (png-bmp.py:69-73): I/O. The model returns the bytes the two `write` calls emit, as one buffer.
- The `try`/`except` that prints and swallows any exception (png-bmp.py:8, 75-76): the model returns the `struct.error` as a `Failure` value instead of printing it.
- Batch conversion and the command line (png-bmp.py:78 onwards): directory traversal and argument handling are glue around the encoder.
- Image decoding and format errors raised by PIL: foreign code, not modelled.
- `Bmp.DecodeBmp`, `Bmp.ParseFileHeader`, `Bmp.ParseInfoHeader`, `Bmp.ParseColorMasks`, `Bmp.PixelValue`, `StructPack.UnpackU16LE`, `StructPack.UnpackU32LE`, `StructPack.UnpackI32LE`, `StructPack.UnpackU16BE`, `Bits.Shr` and `Rgb565.Expand` are not in the code. They are the reader, its field parsers, the operator a reader uses and the channel reconstruction that the round-trip properties are stated against.
- `BmpProperties.PixelReadBack`: states the property pixel by pixel, for all images and all in-range coordinates, rather than as one quantified statement over the decoded buffer.
