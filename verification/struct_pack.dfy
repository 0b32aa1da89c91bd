/**
  The four `struct.pack` formats the encoder uses, with the readers that undo
  them. `<H`, `<I` and `<i` are little-endian unsigned 16-bit, unsigned 32-bit
  and two's-complement signed 32-bit; `>H` is big-endian unsigned 16-bit. Like
  Python's `struct.pack`, each packer fails on a value its format cannot hold.
*/
module StructPack {
  import opened Results
  import Bits

  type Byte = b: int | 0 <= b < 0x100
  type Bytes = seq<Byte>

  const TwoTo16: int := 0x1_0000
  const TwoTo31: int := 0x8000_0000
  const TwoTo32: int := 0x1_0000_0000

  /** `struct.error`: the value does not fit the format. */
  datatype PackError = OutOfRange(format: string, value: int)

  // Raw byte layouts

  function Le16(v: nat): Bytes
    requires v < TwoTo16
  {
    [v % 0x100, v / 0x100]
  }

  function Le32(v: nat): Bytes
    requires v < TwoTo32
  {
    Le16(v % TwoTo16) + Le16(v / TwoTo16)
  }

  function Be16(v: nat): Bytes
    requires v < TwoTo16
  {
    [v / 0x100, v % 0x100]
  }

  // Readers

  function UnpackU16LE(b: Bytes): (v: nat)
    requires |b| == 2
    ensures v < TwoTo16
  {
    b[0] as int + 0x100 * b[1] as int
  }

  function UnpackU32LE(b: Bytes): (v: nat)
    requires |b| == 4
    ensures v < TwoTo32
  {
    UnpackU16LE(b[..2]) + TwoTo16 * UnpackU16LE(b[2..])
  }

  /** Reads four bytes as a two's-complement signed 32-bit integer. */
  function UnpackI32LE(b: Bytes): (v: int)
    requires |b| == 4
    ensures -TwoTo31 <= v < TwoTo31
    ensures v < 0 <==> b[3] >= 0x80
  {
    var u := UnpackU32LE(b);
    if u < TwoTo31 then u else u - TwoTo32
  }

  function UnpackU16BE(b: Bytes): (v: nat)
    requires |b| == 2
    ensures v < TwoTo16
  {
    0x100 * b[0] as int + b[1] as int
  }

  // Packers

  /** `struct.pack('<H', v)` */
  function PackU16LE(v: int): (r: Result<Bytes, PackError>)
    ensures r.Success? <==> 0 <= v < TwoTo16
    ensures r.Success? ==> |r.value| == 2 && UnpackU16LE(r.value) == v
    ensures r.Failure? ==> r.error == OutOfRange("<H", v)
  {
    if 0 <= v < TwoTo16 then Success(Le16(v)) else Failure(OutOfRange("<H", v))
  }

  /** `struct.pack('<I', v)` */
  function PackU32LE(v: int): (r: Result<Bytes, PackError>)
    ensures r.Success? <==> 0 <= v < TwoTo32
    ensures r.Success? ==> |r.value| == 4 && UnpackU32LE(r.value) == v
    ensures r.Failure? ==> r.error == OutOfRange("<I", v)
  {
    if 0 <= v < TwoTo32 then Le32Unpack(v); Success(Le32(v)) else Failure(OutOfRange("<I", v))
  }

  /** `struct.pack('<i', v)`: a negative v is stored as the unsigned value v + 2^32. */
  function PackI32LE(v: int): (r: Result<Bytes, PackError>)
    ensures r.Success? <==> -TwoTo31 <= v < TwoTo31
    ensures r.Success? ==> |r.value| == 4 && UnpackI32LE(r.value) == v
    ensures r.Success? ==> UnpackU32LE(r.value) == (if v < 0 then TwoTo32 + v else v)
    ensures r.Failure? ==> r.error == OutOfRange("<i", v)
  {
    if -TwoTo31 <= v < TwoTo31 then
      var u := if v < 0 then v + TwoTo32 else v;
      Le32Unpack(u);
      Success(Le32(u))
    else
      Failure(OutOfRange("<i", v))
  }

  /** `struct.pack('>H', v)`: the high byte first. */
  function PackU16BE(v: int): (r: Result<Bytes, PackError>)
    ensures r.Success? <==> 0 <= v < TwoTo16
    ensures r.Success? ==> |r.value| == 2 && UnpackU16BE(r.value) == v
    ensures r.Success? ==> r.value[0] == v / 0x100 && r.value[1] == v % 0x100
    ensures r.Failure? ==> r.error == OutOfRange(">H", v)
  {
    if 0 <= v < TwoTo16 then Success(Be16(v)) else Failure(OutOfRange(">H", v))
  }

  /** Reading back the little-endian 32-bit layout gives the value. */
  lemma Le32Unpack(v: nat)
    requires v < TwoTo32
    ensures |Le32(v)| == 4 && UnpackU32LE(Le32(v)) == v
  {
    var b := Le32(v);
    assert b[..2] == Le16(v % TwoTo16) && b[2..] == Le16(v / TwoTo16);
  }

  /** Two bytes holding the high and low byte of v read back big-endian as v. */
  lemma ReadBe16(data: Bytes, i: nat, v: int)
    requires i + 2 <= |data| && 0 <= v < TwoTo16
    requires data[i] == v / 0x100 && data[i + 1] == v % 0x100
    ensures UnpackU16BE(data[i..i + 2]) == v
  {
  }

  // Every byte string of the right length is the packing of exactly one value.

  lemma {:induction false} U16LERoundTrip(b: Bytes)
    requires |b| == 2
    ensures PackU16LE(UnpackU16LE(b)) == Success(b)
  {
    Bits.DivModUnique(UnpackU16LE(b), 0x100, b[1], b[0]);
    assert Le16(UnpackU16LE(b)) == b;
  }

  lemma {:induction false} U32LERoundTrip(b: Bytes)
    requires |b| == 4
    ensures PackU32LE(UnpackU32LE(b)) == Success(b)
  {
    var lo, hi := UnpackU16LE(b[..2]), UnpackU16LE(b[2..]);
    Bits.DivModUnique(UnpackU32LE(b), TwoTo16, hi, lo);
    U16LERoundTrip(b[..2]);
    U16LERoundTrip(b[2..]);
    assert Le32(UnpackU32LE(b)) == b[..2] + b[2..] == b;
  }

  lemma {:induction false} I32LERoundTrip(b: Bytes)
    requires |b| == 4
    ensures PackI32LE(UnpackI32LE(b)) == Success(b)
  {
    U32LERoundTrip(b);
  }

  lemma {:induction false} U16BERoundTrip(b: Bytes)
    requires |b| == 2
    ensures PackU16BE(UnpackU16BE(b)) == Success(b)
  {
    Bits.DivModUnique(UnpackU16BE(b), 0x100, b[0], b[1]);
    assert Be16(UnpackU16BE(b)) == b;
  }
}
