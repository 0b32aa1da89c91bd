/**
  RGB565 quantisation and packing of one pixel (png-bmp.py:61-65): each 8-bit
  channel is scaled down by truncating division, masked to its field width, and
  the three fields are or-ed into one 16-bit value, red in bits 15-11, green in
  bits 10-5 and blue in bits 4-0. The masks the BMP header declares for the
  fields undo the packing exactly.
*/
module Rgb565 {
  import opened Bits

  /** One 8-bit colour channel value. */
  type Channel = c: int | 0 <= c < 0x100

  /** A pixel of the normalised RGB image. */
  datatype Rgb = Rgb(r: Channel, g: Channel, b: Channel)

  /** The quantised field values of one pixel: five bits red, six green, five blue. */
  datatype Levels = Levels(red: nat, green: nat, blue: nat)

  /** The channel masks written into the BI_BITFIELDS block (png-bmp.py:52-54). */
  const RedMask: nat := 0xF800
  const GreenMask: nat := 0x07E0
  const BlueMask: nat := 0x001F

  /** A value below 2^n is unchanged by masking with its n low bits. */
  lemma LowMaskKeeps(x: nat, n: nat)
    requires x < Pow2(n)
    ensures And(x, Pow2(n) - 1) == x
  {
    AndLowMask(x, n);
    DivModUnique(x, Pow2(n), 0, x);
  }

  /** Red or blue level: `(c * 31 // 255) & 0x1F`, the largest q with 255 * q <= 31 * c. */
  function Quant5(c: Channel): (q: nat)
    ensures q == c * 31 / 255
    ensures q <= 31
    ensures 255 * q <= 31 * c < 255 * (q + 1)
  {
    Pow2Constants();
    LowMaskKeeps(c * 31 / 255, 5);
    And(c * 31 / 255, 0x1F)
  }

  /** Green level: `(c * 63 // 255) & 0x3F`, the largest q with 255 * q <= 63 * c. */
  function Quant6(c: Channel): (q: nat)
    ensures q == c * 63 / 255
    ensures q <= 63
    ensures 255 * q <= 63 * c < 255 * (q + 1)
  {
    Pow2Constants();
    LowMaskKeeps(c * 63 / 255, 6);
    And(c * 63 / 255, 0x3F)
  }

  /**
    The three levels the encoder derives from a pixel: each channel scaled to
    its field's range and rounded down, so every level fits its field.
  */
  function Quantise(p: Rgb): (l: Levels)
    ensures l.red <= 31 && l.green <= 63 && l.blue <= 31
    ensures 255 * l.red <= 31 * p.r < 255 * (l.red + 1)
    ensures 255 * l.green <= 63 * p.g < 255 * (l.green + 1)
    ensures 255 * l.blue <= 31 * p.b < 255 * (l.blue + 1)
  {
    Levels(Quant5(p.r), Quant6(p.g), Quant5(p.b))
  }

  /** Or-ing the shifted fields of in-range levels adds them: the fields occupy disjoint bits. */
  lemma FieldsDisjoint(r: nat, g: nat, b: nat)
    requires r < 32 && g < 64 && b < 32
    ensures Or(Or(Shl(r, 11), Shl(g, 5)), b) == r * 2048 + g * 32 + b
  {
    Pow2Constants();
    ShlMul(r, 11);
    ShlMul(g, 5);
    ShlMul(r * 64 + g, 5);
    OrShifted(r, Shl(g, 5), 11);
    OrShifted(r * 64 + g, b, 5);
  }

  /** `(r << 11) | (g << 5) | b` on the quantised levels: a 16-bit value holding the three fields. */
  function Pack565(p: Rgb): (v: nat)
    ensures v < 0x1_0000
    ensures v == Quant5(p.r) * 2048 + Quant6(p.g) * 32 + Quant5(p.b)
  {
    var r, g, b := Quant5(p.r), Quant6(p.g), Quant5(p.b);
    FieldsDisjoint(r, g, b);
    Or(Or(Shl(r, 11), Shl(g, 5)), b)
  }

  /** What a BI_BITFIELDS reader extracts from a 16-bit value with the three declared masks. */
  function Unpack565(v: nat): (l: Levels)
    requires v < 0x1_0000
    ensures l.red < 32 && l.green < 64 && l.blue < 32
    ensures v == l.red * 2048 + l.green * 32 + l.blue
  {
    MaskedFields(v);
    Digits565(v);
    Levels(Shr(And(v, RedMask), 11), Shr(And(v, GreenMask), 5), And(v, BlueMask))
  }

  /** Each declared mask, shifted down, selects the corresponding digit of v in base 32/64/32. */
  lemma MaskedFields(v: nat)
    requires v < 0x1_0000
    ensures Shr(And(v, RedMask), 11) == v / 2048
    ensures Shr(And(v, GreenMask), 5) == v / 32 % 64
    ensures And(v, BlueMask) == v % 32
  {
    Pow2Constants();
    assert Shr(And(v, RedMask), 11) == v / 2048 by {
      ShlMul(31, 11);
      AndShifted(v, 31, 11);
      ShrShl(And(Shr(v, 11), 31), 11);
      ShrDiv(v, 11);
      AndLowMask(v / 2048, 5);
      DivModUnique(v / 2048, 32, 0, v / 2048);
    }
    assert Shr(And(v, GreenMask), 5) == v / 32 % 64 by {
      ShlMul(63, 5);
      AndShifted(v, 63, 5);
      ShrShl(And(Shr(v, 5), 63), 5);
      ShrDiv(v, 5);
      AndLowMask(v / 32, 6);
    }
    AndLowMask(v, 5);
  }

  /** v in base 32/64/32: the five high bits, the six middle bits and the five low bits. */
  lemma Digits565(v: nat)
    requires v < 0x1_0000
    ensures v / 2048 < 32
    ensures v == v / 2048 * 2048 + v / 32 % 64 * 32 + v % 32
  {
    HalfDivMod(v, 1024);
    assert v / 32 / 64 == v / 2048 by {
      DivModUnique(v, 2048, v / 32 / 64, v / 32 % 64 * 32 + v % 32);
    }
  }

  /** The declared masks recover exactly the quantised levels of every packed pixel. */
  lemma MasksRecoverLevels(p: Rgb)
    ensures Unpack565(Pack565(p)) == Quantise(p)
  {
    var v := Pack565(p);
    var l := Unpack565(v);
    var q := Quantise(p);
    DivModUnique(v, 32, q.red * 64 + q.green, q.blue);
    DivModUnique(v, 32, l.red * 64 + l.green, l.blue);
    DivModUnique(v / 32, 64, q.red, q.green);
    DivModUnique(v / 32, 64, l.red, l.green);
  }

  /** The quantisers map black to 0 and full intensity to the top of their range. */
  lemma LevelEndpoints()
    ensures Quant5(0) == 0 && Quant5(255) == 31
    ensures Quant6(0) == 0 && Quant6(255) == 63
  {
  }

  /** A brighter channel never quantises to a lower level. */
  lemma QuantMonotone(c: Channel, d: Channel)
    requires c <= d
    ensures Quant5(c) <= Quant5(d) && Quant6(c) <= Quant6(d)
  {
  }

  /** An n-bit level scaled back to 8 bits, rounded to nearest: `round(v * 255 / max)`. */
  function Expand(v: nat, max: nat): nat
    requires max > 0
  {
    (2 * v * 255 + max) / (2 * max)
  }

  /**
    Scaling a quantised level back to 8 bits lands at most one quantisation step
    below the original channel and never above it: within 8 for the five-bit
    fields (step 255/31) and within 4 for the six-bit field (step 255/63).
  */
  lemma ReconstructionError(c: Channel)
    ensures 0 <= c - Expand(Quant5(c), 31) <= 8
    ensures 0 <= c - Expand(Quant6(c), 63) <= 4
  {
  }

  /** Solid red packs to 0xF800 and solid white to 0xFFFF. */
  lemma PackedColours()
    ensures Pack565(Rgb(255, 0, 0)) == 0xF800
    ensures Pack565(Rgb(255, 255, 255)) == 0xFFFF
  {
    LevelEndpoints();
  }
}
