/** The nine reference glyphs for the digits 1 to 9, each 24 rows of 16
    columns packed as one 16-bit word per row, and the decoding of one bit. */
module Templates {

  /** An `int16_t` row word. */
  newtype int16 = x: int | -0x8000 <= x < 0x8000

  const DigitBitmapHeight: nat := 24
  const DigitBitmapWidth: nat := 16
  const DigitCount: nat := 9

  /** `DigitBitmap[n]` is the glyph of digit n + 1, top row first. */
  const DigitBitmap: seq<seq<int16>> := [
    [0, 0, 96, 224, 224, 992, 4064, 4064, 224, 224, 224, 224, 224, 224, 224, 224, 224, 224, 224, 224, 224, 224, 0, 0],
    [0, 0, 496, 2044, 4092, 7710, 7182, 14350, 14351, 14, 30, 60, 124, 496, 2016, 3968, 7680, 7168, 14336, 16382, 16382, 16382, 0, 0],
    [0, 0, 992, 4088, 8188, 7196, 14350, 14350, 14350, 28, 252, 504, 508, 30, 14, 14, 14350, 14350, 14350, 15422, 8188, 4080, 0, 0],
    [0, 0, 56, 120, 120, 248, 504, 440, 952, 1848, 3640, 3640, 7224, 14392, 14392, 16383, 16383, 56, 56, 56, 56, 56, 0, 0],
    [0, 0, 4092, 4092, 4092, 3072, 7168, 7168, 7168, 8176, 8184, 8188, 7198, 14, 14, 15, 14, 14350, 14350, 15932, 8188, 4080, 0, 0],
    [0, 0, 496, 2044, 4092, 7710, 7182, 7174, 14336, 14832, 15352, 16380, 15902, 15374, 14350, 14343, 14343, 14350, 7182, 7708, 4092, 2032, 0, 0],
    [0, 0, 16382, 16383, 16383, 14, 28, 28, 56, 112, 112, 224, 224, 448, 448, 960, 896, 896, 1920, 1792, 1792, 1792, 0, 0],
    [0, 0, 992, 4088, 8188, 7198, 7182, 14350, 7182, 7196, 4092, 4088, 8188, 15390, 14350, 14350, 14350, 14350, 15374, 7710, 8188, 2040, 128, 0],
    [0, 0, 992, 4088, 8188, 7196, 14350, 14350, 14350, 14350, 14350, 15390, 7742, 8190, 2030, 14, 14, 14364, 14364, 7224, 8184, 4080, 0, 0]
  ]

  /** A table of nine glyphs of 24 row words each, the shape of the
      `int16_t digits[][24]` parameter of `GetDigitBitmapBit`. */
  predicate TableShape(digits: seq<seq<int16>>)
  {
    |digits| == DigitCount && forall n :: 0 <= n < DigitCount ==> |digits[n]| == DigitBitmapHeight
  }

  lemma DigitBitmapShape()
    ensures TableShape(DigitBitmap)
  {
  }

  /** Every row word of a glyph is non-negative. */
  predicate GlyphNonNegative(glyph: seq<int16>)
  {
    forall line :: 0 <= line < |glyph| ==> 0 <= glyph[line]
  }

  // Three glyphs per lemma keeps each check of the literal table small.

  lemma FirstGlyphsNonNegative()
    ensures forall n :: 0 <= n < 3 ==> GlyphNonNegative(DigitBitmap[n])
  {
    assert GlyphNonNegative(DigitBitmap[0]);
    assert GlyphNonNegative(DigitBitmap[1]);
    assert GlyphNonNegative(DigitBitmap[2]);
  }

  lemma MiddleGlyphsNonNegative()
    ensures forall n :: 3 <= n < 6 ==> GlyphNonNegative(DigitBitmap[n])
  {
    assert GlyphNonNegative(DigitBitmap[3]);
    assert GlyphNonNegative(DigitBitmap[4]);
    assert GlyphNonNegative(DigitBitmap[5]);
  }

  lemma LastGlyphsNonNegative()
    ensures forall n :: 6 <= n < DigitCount ==> GlyphNonNegative(DigitBitmap[n])
  {
    assert GlyphNonNegative(DigitBitmap[6]);
    assert GlyphNonNegative(DigitBitmap[7]);
    assert GlyphNonNegative(DigitBitmap[8]);
  }

  /** Every row word of the built-in table is non-negative, so its 16-bit
      pattern is the word itself. */
  lemma DigitBitmapWordsNonNegative()
    ensures forall n :: 0 <= n < DigitCount ==> GlyphNonNegative(DigitBitmap[n])
  {
    FirstGlyphsNonNegative();
    MiddleGlyphsNonNegative();
    LastGlyphsNonNegative();
  }

  function Pow2(k: nat): (p: nat)
    ensures p >= 1
  {
    if k == 0 then 1 else 2 * Pow2(k - 1)
  }

  /** The 16-bit two's complement pattern of a row word: the bits that a
      mask below 2^16 can select once the `int16_t` is promoted to `int`. */
  function Low16(w: int16): (u: nat)
    ensures u < Pow2(DigitBitmapWidth) && u < 0x1_0000
    ensures 0 <= w ==> u == w as int
  {
    Pow2Sixteen();
    (w as int) % 0x1_0000
  }

  /** Bit k of u, the low bit after k halvings. */
  function BitAt(u: nat, k: nat): (b: nat)
    ensures b == 0 || b == 1
  {
    if k == 0 then u % 2 else BitAt(u / 2, k - 1)
  }

  /** Mask-and-shift on a 16-bit pattern: masking with `1 << (15 - col)`
      and shifting right by `15 - col` leaves bit `15 - col`, so column 0 is
      the most significant of the 16 bits (`RowBitIsMaskAndShift`). */
  function RowBit(u: nat, col: nat): (b: nat)
    requires col < DigitBitmapWidth
  {
    BitAt(u, 15 - col)
  }

  /** Bit k is the remainder by 2 of the quotient by 2^k. */
  lemma {:induction false} BitAtIsDivMod(u: nat, k: nat)
    ensures BitAt(u, k) == (u / Pow2(k)) % 2
  {
    if k > 0 {
      BitAtIsDivMod(u / 2, k - 1);
      HalfThenDiv(u, Pow2(k - 1));
    }
  }

  /** Column col reads bit 15 - col: the quotient by 2^(15 - col), modulo 2. */
  lemma RowBitIsDivMod(u: nat, col: nat)
    requires col < DigitBitmapWidth
    ensures RowBit(u, col) == (u / Pow2(15 - col)) % 2
  {
    BitAtIsDivMod(u, 15 - col);
  }

  /** The C expression `(w & (1 << (15 - col))) >> (15 - col)` on the
      16-bit pattern w of a row word. */
  function MaskAndShift(w: bv16, col: nat): (b: nat)
    requires col < DigitBitmapWidth
    ensures b <= 1
  {
    var bit := (w & ((1 as bv16) << (15 - col))) >> (15 - col);
    assert bit <= 1;
    bit as int
  }

  // One lemma per column keeps each bit-vector proof small.

  lemma Column0MaskAndShift(u: nat)
    requires u < 0x1_0000
    ensures RowBit(u, 0) == MaskAndShift(u as bv16, 0)
  {
    RowBitIsDivMod(u, 0);
    assert Pow2(15) == 0x8000;
  }

  lemma Column1MaskAndShift(u: nat)
    requires u < 0x1_0000
    ensures RowBit(u, 1) == MaskAndShift(u as bv16, 1)
  {
    RowBitIsDivMod(u, 1);
    assert Pow2(14) == 0x4000;
  }

  lemma Column2MaskAndShift(u: nat)
    requires u < 0x1_0000
    ensures RowBit(u, 2) == MaskAndShift(u as bv16, 2)
  {
    RowBitIsDivMod(u, 2);
    assert Pow2(13) == 0x2000;
  }

  lemma Column3MaskAndShift(u: nat)
    requires u < 0x1_0000
    ensures RowBit(u, 3) == MaskAndShift(u as bv16, 3)
  {
    RowBitIsDivMod(u, 3);
    assert Pow2(12) == 0x1000;
  }

  lemma Column4MaskAndShift(u: nat)
    requires u < 0x1_0000
    ensures RowBit(u, 4) == MaskAndShift(u as bv16, 4)
  {
    RowBitIsDivMod(u, 4);
    assert Pow2(11) == 0x800;
  }

  lemma Column5MaskAndShift(u: nat)
    requires u < 0x1_0000
    ensures RowBit(u, 5) == MaskAndShift(u as bv16, 5)
  {
    RowBitIsDivMod(u, 5);
    assert Pow2(10) == 0x400;
  }

  lemma Column6MaskAndShift(u: nat)
    requires u < 0x1_0000
    ensures RowBit(u, 6) == MaskAndShift(u as bv16, 6)
  {
    RowBitIsDivMod(u, 6);
    assert Pow2(9) == 0x200;
  }

  lemma Column7MaskAndShift(u: nat)
    requires u < 0x1_0000
    ensures RowBit(u, 7) == MaskAndShift(u as bv16, 7)
  {
    RowBitIsDivMod(u, 7);
    assert Pow2(8) == 0x100;
  }

  lemma Column8MaskAndShift(u: nat)
    requires u < 0x1_0000
    ensures RowBit(u, 8) == MaskAndShift(u as bv16, 8)
  {
    RowBitIsDivMod(u, 8);
    assert Pow2(7) == 0x80;
  }

  lemma Column9MaskAndShift(u: nat)
    requires u < 0x1_0000
    ensures RowBit(u, 9) == MaskAndShift(u as bv16, 9)
  {
    RowBitIsDivMod(u, 9);
    assert Pow2(6) == 0x40;
  }

  lemma Column10MaskAndShift(u: nat)
    requires u < 0x1_0000
    ensures RowBit(u, 10) == MaskAndShift(u as bv16, 10)
  {
    RowBitIsDivMod(u, 10);
    assert Pow2(5) == 0x20;
  }

  lemma Column11MaskAndShift(u: nat)
    requires u < 0x1_0000
    ensures RowBit(u, 11) == MaskAndShift(u as bv16, 11)
  {
    RowBitIsDivMod(u, 11);
    assert Pow2(4) == 0x10;
  }

  lemma Column12MaskAndShift(u: nat)
    requires u < 0x1_0000
    ensures RowBit(u, 12) == MaskAndShift(u as bv16, 12)
  {
    RowBitIsDivMod(u, 12);
    assert Pow2(3) == 0x8;
  }

  lemma Column13MaskAndShift(u: nat)
    requires u < 0x1_0000
    ensures RowBit(u, 13) == MaskAndShift(u as bv16, 13)
  {
    RowBitIsDivMod(u, 13);
    assert Pow2(2) == 0x4;
  }

  lemma Column14MaskAndShift(u: nat)
    requires u < 0x1_0000
    ensures RowBit(u, 14) == MaskAndShift(u as bv16, 14)
  {
    RowBitIsDivMod(u, 14);
    assert Pow2(1) == 0x2;
  }

  lemma Column15MaskAndShift(u: nat)
    requires u < 0x1_0000
    ensures RowBit(u, 15) == MaskAndShift(u as bv16, 15)
  {
    RowBitIsDivMod(u, 15);
    assert Pow2(0) == 0x1;
  }

  /** `RowBit` is the mask-and-shift of the C code, for every column. */
  lemma RowBitIsMaskAndShift(u: nat, col: nat)
    requires u < 0x1_0000 && col < DigitBitmapWidth
    ensures RowBit(u, col) == MaskAndShift(u as bv16, col)
  {
    if col == 0 { Column0MaskAndShift(u); }
    else if col == 1 { Column1MaskAndShift(u); }
    else if col == 2 { Column2MaskAndShift(u); }
    else if col == 3 { Column3MaskAndShift(u); }
    else if col == 4 { Column4MaskAndShift(u); }
    else if col == 5 { Column5MaskAndShift(u); }
    else if col == 6 { Column6MaskAndShift(u); }
    else if col == 7 { Column7MaskAndShift(u); }
    else if col == 8 { Column8MaskAndShift(u); }
    else if col == 9 { Column9MaskAndShift(u); }
    else if col == 10 { Column10MaskAndShift(u); }
    else if col == 11 { Column11MaskAndShift(u); }
    else if col == 12 { Column12MaskAndShift(u); }
    else if col == 13 { Column13MaskAndShift(u); }
    else if col == 14 { Column14MaskAndShift(u); }
    else { Column15MaskAndShift(u); }
  }

  /** `GetDigitBitmapBit` masks the promoted row word with `1 << (15 - col)`
      and shifts the result right by `15 - col`. */
  lemma GetDigitBitmapBitIsMaskAndShift(digits: seq<seq<int16>>, line: nat, col: nat, num: nat)
    requires TableShape(digits)
    requires num < DigitCount && line < DigitBitmapHeight && col < DigitBitmapWidth
    ensures GetDigitBitmapBit(digits, line, col, num) == MaskAndShift(Low16(digits[num][line]) as bv16, col)
  {
    RowBitIsMaskAndShift(Low16(digits[num][line]), col);
  }

  /** `GetDigitBitmapBit`: the template pixel of glyph `num` of the table
      at (line, col), always 0 or 1. */
  function GetDigitBitmapBit(digits: seq<seq<int16>>, line: nat, col: nat, num: nat): (b: nat)
    requires TableShape(digits)
    requires num < DigitCount && line < DigitBitmapHeight && col < DigitBitmapWidth
    ensures b == 0 || b == 1
  {
    RowBit(Low16(digits[num][line]), col)
  }

  /** The number whose binary digits, most significant first, are columns
      0 .. k-1 of the pattern `u`. */
  function Assemble(u: nat, k: nat): nat
    requires k <= DigitBitmapWidth
  {
    if k == 0 then 0 else 2 * Assemble(u, k - 1) + RowBit(u, k - 1)
  }

  /** Division by 2 * d is division by d, then by 2. */
  lemma DivTwice(a: nat, d: nat)
    requires d > 0
    ensures a / (2 * d) == (a / d) / 2
  {
    var q := a / d;
    var r := a % d;
    assert a == q * d + r;
    var q2 := q / 2;
    assert q == 2 * q2 + q % 2;
    assert a == q2 * (2 * d) + ((q % 2) * d + r);
    assert 0 <= (q % 2) * d + r < 2 * d;
    DivUnique(a, 2 * d, q2, (q % 2) * d + r);
  }

  /** Halving first, then dividing by d, is division by 2 * d. */
  lemma HalfThenDiv(a: nat, d: nat)
    requires d > 0
    ensures (a / 2) / d == a / (2 * d)
  {
    var h := a / 2;
    var q := h / d;
    var r := h % d;
    assert h == q * d + r;
    assert a == 2 * h + a % 2;
    assert a == q * (2 * d) + (2 * r + a % 2);
    DivUnique(a, 2 * d, q, 2 * r + a % 2);
  }

  lemma DivUnique(a: nat, d: nat, q: nat, r: nat)
    requires d > 0 && a == q * d + r && r < d
    ensures a / d == q
  {
    var q' := a / d;
    assert (q - q') * d == a % d - r;
    if q' < q {
      MulAtLeast(q - q', d);
    } else if q' > q {
      MulAtLeast(q' - q, d);
    }
  }

  lemma MulAtLeast(e: nat, d: nat)
    requires e >= 1
    ensures e * d >= d
  {
  }

  lemma Pow2Sixteen()
    ensures Pow2(DigitBitmapWidth) == 0x1_0000
  {
    assert Pow2(4) == 16;
    assert Pow2(8) == 256;
    assert Pow2(12) == 4096;
  }

  /** The first k columns, read as binary digits, are the top k bits of the
      pattern. */
  lemma {:induction false} AssemblePrefix(u: nat, k: nat)
    requires u < Pow2(DigitBitmapWidth) && k <= DigitBitmapWidth
    ensures Assemble(u, k) == u / Pow2(16 - k)
  {
    if k == 0 {
      DivUnique(u, Pow2(16), 0, u);
    } else {
      AssemblePrefix(u, k - 1);
      DivTwice(u, Pow2(16 - k));
      RowBitIsDivMod(u, k - 1);
    }
  }

  /** Decoding is lossless: the 16 column bits, most significant first,
      give back the pattern. */
  lemma RowBitsRoundTrip(u: nat)
    requires u < Pow2(DigitBitmapWidth)
    ensures Assemble(u, DigitBitmapWidth) == u
  {
    AssemblePrefix(u, DigitBitmapWidth);
    assert Pow2(0) == 1;
  }

  /** The glyph row rebuilt from its first k template pixels. */
  function AssembleRow(digits: seq<seq<int16>>, num: nat, line: nat, k: nat): nat
    requires TableShape(digits)
    requires num < DigitCount && line < DigitBitmapHeight && k <= DigitBitmapWidth
  {
    if k == 0 then 0 else 2 * AssembleRow(digits, num, line, k - 1) + GetDigitBitmapBit(digits, line, k - 1, num)
  }

  lemma {:induction false} AssembleRowIsAssemble(digits: seq<seq<int16>>, num: nat, line: nat, k: nat)
    requires TableShape(digits)
    requires num < DigitCount && line < DigitBitmapHeight && k <= DigitBitmapWidth
    ensures AssembleRow(digits, num, line, k) == Assemble(Low16(digits[num][line]), k)
  {
    if k > 0 {
      AssembleRowIsAssemble(digits, num, line, k - 1);
    }
  }

  /** The 16 template pixels of a glyph row, read left to right as binary
      digits from the most significant down, are exactly the stored row
      word (in its 16-bit two's complement form). */
  lemma TemplateRowRoundTrip(digits: seq<seq<int16>>, num: nat, line: nat)
    requires TableShape(digits)
    requires num < DigitCount && line < DigitBitmapHeight
    ensures AssembleRow(digits, num, line, DigitBitmapWidth) == Low16(digits[num][line])
  {
    AssembleRowIsAssemble(digits, num, line, DigitBitmapWidth);
    RowBitsRoundTrip(Low16(digits[num][line]));
  }

  /** For the built-in glyphs the rebuilt row is the word as written in the
      table. */
  lemma BuiltInRowRoundTrip(num: nat, line: nat)
    requires num < DigitCount && line < DigitBitmapHeight
    ensures TableShape(DigitBitmap)
    ensures AssembleRow(DigitBitmap, num, line, DigitBitmapWidth) == DigitBitmap[num][line] as int
  {
    DigitBitmapShape();
    DigitBitmapWordsNonNegative();
    assert GlyphNonNegative(DigitBitmap[num]);
    TemplateRowRoundTrip(DigitBitmap, num, line);
  }
}
