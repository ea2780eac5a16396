# OCR single-cell digit recogniser — Dafny model

`OCR.c` classifies one grid cell. The cell is a row-major buffer of
`width * height` pixel bytes. The result is either blank (0) or one of the
digits 1 to 9, reported with a confidence ratio. The program works in four steps:

1. It checks the cell size: widths 16–100, heights 24–100.
2. It computes the share of 0-valued pixels. Above the blank threshold the cell
   is declared blank at once.
3. Otherwise it slides each of nine built-in 24×16 glyphs over the cell.
   For each glyph it keeps the best number of agreeing pixels out of 384.
4. It marks as eligible every digit whose ratio (best / 384) is strictly above
   its threshold. It picks the first eligible digit, and replaces it only
   with a later digit of strictly higher ratio. When no digit is eligible the
   result is 0, and the confidence reported is the white ratio.

The project has four modules:

- `Cell` (`cell.dfy`): the size check, row-major pixel lookup, and index bounds.
- `Templates` (`templates.dfy`): the glyph table, copied word for word, and the
  decoding of one template bit from a 16-bit row word. Column 0 is the most
  significant bit. A round-trip lemma shows the decoding loses nothing.
- `Matcher` (`matcher.dfy`): the agreement count of one window, and the best
  agreement over the placements the scan tries. It also holds the imperative
  scan (`CountAgreement`, `ScanDigits`), proved against those functions, and
  lemmas on what the agreement test lets through.
- `Classifier` (`classifier.dfy`): the white ratio, the ratios, eligibility,
  the selection and its declarative specification (`IsChoice`), and the
  analysis as a pure function (`Classify`). It also holds the imperative
  analysis (`CountWhite`, `RateDigits`, `SelectDigit`, `Analyse`) proved equal
  to `Classify`, and `Recognise`, which adds the input checks of `main` as
  error results.

Two behaviours of the code are kept as written:

- The placement loops use strict bounds, `i < height - 24` and `j < width - 16`.
  A window flush with the bottom or right edge is never tried. A 24-row or
  16-column cell is matched against no window at all, and the last row and
  last column of a cell are never read (`LastRowAndColumnIgnored`).
- Agreement compares the raw byte with the template bit as integers. A byte
  from 2 to 255 agrees with nothing (`NonBinaryCellMatchesNothing`), and ink
  must be stored as exactly 1 (`AgreementWithoutOnes`).

## Model

| member | source | states |
|---|---|---|
| Cell.CheckSizeCell | OCR.c:27-38 | Execution goes on exactly when 16 <= width <= 100 and 24 <= height <= 100. A bad width is reported whatever the height, and a height error only arises once the width is accepted. |
| Cell.GetCellBit | OCR.c:42-46 | The pixel at (line, col) is the byte at index `line * width + col` of the buffer, and that index is inside it. |
| Cell.RowOffsetIsProduct | OCR.c:44 | The start of row `line` is at `line * width`. |
| Cell.CellIndexInRange | OCR.c:42-46 | For line < height and col < width, the index `line * width + col` lies inside the `width * height` buffer. |
| Cell.GetCellBitRowMajor | OCR.c:42-46 | The buffer is row-major: flattening `height` rows of `width` pixels gives a `width * height` buffer, and `GetCellBit` at (line, col) returns the pixel of that row and column. |
| Templates.DigitBitmapShape | OCR.c:63-74 | The built-in table has 9 glyphs of 24 row words each. |
| Templates.Low16 | OCR.c:54 | The `int16_t` row word, promoted and masked, is seen as its 16-bit two's complement pattern, below 2^16. |
| Templates.BitAt | OCR.c:53-54 | A bit of the pattern is 0 or 1. |
| Templates.BitAtIsDivMod | OCR.c:53-54 | Bit k of u is `(u / 2^k) % 2`. |
| Templates.RowBitIsDivMod | OCR.c:53-54 | Column col of a pattern u reads bit 15 - col, that is `(u / 2^(15-col)) % 2`. |
| Templates.MaskAndShift | OCR.c:50-56 | The C expression `(w & (1 << (15 - col))) >> (15 - col)` on a 16-bit pattern yields 0 or 1. |
| Templates.RowBitIsMaskAndShift | OCR.c:53-54 | For every 16-bit pattern and every column, `RowBit` equals the C expression `(u & (1 << (15 - col))) >> (15 - col)`, evaluated on `bv16`. |
| Templates.GetDigitBitmapBitIsMaskAndShift | OCR.c:50-56 | `GetDigitBitmapBit` equals that mask-and-shift applied to the row word `digits[num][line]`, after its promotion to a 16-bit pattern. |
| Templates.GetDigitBitmapBit | OCR.c:50-56 | The template pixel of glyph `num` at (line, col) is 0 or 1. |
| Templates.RowBitsRoundTrip | OCR.c:50-56 | Reading columns 0..15 as binary digits, most significant first, rebuilds the 16-bit pattern exactly. |
| Templates.TemplateRowRoundTrip | OCR.c:50-56 | The 16 template pixels of any glyph row, read left to right, reproduce the stored row word. So column 0 is bit 15 and no bit is lost or repeated. |
| Templates.DigitBitmapWordsNonNegative | OCR.c:65-73 | Every row word of the built-in table is non-negative, so its 16-bit pattern is the word itself. |
| Templates.BuiltInRowRoundTrip | OCR.c:50-73 | For the built-in glyphs, the 16 template pixels of a row rebuild the word exactly as written in the table. |
| Matcher.Placement | OCR.c:192-193 | A corner (i, j) is tried exactly when i + 24 <= height - 1 and j + 16 <= width - 1, so the 24×16 window never covers the bottom row or the rightmost column of the cell. |
| Matcher.Agrees | OCR.c:201 | The cell byte under template position (x, y) is inside the buffer. It agrees exactly when it equals the mask-and-shift bit of the glyph's row word, and an agreeing byte is 0 or 1. |
| Matcher.RowAgreement | OCR.c:198-202 | Agreeing positions among the first k columns of a template row number at most k. |
| Matcher.RowsAgreement | OCR.c:197-203 | Agreeing positions among the first k template rows number at most 16k. |
| Matcher.WindowAgreement | OCR.c:194-203 | `pixelIdCount` for one placement lies in 0..384. |
| Matcher.BestInRow | OCR.c:193-206 | The running maximum over the placements of one row lies in 0..384. |
| Matcher.BestInRows | OCR.c:192-208 | The running maximum over the placement rows lies in 0..384. |
| Matcher.BestInRowIsMaximum | OCR.c:193-206 | The row maximum bounds every window agreement of that row. It is 0 when no placement has been tried, and otherwise it is reached by some placement. |
| Matcher.BestInRowsIsMaximum | OCR.c:192-208 | The same as `BestInRowIsMaximum`, over all placements of the rows scanned so far. It is 0 when there are none, including a 16-column cell. |
| Matcher.BestAgreement | OCR.c:189-209 | `digitPixelId[n]` is in 0..384. It is at least the agreement of every placement with i < height-24 and j < width-16, and equals the agreement of one of them when any exists. It is 0 when height = 24 or width = 16. |
| Matcher.RowAgreementStep | OCR.c:198-201 | The comparison at line 201 reads inside the buffer. Each step of the y loop adds 1 to the row agreement exactly when the cell byte equals the template bit. |
| Matcher.CountRowAgreement | OCR.c:198-202 | The y loop adds to `pixelIdCount` exactly the agreement of template row x. |
| Matcher.CountAgreement | OCR.c:194-203 | The x/y loops compute exactly the window agreement at (i, j). |
| Matcher.ScanRow | OCR.c:193-206 | The j loop for one placement row raises `digitPixelId[n]` in place to the larger of its old value and that row's best window agreement. It leaves the other entries unchanged. |
| Matcher.ScanDigit | OCR.c:192-208 | Starting from 0, the i loop raises `digitPixelId[n]` in place to the best agreement of glyph n, and leaves the other entries unchanged. |
| Matcher.ScanDigits | OCR.c:189-209 | Starting from zeros, the scan leaves `digitPixelId[n]` equal to the best agreement of glyph n, for every n. |
| Matcher.ZerosInRow | OCR.c:50-56 | The zero bits among the first k columns of a glyph row number at most k. |
| Matcher.ZerosInRows | OCR.c:50-56 | The zero bits among the first k glyph rows number at most 16k. |
| Matcher.RowAgreementWithoutOnes | OCR.c:201 | With no pixel equal to 1, a template row agrees at most on its zero bits. |
| Matcher.AgreementWithoutOnes | OCR.c:201 | With no pixel equal to 1, a window agrees with a glyph at most on the glyph's zero bits. |
| Matcher.RowAgreementNonBinary | OCR.c:201 | With every pixel in 2..255, no position of a template row agrees. |
| Matcher.RowsAgreementNonBinary | OCR.c:201 | With every pixel in 2..255, no position of a window agrees. |
| Matcher.NonBinaryCellMatchesNothing | OCR.c:189-209 | A cell made only of bytes 2..255 has best agreement 0 with every glyph. |
| Matcher.RowAgreementIgnoresEdge | OCR.c:192-201 | Row agreements of two cells that differ only in the last row and last column are equal. |
| Matcher.RowsAgreementIgnoresEdge | OCR.c:192-201 | The same holds for window agreements. |
| Matcher.BestInRowIgnoresEdge | OCR.c:192-206 | The same holds for row maxima. |
| Matcher.BestInRowsIgnoresEdge | OCR.c:192-208 | The same holds for the maxima over placement rows. |
| Matcher.LastRowAndColumnIgnored | OCR.c:192-201 | The strict scan bounds never read the bottom row or the rightmost column. Cells that differ only there get the same best agreement for every glyph. |
| Matcher.FullRowAgreement | OCR.c:197-203 | Where the whole window agrees, every template row counts all k of its first k columns. |
| Matcher.FullRowsAgreement | OCR.c:197-203 | Where the whole window agrees, the first k rows count 16k positions. |
| Matcher.EmbeddedDigitMatchesPerfectly | OCR.c:189-209 | A cell holding an exact copy of glyph n at a placement the scan tries has best agreement 384 for that glyph. |
| Classifier.WhiteCount | OCR.c:174-176 | `pixelWhite` never exceeds the number of pixels. |
| Classifier.WhiteCountIsMultiplicity | OCR.c:174-176 | `pixelWhite` is the number of occurrences of the byte 0 in the buffer. |
| Classifier.WhiteRatio | OCR.c:177 | `ratio[0]` lies in [0, 1]. |
| Classifier.DigitRatio | OCR.c:214 | A digit ratio lies in [0, 1], and is 1 exactly when all 384 positions agree. |
| Classifier.Ratios | OCR.c:173-216 | There are ten ratios: white first, then digits 1..9. |
| Classifier.Eligible | OCR.c:215 | A digit is eligible when its ratio is strictly above its threshold. With an accepted threshold, an eligible digit's ratio exceeds 0.05. A threshold of 1.0 makes a digit with a ratio of at most 1 never eligible. |
| Classifier.SelectUpTo | OCR.c:219-229 | After digits 1..k the candidate is 0 or one of those digits. |
| Classifier.SelectUpToIsChoice | OCR.c:212-232 | The selection is 0 exactly when no digit is eligible. Otherwise it picks an eligible digit whose ratio no eligible digit exceeds, and every lower eligible digit has a strictly smaller ratio. |
| Classifier.ChoiceIsUnique | OCR.c:219-232 | At most one label meets that description. |
| Classifier.TieKeepsLowerDigit | OCR.c:227 | Of two eligible digits with equal ratios, the higher one is never chosen. |
| Classifier.PerfectRatioIsChosen | OCR.c:212-232 | A digit with ratio 1 and a threshold below 1 is chosen, unless a lower eligible digit also has ratio 1. Eligible lower digits with a smaller ratio lose to it. |
| Classifier.Classify | OCR.c:173-236 | The label is in 0..9, and the confidence is `ratio[label]`. |
| Classifier.BlankShortCircuit | OCR.c:179-185 | Above the blank threshold the result is label 0 with the white ratio. The result does not depend on the glyph table or on the digit thresholds. |
| Classifier.ClassifyChoosesDigit | OCR.c:212-232 | Past the blank test, the label is the unique choice among the ratios. With no eligible digit, the label is 0 and the confidence is the white ratio. |
| Classifier.TemplateSizedCellFindsNoDigit | OCR.c:189-216 | A 24-row or 16-column cell, with digit thresholds of at least 0.05, is labelled 0 with the white ratio. |
| Classifier.ExactGlyphIsRecognised | OCR.c:189-232 | A non-blank cell holding glyph n exactly at a scanned placement is recognised as digit n+1 when that digit's threshold is below 1. Lower digits may be eligible; only a lower eligible digit whose ratio is also 1 keeps the tie under the strict `>` of OCR.c:227. |
| Classifier.CountWhite | OCR.c:174-176 | The counting loop computes `WhiteCount` of the buffer. |
| Classifier.RateDigits | OCR.c:212-216 | The loop sets `ratio[n+1]` to `digitPixelId[n] / 384`, and `possibleNum[n]` to 1 exactly when that ratio is strictly above threshold n+1 (0 otherwise). `ratio[0]` is left untouched. |
| Classifier.SelectDigit | OCR.c:220-232 | The `sumJ`/`analysedNumb` loop and its final reset compute `SelectUpTo` over digits 1..9. |
| Classifier.Analyse | OCR.c:150-236 | The analysis of `main`, with its early exit for a blank cell, yields exactly `Classify` of the cell. |
| Classifier.ThresholdInBounds | OCR.c:165 | A threshold is accepted exactly when the range test rejects neither `> 1.0` nor `< 0.05`. An accepted threshold is in (0, 1]. |
| Classifier.Recognise | OCR.c:77-236 | The checks run in the program's order: parameter count, width, height, too few pixels, too many pixels, then the first threshold outside [0.05, 1.0]. Each error arises exactly under its condition. When all checks pass, the result is `Classify` with the built-in glyphs. |

## Left out

- File input (OCR.c:86-147) is not modelled. This covers opening the file named by `argv[0]`, reading width and height, and the `fread` of `size + 1` bytes. `Recognise` receives the dimensions and the bytes read. Too few and too many pixels are kept as its error results.
- Argument parsing (OCR.c:162-163) is not modelled. `atof` and the division by 100 happen before the model: `Recognise` takes the ten thresholds already divided. The argument-count check (OCR.c:77-80) becomes a check that there are ten thresholds. The range check (OCR.c:165) is kept as an error result.
- Ratios are exact `real`s, not `double`s (OCR.c:177, 214). Rounding at a threshold boundary is not modelled.
- The `goto Afteranalysing` (OCR.c:184) is modelled as an early return from `Analyse`.
- Output (OCR.c:239-257) is not modelled: writing `CellValue.txt`, the `%` formatting, `free` and `fclose`. The written pair is the `Classification`.
- The `malloc` failure path (OCR.c:126-130) is not modelled, because the model has no allocation failure.
- `main`'s analysis is split into `CountWhite`, `ScanDigits`, `RateDigits` and `SelectDigit`, called in the program's order by `Analyse`. The scan's nested loops are split the same way, into `ScanDigits` (n), `ScanDigit` (i), `ScanRow` (j), `CountAgreement` (x) and `CountRowAgreement` (y). The loops, the running counter and the arrays `ratio`, `digitPixelId` and `possibleNum` are kept.
- The bit extraction of `GetDigitBitmapBit` is defined on integers by repeated halving (`BitAt`). `RowBitIsDivMod` shows it reads bit 15 - col. `RowBitIsMaskAndShift` proves it equals the C mask-and-shift on `bv16`, one column at a time.
- The row offset `line * width` is computed as a repeated sum (`RowOffset`). `RowOffsetIsProduct` proves it equals the product.
- The glyph table is passed to `GetDigitBitmapBit` and to the scan as a parameter, as in the C signature. At top level `Recognise` passes `DigitBitmap`.
- The C loop counters are `unsigned char`, and widths and heights are at most 100. Every counter and index stays far below 256, so no wrap-around is modelled.
