/** The classification of one cell: the blank test, the ratios of the nine
    glyphs, which digits are eligible, and the choice among them; then the
    whole recognition with its input checks. */
module Classifier {
  import opened Cell
  import opened Templates
  import opened Matcher

  /** Class 0 is the blank cell, classes 1 .. 9 the digits. */
  const ClassCount: nat := 10
  const MinThreshold: real := 0.05
  const MaxThreshold: real := 1.0

  /** The class (0 for blank, else the digit) written to the report and the ratio given with it. */
  datatype Classification = Classification(number: nat, confidence: real)

  /** The reasons the program stops before writing a result. */
  datatype Error =
    | WrongParameterCount
    | WidthOutOfRange
    | HeightOutOfRange
    | NotEnoughPixels
    | TooManyPixels
    | ThresholdOutOfBoundary(index: nat)

  datatype Result<T> = Ok(value: T) | Err(error: Error)

  // ---- The blank test ----

  /** Number of pixels equal to 0 (`pixelWhite`). */
  function WhiteCount(cell: seq<byte>): (c: nat)
    ensures c <= |cell|
  {
    if cell == [] then 0
    else WhiteCount(cell[..|cell| - 1]) + (if cell[|cell| - 1] == 0 then 1 else 0)
  }

  /** `pixelWhite` is the number of occurrences of the byte 0 in the cell. */
  lemma {:induction false} WhiteCountIsMultiplicity(cell: seq<byte>)
    ensures WhiteCount(cell) == multiset(cell)[0]
  {
    if cell != [] {
      var init := cell[..|cell| - 1];
      WhiteCountIsMultiplicity(init);
      assert cell == init + [cell[|cell| - 1]];
    }
  }

  /** `ratio[0]`: the share of 0-valued pixels in the cell, between 0 and 1. */
  function WhiteRatio(cell: seq<byte>): (r: real)
    requires |cell| > 0
    ensures 0.0 <= r <= 1.0
  {
    WhiteCount(cell) as real / |cell| as real
  }

  /** `ratio[n + 1]`: the best agreement of glyph n over the template area. */
  function DigitRatio(best: nat): (r: real)
    requires best <= TemplateArea
    ensures 0.0 <= r <= 1.0
    ensures r == 1.0 <==> best == TemplateArea
  {
    best as real / TemplateArea as real
  }

  /** The ten ratios of the analysis: the white ratio, then the ratio of
      each digit 1 .. 9. */
  function Ratios(cell: seq<byte>, width: nat, height: nat, digits: seq<seq<int16>>): (ratios: seq<real>)
    requires WellFormed(cell, width, height) && TableShape(digits)
    ensures |ratios| == ClassCount
  {
    [WhiteRatio(cell)] + seq(DigitCount, n requires 0 <= n < DigitCount => DigitRatio(BestAgreement(cell, width, height, digits, n)))
  }

  // ---- Choosing among the eligible digits ----

  /** Digit d clears its threshold. */
  predicate Eligible(ratios: seq<real>, thresholds: seq<real>, d: nat): (b: bool)
    requires |ratios| == ClassCount && |thresholds| == ClassCount && 1 <= d < ClassCount
    ensures b && ThresholdInBounds(thresholds[d]) ==> ratios[d] > MinThreshold
    ensures thresholds[d] >= MaxThreshold && ratios[d] <= 1.0 ==> !b
  {
    ratios[d] > thresholds[d]
  }

  /** `analysedNumb` after the selection loop has looked at digits 1 .. k:
      the first eligible digit, replaced by any later eligible digit whose
      ratio is strictly higher; 0 while none is eligible. */
  function SelectUpTo(ratios: seq<real>, thresholds: seq<real>, k: nat): (number: nat)
    requires |ratios| == ClassCount && |thresholds| == ClassCount && k <= DigitCount
    ensures number <= k
  {
    if k == 0 then 0
    else
      var prev := SelectUpTo(ratios, thresholds, k - 1);
      if Eligible(ratios, thresholds, k) && (prev == 0 || ratios[k] > ratios[prev]) then k else prev
  }

  /** What the choice among digits 1 .. k must be: 0 exactly when none is
      eligible, otherwise an eligible digit with the highest ratio, and the
      lowest-numbered one among those. */
  predicate IsChoice(number: nat, ratios: seq<real>, thresholds: seq<real>, k: nat)
    requires |ratios| == ClassCount && |thresholds| == ClassCount && k <= DigitCount
  {
    if number == 0 then
      forall d :: 1 <= d <= k ==> !Eligible(ratios, thresholds, d)
    else
      && number <= k
      && Eligible(ratios, thresholds, number)
      && forall d :: 1 <= d <= k && Eligible(ratios, thresholds, d) ==>
           ratios[d] <= ratios[number] && (d < number ==> ratios[d] < ratios[number])
  }

  /** The step-by-step selection satisfies `IsChoice`: the lowest-numbered
      eligible digit with the highest ratio, or 0 when no digit is eligible. */
  lemma {:induction false} SelectUpToIsChoice(ratios: seq<real>, thresholds: seq<real>, k: nat)
    requires |ratios| == ClassCount && |thresholds| == ClassCount && k <= DigitCount
    ensures IsChoice(SelectUpTo(ratios, thresholds, k), ratios, thresholds, k)
  {
    if k > 0 {
      SelectUpToIsChoice(ratios, thresholds, k - 1);
    }
  }

  /** There is only one such choice, so the selection is determined by the
      ratios and thresholds alone. */
  lemma ChoiceIsUnique(a: nat, b: nat, ratios: seq<real>, thresholds: seq<real>, k: nat)
    requires |ratios| == ClassCount && |thresholds| == ClassCount && k <= DigitCount
    requires IsChoice(a, ratios, thresholds, k) && IsChoice(b, ratios, thresholds, k)
    ensures a == b
  {
    if a != 0 && b != 0 {
      assert ratios[a] <= ratios[b] && ratios[b] <= ratios[a];
    }
  }

  /** Ties go to the lower digit: when digits a < b are both eligible with
      the same ratio, b is not chosen. */
  lemma TieKeepsLowerDigit(ratios: seq<real>, thresholds: seq<real>, a: nat, b: nat)
    requires |ratios| == ClassCount && |thresholds| == ClassCount
    requires 1 <= a < b <= DigitCount
    requires Eligible(ratios, thresholds, a) && Eligible(ratios, thresholds, b) && ratios[a] == ratios[b]
    ensures SelectUpTo(ratios, thresholds, DigitCount) != b
  {
    SelectUpToIsChoice(ratios, thresholds, DigitCount);
  }

  // ---- The analysis ----

  /** The class and confidence the analysis part of the program writes. A
      white ratio above `thresholds[0]` decides "blank" at once; otherwise
      the selection runs over the digit ratios, and the confidence is the
      ratio of the chosen class (the white ratio when no digit is eligible). */
  function Classify(cell: seq<byte>, width: nat, height: nat, digits: seq<seq<int16>>, thresholds: seq<real>): (c: Classification)
    requires WellFormed(cell, width, height) && TableShape(digits) && |thresholds| == ClassCount
    ensures c.number < ClassCount
    ensures c.confidence == Ratios(cell, width, height, digits)[c.number]
  {
    var white := WhiteRatio(cell);
    if white > thresholds[0] then
      Classification(0, white)
    else
      var ratios := Ratios(cell, width, height, digits);
      var number := SelectUpTo(ratios, thresholds, DigitCount);
      Classification(number, ratios[number])
  }

  /** The blank test short-circuits: above the blank threshold the class is
      0 with the white ratio as confidence, whatever the glyphs and the
      digit thresholds are, so no agreement matters. */
  lemma BlankShortCircuit(cell: seq<byte>, width: nat, height: nat, digits: seq<seq<int16>>, thresholds: seq<real>,
                          otherDigits: seq<seq<int16>>, otherThresholds: seq<real>)
    requires WellFormed(cell, width, height) && TableShape(digits) && |thresholds| == ClassCount
    requires TableShape(otherDigits) && |otherThresholds| == ClassCount && otherThresholds[0] == thresholds[0]
    requires WhiteRatio(cell) > thresholds[0]
    ensures Classify(cell, width, height, digits, thresholds) == Classification(0, WhiteRatio(cell))
    ensures Classify(cell, width, height, otherDigits, otherThresholds) == Classify(cell, width, height, digits, thresholds)
  {
  }

  /** Past the blank test the class is the unique choice among the digit
      ratios; with no eligible digit it is 0 and the confidence falls back
      to the white ratio. */
  lemma ClassifyChoosesDigit(cell: seq<byte>, width: nat, height: nat, digits: seq<seq<int16>>, thresholds: seq<real>)
    requires WellFormed(cell, width, height) && TableShape(digits) && |thresholds| == ClassCount
    requires WhiteRatio(cell) <= thresholds[0]
    ensures IsChoice(Classify(cell, width, height, digits, thresholds).number, Ratios(cell, width, height, digits), thresholds, DigitCount)
    ensures Classify(cell, width, height, digits, thresholds).number == 0 ==>
      Classify(cell, width, height, digits, thresholds).confidence == WhiteRatio(cell)
  {
    SelectUpToIsChoice(Ratios(cell, width, height, digits), thresholds, DigitCount);
  }

  /** A cell exactly as high or as wide as the template gives no placement
      to try, so no digit reaches a positive threshold: such a cell is
      classified 0 with the white ratio as confidence. */
  lemma TemplateSizedCellFindsNoDigit(cell: seq<byte>, width: nat, height: nat, digits: seq<seq<int16>>, thresholds: seq<real>)
    requires WellFormed(cell, width, height) && TableShape(digits) && |thresholds| == ClassCount
    requires width == DigitBitmapWidth || height == DigitBitmapHeight
    requires forall d :: 1 <= d < ClassCount ==> thresholds[d] >= MinThreshold
    ensures Classify(cell, width, height, digits, thresholds) == Classification(0, WhiteRatio(cell))
  {
    var ratios := Ratios(cell, width, height, digits);
    forall d | 1 <= d < ClassCount
      ensures !Eligible(ratios, thresholds, d)
    {
      assert ratios[d] == DigitRatio(BestAgreement(cell, width, height, digits, d - 1));
    }
    SelectUpToIsChoice(ratios, thresholds, DigitCount);
  }

  /** A digit whose ratio is 1, the highest a ratio can be, is chosen when
      its threshold is below 1, unless a lower eligible digit also has
      ratio 1: eligible lower digits with a smaller ratio lose to it. */
  lemma PerfectRatioIsChosen(ratios: seq<real>, thresholds: seq<real>, d: nat)
    requires |ratios| == ClassCount && |thresholds| == ClassCount && 1 <= d <= DigitCount
    requires forall e :: 1 <= e < ClassCount ==> ratios[e] <= 1.0
    requires ratios[d] == 1.0 && thresholds[d] < 1.0
    requires forall e :: 1 <= e < d && Eligible(ratios, thresholds, e) ==> ratios[e] < 1.0
    ensures SelectUpTo(ratios, thresholds, DigitCount) == d
  {
    SelectUpToIsChoice(ratios, thresholds, DigitCount);
    assert Eligible(ratios, thresholds, d);
  }

  /** A cell carrying glyph n exactly at a placement the scan tries, that is
      not blank, is recognised as digit n + 1 whenever that digit's threshold
      is below 1 and no lower eligible digit also matches perfectly. */
  lemma ExactGlyphIsRecognised(cell: seq<byte>, width: nat, height: nat, digits: seq<seq<int16>>, thresholds: seq<real>,
                               n: nat, i0: nat, j0: nat)
    requires WellFormed(cell, width, height) && TableShape(digits) && |thresholds| == ClassCount
    requires n < DigitCount && Placement(width, height, i0, j0)
    requires WholeWindowAgrees(cell, width, height, digits, n, i0, j0)
    requires WhiteRatio(cell) <= thresholds[0] && thresholds[n + 1] < 1.0
    requires forall d :: 1 <= d <= n && Eligible(Ratios(cell, width, height, digits), thresholds, d) ==>
      Ratios(cell, width, height, digits)[d] < 1.0
    ensures Classify(cell, width, height, digits, thresholds).number == n + 1
  {
    var ratios := Ratios(cell, width, height, digits);
    EmbeddedDigitMatchesPerfectly(cell, width, height, digits, n, i0, j0);
    forall e | 1 <= e < ClassCount
      ensures ratios[e] <= 1.0
    {
      assert ratios[e] == DigitRatio(BestAgreement(cell, width, height, digits, e - 1));
    }
    PerfectRatioIsChosen(ratios, thresholds, n + 1);
  }

  /** The counting loop over the whole buffer (`pixelWhite`). */
  method CountWhite(cell: seq<byte>) returns (pixelWhite: nat)
    ensures pixelWhite == WhiteCount(cell)
  {
    pixelWhite := 0;
    var i := 0;
    while i < |cell|
      invariant 0 <= i <= |cell|
      invariant pixelWhite == WhiteCount(cell[..i])
    {
      assert cell[..i + 1][..i] == cell[..i];
      if cell[i] == 0 {
        pixelWhite := pixelWhite + 1;
      }
      i := i + 1;
    }
    assert cell[..|cell|] == cell;
  }

  /** The loop over digits 1 .. 9 after the scan: each digit's ratio is its
      best agreement over the template area, and its `possibleNum` flag is
      set when that ratio is strictly above its threshold. */
  method RateDigits(digitPixelId: array<int>, thresholds: seq<real>, ratio: array<real>, possibleNum: array<int>)
    requires digitPixelId.Length == DigitCount && ratio.Length == ClassCount && possibleNum.Length == DigitCount
    requires |thresholds| == ClassCount && possibleNum != digitPixelId
    requires forall k :: 0 <= k < DigitCount ==> possibleNum[k] == 0
    modifies ratio, possibleNum
    ensures ratio[0] == old(ratio[0])
    ensures forall k :: 0 <= k < DigitCount ==> ratio[k + 1] == digitPixelId[k] as real / TemplateArea as real
    ensures forall k :: 0 <= k < DigitCount ==> possibleNum[k] == if ratio[k + 1] > thresholds[k + 1] then 1 else 0
  {
    var i := 1;
    while i < ClassCount
      invariant 1 <= i <= ClassCount
      invariant ratio[0] == old(ratio[0])
      invariant forall k :: 0 <= k < i - 1 ==> ratio[k + 1] == digitPixelId[k] as real / TemplateArea as real
      invariant forall k :: 0 <= k < i - 1 ==> possibleNum[k] == if ratio[k + 1] > thresholds[k + 1] then 1 else 0
      invariant forall k :: i - 1 <= k < DigitCount ==> possibleNum[k] == 0
    {
      ratio[i] := digitPixelId[i - 1] as real / TemplateArea as real;
      if ratio[i] > thresholds[i] {
        possibleNum[i - 1] := 1;
      }
      i := i + 1;
    }
  }

  /** The selection loop: `sumJ` counts the eligible digits seen so far,
      the first one sets `analysedNumb`, and a later one replaces it only
      with a strictly higher ratio; with none eligible the result is 0. */
  method SelectDigit(ratio: array<real>, possibleNum: array<int>, thresholds: seq<real>) returns (analysedNumb: nat)
    requires ratio.Length == ClassCount && possibleNum.Length == DigitCount && |thresholds| == ClassCount
    requires forall k :: 0 <= k < DigitCount ==> possibleNum[k] == if Eligible(ratio[..], thresholds, k + 1) then 1 else 0
    ensures analysedNumb == SelectUpTo(ratio[..], thresholds, DigitCount)
  {
    var sumJ := 0;
    analysedNumb := 0;
    var j := 0;
    while j < DigitCount
      invariant 0 <= j <= DigitCount
      invariant analysedNumb == SelectUpTo(ratio[..], thresholds, j)
      invariant sumJ >= 0 && (sumJ == 0 <==> analysedNumb == 0)
    {
      sumJ := sumJ + possibleNum[j];
      if sumJ == 1 && possibleNum[j] == 1 {
        analysedNumb := j + 1;
      }
      if possibleNum[j] == 1 && ratio[j + 1] > ratio[analysedNumb] {
        analysedNumb := j + 1;
      }
      j := j + 1;
    }
    if sumJ == 0 {
      analysedNumb := 0;
    }
  }

  /** The analysis part of the program: the white count, the blank test,
      the scan, the ratios and eligibility flags, and the selection. */
  method Analyse(cell: seq<byte>, width: nat, height: nat, digits: seq<seq<int16>>, thresholds: seq<real>)
    returns (analysedNumb: nat, confidence: real)
    requires WellFormed(cell, width, height) && TableShape(digits) && |thresholds| == ClassCount
    ensures Classification(analysedNumb, confidence) == Classify(cell, width, height, digits, thresholds)
  {
    var size := width * height;
    var ratio := new real[ClassCount](_ => 0.0);
    var pixelWhite := CountWhite(cell);
    ratio[0] := pixelWhite as real / size as real;
    if ratio[0] > thresholds[0] {
      return 0, ratio[0];
    }

    var digitPixelId := new int[DigitCount](_ => 0);
    ScanDigits(cell, width, height, digits, digitPixelId);
    var possibleNum := new int[DigitCount](_ => 0);
    RateDigits(digitPixelId, thresholds, ratio, possibleNum);
    ghost var ratios := Ratios(cell, width, height, digits);
    forall d | 1 <= d < ClassCount
      ensures ratio[d] == ratios[d]
    {
      assert ratio[d] == digitPixelId[d - 1] as real / TemplateArea as real;
    }
    assert ratio[..] == ratios;

    analysedNumb := SelectDigit(ratio, possibleNum, thresholds);
    confidence := ratio[analysedNumb];
  }

  // ---- The whole recognition ----

  /** A threshold the program accepts: not rejected by the range test,
      hence a positive fraction of at most one. */
  predicate ThresholdInBounds(t: real): (b: bool)
    ensures b <==> !(t > MaxThreshold || t < MinThreshold)
    ensures b ==> 0.0 < t <= 1.0
  {
    MinThreshold <= t <= MaxThreshold
  }

  /** The program from the cell's dimensions, its pixels and the threshold
      parameters (already divided by 100) to the result: the parameter
      count, the size check, the pixel count and the threshold range check,
      in that order, then the analysis with the built-in glyphs. */
  method Recognise(width: nat, height: nat, pixels: seq<byte>, thresholds: seq<real>) returns (r: Result<Classification>)
    ensures r.Ok? <==>
      && |thresholds| == ClassCount
      && CheckSizeCell(width, height) == SizeOk
      && |pixels| == width * height
      && forall k :: 0 <= k < |thresholds| ==> ThresholdInBounds(thresholds[k])
    ensures r == Err(WrongParameterCount) <==> |thresholds| != ClassCount
    ensures r == Err(WidthOutOfRange) <==>
      |thresholds| == ClassCount && CheckSizeCell(width, height) == IncorrectWidth
    ensures r == Err(HeightOutOfRange) <==>
      |thresholds| == ClassCount && CheckSizeCell(width, height) == IncorrectHeight
    ensures r == Err(NotEnoughPixels) <==>
      |thresholds| == ClassCount && CheckSizeCell(width, height) == SizeOk && |pixels| < width * height
    ensures r == Err(TooManyPixels) <==>
      |thresholds| == ClassCount && CheckSizeCell(width, height) == SizeOk && |pixels| > width * height
    ensures r.Err? && r.error.ThresholdOutOfBoundary? ==>
      && r.error.index < |thresholds|
      && !ThresholdInBounds(thresholds[r.error.index])
      && forall k :: 0 <= k < r.error.index ==> ThresholdInBounds(thresholds[k])
    ensures r.Ok? ==> r.value == Classify(pixels, width, height, DigitBitmap, thresholds)
  {
    if |thresholds| != ClassCount {
      return Err(WrongParameterCount);
    }
    match CheckSizeCell(width, height)
    case IncorrectWidth => return Err(WidthOutOfRange);
    case IncorrectHeight => return Err(HeightOutOfRange);
    case SizeOk =>
    var size := width * height;
    if |pixels| < size {
      return Err(NotEnoughPixels);
    }
    if |pixels| > size {
      return Err(TooManyPixels);
    }
    var i := 0;
    while i < ClassCount
      invariant 0 <= i <= ClassCount
      invariant forall k :: 0 <= k < i ==> ThresholdInBounds(thresholds[k])
    {
      if thresholds[i] > MaxThreshold || thresholds[i] < MinThreshold {
        return Err(ThresholdOutOfBoundary(i));
      }
      i := i + 1;
    }
    DigitBitmapShape();
    var number, confidence := Analyse(pixels, width, height, DigitBitmap, thresholds);
    return Ok(Classification(number, confidence));
  }
}
