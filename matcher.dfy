/** The sliding-window matcher: every glyph is laid over every window
    placement the scan tries, and the best number of agreeing pixels is kept
    per digit. */
module Matcher {
  import opened Cell
  import opened Templates

  /** 24 * 16 template pixels. */
  const TemplateArea: nat := 384

  function Max(a: nat, b: nat): nat
  {
    if a < b then b else a
  }

  /** A top-left corner the scan tries. The bounds are strict: a window flush
      with the bottom or right edge of the cell is never tried. */
  predicate Placement(width: nat, height: nat, i: nat, j: nat): (b: bool)
    ensures b <==> i + DigitBitmapHeight <= height - 1 && j + DigitBitmapWidth <= width - 1
  {
    i < height - DigitBitmapHeight && j < width - DigitBitmapWidth
  }

  /** The cell pixel under template position (x, y) of the window at (i, j)
      equals the template bit, compared as integers: a pixel byte other
      than 0 or 1 agrees with nothing. */
  predicate Agrees(cell: seq<byte>, width: nat, height: nat, digits: seq<seq<int16>>, n: nat, i: nat, j: nat, x: nat, y: nat): (b: bool)
    requires |cell| == width * height && TableShape(digits) && n < DigitCount
    requires Placement(width, height, i, j) && x < DigitBitmapHeight && y < DigitBitmapWidth
    ensures RowOffset(width, i + x) + (j + y) < |cell|
    ensures b ==> GetCellBit(cell, width, i + x, j + y) <= 1
    ensures b <==> GetCellBit(cell, width, i + x, j + y) as int == MaskAndShift(Low16(digits[n][x]) as bv16, y)
  {
    GetDigitBitmapBitIsMaskAndShift(digits, x, y, n);
    CellIndexInRange(width, height, i + x, j + y);
    GetCellBit(cell, width, i + x, j + y) as int == GetDigitBitmapBit(digits, x, y, n)
  }

  /** Agreeing positions among columns 0 .. k-1 of template row x. */
  function RowAgreement(cell: seq<byte>, width: nat, height: nat, digits: seq<seq<int16>>, n: nat, i: nat, j: nat, x: nat, k: nat): (c: nat)
    requires |cell| == width * height && TableShape(digits) && n < DigitCount
    requires Placement(width, height, i, j) && x < DigitBitmapHeight && k <= DigitBitmapWidth
    ensures c <= k
  {
    if k == 0 then 0
    else RowAgreement(cell, width, height, digits, n, i, j, x, k - 1) + (if Agrees(cell, width, height, digits, n, i, j, x, k - 1) then 1 else 0)
  }

  /** Agreeing positions among template rows 0 .. k-1. */
  function RowsAgreement(cell: seq<byte>, width: nat, height: nat, digits: seq<seq<int16>>, n: nat, i: nat, j: nat, k: nat): (c: nat)
    requires |cell| == width * height && TableShape(digits) && n < DigitCount
    requires Placement(width, height, i, j) && k <= DigitBitmapHeight
    ensures c <= k * DigitBitmapWidth
  {
    if k == 0 then 0
    else RowsAgreement(cell, width, height, digits, n, i, j, k - 1) + RowAgreement(cell, width, height, digits, n, i, j, k - 1, DigitBitmapWidth)
  }

  /** `pixelIdCount` for glyph n at placement (i, j): the number of the 384
      template positions whose cell pixel agrees. */
  function WindowAgreement(cell: seq<byte>, width: nat, height: nat, digits: seq<seq<int16>>, n: nat, i: nat, j: nat): (c: nat)
    requires |cell| == width * height && TableShape(digits) && n < DigitCount && Placement(width, height, i, j)
    ensures c <= TemplateArea
  {
    RowsAgreement(cell, width, height, digits, n, i, j, DigitBitmapHeight)
  }

  /** The best window agreement over the placements (i, 0) .. (i, k-1) of
      one row of placements, 0 when there are none. */
  function BestInRow(cell: seq<byte>, width: nat, height: nat, digits: seq<seq<int16>>, n: nat, i: nat, k: nat): (r: nat)
    requires WellFormed(cell, width, height) && TableShape(digits) && n < DigitCount
    requires i < height - DigitBitmapHeight && k <= width - DigitBitmapWidth
    ensures r <= TemplateArea
  {
    if k == 0 then 0
    else Max(BestInRow(cell, width, height, digits, n, i, k - 1), WindowAgreement(cell, width, height, digits, n, i, k - 1))
  }

  /** The best window agreement over the placement rows 0 .. k-1. */
  function BestInRows(cell: seq<byte>, width: nat, height: nat, digits: seq<seq<int16>>, n: nat, k: nat): (r: nat)
    requires WellFormed(cell, width, height) && TableShape(digits) && n < DigitCount
    requires k <= height - DigitBitmapHeight
    ensures r <= TemplateArea
  {
    if k == 0 then 0
    else Max(BestInRows(cell, width, height, digits, n, k - 1), BestInRow(cell, width, height, digits, n, k - 1, width - DigitBitmapWidth))
  }

  /** `BestInRow` is the maximum over its placements, and is reached by one
      of them when there is any. */
  lemma {:induction false} BestInRowIsMaximum(cell: seq<byte>, width: nat, height: nat, digits: seq<seq<int16>>, n: nat, i: nat, k: nat)
    requires WellFormed(cell, width, height) && TableShape(digits) && n < DigitCount
    requires i < height - DigitBitmapHeight && k <= width - DigitBitmapWidth
    ensures forall j :: 0 <= j < k ==> WindowAgreement(cell, width, height, digits, n, i, j) <= BestInRow(cell, width, height, digits, n, i, k)
    ensures k == 0 ==> BestInRow(cell, width, height, digits, n, i, k) == 0
    ensures k > 0 ==> exists j :: 0 <= j < k && WindowAgreement(cell, width, height, digits, n, i, j) == BestInRow(cell, width, height, digits, n, i, k)
  {
    if k > 0 {
      BestInRowIsMaximum(cell, width, height, digits, n, i, k - 1);
    }
  }

  /** `BestInRows` is the maximum over the placements of its rows, and is
      reached by one of them when there is any. */
  lemma {:induction false} BestInRowsIsMaximum(cell: seq<byte>, width: nat, height: nat, digits: seq<seq<int16>>, n: nat, k: nat)
    requires WellFormed(cell, width, height) && TableShape(digits) && n < DigitCount
    requires k <= height - DigitBitmapHeight
    ensures forall i, j :: 0 <= i < k && 0 <= j < width - DigitBitmapWidth ==>
      WindowAgreement(cell, width, height, digits, n, i, j) <= BestInRows(cell, width, height, digits, n, k)
    ensures k == 0 || width == DigitBitmapWidth ==> BestInRows(cell, width, height, digits, n, k) == 0
    ensures k > 0 && width > DigitBitmapWidth ==>
      exists i, j :: 0 <= i < k && 0 <= j < width - DigitBitmapWidth && WindowAgreement(cell, width, height, digits, n, i, j) == BestInRows(cell, width, height, digits, n, k)
  {
    if k > 0 {
      BestInRowsIsMaximum(cell, width, height, digits, n, k - 1);
      BestInRowIsMaximum(cell, width, height, digits, n, k - 1, width - DigitBitmapWidth);
    }
  }

  /** `digitPixelId[n]`: the best agreement of glyph n over every placement
      the scan tries. It is the maximum over those placements, lies in
      0 .. 384, and is 0 when the cell is only as high or as wide as the
      template, since then no placement is tried. */
  function BestAgreement(cell: seq<byte>, width: nat, height: nat, digits: seq<seq<int16>>, n: nat): (r: nat)
    requires WellFormed(cell, width, height) && TableShape(digits) && n < DigitCount
    ensures r <= TemplateArea
    ensures forall i, j :: Placement(width, height, i, j) ==> WindowAgreement(cell, width, height, digits, n, i, j) <= r
    ensures (exists i, j :: Placement(width, height, i, j)) ==>
      exists i, j :: Placement(width, height, i, j) && WindowAgreement(cell, width, height, digits, n, i, j) == r
    ensures height == DigitBitmapHeight || width == DigitBitmapWidth ==> r == 0
  {
    BestInRowsIsMaximum(cell, width, height, digits, n, height - DigitBitmapHeight);
    BestInRows(cell, width, height, digits, n, height - DigitBitmapHeight)
  }

  /** One agreeing position more: the step the y loop takes. */
  lemma RowAgreementStep(cell: seq<byte>, width: nat, height: nat, digits: seq<seq<int16>>, n: nat, i: nat, j: nat, x: nat, y: nat)
    requires |cell| == width * height && TableShape(digits) && n < DigitCount
    requires Placement(width, height, i, j) && x < DigitBitmapHeight && y < DigitBitmapWidth
    ensures RowOffset(width, i + x) + (j + y) < |cell|
    ensures RowAgreement(cell, width, height, digits, n, i, j, x, y + 1) ==
      RowAgreement(cell, width, height, digits, n, i, j, x, y) +
      (if GetCellBit(cell, width, i + x, j + y) as int == GetDigitBitmapBit(digits, x, y, n) then 1 else 0)
  {
    CellIndexInRange(width, height, i + x, j + y);
  }

  /** The y loop of the scan: adds to the running `pixelIdCount` the
      agreeing positions of template row x at placement (i, j). */
  method CountRowAgreement(cell: seq<byte>, width: nat, height: nat, digits: seq<seq<int16>>, n: nat, i: nat, j: nat, x: nat,
                           pixelIdCount: nat)
    returns (count: nat)
    requires |cell| == width * height && TableShape(digits) && n < DigitCount && Placement(width, height, i, j)
    requires x < DigitBitmapHeight
    ensures count == pixelIdCount + RowAgreement(cell, width, height, digits, n, i, j, x, DigitBitmapWidth)
  {
    count := pixelIdCount;
    var y := 0;
    while y < DigitBitmapWidth
      invariant 0 <= y <= DigitBitmapWidth
      invariant count == pixelIdCount + RowAgreement(cell, width, height, digits, n, i, j, x, y)
    {
      RowAgreementStep(cell, width, height, digits, n, i, j, x, y);
      if GetCellBit(cell, width, i + x, j + y) as int == GetDigitBitmapBit(digits, x, y, n) {
        count := count + 1;
      }
      y := y + 1;
    }
  }

  /** The x and y loops of the scan: counts the agreeing pixels of glyph n
      at placement (i, j). */
  method CountAgreement(cell: seq<byte>, width: nat, height: nat, digits: seq<seq<int16>>, n: nat, i: nat, j: nat)
    returns (pixelIdCount: nat)
    requires |cell| == width * height && TableShape(digits) && n < DigitCount && Placement(width, height, i, j)
    ensures pixelIdCount == WindowAgreement(cell, width, height, digits, n, i, j)
  {
    pixelIdCount := 0;
    var x := 0;
    while x < DigitBitmapHeight
      invariant 0 <= x <= DigitBitmapHeight
      invariant pixelIdCount == RowsAgreement(cell, width, height, digits, n, i, j, x)
    {
      pixelIdCount := CountRowAgreement(cell, width, height, digits, n, i, j, x, pixelIdCount);
      x := x + 1;
    }
  }

  /** The j loop of the scan for glyph n and placement row i: raises
      `digitPixelId[n]` in place to at least every window agreement of that
      row, keeping the larger value; the other entries are left alone. */
  method ScanRow(cell: seq<byte>, width: nat, height: nat, digits: seq<seq<int16>>, n: nat, i: nat, digitPixelId: array<int>)
    requires WellFormed(cell, width, height) && TableShape(digits) && n < DigitCount
    requires i < height - DigitBitmapHeight
    requires digitPixelId.Length == DigitCount && digitPixelId[n] >= 0
    modifies digitPixelId
    ensures digitPixelId[n] == Max(old(digitPixelId[n]), BestInRow(cell, width, height, digits, n, i, width - DigitBitmapWidth))
    ensures forall k :: 0 <= k < DigitCount && k != n ==> digitPixelId[k] == old(digitPixelId[k])
  {
    var j := 0;
    while j < width - DigitBitmapWidth
      invariant 0 <= j <= width - DigitBitmapWidth
      invariant digitPixelId[n] == Max(old(digitPixelId[n]), BestInRow(cell, width, height, digits, n, i, j))
      invariant forall k :: 0 <= k < DigitCount && k != n ==> digitPixelId[k] == old(digitPixelId[k])
    {
      var pixelIdCount := CountAgreement(cell, width, height, digits, n, i, j);
      if pixelIdCount > digitPixelId[n] {
        digitPixelId[n] := pixelIdCount;
      }
      j := j + 1;
    }
  }

  /** The i and j loops of the scan for glyph n: `digitPixelId[n]`, zero on
      entry, is raised in place to the best agreement of that glyph; the
      other entries are left alone. */
  method ScanDigit(cell: seq<byte>, width: nat, height: nat, digits: seq<seq<int16>>, n: nat, digitPixelId: array<int>)
    requires WellFormed(cell, width, height) && TableShape(digits) && n < DigitCount
    requires digitPixelId.Length == DigitCount && digitPixelId[n] == 0
    modifies digitPixelId
    ensures digitPixelId[n] == BestAgreement(cell, width, height, digits, n)
    ensures forall k :: 0 <= k < DigitCount && k != n ==> digitPixelId[k] == old(digitPixelId[k])
  {
    var i := 0;
    while i < height - DigitBitmapHeight
      invariant 0 <= i <= height - DigitBitmapHeight
      invariant digitPixelId[n] == BestInRows(cell, width, height, digits, n, i)
      invariant forall k :: 0 <= k < DigitCount && k != n ==> digitPixelId[k] == old(digitPixelId[k])
    {
      ScanRow(cell, width, height, digits, n, i, digitPixelId);
      i := i + 1;
    }
  }

  /** The n loop of the scan: `digitPixelId`, zero on entry, ends holding
      the best agreement of every glyph. */
  method ScanDigits(cell: seq<byte>, width: nat, height: nat, digits: seq<seq<int16>>, digitPixelId: array<int>)
    requires WellFormed(cell, width, height) && TableShape(digits)
    requires digitPixelId.Length == DigitCount
    requires forall k :: 0 <= k < DigitCount ==> digitPixelId[k] == 0
    modifies digitPixelId
    ensures forall k :: 0 <= k < DigitCount ==> digitPixelId[k] == BestAgreement(cell, width, height, digits, k)
  {
    var n := 0;
    while n < DigitCount
      invariant 0 <= n <= DigitCount
      invariant forall k :: 0 <= k < n ==> digitPixelId[k] == BestAgreement(cell, width, height, digits, k)
      invariant forall k :: n <= k < DigitCount ==> digitPixelId[k] == 0
    {
      ScanDigit(cell, width, height, digits, n, digitPixelId);
      n := n + 1;
    }
  }

  // ---- What the agreement test lets through ----

  /** Zero bits among columns 0 .. k-1 of row x of glyph n. */
  function ZerosInRow(digits: seq<seq<int16>>, n: nat, x: nat, k: nat): (c: nat)
    requires TableShape(digits) && n < DigitCount && x < DigitBitmapHeight && k <= DigitBitmapWidth
    ensures c <= k
  {
    if k == 0 then 0 else ZerosInRow(digits, n, x, k - 1) + (if GetDigitBitmapBit(digits, x, k - 1, n) == 0 then 1 else 0)
  }

  /** Zero bits among rows 0 .. k-1 of glyph n. */
  function ZerosInRows(digits: seq<seq<int16>>, n: nat, k: nat): (c: nat)
    requires TableShape(digits) && n < DigitCount && k <= DigitBitmapHeight
    ensures c <= k * DigitBitmapWidth
  {
    if k == 0 then 0 else ZerosInRows(digits, n, k - 1) + ZerosInRow(digits, n, k - 1, DigitBitmapWidth)
  }

  lemma {:induction false} RowAgreementWithoutOnes(cell: seq<byte>, width: nat, height: nat, digits: seq<seq<int16>>, n: nat, i: nat, j: nat, x: nat, k: nat)
    requires |cell| == width * height && TableShape(digits) && n < DigitCount
    requires Placement(width, height, i, j) && x < DigitBitmapHeight && k <= DigitBitmapWidth
    requires forall p :: 0 <= p < |cell| ==> cell[p] != 1
    ensures RowAgreement(cell, width, height, digits, n, i, j, x, k) <= ZerosInRow(digits, n, x, k)
  {
    if k > 0 {
      RowAgreementWithoutOnes(cell, width, height, digits, n, i, j, x, k - 1);
      CellIndexInRange(width, height, i + x, j + k - 1);
    }
  }

  /** Ink must be stored as exactly 1: in a cell with no pixel equal to 1
      (ink written as 255, say) a window agrees with a glyph at most on the
      glyph's background bits. */
  lemma {:induction false} AgreementWithoutOnes(cell: seq<byte>, width: nat, height: nat, digits: seq<seq<int16>>, n: nat, i: nat, j: nat, k: nat)
    requires |cell| == width * height && TableShape(digits) && n < DigitCount
    requires Placement(width, height, i, j) && k <= DigitBitmapHeight
    requires forall p :: 0 <= p < |cell| ==> cell[p] != 1
    ensures RowsAgreement(cell, width, height, digits, n, i, j, k) <= ZerosInRows(digits, n, k)
  {
    if k > 0 {
      AgreementWithoutOnes(cell, width, height, digits, n, i, j, k - 1);
      RowAgreementWithoutOnes(cell, width, height, digits, n, i, j, k - 1, DigitBitmapWidth);
    }
  }

  lemma {:induction false} RowAgreementNonBinary(cell: seq<byte>, width: nat, height: nat, digits: seq<seq<int16>>, n: nat, i: nat, j: nat, x: nat, k: nat)
    requires |cell| == width * height && TableShape(digits) && n < DigitCount
    requires Placement(width, height, i, j) && x < DigitBitmapHeight && k <= DigitBitmapWidth
    requires forall p :: 0 <= p < |cell| ==> cell[p] > 1
    ensures RowAgreement(cell, width, height, digits, n, i, j, x, k) == 0
  {
    if k > 0 {
      RowAgreementNonBinary(cell, width, height, digits, n, i, j, x, k - 1);
      CellIndexInRange(width, height, i + x, j + k - 1);
    }
  }

  lemma {:induction false} RowsAgreementNonBinary(cell: seq<byte>, width: nat, height: nat, digits: seq<seq<int16>>, n: nat, i: nat, j: nat, k: nat)
    requires |cell| == width * height && TableShape(digits) && n < DigitCount
    requires Placement(width, height, i, j) && k <= DigitBitmapHeight
    requires forall p :: 0 <= p < |cell| ==> cell[p] > 1
    ensures RowsAgreement(cell, width, height, digits, n, i, j, k) == 0
  {
    if k > 0 {
      RowsAgreementNonBinary(cell, width, height, digits, n, i, j, k - 1);
      RowAgreementNonBinary(cell, width, height, digits, n, i, j, k - 1, DigitBitmapWidth);
    }
  }

  /** Pixel bytes from 2 to 255 agree with no template bit: a cell made only
      of such bytes has best agreement 0 with every glyph. */
  lemma NonBinaryCellMatchesNothing(cell: seq<byte>, width: nat, height: nat, digits: seq<seq<int16>>, n: nat)
    requires WellFormed(cell, width, height) && TableShape(digits) && n < DigitCount
    requires forall p :: 0 <= p < |cell| ==> cell[p] > 1
    ensures BestAgreement(cell, width, height, digits, n) == 0
  {
    if exists i, j :: Placement(width, height, i, j) {
      var i, j :| Placement(width, height, i, j) && WindowAgreement(cell, width, height, digits, n, i, j) == BestAgreement(cell, width, height, digits, n);
      RowsAgreementNonBinary(cell, width, height, digits, n, i, j, DigitBitmapHeight);
    }
  }

  // ---- The last row and the last column are never read ----

  /** Two cells that differ at most in their last row and last column. */
  predicate SameBarLastRowAndColumn(c1: seq<byte>, c2: seq<byte>, width: nat, height: nat)
    requires |c1| == width * height && |c2| == width * height
  {
    forall line, col :: 0 <= line < height - 1 && 0 <= col < width - 1 && RowOffset(width, line) + col < width * height ==>
      GetCellBit(c1, width, line, col) == GetCellBit(c2, width, line, col)
  }

  lemma {:induction false} RowAgreementIgnoresEdge(c1: seq<byte>, c2: seq<byte>, width: nat, height: nat, digits: seq<seq<int16>>, n: nat, i: nat, j: nat, x: nat, k: nat)
    requires |c1| == width * height && |c2| == width * height && TableShape(digits) && n < DigitCount
    requires Placement(width, height, i, j) && x < DigitBitmapHeight && k <= DigitBitmapWidth
    requires SameBarLastRowAndColumn(c1, c2, width, height)
    ensures RowAgreement(c1, width, height, digits, n, i, j, x, k) == RowAgreement(c2, width, height, digits, n, i, j, x, k)
  {
    if k > 0 {
      RowAgreementIgnoresEdge(c1, c2, width, height, digits, n, i, j, x, k - 1);
      CellIndexInRange(width, height, i + x, j + k - 1);
    }
  }

  lemma {:induction false} RowsAgreementIgnoresEdge(c1: seq<byte>, c2: seq<byte>, width: nat, height: nat, digits: seq<seq<int16>>, n: nat, i: nat, j: nat, k: nat)
    requires |c1| == width * height && |c2| == width * height && TableShape(digits) && n < DigitCount
    requires Placement(width, height, i, j) && k <= DigitBitmapHeight
    requires SameBarLastRowAndColumn(c1, c2, width, height)
    ensures RowsAgreement(c1, width, height, digits, n, i, j, k) == RowsAgreement(c2, width, height, digits, n, i, j, k)
  {
    if k > 0 {
      RowsAgreementIgnoresEdge(c1, c2, width, height, digits, n, i, j, k - 1);
      RowAgreementIgnoresEdge(c1, c2, width, height, digits, n, i, j, k - 1, DigitBitmapWidth);
    }
  }

  lemma {:induction false} BestInRowIgnoresEdge(c1: seq<byte>, c2: seq<byte>, width: nat, height: nat, digits: seq<seq<int16>>, n: nat, i: nat, k: nat)
    requires WellFormed(c1, width, height) && WellFormed(c2, width, height) && TableShape(digits) && n < DigitCount
    requires i < height - DigitBitmapHeight && k <= width - DigitBitmapWidth
    requires SameBarLastRowAndColumn(c1, c2, width, height)
    ensures BestInRow(c1, width, height, digits, n, i, k) == BestInRow(c2, width, height, digits, n, i, k)
  {
    if k > 0 {
      BestInRowIgnoresEdge(c1, c2, width, height, digits, n, i, k - 1);
      RowsAgreementIgnoresEdge(c1, c2, width, height, digits, n, i, k - 1, DigitBitmapHeight);
    }
  }

  lemma {:induction false} BestInRowsIgnoresEdge(c1: seq<byte>, c2: seq<byte>, width: nat, height: nat, digits: seq<seq<int16>>, n: nat, k: nat)
    requires WellFormed(c1, width, height) && WellFormed(c2, width, height) && TableShape(digits) && n < DigitCount
    requires k <= height - DigitBitmapHeight
    requires SameBarLastRowAndColumn(c1, c2, width, height)
    ensures BestInRows(c1, width, height, digits, n, k) == BestInRows(c2, width, height, digits, n, k)
  {
    if k > 0 {
      BestInRowsIgnoresEdge(c1, c2, width, height, digits, n, k - 1);
      BestInRowIgnoresEdge(c1, c2, width, height, digits, n, k - 1, width - DigitBitmapWidth);
    }
  }

  /** Because of the strict scan bounds, the bottom row and the rightmost
      column of the cell never take part in any comparison: two cells that
      differ only there get the same best agreement for every glyph. */
  lemma LastRowAndColumnIgnored(c1: seq<byte>, c2: seq<byte>, width: nat, height: nat, digits: seq<seq<int16>>, n: nat)
    requires WellFormed(c1, width, height) && WellFormed(c2, width, height) && TableShape(digits) && n < DigitCount
    requires SameBarLastRowAndColumn(c1, c2, width, height)
    ensures BestAgreement(c1, width, height, digits, n) == BestAgreement(c2, width, height, digits, n)
  {
    BestInRowsIgnoresEdge(c1, c2, width, height, digits, n, height - DigitBitmapHeight);
  }

  // ---- A glyph present in the cell ----

  /** Every one of the 384 positions of the window at (i0, j0) agrees:
      the cell holds an exact copy of glyph n there. */
  predicate WholeWindowAgrees(cell: seq<byte>, width: nat, height: nat, digits: seq<seq<int16>>, n: nat, i0: nat, j0: nat)
    requires |cell| == width * height && TableShape(digits) && n < DigitCount && Placement(width, height, i0, j0)
  {
    forall x, y :: 0 <= x < DigitBitmapHeight && 0 <= y < DigitBitmapWidth ==> Agrees(cell, width, height, digits, n, i0, j0, x, y)
  }

  lemma {:induction false} FullRowAgreement(cell: seq<byte>, width: nat, height: nat, digits: seq<seq<int16>>, n: nat, i0: nat, j0: nat, x: nat, k: nat)
    requires |cell| == width * height && TableShape(digits) && n < DigitCount && Placement(width, height, i0, j0)
    requires x < DigitBitmapHeight && k <= DigitBitmapWidth
    requires WholeWindowAgrees(cell, width, height, digits, n, i0, j0)
    ensures RowAgreement(cell, width, height, digits, n, i0, j0, x, k) == k
  {
    if k > 0 {
      FullRowAgreement(cell, width, height, digits, n, i0, j0, x, k - 1);
    }
  }

  lemma {:induction false} FullRowsAgreement(cell: seq<byte>, width: nat, height: nat, digits: seq<seq<int16>>, n: nat, i0: nat, j0: nat, k: nat)
    requires |cell| == width * height && TableShape(digits) && n < DigitCount && Placement(width, height, i0, j0)
    requires k <= DigitBitmapHeight
    requires WholeWindowAgrees(cell, width, height, digits, n, i0, j0)
    ensures RowsAgreement(cell, width, height, digits, n, i0, j0, k) == k * DigitBitmapWidth
  {
    if k > 0 {
      FullRowsAgreement(cell, width, height, digits, n, i0, j0, k - 1);
      FullRowAgreement(cell, width, height, digits, n, i0, j0, k - 1, DigitBitmapWidth);
    }
  }

  /** A cell carrying glyph n exactly (no noise) at a placement the scan
      tries is matched perfectly: the best agreement of that glyph is 384,
      the largest possible. */
  lemma EmbeddedDigitMatchesPerfectly(cell: seq<byte>, width: nat, height: nat, digits: seq<seq<int16>>, n: nat, i0: nat, j0: nat)
    requires WellFormed(cell, width, height) && TableShape(digits) && n < DigitCount
    requires Placement(width, height, i0, j0)
    requires WholeWindowAgrees(cell, width, height, digits, n, i0, j0)
    ensures BestAgreement(cell, width, height, digits, n) == TemplateArea
  {
    FullRowsAgreement(cell, width, height, digits, n, i0, j0, DigitBitmapHeight);
  }
}
