/** The cell being recognised: a row-major buffer of bytes with its width and
    height, the size check that guards the analysis, and pixel lookup. */
module Cell {

  /** One pixel of the cell buffer, an `unsigned char`. */
  newtype byte = x: int | 0 <= x < 256

  const MinWidth: nat := 16
  const MaxWidth: nat := 100
  const MinHeight: nat := 24
  const MaxHeight: nat := 100

  /** Outcome of the size check: either the analysis may go on, or the
      program stops with the message about the first bad dimension. */
  datatype SizeCheck = SizeOk | IncorrectWidth | IncorrectHeight

  /** `CheckSizeCell`: the width is checked before the height; the program
      goes on only when both lie in their accepted ranges. */
  function CheckSizeCell(width: int, height: int): (r: SizeCheck)
    ensures r == SizeOk <==> MinWidth <= width <= MaxWidth && MinHeight <= height <= MaxHeight
    ensures r == IncorrectWidth <==> width < MinWidth || width > MaxWidth
    ensures r == IncorrectHeight ==> MinWidth <= width <= MaxWidth
  {
    if width < MinWidth || width > MaxWidth then IncorrectWidth
    else if height < MinHeight || height > MaxHeight then IncorrectHeight
    else SizeOk
  }

  /** A buffer the analysis may run on: accepted dimensions and exactly
      `width * height` pixels. */
  predicate WellFormed(cell: seq<byte>, width: nat, height: nat)
  {
    CheckSizeCell(width, height) == SizeOk && |cell| == width * height
  }

  /** Index of the first pixel of row `line` in a row-major buffer: one
      `width` per row above it, that is `line * width` (`RowOffsetIsProduct`). */
  function RowOffset(width: nat, line: nat): nat
  {
    if line == 0 then 0 else RowOffset(width, line - 1) + width
  }

  lemma {:induction false} RowOffsetIsProduct(width: nat, line: nat)
    ensures RowOffset(width, line) == line * width
  {
    if line > 0 {
      RowOffsetIsProduct(width, line - 1);
    }
  }

  /** `GetCellBit`: the pixel at (line, col) of a row-major buffer, at
      index `line * width + col`. */
  function GetCellBit(cell: seq<byte>, width: nat, line: nat, col: nat): (p: byte)
    requires RowOffset(width, line) + col < |cell|
    ensures line * width + col < |cell| && p == cell[line * width + col]
  {
    RowOffsetIsProduct(width, line);
    cell[RowOffset(width, line) + col]
  }

  /** Every in-range (line, col) of a `width * height` buffer maps to an
      index inside the buffer. */
  lemma CellIndexInRange(width: nat, height: nat, line: nat, col: nat)
    requires line < height && col < width
    ensures RowOffset(width, line) + col < width * height
  {
    RowOffsetIsProduct(width, height);
    RowOffsetGrows(width, line, height);
  }

  lemma {:induction false} RowOffsetGrows(width: nat, line: nat, height: nat)
    requires line < height
    ensures RowOffset(width, line) + width <= RowOffset(width, height)
  {
    if line + 1 < height {
      RowOffsetGrows(width, line, height - 1);
    }
  }

  /** Concatenation of the rows of a picture, top row first. */
  function Flatten(rows: seq<seq<byte>>): seq<byte>
  {
    if rows == [] then [] else rows[0] + Flatten(rows[1..])
  }

  /** The buffer is row-major: flattening a picture of `height` rows of
      `width` pixels gives a `width * height` buffer in which `GetCellBit`
      reads back the pixel of row `line`, column `col`. */
  lemma {:induction false} GetCellBitRowMajor(rows: seq<seq<byte>>, width: nat, line: nat, col: nat)
    requires forall r :: 0 <= r < |rows| ==> |rows[r]| == width
    requires line < |rows| && col < width
    ensures |Flatten(rows)| == width * |rows|
    ensures RowOffset(width, line) + col < |Flatten(rows)|
    ensures GetCellBit(Flatten(rows), width, line, col) == rows[line][col]
  {
    FlattenLength(rows, width);
    CellIndexInRange(width, |rows|, line, col);
    if line > 0 {
      GetCellBitRowMajor(rows[1..], width, line - 1, col);
    }
  }

  lemma {:induction false} FlattenLength(rows: seq<seq<byte>>, width: nat)
    requires forall r :: 0 <= r < |rows| ==> |rows[r]| == width
    ensures |Flatten(rows)| == width * |rows|
  {
    if rows != [] {
      FlattenLength(rows[1..], width);
    }
  }
}
