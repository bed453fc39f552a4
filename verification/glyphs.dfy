/**
 * The rasterized glyph of a character and its ink count
 * (SubImgCharMatcher.getCharVal). The rasterizer itself is a parameter:
 * a deterministic map from a code unit to a 16 x 16 grid of ink cells.
 */
module Glyphs {
  import opened CodeUnits

  const CONVERTED_ROWS: nat := 16
  const CONVERTED_COLS: nat := 16
  /** Number of cells of a glyph grid (NUM_OF_BOOLEAN_VALUES). */
  const NUM_OF_BOOLEAN_VALUES: nat := 256

  ghost predicate IsGlyphGrid(b: seq<seq<bool>>)
  {
    |b| == CONVERTED_ROWS && forall r :: 0 <= r < |b| ==> |b[r]| == CONVERTED_COLS
  }

  /** A rendered glyph: 16 rows of 16 cells, true where there is ink. */
  type Bitmap = b: seq<seq<bool>> | IsGlyphGrid(b)
    witness seq(16, _ => seq(16, _ => false))

  /** The rasterizer, CharConverter.convertToBoolArray, which is not part of this model. */
  type Rasterizer = CodeUnit -> Bitmap

  /** Number of inked cells of a row. */
  function CountRow(row: seq<bool>): nat
  {
    if row == [] then 0
    else CountRow(row[..|row| - 1]) + (if row[|row| - 1] then 1 else 0)
  }

  /** Number of inked cells of a grid, row by row. */
  function CountInk(rows: seq<seq<bool>>): nat
  {
    if rows == [] then 0
    else CountInk(rows[..|rows| - 1]) + CountRow(rows[|rows| - 1])
  }

  lemma {:induction false} CountRowBound(row: seq<bool>)
    ensures CountRow(row) <= |row|
  {
    if row != [] {
      CountRowBound(row[..|row| - 1]);
    }
  }

  lemma {:induction false} CountInkBound(rows: seq<seq<bool>>, width: nat)
    requires forall r :: 0 <= r < |rows| ==> |rows[r]| == width
    ensures CountInk(rows) <= |rows| * width
  {
    if rows != [] {
      CountInkBound(rows[..|rows| - 1], width);
      CountRowBound(rows[|rows| - 1]);
    }
  }

  /** The ink count of a character: the number of set cells of its 16 x 16 glyph, at most 256. */
  function Ink(render: Rasterizer, c: CodeUnit): (n: nat)
    ensures n <= NUM_OF_BOOLEAN_VALUES
  {
    var b := render(c);
    CountInkBound(b, CONVERTED_COLS);
    CountInk(b)
  }

  /**
   * getCharVal: renders c and counts the true cells of the 16 x 16 grid,
   * row by row and left to right.
   */
  method GetCharVal(render: Rasterizer, c: CodeUnit) returns (count: nat)
    ensures count == Ink(render, c)
    ensures count <= NUM_OF_BOOLEAN_VALUES
  {
    var converted := render(c);
    count := 0;
    var j := 0;
    while j < CONVERTED_ROWS
      invariant 0 <= j <= CONVERTED_ROWS
      invariant count == CountInk(converted[..j])
    {
      var k := 0;
      while k < CONVERTED_COLS
        invariant 0 <= k <= CONVERTED_COLS
        invariant count == CountInk(converted[..j]) + CountRow(converted[j][..k])
      {
        assert converted[j][..k + 1][..k] == converted[j][..k];
        if converted[j][k] {
          count := count + 1;
        }
        k := k + 1;
      }
      assert converted[j][..k] == converted[j];
      assert converted[..j + 1][..j] == converted[..j];
      j := j + 1;
    }
    assert converted[..j] == converted;
  }
}
