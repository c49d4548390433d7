/** Terminal cells: the characters and graphic rendition a screen grid holds. */
module Grid {
  import opened Text

  datatype Style = Style(bold: bool, dim: bool, italics: bool, underscore: bool, blink: bool,
                         strikethrough: bool, reverse: bool, fg: string, bg: string)

  datatype Cell = Cell(data: string, style: Style)

  type Row = seq<Cell>

  const PLAIN: Style := Style(false, false, false, false, false, false, false, "default", "default")
  const BLANK: Cell := Cell(" ", PLAIN)

  function RowText(row: Row): string {
    if row == [] then [] else row[0].data + RowText(row[1..])
  }

  /** The characters of a grid in row-major order, styles and row ends forgotten. */
  function GridText(grid: seq<Row>): string {
    if grid == [] then [] else RowText(grid[0]) + GridText(grid[1..])
  }

  lemma {:induction false} RowTextConcat(a: Row, b: Row)
    ensures RowText(a + b) == RowText(a) + RowText(b)
  {
    if a == [] {
      assert a + b == b;
    } else {
      assert (a + b)[1..] == a[1..] + b;
      RowTextConcat(a[1..], b);
    }
  }

  /** No cell holds an escape character: the emulator consumes escapes, it never draws them. */
  predicate NoEscapes(row: Row) {
    forall c :: 0 <= c < |row| ==> ESC !in row[c].data
  }

  // ---- Wide glyphs ------------------------------------------------------------------------------

  /** `width` is `wcwidth`; a cell's width is the width of its first character. */
  predicate Wide(cell: Cell, width: char -> int) {
    cell.data != [] && width(cell.data[0]) == 2
  }

  /** The continuation to the right of a wide glyph: empty, in the glyph's own style. */
  predicate IsContinuation(row: Row, c: nat, width: char -> int)
    requires c < |row|
  {
    c > 0 && Wide(row[c - 1], width) && row[c].data == [] && row[c].style == row[c - 1].style
  }

  /** A printing character and the zero-width marks composed with it. */
  predicate IsGlyph(row: Row, c: nat, width: char -> int)
    requires c < |row|
  {
    var data := row[c].data;
    data != [] && (width(data[0]) == 1 || width(data[0]) == 2)
    && (forall i :: 1 <= i < |data| ==> width(data[i]) == 0)
    && (Wide(row[c], width) && c + 1 < |row| ==> |data| == 1)
  }

  /** Every wide glyph short of the last column is followed by its continuation, and every
      continuation sits to the right of a wide glyph. */
  predicate WellFormed(row: Row, width: char -> int) {
    forall c :: 0 <= c < |row| ==>
      if c > 0 && Wide(row[c - 1], width) then IsContinuation(row, c, width) else IsGlyph(row, c, width)
  }
}
