/** The screen buffer's draw step in replace mode: a wide glyph occupies two cells, and an overwrite
    of either half first erases the whole pair. */
module DimScreens {
  import opened Text
  import opened Grid

  /** `wcwidth` and `unicodedata.combining`. */
  datatype Font = Font(width: char -> int, combining: char -> bool)

  /** What a screen holds; `x == columns` is the pending wrap. */
  datatype Screen = Screen(rows: seq<Row>, lines: nat, columns: nat, x: int, y: int, attrs: Style,
                           margins: Option<(nat, nat)>, autowrap: bool, reverseVideo: bool)
  {
    function Blank(): Cell { Cell(" ", PLAIN.(reverse := reverseVideo)) }

    function Top(): nat { if margins.Some? then margins.value.0 else 0 }

    function Bottom(): int { if margins.Some? then margins.value.1 else lines - 1 }

    /** The shape every screen has, whatever its cells hold. */
    predicate Shaped() {
      && lines > 0 && columns > 0 && |rows| == lines
      && (forall r :: 0 <= r < lines ==> |rows[r]| == columns)
      && 0 <= x <= columns && 0 <= y < lines
      && (margins.Some? ==> margins.value.0 < margins.value.1 < lines)
    }

    /** The wide-glyph invariant. */
    predicate Intact(width: char -> int) {
      Shaped() && forall r :: 0 <= r < lines ==> WellFormed(rows[r], width)
    }
  }

  /** A space is one cell wide, and no character is wider than two. */
  ghost predicate ValidFont(f: Font) {
    f.width(' ') == 1 && forall c: char :: f.width(c) <= 2
  }

  // ---- One row ----------------------------------------------------------------------------------

  /** `_clear_wide_cell_at` on its row: both halves of the pair under either half become blank. */
  function Unpair(row: Row, column: nat, blank: Cell, width: char -> int): (r: Row)
    requires column < |row|
    ensures |r| == |row|
  {
    var cell := row[column];
    if cell.data == [] && column > 0 && Wide(row[column - 1], width) then
      row[column - 1 := blank][column := blank]
    else if Wide(cell, width) && column + 1 < |row| && row[column + 1].data == [] then
      row[column := blank][column + 1 := blank]
    else row
  }

  /** The emulator's own write at a column, with a continuation where there is room for one. */
  function Write(row: Row, column: int, c: char, attrs: Style, width: char -> int): (r: Row)
    ensures |r| == |row|
  {
    var lead := if 0 <= column < |row| then row[column := Cell([c], attrs)] else row;
    if width(c) == 2 && 0 <= column + 1 < |row| then lead[column + 1 := Cell([], attrs)] else lead
  }

  // ---- The draw step ----------------------------------------------------------------------------

  function ClearedAt(s: Screen, row: int, column: int, width: char -> int): (t: Screen)
    requires s.Shaped()
    ensures t.Shaped() && t == s.(rows := t.rows)
  {
    if 0 <= row < s.lines && 0 <= column < s.columns then
      s.(rows := s.rows[row := Unpair(s.rows[row], column, s.Blank(), width)])
    else s
  }

  /** Where the next glyph lands, `None` when a scroll blanks its row first. */
  function Destination(s: Screen, width: int): Option<(int, int)>
    requires s.Shaped()
  {
    if s.x == s.columns then
      if s.autowrap then
        if s.y < s.Bottom() then Some((s.y + 1, 0))
        else if s.y > s.Bottom() then Some((s.Bottom(), 0))
        else None
      else Some((s.y, s.x - width))
    else Some((s.y, s.x))
  }

  /** Clears every pair under the columns `[from, end)` of a row. */
  function ClearSpan(s: Screen, row: int, from: int, end: int, width: char -> int): (t: Screen)
    requires s.Shaped()
    ensures t.Shaped() && t == s.(rows := t.rows)
    decreases end - from
  {
    if from >= end then s else ClearSpan(ClearedAt(s, row, from, width), row, from + 1, end, width)
  }

  function Min(a: int, b: int): int { if a < b then a else b }

  function Prepare(s: Screen, c: char, f: Font): (t: Screen)
    requires s.Shaped()
    ensures t.Shaped() && t == s.(rows := t.rows)
  {
    var w := f.width(c);
    var destination := Destination(s, w);
    if w > 0 && destination.Some? then
      var (row, column) := destination.value;
      ClearSpan(s, row, column, Min(column + w, s.columns), f.width)
    else s
  }

  /** The rows `[top, bottom]` move up by one and a blank row comes in below them. */
  function ScrollUp(rows: seq<Row>, top: nat, bottom: nat, blank: Row): (r: seq<Row>)
    requires top <= bottom < |rows|
    ensures |r| == |rows|
    ensures forall i :: 0 <= i < |rows| ==>
              r[i] == if i < top || i > bottom then rows[i] else if i < bottom then rows[i + 1] else blank
  {
    rows[..top] + rows[top + 1..bottom + 1] + [blank] + rows[bottom + 1..]
  }

  /** Carriage return and line feed: the bottom margin scrolls, a cursor below it is clamped to it. */
  function Wrap(s: Screen): (t: Screen)
    requires s.Shaped()
    ensures t.Shaped()
  {
    if s.y == s.Bottom() then
      s.(rows := ScrollUp(s.rows, s.Top(), s.Bottom(), seq(s.columns, i => s.Blank())), x := 0)
    else s.(x := 0, y := Min(s.y + 1, s.Bottom()))
  }

  /** The screen on which the emulator writes `c`: wrapped, or backed up from the right edge. */
  function Positioned(s: Screen, c: char, f: Font): (t: Screen)
    requires s.Shaped()
    ensures t.Shaped() || t == s.(x := s.columns - f.width(c))
    ensures |t.rows| == t.lines == s.lines && t.columns == s.columns && 0 <= t.y < t.lines
  {
    if s.x != s.columns then s
    else if s.autowrap then Wrap(s)
    else if f.width(c) > 0 then s.(x := s.columns - f.width(c))
    else s
  }

  /** The cell a zero-width mark joins: the one before the cursor, or the end of the row above. */
  function MarkTarget(s: Screen): Option<(int, int)> {
    if s.x > 0 then Some((s.y, s.x - 1))
    else if s.y > 0 then Some((s.y - 1, s.columns - 1))
    else None
  }

  function Mark(s: Screen, c: char): Screen
    requires s.Shaped()
  {
    match MarkTarget(s)
    case None => s
    case Some((row, column)) =>
      var cell := s.rows[row][column];
      s.(rows := s.rows[row := s.rows[row][column := cell.(data := cell.data + [c])]])
  }

  /** The emulator's write step for one character. */
  function Emit(s: Screen, c: char, f: Font): Screen
    requires s.Shaped()
  {
    var p := Positioned(s, c, f);
    var w := f.width(c);
    if w == 1 || w == 2 then
      p.(rows := p.rows[p.y := Write(p.rows[p.y], p.x, c, p.attrs, f.width)], x := Min(p.x + w, p.columns))
    else if w == 0 && f.combining(c) && p.Shaped() then Mark(p, c)
    else p
  }

  /** `DimScreen.draw` for one character outside insert mode. */
  function DrawChar(s: Screen, c: char, f: Font): Screen
    requires s.Shaped()
  {
    Emit(Prepare(s, c, f), c, f)
  }

  lemma DrawCharShaped(s: Screen, c: char, f: Font)
    requires s.Shaped() && ValidFont(f)
    ensures DrawChar(s, c, f).Shaped()
  {
    var t := Prepare(s, c, f);
    var p := Positioned(t, c, f);
    assert forall r :: 0 <= r < s.lines ==> |p.rows[r]| == s.columns;
  }

  // ---- The invariant, row by row ----------------------------------------------------------------

  /** The cell is no half of a two-cell pair. */
  predicate Solo(row: Row, c: nat, width: char -> int)
    requires c < |row|
  {
    !(c > 0 && Wide(row[c - 1], width)) && !(Wide(row[c], width) && c + 1 < |row|)
  }

  lemma UnpairKeeps(row: Row, column: nat, blank: Cell, width: char -> int)
    requires column < |row| && WellFormed(row, width)
    requires blank.data == " " && width(' ') == 1
    ensures var r := Unpair(row, column, blank, width);
            WellFormed(r, width) && Solo(r, column, width)
            && forall k :: 0 <= k < |row| && Solo(row, k, width) ==> Solo(r, k, width)
  {
    var r := Unpair(row, column, blank, width);
    forall k | 0 <= k < |r|
      ensures if k > 0 && Wide(r[k - 1], width) then IsContinuation(r, k, width) else IsGlyph(r, k, width)
    {
      assert if k > 0 && Wide(row[k - 1], width) then IsContinuation(row, k, width) else IsGlyph(row, k, width);
      if k > 0 {
        assert if k - 1 > 0 && Wide(row[k - 2], width) then IsContinuation(row, k - 1, width)
               else IsGlyph(row, k - 1, width);
      }
      if k + 1 < |row| {
        assert if Wide(row[k], width) then IsContinuation(row, k + 1, width) else IsGlyph(row, k + 1, width);
      }
    }
    assert if column > 0 && Wide(row[column - 1], width) then IsContinuation(row, column, width)
           else IsGlyph(row, column, width);
    if column + 1 < |row| {
      assert if Wide(row[column], width) then IsContinuation(row, column + 1, width)
             else IsGlyph(row, column + 1, width);
    }
  }

  lemma WriteKeeps(row: Row, column: nat, c: char, attrs: Style, width: char -> int)
    requires WellFormed(row, width) && column < |row| && (width(c) == 1 || width(c) == 2)
    requires Solo(row, column, width)
    requires width(c) == 2 && column + 1 < |row| ==> Solo(row, column + 1, width)
    ensures WellFormed(Write(row, column, c, attrs, width), width)
  {
    var r := Write(row, column, c, attrs, width);
    forall k | 0 <= k < |r|
      ensures if k > 0 && Wide(r[k - 1], width) then IsContinuation(r, k, width) else IsGlyph(r, k, width)
    {
      assert if k > 0 && Wide(row[k - 1], width) then IsContinuation(row, k, width) else IsGlyph(row, k, width);
    }
  }

  // ---- The invariant, step by step --------------------------------------------------------------

  lemma RowKeeps(s: Screen, r: nat, row: Row, width: char -> int)
    requires s.Intact(width) && r < s.lines && |row| == s.columns && WellFormed(row, width)
    ensures s.(rows := s.rows[r := row]).Intact(width)
  {
  }

  lemma {:induction false} ClearSpanKeeps(s: Screen, row: int, from: int, end: int, f: Font)
    requires s.Intact(f.width) && ValidFont(f) && 0 <= row < s.lines && end <= s.columns
    ensures var t := ClearSpan(s, row, from, end, f.width);
            t.Intact(f.width)
            && (forall k :: 0 <= k < s.columns && (from <= k < end || Solo(s.rows[row], k, f.width))
                            ==> Solo(t.rows[row], k, f.width))
    decreases end - from
  {
    if from < end {
      var one := ClearedAt(s, row, from, f.width);
      if 0 <= from {
        UnpairKeeps(s.rows[row], from, s.Blank(), f.width);
        RowKeeps(s, row, one.rows[row], f.width);
      }
      ClearSpanKeeps(one, row, from + 1, end, f);
    }
  }

  lemma PrepareKeeps(s: Screen, c: char, f: Font)
    requires s.Intact(f.width) && ValidFont(f)
    ensures Prepare(s, c, f).Intact(f.width)
  {
    var destination := Destination(s, f.width(c));
    if f.width(c) > 0 && destination.Some? {
      var (row, column) := destination.value;
      ClearSpanKeeps(s, row, column, Min(column + f.width(c), s.columns), f);
    }
  }

  lemma WrapKeeps(s: Screen, f: Font)
    requires s.Intact(f.width) && ValidFont(f)
    ensures Wrap(s).Intact(f.width)
    ensures s.y == s.Bottom() ==> forall k :: 0 <= k < s.columns ==> Wrap(s).rows[s.Bottom()][k] == s.Blank()
  {
    var t := Wrap(s);
    if s.y == s.Bottom() {
      forall r | 0 <= r < s.lines
        ensures |t.rows[r]| == s.columns && WellFormed(t.rows[r], f.width)
      {
      }
    }
  }

  lemma ClearedIsSolo(s: Screen, c: char, f: Font)
    requires s.Intact(f.width) && ValidFont(f) && f.width(c) > 0 && Destination(s, f.width(c)).Some?
    ensures var (row, column) := Destination(s, f.width(c)).value;
            0 <= row < s.lines
            && forall k :: 0 <= k < s.columns && column <= k < column + f.width(c) ==>
                 Solo(Prepare(s, c, f).rows[row], k, f.width)
  {
    var (row, column) := Destination(s, f.width(c)).value;
    ClearSpanKeeps(s, row, column, Min(column + f.width(c), s.columns), f);
  }

  /** Where the emulator writes, no cell is half of a pair any more. */
  lemma WrittenCellsAreSolo(s: Screen, c: char, f: Font)
    requires s.Intact(f.width) && ValidFont(f) && f.width(c) > 0
    ensures var p := Positioned(Prepare(s, c, f), c, f);
            p.(x := 0).Intact(f.width)
            && forall k :: 0 <= k < s.columns && p.x <= k < p.x + f.width(c) ==> Solo(p.rows[p.y], k, f.width)
  {
    PrepareKeeps(s, c, f);
    if s.x == s.columns && s.autowrap {
      WrapKeeps(Prepare(s, c, f), f);
    }
    if Destination(s, f.width(c)).Some? {
      ClearedIsSolo(s, c, f);
    }
  }

  /** The three draws that no erasing can repair: a wide glyph backed up past the left edge of a
      one-column screen, and a zero-width mark joining a continuation or a paired wide glyph. */
  predicate Breaks(s: Screen, c: char, f: Font)
    requires s.Shaped()
  {
    var w := f.width(c);
    if w == 2 then s.columns == 1 && s.x == 1 && !s.autowrap
    else if w == 0 && f.combining(c) then
      var p := Positioned(s, c, f);
      match MarkTarget(p)
      case None => false
      case Some((row, column)) =>
        0 <= row < |p.rows| && 0 <= column < |p.rows[row]|
        && !Solo(p.rows[row], column, f.width)
    else false
  }

  lemma GlyphStepIsExact(s: Screen, c: char, f: Font)
    requires s.Intact(f.width) && ValidFont(f) && f.width(c) > 0
    ensures DrawChar(s, c, f).Intact(f.width) <==> !Breaks(s, c, f)
  {
    var p := Positioned(Prepare(s, c, f), c, f);
    var t := DrawChar(s, c, f);
    WrittenCellsAreSolo(s, c, f);
    DrawCharShaped(s, c, f);
    if p.x >= 0 {
      WriteKeeps(p.rows[p.y], p.x, c, p.attrs, f.width);
      RowKeeps(p.(x := 0), p.y, t.rows[p.y], f.width);
    } else {
      assert t.rows[p.y] == [Cell([], p.attrs)];
      assert !IsGlyph(t.rows[p.y], 0, f.width);
    }
  }

  /** A mark added to a cell keeps its row well formed exactly when the cell is no half of a pair. */
  lemma MarkedRow(row: Row, column: nat, c: char, width: char -> int)
    requires WellFormed(row, width) && column < |row| && width(c) == 0
    ensures WellFormed(row[column := row[column].(data := row[column].data + [c])], width) <==> Solo(row, column, width)
  {
    var r := row[column := row[column].(data := row[column].data + [c])];
    assert if column > 0 && Wide(row[column - 1], width) then IsContinuation(row, column, width)
           else IsGlyph(row, column, width);
    if Solo(row, column, width) {
      forall k | 0 <= k < |r|
        ensures if k > 0 && Wide(r[k - 1], width) then IsContinuation(r, k, width) else IsGlyph(r, k, width)
      {
        assert if k > 0 && Wide(row[k - 1], width) then IsContinuation(row, k, width) else IsGlyph(row, k, width);
      }
    } else if column > 0 && Wide(row[column - 1], width) {
      assert !IsContinuation(r, column, width);
    } else {
      assert !IsGlyph(r, column, width);
      assert !IsContinuation(r, column, width);
    }
  }

  lemma MarkStepIsExact(s: Screen, c: char, f: Font)
    requires s.Intact(f.width) && ValidFont(f) && f.width(c) <= 0
    ensures DrawChar(s, c, f).Intact(f.width) <==> !Breaks(s, c, f)
  {
    var p := Positioned(s, c, f);
    if s.x == s.columns && s.autowrap {
      WrapKeeps(s, f);
    }
    if f.width(c) == 0 && f.combining(c) && MarkTarget(p).Some? {
      var (row, column) := MarkTarget(p).value;
      MarkedRow(p.rows[row], column, c, f.width);
      var t := DrawChar(s, c, f);
      assert forall r :: 0 <= r < s.lines && r != row ==> t.rows[r] == p.rows[r];
      assert t.rows[row] == p.rows[row][column := p.rows[row][column].(data := p.rows[row][column].data + [c])];
    }
  }

  /** Drawing one character keeps the wide-glyph invariant exactly when it is none of those draws. */
  lemma DrawStepIsExact(s: Screen, c: char, f: Font)
    requires s.Intact(f.width) && ValidFont(f)
    ensures DrawChar(s, c, f).Intact(f.width) <==> !Breaks(s, c, f)
  {
    if f.width(c) > 0 {
      GlyphStepIsExact(s, c, f);
    } else {
      MarkStepIsExact(s, c, f);
    }
  }

  // ---- What a draw does to each cell --------------------------------------------------------------

  /** The draw first scrolls the region: a pending wrap at its bottom line. */
  predicate Scrolls(s: Screen) { s.x == s.columns && s.autowrap && s.y == s.Bottom() }

  /** A cell as it stands once the region has scrolled, if it has to. */
  function Scrolled(s: Screen, r: nat, k: nat): Cell
    requires s.Shaped() && r < s.lines && k < s.columns
  {
    if Scrolls(s) && s.Top() <= r < s.Bottom() then s.rows[r + 1][k]
    else if Scrolls(s) && r == s.Bottom() then s.Blank()
    else s.rows[r][k]
  }

  /** The cell the character goes to: at the cursor, at the start of the next line or of the bottom line, or
      backed up from the right edge by its own width. */
  function Landing(s: Screen, w: int): (int, int) {
    if s.x < s.columns then (s.y, s.x)
    else if s.autowrap then (if s.y < s.Bottom() then s.y + 1 else s.Bottom(), 0)
    else (s.y, if w > 0 then s.columns - w else s.columns)
  }

  /** Half of a pair whose other half is overwritten in `[x, x + w)`. */
  predicate Orphaned(s: Screen, r: nat, k: nat, x: int, w: int, width: char -> int)
    requires s.Shaped() && r < s.lines && k < s.columns
  {
    || (k == x - 1 && Wide(Scrolled(s, r, k), width))
    || (k == x + w && k > 0 && Wide(Scrolled(s, r, k - 1), width))
  }

  /** Every cell after a draw: the glyph, its continuation, a blank where the other half of a pair is gone,
      the mark added to the cell before the cursor, and all other cells as they were. */
  function DrawnCell(s: Screen, c: char, f: Font, r: nat, k: nat): Cell
    requires s.Shaped() && r < s.lines && k < s.columns
  {
    var w := f.width(c);
    var (y, x) := Landing(s, w);
    if w == 1 || w == 2 then
      if r == y && k == x then Cell([c], s.attrs)
      else if r == y && k == x + 1 && w == 2 then Cell([], s.attrs)
      else if r == y && Orphaned(s, r, k, x, w, f.width) then s.Blank()
      else Scrolled(s, r, k)
    else if w == 0 && f.combining(c) && (if x > 0 then r == y && k == x - 1 else r == y - 1 && k == s.columns - 1) then
      var cell := Scrolled(s, r, k);
      cell.(data := cell.data + [c])
    else Scrolled(s, r, k)
  }

  /** Erasing the pair under a column blanks both its halves and leaves every other cell alone. */
  lemma UnpairCells(row: Row, column: nat, blank: Cell, width: char -> int, k: nat)
    requires column < |row| && k < |row| && WellFormed(row, width)
    ensures var erased :=
              || (k == column && ((k > 0 && Wide(row[k - 1], width)) || (Wide(row[k], width) && k + 1 < |row|)))
              || (k + 1 == column && Wide(row[k], width))
              || (k == column + 1 && Wide(row[k - 1], width));
            Unpair(row, column, blank, width)[k] == if erased then blank else row[k]
  {
    assert if column > 0 && Wide(row[column - 1], width) then IsContinuation(row, column, width)
           else IsGlyph(row, column, width);
    if column + 1 < |row| {
      assert if Wide(row[column], width) then IsContinuation(row, column + 1, width)
             else IsGlyph(row, column + 1, width);
    }
  }

  /** So does erasing under two columns side by side, outside these columns. */
  lemma UnpairTwice(row: Row, x: nat, blank: Cell, width: char -> int, k: nat)
    requires x + 1 < |row| && k < |row| && WellFormed(row, width) && k != x && k != x + 1
    requires blank.data == " " && width(' ') == 1
    ensures Unpair(Unpair(row, x, blank, width), x + 1, blank, width)[k]
            == if (k + 1 == x && Wide(row[k], width)) || (k == x + 2 && Wide(row[k - 1], width)) then blank else row[k]
  {
    var once := Unpair(row, x, blank, width);
    UnpairKeeps(row, x, blank, width);
    UnpairCells(row, x, blank, width, k);
    UnpairCells(row, x, blank, width, x + 1);
    UnpairCells(once, x + 1, blank, width, k);
    assert if x + 1 > 0 && Wide(row[x], width) then IsContinuation(row, x + 1, width) else IsGlyph(row, x + 1, width);
  }

  /** The erasing pass under `w` columns from `x` on, as far as they are on the screen. */
  function ErasedRow(row: Row, x: int, w: int, blank: Cell, width: char -> int): (r: Row)
    ensures |r| == |row|
  {
    var first := if 0 <= x < |row| then Unpair(row, x, blank, width) else row;
    if w == 2 && 0 <= x + 1 < |row| then Unpair(first, x + 1, blank, width) else first
  }

  lemma ClearSpanRow(s: Screen, y: nat, x: int, w: int, width: char -> int)
    requires s.Shaped() && y < s.lines && x < s.columns && (w == 1 || w == 2)
    ensures ClearSpan(s, y, x, Min(x + w, s.columns), width)
            == s.(rows := s.rows[y := ErasedRow(s.rows[y], x, w, s.Blank(), width)])
  {
    var end := Min(x + w, s.columns);
    var one := ClearedAt(s, y, x, width);
    assert s.rows[y := s.rows[y]] == s.rows;
    assert ClearSpan(s, y, x, end, width) == ClearSpan(one, y, x + 1, end, width);
    if x + 1 < end {
      assert ClearSpan(one, y, x + 1, end, width) == ClearSpan(ClearedAt(one, y, x + 1, width), y, x + 2, end, width);
    }
  }

  /** A row after the erasing pass, outside the columns that are about to be written. */
  lemma ErasedCells(row: Row, x: int, w: int, blank: Cell, width: char -> int, k: nat)
    requires WellFormed(row, width) && blank.data == " " && width(' ') == 1 && -1 <= x < |row| && (w == 1 || w == 2)
    requires x == -1 ==> |row| == 1 && w == 2
    requires k < |row| && !(x <= k < x + w)
    ensures ErasedRow(row, x, w, blank, width)[k]
            == if (k == x - 1 && Wide(row[k], width)) || (k == x + w && k > 0 && Wide(row[k - 1], width)) then blank
               else row[k]
  {
    if x >= 0 && w == 2 && x + 1 < |row| {
      UnpairTwice(row, x, blank, width, k);
    } else if x >= 0 {
      UnpairCells(row, x, blank, width, k);
    }
  }

  /** The emulator's write, cell by cell. */
  lemma WrittenCells(row: Row, x: int, c: char, attrs: Style, width: char -> int, k: nat)
    requires k < |row| && x < |row| && (width(c) == 1 || width(c) == 2)
    ensures Write(row, x, c, attrs, width)[k]
            == if k == x then Cell([c], attrs) else if k == x + 1 && width(c) == 2 then Cell([], attrs) else row[k]
  {
  }

  /** Where the emulator writes, and the rows it finds there. */
  lemma PositionedCells(s: Screen, c: char, f: Font, r: nat, k: nat)
    requires s.Shaped() && r < s.lines && k < s.columns
    ensures var p := Positioned(s, c, f);
            |p.rows[r]| == s.columns && p.rows[r][k] == Scrolled(s, r, k) && (p.y, p.x) == Landing(s, f.width(c))
  {
    if s.x == s.columns && s.autowrap && s.y == s.Bottom() {
      var t := Wrap(s);
      if r < s.Top() || r > s.Bottom() {
        assert t.rows[r] == s.rows[r];
      } else if r < s.Bottom() {
        assert t.rows[r] == s.rows[r + 1];
      }
    }
  }

  /** The erasing pass works on the row of the landing, unless a scroll is about to blank it. */
  lemma PreparedRows(s: Screen, c: char, f: Font)
    requires s.Intact(f.width) && ValidFont(f) && f.width(c) > 0
    ensures var w := f.width(c);
            var (y, x) := Landing(s, w);
            0 <= y < s.lines
            && Prepare(s, c, f) == if Scrolls(s) then s
                                   else s.(rows := s.rows[y := ErasedRow(s.rows[y], x, w, s.Blank(), f.width)])
  {
    var w := f.width(c);
    var (y, x) := Landing(s, w);
    if !Scrolls(s) {
      assert Destination(s, w) == Some((y, x));
      ClearSpanRow(s, y, x, w, f.width);
    }
  }

  /** A draw writes its glyph and leaves every other cell as it was, except that the surviving half of a pair
      becomes blank, a mark joins its cell, and a scroll moves the region up. */
  lemma DrawnCells(s: Screen, c: char, f: Font, r: nat, k: nat)
    requires s.Intact(f.width) && ValidFont(f) && r < s.lines && k < s.columns
    ensures |DrawChar(s, c, f).rows| == s.lines && |DrawChar(s, c, f).rows[r]| == s.columns
    ensures DrawChar(s, c, f).rows[r][k] == DrawnCell(s, c, f, r, k)
  {
    DrawCharShaped(s, c, f);
    if f.width(c) > 0 {
      GlyphCells(s, c, f, r, k);
    } else {
      MarkCells(s, c, f, r, k);
    }
  }

  lemma GlyphCells(s: Screen, c: char, f: Font, r: nat, k: nat)
    requires s.Intact(f.width) && ValidFont(f) && r < s.lines && k < s.columns && f.width(c) > 0
    ensures |DrawChar(s, c, f).rows| == s.lines && |DrawChar(s, c, f).rows[r]| == s.columns
    ensures DrawChar(s, c, f).rows[r][k] == DrawnCell(s, c, f, r, k)
  {
    var w := f.width(c);
    var (y, x) := Landing(s, w);
    var t := Prepare(s, c, f);
    PreparedRows(s, c, f);
    PositionedCells(t, c, f, r, k);
    assert Landing(t, w) == (y, x);
    var p := Positioned(t, c, f);
    assert DrawChar(s, c, f).rows[r] == if r == y then Write(p.rows[y], x, c, p.attrs, f.width) else p.rows[r];
    if r == y {
      WrittenCells(p.rows[y], x, c, p.attrs, f.width, k);
      FoundCells(s, c, f, k);
    }
  }

  /** What the write finds outside its own columns: the old cells, with orphaned halves erased. */
  lemma FoundCells(s: Screen, c: char, f: Font, k: nat)
    requires s.Intact(f.width) && ValidFont(f) && k < s.columns && f.width(c) > 0
    ensures var (y, x) := Landing(s, f.width(c));
            && 0 <= y < s.lines && |Prepare(s, c, f).rows[y]| == s.columns
            && (!(x <= k < x + f.width(c)) ==>
                  Scrolled(Prepare(s, c, f), y, k)
                  == if Orphaned(s, y, k, x, f.width(c), f.width) then s.Blank() else Scrolled(s, y, k))
  {
    var w := f.width(c);
    var (y, x) := Landing(s, w);
    PreparedRows(s, c, f);
    if !Scrolls(s) && !(x <= k < x + w) {
      ErasedCells(s.rows[y], x, w, s.Blank(), f.width, k);
    }
  }

  lemma MarkCells(s: Screen, c: char, f: Font, r: nat, k: nat)
    requires s.Intact(f.width) && ValidFont(f) && r < s.lines && k < s.columns && f.width(c) <= 0
    ensures |DrawChar(s, c, f).rows| == s.lines && |DrawChar(s, c, f).rows[r]| == s.columns
    ensures DrawChar(s, c, f).rows[r][k] == DrawnCell(s, c, f, r, k)
  {
    PositionedCells(s, c, f, r, k);
    var p := Positioned(s, c, f);
    if f.width(c) == 0 && f.combining(c) && MarkTarget(p).Some? {
      var (row, column) := MarkTarget(p).value;
      PositionedCells(s, c, f, row, column);
    }
  }

  /** A narrow glyph over the left half of a wide one: it stands there, the right half becomes a space without
      attributes, in the reverse mode of the screen, and the rest of the screen stays. */
  lemma LeftHalfOverwritten(s: Screen, c: char, f: Font, r: nat, k: nat)
    requires s.Intact(f.width) && ValidFont(f) && f.width(c) == 1 && s.x + 1 < s.columns
    requires Wide(s.rows[s.y][s.x], f.width) && r < s.lines && k < s.columns
    ensures |DrawChar(s, c, f).rows| == s.lines && |DrawChar(s, c, f).rows[r]| == s.columns
    ensures DrawChar(s, c, f).rows[r][k]
         == if r == s.y && k == s.x then Cell([c], s.attrs)
            else if r == s.y && k == s.x + 1 then
              Cell(" ", Style(false, false, false, false, false, false, s.reverseVideo, "default", "default"))
            else s.rows[r][k]
  {
    DrawnCells(s, c, f, r, k);
    NeighboursOfPair(s.rows[s.y], s.x, f.width);
    if s.x > 0 {
      NeighboursOfPair(s.rows[s.y], s.x - 1, f.width);
    }
  }

  /** A wide glyph is followed by an empty cell, which is not wide. */
  lemma NeighboursOfPair(row: Row, k: nat, width: char -> int)
    requires WellFormed(row, width) && k + 1 < |row|
    ensures Wide(row[k], width) ==> !Wide(row[k + 1], width)
  {
    var c := k + 1;
    assert if c > 0 && Wide(row[c - 1], width) then IsContinuation(row, c, width) else IsGlyph(row, c, width);
  }

  /** The cursor follows the glyph up to the right edge and stays before a mark; nothing else changes. */
  lemma DrawnCursor(s: Screen, c: char, f: Font)
    requires s.Shaped() && ValidFont(f)
    ensures var w := f.width(c);
            var (y, x) := Landing(s, w);
            var t := DrawChar(s, c, f);
            && t == s.(rows := t.rows, x := t.x, y := t.y) && t.y == y
            && t.x == if w > 0 then (if x + w < s.columns then x + w else s.columns) else x
  {
  }

  // ---- Whole runs -------------------------------------------------------------------------------

  /** Draws, and the changes of cursor, rendition, margins and modes that may come between them. */
  datatype Event =
    | Draw(c: char)
    | MoveTo(x: nat, y: nat)
    | Rendition(attrs: Style)
    | SetMargins(margins: Option<(nat, nat)>)
    | SetAutowrap(on: bool)
    | SetReverseVideo(on: bool)

  /** What a setting event changes; settings outside the screen are ignored. */
  function Set(s: Screen, e: Event): Screen {
    match e
    case Draw(_) => s
    case MoveTo(x, y) => if x <= s.columns && y < s.lines then s.(x := x, y := y) else s
    case Rendition(attrs) => s.(attrs := attrs)
    case SetMargins(m) => if m.None? || m.value.0 < m.value.1 < s.lines then s.(margins := m) else s
    case SetAutowrap(on) => s.(autowrap := on)
    case SetReverseVideo(on) => s.(reverseVideo := on)
  }

  function Step(s: Screen, e: Event, f: Font): Screen
    requires s.Shaped()
  {
    if e.Draw? then DrawChar(s, e.c, f) else Set(s, e)
  }

  ghost function Run(s: Screen, events: seq<Event>, f: Font): Screen
    requires s.Shaped() && ValidFont(f)
    decreases |events|
  {
    if events == [] then s
    else
      if events[0].Draw? then
        DrawCharShaped(s, events[0].c, f);
        Run(DrawChar(s, events[0].c, f), events[1..], f)
      else Run(Set(s, events[0]), events[1..], f)
  }

  function Fresh(lines: nat, columns: nat): Screen {
    Screen(seq(lines, r => seq(columns, c => BLANK)), lines, columns, 0, 0, PLAIN, None, true, false)
  }

  /** No draw of the run is one of the breaking ones, each judged on the screen it meets. */
  ghost predicate NoBreak(s: Screen, events: seq<Event>, f: Font)
    requires s.Shaped() && ValidFont(f)
    decreases |events|
  {
    events != [] ==>
      if events[0].Draw? then
        DrawCharShaped(s, events[0].c, f);
        !Breaks(s, events[0].c, f) && NoBreak(DrawChar(s, events[0].c, f), events[1..], f)
      else NoBreak(Set(s, events[0]), events[1..], f)
  }

  lemma RunStep(s: Screen, events: seq<Event>, n: nat, f: Font)
    requires s.Shaped() && ValidFont(f) && 1 <= n <= |events|
    ensures Step(s, events[0], f).Shaped()
    ensures Run(s, events[..n], f) == Run(Step(s, events[0], f), events[1..][..n - 1], f)
    ensures NoBreak(s, events, f) <==> (events[0].Draw? ==> !Breaks(s, events[0].c, f))
                                       && NoBreak(Step(s, events[0], f), events[1..], f)
  {
    assert events[..n][1..] == events[1..][..n - 1];
    if events[0].Draw? {
      DrawCharShaped(s, events[0].c, f);
    }
  }

  lemma StepIsExact(s: Screen, e: Event, f: Font)
    requires s.Intact(f.width) && ValidFont(f)
    ensures Step(s, e, f).Intact(f.width) <==> (e.Draw? ==> !Breaks(s, e.c, f))
  {
    if e.Draw? {
      DrawStepIsExact(s, e.c, f);
    }
  }

  lemma {:induction false} NoBreakKeeps(s: Screen, events: seq<Event>, n: nat, f: Font)
    requires s.Intact(f.width) && ValidFont(f) && n <= |events| && NoBreak(s, events, f)
    ensures Run(s, events[..n], f).Intact(f.width)
    decreases n
  {
    if n > 0 {
      RunStep(s, events, n, f);
      StepIsExact(s, events[0], f);
      NoBreakKeeps(Step(s, events[0], f), events[1..], n - 1, f);
    } else {
      assert events[..0] == [];
    }
  }

  /** A run with a breaking draw leaves the screen broken right after the first of them. */
  lemma {:induction false} FirstBreak(s: Screen, events: seq<Event>, f: Font) returns (n: nat)
    requires s.Intact(f.width) && ValidFont(f) && !NoBreak(s, events, f)
    ensures n <= |events| && !Run(s, events[..n], f).Intact(f.width)
    decreases |events|
  {
    RunStep(s, events, 1, f);
    StepIsExact(s, events[0], f);
    var next := Step(s, events[0], f);
    if next.Intact(f.width) {
      var k := FirstBreak(next, events[1..], f);
      n := k + 1;
      RunStep(s, events, n, f);
    } else {
      n := 1;
      assert events[1..][..0] == [];
    }
  }

  lemma {:induction false} RunShape(s: Screen, events: seq<Event>, f: Font)
    requires s.Shaped() && ValidFont(f)
    ensures Run(s, events, f).lines == s.lines && Run(s, events, f).columns == s.columns
    decreases |events|
  {
    if events != [] {
      if events[0].Draw? {
        DrawCharShaped(s, events[0].c, f);
      }
      RunShape(Step(s, events[0], f), events[1..], f);
    }
  }

  /** From a blank screen of any size, all wide glyphs stay paired with their continuations throughout a
      run of draws, with arbitrary cursor, margin and mode changes between them, exactly when none of its
      draws is a breaking one. */
  lemma RunsKeepWideGlyphsPaired(lines: nat, columns: nat, events: seq<Event>, f: Font)
    requires lines > 0 && columns > 0 && ValidFont(f)
    ensures (forall n :: 0 <= n <= |events| ==> Run(Fresh(lines, columns), events[..n], f).Intact(f.width))
            <==> NoBreak(Fresh(lines, columns), events, f)
  {
    var s := Fresh(lines, columns);
    if NoBreak(s, events, f) {
      forall n | 0 <= n <= |events|
        ensures Run(s, events[..n], f).Intact(f.width)
      {
        NoBreakKeeps(s, events, n, f);
      }
    } else {
      var n := FirstBreak(s, events, f);
    }
  }

  /** A condition on the characters alone: on two columns or more only a zero-width mark can break. */
  lemma {:induction false} UnmarkedRunsNeverBreak(s: Screen, events: seq<Event>, f: Font)
    requires s.Shaped() && ValidFont(f) && s.columns >= 2
    requires forall i :: 0 <= i < |events| && events[i].Draw? ==> f.width(events[i].c) != 0 || !f.combining(events[i].c)
    ensures NoBreak(s, events, f)
    decreases |events|
  {
    if events != [] {
      RunStep(s, events, 1, f);
      UnmarkedRunsNeverBreak(Step(s, events[0], f), events[1..], f);
    }
  }

  lemma RunOne(s: Screen, e: Event, rest: seq<Event>, f: Font)
    requires s.Shaped() && ValidFont(f)
    ensures Step(s, e, f).Shaped() && Run(s, [e] + rest, f) == Run(Step(s, e, f), rest, f)
  {
    assert ([e] + rest)[1..] == rest;
    if e.Draw? {
      DrawCharShaped(s, e.c, f);
    }
  }

  /** On one column without autowrap, two wide glyphs in a row leave a continuation without its glyph. */
  lemma OneColumnBreaks(f: Font, wide: char)
    requires ValidFont(f) && f.width(wide) == 2
    ensures !Run(Fresh(1, 1), [SetAutowrap(false), Draw(wide), Draw(wide)], f).Intact(f.width)
  {
    var s := Set(Fresh(1, 1), SetAutowrap(false));
    var t := DrawChar(s, wide, f);
    DrawStepIsExact(s, wide, f);
    DrawStepIsExact(t, wide, f);
    RunOne(Fresh(1, 1), SetAutowrap(false), [Draw(wide)] + [Draw(wide)], f);
    RunOne(s, Draw(wide), [Draw(wide)] + [], f);
    RunOne(t, Draw(wide), [], f);
    assert [SetAutowrap(false), Draw(wide), Draw(wide)] == [SetAutowrap(false)] + ([Draw(wide)] + [Draw(wide)]);
    assert [Draw(wide)] + [] == [Draw(wide)];
  }

  /** A combining mark right after a wide glyph joins its continuation, which is then no longer empty. */
  lemma MarkAfterWideBreaks(f: Font, wide: char, mark: char)
    requires ValidFont(f) && f.width(wide) == 2 && f.width(mark) == 0 && f.combining(mark)
    ensures !Run(Fresh(1, 3), [Draw(wide), Draw(mark)], f).Intact(f.width)
  {
    var s := Fresh(1, 3);
    var t := DrawChar(s, wide, f);
    DrawStepIsExact(s, wide, f);
    assert t.rows[0][0] == Cell([wide], PLAIN);
    DrawStepIsExact(t, mark, f);
    RunOne(s, Draw(wide), [Draw(mark)] + [], f);
    RunOne(t, Draw(mark), [], f);
    assert [Draw(wide), Draw(mark)] == [Draw(wide)] + ([Draw(mark)] + []);
    assert [Draw(mark)] + [] == [Draw(mark)];
  }

  // ---- The screen object ------------------------------------------------------------------------

  class DimScreen {
    const lines: nat
    const columns: nat
    const font: Font
    var buffer: seq<Row>
    var x: int
    var y: int
    var attrs: Style
    var margins: Option<(nat, nat)>
    var autowrap: bool
    var reverseVideo: bool

    ghost predicate Valid()
      reads this
    {
      View().Shaped() && ValidFont(font)
    }

    ghost function View(): Screen
      reads this
    {
      Screen(buffer, lines, columns, x, y, attrs, margins, autowrap, reverseVideo)
    }

    function DefaultChar(): Cell
      reads this
    {
      Cell(" ", PLAIN.(reverse := reverseVideo))
    }

    constructor (lines: nat, columns: nat, font: Font)
      requires lines > 0 && columns > 0 && ValidFont(font)
      ensures Valid() && View() == Fresh(lines, columns) && this.font == font
    {
      this.lines, this.columns, this.font := lines, columns, font;
      buffer := seq(lines, r => seq(columns, c => BLANK));
      x, y, attrs, margins, autowrap, reverseVideo := 0, 0, PLAIN, None, true, false;
    }

    method ClearWideCellAt(row: int, column: int)
      requires Valid()
      modifies this`buffer
      ensures Valid() && View() == ClearedAt(old(View()), row, column, font.width)
    {
      if !(0 <= row < lines && 0 <= column < columns) { return; }
      var cell := buffer[row][column];
      if cell.data == [] && column > 0 && Wide(buffer[row][column - 1], font.width) {
        buffer := buffer[row := buffer[row][column - 1 := DefaultChar()]];
        buffer := buffer[row := buffer[row][column := DefaultChar()]];
      } else if cell.data != [] && Wide(cell, font.width) && column + 1 < columns
          && buffer[row][column + 1].data == [] {
        buffer := buffer[row := buffer[row][column := DefaultChar()]];
        buffer := buffer[row := buffer[row][column + 1 := DefaultChar()]];
      }
    }

    /** The emulator's own write step. */
    method SuperDraw(c: char)
      requires Valid()
      modifies this
      ensures Valid() && View() == Emit(old(View()), c, font)
    {
      ghost var before := View();
      var screen := Emit(Screen(buffer, lines, columns, x, y, attrs, margins, autowrap, reverseVideo), c, font);
      buffer, x, y := screen.rows, screen.x, screen.y;
      EmitShaped(before, c, font);
    }

    method ClearColumns(row: int, column: int, end: int)
      requires Valid()
      modifies this`buffer
      ensures Valid() && View() == ClearSpan(old(View()), row, column, end, font.width)
    {
      var covered := column;
      while covered < end
        invariant Valid()
        invariant ClearSpan(View(), row, covered, end, font.width)
                  == ClearSpan(old(View()), row, column, end, font.width)
      {
        ClearWideCellAt(row, covered);
        covered := covered + 1;
      }
    }

    /** Erases every pair the next glyph is about to overwrite, at its actual destination. */
    method ClearDestination(c: char)
      requires Valid()
      modifies this`buffer
      ensures Valid() && View() == Prepare(old(View()), c, font)
    {
      var width := font.width(c);
      if width <= 0 { return; }
      var destination: Option<(int, int)> := None;
      if x == columns {
        if autowrap {
          var bottom: int := if margins.Some? then margins.value.1 else lines - 1;
          if y < bottom {
            destination := Some((y + 1, 0));
          } else if y > bottom {
            destination := Some((bottom, 0));
          }
        } else {
          destination := Some((y, x - width));
        }
      } else {
        destination := Some((y, x));
      }
      assert destination == Destination(View(), width);
      if destination.Some? {
        var (row, column) := destination.value;
        ClearColumns(row, column, if column + width < columns then column + width else columns);
      }
    }

    method Draw(data: string)
      requires Valid()
      modifies this
      ensures Valid() && View() == DrawAll(old(View()), data, font)
    {
      ghost var start := View();
      for i := 0 to |data|
        invariant Valid()
        invariant DrawAll(View(), data[i..], font) == DrawAll(start, data, font)
      {
        DrawAllUnfold(View(), data, i, font);
        ClearDestination(data[i]);
        SuperDraw(data[i]);
      }
    }
  }

  lemma DrawAllUnfold(s: Screen, data: string, i: nat, f: Font)
    requires s.Shaped() && ValidFont(f) && i < |data|
    ensures DrawChar(s, data[i], f).Shaped()
    ensures DrawAll(s, data[i..], f) == DrawAll(DrawChar(s, data[i], f), data[i + 1..], f)
  {
    DrawCharShaped(s, data[i], f);
    assert data[i..][0] == data[i] && data[i..][1..] == data[i + 1..];
  }

  lemma EmitShaped(s: Screen, c: char, f: Font)
    requires s.Shaped() && ValidFont(f)
    ensures var t := Emit(s, c, f);
            t.Shaped() && t == s.(rows := t.rows, x := t.x, y := t.y)
  {
    var p := Positioned(s, c, f);
    assert forall r :: 0 <= r < s.lines ==> |p.rows[r]| == s.columns;
  }

  ghost function DrawAll(s: Screen, data: string, f: Font): (t: Screen)
    requires s.Shaped() && ValidFont(f)
    ensures t.Shaped()
    decreases |data|
  {
    if data == [] then s
    else
      DrawCharShaped(s, data[0], f);
      DrawAll(DrawChar(s, data[0], f), data[1..], f)
  }
}
