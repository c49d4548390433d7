/** The instrument end to end: what is drawn, rendered and scanned agree on every reachable screen. */
module Frames {
  import opened Text
  import opened AnsiEscape
  import opened Grid
  import opened SecretGuard
  import opened Render
  import opened SgrReader
  import opened DimScreens
  import opened Lines

  /** A character that does not print stands in no cell. */
  lemma IntactHasNone(s: Screen, f: Font, c: char)
    requires s.Intact(f.width) && f.width(c) < 0
    ensures forall r, k :: 0 <= r < |s.rows| && 0 <= k < |s.rows[r]| ==> c !in s.rows[r][k].data
  {
    forall r, k | 0 <= r < |s.rows| && 0 <= k < |s.rows[r]|
      ensures c !in s.rows[r][k].data
    {
      var row := s.rows[r];
      if !(k > 0 && Wide(row[k - 1], f.width)) {
        assert IsGlyph(row, k, f.width);
        assert forall i :: 0 <= i < |row[k].data| ==> f.width(row[k].data[i]) >= 0;
      } else {
        assert IsContinuation(row, k, f.width);
      }
    }
  }

  lemma IntactHasNoEscapes(s: Screen, f: Font)
    requires s.Intact(f.width) && f.width(ESC) < 0
    ensures forall r :: 0 <= r < |s.rows| ==> NoEscapes(s.rows[r])
  {
    IntactHasNone(s, f, ESC);
  }

  // ---- The lines of a frame ---------------------------------------------------------------------

  predicate NoNewlines(row: Row) {
    forall k :: 0 <= k < |row| ==> NL !in row[k].data
  }

  lemma TransitionHasNoNewline(codes: seq<nat>)
    ensures NL !in Transition(codes)
  {
    assert forall i :: 0 <= i < |Parameters(codes)| ==> IsParameter(Parameters(codes)[i]);
  }

  lemma {:induction false} CellsHaveNoNewline(cells: Row, prev: Option<Style>, palette: Palette)
    requires NoNewlines(cells)
    ensures NL !in RenderCells(cells, prev, palette)
  {
    if cells != [] {
      TransitionHasNoNewline(SgrCodes(cells[0].style, palette));
      CellsHaveNoNewline(cells[1..], Some(cells[0].style), palette);
    }
  }

  /** Splitting a rendered screen at its newlines gives back the lines of its rows. */
  lemma {:induction false} ScreenSplits(grid: seq<Row>, palette: Palette)
    requires grid != [] && forall r :: 0 <= r < |grid| ==> NoNewlines(grid[r])
    ensures TerminatedLines(RenderedScreen(grid, palette)) == RenderedLines(grid, palette)
    ensures Remainder(RenderedScreen(grid, palette)) == []
  {
    var line := RenderedLine(grid[0], palette);
    var below := if |grid| == 1 then [] else RenderedScreen(grid[1..], palette);
    CellsHaveNoNewline(grid[0][..KeptColumns(grid[0])], None, palette);
    TransitionHasNoNewline([]);
    ScreenOfRows(grid, palette);
    Assoc(line, [NL], below);
    LineThen(line, below);
    if |grid| > 1 {
      ScreenSplits(grid[1..], palette);
    }
  }

  /** A reader of frames: each line is interpreted from reset on a blank row. */
  function ReadLines(lines: seq<string>, columns: nat, palette: Palette, width: char -> int): (rows: seq<Row>)
    ensures |rows| == |lines|
  {
    if lines == [] then []
    else
      [Interpret(lines[0], Pen(seq(columns, i => BLANK), 0, PLAIN), palette, width).row]
      + ReadLines(lines[1..], columns, palette, width)
  }

  function CanonicalRows(rows: seq<Row>, palette: Palette): seq<Row> {
    if rows == [] then [] else [CanonicalRow(rows[0], palette)] + CanonicalRows(rows[1..], palette)
  }

  lemma {:induction false} LinesReadBack(rows: seq<Row>, columns: nat, palette: Palette, width: char -> int)
    requires ValidPalette(palette) && width(ESC) < 0
    requires forall r :: 0 <= r < |rows| ==> |rows[r]| == columns && WellFormed(rows[r], width)
    ensures ReadLines(RenderedLines(rows, palette), columns, palette, width) == CanonicalRows(rows, palette)
  {
    if rows != [] {
      RenderRoundTrip(rows[0], palette, width);
      LinesReadBack(rows[1..], columns, palette, width);
    }
  }

  /** Every frame of every run without a breaking draw can be read back from its text, split at its newlines,
      and the guard's verdict on it is exact. */
  lemma ReachableFramesAreFaithful(lines: nat, columns: nat, events: seq<Event>, f: Font, palette: Palette,
                                   secrets: seq<string>)
    requires lines > 0 && columns > 0 && ValidFont(f) && NoBreak(Fresh(lines, columns), events, f)
    requires f.width(ESC) < 0 && f.width(NL) < 0 && ValidPalette(palette)
    requires forall secret :: secret in secrets ==> Clean(secret)
    ensures var rows := Run(Fresh(lines, columns), events, f).rows;
            var text := RenderedScreen(rows, palette);
            && ReadLines(TerminatedLines(text), columns, palette, f.width) == CanonicalRows(rows, palette)
            && Remainder(text) == []
            && (Leaks(text, secrets) <==>
                exists secret, run :: secret in secrets && secret != [] && IsRunOf(run, secret)
                                      && Occurs(run, Squeeze(GridText(rows))))
  {
    var s := Run(Fresh(lines, columns), events, f);
    NoBreakKeeps(Fresh(lines, columns), events, |events|, f);
    assert events[..|events|] == events;
    RunShape(Fresh(lines, columns), events, f);
    IntactHasNoEscapes(s, f);
    IntactHasNone(s, f, NL);
    ScreenSplits(s.rows, palette);
    LinesReadBack(s.rows, columns, palette, f.width);
    FrameGuardIsExact(s.rows, palette, secrets);
  }
}
