/** `render_line` and `render_screen`: one text line per row, one SGR sequence per style run. */
module Render {
  import opened Text
  import opened AnsiEscape
  import opened Grid
  import opened SecretGuard

  /** The emulator's code-to-name colour tables, as (code, name) entries in table order. */
  datatype Palette = Palette(fg: seq<(nat, string)>, bg: seq<(nat, string)>)

  /** `HEX6.match`: six hex digits; the pattern's `$` also accepts one final newline. */
  predicate IsHex6(name: string) {
    (|name| == 6 || (|name| == 7 && name[6] == NL)) && forall i :: 0 <= i < 6 ==> IsHexDigit(name[i])
  }

  function HexPair(name: string, i: nat): (n: nat)
    requires i + 1 < |name| && IsHexDigit(name[i]) && IsHexDigit(name[i + 1])
    ensures n < 256
  {
    16 * HexValue(name[i]) + HexValue(name[i + 1])
  }

  /** The reversed table: a dictionary comprehension keeps the last code listed for a name. */
  function NameToCode(entries: seq<(nat, string)>, name: string): (code: Option<nat>)
    ensures code.Some? ==> exists i :: 0 <= i < |entries| && entries[i] == (code.value, name)
  {
    if entries == [] then None
    else if entries[|entries| - 1].1 == name then Some(entries[|entries| - 1].0)
    else NameToCode(entries[..|entries| - 1], name)
  }

  /** `color_codes`: the SGR parameters that select one colour, none for the default one. */
  function ColorCodes(name: string, palette: Palette, isFg: bool): seq<nat> {
    if name == "" || name == "default" then []
    else if IsHex6(name) then [if isFg then 38 else 48, 2, HexPair(name, 0), HexPair(name, 2), HexPair(name, 4)]
    else
      match NameToCode(if isFg then palette.fg else palette.bg, name)
      case Some(code) => [code]
      case None => []
  }

  function On(flag: bool, code: nat, rest: seq<nat>): seq<nat> {
    if flag then [code] + rest else rest
  }

  /** `sgr_codes`: attributes in ascending code order, then the colours. */
  function SgrCodes(s: Style, palette: Palette): seq<nat> {
    On(s.bold, 1, On(s.dim, 2, On(s.italics, 3, On(s.underscore, 4, On(s.blink, 5,
      On(s.reverse, 7, On(s.strikethrough, 9, ColorCodes(s.fg, palette, true) + ColorCodes(s.bg, palette, false))))))))
  }

  /** `;`-separated numerals, each with a leading separator. */
  function CodesTail(codes: seq<nat>): (s: string)
    ensures forall i :: 0 <= i < |s| ==> IsParameter(s[i])
  {
    if codes == [] then [] else ";" + Decimal(codes[0]) + CodesTail(codes[1..])
  }

  /** The parameter bytes of a style transition: a reset, then the style's own codes. */
  function Parameters(codes: seq<nat>): (s: string)
    ensures forall i :: 0 <= i < |s| ==> IsParameter(s[i])
  {
    "0" + CodesTail(codes)
  }

  function Transition(codes: seq<nat>): string {
    [ESC, '['] + Parameters(codes) + ['m']
  }

  const RESET: string := Transition([])

  /** The number of cells kept: trailing blanks without style are dropped. */
  function KeptColumns(row: Row): (end: nat)
    ensures end <= |row|
    ensures forall c :: end <= c < |row| ==> row[c] == BLANK
    ensures end > 0 ==> row[end - 1] != BLANK
  {
    if row != [] && row[|row| - 1] == BLANK then KeptColumns(row[..|row| - 1]) else |row|
  }

  /** The transition that opens a cell whose style differs from the one before it. */
  function Opening(prev: Option<Style>, style: Style, palette: Palette): string {
    if prev == Some(style) then [] else Transition(SgrCodes(style, palette))
  }

  function RenderCells(cells: Row, prev: Option<Style>, palette: Palette): string {
    if cells == [] then []
    else
      Opening(prev, cells[0].style, palette)
      + (cells[0].data + RenderCells(cells[1..], Some(cells[0].style), palette))
  }

  function RenderedLine(row: Row, palette: Palette): string {
    RenderCells(row[..KeptColumns(row)], None, palette) + RESET
  }

  function RenderedLines(grid: seq<Row>, palette: Palette): seq<string> {
    if grid == [] then [] else [RenderedLine(grid[0], palette)] + RenderedLines(grid[1..], palette)
  }

  function RenderedScreen(grid: seq<Row>, palette: Palette): string {
    Join(RenderedLines(grid, palette), [NL]) + [NL]
  }

  /** `render_line`: trims the blank tail, renders what is left and closes with a reset. */
  method RenderLine(row: Row, palette: Palette) returns (text: string)
    ensures text == RenderedLine(row, palette)
  {
    var end := |row|;
    while end > 0 && row[end - 1] == BLANK
      invariant KeptColumns(row) <= end <= |row|
    {
      end := end - 1;
    }
    text := RenderKept(row[..end], palette);
    text := text + RESET;
  }

  /** The one pass of `render_line` over the kept cells, with `prev_key`. */
  method RenderKept(cells: Row, palette: Palette) returns (text: string)
    ensures text == RenderCells(cells, None, palette)
  {
    text := [];
    var prev: Option<Style> := None;
    assert cells[0..] == cells;
    for column := 0 to |cells|
      invariant text + RenderCells(cells[column..], prev, palette) == RenderCells(cells, None, palette)
    {
      var cell := cells[column];
      OneCell(text, cells, column, prev, palette);
      if prev != Some(cell.style) {
        text := text + Transition(SgrCodes(cell.style, palette));
        prev := Some(cell.style);
      }
      text := text + cell.data;
    }
  }

  lemma OneCell(text: string, cells: Row, column: nat, prev: Option<Style>, palette: Palette)
    requires column < |cells|
    ensures var style := cells[column].style;
            var start := if prev != Some(style) then text + Transition(SgrCodes(style, palette)) else text;
            start + cells[column].data + RenderCells(cells[column + 1..], Some(style), palette)
            == text + RenderCells(cells[column..], prev, palette)
  {
    var rest := cells[column..];
    assert rest[1..] == cells[column + 1..];
    Regroup(text, Opening(prev, rest[0].style, palette), rest[0].data,
            RenderCells(rest[1..], Some(rest[0].style), palette));
  }

  lemma Regroup(a: string, b: string, c: string, d: string)
    ensures a + (b + (c + d)) == a + b + c + d
    ensures a + [] == a
  {
  }

  method RenderScreen(grid: seq<Row>, palette: Palette) returns (text: string)
    ensures text == RenderedScreen(grid, palette)
  {
    var lines := [];
    for r := 0 to |grid|
      invariant lines + RenderedLines(grid[r..], palette) == RenderedLines(grid, palette)
    {
      var line := RenderLine(grid[r], palette);
      lines := lines + [line];
      assert grid[r..][1..] == grid[r + 1..];
    }
    assert lines == RenderedLines(grid, palette);
    text := Join(lines, [NL]) + [NL];
  }

  // ---- What the guard sees ----------------------------------------------------------------------

  lemma StripOpening(prev: Option<Style>, style: Style, palette: Palette, rest: string)
    ensures Strip(Opening(prev, style, palette) + rest) == Strip(rest)
  {
    if prev == Some(style) {
      assert [] + rest == rest;
    } else {
      StripSgr(Parameters(SgrCodes(style, palette)), rest);
    }
  }

  lemma {:induction false} StripCells(cells: Row, prev: Option<Style>, palette: Palette, rest: string)
    requires NoEscapes(cells)
    ensures Strip(RenderCells(cells, prev, palette) + rest) == RowText(cells) + Strip(rest)
  {
    if cells == [] {
      assert RenderCells(cells, prev, palette) + rest == rest;
    } else {
      var data, style := cells[0].data, cells[0].style;
      var tail := RenderCells(cells[1..], Some(style), palette);
      StripCells(cells[1..], Some(style), palette, rest);
      Reassociate(Opening(prev, style, palette), data, tail, rest);
      StripOpening(prev, style, palette, data + (tail + rest));
      StripPlain(data, tail + rest);
      Assoc(data, RowText(cells[1..]), Strip(rest));
    }
  }

  lemma StripLine(row: Row, palette: Palette, rest: string)
    requires NoEscapes(row)
    ensures Strip(RenderedLine(row, palette) + rest) == RowText(row[..KeptColumns(row)]) + Strip(rest)
  {
    var kept := row[..KeptColumns(row)];
    StripCells(kept, None, palette, RESET + rest);
    StripSgr(Parameters([]), rest);
    assert RenderedLine(row, palette) + rest == RenderCells(kept, None, palette) + (RESET + rest);
  }

  lemma {:induction false} SqueezedBlanks(cells: Row)
    requires forall c :: 0 <= c < |cells| ==> cells[c] == BLANK
    ensures Squeeze(RowText(cells)) == []
  {
    if cells != [] {
      SqueezedBlanks(cells[1..]);
      KeepConcat(cells[0].data, RowText(cells[1..]), Inked);
      KeepNothing(" ", Inked);
    }
  }

  lemma SqueezedRow(row: Row)
    ensures Squeeze(RowText(row[..KeptColumns(row)])) == Squeeze(RowText(row))
  {
    var end := KeptColumns(row);
    assert row == row[..end] + row[end..];
    RowTextConcat(row[..end], row[end..]);
    SqueezedBlanks(row[end..]);
    KeepConcat(RowText(row[..end]), RowText(row[end..]), Inked);
  }

  lemma SqueezeNewline(text: string, below: string)
    ensures Squeeze(text + Strip([NL] + below)) == Squeeze(text) + Squeeze(Strip(below))
  {
    KeepConcat(text, Strip([NL] + below), Inked);
    var all := [NL] + below;
    assert all[1..] == below;
    var stripped := Strip(all);
    assert stripped == [NL] + Strip(below);
    assert stripped[1..] == Strip(below);
  }

  lemma SqueezedRowThen(row: Row, palette: Palette, below: string)
    requires NoEscapes(row)
    ensures Squeeze(Strip(RenderedLine(row, palette) + ([NL] + below)))
            == Squeeze(RowText(row)) + Squeeze(Strip(below))
  {
    StripLine(row, palette, [NL] + below);
    SqueezedRow(row);
    SqueezeNewline(RowText(row[..KeptColumns(row)]), below);
  }

  /** Every row ends with a newline, the last one too. */
  lemma ScreenOfRows(grid: seq<Row>, palette: Palette)
    requires grid != []
    ensures RenderedScreen(grid, palette) == RenderedLine(grid[0], palette)
            + ([NL] + if |grid| == 1 then [] else RenderedScreen(grid[1..], palette))
  {
    var lines := RenderedLines(grid, palette);
    assert lines[1..] == RenderedLines(grid[1..], palette);
    if |grid| > 1 {
      var below := Join(lines[1..], [NL]);
      Assoc(lines[0] + [NL], below, [NL]);
      Assoc(lines[0], [NL], below + [NL]);
    }
  }

  lemma {:induction false} SqueezedScreen(grid: seq<Row>, palette: Palette)
    requires forall r :: 0 <= r < |grid| ==> NoEscapes(grid[r])
    ensures Squeeze(Strip(RenderedScreen(grid, palette))) == Squeeze(GridText(grid))
  {
    if grid == [] {
      assert RenderedScreen(grid, palette) == [NL];
      KeepNothing([NL], Inked);
    } else {
      ScreenOfRows(grid, palette);
      SqueezedRowThen(grid[0], palette, if |grid| == 1 then [] else RenderedScreen(grid[1..], palette));
      KeepConcat(RowText(grid[0]), GridText(grid[1..]), Inked);
      if |grid| > 1 {
        SqueezedScreen(grid[1..], palette);
      }
    }
  }

  /** The third scan corpus of a rendered screen is the grid's own text, squeezed. */
  lemma ThirdCorpusIsTheGrid(grid: seq<Row>, palette: Palette)
    requires forall r :: 0 <= r < |grid| ==> NoEscapes(grid[r])
    ensures Corpora(RenderedScreen(grid, palette))[2] == Squeeze(GridText(grid))
  {
    ThirdCorpus(RenderedScreen(grid, palette));
    SqueezedScreen(grid, palette);
  }

  /** Guard completeness and exactness: a rendered frame is reported exactly when the grid shows a
      reconstructable run of some clean credential, however it is wrapped, padded or styled. */
  lemma FrameGuardIsExact(grid: seq<Row>, palette: Palette, secrets: seq<string>)
    requires forall r :: 0 <= r < |grid| ==> NoEscapes(grid[r])
    requires forall secret :: secret in secrets ==> Clean(secret)
    ensures Leaks(RenderedScreen(grid, palette), secrets) <==>
            exists secret, run :: secret in secrets && secret != [] && IsRunOf(run, secret)
                                  && Occurs(run, Squeeze(GridText(grid)))
  {
    SqueezedScreen(grid, palette);
    GuardSeesSqueezedText(RenderedScreen(grid, palette), secrets);
  }

  // ---- Minimality of the style transitions ------------------------------------------------------

  function EscapeCount(s: string): nat {
    if s == [] then 0 else (if s[0] == ESC then 1 else 0) + EscapeCount(s[1..])
  }

  /** Cells that open a maximal run of equal style, given the style before the row. */
  function RunCount(cells: Row, prev: Option<Style>): nat {
    if cells == [] then 0
    else (if prev == Some(cells[0].style) then 0 else 1) + RunCount(cells[1..], Some(cells[0].style))
  }

  lemma {:induction false} EscapeCountConcat(a: string, b: string)
    ensures EscapeCount(a + b) == EscapeCount(a) + EscapeCount(b)
  {
    if a == [] {
      assert a + b == b;
    } else {
      assert (a + b)[1..] == a[1..] + b;
      EscapeCountConcat(a[1..], b);
    }
  }

  lemma {:induction false} NoEscapeCount(s: string)
    requires ESC !in s
    ensures EscapeCount(s) == 0
  {
    if s != [] {
      NoEscapeCount(s[1..]);
    }
  }

  lemma TransitionEscapes(codes: seq<nat>)
    ensures EscapeCount(Transition(codes)) == 1
  {
    var tail := ['['] + Parameters(codes) + ['m'];
    assert Transition(codes)[1..] == tail;
    NoEscapeCount(tail);
  }

  lemma OpeningEscapes(prev: Option<Style>, style: Style, palette: Palette, rest: string)
    ensures EscapeCount(Opening(prev, style, palette) + rest)
            == (if prev == Some(style) then 0 else 1) + EscapeCount(rest)
  {
    EscapeCountConcat(Opening(prev, style, palette), rest);
    if prev != Some(style) {
      TransitionEscapes(SgrCodes(style, palette));
    }
  }

  lemma {:induction false} CellsEscapes(cells: Row, prev: Option<Style>, palette: Palette)
    requires NoEscapes(cells)
    ensures EscapeCount(RenderCells(cells, prev, palette)) == RunCount(cells, prev)
  {
    if cells != [] {
      var data, style := cells[0].data, cells[0].style;
      var tail := RenderCells(cells[1..], Some(style), palette);
      CellsEscapes(cells[1..], Some(style), palette);
      NoEscapeCount(data);
      EscapeCountConcat(data, tail);
      OpeningEscapes(prev, style, palette, data + tail);
    }
  }

  /** A line holds exactly one transition per maximal equal-style run of its kept cells, and the reset. */
  lemma OneTransitionPerRun(row: Row, palette: Palette)
    requires NoEscapes(row)
    ensures EscapeCount(RenderedLine(row, palette)) == RunCount(row[..KeptColumns(row)], None) + 1
  {
    CellsEscapes(row[..KeptColumns(row)], None, palette);
    TransitionEscapes([]);
    EscapeCountConcat(RenderCells(row[..KeptColumns(row)], None, palette), RESET);
  }
}
