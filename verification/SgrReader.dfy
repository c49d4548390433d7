/** A reader for rendered lines: select graphic rendition as section 8.3.117 of ECMA-48 defines it,
    restricted to the functions a frame can hold, drawing onto one row of cells. */
module SgrReader {
  import opened Text
  import opened AnsiEscape
  import opened Grid
  import opened Render

  datatype Pen = Pen(row: Row, col: nat, style: Style)

  // ---- Parameters -------------------------------------------------------------------------------

  /** `;`-separated numerals, an absent one counting as zero. */
  function ParseParameters(s: string, current: nat): seq<nat> {
    if s == [] then [current]
    else if s[0] == ';' then [current] + ParseParameters(s[1..], 0)
    else ParseParameters(s[1..], if IsDigit(s[0]) then current * 10 + DigitValue(s[0]) else current)
  }

  function CodeToName(entries: seq<(nat, string)>, code: nat): Option<string> {
    if entries == [] then None
    else if entries[|entries| - 1].0 == code then Some(entries[|entries| - 1].1)
    else CodeToName(entries[..|entries| - 1], code)
  }

  const ATTRIBUTE_CODES: set<nat> := {0, 1, 2, 3, 4, 5, 7, 9, 22, 23, 24, 25, 27, 29, 38, 48}

  predicate DistinctCodes(entries: seq<(nat, string)>) {
    forall i, j :: 0 <= i < j < |entries| ==> entries[i].0 != entries[j].0
  }

  /** A colour table pair in which each code means one thing. */
  predicate ValidPalette(palette: Palette) {
    && DistinctCodes(palette.fg) && DistinctCodes(palette.bg)
    && (forall i :: 0 <= i < |palette.fg| ==> palette.fg[i].0 !in ATTRIBUTE_CODES)
    && (forall i :: 0 <= i < |palette.bg| ==> palette.bg[i].0 !in ATTRIBUTE_CODES)
    && (forall i, j :: 0 <= i < |palette.fg| && 0 <= j < |palette.bg| ==> palette.fg[i].0 != palette.bg[j].0)
  }

  function HexByte(n: nat): string {
    [HexDigit(n / 16 % 16), HexDigit(n % 16)]
  }

  function ApplyOne(code: nat, s: Style, palette: Palette): Style {
    if code == 0 then PLAIN
    else if code == 1 then s.(bold := true)
    else if code == 2 then s.(dim := true)
    else if code == 3 then s.(italics := true)
    else if code == 4 then s.(underscore := true)
    else if code == 5 then s.(blink := true)
    else if code == 7 then s.(reverse := true)
    else if code == 9 then s.(strikethrough := true)
    else if code == 22 then s.(bold := false, dim := false)
    else if code == 23 then s.(italics := false)
    else if code == 24 then s.(underscore := false)
    else if code == 25 then s.(blink := false)
    else if code == 27 then s.(reverse := false)
    else if code == 29 then s.(strikethrough := false)
    else
      match CodeToName(palette.fg, code)
      case Some(name) => s.(fg := name)
      case None =>
        match CodeToName(palette.bg, code)
        case Some(name) => s.(bg := name)
        case None => s
  }

  function Apply(codes: seq<nat>, s: Style, palette: Palette): Style {
    if codes == [] then s
    else if |codes| >= 5 && codes[0] == 38 && codes[1] == 2 then
      Apply(codes[5..], s.(fg := HexByte(codes[2]) + HexByte(codes[3]) + HexByte(codes[4])), palette)
    else if |codes| >= 5 && codes[0] == 48 && codes[1] == 2 then
      Apply(codes[5..], s.(bg := HexByte(codes[2]) + HexByte(codes[3]) + HexByte(codes[4])), palette)
    else Apply(codes[1..], ApplyOne(codes[0], s, palette), palette)
  }

  // ---- Drawing ----------------------------------------------------------------------------------

  function Put(c: char, pen: Pen, width: char -> int): Pen {
    var Pen(row, col, style) := pen;
    if width(c) == 1 && col < |row| then Pen(row[col := Cell([c], style)], col + 1, style)
    else if width(c) == 2 && col + 1 < |row| then
      Pen(row[col := Cell([c], style)][col + 1 := Cell([], style)], col + 2, style)
    else if width(c) == 2 && col < |row| then Pen(row[col := Cell([c], style)], col + 1, style)
    else if width(c) == 0 && 0 < col <= |row| then
      Pen(row[col - 1 := row[col - 1].(data := row[col - 1].data + [c])], col, style)
    else pen
  }

  function PutAll(s: string, pen: Pen, width: char -> int): Pen {
    if s == [] then pen else PutAll(s[1..], Put(s[0], pen, width), width)
  }

  function Interpret(text: string, pen: Pen, palette: Palette, width: char -> int): Pen
    decreases |text|
  {
    if text == [] then pen
    else
      var n := EscapeLength(text);
      if n == 0 then Interpret(text[1..], Put(text[0], pen, width), palette, width)
      else if n >= 3 && text[1] == '[' && text[n - 1] == 'm' then
        Interpret(text[n..], pen.(style := Apply(ParseParameters(text[2..n - 1], 0), pen.style, palette)), palette,
                  width)
      else Interpret(text[n..], pen, palette, width)
  }

  // ---- Parameters read back ---------------------------------------------------------------------

  lemma {:induction false} ParseDecimal(n: nat, tail: string)
    ensures ParseParameters(Decimal(n) + tail, 0) == ParseParameters(tail, n)
  {
    var last := [Digit(n % 10)];
    assert (last + tail)[0] == last[0] && (last + tail)[1..] == tail;
    if n >= 10 {
      ParseDecimal(n / 10, last + tail);
      assert Decimal(n) + tail == Decimal(n / 10) + (last + tail);
    }
  }

  lemma {:induction false} ParseTail(codes: seq<nat>, current: nat)
    ensures ParseParameters(CodesTail(codes), current) == [current] + codes
  {
    if codes != [] {
      var s := CodesTail(codes);
      assert s[0] == ';' && s[1..] == Decimal(codes[0]) + CodesTail(codes[1..]);
      ParseDecimal(codes[0], CodesTail(codes[1..]));
      ParseTail(codes[1..], codes[0]);
    }
  }

  lemma ParseBack(codes: seq<nat>)
    ensures ParseParameters(Parameters(codes), 0) == [0] + codes
  {
    var s := Parameters(codes);
    assert s[1..] == CodesTail(codes) && IsDigit(s[0]) && DigitValue(s[0]) == 0;
    ParseTail(codes, 0);
  }

  // ---- Styles read back -------------------------------------------------------------------------

  function Lower(c: char): (l: char)
    requires IsHexDigit(c)
    ensures IsHexDigit(l) && HexValue(l) == HexValue(c)
  {
    if 'A' <= c <= 'F' then (c as int - 'A' as int + 'a' as int) as char else c
  }

  /** The colour a reader sees: lower-case hex, a table name, or the default for an unknown name. */
  function Canonical(name: string, palette: Palette, isFg: bool): string {
    if name == "" || name == "default" then "default"
    else if IsHex6(name) then
      [Lower(name[0]), Lower(name[1]), Lower(name[2]), Lower(name[3]), Lower(name[4]), Lower(name[5])]
    else if NameToCode(if isFg then palette.fg else palette.bg, name).Some? then name
    else "default"
  }

  function CanonicalStyle(s: Style, palette: Palette): Style {
    s.(fg := Canonical(s.fg, palette, true), bg := Canonical(s.bg, palette, false))
  }

  function CanonicalRow(row: Row, palette: Palette): (r: Row)
    ensures |r| == |row|
    ensures forall c :: 0 <= c < |row| ==> r[c] == row[c].(style := CanonicalStyle(row[c].style, palette))
  {
    if row == [] then []
    else [row[0].(style := CanonicalStyle(row[0].style, palette))] + CanonicalRow(row[1..], palette)
  }

  lemma HexByteOfPair(name: string, i: nat)
    requires i + 1 < |name| && IsHexDigit(name[i]) && IsHexDigit(name[i + 1])
    ensures HexByte(HexPair(name, i)) == [Lower(name[i]), Lower(name[i + 1])]
  {
    var high, low := HexValue(name[i]), HexValue(name[i + 1]);
    HexDigits(high, low);
    HexDigitOf(high, Lower(name[i]));
    HexDigitOf(low, Lower(name[i + 1]));
  }

  lemma HexDigits(high: nat, low: nat)
    requires high < 16 && low < 16
    ensures (16 * high + low) / 16 % 16 == high && (16 * high + low) % 16 == low
  {
  }

  lemma HexDigitOf(n: nat, l: char)
    requires n < 16 && IsHexDigit(l) && !('A' <= l <= 'F') && HexValue(l) == n
    ensures HexDigit(n) == l
  {
  }

  lemma {:induction false} NameOfCode(entries: seq<(nat, string)>, code: nat, i: nat)
    requires DistinctCodes(entries) && i < |entries| && entries[i].0 == code
    ensures CodeToName(entries, code) == Some(entries[i].1)
  {
    if i < |entries| - 1 {
      NameOfCode(entries[..|entries| - 1], code, i);
    }
  }

  lemma {:induction false} NoNameOfCode(entries: seq<(nat, string)>, code: nat)
    requires forall i :: 0 <= i < |entries| ==> entries[i].0 != code
    ensures CodeToName(entries, code) == None
  {
    if entries != [] {
      NoNameOfCode(entries[..|entries| - 1], code);
    }
  }

  lemma ApplyOn(flag: bool, code: nat, rest: seq<nat>, s: Style, palette: Palette)
    requires code != 38 && code != 48
    ensures Apply(On(flag, code, rest), s, palette)
            == Apply(rest, if flag then ApplyOne(code, s, palette) else s, palette)
  {
    if flag {
      assert On(flag, code, rest)[1..] == rest;
    }
  }

  lemma ApplyTrueColor(isFg: bool, r: nat, g: nat, b: nat, rest: seq<nat>, s: Style, palette: Palette)
    ensures var color := HexByte(r) + HexByte(g) + HexByte(b);
            Apply([if isFg then 38 else 48, 2, r, g, b] + rest, s, palette)
            == Apply(rest, if isFg then s.(fg := color) else s.(bg := color), palette)
  {
    var codes := [if isFg then 38 else 48, 2, r, g, b] + rest;
    assert codes[5..] == rest;
  }

  lemma HexText(name: string, palette: Palette, isFg: bool)
    requires IsHex6(name)
    ensures HexByte(HexPair(name, 0)) + HexByte(HexPair(name, 2)) + HexByte(HexPair(name, 4))
            == Canonical(name, palette, isFg)
  {
    HexByteOfPair(name, 0);
    HexByteOfPair(name, 2);
    HexByteOfPair(name, 4);
  }

  lemma ApplyNamed(entries: seq<(nat, string)>, name: string, isFg: bool, rest: seq<nat>, s: Style, palette: Palette)
    requires ValidPalette(palette) && entries == if isFg then palette.fg else palette.bg
    requires NameToCode(entries, name).Some?
    ensures Apply([NameToCode(entries, name).value] + rest, s, palette)
            == Apply(rest, if isFg then s.(fg := name) else s.(bg := name), palette)
  {
    var code := NameToCode(entries, name).value;
    NamedCode(entries, name, isFg, palette);
    NamedOnly(code, name, isFg, s, palette);
    assert ([code] + rest)[1..] == rest;
  }

  /** The code of a name is no attribute's, and the tables map it back to the name. */
  lemma NamedCode(entries: seq<(nat, string)>, name: string, isFg: bool, palette: Palette)
    requires ValidPalette(palette) && entries == if isFg then palette.fg else palette.bg
    requires NameToCode(entries, name).Some?
    ensures var code := NameToCode(entries, name).value;
            && code !in ATTRIBUTE_CODES && CodeToName(entries, code) == Some(name)
            && (!isFg ==> CodeToName(palette.fg, code) == None)
  {
    var code := NameToCode(entries, name).value;
    var i :| 0 <= i < |entries| && entries[i] == (code, name);
    NameOfCode(entries, code, i);
    if !isFg {
      NoNameOfCode(palette.fg, code);
    }
    assert entries[i].0 !in ATTRIBUTE_CODES;
  }

  lemma NamedOnly(code: nat, name: string, isFg: bool, s: Style, palette: Palette)
    requires code !in ATTRIBUTE_CODES
    requires CodeToName(if isFg then palette.fg else palette.bg, code) == Some(name)
    requires !isFg ==> CodeToName(palette.fg, code) == None
    ensures ApplyOne(code, s, palette) == (if isFg then s.(fg := name) else s.(bg := name))
    ensures code != 38 && code != 48
  {
  }

  /** One colour's parameters set that colour, and nothing else, to its canonical name. */
  lemma ApplyColor(name: string, isFg: bool, rest: seq<nat>, s: Style, palette: Palette)
    requires ValidPalette(palette) && if isFg then s.fg == "default" else s.bg == "default"
    ensures Apply(ColorCodes(name, palette, isFg) + rest, s, palette)
            == Apply(rest, if isFg then s.(fg := Canonical(name, palette, true))
                                   else s.(bg := Canonical(name, palette, false)), palette)
  {
    var codes := ColorCodes(name, palette, isFg);
    if codes == [] {
      assert codes + rest == rest;
    } else if IsHex6(name) {
      ApplyTrueColor(isFg, HexPair(name, 0), HexPair(name, 2), HexPair(name, 4), rest, s, palette);
      HexText(name, palette, isFg);
    } else {
      ApplyNamed(if isFg then palette.fg else palette.bg, name, isFg, rest, s, palette);
    }
  }

  lemma ApplyLeadingAttributes(style: Style, rest: seq<nat>, palette: Palette)
    ensures Apply(On(style.bold, 1, On(style.dim, 2, On(style.italics, 3, rest))), PLAIN, palette)
            == Apply(rest, PLAIN.(bold := style.bold, dim := style.dim, italics := style.italics), palette)
  {
    var c3 := On(style.italics, 3, rest);
    var c2 := On(style.dim, 2, c3);
    ApplyOn(style.bold, 1, c2, PLAIN, palette);
    ApplyOn(style.dim, 2, c3, PLAIN.(bold := style.bold), palette);
    ApplyOn(style.italics, 3, rest, PLAIN.(bold := style.bold, dim := style.dim), palette);
  }

  lemma ApplyTrailingAttributes(style: Style, rest: seq<nat>, s: Style, palette: Palette)
    requires !s.underscore && !s.blink && !s.reverse && !s.strikethrough
    ensures Apply(On(style.underscore, 4, On(style.blink, 5, On(style.reverse, 7, On(style.strikethrough, 9, rest)))),
                  s, palette)
            == Apply(rest, s.(underscore := style.underscore, blink := style.blink, reverse := style.reverse,
                              strikethrough := style.strikethrough), palette)
  {
    var c7 := On(style.strikethrough, 9, rest);
    var c6 := On(style.reverse, 7, c7);
    var c5 := On(style.blink, 5, c6);
    var s4 := s.(underscore := style.underscore);
    var s5 := s4.(blink := style.blink);
    var s6 := s5.(reverse := style.reverse);
    ApplyOn(style.underscore, 4, c5, s, palette);
    ApplyOn(style.blink, 5, c6, s4, palette);
    ApplyOn(style.reverse, 7, c7, s5, palette);
    ApplyOn(style.strikethrough, 9, rest, s6, palette);
  }

  lemma ApplyColors(style: Style, s: Style, palette: Palette)
    requires ValidPalette(palette) && s.fg == "default" && s.bg == "default"
    ensures Apply(ColorCodes(style.fg, palette, true) + ColorCodes(style.bg, palette, false), s, palette)
            == s.(fg := Canonical(style.fg, palette, true), bg := Canonical(style.bg, palette, false))
  {
    var bg := ColorCodes(style.bg, palette, false);
    ApplyColor(style.fg, true, bg, s, palette);
    assert bg + [] == bg;
    ApplyColor(style.bg, false, [], s.(fg := Canonical(style.fg, palette, true)), palette);
  }

  lemma ApplyReset(codes: seq<nat>, s: Style, palette: Palette)
    ensures Apply([0] + codes, s, palette) == Apply(codes, PLAIN, palette)
  {
    assert ([0] + codes)[1..] == codes;
  }

  /** From any style, a transition's parameters select exactly the rendered style's canonical form. */
  lemma ApplySgr(style: Style, s: Style, palette: Palette)
    requires ValidPalette(palette)
    ensures Apply([0] + SgrCodes(style, palette), s, palette) == CanonicalStyle(style, palette)
  {
    ApplyReset(SgrCodes(style, palette), s, palette);
    var colors := ColorCodes(style.fg, palette, true) + ColorCodes(style.bg, palette, false);
    var trailing :=
      On(style.underscore, 4, On(style.blink, 5, On(style.reverse, 7, On(style.strikethrough, 9, colors))));
    var s3 := PLAIN.(bold := style.bold, dim := style.dim, italics := style.italics);
    ApplyLeadingAttributes(style, trailing, palette);
    ApplyTrailingAttributes(style, colors, s3, palette);
    ApplyColors(style, s3.(underscore := style.underscore, blink := style.blink, reverse := style.reverse,
                           strikethrough := style.strikethrough), palette);
  }

  // ---- Lines read back --------------------------------------------------------------------------

  lemma InterpretTransition(codes: seq<nat>, rest: string, pen: Pen, palette: Palette, width: char -> int)
    ensures Interpret(Transition(codes) + rest, pen, palette, width)
            == Interpret(rest, pen.(style := Apply([0] + codes, pen.style, palette)), palette, width)
  {
    var text := Transition(codes) + rest;
    var n := |Parameters(codes)| + 3;
    CsiOfSgr(Parameters(codes), rest);
    ParseBack(codes);
    assert text[n..] == rest && text[2..n - 1] == Parameters(codes) && text[n - 1] == 'm';
  }

  lemma InterpretOpening(prev: Option<Style>, style: Style, rest: string, pen: Pen, palette: Palette,
                         width: char -> int)
    requires ValidPalette(palette)
    requires prev.Some? ==> pen.style == CanonicalStyle(prev.value, palette)
    ensures Interpret(Opening(prev, style, palette) + rest, pen, palette, width)
            == Interpret(rest, pen.(style := CanonicalStyle(style, palette)), palette, width)
  {
    if prev == Some(style) {
      assert [] + rest == rest;
    } else {
      InterpretTransition(SgrCodes(style, palette), rest, pen, palette, width);
      ApplySgr(style, pen.style, palette);
    }
  }

  lemma {:induction false} InterpretPlain(s: string, rest: string, pen: Pen, palette: Palette, width: char -> int)
    requires ESC !in s
    ensures Interpret(s + rest, pen, palette, width) == Interpret(rest, PutAll(s, pen, width), palette, width)
  {
    if s == [] {
      assert s + rest == rest;
    } else {
      assert (s + rest)[1..] == s[1..] + rest;
      InterpretPlain(s[1..], rest, Put(s[0], pen, width), palette, width);
    }
  }

  /** Zero-width marks gather on the cell before the pen. */
  lemma {:induction false} PutMarks(s: string, pen: Pen, width: char -> int)
    requires 0 < pen.col <= |pen.row|
    requires forall i :: 0 <= i < |s| ==> width(s[i]) == 0
    ensures PutAll(s, pen, width)
            == pen.(row := pen.row[pen.col - 1 := pen.row[pen.col - 1].(data := pen.row[pen.col - 1].data + s)])
  {
    var cell := pen.row[pen.col - 1];
    if s == [] {
      assert cell.data + [] == cell.data;
      assert pen.row[pen.col - 1 := cell] == pen.row;
    } else {
      PutMarks(s[1..], Put(s[0], pen, width), width);
      assert cell.data + [s[0]] + s[1..] == cell.data + s;
    }
  }

  /** The cells a glyph covers: two for a wide one with room for its continuation. */
  function Advance(row: Row, c: nat, width: char -> int): (n: nat)
    requires c < |row|
    ensures c + n <= |row| && (n == 1 || n == 2)
  {
    if Wide(row[c], width) && c + 1 < |row| then 2 else 1
  }

  /** A row read up to column `c` and still blank beyond it. */
  function HalfRead(row: Row, c: nat, palette: Palette): (r: Row)
    requires c <= |row|
    ensures |r| == |row|
    ensures forall k :: 0 <= k < c ==> r[k] == row[k].(style := CanonicalStyle(row[k].style, palette))
    ensures forall k :: c <= k < |row| ==> r[k] == BLANK
  {
    CanonicalRow(row[..c], palette) + seq(|row| - c, i => BLANK)
  }

  lemma ReadOneCell(row: Row, c: nat, palette: Palette)
    requires c < |row|
    ensures HalfRead(row, c, palette)[c := row[c].(style := CanonicalStyle(row[c].style, palette))]
            == HalfRead(row, c + 1, palette)
  {
  }

  lemma PutNarrow(row: Row, c: nat, palette: Palette, width: char -> int)
    requires c < |row| && IsGlyph(row, c, width) && Advance(row, c, width) == 1
    ensures var style := CanonicalStyle(row[c].style, palette);
            PutAll(row[c].data, Pen(HalfRead(row, c, palette), c, style), width)
              == Pen(HalfRead(row, c + 1, palette), c + 1, style)
  {
    var style := CanonicalStyle(row[c].style, palette);
    var data := row[c].data;
    var blank := HalfRead(row, c, palette);
    var first := Pen(blank[c := Cell([data[0]], style)], c + 1, style);
    assert Put(data[0], Pen(blank, c, style), width) == first;
    PutMarks(data[1..], first, width);
    assert [data[0]] + data[1..] == data;
    ReadOneCell(row, c, palette);
    assert first.row[c := Cell(data, style)] == blank[c := Cell(data, style)];
  }

  lemma PutWide(row: Row, c: nat, palette: Palette, width: char -> int)
    requires WellFormed(row, width) && c < |row| && IsGlyph(row, c, width) && Advance(row, c, width) == 2
    ensures var style := CanonicalStyle(row[c].style, palette);
            PutAll(row[c].data, Pen(HalfRead(row, c, palette), c, style), width)
              == Pen(HalfRead(row, c + 2, palette), c + 2, style)
  {
    var style := CanonicalStyle(row[c].style, palette);
    var data := row[c].data;
    assert IsContinuation(row, c + 1, width);
    assert data == [data[0]] && data[1..] == [];
    ReadOneCell(row, c, palette);
    ReadOneCell(row, c + 1, palette);
    assert row[c].(style := style) == Cell(data, style);
    assert row[c + 1].(style := CanonicalStyle(row[c + 1].style, palette)) == Cell([], style);
  }

  lemma PutGlyph(row: Row, c: nat, palette: Palette, width: char -> int)
    requires WellFormed(row, width) && c < |row| && IsGlyph(row, c, width)
    ensures var style := CanonicalStyle(row[c].style, palette);
            var n := c + Advance(row, c, width);
            PutAll(row[c].data, Pen(HalfRead(row, c, palette), c, style), width)
              == Pen(HalfRead(row, n, palette), n, style)
  {
    if Advance(row, c, width) == 1 {
      PutNarrow(row, c, palette, width);
    } else {
      PutWide(row, c, palette, width);
    }
  }

  lemma GlyphWithoutEscape(row: Row, c: nat, width: char -> int)
    requires width(ESC) < 0 && c < |row| && IsGlyph(row, c, width)
    ensures ESC !in row[c].data
  {
  }

  lemma RenderCons(cell: Cell, rest: Row, prev: Option<Style>, palette: Palette)
    ensures RenderCells([cell] + rest, prev, palette)
         == Opening(prev, cell.style, palette) + (cell.data + RenderCells(rest, Some(cell.style), palette))
    ensures cell.data == [] && prev == Some(cell.style) ==>
              RenderCells([cell] + rest, prev, palette) == RenderCells(rest, prev, palette)
  {
    assert ([cell] + rest)[1..] == rest;
    var tail := RenderCells(rest, Some(cell.style), palette);
    assert [] + tail == tail;
  }

  /** A wide glyph's continuation prints nothing of its own. */
  lemma RenderGlyph(row: Row, c: nat, end: nat, prev: Option<Style>, palette: Palette, width: char -> int)
    requires WellFormed(row, width) && c < end <= |row| && IsGlyph(row, c, width)
    requires c + Advance(row, c, width) <= end
    ensures RenderCells(row[c..end], prev, palette)
            == Opening(prev, row[c].style, palette)
               + (row[c].data + RenderCells(row[c + Advance(row, c, width)..end], Some(row[c].style), palette))
  {
    RenderCell(row, c, end, prev, palette);
    if Advance(row, c, width) == 2 {
      assert IsContinuation(row, c + 1, width);
      SilentCell(row, c + 1, end, row[c].style, palette);
    }
  }

  /** An empty cell in the style before it prints nothing. */
  lemma SilentCell(row: Row, c: nat, end: nat, style: Style, palette: Palette)
    requires c < end <= |row| && row[c].data == [] && row[c].style == style
    ensures RenderCells(row[c..end], Some(style), palette) == RenderCells(row[c + 1..end], Some(style), palette)
  {
    RenderCell(row, c, end, Some(style), palette);
  }

  lemma RenderCell(row: Row, c: nat, end: nat, prev: Option<Style>, palette: Palette)
    requires c < end <= |row|
    ensures RenderCells(row[c..end], prev, palette)
            == Opening(prev, row[c].style, palette)
               + (row[c].data + RenderCells(row[c + 1..end], Some(row[c].style), palette))
    ensures row[c].data == [] && prev == Some(row[c].style) ==>
              RenderCells(row[c..end], prev, palette) == RenderCells(row[c + 1..end], prev, palette)
  {
    assert row[c..end] == [row[c]] + row[c + 1..end];
    RenderCons(row[c], row[c + 1..end], prev, palette);
  }

  /** Reading one glyph: its transition if the style changes, its characters, and its continuation. */
  lemma ReadGlyph(row: Row, c: nat, end: nat, prev: Option<Style>, pen: Pen, palette: Palette, width: char -> int)
    requires ValidPalette(palette) && width(ESC) < 0 && WellFormed(row, width)
    requires c < end <= |row| && IsGlyph(row, c, width) && c + Advance(row, c, width) <= end
    requires prev.Some? ==> pen.style == CanonicalStyle(prev.value, palette)
    ensures var styled := pen.(style := CanonicalStyle(row[c].style, palette));
            Interpret(RenderCells(row[c..end], prev, palette) + RESET, pen, palette, width)
            == Interpret(RenderCells(row[c + Advance(row, c, width)..end], Some(row[c].style), palette) + RESET,
                         PutAll(row[c].data, styled, width), palette, width)
  {
    var style := row[c].style;
    var tail := RenderCells(row[c + Advance(row, c, width)..end], Some(style), palette);
    RenderGlyph(row, c, end, prev, palette, width);
    Reassociate(Opening(prev, style, palette), row[c].data, tail, RESET);
    InterpretOpening(prev, style, row[c].data + (tail + RESET), pen, palette, width);
    GlyphWithoutEscape(row, c, width);
    InterpretPlain(row[c].data, tail + RESET, pen.(style := CanonicalStyle(style, palette)), palette, width);
  }

  lemma {:induction false} ReadFrom(row: Row, c: nat, end: nat, prev: Option<Style>, pen: Pen, palette: Palette,
                                    width: char -> int)
    requires ValidPalette(palette) && width(ESC) < 0 && WellFormed(row, width)
    requires c <= end <= |row| && (forall k :: end <= k < |row| ==> row[k] == BLANK)
    requires c > 0 && c < |row| ==> !Wide(row[c - 1], width) || IsContinuation(row, c - 1, width)
    requires pen.row == HalfRead(row, c, palette) && pen.col == c
    requires prev.Some? ==> pen.style == CanonicalStyle(prev.value, palette)
    ensures Interpret(RenderCells(row[c..end], prev, palette) + RESET, pen, palette, width)
            == Pen(HalfRead(row, end, palette), end, PLAIN)
    decreases end - c
  {
    if c == end {
      assert [] + RESET == RESET && RESET + [] == RESET;
      InterpretTransition([], [], pen, palette, width);
    } else {
      var style := row[c].style;
      var n := c + Advance(row, c, width);
      assert IsGlyph(row, c, width);
      if n == c + 2 {
        assert IsContinuation(row, c + 1, width) && row[c + 1] != BLANK;
      }
      ReadGlyph(row, c, end, prev, pen, palette, width);
      var styled := pen.(style := CanonicalStyle(style, palette));
      PutGlyph(row, c, palette, width);
      ReadFrom(row, n, end, Some(style), PutAll(row[c].data, styled, width), palette, width);
    }
  }

  lemma BlankIsCanonical(palette: Palette)
    ensures CanonicalStyle(PLAIN, palette) == PLAIN
  {
  }

  /** Round trip: reading a rendered line from reset onto a blank row rebuilds every cell, with its
      colours in canonical form, and leaves the rendition reset. */
  lemma RenderRoundTrip(row: Row, palette: Palette, width: char -> int)
    requires ValidPalette(palette) && width(ESC) < 0 && WellFormed(row, width)
    ensures Interpret(RenderedLine(row, palette), Pen(seq(|row|, i => BLANK), 0, PLAIN), palette, width)
            == Pen(CanonicalRow(row, palette), KeptColumns(row), PLAIN)
  {
    var end := KeptColumns(row);
    var blank := seq(|row|, i => BLANK);
    assert row[..0] == [] && HalfRead(row, 0, palette) == blank;
    assert row[0..end] == row[..end];
    ReadFrom(row, 0, end, None, Pen(blank, 0, PLAIN), palette, width);
    BlankIsCanonical(palette);
    assert HalfRead(row, end, palette) == CanonicalRow(row, palette);
  }

  /** The rebuilt row is the original one exactly when its colours were canonical to begin with. */
  lemma RoundTripIsExact(row: Row, palette: Palette, width: char -> int)
    requires ValidPalette(palette) && width(ESC) < 0 && WellFormed(row, width)
    ensures Interpret(RenderedLine(row, palette), Pen(seq(|row|, i => BLANK), 0, PLAIN), palette, width).row == row
            <==> forall c :: 0 <= c < |row| ==> CanonicalStyle(row[c].style, palette) == row[c].style
  {
    RenderRoundTrip(row, palette, width);
    var r := CanonicalRow(row, palette);
    if forall c :: 0 <= c < |row| ==> CanonicalStyle(row[c].style, palette) == row[c].style {
      assert r == row;
    }
    if r == row {
      forall c | 0 <= c < |row|
        ensures CanonicalStyle(row[c].style, palette) == row[c].style
      {
        assert r[c].style == row[c].style;
      }
    }
  }

  /** A colour that no table names is rendered, and read back, as the default. */
  lemma UnknownColourIsLost(palette: Palette, width: char -> int)
    requires ValidPalette(palette) && width(ESC) < 0 && width('x') == 1 && NameToCode(palette.fg, "mauve").None?
    ensures var row := [Cell("x", PLAIN.(fg := "mauve"))];
            Interpret(RenderedLine(row, palette), Pen(seq(|row|, i => BLANK), 0, PLAIN), palette, width).row
            == [Cell("x", PLAIN)] != row
  {
    var row := [Cell("x", PLAIN.(fg := "mauve"))];
    assert IsGlyph(row, 0, width);
    RenderRoundTrip(row, palette, width);
  }

  // ---- Which colours and codes these are ----------------------------------------------------------

  const LOWER_HEX := "0123456789abcdef"
  const ANY_HEX := "0123456789abcdefABCDEF"

  predicate SpelledIn(name: string, n: nat, digits: string) {
    |name| >= n && forall i :: 0 <= i < n ==> name[i] in digits
  }

  /** Six hex digits of either case, perhaps with a newline. */
  predicate LooksHex(name: string) {
    (|name| == 6 || (|name| == 7 && name[6] == '\n')) && SpelledIn(name, 6, ANY_HEX)
  }

  predicate Listed(entries: seq<(nat, string)>, name: string) {
    exists i :: 0 <= i < |entries| && entries[i].1 == name
  }

  lemma AnyHexDigits(c: char)
    ensures c in ANY_HEX <==> IsHexDigit(c)
    ensures c in LOWER_HEX <==> IsHexDigit(c) && Lower(c) == c
  {
    if IsHexDigit(c) {
      var n := if '0' <= c <= '9' then c as int - '0' as int
               else if 'a' <= c <= 'f' then c as int - 'a' as int + 10
               else c as int - 'A' as int + 16;
      assert ANY_HEX[n] == c;
      if Lower(c) == c {
        assert LOWER_HEX[n] == c;
      }
    }
  }

  lemma {:induction false} ListedHasCode(entries: seq<(nat, string)>, name: string)
    ensures NameToCode(entries, name).Some? <==> Listed(entries, name)
  {
    if entries != [] {
      ListedHasCode(entries[..|entries| - 1], name);
      if Listed(entries, name) && entries[|entries| - 1].1 != name {
        var i :| 0 <= i < |entries| && entries[i].1 == name;
        assert entries[..|entries| - 1][i].1 == name;
      }
    }
  }

  lemma HexNames(name: string)
    ensures IsHex6(name) <==> LooksHex(name)
    ensures IsHex6(name) ==> ([Lower(name[0]), Lower(name[1]), Lower(name[2]), Lower(name[3]), Lower(name[4]),
                               Lower(name[5])] == name
                              <==> |name| == 6 && SpelledIn(name, 6, LOWER_HEX))
  {
    forall i | 0 <= i < 6 && |name| >= 6
      ensures name[i] in ANY_HEX <==> IsHexDigit(name[i])
      ensures name[i] in LOWER_HEX <==> IsHexDigit(name[i]) && Lower(name[i]) == name[i]
    {
      AnyHexDigits(name[i]);
    }
    if IsHex6(name) {
      var l := [Lower(name[0]), Lower(name[1]), Lower(name[2]), Lower(name[3]), Lower(name[4]), Lower(name[5])];
      if l == name {
        assert forall i :: 0 <= i < 6 ==> l[i] == Lower(name[i]);
      }
    }
  }

  /** The colours that a rendered frame keeps as they are: the default, six lower-case hex digits, and the
      names of the table that do not look like hex. Every other name comes back as another. */
  lemma CanonicalNames(name: string, palette: Palette, isFg: bool)
    ensures Canonical(name, palette, isFg) == name <==>
            || name == "default"
            || (|name| == 6 && SpelledIn(name, 6, LOWER_HEX))
            || (name != [] && !LooksHex(name) && Listed(if isFg then palette.fg else palette.bg, name))
  {
    HexNames(name);
    ListedHasCode(if isFg then palette.fg else palette.bg, name);
    assert |"default"| == 7 && "default"[6] == 't';
  }

  /** The parameters of a true colour are its three bytes, read as pairs of hex digits. */
  lemma TrueColourCodes(digits: seq<nat>, palette: Palette, isFg: bool)
    requires |digits| == 6 && forall i :: 0 <= i < 6 ==> digits[i] < 16
    ensures var name := [LOWER_HEX[digits[0]], LOWER_HEX[digits[1]], LOWER_HEX[digits[2]], LOWER_HEX[digits[3]],
                         LOWER_HEX[digits[4]], LOWER_HEX[digits[5]]];
            ColorCodes(name, palette, isFg)
            == [if isFg then 38 else 48, 2, 16 * digits[0] + digits[1], 16 * digits[2] + digits[3], 16 * digits[4]
                + digits[5]]
  {
    forall i | 0 <= i < 6
      ensures IsHexDigit(LOWER_HEX[digits[i]]) && HexValue(LOWER_HEX[digits[i]]) == digits[i]
    {
      DigitAt(digits[i]);
    }
  }

  lemma DigitAt(n: nat)
    requires n < 16
    ensures IsHexDigit(LOWER_HEX[n]) && HexValue(LOWER_HEX[n]) == n
  {
  }

  /** The parameter of a named colour is the last code its table lists for the name. */
  lemma {:induction false} NamedColourCode(entries: seq<(nat, string)>, name: string, i: nat)
    requires i < |entries| && entries[i].1 == name && forall j :: i < j < |entries| ==> entries[j].1 != name
    ensures NameToCode(entries, name) == Some(entries[i].0)
    decreases |entries|
  {
    if i < |entries| - 1 {
      NamedColourCode(entries[..|entries| - 1], name, i);
    }
  }

  /** Each attribute alone selects its own parameter (section 8.3.117 of ECMA-48), and several are listed in
      ascending order. */
  lemma AttributeCodes(palette: Palette)
    ensures SgrCodes(PLAIN, palette) == []
    ensures SgrCodes(PLAIN.(bold := true), palette) == [1] && SgrCodes(PLAIN.(dim := true), palette) == [2]
    ensures SgrCodes(PLAIN.(italics := true), palette) == [3] && SgrCodes(PLAIN.(underscore := true), palette) == [4]
    ensures SgrCodes(PLAIN.(blink := true), palette) == [5] && SgrCodes(PLAIN.(reverse := true), palette) == [7]
    ensures SgrCodes(PLAIN.(strikethrough := true), palette) == [9]
    ensures SgrCodes(Style(true, true, true, true, true, true, true, "default", "default"), palette)
            == [1, 2, 3, 4, 5, 7, 9]
  {
  }

  /** A transition is written as a reset and the parameters, separated by semicolons. */
  lemma TransitionText()
    ensures RESET == [ESC] + "[0m" && Transition([1, 38]) == [ESC] + "[0;1;38m"
  {
    assert Decimal(38) == "38" by {
      assert Decimal(3) == "3";
    }
    assert CodesTail([38]) == ";" + Decimal(38) + CodesTail([]) by {
      assert [38][1..] == [];
    }
    assert [1, 38][1..] == [38];
    assert Decimal(1) == "1";
  }
}
