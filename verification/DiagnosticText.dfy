/** The two cursor loops of the diagnostic redaction, and what they compute in terms of text positions. */
module DiagnosticText {
  import opened Text
  import opened AnsiEscape
  import opened Identities
  import opened Diagnostic
  import opened Redaction

  /** Positions of the visible characters, counted from `at`. */
  function Offsets(items: seq<Item>, at: nat): seq<nat>
    decreases |items|
  {
    if items == [] then []
    else
      match items[0]
      case Vis(_, _) => [at] + Offsets(items[1..], at + 1)
      case Gap(g) => Offsets(items[1..], at + |g|)
  }

  /** The text the items were scanned from. */
  function Glue(items: seq<Item>): string {
    if items == [] then [] else (match items[0] case Vis(c, _) => [c] case Gap(g) => g) + Glue(items[1..])
  }

  lemma {:induction false} GlueItems(s: string)
    ensures Glue(Items(s)) == s
    decreases |s|
  {
    if s != [] {
      if !IsShown(s) {
        var a, b := GapSplit(s);
        ItemsOfGap(a, b);
        GlueItems(b);
      } else {
        assert s == [s[0]] + s[1..];
        ItemsOfVis(s[0], s[1..]);
        GlueItems(s[1..]);
      }
    }
  }

  lemma {:induction false} OffsetsCount(items: seq<Item>, at: nat)
    ensures |Offsets(items, at)| == |Chars(items)|
    decreases |items|
  {
    if items != [] {
      OffsetsCount(items[1..], at + (match items[0] case Vis(_, _) => 1 case Gap(g) => |g|));
    }
  }

  predicate Increasing(offsets: seq<nat>, lo: nat) {
    offsets == [] || (lo <= offsets[0] && Increasing(offsets[1..], offsets[0] + 1))
  }

  lemma {:induction false} IncreasingFromLower(offsets: seq<nat>, lo: nat, lower: nat)
    requires Increasing(offsets, lo) && lower <= lo
    ensures Increasing(offsets, lower)
  {
  }

  lemma {:induction false} IncreasingPairs(offsets: seq<nat>, lo: nat, x: nat, y: nat)
    requires Increasing(offsets, lo) && x < y < |offsets|
    ensures lo <= offsets[x] < offsets[y]
    decreases y
  {
    if x == 0 {
      if y > 1 {
        IncreasingPairs(offsets[1..], offsets[0] + 1, 0, y - 1);
      }
    } else {
      IncreasingPairs(offsets[1..], offsets[0] + 1, x - 1, y - 1);
    }
  }

  lemma {:induction false} OffsetsIncrease(items: seq<Item>, at: nat)
    ensures Increasing(Offsets(items, at), at)
    decreases |items|
  {
    if items != [] {
      match items[0]
      case Vis(_, _) => OffsetsIncrease(items[1..], at + 1);
      case Gap(g) =>
        OffsetsIncrease(items[1..], at + |g|);
        IncreasingFromLower(Offsets(items[1..], at + |g|), at + |g|, at);
    }
  }

  /** `text` continues with the items at position `at`, and each offset holds its own character. */
  lemma {:induction false} OffsetsHold(text: string, before: string, items: seq<Item>, x: nat)
    requires text == before + Glue(items) && x < |Chars(items)|
    ensures x < |Offsets(items, |before|)| && Offsets(items, |before|)[x] < |text|
    ensures text[Offsets(items, |before|)[x]] == Chars(items)[x]
    decreases |items|
  {
    OffsetsCount(items, |before|);
    var head := match items[0] case Vis(c, _) => [c] case Gap(g) => g;
    var rest := items[1..];
    assert text == (before + head) + Glue(rest);
    if items[0].Gap? {
      OffsetsHold(text, before + head, rest, x);
    } else if x > 0 {
      OffsetsHold(text, before + head, rest, x - 1);
    }
  }

  lemma ParseGlue(text: string)
    ensures Glue(Parse(text)) == text
  {
    var n := LeadLength(text);
    GlueItems(text[n..]);
    var items := Parse(text);
    assert items[1..] == Items(text[n..]);
    assert text == text[..n] + text[n..];
  }

  /** The offsets of the projection are strictly increasing positions of the text, and each holds its own
      visible character. */
  lemma ProjectionIndexesText(text: string)
    ensures var v, offsets := Chars(Parse(text)), Offsets(Parse(text), 0);
            && |offsets| == |v|
            && (forall x :: 0 <= x < |v| ==> offsets[x] < |text| && text[offsets[x]] == v[x])
            && (forall x, y :: 0 <= x < y < |v| ==> offsets[x] < offsets[y])
  {
    ParseGlue(text);
    OffsetsCount(Parse(text), 0);
    OffsetsIncrease(Parse(text), 0);
    var v, offsets := Chars(Parse(text)), Offsets(Parse(text), 0);
    assert [] + Glue(Parse(text)) == text;
    forall x | 0 <= x < |v| ensures offsets[x] < |text| && text[offsets[x]] == v[x] {
      OffsetsHold(text, [], Parse(text), x);
    }
    forall x, y | 0 <= x < y < |v| ensures offsets[x] < offsets[y] {
      IncreasingPairs(offsets, 0, x, y);
    }
  }

  // ---- The projection loop ----------------------------------------------------------------------

  function SgrTailAt(text: string, i: nat, inter: bool): (n: nat)
    requires i <= |text|
    ensures i + n <= |text|
    decreases |text| - i
  {
    if i == |text| then 0
    else if text[i] == 'm' then 1
    else if (IsParameter(text[i]) && !inter) || IsIntermediate(text[i]) then
      var r := SgrTailAt(text, i + 1, IsIntermediate(text[i]));
      if r == 0 then 0 else r + 1
    else 0
  }

  /** `DIAGNOSTIC_SGR_PATTERN.match(text, i)`: the match's length, or 0. */
  function SgrAt(text: string, i: nat): (n: nat)
    requires i <= |text|
    ensures i + n <= |text|
    ensures n > 0 ==> text[i] == ESC
  {
    if i + 2 > |text| || text[i] != ESC || text[i + 1] != '[' then 0
    else
      var r := SgrTailAt(text, i + 2, false);
      if r == 0 then 0 else r + 2
  }

  /** `s` is the text from the cursor on. */
  predicate Rest(text: string, cursor: nat, s: string) {
    cursor + |s| == |text| && forall k :: 0 <= k < |s| ==> text[cursor + k] == s[k]
  }

  lemma RestStep(text: string, cursor: nat, a: string, b: string)
    requires Rest(text, cursor, a + b)
    ensures Rest(text, cursor + |a|, b)
  {
    forall k | 0 <= k < |b| ensures text[cursor + |a| + k] == b[k] {
      assert (a + b)[|a| + k] == b[k];
    }
  }

  lemma RestDrop(text: string, cursor: nat, s: string, n: nat)
    requires Rest(text, cursor, s) && n <= |s|
    ensures Rest(text, cursor + n, s[n..])
  {
    assert s == s[..n] + s[n..];
    RestStep(text, cursor, s[..n], s[n..]);
  }

  lemma {:induction false} SgrTailAtIsTail(text: string, i: nat, inter: bool, s: string)
    requires Rest(text, i, s)
    ensures SgrTailAt(text, i, inter) == SgrTail(s, inter)
    decreases |s|
  {
    if s != [] {
      RestDrop(text, i, s, 1);
      SgrTailAtIsTail(text, i + 1, IsIntermediate(s[0]), s[1..]);
    }
  }

  lemma SgrAtIsLength(text: string, i: nat, s: string)
    requires Rest(text, i, s)
    ensures SgrAt(text, i) == SgrLength(s)
  {
    if |s| >= 2 {
      RestDrop(text, i, s, 2);
      SgrTailAtIsTail(text, i + 2, false, s[2..]);
    }
  }

  /** Where the styles, spaces and tabs from `cursor` on end. */
  function IndentEnd(text: string, cursor: nat): (r: nat)
    requires cursor <= |text|
    ensures cursor <= r <= |text|
    decreases |text| - cursor
  {
    if cursor == |text| then cursor
    else if SgrAt(text, cursor) > 0 then IndentEnd(text, cursor + SgrAt(text, cursor))
    else if text[cursor] == ' ' || text[cursor] == '\t' then IndentEnd(text, cursor + 1)
    else cursor
  }

  function MarkEnd(text: string, cursor: nat): (r: nat)
    requires cursor <= |text|
    ensures cursor <= r <= |text|
  {
    if cursor < |text| && IsMark(text[cursor]) then cursor + 1 else cursor
  }

  /** The offsets of the visible characters from `cursor` on. */
  function ScanFrom(text: string, cursor: nat, lineStart: bool): seq<nat>
    requires cursor <= |text|
    decreases |text| - cursor, lineStart
  {
    if cursor == |text| then []
    else if lineStart then ScanFrom(text, IndentEnd(text, MarkEnd(text, cursor)), false)
    else if SgrAt(text, cursor) > 0 then ScanFrom(text, cursor + SgrAt(text, cursor), false)
    else if text[cursor] == '\n' then ScanFrom(text, cursor + 1, true)
    else [cursor] + ScanFrom(text, cursor + 1, false)
  }

  method SkipIndent(text: string, from: nat) returns (cursor: nat)
    requires from <= |text|
    ensures cursor == IndentEnd(text, from)
  {
    cursor := from;
    while cursor < |text|
      invariant from <= cursor <= |text| && IndentEnd(text, cursor) == IndentEnd(text, from)
    {
      var n := SgrAt(text, cursor);
      if n > 0 {
        cursor := cursor + n;
      } else if text[cursor] == ' ' || text[cursor] == '\t' {
        cursor := cursor + 1;
      } else {
        break;
      }
    }
  }

  /** One turn of the loop inside a row. */
  method ScanStep(text: string, cursor: nat) returns (next: nat, lineStart: bool, shown: bool)
    requires cursor < |text|
    ensures cursor < next <= |text|
    ensures shown ==> next == cursor + 1 && !lineStart
    ensures ScanFrom(text, cursor, false) == (if shown then [cursor] else []) + ScanFrom(text, next, lineStart)
  {
    var n := SgrAt(text, cursor);
    if n > 0 {
      next, lineStart, shown := cursor + n, false, false;
    } else {
      next, lineStart, shown := cursor + 1, text[cursor] == '\n', text[cursor] != '\n';
    }
  }

  /** Each offset holds its own visible character. */
  predicate Shows(text: string, visible: string, offsets: seq<nat>)
    decreases |offsets|
  {
    && |visible| == |offsets|
    && (offsets != [] ==>
          var n := |offsets| - 1;
          offsets[n] < |text| && visible[n] == text[offsets[n]] && Shows(text, visible[..n], offsets[..n]))
  }

  lemma ShowsOneMore(text: string, visible: string, offsets: seq<nat>, cursor: nat)
    requires Shows(text, visible, offsets) && cursor < |text|
    ensures Shows(text, visible + [text[cursor]], offsets + [cursor])
  {
    assert (visible + [text[cursor]])[..|visible|] == visible && (offsets + [cursor])[..|offsets|] == offsets;
  }

  lemma GatherOne(offsets: seq<nat>, cursor: nat, rest: seq<nat>)
    ensures offsets + ([cursor] + rest) == (offsets + [cursor]) + rest
    ensures offsets + ([] + rest) == offsets + rest
  {
    assert [] + rest == rest;
  }

  /** `diagnostic_projection`. */
  method Project(text: string) returns (visible: string, offsets: seq<nat>)
    ensures offsets == ScanFrom(text, 0, true)
    ensures Shows(text, visible, offsets)
  {
    visible, offsets := [], [];
    var cursor: nat, lineStart := 0, true;
    while cursor < |text|
      invariant cursor <= |text| && offsets + ScanFrom(text, cursor, lineStart) == ScanFrom(text, 0, true)
      invariant Shows(text, visible, offsets)
      decreases |text| - cursor, lineStart
    {
      if lineStart {
        ghost var row := cursor;
        if IsMark(text[cursor]) {
          cursor := cursor + 1;
        }
        cursor := SkipIndent(text, cursor);
        lineStart := false;
        assert ScanFrom(text, row, true) == ScanFrom(text, cursor, false);
      } else {
        var next, newLine, shown := ScanStep(text, cursor);
        GatherOne(offsets, cursor, ScanFrom(text, next, newLine));
        if shown {
          ShowsOneMore(text, visible, offsets, cursor);
          visible := visible + [text[cursor]];
          offsets := offsets + [cursor];
        }
        cursor, lineStart := next, newLine;
      }
    }
  }

  /** How far the indentation goes at once: over a style, a space or a tab. */
  function IndentStride(s: string): (n: nat)
    ensures n <= |s|
  {
    if s == [] then 0
    else if SgrLength(s) > 0 then SgrLength(s)
    else if s[0] == ' ' || s[0] == '\t' then 1
    else 0
  }

  lemma IndentStrides(text: string, cursor: nat, s: string)
    requires s != [] && cursor + |s| == |text| && text[cursor] == s[0] && SgrAt(text, cursor) == SgrLength(s)
    requires var n := IndentStride(s);
             n > 0 ==> IndentEnd(text, cursor + n) == cursor + n + IndentLength(s[n..])
    ensures IndentEnd(text, cursor) == cursor + IndentLength(s)
  {
  }

  lemma {:induction false} IndentEndIsLength(text: string, cursor: nat, s: string)
    requires Rest(text, cursor, s)
    ensures IndentEnd(text, cursor) == cursor + IndentLength(s)
    decreases |s|
  {
    if s != [] {
      SgrAtIsLength(text, cursor, s);
      assert text[cursor + 0] == s[0];
      var n := IndentStride(s);
      if n > 0 {
        RestDrop(text, cursor, s, n);
        IndentEndIsLength(text, cursor + n, s[n..]);
      }
      IndentStrides(text, cursor, s);
    }
  }

  lemma LeadEndIsLength(text: string, cursor: nat, s: string)
    requires Rest(text, cursor, s)
    ensures IndentEnd(text, MarkEnd(text, cursor)) == cursor + LeadLength(s)
  {
    if s != [] && IsMark(s[0]) {
      RestDrop(text, cursor, s, 1);
      IndentEndIsLength(text, cursor + 1, s[1..]);
    } else {
      IndentEndIsLength(text, cursor, s);
    }
  }

  /** A whole gap of length `n` at the cursor, by position. */
  predicate GapAt(text: string, cursor: nat, n: nat)
    requires cursor < |text|
  {
    if SgrAt(text, cursor) > 0 then n == SgrAt(text, cursor)
    else text[cursor] == '\n' && cursor + n == IndentEnd(text, MarkEnd(text, cursor + 1))
  }

  /** The scan from the cursor on passes exactly these items. */
  predicate Scans(text: string, cursor: nat, items: seq<Item>)
    requires cursor <= |text|
    decreases |items|
  {
    if items == [] then cursor == |text|
    else
      && cursor < |text|
      && match items[0]
         case Gap(g) => GapAt(text, cursor, |g|) && cursor + |g| <= |text| && Scans(text, cursor + |g|, items[1..])
         case Vis(_, _) => SgrAt(text, cursor) == 0 && text[cursor] != '\n' && Scans(text, cursor + 1, items[1..])
  }

  lemma ScanOverGap(text: string, cursor: nat, n: nat)
    requires cursor < |text| && GapAt(text, cursor, n) && cursor + n <= |text|
    ensures ScanFrom(text, cursor, false) == ScanFrom(text, cursor + n, false)
  {
    if SgrAt(text, cursor) == 0 {
      ScanLead(text, cursor + 1);
    }
  }

  lemma {:induction false} ScansOffsets(text: string, cursor: nat, items: seq<Item>)
    requires cursor <= |text| && Scans(text, cursor, items)
    ensures ScanFrom(text, cursor, false) == Offsets(items, cursor)
    decreases |items|
  {
    if items != [] {
      match items[0]
      case Gap(g) =>
        ScanOverGap(text, cursor, |g|);
        ScansOffsets(text, cursor + |g|, items[1..]);
      case Vis(_, _) => ScansOffsets(text, cursor + 1, items[1..]);
    }
  }

  lemma GapIsAt(text: string, cursor: nat, s: string, n: nat)
    requires Rest(text, cursor, s) && s != [] && !IsShown(s)
    requires n == if SgrLength(s) > 0 then SgrLength(s) else 1 + LeadLength(s[1..])
    ensures GapAt(text, cursor, n)
  {
    SgrAtIsLength(text, cursor, s);
    if SgrLength(s) == 0 {
      RestDrop(text, cursor, s, 1);
      LeadEndIsLength(text, cursor + 1, s[1..]);
    }
  }

  predicate FitsAt(text: string, cursor: nat, x: Item, n: nat) {
    && cursor < |text| && cursor + n <= |text|
    && match x
       case Gap(g) => n == |g| && GapAt(text, cursor, n)
       case Vis(_, _) => n == 1 && SgrAt(text, cursor) == 0 && text[cursor] != '\n'
  }

  lemma ScansCons(text: string, cursor: nat, x: Item, n: nat, items: seq<Item>, all: seq<Item>)
    requires FitsAt(text, cursor, x, n) && Scans(text, cursor + n, items) && all == [x] + items
    ensures Scans(text, cursor, all)
  {
    assert all[1..] == items;
  }

  lemma NothingIsScanned(text: string, cursor: nat)
    requires Rest(text, cursor, [])
    ensures Scans(text, cursor, Items([]))
  {
  }

  lemma GapAtHead(text: string, cursor: nat, s: string) returns (a: string, b: string)
    requires Rest(text, cursor, s) && s != [] && !IsShown(s)
    ensures |b| < |s| && cursor < |text| && cursor + |a| <= |text| && Rest(text, cursor + |a|, b)
    ensures Items(s) == [Gap(a)] + Items(b) && GapAt(text, cursor, |a|)
  {
    a, b := GapSplit(s);
    ItemsOfGap(a, b);
    RestStep(text, cursor, a, b);
    GapIsAt(text, cursor, s, |a|);
  }

  lemma VisAtHead(text: string, cursor: nat, s: string) returns (b: string)
    requires Rest(text, cursor, s) && IsShown(s)
    ensures |b| < |s| && cursor < |text| && Rest(text, cursor + 1, b)
    ensures Items(s) == [Vis(s[0], false)] + Items(b) && SgrAt(text, cursor) == 0 && text[cursor] == s[0]
  {
    b := s[1..];
    assert s == [s[0]] + b;
    ItemsOfVis(s[0], b);
    RestStep(text, cursor, [s[0]], b);
    SgrAtIsLength(text, cursor, s);
  }

  lemma NextItem(text: string, cursor: nat, s: string) returns (x: Item, n: nat, b: string)
    requires Rest(text, cursor, s) && s != []
    ensures |b| < |s| && Items(s) == [x] + Items(b)
    ensures FitsAt(text, cursor, x, n) && Rest(text, cursor + n, b)
  {
    if IsShown(s) {
      b := VisAtHead(text, cursor, s);
      x, n := Vis(s[0], false), 1;
    } else {
      var a;
      a, b := GapAtHead(text, cursor, s);
      x, n := Gap(a), |a|;
    }
  }

  lemma {:induction false} ItemsAreScanned(text: string, cursor: nat, s: string, items: seq<Item>)
    requires Rest(text, cursor, s) && items == Items(s)
    ensures Scans(text, cursor, items)
    decreases |s|
  {
    if s == [] {
      NothingIsScanned(text, cursor);
    } else {
      var x, n, b := NextItem(text, cursor, s);
      ItemsAreScanned(text, cursor + n, b, Items(b));
      ScansCons(text, cursor, x, n, Items(b), items);
    }
  }

  lemma ScanLead(text: string, cursor: nat)
    requires cursor <= |text|
    ensures ScanFrom(text, cursor, true) == ScanFrom(text, IndentEnd(text, MarkEnd(text, cursor)), false)
  {
  }

  /** The projection loop finds the visible characters of the items. */
  lemma ProjectionIsParse(text: string)
    ensures ScanFrom(text, 0, true) == Offsets(Parse(text), 0)
  {
    var n := LeadLength(text);
    RestDrop(text, 0, text, n);
    LeadEndIsLength(text, 0, text);
    ScanLead(text, 0);
    ItemsAreScanned(text, n, text[n..], Items(text[n..]));
    ScansOffsets(text, n, Items(text[n..]));
    assert Parse(text)[1..] == Items(text[n..]);
  }

  // ---- Row breaks by position -------------------------------------------------------------------

  predicate IsDiffMark(c: char) { c == '+' || c == '-' }

  /** `re.search(r"\n[+\-]", s)`. */
  predicate RowBreakIn(s: string) {
    exists i :: 0 <= i < |s| - 1 && s[i] == '\n' && IsDiffMark(s[i + 1])
  }

  lemma RowBreakCons(c: char, s: string)
    ensures RowBreakIn([c] + s) <==> (c == '\n' && s != [] && IsDiffMark(s[0])) || RowBreakIn(s)
  {
    var t := [c] + s;
    if RowBreakIn(t) {
      var i :| 0 <= i < |t| - 1 && t[i] == '\n' && IsDiffMark(t[i + 1]);
      if i > 0 {
        assert s[i - 1] == '\n' && IsDiffMark(s[i - 1 + 1]);
      }
    }
    if RowBreakIn(s) {
      var i :| 0 <= i < |s| - 1 && s[i] == '\n' && IsDiffMark(s[i + 1]);
      assert t[i + 1] == '\n' && IsDiffMark(t[i + 1 + 1]);
    }
    if c == '\n' && s != [] && IsDiffMark(s[0]) {
      assert t[0] == '\n' && IsDiffMark(t[0 + 1]);
    }
  }

  lemma {:induction false} RowBreakSkip(a: string, s: string)
    requires '\n' !in a
    ensures RowBreakIn(a + s) <==> RowBreakIn(s)
  {
    if a == [] {
      assert a + s == s;
    } else {
      RowBreakSkip(a[1..], s);
      RowBreakCons(a[0], a[1..] + s);
      assert a + s == [a[0]] + (a[1..] + s);
    }
  }

  /** A newline occurs only at the start of a gap, and a diff mark right after it belongs to the gap. */
  predicate Rowed(items: seq<Item>)
    decreases |items|
  {
    items != [] ==>
      && Rowed(items[1..])
      && match items[0]
         case Vis(c, _) => c != '\n'
         case Gap(g) => '\n' !in g || (g[0] == '\n' && '\n' !in g[1..]
                                      && (|g| == 1 ==> Glue(items[1..]) == [] || !IsDiffMark(Glue(items[1..])[0])))
  }

  /** The text before visible character `e`. */
  function TextBefore(items: seq<Item>, e: nat): string
    requires e < |Chars(items)|
    decreases |items|
  {
    match items[0]
    case Vis(c, _) => if e == 0 then [] else [c] + TextBefore(items[1..], e - 1)
    case Gap(g) => g + TextBefore(items[1..], e)
  }

  lemma {:induction false} TextBeforePrefix(items: seq<Item>, e: nat)
    requires e < |Chars(items)|
    ensures TextBefore(items, e) != [] ==> Glue(items) != [] && Glue(items)[0] == TextBefore(items, e)[0]
    decreases |items|
  {
    match items[0]
    case Vis(_, _) =>
    case Gap(g) => if g == [] {
      TextBeforePrefix(items[1..], e);
    }
  }

  predicate BrokeUpTo(broke: seq<bool>, e: nat)
    requires e < |broke|
  {
    exists x :: 0 <= x <= e && broke[x]
  }

  lemma BrokeUpToCons(b: bool, broke: seq<bool>, e: nat)
    requires e <= |broke|
    ensures BrokeUpTo([b] + broke, e) <==> b || (e > 0 && BrokeUpTo(broke, e - 1))
  {
    var all := [b] + broke;
    if b {
      assert all[0];
    }
    if e > 0 && BrokeUpTo(broke, e - 1) {
      var x :| 0 <= x <= e - 1 && broke[x];
      assert all[x + 1];
    }
    if BrokeUpTo(all, e) {
      var x :| 0 <= x <= e && all[x];
      if x > 0 {
        assert broke[x - 1];
      }
    }
  }

  /** A gap contributes a row break to the text around it exactly when it begins with one. */
  lemma RowBreakGap(g: string, s: string)
    requires '\n' !in g || (g[0] == '\n' && '\n' !in g[1..] && (|g| == 1 && s != [] ==> !IsDiffMark(s[0])))
    ensures RowBreakIn(g + s) <==> IsRowBreak(g) || RowBreakIn(s)
  {
    if '\n' !in g {
      RowBreakSkip(g, s);
    } else {
      RowBreakSkip(g[1..], s);
      RowBreakCons(g[0], g[1..] + s);
      assert g + s == [g[0]] + (g[1..] + s);
    }
  }

  /** The text up to visible character `e` holds a row break exactly when one is recorded up to `e`. */
  lemma {:induction false} RowBreaksRecorded(items: seq<Item>, e: nat, pending: bool)
    requires Rowed(items) && e < |Chars(items)|
    ensures e < |Broke(items, pending)|
    ensures BrokeUpTo(Broke(items, pending), e) <==> pending || RowBreakIn(TextBefore(items, e))
    decreases |items|
  {
    Lengths(items, pending);
    var rest := items[1..];
    match items[0]
    case Vis(c, _) =>
      Lengths(rest, false);
      BrokeUpToCons(pending, Broke(rest, false), e);
      if e > 0 {
        RowBreaksRecorded(rest, e - 1, false);
        RowBreakCons(c, TextBefore(rest, e - 1));
      }
    case Gap(g) =>
      RowBreaksRecorded(rest, e, pending || IsRowBreak(g));
      TextBeforePrefix(rest, e);
      RowBreakGap(g, TextBefore(rest, e));
  }

  lemma PrefixHasNoNewline(s: string, k: nat, n: nat)
    requires k <= |s| && n <= |s[k..]|
    requires '\n' !in s[..k] && '\n' !in s[k..][..n]
    ensures '\n' !in s[..k + n]
  {
    assert s[..k + n] == s[..k] + s[k..][..n];
  }

  lemma {:induction false} IndentHasNoNewline(s: string)
    ensures '\n' !in s[..IndentLength(s)]
    decreases |s|
  {
    if IndentLength(s) > 0 {
      var k := if SgrLength(s) > 0 then SgrLength(s) else 1;
      SgrHasNoNewline(s);
      IndentHasNoNewline(s[k..]);
      PrefixHasNoNewline(s, k, IndentLength(s[k..]));
    }
  }

  lemma LeadHasNoNewline(s: string)
    ensures '\n' !in s[..LeadLength(s)]
  {
    if s != [] && IsMark(s[0]) {
      IndentHasNoNewline(s[1..]);
      assert s[..LeadLength(s)] == [s[0]] + s[1..][..LeadLength(s) - 1];
    } else {
      IndentHasNoNewline(s);
    }
  }

  lemma RowedCons(x: Item, items: seq<Item>)
    requires Rowed(items)
    requires x.Vis? ==> x.c != '\n'
    requires x.Gap? ==> '\n' !in x.g || (x.g[0] == '\n' && '\n' !in x.g[1..]
                        && (|x.g| == 1 ==> Glue(items) == [] || !IsDiffMark(Glue(items)[0])))
    ensures Rowed([x] + items)
  {
    assert ([x] + items)[1..] == items;
  }

  lemma GapRows(a: string, b: string)
    requires GapUnit(a, b)
    ensures '\n' !in a || (a[0] == '\n' && '\n' !in a[1..] && (|a| == 1 ==> b == [] || !IsDiffMark(b[0])))
  {
    if SgrLength(a + b) == |a| {
      SgrHasNoNewline(a + b);
      assert (a + b)[..|a|] == a;
    } else {
      LeadHasNoNewline(a[1..] + b);
      assert (a[1..] + b)[..|a| - 1] == a[1..];
      if |a| == 1 {
        assert a[1..] + b == b;
      }
    }
  }

  lemma {:induction false} ItemsAreRowed(s: string)
    ensures Rowed(Items(s))
    decreases |s|
  {
    if s != [] && !IsShown(s) {
      var a, b := GapSplit(s);
      ItemsOfGap(a, b);
      GapRows(a, b);
      ItemsAreRowed(b);
      GlueItems(b);
      RowedCons(Gap(a), Items(b));
    } else if s != [] {
      assert s == [s[0]] + s[1..];
      ItemsOfVis(s[0], s[1..]);
      ItemsAreRowed(s[1..]);
      RowedCons(Vis(s[0], false), Items(s[1..]));
    }
  }

  lemma ParseIsRowed(text: string)
    ensures Rowed(Parse(text))
  {
    var n := LeadLength(text);
    LeadHasNoNewline(text);
    ItemsAreRowed(text[n..]);
    RowedCons(Gap(text[..n]), Items(text[n..]));
  }

  lemma SuffixStep(text: string, cursor: nat, a: string, b: string)
    requires cursor <= |text| && text[cursor..] == a + b
    ensures cursor + |a| <= |text| && text[cursor + |a|..] == b
  {
    assert |text[cursor..]| == |a| + |b|;
    assert text[cursor + |a|..] == text[cursor..][|a|..] == (a + b)[|a|..];
  }

  function HeadText(x: Item): string { match x case Vis(c, _) => [c] case Gap(g) => g }

  lemma SliceGrows(text: string, i: nat, head: string, j: nat, tail: string)
    requires i + |head| <= j <= |text| && text[i..i + |head|] == head && text[i + |head|..j] == tail
    ensures text[i..j] == head + tail
  {
    assert text[i..j] == text[i..i + |head|] + text[i + |head|..j];
  }

  lemma {:induction false} SliceIsTextBefore(text: string, at: nat, items: seq<Item>, e: nat)
    requires at <= |text| && text[at..] == Glue(items) && e < |Chars(items)|
    ensures e < |Offsets(items, at)| && at <= Offsets(items, at)[e] <= |text|
    ensures text[at..Offsets(items, at)[e]] == TextBefore(items, e)
    decreases |items|
  {
    OffsetsCount(items, at);
    var head, rest := HeadText(items[0]), items[1..];
    assert Glue(items) == head + Glue(rest);
    SuffixStep(text, at, head, Glue(rest));
    assert text[at..at + |head|] == head by {
      assert text[at..][..|head|] == head;
    }
    if items[0].Gap? {
      SliceIsTextBefore(text, at + |head|, rest, e);
      SliceGrows(text, at, head, Offsets(items, at)[e], TextBefore(rest, e));
    } else if e > 0 {
      SliceIsTextBefore(text, at + 1, rest, e - 1);
      SliceGrows(text, at, head, Offsets(items, at)[e], TextBefore(rest, e - 1));
    }
  }

  lemma BreaksBetweenCons(b: bool, broke: seq<bool>, q: nat, e: nat)
    requires q < e <= |broke|
    ensures q == 0 ==> (BreaksBetween([b] + broke, 0, e + 1) <==> BrokeUpTo(broke, e - 1))
    ensures q > 0 ==> (BreaksBetween([b] + broke, q, e + 1) <==> BreaksBetween(broke, q - 1, e))
  {
    var all := [b] + broke;
    if BreaksBetween(all, q, e + 1) {
      var x :| q < x < e + 1 && all[x];
      assert broke[x - 1];
    }
    if q == 0 && BrokeUpTo(broke, e - 1) {
      var x :| 0 <= x <= e - 1 && broke[x];
      assert all[x + 1];
    }
    if q > 0 && BreaksBetween(broke, q - 1, e) {
      var x :| q - 1 < x < e && broke[x];
      assert all[x + 1];
    }
  }

  /** Searching the text between two visible characters for a row break looks up the recorded ones. */
  lemma {:induction false} RowBreakBetween(text: string, at: nat, items: seq<Item>, pending: bool, q: nat, e: nat)
    requires at <= |text| && text[at..] == Glue(items) && Rowed(items) && q < e < |Chars(items)|
    ensures e < |Offsets(items, at)| == |Broke(items, pending)|
            && Offsets(items, at)[q] <= Offsets(items, at)[e] <= |text|
    ensures RowBreakIn(text[Offsets(items, at)[q]..Offsets(items, at)[e]])
            <==> BreaksBetween(Broke(items, pending), q, e + 1)
    decreases |items|
  {
    OffsetsCount(items, at);
    Lengths(items, pending);
    var head, rest := HeadText(items[0]), items[1..];
    assert Glue(items) == head + Glue(rest);
    SuffixStep(text, at, head, Glue(rest));
    if items[0].Gap? {
      RowBreakBetween(text, at + |head|, rest, pending || IsRowBreak(items[0].g), q, e);
    } else {
      Lengths(rest, false);
      BreaksBetweenCons(pending, Broke(rest, false), q, e);
      if q > 0 {
        RowBreakBetween(text, at + 1, rest, false, q - 1, e - 1);
      } else {
        SliceIsTextBefore(text, at, items, e);
        RowBreaksRecorded(rest, e - 1, false);
        RowBreakCons(items[0].c, TextBefore(rest, e - 1));
      }
    }
  }
}
