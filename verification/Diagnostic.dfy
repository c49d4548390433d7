/** Redaction of a printed diff: identities are looked for in the visible characters only, so styles and
    physical rows cannot split one, and what is found is blanked out in place. */
module Diagnostic {
  import opened Text
  import opened AnsiEscape

  const MASK: char := '\U{2592}'

  // ---- Visible characters and the gaps between them ---------------------------------------------

  /** A visible character, or text the projection skips: a style, or a newline with the row's diff mark
      and indentation. */
  datatype Item = Vis(c: char, masked: bool) | Gap(g: string)

  function IndentLength(s: string): (n: nat)
    ensures n <= |s|
    decreases |s|
  {
    if s == [] then 0
    else if SgrLength(s) > 0 then SgrLength(s) + IndentLength(s[SgrLength(s)..])
    else if s[0] == ' ' || s[0] == '\t' then 1 + IndentLength(s[1..])
    else 0
  }

  predicate IsMark(c: char) { c == '+' || c == '-' || c == ' ' }

  /** Length of the diff mark and indentation at the start of a row. */
  function LeadLength(s: string): (n: nat)
    ensures n <= |s|
  {
    if s != [] && IsMark(s[0]) then 1 + IndentLength(s[1..]) else IndentLength(s)
  }

  /** An indentation is all the spaces, tabs and styles at the start of a row; anything else ends it. */
  lemma {:induction false} BlanksIndent(blanks: string, rest: string)
    requires forall i :: 0 <= i < |blanks| ==> blanks[i] == ' ' || blanks[i] == '\t'
    ensures IndentLength(blanks + rest) == |blanks| + IndentLength(rest)
    ensures rest == [] || (rest[0] != ' ' && rest[0] != '\t' && SgrLength(rest) == 0) ==> IndentLength(rest) == 0
  {
    if blanks == [] {
      assert blanks + rest == rest;
    } else {
      assert (blanks + rest)[1..] == blanks[1..] + rest;
      BlanksIndent(blanks[1..], rest);
    }
  }

  lemma StylesIndent(style: string, rest: string)
    requires style != [] && SgrLength(style + rest) == |style|
    ensures IndentLength(style + rest) == |style| + IndentLength(rest)
  {
    assert (style + rest)[|style|..] == rest;
  }

  /** Before it stands at most one diff mark. */
  lemma LeadIsExact(mark: char, rest: string)
    ensures mark in "+- " ==> LeadLength([mark] + rest) == 1 + IndentLength(rest)
    ensures mark !in "+- " ==> LeadLength([mark] + rest) == IndentLength([mark] + rest)
  {
    assert ([mark] + rest)[1..] == rest;
  }

  function Items(s: string): seq<Item>
    decreases |s|
  {
    if s == [] then []
    else if SgrLength(s) > 0 then [Gap(s[..SgrLength(s)])] + Items(s[SgrLength(s)..])
    else if s[0] == '\n' then [Gap(s[..1 + LeadLength(s[1..])])] + Items(s[1 + LeadLength(s[1..])..])
    else [Vis(s[0], false)] + Items(s[1..])
  }

  function Parse(text: string): seq<Item> {
    [Gap(text[..LeadLength(text)])] + Items(text[LeadLength(text)..])
  }

  function VisibleCount(items: seq<Item>): nat {
    if items == [] then 0 else (if items[0].Vis? then 1 else 0) + VisibleCount(items[1..])
  }

  /** The same items with the visible characters flagged in order. */
  function Flag(items: seq<Item>, flags: seq<bool>): seq<Item>
    requires |flags| == VisibleCount(items)
    decreases |items|
  {
    if items == [] then []
    else if items[0].Vis? then [Vis(items[0].c, flags[0])] + Flag(items[1..], flags[1..])
    else [items[0]] + Flag(items[1..], flags)
  }

  /** The text with every run of adjacent flagged characters as one mask; `prev` says that the character
      before was flagged. */
  function Render(items: seq<Item>, prev: bool): string
    decreases |items|
  {
    if items == [] then []
    else
      match items[0]
      case Gap(g) => g + Render(items[1..], false)
      case Vis(c, masked) =>
        if !masked then [c] + Render(items[1..], false)
        else if prev then Render(items[1..], true)
        else [MASK] + Render(items[1..], true)
  }

  /** The items of the rendered text, still flagged. */
  function Collapse(items: seq<Item>, prev: bool): seq<Item>
    decreases |items|
  {
    if items == [] then []
    else
      match items[0]
      case Gap(g) => [items[0]] + Collapse(items[1..], false)
      case Vis(c, masked) =>
        if !masked then [items[0]] + Collapse(items[1..], false)
        else if prev then Collapse(items[1..], true)
        else [Vis(MASK, true)] + Collapse(items[1..], true)
  }

  function Plain(items: seq<Item>): seq<Item> {
    if items == [] then []
    else [if items[0].Vis? then Vis(items[0].c, false) else items[0]] + Plain(items[1..])
  }

  // ---- The redacted text has the same gaps ------------------------------------------------------

  predicate IsShown(s: string) { s != [] && SgrLength(s) == 0 && s[0] != '\n' }

  function Redone(s: string, flags: seq<bool>): string
    requires |flags| == VisibleCount(Items(s))
  {
    Render(Flag(Items(s), flags), false)
  }

  /** How the redacted text begins. */
  lemma RedoneHead(s: string, flags: seq<bool>)
    requires |flags| == VisibleCount(Items(s)) && s != []
    ensures Redone(s, flags) != []
    ensures !IsShown(s) ==> Redone(s, flags)[0] == s[0]
    ensures IsShown(s) ==> |flags| > 0 && |flags[1..]| == VisibleCount(Items(s[1..]))
    ensures IsShown(s) && flags[0] ==> Redone(s, flags)[0] == MASK
    ensures IsShown(s) && !flags[0] ==> Redone(s, flags) == [s[0]] + Redone(s[1..], flags[1..])
  {
  }

  lemma {:induction false} NoNewTail(s: string, flags: seq<bool>, inter: bool)
    requires |flags| == VisibleCount(Items(s)) && SgrTail(s, inter) == 0
    ensures SgrTail(Redone(s, flags), inter) == 0
    decreases |s|
  {
    if s != [] {
      RedoneHead(s, flags);
      if IsShown(s) && !flags[0] {
        var t := Redone(s[1..], flags[1..]);
        assert ([s[0]] + t)[1..] == t;
        if (IsParameter(s[0]) && !inter) || IsIntermediate(s[0]) {
          NoNewTail(s[1..], flags[1..], IsIntermediate(s[0]));
        }
      }
    }
  }

  /** Masking characters never makes a style transition out of visible ones. */
  lemma NoNewSgr(s: string, flags: seq<bool>)
    requires |flags| == VisibleCount(Items(s)) && SgrLength(s) == 0
    ensures SgrLength(Redone(s, flags)) == 0
  {
    if s != [] {
      RedoneHead(s, flags);
      if IsShown(s) && !flags[0] && s[0] == ESC && s[1..] != [] {
        var rest, restFlags := s[1..], flags[1..];
        RedoneHead(rest, restFlags);
        if IsShown(rest) && !restFlags[0] && rest[0] == '[' {
          NoNewTail(rest[1..], restFlags[1..], false);
          assert rest[1..] == s[2..];
          var t := Redone(rest[1..], restFlags[1..]);
          assert Redone(s, flags)[2..] == t;
        }
      }
    }
  }

  lemma SgrConcat(a: string, b: string, u: string)
    requires a != [] && SgrLength(a + b) == |a|
    ensures SgrLength(a + u) == |a|
  {
    SgrStable(a + b, u);
    assert (a + b)[..|a|] == a;
  }

  /** `a` is one style, space or tab at the start of `a + b`. */
  predicate IndentUnit(a: string, b: string) {
    a != [] && (SgrLength(a + b) == |a| || a == " " || a == "\t")
  }

  lemma IndentUnfold(a: string, b: string, u: string)
    requires IndentUnit(a, b)
    ensures IndentLength(a + u) == |a| + IndentLength(u)
  {
    assert (a + u)[|a|..] == u;
    if SgrLength(a + b) == |a| {
      SgrConcat(a, b, u);
    }
  }

  lemma IndentSplit(s: string) returns (a: string, b: string)
    requires IndentLength(s) > 0
    ensures s == a + b && IndentUnit(a, b)
    ensures |a| == if SgrLength(s) > 0 then SgrLength(s) else 1
  {
    var k := if SgrLength(s) > 0 then SgrLength(s) else 1;
    a, b := s[..k], s[k..];
  }

  lemma SplitPrefix(p: string, q: string, a: string, b: string) returns (p2: string)
    requires p + q == a + b && |a| <= |p|
    ensures p == a + p2 && b == p2 + q
  {
    p2 := p[|a|..];
    assert a == (a + b)[..|a|] == p[..|a|];
    assert b == (a + b)[|a|..] == p2 + q;
  }

  lemma {:induction false} IndentPrefix(s: string, p: string, q: string, t: string)
    requires s == p + q && |p| == IndentLength(s) && IndentLength(t) == 0
    ensures IndentLength(p + t) == |p| && IndentLength(q) == 0
    decreases |s|
  {
    if p == [] {
      assert p + t == t && s == q;
    } else {
      var a, b := IndentSplit(s);
      IndentUnfold(a, b, b);
      var p2 := SplitPrefix(p, q, a, b);
      IndentPrefix(b, p2, q, t);
      IndentUnfold(a, b, p2 + t);
      Assoc(a, p2, t);
    }
  }

  lemma IndentStops(s: string, flags: seq<bool>)
    requires |flags| == VisibleCount(Items(s)) && IndentLength(s) == 0
    ensures IndentLength(Redone(s, flags)) == 0
  {
    NoNewSgr(s, flags);
    if s != [] {
      RedoneHead(s, flags);
    }
  }

  lemma MarkedLead(c: char, rest: string)
    requires IsMark(c)
    ensures LeadLength([c] + rest) == 1 + IndentLength(rest)
  {
    assert ([c] + rest)[1..] == rest;
  }

  lemma MarkedLeadKeeps(c: char, p: string, q: string, t: string)
    requires IsMark(c) && LeadLength([c] + p + q) == 1 + |p| && IndentLength(t) == 0
    ensures LeadLength([c] + p + t) == 1 + |p| && IndentLength(q) == 0
  {
    Assoc([c], p, q);
    Assoc([c], p, t);
    MarkedLead(c, p + q);
    IndentPrefix(p + q, p, q, t);
    MarkedLead(c, p + t);
  }

  lemma UnmarkedLeadKeeps(p: string, q: string, t: string)
    requires p != [] && !IsMark(p[0]) && LeadLength(p + q) == |p| && IndentLength(t) == 0
    ensures LeadLength(p + t) == |p| && IndentLength(q) == 0
  {
    assert (p + q)[0] == p[0] && (p + t)[0] == p[0];
    IndentPrefix(p + q, p, q, t);
  }

  /** A row's mark and indentation do not depend on what follows, if that does not continue them. */
  lemma LeadKeeps(p: string, q: string, t: string)
    requires LeadLength(p + q) == |p| && IndentLength(t) == 0
    requires p == [] && t != [] ==> !IsMark(t[0])
    ensures LeadLength(p + t) == |p| && IndentLength(q) == 0
    ensures p == [] && q != [] ==> !IsMark(q[0])
  {
    if p == [] {
      assert p + q == q && p + t == t;
    } else if IsMark(p[0]) {
      assert p == [p[0]] + p[1..];
      MarkedLeadKeeps(p[0], p[1..], q, t);
    } else {
      UnmarkedLeadKeeps(p, q, t);
    }
  }

  /** A row's mark and indentation end at the same place in the redacted text. */
  lemma LeadStable(p: string, q: string, flags: seq<bool>)
    requires |flags| == VisibleCount(Items(q)) && LeadLength(p + q) == |p|
    ensures LeadLength(p + Redone(q, flags)) == |p|
  {
    LeadKeeps(p, q, []);
    IndentStops(q, flags);
    if q != [] {
      RedoneHead(q, flags);
    }
    LeadKeeps(p, q, Redone(q, flags));
  }

  /** `a` is a whole gap at the start of `a + u`: a style, or a newline with its row's lead. */
  predicate GapUnit(a: string, u: string) {
    a != [] && (SgrLength(a + u) == |a| || (a[0] == '\n' && LeadLength(a[1..] + u) == |a| - 1))
  }

  lemma ItemsOfGap(a: string, u: string)
    requires GapUnit(a, u)
    ensures Items(a + u) == [Gap(a)] + Items(u)
  {
    var s := a + u;
    assert s[|a|..] == u && s[..|a|] == a;
    if a[0] == '\n' {
      assert s[1..] == a[1..] + u;
    }
  }

  lemma ItemsOfVis(c: char, u: string)
    requires SgrLength([c] + u) == 0 && c != '\n'
    ensures Items([c] + u) == [Vis(c, false)] + Items(u)
  {
    assert ([c] + u)[1..] == u;
  }

  lemma GapSplit(s: string) returns (a: string, b: string)
    requires s != [] && !IsShown(s)
    ensures s == a + b && GapUnit(a, b)
    ensures |a| == if SgrLength(s) > 0 then SgrLength(s) else 1 + LeadLength(s[1..])
  {
    var k := if SgrLength(s) > 0 then SgrLength(s) else 1 + LeadLength(s[1..]);
    a, b := s[..k], s[k..];
    if SgrLength(s) == 0 {
      assert a[1..] + b == s[1..];
    }
  }

  /** A gap stays a whole gap in front of the redacted rest. */
  lemma GapStable(a: string, b: string, flags: seq<bool>)
    requires GapUnit(a, b) && |flags| == VisibleCount(Items(b))
    ensures GapUnit(a, Redone(b, flags))
  {
    if SgrLength(a + b) == |a| {
      SgrConcat(a, b, Redone(b, flags));
    } else {
      LeadStable(a[1..], b, flags);
    }
  }

  lemma FlagCons(x: Item, items: seq<Item>, flags: seq<bool>)
    requires |flags| == VisibleCount([x] + items)
    ensures x.Gap? ==> |flags| == VisibleCount(items) && Flag([x] + items, flags) == [x] + Flag(items, flags)
    ensures x.Vis? ==> |flags| > 0 && |flags[1..]| == VisibleCount(items)
    ensures x.Vis? ==> Flag([x] + items, flags) == [Vis(x.c, flags[0])] + Flag(items, flags[1..])
  {
    assert ([x] + items)[1..] == items;
  }

  lemma RenderCons(x: Item, items: seq<Item>, prev: bool)
    ensures x.Gap? ==> Render([x] + items, prev) == x.g + Render(items, false)
    ensures x.Gap? ==> Collapse([x] + items, prev) == [x] + Collapse(items, false)
    ensures x.Vis? && !x.masked ==> Render([x] + items, prev) == [x.c] + Render(items, false)
    ensures x.Vis? && !x.masked ==> Collapse([x] + items, prev) == [x] + Collapse(items, false)
    ensures x.Vis? && x.masked && prev ==> Render([x] + items, prev) == Render(items, true)
    ensures x.Vis? && x.masked && prev ==> Collapse([x] + items, prev) == Collapse(items, true)
    ensures x.Vis? && x.masked && !prev ==> Render([x] + items, prev) == [MASK] + Render(items, true)
    ensures x.Vis? && x.masked && !prev ==> Collapse([x] + items, prev) == [Vis(MASK, true)] + Collapse(items, true)
  {
    assert ([x] + items)[1..] == items;
  }

  lemma PlainCons(x: Item, items: seq<Item>)
    ensures Plain([x] + items) == [if x.Vis? then Vis(x.c, false) else x] + Plain(items)
  {
    assert ([x] + items)[1..] == items;
  }

  /** Scanning the redacted text finds the same gaps, and between them the visible characters with every
      adjacent masked run as one mask. */
  lemma {:induction false} Reparse(s: string, flags: seq<bool>, prev: bool)
    requires |flags| == VisibleCount(Items(s))
    ensures Items(Render(Flag(Items(s), flags), prev)) == Plain(Collapse(Flag(Items(s), flags), prev))
    decreases |s|
  {
    if s != [] {
      if !IsShown(s) {
        ReparseGap(s, flags, prev);
      } else {
        ReparseVis(s, flags, prev);
      }
    }
  }

  lemma {:induction false} ReparseGap(s: string, flags: seq<bool>, prev: bool)
    requires |flags| == VisibleCount(Items(s)) && s != [] && !IsShown(s)
    ensures Items(Render(Flag(Items(s), flags), prev)) == Plain(Collapse(Flag(Items(s), flags), prev))
    decreases |s|, 0
  {
    var a, b := GapSplit(s);
    ItemsOfGap(a, b);
    FlagCons(Gap(a), Items(b), flags);
    var rest := Flag(Items(b), flags);
    RenderCons(Gap(a), rest, prev);
    GapStable(a, b, flags);
    ItemsOfGap(a, Redone(b, flags));
    Reparse(b, flags, false);
    PlainCons(Gap(a), Collapse(rest, false));
  }

  lemma {:induction false} ReparseVis(s: string, flags: seq<bool>, prev: bool)
    requires |flags| == VisibleCount(Items(s)) && IsShown(s)
    ensures Items(Render(Flag(Items(s), flags), prev)) == Plain(Collapse(Flag(Items(s), flags), prev))
    decreases |s|, 0
  {
    var c, b := s[0], s[1..];
    assert s == [c] + b;
    ItemsOfVis(c, b);
    FlagCons(Vis(c, false), Items(b), flags);
    var rest := Flag(Items(b), flags[1..]);
    var x := Vis(c, flags[0]);
    RenderCons(x, rest, prev);
    if flags[0] {
      Reparse(b, flags[1..], true);
      ItemsOfVis(MASK, Render(rest, true));
      PlainCons(Vis(MASK, true), Collapse(rest, true));
    } else {
      NoNewSgr(s, flags);
      RenderCons(x, rest, false);
      ItemsOfVis(c, Render(rest, false));
      Reparse(b, flags[1..], false);
      PlainCons(x, Collapse(rest, false));
    }
  }
}
