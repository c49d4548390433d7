/** Worked diffs: what becomes of an identity that the rows of a printed diff cut in two. */
module WrappedIdentity {
  import opened Text
  import opened AnsiEscape
  import opened Identities
  import opened Diagnostic
  import opened Redaction

  // ---- Diffs put together from pieces -------------------------------------------------------------

  /** The mark and indentation of a row, a component run, or other visible text. */
  datatype Piece = Lead(g: string) | Run(p: string) | Other(p: string)

  function Shown(p: string, masked: bool): (items: seq<Item>)
    ensures |items| == |p|
  {
    if p == [] then [] else [Vis(p[0], masked)] + Shown(p[1..], masked)
  }

  function PieceItems(x: Piece): seq<Item> {
    match x
    case Lead(g) => [Gap(g)]
    case Run(p) => Shown(p, true)
    case Other(p) => Shown(p, false)
  }

  function PieceText(x: Piece): string {
    match x
    case Lead(g) => g
    case Run(p) => p
    case Other(p) => p
  }

  function AllItems(pieces: seq<Piece>): seq<Item> {
    if pieces == [] then [] else PieceItems(pieces[0]) + AllItems(pieces[1..])
  }

  function AllText(pieces: seq<Piece>): string {
    if pieces == [] then [] else PieceText(pieces[0]) + AllText(pieces[1..])
  }

  function AllMasked(pieces: seq<Piece>): string {
    if pieces == [] then []
    else (if pieces[0].Run? then [MASK] else PieceText(pieces[0])) + AllMasked(pieces[1..])
  }

  predicate Plainly(p: string) { p != [] && ESC !in p && '\n' !in p }

  /** The row's mark and its indentation. */
  predicate IsLead(g: string) {
    g != [] && IsMark(g[0]) && forall i :: 1 <= i < |g| ==> g[i] == ' '
  }

  /** A character that ends an indentation. */
  predicate Inside(s: string) { s != [] && s[0] != ' ' && s[0] != '\t' && s[0] != ESC }

  /** Rows of a diff: each lead is followed by text that is no indentation, and no two runs are adjacent. */
  predicate IsDiff(pieces: seq<Piece>) {
    pieces != [] ==>
      && IsDiff(pieces[1..])
      && match pieces[0]
         case Lead(g) => |g| > 1 && g[0] == '\n' && IsLead(g[1..]) && Inside(AllText(pieces[1..]))
         case Run(p) => Plainly(p) && (|pieces| > 1 ==> !pieces[1].Run?)
         case Other(p) => Plainly(p)
  }

  lemma {:induction false} ItemsOfShown(p: string, rest: string)
    requires ESC !in p && '\n' !in p
    ensures Items(p + rest) == Shown(p, false) + Items(rest)
  {
    if p == [] {
      assert p + rest == rest;
    } else {
      assert (p + rest)[1..] == p[1..] + rest;
      ItemsOfShown(p[1..], rest);
      assert Items(p + rest) == [Vis(p[0], false)] + Items(p[1..] + rest);
      Assoc([Vis(p[0], false)], Shown(p[1..], false), Items(rest));
    }
  }

  lemma {:induction false} SpacesIndent(n: nat, s: string, rest: string)
    requires |s| == n && (forall i :: 0 <= i < n ==> s[i] == ' ') && Inside(rest)
    ensures IndentLength(s + rest) == n
  {
    if n == 0 {
      assert s + rest == rest;
    } else {
      assert (s + rest)[1..] == s[1..] + rest;
      SpacesIndent(n - 1, s[1..], rest);
    }
  }

  lemma LeadLengthOf(g: string, rest: string)
    requires IsLead(g) && Inside(rest)
    ensures LeadLength(g + rest) == |g|
  {
    assert (g + rest)[1..] == g[1..] + rest;
    SpacesIndent(|g| - 1, g[1..], rest);
  }

  lemma ItemsOfLead(g: string, rest: string)
    requires |g| > 1 && g[0] == '\n' && IsLead(g[1..]) && Inside(rest)
    ensures Items(g + rest) == [Gap(g)] + Items(rest)
  {
    var s := g + rest;
    assert s[1..] == g[1..] + rest;
    LeadLengthOf(g[1..], rest);
    assert s[..|g|] == g && s[|g|..] == rest;
  }

  lemma {:induction false} PlainShown(p: string, masked: bool, rest: seq<Item>)
    ensures Plain(Shown(p, masked) + rest) == Shown(p, false) + Plain(rest)
  {
    if p == [] {
      assert Shown(p, masked) + rest == rest;
    } else {
      assert Shown(p, masked) + rest == [Vis(p[0], masked)] + (Shown(p[1..], masked) + rest);
      PlainCons(Vis(p[0], masked), Shown(p[1..], masked) + rest);
      PlainShown(p[1..], masked, rest);
      Assoc([Vis(p[0], false)], Shown(p[1..], false), Plain(rest));
    }
  }

  /** Scanning the text finds the pieces. */
  lemma {:induction false} ItemsOfPieces(pieces: seq<Piece>)
    requires IsDiff(pieces)
    ensures Items(AllText(pieces)) == Plain(AllItems(pieces))
  {
    if pieces != [] {
      ItemsOfPieces(pieces[1..]);
      var rest := AllItems(pieces[1..]);
      match pieces[0]
      case Lead(g) =>
        ItemsOfLead(g, AllText(pieces[1..]));
        PlainCons(Gap(g), rest);
      case Run(p) =>
        ItemsOfShown(p, AllText(pieces[1..]));
        PlainShown(p, true, rest);
      case Other(p) =>
        ItemsOfShown(p, AllText(pieces[1..]));
        PlainShown(p, false, rest);
    }
  }

  lemma {:induction false} RenderClear(p: string, rest: seq<Item>, prev: bool)
    requires p != []
    ensures Render(Shown(p, false) + rest, prev) == p + Render(rest, false)
  {
    var tail := Shown(p[1..], false) + rest;
    assert Shown(p, false) + rest == [Vis(p[0], false)] + tail;
    RenderCons(Vis(p[0], false), tail, prev);
    if |p| > 1 {
      RenderClear(p[1..], rest, false);
      assert p == [p[0]] + p[1..];
      Assoc([p[0]], p[1..], Render(rest, false));
    } else {
      assert tail == rest;
    }
  }

  lemma {:induction false} RenderRun(p: string, rest: seq<Item>)
    ensures Render(Shown(p, true) + rest, true) == Render(rest, true)
  {
    if p == [] {
      assert Shown(p, true) + rest == rest;
    } else {
      var tail := Shown(p[1..], true) + rest;
      assert Shown(p, true) + rest == [Vis(p[0], true)] + tail;
      RenderCons(Vis(p[0], true), tail, true);
      RenderRun(p[1..], rest);
    }
  }

  lemma RenderFirstRun(p: string, rest: seq<Item>)
    requires p != []
    ensures Render(Shown(p, true) + rest, false) == [MASK] + Render(rest, true)
  {
    var tail := Shown(p[1..], true) + rest;
    assert Shown(p, true) + rest == [Vis(p[0], true)] + tail;
    RenderCons(Vis(p[0], true), tail, false);
    RenderRun(p[1..], rest);
  }

  /** Painting turns each run into one token and copies everything else. */
  lemma {:induction false} RenderPieces(pieces: seq<Piece>, prev: bool)
    requires IsDiff(pieces) && (prev && pieces != [] ==> !pieces[0].Run?)
    ensures Render(AllItems(pieces), prev) == AllMasked(pieces)
  {
    if pieces != [] {
      var rest := AllItems(pieces[1..]);
      match pieces[0]
      case Lead(g) =>
        RenderCons(Gap(g), rest, prev);
        RenderPieces(pieces[1..], false);
      case Run(p) =>
        RenderFirstRun(p, rest);
        RenderPieces(pieces[1..], true);
      case Other(p) =>
        RenderClear(p, rest, prev);
        RenderPieces(pieces[1..], false);
    }
  }

  /** A diff whose runs are exactly what is masked is redacted to one token for each run. */
  lemma RedactedPieces(first: string, pieces: seq<Piece>)
    requires IsLead(first) && IsDiff(pieces) && Inside(AllText(pieces))
    requires Consistent([Gap(first)] + AllItems(pieces))
    ensures Redacted(first + AllText(pieces)) == first + AllMasked(pieces)
  {
    var text, rest := first + AllText(pieces), AllItems(pieces);
    var items := [Gap(first)] + rest;
    LeadLengthOf(first, AllText(pieces));
    assert text[..|first|] == first && text[|first|..] == AllText(pieces);
    ItemsOfPieces(pieces);
    PlainCons(Gap(first), rest);
    assert Parse(text) == Plain(items);
    ConsistentFlagsAreTheMask(items);
    RenderCons(Gap(first), rest, false);
    RenderPieces(pieces, false);
  }

  // ---- What is masked in them ---------------------------------------------------------------------

  function Same(n: nat, b: bool): (s: seq<bool>)
    ensures |s| == n && forall i :: 0 <= i < n ==> s[i] == b
  {
    if n == 0 then [] else [b] + Same(n - 1, b)
  }

  lemma {:induction false} ShownParts(p: string, masked: bool, rest: seq<Item>)
    ensures Chars(Shown(p, masked) + rest) == p + Chars(rest)
    ensures Flags(Shown(p, masked) + rest) == Same(|p|, masked) + Flags(rest)
    ensures Broke(Shown(p, masked) + rest, false) == Same(|p|, false) + Broke(rest, false)
  {
    if p == [] {
      assert Shown(p, masked) + rest == rest;
    } else {
      var tail := Shown(p[1..], masked) + rest;
      assert Shown(p, masked) + rest == [Vis(p[0], masked)] + tail;
      VisFirst(p[0], masked, tail, false);
      ShownParts(p[1..], masked, rest);
      assert p == [p[0]] + p[1..];
      Assoc([p[0]], p[1..], Chars(rest));
      Assoc([masked], Same(|p| - 1, masked), Flags(rest));
      Assoc([false], Same(|p| - 1, false), Broke(rest, false));
    }
  }

  lemma VisFirst(c: char, masked: bool, rest: seq<Item>, pending: bool)
    ensures Chars([Vis(c, masked)] + rest) == [c] + Chars(rest)
    ensures Flags([Vis(c, masked)] + rest) == [masked] + Flags(rest)
    ensures Broke([Vis(c, masked)] + rest, pending) == [pending] + Broke(rest, false)
  {
    assert ([Vis(c, masked)] + rest)[1..] == rest;
  }

  lemma GapFirst(g: string, rest: seq<Item>, pending: bool)
    ensures Chars([Gap(g)] + rest) == Chars(rest) && Flags([Gap(g)] + rest) == Flags(rest)
    ensures Broke([Gap(g)] + rest, pending) == Broke(rest, pending || IsRowBreak(g))
  {
    assert ([Gap(g)] + rest)[1..] == rest;
  }

  /** The visible characters after a row break: the first one carries the mark of the break. */
  lemma BrokenParts(g: string, p: string, masked: bool, rest: seq<Item>)
    requires p != []
    ensures Chars([Gap(g)] + (Shown(p, masked) + rest)) == p + Chars(rest)
    ensures Flags([Gap(g)] + (Shown(p, masked) + rest)) == Same(|p|, masked) + Flags(rest)
    ensures Broke([Gap(g)] + (Shown(p, masked) + rest), false)
         == [IsRowBreak(g)] + (Same(|p| - 1, false) + Broke(rest, false))
  {
    GapFirst(g, Shown(p, masked) + rest, false);
    ShownParts(p, masked, rest);
    BrokenShown(p, masked, rest, IsRowBreak(g));
  }

  lemma BrokenShown(p: string, masked: bool, rest: seq<Item>, pending: bool)
    requires p != []
    ensures Broke(Shown(p, masked) + rest, pending) == [pending] + (Same(|p| - 1, false) + Broke(rest, false))
  {
    var tail := Shown(p[1..], masked) + rest;
    assert Shown(p, masked) + rest == [Vis(p[0], masked)] + tail;
    VisFirst(p[0], masked, tail, pending);
    ShownParts(p[1..], masked, rest);
  }

  predicate Component(p: string) { p != [] && ESC !in p && forall i :: 0 <= i < |p| ==> IsComponent(p[i]) }

  /** A line `A@B@C:/path` of three component runs, none of them with an `@` in it. */
  predicate TwoAts(v: string, at1: nat, at2: nat, end: nat) {
    && 0 < at1 < at2 - 1 && at2 < end - 1 && end + 1 < |v|
    && v[at1] == '@' && v[at2] == '@' && v[end] == ':' && v[end + 1] == '/'
    && AllComponents(v, 0, at1) && AllComponents(v, at1 + 1, at2) && AllComponents(v, at2 + 1, end)
    && forall x :: end <= x < |v| ==> v[x] != '@'
  }

  lemma MatchesEndBefore(v: string, end: nat, d: Identity)
    requires end < |v| && v[end] == ':' && (forall x :: end <= x < |v| ==> v[x] != '@') && IsIdentity(v, d)
    ensures d.end <= end
  {
  }

  /** With a row break in B or C, all of A, B and C is masked and nothing else. */
  lemma BothSidesMasked(v: string, broke: seq<bool>, at1: nat, at2: nat, end: nat, x0: nat, x: nat)
    requires TwoAts(v, at1, at2, end) && |broke| == |v| && at1 < x0 < end && broke[x0] && x < |v|
    ensures Masked(v, broke, x) <==> x < end && IsComponent(v[x])
  {
    MaskedExactly(v, broke, x);
    var d := Identity(at1 + 1, at2, end);
    assert IsIdentity(v, d);
    assert WidenedBy(v, broke, d, at1, 0);
    if x < end {
      assert LeftPart(v, broke, d, x);
      assert Reaches(v, broke, d, x);
    }
    forall e | IsIdentity(v, e)
      ensures e.end <= end
    {
      MatchesEndBefore(v, end, e);
    }
  }

  lemma LineParts(v: string, a: string, b1: string, b2: string, c1: string, c2: string, path: string)
    requires Component(a) && Component(b1) && Component(b2) && Component(c1) && Component(c2) && '@' !in path
    requires v == a + ("@" + (b1 + (b2 + ("@" + (c1 + (c2 + (":/" + path)))))))
    ensures var at2, end := |a| + 1 + |b1| + |b2|, |a| + |b1| + |b2| + |c1| + |c2| + 2;
            TwoAts(v, |a|, at2, end) && |v| == end + 2 + |path|
  {
    var s := |a| + 1;
    var at := s + |b1| + |b2|;
    var end := at + 1 + |c1| + |c2|;
    assert forall x :: 0 <= x < |a| ==> v[x] == a[x];
    assert forall x :: s <= x < s + |b1| ==> v[x] == b1[x - s];
    assert forall x :: s + |b1| <= x < at ==> v[x] == b2[x - s - |b1|];
    assert forall x :: at < x < at + 1 + |c1| ==> v[x] == c1[x - at - 1];
    assert forall x :: at + 1 + |c1| <= x < end ==> v[x] == c2[x - at - 1 - |c1|];
    assert forall x :: end + 2 <= x < |v| ==> v[x] == path[x - end - 2];
  }

  lemma FlagParts(flags: seq<bool>, a: nat, b1: nat, b2: nat, c1: nat, c2: nat, path: nat)
    requires flags == Same(a, true) + (Same(1, false) + (Same(b1, true) + (Same(b2, true)
                      + (Same(1, false) + (Same(c1, true) + (Same(c2, true) + Same(2 + path, false)))))))
    ensures |flags| == a + b1 + b2 + c1 + c2 + path + 4
    ensures var at2, end := a + 1 + b1 + b2, a + b1 + b2 + c1 + c2 + 2;
            forall x :: 0 <= x < |flags| ==> (flags[x] <==> x < end && x != a && x != at2)
  {
  }

  /** A user cut off from its host by two diff rows: `a@b1`, then `b2@c1`, then `c2:/path`. */
  function CutPieces(a: string, b1: string, g1: string, b2: string, c1: string, g2: string, c2: string, path: string):
      seq<Piece> {
    [Run(a)] + ([Other("@")] + ([Run(b1)] + ([Lead(g1)] + LowerPieces(b2, c1, g2, c2, path))))
  }

  function LowerPieces(b2: string, c1: string, g2: string, c2: string, path: string): seq<Piece> {
    [Run(b2)] + ([Other("@")] + ([Run(c1)] + ([Lead(g2)] + ([Run(c2)] + [Other(":/" + path)]))))
  }

  lemma PieceCons(x: Piece, rest: seq<Piece>)
    ensures AllItems([x] + rest) == PieceItems(x) + AllItems(rest)
    ensures AllText([x] + rest) == PieceText(x) + AllText(rest)
    ensures AllMasked([x] + rest) == (if x.Run? then [MASK] else PieceText(x)) + AllMasked(rest)
  {
    assert ([x] + rest)[1..] == rest;
  }

  lemma OnePiece(x: Piece)
    ensures AllItems([x]) == PieceItems(x) && AllText([x]) == PieceText(x)
    ensures AllMasked([x]) == (if x.Run? then [MASK] else PieceText(x))
  {
    assert [x] + [] == [x];
    PieceCons(x, []);
  }

  /** The items from the second row on, and what they hold. */
  lemma LowerRows(g1: string, b2: string, c1: string, g2: string, c2: string, path: string)
    requires b2 != [] && c2 != []
    ensures var items := [Gap(g1)] + (Shown(b2, true) + (Shown("@", false) + (Shown(c1, true)
                         + ([Gap(g2)] + (Shown(c2, true) + Shown(":/" + path, false))))));
            && Chars(items) == b2 + ("@" + (c1 + (c2 + (":/" + path))))
            && Flags(items) == Same(|b2|, true) + (Same(1, false) + (Same(|c1|, true) + (Same(|c2|, true)
                               + Same(2 + |path|, false))))
            && |Broke(items, false)| > 0 && Broke(items, false)[0] == IsRowBreak(g1)
  {
    var t6 := Shown(":/" + path, false);
    var t5 := [Gap(g2)] + (Shown(c2, true) + t6);
    LastRow(g2, c2, path);
    ShownParts(c1, true, t5);
    ShownParts("@", false, Shown(c1, true) + t5);
    BrokenParts(g1, b2, true, Shown("@", false) + (Shown(c1, true) + t5));
  }

  lemma LastRow(g2: string, c2: string, path: string)
    requires c2 != []
    ensures var items := [Gap(g2)] + (Shown(c2, true) + Shown(":/" + path, false));
            Chars(items) == c2 + (":/" + path) && Flags(items) == Same(|c2|, true) + Same(2 + |path|, false)
  {
    var t6 := Shown(":/" + path, false);
    assert t6 + [] == t6;
    ShownParts(":/" + path, false, []);
    assert Chars(t6) == ":/" + path && Flags(t6) == Same(2 + |path|, false);
    BrokenParts(g2, c2, true, t6);
  }

  lemma UpperRow(first: string, a: string, b1: string, rest: seq<Item>)
    requires a != [] && !IsRowBreak(first)
    ensures var items := [Gap(first)] + (Shown(a, true) + (Shown("@", false) + (Shown(b1, true) + rest)));
            && Chars(items) == a + ("@" + (b1 + Chars(rest)))
            && Flags(items) == Same(|a|, true) + (Same(1, false) + (Same(|b1|, true) + Flags(rest)))
            && Broke(items, false) == Same(|a|, false) + (Same(1, false) + (Same(|b1|, false) + Broke(rest, false)))
  {
    ShownParts(b1, true, rest);
    var t1 := Shown(b1, true) + rest;
    ShownParts("@", false, t1);
    ShownParts(a, true, Shown("@", false) + t1);
    GapFirst(first, Shown(a, true) + (Shown("@", false) + t1), false);
  }

  lemma LowerItems(b2: string, c1: string, g2: string, c2: string, path: string)
    ensures AllItems(LowerPieces(b2, c1, g2, c2, path))
         == Shown(b2, true) + (Shown("@", false) + (Shown(c1, true)
                                                    + ([Gap(g2)] + (Shown(c2, true) + Shown(":/" + path, false)))))
    ensures AllMasked(LowerPieces(b2, c1, g2, c2, path)) == [MASK] + ("@" + ([MASK] + (g2 + ([MASK] + (":/" + path)))))
  {
    var last := [Other(":/" + path)];
    OnePiece(Other(":/" + path));
    PieceCons(Run(c2), last);
    PieceCons(Lead(g2), [Run(c2)] + last);
    PieceCons(Run(c1), [Lead(g2)] + ([Run(c2)] + last));
    PieceCons(Other("@"), [Run(c1)] + ([Lead(g2)] + ([Run(c2)] + last)));
    PieceCons(Run(b2), [Other("@")] + ([Run(c1)] + ([Lead(g2)] + ([Run(c2)] + last))));
  }

  lemma CutItems(a: string, b1: string, g1: string, lower: seq<Piece>)
    ensures AllItems([Run(a)] + ([Other("@")] + ([Run(b1)] + ([Lead(g1)] + lower))))
         == Shown(a, true) + (Shown("@", false) + (Shown(b1, true) + ([Gap(g1)] + AllItems(lower))))
    ensures AllMasked([Run(a)] + ([Other("@")] + ([Run(b1)] + ([Lead(g1)] + lower))))
         == [MASK] + ("@" + ([MASK] + (g1 + AllMasked(lower))))
  {
    PieceCons(Lead(g1), lower);
    PieceCons(Run(b1), [Lead(g1)] + lower);
    PieceCons(Other("@"), [Run(b1)] + ([Lead(g1)] + lower));
    PieceCons(Run(a), [Other("@")] + ([Run(b1)] + ([Lead(g1)] + lower)));
  }

  /** Exactly the components on both sides of the cut are masked. */
  lemma CutIsConsistent(first: string, a: string, b1: string, g1: string, b2: string, c1: string, g2: string,
                        c2: string,
                        path: string)
    requires Component(a) && Component(b1) && Component(b2) && Component(c1) && Component(c2) && '@' !in path
    requires !IsRowBreak(first) && IsRowBreak(g1)
    ensures Consistent([Gap(first)] + AllItems(CutPieces(a, b1, g1, b2, c1, g2, c2, path)))
  {
    var rest := [Gap(g1)] + (Shown(b2, true) + (Shown("@", false) + (Shown(c1, true)
                + ([Gap(g2)] + (Shown(c2, true) + Shown(":/" + path, false))))));
    LowerItems(b2, c1, g2, c2, path);
    CutItems(a, b1, g1, LowerPieces(b2, c1, g2, c2, path));
    LowerRows(g1, b2, c1, g2, c2, path);
    UpperRow(first, a, b1, rest);
    var items := [Gap(first)] + (Shown(a, true) + (Shown("@", false) + (Shown(b1, true) + rest)));
    var v, flags, broke := Chars(items), Flags(items), Broke(items, false);
    Lengths(items, false);
    LineParts(v, a, b1, b2, c1, c2, path);
    FlagParts(flags, |a|, |b1|, |b2|, |c1|, |c2|, |path|);
    var x0 := |a| + 1 + |b1|;
    assert broke[x0] by {
      BreakPlace(broke, |a|, |b1|, Broke(rest, false));
    }
    var at2, end := x0 + |b2|, |a| + |b1| + |b2| + |c1| + |c2| + 2;
    forall x | 0 <= x < |v|
      ensures flags[x] <==> Masked(v, broke, x)
    {
      BothSidesMasked(v, broke, |a|, at2, end, x0, x);
    }
  }

  lemma BreakPlace(broke: seq<bool>, a: nat, b: nat, rest: seq<bool>)
    requires broke == Same(a, false) + (Same(1, false) + (Same(b, false) + rest)) && rest != []
    ensures broke[a + 1 + b] == rest[0]
  {
  }

  /** What is printed of an identity whose user and host are cut apart by the rows of a diff: a token for
      every component left, none of its characters. The left user is found over the break although the match
      itself begins only after it. */
  lemma CutIdentityIsRedacted(first: string, a: string, b1: string, g1: string, b2: string, c1: string, g2: string,
                              c2: string, path: string)
    requires Component(a) && Component(b1) && Component(b2) && Component(c1) && Component(c2)
    requires '@' !in path && ESC !in path && '\n' !in path
    requires IsLead(first) && |g1| > 1 && g1[0] == '\n' && IsLead(g1[1..]) && (g1[1] == '+' || g1[1] == '-')
    requires |g2| > 1 && g2[0] == '\n' && IsLead(g2[1..])
    ensures Redacted(first + AllText(CutPieces(a, b1, g1, b2, c1, g2, c2, path)))
         == first + ([MASK] + ("@" + ([MASK] + (g1 + ([MASK] + ("@" + ([MASK] + (g2 + ([MASK] + (":/" + path))))))))))
  {
    var pieces := CutPieces(a, b1, g1, b2, c1, g2, c2, path);
    CutIsConsistent(first, a, b1, g1, b2, c1, g2, c2, path);
    CutIsDiff(a, b1, g1, b2, c1, g2, c2, path);
    RedactedPieces(first, pieces);
    LowerItems(b2, c1, g2, c2, path);
    CutItems(a, b1, g1, LowerPieces(b2, c1, g2, c2, path));
  }

  lemma ComponentsAreText(p: string)
    requires Component(p)
    ensures Plainly(p) && Inside(p)
  {
  }

  lemma InsideConcat(p: string, rest: string)
    requires Inside(p)
    ensures Inside(p + rest)
  {
  }

  lemma CutIsDiff(a: string, b1: string, g1: string, b2: string, c1: string, g2: string, c2: string, path: string)
    requires Component(a) && Component(b1) && Component(b2) && Component(c1) && Component(c2)
    requires ESC !in path && '\n' !in path
    requires |g1| > 1 && g1[0] == '\n' && IsLead(g1[1..]) && |g2| > 1 && g2[0] == '\n' && IsLead(g2[1..])
    ensures var pieces := CutPieces(a, b1, g1, b2, c1, g2, c2, path);
            IsDiff(pieces) && Inside(AllText(pieces))
  {
    LowerIsDiff(b2, c1, g2, c2, path);
    ComponentsAreText(a);
    ComponentsAreText(b1);
    var lower := LowerPieces(b2, c1, g2, c2, path);
    DiffStep(Lead(g1), lower);
    DiffStep(Run(b1), [Lead(g1)] + lower);
    DiffStep(Other("@"), [Run(b1)] + ([Lead(g1)] + lower));
    DiffStep(Run(a), [Other("@")] + ([Run(b1)] + ([Lead(g1)] + lower)));
    InsideConcat(a, AllText([Other("@")] + ([Run(b1)] + ([Lead(g1)] + lower))));
  }

  lemma LowerIsDiff(b2: string, c1: string, g2: string, c2: string, path: string)
    requires Component(b2) && Component(c1) && Component(c2) && ESC !in path && '\n' !in path
    requires |g2| > 1 && g2[0] == '\n' && IsLead(g2[1..])
    ensures IsDiff(LowerPieces(b2, c1, g2, c2, path)) && Inside(AllText(LowerPieces(b2, c1, g2, c2, path)))
  {
    ComponentsAreText(b2);
    ComponentsAreText(c1);
    ComponentsAreText(c2);
    var last := [Other(":/" + path)];
    assert last[1..] == [] && IsDiff(last);
    DiffStep(Run(c2), last);
    InsideConcat(c2, AllText(last));
    DiffStep(Lead(g2), [Run(c2)] + last);
    DiffStep(Run(c1), [Lead(g2)] + ([Run(c2)] + last));
    DiffStep(Other("@"), [Run(c1)] + ([Lead(g2)] + ([Run(c2)] + last)));
    DiffStep(Run(b2), [Other("@")] + ([Run(c1)] + ([Lead(g2)] + ([Run(c2)] + last))));
    InsideConcat(b2, AllText([Other("@")] + ([Run(c1)] + ([Lead(g2)] + ([Run(c2)] + last)))));
  }

  lemma DiffStep(x: Piece, rest: seq<Piece>)
    requires IsDiff(rest)
    requires match x
             case Lead(g) => |g| > 1 && g[0] == '\n' && IsLead(g[1..]) && Inside(AllText(rest))
             case Run(p) => Plainly(p) && (rest != [] ==> !rest[0].Run?)
             case Other(p) => Plainly(p)
    ensures IsDiff([x] + rest) && AllText([x] + rest) == PieceText(x) + AllText(rest)
  {
    assert ([x] + rest)[1..] == rest;
  }

  /** `transcript-left@private_` and `transcript-right@private_` as the changed rows of a diff, `host-name:/repo`
      as the row below them: of three names and two halves of a host nothing is printed. */
  lemma InsideHostname()
    ensures Redacted("-  " + AllText(CutPieces("transcript-left", "private_", "\n+  ", "transcript-right", "private_",
                                               "\n ",
                                               "host-name", "repo")))
         == var token := ['\U{2592}'];
            "-  " + (token + ("@" + (token + ("\n+  "
                                              + (token + ("@" + (token + ("\n " + (token + (":/" + "repo"))))))))))
  {
    CutIdentityIsRedacted("-  ", "transcript-left", "private_", "\n+  ", "transcript-right", "private_", "\n ",
                          "host-name",
                          "repo");
  }
}
