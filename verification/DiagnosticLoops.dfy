/** `redact_diagnostic_text`: the masked offsets are collected match by match, then painted over. */
module DiagnosticLoops {
  import opened Text
  import opened Identities
  import opened Diagnostic
  import opened Redaction
  import opened DiagnosticText

  // ---- Collecting the masked offsets ------------------------------------------------------------

  predicate InRange(v: string, broke: seq<bool>, d: Identity, x: nat)
    requires |broke| == |v| && d.start <= d.end <= |v|
  {
    From(v, broke, d) <= x < d.end
  }

  predicate Fits(v: string, ids: seq<Identity>) {
    forall j :: 0 <= j < |ids| ==> IsIdentity(v, ids[j])
  }

  predicate InSome(v: string, broke: seq<bool>, ids: seq<Identity>, x: nat)
    requires |broke| == |v| && Fits(v, ids)
  {
    exists j :: 0 <= j < |ids| && InRange(v, broke, ids[j], x)
  }

  /** The set holds exactly the offsets of the component characters of these matches. */
  ghost predicate Collected(v: string, broke: seq<bool>, offsets: seq<nat>, ids: seq<Identity>, masked: set<nat>) {
    && |broke| == |v| == |offsets| && Fits(v, ids)
    && (forall x :: 0 <= x < |v| ==> (offsets[x] in masked <==> IsComponent(v[x]) && InSome(v, broke, ids, x)))
    && (forall o :: o in masked ==> o in offsets)
  }

  /** The offsets of the component characters in a range of visible characters, added to the set. */
  method MaskRange(v: string, offsets: seq<nat>, masked: set<nat>, start: nat, end: nat) returns (more: set<nat>)
    requires start <= end <= |v| == |offsets| && Increasing(offsets, 0)
    requires forall o :: o in masked ==> o in offsets
    ensures forall x :: 0 <= x < |v| ==>
              (offsets[x] in more <==> offsets[x] in masked || (start <= x < end && IsComponent(v[x])))
    ensures forall o :: o in more ==> o in offsets
  {
    more := masked;
    forall x, y | 0 <= x < y < |offsets|
      ensures offsets[x] < offsets[y]
    {
      IncreasingPairs(offsets, 0, x, y);
    }
    for index := start to end
      invariant forall x :: 0 <= x < |v| ==>
                  (offsets[x] in more <==> offsets[x] in masked || (start <= x < index && IsComponent(v[x])))
      invariant forall o :: o in more ==> o in offsets
    {
      if IsComponent(v[index]) {
        more := more + {offsets[index]};
      }
    }
  }

  /** The walk left over the component run before an `@`. */
  method WalkRun(v: string, q: nat) returns (r: nat)
    requires q <= |v|
    ensures r == RunStart(v, q)
  {
    r := q;
    while r > 0 && IsComponent(v[r - 1])
      invariant r <= q && RunStart(v, r) == RunStart(v, q)
    {
      r := r - 1;
    }
  }

  /** What searching a stretch of the text for a row break says about the recorded ones. */
  predicate SearchAgrees(text: string, offsets: seq<nat>, broke: seq<bool>, q: nat, e: nat)
    requires q < e < |offsets| == |broke|
  {
    && offsets[q] <= offsets[e] <= |text|
    && (RowBreakIn(text[offsets[q]..offsets[e]]) <==> BreaksBetween(broke, q, e + 1))
  }

  predicate Searchable(text: string, offsets: seq<nat>, broke: seq<bool>) {
    |offsets| == |broke|
    && forall q, e :: 0 <= q < e < |offsets| ==> SearchAgrees(text, offsets, broke, q, e)
  }

  /** Where masking starts for one match, as the code decides it. */
  method StartOf(text: string, v: string, offsets: seq<nat>, ghost broke: seq<bool>, d: Identity) returns (start: nat)
    requires |broke| == |v| && Searchable(text, offsets, broke) && IsIdentity(v, d)
    ensures start == From(v, broke, d) <= d.end
  {
    start := d.start;
    var prev := PrevAt(v, start);
    if prev.Some? {
      var alternate := WalkRun(v, prev.value);
      assert SearchAgrees(text, offsets, broke, prev.value, d.end - 1);
      if RowBreakIn(text[offsets[prev.value]..offsets[d.end - 1]]) {
        start := alternate;
      }
    }
  }

  lemma OneMoreMatch(v: string, broke: seq<bool>, offsets: seq<nat>, ids: seq<Identity>, d: Identity,
                     masked: set<nat>, more: set<nat>)
    requires Collected(v, broke, offsets, ids, masked) && IsIdentity(v, d)
    requires forall x :: 0 <= x < |v| ==>
               (offsets[x] in more <==> offsets[x] in masked || (InRange(v, broke, d, x) && IsComponent(v[x])))
    requires forall o :: o in more ==> o in offsets
    ensures Collected(v, broke, offsets, ids + [d], more)
  {
    var all := ids + [d];
    assert Fits(v, all);
    forall x | 0 <= x < |v| ensures InSome(v, broke, all, x) <==> InSome(v, broke, ids, x) || InRange(v, broke, d, x) {
      if InSome(v, broke, ids, x) {
        var j :| 0 <= j < |ids| && InRange(v, broke, ids[j], x);
        assert all[j] == ids[j];
      }
      if InRange(v, broke, d, x) {
        assert all[|ids|] == d;
      }
    }
  }

  /** The loop over `finditer`. */
  method CollectMasked(text: string, v: string, offsets: seq<nat>, ghost broke: seq<bool>) returns (masked: set<nat>)
    requires |broke| == |v| == |offsets| && Increasing(offsets, 0) && Searchable(text, offsets, broke)
    ensures Collected(v, broke, offsets, FindAll(v, 0), masked)
  {
    masked := {};
    var ids := FindAll(v, 0);
    AllFit(v);
    for k := 0 to |ids|
      invariant Collected(v, broke, offsets, ids[..k], masked)
    {
      var start := StartOf(text, v, offsets, broke, ids[k]);
      var more := MaskRange(v, offsets, masked, start, ids[k].end);
      OneMoreMatch(v, broke, offsets, ids[..k], ids[k], masked, more);
      PrefixGrows(ids, k);
      masked := more;
    }
    assert ids[..|ids|] == ids;
  }

  lemma AllFit(v: string)
    ensures Fits(v, FindAll(v, 0))
  {
    var ids := FindAll(v, 0);
    forall j | 0 <= j < |ids| ensures IsIdentity(v, ids[j]) {
      FindAllExact(v, 0, ids[j]);
    }
  }

  lemma SomeIsMasked(v: string, broke: seq<bool>, ids: seq<Identity>, x: nat)
    requires |broke| == |v| && Fits(v, ids) && x < |v|
    requires forall d :: d in ids <==> IsIdentity(v, d)
    ensures IsComponent(v[x]) && InSome(v, broke, ids, x) <==> Masked(v, broke, x)
  {
    if InSome(v, broke, ids, x) {
      var j :| 0 <= j < |ids| && InRange(v, broke, ids[j], x);
      assert MaskedBy(v, broke, x, ids[j]);
    }
    if Masked(v, broke, x) {
      var d :| MaskedBy(v, broke, x, d);
      var j :| 0 <= j < |ids| && ids[j] == d;
      assert InRange(v, broke, ids[j], x);
    }
  }

  /** The collected set is the declared mask: every component character of every match, the extended left
      part included, and nothing else. */
  lemma CollectedIsMasked(v: string, broke: seq<bool>, offsets: seq<nat>, masked: set<nat>, x: nat)
    requires Collected(v, broke, offsets, FindAll(v, 0), masked) && x < |v|
    ensures offsets[x] in masked <==> Masked(v, broke, x)
  {
    forall d ensures d in FindAll(v, 0) <==> IsIdentity(v, d) {
      FindAllExact(v, 0, d);
    }
    SomeIsMasked(v, broke, FindAll(v, 0), x);
  }

  // ---- Painting ---------------------------------------------------------------------------------

  /** The text from `cursor` on with every run of masked positions as one mask. */
  function Painted(text: string, masked: set<nat>, cursor: nat, prev: bool): string
    requires cursor <= |text|
    decreases |text| - cursor
  {
    if cursor == |text| then []
    else if cursor in masked then
      if prev then Painted(text, masked, cursor + 1, true) else [MASK] + Painted(text, masked, cursor + 1, true)
    else [text[cursor]] + Painted(text, masked, cursor + 1, false)
  }

  method SkipMasked(text: string, masked: set<nat>, from: nat) returns (cursor: nat)
    requires from <= |text|
    ensures from <= cursor <= |text| && (cursor < |text| ==> cursor !in masked)
    ensures Painted(text, masked, cursor, false) == Painted(text, masked, from, true)
  {
    cursor := from;
    while cursor < |text| && cursor in masked
      invariant from <= cursor <= |text|
      invariant Painted(text, masked, cursor, true) == Painted(text, masked, from, true)
    {
      cursor := cursor + 1;
    }
  }

  predicate NotMask(c: char) { c != MASK }

  /** The characters from `cursor` on at unmasked positions, in order. */
  function Unmasked(text: string, masked: set<nat>, cursor: nat): string
    requires cursor <= |text|
    decreases |text| - cursor
  {
    if cursor == |text| then []
    else if cursor in masked then Unmasked(text, masked, cursor + 1)
    else [text[cursor]] + Unmasked(text, masked, cursor + 1)
  }

  /** Where the maximal runs of masked positions start, from `cursor` on. */
  function RunStarts(text: string, masked: set<nat>, cursor: nat, prev: bool): set<nat>
    requires cursor <= |text|
  {
    set o: nat | cursor <= o < |text| && StartsRun(masked, cursor, prev, o)
  }

  /** The position opens a masked run; `prev` tells whether the one before `cursor` is masked. */
  predicate StartsRun(masked: set<nat>, cursor: nat, prev: bool, o: nat) {
    o in masked && if o == cursor then !prev else o == 0 || o - 1 !in masked
  }

  lemma RunStartsFrom(text: string, masked: set<nat>, cursor: nat, prev: bool)
    requires cursor < |text|
    ensures |RunStarts(text, masked, cursor, prev)|
         == (if cursor in masked && !prev then 1 else 0) + |RunStarts(text, masked, cursor + 1, cursor in masked)|
  {
    var next := cursor in masked;
    forall o: nat | o > cursor
      ensures StartsRun(masked, cursor, prev, o) <==> StartsRun(masked, cursor + 1, next, o)
    {
    }
    var here := if cursor in masked && !prev then {cursor} else {};
    assert RunStarts(text, masked, cursor, prev) == here + RunStarts(text, masked, cursor + 1, next);
  }

  function TokenCount(s: string): nat {
    if s == [] then 0 else (if s[0] == MASK then 1 else 0) + TokenCount(s[1..])
  }

  lemma {:induction false} PaintingAddsTokens(text: string, masked: set<nat>, cursor: nat, prev: bool)
    requires cursor <= |text|
    ensures TokenCount(Painted(text, masked, cursor, prev))
         == TokenCount(Unmasked(text, masked, cursor)) + |RunStarts(text, masked, cursor, prev)|
    decreases |text| - cursor
  {
    if cursor < |text| {
      PaintingAddsTokens(text, masked, cursor + 1, cursor in masked);
      RunStartsFrom(text, masked, cursor, prev);
      TokenCons(if cursor in masked then MASK else text[cursor], Painted(text, masked, cursor + 1, cursor in masked));
      TokenCons(text[cursor], Unmasked(text, masked, cursor + 1));
    }
  }

  lemma TokenCons(c: char, rest: string)
    ensures TokenCount([c] + rest) == (if c == MASK then 1 else 0) + TokenCount(rest)
  {
    assert ([c] + rest)[1..] == rest;
  }

  lemma KeepToken(rest: string)
    ensures Keep([MASK] + rest, NotMask) == Keep(rest, NotMask)
  {
    assert ([MASK] + rest)[1..] == rest;
    assert [] + Keep(rest, NotMask) == Keep(rest, NotMask);
  }

  lemma KeepBoth(c: char, a: string, b: string)
    requires Keep(a, NotMask) == Keep(b, NotMask)
    ensures Keep([c] + a, NotMask) == Keep([c] + b, NotMask)
  {
    assert ([c] + a)[1..] == a && ([c] + b)[1..] == b;
  }

  lemma {:induction false} PaintingKeepsText(text: string, masked: set<nat>, cursor: nat, prev: bool)
    requires cursor <= |text|
    ensures Keep(Painted(text, masked, cursor, prev), NotMask) == Keep(Unmasked(text, masked, cursor), NotMask)
    decreases |text| - cursor
  {
    if cursor < |text| {
      var painted, kept := Painted(text, masked, cursor + 1, cursor in masked), Unmasked(text, masked, cursor + 1);
      PaintingKeepsText(text, masked, cursor + 1, cursor in masked);
      if cursor in masked {
        KeepToken(painted);
      } else {
        KeepBoth(text[cursor], painted, kept);
      }
    }
  }

  /** Every unmasked character survives, in order, and each maximal masked run becomes one token. */
  lemma PaintingKeeps(text: string, masked: set<nat>, cursor: nat, prev: bool)
    requires cursor <= |text|
    ensures Keep(Painted(text, masked, cursor, prev), NotMask) == Keep(Unmasked(text, masked, cursor), NotMask)
    ensures TokenCount(Painted(text, masked, cursor, prev))
         == TokenCount(Unmasked(text, masked, cursor)) + |RunStarts(text, masked, cursor, prev)|
  {
    PaintingKeepsText(text, masked, cursor, prev);
    PaintingAddsTokens(text, masked, cursor, prev);
  }

  /** The output loop. */
  method Paint(text: string, masked: set<nat>) returns (out: string)
    ensures out == Painted(text, masked, 0, false)
    ensures Keep(out, NotMask) == Keep(Unmasked(text, masked, 0), NotMask)
    ensures TokenCount(out) == TokenCount(Unmasked(text, masked, 0)) + |RunStarts(text, masked, 0, false)|
  {
    out := [];
    var cursor: nat := 0;
    while cursor < |text|
      invariant cursor <= |text| && out + Painted(text, masked, cursor, false) == Painted(text, masked, 0, false)
    {
      if cursor in masked {
        cursor := SkipMasked(text, masked, cursor + 1);
        out := out + [MASK];
      } else {
        out := out + [text[cursor]];
        cursor := cursor + 1;
      }
    }
    PaintingKeeps(text, masked, 0, false);
  }

  lemma PaintedStep(text: string, masked: set<nat>, at: nat, prev: bool)
    requires at < |text| && at !in masked
    ensures Painted(text, masked, at, prev) == [text[at]] + Painted(text, masked, at + 1, false)
  {
  }

  /** Unmasked text is copied. */
  lemma {:induction false} PaintedPlain(text: string, masked: set<nat>, at: nat, next: nat, prev: bool)
    requires at <= next <= |text| && (at == next ==> !prev)
    requires forall o :: at <= o < next ==> o !in masked
    ensures Painted(text, masked, at, prev) == text[at..next] + Painted(text, masked, next, false)
    decreases next - at
  {
    if at < next {
      var rest := Painted(text, masked, next, false);
      PaintedStep(text, masked, at, prev);
      PaintedPlain(text, masked, at + 1, next, false);
      assert text[at..next] == [text[at]] + text[at + 1..next];
      Assoc([text[at]], text[at + 1..next], rest);
    } else {
      assert text[at..next] == [];
    }
  }

  /** After the first item no gap is empty. */
  predicate Solid(items: seq<Item>) {
    items == [] || ((items[0].Gap? ==> items[0].g != []) && Solid(items[1..]))
  }

  lemma {:induction false} ItemsAreSolid(s: string, flags: seq<bool>)
    requires |flags| == VisibleCount(Items(s))
    ensures Solid(Flag(Items(s), flags))
    decreases |s|
  {
    if s != [] && !IsShown(s) {
      var a, b := GapSplit(s);
      ItemsOfGap(a, b);
      FlagCons(Gap(a), Items(b), flags);
      ItemsAreSolid(b, flags);
      assert ([Gap(a)] + Flag(Items(b), flags))[1..] == Flag(Items(b), flags);
    } else if s != [] {
      assert s == [s[0]] + s[1..];
      ItemsOfVis(s[0], s[1..]);
      FlagCons(Vis(s[0], false), Items(s[1..]), flags);
      ItemsAreSolid(s[1..], flags[1..]);
      assert ([Vis(s[0], flags[0])] + Flag(Items(s[1..]), flags[1..]))[1..] == Flag(Items(s[1..]), flags[1..]);
    }
  }

  /** Item by item: flagged characters are in the set, gaps and the others are not. */
  predicate Paints(items: seq<Item>, at: nat, masked: set<nat>)
    decreases |items|
  {
    items != [] ==>
      match items[0]
      case Gap(g) => (forall o :: at <= o < at + |g| ==> o !in masked) && Paints(items[1..], at + |g|, masked)
      case Vis(_, m) => (at in masked <==> m) && Paints(items[1..], at + 1, masked)
  }

  /** The flags of the items from `at` on are the set's. */
  predicate PaintsAll(items: seq<Item>, at: nat, masked: set<nat>) {
    FlagsAgree(Offsets(items, at), Flags(items), masked, at)
  }

  predicate FlagsAgree(offsets: seq<nat>, flags: seq<bool>, masked: set<nat>, at: nat) {
    && |offsets| == |flags|
    && (forall x :: 0 <= x < |offsets| ==> (offsets[x] in masked <==> flags[x]))
    && (forall o :: o in masked && o >= at ==> o in offsets)
  }

  /** Where all offsets lie further on, nothing before them is masked. */
  lemma NoneBefore(offsets: seq<nat>, flags: seq<bool>, masked: set<nat>, at: nat, next: nat)
    requires FlagsAgree(offsets, flags, masked, at) && at <= next && Increasing(offsets, next)
    ensures FlagsAgree(offsets, flags, masked, next)
    ensures forall o :: at <= o < next ==> o !in masked
  {
    forall o | at <= o < next ensures o !in masked {
      if o in masked {
        var x :| 0 <= x < |offsets| && offsets[x] == o;
        IncreasingAll(offsets, next, x);
      }
    }
  }

  lemma PaintsGap(items: seq<Item>, at: nat, masked: set<nat>)
    requires items != [] && items[0].Gap? && PaintsAll(items, at, masked)
    ensures PaintsAll(items[1..], at + |items[0].g|, masked)
    ensures forall o :: at <= o < at + |items[0].g| ==> o !in masked
  {
    var next := at + |items[0].g|;
    assert Offsets(items, at) == Offsets(items[1..], next) && Flags(items) == Flags(items[1..]);
    OffsetsIncrease(items[1..], next);
    NoneBefore(Offsets(items[1..], next), Flags(items[1..]), masked, at, next);
  }

  lemma {:induction false} PaintsItemwise(items: seq<Item>, at: nat, masked: set<nat>)
    requires PaintsAll(items, at, masked)
    ensures Paints(items, at, masked)
    decreases |items|
  {
    if items != [] && items[0].Gap? {
      PaintsGap(items, at, masked);
      PaintsItemwise(items[1..], at + |items[0].g|, masked);
    } else if items != [] {
      PaintsVis(items, at, masked);
      PaintsItemwise(items[1..], at + 1, masked);
    }
  }

  lemma {:induction false} IncreasingAll(offsets: seq<nat>, lo: nat, x: nat)
    requires Increasing(offsets, lo) && x < |offsets|
    ensures lo <= offsets[x]
    decreases x
  {
    if x > 0 {
      IncreasingAll(offsets[1..], offsets[0] + 1, x - 1);
    }
  }

  lemma PaintsVis(items: seq<Item>, at: nat, masked: set<nat>)
    requires items != [] && items[0].Vis? && PaintsAll(items, at, masked)
    ensures PaintsAll(items[1..], at + 1, masked)
    ensures at in masked <==> items[0].masked
  {
    OffsetsCount(items, at);
    OffsetsCount(items[1..], at + 1);
    Lengths(items, false);
    Lengths(items[1..], false);
    var all, rest := Offsets(items, at), Offsets(items[1..], at + 1);
    assert all == [at] + rest && Flags(items) == [items[0].masked] + Flags(items[1..]);
    forall x | 0 <= x < |rest| ensures rest[x] in masked <==> Flags(items[1..])[x] {
      assert all[x + 1] == rest[x] && Flags(items)[x + 1] == Flags(items[1..])[x];
    }
    assert all[0] == at && Flags(items)[0] == items[0].masked;
  }

  lemma HeadAt(text: string, at: nat, items: seq<Item>)
    requires at <= |text| && items != [] && text[at..] == Glue(items)
    ensures var n := |HeadText(items[0])|;
            at + n <= |text| && text[at..at + n] == HeadText(items[0]) && text[at + n..] == Glue(items[1..])
  {
    var head := HeadText(items[0]);
    assert Glue(items) == head + Glue(items[1..]);
    SuffixStep(text, at, head, Glue(items[1..]));
    assert text[at..][..|head|] == head;
  }

  lemma PaintedVis(text: string, at: nat, c: char, masked: set<nat>, prev: bool)
    requires at < |text| && text[at..at + 1] == [c]
    ensures Painted(text, masked, at, prev) ==
            if at in masked then (if prev then [] else [MASK]) + Painted(text, masked, at + 1, true)
            else [c] + Painted(text, masked, at + 1, false)
  {
    assert text[at..at + 1][0] == text[at];
  }

  lemma {:induction false} PaintedIsRender(text: string, at: nat, items: seq<Item>, masked: set<nat>, prev: bool)
    requires at <= |text| && text[at..] == Glue(items) && Paints(items, at, masked)
    requires items != [] ==> Solid(items[1..]) && (items[0].Gap? && items[0].g == [] ==> !prev)
    ensures Painted(text, masked, at, prev) == Render(items, prev)
    decreases |items|
  {
    if items != [] {
      if items[0].Gap? {
        HeadAt(text, at, items);
        PaintedIsRender(text, at + |items[0].g|, items[1..], masked, false);
        PaintedGap(text, at, at + |items[0].g|, items, masked, prev);
      } else {
        HeadAt(text, at, items);
        PaintedVis(text, at, items[0].c, masked, prev);
        PaintedIsRender(text, at + 1, items[1..], masked, items[0].masked);
      }
    }
  }

  lemma PaintedGap(text: string, at: nat, next: nat, items: seq<Item>, masked: set<nat>, prev: bool)
    requires items != [] && items[0].Gap? && (items[0].g == [] ==> !prev)
    requires at <= next <= |text| && text[at..next] == items[0].g && forall o :: at <= o < next ==> o !in masked
    requires Painted(text, masked, next, false) == Render(items[1..], false)
    ensures Painted(text, masked, at, prev) == Render(items, prev)
  {
    PaintedPlain(text, masked, at, next, prev);
  }

  lemma {:induction false} GlueOfFlagged(items: seq<Item>, flags: seq<bool>)
    requires |flags| == VisibleCount(items)
    ensures Glue(Flag(items, flags)) == Glue(items)
    ensures forall at :: Offsets(Flag(items, flags), at) == Offsets(items, at)
    decreases |items|
  {
    if items != [] {
      GlueOfFlagged(items[1..], if items[0].Vis? then flags[1..] else flags);
    }
  }

  lemma ShowsChars(text: string, visible: string, offsets: seq<nat>, x: nat)
    requires Shows(text, visible, offsets) && x < |offsets|
    ensures offsets[x] < |text| && visible[x] == text[offsets[x]]
    decreases |offsets|
  {
    if x < |offsets| - 1 {
      ShowsChars(text, visible[..|offsets| - 1], offsets[..|offsets| - 1], x);
    }
  }

  lemma ProjectionIsSearchable(text: string)
    ensures Searchable(text, Offsets(Parse(text), 0), Broke(Parse(text), false))
  {
    var items := Parse(text);
    var offsets, broke := Offsets(items, 0), Broke(items, false);
    ParseGlue(text);
    ParseIsRowed(text);
    OffsetsCount(items, 0);
    Lengths(items, false);
    assert text[0..] == text;
    forall q, e | 0 <= q < e < |offsets|
      ensures SearchAgrees(text, offsets, broke, q, e)
    {
      RowBreakBetween(text, 0, items, false, q, e);
    }
  }

  lemma ProjectedIsParsed(text: string, visible: string, offsets: seq<nat>)
    requires offsets == ScanFrom(text, 0, true) && Shows(text, visible, offsets)
    ensures visible == Chars(Parse(text)) && offsets == Offsets(Parse(text), 0)
    ensures |Broke(Parse(text), false)| == |visible| == |offsets| && Increasing(offsets, 0)
  {
    ProjectionIsParse(text);
    ProjectionIndexesText(text);
    OffsetsIncrease(Parse(text), 0);
    Lengths(Parse(text), false);
    forall x | 0 <= x < |offsets| ensures visible[x] == Chars(Parse(text))[x] {
      ShowsChars(text, visible, offsets, x);
    }
  }

  lemma PaintedIsRedacted(text: string, masked: set<nat>)
    requires Collected(Chars(Parse(text)), Broke(Parse(text), false), Offsets(Parse(text), 0),
                       FindAll(Chars(Parse(text)), 0), masked)
    ensures Painted(text, masked, 0, false) == Redacted(text)
  {
    var items := Parse(text);
    var flags := MaskFlags(items);
    var marked := Marked(items);
    FlagKeeps(items, flags, false);
    GlueOfFlagged(items, flags);
    ParseGlue(text);
    forall x | 0 <= x < |flags| ensures Offsets(marked, 0)[x] in masked <==> flags[x] {
      CollectedIsMasked(Chars(items), Broke(items, false), Offsets(items, 0), masked, x);
    }
    assert text[0..] == text;
    var n := LeadLength(text);
    FlagCons(Gap(text[..n]), Items(text[n..]), flags);
    ItemsAreSolid(text[n..], flags);
    assert marked[1..] == Flag(Items(text[n..]), flags);
    PaintsItemwise(marked, 0, masked);
    PaintedIsRender(text, 0, marked, masked, false);
  }

  /** The redacted text is the text with the masked characters painted over, and these are exactly the
      component characters of a match, or left of one from the component run before the last `@` on where a
      diff row starts in between. */
  lemma RedactionMasksExactly(text: string) returns (masked: set<nat>)
    ensures Redacted(text) == Painted(text, masked, 0, false)
    ensures var items := Parse(text);
            var v, broke, offsets := Chars(items), Broke(items, false), Offsets(items, 0);
            && |broke| == |v| == |offsets|
            && forall o :: o in masked <==>
                 exists x :: 0 <= x < |v| && offsets[x] == o && IsComponent(v[x]) && exists d :: Reaches(v, broke, d, x)
  {
    var items := Parse(text);
    var v, broke, offsets := Chars(items), Broke(items, false), Offsets(items, 0);
    Lengths(items, false);
    OffsetsCount(items, 0);
    OffsetsIncrease(items, 0);
    AllFit(v);
    masked := set x | 0 <= x < |v| && Masked(v, broke, x) :: offsets[x];
    forall x | 0 <= x < |v|
      ensures offsets[x] in masked <==> Masked(v, broke, x)
      ensures IsComponent(v[x]) && InSome(v, broke, FindAll(v, 0), x) <==> Masked(v, broke, x)
      ensures Masked(v, broke, x) <==> IsComponent(v[x]) && exists d :: Reaches(v, broke, d, x)
    {
      OnlyHere(v, broke, offsets, x);
      MaskedExactly(v, broke, x);
      forall d ensures d in FindAll(v, 0) <==> IsIdentity(v, d) {
        FindAllExact(v, 0, d);
      }
      SomeIsMasked(v, broke, FindAll(v, 0), x);
    }
    PaintedIsRedacted(text, masked);
  }

  lemma OnlyHere(v: string, broke: seq<bool>, offsets: seq<nat>, x: nat)
    requires |broke| == |v| == |offsets| && Increasing(offsets, 0) && x < |v|
    ensures forall y :: 0 <= y < |v| && offsets[y] == offsets[x] ==> y == x
  {
    forall y | 0 <= y < |v| && y != x
      ensures offsets[y] != offsets[x]
    {
      if x < y {
        IncreasingPairs(offsets, 0, x, y);
      } else {
        IncreasingPairs(offsets, 0, y, x);
      }
    }
  }

  /** `redact_diagnostic_text` computes the redacted text. */
  method RedactDiagnosticText(text: string) returns (out: string)
    ensures out == Redacted(text)
  {
    var visible, offsets := Project(text);
    ProjectedIsParsed(text, visible, offsets);
    ProjectionIsSearchable(text);
    var masked := CollectMasked(text, visible, offsets, Broke(Parse(text), false));
    PaintedIsRedacted(text, masked);
    out := Paint(text, masked);
  }
}
