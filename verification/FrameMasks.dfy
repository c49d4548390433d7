/** Privacy redaction of a rendered frame: the dashboard-status mask that splices identities out of the
    block before a recognised footer, the redaction contract around it, and its comparison-time twin. */
module FrameMasks {
  import opened Text
  import opened AnsiEscape
  import opened Splices
  import opened Lines
  import RedactionContracts

  /** `rstrip("\r\n")`. */
  function TrimLineEnd(s: string): string {
    if s != [] && (s[|s| - 1] == '\r' || s[|s| - 1] == '\n') then TrimLineEnd(s[..|s| - 1]) else s
  }

  function SemanticLine(line: string): string { TrimLineEnd(StripStyles(line)) }

  function SemanticLines(text: string): (lines: seq<string>)
    ensures |lines| == |SplitLines(text)|
  {
    var raw := SplitLines(text);
    seq(|raw|, i requires 0 <= i < |raw| => SemanticLine(raw[i]))
  }

  predicate Blank(s: string) {
    forall i :: 0 <= i < |s| ==> IsSpace(s[i])
  }

  function Newlines(s: string): nat {
    if s == [] then 0 else Newlines(s[..|s| - 1]) + (if s[|s| - 1] == '\n' then 1 else 0)
  }

  /** A line is matched without its line end: the trailing carriage returns and newlines, and no more. */
  lemma {:induction false} TrimIsExact(s: string, end: string)
    requires s == [] || s[|s| - 1] !in "\r\n"
    requires forall i :: 0 <= i < |end| ==> end[i] in "\r\n"
    ensures TrimLineEnd(s + end) == s
  {
    if end == [] {
      assert s + end == s;
    } else {
      assert (s + end)[..|s + end| - 1] == s + end[..|end| - 1];
      TrimIsExact(s, end[..|end| - 1]);
    }
  }

  /** What the patterns of a dashboard see of a line `s params m text` with its line end. */
  lemma SemanticLineShows(before: string, params: string, after: string, end: string)
    requires ESC !in before && ESC !in after && (after == [] || after[|after| - 1] !in "\r\n")
    requires after == [] ==> before == [] || before[|before| - 1] !in "\r\n"
    requires forall i :: 0 <= i < |params| ==> IsParameter(params[i])
    requires forall i :: 0 <= i < |end| ==> end[i] in "\r\n"
    ensures SemanticLine(before + ([ESC, '['] + params + ['m'] + (after + end))) == before + after
  {
    StyleVanishes(before, params, [], after + end);
    assert [ESC, '['] + params + [] + ['m'] + (after + end) == [ESC, '['] + params + ['m'] + (after + end);
    assert ESC !in after + end;
    StylesKeepPlain(after + end, []);
    assert after + end + [] == after + end;
    assert before + (after + end) == (before + after) + end;
    TrimIsExact(before + after, end);
  }

  lemma {:induction false} StylesKeepNewlineLast(s: string)
    requires NewlineOnlyLast(s)
    ensures NewlineOnlyLast(StripStyles(s))
    decreases |s|
  {
    if s != [] {
      StylesKeepNewlineLast(s[if SgrLength(s) > 0 then SgrLength(s) else 1..]);
    }
  }

  lemma {:induction false} TrimDropsNewline(s: string)
    requires NewlineOnlyLast(s)
    ensures '\n' !in TrimLineEnd(s)
  {
    if s != [] && (s[|s| - 1] == '\r' || s[|s| - 1] == '\n') {
      TrimDropsNewline(s[..|s| - 1]);
    }
  }

  predicate NewlineFree(lines: seq<string>) {
    forall i :: 0 <= i < |lines| ==> '\n' !in lines[i]
  }

  lemma SemanticLinesHaveNoNewline(text: string)
    ensures NewlineFree(SemanticLines(text))
  {
    var raw := SplitLines(text);
    forall i | 0 <= i < |raw| ensures '\n' !in SemanticLine(raw[i]) {
      StylesKeepNewlineLast(raw[i]);
      TrimDropsNewline(StripStyles(raw[i]));
    }
  }

  // ---- Dashboard blocks -------------------------------------------------------------------------

  datatype Status = Status(name: string, identity: Finder, semantic: Finder, maskedForm: Finder,
                           mode: string -> bool, marker: string -> bool, replacement: string, minimum: nat)

  datatype Block = Block(first: nat, last: nat, marker: nat, recognized: bool, masked: bool)

  /** A match of the identity pattern or, flagged, of its already redacted form. */
  datatype Candidate = Candidate(match_: Match, masked: bool)

  /** The first line of the run of non-blank lines that ends just before line `m`. */
  function BlockStart(lines: seq<string>, m: nat): (start: nat)
    requires m <= |lines|
    ensures start <= m
  {
    if m > 0 && !Blank(lines[m - 1]) then BlockStart(lines, m - 1) else m
  }

  /** The run holds no blank line and cannot be extended upwards. */
  lemma {:induction false} BlockIsMaximal(lines: seq<string>, m: nat)
    requires m <= |lines|
    ensures var start := BlockStart(lines, m);
            && (forall i :: start <= i < m ==> !Blank(lines[i]))
            && (start > 0 ==> Blank(lines[start - 1]))
  {
    if m > 0 && !Blank(lines[m - 1]) {
      BlockIsMaximal(lines, m - 1);
    }
  }

  function Candidates(ms: seq<Match>, masked: bool): seq<Candidate> {
    if ms == [] then [] else [Candidate(ms[0], masked)] + Candidates(ms[1..], masked)
  }

  /** `max(candidates, key=start)`: the first candidate with the greatest start. */
  function Latest(cs: seq<Candidate>): (c: Candidate)
    requires cs != []
    ensures c in cs
  {
    var n: nat := |cs| - 1;
    if n == 0 then cs[0]
    else
      var c := Latest(cs[..n]);
      if cs[n].match_.start > c.match_.start then cs[n] else c
  }

  /** No candidate starts later, and none listed earlier starts as late. */
  lemma {:induction false} LatestIsNearest(cs: seq<Candidate>) returns (k: nat)
    requires cs != []
    ensures k < |cs| && Latest(cs) == cs[k]
    ensures forall j :: 0 <= j < |cs| ==> cs[j].match_.start <= cs[k].match_.start
    ensures forall j :: 0 <= j < k ==> cs[j].match_.start < cs[k].match_.start
  {
    var n: nat := |cs| - 1;
    if n == 0 {
      k := 0;
    } else {
      k := LatestIsNearest(cs[..n]);
      if cs[n].match_.start > cs[k].match_.start {
        k := n;
      }
    }
  }

  function BlockCandidates(s: Status, block: string): seq<Candidate> {
    Candidates(s.semantic(block), false) + Candidates(s.maskedForm(block), true)
  }

  /** The block before marker line `m`, located by its nearest identity, if line `m` is a footer. */
  function BlockAt(s: Status, lines: seq<string>, m: nat): Option<Block>
    requires m < |lines|
  {
    if !s.marker(lines[m]) then None
    else
      var start := BlockStart(lines, m);
      var block := Join(lines[start..m], "\n");
      var cs := BlockCandidates(s, block);
      if cs == [] then None
      else
        InBlock(s, block, Latest(cs));
        Some(Located(start, block, Latest(cs), m, s.mode(lines[m])))
  }

  /** From the match's place in the joined block to line numbers. */
  function Located(start: nat, block: string, c: Candidate, m: nat, recognized: bool): Block
    requires c.match_.start <= c.match_.end <= |block|
  {
    var opensWithNewline := c.match_.start < c.match_.end && block[c.match_.start] == '\n';
    Block(start + Newlines(block[..c.match_.start]) + (if opensWithNewline then 1 else 0),
          start + Newlines(block[..c.match_.end]), m, recognized, c.masked)
  }

  /** What each line finds as a footer. */
  function FoundBlocks(s: Status, lines: seq<string>): seq<Option<Block>> {
    seq(|lines|, m requires 0 <= m < |lines| => BlockAt(s, lines, m))
  }

  function Somes<T>(found: seq<Option<T>>): seq<T> {
    if found == [] then []
    else
      var n := |found| - 1;
      Somes(found[..n]) + (match found[n] case None => [] case Some(b) => [b])
  }

  function Blocks(s: Status, lines: seq<string>): seq<Block> { Somes(FoundBlocks(s, lines)) }

  lemma InBlock(s: Status, block: string, c: Candidate)
    requires c in BlockCandidates(s, block)
    ensures 0 <= c.match_.start <= c.match_.end <= |block|
    ensures c.masked ==> c.match_ in s.maskedForm(block)
    ensures !c.masked ==> c.match_ in s.semantic(block)
  {
    OrderedIsPairwise(s.semantic(block), 0, |block|);
    OrderedIsPairwise(s.maskedForm(block), 0, |block|);
    CandidatesAre(s.semantic(block), false, c);
    CandidatesAre(s.maskedForm(block), true, c);
  }

  lemma {:induction false} CandidatesAre(ms: seq<Match>, masked: bool, c: Candidate)
    ensures c in Candidates(ms, masked) <==> c.match_ in ms && c.masked == masked
  {
    if ms != [] {
      CandidatesAre(ms[1..], masked, c);
      assert ms == [ms[0]] + ms[1..];
    }
  }

  lemma {:induction false} NewlinesConcat(a: string, b: string)
    ensures Newlines(a + b) == Newlines(a) + Newlines(b)
  {
    if b == [] {
      assert a + b == a;
    } else {
      assert (a + b)[..|a + b| - 1] == a + b[..|b| - 1];
      NewlinesConcat(a, b[..|b| - 1]);
    }
  }

  lemma {:induction false} NewlinesUpTo(s: string, i: nat, j: nat)
    requires i <= j <= |s|
    ensures Newlines(s[..i]) <= Newlines(s[..j])
    ensures i < j && s[i] == '\n' ==> Newlines(s[..i]) < Newlines(s[..j])
    decreases j
  {
    if i < j {
      assert s[..j][..j - 1] == s[..j - 1];
      NewlinesUpTo(s, i, j - 1);
    }
  }

  lemma NewlinesGrow(s: string, i: nat, j: nat)
    requires i <= j <= |s|
    ensures Newlines(s[..i]) <= Newlines(s[..j]) <= Newlines(s)
    ensures i < j && s[i] == '\n' ==> Newlines(s[..i]) < Newlines(s[..j])
  {
    NewlinesUpTo(s, i, j);
    NewlinesUpTo(s, j, |s|);
    assert s[..|s|] == s;
  }

  lemma {:induction false} NoNewlines(s: string)
    requires '\n' !in s
    ensures Newlines(s) == 0
  {
    if s != [] {
      NoNewlines(s[..|s| - 1]);
    }
  }

  lemma {:induction false} NewlinesOfJoin(lines: seq<string>)
    requires NewlineFree(lines)
    ensures Newlines(Join(lines, "\n")) == if lines == [] then 0 else |lines| - 1
  {
    if |lines| == 1 {
      NoNewlines(lines[0]);
    } else if lines != [] {
      var rest := Join(lines[1..], "\n");
      NewlinesOfJoin(lines[1..]);
      NoNewlines(lines[0]);
      NewlinesConcat(lines[0], "\n");
      NewlinesConcat(lines[0] + "\n", rest);
      assert "\n"[..0] == [];
    }
  }

  lemma LocatedInside(start: nat, block: string, c: Candidate, m: nat, recognized: bool)
    requires c.match_.start <= c.match_.end <= |block|
    ensures var b := Located(start, block, c, m, recognized);
            start <= b.first <= b.last <= start + Newlines(block)
  {
    NewlinesGrow(block, c.match_.start, c.match_.end);
  }

  /** Every line the mask splices lies in the block before its footer line, and strictly before the
      footer exactly when that block has a line at all. */
  lemma BlockLiesBeforeMarker(s: Status, lines: seq<string>, m: nat)
    requires NewlineFree(lines) && m < |lines| && BlockAt(s, lines, m).Some?
    ensures var b := BlockAt(s, lines, m).value;
            && b.marker == m
            && BlockStart(lines, m) <= b.first <= b.last <= m
            && (b.last < m <==> BlockStart(lines, m) < m)
  {
    var start := BlockStart(lines, m);
    var block := Join(lines[start..m], "\n");
    var c := Latest(BlockCandidates(s, block));
    InBlock(s, block, c);
    LocatedInside(start, block, c, m, s.mode(lines[m]));
    NewlinesOfJoin(lines[start..m]);
  }

  /** Where line `n` of a joined block begins. */
  function LineStart(lines: seq<string>, n: nat): nat
    requires n <= |lines|
  {
    if n == 0 then 0 else LineStart(lines, n - 1) + |lines[n - 1]| + 1
  }

  /** The line whose characters, its newline included, hold position `p`. */
  predicate HoldsPosition(lines: seq<string>, n: nat, p: nat) {
    n < |lines| && LineStart(lines, n) <= p <= LineStart(lines, n) + |lines[n]|
  }

  lemma {:induction false} LineStartShifts(lines: seq<string>, n: nat)
    requires 0 < n <= |lines|
    ensures LineStart(lines, n) == |lines[0]| + 1 + LineStart(lines[1..], n - 1)
  {
    if n > 1 {
      LineStartShifts(lines, n - 1);
    }
  }

  /** Counting newlines finds the line of a position. */
  lemma {:induction false} NewlinesFindLine(lines: seq<string>, p: nat)
    requires NewlineFree(lines) && lines != [] && p <= |Join(lines, "\n")|
    ensures HoldsPosition(lines, Newlines(Join(lines, "\n")[..p]), p)
    decreases |lines|
  {
    var block := Join(lines, "\n");
    if p <= |lines[0]| {
      assert block[..p] == lines[0][..p];
      NoNewlines(block[..p]);
    } else {
      var rest, q := Join(lines[1..], "\n"), p - |lines[0]| - 1;
      assert block == lines[0] + "\n" + rest;
      assert block[..p] == lines[0] + "\n" + rest[..q];
      NewlinesFindLine(lines[1..], q);
      NoNewlines(lines[0]);
      NewlinesConcat(lines[0], "\n");
      NewlinesConcat(lines[0] + "\n", rest[..q]);
      assert "\n"[..0] == [];
      LineStartShifts(lines, 1 + Newlines(rest[..q]));
    }
  }

  /** A match's start, after a leading newline. */
  function TextStart(block: string, c: Candidate): nat
    requires c.match_.start <= c.match_.end <= |block|
  {
    if c.match_.start < c.match_.end && block[c.match_.start] == '\n' then c.match_.start + 1 else c.match_.start
  }

  /** The lines a block names are those its match touches: from the line that holds the match's start, after
      a leading newline, to the line that holds its end. */
  lemma BlockIsWhatTheMatchTouches(lines: seq<string>, start: nat, c: Candidate, m: nat, recognized: bool)
    requires NewlineFree(lines) && lines != [] && c.match_.start <= c.match_.end <= |Join(lines, "\n")|
    ensures var b := Located(start, Join(lines, "\n"), c, m, recognized);
            && start <= b.first && HoldsPosition(lines, b.first - start, TextStart(Join(lines, "\n"), c))
            && start <= b.last && HoldsPosition(lines, b.last - start, c.match_.end)
            && b.marker == m && b.masked == c.masked && b.recognized == recognized
  {
    var block := Join(lines, "\n");
    var p, q := TextStart(block, c), c.match_.end;
    NewlinesFindLine(lines, p);
    NewlinesFindLine(lines, q);
    var i, j := Newlines(block[..p]), Newlines(block[..q]);
    LinesOfMatch(block, start, c, m, recognized, i, j);
  }

  lemma LinesOfMatch(block: string, start: nat, c: Candidate, m: nat, recognized: bool, i: nat, j: nat)
    requires c.match_.start <= c.match_.end <= |block|
    requires i == Newlines(block[..TextStart(block, c)]) && j == Newlines(block[..c.match_.end])
    ensures Located(start, block, c, m, recognized) == Block(start + i, start + j, m, recognized, c.masked)
  {
    if TextStart(block, c) > c.match_.start {
      OneMoreNewline(block, c.match_.start);
    }
  }

  lemma OneMoreNewline(block: string, i: nat)
    requires i < |block| && block[i] == '\n'
    ensures Newlines(block[..i + 1]) == Newlines(block[..i]) + 1
  {
    assert block[..i + 1][..i] == block[..i];
  }

  lemma {:induction false} SomesAre(found: seq<Option<Block>>, b: Block)
    ensures b in Somes(found) <==> Some(b) in found
  {
    if found != [] {
      SomesAre(found[..|found| - 1], b);
      assert found == found[..|found| - 1] + [found[|found| - 1]];
    }
  }

  /** The blocks are those found before the single lines. */
  lemma BlocksAreExactlyFound(s: Status, lines: seq<string>, b: Block)
    ensures b in Blocks(s, lines) <==> exists m :: 0 <= m < |lines| && BlockAt(s, lines, m) == Some(b)
  {
    SomesAre(FoundBlocks(s, lines), b);
    FoundAre(s, lines, b);
  }

  lemma FoundAre(s: Status, lines: seq<string>, b: Block)
    ensures Some(b) in FoundBlocks(s, lines) <==> exists m :: 0 <= m < |lines| && BlockAt(s, lines, m) == Some(b)
  {
    var found := FoundBlocks(s, lines);
    assert forall m :: 0 <= m < |lines| ==> found[m] == BlockAt(s, lines, m);
  }

  /** A block is found before a line exactly when the line is a footer and the lines above it show an identity
      in the clear or in its redacted form. */
  lemma BlockIsFoundExactly(s: Status, lines: seq<string>, m: nat)
    requires m < |lines|
    ensures BlockAt(s, lines, m).Some? <==>
            s.marker(lines[m])
            && (s.semantic(Join(lines[BlockStart(lines, m)..m], "\n")) != []
                || s.maskedForm(Join(lines[BlockStart(lines, m)..m], "\n")) != [])
  {
  }

  /** The backwards walk from a footer line to the first line of its block. */
  method WalkToStart(lines: seq<string>, m: nat) returns (start: nat)
    requires m <= |lines|
    ensures start == BlockStart(lines, m)
  {
    start := m;
    while start > 0 && !Blank(lines[start - 1])
      invariant start <= m && BlockStart(lines, start) == BlockStart(lines, m)
    {
      start := start - 1;
    }
  }

  /** The block before one line, if the line is a footer. */
  method BlockBefore(s: Status, lines: seq<string>, m: nat) returns (b: Option<Block>)
    requires m < |lines|
    ensures b == BlockAt(s, lines, m)
  {
    if !s.marker(lines[m]) {
      return None;
    }
    var start := WalkToStart(lines, m);
    var block := Join(lines[start..m], "\n");
    var cs := BlockCandidates(s, block);
    if cs == [] {
      return None;
    }
    InBlock(s, block, Latest(cs));
    return Some(Located(start, block, Latest(cs), m, s.mode(lines[m])));
  }

  method KeepFound(found: seq<Option<Block>>) returns (blocks: seq<Block>)
    ensures blocks == Somes(found)
  {
    blocks := [];
    for m := 0 to |found|
      invariant blocks == Somes(found[..m])
    {
      assert found[..m + 1][..m] == found[..m];
      if found[m].Some? {
        blocks := blocks + [found[m].value];
      }
    }
    assert found[..|found|] == found;
  }

  method FindEach(s: Status, lines: seq<string>) returns (found: seq<Option<Block>>)
    ensures |found| == |lines| && forall i :: 0 <= i < |lines| ==> found[i] == BlockAt(s, lines, i)
  {
    found := [];
    for m := 0 to |lines|
      invariant |found| == m && forall i :: 0 <= i < m ==> found[i] == BlockAt(s, lines, i)
    {
      var b := BlockBefore(s, lines, m);
      found := found + [b];
    }
  }

  lemma {:induction false} SameFinds(found: seq<Option<Block>>, other: seq<Option<Block>>)
    requires |found| == |other| && forall i :: 0 <= i < |found| ==> found[i] == other[i]
    ensures Somes(found) == Somes(other)
  {
    if found != [] {
      SameFinds(found[..|found| - 1], other[..|found| - 1]);
    }
  }

  /** The scan of `_blocks` over all lines. */
  method FindBlocks(s: Status, lines: seq<string>) returns (blocks: seq<Block>)
    ensures blocks == Blocks(s, lines)
  {
    var found := FindEach(s, lines);
    SameFinds(found, FoundBlocks(s, lines));
    blocks := KeepFound(found);
  }

  // ---- Redaction --------------------------------------------------------------------------------

  predicate Spliced(b: Block) { b.recognized && !b.masked }

  predicate Covers(b: Block, i: nat) { Spliced(b) && b.first <= i <= b.last }

  predicate IsCovered(blocks: seq<Block>, i: nat) {
    exists k :: 0 <= k < |blocks| && Covers(blocks[k], i)
  }

  /** The lines with the matches to replace in each: those of the identity pattern in a covered line. */
  predicate Selects(marked: seq<MarkedLine>, lines: seq<string>, find: string -> seq<Match>, blocks: seq<Block>) {
    |marked| == |lines|
    && forall i :: 0 <= i < |lines| ==>
         marked[i] == Line(lines[i], if IsCovered(blocks, i) then find(lines[i]) else [])
  }

  function MarkLines(lines: seq<string>, find: Finder, blocks: seq<Block>): (marked: seq<MarkedLine>)
    ensures Selects(marked, lines, find, blocks)
  {
    seq(|lines|, i requires 0 <= i < |lines| => Line(lines[i], if IsCovered(blocks, i) then find(lines[i]) else []))
  }

  lemma {:induction false} JoinedIsConcat(marked: seq<MarkedLine>, lines: seq<string>)
    requires |marked| == |lines| && forall i :: 0 <= i < |lines| ==> marked[i].text == lines[i]
    ensures Joined(marked) == Concat(lines)
    decreases |lines|
  {
    if lines != [] {
      JoinedIsConcat(marked[1..], lines[1..]);
    }
  }

  lemma {:induction false} BeginIsOffset(marked: seq<MarkedLine>, lines: seq<string>, i: nat)
    requires |marked| == |lines| && i <= |lines| && forall k :: 0 <= k < |lines| ==> marked[k].text == lines[k]
    ensures Begin(marked, 0, i) == Offset(lines, i)
  {
    if i > 0 {
      BeginIsOffset(marked, lines, i - 1);
    }
  }

  function IdentityMatches(s: Status, text: string): (marked: seq<MarkedLine>)
    ensures Selects(marked, SplitLines(text), s.identity, Blocks(s, SemanticLines(text)))
  {
    MarkLines(SplitLines(text), s.identity, Blocks(s, SemanticLines(text)))
  }

  function Redacted(s: Status, text: string): string {
    RewrittenAll(IdentityMatches(s, text), s.replacement)
  }

  /** Adds one line's matches to the set, as spans of the whole text. */
  method AddLine(spans: set<Match>, line: string, offset: nat, find: string -> seq<Match>) returns (more: set<Match>)
    ensures forall m :: m in more <==> m in spans || m in Shifted(find(line), offset)
  {
    var ms := find(line);
    more := spans;
    for k := 0 to |ms|
      invariant forall m :: m in more <==> m in spans || m in Shifted(ms, offset)[..k]
    {
      ShiftedAt(ms, offset, k);
      assert Shifted(ms, offset)[..k + 1] == Shifted(ms, offset)[..k] + [Shifted(ms, offset)[k]];
      more := more + {Match(offset + ms[k].start, offset + ms[k].end)};
    }
  }

  method LineOffsets(lines: seq<string>) returns (offsets: seq<nat>)
    ensures |offsets| == |lines| && forall i :: 0 <= i < |lines| ==> offsets[i] == Offset(lines, i)
  {
    offsets := [];
    var offset: nat := 0;
    for i := 0 to |lines|
      invariant |offsets| == i && offset == Offset(lines, i)
      invariant forall k :: 0 <= k < i ==> offsets[k] == Offset(lines, k)
    {
      assert Offset(lines, i + 1) == Offset(lines, i) + |lines[i]|;
      offsets := offsets + [offset];
      offset := offset + |lines[i]|;
    }
  }

  predicate Inside(blocks: seq<Block>, n: nat) {
    forall k :: 0 <= k < |blocks| ==> blocks[k].first <= blocks[k].last < n
  }

  lemma {:induction false} SomesAreInside(found: seq<Option<Block>>)
    requires forall m :: 0 <= m < |found| && found[m].Some? ==> found[m].value.first <= found[m].value.last <= m
    ensures Inside(Somes(found), |found|)
  {
    if found != [] {
      SomesAreInside(found[..|found| - 1]);
    }
  }

  lemma BlocksAreInside(s: Status, lines: seq<string>)
    requires NewlineFree(lines)
    ensures Inside(Blocks(s, lines), |lines|)
  {
    var found := FoundBlocks(s, lines);
    forall m | 0 <= m < |lines| && found[m].Some?
      ensures found[m].value.first <= found[m].value.last <= m
    {
      BlockLiesBeforeMarker(s, lines, m);
    }
    SomesAreInside(found);
  }

  /** `m` is a match of line `i`, as a span of the whole text. */
  predicate FromLine(m: Match, lines: seq<string>, find: string -> seq<Match>, i: nat)
    requires i < |lines|
  {
    m in Shifted(find(lines[i]), Offset(lines, i))
  }

  ghost predicate FromLines(m: Match, lines: seq<string>, find: string -> seq<Match>, first: nat, end: nat)
    requires end <= |lines|
  {
    exists i :: first <= i < end && FromLine(m, lines, find, i)
  }

  ghost predicate FromBlocks(m: Match, lines: seq<string>, find: string -> seq<Match>, blocks: seq<Block>)
    requires Inside(blocks, |lines|)
  {
    exists k :: 0 <= k < |blocks| && Spliced(blocks[k])
             && FromLines(m, lines, find, blocks[k].first, blocks[k].last + 1)
  }

  method AddBlock(spans: set<Match>, lines: seq<string>, offsets: seq<nat>, find: string -> seq<Match>, first: nat,
                  end: nat)
    returns (more: set<Match>)
    requires first <= end <= |lines| == |offsets|
    requires forall i :: 0 <= i < |lines| ==> offsets[i] == Offset(lines, i)
    ensures forall m :: m in more <==> m in spans || FromLines(m, lines, find, first, end)
  {
    more := spans;
    for i := first to end
      invariant forall m :: m in more <==> m in spans || FromLines(m, lines, find, first, i)
    {
      ghost var before := more;
      more := AddLine(more, lines[i], offsets[i], find);
      forall m ensures m in more <==> m in spans || FromLines(m, lines, find, first, i + 1) {
        assert m in more <==> m in before || FromLine(m, lines, find, i);
      }
    }
  }

  lemma SpanIsListed(m: Match, lines: seq<string>, marked: seq<MarkedLine>, find: string -> seq<Match>,
                     blocks: seq<Block>)
    requires Inside(blocks, |lines|) && FromBlocks(m, lines, find, blocks)
    requires Selects(marked, lines, find, blocks)
    ensures m in LineSpans(marked, 0)
  {
    var k :| 0 <= k < |blocks| && Spliced(blocks[k])
          && FromLines(m, lines, find, blocks[k].first, blocks[k].last + 1);
    var i :| blocks[k].first <= i < blocks[k].last + 1 && FromLine(m, lines, find, i);
    assert Covers(blocks[k], i);
    BeginIsOffset(marked, lines, i);
    SpanOfLine(m, marked, 0, i);
  }

  lemma ListedSpanIsFound(m: Match, lines: seq<string>, marked: seq<MarkedLine>, find: string -> seq<Match>,
                          blocks: seq<Block>)
    requires Inside(blocks, |lines|) && Selects(marked, lines, find, blocks)
    requires m in LineSpans(marked, 0)
    ensures FromBlocks(m, lines, find, blocks)
  {
    var i := LineOfSpan(m, marked, 0);
    BeginIsOffset(marked, lines, i);
    assert IsCovered(blocks, i);
    var k :| 0 <= k < |blocks| && Covers(blocks[k], i);
    assert FromLine(m, lines, find, i);
    assert FromLines(m, lines, find, blocks[k].first, blocks[k].last + 1);
  }

  /** The collected set is exactly the matches of the covered lines. */
  lemma CollectedSpans(lines: seq<string>, marked: seq<MarkedLine>, find: string -> seq<Match>, blocks: seq<Block>,
                       spans: set<Match>)
    requires Inside(blocks, |lines|) && Selects(marked, lines, find, blocks)
    requires forall m :: m in spans <==> FromBlocks(m, lines, find, blocks)
    ensures SameSpans(spans, LineSpans(marked, 0))
  {
    forall m ensures m in spans <==> m in LineSpans(marked, 0) {
      if m in spans {
        SpanIsListed(m, lines, marked, find, blocks);
      }
      if m in LineSpans(marked, 0) {
        ListedSpanIsFound(m, lines, marked, find, blocks);
      }
    }
  }

  /** The collecting loops of `redact`. */
  method Collect(lines: seq<string>, find: string -> seq<Match>, blocks: seq<Block>) returns (spans: set<Match>)
    requires Inside(blocks, |lines|)
    ensures forall m :: m in spans <==> FromBlocks(m, lines, find, blocks)
  {
    var offsets := LineOffsets(lines);
    spans := {};
    for k := 0 to |blocks|
      invariant Inside(blocks[..k], |lines|)
      invariant forall m :: m in spans <==> FromBlocks(m, lines, find, blocks[..k])
    {
      ghost var before := spans;
      if Spliced(blocks[k]) {
        spans := AddBlock(spans, lines, offsets, find, blocks[k].first, blocks[k].last + 1);
      }
      OneMoreBlock(before, spans, lines, find, blocks[..k], blocks[k]);
      assert blocks[..k + 1] == blocks[..k] + [blocks[k]];
    }
    assert blocks[..|blocks|] == blocks;
  }

  /** `redact`: collect a set of spans, then splice it from the right. The result is the simultaneous
      replacement of the identity matches in all covered lines, and the count is their number. */
  method Redact(s: Status, text: string) returns (out: string, count: nat)
    ensures out == Redacted(s, text)
    ensures count == |LineSpans(IdentityMatches(s, text), 0)|
  {
    var lines, semantic := SplitLines(text), SemanticLines(text);
    var blocks := FindBlocks(s, semantic);
    SemanticLinesHaveNoNewline(text);
    BlocksAreInside(s, semantic);
    out, count := RedactLines(text, lines, s.identity, blocks, s.replacement, IdentityMatches(s, text));
  }

  method RedactLines(text: string, lines: seq<string>, find: string -> seq<Match>, blocks: seq<Block>,
                     replacement: string, ghost marked: seq<MarkedLine>)
    returns (out: string, count: nat)
    requires text == Concat(lines) && Inside(blocks, |lines|) && Selects(marked, lines, find, blocks)
    ensures out == RewrittenAll(marked, replacement) && count == |LineSpans(marked, 0)|
  {
    var spans := Collect(lines, find, blocks);
    CollectedSpans(lines, marked, find, blocks, spans);
    JoinedIsConcat(marked, lines);
    count := |spans|;
    out := SpliceLines(text, marked, spans, replacement);
  }

  lemma OneMoreBlock(before: set<Match>, after: set<Match>, lines: seq<string>, find: string -> seq<Match>,
                     blocks: seq<Block>, b: Block)
    requires Inside(blocks, |lines|) && b.first <= b.last < |lines|
    requires forall m :: m in before <==> FromBlocks(m, lines, find, blocks)
    requires forall m :: m in after <==> m in before || (Spliced(b) && FromLines(m, lines, find, b.first, b.last + 1))
    ensures Inside(blocks + [b], |lines|)
    ensures forall m :: m in after <==> FromBlocks(m, lines, find, blocks + [b])
  {
    var more := blocks + [b];
    assert forall k :: 0 <= k < |blocks| ==> more[k] == blocks[k];
    assert more[|blocks|] == b;
    forall m ensures m in after <==> FromBlocks(m, lines, find, more) {
      if FromBlocks(m, lines, find, more) {
        var k :| 0 <= k < |more| && Spliced(more[k]) && FromLines(m, lines, find, more[k].first, more[k].last + 1);
        if k < |blocks| {
          assert FromBlocks(m, lines, find, blocks);
        }
      }
      if m in before {
        var k :| 0 <= k < |blocks| && Spliced(blocks[k])
              && FromLines(m, lines, find, blocks[k].first, blocks[k].last + 1);
        assert more[k] == blocks[k];
      }
    }
  }

  /** The matches to replace are those of a line that some recognised block with an identity in the clear
      takes in; a line outside all of these is left alone. */
  lemma ReplacedWhereNamed(s: Status, text: string, i: nat)
    requires i < |SplitLines(text)|
    ensures var line := SplitLines(text)[i];
            IdentityMatches(s, text)[i]
              == Line(line,
                      if exists b :: b in Blocks(s, SemanticLines(text)) && b.recognized && !b.masked
                                     && b.first <= i <= b.last
                      then s.identity(line) else [])
  {
    var blocks := Blocks(s, SemanticLines(text));
    if IsCovered(blocks, i) {
      var k :| 0 <= k < |blocks| && Covers(blocks[k], i);
      assert blocks[k] in blocks;
    } else {
      forall b | b in blocks ensures !Covers(b, i) {
        var k :| 0 <= k < |blocks| && blocks[k] == b;
      }
    }
  }

  /** A redacted text is every covered line rewritten on its own and every other line untouched, exactly
      when no empty match is shared by two adjacent lines or the replacement is empty. */
  lemma RedactionIsPerLine(s: Status, text: string)
    ensures var marked := IdentityMatches(s, text);
            && (Redacted(s, text) == LineWise(marked, s.replacement) <==> Lost(marked, 0, s.replacement) == 0)
            && (NoEmptyMatches(marked) ==> Redacted(s, text) == LineWise(marked, s.replacement))
  {
    var marked := IdentityMatches(s, text);
    RewrittenLineByLine(marked, s.replacement);
    if NoEmptyMatches(marked) {
      NoEmptyMatchNothingLost(marked, 0, s.replacement);
    }
  }

  predicate HasUnredacted(s: Status, text: string) {
    exists b :: b in Blocks(s, SemanticLines(text)) && !b.masked
  }

  function MatchCount(s: Status, text: string): nat {
    |LineSpans(IdentityMatches(s, text), 0)|
  }

  /** The dashboard mask as its contract sees it. */
  function AsStatusMask(s: Status): RedactionContracts.StatusMask {
    RedactionContracts.StatusMask(s.name, text => (Redacted(s, text), MatchCount(s, text)),
                                  text => HasUnredacted(s, text),
                                  s.minimum)
  }

  /** In a text without residual failures every footer's nearest identity is in its redacted form. */
  lemma PublishedDashboardsAreMasked(s: Status, text: string, c: RedactionContracts.Contract)
    requires AsStatusMask(s) in c.statuses && RedactionContracts.Residual(text, c) == []
    ensures forall b :: b in Blocks(s, SemanticLines(text)) ==> b.masked
  {
    RedactionContracts.ResidualNamesIdentities(text, c);
    assert !AsStatusMask(s).unredacted(text);
  }
}
