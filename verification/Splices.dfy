/** Replacing matched spans of a text. A regular expression is a function from a text to the matches
    `finditer` would yield; replacing from the right, one span at a time, is compared with replacing
    all spans at once. */
module Splices {
  import opened Text

  datatype Match = Match(start: nat, end: nat)

  /** What `finditer` yields: in range, left to right, disjoint, and no match twice. Empty matches are
      allowed, also one directly before a non-empty match. */
  predicate Ordered(ms: seq<Match>, lo: nat, hi: nat)
    decreases |ms|
  {
    && lo <= hi
    && (ms != [] ==>
          && lo <= ms[0].start <= ms[0].end <= hi
          && (|ms| > 1 ==> ms[1] != ms[0])
          && Ordered(ms[1..], ms[0].end, hi))
  }

  /** The same, stated of every pair. */
  predicate Pairwise(ms: seq<Match>, lo: nat, hi: nat) {
    && lo <= hi
    && (forall i :: 0 <= i < |ms| ==> lo <= ms[i].start <= ms[i].end <= hi)
    && (forall i, j :: 0 <= i < j < |ms| ==> ms[i].end <= ms[j].start && ms[i] != ms[j])
  }

  lemma {:induction false} OrderedIsPairwise(ms: seq<Match>, lo: nat, hi: nat)
    ensures Ordered(ms, lo, hi) <==> Pairwise(ms, lo, hi)
    decreases |ms|
  {
    if ms != [] {
      OrderedIsPairwise(ms[1..], ms[0].end, hi);
      if Ordered(ms, lo, hi) {
        PairwiseCons(ms, lo, hi);
      }
      if Pairwise(ms, lo, hi) {
        assert Pairwise(ms[1..], ms[0].end, hi);
      }
    }
  }

  lemma PairwiseCons(ms: seq<Match>, lo: nat, hi: nat)
    requires ms != [] && lo <= ms[0].start <= ms[0].end <= hi && (|ms| > 1 ==> ms[1] != ms[0])
    requires Pairwise(ms[1..], ms[0].end, hi)
    ensures Pairwise(ms, lo, hi)
  {
    assert forall i :: 1 <= i < |ms| ==> ms[i] == ms[1..][i - 1];
    forall j | 1 <= j < |ms| ensures ms[0] != ms[j] {
      if j > 1 {
        assert ms[1].end <= ms[j].start;
      }
    }
  }

  type Finder = f: string -> seq<Match> | forall s :: Ordered(f(s), 0, |s|) witness (s => [])

  /** Python's order on pairs. */
  predicate Before(a: Match, b: Match) {
    a.start < b.start || (a.start == b.start && a.end < b.end)
  }

  lemma {:induction false} SuffixOrdered(ms: seq<Match>, n: nat, lo: nat, hi: nat)
    requires n <= |ms| && Ordered(ms, lo, hi)
    ensures Ordered(ms[n..], if n == 0 then lo else ms[n - 1].end, hi)
    decreases n
  {
    if n == 0 {
      assert ms[0..] == ms;
    } else {
      SuffixOrdered(ms[1..], n - 1, ms[0].end, hi);
      assert ms[n..] == ms[1..][n - 1..];
    }
  }

  function Shifted(ms: seq<Match>, offset: nat): (r: seq<Match>)
    ensures |r| == |ms|
  {
    if ms == [] then [] else [Match(offset + ms[0].start, offset + ms[0].end)] + Shifted(ms[1..], offset)
  }

  lemma {:induction false} ShiftedAt(ms: seq<Match>, offset: nat, k: nat)
    requires k < |ms|
    ensures Shifted(ms, offset)[k] == Match(offset + ms[k].start, offset + ms[k].end)
  {
    if k > 0 {
      ShiftedAt(ms[1..], offset, k - 1);
    }
  }

  /** `text[i..j]`, empty when the bounds are not in order. */
  function Cut(text: string, i: nat, j: nat): string {
    if i <= j <= |text| then text[i..j] else []
  }

  /** `text[at..]` with all of `ms` replaced at once. */
  function Rewritten(text: string, at: nat, ms: seq<Match>, replacement: string): string
    decreases |ms|, 0
  {
    if ms == [] then Cut(text, at, |text|) else Spliced(text, at, ms[0], ms[1..], replacement)
  }

  function Spliced(text: string, at: nat, m: Match, rest: seq<Match>, replacement: string): string
    decreases |rest|, 1
  {
    Cut(text, at, m.start) + replacement + Rewritten(text, m.end, rest, replacement)
  }

  lemma RewriteCons(text: string, at: nat, i: nat, j: nat, ms: seq<Match>, replacement: string)
    ensures Rewritten(text, at, [Match(i, j)] + ms, replacement)
         == Cut(text, at, i) + replacement + Rewritten(text, j, ms, replacement)
  {
    assert ([Match(i, j)] + ms)[1..] == ms;
  }

  lemma CutJoins(text: string, i: nat, j: nat, k: nat)
    requires i <= j <= k <= |text|
    ensures Cut(text, i, k) == Cut(text, i, j) + Cut(text, j, k)
  {
  }

  ghost predicate SameSpans(spans: set<Match>, ms: seq<Match>) {
    forall m :: m in spans <==> m in ms
  }

  predicate Greatest(m: Match, spans: set<Match>) {
    m in spans && forall k :: k in spans && k != m ==> Before(k, m)
  }

  /** Where the last span ends. */
  function LastEnd(ms: seq<Match>): nat { if ms == [] then 0 else ms[|ms| - 1].end }

  /** The state of the splice loop: the spans `left` are the pending ones, those of `done` are replaced. */
  ghost predicate Splicing(text: string, replacement: string, left: set<Match>, todo: seq<Match>, done: seq<Match>,
                           out: string) {
    && SameSpans(left, todo) && |left| == |todo| && Ordered(todo + done, 0, |text|)
    && Ordered(done, LastEnd(todo), |text|)
    && out == text[..LastEnd(todo)] + Rewritten(text, LastEnd(todo), done, replacement)
  }

  lemma SpliceOnce(text: string, replacement: string, left: set<Match>, todo: seq<Match>, done: seq<Match>,
                   out: string, span: Match)
    requires Splicing(text, replacement, left, todo, done, out) && Greatest(span, left)
    ensures todo != [] && span.start <= span.end <= |out|
    ensures todo[..|todo| - 1] + ([span] + done) == todo + done
    ensures Splicing(text, replacement, left - {span}, todo[..|todo| - 1], [span] + done,
                     out[..span.start] + replacement + out[span.end..])
  {
    GreatestIsLast(left, todo, done, |text|);
    MoveLast(todo, done, |text|);
    StepBack(text, LastEnd(todo[..|todo| - 1]), span, done, replacement, out);
  }

  /** The splice loop over `sorted(spans, reverse=True)`. `all` lists the same spans left to right. */
  method SpliceBackwards(text: string, spans: set<Match>, replacement: string, ghost all: seq<Match>)
    returns (out: string)
    requires Ordered(all, 0, |text|) && SameSpans(spans, all)
    ensures out == Rewritten(text, 0, all, replacement)
  {
    out := text;
    var left := spans;
    ghost var todo, done: seq<Match> := all, [];
    NothingSpliced(text, replacement, spans, all);
    while left != {}
      invariant all == todo + done && Splicing(text, replacement, left, todo, done, out)
      decreases |left|
    {
      GreatestIsLast(left, todo, done, |text|);
      var span :| Greatest(span, left);
      SpliceOnce(text, replacement, left, todo, done, out, span);
      out := out[..span.start] + replacement + out[span.end..];
      left := left - {span};
      todo, done := todo[..|todo| - 1], [span] + done;
    }
    assert done == all && text[..0] == [];
  }

  lemma NothingSpliced(text: string, replacement: string, spans: set<Match>, all: seq<Match>)
    requires Ordered(all, 0, |text|) && SameSpans(spans, all)
    ensures all == all + [] && Splicing(text, replacement, spans, all, [], text)
  {
    SuffixOrdered(all, |all|, 0, |text|);
    SameSpansSameSize(spans, all, 0, |text|);
    assert all + [] == all;
    assert text == text[..LastEnd(all)] + text[LastEnd(all)..];
  }

  /** The greatest remaining span is the last one in text order. */
  lemma GreatestIsLast(left: set<Match>, todo: seq<Match>, done: seq<Match>, size: nat)
    requires left != {} && SameSpans(left, todo) && Ordered(todo + done, 0, size)
    ensures todo != []
    ensures var last := todo[|todo| - 1];
            && Greatest(last, left)
            && (forall m :: Greatest(m, left) ==> m == last)
            && SameSpans(left - {last}, todo[..|todo| - 1])
  {
    assert todo != [] by {
      var m :| m in left;
      assert m in todo;
    }
    var n, all := |todo|, todo + done;
    var last := todo[n - 1];
    OrderedIsPairwise(all, 0, size);
    assert forall i :: 0 <= i < n ==> all[i] == todo[i];
    assert Greatest(last, left);
    forall m ensures m in left - {last} <==> m in todo[..n - 1] {
      if m in left - {last} {
        var i :| 0 <= i < n && todo[i] == m;
        assert todo[..n - 1][i] == m;
      }
    }
  }

  /** Moving the last pending span to the done ones keeps the done ones after all pending ones. */
  lemma MoveLast(todo: seq<Match>, done: seq<Match>, size: nat)
    requires todo != [] && Ordered(todo + done, 0, size)
    ensures var n := |todo|;
            && todo + done == todo[..n - 1] + ([todo[n - 1]] + done)
            && Ordered([todo[n - 1]] + done, if n == 1 then 0 else todo[n - 2].end, size)
  {
    var n, all := |todo|, todo + done;
    var init, last := todo[..n - 1], [todo[n - 1]];
    assert todo == init + last;
    Assoc(init, last, done);
    SuffixOrdered(all, n - 1, 0, size);
    Tail(init, last + done);
    assert n > 1 ==> all[n - 2] == todo[n - 2];
  }

  lemma Tail<T>(a: seq<T>, b: seq<T>)
    ensures (a + b)[|a|..] == b
  {
  }

  /** One splice at `m`, when all the later spans are done. */
  lemma StepBack(text: string, before: nat, m: Match, ms: seq<Match>, replacement: string, out: string)
    requires before <= m.start <= m.end <= |text|
    requires out == text[..m.end] + Rewritten(text, m.end, ms, replacement)
    ensures out[..m.start] + replacement + out[m.end..]
            == text[..before] + Rewritten(text, before, [m] + ms, replacement)
  {
    var rest := Rewritten(text, m.end, ms, replacement);
    assert out[..m.start] == text[..before] + Cut(text, before, m.start);
    assert out[m.end..] == rest;
    RewriteCons(text, before, m.start, m.end, ms, replacement);
    Assoc(text[..before], Cut(text, before, m.start), replacement + rest);
    Assoc(text[..before] + Cut(text, before, m.start), replacement, rest);
    Assoc(Cut(text, before, m.start), replacement, rest);
  }

  // ---- Matches of single lines ------------------------------------------------------------------

  /** An empty match ends one list and opens the next. */
  predicate Clash(a: seq<Match>, b: seq<Match>) {
    a != [] && b != [] && a[|a| - 1] == b[0]
  }

  /** Two lists into one, without repeating a shared match. */
  function Merged(a: seq<Match>, b: seq<Match>): seq<Match> {
    if Clash(a, b) then a + b[1..] else a + b
  }

  lemma {:induction false} MergedOrdered(a: seq<Match>, b: seq<Match>, lo: nat, mid: nat, hi: nat)
    requires Ordered(a, lo, mid) && Ordered(b, mid, hi)
    ensures Ordered(Merged(a, b), lo, hi)
    decreases |a|
  {
    if a == [] {
      assert a + b == b;
    } else if |a| == 1 {
      if b != [] && a[0] == b[0] {
        assert a + b[1..] == b;
      } else {
        assert (a + b)[1..] == b;
      }
    } else {
      MergedOrdered(a[1..], b, a[0].end, mid, hi);
      assert Merged(a, b) == [a[0]] + Merged(a[1..], b);
      assert Merged(a[1..], b)[0] == a[1];
    }
  }

  lemma MergedMembers(a: seq<Match>, b: seq<Match>, m: Match)
    ensures m in Merged(a, b) <==> m in a || m in b
  {
    assert b != [] ==> b == [b[0]] + b[1..];
    if a != [] {
      assert a[|a| - 1] in a;
    }
  }

  /** A line with the matches found in it. */
  datatype Line = Line(text: string, ms: seq<Match>)

  type MarkedLine = l: Line | Ordered(l.ms, 0, |l.text|) witness Line([], [])

  function Joined(lines: seq<MarkedLine>): string {
    if lines == [] then [] else lines[0].text + Joined(lines[1..])
  }

  /** The matches of all lines as spans of the text that continues at `offset` with these lines. */
  function LineSpans(lines: seq<MarkedLine>, offset: nat): seq<Match>
    decreases |lines|
  {
    if lines == [] then []
    else Merged(Shifted(lines[0].ms, offset), LineSpans(lines[1..], offset + |lines[0].text|))
  }

  lemma {:induction false} ShiftedOrdered(ms: seq<Match>, lo: nat, hi: nat, offset: nat)
    requires Ordered(ms, lo, hi)
    ensures Ordered(Shifted(ms, offset), offset + lo, offset + hi)
    decreases |ms|
  {
    if ms != [] {
      ShiftedOrdered(ms[1..], ms[0].end, hi, offset);
      assert Shifted(ms, offset)[1..] == Shifted(ms[1..], offset);
    }
  }

  lemma {:induction false} LineSpansOrdered(lines: seq<MarkedLine>, offset: nat)
    ensures Ordered(LineSpans(lines, offset), offset, offset + |Joined(lines)|)
    decreases |lines|
  {
    if lines != [] {
      var line, rest := lines[0], lines[1..];
      var mid := offset + |line.text|;
      LineSpansOrdered(rest, mid);
      ShiftedOrdered(line.ms, 0, |line.text|, offset);
      MergedOrdered(Shifted(line.ms, offset), LineSpans(rest, mid), offset, mid, offset + |Joined(lines)|);
    }
  }

  /** No match left in the line: copy up to its end, then go on. */
  lemma CopyThenRest(text: string, at: nat, mid: nat, copied: string, rest: seq<Match>, replacement: string)
    requires at <= mid && Ordered(rest, mid, |text|) && copied == Cut(text, at, mid)
    ensures Rewritten(text, at, rest, replacement) == copied + Rewritten(text, mid, rest, replacement)
  {
    if rest == [] {
      CutJoins(text, at, mid, |text|);
    } else {
      CutJoins(text, at, mid, rest[0].start);
      var head, tail := Cut(text, mid, rest[0].start), Rewritten(text, rest[0].end, rest[1..], replacement);
      Assoc(copied, head, replacement);
      Assoc(copied, head + replacement, tail);
    }
  }

  /** `line` stands in `text` at position `o`. */
  predicate LineAt(text: string, o: nat, line: string) {
    o + |line| <= |text| && forall k :: 0 <= k < |line| ==> text[o + k] == line[k]
  }

  lemma CutInside(text: string, o: nat, line: string, i: nat, j: nat)
    requires LineAt(text, o, line) && i <= j <= |line|
    ensures Cut(text, o + i, o + j) == Cut(line, i, j)
  {
  }

  lemma ShiftedCons(i: nat, j: nat, ms: seq<Match>, o: nat, rest: seq<Match>)
    ensures Shifted([Match(i, j)] + ms, o) + rest == [Match(o + i, o + j)] + (Shifted(ms, o) + rest)
  {
    assert ([Match(i, j)] + ms)[1..] == ms;
    Assoc([Match(o + i, o + j)], Shifted(ms, o), rest);
  }

  /** One replacement, seen in the line and in the whole text. */
  lemma OneReplacement(whole: string, own: string, head: string, head2: string, replacement: string, below: string,
                       after: string, tail: string)
    requires head == head2
    requires whole == head + replacement + tail && own == head2 + replacement + below
    requires tail == below + after
    ensures whole == own + after
  {
    Assoc(head + replacement, below, after);
  }

  /** Rewriting inside one line, then going on after it. */
  lemma {:induction false} LineThenRest(text: string, o: nat, line: string, at: nat, ms: seq<Match>,
                                        rest: seq<Match>, replacement: string)
    requires LineAt(text, o, line) && Ordered(ms, at, |line|) && Ordered(rest, o + |line|, |text|)
    ensures Rewritten(text, o + at, Shifted(ms, o) + rest, replacement)
         == Rewritten(line, at, ms, replacement) + Rewritten(text, o + |line|, rest, replacement)
    decreases |ms|
  {
    if ms == [] {
      assert Shifted(ms, o) + rest == rest;
      NoMatchThenRest(text, o, line, at, rest, replacement);
    } else {
      var i, j, below := ms[0].start, ms[0].end, ms[1..];
      assert ms == [Match(i, j)] + below;
      LineThenRest(text, o, line, j, below, rest, replacement);
      ConsThenRest(text, o, line, at, i, j, below, rest, replacement);
    }
  }

  lemma ConsThenRest(text: string, o: nat, line: string, at: nat, i: nat, j: nat, ms: seq<Match>, rest: seq<Match>,
                     replacement: string)
    requires LineAt(text, o, line) && at <= i <= j <= |line|
    requires Rewritten(text, o + j, Shifted(ms, o) + rest, replacement)
          == Rewritten(line, j, ms, replacement) + Rewritten(text, o + |line|, rest, replacement)
    ensures Rewritten(text, o + at, Shifted([Match(i, j)] + ms, o) + rest, replacement)
         == Rewritten(line, at, [Match(i, j)] + ms, replacement) + Rewritten(text, o + |line|, rest, replacement)
  {
    ShiftedCons(i, j, ms, o, rest);
    MatchThenRest(text, o, line, at, i, j, ms, Shifted(ms, o) + rest, Rewritten(text, o + |line|, rest, replacement),
                  replacement);
  }

  lemma NoMatchThenRest(text: string, o: nat, line: string, at: nat, rest: seq<Match>, replacement: string)
    requires LineAt(text, o, line) && at <= |line| && Ordered(rest, o + |line|, |text|)
    ensures Rewritten(text, o + at, rest, replacement)
         == Cut(line, at, |line|) + Rewritten(text, o + |line|, rest, replacement)
  {
    LineIsCut(text, o, line, at);
    CopyThenRest(text, o + at, o + |line|, Cut(line, at, |line|), rest, replacement);
  }

  lemma LineIsCut(text: string, o: nat, line: string, at: nat)
    requires LineAt(text, o, line) && at <= |line|
    ensures Cut(text, o + at, o + |line|) == Cut(line, at, |line|)
  {
    CutInside(text, o, line, at, |line|);
  }

  lemma MatchThenRest(text: string, o: nat, line: string, at: nat, i: nat, j: nat, ms: seq<Match>, all: seq<Match>,
                      after: string, replacement: string)
    requires LineAt(text, o, line) && at <= i <= j <= |line|
    requires Rewritten(text, o + j, all, replacement) == Rewritten(line, j, ms, replacement) + after
    ensures Rewritten(text, o + at, [Match(o + i, o + j)] + all, replacement)
         == Rewritten(line, at, [Match(i, j)] + ms, replacement) + after
  {
    RewriteCons(text, o + at, o + i, o + j, all, replacement);
    RewriteCons(line, at, i, j, ms, replacement);
    CutInside(text, o, line, at, i);
    OneReplacement(Rewritten(text, o + at, [Match(o + i, o + j)] + all, replacement),
                   Rewritten(line, at, [Match(i, j)] + ms, replacement), Cut(text, o + at, o + i), Cut(line, at, i),
                   replacement, Rewritten(line, j, ms, replacement), after, Rewritten(text, o + j, all, replacement));
  }

  /** Each line rewritten on its own. */
  function LineWise(lines: seq<MarkedLine>, replacement: string): string {
    if lines == [] then []
    else Rewritten(lines[0].text, 0, lines[0].ms, replacement) + LineWise(lines[1..], replacement)
  }

  /** How many characters the set of spans loses against the line-wise rewriting: an empty match at the
      end of one line and one at the start of the next are the same span. */
  function Lost(lines: seq<MarkedLine>, offset: nat, replacement: string): nat
    decreases |lines|
  {
    if lines == [] then 0
    else
      var next := offset + |lines[0].text|;
      (if Clash(Shifted(lines[0].ms, offset), LineSpans(lines[1..], next)) then |replacement| else 0)
      + Lost(lines[1..], next, replacement)
  }

  lemma ClashIsEmpty(ms: seq<Match>, size: nat, o: nat, rest: seq<Match>, hi: nat)
    requires Ordered(ms, 0, size) && Ordered(rest, o + size, hi) && Clash(Shifted(ms, o), rest)
    ensures rest[0] == Match(o + size, o + size)
  {
    SuffixOrdered(ms, |ms|, 0, size);
    ShiftedAt(ms, o, |ms| - 1);
  }

  lemma EmptyMatchInFront(text: string, at: nat, ms: seq<Match>, replacement: string)
    requires at <= |text|
    ensures Rewritten(text, at, [Match(at, at)] + ms, replacement) == replacement + Rewritten(text, at, ms, replacement)
  {
    RewriteCons(text, at, at, at, ms, replacement);
    assert Cut(text, at, at) + replacement == replacement;
  }

  lemma WholeLine(text: string, o: nat, line: string, ms: seq<Match>, rest: seq<Match>, replacement: string)
    requires LineAt(text, o, line) && Ordered(ms, 0, |line|) && Ordered(rest, o + |line|, |text|)
    ensures Rewritten(text, o, Shifted(ms, o) + rest, replacement)
         == Rewritten(line, 0, ms, replacement) + Rewritten(text, o + |line|, rest, replacement)
    ensures |Rewritten(text, o, Shifted(ms, o) + rest, replacement)|
         == |Rewritten(line, 0, ms, replacement)| + |Rewritten(text, o + |line|, rest, replacement)|
  {
    LineThenRest(text, o, line, 0, ms, rest, replacement);
  }

  lemma EmptyMatchCounts(text: string, at: nat, ms: seq<Match>, replacement: string)
    requires at <= |text|
    ensures |Rewritten(text, at, [Match(at, at)] + ms, replacement)|
            == |replacement| + |Rewritten(text, at, ms, replacement)|
  {
    EmptyMatchInFront(text, at, ms, replacement);
  }

  lemma EmptyMatchVanishes(text: string, at: nat, ms: seq<Match>)
    requires at <= |text|
    ensures Rewritten(text, at, [Match(at, at)] + ms, []) == Rewritten(text, at, ms, [])
  {
    EmptyMatchInFront(text, at, ms, []);
    assert [] + Rewritten(text, at, ms, []) == Rewritten(text, at, ms, []);
  }

  lemma ClashCounts(text: string, o: nat, line: string, ms: seq<Match>, tail: seq<Match>, replacement: string)
    requires LineAt(text, o, line) && Ordered(ms, 0, |line|) && Ordered(tail, o + |line|, |text|)
    ensures |Rewritten(text, o, Shifted(ms, o) + tail, replacement)| + |replacement|
         == |Rewritten(line, 0, ms, replacement)|
            + |Rewritten(text, o + |line|, [Match(o + |line|, o + |line|)] + tail, replacement)|
  {
    EmptyMatchCounts(text, o + |line|, tail, replacement);
    WholeLine(text, o, line, ms, tail, replacement);
  }

  lemma ClashVanishes(text: string, o: nat, line: string, ms: seq<Match>, tail: seq<Match>)
    requires LineAt(text, o, line) && Ordered(ms, 0, |line|) && Ordered(tail, o + |line|, |text|)
    ensures Rewritten(text, o, Shifted(ms, o) + tail, [])
         == Rewritten(line, 0, ms, []) + Rewritten(text, o + |line|, [Match(o + |line|, o + |line|)] + tail, [])
  {
    EmptyMatchVanishes(text, o + |line|, tail);
    WholeLine(text, o, line, ms, tail, []);
  }

  lemma ClashCostsOne(text: string, o: nat, line: string, ms: seq<Match>, rest: seq<Match>, replacement: string)
    requires LineAt(text, o, line) && Ordered(ms, 0, |line|) && Ordered(rest, o + |line|, |text|)
    requires Clash(Shifted(ms, o), rest)
    ensures |Rewritten(text, o, Shifted(ms, o) + rest[1..], replacement)| + |replacement|
         == |Rewritten(line, 0, ms, replacement)| + |Rewritten(text, o + |line|, rest, replacement)|
    ensures replacement == [] ==>
              Rewritten(text, o, Shifted(ms, o) + rest[1..], replacement)
              == Rewritten(line, 0, ms, replacement) + Rewritten(text, o + |line|, rest, replacement)
  {
    var p, tail := o + |line|, rest[1..];
    ClashIsEmpty(ms, |line|, o, rest, |text|);
    assert rest == [Match(p, p)] + tail;
    ClashCounts(text, o, line, ms, tail, replacement);
    if replacement == [] {
      ClashVanishes(text, o, line, ms, tail);
    }
  }

  /** `r` is `wise` without `lost` of its characters, and all of it when none are lost. */
  predicate ShortBy(r: string, lost: nat, wise: string) {
    |r| + lost == |wise| && (lost == 0 ==> r == wise)
  }

  lemma LineStep(text: string, o: nat, line: string, ms: seq<Match>, rest: seq<Match>, replacement: string, lost: nat,
                 below: string)
    requires LineAt(text, o, line) && Ordered(ms, 0, |line|) && Ordered(rest, o + |line|, |text|)
    requires ShortBy(Rewritten(text, o + |line|, rest, replacement), lost, below)
    ensures ShortBy(Rewritten(text, o, Merged(Shifted(ms, o), rest), replacement),
                    (if Clash(Shifted(ms, o), rest) then |replacement| else 0) + lost,
                    Rewritten(line, 0, ms, replacement) + below)
  {
    if Clash(Shifted(ms, o), rest) {
      ClashCostsOne(text, o, line, ms, rest, replacement);
    } else {
      WholeLine(text, o, line, ms, rest, replacement);
    }
  }

  /** Replacing the set of spans and rewriting line by line give the same text exactly when no two
      spans coincide at a line boundary, or the replacement is empty; the difference is counted. */
  lemma {:induction false} SetVersusLines(text: string, o: nat, lines: seq<MarkedLine>, replacement: string)
    requires o + |Joined(lines)| == |text| && LineAt(text, o, Joined(lines))
    ensures ShortBy(Rewritten(text, o, LineSpans(lines, o), replacement), Lost(lines, o, replacement),
                    LineWise(lines, replacement))
    decreases |lines|, 0
  {
    if lines != [] {
      var line, below := lines[0], lines[1..];
      LinesHead(lines, o, replacement);
      NextLine(text, o, line.text, Joined(below));
      FirstVersusBelow(text, o, line, below, replacement);
    }
  }

  lemma LinesHead(lines: seq<MarkedLine>, o: nat, replacement: string)
    requires lines != []
    ensures var line, below := lines[0], lines[1..];
            && Joined(lines) == line.text + Joined(below)
            && LineSpans(lines, o) == Merged(Shifted(line.ms, o), LineSpans(below, o + |line.text|))
            && LineWise(lines, replacement)
               == Rewritten(line.text, 0, line.ms, replacement) + LineWise(below, replacement)
            && Lost(lines, o, replacement)
               == (if Clash(Shifted(line.ms, o), LineSpans(below, o + |line.text|)) then |replacement| else 0)
                  + Lost(below, o + |line.text|, replacement)
  {
  }

  lemma {:induction false} FirstVersusBelow(text: string, o: nat, line: MarkedLine, below: seq<MarkedLine>,
                                            replacement: string)
    requires LineAt(text, o, line.text) && LineAt(text, o + |line.text|, Joined(below))
    requires o + |line.text| + |Joined(below)| == |text|
    ensures ShortBy(Rewritten(text, o, Merged(Shifted(line.ms, o), LineSpans(below, o + |line.text|)), replacement),
                    (if Clash(Shifted(line.ms, o), LineSpans(below, o + |line.text|)) then |replacement| else 0)
                      + Lost(below, o + |line.text|, replacement),
                    Rewritten(line.text, 0, line.ms, replacement) + LineWise(below, replacement))
    decreases |below|, 1
  {
    var next := o + |line.text|;
    LineSpansOrdered(below, next);
    SetVersusLines(text, next, below, replacement);
    LineStep(text, o, line.text, line.ms, LineSpans(below, next), replacement, Lost(below, next, replacement),
             LineWise(below, replacement));
  }

  lemma NextLine(text: string, o: nat, line: string, below: string)
    requires LineAt(text, o, line + below)
    ensures LineAt(text, o, line) && LineAt(text, o + |line|, below)
  {
    var all := line + below;
    assert forall k :: 0 <= k < |line| ==> line[k] == all[k];
    forall k | 0 <= k < |below| ensures text[o + |line| + k] == below[k] {
      assert all[|line| + k] == below[k];
    }
  }

  predicate NoEmptyMatch(ms: seq<Match>) {
    forall k :: 0 <= k < |ms| ==> ms[k].start < ms[k].end
  }

  lemma NoEmptyMatchNoClash(line: MarkedLine, o: nat, rest: seq<Match>, hi: nat)
    requires NoEmptyMatch(line.ms) && Ordered(rest, o + |line.text|, hi)
    ensures !Clash(Shifted(line.ms, o), rest)
  {
    if Clash(Shifted(line.ms, o), rest) {
      var last := |line.ms| - 1;
      ShiftedAt(line.ms, o, last);
      assert line.ms[last].start < line.ms[last].end;
      ClashIsEmpty(line.ms, |line.text|, o, rest, hi);
    }
  }

  /** No line has an empty match. */
  predicate NoEmptyMatches(lines: seq<MarkedLine>) {
    lines == [] || (NoEmptyMatch(lines[0].ms) && NoEmptyMatches(lines[1..]))
  }

  lemma {:induction false} NoEmptyMatchNothingLost(lines: seq<MarkedLine>, offset: nat, replacement: string)
    requires NoEmptyMatches(lines)
    ensures Lost(lines, offset, replacement) == 0
    decreases |lines|
  {
    if lines != [] {
      var below, mid := lines[1..], offset + |lines[0].text|;
      NoEmptyMatchNothingLost(below, mid, replacement);
      LineSpansOrdered(below, mid);
      NoEmptyMatchNoClash(lines[0], offset, LineSpans(below, mid), mid + |Joined(below)|);
    }
  }

  /** Where line `i` begins. */
  function Offset(lines: seq<string>, i: nat): nat
    requires i <= |lines|
  {
    if i == 0 then 0 else Offset(lines, i - 1) + |lines[i - 1]|
  }

  /** Where marked line `i` begins, counted from `offset`. */
  function Begin(lines: seq<MarkedLine>, offset: nat, i: nat): nat
    requires i <= |lines|
  {
    if i == 0 then offset else Begin(lines, offset, i - 1) + |lines[i - 1].text|
  }

  lemma {:induction false} BeginTail(lines: seq<MarkedLine>, offset: nat, i: nat)
    requires 0 < i <= |lines|
    ensures Begin(lines[1..], offset + |lines[0].text|, i - 1) == Begin(lines, offset, i)
  {
    if i > 1 {
      BeginTail(lines, offset, i - 1);
    }
  }

  lemma {:induction false} SpanOfLine(m: Match, lines: seq<MarkedLine>, offset: nat, i: nat)
    requires i < |lines| && m in Shifted(lines[i].ms, Begin(lines, offset, i))
    ensures m in LineSpans(lines, offset)
    decreases |lines|
  {
    var below, mid := lines[1..], offset + |lines[0].text|;
    MergedMembers(Shifted(lines[0].ms, offset), LineSpans(below, mid), m);
    if i > 0 {
      BeginTail(lines, offset, i);
      SpanOfLine(m, below, mid, i - 1);
    }
  }

  lemma {:induction false} LineOfSpan(m: Match, lines: seq<MarkedLine>, offset: nat) returns (i: nat)
    requires m in LineSpans(lines, offset)
    ensures i < |lines| && m in Shifted(lines[i].ms, Begin(lines, offset, i))
    decreases |lines|
  {
    var below, mid := lines[1..], offset + |lines[0].text|;
    MergedMembers(Shifted(lines[0].ms, offset), LineSpans(below, mid), m);
    if m in Shifted(lines[0].ms, offset) {
      i := 0;
    } else {
      var j := LineOfSpan(m, below, mid);
      i := j + 1;
      BeginTail(lines, offset, i);
    }
  }

  /** A set with an ordered listing has as many elements as the listing. */
  lemma {:induction false} SameSpansSameSize(spans: set<Match>, ms: seq<Match>, lo: nat, hi: nat)
    requires SameSpans(spans, ms) && Ordered(ms, lo, hi)
    ensures |spans| == |ms|
    decreases |ms|
  {
    if ms == [] {
      if m :| m in spans {
        assert m in ms;
      }
    } else {
      OrderedIsPairwise(ms, lo, hi);
      assert ms == [ms[0]] + ms[1..];
      assert ms[0] !in ms[1..];
      assert forall m :: m in spans - {ms[0]} <==> m in ms[1..];
      SameSpansSameSize(spans - {ms[0]}, ms[1..], ms[0].end, hi);
    }
  }

  /** All matches of all lines replaced at once in the joined text. */
  function RewrittenAll(lines: seq<MarkedLine>, replacement: string): string {
    Rewritten(Joined(lines), 0, LineSpans(lines, 0), replacement)
  }

  lemma RewrittenLineByLine(lines: seq<MarkedLine>, replacement: string)
    ensures RewrittenAll(lines, replacement) == LineWise(lines, replacement) <==> Lost(lines, 0, replacement) == 0
  {
    SetVersusLines(Joined(lines), 0, lines, replacement);
  }

  /** An empty match at the end of one line and one at the start of the next are replaced once. */
  lemma SharedEmptyMatchIsLost()
    ensures var lines: seq<MarkedLine> := [Line("a", [Match(1, 1)]), Line("b", [Match(0, 0)])];
            Lost(lines, 0, "-") == 1 && RewrittenAll(lines, "-") != LineWise(lines, "-")
  {
    var first: MarkedLine, second: MarkedLine := Line("a", [Match(1, 1)]), Line("b", [Match(0, 0)]);
    var lines: seq<MarkedLine> := [first, second];
    LinesHead(lines, 0, "-");
    assert lines[1..] == [second] && [second][1..] == [];
    LinesHead([second], 1, "-");
    assert Shifted(first.ms, 0) == [Match(1, 1)] && Shifted(second.ms, 1) == [Match(1, 1)];
    assert LineSpans([second], 1) == [Match(1, 1)];
    RewrittenLineByLine(lines, "-");
  }

  /** The right-to-left splice of the collected set is the simultaneous replacement. */
  method SpliceLines(text: string, ghost lines: seq<MarkedLine>, spans: set<Match>, replacement: string)
    returns (out: string)
    requires text == Joined(lines) && SameSpans(spans, LineSpans(lines, 0))
    ensures out == RewrittenAll(lines, replacement)
    ensures |spans| == |LineSpans(lines, 0)|
  {
    LineSpansOrdered(lines, 0);
    SameSpansSameSize(spans, LineSpans(lines, 0), 0, |text|);
    out := SpliceBackwards(text, spans, replacement, LineSpans(lines, 0));
  }

  // ---- Replacement, put together from pieces --------------------------------------------------------

  /** The pieces of a text with what stands between them. */
  function Woven(pieces: seq<string>, between: seq<string>): string
    requires |pieces| == |between| + 1
    decreases |between|
  {
    if between == [] then pieces[0] else pieces[0] + (between[0] + Woven(pieces[1..], between[1..]))
  }

  /** Where the parts between the pieces stand, from `at` on. */
  function Places(pieces: seq<string>, between: seq<string>, at: nat): seq<Match>
    requires |pieces| == |between| + 1
    decreases |between|
  {
    if between == [] then []
    else
      var start := at + |pieces[0]|;
      [Match(start, start + |between[0]|)] + Places(pieces[1..], between[1..], start + |between[0]|)
  }

  function Copies(replacement: string, n: nat): (copies: seq<string>)
    ensures |copies| == n
  {
    if n == 0 then [] else [replacement] + Copies(replacement, n - 1)
  }

  /** Replacing the parts between the pieces keeps every piece and puts one copy into each place. */
  lemma {:induction false} EachPlaceIsReplaced(before: string, pieces: seq<string>, between: seq<string>,
                                               replacement: string)
    requires |pieces| == |between| + 1
    ensures Rewritten(before + Woven(pieces, between), |before|, Places(pieces, between, |before|), replacement)
         == Woven(pieces, Copies(replacement, |between|))
    decreases |between|
  {
    var text := before + Woven(pieces, between);
    if between != [] {
      var next, rest := before + pieces[0] + between[0], Woven(pieces[1..], between[1..]);
      NextPlace(before, pieces[0], between[0], rest);
      EachPlaceIsReplaced(next, pieces[1..], between[1..], replacement);
      RewriteCons(text, |before|, |before| + |pieces[0]|, |next|, Places(pieces[1..], between[1..], |next|),
                  replacement);
      Assoc(pieces[0], replacement, Woven(pieces[1..], Copies(replacement, |between| - 1)));
      assert Copies(replacement, |between|)[1..] == Copies(replacement, |between| - 1);
    } else {
      assert Cut(text, |before|, |text|) == pieces[0];
    }
  }

  lemma NextPlace(before: string, piece: string, between: string, rest: string)
    ensures var text := before + (piece + (between + rest));
            && text == before + piece + between + rest
            && Cut(text, |before|, |before| + |piece|) == piece
  {
  }
}
