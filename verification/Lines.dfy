/** Python's `str.splitlines`, and lines each ended by a newline. */
module Lines {
  import opened Text

  /** The line boundaries of Python's `str.splitlines`. */
  predicate IsLineEnd(c: char) {
    var n := c as int;
    0x0A <= n <= 0x0D || 0x1C <= n <= 0x1E || n == 0x85 || n == 0x2028 || n == 0x2029
  }

  /** Length of the first line of `s` with its line end; `\r\n` is one line end. */
  function LineLength(s: string): (n: nat)
    requires s != []
    ensures 0 < n <= |s|
    ensures forall i :: 0 <= i < n - 1 ==> s[i] != '\n'
  {
    var k := Span(s, 0, c => !IsLineEnd(c));
    if k == |s| then k
    else if s[k] == '\r' && k + 1 < |s| && s[k + 1] == '\n' then k + 2
    else k + 1
  }

  predicate NewlineOnlyLast(line: string) {
    forall k :: 0 <= k < |line| - 1 ==> line[k] != '\n'
  }

  /** `text.splitlines(keepends=True)`. */
  function SplitLines(s: string): (lines: seq<string>)
    ensures Concat(lines) == s
    ensures forall line :: line in lines ==> NewlineOnlyLast(line)
    decreases |s|
  {
    if s == [] then []
    else
      var head, rest := s[..LineLength(s)], SplitLines(s[LineLength(s)..]);
      assert NewlineOnlyLast(head);
      [head] + rest
  }

  /** `text.splitlines()`: the lines without their line ends. */
  function PlainLines(text: string): seq<string> {
    var raw := SplitLines(text);
    seq(|raw|, i requires 0 <= i < |raw| => LineBody(raw[i]))
  }

  function LineBody(line: string): string {
    if line == [] || !IsLineEnd(line[|line| - 1]) then line
    else if |line| > 1 && line[|line| - 1] == '\n' && line[|line| - 2] == '\r' then line[..|line| - 2]
    else line[..|line| - 1]
  }

  // ---- What splitting gives -----------------------------------------------------------------------

  /** The line boundaries by name: line feed, vertical tab, form feed, carriage return, the separators of
      files, groups and records, next line, and the line and paragraph separators. */
  lemma LineEndsAre(c: char)
    ensures IsLineEnd(c) <==> c in ['\n', '\U{0B}', '\U{0C}', '\r', '\U{1C}', '\U{1D}', '\U{1E}', '\U{85}', '\U{2028}',
                                    '\U{2029}']
  {
  }

  /** A line is a body without line ends and then one line end, or none at all where it is the last. */
  predicate IsOneLine(line: string, last: bool) {
    var n := |LineBody(line)|;
    && line != [] && n <= |line| && line[..n] == LineBody(line)
    && (forall k :: 0 <= k < n ==> !IsLineEnd(line[k]))
    && (line[n..] == "\r\n" || (n == |line| - 1 && IsLineEnd(line[n])) || (n == |line| && last))
  }

  predicate SplitsReturn(a: string, b: string) {
    a != [] && b != [] && a[|a| - 1] == '\r' && b[0] == '\n'
  }

  lemma FirstLineIsOne(s: string)
    requires s != []
    ensures var n := LineLength(s);
            IsOneLine(s[..n], n == |s|) && !SplitsReturn(s[..n], s[n..])
  {
    var k := Span(s, 0, c => !IsLineEnd(c));
    var n := LineLength(s);
    var line := s[..n];
    if k < |s| {
      assert IsLineEnd(line[n - 1]);
      if n == k + 2 {
        assert line[..n - 2] == s[..k] && line[n - 2..] == "\r\n";
      } else {
        assert n >= 2 && line[n - 1] == '\n' ==> line[n - 2] != '\r';
        assert line[..n - 1] == s[..k];
      }
    }
  }

  /** Splitting gives whole lines, only the last of them possibly unterminated, and never takes a carriage
      return from its line feed. */
  lemma {:induction false} SplitIsExact(s: string)
    ensures var lines := SplitLines(s);
            && (forall i :: 0 <= i < |lines| ==> IsOneLine(lines[i], i == |lines| - 1))
            && (forall i :: 0 <= i < |lines| - 1 ==> !SplitsReturn(lines[i], lines[i + 1]))
    decreases |s|
  {
    if s != [] {
      var n := LineLength(s);
      FirstLineIsOne(s);
      SplitIsExact(s[n..]);
      var rest := SplitLines(s[n..]);
      assert SplitLines(s) == [s[..n]] + rest;
      if n < |s| {
        FirstOfRest(s[n..]);
      }
    }
  }

  lemma FirstOfRest(s: string)
    requires s != []
    ensures SplitLines(s) != [] && SplitLines(s)[0] != [] && SplitLines(s)[0][0] == s[0]
  {
  }

  // ---- Lines ended by a newline -----------------------------------------------------------------

  predicate NotNewline(c: char) { c != NL }

  /** The complete lines of a buffer, without their newlines. */
  function TerminatedLines(s: string): seq<string>
    decreases |s|
  {
    var k := Span(s, 0, NotNewline);
    if k == |s| then [] else [s[..k]] + TerminatedLines(s[k + 1..])
  }

  /** What follows the last newline. */
  function Remainder(s: string): (r: string)
    ensures NL !in r
    decreases |s|
  {
    var k := Span(s, 0, NotNewline);
    if k == |s| then s else Remainder(s[k + 1..])
  }

  lemma {:induction false} NoNewlineNoLines(s: string)
    requires NL !in s
    ensures TerminatedLines(s) == [] && Remainder(s) == s
  {
  }

  /** The lines of a text are those of its first part, then those of what is left over plus the rest. */
  lemma {:induction false} LinesOfSplit(a: string, b: string)
    ensures TerminatedLines(a + b) == TerminatedLines(a) + TerminatedLines(Remainder(a) + b)
    ensures Remainder(a + b) == Remainder(Remainder(a) + b)
    decreases |a|
  {
    var k := Span(a, 0, NotNewline);
    if k < |a| {
      var text := a + b;
      var j := Span(text, 0, NotNewline);
      assert text[k] == a[k];
      assert forall i :: 0 <= i < k ==> text[i] == a[i];
      assert j == k;
      var rest := a[k + 1..];
      assert text[..k] == a[..k] && text[k + 1..] == rest + b;
      LinesOfSplit(rest, b);
      Assoc([a[..k]], TerminatedLines(rest), TerminatedLines(Remainder(rest) + b));
    }
  }

  lemma LineThen(line: string, rest: string)
    requires NL !in line
    ensures TerminatedLines(line + [NL] + rest) == [line] + TerminatedLines(rest)
    ensures Remainder(line + [NL] + rest) == Remainder(rest)
  {
    var s := line + [NL] + rest;
    var k := Span(s, 0, NotNewline);
    assert s[|line|] == NL;
    assert forall i :: 0 <= i < |line| ==> s[i] == line[i];
    assert k == |line|;
    assert s[..k] == line && s[k + 1..] == rest;
  }
}
