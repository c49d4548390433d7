/** The key script of a capture: which lines take a frame, and under which file name. */
module KeyScript {
  import opened Text

  /** The text before the first colon, and whether there is one. */
  function Action(line: string): (a: string)
    ensures |a| <= |line| && ':' !in a
    ensures |a| < |line| ==> line[|a|] == ':'
  {
    if line == [] || line[0] == ':' then [] else [line[0]] + Action(line[1..])
  }

  /** The text after the first colon, empty without one. */
  function Value(line: string): string {
    if |Action(line)| < |line| then line[|Action(line)| + 1..] else []
  }

  /** Whether executing the line takes a frame. */
  predicate TakesFrame(line: string) { Action(line) == "frame" }

  /** Whether the line is counted, and its contract loaded, before the run. */
  predicate IsExpected(line: string) { |line| >= 6 && line[..6] == "frame:" }

  predicate IsBare(line: string) { line == "frame" }

  lemma {:induction false} ActionOfPrefix(a: string, rest: string)
    requires ':' !in a
    ensures Action(a + ":" + rest) == a && Value(a + ":" + rest) == rest
  {
    var line := a + ":" + rest;
    if a != [] {
      assert line[1..] == a[1..] + ":" + rest;
      ActionOfPrefix(a[1..], rest);
      assert line[0] == a[0];
    }
    assert line[|a| + 1..] == rest;
  }

  /** A frame is taken for the expected lines and for one more spelling, without a colon. */
  lemma TakesFrameExactly(line: string)
    ensures TakesFrame(line) <==> IsExpected(line) || IsBare(line)
    ensures !(IsExpected(line) && IsBare(line))
  {
    if IsExpected(line) {
      assert line == "frame" + ":" + line[6..] by {
        assert line == line[..6] + line[6..] && "frame:" == "frame" + ":";
      }
      ActionOfPrefix("frame", line[6..]);
    }
    if IsBare(line) {
      NoColon(line);
    }
    if TakesFrame(line) {
      ActionIsPrefix(line);
      if |line| > 5 {
        assert line[..6] == line[..5] + [line[5]];
      }
    }
  }

  lemma {:induction false} NoColon(line: string)
    requires ':' !in line
    ensures Action(line) == line
  {
    if line != [] {
      NoColon(line[1..]);
    }
  }

  lemma {:induction false} ActionIsPrefix(line: string)
    ensures Action(line) == line[..|Action(line)|]
  {
    if line != [] && line[0] != ':' {
      ActionIsPrefix(line[1..]);
    }
  }

  // ---- File names -------------------------------------------------------------------------------

  /** `f"{n:02d}"`. */
  function Padded(n: nat): (s: string)
    ensures forall i :: 0 <= i < |s| ==> IsDigit(s[i])
  {
    if n < 10 then ['0'] + Decimal(n) else Decimal(n)
  }

  function FrameName(n: nat, value: string): string { Padded(n) + "-" + value + ".ansi" }

  lemma PaddedInjective(m: nat, n: nat)
    requires Padded(m) == Padded(n)
    ensures m == n
  {
    PaddedValue(m);
    PaddedValue(n);
  }

  lemma PaddedValue(n: nat)
    ensures DecimalValue(Padded(n)) == n
  {
    DecimalRoundTrip(n);
    if n < 10 {
      var s := Padded(n);
      assert s == ['0', Digit(n)] && s[..1] == ['0'] && s[..1][..0] == [];
    }
  }

  lemma DashSplits(a: string, x: string, b: string, y: string)
    requires a + "-" + x == b + "-" + y && '-' !in a && '-' !in b
    ensures a == b && x == y
  {
    var s, t := a + "-" + x, b + "-" + y;
    assert s[|a|] == '-' && t[|b|] == '-';
    assert forall k :: 0 <= k < |a| ==> s[k] == a[k] && a[k] != '-';
    assert forall k :: 0 <= k < |b| ==> t[k] == b[k] && b[k] != '-';
    assert a == s[..|a|] && b == t[..|b|] && x == s[|a| + 1..] && y == t[|b| + 1..];
  }

  /** Different frame numbers or values give different file names. */
  lemma FrameNameInjective(m: nat, a: string, n: nat, b: string)
    requires FrameName(m, a) == FrameName(n, b)
    ensures m == n && a == b
  {
    var x, y := a + ".ansi", b + ".ansi";
    assert FrameName(m, a) == Padded(m) + "-" + x && FrameName(n, b) == Padded(n) + "-" + y;
    DashSplits(Padded(m), x, Padded(n), y);
    PaddedInjective(m, n);
    assert a == x[..|x| - 5] && b == y[..|y| - 5];
  }

  /** A frame is called by its number, in two digits at least, its value and the extension. */
  lemma FrameNamesAreSpelled(value: string)
    ensures FrameName(1, "home") == "01-home.ansi" && FrameName(12, value) == "12-" + value + ".ansi"
    ensures FrameName(103, value) == "103-" + value + ".ansi"
  {
    assert Decimal(1) == "1" && Decimal(12) == "12" by {
      assert Decimal(1) == ['1'];
    }
    assert Decimal(10) == "10" && Decimal(103) == "103" by {
      assert Decimal(1) == ['1'];
    }
  }

  // ---- Frame lines of a script ------------------------------------------------------------------

  /** Values of the lines that take a frame, in order. */
  function Taken(lines: seq<string>): seq<string> {
    if lines == [] then []
    else
      var n := |lines| - 1;
      Taken(lines[..n]) + (if TakesFrame(lines[n]) then [Value(lines[n])] else [])
  }

  /** Values of the expected lines, in order. */
  function Expected(lines: seq<string>): seq<string> {
    if lines == [] then []
    else
      var n := |lines| - 1;
      Expected(lines[..n]) + (if IsExpected(lines[n]) then [Value(lines[n])] else [])
  }

  predicate HasBare(lines: seq<string>) { exists i :: 0 <= i < |lines| && IsBare(lines[i]) }

  lemma {:induction false} TakenVersusExpected(lines: seq<string>)
    ensures |Expected(lines)| <= |Taken(lines)|
    ensures |Expected(lines)| == |Taken(lines)| <==> !HasBare(lines)
    ensures !HasBare(lines) ==> Taken(lines) == Expected(lines)
  {
    if lines != [] {
      var n := |lines| - 1;
      var init := lines[..n];
      TakenVersusExpected(init);
      TakesFrameExactly(lines[n]);
      if HasBare(init) {
        var i :| 0 <= i < n && IsBare(init[i]);
        assert IsBare(lines[i]);
      }
      if HasBare(lines) && !IsBare(lines[n]) {
        var i :| 0 <= i < |lines| && IsBare(lines[i]);
        assert IsBare(init[i]);
      }
    }
  }

  /** File names of a list of values, numbered from 1. */
  function Names(values: seq<string>): (names: seq<string>)
    ensures |names| == |values|
  {
    seq(|values|, i requires 0 <= i < |values| => FrameName(i + 1, values[i]))
  }

  /** A name counted from one is among the first `n` names only if its number is. */
  lemma NameBeyond(a: seq<string>, b: seq<string>, k: nat)
    requires |b| <= k < |a|
    ensures Names(a)[k] !in Names(b)
  {
    if Names(a)[k] in Names(b) {
      var j :| 0 <= j < |b| && Names(b)[j] == Names(a)[k];
      FrameNameInjective(j + 1, b[j], k + 1, a[k]);
      assert false;
    }
  }

  /** The contract of every frame taken is loaded beforehand, exactly for scripts without a bare `frame`
      line. */
  lemma ContractsArePreloadedExactly(lines: seq<string>)
    ensures (forall k :: 0 <= k < |Taken(lines)| ==> Names(Taken(lines))[k] in Names(Expected(lines)))
            <==> !HasBare(lines)
  {
    var taken, expected := Taken(lines), Expected(lines);
    TakenVersusExpected(lines);
    if HasBare(lines) {
      NameBeyond(taken, expected, |expected|);
    }
  }
}
