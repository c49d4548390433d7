/** The JSON text whose hash identifies a reviewed pair of masked frames
    (`json.dumps` with `ensure_ascii=False`, sorted keys and compact separators). */
module Fingerprint {
  import opened Text

  /** The short escapes of RFC 8259, section 7, `\u00xx` for the other controls, and the character itself
      for everything else. */
  function Escaped(c: char): (e: string)
    ensures e != [] && e[0] != '"'
  {
    if c == '"' then ['\\', '"']
    else if c == '\\' then ['\\', '\\']
    else if c == '\n' then ['\\', 'n']
    else if c == '\r' then ['\\', 'r']
    else if c == '\t' then ['\\', 't']
    else if c == '\U{0C}' then ['\\', 'f']
    else if c == '\U{08}' then ['\\', 'b']
    else if c as int < 0x20 then ['\\', 'u', '0', '0', HexDigit(c as int / 16), HexDigit(c as int % 16)]
    else [c]
  }

  /** The characters with a short escape, and one of those without (section 7 of RFC 8259). */
  lemma EscapesAreSpelled()
    ensures Escaped('"') == "\\\"" && Escaped('\\') == "\\\\" && Escaped('\n') == "\\n" && Escaped('\r') == "\\r"
    ensures Escaped('\t') == "\\t" && Escaped('\U{0C}') == "\\f" && Escaped('\U{08}') == "\\b"
    ensures Escaped('\U{1B}') == "\\u001b" && Escaped('e') == "e" && Escaped('\U{E9}') == ['\U{E9}']
  {
  }

  /** The characters of a string literal, up to and including its closing quote. */
  function Quoted(s: string): string {
    if s == [] then ['"'] else Escaped(s[0]) + Quoted(s[1..])
  }

  /** The rest of an array after an element. */
  function ArrayTail(a: seq<string>): string {
    if a == [] then "]" else [',', '"'] + Quoted(a[0]) + ArrayTail(a[1..])
  }

  function Array(a: seq<string>): string {
    if a == [] then "[]" else ['[', '"'] + Quoted(a[0]) + ArrayTail(a[1..])
  }

  const GOLDEN_KEY := "{\"golden\":"
  const OURS_KEY := ",\"ours\":"

  function Payload(golden: seq<string>, ours: seq<string>): string {
    GOLDEN_KEY + Array(golden) + OURS_KEY + Array(ours) + "}"
  }

  lemma EscapesAreEqual(c: char, d: char, x: string, y: string)
    requires Escaped(c) + x == Escaped(d) + y
    ensures c == d && x == y
  {
    var t := Escaped(c) + x;
    assert t[0] == Escaped(c)[0] == Escaped(d)[0];
    if Escaped(c)[0] == '\\' {
      assert t[1] == Escaped(c)[1] && t[1] == Escaped(d)[1];
      if Escaped(c)[1] == 'u' {
        assert t[4] == Escaped(c)[4] && t[4] == Escaped(d)[4];
        assert t[5] == Escaped(c)[5] && t[5] == Escaped(d)[5];
        assert c as int == c as int / 16 * 16 + c as int % 16;
      }
    }
    assert x == t[|Escaped(c)|..] && y == t[|Escaped(d)|..];
  }

  /** A string literal ends at its own closing quote, and determines the string. */
  lemma {:induction false} QuotedIsInjective(s: string, t: string, x: string, y: string)
    requires Quoted(s) + x == Quoted(t) + y
    ensures s == t && x == y
    decreases |s|
  {
    if s == [] || t == [] {
      assert (Quoted(s) + x)[0] == Quoted(s)[0] && (Quoted(t) + y)[0] == Quoted(t)[0];
      assert s == [] && t == [];
      assert x == (Quoted(s) + x)[1..] && y == (Quoted(t) + y)[1..];
    } else {
      Assoc(Escaped(s[0]), Quoted(s[1..]), x);
      Assoc(Escaped(t[0]), Quoted(t[1..]), y);
      EscapesAreEqual(s[0], t[0], Quoted(s[1..]) + x, Quoted(t[1..]) + y);
      QuotedIsInjective(s[1..], t[1..], x, y);
      assert s == [s[0]] + s[1..] && t == [t[0]] + t[1..];
    }
  }

  lemma AfterHead(h: string, s: string, t: string, g: string, u: string, v: string)
    requires |h| == |g| && h + s + t == g + u + v
    ensures h == g && s + t == u + v
  {
    var w := h + s + t;
    assert w[..|h|] == h && w[..|g|] == g;
    assert w[|h|..] == s + t && w[|g|..] == u + v;
  }

  lemma {:induction false} ArrayTailIsInjective(a: seq<string>, b: seq<string>, x: string, y: string)
    requires ArrayTail(a) + x == ArrayTail(b) + y
    ensures a == b && x == y
    decreases |a|, 0
  {
    assert (ArrayTail(a) + x)[0] == ArrayTail(a)[0] && (ArrayTail(b) + y)[0] == ArrayTail(b)[0];
    if a == [] {
      assert x == (ArrayTail(a) + x)[1..] && y == (ArrayTail(b) + y)[1..];
    } else {
      ElementThenTail([',', '"'], a[0], a[1..], x, b[0], b[1..], y);
      assert a == [a[0]] + a[1..] && b == [b[0]] + b[1..];
    }
  }

  lemma {:induction false} ElementThenTail(head: string, p: string, a: seq<string>, x: string, q: string,
                                           b: seq<string>, y: string)
    requires head + Quoted(p) + ArrayTail(a) + x == head + Quoted(q) + ArrayTail(b) + y
    ensures p == q && [p] + a == [q] + b && x == y
    decreases |a|, 1
  {
    Assoc(head + Quoted(p), ArrayTail(a), x);
    Assoc(head + Quoted(q), ArrayTail(b), y);
    AfterHead(head, Quoted(p), ArrayTail(a) + x, head, Quoted(q), ArrayTail(b) + y);
    QuotedIsInjective(p, q, ArrayTail(a) + x, ArrayTail(b) + y);
    ArrayTailIsInjective(a, b, x, y);
  }

  lemma ArrayIsInjective(a: seq<string>, b: seq<string>, x: string, y: string)
    requires Array(a) + x == Array(b) + y
    ensures a == b && x == y
  {
    var t := Array(a) + x;
    assert t[1] == Array(a)[1] && t[1] == Array(b)[1];
    if a == [] {
      assert x == t[2..] && y == t[2..];
    } else {
      ElementThenTail(['[', '"'], a[0], a[1..], x, b[0], b[1..], y);
      assert a == [a[0]] + a[1..] && b == [b[0]] + b[1..];
    }
  }

  /** The payload determines both line lists, so equal fingerprints of different pairs are a collision of
      the hash. */
  lemma PayloadIsInjective(golden: seq<string>, ours: seq<string>, golden2: seq<string>, ours2: seq<string>)
    requires Payload(golden, ours) == Payload(golden2, ours2)
    ensures golden == golden2 && ours == ours2
  {
    PayloadParts(golden, ours);
    PayloadParts(golden2, ours2);
    var x, y := OURS_KEY + (Array(ours) + "}"), OURS_KEY + (Array(ours2) + "}");
    var p := Payload(golden, ours);
    assert Array(golden) + x == p[|GOLDEN_KEY|..] == Array(golden2) + y;
    ArrayIsInjective(golden, golden2, x, y);
    assert Array(ours) + "}" == x[|OURS_KEY|..] == y[|OURS_KEY|..] == Array(ours2) + "}";
    ArrayIsInjective(ours, ours2, "}", "}");
  }

  lemma PayloadParts(golden: seq<string>, ours: seq<string>)
    ensures Payload(golden, ours) == GOLDEN_KEY + (Array(golden) + (OURS_KEY + (Array(ours) + "}")))
  {
  }

  // ---- Reading the payload --------------------------------------------------------------------------

  /** The character that a backslash and a letter stand for (section 7 of RFC 8259). */
  function Unescaped(letter: char): Option<char> {
    if letter == '"' || letter == '\\' || letter == '/' then Some(letter)
    else if letter == 'n' then Some('\n')
    else if letter == 'r' then Some('\r')
    else if letter == 't' then Some('\t')
    else if letter == 'f' then Some('\U{0C}')
    else if letter == 'b' then Some('\U{08}')
    else None
  }

  /** A reader of string literals after their opening quote: the string and what follows its closing quote,
      or nothing when the text is no such literal. */
  function ReadString(t: string): Option<(string, string)>
    decreases |t|
  {
    if t == [] || t[0] as int < 0x20 then None
    else if t[0] == '"' then Some(([], t[1..]))
    else if t[0] != '\\' then Prepend(t[0], ReadString(t[1..]))
    else if |t| >= 2 && Unescaped(t[1]).Some? then Prepend(Unescaped(t[1]).value, ReadString(t[2..]))
    else if |t| >= 6 && t[1] == 'u' && t[2] == '0' && t[3] == '0' && IsHexDigit(t[4]) && IsHexDigit(t[5]) then
      Prepend((HexValue(t[4]) * 16 + HexValue(t[5])) as char, ReadString(t[6..]))
    else None
  }

  function Prepend(c: char, r: Option<(string, string)>): Option<(string, string)> {
    match r
    case Some((s, rest)) => Some(([c] + s, rest))
    case None => None
  }

  lemma ReadEscaped(c: char, t: string)
    ensures ReadString(Escaped(c) + t) == Prepend(c, ReadString(t))
  {
    var s := Escaped(c) + t;
    assert s[|Escaped(c)|..] == t;
    if c as int < 0x20 && |Escaped(c)| == 6 {
      assert s[4] == HexDigit(c as int / 16) && s[5] == HexDigit(c as int % 16);
    }
  }

  /** A literal is read back as the string it was written for. */
  lemma {:induction false} QuotedIsRead(s: string, rest: string)
    ensures ReadString(Quoted(s) + rest) == Some((s, rest))
  {
    if s == [] {
      assert (['"'] + rest)[1..] == rest;
    } else {
      Assoc(Escaped(s[0]), Quoted(s[1..]), rest);
      ReadEscaped(s[0], Quoted(s[1..]) + rest);
      QuotedIsRead(s[1..], rest);
      assert s == [s[0]] + s[1..];
    }
  }

  /** A reader of the elements after the first, up to the closing bracket. */
  function ReadTail(t: string): Option<(seq<string>, string)>
    decreases |t|
  {
    if t != [] && t[0] == ']' then Some(([], t[1..]))
    else if |t| >= 2 && t[0] == ',' && t[1] == '"' then
      match ReadString(t[2..])
      case Some((s, rest)) =>
        if |rest| < |t| then
          match ReadTail(rest)
          case Some((a, more)) => Some(([s] + a, more))
          case None => None
        else None
      case None => None
    else None
  }

  lemma AfterTwo(head: string, q: string, tail: string, rest: string)
    requires |head| == 2
    ensures var t := head + q + tail + rest;
            t[2..] == q + (tail + rest) && |t| >= 2 && t[0] == head[0] && t[1] == head[1]
  {
  }

  lemma {:induction false} TailIsRead(a: seq<string>, rest: string)
    ensures ReadTail(ArrayTail(a) + rest) == Some((a, rest))
  {
    var t := ArrayTail(a) + rest;
    if a == [] {
      assert t[1..] == rest;
    } else {
      AfterTwo([',', '"'], Quoted(a[0]), ArrayTail(a[1..]), rest);
      QuotedIsRead(a[0], ArrayTail(a[1..]) + rest);
      TailIsRead(a[1..], rest);
      assert a == [a[0]] + a[1..];
    }
  }

  /** A reader of arrays of strings. */
  function ReadArray(t: string): Option<(seq<string>, string)> {
    if |t| >= 2 && t[0] == '[' && t[1] == ']' then Some(([], t[2..]))
    else if |t| >= 2 && t[0] == '[' && t[1] == '"' then
      match ReadString(t[2..])
      case Some((s, rest)) =>
        (match ReadTail(rest)
         case Some((a, more)) => Some(([s] + a, more))
         case None => None)
      case None => None
    else None
  }

  /** An array of strings is read back element by element. */
  lemma ArrayIsRead(a: seq<string>, rest: string)
    ensures ReadArray(Array(a) + rest) == Some((a, rest))
  {
    var t := Array(a) + rest;
    if a == [] {
      assert t[2..] == rest;
    } else {
      AfterTwo(['[', '"'], Quoted(a[0]), ArrayTail(a[1..]), rest);
      QuotedIsRead(a[0], ArrayTail(a[1..]) + rest);
      TailIsRead(a[1..], rest);
      assert a == [a[0]] + a[1..];
    }
  }

  /** The payload is a JSON object of two members, the golden lines first; reading it gives back both lists. */
  lemma PayloadIsJson(golden: seq<string>, ours: seq<string>)
    ensures var p := Payload(golden, ours);
            var keyed := "{\"golden\":";
            && |p| >= |keyed| && p[..|keyed|] == keyed
            && ReadArray(p[|keyed|..]) == Some((golden, ",\"ours\":" + (Array(ours) + "}")))
            && ReadArray(Array(ours) + "}") == Some((ours, "}"))
  {
    PayloadParts(golden, ours);
    ArrayIsRead(golden, OURS_KEY + (Array(ours) + "}"));
    ArrayIsRead(ours, "}");
    var p := Payload(golden, ours);
    assert p[|GOLDEN_KEY|..] == Array(golden) + (OURS_KEY + (Array(ours) + "}"));
  }
}
