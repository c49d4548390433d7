/** The escape-sequence recogniser behind `ANSI_ESCAPE_RE` of the capture script, and its removal. */
module AnsiEscape {
  import opened Text

  predicate IsParameter(c: char) { '0' <= c <= '?' }

  predicate IsIntermediate(c: char) { ' ' <= c <= '/' }

  predicate IsFinal(c: char) { '@' <= c <= '~' }

  /** Length of the control sequence `ESC [ parameters intermediates final` that opens `s`, or 0. */
  function CsiLength(s: string): (n: nat)
    ensures n <= |s|
    ensures n > 0 ==> n >= 3 && s[0] == ESC && s[1] == '[' && IsFinal(s[n - 1])
  {
    if |s| < 2 || s[0] != ESC || s[1] != '[' then 0
    else
      var k := Span(s, Span(s, 2, IsParameter), IsIntermediate);
      if k < |s| && IsFinal(s[k]) then k + 1 else 0
  }

  predicate NotEscape(c: char) { c != ESC }

  predicate NotOscEnd(c: char) { c != BEL && c != ESC }

  /** Length of the operating-system command that opens `s` with `ESC ]`. Without its terminator only
      the two-character introducer is a match, so what follows stays visible. */
  function OscLength(s: string): (n: nat)
    requires |s| >= 2
    ensures 2 <= n <= |s|
  {
    var k := Span(s, 2, NotOscEnd);
    if k < |s| && s[k] == BEL then k + 1
    else if k + 1 < |s| && s[k + 1] == '\\' then k + 2
    else 2
  }

  /** The families ended by the string terminator `ESC \`, again two characters when unterminated. */
  function StringLength(s: string): (n: nat)
    requires |s| >= 2
    ensures 2 <= n <= |s|
  {
    var k := Span(s, 2, NotEscape);
    if k + 1 < |s| && s[k + 1] == '\\' then k + 2 else 2
  }

  /** Length of the escape sequence that opens `s`, or 0 when none does. */
  function EscapeLength(s: string): (n: nat)
    ensures n <= |s|
    ensures n > 0 ==> n >= 2 && s[0] == ESC
  {
    if |s| < 2 || s[0] != ESC then 0
    else if s[1] == '[' then CsiLength(s)
    else if s[1] == ']' then OscLength(s)
    else if s[1] == 'P' || s[1] == '^' || s[1] == '_' || s[1] == 'X' then StringLength(s)
    else if '@' <= s[1] <= 'Z' || s[1] == '\\' then 2
    else 0
  }

  /** `ANSI_ESCAPE_RE.sub("", s)`: leftmost sequences removed, the rest kept in order. */
  function Strip(s: string): string
    decreases |s|
  {
    if s == [] then []
    else if EscapeLength(s) > 0 then Strip(s[EscapeLength(s)..])
    else [s[0]] + Strip(s[1..])
  }

  /** Length of `parameters intermediates m` at the start of `s`, or 0; `inter` once an intermediate
      character was seen. */
  function SgrTail(s: string, inter: bool): (n: nat)
    ensures n <= |s|
  {
    if s == [] then 0
    else if s[0] == 'm' then 1
    else if (IsParameter(s[0]) && !inter) || IsIntermediate(s[0]) then
      var r := SgrTail(s[1..], IsIntermediate(s[0]));
      if r == 0 then 0 else r + 1
    else 0
  }

  /** Length of the style transition `ESC [ parameters intermediates m` that opens `s`, or 0. */
  function SgrLength(s: string): (n: nat)
    ensures n <= |s|
    ensures n > 0 ==> n >= 3 && s[0] == ESC && s[1] == '['
  {
    if |s| < 2 || s[0] != ESC || s[1] != '[' then 0
    else
      var r := SgrTail(s[2..], false);
      if r == 0 then 0 else r + 2
  }

  /** `SGR_TRANSITION.sub("", s)`: only style transitions removed. */
  function StripStyles(s: string): string
    decreases |s|
  {
    if s == [] then []
    else if SgrLength(s) > 0 then StripStyles(s[SgrLength(s)..])
    else [s[0]] + StripStyles(s[1..])
  }

  /** The style transition `ESC [ params m` is exactly one control sequence, whatever follows it. */
  lemma CsiOfSgr(params: string, rest: string)
    requires forall i :: 0 <= i < |params| ==> IsParameter(params[i])
    ensures CsiLength([ESC, '['] + params + ['m'] + rest) == |params| + 3
    ensures EscapeLength([ESC, '['] + params + ['m'] + rest) == |params| + 3
  {
    var s := [ESC, '['] + params + ['m'] + rest;
    var k := Span(s, 2, IsParameter);
    assert s[2 + |params|] == 'm';
    assert forall j :: 2 <= j < 2 + |params| ==> s[j] == params[j - 2];
    assert k == 2 + |params|;
  }

  lemma StripSgr(params: string, rest: string)
    requires forall i :: 0 <= i < |params| ==> IsParameter(params[i])
    ensures Strip([ESC, '['] + params + ['m'] + rest) == Strip(rest)
  {
    CsiOfSgr(params, rest);
    var s := [ESC, '['] + params + ['m'] + rest;
    assert s[|params| + 3..] == rest;
  }

  lemma {:induction false} StripPlain(text: string, rest: string)
    requires ESC !in text
    ensures Strip(text + rest) == text + Strip(rest)
  {
    if text == [] {
      assert text + rest == rest;
    } else {
      assert (text + rest)[1..] == text[1..] + rest;
      StripPlain(text[1..], rest);
    }
  }

  lemma {:induction false} SgrTailStable(s: string, inter: bool, t: string)
    requires SgrTail(s, inter) > 0
    ensures SgrTail(s[..SgrTail(s, inter)] + t, inter) == SgrTail(s, inter)
  {
    var n := SgrTail(s, inter);
    if s[0] != 'm' {
      SgrTailStable(s[1..], IsIntermediate(s[0]), t);
      assert (s[..n] + t)[1..] == s[1..][..n - 1] + t;
    }
  }

  /** A style transition stays one whatever follows it. */
  lemma SgrStable(s: string, t: string)
    requires SgrLength(s) > 0
    ensures SgrLength(s[..SgrLength(s)] + t) == SgrLength(s)
  {
    var n := SgrLength(s);
    SgrTailStable(s[2..], false, t);
    assert (s[..n] + t)[2..] == s[2..][..n - 2] + t;
  }

  lemma {:induction false} SgrTailHasNoNewline(s: string, inter: bool)
    ensures '\n' !in s[..SgrTail(s, inter)]
  {
    if s != [] && SgrTail(s, inter) > 1 {
      SgrTailHasNoNewline(s[1..], IsIntermediate(s[0]));
      assert s[..SgrTail(s, inter)] == [s[0]] + s[1..][..SgrTail(s, inter) - 1];
    }
  }

  lemma SgrHasNoNewline(s: string)
    ensures '\n' !in s[..SgrLength(s)]
  {
    if SgrLength(s) > 0 {
      SgrTailHasNoNewline(s[2..], false);
      assert s[..SgrLength(s)] == [s[0], s[1]] + s[2..][..SgrLength(s) - 2];
    }
  }

  // ---- Unterminated sequences -------------------------------------------------------------------

  /** `ESC \` at `k`. */
  predicate StringTerminator(s: string, k: nat) {
    k + 1 < |s| && s[k] == ESC && s[k + 1] == '\\'
  }

  /** The first BEL or ESC after the introducer is at `k` and ends the operating-system command. */
  predicate OscEndsAt(s: string, k: nat) {
    2 <= k < |s| && (forall j :: 2 <= j < k ==> NotOscEnd(s[j])) && (s[k] == BEL || StringTerminator(s, k))
  }

  /** The first ESC after the introducer is at `k` and ends the string. */
  predicate StringEndsAt(s: string, k: nat) {
    2 <= k < |s| && (forall j :: 2 <= j < k ==> NotEscape(s[j])) && StringTerminator(s, k)
  }

  predicate OpensOsc(s: string) { |s| >= 2 && s[0] == ESC && s[1] == ']' }

  predicate OpensString(s: string) {
    |s| >= 2 && s[0] == ESC && (s[1] == 'P' || s[1] == '^' || s[1] == '_' || s[1] == 'X')
  }

  /** An operating-system command is removed whole exactly when it is terminated; of an unterminated one
      only the introducer matches, and what follows is scanned on its own. */
  lemma OscIsExact(s: string)
    requires OpensOsc(s)
    ensures forall k: nat :: OscEndsAt(s, k) ==>
              EscapeLength(s) == (if s[k] == BEL then k + 1 else k + 2) && Strip(s) == Strip(s[EscapeLength(s)..])
    ensures (forall k: nat :: !OscEndsAt(s, k)) ==> EscapeLength(s) == 2 && Strip(s) == Strip(s[2..])
  {
    assert forall k: nat :: OscEndsAt(s, k) ==> Span(s, 2, NotOscEnd) == k;
    assert EscapeLength(s) > 2 ==> OscEndsAt(s, Span(s, 2, NotOscEnd));
  }

  /** The same for the families that only `ESC \` ends. */
  lemma StringIsExact(s: string)
    requires OpensString(s)
    ensures forall k: nat :: StringEndsAt(s, k) ==> EscapeLength(s) == k + 2 && Strip(s) == Strip(s[k + 2..])
    ensures (forall k: nat :: !StringEndsAt(s, k)) ==> EscapeLength(s) == 2 && Strip(s) == Strip(s[2..])
  {
    assert forall k: nat :: StringEndsAt(s, k) ==> Span(s, 2, NotEscape) == k;
    assert EscapeLength(s) > 2 ==> StringEndsAt(s, Span(s, 2, NotEscape));
  }

  /** The kinds that make a sequence of their own with the escape character, whatever follows. */
  const TWO_CHARACTER: string := "@ABCDEFGHIJKLMNOQRSTUVWYZ\\"

  /** The kinds of the longer families. */
  const FAMILIES: string := "[]PX^_"

  /** Outside the longer families an escape character takes exactly one of the listed characters with it;
      before any other, or at the end of the text, it stays where it is. */
  lemma EscapePairsAreExact(rest: string)
    requires rest == [] || rest[0] !in FAMILIES
    ensures rest != [] && rest[0] in TWO_CHARACTER ==> Strip([ESC] + rest) == Strip(rest[1..])
    ensures rest == [] || rest[0] !in TWO_CHARACTER ==> Strip([ESC] + rest) == [ESC] + Strip(rest)
  {
    var s := [ESC] + rest;
    assert s[1..] == rest;
    if rest != [] {
      assert s[2..] == rest[1..];
      FamilyKinds(rest[0]);
      PairKinds(rest[0]);
    }
  }

  lemma FamilyKinds(c: char)
    ensures c in FAMILIES <==> c == '[' || c == ']' || c == 'P' || c == 'X' || c == '^' || c == '_'
  {
    var f := FAMILIES;
    assert |f| == 6;
    assert f[0] == '[' && f[1] == ']' && f[2] == 'P' && f[3] == 'X' && f[4] == '^' && f[5] == '_';
  }

  lemma PairKinds(c: char)
    ensures c in TWO_CHARACTER <==> ('@' <= c <= 'Z' && c != 'P' && c != 'X') || c == '\\'
  {
    var l := TWO_CHARACTER;
    assert |l| == 26 && l[25] == '\\';
    assert forall i :: 0 <= i <= 15 ==> l[i] as int == '@' as int + i;
    assert forall i :: 16 <= i <= 22 ==> l[i] as int == '@' as int + i + 1;
    assert l[23] == 'Y' && l[24] == 'Z';
    if '@' <= c <= 'O' {
      assert l[c as int - '@' as int] == c;
    } else if 'Q' <= c <= 'W' {
      assert l[c as int - '@' as int - 1] == c;
    }
  }

  /** Parameters up to `p`, intermediates up to `q`, and a final character there. */
  predicate CsiEndsAt(s: string, p: nat, q: nat) {
    && 2 <= p <= q < |s| && (forall j :: 2 <= j < p ==> IsParameter(s[j]))
    && (forall j :: p <= j < q ==> IsIntermediate(s[j])) && IsFinal(s[q])
  }

  /** A control sequence is removed up to its final character; an incomplete or malformed one is not removed
      at all, its escape character included. */
  lemma CsiIsExact(s: string)
    requires |s| >= 2 && s[0] == ESC && s[1] == '['
    ensures forall p: nat, q: nat :: CsiEndsAt(s, p, q) ==> EscapeLength(s) == q + 1 && Strip(s) == Strip(s[q + 1..])
    ensures (forall p: nat, q: nat :: !CsiEndsAt(s, p, q)) ==> EscapeLength(s) == 0 && Strip(s) == [ESC] + Strip(s[1..])
  {
    var p := Span(s, 2, IsParameter);
    var q := Span(s, p, IsIntermediate);
    assert EscapeLength(s) > 0 ==> CsiEndsAt(s, p, q);
    forall p': nat, q': nat | CsiEndsAt(s, p', q')
      ensures p' == p && q' == q
    {
      CsiPlaces(s, p', q');
    }
  }

  lemma CsiPlaces(s: string, p: nat, q: nat)
    requires CsiEndsAt(s, p, q)
    ensures Span(s, 2, IsParameter) == p && Span(s, p, IsIntermediate) == q
  {
    assert !IsParameter(s[p]) && !IsIntermediate(s[q]);
  }

  /** Any complete control sequence inside a text vanishes, and the text closes up around it. */
  lemma ControlSequenceVanishes(text: string, params: string, inters: string, final: char, rest: string)
    requires ESC !in text && IsFinal(final)
    requires (forall i :: 0 <= i < |params| ==> IsParameter(params[i]))
    requires (forall i :: 0 <= i < |inters| ==> IsIntermediate(inters[i]))
    ensures Strip(text + ([ESC, '['] + params + inters + [final] + rest)) == text + Strip(rest)
  {
    var s := [ESC, '['] + params + inters + [final] + rest;
    var p, q := 2 + |params|, 2 + |params| + |inters|;
    assert forall j :: 2 <= j < p ==> s[j] == params[j - 2];
    assert forall j :: p <= j < q ==> s[j] == inters[j - p];
    assert CsiEndsAt(s, p, q);
    CsiIsExact(s);
    assert s[q + 1..] == rest;
    StripPlain(text, s);
  }

  lemma {:induction false} SgrTailOf(s: string, p: nat, q: nat)
    requires p <= q < |s| && s[q] == 'm'
    requires (forall j :: 0 <= j < p ==> IsParameter(s[j])) && (forall j :: p <= j < q ==> IsIntermediate(s[j]))
    ensures SgrTail(s, false) == q + 1
    ensures p == 0 ==> SgrTail(s, true) == q + 1
    decreases q
  {
    if q > 0 {
      SgrTailOf(s[1..], if p > 0 then p - 1 else 0, q - 1);
    }
  }

  lemma StyleLength(params: string, inters: string, rest: string)
    requires (forall i :: 0 <= i < |params| ==> IsParameter(params[i]))
    requires (forall i :: 0 <= i < |inters| ==> IsIntermediate(inters[i]))
    ensures SgrLength([ESC, '['] + params + inters + ['m'] + rest) == |params| + |inters| + 3
  {
    var s := [ESC, '['] + params + inters + ['m'] + rest;
    var p, q := |params|, |params| + |inters|;
    var t := s[2..];
    assert forall j :: 0 <= j < p ==> t[j] == params[j];
    assert forall j :: p <= j < q ==> t[j] == inters[j - p];
    assert t[q] == 'm';
    SgrTailOf(t, p, q);
  }

  /** A style transition inside a text vanishes where only styles are removed. */
  lemma StyleVanishes(text: string, params: string, inters: string, rest: string)
    requires ESC !in text
    requires (forall i :: 0 <= i < |params| ==> IsParameter(params[i]))
    requires (forall i :: 0 <= i < |inters| ==> IsIntermediate(inters[i]))
    ensures StripStyles(text + ([ESC, '['] + params + inters + ['m'] + rest)) == text + StripStyles(rest)
  {
    var s := [ESC, '['] + params + inters + ['m'] + rest;
    StyleLength(params, inters, rest);
    assert s[|params| + |inters| + 3..] == rest;
    StylesKeepPlain(text, s);
  }

  lemma {:induction false} StylesKeepPlain(text: string, rest: string)
    requires ESC !in text
    ensures StripStyles(text + rest) == text + StripStyles(rest)
  {
    if text == [] {
      assert text + rest == rest;
    } else {
      assert (text + rest)[1..] == text[1..] + rest;
      StylesKeepPlain(text[1..], rest);
    }
  }

  /** Text after an unterminated introducer stays visible; the introducer itself does not. */
  lemma UnterminatedOscStaysVisible(body: string)
    requires ESC !in body && BEL !in body
    ensures Strip([ESC, ']'] + body) == body
  {
    var s := [ESC, ']'] + body;
    OscIsExact(s);
    assert forall k :: 2 <= k < |s| ==> s[k] == body[k - 2];
    assert forall k: nat :: !OscEndsAt(s, k);
    assert s[2..] == body;
    StripAll(body);
  }

  lemma UnterminatedStringStaysVisible(kind: char, body: string)
    requires (kind == 'P' || kind == '^' || kind == '_' || kind == 'X') && ESC !in body
    ensures Strip([ESC, kind] + body) == body
  {
    var s := [ESC, kind] + body;
    StringIsExact(s);
    assert forall k :: 2 <= k < |s| ==> s[k] == body[k - 2];
    assert forall k: nat :: !StringEndsAt(s, k);
    assert s[2..] == body;
    StripAll(body);
  }

  lemma StripAll(text: string)
    requires ESC !in text
    ensures Strip(text) == text
  {
    StripPlain(text, []);
    assert text + [] == text;
  }
}
