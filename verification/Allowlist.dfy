/** The allowlist of reviewed differences: one fingerprint per frame key, or a malformed file. */
module Allowlist {
  import opened Text
  import opened SecretGuard

  /** The separator between an entry's fields and its reason: an em dash between spaces. */
  const DASH := [' ', '\U{2014}', ' ']

  datatype Line = Ignored | Entry(key: string, digest: string) | Malformed

  function TrimLeft(s: string): string {
    if s != [] && IsSpace(s[0]) then TrimLeft(s[1..]) else s
  }

  function TrimRight(s: string): string {
    if s != [] && IsSpace(s[|s| - 1]) then TrimRight(s[..|s| - 1]) else s
  }

  /** Python's `strip()`. */
  function Strip(s: string): string { TrimLeft(TrimRight(s)) }

  /** The first position of `needle` in `s`, or none. */
  function IndexOf(needle: string, s: string, i: nat): (r: Option<nat>)
    requires i <= |s|
    ensures r.Some? ==> i <= r.value && OccursAt(needle, s, r.value)
    decreases |s| - i
  {
    if OccursAt(needle, s, i) then Some(i) else if i == |s| then None else IndexOf(needle, s, i + 1)
  }

  predicate EndsWith(s: string, suffix: string) {
    |s| >= |suffix| && s[|s| - |suffix|..] == suffix
  }

  predicate IsLowerHex(c: char) { '0' <= c <= '9' || 'a' <= c <= 'f' }

  const PREFIX := "sha256:"

  predicate IsDigestField(s: string) {
    |s| == 71 && s[..7] == PREFIX && forall i :: 7 <= i < 71 ==> IsLowerHex(s[i])
  }

  /** A line that does not name a frame but is laid out like an entry. */
  predicate EntryShaped(raw: string, line: string) {
    && raw != [] && !IsSpace(raw[0])
    && Words(line) != [] && '/' in Words(line)[0]
    && (Occurs(PREFIX, line) || Occurs(DASH, line))
  }

  /** One line of the file, as `load_allowlist` reads it. */
  function ReadLine(raw: string): Line {
    var line := Strip(raw);
    if line == [] || line[0] == '#' then Ignored
    else if !Occurs(".ansi", line) && !EntryShaped(raw, line) then Ignored
    else
      match IndexOf(DASH, line, 0)
      case None => Malformed
      case Some(at) =>
        var parts, reason := Words(line[..at]), line[at + 3..];
        if |parts| != 3 || Strip(reason) == [] then Malformed
        else if !EndsWith(parts[0], ".ansi") || '/' !in parts[0] || !IsDigestField(parts[1]) then Malformed
        else Entry(parts[0], parts[1][7..])
  }

  function ReadLines(raw: seq<string>): (lines: seq<Line>)
    ensures |lines| == |raw|
  {
    if raw == [] then [] else ReadLines(raw[..|raw| - 1]) + [ReadLine(raw[|raw| - 1])]
  }

  predicate HasMalformed(lines: seq<Line>) {
    exists i :: 0 <= i < |lines| && lines[i].Malformed?
  }

  /** Two lines name the same frame. */
  predicate SameKey(a: Line, b: Line) { a.Entry? && b.Entry? && a.key == b.key }

  predicate HasDuplicate(lines: seq<Line>) {
    exists i, j :: 0 <= i < j < |lines| && SameKey(lines[i], lines[j])
  }

  /** What a map of entries must be for these lines. */
  ghost predicate Lists(lines: seq<Line>, entries: map<string, string>) {
    forall k, d :: k in entries && entries[k] == d <==> Entry(k, d) in lines
  }

  /** `load_allowlist`: no entries at all when a line is malformed or a frame is listed twice; otherwise
      exactly the listed fingerprints. */
  method LoadAllowlist(lines: seq<Line>) returns (r: Option<map<string, string>>)
    ensures r.None? <==> HasMalformed(lines) || HasDuplicate(lines)
    ensures r.Some? ==> Lists(lines, r.value)
  {
    var entries: map<string, string> := map[];
    for n := 0 to |lines|
      invariant Lists(lines[..n], entries) && !HasMalformed(lines[..n]) && !HasDuplicate(lines[..n])
    {
      var line := lines[n];
      assert lines[..n + 1] == lines[..n] + [line];
      match line
      case Ignored =>
      case Malformed =>
        return None;
      case Entry(key, digest) =>
        if key in entries {
          DuplicateFound(lines, n, key, entries[key]);
          return None;
        }
        entries := entries[key := digest];
      NoNewFault(lines, n);
    }
    assert lines[..|lines|] == lines;
    return Some(entries);
  }

  lemma DuplicateFound(lines: seq<Line>, n: nat, key: string, digest: string)
    requires n < |lines| && lines[n].Entry? && lines[n].key == key && Entry(key, digest) in lines[..n]
    ensures HasDuplicate(lines)
  {
    var i :| 0 <= i < n && lines[..n][i] == Entry(key, digest);
    assert SameKey(lines[i], lines[n]);
  }

  lemma NoNewFault(lines: seq<Line>, n: nat)
    requires n < |lines| && !HasMalformed(lines[..n]) && !HasDuplicate(lines[..n]) && !lines[n].Malformed?
    requires lines[n].Entry? ==> forall d :: Entry(lines[n].key, d) !in lines[..n]
    ensures !HasMalformed(lines[..n + 1]) && !HasDuplicate(lines[..n + 1])
  {
    var less, more := lines[..n], lines[..n + 1];
    assert forall i :: 0 <= i < n ==> less[i] == more[i];
    forall i, j | 0 <= i < j < |more| ensures !SameKey(more[i], more[j]) {
      if j < n {
        assert !SameKey(less[i], less[j]);
      } else if more[i].Entry? {
        assert Entry(more[i].key, more[i].digest) in less;
      }
    }
  }

  // ---- Which lines are entries --------------------------------------------------------------------

  /** A field of an entry: no whitespace, and not the dash that ends the fields. */
  predicate Field(w: string) {
    w != [] && (forall i :: 0 <= i < |w| ==> !IsSpace(w[i])) && '\U{2014}' !in w
  }

  lemma {:induction false} TrimLeftStays(s: string)
    requires s == [] || !IsSpace(s[0])
    ensures TrimLeft(s) == s
  {
  }

  lemma {:induction false} TrimRightStays(s: string)
    requires s == [] || !IsSpace(s[|s| - 1])
    ensures TrimRight(s) == s
  {
  }

  lemma {:induction false} SpanOver(w: string, rest: string, p: char -> bool, i: nat)
    requires i <= |w| && (forall k :: 0 <= k < |w| ==> p(w[k])) && (rest == [] || !p(rest[0]))
    ensures Span(w + rest, i, p) == |w|
    decreases |w| - i
  {
    if i < |w| {
      SpanOver(w, rest, p, i + 1);
    }
  }

  /** The first field and what follows the space after it. */
  lemma FirstWord(w: string, rest: string)
    requires Field(w)
    ensures Words(w + ([' '] + rest)) == [w] + Words(rest)
    ensures Words(w) == [w]
  {
    var s := w + ([' '] + rest);
    assert Span(s, 0, IsSpace) == 0;
    SpanOver(w, [' '] + rest, NotSpace, 0);
    assert s[0..|w|] == w && s[|w|..] == [' '] + rest;
    SpaceSkipped(rest);
    assert w + [] == w;
    SpanOver(w, [], NotSpace, 0);
    assert w[0..|w|] == w && w[|w|..] == [];
  }

  lemma SpaceSkipped(rest: string)
    ensures Words([' '] + rest) == Words(rest)
  {
    var s := [' '] + rest;
    SpanShifts(rest, 0, IsSpace);
    var i := Span(rest, 0, IsSpace);
    assert Span(s, 0, IsSpace) == i + 1;
    if i < |rest| {
      SpanShifts(rest, i, NotSpace);
      SlicesShift(rest, i, Span(rest, i, NotSpace));
    }
  }

  lemma SlicesShift(rest: string, i: nat, k: nat)
    requires i <= k <= |rest|
    ensures ([' '] + rest)[i + 1..k + 1] == rest[i..k] && ([' '] + rest)[k + 1..] == rest[k..]
  {
  }

  lemma {:induction false} SpanShifts(rest: string, i: nat, p: char -> bool)
    requires i <= |rest|
    ensures Span([' '] + rest, i + 1, p) == Span(rest, i, p) + 1
    decreases |rest| - i
  {
    if i < |rest| && p(rest[i]) {
      SpanShifts(rest, i + 1, p);
    }
  }

  lemma NoDashHere(s: string, i: nat)
    requires i + 1 < |s| && s[i + 1] != '\U{2014}'
    ensures !OccursAt(DASH, s, i)
  {
    assert i + 3 <= |s| ==> s[i..i + 3][1] == s[i + 1];
  }

  lemma {:induction false} FirstDash(before: string, rest: string, i: nat)
    requires '\U{2014}' !in before && i <= |before|
    ensures IndexOf(DASH, before + (DASH + rest), i) == Some(|before|)
    decreases |before| - i
  {
    var s := before + (DASH + rest);
    if i < |before| {
      assert s[i + 1] == if i + 1 < |before| then before[i + 1] else ' ';
      NoDashHere(s, i);
      FirstDash(before, rest, i + 1);
    } else {
      assert s[i..i + 3] == DASH;
    }
  }

  /** Three fields, a dash and a reason are read as an entry: the key and the digest, in this order. */
  lemma EntryIsRead(key: string, digest: string, id: string, reason: string)
    requires Field(key) && Field(id) && key[0] != '#' && '/' in key && EndsWith(key, ".ansi")
    requires |digest| == 64 && forall i :: 0 <= i < 64 ==> digest[i] in "0123456789abcdef"
    requires reason != [] && !IsSpace(reason[0]) && !IsSpace(reason[|reason| - 1])
    ensures ReadLine(key + ([' '] + ("sha256:" + digest + ([' '] + id))) + (DASH + reason)) == Entry(key, digest)
  {
    var field := "sha256:" + digest;
    var fields := key + ([' '] + (field + ([' '] + id)));
    var raw := fields + (DASH + reason);
    DigestIsField(digest);
    FieldsAreRead(key, field, id);
    EntryIsTrimmed(key, field, id, reason);
    FieldsThenReason(fields, reason);
    KeyInFront(key, [' '] + (field + ([' '] + id)), DASH + reason);
    KeyOccurs(key, raw);
    FirstDash(fields, reason, 0);
    TrimRightStays(reason);
    TrimLeftStays(reason);
    ReadParts(raw, |fields|, key, field, id);
    assert field[7..] == digest;
  }

  lemma FieldsThenReason(fields: string, reason: string)
    ensures var raw := fields + (DASH + reason);
            raw[..|fields|] == fields && |raw| == |fields| + 3 + |reason| && raw[|fields| + 3..] == reason
  {
  }

  lemma KeyInFront(key: string, rest: string, more: string)
    ensures var raw := key + rest + more;
            |raw| >= |key| && raw[..|key|] == key
  {
  }

  lemma ReadParts(raw: string, at: nat, key: string, field: string, id: string)
    requires Strip(raw) == raw && raw != [] && raw[0] != '#' && Occurs(".ansi", raw)
    requires IndexOf(DASH, raw, 0) == Some(at) && at + 3 <= |raw| && Strip(raw[at + 3..]) != []
    requires Words(raw[..at]) == [key, field, id] && EndsWith(key, ".ansi") && '/' in key && IsDigestField(field)
    ensures ReadLine(raw) == Entry(key, field[7..])
  {
  }

  lemma DigestIsField(digest: string)
    requires |digest| == 64 && forall i :: 0 <= i < 64 ==> digest[i] in "0123456789abcdef"
    ensures IsDigestField("sha256:" + digest) && Field("sha256:" + digest)
  {
    var s := "sha256:" + digest;
    assert s[..7] == PREFIX;
    forall i | 7 <= i < 71
      ensures IsLowerHex(s[i]) && !IsSpace(s[i]) && s[i] != '\U{2014}'
    {
      assert s[i] == digest[i - 7];
    }
    forall i | 0 <= i < 7
      ensures !IsSpace(s[i]) && s[i] != '\U{2014}'
    {
      assert s[i] == "sha256:"[i];
    }
  }

  lemma FieldsAreRead(key: string, field: string, id: string)
    requires Field(key) && Field(field) && Field(id)
    ensures var fields := key + ([' '] + (field + ([' '] + id)));
            Words(fields) == [key, field, id] && '\U{2014}' !in fields
  {
    FirstWord(key, field + ([' '] + id));
    FirstWord(field, id);
    FirstWord(id, []);
    assert [key] + ([field] + [id]) == [key, field, id];
  }

  lemma EntryIsTrimmed(key: string, field: string, id: string, reason: string)
    requires key != [] && !IsSpace(key[0]) && reason != [] && !IsSpace(reason[|reason| - 1])
    ensures var raw := key + ([' '] + (field + ([' '] + id))) + (DASH + reason);
            Strip(raw) == raw && raw[0] == key[0]
  {
    var raw := key + ([' '] + (field + ([' '] + id))) + (DASH + reason);
    assert raw[0] == key[0] && raw[|raw| - 1] == reason[|reason| - 1];
    TrimRightStays(raw);
    TrimLeftStays(raw);
  }

  lemma KeyOccurs(key: string, raw: string)
    requires EndsWith(key, ".ansi") && |raw| >= |key| && raw[..|key|] == key
    ensures Occurs(".ansi", raw)
  {
    var i := |key| - 5;
    assert raw[i..i + 5] == key[i..];
    assert OccursAt(".ansi", raw, i);
  }

  lemma DigestOfField(field: string, digest: string)
    requires IsDigestField(field) && digest == field[7..]
    ensures field == PREFIX + digest && |digest| == 64
    ensures forall i :: 0 <= i < 64 ==> '0' <= digest[i] <= '9' || 'a' <= digest[i] <= 'f'
  {
    forall i | 0 <= i < 64
      ensures '0' <= digest[i] <= '9' || 'a' <= digest[i] <= 'f'
    {
      assert digest[i] == field[i + 7] && IsLowerHex(field[i + 7]);
    }
  }

  /** `needle` stands in `s` at `at` and nowhere before. */
  predicate FirstAt(needle: string, s: string, at: nat) {
    OccursAt(needle, s, at) && forall j :: 0 <= j < at ==> !OccursAt(needle, s, j)
  }

  lemma {:induction false} IndexIsFirst(needle: string, s: string, i: nat)
    requires i <= |s|
    ensures forall at: nat ::
              i <= at && OccursAt(needle, s, at) && (forall j :: i <= j < at ==> !OccursAt(needle, s, j)) ==>
                IndexOf(needle, s, i) == Some(at)
    ensures (forall at: nat :: i <= at ==> !OccursAt(needle, s, at)) ==> IndexOf(needle, s, i) == None
    decreases |s| - i
  {
    if !OccursAt(needle, s, i) && i < |s| {
      IndexIsFirst(needle, s, i + 1);
    }
  }

  /** The fields before the first dash, at `at`, and the reason after it are those of an entry. */
  predicate HasForm(line: string, at: nat, key: string, digest: string, id: string) {
    && FirstAt(DASH, line, at) && Words(line[..at]) == [key, PREFIX + digest, id] && Strip(line[at + 3..]) != []
    && EndsWith(key, ".ansi") && '/' in key
    && |digest| == 64 && forall i :: 0 <= i < 64 ==> digest[i] in "0123456789abcdef"
  }

  lemma {:induction false} FirstOfIndex(needle: string, s: string, i: nat)
    requires i <= |s| && IndexOf(needle, s, i).Some?
    ensures forall j :: i <= j < IndexOf(needle, s, i).value ==> !OccursAt(needle, s, j)
    decreases |s| - i
  {
    if !OccursAt(needle, s, i) && i < |s| {
      FirstOfIndex(needle, s, i + 1);
    }
  }

  lemma HexIsListed(digest: string)
    ensures (forall i :: 0 <= i < |digest| ==> digest[i] in "0123456789abcdef") <==>
            (forall i :: 0 <= i < |digest| ==> '0' <= digest[i] <= '9' || 'a' <= digest[i] <= 'f')
  {
    forall i | 0 <= i < |digest|
      ensures digest[i] in "0123456789abcdef" <==> '0' <= digest[i] <= '9' || 'a' <= digest[i] <= 'f'
    {
      HexDigits(digest[i]);
    }
  }

  lemma HexDigits(c: char)
    ensures c in "0123456789abcdef" <==> '0' <= c <= '9' || 'a' <= c <= 'f'
  {
    var l := "0123456789abcdef";
    assert |l| == 16;
    assert forall i :: 0 <= i < 10 ==> l[i] as int == '0' as int + i;
    assert forall i :: 10 <= i < 16 ==> l[i] as int == 'a' as int + i - 10;
    if '0' <= c <= '9' {
      assert l[c as int - '0' as int] == c;
    } else if 'a' <= c <= 'f' {
      assert l[c as int - 'a' as int + 10] == c;
    }
  }

  lemma FormNames(line: string, at: nat, key: string, field: string, id: string)
    requires at <= |line| && Words(line[..at]) == [key, field, id] && EndsWith(key, ".ansi")
    ensures Occurs(".ansi", line)
  {
    var s := line[..at];
    var i := Span(s, 0, IsSpace);
    var k := Span(s, i, NotSpace);
    assert Words(s)[0] == s[i..k];
    assert line[k - 5..k] == key[|key| - 5..];
    assert OccursAt(".ansi", line, k - 5);
  }

  lemma FormIsRead(raw: string, at: nat, key: string, digest: string, id: string)
    requires Strip(raw) != [] && Strip(raw)[0] != '#' && HasForm(Strip(raw), at, key, digest, id)
    ensures ReadLine(raw) == Entry(key, digest)
  {
    var line := Strip(raw);
    IndexIsFirst(DASH, line, 0);
    DigestIsField(digest);
    assert (PREFIX + digest)[7..] == digest;
    FormNames(line, at, key, PREFIX + digest, id);
  }

  /** White space goes at both ends, all of it, and nothing else. */
  lemma {:induction false} StripIsExact(before: string, s: string, after: string)
    requires forall i :: 0 <= i < |before| ==> IsSpace(before[i])
    requires forall i :: 0 <= i < |after| ==> IsSpace(after[i])
    requires s != [] && !IsSpace(s[0]) && !IsSpace(s[|s| - 1])
    ensures Strip(before + s + after) == s
    decreases |before| + |after|
  {
    if after != [] {
      assert (before + s + after)[..|before + s + after| - 1] == before + s + after[..|after| - 1];
      StripIsExact(before, s, after[..|after| - 1]);
    } else {
      assert before + s + after == before + s;
      TrimRightStays(before + s);
      TrimLeftOver(before, s);
    }
  }

  lemma {:induction false} TrimLeftOver(before: string, s: string)
    requires forall i :: 0 <= i < |before| ==> IsSpace(before[i])
    requires s != [] && !IsSpace(s[0])
    ensures TrimLeft(before + s) == s
  {
    if before == [] {
      assert before + s == s;
    } else {
      assert (before + s)[1..] == before[1..] + s;
      TrimLeftOver(before[1..], s);
    }
  }

  /** An entry has exactly three fields before its first dash, the key, the prefixed digest and an identifier,
      and a reason after it. */
  lemma EntryHasItsForm(raw: string, key: string, digest: string) returns (at: nat, id: string)
    requires ReadLine(raw) == Entry(key, digest)
    ensures Strip(raw) != [] && Strip(raw)[0] != '#' && HasForm(Strip(raw), at, key, digest, id)
  {
    var line := Strip(raw);
    at := IndexOf(DASH, line, 0).value;
    FirstOfIndex(DASH, line, 0);
    var parts := Words(line[..at]);
    id := parts[2];
    DigestOfField(parts[1], digest);
    HexIsListed(digest);
    assert parts == [parts[0], parts[1], parts[2]];
  }

  /** A line is an entry exactly when it has that form and is no comment. */
  lemma EntryExactly(raw: string, key: string, digest: string)
    ensures ReadLine(raw) == Entry(key, digest) <==>
            Strip(raw) != [] && Strip(raw)[0] != '#' && exists at: nat, id :: HasForm(Strip(raw), at, key, digest, id)
  {
    if ReadLine(raw) == Entry(key, digest) {
      var at, id := EntryHasItsForm(raw, key, digest);
    }
    if Strip(raw) != [] && Strip(raw)[0] != '#' && exists at: nat, id :: HasForm(Strip(raw), at, key, digest, id) {
      var at: nat, id :| HasForm(Strip(raw), at, key, digest, id);
      FormIsRead(raw, at, key, digest, id);
    }
  }

  /** A line is passed over exactly when it is blank, a comment, or neither names a frame nor looks like an
      entry: a first word with a slash at the very start, and a digest or a dash somewhere. What is not passed
      over and has not the form of an entry is malformed. */
  lemma IgnoredExactly(raw: string)
    ensures var line := Strip(raw);
            ReadLine(raw) == Ignored <==>
            || line == [] || line[0] == '#'
            || (!Occurs(".ansi", line)
                && (raw == [] || IsSpace(raw[0]) || Words(line) == [] || '/' !in Words(line)[0]
                    || (!Occurs("sha256:", line) && !Occurs(DASH, line))))
  {
  }
}
