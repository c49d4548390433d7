/** The publication guard: which texts carry a reconstructable run of a credential. */
module SecretGuard {
  import opened Text
  import opened AnsiEscape

  const FRAGMENT_LENGTH: nat := 16

  predicate NotSpace(c: char) { !IsSpace(c) }

  predicate NotControl(c: char) { !IsControl(c) }

  predicate Inked(c: char) { !IsSpace(c) && !IsControl(c) }

  /** A credential without whitespace or control characters, which is what tokens look like. */
  predicate Clean(secret: string) {
    forall i :: 0 <= i < |secret| ==> Inked(secret[i])
  }

  function RunLength(secret: string): nat {
    if |secret| <= FRAGMENT_LENGTH then |secret| else FRAGMENT_LENGTH
  }

  /** The shortest consecutive run of `secret` that counts as leaked. */
  predicate IsRunOf(run: string, secret: string) {
    |run| == RunLength(secret) && Occurs(run, secret)
  }

  function Fragments(secret: string): (f: seq<string>)
    ensures |f| > 0
  {
    if |secret| <= FRAGMENT_LENGTH then [secret]
    else seq(|secret| - FRAGMENT_LENGTH + 1,
             i requires 0 <= i < |secret| - FRAGMENT_LENGTH + 1 => secret[i..i + FRAGMENT_LENGTH])
  }

  /** The fragments are the runs of 16 characters, or the whole of a credential that is no longer. */
  lemma FragmentsAreTheRuns(secret: string, run: string)
    ensures run in Fragments(secret) <==> IsRunOf(run, secret)
    ensures IsRunOf(run, secret) <==> Occurs(run, secret) && |run| == if |secret| <= 16 then |secret| else 16
  {
    var f := Fragments(secret);
    if |secret| <= FRAGMENT_LENGTH {
      if IsRunOf(run, secret) {
        var i :| 0 <= i <= |secret| && OccursAt(run, secret, i);
        assert i == 0 && run == secret;
      }
      assert OccursAt(secret, secret, 0);
    } else {
      if run in f {
        var i :| 0 <= i < |f| && f[i] == run;
        assert OccursAt(run, secret, i);
      }
      if IsRunOf(run, secret) {
        var i :| 0 <= i <= |secret| && OccursAt(run, secret, i);
        assert f[i] == run;
      }
    }
  }

  /** Python's `s.split()`: the maximal runs without whitespace. */
  function Words(s: string): seq<string>
    decreases |s|
  {
    var i := Span(s, 0, IsSpace);
    if i == |s| then []
    else
      var k := Span(s, i, NotSpace);
      [s[i..k]] + Words(s[k..])
  }

  lemma KeepAfterOneWord(before: string, word: string, after: string)
    requires forall j :: 0 <= j < |before| ==> !NotSpace(before[j])
    requires forall j :: 0 <= j < |word| ==> NotSpace(word[j])
    ensures Keep(before + (word + after), NotSpace) == word + Keep(after, NotSpace)
  {
    KeepConcat(before, word + after, NotSpace);
    KeepConcat(word, after, NotSpace);
    KeepNothing(before, NotSpace);
    KeepAll(word, NotSpace);
  }

  lemma ThreeParts(s: string, i: nat, k: nat)
    requires i <= k <= |s|
    ensures s == s[..i] + (s[i..k] + s[k..])
  {
  }

  lemma {:induction false} JoinedWordsDropSpaces(s: string)
    ensures Concat(Words(s)) == Keep(s, NotSpace)
    decreases |s|
  {
    var i := Span(s, 0, IsSpace);
    if i == |s| {
      KeepNothing(s, NotSpace);
    } else {
      var k := Span(s, i, NotSpace);
      ThreeParts(s, i, k);
      KeepAfterOneWord(s[..i], s[i..k], s[k..]);
      JoinedWordsDropSpaces(s[k..]);
      assert (([s[i..k]] + Words(s[k..]))[1..]) == Words(s[k..]);
    }
  }

  /** `secret_scan_corpora`: escapes stripped; then control characters dropped; then whitespace dropped. */
  function Corpora(text: string): (c: seq<string>)
    ensures |c| == 3
  {
    var plain := Strip(text);
    var joined := Keep(plain, NotControl);
    [plain, joined, Concat(Words(joined))]
  }

  /** What remains of a text once whitespace and control characters are gone. */
  function Squeeze(s: string): string {
    Keep(s, Inked)
  }

  lemma {:induction false} KeepTwice(s: string, p: char -> bool, q: char -> bool, both: char -> bool)
    requires forall c :: both(c) <==> p(c) && q(c)
    ensures Keep(Keep(s, p), q) == Keep(s, both)
  {
    if s != [] {
      KeepTwice(s[1..], p, q, both);
      KeepConcat(if p(s[0]) then [s[0]] else [], Keep(s[1..], p), q);
    }
  }

  lemma ThirdCorpus(text: string)
    ensures Corpora(text)[2] == Squeeze(Strip(text))
  {
    var joined := Keep(Strip(text), NotControl);
    JoinedWordsDropSpaces(joined);
    KeepTwice(Strip(text), NotControl, NotSpace, Inked);
  }

  predicate LeaksRun(text: string, run: string) {
    exists corpus :: corpus in Corpora(text) && Occurs(run, corpus)
  }

  /** A run leaks exactly when it stands in the text without its escapes, in that without its control
      characters, or in that without whitespace as well: rows are joined before padding is ignored. */
  lemma LeakLayers(text: string, run: string)
    ensures LeaksRun(text, run) <==>
            || Occurs(run, Strip(text)) || Occurs(run, Keep(Strip(text), NotControl))
               || Occurs(run, Squeeze(Strip(text)))
  {
    ThirdCorpus(text);
    var c := Corpora(text);
    assert c[0] in c && c[1] in c && c[2] in c;
    assert c == [c[0], c[1], c[2]];
  }

  ghost predicate LeaksSecret(text: string, secret: string) {
    secret != [] && exists run :: IsRunOf(run, secret) && LeaksRun(text, run)
  }

  ghost predicate Leaks(text: string, secrets: seq<string>) {
    exists secret :: secret in secrets && LeaksSecret(text, secret)
  }

  /** `text_contains_secret`, with its lazily computed corpora and nested scan. */
  method TextContainsSecret(text: string, secrets: seq<string>) returns (found: bool)
    ensures found <==> Leaks(text, secrets)
  {
    var corpora: Option<seq<string>> := None;
    for i := 0 to |secrets|
      invariant corpora.Some? ==> corpora.value == Corpora(text)
      invariant forall k :: 0 <= k < i ==> !LeaksSecret(text, secrets[k])
    {
      if secrets[i] == [] { continue; }
      if corpora == None { corpora := Some(Corpora(text)); }
      var hit := AnyFragmentOccurs(Fragments(secrets[i]), corpora.value);
      forall run {
        FragmentsAreTheRuns(secrets[i], run);
      }
      if hit {
        assert LeaksSecret(text, secrets[i]);
        return true;
      }
    }
    return false;
  }

  method AnyFragmentOccurs(fragments: seq<string>, corpora: seq<string>) returns (hit: bool)
    ensures hit <==> exists run, corpus :: run in fragments && corpus in corpora && Occurs(run, corpus)
  {
    for c := 0 to |corpora|
      invariant forall run, corpus :: run in fragments && corpus in corpora[..c] ==> !Occurs(run, corpus)
    {
      for f := 0 to |fragments|
        invariant forall run :: run in fragments[..f] ==> !Occurs(run, corpora[c])
      {
        if Occurs(fragments[f], corpora[c]) { return true; }
      }
      assert fragments[..|fragments|] == fragments;
    }
    assert corpora[..|corpora|] == corpora;
    return false;
  }

  /** For a clean run the third corpus decides alone: the other two never catch more. */
  lemma CleanRunsNeedOnlyTheThirdCorpus(text: string, run: string)
    requires Clean(run)
    ensures LeaksRun(text, run) <==> Occurs(run, Squeeze(Strip(text)))
  {
    ThirdCorpus(text);
    var corpora := Corpora(text);
    if LeaksRun(text, run) {
      var corpus :| corpus in corpora && Occurs(run, corpus);
      if corpus == corpora[0] {
        KeepOccurs(run, corpora[0], NotControl);
      }
      if corpus == corpora[0] || corpus == corpora[1] {
        KeepOccurs(run, corpora[1], NotSpace);
        JoinedWordsDropSpaces(corpora[1]);
      }
    }
    assert corpora[2] in corpora;
  }

  lemma RunsOfCleanAreClean(run: string, secret: string)
    requires Clean(secret) && IsRunOf(run, secret)
    ensures Clean(run)
  {
    var i :| 0 <= i <= |secret| && OccursAt(run, secret, i);
    forall k | 0 <= k < |run|
      ensures Inked(run[k])
    {
      assert run[k] == secret[i + k];
    }
  }

  /** The guard's verdict on clean credentials depends on the squeezed text alone: wraps, padding,
      escapes and style boundaries neither hide a leak nor invent one. */
  lemma GuardSeesSqueezedText(text: string, secrets: seq<string>)
    requires forall secret :: secret in secrets ==> Clean(secret)
    ensures Leaks(text, secrets) <==>
            exists secret, run :: secret in secrets && secret != [] && IsRunOf(run, secret)
                                  && Occurs(run, Squeeze(Strip(text)))
  {
    forall secret, run | secret in secrets && IsRunOf(run, secret)
      ensures LeaksRun(text, run) <==> Occurs(run, Squeeze(Strip(text)))
    {
      RunsOfCleanAreClean(run, secret);
      CleanRunsNeedOnlyTheThirdCorpus(text, run);
    }
  }
}
