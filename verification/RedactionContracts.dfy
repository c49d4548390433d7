/** The redaction contract of a frame: substitutions with the counts they must reach, and guards against
    what is left. Publication and comparison apply the same substitutions; only publication counts them. */
module RedactionContracts {
  import opened Text
  import opened AnsiEscape
  import opened Lines

  /** A substitution with its match count (`subn`), and the count it must reach. */
  datatype Mask = Mask(name: string, subn: string -> (string, nat), minimum: nat)

  /** A dashboard mask, by its two operations: redaction with its match count, and the question whether an
      identity is still in the clear. */
  datatype StatusMask = StatusMask(name: string, redact: string -> (string, nat), unredacted: string -> bool,
                                   minimum: nat)

  datatype Guard = Guard(name: string, search: string -> bool)

  datatype Contract = Contract(masks: seq<Mask>, guards: seq<Guard>, statuses: seq<StatusMask>, minimum: nat)

  datatype Failure = TooFew(name: string, matched: nat, minimum: nat)
                   | TooFewInAll(matched: nat, minimum: nat)
                   | Unredacted(name: string)

  /** What the masks and then the dashboard masks make of a text, how many matches they replace, and
      which of them fall short of their own minimum. */
  datatype Outcome = Outcome(text: string, total: nat, short: seq<Failure>)

  function Shortfall(name: string, matched: nat, minimum: nat): seq<Failure> {
    if matched < minimum then [TooFew(name, matched, minimum)] else []
  }

  function AfterMasks(text: string, masks: seq<Mask>): Outcome {
    if masks == [] then Outcome(text, 0, [])
    else
      var n := |masks| - 1;
      var o, m := AfterMasks(text, masks[..n]), masks[n];
      var (t, k) := m.subn(o.text);
      Outcome(t, o.total + k, o.short + Shortfall(m.name, k, m.minimum))
  }

  function AfterStatuses(before: Outcome, statuses: seq<StatusMask>): Outcome
    decreases |statuses|
  {
    if statuses == [] then before
    else
      var n := |statuses| - 1;
      var o, s := AfterStatuses(before, statuses[..n]), statuses[n];
      var (t, k) := s.redact(o.text);
      Outcome(t, o.total + k, o.short + Shortfall(s.name, k, s.minimum))
  }

  function Sanitized(text: string, c: Contract): Outcome {
    AfterStatuses(AfterMasks(text, c.masks), c.statuses)
  }

  function GuardFailures(semantic: string, guards: seq<Guard>): seq<Failure> {
    if guards == [] then []
    else
      var n := |guards| - 1;
      GuardFailures(semantic, guards[..n]) + (if guards[n].search(semantic) then [Unredacted(guards[n].name)] else [])
  }

  function StatusFailures(text: string, statuses: seq<StatusMask>): seq<Failure>
    decreases |statuses|
  {
    if statuses == [] then []
    else
      var n := |statuses| - 1;
      StatusFailures(text, statuses[..n])
      + (if statuses[n].unredacted(text) then [Unredacted(statuses[n].name)] else [])
  }

  /** The failures that name an identity still present, on the stripped and on the styled text. */
  function Residual(text: string, c: Contract): seq<Failure> {
    GuardFailures(StripStyles(text), c.guards) + StatusFailures(text, c.statuses)
  }

  function CountFailures(o: Outcome, c: Contract): seq<Failure> {
    o.short + (if o.total < c.minimum then [TooFewInAll(o.total, c.minimum)] else [])
  }

  method ApplyMasks(text: string, masks: seq<Mask>) returns (o: Outcome)
    ensures o == AfterMasks(text, masks)
  {
    o := Outcome(text, 0, []);
    for i := 0 to |masks|
      invariant o == AfterMasks(text, masks[..i])
    {
      assert masks[..i + 1][..i] == masks[..i];
      var (t, k) := masks[i].subn(o.text);
      o := Outcome(t, o.total + k, o.short + Shortfall(masks[i].name, k, masks[i].minimum));
    }
    assert masks[..|masks|] == masks;
  }

  method ApplyStatuses(before: Outcome, statuses: seq<StatusMask>) returns (o: Outcome)
    ensures o == AfterStatuses(before, statuses)
  {
    o := before;
    for i := 0 to |statuses|
      invariant o == AfterStatuses(before, statuses[..i])
    {
      assert statuses[..i + 1][..i] == statuses[..i];
      var (t, k) := statuses[i].redact(o.text);
      o := Outcome(t, o.total + k, o.short + Shortfall(statuses[i].name, k, statuses[i].minimum));
    }
    assert statuses[..|statuses|] == statuses;
  }

  method CheckGuards(semantic: string, guards: seq<Guard>) returns (failures: seq<Failure>)
    ensures failures == GuardFailures(semantic, guards)
  {
    failures := [];
    for i := 0 to |guards|
      invariant failures == GuardFailures(semantic, guards[..i])
    {
      assert guards[..i + 1][..i] == guards[..i];
      if guards[i].search(semantic) {
        failures := failures + [Unredacted(guards[i].name)];
      }
    }
    assert guards[..|guards|] == guards;
  }

  method CheckStatuses(text: string, statuses: seq<StatusMask>) returns (failures: seq<Failure>)
    ensures failures == StatusFailures(text, statuses)
  {
    failures := [];
    for i := 0 to |statuses|
      invariant failures == StatusFailures(text, statuses[..i])
    {
      assert statuses[..i + 1][..i] == statuses[..i];
      if statuses[i].unredacted(text) {
        failures := failures + [Unredacted(statuses[i].name)];
      }
    }
    assert statuses[..|statuses|] == statuses;
  }

  /** `redact_text`, the publication gate. */
  method RedactText(text: string, c: Contract) returns (out: string, failures: seq<Failure>)
    ensures out == Sanitized(text, c).text
    ensures failures == CountFailures(Sanitized(text, c), c) + Residual(out, c)
  {
    var masked := ApplyMasks(text, c.masks);
    var o := ApplyStatuses(masked, c.statuses);
    out, failures := o.text, o.short;
    if o.total < c.minimum {
      failures := failures + [TooFewInAll(o.total, c.minimum)];
    }
    var guardFailures := CheckGuards(StripStyles(out), c.guards);
    var statusFailures := CheckStatuses(out, c.statuses);
    Assoc(failures, guardFailures, statusFailures);
    failures := failures + guardFailures + statusFailures;
  }

  function MaskedLine(line: string, masks: seq<Mask>): string { AfterMasks(line, masks).text }

  function MaskedLines(lines: seq<string>, masks: seq<Mask>): seq<string> {
    seq(|lines|, i requires 0 <= i < |lines| => MaskedLine(lines[i], masks))
  }

  method MaskLines(lines: seq<string>, masks: seq<Mask>) returns (out: seq<string>)
    ensures out == MaskedLines(lines, masks)
  {
    out := [];
    for i := 0 to |lines|
      invariant out == MaskedLines(lines[..i], masks)
    {
      var line := ApplyMasks(lines[i], masks);
      out := out + [line.text];
    }
    assert lines[..|lines|] == lines;
  }

  /** The lines a frame is compared by: none at all when an identity remains. */
  function ComparedLines(text: string, c: Contract, comparison: seq<Mask>): seq<string> {
    var out := Sanitized(text, c).text;
    if Residual(out, c) != [] then [] else MaskedLines(PlainLines(out), comparison)
  }

  /** `sanitize_frame_for_comparison`: no counts, and no lines at all when an identity remains. */
  method SanitizeForComparison(text: string, c: Contract, comparison: seq<Mask>)
    returns (lines: seq<string>, failures: seq<Failure>)
    ensures failures == Residual(Sanitized(text, c).text, c)
    ensures lines == ComparedLines(text, c, comparison)
  {
    var masked := ApplyMasks(text, c.masks);
    var o := ApplyStatuses(masked, c.statuses);
    var guardFailures := CheckGuards(StripStyles(o.text), c.guards);
    var statusFailures := CheckStatuses(o.text, c.statuses);
    failures := guardFailures + statusFailures;
    lines := [];
    if failures == [] {
      lines := MaskLines(PlainLines(o.text), comparison);
    }
  }

  lemma {:induction false} ShortfallsNameNoIdentity(o: Outcome, statuses: seq<StatusMask>)
    requires forall f :: f in o.short ==> !f.Unredacted?
    ensures forall f :: f in AfterStatuses(o, statuses).short ==> !f.Unredacted?
    decreases |statuses|
  {
    if statuses != [] {
      ShortfallsNameNoIdentity(o, statuses[..|statuses| - 1]);
    }
  }

  lemma {:induction false} MaskShortfallsNameNoIdentity(text: string, masks: seq<Mask>)
    ensures forall f :: f in AfterMasks(text, masks).short ==> !f.Unredacted?
  {
    if masks != [] {
      MaskShortfallsNameNoIdentity(text, masks[..|masks| - 1]);
    }
  }

  /** Publication and comparison agree on residual identities: comparison refuses a raw frame exactly when
      publication would report an unredacted identity in it, so a frame that publishes without any failure
      compares without one. The converse fails only for match counts. */
  lemma PublicationImpliesComparison(text: string, c: Contract)
    ensures var failures := CountFailures(Sanitized(text, c), c) + Residual(Sanitized(text, c).text, c);
            && (failures == [] ==> Residual(Sanitized(text, c).text, c) == [])
            && (Residual(Sanitized(text, c).text, c) == [] <==> forall f :: f in failures ==> !f.Unredacted?)
  {
    MaskShortfallsNameNoIdentity(text, c.masks);
    ShortfallsNameNoIdentity(AfterMasks(text, c.masks), c.statuses);
    ResidualNamesIdentities(Sanitized(text, c).text, c);
    var counts, residual := CountFailures(Sanitized(text, c), c), Residual(Sanitized(text, c).text, c);
    assert forall f :: f in counts ==> !f.Unredacted?;
    assert forall f :: f in counts + residual <==> f in counts || f in residual;
    if residual != [] {
      assert residual[0] in counts + residual;
    }
  }

  lemma {:induction false} GuardFailuresNameIdentities(semantic: string, guards: seq<Guard>)
    ensures forall f :: f in GuardFailures(semantic, guards) ==> f.Unredacted?
    ensures GuardFailures(semantic, guards) == [] <==> forall g :: g in guards ==> !g.search(semantic)
  {
    if guards != [] {
      var n := |guards| - 1;
      GuardFailuresNameIdentities(semantic, guards[..n]);
      assert guards == guards[..n] + [guards[n]];
    }
  }

  lemma {:induction false} StatusFailuresNameIdentities(text: string, statuses: seq<StatusMask>)
    ensures forall f :: f in StatusFailures(text, statuses) ==> f.Unredacted?
    ensures StatusFailures(text, statuses) == [] <==> forall s :: s in statuses ==> !s.unredacted(text)
    decreases |statuses|
  {
    if statuses != [] {
      var n := |statuses| - 1;
      StatusFailuresNameIdentities(text, statuses[..n]);
      assert statuses == statuses[..n] + [statuses[n]];
    }
  }

  /** No residual failure means: no guard matches the stripped text, and no footer's nearest identity is
      still in the clear. */
  lemma ResidualNamesIdentities(text: string, c: Contract)
    ensures forall f :: f in Residual(text, c) ==> f.Unredacted?
    ensures Residual(text, c) == [] <==>
            (forall g :: g in c.guards ==> !g.search(StripStyles(text)))
            && (forall s :: s in c.statuses ==> !s.unredacted(text))
  {
    GuardFailuresNameIdentities(StripStyles(text), c.guards);
    StatusFailuresNameIdentities(text, c.statuses);
  }

  // ---- What the substitutions come to, step by step -----------------------------------------------

  /** All substitutions of a contract in their order: the masks, then the dashboard masks. */
  function Substitutions(c: Contract): nat { |c.masks| + |c.statuses| }

  function Substitute(c: Contract, i: nat, text: string): (string, nat)
    requires i < Substitutions(c)
  {
    if i < |c.masks| then c.masks[i].subn(text) else c.statuses[i - |c.masks|].redact(text)
  }

  function NameOf(c: Contract, i: nat): string
    requires i < Substitutions(c)
  {
    if i < |c.masks| then c.masks[i].name else c.statuses[i - |c.masks|].name
  }

  function MinimumOf(c: Contract, i: nat): nat
    requires i < Substitutions(c)
  {
    if i < |c.masks| then c.masks[i].minimum else c.statuses[i - |c.masks|].minimum
  }

  /** What is reported when the `i`-th substitution makes `count` replacements: a shortfall, or nothing. */
  function Report(c: Contract, i: nat, count: nat): seq<Failure>
    requires i < Substitutions(c)
  {
    if count < MinimumOf(c, i) then [TooFew(NameOf(c, i), count, MinimumOf(c, i))] else []
  }

  /** `texts` are the text before, between and after the substitutions. */
  ghost predicate IsTrace(text: string, c: Contract, texts: seq<string>) {
    && |texts| == Substitutions(c) + 1 && texts[0] == text
    && forall i :: 0 <= i < Substitutions(c) ==> texts[i + 1] == Substitute(c, i, texts[i]).0
  }

  function CountsUpTo(c: Contract, texts: seq<string>, n: nat): nat
    requires n <= Substitutions(c) <= |texts|
  {
    if n == 0 then 0 else CountsUpTo(c, texts, n - 1) + Substitute(c, n - 1, texts[n - 1]).1
  }

  function ReportsUpTo(c: Contract, texts: seq<string>, n: nat): seq<Failure>
    requires n <= Substitutions(c) <= |texts|
  {
    if n == 0 then []
    else ReportsUpTo(c, texts, n - 1) + Report(c, n - 1, Substitute(c, n - 1, texts[n - 1]).1)
  }

  /** The outcome after the first `n` substitutions. */
  function Partial(text: string, c: Contract, n: nat): Outcome
    requires n <= Substitutions(c)
  {
    if n <= |c.masks| then AfterMasks(text, c.masks[..n])
    else AfterStatuses(AfterMasks(text, c.masks), c.statuses[..n - |c.masks|])
  }

  lemma PartialStep(text: string, c: Contract, n: nat)
    requires n < Substitutions(c)
    ensures var o := Partial(text, c, n);
            var (t, k) := Substitute(c, n, o.text);
            Partial(text, c, n + 1) == Outcome(t, o.total + k, o.short + Report(c, n, k))
  {
    if n < |c.masks| {
      assert c.masks[..n + 1][..n] == c.masks[..n];
    } else {
      var i := n - |c.masks|;
      assert c.statuses[..i + 1][..i] == c.statuses[..i];
      assert c.masks[..|c.masks|] == c.masks && c.statuses[..0] == [];
      assert Partial(text, c, n) == AfterStatuses(AfterMasks(text, c.masks), c.statuses[..i]);
    }
  }

  lemma {:induction false} PartialIsTraced(text: string, c: Contract, texts: seq<string>, n: nat)
    requires IsTrace(text, c, texts) && n <= Substitutions(c)
    ensures Partial(text, c, n) == Outcome(texts[n], CountsUpTo(c, texts, n), ReportsUpTo(c, texts, n))
  {
    if n > 0 {
      PartialIsTraced(text, c, texts, n - 1);
      PartialStep(text, c, n - 1);
    } else {
      assert c.masks[..0] == [];
    }
  }

  lemma AllPartial(text: string, c: Contract)
    ensures Partial(text, c, Substitutions(c)) == Sanitized(text, c)
  {
    assert c.masks[..|c.masks|] == c.masks && c.statuses[..|c.statuses|] == c.statuses;
  }

  /** Every substitution is applied to what the one before it left: the text is the last of them, the total
      is the sum of their counts, and each one below its own minimum is reported, in order. */
  lemma SubstitutionsRunInOrder(text: string, c: Contract, texts: seq<string>)
    requires IsTrace(text, c, texts)
    ensures var n := Substitutions(c);
            Sanitized(text, c) == Outcome(texts[n], CountsUpTo(c, texts, n), ReportsUpTo(c, texts, n))
  {
    PartialIsTraced(text, c, texts, Substitutions(c));
    AllPartial(text, c);
  }

  /** What one substitution makes of every text, and the later ones keep, holds of the result. */
  lemma {:induction false} EstablishedUpTo(text: string, c: Contract, holds: string -> bool, k: nat, n: nat)
    requires k < n <= Substitutions(c)
    requires forall t :: holds(Substitute(c, k, t).0)
    requires forall i, t :: k < i < Substitutions(c) && holds(t) ==> holds(Substitute(c, i, t).0)
    ensures holds(Partial(text, c, n).text)
  {
    PartialStep(text, c, n - 1);
    if k < n - 1 {
      EstablishedUpTo(text, c, holds, k, n - 1);
    }
  }

  /** What a mask or dashboard mask establishes, and the ones after it preserve, holds of the text that is
      published or compared. */
  lemma MasksAreApplied(text: string, c: Contract, holds: string -> bool, k: nat)
    requires k < Substitutions(c)
    requires forall t :: holds(Substitute(c, k, t).0)
    requires forall i, t :: k < i < Substitutions(c) && holds(t) ==> holds(Substitute(c, i, t).0)
    ensures holds(Sanitized(text, c).text)
  {
    EstablishedUpTo(text, c, holds, k, Substitutions(c));
    AllPartial(text, c);
  }

  /** A contract of one mask publishes what the mask makes of the text, and falls short exactly when it
      replaces fewer than its minimum or the contract's. */
  lemma OneMaskAlone(text: string, m: Mask, minimum: nat)
    ensures var c := Contract([m], [], [], minimum);
            var (out, count) := m.subn(text);
            && Sanitized(text, c).text == out
            && (TooFew(m.name, count, m.minimum) in CountFailures(Sanitized(text, c), c) <==> count < m.minimum)
            && (CountFailures(Sanitized(text, c), c) == [] <==> m.minimum <= count && minimum <= count)
  {
    var c := Contract([m], [], [], minimum);
    var texts := [text, m.subn(text).0];
    assert IsTrace(text, c, texts);
    SubstitutionsRunInOrder(text, c, texts);
    assert ReportsUpTo(c, texts, 1) == ReportsUpTo(c, texts, 0) + Report(c, 0, m.subn(text).1);
    assert CountsUpTo(c, texts, 1) == CountsUpTo(c, texts, 0) + m.subn(text).1;
  }

  lemma {:induction false} NothingReported(c: Contract, texts: seq<string>, n: nat)
    requires n <= Substitutions(c) <= |texts|
    ensures ReportsUpTo(c, texts, n) == [] <==>
            forall i :: 0 <= i < n ==> MinimumOf(c, i) <= Substitute(c, i, texts[i]).1
  {
    if n > 0 {
      NothingReported(c, texts, n - 1);
      var last := Report(c, n - 1, Substitute(c, n - 1, texts[n - 1]).1);
      assert |ReportsUpTo(c, texts, n)| == |ReportsUpTo(c, texts, n - 1)| + |last|;
    }
  }

  /** A frame is published without a failure exactly when every substitution reaches its own minimum, all
      together reach the contract's, no guard matches the stripped result and no dashboard identity is left. */
  lemma PublishedWithoutFailureExactly(text: string, c: Contract, texts: seq<string>)
    requires IsTrace(text, c, texts)
    ensures var out := texts[Substitutions(c)];
            CountFailures(Sanitized(text, c), c) + Residual(Sanitized(text, c).text, c) == [] <==>
            && (forall i :: 0 <= i < Substitutions(c) ==> MinimumOf(c, i) <= Substitute(c, i, texts[i]).1)
            && c.minimum <= CountsUpTo(c, texts, Substitutions(c))
            && (forall g :: g in c.guards ==> !g.search(StripStyles(out)))
            && (forall s :: s in c.statuses ==> !s.unredacted(out))
  {
    var n := Substitutions(c);
    SubstitutionsRunInOrder(text, c, texts);
    ResidualNamesIdentities(texts[n], c);
    NothingReported(c, texts, n);
  }

  /** Frames are compared line by line, without the line ends, and over each line the comparison masks run one
      after the other. */
  lemma ComparedLinesAreMasked(text: string, c: Contract, comparison: seq<Mask>, i: nat, texts: seq<string>)
    requires Residual(Sanitized(text, c).text, c) == [] && i < |SplitLines(Sanitized(text, c).text)|
    requires IsTrace(LineBody(SplitLines(Sanitized(text, c).text)[i]), Contract(comparison, [], [], 0), texts)
    ensures |ComparedLines(text, c, comparison)| == |SplitLines(Sanitized(text, c).text)|
    ensures ComparedLines(text, c, comparison)[i] == texts[|comparison|]
  {
    SubstitutionsRunInOrder(LineBody(SplitLines(Sanitized(text, c).text)[i]), Contract(comparison, [], [], 0), texts);
  }
}
