/** The comparison with its real sanitizer: what exit status 0 says of the frames on both sides. */
module ComparedFrames {
  import opened AnsiEscape
  import opened RedactionContracts
  import opened FrameDiff
  import Allowlist
  import Fingerprint

  /** The frames are prepared by `sanitize_frame_for_comparison`, under the contract and the comparison masks
      of their key. */
  ghost predicate Instrumented(inp: Inputs, contracts: string -> Contract, masks: string -> seq<Mask>) {
    forall key, text :: inp.rulesFor(key).Some? ==>
      inp.rulesFor(key).value.prepare(text)
      == Prepared(ComparedLines(text, contracts(key), masks(key)),
                  Residual(Sanitized(text, contracts(key)).text, contracts(key)))
  }

  /** No identity guard and no dashboard of the contract finds an identity in the sanitized frame. */
  ghost predicate Clear(text: string, c: Contract) {
    var out := Sanitized(text, c).text;
    && (forall g :: g in c.guards ==> !g.search(StripStyles(out)))
    && (forall s :: s in c.statuses ==> !s.unredacted(out))
  }

  /** The allowlist holds the fingerprint under the frame's key. */
  predicate ReviewedAs(inp: Inputs, key: string, fingerprint: string) {
    Allowlist.Entry(key, fingerprint) in Allowlist.ReadLines(inp.allowlist)
  }

  /** Exit status 0 means of every frame that it is on both sides, that neither sanitized side shows an
      identity, and that the masked lines are equal or their fingerprint was reviewed. */
  lemma AcceptedFramesAreClear(inp: Inputs, contracts: string -> Contract, masks: string -> seq<Mask>, f: string)
    requires Instrumented(inp, contracts, masks) && Accepts(inp) && f in InputFrames(inp)
    ensures f in inp.golden.value && f in inp.ours.value
    ensures var key := FrameKey(inp.scenario, f);
            var golden, ours := inp.golden.value[f], inp.ours.value[f];
            var g, o := ComparedLines(golden, contracts(key), masks(key)),
                        ComparedLines(ours, contracts(key), masks(key));
            && Clear(golden, contracts(key)) && Clear(ours, contracts(key))
            && (g == o || ReviewedAs(inp, key, inp.hash(Fingerprint.Payload(g, o))))
  {
    var entries :| Allowlist.Lists(Allowlist.ReadLines(inp.allowlist), entries) && Exact(SetupOf(inp, entries));
    var s := SetupOf(inp, entries);
    assert RulesUsable(inp, f);
    assert GoodPair(s, f);
    var c := contracts(FrameKey(inp.scenario, f));
    assert s.rules[f] == inp.rulesFor(FrameKey(inp.scenario, f)).value;
    ResidualNamesIdentities(Sanitized(inp.golden.value[f], c).text, c);
    ResidualNamesIdentities(Sanitized(inp.ours.value[f], c).text, c);
  }

  /** One identity left on either side is enough for exit status 1. */
  lemma IdentityFailsTheComparison(inp: Inputs, contracts: string -> Contract, masks: string -> seq<Mask>, f: string)
    requires Instrumented(inp, contracts, masks) && HasFrames(inp) && f in InputFrames(inp)
    requires var c := contracts(FrameKey(inp.scenario, f));
             (f in inp.golden.value && !Clear(inp.golden.value[f], c))
                 || (f in inp.ours.value && !Clear(inp.ours.value[f], c))
    ensures !Accepts(inp)
  {
    if Accepts(inp) {
      AcceptedFramesAreClear(inp, contracts, masks, f);
    }
  }
}
