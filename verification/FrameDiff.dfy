/** The verdict of comparing two frame directories: clean, exactly the reviewed differences, or neither. */
module FrameDiff {
  import opened Text
  import Allowlist
  import Fingerprint
  import RedactionContracts

  /** A frame prepared for comparison: its masked lines, or the residual identities that forbid it. */
  datatype Prepared = Prepared(lines: seq<string>, failures: seq<RedactionContracts.Failure>)

  /** The mask file's rules for one frame key. */
  datatype FrameRules = FrameRules(declared: bool, prepare: string -> Prepared)

  /** Directory contents by file name (`None` when it is no directory), the allowlist's lines, the key
      prefix of the golden directory, and what the mask file and the hash function do. */
  datatype Inputs = Inputs(golden: Option<map<string, string>>, ours: Option<map<string, string>>,
                           allowlist: seq<string>, scenario: string, tracked: bool,
                           rulesFor: string -> Option<FrameRules>, hash: string -> string)

  predicate IsFrame(name: string) { Allowlist.EndsWith(name, ".ansi") }

  function Frames(dir: map<string, string>): set<string> { set f | f in dir && IsFrame(f) }

  function FrameKey(scenario: string, name: string): string {
    if scenario == [] then name else scenario + "/" + name
  }

  function TrimSlashes(s: string): string {
    if s != [] && s[|s| - 1] == '/' then TrimSlashes(s[..|s| - 1]) else s
  }

  /** `frame_key(dir, "").rstrip("/")`. */
  function Scope(scenario: string): string { TrimSlashes(FrameKey(scenario, "")) }

  /** `key.rsplit("/", 1)[0]`. */
  function KeyScope(key: string): string { BeforeLastSlash(key, |key|) }

  function BeforeLastSlash(key: string, n: nat): string
    requires n <= |key|
  {
    if n == 0 then key else if key[n - 1] == '/' then key[..n - 1] else BeforeLastSlash(key, n - 1)
  }

  /** A frame's key is the scenario and its file name, and the scenario can be read off it again. */
  lemma {:induction false} ScopeOfKey(scenario: string, name: string, n: nat)
    requires '/' !in name && |scenario| < n <= |scenario| + 1 + |name|
    ensures BeforeLastSlash(scenario + "/" + name, n) == scenario
  {
    var key := scenario + "/" + name;
    if n - 1 > |scenario| {
      assert key[n - 1] == name[n - 2 - |scenario|];
      ScopeOfKey(scenario, name, n - 1);
    } else {
      assert key[|scenario|] == '/' && key[..|scenario|] == scenario;
    }
  }

  /** The entries that a comparison must use are those whose key is its scenario and a file name. */
  lemma KeysInScope(scenario: string, other: string, name: string)
    requires '/' !in name && scenario != [] && scenario[|scenario| - 1] != '/'
    ensures FrameKey(scenario, name) == scenario + "/" + name
    ensures KeyScope(other + "/" + name) == Scope(scenario) <==> other == scenario
  {
    ScopeOfKey(other, name, |other + "/" + name|);
    var dir := scenario + "/";
    assert FrameKey(scenario, "") == dir && dir[|dir| - 1] == '/' && dir[..|dir| - 1] == scenario;
    assert TrimSlashes(scenario) == scenario && TrimSlashes(dir) == TrimSlashes(scenario);
    assert BeforeLastSlash(other + "/" + name, |other + "/" + name|) == other;
  }

  datatype Verdict = Clean | Allowlisted | Missing | EmptyFrame | Unsafe | Divergent

  /** What one pair of frames comes to, given its rules and the reviewed fingerprint of its key. */
  function PairVerdict(golden: string, ours: string, rules: FrameRules, reviewed: Option<string>,
                       hash: string -> string): Verdict {
    if golden == [] || ours == [] then EmptyFrame
    else
      var g, o := rules.prepare(golden), rules.prepare(ours);
      if g.failures != [] || o.failures != [] then Unsafe
      else if g.lines == o.lines then Clean
      else if reviewed == Some(hash(Fingerprint.Payload(g.lines, o.lines))) then Allowlisted
      else Divergent
  }

  function Lookup<V>(m: map<string, V>, k: string): Option<V> { if k in m then Some(m[k]) else None }

  /** The directories, contracts and allowlist a comparison starts from. */
  datatype Setup = Setup(golden: map<string, string>, ours: map<string, string>, entries: map<string, string>,
                         scenario: string, rules: map<string, FrameRules>, hash: string -> string)

  function AllFrames(s: Setup): set<string> { Frames(s.golden) + Frames(s.ours) }

  predicate Ready(s: Setup) { forall f :: f in AllFrames(s) ==> f in s.rules }

  function VerdictOf(s: Setup, f: string): Verdict
    requires Ready(s) && f in AllFrames(s)
  {
    if f !in Frames(s.golden) || f !in Frames(s.ours) then Missing
    else PairVerdict(s.golden[f], s.ours[f], s.rules[f], Lookup(s.entries, FrameKey(s.scenario, f)), s.hash)
  }

  /** An allowlist entry that this comparison must use. */
  predicate InScope(s: Setup, key: string) { key in s.entries && KeyScope(key) == Scope(s.scenario) }

  predicate Used(s: Setup, verdicts: map<string, Verdict>, key: string) {
    exists f :: f in verdicts && verdicts[f] == Allowlisted && FrameKey(s.scenario, f) == key
  }

  predicate Diverged(s: Setup, verdicts: map<string, Verdict>, key: string) {
    exists f :: f in verdicts && (verdicts[f] == Unsafe || verdicts[f] == Divergent) && FrameKey(s.scenario, f) == key
  }

  predicate IsGood(v: Verdict) { v == Clean || v == Allowlisted }

  // ---- What a clean comparison means ------------------------------------------------------------

  /** Both sides hold the frame, non-empty and without residual identities, and it is equal after masking
      or carries the reviewed fingerprint. */
  predicate GoodPair(s: Setup, f: string)
    requires Ready(s) && f in AllFrames(s)
  {
    && f in s.golden && f in s.ours
    && s.golden[f] != [] && s.ours[f] != []
    && (var g, o := s.rules[f].prepare(s.golden[f]), s.rules[f].prepare(s.ours[f]);
        && g.failures == [] && o.failures == []
        && (g.lines == o.lines || Reviewed(s, f, g.lines, o.lines)))
  }

  predicate Reviewed(s: Setup, f: string, golden: seq<string>, ours: seq<string>) {
    && FrameKey(s.scenario, f) in s.entries
    && s.entries[FrameKey(s.scenario, f)] == s.hash(Fingerprint.Payload(golden, ours))
  }

  /** The entry names a frame whose two sides differ after masking. */
  predicate NamesDifference(s: Setup, key: string)
    requires Ready(s)
  {
    exists f :: f in AllFrames(s) && FrameKey(s.scenario, f) == key && f in s.golden && f in s.ours
             && s.rules[f].prepare(s.golden[f]).lines != s.rules[f].prepare(s.ours[f]).lines
  }

  ghost predicate Exact(s: Setup)
    requires Ready(s)
  {
    && (forall f :: f in AllFrames(s) ==> GoodPair(s, f))
    && (forall key :: InScope(s, key) ==> NamesDifference(s, key))
  }

  // ---- The comparison loops ---------------------------------------------------------------------

  predicate SomeBad(verdicts: map<string, Verdict>) { exists f :: f in verdicts && !IsGood(verdicts[f]) }

  /** The verdicts so far and the three accumulators of the loop. */
  datatype Tally = Tally(verdicts: map<string, Verdict>, divergent: bool, matched: set<string>, diverged: set<string>)

  function Counted(scenario: string, t: Tally, f: string, v: Verdict): Tally {
    Tally(t.verdicts[f := v], t.divergent || !IsGood(v),
          if v == Allowlisted then t.matched + {FrameKey(scenario, f)} else t.matched,
          if v == Unsafe || v == Divergent then t.diverged + {FrameKey(scenario, f)} else t.diverged)
  }

  /** The accumulators say what the verdicts say. */
  ghost predicate Tallied(s: Setup, t: Tally) {
    && (t.divergent <==> SomeBad(t.verdicts))
    && (forall key :: key in t.matched <==> Used(s, t.verdicts, key))
    && (forall key :: key in t.diverged <==> Diverged(s, t.verdicts, key))
  }

  lemma OneMoreVerdict(s: Setup, t: Tally, f: string, v: Verdict)
    requires f !in t.verdicts && Tallied(s, t)
    ensures Tallied(s, Counted(s.scenario, t, f, v))
  {
    var before, after := t.verdicts, t.verdicts[f := v];
    assert forall g :: g in before ==> g in after && after[g] == before[g];
    assert f in after && after[f] == v;
  }

  /** A listing of the frames without repetition, as `sorted` gives one. */
  ghost predicate Lists(order: seq<string>, frames: set<string>) {
    && (forall f :: f in order <==> f in frames)
    && (forall i, j :: 0 <= i < j < |order| ==> order[i] != order[j])
  }

  function TallyOf(s: Setup, order: seq<string>): Tally
    requires Ready(s) && forall f :: f in order ==> f in AllFrames(s)
  {
    if order == [] then Tally(map[], false, {}, {})
    else
      var n := |order| - 1;
      Counted(s.scenario, TallyOf(s, order[..n]), order[n], VerdictOf(s, order[n]))
  }

  lemma {:induction false} TallyIsRight(s: Setup, order: seq<string>)
    requires Ready(s) && forall f :: f in order ==> f in AllFrames(s)
    requires forall i, j :: 0 <= i < j < |order| ==> order[i] != order[j]
    ensures var t := TallyOf(s, order);
            && (forall f :: f in t.verdicts <==> f in order)
            && (forall f :: f in t.verdicts ==> t.verdicts[f] == VerdictOf(s, f))
            && Tallied(s, t)
  {
    if order != [] {
      var n := |order| - 1;
      TallyIsRight(s, order[..n]);
      assert order == order[..n] + [order[n]];
      OneMoreVerdict(s, TallyOf(s, order[..n]), order[n], VerdictOf(s, order[n]));
    }
  }

  /** The classification loop. */
  method ClassifyFrames(s: Setup, order: seq<string>) returns (t: Tally)
    requires Ready(s) && forall f :: f in order ==> f in AllFrames(s)
    ensures t == TallyOf(s, order)
  {
    var verdicts, divergent, matched, diverged := map[], false, {}, {};
    for i := 0 to |order|
      invariant Tally(verdicts, divergent, matched, diverged) == TallyOf(s, order[..i])
    {
      var f := order[i];
      assert order[..i + 1][..i] == order[..i];
      var verdict := ClassifyOne(s, f);
      verdicts := verdicts[f := verdict];
      divergent := divergent || !IsGood(verdict);
      if verdict == Allowlisted {
        matched := matched + {FrameKey(s.scenario, f)};
      }
      if verdict == Unsafe || verdict == Divergent {
        diverged := diverged + {FrameKey(s.scenario, f)};
      }
    }
    assert order[..|order|] == order;
    t := Tally(verdicts, divergent, matched, diverged);
  }

  predicate SomeStale(s: Setup, verdicts: map<string, Verdict>) {
    exists key :: key in s.entries && InScope(s, key) && !Used(s, verdicts, key) && !Diverged(s, verdicts, key)
  }

  /** Both loops: the verdicts, and whether any frame or entry is amiss. */
  method Classify(s: Setup, order: seq<string>) returns (verdicts: map<string, Verdict>, divergent: bool)
    requires Ready(s) && Lists(order, AllFrames(s))
    ensures verdicts.Keys == AllFrames(s)
    ensures forall f :: f in verdicts ==> verdicts[f] == VerdictOf(s, f)
    ensures divergent <==> SomeBad(verdicts) || SomeStale(s, verdicts)
  {
    var t := ClassifyFrames(s, order);
    TallyIsRight(s, order);
    verdicts := t.verdicts;
    var stale := StaleInScope(s, t.matched, t.diverged);
    divergent := t.divergent || stale;
  }

  method ClassifyOne(s: Setup, f: string) returns (v: Verdict)
    requires Ready(s) && f in AllFrames(s)
    ensures v == VerdictOf(s, f)
  {
    if f !in Frames(s.golden) || f !in Frames(s.ours) {
      return Missing;
    }
    var golden, ours := s.golden[f], s.ours[f];
    if golden == [] || ours == [] {
      return EmptyFrame;
    }
    var g, o := s.rules[f].prepare(golden), s.rules[f].prepare(ours);
    if g.failures != [] || o.failures != [] {
      return Unsafe;
    }
    if g.lines == o.lines {
      return Clean;
    }
    var key := FrameKey(s.scenario, f);
    if Lookup(s.entries, key) == Some(s.hash(Fingerprint.Payload(g.lines, o.lines))) {
      return Allowlisted;
    }
    return Divergent;
  }

  /** Whether some in-scope entry was neither matched nor already reported. */
  method StaleInScope(s: Setup, matched: set<string>, divergentKeys: set<string>) returns (stale: bool)
    ensures stale <==> exists key :: key in s.entries && InScope(s, key) && key !in matched && key !in divergentKeys
  {
    stale := false;
    var left := s.entries.Keys - matched - divergentKeys;
    ghost var all := left;
    while left != {}
      invariant left <= all
      invariant stale <==> exists key :: key in all - left && KeyScope(key) == Scope(s.scenario)
      decreases |left|
    {
      var key :| key in left;
      if KeyScope(key) == Scope(s.scenario) {
        assert key in all - (left - {key});
        stale := true;
      }
      left := left - {key};
    }
    assert all - left == all;
    if stale {
      ghost var key :| key in all - left && KeyScope(key) == Scope(s.scenario);
      assert InScope(s, key);
    }
  }

  lemma VerdictIsGood(s: Setup, f: string)
    requires Ready(s) && f in AllFrames(s)
    ensures IsGood(VerdictOf(s, f)) <==> GoodPair(s, f)
  {
  }

  /** No bad frame and no stale entry is the same as an exact comparison. */
  lemma CleanIsExact(s: Setup, verdicts: map<string, Verdict>)
    requires Ready(s) && verdicts.Keys == AllFrames(s)
    requires forall f :: f in verdicts ==> verdicts[f] == VerdictOf(s, f)
    ensures !SomeBad(verdicts) && !SomeStale(s, verdicts) <==> Exact(s)
  {
    forall f | f in AllFrames(s) ensures IsGood(verdicts[f]) <==> GoodPair(s, f) {
      VerdictIsGood(s, f);
    }
    if forall f :: f in AllFrames(s) ==> GoodPair(s, f) {
      forall key | InScope(s, key)
        ensures Used(s, verdicts, key) || Diverged(s, verdicts, key) <==> NamesDifference(s, key)
      {
        UsedNamesDifference(s, verdicts, key);
      }
    }
  }

  /** Among good pairs, an entry is matched exactly by the frames that differ after masking. */
  lemma UsedNamesDifference(s: Setup, verdicts: map<string, Verdict>, key: string)
    requires Ready(s) && verdicts.Keys == AllFrames(s)
    requires forall f :: f in verdicts ==> verdicts[f] == VerdictOf(s, f) && GoodPair(s, f) && IsGood(verdicts[f])
    ensures Used(s, verdicts, key) || Diverged(s, verdicts, key) <==> NamesDifference(s, key)
  {
    forall f | f in verdicts
      ensures verdicts[f] == Allowlisted <==>
              f in s.golden && f in s.ours
              && s.rules[f].prepare(s.golden[f]).lines != s.rules[f].prepare(s.ours[f]).lines
    {
      GoodVerdict(s, f);
    }
  }

  lemma GoodVerdict(s: Setup, f: string)
    requires Ready(s) && f in AllFrames(s) && GoodPair(s, f)
    ensures VerdictOf(s, f) == Allowlisted <==>
            f in s.golden && f in s.ours
            && s.rules[f].prepare(s.golden[f]).lines != s.rules[f].prepare(s.ours[f]).lines
  {
  }

  // ---- The whole comparison ---------------------------------------------------------------------

  predicate HasFrames(inp: Inputs) {
    inp.golden.Some? && inp.ours.Some? && Frames(inp.golden.value) != {} && Frames(inp.ours.value) != {}
  }

  function InputFrames(inp: Inputs): set<string>
    requires HasFrames(inp)
  {
    Frames(inp.golden.value) + Frames(inp.ours.value)
  }

  predicate RulesUsable(inp: Inputs, f: string) {
    var r := inp.rulesFor(FrameKey(inp.scenario, f));
    r.Some? && (inp.tracked ==> r.value.declared)
  }

  predicate AllRulesUsable(inp: Inputs)
    requires HasFrames(inp)
  {
    forall f :: f in InputFrames(inp) ==> RulesUsable(inp, f)
  }

  function SetupOf(inp: Inputs, entries: map<string, string>): (s: Setup)
    requires HasFrames(inp) && AllRulesUsable(inp)
    ensures Ready(s) && s.golden == inp.golden.value && s.ours == inp.ours.value && s.entries == entries
    ensures forall f :: f in InputFrames(inp) ==> s.rules[f] == inp.rulesFor(FrameKey(inp.scenario, f)).value
  {
    var frames := InputFrames(inp);
    assert forall f :: f in frames ==> RulesUsable(inp, f);
    Setup(inp.golden.value, inp.ours.value, entries, inp.scenario,
          map f | f in frames :: inp.rulesFor(FrameKey(inp.scenario, f)).value, inp.hash)
  }

  predicate AllowlistReadable(inp: Inputs) {
    && !Allowlist.HasMalformed(Allowlist.ReadLines(inp.allowlist))
    && !Allowlist.HasDuplicate(Allowlist.ReadLines(inp.allowlist))
  }

  /** The inputs are well formed and every frame and entry is accounted for. */
  ghost predicate Accepts(inp: Inputs) {
    && HasFrames(inp) && AllowlistReadable(inp) && AllRulesUsable(inp)
    && exists entries :: Allowlist.Lists(Allowlist.ReadLines(inp.allowlist), entries) && Exact(SetupOf(inp, entries))
  }

  lemma ListingIsUnique(lines: seq<Allowlist.Line>, a: map<string, string>, b: map<string, string>)
    requires Allowlist.Lists(lines, a) && Allowlist.Lists(lines, b)
    ensures a == b
  {
    assert forall k :: k in a ==> Allowlist.Entry(k, a[k]) in lines;
    assert forall k :: k in b ==> Allowlist.Entry(k, b[k]) in lines;
  }

  /** The preflight over all frame keys. */
  method CheckRules(inp: Inputs) returns (ok: bool)
    requires HasFrames(inp)
    ensures ok <==> AllRulesUsable(inp)
  {
    var left := InputFrames(inp);
    while left != {}
      invariant left <= InputFrames(inp)
      invariant forall f :: f in InputFrames(inp) - left ==> RulesUsable(inp, f)
      decreases |left|
    {
      var f :| f in left;
      if !RulesUsable(inp, f) {
        return false;
      }
      left := left - {f};
    }
    return true;
  }

  /** `main`, with `order` the sorted list of all frame names: the exit status is 0 exactly for accepted inputs, and
      1 otherwise. */
  method Compare(inp: Inputs, order: seq<string>) returns (exit: int)
    requires HasFrames(inp) ==> Lists(order, InputFrames(inp))
    ensures exit == if Accepts(inp) then 0 else 1
  {
    if !HasFrames(inp) {
      return 1;
    }
    var entries := Allowlist.LoadAllowlist(Allowlist.ReadLines(inp.allowlist));
    if entries.None? {
      return 1;
    }
    var usable := CheckRules(inp);
    if !usable {
      return 1;
    }
    var s := SetupOf(inp, entries.value);
    var verdicts, divergent := Classify(s, order);
    CleanIsExact(s, verdicts);
    assert divergent <==> !Exact(s);
    ExactOfThese(inp, entries.value);
    return if divergent then 1 else 0;
  }

  lemma ExactOfThese(inp: Inputs, entries: map<string, string>)
    requires HasFrames(inp) && AllowlistReadable(inp) && AllRulesUsable(inp)
    requires Allowlist.Lists(Allowlist.ReadLines(inp.allowlist), entries)
    ensures Accepts(inp) <==> Exact(SetupOf(inp, entries))
  {
    if Accepts(inp) {
      var other :| Allowlist.Lists(Allowlist.ReadLines(inp.allowlist), other) && Exact(SetupOf(inp, other));
      ListingIsUnique(Allowlist.ReadLines(inp.allowlist), entries, other);
    }
  }

  /** A reviewed entry accepts one pair of frames: if it accepts two different pairs, their payloads are a
      collision of the hash. */
  lemma EntryPinsOnePair(hash: string -> string, digest: string, golden: seq<string>, ours: seq<string>,
                         golden2: seq<string>, ours2: seq<string>)
    requires hash(Fingerprint.Payload(golden, ours)) == digest && hash(Fingerprint.Payload(golden2, ours2)) == digest
    ensures (golden == golden2 && ours == ours2)
            || (Fingerprint.Payload(golden, ours) != Fingerprint.Payload(golden2, ours2)
                && hash(Fingerprint.Payload(golden, ours)) == hash(Fingerprint.Payload(golden2, ours2)))
  {
    if Fingerprint.Payload(golden, ours) == Fingerprint.Payload(golden2, ours2) {
      Fingerprint.PayloadIsInjective(golden, ours, golden2, ours2);
    }
  }
}
