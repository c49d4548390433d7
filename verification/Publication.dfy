/** The capture run and its all-or-nothing publication: frames are staged, checked, and merged into the
    destination only when every one of them has passed. */
module Publication {
  import opened Text
  import opened KeyScript

  /** What the mask file holds for one frame name. */
  datatype Contracts = Contracts(declared: bool, vacuous: bool, hasRequired: bool,
                                 stateOk: string -> bool, redact: string -> Redaction)

  datatype Redaction = Redaction(text: string, ok: bool)

  /** How a line that takes no frame ends: done, failed (also by an error the run catches), or with an
      uncaught error. */
  datatype Act = Done | Failed | Crashed

  /** The options of a run, and what the child, the terminal and the file system do at each line.
      `ready` stands for the version, credential and staging checks, `started` for the child's start. */
  datatype Env = Env(lines: seq<string>, masks: bool, tracked: bool, requireState: bool, ready: bool, started: bool,
                     load: string -> Option<Contracts>,
                     act: nat -> Act, pumped: nat -> bool, visible: nat -> bool, screen: nat -> string,
                     frameLeaks: string -> bool, streamLeaks: nat -> bool, writable: nat -> bool)

  predicate ChecksState(env: Env) { env.tracked || env.requireState }

  /** The names whose contracts are loaded before the run. */
  function Loaded(env: Env): seq<string> { if env.masks then Names(Expected(env.lines)) else [] }

  predicate Loadable(env: Env) { forall k :: 0 <= k < |Loaded(env)| ==> env.load(Loaded(env)[k]).Some? }

  predicate Sound(env: Env, name: string) {
    && env.load(name).Some?
    && (env.tracked ==> env.load(name).value.declared && !env.load(name).value.vacuous)
    && (ChecksState(env) ==> env.load(name).value.hasRequired)
  }

  /** Everything checked before the child is started. */
  predicate Preflight(env: Env) {
    && (ChecksState(env) ==> env.masks)
    && (forall k :: 0 <= k < |Loaded(env)| ==> Sound(env, Loaded(env)[k]))
    && env.ready
  }

  datatype Stage = Stage(count: nat, staged: map<string, string>, written: seq<string>)

  /** After a line: go on, stop with a reported failure, or stop with an uncaught error. */
  datatype Step = Go(stage: Stage) | Stopped(stage: Stage) | Raised

  predicate Rejected(env: Env, name: string, text: string)
    requires env.load(name).Some?
  {
    (ChecksState(env) && !env.load(name).value.stateOk(text)) || !env.load(name).value.redact(text).ok
  }

  function Stored(env: Env, name: string, text: string): string {
    if env.masks && env.load(name).Some? then env.load(name).value.redact(text).text else text
  }

  function TakeFrame(env: Env, i: nat, st: Stage): Step
    requires i < |env.lines| && Loadable(env)
  {
    if !env.pumped(i) || !env.visible(i) then Stopped(st)
    else
      var name, text, next := FrameName(st.count + 1, Value(env.lines[i])), env.screen(i), st.(count := st.count + 1);
      if env.frameLeaks(text) || env.streamLeaks(i) then Stopped(next)
      else if (ChecksState(env) || env.masks) && name !in Loaded(env) then Raised
      else if env.masks && Rejected(env, name, text) then Stopped(next)
      else if !env.writable(i) then Stopped(next)
      else Go(next.(staged := st.staged[name := Stored(env, name, text)], written := st.written + [name]))
  }

  function RunLine(env: Env, i: nat, st: Stage): Step
    requires i < |env.lines| && Loadable(env)
  {
    if TakesFrame(env.lines[i]) then TakeFrame(env, i, st)
    else
      match env.act(i)
      case Done => Go(st)
      case Failed => Stopped(st)
      case Crashed => Raised
  }

  /** The first `n` lines of the script. */
  function RunLines(env: Env, n: nat): Step
    requires n <= |env.lines| && Loadable(env)
  {
    if n == 0 then Go(Stage(0, map[], []))
    else
      match RunLines(env, n - 1)
      case Go(st) => RunLine(env, n - 1, st)
      case stop => stop
  }

  /** The frame passed the guard and, where masks are given, the state and redaction checks, and this is
      the text they were passed for. */
  predicate Passed(env: Env, name: string, stored: string, i: nat)
    requires i < |env.lines|
  {
    var text := env.screen(i);
    && TakesFrame(env.lines[i])
    && !env.frameLeaks(text) && !env.streamLeaks(i)
    && (env.masks ==> env.load(name).Some? && !Rejected(env, name, text))
    && stored == Stored(env, name, text)
  }

  /** The file is the frame of the very line its name gives, by number and value. */
  predicate NamedBy(env: Env, name: string, i: nat)
    requires i < |env.lines|
  {
    name == FrameName(|Taken(env.lines[..i + 1])|, Value(env.lines[i]))
  }

  ghost predicate Vetted(env: Env, name: string, stored: string) {
    exists i :: 0 <= i < |env.lines| && NamedBy(env, name, i) && Passed(env, name, stored, i)
  }

  ghost predicate AllVetted(env: Env, staged: map<string, string>) {
    forall name :: name in staged ==> Vetted(env, name, staged[name])
  }

  lemma TakenOneMore(lines: seq<string>, n: nat)
    requires n < |lines|
    ensures Taken(lines[..n + 1]) == Taken(lines[..n]) + (if TakesFrame(lines[n]) then [Value(lines[n])] else [])
    ensures var taken, line := Taken(lines[..n]), lines[n];
            Names(taken + [Value(line)]) == Names(taken) + [FrameName(|taken| + 1, Value(line))]
  {
    assert lines[..n + 1][..n] == lines[..n];
  }

  /** The stage after the first `n` lines: exactly their frames, under their names, and each has passed. */
  ghost predicate Staged(env: Env, n: nat, st: Stage)
    requires n <= |env.lines|
  {
    && st.count == |st.written| && st.written == Names(Taken(env.lines[..n]))
    && (forall f :: f in st.staged <==> f in st.written)
    && AllVetted(env, st.staged)
  }

  lemma FrameKeeps(env: Env, i: nat, st: Stage)
    requires i < |env.lines| && Loadable(env) && TakesFrame(env.lines[i])
    requires Staged(env, i, st) && TakeFrame(env, i, st).Go?
    ensures Staged(env, i + 1, TakeFrame(env, i, st).stage)
  {
    TakenOneMore(env.lines, i);
    var name := FrameName(st.count + 1, Value(env.lines[i]));
    var stored := Stored(env, name, env.screen(i));
    assert NamedBy(env, name, i) && Passed(env, name, stored, i);
    assert Vetted(env, name, stored);
  }

  /** While the run goes on, it has written exactly the frames of the lines so far, under their names,
      and each has passed. */
  lemma {:induction false} RunKeeps(env: Env, n: nat)
    requires n <= |env.lines| && Loadable(env) && RunLines(env, n).Go?
    ensures Staged(env, n, RunLines(env, n).stage)
  {
    if n > 0 {
      RunKeeps(env, n - 1);
      TakenOneMore(env.lines, n - 1);
      if TakesFrame(env.lines[n - 1]) {
        FrameKeeps(env, n - 1, RunLines(env, n - 1).stage);
      }
    }
  }

  lemma {:induction false} TakenGrows(lines: seq<string>, m: nat, n: nat)
    requires m <= n <= |lines|
    ensures |Taken(lines[..m])| <= |Taken(lines[..n])|
    ensures m < n && TakesFrame(lines[n - 1]) ==> |Taken(lines[..m])| < |Taken(lines[..n])|
    decreases n
  {
    if m < n {
      assert lines[..n][..n - 1] == lines[..n - 1];
      TakenGrows(lines, m, n - 1);
    }
  }

  /** Frame lines have different numbers. */
  lemma NumbersDiffer(lines: seq<string>, i: nat, j: nat)
    requires i < j < |lines| && TakesFrame(lines[j])
    ensures |Taken(lines[..i + 1])| != |Taken(lines[..j + 1])|
  {
    var m, n := i + 1, j + 1;
    TakenGrows(lines, m, n);
  }

  /** A name belongs to one frame line only, so its text is that line's frame and no other's. */
  lemma NamedByOneLine(env: Env, name: string, i: nat, j: nat)
    requires i < |env.lines| && j < |env.lines| && TakesFrame(env.lines[i]) && TakesFrame(env.lines[j])
    requires NamedBy(env, name, i) && NamedBy(env, name, j)
    ensures i == j
  {
    FrameNameInjective(|Taken(env.lines[..i + 1])|, Value(env.lines[i]), |Taken(env.lines[..j + 1])|,
                       Value(env.lines[j]));
    if i < j {
      NumbersDiffer(env.lines, i, j);
    } else if j < i {
      NumbersDiffer(env.lines, j, i);
    }
  }

  /** What is published, or staged, under a name is determined by the run. */
  lemma VettedIsUnique(env: Env, name: string, a: string, b: string)
    requires Vetted(env, name, a) && Vetted(env, name, b)
    ensures a == b
  {
    var i :| 0 <= i < |env.lines| && NamedBy(env, name, i) && Passed(env, name, a, i);
    var j :| 0 <= j < |env.lines| && NamedBy(env, name, j) && Passed(env, name, b, j);
    NamedByOneLine(env, name, i, j);
  }

  lemma PreflightLoads(env: Env)
    requires Preflight(env)
    ensures Loadable(env)
  {
    forall k | 0 <= k < |Loaded(env)| ensures env.load(Loaded(env)[k]).Some? {
      assert Sound(env, Loaded(env)[k]);
    }
  }

  /** The run reached its end and wrote as many frames as were expected. */
  predicate Completes(env: Env) {
    && Preflight(env) && Loadable(env) && env.started
    && RunLines(env, |env.lines|).Go?
    && RunLines(env, |env.lines|).stage.written != []
    && |RunLines(env, |env.lines|).stage.written| == |Expected(env.lines)|
  }

  /** A complete run wrote exactly the expected frames, and the script has no bare `frame` line. */
  lemma CompleteRunsWriteTheExpected(env: Env)
    requires Completes(env)
    ensures var st := RunLines(env, |env.lines|).stage;
            && st.written == Names(Expected(env.lines)) && !HasBare(env.lines)
            && (forall f :: f in st.staged <==> f in st.written)
            && AllVetted(env, st.staged)
  {
    RunKeeps(env, |env.lines|);
    assert env.lines[..|env.lines|] == env.lines;
    TakenVersusExpected(env.lines);
  }

  // ---- Which runs are complete --------------------------------------------------------------------

  /** The file name of the frame that line `i` takes: its number among the frames, and its value. */
  function NameAt(env: Env, i: nat): string
    requires i < |env.lines|
  {
    FrameName(|Taken(env.lines[..i + 1])|, Value(env.lines[i]))
  }

  /** Nothing stops the run at this line: the terminal is there and shows something, no credential is on the
      screen or in the raw output, the required state holds, the redaction covers the frame, and it can be
      written; or the action of the line succeeds. */
  predicate LineGoes(env: Env, i: nat)
    requires i < |env.lines|
  {
    if TakesFrame(env.lines[i]) then
      && env.pumped(i) && env.visible(i)
      && !env.frameLeaks(env.screen(i)) && !env.streamLeaks(i)
      && (env.masks ==>
            env.load(NameAt(env, i)).Some?
            && ((env.tracked || env.requireState) ==> env.load(NameAt(env, i)).value.stateOk(env.screen(i)))
            && env.load(NameAt(env, i)).value.redact(env.screen(i)).ok)
      && env.writable(i)
    else env.act(i).Done?
  }

  lemma {:induction false} TakenPrefix(lines: seq<string>, n: nat, m: nat)
    requires n <= m <= |lines|
    ensures |Taken(lines[..n])| <= |Taken(lines[..m])|
    ensures Taken(lines[..m])[..|Taken(lines[..n])|] == Taken(lines[..n])
    decreases m
  {
    if n < m {
      TakenPrefix(lines, n, m - 1);
      TakenOneMore(lines, m - 1);
    }
  }

  /** The names of the frames are those of the script, in a script without bare `frame` lines. */
  lemma NameIsExpected(env: Env, i: nat)
    requires i < |env.lines| && TakesFrame(env.lines[i]) && !HasBare(env.lines)
    ensures NameAt(env, i) in Names(Expected(env.lines))
  {
    TakenVersusExpected(env.lines);
    TakenOneMore(env.lines, i);
    TakenPrefix(env.lines, i + 1, |env.lines|);
    assert env.lines[..|env.lines|] == env.lines;
    var k := |Taken(env.lines[..i + 1])| - 1;
    assert Taken(env.lines)[..k + 1][k] == Taken(env.lines[..i + 1])[k] == Value(env.lines[i]);
    assert Names(Expected(env.lines))[k] == NameAt(env, i);
  }

  /** The contract of an expected frame can be loaded; for a tracked directory it is declared and says
      something; and it requires a state where states are checked. */
  predicate ContractIsFit(env: Env, name: string) {
    && env.load(name).Some?
    && (env.tracked ==> env.load(name).value.declared && !env.load(name).value.vacuous)
    && (env.tracked || env.requireState ==> env.load(name).value.hasRequired)
  }

  /** The preflight passes exactly when masks are given where they are needed, every expected frame has a fit
      contract, and the remaining checks pass. */
  lemma PreflightExactly(env: Env)
    ensures Preflight(env) <==>
            && (env.tracked || env.requireState ==> env.masks) && env.ready
            && (env.masks ==> forall k :: 0 <= k < |Expected(env.lines)| ==>
                                ContractIsFit(env, FrameName(k + 1, Expected(env.lines)[k])))
  {
    var names := Names(Expected(env.lines));
    assert forall k :: 0 <= k < |names| ==> names[k] == FrameName(k + 1, Expected(env.lines)[k]);
    if Preflight(env) && env.masks {
      forall k | 0 <= k < |Expected(env.lines)|
        ensures ContractIsFit(env, FrameName(k + 1, Expected(env.lines)[k]))
      {
        assert Sound(env, Loaded(env)[k]);
      }
    }
  }

  lemma LineGoesExactly(env: Env, i: nat, st: Stage)
    requires i < |env.lines| && Preflight(env) && Loadable(env) && !HasBare(env.lines)
    requires st.count == |Taken(env.lines[..i])|
    ensures RunLine(env, i, st).Go? <==> LineGoes(env, i)
  {
    if TakesFrame(env.lines[i]) {
      TakenOneMore(env.lines, i);
      NameIsExpected(env, i);
      assert FrameName(st.count + 1, Value(env.lines[i])) == NameAt(env, i);
      if env.masks {
        assert Loaded(env) == Names(Expected(env.lines)) && NameAt(env, i) in Loaded(env);
        var k :| 0 <= k < |Loaded(env)| && Loaded(env)[k] == NameAt(env, i);
      }
    }
  }

  lemma NextLineGoes(env: Env, n: nat)
    requires n < |env.lines| && Preflight(env) && Loadable(env) && !HasBare(env.lines) && RunLines(env, n).Go?
    ensures RunLine(env, n, RunLines(env, n).stage).Go? <==> LineGoes(env, n)
  {
    RunKeeps(env, n);
    LineGoesExactly(env, n, RunLines(env, n).stage);
  }

  lemma {:induction false} RunGoesExactly(env: Env, n: nat)
    requires n <= |env.lines| && Preflight(env) && Loadable(env) && !HasBare(env.lines)
    ensures RunLines(env, n).Go? <==> forall i :: 0 <= i < n ==> LineGoes(env, i)
  {
    if n > 0 {
      RunGoesExactly(env, n - 1);
      if RunLines(env, n - 1).Go? {
        NextLineGoes(env, n - 1);
      }
    }
  }

  /** A run is complete, and so publishes unless the merge fails, exactly when the preflight passes, the child
      starts, the script expects a frame and has no bare `frame` line, and no line stops the run. */
  lemma CompletesExactly(env: Env)
    ensures Completes(env) <==>
            && Preflight(env) && env.started && Expected(env.lines) != [] && !HasBare(env.lines)
            && forall i :: 0 <= i < |env.lines| ==> LineGoes(env, i)
  {
    if Preflight(env) {
      PreflightLoads(env);
      var n := |env.lines|;
      assert env.lines[..n] == env.lines;
      TakenVersusExpected(env.lines);
      if Completes(env) {
        CompleteRunsWriteTheExpected(env);
      }
      if !HasBare(env.lines) {
        RunGoesExactly(env, n);
        if RunLines(env, n).Go? {
          RunKeeps(env, n);
        }
      }
    }
  }

  /** The run breaks off with an uncaught error exactly at a frame that passes the guard and whose contract is
      needed but was never loaded, or at an action that fails in an unforeseen way. */
  lemma RaisesExactly(env: Env, i: nat, st: Stage)
    requires i < |env.lines| && Preflight(env) && Loadable(env) && st.count == |Taken(env.lines[..i])|
    ensures RunLine(env, i, st).Raised? <==>
            if TakesFrame(env.lines[i]) then
              && env.pumped(i) && env.visible(i) && !env.frameLeaks(env.screen(i)) && !env.streamLeaks(i)
              && env.masks && NameAt(env, i) !in Names(Expected(env.lines))
            else env.act(i).Crashed?
  {
    TakenOneMore(env.lines, i);
  }

  /** Behind every checked file stands the screen of the line its name gives: redacted where masks are given,
      as printed where not, and in neither case with a credential on the screen or in the raw output. */
  lemma CheckedTextExactly(env: Env, name: string, stored: string)
    ensures Vetted(env, name, stored) <==>
            exists i :: 0 <= i < |env.lines| && NamedBy(env, name, i) && CheckedAt(env, name, stored, i)
  {
    forall i | 0 <= i < |env.lines|
      ensures Passed(env, name, stored, i) <==> CheckedAt(env, name, stored, i)
    {
    }
  }

  predicate CheckedAt(env: Env, name: string, stored: string, i: nat)
    requires i < |env.lines|
  {
    && TakesFrame(env.lines[i]) && !env.frameLeaks(env.screen(i)) && !env.streamLeaks(i)
    && if env.masks then
         && env.load(name).Some? && env.load(name).value.redact(env.screen(i)) == Redaction(stored, true)
         && ((env.tracked || env.requireState) ==> env.load(name).value.stateOk(env.screen(i)))
       else stored == env.screen(i)
  }

  predicate IsAnsi(name: string) { |name| >= 5 && name[|name| - 5..] == ".ansi" }

  lemma NamesAreAnsi(values: seq<string>)
    ensures forall f :: f in Names(values) ==> IsAnsi(f)
  {
  }

  /** The destination holds exactly the expected frames, each one passed; other files are as before. */
  ghost predicate Published(env: Env, before: map<string, string>, after: map<string, string>) {
    && !HasBare(env.lines)
    && (forall f :: IsAnsi(f) ==> (f in after <==> f in Names(Expected(env.lines))))
    && (forall f :: f in after && IsAnsi(f) ==> Vetted(env, f, after[f]))
    && (forall f :: !IsAnsi(f) ==> (f in after <==> f in before))
    && (forall f :: !IsAnsi(f) && f in after ==> after[f] == before[f])
  }

  /** Every file is the old one or a staged one. */
  ghost predicate Mixed(before: map<string, string>, staged: map<string, string>, after: map<string, string>) {
    forall f :: f in after ==> (f in before && after[f] == before[f]) || (f in staged && after[f] == staged[f])
  }

  datatype Outcome = Exit(code: nat) | Traceback

  datatype End = Finished | Broken | Aborted

  predicate Distinct(names: seq<string>) {
    forall i, j :: 0 <= i < j < |names| ==> names[i] != names[j]
  }

  /** The frames `done` are moved from the full stage `all`, the others are still staged. */
  ghost predicate Moved(before: map<string, string>, all: map<string, string>, done: seq<string>,
                        after: map<string, string>, staged: map<string, string>) {
    && (forall f :: f in done ==> f in all && f in after && after[f] == all[f])
    && (forall f :: f !in done ==> (f in after <==> f in before) && (f in after ==> after[f] == before[f]))
    && (forall f :: f in staged <==> f in all && f !in done)
    && (forall f :: f in staged ==> staged[f] == all[f])
  }

  lemma MovedIsMixed(before: map<string, string>, all: map<string, string>, done: seq<string>,
                     after: map<string, string>, staged: map<string, string>)
    requires Moved(before, all, done, after, staged)
    ensures Mixed(before, all, after)
  {
  }

  lemma MoveOne(before: map<string, string>, all: map<string, string>, done: seq<string>,
                after: map<string, string>, staged: map<string, string>, written: seq<string>, k: nat)
    requires k < |written| && done == written[..k] && Distinct(written) && Moved(before, all, done, after, staged)
    requires forall f :: f in all <==> f in written
    ensures written[k] in staged && done + [written[k]] == written[..k + 1]
    ensures Moved(before, all, done + [written[k]], after[written[k] := staged[written[k]]], staged - {written[k]})
  {
    assert written[k] !in done;
    assert written[k] in all;
  }

  class Capture {
    var destination: map<string, string>
    var staged: map<string, string>
    var written: seq<string>
    var count: nat

    constructor (existing: map<string, string>)
      ensures destination == existing && staged == map[] && written == [] && count == 0
    {
      destination, staged, written, count := existing, map[], [], 0;
    }

    /** The loop over the script. */
    method RunScript(env: Env) returns (end: End)
      requires Loadable(env) && staged == map[] && written == [] && count == 0
      modifies `staged, `written, `count
      ensures end == Finished <==> RunLines(env, |env.lines|).Go?
      ensures end == Finished ==> RunLines(env, |env.lines|) == Go(Stage(count, staged, written))
      ensures end == Aborted <==> RunLines(env, |env.lines|).Raised?
    {
      for i := 0 to |env.lines|
        invariant RunLines(env, i) == Go(Stage(count, staged, written))
      {
        var step := RunLine(env, i, Stage(count, staged, written));
        if !step.Go? {
          StopsStay(env, i + 1, |env.lines|);
          return if step.Stopped? then Broken else Aborted;
        }
        count, staged, written := step.stage.count, step.stage.staged, step.stage.written;
      }
      return Finished;
    }

    /** Moves the staged frames over; `fault(k)` fails the `k`-th file operation. */
    method MoveStaged(fault: nat -> bool) returns (ok: bool)
      requires (forall f :: f in staged <==> f in written) && Distinct(written)
      modifies `destination, `staged
      ensures Mixed(old(destination), old(staged), destination)
      ensures ok ==> Moved(old(destination), old(staged), written, destination, staged)
      ensures (forall k :: !fault(k)) ==> ok
    {
      ghost var before, all := destination, staged;
      ghost var done: seq<string> := [];
      for k := 0 to |written|
        invariant done == written[..k] && Moved(before, all, done, destination, staged)
        invariant forall f :: f in all <==> f in written
      {
        if fault(k) {
          MovedIsMixed(before, all, done, destination, staged);
          return false;
        }
        var name := written[k];
        MoveOne(before, all, done, destination, staged, written, k);
        destination := destination[name := staged[name]];
        staged := staged - {name};
        done := done + [name];
      }
      assert written[..|written|] == written;
      MovedIsMixed(before, all, done, destination, staged);
      return true;
    }

    /** Moves the staged frames over, then drops stale frames. */
    method Merge(fault: nat -> bool) returns (ok: bool)
      requires (forall f :: f in staged <==> f in written) && Distinct(written)
      requires forall f :: f in written ==> IsAnsi(f)
      modifies `destination, `staged
      ensures Mixed(old(destination), old(staged), destination)
      ensures ok ==> (forall f :: f in destination <==> f in old(staged) || (f in old(destination) && !IsAnsi(f)))
      ensures ok ==> (forall f :: f in destination && f in old(staged) ==> destination[f] == old(staged)[f])
      ensures (forall k :: !fault(k)) ==> ok
    {
      ok := MoveStaged(fault);
      if ok {
        ok := DropStale(fault);
      }
    }

    method DropStale(fault: nat -> bool) returns (ok: bool)
      modifies `destination
      ensures forall f :: f in destination ==> f in old(destination) && destination[f] == old(destination)[f]
      ensures forall f :: f in old(destination) && (f in written || !IsAnsi(f)) ==> f in destination
      ensures ok ==> forall f :: f in destination && IsAnsi(f) ==> f in written
      ensures (forall k :: !fault(k)) ==> ok
    {
      var stale := set f | f in destination && IsAnsi(f) && f !in written;
      ghost var all, before := stale, destination;
      var k: nat := |written|;
      while stale != {}
        invariant stale <= all && destination == before - (all - stale)
        decreases |stale|
      {
        if fault(k) {
          return false;
        }
        var f :| f in stale;
        stale, destination := stale - {f}, destination - {f};
        k := k + 1;
      }
      return true;
    }

    /** The whole capture after argument parsing. A failure before the merge, of whatever kind, leaves the
        destination as it was; exit status 0 means that exactly the expected frames are published, each
        one checked; a failing merge publishes nothing that was not checked. Nothing stays staged. */
    method Publish(env: Env, fault: nat -> bool) returns (o: Outcome)
      requires staged == map[] && written == [] && count == 0
      modifies this
      ensures staged == map[]
      ensures o == Exit(0) ==> Completes(env) && Published(env, old(destination), destination)
      ensures !Completes(env) ==> o != Exit(0) && destination == old(destination)
      ensures Completes(env) ==> o == Exit(0) || o == Exit(1)
      ensures Completes(env) && (forall k :: !fault(k)) ==> o == Exit(0)
      ensures o == Exit(2) <==> !Preflight(env)
      ensures o == Traceback <==>
              Preflight(env) && Loadable(env) && env.started && RunLines(env, |env.lines|).Raised?
      ensures Completes(env) ==> forall f :: f in destination ==>
                (f in old(destination) && destination[f] == old(destination)[f]) || Vetted(env, f, destination[f])
    {
      if !Preflight(env) {
        return Exit(2);
      }
      PreflightLoads(env);
      if !env.started {
        return Exit(1);
      }
      var end := RunScript(env);
      if end == Aborted {
        staged := map[];
        return Traceback;
      }
      if end == Broken || written == [] || |written| != |Expected(env.lines)| {
        staged := map[];
        return Exit(1);
      }
      assert Completes(env);
      CompleteRunsWriteTheExpected(env);
      NamesAreAnsi(Expected(env.lines));
      NamesAreDistinct(Expected(env.lines));
      var ok := Merge(fault);
      staged := map[];
      return if ok then Exit(0) else Exit(1);
    }
  }

  lemma NamesAreDistinct(values: seq<string>)
    ensures Distinct(Names(values))
  {
    forall i, j | 0 <= i < j < |values| ensures Names(values)[i] != Names(values)[j] {
      if Names(values)[i] == Names(values)[j] {
        FrameNameInjective(i + 1, values[i], j + 1, values[j]);
      }
    }
  }

  lemma {:induction false} StopsStay(env: Env, i: nat, n: nat)
    requires i <= n <= |env.lines| && Loadable(env) && !RunLines(env, i).Go?
    ensures RunLines(env, n) == RunLines(env, i)
  {
    if i < n {
      StopsStay(env, i, n - 1);
    }
  }
}
