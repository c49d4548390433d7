/** The capture run with its own printer and guard: what is published shows no credential. */
module PublishedFrames {
  import opened Grid
  import opened SecretGuard
  import opened Render
  import opened DimScreens
  import opened Frames
  import opened Text
  import opened KeyScript
  import opened Publication

  /** The run's frames are printed screens, and its guard is the credential scan. */
  ghost predicate Instrumented(env: Env, screens: nat -> Screen, palette: Palette, secrets: seq<string>) {
    && (forall i :: 0 <= i < |env.lines| ==> env.screen(i) == RenderedScreen(screens(i).rows, palette))
    && (forall text :: env.frameLeaks(text) <==> Leaks(text, secrets))
  }

  /** Some 16-character run of a credential, or the whole of a shorter one, stands in the grid's text. */
  ghost predicate ShowsCredential(grid: seq<Row>, secrets: seq<string>) {
    exists secret, run :: secret in secrets && secret != [] && IsRunOf(run, secret)
        && Occurs(run, Squeeze(GridText(grid)))
  }

  /** The text is the screen's print, redacted under the frame's contract where masks are given. */
  predicate IsPrintOf(env: Env, name: string, text: string, screen: Screen, palette: Palette) {
    var rendered := RenderedScreen(screen.rows, palette);
    if env.masks then env.load(name).Some? && text == env.load(name).value.redact(rendered).text else text == rendered
  }

  /** Behind every published frame stands the screen of the very line its name gives; the published text
      is what the redaction makes of that screen, and the screen shows no credential. */
  lemma PublishedFramesShowNoCredential(env: Env, screens: nat -> Screen, font: Font, palette: Palette,
                                        secrets: seq<string>, before: map<string, string>, after: map<string, string>,
                                        name: string)
    requires Instrumented(env, screens, palette, secrets) && Published(env, before, after)
    requires forall i :: 0 <= i < |env.lines| ==> screens(i).Intact(font.width)
    requires font.width(ESC) < 0 && forall secret :: secret in secrets ==> Clean(secret)
    requires IsAnsi(name) && name in after
    ensures exists i :: 0 <= i < |env.lines| && NamedBy(env, name, i)
              && IsPrintOf(env, name, after[name], screens(i), palette) && !ShowsCredential(screens(i).rows, secrets)
  {
    assert Vetted(env, name, after[name]);
    var i :| 0 <= i < |env.lines| && NamedBy(env, name, i) && Passed(env, name, after[name], i);
    IntactHasNoEscapes(screens(i), font);
    FrameGuardIsExact(screens(i).rows, palette, secrets);
    assert IsPrintOf(env, name, after[name], screens(i), palette);
  }

  /** A screen that shows a credential is never published, whatever else the run does: the run stops there. */
  lemma CredentialStopsTheRun(env: Env, screens: nat -> Screen, font: Font, palette: Palette, secrets: seq<string>,
                              i: nat)
    requires Instrumented(env, screens, palette, secrets) && Loadable(env)
    requires i < |env.lines| && TakesFrame(env.lines[i]) && screens(i).Intact(font.width) && font.width(ESC) < 0
    requires forall secret :: secret in secrets ==> Clean(secret)
    requires ShowsCredential(screens(i).rows, secrets)
    ensures !Completes(env)
  {
    IntactHasNoEscapes(screens(i), font);
    FrameGuardIsExact(screens(i).rows, palette, secrets);
    LeakStops(env, i);
    if RunLines(env, |env.lines|).Go? {
      GoesThrough(env, i + 1, |env.lines|);
    }
  }

  lemma LeakStops(env: Env, i: nat)
    requires i < |env.lines| && Loadable(env) && TakesFrame(env.lines[i]) && env.frameLeaks(env.screen(i))
    ensures !RunLines(env, i + 1).Go?
  {
  }

  lemma {:induction false} GoesThrough(env: Env, m: nat, n: nat)
    requires m <= n <= |env.lines| && Loadable(env) && RunLines(env, n).Go?
    ensures RunLines(env, m).Go?
    decreases n
  {
    if m < n {
      GoesThrough(env, m, n - 1);
    }
  }
}
