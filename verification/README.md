# Verification of the frame instrument and the app-server protocol

This Dafny project models two parts of the repository and proves what they are for.

**The frame instrument** prints a terminal grid as text, scans that text for credentials, redacts it,
publishes it all or nothing, and later compares it under reviewed fingerprints.

- `Grid`, `Render`, `SgrReader`: the printer `render_line`/`render_screen`, and an independent SGR reader
  (section 8.3.117 of ECMA-48) that rebuilds the grid from the text.
- `AnsiEscape`, `SecretGuard`: the escape recogniser and the three-corpus credential guard, shown to see
  exactly what the grid shows.
- `DimScreen` (module `DimScreens`): the draw step that keeps wide glyphs paired; `Frames` joins drawing,
  printing and scanning over all reachable screens.
- `RawOutput`: the sliding byte window of `wait-output` and the raw scan tail.
- `KeyScript`, `Publication`: the key script, the staged run and the merge.
- `Lines`, `Splices`, `FrameMasks`, `RedactionContracts`: span splicing, the dashboard-status mask and the
  redaction contract with its comparison-time twin.
- `Diagnostic`, `Identities`, `Redaction`, `DiagnosticText`, `DiagnosticLoops`: redaction of a printed diff,
  by the visible characters only.
- `WrappedIdentity`: what that redaction prints of an identity that the rows of a diff cut apart.
- `PublishedFrames`: the run with its real printer and guard; `ComparedFrames`: the comparison with its real
  sanitizer.
- `Fingerprint`, `Allowlist`, `FrameDiff`: the verdict of comparing two frame directories.

**The app-server protocol** is a newline-delimited JSON-RPC peer with turns that interleave freely.

- `Json`, `Peer`: framing, dispatch and request correlation.
- `Translator`, `Registry`, `AppServer`: the hold-back translator, turn numbering, and the whole server as a
  step system whose wire is split by the turn or call that wrote each line.
- `ServerRuns`: what a client sees of whole runs: answers, spoken texts, the turn a call names.
- `SchemaShape`: the JSON Schema to Zod translation, with both meanings.
- `Threads`: the 200-entry thread file as a least-recently-used store.

Four smaller cores are `Crc32` and `Png` (the fixture image of probe 113), `InputQueue` (the two hand-made
input queues) and `RpcClient` (the pending map with timeouts). `Text` holds shared string facts.

Objects of the source are classes here (`DimScreens.DimScreen`, `RawOutput.Capture`, `Publication.Capture`,
`Peer.PeerObject`, `Translator.TurnTranslator`, `Registry.Registry`, `AppServer.ServerObject`,
`Threads.Sidecar`, `InputQueue.InputQueueObject`, `RpcClient.RpcObject`). Each method is proved to take the
object from its old state to the one a specification function gives, and the theorems are about runs of
those functions.

Where the code and its comments or expectations differ, the model follows the code:

- The comment on the escape pattern says an unterminated OSC does not match; the two-character alternative
  does match its `ESC ]` (`AnsiEscape.OscIsExact`). The text after it stays visible, as the comment intends
  (`AnsiEscape.UnterminatedOscStaysVisible`).
- A bare `frame` line takes a frame but is not counted beforehand (`KeyScript.ContractsArePreloadedExactly`
  gives the exact condition); such a script never exits with 0.
- A zero-width mark after a wide glyph, and wide glyphs on a one-column screen without autowrap, break the
  wide-glyph invariant (`DimScreens.DrawStepIsExact` gives the exact condition for one draw,
  `DimScreens.RunsKeepWideGlyphsPaired` for a run).
- A marker longer than 61441 bytes can scroll out of the window (`RawOutput.WindowBoundIsExact`).
- A type list with two types besides null, and `items` next to `prefixItems`, are translated to something
  narrower than the schema (`SchemaShape.TranslationIsSoundExactly`).
- Equal timestamps can evict the thread just recorded (`Threads.TiesEvictTheNewest`;
  `Threads.NewThreadSurvivesExactly` gives the exact condition).
- A resumed live thread repeats turn ids (`AppServer.ResumeRepeatsTurnIds`).
- A session callback that comes after the result puts commentary behind the ending (`AppServer.LateTextAddsLines`;
  `AppServer.EndingsAreFinal` gives the exact condition). The repository's own session never does this: it removes
  the waiter before it resolves it (CC-to-SDK/harness/src/session/session.ts:406-408), so only a different `open`
  can, and `AppServer.NothingLateNothingAfter` is what holds for its turns.
- An empty match at a line boundary is spliced once, not once per line (`Splices.RewrittenLineByLine`).

## Model

| member | source | states |
|---|---|---|
| `SecretGuard.FragmentsAreTheRuns` | CC-to-SDK/harness/scripts/capture-frames.py:175-181 | the fragments of a credential are exactly its 16-character runs, or the whole of a shorter one |
| `SecretGuard.LeakLayers` | CC-to-SDK/harness/scripts/capture-frames.py:184-193 | a run leaks exactly when it stands in the text without its escapes, in that without control characters, or in that without whitespace as well |
| `SecretGuard.ThirdCorpus` | CC-to-SDK/harness/scripts/capture-frames.py:184-193 | the third scan corpus is the escape-stripped text without whitespace and control characters |
| `SecretGuard.TextContainsSecret` | CC-to-SDK/harness/scripts/capture-frames.py:196-205 | the nested lazy scan reports a text if and only if some fragment of some non-empty credential occurs in one of the three corpora |
| `SecretGuard.CleanRunsNeedOnlyTheThirdCorpus` | CC-to-SDK/harness/scripts/capture-frames.py:184-193 | for a run without whitespace and controls the first two corpora never catch more than the third |
| `SecretGuard.GuardSeesSqueezedText` | CC-to-SDK/harness/scripts/capture-frames.py:184-209 | the verdict on clean credentials depends on the squeezed text alone, so wraps, padding and styles neither hide nor invent a leak |
| `AnsiEscape.OscIsExact` | CC-to-SDK/harness/scripts/capture-frames.py:120-123 | an operating-system command is stripped whole exactly when its first BEL or ESC terminates it; otherwise only its two-character introducer is |
| `AnsiEscape.StringIsExact` | CC-to-SDK/harness/scripts/capture-frames.py:120-123 | the same for the families that only the string terminator ends |
| `AnsiEscape.CsiIsExact` | CC-to-SDK/harness/scripts/capture-frames.py:123-123 | a control sequence is stripped up to its final character; an incomplete or malformed one is not stripped at all, its escape character included |
| `AnsiEscape.EscapePairsAreExact` | CC-to-SDK/harness/scripts/capture-frames.py:123-123 | outside the longer families an escape character takes exactly one of the listed characters with it, and stays visible before any other |
| `AnsiEscape.ControlSequenceVanishes` | CC-to-SDK/harness/scripts/capture-frames.py:123-123 | a text closes up around any complete control sequence in it |
| `AnsiEscape.UnterminatedOscStaysVisible` | CC-to-SDK/harness/scripts/capture-frames.py:120-123 | the text after an unterminated introducer stays visible, and nothing else does |
| `AnsiEscape.UnterminatedStringStaysVisible` | CC-to-SDK/harness/scripts/capture-frames.py:120-123 | likewise for the string families |
| `Render.RenderLine` | CC-to-SDK/harness/scripts/capture-frames.py:440-458 | the trim loop and the one pass with `prev_key` produce the declared line |
| `Render.RenderScreen` | CC-to-SDK/harness/scripts/capture-frames.py:461-463 | one line per row, each ended by a newline, the last one too |
| `Frames.ScreenSplits` | CC-to-SDK/harness/scripts/capture-frames.py:461-463 | splitting a rendered screen at its newlines gives back the lines of its rows and leaves nothing over |
| `Render.ThirdCorpusIsTheGrid` | CC-to-SDK/harness/scripts/capture-frames.py:184-193 | for every grid without ESC in its cells the third corpus of the rendered screen is the row-major cell text, squeezed |
| `Render.FrameGuardIsExact` | CC-to-SDK/harness/scripts/capture-frames.py:175-209 | a rendered frame is reported if and only if the grid's squeezed text shows a 16-character run (or the whole) of a clean credential, however wrapped, padded, styled or trimmed |
| `Render.OneTransitionPerRun` | CC-to-SDK/harness/scripts/capture-frames.py:447-458 | a line holds one SGR per maximal equal-style run of its kept cells plus the closing reset |
| `SgrReader.ApplyColor` | CC-to-SDK/harness/scripts/capture-frames.py:399-408 | the parameters of one colour, read back, set that colour and nothing else, with unknown names read as default |
| `SgrReader.ApplySgr` | CC-to-SDK/harness/scripts/capture-frames.py:411-429 | a transition's parameters select the rendered style whatever the style before (section 8.3.117 of ECMA-48) |
| `SgrReader.RenderRoundTrip` | CC-to-SDK/harness/scripts/capture-frames.py:440-458 | reading a rendered line from reset onto a blank row rebuilds every cell and style, wide glyphs and trimmed tail included |
| `SgrReader.RoundTripIsExact` | CC-to-SDK/harness/scripts/capture-frames.py:399-458 | the rebuilt row equals the original exactly when all its colours are default, lower-case hex or in the tables |
| `SgrReader.UnknownColourIsLost` | CC-to-SDK/harness/scripts/capture-frames.py:399-408 | a colour that no table names is read back as the default |
| `SgrReader.CanonicalNames` | CC-to-SDK/harness/scripts/capture-frames.py:92-92 | the colours a frame keeps as they are: the default, six characters of `0-9a-f`, and listed names that do not look like hex; every other name is changed |
| `SgrReader.TrueColourCodes` | CC-to-SDK/harness/scripts/capture-frames.py:403-405 | a true colour is written as its three bytes, each a pair of hex digits, behind 38 or 48 and 2 |
| `SgrReader.NamedColourCode` | CC-to-SDK/harness/scripts/capture-frames.py:399-408 | a listed name is written as the last code its table has for it |
| `SgrReader.AttributeCodes` | CC-to-SDK/harness/scripts/capture-frames.py:411-429 | each attribute selects its own parameter, and several are listed in ascending order (section 8.3.117 of ECMA-48) |
| `DimScreens.WrittenCellsAreSolo` | CC-to-SDK/harness/scripts/capture-frames.py:343-375 | after the erasing pass no cell of the next glyph's actual destination is half of a wide pair, across pending wrap, scrolling, a cursor below the margin and autowrap off |
| `DimScreens.DrawnCells` | CC-to-SDK/harness/scripts/capture-frames.py:331-375 | every cell after a draw: the glyph and its continuation where it lands, a blank where only half of a pair is left, the mark on the cell before the cursor, and every other cell as it was, or as the row below was when the region scrolls |
| `DimScreens.DrawnCursor` | CC-to-SDK/harness/scripts/capture-frames.py:343-375 | the cursor follows the glyph up to the right edge and stays before a mark; no other part of the screen changes |
| `DimScreens.LeftHalfOverwritten` | CC-to-SDK/harness/scripts/capture-frames.py:331-375 | a narrow glyph over the left half of a wide one leaves a plain space in the reverse mode of the screen beside it, and the rest of the screen as it was |
| `DimScreens.UnpairCells` | CC-to-SDK/harness/scripts/capture-frames.py:331-341 | erasing the pair under a column blanks both its halves and leaves every other cell alone |
| `DimScreens.DrawStepIsExact` | CC-to-SDK/harness/scripts/capture-frames.py:331-375 | drawing one character keeps every wide glyph paired with its empty cell exactly when it is none of the three named draws |
| `DimScreens.RunsKeepWideGlyphsPaired` | CC-to-SDK/harness/scripts/capture-frames.py:343-375 | throughout a run of draws on a screen of any size, with arbitrary cursor, margin and mode changes between them, the wide-glyph invariant holds if and only if no draw is a breaking one on the screen it meets |
| `DimScreens.UnmarkedRunsNeverBreak` | CC-to-SDK/harness/scripts/capture-frames.py:343-375 | on two columns or more a run without zero-width marks has no breaking draw |
| `DimScreens.OneColumnBreaks` | CC-to-SDK/harness/scripts/capture-frames.py:366-368 | with one column and autowrap off two wide glyphs in a row break the invariant |
| `DimScreens.MarkAfterWideBreaks` | CC-to-SDK/harness/scripts/capture-frames.py:351-375 | a combining mark right after a wide glyph breaks the invariant, because nothing is erased for it |
| `DimScreens.DimScreen.ClearWideCellAt` | CC-to-SDK/harness/scripts/capture-frames.py:331-341 | erases both halves of the pair under either half, and nothing else |
| `DimScreens.DimScreen.ClearDestination` | CC-to-SDK/harness/scripts/capture-frames.py:351-374 | the erasing pass at the destination the next write will really use |
| `DimScreens.DimScreen.Draw` | CC-to-SDK/harness/scripts/capture-frames.py:343-375 | the loop over the characters is the composition of the single draws |
| `Frames.ReachableFramesAreFaithful` | CC-to-SDK/harness/scripts/capture-frames.py:343-463 | the text of every frame of every run without a breaking draw, split at its newlines, reads back as the screen's rows in canonical colours, and the guard's verdict on it is exact |
| `RawOutput.WindowSeesCompletion` | CC-to-SDK/harness/scripts/capture-frames.py:684-701 | a read of at most 4096 bytes completes a marker of at most 61441 bytes inside the 65536-byte window exactly when it completes it in everything received |
| `RawOutput.WindowBoundIsExact` | CC-to-SDK/harness/scripts/capture-frames.py:684-701 | 61441 bytes is the exact bound: exactly the markers up to that length can never scroll out unseen |
| `RawOutput.Capture.RetainRaw` | CC-to-SDK/harness/scripts/capture-frames.py:670-678 | the scan tail is always the last 2^20 bytes fed, or empty when no credential is armed |
| `RawOutput.Capture.Receive` | CC-to-SDK/harness/scripts/capture-frames.py:695-698 | one read extends the action's window and the scan tail |
| `RawOutput.Capture.WaitOutput` | CC-to-SDK/harness/scripts/capture-frames.py:680-727 | `wait-output` reports a fitting marker on the very read that completes it and never otherwise, and fails for a closed pty, a dead child or the deadline |
| `KeyScript.TakesFrameExactly` | CC-to-SDK/harness/scripts/capture-frames.py:739-765 | executing a line takes a frame for `frame:` lines and for one more spelling, `frame` without a colon |
| `KeyScript.FrameNameInjective` | CC-to-SDK/harness/scripts/capture-frames.py:562-563 | different frame numbers or values give different file names |
| `KeyScript.FrameNamesAreSpelled` | CC-to-SDK/harness/scripts/capture-frames.py:562-563 | a frame is called by its number, in two digits at least, its value and the extension |
| `KeyScript.ContractsArePreloadedExactly` | CC-to-SDK/harness/scripts/capture-frames.py:549-567 | every frame taken has a contract loaded beforehand under its name, exactly for scripts without a bare `frame` line |
| `Publication.RunKeeps` | CC-to-SDK/harness/scripts/capture-frames.py:738-803 | while the run goes on it has staged exactly the frames taken so far, each under the name of its own number and line, with guard, state and redaction passed |
| `Publication.CompleteRunsWriteTheExpected` | CC-to-SDK/harness/scripts/capture-frames.py:823-829 | a run whose counts agree wrote exactly the expected frames, each the text of the line its name gives, and its script has no bare `frame` line |
| `Publication.PreflightExactly` | CC-to-SDK/harness/scripts/capture-frames.py:549-610 | the preflight passes exactly when masks are given where they are needed, every expected frame has a fit contract, and the remaining checks pass |
| `Publication.CompletesExactly` | CC-to-SDK/harness/scripts/capture-frames.py:738-829 | a run is complete exactly when the preflight passes, the child starts, the script expects a frame and has no bare `frame` line, and no line stops it |
| `Publication.CheckedTextExactly` | CC-to-SDK/harness/scripts/capture-frames.py:765-803 | a file is vetted exactly when it is the screen of the line its name gives, redacted where masks are given, with no credential on the screen or in the raw output |
| `Publication.RaisesExactly` | CC-to-SDK/harness/scripts/capture-frames.py:765-814 | the run breaks off with an uncaught error exactly at a frame past the guard whose needed contract was never loaded, or at an unforeseen failure of an action |
| `Publication.VettedIsUnique` | CC-to-SDK/harness/scripts/capture-frames.py:765-803 | a file name belongs to one frame line, so the run determines what may be staged or published under it |
| `Publication.Capture.RunScript` | CC-to-SDK/harness/scripts/capture-frames.py:738-814 | the loop over the script, with its reported failures and its uncaught missing-contract error |
| `Publication.Capture.MoveStaged` | CC-to-SDK/harness/scripts/capture-frames.py:832-833 | the replace loop: after any number of moves the destination mixes old files and staged ones only |
| `Publication.Capture.DropStale` | CC-to-SDK/harness/scripts/capture-frames.py:834-836 | removes stale frames only |
| `Publication.Capture.Publish` | CC-to-SDK/harness/scripts/capture-frames.py:546-845 | preflight failures leave the destination unchanged, as do all failures of the run; exit 0 means that exactly the expected frames are published, each the checked frame of the line its name gives; a failing merge publishes nothing unchecked; nothing stays staged; without a file fault a complete run exits with 0, and exit 2 is a failed preflight |
| `PublishedFrames.PublishedFramesShowNoCredential` | CC-to-SDK/harness/scripts/capture-frames.py:765-803 | with the real printer and guard, each published text is the print of the screen of the line its name gives, redacted where masks are given, and that screen shows no run of a credential |
| `PublishedFrames.CredentialStopsTheRun` | CC-to-SDK/harness/scripts/capture-frames.py:778-784 | a run in which a framed screen shows a credential never completes |
| `Splices.SpliceBackwards` | CC-to-SDK/harness/scripts/frame_masks.py:80-82 | splicing the sorted spans from the right is replacing them all at once |
| `Splices.EachPlaceIsReplaced` | CC-to-SDK/harness/scripts/frame_masks.py:80-82 | replacing the parts between pieces keeps every piece and puts one copy into each place |
| `Splices.RewrittenLineByLine` | CC-to-SDK/harness/scripts/frame_masks.py:77-82 | the set of spans gives the line-by-line rewriting exactly when no empty match is shared by two adjacent lines or the replacement is empty |
| `Splices.SharedEmptyMatchIsLost` | CC-to-SDK/harness/scripts/frame_masks.py:77-82 | two lines that share an empty match are rewritten differently |
| `FrameMasks.LatestIsNearest` | CC-to-SDK/harness/scripts/frame_masks.py:57-61 | the chosen candidate starts last, and of equal starts it is the first listed, and the unmasked ones are listed first |
| `FrameMasks.BlockIsMaximal` | CC-to-SDK/harness/scripts/frame_masks.py:51-53 | a footer's block is the maximal run of non-blank lines right above it |
| `FrameMasks.BlockLiesBeforeMarker` | CC-to-SDK/harness/scripts/frame_masks.py:62-64 | every spliced line lies in the block before its footer, and strictly before the footer exactly when the block has a line |
| `FrameMasks.BlockIsWhatTheMatchTouches` | CC-to-SDK/harness/scripts/frame_masks.py:62-63 | a block names the lines its match touches, from the line that holds its start, after a leading newline, to the line that holds its end |
| `FrameMasks.BlockIsFoundExactly` | CC-to-SDK/harness/scripts/frame_masks.py:48-60 | a block is found before a line exactly when the line is a footer and the lines above it show an identity in the clear or in its redacted form |
| `FrameMasks.BlocksAreExactlyFound` | CC-to-SDK/harness/scripts/frame_masks.py:44-65 | the blocks are those found before the single lines |
| `FrameMasks.SemanticLineShows` | CC-to-SDK/harness/scripts/frame_masks.py:46-46 | the patterns see a line without its styles and its line end |
| `FrameMasks.ReplacedWhereNamed` | CC-to-SDK/harness/scripts/frame_masks.py:74-79 | a line's identity matches are replaced exactly when a recognised block with an identity in the clear takes the line in |
| `FrameMasks.FindBlocks` | CC-to-SDK/harness/scripts/frame_masks.py:44-65 | the scan over all lines finds the declared blocks |
| `FrameMasks.Collect` | CC-to-SDK/harness/scripts/frame_masks.py:74-79 | the collecting loops gather exactly the identity matches of the covered lines, as spans of the whole text |
| `FrameMasks.Redact` | CC-to-SDK/harness/scripts/frame_masks.py:67-82 | the result is the simultaneous replacement of all identity matches in covered lines, and the count is their number |
| `FrameMasks.RedactionIsPerLine` | CC-to-SDK/harness/scripts/frame_masks.py:67-82 | covered lines are rewritten one by one and all others stay, with the exact condition for it |
| `FrameMasks.PublishedDashboardsAreMasked` | CC-to-SDK/harness/scripts/frame_masks.py:84-85 | in a text without residual failures every footer's nearest identity is in its redacted form |
| `RedactionContracts.RedactText` | CC-to-SDK/harness/scripts/frame_masks.py:262-284 | masks, dashboard masks, counts and residual guards in order, with every shortfall and every residual identity reported |
| `RedactionContracts.SubstitutionsRunInOrder` | CC-to-SDK/harness/scripts/frame_masks.py:262-275 | every mask works on what the one before it left; the total adds up their counts and each one below its own minimum is reported, in order |
| `RedactionContracts.MasksAreApplied` | CC-to-SDK/harness/scripts/frame_masks.py:262-284 | what a mask establishes and the later ones preserve holds of the published and of the compared text |
| `RedactionContracts.OneMaskAlone` | CC-to-SDK/harness/scripts/frame_masks.py:262-275 | a contract of one mask gives what the mask makes of the text, and falls short exactly below its minimum or the contract's |
| `RedactionContracts.PublishedWithoutFailureExactly` | CC-to-SDK/harness/scripts/frame_masks.py:262-284 | no failure is reported exactly when all minima are reached, no guard matches the stripped result and no dashboard identity is left |
| `RedactionContracts.SanitizeForComparison` | CC-to-SDK/harness/scripts/frame_masks.py:380-397 | the same substitutions without counts; no lines at all when an identity remains |
| `RedactionContracts.ComparedLinesAreMasked` | CC-to-SDK/harness/scripts/frame_masks.py:391-397 | frames are compared line by line, without line ends, and over each line the comparison masks run one after the other |
| `RedactionContracts.ResidualNamesIdentities` | CC-to-SDK/harness/scripts/frame_masks.py:276-283 | no residual failure means that no guard matches the stripped text and no dashboard identity is in the clear |
| `RedactionContracts.PublicationImpliesComparison` | CC-to-SDK/harness/scripts/frame_masks.py:262-284 | a frame that publishes without a failure compares without one; comparison refuses exactly the frames in which publication reports an unredacted identity |
| `DiagnosticText.Project` | CC-to-SDK/harness/scripts/frame_masks.py:319-350 | the projection's cursor loop: each offset holds its own visible character |
| `DiagnosticText.ProjectionIsParse` | CC-to-SDK/harness/scripts/frame_masks.py:319-350 | the loop passes over styles and over newlines with their row's mark and indentation, and over nothing else |
| `Diagnostic.BlanksIndent` | CC-to-SDK/harness/scripts/frame_masks.py:325-334 | spaces and tabs at the start of a row are passed over, and what is none of these and no style ends the indentation |
| `DiagnosticText.ProjectionIndexesText` | CC-to-SDK/harness/scripts/frame_masks.py:319-350 | the offsets are strictly increasing positions of the text and index their own characters |
| `DiagnosticText.RowBreakBetween` | CC-to-SDK/harness/scripts/frame_masks.py:364-365 | searching the text between two visible characters for a diff row finds exactly the rows that start between them |
| `Identities.FindAllExact` | CC-to-SDK/harness/scripts/frame_masks.py:315-316 | the recogniser's scan yields every identity match and nothing else |
| `Identities.MaskedExactly` | CC-to-SDK/harness/scripts/frame_masks.py:353-368 | a visible character is masked exactly when it is a component of a match, or stands left of one from the component run before the last `@` on, and a diff row starts in between |
| `DiagnosticLoops.StartOf` | CC-to-SDK/harness/scripts/frame_masks.py:358-365 | masking starts at the match, or at the component run before the previous `@` when a diff row starts in between |
| `DiagnosticLoops.CollectedIsMasked` | CC-to-SDK/harness/scripts/frame_masks.py:353-368 | the collected offsets are exactly the component characters of all matches, the extended left part included |
| `DiagnosticLoops.Paint` | CC-to-SDK/harness/scripts/frame_masks.py:369-377 | each maximal run of masked positions becomes one token and all other characters are kept in order |
| `DiagnosticLoops.PaintingKeeps` | CC-to-SDK/harness/scripts/frame_masks.py:369-377 | apart from tokens the output is the text at the unmasked positions, in order, and the tokens added are as many as the maximal masked runs |
| `DiagnosticLoops.RedactDiagnosticText` | CC-to-SDK/harness/scripts/frame_masks.py:353-377 | the loops together compute the declared redacted text |
| `DiagnosticLoops.RedactionMasksExactly` | CC-to-SDK/harness/scripts/frame_masks.py:353-377 | the redacted text paints over exactly those characters of the text |
| `WrappedIdentity.CutIdentityIsRedacted` | CC-to-SDK/harness/scripts/frame_masks.py:353-377 | an identity whose user and host are cut apart by the rows of a diff, whatever its names, is printed as one token for every component left and none of its characters |
| `WrappedIdentity.InsideHostname` | CC-to-SDK/harness/scripts/frame_masks.py:353-377 | the same at one input: the host name cut inside, with the user before the row break |
| `Identities.RemovedMasked` | CC-to-SDK/harness/scripts/frame_masks.py:353-368 | removing a component character that follows another one in its row leaves the masking of all others as it was |
| `Diagnostic.Reparse` | CC-to-SDK/harness/scripts/frame_masks.py:314-350 | scanning the redacted text finds the same gaps and, between them, the same characters with each masked run as one token |
| `Redaction.RedactionIsIdempotent` | CC-to-SDK/harness/scripts/frame_masks.py:353-377 | redacting twice is redacting once |
| `Redaction.NoIdentityRemains` | CC-to-SDK/harness/scripts/frame_masks.py:353-377 | every identity match in the redacted text, the extended left part included, consists of tokens only |
| `Fingerprint.PayloadIsInjective` | CC-to-SDK/harness/scripts/frame-diff.py:52-59 | the JSON payload determines both line lists (section 7 of RFC 8259) |
| `Fingerprint.PayloadIsJson` | CC-to-SDK/harness/scripts/frame-diff.py:52-59 | the payload is a JSON object of two members, the golden lines first, and a reader gets both lists back |
| `FrameDiff.EntryPinsOnePair` | CC-to-SDK/harness/scripts/frame-diff.py:52-59 | an entry that accepts two different pairs exhibits a collision of the hash |
| `Allowlist.LoadAllowlist` | CC-to-SDK/harness/scripts/frame-diff.py:62-99 | refused exactly when a line is malformed or a key is listed twice; otherwise exactly the listed fingerprints |
| `Allowlist.EntryExactly` | CC-to-SDK/harness/scripts/frame-diff.py:70-97 | a line is an entry exactly when it is no comment and has a key, a prefixed digest and an identifier before its first dash and a reason after it |
| `Allowlist.EntryIsRead` | CC-to-SDK/harness/scripts/frame-diff.py:70-97 | such a line, written with single spaces, is read back as its key and digest |
| `Allowlist.IgnoredExactly` | CC-to-SDK/harness/scripts/frame-diff.py:70-79 | a line is passed over exactly when it is blank, a comment, or neither names a frame nor looks like an entry; any other is an entry or malformed |
| `FrameDiff.ClassifyFrames` | CC-to-SDK/harness/scripts/frame-diff.py:150-207 | the classification loop with its three accumulators |
| `FrameDiff.StaleInScope` | CC-to-SDK/harness/scripts/frame-diff.py:209-216 | an in-scope entry that was neither matched nor reported makes the comparison fail |
| `FrameDiff.KeysInScope` | CC-to-SDK/harness/scripts/frame-diff.py:209-216 | the entries in scope are those whose key is the scenario and a file name |
| `FrameDiff.CleanIsExact` | CC-to-SDK/harness/scripts/frame-diff.py:150-216 | no bad frame and no stale entry is the same as: every frame is on both sides, non-empty, without residual identities, equal or reviewed, and every in-scope entry names a real difference |
| `FrameDiff.Compare` | CC-to-SDK/harness/scripts/frame-diff.py:107-233 | exit status 0 if and only if the inputs are well formed and the comparison is exact; 1 otherwise |
| `ComparedFrames.AcceptedFramesAreClear` | CC-to-SDK/harness/scripts/frame-diff.py:150-207 | with the real sanitizer, exit status 0 means of every frame that it is on both sides, that neither sanitized side shows an identity, and that the masked lines are equal or reviewed |
| `ComparedFrames.IdentityFailsTheComparison` | CC-to-SDK/harness/scripts/frame-diff.py:170-179 | one identity left on either side is enough to fail |
| `Crc32.BitStepIsABijection` | CC-to-SDK/probes/probes/113-image-content-block.ts:60-60 | the bit step is a bijection on 32-bit registers |
| `Crc32.ComputeCrc` | CC-to-SDK/probes/probes/113-image-content-block.ts:58-62 | the loops over bytes and bits compute the declared checksum |
| `Crc32.PolynomialIsGenerator` | CC-to-SDK/probes/probes/113-image-content-block.ts:60-60 | the constant is the generator polynomial of section 3.4 of RFC 2083, the highest power in the lowest bit |
| `Crc32.CrcIsRemainder` | CC-to-SDK/probes/probes/113-image-content-block.ts:58-62 | the checksum is the complement of the remainder the message leaves under long division by the generator, its first 32 bits inverted and 32 zero bits appended |
| `Crc32.BitsAsOneWord` | CC-to-SDK/probes/probes/113-image-content-block.ts:60-60 | feeding up to 32 bits one by one is one exclusive-or with their word, then as many bit steps |
| `Crc32.BurstsAreDetected` | CC-to-SDK/probes/probes/113-image-content-block.ts:58-62 | equal-length messages that differ only within 32 consecutive bits, wherever they start, never share a checksum |
| `Crc32.FourByteBurstsAreDetected` | CC-to-SDK/probes/probes/113-image-content-block.ts:58-62 | messages that differ only within four consecutive bytes never share a checksum (section 3.4 of RFC 2083) |
| `Png.WalkReadsBack` | CC-to-SDK/probes/probes/113-image-content-block.ts:63-68 | walking written chunks recovers them in order with valid checksums (section 3.2 of RFC 2083) |
| `Png.DamagedChunkIsRefused` | CC-to-SDK/probes/probes/113-image-content-block.ts:63-68 | a chunk damaged by a burst of up to 32 bits is never accepted |
| `Png.FillRow` | CC-to-SDK/probes/probes/113-image-content-block.ts:74-76 | one scan line is written in place and the rows above it stay |
| `Png.SolidPng` | CC-to-SDK/probes/probes/113-image-content-block.ts:57-84 | the file walks back to IHDR, IDAT and IEND with valid checksums |
| `Png.HeaderSays` | CC-to-SDK/probes/probes/113-image-content-block.ts:69-71 | the header gives the width and height, eight bits a sample and true colour (section 4.1.1 of RFC 2083) |
| `Png.EveryPixelIsTheColour` | CC-to-SDK/probes/probes/113-image-content-block.ts:69-77 | a reader finds a square of the stated size whose every pixel is the requested colour |
| `Peer.ChunkingIsInvisible` | CC-to-SDK/app-server/src/peer.ts:13-24 | however a character stream is cut, the dispatches and the newline-free remainder are those of one feed |
| `Peer.FramingRoundTrip` | CC-to-SDK/app-server/src/peer.ts:13-30 | messages written one per line and cut anywhere are dispatched once each and in order |
| `Peer.HandlerHearsEachMessage` | CC-to-SDK/app-server/src/peer.ts:13-30 | requests and notifications cut anywhere in transit reach the handler with their own method, parameters and id, each once and in order |
| `Peer.LineCarries` | CC-to-SDK/app-server/src/peer.ts:17-20 | a line carries what the parser makes of it without the whitespace around it, and nothing when it is blank |
| `Peer.Routes` | CC-to-SDK/app-server/src/protocol.ts:8-10 | what makes a message a request, a notification or a response |
| `Peer.BadLineIsSkipped` | CC-to-SDK/app-server/src/peer.ts:17-22 | a blank or malformed line changes nothing and hides nothing after it |
| `Peer.RequestsAreConserved` | CC-to-SDK/app-server/src/peer.ts:26-38 | in every run issued ids are the disjoint union of pending and resolved, and a resolver fires at most once, with a reply of its own id |
| `Peer.StrayReplyChangesNothing` | CC-to-SDK/app-server/src/peer.ts:27-27 | the line of a stray reply can be deleted from the input without changing the run |
| `Peer.ReplyChangesNothingExactly` | CC-to-SDK/app-server/src/peer.ts:27-27 | a reply changes nothing if and only if its id is unknown, answered already, or no natural number |
| `Peer.PeerObject.Request` | CC-to-SDK/app-server/src/peer.ts:35-38 | takes the next id and registers it |
| `Peer.PeerObject.Dispatch` | CC-to-SDK/app-server/src/peer.ts:26-30 | at most one of the response, request and notification routes, in that order |
| `Peer.PeerObject.Feed` | CC-to-SDK/app-server/src/peer.ts:13-24 | the buffer loop handles every complete line and keeps the rest |
| `Translator.HoldBack` | CC-to-SDK/app-server/src/translator.ts:23-29 | while a turn runs, every text but the last has been put out once, in order, as commentary |
| `Translator.FinalItems` | CC-to-SDK/app-server/src/translator.ts:33-38 | the closing items are the held text unless the result repeats it, then the final answer, which is always present |
| `Translator.TranslationIsConserved` | CC-to-SDK/app-server/src/translator.ts:13-42 | a successful turn puts out every non-empty text once and in order, then the result unless it repeats the last one; ids are consecutive and only the last item is the final answer |
| `Translator.EveryItemIsSpelled` | CC-to-SDK/app-server/src/translator.ts:18-41 | the items of a turn one by one: ids counted from one, commentary but for the last, then usage where there is any and the completion |
| `Translator.ReportIsExact` | CC-to-SDK/app-server/src/translator.ts:35-38 | the result is reported after the texts unless it is empty or repeats the last; without any text it is reported even when empty |
| `Translator.TurnTranslator.OnMessage` | CC-to-SDK/app-server/src/translator.ts:24-29 | appends to the turn's output what the new text releases |
| `Translator.UtteredIsExtracted` | CC-to-SDK/app-server/src/translator.ts:5-11 | the text of an assistant message is its string content, or the texts of its text blocks in order among blocks of any other kind; any other message has none |
| `Translator.TurnTranslator.Finalize` | CC-to-SDK/app-server/src/translator.ts:33-42 | the terminal notifications of a failed or successful turn |
| `Registry.StampedInjective` | CC-to-SDK/app-server/src/registry.ts:15-15 | two ids of one kind are equal only for the same thread and the same number, whatever characters the thread's name has |
| `Registry.IdsAreSpelled` | CC-to-SDK/app-server/src/registry.ts:15-15 | an id shows the thread in its middle and the number at its end |
| `Registry.Registry.Register` | CC-to-SDK/app-server/src/registry.ts:11-11 | a registration restarts the turn numbering, also of a known thread |
| `Registry.Registry.NextTurnId` | CC-to-SDK/app-server/src/registry.ts:15-15 | counts up by one for a known thread and refuses an unknown one |
| `AppServer.RegistryIsRefined` | CC-to-SDK/app-server/src/handlers.ts:66-133 | the whole system moves the registry by its two operations only: registration on start and resume, the next id on an accepted turn |
| `AppServer.StepKeeps` | CC-to-SDK/app-server/src/handlers.ts:66-181 | every step of the interleaved system keeps each turn's and each call's part of the wire in step with its state |
| `AppServer.EveryTurnIsTraced` | CC-to-SDK/app-server/src/handlers.ts:123-181 | in every run each accepted turn's lines are reply, `turn/started`, commentary and exactly one ending: final answer, optional usage and `turn/completed`, or `turn/failed` alone; after it only what late callbacks release, which is nothing exactly when at most one text is left unsent; the texts are those the callback passed on, in order, and request and outcome are events of the run |
| `AppServer.TextsAreSpoken` | CC-to-SDK/app-server/src/handlers.ts:171-171 | from any state on, what a turn has heard grows by exactly the texts its callback passes on |
| `ServerRuns.FedTurnReports` | CC-to-SDK/app-server/src/handlers.ts:169-181 | a turn that is fed messages and then resolved puts out the very strings of their text blocks, each message's joined, then the result unless it repeats the last of them, the usage and the completion |
| `ServerRuns.EveryRequestIsAnsweredOnce` | CC-to-SDK/app-server/src/handlers.ts:66-133 | in every run there are as many replies under an id as requests |
| `ServerRuns.TurnsAreAcceptedExactly` | CC-to-SDK/app-server/src/handlers.ts:123-125 | in every run a turn is accepted exactly on a thread that was started or resumed before |
| `ServerRuns.CallCarriesNewestTurn` | CC-to-SDK/app-server/src/handlers.ts:114-114 | in every run a relayed call carries the id of the newest turn of the thread's live registration, and none where no turn was |
| `ServerRuns.CompletionTellsSuccess` | CC-to-SDK/app-server/src/broker.ts:61-64 | a call completes without success exactly when its reply has a truthy error or a result whose `success` is false |
| `ServerRuns.AnsweredCallCompletes` | CC-to-SDK/app-server/src/broker.ts:60-64 | a waiting call is completed once the reply to its own request has come |
| `ServerRuns.UnfinishedTurnFails` | CC-to-SDK/app-server/src/handlers.ts:169-181 | a turn whose session rejects, or whose outcome cannot be recorded, ends as failed and says nothing more |
| `AppServer.NothingLateNothingAfter` | CC-to-SDK/app-server/src/handlers.ts:169-181 | without a late text nothing follows the ending |
| `AppServer.EndingsAreFinal` | CC-to-SDK/app-server/src/handlers.ts:169-181 | once a turn is over its lines stay as they are if and only if no text is passed on for it any more, or a single one that is the turn's first |
| `AppServer.LateTextAddsLines` | CC-to-SDK/app-server/src/translator.ts:24-29 | one late text on a turn that still holds one adds to its lines |
| `AppServer.TurnIdsRepeatOnlyAcrossRegistrations` | CC-to-SDK/app-server/src/registry.ts:11-15 | turn ids are distinct within a registration, and repeat exactly for the same numbered turn of the same thread in another one |
| `AppServer.ResumeRepeatsTurnIds` | CC-to-SDK/app-server/src/handlers.ts:77-92 | a resumed live thread hands out a turn id again |
| `AppServer.WireByTurnId` | CC-to-SDK/app-server/src/handlers.ts:123-181 | a client that filters by turn id sees exactly that turn's lines if and only if no other turn has the same thread and number |
| `AppServer.EveryCallIsTraced` | CC-to-SDK/app-server/src/broker.ts:50-66 | each relayed call puts out started, request and completed in order under one call id and one turn id, even if the thread's turn moves on; the reply it goes by came in and carries the id of the call's own request |
| `AppServer.PeerIsRefined` | CC-to-SDK/app-server/src/peer.ts:26-38 | the relayed calls that wait are the pending requests of the peer: a call issues one, a reply resolves the one of its id, no other step moves them |
| `AppServer.CallsAreDistinct` | CC-to-SDK/app-server/src/broker.ts:53-59 | request ids are distinct on the connection and call ids within a registration |
| `AppServer.ServerObject.TurnStart` | CC-to-SDK/app-server/src/handlers.ts:123-133 | refuses an unknown thread; otherwise numbers the turn, gives it a translator, and sends reply and start |
| `AppServer.ServerObject.TurnMessage` | CC-to-SDK/app-server/src/handlers.ts:171-171 | the session's callback hands the message to the turn's translator and sends what it releases, also after the ending |
| `AppServer.ServerObject.TurnEnd` | CC-to-SDK/app-server/src/handlers.ts:176-179 | the turn's translator is finalized and its terminal notifications are sent |
| `AppServer.ServerObject.CallTool` | CC-to-SDK/app-server/src/broker.ts:50-59 | a tool call up to its request |
| `SchemaShape.TranslationIsSoundExactly` | CC-to-SDK/app-server/src/broker.ts:79-99 | for every node, the translation accepts everything the node accepts if and only if the node meets the stated condition on its types, enum, items and `prefixItems` |
| `SchemaShape.FitsIsAccepted` | CC-to-SDK/app-server/src/broker.ts:79-99 | a value passes the translation if and only if it fits the schema as the condition states it: null where listed, a member of a string enum, or the main type with fitting elements |
| `SchemaShape.SingleTypedIsSound` | CC-to-SDK/app-server/src/broker.ts:79-99 | nodes with no type, one type or one type plus null, nested through arrays whose items govern all elements, meet it (sections 6.1.1 and 6.1.2 of JSON Schema Validation draft 2020-12) |
| `SchemaShape.TypeUnionsAreNotSound` | CC-to-SDK/app-server/src/broker.ts:83-83 | a union of two other types does not: only the first is kept |
| `SchemaShape.PrefixItemsAreNotSound` | CC-to-SDK/app-server/src/broker.ts:92-92 | `items` next to `prefixItems` does not, whatever the items say: an exempt element that does not fit them is refused |
| `SchemaShape.JsonSchemaToZodShape` | CC-to-SDK/app-server/src/broker.ts:101-110 | the loop over the properties builds the declared shape |
| `SchemaShape.ShapeOfEach` | CC-to-SDK/app-server/src/broker.ts:105-108 | every property is a key of the shape, optional exactly when it is not required |
| `SchemaShape.ShapeAcceptsExactly` | CC-to-SDK/app-server/src/broker.ts:101-110 | an object passes the shape exactly when every property it has passes its node's translation and it has every required one |
| `SchemaShape.PlainTypeAccepts` | CC-to-SDK/app-server/src/broker.ts:88-96 | a schema of one type accepts exactly the values of that type, an array by its items |
| `SchemaShape.ShapeIsSound` | CC-to-SDK/app-server/src/broker.ts:101-110 | every argument object a tool schema accepts is accepted by its shape (section 6.5.3 of the same draft) |
| `Threads.Sidecar.RecordThread` | CC-to-SDK/app-server/src/threads.ts:9-18 | assign, sort by time, keep 200; a crash before the rename leaves the old file |
| `Threads.Sidecar.LookupThread` | CC-to-SDK/app-server/src/threads.ts:19-19 | a record is found if and only if the file has one under the key, and it is that one |
| `Threads.RecordMovesToFront` | CC-to-SDK/app-server/src/threads.ts:11-12 | with a clock past all stored times, recording moves the thread to the front |
| `Threads.StoreIsRecency` | CC-to-SDK/app-server/src/threads.ts:9-18 | after any history with a strictly increasing clock the file is the 200 most recent distinct threads with their latest values |
| `Threads.LookupIsLeastRecentlyUsed` | CC-to-SDK/app-server/src/threads.ts:9-19 | a lookup succeeds, with the latest record, if and only if fewer than 200 other threads were recorded since |
| `Threads.NewThreadSurvivesExactly` | CC-to-SDK/app-server/src/threads.ts:11-12 | whatever the clock does, a new thread survives its own recording exactly when fewer than 200 stored times are at least as late; ties evict the newest |
| `Threads.TiesEvictTheNewest` | CC-to-SDK/app-server/src/threads.ts:11-12 | a thread recorded at the very moment of 200 others is lost at once |
| `InputQueue.NoLostWakeup` | CC-to-SDK/probes/probes/100-prompt-suggestion-and-spinner-tokens.ts:55-69 | under every interleaving a generator parked with no wake-up under way has an empty queue and no close; what is yielded is a prefix of what was pushed; a return comes after everything pushed before the close |
| `InputQueue.EveryItemIsDelivered` | CC-to-SDK/probes/probes/123-queued-turn-count.ts:39-53 | after a close the consumer alone brings either variant to its return, with everything pushed yielded |
| `InputQueue.EverythingIsTaken` | CC-to-SDK/probes/probes/123-queued-turn-count.ts:42-46 | every item offered is taken in, in order, also after a close, and the queue is closed exactly when its producer closed it |
| `InputQueue.InputQueueObject.Add` | CC-to-SDK/probes/probes/123-queued-turn-count.ts:42-45 | queues the item, then calls the stored resolver |
| `InputQueue.InputQueueObject.Advance` | CC-to-SDK/probes/probes/100-prompt-suggestion-and-spinner-tokens.ts:61-67 | yields the oldest item, returns after a close, or parks on a fresh promise |
| `RpcClient.EveryCallSettlesOnce` | CC-to-SDK/harness/scripts/probe-116-m7-keyed-riders.ts:38-88 | in every run each call is pending under an armed timer or has settled exactly once, by its timer or by a reply of its own id, rejected exactly when that reply has a truthy error; each waiter likewise, by its timer or a notification it wants |
| `RpcClient.EarliestWaiterWins` | CC-to-SDK/harness/scripts/probe-116-m7-keyed-riders.ts:55-61 | in every run a notification that no waiter wants settles nothing, and otherwise exactly one waiter, the earliest that wants it, while all others go on waiting |
| `RpcClient.WaitersStandInOrder` | CC-to-SDK/harness/scripts/probe-116-m7-keyed-riders.ts:84-84 | waiters stand in the order of their waits, so the first in the row came first |
| `RpcClient.TimersSettle` | CC-to-SDK/harness/scripts/probe-116-m7-keyed-riders.ts:66-84 | in every run a timer that fires ends the call or waiter it is armed for; one that was cleared changes nothing |
| `RpcClient.NotificationsAreKept` | CC-to-SDK/harness/scripts/probe-116-m7-keyed-riders.ts:55-57 | every notification of a run is kept, in order, whether or not some waiter was settled with it |
| `RpcClient.ReplySettlesItsCall` | CC-to-SDK/harness/scripts/probe-116-m7-keyed-riders.ts:47-53 | a message with the id of a pending call and a result or an error settles that call, and rejects it exactly when the error is truthy |
| `RpcClient.WaitLooksBack` | CC-to-SDK/harness/scripts/probe-116-m7-keyed-riders.ts:74-76 | a wait is settled at once by the first notification from its mark on that it wants |
| `RpcClient.RpcObject.OnMessage` | CC-to-SDK/harness/scripts/probe-116-m7-keyed-riders.ts:45-62 | a reply settles the call it names, a notification one waiter, anything else nothing |
| `RpcClient.RpcObject.Wait` | CC-to-SDK/harness/scripts/probe-116-m7-keyed-riders.ts:74-86 | settled at once by a past notification, else registered under a timer |

## Left out

- Drawing in insert mode, the emulator's other mutations and its byte decoder: `DimScreens` models the write
  step of the terminal library as the comments of the draw code describe it, with columns and modes arbitrary.
- Unicode composition and character width: a cell's width is that of its first character, a mark is appended
  to its cell, and both tables are parameters, as are the colour tables of the terminal library.
- A cell that holds a mark its character did not compose with: the erasing pass hands all of `cell.data` to
  `wcwidth` (CC-to-SDK/harness/scripts/capture-frames.py:336-339), which takes one character and would raise;
  the model goes by the first character and erases.
- The decoding of raw bytes for the stream layer of the guard, which is a parameter of `Publication`.
- The nested drain read after the first visible content, and the clock: reads are an arbitrary sequence of polls.
- Signals, processes, the pty, temporary directories and path resolution: their failures are parameters of the
  run, and the output directory is a map from names to contents.
- The regular expressions of mask files: functions from a text to ordered disjoint matches. The fixed
  expressions (escapes, styles, identities) are written out as recognisers.
- Loading and validating mask files: a contract is given per frame key, or the load fails.
- SHA-256 and UTF-8 encoding: the fingerprint's hash is an arbitrary function of the payload's characters.
- The printed report and the order of its rows: only verdicts and exit status are modelled.
- Peer.ChunkingIsInvisible: is stated over characters, because the code decodes each chunk on its own and a
  multi-byte character cut in two would not survive.
- JSON parsing: any partial function from a line to a value; numbers are finite and object keys are read by
  their last occurrence.
- AppServer.EveryTurnIsTraced: relies on `sink` and `open` not throwing, as the code does.
- Requests of the server other than relayed tool calls, which share the peer's numbering.
- The working directory of a registry entry, and disposing of sessions.
- Posture, sandbox, approvals, account reading, tool-spec normalisation, usage totals and the command line:
  single branches or plain folds.
- SchemaShape.TranslationIsSoundExactly: covers the keywords type, enum, items, properties and required, and of
  `prefixItems` how many elements it exempts from `items`: the schemas in it are taken to accept anything. A
  missing key is accepted only for an optional property.
- Compression and base64: `deflate` and its inverse are parameters and the base64 text is not modelled.
- Threads.StoreIsRecency: assumes a strictly increasing clock, without which it is false; object keys that look
  like array indices change the file's order only among equal times.
- RpcClient listeners, which only observe, and the web socket.
- Live sessions, model output and timing of the probes.
