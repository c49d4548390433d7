/** The server from the outside: what a turn's messages become on the wire, how requests are answered, and
    what a relayed call says. */
module ServerRuns {
  import opened Text
  import opened Json
  import opened Translator
  import opened Registry
  import opened AppServer

  // ---- One turn from its messages to its lines --------------------------------------------------

  function SaysAll(k: nat, messages: seq<Json>): seq<Event> {
    if messages == [] then [] else [Says(k, messages[0])] + SaysAll(k, messages[1..])
  }

  lemma {:induction false} RunConcat(s: State, a: seq<Event>, b: seq<Event>)
    ensures Run(s, a + b) == Run(Run(s, a), b)
    decreases |a|
  {
    if a == [] {
      assert a + b == b;
    } else {
      assert (a + b)[1..] == a[1..] + b;
      RunConcat(Step(s, a[0]), a[1..], b);
    }
  }

  lemma RunningTurnHearsOne(s: State, k: nat, m: Json, text: string)
    requires Inv(s) && k < |s.turns| && s.turns[k].status.Running? && Utters(m, text)
    ensures var t := Step(s, Says(k, m));
            Inv(t) && |t.turns| == |s.turns| && t.turns[k] == s.turns[k].(texts := s.turns[k].texts + [text])
  {
    StepKeeps(s, Says(k, m));
    UtteredIsExtracted(m, text);
  }

  lemma RunSays(s: State, k: nat, messages: seq<Json>)
    requires messages != []
    ensures Run(s, SaysAll(k, messages)) == Run(Step(s, Says(k, messages[0])), SaysAll(k, messages[1..]))
  {
    assert SaysAll(k, messages)[1..] == SaysAll(k, messages[1..]);
  }

  ghost predicate AllUtter(messages: seq<Json>, texts: seq<string>) {
    |texts| == |messages| && (messages != [] ==> Utters(messages[0], texts[0]) && AllUtter(messages[1..], texts[1..]))
  }

  lemma {:induction false} RunningTurnHears(s: State, k: nat, messages: seq<Json>, texts: seq<string>)
    requires Inv(s) && k < |s.turns| && s.turns[k].status.Running? && AllUtter(messages, texts)
    ensures Inv(Run(s, SaysAll(k, messages))) && k < |Run(s, SaysAll(k, messages)).turns|
    ensures Run(s, SaysAll(k, messages)).turns[k] == s.turns[k].(texts := s.turns[k].texts + texts)
    decreases |messages|
  {
    if messages == [] {
      assert s.turns[k].texts + texts == s.turns[k].texts;
    } else {
      RunningTurnHearsOne(s, k, messages[0], texts[0]);
      RunningTurnHears(Step(s, Says(k, messages[0])), k, messages[1..], texts[1..]);
      RunSays(s, k, messages);
      HeadThenRest(s.turns[k].texts, texts);
    }
  }

  lemma HeadThenRest(before: seq<string>, texts: seq<string>)
    requires texts != []
    ensures before + [texts[0]] + texts[1..] == before + texts
  {
  }

  lemma TurnEnds(s: State, k: nat, result: string, usage: Option<Usage>)
    requires Inv(s) && k < |s.turns| && s.turns[k].status.Running?
    ensures var t := Run(s, [Resolves(k, result, true), UsageSettles(k, usage)]);
            Inv(t) && k < |t.turns| && t.turns[k] == s.turns[k].(status := Completed(result, usage))
  {
    var e, f := Resolves(k, result, true), UsageSettles(k, usage);
    var mid := Step(s, e);
    StepKeeps(s, e);
    StepKeeps(mid, f);
    assert [e, f][1..] == [f] && [f][1..] == [];
    assert Run(mid, [f]) == Run(Step(mid, f), []);
  }

  /** A turn that is fed messages and then resolved puts out the very strings of their text blocks, each
      message's joined, then the result unless it repeats the last of them. */
  lemma FedTurnReports(s: State, k: nat, messages: seq<Json>, texts: seq<string>, result: string, usage: Option<Usage>)
    requires Inv(s) && k < |s.turns| && s.turns[k].status.Running? && s.turns[k].texts == []
    requires AllUtter(messages, texts)
    ensures var t := Run(s, SaysAll(k, messages) + [Resolves(k, result, true), UsageSettles(k, usage)]);
            var turn := s.turns[k];
            Project(t.wire, OfTurn(k))
            == [Accepted(turn.rpcId, turn.turnId), Started(turn.turnId)]
               + Notes(turn.thread, turn.turnId, Numbered(turn.turnId, Report(texts, result), FinalAnswer)
                       + Ending(usage))
  {
    var said, ending := SaysAll(k, messages), [Resolves(k, result, true), UsageSettles(k, usage)];
    RunConcat(s, said, ending);
    RunningTurnHears(s, k, messages, texts);
    assert [] + texts == texts;
    TurnEnds(Run(s, said), k, result, usage);
    assert TurnOk(s, k);
    CompletedLines(Run(s, said + ending), k);
  }

  lemma CompletedLines(t: State, k: nat)
    requires Inv(t) && k < |t.turns| && t.turns[k].status.Completed? && t.turns[k].late == []
    ensures var turn := t.turns[k];
            Project(t.wire, OfTurn(k)) == [Accepted(turn.rpcId, turn.turnId), Started(turn.turnId)]
              + Notes(turn.thread, turn.turnId, TurnReport(turn))
  {
    var turn := t.turns[k];
    assert TurnOk(t, k);
    EndReports(turn);
    LateIsReported(turn);
    NothingLateNothingAfter(turn);
    assert TurnReport(turn) + [] == TurnReport(turn);
  }

  lemma EmitProjects(s: State, owner: Owner, msgs: seq<Msg>)
    ensures Project(Emit(s, owner, msgs).wire, owner) == Project(s.wire, owner) + msgs
  {
    ProjectConcat(s.wire, Tagged(owner, msgs), owner);
    ProjectTagged(owner, msgs, owner);
  }

  /** A turn whose session rejects, or whose outcome cannot be recorded, ends as failed and says nothing more. */
  lemma UnfinishedTurnFails(s: State, k: nat, e: Event)
    requires k < |s.turns| && s.turns[k].status.Running?
    requires e == Rejects(k) || (e.Resolves? && e.k == k && !e.recorded)
    ensures var t, turn := Step(s, e), s.turns[k];
            && t.turns == s.turns[k := turn.(status := Failed)]
            && Project(t.wire, OfTurn(k)) == Project(s.wire, OfTurn(k)) + [Notify(turn.thread, turn.turnId, TurnFailed)]
  {
    var turn := s.turns[k];
    var note := [Notify(turn.thread, turn.turnId, TurnFailed)];
    assert Notes(turn.thread, turn.turnId, [TurnFailed]) == note;
    EmitProjects(s.(turns := s.turns[k := turn.(status := Failed)]), OfTurn(k), note);
  }

  lemma ReplyReachesItsCall(s: State, c: nat, reply: Json)
    requires c < |s.calls| && s.calls[c].progress.Waiting?
    requires Get(reply, "method") == None && Get(reply, "id") == Some(JNum(s.calls[c].requestId as real))
    ensures var t := Step(s, Replies(reply));
            t.wire == s.wire && |t.calls| == |s.calls| && t.calls[c] == s.calls[c].(progress := Answered(reply))
  {
    assert (s.calls[c].requestId as real).Floor == s.calls[c].requestId;
  }

  /** A relayed call is completed once the client's reply to its request has come, and tells the client whether
      it succeeded. */
  lemma AnsweredCallCompletes(s: State, c: nat, reply: Json)
    requires c < |s.calls| && s.calls[c].progress.Waiting?
    requires Get(reply, "method") == None && Get(reply, "id") == Some(JNum(s.calls[c].requestId as real))
    ensures var t, call := Step(Step(s, Replies(reply)), ResumesCall(c)), s.calls[c];
            Project(t.wire, OfCall(c))
            == Project(s.wire, OfCall(c)) + [ItemCompleted(call.callId, call.turnId, Succeeded(reply))]
  {
    ReplyReachesItsCall(s, c, reply);
    var mid, call := Step(s, Replies(reply)), s.calls[c];
    EmitProjects(mid.(calls := mid.calls[c := call.(progress := Finished(reply))]), OfCall(c),
                 [ItemCompleted(call.callId, call.turnId, Succeeded(reply))]);
  }

  // ---- Requests and replies ---------------------------------------------------------------------

  /** A line that answers the client's request of this id. */
  predicate Answers(msg: Msg, rpcId: Json) {
    match msg
    case Accepted(id, _) => id == rpcId
    case ThreadReady(id, _) => id == rpcId
    case InvalidParams(id, _) => id == rpcId
    case _ => false
  }

  function AnswerCount(wire: seq<Line>, rpcId: Json): nat {
    if wire == [] then 0 else (if Answers(wire[0].msg, rpcId) then 1 else 0) + AnswerCount(wire[1..], rpcId)
  }

  predicate Requests(e: Event, rpcId: Json) {
    match e
    case StartThread(id, _) => id == rpcId
    case ResumeThread(id, _, _) => id == rpcId
    case StartTurn(id, _) => id == rpcId
    case _ => false
  }

  function RequestCount(events: seq<Event>, rpcId: Json): nat {
    if events == [] then 0 else (if Requests(events[0], rpcId) then 1 else 0) + RequestCount(events[1..], rpcId)
  }

  lemma {:induction false} AnswerCountConcat(a: seq<Line>, b: seq<Line>, rpcId: Json)
    ensures AnswerCount(a + b, rpcId) == AnswerCount(a, rpcId) + AnswerCount(b, rpcId)
  {
    if a == [] {
      assert a + b == b;
    } else {
      assert (a + b)[1..] == a[1..] + b;
      AnswerCountConcat(a[1..], b, rpcId);
    }
  }

  lemma {:induction false} NothingAnswered(owner: Owner, msgs: seq<Msg>, rpcId: Json)
    requires forall i :: 0 <= i < |msgs| ==> !Answers(msgs[i], rpcId)
    ensures AnswerCount(Tagged(owner, msgs), rpcId) == 0
  {
    if msgs != [] {
      NothingAnswered(owner, msgs[1..], rpcId);
    }
  }

  lemma {:induction false} NotesAnswerNothing(thread: string, turnId: string, outs: seq<Out>, rpcId: Json)
    ensures forall i :: 0 <= i < |outs| ==> !Answers(Notes(thread, turnId, outs)[i], rpcId)
  {
    if outs != [] {
      NotesAnswerNothing(thread, turnId, outs[1..], rpcId);
    }
  }

  /** Only the first of these messages is a reply. */
  lemma EmitAnswers(s: State, owner: Owner, msgs: seq<Msg>, rpcId: Json)
    requires msgs != [] && forall i :: 1 <= i < |msgs| ==> !Answers(msgs[i], rpcId)
    ensures AnswerCount(Emit(s, owner, msgs).wire, rpcId)
            == AnswerCount(s.wire, rpcId) + (if Answers(msgs[0], rpcId) then 1 else 0)
  {
    AnswerCountConcat(s.wire, Tagged(owner, msgs), rpcId);
    NothingAnswered(owner, msgs[1..], rpcId);
  }

  lemma EmitNotesAnswers(s: State, owner: Owner, thread: string, turnId: string, outs: seq<Out>, rpcId: Json)
    ensures AnswerCount(Emit(s, owner, Notes(thread, turnId, outs)).wire, rpcId) == AnswerCount(s.wire, rpcId)
  {
    AnswerCountConcat(s.wire, Tagged(owner, Notes(thread, turnId, outs)), rpcId);
    NotesAnswerNothing(thread, turnId, outs, rpcId);
    NothingAnswered(owner, Notes(thread, turnId, outs), rpcId);
  }

  lemma StepAnswers(s: State, e: Event, rpcId: Json)
    ensures AnswerCount(Step(s, e).wire, rpcId) == AnswerCount(s.wire, rpcId) + (if Requests(e, rpcId) then 1 else 0)
  {
    match e
    case StartThread(id, thread) => EmitAnswers(s, Server, [ThreadReady(id, thread), ThreadStarted(thread)], rpcId);
    case ResumeThread(id, thread, recorded) =>
      EmitAnswers(s, Server, [ThreadReady(id, thread), ThreadStarted(thread)], rpcId);
      EmitAnswers(s, Server, [InvalidParams(id, thread)], rpcId);
    case StartTurn(id, thread) => BeginTurnAnswers(s, id, thread, rpcId);
    case CallsTool(r) => CallStepAnswers(s, e, rpcId);
    case ResumesCall(c) => CallStepAnswers(s, e, rpcId);
    case Unrelated(text) => EmitAnswers(s, Server, [Other(text)], rpcId);
    case _ => TurnStepAnswers(s, e, rpcId);
  }

  lemma BeginTurnAnswers(s: State, id: Json, thread: string, rpcId: Json)
    ensures AnswerCount(BeginTurn(s, id, thread).wire, rpcId)
            == AnswerCount(s.wire, rpcId) + (if id == rpcId then 1 else 0)
  {
    if thread in s.threads && s.threads[thread] < |s.registrations| {
      var turnId := BeginTurn(s, id, thread).turns[|s.turns|].turnId;
      EmitAnswers(s, OfTurn(|s.turns|), [Accepted(id, turnId), Started(turnId)], rpcId);
    } else {
      EmitAnswers(s, Server, [InvalidParams(id, thread)], rpcId);
    }
  }

  lemma CallStepAnswers(s: State, e: Event, rpcId: Json)
    requires e.CallsTool? || e.ResumesCall?
    ensures AnswerCount(Step(s, e).wire, rpcId) == AnswerCount(s.wire, rpcId)
  {
    if e.CallsTool? && e.registration < |s.registrations| {
      var call := BeginCall(s, e.registration).calls[|s.calls|];
      EmitAnswers(s, OfCall(|s.calls|),
                  [ItemStarted(call.callId, call.turnId), ToolRequest(s.nextRequest, call.callId, call.turnId)], rpcId);
    } else if e.ResumesCall? && e.c < |s.calls| && s.calls[e.c].progress.Answered? {
      var call := s.calls[e.c];
      EmitAnswers(s, OfCall(e.c), [ItemCompleted(call.callId, call.turnId, Succeeded(call.progress.reply))], rpcId);
    }
  }

  lemma TurnStepAnswers(s: State, e: Event, rpcId: Json)
    requires e.Says? || e.Resolves? || e.Rejects? || e.UsageSettles? || e.Replies?
    ensures AnswerCount(Step(s, e).wire, rpcId) == AnswerCount(s.wire, rpcId)
  {
    match e
    case Says(k, m) =>
      if k < |s.turns| {
        var t := s.turns[k];
        EmitNotesAnswers(s, OfTurn(k), t.thread, t.turnId, OnText(Fields(t), t.turnId, ExtractText(m)).1, rpcId);
      }
    case UsageSettles(k, usage) =>
      if k < |s.turns| && s.turns[k].status.Counting? {
        var t := s.turns[k];
        EmitNotesAnswers(s, OfTurn(k), t.thread, t.turnId,
                         Finish(After(t.texts, t.turnId).0, t.turnId, t.status.result, usage), rpcId);
      }
    case Resolves(k, _, _) => FailureAnswersNothing(s, k, rpcId);
    case Rejects(k) => FailureAnswersNothing(s, k, rpcId);
    case _ =>
  }

  lemma FailureAnswersNothing(s: State, k: nat, rpcId: Json)
    ensures k < |s.turns| ==> AnswerCount(Conclude(s, k, Failed).wire, rpcId) == AnswerCount(s.wire, rpcId)
  {
    if k < |s.turns| {
      EmitNotesAnswers(s, OfTurn(k), s.turns[k].thread, s.turns[k].turnId, [TurnFailed], rpcId);
    }
  }

  lemma {:induction false} RunAnswers(s: State, events: seq<Event>, rpcId: Json)
    ensures AnswerCount(Run(s, events).wire, rpcId) == AnswerCount(s.wire, rpcId) + RequestCount(events, rpcId)
    decreases |events|
  {
    if events != [] {
      StepAnswers(s, events[0], rpcId);
      RunAnswers(Step(s, events[0]), events[1..], rpcId);
    }
  }

  /** In every run each request is answered exactly once: there are as many replies under an id as requests. */
  lemma EveryRequestIsAnsweredOnce(events: seq<Event>, rpcId: Json)
    ensures AnswerCount(Run(INITIAL_STATE, events).wire, rpcId) == RequestCount(events, rpcId)
  {
    RunAnswers(INITIAL_STATE, events, rpcId);
  }

  /** The event opens the thread: it starts it, or resumes it from its record. */
  predicate Opens(e: Event, thread: string) {
    (e.StartThread? && e.thread == thread) || (e.ResumeThread? && e.thread == thread && e.recorded)
  }

  lemma {:induction false} OpenThreads(s: State, events: seq<Event>, thread: string)
    ensures thread in Run(s, events).threads <==> thread in s.threads || exists e :: e in events && Opens(e, thread)
    decreases |events|
  {
    if events != [] {
      OpenThreads(Step(s, events[0]), events[1..], thread);
      StepOpens(s, events[0], thread);
      if exists e :: e in events && Opens(e, thread) {
        var e :| e in events && Opens(e, thread);
        assert e == events[0] || e in events[1..];
      }
    }
  }

  lemma StepOpens(s: State, e: Event, thread: string)
    ensures thread in Step(s, e).threads <==> thread in s.threads || Opens(e, thread)
  {
  }

  /** A turn is accepted exactly on a thread that was started or resumed from its record before; any other
      thread is refused as invalid parameters. */
  lemma TurnsAreAcceptedExactly(events: seq<Event>, rpcId: Json, thread: string)
    ensures var s := Run(INITIAL_STATE, events);
            var t := Step(s, StartTurn(rpcId, thread));
            if exists e :: e in events && Opens(e, thread) then |t.turns| == |s.turns| + 1
            else t == Emit(s, Server, [InvalidParams(rpcId, thread)])
  {
    OpenThreads(INITIAL_STATE, events, thread);
    RunKeeps(INITIAL_STATE, events);
  }

  /** Opening a thread is answered and then announced. */
  lemma OpenedThreadIsAnnounced(s: State, rpcId: Json, thread: string)
    ensures Project(Step(s, StartThread(rpcId, thread)).wire, Server)
         == Project(s.wire, Server) + [ThreadReady(rpcId, thread), ThreadStarted(thread)]
    ensures Project(Step(s, ResumeThread(rpcId, thread, true)).wire, Server)
         == Project(s.wire, Server) + [ThreadReady(rpcId, thread), ThreadStarted(thread)]
    ensures Project(Step(s, ResumeThread(rpcId, thread, false)).wire, Server)
         == Project(s.wire, Server) + [InvalidParams(rpcId, thread)]
  {
    var ready := s.(registrations := s.registrations + [Registration(thread, 0, "", 0)],
                     threads := s.threads[thread := |s.registrations|]);
    EmitProject(ready, Server, [ThreadReady(rpcId, thread), ThreadStarted(thread)]);
    EmitProject(s, Server, [InvalidParams(rpcId, thread)]);
  }

  // ---- What a relayed call says -----------------------------------------------------------------

  /** The current turn of a registration is its newest one, if it has any. */
  ghost predicate NewestIsCurrent(s: State, r: nat)
    requires r < |s.registrations|
  {
    var reg := s.registrations[r];
    if reg.turnSeq == 0 then reg.currentTurnId == ""
    else exists k :: 0 <= k < |s.turns| && IsNewest(s, r, k)
  }

  predicate IsNewest(s: State, r: nat, k: nat)
    requires r < |s.registrations| && k < |s.turns|
  {
    && s.turns[k].registration == r && s.turns[k].ordinal == s.registrations[r].turnSeq
    && s.turns[k].turnId == s.registrations[r].currentTurnId
  }

  ghost predicate AllCurrent(s: State) { forall r :: 0 <= r < |s.registrations| ==> NewestIsCurrent(s, r) }

  lemma CurrentStays(s: State, t: State, r: nat)
    requires r < |s.registrations| && NewestIsCurrent(s, r)
    requires r < |t.registrations| && t.registrations[r] == s.registrations[r].(callN := t.registrations[r].callN)
    requires |s.turns| <= |t.turns|
    requires forall k :: 0 <= k < |s.turns| ==>
               t.turns[k].registration == s.turns[k].registration && t.turns[k].ordinal == s.turns[k].ordinal
               && t.turns[k].turnId == s.turns[k].turnId
    ensures NewestIsCurrent(t, r)
  {
    if s.registrations[r].turnSeq != 0 {
      var k :| 0 <= k < |s.turns| && IsNewest(s, r, k);
      assert IsNewest(t, r, k);
    }
  }

  lemma StartCurrent(s: State, rpcId: Json, thread: string)
    requires Inv(s) && thread in s.threads
    ensures var t := BeginTurn(s, rpcId, thread);
            s.threads[thread] < |t.registrations| && NewestIsCurrent(t, s.threads[thread])
  {
    var t := BeginTurn(s, rpcId, thread);
    assert IsNewest(t, s.threads[thread], |s.turns|);
  }

  lemma StepCurrent(s: State, e: Event)
    requires Inv(s) && AllCurrent(s)
    ensures AllCurrent(Step(s, e))
  {
    var t := Step(s, e);
    forall r | 0 <= r < |t.registrations|
      ensures NewestIsCurrent(t, r)
    {
      if e.StartTurn? && e.thread in s.threads && r == s.threads[e.thread] {
        StartCurrent(s, e.rpcId, e.thread);
      } else if r < |s.registrations| {
        SameRegistration(s, e, r);
        CurrentStays(s, t, r);
      }
    }
  }

  lemma SameRegistration(s: State, e: Event, r: nat)
    requires r < |s.registrations| && !(e.StartTurn? && e.thread in s.threads && r == s.threads[e.thread])
    ensures var t := Step(s, e);
            && r < |t.registrations| && t.registrations[r] == s.registrations[r].(callN := t.registrations[r].callN)
            && |s.turns| <= |t.turns|
            && forall k :: 0 <= k < |s.turns| ==>
                 t.turns[k].registration == s.turns[k].registration && t.turns[k].ordinal == s.turns[k].ordinal
                 && t.turns[k].turnId == s.turns[k].turnId
  {
  }

  lemma {:induction false} RunCurrent(s: State, events: seq<Event>)
    requires Inv(s) && AllCurrent(s)
    ensures AllCurrent(Run(s, events))
    decreases |events|
  {
    if events != [] {
      StepKeeps(s, events[0]);
      StepCurrent(s, events[0]);
      RunCurrent(Step(s, events[0]), events[1..]);
    }
  }

  /** The turn is the newest of its registration. */
  predicate NewestTurnOf(turns: seq<Turn>, registration: nat, k: nat) {
    && k < |turns| && turns[k].registration == registration
    && forall j :: 0 <= j < |turns| && turns[j].registration == registration ==> turns[j].ordinal <= turns[k].ordinal
  }

  predicate HasTurns(turns: seq<Turn>, registration: nat) {
    exists k :: 0 <= k < |turns| && turns[k].registration == registration
  }

  lemma CurrentIsNewest(s: State, live: nat)
    requires Inv(s) && AllCurrent(s) && live < |s.registrations|
    ensures if HasTurns(s.turns, live) then
              exists k: nat :: NewestTurnOf(s.turns, live, k)
                  && s.registrations[live].currentTurnId == s.turns[k].turnId
            else s.registrations[live].currentTurnId == ""
  {
    assert NewestIsCurrent(s, live);
    forall j | 0 <= j < |s.turns| && s.turns[j].registration == live
      ensures 1 <= s.turns[j].ordinal <= s.registrations[live].turnSeq
    {
      assert TurnOk(s, j);
    }
    if s.registrations[live].turnSeq != 0 {
      var k :| 0 <= k < |s.turns| && IsNewest(s, live, k);
      assert NewestTurnOf(s.turns, live, k);
      assert HasTurns(s.turns, live);
    }
  }

  /** A relayed call carries the id of the newest turn accepted on the thread's live registration, whoever
      registered it, and none where no turn was. */
  lemma CallCarriesNewestTurn(events: seq<Event>, r: nat)
    requires r < |Run(INITIAL_STATE, events).registrations|
    requires Run(INITIAL_STATE, events).registrations[r].thread in Run(INITIAL_STATE, events).threads
    ensures var s := Run(INITIAL_STATE, events);
            var call := NewestCall(BeginCall(s, r).calls);
            var live := s.threads[s.registrations[r].thread];
            if HasTurns(s.turns, live) then
              exists k: nat :: NewestTurnOf(s.turns, live, k) && call.turnId == s.turns[k].turnId
            else call.turnId == ""
  {
    RunKeeps(INITIAL_STATE, events);
    RunCurrent(INITIAL_STATE, events);
    CarriesCurrent(Run(INITIAL_STATE, events), r);
  }

  lemma CarriesCurrent(s: State, r: nat)
    requires Inv(s) && AllCurrent(s) && r < |s.registrations| && s.registrations[r].thread in s.threads
    ensures var call := NewestCall(BeginCall(s, r).calls);
            var live := s.threads[s.registrations[r].thread];
            if HasTurns(s.turns, live) then
              exists k: nat :: NewestTurnOf(s.turns, live, k) && call.turnId == s.turns[k].turnId
            else call.turnId == ""
  {
    CurrentIsNewest(s, s.threads[s.registrations[r].thread]);
  }

  function NewestCall(calls: seq<Call>): Call
    requires calls != []
  {
    calls[|calls| - 1]
  }

  /** A call completes without success exactly when its reply has a truthy error, or a result whose
      `success` is false. */
  lemma CompletionTellsSuccess(reply: Json, error: Json, result: Json)
    ensures Get(reply, "error") == Some(error) && Truthy(error) ==> !Succeeded(reply)
    ensures (Get(reply, "error") == None || Get(reply, "error") == Some(JNull))
            && Get(reply, "result") == Some(result) ==>
              (Succeeded(reply) <==> Get(result, "success") != Some(JBool(false)))
    ensures Get(reply, "error") == None && Get(reply, "result") == None ==> Succeeded(reply)
  {
  }
}
