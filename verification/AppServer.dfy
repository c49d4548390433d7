/** The app server as a step system: registrations, turns and relayed tool calls interleave freely on
    one outgoing wire. A rejected promise, a reply or a callback is one step. */
module AppServer {
  import opened Text
  import opened Json
  import opened Translator
  import opened Registry
  import Peer

  // ---- State ------------------------------------------------------------------------------------

  /** One registration of a thread: its live entry and the tool broker built with it. */
  datatype Registration = Registration(thread: string, turnSeq: nat, currentTurnId: string, callN: nat)

  /** Awaiting the session's result, awaiting its usage totals, or over. */
  datatype Status = Running | Counting(result: string) | Completed(result: string, usage: Option<Usage>) | Failed

  /** `texts` are what the session's callback has passed on so far, `late` those it passed on after the end. */
  datatype Turn = Turn(rpcId: Json, registration: nat, thread: string, ordinal: nat, turnId: string,
                       texts: seq<string>, status: Status, late: seq<string>)

  datatype Progress = Waiting | Answered(reply: Json) | Finished(reply: Json)

  datatype Call = Call(registration: nat, callId: string, turnId: string, requestId: nat, progress: Progress)

  datatype Msg =
    | Accepted(rpcId: Json, turnId: string)
    | Started(turnId: string)
    | Notify(thread: string, turnId: string, out: Out)
    | ItemStarted(callId: string, turnId: string)
    | ToolRequest(requestId: nat, callId: string, turnId: string)
    | ItemCompleted(callId: string, turnId: string, success: bool)
    | ThreadReady(rpcId: Json, thread: string)
    | ThreadStarted(thread: string)
    | InvalidParams(rpcId: Json, thread: string)
    | Other(text: string)

  /** Which turn or call put a line on the wire. */
  datatype Owner = Server | OfTurn(k: nat) | OfCall(c: nat)

  datatype Line = Line(owner: Owner, msg: Msg)

  datatype State = State(registrations: seq<Registration>, threads: map<string, nat>, turns: seq<Turn>,
                         calls: seq<Call>, nextRequest: nat, wire: seq<Line>)

  const INITIAL_STATE: State := State([], map[], [], [], 1, [])

  // ---- Steps ------------------------------------------------------------------------------------

  datatype Event =
    | StartThread(rpcId: Json, thread: string)
    | ResumeThread(rpcId: Json, thread: string, recorded: bool)
    | StartTurn(rpcId: Json, thread: string)
    | Says(k: nat, m: Json)
    | Resolves(k: nat, result: string, recorded: bool)
    | Rejects(k: nat)
    | UsageSettles(k: nat, usage: Option<Usage>)
    | CallsTool(registration: nat)
    | Replies(message: Json)
    | ResumesCall(c: nat)
    | Unrelated(text: string)

  function Tagged(owner: Owner, msgs: seq<Msg>): (lines: seq<Line>)
    ensures |lines| == |msgs|
  {
    if msgs == [] then [] else [Line(owner, msgs[0])] + Tagged(owner, msgs[1..])
  }

  function Emit(s: State, owner: Owner, msgs: seq<Msg>): State {
    s.(wire := s.wire + Tagged(owner, msgs))
  }

  function Notes(thread: string, turnId: string, outs: seq<Out>): (msgs: seq<Msg>)
    ensures |msgs| == |outs|
  {
    if outs == [] then [] else [Notify(thread, turnId, outs[0])] + Notes(thread, turnId, outs[1..])
  }

  /** A registration replaces the thread's entry; the old one lives on in the closures that hold it. */
  function Register(s: State, rpcId: Json, thread: string): State {
    Emit(s.(registrations := s.registrations + [Registration(thread, 0, "", 0)],
            threads := s.threads[thread := |s.registrations|]),
         Server, [ThreadReady(rpcId, thread), ThreadStarted(thread)])
  }

  /** `turnStart`. */
  function BeginTurn(s: State, rpcId: Json, thread: string): State {
    if thread !in s.threads || s.threads[thread] >= |s.registrations| then
      Emit(s, Server, [InvalidParams(rpcId, thread)])
    else
      var r := s.threads[thread];
      var n := s.registrations[r].turnSeq + 1;
      var turnId := TurnId(thread, n);
      var turn := Turn(rpcId, r, thread, n, turnId, [], Running, []);
      Emit(s.(registrations := s.registrations[r := s.registrations[r].(turnSeq := n, currentTurnId := turnId)],
              turns := s.turns + [turn]),
           OfTurn(|s.turns|), [Accepted(rpcId, turnId), Started(turnId)])
  }

  predicate Over(t: Turn) { t.status.Completed? || t.status.Failed? }

  predicate Live(s: State, k: nat) { k < |s.turns| && !Over(s.turns[k]) }

  /** The turn's ending: the translator's fields after it, and its notifications. */
  function End(t: Turn): (Held, seq<Out>) {
    var h := After(t.texts, t.turnId).0;
    match t.status
    case Completed(result, usage) => (Concluded(h, t.turnId, result), Finish(h, t.turnId, result, usage))
    case Failed => (h, [TurnFailed])
    case _ => (h, [])
  }

  /** The fields of the turn's translator. */
  function Fields(t: Turn): Held { Onward(End(t).0, t.late, t.turnId).0 }

  function Heard(t: Turn, text: string): Turn {
    if Over(t) then t.(late := t.late + [text]) else t.(texts := t.texts + [text])
  }

  /** The session's callback: the translator's commentary goes out at once, even after the ending. */
  function Hear(s: State, k: nat, m: Json): State {
    if k >= |s.turns| then s
    else
      var t := s.turns[k];
      var text := ExtractText(m);
      Emit(s.(turns := s.turns[k := Heard(t, text)]), OfTurn(k),
           Notes(t.thread, t.turnId, OnText(Fields(t), t.turnId, text).1))
  }

  /** The translator's terminal notifications. */
  function Conclude(s: State, k: nat, status: Status): State
    requires k < |s.turns| && (status.Completed? || status.Failed?)
  {
    var t := s.turns[k];
    Emit(s.(turns := s.turns[k := t.(status := status)]), OfTurn(k),
         Notes(t.thread, t.turnId,
               if status.Failed? then [TurnFailed]
               else Finish(After(t.texts, t.turnId).0, t.turnId, status.result, status.usage)))
  }

  /** The current turn of the thread's live entry, whoever registered it. */
  function CurrentTurn(s: State, thread: string): string {
    if thread in s.threads && s.threads[thread] < |s.registrations| then
      s.registrations[s.threads[thread]].currentTurnId
    else ""
  }

  /** `ToolBroker.call` up to its request. */
  function BeginCall(s: State, r: nat): State {
    if r >= |s.registrations| then s
    else
      var thread := s.registrations[r].thread;
      var n := s.registrations[r].callN + 1;
      var turnId, callId := CurrentTurn(s, thread), CallId(thread, n);
      Emit(s.(registrations := s.registrations[r := s.registrations[r].(callN := n)],
              calls := s.calls + [Call(r, callId, turnId, s.nextRequest, Waiting)],
              nextRequest := s.nextRequest + 1),
           OfCall(|s.calls|), [ItemStarted(callId, turnId), ToolRequest(s.nextRequest, callId, turnId)])
  }

  /** Whether a client's reply counts as success. */
  predicate Succeeded(reply: Json) {
    if Get(reply, "error").Some? && Truthy(Get(reply, "error").value) then false
    else
      match Get(reply, "result")
      case None => true
      case Some(result) => Get(result, "success") != Some(JBool(false))
  }

  /** The reply resolves the call whose request it answers, if any still waits for it. */
  function Answer(calls: seq<Call>, requestId: nat, reply: Json): (r: seq<Call>)
    ensures |r| == |calls|
    ensures forall c :: 0 <= c < |calls| ==>
              r[c] == if calls[c].requestId == requestId && calls[c].progress.Waiting?
                      then calls[c].(progress := Answered(reply)) else calls[c]
  {
    if calls == [] then []
    else
      [if calls[0].requestId == requestId && calls[0].progress.Waiting?
       then calls[0].(progress := Answered(reply)) else calls[0]] + Answer(calls[1..], requestId, reply)
  }

  /** The number a response answers, if it is a response and its id is one. */
  function AnsweredId(m: Json): Option<nat> {
    if Peer.IsResponse(m) then Peer.KeyOf(Get(m, "id").value) else None
  }

  /** A message from the client reaches the peer: only a response of a waiting request's id does anything. */
  function Settle(s: State, m: Json): State {
    match AnsweredId(m)
    case Some(id) => s.(calls := Answer(s.calls, id, m))
    case None => s
  }

  /** The rest of `ToolBroker.call`. */
  function FinishCall(s: State, c: nat): State {
    if c < |s.calls| && s.calls[c].progress.Answered? then
      var call := s.calls[c];
      Emit(s.(calls := s.calls[c := call.(progress := Finished(call.progress.reply))]), OfCall(c),
           [ItemCompleted(call.callId, call.turnId, Succeeded(call.progress.reply))])
    else s
  }

  function Step(s: State, e: Event): State {
    match e
    case StartThread(rpcId, thread) => Register(s, rpcId, thread)
    case ResumeThread(rpcId, thread, recorded) =>
      if recorded then Register(s, rpcId, thread) else Emit(s, Server, [InvalidParams(rpcId, thread)])
    case StartTurn(rpcId, thread) => BeginTurn(s, rpcId, thread)
    case Says(k, m) => Hear(s, k, m)
    case Resolves(k, result, recorded) =>
      if k >= |s.turns| || !s.turns[k].status.Running? then s
      else if recorded then s.(turns := s.turns[k := s.turns[k].(status := Counting(result))])
      else Conclude(s, k, Failed)
    case Rejects(k) => if k >= |s.turns| || !s.turns[k].status.Running? then s else Conclude(s, k, Failed)
    case UsageSettles(k, usage) =>
      if k >= |s.turns| || !s.turns[k].status.Counting? then s
      else Conclude(s, k, Completed(s.turns[k].status.result, usage))
    case CallsTool(r) => BeginCall(s, r)
    case Replies(m) => Settle(s, m)
    case ResumesCall(c) => FinishCall(s, c)
    case Unrelated(text) => Emit(s, Server, [Other(text)])
  }

  function Run(s: State, events: seq<Event>): State
    decreases |events|
  {
    if events == [] then s else Run(Step(s, events[0]), events[1..])
  }

  // ---- What one turn or call puts on the wire ---------------------------------------------------

  function Project(wire: seq<Line>, owner: Owner): seq<Msg> {
    if wire == [] then []
    else (if wire[0].owner == owner then [wire[0].msg] else []) + Project(wire[1..], owner)
  }

  lemma {:induction false} ProjectConcat(a: seq<Line>, b: seq<Line>, owner: Owner)
    ensures Project(a + b, owner) == Project(a, owner) + Project(b, owner)
  {
    if a == [] {
      assert a + b == b;
    } else {
      assert (a + b)[1..] == a[1..] + b;
      ProjectConcat(a[1..], b, owner);
      Assoc(if a[0].owner == owner then [a[0].msg] else [], Project(a[1..], owner), Project(b, owner));
    }
  }

  lemma {:induction false} ProjectTagged(owner: Owner, msgs: seq<Msg>, o: Owner)
    ensures Project(Tagged(owner, msgs), o) == if o == owner then msgs else []
  {
    if msgs != [] {
      ProjectTagged(owner, msgs[1..], o);
    }
  }

  lemma {:induction false} TaggedOwners(owner: Owner, msgs: seq<Msg>)
    ensures forall i :: 0 <= i < |msgs| ==> Tagged(owner, msgs)[i] == Line(owner, msgs[i])
  {
    if msgs != [] {
      TaggedOwners(owner, msgs[1..]);
    }
  }

  lemma {:induction false} NoLinesNoProjection(wire: seq<Line>, owner: Owner)
    requires forall i :: 0 <= i < |wire| ==> wire[i].owner != owner
    ensures Project(wire, owner) == []
  {
    if wire != [] {
      NoLinesNoProjection(wire[1..], owner);
    }
  }

  lemma {:induction false} NotesConcat(thread: string, turnId: string, a: seq<Out>, b: seq<Out>)
    ensures Notes(thread, turnId, a + b) == Notes(thread, turnId, a) + Notes(thread, turnId, b)
  {
    if a == [] {
      assert a + b == b;
    } else {
      assert (a + b)[1..] == a[1..] + b;
      NotesConcat(thread, turnId, a[1..], b);
    }
  }

  /** The translator's output for a turn so far. */
  function TurnOutput(t: Turn): seq<Out> {
    After(t.texts, t.turnId).1 + End(t).1 + Onward(End(t).0, t.late, t.turnId).1
  }

  function TurnLines(t: Turn): seq<Msg> {
    [Accepted(t.rpcId, t.turnId), Started(t.turnId)] + Notes(t.thread, t.turnId, TurnOutput(t))
  }

  function CallLines(c: Call): seq<Msg> {
    [ItemStarted(c.callId, c.turnId), ToolRequest(c.requestId, c.callId, c.turnId)]
    + (if c.progress.Finished? then [ItemCompleted(c.callId, c.turnId, Succeeded(c.progress.reply))] else [])
  }

  // ---- The invariant ----------------------------------------------------------------------------

  predicate TurnOk(s: State, k: nat)
    requires k < |s.turns|
  {
    var t := s.turns[k];
    && t.registration < |s.registrations| && s.registrations[t.registration].thread == t.thread
    && 1 <= t.ordinal <= s.registrations[t.registration].turnSeq && t.turnId == TurnId(t.thread, t.ordinal)
    && (Over(t) || t.late == []) && Project(s.wire, OfTurn(k)) == TurnLines(t)
  }

  predicate CallOk(s: State, c: nat)
    requires c < |s.calls|
  {
    var call := s.calls[c];
    && call.registration < |s.registrations| && call.requestId < s.nextRequest
    && (exists n :: 1 <= n <= s.registrations[call.registration].callN
                    && call.callId == CallId(s.registrations[call.registration].thread, n))
    && Project(s.wire, OfCall(c)) == CallLines(call)
  }

  predicate OwnersExist(s: State) {
    forall i :: 0 <= i < |s.wire| ==>
      (s.wire[i].owner.OfTurn? ==> s.wire[i].owner.k < |s.turns|)
      && (s.wire[i].owner.OfCall? ==> s.wire[i].owner.c < |s.calls|)
  }

  predicate ThreadsRegistered(s: State) {
    forall thread :: thread in s.threads ==>
      s.threads[thread] < |s.registrations| && s.registrations[s.threads[thread]].thread == thread
  }

  predicate DistinctTurns(s: State) {
    forall i, j :: 0 <= i < j < |s.turns| && s.turns[i].registration == s.turns[j].registration ==>
      s.turns[i].ordinal != s.turns[j].ordinal
  }

  predicate DistinctCalls(s: State) {
    forall i, j :: 0 <= i < j < |s.calls| ==>
      s.calls[i].requestId != s.calls[j].requestId
      && (s.calls[i].registration == s.calls[j].registration ==> s.calls[i].callId != s.calls[j].callId)
  }

  predicate Inv(s: State) {
    && ThreadsRegistered(s) && OwnersExist(s) && DistinctTurns(s) && DistinctCalls(s)
    && (forall k :: 0 <= k < |s.turns| ==> TurnOk(s, k))
    && (forall c :: 0 <= c < |s.calls| ==> CallOk(s, c))
  }

  /** Emitting for one owner adds exactly those messages to its projection and to no other. */
  lemma EmitProject(s: State, owner: Owner, msgs: seq<Msg>)
    ensures forall o :: Project(Emit(s, owner, msgs).wire, o) == Project(s.wire, o) + (if o == owner then msgs else [])
    ensures forall i :: 0 <= i < |s.wire| ==> Emit(s, owner, msgs).wire[i] == s.wire[i]
    ensures forall i :: |s.wire| <= i < |Emit(s, owner, msgs).wire| ==> Emit(s, owner, msgs).wire[i].owner == owner
  {
    forall o
      ensures Project(Emit(s, owner, msgs).wire, o) == Project(s.wire, o) + (if o == owner then msgs else [])
    {
      ProjectConcat(s.wire, Tagged(owner, msgs), o);
      ProjectTagged(owner, msgs, o);
    }
    TaggedOwners(owner, msgs);
  }

  lemma ServerLineKeeps(s: State, msgs: seq<Msg>)
    requires Inv(s)
    ensures Inv(Emit(s, Server, msgs))
  {
    var t := Emit(s, Server, msgs);
    EmitProject(s, Server, msgs);
    forall k | 0 <= k < |t.turns|
      ensures TurnOk(t, k)
    {
      assert TurnOk(s, k);
    }
    forall c | 0 <= c < |t.calls|
      ensures CallOk(t, c)
    {
      assert CallOk(s, c);
    }
  }

  lemma RegisterKeeps(s: State, rpcId: Json, thread: string)
    requires Inv(s)
    ensures Inv(Register(s, rpcId, thread))
  {
    var t := s.(registrations := s.registrations + [Registration(thread, 0, "", 0)],
                threads := s.threads[thread := |s.registrations|]);
    forall k | 0 <= k < |t.turns|
      ensures TurnOk(t, k)
    {
      assert TurnOk(s, k);
    }
    forall c | 0 <= c < |t.calls|
      ensures CallOk(t, c)
    {
      assert CallOk(s, c);
    }
    ServerLineKeeps(t, [ThreadReady(rpcId, thread), ThreadStarted(thread)]);
  }

  lemma NewTurnLines(t: Turn)
    requires t.texts == [] && t.status.Running? && t.late == []
    ensures TurnLines(t) == [Accepted(t.rpcId, t.turnId), Started(t.turnId)]
  {
    assert TurnOutput(t) == [];
  }

  lemma BeginTurnKeeps(s: State, rpcId: Json, thread: string)
    requires Inv(s) && thread in s.threads
    ensures Inv(BeginTurn(s, rpcId, thread))
  {
    var t := BeginTurn(s, rpcId, thread);
    var r := s.threads[thread];
    var n := s.registrations[r].turnSeq + 1;
    var turn := Turn(rpcId, r, thread, n, TurnId(thread, n), [], Running, []);
    var mid := s.(registrations := t.registrations, turns := s.turns + [turn]);
    EmitProject(mid, OfTurn(|s.turns|), [Accepted(rpcId, turn.turnId), Started(turn.turnId)]);
    NoLinesNoProjection(s.wire, OfTurn(|s.turns|));
    NewTurnLines(turn);
    forall k | 0 <= k < |t.turns|
      ensures TurnOk(t, k)
    {
      if k < |s.turns| {
        assert TurnOk(s, k);
      }
    }
    forall c | 0 <= c < |t.calls|
      ensures CallOk(t, c)
    {
      assert CallOk(s, c);
    }
    forall i | 0 <= i < |s.turns| && s.turns[i].registration == r
      ensures s.turns[i].ordinal != n
    {
      assert TurnOk(s, i);
    }
  }

  /** One turn moves on: its new lines follow its old ones, everything else is untouched. */
  lemma TurnMoves(s: State, k: nat, turn: Turn, more: seq<Msg>)
    requires Inv(s) && k < |s.turns|
    requires var t := s.turns[k];
             turn.registration == t.registration && turn.thread == t.thread
             && turn.ordinal == t.ordinal && turn.turnId == t.turnId && (Over(turn) || turn.late == [])
             && TurnLines(turn) == TurnLines(t) + more
    ensures Inv(Emit(s.(turns := s.turns[k := turn]), OfTurn(k), more))
  {
    var mid := s.(turns := s.turns[k := turn]);
    var t := Emit(mid, OfTurn(k), more);
    EmitProject(mid, OfTurn(k), more);
    forall j | 0 <= j < |t.turns|
      ensures TurnOk(t, j)
    {
      assert TurnOk(s, j);
    }
    forall c | 0 <= c < |t.calls|
      ensures CallOk(t, c)
    {
      assert CallOk(s, c);
    }
  }

  /** What a turn hears, before or after its end, adds to its output what the translator releases. */
  lemma HeardOutput(t: Turn, text: string)
    requires Over(t) || t.late == []
    ensures TurnOutput(Heard(t, text)) == TurnOutput(t) + OnText(Fields(t), t.turnId, text).1
  {
    var turn, more := Heard(t, text), OnText(Fields(t), t.turnId, text).1;
    var outs := After(t.texts, t.turnId).1;
    if Over(t) {
      assert turn.late[..|turn.late| - 1] == t.late;
      Assoc(outs + End(t).1, Onward(End(t).0, t.late, t.turnId).1, more);
    } else {
      assert turn.texts[..|turn.texts| - 1] == t.texts;
      assert TurnOutput(t) == outs && TurnOutput(turn) == outs + more;
    }
  }

  /** The translator moves with the turn. */
  lemma HeardFields(t: Turn, text: string)
    requires Over(t) || t.late == []
    ensures Fields(Heard(t, text)) == OnText(Fields(t), t.turnId, text).0
  {
    if Over(t) {
      assert Heard(t, text).late[..|t.late|] == t.late;
    } else {
      assert Heard(t, text).texts[..|t.texts|] == t.texts;
    }
  }

  lemma HeardLines(t: Turn, text: string)
    requires Over(t) || t.late == []
    ensures TurnLines(Heard(t, text)) == TurnLines(t) + Notes(t.thread, t.turnId, OnText(Fields(t), t.turnId, text).1)
  {
    var more := OnText(Fields(t), t.turnId, text).1;
    HeardOutput(t, text);
    NotesConcat(t.thread, t.turnId, TurnOutput(t), more);
    Assoc([Accepted(t.rpcId, t.turnId), Started(t.turnId)], Notes(t.thread, t.turnId, TurnOutput(t)),
          Notes(t.thread, t.turnId, more));
  }

  lemma HearKeeps(s: State, k: nat, m: Json)
    requires Inv(s)
    ensures Inv(Hear(s, k, m))
  {
    if k < |s.turns| {
      var t, text := s.turns[k], ExtractText(m);
      assert TurnOk(s, k);
      HeardLines(t, text);
      TurnMoves(s, k, Heard(t, text), Notes(t.thread, t.turnId, OnText(Fields(t), t.turnId, text).1));
    }
  }

  lemma ConcludeKeeps(s: State, k: nat, status: Status)
    requires Inv(s) && Live(s, k) && (status.Completed? || status.Failed?)
    ensures Inv(Conclude(s, k, status))
  {
    var t := s.turns[k];
    assert TurnOk(s, k);
    TurnMoves(s, k, t.(status := status), EndingLines(t, status));
  }

  /** What a running turn adds to its output when it ends. */
  function EndingLines(t: Turn, status: Status): (msgs: seq<Msg>)
    requires status.Completed? || status.Failed?
    ensures !Over(t) && t.late == [] ==> TurnLines(t.(status := status)) == TurnLines(t) + msgs
  {
    var outs, more := After(t.texts, t.turnId).1, End(t.(status := status)).1;
    NotesConcat(t.thread, t.turnId, outs, more);
    assert outs + [] + [] == outs && outs + more + [] == outs + more;
    Notes(t.thread, t.turnId, more)
  }

  lemma CountKeeps(s: State, k: nat, result: string)
    requires Inv(s) && k < |s.turns| && s.turns[k].status.Running?
    ensures Inv(s.(turns := s.turns[k := s.turns[k].(status := Counting(result))]))
  {
    var turn := s.turns[k].(status := Counting(result));
    assert TurnOk(s, k);
    TurnMoves(s, k, turn, []);
    assert s.wire + [] == s.wire;
  }

  lemma BeginCallKeeps(s: State, r: nat)
    requires Inv(s) && r < |s.registrations|
    ensures Inv(BeginCall(s, r))
  {
    var t := BeginCall(s, r);
    var reg := s.registrations[r];
    var n := reg.callN + 1;
    var call := Call(r, CallId(reg.thread, n), CurrentTurn(s, reg.thread), s.nextRequest, Waiting);
    var mid := s.(registrations := t.registrations, calls := s.calls + [call], nextRequest := s.nextRequest + 1);
    EmitProject(mid, OfCall(|s.calls|),
                [ItemStarted(call.callId, call.turnId), ToolRequest(s.nextRequest, call.callId, call.turnId)]);
    NoLinesNoProjection(s.wire, OfCall(|s.calls|));
    forall k | 0 <= k < |t.turns|
      ensures TurnOk(t, k)
    {
      assert TurnOk(s, k);
    }
    forall c | 0 <= c < |s.calls|
      ensures CallOk(t, c)
    {
      assert CallOk(s, c);
    }
    assert CallOk(t, |s.calls|) by {
      assert t.calls[|s.calls|].callId == CallId(t.registrations[r].thread, n);
    }
    NewCallIsDistinct(s, r);
  }

  lemma NewCallIsDistinct(s: State, r: nat)
    requires Inv(s) && r < |s.registrations|
    ensures forall i :: 0 <= i < |s.calls| ==>
              s.calls[i].requestId != s.nextRequest
              && (s.calls[i].registration == r ==>
                    s.calls[i].callId != CallId(s.registrations[r].thread, s.registrations[r].callN + 1))
  {
    var reg := s.registrations[r];
    var n := reg.callN + 1;
    forall i | 0 <= i < |s.calls|
      ensures s.calls[i].requestId != s.nextRequest
              && (s.calls[i].registration == r ==> s.calls[i].callId != CallId(reg.thread, n))
    {
      assert CallOk(s, i);
      if s.calls[i].registration == r && s.calls[i].callId == CallId(reg.thread, n) {
        var m :| 1 <= m <= reg.callN && s.calls[i].callId == CallId(reg.thread, m);
        StampedInjective("call_", reg.thread, m, reg.thread, n);
      }
    }
  }

  lemma AnswerKeeps(s: State, requestId: nat, reply: Json)
    requires Inv(s)
    ensures Inv(s.(calls := Answer(s.calls, requestId, reply)))
  {
    var t := s.(calls := Answer(s.calls, requestId, reply));
    forall k | 0 <= k < |t.turns|
      ensures TurnOk(t, k)
    {
      assert TurnOk(s, k);
    }
    forall c | 0 <= c < |t.calls|
      ensures CallOk(t, c)
    {
      AnsweredCallOk(s, requestId, reply, c);
    }
  }

  lemma AnsweredCallOk(s: State, requestId: nat, reply: Json, c: nat)
    requires c < |s.calls| && CallOk(s, c)
    ensures CallOk(s.(calls := Answer(s.calls, requestId, reply)), c)
  {
    var before, after := s.calls[c], Answer(s.calls, requestId, reply)[c];
    assert CallLines(after) == CallLines(before) && after == before.(progress := after.progress);
  }

  lemma FinishCallKeeps(s: State, c: nat)
    requires Inv(s)
    ensures Inv(FinishCall(s, c))
  {
    if c < |s.calls| && s.calls[c].progress.Answered? {
      var call := s.calls[c];
      var done := [ItemCompleted(call.callId, call.turnId, Succeeded(call.progress.reply))];
      var mid := s.(calls := s.calls[c := call.(progress := Finished(call.progress.reply))]);
      var t := Emit(mid, OfCall(c), done);
      EmitProject(mid, OfCall(c), done);
      forall k | 0 <= k < |t.turns|
        ensures TurnOk(t, k)
      {
        assert TurnOk(s, k);
      }
      forall d | 0 <= d < |t.calls|
        ensures CallOk(t, d)
      {
        assert CallOk(s, d);
      }
    }
  }

  lemma StepKeeps(s: State, e: Event)
    requires Inv(s)
    ensures Inv(Step(s, e))
  {
    match e
    case StartThread(rpcId, thread) => RegisterKeeps(s, rpcId, thread);
    case ResumeThread(rpcId, thread, recorded) =>
      RegisterKeeps(s, rpcId, thread);
      ServerLineKeeps(s, [InvalidParams(rpcId, thread)]);
    case StartTurn(rpcId, thread) =>
      if thread in s.threads {
        BeginTurnKeeps(s, rpcId, thread);
      } else {
        ServerLineKeeps(s, [InvalidParams(rpcId, thread)]);
      }
    case Says(k, m) => HearKeeps(s, k, m);
    case Resolves(k, result, recorded) =>
      if k < |s.turns| && s.turns[k].status.Running? {
        if recorded {
          CountKeeps(s, k, result);
        } else {
          ConcludeKeeps(s, k, Failed);
        }
      }
    case Rejects(k) =>
      if k < |s.turns| && s.turns[k].status.Running? {
        ConcludeKeeps(s, k, Failed);
      }
    case UsageSettles(k, usage) =>
      if k < |s.turns| && s.turns[k].status.Counting? {
        ConcludeKeeps(s, k, Completed(s.turns[k].status.result, usage));
      }
    case CallsTool(r) =>
      if r < |s.registrations| {
        BeginCallKeeps(s, r);
      }
    case Replies(m) =>
      if AnsweredId(m).Some? {
        AnswerKeeps(s, AnsweredId(m).value, m);
      }
    case ResumesCall(c) => FinishCallKeeps(s, c);
    case Unrelated(text) => ServerLineKeeps(s, [Other(text)]);
  }

  lemma {:induction false} RunKeeps(s: State, events: seq<Event>)
    requires Inv(s)
    ensures Inv(Run(s, events))
    decreases |events|
  {
    if events != [] {
      StepKeeps(s, events[0]);
      RunKeeps(Step(s, events[0]), events[1..]);
    }
  }

  // ---- The registry of live threads -------------------------------------------------------------

  /** What the registry holds: for each live thread its newest registration. */
  function LiveEntries(s: State): map<string, Entry>
    requires ThreadsRegistered(s)
  {
    map thread | thread in s.threads ::
      var r := s.threads[thread];
      Entry(r, s.registrations[r].turnSeq, s.registrations[r].currentTurnId)
  }

  lemma RegisterIsRefined(s: State, rpcId: Json, thread: string)
    requires ThreadsRegistered(s)
    ensures ThreadsRegistered(Register(s, rpcId, thread))
    ensures LiveEntries(Register(s, rpcId, thread)) == Registered(LiveEntries(s), thread, |s.registrations|)
  {
  }

  /** The entries of a turn's start: the next number, and the id made from it. */
  function TurnEntries(threads: map<string, Entry>, thread: string): map<string, Entry> {
    if thread !in threads then threads
    else
      var counted := Advanced(threads, thread);
      counted[thread := counted[thread].(currentTurnId := TurnId(thread, counted[thread].turnSeq))]
  }

  lemma BeginTurnIsRefined(s: State, rpcId: Json, thread: string)
    requires ThreadsRegistered(s)
    ensures ThreadsRegistered(BeginTurn(s, rpcId, thread))
    ensures LiveEntries(BeginTurn(s, rpcId, thread)) == TurnEntries(LiveEntries(s), thread)
  {
    if thread in s.threads {
      var r := s.threads[thread];
      forall other | other in s.threads && other != thread
        ensures s.threads[other] != r
      {
        assert s.registrations[s.threads[other]].thread == other;
      }
    }
  }

  /** Steps that leave threads, counters and current turns alone leave the registry alone. */
  lemma SameEntries(s: State, t: State)
    requires ThreadsRegistered(s) && t.threads == s.threads && |t.registrations| == |s.registrations|
    requires forall r :: 0 <= r < |s.registrations| ==>
               t.registrations[r] == s.registrations[r].(callN := t.registrations[r].callN)
    ensures ThreadsRegistered(t) && LiveEntries(t) == LiveEntries(s)
  {
  }

  /** The system moves the registry by its own operations only: a registration for a started thread or a
      recorded one that is resumed, the next turn's id for an accepted turn, nothing for any other step. */
  lemma RegistryIsRefined(s: State, e: Event)
    requires ThreadsRegistered(s)
    ensures ThreadsRegistered(Step(s, e))
    ensures LiveEntries(Step(s, e)) ==
            match e
            case StartThread(_, thread) => Registered(LiveEntries(s), thread, |s.registrations|)
            case ResumeThread(_, thread, recorded) =>
              if recorded then Registered(LiveEntries(s), thread, |s.registrations|) else LiveEntries(s)
            case StartTurn(_, thread) => TurnEntries(LiveEntries(s), thread)
            case _ => LiveEntries(s)
  {
    match e
    case StartThread(rpcId, thread) => RegisterIsRefined(s, rpcId, thread);
    case ResumeThread(rpcId, thread, recorded) => RegisterIsRefined(s, rpcId, thread);
    case StartTurn(rpcId, thread) => BeginTurnIsRefined(s, rpcId, thread);
    case _ => SameEntries(s, Step(s, e));
  }

  // ---- Where the state comes from ---------------------------------------------------------------

  /** The texts the session's callback passes on for a turn in the course of some events. */
  function Spoken(s: State, events: seq<Event>, k: nat): seq<string>
    decreases |events|
  {
    if events == [] then [] else SpokenNow(s, events[0], k) + Spoken(Step(s, events[0]), events[1..], k)
  }

  function SpokenNow(s: State, e: Event, k: nat): seq<string> {
    if e.Says? && e.k == k && k < |s.turns| then [ExtractText(e.m)] else []
  }

  /** All that a turn has heard, before and after its end. */
  function HeardSoFar(s: State, k: nat): seq<string> {
    if k < |s.turns| then s.turns[k].texts + s.turns[k].late else []
  }

  lemma HeardGrows(t: Turn, text: string)
    requires Over(t) || t.late == []
    ensures Heard(t, text).texts + Heard(t, text).late == t.texts + t.late + [text]
  {
  }

  lemma SilentStep(s: State, e: Event, k: nat)
    requires !e.Says?
    ensures HeardSoFar(Step(s, e), k) == HeardSoFar(s, k)
  {
  }

  lemma StepHears(s: State, e: Event, k: nat)
    requires Inv(s)
    ensures HeardSoFar(Step(s, e), k) == HeardSoFar(s, k) + SpokenNow(s, e, k)
  {
    assert HeardSoFar(s, k) + [] == HeardSoFar(s, k);
    if !e.Says? {
      SilentStep(s, e, k);
    } else if e.k == k && k < |s.turns| {
      assert TurnOk(s, k);
      HeardGrows(s.turns[k], ExtractText(e.m));
    }
  }

  /** A turn's texts are exactly what the callback passed on, in order. */
  lemma {:induction false} TextsAreSpoken(s: State, events: seq<Event>, k: nat)
    requires Inv(s)
    ensures HeardSoFar(Run(s, events), k) == HeardSoFar(s, k) + Spoken(s, events, k)
    decreases |events|
  {
    if events == [] {
      assert HeardSoFar(s, k) + [] == HeardSoFar(s, k);
    } else {
      StepKeeps(s, events[0]);
      StepHears(s, events[0], k);
      TextsAreSpoken(Step(s, events[0]), events[1..], k);
      Assoc(HeardSoFar(s, k), SpokenNow(s, events[0], k), Spoken(Step(s, events[0]), events[1..], k));
    }
  }

  /** A turn was asked for, and its outcome is what the session reported. */
  ghost predicate TurnCaused(past: seq<Event>, t: Turn, k: nat) {
    && StartTurn(t.rpcId, t.thread) in past
    && match t.status
       case Running => true
       case Counting(result) => Resolves(k, result, true) in past
       case Completed(result, usage) => Resolves(k, result, true) in past && UsageSettles(k, usage) in past
       case Failed => Rejects(k) in past || exists result :: Resolves(k, result, false) in past
  }

  /** The reply a call goes by came in, and answers the call's own request. */
  predicate CallCaused(past: seq<Event>, call: Call) {
    call.progress.Waiting?
    || (Replies(call.progress.reply) in past && AnsweredId(call.progress.reply) == Some(call.requestId))
  }

  ghost predicate Caused(past: seq<Event>, s: State) {
    && (forall k :: 0 <= k < |s.turns| ==> TurnCaused(past, s.turns[k], k))
    && (forall c :: 0 <= c < |s.calls| ==> CallCaused(past, s.calls[c]))
  }

  lemma TurnStillCaused(past: seq<Event>, e: Event, t: Turn, k: nat)
    requires TurnCaused(past, t, k)
    ensures TurnCaused(past + [e], t, k)
  {
    if t.status.Failed? && Rejects(k) !in past {
      var result :| Resolves(k, result, false) in past;
      assert Resolves(k, result, false) in past + [e];
    }
  }

  lemma TurnStepCaused(past: seq<Event>, s: State, e: Event, k: nat)
    requires Caused(past, s) && k < |Step(s, e).turns|
    ensures TurnCaused(past + [e], Step(s, e).turns[k], k)
  {
    var t := Step(s, e).turns[k];
    assert e in past + [e];
    if k < |s.turns| {
      var before := s.turns[k];
      TurnStillCaused(past, e, before, k);
      if t.status != before.status && t.status.Failed? && e.Resolves? {
        assert Resolves(k, e.result, false) == e;
      }
    }
  }

  lemma CallStepCaused(past: seq<Event>, s: State, e: Event, c: nat)
    requires Caused(past, s) && c < |Step(s, e).calls|
    ensures CallCaused(past + [e], Step(s, e).calls[c])
  {
    assert e in past + [e];
    if c < |s.calls| {
      assert CallCaused(past, s.calls[c]);
    }
  }

  lemma {:induction false} RunCaused(past: seq<Event>, s: State, events: seq<Event>)
    requires Caused(past, s)
    ensures Caused(past + events, Run(s, events))
    decreases |events|
  {
    if events == [] {
      assert past + [] == past;
    } else {
      var e, next := events[0], Step(s, events[0]);
      forall k | 0 <= k < |next.turns|
        ensures TurnCaused(past + [e], next.turns[k], k)
      {
        TurnStepCaused(past, s, e, k);
      }
      forall c | 0 <= c < |next.calls|
        ensures CallCaused(past + [e], next.calls[c])
      {
        CallStepCaused(past, s, e, c);
      }
      RunCaused(past + [e], next, events[1..]);
      assert past + [e] + events[1..] == past + events;
    }
  }

  /** The request ids of the relayed calls that wait for their replies. */
  function WaitingIds(calls: seq<Call>): set<nat> {
    set c | 0 <= c < |calls| && calls[c].progress.Waiting? :: calls[c].requestId
  }

  /** The relayed calls are the peer's own pending requests: a call issues one, a message resolves one or
      none, nothing else moves them. */
  lemma PeerIsRefined<App>(s: State, e: Event, c: Peer.Core<App>)
    requires c.nextId == s.nextRequest && c.pending == WaitingIds(s.calls)
    ensures var d := match e
                     case CallsTool(r) => if r < |s.registrations| then Peer.Issue(c) else c
                     case Replies(m) => if Peer.IsResponse(m) then Peer.Resolve(c, m) else c
                     case _ => c;
            Step(s, e).nextRequest == d.nextId && WaitingIds(Step(s, e).calls) == d.pending
  {
    var calls := Step(s, e).calls;
    match e
    case CallsTool(r) =>
      if r < |s.registrations| {
        NewWaits(s.calls, calls);
      }
    case Replies(m) =>
      if AnsweredId(m).Some? {
        AnsweredWaits(s.calls, AnsweredId(m).value, m);
      }
    case ResumesCall(i) =>
      SameWaits(s.calls, calls);
    case _ =>
  }

  lemma NewWaits(calls: seq<Call>, more: seq<Call>)
    requires |more| == |calls| + 1 && more[..|calls|] == calls && more[|calls|].progress.Waiting?
    ensures WaitingIds(more) == WaitingIds(calls) + {more[|calls|].requestId}
  {
    assert forall c :: 0 <= c < |calls| ==> more[c] == calls[c];
  }

  lemma SameWaits(calls: seq<Call>, others: seq<Call>)
    requires |others| == |calls|
    requires forall c :: 0 <= c < |calls| ==>
               others[c].requestId == calls[c].requestId
                   && (others[c].progress.Waiting? <==> calls[c].progress.Waiting?)
    ensures WaitingIds(others) == WaitingIds(calls)
  {
  }

  lemma AnsweredWaits(calls: seq<Call>, id: nat, reply: Json)
    ensures WaitingIds(Answer(calls, id, reply)) == WaitingIds(calls) - {id}
  {
    var others := Answer(calls, id, reply);
    forall x | x in WaitingIds(calls) && x != id
      ensures x in WaitingIds(others)
    {
      var c :| 0 <= c < |calls| && calls[c].progress.Waiting? && calls[c].requestId == x;
      assert others[c] == calls[c];
    }
  }

  // ---- Main results -----------------------------------------------------------------------------

  /** What a client reads for one accepted turn, as items, usage and one ending. */
  function TurnReport(t: Turn): seq<Out> {
    match t.status
    case Completed(result, usage) => Numbered(t.turnId, Report(t.texts, result), FinalAnswer) + Ending(usage)
    case Failed => AsCommentary(t.turnId, AllButLast(NonEmpty(t.texts))) + [TurnFailed]
    case _ => AsCommentary(t.turnId, AllButLast(NonEmpty(t.texts)))
  }

  /** The last text before the end, which the translator still holds, and the texts after it. */
  function Unfinished(t: Turn): seq<string> {
    var said := NonEmpty(t.texts);
    (if said == [] then [] else [said[|said| - 1]]) + NonEmpty(t.late)
  }

  /** What late callbacks add: all of these but the last, numbered on from the report's items. */
  function LateReport(t: Turn): seq<Out> {
    var items := match t.status
                 case Completed(result, _) => |Report(t.texts, result)|
                 case _ => |AllButLast(NonEmpty(t.texts))|;
    CommentaryFrom(t.turnId, items, AllButLast(Unfinished(t)))
  }

  lemma EndReports(t: Turn)
    ensures After(t.texts, t.turnId).1 + End(t).1 == TurnReport(t)
  {
    HoldBack(t.texts, t.turnId);
    var outs := After(t.texts, t.turnId).1;
    assert outs + [] == outs;
    if t.status.Completed? {
      TranslationIsConserved(t.texts, t.turnId, t.status.result, t.status.usage);
    }
  }

  lemma EndHolds(t: Turn)
    ensures var items := match t.status
                         case Completed(result, _) => |Report(t.texts, result)|
                         case _ => |AllButLast(NonEmpty(t.texts))|;
            End(t).0 == Held(items, Last(NonEmpty(t.texts)))
  {
    HoldBack(t.texts, t.turnId);
    if t.status.Completed? {
      FinalItems(t.texts, t.turnId, t.status.result);
    }
  }

  lemma LateIsReported(t: Turn)
    ensures Onward(End(t).0, t.late, t.turnId).1 == LateReport(t)
  {
    EndHolds(t);
    OnwardReleases(End(t).0, t.late, t.turnId, Unfinished(t));
  }

  /** A turn's texts are what the callback passed on for it, in order, and its request and outcome are events
      of the run. */
  ghost predicate HasHistory(events: seq<Event>, k: nat)
    requires k < |Run(INITIAL_STATE, events).turns|
  {
    var t := Run(INITIAL_STATE, events).turns[k];
    t.texts + t.late == Spoken(INITIAL_STATE, events, k) && (Over(t) || t.late == []) && TurnCaused(events, t, k)
  }

  lemma TurnHistory(events: seq<Event>, k: nat)
    requires k < |Run(INITIAL_STATE, events).turns|
    ensures HasHistory(events, k)
  {
    RunKeeps(INITIAL_STATE, events);
    assert TurnOk(Run(INITIAL_STATE, events), k);
    TextsAreSpoken(INITIAL_STATE, events, k);
    assert [] + Spoken(INITIAL_STATE, events, k) == Spoken(INITIAL_STATE, events, k);
    RunIsCaused(events);
  }

  lemma RunIsCaused(events: seq<Event>)
    ensures Caused(events, Run(INITIAL_STATE, events))
  {
    RunCaused([], INITIAL_STATE, events);
    assert [] + events == events;
  }

  /** Turn trace safety: in every run, however turns interleave, the wire carries for each accepted
      turn its reply, `turn/started`, its commentary, and exactly one ending once it is over: the final
      answer, optional usage and `turn/completed`, or `turn/failed` alone. Only what a late callback
      releases follows an ending. The texts are what the callback passed on, the outcome is the session's. */
  lemma EveryTurnIsTraced(events: seq<Event>, k: nat)
    requires k < |Run(INITIAL_STATE, events).turns|
    ensures var s := Run(INITIAL_STATE, events);
            var t := s.turns[k];
            Project(s.wire, OfTurn(k))
            == [Accepted(t.rpcId, t.turnId), Started(t.turnId)]
               + Notes(t.thread, t.turnId, TurnReport(t) + LateReport(t))
    ensures var t := Run(INITIAL_STATE, events).turns[k];
            LateReport(t) == [] <==> |Unfinished(t)| <= 1
    ensures HasHistory(events, k)
  {
    RunKeeps(INITIAL_STATE, events);
    var s := Run(INITIAL_STATE, events);
    assert TurnOk(s, k);
    EndReports(s.turns[k]);
    LateIsReported(s.turns[k]);
    TurnHistory(events, k);
  }

  /** A session that calls back only until its promise settles leaves the ending last. */
  lemma NothingLateNothingAfter(t: Turn)
    ensures t.late == [] ==> LateReport(t) == []
    ensures NonEmpty(t.late) == [] ==> LateReport(t) == []
  {
  }

  /** Each relayed tool call puts out its start, its request and, once answered, its completion, in that
      order and under one call id and one turn id, even if the thread's current turn has moved on. The
      reply it goes by is one that came in for the call's own request. */
  lemma EveryCallIsTraced(events: seq<Event>, c: nat)
    requires c < |Run(INITIAL_STATE, events).calls|
    ensures var s := Run(INITIAL_STATE, events);
            var call := s.calls[c];
            Project(s.wire, OfCall(c))
            == [ItemStarted(call.callId, call.turnId), ToolRequest(call.requestId, call.callId, call.turnId)]
               + (if call.progress.Finished? then
                    [ItemCompleted(call.callId, call.turnId, Succeeded(call.progress.reply))]
                  else [])
    ensures CallCaused(events, Run(INITIAL_STATE, events).calls[c])
  {
    RunIsCaused(events);
    RunKeeps(INITIAL_STATE, events);
    assert CallOk(Run(INITIAL_STATE, events), c);
  }

  /** Two turns share an id exactly when they are the same numbered turn of the same thread, which
      happens only across registrations. */
  lemma TurnIdsRepeatOnlyAcrossRegistrations(events: seq<Event>, i: nat, j: nat)
    requires i < |Run(INITIAL_STATE, events).turns| && j < |Run(INITIAL_STATE, events).turns| && i != j
    ensures var turns := Run(INITIAL_STATE, events).turns;
            (turns[i].turnId == turns[j].turnId <==>
             turns[i].thread == turns[j].thread && turns[i].ordinal == turns[j].ordinal)
            && (turns[i].turnId == turns[j].turnId ==> turns[i].registration != turns[j].registration)
  {
    RunKeeps(INITIAL_STATE, events);
    var s := Run(INITIAL_STATE, events);
    assert TurnOk(s, i) && TurnOk(s, j);
    var a, b := s.turns[i], s.turns[j];
    if a.turnId == b.turnId {
      StampedInjective("turn_", a.thread, a.ordinal, b.thread, b.ordinal);
    }
  }

  /** Resuming a live thread starts its numbering again, so an id can be handed out twice. */
  lemma ResumeRepeatsTurnIds(thread: string)
    ensures var events := [StartThread(JNull, thread), StartTurn(JNull, thread),
                           ResumeThread(JNull, thread, true), StartTurn(JNull, thread)];
            var turns := Run(INITIAL_STATE, events).turns;
            |turns| == 2 && turns[0].turnId == turns[1].turnId
  {
    var events := [StartThread(JNull, thread), StartTurn(JNull, thread),
                   ResumeThread(JNull, thread, true), StartTurn(JNull, thread)];
    var s1 := Step(INITIAL_STATE, events[0]);
    var s2 := Step(s1, events[1]);
    var s3 := Step(s2, events[2]);
    var s4 := Step(s3, events[3]);
    assert events[1..][1..][1..][1..] == [];
    assert Run(s4, []) == s4;
    assert events[1..][1..][1..] == [events[3]];
    assert Run(s3, [events[3]]) == s4;
    assert events[1..][1..] == [events[2], events[3]] && [events[2], events[3]][1..] == [events[3]];
    assert Run(s2, [events[2], events[3]]) == s4;
    assert events[1..] == [events[1], events[2], events[3]] && events[1..][1..] == [events[2], events[3]];
    assert Run(s1, events[1..]) == s4;
  }

  /** Call and request ids are distinct within a registration and on the whole connection. */
  lemma CallsAreDistinct(events: seq<Event>, i: nat, j: nat)
    requires i < j < |Run(INITIAL_STATE, events).calls|
    ensures var calls := Run(INITIAL_STATE, events).calls;
            calls[i].requestId != calls[j].requestId
            && (calls[i].registration == calls[j].registration ==> calls[i].callId != calls[j].callId)
  {
    RunKeeps(INITIAL_STATE, events);
  }

  // ---- Reading the wire by turn id --------------------------------------------------------------

  /** The turn id a turn-lifecycle line carries. */
  function TurnIdOf(msg: Msg): Option<string> {
    match msg
    case Accepted(_, turnId) => Some(turnId)
    case Started(turnId) => Some(turnId)
    case Notify(_, turnId, _) => Some(turnId)
    case _ => None
  }

  function ById(wire: seq<Line>, turnId: string): seq<Msg> {
    if wire == [] then []
    else (if TurnIdOf(wire[0].msg) == Some(turnId) then [wire[0].msg] else []) + ById(wire[1..], turnId)
  }

  /** Lifecycle lines belong to turns, and carry their turn's id. */
  predicate Labelled(s: State) {
    forall i :: 0 <= i < |s.wire| ==>
      match s.wire[i].owner
      case OfTurn(k) => k < |s.turns| && TurnIdOf(s.wire[i].msg) == Some(s.turns[k].turnId)
      case _ => TurnIdOf(s.wire[i].msg) == None
  }

  lemma {:induction false} NotesAreLabelled(thread: string, turnId: string, outs: seq<Out>)
    ensures forall i :: 0 <= i < |outs| ==> TurnIdOf(Notes(thread, turnId, outs)[i]) == Some(turnId)
  {
    if outs != [] {
      NotesAreLabelled(thread, turnId, outs[1..]);
    }
  }

  lemma EmitLabelled(s: State, owner: Owner, msgs: seq<Msg>)
    requires Labelled(s)
    requires forall i :: 0 <= i < |msgs| ==>
               match owner
               case OfTurn(k) => k < |s.turns| && TurnIdOf(msgs[i]) == Some(s.turns[k].turnId)
               case _ => TurnIdOf(msgs[i]) == None
    ensures Labelled(Emit(s, owner, msgs))
  {
    TaggedOwners(owner, msgs);
  }

  lemma NotedKeepsLabels(s: State, k: nat, turn: Turn, outs: seq<Out>)
    requires Labelled(s) && k < |s.turns| && turn.turnId == s.turns[k].turnId
    ensures Labelled(Emit(s.(turns := s.turns[k := turn]), OfTurn(k), Notes(turn.thread, turn.turnId, outs)))
  {
    NotesAreLabelled(turn.thread, turn.turnId, outs);
    EmitLabelled(s.(turns := s.turns[k := turn]), OfTurn(k), Notes(turn.thread, turn.turnId, outs));
  }

  lemma BeginCallLabels(s: State, r: nat)
    requires Labelled(s) && r < |s.registrations|
    ensures Labelled(BeginCall(s, r))
  {
    var t := BeginCall(s, r);
    var call := t.calls[|s.calls|];
    EmitLabelled(t.(wire := s.wire), OfCall(|s.calls|),
                 [ItemStarted(call.callId, call.turnId), ToolRequest(s.nextRequest, call.callId, call.turnId)]);
  }

  lemma FinishCallLabels(s: State, c: nat)
    requires Labelled(s)
    ensures Labelled(FinishCall(s, c))
  {
    if c < |s.calls| && s.calls[c].progress.Answered? {
      var t := FinishCall(s, c);
      EmitLabelled(t.(wire := s.wire), OfCall(c),
                   [ItemCompleted(s.calls[c].callId, s.calls[c].turnId, Succeeded(s.calls[c].progress.reply))]);
    }
  }

  lemma BeginTurnLabels(s: State, rpcId: Json, thread: string)
    requires Labelled(s)
    ensures Labelled(BeginTurn(s, rpcId, thread))
  {
    if thread in s.threads && s.threads[thread] < |s.registrations| {
      var t := BeginTurn(s, rpcId, thread);
      var turnId := t.turns[|s.turns|].turnId;
      EmitLabelled(t.(wire := s.wire), OfTurn(|s.turns|), [Accepted(rpcId, turnId), Started(turnId)]);
    } else {
      EmitLabelled(s, Server, [InvalidParams(rpcId, thread)]);
    }
  }

  lemma ConcludeLabels(s: State, k: nat, status: Status)
    requires Labelled(s) && k < |s.turns| && (status.Completed? || status.Failed?)
    ensures Labelled(Conclude(s, k, status))
  {
    var t := s.turns[k];
    NotedKeepsLabels(s, k, t.(status := status),
                     if status.Failed? then [TurnFailed]
                     else Finish(After(t.texts, t.turnId).0, t.turnId, status.result, status.usage));
  }

  lemma StepLabels(s: State, e: Event)
    requires Labelled(s)
    ensures Labelled(Step(s, e))
  {
    match e
    case StartTurn(rpcId, thread) => BeginTurnLabels(s, rpcId, thread);
    case Says(k, m) =>
      if k < |s.turns| {
        var t := s.turns[k];
        NotedKeepsLabels(s, k, Heard(t, ExtractText(m)), OnText(Fields(t), t.turnId, ExtractText(m)).1);
      }
    case Resolves(k, _, recorded) =>
      if k < |s.turns| {
        ConcludeLabels(s, k, Failed);
      }
    case Rejects(k) =>
      if k < |s.turns| {
        ConcludeLabels(s, k, Failed);
      }
    case UsageSettles(k, usage) =>
      if k < |s.turns| && s.turns[k].status.Counting? {
        ConcludeLabels(s, k, Completed(s.turns[k].status.result, usage));
      }
    case CallsTool(r) =>
      if r < |s.registrations| {
        BeginCallLabels(s, r);
      }
    case Replies(_) =>
    case ResumesCall(c) => FinishCallLabels(s, c);
    case StartThread(rpcId, thread) =>
      EmitLabelled(Step(s, e).(wire := s.wire), Server, [ThreadReady(rpcId, thread), ThreadStarted(thread)]);
    case ResumeThread(rpcId, thread, recorded) =>
      EmitLabelled(Step(s, e).(wire := s.wire), Server, [ThreadReady(rpcId, thread), ThreadStarted(thread)]);
      EmitLabelled(s, Server, [InvalidParams(rpcId, thread)]);
    case Unrelated(text) => EmitLabelled(s, Server, [Other(text)]);
  }

  lemma {:induction false} RunLabels(s: State, events: seq<Event>)
    requires Inv(s) && Labelled(s)
    ensures Labelled(Run(s, events))
    decreases |events|
  {
    if events != [] {
      StepKeeps(s, events[0]);
      StepLabels(s, events[0]);
      RunLabels(Step(s, events[0]), events[1..]);
    }
  }

  predicate LinesLabelled(wire: seq<Line>, turns: seq<Turn>) {
    forall i :: 0 <= i < |wire| ==>
      match wire[i].owner
      case OfTurn(j) => j < |turns| && TurnIdOf(wire[i].msg) == Some(turns[j].turnId)
      case _ => TurnIdOf(wire[i].msg) == None
  }

  lemma {:induction false} ByIdIsProjection(wire: seq<Line>, turns: seq<Turn>, k: nat)
    requires k < |turns| && LinesLabelled(wire, turns)
    requires forall j :: 0 <= j < |turns| && j != k ==> turns[j].turnId != turns[k].turnId
    ensures ById(wire, turns[k].turnId) == Project(wire, OfTurn(k))
  {
    if wire != [] {
      ByIdIsProjection(wire[1..], turns, k);
    }
  }

  /** Reading by an id that two turns share finds the lines of both. */
  lemma {:induction false} ByIdFindsBoth(wire: seq<Line>, turns: seq<Turn>, j: nat, k: nat)
    requires j < |turns| && k < |turns| && j != k && LinesLabelled(wire, turns) && turns[j].turnId == turns[k].turnId
    ensures |ById(wire, turns[k].turnId)| >= |Project(wire, OfTurn(j))| + |Project(wire, OfTurn(k))|
  {
    if wire != [] {
      ByIdFindsBoth(wire[1..], turns, j, k);
    }
  }

  /** A client that reads the wire by turn id sees exactly that turn's trace, if and only if no other
      registration of the thread has handed the number out as well. */
  lemma WireByTurnId(events: seq<Event>, k: nat)
    requires k < |Run(INITIAL_STATE, events).turns|
    ensures var s := Run(INITIAL_STATE, events);
            var t := s.turns[k];
            ById(s.wire, t.turnId)
            == [Accepted(t.rpcId, t.turnId), Started(t.turnId)]
               + Notes(t.thread, t.turnId, TurnReport(t) + LateReport(t))
            <==> forall j :: 0 <= j < |s.turns| && j != k ==>
                   s.turns[j].thread != t.thread || s.turns[j].ordinal != t.ordinal
  {
    var s := Run(INITIAL_STATE, events);
    RunLabels(INITIAL_STATE, events);
    EveryTurnIsTraced(events, k);
    forall j | 0 <= j < |s.turns| && j != k
      ensures s.turns[j].turnId == s.turns[k].turnId <==>
              s.turns[j].thread == s.turns[k].thread && s.turns[j].ordinal == s.turns[k].ordinal
    {
      TurnIdsRepeatOnlyAcrossRegistrations(events, j, k);
    }
    if j :| 0 <= j < |s.turns| && j != k && s.turns[j].turnId == s.turns[k].turnId {
      EveryTurnIsTraced(events, j);
      ByIdFindsBoth(s.wire, s.turns, j, k);
    } else {
      ByIdIsProjection(s.wire, s.turns, k);
    }
  }

  // ---- Endings are final ------------------------------------------------------------------------

  lemma OverIsKept(s: State, e: Event, k: nat)
    requires k < |s.turns| && Over(s.turns[k])
    ensures k < |Step(s, e).turns|
    ensures Step(s, e).turns[k] == s.turns[k].(late := s.turns[k].late + SpokenNow(s, e, k))
  {
    assert s.turns[k].late + [] == s.turns[k].late;
  }

  lemma {:induction false} OverIsKeptByRuns(s: State, events: seq<Event>, k: nat)
    requires Inv(s) && k < |s.turns| && Over(s.turns[k])
    ensures Inv(Run(s, events)) && k < |Run(s, events).turns|
    ensures Run(s, events).turns[k] == s.turns[k].(late := s.turns[k].late + Spoken(s, events, k))
    decreases |events|
  {
    if events == [] {
      assert s.turns[k].late + [] == s.turns[k].late;
    } else {
      StepKeeps(s, events[0]);
      OverIsKept(s, events[0], k);
      OverIsKeptByRuns(Step(s, events[0]), events[1..], k);
      Assoc(s.turns[k].late, SpokenNow(s, events[0], k), Spoken(Step(s, events[0]), events[1..], k));
    }
  }

  lemma {:induction false} NonEmptyConcat(a: seq<string>, b: seq<string>)
    ensures NonEmpty(a + b) == NonEmpty(a) + NonEmpty(b)
  {
    if b == [] {
      assert a + b == a;
    } else {
      assert (a + b)[..|a + b| - 1] == a + b[..|b| - 1];
      NonEmptyConcat(a, b[..|b| - 1]);
    }
  }

  /** Once a turn is over, its trace stays as it is exactly when no text is passed on for it any more, or
      a single one and it is the turn's first. */
  lemma EndingsAreFinal(s: State, events: seq<Event>, k: nat)
    requires Inv(s) && k < |s.turns| && Over(s.turns[k])
    ensures k < |Run(s, events).turns|
    ensures var more := NonEmpty(Spoken(s, events, k));
            Project(Run(s, events).wire, OfTurn(k)) == Project(s.wire, OfTurn(k))
            <==> more == [] || (|more| == 1 && Unfinished(s.turns[k]) == [])
  {
    OverIsKeptByRuns(s, events, k);
    var t, u := s.turns[k], Run(s, events).turns[k];
    assert TurnOk(s, k) && TurnOk(Run(s, events), k);
    EndReports(t);
    EndReports(u);
    LateIsReported(t);
    LateIsReported(u);
    NonEmptyConcat(t.late, Spoken(s, events, k));
    assert |Unfinished(u)| == |Unfinished(t)| + |NonEmpty(Spoken(s, events, k))|;
    SameLines(t, u, NonEmpty(Spoken(s, events, k)));
  }

  /** One late text puts the one that is still held, or repeats it, behind the ending. */
  lemma LateTextAddsLines(s: State, k: nat, m: Json)
    requires Inv(s) && k < |s.turns| && Over(s.turns[k]) && Unfinished(s.turns[k]) != [] && ExtractText(m) != []
    ensures Project(Step(s, Says(k, m)).wire, OfTurn(k)) != Project(s.wire, OfTurn(k))
  {
    var events := [Says(k, m)];
    assert events[1..] == [] && Run(s, events) == Step(s, Says(k, m));
    assert Spoken(s, events, k) == [ExtractText(m)] + [] == [ExtractText(m)];
    assert [ExtractText(m)][..0] == [] && NonEmpty([ExtractText(m)]) == [] + [ExtractText(m)];
    EndingsAreFinal(s, events, k);
  }

  lemma SameLines(t: Turn, u: Turn, more: seq<string>)
    requires u == t.(late := u.late) && NonEmpty(u.late) == NonEmpty(t.late) + more
    ensures TurnReport(t) + LateReport(t) == TurnReport(u) + LateReport(u)
            <==> more == [] || (|more| == 1 && Unfinished(t) == [])
  {
    assert TurnReport(t) == TurnReport(u);
    var a, b := Unfinished(t), Unfinished(u);
    assert |b| == |a| + |more|;
    if more == [] || (|more| == 1 && a == []) {
      assert AllButLast(a) == AllButLast(b) by {
        assert more == [] ==> NonEmpty(u.late) == NonEmpty(t.late);
      }
    } else {
      assert |LateReport(t)| == |AllButLast(a)| < |AllButLast(b)| == |LateReport(u)|;
    }
  }

  // ---- The server object ------------------------------------------------------------------------

  /** The translator is the turn's, in the state its texts and its end have brought it to. */
  ghost predicate Tracks(tr: TurnTranslator, t: Turn)
    reads tr
  {
    tr.turnId == t.turnId && tr.View() == Fields(t) && (Over(t) || t.late == [])
  }

  /** The server with its registry, the turns with their translators, the relayed calls in flight, and its
      outgoing wire. */
  class ServerObject {
    var registrations: seq<Registration>
    var threads: map<string, nat>
    var turns: seq<Turn>
    var translators: seq<TurnTranslator>
    var calls: seq<Call>
    var nextRequest: nat
    var wire: seq<Line>

    ghost function View(): State
      reads this
    {
      State(registrations, threads, turns, calls, nextRequest, wire)
    }

    /** Each turn has a translator of its own. */
    ghost predicate Valid()
      reads this, translators
    {
      && |translators| == |turns|
      && (forall i, j :: 0 <= i < j < |translators| ==> translators[i] != translators[j])
      && (forall k :: 0 <= k < |turns| ==> Tracks(translators[k], turns[k]))
    }

    constructor ()
      ensures Valid() && View() == INITIAL_STATE
    {
      registrations, threads, turns, translators, calls, nextRequest, wire := [], map[], [], [], [], 1, [];
    }

    method Send(owner: Owner, msgs: seq<Msg>)
      modifies `wire
      ensures View() == Emit(old(View()), owner, msgs)
    {
      for i := 0 to |msgs|
        invariant wire + Tagged(owner, msgs[i..]) == old(wire) + Tagged(owner, msgs)
      {
        assert msgs[i..][1..] == msgs[i + 1..];
        wire := wire + [Line(owner, msgs[i])];
      }
      assert msgs[|msgs|..] == [];
    }

    /** `threadStart`, and `threadResume` once the thread's record is found. */
    method ThreadOpen(rpcId: Json, thread: string)
      requires Valid()
      modifies `registrations, `threads, `wire
      ensures Valid() && View() == Register(old(View()), rpcId, thread)
    {
      threads := threads[thread := |registrations|];
      registrations := registrations + [Registration(thread, 0, "", 0)];
      Send(Server, [ThreadReady(rpcId, thread), ThreadStarted(thread)]);
    }

    method TurnStart(rpcId: Json, thread: string)
      requires Valid()
      modifies `registrations, `turns, `translators, `wire
      ensures Valid() && View() == Step(old(View()), StartTurn(rpcId, thread))
      ensures forall tr :: tr in translators ==> tr in old(translators) || fresh(tr)
    {
      if thread !in threads || threads[thread] >= |registrations| {
        Send(Server, [InvalidParams(rpcId, thread)]);
        return;
      }
      var r := threads[thread];
      var n := registrations[r].turnSeq + 1;
      var turnId := TurnId(thread, n);
      registrations := registrations[r := registrations[r].(turnSeq := n, currentTurnId := turnId)];
      turns := turns + [Turn(rpcId, r, thread, n, turnId, [], Running, [])];
      var tr := new TurnTranslator(turnId);
      translators := translators + [tr];
      Send(OfTurn(|turns| - 1), [Accepted(rpcId, turnId), Started(turnId)]);
    }

    /** The session's message callback. */
    method TurnMessage(k: nat, m: Json)
      requires Valid() && k < |turns|
      modifies `turns, `wire, translators[k]
      ensures Valid() && View() == Step(old(View()), Says(k, m))
    {
      var t := turns[k];
      HeardFields(t, ExtractText(m));
      var outs := translators[k].OnMessage(m);
      assert Tracks(translators[k], Heard(t, ExtractText(m)));
      turns := turns[k := Heard(t, ExtractText(m))];
      Send(OfTurn(k), Notes(t.thread, t.turnId, outs));
    }

    /** The end of `runTurn`: an error, or the session's result with its usage. */
    method TurnEnd(k: nat, status: Status)
      requires Valid() && k < |turns| && !Over(turns[k]) && (status.Completed? || status.Failed?)
      modifies `turns, `wire, translators[k]
      ensures Valid() && View() == Conclude(old(View()), k, status)
    {
      var t := turns[k];
      var outs;
      match status {
        case Completed(result, usage) => outs := translators[k].Finalize(result, false, usage);
        case Failed => outs := translators[k].Finalize([], true, None);
      }
      turns := turns[k := t.(status := status)];
      Send(OfTurn(k), Notes(t.thread, t.turnId, outs));
    }

    /** `ToolBroker.call` up to the request. */
    method CallTool(r: nat)
      requires Valid() && r < |registrations|
      modifies `registrations, `calls, `nextRequest, `wire
      ensures Valid() && View() == Step(old(View()), CallsTool(r))
    {
      var thread := registrations[r].thread;
      var turnId := if thread in threads && threads[thread] < |registrations|
                    then registrations[threads[thread]].currentTurnId else "";
      var n := registrations[r].callN + 1;
      var callId := CallId(thread, n);
      var id := nextRequest;
      registrations := registrations[r := registrations[r].(callN := n)];
      calls := calls + [Call(r, callId, turnId, id, Waiting)];
      nextRequest := nextRequest + 1;
      Send(OfCall(|calls| - 1), [ItemStarted(callId, turnId), ToolRequest(id, callId, turnId)]);
    }

    /** The rest of `ToolBroker.call`, once its reply is in. */
    method CallResumes(c: nat)
      requires Valid() && c < |calls| && calls[c].progress.Answered?
      modifies `calls, `wire
      ensures Valid() && View() == Step(old(View()), ResumesCall(c))
    {
      var call := calls[c];
      calls := calls[c := call.(progress := Finished(call.progress.reply))];
      Send(OfCall(c), [ItemCompleted(call.callId, call.turnId, Succeeded(call.progress.reply))]);
    }
  }
}
