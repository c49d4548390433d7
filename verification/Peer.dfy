/** The newline-delimited JSON-RPC peer: framing, the three message routes, request correlation. */
module Peer {
  import opened Text
  import opened Json
  import opened Lines

  // ---- Message classification (protocol.ts) -----------------------------------------------------

  predicate HasMethod(m: Json) {
    Get(m, "method").Some? && Get(m, "method").value.JStr?
  }

  predicate HasId(m: Json) {
    Get(m, "id").Some? && Get(m, "id").value != JNull
  }

  predicate IsRequest(m: Json) { HasMethod(m) && HasId(m) }

  predicate IsNotification(m: Json) { HasMethod(m) && !HasId(m) }

  predicate IsResponse(m: Json) { !HasMethod(m) && HasId(m) }

  // ---- Correlation ------------------------------------------------------------------------------

  /** What a handler is told. */
  datatype Delivery =
    | Request(name: string, params: Option<Json>, id: Json)
    | Notification(name: string, params: Option<Json>)

  /** The application behind the peer: its reaction to a delivery, and how many requests of its own it
      sends while reacting. */
  type Handler<!App> = (App, Delivery) -> (App, nat)

  /** `fired` logs each resolver invocation with its reply; `pending` holds the resolvers not yet invoked. */
  datatype Core<App> = Core(nextId: nat, pending: set<nat>, fired: seq<(nat, Json)>, app: App)

  function Fresh<App>(app: App): Core<App> { Core(1, {}, [], app) }

  /** The integer key an id denotes; ids of any other type or value match nothing in the map. */
  function KeyOf(id: Json): Option<nat> {
    if id.JNum? && id.n >= 0.0 && id.n.Floor as real == id.n then Some(id.n.Floor) else None
  }

  /** `request`: the next id becomes pending. */
  function Issue<App>(c: Core<App>): Core<App> {
    c.(nextId := c.nextId + 1, pending := c.pending + {c.nextId})
  }

  function IssueMany<App>(c: Core<App>, n: nat): Core<App>
    decreases n
  {
    if n == 0 then c else IssueMany(Issue(c), n - 1)
  }

  function Resolve<App>(c: Core<App>, m: Json): Core<App>
    requires HasId(m)
  {
    match KeyOf(Get(m, "id").value)
    case Some(k) => if k in c.pending then c.(pending := c.pending - {k}, fired := c.fired + [(k, m)]) else c
    case None => c
  }

  function Delivered<App>(c: Core<App>, d: Delivery, handler: Handler<App>): Core<App> {
    var (app, requests) := handler(c.app, d);
    IssueMany(c.(app := app), requests)
  }

  /** `dispatch`: a response, a request, a notification, or nothing. */
  function Dispatched<App>(c: Core<App>, m: Json, handler: Handler<App>): Core<App> {
    if IsResponse(m) then Resolve(c, m)
    else if IsRequest(m) then
      Delivered(c, Request(Get(m, "method").value.s, Get(m, "params"), Get(m, "id").value), handler)
    else if IsNotification(m) then Delivered(c, Notification(Get(m, "method").value.s, Get(m, "params")), handler)
    else c
  }

  // ---- Framing ----------------------------------------------------------------------------------

  /** JavaScript's `trim` removes these at both ends. */
  predicate IsJsSpace(c: char) {
    var n := c as int;
    0x09 <= n <= 0x0D || n == 0x20 || n == 0xA0 || n == 0x1680 || 0x2000 <= n <= 0x200A
    || n == 0x2028 || n == 0x2029 || n == 0x202F || n == 0x205F || n == 0x3000 || n == 0xFEFF
  }

  function Trim(s: string): string
    decreases |s|
  {
    if s != [] && IsJsSpace(s[0]) then Trim(s[1..])
    else if s != [] && IsJsSpace(s[|s| - 1]) then Trim(s[..|s| - 1])
    else s
  }

  type Parser = string -> Option<Json>

  /** The message a line carries, none when it is blank or malformed. */
  function LineMessage(line: string, parse: Parser): Option<Json> {
    if Trim(line) == [] then None else parse(Trim(line))
  }

  function HandleLine<App>(c: Core<App>, line: string, parse: Parser, handler: Handler<App>): Core<App> {
    match LineMessage(line, parse)
    case Some(m) => Dispatched(c, m, handler)
    case None => c
  }

  function HandleLines<App>(c: Core<App>, lines: seq<string>, parse: Parser, handler: Handler<App>): Core<App>
    decreases |lines|
  {
    if lines == [] then c else HandleLines(HandleLine(c, lines[0], parse, handler), lines[1..], parse, handler)
  }

  datatype State<App> = State(buf: string, core: Core<App>)

  /** `feed`. */
  function Fed<App>(s: State<App>, chunk: string, parse: Parser, handler: Handler<App>): State<App> {
    var text := s.buf + chunk;
    State(Remainder(text), HandleLines(s.core, TerminatedLines(text), parse, handler))
  }

  function FedAll<App>(s: State<App>, chunks: seq<string>, parse: Parser, handler: Handler<App>): State<App>
    decreases |chunks|
  {
    if chunks == [] then s else FedAll(Fed(s, chunks[0], parse, handler), chunks[1..], parse, handler)
  }

  // ---- Chunk invariance -------------------------------------------------------------------------

  lemma {:induction false} HandleMoreLines<App>(c: Core<App>, a: seq<string>, b: seq<string>, parse: Parser,
                                                handler: Handler<App>)
    ensures HandleLines(c, a + b, parse, handler) == HandleLines(HandleLines(c, a, parse, handler), b, parse, handler)
    decreases |a|
  {
    if a == [] {
      assert a + b == b;
    } else {
      assert (a + b)[1..] == a[1..] + b;
      HandleMoreLines(HandleLine(c, a[0], parse, handler), a[1..], b, parse, handler);
    }
  }

  lemma TwoChunks<App>(s: State<App>, a: string, b: string, parse: Parser, handler: Handler<App>)
    ensures Fed(Fed(s, a, parse, handler), b, parse, handler) == Fed(s, a + b, parse, handler)
  {
    LinesOfSplit(s.buf + a, b);
    HandleMoreLines(s.core, TerminatedLines(s.buf + a), TerminatedLines(Remainder(s.buf + a) + b), parse, handler);
    assert s.buf + (a + b) == (s.buf + a) + b;
  }

  /** However a character stream is cut into chunks, the peer ends in the state one feed of the whole
      stream gives: same dispatches in the same order, same newline-free remainder. */
  lemma {:induction false} ChunkingIsInvisible<App>(s: State<App>, chunks: seq<string>, parse: Parser,
                                                    handler: Handler<App>)
    requires NL !in s.buf
    ensures FedAll(s, chunks, parse, handler) == Fed(s, Concat(chunks), parse, handler)
    decreases |chunks|
  {
    if chunks == [] {
      assert s.buf + [] == s.buf;
      NoNewlineNoLines(s.buf);
    } else {
      ChunkingIsInvisible(Fed(s, chunks[0], parse, handler), chunks[1..], parse, handler);
      TwoChunks(s, chunks[0], Concat(chunks[1..]), parse, handler);
    }
  }

  // ---- Framing round trip -----------------------------------------------------------------------

  /** Each message on its own line, as the sink writes it. */
  function Framed(texts: seq<string>): string {
    if texts == [] then [] else texts[0] + [NL] + Framed(texts[1..])
  }

  lemma {:induction false} LinesOfFramed(texts: seq<string>)
    requires forall i :: 0 <= i < |texts| ==> NL !in texts[i]
    ensures TerminatedLines(Framed(texts)) == texts && Remainder(Framed(texts)) == []
  {
    if texts != [] {
      LineThen(texts[0], Framed(texts[1..]));
      LinesOfFramed(texts[1..]);
    }
  }

  function DispatchedAll<App>(c: Core<App>, messages: seq<Json>, handler: Handler<App>): Core<App>
    decreases |messages|
  {
    if messages == [] then c else DispatchedAll(Dispatched(c, messages[0], handler), messages[1..], handler)
  }

  lemma {:induction false} HandleMessages<App>(c: Core<App>, messages: seq<Json>, texts: seq<string>, parse: Parser,
                                               handler: Handler<App>)
    requires |texts| == |messages|
    requires forall i :: 0 <= i < |texts| ==> LineMessage(texts[i], parse) == Some(messages[i])
    ensures HandleLines(c, texts, parse, handler) == DispatchedAll(c, messages, handler)
    decreases |texts|
  {
    if texts != [] {
      HandleMessages(HandleLine(c, texts[0], parse, handler), messages[1..], texts[1..], parse, handler);
    }
  }

  /** Messages written one per line and cut anywhere in transit are dispatched exactly once each, in order. */
  lemma FramingRoundTrip<App>(app: App, messages: seq<Json>, texts: seq<string>, chunks: seq<string>, parse: Parser,
                              handler: Handler<App>)
    requires |texts| == |messages| && Concat(chunks) == Framed(texts)
    requires forall i :: 0 <= i < |texts| ==> NL !in texts[i] && LineMessage(texts[i], parse) == Some(messages[i])
    ensures FedAll(State([], Fresh(app)), chunks, parse, handler)
            == State([], DispatchedAll(Fresh(app), messages, handler))
  {
    ChunkingIsInvisible(State([], Fresh(app)), chunks, parse, handler);
    assert [] + Concat(chunks) == Framed(texts);
    LinesOfFramed(texts);
    HandleMessages(Fresh(app), messages, texts, parse, handler);
  }

  /** A blank or malformed line changes nothing and hides nothing after it. */
  lemma BadLineIsSkipped<App>(c: Core<App>, before: seq<string>, bad: string, after: seq<string>, parse: Parser,
                              handler: Handler<App>)
    requires LineMessage(bad, parse) == None
    ensures HandleLines(c, before + ([bad] + after), parse, handler) == HandleLines(c, before + after, parse, handler)
  {
    HandleMoreLines(c, before, [bad] + after, parse, handler);
    HandleMoreLines(c, before, after, parse, handler);
    assert ([bad] + after)[1..] == after;
  }

  // ---- What a line and a message are -----------------------------------------------------------------

  predicate AllJsSpace(s: string) { forall i :: 0 <= i < |s| ==> IsJsSpace(s[i]) }

  /** Trimming removes all whitespace at both ends and nothing between. */
  lemma {:induction false} TrimIsExact(before: string, s: string, after: string)
    requires AllJsSpace(before) && AllJsSpace(after)
    requires s != [] ==> !IsJsSpace(s[0]) && !IsJsSpace(s[|s| - 1])
    ensures Trim(before + s + after) == s
    decreases |before| + |after|
  {
    var t := before + s + after;
    if before != [] {
      assert t[1..] == before[1..] + s + after;
      TrimIsExact(before[1..], s, after);
    } else if s == [] && after != [] {
      assert t == after && t[1..] == [] + s + after[1..];
      TrimIsExact([], s, after[1..]);
    } else if after != [] {
      assert t[0] == s[0] && t[|t| - 1] == after[|after| - 1];
      assert t[..|t| - 1] == before + s + after[..|after| - 1];
      TrimIsExact(before, s, after[..|after| - 1]);
    } else {
      assert t == s;
    }
  }

  /** Blank lines carry no message, whatever the parser makes of the empty text; any other line carries what
      the parser makes of it without the whitespace around it. */
  lemma LineCarries(before: string, s: string, after: string, parse: Parser)
    requires AllJsSpace(before) && AllJsSpace(after)
    requires s != [] ==> !IsJsSpace(s[0]) && !IsJsSpace(s[|s| - 1])
    ensures LineMessage(before + s + after, parse) == if s == [] then None else parse(s)
  {
    TrimIsExact(before, s, after);
  }

  /** A message with a method is a request if it has an id and a notification if it has none or null; without
      a method, but with an id, it is a response. */
  lemma Routes(m: Json, name: string, id: Json)
    ensures Get(m, "method") == Some(JStr(name)) && Get(m, "id") == Some(id) && id != JNull ==>
              IsRequest(m) && !IsNotification(m) && !IsResponse(m)
    ensures Get(m, "method") == Some(JStr(name)) && (Get(m, "id") == None || Get(m, "id") == Some(JNull)) ==>
              IsNotification(m) && !IsRequest(m) && !IsResponse(m)
    ensures Get(m, "method") == None && Get(m, "id") == Some(id) && id != JNull ==>
              IsResponse(m) && !IsRequest(m) && !IsNotification(m)
    ensures Get(m, "method") == None && (Get(m, "id") == None || Get(m, "id") == Some(JNull)) ==>
              !IsResponse(m) && !IsRequest(m) && !IsNotification(m)
  {
  }

  /** What a handler is told of a message. */
  ghost predicate Tells(m: Json, d: Delivery) {
    && Get(m, "method") == Some(JStr(d.name)) && Get(m, "params") == d.params
    && match d
       case Request(_, _, id) => Get(m, "id") == Some(id) && id != JNull
       case Notification(_, _) => Get(m, "id") == None || Get(m, "id") == Some(JNull)
  }

  ghost predicate AllTell(messages: seq<Json>, ds: seq<Delivery>) {
    |ds| == |messages| && (messages != [] ==> Tells(messages[0], ds[0]) && AllTell(messages[1..], ds[1..]))
  }

  /** A handler that only notes down what it is told. */
  function NoteDown(log: seq<Delivery>, d: Delivery): (seq<Delivery>, nat) { (log + [d], 0) }

  lemma {:induction false} HandlerIsTold(c: Core<seq<Delivery>>, messages: seq<Json>, ds: seq<Delivery>)
    requires AllTell(messages, ds)
    ensures DispatchedAll(c, messages, NoteDown) == c.(app := c.app + ds)
    decreases |messages|
  {
    if messages == [] {
      assert c.app + ds == c.app;
    } else {
      var d := Dispatched(c, messages[0], NoteDown);
      Routes(messages[0], ds[0].name, if ds[0].Request? then ds[0].id else JNull);
      assert d == c.(app := c.app + [ds[0]]);
      HandlerIsTold(d, messages[1..], ds[1..]);
      assert ds == [ds[0]] + ds[1..];
      Assoc(c.app, [ds[0]], ds[1..]);
    }
  }

  /** Requests and notifications written one per line and cut anywhere in transit reach the handler with their
      own method, parameters and id, each once and in order. */
  lemma HandlerHearsEachMessage(messages: seq<Json>, ds: seq<Delivery>, texts: seq<string>, chunks: seq<string>,
                                parse: Parser)
    requires |texts| == |messages| && Concat(chunks) == Framed(texts) && AllTell(messages, ds)
    requires forall i :: 0 <= i < |texts| ==> NL !in texts[i] && LineMessage(texts[i], parse) == Some(messages[i])
    ensures FedAll(State([], Fresh([])), chunks, parse, NoteDown).core.app == ds
  {
    FramingRoundTrip([], messages, texts, chunks, parse, NoteDown);
    HandlerIsTold(Fresh([]), messages, ds);
    assert [] + ds == ds;
  }

  // ---- Conservation of requests -----------------------------------------------------------------

  function FiredIds(fired: seq<(nat, Json)>): set<nat> {
    set i | 0 <= i < |fired| :: fired[i].0
  }

  /** Every id issued so far is either pending or resolved, never both, and no resolver fired twice. */
  ghost predicate Conserved<App>(c: Core<App>) {
    && c.nextId >= 1
    && (forall k :: k in c.pending || k in FiredIds(c.fired) <==> 1 <= k < c.nextId)
    && c.pending * FiredIds(c.fired) == {}
    && (forall i, j :: 0 <= i < j < |c.fired| ==> c.fired[i].0 != c.fired[j].0)
  }

  /** A reply is matched to the request of its own id. */
  predicate Matched(fired: seq<(nat, Json)>) {
    forall i :: 0 <= i < |fired| ==>
      IsResponse(fired[i].1) && KeyOf(Get(fired[i].1, "id").value) == Some(fired[i].0)
  }

  lemma ResolveConserves<App>(c: Core<App>, m: Json)
    requires Conserved(c) && Matched(c.fired) && IsResponse(m)
    ensures Conserved(Resolve(c, m)) && Matched(Resolve(c, m).fired)
  {
    var d := Resolve(c, m);
    if d != c {
      var k := KeyOf(Get(m, "id").value).value;
      assert d.fired[|c.fired|] == (k, m);
      assert FiredIds(d.fired) == FiredIds(c.fired) + {k} by {
        forall x | x in FiredIds(c.fired)
          ensures x in FiredIds(d.fired)
        {
          var i :| 0 <= i < |c.fired| && c.fired[i].0 == x;
          assert d.fired[i].0 == x;
        }
      }
      forall i, j | 0 <= i < j < |d.fired|
        ensures d.fired[i].0 != d.fired[j].0
      {
        if j == |c.fired| {
          assert c.fired[i].0 in FiredIds(c.fired);
        }
      }
    }
  }

  lemma {:induction false} IssueManyConserves<App>(c: Core<App>, n: nat)
    requires Conserved(c)
    ensures Conserved(IssueMany(c, n)) && IssueMany(c, n).fired == c.fired
    decreases n
  {
    if n > 0 {
      IssueManyConserves(Issue(c), n - 1);
    }
  }

  lemma DispatchConserves<App>(c: Core<App>, m: Json, handler: Handler<App>)
    requires Conserved(c) && Matched(c.fired)
    ensures Conserved(Dispatched(c, m, handler)) && Matched(Dispatched(c, m, handler).fired)
  {
    if IsResponse(m) {
      ResolveConserves(c, m);
    } else if IsRequest(m) {
      var (app, n) := handler(c.app, Request(Get(m, "method").value.s, Get(m, "params"), Get(m, "id").value));
      IssueManyConserves(c.(app := app), n);
    } else if IsNotification(m) {
      var (app, n) := handler(c.app, Notification(Get(m, "method").value.s, Get(m, "params")));
      IssueManyConserves(c.(app := app), n);
    }
  }

  lemma {:induction false} LinesConserve<App>(c: Core<App>, lines: seq<string>, parse: Parser, handler: Handler<App>)
    requires Conserved(c) && Matched(c.fired)
    ensures Conserved(HandleLines(c, lines, parse, handler)) && Matched(HandleLines(c, lines, parse, handler).fired)
    decreases |lines|
  {
    if lines != [] {
      if LineMessage(lines[0], parse).Some? {
        DispatchConserves(c, LineMessage(lines[0], parse).value, handler);
      }
      LinesConserve(HandleLine(c, lines[0], parse, handler), lines[1..], parse, handler);
    }
  }

  /** What happens to a peer: input arrives, or the application sends a request. */
  datatype Event = Input(chunk: string) | Send

  function Step<App>(s: State<App>, e: Event, parse: Parser, handler: Handler<App>): State<App> {
    match e
    case Input(chunk) => Fed(s, chunk, parse, handler)
    case Send => s.(core := Issue(s.core))
  }

  function Run<App>(s: State<App>, events: seq<Event>, parse: Parser, handler: Handler<App>): State<App>
    decreases |events|
  {
    if events == [] then s else Run(Step(s, events[0], parse, handler), events[1..], parse, handler)
  }

  lemma {:induction false} RunConserves<App>(s: State<App>, events: seq<Event>, parse: Parser, handler: Handler<App>)
    requires Conserved(s.core) && Matched(s.core.fired)
    ensures Conserved(Run(s, events, parse, handler).core) && Matched(Run(s, events, parse, handler).core.fired)
    decreases |events|
  {
    if events != [] {
      match events[0]
      case Input(chunk) =>
        LinesConserve(s.core, TerminatedLines(s.buf + chunk), parse, handler);
        RunConserves(Step(s, events[0], parse, handler), events[1..], parse, handler);
      case Send =>
        IssueManyConserves(s.core, 1);
        assert IssueMany(Issue(s.core), 0) == Issue(s.core);
        RunConserves(Step(s, events[0], parse, handler), events[1..], parse, handler);
    }
  }

  /** In every run, issued ids are exactly the pending and the resolved ones, each resolver fires at
      most once, and always with a reply that carries its own id. */
  lemma RequestsAreConserved<App>(app: App, events: seq<Event>, parse: Parser, handler: Handler<App>)
    ensures var c := Run(State([], Fresh(app)), events, parse, handler).core;
            Conserved(c) && Matched(c.fired)
  {
    var c := Fresh(app);
    assert FiredIds(c.fired) == {};
    RunConserves(State([], c), events, parse, handler);
  }

  /** No pending request has the reply's id, be it unknown, answered already or no natural number. */
  predicate Stray<App>(c: Core<App>, m: Json) {
    IsResponse(m) && match KeyOf(Get(m, "id").value) case Some(k) => k !in c.pending case None => true
  }

  /** A reply changes nothing exactly when it is stray. */
  lemma ReplyChangesNothingExactly<App>(c: Core<App>, m: Json, handler: Handler<App>)
    requires IsResponse(m)
    ensures Dispatched(c, m, handler) == c <==> Stray(c, m)
  {
    if !Stray(c, m) {
      assert |Dispatched(c, m, handler).fired| == |c.fired| + 1;
    }
  }

  /** The line of a stray reply can be deleted from the input without changing the run. */
  lemma StrayReplyChangesNothing<App>(c: Core<App>, before: seq<string>, line: string, m: Json, after: seq<string>,
                                      parse: Parser, handler: Handler<App>)
    requires LineMessage(line, parse) == Some(m) && Stray(HandleLines(c, before, parse, handler), m)
    ensures HandleLines(c, before + ([line] + after), parse, handler) == HandleLines(c, before + after, parse, handler)
  {
    HandleMoreLines(c, before, [line] + after, parse, handler);
    HandleMoreLines(c, before, after, parse, handler);
    assert ([line] + after)[1..] == after;
  }

  // ---- The peer object --------------------------------------------------------------------------

  class PeerObject<App> {
    const parse: Parser
    const handler: Handler<App>
    var nextId: nat
    var pending: set<nat>
    var buf: string
    var app: App
    ghost var fired: seq<(nat, Json)>

    ghost function View(): State<App>
      reads this
    {
      State(buf, Core(nextId, pending, fired, app))
    }

    constructor (app: App, parse: Parser, handler: Handler<App>)
      ensures View() == State([], Fresh(app)) && this.parse == parse && this.handler == handler
    {
      this.parse, this.handler, this.app := parse, handler, app;
      nextId, pending, buf, fired := 1, {}, [], [];
    }

    method Request() returns (id: nat)
      modifies this`nextId, this`pending
      ensures id == old(nextId) && View() == old(View()).(core := Issue(old(View()).core))
    {
      id := nextId;
      nextId := nextId + 1;
      pending := pending + {id};
    }

    method Respond(m: Json)
      requires HasId(m)
      modifies this`pending, this`fired
      ensures View() == old(View()).(core := Resolve(old(View()).core, m))
    {
      var key := KeyOf(Get(m, "id").value);
      if key.Some? && key.value in pending {
        pending := pending - {key.value};
        fired := fired + [(key.value, m)];
      }
    }

    method Deliver(d: Delivery)
      modifies this`app, this`nextId, this`pending
      ensures View() == old(View()).(core := Delivered(old(View()).core, d, handler))
    {
      var (next, requests) := handler(app, d);
      app := next;
      for i := 0 to requests
        invariant View().buf == old(buf)
        invariant IssueMany(View().core, requests - i) == Delivered(old(View()).core, d, handler)
      {
        var _ := Request();
      }
    }

    method Dispatch(m: Json)
      modifies this`app, this`nextId, this`pending, this`fired
      ensures View() == old(View()).(core := Dispatched(old(View()).core, m, handler))
    {
      if IsResponse(m) {
        Respond(m);
      } else if IsRequest(m) {
        Deliver(Delivery.Request(Get(m, "method").value.s, Get(m, "params"), Get(m, "id").value));
      } else if IsNotification(m) {
        Deliver(Notification(Get(m, "method").value.s, Get(m, "params")));
      }
    }

    method Feed(chunk: string)
      modifies this
      ensures View() == Fed(old(View()), chunk, parse, handler)
    {
      buf := buf + chunk;
      ghost var text := buf;
      var nl := Span(buf, 0, NotNewline);
      while nl < |buf|
        invariant nl == Span(buf, 0, NotNewline)
        invariant HandleLines(View().core, TerminatedLines(buf), parse, handler)
                  == Fed(old(View()), chunk, parse, handler).core
        invariant Remainder(buf) == Remainder(text)
        decreases |buf|
      {
        var line := Trim(buf[..nl]);
        ghost var core := View().core;
        HandleMoreLines(core, [buf[..nl]], TerminatedLines(buf[nl + 1..]), parse, handler);
        assert [buf[..nl]][1..] == [];
        ghost var first := buf[..nl];
        buf := buf[nl + 1..];
        nl := Span(buf, 0, NotNewline);
        if line == [] { continue; }
        match parse(line)
        case None => continue;
        case Some(m) => Dispatch(m);
      }
    }
  }
}
