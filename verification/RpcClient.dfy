/** The probe's JSON-RPC client: calls with timeouts, and waiters for notifications. */
module RpcClient {
  import opened Text
  import opened Json
  import Peer

  datatype Outcome = Resolved(m: Json) | Rejected(m: Json) | TimedOut

  datatype Waiter = Waiter(id: nat, pred: Json -> bool)

  /** `timers` holds the armed call timers, `waiterTimers` the armed waiter timers; `settled` and
      `waited` log every settlement in order. */
  datatype Client = Client(seqNo: nat, pending: set<nat>, timers: set<nat>, settled: seq<(nat, Outcome)>,
                           notifications: seq<Json>, nextWaiter: nat, waiters: seq<Waiter>,
                           waiterTimers: set<nat>, waited: seq<(nat, Option<Json>)>)

  function Fresh(): Client { Client(0, {}, {}, [], [], 0, [], {}, []) }

  predicate IsReply(m: Json) {
    Get(m, "id").Some? && (Get(m, "result").Some? || Get(m, "error").Some?)
  }

  /** `call`. */
  function Call(c: Client): Client {
    var id := c.seqNo + 1;
    c.(seqNo := id, pending := c.pending + {id}, timers := c.timers + {id})
  }

  /** A reply settles the call it names, once, and clears its timer. */
  function OnReply(c: Client, m: Json): Client
    requires IsReply(m)
  {
    var key := Peer.KeyOf(Get(m, "id").value);
    if key.None? || key.value !in c.pending then c
    else
      c.(pending := c.pending - {key.value}, timers := c.timers - {key.value},
         settled := c.settled + [(key.value, if IsFailure(m) then Rejected(m) else Resolved(m))])
  }

  predicate IsFailure(m: Json) { Get(m, "error").Some? && Truthy(Get(m, "error").value) }

  /** `findIndex`: the first waiter that wants the notification. */
  function FirstWanting(waiters: seq<Waiter>, n: Json): (i: nat)
    ensures i <= |waiters|
    ensures i < |waiters| ==> waiters[i].pred(n)
    ensures forall j :: 0 <= j < i ==> !waiters[j].pred(n)
  {
    if waiters == [] || waiters[0].pred(n) then 0 else 1 + FirstWanting(waiters[1..], n)
  }

  function OnNotification(c: Client, n: Json): Client {
    var d := c.(notifications := c.notifications + [n]);
    var i := FirstWanting(c.waiters, n);
    if i == |c.waiters| then d
    else
      var w := c.waiters[i];
      d.(waiters := c.waiters[..i] + c.waiters[i + 1..], waiterTimers := c.waiterTimers - {w.id},
         waited := c.waited + [(w.id, Some(n))])
  }

  /** The first notification from a mark on that satisfies a predicate. */
  function FirstFrom(ns: seq<Json>, from: nat, pred: Json -> bool): (r: Option<Json>)
    ensures r.Some? ==> pred(r.value)
    ensures r.None? ==> forall i :: from <= i < |ns| ==> !pred(ns[i])
    decreases |ns| - from
  {
    if from >= |ns| then None else if pred(ns[from]) then Some(ns[from]) else FirstFrom(ns, from + 1, pred)
  }

  /** `waitFor`: settled at once by a past notification, else a waiter with a timer. */
  function WaitFor(c: Client, pred: Json -> bool, from: nat): Client {
    var id := c.nextWaiter;
    match FirstFrom(c.notifications, from, pred)
    case Some(n) => c.(nextWaiter := id + 1, waited := c.waited + [(id, Some(n))])
    case None => c.(nextWaiter := id + 1, waiters := c.waiters + [Waiter(id, pred)],
                    waiterTimers := c.waiterTimers + {id})
  }

  function WithoutWaiter(waiters: seq<Waiter>, id: nat): seq<Waiter> {
    if waiters == [] then []
    else if waiters[0].id == id then waiters[1..]
    else [waiters[0]] + WithoutWaiter(waiters[1..], id)
  }

  datatype Event =
    | Calls
    | Message(m: Json)
    | CallTimer(id: nat)
    | Waits(pred: Json -> bool, from: nat)
    | WaiterTimer(id: nat)

  /** Only an armed timer fires. */
  function Step(c: Client, e: Event): Client {
    match e
    case Calls => Call(c)
    case Message(m) => if IsReply(m) then OnReply(c, m) else if Peer.HasMethod(m) then OnNotification(c, m) else c
    case CallTimer(id) =>
      if id !in c.timers then c
      else c.(timers := c.timers - {id}, pending := c.pending - {id}, settled := c.settled + [(id, TimedOut)])
    case Waits(pred, from) => WaitFor(c, pred, from)
    case WaiterTimer(id) =>
      if id !in c.waiterTimers then c
      else c.(waiterTimers := c.waiterTimers - {id}, waiters := WithoutWaiter(c.waiters, id),
              waited := c.waited + [(id, None)])
  }

  function Run(c: Client, events: seq<Event>): Client
    decreases |events|
  {
    if events == [] then c else Run(Step(c, events[0]), events[1..])
  }

  // ---- Conservation -----------------------------------------------------------------------------

  function Ids<T>(log: seq<(nat, T)>): set<nat> {
    set i | 0 <= i < |log| :: log[i].0
  }

  predicate Once<T>(log: seq<(nat, T)>) {
    forall i, j :: 0 <= i < j < |log| ==> log[i].0 != log[j].0
  }

  function WaiterIds(waiters: seq<Waiter>): set<nat> {
    set i | 0 <= i < |waiters| :: waiters[i].id
  }

  predicate DistinctWaiters(waiters: seq<Waiter>) {
    forall i, j :: 0 <= i < j < |waiters| ==> waiters[i].id != waiters[j].id
  }

  /** Every number from `lo` up to `hi` is open or closed, never both, and no other number is either. */
  ghost predicate Partition(open: set<nat>, closed: set<nat>, lo: nat, hi: nat) {
    && (forall id :: id in open ==> id !in closed)
    && (forall id :: id in open || id in closed <==> lo <= id < hi)
  }

  lemma PartitionMoves(open: set<nat>, closed: set<nat>, lo: nat, hi: nat, id: nat)
    requires Partition(open, closed, lo, hi) && id in open
    ensures Partition(open - {id}, closed + {id}, lo, hi)
  {
  }

  lemma PartitionOpens(open: set<nat>, closed: set<nat>, lo: nat, hi: nat)
    requires Partition(open, closed, lo, hi) && lo <= hi
    ensures Partition(open + {hi}, closed, lo, hi + 1) && Partition(open, closed + {hi}, lo, hi + 1)
    ensures hi !in open && hi !in closed
  {
  }

  /** Every call is pending under an armed timer or settled exactly once; likewise every waiter. */
  ghost predicate Conserved(c: Client) {
    && c.pending == c.timers && Once(c.settled) && Partition(c.pending, Ids(c.settled), 1, c.seqNo + 1)
    && WaiterIds(c.waiters) == c.waiterTimers && DistinctWaiters(c.waiters) && Once(c.waited)
    && Partition(c.waiterTimers, Ids(c.waited), 0, c.nextWaiter)
  }

  lemma LogGrows<T>(log: seq<(nat, T)>, entry: (nat, T))
    ensures Ids(log + [entry]) == Ids(log) + {entry.0}
    ensures Once(log) && entry.0 !in Ids(log) ==> Once(log + [entry])
  {
    var all := log + [entry];
    forall id | id in Ids(log) + {entry.0}
      ensures id in Ids(all)
    {
      if id == entry.0 {
        assert all[|log|].0 == id;
      } else {
        var i :| 0 <= i < |log| && log[i].0 == id;
        assert all[i].0 == id;
      }
    }
    if Once(log) && entry.0 !in Ids(log) {
      forall i, j | 0 <= i < j < |all|
        ensures all[i].0 != all[j].0
      {
        assert log[i].0 in Ids(log);
      }
    }
  }

  lemma RemoveWaiter(waiters: seq<Waiter>, i: nat)
    requires i < |waiters| && DistinctWaiters(waiters)
    ensures var rest := waiters[..i] + waiters[i + 1..];
            DistinctWaiters(rest) && WaiterIds(rest) == WaiterIds(waiters) - {waiters[i].id}
  {
    var rest := waiters[..i] + waiters[i + 1..];
    forall id | id in WaiterIds(waiters) && id != waiters[i].id
      ensures id in WaiterIds(rest)
    {
      var j :| 0 <= j < |waiters| && waiters[j].id == id;
      assert rest[if j < i then j else j - 1].id == id;
    }
    forall k | 0 <= k < |rest|
      ensures rest[k].id != waiters[i].id && rest[k].id in WaiterIds(waiters)
    {
      var j := if k < i then k else k + 1;
      assert rest[k] == waiters[j];
    }
  }

  lemma {:induction false} WithoutIsRemoval(waiters: seq<Waiter>, id: nat) returns (i: nat)
    requires id in WaiterIds(waiters)
    ensures i < |waiters| && waiters[i].id == id && WithoutWaiter(waiters, id) == waiters[..i] + waiters[i + 1..]
  {
    if waiters[0].id == id {
      i := 0;
    } else {
      var j :| 0 <= j < |waiters| && waiters[j].id == id;
      assert waiters[1..][j - 1].id == id;
      var k := WithoutIsRemoval(waiters[1..], id);
      i := k + 1;
      assert [waiters[0]] + waiters[1..][..k] == waiters[..i];
    }
  }

  lemma AddWaiter(waiters: seq<Waiter>, w: Waiter)
    requires DistinctWaiters(waiters) && w.id !in WaiterIds(waiters)
    ensures DistinctWaiters(waiters + [w]) && WaiterIds(waiters + [w]) == WaiterIds(waiters) + {w.id}
  {
    var all := waiters + [w];
    forall id | id in WaiterIds(waiters) + {w.id}
      ensures id in WaiterIds(all)
    {
      if id == w.id {
        assert all[|waiters|].id == id;
      } else {
        var i :| 0 <= i < |waiters| && waiters[i].id == id;
        assert all[i].id == id;
      }
    }
    forall i, j | 0 <= i < j < |all|
      ensures all[i].id != all[j].id
    {
      assert waiters[i].id in WaiterIds(waiters);
    }
  }

  /** A pending call settles, by whichever way. */
  lemma SettleConserves(c: Client, id: nat, outcome: Outcome)
    requires Conserved(c) && id in c.pending
    ensures Conserved(c.(pending := c.pending - {id}, timers := c.timers - {id},
                         settled := c.settled + [(id, outcome)]))
  {
    LogGrows(c.settled, (id, outcome));
    PartitionMoves(c.pending, Ids(c.settled), 1, c.seqNo + 1, id);
  }

  /** A waiter settles, by whichever way. */
  lemma WaiterSettles(c: Client, i: nat, found: Option<Json>)
    requires Conserved(c) && i < |c.waiters|
    ensures Conserved(c.(waiters := c.waiters[..i] + c.waiters[i + 1..],
                         waiterTimers := c.waiterTimers - {c.waiters[i].id},
                         waited := c.waited + [(c.waiters[i].id, found)]))
  {
    assert c.waiters[i].id in WaiterIds(c.waiters);
    RemoveWaiter(c.waiters, i);
    LogGrows(c.waited, (c.waiters[i].id, found));
    PartitionMoves(c.waiterTimers, Ids(c.waited), 0, c.nextWaiter, c.waiters[i].id);
  }

  lemma MessageConserves(c: Client, m: Json)
    requires Conserved(c)
    ensures Conserved(Step(c, Message(m)))
  {
    if IsReply(m) {
      var key := Peer.KeyOf(Get(m, "id").value);
      if key.Some? && key.value in c.pending {
        var (id, outcome) := OnReply(c, m).settled[|c.settled|];
        SettleConserves(c, id, outcome);
      }
    } else if Peer.HasMethod(m) {
      var d := c.(notifications := c.notifications + [m]);
      assert Conserved(d);
      var i := FirstWanting(c.waiters, m);
      if i < |c.waiters| {
        WaiterSettles(d, i, Some(m));
      }
    }
  }

  lemma WaitConserves(c: Client, pred: Json -> bool, from: nat)
    requires Conserved(c)
    ensures Conserved(WaitFor(c, pred, from))
  {
    var id := c.nextWaiter;
    PartitionOpens(c.waiterTimers, Ids(c.waited), 0, id);
    match FirstFrom(c.notifications, from, pred)
    case Some(n) => LogGrows(c.waited, (id, Some(n)));
    case None => AddWaiter(c.waiters, Waiter(id, pred));
  }

  lemma StepConserves(c: Client, e: Event)
    requires Conserved(c)
    ensures Conserved(Step(c, e))
  {
    match e
    case Calls => PartitionOpens(c.pending, Ids(c.settled), 1, c.seqNo + 1);
    case Message(m) => MessageConserves(c, m);
    case CallTimer(id) =>
      if id in c.timers {
        SettleConserves(c, id, TimedOut);
      }
    case Waits(pred, from) => WaitConserves(c, pred, from);
    case WaiterTimer(id) =>
      if id in c.waiterTimers {
        var i := WithoutIsRemoval(c.waiters, id);
        WaiterSettles(c, i, None);
      }
  }

  lemma {:induction false} RunConserves(c: Client, events: seq<Event>)
    requires Conserved(c)
    ensures Conserved(Run(c, events))
    decreases |events|
  {
    if events != [] {
      StepConserves(c, events[0]);
      RunConserves(Step(c, events[0]), events[1..]);
    }
  }

  /** What a call settles with: its timer, or a reply that carries the call's own id, rejected exactly when
      the reply has a truthy error. */
  predicate SettledBy(id: nat, outcome: Outcome) {
    match outcome
    case TimedOut => true
    case Resolved(m) => IsReply(m) && Peer.KeyOf(Get(m, "id").value) == Some(id) && !IsFailure(m)
    case Rejected(m) => IsReply(m) && Peer.KeyOf(Get(m, "id").value) == Some(id) && IsFailure(m)
  }

  predicate Matched(settled: seq<(nat, Outcome)>) {
    forall i :: 0 <= i < |settled| ==> SettledBy(settled[i].0, settled[i].1)
  }

  lemma {:induction false} RunMatches(c: Client, events: seq<Event>)
    requires Matched(c.settled)
    ensures Matched(Run(c, events).settled)
    decreases |events|
  {
    if events != [] {
      RunMatches(Step(c, events[0]), events[1..]);
    }
  }

  /** A message with the id of a pending call and a result or an error settles that call: it is rejected
      exactly when the error is truthy. */
  lemma ReplySettlesItsCall(c: Client, m: Json, id: nat)
    requires id in c.pending && Get(m, "id") == Some(JNum(id as real))
    requires Get(m, "result").Some? || Get(m, "error").Some?
    ensures var d := Step(c, Message(m));
            var failed := Get(m, "error").Some? && Truthy(Get(m, "error").value);
            d == c.(pending := c.pending - {id}, timers := c.timers - {id},
                    settled := c.settled + [(id, if failed then Rejected(m) else Resolved(m))])
  {
    assert (id as real).Floor == id;
  }

  lemma {:induction false} FirstIsFound(ns: seq<Json>, from: nat, pred: Json -> bool, i: nat)
    requires from <= i < |ns| && pred(ns[i]) && forall j :: from <= j < i ==> !pred(ns[j])
    ensures FirstFrom(ns, from, pred) == Some(ns[i])
    decreases i - from
  {
    if from < i {
      FirstIsFound(ns, from + 1, pred, i);
    }
  }

  lemma {:induction false} NoneIsFound(ns: seq<Json>, from: nat, pred: Json -> bool)
    requires forall j :: from <= j < |ns| ==> !pred(ns[j])
    ensures FirstFrom(ns, from, pred) == None
    decreases |ns| - from
  {
    if from < |ns| {
      NoneIsFound(ns, from + 1, pred);
    }
  }

  /** A wait is settled at once by the first notification from its mark on that it wants. */
  lemma WaitLooksBack(c: Client, pred: Json -> bool, from: nat, i: nat)
    requires from <= i < |c.notifications| && pred(c.notifications[i])
    requires forall j :: from <= j < i ==> !pred(c.notifications[j])
    ensures Step(c, Waits(pred, from))
         == c.(nextWaiter := c.nextWaiter + 1, waited := c.waited + [(c.nextWaiter, Some(c.notifications[i]))])
  {
    FirstIsFound(c.notifications, from, pred, i);
  }

  /** A wait for which no notification has come yet waits behind the others, under a timer of its own. */
  lemma WaitLinesUp(c: Client, pred: Json -> bool, from: nat)
    requires forall j :: from <= j < |c.notifications| ==> !pred(c.notifications[j])
    ensures Step(c, Waits(pred, from))
         == c.(nextWaiter := c.nextWaiter + 1, waiters := c.waiters + [Waiter(c.nextWaiter, pred)],
               waiterTimers := c.waiterTimers + {c.nextWaiter})
  {
    NoneIsFound(c.notifications, from, pred);
  }

  /** What a waiter settles with: its timer, or a notification that it wants. `preds` are the predicates
      of the waits so far, by waiter id. */
  predicate Answered(waited: seq<(nat, Option<Json>)>, preds: seq<Json -> bool>) {
    forall i :: 0 <= i < |waited| ==>
      waited[i].0 < |preds| && (waited[i].1.Some? ==> preds[waited[i].0](waited[i].1.value))
  }

  ghost predicate Registered(waiters: seq<Waiter>, preds: seq<Json -> bool>) {
    forall i :: 0 <= i < |waiters| ==> waiters[i].id < |preds| && waiters[i].pred == preds[waiters[i].id]
  }

  /** What an event asks for, if it is a wait. */
  function Asked(e: Event): seq<Json -> bool> {
    match e
    case Waits(pred, _) => [pred]
    case _ => []
  }

  function Predicates(events: seq<Event>): seq<Json -> bool> {
    if events == [] then [] else Asked(events[0]) + Predicates(events[1..])
  }

  lemma {:induction false} WithoutKeepsRegistered(waiters: seq<Waiter>, id: nat, preds: seq<Json -> bool>)
    requires Registered(waiters, preds)
    ensures Registered(WithoutWaiter(waiters, id), preds)
  {
    if waiters != [] && waiters[0].id != id {
      WithoutKeepsRegistered(waiters[1..], id, preds);
    }
  }

  lemma StepAnswers(c: Client, e: Event, preds: seq<Json -> bool>)
    requires Conserved(c) && |preds| == c.nextWaiter && Answered(c.waited, preds) && Registered(c.waiters, preds)
    ensures var d, more := Step(c, e), preds + Asked(e);
            |more| == d.nextWaiter && Answered(d.waited, more) && Registered(d.waiters, more)
  {
    var more := preds + Asked(e);
    assert Answered(c.waited, more) && Registered(c.waiters, more);
    match e
    case WaiterTimer(id) =>
      WithoutKeepsRegistered(c.waiters, id, more);
    case _ =>
  }

  lemma {:induction false} RunAnswers(c: Client, events: seq<Event>, preds: seq<Json -> bool>)
    requires Conserved(c) && |preds| == c.nextWaiter && Answered(c.waited, preds) && Registered(c.waiters, preds)
    ensures Answered(Run(c, events).waited, preds + Predicates(events))
    decreases |events|
  {
    if events == [] {
      assert preds + [] == preds;
    } else {
      StepConserves(c, events[0]);
      StepAnswers(c, events[0], preds);
      RunAnswers(Step(c, events[0]), events[1..], preds + Asked(events[0]));
      Assoc(preds, Asked(events[0]), Predicates(events[1..]));
    }
  }

  /** In every run each call is either still pending under a timer that will end it, or has settled
      exactly once, by a reply of its own id or by that timer; a waiter likewise, by a notification that it
      wants or by its timer. */
  lemma EveryCallSettlesOnce(events: seq<Event>)
    ensures Conserved(Run(Fresh(), events)) && Matched(Run(Fresh(), events).settled)
    ensures Answered(Run(Fresh(), events).waited, Predicates(events))
  {
    RunConserves(Fresh(), events);
    RunMatches(Fresh(), events);
    RunAnswers(Fresh(), events, []);
    assert [] + Predicates(events) == Predicates(events);
  }

  /** In every run an armed timer that fires ends its call or its waiter; one that was cleared, or never armed,
      changes nothing. */
  lemma TimersSettle(events: seq<Event>, id: nat)
    ensures var c := Run(Fresh(), events);
            var d := Step(c, CallTimer(id));
            if id in c.pending then d.settled == c.settled + [(id, TimedOut)] && d.pending == c.pending - {id}
            else d == c
    ensures var c := Run(Fresh(), events);
            var d := Step(c, WaiterTimer(id));
            if id in WaiterIds(c.waiters) then
              d.waited == c.waited + [(id, None)] && WaiterIds(d.waiters) == WaiterIds(c.waiters) - {id}
            else d == c
  {
    RunConserves(Fresh(), events);
    var c := Run(Fresh(), events);
    if id in WaiterIds(c.waiters) {
      var i := WithoutIsRemoval(c.waiters, id);
      RemoveWaiter(c.waiters, i);
    }
  }

  function HeardIn(e: Event): seq<Json> {
    match e
    case Message(m) => if Peer.HasMethod(m) && !IsReply(m) then [m] else []
    case _ => []
  }

  /** The notifications among the messages of a run. */
  function Heard(events: seq<Event>): seq<Json> {
    if events == [] then [] else HeardIn(events[0]) + Heard(events[1..])
  }

  lemma StepHears(c: Client, e: Event)
    ensures Step(c, e).notifications == c.notifications + HeardIn(e)
  {
  }

  /** Every notification is kept, in order, whether or not some waiter was settled with it. */
  lemma {:induction false} NotificationsAreKept(c: Client, events: seq<Event>)
    ensures Run(c, events).notifications == c.notifications + Heard(events)
    decreases |events|
  {
    if events != [] {
      StepHears(c, events[0]);
      NotificationsAreKept(Step(c, events[0]), events[1..]);
      Assoc(c.notifications, HeardIn(events[0]), Heard(events[1..]));
    }
  }

  predicate InOrder(waiters: seq<Waiter>, n: nat) {
    && (forall i, j :: 0 <= i < j < |waiters| ==> waiters[i].id < waiters[j].id)
    && (forall i :: 0 <= i < |waiters| ==> waiters[i].id < n)
  }

  lemma {:induction false} WithoutKeepsOrder(waiters: seq<Waiter>, id: nat, n: nat)
    requires InOrder(waiters, n)
    ensures InOrder(WithoutWaiter(waiters, id), n)
    ensures forall w :: w in WithoutWaiter(waiters, id) ==> w in waiters
  {
    if waiters != [] && waiters[0].id != id {
      WithoutKeepsOrder(waiters[1..], id, n);
      assert forall w :: w in waiters[1..] ==> waiters[0].id < w.id;
    }
  }

  /** Waiters stand in the order of their waits, so that the first in the row is the one that came first. */
  lemma {:induction false} WaitersStandInOrder(c: Client, events: seq<Event>)
    requires InOrder(c.waiters, c.nextWaiter)
    ensures InOrder(Run(c, events).waiters, Run(c, events).nextWaiter)
    decreases |events|
  {
    if events != [] {
      StepKeepsOrder(c, events[0]);
      WaitersStandInOrder(Step(c, events[0]), events[1..]);
    }
  }

  lemma StepKeepsOrder(c: Client, e: Event)
    requires InOrder(c.waiters, c.nextWaiter)
    ensures InOrder(Step(c, e).waiters, Step(c, e).nextWaiter)
  {
    match e
    case WaiterTimer(id) =>
      WithoutKeepsOrder(c.waiters, id, c.nextWaiter);
    case _ =>
  }

  /** The waiter at `i` is the earliest that wants the message, and the only one settled with it. */
  ghost predicate SettlesOnly(c: Client, d: Client, m: Json, i: nat)
    requires i < |c.waiters|
  {
    && c.waiters[i].pred(m) && (forall j :: 0 <= j < i ==> !c.waiters[j].pred(m))
    && d.waited == c.waited + [(c.waiters[i].id, Some(m))]
    && WaiterIds(d.waiters) == WaiterIds(c.waiters) - {c.waiters[i].id}
  }

  /** In every run, a notification that no waiter wants settles nothing; otherwise it settles exactly one
      waiter, the earliest that wants it, and all others go on waiting. */
  lemma EarliestWaiterWins(events: seq<Event>, m: Json)
    requires Peer.HasMethod(m) && !IsReply(m)
    ensures var c := Run(Fresh(), events);
            var d := Step(c, Message(m));
            if forall j :: 0 <= j < |c.waiters| ==> !c.waiters[j].pred(m) then
              d.waiters == c.waiters && d.waited == c.waited
            else exists i :: 0 <= i < |c.waiters| && SettlesOnly(c, d, m, i)
  {
    var c := Run(Fresh(), events);
    var i := FirstWanting(c.waiters, m);
    if i < |c.waiters| {
      RunConserves(Fresh(), events);
      RemoveWaiter(c.waiters, i);
      assert SettlesOnly(c, Step(c, Message(m)), m, i);
    }
  }

  /** The client object: a call or a wait arms a timer, an incoming message or a timer settles it. */
  class RpcObject {
    var seqNo: nat
    var pending: set<nat>
    var timers: set<nat>
    var settled: seq<(nat, Outcome)>
    var notifications: seq<Json>
    var nextWaiter: nat
    var waiters: seq<Waiter>
    var waiterTimers: set<nat>
    var waited: seq<(nat, Option<Json>)>

    ghost function State(): Client
      reads this
    {
      Client(seqNo, pending, timers, settled, notifications, nextWaiter, waiters, waiterTimers, waited)
    }

    constructor ()
      ensures State() == Fresh()
    {
      seqNo, pending, timers, settled := 0, {}, {}, [];
      notifications, nextWaiter, waiters, waiterTimers, waited := [], 0, [], {}, [];
    }

    method SendCall() returns (id: nat)
      modifies this
      ensures State() == Step(old(State()), Calls) && id == seqNo
    {
      seqNo := seqNo + 1;
      id := seqNo;
      timers := timers + {id};
      pending := pending + {id};
    }

    method OnMessage(m: Json)
      modifies this
      ensures State() == Step(old(State()), Message(m))
    {
      if IsReply(m) {
        var key := Peer.KeyOf(Get(m, "id").value);
        if key.None? || key.value !in pending {
          return;
        }
        pending := pending - {key.value};
        timers := timers - {key.value};
        if IsFailure(m) {
          settled := settled + [(key.value, Rejected(m))];
        } else {
          settled := settled + [(key.value, Resolved(m))];
        }
      } else if Peer.HasMethod(m) {
        notifications := notifications + [m];
        var i := FirstWanting(waiters, m);
        if i < |waiters| {
          var w := waiters[i];
          waiters := waiters[..i] + waiters[i + 1..];
          waiterTimers := waiterTimers - {w.id};
          waited := waited + [(w.id, Some(m))];
        }
      }
    }

    method FireCallTimer(id: nat)
      requires id in timers
      modifies this
      ensures State() == Step(old(State()), CallTimer(id))
    {
      timers := timers - {id};
      pending := pending - {id};
      settled := settled + [(id, TimedOut)];
    }

    method Wait(pred: Json -> bool, from: nat)
      modifies this
      ensures State() == Step(old(State()), Waits(pred, from))
    {
      var id := nextWaiter;
      nextWaiter := nextWaiter + 1;
      var existing := FirstFrom(notifications, from, pred);
      if existing.Some? {
        waited := waited + [(id, existing)];
      } else {
        waiterTimers := waiterTimers + {id};
        waiters := waiters + [Waiter(id, pred)];
      }
    }

    method FireWaiterTimer(id: nat)
      requires id in waiterTimers
      modifies this
      ensures State() == Step(old(State()), WaiterTimer(id))
    {
      waiterTimers := waiterTimers - {id};
      waiters := WithoutWaiter(waiters, id);
      waited := waited + [(id, None)];
    }
  }
}
