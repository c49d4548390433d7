/** The hand-made asynchronous input queues of the probes: a producer pushes and closes, a generator
    yields or parks on a promise. The two variants differ only in whether a wake-up clears the stored
    resolver. */
module InputQueue {
  import opened Text

  /** Waiting for the consumer's next call, parked on a promise, or finished. */
  datatype Generator = Suspended | Parked(promise: nat) | Returned

  /** `closedAt` is how many items had been pushed at the first close. */
  datatype Queue<T> = Queue(items: seq<T>, wake: Option<nat>, closed: bool, gen: Generator, promises: nat,
                            resolved: set<nat>, pushed: seq<T>, yielded: seq<T>, closedAt: nat)

  function Empty<T>(): Queue<T> { Queue([], None, false, Suspended, 0, {}, [], [], 0) }

  /** Calls the stored resolver; only the first variant then forgets it. */
  function WakeUp<T>(q: Queue<T>, clears: bool): Queue<T> {
    match q.wake
    case None => q
    case Some(p) => q.(resolved := q.resolved + {p}, wake := if clears then None else q.wake)
  }

  function Push<T>(q: Queue<T>, m: T, clears: bool): Queue<T> {
    WakeUp(q.(items := q.items + [m], pushed := q.pushed + [m]), clears)
  }

  function Close<T>(q: Queue<T>, clears: bool): Queue<T> {
    WakeUp(q.(closed := true, closedAt := if q.closed then q.closedAt else |q.pushed|), clears)
  }

  /** The generator's loop from its top to the next yield, return or await. */
  function Resume<T>(q: Queue<T>): Queue<T> {
    if q.items != [] then q.(items := q.items[1..], yielded := q.yielded + [q.items[0]], gen := Suspended)
    else if q.closed then q.(gen := Returned)
    else q.(wake := Some(q.promises), gen := Parked(q.promises), promises := q.promises + 1)
  }

  /** Producer steps, the consumer asking for the next item, and the microtask of a resolved promise. */
  datatype Event<T> = Pushes(m: T) | Closes | Asks | Wakes

  predicate Enabled<T>(q: Queue<T>, e: Event<T>) {
    match e
    case Asks => q.gen.Suspended?
    case Wakes => q.gen.Parked? && q.gen.promise in q.resolved
    case _ => true
  }

  function Step<T>(q: Queue<T>, e: Event<T>, clears: bool): Queue<T> {
    if !Enabled(q, e) then q
    else
      match e
      case Pushes(m) => Push(q, m, clears)
      case Closes => Close(q, clears)
      case Asks => Resume(q)
      case Wakes => Resume(q)
  }

  function Run<T>(q: Queue<T>, events: seq<Event<T>>, clears: bool): Queue<T>
    decreases |events|
  {
    if events == [] then q else Run(Step(q, events[0], clears), events[1..], clears)
  }

  /** Nothing is lost or reordered, and a parked generator that has work is already being woken. */
  ghost predicate Inv<T>(q: Queue<T>) {
    && q.pushed == q.yielded + q.items
    && q.closedAt <= |q.pushed|
    && (forall p :: p in q.resolved ==> p < q.promises)
    && (q.wake.Some? ==> q.wake.value < q.promises)
    && (q.gen.Parked? ==> q.gen.promise < q.promises)
    && (q.gen.Parked? && q.gen.promise !in q.resolved ==>
          q.items == [] && !q.closed && q.wake == Some(q.gen.promise))
    && (q.gen.Returned? ==> q.closed && q.closedAt <= |q.yielded|)
  }

  lemma StepKeeps<T>(q: Queue<T>, e: Event<T>, clears: bool)
    requires Inv(q)
    ensures Inv(Step(q, e, clears))
  {
    if e.Pushes? {
      assert q.pushed + [e.m] == q.yielded + (q.items + [e.m]);
    }
    if q.items != [] {
      assert q.yielded + [q.items[0]] + q.items[1..] == q.yielded + q.items;
    }
  }

  lemma {:induction false} RunKeeps<T>(q: Queue<T>, events: seq<Event<T>>, clears: bool)
    requires Inv(q)
    ensures Inv(Run(q, events, clears))
    decreases |events|
  {
    if events != [] {
      StepKeeps(q, events[0], clears);
      RunKeeps(Step(q, events[0], clears), events[1..], clears);
    }
  }

  /** No lost wake-up, in either variant and under every interleaving: a generator parked on an
      unresolved promise has an empty queue and no close to see; what was yielded is a prefix of what
      was pushed; and a generator that returned had first yielded everything pushed before the close. */
  lemma NoLostWakeup<T>(events: seq<Event<T>>, clears: bool)
    ensures var q := Run(Empty(), events, clears);
            && (q.gen.Parked? && !Enabled(q, Wakes) ==> q.items == [] && !q.closed)
            && q.yielded <= q.pushed
            && (q.gen.Returned? ==> q.closed && q.closedAt <= |q.pushed| && q.pushed[..q.closedAt] <= q.yielded)
  {
    RunKeeps(Empty(), events, clears);
  }

  /** What the producer pushes in a schedule. */
  function Offered<T>(events: seq<Event<T>>): seq<T> {
    if events == [] then [] else OfferedIn(events[0]) + Offered(events[1..])
  }

  function OfferedIn<T>(e: Event<T>): seq<T> { if e.Pushes? then [e.m] else [] }

  lemma StepTakes<T>(q: Queue<T>, e: Event<T>, clears: bool)
    ensures Step(q, e, clears).pushed == q.pushed + OfferedIn(e)
    ensures Step(q, e, clears).closed == (q.closed || e == Closes)
  {
  }

  /** Every item offered is taken in, in order, also after a close; and the queue is closed exactly when the
      producer closed it. */
  lemma {:induction false} EverythingIsTaken<T>(q: Queue<T>, events: seq<Event<T>>, clears: bool)
    ensures Run(q, events, clears).pushed == q.pushed + Offered(events)
    ensures Run(q, events, clears).closed == (q.closed || Closes in events)
    decreases |events|
  {
    if events != [] {
      StepTakes(q, events[0], clears);
      EverythingIsTaken(Step(q, events[0], clears), events[1..], clears);
      Assoc(q.pushed, OfferedIn(events[0]), Offered(events[1..]));
      assert Closes in events <==> events[0] == Closes || Closes in events[1..];
    }
  }

  /** The consumer's side of the schedule: take the pending wake-up, else ask. */
  function Consume<T>(q: Queue<T>, n: nat, clears: bool): Queue<T>
    decreases n
  {
    if n == 0 then q
    else Consume(Step(q, if q.gen.Parked? then Wakes else Asks, clears), n - 1, clears)
  }

  lemma {:induction false} DrainFrom<T>(q: Queue<T>, clears: bool)
    requires Inv(q) && q.closed && !q.gen.Returned?
    ensures var r := Consume(q, |q.items| + 1, clears);
            r.gen == Returned && r.yielded == q.pushed
    decreases |q.items|
  {
    var e: Event<T> := if q.gen.Parked? then Wakes else Asks;
    var next := Step(q, e, clears);
    StepKeeps(q, e, clears);
    if q.items == [] {
      assert Consume(next, 0, clears) == next;
      assert q.yielded + [] == q.yielded;
    } else {
      assert next.pushed == q.pushed && next.closed;
      DrainFrom(next, clears);
    }
  }

  /** After a close, in any reachable state, the consumer alone brings the generator to its return, and
      it has then yielded everything pushed. */
  lemma EveryItemIsDelivered<T>(events: seq<Event<T>>, clears: bool)
    requires var q := Run(Empty(), events, clears); q.closed && !q.gen.Returned?
    ensures var q := Run(Empty(), events, clears);
            var r := Consume(q, |q.items| + 1, clears);
            r.gen == Returned && r.yielded == q.pushed
  {
    RunKeeps(Empty(), events, clears);
    DrainFrom(Run(Empty(), events, clears), clears);
  }

  /** The queue object: producers call `Add` and `End`, the generator runs `Advance`, and a parked
      generator goes on when its promise is resolved. `clears` distinguishes the two variants. */
  class InputQueueObject<T> {
    const clears: bool
    var items: seq<T>
    var wake: Option<nat>
    var closed: bool
    var gen: Generator
    var promises: nat
    var resolved: set<nat>
    ghost var pushed: seq<T>
    ghost var yielded: seq<T>
    ghost var closedAt: nat

    ghost function State(): Queue<T>
      reads this
    {
      Queue(items, wake, closed, gen, promises, resolved, pushed, yielded, closedAt)
    }

    constructor (clears: bool)
      ensures State() == Empty() && this.clears == clears
    {
      this.clears := clears;
      items, wake, closed, gen, promises, resolved := [], None, false, Suspended, 0, {};
      pushed, yielded, closedAt := [], [], 0;
    }

    /** `wake?.()`, and in the first variant `wake = null`. */
    method CallWake()
      modifies `resolved, `wake
      ensures State() == WakeUp(old(State()), clears)
    {
      if wake.Some? {
        resolved := resolved + {wake.value};
        if clears {
          wake := None;
        }
      }
    }

    method Add(m: T)
      modifies this
      ensures State() == Push(old(State()), m, clears)
    {
      items := items + [m];
      pushed := pushed + [m];
      CallWake();
    }

    method End()
      modifies this
      ensures State() == Close(old(State()), clears)
    {
      if !closed {
        closedAt := |pushed|;
      }
      closed := true;
      CallWake();
    }

    /** The generator body up to its next yield, return or await. */
    method Advance() returns (item: Option<T>)
      modifies this
      ensures State() == Resume(old(State()))
      ensures item == if old(items) != [] then Some(old(items)[0]) else None
    {
      if items != [] {
        item := Some(items[0]);
        yielded := yielded + [items[0]];
        items, gen := items[1..], Suspended;
      } else {
        item := None;
        if closed {
          gen := Returned;
        } else {
          wake, gen, promises := Some(promises), Parked(promises), promises + 1;
        }
      }
    }
  }
}
