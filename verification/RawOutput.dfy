/** The raw bytes behind the screen: `pump` with its per-action window, and the bounded scan tail. */
module RawOutput {
  import opened Text

  type Bytes = seq<bv8>

  const WINDOW: nat := 65536
  const RAW_SCAN_TAIL_BYTES: nat := 0x100000
  const MARKER_READ: nat := 4096
  /** The longest marker the window cannot lose: `WINDOW - MARKER_READ + 1`. */
  const LONGEST_MARKER: nat := 61441

  /** Python's `data[-n:]` for a positive `n`. */
  function Last(data: Bytes, n: nat): Bytes {
    if |data| <= n then data else data[|data| - n..]
  }

  /** The end of the data, `n` bytes of it or all there are. */
  lemma LastIsTheEnd(data: Bytes, n: nat)
    ensures |Last(data, n)| == (if |data| <= n then |data| else n)
    ensures data[|data| - |Last(data, n)|..] == Last(data, n)
  {
    assert data[0..] == data;
  }

  lemma LastOfLast(a: Bytes, b: Bytes, n: nat)
    ensures Last(Last(a, n) + b, n) == Last(a + b, n)
  {
  }

  // ---- What the window sees ---------------------------------------------------------------------

  lemma OccursInPrefix(marker: Bytes, before: Bytes, data: Bytes, i: nat)
    requires i + |marker| <= |before| && OccursAt(marker, before + data, i)
    ensures Occurs(marker, before)
  {
    assert (before + data)[i..i + |marker|] == before[i..i + |marker|];
    assert OccursAt(marker, before, i);
  }

  /** A read of at most 4096 bytes completes a marker inside the window exactly when it completes it
      in everything received. */
  lemma WindowSeesCompletion(marker: Bytes, before: Bytes, data: Bytes)
    requires |marker| <= 61441 && |data| <= 4096 && !Occurs(marker, before)
    ensures Occurs(marker, Last(before + data, 65536)) <==> Occurs(marker, before + data)
  {
    var all := before + data;
    var window := Last(all, WINDOW);
    var dropped := |all| - |window|;
    assert all[dropped..] == window;
    if Occurs(marker, window) {
      var i :| 0 <= i <= |window| && OccursAt(marker, window, i);
      assert window[i..i + |marker|] == all[dropped + i..dropped + i + |marker|];
      assert OccursAt(marker, all, dropped + i);
    }
    if Occurs(marker, all) {
      var i :| 0 <= i <= |all| && OccursAt(marker, all, i);
      if i + |marker| <= |before| {
        OccursInPrefix(marker, before, data, i);
      }
      assert window[i - dropped..i - dropped + |marker|] == all[i..i + |marker|];
      assert OccursAt(marker, window, i - dropped);
    }
  }

  ghost predicate NeverLost(length: nat) {
    forall marker: Bytes, before: Bytes, data: Bytes ::
      |marker| == length && |data| <= 4096 && !Occurs(marker, before) ==>
        (Occurs(marker, Last(before + data, 65536)) <==> Occurs(marker, before + data))
  }

  /** One byte longer, and a marker can scroll out of the window on the read that completes it. */
  lemma LongMarkersCanBeLost(length: nat)
    requires length > LONGEST_MARKER
    ensures !NeverLost(length)
  {
    var zeros: Bytes := seq(length - 2, i => 0);
    var marker := [1] + zeros + [1];
    var before := [1] + zeros;
    var tail: Bytes := seq(MARKER_READ - 1, i => 0);
    var data := [1] + tail;
    var all := before + data;
    assert all == marker + tail;
    assert OccursAt(marker, all, 0);
    var window := Last(all, WINDOW);
    var dropped := |all| - |window|;
    forall i: nat | i + length <= |window|
      ensures !OccursAt(marker, window, i)
    {
      assert window[i..i + length][0] == all[dropped + i] == 0;
    }
  }

  /** Exactly the markers of at most 61441 bytes are safe from the sliding window. */
  lemma WindowBoundIsExact(length: nat)
    ensures NeverLost(length) <==> length <= 61441
  {
    if length <= LONGEST_MARKER {
      forall marker: Bytes, before: Bytes, data: Bytes |
        |marker| == length && |data| <= MARKER_READ && !Occurs(marker, before)
        ensures Occurs(marker, Last(before + data, WINDOW)) <==> Occurs(marker, before + data)
      {
        WindowSeesCompletion(marker, before, data);
      }
    } else {
      LongMarkersCanBeLost(length);
    }
  }

  // ---- One wait, as a sequence of polls ---------------------------------------------------------

  /** What one poll of the terminal yields. */
  datatype Poll = Nothing | Data(bytes: Bytes) | Closed

  /** How a wait for a marker ends: on the read that shows it, on a closed terminal or dead child, or
      at the deadline. */
  datatype Outcome = Found | Lost | TimedOut

  function Received(polls: seq<Poll>): Bytes {
    if polls == [] then []
    else Received(polls[..|polls| - 1]) + (if polls[|polls| - 1].Data? then polls[|polls| - 1].bytes else [])
  }

  lemma ReceivedMore(polls: seq<Poll>, k: nat)
    requires k < |polls|
    ensures Received(polls[..k + 1]) == Received(polls[..k]) + (if polls[k].Data? then polls[k].bytes else [])
  {
    assert polls[..k + 1][..k] == polls[..k];
  }

  /** The variables `pump` and `retain_raw` update. */
  class Capture {
    const armed: bool         // a publication secret is set
    var rawTail: Bytes
    var outputGeneration: Bytes
    ghost var fed: Bytes      // every byte fed to the emulator
    ghost var received: Bytes // the bytes read since the current action began

    ghost predicate Valid()
      reads this
    {
      && rawTail == (if armed then Last(fed, 1048576) else [])
      && outputGeneration == Last(received, 65536)
    }

    constructor (armed: bool)
      ensures Valid() && fed == [] && received == [] && this.armed == armed
    {
      this.armed := armed;
      rawTail, outputGeneration, fed, received := [], [], [], [];
    }

    method RetainRaw(data: Bytes)
      requires Valid()
      modifies this`rawTail, this`fed
      ensures Valid() && fed == old(fed) + data
    {
      ghost var before := fed;
      fed := fed + data;
      if !armed { return; }
      LastOfLast(before, data, RAW_SCAN_TAIL_BYTES);
      rawTail := rawTail + data;
      if |rawTail| > RAW_SCAN_TAIL_BYTES {
        rawTail := rawTail[|rawTail| - RAW_SCAN_TAIL_BYTES..];
      }
    }

    /** One read: the action's window, then the scan tail. */
    method Receive(data: Bytes)
      requires Valid()
      modifies this
      ensures Valid() && received == old(received) + data && fed == old(fed) + data
    {
      LastOfLast(received, data, WINDOW);
      received := received + data;
      outputGeneration := Last(outputGeneration + data, WINDOW);
      RetainRaw(data);
    }

    /** The `wait-output` action. All polls but the last happen before the deadline; then the child's
        status is read. A marker that fits is reported on the very read that completes it, and never
        otherwise. */
    method WaitOutput(marker: Bytes, polls: seq<Poll>, childGone: bool) returns (outcome: Outcome, used: nat)
      requires Valid() && marker != [] && polls != []
      requires forall i :: 0 <= i < |polls| && polls[i].Data? ==> 0 < |polls[i].bytes| <= MARKER_READ
      modifies this
      ensures Valid() && used <= |polls|
      ensures received == Received(polls[..used]) && fed == old(fed) + received
      ensures outcome == Found ==> used > 0 && Occurs(marker, received)
      ensures outcome == TimedOut ==> used == |polls| && !childGone
      ensures outcome == Lost ==> used > 0 && (polls[used - 1] == Closed || (used == |polls| && childGone))
      ensures |marker| <= LONGEST_MARKER ==>
                (outcome == Found <==> Occurs(marker, received))
                && (outcome == Found ==> !Occurs(marker, Received(polls[..used - 1])))
    {
      outputGeneration, received := [], [];
      used := 0;
      while used < |polls|
        invariant used <= |polls| && Valid()
        invariant received == Received(polls[..used]) && fed == old(fed) + received
        invariant |marker| <= LONGEST_MARKER ==> !Occurs(marker, received)
      {
        ReceivedMore(polls, used);
        var poll := polls[used];
        used := used + 1;
        if poll.Closed? { return Lost, used; }
        if poll.Data? {
          Assoc(old(fed), received, poll.bytes);
          var found := ReceiveAndScan(marker, poll.bytes);
          if found { return Found, used; }
        }
      }
      outcome := if childGone then Lost else TimedOut;
    }

    method ReceiveAndScan(marker: Bytes, data: Bytes) returns (found: bool)
      requires Valid() && |data| <= MARKER_READ
      requires |marker| <= LONGEST_MARKER ==> !Occurs(marker, received)
      modifies this
      ensures Valid() && received == old(received) + data && fed == old(fed) + data
      ensures found ==> Occurs(marker, received)
      ensures |marker| <= LONGEST_MARKER ==> (found <==> Occurs(marker, received))
    {
      if |marker| <= LONGEST_MARKER {
        WindowSeesCompletion(marker, received, data);
      }
      Receive(data);
      found := Occurs(marker, outputGeneration);
      if found {
        OccursInLast(marker, received);
      }
    }
  }

  lemma OccursInLast(marker: Bytes, data: Bytes)
    requires Occurs(marker, Last(data, WINDOW))
    ensures Occurs(marker, data)
  {
    var window := Last(data, WINDOW);
    var dropped := |data| - |window|;
    var i :| 0 <= i <= |window| && OccursAt(marker, window, i);
    assert window[i..i + |marker|] == data[dropped + i..dropped + i + |marker|];
    assert OccursAt(marker, data, dropped + i);
  }
}
