/** The thread registry: live entries by thread id, and the identifiers it hands out. */
module Registry {
  import opened Text

  /** A live thread's session, turn counter and current turn. */
  datatype Entry = Entry(session: nat, turnSeq: nat, currentTurnId: string)

  datatype Result<T> = Ok(value: T) | UnknownThread

  /** Identifiers end in an underscore and a number, so the number can be split off again. */
  function Stamped(kind: string, owner: string, n: nat): string {
    kind + owner + "_" + Decimal(n)
  }

  function TurnId(thread: string, n: nat): string { Stamped("turn_", thread, n) }

  function CallId(thread: string, n: nat): string { Stamped("call_", thread, n) }

  /** A client sees the thread in the middle of an id, and the number at its end. */
  lemma IdsAreSpelled(thread: string)
    ensures TurnId(thread, 3) == "turn_" + thread + "_" + "3" && CallId(thread, 7) == "call_" + thread + "_" + "7"
  {
    assert Decimal(3) == "3" && Decimal(7) == "7";
  }

  lemma UnderscoreSplits(a: string, x: string, b: string, y: string)
    requires a + "_" + x == b + "_" + y && '_' !in x && '_' !in y
    ensures a == b && x == y
  {
    var s, t := a + "_" + x, b + "_" + y;
    assert s[|a|] == '_' && t[|b|] == '_';
    assert forall k :: |a| < k < |s| ==> s[k] == x[k - |a| - 1] && s[k] != '_';
    assert forall k :: |b| < k < |t| ==> t[k] == y[k - |b| - 1] && t[k] != '_';
    assert a == s[..|a|] && b == t[..|b|] && x == s[|a| + 1..] && y == t[|b| + 1..];
  }

  /** Two identifiers of one kind are equal only for the same owner and the same number. */
  lemma StampedInjective(kind: string, owner: string, n: nat, owner': string, n': nat)
    requires Stamped(kind, owner, n) == Stamped(kind, owner', n')
    ensures owner == owner' && n == n'
  {
    UnderscoreSplits(kind + owner, Decimal(n), kind + owner', Decimal(n'));
    assert owner == (kind + owner)[|kind|..] && owner' == (kind + owner')[|kind|..];
    DecimalInjective(n, n');
  }

  /** A registration always starts counting turns afresh, also for a known thread. */
  function Registered(threads: map<string, Entry>, id: string, session: nat): map<string, Entry> {
    threads[id := Entry(session, 0, "")]
  }

  /** The next turn of a known thread is counted. */
  function Advanced(threads: map<string, Entry>, id: string): map<string, Entry>
    requires id in threads
  {
    threads[id := threads[id].(turnSeq := threads[id].turnSeq + 1)]
  }

  class Registry {
    var threads: map<string, Entry>

    constructor ()
      ensures threads == map[]
    {
      threads := map[];
    }

    method Register(id: string, session: nat)
      modifies this
      ensures threads == Registered(old(threads), id, session)
    {
      threads := threads[id := Entry(session, 0, "")];
    }

    method NextTurnId(id: string) returns (r: Result<string>)
      modifies this
      ensures id !in old(threads) ==> r == UnknownThread && threads == old(threads)
      ensures id in old(threads) ==>
                threads == Advanced(old(threads), id) && r == Ok(TurnId(id, threads[id].turnSeq))
    {
      if id !in threads { return UnknownThread; }
      threads := threads[id := threads[id].(turnSeq := threads[id].turnSeq + 1)];
      r := Ok("turn_" + id + "_" + Decimal(threads[id].turnSeq));
    }
  }
}
