/** The thread sidecar file: the 200 most recently recorded threads, newest first. */
module Threads {
  import opened Text

  const CAPACITY: nat := 200

  datatype Rec = Rec(key: string, sessionId: string, cwd: string, updatedAt: int)

  /** The file's entries in the order of its object keys. */
  type Store = seq<Rec>

  predicate UniqueKeys(s: Store) {
    forall i, j :: 0 <= i < j < |s| ==> s[i].key != s[j].key
  }

  function Find(s: Store, key: string): (r: Option<Rec>)
    ensures r.Some? ==> r.value in s && r.value.key == key
    ensures r.None? ==> forall i :: 0 <= i < |s| ==> s[i].key != key
  {
    if s == [] then None else if s[0].key == key then Some(s[0]) else Find(s[1..], key)
  }

  /** `all[key] = record`: an existing key keeps its place, a new one goes last. */
  function Assign(s: Store, r: Rec): Store {
    if s == [] then [r]
    else if s[0].key == r.key then [r] + s[1..]
    else [s[0]] + Assign(s[1..], r)
  }

  /** Placed after every record that is at least as new, which is what a stable sort does. */
  function Insert(s: Store, r: Rec): Store {
    if s == [] then [r]
    else if s[0].updatedAt >= r.updatedAt then [s[0]] + Insert(s[1..], r)
    else [r] + s
  }

  /** `sort((a, b) => b.updatedAt - a.updatedAt)`. */
  function Sorted(s: Store): Store {
    if s == [] then [] else Insert(Sorted(s[..|s| - 1]), s[|s| - 1])
  }

  function Take<T>(s: seq<T>, n: nat): seq<T> {
    if |s| <= n then s else s[..n]
  }

  /** `recordThread`. */
  function Record(s: Store, r: Rec): Store {
    Take(Sorted(Assign(s, r)), CAPACITY)
  }

  /** The sidecar file, replaced whole by a rename. */
  class Sidecar {
    var file: Store

    /** A crash before the rename leaves the previous file. */
    method RecordThread(threadId: string, sessionId: string, cwd: string, now: int, crash: bool)
      modifies this
      ensures file == if crash then old(file) else Record(old(file), Rec(threadId, sessionId, cwd, now))
    {
      var all := Assign(file, Rec(threadId, sessionId, cwd, now));
      var keys := Sorted(all);
      var tmp := if |keys| <= CAPACITY then keys else keys[..CAPACITY];
      if crash { return; }
      file := tmp;
    }

    /** A record that is found is in the file under its key; `None` means that no record has the key. */
    method LookupThread(threadId: string) returns (r: Option<Rec>)
      ensures r == Find(file, threadId)
      ensures r.Some? <==> exists i :: 0 <= i < |file| && file[i].key == threadId
      ensures UniqueKeys(file) ==> forall i :: 0 <= i < |file| && file[i].key == threadId ==> r == Some(file[i])
    {
      r := Find(file, threadId);
    }
  }

  // ---- Sorting by a clock that only advances ----------------------------------------------------

  predicate Descending(s: Store) {
    forall i, j :: 0 <= i < j < |s| ==> s[i].updatedAt >= s[j].updatedAt
  }

  function Without(s: Store, key: string): Store {
    if s == [] then [] else (if s[0].key == key then [] else [s[0]]) + Without(s[1..], key)
  }

  lemma {:induction false} InsertLast(s: Store, r: Rec)
    requires forall i :: 0 <= i < |s| ==> s[i].updatedAt >= r.updatedAt
    ensures Insert(s, r) == s + [r]
  {
    if s != [] {
      InsertLast(s[1..], r);
    }
  }

  predicate Older(s: Store, time: int) {
    forall i :: 0 <= i < |s| ==> s[i].updatedAt < time
  }

  lemma SortAppend(s: Store, last: Rec)
    ensures Sorted(s + [last]) == Insert(Sorted(s), last)
  {
    assert (s + [last])[..|s|] == s;
  }

  lemma SortNewestLast(a: Store, r: Rec)
    requires Descending(a) && Older(a, r.updatedAt)
    ensures Sorted(a + [r]) == [r] + a
  {
    SortAppend(a, r);
    SortIdentity(a);
  }

  lemma DescendingPrefix(s: Store, last: Rec)
    requires Descending(s + [last])
    ensures Descending(s) && forall i :: 0 <= i < |s| ==> s[i].updatedAt >= last.updatedAt
  {
    var t := s + [last];
    assert forall i :: 0 <= i < |s| ==> s[i] == t[i];
    assert forall i :: 0 <= i < |s| ==> t[i].updatedAt >= t[|s|].updatedAt;
  }

  /** Sorting moves the one newest record to the front of an already sorted list. */
  lemma {:induction false} SortMovesNewest(a: Store, r: Rec, b: Store)
    requires Descending(a + b) && Older(a + b, r.updatedAt)
    ensures Sorted(a + [r] + b) == [r] + (a + b)
    decreases |b|
  {
    if b == [] {
      assert a + b == a && a + [r] + b == a + [r];
      SortNewestLast(a, r);
    } else {
      var c, last := b[..|b| - 1], b[|b| - 1];
      var front: Store := a + c;
      assert b == c + [last];
      Assoc(a, c, [last]);
      Assoc(a + [r], c, [last]);
      OlderPrefix(front, last, r);
      SortMovesNewest(a, r, c);
      SortAppend(a + [r] + c, last);
      InsertLast([r] + front, last);
      Assoc([r], front, [last]);
    }
  }

  lemma OlderPrefix(front: Store, last: Rec, r: Rec)
    requires Descending(front + [last]) && Older(front + [last], r.updatedAt)
    ensures Descending(front) && Older(front, r.updatedAt)
    ensures forall i :: 0 <= i < |[r] + front| ==> ([r] + front)[i].updatedAt >= last.updatedAt
  {
    DescendingPrefix(front, last);
    assert forall i :: 0 <= i < |front| ==> front[i] == (front + [last])[i];
    assert (front + [last])[|front|] == last;
  }

  lemma {:induction false} SortIdentity(s: Store)
    requires Descending(s)
    ensures Sorted(s) == s
  {
    if s != [] {
      SortIdentity(s[..|s| - 1]);
      InsertLast(s[..|s| - 1], s[|s| - 1]);
    }
  }

  /** Where an assignment lands, and what surrounds it. */
  lemma {:induction false} AssignSplits(s: Store, r: Rec) returns (a: Store, b: Store)
    requires UniqueKeys(s)
    ensures Assign(s, r) == a + [r] + b && a + b == Without(s, r.key)
  {
    if s == [] {
      a, b := [], [];
    } else if s[0].key == r.key {
      a, b := [], s[1..];
      WithoutAbsent(s[1..], r.key);
    } else {
      a, b := AssignSplits(s[1..], r);
      a := [s[0]] + a;
    }
  }

  lemma {:induction false} WithoutAbsent(s: Store, key: string)
    requires forall i :: 0 <= i < |s| ==> s[i].key != key
    ensures Without(s, key) == s
  {
    if s != [] {
      WithoutAbsent(s[1..], key);
    }
  }

  lemma {:induction false} WithoutMembers(s: Store, key: string)
    ensures forall r :: r in Without(s, key) <==> r in s && r.key != key
  {
    if s != [] {
      WithoutMembers(s[1..], key);
    }
  }

  lemma {:induction false} WithoutUnique(s: Store, key: string)
    requires UniqueKeys(s)
    ensures UniqueKeys(Without(s, key))
  {
    if s != [] {
      WithoutUnique(s[1..], key);
      WithoutMembers(s[1..], key);
      var rest := Without(s[1..], key);
      forall i | 0 <= i < |rest|
        ensures rest[i].key != s[0].key
      {
        assert rest[i] in rest;
      }
    }
  }

  lemma {:induction false} WithoutDescending(s: Store, key: string)
    requires Descending(s)
    ensures Descending(Without(s, key))
  {
    if s != [] {
      WithoutDescending(s[1..], key);
      WithoutMembers(s[1..], key);
      var rest := Without(s[1..], key);
      forall i | 0 <= i < |rest|
        ensures rest[i].updatedAt <= s[0].updatedAt
      {
        assert rest[i] in rest;
      }
    }
  }

  /** With a clock past every stored time, recording moves the thread to the front. */
  lemma RecordMovesToFront(s: Store, r: Rec)
    requires UniqueKeys(s) && Descending(s) && Older(s, r.updatedAt)
    ensures Record(s, r) == Take([r] + Without(s, r.key), 200)
  {
    var a, b := AssignSplits(s, r);
    var others: Store := a + b;
    WithoutMembers(s, r.key);
    WithoutDescending(s, r.key);
    forall i | 0 <= i < |others|
      ensures others[i].updatedAt < r.updatedAt
    {
      assert others[i] in Without(s, r.key);
    }
    SortMovesNewest(a, r, b);
  }

  // ---- The unbounded recency list ---------------------------------------------------------------

  /** A history of recordings, oldest first, under a strictly increasing clock. */
  predicate StrictClock(history: seq<Rec>) {
    forall i, j :: 0 <= i < j < |history| ==> history[i].updatedAt < history[j].updatedAt
  }

  function StoreAfter(history: seq<Rec>): Store {
    if history == [] then [] else Record(StoreAfter(history[..|history| - 1]), history[|history| - 1])
  }

  /** Every thread ever recorded, most recently recorded first. */
  function Recency(history: seq<Rec>): Store {
    if history == [] then []
    else
      var r := history[|history| - 1];
      [r] + Without(Recency(history[..|history| - 1]), r.key)
  }

  lemma {:induction false} RecencyShape(history: seq<Rec>)
    requires StrictClock(history)
    ensures UniqueKeys(Recency(history)) && Descending(Recency(history))
    ensures forall r :: r in Recency(history) ==> r in history
  {
    if history != [] {
      var before, r := history[..|history| - 1], history[|history| - 1];
      RecencyShape(before);
      WithoutMembers(Recency(before), r.key);
      WithoutUnique(Recency(before), r.key);
      WithoutDescending(Recency(before), r.key);
      var rest := Without(Recency(before), r.key);
      forall i: int | 0 <= i < |rest|
        ensures rest[i].key != r.key && rest[i].updatedAt < r.updatedAt
      {
        assert rest[i] in rest && rest[i] in before;
      }
    }
  }

  lemma TakeCons(r: Rec, s: seq<Rec>, n: nat)
    requires n > 0
    ensures Take([r] + s, n) == [r] + Take(s, n - 1)
  {
  }

  /** Cutting before or after a removal makes no difference to the first `n - 1` places. */
  lemma {:induction false} TakeWithout(s: Store, key: string, n: nat)
    requires n > 0 && UniqueKeys(s)
    ensures Take(Without(Take(s, n), key), n - 1) == Take(Without(s, key), n - 1)
    decreases |s|
  {
    if |s| > n {
      var t: Store := Take(s, n);
      assert t[0] == s[0] && t[1..] == Take(s[1..], n - 1);
      if s[0].key == key {
        WithoutAbsent(s[1..], key);
        WithoutAbsent(t[1..], key);
      } else if n > 1 {
        TakeWithout(s[1..], key, n - 1);
        TakeCons(s[0], Without(t[1..], key), n - 1);
        TakeCons(s[0], Without(s[1..], key), n - 1);
      }
    }
  }

  /** LRU refinement: the bounded file is the 200 most recent entries of the unbounded recency list. */
  lemma {:induction false} StoreIsRecency(history: seq<Rec>)
    requires StrictClock(history)
    ensures StoreAfter(history) == Take(Recency(history), 200)
  {
    if history != [] {
      var before, r := history[..|history| - 1], history[|history| - 1];
      StoreIsRecency(before);
      RecencyShape(before);
      var all, kept := Recency(before), StoreAfter(before);
      forall i | 0 <= i < |kept|
        ensures kept[i].updatedAt < r.updatedAt
      {
        assert all[i] in all && all[i] in before;
      }
      RecordMovesToFront(kept, r);
      TakeWithout(all, r.key, CAPACITY);
      TakeCons(r, Without(kept, r.key), CAPACITY);
      TakeCons(r, Without(all, r.key), CAPACITY);
    }
  }

  // ---- Which lookups succeed --------------------------------------------------------------------

  predicate Recorded(history: seq<Rec>, key: string) {
    exists i :: 0 <= i < |history| && history[i].key == key
  }

  /** The other threads recorded since this one's last record. */
  function OthersSince(history: seq<Rec>, key: string): set<string> {
    if history == [] || history[|history| - 1].key == key then {}
    else OthersSince(history[..|history| - 1], key) + {history[|history| - 1].key}
  }

  function LastRecord(history: seq<Rec>, key: string): Rec
    requires Recorded(history, key)
  {
    if history[|history| - 1].key == key then history[|history| - 1]
    else LastRecord(history[..|history| - 1], key)
  }

  function KeysOf(s: Store): set<string> {
    set i | 0 <= i < |s| :: s[i].key
  }

  lemma KeysSnoc(s: Store, r: Rec)
    ensures KeysOf(s + [r]) == KeysOf(s) + {r.key}
  {
    var all := s + [r];
    forall key | key in KeysOf(s) + {r.key}
      ensures key in KeysOf(all)
    {
      if key == r.key {
        assert all[|s|].key == key;
      } else {
        var i :| 0 <= i < |s| && s[i].key == key;
        assert all[i].key == key;
      }
    }
  }

  lemma {:induction false} UniqueKeysCount(s: Store)
    requires UniqueKeys(s)
    ensures |KeysOf(s)| == |s|
  {
    if s != [] {
      var rest, last := s[..|s| - 1], s[|s| - 1];
      UniqueKeysCount(rest);
      assert forall i :: 0 <= i < |rest| ==> rest[i] == s[i];
      assert last.key !in KeysOf(rest);
      KeysSnoc(rest, last);
      assert s == rest + [last];
    }
  }

  /** Removing another key moves a record up by one exactly when that key stood before it. */
  lemma {:induction false} PositionWithout(s: Store, key: string, i: nat) returns (j: nat)
    requires UniqueKeys(s) && i < |s| && s[i].key != key
    ensures j < |Without(s, key)| && Without(s, key)[j] == s[i]
    ensures KeysOf(Without(s, key)[..j]) == KeysOf(s[..i]) - {key}
  {
    if i == 0 {
      j := 0;
      assert s[..0] == [] && Without(s, key)[..0] == [];
    } else {
      var j' := PositionWithout(s[1..], key, i - 1);
      var rest := Without(s[1..], key);
      KeysCons(s[0], s[1..][..i - 1]);
      assert s[..i] == [s[0]] + s[1..][..i - 1];
      if s[0].key == key {
        j := j';
        assert Without(s, key) == rest;
      } else {
        j := j' + 1;
        KeysCons(s[0], rest[..j']);
        assert Without(s, key)[..j] == [s[0]] + rest[..j'];
      }
    }
  }

  lemma KeysCons(r: Rec, s: Store)
    ensures KeysOf([r] + s) == {r.key} + KeysOf(s)
  {
    var t := [r] + s;
    forall key | key in {r.key} + KeysOf(s)
      ensures key in KeysOf(t)
    {
      if key == r.key {
        assert t[0].key == key;
      } else {
        var i :| 0 <= i < |s| && s[i].key == key;
        assert t[i + 1].key == key;
      }
    }
  }

  /** A recorded thread stands in the recency list right behind those recorded since. */
  lemma {:induction false} PlaceInRecency(history: seq<Rec>, key: string) returns (i: nat)
    requires StrictClock(history) && Recorded(history, key)
    ensures i < |Recency(history)| && Recency(history)[i] == LastRecord(history, key)
    ensures LastRecord(history, key).key == key
    ensures KeysOf(Recency(history)[..i]) == OthersSince(history, key)
  {
    var before, r := history[..|history| - 1], history[|history| - 1];
    if r.key == key {
      i := 0;
      assert Recency(history)[..0] == [];
    } else {
      var p :| 0 <= p < |history| && history[p].key == key;
      assert before[p].key == key;
      var place := PlaceInRecency(before, key);
      RecencyShape(before);
      var j := PositionWithout(Recency(before), r.key, place);
      i := j + 1;
      var rest := Without(Recency(before), r.key);
      KeysCons(r, rest[..j]);
      assert Recency(history)[..i] == [r] + rest[..j];
    }
  }

  lemma UnrecordedIsAbsent(history: seq<Rec>, key: string)
    requires StrictClock(history) && !Recorded(history, key)
    ensures Find(StoreAfter(history), key).None?
  {
    StoreIsRecency(history);
    RecencyShape(history);
    var store := StoreAfter(history);
    forall j | 0 <= j < |store| ensures store[j].key != key {
      assert store[j] in Recency(history);
      var i :| 0 <= i < |history| && history[i] == store[j];
      assert history[i].key == key ==> Recorded(history, key);
    }
    FindNothing(store, key);
  }

  lemma FindNothing(s: Store, key: string)
    requires forall j :: 0 <= j < |s| ==> s[j].key != key
    ensures Find(s, key).None?
  {
    var r := Find(s, key);
  }

  lemma {:induction false} FindAt(s: Store, i: nat)
    requires UniqueKeys(s) && i < |s|
    ensures Find(s, s[i].key) == Some(s[i])
  {
    if i > 0 {
      FindAt(s[1..], i - 1);
    }
  }

  /** A lookup returns a thread's latest record if and only if it was recorded and fewer than 200 other
      threads were recorded since; otherwise it finds nothing. */
  lemma LookupIsLeastRecentlyUsed(history: seq<Rec>, key: string)
    requires StrictClock(history)
    ensures Find(StoreAfter(history), key) ==
            if Recorded(history, key) && |OthersSince(history, key)| < 200
            then Some(LastRecord(history, key)) else None
  {
    if !Recorded(history, key) {
      UnrecordedIsAbsent(history, key);
    } else {
      StoreIsRecency(history);
      RecencyShape(history);
      var all := Recency(history);
      var i := PlaceInRecency(history, key);
      assert UniqueKeys(all[..i]);
      UniqueKeysCount(all[..i]);
      var store := StoreAfter(history);
      if i < CAPACITY {
        assert store[i] == all[i] && UniqueKeys(store);
        FindAt(store, i);
      } else {
        assert forall j :: 0 <= j < |store| ==> store[j] == all[j] && all[j].key != all[i].key;
        FindNothing(store, key);
      }
    }
  }

  // ---- A clock that stands still or runs back ---------------------------------------------------

  function AtLeastAsNew(s: Store, time: int): nat {
    if s == [] then 0 else (if s[0].updatedAt >= time then 1 else 0) + AtLeastAsNew(s[1..], time)
  }

  lemma {:induction false} AtLeastConcat(a: Store, b: Store, time: int)
    ensures AtLeastAsNew(a + b, time) == AtLeastAsNew(a, time) + AtLeastAsNew(b, time)
  {
    if a == [] {
      assert a + b == b;
    } else {
      assert (a + b)[1..] == a[1..] + b;
      AtLeastConcat(a[1..], b, time);
    }
  }

  lemma {:induction false} InsertCounts(s: Store, r: Rec, time: int)
    ensures AtLeastAsNew(Insert(s, r), time) == AtLeastAsNew(s, time) + AtLeastAsNew([r], time)
    ensures |Insert(s, r)| == |s| + 1
    ensures forall x :: x in Insert(s, r) <==> x in s || x == r
  {
    if s != [] && s[0].updatedAt >= r.updatedAt {
      InsertCounts(s[1..], r, time);
    } else {
      assert ([r] + s)[1..] == s;
    }
  }

  lemma {:induction false} InsertDescends(s: Store, r: Rec)
    requires Descending(s)
    ensures Descending(Insert(s, r))
  {
    if s != [] && s[0].updatedAt >= r.updatedAt {
      InsertDescends(s[1..], r);
      InsertCounts(s[1..], r, 0);
      var rest := Insert(s[1..], r);
      forall i | 0 <= i < |rest|
        ensures rest[i].updatedAt <= s[0].updatedAt
      {
        assert rest[i] in rest;
      }
    }
  }

  lemma {:induction false} SortCounts(s: Store, time: int)
    ensures AtLeastAsNew(Sorted(s), time) == AtLeastAsNew(s, time)
    ensures |Sorted(s)| == |s| && Descending(Sorted(s))
    ensures forall x :: x in Sorted(s) <==> x in s
  {
    if s != [] {
      var rest, last := s[..|s| - 1], s[|s| - 1];
      SortCounts(rest, time);
      InsertCounts(Sorted(rest), last, time);
      InsertDescends(Sorted(rest), last);
      AtLeastConcat(rest, [last], time);
      assert s == rest + [last];
    }
  }

  /** A record inserted into a sorted list lands right behind those at least as new. */
  lemma {:induction false} InsertPlace(s: Store, r: Rec)
    requires Descending(s) && r !in s
    ensures var i := AtLeastAsNew(s, r.updatedAt);
            i <= |s| && Insert(s, r) == s[..i] + [r] + s[i..]
  {
    if s != [] {
      if s[0].updatedAt >= r.updatedAt {
        InsertPlace(s[1..], r);
        var i := AtLeastAsNew(s[1..], r.updatedAt);
        assert s[..i + 1] == [s[0]] + s[1..][..i] && s[i + 1..] == s[1..][i..];
      } else {
        NoneAsNew(s, r.updatedAt);
      }
    }
  }

  lemma {:induction false} NoneAsNew(s: Store, time: int)
    requires forall i :: 0 <= i < |s| ==> s[i].updatedAt < time
    ensures AtLeastAsNew(s, time) == 0
  {
    if s != [] {
      NoneAsNew(s[1..], time);
    }
  }

  /** Whatever the clock does, a newly recorded thread survives its own recording exactly when fewer
      than 200 stored threads carry a time at least as late: on ties the newest loses. */
  lemma NewThreadSurvivesExactly(s: Store, r: Rec)
    requires UniqueKeys(s) && Find(s, r.key) == None
    ensures Find(Record(s, r), r.key).Some? <==> AtLeastAsNew(s, r.updatedAt) < 200
  {
    AssignNew(s, r);
    var all := s + [r];
    assert all[..|all| - 1] == s;
    SortCounts(s, r.updatedAt);
    var sorted := Sorted(s);
    assert r !in s;
    InsertPlace(sorted, r);
    var i := AtLeastAsNew(s, r.updatedAt);
    var result := Insert(sorted, r);
    assert result == sorted[..i] + [r] + sorted[i..];
    var kept := Record(s, r);
    if i < CAPACITY {
      assert kept[i] == r;
      assert Find(kept, r.key) != None;
    } else {
      forall j | 0 <= j < |kept|
        ensures kept[j].key != r.key
      {
        assert kept[j] == sorted[j] && sorted[j] in s;
      }
    }
  }

  lemma {:induction false} AllAsNew(s: Store, time: int)
    requires forall i :: 0 <= i < |s| ==> s[i].updatedAt >= time
    ensures AtLeastAsNew(s, time) == |s|
  {
    if s != [] {
      AllAsNew(s[1..], time);
    }
  }

  /** 200 threads recorded at one moment, in order. */
  function FullAt(time: int): Store { seq(200, i requires 0 <= i < 200 => Rec(Decimal(i), "", "", time)) }

  /** A thread recorded at the very moment of 200 others is lost at once. */
  lemma TiesEvictTheNewest(time: int)
    ensures UniqueKeys(FullAt(time)) && Find(Record(FullAt(time), Rec("new", "", "", time)), "new") == None
  {
    var s, r := FullAt(time), Rec("new", "", "", time);
    forall i, j | 0 <= i < j < |s| ensures s[i].key != s[j].key {
      if Decimal(i) == Decimal(j) {
        DecimalInjective(i, j);
      }
    }
    assert forall i :: 0 <= i < |s| ==> IsDigit(s[i].key[0]);
    assert r.key[0] == 'n';
    AllAsNew(s, time);
    NewThreadSurvivesExactly(s, r);
  }

  lemma {:induction false} AssignNew(s: Store, r: Rec)
    requires forall i :: 0 <= i < |s| ==> s[i].key != r.key
    ensures Assign(s, r) == s + [r]
  {
    if s != [] {
      AssignNew(s[1..], r);
    }
  }
}
