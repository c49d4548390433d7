/** Finding `user@host` before `:/` in a line of visible characters, and widening a match to the left
    over an earlier `@` when a physical row of the diff broke in between. */
module Identities {
  import opened Text

  /** `[^\s@:/]`. */
  predicate IsComponent(c: char) { !IsSpace(c) && c != '@' && c != ':' && c != '/' }

  predicate AllComponents(v: string, i: nat, j: nat)
    requires j <= |v|
  {
    forall x :: i <= x < j ==> IsComponent(v[x])
  }

  predicate RunBegins(v: string, i: nat)
    requires i <= |v|
  {
    i == 0 || !IsComponent(v[i - 1])
  }

  datatype Identity = Identity(start: nat, at: nat, end: nat)

  /** A match of `[^\s@:/]+@[^\s@:/]+(?=:/)` that begins with its component run. */
  predicate IsIdentity(v: string, d: Identity) {
    && d.start < d.at < d.end - 1 && d.end + 1 < |v|
    && AllComponents(v, d.start, d.at) && v[d.at] == '@'
    && AllComponents(v, d.at + 1, d.end) && v[d.end] == ':' && v[d.end + 1] == '/'
    && RunBegins(v, d.start)
  }

  /** The match of the pattern at position `i`; greedy runs leave nothing to backtrack into. */
  function MatchAt(v: string, i: nat): Option<Identity>
    requires i <= |v|
  {
    var at := Span(v, i, IsComponent);
    if at == i || at == |v| || v[at] != '@' then None
    else
      var end := Span(v, at + 1, IsComponent);
      if end == at + 1 || end + 1 >= |v| || v[end] != ':' || v[end + 1] != '/' then None
      else Some(Identity(i, at, end))
  }

  /** `finditer` from position `i`. */
  function FindAll(v: string, i: nat): seq<Identity>
    requires i <= |v|
    decreases |v| - i
  {
    if i == |v| then []
    else
      match MatchAt(v, i)
      case Some(d) => [d] + FindAll(v, d.end)
      case None => FindAll(v, i + 1)
  }

  lemma MatchIsIdentity(v: string, i: nat, d: Identity)
    requires i <= |v| && RunBegins(v, i)
    ensures MatchAt(v, i) == Some(d) <==> IsIdentity(v, d) && d.start == i
  {
    if IsIdentity(v, d) && d.start == i {
      SpanUnique(v, i, d.at);
      SpanUnique(v, d.at + 1, d.end);
    }
  }

  lemma {:induction false} SpanUnique(v: string, i: nat, k: nat)
    requires i <= k < |v| && AllComponents(v, i, k) && !IsComponent(v[k])
    ensures Span(v, i, IsComponent) == k
    decreases k - i
  {
    if i < k {
      SpanUnique(v, i + 1, k);
    }
  }

  /** No other match begins inside a match. */
  lemma NoIdentityInside(v: string, d: Identity, e: Identity)
    requires IsIdentity(v, d) && IsIdentity(v, e) && d.start <= e.start < d.end
    ensures d == e
  {
    if e.start <= d.at {
      assert e.start == d.start;
      assert e.at == d.at;
      assert e.end == d.end;
    }
  }

  /** `finditer` yields every identity and nothing else. */
  lemma {:induction false} FindAllExact(v: string, i: nat, d: Identity)
    requires i <= |v| && (RunBegins(v, i) || MatchAt(v, i).None?)
    ensures d in FindAll(v, i) <==> IsIdentity(v, d) && d.start >= i
    decreases |v| - i
  {
    if i < |v| {
      match MatchAt(v, i)
      case Some(m) =>
        MatchHere(v, i, m, d);
        FindAllExact(v, m.end, d);
      case None =>
        NoMatchHere(v, i, d);
        FindAllExact(v, i + 1, d);
    }
  }

  lemma MatchHere(v: string, i: nat, m: Identity, d: Identity)
    requires i < |v| && RunBegins(v, i) && MatchAt(v, i) == Some(m)
    ensures IsIdentity(v, m) && m.start == i && i < m.end < |v| && MatchAt(v, m.end).None?
    ensures IsIdentity(v, d) && i <= d.start < m.end ==> d == m
  {
    MatchIsIdentity(v, i, m);
    if IsIdentity(v, d) && i <= d.start < m.end {
      NoIdentityInside(v, m, d);
    }
  }

  lemma NoMatchHere(v: string, i: nat, d: Identity)
    requires i < |v| && MatchAt(v, i).None?
    ensures RunBegins(v, i + 1) || MatchAt(v, i + 1).None?
    ensures RunBegins(v, i) && IsIdentity(v, d) ==> d.start != i
  {
    if IsComponent(v[i]) && i + 1 < |v| && IsComponent(v[i + 1]) {
      assert Span(v, i, IsComponent) == Span(v, i + 1, IsComponent);
    }
    if RunBegins(v, i) && IsIdentity(v, d) && d.start == i {
      MatchIsIdentity(v, i, d);
    }
  }

  // ---- The extended left match ------------------------------------------------------------------

  /** `v.rfind("@", 0, i)`. */
  function PrevAt(v: string, i: nat): (q: Option<nat>)
    requires i <= |v|
    ensures q.Some? ==> q.value < i && v[q.value] == '@' && forall x :: q.value < x < i ==> v[x] != '@'
    ensures q.None? ==> forall x :: 0 <= x < i ==> v[x] != '@'
  {
    if i == 0 then None else if v[i - 1] == '@' then Some(i - 1) else PrevAt(v, i - 1)
  }

  /** Where the component run that ends before `q` begins. */
  function RunStart(v: string, q: nat): (r: nat)
    requires q <= |v|
    ensures r <= q && AllComponents(v, r, q) && RunBegins(v, r)
  {
    if q > 0 && IsComponent(v[q - 1]) then RunStart(v, q - 1) else q
  }

  /** `broke[x]` says that a diff row starts between the visible characters `x - 1` and `x`. */
  predicate BreaksBetween(broke: seq<bool>, q: nat, end: nat)
    requires end <= |broke|
  {
    exists x :: q < x < end && broke[x]
  }

  /** Where masking starts for a match. */
  function From(v: string, broke: seq<bool>, d: Identity): (r: nat)
    requires |broke| == |v| && d.start <= d.end <= |v|
    ensures r <= d.start
  {
    match PrevAt(v, d.start)
    case Some(q) => if BreaksBetween(broke, q, d.end) then RunStart(v, q) else d.start
    case None => d.start
  }

  predicate MaskedBy(v: string, broke: seq<bool>, x: nat, d: Identity)
    requires |broke| == |v|
  {
    IsIdentity(v, d) && From(v, broke, d) <= x < d.end
  }

  /** A component character of some match, the extended left part included. */
  ghost predicate Masked(v: string, broke: seq<bool>, x: nat)
    requires |broke| == |v|
  {
    x < |v| && IsComponent(v[x]) && exists d :: MaskedBy(v, broke, x, d)
  }

  lemma {:induction false} RunStartUnique(v: string, q: nat, r: nat)
    requires r <= q <= |v| && AllComponents(v, r, q) && RunBegins(v, r)
    ensures RunStart(v, q) == r
  {
    if r < q {
      RunStartUnique(v, q - 1, r);
    }
  }

  /** A diff row starts between the last `@` before the match, at `q`, and the match's end; the maximal
      component run before that `@` begins at `r`. */
  predicate WidenedBy(v: string, broke: seq<bool>, d: Identity, q: nat, r: nat)
    requires |broke| == |v|
  {
    && IsIdentity(v, d) && r <= q < d.start
    && v[q] == '@' && (forall x :: q < x < d.start ==> v[x] != '@')
    && AllComponents(v, r, q) && RunBegins(v, r)
    && exists x :: q < x < d.end && broke[x]
  }

  ghost predicate LeftPart(v: string, broke: seq<bool>, d: Identity, x: nat)
    requires |broke| == |v|
  {
    exists q: nat, r: nat :: WidenedBy(v, broke, d, q, r) && r <= x
  }

  lemma WidenedStart(v: string, broke: seq<bool>, d: Identity, q: nat, r: nat)
    requires |broke| == |v| && WidenedBy(v, broke, d, q, r)
    ensures From(v, broke, d) == r
  {
    PrevAtUnique(v, d.start, Some(q));
    RunStartUnique(v, q, r);
    assert BreaksBetween(broke, q, d.end);
  }

  lemma ReachesLeft(v: string, broke: seq<bool>, d: Identity, x: nat)
    requires |broke| == |v| && IsIdentity(v, d) && x < d.start
    ensures From(v, broke, d) <= x <==> LeftPart(v, broke, d, x)
  {
    if From(v, broke, d) <= x {
      assert WidenedBy(v, broke, d, PrevAt(v, d.start).value, From(v, broke, d));
    }
    if LeftPart(v, broke, d, x) {
      var q: nat, r: nat :| WidenedBy(v, broke, d, q, r) && r <= x;
      WidenedStart(v, broke, d, q, r);
    }
  }

  /** The character is in the match, or left of it where the match is widened. */
  ghost predicate Reaches(v: string, broke: seq<bool>, d: Identity, x: nat)
    requires |broke| == |v|
  {
    IsIdentity(v, d) && x < d.end && (d.start <= x || LeftPart(v, broke, d, x))
  }

  /** A visible character is masked exactly when it is a component of a match, or stands left of one from the
      component run before the last `@` on, and a diff row starts in between. */
  lemma MaskedExactly(v: string, broke: seq<bool>, x: nat)
    requires |broke| == |v|
    ensures Masked(v, broke, x) <==> x < |v| && IsComponent(v[x]) && exists d :: Reaches(v, broke, d, x)
  {
    forall d
      ensures MaskedBy(v, broke, x, d) <==> Reaches(v, broke, d, x)
    {
      if IsIdentity(v, d) && x < d.start {
        ReachesLeft(v, broke, d, x);
      }
    }
  }

  // ---- Masking depends only on the shape of the line --------------------------------------------

  /** The same line up to the choice of component characters. */
  predicate SameShape(v: string, w: string) {
    |v| == |w| && forall x :: 0 <= x < |v| ==> v[x] == w[x] || (IsComponent(v[x]) && IsComponent(w[x]))
  }

  lemma {:induction false} SameShapePrevAt(v: string, w: string, i: nat)
    requires SameShape(v, w) && i <= |v|
    ensures PrevAt(v, i) == PrevAt(w, i)
  {
    if i > 0 {
      SameShapePrevAt(v, w, i - 1);
    }
  }

  lemma {:induction false} SameShapeRunStart(v: string, w: string, q: nat)
    requires SameShape(v, w) && q <= |v|
    ensures RunStart(v, q) == RunStart(w, q)
  {
    if q > 0 {
      SameShapeRunStart(v, w, q - 1);
    }
  }

  lemma SameShapeMaskedBy(v: string, w: string, broke: seq<bool>, x: nat, d: Identity)
    requires SameShape(v, w) && |broke| == |v| && MaskedBy(v, broke, x, d)
    ensures MaskedBy(w, broke, x, d)
  {
    SameShapePrevAt(v, w, d.start);
    if PrevAt(v, d.start).Some? {
      SameShapeRunStart(v, w, PrevAt(v, d.start).value);
    }
  }

  lemma SameShapeMasked(v: string, w: string, broke: seq<bool>, x: nat)
    requires SameShape(v, w) && |broke| == |v|
    ensures Masked(v, broke, x) <==> Masked(w, broke, x)
  {
    if Masked(v, broke, x) {
      var d :| MaskedBy(v, broke, x, d);
      SameShapeMaskedBy(v, w, broke, x, d);
    }
    if Masked(w, broke, x) {
      var d :| MaskedBy(w, broke, x, d);
      SameShapeMaskedBy(w, v, broke, x, d);
    }
  }

  // ---- Removing a component character that follows another one in the same row --------------------

  function Up(n: nat, y: nat): nat { if y < n then y else y + 1 }

  function UpIdentity(n: nat, d: Identity): Identity { Identity(Up(n, d.start), Up(n, d.at), Up(n, d.end)) }

  /** `w` is `v` without its character `n`, a component right after a component of the same row. */
  predicate Removed(v: string, broke: seq<bool>, w: string, broke2: seq<bool>, n: nat) {
    && |v| == |w| + 1 && |broke| == |v| && |broke2| == |w| && 0 < n < |v|
    && IsComponent(v[n - 1]) && IsComponent(v[n]) && !broke[n]
    && forall y :: 0 <= y < |w| ==> w[y] == v[Up(n, y)] && broke2[y] == broke[Up(n, y)]
  }

  lemma AllComponentsUp(v: string, broke: seq<bool>, w: string, broke2: seq<bool>, n: nat, i: nat, j: nat)
    requires Removed(v, broke, w, broke2, n) && i <= j <= |w|
    ensures AllComponents(w, i, j) <==> AllComponents(v, Up(n, i), Up(n, j))
  {
    if AllComponents(w, i, j) {
      forall x | Up(n, i) <= x < Up(n, j) ensures IsComponent(v[x]) {
        if x != n {
          var y := if x < n then x else x - 1;
          assert Up(n, y) == x && w[y] == v[x];
        }
      }
    }
    if AllComponents(v, Up(n, i), Up(n, j)) {
      forall y | i <= y < j ensures IsComponent(w[y]) {
        assert w[y] == v[Up(n, y)];
      }
    }
  }

  lemma RunBeginsUp(v: string, broke: seq<bool>, w: string, broke2: seq<bool>, n: nat, i: nat)
    requires Removed(v, broke, w, broke2, n) && i <= |w|
    ensures RunBegins(w, i) ==> i != n && RunBegins(v, Up(n, i))
    ensures RunBegins(v, Up(n, i)) && i != n ==> RunBegins(w, i)
  {
    if i > 0 {
      assert w[i - 1] == v[Up(n, i - 1)];
    }
  }

  lemma IdentityUp(v: string, broke: seq<bool>, w: string, broke2: seq<bool>, n: nat, d: Identity)
    requires Removed(v, broke, w, broke2, n) && IsIdentity(w, d)
    ensures IsIdentity(v, UpIdentity(n, d))
  {
    AllComponentsUp(v, broke, w, broke2, n, d.start, d.at);
    AllComponentsUp(v, broke, w, broke2, n, d.at + 1, d.end);
    RunBeginsUp(v, broke, w, broke2, n, d.start);
    assert w[d.at] == v[Up(n, d.at)] && w[d.end] == v[Up(n, d.end)] && w[d.end + 1] == v[Up(n, d.end + 1)];
    assert w[n - 1] == v[n - 1];
  }

  lemma IdentityDown(v: string, broke: seq<bool>, w: string, broke2: seq<bool>, n: nat, e: Identity)
      returns (d: Identity)
    requires Removed(v, broke, w, broke2, n) && IsIdentity(v, e)
    ensures IsIdentity(w, d) && UpIdentity(n, d) == e
  {
    d := Identity(if e.start < n then e.start else e.start - 1, if e.at < n then e.at else e.at - 1,
                  if e.end < n then e.end else e.end - 1);
    assert UpIdentity(n, d) == e;
    assert w[d.at] == v[Up(n, d.at)] && w[d.end] == v[Up(n, d.end)];
    assert Up(n, d.end + 1) == e.end + 1 && w[d.end + 1] == v[e.end + 1];
    AllComponentsUp(v, broke, w, broke2, n, d.start, d.at);
    AllComponentsUp(v, broke, w, broke2, n, d.at + 1, d.end);
    RunBeginsUp(v, broke, w, broke2, n, d.start);
    assert w[n - 1] == v[n - 1];
  }

  lemma {:induction false} PrevAtUnique(v: string, i: nat, q: Option<nat>)
    requires i <= |v|
    requires q.Some? ==> q.value < i && v[q.value] == '@' && forall x :: q.value < x < i ==> v[x] != '@'
    requires q.None? ==> forall x :: 0 <= x < i ==> v[x] != '@'
    ensures PrevAt(v, i) == q
  {
  }

  function UpOption(n: nat, q: Option<nat>): Option<nat> {
    match q case None => None case Some(y) => Some(Up(n, y))
  }

  lemma PrevAtUp(v: string, broke: seq<bool>, w: string, broke2: seq<bool>, n: nat, i: nat)
    requires Removed(v, broke, w, broke2, n) && i <= |w| && RunBegins(w, i)
    ensures PrevAt(v, Up(n, i)) == UpOption(n, PrevAt(w, i))
  {
    var q := PrevAt(w, i);
    var lo := if q.Some? then Up(n, q.value) + 1 else 0;
    forall x | lo <= x < Up(n, i) ensures v[x] != '@' {
      if x != n {
        var y := if x < n then x else x - 1;
        assert Up(n, y) == x && w[y] == v[x];
      }
    }
    if q.Some? {
      assert w[q.value] == v[Up(n, q.value)];
    }
    PrevAtUnique(v, Up(n, i), UpOption(n, q));
  }

  lemma RunStartUp(v: string, broke: seq<bool>, w: string, broke2: seq<bool>, n: nat, q: nat)
    requires Removed(v, broke, w, broke2, n) && q < |w| && !IsComponent(w[q])
    ensures RunStart(v, Up(n, q)) == Up(n, RunStart(w, q))
  {
    var r := RunStart(w, q);
    AllComponentsUp(v, broke, w, broke2, n, r, q);
    RunBeginsUp(v, broke, w, broke2, n, r);
    RunStartUnique(v, Up(n, q), Up(n, r));
  }

  lemma BreaksUp(v: string, broke: seq<bool>, w: string, broke2: seq<bool>, n: nat, q: nat, end: nat)
    requires Removed(v, broke, w, broke2, n) && q <= end < |w|
    ensures BreaksBetween(broke, Up(n, q), Up(n, end)) <==> BreaksBetween(broke2, q, end)
  {
    if BreaksBetween(broke, Up(n, q), Up(n, end)) {
      var x :| Up(n, q) < x < Up(n, end) && broke[x];
      var y := if x < n then x else x - 1;
      assert Up(n, y) == x && broke2[y];
    }
    if BreaksBetween(broke2, q, end) {
      var y :| q < y < end && broke2[y];
      assert broke[Up(n, y)];
    }
  }

  lemma FromUp(v: string, broke: seq<bool>, w: string, broke2: seq<bool>, n: nat, d: Identity)
    requires Removed(v, broke, w, broke2, n) && IsIdentity(w, d)
    ensures From(v, broke, UpIdentity(n, d)) == Up(n, From(w, broke2, d))
  {
    PrevAtUp(v, broke, w, broke2, n, d.start);
    match PrevAt(w, d.start)
    case None =>
    case Some(q) =>
      RunStartUp(v, broke, w, broke2, n, q);
      BreaksUp(v, broke, w, broke2, n, q, d.end);
  }

  lemma MaskedUp(v: string, broke: seq<bool>, w: string, broke2: seq<bool>, n: nat, y: nat)
    requires Removed(v, broke, w, broke2, n) && y < |w| && Masked(w, broke2, y)
    ensures Masked(v, broke, Up(n, y))
  {
    var d :| MaskedBy(w, broke2, y, d);
    IdentityUp(v, broke, w, broke2, n, d);
    FromUp(v, broke, w, broke2, n, d);
    assert w[y] == v[Up(n, y)];
    assert MaskedBy(v, broke, Up(n, y), UpIdentity(n, d));
  }

  lemma MaskedDown(v: string, broke: seq<bool>, w: string, broke2: seq<bool>, n: nat, y: nat)
    requires Removed(v, broke, w, broke2, n) && y < |w| && Masked(v, broke, Up(n, y))
    ensures Masked(w, broke2, y)
  {
    var e :| MaskedBy(v, broke, Up(n, y), e);
    var d := IdentityDown(v, broke, w, broke2, n, e);
    FromUp(v, broke, w, broke2, n, d);
    assert w[y] == v[Up(n, y)];
    assert MaskedBy(w, broke2, y, d);
  }

  /** Removing such a character leaves every other character masked or unmasked as it was. */
  lemma RemovedMasked(v: string, broke: seq<bool>, w: string, broke2: seq<bool>, n: nat, y: nat)
    requires Removed(v, broke, w, broke2, n) && y < |w|
    ensures Masked(w, broke2, y) <==> Masked(v, broke, Up(n, y))
  {
    if Masked(w, broke2, y) {
      MaskedUp(v, broke, w, broke2, n, y);
    }
    if Masked(v, broke, Up(n, y)) {
      MaskedDown(v, broke, w, broke2, n, y);
    }
  }
}
