/** The redacted diff: which characters are masked, and that redacting twice is redacting once. */
module Redaction {
  import opened Text
  import opened Identities
  import opened Diagnostic

  function Chars(items: seq<Item>): string {
    if items == [] then [] else (if items[0].Vis? then [items[0].c] else []) + Chars(items[1..])
  }

  function Flags(items: seq<Item>): seq<bool> {
    if items == [] then [] else (if items[0].Vis? then [items[0].masked] else []) + Flags(items[1..])
  }

  /** A gap that matches `\n[+\-]`. */
  predicate IsRowBreak(g: string) { |g| >= 2 && g[0] == '\n' && (g[1] == '+' || g[1] == '-') }

  /** For each visible character, whether a row break lies between it and the one before. */
  function Broke(items: seq<Item>, pending: bool): seq<bool>
    decreases |items|
  {
    if items == [] then []
    else
      match items[0]
      case Gap(g) => Broke(items[1..], pending || IsRowBreak(g))
      case Vis(_, _) => [pending] + Broke(items[1..], false)
  }

  function Pending(items: seq<Item>, pending: bool): bool
    decreases |items|
  {
    if items == [] then pending
    else Pending(items[1..], items[0].Gap? && (pending || IsRowBreak(items[0].g)))
  }

  lemma {:induction false} Lengths(items: seq<Item>, pending: bool)
    ensures |Chars(items)| == |Flags(items)| == |Broke(items, pending)| == VisibleCount(items)
    decreases |items|
  {
    if items != [] {
      Lengths(items[1..], items[0].Gap? && (pending || IsRowBreak(items[0].g)));
    }
  }

  lemma {:induction false} AppendChars(a: seq<Item>, b: seq<Item>)
    ensures Chars(a + b) == Chars(a) + Chars(b)
    decreases |a|
  {
    if a == [] {
      assert a + b == b;
    } else {
      assert (a + b)[1..] == a[1..] + b;
      AppendChars(a[1..], b);
      Assoc(if a[0].Vis? then [a[0].c] else [], Chars(a[1..]), Chars(b));
    }
  }

  lemma {:induction false} AppendFlags(a: seq<Item>, b: seq<Item>)
    ensures Flags(a + b) == Flags(a) + Flags(b)
    decreases |a|
  {
    if a == [] {
      assert a + b == b;
    } else {
      assert (a + b)[1..] == a[1..] + b;
      AppendFlags(a[1..], b);
      Assoc(if a[0].Vis? then [a[0].masked] else [], Flags(a[1..]), Flags(b));
    }
  }

  lemma {:induction false} AppendBroke(a: seq<Item>, b: seq<Item>, pending: bool)
    ensures Broke(a + b, pending) == Broke(a, pending) + Broke(b, Pending(a, pending))
    ensures Pending(a + b, pending) == Pending(b, Pending(a, pending))
    decreases |a|
  {
    if a == [] {
      assert a + b == b;
    } else {
      assert (a + b)[1..] == a[1..] + b;
      var next := a[0].Gap? && (pending || IsRowBreak(a[0].g));
      AppendBroke(a[1..], b, next);
      Assoc([pending], Broke(a[1..], next), Broke(b, Pending(a, pending)));
    }
  }

  /** `flags[x]` says whether character `x` is masked. */
  ghost predicate Agrees(v: string, broke: seq<bool>, flags: seq<bool>) {
    |broke| == |v| == |flags| && forall x :: 0 <= x < |v| ==> (flags[x] <==> Masked(v, broke, x))
  }

  /** Every flag says whether its character is masked. */
  ghost predicate Consistent(items: seq<Item>) {
    Agrees(Chars(items), Broke(items, false), Flags(items))
  }

  lemma OneVis(c: char, masked: bool, pending: bool)
    ensures Chars([Vis(c, masked)]) == [c] && Flags([Vis(c, masked)]) == [masked]
    ensures Broke([Vis(c, masked)], pending) == [pending] && !Pending([Vis(c, masked)], pending)
  {
    var items := [Vis(c, masked)];
    assert items[1..] == [];
  }

  lemma EndsInVis(a: seq<Item>, pending: bool)
    requires a != [] && a[|a| - 1].Vis?
    ensures !Pending(a, pending)
    ensures Chars(a) != [] && Chars(a)[|Chars(a)| - 1] == a[|a| - 1].c
    ensures Flags(a) != [] && Flags(a)[|Flags(a)| - 1] == a[|a| - 1].masked
  {
    var init, last := a[..|a| - 1], a[|a| - 1];
    assert a == init + [last];
    AppendChars(init, [last]);
    AppendFlags(init, [last]);
    AppendBroke(init, [last], pending);
    OneVis(last.c, last.masked, Pending(init, pending));
  }

  /** The parallel sequences of `a + [Vis(c, m)] + b`. */
  lemma AroundVis(a: seq<Item>, c: char, m: bool, b: seq<Item>)
    ensures Chars(a + [Vis(c, m)] + b) == Chars(a) + [c] + Chars(b)
    ensures Flags(a + [Vis(c, m)] + b) == Flags(a) + [m] + Flags(b)
    ensures Broke(a + [Vis(c, m)] + b, false) == Broke(a, false) + [Pending(a, false)] + Broke(b, false)
  {
    OneVis(c, m, Pending(a, false));
    AppendChars(a, [Vis(c, m)]);
    AppendChars(a + [Vis(c, m)], b);
    AppendFlags(a, [Vis(c, m)]);
    AppendFlags(a + [Vis(c, m)], b);
    AppendBroke(a, [Vis(c, m)], false);
    AppendBroke(a + [Vis(c, m)], b, false);
  }

  lemma WithoutOne<T>(p: seq<T>, x: T, q: seq<T>)
    ensures |p + [x] + q| == |p + q| + 1 && (p + [x] + q)[|p|] == x
    ensures |p| > 0 ==> (p + [x] + q)[|p| - 1] == p[|p| - 1]
    ensures forall y :: 0 <= y < |p + q| ==> (p + q)[y] == (p + [x] + q)[Up(|p|, y)]
  {
  }

  lemma AgreesWithout(v: string, broke: seq<bool>, flags: seq<bool>, w: string, broke2: seq<bool>, flags2: seq<bool>,
                      n: nat)
    requires Agrees(v, broke, flags) && Removed(v, broke, w, broke2, n) && |flags2| == |w|
    requires forall y :: 0 <= y < |w| ==> flags2[y] == flags[Up(n, y)]
    ensures Agrees(w, broke2, flags2)
  {
    forall y | 0 <= y < |w| ensures flags2[y] <==> Masked(w, broke2, y) {
      RemovedMasked(v, broke, w, broke2, n, y);
      assert flags2[y] == flags[Up(n, y)];
    }
  }

  lemma DropOne(p: string, c: char, q: string, bp: seq<bool>, bq: seq<bool>, fp: seq<bool>, fq: seq<bool>)
    requires |p| == |bp| == |fp| > 0 && |q| == |bq| == |fq| && fp[|fp| - 1]
    requires Agrees(p + [c] + q, bp + [false] + bq, fp + [true] + fq)
    ensures Agrees(p + q, bp + bq, fp + fq)
  {
    var n := |p|;
    WithoutOne(p, c, q);
    WithoutOne(bp, false, bq);
    WithoutOne(fp, true, fq);
    var v, broke, flags := p + [c] + q, bp + [false] + bq, fp + [true] + fq;
    assert Masked(v, broke, n) && Masked(v, broke, n - 1);
    AgreesWithout(v, broke, flags, p + q, bp + bq, fp + fq, n);
  }

  lemma ReplaceOne(p: string, c: char, q: string, broke: seq<bool>, fp: seq<bool>, fq: seq<bool>)
    requires |p| == |fp| && Agrees(p + [c] + q, broke, fp + [true] + fq)
    ensures Agrees(p + [MASK] + q, broke, fp + [true] + fq)
  {
    var n := |p|;
    var v, w, flags := p + [c] + q, p + [MASK] + q, fp + [true] + fq;
    assert IsComponent(c) by {
      assert flags[n] && v[n] == c;
    }
    assert SameShape(v, w);
    forall y | 0 <= y < |w| ensures flags[y] <==> Masked(w, broke, y) {
      SameShapeMasked(v, w, broke, y);
    }
  }

  /** Dropping a masked character right after a masked one keeps all other flags right. */
  lemma DropKeeps(a: seq<Item>, c: char, b: seq<Item>)
    requires a != [] && a[|a| - 1].Vis? && a[|a| - 1].masked
    requires Consistent(a + [Vis(c, true)] + b)
    ensures Consistent(a + b)
  {
    AroundVis(a, c, true, b);
    AppendChars(a, b);
    AppendFlags(a, b);
    AppendBroke(a, b, false);
    EndsInVis(a, false);
    Lengths(a, false);
    Lengths(b, false);
    DropOne(Chars(a), c, Chars(b), Broke(a, false), Broke(b, false), Flags(a), Flags(b));
  }

  /** So does replacing a masked character by the mask. */
  lemma ReplaceKeeps(a: seq<Item>, c: char, b: seq<Item>)
    requires Consistent(a + [Vis(c, true)] + b)
    ensures Consistent(a + [Vis(MASK, true)] + b)
  {
    AroundVis(a, c, true, b);
    AroundVis(a, MASK, true, b);
    Lengths(a, false);
    ReplaceOne(Chars(a), c, Chars(b), Broke(a, false) + [Pending(a, false)] + Broke(b, false), Flags(a), Flags(b));
  }

  lemma {:induction false} CollapseKeeps(a: seq<Item>, b: seq<Item>, prev: bool)
    requires Consistent(a + b)
    requires prev ==> a != [] && a[|a| - 1].Vis? && a[|a| - 1].masked
    ensures Consistent(a + Collapse(b, prev))
    decreases |b|
  {
    if b != [] {
      var x, rest := b[0], b[1..];
      assert a + b == a + [x] + rest;
      if x.Vis? && x.masked && prev {
        DropKeeps(a, x.c, rest);
        CollapseKeeps(a, rest, true);
      } else if x.Vis? && x.masked {
        ReplaceKeeps(a, x.c, rest);
        CollapseKeeps(a + [Vis(MASK, true)], rest, true);
        assert a + [Vis(MASK, true)] + Collapse(rest, true) == a + Collapse(b, prev);
      } else {
        CollapseKeeps(a + [x], rest, false);
        assert a + [x] + Collapse(rest, false) == a + Collapse(b, prev);
      }
    }
  }

  // ---- Redacting twice --------------------------------------------------------------------------

  /** For each visible character, whether it is masked. */
  ghost function MaskFlags(items: seq<Item>): (flags: seq<bool>)
    ensures |flags| == VisibleCount(items)
    ensures Agrees(Chars(items), Broke(items, false), flags)
  {
    Lengths(items, false);
    seq(|Chars(items)|, x requires 0 <= x < |Chars(items)| => Masked(Chars(items), Broke(items, false), x))
  }

  ghost function Marked(items: seq<Item>): seq<Item> { Flag(items, MaskFlags(items)) }

  /** What `redact_diagnostic_text` returns. */
  ghost function Redacted(text: string): string { Render(Marked(Parse(text)), false) }

  lemma {:induction false} FlagKeeps(items: seq<Item>, flags: seq<bool>, pending: bool)
    requires |flags| == VisibleCount(items)
    ensures Chars(Flag(items, flags)) == Chars(items)
    ensures Broke(Flag(items, flags), pending) == Broke(items, pending)
    ensures Flags(Flag(items, flags)) == flags
    decreases |items|
  {
    if items != [] {
      FlagKeeps(items[1..], if items[0].Vis? then flags[1..] else flags,
                items[0].Gap? && (pending || IsRowBreak(items[0].g)));
    }
  }

  lemma {:induction false} PlainKeeps(items: seq<Item>, pending: bool)
    ensures Chars(Plain(items)) == Chars(items)
    ensures Broke(Plain(items), pending) == Broke(items, pending)
    decreases |items|
  {
    if items != [] {
      PlainKeeps(items[1..], items[0].Gap? && (pending || IsRowBreak(items[0].g)));
    }
  }

  lemma {:induction false} FlagPlain(items: seq<Item>)
    ensures VisibleCount(Plain(items)) == |Flags(items)|
    ensures Flag(Plain(items), Flags(items)) == items
  {
    if items != [] {
      var x, rest := items[0], items[1..];
      assert items == [x] + rest;
      FlagPlain(rest);
      FlagCons(if x.Vis? then Vis(x.c, false) else x, Plain(rest), Flags(items));
      assert x.Vis? ==> Flags(items) == [x.masked] + Flags(rest);
      assert x.Gap? ==> Flags(items) == Flags(rest);
      PlainCons(x, rest);
    }
  }

  lemma {:induction false} RenderCollapse(items: seq<Item>, prev: bool)
    ensures Render(Collapse(items, prev), prev) == Render(items, prev)
    decreases |items|
  {
    if items != [] {
      var x, rest := items[0], items[1..];
      assert items == [x] + rest;
      RenderCons(x, rest, prev);
      RenderCollapse(rest, x.Vis? && x.masked);
      if x.Vis? && x.masked {
        RenderCons(Vis(MASK, true), Collapse(rest, true), prev);
      } else {
        RenderCons(x, Collapse(rest, false), prev);
      }
    }
  }

  lemma ReparseText(text: string, flags: seq<bool>)
    requires |flags| == VisibleCount(Parse(text))
    ensures Parse(Render(Flag(Parse(text), flags), false)) == Plain(Collapse(Flag(Parse(text), flags), false))
  {
    var n := LeadLength(text);
    var p, q := text[..n], text[n..];
    assert text == p + q;
    FlagCons(Gap(p), Items(q), flags);
    var rest := Flag(Items(q), flags);
    RenderCons(Gap(p), rest, false);
    PlainCons(Gap(p), Collapse(rest, false));
    Reparse(q, flags, false);
    LeadStable(p, q, flags);
    var t := p + Redone(q, flags);
    assert t[..n] == p && t[n..] == Redone(q, flags);
  }

  lemma ConsistentFlagsAreTheMask(items: seq<Item>)
    requires Consistent(items)
    ensures Marked(Plain(items)) == items
  {
    PlainKeeps(items, false);
    FlagPlain(items);
    Lengths(items, false);
    assert MaskFlags(Plain(items)) == Flags(items);
  }

  /** The redacted text scans to the collapsed items, and their flags are again the mask. */
  lemma RedactedItems(text: string)
    ensures var again := Collapse(Marked(Parse(text)), false);
            Parse(Redacted(text)) == Plain(again) && Consistent(again)
  {
    var items := Parse(text);
    var marked := Marked(items);
    FlagKeeps(items, MaskFlags(items), false);
    assert Consistent(marked);
    var again := Collapse(marked, false);
    assert [] + marked == marked && [] + again == again;
    CollapseKeeps([], marked, false);
    ReparseText(text, MaskFlags(items));
  }

  /** Redacting a redacted text changes nothing: masks stand for components, so exactly the masked runs
      are found again. */
  lemma RedactionIsIdempotent(text: string)
    ensures Redacted(Redacted(text)) == Redacted(text)
  {
    RedactedItems(text);
    ConsistentFlagsAreTheMask(Collapse(Marked(Parse(text)), false));
    RenderCollapse(Marked(Parse(text)), false);
  }

  lemma {:induction false} CollapsedMasks(items: seq<Item>, prev: bool, x: nat)
    requires x < |Flags(Collapse(items, prev))| && Flags(Collapse(items, prev))[x]
    ensures x < |Chars(Collapse(items, prev))| && Chars(Collapse(items, prev))[x] == MASK
    decreases |items|
  {
    var again := Collapse(items, prev);
    Lengths(again, false);
    var y, rest := items[0], items[1..];
    if y.Vis? && y.masked && prev {
      CollapsedMasks(rest, true, x);
    } else {
      var tail := Collapse(rest, y.Vis? && y.masked);
      assert again[1..] == tail;
      if again[0].Gap? {
        CollapsedMasks(rest, false, x);
      } else if x > 0 {
        CollapsedMasks(rest, y.masked, x - 1);
      }
    }
  }

  /** No identity is left in the clear: every match in the redacted text, the extended left part
      included, has only masks for its components. */
  lemma NoIdentityRemains(text: string, x: nat)
    requires var items := Parse(Redacted(text));
             |Broke(items, false)| == |Chars(items)| && Masked(Chars(items), Broke(items, false), x)
    ensures Chars(Parse(Redacted(text)))[x] == MASK
  {
    var again := Collapse(Marked(Parse(text)), false);
    RedactedItems(text);
    PlainKeeps(again, false);
    CollapsedMasks(Marked(Parse(text)), false, x);
  }
}
