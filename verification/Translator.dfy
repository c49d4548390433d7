/** The turn translator: streamed texts become commentary, the last of them held back until the result
    shows whether it is the final answer. */
module Translator {
  import opened Text
  import opened Json

  // ---- The text of a streamed message -----------------------------------------------------------

  predicate IsTextBlock(b: Json) {
    Get(b, "type") == Some(JStr("text")) && Get(b, "text").Some? && Get(b, "text").value.JStr?
  }

  function BlockTexts(blocks: seq<Json>): string {
    if blocks == [] then []
    else (if IsTextBlock(blocks[0]) then Get(blocks[0], "text").value.s else []) + BlockTexts(blocks[1..])
  }

  /** `extractAssistantText`. */
  function ExtractText(m: Json): string {
    if Get(m, "type") != Some(JStr("assistant")) then []
    else
      match Get(m, "message")
      case None => []
      case Some(message) =>
        match Get(message, "content")
        case Some(JStr(s)) => s
        case Some(JArr(blocks)) => BlockTexts(blocks)
        case _ => []
  }

  /** A block carries `t` when it is a text block of that string, and nothing when it is of another kind
      or its text is no string. */
  predicate Carries(block: Json, t: Option<string>) {
    match t
    case Some(s) => Get(block, "type") == Some(JStr("text")) && Get(block, "text") == Some(JStr(s))
    case None => Get(block, "type") != Some(JStr("text")) || Get(block, "text").None? || !Get(block, "text").value.JStr?
  }

  lemma {:induction false} BlocksSay(blocks: seq<Json>, parts: seq<Option<string>>)
    requires |parts| == |blocks| && forall i :: 0 <= i < |blocks| ==> Carries(blocks[i], parts[i])
    ensures BlockTexts(blocks) == Concat(seq(|parts|, i requires 0 <= i < |parts| => parts[i].GetOr([])))
  {
    var said := seq(|parts|, i requires 0 <= i < |parts| => parts[i].GetOr([]));
    if blocks != [] {
      BlocksSay(blocks[1..], parts[1..]);
      assert said[1..] == seq(|parts[1..]|, i requires 0 <= i < |parts[1..]| => parts[1..][i].GetOr([]));
    }
  }

  /** An assistant message says the strings of its text blocks, in order and joined, or its content where
      that is a string; a message of any other type, or of any other content, says nothing. */
  lemma MessageSays(m: Json, message: Json, blocks: seq<Json>, parts: seq<Option<string>>, text: string)
    requires |parts| == |blocks| && forall i :: 0 <= i < |blocks| ==> Carries(blocks[i], parts[i])
    ensures Get(m, "type") != Some(JStr("assistant")) ==> ExtractText(m) == []
    ensures Get(m, "type") == Some(JStr("assistant")) && Get(m, "message") == Some(message) ==>
              (Get(message, "content") == Some(JArr(blocks)) ==>
                 ExtractText(m) == Concat(seq(|parts|, i requires 0 <= i < |parts| => parts[i].GetOr([]))))
              && (Get(message, "content") == Some(JStr(text)) ==> ExtractText(m) == text)
  {
    BlocksSay(blocks, parts);
  }

  /** The message is an assistant's and carries this text, as a string or in text blocks. */
  ghost predicate Utters(m: Json, text: string) {
    && Get(m, "type") == Some(JStr("assistant")) && Get(m, "message").Some?
    && (Get(Get(m, "message").value, "content") == Some(JStr(text))
        || exists blocks, parts :: UttersBlocks(Get(m, "message").value, blocks, parts, text))
  }

  ghost predicate UttersBlocks(message: Json, blocks: seq<Json>, parts: seq<Option<string>>, text: string) {
    && Get(message, "content") == Some(JArr(blocks))
    && |parts| == |blocks| && (forall i :: 0 <= i < |blocks| ==> Carries(blocks[i], parts[i]))
    && text == Concat(seq(|parts|, i requires 0 <= i < |parts| => parts[i].GetOr([])))
  }

  lemma UtteredIsExtracted(m: Json, text: string)
    requires Utters(m, text)
    ensures ExtractText(m) == text
  {
    var message := Get(m, "message").value;
    if Get(message, "content") == Some(JStr(text)) {
      MessageSays(m, message, [], [], text);
    } else {
      var blocks, parts :| UttersBlocks(message, blocks, parts, text);
      MessageSays(m, message, blocks, parts, text);
    }
  }

  // ---- The translator's steps -------------------------------------------------------------------

  datatype Phase = Commentary | FinalAnswer

  datatype Usage = Usage(totalTokens: int, inputTokens: int, outputTokens: int)

  datatype Out =
    | Item(itemId: string, text: string, phase: Phase)
    | TokenUsage(usage: Usage)
    | TurnCompleted
    | TurnFailed

  /** The two fields of a translator. */
  datatype Held = Held(itemN: nat, held: Option<string>)

  const INITIAL: Held := Held(0, None)

  function ItemId(turnId: string, n: nat): string {
    "item_" + turnId + "_" + Decimal(n)
  }

  /** `onMessage`, given the message's text. */
  function OnText(h: Held, turnId: string, text: string): (Held, seq<Out>) {
    if text == [] then (h, [])
    else if h.held.Some? then
      (Held(h.itemN + 1, Some(text)), [Item(ItemId(turnId, h.itemN + 1), h.held.value, Commentary)])
    else (Held(h.itemN, Some(text)), [])
  }

  function FinalText(h: Held, result: string): string {
    if result != [] then result else h.held.GetOr([])
  }

  /** `finalize` on success: the held text unless it repeats the final one, then the final answer. */
  function LastItems(h: Held, turnId: string, result: string): seq<Out> {
    var final := FinalText(h, result);
    if h.held.Some? && h.held.value != final then
      [Item(ItemId(turnId, h.itemN + 1), h.held.value, Commentary),
       Item(ItemId(turnId, h.itemN + 2), final, FinalAnswer)]
    else [Item(ItemId(turnId, h.itemN + 1), final, FinalAnswer)]
  }

  function Ending(usage: Option<Usage>): seq<Out> {
    if usage.Some? then [TokenUsage(usage.value), TurnCompleted] else [TurnCompleted]
  }

  function Finish(h: Held, turnId: string, result: string, usage: Option<Usage>): seq<Out> {
    LastItems(h, turnId, result) + Ending(usage)
  }

  /** A successful ending counts its items; the held text stays. */
  function Concluded(h: Held, turnId: string, result: string): Held {
    h.(itemN := h.itemN + |LastItems(h, turnId, result)|)
  }

  /** A translator after some more texts, and all they have put out. */
  function Onward(h: Held, texts: seq<string>, turnId: string): (Held, seq<Out>) {
    if texts == [] then (h, [])
    else
      var (g, outs) := Onward(h, texts[..|texts| - 1], turnId);
      var (next, more) := OnText(g, turnId, texts[|texts| - 1]);
      (next, outs + more)
  }

  function After(texts: seq<string>, turnId: string): (Held, seq<Out>) { Onward(INITIAL, texts, turnId) }

  // ---- What a turn says, stated directly --------------------------------------------------------

  function NonEmpty(texts: seq<string>): (r: seq<string>)
    ensures forall i :: 0 <= i < |r| ==> r[i] != []
  {
    if texts == [] then []
    else NonEmpty(texts[..|texts| - 1]) + (if texts[|texts| - 1] == [] then [] else [texts[|texts| - 1]])
  }

  /** The texts of a successful turn: everything streamed, then the result unless it repeats the last. */
  function Report(texts: seq<string>, result: string): seq<string> {
    var said := NonEmpty(texts);
    if said == [] then [result]
    else if result == [] || result == said[|said| - 1] then said
    else said + [result]
  }

  /** Texts as items numbered from one, the last of them in the given phase. */
  function Numbered(turnId: string, texts: seq<string>, last: Phase): (r: seq<Out>)
    ensures |r| == |texts|
  {
    if texts == [] then []
    else AsCommentary(turnId, texts[..|texts| - 1]) + [Item(ItemId(turnId, |texts|), texts[|texts| - 1], last)]
  }

  /** Commentary whose items are numbered from `n + 1`. */
  function CommentaryFrom(turnId: string, n: nat, texts: seq<string>): (r: seq<Out>)
    ensures |r| == |texts|
  {
    if texts == [] then []
    else
      CommentaryFrom(turnId, n, texts[..|texts| - 1])
      + [Item(ItemId(turnId, n + |texts|), texts[|texts| - 1], Commentary)]
  }

  function AsCommentary(turnId: string, texts: seq<string>): seq<Out> { CommentaryFrom(turnId, 0, texts) }

  /** The text a translator holds back, if any. */
  function Unsent(h: Held): seq<string> { if h.held.Some? then [h.held.value] else [] }

  function AllButLast(texts: seq<string>): seq<string> {
    if texts == [] then [] else texts[..|texts| - 1]
  }

  function Last(texts: seq<string>): Option<string> {
    if texts == [] then None else Some(texts[|texts| - 1])
  }

  /** From any state on, the held text and the new ones are emitted once, in order, except the last. */
  lemma {:induction false} OnwardReleases(h: Held, texts: seq<string>, turnId: string, said: seq<string>)
    requires said == Unsent(h) + NonEmpty(texts)
    ensures Onward(h, texts, turnId)
            == (Held(h.itemN + |AllButLast(said)|, Last(said)), CommentaryFrom(turnId, h.itemN, AllButLast(said)))
    decreases |texts|
  {
    if texts == [] {
      assert said == Unsent(h);
    } else {
      var init, text := texts[..|texts| - 1], texts[|texts| - 1];
      var before := Unsent(h) + NonEmpty(init);
      OnwardReleases(h, init, turnId, before);
      Assoc(Unsent(h), NonEmpty(init), if text == [] then [] else [text]);
      OneMoreText(h, before, text, said, turnId);
    }
  }

  lemma OneMoreText(h: Held, before: seq<string>, text: string, said: seq<string>, turnId: string)
    requires said == before + (if text == [] then [] else [text])
    ensures OnText(Held(h.itemN + |AllButLast(before)|, Last(before)), turnId, text).0
            == Held(h.itemN + |AllButLast(said)|, Last(said))
    ensures CommentaryFrom(turnId, h.itemN, AllButLast(before))
            + OnText(Held(h.itemN + |AllButLast(before)|, Last(before)), turnId, text).1
            == CommentaryFrom(turnId, h.itemN, AllButLast(said))
  {
    if text == [] {
      assert said == before;
    } else {
      assert AllButLast(said) == before;
    }
  }

  /** While a turn runs, every text but the last has been emitted once, in order, as commentary. */
  lemma HoldBack(texts: seq<string>, turnId: string)
    ensures var said := NonEmpty(texts);
            After(texts, turnId) == (Held(|AllButLast(said)|, Last(said)), AsCommentary(turnId, AllButLast(said)))
  {
    assert [] + NonEmpty(texts) == NonEmpty(texts);
    OnwardReleases(INITIAL, texts, turnId, NonEmpty(texts));
  }

  lemma FinalItems(texts: seq<string>, turnId: string, result: string)
    ensures var (h, outs) := After(texts, turnId);
            outs + LastItems(h, turnId, result) == Numbered(turnId, Report(texts, result), FinalAnswer)
  {
    HoldBack(texts, turnId);
    ClosingItems(NonEmpty(texts), Report(texts, result), turnId, result);
  }

  lemma ClosingItems(said: seq<string>, report: seq<string>, turnId: string, result: string)
    requires report == if said == [] then [result]
                       else if result == [] || result == said[|said| - 1] then said else said + [result]
    requires forall i :: 0 <= i < |said| ==> said[i] != []
    ensures AsCommentary(turnId, AllButLast(said)) + LastItems(Held(|AllButLast(said)|, Last(said)), turnId, result)
            == Numbered(turnId, report, FinalAnswer)
  {
    if said != [] && report != said {
      var last := Item(ItemId(turnId, |said|), said[|said| - 1], Commentary);
      var answer := Item(ItemId(turnId, |report|), result, FinalAnswer);
      assert report[..|report| - 1] == said;
      assert AsCommentary(turnId, said) == AsCommentary(turnId, AllButLast(said)) + [last];
      assert [last, answer] == [last] + [answer];
      Assoc(AsCommentary(turnId, AllButLast(said)), [last], [answer]);
    }
  }

  /** Conservation: a successful turn emits every non-empty text once and in order, then the result
      unless it repeats the last text; ids are consecutive and only the last item is the final answer. */
  lemma TranslationIsConserved(texts: seq<string>, turnId: string, result: string, usage: Option<Usage>)
    ensures var (h, outs) := After(texts, turnId);
            outs + Finish(h, turnId, result, usage)
                == Numbered(turnId, Report(texts, result), FinalAnswer) + Ending(usage)
  {
    FinalItems(texts, turnId, result);
    var (h, outs) := After(texts, turnId);
    assert outs + (LastItems(h, turnId, result) + Ending(usage))
           == (outs + LastItems(h, turnId, result)) + Ending(usage);
  }

  /** The items of a turn one by one, with their ids and phases as a client sees them, and what ends it. */
  lemma EveryItemIsSpelled(texts: seq<string>, turnId: string, result: string, usage: Option<Usage>)
    ensures var (h, outs) := After(texts, turnId);
            var all, report := outs + Finish(h, turnId, result, usage), Report(texts, result);
            && 0 < |report| < |all|
            && (forall i :: 0 <= i < |report| ==>
                  all[i] == Item("item_" + turnId + "_" + Decimal(i + 1), report[i],
                                 if i == |report| - 1 then FinalAnswer else Commentary))
            && all[|report|..] == (if usage.Some? then [TokenUsage(usage.value)] else []) + [TurnCompleted]
  {
    TranslationIsConserved(texts, turnId, result, usage);
    ItemsAreSpelled(turnId, Report(texts, result), Ending(usage));
  }

  lemma ItemsAreSpelled(turnId: string, report: seq<string>, ending: seq<Out>)
    requires report != []
    ensures var all := Numbered(turnId, report, FinalAnswer) + ending;
            && |all| == |report| + |ending| && all[|report|..] == ending
            && (forall i :: 0 <= i < |report| ==>
                  all[i] == Item("item_" + turnId + "_" + Decimal(i + 1), report[i],
                                 if i == |report| - 1 then FinalAnswer else Commentary))
  {
    CommentaryIsSpelled(turnId, 0, report[..|report| - 1]);
  }

  lemma {:induction false} CommentaryIsSpelled(turnId: string, n: nat, texts: seq<string>)
    ensures forall i :: 0 <= i < |texts| ==>
              CommentaryFrom(turnId, n, texts)[i]
              == Item("item_" + turnId + "_" + Decimal(n + i + 1), texts[i], Commentary)
  {
    if texts != [] {
      CommentaryIsSpelled(turnId, n, texts[..|texts| - 1]);
    }
  }

  /** Empty texts are never reported, whatever stands around them; all others are. */
  lemma {:induction false} EmptyTextsGo(before: seq<string>, after: seq<string>)
    requires forall i :: 0 <= i < |before| ==> before[i] != []
    ensures NonEmpty(before + [[]] + after) == before + NonEmpty(after)
    decreases |after|
  {
    if after == [] {
      OthersStay(before);
      OneMore(before, []);
      assert before + [[]] + after == before + [[]];
    } else {
      var init, last := after[..|after| - 1], after[|after| - 1];
      EmptyTextsGo(before, init);
      OneMore(before + [[]] + init, last);
      assert before + [[]] + after == before + [[]] + init + [last];
      Assoc(before, NonEmpty(init), if last == [] then [] else [last]);
    }
  }

  lemma OneMore(texts: seq<string>, text: string)
    ensures NonEmpty(texts + [text]) == NonEmpty(texts) + (if text == [] then [] else [text])
  {
    assert (texts + [text])[..|texts|] == texts;
  }

  lemma {:induction false} OthersStay(texts: seq<string>)
    requires forall i :: 0 <= i < |texts| ==> texts[i] != []
    ensures NonEmpty(texts) == texts
  {
    if texts != [] {
      OthersStay(texts[..|texts| - 1]);
    }
  }

  /** The result is reported after the texts, unless it is empty or repeats the last; without any text it is
      reported even when it is empty. */
  lemma ReportIsExact(said: seq<string>, last: string, result: string)
    requires last != [] && forall i :: 0 <= i < |said| ==> said[i] != []
    ensures Report([], result) == [result]
    ensures Report(said + [last], []) == said + [last] == Report(said + [last], last)
    ensures result != [] && result != last ==> Report(said + [last], result) == said + [last] + [result]
  {
    OthersStay(said + [last]);
  }

  // ---- The translator object --------------------------------------------------------------------

  class TurnTranslator {
    const turnId: string
    var itemN: nat
    var held: Option<string>
    ghost var texts: seq<string>   // the texts received so far

    ghost function View(): Held
      reads this
    {
      Held(itemN, held)
    }

    /** The fields are what the texts received so far make them. */
    ghost predicate Valid()
      reads this
    {
      View() == After(texts, turnId).0
    }

    constructor (turnId: string)
      ensures Valid() && this.turnId == turnId && texts == []
    {
      this.turnId := turnId;
      itemN, held, texts := 0, None, [];
    }

    method AgentMessage(text: string, phase: Phase) returns (out: Out)
      modifies this`itemN
      ensures itemN == old(itemN) + 1 && out == Item(ItemId(turnId, itemN), text, phase)
    {
      itemN := itemN + 1;
      out := Item("item_" + turnId + "_" + Decimal(itemN), text, phase);
    }

    method OnMessage(m: Json) returns (out: seq<Out>)
      modifies this
      ensures (View(), out) == OnText(old(View()), turnId, ExtractText(m)) && texts == old(texts) + [ExtractText(m)]
      ensures old(Valid()) ==> Valid() && After(texts, turnId).1 == After(old(texts), turnId).1 + out
    {
      ghost var before := texts;
      var text := ExtractText(m);
      out := [];
      texts := texts + [text];
      assert texts[..|texts| - 1] == before;
      if text != [] {
        if held.Some? {
          var flushed := AgentMessage(held.value, Commentary);
          out := [flushed];
        }
        held := Some(text);
      }
    }

    method Finalize(result: string, isError: bool, usage: Option<Usage>) returns (out: seq<Out>)
      modifies this`itemN
      ensures out == if isError then [TurnFailed] else Finish(old(View()), turnId, result, usage)
      ensures View() == if isError then old(View()) else Concluded(old(View()), turnId, result)
    {
      if isError { return [TurnFailed]; }
      out := [];
      var final := if result != [] then result else held.GetOr([]);
      if held.Some? && held.value != final {
        var flushed := AgentMessage(held.value, Commentary);
        out := out + [flushed];
      }
      var answer := AgentMessage(final, FinalAnswer);
      out := out + [answer];
      if usage.Some? { out := out + [TokenUsage(usage.value)]; }
      out := out + [TurnCompleted];
    }
  }
}
