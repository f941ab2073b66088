/**
 * Whatever the bencode parser accepts is the text of one value within the limits, and its callbacks are that value's.
 */
module BencodeSoundness {
  import opened BencodeSpec
  import opened BencodeTheorems
  import opened BencodeRoundTrip
  import opened BencodeTexts

  /** An open list or dictionary: what is complete in it, and the key whose value is underway. */
  datatype Level = InItem(items: ItemList) | InKey(entries: EntryList) | InVal(entries: EntryList, key: string)

  /**
   * What has been read: the open levels with the text of each, what is complete in the innermost container, the
   * characters of a string underway, the value, and the text since the innermost value began.
   */
  datatype Story = Story(levels: seq<Level>, texts: seq<string>, items: ItemList, entries: EntryList, chars: string,
    val: Bencoded, now: string)

  /** A list or dictionary up to its end. */
  ghost predicate ListText(text: string, items: ItemList) {
    text != "" && text[0] == 'l' && ItemsText(text[1..], items)
  }

  ghost predicate DictText(text: string, entries: EntryList) {
    text != "" && text[0] == 'd' && EntriesText(text[1..], entries)
  }

  /** A dictionary with a key after its last entry, which takes up the text from k on. */
  ghost predicate KeyParts(text: string, entries: EntryList, key: string, k: nat) {
    k <= |text| && DictText(text[..k], entries) && BytesText(text[k..], key)
  }

  ghost predicate LevelText(text: string, l: Level) {
    if l.InItem? then ListText(text, l.items)
    else if l.InKey? then DictText(text, l.entries)
    else exists k: nat :: KeyParts(text, l.entries, l.key, k)
  }

  ghost predicate LevelTexts(texts: seq<string>, ls: seq<Level>) {
    |texts| == |ls| && forall i :: 0 <= i < |ls| ==> LevelText(texts[i], ls[i])
  }

  function Joined(texts: seq<string>): string {
    if texts == [] then "" else Joined(texts[..|texts| - 1]) + texts[|texts| - 1]
  }

  /** The text since the innermost value began. */
  ghost predicate NowText(pos: Pos, t: Story) {
    if pos.StrLen? then DigitsText(t.now, pos.len) && (pos.any <==> t.now != "")
    else if pos.Str? then StringText(t.now, |t.chars| + pos.left, t.chars)
    else if pos.NumSign? then BeforeSign(t.now)
    else if pos.Num? then NumberText(t.now, pos.sign, pos.n, pos.any)
    else if pos.Float? then FloatText(t.now)
    else if pos.List? then ListText(t.now, t.items)
    else if pos.DictKey? then DictText(t.now, t.entries)
    else if pos.Finish? then ValueText(t.now, t.val)
    else t.now == ""
  }

  /** The text read so far and the story agree. */
  ghost predicate Written(pos: Pos, read: string, t: Story) {
    LevelTexts(t.texts, t.levels) && read == Joined(t.texts) + t.now && NowText(pos, t)
  }

  function LevelFrame(l: Level): Frame {
    if l.InItem? then InList else if l.InKey? then InDictKey else InDictVal
  }

  function LevelEvents(l: Level): seq<Event> {
    if l.InItem? then [Begin(ArrayT)] + ItemEvents(l.items) + [Begin(ArrayDataT)]
    else if l.InKey? then [Begin(DictT)] + EntryEvents(l.entries) + [Begin(DictKeyT)]
    else [Begin(DictT)] + EntryEvents(l.entries) + [Begin(DictKeyT)] + Chars(l.key) + [End(DictKeyT), Begin(DictDataT)]
  }

  function LevelsEvents(ls: seq<Level>): seq<Event> {
    if ls == [] then [] else LevelsEvents(ls[..|ls| - 1]) + LevelEvents(ls[|ls| - 1])
  }

  /** The container of a level, i levels below the root, nests no deeper than allowed and holds numbers in range. */
  predicate LevelFits(l: Level, i: nat) {
    if l.InItem? then ItemsDepth(l.items) + i <= 49 && ItemsInRange(l.items)
    else EntriesDepth(l.entries) + i <= 49 && EntriesInRange(l.entries) && (l.InVal? ==> |l.key| <= INT64_MAX)
  }

  ghost predicate LevelsFit(ls: seq<Level>, stack: seq<Frame>) {
    |ls| == |stack| < MAX_STACK && forall i :: 0 <= i < |ls| ==> stack[i] == LevelFrame(ls[i]) && LevelFits(ls[i], i)
  }

  predicate OnKey(stack: seq<Frame>) {
    stack != [] && stack[|stack| - 1] == InDictKey
  }

  /** The callbacks made since the innermost value began. */
  function Underway(pos: Pos, stack: seq<Frame>, t: Story): seq<Event> {
    if pos.StrLen? || pos.Str? then (if OnKey(stack) then [] else [Begin(StringT)]) + Chars(t.chars)
    else if pos.NumSign? || pos.Num? || pos.Float? then [Begin(NumberT)]
    else if pos.List? then [Begin(ArrayT)] + ItemEvents(t.items)
    else if pos.DictKey? then [Begin(DictT)] + EntryEvents(t.entries)
    else if pos.Finish? then Events(t.val)
    else []
  }

  /** State, callbacks and story agree. */
  ghost predicate Tells(s: State, ev: seq<Event>, t: Story) {
    && Inv(s) && !s.pos.Error? && LevelsFit(t.levels, s.stack)
    && ev == LevelsEvents(t.levels) + Underway(s.pos, s.stack, t)
    && (s.pos.StrLen? ==> t.chars == "")
    && (s.pos.Str? ==> |t.chars| + s.pos.left <= INT64_MAX)
    && (s.pos.List? ==> ItemsDepth(t.items) + |s.stack| <= 49 && ItemsInRange(t.items))
    && (s.pos.DictKey? ==> EntriesDepth(t.entries) + |s.stack| <= 49 && EntriesInRange(t.entries))
    && (s.pos.Finish? ==> Depth(t.val) <= 49 && InRange(t.val))
  }

  // ----- appending at the end -----

  lemma {:induction false} ItemEventsAdded(items: ItemList, v: Bencoded)
    ensures ItemEvents(AddItem(items, v)) == ItemEvents(items) + [Begin(ArrayDataT)] + Events(v) + [End(ArrayDataT)]
  {
    hide Events;
    if items.Item? {
      ItemEventsAdded(items.tail, v);
    } else {
      assert ItemEvents(NoItem) == [];
    }
  }

  lemma {:induction false} ItemFits(items: ItemList, v: Bencoded)
    ensures ItemsDepth(AddItem(items, v)) == Max(ItemsDepth(items), 1 + Depth(v))
    ensures ItemsInRange(AddItem(items, v)) <==> ItemsInRange(items) && InRange(v)
  {
    if items.Item? {
      ItemFits(items.tail, v);
    }
  }

  lemma {:induction false} EntryEventsAdded(entries: EntryList, key: string, v: Bencoded)
    ensures EntryEvents(AddEntry(entries, key, v))
         == EntryEvents(entries) + [Begin(DictKeyT)] + Chars(key) + [End(DictKeyT), Begin(DictDataT)] + Events(v)
             + [End(DictDataT)]
  {
    hide Events, Chars;
    if entries.Entry? {
      EntryEventsAdded(entries.rest, key, v);
    } else {
      assert EntryEvents(NoEntry) == [];
    }
  }

  lemma {:induction false} EntryFits(entries: EntryList, key: string, v: Bencoded)
    ensures EntriesDepth(AddEntry(entries, key, v)) == Max(EntriesDepth(entries), 1 + Depth(v))
    ensures EntriesInRange(AddEntry(entries, key, v)) <==> EntriesInRange(entries) && |key| <= INT64_MAX && InRange(v)
  {
    if entries.Entry? {
      EntryFits(entries.rest, key, v);
    }
  }

  lemma {:induction false} CharAdded(s: string, c: char)
    ensures Chars(s + [c]) == Chars(s) + [Char(c)]
  {
    if s == "" {
      assert s + [c] == [c];
    } else {
      assert (s + [c])[1..] == s[1..] + [c];
      CharAdded(s[1..], c);
    }
  }

  lemma LevelsPush(ls: seq<Level>, l: Level)
    ensures LevelsEvents(ls + [l]) == LevelsEvents(ls) + LevelEvents(l)
  {
    assert (ls + [l])[..|ls|] == ls;
  }

  predicate Stacked(stack: seq<Frame>) {
    |stack| < MAX_STACK && forall i :: 0 <= i < |stack| - 1 ==> stack[i] != InDictKey
  }

  lemma FitPush(ls: seq<Level>, stack: seq<Frame>, l: Level)
    requires LevelsFit(ls, stack) && !Full(stack) && LevelFits(l, |ls|)
    ensures LevelsFit(ls + [l], stack + [LevelFrame(l)])
  {
    hide LevelFits;
  }

  lemma FitPop(ls: seq<Level>, stack: seq<Frame>)
    requires LevelsFit(ls, stack) && stack != []
    ensures ls != [] && LevelsFit(ls[..|ls| - 1], stack[..|stack| - 1])
    ensures LevelFrame(ls[|ls| - 1]) == stack[|stack| - 1] && LevelFits(ls[|ls| - 1], |ls| - 1)
    ensures LevelsEvents(ls) == LevelsEvents(ls[..|ls| - 1]) + LevelEvents(ls[|ls| - 1])
  {
    hide LevelFits;
  }

  // ----- one byte -----

  /** o goes to a state in which everything said so far is still a story. */
  ghost predicate GoesOn(o: Outcome, before: seq<Event>, read: string, t: Story) {
    o.Go? && Tells(o.st, before + o.ev, t) && Written(o.st.pos, read, t)
  }

  /** A value is complete. */
  lemma ValueDone(ls: seq<Level>, texts: seq<string>, stack: seq<Frame>, v: Bencoded, text: string) returns (t: Story)
    requires Stacked(stack) && LevelsFit(ls, stack) && !OnKey(stack) && Depth(v) + |stack| <= 49 && InRange(v)
    requires LevelTexts(texts, ls) && ValueText(text, v)
    ensures GoesOn(ValueEnd(stack), LevelsEvents(ls) + Events(v), Joined(texts) + text, t)
  {
    hide *;
    if stack == [] {
      t := RootDone(ls, texts, stack, v, text);
    } else {
      FitPop(ls, stack);
      TopFrame(stack, ls[|ls| - 1]);
      if ls[|ls| - 1].InItem? {
        t := ItemDone(ls, texts, stack, v, text);
      } else {
        t := EntryDone(ls, texts, stack, v, text);
      }
    }
  }

  lemma TopFrame(stack: seq<Frame>, l: Level)
    requires stack != [] && !OnKey(stack) && LevelFrame(l) == stack[|stack| - 1]
    ensures l.InItem? || l.InVal?
  {
  }

  /** The value is the root. */
  lemma RootDone(ls: seq<Level>, texts: seq<string>, stack: seq<Frame>, v: Bencoded, text: string) returns (t: Story)
    requires stack == [] && LevelsFit(ls, stack) && Depth(v) + |stack| <= 49 && InRange(v)
    requires LevelTexts(texts, ls) && ValueText(text, v)
    ensures GoesOn(ValueEnd(stack), LevelsEvents(ls) + Events(v), Joined(texts) + text, t)
  {
    hide Events, ItemEvents, EntryEvents, Depth, ItemsDepth, EntriesDepth, InRange, ItemsInRange, EntriesInRange, Chars,
      LevelsEvents, LevelTexts, Written;
    t := Story([], [], NoItem, NoEntry, "", v, text);
    NoLevels();
    assert [] + Events(v) + [] == [] + Events(v);
    RootWritten(ls, texts, v, text, t);
  }

  /** The value is an item of a list. */
  lemma ItemDone(ls: seq<Level>, texts: seq<string>, stack: seq<Frame>, v: Bencoded, text: string) returns (t: Story)
    requires Stacked(stack) && stack != [] && LevelsFit(ls, stack) && Depth(v) + |stack| <= 49 && InRange(v)
    requires LevelTexts(texts, ls) && ValueText(text, v) && ls[|ls| - 1].InItem?
    ensures GoesOn(ValueEnd(stack), LevelsEvents(ls) + Events(v), Joined(texts) + text, t)
  {
    hide Events, ItemEvents, EntryEvents, Depth, ItemsDepth, EntriesDepth, InRange, ItemsInRange, EntriesInRange, Chars,
      LevelsEvents, LevelTexts, Written;
    ValueEndKeeps(stack);
    FitPop(ls, stack);
    var n := |stack| - 1;
    ItemEventsAdded(ls[n].items, v);
    ItemFits(ls[n].items, v);
    t := ItemWritten(ls, texts, v, text);
    ListJoins(LevelsEvents(ls[..n]), ItemEvents(ls[n].items), Events(v));
  }

  /** The value is that of a key. */
  lemma EntryDone(ls: seq<Level>, texts: seq<string>, stack: seq<Frame>, v: Bencoded, text: string) returns (t: Story)
    requires Stacked(stack) && stack != [] && LevelsFit(ls, stack) && Depth(v) + |stack| <= 49 && InRange(v)
    requires LevelTexts(texts, ls) && ValueText(text, v) && ls[|ls| - 1].InVal?
    ensures GoesOn(ValueEnd(stack), LevelsEvents(ls) + Events(v), Joined(texts) + text, t)
  {
    hide Events, ItemEvents, EntryEvents, Depth, ItemsDepth, EntriesDepth, InRange, ItemsInRange, EntriesInRange, Chars,
      LevelsEvents, LevelTexts, Written;
    ValueEndKeeps(stack);
    FitPop(ls, stack);
    var n := |stack| - 1;
    EntryEventsAdded(ls[n].entries, ls[n].key, v);
    EntryFits(ls[n].entries, ls[n].key, v);
    t := EntryWritten(ls, texts, v, text);
    DictJoins(LevelsEvents(ls[..n]), EntryEvents(ls[n].entries), Chars(ls[n].key), Events(v));
  }

  lemma RootWritten(ls: seq<Level>, texts: seq<string>, v: Bencoded, text: string, t: Story)
    requires ls == [] && LevelTexts(texts, ls) && ValueText(text, v) && t == Story([], [], NoItem, NoEntry, "", v, text)
    ensures Written(Finish, Joined(texts) + text, t)
  {
    hide ValueText;
  }

  lemma TextsPop(ls: seq<Level>, texts: seq<string>)
    requires LevelTexts(texts, ls) && ls != []
    ensures |texts| == |ls| && LevelTexts(texts[..|ls| - 1], ls[..|ls| - 1])
    ensures LevelText(texts[|ls| - 1], ls[|ls| - 1])
    ensures Joined(texts) == Joined(texts[..|ls| - 1]) + texts[|ls| - 1]
  {
    hide LevelText;
  }

  lemma TextsPush(ls: seq<Level>, texts: seq<string>, l: Level, text: string)
    requires LevelTexts(texts, ls) && LevelText(text, l)
    ensures LevelTexts(texts + [text], ls + [l]) && Joined(texts + [text]) == Joined(texts) + text
  {
    hide LevelText;
    assert (texts + [text])[..|texts|] == texts;
  }

  lemma ItemWritten(ls: seq<Level>, texts: seq<string>, v: Bencoded, text: string) returns (t: Story)
    requires ls != [] && ls[|ls| - 1].InItem? && LevelTexts(texts, ls) && ValueText(text, v)
    ensures var n := |ls| - 1;
      && |texts| == |ls|
      && t == Story(ls[..n], texts[..n], AddItem(ls[n].items, v), NoEntry, "", v, texts[n] + text)
      && Written(List, Joined(texts) + text, t)
  {
    hide ValueText, ItemsText, LevelTexts, Joined, AddItem;
    TextsPop(ls, texts);
    var n := |ls| - 1;
    t := Story(ls[..n], texts[..n], AddItem(ls[n].items, v), NoEntry, "", v, texts[n] + text);
    ItemAdded(texts[n][1..], ls[n].items, text, v);
    assert (texts[n] + text)[1..] == texts[n][1..] + text;
    assert Joined(texts[..n]) + texts[n] + text == Joined(texts[..n]) + (texts[n] + text);
  }

  lemma EntryWritten(ls: seq<Level>, texts: seq<string>, v: Bencoded, text: string) returns (t: Story)
    requires ls != [] && ls[|ls| - 1].InVal? && LevelTexts(texts, ls) && ValueText(text, v)
    ensures var n := |ls| - 1;
      && |texts| == |ls|
      && t == Story(ls[..n], texts[..n], NoItem, AddEntry(ls[n].entries, ls[n].key, v), "", v, texts[n] + text)
      && Written(DictKey, Joined(texts) + text, t)
  {
    hide ValueText, EntriesText, EntryText, BytesText, LevelTexts, Joined, AddEntry;
    TextsPop(ls, texts);
    var n := |ls| - 1;
    var head, l := texts[n], ls[n];
    t := Story(ls[..n], texts[..n], NoItem, AddEntry(l.entries, l.key, v), "", v, head + text);
    var k: nat :| KeyParts(head, l.entries, l.key, k);
    EntryJoined(head[k..], l.key, text, v);
    EntryAdded(head[..k][1..], l.entries, head[k..] + text, l.key, v);
    assert (head + text)[1..] == head[..k][1..] + (head[k..] + text);
    assert Joined(texts[..n]) + head + text == Joined(texts[..n]) + (head + text);
  }

  lemma NoLevels()
    ensures LevelsEvents([]) == []
  {
  }

  lemma ListJoins(up: seq<Event>, items: seq<Event>, v: seq<Event>)
    ensures (up + ([Begin(ArrayT)] + items + [Begin(ArrayDataT)])) + v + [End(ArrayDataT)]
         == up + ([Begin(ArrayT)] + (items + [Begin(ArrayDataT)] + v + [End(ArrayDataT)]))
  {
  }

  lemma DictJoins(up: seq<Event>, entries: seq<Event>, key: seq<Event>, v: seq<Event>)
    ensures (up + ([Begin(DictT)] + entries + [Begin(DictKeyT)] + key + [End(DictKeyT), Begin(DictDataT)])) + v
      + [End(DictDataT)]
         == up + ([Begin(DictT)]
             + (entries + [Begin(DictKeyT)] + key + [End(DictKeyT), Begin(DictDataT)] + v + [End(DictDataT)]))
  {
  }

  /** A key is complete: its value is expected. */
  lemma KeyDone(ls: seq<Level>, texts: seq<string>, stack: seq<Frame>, key: string, text: string) returns (t: Story)
    requires Stacked(stack) && LevelsFit(ls, stack) && OnKey(stack) && |key| <= INT64_MAX
    requires LevelTexts(texts, ls) && BytesText(text, key)
    ensures GoesOn(StringEnd(stack), LevelsEvents(ls) + Chars(key), Joined(texts) + text, t)
  {
    hide EntryEvents, EntriesDepth, EntriesInRange, Chars, LevelsEvents, ItemEvents, LevelTexts, BytesText, Written;
    ValueEndKeeps(stack);
    FitPop(ls, stack);
    var n := |stack| - 1;
    var up, top := ls[..n], ls[n];
    var l := InVal(top.entries, key);
    FitPush(up, stack[..n], l);
    LevelsPush(up, l);
    t := KeyWritten(ls, texts, key, text);
    KeyJoins(LevelsEvents(up), EntryEvents(top.entries), Chars(key));
  }

  lemma KeyWritten(ls: seq<Level>, texts: seq<string>, key: string, text: string) returns (t: Story)
    requires ls != [] && ls[|ls| - 1].InKey? && LevelTexts(texts, ls) && BytesText(text, key)
    ensures var n := |ls| - 1;
      && |texts| == |ls|
      && t == Story(ls[..n] + [InVal(ls[n].entries, key)], texts[..n] + [texts[n] + text], NoItem, NoEntry, "", Int(0),
          "")
      && Written(Value, Joined(texts) + text, t)
  {
    hide EntriesText, BytesText, LevelTexts, Joined;
    TextsPop(ls, texts);
    var n := |ls| - 1;
    var head, l := texts[n], InVal(ls[n].entries, key);
    assert (head + text)[..|head|] == head && (head + text)[|head|..] == text;
    assert KeyParts(head + text, l.entries, key, |head|);
    TextsPush(ls[..n], texts[..n], l, head + text);
    t := Story(ls[..n] + [l], texts[..n] + [head + text], NoItem, NoEntry, "", Int(0), "");
    assert Joined(texts) + text == Joined(texts[..n]) + (head + text) + "";
  }

  lemma KeyJoins(up: seq<Event>, entries: seq<Event>, key: seq<Event>)
    ensures (up + ([Begin(DictT)] + entries + [Begin(DictKeyT)])) + key + ([End(DictKeyT)] + [Begin(DictDataT)])
         == up + ([Begin(DictT)] + entries + [Begin(DictKeyT)] + key + [End(DictKeyT), Begin(DictDataT)]) + []
  {
  }

  lemma BeforeGoesOn(e: seq<Event>, o: Outcome, before: seq<Event>, read: string, t: Story)
    requires GoesOn(o, before + e, read, t)
    ensures GoesOn(Before(e, o), before, read, t)
  {
    hide Tells, Written;
    assert (before + e) + o.ev == before + (e + o.ev);
  }

  /** A string is complete, whether a key or a value. */
  lemma StringDone(ls: seq<Level>, texts: seq<string>, stack: seq<Frame>, chars: string,
      text: string) returns (t: Story)
    requires Stacked(stack) && LevelsFit(ls, stack) && |chars| <= INT64_MAX
    requires LevelTexts(texts, ls) && BytesText(text, chars)
    ensures GoesOn(StringEnd(stack),
      LevelsEvents(ls) + ((if OnKey(stack) then [] else [Begin(StringT)]) + Chars(chars)),
      Joined(texts) + text, t)
  {
    hide Tells, LevelsEvents, Chars, LevelsFit, GoesOn, ValueEnd, LevelTexts, BytesText;
    if OnKey(stack) {
      t := KeyDone(ls, texts, stack, chars, text);
      assert [] + Chars(chars) == Chars(chars);
    } else {
      var v := Bytes(chars);
      t := ValueDone(ls, texts, stack, v, text);
      var so := LevelsEvents(ls) + ([Begin(StringT)] + Chars(chars));
      assert LevelsEvents(ls) + Events(v) == so + [End(StringT)];
      BeforeGoesOn([End(StringT)], ValueEnd(stack), so, Joined(texts) + text, t);
    }
  }

  lemma NumberDone(ls: seq<Level>, texts: seq<string>, stack: seq<Frame>, n: int, text: string) returns (t: Story)
    requires Stacked(stack) && LevelsFit(ls, stack) && !OnKey(stack) && -INT64_MAX <= n <= INT64_MAX
    requires LevelTexts(texts, ls) && IntText(text, n)
    ensures GoesOn(NumberEnd(stack, n), LevelsEvents(ls) + [Begin(NumberT)], Joined(texts) + text, t)
  {
    hide Tells, LevelsEvents, LevelsFit, GoesOn, ValueEnd, LevelTexts, IntText;
    t := ValueDone(ls, texts, stack, Int(n), text);
    var so := LevelsEvents(ls) + [Begin(NumberT)];
    assert LevelsEvents(ls) + Events(Int(n)) == so + [Number(n), End(NumberT)];
    BeforeGoesOn([Number(n), End(NumberT)], ValueEnd(stack), so, Joined(texts) + text, t);
  }

  /** The first byte of a value. */
  lemma ValueBegins(ls: seq<Level>, texts: seq<string>, stack: seq<Frame>, c: char) returns (t: Story)
    requires Stacked(stack) && LevelsFit(ls, stack) && !OnKey(stack) && LevelTexts(texts, ls)
    ensures ValueStep(stack, c).Go? ==> GoesOn(ValueStep(stack, c), LevelsEvents(ls), Joined(texts) + [c], t)
  {
    hide LevelsEvents, LevelTexts, Joined;
    t := Story(ls, texts, NoItem, NoEntry, "", Int(0), [c]);
    if ValueStep(stack, c).Go? {
      ValueStepKeeps(stack, c);
      FirstByteWritten(t, stack, c);
    }
    assert [Begin(DictT)] + [] == [Begin(DictT)] && [Begin(ArrayT)] + [] == [Begin(ArrayT)]
        && [Begin(StringT)] + [] == [Begin(StringT)];
  }

  lemma FirstByteWritten(t: Story, stack: seq<Frame>, c: char)
    requires ValueStep(stack, c).Go? && t.items == NoItem && t.entries == NoEntry && t.now == [c]
    ensures NowText(ValueStep(stack, c).st.pos, t)
  {
    assert [c][1..] == "";
    if IsDigit(c) {
      DigitAdded("", 0, c);
      assert "" + [c] == [c];
    }
  }

  /** A byte of a length, after the digits so far. */
  lemma LengthGoesOn(ls: seq<Level>, texts: seq<string>, stack: seq<Frame>, len: int, any: bool, now: string, c: char)
    returns (t: Story)
    requires Stacked(stack) && LevelsFit(ls, stack) && 0 <= len <= INT64_MAX
    requires LevelTexts(texts, ls) && DigitsText(now, len) && (any <==> now != "")
    ensures LengthStep(stack, len, any, c).Go? ==>
      GoesOn(LengthStep(stack, len, any, c),
          LevelsEvents(ls) + ((if OnKey(stack) then [] else [Begin(StringT)]) + Chars("")),
        Joined(texts) + (now + [c]), t)
  {
    hide LevelsEvents, LevelsFit, ValueEnd, StringEnd, LevelTexts, Joined, DigitsText, StringText;
    t := Story(ls, texts, NoItem, NoEntry, "", Int(0), now + [c]);
    LengthStepKeeps(stack, len, any, c);
    if c == ':' && any && len == 0 {
      StringDigits(now, 0);
      t := StringDone(ls, texts, stack, "", now + [c]);
    } else {
      if c == ':' && any {
        StringDigits(now, len);
      } else if IsDigit(c) {
        DigitAdded(now, len, c);
      }
      var so := LevelsEvents(ls) + ((if OnKey(stack) then [] else [Begin(StringT)]) + Chars(""));
      assert so + [] == so;
    }
  }

  lemma AtItem(s: State, before: seq<Event>, read: string, t: Story, c: char) returns (u: Story)
    requires Tells(s, before, t) && Written(s.pos, read, t) && s.pos.List? && Step(s, c).Go?
    ensures GoesOn(Step(s, c), before, read + [c], u)
  {
    hide LevelsEvents, ValueStep, ValueEnd, LevelFits, GoesOn, LevelTexts, Joined, ItemsText;
    NoKeyFrames(s);
    var so := LevelsEvents(t.levels);
    assert read + [c] == Joined(t.texts) + (t.now + [c]);
    if c == 'e' {
      var v := Items(t.items);
      ListEnds(t.now, t.items);
      u := ValueDone(t.levels, t.texts, s.stack, v, t.now + [c]);
      assert so + Events(v) == before + [End(ArrayT)];
      BeforeGoesOn([End(ArrayT)], ValueEnd(s.stack), before, read + [c], u);
    } else {
      var l := InItem(t.items);
      ItemLevelFits(t.items, |s.stack|);
      FitPush(t.levels, s.stack, l);
      LevelsPush(t.levels, l);
      TextsPush(t.levels, t.texts, l, t.now);
      u := ValueBegins(t.levels + [l], t.texts + [t.now], s.stack + [InList], c);
      assert so + LevelEvents(l) == before + [Begin(ArrayDataT)];
      BeforeGoesOn([Begin(ArrayDataT)], ValueStep(s.stack + [InList], c), before, read + [c], u);
    }
  }

  lemma ListEnds(text: string, items: ItemList)
    requires ListText(text, items)
    ensures ValueText(text + "e", Items(items))
  {
    hide ItemsText;
    assert (text + "e")[1..|text|] == text[1..];
  }

  lemma DictEnds(text: string, entries: EntryList)
    requires DictText(text, entries)
    ensures ValueText(text + "e", Dict(entries))
  {
    hide EntriesText;
    assert (text + "e")[1..|text|] == text[1..];
  }

  lemma ItemLevelFits(items: ItemList, i: nat)
    requires ItemsDepth(items) + i <= 49 && ItemsInRange(items)
    ensures LevelFits(InItem(items), i)
  {
  }

  lemma AtDictKey(s: State, before: seq<Event>, read: string, t: Story, c: char) returns (u: Story)
    requires Tells(s, before, t) && Written(s.pos, read, t) && s.pos.DictKey? && Step(s, c).Go?
    ensures GoesOn(Step(s, c), before, read + [c], u)
  {
    hide LevelsEvents, LengthStep, ValueEnd, LevelFits, GoesOn, LevelTexts, Joined, EntriesText;
    NoKeyFrames(s);
    var so := LevelsEvents(t.levels);
    assert read + [c] == Joined(t.texts) + (t.now + [c]);
    if c == 'e' {
      var v := Dict(t.entries);
      DictEnds(t.now, t.entries);
      u := ValueDone(t.levels, t.texts, s.stack, v, t.now + [c]);
      assert so + Events(v) == before + [End(DictT)];
      BeforeGoesOn([End(DictT)], ValueEnd(s.stack), before, read + [c], u);
    } else {
      var l := InKey(t.entries);
      KeyLevelFits(t.entries, |s.stack|);
      FitPush(t.levels, s.stack, l);
      LevelsPush(t.levels, l);
      TextsPush(t.levels, t.texts, l, t.now);
      u := LengthGoesOn(t.levels + [l], t.texts + [t.now], s.stack + [InDictKey], 0, false, "", c);
      assert so + LevelEvents(l) == before + [Begin(DictKeyT)];
      assert LevelsEvents(t.levels + [l]) + ([] + Chars("")) == before + [Begin(DictKeyT)];
      assert Joined(t.texts + [t.now]) + ("" + [c]) == read + [c];
      BeforeGoesOn([Begin(DictKeyT)], LengthStep(s.stack + [InDictKey], 0, false, c), before, read + [c], u);
    }
  }

  lemma KeyLevelFits(entries: EntryList, i: nat)
    requires EntriesDepth(entries) + i <= 49 && EntriesInRange(entries)
    ensures LevelFits(InKey(entries), i)
  {
  }

  lemma InString(s: State, before: seq<Event>, read: string, t: Story, c: char) returns (u: Story)
    requires Tells(s, before, t) && Written(s.pos, read, t) && s.pos.Str?
    ensures GoesOn(Step(s, c), before, read + [c], u)
  {
    hide LevelsEvents, StringEnd, LevelsFit, Chars, LevelTexts, Joined, StringText;
    CharAdded(t.chars, c);
    CharacterAdded(t.now, |t.chars| + s.pos.left, t.chars, c);
    var so, open := LevelsEvents(t.levels), if OnKey(s.stack) then [] else [Begin(StringT)];
    assert (so + (open + Chars(t.chars))) + [Char(c)] == so + (open + Chars(t.chars + [c]));
    assert read + [c] == Joined(t.texts) + (t.now + [c]);
    if s.pos.left <= 1 {
      u := StringDone(t.levels, t.texts, s.stack, t.chars + [c], t.now + [c]);
      BeforeGoesOn([Char(c)], StringEnd(s.stack), before, read + [c], u);
    } else {
      u := t.(chars := t.chars + [c], now := t.now + [c]);
      StepKeeps(s, c);
    }
  }

  lemma InNumber(s: State, before: seq<Event>, read: string, t: Story, c: char) returns (u: Story)
    requires Tells(s, before, t) && Written(s.pos, read, t)
    requires (s.pos.NumSign? || s.pos.Num? || s.pos.Float?) && Step(s, c).Go?
    ensures GoesOn(Step(s, c), before, read + [c], u)
  {
    hide LevelsEvents, NumberEnd, LevelsFit, LevelTexts, Joined, NumberText, FloatText, BeforeSign, IntText;
    NoKeyFrames(s);
    StepKeeps(s, c);
    u := t.(now := t.now + [c]);
    assert before + [] == before;
    assert read + [c] == Joined(t.texts) + (t.now + [c]);
    if s.pos.Num? && c == 'e' && s.pos.any {
      NumberEnds(t.now, s.pos.sign, s.pos.n);
      u := NumberDone(t.levels, t.texts, s.stack, s.pos.sign * s.pos.n, t.now + [c]);
    } else if s.pos.Float? && c == 'e' {
      NumberEnds(t.now, 1, 0);
      u := NumberDone(t.levels, t.texts, s.stack, 0, t.now + [c]);
    } else {
      NumberByte(s, t, c);
    }
  }

  lemma NumberByte(s: State, t: Story, c: char)
    requires Inv(s) && (s.pos.NumSign? || s.pos.Num? || s.pos.Float?) && NowText(s.pos, t)
    requires Step(s, c).Go? && (s.pos.NumSign? || c != 'e')
    ensures NowText(Step(s, c).st.pos, t.(now := t.now + [c]))
  {
    hide NumberText, FloatText, BeforeSign;
    if s.pos.NumSign? {
      if c == '+' || c == '-' {
        SignAdded(t.now, c);
      } else if IsDigit(c) {
        FirstDigitAdded(t.now, c);
      } else {
        SkippedAdded(t.now, c);
      }
    } else if s.pos.Float? {
      TailAdded(t.now, c);
    } else if IsDigit(c) {
      NumberDigitAdded(t.now, s.pos.sign, s.pos.n, s.pos.any, c);
    } else {
      TailBegins(t.now, s.pos.sign, s.pos.n, c);
    }
  }

  /** Every byte taken leaves a story of what has been read. */
  lemma StepTells(s: State, before: seq<Event>, read: string, t: Story, c: char) returns (u: Story)
    requires Tells(s, before, t) && Written(s.pos, read, t) && !s.pos.Finish? && Step(s, c).Go?
    ensures GoesOn(Step(s, c), before, read + [c], u)
  {
    hide LevelsEvents, LevelsFit, ValueStep, LengthStep, GoesOn, StringEnd, NumberEnd, ValueEnd, Chars, ItemEvents,
      EntryEvents, Events, LevelTexts, Joined;
    if s.pos.List? {
      u := AtItem(s, before, read, t, c);
    } else if s.pos.DictKey? {
      u := AtDictKey(s, before, read, t, c);
    } else if s.pos.Str? {
      u := InString(s, before, read, t, c);
    } else if s.pos.StrLen? {
      u := LengthGoesOn(t.levels, t.texts, s.stack, s.pos.len, s.pos.any, t.now, c);
      assert read + [c] == Joined(t.texts) + (t.now + [c]);
    } else if s.pos.NumSign? || s.pos.Num? || s.pos.Float? {
      u := InNumber(s, before, read, t, c);
    } else {
      NoKeyFrames(s);
      assert LevelsEvents(t.levels) + [] == LevelsEvents(t.levels);
      assert Joined(t.texts) + "" == Joined(t.texts);
      u := ValueBegins(t.levels, t.texts, s.stack, c);
    }
  }

  lemma {:induction false} FeedTells(s: State, before: seq<Event>, read: string, t: Story,
      data: string) returns (u: Story)
    requires Tells(s, before, t) && Written(s.pos, read, t) && Feed(s, data).rv >= 0
    ensures var r := Feed(s, data);
      && Tells(r.st, before + r.ev, u) && r.rv <= |data| && Written(r.st.pos, read + data[..r.rv], u)
    decreases |data|
  {
    hide Tells, Step, Written;
    u := t;
    assert before + [] == before && data[..0] == "" && read + "" == read;
    StepAnswers(s, before, t, if data == [] then 'e' else data[0]);
    if !s.pos.Finish? && data != [] {
      var c, o := data[0], Step(s, data[0]);
      if o.Go? {
        var r := StepTells(s, before, read, t, c);
        var rest := Feed(o.st, data[1..]);
        u := FeedTells(o.st, before + o.ev, read + [c], r, data[1..]);
        assert (before + o.ev) + rest.ev == before + (o.ev + rest.ev);
        assert data[..rest.rv + 1] == [c] + data[1..][..rest.rv];
        assert (read + [c]) + data[1..][..rest.rv] == read + data[..rest.rv + 1];
      }
    }
  }

  lemma StepAnswers(s: State, before: seq<Event>, t: Story, c: char)
    requires Tells(s, before, t)
    ensures !s.pos.Error? && (Step(s, c).Fail? ==> Step(s, c).code < 0)
  {
    hide LevelsEvents, LevelsFit, Step;
    StepKeeps(s, c);
  }

  /**
   * Soundness: if a fresh parser is finished without error, what it has taken is the text of one value, which nests at
   * most 49 deep and has all numbers and lengths in range, and its callbacks are exactly those of that value.
   */
  lemma FinishedIsValue(data: string) returns (v: Bencoded)
    requires Feed(FRESH, data).rv >= 0 && Feed(FRESH, data).st.pos.Finish?
    ensures var r := Feed(FRESH, data);
      r.rv <= |data| && ValueText(data[..r.rv], v) && r.ev == Events(v) && Depth(v) <= 49 && InRange(v)
  {
    hide *;
    var t := Story([], [], NoItem, NoEntry, "", Int(0), "");
    FreshTells(t);
    var u := FeedTells(FRESH, [], "", t, data);
    v := u.val;
    var r := Feed(FRESH, data);
    FinishedTells(r.st, [] + r.ev, "" + data[..r.rv], u);
    assert [] + r.ev == r.ev && "" + data[..r.rv] == data[..r.rv];
  }

  lemma FreshTells(t: Story)
    requires t == Story([], [], NoItem, NoEntry, "", Int(0), "")
    ensures Tells(FRESH, [], t) && Written(FRESH.pos, "", t)
  {
    hide Chars, ItemEvents, EntryEvents, Events;
    NoLevels();
  }

  lemma FinishedTells(s: State, ev: seq<Event>, read: string, u: Story)
    requires Tells(s, ev, u) && Written(s.pos, read, u) && s.pos.Finish?
    ensures ev == Events(u.val) && ValueText(read, u.val) && Depth(u.val) <= 49 && InRange(u.val)
  {
    hide Chars, ItemEvents, EntryEvents, Events, Depth, InRange, ValueText;
    NoLevels();
    assert u.levels == [] && [] + Events(u.val) == Events(u.val);
    assert Joined([]) == "" && "" + u.now == u.now;
  }
}
