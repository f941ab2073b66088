/** Every text of a value within the limits is accepted, so the parser accepts exactly those texts. */
module BencodeAcceptance {
  import opened BencodeSpec
  import opened BencodeTheorems
  import opened BencodeRoundTrip
  import opened BencodeTexts
  import opened BencodeSoundness

  // ----- numbers -----

  lemma {:induction false} LengthDigits(digits: string, n: int, stack: seq<Frame>, rest: string)
    requires DigitsText(digits, n) && n <= INT64_MAX
    ensures Feed(State(StrLen(0, false), stack), digits + rest)
      == Then([], |digits|, Feed(State(StrLen(n, digits != ""), stack), rest))
  {
    hide Feed;
    if digits == "" {
      assert digits + rest == rest;
      ThenNothing(Feed(State(StrLen(n, false), stack), rest));
    } else {
      var init, c := digits[..|digits| - 1], digits[|digits| - 1];
      var m := DigitsNumber(init);
      assert digits + rest == init + ([c] + rest);
      LengthDigits(init, m, stack, [c] + rest);
      FeedCons(State(StrLen(m, init != ""), stack), c, rest);
      ThenThen([], |init|, [], 1, Feed(State(StrLen(n, true), stack), rest));
    }
  }

  lemma {:induction false} NumberDigits(sign: int, digits: string, n: int, stack: seq<Frame>, rest: string)
    requires DigitsText(digits, n) && n <= INT64_MAX
    ensures Feed(State(Num(sign, 0, false), stack), digits + rest)
      == Then([], |digits|, Feed(State(Num(sign, n, digits != ""), stack), rest))
  {
    hide Feed;
    if digits == "" {
      assert digits + rest == rest;
      ThenNothing(Feed(State(Num(sign, n, false), stack), rest));
    } else {
      var init, c := digits[..|digits| - 1], digits[|digits| - 1];
      var m := DigitsNumber(init);
      assert digits + rest == init + ([c] + rest);
      NumberDigits(sign, init, m, stack, [c] + rest);
      FeedCons(State(Num(sign, m, init != ""), stack), c, rest);
      ThenThen([], |init|, [], 1, Feed(State(Num(sign, n, true), stack), rest));
    }
  }

  lemma {:induction false} FeedSkipped(skipped: string, stack: seq<Frame>, rest: string)
    requires SkippedText(skipped)
    ensures Feed(State(NumSign, stack), skipped + rest) == Then([], |skipped|, Feed(State(NumSign, stack), rest))
  {
    hide Feed;
    if skipped == "" {
      assert skipped + rest == rest;
      ThenNothing(Feed(State(NumSign, stack), rest));
    } else {
      SplitFirst(skipped, rest);
      assert skipped[0] in skipped;
      FeedCons(State(NumSign, stack), skipped[0], skipped[1..] + rest);
      assert forall c :: c in skipped[1..] ==> c in skipped;
      FeedSkipped(skipped[1..], stack, rest);
      ThenThen([], 1, [], |skipped| - 1, Feed(State(NumSign, stack), rest));
    }
  }

  /** A sign and digits. */
  lemma FeedSigned(mark: string, sign: int, digits: string, n: int, stack: seq<Frame>, rest: string)
    requires SignText(mark, sign) && digits != "" && DigitsText(digits, n) && n <= INT64_MAX
    ensures Feed(State(NumSign, stack), mark + (digits + rest))
      == Then([], |mark| + |digits|, Feed(State(Num(sign, n, true), stack), rest))
  {
    hide Feed, DigitsText;
    NumberDigits(sign, digits, n, stack, rest);
    if mark == "" {
      assert mark + (digits + rest) == digits + rest;
      DigitWithoutSign(digits, n, stack, rest);
    } else {
      assert mark + (digits + rest) == [mark[0]] + (digits + rest);
      FeedCons(State(NumSign, stack), mark[0], digits + rest);
      ThenThen([], 1, [], |digits|, Feed(State(Num(sign, n, true), stack), rest));
    }
  }

  /** Without a sign, the first digit is read as if a plus sign had been there. */
  lemma DigitWithoutSign(digits: string, n: int, stack: seq<Frame>, rest: string)
    requires digits != "" && DigitsText(digits, n)
    ensures Feed(State(NumSign, stack), digits + rest) == Feed(State(Num(1, 0, false), stack), digits + rest)
  {
    hide Feed;
    SplitFirst(digits, rest);
    var c, r := digits[0], digits[1..] + rest;
    assert c in digits;
    FeedCons(State(NumSign, stack), c, r);
    FeedCons(State(Num(1, 0, false), stack), c, r);
  }

  /** A number up to the end of its digits. */
  lemma FeedNumber(text: string, sign: int, n: int, pos: Pos, stack: seq<Frame>, rest: string)
    requires NumberText(text, sign, n, true) && n <= INT64_MAX && (pos == Value || pos == Initial)
    ensures Feed(State(pos, stack), text + rest)
      == Then([Begin(NumberT)], |text|, Feed(State(Num(sign, n, true), stack), rest))
  {
    hide Feed, SkippedText, SignText, DigitsText;
    var j: nat, k: nat :| NumberParts(text, sign, n, true, j, k);
    var skipped, mark, digits := text[1..j], text[j..k], text[k..];
    assert text + rest == ['i'] + (skipped + (mark + (digits + rest)));
    AfterBegin(pos, stack, skipped + (mark + (digits + rest)));
    FeedSkipped(skipped, stack, mark + (digits + rest));
    FeedSigned(mark, sign, digits, n, stack, rest);
    var r := Feed(State(Num(sign, n, true), stack), rest);
    ThenThen([], |skipped|, [], |mark| + |digits|, r);
    ThenThen([Begin(NumberT)], 1, [], |skipped| + |mark| + |digits|, r);
  }

  lemma {:induction false} FeedFloatBytes(tail: string, stack: seq<Frame>, rest: string)
    requires forall c :: c in tail ==> c in "0123456789.E+-"
    ensures Feed(State(Float, stack), tail + rest) == Then([], |tail|, Feed(State(Float, stack), rest))
  {
    hide Feed, IsFloatChar;
    if tail == "" {
      assert tail + rest == rest;
      ThenNothing(Feed(State(Float, stack), rest));
    } else {
      SplitFirst(tail, rest);
      FloatBytes(tail[0]);
      FeedCons(State(Float, stack), tail[0], tail[1..] + rest);
      FeedFloatBytes(tail[1..], stack, rest);
      ThenThen([], 1, [], |tail| - 1, Feed(State(Float, stack), rest));
    }
  }

  lemma FeedTail(sign: int, n: int, tail: string, stack: seq<Frame>, rest: string)
    requires TailText(tail)
    ensures Feed(State(Num(sign, n, true), stack), tail + rest) == Then([], |tail|, Feed(State(Float, stack), rest))
  {
    hide Feed, IsFloatChar;
    SplitFirst(tail, rest);
    FloatBytes(tail[0]);
    FeedCons(State(Num(sign, n, true), stack), tail[0], tail[1..] + rest);
    FeedFloatBytes(tail[1..], stack, rest);
    ThenThen([], 1, [], |tail| - 1, Feed(State(Float, stack), rest));
  }

  /** The end of a number. */
  lemma FeedNumberEnd(s: State, n: int, rest: string)
    requires (s.pos.Num? && s.pos.any && n == s.pos.sign * s.pos.n) || (s.pos.Float? && n == 0)
    ensures Feed(s, ['e'] + rest) == Then([Number(n), End(NumberT)], 1, After(ValueEnd(s.stack), 0, rest))
  {
    hide Feed, ValueEnd;
    ValueEndGoes(s.stack);
    FeedCons(s, 'e', rest);
    var o := ValueEnd(s.stack);
    ThenThen([Number(n), End(NumberT)], 1, o.ev, 0, Feed(o.st, rest));
  }

  lemma FeedSignedText(number: string, n: int, pos: Pos, stack: seq<Frame>, rest: string)
    requires SignedText(number, n) && -INT64_MAX <= n <= INT64_MAX && (pos == Value || pos == Initial)
    ensures Feed(State(pos, stack), number + (['e'] + rest))
      == Then([Begin(NumberT)], |number|, Then([Number(n), End(NumberT)], 1, After(ValueEnd(stack), 0, rest)))
  {
    hide Feed, NumberText, ValueEnd, After;
    var sign: int, m: int :| NumberText(number, sign, m, true) && n == sign * m;
    SignIsUnit(number, sign, m);
    FeedNumber(number, sign, m, pos, stack, ['e'] + rest);
    FeedNumberEnd(State(Num(sign, m, true), stack), n, rest);
  }

  lemma FeedFloatText(number: string, pos: Pos, stack: seq<Frame>, rest: string)
    requires FloatText(number) && (pos == Value || pos == Initial)
    ensures Feed(State(pos, stack), number + (['e'] + rest))
      == Then([Begin(NumberT)], |number|, Then([Number(0), End(NumberT)], 1, After(ValueEnd(stack), 0, rest)))
  {
    hide Feed, NumberText, TailText, ValueEnd, After;
    var sign: int, m: int, k: nat :| FloatParts(number, sign, m, k);
    var head, tail := number[..k], number[k..];
    assert number + (['e'] + rest) == head + (tail + (['e'] + rest));
    FeedNumber(head, sign, m, pos, stack, tail + (['e'] + rest));
    FeedTail(sign, m, tail, stack, ['e'] + rest);
    FeedNumberEnd(State(Float, stack), 0, rest);
    ThenThen([Begin(NumberT)], |head|, [], |tail|,
      Then([Number(0), End(NumberT)], 1, After(ValueEnd(stack), 0, rest)));
    assert [Begin(NumberT)] + [] == [Begin(NumberT)];
  }

  lemma FeedIntText(text: string, n: int, pos: Pos, stack: seq<Frame>, rest: string)
    requires IntText(text, n) && -INT64_MAX <= n <= INT64_MAX && (pos == Value || pos == Initial)
    ensures Feed(State(pos, stack), text + rest)
      == Then(Events(Int(n)), |text|, After(ValueEnd(stack), 0, rest))
  {
    hide Feed, SignedText, FloatText, ValueEnd, After;
    var number := text[..|text| - 1];
    assert text + rest == number + (['e'] + rest);
    if SignedText(number, n) {
      FeedSignedText(number, n, pos, stack, rest);
    } else {
      FeedFloatText(number, pos, stack, rest);
    }
    ThenThen([Begin(NumberT)], |number|, [Number(n), End(NumberT)], 1, After(ValueEnd(stack), 0, rest));
    assert [Begin(NumberT)] + [Number(n), End(NumberT)] == Events(Int(n));
  }

  lemma SignIsUnit(text: string, sign: int, n: int)
    requires NumberText(text, sign, n, true)
    ensures (sign == 1 || sign == -1) && n >= 0
  {
    var j: nat, k: nat :| NumberParts(text, sign, n, true, j, k);
  }

  // ----- strings -----

  /** A string from the state expecting a length. */
  lemma FeedBytesText(text: string, s: string, stack: seq<Frame>, rest: string)
    requires BytesText(text, s) && |s| <= INT64_MAX
    ensures StringEnd(stack).Go?
    ensures Feed(State(StrLen(0, false), stack), text + rest)
      == Then(Chars(s), |text|, After(StringEnd(stack), 0, rest))
  {
    hide Feed, DigitsText, Chars, StringEnd;
    var k: nat :| StringParts(text, |s|, s, k);
    var digits, tail := text[..k], After(StringEnd(stack), 0, rest);
    assert text + rest == digits + ([':'] + (s + rest));
    LengthDigits(digits, |s|, stack, [':'] + (s + rest));
    FeedCons(State(StrLen(|s|, true), stack), ':', s + rest);
    EmptyString(stack, s, rest);
    var o := StringEnd(stack);
    if s == "" {
      ThenThen([], k, o.ev, 1, Feed(o.st, rest));
      ThenThen(Chars(s), k + 1, o.ev, 0, Feed(o.st, rest));
    } else {
      FeedPayload(s, stack, rest);
      ThenThen([], 1, Chars(s), |s|, tail);
      ThenThen([], k, [] + Chars(s), 1 + |s|, tail);
      assert [] + ([] + Chars(s)) == Chars(s);
    }
  }

  lemma FirstByteOfBytes(text: string, s: string)
    requires BytesText(text, s)
    ensures text != "" && IsDigit(text[0])
  {
    var k: nat :| StringParts(text, |s|, s, k);
    assert text[..k][0] in text[..k];
  }

  /** The first digit where a value is expected begins a string whose length is then read. */
  lemma StringBegins(text: string, pos: Pos, stack: seq<Frame>, rest: string)
    requires text != "" && IsDigit(text[0]) && (pos == Value || pos == Initial)
    ensures Feed(State(pos, stack), text + rest)
      == Then([Begin(StringT)], 0, Feed(State(StrLen(0, false), stack), text + rest))
  {
    hide Feed;
    SplitFirst(text, rest);
    var c, r := text[0], text[1..] + rest;
    var st := State(StrLen(DigitVal(c), true), stack);
    FeedCons(State(pos, stack), c, r);
    FeedCons(State(StrLen(0, false), stack), c, r);
    ThenThen([Begin(StringT)], 0, [], 1, Feed(st, r));
  }

  lemma FeedStringText(text: string, s: string, pos: Pos, stack: seq<Frame>, rest: string)
    requires BytesText(text, s) && |s| <= INT64_MAX && (pos == Value || pos == Initial) && InDictKey !in stack
    ensures Feed(State(pos, stack), text + rest)
      == Then(Events(Bytes(s)), |text|, After(ValueEnd(stack), 0, rest))
  {
    hide Feed, ValueEnd, Chars, BytesText;
    ValueEndGoes(stack);
    FirstByteOfBytes(text, s);
    StringBegins(text, pos, stack, rest);
    FeedBytesText(text, s, stack, rest);
    var o := ValueEnd(stack);
    ThenThen([End(StringT)], 0, o.ev, 0, Feed(o.st, rest));
    ThenThen(Chars(s), |text|, [End(StringT)], 0, After(o, 0, rest));
    ThenThen([Begin(StringT)], 0, Chars(s) + [End(StringT)], |text|, After(o, 0, rest));
    assert [Begin(StringT)] + (Chars(s) + [End(StringT)]) == Events(Bytes(s));
  }

  // ----- values -----

  lemma FirstByteOfValue(text: string, v: Bencoded)
    requires ValueText(text, v)
    ensures text != "" && (text[0] == 'i' || text[0] == 'l' || text[0] == 'd' || IsDigit(text[0]))
  {
    match v
    case Bytes(s) => FirstByteOfBytes(text, s);
    case Int(n) =>
      var number := text[..|text| - 1];
      if SignedText(number, n) {
        var sign: int, m: int :| NumberText(number, sign, m, true);
        FirstByteOfNumber(number, sign, m);
      } else {
        var sign: int, m: int, k: nat :| FloatParts(number, sign, m, k);
        FirstByteOfNumber(number[..k], sign, m);
      }
    case _ =>
  }

  lemma FirstByteOfNumber(text: string, sign: int, n: int)
    requires NumberText(text, sign, n, true)
    ensures text != "" && text[0] == 'i'
  {
    var j: nat, k: nat :| NumberParts(text, sign, n, true, j, k);
  }

  lemma ItemBegins(text: string, v: Bencoded, stack: seq<Frame>, rest: string)
    requires ValueText(text, v) && !Full(stack)
    ensures Feed(State(List, stack), text + rest)
      == Then([Begin(ArrayDataT)], 0, Feed(State(Value, stack + [InList]), text + rest))
  {
    hide Feed, ValueText, ValueStep;
    FirstByteOfValue(text, v);
    SplitFirst(text, rest);
    var c, r := text[0], text[1..] + rest;
    var o := ValueStep(stack + [InList], c);
    FeedCons(State(List, stack), c, r);
    FeedCons(State(Value, stack + [InList]), c, r);
    AfterBefore([Begin(ArrayDataT)], o, 1, r);
  }

  lemma KeyBegins(text: string, key: string, stack: seq<Frame>, rest: string)
    requires BytesText(text, key) && !Full(stack)
    ensures Feed(State(DictKey, stack), text + rest)
      == Then([Begin(DictKeyT)], 0, Feed(State(StrLen(0, false), stack + [InDictKey]), text + rest))
  {
    hide Feed, BytesText, LengthStep;
    FirstByteOfBytes(text, key);
    SplitFirst(text, rest);
    var c, r := text[0], text[1..] + rest;
    var o := LengthStep(stack + [InDictKey], 0, false, c);
    FeedCons(State(DictKey, stack), c, r);
    FeedCons(State(StrLen(0, false), stack + [InDictKey]), c, r);
    AfterBefore([Begin(DictKeyT)], o, 1, r);
  }

  /** The text of a value, read where a value is expected: it is taken exactly and makes the value's callbacks. */
  lemma {:induction false} FeedValueText(text: string, v: Bencoded, pos: Pos, stack: seq<Frame>, rest: string)
    requires ValueText(text, v) && Depth(v) + |stack| <= 49 && InRange(v)
    requires (pos == Value || pos == Initial) && InDictKey !in stack
    ensures Feed(State(pos, stack), text + rest) == Then(Events(v), |text|, After(ValueEnd(stack), 0, rest))
    decreases v, 0
  {
    hide Feed, ValueEnd, ItemsText, EntriesText, IntText, BytesText;
    match v
    case Int(n) => FeedIntText(text, n, pos, stack, rest);
    case Bytes(s) => FeedStringText(text, s, pos, stack, rest);
    case Items(items) =>
      var inner, tail := text[1..|text| - 1], ['e'] + rest;
      assert text + rest == ['l'] + (inner + tail);
      FeedCons(State(pos, stack), 'l', inner + tail);
      FeedItemsText(inner, items, stack, tail);
      FeedCons(State(List, stack), 'e', rest);
      ContainerEnd(ArrayT, stack, ItemEvents(items), |inner|, ArrayT, rest);
    case Dict(entries) =>
      var inner, tail := text[1..|text| - 1], ['e'] + rest;
      assert text + rest == ['d'] + (inner + tail);
      FeedCons(State(pos, stack), 'd', inner + tail);
      FeedEntriesText(inner, entries, stack, tail);
      FeedCons(State(DictKey, stack), 'e', rest);
      ContainerEnd(DictT, stack, EntryEvents(entries), |inner|, DictT, rest);
  }

  lemma {:induction false} FeedItemsText(text: string, items: ItemList, stack: seq<Frame>, rest: string)
    requires ItemsText(text, items) && ItemsDepth(items) + |stack| <= 49 && ItemsInRange(items)
    requires InDictKey !in stack && |stack| <= 49
    ensures Feed(State(List, stack), text + rest)
      == Then(ItemEvents(items), |text|, Feed(State(List, stack), rest))
    decreases items, 0
  {
    hide Feed, ValueText, Events;
    if items.NoItem? {
      assert text + rest == rest;
      ThenNothing(Feed(State(List, stack), rest));
    } else {
      var k: nat :| k <= |text| && ValueText(text[..k], items.head) && ItemsText(text[k..], items.tail);
      var first, more, inner := text[..k], text[k..] + rest, stack + [InList];
      assert text + rest == first + more;
      ItemBegins(first, items.head, stack, more);
      FeedValueText(first, items.head, Value, inner, more);
      FeedItemsText(text[k..], items.tail, stack, rest);
      assert inner[..|inner| - 1] == stack;
      assert ValueEnd(inner) == Go(State(List, stack), [End(ArrayDataT)]);
      ItemChain(items.head, k, Feed(State(List, stack), more));
      ThenThen(OneItem(items.head), k, ItemEvents(items.tail), |text| - k, Feed(State(List, stack), rest));
    }
  }

  function OneItem(v: Bencoded): seq<Event> {
    [Begin(ArrayDataT)] + Events(v) + [End(ArrayDataT)]
  }

  lemma ItemChain(v: Bencoded, k: nat, r: Result)
    ensures Then([Begin(ArrayDataT)], 0, Then(Events(v), k, Then([End(ArrayDataT)], 0, r))) == Then(OneItem(v), k, r)
  {
    hide Events;
    ThenThen(Events(v), k, [End(ArrayDataT)], 0, r);
    ThenThen([Begin(ArrayDataT)], 0, Events(v) + [End(ArrayDataT)], k, r);
    assert [Begin(ArrayDataT)] + (Events(v) + [End(ArrayDataT)]) == OneItem(v);
  }

  lemma {:induction false} FeedEntriesText(text: string, entries: EntryList, stack: seq<Frame>, rest: string)
    requires EntriesText(text, entries) && EntriesDepth(entries) + |stack| <= 49 && EntriesInRange(entries)
    requires InDictKey !in stack && |stack| <= 49
    ensures Feed(State(DictKey, stack), text + rest)
      == Then(EntryEvents(entries), |text|, Feed(State(DictKey, stack), rest))
    decreases entries, 0
  {
    hide Feed, EntryText, Events, Chars;
    if entries.NoEntry? {
      assert text + rest == rest;
      ThenNothing(Feed(State(DictKey, stack), rest));
    } else {
      var k: nat :| k <= |text| && EntryText(text[..k], entries.key, entries.val)
        && EntriesText(text[k..], entries.rest);
      assert text + rest == text[..k] + (text[k..] + rest);
      FeedEntryText(text[..k], entries.key, entries.val, stack, text[k..] + rest);
      FeedEntriesText(text[k..], entries.rest, stack, rest);
      ThenThen(OneEntry(entries.key, entries.val), k, EntryEvents(entries.rest), |text| - k,
        Feed(State(DictKey, stack), rest));
    }
  }

  lemma {:induction false} FeedEntryText(text: string, key: string, val: Bencoded, stack: seq<Frame>, rest: string)
    requires EntryText(text, key, val) && 1 + Depth(val) + |stack| <= 49 && |key| <= INT64_MAX && InRange(val)
    requires InDictKey !in stack
    ensures Feed(State(DictKey, stack), text + rest)
      == Then(OneEntry(key, val), |text|, Feed(State(DictKey, stack), rest))
    decreases val, 1
  {
    hide Feed, ValueText, BytesText, Events, Chars;
    var k: nat :| k <= |text| && BytesText(text[..k], key) && ValueText(text[k..], val);
    var more, atKey, atVal := text[k..] + rest, stack + [InDictKey], stack + [InDictVal];
    assert text + rest == text[..k] + more;
    KeyBegins(text[..k], key, stack, more);
    FeedBytesText(text[..k], key, atKey, more);
    assert atKey[..|atKey| - 1] == stack;
    assert StringEnd(atKey) == Go(State(Value, atVal), [End(DictKeyT)] + [Begin(DictDataT)]);
    FeedValueText(text[k..], val, Value, atVal, rest);
    assert atVal[..|atVal| - 1] == stack;
    assert ValueEnd(atVal) == Go(State(DictKey, stack), [End(DictDataT)]);
    EntryChain(key, val, k, |text| - k, Feed(State(DictKey, stack), rest));
  }

  /** A fresh parser takes the text of a value within the limits exactly, and makes exactly that value's callbacks. */
  lemma AcceptsText(text: string, v: Bencoded, rest: string)
    requires ValueText(text, v) && Depth(v) <= 49 && InRange(v)
    ensures Feed(FRESH, text + rest) == Result(State(Finish, []), Events(v), |text|)
  {
    hide ValueText, Events;
    FeedValueText(text, v, Initial, [], rest);
    assert Feed(State(Finish, []), rest) == Result(State(Finish, []), [], 0);
    assert Events(v) + ([] + []) == Events(v);
  }

  /** A fresh parser is finished after k bytes exactly if these are the text of a value within the limits. */
  lemma AcceptsExactly(data: string, k: nat)
    requires k <= |data|
    ensures Feed(FRESH, data).st.pos.Finish? && Feed(FRESH, data).rv == k
      <==> exists v :: ValueText(data[..k], v) && Depth(v) <= 49 && InRange(v)
  {
    hide *;
    if Feed(FRESH, data).st.pos.Finish? && Feed(FRESH, data).rv == k {
      var v := FinishedIsValue(data);
    }
    if v :| ValueText(data[..k], v) && Depth(v) <= 49 && InRange(v) {
      AcceptsText(data[..k], v, data[k..]);
      assert data[..k] + data[k..] == data;
    }
  }
}
