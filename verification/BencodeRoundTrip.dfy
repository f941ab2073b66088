/** Bencoded values (BEP 3), and what the parser makes of their encodings. */
module BencodeRoundTrip {
  import opened BencodeSpec
  import opened BencodeTheorems

  datatype Bencoded =
    | Int(n: int)
    | Bytes(s: string)
    | Items(items: ItemList)
    | Dict(entries: EntryList)

  datatype ItemList = NoItem | Item(head: Bencoded, tail: ItemList)

  datatype EntryList = NoEntry | Entry(key: string, val: Bencoded, rest: EntryList)

  // ----- encoding -----

  function DigitChar(d: nat): (c: char)
    requires d < 10
    ensures IsDigit(c) && DigitVal(c) == d
  {
    '0' + d as char
  }

  /** Decimal digits without leading zeros. */
  function Decimal(n: nat): (r: string)
    ensures r != [] && forall c :: c in r ==> IsDigit(c)
  {
    if n < 10 then [DigitChar(n)] else Decimal(n / 10) + [DigitChar(n % 10)]
  }

  function EncodeBytes(s: string): string {
    Decimal(|s|) + ":" + s
  }

  function Encode(v: Bencoded): string {
    match v
    case Int(n) => "i" + (if n < 0 then "-" + Decimal(-n) else Decimal(n)) + "e"
    case Bytes(s) => EncodeBytes(s)
    case Items(items) => "l" + EncodeItems(items) + "e"
    case Dict(entries) => "d" + EncodeEntries(entries) + "e"
  }

  function EncodeItems(items: ItemList): string {
    match items
    case NoItem => ""
    case Item(head, tail) => Encode(head) + EncodeItems(tail)
  }

  function EncodeEntries(entries: EntryList): string {
    match entries
    case NoEntry => ""
    case Entry(key, val, rest) => EncodeBytes(key) + Encode(val) + EncodeEntries(rest)
  }

  // ----- the callbacks that describe a value -----

  function Chars(s: string): seq<Event> {
    if s == [] then [] else [Char(s[0])] + Chars(s[1..])
  }

  function Events(v: Bencoded): seq<Event> {
    match v
    case Int(n) => [Begin(NumberT), Number(n), End(NumberT)]
    case Bytes(s) => [Begin(StringT)] + Chars(s) + [End(StringT)]
    case Items(items) => [Begin(ArrayT)] + ItemEvents(items) + [End(ArrayT)]
    case Dict(entries) => [Begin(DictT)] + EntryEvents(entries) + [End(DictT)]
  }

  function ItemEvents(items: ItemList): seq<Event> {
    match items
    case NoItem => []
    case Item(head, tail) => [Begin(ArrayDataT)] + Events(head) + [End(ArrayDataT)] + ItemEvents(tail)
  }

  function EntryEvents(entries: EntryList): seq<Event> {
    match entries
    case NoEntry => []
    case Entry(key, val, rest) =>
      [Begin(DictKeyT)] + Chars(key) + [End(DictKeyT)] + [Begin(DictDataT)] + Events(val) + [End(DictDataT)]
          + EntryEvents(rest)
  }

  // ----- the parser's limits, in the order in which it meets them -----

  /** 0, or the error of the first limit that v exceeds when room more levels may be opened. */
  function Verdict(v: Bencoded, room: nat): int
    decreases v
  {
    match v
    case Int(n) => if -INT64_MAX <= n <= INT64_MAX then 0 else ERR_NUMBER_OUT_OF_RANGE
    case Bytes(s) => if |s| <= INT64_MAX then 0 else ERR_STRING_LENGTH_OUT_OF_RANGE
    case Items(items) => ItemsVerdict(items, room)
    case Dict(entries) => EntriesVerdict(entries, room)
  }

  function ItemsVerdict(items: ItemList, room: nat): int
    decreases items
  {
    match items
    case NoItem => 0
    case Item(head, tail) =>
      if room == 0 then ERR_STRUCTURE_TOO_DEEP
      else if Verdict(head, room - 1) != 0 then Verdict(head, room - 1)
      else ItemsVerdict(tail, room)
  }

  function EntriesVerdict(entries: EntryList, room: nat): int
    decreases entries
  {
    match entries
    case NoEntry => 0
    case Entry(key, val, rest) =>
      if room == 0 then ERR_STRUCTURE_TOO_DEEP
      else if |key| > INT64_MAX then ERR_STRING_LENGTH_OUT_OF_RANGE
      else if Verdict(val, room - 1) != 0 then Verdict(val, room - 1)
      else EntriesVerdict(rest, room)
  }

  /** How deep elements nest below v, v itself being at level 0. */
  function Depth(v: Bencoded): nat
    decreases v
  {
    match v
    case Int(_) => 0
    case Bytes(_) => 0
    case Items(items) => ItemsDepth(items)
    case Dict(entries) => EntriesDepth(entries)
  }

  function Max(a: nat, b: nat): nat { if a < b then b else a }

  function ItemsDepth(items: ItemList): nat
    decreases items
  {
    match items
    case NoItem => 0
    case Item(head, tail) => Max(1 + Depth(head), ItemsDepth(tail))
  }

  function EntriesDepth(entries: EntryList): nat
    decreases entries
  {
    match entries
    case NoEntry => 0
    case Entry(_, val, rest) => Max(1 + Depth(val), EntriesDepth(rest))
  }

  /** Every integer fits a signed 64-bit number other than the least one, and every string has a 64-bit length. */
  predicate InRange(v: Bencoded)
    decreases v
  {
    match v
    case Int(n) => -INT64_MAX <= n <= INT64_MAX
    case Bytes(s) => |s| <= INT64_MAX
    case Items(items) => ItemsInRange(items)
    case Dict(entries) => EntriesInRange(entries)
  }

  predicate ItemsInRange(items: ItemList)
    decreases items
  {
    match items
    case NoItem => true
    case Item(head, tail) => InRange(head) && ItemsInRange(tail)
  }

  predicate EntriesInRange(entries: EntryList)
    decreases entries
  {
    match entries
    case NoEntry => true
    case Entry(key, val, rest) => |key| <= INT64_MAX && InRange(val) && EntriesInRange(rest)
  }

  /** No limit is exceeded exactly if the value nests no deeper than room and all its numbers are in range. */
  lemma {:induction false} VerdictMeaning(v: Bencoded, room: nat)
    ensures Verdict(v, room) == 0 <==> Depth(v) <= room && InRange(v)
    ensures Verdict(v, room) <= 0
    decreases v
  {
    match v
    case Int(_) =>
    case Bytes(_) =>
    case Items(items) => ItemsVerdictMeaning(items, room);
    case Dict(entries) => EntriesVerdictMeaning(entries, room);
  }

  lemma {:induction false} ItemsVerdictMeaning(items: ItemList, room: nat)
    ensures ItemsVerdict(items, room) == 0 <==> ItemsDepth(items) <= room && ItemsInRange(items)
    ensures ItemsVerdict(items, room) <= 0
    decreases items
  {
    if items.Item? {
      if room > 0 { VerdictMeaning(items.head, room - 1); }
      ItemsVerdictMeaning(items.tail, room);
    }
  }

  lemma {:induction false} EntriesVerdictMeaning(entries: EntryList, room: nat)
    ensures EntriesVerdict(entries, room) == 0 <==> EntriesDepth(entries) <= room && EntriesInRange(entries)
    ensures EntriesVerdict(entries, room) <= 0
    decreases entries
  {
    if entries.Entry? {
      if room > 0 { VerdictMeaning(entries.val, room - 1); }
      EntriesVerdictMeaning(entries.rest, room);
    }
  }

  // ----- feeding pieces of encodings -----

  /** Going on with rest after an outcome that took k bytes. */
  function After(o: Outcome, k: nat, rest: string): Result {
    match o
    case Go(st, ev) => Then(ev, k, Feed(st, rest))
    case Fail(st, ev, code) => Result(st, ev, code)
  }

  /** Feed over one more byte at the front. */
  lemma FeedCons(s: State, c: char, rest: string)
    requires !s.pos.Error? && !s.pos.Finish?
    ensures Feed(s, [c] + rest) == After(Step(s, c), 1, rest)
  {
    hide Step;
    assert ([c] + rest)[0] == c && ([c] + rest)[1..] == rest;
  }

  /** The digits of a number in range accumulate to it; a number out of range is refused on the way. */
  lemma {:induction false} FeedLength(n: nat, stack: seq<Frame>, rest: string)
    ensures n <= INT64_MAX ==>
              Feed(State(StrLen(0, false), stack), Decimal(n) + rest) ==
              Then([], |Decimal(n)|, Feed(State(StrLen(n, true), stack), rest))
    ensures n > INT64_MAX ==>
      Feed(State(StrLen(0, false), stack), Decimal(n) + rest).rv == ERR_STRING_LENGTH_OUT_OF_RANGE
  {
    hide Feed;
    if n < 10 {
      FeedCons(State(StrLen(0, false), stack), DigitChar(n), rest);
    } else {
      var d := DigitChar(n % 10);
      assert Decimal(n) + rest == Decimal(n / 10) + ([d] + rest);
      FeedLength(n / 10, stack, [d] + rest);
      FeedCons(State(StrLen(n / 10, true), stack), d, rest);
      ThenThen([], |Decimal(n / 10)|, [], 1, Feed(State(StrLen(n, true), stack), rest));
    }
  }

  lemma {:induction false} FeedDigits(sign: int, n: nat, stack: seq<Frame>, rest: string)
    ensures n <= INT64_MAX ==>
              Feed(State(Num(sign, 0, false), stack), Decimal(n) + rest) ==
              Then([], |Decimal(n)|, Feed(State(Num(sign, n, true), stack), rest))
    ensures n > INT64_MAX ==> Feed(State(Num(sign, 0, false), stack), Decimal(n) + rest).rv == ERR_NUMBER_OUT_OF_RANGE
  {
    hide Feed;
    if n < 10 {
      FeedCons(State(Num(sign, 0, false), stack), DigitChar(n), rest);
    } else {
      var d := DigitChar(n % 10);
      assert Decimal(n) + rest == Decimal(n / 10) + ([d] + rest);
      FeedDigits(sign, n / 10, stack, [d] + rest);
      FeedCons(State(Num(sign, n / 10, true), stack), d, rest);
      ThenThen([], |Decimal(n / 10)|, [], 1, Feed(State(Num(sign, n, true), stack), rest));
    }
  }

  lemma {:induction false} FeedPayload(s: string, stack: seq<Frame>, rest: string)
    requires s != []
    ensures StringEnd(stack).Go?
    ensures Feed(State(Str(|s|), stack), s + rest) == Then(Chars(s), |s|, After(StringEnd(stack), 0, rest))
  {
    hide Feed;
    assert s + rest == [s[0]] + (s[1..] + rest);
    FeedCons(State(Str(|s|), stack), s[0], s[1..] + rest);
    var o := StringEnd(stack);
    if |s| == 1 {
      assert s[1..] + rest == rest;
      assert Chars(s) == [Char(s[0])];
      ThenThen([Char(s[0])], 1, o.ev, 0, Feed(o.st, rest));
    } else {
      FeedPayload(s[1..], stack, rest);
      ThenThen([Char(s[0])], 1, Chars(s[1..]), |s| - 1, After(o, 0, rest));
    }
  }

  /** A length, a colon and that many bytes, read from the state expecting a length. */
  lemma FeedBytes(s: string, stack: seq<Frame>, rest: string)
    ensures |s| <= INT64_MAX ==>
              StringEnd(stack).Go? &&
              Feed(State(StrLen(0, false), stack), EncodeBytes(s) + rest) ==
              Then(Chars(s), |EncodeBytes(s)|, After(StringEnd(stack), 0, rest))
    ensures |s| > INT64_MAX ==>
              Feed(State(StrLen(0, false), stack), EncodeBytes(s) + rest).rv == ERR_STRING_LENGTH_OUT_OF_RANGE
  {
    hide Feed, Decimal, Chars, StringEnd;
    var d := Decimal(|s|);
    assert EncodeBytes(s) + rest == d + ([':'] + (s + rest));
    FeedLength(|s|, stack, [':'] + (s + rest));
    if |s| <= INT64_MAX {
      FeedCons(State(StrLen(|s|, true), stack), ':', s + rest);
      EmptyString(stack, s, rest);
      var o := StringEnd(stack);
      var tail := After(o, 0, rest);
      if s == [] {
        ThenThen([], |d|, o.ev, 1, Feed(o.st, rest));
        ThenThen(Chars(s), |d| + 1, o.ev, 0, Feed(o.st, rest));
      } else {
        FeedPayload(s, stack, rest);
        ThenThen([], 1, Chars(s), |s|, tail);
        ThenThen([], |d|, [] + Chars(s), 1 + |s|, tail);
        assert [] + ([] + Chars(s)) == Chars(s);
      }
    }
  }

  lemma EmptyString(stack: seq<Frame>, s: string, rest: string)
    ensures StringEnd(stack).Go?
    ensures s == [] ==> Chars(s) == [] && s + rest == rest
  {
  }

  // ----- feeding whole values -----

  function Room(stack: seq<Frame>): nat
    requires |stack| < MAX_STACK
  {
    MAX_STACK - 1 - |stack|
  }

  /** A value begins with one of these bytes, in particular not with the 'e' that ends lists and dictionaries. */
  lemma FirstByte(v: Bencoded)
    ensures Encode(v) != []
      && (Encode(v)[0] == 'i' || Encode(v)[0] == 'l' || Encode(v)[0] == 'd' || IsDigit(Encode(v)[0]))
  {
    hide Decimal;
  }

  lemma SplitFirst(s: string, rest: string)
    requires s != []
    ensures s + rest == [s[0]] + (s[1..] + rest)
  {
  }

  /** In a list, the first byte of an item opens the item and is read as the start of a value. */
  lemma OpenItem(v: Bencoded, stack: seq<Frame>, rest: string)
    requires |stack| < MAX_STACK
    ensures Full(stack) ==> Feed(State(List, stack), Encode(v) + rest).rv == ERR_STRUCTURE_TOO_DEEP
    ensures !Full(stack) ==>
              Feed(State(List, stack), Encode(v) + rest) ==
              Then([Begin(ArrayDataT)], 0, Feed(State(Value, stack + [InList]), Encode(v) + rest))
  {
    hide Feed, Encode;
    FirstByte(v);
    SplitFirst(Encode(v), rest);
    var c, r := Encode(v)[0], Encode(v)[1..] + rest;
    FeedCons(State(List, stack), c, r);
    if !Full(stack) {
      FeedCons(State(Value, stack + [InList]), c, r);
      var o := ValueStep(stack + [InList], c);
      AfterBefore([Begin(ArrayDataT)], o, 1, r);
    }
  }

  lemma AfterBefore(ev: seq<Event>, o: Outcome, k: nat, rest: string)
    ensures After(Before(ev, o), k, rest) == Then(ev, 0, After(o, k, rest))
  {
    if o.Go? {
      ThenThen(ev, 0, o.ev, k, Feed(o.st, rest));
    }
  }

  /** In a dictionary, the first digit of a key opens the key and is read as the start of a length. */
  lemma OpenKey(key: string, stack: seq<Frame>, rest: string)
    requires |stack| < MAX_STACK
    ensures Full(stack) ==> Feed(State(DictKey, stack), EncodeBytes(key) + rest).rv == ERR_STRUCTURE_TOO_DEEP
    ensures !Full(stack) ==>
              Feed(State(DictKey, stack), EncodeBytes(key) + rest) ==
              Then([Begin(DictKeyT)], 0, Feed(State(StrLen(0, false), stack + [InDictKey]), EncodeBytes(key) + rest))
  {
    hide Feed, Decimal, EncodeBytes, LengthStep;
    var e := EncodeBytes(key);
    FirstIsDigit(key);
    SplitFirst(e, rest);
    var c, r := e[0], e[1..] + rest;
    FeedCons(State(DictKey, stack), c, r);
    assert c != 'e';
    if !Full(stack) {
      var o := LengthStep(stack + [InDictKey], 0, false, c);
      FeedCons(State(StrLen(0, false), stack + [InDictKey]), c, r);
      AfterBefore([Begin(DictKeyT)], o, 1, r);
    }
  }

  lemma FirstIsDigit(s: string)
    ensures EncodeBytes(s) != [] && IsDigit(EncodeBytes(s)[0])
  {
    hide Decimal;
    assert EncodeBytes(s)[0] == Decimal(|s|)[0];
    assert Decimal(|s|)[0] in Decimal(|s|);
  }

  /** From the first digit on: the number is reported and its value is over. */
  lemma FeedMagnitude(sign: int, m: nat, stack: seq<Frame>, rest: string)
    ensures ValueEnd(stack).Go?
    ensures m <= INT64_MAX ==>
              Feed(State(Num(sign, 0, false), stack), Decimal(m) + (['e'] + rest)) ==
              Then([Number(sign * m), End(NumberT)], |Decimal(m)| + 1, After(ValueEnd(stack), 0, rest))
    ensures m > INT64_MAX ==>
              Feed(State(Num(sign, 0, false), stack), Decimal(m) + (['e'] + rest)).rv == ERR_NUMBER_OUT_OF_RANGE
  {
    hide Feed, Decimal, ValueEnd;
    ValueEndGoes(stack);
    var o, n := ValueEnd(stack), sign * m;
    FeedDigits(sign, m, stack, ['e'] + rest);
    if m <= INT64_MAX {
      FeedCons(State(Num(sign, m, true), stack), 'e', rest);
      ThenThen([Number(n), End(NumberT)], 1, o.ev, 0, Feed(o.st, rest));
      ThenThen([], |Decimal(m)|, [Number(n), End(NumberT)], 1, After(o, 0, rest));
    }
  }

  lemma FeedInt(n: int, pos: Pos, stack: seq<Frame>, rest: string)
    requires pos == Value || pos == Initial
    ensures Verdict(Int(n), 0) == 0 ==>
              Feed(State(pos, stack), Encode(Int(n)) + rest)
                  == Then(Events(Int(n)), |Encode(Int(n))|, After(ValueEnd(stack), 0, rest))
    ensures Verdict(Int(n), 0) != 0 ==> Feed(State(pos, stack), Encode(Int(n)) + rest).rv == ERR_NUMBER_OUT_OF_RANGE
  {
    hide Feed, Decimal, ValueEnd, After;
    var m, sign := if n < 0 then -n else n, if n < 0 then -1 else 1;
    var digits := Decimal(m) + (['e'] + rest);
    var done := After(ValueEnd(stack), 0, rest);
    FeedMagnitude(sign, m, stack, rest);
    AfterBegin(pos, stack, (if n < 0 then ['-'] else []) + digits);
    if n < 0 {
      assert Encode(Int(n)) + rest == ['i'] + (['-'] + digits);
      AfterMinus(stack, digits);
      if m <= INT64_MAX {
        ThenThen([], 1, [Number(n), End(NumberT)], |Decimal(m)| + 1, done);
        ThenThen([Begin(NumberT)], 1, [] + [Number(n), End(NumberT)], |Decimal(m)| + 2, done);
      }
    } else {
      assert Encode(Int(n)) + rest == ['i'] + digits;
      assert [] + digits == digits;
      SignOrDigit(m, stack, ['e'] + rest);
      if m <= INT64_MAX {
        ThenThen([Begin(NumberT)], 1, [Number(n), End(NumberT)], |Decimal(m)| + 1, done);
      }
    }
  }

  lemma AfterBegin(pos: Pos, stack: seq<Frame>, rest: string)
    requires pos == Value || pos == Initial
    ensures Feed(State(pos, stack), ['i'] + rest) == Then([Begin(NumberT)], 1, Feed(State(NumSign, stack), rest))
  {
    hide Feed;
    FeedCons(State(pos, stack), 'i', rest);
  }

  lemma AfterMinus(stack: seq<Frame>, rest: string)
    ensures Feed(State(NumSign, stack), ['-'] + rest) == Then([], 1, Feed(State(Num(-1, 0, false), stack), rest))
  {
    hide Feed;
    FeedCons(State(NumSign, stack), '-', rest);
  }

  /** Without a sign, the first digit is read as if a plus sign had been there. */
  lemma SignOrDigit(m: nat, stack: seq<Frame>, rest: string)
    ensures Feed(State(NumSign, stack), Decimal(m) + rest) == Feed(State(Num(1, 0, false), stack), Decimal(m) + rest)
  {
    hide Feed;
    SplitFirst(Decimal(m), rest);
    var c, r := Decimal(m)[0], Decimal(m)[1..] + rest;
    assert c in Decimal(m);
    FeedCons(State(NumSign, stack), c, r);
    FeedCons(State(Num(1, 0, false), stack), c, r);
  }

  lemma FeedString(s: string, pos: Pos, stack: seq<Frame>, rest: string)
    requires pos == Value || pos == Initial
    requires InDictKey !in stack
    ensures |s| <= INT64_MAX ==>
              Feed(State(pos, stack), EncodeBytes(s) + rest) ==
              Then(Events(Bytes(s)), |EncodeBytes(s)|, After(ValueEnd(stack), 0, rest))
    ensures |s| > INT64_MAX ==> Feed(State(pos, stack), EncodeBytes(s) + rest).rv == ERR_STRING_LENGTH_OUT_OF_RANGE
  {
    hide Feed, Decimal, ValueEnd, Chars;
    ValueEndGoes(stack);
    var e := EncodeBytes(s);
    assert e[0] == Decimal(|s|)[0];
    SplitFirst(e, rest);
    var c, r := e[0], e[1..] + rest;
    FeedCons(State(pos, stack), c, r);
    FeedCons(State(StrLen(0, false), stack), c, r);
    FeedBytes(s, stack, rest);
    var o := ValueEnd(stack);
    var st := State(StrLen(DigitVal(c), true), stack);
    assert Feed(State(pos, stack), e + rest) == Then([Begin(StringT)], 1, Feed(st, r));
    ThenThen([Begin(StringT)], 0, [], 1, Feed(st, r));
    assert Feed(State(pos, stack), e + rest)
        == Then([Begin(StringT)], 0, Feed(State(StrLen(0, false), stack), e + rest));
    if |s| <= INT64_MAX {
      ThenThen([End(StringT)], 0, o.ev, 0, Feed(o.st, rest));
      ThenThen(Chars(s), |e|, [End(StringT)], 0, After(o, 0, rest));
      ThenThen([Begin(StringT)], 0, Chars(s) + [End(StringT)], |e|, After(o, 0, rest));
      assert [Begin(StringT)] + (Chars(s) + [End(StringT)]) == Events(Bytes(s));
    }
  }

  /**
   * A value's encoding, read where a value is expected: if no limit is exceeded, exactly the encoding is taken, the
   * value's callbacks are made and parsing goes on after the value; else the first limit exceeded is reported.
   */
  lemma {:induction false} FeedValue(v: Bencoded, pos: Pos, stack: seq<Frame>, rest: string)
    requires pos == Value || pos == Initial
    requires |stack| < MAX_STACK && InDictKey !in stack
    ensures Verdict(v, Room(stack)) == 0 ==>
              Feed(State(pos, stack), Encode(v) + rest) == Then(Events(v), |Encode(v)|, After(ValueEnd(stack), 0, rest))
    ensures Verdict(v, Room(stack)) != 0 ==> Feed(State(pos, stack), Encode(v) + rest).rv == Verdict(v, Room(stack))
    decreases v
  {
    hide Feed, ValueEnd, Decimal;
    match v
    case Int(n) => FeedInt(n, pos, stack, rest);
    case Bytes(s) => FeedString(s, pos, stack, rest);
    case Items(items) =>
      var tail := ['e'] + rest;
      assert Encode(v) + rest == ['l'] + (EncodeItems(items) + tail);
      FeedCons(State(pos, stack), 'l', EncodeItems(items) + tail);
      FeedItems(items, stack, tail);
      VerdictMeaning(v, Room(stack));
      if Verdict(v, Room(stack)) == 0 {
        FeedCons(State(List, stack), 'e', rest);
        ContainerEnd(ArrayT, stack, ItemEvents(items), |EncodeItems(items)|, ArrayT, rest);
      }
    case Dict(entries) =>
      var tail := ['e'] + rest;
      assert Encode(v) + rest == ['d'] + (EncodeEntries(entries) + tail);
      FeedCons(State(pos, stack), 'd', EncodeEntries(entries) + tail);
      FeedEntries(entries, stack, tail);
      VerdictMeaning(v, Room(stack));
      if Verdict(v, Room(stack)) == 0 {
        FeedCons(State(DictKey, stack), 'e', rest);
        ContainerEnd(DictT, stack, EntryEvents(entries), |EncodeEntries(entries)|, DictT, rest);
      }
  }

  lemma ContainerEnd(b: Elem, stack: seq<Frame>, inner: seq<Event>, k: nat, e: Elem, rest: string)
    ensures Then([Begin(b)], 1, Then(inner, k, After(Before([End(e)], ValueEnd(stack)), 1, rest)))
         == Then([Begin(b)] + inner + [End(e)], k + 2, After(ValueEnd(stack), 0, rest))
  {
    hide Feed, ValueEnd;
    ValueEndGoes(stack);
    var o := ValueEnd(stack);
    var r := After(o, 0, rest);
    ThenThen([End(e)], 1, o.ev, 0, Feed(o.st, rest));
    ThenThen(inner, k, [End(e)], 1, r);
    ThenThen([Begin(b)], 1, inner + [End(e)], k + 1, r);
    assert [Begin(b)] + (inner + [End(e)]) == [Begin(b)] + inner + [End(e)];
  }

  lemma {:induction false} FeedItems(items: ItemList, stack: seq<Frame>, rest: string)
    requires |stack| < MAX_STACK && InDictKey !in stack
    ensures ItemsVerdict(items, Room(stack)) == 0 ==>
              Feed(State(List, stack), EncodeItems(items) + rest) ==
              Then(ItemEvents(items), |EncodeItems(items)|, Feed(State(List, stack), rest))
    ensures ItemsVerdict(items, Room(stack)) != 0 ==>
              Feed(State(List, stack), EncodeItems(items) + rest).rv == ItemsVerdict(items, Room(stack))
    decreases items
  {
    hide Feed, Encode, Events;
    if items.NoItem? {
      assert EncodeItems(items) + rest == rest;
      ThenNothing(Feed(State(List, stack), rest));
    } else {
      var more := EncodeItems(items.tail) + rest;
      assert EncodeItems(items) + rest == Encode(items.head) + more;
      OpenItem(items.head, stack, more);
      if Room(stack) > 0 {
        var inner := stack + [InList];
        VerdictMeaning(items.head, Room(inner));
        FeedValue(items.head, Value, inner, more);
        if Verdict(items.head, Room(inner)) == 0 {
          FeedItems(items.tail, stack, rest);
          ItemsVerdictMeaning(items.tail, Room(stack));
          assert inner[..|inner| - 1] == stack;
          assert ValueEnd(inner) == Go(State(List, stack), [End(ArrayDataT)]);
          var k, r := |Encode(items.head)|, Feed(State(List, stack), more);
          ThenThen(Events(items.head), k, [End(ArrayDataT)], 0, r);
          ThenThen([Begin(ArrayDataT)], 0, Events(items.head) + [End(ArrayDataT)], k, r);
          assert [Begin(ArrayDataT)] + (Events(items.head) + [End(ArrayDataT)])
              == [Begin(ArrayDataT)] + Events(items.head) + [End(ArrayDataT)];
          ThenThen([Begin(ArrayDataT)] + Events(items.head) + [End(ArrayDataT)], k,
                   ItemEvents(items.tail), |EncodeItems(items.tail)|, Feed(State(List, stack), rest));
        }
      }
    }
  }

  lemma {:induction false} FeedEntries(entries: EntryList, stack: seq<Frame>, rest: string)
    requires |stack| < MAX_STACK && InDictKey !in stack
    ensures EntriesVerdict(entries, Room(stack)) == 0 ==>
              Feed(State(DictKey, stack), EncodeEntries(entries) + rest) ==
              Then(EntryEvents(entries), |EncodeEntries(entries)|, Feed(State(DictKey, stack), rest))
    ensures EntriesVerdict(entries, Room(stack)) != 0 ==>
              Feed(State(DictKey, stack), EncodeEntries(entries) + rest).rv == EntriesVerdict(entries, Room(stack))
    decreases entries
  {
    hide Feed, Encode, EncodeBytes, Events, Chars;
    if entries.NoEntry? {
      assert EncodeEntries(entries) + rest == rest;
      ThenNothing(Feed(State(DictKey, stack), rest));
    } else {
      var key, val := entries.key, entries.val;
      var more := EncodeEntries(entries.rest) + rest;
      assert EncodeEntries(entries) + rest == EncodeBytes(key) + (Encode(val) + more);
      OpenKey(key, stack, Encode(val) + more);
      if Room(stack) > 0 {
        var atKey, atVal := stack + [InDictKey], stack + [InDictVal];
        FeedBytes(key, atKey, Encode(val) + more);
        if |key| <= INT64_MAX {
          assert atKey[..|atKey| - 1] == stack;
          assert StringEnd(atKey) == Go(State(Value, atVal), [End(DictKeyT)] + [Begin(DictDataT)]);
          VerdictMeaning(val, Room(atVal));
          FeedValue(val, Value, atVal, more);
          if Verdict(val, Room(atVal)) == 0 {
            FeedEntries(entries.rest, stack, rest);
            EntriesVerdictMeaning(entries.rest, Room(stack));
            assert atVal[..|atVal| - 1] == stack;
            assert ValueEnd(atVal) == Go(State(DictKey, stack), [End(DictDataT)]);
            EntryChain(key, val, |EncodeBytes(key)|, |Encode(val)|, Feed(State(DictKey, stack), more));
            ThenThen(OneEntry(key, val), |EncodeBytes(key)| + |Encode(val)|,
                     EntryEvents(entries.rest), |EncodeEntries(entries.rest)|, Feed(State(DictKey, stack), rest));
          }
        }
      }
    }
  }

  function OneEntry(key: string, val: Bencoded): seq<Event> {
    [Begin(DictKeyT)] + Chars(key) + [End(DictKeyT)] + [Begin(DictDataT)] + Events(val) + [End(DictDataT)]
  }

  lemma EntryChain(key: string, val: Bencoded, i: nat, j: nat, r: Result)
    ensures Then([Begin(DictKeyT)], 0, Then(Chars(key), i, Then([End(DictKeyT)] + [Begin(DictDataT)], 0,
              Then(Events(val), j, Then([End(DictDataT)], 0, r))))) == Then(OneEntry(key, val), i + j, r)
  {
    hide Events, Chars;
    var a, b := Events(val) + [End(DictDataT)], [End(DictKeyT)] + [Begin(DictDataT)];
    ThenThen(Events(val), j, [End(DictDataT)], 0, r);
    ThenThen(b, 0, a, j, r);
    ThenThen(Chars(key), i, b + a, j, r);
    ThenThen([Begin(DictKeyT)], 0, Chars(key) + (b + a), i + j, r);
    assert [Begin(DictKeyT)] + (Chars(key) + (b + a)) == OneEntry(key, val);
  }

  /**
   * A fresh parser fed a value's encoding followed by any bytes: if elements nest at most 49 deep and numbers are in
   * range it takes exactly the encoding, makes exactly the value's callbacks and is finished; otherwise it fails.
   */
  lemma ParsesEncodings(v: Bencoded, rest: string)
    ensures Depth(v) <= 49 && InRange(v) ==>
              Feed(FRESH, Encode(v) + rest) == Result(State(Finish, []), Events(v), |Encode(v)|)
    ensures !(Depth(v) <= 49 && InRange(v)) ==>
              Feed(FRESH, Encode(v) + rest).rv == Verdict(v, 49) < 0
  {
    FeedValue(v, Initial, [], rest);
    VerdictMeaning(v, 49);
    assert Feed(State(Finish, []), rest) == Result(State(Finish, []), [], 0);
    assert Events(v) + ([] + []) == Events(v);
  }
}
