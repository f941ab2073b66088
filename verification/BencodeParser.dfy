/** The bencode parser as an object: it reads a buffer in runs of bytes, and refines the byte-wise transitions. */
module BencodeParser {
  import opened BencodeSpec
  import opened BencodeTheorems

  datatype Mode =
    | FINISH
    | ERROR
    | INITIAL
    | VALUE
    | DICT_KEY
    | DICT_VAL
    | LIST
    | STRING_LEN
    | STRING
    | NUMBER_SIGN
    | NUMBER
    | FLOAT_NUMBER_IGNORE

  /** A call of the structure state machine. */
  datatype Callback = BeginElement(elem: Elem) | EndElement(elem: Elem) | Characters(data: string) | NumberValue(n: int)

  function CharEvents(data: string): seq<Event> {
    if data == [] then [] else CharEvents(data[..|data| - 1]) + [Char(data[|data| - 1])]
  }

  function EventsOf(c: Callback): seq<Event> {
    match c
    case BeginElement(e) => [Begin(e)]
    case EndElement(e) => [End(e)]
    case Characters(data) => CharEvents(data)
    case NumberValue(n) => [Number(n)]
  }

  /** The calls with their character payloads joined byte by byte. */
  function Flatten(log: seq<Callback>): seq<Event> {
    if log == [] then [] else Flatten(log[..|log| - 1]) + EventsOf(log[|log| - 1])
  }

  function FrameOf(m: Mode): Frame {
    match m
    case DICT_KEY => InDictKey
    case DICT_VAL => InDictVal
    case _ => InList
  }

  function FramesOf(stack: seq<Mode>): (r: seq<Frame>)
    ensures |r| == if stack == [] then 0 else |stack| - 1
    ensures forall i :: 0 <= i < |r| ==> r[i] == FrameOf(stack[i + 1])
  {
    if |stack| <= 1 then [] else FramesOf(stack[..|stack| - 1]) + [FrameOf(stack[|stack| - 1])]
  }

  ghost predicate StackOk(stack: seq<Mode>) {
    && 1 <= |stack| <= MAX_STACK && stack[0] == FINISH
    && forall i :: 1 <= i < |stack| ==> stack[i] == LIST || stack[i] == DICT_KEY || stack[i] == DICT_VAL
  }

  class Parser {
    var currentState: Mode
    var stateStack: seq<Mode>
    var strLength: int
    var numberSign: int
    var number: int
    var numConsumed: nat
    var lastError: int
    var log: seq<Callback>

    function CurrentPos(): Pos
      reads this
    {
      match currentState
      case FINISH => Finish
      case ERROR => Error(lastError)
      case INITIAL => Initial
      case VALUE => Value
      case DICT_KEY => DictKey
      case DICT_VAL => Value
      case LIST => List
      case STRING_LEN => StrLen(strLength, numConsumed > 0)
      case STRING => Str(strLength)
      case NUMBER_SIGN => NumSign
      case NUMBER => Num(numberSign, number, numConsumed > 0)
      case FLOAT_NUMBER_IGNORE => Float
    }

    function View(): State
      reads this
    {
      State(CurrentPos(), FramesOf(stateStack))
    }

    ghost predicate CountersOk()
      reads this
    {
      && 0 <= strLength <= INT64_MAX && 0 <= number <= INT64_MAX && (numberSign == 1 || numberSign == -1)
    }

    /**
     * 64-bit counters in range, a stack of at most 50 entries over BENCODE_FINISH, and the invariant of the
     * transitions.
     */
    ghost predicate Valid()
      reads this
    {
      && CountersOk()
      && StackOk(stateStack)
      && currentState != DICT_VAL
      && (currentState == FLOAT_NUMBER_IGNORE ==> number == 0)
      && (currentState == NUMBER_SIGN ==> number == 0 && numConsumed == 0 && numberSign == 1)
      && Inv(View())
    }

    /** The callbacks so far nest, and the elements that are open are those the state says. */
    ghost predicate Nested()
      reads this
    {
      Replay([], Flatten(log)) == Open(OpenElems(View()))
    }

    constructor ()
      ensures Valid() && View() == FRESH && lastError == 0 && log == [] && Nested()
    {
      currentState, stateStack, log := INITIAL, [FINISH], [];
      strLength, numberSign, number, numConsumed, lastError := 0, 1, 0, 0, 0;
    }

    method Reset()
      requires Valid()
      modifies this
      ensures Valid() && View() == FRESH && lastError == 0 && log == [] && Nested()
    {
      log := [];
      currentState := INITIAL;
      lastError := 0;
      while stateStack != []
        modifies this`stateStack
        decreases |stateStack|
      {
        var _ := PopState();
      }
      stateStack := stateStack + [FINISH];
    }

    method PushState(state: Mode) returns (rv: int)
      modifies this`stateStack
      ensures |old(stateStack)| >= MAX_STACK ==> rv == ERR_STRUCTURE_TOO_DEEP && stateStack == old(stateStack)
      ensures |old(stateStack)| < MAX_STACK ==> rv == 0 && stateStack == old(stateStack) + [state]
    {
      if |stateStack| >= MAX_STACK {
        rv := ERR_STRUCTURE_TOO_DEEP;
      } else {
        stateStack := stateStack + [state];
        rv := 0;
      }
    }

    function StateTop(): Mode
      requires stateStack != []
      reads this
    {
      stateStack[|stateStack| - 1]
    }

    method PopState() returns (state: Mode)
      requires stateStack != []
      modifies this`stateStack
      ensures state == old(stateStack)[|old(stateStack)| - 1] && stateStack == old(stateStack)[..|old(stateStack)| - 1]
    {
      state := StateTop();
      stateStack := stateStack[..|stateStack| - 1];
    }

    method RunBegin(e: Elem)
      modifies this`log
      ensures log == old(log) + [BeginElement(e)]
    {
      log := log + [BeginElement(e)];
    }

    method RunEnd(e: Elem)
      modifies this`log
      ensures log == old(log) + [EndElement(e)]
    {
      log := log + [EndElement(e)];
    }

    /** The callbacks made since before are ev. */
    ghost predicate Called(before: seq<Callback>, ev: seq<Event>)
      reads this
    {
      Flatten(log) == Flatten(before) + ev
    }

    /** The object is where outcome o leads. */
    ghost predicate At(o: Outcome, before: seq<Callback>)
      reads this
    {
      Valid() && View() == o.st && Called(before, o.ev)
    }

    method OnValueEnd()
      requires StackOk(stateStack) && CountersOk()
      requires forall i :: 0 <= i < |FramesOf(stateStack)| - 1 ==> FramesOf(stateStack)[i] != InDictKey
      modifies this`currentState, this`stateStack, this`log
      ensures At(ValueEnd(FramesOf(old(stateStack))), old(log))
    {
      ghost var stack, before := stateStack, log;
      if StateTop() == DICT_KEY {
        var _ := PopState();
        var _ := PushState(DICT_VAL);
        currentState := VALUE;
        RunBegin(DictDataT);
      } else if StateTop() == DICT_VAL {
        RunEnd(DictDataT);
        var _ := PopState();
        currentState := DICT_KEY;
      } else if StateTop() == LIST {
        RunEnd(ArrayDataT);
        var _ := PopState();
        currentState := LIST;
      } else {
        assert StateTop() == FINISH;
        currentState := StateTop();
      }
      AtValueEnd(stack, before);
    }

    /** The four ways in which onValueEnd leaves the object are those of ValueEnd. */
    lemma AtValueEnd(stack: seq<Mode>, before: seq<Callback>)
      requires StackOk(stack) && CountersOk()
      requires forall i :: 0 <= i < |FramesOf(stack)| - 1 ==> FramesOf(stack)[i] != InDictKey
      requires var top, rest := stack[|stack| - 1], stack[..|stack| - 1];
        || (top == DICT_KEY && currentState == VALUE && stateStack == rest + [DICT_VAL]
            && log == before + [BeginElement(DictDataT)])
        || (top == DICT_VAL && currentState == DICT_KEY && stateStack == rest
            && log == before + [EndElement(DictDataT)])
        || (top == LIST && currentState == LIST && stateStack == rest && log == before + [EndElement(ArrayDataT)])
        || (top == FINISH && currentState == FINISH && stateStack == stack && log == before)
      ensures At(ValueEnd(FramesOf(stack)), before)
    {
      hide Flatten, FramesOf, Inv, ValueEnd, StackOk;
      var o := ValueEnd(FramesOf(stack));
      StackValueEnd(stack);
      ValueEndKeeps(FramesOf(stack));
      FlattenOne(before, BeginElement(DictDataT));
      FlattenOne(before, EndElement(DictDataT));
      FlattenOne(before, EndElement(ArrayDataT));
      assert Flatten(before) + [] == Flatten(before);
      assert View() == o.st;
    }

    lemma CalledThen(before: seq<Callback>, mid: seq<Callback>, a: seq<Event>, b: seq<Event>)
      requires Flatten(mid) == Flatten(before) + a && Called(mid, b)
      ensures Called(before, a + b)
    {
      hide Flatten;
      assert (Flatten(before) + a) + b == Flatten(before) + (a + b);
    }

    /** No frame but the top one may be that of a key being read. */
    ghost predicate MayEndValue()
      reads this
    {
      StackOk(stateStack) && CountersOk() &&
      forall i :: 0 <= i < |FramesOf(stateStack)| - 1 ==> FramesOf(stateStack)[i] != InDictKey
    }

    method OnStringEnd()
      requires MayEndValue()
      modifies this`currentState, this`stateStack, this`log
      ensures At(StringEnd(FramesOf(old(stateStack))), old(log))
    {
      hide Flatten, FramesOf, Inv, ValueEnd;
      FramesTop(stateStack);
      ghost var before := log;
      var e := if StateTop() == DICT_KEY then DictKeyT else StringT;
      RunEnd(e);
      FlattenOne(before, EndElement(e));
      ghost var mid := log;
      OnValueEnd();
      ValueEndGoes(FramesOf(old(stateStack)));
      CalledThen(before, mid, [End(e)], ValueEnd(FramesOf(old(stateStack))).ev);
    }

    method OnNumberEnd()
      requires MayEndValue()
      modifies this`currentState, this`stateStack, this`log
      ensures At(NumberEnd(FramesOf(old(stateStack)), old(numberSign * number)), old(log))
    {
      hide Flatten, FramesOf, Inv, ValueEnd;
      ghost var before, n := log, numberSign * number;
      log := log + [NumberValue(numberSign * number)];
      FlattenOne(before, NumberValue(n));
      ghost var mid := log;
      RunEnd(NumberT);
      FlattenOne(mid, EndElement(NumberT));
      ghost var late := log;
      assert Flatten(late) == Flatten(before) + ([Number(n)] + [End(NumberT)]);
      OnValueEnd();
      ValueEndGoes(FramesOf(old(stateStack)));
      CalledThen(before, late, [Number(n)] + [End(NumberT)], ValueEnd(FramesOf(old(stateStack))).ev);
      assert [Number(n)] + [End(NumberT)] == [Number(n), End(NumberT)];
    }

    method OnContainerEnd(e: Elem)
      requires MayEndValue()
      modifies this`currentState, this`stateStack, this`log
      ensures At(Before([End(e)], ValueEnd(FramesOf(old(stateStack)))), old(log))
    {
      hide Flatten, FramesOf, Inv, ValueEnd;
      ghost var before := log;
      RunEnd(e);
      FlattenOne(before, EndElement(e));
      ghost var mid := log;
      OnValueEnd();
      ValueEndGoes(FramesOf(old(stateStack)));
      CalledThen(before, mid, [End(e)], ValueEnd(FramesOf(old(stateStack))).ev);
    }

    /** The object did what outcome o says, and answered with its code. */
    ghost predicate Did(o: Outcome, before: seq<Callback>, rv: int)
      reads this
    {
      At(o, before) && rv == if o.Fail? then o.code else 0
    }

    /** One byte where a value is expected. */
    method ValueChar(c: char) returns (rv: int)
      requires Valid() && (currentState == VALUE || currentState == INITIAL)
      modifies this
      ensures Did(ValueStep(FramesOf(old(stateStack)), c), old(log), rv)
    {
      hide Flatten, FramesOf, Inv, StackOk;
      ghost var before := log;
      NoKeyFrames(View());
      FramesTop(stateStack);
      ValueStepKeeps(FramesOf(stateStack), c);
      ghost var o := ValueStep(FramesOf(stateStack), c);
      rv := 0;
      if c == 'd' {
        currentState := DICT_KEY;
        RunBegin(DictT);
        FlattenOne(before, BeginElement(DictT));
        assert View() == o.st;
      } else if c == 'l' {
        currentState := LIST;
        RunBegin(ArrayT);
        FlattenOne(before, BeginElement(ArrayT));
        assert View() == o.st;
      } else if c == 'i' {
        number := 0;
        numberSign := 1;
        numConsumed := 0;
        currentState := NUMBER_SIGN;
        RunBegin(NumberT);
        FlattenOne(before, BeginElement(NumberT));
        assert View() == o.st;
      } else if IsDigit(c) {
        strLength := DigitVal(c);
        numConsumed := 1;
        currentState := STRING_LEN;
        RunBegin(StringT);
        FlattenOne(before, BeginElement(StringT));
        assert View() == o.st;
      } else {
        currentState := ERROR;
        lastError := ERR_UNEXPECTED_CHAR_BEFORE_VAL;
        rv := lastError;
        assert Flatten(before) + [] == Flatten(before);
        assert View() == o.st;
      }
    }

    method ListChar(c: char) returns (rv: int)
      requires Valid() && currentState == LIST
      modifies this
      ensures Did(Step(old(View()), c), old(log), rv)
    {
      hide Flatten, FramesOf, ValueEnd, ValueStep, Inv;
      ghost var before := log;
      FramesTop(stateStack);
      NoKeyFrames(View());
      rv := 0;
      if c == 'e' {
        ValueEndGoes(FramesOf(stateStack));
        OnContainerEnd(ArrayT);
      } else {
        FramesPush(stateStack, LIST);
        OpenedKeeps(FramesOf(stateStack));
        rv := PushState(currentState);
        if rv < 0 {
          assert Flatten(before) + [] == Flatten(before);
          return;
        }
        currentState := VALUE;
        RunBegin(ArrayDataT);
        FlattenOne(before, BeginElement(ArrayDataT));
        ghost var mid := log;
        rv := ValueChar(c);
        ghost var o := ValueStep(FramesOf(old(stateStack)) + [InList], c);
        CalledThen(before, mid, [Begin(ArrayDataT)], o.ev);
      }
    }

    /** Bytes i to j of data were read with the effect, on the byte-wise reading, of callbacks ev and the new state. */
    ghost predicate Ran(s: State, data: string, i: nat, j: nat, rv: int, ev: seq<Event>, before: seq<Callback>)
      reads this
    {
      && Valid() && Called(before, ev) && i <= |data|
      && (rv == 0 ==>
          currentState != ERROR && i < j <= |data| && Feed(s, data[i..]) == Then(ev, j - i, Feed(View(), data[j..])))
      && (rv != 0 ==> rv < 0 && Feed(s, data[i..]) == Result(View(), ev, rv))
    }

    /** A state that reads one byte at a time. */
    lemma RanOne(s: State, data: string, i: nat, before: seq<Callback>, rv: int)
      requires Inv(s) && !s.pos.Error? && !s.pos.Finish? && i < |data|
      requires Did(Step(s, data[i]), before, rv)
      ensures Ran(s, data, i, i + 1, rv, Step(s, data[i]).ev, before)
    {
      hide Step, Flatten, Inv;
      StepKeeps(s, data[i]);
      FeedAt(s, data, i);
    }

    /** The digits of a length: j is where they end, or where they overflow. */
    method LengthDigits(data: string, i: nat) returns (j: nat, rv: int)
      requires Valid() && currentState == STRING_LEN && i <= |data|
      modifies this`strLength, this`currentState, this`lastError
      ensures i <= j <= |data| && Valid()
      ensures rv == 0 ==> currentState == STRING_LEN && (j < |data| ==> !IsDigit(data[j])) &&
                          Feed(old(View()), data[i..]) ==
                          Then([], j - i,
                              Feed(State(StrLen(strLength, numConsumed > 0 || j > i), FramesOf(stateStack)), data[j..]))
      ensures rv != 0 ==> rv < 0 && Feed(old(View()), data[i..]) == Result(View(), [], rv)
    {
      hide FramesOf, StackOk, Feed, Inv, Step;
      ghost var s, frames := View(), FramesOf(stateStack);
      j, rv := i, 0;
      CountingKeeps(s);
      ThenNothing(Feed(s, data[i..]));
      while j < |data| && IsDigit(data[j])
        invariant i <= j <= |data| && 0 <= strLength <= INT64_MAX && currentState == STRING_LEN
        invariant Feed(s, data[i..]) ==
                  Then([], j - i, Feed(State(StrLen(strLength, numConsumed > 0 || j > i), frames), data[j..]))
      {
        CountLengthDigit(strLength, numConsumed > 0 || j > i, frames, data, j);
        if Overflows(strLength, DigitVal(data[j])) {
          currentState := ERROR;
          lastError := ERR_STRING_LENGTH_OUT_OF_RANGE;
          return j, lastError;
        }
        strLength := strLength * 10;
        strLength := strLength + DigitVal(data[j]);
        ThenThen([], j - i, [], 1, Feed(State(StrLen(strLength, true), frames), data[j + 1..]));
        j := j + 1;
      }
    }

    /** The byte after a length. */
    method LengthEnd(c: char) returns (rv: int)
      requires Valid() && currentState == STRING_LEN && !IsDigit(c)
      modifies this
      ensures Did(Step(old(View()), c), old(log), rv)
    {
      hide Flatten, FramesOf, StackOk, ValueEnd, Inv;
      ghost var before, s, frames := log, View(), FramesOf(stateStack);
      StepKeeps(s, c);
      assert Flatten(before) + [] == Flatten(before);
      rv := 0;
      if c != ':' || numConsumed == 0 {
        currentState := ERROR;
        lastError := ERR_INVALID_STRING_LENGTH;
        return lastError;
      }
      currentState := STRING;
      if strLength == 0 {
        ValueEndGoes(frames);
        log := log + [Characters([])];
        FlattenOne(before, Characters([]));
        MayEnd(s);
        OnStringEnd();
      }
    }

    lemma MayEnd(s: State)
      requires Inv(s) && s.stack == FramesOf(stateStack) && StackOk(stateStack) && CountersOk()
      ensures MayEndValue() && !ValueEnd(s.stack).st.pos.Error?
    {
      ValueEndKeeps(s.stack);
    }

    /** What was read before position j, without callbacks, goes before what is read from there. */
    lemma RanAfter(s: State, data: string, i: nat, j: nat, t: State, next: nat, rv: int, ev: seq<Event>,
        before: seq<Callback>)
      requires i <= j <= |data| && Feed(s, data[i..]) == Then([], j - i, Feed(t, data[j..]))
      requires Ran(t, data, j, next, rv, ev, before)
      ensures Ran(s, data, i, next, rv, ev, before)
    {
      hide Feed, Flatten;
      assert [] + ev == ev;
      if rv == 0 {
        ThenThen([], j - i, ev, next - j, Feed(View(), data[next..]));
      }
    }

    /** STRING_LEN: a run of digits and, if it ends inside the data, the colon. */
    method ReadLength(data: string, i: nat) returns (next: nat, rv: int, ghost ev: seq<Event>)
      requires Valid() && currentState == STRING_LEN && i < |data|
      modifies this
      ensures Ran(old(View()), data, i, next, rv, ev, old(log))
    {
      hide Flatten, FramesOf, StackOk, Feed, Inv, Step;
      ghost var before, s := log, View();
      assert Flatten(before) + [] == Flatten(before);
      var j;
      j, rv := LengthDigits(data, i);
      ev, next := [], j;
      if rv == 0 {
        CountingKeeps(View());
        numConsumed := numConsumed + (j - i);
        if j < |data| {
          ghost var t := View();
          rv := LengthEnd(data[j]);
          RanOne(t, data, j, before, rv);
          ev := Step(t, data[j]).ev;
          next := j + 1;
          RanAfter(s, data, i, j, t, next, rv, ev, before);
        }
      }
    }

    /** DICT_KEY: the end of the dictionary, or the first byte of a key, read as a length. */
    method ReadKey(data: string, i: nat) returns (next: nat, rv: int, ghost ev: seq<Event>)
      requires Valid() && currentState == DICT_KEY && i < |data|
      modifies this
      ensures Ran(old(View()), data, i, next, rv, ev, old(log))
    {
      hide Flatten, FramesOf, ValueEnd, Feed, Inv, StackOk;
      ghost var before, s, frames := log, View(), FramesOf(stateStack);
      var c := data[i];
      FramesTop(stateStack);
      NoKeyFrames(s);
      FeedAt(s, data, i);
      next, rv, ev := i + 1, 0, Step(s, c).ev;
      if c == 'e' {
        ValueEndGoes(frames);
        MayEnd(s);
        OnContainerEnd(DictT);
        RanOne(s, data, i, before, 0);
      } else {
        assert Flatten(before) + [] == Flatten(before);
        FramesPush(stateStack, DICT_KEY);
        OpenedKeeps(frames);
        rv := PushState(currentState);
        if rv < 0 {
          return;
        }
        strLength := 0;
        numConsumed := 0;
        RunBegin(DictKeyT);
        FlattenOne(before, BeginElement(DictKeyT));
        currentState := STRING_LEN;
        ghost var mid, t := log, View();
        ghost var more;
        StackPush(old(stateStack), DICT_KEY);
        next, rv, more := ReadLength(data, i);
        ev := [Begin(DictKeyT)] + more;
        CalledThen(before, mid, [Begin(DictKeyT)], more);
        KeyOpens(s, data, i);
        if rv == 0 {
          ThenThen([Begin(DictKeyT)], 0, more, next - i, Feed(View(), data[next..]));
        }
      }
    }

    /** STRING: as much of the payload as the data holds. */
    method ReadString(data: string, i: nat) returns (next: nat, ghost ev: seq<Event>)
      requires Valid() && currentState == STRING && i < |data|
      modifies this
      ensures Ran(old(View()), data, i, next, 0, ev, old(log))
    {
      hide Flatten, FramesOf, ValueEnd, Feed, StackOk, CharEvents, Inv;
      ghost var before, s, frames := log, View(), FramesOf(stateStack);
      StringLeft(s);
      var nread := if |data| - i < strLength then |data| - i else strLength;
      next := i + nread;
      PayloadRun(s, data, i, nread);
      ev := CharEvents(data[i..next]);
      log := log + [Characters(data[i..next])];
      FlattenOne(before, Characters(data[i..next]));
      strLength := strLength - nread;
      if strLength == 0 {
        ghost var mid := log;
        ValueEndGoes(frames);
        MayEnd(s);
        OnStringEnd();
        CalledThen(before, mid, ev, StringEnd(frames).ev);
        ev := ev + StringEnd(frames).ev;
      }
    }

    method SignChar(c: char)
      requires Valid() && currentState == NUMBER_SIGN
      modifies this
      ensures Did(Step(old(View()), c), old(log), 0)
    {
      hide Flatten, FramesOf, Inv;
      StepKeeps(View(), c);
      assert Flatten(log) + [] == Flatten(log);
      if c == '+' {
        numberSign := 1;
        currentState := NUMBER;
      } else if c == '-' {
        numberSign := -1;
        currentState := NUMBER;
      } else if IsDigit(c) {
        number := DigitVal(c);
        numConsumed := 1;
        currentState := NUMBER;
      }
    }

    /** The digits of a number: j is where they end, or where they overflow. */
    method NumberDigits(data: string, i: nat) returns (j: nat, rv: int)
      requires Valid() && currentState == NUMBER && i <= |data|
      modifies this`number, this`currentState, this`lastError
      ensures i <= j <= |data| && Valid()
      ensures rv == 0 ==> currentState == NUMBER && (j < |data| ==> !IsDigit(data[j])) &&
                          Feed(old(View()), data[i..]) ==
                          Then([], j - i, Feed(State(Num(numberSign, number, numConsumed > 0 || j > i),
                              FramesOf(stateStack)), data[j..]))
      ensures rv != 0 ==> rv < 0 && Feed(old(View()), data[i..]) == Result(View(), [], rv)
    {
      hide FramesOf, StackOk, Feed, Inv, Step;
      ghost var s, frames := View(), FramesOf(stateStack);
      j, rv := i, 0;
      CountingKeeps(s);
      ThenNothing(Feed(s, data[i..]));
      while j < |data| && IsDigit(data[j])
        invariant i <= j <= |data| && 0 <= number <= INT64_MAX && currentState == NUMBER
        invariant Feed(s, data[i..]) ==
                  Then([], j - i, Feed(State(Num(numberSign, number, numConsumed > 0 || j > i), frames), data[j..]))
      {
        CountNumberDigit(numberSign, number, numConsumed > 0 || j > i, frames, data, j);
        if Overflows(number, DigitVal(data[j])) {
          currentState := ERROR;
          lastError := ERR_NUMBER_OUT_OF_RANGE;
          return j, lastError;
        }
        number := number * 10;
        number := number + DigitVal(data[j]);
        ThenThen([], j - i, [], 1, Feed(State(Num(numberSign, number, true), frames), data[j + 1..]));
        j := j + 1;
      }
    }

    /** The byte after a number's digits. */
    method NumberLast(c: char) returns (rv: int)
      requires Valid() && currentState == NUMBER && !IsDigit(c)
      modifies this
      ensures Did(Step(old(View()), c), old(log), rv)
    {
      hide Flatten, FramesOf, StackOk, ValueEnd, Inv;
      ghost var before, s, frames := log, View(), FramesOf(stateStack);
      StepKeeps(s, c);
      assert Flatten(before) + [] == Flatten(before);
      rv := 0;
      if numConsumed == 0 {
        currentState := ERROR;
        lastError := ERR_INVALID_NUMBER;
        return lastError;
      }
      if IsDigit(c) || c == '.' || c == 'E' || c == '+' || c == '-' {
        number := 0;
        numConsumed := 0;
        currentState := FLOAT_NUMBER_IGNORE;
      } else if c != 'e' {
        currentState := ERROR;
        lastError := ERR_INVALID_NUMBER;
        return lastError;
      } else {
        ValueEndGoes(frames);
        MayEnd(s);
        OnNumberEnd();
      }
    }

    /** NUMBER: a run of digits and, if it ends inside the data, the byte after it. */
    method ReadNumber(data: string, i: nat) returns (next: nat, rv: int, ghost ev: seq<Event>)
      requires Valid() && currentState == NUMBER && i < |data|
      modifies this
      ensures Ran(old(View()), data, i, next, rv, ev, old(log))
    {
      hide Flatten, FramesOf, StackOk, Feed, Inv, Step;
      ghost var before, s := log, View();
      assert Flatten(before) + [] == Flatten(before);
      var j;
      j, rv := NumberDigits(data, i);
      ev, next := [], j;
      if rv == 0 {
        CountingKeeps(View());
        numConsumed := numConsumed + (j - i);
        if j < |data| {
          ghost var t := View();
          rv := NumberLast(data[j]);
          RanOne(t, data, j, before, rv);
          ev := Step(t, data[j]).ev;
          next := j + 1;
          RanAfter(s, data, i, j, t, next, rv, ev, before);
        }
      }
    }

    method FloatChar(c: char) returns (rv: int)
      requires Valid() && currentState == FLOAT_NUMBER_IGNORE
      modifies this
      ensures Did(Step(old(View()), c), old(log), rv)
    {
      hide Flatten, FramesOf, StackOk, ValueEnd, Inv;
      ghost var before, s, frames := log, View(), FramesOf(stateStack);
      StepKeeps(s, c);
      assert Flatten(before) + [] == Flatten(before);
      rv := 0;
      if IsDigit(c) || c == '.' || c == 'E' || c == '+' || c == '-' {
        return;
      }
      if c != 'e' {
        currentState := ERROR;
        lastError := ERR_INVALID_FLOAT_NUMBER;
        return lastError;
      }
      ValueEndGoes(frames);
      MayEnd(s);
      assert numberSign * number == 0;
      OnNumberEnd();
    }

    /** One round of parseUpdate's loop; next is the position of the byte after those it took. */
    method Round(data: string, i: nat) returns (next: nat, rv: int, ghost ev: seq<Event>)
      requires Valid() && currentState != FINISH && currentState != ERROR && i < |data|
      modifies this
      ensures Ran(old(View()), data, i, next, rv, ev, old(log))
    {
      hide Flatten, FramesOf, StackOk, Feed, Inv, Ran, ValueStep;
      ghost var before, s := log, View();
      var c := data[i];
      next, rv, ev := i + 1, 0, Step(s, c).ev;
      if currentState == LIST {
        rv := ListChar(c);
        RanOne(s, data, i, before, rv);
      } else if currentState == INITIAL || currentState == VALUE {
        rv := ValueChar(c);
        RanOne(s, data, i, before, rv);
      } else if currentState == DICT_KEY {
        next, rv, ev := ReadKey(data, i);
      } else if currentState == STRING_LEN {
        next, rv, ev := ReadLength(data, i);
      } else if currentState == STRING {
        next, ev := ReadString(data, i);
      } else if currentState == NUMBER_SIGN {
        SignChar(c);
        RanOne(s, data, i, before, 0);
      } else if currentState == NUMBER {
        next, rv, ev := ReadNumber(data, i);
      } else {
        rv := FloatChar(c);
        RanOne(s, data, i, before, rv);
      }
    }

    /**
     * parseUpdate. Whatever runs of bytes it takes at once, the answer, the state and the callbacks are those of
     * feeding the data byte by byte.
     */
    method ParseUpdate(data: string) returns (rv: int)
      requires Valid()
      modifies this
      ensures Valid()
      ensures View() == Feed(old(View()), data).st && rv == Feed(old(View()), data).rv
      ensures Flatten(log) == Flatten(old(log)) + Feed(old(View()), data).ev
      ensures old(Nested()) ==> Nested()
    {
      hide Flatten, FramesOf, StackOk, Inv, Step, Replay, OpenElems;
      ghost var before, s := log, View();
      assert Flatten(before) + [] == Flatten(before);
      if Nested() {
        NestsOn(Flatten(before), s, data);
      }
      if currentState == FINISH {
        return 0;
      } else if currentState == ERROR {
        return lastError;
      }
      var i := 0;
      ghost var ev: seq<Event> := [];
      assert data[0..] == data;
      ThenNothing(Feed(s, data));
      while i < |data| && currentState != FINISH
        invariant i <= |data| && Valid() && currentState != ERROR
        invariant Flatten(log) == Flatten(before) + ev
        invariant Feed(s, data) == Then(ev, i, Feed(View(), data[i..]))
        decreases |data| - i
      {
        ghost var more, at, mid := [], i, log;
        i, rv, more := Round(data, i);
        CalledThen(before, mid, ev, more);
        if rv < 0 {
          return;
        }
        ThenThen(ev, at, more, i - at, Feed(View(), data[i..]));
        ev := ev + more;
      }
      assert Feed(View(), data[i..]) == Result(View(), [], 0);
      assert ev + [] == ev;
      rv := i;
    }

    /** parseFinal: nothing more will come, so a value must be complete or not have begun. */
    method ParseFinal(data: string) returns (rv: int)
      requires Valid()
      modifies this
      ensures Valid() && View() == Feed(old(View()), data).st
      ensures Flatten(log) == Flatten(old(log)) + Feed(old(View()), data).ev
      ensures var taken := Feed(old(View()), data).rv;
        rv == if taken >= 0 && !View().pos.Finish? && !View().pos.Initial? then ERR_PREMATURE_DATA else taken
      ensures old(Nested()) ==> Nested()
    {
      rv := ParseUpdate(data);
      if rv >= 0 {
        if currentState != FINISH && currentState != INITIAL {
          rv := ERR_PREMATURE_DATA;
        }
      }
    }
  }

  /** ValueEnd on a stack of modes. */
  lemma StackValueEnd(stack: seq<Mode>)
    requires StackOk(stack)
    ensures |FramesOf(stack)| < MAX_STACK
    ensures var top, rest, o := stack[|stack| - 1], stack[..|stack| - 1], ValueEnd(FramesOf(stack));
      && (top == DICT_KEY ==>
          StackOk(rest + [DICT_VAL]) && o == Go(State(Value, FramesOf(rest + [DICT_VAL])), [Begin(DictDataT)]))
      && (top == DICT_VAL ==> StackOk(rest) && o == Go(State(DictKey, FramesOf(rest)), [End(DictDataT)]))
      && (top == LIST ==> StackOk(rest) && o == Go(State(List, FramesOf(rest)), [End(ArrayDataT)]))
      && (top == FINISH ==> o == Go(State(Finish, FramesOf(stack)), []))
  {
    hide FramesOf;
    var top, rest, frames := stack[|stack| - 1], stack[..|stack| - 1], FramesOf(stack);
    FramesTop(stack);
    FramesPush(rest, DICT_VAL);
    if |stack| > 1 {
      assert frames[..|frames| - 1] == FramesOf(rest);
    }
  }

  lemma FlattenOne(log: seq<Callback>, c: Callback)
    ensures Flatten(log + [c]) == Flatten(log) + EventsOf(c)
  {
  }

  /** The bottom entry of the stack is no frame; the others are frames, the top one last. */
  lemma FramesTop(stack: seq<Mode>)
    requires StackOk(stack)
    ensures |stack| == 1 ==> FramesOf(stack) == []
    ensures |stack| > 1 ==> StackOk(stack[..|stack| - 1])
    ensures |stack| > 1 ==> FramesOf(stack) == FramesOf(stack[..|stack| - 1]) + [FrameOf(stack[|stack| - 1])]
    ensures |FramesOf(stack)| == |stack| - 1 && (|stack| > 1 <==> stack[|stack| - 1] != FINISH)
  {
  }

  lemma FramesPush(stack: seq<Mode>, m: Mode)
    ensures stack != [] ==> FramesOf(stack + [m]) == FramesOf(stack) + [FrameOf(m)]
  {
    assert (stack + [m])[..|stack|] == stack;
  }

  lemma OpenedKeeps(stack: seq<Frame>)
    requires |stack| < MAX_STACK && InDictKey !in stack
    ensures Inv(State(List, stack)) && Inv(State(DictKey, stack))
    ensures !Full(stack) ==> Inv(State(Value, stack + [InList])) && Inv(State(StrLen(0, false), stack + [InDictKey]))
  {
  }

  /** While a length or number is read, its value may be anything in range, or overflow. */
  lemma CountingKeeps(s: State)
    requires Inv(s)
    ensures s.pos.StrLen? ==> forall n, any :: 0 <= n <= INT64_MAX ==> Inv(State(StrLen(n, any), s.stack))
    ensures s.pos.Num? ==> forall n, any :: 0 <= n <= INT64_MAX ==> Inv(State(Num(s.pos.sign, n, any), s.stack))
    ensures forall code :: code < 0 ==> Inv(State(Error(code), s.stack))
  {
  }

  /** Feed over the byte at position i. */
  lemma FeedAt(s: State, data: string, i: nat)
    requires i < |data| && !s.pos.Error? && !s.pos.Finish?
    ensures Step(s, data[i]).Go? ==>
      Feed(s, data[i..]) == Then(Step(s, data[i]).ev, 1, Feed(Step(s, data[i]).st, data[i + 1..]))
    ensures Step(s, data[i]).Fail? ==>
      Feed(s, data[i..]) == Result(Step(s, data[i]).st, Step(s, data[i]).ev, Step(s, data[i]).code)
  {
    hide Step;
    assert data[i..][0] == data[i] && data[i..][1..] == data[i + 1..];
  }

  lemma StackPush(stack: seq<Mode>, m: Mode)
    requires StackOk(stack) && |stack| < MAX_STACK && (m == LIST || m == DICT_KEY || m == DICT_VAL)
    ensures StackOk(stack + [m])
  {
  }

  lemma StringLeft(s: State)
    requires Inv(s)
    ensures s.pos.Str? ==> 0 < s.pos.left <= INT64_MAX
    ensures s.pos.Str? ==> forall n :: 0 < n <= INT64_MAX ==> Inv(State(Str(n), s.stack))
  {
  }

  /** The first byte of a key is read both as opening the key and as part of its length. */
  lemma KeyOpens(s: State, data: string, i: nat)
    requires i < |data| && s.pos.DictKey? && data[i] != 'e' && !Full(s.stack)
    ensures Feed(s, data[i..])
      == Then([Begin(DictKeyT)], 0, Feed(State(StrLen(0, false), s.stack + [InDictKey]), data[i..]))
  {
    hide Feed;
    var t := State(StrLen(0, false), s.stack + [InDictKey]);
    var o := LengthStep(t.stack, 0, false, data[i]);
    FeedAt(s, data, i);
    FeedAt(t, data, i);
    if o.Go? {
      ThenThen([Begin(DictKeyT)], 0, o.ev, 1, Feed(o.st, data[i + 1..]));
    }
  }

  /** A run of payload bytes. */
  lemma {:induction false} PayloadRun(s: State, data: string, i: nat, n: nat)
    requires s.pos.Str? && 0 < n <= s.pos.left && i + n <= |data|
    ensures n < s.pos.left ==>
              Feed(s, data[i..])
                  == Then(CharEvents(data[i..i + n]), n, Feed(State(Str(s.pos.left - n), s.stack), data[i + n..]))
    ensures StringEnd(s.stack).Go?
    ensures n == s.pos.left ==>
              Feed(s, data[i..]) ==
              Then(CharEvents(data[i..i + n]) + StringEnd(s.stack).ev, n, Feed(StringEnd(s.stack).st, data[i + n..]))
    decreases n
  {
    hide Feed, ValueEnd;
    ValueEndGoes(s.stack);
    var o := StringEnd(s.stack);
    var last := data[i + n - 1];
    assert data[i..i + n][..n - 1] == data[i..i + n - 1];
    if n == 1 {
      FeedAt(s, data, i);
      assert CharEvents(data[i..i + 1]) == [Char(last)] by { assert CharEvents(data[i..i + 1][..0]) == []; }
    } else {
      PayloadRun(s, data, i, n - 1);
      var t := State(Str(s.pos.left - (n - 1)), s.stack);
      FeedAt(t, data, i + n - 1);
      var front := CharEvents(data[i..i + n - 1]);
      if n < s.pos.left {
        ThenThen(front, n - 1, [Char(last)], 1, Feed(State(Str(s.pos.left - n), s.stack), data[i + n..]));
      } else {
        ThenThen(front, n - 1, [Char(last)] + o.ev, 1, Feed(o.st, data[i + n..]));
        assert front + ([Char(last)] + o.ev) == (front + [Char(last)]) + o.ev;
      }
    }
  }

  lemma CountLengthDigit(len: int, any: bool, stack: seq<Frame>, data: string, j: nat)
    requires j < |data| && IsDigit(data[j])
    ensures Feed(State(StrLen(len, any), stack), data[j..]) ==
            if Overflows(len, DigitVal(data[j]))
            then Result(State(Error(ERR_STRING_LENGTH_OUT_OF_RANGE), stack), [], ERR_STRING_LENGTH_OUT_OF_RANGE)
            else Then([], 1, Feed(State(StrLen(10 * len + DigitVal(data[j]), true), stack), data[j + 1..]))
  {
    hide Feed;
    FeedAt(State(StrLen(len, any), stack), data, j);
  }

  lemma CountNumberDigit(sign: int, n: int, any: bool, stack: seq<Frame>, data: string, j: nat)
    requires j < |data| && IsDigit(data[j])
    ensures Feed(State(Num(sign, n, any), stack), data[j..]) ==
            if Overflows(n, DigitVal(data[j]))
            then Result(State(Error(ERR_NUMBER_OUT_OF_RANGE), stack), [], ERR_NUMBER_OUT_OF_RANGE)
            else Then([], 1, Feed(State(Num(sign, 10 * n + DigitVal(data[j]), true), stack), data[j + 1..]))
  {
    hide Feed;
    FeedAt(State(Num(sign, n, any), stack), data, j);
  }
}
