/** What the bencode parser promises: fragmentation does not matter, callbacks nest, and encodings are read back. */
module BencodeTheorems {
  import opened BencodeSpec

  lemma ThenThen(a: seq<Event>, i: nat, b: seq<Event>, j: nat, r: Result)
    ensures Then(a, i, Then(b, j, r)) == Then(a + b, i + j, r)
  {
    assert a + (b + r.ev) == (a + b) + r.ev;
  }

  lemma ThenNothing(r: Result)
    ensures Then([], 0, r) == r
  {
    assert [] + r.ev == r.ev;
  }

  // ----- invariant -----

  lemma ValueEndGoes(stack: seq<Frame>)
    ensures ValueEnd(stack).Go?
  {
  }

  lemma ValueEndKeeps(stack: seq<Frame>)
    requires |stack| < MAX_STACK && forall i :: 0 <= i < |stack| - 1 ==> stack[i] != InDictKey
    ensures ValueEnd(stack).Go? && Inv(ValueEnd(stack).st) && !ValueEnd(stack).st.pos.Error?
  {
  }

  /** An outcome keeps the invariant; it fails with a negative code and goes on outside the error state. */
  ghost predicate Keeps(o: Outcome) {
    Inv(o.st) && (o.Fail? ==> o.code < 0) && (o.Go? ==> !o.st.pos.Error?)
  }

  lemma LengthStepKeeps(stack: seq<Frame>, len: int, any: bool, c: char)
    requires |stack| < MAX_STACK && forall i :: 0 <= i < |stack| - 1 ==> stack[i] != InDictKey
    requires 0 <= len <= INT64_MAX
    ensures Keeps(LengthStep(stack, len, any, c))
  {
    hide ValueEnd;
    ValueEndKeeps(stack);
  }

  lemma ValueStepKeeps(stack: seq<Frame>, c: char)
    requires |stack| < MAX_STACK && InDictKey !in stack
    ensures Keeps(ValueStep(stack, c))
  {
  }

  lemma NoKeyFrames(s: State)
    requires Inv(s) && !s.pos.StrLen? && !s.pos.Str? && !s.pos.Error?
    ensures |s.stack| < MAX_STACK && InDictKey !in s.stack
  {
  }

  lemma StepKeeps(s: State, c: char)
    requires Inv(s)
    ensures Keeps(Step(s, c))
  {
    hide ValueEnd, LengthStep, ValueStep;
    ValueEndKeeps(s.stack);
    match s.pos
    case List =>
      NoKeyFrames(s);
      if !Full(s.stack) { ValueStepKeeps(s.stack + [InList], c); }
    case DictKey =>
      NoKeyFrames(s);
      if !Full(s.stack) { LengthStepKeeps(s.stack + [InDictKey], 0, false, c); }
    case Initial => ValueStepKeeps(s.stack, c);
    case Value =>
      NoKeyFrames(s);
      ValueStepKeeps(s.stack, c);
    case StrLen(len, any) => LengthStepKeeps(s.stack, len, any, c);
    case _ =>
  }

  /** On every run the invariant holds: the stack stays within its limit and the counters within 64 bits. */
  lemma {:induction false} FeedKeeps(s: State, data: string)
    requires Inv(s)
    ensures Inv(Feed(s, data).st)
    ensures Feed(s, data).rv <= |data|
    ensures Feed(s, data).rv >= 0 ==> !Feed(s, data).st.pos.Error?
    decreases |data|
  {
    hide Step;
    if !s.pos.Error? && !s.pos.Finish? && data != [] {
      StepKeeps(s, data[0]);
      if Step(s, data[0]).Go? {
        FeedKeeps(Step(s, data[0]).st, data[1..]);
      }
    }
  }

  // ----- fragmentation -----

  /** Feeding a + b is feeding a and, if that succeeds, b: same state, same callbacks, same bytes taken, same error. */
  lemma {:induction false} Fragmentation(s: State, a: string, b: string)
    requires Inv(s)
    ensures Feed(s, a + b) ==
            if Feed(s, a).rv < 0 then Feed(s, a) else Then(Feed(s, a).ev, Feed(s, a).rv, Feed(Feed(s, a).st, b))
    decreases |a|
  {
    hide Step;
    if s.pos.Error? || s.pos.Finish? {
    } else if a == [] {
      assert a + b == b;
    } else {
      assert (a + b)[1..] == a[1..] + b;
      StepKeeps(s, a[0]);
      if Step(s, a[0]).Go? {
        Fragmentation(Step(s, a[0]).st, a[1..], b);
        FeedKeeps(Step(s, a[0]).st, a[1..]);
      }
    }
  }

  // ----- nesting -----

  datatype Nesting = Broken | Open(elems: seq<Elem>)

  /** Follows begin and end callbacks with a stack of open elements. */
  function Replay(open: seq<Elem>, ev: seq<Event>): Nesting
    decreases |ev|
  {
    if ev == [] then Open(open)
    else
      match ev[0]
      case Begin(e) => Replay(open + [e], ev[1..])
      case End(e) => if open == [] || open[|open| - 1] != e then Broken else Replay(open[..|open| - 1], ev[1..])
      case _ => Replay(open, ev[1..])
  }

  function FrameElems(f: Frame): seq<Elem> {
    match f
    case InList => [ArrayT, ArrayDataT]
    case InDictKey => [DictT, DictKeyT]
    case InDictVal => [DictT, DictDataT]
  }

  function StackElems(stack: seq<Frame>): seq<Elem> {
    if stack == [] then [] else StackElems(stack[..|stack| - 1]) + FrameElems(stack[|stack| - 1])
  }

  /** The string being read: a key is open already as the top of the stack. */
  function StringElems(stack: seq<Frame>): seq<Elem> {
    if stack != [] && stack[|stack| - 1] == InDictKey then [] else [StringT]
  }

  /** The elements open in a state, outermost first. In the error state the code tells what was being read. */
  function OpenElems(s: State): seq<Elem> {
    StackElems(s.stack) +
    match s.pos
    case List => [ArrayT]
    case DictKey => [DictT]
    case StrLen(_, _) => StringElems(s.stack)
    case Str(_) => StringElems(s.stack)
    case NumSign => [NumberT]
    case Num(_, _, _) => [NumberT]
    case Float => [NumberT]
    case Error(code) =>
      if code == ERR_INVALID_STRING_LENGTH || code == ERR_STRING_LENGTH_OUT_OF_RANGE then StringElems(s.stack)
      else if code == ERR_UNEXPECTED_CHAR_BEFORE_VAL then []
      else [NumberT]
    case _ => []
  }

  lemma {:induction false} ReplayConcat(open: seq<Elem>, a: seq<Event>, b: seq<Event>)
    ensures Replay(open, a + b) == if Replay(open, a).Broken? then Broken else Replay(Replay(open, a).elems, b)
    decreases |a|
  {
    if a == [] {
      assert a + b == b;
    } else {
      assert (a + b)[1..] == a[1..] + b;
      match a[0]
      case Begin(e) => ReplayConcat(open + [e], a[1..], b);
      case End(e) => if open != [] && open[|open| - 1] == e { ReplayConcat(open[..|open| - 1], a[1..], b); }
      case _ => ReplayConcat(open, a[1..], b);
    }
  }

  lemma ReplayOne(open: seq<Elem>, e: Elem, n: int, c: char)
    ensures Replay(open, []) == Open(open)
    ensures Replay(open, [Begin(e)]) == Open(open + [e])
    ensures Replay(open + [e], [End(e)]) == Open(open)
    ensures Replay(open, [Number(n)]) == Open(open) && Replay(open, [Char(c)]) == Open(open)
  {
    assert (open + [e])[..|open|] == open;
  }

  /** The callbacks of an outcome lead from the open elements before to those of the state reached. */
  ghost predicate Nests(open: seq<Elem>, o: Outcome) {
    Replay(open, o.ev) == Open(OpenElems(o.st))
  }

  lemma NestsBefore(open: seq<Elem>, ev: seq<Event>, mid: seq<Elem>, o: Outcome)
    requires Replay(open, ev) == Open(mid) && Nests(mid, o)
    ensures Nests(open, Before(ev, o))
  {
    ReplayConcat(open, ev, o.ev);
  }

  /** The open elements when onValueEnd is called, the value's own element being closed. */
  function Closing(stack: seq<Frame>): seq<Elem> {
    if stack != []
        && stack[|stack| - 1] == InDictKey then StackElems(stack[..|stack| - 1]) + [DictT] else StackElems(stack)
  }

  lemma StackElemsPush(stack: seq<Frame>, f: Frame)
    ensures StackElems(stack + [f]) == StackElems(stack) + FrameElems(f)
  {
    assert (stack + [f])[..|stack|] == stack;
  }

  lemma ValueEndNests(stack: seq<Frame>)
    ensures Nests(Closing(stack), ValueEnd(stack))
  {
    if stack == [] {
      ReplayOne([], DictT, 0, 'x');
    } else {
      var top := stack[|stack| - 1];
      var rest := stack[..|stack| - 1];
      assert stack == rest + [top];
      StackElemsPush(rest, top);
      if top == InDictKey {
        KeyEndNests(stack, rest);
      } else if top == InDictVal {
        DictDataEndNests(stack, rest);
      } else {
        ListDataEndNests(stack, rest);
      }
    }
  }

  lemma KeyEndNests(stack: seq<Frame>, rest: seq<Frame>)
    requires stack == rest + [InDictKey]
    ensures Nests(Closing(stack), ValueEnd(stack))
  {
    var base := StackElems(rest);
    hide Replay, StackElems;
    assert stack[..|stack| - 1] == rest;
    StackElemsPush(rest, InDictVal);
    ReplayOne(base + [DictT], DictDataT, 0, 'x');
    assert base + [DictT, DictDataT] == (base + [DictT]) + [DictDataT];
    assert StackElems(rest + [InDictVal]) + [] == StackElems(rest + [InDictVal]);
  }

  lemma DictDataEndNests(stack: seq<Frame>, rest: seq<Frame>)
    requires stack == rest + [InDictVal]
    ensures Nests(Closing(stack), ValueEnd(stack))
  {
    var base := StackElems(rest);
    hide Replay, StackElems;
    assert stack[..|stack| - 1] == rest;
    StackElemsPush(rest, InDictVal);
    ReplayOne(base + [DictT], DictDataT, 0, 'x');
    assert base + [DictT, DictDataT] == (base + [DictT]) + [DictDataT];
  }

  lemma ListDataEndNests(stack: seq<Frame>, rest: seq<Frame>)
    requires stack == rest + [InList]
    ensures Nests(Closing(stack), ValueEnd(stack))
  {
    var base := StackElems(rest);
    hide Replay, StackElems;
    assert stack[..|stack| - 1] == rest;
    StackElemsPush(rest, InList);
    ReplayOne(base + [ArrayT], ArrayDataT, 0, 'x');
    assert base + [ArrayT, ArrayDataT] == (base + [ArrayT]) + [ArrayDataT];
  }

  lemma StringEndNests(stack: seq<Frame>, open: seq<Elem>)
    requires open == OpenElems(State(Str(1), stack))
    ensures Nests(open, StringEnd(stack))
  {
    hide Replay, StackElems, ValueEnd;
    ValueEndNests(stack);
    if stack != [] && stack[|stack| - 1] == InDictKey {
      var rest := stack[..|stack| - 1];
      assert stack == rest + [InDictKey];
      StackElemsPush(rest, InDictKey);
      ReplayOne(StackElems(rest) + [DictT], DictKeyT, 0, 'x');
      assert open == (StackElems(rest) + [DictT]) + [DictKeyT];
      NestsBefore(open, [End(DictKeyT)], Closing(stack), ValueEnd(stack));
    } else {
      ReplayOne(StackElems(stack), StringT, 0, 'x');
      NestsBefore(open, [End(StringT)], Closing(stack), ValueEnd(stack));
    }
  }

  lemma ContainerEndNests(stack: seq<Frame>, e: Elem)
    requires InDictKey !in stack
    ensures Nests(StackElems(stack) + [e], Before([End(e)], ValueEnd(stack)))
  {
    hide Replay, StackElems, ValueEnd;
    ValueEndNests(stack);
    ReplayOne(StackElems(stack), e, 0, 'x');
    NestsBefore(StackElems(stack) + [e], [End(e)], StackElems(stack), ValueEnd(stack));
  }

  lemma NumberEndNests(stack: seq<Frame>, n: int)
    requires InDictKey !in stack
    ensures Nests(StackElems(stack) + [NumberT], NumberEnd(stack, n))
  {
    hide Replay, StackElems, ValueEnd;
    var open := StackElems(stack) + [NumberT];
    ValueEndNests(stack);
    ReplayOne(StackElems(stack), NumberT, n, 'x');
    ReplayOne(open, NumberT, n, 'x');
    ReplayConcat(open, [Number(n)], [End(NumberT)]);
    assert [Number(n)] + [End(NumberT)] == [Number(n), End(NumberT)];
    NestsBefore(open, [Number(n), End(NumberT)], StackElems(stack), ValueEnd(stack));
  }

  lemma LengthStepNests(stack: seq<Frame>, len: int, any: bool, c: char)
    ensures Nests(OpenElems(State(StrLen(len, any), stack)), LengthStep(stack, len, any, c))
  {
    hide Replay, StackElems, ValueEnd, StringEnd;
    var open := OpenElems(State(StrLen(len, any), stack));
    ReplayOne(open, StringT, 0, 'x');
    StringEndNests(stack, open);
  }

  lemma ValueStepNests(stack: seq<Frame>, c: char)
    requires InDictKey !in stack
    ensures Nests(StackElems(stack), ValueStep(stack, c))
  {
    hide Replay, StackElems;
    ReplayOne(StackElems(stack), DictT, 0, 'x');
    ReplayOne(StackElems(stack), ArrayT, 0, 'x');
    ReplayOne(StackElems(stack), NumberT, 0, 'x');
    ReplayOne(StackElems(stack), StringT, 0, 'x');
  }

  /** One byte's callbacks lead from the open elements of the old state to those of the new one. */
  lemma StepNests(s: State, c: char)
    requires Inv(s)
    ensures Nests(OpenElems(s), Step(s, c))
  {
    hide Replay, StackElems, ValueEnd, StringEnd, NumberEnd, LengthStep, ValueStep;
    var open := OpenElems(s);
    ReplayOne(open, StringT, 0, c);
    if !s.pos.StrLen? && !s.pos.Str? && !s.pos.Error? {
      NoKeyFrames(s);
    }
    match s.pos
    case Finish =>
    case Error(_) =>
    case List =>
      ContainerEndNests(s.stack, ArrayT);
      if c != 'e' && !Full(s.stack) {
        StackElemsPush(s.stack, InList);
        ReplayOne(open, ArrayDataT, 0, c);
        ValueStepNests(s.stack + [InList], c);
        assert open + [ArrayDataT] == StackElems(s.stack + [InList]);
        NestsBefore(open, [Begin(ArrayDataT)], StackElems(s.stack + [InList]), ValueStep(s.stack + [InList], c));
      }
    case DictKey =>
      ContainerEndNests(s.stack, DictT);
      if c != 'e' && !Full(s.stack) {
        StackElemsPush(s.stack, InDictKey);
        ReplayOne(open, DictKeyT, 0, c);
        LengthStepNests(s.stack + [InDictKey], 0, false, c);
        assert open + [DictKeyT] == OpenElems(State(StrLen(0, false), s.stack + [InDictKey]));
        NestsBefore(open, [Begin(DictKeyT)], open + [DictKeyT], LengthStep(s.stack + [InDictKey], 0, false, c));
      }
    case Initial => assert open == StackElems(s.stack); ValueStepNests(s.stack, c);
    case Value => assert open == StackElems(s.stack); ValueStepNests(s.stack, c);
    case StrLen(len, any) => LengthStepNests(s.stack, len, any, c);
    case Str(left) =>
      StringEndNests(s.stack, open);
      NestsBefore(open, [Char(c)], open, StringEnd(s.stack));
    case NumSign =>
    case Num(sign, n, any) => NumberEndNests(s.stack, sign * n);
    case Float => NumberEndNests(s.stack, 0);
  }

  /**
   * The callbacks nest, whether a call succeeds or fails: begin and end match, and what is open afterwards is
   * determined by the state reached. That state may be one that a too deep structure was refused in, from which calls
   * can go on.
   */
  lemma {:induction false} CallbacksNest(s: State, data: string)
    requires Inv(s)
    ensures Replay(OpenElems(s), Feed(s, data).ev) == Open(OpenElems(Feed(s, data).st))
    decreases |data|
  {
    hide Step, Replay, OpenElems;
    ReplayOne(OpenElems(s), StringT, 0, 'x');
    if !s.pos.Error? && !s.pos.Finish? && data != [] {
      StepKeeps(s, data[0]);
      StepNests(s, data[0]);
      var o := Step(s, data[0]);
      if o.Go? {
        CallbacksNest(o.st, data[1..]);
        ReplayConcat(OpenElems(s), o.ev, Feed(o.st, data[1..]).ev);
      }
    }
  }

  lemma NestsOn(before: seq<Event>, s: State, data: string)
    requires Inv(s) && Replay([], before) == Open(OpenElems(s))
    ensures Replay([], before + Feed(s, data).ev) == Open(OpenElems(Feed(s, data).st))
  {
    hide Feed, Replay, OpenElems;
    CallbacksNest(s, data);
    ReplayConcat([], before, Feed(s, data).ev);
  }

  // ----- whole runs -----

  datatype Call = Update(data: string) | Reset

  /** Where a parser is, and the callbacks its state machine has got since it was reset. */
  datatype Session = Session(st: State, ev: seq<Event>)

  /** Any calls, one after the other, whatever they return; a reset also resets the state machine. */
  function Run(calls: seq<Call>): Session {
    if calls == [] then Session(FRESH, [])
    else
      var before := Run(calls[..|calls| - 1]);
      match calls[|calls| - 1]
      case Update(data) => Session(Feed(before.st, data).st, before.ev + Feed(before.st, data).ev)
      case Reset => Session(FRESH, [])
  }

  /**
   * On every run, with failed calls and resets in it, the callbacks since the last reset begin a well-nested sequence
   * in which exactly those elements are open that the state says; the stack stays within its limit.
   */
  lemma {:induction false} EveryRunNests(calls: seq<Call>)
    ensures Inv(Run(calls).st)
    ensures Replay([], Run(calls).ev) == Open(OpenElems(Run(calls).st))
  {
    hide Feed, Replay;
    ReplayOne([], StringT, 0, 'x');
    if calls != [] {
      EveryRunNests(calls[..|calls| - 1]);
      var before := Run(calls[..|calls| - 1]);
      if calls[|calls| - 1].Update? {
        var data := calls[|calls| - 1].data;
        FeedKeeps(before.st, data);
        NestsOn(before.ev, before.st, data);
      }
    }
  }

  /** A complete parse closes everything it opened. */
  lemma FinishedIsClosed(data: string)
    requires Feed(FRESH, data).rv >= 0 && Feed(FRESH, data).st.pos.Finish?
    ensures Replay([], Feed(FRESH, data).ev) == Open([])
  {
    hide Feed, Replay;
    FeedKeeps(FRESH, data);
    CallbacksNest(FRESH, data);
  }
}
