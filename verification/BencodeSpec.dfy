/**
 * The bencode push parser, one byte at a time: states, transitions and the callbacks they make.
 * A char stands for one byte.
 */
module BencodeSpec {

  const INT64_MAX: int := 0x7fff_ffff_ffff_ffff

  // Error codes.
  const ERR_UNEXPECTED_CHAR_BEFORE_VAL: int := -1
  const ERR_INVALID_NUMBER: int := -2
  const ERR_NUMBER_OUT_OF_RANGE: int := -3
  const ERR_PREMATURE_DATA: int := -4
  const ERR_STRUCTURE_TOO_DEEP: int := -5
  const ERR_INVALID_STRING_LENGTH: int := -6
  const ERR_STRING_LENGTH_OUT_OF_RANGE: int := -7
  const ERR_INVALID_FLOAT_NUMBER: int := -8

  /** The state stack may hold 50 entries; the bottom one is always BENCODE_FINISH. */
  const MAX_STACK: nat := 50

  datatype Elem = DictT | DictKeyT | DictDataT | ArrayT | ArrayDataT | StringT | NumberT

  /** A callback, with character data delivered byte by byte. */
  datatype Event = Begin(elem: Elem) | End(elem: Elem) | Number(n: int) | Char(c: char)

  datatype Frame = InList | InDictKey | InDictVal

  /** The current state with the counters that matter in it. */
  datatype Pos =
    | Finish
    | Error(code: int)
    | Initial
    | Value
    | DictKey
    | List
    | StrLen(len: int, any: bool)
    | Str(left: int)
    | NumSign
    | Num(sign: int, n: int, any: bool)
    | Float

  datatype State = State(pos: Pos, stack: seq<Frame>)

  const FRESH: State := State(Initial, [])

  datatype Outcome = Go(st: State, ev: seq<Event>) | Fail(st: State, ev: seq<Event>, code: int)

  predicate IsDigit(c: char) {
    '0' <= c <= '9'
  }

  function DigitVal(c: char): (d: int)
    requires IsDigit(c)
    ensures 0 <= d <= 9
  {
    c as int - '0' as int
  }

  predicate Overflows(n: int, d: int) {
    (INT64_MAX - d) / 10 < n
  }

  predicate Full(stack: seq<Frame>) {
    |stack| + 1 >= MAX_STACK
  }

  function Failed(stack: seq<Frame>, ev: seq<Event>, code: int): Outcome {
    Fail(State(Error(code), stack), ev, code)
  }

  function Before(ev: seq<Event>, o: Outcome): Outcome {
    match o
    case Go(st, e) => Go(st, ev + e)
    case Fail(st, e, code) => Fail(st, ev + e, code)
  }

  /** onValueEnd: what the finished value was part of decides where parsing goes on. */
  function ValueEnd(stack: seq<Frame>): Outcome {
    if stack == [] then Go(State(Finish, []), [])
    else
      var rest := stack[..|stack| - 1];
      match stack[|stack| - 1]
      case InDictKey => Go(State(Value, rest + [InDictVal]), [Begin(DictDataT)])
      case InDictVal => Go(State(DictKey, rest), [End(DictDataT)])
      case InList => Go(State(List, rest), [End(ArrayDataT)])
  }

  function StringEnd(stack: seq<Frame>): Outcome {
    var elem := if stack != [] && stack[|stack| - 1] == InDictKey then DictKeyT else StringT;
    Before([End(elem)], ValueEnd(stack))
  }

  function NumberEnd(stack: seq<Frame>, n: int): Outcome {
    Before([Number(n), End(NumberT)], ValueEnd(stack))
  }

  function ValueStep(stack: seq<Frame>, c: char): Outcome {
    if c == 'd' then Go(State(DictKey, stack), [Begin(DictT)])
    else if c == 'l' then Go(State(List, stack), [Begin(ArrayT)])
    else if c == 'i' then Go(State(NumSign, stack), [Begin(NumberT)])
    else if IsDigit(c) then Go(State(StrLen(DigitVal(c), true), stack), [Begin(StringT)])
    else Failed(stack, [], ERR_UNEXPECTED_CHAR_BEFORE_VAL)
  }

  function LengthStep(stack: seq<Frame>, len: int, any: bool, c: char): Outcome {
    if IsDigit(c) then
      if Overflows(len, DigitVal(c)) then Failed(stack, [], ERR_STRING_LENGTH_OUT_OF_RANGE)
      else Go(State(StrLen(10 * len + DigitVal(c), true), stack), [])
    else if c != ':' || !any then Failed(stack, [], ERR_INVALID_STRING_LENGTH)
    else if len == 0 then StringEnd(stack)
    else Go(State(Str(len), stack), [])
  }

  predicate IsFloatChar(c: char) {
    IsDigit(c) || c == '.' || c == 'E' || c == '+' || c == '-'
  }

  function NumberStep(stack: seq<Frame>, sign: int, n: int, any: bool, c: char): Outcome {
    if IsDigit(c) then
      if Overflows(n, DigitVal(c)) then Failed(stack, [], ERR_NUMBER_OUT_OF_RANGE)
      else Go(State(Num(sign, 10 * n + DigitVal(c), true), stack), [])
    else if !any then Failed(stack, [], ERR_INVALID_NUMBER)
    else if IsFloatChar(c) then Go(State(Float, stack), [])
    else if c != 'e' then Failed(stack, [], ERR_INVALID_NUMBER)
    else NumberEnd(stack, sign * n)
  }

  /** One byte. A too deep structure is refused without entering the error state. */
  function Step(s: State, c: char): Outcome {
    match s.pos
    case Finish => Go(s, [])
    case Error(code) => Fail(s, [], code)
    case List =>
      if c == 'e' then Before([End(ArrayT)], ValueEnd(s.stack))
      else if Full(s.stack) then Fail(s, [], ERR_STRUCTURE_TOO_DEEP)
      else Before([Begin(ArrayDataT)], ValueStep(s.stack + [InList], c))
    case Initial => ValueStep(s.stack, c)
    case Value => ValueStep(s.stack, c)
    case DictKey =>
      if c == 'e' then Before([End(DictT)], ValueEnd(s.stack))
      else if Full(s.stack) then Fail(s, [], ERR_STRUCTURE_TOO_DEEP)
      else Before([Begin(DictKeyT)], LengthStep(s.stack + [InDictKey], 0, false, c))
    case StrLen(len, any) => LengthStep(s.stack, len, any, c)
    case Str(left) => if left <= 1
        then Before([Char(c)], StringEnd(s.stack)) else Go(State(Str(left - 1), s.stack), [Char(c)])
    case NumSign =>
      if c == '+' then Go(State(Num(1, 0, false), s.stack), [])
      else if c == '-' then Go(State(Num(-1, 0, false), s.stack), [])
      else if IsDigit(c) then Go(State(Num(1, DigitVal(c), true), s.stack), [])
      else Go(s, [])
    case Num(sign, n, any) => NumberStep(s.stack, sign, n, any, c)
    case Float =>
      if IsFloatChar(c) then Go(s, [])
      else if c != 'e' then Failed(s.stack, [], ERR_INVALID_FLOAT_NUMBER)
      else NumberEnd(s.stack, 0)
  }

  /** The result of feeding some data: the new state, the callbacks made, and the bytes taken or a negative code. */
  datatype Result = Result(st: State, ev: seq<Event>, rv: int)

  /** r, preceded by ev callbacks made while taking k bytes. */
  function Then(ev: seq<Event>, k: nat, r: Result): Result {
    Result(r.st, ev + r.ev, if r.rv < 0 then r.rv else k + r.rv)
  }

  function Feed(s: State, data: string): Result
    decreases |data|
  {
    if s.pos.Error? then Result(s, [], s.pos.code)
    else if s.pos.Finish? || data == [] then Result(s, [], 0)
    else
      match Step(s, data[0])
      case Fail(st, ev, code) => Result(st, ev, code)
      case Go(st, ev) => Then(ev, 1, Feed(st, data[1..]))
  }

  // ----- the state invariant -----

  /** Between calls: how the stack looks in each state, and the ranges of the 64-bit counters. */
  ghost predicate Inv(s: State) {
    && |s.stack| < MAX_STACK
    && (forall i :: 0 <= i < |s.stack| - 1 ==> s.stack[i] != InDictKey)
    && (s.stack != [] && s.stack[|s.stack| - 1] == InDictKey ==> s.pos.StrLen? || s.pos.Str? || s.pos.Error?)
    && (s.pos.Finish? || s.pos.Initial? ==> s.stack == [])
    && (s.pos.Error? ==> s.pos.code < 0)
    && (s.pos.StrLen? ==> 0 <= s.pos.len <= INT64_MAX)
    && (s.pos.Str? ==> 0 < s.pos.left <= INT64_MAX)
    && (s.pos.Num? ==> 0 <= s.pos.n <= INT64_MAX && (s.pos.sign == 1 || s.pos.sign == -1))
  }
}
