/** The chunked transfer decoder of section 4.1 of RFC 7230, one byte at a time. A byte is a character here. */
module ChunkedSpec {

  const CR: char := '\r'
  const LF: char := '\n'
  const LIMIT: int := 0x8000000000000000

  datatype Pos =
    | PrevChunkSize | ChunkSize | ChunkExtension | PrevChunkSizeLf | Chunk | PrevChunkCr | PrevChunkLf
    | PrevTrailer | Trailer | PrevTrailerLf | PrevEndCr | PrevEndLf | ChunksComplete

  datatype Error =
    | BadChunkSize | TooBigChunkSize | NoLfAfterSize | NoCrAfterChunk | NoLfAfterChunk | NoLfAfterTrailer | NoLfAtEnd

  datatype State = State(pos: Pos, size: int, remaining: int)

  const START := State(PrevChunkSize, 0, 0)

  predicate IsHexDigit(c: char) {
    '0' <= c <= '9' || 'A' <= c <= 'F' || 'a' <= c <= 'f'
  }

  function HexValue(c: char): (v: int)
    ensures IsHexDigit(c) ==> 0 <= v < 16
  {
    if 'a' <= c <= 'f' then c as int - 'a' as int + 10
    else if 'A' <= c <= 'F' then c as int - 'A' as int + 10
    else if '0' <= c <= '9' then c as int - '0' as int
    else 255
  }

  /** The test of a size for any of the bits 59 to 62, before it is shifted by four. */
  predicate HasTopBits(size: int) {
    size / 0x0800000000000000 % 16 != 0
  }

  datatype Result = Next(state: State, out: string) | Stop | Fail(error: Error)

  /** What one byte does: the delegate gets `out`. Only the complete state takes no byte. */
  function Step(s: State, c: char): Result {
    if s.pos == PrevChunkSize then
      if IsHexDigit(c) then Next(s.(pos := ChunkSize, size := HexValue(c)), "") else Fail(BadChunkSize)
    else if s.pos == ChunkSize then
      if IsHexDigit(c) then
        if HasTopBits(s.size) then Fail(TooBigChunkSize) else Next(s.(size := s.size * 16 + HexValue(c)), "")
      else if c == ';' then Next(s.(pos := ChunkExtension), "")
      else if c == CR then Next(s.(pos := PrevChunkSizeLf), "")
      else Fail(BadChunkSize)
    else if s.pos == ChunkExtension then
      Next(if c == CR then s.(pos := PrevChunkSizeLf) else s, "")
    else if s.pos == PrevChunkSizeLf then
      if c == LF
          then Next(State(if s.size == 0 then PrevTrailer else Chunk, s.size, s.size), "") else Fail(NoLfAfterSize)
    else if s.pos == Chunk then
      Next(s.(pos := if s.remaining == 1 then PrevChunkCr else Chunk, remaining := s.remaining - 1), [c])
    else if s.pos == PrevChunkCr then
      if c == CR then Next(s.(pos := PrevChunkLf), "") else Fail(NoCrAfterChunk)
    else if s.pos == PrevChunkLf then
      if c == LF then Next(if s.size == 0 then s.(pos := PrevTrailer) else State(PrevChunkSize, 0, 0), "")
          else Fail(NoLfAfterChunk)
    else if s.pos == PrevTrailer then
      Next(s.(pos := if c == CR then PrevEndLf else Trailer), "")
    else if s.pos == Trailer then
      Next(if c == CR then s.(pos := PrevTrailerLf) else s, "")
    else if s.pos == PrevTrailerLf then
      if c == LF then Next(s.(pos := PrevTrailer), "") else Fail(NoLfAfterTrailer)
    else if s.pos == PrevEndLf then
      if c == LF then Next(s.(pos := ChunksComplete), "") else Fail(NoLfAtEnd)
    else Stop
  }

  /** What holds of every state the decoder can be in; the state before an end CR does not occur. */
  predicate Inv(s: State) {
    && 0 <= s.size < LIMIT && s.pos != PrevEndCr
    && (s.pos == Chunk ==> 0 < s.remaining <= s.size)
    && (s.pos == PrevChunkCr || s.pos == PrevChunkLf ==> s.remaining == 0 < s.size)
  }

  /** Every step keeps the invariant: the size never overflows a signed 64-bit integer. */
  lemma StepKeeps(s: State, c: char)
    requires Inv(s)
    ensures Step(s, c).Next? ==> Inv(Step(s, c).state)
    ensures Step(s, c).Stop? <==> s.pos == ChunksComplete
    ensures s.pos == ChunkSize && IsHexDigit(c) ==>
      (Step(s, c) == Fail(TooBigChunkSize) <==> s.size * 16 + HexValue(c) >= LIMIT)
  {
    if s.pos == ChunkSize {
      TopBits(s.size);
    }
  }

  lemma TopBits(size: int)
    requires 0 <= size < LIMIT
    ensures HasTopBits(size) <==> size >= 0x0800000000000000
  {
  }

  datatype Fed = Fed(state: State, out: string, consumed: nat, error: Status)

  /** Whether a byte was refused, and why. */
  datatype Status = NoError | Failed(code: Error)

  /** The outcome of a buffer: bytes are taken up to the end, an error or the complete state. */
  function Feed(s: State, input: string): Fed
    decreases |input|
  {
    if input == "" then Fed(s, "", 0, NoError)
    else
      var r := Step(s, input[0]);
      if r.Stop? then Fed(s, "", 0, NoError)
      else if r.Fail? then Fed(s, "", 0, Failed(r.error))
      else
        var f := Feed(r.state, input[1..]);
        Fed(f.state, r.out + f.out, f.consumed + 1, f.error)
  }

  lemma FeedUnfold(s: State, input: string)
    requires input != ""
    ensures var r := Step(s, input[0]);
      if r.Next? then
        var f := Feed(r.state, input[1..]);
        Feed(s, input) == Fed(f.state, r.out + f.out, f.consumed + 1, f.error)
      else Feed(s, input) == Fed(s, "", 0, if r.Fail? then Failed(r.error) else NoError)
  {
    hide Step;
  }

  lemma {:induction false} FeedKeeps(s: State, input: string)
    requires Inv(s)
    ensures Inv(Feed(s, input).state) && Feed(s, input).consumed <= |input|
    ensures Feed(s, input).error.NoError? ==>
      Feed(s, input).consumed == |input| || Feed(s, input).state.pos == ChunksComplete
    ensures Feed(s, input).error.Failed? ==> Feed(s, input).consumed < |input|
    decreases |input|
  {
    hide Step, Inv;
    if input != "" {
      StepKeeps(s, input[0]);
      var r := Step(s, input[0]);
      if r.Next? {
        FeedKeeps(r.state, input[1..]);
      }
    }
  }

  lemma CompleteTakesNothing(s: State, input: string)
    requires s.pos == ChunksComplete
    ensures Feed(s, input) == Fed(s, "", 0, NoError)
  {
    hide Feed;
    if input != "" {
      FeedUnfold(s, input);
    } else {
      FeedNothing(s);
    }
  }

  /**
   * Cutting a buffer in two changes nothing: neither the state, nor the output, nor the bytes counted, nor the error.
   */
  lemma {:induction false} Fragmentation(s: State, a: string, b: string)
    requires Inv(s)
    ensures var f, whole := Feed(s, a), Feed(s, a + b);
      if f.error.Failed? then whole == f
      else
        var g := Feed(f.state, b);
        whole == Fed(g.state, f.out + g.out, f.consumed + g.consumed, g.error)
    decreases |a|
  {
    hide Step, Inv, Feed;
    if a == "" {
      assert a + b == b;
      FeedNothing(s);
    } else {
      FeedUnfold(s, a);
      FeedUnfold(s, a + b);
      assert (a + b)[0] == a[0] && (a + b)[1..] == a[1..] + b;
      var r := Step(s, a[0]);
      StepKeeps(s, a[0]);
      if r.Next? {
        Fragmentation(r.state, a[1..], b);
      } else if r.Stop? {
        CompleteTakesNothing(s, b);
      }
    }
  }

  // ----- many buffers -----

  function Concat(parts: seq<string>): string {
    if parts == [] then "" else parts[0] + Concat(parts[1..])
  }

  /** One call after the other, until one fails; the counts of bytes taken add up. */
  function FeedAll(s: State, parts: seq<string>): Fed
    decreases |parts|
  {
    if parts == [] then Fed(s, "", 0, NoError)
    else
      var f := Feed(s, parts[0]);
      if f.error.Failed? then f
      else
        var g := FeedAll(f.state, parts[1..]);
        Fed(g.state, f.out + g.out, f.consumed + g.consumed, g.error)
  }

  lemma {:induction false} AnyFragmentation(s: State, parts: seq<string>)
    requires Inv(s)
    ensures FeedAll(s, parts) == Feed(s, Concat(parts))
    decreases |parts|
  {
    hide Feed, Inv;
    if parts == [] {
      assert Feed(s, "") == Fed(s, "", 0, NoError) by { FeedNothing(s); }
    } else {
      var f := Feed(s, parts[0]);
      FeedKeeps(s, parts[0]);
      Fragmentation(s, parts[0], Concat(parts[1..]));
      AnyFragmentation(f.state, parts[1..]);
    }
  }

  lemma FeedNothing(s: State)
    ensures Feed(s, "") == Fed(s, "", 0, NoError)
  {
  }
}
