/** What the decoder accepts, and that it gives back the body. */
module ChunkedTheorems {
  import opened ChunkedSpec

  // ----- the encodings -----

  predicate NoCr(s: string) {
    CR !in s
  }

  /** A size in hexadecimal digits. */
  function HexNumber(digits: string): int
    requires forall i :: 0 <= i < |digits| ==> IsHexDigit(digits[i])
  {
    if digits == "" then 0 else HexNumber(digits[..|digits| - 1]) * 16 + HexValue(digits[|digits| - 1])
  }

  /** A size line without its end: digits, and maybe an extension from a semicolon on. */
  datatype SizeLine = SizeLine(digits: string, extension: string)
  {
    predicate Valid() {
      && digits != "" && (forall i :: 0 <= i < |digits| ==> IsHexDigit(digits[i])) && HexNumber(digits) < LIMIT
      && NoCr(extension) && (extension == "" || extension[0] == ';')
    }

    function Text(): string {
      digits + extension
    }
  }

  datatype ChunkData = ChunkData(size: SizeLine, data: string)
  {
    predicate Valid() {
      size.Valid() && HexNumber(size.digits) == |data| > 0
    }

    function Text(): string {
      size.Text() + [CR, LF] + data + [CR, LF]
    }
  }

  datatype Body = Body(chunks: seq<ChunkData>, last: SizeLine, trailers: seq<string>)
  {
    predicate Valid() {
      && (forall i :: 0 <= i < |chunks| ==> chunks[i].Valid())
      && last.Valid() && HexNumber(last.digits) == 0
      && forall i :: 0 <= i < |trailers| ==> trailers[i] != "" && NoCr(trailers[i])
    }

    function Text(): string {
      Chunks(chunks) + last.Text() + [CR, LF] + Lines(trailers) + [CR, LF]
    }
  }

  function Chunks(cs: seq<ChunkData>): string {
    if cs == [] then "" else Chunks(cs[..|cs| - 1]) + cs[|cs| - 1].Text()
  }

  function Lines(ls: seq<string>): string {
    if ls == [] then "" else Lines(ls[..|ls| - 1]) + ls[|ls| - 1] + [CR, LF]
  }

  function Data(cs: seq<ChunkData>): string {
    if cs == [] then "" else Data(cs[..|cs| - 1]) + cs[|cs| - 1].data
  }

  // ----- what has been read -----

  /** What the bytes read so far are made of: whole chunks, the size line, the data, the trailers, the line underway. */
  datatype Read = Read(chunks: seq<ChunkData>, size: SizeLine, data: string, trailers: seq<string>, line: string)

  function AfterSize(r: Read): string {
    Chunks(r.chunks) + r.size.Text() + [CR, LF]
  }

  function AfterTrailers(r: Read): string {
    AfterSize(r) + Lines(r.trailers)
  }

  /** The text that leads to a position. */
  function TextAt(pos: Pos, r: Read): string {
    if pos == PrevChunkSize then Chunks(r.chunks)
    else if pos == ChunkSize || pos == ChunkExtension then Chunks(r.chunks) + r.size.Text()
    else if pos == PrevChunkSizeLf then Chunks(r.chunks) + r.size.Text() + [CR]
    else if pos == Chunk || pos == PrevChunkCr then AfterSize(r) + r.data
    else if pos == PrevChunkLf then AfterSize(r) + r.data + [CR]
    else if pos == PrevTrailer then AfterTrailers(r)
    else if pos == Trailer then AfterTrailers(r) + r.line
    else if pos == PrevTrailerLf then AfterTrailers(r) + r.line + [CR]
    else if pos == PrevEndLf then AfterTrailers(r) + [CR]
    else AfterTrailers(r) + [CR, LF]
  }

  predicate InSize(s: State, r: Read) {
    r.size.Valid() && HexNumber(r.size.digits) == s.size
  }

  /** The state and what has been read agree. */
  predicate Agrees(s: State, r: Read) {
    && Inv(s)
    && (forall i :: 0 <= i < |r.chunks| ==> r.chunks[i].Valid())
    && (s.pos == PrevChunkSize || InSize(s, r))
    && (s.pos == ChunkSize ==> r.size.extension == "")
    && (s.pos == ChunkExtension ==> r.size.extension != "")
    && (s.pos == Chunk || s.pos == PrevChunkCr || s.pos == PrevChunkLf ==> |r.data| + s.remaining == s.size)
    && (InTrailer(s.pos) ==> s.size == 0 && forall i :: 0 <= i < |r.trailers| ==>
        r.trailers[i] != "" && NoCr(r.trailers[i]))
    && (s.pos == Trailer || s.pos == PrevTrailerLf ==> r.line != "" && NoCr(r.line))
  }

  predicate InTrailer(pos: Pos) {
    pos == PrevTrailer || pos == Trailer || pos == PrevTrailerLf || pos == PrevEndLf || pos == ChunksComplete
  }

  function OutputAt(pos: Pos, r: Read): string {
    Data(r.chunks) + (if pos == Chunk || pos == PrevChunkCr || pos == PrevChunkLf then r.data else "")
  }

  function Extended(s: State, r: Read, c: char): Read {
    if s.pos == PrevChunkSize then Read(r.chunks, SizeLine([c], ""), "", [], "")
    else if s.pos == ChunkSize then
      if IsHexDigit(c) then r.(size := SizeLine(r.size.digits + [c], "")) else if c
          == ';' then r.(size := SizeLine(r.size.digits, ";")) else r
    else if s.pos == ChunkExtension then if c
        == CR then r else r.(size := SizeLine(r.size.digits, r.size.extension + [c]))
    else if s.pos == PrevChunkSizeLf then r.(data := "", trailers := [])
    else if s.pos == Chunk then r.(data := r.data + [c])
    else if s.pos == PrevChunkLf then r.(chunks := r.chunks + [ChunkData(r.size, r.data)])
    else if s.pos == PrevTrailer then if c == CR then r else r.(line := [c])
    else if s.pos == Trailer then if c == CR then r else r.(line := r.line + [c])
    else if s.pos == PrevTrailerLf then r.(trailers := r.trailers + [r.line])
    else r
  }

  lemma HexAppend(digits: string, c: char)
    requires (forall i :: 0 <= i < |digits| ==> IsHexDigit(digits[i])) && IsHexDigit(c)
    ensures forall i :: 0 <= i < |digits + [c]| ==> IsHexDigit((digits + [c])[i])
    ensures HexNumber(digits + [c]) == HexNumber(digits) * 16 + HexValue(c)
  {
    hide IsHexDigit;
    assert (digits + [c])[..|digits|] == digits;
  }

  predicate Advances(s: State, r: Read, c: char) {
    Step(s, c).Next? &&
    var t, q := Step(s, c).state, Extended(s, r, c);
    Agrees(t, q) && TextAt(t.pos, q) == TextAt(s.pos, r) + [c]
        && OutputAt(t.pos, q) == OutputAt(s.pos, r) + Step(s, c).out
  }

  lemma FirstDigit(s: State, r: Read, c: char)
    requires Agrees(s, r) && Step(s, c).Next? && s.pos == PrevChunkSize
    ensures Advances(s, r, c)
  {
    StepKeeps(s, c);
    HexAppend("", c);
    assert "" + [c] == [c];
    hide Inv, Chunks, Data, Lines, IsHexDigit;
  }

  lemma NextDigit(s: State, r: Read, c: char)
    requires Agrees(s, r) && Step(s, c).Next? && s.pos == ChunkSize && IsHexDigit(c)
    ensures Advances(s, r, c)
  {
    StepKeeps(s, c);
    HexAppend(r.size.digits, c);
    hide Inv, Chunks, Data, Lines, IsHexDigit, HexNumber, HexValue, HasTopBits;
  }

  lemma EndOfDigits(s: State, r: Read, c: char)
    requires Agrees(s, r) && Step(s, c).Next? && s.pos == ChunkSize && !IsHexDigit(c)
    ensures Advances(s, r, c)
  {
    StepKeeps(s, c);
    hide Inv, Chunks, Data, Lines, IsHexDigit, HexNumber, HexValue, HasTopBits;
  }

  lemma InExtension(s: State, r: Read, c: char)
    requires Agrees(s, r) && Step(s, c).Next? && s.pos == ChunkExtension
    ensures Advances(s, r, c)
  {
    StepKeeps(s, c);
    hide Inv, Chunks, Data, Lines, IsHexDigit, HexNumber, HexValue, HasTopBits;
  }

  lemma EndOfSizeLine(s: State, r: Read, c: char)
    requires Agrees(s, r) && Step(s, c).Next? && s.pos == PrevChunkSizeLf
    ensures Advances(s, r, c)
  {
    StepKeeps(s, c);
    assert Lines([]) == "";
    hide Inv, Chunks, Data, Lines, IsHexDigit, HexNumber, HexValue, HasTopBits;
  }

  lemma InChunk(s: State, r: Read, c: char)
    requires Agrees(s, r) && Step(s, c).Next? && s.pos == Chunk
    ensures Advances(s, r, c)
  {
    StepKeeps(s, c);
    hide Inv, Chunks, Data, Lines, IsHexDigit, HexNumber, HexValue, HasTopBits;
  }

  lemma AfterChunk(s: State, r: Read, c: char)
    requires Agrees(s, r) && Step(s, c).Next? && s.pos == PrevChunkCr
    ensures Advances(s, r, c)
  {
    StepKeeps(s, c);
    hide Inv, Chunks, Data, Lines, IsHexDigit, HexNumber, HexValue, HasTopBits;
  }

  lemma EndOfChunk(s: State, r: Read, c: char)
    requires Agrees(s, r) && Step(s, c).Next? && s.pos == PrevChunkLf
    ensures Advances(s, r, c)
  {
    StepKeeps(s, c);
    ChunkRead(r);
    hide Inv, Chunks, Data, Lines, IsHexDigit, HexNumber, HexValue, HasTopBits;
  }

  lemma FirstOfLine(s: State, r: Read, c: char)
    requires Agrees(s, r) && Step(s, c).Next? && s.pos == PrevTrailer
    ensures Advances(s, r, c)
  {
    StepKeeps(s, c);
    hide Inv, Chunks, Data, Lines, IsHexDigit, HexNumber, HexValue, HasTopBits, AfterTrailers;
  }

  lemma InLine(s: State, r: Read, c: char)
    requires Agrees(s, r) && Step(s, c).Next? && s.pos == Trailer
    ensures Advances(s, r, c)
  {
    StepKeeps(s, c);
    hide Inv, Chunks, Data, Lines, IsHexDigit, HexNumber, HexValue, HasTopBits, AfterTrailers;
  }

  lemma EndOfLine(s: State, r: Read, c: char)
    requires Agrees(s, r) && Step(s, c).Next? && s.pos == PrevTrailerLf
    ensures Advances(s, r, c)
  {
    StepKeeps(s, c);
    LineRead(r);
    hide Inv, Chunks, Data, Lines, IsHexDigit, HexNumber, HexValue, HasTopBits, AfterTrailers;
  }

  lemma EndOfBody(s: State, r: Read, c: char)
    requires Agrees(s, r) && Step(s, c).Next? && s.pos == PrevEndLf
    ensures Advances(s, r, c)
  {
    StepKeeps(s, c);
    hide Inv, Chunks, Data, Lines, IsHexDigit, HexNumber, HexValue, HasTopBits, AfterTrailers;
  }

  /** A byte that is taken is the next byte of a text of the encoding, and the output is the data in it. */
  lemma StepReads(s: State, r: Read, c: char)
    requires Agrees(s, r) && Step(s, c).Next?
    ensures Advances(s, r, c)
  {
    Positions(s, c);
    hide *;
    if s.pos == PrevChunkSize {
      FirstDigit(s, r, c);
    } else if s.pos == ChunkSize && IsHexDigit(c) {
      NextDigit(s, r, c);
    } else if s.pos == ChunkSize {
      EndOfDigits(s, r, c);
    } else if s.pos == ChunkExtension {
      InExtension(s, r, c);
    } else if s.pos == PrevChunkSizeLf {
      EndOfSizeLine(s, r, c);
    } else if s.pos == Chunk {
      InChunk(s, r, c);
    } else if s.pos == PrevChunkCr {
      AfterChunk(s, r, c);
    } else if s.pos == PrevChunkLf {
      EndOfChunk(s, r, c);
    } else if s.pos == PrevTrailer {
      FirstOfLine(s, r, c);
    } else if s.pos == Trailer {
      InLine(s, r, c);
    } else if s.pos == PrevTrailerLf {
      EndOfLine(s, r, c);
    } else {
      EndOfBody(s, r, c);
    }
  }

  lemma Positions(s: State, c: char)
    requires Inv(s) && Step(s, c).Next?
    ensures s.pos == PrevChunkSize || s.pos == ChunkSize || s.pos == ChunkExtension || s.pos == PrevChunkSizeLf
      || s.pos == Chunk || s.pos == PrevChunkCr
      || s.pos == PrevChunkLf || s.pos == PrevTrailer || s.pos == Trailer || s.pos == PrevTrailerLf
          || s.pos == PrevEndLf
  {
  }

  lemma ChunkRead(r: Read)
    ensures var cs := r.chunks + [ChunkData(r.size, r.data)];
      Chunks(cs) == AfterSize(r) + r.data + [CR] + [LF] && Data(cs) == Data(r.chunks) + r.data
  {
    var cs := r.chunks + [ChunkData(r.size, r.data)];
    assert cs[..|r.chunks|] == r.chunks;
  }

  lemma LineRead(r: Read)
    ensures AfterTrailers(r.(trailers := r.trailers + [r.line])) == AfterTrailers(r) + r.line + [CR] + [LF]
  {
    var ls := r.trailers + [r.line];
    assert ls[..|r.trailers|] == r.trailers;
    assert [CR] + [LF] == [CR, LF];
  }

  lemma {:induction false} FeedReads(s: State, r: Read, input: string) returns (q: Read)
    requires Agrees(s, r)
    ensures var f := Feed(s, input);
      && f.consumed <= |input| && Agrees(f.state, q)
      && TextAt(f.state.pos, q) == TextAt(s.pos, r) + input[..f.consumed]
      && OutputAt(f.state.pos, q) == OutputAt(s.pos, r) + f.out
    decreases |input|
  {
    hide *;
    q := r;
    if input == "" {
      FeedNothing(s);
      assert input[..0] == "";
    } else {
      FeedUnfold(s, input);
      var c, t := input[0], Step(s, input[0]);
      if t.Next? {
        StepReads(s, r, c);
        Advanced(s, r, c);
        q := FeedReads(t.state, Extended(s, r, c), input[1..]);
        var f := Feed(t.state, input[1..]);
        assert input[..f.consumed + 1] == [c] + input[1..][..f.consumed];
      } else {
        assert input[..0] == "";
      }
    }
  }

  lemma Advanced(s: State, r: Read, c: char)
    requires Advances(s, r, c)
    ensures Step(s, c).Next?
    ensures var t, q := Step(s, c).state, Extended(s, r, c);
      Agrees(t, q) && TextAt(t.pos, q) == TextAt(s.pos, r) + [c]
          && OutputAt(t.pos, q) == OutputAt(s.pos, r) + Step(s, c).out
  {
  }

  /**
   * Soundness: whenever a fresh decoder completes, what it took is the text of a valid body, and what it passed on
   * is that body's data.
   */
  lemma CompleteIsBody(input: string) returns (b: Body)
    requires Feed(START, input).state.pos == ChunksComplete
    ensures var f := Feed(START, input);
      b.Valid() && f.consumed <= |input| && b.Text() == input[..f.consumed] && Data(b.chunks) == f.out
  {
    hide *;
    var r := Read([], SizeLine("", ""), "", [], "");
    NothingRead(r);
    var q := FeedReads(START, r, input);
    b := Body(q.chunks, q.size, q.trailers);
    AllRead(Feed(START, input).state, q, b);
    var f := Feed(START, input);
    assert "" + input[..f.consumed] == input[..f.consumed] && "" + f.out == f.out;
  }

  lemma NothingRead(r: Read)
    requires r == Read([], SizeLine("", ""), "", [], "")
    ensures Agrees(START, r) && TextAt(START.pos, r) == "" && OutputAt(START.pos, r) == ""
  {
    assert Chunks([]) == "" && Data([]) == "";
    hide Chunks, Data, Lines;
  }

  lemma AllRead(s: State, q: Read, b: Body)
    requires Agrees(s, q) && s.pos == ChunksComplete && b == Body(q.chunks, q.size, q.trailers)
    ensures b.Valid() && b.Text() == TextAt(s.pos, q) && Data(b.chunks) == OutputAt(s.pos, q)
  {
    hide Chunks, Lines, Data, Inv, HexNumber, IsHexDigit;
  }

  // ----- the other direction -----

  lemma BodyParts(b: Body)
    requires b.Valid()
    ensures b.Text() == Chunks(b.chunks) + (b.last.Text() + [CR, LF]) + Lines(b.trailers) + [CR, LF]
    ensures forall i :: 0 <= i < |b.chunks| ==> b.chunks[i].Valid()
    ensures b.last.Valid() && HexNumber(b.last.digits) == 0
    ensures forall i :: 0 <= i < |b.trailers| ==> b.trailers[i] != "" && NoCr(b.trailers[i])
    ensures Inv(START)
  {
    hide Chunks, Lines, HexNumber;
    assert Chunks(b.chunks) + b.last.Text() + [CR, LF] == Chunks(b.chunks) + (b.last.Text() + [CR, LF]);
  }

  /** Feeding takes a whole text without error to a state that satisfies the invariant. */
  predicate Takes(s: State, text: string, t: State, out: string) {
    Feed(s, text) == Fed(t, out, |text|, NoError) && Inv(s) && Inv(t)
  }

  lemma Then(s: State, a: string, b: string)
    requires Inv(s) && Feed(s, a).error.NoError?
    ensures var f := Feed(s, a);
      var g := Feed(f.state, b);
      Feed(s, a + b) == Fed(g.state, f.out + g.out, f.consumed + g.consumed, g.error)
  {
    hide Feed, Inv;
    Fragmentation(s, a, b);
  }

  lemma TakesThen(s: State, a: string, t: State, x: string, b: string, u: State, y: string)
    requires Takes(s, a, t, x) && Takes(t, b, u, y)
    ensures Takes(s, a + b, u, x + y)
    ensures y == "" ==> Takes(s, a + b, u, x)
    ensures x == "" ==> Takes(s, a + b, u, y)
  {
    hide Feed, Inv;
    Then(s, a, b);
    assert x + "" == x && "" + y == y;
  }

  lemma TakesOne(s: State, c: char)
    requires Inv(s) && Step(s, c).Next?
    ensures Takes(s, [c], Step(s, c).state, Step(s, c).out)
  {
    hide Step, Inv, Feed;
    StepKeeps(s, c);
    FeedUnfold(s, [c]);
    FeedNothing(Step(s, c).state);
    assert [c][1..] == "" && Step(s, c).out + "" == Step(s, c).out;
  }

  lemma TakesNothing(s: State)
    requires Inv(s)
    ensures Takes(s, "", s, "")
  {
    hide Feed, Inv;
    FeedNothing(s);
  }

  /** One more byte after a text. */
  lemma TakesMore(s: State, text: string, t: State, out: string, c: char)
    requires Takes(s, text, t, out) && Step(t, c).Next?
    ensures Takes(s, text + [c], Step(t, c).state, out + Step(t, c).out)
    ensures Step(t, c).out == "" ==> Takes(s, text + [c], Step(t, c).state, out)
    ensures text == "" ==> text + [c] == [c]
  {
    hide Step, Feed, Inv;
    TakesOne(t, c);
    TakesThen(s, text, t, out, [c], Step(t, c).state, Step(t, c).out);
  }

  lemma {:induction false} TakesDigits(digits: string)
    requires digits != "" && (forall i :: 0 <= i < |digits| ==> IsHexDigit(digits[i])) && HexNumber(digits) < LIMIT
    ensures 0 <= HexNumber(digits) && Takes(START, digits, State(ChunkSize, HexNumber(digits), 0), "")
  {
    hide Takes, IsHexDigit, HasTopBits, HexValue;
    var n := |digits| - 1;
    var c := digits[n];
    assert digits == digits[..n] + [c];
    if n == 0 {
      assert HexNumber(digits[..n]) == 0;
      TakesNothing(START);
      TakesMore(START, "", START, "", c);
    } else {
      TakesDigits(digits[..n]);
      var t := State(ChunkSize, HexNumber(digits[..n]), 0);
      StepKeeps(t, c);
      TakesMore(START, digits[..n], t, "", c);
    }
  }

  lemma {:induction false} TakesExtension(size: int, ext: string)
    requires 0 <= size < LIMIT && NoCr(ext) && (ext == "" || ext[0] == ';')
    ensures Takes(State(ChunkSize, size, 0), ext, State(if ext == "" then ChunkSize else ChunkExtension, size, 0), "")
  {
    hide Takes, HasTopBits;
    var s := State(ChunkSize, size, 0);
    if ext == "" {
      TakesNothing(s);
    } else {
      var n := |ext| - 1;
      assert ext == ext[..n] + [ext[n]];
      TakesExtension(size, ext[..n]);
      TakesMore(s, ext[..n], State(if n == 0 then ChunkSize else ChunkExtension, size, 0), "", ext[n]);
    }
  }

  lemma TakesSizeLine(line: SizeLine)
    requires line.Valid()
    ensures var v := HexNumber(line.digits);
      0 <= v && Takes(START, line.Text() + [CR, LF], State(if v == 0 then PrevTrailer else Chunk, v, v), "")
  {
    hide Takes, HexNumber, HasTopBits;
    TakesDigits(line.digits);
    var v := HexNumber(line.digits);
    TakesExtension(v, line.extension);
    var t := State(if line.extension == "" then ChunkSize else ChunkExtension, v, 0);
    TakesThen(START, line.digits, State(ChunkSize, v, 0), "", line.extension, t, "");
    TakesMore(START, line.Text(), t, "", CR);
    TakesMore(START, line.Text() + [CR], t.(pos := PrevChunkSizeLf), "", LF);
    assert line.Text() + [CR] + [LF] == line.Text() + [CR, LF];
  }

  lemma TakesLastLine(line: SizeLine)
    requires line.Valid() && HexNumber(line.digits) == 0
    ensures Takes(START, line.Text() + [CR, LF], AtTrailers(), "")
  {
    hide Takes, HexNumber;
    TakesSizeLine(line);
  }

  lemma {:induction false} TakesData(size: int, data: string)
    requires |data| <= size < LIMIT && size > 0
    ensures Takes(State(Chunk, size, size), data, AfterData(size, |data|), data)
  {
    hide Takes, Step;
    var s := State(Chunk, size, size);
    if data == "" {
      TakesNothing(s);
    } else {
      var n := |data| - 1;
      assert data == data[..n] + [data[n]];
      TakesData(size, data[..n]);
      DataStep(size, n, data[n]);
      TakesMore(s, data[..n], AfterData(size, n), data[..n], data[n]);
    }
  }

  function AfterData(size: int, n: nat): State {
    State(if n == size then PrevChunkCr else Chunk, size, size - n)
  }

  lemma DataStep(size: int, n: nat, c: char)
    requires n < size
    ensures Step(AfterData(size, n), c) == Next(AfterData(size, n + 1), [c])
  {
  }

  lemma TakesChunk(c: ChunkData)
    requires c.Valid()
    ensures Takes(START, c.Text(), START, c.data)
  {
    hide Takes, HexNumber, IsHexDigit;
    var v, head := |c.data|, c.size.Text() + [CR, LF];
    TakesSizeLine(c.size);
    TakesData(v, c.data);
    var t := State(PrevChunkCr, v, 0);
    TakesThen(START, head, State(Chunk, v, v), "", c.data, t, c.data);
    assert "" + c.data == c.data && c.data + "" == c.data;
    TakesMore(START, head + c.data, t, c.data, CR);
    TakesMore(START, head + c.data + [CR], t.(pos := PrevChunkLf), c.data, LF);
    assert head + c.data + [CR] + [LF] == c.Text();
  }

  lemma {:induction false} TakesChunks(cs: seq<ChunkData>)
    requires forall i :: 0 <= i < |cs| ==> cs[i].Valid()
    ensures Takes(START, Chunks(cs), START, Data(cs))
  {
    hide Takes;
    if cs == [] {
      TakesNothing(START);
    } else {
      var n := |cs| - 1;
      TakesChunks(cs[..n]);
      TakesChunk(cs[n]);
      TakesThen(START, Chunks(cs[..n]), START, Data(cs[..n]), cs[n].Text(), START, cs[n].data);
    }
  }

  lemma {:induction false} TakesPartOfLine(line: string)
    requires line != "" && NoCr(line)
    ensures Takes(AtTrailers(), line, State(Trailer, 0, 0), "")
  {
    hide Takes;
    var n := |line| - 1;
    assert line == line[..n] + [line[n]];
    if n == 0 {
      TakesNothing(AtTrailers());
      TakesMore(AtTrailers(), "", AtTrailers(), "", line[0]);
    } else {
      TakesPartOfLine(line[..n]);
      TakesMore(AtTrailers(), line[..n], State(Trailer, 0, 0), "", line[n]);
    }
  }

  lemma {:induction false} TakesLines(ls: seq<string>)
    requires forall i :: 0 <= i < |ls| ==> ls[i] != "" && NoCr(ls[i])
    ensures Takes(AtTrailers(), Lines(ls), AtTrailers(), "")
  {
    hide Takes;
    if ls == [] {
      TakesNothing(AtTrailers());
    } else {
      var n := |ls| - 1;
      var before, line := Lines(ls[..n]), ls[n];
      TakesLines(ls[..n]);
      TakesPartOfLine(line);
      TakesThen(AtTrailers(), before, AtTrailers(), "", line, State(Trailer, 0, 0), "");
      TakesMore(AtTrailers(), before + line, State(Trailer, 0, 0), "", CR);
      TakesMore(AtTrailers(), before + line + [CR], State(PrevTrailerLf, 0, 0), "", LF);
      assert before + line + [CR] + [LF] == before + line + [CR, LF];
    }
  }

  lemma TakesEnd()
    ensures Takes(AtTrailers(), [CR, LF], Complete(), "")
  {
    hide Takes;
    TakesNothing(AtTrailers());
    TakesMore(AtTrailers(), "", AtTrailers(), "", CR);
    TakesMore(AtTrailers(), [CR], State(PrevEndLf, 0, 0), "", LF);
    assert [CR] + [LF] == [CR, LF];
  }

  /** Completeness: feeding the text of a valid body, whatever follows it, completes and takes exactly the text. */
  lemma BodyCompletes(b: Body, rest: string)
    requires b.Valid()
    ensures var f := Feed(START, b.Text() + rest);
      f.state.pos == ChunksComplete && f.error.NoError? && f.consumed == |b.Text()| && f.out == Data(b.chunks)
  {
    hide *;
    BodyParts(b);
    var chunks, last, lines, s := Chunks(b.chunks), b.last.Text() + [CR, LF], Lines(b.trailers), AtTrailers();
    TakesChunks(b.chunks);
    TakesLastLine(b.last);
    TakesThen(START, chunks, START, Data(b.chunks), last, s, "");
    TakesLines(b.trailers);
    TakesThen(START, chunks + last, s, Data(b.chunks), lines, s, "");
    TakesEnd();
    TakesThen(START, chunks + last + lines, s, Data(b.chunks), [CR, LF], Complete(), "");
    Followed(START, b.Text(), Complete(), Data(b.chunks), rest);
  }

  function AtTrailers(): State { State(PrevTrailer, 0, 0) }

  function Complete(): State { State(ChunksComplete, 0, 0) }

  lemma Followed(s: State, text: string, t: State, out: string, rest: string)
    requires Takes(s, text, t, out) && t == Complete()
    ensures var f := Feed(s, text + rest);
      f.state.pos == ChunksComplete && f.error.NoError? && f.consumed == |text| && f.out == out
  {
    hide Feed, Inv;
    Then(s, text, rest);
    CompleteTakesNothing(t, rest);
  }

  /** However the transfer is cut into buffers: the body comes out, and the bytes counted are those of the encoding. */
  lemma DeliveredInPieces(b: Body, rest: string, parts: seq<string>)
    requires b.Valid() && Concat(parts) == b.Text() + rest
    ensures var f := FeedAll(START, parts);
      f.state.pos == ChunksComplete && f.error.NoError? && f.consumed == |b.Text()| && f.out == Data(b.chunks)
  {
    hide Feed, FeedAll;
    AnyFragmentation(START, parts);
    BodyCompletes(b, rest);
  }

  // ----- what is refused -----

  /** Feeding takes all of the text and completes. */
  predicate Finishes(s: State, text: string) {
    Feed(s, text).error.NoError? && Feed(s, text).state.pos == ChunksComplete && Feed(s, text).consumed == |text|
  }

  lemma FinishesAfter(s: State, c: char, text: string)
    requires Inv(s) && Step(s, c).Next? && Finishes(Step(s, c).state, text)
    ensures Inv(Step(s, c).state) && Finishes(s, [c] + text)
  {
    hide Step, Inv, Feed;
    StepKeeps(s, c);
    FeedUnfold(s, [c] + text);
    assert ([c] + text)[1..] == text;
  }

  /** From the trailers on there is always a way to complete. */
  lemma {:induction false} FromTrailer(s: State) returns (text: string)
    requires Inv(s) && s.size == 0
    requires s.pos == PrevTrailer || s.pos == Trailer || s.pos == PrevTrailerLf || s.pos == PrevEndLf
    ensures Finishes(s, text)
    decreases if s.pos == Trailer then 3 else if s.pos == PrevTrailerLf then 2 else if s.pos
      == PrevTrailer then 1 else 0
  {
    hide Feed;
    var c := if s.pos == PrevTrailer || s.pos == Trailer then CR else LF;
    var next := Step(s, c).state;
    if s.pos == PrevEndLf {
      text := "";
      CompleteTakesNothing(next, text);
    } else {
      text := FromTrailer(next);
    }
    FinishesAfter(s, c, text);
    text := [c] + text;
  }

  /** A size line, a chunk or what ends it can be brought to an end, too. */
  lemma {:induction false} FromChunk(s: State) returns (text: string)
    requires Inv(s) && s.pos == Chunk
    ensures Finishes(s, text)
    decreases s.remaining
  {
    hide Feed;
    var next := Step(s, 'x').state;
    StepKeeps(s, 'x');
    if s.remaining == 1 {
      text := FromEndOfChunk(next);
    } else {
      text := FromChunk(next);
    }
    FinishesAfter(s, 'x', text);
    text := ['x'] + text;
  }

  lemma FromEndOfChunk(s: State) returns (text: string)
    requires Inv(s) && (s.pos == PrevChunkCr || s.pos == PrevChunkLf)
    ensures Finishes(s, text)
  {
    hide Feed;
    text := FromStart(START);
    FinishesAfter(s.(pos := PrevChunkLf), LF, text);
    text := [LF] + text;
    if s.pos == PrevChunkCr {
      FinishesAfter(s, CR, text);
      text := [CR] + text;
    }
  }

  lemma FromStart(s: State) returns (text: string)
    requires Inv(s) && s.pos == PrevChunkSize
    ensures Finishes(s, text)
  {
    hide Feed;
    text := FromTrailer(AtTrailers());
    FinishesAfter(State(PrevChunkSizeLf, 0, s.remaining), LF, text);
    FinishesAfter(State(ChunkSize, 0, s.remaining), CR, [LF] + text);
    FinishesAfter(s, '0', [CR] + ([LF] + text));
    text := ['0'] + ([CR] + ([LF] + text));
  }

  lemma FromSize(s: State) returns (text: string)
    requires Inv(s) && (s.pos == ChunkSize || s.pos == ChunkExtension || s.pos == PrevChunkSizeLf)
    ensures Finishes(s, text)
  {
    hide Feed;
    var lf := s.(pos := PrevChunkSizeLf);
    StepKeeps(lf, LF);
    if s.size == 0 {
      text := FromTrailer(Step(lf, LF).state);
    } else {
      text := FromChunk(Step(lf, LF).state);
    }
    FinishesAfter(lf, LF, text);
    text := [LF] + text;
    if s.pos != PrevChunkSizeLf {
      FinishesAfter(s, CR, text);
      text := [CR] + text;
    }
  }

  /** Some valid body's text begins with this. */
  ghost predicate Begins(text: string) {
    exists b: Body, rest: string :: b.Valid() && b.Text() == text + rest
  }

  lemma BeginsIfFinishes(text: string, rest: string)
    requires Finishes(START, text + rest)
    ensures Begins(text)
  {
    hide Feed;
    var b := CompleteIsBody(text + rest);
    assert (text + rest)[..|text + rest|] == text + rest;
  }

  /** What was taken without error begins a valid body's text, if it is not one already. */
  lemma TakenBegins(text: string)
    requires Feed(START, text).error.NoError? && Feed(START, text).consumed == |text|
    ensures Begins(text)
  {
    hide Feed, Begins, Inv, Body.Text, Body.Valid;
    InvAtStart();
    FeedKeeps(START, text);
    var s := Feed(START, text).state;
    if s.pos == ChunksComplete {
      assert text + "" == text;
      BeginsIfFinishes(text, "");
    } else {
      var rest := Completion(text, s);
      Then(START, text, rest);
      BeginsIfFinishes(text, rest);
    }
  }

  lemma InvAtStart()
    ensures Inv(START)
  {
  }

  lemma Completion(text: string, s: State) returns (rest: string)
    requires Feed(START, text).error.NoError? && s == Feed(START, text).state && s.pos != ChunksComplete
    ensures Finishes(s, rest)
  {
    hide Feed, Step, Finishes;
    var r := Read([], SizeLine("", ""), "", [], "");
    NothingRead(r);
    var q := FeedReads(START, r, text);
    if s.pos == PrevChunkSize {
      rest := FromStart(s);
    } else if s.pos == ChunkSize || s.pos == ChunkExtension || s.pos == PrevChunkSizeLf {
      rest := FromSize(s);
    } else if s.pos == Chunk {
      rest := FromChunk(s);
    } else if s.pos == PrevChunkCr || s.pos == PrevChunkLf {
      rest := FromEndOfChunk(s);
    } else {
      rest := FromTrailer(s);
    }
  }

  /** A failed feed fails at the byte that it counts up to, whatever follows. */
  lemma FailsAtByte(input: string)
    requires Feed(START, input).error.Failed?
    ensures var k := Feed(START, input).consumed;
      && k < |input| && Feed(START, input[..k + 1]).error.Failed?
      && Feed(START, input[..k]).error.NoError? && Feed(START, input[..k]).consumed == k
  {
    hide Feed, Inv;
    InvAtStart();
    FeedKeeps(START, input);
    var k := Feed(START, input).consumed;
    assert input == input[..k] + input[k..] == input[..k + 1] + input[k + 1..];
    Fragmentation(START, input[..k], input[k..]);
    Fragmentation(START, input[..k + 1], input[k + 1..]);
    FeedKeeps(START, input[..k]);
    FeedKeeps(START, input[..k + 1]);
    if Feed(START, input[..k + 1]).error.NoError? && Feed(START, input[..k + 1]).state.pos == ChunksComplete {
      CompleteTakesNothing(Feed(START, input[..k + 1]).state, input[k + 1..]);
    }
    if Feed(START, input[..k]).error.NoError? && Feed(START, input[..k]).state.pos == ChunksComplete {
      CompleteTakesNothing(Feed(START, input[..k]).state, input[k..]);
    }
  }

  /**
   * The decoder refuses a byte exactly if no text of a valid body goes on with it: what it has taken always begins
   * such a text, and with the byte that it refuses no longer does.
   */
  lemma RefusesExactly(input: string)
    ensures var f := Feed(START, input);
      && f.consumed <= |input| && Begins(input[..f.consumed])
      && (f.error.Failed? ==> f.consumed < |input| && !Begins(input[..f.consumed + 1]))
      && (f.error.NoError? ==> f.consumed == |input| || f.state.pos == ChunksComplete)
  {
    hide Feed, Inv, Begins;
    InvAtStart();
    FeedKeeps(START, input);
    var f := Feed(START, input);
    if f.error.Failed? {
      FailsAtByte(input);
      TakenBegins(input[..f.consumed]);
      RefusedBeginsNothing(input[..f.consumed + 1]);
    } else {
      TakenWithoutRest(input);
      TakenBegins(input[..f.consumed]);
    }
  }

  lemma RefusedBeginsNothing(text: string)
    requires Feed(START, text).error.Failed?
    ensures !Begins(text)
  {
    hide Feed, Inv, Body.Text, Body.Valid;
    InvAtStart();
    forall b: Body, rest: string | b.Valid() && b.Text() == text + rest ensures false {
      BodyCompletes(b, "");
      assert b.Text() + "" == text + rest;
      Fragmentation(START, text, rest);
    }
  }

  /** What follows the bytes taken plays no part. */
  lemma TakenWithoutRest(input: string)
    requires Feed(START, input).error.NoError?
    ensures var k := Feed(START, input).consumed;
      k <= |input| && Feed(START, input[..k]).error.NoError? && Feed(START, input[..k]).consumed == k
  {
    hide Feed, Inv;
    InvAtStart();
    FeedKeeps(START, input);
    var k := Feed(START, input).consumed;
    assert input == input[..k] + input[k..];
    Fragmentation(START, input[..k], input[k..]);
    FeedKeeps(START, input[..k]);
    if Feed(START, input[..k]).state.pos == ChunksComplete {
      CompleteTakesNothing(Feed(START, input[..k]).state, input[k..]);
    }
  }

  // ----- an encoder -----

  /** The digits mean what they should, in either case, and there are no others. */
  lemma HexDigits(c: char)
    ensures forall k :: 0 <= k < 16 ==> HexValue("0123456789abcdef"[k]) == k && HexValue("0123456789ABCDEF"[k]) == k
    ensures IsHexDigit(c) <==> c in "0123456789abcdefABCDEF"
  {
    var lower, upper, all := "0123456789abcdef", "0123456789ABCDEF", "0123456789abcdefABCDEF";
    assert |lower| == |upper| == 16;
    if IsHexDigit(c) {
      if c <= '9' {
        assert all[c as int - '0' as int] == c;
      } else if c <= 'F' {
        assert all[16 + c as int - 'A' as int] == c;
      } else {
        assert all[10 + c as int - 'a' as int] == c;
      }
    }
  }

  function HexDigit(k: nat): char
    requires k < 16
  {
    "0123456789abcdef"[k]
  }

  /** A number in hexadecimal digits. */
  function Hex(n: nat): string {
    if n < 16 then [HexDigit(n)] else Hex(n / 16) + [HexDigit(n % 16)]
  }

  lemma {:induction false} HexIsNumber(n: nat)
    ensures Hex(n) != "" && (forall i :: 0 <= i < |Hex(n)| ==> IsHexDigit(Hex(n)[i])) && HexNumber(Hex(n)) == n
  {
    hide IsHexDigit, HexValue, HexDigit;
    var d := HexDigit(n % 16);
    DigitValue(n % 16);
    if n < 16 {
      HexAppend("", d);
      assert "" + [d] == [d];
    } else {
      HexIsNumber(n / 16);
      HexAppend(Hex(n / 16), d);
    }
  }

  lemma DigitValue(k: nat)
    requires k < 16
    ensures IsHexDigit(HexDigit(k)) && HexValue(HexDigit(k)) == k
  {
    HexDigits(HexDigit(k));
    assert "0123456789abcdefABCDEF"[k] == HexDigit(k);
  }

  /** Each piece of data in a chunk of its own. */
  function EncodedChunks(pieces: seq<string>): string {
    if pieces == [] then ""
    else
      var last := pieces[|pieces| - 1];
      EncodedChunks(pieces[..|pieces| - 1]) + Hex(|last|) + "\r\n" + last + "\r\n"
  }

  /** The encoding of some data without extensions and trailers. */
  function Encoded(pieces: seq<string>): string {
    EncodedChunks(pieces) + "0\r\n\r\n"
  }

  function ChunksOf(pieces: seq<string>): seq<ChunkData> {
    if pieces == [] then []
    else
      var last := pieces[|pieces| - 1];
      ChunksOf(pieces[..|pieces| - 1]) + [ChunkData(SizeLine(Hex(|last|), ""), last)]
  }

  lemma {:induction false} ChunksOfAre(pieces: seq<string>)
    requires forall p :: p in pieces ==> 0 < |p| < 0x8000000000000000
    ensures forall i :: 0 <= i < |ChunksOf(pieces)| ==> ChunksOf(pieces)[i].Valid()
    ensures Chunks(ChunksOf(pieces)) == EncodedChunks(pieces)
    ensures Data(ChunksOf(pieces)) == Concat(pieces)
  {
    hide Hex, ChunkData.Valid, ChunkData.Text;
    if pieces != [] {
      var init, last := pieces[..|pieces| - 1], pieces[|pieces| - 1];
      var c := ChunkData(SizeLine(Hex(|last|), ""), last);
      ChunksOfAre(init);
      OneChunk(last, c);
      assert ChunksOf(pieces)[..|ChunksOf(init)|] == ChunksOf(init);
      assert pieces == init + [last];
      ConcatSnoc(init, last);
      Regroup(EncodedChunks(init), Hex(|last|), last);
    }
  }

  lemma OneChunk(data: string, c: ChunkData)
    requires 0 < |data| < 0x8000000000000000 && c == ChunkData(SizeLine(Hex(|data|), ""), data)
    ensures c.Valid() && c.Text() == Hex(|data|) + "\r\n" + data + "\r\n"
  {
    hide Hex, HexNumber, IsHexDigit;
    HexIsNumber(|data|);
    assert Hex(|data|) + "" == Hex(|data|);
  }

  lemma Regroup(before: string, size: string, data: string)
    ensures before + (size + "\r\n" + data + "\r\n") == before + size + "\r\n" + data + "\r\n"
  {
  }

  lemma {:induction false} ConcatSnoc(parts: seq<string>, last: string)
    ensures Concat(parts + [last]) == Concat(parts) + last
  {
    if parts == [] {
      assert [last][1..] == [] && "" + last == last;
    } else {
      assert (parts + [last])[1..] == parts[1..] + [last];
      ConcatSnoc(parts[1..], last);
    }
  }

  /** What is encoded comes out again, whatever follows it. */
  lemma EncodedComesOut(pieces: seq<string>, rest: string)
    requires forall p :: p in pieces ==> 0 < |p| < 0x8000000000000000
    ensures var f := Feed(START, Encoded(pieces) + rest);
      && f.state.pos == ChunksComplete && f.error.NoError?
      && f.consumed == |Encoded(pieces)| && f.out == Concat(pieces)
  {
    hide Feed, ChunksOf, EncodedChunks, Chunks, Data;
    ChunksOfAre(pieces);
    var b := Body(ChunksOf(pieces), SizeLine("0", ""), []);
    HexDigits('0');
    HexAppend("", '0');
    assert "" + ['0'] == "0";
    assert b.Valid();
    assert Lines([]) == "";
    assert b.Text() == Encoded(pieces);
    BodyCompletes(b, rest);
  }
}
