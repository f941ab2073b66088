/** The stream filter that decodes the chunked transfer coding and passes the data on to its delegate. */
module ChunkedDecoding {
  import opened ChunkedSpec

  /** The state after n bytes of chunk data. */
  function AfterPiece(s: State, n: nat): State {
    State(if n == s.remaining then PrevChunkCr else Chunk, s.size, s.remaining - n)
  }

  lemma DataByte(s: State, c: char)
    requires s.pos == Chunk
    ensures Step(s, c) == Next(AfterPiece(s, 1), [c])
  {
  }

  /** Data is taken from the buffer in one piece, as far as chunk and buffer reach. */
  lemma {:induction false} DataInOnePiece(s: State, input: string, n: nat)
    requires s.pos == Chunk && 0 < n <= s.remaining && n <= |input|
    ensures var f := Feed(AfterPiece(s, n), input[n..]);
      Feed(s, input) == Fed(f.state, input[..n] + f.out, n + f.consumed, f.error)
    decreases n
  {
    hide Feed, Step;
    FeedUnfold(s, input);
    DataByte(s, input[0]);
    assert input[..1] == [input[0]];
    if n > 1 {
      var rest := input[1..];
      DataInOnePiece(AfterPiece(s, 1), rest, n - 1);
      assert AfterPiece(AfterPiece(s, 1), n - 1) == AfterPiece(s, n);
      assert rest[n - 1..] == input[n..];
      var f := Feed(AfterPiece(s, n), input[n..]);
      assert [input[0]] + (rest[..n - 1] + f.out) == input[..n] + f.out;
    }
  }

  /** What taking one byte outside of chunk data comes to. */
  ghost predicate Took(s: State, c: char, t: State, error: Status) {
    var r := Step(s, c);
    if r.Fail? then error == Failed(r.error) && t == s else error == NoError && r == Next(t, "")
  }

  class ChunkedDecodingStreamFilter {
    var state: Pos
    var chunkSize: int
    var chunkRemaining: int
    var bytesProcessed: nat
    /** What the delegate has received. */
    var delivered: string

    function Current(): State
      reads this
    {
      State(state, chunkSize, chunkRemaining)
    }

    predicate Valid()
      reads this
    {
      Inv(Current())
    }

    constructor ()
      ensures Valid() && Current() == START && delivered == "" && bytesProcessed == 0
    {
      state, chunkSize, chunkRemaining, bytesProcessed, delivered := PrevChunkSize, 0, 0, 0, "";
    }

    /** The cases of the switch that take one byte and pass nothing on. */
    method TakeByte(c: char) returns (error: Status)
      requires Valid() && state != Chunk && state != ChunksComplete
      modifies `state, `chunkSize, `chunkRemaining
      ensures Valid()
      ensures Took(old(Current()), c, Current(), error)
    {
      StepKeeps(Current(), c);
      error := NoError;
      if state == PrevChunkSize {
        if IsHexDigit(c) {
          chunkSize := HexValue(c);
          state := ChunkSize;
        } else {
          error := Failed(BadChunkSize);
        }
      } else if state == ChunkSize {
        if IsHexDigit(c) {
          if HasTopBits(chunkSize) {
            error := Failed(TooBigChunkSize);
          } else {
            chunkSize := chunkSize * 16;
            chunkSize := chunkSize + HexValue(c);
          }
        } else if c == ';' {
          state := ChunkExtension;
        } else if c == CR {
          state := PrevChunkSizeLf;
        } else {
          error := Failed(BadChunkSize);
        }
      } else if state == ChunkExtension {
        if c == CR {
          state := PrevChunkSizeLf;
        }
      } else if state == PrevChunkSizeLf {
        if c == LF {
          chunkRemaining := chunkSize;
          if chunkSize == 0 {
            state := PrevTrailer;
          } else {
            state := Chunk;
          }
        } else {
          error := Failed(NoLfAfterSize);
        }
      } else if state == PrevChunkCr {
        if c == CR {
          state := PrevChunkLf;
        } else {
          error := Failed(NoCrAfterChunk);
        }
      } else if state == PrevChunkLf {
        if c == LF {
          if chunkSize == 0 {
            // The source goes on to the trailer here; no chunk is empty, so it never does.
            assert false;
          } else {
            chunkSize, chunkRemaining := 0, 0;
            state := PrevChunkSize;
          }
        } else {
          error := Failed(NoLfAfterChunk);
        }
      } else if state == PrevTrailer {
        if c == CR {
          state := PrevEndLf;
        } else {
          state := Trailer;
        }
      } else if state == Trailer {
        if c == CR {
          state := PrevTrailerLf;
        }
      } else if state == PrevTrailerLf {
        if c == LF {
          state := PrevTrailer;
        } else {
          error := Failed(NoLfAfterTrailer);
        }
      } else if state == PrevEndLf {
        if c == LF {
          state := ChunksComplete;
        } else {
          error := Failed(NoLfAtEnd);
        }
      } else {
        // The default case of the switch cannot be reached.
        assert false;
      }
    }

    /** The chunk case: as much data as chunk and buffer hold goes to the delegate in one piece. */
    method PassOn(inbuf: string, i: nat) returns (readlen: nat)
      requires Valid() && state == Chunk && i < |inbuf|
      modifies `state, `chunkRemaining, `delivered
      ensures 0 < readlen <= old(chunkRemaining) && i + readlen <= |inbuf|
      ensures delivered == old(delivered) + inbuf[i..i + readlen]
      ensures Current() == AfterPiece(old(Current()), readlen) && Valid()
    {
      readlen := if chunkRemaining < |inbuf| - i then chunkRemaining else |inbuf| - i;
      delivered := delivered + inbuf[i..i + readlen];
      chunkRemaining := chunkRemaining - readlen;
      if chunkRemaining == 0 {
        state := PrevChunkCr;
      }
    }

    /** transform: an exception leaves the state where it was at the offending byte and the byte count at zero. */
    method Transform(inbuf: string) returns (outlen: nat, error: Status)
      requires Valid()
      modifies this
      ensures Valid()
      ensures var f := Feed(old(Current()), inbuf);
        && Current() == f.state && delivered == old(delivered) + f.out && error == f.error
        && (error.NoError? ==> outlen == |f.out| && bytesProcessed == f.consumed)
        && (error.Failed? ==> bytesProcessed == 0)
    {
      outlen := 0;
      bytesProcessed := 0;
      ghost var start, before, out := Current(), delivered, "";
      assert before + "" == before;
      Beginning(start, inbuf);
      hide Feed, Step, Inv, Underway, AfterPiece, Took;
      var i := 0;
      while i < |inbuf|
        invariant 0 <= i <= |inbuf| && Valid() && delivered == before + out && outlen == |out| && bytesProcessed == 0
        invariant Underway(start, Current(), inbuf, i, out)
        decreases |inbuf| - i
      {
        ghost var s := Current();
        if state == Chunk {
          var readlen := PassOn(inbuf, i);
          outlen := outlen + readlen;
          Piece(start, s, inbuf, i, out, readlen);
          Joined(before, out, inbuf, i, readlen);
          out := out + inbuf[i..i + readlen];
          i := i + readlen;
        } else if state == ChunksComplete {
          Ending(start, s, inbuf, i, out);
          bytesProcessed := bytesProcessed + i;
          return outlen, NoError;
        } else {
          error := TakeByte(inbuf[i]);
          OneByte(start, s, inbuf, i, out, Current(), error);
          if error.Failed? {
            return;
          }
          i := i + 1;
        }
      }
      Exhausted(start, Current(), inbuf, out);
      bytesProcessed := bytesProcessed + i;
      error := NoError;
    }

    /** finished: the body was taken completely and the delegate is finished. */
    predicate Finished(delegateFinished: bool): (r: bool)
      requires Valid()
      reads this
      ensures r <==> Current().pos == ChunkedSpec.ChunksComplete && delegateFinished
    {
      state == ChunksComplete && delegateFinished
    }
  }

  /** What is left to do of a call: the rest of the buffer, from the state reached. */
  ghost predicate Underway(start: State, s: State, inbuf: string, i: nat, out: string)
  {
    i <= |inbuf| &&
    var f, g := Feed(start, inbuf), Feed(s, inbuf[i..]);
    f == Fed(g.state, out + g.out, i + g.consumed, g.error)
  }

  lemma Beginning(s: State, inbuf: string)
    ensures Underway(s, s, inbuf, 0, "")
  {
    hide Feed;
    assert inbuf[0..] == inbuf && "" + Feed(s, inbuf).out == Feed(s, inbuf).out;
  }

  lemma Joined(before: string, out: string, inbuf: string, i: nat, n: nat)
    requires i + n <= |inbuf|
    ensures (before + out) + inbuf[i..i + n] == before + (out + inbuf[i..i + n]) && |out + inbuf[i..i + n]| == |out| + n
  {
  }

  lemma Piece(start: State, s: State, inbuf: string, i: nat, out: string, n: nat)
    requires Underway(start, s, inbuf, i, out) && s.pos == Chunk && 0 < n <= s.remaining && i + n <= |inbuf|
    ensures Underway(start, AfterPiece(s, n), inbuf, i + n, out + inbuf[i..i + n])
  {
    hide Feed;
    var t := AfterPiece(s, n);
    DataInOnePiece(s, inbuf[i..], n);
    assert inbuf[i..][n..] == inbuf[i + n..] && inbuf[i..][..n] == inbuf[i..i + n];
    var g := Feed(t, inbuf[i + n..]);
    assert out + (inbuf[i..i + n] + g.out) == (out + inbuf[i..i + n]) + g.out;
  }

  lemma OneByte(start: State, s: State, inbuf: string, i: nat, out: string, t: State, error: Status)
    requires Underway(start, s, inbuf, i, out) && i < |inbuf| && Took(s, inbuf[i], t, error)
    ensures error.NoError? ==> Underway(start, t, inbuf, i + 1, out)
    ensures error.Failed? ==> Feed(start, inbuf) == Fed(t, out, i, error)
  {
    hide Feed, Step;
    var rest := inbuf[i..];
    FeedUnfold(s, rest);
    assert rest[0] == inbuf[i] && rest[1..] == inbuf[i + 1..] && out + "" == out;
    if error.NoError? {
      var g := Feed(t, inbuf[i + 1..]);
      assert "" + g.out == g.out;
    }
  }

  lemma Ending(start: State, s: State, inbuf: string, i: nat, out: string)
    requires Underway(start, s, inbuf, i, out) && s.pos == ChunksComplete
    ensures Feed(start, inbuf) == Fed(s, out, i, NoError)
  {
    hide Feed;
    CompleteTakesNothing(s, inbuf[i..]);
    assert out + "" == out;
  }

  lemma Exhausted(start: State, s: State, inbuf: string, out: string)
    requires Underway(start, s, inbuf, |inbuf|, out)
    ensures Feed(start, inbuf) == Fed(s, out, |inbuf|, NoError)
  {
    hide Feed;
    assert inbuf[|inbuf|..] == "" && out + "" == out;
    FeedNothing(s);
  }
}
