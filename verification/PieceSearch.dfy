/**
 * The searches for the next block to fetch, over two bit vectors: `busy`, the blocks not to be chosen, and `use`,
 * the blocks someone is fetching.
 */
module PieceSearch {
  import opened Bytes
  import opened Bitfield

  /** A block range [startIndex, endIndex). */
  datatype Range = Range(startIndex: nat, endIndex: nat)
  {
    function GetSize(): int { endIndex - startIndex }
  }

  /** The length of n blocks; the last block of a download counts in full. */
  function Span(n: int, blockLength: int): int {
    n * blockLength
  }

  lemma SpanGrows(a: int, b: int, blockLength: int)
    requires a <= b && blockLength > 0
    ensures Span(a, blockLength) <= Span(b, blockLength)
    ensures Span(1, blockLength) == blockLength
  {
  }

  /** Bit vectors of one size for a number of blocks. */
  predicate Sized(busy: seq<bv8>, use: seq<bv8>, blocks: nat) {
    |busy| == |use| && blocks <= 8 * |busy|
  }

  // ----- free runs -----

  /** [s, e) is a run of free blocks that cannot be made longer. */
  ghost predicate IsRun(busy: seq<bv8>, blocks: nat, s: nat, e: nat)
    requires blocks <= 8 * |busy|
  {
    && s < e <= blocks
    && (forall i: nat :: s <= i < e ==> !Test(busy, i))
    && (s > 0 ==> Test(busy, s - 1))
    && (e < blocks ==> Test(busy, e))
  }

  /** Where fetching would start in a run: at its middle if the block before it is being fetched. */
  function Candidate(use: seq<bv8>, s: nat, e: nat): Range
    requires s < e <= 8 * |use|
  {
    Range(if s > 0 && Test(use, s - 1) then (e - s) / 2 + s else s, e)
  }

  /** The block before is there already, so fetching can go on from it. */
  predicate Continues(busy: seq<bv8>, use: seq<bv8>, i: nat)
    requires |busy| == |use| && i <= 8 * |busy|
  {
    i > 0 && Test(busy, i - 1) && !Test(use, i - 1)
  }

  /** Whether one candidate is chosen over another wherever it stands: it is longer, or as long and continues. */
  predicate Beats(busy: seq<bv8>, use: seq<bv8>, a: Range, b: Range)
    requires |busy| == |use| && a.startIndex <= 8 * |busy| && b.startIndex <= 8 * |busy|
  {
    || a.GetSize() > b.GetSize()
    || (a.GetSize() == b.GetSize()
        && (a.startIndex == 0 || Continues(busy, use, a.startIndex))
            && !(b.startIndex == 0 || Continues(busy, use, b.startIndex)))
  }

  /** c is the candidate of the run (s, e), no run up to `bound` beats it, and it beats those before. */
  ghost predicate BestUpTo(busy: seq<bv8>, use: seq<bv8>, blocks: nat, bound: nat, c: Range, s: nat, e: nat)
    requires Sized(busy, use, blocks)
  {
    && IsRun(busy, blocks, s, e) && e <= bound && c == Candidate(use, s, e)
    && forall s2: nat, e2: nat :: IsRun(busy, blocks, s2, e2) && e2 <= bound ==>
         !Beats(busy, use, Candidate(use, s2, e2), c) && (s2 < s ==> Beats(busy, use, c, Candidate(use, s2, e2)))
  }

  ghost predicate Best(busy: seq<bv8>, use: seq<bv8>, blocks: nat, c: Range)
    requires Sized(busy, use, blocks)
  {
    exists s: nat, e: nat :: BestUpTo(busy, use, blocks, blocks, c, s, e)
  }

  predicate Worthwhile(busy: seq<bv8>, use: seq<bv8>, c: Range, minSplitSize: int, blockLength: int)
    requires |busy| == |use| && c.startIndex <= 8 * |busy|
  {
    c.startIndex == 0 || Continues(busy, use, c.startIndex) || Span(c.GetSize(), blockLength) >= minSplitSize
  }

  /** The outcome of a sparse search: the best candidate, if there is one and it is worthwhile. */
  ghost predicate SparseOutcome(busy: seq<bv8>, use: seq<bv8>, blocks: nat, minSplitSize: int, blockLength: int,
      r: Option)
    requires Sized(busy, use, blocks)
  {
    || (r.None? && forall i: nat :: i < blocks ==> Test(busy, i))
    || (exists c: Range :: (c.startIndex <= blocks && Best(busy, use, blocks, c)
        && r == if Worthwhile(busy, use, c, minSplitSize, blockLength) then Some(c.startIndex) else None))
  }

  method GetStartIndex(index: nat, bitfield: seq<bv8>, blocks: nat) returns (r: nat)
    requires index <= blocks <= 8 * |bitfield|
    ensures index <= r <= blocks && (forall i: nat :: index <= i < r ==> Test(bitfield, i))
      && (r < blocks ==> !Test(bitfield, r))
  {
    hide Test;
    r := index;
    while r < blocks && Test(bitfield, r)
      invariant index <= r <= blocks && forall i: nat :: index <= i < r ==> Test(bitfield, i)
    {
      r := r + 1;
    }
  }

  method GetEndIndex(index: nat, bitfield: seq<bv8>, blocks: nat) returns (r: nat)
    requires index <= blocks <= 8 * |bitfield|
    ensures index <= r <= blocks && (forall i: nat :: index <= i < r ==> !Test(bitfield, i))
      && (r < blocks ==> Test(bitfield, r))
  {
    hide Test;
    r := index;
    while r < blocks && !Test(bitfield, r)
      invariant index <= r <= blocks && forall i: nat :: index <= i < r ==> !Test(bitfield, i)
    {
      r := r + 1;
    }
  }

  lemma BeatsOrder(busy: seq<bv8>, use: seq<bv8>, a: Range, b: Range, c: Range)
    requires |busy| == |use| && a.startIndex <= 8 * |busy| && b.startIndex <= 8 * |busy| && c.startIndex <= 8 * |busy|
    ensures !Beats(busy, use, a, a)
    ensures Beats(busy, use, a, b) && Beats(busy, use, b, c) ==> Beats(busy, use, a, c)
    ensures !Beats(busy, use, a, b) && !Beats(busy, use, b, c) ==> !Beats(busy, use, a, c)
  {
    hide Continues;
  }

  /** The comparison as it is written: a longer range, or as long and continuing where the other does not. */
  predicate Better(busy: seq<bv8>, use: seq<bv8>, max: Range, c: Range)
    requires |busy| == |use| && max.startIndex <= 8 * |busy| && c.startIndex <= 8 * |busy|
  {
    || max.GetSize() < c.GetSize()
    || (max.GetSize() == c.GetSize() && max.startIndex > 0 && c.startIndex > 0
        && (!Test(busy, max.startIndex - 1) || Test(use, max.startIndex - 1))
        && Test(busy, c.startIndex - 1) && !Test(use, c.startIndex - 1))
  }

  lemma BetterIsBeats(busy: seq<bv8>, use: seq<bv8>, max: Range, c: Range)
    requires |busy| == |use| && max.startIndex <= 8 * |busy| && c.startIndex < c.endIndex <= 8 * |busy|
    requires max == Range(0, 0) || c.startIndex > 0
    ensures Better(busy, use, max, c) <==> max == Range(0, 0) || Beats(busy, use, c, max)
  {
  }

  /** Between two boundaries there is no run but the one in between. */
  lemma OnlyRun(busy: seq<bv8>, blocks: nat, next: nat, s: nat, e: nat, s2: nat, e2: nat)
    requires next <= s <= e <= blocks <= 8 * |busy|
    requires next == 0 || next == blocks || Test(busy, next)
    requires forall i: nat :: next <= i < s ==> Test(busy, i)
    requires forall i: nat :: s <= i < e ==> !Test(busy, i)
    requires s < e && (e < blocks ==> Test(busy, e))
    requires IsRun(busy, blocks, s2, e2) && e2 <= e
    ensures e2 <= next || (s2 == s && e2 == e)
  {
    hide Test;
    assert s2 > 0 ==> Test(busy, s2 - 1);
    if e2 > next {
      assert !Test(busy, s2);
    }
  }

  /** What the search knows at a boundary. */
  ghost predicate Searched(busy: seq<bv8>, use: seq<bv8>, blocks: nat, next: nat, max: Range, s: nat, e: nat)
    requires Sized(busy, use, blocks)
  {
    && next <= blocks && (next == 0 || next == blocks || Test(busy, next))
    && if max == Range(0, 0) then forall i: nat :: i < next ==> Test(busy, i)
       else next > 0 && max.startIndex < max.endIndex <= blocks && BestUpTo(busy, use, blocks, next, max, s, e)
  }

  lemma BestStep(busy: seq<bv8>, use: seq<bv8>, blocks: nat, next: nat, s: nat, e: nat, max: Range, ms: nat, me: nat)
    requires Sized(busy, use, blocks) && next <= s < blocks && s <= e <= blocks
      && Searched(busy, use, blocks, next, max, ms, me)
    requires forall i: nat :: next <= i < s ==> Test(busy, i)
    requires forall i: nat :: s <= i < e ==> !Test(busy, i)
    requires !Test(busy, s) && (e < blocks ==> Test(busy, e))
    ensures next <= s < e && max.startIndex <= blocks && max.endIndex <= blocks
    ensures var c := Candidate(use, s, e);
      && c.startIndex < c.endIndex <= blocks
      && if Better(busy, use, max, c)
          then Searched(busy, use, blocks, e, c, s, e) else Searched(busy, use, blocks, e, max, ms, me)
  {
    hide Test, Beats, Better;
    assert IsRun(busy, blocks, s, e);
    var c := Candidate(use, s, e);
    BetterIsBeats(busy, use, max, c);
    forall s2: nat, e2: nat | IsRun(busy, blocks, s2, e2) && e2 <= e
      ensures e2 <= next || (s2 == s && e2 == e)
      ensures max == Range(0, 0) ==> s2 == s && e2 == e
    {
      OnlyRun(busy, blocks, next, s, e, s2, e2);
      assert !Test(busy, s2);
    }
    BeatsOrder(busy, use, c, c, c);
    if max != Range(0, 0) {
      forall s2: nat, e2: nat | IsRun(busy, blocks, s2, e2) && e2 <= e
        ensures Beats(busy, use, c, max) ==> !Beats(busy, use, Candidate(use, s2, e2), c)
        ensures Beats(busy, use, c, max) && s2 < s ==> Beats(busy, use, c, Candidate(use, s2, e2))
      {
        var d := Candidate(use, s2, e2);
        BeatsOrder(busy, use, d, c, max);
        BeatsOrder(busy, use, c, d, max);
        BeatsOrder(busy, use, c, max, d);
      }
    }
  }

  lemma SearchEnds(busy: seq<bv8>, use: seq<bv8>, blocks: nat, next: nat, max: Range, ms: nat, me: nat)
    requires Sized(busy, use, blocks) && Searched(busy, use, blocks, next, max, ms, me)
    requires forall i: nat :: next <= i < blocks ==> Test(busy, i)
    ensures Searched(busy, use, blocks, blocks, max, ms, me)
  {
    hide Test, BestUpTo;
    if max != Range(0, 0) {
      NoRunLeft(busy, use, blocks, next, max, ms, me);
    }
  }

  lemma NoRunLeft(busy: seq<bv8>, use: seq<bv8>, blocks: nat, next: nat, max: Range, ms: nat, me: nat)
    requires Sized(busy, use, blocks) && next <= blocks
    requires forall i: nat :: next <= i < blocks ==> Test(busy, i)
    requires BestUpTo(busy, use, blocks, next, max, ms, me)
    ensures BestUpTo(busy, use, blocks, blocks, max, ms, me)
  {
    hide Test, Beats;
    forall s2: nat, e2: nat | IsRun(busy, blocks, s2, e2) ensures e2 <= next {
      assert !Test(busy, e2 - 1);
    }
  }

  method GetSparseMissingUnusedIndex(minSplitSize: int, busy: seq<bv8>, use: seq<bv8>, blockLength: int, blocks: nat)
    returns (r: Option)
    requires Sized(busy, use, blocks)
    ensures SparseOutcome(busy, use, blocks, minSplitSize, blockLength, r)
  {
    var maxRange := Range(0, 0);
    var nextIndex: nat := 0;
    ghost var ms: nat, me: nat := 0, 0;
    SearchBegins(busy, use, blocks);
    hide *;
    while nextIndex < blocks
      invariant nextIndex <= blocks && Searched(busy, use, blocks, nextIndex, maxRange, ms, me)
      decreases blocks - nextIndex
    {
      var s := GetStartIndex(nextIndex, busy, blocks);
      if s == blocks {
        SearchEnds(busy, use, blocks, nextIndex, maxRange, ms, me);
        nextIndex := blocks;
        break;
      }
      var e := GetEndIndex(s, busy, blocks);
      BestStep(busy, use, blocks, nextIndex, s, e, maxRange, ms, me);
      CandidateAsWritten(use, s, e);
      var currentRange := Range(s, e);
      if s > 0 {
        if Test(use, s - 1) {
          currentRange := Range((e - s) / 2 + s, e);
        }
      }
      if Better(busy, use, maxRange, currentRange) {
        maxRange, ms, me := currentRange, s, e;
      }
      nextIndex := e;
    }
    SearchResult(busy, use, blocks, minSplitSize, blockLength, maxRange, ms, me);
    if maxRange.endIndex - maxRange.startIndex != 0 {
      if maxRange.startIndex == 0 {
        r := Some(0);
      } else if (!Test(use, maxRange.startIndex - 1) && Test(busy, maxRange.startIndex - 1)) ||
         Span(maxRange.endIndex - maxRange.startIndex, blockLength) >= minSplitSize {
        r := Some(maxRange.startIndex);
      } else {
        r := None;
      }
    } else {
      r := None;
    }
  }

  lemma SearchBegins(busy: seq<bv8>, use: seq<bv8>, blocks: nat)
    requires Sized(busy, use, blocks)
    ensures |busy| == |use| && blocks <= 8 * |busy| && Searched(busy, use, blocks, 0, Range(0, 0), 0, 0)
  {
  }

  lemma CandidateAsWritten(use: seq<bv8>, s: nat, e: nat)
    requires s < e <= 8 * |use|
    ensures Candidate(use, s, e) == Range(if s > 0 && Test(use, s - 1) then (e - s) / 2 + s else s, e)
  {
  }

  /** What the source returns at the end of the search is the outcome. */
  lemma SearchResult(busy: seq<bv8>, use: seq<bv8>, blocks: nat, minSplitSize: int, blockLength: int, c: Range,
      s: nat, e: nat)
    requires Sized(busy, use, blocks) && Searched(busy, use, blocks, blocks, c, s, e)
    ensures c.startIndex <= c.endIndex <= blocks
    ensures SparseOutcome(busy, use, blocks, minSplitSize, blockLength,
      if c.endIndex - c.startIndex == 0 then None
      else if c.startIndex == 0 then Some(0)
      else if (!Test(use, c.startIndex - 1) && Test(busy, c.startIndex - 1))
          || Span(c.endIndex - c.startIndex, blockLength) >= minSplitSize
      then Some(c.startIndex) else None)
  {
    hide BestUpTo, Test;
    if c != Range(0, 0) {
      assert Best(busy, use, blocks, c);
    }
  }

  // ----- what the outcome means -----

  /** The blocks of [i, e) are free, and they are at least as many as the candidate of any free run has. */
  ghost predicate LongestFrom(busy: seq<bv8>, use: seq<bv8>, blocks: nat, i: nat, e: nat)
    requires Sized(busy, use, blocks)
  {
    && i < e <= blocks && (forall k: nat :: i <= k < e ==> !Test(busy, k))
    && forall s2: nat, e2: nat :: IsRun(busy, blocks, s2, e2) ==> Candidate(use, s2, e2).GetSize() <= e - i
  }

  lemma BestIsLongest(busy: seq<bv8>, use: seq<bv8>, blocks: nat, c: Range)
    requires Sized(busy, use, blocks) && Best(busy, use, blocks, c)
    ensures LongestFrom(busy, use, blocks, c.startIndex, c.endIndex) && !Test(busy, c.startIndex)
  {
    hide Test, Continues;
    var s: nat, e: nat :| BestUpTo(busy, use, blocks, blocks, c, s, e);
    forall s2: nat, e2: nat | IsRun(busy, blocks, s2, e2) ensures Candidate(use, s2, e2).GetSize() <= c.GetSize() {
      assert !Beats(busy, use, Candidate(use, s2, e2), c);
    }
  }

  /**
   * What a sparse search promises: it returns a free block; the candidate range it starts is at least as long as
   * that of every free run; and if a single block is worth splitting off it finds something whenever any is free.
   */
  lemma SparseMeaning(busy: seq<bv8>, use: seq<bv8>, blocks: nat, minSplitSize: int, blockLength: int, r: Option)
    requires Sized(busy, use, blocks) && SparseOutcome(busy, use, blocks, minSplitSize, blockLength, r)
    ensures r.Some? ==> r.value < blocks && !Test(busy, r.value)
    ensures r.Some? ==> exists e: nat :: LongestFrom(busy, use, blocks, r.value, e)
    ensures minSplitSize <= blockLength && blockLength > 0 ==>
      (r.Some? <==> exists i: nat :: i < blocks && !Test(busy, i))
  {
    hide Test, SparseOutcome, Best, LongestFrom, Worthwhile, NoneFree, Span, Candidate, IsRun;
    if !NoneFree(busy, blocks) {
      var c := OutcomeIsBest(busy, use, blocks, minSplitSize, blockLength, r);
      BestIsLongest(busy, use, blocks, c);
      LongestIsFree(busy, use, blocks, c);
      if minSplitSize <= blockLength && blockLength > 0 {
        SpanGrows(1, c.GetSize(), blockLength);
        WorthIfLong(busy, use, c, minSplitSize, blockLength);
      }
    } else {
      NoneIfNoneFree(busy, use, blocks, minSplitSize, blockLength, r);
    }
  }

  /** Where fetching a run [s, e) would start: at s, or halfway if someone is fetching the block before it. */
  ghost predicate Starts(use: seq<bv8>, s: nat, e: nat, i: nat)
    requires s < e <= 8 * |use|
  {
    i == if s > 0 && Test(use, s - 1) then s + (e - s) / 2 else s
  }

  /** Fetching can go on at i: it is the first block, or the one before is there and not being fetched. */
  ghost predicate Follows(busy: seq<bv8>, use: seq<bv8>, i: nat)
    requires |busy| == |use| && i < 8 * |busy|
  {
    i == 0 || (Test(busy, i - 1) && !Test(use, i - 1))
  }

  /** Fetching from i to e, where the run begins at s, is better than from i2 to e2, or is the first of two as good. */
  ghost predicate Preferred(busy: seq<bv8>, use: seq<bv8>, s: nat, i: nat, e: nat, s2: nat, i2: nat, e2: nat)
    requires |busy| == |use| && i < e <= 8 * |busy| && i2 < e2 <= 8 * |busy|
  {
    || e - i > e2 - i2
    || (e - i == e2 - i2 && Follows(busy, use, i) && !Follows(busy, use, i2))
    || (e - i == e2 - i2 && (Follows(busy, use, i) <==> Follows(busy, use, i2)) && s <= s2)
  }

  lemma StartsIsCandidate(busy: seq<bv8>, use: seq<bv8>, s: nat, e: nat, i: nat)
    requires |busy| == |use| && s < e <= 8 * |use| && Starts(use, s, e, i)
    ensures i < e && Candidate(use, s, e) == Range(i, e)
    ensures Follows(busy, use, i) <==> i == 0 || Continues(busy, use, i)
  {
    hide Test;
  }

  lemma PreferredIfBest(busy: seq<bv8>, use: seq<bv8>, blocks: nat, s: nat, e: nat, i: nat, s2: nat, e2: nat, i2: nat)
    requires Sized(busy, use, blocks) && IsRun(busy, blocks, s, e)
    requires BestUpTo(busy, use, blocks, blocks, Candidate(use, s, e), s, e)
    requires IsRun(busy, blocks, s2, e2) && Starts(use, s, e, i) && Starts(use, s2, e2, i2)
    ensures i < e && i2 < e2 && Preferred(busy, use, s, i, e, s2, i2, e2)
  {
    hide Test, Continues, Follows, Candidate, Starts;
    RunBounds(busy, blocks, s, e);
    RunBounds(busy, blocks, s2, e2);
    StartsIsCandidate(busy, use, s, e, i);
    StartsIsCandidate(busy, use, s2, e2, i2);
  }

  lemma RunBounds(busy: seq<bv8>, blocks: nat, s: nat, e: nat)
    requires blocks <= 8 * |busy| && IsRun(busy, blocks, s, e)
    ensures s < e <= blocks
  {
  }

  /**
   * Which run a sparse search chooses: one that leaves the most blocks from its start on; among those one whose start
   * follows, if there is one; and of these the first. It is used if its start follows or it is long enough.
   */
  lemma SparseChoice(busy: seq<bv8>, use: seq<bv8>, blocks: nat, minSplitSize: int, blockLength: int, r: Option)
    returns (s: nat, e: nat, i: nat)
    requires Sized(busy, use, blocks) && SparseOutcome(busy, use, blocks, minSplitSize, blockLength, r)
    requires !NoneFree(busy, blocks)
    ensures IsRun(busy, blocks, s, e) && Starts(use, s, e, i) && i < e
    ensures forall s2: nat, e2: nat, i2: nat | IsRun(busy, blocks, s2, e2) && Starts(use, s2, e2, i2) ::
      i2 < e2 && Preferred(busy, use, s, i, e, s2, i2, e2)
    ensures r == if Follows(busy, use, i) || (e - i) * blockLength >= minSplitSize then Some(i) else None
  {
    hide Test, Continues, Follows, Preferred, SparseOutcome, NoneFree;
    var c := OutcomeIsBest(busy, use, blocks, minSplitSize, blockLength, r);
    s, e :| BestUpTo(busy, use, blocks, blocks, c, s, e);
    RunBounds(busy, blocks, s, e);
    i := c.startIndex;
    StartsIsCandidate(busy, use, s, e, i);
    forall s2: nat, e2: nat, i2: nat | IsRun(busy, blocks, s2, e2) && Starts(use, s2, e2, i2)
      ensures i2 < e2 && Preferred(busy, use, s, i, e, s2, i2, e2)
    {
      PreferredIfBest(busy, use, blocks, s, e, i, s2, e2, i2);
    }
  }

  predicate NoneFree(busy: seq<bv8>, blocks: nat)
    requires blocks <= 8 * |busy|
  {
    forall i: nat :: i < blocks ==> Test(busy, i)
  }

  lemma OutcomeIsBest(busy: seq<bv8>, use: seq<bv8>, blocks: nat, minSplitSize: int, blockLength: int, r: Option)
    returns (c: Range)
    requires Sized(busy, use, blocks) && SparseOutcome(busy, use, blocks, minSplitSize, blockLength, r)
      && !NoneFree(busy, blocks)
    ensures c.startIndex <= blocks && Best(busy, use, blocks, c)
    ensures r == if Worthwhile(busy, use, c, minSplitSize, blockLength) then Some(c.startIndex) else None
    ensures exists i: nat :: i < blocks && !Test(busy, i)
  {
    hide Test, Best, Worthwhile;
    c :| c.startIndex <= blocks && Best(busy, use, blocks, c)
      && r == if Worthwhile(busy, use, c, minSplitSize, blockLength) then Some(c.startIndex) else None;
  }

  lemma NoneIfNoneFree(busy: seq<bv8>, use: seq<bv8>, blocks: nat, minSplitSize: int, blockLength: int, r: Option)
    requires Sized(busy, use, blocks) && SparseOutcome(busy, use, blocks, minSplitSize, blockLength, r)
      && NoneFree(busy, blocks)
    ensures r.None? && !exists i: nat :: i < blocks && !Test(busy, i)
  {
    hide Test, Best, Worthwhile;
    forall c: Range | c.startIndex <= blocks && Best(busy, use, blocks, c) ensures exists i: nat ::
        i < blocks && !Test(busy, i) {
      BestIsLongest(busy, use, blocks, c);
    }
  }

  lemma LongestIsFree(busy: seq<bv8>, use: seq<bv8>, blocks: nat, c: Range)
    requires Sized(busy, use, blocks) && LongestFrom(busy, use, blocks, c.startIndex, c.endIndex)
    ensures c.startIndex < c.endIndex <= blocks <= 8 * |busy| && |busy| == |use| && !Test(busy, c.startIndex)
      && c.GetSize() >= 1
  {
    hide Test;
  }

  lemma WorthIfLong(busy: seq<bv8>, use: seq<bv8>, c: Range, minSplitSize: int, blockLength: int)
    requires |busy| == |use| && c.startIndex <= 8 * |busy| && Span(c.GetSize(), blockLength) >= minSplitSize
    ensures Worthwhile(busy, use, c, minSplitSize, blockLength)
  {
  }

  lemma RunsAreMaximal(busy: seq<bv8>, blocks: nat, s: nat, e: nat, e2: nat)
    requires blocks <= 8 * |busy| && IsRun(busy, blocks, s, e) && IsRun(busy, blocks, s, e2)
    ensures e == e2
  {
    hide Test;
    assert e < blocks ==> Test(busy, e);
    assert e2 < blocks ==> Test(busy, e2);
  }

  /** The outcome is determined: no two results meet it. */
  lemma SparseUnique(busy: seq<bv8>, use: seq<bv8>, blocks: nat, minSplitSize: int, blockLength: int, r1: Option,
      r2: Option)
    requires Sized(busy, use, blocks)
    requires SparseOutcome(busy, use, blocks, minSplitSize, blockLength, r1)
      && SparseOutcome(busy, use, blocks, minSplitSize, blockLength, r2)
    ensures r1 == r2
  {
    hide Test, Beats, Worthwhile, NoneFree, SparseOutcome;
    if NoneFree(busy, blocks) {
      NoneIfNoneFree(busy, use, blocks, minSplitSize, blockLength, r1);
      NoneIfNoneFree(busy, use, blocks, minSplitSize, blockLength, r2);
    } else {
      var c1 := OutcomeIsBest(busy, use, blocks, minSplitSize, blockLength, r1);
      var c2 := OutcomeIsBest(busy, use, blocks, minSplitSize, blockLength, r2);
      var s1: nat, e1: nat :| BestUpTo(busy, use, blocks, blocks, c1, s1, e1);
      var s2: nat, e2: nat :| BestUpTo(busy, use, blocks, blocks, c2, s2, e2);
      if s1 == s2 {
        RunsAreMaximal(busy, blocks, s1, e1, e2);
      }
    }
  }

  // ----- the in-order search -----

  predicate IsFree(busy: seq<bv8>, use: seq<bv8>, i: nat)
    requires |busy| == |use| && i < 8 * |busy|
  {
    !Test(busy, i) && !Test(use, i)
  }

  /** The end of the stretch of free blocks from i on. */
  function FreeEnd(busy: seq<bv8>, use: seq<bv8>, blocks: nat, i: nat): (e: nat)
    requires Sized(busy, use, blocks) && i <= blocks
    ensures i <= e <= blocks
    ensures forall k: nat :: i <= k < e ==> IsFree(busy, use, k)
    ensures e < blocks ==> !IsFree(busy, use, e)
    decreases blocks - i
  {
    if i < blocks && IsFree(busy, use, i) then FreeEnd(busy, use, blocks, i + 1) else i
  }

  /** i is the first of a stretch of free blocks and fetching may go on or begin there. */
  predicate Suits(busy: seq<bv8>, use: seq<bv8>, blocks: nat, minSplitSize: int, blockLength: int, i: nat)
    requires Sized(busy, use, blocks) && 0 < i < blocks
  {
    && IsFree(busy, use, i) && !IsFree(busy, use, i - 1)
    && (Continues(busy, use, i) || Span(FreeEnd(busy, use, blocks, i) - i, blockLength) >= minSplitSize)
  }

  /**
   * What is returned for a stretch that starts at i: i itself if fetching goes on, else the block that completes
   * minSplitSize.
   */
  predicate Chosen(busy: seq<bv8>, use: seq<bv8>, blocks: nat, minSplitSize: int, blockLength: int, i: nat, v: nat)
    requires Sized(busy, use, blocks) && 0 < i < blocks
  {
    if Continues(busy, use, i) then v == i
    else
      && i <= v < FreeEnd(busy, use, blocks, i) && Span(v - i + 1, blockLength) >= minSplitSize
      && (v == i || Span(v - i, blockLength) < minSplitSize)
  }

  ghost predicate InorderOutcome(busy: seq<bv8>, use: seq<bv8>, blocks: nat, startIndex: nat, lastIndex: nat,
      minSplitSize: int, blockLength: int, r: Option)
    requires Sized(busy, use, blocks) && startIndex < blocks && lastIndex <= blocks
  {
    if IsFree(busy, use, startIndex) then r == Some(startIndex)
    else if r.None? then forall k: nat :: startIndex < k < lastIndex ==>
        !Suits(busy, use, blocks, minSplitSize, blockLength, k)
    else exists i: nat :: (startIndex < i < lastIndex && Suits(busy, use, blocks, minSplitSize, blockLength, i)
      && (forall k: nat :: startIndex < k < i ==> !Suits(busy, use, blocks, minSplitSize, blockLength, k))
      && Chosen(busy, use, blocks, minSplitSize, blockLength, i, r.value))
  }

  method GetInorderMissingUnusedIndex(startIndex: nat, lastIndex: nat, minSplitSize: int, busy: seq<bv8>,
      use: seq<bv8>, blockLength: int, blocks: nat)
    returns (r: Option)
    requires Sized(busy, use, blocks) && startIndex < blocks && lastIndex <= blocks && blockLength > 0
    ensures InorderOutcome(busy, use, blocks, startIndex, lastIndex, minSplitSize, blockLength, r)
  {
    hide Test;
    if !Test(busy, startIndex) && !Test(use, startIndex) {
      return Some(startIndex);
    }
    assert !IsFree(busy, use, startIndex);
    hide FreeEnd, Span;
    var i: nat := startIndex + 1;
    while i < lastIndex
      invariant startIndex < i && (i <= blocks ==> !IsFree(busy, use, i - 1))
      invariant forall k: nat :: startIndex < k < i && k < lastIndex ==>
        !Suits(busy, use, blocks, minSplitSize, blockLength, k)
      decreases blocks - i
    {
      if !Test(busy, i) && !Test(use, i) {
        if !Test(use, i - 1) && Test(busy, i - 1) {
          assert Suits(busy, use, blocks, minSplitSize, blockLength, i)
              && Chosen(busy, use, blocks, minSplitSize, blockLength, i, i);
          return Some(i);
        }
        var j: nat := i;
        while j < blocks
          invariant i <= j <= blocks && forall k: nat :: i <= k < j ==> IsFree(busy, use, k)
          invariant j > i ==> Span(j - i, blockLength) < minSplitSize
        {
          if Test(busy, j) || Test(use, j) {
            break;
          }
          if Span(j - i + 1, blockLength) >= minSplitSize {
            LongEnough(busy, use, blocks, minSplitSize, blockLength, i, j);
            assert Suits(busy, use, blocks, minSplitSize, blockLength, i)
                && Chosen(busy, use, blocks, minSplitSize, blockLength, i, j);
            return Some(j);
          }
          j := j + 1;
        }
        TooShort(busy, use, blocks, minSplitSize, blockLength, i, j);
        i := j + 1;
      } else {
        i := i + 1;
      }
    }
    return None;
  }

  lemma LongEnough(busy: seq<bv8>, use: seq<bv8>, blocks: nat, minSplitSize: int, blockLength: int, i: nat, j: nat)
    requires Sized(busy, use, blocks) && 0 < i <= j < blocks && blockLength > 0
    requires forall k: nat :: i <= k <= j ==> IsFree(busy, use, k)
    requires Span(j - i + 1, blockLength) >= minSplitSize
    ensures j < FreeEnd(busy, use, blocks, i) && Span(FreeEnd(busy, use, blocks, i) - i, blockLength) >= minSplitSize
  {
    var e := FreeEnd(busy, use, blocks, i);
    hide FreeEnd, IsFree, Span;
    assert e > j;
    SpanGrows(j - i + 1, e - i, blockLength);
  }

  lemma TooShort(busy: seq<bv8>, use: seq<bv8>, blocks: nat, minSplitSize: int, blockLength: int, i: nat, j: nat)
    requires Sized(busy, use, blocks) && 0 < i < j <= blocks && (j < blocks ==> !IsFree(busy, use, j))
    requires forall k: nat :: i <= k < j ==> IsFree(busy, use, k)
    requires Span(j - i, blockLength) < minSplitSize && !Continues(busy, use, i)
    ensures forall k: nat :: i <= k <= j && k < blocks ==> !Suits(busy, use, blocks, minSplitSize, blockLength, k)
  {
    var e := FreeEnd(busy, use, blocks, i);
    hide FreeEnd, IsFree, Continues;
    assert e == j by {
      assert !(e < j) && !(j < e);
    }
  }

  /**
   * An in-order search returns a free block not before the start; one inside the range when a single block is worth
   * it.
   */
  lemma InorderMeaning(busy: seq<bv8>, use: seq<bv8>, blocks: nat, startIndex: nat, lastIndex: nat, minSplitSize: int,
      blockLength: int, r: Option)
    requires Sized(busy, use, blocks) && startIndex < blocks && lastIndex <= blocks && blockLength > 0
    requires InorderOutcome(busy, use, blocks, startIndex, lastIndex, minSplitSize, blockLength, r)
    ensures r.Some? ==> startIndex <= r.value < blocks && IsFree(busy, use, r.value)
    ensures r.Some? && minSplitSize <= blockLength && startIndex < lastIndex ==> r.value < lastIndex
  {
    hide IsFree, FreeEnd, Continues, Span;
    if !IsFree(busy, use, startIndex) && r.Some? {
      var i: nat :| startIndex < i < lastIndex && Suits(busy, use, blocks, minSplitSize, blockLength, i)
        && (forall k: nat :: startIndex < k < i ==> !Suits(busy, use, blocks, minSplitSize, blockLength, k))
        && Chosen(busy, use, blocks, minSplitSize, blockLength, i, r.value);
      if r.value != i {
        SpanGrows(1, r.value - i, blockLength);
      }
    }
  }

  /** The blocks of [lo, hi) are neither busy nor being fetched. */
  ghost predicate Clear(busy: seq<bv8>, use: seq<bv8>, lo: nat, hi: nat)
    requires |busy| == |use| && hi <= 8 * |busy|
  {
    forall k: nat :: lo <= k < hi ==> !Test(busy, k) && !Test(use, k)
  }

  /** The stretches of clear blocks that begin within (lo, hi) follow no block that is there and are all too short. */
  ghost predicate NothingBetween(busy: seq<bv8>, use: seq<bv8>, blocks: nat, lo: nat, hi: nat, minSplitSize: int,
      blockLength: int)
    requires Sized(busy, use, blocks) && hi <= blocks
  {
    forall k: nat, e: nat :: lo < k < hi && k < e <= blocks && Clear(busy, use, k, e) && !Clear(busy, use, k - 1, k) ==>
      !(Test(busy, k - 1) && !Test(use, k - 1)) && (e - k) * blockLength < minSplitSize
  }

  /** The block v is taken from the stretch that begins at i. */
  ghost predicate TakenFrom(busy: seq<bv8>, use: seq<bv8>, blocks: nat, minSplitSize: int, blockLength: int, i: nat,
      v: nat)
    requires Sized(busy, use, blocks) && 0 < i < blocks
  {
    && i <= v < blocks && Clear(busy, use, i, v + 1) && !Clear(busy, use, i - 1, i)
    && if Test(busy, i - 1) && !Test(use, i - 1) then v == i
       else (v + 1 - i) * blockLength >= minSplitSize && (v == i || (v - i) * blockLength < minSplitSize)
  }

  /**
   * An in-order search in terms of bits and lengths: its start if that is clear; else, at the first stretch that
   * follows a block that is there or is long enough, its first block in the one case and in the other the block that
   * completes minSplitSize; and nothing exactly if there is no such stretch.
   */
  lemma InorderChoice(busy: seq<bv8>, use: seq<bv8>, blocks: nat, startIndex: nat, lastIndex: nat, minSplitSize: int,
      blockLength: int, r: Option)
    returns (i: nat)
    requires Sized(busy, use, blocks) && startIndex < blocks && lastIndex <= blocks && blockLength > 0
    requires InorderOutcome(busy, use, blocks, startIndex, lastIndex, minSplitSize, blockLength, r)
    ensures Clear(busy, use, startIndex, startIndex + 1) ==> r == Some(startIndex)
    ensures !Clear(busy, use, startIndex, startIndex + 1) ==>
      && i <= blocks && NothingBetween(busy, use, blocks, startIndex, i, minSplitSize, blockLength)
      && (r.None? ==> i == lastIndex)
      && (r.Some? ==> startIndex < i < lastIndex && TakenFrom(busy, use, blocks, minSplitSize, blockLength, i, r.value))
  {
    hide Test, TakenFrom, NothingBetween, Suits, Chosen;
    i := lastIndex;
    if !IsFree(busy, use, startIndex) {
      if r.Some? {
        i :| startIndex < i < lastIndex && Suits(busy, use, blocks, minSplitSize, blockLength, i)
          && (forall k: nat :: startIndex < k < i ==> !Suits(busy, use, blocks, minSplitSize, blockLength, k))
          && Chosen(busy, use, blocks, minSplitSize, blockLength, i, r.value);
        ChosenIsTaken(busy, use, blocks, minSplitSize, blockLength, i, r.value);
      }
      NoneSuits(busy, use, blocks, minSplitSize, blockLength, startIndex, i);
    }
  }

  lemma ChosenIsTaken(busy: seq<bv8>, use: seq<bv8>, blocks: nat, minSplitSize: int, blockLength: int, i: nat, v: nat)
    requires Sized(busy, use, blocks) && 0 < i < blocks && blockLength > 0
    requires Suits(busy, use, blocks, minSplitSize, blockLength, i)
      && Chosen(busy, use, blocks, minSplitSize, blockLength, i, v)
    ensures TakenFrom(busy, use, blocks, minSplitSize, blockLength, i, v)
  {
    hide Test, Clear;
    SuitsIsClear(busy, use, blocks, minSplitSize, blockLength, i, v);
    hide IsFree, FreeEnd;
  }

  lemma SuitsIsClear(busy: seq<bv8>, use: seq<bv8>, blocks: nat, minSplitSize: int, blockLength: int, i: nat, v: nat)
    requires Sized(busy, use, blocks) && 0 < i < blocks && blockLength > 0
    requires Suits(busy, use, blocks, minSplitSize, blockLength, i)
      && Chosen(busy, use, blocks, minSplitSize, blockLength, i, v)
    ensures i <= v < blocks && Clear(busy, use, i, v + 1) && !Clear(busy, use, i - 1, i)
  {
    hide Test, Span, Continues;
    assert !IsFree(busy, use, i - 1);
    var e := FreeEnd(busy, use, blocks, i);
    hide FreeEnd, Suits, Chosen;
    forall k: nat | i <= k < v + 1 ensures !Test(busy, k) && !Test(use, k) {
      assert IsFree(busy, use, k);
    }
  }

  lemma NoneSuits(busy: seq<bv8>, use: seq<bv8>, blocks: nat, minSplitSize: int, blockLength: int, lo: nat, hi: nat)
    requires Sized(busy, use, blocks) && hi <= blocks && blockLength > 0
    requires forall k: nat :: lo < k < hi ==> !Suits(busy, use, blocks, minSplitSize, blockLength, k)
    ensures NothingBetween(busy, use, blocks, lo, hi, minSplitSize, blockLength)
  {
    hide Test, Suits, Clear;
    forall k: nat, e: nat | lo < k < hi && k < e <= blocks && Clear(busy, use, k, e) && !Clear(busy, use, k - 1, k)
      ensures !(Test(busy, k - 1) && !Test(use, k - 1)) && (e - k) * blockLength < minSplitSize
    {
      ShortOrNew(busy, use, blocks, minSplitSize, blockLength, k, e);
    }
  }

  lemma ShortOrNew(busy: seq<bv8>, use: seq<bv8>, blocks: nat, minSplitSize: int, blockLength: int, k: nat, e: nat)
    requires Sized(busy, use, blocks) && 0 < k < e <= blocks && blockLength > 0
    requires Clear(busy, use, k, e) && !Clear(busy, use, k - 1, k)
    requires !Suits(busy, use, blocks, minSplitSize, blockLength, k)
    ensures !(Test(busy, k - 1) && !Test(use, k - 1)) && (e - k) * blockLength < minSplitSize
  {
    hide Test;
    var end := FreeEnd(busy, use, blocks, k);
    hide FreeEnd;
    assert end >= e;
    SpanGrows(e - k, end - k, blockLength);
  }

  /** The first block of [lo, hi) whose stretch suits, or hi if there is none. */
  function FirstSuitable(busy: seq<bv8>, use: seq<bv8>, blocks: nat, minSplitSize: int, blockLength: int,
      lo: nat, hi: nat): (i: nat)
    requires Sized(busy, use, blocks) && 0 < lo <= hi <= blocks
    ensures lo <= i <= hi
    ensures i < hi ==> Suits(busy, use, blocks, minSplitSize, blockLength, i)
    ensures forall k: nat :: lo <= k < i ==> !Suits(busy, use, blocks, minSplitSize, blockLength, k)
    decreases hi - lo
  {
    if lo == hi || Suits(busy, use, blocks, minSplitSize, blockLength, lo) then lo
    else FirstSuitable(busy, use, blocks, minSplitSize, blockLength, lo + 1, hi)
  }

  /** The number of blocks that make minSplitSize, at least one. */
  function Needed(minSplitSize: int, blockLength: int): (n: nat)
    requires blockLength > 0
    ensures n > 0
  {
    if minSplitSize <= blockLength then 1 else (minSplitSize + blockLength - 1) / blockLength
  }

  /** Needed is the least positive number of blocks whose length is enough. */
  lemma NeededIsLeast(minSplitSize: int, blockLength: int, n: int)
    requires blockLength > 0 && n > 0
    ensures Span(n, blockLength) >= minSplitSize <==> n >= Needed(minSplitSize, blockLength)
  {
    if minSplitSize <= blockLength {
      SpanGrows(1, n, blockLength);
    } else {
      var x := minSplitSize + blockLength - 1;
      var q := x / blockLength;
      assert q * blockLength <= x < q * blockLength + blockLength;
      if n >= q {
        SpanGrows(q, n, blockLength);
      } else {
        SpanGrows(n, q - 1, blockLength);
        assert (q - 1) * blockLength == q * blockLength - blockLength;
      }
    }
  }

  lemma ChosenIs(busy: seq<bv8>, use: seq<bv8>, blocks: nat, minSplitSize: int, blockLength: int, i: nat, v: nat)
    requires Sized(busy, use, blocks) && 0 < i < blocks && blockLength > 0
    requires Chosen(busy, use, blocks, minSplitSize, blockLength, i, v)
    ensures v == if Continues(busy, use, i) then i else i + Needed(minSplitSize, blockLength) - 1
  {
    hide Continues, FreeEnd, Span, Needed;
    if !Continues(busy, use, i) {
      NeededIsLeast(minSplitSize, blockLength, v - i + 1);
      if v > i {
        NeededIsLeast(minSplitSize, blockLength, v - i);
      }
    }
  }

  /** The result of an in-order search, computed from what its caller gives it. */
  function InorderResult(busy: seq<bv8>, use: seq<bv8>, blocks: nat, startIndex: nat, lastIndex: nat,
      minSplitSize: int, blockLength: int): Option
    requires Sized(busy, use, blocks) && startIndex < blocks && lastIndex <= blocks && blockLength > 0
  {
    if IsFree(busy, use, startIndex) then Some(startIndex)
    else if lastIndex <= startIndex + 1 then None
    else
      var i := FirstSuitable(busy, use, blocks, minSplitSize, blockLength, startIndex + 1, lastIndex);
      if i == lastIndex then None
      else if Continues(busy, use, i) then Some(i)
      else Some(i + Needed(minSplitSize, blockLength) - 1)
  }

  /** The outcome is determined: it is that result and no other. */
  lemma InorderDetermined(busy: seq<bv8>, use: seq<bv8>, blocks: nat, startIndex: nat, lastIndex: nat,
      minSplitSize: int, blockLength: int, r: Option)
    requires Sized(busy, use, blocks) && startIndex < blocks && lastIndex <= blocks && blockLength > 0
    requires InorderOutcome(busy, use, blocks, startIndex, lastIndex, minSplitSize, blockLength, r)
    ensures r == InorderResult(busy, use, blocks, startIndex, lastIndex, minSplitSize, blockLength)
  {
    hide IsFree, Continues, Suits, Chosen, Needed, FirstSuitable;
    if !IsFree(busy, use, startIndex) && startIndex + 1 < lastIndex {
      var first := FirstSuitable(busy, use, blocks, minSplitSize, blockLength, startIndex + 1, lastIndex);
      if r.Some? {
        ChosenIs(busy, use, blocks, minSplitSize, blockLength, first, r.value);
      }
    }
  }

  /**
   * Exactly when an in-order search returns a block outside its range, in terms of what its caller gives it. A free
   * start is returned even from an empty range. Otherwise it takes a first suitable stretch that is not a
   * continuation, with less of it inside the range than minSplitSize.
   */
  predicate LeavesRange(busy: seq<bv8>, use: seq<bv8>, blocks: nat, startIndex: nat, lastIndex: nat,
      minSplitSize: int, blockLength: int)
    requires Sized(busy, use, blocks) && startIndex < blocks && lastIndex <= blocks && blockLength > 0
  {
    if IsFree(busy, use, startIndex) then lastIndex <= startIndex
    else
      && startIndex + 1 < lastIndex
      && var i := FirstSuitable(busy, use, blocks, minSplitSize, blockLength, startIndex + 1, lastIndex);
      && i < lastIndex && !Continues(busy, use, i) && Span(lastIndex - i, blockLength) < minSplitSize
  }

  lemma InorderOutsideIff(busy: seq<bv8>, use: seq<bv8>, blocks: nat, startIndex: nat, lastIndex: nat,
      minSplitSize: int, blockLength: int, r: Option)
    requires Sized(busy, use, blocks) && startIndex < blocks && lastIndex <= blocks && blockLength > 0
    requires InorderOutcome(busy, use, blocks, startIndex, lastIndex, minSplitSize, blockLength, r)
    ensures r.Some? && r.value >= lastIndex
      <==> LeavesRange(busy, use, blocks, startIndex, lastIndex, minSplitSize, blockLength)
  {
    hide IsFree, Continues, Suits, Chosen, Needed, FirstSuitable, InorderOutcome, Span;
    InorderDetermined(busy, use, blocks, startIndex, lastIndex, minSplitSize, blockLength, r);
    if !IsFree(busy, use, startIndex) && startIndex + 1 < lastIndex {
      var i := FirstSuitable(busy, use, blocks, minSplitSize, blockLength, startIndex + 1, lastIndex);
      if i < lastIndex {
        NeededIsLeast(minSplitSize, blockLength, lastIndex - i);
      }
    }
  }

  /**
   * A search of [0, 2) can return 3: block 0 is being fetched, and it takes the blocks 1 to 3 to make minSplitSize 3.
   */
  lemma InorderCanLeaveRange(r: Option)
    requires InorderOutcome([0x80], [0x80], 8, 0, 2, 3, 1, r)
    ensures r == Some(3)
  {
    var b: seq<bv8> := [0x80];
    var e := FreeEnd(b, b, 8, 1);
    assert !IsFree(b, b, 0) && !Continues(b, b, 1);
    assert forall k: nat :: 1 <= k < 8 ==> IsFree(b, b, k) by {
      forall k: nat | 1 <= k < 8 ensures IsFree(b, b, k) {
        assert k == 1 || k == 2 || k == 3 || k == 4 || k == 5 || k == 6 || k == 7;
      }
    }
    hide IsFree, FreeEnd, Continues;
    assert e == 8;
    assert Suits(b, b, 8, 3, 1, 1);
  }

  /** A search of the empty range [5, 3) returns 5 if that block is free. */
  lemma InorderOfEmptyRange(r: Option)
    requires InorderOutcome([0x80], [0x80], 8, 5, 3, 1, 1, r)
    ensures r == Some(5) && LeavesRange([0x80], [0x80], 8, 5, 3, 1, 1)
  {
    assert IsFree([0x80], [0x80], 5);
  }

  // ----- the geometric search -----

  /** A scan of [lo, hi) that gives up at a block being fetched. */
  function Scan(busy: seq<bv8>, use: seq<bv8>, lo: nat, hi: nat): (r: Option)
    requires |busy| == |use| && hi <= 8 * |busy|
    ensures r.Some? ==> lo <= r.value < hi && IsFree(busy, use, r.value)
    decreases hi - lo
  {
    if lo >= hi || Test(use, lo) then None
    else if !Test(busy, lo) then Some(lo)
    else Scan(busy, use, lo + 1, hi)
  }

  function Power(base: real, n: nat): real {
    if n == 0 then 1.0 else Power(base, n - 1) * base
  }

  /** The k-th window begins at 0, 1, base, base squared, and so on, counted from the offset. */
  function WindowStart(base: real, k: nat): real {
    if k == 0 then 0.0 else Power(base, k - 1)
  }

  lemma NonNegative(x: real, d: real)
    requires x >= 0.0 && d >= 0.0
    ensures x * d >= 0.0
  {
  }

  lemma Grows(p: real, base: real)
    requires p >= 1.0 && base > 1.0
    ensures p * base >= p + (base - 1.0)
  {
    NonNegative(p - 1.0, base - 1.0);
    assert (p - 1.0) * (base - 1.0) == p * base - p - base + 1.0;
  }

  lemma Quotients(x: real, y: real, s: real, d: real)
    requires d > 0.0 && y == x - s * d
    ensures y / d == x / d - s
    ensures x >= 0.0 ==> x / d >= 0.0
  {
    var q, w := x / d, y / d;
    assert q * d == x && w * d == y;
    assert (q - s - w) * d == q * d - s * d - w * d;
    NotZero(q - s - w, d);
  }

  lemma NotZero(z: real, d: real)
    requires d > 0.0 && z * d == 0.0
    ensures z == 0.0
  {
  }

  lemma {:induction false} WindowsAdvance(base: real, k: nat)
    requires base > 1.0
    ensures Power(base, k) >= 1.0
    ensures 0.0 <= WindowStart(base, k) < WindowStart(base, k + 1) == Power(base, k)
    ensures k > 0 ==> WindowStart(base, k + 1) == WindowStart(base, k) * base >= WindowStart(base, k) + (base - 1.0)
    ensures WindowStart(base, 0) == 0.0 && WindowStart(base, 1) == 1.0
  {
    if k > 0 {
      WindowsAdvance(base, k - 1);
      var p := Power(base, k - 1);
      Grows(p, base);
    }
  }

  lemma {:induction false} WindowsOrdered(base: real, j: nat, k: nat)
    requires base > 1.0 && j <= k
    ensures WindowStart(base, j) <= WindowStart(base, k)
  {
    hide WindowStart, Power;
    if j < k {
      WindowsOrdered(base, j, k - 1);
      WindowsAdvance(base, k - 1);
    }
  }

  /** The block at a position counted from the offset; a conversion to an integer truncates. */
  function IndexAt(position: real, offsetIndex: nat): nat
    requires position >= 0.0
  {
    (position + offsetIndex as real).Floor
  }

  /** What the k-th window gives; a window that begins beyond the last block gives nothing. */
  function Window(busy: seq<bv8>, use: seq<bv8>, blocks: nat, base: real, offsetIndex: nat, k: nat): Option
    requires Sized(busy, use, blocks) && base > 1.0
  {
    WindowsAdvance(base, k);
    if WindowStart(base, k) + offsetIndex as real >= blocks as real then None
    else
      var lo, hi := IndexAt(WindowStart(base, k), offsetIndex), IndexAt(WindowStart(base, k + 1), offsetIndex);
      Scan(busy, use, lo, if hi < blocks then hi else blocks)
  }

  /** The first window that gives something decides; if none does, the sparse search. */
  ghost predicate GeomOutcome(busy: seq<bv8>, use: seq<bv8>, blocks: nat, minSplitSize: int, blockLength: int,
      base: real, offsetIndex: nat, r: Option)
    requires Sized(busy, use, blocks) && base > 1.0
  {
    || (exists k: nat :: (Window(busy, use, blocks, base, offsetIndex, k) == r && r.Some?
          && forall j: nat :: j < k ==> Window(busy, use, blocks, base, offsetIndex, j).None?))
    || ((forall k: nat :: Window(busy, use, blocks, base, offsetIndex, k).None?)
        && SparseOutcome(busy, use, blocks, minSplitSize, blockLength, r))
  }

  method GetGeomMissingUnusedIndex(minSplitSize: int, busy: seq<bv8>, use: seq<bv8>, blockLength: int, blocks: nat,
      base: real, offsetIndex: nat)
    returns (r: Option)
    requires Sized(busy, use, blocks) && base > 1.0
    ensures GeomOutcome(busy, use, blocks, minSplitSize, blockLength, base, offsetIndex, r)
  {
    var start, end := 0.0, 1.0;
    ghost var k: nat := 0;
    assert start == WindowStart(base, 0) && end == WindowStart(base, 1);
    hide *;
    while start + offsetIndex as real < blocks as real
      invariant start == WindowStart(base, k) && end == WindowStart(base, k + 1)
      invariant forall j: nat :: j < k ==> Window(busy, use, blocks, base, offsetIndex, j).None?
      decreases if k == 0 then 1 else 0, Distance(blocks as real, start, base)
    {
      NextWindow(blocks as real, base, k, offsetIndex);
      WindowScans(busy, use, blocks, base, offsetIndex, k);
      var i: nat := IndexAt(start, offsetIndex);
      var eoi: nat := IndexAt(end, offsetIndex);
      var found := ScanWindow(busy, use, blocks, i, if blocks < eoi then blocks else eoi);
      if found < blocks {
        WindowFound(busy, use, blocks, minSplitSize, blockLength, base, offsetIndex, k);
        return Some(found);
      }
      start, end, k := end, Times(end, base), k + 1;
    }
    WindowsEnd(busy, use, blocks, base, offsetIndex, k);
    NoWindow(busy, use, blocks, minSplitSize, blockLength, base, offsetIndex);
    r := GetSparseMissingUnusedIndex(minSplitSize, busy, use, blockLength, blocks);
  }

  // A product under a name, so that proofs can set its arithmetic aside.
  function Times(x: real, y: real): real { x * y }

  lemma NextWindow(bound: real, base: real, k: nat, offsetIndex: nat)
    requires base > 1.0 && WindowStart(base, k) + offsetIndex as real < bound
    ensures Times(WindowStart(base, k + 1), base) == WindowStart(base, k + 2)
    ensures Distance(bound, WindowStart(base, k), base) >= 0.0
    ensures k > 0 ==>
      Distance(bound, WindowStart(base, k + 1), base) <= Distance(bound, WindowStart(base, k), base) - 1.0
  {
    hide WindowStart, Distance, Power;
    WindowsAdvance(base, k);
    WindowsAdvance(base, k + 1);
    if k > 0 {
      WindowsAdvance(base, k - 1);
      Advance(bound, WindowStart(base, k), WindowStart(base, k + 1), base);
    } else {
      Advance(bound, WindowStart(base, k), WindowStart(base, k) * base, base);
    }
  }

  lemma NoWindow(busy: seq<bv8>, use: seq<bv8>, blocks: nat, minSplitSize: int, blockLength: int, base: real,
      offsetIndex: nat)
    requires Sized(busy, use, blocks) && base > 1.0
    requires forall k: nat :: Window(busy, use, blocks, base, offsetIndex, k).None?
    ensures forall r :: SparseOutcome(busy, use, blocks, minSplitSize, blockLength, r) ==>
      GeomOutcome(busy, use, blocks, minSplitSize, blockLength, base, offsetIndex, r)
  {
    hide SparseOutcome, Window;
  }

  lemma WindowFound(busy: seq<bv8>, use: seq<bv8>, blocks: nat, minSplitSize: int, blockLength: int, base: real,
      offsetIndex: nat, k: nat)
    requires Sized(busy, use, blocks) && base > 1.0
    requires forall j: nat :: j < k ==> Window(busy, use, blocks, base, offsetIndex, j).None?
    requires Window(busy, use, blocks, base, offsetIndex, k).Some?
    ensures GeomOutcome(busy, use, blocks, minSplitSize, blockLength, base, offsetIndex,
      Window(busy, use, blocks, base, offsetIndex, k))
  {
    hide SparseOutcome, Window;
  }

  /** The inner loop of the geometric search; `blocks` stands for nothing found. */
  method ScanWindow(busy: seq<bv8>, use: seq<bv8>, blocks: nat, first: nat, eoi: nat) returns (found: nat)
    requires Sized(busy, use, blocks) && eoi <= blocks
    ensures found <= blocks && Scan(busy, use, first, eoi) == if found < blocks then Some(found) else None
  {
    hide Test, Scan;
    found := blocks;
    var i := first;
    while i < eoi
      invariant found == blocks && Scan(busy, use, first, eoi) == Scan(busy, use, i, eoi)
    {
      ScanStep(busy, use, i, eoi);
      if Test(use, i) {
        return;
      } else if !Test(busy, i) {
        return i;
      }
      i := i + 1;
    }
    ScanStep(busy, use, i, eoi);
  }

  lemma WindowsEnd(busy: seq<bv8>, use: seq<bv8>, blocks: nat, base: real, offsetIndex: nat, k: nat)
    requires Sized(busy, use, blocks) && base > 1.0 && WindowStart(base, k) + offsetIndex as real >= blocks as real
    ensures forall j: nat :: j >= k ==> Window(busy, use, blocks, base, offsetIndex, j).None?
  {
    hide WindowStart, Window;
    forall j: nat | j >= k ensures Window(busy, use, blocks, base, offsetIndex, j).None? {
      WindowsOrdered(base, k, j);
      WindowScans(busy, use, blocks, base, offsetIndex, j);
    }
  }

  lemma WindowScans(busy: seq<bv8>, use: seq<bv8>, blocks: nat, base: real, offsetIndex: nat, k: nat)
    requires Sized(busy, use, blocks) && base > 1.0
    ensures 0.0 <= WindowStart(base, k) < WindowStart(base, k + 1)
    ensures var lo, hi := IndexAt(WindowStart(base, k), offsetIndex), IndexAt(WindowStart(base, k + 1), offsetIndex);
      Window(busy, use, blocks, base, offsetIndex, k) ==
      if WindowStart(base, k) + offsetIndex as real >= blocks as real
          then None else Scan(busy, use, lo, if hi < blocks then hi else blocks)
  {
    hide WindowStart, Scan;
    WindowsAdvance(base, k);
  }

  lemma ScanStep(busy: seq<bv8>, use: seq<bv8>, lo: nat, hi: nat)
    requires |busy| == |use| && hi <= 8 * |busy|
    ensures lo >= hi ==> Scan(busy, use, lo, hi).None?
    ensures lo < hi ==>
      Scan(busy, use, lo, hi) ==
      if Test(use, lo) then None else if !Test(busy, lo) then Some(lo) else Scan(busy, use, lo + 1, hi)
  {
  }

  lemma {:induction false} ScanMeans(busy: seq<bv8>, use: seq<bv8>, lo: nat, hi: nat, v: nat)
    requires |busy| == |use| && hi <= 8 * |busy|
    ensures Scan(busy, use, lo, hi) == Some(v) <==>
      lo <= v < hi && !Test(busy, v) && !Test(use, v) && forall j: nat :: lo <= j < v ==> Test(busy, j) && !Test(use, j)
    decreases hi - lo
  {
    hide Test;
    if lo < hi {
      ScanMeans(busy, use, lo + 1, hi, v);
    }
  }

  /**
   * A window gives the block v exactly if v lies in it, is neither busy nor being fetched, and the window's blocks
   * before v are there and not being fetched.
   */
  lemma WindowGives(busy: seq<bv8>, use: seq<bv8>, blocks: nat, base: real, offsetIndex: nat, k: nat, v: nat)
    requires Sized(busy, use, blocks) && base > 1.0
    ensures Window(busy, use, blocks, base, offsetIndex, k) == Some(v) <==>
      && v < blocks && !Test(busy, v) && !Test(use, v)
      && WindowStart(base, k) < (v + 1 - offsetIndex) as real <= WindowStart(base, k + 1)
      && forall j: nat :: j < v && WindowStart(base, k) < (j + 1 - offsetIndex) as real ==>
           Test(busy, j) && !Test(use, j)
  {
    hide Test, Scan, Window, WindowStart;
    WindowScans(busy, use, blocks, base, offsetIndex, k);
    var start, end := WindowStart(base, k), WindowStart(base, k + 1);
    var lo, hi := IndexAt(start, offsetIndex), IndexAt(end, offsetIndex);
    ScanMeans(busy, use, lo, if hi < blocks then hi else blocks, v);
    IsBefore(start, offsetIndex, v);
    IsBefore(end, offsetIndex, v);
    forall j: nat | j < v < blocks
      ensures !Test(busy, j) || Test(use, j) ==> (start < (j + 1 - offsetIndex) as real <==> lo <= j)
    {
      IsBefore(start, offsetIndex, j);
    }
  }

  lemma IsBefore(position: real, offsetIndex: nat, j: nat)
    requires position >= 0.0
    ensures position < (j + 1 - offsetIndex) as real <==> IndexAt(position, offsetIndex) <= j
  {
  }

  /** How many more windows there can be at most. */
  ghost function Distance(bound: real, start: real, base: real): real
    requires base > 1.0
  {
    (bound - start) / (base - 1.0)
  }

  lemma Advance(bound: real, start: real, next: real, base: real)
    requires base > 1.0 && next == start * base
    ensures start >= 1.0 ==> Distance(bound, next, base) <= Distance(bound, start, base) - 1.0
    ensures start < bound ==> Distance(bound, start, base) >= 0.0
  {
    assert bound - next == (bound - start) - start * (base - 1.0);
    Quotients(bound - start, bound - next, start, base - 1.0);
  }

  /**
   * A geometric search returns a free block, and nothing only if the sparse search finds nothing; the offset itself
   * first.
   */
  lemma GeomMeaning(busy: seq<bv8>, use: seq<bv8>, blocks: nat, minSplitSize: int, blockLength: int, base: real,
      offsetIndex: nat, r: Option)
    requires Sized(busy, use, blocks) && base > 1.0
    requires GeomOutcome(busy, use, blocks, minSplitSize, blockLength, base, offsetIndex, r)
    ensures r.Some? ==> r.value < blocks && !Test(busy, r.value)
    ensures r.None? ==> SparseOutcome(busy, use, blocks, minSplitSize, blockLength, None)
    ensures offsetIndex < blocks && IsFree(busy, use, offsetIndex) ==> r == Some(offsetIndex)
  {
    hide Test, SparseOutcome, WindowStart, Power;
    if r.Some? {
      FoundIsFree(busy, use, blocks, minSplitSize, blockLength, base, offsetIndex, r);
    }
    if offsetIndex < blocks && IsFree(busy, use, offsetIndex) {
      FirstWindow(busy, use, blocks, base, offsetIndex);
    }
  }

  lemma FirstWindow(busy: seq<bv8>, use: seq<bv8>, blocks: nat, base: real, offsetIndex: nat)
    requires Sized(busy, use, blocks) && base > 1.0 && offsetIndex < blocks && IsFree(busy, use, offsetIndex)
    ensures Window(busy, use, blocks, base, offsetIndex, 0) == Some(offsetIndex)
  {
    hide Test, Window;
    WindowScans(busy, use, blocks, base, offsetIndex, 0);
    ScanStep(busy, use, offsetIndex, offsetIndex + 1);
    assert WindowStart(base, 0) == 0.0 && WindowStart(base, 1) == 1.0;
  }

  lemma FoundIsFree(busy: seq<bv8>, use: seq<bv8>, blocks: nat, minSplitSize: int, blockLength: int, base: real,
      offsetIndex: nat, r: Option)
    requires Sized(busy, use, blocks) && base > 1.0 && r.Some?
    requires GeomOutcome(busy, use, blocks, minSplitSize, blockLength, base, offsetIndex, r)
    ensures r.value < blocks && !Test(busy, r.value)
  {
    hide Test, SparseOutcome, Window, WindowStart;
    if k: nat :| Window(busy, use, blocks, base, offsetIndex, k) == r {
      WindowScans(busy, use, blocks, base, offsetIndex, k);
    } else {
      SparseMeaning(busy, use, blocks, minSplitSize, blockLength, r);
    }
  }
}
