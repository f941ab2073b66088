/** How many bytes of a download the blocks of a bit vector hold. */
module PieceLengths {
  import opened Bytes
  import opened Bitfield
  import opened Sequences

  /** Byte o of the download lies in a block whose bit is set. */
  predicate ByteIn(bits: seq<bv8>, blockLength: int, o: nat)
    requires blockLength > 0
  {
    o / blockLength < 8 * |bits| && Test(bits, o / blockLength)
  }

  /** The bytes of [lo, hi) that lie in blocks whose bit is set. */
  ghost function Held(bits: seq<bv8>, blockLength: int, lo: nat, hi: int): set<nat>
    requires blockLength > 0
  {
    set o: nat | lo <= o < hi && ByteIn(bits, blockLength, o)
  }

  lemma HeldSplit(bits: seq<bv8>, blockLength: int, lo: nat, mid: nat, hi: int)
    requires blockLength > 0 && lo <= mid <= hi
    ensures Held(bits, blockLength, lo, hi) == Held(bits, blockLength, lo, mid) + Held(bits, blockLength, mid, hi)
    ensures |Held(bits, blockLength, lo, hi)| == |Held(bits, blockLength, lo, mid)| + |Held(bits, blockLength, mid, hi)|
  {
    hide ByteIn;
    assert Held(bits, blockLength, lo, hi) == Held(bits, blockLength, lo, mid) + Held(bits, blockLength, mid, hi);
    assert Held(bits, blockLength, lo, mid) !! Held(bits, blockLength, mid, hi);
  }

  ghost function Interval(lo: nat, hi: nat): (r: set<nat>)
    requires lo <= hi
    ensures forall o: nat :: o in r <==> lo <= o < hi
    ensures |r| == hi - lo
  {
    if lo == hi then {} else Interval(lo, hi - 1) + {hi - 1}
  }

  /** A range is held in full exactly if as many bytes are held as it has. */
  lemma HeldInFull(bits: seq<bv8>, blockLength: int, lo: nat, hi: nat)
    requires blockLength > 0 && lo <= hi
    ensures |Held(bits, blockLength, lo, hi)| <= hi - lo
    ensures |Held(bits, blockLength, lo, hi)| == hi - lo
      <==> forall o: nat :: lo <= o < hi ==> ByteIn(bits, blockLength, o)
  {
    hide ByteIn;
    var held, all := Held(bits, blockLength, lo, hi), Interval(lo, hi);
    SubsetSize(held, all);
    assert held == all <==> forall o: nat :: lo <= o < hi ==> ByteIn(bits, blockLength, o) by {
      if held == all {
        forall o: nat | lo <= o < hi ensures ByteIn(bits, blockLength, o) {
          assert o in all;
        }
      }
    }
  }

  lemma InBlock(o: nat, blockLength: int, b: nat)
    requires blockLength > 0
    ensures b * blockLength <= o < (b + 1) * blockLength <==> o / blockLength == b
  {
    var q, r := o / blockLength, o % blockLength;
    assert o == q * blockLength + r;
    if q < b {
      assert (q + 1) * blockLength <= b * blockLength;
    } else if q > b {
      assert (b + 1) * blockLength <= q * blockLength;
    }
  }

  /** Part of one block is held as its bit says. */
  lemma HeldInBlock(bits: seq<bv8>, blockLength: int, b: nat, lo: nat, hi: nat)
    requires blockLength > 0 && b < 8 * |bits| && b * blockLength <= lo <= hi <= (b + 1) * blockLength
    ensures |Held(bits, blockLength, lo, hi)| == if Test(bits, b) then hi - lo else 0
  {
    hide Test;
    forall o: nat | lo <= o < hi ensures o / blockLength == b {
      InBlock(o, blockLength, b);
    }
    assert Held(bits, blockLength, lo, hi) == if Test(bits, b) then Interval(lo, hi) else {};
  }

  /** Whole blocks from the start hold a block's length for each bit set. */
  lemma {:induction false} HeldByWholeBlocks(bits: seq<bv8>, blockLength: int, n: nat)
    requires blockLength > 0 && n <= 8 * |bits|
    ensures n * blockLength >= 0
    ensures |Held(bits, blockLength, 0, n * blockLength)| == CountTo(bits, n) * blockLength
  {
    hide Held, Test;
    if n == 0 {
      assert Held(bits, blockLength, 0, 0) == {} by { HeldNothing(bits, blockLength, 0); }
    } else {
      HeldByWholeBlocks(bits, blockLength, n - 1);
      var at := (n - 1) * blockLength;
      assert at + blockLength == n * blockLength;
      HeldSplit(bits, blockLength, 0, at, n * blockLength);
      HeldInBlock(bits, blockLength, n - 1, at, n * blockLength);
      var c := CountTo(bits, n - 1);
      assert (c + 1) * blockLength == c * blockLength + blockLength;
    }
  }

  lemma HeldNothing(bits: seq<bv8>, blockLength: int, at: nat)
    requires blockLength > 0
    ensures Held(bits, blockLength, at, at) == {}
  {
  }

  /** The number of blocks covers the total: only the last block may be shorter, and it is not empty. */
  predicate Covers(blocks: nat, blockLength: int, totalLength: int) {
    blockLength > 0 && totalLength > 0 && blocks > 0 && (blocks - 1) * blockLength < totalLength <= blocks * blockLength
  }

  lemma BlocksCover(blockLength: int, totalLength: int)
    requires blockLength > 0 && totalLength > 0
    ensures (totalLength + blockLength - 1) / blockLength >= 0
    ensures Covers((totalLength + blockLength - 1) / blockLength, blockLength, totalLength)
  {
    var q := (totalLength + blockLength - 1) / blockLength;
    var r := (totalLength + blockLength - 1) % blockLength;
    assert totalLength + blockLength - 1 == q * blockLength + r;
    assert q <= 0 ==> q * blockLength <= 0;
    assert (q - 1) * blockLength == q * blockLength - blockLength;
  }

  /** The length as the source computes it: full blocks, corrected if the last block is among them. */
  function LengthOf(count: nat, lastIsSet: bool, blocks: nat, blockLength: int, totalLength: int): int {
    if count == 0 then 0
    else if lastIsSet then (count - 1) * blockLength + (totalLength - blockLength * (blocks - 1))
    else count * blockLength
  }

  /** That is the full length of the blocks set before the last one, and what the last one has if it is set. */
  lemma LengthOfParts(c: nat, last: bool, blocks: nat, blockLength: int, totalLength: int)
    requires blocks > 0
    ensures LengthOf(c + if last then 1 else 0, last, blocks, blockLength, totalLength)
         == c * blockLength + if last then totalLength - (blocks - 1) * blockLength else 0
  {
  }

  lemma LengthIsHeld(bits: seq<bv8>, blocks: nat, blockLength: int, totalLength: int)
    requires Covers(blocks, blockLength, totalLength) && blocks <= 8 * |bits|
    ensures LengthOf(CountTo(bits, blocks), Test(bits, blocks - 1), blocks, blockLength, totalLength)
         == |Held(bits, blockLength, 0, totalLength)|
  {
    hide Held, Test, LengthOf;
    var at := (blocks - 1) * blockLength;
    assert at + blockLength == blocks * blockLength;
    HeldByWholeBlocks(bits, blockLength, blocks - 1);
    HeldSplit(bits, blockLength, 0, at, totalLength);
    HeldInBlock(bits, blockLength, blocks - 1, at, totalLength);
    LengthOfParts(CountTo(bits, blocks - 1), Test(bits, blocks - 1), blocks, blockLength, totalLength);
  }

  lemma BlockOf(o: nat, blocks: nat, blockLength: int, totalLength: int)
    requires Covers(blocks, blockLength, totalLength) && o < totalLength
    ensures 0 <= o / blockLength < blocks
    ensures o / blockLength * blockLength <= o < (o / blockLength + 1) * blockLength
  {
    InBlock(o, blockLength, o / blockLength);
    var q := o / blockLength;
    assert q >= blocks ==> q * blockLength >= blocks * blockLength;
  }
}
