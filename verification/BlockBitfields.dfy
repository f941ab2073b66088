/** Which blocks of a download are there, are being fetched, or are wanted at all. */
module BlockBitfields {
  import opened Bytes
  import opened Bitfield
  import opened PieceLengths
  import opened PieceSearch

  // ----- what the cached figures mean -----

  /** The blocks that are wanted and not there. */
  ghost function MissingSet(bitfield: seq<bv8>, filter: seq<bv8>, enabled: bool, blocks: nat): set<nat>
    requires blocks <= 8 * |bitfield| && (enabled ==> blocks <= 8 * |filter|)
  {
    set i: nat | i < blocks && !Test(bitfield, i) && (enabled ==> Test(filter, i))
  }

  /** The number of bytes of the download in the blocks whose bit is set. */
  ghost function LengthIn(bits: seq<bv8>, blocks: nat, blockLength: int, totalLength: int): nat {
    if blocks == 0 || blockLength <= 0 then 0 else |Held(bits, blockLength, 0, totalLength)|
  }

  predicate BlocksFor(blocks: nat, blockLength: int, totalLength: int) {
    if blockLength > 0 && totalLength > 0 then Covers(blocks, blockLength, totalLength) else blocks == 0
  }

  lemma WantedMissing(bitfield: seq<bv8>, filter: seq<bv8>, blocks: nat)
    requires blocks <= 8 * |bitfield| && |filter| == |bitfield|
    ensures CountTo(filter, blocks) - CountTo(And(bitfield, filter), blocks)
      == |MissingSet(bitfield, filter, true, blocks)|
  {
    hide Test, And;
    var both := And(bitfield, filter);
    AndTest(bitfield, filter);
    CountIsCardinality(filter, blocks);
    CountIsCardinality(both, blocks);
    var missing := MissingSet(bitfield, filter, true, blocks);
    assert IndexSet(filter, blocks) == IndexSet(both, blocks) + missing && IndexSet(both, blocks) !! missing;
  }

  lemma AllMissing(bitfield: seq<bv8>, filter: seq<bv8>, blocks: nat)
    requires blocks <= 8 * |bitfield|
    ensures blocks - CountTo(bitfield, blocks) == |MissingSet(bitfield, filter, false, blocks)|
  {
    hide Test;
    CountIsCardinality(bitfield, blocks);
    var absent := MissingSet(bitfield, filter, false, blocks);
    assert Interval(0, blocks) == IndexSet(bitfield, blocks) + absent && IndexSet(bitfield, blocks) !! absent;
  }

  /** Every wanted block is there if and only if masking with the filter gives the filter back. */
  lemma FilteredAllSet(bitfield: seq<bv8>, filter: seq<bv8>, blocks: nat)
    requires |bitfield| == |filter| == Size(blocks) && SpareZero(filter, blocks)
    ensures And(bitfield, filter) == filter <==> |MissingSet(bitfield, filter, true, blocks)| == 0
  {
    hide Test, And;
    var both, missing := And(bitfield, filter), MissingSet(bitfield, filter, true, blocks);
    AndTest(bitfield, filter);
    if both == filter {
      assert missing == {};
    } else if |missing| == 0 {
      forall i: nat | i < 8 * |filter| ensures Test(both, i) == Test(filter, i) {
        assert i !in missing;
      }
      SameVector(both, filter);
    }
  }

  lemma AllSet(bitfield: seq<bv8>, filter: seq<bv8>, blocks: nat)
    requires |bitfield| == Size(blocks)
    ensures (forall i: nat :: i < blocks ==> Test(bitfield, i)) <==> |MissingSet(bitfield, filter, false, blocks)| == 0
  {
    hide Test;
    var missing := MissingSet(bitfield, filter, false, blocks);
    if |missing| == 0 {
      forall i: nat | i < blocks ensures Test(bitfield, i) {
        assert i !in missing;
      }
    } else {
      var i :| i in missing;
    }
  }

  lemma PutKeepsSpare(a: seq<bv8>, n: nat, i: nat, on: bool)
    requires SpareZero(a, n) && i < n <= 8 * |a|
    ensures SpareZero(Put(a, i, on), n)
  {
    hide Test, Put;
    PutTest(a, i, on);
  }

  /** The blocks of [lo, hi) were switched on or off and no others. */
  ghost predicate RangeSet(before: seq<bv8>, after: seq<bv8>, lo: nat, hi: nat, blocks: nat, on: bool) {
    && |after| == |before| && blocks <= 8 * |after|
    && forall i: nat :: i < blocks ==> Test(after, i) == if lo <= i < hi then on else Test(before, i)
  }

  lemma RangeOneMore(before: seq<bv8>, mid: seq<bv8>, after: seq<bv8>, lo: nat, hi: nat, blocks: nat, on: bool)
    requires RangeSet(before, mid, lo, hi, blocks, on) && lo <= hi && |after| == |mid|
    requires forall i: nat :: i < blocks ==> Test(after, i) == if i == hi then on else Test(mid, i)
    ensures RangeSet(before, after, lo, hi + 1, blocks, on)
  {
    hide Test;
  }

  /** Block i has a byte in [offset, offset + length). */
  predicate Overlaps(i: nat, blockLength: int, offset: int, length: int) {
    i * blockLength < offset + length && offset < (i + 1) * blockLength
  }

  lemma OverlapsIsRange(i: nat, blockLength: int, offset: nat, length: int)
    requires blockLength > 0 && length > 0
    ensures Overlaps(i, blockLength, offset, length)
      <==> offset / blockLength <= i <= (offset + length - 1) / blockLength
  {
    var first, last := offset / blockLength, (offset + length - 1) / blockLength;
    InBlock(offset, blockLength, first);
    InBlock(offset + length - 1, blockLength, last);
    if i < first {
      ProductsOrdered(i + 1, first, blockLength);
    } else {
      ProductsOrdered(first, i, blockLength);
    }
    if i <= last {
      ProductsOrdered(i, last, blockLength);
    } else {
      ProductsOrdered(last + 1, i, blockLength);
    }
  }

  lemma ProductsOrdered(a: int, b: int, m: int)
    requires a <= b && m > 0
    ensures a * m <= b * m
    ensures (a + 1) * m == a * m + m && (b + 1) * m == b * m + m
  {
  }

  class BitfieldMan {
    const totalLength: int
    const blockLength: int
    const blocks: nat
    var bitfield: seq<bv8>
    var useBitfield: seq<bv8>
    var filterBitfield: seq<bv8>
    var filterEnabled: bool
    var cachedNumMissingBlock: int
    var cachedNumFilteredBlock: int
    var cachedFilteredTotalLength: int
    var cachedCompletedLength: int
    var cachedFilteredCompletedLength: int

    /** The sizes agree, and no bit is set beyond the last block. */
    ghost predicate Shape()
      reads this
    {
      && BlocksFor(blocks, blockLength, totalLength)
      && |bitfield| == |useBitfield| == Size(blocks)
      && (filterBitfield != [] || filterEnabled ==> |filterBitfield| == Size(blocks))
      && SpareZero(bitfield, blocks) && SpareZero(useBitfield, blocks) && SpareZero(filterBitfield, blocks)
    }

    ghost function Length(bits: seq<bv8>): nat {
      LengthIn(bits, blocks, blockLength, totalLength)
    }

    /** The five cached figures are what they are defined to be. */
    ghost predicate Cached()
      requires Shape()
      reads this
    {
      && cachedNumMissingBlock == |MissingSet(bitfield, filterBitfield, filterEnabled, blocks)|
      && cachedNumFilteredBlock == (if filterEnabled then |IndexSet(filterBitfield, blocks)| else 0)
      && cachedFilteredTotalLength == (if filterBitfield == [] then 0 else Length(filterBitfield))
      && cachedCompletedLength == Length(bitfield)
      && cachedFilteredCompletedLength
          == (if filterEnabled then Length(And(bitfield, filterBitfield)) else Length(bitfield))
    }

    ghost predicate Valid()
      reads this
    {
      Shape() && Cached()
    }

    constructor (blockLength: int, totalLength: int)
      ensures Valid() && this.blockLength == blockLength && this.totalLength == totalLength
      ensures bitfield == useBitfield == Zeros(Size(blocks)) && filterBitfield == [] && !filterEnabled
    {
      this.totalLength, this.blockLength := totalLength, blockLength;
      var n := 0;
      if blockLength > 0 && totalLength > 0 {
        BlocksCover(blockLength, totalLength);
        n := (totalLength + blockLength - 1) / blockLength;
      }
      blocks := n;
      bitfield, useBitfield, filterBitfield := Zeros(Size(n)), Zeros(Size(n)), [];
      filterEnabled := false;
      new;
      ZerosTest(Size(n));
      UpdateCache();
    }

    constructor Copy(o: BitfieldMan)
      requires o.Valid()
      ensures Valid() && blockLength == o.blockLength && totalLength == o.totalLength && blocks == o.blocks
      ensures bitfield == o.bitfield && useBitfield == o.useBitfield && filterBitfield == o.filterBitfield
        && filterEnabled == o.filterEnabled
    {
      totalLength, blockLength, blocks := o.totalLength, o.blockLength, o.blocks;
      bitfield, useBitfield := o.bitfield, o.useBitfield;
      filterBitfield, filterEnabled := o.filterBitfield, o.filterEnabled;
      new;
      UpdateCache();
    }

    method UpdateCache()
      requires Shape()
      modifies `cachedNumMissingBlock, `cachedNumFilteredBlock, `cachedFilteredTotalLength, `cachedCompletedLength,
               `cachedFilteredCompletedLength
      ensures Valid()
    {
      var missing := CountMissingBlockNow();
      var filtered := CountFilteredBlockNow();
      var filteredTotal := GetFilteredTotalLengthNow();
      var completed := GetCompletedLengthNow(false);
      var filteredCompleted := GetCompletedLengthNow(true);
      cachedNumMissingBlock, cachedNumFilteredBlock := missing, filtered;
      cachedFilteredTotalLength, cachedCompletedLength := filteredTotal, completed;
      cachedFilteredCompletedLength := filteredCompleted;
    }

    method CountMissingBlockNow() returns (n: int)
      requires Shape()
      ensures n == |MissingSet(bitfield, filterBitfield, filterEnabled, blocks)|
    {
      hide Test, CountTo, And, MissingSet;
      if filterEnabled {
        var wanted := CountSetBit(filterBitfield, blocks);
        var there := CountSetBitSlow(And(bitfield, filterBitfield), blocks);
        WantedMissing(bitfield, filterBitfield, blocks);
        n := wanted - there;
      } else {
        var there := CountSetBit(bitfield, blocks);
        AllMissing(bitfield, filterBitfield, blocks);
        n := blocks - there;
      }
    }

    method CountFilteredBlockNow() returns (n: int)
      requires Shape()
      ensures n == if filterEnabled then |IndexSet(filterBitfield, blocks)| else 0
    {
      if filterEnabled {
        n := CountSetBit(filterBitfield, blocks);
        CountIsCardinality(filterBitfield, blocks);
      } else {
        n := 0;
      }
    }

    method GetFilteredTotalLengthNow() returns (n: int)
      requires Shape()
      ensures n == if filterBitfield == [] then 0 else Length(filterBitfield)
    {
      hide Test, CountTo, Held;
      if filterBitfield == [] {
        return 0;
      }
      LengthIsHeld(filterBitfield, blocks, blockLength, totalLength);
      var filteredBlocks := CountSetBit(filterBitfield, blocks);
      if filteredBlocks == 0 {
        return 0;
      }
      if Test(filterBitfield, blocks - 1) {
        n := (filteredBlocks - 1) * blockLength + GetLastBlockLength();
      } else {
        n := filteredBlocks * blockLength;
      }
    }

    function GetLastBlockLength(): int {
      totalLength - blockLength * (blocks - 1)
    }

    method GetCompletedLengthNow(useFilter: bool) returns (n: int)
      requires Shape()
      ensures n == Length(if useFilter && filterEnabled then And(bitfield, filterBitfield) else bitfield)
    {
      hide Test, CountTo, Held, And;
      var bits, completedBlocks := bitfield, 0;
      if useFilter && filterEnabled {
        bits := And(bitfield, filterBitfield);
        completedBlocks := CountSetBitSlow(bits, blocks);
      } else {
        completedBlocks := CountSetBit(bits, blocks);
      }
      if blocks > 0 {
        LengthIsHeld(bits, blocks, blockLength, totalLength);
      } else {
        assert completedBlocks == 0 by { CountNone(bits); }
      }
      if completedBlocks == 0 {
        n := 0;
      } else if Test(bits, blocks - 1) {
        n := (completedBlocks - 1) * blockLength + GetLastBlockLength();
      } else {
        n := completedBlocks * blockLength;
      }
    }

    // ----- changing bits -----

    method SetBitInternal(bits: seq<bv8>, index: nat, on: bool) returns (after: seq<bv8>, ok: bool)
      requires |bits| == Size(blocks) && SpareZero(bits, blocks)
      ensures |after| == |bits| && SpareZero(after, blocks) && ok == (index < blocks)
      ensures forall i: nat :: i < blocks ==> Test(after, i) == if i == index then on else Test(bits, i)
    {
      if blocks <= index {
        return bits, false;
      }
      PutKeepsSpare(bits, blocks, index, on);
      PutTest(bits, index, on);
      return Put(bits, index, on), true;
    }

    method SetUseBit(index: nat) returns (ok: bool)
      requires Valid()
      modifies `useBitfield
      ensures Valid() && ok == (index < blocks)
      ensures forall i: nat :: i < blocks ==>
        Test(useBitfield, i) == if i == index then true else old(Test(useBitfield, i))
    {
      useBitfield, ok := SetBitInternal(useBitfield, index, true);
    }

    method UnsetUseBit(index: nat) returns (ok: bool)
      requires Valid()
      modifies `useBitfield
      ensures Valid() && ok == (index < blocks)
      ensures forall i: nat :: i < blocks ==>
        Test(useBitfield, i) == if i == index then false else old(Test(useBitfield, i))
    {
      useBitfield, ok := SetBitInternal(useBitfield, index, false);
    }

    method SetBit(index: nat) returns (ok: bool)
      requires Valid()
      modifies this
      ensures Valid() && ok == (index < blocks) && Kept(old(useBitfield), old(filterBitfield), old(filterEnabled))
      ensures forall i: nat :: i < blocks ==> Test(bitfield, i) == if i == index then true else old(Test(bitfield, i))
    {
      bitfield, ok := SetBitInternal(bitfield, index, true);
      UpdateCache();
    }

    method UnsetBit(index: nat) returns (ok: bool)
      requires Valid()
      modifies this
      ensures Valid() && ok == (index < blocks) && Kept(old(useBitfield), old(filterBitfield), old(filterEnabled))
      ensures forall i: nat :: i < blocks ==> Test(bitfield, i) == if i == index then false else old(Test(bitfield, i))
    {
      bitfield, ok := SetBitInternal(bitfield, index, false);
      UpdateCache();
    }

    /** What a change of the bit field leaves alone. */
    ghost predicate Kept(use: seq<bv8>, filter: seq<bv8>, enabled: bool)
      reads this
    {
      useBitfield == use && filterBitfield == filter && filterEnabled == enabled
    }

    method SetBitRange(startIndex: nat, endIndex: nat)
      requires Valid()
      modifies this
      ensures Valid() && Kept(old(useBitfield), old(filterBitfield), old(filterEnabled))
      ensures RangeSet(old(bitfield), bitfield, startIndex, endIndex + 1, blocks, true)
    {
      hide Test, Cached;
      ghost var before := bitfield;
      var i := startIndex;
      while i <= endIndex
        invariant startIndex <= i && Valid() && Kept(old(useBitfield), old(filterBitfield), old(filterEnabled))
        invariant i == startIndex || i <= endIndex + 1
        invariant RangeSet(before, bitfield, startIndex, i, blocks, true)
      {
        ghost var mid := bitfield;
        var _ := SetBit(i);
        RangeOneMore(before, mid, bitfield, startIndex, i, blocks, true);
        i := i + 1;
      }
      UpdateCache();
    }

    method UnsetBitRange(startIndex: nat, endIndex: nat)
      requires Valid()
      modifies this
      ensures Valid() && Kept(old(useBitfield), old(filterBitfield), old(filterEnabled))
      ensures RangeSet(old(bitfield), bitfield, startIndex, endIndex + 1, blocks, false)
    {
      hide Test, Cached;
      ghost var before := bitfield;
      var i := startIndex;
      while i <= endIndex
        invariant startIndex <= i && Valid() && Kept(old(useBitfield), old(filterBitfield), old(filterEnabled))
        invariant i == startIndex || i <= endIndex + 1
        invariant RangeSet(before, bitfield, startIndex, i, blocks, false)
      {
        ghost var mid := bitfield;
        var _ := UnsetBit(i);
        RangeOneMore(before, mid, bitfield, startIndex, i, blocks, false);
        i := i + 1;
      }
      UpdateCache();
    }

    /** The spare bits of what is passed must be zero: nothing clears them. */
    method SetBitfield(bits: seq<bv8>)
      requires Valid() && (|bits| == Size(blocks) ==> SpareZero(bits, blocks))
      modifies this
      ensures Valid() && filterBitfield == old(filterBitfield) && filterEnabled == old(filterEnabled)
      ensures if blocks == 0 || |bits| != Size(blocks) then bitfield == old(bitfield) && useBitfield == old(useBitfield)
        else bitfield == bits && useBitfield == Zeros(Size(blocks))
    {
      if |bitfield| == 0 || |bitfield| != |bits| {
        return;
      }
      bitfield := bits;
      useBitfield := Zeros(|useBitfield|);
      ZerosTest(|useBitfield|);
      UpdateCache();
    }

    method ClearAllBit()
      requires Valid()
      modifies this
      ensures Valid() && Kept(old(useBitfield), old(filterBitfield), old(filterEnabled))
        && bitfield == Zeros(Size(blocks))
    {
      bitfield := Zeros(|bitfield|);
      ZerosTest(|bitfield|);
      UpdateCache();
    }

    method SetAllBit()
      requires Valid()
      modifies this
      ensures Valid() && Kept(old(useBitfield), old(filterBitfield), old(filterEnabled))
      ensures (forall i: nat :: i < blocks ==> Test(bitfield, i)) && cachedNumMissingBlock == 0
    {
      bitfield := FilledWithOnes();
      FullTest(blocks);
      UpdateCache();
      assert MissingSet(bitfield, filterBitfield, filterEnabled, blocks) == {};
    }

    /** All bytes 0xff, then the spare bits of the last byte cleared. */
    method FilledWithOnes() returns (ones: seq<bv8>)
      ensures ones == Full(blocks)
    {
      ones := seq(Size(blocks), _ => 0xff);
      if |ones| > 0 {
        AndOnes(LastByteMask(blocks));
        ones := ones[|ones| - 1 := AndByte(ones[|ones| - 1], LastByteMask(blocks))];
      }
      assert ones == Full(blocks);
    }

    method ClearAllUseBit()
      requires Valid()
      modifies this
      ensures Valid() && bitfield == old(bitfield) && Kept(Zeros(Size(blocks)), old(filterBitfield), old(filterEnabled))
    {
      useBitfield := Zeros(|useBitfield|);
      ZerosTest(|useBitfield|);
      UpdateCache();
    }

    method SetAllUseBit()
      requires Valid()
      modifies `useBitfield
      ensures Valid() && forall i: nat :: i < blocks ==> Test(useBitfield, i)
    {
      useBitfield := FilledWithOnes();
      FullTest(blocks);
    }

    // ----- the filter -----

    method EnsureFilterBitfield()
      requires Shape()
      modifies `filterBitfield
      ensures Shape() && |filterBitfield| == Size(blocks)
      ensures filterBitfield == if old(filterBitfield) == [] then Zeros(Size(blocks)) else old(filterBitfield)
    {
      ZerosTest(Size(blocks));
      if filterBitfield == [] {
        filterBitfield := Zeros(|bitfield|);
      }
    }

    /** Whether block i passes the filter; without one, none does. */
    predicate InFilter(i: nat)
      reads this
    {
      i < 8 * |filterBitfield| && Test(filterBitfield, i)
    }

    /** The loops of the filter methods: the blocks of [lo, hi) that exist are switched. */
    method SwitchFilter(lo: nat, hi: nat, on: bool)
      requires Shape() && |filterBitfield| == Size(blocks)
      modifies `filterBitfield
      ensures Shape() && RangeSet(old(filterBitfield), filterBitfield, lo, hi, blocks, on)
    {
      hide Test;
      ghost var before := filterBitfield;
      var i := lo;
      while i < hi && i < blocks
        invariant lo <= i && (i == lo || i <= hi) && Shape() && RangeSet(before, filterBitfield, lo, i, blocks, on)
      {
        ghost var mid := filterBitfield;
        var ok;
        filterBitfield, ok := SetBitInternal(filterBitfield, i, on);
        RangeOneMore(before, mid, filterBitfield, lo, i, blocks, on);
        i := i + 1;
      }
    }

    /** Adds exactly the blocks that have a byte in the range. */
    method AddFilter(offset: nat, length: int)
      requires Valid() && (length > 0 ==> blockLength > 0)
      modifies this
      ensures Valid() && bitfield == old(bitfield) && useBitfield == old(useBitfield)
        && filterEnabled == old(filterEnabled)
      ensures forall i: nat :: i < blocks ==>
        (InFilter(i) <==> old(InFilter(i)) || (length > 0 && Overlaps(i, blockLength, offset, length)))
    {
      hide Test, Overlaps, Cached;
      ZerosTest(Size(blocks));
      EnsureFilterBitfield();
      if length > 0 {
        NotNegative(offset, blockLength, length);
        var startBlock := offset / blockLength;
        var endBlock := (offset + length - 1) / blockLength;
        SwitchFilter(startBlock, endBlock + 1, true);
        forall i: nat | i < blocks ensures Overlaps(i, blockLength, offset, length) <==> startBlock <= i <= endBlock {
          OverlapsIsRange(i, blockLength, offset, length);
        }
      }
      UpdateCache();
    }

    /** Takes out exactly the blocks that have a byte in the range. */
    method RemoveFilter(offset: nat, length: int)
      requires Valid() && (length > 0 ==> blockLength > 0)
      modifies this
      ensures Valid() && bitfield == old(bitfield) && useBitfield == old(useBitfield)
        && filterEnabled == old(filterEnabled)
      ensures forall i: nat :: i < blocks ==>
        (InFilter(i) <==> old(InFilter(i)) && !(length > 0 && Overlaps(i, blockLength, offset, length)))
    {
      hide Test, Overlaps, Cached;
      ZerosTest(Size(blocks));
      EnsureFilterBitfield();
      if length > 0 {
        NotNegative(offset, blockLength, length);
        var startBlock := offset / blockLength;
        var endBlock := (offset + length - 1) / blockLength;
        SwitchFilter(startBlock, endBlock + 1, false);
        forall i: nat | i < blocks ensures Overlaps(i, blockLength, offset, length) <==> startBlock <= i <= endBlock {
          OverlapsIsRange(i, blockLength, offset, length);
        }
      }
      UpdateCache();
    }

    /** Adds exactly the blocks that have no byte in the range, if the range is not empty. */
    method AddNotFilter(offset: nat, length: int)
      requires Valid()
      modifies this
      ensures Valid() && bitfield == old(bitfield) && useBitfield == old(useBitfield)
        && filterEnabled == old(filterEnabled)
      ensures forall i: nat :: i < blocks ==>
        (InFilter(i) <==> old(InFilter(i)) || (length > 0 && !Overlaps(i, blockLength, offset, length)))
    {
      hide Test, Overlaps, Cached;
      ZerosTest(Size(blocks));
      EnsureFilterBitfield();
      if length > 0 && blocks > 0 {
        NotNegative(offset, blockLength, length);
        var startBlock := offset / blockLength;
        ghost var first := startBlock;
        if blocks <= startBlock {
          startBlock := blocks;
        }
        var endBlock := (offset + length - 1) / blockLength;
        SwitchFilter(0, startBlock, true);
        SwitchFilter(endBlock + 1, blocks, true);
        forall i: nat | i < blocks ensures Overlaps(i, blockLength, offset, length) <==> first <= i <= endBlock {
          OverlapsIsRange(i, blockLength, offset, length);
        }
      }
      UpdateCache();
    }

    method EnableFilter()
      requires Valid()
      modifies this
      ensures Valid() && filterEnabled && bitfield == old(bitfield) && useBitfield == old(useBitfield)
      ensures forall i: nat :: i < blocks ==> (InFilter(i) <==> old(InFilter(i)))
    {
      hide Test, Cached;
      ZerosTest(Size(blocks));
      EnsureFilterBitfield();
      filterEnabled := true;
      UpdateCache();
    }

    method DisableFilter()
      requires Valid()
      modifies this
      ensures Valid() && Kept(old(useBitfield), old(filterBitfield), false) && bitfield == old(bitfield)
    {
      hide Test, Cached;
      filterEnabled := false;
      UpdateCache();
    }

    method ClearFilter()
      requires Valid()
      modifies this
      ensures Valid() && Kept(old(useBitfield), [], false) && bitfield == old(bitfield)
    {
      hide Test, Cached;
      filterBitfield := [];
      filterEnabled := false;
      UpdateCache();
    }

    // ----- questions -----

    /** All wanted blocks are there: the byte-wise comparison and the cached count say the same. */
    method IsFilteredAllBitSet() returns (r: bool)
      requires Valid()
      ensures r <==> cachedNumMissingBlock == 0
    {
      hide Test, And, MissingSet, Held, IndexSet;
      if filterEnabled {
        FilteredAllSet(bitfield, filterBitfield, blocks);
        AndBytes(bitfield, filterBitfield);
        for i := 0 to |bitfield|
          invariant forall k :: 0 <= k < i ==> And(bitfield, filterBitfield)[k] == filterBitfield[k]
        {
          if AndByte(bitfield[i], filterBitfield[i]) != filterBitfield[i] {
            return false;
          }
        }
        assert And(bitfield, filterBitfield) == filterBitfield;
        return true;
      } else {
        AllSet(bitfield, filterBitfield, blocks);
        r := IsAllBitSet();
      }
    }

    method IsAllBitSet() returns (r: bool)
      requires Valid()
      ensures r <==> forall i: nat :: i < blocks ==> Test(bitfield, i)
    {
      r := TestAllBitSet(bitfield, |bitfield|, blocks);
    }

    predicate PeerOffers(peerBitfield: seq<bv8>, i: nat)
      requires Valid() && |peerBitfield| == Size(blocks) && i < 8 * |peerBitfield|
      reads this
    {
      Test(peerBitfield, i) && !Test(bitfield, i) && (filterEnabled ==> Test(filterBitfield, i))
    }

    ghost predicate OffersSome(peerBitfield: seq<bv8>)
      requires Valid() && |peerBitfield| == Size(blocks)
      reads this
    {
      exists i: nat :: i < 8 * |peerBitfield| && PeerOffers(peerBitfield, i)
    }

    lemma WantedIsOffered(peerBitfield: seq<bv8>, wanted: seq<bv8>)
      requires Valid() && |peerBitfield| == Size(blocks)
      requires wanted == And(And(peerBitfield, Not(bitfield)), if filterEnabled then filterBitfield else peerBitfield)
      ensures AllZero(wanted) <==> !OffersSome(peerBitfield)
    {
      hide Test, And, Not, Cached;
      WantedTest(peerBitfield, bitfield, if filterEnabled then filterBitfield else peerBitfield);
      NonZeroIffTest(wanted);
      assert forall i: nat :: i < 8 * |peerBitfield| ==> Test(wanted, i) == PeerOffers(peerBitfield, i);
    }

    /** The peer has something wanted that is not there; its spare bits count as blocks if it sets any. */
    method HasMissingPiece(peerBitfield: seq<bv8>) returns (r: bool)
      requires Valid()
      ensures |peerBitfield| != Size(blocks) ==> !r
      ensures |peerBitfield| == Size(blocks) ==> (r <==> OffersSome(peerBitfield))
    {
      if |bitfield| != |peerBitfield| {
        return false;
      }
      ghost var wanted := And(And(peerBitfield, Not(bitfield)), if filterEnabled then filterBitfield else peerBitfield);
      WantedIsOffered(peerBitfield, wanted);
      WantedBytes(peerBitfield, bitfield, if filterEnabled then filterBitfield else peerBitfield);
      hide Test, AndByte, NotByte, Cached, OffersSome, And, Not;
      for i := 0 to |bitfield|
        invariant forall k :: 0 <= k < i ==> wanted[k] == 0
      {
        var temp := AndByte(peerBitfield[i], NotByte(bitfield[i]));
        AndItself(peerBitfield[i], NotByte(bitfield[i]));
        if filterEnabled {
          temp := AndByte(temp, filterBitfield[i]);
        }
        if temp != 0 {
          assert wanted[i] != 0;
          return true;
        }
      }
      return false;
    }

    /** The bytes of a range that are in blocks that are there; the range is cut at the end of the download. */
    method GetOffsetCompletedLength(offset: nat, length: nat) returns (res: int)
      requires Valid() && (totalLength > 0 ==> blockLength > 0)
      ensures totalLength <= offset ==> res == 0
      ensures totalLength > offset ==>
        res == |Held(bitfield, blockLength, offset,
                     if totalLength < offset + length then totalLength else offset + length)|
    {
      hide Test, Cached, Held, SpareZero;
      res := 0;
      if length == 0 || totalLength <= offset {
        if totalLength > offset {
          HeldNothing(bitfield, blockLength, offset);
        }
        return;
      }
      var len: int := length;
      if totalLength < offset + len {
        len := totalLength - offset;
      }
      BlockOf(offset, blocks, blockLength, totalLength);
      BlockOf(offset + len - 1, blocks, blockLength, totalLength);
      var start := offset / blockLength;
      var end := (offset + len - 1) / blockLength;
      if start == end {
        HeldInBlock(bitfield, blockLength, start, offset, offset + len);
        if Test(bitfield, start) {
          res := len;
        }
      } else {
        Ordered(offset, offset + len - 1, blockLength);
        HeldOneMore(bitfield, blockLength, offset, start);
        if Test(bitfield, start) {
          res := res + (start + 1) * blockLength - offset;
        }
        var i := start + 1;
        while i <= end - 1
          invariant start < i <= end && 0 <= offset <= i * blockLength
          invariant res == |Held(bitfield, blockLength, offset, i * blockLength)|
        {
          HeldOneMore(bitfield, blockLength, offset, i);
          if Test(bitfield, i) {
            res := res + blockLength;
          }
          i := i + 1;
        }
        HeldInLast(bitfield, blockLength, offset, end, offset + len);
        if Test(bitfield, end) {
          res := res + offset + len - end * blockLength;
        }
      }
    }

    /** Every byte of the range that the download has lies in a block that is there; an empty range does not count. */
    method IsBitSetOffsetRange(offset: nat, length: int) returns (r: bool)
      requires Valid() && (totalLength > 0 ==> blockLength > 0)
      ensures length <= 0 || totalLength <= offset ==> !r
      ensures length > 0 && totalLength > offset ==>
        (r <==> forall o: nat :: offset <= o < offset + length && o < totalLength ==> ByteIn(bitfield, blockLength, o))
    {
      hide Test, Cached;
      if length <= 0 {
        return false;
      }
      if totalLength <= offset {
        return false;
      }
      var len := length;
      if totalLength < offset + len {
        len := totalLength - offset;
      }
      BlockOf(offset, blocks, blockLength, totalLength);
      BlockOf(offset + len - 1, blocks, blockLength, totalLength);
      var startBlock := offset / blockLength;
      var endBlock := (offset + len - 1) / blockLength;
      BlocksOfRange(bitfield, blockLength, offset, offset + len);
      var i := startBlock;
      while i <= endBlock
        invariant startBlock <= i && forall k: nat :: startBlock <= k < i && k <= endBlock ==> Test(bitfield, k)
      {
        if !Test(bitfield, i) {
          return false;
        }
        i := i + 1;
      }
      return true;
    }

    // ----- choosing blocks -----

    /** A block that is neither there nor being fetched nor to be ignored, and is wanted. */
    predicate Eligible(ignoreBitfield: seq<bv8>, i: nat)
      requires Valid() && |ignoreBitfield| == Size(blocks) && i < blocks
      reads this
    {
      !Test(bitfield, i) && !Test(useBitfield, i) && !Test(ignoreBitfield, i)
          && (filterEnabled ==> Test(filterBitfield, i))
    }

    function BusyWith(ignoreBitfield: seq<bv8>): seq<bv8>
      requires Valid() && |ignoreBitfield| == Size(blocks)
      reads this
    {
      if filterEnabled then Or(Or(Or(ignoreBitfield, Not(filterBitfield)), bitfield), useBitfield)
      else Or(Or(ignoreBitfield, bitfield), useBitfield)
    }

    lemma BusyMeansNotEligible(ignoreBitfield: seq<bv8>)
      requires Valid() && |ignoreBitfield| == Size(blocks)
      ensures |BusyWith(ignoreBitfield)| == Size(blocks) && blocks <= 8 * Size(blocks)
      ensures forall i: nat :: i < blocks ==> (Eligible(ignoreBitfield, i) <==> !Test(BusyWith(ignoreBitfield), i))
      ensures forall i: nat :: i < blocks && Test(useBitfield, i) ==> Test(BusyWith(ignoreBitfield), i)
    {
      hide Test, Or, Not, Cached;
      if filterEnabled {
        var a := Or(ignoreBitfield, Not(filterBitfield));
        NotTest(filterBitfield);
        OrTest(ignoreBitfield, Not(filterBitfield));
        OrTest(a, bitfield);
        OrTest(Or(a, bitfield), useBitfield);
      } else {
        OrTest(ignoreBitfield, bitfield);
        OrTest(Or(ignoreBitfield, bitfield), useBitfield);
      }
    }

    method GetSparseMissingUnusedIndex(minSplitSize: int, ignoreBitfield: seq<bv8>) returns (r: Option)
      requires Valid() && |ignoreBitfield| == Size(blocks)
      ensures SparseOutcome(BusyWith(ignoreBitfield), useBitfield, blocks, minSplitSize, blockLength, r)
      ensures r.Some? ==> r.value < blocks && Eligible(ignoreBitfield, r.value)
      ensures minSplitSize <= blockLength && blockLength > 0 ==>
        (r.Some? <==> exists i: nat :: i < blocks && Eligible(ignoreBitfield, i))
    {
      hide Test, Cached, SparseOutcome, BusyWith, Eligible;
      BusyMeansNotEligible(ignoreBitfield);
      r := PieceSearch.GetSparseMissingUnusedIndex(minSplitSize, BusyWith(ignoreBitfield), useBitfield, blockLength,
          blocks);
      SparseMeaning(BusyWith(ignoreBitfield), useBitfield, blocks, minSplitSize, blockLength, r);
    }

    method GetGeomMissingUnusedIndex(minSplitSize: int, ignoreBitfield: seq<bv8>, base: real, offsetIndex: nat)
      returns (r: Option)
      requires Valid() && |ignoreBitfield| == Size(blocks) && base > 1.0
      ensures GeomOutcome(BusyWith(ignoreBitfield), useBitfield, blocks, minSplitSize, blockLength, base, offsetIndex,
        r)
      ensures r.Some? ==> r.value < blocks && Eligible(ignoreBitfield, r.value)
      ensures offsetIndex < blocks && Eligible(ignoreBitfield, offsetIndex) ==> r == Some(offsetIndex)
    {
      hide Test, Cached, GeomOutcome, BusyWith, Eligible;
      BusyMeansNotEligible(ignoreBitfield);
      r := PieceSearch.GetGeomMissingUnusedIndex(minSplitSize, BusyWith(ignoreBitfield), useBitfield, blockLength,
          blocks, base, offsetIndex);
      GeomMeaning(BusyWith(ignoreBitfield), useBitfield, blocks, minSplitSize, blockLength, base, offsetIndex, r);
    }

    /** The ranged form cuts endIndex to the number of blocks; the other form is the range of all blocks. */
    method GetInorderMissingUnusedIndex(startIndex: nat, endIndex: nat, minSplitSize: int, ignoreBitfield: seq<bv8>)
      returns (r: Option)
      requires Valid() && |ignoreBitfield| == Size(blocks) && startIndex < blocks
      ensures InorderOutcome(BusyWith(ignoreBitfield), useBitfield, blocks, startIndex, if endIndex < blocks
        then endIndex else blocks, minSplitSize, blockLength, r)
      ensures r.Some? ==> startIndex <= r.value < blocks && Eligible(ignoreBitfield, r.value)
      ensures r.Some? && minSplitSize <= blockLength && startIndex < endIndex ==> r.value < endIndex
      ensures var last := if endIndex < blocks then endIndex else blocks;
        r.Some? && r.value >= last
        <==> LeavesRange(BusyWith(ignoreBitfield), useBitfield, blocks, startIndex, last, minSplitSize, blockLength)
    {
      hide Test, Cached, InorderOutcome, BusyWith, Eligible, LeavesRange;
      BusyMeansNotEligible(ignoreBitfield);
      var last := if endIndex < blocks then endIndex else blocks;
      r := PieceSearch.GetInorderMissingUnusedIndex(startIndex, last, minSplitSize, BusyWith(ignoreBitfield),
          useBitfield, blockLength, blocks);
      InorderMeaning(BusyWith(ignoreBitfield), useBitfield, blocks, startIndex, last, minSplitSize, blockLength, r);
      InorderOutsideIff(BusyWith(ignoreBitfield), useBitfield, blocks, startIndex, last, minSplitSize, blockLength, r);
    }

    /** The first block that is wanted, not there and not being fetched. */
    method GetFirstMissingUnusedIndex() returns (r: Option)
      requires Valid()
      ensures r.None? ==> forall i: nat :: i < blocks ==> !Eligible(Zeros(Size(blocks)), i)
      ensures r.Some? ==> r.value < blocks && Eligible(Zeros(Size(blocks)), r.value)
      ensures r.Some? ==> forall i: nat :: i < r.value ==> !Eligible(Zeros(Size(blocks)), i)
    {
      hide Test, Cached, And, Not;
      ZerosTest(Size(blocks));
      NotTest(bitfield);
      NotTest(useBitfield);
      AndTest(Not(bitfield), Not(useBitfield));
      if filterEnabled {
        AndTest(And(Not(bitfield), Not(useBitfield)), filterBitfield);
        r := GetFirstSetBitIndex(And(And(Not(bitfield), Not(useBitfield)), filterBitfield), blocks);
      } else {
        r := GetFirstSetBitIndex(And(Not(bitfield), Not(useBitfield)), blocks);
      }
    }
  }

  /** How the bytes held grow when a range that ends inside or at the beginning of block i goes on to its end. */
  lemma HeldOneMore(bits: seq<bv8>, m: int, offset: nat, i: nat)
    requires m > 0 && i < 8 * |bits| && offset <= (i + 1) * m
    ensures 0 <= i * m && (i + 1) * m == i * m + m
    ensures i * m <= offset ==>
      |Held(bits, m, offset, (i + 1) * m)| == if Test(bits, i) then (i + 1) * m - offset else 0
    ensures offset <= i * m ==>
      |Held(bits, m, offset, (i + 1) * m)| == |Held(bits, m, offset, i * m)| + if Test(bits, i) then m else 0
  {
    hide Test, Held;
    Steps(i, m);
    if i * m <= offset {
      HeldInBlock(bits, m, i, offset, (i + 1) * m);
    }
    if offset <= i * m {
      HeldInBlock(bits, m, i, i * m, (i + 1) * m);
      HeldSplit(bits, m, offset, i * m, (i + 1) * m);
    }
  }

  lemma HeldInLast(bits: seq<bv8>, m: int, offset: nat, i: nat, hi: nat)
    requires m > 0 && i < 8 * |bits| && offset <= i * m <= hi <= (i + 1) * m
    ensures |Held(bits, m, offset, hi)| == |Held(bits, m, offset, i * m)| + if Test(bits, i) then hi - i * m else 0
  {
    hide Test, Held;
    HeldInBlock(bits, m, i, i * m, hi);
    HeldSplit(bits, m, offset, i * m, hi);
  }

  lemma Steps(i: nat, m: int)
    requires m > 0
    ensures 0 <= i * m && (i + 1) * m == i * m + m
  {
  }

  /** Different blocks: the later one begins after the earlier one ends. */
  lemma Ordered(lo: nat, hi: nat, m: int)
    requires m > 0 && lo <= hi && lo / m != hi / m
    ensures 0 <= lo / m < hi / m
  {
    var p, q := lo / m, hi / m;
    InBlock(lo, m, p);
    InBlock(hi, m, q);
    if q < p {
      ProductsOrdered(q + 1, p, m);
    }
  }

  /** All bytes of a range are held exactly if the blocks from its first byte's to its last byte's are set. */
  lemma BlocksOfRange(bits: seq<bv8>, m: int, lo: nat, hi: nat)
    requires m > 0 && lo < hi && 0 <= (hi - 1) / m < 8 * |bits|
    ensures lo / m >= 0
    ensures (forall o: nat :: lo <= o < hi ==> ByteIn(bits, m, o))
      <==> forall k: nat :: lo / m <= k <= (hi - 1) / m ==> Test(bits, k)
  {
    hide Test;
    NotNegative(lo, m, 1);
    if forall o: nat :: lo <= o < hi ==> ByteIn(bits, m, o) {
      forall k: nat | lo / m <= k <= (hi - 1) / m ensures Test(bits, k) {
        var o := SomeByte(lo, hi, m, k);
        assert ByteIn(bits, m, o);
      }
    }
    if forall k: nat :: lo / m <= k <= (hi - 1) / m ==> Test(bits, k) {
      forall o: nat | lo <= o < hi ensures ByteIn(bits, m, o) {
        BlockBetween(lo, o, m);
        BlockBetween(o, hi - 1, m);
      }
    }
  }

  lemma BlockBetween(a: nat, b: nat, m: int)
    requires m > 0 && a <= b
    ensures 0 <= a / m <= b / m
  {
    NotNegative(a, m, 1);
    if a / m != b / m {
      Ordered(a, b, m);
    }
  }

  lemma SomeByte(lo: nat, hi: nat, m: int, k: nat) returns (o: nat)
    requires m > 0 && lo < hi && lo / m <= k <= (hi - 1) / m
    ensures lo <= o < hi && o / m == k
  {
    if k == lo / m {
      o := lo;
    } else {
      o := k * m;
      InBlock(lo, m, lo / m);
      InBlock(hi - 1, m, (hi - 1) / m);
      ProductsOrdered(lo / m + 1, k, m);
      ProductsOrdered(k, (hi - 1) / m, m);
      Steps(k, m);
      InBlock(o, m, k);
    }
  }

  // ----- the byte figures -----

  /** A range is complete exactly if the length reported for it is all there is of it. */
  lemma CompleteIffFullLength(bitfield: seq<bv8>, blockLength: int, totalLength: int, offset: nat, length: nat, r: bool)
    requires blockLength > 0 && length > 0 && totalLength > offset
    requires r
      <==> forall o: nat :: offset <= o < offset + length && o < totalLength ==> ByteIn(bitfield, blockLength, o)
    ensures var end := if totalLength < offset + length then totalLength else offset + length;
      r <==> |Held(bitfield, blockLength, offset, end)| == end - offset
  {
    hide ByteIn;
    HeldInFull(bitfield, blockLength, offset, if totalLength < offset + length then totalLength else offset + length);
  }

  /** Adjacent ranges add up, and the whole download counts what the cached completed length says. */
  lemma OffsetLengthsAddUp(bitfield: seq<bv8>, blocks: nat, blockLength: int, totalLength: int, offset: nat, l1: nat,
      l2: nat)
    requires blockLength > 0 && offset + l1 + l2 <= totalLength && Covers(blocks, blockLength, totalLength)
    ensures |Held(bitfield, blockLength, offset, offset + l1 + l2)|
         == |Held(bitfield, blockLength, offset, offset + l1)|
             + |Held(bitfield, blockLength, offset + l1, offset + l1 + l2)|
    ensures |Held(bitfield, blockLength, 0, totalLength)| == LengthIn(bitfield, blocks, blockLength, totalLength)
  {
    HeldSplit(bitfield, blockLength, offset, offset + l1, offset + l1 + l2);
  }

  lemma WantedBytes(peer: seq<bv8>, bitfield: seq<bv8>, filter: seq<bv8>)
    requires |peer| == |bitfield| == |filter|
    ensures |And(And(peer, Not(bitfield)), filter)| == |peer|
    ensures forall k :: 0 <= k < |peer| ==>
      And(And(peer, Not(bitfield)), filter)[k] == AndByte(AndByte(peer[k], NotByte(bitfield[k])), filter[k])
  {
  }

  lemma AndItself(x: bv8, y: bv8)
    ensures AndByte(AndByte(x, y), x) == AndByte(x, y)
  {
  }

  lemma AndBytes(a: seq<bv8>, b: seq<bv8>)
    requires |a| == |b|
    ensures forall k :: 0 <= k < |a| ==> And(a, b)[k] == AndByte(a[k], b[k])
  {
  }

  lemma WantedTest(peer: seq<bv8>, bitfield: seq<bv8>, filter: seq<bv8>)
    requires |peer| == |bitfield| == |filter|
    ensures forall i: nat :: i < 8 * |peer| ==>
      Test(And(And(peer, Not(bitfield)), filter), i) == (Test(peer, i) && !Test(bitfield, i) && Test(filter, i))
  {
    hide Test, And, Not;
    AndTest(peer, Not(bitfield));
    NotTest(bitfield);
    AndTest(And(peer, Not(bitfield)), filter);
  }

  predicate AllZero(a: seq<bv8>) {
    forall k :: 0 <= k < |a| ==> a[k] == 0
  }

  lemma NonZeroIffTest(a: seq<bv8>)
    ensures !AllZero(a) <==> exists i: nat :: i < 8 * |a| && Test(a, i)
  {
    hide Test;
    if i: nat :| i < 8 * |a| && Test(a, i) {
      ZeroByte(a, i / 8);
    }
    if forall i: nat :: i < 8 * |a| ==> !Test(a, i) {
      ZerosTest(|a|);
      SameVector(a, Zeros(|a|));
      assert forall k :: 0 <= k < |a| ==> Zeros(|a|)[k] == 0;
    }
  }

  lemma ZeroByte(a: seq<bv8>, q: nat)
    requires q < |a|
    ensures a[q] == 0 ==> forall i: nat :: i / 8 == q ==> !Test(a, i)
  {
  }

  lemma NotNegative(offset: nat, blockLength: int, length: int)
    requires length > 0
    ensures blockLength > 0 ==> 0 <= offset / blockLength && 0 <= (offset + length - 1) / blockLength
  {
  }

  lemma AndOnes(x: bv8)
    ensures AndByte(0xff, x) == x
  {
  }
}
