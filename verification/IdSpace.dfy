/** The 160-bit identifier space of the DHT: prefix blocks, their halves and the exclusive-or metric. */
module IdSpace {
  import opened Bytes

  const ID_LENGTH: nat := 20
  const ID_BITS: nat := 160

  type Id = s: seq<bv8> | |s| == ID_LENGTH
    witness [0, 0, 0, 0, 0, 0, 0, 0, 0, 0, 0, 0, 0, 0, 0, 0, 0, 0, 0, 0]

  function IdBits(id: Id): (r: seq<bool>)
    ensures |r| == ID_BITS
  {
    Bits(id)
  }

  /** DHTBucket::isInRange and DHTBucketTreeNode::isInRange: min <= id <= max byte-wise. */
  predicate InRange(id: Id, max: Id, min: Id)
  {
    !LexLess(id, min) && !LexLess(max, id)
  }

  /** id starts with the bits of prefix. */
  predicate HasPrefix(id: Id, prefix: seq<bool>)
  {
    |prefix| <= ID_BITS && IdBits(id)[..|prefix|] == prefix
  }

  /** min and max are the least and the greatest identifier that start with prefix. */
  ghost predicate Block(min: Id, max: Id, prefix: seq<bool>)
  {
    && HasPrefix(min, prefix)
    && HasPrefix(max, prefix)
    && (forall i :: |prefix| <= i < ID_BITS ==> !IdBits(min)[i] && IdBits(max)[i])
  }

  lemma PrefixBit(id: Id, prefix: seq<bool>, i: nat)
    requires HasPrefix(id, prefix) && i < |prefix|
    ensures IdBits(id)[i] == prefix[i]
  {
    assert IdBits(id)[i] == IdBits(id)[..|prefix|][i];
  }

  lemma BlockMembersInRange(id: Id, min: Id, max: Id, prefix: seq<bool>)
    requires Block(min, max, prefix) && HasPrefix(id, prefix)
    ensures InRange(id, max, min)
  {
    hide LexLess, Bits, HasPrefix;
    LexLessIrreflexive(id);
    if id != min {
      var k := LexLessBits(id, min);
      FirstDiffAt(IdBits(id), IdBits(min), k);
      if k < |prefix| { PrefixBit(id, prefix, k); PrefixBit(min, prefix, k); }
    }
    if id != max {
      var m := LexLessBits(max, id);
      FirstDiffAt(IdBits(max), IdBits(id), m);
      if m < |prefix| { PrefixBit(id, prefix, m); PrefixBit(max, prefix, m); }
    }
  }

  lemma RangeInBlock(id: Id, min: Id, max: Id, prefix: seq<bool>)
    requires Block(min, max, prefix) && InRange(id, max, min)
    ensures HasPrefix(id, prefix)
  {
    hide LexLess, Bits;
    if id != min && id != max {
      var k := LexLessBits(id, min);
      var m := LexLessBits(max, id);
      FirstDiffAt(IdBits(id), IdBits(min), k);
      FirstDiffAt(IdBits(max), IdBits(id), m);
      assert !IdBits(min)[k] && IdBits(id)[k] && IdBits(max)[m] && !IdBits(id)[m];
      forall i: nat | i < |prefix| ensures IdBits(id)[i] == prefix[i] {
        PrefixBit(min, prefix, i);
        PrefixBit(max, prefix, i);
        if k < |prefix| { PrefixBit(min, prefix, k); PrefixBit(max, prefix, k); }
        if m < |prefix| { PrefixBit(min, prefix, m); PrefixBit(max, prefix, m); }
      }
    }
  }

  /** A block's inclusive byte range holds exactly the identifiers with its prefix. */
  lemma RangeIsBlock(id: Id, min: Id, max: Id, prefix: seq<bool>)
    requires Block(min, max, prefix)
    ensures InRange(id, max, min) <==> HasPrefix(id, prefix)
  {
    hide *;
    if HasPrefix(id, prefix) {
      BlockMembersInRange(id, min, max, prefix);
    }
    if InRange(id, max, min) {
      RangeInBlock(id, min, max, prefix);
    }
  }

  /** Flipping bit p of max and of min cuts a block of p-bit prefix into its two halves. */
  lemma HalvesAreBlocks(min: Id, max: Id, prefix: seq<bool>)
    requires Block(min, max, prefix) && |prefix| < ID_BITS
    ensures Block(min, FlipBit(max, |prefix|), prefix + [false])
    ensures Block(FlipBit(min, |prefix|), max, prefix + [true])
  {
    hide LexLess, Bits, FlipBit;
    var p := |prefix|;
    FlipBitBits(max, p);
    FlipBitBits(min, p);
    PrefixExtends(min, prefix);
    PrefixExtends(max, prefix);
    PrefixExtends(FlipBit(max, p), prefix);
    PrefixExtends(FlipBit(min, p), prefix);
    assert IdBits(FlipBit(max, p))[..p] == prefix;
    assert IdBits(FlipBit(min, p))[..p] == prefix;
  }

  lemma PrefixExtends(id: Id, prefix: seq<bool>)
    requires |prefix| < ID_BITS
    ensures forall b :: HasPrefix(id, prefix + [b]) <==> HasPrefix(id, prefix) && IdBits(id)[|prefix|] == b
  {
    forall b: bool ensures HasPrefix(id, prefix + [b]) <==> HasPrefix(id, prefix) && IdBits(id)[|prefix|] == b {
      var p := |prefix|;
      assert IdBits(id)[..p + 1] == IdBits(id)[..p] + [IdBits(id)[p]];
    }
  }

  /** The number of leading bits two identifiers share is at least q. */
  predicate Agree(a: Id, b: Id, q: nat)
  {
    q <= ID_BITS && IdBits(a)[..q] == IdBits(b)[..q]
  }

  lemma AgreeBitwise(a: Id, b: Id, q: nat)
    requires q <= ID_BITS
    ensures Agree(a, b, q) <==> forall i :: 0 <= i < q ==> IdBits(a)[i] == IdBits(b)[i]
  {
    hide Bits;
    assert forall i :: 0 <= i < q ==> IdBits(a)[i] == IdBits(a)[..q][i] && IdBits(b)[i] == IdBits(b)[..q][i];
  }

  /** Sharing q leading bits with key makes a strictly closer to key than any b that does not. */
  lemma AgreeingIsCloser(key: Id, a: Id, b: Id, q: nat)
    requires Agree(key, a, q) && !Agree(key, b, q)
    ensures XorCloser(key, a, b) && !XorCloser(key, b, a)
  {
    hide LexLess, Bits, XorCloser;
    AgreeBitwise(key, b, q);
    var k := XorCloserBits(key, a, b);
    var m := XorCloserBits(key, b, a);
    FirstDiffAt(IdBits(a), IdBits(b), k);
    FirstDiffAt(IdBits(b), IdBits(a), m);
    assert k == m;
    assert forall i :: 0 <= i < q ==> IdBits(key)[i] == IdBits(key)[..q][i] == IdBits(a)[..q][i] == IdBits(a)[i];
  }

  // ----- sizes -----

  lemma {:induction false} NumBound(s: seq<bool>)
    ensures Num(s) < Pow2(|s|)
  {
    if s != [] {
      NumBound(s[..|s| - 1]);
    }
  }

  /** Between lo = c 0...0 and hi = c 1...1 with k trailing bits there are 2^k numbers, both ends counted. */
  lemma {:induction false} TailSize(lo: seq<bool>, hi: seq<bool>, p: nat)
    requires |lo| == |hi| && p <= |lo| && lo[..p] == hi[..p]
    requires forall i :: p <= i < |lo| ==> !lo[i] && hi[i]
    ensures Num(hi) - Num(lo) + 1 == Pow2(|lo| - p)
  {
    if |lo| == p {
      assert lo == lo[..p] && hi == hi[..p];
    } else {
      var n := |lo| - 1;
      assert lo[..n][..p] == lo[..p] && hi[..n][..p] == hi[..p];
      TailSize(lo[..n], hi[..n], p);
    }
  }

  /** A block with a p-bit prefix holds 2^(160-p) identifiers, numbered consecutively. */
  lemma BlockSize(min: Id, max: Id, prefix: seq<bool>)
    requires Block(min, max, prefix)
    ensures Num(IdBits(max)) - Num(IdBits(min)) + 1 == Pow2(ID_BITS - |prefix|)
  {
    hide Num, Pow2, Bits, HasPrefix;
    BlockBits(min, max, prefix);
    var lo, hi := IdBits(min), IdBits(max);
    TailSize(lo, hi, |prefix|);
  }

  lemma BlockBits(min: Id, max: Id, prefix: seq<bool>)
    requires Block(min, max, prefix)
    ensures |prefix| <= ID_BITS && IdBits(min)[..|prefix|] == IdBits(max)[..|prefix|]
    ensures forall i :: |prefix| <= i < ID_BITS ==> !IdBits(min)[i] && IdBits(max)[i]
  {
    hide Bits, IdBits;
  }

  /** c 0 1...1 is directly followed by c 1 0...0. */
  lemma {:induction false} Successor(a: seq<bool>, b: seq<bool>, p: nat)
    requires |a| == |b| && p < |a| && a[..p] == b[..p] && !a[p] && b[p]
    requires forall i :: p < i < |a| ==> a[i] && !b[i]
    ensures Num(a) + 1 == Num(b)
  {
    var n := |a| - 1;
    if n == p {
      assert a[..n] == b[..n];
    } else {
      assert a[..n][..p] == a[..p] && b[..n][..p] == b[..p];
      Successor(a[..n], b[..n], p);
    }
  }

  /** The two halves of a block lie side by side and together make up the block. */
  lemma HalvesMakeBlock(min0: Id, max0: Id, min1: Id, max1: Id, prefix: seq<bool>)
    requires |prefix| < ID_BITS
    requires Block(min0, max0, prefix + [false]) && Block(min1, max1, prefix + [true])
    ensures Num(IdBits(max0)) + 1 == Num(IdBits(min1))
    ensures Block(min0, max1, prefix)
  {
    hide Bits, Num;
    PrefixExtends(min0, prefix);
    PrefixExtends(max0, prefix);
    PrefixExtends(min1, prefix);
    PrefixExtends(max1, prefix);
    Successor(IdBits(max0), IdBits(min1), |prefix|);
  }
}
