/** Bytes, their bits in most-significant-first order, and the byte-wise comparisons of the source. */
module Bytes {

  /** 2 to the n. */
  function Pow2(n: nat): (r: nat)
    ensures r >= 1
  {
    if n == 0 then 1 else 2 * Pow2(n - 1)
  }

  /** The mask 128 >> k selecting bit k of a byte, bit 0 being the most significant one. */
  function Mask(k: nat): bv8
    requires k < 8
  {
    if k == 0 then 128 else if k == 1 then 64 else if k == 2 then 32 else if k == 3 then 16
    else if k == 4 then 8 else if k == 5 then 4 else if k == 6 then 2 else 1
  }

  predicate BitOf(b: bv8, k: nat)
    requires k < 8
  {
    if k == 0 then b & 128 != 0 else if k == 1 then b & 64 != 0 else if k == 2 then b & 32 != 0
    else if k == 3 then b & 16 != 0 else if k == 4 then b & 8 != 0 else if k == 5 then b & 4 != 0
    else if k == 6 then b & 2 != 0 else b & 1 != 0
  }

  /** Bit i of a byte array, as bitfield::test reads it. */
  predicate Test(bytes: seq<bv8>, i: nat)
    requires i < 8 * |bytes|
  {
    BitOf(bytes[i / 8], i % 8)
  }

  // Byte operations under a name, so that a proof can set their bit-level meaning aside.
  function Xor(x: bv8, y: bv8): bv8 { x ^ y }

  predicate Less(x: bv8, y: bv8) { x < y }

  /** bitfield::flipBit. */
  function FlipBit(bytes: seq<bv8>, i: nat): (r: seq<bv8>)
    requires i < 8 * |bytes|
    ensures |r| == |bytes|
  {
    bytes[i / 8 := Xor(bytes[i / 8], Mask(i % 8))]
  }

  /** std::lexicographical_compare over two byte ranges. */
  predicate LexLess(a: seq<bv8>, b: seq<bv8>)
  {
    b != [] && (a == [] || Less(a[0], b[0]) || (a[0] == b[0] && LexLess(a[1..], b[1..])))
  }


  /** XORCloser: compares the distances to key byte by byte; equal arguments compare as true. */
  predicate XorCloser(key: seq<bv8>, a: seq<bv8>, b: seq<bv8>)
    requires |key| == |a| == |b|
  {
    key == [] ||
    Less(Xor(key[0], a[0]), Xor(key[0], b[0])) ||
    (!Less(Xor(key[0], b[0]), Xor(key[0], a[0])) && XorCloser(key[1..], a[1..], b[1..]))
  }

  // ----- the same things over bit sequences -----

  function ByteBits(b: bv8): (r: seq<bool>)
    ensures |r| == 8
  {
    [BitOf(b, 0), BitOf(b, 1), BitOf(b, 2), BitOf(b, 3), BitOf(b, 4), BitOf(b, 5), BitOf(b, 6), BitOf(b, 7)]
  }

  function Bits(bytes: seq<bv8>): (r: seq<bool>)
    ensures |r| == 8 * |bytes|
  {
    if bytes == [] then [] else ByteBits(bytes[0]) + Bits(bytes[1..])
  }

  /** a and b first differ at bit i. */
  predicate FirstDiff(a: seq<bool>, b: seq<bool>, i: nat)
    requires |a| == |b|
  {
    i < |a| && a[..i] == b[..i] && a[i] != b[i]
  }

  lemma ByteBitsInjective(a: bv8, b: bv8)
    ensures ByteBits(a) == ByteBits(b) <==> a == b
  {
    if ByteBits(a) == ByteBits(b) {
      assert forall k :: 0 <= k < 8 ==> ByteBits(a)[k] == ByteBits(b)[k];
      assert ByteBits(a)[0] == ByteBits(b)[0] && ByteBits(a)[1] == ByteBits(b)[1] && ByteBits(a)[2] == ByteBits(b)[2]
          && ByteBits(a)[3] == ByteBits(b)[3] && ByteBits(a)[4] == ByteBits(b)[4] && ByteBits(a)[5] == ByteBits(b)[5]
          && ByteBits(a)[6] == ByteBits(b)[6] && ByteBits(a)[7] == ByteBits(b)[7];
      assert a & 128 == b & 128 && a & 64 == b & 64 && a & 32 == b & 32 && a & 16 == b & 16
          && a & 8 == b & 8 && a & 4 == b & 4 && a & 2 == b & 2 && a & 1 == b & 1;
      assert a == b;
    }
  }

  /** How the eight masked comparisons decide the order of two bytes. */
  lemma MaskedOrder(a: bv8, b: bv8)
    ensures a & 128 != b & 128 ==> (a < b <==> b & 128 != 0)
    ensures a & 128 == b & 128 && a & 64 != b & 64 ==> (a < b <==> b & 64 != 0)
    ensures a & 192 == b & 192 && a & 32 != b & 32 ==> (a < b <==> b & 32 != 0)
    ensures a & 224 == b & 224 && a & 16 != b & 16 ==> (a < b <==> b & 16 != 0)
    ensures a & 240 == b & 240 && a & 8 != b & 8 ==> (a < b <==> b & 8 != 0)
    ensures a & 248 == b & 248 && a & 4 != b & 4 ==> (a < b <==> b & 4 != 0)
    ensures a & 252 == b & 252 && a & 2 != b & 2 ==> (a < b <==> b & 2 != 0)
    ensures a & 254 == b & 254 && a & 1 != b & 1 ==> (a < b <==> b & 1 != 0)
  {
  }

  lemma MaskedEqual(a: bv8, b: bv8)
    ensures (a & 128 != 0) == (b & 128 != 0) ==> a & 128 == b & 128
    ensures a & 128 == b & 128 && (a & 64 != 0) == (b & 64 != 0) ==> a & 192 == b & 192 && a & 64 == b & 64
    ensures a & 192 == b & 192 && (a & 32 != 0) == (b & 32 != 0) ==> a & 224 == b & 224 && a & 32 == b & 32
    ensures a & 224 == b & 224 && (a & 16 != 0) == (b & 16 != 0) ==> a & 240 == b & 240 && a & 16 == b & 16
    ensures a & 240 == b & 240 && (a & 8 != 0) == (b & 8 != 0) ==> a & 248 == b & 248 && a & 8 == b & 8
    ensures a & 248 == b & 248 && (a & 4 != 0) == (b & 4 != 0) ==> a & 252 == b & 252 && a & 4 == b & 4
    ensures a & 252 == b & 252 && (a & 2 != 0) == (b & 2 != 0) ==> a & 254 == b & 254 && a & 2 == b & 2
    ensures a & 254 == b & 254 && (a & 1 != 0) == (b & 1 != 0) ==> a == b
  {
  }

  /** Two bytes that first differ at bit k compare as that bit says. */
  lemma OrderAt(a: bv8, b: bv8, k: nat)
    requires k < 8 && BitOf(a, k) != BitOf(b, k)
    requires forall j :: 0 <= j < k ==> BitOf(a, j) == BitOf(b, j)
    ensures Less(a, b) <==> BitOf(b, k)
  {
    MaskedOrder(a, b);
    MaskedEqual(a, b);
    assert 0 < k ==> BitOf(a, 0) == BitOf(b, 0);
    assert 1 < k ==> BitOf(a, 1) == BitOf(b, 1);
    assert 2 < k ==> BitOf(a, 2) == BitOf(b, 2);
    assert 3 < k ==> BitOf(a, 3) == BitOf(b, 3);
    assert 4 < k ==> BitOf(a, 4) == BitOf(b, 4);
    assert 5 < k ==> BitOf(a, 5) == BitOf(b, 5);
    assert 6 < k ==> BitOf(a, 6) == BitOf(b, 6);
  }

  lemma FindDiff(a: seq<bool>, b: seq<bool>) returns (k: nat)
    requires |a| == |b| && a != b
    ensures FirstDiff(a, b, k) && k < |a|
  {
    k := 0;
    while a[k] == b[k]
      invariant k < |a| && a[..k] == b[..k]
      decreases |a| - k
    {
      assert a[..k + 1] == a[..k] + [a[k]] && b[..k + 1] == b[..k] + [b[k]];
      assert a[..|a|] == a && b[..|b|] == b;
      k := k + 1;
    }
  }

  lemma ByteBitsAt(b: bv8, k: nat)
    requires k < 8
    ensures ByteBits(b)[k] == BitOf(b, k)
  {
    hide BitOf;
  }

  lemma FirstDiffAt(a: seq<bool>, b: seq<bool>, k: nat)
    requires |a| == |b| && FirstDiff(a, b, k)
    ensures k < |a| && a[k] != b[k]
    ensures forall j: nat | j < k :: a[j] == b[j]
  {
    assert forall j: nat | j < k :: a[j] == a[..k][j] && b[j] == b[..k][j];
  }

  lemma FirstDiffByte(a: bv8, b: bv8, k: nat)
    requires k < 8 && FirstDiff(ByteBits(a), ByteBits(b), k)
    ensures BitOf(a, k) != BitOf(b, k)
    ensures forall j: nat | j < k :: BitOf(a, j) == BitOf(b, j)
  {
    hide *;
    FirstDiffAt(ByteBits(a), ByteBits(b), k);
    forall j: nat | j <= k ensures BitOf(a, j) == ByteBits(a)[j] && BitOf(b, j) == ByteBits(b)[j] {
      ByteBitsAt(a, j);
      ByteBitsAt(b, j);
    }
  }

  /** Two different bytes compare as their first differing bit says. */
  lemma ByteFirstDiff(a: bv8, b: bv8) returns (k: nat)
    requires a != b
    ensures k < 8 && FirstDiff(ByteBits(a), ByteBits(b), k)
    ensures Less(a, b) <==> BitOf(b, k)
  {
    hide *;
    ByteBitsInjective(a, b);
    k := FindDiff(ByteBits(a), ByteBits(b));
    FirstDiffByte(a, b, k);
    OrderAt(a, b, k);
  }

  lemma XorInjective(x: bv8, a: bv8, b: bv8)
    ensures Xor(x, a) == Xor(x, b) <==> a == b
  {
  }

  lemma ByteXorBit(x: bv8, y: bv8, k: nat)
    requires k < 8
    ensures BitOf(Xor(x, y), k) == (BitOf(x, k) != BitOf(y, k))
  {
    if k < 2 {
    } else if k < 4 {
    } else if k < 6 {
    } else {
    }
  }

  lemma MaskBit(j: nat, k: nat)
    requires j < 8 && k < 8
    ensures BitOf(Mask(j), k) == (j == k)
  {
  }

  /** Bits lists exactly the bits that Test reads. */
  lemma {:induction false} BitsAreTests(bytes: seq<bv8>, i: nat)
    requires i < 8 * |bytes|
    ensures Bits(bytes)[i] == Test(bytes, i)
  {
    if i >= 8 {
      BitsAreTests(bytes[1..], i - 8);
      assert (i - 8) / 8 == i / 8 - 1 && (i - 8) % 8 == i % 8;
    }
  }

  lemma BitsInjective(a: seq<bv8>, b: seq<bv8>)
    requires |a| == |b| && Bits(a) == Bits(b)
    ensures a == b
  {
    if a != [] {
      assert Bits(a)[..8] == ByteBits(a[0]) && Bits(b)[..8] == ByteBits(b[0]);
      assert Bits(a)[8..] == Bits(a[1..]) && Bits(b)[8..] == Bits(b[1..]);
      ByteBitsInjective(a[0], b[0]);
      BitsInjective(a[1..], b[1..]);
    }
  }

  lemma FlipBitTest(bytes: seq<bv8>, i: nat, j: nat)
    requires i < 8 * |bytes| && j < 8 * |bytes|
    ensures Test(FlipBit(bytes, i), j) == (Test(bytes, j) != (i == j))
  {
    hide BitOf, Mask, Xor;
    if j / 8 == i / 8 {
      ByteXorBit(bytes[i / 8], Mask(i % 8), j % 8);
      MaskBit(i % 8, j % 8);
    }
  }

  /** Flipping bit i changes bit i and nothing else. */
  lemma FlipBitBits(bytes: seq<bv8>, i: nat)
    requires i < 8 * |bytes|
    ensures Bits(FlipBit(bytes, i)) == Bits(bytes)[i := !Bits(bytes)[i]]
  {
    hide *;
    forall j: nat | j < 8 * |bytes|
      ensures Bits(FlipBit(bytes, i))[j] == Bits(bytes)[i := !Bits(bytes)[i]][j]
    {
      BitsAreTests(FlipBit(bytes, i), j);
      BitsAreTests(bytes, j);
      FlipBitTest(bytes, i, j);
    }
  }

  lemma ShiftFirstDiff(x: seq<bool>, y: seq<bool>, a: seq<bool>, b: seq<bool>, k: nat)
    requires |x| == |y| && |a| == |b|
    ensures FirstDiff(x, y, k) ==> FirstDiff(x + a, y + b, k)
    ensures x == y && FirstDiff(a, b, k) ==> FirstDiff(x + a, y + b, |x| + k)
  {
    if FirstDiff(x, y, k) {
      assert (x + a)[..k] == x[..k] && (y + b)[..k] == y[..k];
    }
    if x == y && FirstDiff(a, b, k) {
      assert (x + a)[..|x| + k] == x + a[..k] && (y + b)[..|x| + k] == y + b[..k];
    }
  }

  /** Byte-wise lexicographic order is decided by the first differing bit, the larger side having it set. */
  lemma {:induction false} LexLessBits(a: seq<bv8>, b: seq<bv8>) returns (k: nat)
    requires |a| == |b| && a != b
    ensures FirstDiff(Bits(a), Bits(b), k)
    ensures LexLess(a, b) <==> Bits(b)[k]
  {
    hide BitOf, Less;
    ByteTotal(a[0], b[0]);
    if a[0] != b[0] {
      k := ByteFirstDiff(a[0], b[0]);
      ShiftFirstDiff(ByteBits(a[0]), ByteBits(b[0]), Bits(a[1..]), Bits(b[1..]), k);
    } else {
      var m := LexLessBits(a[1..], b[1..]);
      ShiftFirstDiff(ByteBits(a[0]), ByteBits(b[0]), Bits(a[1..]), Bits(b[1..]), m);
      k := 8 + m;
    }
  }

  lemma LexLessIrreflexive(a: seq<bv8>)
    ensures !LexLess(a, a)
  {
  }

  lemma ByteXorBits(x: bv8, y: bv8)
    ensures forall k: nat | k < 8 :: BitOf(Xor(x, y), k) == (BitOf(x, k) != BitOf(y, k))
  {
    hide *;
    forall k: nat | k < 8 ensures BitOf(Xor(x, y), k) == (BitOf(x, k) != BitOf(y, k)) {
      ByteXorBit(x, y, k);
    }
  }

  /** The byte case of the next lemma. */
  lemma ByteCloser(key: bv8, a: bv8, b: bv8) returns (k: nat)
    requires a != b
    ensures k < 8 && FirstDiff(ByteBits(a), ByteBits(b), k)
    ensures Xor(key, a) != Xor(key, b)
    ensures Less(Xor(key, a), Xor(key, b)) <==> BitOf(a, k) == BitOf(key, k)
  {
    hide *;
    XorInjective(key, a, b);
    k := ByteFirstDiff(a, b);
    FirstDiffByte(a, b, k);
    ByteXorBits(key, a);
    ByteXorBits(key, b);
    OrderAt(Xor(key, a), Xor(key, b), k);
  }

  lemma ByteTotal(x: bv8, y: bv8)
    ensures x != y ==> (Less(y, x) <==> !Less(x, y))
    ensures !Less(x, x)
  {
  }

  /** Of two different byte strings, the one that agrees with key at the first differing bit is strictly closer. */
  lemma {:induction false} XorCloserBits(key: seq<bv8>, a: seq<bv8>, b: seq<bv8>) returns (k: nat)
    requires |key| == |a| == |b| && a != b
    ensures FirstDiff(Bits(a), Bits(b), k)
    ensures XorCloser(key, a, b) <==> Bits(a)[k] == Bits(key)[k]
  {
    hide BitOf, Xor, Less;
    ByteTotal(Xor(key[0], a[0]), Xor(key[0], b[0]));
    if a[0] != b[0] {
      k := ByteCloser(key[0], a[0], b[0]);
      ShiftFirstDiff(ByteBits(a[0]), ByteBits(b[0]), Bits(a[1..]), Bits(b[1..]), k);
    } else {
      var m := XorCloserBits(key[1..], a[1..], b[1..]);
      ShiftFirstDiff(ByteBits(a[0]), ByteBits(b[0]), Bits(a[1..]), Bits(b[1..]), m);
      k := 8 + m;
    }
  }

  // ----- big-endian values -----

  /** The number a bit sequence denotes, most significant bit first. */
  function Num(s: seq<bool>): nat
  {
    if s == [] then 0 else 2 * Num(s[..|s| - 1]) + (if s[|s| - 1] then 1 else 0)
  }
}
