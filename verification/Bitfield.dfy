/** Packed bit vectors, bit 0 being the most significant bit of byte 0, and the byte-wise operations on them. */
module Bitfield {
  import opened Bytes

  // Byte operations under a name, as in module Bytes.
  function AndByte(x: bv8, y: bv8): bv8 { x & y }

  function OrByte(x: bv8, y: bv8): bv8 { x | y }

  function NotByte(x: bv8): bv8 { !x }

  lemma AndBit(x: bv8, y: bv8, k: nat)
    requires k < 8
    ensures BitOf(AndByte(x, y), k) <==> BitOf(x, k) && BitOf(y, k)
  {
    if k < 2 {
    } else if k < 4 {
    } else if k < 6 {
    } else {
    }
  }

  lemma OrBit(x: bv8, y: bv8, k: nat)
    requires k < 8
    ensures BitOf(OrByte(x, y), k) <==> BitOf(x, k) || BitOf(y, k)
  {
    if k < 2 {
    } else if k < 4 {
    } else if k < 6 {
    } else {
    }
  }

  lemma NotBit(x: bv8, k: nat)
    requires k < 8
    ensures BitOf(NotByte(x), k) <==> !BitOf(x, k)
  {
  }

  lemma ByteOps(x: bv8, y: bv8, k: nat)
    requires k < 8
    ensures BitOf(AndByte(x, y), k) <==> BitOf(x, k) && BitOf(y, k)
    ensures BitOf(OrByte(x, y), k) <==> BitOf(x, k) || BitOf(y, k)
    ensures BitOf(NotByte(x), k) <==> !BitOf(x, k)
  {
    hide *;
    AndBit(x, y, k);
    OrBit(x, y, k);
    NotBit(x, k);
  }

  /** Two bytes are the same if their bits are. */
  lemma SameBits(a: bv8, b: bv8)
    requires forall k: nat :: k < 8 ==> BitOf(a, k) == BitOf(b, k)
    ensures a == b
  {
    hide BitOf;
    assert ByteBits(a) == ByteBits(b);
    ByteBitsInjective(a, b);
  }

  // ----- vectors -----

  /** The number of bytes for n bits. */
  function Size(n: nat): nat {
    n / 8 + (if n % 8 != 0 then 1 else 0)
  }

  function And(a: seq<bv8>, b: seq<bv8>): (r: seq<bv8>)
    requires |a| == |b|
    ensures |r| == |a|
  {
    seq(|a|, k requires 0 <= k < |a| => AndByte(a[k], b[k]))
  }

  function Or(a: seq<bv8>, b: seq<bv8>): (r: seq<bv8>)
    requires |a| == |b|
    ensures |r| == |a|
  {
    seq(|a|, k requires 0 <= k < |a| => OrByte(a[k], b[k]))
  }

  function Not(a: seq<bv8>): (r: seq<bv8>)
    ensures |r| == |a|
  {
    seq(|a|, k requires 0 <= k < |a| => NotByte(a[k]))
  }

  function Zeros(n: nat): (r: seq<bv8>)
    ensures |r| == n
  {
    seq(n, k => 0)
  }

  lemma AndTest(a: seq<bv8>, b: seq<bv8>)
    requires |a| == |b|
    ensures forall i: nat :: i < 8 * |a| ==> Test(And(a, b), i) == (Test(a, i) && Test(b, i))
  {
    hide BitOf, AndByte;
    forall i: nat | i < 8 * |a| ensures Test(And(a, b), i) == (Test(a, i) && Test(b, i)) {
      ByteOps(a[i / 8], b[i / 8], i % 8);
    }
  }

  lemma OrTest(a: seq<bv8>, b: seq<bv8>)
    requires |a| == |b|
    ensures forall i: nat :: i < 8 * |a| ==> Test(Or(a, b), i) == (Test(a, i) || Test(b, i))
  {
    hide BitOf, OrByte;
    forall i: nat | i < 8 * |a| ensures Test(Or(a, b), i) == (Test(a, i) || Test(b, i)) {
      ByteOps(a[i / 8], b[i / 8], i % 8);
    }
  }

  lemma NotTest(a: seq<bv8>)
    ensures forall i: nat :: i < 8 * |a| ==> Test(Not(a), i) == !Test(a, i)
  {
    hide BitOf, NotByte;
    forall i: nat | i < 8 * |a| ensures Test(Not(a), i) == !Test(a, i) {
      ByteOps(a[i / 8], a[i / 8], i % 8);
    }
  }

  lemma ZerosTest(n: nat)
    ensures forall i: nat :: i < 8 * n ==> !Test(Zeros(n), i)
  {
    forall i: nat | i < 8 * n ensures !Test(Zeros(n), i) {
      assert Zeros(n)[i / 8] == 0;
    }
  }

  /** setBitInternal on a byte vector that has the index. */
  function Put(a: seq<bv8>, i: nat, on: bool): (r: seq<bv8>)
    requires i < 8 * |a|
    ensures |r| == |a|
  {
    a[i / 8 := if on then OrByte(a[i / 8], Mask(i % 8)) else AndByte(a[i / 8], NotByte(Mask(i % 8)))]
  }

  lemma PutTest(a: seq<bv8>, i: nat, on: bool)
    requires i < 8 * |a|
    ensures forall j: nat :: j < 8 * |a| ==> Test(Put(a, i, on), j) == if j == i then on else Test(a, j)
  {
    hide BitOf, Mask, AndByte, OrByte, NotByte;
    forall j: nat | j < 8 * |a| ensures Test(Put(a, i, on), j) == if j == i then on else Test(a, j) {
      if j / 8 == i / 8 {
        var x, m := a[i / 8], Mask(i % 8);
        MaskBit(i % 8, j % 8);
        ByteOps(x, m, j % 8);
        ByteOps(m, m, j % 8);
        ByteOps(x, NotByte(m), j % 8);
      }
    }
  }

  /** Vectors of one length with the same bits are the same. */
  lemma SameVector(a: seq<bv8>, b: seq<bv8>)
    requires |a| == |b| && forall i: nat :: i < 8 * |a| ==> Test(a, i) == Test(b, i)
    ensures a == b
  {
    hide BitOf;
    forall q | 0 <= q < |a| ensures a[q] == b[q] {
      forall k: nat | k < 8 ensures BitOf(a[q], k) == BitOf(b[q], k) {
        assert Test(a, 8 * q + k) == Test(b, 8 * q + k);
        assert (8 * q + k) / 8 == q && (8 * q + k) % 8 == k;
      }
      SameBits(a[q], b[q]);
    }
  }

  // ----- the bits beyond the end -----

  /** The bits beyond the n-th are zero. */
  predicate SpareZero(a: seq<bv8>, n: nat) {
    forall i: nat :: n <= i < 8 * |a| ==> !Test(a, i)
  }

  function LastByteMask(nbits: nat): bv8 {
    if nbits == 0 then 0
    else
      var s := nbits % 8;
      if s == 0 then 0xff else 0xff << (8 - s)
  }

  lemma LastByteMaskBit(nbits: nat, k: nat)
    requires k < 8
    ensures BitOf(LastByteMask(nbits), k) <==> nbits > 0 && (nbits % 8 == 0 || k < nbits % 8)
  {
    var s := nbits % 8;
    if s == 1 {} else if s == 2 {} else if s == 3 {} else if s == 4 {} else if s == 5 {} else if s == 6 {}
    else if s == 7 {}
  }

  /** n ones, spare bits zero. */
  function Full(n: nat): (r: seq<bv8>)
    ensures |r| == Size(n)
  {
    seq(Size(n), k => if k == Size(n) - 1 then LastByteMask(n) else 0xff)
  }

  lemma FullTest(n: nat)
    ensures forall i: nat :: i < 8 * Size(n) ==> Test(Full(n), i) == (i < n)
  {
    hide BitOf, LastByteMask;
    forall i: nat | i < 8 * Size(n) ensures Test(Full(n), i) == (i < n) {
      if i / 8 == Size(n) - 1 {
        LastByteMaskBit(n, i % 8);
      } else {
        AllOnes(i % 8);
      }
    }
  }

  lemma AllOnes(k: nat)
    requires k < 8
    ensures BitOf(0xff, k)
  {
  }

  /** testAllBitSet: all n bits are set and, since bytes are compared whole, no spare bit is. */
  method TestAllBitSet(a: seq<bv8>, length: nat, blocks: nat) returns (r: bool)
    requires |a| == length == Size(blocks)
    ensures r <==> (forall i: nat :: i < blocks ==> Test(a, i)) && SpareZero(a, blocks)
  {
    FullTest(blocks);
    AllSetIsFull(a, blocks);
    hide *;
    if length == 0 {
      assert a == Full(blocks);
      return true;
    }
    FullBytes(blocks);
    for i := 0 to length - 1
      invariant forall k :: 0 <= k < i ==> a[k] == 0xff
    {
      if a[i] != 0xff {
        return false;
      }
    }
    r := a[length - 1] == LastByteMask(blocks);
    assert r <==> a == Full(blocks) by {
      if r {
        assert forall k :: 0 <= k < |a| ==> a[k] == Full(blocks)[k];
      }
    }
  }

  lemma FullBytes(n: nat)
    requires Size(n) > 0
    ensures forall k :: 0 <= k < Size(n) - 1 ==> Full(n)[k] == 0xff
    ensures Full(n)[Size(n) - 1] == LastByteMask(n)
  {
  }

  lemma AllSetIsFull(a: seq<bv8>, n: nat)
    requires |a| == Size(n)
    ensures (forall i: nat :: i < n ==> Test(a, i)) && SpareZero(a, n) <==> a == Full(n)
  {
    hide BitOf, LastByteMask, Full;
    FullTest(n);
    if (forall i: nat :: i < n ==> Test(a, i)) && SpareZero(a, n) {
      SameVector(a, Full(n));
    }
  }

  // ----- counting -----

  /** The indexes of the bits set among the first n. */
  ghost function IndexSet(a: seq<bv8>, n: nat): set<nat>
    requires n <= 8 * |a|
  {
    set i: nat | i < n && Test(a, i)
  }

  function CountTo(a: seq<bv8>, n: nat): nat
    requires n <= 8 * |a|
  {
    if n == 0 then 0 else CountTo(a, n - 1) + (if Test(a, n - 1) then 1 else 0)
  }

  lemma {:induction false} CountIsCardinality(a: seq<bv8>, n: nat)
    requires n <= 8 * |a|
    ensures CountTo(a, n) == |IndexSet(a, n)|
  {
    hide Test;
    if n > 0 {
      CountIsCardinality(a, n - 1);
      assert IndexSet(a, n) == IndexSet(a, n - 1) + if Test(a, n - 1) then {n - 1} else {};
    }
  }

  lemma {:induction false} CountSame(a: seq<bv8>, b: seq<bv8>, n: nat)
    requires n <= 8 * |a| && n <= 8 * |b| && forall i: nat :: i < n ==> Test(a, i) == Test(b, i)
    ensures CountTo(a, n) == CountTo(b, n)
  {
    hide Test;
    if n > 0 {
      CountSame(a, b, n - 1);
    }
  }

  lemma {:induction false} CountBounds(a: seq<bv8>, n: nat, i: nat)
    requires i < n <= 8 * |a|
    ensures CountTo(a, n) <= n
    ensures Test(a, i) ==> CountTo(a, n) > 0
    ensures !Test(a, i) ==> CountTo(a, n) < n
  {
    hide Test;
    if n > 1 {
      CountBounds(a, n - 1, if i < n - 1 then i else 0);
    } else {
      assert CountTo(a, 0) == 0;
    }
  }

  /** The number of bits set among the first m of a byte. */
  function BitsOf(b: bv8, m: nat): nat
    requires m <= 8
  {
    if m == 0 then 0 else BitsOf(b, m - 1) + (if BitOf(b, m - 1) then 1 else 0)
  }

  /** cntbits, the table of the number of bits set in each byte. */
  function CntBits(b: bv8): nat {
    BitsOf(b, 8)
  }

  lemma {:induction false} CountByte(a: seq<bv8>, q: nat, m: nat)
    requires q < |a| && m <= 8
    ensures CountTo(a, 8 * q + m) == CountTo(a, 8 * q) + BitsOf(a[q], m)
  {
    hide BitOf;
    if m > 0 {
      CountByte(a, q, m - 1);
      assert (8 * q + m - 1) / 8 == q && (8 * q + m - 1) % 8 == m - 1;
    }
  }

  lemma {:induction false} MaskedCount(b: bv8, nbits: nat, m: nat)
    requires nbits > 0 && m <= 8
    ensures BitsOf(AndByte(b, LastByteMask(nbits)), m)
      == BitsOf(b, if nbits % 8 == 0 || m < nbits % 8 then m else nbits % 8)
  {
    hide BitOf, AndByte, LastByteMask;
    if m > 0 {
      MaskedCount(b, nbits, m - 1);
      LastByteMaskBit(nbits, m - 1);
      ByteOps(b, LastByteMask(nbits), m - 1);
    }
  }

  /** The masked last byte holds what is still missing to the count of n bits. */
  lemma CountLastByte(a: seq<bv8>, n: nat)
    requires n > 0 && |a| == Size(n)
    ensures CountTo(a, n) == CountTo(a, 8 * (Size(n) - 1)) + CntBits(AndByte(a[Size(n) - 1], LastByteMask(n)))
  {
    hide AndByte, LastByteMask, BitsOf, CountTo;
    MaskedCount(a[Size(n) - 1], n, 8);
    CountByte(a, Size(n) - 1, n - 8 * (Size(n) - 1));
  }

  /** Four bytes as memcpy puts them into a 32-bit word. */
  function Word(b0: bv8, b1: bv8, b2: bv8, b3: bv8): bv32 {
    (b0 as bv32) | ((b1 as bv32) << 8) | ((b2 as bv32) << 16) | ((b3 as bv32) << 24)
  }

  function CountBit32(n: bv32): nat {
    CntBits((n & 0xff) as bv8) + CntBits(((n >> 8) & 0xff) as bv8) + CntBits(((n >> 16) & 0xff) as bv8)
        + CntBits(((n >> 24) & 0xff) as bv8)
  }

  lemma CountWord(b0: bv8, b1: bv8, b2: bv8, b3: bv8)
    ensures CountBit32(Word(b0, b1, b2, b3)) == CntBits(b0) + CntBits(b1) + CntBits(b2) + CntBits(b3)
  {
    hide CntBits;
  }

  lemma CountSingle(b: bv8)
    ensures CountBit32(b as bv32) == CntBits(b)
  {
    CountWord(b, 0, 0, 0);
  }

  lemma CountWholeByte(a: seq<bv8>, q: nat)
    requires q < |a|
    ensures CountTo(a, 8 * (q + 1)) == CountTo(a, 8 * q) + CntBits(a[q])
  {
    hide CountTo, BitsOf;
    CountByte(a, q, 8);
  }

  lemma CountFourBytes(a: seq<bv8>, q: nat)
    requires q + 4 <= |a|
    ensures CountTo(a, 8 * (q + 4)) == CountTo(a, 8 * q) + CountBit32(Word(a[q], a[q + 1], a[q + 2], a[q + 3]))
  {
    hide *;
    CountWord(a[q], a[q + 1], a[q + 2], a[q + 3]);
    CountWholeByte(a, q);
    CountWholeByte(a, q + 1);
    CountWholeByte(a, q + 2);
    CountWholeByte(a, q + 3);
  }

  /** countSetBit: whole 32-bit words, then the bytes left over, the last byte masked. */
  method CountSetBit(bitfield: seq<bv8>, nbits: nat) returns (count: nat)
    requires |bitfield| == Size(nbits)
    ensures count == CountTo(bitfield, nbits)
  {
    hide CountTo, CountBit32, CntBits, LastByteMask, AndByte, Word;
    assert CountTo(bitfield, 0) == 0 by { CountNone(bitfield); }
    if nbits == 0 {
      return 0;
    }
    CountLastByte(bitfield, nbits);
    CountWholeByte(bitfield, Size(nbits) - 1);
    count := 0;
    var len := (nbits + 7) / 8;
    ghost var masked := 0;
    if nbits % 32 != 0 {
      len := len - 1;
      CountSingle(AndByte(bitfield[len], LastByteMask(nbits)));
      count := count + CountBit32(AndByte(bitfield[len], LastByteMask(nbits)) as bv32);
      masked := count;
    }
    for i := 0 to len / 4
      invariant count == masked + CountTo(bitfield, 8 * (4 * i))
    {
      CountFourBytes(bitfield, 4 * i);
      count := count + CountBit32(Word(bitfield[4 * i], bitfield[4 * i + 1], bitfield[4 * i + 2], bitfield[4 * i + 3]));
    }
    for i := len - len % 4 to len
      invariant count == masked + CountTo(bitfield, 8 * i)
    {
      CountWholeByte(bitfield, i);
      CountSingle(bitfield[i]);
      count := count + CountBit32(bitfield[i] as bv32);
    }
  }

  lemma CountNone(a: seq<bv8>)
    ensures CountTo(a, 0) == 0
  {
  }

  /** countSetBitSlow: byte by byte. */
  method CountSetBitSlow(bitfield: seq<bv8>, nbits: nat) returns (count: nat)
    requires |bitfield| == Size(nbits)
    ensures count == CountTo(bitfield, nbits)
  {
    hide CountTo, CntBits, LastByteMask, AndByte;
    CountNone(bitfield);
    if nbits == 0 {
      return 0;
    }
    count := 0;
    var to := (nbits + 7) / 8;
    if to > 1 {
      for i := 0 to to - 1
        invariant count == CountTo(bitfield, 8 * i)
      {
        CountWholeByte(bitfield, i);
        count := count + CntBits(bitfield[i]);
      }
    }
    CountLastByte(bitfield, nbits);
    count := count + CntBits(AndByte(bitfield[to - 1], LastByteMask(nbits)));
  }

  datatype Option = None | Some(value: nat)

  /** getFirstSetBitIndex. */
  method GetFirstSetBitIndex(bitfield: seq<bv8>, nbits: nat) returns (r: Option)
    requires |bitfield| == Size(nbits)
    ensures r.None? ==> forall i: nat :: i < nbits ==> !Test(bitfield, i)
    ensures r.Some? ==> r.value < nbits && Test(bitfield, r.value) && forall i: nat :: i < r.value ==>
      !Test(bitfield, i)
  {
    hide Test;
    for i := 0 to nbits
      invariant forall j: nat :: j < i ==> !Test(bitfield, j)
    {
      if Test(bitfield, i) {
        return Some(i);
      }
    }
    return None;
  }
}
