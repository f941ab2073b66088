/** What the routing tree guarantees: the buckets tile the identifier space, and how close findClosestKNodes gets. */
module RoutingTheorems {
  import opened Bytes
  import opened IdSpace
  import opened DhtBucket
  import opened RoutingView
  import opened Sequences

  // ----- the buckets in enumeration order tile the identifier space -----

  /** mins and maxs are the inclusive ranges of the buckets listed in cells. */
  ghost predicate RangesOf(mins: seq<Id>, maxs: seq<Id>, cells: seq<Cell>) {
    |mins| == |maxs| == |cells| && forall k :: 0 <= k < |cells| ==> Block(mins[k], maxs[k], cells[k].prefix)
  }

  ghost predicate Contiguous(mins: seq<Id>, maxs: seq<Id>) {
    |mins| == |maxs| && forall k :: 0 <= k < |mins| - 1 ==> Num(IdBits(maxs[k])) + 1 == Num(IdBits(mins[k + 1]))
  }

  /**
   * The buckets below level i, left to right, have consecutive ranges without gap or overlap; together
   * they make up exactly the block of the first i local bits, which is the range of the tree node there.
   */
  lemma {:induction false} BucketsTile(v: View, i: nat, mins: seq<Id>, maxs: seq<Id>)
    requires WellFormed(v) && i <= |v.sibs|
    requires RangesOf(mins, maxs, LeftToRight(v, i))
    ensures Contiguous(mins, maxs)
    ensures Block(mins[0], maxs[|maxs| - 1], IdBits(v.local)[..i])
    decreases |v.sibs| - i
  {
    hide Bits, Num, CellOk, Block, IdBits;
    if i < |v.sibs| {
      var c, n := IdBits(v.local)[..i], |mins|;
      assert IdBits(v.local)[..i + 1] == c + [IdBits(v.local)[i]];
      var cut := if IdBits(v.local)[i] then 1 else n - 1;
      var rest := LeftToRight(v, i + 1);
      if IdBits(v.local)[i] {
        assert LeftToRight(v, i)[1..] == rest;
        BucketsTile(v, i + 1, mins[1..], maxs[1..]);
      } else {
        assert LeftToRight(v, i)[..n - 1] == rest;
        BucketsTile(v, i + 1, mins[..n - 1], maxs[..n - 1]);
      }
      HalvesMakeBlock(mins[0], maxs[cut - 1], mins[cut], maxs[n - 1], c);
      ContiguousJoin(mins, maxs, cut);
    }
  }

  lemma ContiguousJoin(mins: seq<Id>, maxs: seq<Id>, cut: nat)
    requires |mins| == |maxs| && 0 < cut < |mins|
    requires Contiguous(mins[..cut], maxs[..cut]) && Contiguous(mins[cut..], maxs[cut..])
    requires Num(IdBits(maxs[cut - 1])) + 1 == Num(IdBits(mins[cut]))
    ensures Contiguous(mins, maxs)
  {
    hide Bits, Num;
    forall k | 0 <= k < |mins| - 1 ensures Num(IdBits(maxs[k])) + 1 == Num(IdBits(mins[k + 1])) {
      if k < cut - 1 {
        assert maxs[..cut][k] == maxs[k] && mins[..cut][k + 1] == mins[k + 1];
      } else if k >= cut {
        assert maxs[cut..][k - cut] == maxs[k] && mins[cut..][k - cut + 1] == mins[k + 1];
      }
    }
  }

  lemma LeftToRightCells(v: View, i: nat, c: Cell)
    requires |v.sibs| < ID_BITS && i <= |v.sibs|
    ensures c in LeftToRight(v, i) <==> c == v.own || exists j :: i <= j < |v.sibs| && c == v.sibs[j]
    decreases |v.sibs| - i
  {
    hide Bits;
    if i < |v.sibs| {
      LeftToRightCells(v, i + 1, c);
    }
  }

  /** k is the only position of cells whose prefix fits the key, and holds cell. */
  ghost predicate OnlyFitAt(cells: seq<Cell>, key: Id, cell: Cell, k: nat) {
    k < |cells| && cells[k] == cell && forall j :: 0 <= j < |cells| ==> (HasPrefix(key, cells[j].prefix) <==> j == k)
  }

  lemma OnlyFitBeside(cells: seq<Cell>, other: Cell, key: Id, cell: Cell, k: nat)
    requires OnlyFitAt(cells, key, cell, k) && !HasPrefix(key, other.prefix)
    ensures OnlyFitAt([other] + cells, key, cell, k + 1)
    ensures OnlyFitAt(cells + [other], key, cell, k)
  {
    hide HasPrefix;
  }

  lemma OnlyFitAlone(cells: seq<Cell>, key: Id, cell: Cell)
    requires HasPrefix(key, cell.prefix) && forall c :: c in cells ==> !HasPrefix(key, c.prefix)
    ensures OnlyFitAt([cell] + cells, key, cell, 0)
    ensures OnlyFitAt(cells + [cell], key, cell, |cells|)
  {
    hide HasPrefix;
  }

  /** Among the buckets below level i, only one carries a prefix of a key that is still on the path there. */
  lemma {:induction false} OnePrefixFits(v: View, key: Id, i: nat) returns (k: nat)
    requires WellFormed(v) && i <= Level(v, key, 0)
    ensures OnlyFitAt(LeftToRight(v, i), key, CellFor(v, key), k)
    decreases |v.sibs| - i
  {
    hide Bits, CellOk, HasPrefix;
    CellForIsUnique(v, key);
    if i == |v.sibs| {
      k := 0;
    } else if i == Level(v, key, 0) {
      k := if IdBits(v.local)[i] then 0 else |LeftToRight(v, i + 1)|;
      forall c | c in LeftToRight(v, i + 1) ensures !HasPrefix(key, c.prefix) {
        LeftToRightCells(v, i + 1, c);
      }
      OnlyFitAlone(LeftToRight(v, i + 1), key, v.sibs[i]);
    } else {
      k := OnePrefixFits(v, key, i + 1);
      OnlyFitBeside(LeftToRight(v, i + 1), v.sibs[i], key, CellFor(v, key), k);
      k := if IdBits(v.local)[i] then k + 1 else k;
    }
  }

  /** Every identifier lies in the range of exactly one bucket: the one the tree search finds. */
  lemma ExactlyOneBucket(v: View, key: Id, mins: seq<Id>, maxs: seq<Id>)
    requires WellFormed(v)
    requires RangesOf(mins, maxs, LeftToRight(v, 0))
    ensures exists k :: 0 <= k < |mins| && LeftToRight(v, 0)[k] == CellFor(v, key)
                        && forall j :: 0 <= j < |mins| ==> (InRange(key, maxs[j], mins[j]) <==> j == k)
  {
    hide Bits, CellOk, LeftToRight, CellFor, InRange, Block;
    var k := OnePrefixFits(v, key, 0);
    forall j | 0 <= j < |mins| ensures InRange(key, maxs[j], mins[j]) <==> j == k {
      RangeIsBlock(key, mins[j], maxs[j], LeftToRight(v, 0)[j].prefix);
    }
  }

  /** Bucket sizes: a bucket at depth p spans 2^(160-p) identifiers, and there are at most 160 buckets. */
  lemma BucketSizes(v: View, mins: seq<Id>, maxs: seq<Id>)
    requires WellFormed(v)
    requires RangesOf(mins, maxs, LeftToRight(v, 0))
    ensures |mins| <= 160
    ensures forall k :: 0 <= k < |mins| ==>
              Num(IdBits(maxs[k])) - Num(IdBits(mins[k])) + 1 == Pow2(ID_BITS - |LeftToRight(v, 0)[k].prefix|)
  {
    hide Bits, Num, CellOk;
    forall k | 0 <= k < |mins|
      ensures Num(IdBits(maxs[k])) - Num(IdBits(mins[k])) + 1 == Pow2(ID_BITS - |LeftToRight(v, 0)[k].prefix|)
    {
      BlockSize(mins[k], maxs[k], LeftToRight(v, 0)[k].prefix);
    }
  }

  // ----- what findClosestKNodes guarantees -----

  /** All nodes of the tree that are not bad, bucket by bucket. */
  function AllGood(v: View, bad: set<DHTNode>): seq<DHTNode>
    requires |v.sibs| < ID_BITS
  {
    GoodIn(LeftToRight(v, 0), bad)
  }

  lemma AllGoodMembers(v: View, bad: set<DHTNode>, n: DHTNode)
    requires |v.sibs| < ID_BITS
    ensures n in AllGood(v, bad) <==> Holds(v, n) && n !in bad
  {
    hide Bits, LeftToRight, GoodIn;
    var cells := LeftToRight(v, 0);
    GoodInMembers(cells, bad);
    LeftToRightCells(v, 0, v.own);
    if Holds(v, n) {
      if n in v.own.nodes {
        assert v.own in cells;
      } else {
        var i :| 0 <= i < |v.sibs| && n in v.sibs[i].nodes;
        LeftToRightCells(v, 0, v.sibs[i]);
        assert v.sibs[i] in cells;
      }
    }
    if i :| 0 <= i < |cells| && n in cells[i].nodes {
      LeftToRightCells(v, 0, cells[i]);
    }
  }

  lemma MirrorStep(c: seq<Cell>, there: seq<Cell>, back: seq<Cell>, bad: set<DHTNode>)
    requires multiset(GoodIn(there, bad)) == multiset(GoodIn(back, bad))
    ensures multiset(GoodIn(c + there, bad)) == multiset(GoodIn(back + c, bad))
    ensures multiset(GoodIn(there + c, bad)) == multiset(GoodIn(c + back, bad))
  {
    hide GoodIn;
    GoodInConcat(c, there, bad);
    GoodInConcat(there, c, bad);
    GoodInConcat(c, back, bad);
    GoodInConcat(back, c, bad);
  }

  lemma {:induction false} MirrorHoldsTheSame(v: View, i: nat, bad: set<DHTNode>)
    requires |v.sibs| < ID_BITS && i <= |v.sibs|
    ensures multiset(GoodIn(LeftToRight(v, i), bad)) == multiset(GoodIn(RightToLeft(v, i), bad))
    decreases |v.sibs| - i
  {
    hide Bits, IdBits, GoodIn;
    if i < |v.sibs| {
      MirrorHoldsTheSame(v, i + 1, bad);
      MirrorStep([v.sibs[i]], LeftToRight(v, i + 1), RightToLeft(v, i + 1), bad);
    }
  }

  lemma GoodInNothing(bad: set<DHTNode>)
    ensures GoodIn([], bad) == []
  {
  }

  lemma {:induction false} UpwardCompletes(v: View, i: nat, bad: set<DHTNode>)
    requires |v.sibs| < ID_BITS && i <= |v.sibs|
    ensures multiset(GoodIn(LeftToRight(v, i), bad)) + multiset(GoodIn(Upward(v, i), bad)) == multiset(AllGood(v, bad))
  {
    hide Bits, GoodIn;
    if i > 0 {
      UpwardCompletes(v, i - 1, bad);
      var c, inner, outer := [v.sibs[i - 1]], LeftToRight(v, i), Upward(v, i - 1);
      GoodInConcat(c, inner, bad);
      GoodInConcat(inner, c, bad);
      GoodInConcat(c, outer, bad);
    } else {
      assert GoodIn(Upward(v, 0), bad) == [] by { GoodInNothing(bad); }
    }
  }

  /** The search visits every good node of the tree exactly as often as enumerating all buckets does. */
  lemma SearchVisitsAll(v: View, d: nat, bad: set<DHTNode>)
    requires |v.sibs| < ID_BITS && d <= |v.sibs|
    ensures multiset(GoodIn(SearchOrder(v, d), bad)) == multiset(AllGood(v, bad))
  {
    hide Bits, Good;
    UpwardCompletes(v, d, bad);
    if d == |v.sibs| {
      GoodInConcat([v.own], Upward(v, d), bad);
    } else {
      MirrorHoldsTheSame(v, d + 1, bad);
      GoodInConcat([v.sibs[d]], LeftToRight(v, d + 1), bad);
      GoodInConcat(LeftToRight(v, d + 1), [v.sibs[d]], bad);
      var inner := if IdBits(v.local)[d] then LeftToRight(v, d + 1) else RightToLeft(v, d + 1);
      GoodInConcat([v.sibs[d]] + inner, Upward(v, d), bad);
      GoodInConcat([v.sibs[d]], inner, bad);
    }
  }

  ghost predicate AllAgree(cells: seq<Cell>, key: Id, q: nat) {
    forall c, n :: c in cells && n in c.nodes ==> Agree(key, n.id, q)
  }

  ghost predicate NoneAgrees(cells: seq<Cell>, key: Id, q: nat) {
    forall c, n :: c in cells && n in c.nodes ==> !Agree(key, n.id, q)
  }

  lemma UpwardAt(v: View, i: nat, k: nat)
    requires i <= |v.sibs| && k < i
    ensures Upward(v, i)[k] == v.sibs[i - 1 - k]
  {
    if k > 0 {
      UpwardAt(v, i - 1, k - 1);
    }
  }

  lemma RightToLeftCells(v: View, i: nat, c: Cell)
    requires |v.sibs| < ID_BITS && i <= |v.sibs|
    ensures c in RightToLeft(v, i) <==> c == v.own || exists j :: i <= j < |v.sibs| && c == v.sibs[j]
    decreases |v.sibs| - i
  {
    hide Bits;
    if i < |v.sibs| {
      RightToLeftCells(v, i + 1, c);
    }
  }

  lemma InnerCellsAgree(v: View, key: Id, c: Cell, q: nat)
    requires WellFormed(v) && Level(v, key, 0) < |v.sibs| && q <= Level(v, key, 0) + 1
    requires c == v.own || exists j :: Level(v, key, 0) < j < |v.sibs| && c == v.sibs[j]
    ensures forall n | n in c.nodes :: Agree(key, n.id, q) <==> q <= Level(v, key, 0)
  {
    hide Bits, CellOk, Agree;
    forall n | n in c.nodes ensures Agree(key, n.id, q) <==> q <= Level(v, key, 0) {
      if c == v.own {
        OwnAgreement(v, key, n, q);
      } else {
        var j :| Level(v, key, 0) < j < |v.sibs| && c == v.sibs[j];
        SibAgreement(v, key, n, j, q);
      }
    }
  }

  /** How many buckets of the search order lie in the subtree of the first q key bits. */
  function SubtreeSize(v: View, d: nat, q: nat): nat
    requires d <= |v.sibs| && q <= d + 1 && (d == |v.sibs| ==> q <= d)
  {
    if q == d + 1 then 1 else |v.sibs| + 1 - q
  }

  lemma VisitedCellAgrees(v: View, key: Id, q: nat, k: nat, n: DHTNode)
    requires WellFormed(v) && k <= |v.sibs|
    requires q <= Level(v, key, 0) + 1 && (Level(v, key, 0) == |v.sibs| ==> q <= |v.sibs|)
    requires n in SearchOrder(v, Level(v, key, 0))[k].nodes
    ensures Agree(key, n.id, q) <==> k < SubtreeSize(v, Level(v, key, 0), q)
  {
    hide Bits, CellOk, Agree, HasPrefix, Level, CellFor;
    var d := Level(v, key, 0);
    var order := SearchOrder(v, d);
    if k > |v.sibs| - d {
      UpwardAt(v, d, k - (|v.sibs| - d) - 1);
      SibAgreement(v, key, n, |v.sibs| - k, q);
    } else if d == |v.sibs| {
      OwnAgreement(v, key, n, q);
    } else if k == 0 {
      SibAgreement(v, key, n, d, q);
    } else {
      LeftToRightCells(v, d + 1, order[k]);
      RightToLeftCells(v, d + 1, order[k]);
      InnerCellsAgree(v, key, order[k], q);
    }
  }

  /** The search visits each subtree on the key's path completely before it leaves that subtree. */
  lemma SubtreesFirst(v: View, key: Id, q: nat)
    requires WellFormed(v) && q <= |CellFor(v, key).prefix|
    ensures q <= Level(v, key, 0) + 1 && (Level(v, key, 0) == |v.sibs| ==> q <= |v.sibs|)
    ensures AllAgree(SearchOrder(v, Level(v, key, 0))[..SubtreeSize(v, Level(v, key, 0), q)], key, q)
    ensures NoneAgrees(SearchOrder(v, Level(v, key, 0))[SubtreeSize(v, Level(v, key, 0), q)..], key, q)
  {
    hide Bits, CellOk, Agree, HasPrefix, SearchOrder, Level;
    var d := Level(v, key, 0);
    var order, m := SearchOrder(v, d), SubtreeSize(v, d, q);
    forall c, n | c in order[..m] && n in c.nodes ensures Agree(key, n.id, q) {
      var k :| 0 <= k < m && order[..m][k] == c;
      VisitedCellAgrees(v, key, q, k, n);
    }
    forall c, n | c in order[m..] && n in c.nodes ensures !Agree(key, n.id, q) {
      var k :| 0 <= k < |order| - m && order[m..][k] == c;
      VisitedCellAgrees(v, key, q, k + m, n);
    }
  }

  /** Once the result reaches outside a subtree on the key's path, it has all good nodes of that subtree. */
  lemma SubtreeBeforeRest(v: View, key: Id, bad: set<DHTNode>, q: nat, a: DHTNode, b: DHTNode)
    requires WellFormed(v) && q <= |CellFor(v, key).prefix|
    requires a in Closest(v, key, bad) && !Agree(key, a.id, q)
    requires Holds(v, b) && b !in bad && Agree(key, b.id, q)
    ensures b in Closest(v, key, bad)
  {
    hide Bits, CellOk, Agree, HasPrefix, GoodIn, LeftToRight, RightToLeft, Upward, CellFor;
    SubtreesFirst(v, key, q);
    var d := Level(v, key, 0);
    var order, m := SearchOrder(v, d), SubtreeSize(v, d, q);
    assert order == order[..m] + order[m..];
    GoodInConcat(order[..m], order[m..], bad);
    GoodInMembers(order[..m], bad);
    GoodInMembers(order[m..], bad);
    var inside, outside := GoodIn(order[..m], bad), GoodIn(order[m..], bad);
    assert a !in inside;
    AllGoodMembers(v, bad, b);
    SearchVisitsAll(v, d, bad);
    SameMembers(inside + outside, AllGood(v, bad));
    assert b in inside;
    var r := Closest(v, key, bad);
    assert r <= inside + outside;
    var k :| 0 <= k < |r| && r[k] == a;
    assert (inside + outside)[k] == a;
    assert k >= |inside|;
    var j :| 0 <= j < |inside| && inside[j] == b;
    assert r[j] == (inside + outside)[j] == b;
  }

  lemma CountsAgree(a: seq<DHTNode>, b: seq<DHTNode>)
    requires multiset(a) == multiset(b)
    ensures |a| == |b|
  {
    assert |multiset(a)| == |a| && |multiset(b)| == |b|;
  }

  /**
   * findClosestKNodes on an empty list: it returns min(K, number of good nodes) good nodes of the tree, and
   * for every subtree on the path from the key's bucket to the root (the identifiers sharing q bits with the
   * key) a node from outside is returned only together with all good nodes inside, each strictly closer.
   */
  lemma ClosestGuarantee(v: View, key: Id, bad: set<DHTNode>)
    requires WellFormed(v)
    ensures |Closest(v, key, bad)| == if |AllGood(v, bad)| <= K then |AllGood(v, bad)| else K
    ensures forall n :: n in Closest(v, key, bad) ==> Holds(v, n) && n !in bad
    ensures multiset(Closest(v, key, bad)) <= multiset(AllGood(v, bad))
    ensures forall q: nat, a, b ::
              q <= |CellFor(v, key).prefix| && a in Closest(v, key, bad) && !Agree(key, a.id, q) &&
              Holds(v, b) && b !in bad && Agree(key, b.id, q) ==>
                b in Closest(v, key, bad) && XorCloser(key, b.id, a.id) && !XorCloser(key, a.id, b.id)
  {
    hide Bits, CellOk, Agree, HasPrefix, GoodIn, LeftToRight, SearchOrder, CellFor, XorCloser, AllGood, Holds;
    var d := Level(v, key, 0);
    var all := GoodIn(SearchOrder(v, d), bad);
    var r := Closest(v, key, bad);
    SearchVisitsAll(v, d, bad);
    CountsAgree(all, AllGood(v, bad));
    assert all == r + all[|r|..];
    assert multiset(all) == multiset(r) + multiset(all[|r|..]);
    forall n | n in r ensures Holds(v, n) && n !in bad {
      SameMembers(all, AllGood(v, bad));
      AllGoodMembers(v, bad, n);
    }
    forall q: nat, a, b |
      q <= |CellFor(v, key).prefix| && a in r && !Agree(key, a.id, q) && Holds(v, b) && b !in bad && Agree(key, b.id, q)
      ensures b in r && XorCloser(key, b.id, a.id) && !XorCloser(key, a.id, b.id)
    {
      SubtreeBeforeRest(v, key, bad, q, a, b);
      AgreeingIsCloser(key, b.id, a.id, q);
    }
  }

  // ----- distinct results -----

  /** A node can only be in the bucket its identifier leads to. */
  lemma HeldWhereFound(v: View, n: DHTNode)
    requires WellFormed(v)
    ensures Holds(v, n) <==> n in CellFor(v, n.id).nodes
  {
    hide Bits, HasPrefix;
    CellForIsUnique(v, n.id);
  }

  /** Distinct identifiers, said without positions. */
  ghost predicate Simple(m: multiset<DHTNode>) {
    (forall n :: m[n] <= 1) && forall a, b :: a in m && b in m && a.id == b.id ==> a == b
  }

  lemma {:induction false} DistinctCountsOnce(nodes: seq<DHTNode>, n: DHTNode)
    requires DistinctIds(nodes)
    ensures multiset(nodes)[n] <= 1
  {
    if nodes != [] {
      var init, last := nodes[..|nodes| - 1], nodes[|nodes| - 1];
      assert nodes == init + [last];
      DistinctCountsOnce(init, n);
      assert last !in init;
    }
  }

  lemma DistinctIsSimple(nodes: seq<DHTNode>)
    requires DistinctIds(nodes)
    ensures Simple(multiset(nodes))
  {
    forall n ensures multiset(nodes)[n] <= 1 {
      DistinctCountsOnce(nodes, n);
    }
    forall a, b | a in multiset(nodes) && b in multiset(nodes) && a.id == b.id ensures a == b {
      assert a in nodes && b in nodes;
    }
  }

  lemma SimpleIsDistinct(nodes: seq<DHTNode>)
    requires Simple(multiset(nodes))
    ensures DistinctIds(nodes)
  {
    forall i, j | 0 <= i < j < |nodes| ensures nodes[i].id != nodes[j].id {
      assert nodes[i] in nodes && nodes[j] in nodes;
      assert nodes == nodes[..j] + nodes[j..];
      assert nodes[..j][i] in nodes[..j] && nodes[j..][0] in nodes[j..];
      assert multiset(nodes) == multiset(nodes[..j]) + multiset(nodes[j..]);
    }
  }

  lemma {:induction false} AllGoodDistinct(v: View, i: nat, bad: set<DHTNode>)
    requires WellFormed(v) && Distinct(v) && i <= |v.sibs|
    ensures DistinctIds(GoodIn(LeftToRight(v, i), bad))
    decreases |v.sibs| - i
  {
    hide Bits, HasPrefix, CellOk, Good;
    var cell := if i == |v.sibs| then v.own else v.sibs[i];
    GoodDistinct(cell.nodes, bad);
    assert GoodIn([cell], bad) == Good(cell.nodes, bad);
    if i < |v.sibs| {
      var rest := LeftToRight(v, i + 1);
      AllGoodDistinct(v, i + 1, bad);
      GoodInConcat([cell], rest, bad);
      GoodInConcat(rest, [cell], bad);
      forall a, b | a in Good(cell.nodes, bad) && b in GoodIn(rest, bad) ensures a.id != b.id {
        OtherBuckets(v, i, a, b, bad);
      }
      DistinctConcat(Good(cell.nodes, bad), GoodIn(rest, bad));
      DistinctConcat(GoodIn(rest, bad), Good(cell.nodes, bad));
    }
  }

  lemma DistinctConcat(x: seq<DHTNode>, y: seq<DHTNode>)
    requires DistinctIds(x) && DistinctIds(y)
    requires forall a, b :: a in x && b in y ==> a.id != b.id
    ensures DistinctIds(x + y)
  {
  }

  lemma OtherBuckets(v: View, i: nat, a: DHTNode, b: DHTNode, bad: set<DHTNode>)
    requires WellFormed(v) && i < |v.sibs|
    requires a in Good(v.sibs[i].nodes, bad) && b in GoodIn(LeftToRight(v, i + 1), bad)
    ensures a.id != b.id
  {
    hide Bits, HasPrefix, LeftToRight, GoodIn, Good, Level;
    var rest := LeftToRight(v, i + 1);
    GoodMembers(v.sibs[i].nodes, bad);
    GoodInMembers(rest, bad);
    var j :| 0 <= j < |rest| && b in rest[j].nodes;
    LeftToRightCells(v, i + 1, rest[j]);
    CellForIsUnique(v, a.id);
    CellForIsUnique(v, b.id);
  }

  /** With distinct identifiers in each bucket, findClosestKNodes returns distinct nodes. */
  lemma ClosestDistinct(v: View, key: Id, bad: set<DHTNode>)
    requires WellFormed(v) && Distinct(v)
    ensures DistinctIds(Closest(v, key, bad))
  {
    hide Bits, Level, LeftToRight, GoodIn, SearchOrder, CellOk, DistinctIds, Closest;
    ClosestGuarantee(v, key, bad);
    AllGoodDistinct(v, 0, bad);
    DistinctIsSimple(AllGood(v, bad));
    SimpleIsDistinct(Closest(v, key, bad));
  }

  // ----- what splitting and adding do to the view -----

  ghost predicate HoldsId(v: View, id: Id) {
    HasId(v.own.nodes, id) || exists i :: 0 <= i < |v.sibs| && HasId(v.sibs[i].nodes, id)
  }

  /** nodes hold what the half of list with this prefix holds. */
  ghost predicate HalfOf(c: Cell, list: seq<DHTNode>, prefix: seq<bool>) {
    c.prefix == prefix && CellOk(c) && Sieved(c.nodes, WithPrefix(list, prefix))
  }

  /** The local bucket is cut in two: the half away from the local identifier becomes the last sibling. */
  ghost predicate SplitStep(v: View, w: View) {
    var n := |v.sibs|;
    && n < ID_BITS - 1
    && w.local == v.local && |w.sibs| == n + 1 && w.sibs[..n] == v.sibs
    && HalfOf(w.own, v.own.nodes, IdBits(v.local)[..n + 1])
    && HalfOf(w.sibs[n], v.own.nodes, SibPrefix(v.local, n))
  }

  /** node is added to the bucket its identifier leads to. */
  ghost predicate AddStep(v: View, w: View, node: DHTNode, bad: set<DHTNode>, ok: bool)
    requires WellFormed(v)
  {
    var d := Level(v, node.id, 0);
    && w.local == v.local && |w.sibs| == |v.sibs|
    && (forall i :: 0 <= i < |v.sibs| && i != d ==> w.sibs[i] == v.sibs[i])
    && (d < |v.sibs| ==> w.own == v.own)
    && CellFor(w, node.id).prefix == CellFor(v, node.id).prefix
    && AddOutcome(CellFor(v, node.id).nodes, CellFor(w, node.id).nodes, node, bad, ok)
  }

  /**
   * A bucket after addNode: identifiers stay distinct, only node enters, and only its namesake or a bad node leaves.
   */
  lemma AddOutcomeMeaning(was: seq<DHTNode>, now: seq<DHTNode>, node: DHTNode, bad: set<DHTNode>, ok: bool)
    requires AddOutcome(was, now, node, bad, ok)
    ensures ok ==> node in now
    ensures forall n :: n in now ==> n in was || n == node
    ensures DistinctIds(was) ==> DistinctIds(now)
    ensures DistinctIds(was) ==> forall n :: n in was && n !in now && n.id != node.id ==>
      n in bad && n == was[0] && !HasId(was, node.id) && |was| >= K
    ensures !ok ==> now == was && |was| >= K && was[0] !in bad && !HasId(was, node.id)
    ensures |now| <= K || |now| <= |was|
  {
    if HasId(was, node.id) {
      var i :| 0 <= i < |was| && was[i].id == node.id && (forall j :: 0 <= j < i ==> was[j].id != node.id)
          && AddedAt(was, now, node, i);
      AddedAtMembers(was, now, node, i);
    } else if |was| < K {
    } else if was[0] in bad {
      assert was[..0] + was[1..] == was[1..];
      AddedAtMembers(was, now, node, 0);
    }
  }

  lemma AddedAtMembers(was: seq<DHTNode>, now: seq<DHTNode>, node: DHTNode, i: nat)
    requires i < |was| && AddedAt(was, now, node, i)
    ensures |now| == |was| && node in now
    ensures forall n :: n in now ==> n in was || n == node
    ensures forall n :: n in was ==> n in now || n == was[i]
    ensures DistinctIds(was) && (node.id == was[i].id || !HasId(was, node.id)) ==> DistinctIds(now)
  {
    var rest := was[..i] + was[i + 1..];
    assert forall j :: 0 <= j < |rest| ==> rest[j] == if j < i then was[j] else was[j + 1];
    assert forall j :: 0 <= j < |was| && j != i ==> was[j] == rest[if j < i then j else j - 1];
    assert now[|rest|] == node;
    if DistinctIds(was) && (node.id == was[i].id || !HasId(was, node.id)) {
      forall j | 0 <= j < |rest| ensures rest[j].id != node.id {
        assert rest[j] in was;
      }
    }
  }

  lemma SievedMembers(nodes: seq<DHTNode>, list: seq<DHTNode>)
    requires Sieved(nodes, list) && DistinctIds(list)
    ensures nodes == list
  {
  }

  /**
   * Splitting keeps every identifier, and every node when identifiers are distinct, each in the one half it belongs
   * to.
   */
  lemma SplitConserves(v: View, w: View)
    requires WellFormed(v) && SplitStep(v, w)
    ensures WellFormed(w)
    ensures forall id :: HoldsId(v, id) <==> HoldsId(w, id)
    ensures Distinct(v) ==> Distinct(w) && forall n :: Holds(v, n) <==> Holds(w, n)
  {
    hide Bits, HasPrefix, Sieved;
    var n := |v.sibs|;
    var c := IdBits(v.local)[..n];
    var own, sib := w.own.prefix, w.sibs[n].prefix;
    assert own == c + [IdBits(v.local)[n]] && sib == c + [!IdBits(v.local)[n]];
    assert forall i :: 0 <= i < n ==> w.sibs[i] == w.sibs[..n][i];
    WithPrefixMembers(v.own.nodes, own);
    WithPrefixMembers(v.own.nodes, sib);
    forall m | m in v.own.nodes ensures m in WithPrefix(v.own.nodes, own) || m in WithPrefix(v.own.nodes, sib) {
      PrefixExtends(m.id, c);
    }
    forall id ensures HasId(v.own.nodes, id) <==> HasId(w.own.nodes, id) || HasId(w.sibs[n].nodes, id) {
      SievedIds(w.own.nodes, WithPrefix(v.own.nodes, own), id);
      SievedIds(w.sibs[n].nodes, WithPrefix(v.own.nodes, sib), id);
    }
    if Distinct(v) {
      SplitKeepsDistinct(v, w);
    }
  }

  lemma SplitKeepsDistinct(v: View, w: View)
    requires WellFormed(v) && SplitStep(v, w) && Distinct(v)
    ensures Distinct(w) && forall n :: Holds(v, n) <==> Holds(w, n)
  {
    hide Bits, HasPrefix, Sieved, DistinctIds;
    var n := |v.sibs|;
    var c := IdBits(v.local)[..n];
    var own, sib := w.own.prefix, w.sibs[n].prefix;
    assert own == c + [IdBits(v.local)[n]] && sib == c + [!IdBits(v.local)[n]];
    assert forall i :: 0 <= i < n ==> w.sibs[i] == w.sibs[..n][i];
    WithPrefixDistinct(v.own.nodes, own);
    WithPrefixDistinct(v.own.nodes, sib);
    SievedMembers(w.own.nodes, WithPrefix(v.own.nodes, own));
    SievedMembers(w.sibs[n].nodes, WithPrefix(v.own.nodes, sib));
    WithPrefixMembers(v.own.nodes, own);
    WithPrefixMembers(v.own.nodes, sib);
    forall m | m in v.own.nodes ensures m in w.own.nodes || m in w.sibs[n].nodes {
      PrefixExtends(m.id, c);
    }
    forall m ensures Holds(v, m) <==> Holds(w, m) {
      if i :| 0 <= i < n && m in v.sibs[i].nodes {
        assert m in w.sibs[i].nodes;
      }
    }
  }

  lemma SievedIds(nodes: seq<DHTNode>, list: seq<DHTNode>, id: Id)
    requires Sieved(nodes, list)
    ensures HasId(nodes, id) <==> HasId(list, id)
  {
  }

  /** n left although its identifier is not node's. */
  ghost predicate GivesWay(v: View, w: View, node: DHTNode, n: DHTNode) {
    Holds(v, n) && !Holds(w, n) && n.id != node.id
  }

  /** Apart from namesakes of node at most one node left; it was bad, and node's identifier was not there before. */
  ghost predicate GivesWayOnly(v: View, w: View, node: DHTNode, bad: set<DHTNode>) {
    && (forall n :: GivesWay(v, w, node, n) ==> n in bad && forall m :: Holds(v, m) ==> m.id != node.id)
    && (forall n, m :: GivesWay(v, w, node, n) && GivesWay(v, w, node, m) ==> n == m)
  }

  lemma LostFromItsBucket(v: View, w: View, node: DHTNode, bad: set<DHTNode>, ok: bool, n: DHTNode)
    requires WellFormed(v) && AddStep(v, w, node, bad, ok) && GivesWay(v, w, node, n)
    ensures n in CellFor(v, node.id).nodes && n !in CellFor(w, node.id).nodes
  {
    hide Bits, HasPrefix, AddOutcome;
    var d := Level(v, node.id, 0);
    SameLevel(v, w, node.id, 0);
    assert forall i :: 0 <= i < |v.sibs| && i != d && n in v.sibs[i].nodes ==> w.sibs[i] == v.sibs[i];
  }

  /** Adding at table level: only node enters, only a namesake or one bad node leaves, and refusal changes nothing. */
  lemma AddConserves(v: View, w: View, node: DHTNode, bad: set<DHTNode>, ok: bool)
    requires WellFormed(v) && AddStep(v, w, node, bad, ok)
    ensures WellFormed(w)
    ensures ok ==> Holds(w, node)
    ensures !ok ==> w == v
    ensures forall n :: Holds(w, n) ==> Holds(v, n) || n == node
    ensures Distinct(v) ==> Distinct(w) && GivesWayOnly(v, w, node, bad)
  {
    hide Bits, HasPrefix, AddOutcome, DistinctIds;
    var d := Level(v, node.id, 0);
    CellForIsUnique(v, node.id);
    SameLevel(v, w, node.id, 0);
    var was, now := CellFor(v, node.id).nodes, CellFor(w, node.id).nodes;
    AddOutcomeMeaning(was, now, node, bad, ok);
    if !ok {
      assert w.sibs == v.sibs;
    }
    forall n | Holds(w, n) ensures Holds(v, n) || n == node {
      if i :| 0 <= i < |w.sibs| && n in w.sibs[i].nodes {
        assert i != d ==> n in v.sibs[i].nodes;
        assert i == d ==> n in now;
      }
    }
    if Distinct(v) {
      forall n | GivesWay(v, w, node, n) ensures n in was && n !in now {
        LostFromItsBucket(v, w, node, bad, ok, n);
      }
      forall m | Holds(v, m) && !HasId(was, node.id) ensures m.id != node.id {
        HeldWhereFound(v, m);
      }
    }
  }

  lemma SameLevel(v: View, w: View, key: Id, i: nat)
    requires |v.sibs| == |w.sibs| < ID_BITS && v.local == w.local && i <= |v.sibs|
    ensures Level(v, key, i) == Level(w, key, i)
    decreases |v.sibs| - i
  {
    hide Bits;
  }

  // ----- and what it does not guarantee -----

  /** The identifier with the given first byte and zeros after it. */
  function IdStarting(x: bv8): (r: Id)
    ensures r[0] == x
  {
    [x, 0, 0, 0, 0, 0, 0, 0, 0, 0, 0, 0, 0, 0, 0, 0, 0, 0, 0, 0]
  }

  lemma FirstBitPrefix(x: bv8)
    ensures HasPrefix(IdStarting(x), [BitOf(x, 0)])
  {
    hide BitOf, Bits;
    BitsAreTests(IdStarting(x), 0);
    assert IdBits(IdStarting(x))[..1] == [IdBits(IdStarting(x))[0]];
  }

  function NodesStarting(xs: seq<bv8>): (r: seq<DHTNode>)
    ensures |r| == |xs| && forall i :: 0 <= i < |r| ==> r[i] == DHTNode(IdStarting(xs[i]), 0)
  {
    if xs == [] then [] else NodesStarting(xs[..|xs| - 1]) + [DHTNode(IdStarting(xs[|xs| - 1]), 0)]
  }

  lemma StartingDistinct(xs: seq<bv8>, b: bool)
    requires forall i, j :: 0 <= i < j < |xs| ==> xs[i] != xs[j]
    requires forall x :: x in xs ==> BitOf(x, 0) == b
    ensures DistinctIds(NodesStarting(xs))
    ensures forall n :: n in NodesStarting(xs) ==> HasPrefix(n.id, [b])
  {
    hide BitOf, Bits, HasPrefix, IdStarting, NodesStarting;
    var nodes := NodesStarting(xs);
    forall i, j | 0 <= i < j < |xs| ensures nodes[i].id != nodes[j].id {
      assert nodes[i].id[0] == xs[i] && nodes[j].id[0] == xs[j];
    }
    forall n | n in nodes ensures HasPrefix(n.id, [b]) {
      var i :| 0 <= i < |nodes| && nodes[i] == n;
      FirstBitPrefix(xs[i]);
      assert xs[i] in xs;
    }
  }

  const FAR: seq<bv8> := [129, 130, 131, 132, 133, 134, 135, 128]

  lemma FarBytes()
    ensures forall i, j :: 0 <= i < j < |FAR| ==> FAR[i] != FAR[j]
    ensures forall x :: x in FAR ==> BitOf(x, 0) == true
    ensures !BitOf(0, 0) && !BitOf(1, 0)
  {
  }

  lemma AllAreGood(nodes: seq<DHTNode>)
    ensures Good(nodes, {}) == nodes
  {
    if nodes != [] {
      AllAreGood(nodes[..|nodes| - 1]);
    }
  }

  /** x is strictly closer to key than y. */
  predicate StrictlyCloser(key: Id, x: Id, y: Id) {
    XorCloser(key, x, y) && !XorCloser(key, y, x)
  }

  /** b is a good node of the tree, left out although a is returned. */
  ghost predicate LeavesOut(v: View, key: Id, bad: set<DHTNode>, a: DHTNode, b: DHTNode)
    requires WellFormed(v)
  {
    a in Closest(v, key, bad) && Holds(v, b) && b !in bad && b !in Closest(v, key, bad)
  }

  /** a and b share the same leading bits with key, as far as the prefix of key's bucket goes. */
  ghost predicate SameGroup(v: View, key: Id, a: Id, b: Id)
    requires WellFormed(v)
  {
    forall q: nat :: q <= |CellFor(v, key).prefix| ==> (Agree(key, a, q) <==> Agree(key, b, q))
  }

  /** A strictly closer node is left out only from the group that the cut goes through. */
  lemma MissedOnlyInGroup(v: View, key: Id, bad: set<DHTNode>, a: DHTNode, b: DHTNode)
    requires WellFormed(v) && LeavesOut(v, key, bad, a, b) && StrictlyCloser(key, b.id, a.id)
    ensures SameGroup(v, key, a.id, b.id)
  {
    hide Agree, Closest, CellFor, XorCloser, Holds, CellOk;
    ClosestGuarantee(v, key, bad);
    forall q: nat | q <= |CellFor(v, key).prefix| ensures Agree(key, a.id, q) <==> Agree(key, b.id, q) {
      if Agree(key, a.id, q) && !Agree(key, b.id, q) {
        AgreeingIsCloser(key, a.id, b.id, q);
      }
    }
  }

  /** The good nodes of the tree in the order in which a search for key visits them. */
  function Visited(v: View, key: Id, bad: set<DHTNode>): seq<DHTNode>
    requires |v.sibs| < ID_BITS
  {
    GoodIn(SearchOrder(v, Level(v, key, 0)), bad)
  }

  lemma VisitedMembers(v: View, key: Id, bad: set<DHTNode>, n: DHTNode)
    requires WellFormed(v)
    ensures n in Visited(v, key, bad) <==> Holds(v, n) && n !in bad
  {
    hide Holds, CellOk, AllGood, GoodIn, SearchOrder, Level;
    SearchVisitsAll(v, Level(v, key, 0), bad);
    SameMembers(Visited(v, key, bad), AllGood(v, bad));
    AllGoodMembers(v, bad, n);
  }

  /** No good node that is left out is strictly closer than one that is returned. */
  ghost predicate ReturnsClosest(v: View, key: Id, bad: set<DHTNode>)
    requires WellFormed(v)
  {
    forall a, b :: LeavesOut(v, key, bad, a, b) ==> !StrictlyCloser(key, b.id, a.id)
  }

  /** Of the group that the cut at K goes through, nobody visited after the cut is closer than one visited before it. */
  ghost predicate CutIsSorted(v: View, key: Id, bad: set<DHTNode>)
    requires WellFormed(v)
  {
    var all := Visited(v, key, bad);
    forall i, j :: 0 <= i < K <= j < |all| && all[j] !in all[..K] && SameGroup(v, key, all[i].id, all[j].id) ==>
      !StrictlyCloser(key, all[j].id, all[i].id)
  }

  lemma LeftOutIsBehind(v: View, key: Id, bad: set<DHTNode>, a: DHTNode, b: DHTNode)
    requires WellFormed(v) && LeavesOut(v, key, bad, a, b)
    ensures var all := Visited(v, key, bad);
      |all| > K && b !in all[..K] && exists i, j :: 0 <= i < K <= j < |all| && all[i] == a && all[j] == b
  {
    hide Bits, CellOk, Holds, GoodIn, SearchOrder, Level;
    var all := Visited(v, key, bad);
    VisitedMembers(v, key, bad, b);
    assert |all| > K;
    var i :| 0 <= i < K && all[..K][i] == a;
    var j :| 0 <= j < |all| && all[j] == b;
  }

  lemma BehindIsLeftOut(v: View, key: Id, bad: set<DHTNode>, i: nat, j: nat)
    requires WellFormed(v) && i < K <= j < |Visited(v, key, bad)|
    requires Visited(v, key, bad)[j] !in Visited(v, key, bad)[..K]
    ensures LeavesOut(v, key, bad, Visited(v, key, bad)[i], Visited(v, key, bad)[j])
  {
    hide Bits, CellOk, Holds, GoodIn, SearchOrder, Level;
    var all := Visited(v, key, bad);
    assert all[..K][i] == all[i];
    VisitedMembers(v, key, bad, all[j]);
  }

  /**
   * Exactly when the result is the closest nodes, in terms of the tree before the call: only the order in which the
   * one group that is cut is visited matters, those who share equally many leading bits with key.
   */
  lemma ClosestExactlyIf(v: View, key: Id, bad: set<DHTNode>)
    requires WellFormed(v)
    ensures ReturnsClosest(v, key, bad) <==> CutIsSorted(v, key, bad)
  {
    hide Bits, CellOk, Holds, Visited, Closest, SameGroup, XorCloser, LeavesOut, StrictlyCloser;
    var all := Visited(v, key, bad);
    if ReturnsClosest(v, key, bad) {
      forall i, j | 0 <= i < K <= j < |all| && all[j] !in all[..K] ensures !StrictlyCloser(key, all[j].id, all[i].id) {
        BehindIsLeftOut(v, key, bad, i, j);
      }
    }
    if CutIsSorted(v, key, bad) {
      forall a, b | LeavesOut(v, key, bad, a, b) ensures !StrictlyCloser(key, b.id, a.id) {
        if StrictlyCloser(key, b.id, a.id) {
          MissedOnlyInGroup(v, key, bad, a, b);
          LeftOutIsBehind(v, key, bad, a, b);
        }
      }
    }
  }

  /** With distinct identifiers no node is visited twice, so then every node behind the cut is left out. */
  lemma NoneVisitedTwice(v: View, key: Id, bad: set<DHTNode>)
    requires WellFormed(v) && Distinct(v)
    ensures var all := Visited(v, key, bad);
      DistinctIds(all) && forall j :: K <= j < |all| ==> all[j] !in all[..K]
  {
    hide Bits, Level, LeftToRight, GoodIn, SearchOrder, CellOk;
    var all := Visited(v, key, bad);
    SearchVisitsAll(v, Level(v, key, 0), bad);
    AllGoodDistinct(v, 0, bad);
    DistinctIsSimple(AllGood(v, bad));
    SimpleIsDistinct(all);
  }

  /** How many of the nodes share q leading bits with key. */
  function Sharing(nodes: seq<DHTNode>, key: Id, q: nat): nat {
    if nodes == [] then 0 else (if Agree(key, nodes[0].id, q) then 1 else 0) + Sharing(nodes[1..], key, q)
  }

  /** If those that share q bits come first, their number tells them from the others. */
  lemma {:induction false} SharingFirst(nodes: seq<DHTNode>, key: Id, q: nat, m: nat)
    requires m <= |nodes| && forall i :: 0 <= i < |nodes| ==> (Agree(key, nodes[i].id, q) <==> i < m)
    ensures Sharing(nodes, key, q) == m
  {
    hide Agree;
    if nodes != [] {
      SharingFirst(nodes[1..], key, q, if m > 0 then m - 1 else 0);
    }
  }

  /** A search visits those that share q bits with key before all others. */
  lemma SharersFirst(v: View, key: Id, bad: set<DHTNode>, q: nat)
    requires WellFormed(v) && q <= |CellFor(v, key).prefix|
    ensures var all := Visited(v, key, bad);
      forall i :: 0 <= i < |all| ==> (Agree(key, all[i].id, q) <==> i < Sharing(all, key, q))
  {
    hide Bits, CellOk, Agree, HasPrefix, GoodIn, LeftToRight, RightToLeft, Upward, CellFor, Sharing, Level;
    SubtreesFirst(v, key, q);
    var order, m := SearchOrder(v, Level(v, key, 0)), SubtreeSize(v, Level(v, key, 0), q);
    assert order == order[..m] + order[m..];
    GoodInConcat(order[..m], order[m..], bad);
    GoodInMembers(order[..m], bad);
    GoodInMembers(order[m..], bad);
    var inside, outside, all := GoodIn(order[..m], bad), GoodIn(order[m..], bad), Visited(v, key, bad);
    assert all == inside + outside;
    forall i | 0 <= i < |all| ensures Agree(key, all[i].id, q) <==> i < |inside| {
      if i < |inside| {
        assert all[i] == inside[i] && inside[i] in inside;
      } else {
        assert all[i] == outside[i - |inside|] && outside[i - |inside|] in outside;
      }
    }
    SharingFirst(all, key, q, |inside|);
  }

  /**
   * So the result is the closest nodes whenever the cut at K goes through no group: when there are at most K good
   * nodes, or exactly K of them share some number of leading bits with key.
   */
  lemma ClosestIfNoGroupIsCut(v: View, key: Id, bad: set<DHTNode>)
    requires WellFormed(v)
    requires || |Visited(v, key, bad)| <= K
             || exists q: nat :: q <= |CellFor(v, key).prefix| && Sharing(Visited(v, key, bad), key, q) == K
    ensures ReturnsClosest(v, key, bad)
  {
    hide Bits, CellOk, Holds, Visited, Agree, CellFor, Sharing, StrictlyCloser, ReturnsClosest;
    var all := Visited(v, key, bad);
    if |all| > K {
      var q: nat :| q <= |CellFor(v, key).prefix| && Sharing(all, key, q) == K;
      SharersFirst(v, key, bad, q);
      forall i, j | 0 <= i < K <= j < |all| ensures !SameGroup(v, key, all[i].id, all[j].id) {
        assert Agree(key, all[i].id, q) && !Agree(key, all[j].id, q);
      }
    }
    ClosestExactlyIf(v, key, bad);
  }

  /** A well-formed tree with distinct identifiers in which a closer node is left out. */
  ghost predicate Misses(v: View, key: Id, a: DHTNode, b: DHTNode) {
    WellFormed(v) && Distinct(v) && LeavesOut(v, key, {}, a, b) && StrictlyCloser(key, b.id, a.id)
  }

  lemma TwoCellsClosest(v: View, key: Id)
    requires |v.sibs| == 1 && IdBits(key)[0] == IdBits(v.local)[0]
    requires |v.own.nodes| == 1 && |v.sibs[0].nodes| == 8
    ensures Closest(v, key, {}) == v.own.nodes + v.sibs[0].nodes[..7]
  {
    hide Bits, Good;
    AllAreGood(v.own.nodes);
    AllAreGood(v.sibs[0].nodes);
    assert Level(v, key, 1) == 1;
    assert Upward(v, 1) == [v.sibs[0]] + Upward(v, 0);
    assert SearchOrder(v, 1) == [v.own] + [v.sibs[0]];
    GoodInConcat([v.own], [v.sibs[0]], {});
  }

  lemma CloserStart(x: bv8, y: bv8)
    requires Less(x, y)
    ensures XorCloser(IdStarting(0), IdStarting(x), IdStarting(y))
      && !XorCloser(IdStarting(0), IdStarting(y), IdStarting(x))
  {
    assert Xor(0, x) == x && Xor(0, y) == y;
    ByteTotal(x, y);
  }

  /**
   * The header calls the result the K closest nodes. It need not be: with one good node in the key's own half
   * and eight in the other, the last of the eight is cut off, and here that one is the closest of them.
   */
  lemma CutCanMissACloserNode()
    ensures exists v, key, a, b :: Misses(v, key, a, b)
  {
    hide Bits, Closest, XorCloser, BitOf, HasPrefix, IdStarting, NodesStarting, DistinctIds, Level;
    FarBytes();
    StartingDistinct([1], false);
    StartingDistinct(FAR, true);
    var key, near, far := IdStarting(0), NodesStarting([1]), NodesStarting(FAR);
    FirstBitPrefix(0);
    PrefixBit(key, [false], 0);
    var v := View(key, [Cell([true], far)], Cell([false], near));
    assert IdBits(key)[..1] == [false];
    assert SibPrefix(key, 0) == [true];
    assert CellOk(v.own) && CellOk(v.sibs[0]);
    TwoCellsClosest(v, key);
    var a, b := far[0], far[7];
    assert (near + far[..7])[1] == a;
    CloserStart(128, 129);
    LastIsCut(near, far);
    assert b in v.sibs[0].nodes;
    assert Misses(v, key, a, b);
  }

  lemma LastIsCut(near: seq<DHTNode>, far: seq<DHTNode>)
    requires |far| == 8 && DistinctIds(far) && far[7] !in near
    ensures far[7] !in near + far[..7]
  {
  }
}
