/** The routing table: the driver that grows the tree, over whole runs. */
module DhtRoutingTable {
  import opened Bytes
  import opened IdSpace
  import opened DhtBucket
  import opened RoutingView
  import opened RoutingTheorems
  import opened DhtBucketTree

  // ----- splitting the local leaf -----

  /** After a split, the parts of the tree lie where a tree one level deeper has them. */
  ghost function Grown(l: Layout, local: Id): Layout
    requires |l.spine| == |l.sibs| + 1 && |l.sibs| < ID_BITS
    requires l.spine[|l.sibs|].left != null && l.spine[|l.sibs|].right != null
    requires l.spine[|l.sibs|].left.bucket != null && l.spine[|l.sibs|].right.bucket != null
    reads l.spine, if |l.spine| == |l.sibs| + 1 then {l.spine[|l.sibs|].left, l.spine[|l.sibs|].right} else {}
  {
    var t := l.spine[|l.sibs|];
    var own, sib := if IdBits(local)[|l.sibs|] then t.right else t.left, if IdBits(local)[|l.sibs|]
        then t.left else t.right;
    Layout(l.spine + [own], l.sibs + [sib], l.sibBuckets + [sib.bucket], own.bucket)
  }

  /** The replacement cache of the bucket at level d. */
  ghost function CacheAt(l: Layout, d: nat): seq<DHTNode>
    requires |l.sibBuckets| == |l.sibs| && d <= |l.sibs|
    reads l.sibBuckets, l.own
  {
    BucketFor(l, d).cachedNodes
  }

  lemma LeafBucket(l: Layout, local: Id, d: nat)
    requires |l.spine| == |l.sibs| + 1 && d <= |l.sibs| && IsTree(l, local)
    ensures |l.sibBuckets| == |l.sibs| < ID_BITS
    ensures LeafAt(l, d).bucket == BucketFor(l, d)
    ensures BucketAt(BucketFor(l, d), if d == |l.sibs| then IdBits(local)[..d] else SibPrefix(local, d), local)
    ensures d == |l.sibs| < ID_BITS - 1 ==> BucketFor(l, d).cachedNodes == []
    ensures forall j :: 0 <= j < |l.sibs| && j != d ==> l.sibBuckets[j] != BucketFor(l, d)
    ensures d < |l.sibs| ==> l.own != BucketFor(l, d)
  {
    hide Bits, InRange, Block, BucketAt;
    assert d < |l.sibs| ==> l.sibs[d].LeafOf(l.sibBuckets[d]);
  }

  /** splitAllowed: only the bucket of the local identifier, and only below 159 bits of prefix. */
  lemma SplitAllowedIffOwn(l: Layout, local: Id, d: nat)
    requires |l.spine| == |l.sibs| + 1 && d <= |l.sibs| && IsTree(l, local)
    ensures |l.sibBuckets| == |l.sibs| && (BucketFor(l, d).SplitAllowed() <==> d == |l.sibs| < ID_BITS - 1)
  {
    hide Bits, InRange, Block, IsTree;
    LeafBucket(l, local, d);
    var b := BucketFor(l, d);
    b.CoversIsPrefix(b.localNode.id);
    if d < |l.sibs| {
      PrefixExtends(local, IdBits(local)[..d]);
    }
  }

  /** t is an inner node over two leaves whose buckets hold the halves of list in the block of prefix. */
  ghost predicate SplitInto(t: TreeNode, prefix: seq<bool>, list: seq<DHTNode>, local: Id)
    reads t, t.left, t.right
    reads if t.left != null then {t.left.bucket} else {}
    reads if t.right != null then {t.right.bucket} else {}
  {
    && t.bucket == null && t.left != null && t.right != null && t.left != t.right
    && t.left.parent == t && t.right.parent == t
    && t.left.bucket != null && t.left.LeafOf(t.left.bucket) && t.right.bucket != null && t.right.LeafOf(t.right.bucket)
    && t.left.bucket != t.right.bucket
    && Block(t.minId, t.maxId, prefix)
    && Block(t.left.minId, t.left.maxId, prefix + [false]) && Block(t.right.minId, t.right.maxId, prefix + [true])
    && BucketAt(t.left.bucket, prefix + [false], local) && BucketAt(t.right.bucket, prefix + [true], local)
    && t.left.bucket.cachedNodes == [] && t.right.bucket.cachedNodes == []
    && HalfOf(CellOf(t.left.bucket), list, prefix + [false])
    && HalfOf(CellOf(t.right.bucket), list, prefix + [true])
  }

  lemma SievedItself(nodes: seq<DHTNode>)
    ensures Sieved(nodes, nodes)
  {
  }

  method SplitLeaf(t: TreeNode, bad: set<DHTNode>, ghost l: Layout, ghost local: Id)
    requires |l.spine| == |l.sibs| + 1 && IsTree(l, local) && t == l.spine[|l.sibs|] && |l.sibs| < ID_BITS - 1
    modifies t`left, t`right, t`bucket, t`minId, t`maxId, l.own`nodes, l.own`min, l.own`prefixLength, l.own`prefix
    ensures SplitInto(t, IdBits(local)[..|l.sibs|], old(l.own.nodes), local)
    ensures t.right.bucket == l.own && fresh({t.left, t.right, t.left.bucket})
  {
    hide Bits, InRange, Block, WithPrefix, AllDifferent, InnerAt, HasPrefix;
    SplitAllowedIffOwn(l, local, |l.sibs|);
    t.Split(bad);
    SievedItself(t.right.bucket.nodes);
  }

  /** The links above the local leaf t, which do not depend on what t itself is. */
  ghost predicate Trunk(l: Layout, local: Id)
    reads l.spine, l.sibs
  {
    && |l.spine| == |l.sibs| + 1 && |l.sibBuckets| == |l.sibs| < ID_BITS
    && AllDifferent(l)
    && l.spine[0].parent == null
    && (forall i :: 0 <= i < |l.sibs| ==> InnerAt(l, local, i))
    && (forall i :: 0 <= i < |l.spine| ==> Block(l.spine[i].minId, l.spine[i].maxId, IdBits(local)[..i]))
    && (forall i :: 0 <= i < |l.sibs| ==>
          l.sibs[i].LeafOf(l.sibBuckets[i]) && Block(l.sibs[i].minId, l.sibs[i].maxId, SibPrefix(local, i)))
  }

  ghost predicate Siblings(l: Layout, local: Id)
    reads l.sibBuckets
  {
    |l.sibBuckets| < ID_BITS && forall i :: 0 <= i < |l.sibBuckets| ==>
        BucketAt(l.sibBuckets[i], SibPrefix(local, i), local)
  }

  method SplitAboveTrunk(t: TreeNode, bad: set<DHTNode>, ghost l: Layout, ghost local: Id)
    requires |l.spine| == |l.sibs| + 1 && IsTree(l, local) && t == l.spine[|l.sibs|] && |l.sibs| < ID_BITS - 1
    modifies t`left, t`right, t`bucket, t`minId, t`maxId, l.own`nodes, l.own`min, l.own`prefixLength, l.own`prefix
    ensures Trunk(l, local) && Siblings(l, local)
    ensures CellsOf(l.sibBuckets) == old(CellsOf(l.sibBuckets))
    ensures SplitInto(t, IdBits(local)[..|l.sibs|], old(l.own.nodes), local)
    ensures t.left != null && t.right != null && t.left.bucket != null
    ensures t.right.bucket == l.own && fresh({t.left, t.right, t.left.bucket})
  {
    hide Bits, InRange, Block, BucketAt, AllDifferent;
    ghost var n := |l.sibs|;
    ApartFromOwn(l, local, t);
    SplitLeaf(t, bad, l, local);
    forall i | 0 <= i < n ensures InnerAt(l, local, i) {
      assert old(InnerAt(l, local, i));
    }
    forall i | 0 <= i < n
      ensures l.sibs[i].LeafOf(l.sibBuckets[i]) && Block(l.sibs[i].minId, l.sibs[i].maxId, SibPrefix(local, i))
    {
      assert old(l.sibs[i].LeafOf(l.sibBuckets[i]) && Block(l.sibs[i].minId, l.sibs[i].maxId, SibPrefix(local, i)));
    }
  }

  lemma ApartFromOwn(l: Layout, local: Id, t: TreeNode)
    requires |l.spine| == |l.sibs| + 1 && IsTree(l, local) && t == l.spine[|l.sibs|]
    ensures Siblings(l, local) && |l.sibBuckets| == |l.sibs| < ID_BITS && l.own !in l.sibBuckets
    ensures forall i :: 0 <= i < |l.sibs| ==> l.spine[i] != t && l.sibs[i] != t && l.sibBuckets[i] != l.own
  {
    hide Bits, InRange, Block;
  }

  ghost predicate Apart(l: Layout, t: TreeNode)
    reads t, t.left, t.right
  {
    t.left != null && t.right != null &&
    t.left !in l.spine + l.sibs && t.right !in l.spine + l.sibs &&
    t.left.bucket !in l.sibBuckets && t.right.bucket !in l.sibBuckets
  }

  /** A trunk whose last node got two new leaves for the halves of its block is a tree one level deeper. */
  lemma TrunkGrows(l: Layout, local: Id, t: TreeNode, list: seq<DHTNode>)
    requires Trunk(l, local) && Siblings(l, local) && |l.sibs| < ID_BITS - 1 && t == l.spine[|l.sibs|]
    requires SplitInto(t, IdBits(local)[..|l.sibs|], list, local)
    requires Apart(l, t)
    ensures IsTree(Grown(l, local), local)
  {
    hide Bits, InRange, Block, BucketAt, HalfOf;
    var g, n := Grown(l, local), |l.sibs|;
    assert IdBits(local)[..n + 1] == IdBits(local)[..n] + [IdBits(local)[n]];
    assert AllDifferent(g);
    forall i | 0 <= i < |g.sibs| ensures InnerAt(g, local, i) {
      assert i < n ==> InnerAt(l, local, i);
    }
    forall i | 0 <= i < |g.spine| ensures Block(g.spine[i].minId, g.spine[i].maxId, IdBits(local)[..i]) {
      assert i <= n ==> Block(l.spine[i].minId, l.spine[i].maxId, IdBits(local)[..i]);
    }
  }

  lemma GrownView(l: Layout, local: Id, t: TreeNode, list: seq<DHTNode>, v: View)
    requires |l.spine| == |l.sibs| + 1 && |l.sibBuckets| == |l.sibs| < ID_BITS - 1 && t == l.spine[|l.sibs|]
    requires SplitInto(t, IdBits(local)[..|l.sibs|], list, local)
    requires v.local == local && v.sibs == CellsOf(l.sibBuckets) && v.own.nodes == list
    ensures SplitStep(v, ViewOf(Grown(l, local), local))
    ensures InnerAt(Grown(l, local), local, |l.sibs|)
    ensures CacheAt(Grown(l, local), |l.sibs|) == CacheAt(Grown(l, local), |l.sibs| + 1) == []
  {
    hide Bits, BucketAt, HalfOf;
    assert IdBits(local)[..|l.sibs| + 1] == IdBits(local)[..|l.sibs|] + [IdBits(local)[|l.sibs|]];
  }

  /** DHTBucketTreeNode::split on the local leaf keeps the tree's shape, one level deeper. */
  method GrowOwn(t: TreeNode, bad: set<DHTNode>, ghost l: Layout, ghost local: Id) returns (ghost g: Layout)
    requires |l.spine| == |l.sibs| + 1 && IsTree(l, local) && t == l.spine[|l.sibs|] && |l.sibs| < ID_BITS - 1
    modifies t, l.own
    ensures |g.spine| == |g.sibs| + 1 && |g.sibs| == |l.sibs| + 1
    ensures l.spine <= g.spine && l.sibs <= g.sibs
    ensures IsTree(g, local)
    ensures fresh(Footprint(g) - Footprint(l))
    ensures InnerAt(g, local, |l.sibs|)
    ensures SplitStep(old(ViewOf(l, local)), ViewOf(g, local))
    ensures |g.sibBuckets| == |g.sibs| && CacheAt(g, |l.sibs|) == CacheAt(g, |l.sibs| + 1) == []
  {
    hide Bits, Trunk, Siblings, IsTree, CellsOf, SplitInto, SplitStep, InnerAt, CacheAt, Footprint, Grown;
    ApartFromOwn(l, local, t);
    SplitAboveTrunk(t, bad, l, local);
    assert Apart(l, t);
    TrunkGrows(l, local, t, old(l.own.nodes));
    GrownView(l, local, t, old(l.own.nodes), old(ViewOf(l, local)));
    GrownParts(l, local, t);
    g := Grown(l, local);
  }

  lemma GrownParts(l: Layout, local: Id, t: TreeNode)
    requires |l.spine| == |l.sibs| + 1 && |l.sibBuckets| == |l.sibs| < ID_BITS && t == l.spine[|l.sibs|]
    requires t.left != null && t.right != null && t.left.bucket != null && t.right.bucket == l.own
    ensures var g := Grown(l, local);
      && |g.spine| == |g.sibs| + 1 && |g.sibs| == |g.sibBuckets| == |l.sibs| + 1
      && l.spine <= g.spine && l.sibs <= g.sibs
      && forall o: object :: o in Footprint(g) && o !in Footprint(l) ==>
        o == t.left || o == t.right || o == t.left.bucket
  {
    hide Bits;
  }

  // ----- one bucket operation inside the tree -----

  /** The view with the bucket of level d replaced. */
  function SetCell(v: View, d: nat, c: Cell): View
    requires d <= |v.sibs|
  {
    if d == |v.sibs| then v.(own := c) else v.(sibs := v.sibs[d := c])
  }

  lemma SetCellAdds(v: View, node: DHTNode, c: Cell, bad: set<DHTNode>, ok: bool)
    requires WellFormed(v) && c.prefix == CellFor(v, node.id).prefix
    requires AddOutcome(CellFor(v, node.id).nodes, c.nodes, node, bad, ok)
    ensures AddStep(v, SetCell(v, Level(v, node.id, 0), c), node, bad, ok)
  {
    hide Bits, AddOutcome, Level, CellOk;
    SameLevel(v, SetCell(v, Level(v, node.id, 0), c), node.id, 0);
  }

  lemma BucketAtParts(b: DHTBucket, prefix: seq<bool>, local: Id)
    ensures BucketAt(b, prefix, local) <==> b.Valid() && b.prefix == prefix && b.localNode.id == local
  {
  }

  /** A bucket that keeps its block but changes its lists does not disturb the tree. */
  method AddInTree(b: DHTBucket, node: DHTNode, bad: set<DHTNode>, ghost l: Layout, ghost local: Id, ghost d: nat)
    returns (ok: bool)
    requires |l.spine| == |l.sibs| + 1 && |l.sibBuckets| == |l.sibs| < ID_BITS && d <= |l.sibs| && IsTree(l, local)
    requires b == BucketFor(l, d) && b.Valid() && HasPrefix(node.id, b.prefix)
    modifies b`nodes
    ensures IsTree(l, local)
    ensures AddOutcome(old(b.nodes), b.nodes, node, bad, ok) && b.prefix == old(b.prefix)
    ensures ViewOf(l, local) == SetCell(old(ViewOf(l, local)), d, CellOf(b))
  {
    hide Bits, AddOutcome, HasPrefix, Shape, Block, BucketAt, CellsOf;
    LeafBucket(l, local, d);
    ghost var prefix := if d == |l.sibs| then IdBits(local)[..d] else SibPrefix(local, d);
    BucketAtParts(b, prefix, local);
    ok := b.AddNode(node, bad);
    BucketAtParts(b, prefix, local);
    assert IsTree(l, local) by {
      forall i | 0 <= i < |l.sibBuckets| ensures BucketAt(l.sibBuckets[i], SibPrefix(local, i), local) {
        assert old(BucketAt(l.sibBuckets[i], SibPrefix(local, i), local));
      }
    }
    assert ViewOf(l, local) == SetCell(old(ViewOf(l, local)), d, CellOf(b)) by {
      assert ViewOf(l, local).sibs == SetCell(old(ViewOf(l, local)), d, CellOf(b)).sibs;
    }
  }

  method AddAtLevel(b: DHTBucket, node: DHTNode, bad: set<DHTNode>, ghost l: Layout, ghost local: Id) returns (ok: bool)
    requires |l.spine| == |l.sibs| + 1 && |l.sibBuckets| == |l.sibs| < ID_BITS && IsTree(l, local)
    requires b == BucketFor(l, Level(ViewOf(l, local), node.id, 0))
    modifies b`nodes
    ensures IsTree(l, local)
    ensures WellFormed(old(ViewOf(l, local))) && AddStep(old(ViewOf(l, local)), ViewOf(l, local), node, bad, ok)
  {
    hide Bits, AddOutcome, HasPrefix, IsTree, CellsOf, AddStep, WellFormed, Level;
    ghost var v := ViewOf(l, local);
    ghost var d := Level(v, node.id, 0);
    TreeIsWellFormed(l, local);
    CellForIsUnique(v, node.id);
    LeafBucket(l, local, d);
    CellAtLevel(l, local, d);
    ok := AddInTree(b, node, bad, l, local, d);
    SetCellAdds(v, node, CellOf(b), bad, ok);
  }

  lemma CellAtLevel(l: Layout, local: Id, d: nat)
    requires |l.sibBuckets| == |l.sibs| && d <= |l.sibs|
    ensures CellOf(BucketFor(l, d)) == if d == |l.sibs| then ViewOf(l, local).own else ViewOf(l, local).sibs[d]
  {
  }

  method CacheInTree(b: DHTBucket, node: DHTNode, ghost l: Layout, ghost local: Id, ghost d: nat)
    requires |l.spine| == |l.sibs| + 1 && |l.sibBuckets| == |l.sibs| < ID_BITS && d <= |l.sibs| && IsTree(l, local)
    requires b == BucketFor(l, d) && b.Valid() && HasPrefix(node.id, b.prefix) && !b.SplitAllowed()
    modifies b`cachedNodes
    ensures IsTree(l, local) && ViewOf(l, local) == old(ViewOf(l, local))
    ensures b.cachedNodes == Cached(node, old(b.cachedNodes))
  {
    hide Bits, HasPrefix, Shape, Block, BucketAt, CellsOf;
    LeafBucket(l, local, d);
    SplitAllowedIffOwn(l, local, d);
    ghost var prefix := if d == |l.sibs| then IdBits(local)[..d] else SibPrefix(local, d);
    BucketAtParts(b, prefix, local);
    b.CacheNode(node);
    BucketAtParts(b, prefix, local);
    forall i | 0 <= i < |l.sibBuckets| ensures BucketAt(l.sibBuckets[i], SibPrefix(local, i), local) {
      assert old(BucketAt(l.sibBuckets[i], SibPrefix(local, i), local));
    }
    assert ViewOf(l, local).sibs == old(ViewOf(l, local)).sibs;
  }

  /** dropNode on a bucket: the first node of the identifier gives way to the front of the cache, if there are both. */
  ghost predicate NodesDropped(was: seq<DHTNode>, now: seq<DHTNode>, cache: seq<DHTNode>, left: seq<DHTNode>, id: Id) {
    if cache == [] || !HasId(was, id) then now == was && left == cache
    else Swapped(was, now, id, cache[0]) && left == cache[1..]
  }

  method DropInTree(b: DHTBucket, node: DHTNode, ghost l: Layout, ghost local: Id, ghost d: nat)
    requires |l.spine| == |l.sibs| + 1 && |l.sibBuckets| == |l.sibs| < ID_BITS && d <= |l.sibs| && IsTree(l, local)
    requires b == BucketFor(l, d) && b.Valid()
    modifies b`nodes, b`cachedNodes
    ensures IsTree(l, local)
    ensures NodesDropped(old(b.nodes), b.nodes, old(b.cachedNodes), b.cachedNodes, node.id)
    ensures b.prefix == old(b.prefix)
    ensures ViewOf(l, local) == SetCell(old(ViewOf(l, local)), d, CellOf(b))
  {
    hide Bits, HasPrefix, Shape, Block, BucketAt, CellsOf, Swapped;
    LeafBucket(l, local, d);
    ghost var prefix := if d == |l.sibs| then IdBits(local)[..d] else SibPrefix(local, d);
    BucketAtParts(b, prefix, local);
    b.DropNode(node);
    BucketAtParts(b, prefix, local);
    assert IsTree(l, local) by {
      forall i | 0 <= i < |l.sibBuckets| ensures BucketAt(l.sibBuckets[i], SibPrefix(local, i), local) {
        assert old(BucketAt(l.sibBuckets[i], SibPrefix(local, i), local));
      }
    }
    assert ViewOf(l, local) == SetCell(old(ViewOf(l, local)), d, CellOf(b)) by {
      assert ViewOf(l, local).sibs == SetCell(old(ViewOf(l, local)), d, CellOf(b)).sibs;
    }
  }

  // ----- the table -----

  /** v was split some more times: its identifiers, and if these are distinct its nodes, are as before. */
  ghost predicate Regrown(v: View, w: View) {
    && WellFormed(w) && w.local == v.local && |v.sibs| <= |w.sibs|
    && (forall id :: HoldsId(v, id) <==> HoldsId(w, id))
    && (Distinct(v) ==> Distinct(w) && forall n :: Holds(v, n) <==> Holds(w, n))
  }

  /**
   * What one addNode at the table does: node enters iff the answer is yes, and only its namesake or one bad node
   * leaves.
   */
  ghost predicate Inserted(v: View, w: View, node: DHTNode, bad: set<DHTNode>, ok: bool) {
    && WellFormed(w) && w.local == v.local && |v.sibs| <= |w.sibs|
    && (ok ==> Holds(w, node))
    && (!ok ==> Regrown(v, w))
    && (Distinct(v) ==>
          && Distinct(w)
          && (forall n :: Holds(w, n) ==> Holds(v, n) || n == node)
          && GivesWayOnly(v, w, node, bad))
  }

  /** The bucket of the node refuses it: full, with a node in front that is not bad, and not to be split. */
  ghost predicate Refuses(v: View, node: DHTNode, bad: set<DHTNode>)
    requires |v.sibs| < ID_BITS
  {
    var nodes := CellFor(v, node.id).nodes;
    && |nodes| == K && nodes[0] !in bad && !HasId(nodes, node.id)
    && (Level(v, node.id, 0) == |v.sibs| ==> |v.sibs| == ID_BITS - 1)
  }

  lemma RegrownItself(v: View)
    requires WellFormed(v)
    ensures Regrown(v, v)
  {
  }

  lemma RegrownStep(v: View, w: View, x: View)
    requires Regrown(v, w) && SplitStep(w, x)
    ensures Regrown(v, x)
  {
    hide WellFormed, Distinct, HalfOf;
    SplitConserves(w, x);
  }

  lemma InsertedAfter(v: View, w: View, x: View, node: DHTNode, bad: set<DHTNode>, ok: bool)
    requires Regrown(v, w) && AddStep(w, x, node, bad, ok)
    ensures Inserted(v, x, node, bad, ok)
    ensures !ok ==>
      && x == w && |CellFor(w, node.id).nodes| >= K && CellFor(w, node.id).nodes[0] !in bad
      && !HasId(CellFor(w, node.id).nodes, node.id)
  {
    hide Distinct, Level, CellFor, CellOk, Holds;
    AddConserves(w, x, node, bad, ok);
    forall n | Distinct(v) && GivesWay(v, x, node, n) ensures GivesWay(w, x, node, n) {
    }
    AddOutcomeMeaning(CellFor(w, node.id).nodes, CellFor(x, node.id).nodes, node, bad, ok);
  }

  /** One split of the local leaf, and the child in whose range the key is. */
  method SplitTowards(treeNode: TreeNode, key: Id, bad: set<DHTNode>, ghost l: Layout, ghost local: Id)
    returns (next: TreeNode, ghost g: Layout)
    requires |l.spine| == |l.sibs| + 1 && |l.sibBuckets| == |l.sibs| < ID_BITS - 1 && IsTree(l, local)
    requires Level(ViewOf(l, local), key, 0) == |l.sibs| && treeNode == l.spine[|l.sibs|]
    modifies treeNode, l.own
    ensures |g.spine| == |g.sibs| + 1 && |g.sibBuckets| == |g.sibs| == |l.sibs| + 1 && IsTree(g, local)
    ensures l.spine <= g.spine && forall o: object | o in Footprint(g) :: o in Footprint(l) || fresh(o)
    ensures SplitStep(old(ViewOf(l, local)), ViewOf(g, local))
    ensures next == LeafAt(g, Level(ViewOf(g, local), key, 0))
    ensures CacheAt(g, Level(ViewOf(g, local), key, 0)) == []
  {
    hide Bits, IsTree, CellsOf, SplitStep, Footprint;
    ghost var v, n := ViewOf(l, local), |l.sibs|;
    LevelAgrees(v, key, 0);
    g := GrowOwn(treeNode, bad, l, local);
    RootFacts(g, local);
    LevelGrows(v, ViewOf(g, local), key, 0);
    ChildCovers(g, local, n, key);
    if treeNode.left.Covers(key) {
      next := treeNode.left;
    } else {
      next := treeNode.right;
    }
  }

  /** A good node that is refused goes into the cache. */
  function CacheIf(refused: bool, node: DHTNode, cache: seq<DHTNode>): seq<DHTNode> {
    if refused then Cached(node, cache) else cache
  }

  /** One round of addNode's loop: done with an answer, or one level further down after a split. */
  method TryLeaf(treeNode: TreeNode, node: DHTNode, good: bool, bad: set<DHTNode>, ghost v: View, ghost l: Layout,
      ghost local: Id)
    returns (done: bool, ok: bool, next: TreeNode, grew: bool, ghost g: Layout)
    requires |l.spine| == |l.sibs| + 1 && |l.sibBuckets| == |l.sibs| < ID_BITS && IsTree(l, local)
    requires Regrown(v, ViewOf(l, local))
    requires treeNode == LeafAt(l, Level(ViewOf(l, local), node.id, 0))
    modifies treeNode, BucketFor(l, Level(ViewOf(l, local), node.id, 0))
    ensures |g.spine| == |g.sibs| + 1 && |g.sibBuckets| == |g.sibs| < ID_BITS && IsTree(g, local)
    ensures l.spine <= g.spine && forall o: object | o in Footprint(g) :: o in Footprint(l) || fresh(o)
    ensures |g.sibs| == |l.sibs| + (if grew then 1 else 0) && done == !grew
    ensures done ==> Inserted(v, ViewOf(g, local), node, bad, ok)
    ensures done && !ok ==> Refuses(ViewOf(g, local), node, bad)
    ensures !done ==> Regrown(v, ViewOf(g, local)) && next == LeafAt(g, Level(ViewOf(g, local), node.id, 0))
    ensures CacheAt(g, Level(ViewOf(g, local), node.id, 0))
         == CacheIf(done && !ok && good, node, old(CacheAt(l, Level(ViewOf(l, local), node.id, 0))))
  {
    hide Bits, IsTree, CellsOf, Regrown, Inserted, SplitStep, AddStep, WellFormed, Level, HasPrefix, Refuses, Footprint;
    ghost var w, d := ViewOf(l, local), Level(ViewOf(l, local), node.id, 0);
    done, next, grew, g := true, treeNode, false, l;
    LeafBucket(l, local, d);
    var bucket := treeNode.bucket;
    ok := AddAtLevel(bucket, node, bad, l, local);
    InsertedAfter(v, w, ViewOf(l, local), node, bad, ok);
    LevelStays(w, ViewOf(l, local), node, bad, ok);
    if !ok {
      SplitAllowedIffOwn(l, local, d);
      if bucket.SplitAllowed() {
        done, grew := false, true;
        next, g := SplitTowards(treeNode, node.id, bad, l, local);
        RegrownStep(v, w, ViewOf(g, local));
      } else {
        RefusedHere(l, local, d, node, bad);
        if good {
          CacheInTree(bucket, node, l, local, d);
        }
      }
    }
  }

  lemma LevelStays(v: View, w: View, node: DHTNode, bad: set<DHTNode>, ok: bool)
    requires WellFormed(v) && AddStep(v, w, node, bad, ok)
    ensures |w.sibs| == |v.sibs| < ID_BITS && Level(w, node.id, 0) == Level(v, node.id, 0)
  {
    hide Bits, AddOutcome, Level, CellFor, CellOk;
    SameLevel(v, w, node.id, 0);
  }

  lemma NothingCached(node: DHTNode, cache: seq<DHTNode>)
    ensures CacheIf(false, node, cache) == cache
  {
  }

  lemma LeafInFootprint(l: Layout, local: Id, d: nat)
    requires |l.spine| == |l.sibs| + 1 && |l.sibBuckets| == |l.sibs| && d <= |l.sibs| && IsTree(l, local)
    ensures LeafAt(l, d) in Footprint(l) && BucketFor(l, d) in Footprint(l)
  {
    hide IsTree;
  }

  class DHTRoutingTable {
    var root: TreeNode
    const localNode: DHTNode
    var numBucket: nat
    ghost var l: Layout

    ghost predicate Valid()
      reads this, Footprint(l)
    {
      && |l.spine| == |l.sibs| + 1 && |l.sibBuckets| == |l.sibs| < ID_BITS
      && IsTree(l, localNode.id) && root == l.spine[0] && numBucket == |l.sibs| + 1
    }

    ghost function Value(): View
      reads this, Footprint(l)
    {
      ViewOf(l, localNode.id)
    }

    /** The replacement cache of the bucket that a key belongs to. */
    ghost function CacheFor(key: Id): seq<DHTNode>
      requires Valid()
      reads this, Footprint(l)
    {
      CacheAt(l, Level(Value(), key, 0))
    }

    constructor (localNode: DHTNode)
      ensures Valid() && fresh(Footprint(l)) && this.localNode == localNode
      ensures Value() == View(localNode.id, [], Cell([], []))
    {
      hide Bits, InRange;
      var bucket := new DHTBucket.Whole(localNode);
      var leaf := new TreeNode.Leaf(bucket);
      root, numBucket, this.localNode := leaf, 1, localNode;
      l := Layout([leaf], [], [], bucket);
    }

    method FindClosest(nodes: seq<DHTNode>, key: Id, bad: set<DHTNode>) returns (r: seq<DHTNode>)
      requires Valid()
      ensures WellFormed(Value())
      ensures nodes == [] ==> r == Closest(Value(), key, bad)
    {
      hide IsTree, WellFormed, Closest;
      TreeIsWellFormed(l, localNode.id);
      RootFacts(l, localNode.id);
      r := FindClosestKNodes(nodes, root, key, bad, l, localNode.id);
    }

    /** getBuckets: the ranges of the listed buckets tile the identifier space, and there are numBucket of them. */
    method GetBuckets() returns (buckets: seq<DHTBucket>)
      requires Valid()
      ensures WellFormed(Value())
      ensures CellsOf(buckets) == LeftToRight(Value(), 0)
      ensures RangesOf(Mins(buckets), Maxs(buckets), LeftToRight(Value(), 0))
      ensures |buckets| == numBucket <= 160
    {
      hide IsTree, WellFormed, LeftToRight, CellsOf, RangesOf, Mins, Maxs;
      TreeIsWellFormed(l, localNode.id);
      RootFacts(l, localNode.id);
      NodeFacts(l, localNode.id, 0, root);
      buckets := EnumerateBucket([], root, l, localNode.id, 0);
      RangesOfLeaves(l, localNode.id, buckets);
    }

    /**
     * addNode and addGoodNode: try the key's bucket, splitting it as long as it is full and may be split. A good node
     * that is refused goes to the front of the replacement cache of its bucket.
     */
    method AddNode(node: DHTNode, good: bool, bad: set<DHTNode>) returns (ok: bool)
      requires Valid()
      modifies this`numBucket, this`l, Footprint(l)
      ensures Valid() && forall o: object | o in Footprint(l) :: o in old(Footprint(l)) || fresh(o)
      ensures node.id == localNode.id ==> !ok && Value() == old(Value())
      ensures node.id != localNode.id ==> Inserted(old(Value()), Value(), node, bad, ok)
      ensures node.id != localNode.id && !ok ==> |Value().sibs| < ID_BITS && Refuses(Value(), node, bad)
      ensures CacheFor(node.id) == CacheIf(node.id != localNode.id && !ok && good, node, old(CacheFor(node.id)))
    {
      hide Bits, IsTree, CellsOf, Regrown, Inserted, Level, Refuses, Footprint, LeafAt, BucketFor, CellOk, CacheIf,
        CacheAt;
      NothingCached(node, CacheFor(node.id));
      if localNode.id == node.id {
        return false;
      }
      TreeIsWellFormed(l, localNode.id);
      RegrownItself(Value());
      RootFacts(l, localNode.id);
      var treeNode := FindTreeNodeFor(root, node.id, l, localNode.id, 0);
      ok := AddBelow(treeNode, node, good, bad);
    }

    /** The loop of addNode, from the leaf found on. */
    method AddBelow(start: TreeNode, node: DHTNode, good: bool, bad: set<DHTNode>) returns (ok: bool)
      requires Valid() && WellFormed(Value()) && |l.sibBuckets| == |l.sibs|
      requires start == LeafAt(l, Level(Value(), node.id, 0)) && Regrown(Value(), Value())
      modifies this`numBucket, this`l, Footprint(l)
      ensures Valid() && forall o: object | o in Footprint(l) :: o in old(Footprint(l)) || fresh(o)
      ensures Inserted(old(Value()), Value(), node, bad, ok)
      ensures !ok ==> |Value().sibs| < ID_BITS && Refuses(Value(), node, bad)
      ensures CacheFor(node.id) == CacheIf(!ok && good, node, old(CacheFor(node.id)))
    {
      hide Bits, IsTree, CellsOf, Regrown, Inserted, Level, Refuses, Footprint, LeafAt, BucketFor, CellOk, CacheIf,
        CacheAt;
      ghost var v, local, g := Value(), localNode.id, l;
      ghost var cache := CacheAt(l, Level(v, node.id, 0));
      RootFacts(l, local);
      NothingCached(node, cache);
      var treeNode := start;
      var done, grew := false, false;
      ok := false;
      while !done
        invariant |g.spine| == |g.sibs| + 1 && |g.sibBuckets| == |g.sibs| < ID_BITS
        invariant IsTree(g, local) && root == g.spine[0] && numBucket == |g.sibs| + 1
        invariant forall o: object | o in Footprint(g) :: o in Footprint(l) || fresh(o)
        invariant !done ==> Regrown(v, ViewOf(g, local))
        invariant !done ==> treeNode == LeafAt(g, Level(ViewOf(g, local), node.id, 0))
        invariant done ==> Inserted(v, ViewOf(g, local), node, bad, ok)
        invariant done && !ok ==> Refuses(ViewOf(g, local), node, bad)
        invariant CacheAt(g, Level(ViewOf(g, local), node.id, 0)) == CacheIf(done && !ok && good, node, cache)
        invariant l == old(l)
        decreases !done, ID_BITS - |g.sibs|
      {
        LeafInFootprint(g, local, Level(ViewOf(g, local), node.id, 0));
        NothingCached(node, cache);
        done, ok, treeNode, grew, g := TryLeaf(treeNode, node, good, bad, v, g, local);
        if grew {
          numBucket := numBucket + 1;
        }
      }
      l := g;
    }

    /**
     * dropNode: in the identifier's bucket, the node gives way to the front of the replacement cache, if there is one.
     */
    method DropNode(node: DHTNode)
      requires Valid()
      modifies Footprint(l)
      ensures Valid() && WellFormed(old(Value())) && WellFormed(Value()) && l == old(l)
      ensures Dropped(old(Value()), Value(), node, old(CacheFor(node.id)), CacheFor(node.id))
    {
      hide Bits, IsTree, CellsOf, WellFormed, NodesDropped, Dropped, SetCell, Level;
      ghost var local, v := localNode.id, Value();
      RootFacts(l, local);
      TreeIsWellFormed(l, local);
      ghost var d := Level(v, node.id, 0);
      LeafBucket(l, local, d);
      LeafInFootprint(l, local, d);
      CellAtLevel(l, local, d);
      var bucket := FindBucketFor(root, node.id, l, local);
      ghost var cache := bucket.cachedNodes;
      DropInTree(bucket, node, l, local, d);
      TreeIsWellFormed(l, local);
      DroppedBy(v, Value(), node, bucket.nodes, cache, bucket.cachedNodes);
    }
  }

  lemma DroppedBy(v: View, w: View, node: DHTNode, nodes: seq<DHTNode>, cache: seq<DHTNode>, left: seq<DHTNode>)
    requires |v.sibs| < ID_BITS
    requires w == SetCell(v, Level(v, node.id, 0), Cell(CellFor(v, node.id).prefix, nodes))
    requires NodesDropped(CellFor(v, node.id).nodes, nodes, cache, left, node.id)
    ensures |w.sibs| == |v.sibs| && Level(w, node.id, 0) == Level(v, node.id, 0)
    ensures Dropped(v, w, node, cache, left)
  {
    hide NodesDropped, Level, Bits;
    SameLevel(v, w, node.id, 0);
  }

  /** Only the bucket that node belongs to may change, as dropNode on that bucket and its cache says. */
  ghost predicate Dropped(v: View, w: View, node: DHTNode, cache: seq<DHTNode>, left: seq<DHTNode>)
    requires |v.sibs| < ID_BITS
  {
    && |w.sibs| == |v.sibs|
    && w == SetCell(v, Level(v, node.id, 0), Cell(CellFor(v, node.id).prefix, CellFor(w, node.id).nodes))
    && NodesDropped(CellFor(v, node.id).nodes, CellFor(w, node.id).nodes, cache, left, node.id)
  }

  /**
   * The replacement cache may hold an identifier that the bucket holds too, so dropNode can duplicate it:
   * identifiers stay distinct exactly if the cached node is the dropped one's namesake or new to the bucket.
   */
  lemma DropKeepsDistinctIff(was: seq<DHTNode>, now: seq<DHTNode>, id: Id, cached: DHTNode)
    requires DistinctIds(was) && Swapped(was, now, id, cached)
    ensures DistinctIds(now) <==> cached.id == id || !HasId(was, cached.id)
  {
    hide DistinctIds, AddedAt;
    var i :| 0 <= i < |was| && was[i].id == id && (forall j :: 0 <= j < i ==> was[j].id != id)
        && AddedAt(was, now, cached, i);
    AddedAtMembers(was, now, cached, i);
    if cached.id != id && HasId(was, cached.id) {
      var n :| n in was && n.id == cached.id;
      AddedTwice(was, now, cached, i, n);
    }
  }

  lemma AddedTwice(was: seq<DHTNode>, now: seq<DHTNode>, cached: DHTNode, i: nat, n: DHTNode)
    requires i < |was| && AddedAt(was, now, cached, i) && n in was && n.id == cached.id != was[i].id
    ensures !DistinctIds(now)
  {
    var k :| 0 <= k < |was| && was[k] == n;
    assert now[if k < i then k else k - 1] == n && now[|now| - 1] == cached;
  }

  /** dropNode on the table keeps identifiers distinct exactly if that replacement does, or there is none. */
  lemma TableStaysDistinctIff(v: View, w: View, node: DHTNode, cache: seq<DHTNode>, left: seq<DHTNode>)
    requires |v.sibs| < ID_BITS && Distinct(v) && Dropped(v, w, node, cache, left)
    ensures Distinct(w) <==> var was := CellFor(v, node.id).nodes;
      cache == [] || !HasId(was, node.id) || cache[0].id == node.id || !HasId(was, cache[0].id)
  {
    hide Swapped, Level, DistinctIds, HasId, Bits;
    var was, now, d := CellFor(v, node.id).nodes, CellFor(w, node.id).nodes, Level(v, node.id, 0);
    SameLevel(v, w, node.id, 0);
    assert DistinctIds(was);
    if cache != [] && HasId(was, node.id) {
      DropKeepsDistinctIff(was, now, node.id, cache[0]);
    }
    assert forall i :: 0 <= i < |v.sibs| && i != d ==> w.sibs[i] == v.sibs[i];
    assert d < |v.sibs| ==> w.sibs[d].nodes == now;
  }

  /**
   * Such a run of a bucket away from the local node: it is full, so a good node x is put into its cache; its first node
   * goes bad and x is added after all; another node is dropped, and the cached x takes its place beside x.
   */
  method DropDuplicates(b: DHTBucket, x: DHTNode, y: DHTNode)
    requires b.Valid() && !b.SplitAllowed() && |b.nodes| == K && HasPrefix(x.id, b.prefix) && !HasId(b.nodes, x.id)
    requires DistinctIds(b.nodes) && y in b.nodes[1..]
    modifies b
    ensures b.Valid() && !DistinctIds(b.nodes)
  {
    hide HasPrefix, DistinctIds, Block, Bits;
    ghost var was := b.nodes;
    var refused := b.AddNode(x, {});
    assert !refused && b.nodes == was;
    b.CacheNode(x);
    var added := b.AddNode(x, {b.nodes[0]});
    assert added && b.nodes == was[1..] + [x];
    ghost var now := b.nodes;
    OneIn(was, x);
    assert y in now && x in now && HasId(now, x.id) && HasId(now, y.id) && y.id != x.id;
    b.DropNode(y);
    DropKeepsDistinctIff(now, b.nodes, y.id, x);
  }

  lemma OneIn(was: seq<DHTNode>, x: DHTNode)
    requires was != [] && DistinctIds(was) && !HasId(was, x.id)
    ensures DistinctIds(was[1..] + [x]) && forall n :: n in was[1..] ==> n.id != x.id
    ensures x in was[1..] + [x]
  {
    forall n | n in was[1..] ensures n.id != x.id {
      assert n in was;
    }
    var now := was[1..] + [x];
    forall i, j | 0 <= i < j < |now| ensures now[i].id != now[j].id {
      assert i < |was| - 1 ==> now[i] == was[i + 1] && now[i] in was[1..];
    }
  }

  /** New nodes fill a bucket one after the other. */
  method Fill(b: DHTBucket, nodes: seq<DHTNode>)
    requires b.Valid() && b.nodes == [] && DistinctIds(nodes) && |nodes| <= K
    requires forall n :: n in nodes ==> HasPrefix(n.id, b.prefix)
    modifies b`nodes
    ensures b.Valid() && b.nodes == nodes && b.SplitAllowed() == old(b.SplitAllowed())
  {
    hide DistinctIds, HasId, HasPrefix, Block, InRange, AddOutcome;
    for i := 0 to |nodes|
      invariant b.Valid() && b.nodes == nodes[..i] && b.SplitAllowed() == old(b.SplitAllowed())
    {
      NextIsNew(nodes, i);
      ghost var was := b.nodes;
      var ok := b.AddNode(nodes[i], {});
      NewIsAppended(was, b.nodes, nodes[i], ok);
    }
    assert nodes[..|nodes|] == nodes;
  }

  /** That happens to a bucket of the upper half which fills up, the local identifier being zero. */
  method DropCanDuplicate() returns (b: DHTBucket)
    ensures fresh(b) && b.Valid() && !DistinctIds(b.nodes)
  {
    hide *;
    var x, nodes := DHTNode(IdStarting(136), 0), NodesStarting(FAR);
    FarNodes(x, nodes);
    b := EmptyUpperHalf();
    Fill(b, nodes);
    DropDuplicates(b, x, nodes[1]);
  }

  method EmptyUpperHalf() returns (b: DHTBucket)
    ensures fresh(b) && b.Valid() && b.prefix == [true] && b.nodes == [] && !b.SplitAllowed()
  {
    hide HasPrefix, Block, InRange, Bits, FlipBit;
    UpperHalf();
    b := new DHTBucket(1, ONES, FlipBit(ZERO, 0), DHTNode(ZERO, 0), [true]);
    b.CoversIsPrefix(ZERO);
  }

  lemma FarNodes(x: DHTNode, nodes: seq<DHTNode>)
    requires x == DHTNode(IdStarting(136), 0) && nodes == NodesStarting(FAR)
    ensures |nodes| == K && DistinctIds(nodes) && !HasId(nodes, x.id) && nodes[1] in nodes[1..]
    ensures HasPrefix(x.id, [true]) && forall n :: n in nodes ==> HasPrefix(n.id, [true])
  {
    hide DistinctIds, HasPrefix, BitOf, Bits, IdStarting, NodesStarting;
    FarBytes();
    FirstBit136();
    FirstBitPrefix(136);
    StartingDistinct(FAR, true);
    FarIsNot136(FAR);
    assert nodes[1..][0] == nodes[1];
    forall n | n in nodes ensures n.id != x.id {
      var i :| 0 <= i < |nodes| && nodes[i] == n;
      assert FAR[i] in FAR && n.id[0] == FAR[i];
    }
  }

  lemma FarIsNot136(far: seq<bv8>)
    requires far == FAR
    ensures 136 !in far && |far| == K
  {
  }

  lemma FirstBit136()
    ensures BitOf(136, 0) == true
  {
  }

  lemma UpperHalf()
    ensures Block(FlipBit(ZERO, 0), ONES, [true]) && !HasPrefix(ZERO, [true])
  {
    WholeIsBlock();
    HalvesAreBlocks(ZERO, ONES, []);
    FirstBitPrefix(0);
    assert ZERO == IdStarting(0) && [] + [true] == [true];
    FarBytes();
    hide BitOf, Bits, Block, FlipBit;
    assert [false] != [true];
  }

  lemma NextIsNew(nodes: seq<DHTNode>, i: nat)
    requires DistinctIds(nodes) && i < |nodes|
    ensures nodes[i] in nodes && !HasId(nodes[..i], nodes[i].id) && nodes[..i + 1] == nodes[..i] + [nodes[i]]
  {
  }

  lemma NewIsAppended(was: seq<DHTNode>, now: seq<DHTNode>, node: DHTNode, ok: bool)
    requires AddOutcome(was, now, node, {}, ok) && |was| < K && !HasId(was, node.id)
    ensures now == was + [node]
  {
  }

  ghost function Mins(buckets: seq<DHTBucket>): (r: seq<Id>)
    reads buckets
    ensures |r| == |buckets| && forall i :: 0 <= i < |r| ==> r[i] == buckets[i].min
  {
    if buckets == [] then [] else Mins(buckets[..|buckets| - 1]) + [buckets[|buckets| - 1].min]
  }

  ghost function Maxs(buckets: seq<DHTBucket>): (r: seq<Id>)
    reads buckets
    ensures |r| == |buckets| && forall i :: 0 <= i < |r| ==> r[i] == buckets[i].max
  {
    if buckets == [] then [] else Maxs(buckets[..|buckets| - 1]) + [buckets[|buckets| - 1].max]
  }

  lemma RangesOfLeaves(l: Layout, local: Id, buckets: seq<DHTBucket>)
    requires IsTree(l, local) && forall b | b in buckets :: b in l.sibBuckets || b == l.own
    ensures RangesOf(Mins(buckets), Maxs(buckets), CellsOf(buckets))
  {
    hide Bits, Shape, Block, InRange;
    forall i | 0 <= i < |buckets| ensures Block(Mins(buckets)[i], Maxs(buckets)[i], CellsOf(buckets)[i].prefix) {
      var b := buckets[i];
      assert b in buckets;
      assert b.Valid();
    }
  }

  lemma RefusedHere(l: Layout, local: Id, d: nat, node: DHTNode, bad: set<DHTNode>)
    requires |l.spine| == |l.sibs| + 1 && |l.sibBuckets| == |l.sibs| < ID_BITS && IsTree(l, local)
    requires d == Level(ViewOf(l, local), node.id, 0)
    requires d == |l.sibs| ==> |l.sibs| == ID_BITS - 1
    requires var c := CellFor(ViewOf(l, local), node.id);
      |c.nodes| >= K && c.nodes[0] !in bad && !HasId(c.nodes, node.id)
    ensures Refuses(ViewOf(l, local), node, bad)
    ensures BucketFor(l, d).Valid() && HasPrefix(node.id, BucketFor(l, d).prefix)
  {
    hide Bits, IsTree, HasPrefix, Level;
    TreeIsWellFormed(l, local);
    LeafBucket(l, local, d);
    CellForIsUnique(ViewOf(l, local), node.id);
    CellAtLevel(l, local, d);
  }

  lemma {:induction false} LevelGrows(v: View, w: View, key: Id, i: nat)
    requires |v.sibs| < |w.sibs| == |v.sibs| + 1 < ID_BITS && v.local == w.local && i <= |v.sibs|
    requires Level(v, key, i) == |v.sibs|
    ensures Level(w, key, i) == if IdBits(key)[|v.sibs|] == IdBits(v.local)[|v.sibs|] then |v.sibs| + 1 else |v.sibs|
    decreases |v.sibs| - i
  {
    hide Bits;
    if i < |v.sibs| {
      LevelGrows(v, w, key, i + 1);
    } else {
      assert Level(w, key, i + 1) == i + 1;
    }
  }

  lemma ChildCovers(l: Layout, local: Id, n: nat, key: Id)
    requires |l.spine| == |l.sibs| + 1 && n + 1 == |l.sibs| && IsTree(l, local) && Agree(key, local, n)
    ensures l.spine[n].left != null && l.spine[n].right != null
    ensures (if l.spine[n].left.Covers(key) then l.spine[n].left else l.spine[n].right)
         == if IdBits(key)[n] == IdBits(local)[n] then l.spine[n + 1] else l.sibs[n]
  {
    hide Bits, InRange, Block;
    NodeFacts(l, local, n, l.spine[n]);
    DigFollowsBit(l, local, n, key);
  }
}
