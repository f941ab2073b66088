/** The routing tree as linked nodes, its searches, and the table that drives its growth. */
module DhtBucketTree {
  import opened Bytes
  import opened IdSpace
  import opened DhtBucket
  import opened RoutingView

  class TreeNode {
    var parent: TreeNode?
    var left: TreeNode?
    var right: TreeNode?
    var bucket: DHTBucket?
    var minId: Id
    var maxId: Id

    constructor Leaf(bucket: DHTBucket)
      ensures LeafOf(bucket) && parent == null
      ensures minId == bucket.min && maxId == bucket.max
    {
      this.bucket, parent, left, right := bucket, null, null, null;
      minId, maxId := bucket.min, bucket.max;
    }

    ghost predicate LeafOf(b: DHTBucket)
      reads this
    {
      bucket == b && left == null && right == null
    }

    predicate IsLeaf()
      reads this
    {
      bucket != null
    }

    predicate Covers(key: Id)
      reads this
    {
      InRange(key, maxId, minId)
    }

    method ResetRelation()
      requires left != null && right != null && left != right && left != this && right != this
      modifies this`minId, this`maxId, left`parent, right`parent
      ensures left.parent == this && right.parent == this
      ensures minId == left.minId && maxId == right.maxId
    {
      left.parent := this;
      right.parent := this;
      minId := left.minId;
      maxId := right.maxId;
    }

    /** The child whose range the key belongs to, or null at a leaf. */
    function Dig(key: Id): TreeNode?
      reads this, left
    {
      if IsLeaf() then null
      else if left != null && left.Covers(key) then left
      else right
    }

    method Split(bad: set<DHTNode>)
      requires bucket != null && LeafOf(bucket) && bucket.Valid() && bucket.SplitAllowed()
      modifies this`left, this`right, this`bucket, this`minId, this`maxId,
               bucket`nodes, bucket`min, bucket`prefixLength, bucket`prefix
      ensures bucket == null && left != null && right != null && fresh(left) && fresh(right) && left != right
      ensures left.parent == this && right.parent == this
      ensures Block(minId, maxId, old(bucket.prefix))
      ensures Block(left.minId, left.maxId, old(bucket.prefix) + [false])
      ensures Block(right.minId, right.maxId, old(bucket.prefix) + [true])
      ensures left.bucket != null && fresh(left.bucket) && left.LeafOf(left.bucket) && right.LeafOf(old(bucket))
      ensures left.bucket.Valid() && left.bucket.localNode == old(bucket).localNode && left.bucket.cachedNodes == []
      ensures old(bucket.cachedNodes) == [] ==> old(bucket).Valid()
      ensures left.bucket.prefix == old(bucket.prefix) + [false] && old(bucket).prefix == old(bucket.prefix) + [true]
      ensures old(bucket).nodes == WithPrefix(old(bucket.nodes), old(bucket).prefix)
      ensures Sieved(left.bucket.nodes, WithPrefix(old(bucket.nodes), left.bucket.prefix))
      ensures old(bucket).cachedNodes == old(bucket.cachedNodes)
    {
      hide Sieved, WithPrefix, Block, InRange;
      var lower := bucket.Split(bad);
      left := new TreeNode.Leaf(lower);
      right := new TreeNode.Leaf(bucket);
      bucket := null;
      ResetRelation();
    }
  }

  /**
   * Where the parts of the tree are: the inner nodes on the path along the local identifier, ending in the
   * leaf of the local bucket, and at each level the sibling leaf left behind.
   */
  datatype Layout = Layout(spine: seq<TreeNode>, sibs: seq<TreeNode>, sibBuckets: seq<DHTBucket>, own: DHTBucket)

  ghost function Footprint(l: Layout): set<object> {
    (set t: object | t in l.spine) + (set t: object | t in l.sibs) + (set b: object | b in l.sibBuckets) + {l.own}
  }

  ghost predicate AllDifferent(l: Layout) {
    && (forall i, j :: 0 <= i < j < |l.spine| ==> l.spine[i] != l.spine[j])
    && (forall i, j :: 0 <= i < j < |l.sibs| ==> l.sibs[i] != l.sibs[j])
    && (forall i, j :: 0 <= i < |l.spine| && 0 <= j < |l.sibs| ==> l.spine[i] != l.sibs[j])
    && (forall i, j :: 0 <= i < j < |l.sibBuckets| ==> l.sibBuckets[i] != l.sibBuckets[j])
    && (forall i :: 0 <= i < |l.sibBuckets| ==> l.sibBuckets[i] != l.own)
  }

  /** The inner node of level i has the next node of the path on the side of local bit i, and the sibling opposite. */
  ghost predicate InnerAt(l: Layout, local: Id, i: nat)
    requires i < |l.sibs| < ID_BITS && |l.spine| == |l.sibs| + 1
    reads l.spine, l.sibs
  {
    && l.spine[i].bucket == null
    && l.spine[i].left == (if IdBits(local)[i] then l.sibs[i] else l.spine[i + 1])
    && l.spine[i].right == (if IdBits(local)[i] then l.spine[i + 1] else l.sibs[i])
    && l.sibs[i].parent == l.spine[i]
    && l.spine[i + 1].parent == l.spine[i]
  }

  ghost predicate BucketAt(b: DHTBucket, prefix: seq<bool>, local: Id)
    reads b
  {
    b.Valid() && b.prefix == prefix && b.localNode.id == local
  }

  /** The links of the tree and the ranges kept in its nodes. */
  ghost predicate Shape(l: Layout, local: Id)
    reads l.spine, l.sibs
  {
    && |l.spine| == |l.sibs| + 1 && |l.sibBuckets| == |l.sibs| < ID_BITS
    && AllDifferent(l)
    && l.spine[0].parent == null
    && (forall i :: 0 <= i < |l.sibs| ==> InnerAt(l, local, i))
    && (forall i :: 0 <= i < |l.spine| ==> Block(l.spine[i].minId, l.spine[i].maxId, IdBits(local)[..i]))
    && (forall i :: 0 <= i < |l.sibs| ==>
          l.sibs[i].LeafOf(l.sibBuckets[i]) && Block(l.sibs[i].minId, l.sibs[i].maxId, SibPrefix(local, i)))
    && l.spine[|l.sibs|].LeafOf(l.own)
  }

  /** The buckets at the leaves: each one valid and over the block of its place. */
  ghost predicate Buckets(l: Layout, local: Id)
    reads l.sibBuckets, l.own
  {
    && |l.sibBuckets| < ID_BITS
    && (forall i :: 0 <= i < |l.sibBuckets| ==> BucketAt(l.sibBuckets[i], SibPrefix(local, i), local))
    && BucketAt(l.own, IdBits(local)[..|l.sibBuckets|], local)
    && (|l.sibBuckets| < ID_BITS - 1 ==> l.own.cachedNodes == [])
  }

  ghost predicate IsTree(l: Layout, local: Id)
    reads l.spine, l.sibs, l.sibBuckets, l.own
  {
    Shape(l, local) && Buckets(l, local)
  }

  ghost function CellOf(b: DHTBucket): Cell
    reads b
  {
    Cell(b.prefix, b.nodes)
  }

  ghost function CellsOf(buckets: seq<DHTBucket>): (r: seq<Cell>)
    reads buckets
    ensures |r| == |buckets| && forall i :: 0 <= i < |r| ==> r[i] == CellOf(buckets[i])
  {
    if buckets == [] then [] else CellsOf(buckets[..|buckets| - 1]) + [CellOf(buckets[|buckets| - 1])]
  }

  ghost function ViewOf(l: Layout, local: Id): View
    reads l.sibBuckets, l.own
  {
    View(local, CellsOf(l.sibBuckets), CellOf(l.own))
  }

  lemma TreeIsWellFormed(l: Layout, local: Id)
    requires IsTree(l, local)
    ensures WellFormed(ViewOf(l, local))
  {
    hide Block, Bits, AllDifferent;
  }

  /** What a tree node that is the path node of level i, or the sibling leaf there, links to. */
  lemma NodeFacts(l: Layout, local: Id, i: nat, tnode: TreeNode)
    requires IsTree(l, local) && i <= |l.sibs|
    requires tnode == l.spine[i] || (i < |l.sibs| && tnode == l.sibs[i])
    ensures |l.spine| == |l.sibs| + 1 && |l.sibBuckets| == |l.sibs| < ID_BITS
    ensures tnode.bucket == null <==> i < |l.sibs| && tnode == l.spine[i]
    ensures i < |l.sibs| && tnode == l.sibs[i] ==> tnode.bucket == l.sibBuckets[i] && tnode != l.spine[i]
    ensures i == |l.sibs| ==> tnode.bucket == l.own
    ensures i < |l.sibs| ==> InnerAt(l, local, i) && l.sibs[i] != l.spine[i + 1]
  {
    hide Bits, InRange, Block;
    if i < |l.sibs| {
      assert InnerAt(l, local, i);
      assert l.sibs[i].LeafOf(l.sibBuckets[i]);
    }
  }

  lemma RootFacts(l: Layout, local: Id)
    requires IsTree(l, local)
    ensures |l.spine| == |l.sibs| + 1 && |l.sibBuckets| == |l.sibs| < ID_BITS
    ensures l.spine[0].parent == null
    ensures forall i, j :: 0 <= i < j < |l.spine| ==> l.spine[i] != l.spine[j]
  {
    hide Bits, InRange, Block;
  }

  // ----- searching -----

  /** The tree node a key leaving the path at level d ends in. */
  ghost function LeafAt(l: Layout, d: nat): TreeNode
    requires |l.spine| == |l.sibs| + 1 && d <= |l.sibs|
  {
    if d == |l.sibs| then l.spine[d] else l.sibs[d]
  }

  /** dig goes on along the local path exactly if the key has the local bit of that level. */
  lemma DigFollowsBit(l: Layout, local: Id, i: nat, key: Id)
    requires Shape(l, local) && i < |l.sibs| && Agree(key, local, i)
    ensures l.spine[i].Dig(key) == if IdBits(key)[i] == IdBits(local)[i] then l.spine[i + 1] else l.sibs[i]
  {
    hide Bits, AllDifferent, InRange, Block;
    assert InnerAt(l, local, i);
    var c := IdBits(local)[..i];
    assert IdBits(local)[..i + 1] == c + [IdBits(local)[i]];
    PrefixExtends(key, c);
    if IdBits(local)[i] {
      RangeIsBlock(key, l.sibs[i].minId, l.sibs[i].maxId, SibPrefix(local, i));
    } else {
      RangeIsBlock(key, l.spine[i + 1].minId, l.spine[i + 1].maxId, IdBits(local)[..i + 1]);
    }
  }

  /** findTreeNodeFor; root is the path node of level i, which the key's range includes, or the sibling leaf there. */
  method FindTreeNodeFor(root: TreeNode, key: Id, ghost l: Layout, ghost local: Id, ghost i: nat)
    returns (leaf: TreeNode)
    requires IsTree(l, local) && i <= |l.sibs|
    requires (root == l.spine[i] && Agree(key, local, i)) || (i < |l.sibs| && root == l.sibs[i])
    ensures root == l.spine[i] ==> leaf == LeafAt(l, Level(ViewOf(l, local), key, i))
    ensures i < |l.sibs| && root == l.sibs[i] ==> leaf == root
    decreases |l.sibs| - i, root == l.spine[i]
  {
    hide Bits, InRange, Block;
    assert i < |l.sibs| ==> InnerAt(l, local, i);
    if root.IsLeaf() {
      leaf := root;
    } else {
      DigFollowsBit(l, local, i, key);
      AgreeBitwise(key, local, i);
      AgreeBitwise(key, local, i + 1);
      var next := root.Dig(key);
      leaf := FindTreeNodeFor(next, key, l, local, if next == l.sibs[i] then i else i + 1);
    }
  }

  method FindBucketFor(root: TreeNode, key: Id, ghost l: Layout, ghost local: Id) returns (b: DHTBucket)
    requires IsTree(l, local) && root == l.spine[0]
    ensures b == BucketFor(l, Level(ViewOf(l, local), key, 0))
  {
    hide Bits, InRange, Block;
    var leaf := FindTreeNodeFor(root, key, l, local, 0);
    b := leaf.bucket;
  }

  ghost function BucketFor(l: Layout, d: nat): DHTBucket
    requires |l.sibBuckets| == |l.sibs| && d <= |l.sibs|
  {
    if d == |l.sibs| then l.own else l.sibBuckets[d]
  }

  // ----- collecting good nodes -----

  method CollectNodes(nodes: seq<DHTNode>, bucket: DHTBucket, bad: set<DHTNode>) returns (r: seq<DHTNode>)
    ensures r == nodes + Good(bucket.nodes, bad)
  {
    var goodNodes := bucket.GetGoodNodes([], bad);
    assert [] + bucket.nodes == bucket.nodes;
    r := nodes + goodNodes;
  }

  /** r is nodes extended by g, or by so much of the front of g that it holds at least K nodes. */
  ghost predicate Gathered(nodes: seq<DHTNode>, g: seq<DHTNode>, r: seq<DHTNode>) {
    r <= nodes + g && (r == nodes + g || |r| >= K)
  }

  lemma GatheredThen(a: seq<DHTNode>, g1: seq<DHTNode>, b: seq<DHTNode>, g2: seq<DHTNode>, c: seq<DHTNode>)
    requires Gathered(a, g1, b)
    requires if |b| < K then Gathered(b, g2, c) else c == b
    ensures Gathered(a, g1 + g2, c)
  {
    assert a + (g1 + g2) == (a + g1) + g2;
  }

  lemma GatheredTruncated(a: seq<DHTNode>, g: seq<DHTNode>, r: seq<DHTNode>)
    requires Gathered(a, g, r)
    ensures Truncate(r) == Truncate(a + g)
  {
  }

  /** The buckets below a tree node that is the path node of level i or the sibling leaf there. */
  ghost function Below(l: Layout, local: Id, i: nat, tnode: TreeNode, leftFirst: bool): seq<Cell>
    requires |l.sibBuckets| == |l.sibs| < ID_BITS && i <= |l.sibs|
    reads l.sibBuckets, l.own
  {
    if i < |l.sibs| && tnode == l.sibs[i] then [CellOf(l.sibBuckets[i])]
    else if leftFirst then LeftToRight(ViewOf(l, local), i)
    else RightToLeft(ViewOf(l, local), i)
  }

  lemma BelowLeaf(l: Layout, local: Id, i: nat, tnode: TreeNode, leftFirst: bool)
    requires |l.spine| == |l.sibs| + 1 && |l.sibBuckets| == |l.sibs| < ID_BITS && i <= |l.sibs| && IsTree(l, local)
    requires tnode == l.spine[i] || (i < |l.sibs| && tnode == l.sibs[i])
    requires tnode.bucket != null
    ensures Below(l, local, i, tnode, leftFirst) == [CellOf(tnode.bucket)]
  {
    hide Bits, IsTree;
    NodeFacts(l, local, i, tnode);
  }

  /** The child of the path node of level i on the side of bit b is the path node of level i + 1 or the sibling. */
  function ChildLevel(local: Id, i: nat, rightChild: bool): nat
    requires i < ID_BITS
  {
    if IdBits(local)[i] == rightChild then i + 1 else i
  }

  lemma BelowInner(l: Layout, local: Id, i: nat, tnode: TreeNode, leftFirst: bool)
    requires |l.spine| == |l.sibs| + 1 && |l.sibBuckets| == |l.sibs| < ID_BITS && i < |l.sibs| && IsTree(l, local)
    requires tnode == l.spine[i]
    ensures tnode.left != null && tnode.right != null
    ensures var a, b := ChildLevel(local, i, false), ChildLevel(local, i, true);
      && (tnode.left == l.spine[a] || (a < |l.sibs| && tnode.left == l.sibs[a]))
      && (tnode.right == l.spine[b] || (b < |l.sibs| && tnode.right == l.sibs[b]))
      && (a == i ==> tnode.left != l.spine[i]) && (b == i ==> tnode.right != l.spine[i])
      && Below(l, local, i, tnode, leftFirst) ==
           if leftFirst then Below(l, local, a, tnode.left, leftFirst) + Below(l, local, b, tnode.right, leftFirst)
           else Below(l, local, b, tnode.right, leftFirst) + Below(l, local, a, tnode.left, leftFirst)
  {
    hide Bits, IsTree, CellsOf;
    NodeFacts(l, local, i, tnode);
    NodeFacts(l, local, i, l.sibs[i]);
    NodeFacts(l, local, i + 1, l.spine[i + 1]);
    if i + 1 < |l.sibs| {
      NodeFacts(l, local, i + 1, l.sibs[i + 1]);
    }
  }

  lemma GoodInOne(c: Cell, bad: set<DHTNode>)
    ensures GoodIn([c], bad) == Good(c.nodes, bad)
  {
  }

  method CollectDownwardLeftFirst(nodes: seq<DHTNode>, tnode: TreeNode, bad: set<DHTNode>,
                                  ghost l: Layout, ghost local: Id, ghost i: nat)
    returns (r: seq<DHTNode>)
    requires |l.spine| == |l.sibs| + 1 && |l.sibBuckets| == |l.sibs| < ID_BITS && i <= |l.sibs| && IsTree(l, local)
    requires tnode == l.spine[i] || (i < |l.sibs| && tnode == l.sibs[i])
    ensures Gathered(nodes, GoodIn(Below(l, local, i, tnode, true), bad), r)
    decreases |l.sibs| - i, tnode == l.spine[i]
  {
    hide Bits, GoodIn, Gathered, IsTree, CellsOf, Below;
    NodeFacts(l, local, i, tnode);
    if tnode.IsLeaf() {
      BelowLeaf(l, local, i, tnode, true);
      GoodInOne(CellOf(tnode.bucket), bad);
      r := CollectNodes(nodes, tnode.bucket, bad);
      GatheredAll(nodes, Good(tnode.bucket.nodes, bad));
    } else {
      ghost var leftAt, rightAt := ChildLevel(local, i, false), ChildLevel(local, i, true);
      BelowInner(l, local, i, tnode, true);
      ghost var g1, g2 := Below(l, local, leftAt, tnode.left, true), Below(l, local, rightAt, tnode.right, true);
      GoodInConcat(g1, g2, bad);
      var first := CollectDownwardLeftFirst(nodes, tnode.left, bad, l, local, leftAt);
      r := first;
      if |first| < K {
        r := CollectDownwardLeftFirst(first, tnode.right, bad, l, local, rightAt);
      }
      GatheredThen(nodes, GoodIn(g1, bad), first, GoodIn(g2, bad), r);
    }
  }

  lemma GatheredAll(nodes: seq<DHTNode>, g: seq<DHTNode>)
    ensures Gathered(nodes, g, nodes + g)
  {
  }

  method CollectDownwardRightFirst(nodes: seq<DHTNode>, tnode: TreeNode, bad: set<DHTNode>,
                                   ghost l: Layout, ghost local: Id, ghost i: nat)
    returns (r: seq<DHTNode>)
    requires |l.spine| == |l.sibs| + 1 && |l.sibBuckets| == |l.sibs| < ID_BITS && i <= |l.sibs| && IsTree(l, local)
    requires tnode == l.spine[i] || (i < |l.sibs| && tnode == l.sibs[i])
    ensures Gathered(nodes, GoodIn(Below(l, local, i, tnode, false), bad), r)
    decreases |l.sibs| - i, tnode == l.spine[i]
  {
    hide Bits, GoodIn, Gathered, IsTree, CellsOf, Below;
    NodeFacts(l, local, i, tnode);
    if tnode.IsLeaf() {
      BelowLeaf(l, local, i, tnode, false);
      GoodInOne(CellOf(tnode.bucket), bad);
      r := CollectNodes(nodes, tnode.bucket, bad);
      GatheredAll(nodes, Good(tnode.bucket.nodes, bad));
    } else {
      ghost var leftAt, rightAt := ChildLevel(local, i, false), ChildLevel(local, i, true);
      BelowInner(l, local, i, tnode, false);
      ghost var g1, g2 := Below(l, local, rightAt, tnode.right, false), Below(l, local, leftAt, tnode.left, false);
      GoodInConcat(g1, g2, bad);
      var first := CollectDownwardRightFirst(nodes, tnode.right, bad, l, local, rightAt);
      r := first;
      if |first| < K {
        r := CollectDownwardRightFirst(first, tnode.left, bad, l, local, leftAt);
      }
      GatheredThen(nodes, GoodIn(g1, bad), first, GoodIn(g2, bad), r);
    }
  }

  lemma UpwardStep(v: View, i: nat, done: seq<Cell>, j: nat, c: Cell)
    requires 0 < j <= i <= |v.sibs| && Upward(v, i) == done + Upward(v, j) && c == v.sibs[j - 1]
    ensures Upward(v, i) == (done + [c]) + Upward(v, j - 1)
  {
    assert done + ([c] + Upward(v, j - 1)) == (done + [c]) + Upward(v, j - 1);
  }

  lemma UpwardEnd(v: View)
    ensures Upward(v, 0) == []
  {
  }

  /** Every parent on the way up has a leaf as the other child, so its bucket can be read. */
  method CollectUpward(nodes: seq<DHTNode>, start: TreeNode, bad: set<DHTNode>, ghost l: Layout, ghost local: Id,
      ghost i: nat)
    returns (r: seq<DHTNode>)
    requires |l.spine| == |l.sibs| + 1 && |l.sibBuckets| == |l.sibs| < ID_BITS && i <= |l.sibs| && IsTree(l, local)
    requires start == l.spine[i]
    requires |nodes| < K
    ensures Gathered(nodes, GoodIn(Upward(ViewOf(l, local), i), bad), r)
  {
    hide Bits, GoodIn, Gathered, IsTree, CellsOf, Upward, Shape, Buckets, Good;
    RootFacts(l, local);
    r := nodes;
    var from := start;
    ghost var j: nat, done: seq<Cell> := i, [];
    ghost var v := ViewOf(l, local);
    assert Upward(v, i) == done + Upward(v, i);
    GatheredAll(nodes, []);
    GoodInNone(bad);
    assert nodes + [] == nodes;
    while true
      invariant j <= i && from == l.spine[j]
      invariant Upward(v, i) == done + Upward(v, j)
      invariant Gathered(nodes, GoodIn(done, bad), r)
      invariant |r| < K
      decreases j
    {
      if j > 0 {
        NodeFacts(l, local, j - 1, l.spine[j - 1]);
        NodeFacts(l, local, j - 1, l.sibs[j - 1]);
      }
      var parent := from.parent;
      if parent == null {
        break;
      }
      ghost var was := r;
      if parent.left == from {
        r := CollectNodes(r, parent.right.bucket, bad);
      } else {
        r := CollectNodes(r, parent.left.bucket, bad);
      }
      ghost var c := CellOf(l.sibBuckets[j - 1]);
      GoodInOne(c, bad);
      GoodInConcat(done, [c], bad);
      GatheredAll(was, Good(c.nodes, bad));
      GatheredThen(nodes, GoodIn(done, bad), was, Good(c.nodes, bad), r);
      UpwardStep(v, i, done, j, c);
      done := done + [c];
      from := parent;
      j := j - 1;
      if K <= |r| {
        break;
      }
    }
    UpwardEnd(v);
    GoodInNone(bad);
    assert Upward(v, i) == done + Upward(v, j);
    GoodInConcat(done, Upward(v, j), bad);
    GatheredLonger(nodes, GoodIn(done, bad), GoodIn(Upward(v, j), bad), r);
  }

  lemma GoodInNone(bad: set<DHTNode>)
    ensures GoodIn([], bad) == []
  {
  }

  lemma GatheredLonger(a: seq<DHTNode>, g1: seq<DHTNode>, g2: seq<DHTNode>, r: seq<DHTNode>)
    requires Gathered(a, g1, r)
    requires g2 == [] || |r| >= K
    ensures Gathered(a, g1 + g2, r)
  {
    assert a + (g1 + g2) == (a + g1) + g2;
  }

  method FindClosestKNodes(nodes: seq<DHTNode>, root: TreeNode, key: Id, bad: set<DHTNode>, ghost l: Layout,
      ghost local: Id)
    returns (r: seq<DHTNode>)
    requires |l.spine| == |l.sibs| + 1 && |l.sibBuckets| == |l.sibs| < ID_BITS && IsTree(l, local)
    requires root == l.spine[0]
    ensures |nodes| >= K ==> r == nodes
    ensures |nodes| < K ==>
              var v := ViewOf(l, local);
              r == Truncate(nodes + GoodIn(SearchOrder(v, Level(v, key, 0)), bad))
    ensures nodes == [] ==> r == Closest(ViewOf(l, local), key, bad)
  {
    hide Bits, GoodIn, Gathered, IsTree, CellsOf, SearchOrder, LeftToRight, RightToLeft, Upward, Level;
    if K <= |nodes| {
      return nodes;
    }
    RootFacts(l, local);
    ghost var v := ViewOf(l, local);
    ghost var d := Level(v, key, 0);
    var leaf := FindTreeNodeFor(root, key, l, local, 0);
    NodeFacts(l, local, d, leaf);
    if leaf == root {
      r := CollectNodes(nodes, leaf.bucket, bad);
      GoodInOne(v.own, bad);
      LeafIsRoot(l, local, d, leaf);
      GatheredAll(nodes, Good(v.own.nodes, bad));
    } else {
      ghost var i := if d == |l.sibs| then d - 1 else d;
      NodeFacts(l, local, i, l.spine[i]);
      var parent := leaf.parent;
      ghost var down := Below(l, local, i, parent, parent.left == leaf);
      SearchOrderFromParent(v, d, i, parent.left == leaf);
      var first;
      if parent.left == leaf {
        first := CollectDownwardLeftFirst(nodes, parent, bad, l, local, i);
      } else {
        first := CollectDownwardRightFirst(nodes, parent, bad, l, local, i);
      }
      r := first;
      if |first| < K {
        r := CollectUpward(first, parent, bad, l, local, i);
      }
      GoodInConcat(down, Upward(v, i), bad);
      GatheredThen(nodes, GoodIn(down, bad), first, GoodIn(Upward(v, i), bad), r);
    }
    GatheredTruncated(nodes, GoodIn(SearchOrder(v, d), bad), r);
    if K < |r| {
      r := r[..K];
    }
    assert [] + GoodIn(SearchOrder(v, d), bad) == GoodIn(SearchOrder(v, d), bad);
  }

  lemma LeafIsRoot(l: Layout, local: Id, d: nat, leaf: TreeNode)
    requires IsTree(l, local) && d <= |l.sibs| && leaf == LeafAt(l, d) == l.spine[0]
    ensures d == 0 == |l.sibs|
    ensures SearchOrder(ViewOf(l, local), d) == [CellOf(l.own)]
  {
    hide Bits, InRange, Block;
    var v := ViewOf(l, local);
    assert Upward(v, d) == [];
    assert SearchOrder(v, d) == [v.own] + [];
  }

  /** Going down from the key leaf's parent, the leaf first, and then up visits the search order. */
  lemma SearchOrderFromParent(v: View, d: nat, i: nat, leftFirst: bool)
    requires |v.sibs| < ID_BITS && d <= |v.sibs| && |v.sibs| > 0
    requires i == if d == |v.sibs| then d - 1 else d
    requires leftFirst == (if d == |v.sibs| then !IdBits(v.local)[i] else IdBits(v.local)[i])
    ensures SearchOrder(v, d) == (if leftFirst then LeftToRight(v, i) else RightToLeft(v, i)) + Upward(v, i)
  {
    hide Bits;
    if d == |v.sibs| {
      assert LeftToRight(v, d) == [v.own] == RightToLeft(v, d);
      assert [v.own] + Upward(v, d) == [v.own] + [v.sibs[i]] + Upward(v, i);
    }
  }

  lemma CellsOfSnoc(a: seq<DHTBucket>, b: DHTBucket)
    ensures CellsOf(a + [b]) == CellsOf(a) + [CellOf(b)]
  {
  }

  /** enumerateBucket: appends the buckets from left to right. */
  method EnumerateBucket(buckets: seq<DHTBucket>, root: TreeNode, ghost l: Layout, ghost local: Id, ghost i: nat)
    returns (r: seq<DHTBucket>)
    requires |l.spine| == |l.sibs| + 1 && |l.sibBuckets| == |l.sibs| < ID_BITS && i <= |l.sibs| && IsTree(l, local)
    requires root == l.spine[i] || (i < |l.sibs| && root == l.sibs[i])
    ensures buckets <= r && CellsOf(r) == CellsOf(buckets) + Below(l, local, i, root, true)
    ensures forall b | b in r :: b in buckets || b in l.sibBuckets || b == l.own
    decreases |l.sibs| - i, root == l.spine[i]
  {
    hide Bits, IsTree, Below, CellsOf;
    NodeFacts(l, local, i, root);
    if root.IsLeaf() {
      BelowLeaf(l, local, i, root, true);
      r := buckets + [root.bucket];
      CellsOfSnoc(buckets, root.bucket);
    } else {
      BelowInner(l, local, i, root, true);
      var first := EnumerateBucket(buckets, root.left, l, local, ChildLevel(local, i, false));
      r := EnumerateBucket(first, root.right, l, local, ChildLevel(local, i, true));
    }
  }
}
