/** Remote nodes of the DHT and the K-buckets that hold them. */
module DhtBucket {
  import opened Bytes
  import opened IdSpace

  const K: nat := 8
  const CACHE_SIZE: nat := 2

  /**
   * A shared node object: its identifier, and handle telling apart objects with equal identifiers.
   * The condition counter of a node changes behind the buckets' back, so the operations that ask
   * isBad() take the set of objects that are bad at that moment.
   */
  datatype DHTNode = DHTNode(id: Id, handle: nat)

  // ----- node lists -----

  /** No two nodes of the list carry the same identifier. */
  ghost predicate DistinctIds(nodes: seq<DHTNode>) {
    forall i, j :: 0 <= i < j < |nodes| ==> nodes[i].id != nodes[j].id
  }

  predicate HasId(nodes: seq<DHTNode>, id: Id) {
    exists n :: n in nodes && n.id == id
  }

  /** The nodes of a list with the given prefix, in order. */
  function WithPrefix(nodes: seq<DHTNode>, prefix: seq<bool>): (r: seq<DHTNode>)
    ensures |r| <= |nodes|
  {
    if nodes == [] then []
    else
      var last := nodes[|nodes| - 1];
      WithPrefix(nodes[..|nodes| - 1], prefix) + if HasPrefix(last.id, prefix) then [last] else []
  }

  /** The nodes of a list that are not bad, in order. */
  function Good(nodes: seq<DHTNode>, bad: set<DHTNode>): (r: seq<DHTNode>)
    ensures |r| <= |nodes|
  {
    if nodes == [] then []
    else
      var last := nodes[|nodes| - 1];
      Good(nodes[..|nodes| - 1], bad) + if last in bad then [] else [last]
  }

  lemma WithPrefixMembers(nodes: seq<DHTNode>, prefix: seq<bool>)
    ensures forall n :: n in WithPrefix(nodes, prefix) <==> n in nodes && HasPrefix(n.id, prefix)
  {
    hide HasPrefix;
    if nodes != [] {
      assert nodes == nodes[..|nodes| - 1] + [nodes[|nodes| - 1]];
      WithPrefixMembers(nodes[..|nodes| - 1], prefix);
    }
  }

  lemma GoodMembers(nodes: seq<DHTNode>, bad: set<DHTNode>)
    ensures forall n :: n in Good(nodes, bad) <==> n in nodes && n !in bad
  {
    if nodes != [] {
      assert nodes == nodes[..|nodes| - 1] + [nodes[|nodes| - 1]];
      GoodMembers(nodes[..|nodes| - 1], bad);
    }
  }

  lemma WithPrefixDistinct(nodes: seq<DHTNode>, prefix: seq<bool>)
    requires DistinctIds(nodes)
    ensures DistinctIds(WithPrefix(nodes, prefix))
  {
    hide HasPrefix;
    if nodes != [] {
      WithPrefixDistinct(nodes[..|nodes| - 1], prefix);
      WithPrefixMembers(nodes[..|nodes| - 1], prefix);
      DistinctSnoc(WithPrefix(nodes[..|nodes| - 1], prefix), nodes);
    }
  }

  lemma DistinctSnoc(w: seq<DHTNode>, nodes: seq<DHTNode>)
    requires nodes != [] && DistinctIds(nodes) && DistinctIds(w)
    requires forall n :: n in w ==> n in nodes[..|nodes| - 1]
    ensures DistinctIds(w + [nodes[|nodes| - 1]])
  {
    forall i | 0 <= i < |w| ensures w[i].id != nodes[|nodes| - 1].id {
      assert w[i] in w;
    }
  }

  lemma GoodConcat(a: seq<DHTNode>, b: seq<DHTNode>, bad: set<DHTNode>)
    ensures Good(a + b, bad) == Good(a, bad) + Good(b, bad)
  {
    if b == [] {
      assert a + b == a;
    } else {
      assert (a + b)[..|a + b| - 1] == a + b[..|b| - 1];
      GoodConcat(a, b[..|b| - 1], bad);
    }
  }

  lemma GoodDistinct(nodes: seq<DHTNode>, bad: set<DHTNode>)
    requires DistinctIds(nodes)
    ensures DistinctIds(Good(nodes, bad))
  {
    if nodes != [] {
      GoodDistinct(nodes[..|nodes| - 1], bad);
      GoodMembers(nodes[..|nodes| - 1], bad);
      DistinctSnoc(Good(nodes[..|nodes| - 1], bad), nodes);
    }
  }

  /** The two halves of a list by one more prefix bit hold every node once. */
  lemma HalvesPartition(nodes: seq<DHTNode>, prefix: seq<bool>)
    requires |prefix| < ID_BITS
    requires forall n :: n in nodes ==> HasPrefix(n.id, prefix)
    ensures multiset(WithPrefix(nodes, prefix + [false])) + multiset(WithPrefix(nodes, prefix + [true]))
      == multiset(nodes)
  {
    hide HasPrefix, WithPrefix;
    if nodes == [] {
      assert WithPrefix([], prefix + [false]) == [] && WithPrefix([], prefix + [true]) == [] by { WithPrefixOfNone(); }
    } else {
      var i := |nodes| - 1;
      HalvesPartition(nodes[..i], prefix);
      assert nodes == nodes[..i] + [nodes[i]] && nodes[..i + 1] == nodes;
      PrefixExtends(nodes[i].id, prefix);
      WithPrefixStep(nodes, i, prefix + [false]);
      WithPrefixStep(nodes, i, prefix + [true]);
    }
  }

  lemma WithPrefixOfNone()
    ensures forall prefix :: WithPrefix([], prefix) == []
  {
  }

  /** A half keeps the order: its nodes stand at increasing positions of the list. */
  lemma WithPrefixKeepsOrder(nodes: seq<DHTNode>, prefix: seq<bool>) returns (at: seq<nat>)
    ensures |at| == |WithPrefix(nodes, prefix)| && forall k :: 0 <= k < |at| ==> at[k] < |nodes|
    ensures forall k :: 0 <= k < |at| ==> WithPrefix(nodes, prefix)[k] == nodes[at[k]]
    ensures forall j, k :: 0 <= j < k < |at| ==> at[j] < at[k]
  {
    hide HasPrefix;
    if nodes == [] {
      at := [];
    } else {
      var i := |nodes| - 1;
      at := WithPrefixKeepsOrder(nodes[..i], prefix);
      if HasPrefix(nodes[i].id, prefix) {
        at := at + [i];
      }
    }
  }

  /** std::find_if with derefEqual: the first node with the identifier, or the length. */
  method FindId(nodes: seq<DHTNode>, id: Id) returns (i: nat)
    ensures i <= |nodes|
    ensures forall j :: 0 <= j < i ==> nodes[j].id != id
    ensures i < |nodes| ==> nodes[i].id == id
    ensures i < |nodes| <==> HasId(nodes, id)
  {
    i := 0;
    while i < |nodes| && nodes[i].id != id
      invariant i <= |nodes|
      invariant forall j :: 0 <= j < i ==> nodes[j].id != id
    {
      i := i + 1;
    }
  }

  /** now is was without position i (if that is a position), with node at the end. */
  ghost predicate AddedAt(was: seq<DHTNode>, now: seq<DHTNode>, node: DHTNode, i: nat) {
    i <= |was| && now == (if i == |was| then was else was[..i] + was[i + 1..]) + [node]
  }

  /** now is was with its first node of the given identifier taken out and node put at the end. */
  ghost predicate Swapped(was: seq<DHTNode>, now: seq<DHTNode>, id: Id, node: DHTNode) {
    exists i :: 0 <= i < |was| && was[i].id == id && (forall j :: 0 <= j < i ==> was[j].id != id)
        && AddedAt(was, now, node, i)
  }

  /** What addNode does to a node list, and what it answers. */
  ghost predicate AddOutcome(was: seq<DHTNode>, now: seq<DHTNode>, node: DHTNode, bad: set<DHTNode>, ok: bool) {
    if HasId(was, node.id) then ok && Swapped(was, now, node.id, node)
    else if |was| < K then ok && now == was + [node]
    else if was[0] in bad then ok && now == was[1..] + [node]
    else !ok && now == was
  }

  /** What a bucket filled from list holds: each identifier of the list, and the list itself if it repeats none. */
  ghost predicate Sieved(nodes: seq<DHTNode>, list: seq<DHTNode>) {
    && (DistinctIds(list) ==> nodes == list)
    && (forall id :: HasId(nodes, id) <==> HasId(list, id))
    && |nodes| <= |list|
  }

  /** The replacement cache with one more node: the newest in front, at most two. */
  function Cached(node: DHTNode, cache: seq<DHTNode>): (r: seq<DHTNode>)
    ensures [node] <= r <= [node] + cache && |r| <= 2
    ensures |cache| >= 1 ==> |r| == 2
  {
    [node] + if |cache| < CACHE_SIZE then cache else cache[..CACHE_SIZE - 1]
  }

  lemma WithPrefixStep(nodes: seq<DHTNode>, i: nat, prefix: seq<bool>)
    requires i < |nodes|
    ensures WithPrefix(nodes[..i + 1], prefix)
         == if HasPrefix(nodes[i].id, prefix)
             then WithPrefix(nodes[..i], prefix) + [nodes[i]] else WithPrefix(nodes[..i], prefix)
    ensures |WithPrefix(nodes[..i], prefix)| <= i
  {
    assert nodes[..i + 1][..i] == nodes[..i];
  }

  lemma SievedStep(was: seq<DHTNode>, now: seq<DHTNode>, list: seq<DHTNode>, node: DHTNode, bad: set<DHTNode>, ok: bool)
    requires Sieved(was, list)
    requires AddOutcome(was, now, node, bad, ok) && |list| < K
    ensures ok && Sieved(now, list + [node])
  {
    hide DistinctIds, HasId, AddedAt;
    var list' := list + [node];
    if DistinctIds(list') {
      PrefixDistinct(list, node);
    }
    var i := |was|;
    if HasId(was, node.id) {
      i :| 0 <= i < |was| && was[i].id == node.id && AddedAt(was, now, node, i);
      AddedIds(was, now, node, i);
    } else {
      HasIdSnoc(was, node);
    }
    HasIdSnoc(list, node);
  }

  lemma PrefixDistinct(list: seq<DHTNode>, node: DHTNode)
    requires DistinctIds(list + [node])
    ensures DistinctIds(list) && !HasId(list, node.id)
  {
    var list' := list + [node];
    assert forall i :: 0 <= i < |list| ==> list[i] == list'[i] && list'[i].id != list'[|list|].id;
  }

  lemma HasIdSnoc(list: seq<DHTNode>, node: DHTNode)
    ensures forall id :: HasId(list + [node], id) <==> HasId(list, id) || id == node.id
  {
    forall id ensures HasId(list + [node], id) <==> HasId(list, id) || id == node.id {
      assert node in list + [node];
    }
  }

  lemma AddedIds(was: seq<DHTNode>, now: seq<DHTNode>, node: DHTNode, i: nat)
    requires i < |was| && was[i].id == node.id && AddedAt(was, now, node, i)
    ensures |now| == |was| && forall id :: HasId(now, id) <==> HasId(was, id) || id == node.id
  {
    assert was == was[..i] + [was[i]] + was[i + 1..];
    forall id ensures HasId(now, id) <==> HasId(was, id) || id == node.id {
      assert node in now;
    }
  }

  class DHTBucket {
    var prefixLength: nat
    var min: Id
    var max: Id
    const localNode: DHTNode
    var nodes: seq<DHTNode>
    var cachedNodes: seq<DHTNode>
    ghost var prefix: seq<bool>

    /** The bucket covers a prefix block and holds at most K nodes, all of that block. */
    ghost predicate Valid()
      reads this
    {
      && prefixLength == |prefix| < ID_BITS
      && Block(min, max, prefix)
      && |nodes| <= K
      && (forall n :: n in nodes ==> HasPrefix(n.id, prefix))
      && |cachedNodes| <= CACHE_SIZE
      && (forall n :: n in cachedNodes ==> HasPrefix(n.id, prefix))
    }

    constructor Whole(localNode: DHTNode)
      ensures Valid() && prefix == [] && nodes == [] && cachedNodes == [] && this.localNode == localNode
    {
      hide Block, Bits;
      prefixLength, min, max := 0, ZERO, ONES;
      this.localNode, nodes, cachedNodes, prefix := localNode, [], [], [];
      new;
      WholeIsBlock();
    }

    constructor (prefixLength: nat, max: Id, min: Id, localNode: DHTNode, ghost prefix: seq<bool>)
      requires prefixLength == |prefix| < ID_BITS && Block(min, max, prefix)
      ensures Valid() && this.prefix == prefix && this.min == min && this.max == max
      ensures nodes == [] && cachedNodes == [] && this.localNode == localNode
    {
      this.prefixLength, this.min, this.max, this.localNode := prefixLength, min, max, localNode;
      nodes, cachedNodes, this.prefix := [], [], prefix;
    }

    predicate Covers(id: Id)
      reads this
    {
      InRange(id, max, min)
    }

    /** The range test decides the prefix, and so the block. */
    lemma CoversIsPrefix(id: Id)
      requires Valid()
      ensures Covers(id) <==> HasPrefix(id, prefix)
    {
      RangeIsBlock(id, min, max, prefix);
    }

    /** The caller has to see to it that the node belongs into the bucket. */
    method AddNode(node: DHTNode, bad: set<DHTNode>) returns (ok: bool)
      requires Valid()
      modifies this`nodes
      ensures HasPrefix(node.id, prefix) ==> Valid()
      ensures AddOutcome(old(nodes), nodes, node, bad, ok)
    {
      var i := FindId(nodes, node.id);
      if i == |nodes| {
        if |nodes| < K {
          nodes := nodes + [node];
          ok := true;
        } else if nodes[0] in bad {
          nodes := nodes[1..] + [node];
          ok := true;
        } else {
          ok := false;
        }
      } else {
        nodes := nodes[..i] + nodes[i + 1..] + [node];
        assert AddedAt(old(nodes), nodes, node, i);
        ok := true;
      }
    }

    method CacheNode(node: DHTNode)
      requires Valid()
      modifies this`cachedNodes
      ensures HasPrefix(node.id, prefix) ==> Valid()
      ensures cachedNodes == Cached(node, old(cachedNodes))
    {
      cachedNodes := [node] + cachedNodes;
      if |cachedNodes| > CACHE_SIZE {
        cachedNodes := cachedNodes[..CACHE_SIZE];
      }
    }

    method DropNode(node: DHTNode)
      requires Valid()
      modifies this`nodes, this`cachedNodes
      ensures Valid()
      ensures old(cachedNodes) == [] || !HasId(old(nodes), node.id) ==>
        nodes == old(nodes) && cachedNodes == old(cachedNodes)
      ensures old(cachedNodes) != [] && HasId(old(nodes), node.id) ==>
                cachedNodes == old(cachedNodes)[1..] && Swapped(old(nodes), nodes, node.id, old(cachedNodes)[0])
    {
      if cachedNodes != [] {
        var i := FindId(nodes, node.id);
        if i != |nodes| {
          ghost var front := cachedNodes[0];
          nodes := nodes[..i] + nodes[i + 1..];
          nodes := nodes + [cachedNodes[0]];
          cachedNodes := cachedNodes[1..];
          assert AddedAt(old(nodes), nodes, front, i);
        }
      }
    }

    method MoveToTail(node: DHTNode)
      requires Valid()
      modifies this`nodes
      ensures Valid()
      ensures !HasId(old(nodes), node.id) ==> nodes == old(nodes)
      ensures HasId(old(nodes), node.id) ==> Swapped(old(nodes), nodes, node.id, node)
    {
      var i := FindId(nodes, node.id);
      if i != |nodes| {
        nodes := nodes[..i] + nodes[i + 1..];
        nodes := nodes + [node];
        assert AddedAt(old(nodes), nodes, node, i);
      }
    }

    predicate SplitAllowed()
      reads this
    {
      prefixLength < ID_BITS - 1 && Covers(localNode.id)
    }

    /**
     * Cuts the bucket in two. The new bucket takes the lower half of the range, this one keeps the
     * upper half. The call of addNode stands inside an assert in the source; it is modelled as executed.
     */
    method Split(bad: set<DHTNode>) returns (r: DHTBucket)
      requires Valid() && SplitAllowed()
      modifies this`nodes, this`min, this`prefixLength, this`prefix
      ensures old(cachedNodes) == [] ==> Valid()
      ensures fresh(r) && r.localNode == localNode && r.cachedNodes == []
      ensures r.prefix == old(prefix) + [false] && prefix == old(prefix) + [true]
      ensures r.min == old(min) && max == old(max)
      ensures prefixLength == |prefix| && Block(min, max, prefix)
      ensures r.Valid()
      ensures nodes == WithPrefix(old(nodes), prefix)
      ensures Sieved(r.nodes, WithPrefix(old(nodes), r.prefix))
      ensures cachedNodes == old(cachedNodes)
    {
      hide Bits, FlipBit, InRange, Block, HasPrefix;
      var rMax := FlipBit(max, prefixLength);
      var rMin := min;
      HalvesAreBlocks(min, max, prefix);
      ghost var p := prefix;
      min := FlipBit(min, prefixLength);
      prefixLength := prefixLength + 1;
      r := new DHTBucket(prefixLength, rMax, rMin, localNode, p + [false]);
      prefix := p + [true];

      WithPrefixMembers(nodes, prefix);
      nodes := Distribute(r, nodes, p, bad);
    }

    method GetGoodNodes(goodNodes: seq<DHTNode>, bad: set<DHTNode>) returns (r: seq<DHTNode>)
      ensures r == Good(goodNodes + nodes, bad)
    {
      r := EraseBad(goodNodes + nodes, bad);
    }
  }

  lemma NothingSieved(nodes: seq<DHTNode>)
    ensures nodes[..0] == [] && Sieved([], []) && forall prefix :: WithPrefix([], prefix) == []
  {
  }

  lemma InOneHalf(node: DHTNode, prefix: seq<bool>)
    requires |prefix| < ID_BITS && HasPrefix(node.id, prefix)
    ensures HasPrefix(node.id, prefix + [false]) <==> !HasPrefix(node.id, prefix + [true])
  {
    hide Bits;
    PrefixExtends(node.id, prefix);
  }

  /** The loop of split: elements of the lower half go to r, the others are returned. */
  method Distribute(r: DHTBucket, nodes: seq<DHTNode>, ghost prefix: seq<bool>, bad: set<DHTNode>)
    returns (lNodes: seq<DHTNode>)
    requires r.Valid() && r.prefix == prefix + [false] && r.nodes == []
    requires |prefix| < ID_BITS && |nodes| <= K && forall n :: n in nodes ==> HasPrefix(n.id, prefix)
    modifies r`nodes
    ensures r.Valid()
    ensures lNodes == WithPrefix(nodes, prefix + [true])
    ensures Sieved(r.nodes, WithPrefix(nodes, prefix + [false]))
  {
    hide *;
    lNodes := [];
    var i := 0;
    NothingSieved(nodes);
    while i < |nodes|
      invariant 0 <= i <= |nodes|
      invariant r.Valid()
      invariant lNodes == WithPrefix(nodes[..i], prefix + [true])
      invariant Sieved(r.nodes, WithPrefix(nodes[..i], prefix + [false]))
    {
      var elem := nodes[i];
      WithPrefixStep(nodes, i, prefix + [false]);
      WithPrefixStep(nodes, i, prefix + [true]);
      InOneHalf(elem, prefix);
      r.CoversIsPrefix(elem.id);
      if r.Covers(elem.id) {
        ghost var was := r.nodes;
        var added := r.AddNode(elem, bad);
        SievedStep(was, r.nodes, WithPrefix(nodes[..i], prefix + [false]), elem, bad, added);
        assert added;
      } else {
        lNodes := lNodes + [elem];
      }
      i := i + 1;
    }
    assert nodes[..|nodes|] == nodes;
  }

  /** std::erase_if(nodes, isBad). */
  method EraseBad(nodes: seq<DHTNode>, bad: set<DHTNode>) returns (r: seq<DHTNode>)
    ensures r == Good(nodes, bad)
  {
    r := [];
    var i := 0;
    while i < |nodes|
      invariant i <= |nodes|
      invariant r == Good(nodes[..i], bad)
    {
      assert nodes[..i + 1][..i] == nodes[..i];
      if nodes[i] !in bad {
        r := r + [nodes[i]];
      }
      i := i + 1;
    }
    assert nodes[..|nodes|] == nodes;
  }

  const ZERO: Id := [0, 0, 0, 0, 0, 0, 0, 0, 0, 0, 0, 0, 0, 0, 0, 0, 0, 0, 0, 0]
  const ONES: Id := [255, 255, 255, 255, 255, 255, 255, 255, 255, 255, 255, 255, 255, 255, 255, 255, 255, 255, 255, 255]

  lemma WholeIsBlock()
    ensures Block(ZERO, ONES, [])
  {
    hide BitOf, Bits;
    forall i: nat | i < ID_BITS ensures !IdBits(ZERO)[i] && IdBits(ONES)[i] {
      BitsAreTests(ZERO, i);
      BitsAreTests(ONES, i);
      ByteExtremes(i % 8);
      assert ZERO[i / 8] == 0 && ONES[i / 8] == 255;
    }
  }

  lemma ByteExtremes(k: nat)
    requires k < 8
    ensures !BitOf(0, k) && BitOf(255, k)
  {
  }
}
