/**
 * The routing tree seen as a value. Only the bucket of the local identifier is ever split, so a tree
 * that was split n times is a path of n inner nodes along the local identifier: at level i it has left
 * behind one sibling bucket, whose prefix is the first i local bits and the opposite of local bit i.
 */
module RoutingView {
  import opened Bytes
  import opened IdSpace
  import opened DhtBucket

  datatype Cell = Cell(prefix: seq<bool>, nodes: seq<DHTNode>)

  datatype View = View(local: Id, sibs: seq<Cell>, own: Cell)

  function SibPrefix(local: Id, i: nat): seq<bool>
    requires i < ID_BITS
  {
    IdBits(local)[..i] + [!IdBits(local)[i]]
  }

  ghost predicate CellOk(c: Cell) {
    |c.nodes| <= K && forall n :: n in c.nodes ==> HasPrefix(n.id, c.prefix)
  }

  ghost predicate WellFormed(v: View) {
    && |v.sibs| < ID_BITS
    && v.own.prefix == IdBits(v.local)[..|v.sibs|]
    && CellOk(v.own)
    && (forall i :: 0 <= i < |v.sibs| ==> v.sibs[i].prefix == SibPrefix(v.local, i) && CellOk(v.sibs[i]))
  }

  ghost predicate Distinct(v: View) {
    DistinctIds(v.own.nodes) && forall i :: 0 <= i < |v.sibs| ==> DistinctIds(v.sibs[i].nodes)
  }

  /** Node n is in some bucket. */
  ghost predicate Holds(v: View, n: DHTNode) {
    n in v.own.nodes || exists i :: 0 <= i < |v.sibs| && n in v.sibs[i].nodes
  }

  // ----- the orders in which the source visits buckets -----

  /** enumerateBucket and collectDownwardLeftFirst below level i. */
  function LeftToRight(v: View, i: nat): (r: seq<Cell>)
    requires |v.sibs| < ID_BITS && i <= |v.sibs|
    ensures |r| == |v.sibs| - i + 1
    decreases |v.sibs| - i
  {
    if i == |v.sibs| then [v.own]
    else if IdBits(v.local)[i] then [v.sibs[i]] + LeftToRight(v, i + 1)
    else LeftToRight(v, i + 1) + [v.sibs[i]]
  }

  /** collectDownwardRightFirst below level i. */
  function RightToLeft(v: View, i: nat): (r: seq<Cell>)
    requires |v.sibs| < ID_BITS && i <= |v.sibs|
    ensures |r| == |v.sibs| - i + 1
    decreases |v.sibs| - i
  {
    if i == |v.sibs| then [v.own]
    else if IdBits(v.local)[i] then RightToLeft(v, i + 1) + [v.sibs[i]]
    else [v.sibs[i]] + RightToLeft(v, i + 1)
  }

  /** collectUpward from level i. */
  function Upward(v: View, i: nat): (r: seq<Cell>)
    requires i <= |v.sibs|
    ensures |r| == i
  {
    if i == 0 then [] else [v.sibs[i - 1]] + Upward(v, i - 1)
  }

  /** The level at which key leaves the local path, or the number of levels if it stays on it. */
  function Level(v: View, key: Id, i: nat): (d: nat)
    requires |v.sibs| < ID_BITS && i <= |v.sibs|
    ensures i <= d <= |v.sibs|
    decreases |v.sibs| - i
  {
    if i < |v.sibs| && IdBits(key)[i] == IdBits(v.local)[i] then Level(v, key, i + 1) else i
  }

  function CellFor(v: View, key: Id): Cell
    requires |v.sibs| < ID_BITS
  {
    var d := Level(v, key, 0);
    if d == |v.sibs| then v.own else v.sibs[d]
  }

  /** The order in which findClosestKNodes visits the buckets for a key leaving the path at level d. */
  function SearchOrder(v: View, d: nat): (r: seq<Cell>)
    requires |v.sibs| < ID_BITS && d <= |v.sibs|
    ensures |r| == |v.sibs| + 1
  {
    if d == |v.sibs| then [v.own] + Upward(v, d)
    else [v.sibs[d]] + (if IdBits(v.local)[d] then LeftToRight(v, d + 1) else RightToLeft(v, d + 1)) + Upward(v, d)
  }

  function GoodIn(cells: seq<Cell>, bad: set<DHTNode>): seq<DHTNode> {
    if cells == [] then [] else Good(cells[0].nodes, bad) + GoodIn(cells[1..], bad)
  }

  function Truncate(nodes: seq<DHTNode>): seq<DHTNode> {
    if |nodes| <= K then nodes else nodes[..K]
  }

  /** What findClosestKNodes returns on an empty list. */
  function Closest(v: View, key: Id, bad: set<DHTNode>): seq<DHTNode>
    requires |v.sibs| < ID_BITS
  {
    Truncate(GoodIn(SearchOrder(v, Level(v, key, 0)), bad))
  }

  // ----- where a key belongs -----

  lemma {:induction false} LevelAgrees(v: View, key: Id, i: nat)
    requires |v.sibs| < ID_BITS && i <= |v.sibs| && Agree(key, v.local, i)
    ensures Agree(key, v.local, Level(v, key, i))
    ensures Level(v, key, i) < |v.sibs| ==> IdBits(key)[Level(v, key, i)] != IdBits(v.local)[Level(v, key, i)]
    decreases |v.sibs| - i
  {
    hide Bits;
    if i < |v.sibs| && IdBits(key)[i] == IdBits(v.local)[i] {
      assert IdBits(key)[..i + 1] == IdBits(key)[..i] + [IdBits(key)[i]];
      assert IdBits(v.local)[..i + 1] == IdBits(v.local)[..i] + [IdBits(v.local)[i]];
      LevelAgrees(v, key, i + 1);
    }
  }

  /** The search ends at the bucket whose prefix the key carries, and no other bucket's prefix fits it. */
  lemma CellForIsUnique(v: View, key: Id)
    requires WellFormed(v)
    ensures HasPrefix(key, v.own.prefix) <==> Level(v, key, 0) == |v.sibs|
    ensures forall i :: 0 <= i < |v.sibs| ==> (HasPrefix(key, v.sibs[i].prefix) <==> Level(v, key, 0) == i)
    ensures HasPrefix(key, CellFor(v, key).prefix)
  {
    hide Bits, CellOk;
    var d := Level(v, key, 0);
    LevelAgrees(v, key, 0);
    var k, l := IdBits(key), IdBits(v.local);
    if d < |v.sibs| {
      assert k[..|v.sibs|][d] != l[..|v.sibs|][d];
    }
    forall i | 0 <= i < |v.sibs|
      ensures HasPrefix(key, v.sibs[i].prefix) <==> d == i
    {
      PrefixExtends(key, l[..i]);
      assert i < d ==> k[..d][i] == l[..d][i] && k[..d][..i] == k[..i] && l[..d][..i] == l[..i];
      assert d < i ==> k[..i][d] != l[..i][d];
    }
  }

  /** How many leading bits the members of each visited bucket share with the key. */
  lemma SibAgreement(v: View, key: Id, n: DHTNode, j: nat, q: nat)
    requires WellFormed(v) && j < |v.sibs| && n in v.sibs[j].nodes
    requires q <= ID_BITS
    ensures j < Level(v, key, 0) ==> (Agree(key, n.id, q) <==> q <= j)
    ensures j == Level(v, key, 0) && q <= j + 1 ==> Agree(key, n.id, q)
    ensures j > Level(v, key, 0) ==> (Agree(key, n.id, q) <==> q <= Level(v, key, 0))
  {
    hide Bits, Level;
    var d := Level(v, key, 0);
    LevelAgrees(v, key, 0);
    var k, l, b := IdBits(key), IdBits(v.local), IdBits(n.id);
    PrefixExtends(n.id, l[..j]);
    assert b[..j] == l[..j] && b[j] != l[j];
    AgreeBitwise(key, n.id, q);
    AgreeBitwise(key, v.local, d);
    AgreeBitwise(n.id, v.local, j);
  }

  lemma OwnAgreement(v: View, key: Id, n: DHTNode, q: nat)
    requires WellFormed(v) && n in v.own.nodes
    requires q <= ID_BITS
    ensures Level(v, key, 0) == |v.sibs| && q <= |v.sibs| ==> Agree(key, n.id, q)
    ensures Level(v, key, 0) < |v.sibs| ==> (Agree(key, n.id, q) <==> q <= Level(v, key, 0))
  {
    hide Bits, Level;
    var d := Level(v, key, 0);
    LevelAgrees(v, key, 0);
    AgreeBitwise(key, n.id, q);
    AgreeBitwise(key, v.local, d);
    AgreeBitwise(n.id, v.local, |v.sibs|);
  }

  // ----- good nodes of a list of cells -----

  lemma GoodInConcat(a: seq<Cell>, b: seq<Cell>, bad: set<DHTNode>)
    ensures GoodIn(a + b, bad) == GoodIn(a, bad) + GoodIn(b, bad)
  {
    if a == [] {
      assert a + b == b;
    } else {
      assert (a + b)[1..] == a[1..] + b;
      GoodInConcat(a[1..], b, bad);
    }
  }

  lemma GoodInMembers(cells: seq<Cell>, bad: set<DHTNode>)
    ensures forall n :: n in GoodIn(cells, bad) <==> n !in bad && exists i :: 0 <= i < |cells| && n in cells[i].nodes
  {
    if cells != [] {
      GoodInMembers(cells[1..], bad);
      GoodMembers(cells[0].nodes, bad);
      forall n
        ensures (exists i :: 0 <= i < |cells| && n in cells[i].nodes)
            <==> n in cells[0].nodes || exists i :: 0 <= i < |cells[1..]| && n in cells[1..][i].nodes
      {
        if i :| 0 <= i < |cells| && n in cells[i].nodes {
          assert i > 0 ==> n in cells[1..][i - 1].nodes;
        }
        if i :| 0 <= i < |cells[1..]| && n in cells[1..][i].nodes {
          assert n in cells[i + 1].nodes;
        }
      }
    }
  }
}
