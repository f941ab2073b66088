/**
 * The iterative lookup: ask the closest nodes known for closer ones, a few at a time, and keep the best.
 * The dispatcher is a multiset of the nodes that have been asked and have neither answered nor timed out.
 */
module DhtNodeLookup {
  import opened Bytes
  import opened IdSpace
  import opened Sequences
  import DhtBucket

  const ALPHA: nat := 3
  const K: nat := DhtBucket.K

  datatype Node = Node(id: Id, address: string, port: int)
  {
    predicate SameEndpoint(other: Node) {
      address == other.address && port == other.port
    }
  }

  datatype Entry = Entry(node: Node, used: bool)

  // ----- the order by distance -----

  /** a is at most as far from the target as b: DHTIDCloser. */
  predicate Near(target: Id, a: Id, b: Id) {
    XorCloser(target, a, b)
  }

  lemma LessOrder(x: bv8, y: bv8, z: bv8)
    ensures !Less(x, x)
    ensures Less(x, y) ==> !Less(y, x)
    ensures Less(x, y) || Less(y, x) || x == y
    ensures Less(x, y) && Less(y, z) ==> Less(x, z)
  {
  }

  lemma {:induction false} NearTotal(key: seq<bv8>, a: seq<bv8>, b: seq<bv8>)
    requires |key| == |a| == |b|
    ensures XorCloser(key, a, b) || XorCloser(key, b, a)
    ensures XorCloser(key, a, b) && XorCloser(key, b, a) <==> a == b
  {
    hide Xor, Less;
    if key == [] {
      assert a == [] && b == [];
    } else {
      LessOrder(Xor(key[0], a[0]), Xor(key[0], b[0]), 0);
      XorInjective(key[0], a[0], b[0]);
      NearTotal(key[1..], a[1..], b[1..]);
      assert a == [a[0]] + a[1..] && b == [b[0]] + b[1..];
    }
  }

  lemma {:induction false} NearTransitive(key: seq<bv8>, a: seq<bv8>, b: seq<bv8>, c: seq<bv8>)
    requires |key| == |a| == |b| == |c|
    requires XorCloser(key, a, b) && XorCloser(key, b, c)
    ensures XorCloser(key, a, c)
  {
    hide Xor, Less;
    if key != [] {
      var x, y, z := Xor(key[0], a[0]), Xor(key[0], b[0]), Xor(key[0], c[0]);
      LessOrder(x, y, z);
      LessOrder(y, x, z);
      LessOrder(y, z, x);
      LessOrder(x, z, y);
      if !Less(x, y) && !Less(y, z) {
        NearTransitive(key[1..], a[1..], b[1..], c[1..]);
      }
    }
  }

  /** Strictly closer. */
  predicate Closer(target: Id, a: Id, b: Id) {
    !Near(target, b, a)
  }

  lemma CloserOrder(target: Id, a: Id, b: Id, c: Id)
    ensures Closer(target, a, b) <==> Near(target, a, b) && a != b
    ensures Near(target, a, b) || Near(target, b, a)
    ensures Near(target, a, b) && Near(target, b, c) ==> Near(target, a, c)
    ensures Closer(target, a, b) && Near(target, b, c) ==> Closer(target, a, c)
    ensures Near(target, a, b) && Closer(target, b, c) ==> Closer(target, a, c)
  {
    hide XorCloser;
    NearTotal(target, a, b);
    NearTotal(target, b, c);
    NearTotal(target, a, c);
    if Near(target, a, b) && Near(target, b, c) {
      NearTransitive(target, a, b, c);
    }
    if Near(target, a, b) && Near(target, b, c) && Near(target, c, a) {
      NearTransitive(target, b, c, a);
      NearTransitive(target, c, a, b);
    }
  }

  // ----- lists of entries -----

  ghost predicate Sorted(target: Id, s: seq<Entry>) {
    forall i, j :: 0 <= i < j < |s| ==> Near(target, s[i].node.id, s[j].node.id)
  }

  /** Sorted, and every identifier once. */
  ghost predicate StrictlySorted(target: Id, s: seq<Entry>) {
    forall i, j :: 0 <= i < j < |s| ==> Closer(target, s[i].node.id, s[j].node.id)
  }

  ghost function Ids(s: seq<Entry>): set<Id> {
    set e | e in s :: e.node.id
  }

  /**
   * The list holds the closest of the pool: in order, each identifier once, at most K, and nothing closer is left out.
   */
  ghost predicate ClosestOf(target: Id, pool: seq<Entry>, s: seq<Entry>) {
    && StrictlySorted(target, s)
    && (forall e :: e in s ==> e in pool)
    && |s| == (if |Ids(pool)| < K then |Ids(pool)| else K)
    && (forall e :: e in pool && e.node.id !in Ids(s) ==> forall k :: 0 <= k < |s| ==>
        Closer(target, s[k].node.id, e.node.id))
  }

  /**
   * std::stable_sort with a comparator that holds of equal identifiers both ways: the order among those is left open.
   */
  method StableSort(target: Id, s: seq<Entry>) returns (r: seq<Entry>)
    ensures multiset(r) == multiset(s) && Sorted(target, r)
  {
    r := [];
    assert Sorted(target, r);
    hide *;
    var i := 0;
    while i < |s|
      invariant 0 <= i <= |s| && multiset(r) == multiset(s[..i]) && Sorted(target, r)
    {
      var k: nat := |r|;
      while k > 0 && !Near(target, r[k - 1].node.id, s[i].node.id)
        invariant k <= |r| && forall j :: k <= j < |r| ==> !Near(target, r[j].node.id, s[i].node.id)
      {
        k := k - 1;
      }
      InsertSorted(target, r, k, s[i]);
      InsertMembers(r, k, s[i]);
      TakeMembers(s, i);
      r := r[..k] + [s[i]] + r[k..];
      i := i + 1;
    }
    assert s[..|s|] == s;
  }

  lemma InsertSorted(target: Id, r: seq<Entry>, k: nat, e: Entry)
    requires k <= |r| && Sorted(target, r)
    requires forall j :: k <= j < |r| ==> !Near(target, r[j].node.id, e.node.id)
    requires k > 0 ==> Near(target, r[k - 1].node.id, e.node.id)
    ensures Sorted(target, r[..k] + [e] + r[k..])
  {
    hide Near, Closer;
    var t := r[..k] + [e] + r[k..];
    forall i, j | 0 <= i < j < |t| ensures Near(target, t[i].node.id, t[j].node.id) {
      if j == k {
        CloserOrder(target, t[i].node.id, r[k - 1].node.id, e.node.id);
      } else if i == k {
        CloserOrder(target, e.node.id, t[j].node.id, e.node.id);
      } else {
        assert t[j] == r[if j < k then j else j - 1] && t[i] == r[if i < k then i else i - 1];
      }
    }
  }

  /** std::unique: the first of each group of neighbours with one identifier. */
  method Unique(target: Id, s: seq<Entry>) returns (r: seq<Entry>)
    requires Sorted(target, s)
    ensures StrictlySorted(target, r) && Ids(r) == Ids(s) && forall e :: e in r ==> e in s
  {
    hide Near, Closer;
    r := [];
    for i := 0 to |s|
      invariant StrictlySorted(target, r) && Ids(r) == Ids(s[..i]) && (forall e :: e in r ==> e in s[..i])
      invariant r == [] <==> i == 0
      invariant i > 0 ==> r[|r| - 1].node.id == s[i - 1].node.id
    {
      assert s[..i + 1] == s[..i] + [s[i]];
      assert Ids(s[..i + 1]) == Ids(s[..i]) + {s[i].node.id};
      if r == [] || r[|r| - 1].node.id != s[i].node.id {
        AppendStrictly(target, r, s[i]);
        assert Ids(r + [s[i]]) == Ids(r) + {s[i].node.id};
        r := r + [s[i]];
      } else {
        assert r[|r| - 1] in r;
      }
    }
    assert s[..|s|] == s;
  }

  lemma AppendStrictly(target: Id, r: seq<Entry>, e: Entry)
    requires StrictlySorted(target, r)
    requires r != [] ==> Near(target, r[|r| - 1].node.id, e.node.id) && r[|r| - 1].node.id != e.node.id
    ensures StrictlySorted(target, r + [e])
  {
    hide Near, Closer;
    forall i | 0 <= i < |r| ensures Closer(target, r[i].node.id, e.node.id) {
      var z := r[|r| - 1].node.id;
      CloserOrder(target, z, e.node.id, e.node.id);
      CloserOrder(target, r[i].node.id, z, e.node.id);
    }
  }

  lemma {:induction false} IdsOfStrict(target: Id, s: seq<Entry>)
    requires StrictlySorted(target, s)
    ensures |Ids(s)| == |s|
  {
    hide Near, Closer;
    if s != [] {
      var n := |s| - 1;
      IdsOfStrict(target, s[..n]);
      assert s == s[..n] + [s[n]];
      assert Ids(s) == Ids(s[..n]) + {s[n].node.id};
      forall e | e in s[..n] ensures e.node.id != s[n].node.id {
        CloserOrder(target, e.node.id, s[n].node.id, s[n].node.id);
      }
    }
  }

  /** Sorting, dropping repeated identifiers and cutting at K leaves the closest. */
  lemma CutIsClosest(target: Id, pool: seq<Entry>, u: seq<Entry>, s: seq<Entry>)
    requires StrictlySorted(target, u) && Ids(u) == Ids(pool) && forall e :: e in u ==> e in pool
    requires s == if |u| > K then u[..K] else u
    ensures ClosestOf(target, pool, s)
  {
    hide Near, Closer;
    IdsOfStrict(target, u);
    forall e, k | e in pool && e.node.id !in Ids(s) && 0 <= k < |s| ensures Closer(target, s[k].node.id, e.node.id) {
      assert e.node.id in Ids(u);
      var f :| f in u && f.node.id == e.node.id;
      assert f !in s;
      var j :| 0 <= j < |u| && u[j] == f;
    }
  }

  // ----- sending and receiving -----

  /** Sending from the i-th entry on: the first unused entries are used, as many as fit. */
  function SentFrom(s: seq<Entry>, i: nat, inFlight: nat): seq<Entry>
    requires i <= |s|
    decreases |s| - i
  {
    if i == |s| || inFlight >= ALPHA then s
    else if s[i].used then SentFrom(s, i + 1, inFlight)
    else SentFrom(s[i := s[i].(used := true)], i + 1, inFlight + 1)
  }

  /** The nodes asked meanwhile. */
  function AskedFrom(s: seq<Entry>, i: nat, inFlight: nat): seq<Node>
    requires i <= |s|
    decreases |s| - i
  {
    if i == |s| || inFlight >= ALPHA then []
    else if s[i].used then AskedFrom(s, i + 1, inFlight)
    else [s[i].node] + AskedFrom(s, i + 1, inFlight + 1)
  }

  function AfterSending(s: seq<Entry>, inFlight: nat): seq<Entry> {
    SentFrom(s, 0, inFlight)
  }

  function Asked(s: seq<Entry>, inFlight: nat): seq<Node> {
    AskedFrom(s, 0, inFlight)
  }

  /** The nodes asked by sendMessageAndCheckFinish. */
  function AskedIf(wants: bool, s: seq<Entry>, inFlight: nat): seq<Node> {
    if wants then Asked(s, inFlight) else []
  }

  /** The nodes of the entries that are used in t and were not in s, from the i-th on. */
  function NewlyUsed(s: seq<Entry>, t: seq<Entry>, i: nat): seq<Node>
    requires i <= |s| == |t|
    decreases |s| - i
  {
    if i == |s| then []
    else (if t[i].used && !s[i].used then [s[i].node] else []) + NewlyUsed(s, t, i + 1)
  }

  lemma {:induction false} NothingNew(s: seq<Entry>, i: nat)
    requires i <= |s|
    ensures NewlyUsed(s, s, i) == []
    decreases |s| - i
  {
    if i < |s| {
      NothingNew(s, i + 1);
    }
  }

  lemma {:induction false} NewlyUsedIgnoresEarlier(s: seq<Entry>, s': seq<Entry>, t: seq<Entry>, i: nat)
    requires i <= |s| == |s'| == |t| && forall k :: i <= k < |s| ==> s[k] == s'[k]
    ensures NewlyUsed(s, t, i) == NewlyUsed(s', t, i)
    decreases |s| - i
  {
    if i < |s| {
      NewlyUsedIgnoresEarlier(s, s', t, i + 1);
    }
  }

  /**
   * What sending from i on comes to: only flags change, and only from i on; the nodes asked are exactly those of the
   * entries that become used, in order; those were the first of the unused ones; and either three are in flight or
   * every entry is used.
   */
  ghost predicate Sent(s: seq<Entry>, t: seq<Entry>, asked: seq<Node>, i: nat, inFlight: nat)
  {
    && i <= |s| == |t| && inFlight + |asked| <= ALPHA
    && (forall k :: 0 <= k < |s| ==> t[k].node == s[k].node && (s[k].used ==> t[k].used))
    && (forall k :: 0 <= k < i ==> t[k] == s[k])
    && (forall k, m :: i <= k < m < |s| && t[m].used && !s[m].used ==> t[k].used)
    && (inFlight + |asked| == ALPHA || forall k :: i <= k < |s| ==> t[k].used)
    && (asked == [] ==> t == s)
    && asked == NewlyUsed(s, t, i)
  }

  lemma {:induction false} SendingMeaning(s: seq<Entry>, i: nat, inFlight: nat)
    requires inFlight <= ALPHA && i <= |s|
    ensures Sent(s, SentFrom(s, i, inFlight), AskedFrom(s, i, inFlight), i, inFlight)
    decreases |s| - i
  {
    NothingNew(s, i);
    if i < |s| && inFlight < ALPHA {
      if s[i].used {
        SendingMeaning(s, i + 1, inFlight);
      } else {
        var s' := s[i := s[i].(used := true)];
        SendingMeaning(s', i + 1, inFlight + 1);
        AskedIgnoresEarlier(s, s', i + 1, inFlight + 1);
        SentFirst(s, s', SentFrom(s', i + 1, inFlight + 1), AskedFrom(s', i + 1, inFlight + 1), i, inFlight);
      }
    }
  }

  lemma SentFirst(s: seq<Entry>, s': seq<Entry>, t: seq<Entry>, asked: seq<Node>, i: nat, inFlight: nat)
    requires i < |s| && !s[i].used && s' == s[i := s[i].(used := true)] && Sent(s', t, asked, i + 1, inFlight + 1)
    ensures Sent(s, t, [s[i].node] + asked, i, inFlight)
  {
    assert t[i].used;
    NewlyUsedIgnoresEarlier(s, s', t, i + 1);
  }

  // ----- how many entries are still to be asked -----

  function UnusedCount(s: seq<Entry>): nat {
    if s == [] then 0 else (if s[0].used then 0 else 1) + UnusedCount(s[1..])
  }

  lemma {:induction false} CountConcat(a: seq<Entry>, b: seq<Entry>)
    ensures UnusedCount(a + b) == UnusedCount(a) + UnusedCount(b)
  {
    if a == [] {
      assert a + b == b;
    } else {
      assert (a + b)[1..] == a[1..] + b;
      CountConcat(a[1..], b);
    }
  }

  lemma {:induction false} NoneUnused(s: seq<Entry>)
    requires UnusedCount(s) == 0
    ensures forall e :: e in s ==> e.used
  {
    if s != [] {
      NoneUnused(s[1..]);
    }
  }

  /** Entry k apart from the others. */
  lemma CountAt(s: seq<Entry>, k: nat)
    requires k < |s|
    ensures UnusedCount(s) == UnusedCount(s[..k] + s[k + 1..]) + if s[k].used then 0 else 1
  {
    assert s == s[..k] + ([s[k]] + s[k + 1..]);
    CountConcat(s[..k], [s[k]] + s[k + 1..]);
    CountConcat([s[k]], s[k + 1..]);
    CountConcat(s[..k], s[k + 1..]);
    assert [s[k]][1..] == [];
  }

  /** What becomes used is asked: nothing else changes the number of unused entries. */
  lemma {:induction false} SendingCounts(s: seq<Entry>, i: nat, inFlight: nat)
    requires i <= |s|
    ensures UnusedCount(SentFrom(s, i, inFlight)) + |AskedFrom(s, i, inFlight)| == UnusedCount(s)
    decreases |s| - i
  {
    if i < |s| && inFlight < ALPHA {
      if s[i].used {
        SendingCounts(s, i + 1, inFlight);
      } else {
        var s' := s[i := s[i].(used := true)];
        SendingCounts(s', i + 1, inFlight + 1);
        AskedIgnoresEarlier(s, s', i + 1, inFlight + 1);
        CountAt(s, i);
        CountAt(s', i);
        assert s'[..i] == s[..i] && s'[i + 1..] == s[i + 1..];
      }
    }
  }

  /** Entries taken from a pool, each once, hold no more unused ones than the pool. */
  lemma {:induction false} CountOfSome(s: seq<Entry>, pool: seq<Entry>)
    requires (forall e :: e in s ==> e in pool) && forall i, j :: 0 <= i < j < |s| ==> s[i] != s[j]
    ensures UnusedCount(s) <= UnusedCount(pool)
  {
    if s != [] {
      assert s[0] in s;
      var k :| 0 <= k < |pool| && pool[k] == s[0];
      var rest := pool[..k] + pool[k + 1..];
      forall e | e in s[1..] ensures e in rest {
        var i :| 0 <= i < |s[1..]| && s[1..][i] == e;
        assert s[i + 1] == e && e in pool;
        var m :| 0 <= m < |pool| && pool[m] == e;
        assert e == rest[if m < k then m else m - 1];
      }
      CountOfSome(s[1..], rest);
      CountAt(pool, k);
    }
  }

  lemma CountOfBest(target: Id, pool: seq<Entry>, best: seq<Entry>)
    requires ClosestOf(target, pool, best)
    ensures UnusedCount(best) <= UnusedCount(pool)
  {
    hide Near;
    forall i, j | 0 <= i < j < |best| ensures best[i] != best[j] {
      assert Closer(target, best[i].node.id, best[j].node.id);
      CloserOrder(target, best[i].node.id, best[j].node.id, best[j].node.id);
    }
    CountOfSome(best, pool);
  }

  lemma {:induction false} CountRenewed(s: seq<Entry>, remote: Node)
    ensures UnusedCount(Renewed(s, remote)) == UnusedCount(s)
  {
    if s != [] {
      CountRenewed(s[1..], remote);
      assert Renewed(s, remote)[1..] == Renewed(s[1..], remote);
    }
  }

  lemma {:induction false} CountReceived(nodes: seq<Node>, local: Id)
    ensures UnusedCount(Received(nodes, local)) <= |nodes|
  {
    if nodes != [] {
      var n, init := nodes[|nodes| - 1], nodes[..|nodes| - 1];
      CountReceived(init, local);
      var rest := Received(init, local);
      assert ([Entry(n, false)] + rest)[1..] == rest;
    }
  }

  lemma {:induction false} CountWithout(s: seq<Entry>, id: Id)
    ensures UnusedCount(Without(s, id)) <= UnusedCount(s)
  {
    if s != [] && s[0].node.id != id {
      CountWithout(s[1..], id);
      assert ([s[0]] + Without(s[1..], id))[1..] == Without(s[1..], id);
    }
  }

  /** After an answer at most as many more entries are unused as it named nodes. */
  lemma CountMerged(target: Id, nodes: seq<Node>, local: Id, before: seq<Entry>, remote: Node, best: seq<Entry>)
    requires ClosestOf(target, Received(nodes, local) + Renewed(before, remote), best)
    ensures UnusedCount(best) <= UnusedCount(before) + |nodes|
  {
    hide *;
    CountOfBest(target, Received(nodes, local) + Renewed(before, remote), best);
    CountConcat(Received(nodes, local), Renewed(before, remote));
    CountReceived(nodes, local);
    CountRenewed(before, remote);
  }

  lemma {:induction false} AskedIgnoresEarlier(s: seq<Entry>, t: seq<Entry>, i: nat, inFlight: nat)
    requires i <= |s| == |t| && forall k :: i <= k < |s| ==> s[k] == t[k]
    ensures AskedFrom(s, i, inFlight) == AskedFrom(t, i, inFlight)
    decreases |s| - i
  {
    if i < |s| {
      AskedIgnoresEarlier(s, t, i + 1, inFlight);
      AskedIgnoresEarlier(s, t, i + 1, inFlight + 1);
    }
  }

  lemma SendingKeepsOrder(target: Id, s: seq<Entry>, inFlight: nat)
    requires inFlight <= ALPHA
    ensures |AfterSending(s, inFlight)| == |s|
    ensures StrictlySorted(target, s) ==> StrictlySorted(target, AfterSending(s, inFlight))
  {
    hide Closer;
    SendingMeaning(s, 0, inFlight);
  }

  /** The entries after the node that answered has taken the place of all that share its endpoint. */
  function Renewed(s: seq<Entry>, remote: Node): (r: seq<Entry>)
    ensures |r| == |s|
    ensures forall i :: 0 <= i < |s| && s[i].node.address == remote.address && s[i].node.port == remote.port ==>
      r[i].node == remote && r[i].used == s[i].used
    ensures forall i :: 0 <= i < |s| && (s[i].node.address != remote.address || s[i].node.port != remote.port) ==>
      r[i] == s[i]
  {
    if s == [] then []
        else [if s[0].node.SameEndpoint(remote) then Entry(remote, s[0].used) else s[0]] + Renewed(s[1..], remote)
  }

  /** The nodes received, the last one first, without the local node. */
  function Received(nodes: seq<Node>, local: Id): (r: seq<Entry>)
    ensures forall e :: e in r <==> e.node in nodes && e.node.id != local && !e.used
  {
    if nodes == [] then []
    else
      var n := nodes[|nodes| - 1];
      var rest := Received(nodes[..|nodes| - 1], local);
      assert nodes == nodes[..|nodes| - 1] + [n];
      if n.id != local then [Entry(n, false)] + rest else rest
  }

  /**
   * The messages outstanding are those sent without those answered or timed out, and the counter is their number, at
   * most three. Every message sent and every entry still unused goes back to a node that was named to the lookup.
   */
  ghost predicate Account(sent: multiset<Node>, settled: multiset<Node>, pending: multiset<Node>, inFlight: int,
      entries: seq<Entry>, named: nat)
  {
    sent == pending + settled && inFlight == |pending| <= ALPHA && |sent| + UnusedCount(entries) <= named
  }

  class DHTNodeLookup {
    const targetId: Id
    const localId: Id
    var entries: seq<Entry>
    var inFlightMessage: nat
    var finished: bool
    ghost var pending: multiset<Node>
    ghost var sent: multiset<Node>
    ghost var settled: multiset<Node>
    ghost var named: nat

    ghost predicate Counted()
      reads this
    {
      Account(sent, settled, pending, inFlightMessage, entries, named)
    }

    /** The lookup is finished once nothing is outstanding. */
    ghost predicate Valid()
      reads this
    {
      Counted() && (finished <==> inFlightMessage == 0)
    }

    /**
     * When a lookup ends: each answer or time-out uses up one of the nodes named to it, by the routing table or in
     * answers. Once there were as many as that, the lookup is finished and everyone in the list has been asked.
     */
    lemma EndsWhenAllSettled()
      requires Valid()
      ensures |settled| + inFlightMessage + UnusedCount(entries) <= named
      ensures |settled| == named ==> finished && forall e :: e in entries ==> e.used
    {
      assert |sent| == |pending| + |settled|;
      if |settled| == named {
        NoneUnused(entries);
      }
    }

    constructor (targetId: Id, localId: Id)
      ensures this.targetId == targetId && this.localId == localId
      ensures Counted() && entries == [] && !finished && sent == settled == multiset{} && named == 0
    {
      this.targetId, this.localId := targetId, localId;
      entries, inFlightMessage, finished := [], 0, false;
      pending, sent, settled, named := multiset{}, multiset{}, multiset{}, 0;
    }

    method SendMessage()
      requires Counted()
      modifies `entries, `inFlightMessage, `pending, `sent
      ensures Counted() && entries == AfterSending(old(entries), old(inFlightMessage))
      ensures pending == old(pending) + multiset(Asked(old(entries), old(inFlightMessage)))
      ensures sent == old(sent) + multiset(Asked(old(entries), old(inFlightMessage)))
      ensures inFlightMessage == old(inFlightMessage) + |Asked(old(entries), old(inFlightMessage))|
    {
      SendingAccount(sent, settled, pending, inFlightMessage, entries, named);
      hide *;
      ghost var asked := AskUnused();
      pending, sent := pending + multiset(asked), sent + multiset(asked);
    }

    /** The loop of sendMessage. */
    method AskUnused() returns (ghost asked: seq<Node>)
      requires inFlightMessage >= 0
      modifies `entries, `inFlightMessage
      ensures asked == Asked(old(entries), old(inFlightMessage))
      ensures entries == AfterSending(old(entries), old(inFlightMessage))
      ensures inFlightMessage == old(inFlightMessage) + |asked|
    {
      ghost var start, count: nat := entries, inFlightMessage;
      SendingFromStart(start, count);
      hide *;
      asked := [];
      var i := 0;
      while i != |entries| && inFlightMessage < ALPHA
        invariant 0 <= i <= |entries|
        invariant SentFrom(entries, i, inFlightMessage) == SentFrom(start, 0, count)
        invariant asked + AskedFrom(entries, i, inFlightMessage) == AskedFrom(start, 0, count)
        invariant inFlightMessage == count + |asked|
        decreases |entries| - i
      {
        SendingUnfolds(entries, i, inFlightMessage);
        if !entries[i].used {
          SendOne(asked, entries[i].node, AskedFrom(entries, i + 1, inFlightMessage + 1));
          inFlightMessage := inFlightMessage + 1;
          asked := asked + [entries[i].node];
          entries := entries[i := entries[i].(used := true)];
        }
        i := i + 1;
      }
      SendingEnds(entries, i, inFlightMessage);
      assert asked + [] == asked;
    }

    /** `wants` is the subclass's answer to whether it needs additional messages. */
    method SendMessageAndCheckFinish(wants: bool)
      requires Counted() && !finished
      modifies `entries, `inFlightMessage, `pending, `sent, `finished
      ensures Valid()
      ensures pending == old(pending) + multiset(AskedIf(wants, old(entries), old(inFlightMessage)))
      ensures sent == old(sent) + multiset(AskedIf(wants, old(entries), old(inFlightMessage)))
      ensures entries == if wants then AfterSending(old(entries), old(inFlightMessage)) else old(entries)
      ensures finished && wants ==> entries == old(entries) && forall e :: e in entries ==> e.used
    {
      ghost var before, count := entries, inFlightMessage;
      if wants {
        SendingMeaning(entries, 0, inFlightMessage);
        SendMessage();
      }
      if inFlightMessage == 0 {
        finished := true;
      }
    }

    /** `nodes` are what the routing table gives as the closest ones. */
    method Startup(nodes: seq<Node>)
      requires Counted() && pending == multiset{} && !finished
      modifies this
      ensures Valid() && named == old(named) + |nodes| && settled == old(settled)
      ensures Started(entries, nodes) && (finished <==> nodes == [])
      ensures pending == multiset(First(nodes)) && sent == old(sent) + multiset(First(nodes))
    {
      assert Account(sent, settled, pending, inFlightMessage, entries, named);
      hide *;
      entries := ToEntries(nodes);
      StartAccount(sent, settled, pending, inFlightMessage, old(entries), named, entries, nodes);
      named := named + |nodes|;
      inFlightMessage := 0;
      if entries == [] {
        StartedEmpty(entries, nodes);
        finished := true;
      } else {
        StartSending(entries, nodes);
        Outstanding(pending, First(nodes));
        SendMessage();
        // The source would finish if nothing had been sent; something always has been.
        assert inFlightMessage > 0;
      }
    }

    /** The part of onReceived that works on the list: replace, push, sort, make unique, cut. */
    method MergeReceived(remote: Node, nodes: seq<Node>)
      modifies `entries
      ensures ClosestOf(targetId, Received(nodes, localId) + Renewed(old(entries), remote), entries)
      ensures StrictlySorted(targetId, entries) && |entries| <= K
    {
      hide *;
      entries := ReplaceIds(entries, remote);
      entries := PushReceived(entries, nodes, localId);
      ghost var pool := entries;
      entries := StableSort(targetId, entries);
      SameIds(pool, entries);
      entries := Unique(targetId, entries);
      ghost var u := entries;
      if |entries| > K {
        entries := entries[..K];
      }
      CutIsClosest(targetId, pool, u, entries);
      ClosestIsSorted(targetId, pool, entries);
    }

    /** An answer to the message sent to `asked`; `nodes` are what the subclass reads from it. */
    method OnReceived(remote: Node, nodes: seq<Node>, wants: bool, ghost asked: Node) returns (ghost best: seq<Entry>)
      requires Valid() && asked in pending && asked.SameEndpoint(remote)
      modifies this
      ensures Valid() && settled == old(settled) + multiset{asked} && named == old(named) + |nodes|
      ensures pending == old(pending) - multiset{asked} + multiset(AskedIf(wants, best, old(inFlightMessage) - 1))
      ensures sent == old(sent) + multiset(AskedIf(wants, best, old(inFlightMessage) - 1))
      ensures ClosestOf(targetId, Received(nodes, localId) + Renewed(old(entries), remote), best)
      ensures entries == if wants then AfterSending(best, old(inFlightMessage) - 1) else best
      ensures StrictlySorted(targetId, entries) && |entries| <= K
      ensures finished && wants ==> forall e :: e in entries ==> e.used
    {
      hide *;
      Settle(asked);
      MergeReceived(remote, nodes);
      best := entries;
      CountMerged(targetId, nodes, localId, old(entries), remote, best);
      OtherEntries(sent, settled, pending, inFlightMessage, old(entries), named, best, |nodes|);
      named := named + |nodes|;
      SendingKeepsOrder(targetId, best, inFlightMessage);
      SendMessageAndCheckFinish(wants);
    }

    /** A message is no longer outstanding. */
    method Settle(ghost node: Node)
      requires Valid() && node in pending
      modifies `inFlightMessage, `finished, `pending, `settled
      ensures Counted() && pending == old(pending) - multiset{node} && settled == old(settled) + multiset{node}
      ensures inFlightMessage == old(inFlightMessage) - 1 && !finished
    {
      Settled(pending, settled, node);
      inFlightMessage := inFlightMessage - 1;
      pending, settled := pending - multiset{node}, settled + multiset{node};
      finished := false;
    }

    method OnTimeout(node: Node, wants: bool) returns (ghost left: seq<Entry>)
      requires Valid() && node in pending
      modifies this
      ensures Valid() && settled == old(settled) + multiset{node} && named == old(named)
      ensures pending == old(pending) - multiset{node} + multiset(AskedIf(wants, left, old(inFlightMessage) - 1))
      ensures sent == old(sent) + multiset(AskedIf(wants, left, old(inFlightMessage) - 1))
      ensures left == Without(old(entries), node.id)
      ensures entries == if wants then AfterSending(left, old(inFlightMessage) - 1) else left
      ensures StrictlySorted(targetId, old(entries)) ==> StrictlySorted(targetId, entries)
      ensures finished && wants ==> forall e :: e in entries ==> e.used
    {
      hide *;
      Settle(node);
      entries := EraseFirst(entries, node.id);
      left := entries;
      CountWithout(old(entries), node.id);
      OtherEntries(sent, settled, pending, inFlightMessage, old(entries), named, left, 0);
      WithoutKeepsOrder(targetId, old(entries), node.id);
      SendingKeepsOrder(targetId, left, inFlightMessage);
      SendMessageAndCheckFinish(wants);
    }
  }

  /** The list without the first entry of an identifier. */
  function Without(s: seq<Entry>, id: Id): seq<Entry> {
    if s == [] then [] else if s[0].node.id == id then s[1..] else [s[0]] + Without(s[1..], id)
  }

  lemma {:induction false} WithoutKeepsOrder(target: Id, s: seq<Entry>, id: Id)
    ensures StrictlySorted(target, s) ==> StrictlySorted(target, Without(s, id))
    ensures forall e :: e in Without(s, id) ==> e in s
  {
    hide Closer;
    if s != [] && s[0].node.id != id {
      WithoutKeepsOrder(target, s[1..], id);
      var w := Without(s[1..], id);
      forall k | 0 <= k < |w| && StrictlySorted(target, s) ensures Closer(target, s[0].node.id, w[k].node.id) {
        assert w[k] in s[1..];
      }
    }
  }

  lemma {:induction false} FreshSending(s: seq<Entry>, nodes: seq<Node>, i: nat)
    requires |s| == |nodes| && i <= ALPHA && i <= |s| && forall k :: 0 <= k < |s| ==> s[k] == Entry(nodes[k], k < i)
    ensures var last, t := if |nodes| < ALPHA then |nodes| else ALPHA, SentFrom(s, i, i);
      && AskedFrom(s, i, i) == nodes[i..last]
      && |t| == |s| && forall k :: 0 <= k < |s| ==> t[k] == Entry(nodes[k], k < ALPHA)
    decreases |s| - i
  {
    if i < |s| && i < ALPHA {
      var s' := s[i := s[i].(used := true)];
      FreshSending(s', nodes, i + 1);
      AskedIgnoresEarlier(s, s', i + 1, i + 1);
    }
  }

  lemma SendingFromStart(s: seq<Entry>, inFlight: nat)
    ensures AfterSending(s, inFlight) == SentFrom(s, 0, inFlight) && Asked(s, inFlight) == AskedFrom(s, 0, inFlight)
  {
  }

  lemma SendingUnfolds(s: seq<Entry>, i: nat, inFlight: nat)
    requires i < |s| && inFlight < ALPHA
    ensures s[i].used ==> SentFrom(s, i, inFlight) == SentFrom(s, i + 1, inFlight)
    ensures s[i].used ==> AskedFrom(s, i, inFlight) == AskedFrom(s, i + 1, inFlight)
    ensures !s[i].used ==> SentFrom(s, i, inFlight) == SentFrom(s[i := s[i].(used := true)], i + 1, inFlight + 1)
    ensures !s[i].used ==> AskedFrom(s, i, inFlight) == [s[i].node] + AskedFrom(s, i + 1, inFlight + 1)
    ensures AskedFrom(s, i + 1, inFlight + 1) == AskedFrom(s[i := s[i].(used := true)], i + 1, inFlight + 1)
  {
    AskedIgnoresEarlier(s, s[i := s[i].(used := true)], i + 1, inFlight + 1);
  }

  lemma SendingEnds(s: seq<Entry>, i: nat, inFlight: nat)
    requires i <= |s| && (i == |s| || inFlight >= ALPHA)
    ensures SentFrom(s, i, inFlight) == s && AskedFrom(s, i, inFlight) == []
  {
  }

  /** toEntries: an unused entry for each node. */
  method ToEntries(nodes: seq<Node>) returns (r: seq<Entry>)
    ensures Unused(r, nodes) && |r| == |nodes|
  {
    r := [];
    for i := 0 to |nodes|
      invariant |r| == i && forall k :: 0 <= k < i ==> r[k] == Entry(nodes[k], false)
    {
      r := r + [Entry(nodes[i], false)];
    }
  }

  /** The first ones, as many as may be in flight. */
  function First(nodes: seq<Node>): seq<Node> {
    if |nodes| < ALPHA then nodes else nodes[..ALPHA]
  }

  /** An entry for each node, and the first ones asked. */
  predicate Started(s: seq<Entry>, nodes: seq<Node>) {
    |s| == |nodes| && forall i :: 0 <= i < |nodes| ==> s[i].node == nodes[i] && (s[i].used <==> i < ALPHA)
  }

  predicate Unused(s: seq<Entry>, nodes: seq<Node>) {
    |s| == |nodes| && forall k :: 0 <= k < |s| ==> s[k] == Entry(nodes[k], false)
  }

  lemma StartSending(s: seq<Entry>, nodes: seq<Node>)
    requires Unused(s, nodes) && s != []
    ensures Started(AfterSending(s, 0), nodes) && Asked(s, 0) == First(nodes) && |First(nodes)| > 0
  {
    FreshSending(s, nodes, 0);
    assert nodes[0..|nodes|] == nodes;
  }

  lemma StartedEmpty(s: seq<Entry>, nodes: seq<Node>)
    requires |s| == |nodes| && s == []
    ensures Started(s, nodes) && First(nodes) == []
  {
  }

  lemma Outstanding(pending: multiset<Node>, asked: seq<Node>)
    requires pending == multiset{}
    ensures pending + multiset(asked) == multiset(asked)
  {
  }

  lemma Settled(pending: multiset<Node>, settled: multiset<Node>, node: Node)
    requires node in pending
    ensures |pending - multiset{node}| == |pending| - 1
    ensures pending + settled == (pending - multiset{node}) + (settled + multiset{node})
  {
  }

  lemma OtherEntries(sent: multiset<Node>, settled: multiset<Node>, pending: multiset<Node>, inFlight: nat,
      s: seq<Entry>, named: nat, t: seq<Entry>, more: nat)
    requires Account(sent, settled, pending, inFlight, s, named) && UnusedCount(t) <= UnusedCount(s) + more
    ensures Account(sent, settled, pending, inFlight, t, named + more) && inFlight <= ALPHA
  {
  }

  lemma StartAccount(sent: multiset<Node>, settled: multiset<Node>, pending: multiset<Node>, inFlight: nat,
      s: seq<Entry>, named: nat, t: seq<Entry>, nodes: seq<Node>)
    requires Account(sent, settled, pending, inFlight, s, named) && pending == multiset{} && Unused(t, nodes)
    ensures Account(sent, settled, pending, 0, t, named + |nodes|)
  {
    hide UnusedCount;
    CountUnused(t, nodes);
  }

  lemma SendingAccount(sent: multiset<Node>, settled: multiset<Node>, pending: multiset<Node>, inFlight: nat,
      s: seq<Entry>, named: nat)
    requires Account(sent, settled, pending, inFlight, s, named)
    ensures var asked := Asked(s, inFlight);
      Account(sent + multiset(asked), settled, pending + multiset(asked), inFlight + |asked|, AfterSending(s, inFlight),
        named)
  {
    var asked := Asked(s, inFlight);
    SendingMeaning(s, 0, inFlight);
    SendingCounts(s, 0, inFlight);
    hide Sent, SentFrom, AskedFrom, UnusedCount;
    assert |multiset(asked)| == |asked|;
  }

  lemma {:induction false} CountUnused(s: seq<Entry>, nodes: seq<Node>)
    requires Unused(s, nodes)
    ensures UnusedCount(s) == |nodes|
  {
    if s != [] {
      CountUnused(s[1..], nodes[1..]);
    }
  }

  lemma ClosestIsSorted(target: Id, pool: seq<Entry>, s: seq<Entry>)
    requires ClosestOf(target, pool, s)
    ensures StrictlySorted(target, s) && |s| <= K
  {
    hide StrictlySorted;
  }

  lemma SendOne(sent: seq<Node>, n: Node, rest: seq<Node>)
    ensures sent + ([n] + rest) == (sent + [n]) + rest
  {
  }

  /** The loop of onTimeout: the first entry with the identifier goes. */
  method EraseFirst(s: seq<Entry>, id: Id) returns (r: seq<Entry>)
    ensures r == Without(s, id)
  {
    var i := 0;
    while i != |s|
      invariant 0 <= i <= |s| && forall k :: 0 <= k < i ==> s[k].node.id != id
      decreases |s| - i
    {
      if s[i].node.id == id {
        WithoutAt(s, i, id);
        return s[..i] + s[i + 1..];
      }
      i := i + 1;
    }
    WithoutAt(s, i, id);
    return s;
  }

  lemma {:induction false} WithoutAt(s: seq<Entry>, i: nat, id: Id)
    requires i <= |s| && (forall k :: 0 <= k < i ==> s[k].node.id != id) && (i < |s| ==> s[i].node.id == id)
    ensures Without(s, id) == if i < |s| then s[..i] + s[i + 1..] else s
  {
    if i > 0 {
      WithoutAt(s[1..], i - 1, id);
    }
  }

  lemma SameIds(a: seq<Entry>, b: seq<Entry>)
    requires multiset(a) == multiset(b)
    ensures (forall e :: e in a <==> e in b) && Ids(a) == Ids(b)
  {
    SameMembers(a, b);
  }

  method ReplaceIds(entries: seq<Entry>, remote: Node) returns (r: seq<Entry>)
    ensures r == Renewed(entries, remote)
  {
    r := entries;
    ghost var target := Renewed(entries, remote);
    hide Renewed;
    for i := 0 to |entries|
      invariant |r| == |entries| && forall k :: 0 <= k < |r| ==> r[k] == if k < i then target[k] else entries[k]
    {
      if r[i].node.address == remote.address && r[i].node.port == remote.port {
        r := r[i := r[i].(node := remote)];
      }
    }
    assert r == target;
  }

  method PushReceived(entries: seq<Entry>, nodes: seq<Node>, local: Id) returns (r: seq<Entry>)
    ensures r == Received(nodes, local) + entries
  {
    r := entries;
    assert nodes[..0] == [];
    for i := 0 to |nodes|
      invariant r == Received(nodes[..i], local) + entries
    {
      assert nodes[..i + 1][..i] == nodes[..i];
      if local != nodes[i].id {
        r := [Entry(nodes[i], false)] + r;
      }
    }
    assert nodes[..|nodes|] == nodes;
  }

  // ----- progress of a lookup -----

  /**
   * Answers only bring the list closer: if the pool contains all the old identifiers, which were in order, then the
   * k-th best afterwards is at most as far as the k-th best before, and the list is not shorter.
   */
  lemma OnlyGetsCloser(target: Id, before: seq<Entry>, pool: seq<Entry>, best: seq<Entry>, k: nat)
    requires StrictlySorted(target, before) && |before| <= K && Ids(before) <= Ids(pool)
      && ClosestOf(target, pool, best)
    requires k < |before|
    ensures k < |best| && Near(target, best[k].node.id, before[k].node.id)
  {
    hide Near;
    IdsOfStrict(target, before);
    SubsetSize(Ids(before), Ids(pool));
    if !Near(target, best[k].node.id, before[k].node.id) {
      var firsts, ahead := Ids(before[..k + 1]), Ids(best[..k]);
      forall id | id in firsts ensures id in ahead {
        var e :| e in before[..k + 1] && e.node.id == id;
        var i :| 0 <= i < k + 1 && before[i] == e;
        assert e in before && id in Ids(before) && id in Ids(pool);
        EarlierStays(target, before, pool, best, k, i);
      }
      IdsOfStrict(target, before[..k + 1]);
      IdsOfStrict(target, best[..k]);
      SubsetSize(firsts, ahead);
      assert false;
    }
  }

  /** An old identifier that is closer than the new k-th stands among the new first k. */
  lemma EarlierStays(target: Id, before: seq<Entry>, pool: seq<Entry>, best: seq<Entry>, k: nat, i: nat)
    requires StrictlySorted(target, before) && ClosestOf(target, pool, best)
    requires i <= k < |before| && k < |best| && before[i].node.id in Ids(pool)
    requires Closer(target, before[k].node.id, best[k].node.id)
    ensures before[i].node.id in Ids(best[..k])
  {
    hide Near;
    var id := before[i].node.id;
    CloserOrder(target, before[k].node.id, best[k].node.id, id);
    if i < k {
      CloserOrder(target, id, before[k].node.id, best[k].node.id);
    }
    CloserOrder(target, best[k].node.id, id, best[k].node.id);
    assert Closer(target, id, best[k].node.id) && !Closer(target, best[k].node.id, id);
    var e :| e in pool && e.node.id == id;
    assert id in Ids(best);
    assert forall m :: k < m < |best| ==> Closer(target, best[k].node.id, best[m].node.id);
    var f :| f in best && f.node.id == id;
    var j :| 0 <= j < |best| && best[j] == f;
    assert best[j] in best[..k] by {
      CloserOrder(target, id, id, id);
      assert best[..k][j] == best[j];
    }
  }

  // ----- asked again, and for how long -----

  /** The list has an entry with this identifier that has not been asked. */
  ghost predicate Open(s: seq<Entry>, id: Id) {
    exists e :: e in s && e.node.id == id && !e.used
  }

  /** Of several entries with one identifier any may be the one kept, so an unused one can take its place. */
  lemma KeptInstead(target: Id, pool: seq<Entry>, s: seq<Entry>, k: nat, e: Entry)
    requires ClosestOf(target, pool, s) && k < |s| && e in pool && e.node.id == s[k].node.id
    ensures ClosestOf(target, pool, s[k := e])
  {
    hide Near, Closer;
    var t := s[k := e];
    assert forall i :: 0 <= i < |s| ==> t[i].node.id == s[i].node.id;
    forall id ensures id in Ids(t) <==> id in Ids(s) {
      if id in Ids(s) {
        var i :| 0 <= i < |s| && s[i].node.id == id;
        assert t[i] in t;
      }
      if id in Ids(t) {
        var i :| 0 <= i < |t| && t[i].node.id == id;
        assert s[i] in s;
      }
    }
  }

  /**
   * Exactly when an identifier whose entries have all been asked can be open for another message after an answer:
   * when the answer names it again, and it is not the local one. (It has to be among the closest K, too.)
   */
  lemma ReopensIff(target: Id, local: Id, before: seq<Entry>, remote: Node, nodes: seq<Node>, best: seq<Entry>, id: Id)
    requires ClosestOf(target, Received(nodes, local) + Renewed(before, remote), best) && id in Ids(best)
    requires !Open(Renewed(before, remote), id)
    ensures (exists t: seq<Entry> ::
      ClosestOf(target, Received(nodes, local) + Renewed(before, remote), t) && Open(t, id))
      <==> id != local && exists n :: n in nodes && n.id == id
  {
    hide ClosestOf, Received, Renewed;
    var pool := Received(nodes, local) + Renewed(before, remote);
    if t: seq<Entry> :| ClosestOf(target, pool, t) && Open(t, id) {
      var e: Entry :| e in t && e.node.id == id && !e.used;
      FromPool(target, pool, t, e);
      assert e in Received(nodes, local);
    }
    if n :| n in nodes && n.id == id && id != local {
      assert Entry(n, false) in Received(nodes, local);
      var k :| 0 <= k < |best| && best[k].node.id == id;
      KeptInstead(target, pool, best, k, Entry(n, false));
      assert best[k := Entry(n, false)][k] in best[k := Entry(n, false)];
    }
  }

  lemma FromPool(target: Id, pool: seq<Entry>, t: seq<Entry>, e: Entry)
    requires ClosestOf(target, pool, t) && e in t
    ensures e in pool
  {
  }

  /** An identifier that the answer names and that no old entry has is open afterwards if it is among the closest. */
  lemma NewIsOpen(target: Id, local: Id, before: seq<Entry>, remote: Node, nodes: seq<Node>, best: seq<Entry>, id: Id)
    requires ClosestOf(target, Received(nodes, local) + Renewed(before, remote), best) && id in Ids(best)
    requires id !in Ids(Renewed(before, remote))
    ensures Open(best, id)
  {
    hide ClosestOf, Received, Renewed;
    var pool := Received(nodes, local) + Renewed(before, remote);
    var e :| e in best && e.node.id == id;
    FromPool(target, pool, best, e);
  }

  /** x has been asked, and it is known by its other name as well. */
  ghost predicate AllAsked(s: seq<Entry>, x: Node, other: Node) {
    s != [] && forall e :: e in s ==> e.used && (e.node == x || e.node == other)
  }

  lemma AskedOnceMore(target: Id, local: Id, before: seq<Entry>, x: Node, other: Node, best: seq<Entry>)
    requires x.SameEndpoint(other) && x.id != other.id && x.id != local && AllAsked(before, x, other)
    requires ClosestOf(target, Received([x], local) + Renewed(before, other), best)
    ensures AskedIf(true, best, 0) == [x] && AllAsked(AfterSending(best, 0), x, other)
  {
    hide ClosestOf, AfterSending, Asked, Received, Renewed;
    NamedByBoth(local, before, x, other);
    TwoClosest(target, Received([x], local) + Renewed(before, other), best);
    TwoEntries(best);
  }

  lemma TwoClosest(target: Id, pool: seq<Entry>, best: seq<Entry>)
    requires ClosestOf(target, pool, best) && |Ids(pool)| == 2
    ensures |best| == 2 && best[0] in pool && best[1] in pool && best[0] != best[1]
  {
    hide Near, Closer;
    assert best[0] in best && best[1] in best;
    assert Closer(target, best[0].node.id, best[1].node.id);
    CloserOrder(target, best[0].node.id, best[1].node.id, best[1].node.id);
  }

  lemma NamedByBoth(local: Id, before: seq<Entry>, x: Node, other: Node)
    requires x.SameEndpoint(other) && x.id != other.id && x.id != local && AllAsked(before, x, other)
    ensures var pool := Received([x], local) + Renewed(before, other);
      (forall e :: e in pool <==> e == Entry(x, false) || e == Entry(other, true)) && |Ids(pool)| == 2
  {
    var named, rest := Received([x], local), Renewed(before, other);
    hide Received, Renewed;
    var pool := named + rest;
    forall e | e in rest ensures e == Entry(other, true) {
      var i :| 0 <= i < |rest| && rest[i] == e;
      assert before[i] in before;
    }
    assert Entry(x, false) in named && rest[0] in rest;
    assert Ids(pool) == {x.id, other.id} by {
      assert Entry(x, false) in pool && Entry(other, true) in pool;
    }
  }

  lemma TwoEntries(s: seq<Entry>)
    requires |s| == 2 && s[0].used != s[1].used
    ensures s[0].used ==> AfterSending(s, 0) == s[1 := s[1].(used := true)] && Asked(s, 0) == [s[1].node]
    ensures s[1].used ==> AfterSending(s, 0) == s[0 := s[0].(used := true)] && Asked(s, 0) == [s[0].node]
  {
    var t := if s[0].used then s[1 := s[1].(used := true)] else s[0 := s[0].(used := true)];
    hide SentFrom, AskedFrom;
    SendingUnfolds(s, 0, 0);
    SendingUnfolds(s, 1, 0);
    SendingUnfolds(t, 1, 1);
    SendingEnds(t, 2, 1);
    SendingEnds(s, 2, 1);
  }

  /**
   * A lookup need not ask a node once, and need not end: a node that answers under another identifier than the one it
   * is named by, and names itself, is asked again after each of its answers, as often as you like.
   */
  method AskForever(targetId: Id, localId: Id, x: Node, other: Node, answers: nat) returns (lookup: DHTNodeLookup)
    requires x.SameEndpoint(other) && x.id != other.id && x.id != localId
    ensures fresh(lookup) && lookup.Valid() && !lookup.finished
    ensures lookup.sent[x] == lookup.named == answers + 1 && |lookup.settled| == answers
  {
    lookup := new DHTNodeLookup(targetId, localId);
    lookup.Startup([x]);
    assert lookup.entries[0] == Entry(x, true) && lookup.entries == [lookup.entries[0]];
    OnlyAsked(x, other);
    hide *;
    for i := 0 to answers
      invariant fresh(lookup) && lookup.Valid() && !lookup.finished && AllAsked(lookup.entries, x, other)
      invariant lookup.targetId == targetId && lookup.localId == localId && lookup.pending == multiset{x}
      invariant lookup.sent[x] == lookup.named == i + 1 && |lookup.settled| == i
    {
      AskAgain(lookup, x, other);
    }
  }

  /** One round: x answers as other and names x. */
  method AskAgain(lookup: DHTNodeLookup, x: Node, other: Node)
    requires x.SameEndpoint(other) && x.id != other.id && x.id != lookup.localId
    requires lookup.Valid() && !lookup.finished && AllAsked(lookup.entries, x, other) && lookup.pending == multiset{x}
    modifies lookup
    ensures lookup.Valid() && !lookup.finished && AllAsked(lookup.entries, x, other) && lookup.pending == multiset{x}
    ensures lookup.sent[x] == old(lookup.sent[x]) + 1 && lookup.named == old(lookup.named) + 1
    ensures |lookup.settled| == old(|lookup.settled|) + 1
  {
    InFlightIs(lookup.sent, lookup.settled, lookup.pending, lookup.inFlightMessage, lookup.entries, lookup.named);
    hide *;
    ghost var best := lookup.OnReceived(other, [x], true, x);
    AskedOnceMore(lookup.targetId, lookup.localId, old(lookup.entries), x, other, best);
    OneMore(old(lookup.pending), old(lookup.sent), old(lookup.settled), lookup.pending, lookup.sent, lookup.settled,
      AskedIf(true, best, 0), x);
    InFlightIs(lookup.sent, lookup.settled, lookup.pending, lookup.inFlightMessage, lookup.entries, lookup.named);
  }

  lemma OneMore(pending: multiset<Node>, sent: multiset<Node>, settled: multiset<Node>, pending': multiset<Node>,
      sent': multiset<Node>, settled': multiset<Node>, asked: seq<Node>, x: Node)
    requires pending == multiset{x} && asked == [x] && pending' == pending - multiset{x} + multiset(asked)
    requires sent' == sent + multiset(asked) && settled' == settled + multiset{x}
    ensures pending' == multiset{x} && |pending'| == 1 && sent'[x] == sent[x] + 1 && |settled'| == |settled| + 1
  {
  }

  lemma InFlightIs(sent: multiset<Node>, settled: multiset<Node>, pending: multiset<Node>, inFlight: int,
      s: seq<Entry>, named: nat)
    requires Account(sent, settled, pending, inFlight, s, named)
    ensures inFlight == |pending|
  {
  }

  lemma OnlyAsked(x: Node, other: Node)
    ensures AllAsked([Entry(x, true)], x, other)
  {
  }
}
