/** Choking rounds while downloading. */
module LeecherChoke {
  import opened ChokePeers
  import opened Sequences

  const SLOTS: nat := 3

  datatype PeerEntry = PeerEntry(peer: Peer, downloadSpeed: int, regularUnchoker: bool)

  /** A peer counts as a regular unchoker if it is interested and sent a block in the last 30 seconds. */
  function EntryOf(p: Peer, clock: int): (e: PeerEntry)
    reads p
    ensures e.peer == p
  {
    PeerEntry(p, p.downloadSpeed, p.interested && Elapsed(p.lastDownloadUpdate, clock) < 30)
  }

  ghost predicate DistinctPeers(s: seq<PeerEntry>) {
    forall i, j :: 0 <= i < j < |s| ==> s[i].peer != s[j].peer
  }

  ghost function PeersOf(s: seq<PeerEntry>): set<Peer> {
    set e | e in s :: e.peer
  }

  /** Regular unchokers first, the faster ones before the slower ones; the others in any order. */
  ghost predicate Arranged(s: seq<PeerEntry>) {
    forall i, j :: 0 <= i < j < |s| && s[j].regularUnchoker ==>
        s[i].regularUnchoker && s[i].downloadSpeed >= s[j].downloadSpeed
  }

  function Top(s: seq<PeerEntry>): seq<PeerEntry> {
    if |s| < SLOTS then s else s[..SLOTS]
  }

  /** What a round never changes of a peer. */
  twostate predicate Facts(p: Peer)
    reads p
  {
    && p.active == old(p.active) && p.interested == old(p.interested) && p.snubbing == old(p.snubbing)
        && p.amChoking == old(p.amChoking)
    && p.downloadSpeed == old(p.downloadSpeed) && p.lastDownloadUpdate == old(p.lastDownloadUpdate)
  }

  // ----- orders of entries -----

  /** std::partition by being a regular unchoker. */
  method PartitionRegular(s: seq<PeerEntry>) returns (yes: seq<PeerEntry>, no: seq<PeerEntry>)
    ensures multiset(yes) + multiset(no) == multiset(s)
    ensures (forall e :: e in yes ==> e.regularUnchoker) && (forall e :: e in no ==> !e.regularUnchoker)
  {
    yes, no := [], [];
    for i := 0 to |s|
      invariant multiset(yes) + multiset(no) == multiset(s[..i])
      invariant (forall e :: e in yes ==> e.regularUnchoker) && (forall e :: e in no ==> !e.regularUnchoker)
    {
      assert s[..i + 1] == s[..i] + [s[i]];
      if s[i].regularUnchoker {
        yes := yes + [s[i]];
      } else {
        no := no + [s[i]];
      }
    }
    assert s[..|s|] == s;
  }

  /** std::partition by whether we choke the peer and it is interested. */
  method PartitionCandidates(s: seq<PeerEntry>) returns (yes: seq<PeerEntry>, no: seq<PeerEntry>)
    ensures multiset(yes) + multiset(no) == multiset(s)
    ensures (forall e :: e in yes ==> e.peer.amChoking && e.peer.interested)
      && (forall e :: e in no ==> !(e.peer.amChoking && e.peer.interested))
  {
    yes, no := [], [];
    for i := 0 to |s|
      invariant multiset(yes) + multiset(no) == multiset(s[..i])
      invariant (forall e :: e in yes ==> e.peer.amChoking && e.peer.interested)
        && (forall e :: e in no ==> !(e.peer.amChoking && e.peer.interested))
    {
      assert s[..i + 1] == s[..i] + [s[i]];
      if s[i].peer.amChoking && s[i].peer.interested {
        yes := yes + [s[i]];
      } else {
        no := no + [s[i]];
      }
    }
    assert s[..|s|] == s;
  }

  ghost predicate FasterFirst(s: seq<PeerEntry>) {
    forall i, j :: 0 <= i < j < |s| ==> s[i].downloadSpeed >= s[j].downloadSpeed
  }

  /** std::sort by descending speed. */
  method SortBySpeed(s: seq<PeerEntry>) returns (r: seq<PeerEntry>)
    ensures multiset(r) == multiset(s) && FasterFirst(r)
  {
    r := [];
    assert FasterFirst(r);
    hide FasterFirst;
    var i := 0;
    while i < |s|
      invariant 0 <= i <= |s| && multiset(r) == multiset(s[..i]) && FasterFirst(r)
    {
      var k: nat := |r|;
      while k > 0 && s[i].downloadSpeed > r[k - 1].downloadSpeed
        invariant k <= |r| && forall j :: k <= j < |r| ==> s[i].downloadSpeed > r[j].downloadSpeed
      {
        k := k - 1;
      }
      InsertFaster(r, k, s[i]);
      InsertMembers(r, k, s[i]);
      TakeMembers(s, i);
      r := r[..k] + [s[i]] + r[k..];
      i := i + 1;
    }
    assert s[..|s|] == s;
  }

  lemma InsertFaster(r: seq<PeerEntry>, k: nat, e: PeerEntry)
    requires k <= |r| && FasterFirst(r) && (forall j :: k <= j < |r| ==> e.downloadSpeed > r[j].downloadSpeed)
    requires k > 0 ==> e.downloadSpeed <= r[k - 1].downloadSpeed
    ensures FasterFirst(r[..k] + [e] + r[k..])
  {
    var t := r[..k] + [e] + r[k..];
    forall i, j | 0 <= i < j < |t| ensures t[i].downloadSpeed >= t[j].downloadSpeed {
      assert t[i] == if i < k then r[i] else if i == k then e else r[i - 1];
      assert t[j] == if j < k then r[j] else if j == k then e else r[j - 1];
    }
  }

  /** Partition, sort the regular unchokers, shuffle the rest. */
  method Arrange(s: seq<PeerEntry>) returns (r: seq<PeerEntry>)
    requires DistinctPeers(s)
    ensures multiset(r) == multiset(s) && Arranged(r) && DistinctPeers(r) && forall e :: e in r <==> e in s
  {
    var regular, rest := PartitionRegular(s);
    var sorted := SortBySpeed(regular);
    var shuffled := Shuffle(rest);
    SameMembers(regular, sorted);
    SameMembers(rest, shuffled);
    r := sorted + shuffled;
    JoinArranged(sorted, shuffled);
    PermutedDistinct(s, r);
    SameMembers(s, r);
  }

  lemma JoinArranged(a: seq<PeerEntry>, b: seq<PeerEntry>)
    requires FasterFirst(a) && (forall e :: e in a ==> e.regularUnchoker) && forall e :: e in b ==> !e.regularUnchoker
    ensures Arranged(a + b)
  {
    var s := a + b;
    assert forall j :: |a| <= j < |s| ==> s[j] in b;
    forall i, j | 0 <= i < j < |s| && s[j].regularUnchoker ensures s[i].regularUnchoker
        && s[i].downloadSpeed >= s[j].downloadSpeed {
      assert s[i] == a[i] && a[i] in a && s[j] == a[j];
    }
  }

  lemma PermutedDistinct(a: seq<PeerEntry>, b: seq<PeerEntry>)
    requires DistinctPeers(a) && multiset(a) == multiset(b)
    ensures DistinctPeers(b)
  {
    assert NoneTwice(a);
    PermutedNoneTwice(a, b);
    forall i, j | 0 <= i < j < |b| ensures b[i].peer != b[j].peer {
      assert b[i] in b && b[j] in b;
      var x :| 0 <= x < |a| && a[x] == b[i];
      var y :| 0 <= y < |a| && a[y] == b[j];
    }
  }

  lemma NoneDistinct()
    ensures DistinctPeers([])
  {
  }

  lemma AppendDistinct(s: seq<PeerEntry>, e: PeerEntry)
    requires DistinctPeers(s) && forall x :: x in s ==> x.peer != e.peer
    ensures DistinctPeers(s + [e]) && forall x :: x in s + [e] <==> x in s || x == e
  {
  }

  lemma TakeOneMore(s: seq<PeerEntry>, k: nat)
    requires DistinctPeers(s) && k < |s|
    ensures forall e :: e in s[..k + 1] <==> e in s[..k] || e == s[k]
    ensures s[k] in s && s[k] !in s[..k] && forall e :: e in s && e.peer == s[k].peer ==> e == s[k]
  {
    assert s[..k + 1] == s[..k] + [s[k]];
  }

  lemma {:induction false} DistinctSize(s: seq<PeerEntry>)
    requires DistinctPeers(s)
    ensures |PeersOf(s)| == |s|
  {
    if s != [] {
      var n := |s| - 1;
      DistinctSize(s[..n]);
      TakeOneMore(s, n);
      assert s[..n + 1] == s;
      assert PeersOf(s) == PeersOf(s[..n]) + {s[n].peer};
    }
  }

  // ----- the rounds -----

  /** What the first loop does to a peer: an active one is to be choked and, if snubbing, loses its flag. */
  twostate predicate Collected(p: Peer)
    reads p
  {
    && Facts(p)
    && p.optUnchoking == (old(p.optUnchoking) && !(p.active && p.snubbing))
    && p.chokingRequired == (p.active || old(p.chokingRequired))
  }

  /** What a round leaves of a peer it does not consider: nothing changes if inactive; if snubbing it is choked. */
  twostate predicate Kept(p: Peer)
    reads p
  {
    && Facts(p)
    && (!p.active ==> p.optUnchoking == old(p.optUnchoking) && p.chokingRequired == old(p.chokingRequired))
    && (p.active && p.snubbing ==> !p.optUnchoking && p.chokingRequired)
  }

  /**
   * At most three interested peers are lifted; a regular unchoker is passed over only for three that are at least as
   * fast.
   */
  ghost predicate Passed(peerSet: set<Peer>, clock: int)
    reads peerSet
  {
    && |Lifted(peerSet)| <= SLOTS
    && (forall p :: p in Lifted(peerSet) ==> p.interested && !p.snubbing)
    && (forall q :: q in peerSet && q.active && !q.snubbing && q.interested && q.chokingRequired ==>
         |Served(peerSet)| >= SLOTS)
    && (forall q ::
        q in peerSet && q.active && !q.snubbing && q.chokingRequired && EntryOf(q, clock).regularUnchoker ==>
         |Lifted(peerSet)| == SLOTS)
    && (forall p, q ::
        (p in Lifted(peerSet) && q in peerSet && q.active && !q.snubbing && q.chokingRequired
         && EntryOf(q, clock).regularUnchoker) ==>
         EntryOf(p, clock).regularUnchoker && p.downloadSpeed >= q.downloadSpeed)
  }

  /** At most one of the entries is flagged. */
  ghost predicate OneFlagged(s: seq<PeerEntry>)
    reads PeersOf(s)
  {
    forall e, o :: e in s && o in s && e.peer.optUnchoking && o.peer.optUnchoking ==> e == o
  }

  /** The active peers that are not snubbing and have what they want: they are lifted, or not interested. */
  ghost function Served(peerSet: set<Peer>): set<Peer>
    reads peerSet
  {
    set p | p in peerSet && p.active && !p.snubbing && (!p.chokingRequired || !p.interested)
  }

  /** An interested peer that sent a block within the last 30 seconds. */
  predicate Sends(p: Peer, clock: int)
    reads p
  {
    p.interested && clock - p.lastDownloadUpdate < 30
  }

  /**
   * In terms of the peers: three at most are lifted, all of them interested and none snubbing; one that is passed over
   * finds three others who are lifted or not interested; and if it sends, three lifted who send as well and are at
   * least as fast.
   */
  ghost predicate Fair(peerSet: set<Peer>, clock: int)
    reads peerSet
  {
    var lifted := set p | p in peerSet && p.active && !p.chokingRequired;
    && |lifted| <= 3
    && (forall p :: p in lifted ==> p.interested && !p.snubbing)
    && (forall q :: q in peerSet && q.active && !q.snubbing && q.interested && q.chokingRequired ==>
         |Served(peerSet)| >= 3)
    && forall q :: q in peerSet && q.active && !q.snubbing && q.chokingRequired && Sends(q, clock) ==>
         |lifted| == 3 && forall p :: p in lifted ==> Sends(p, clock) && p.downloadSpeed >= q.downloadSpeed
  }

  lemma PassedIsFair(peerSet: set<Peer>, clock: int)
    requires Passed(peerSet, clock)
    ensures Fair(peerSet, clock)
  {
    var lifted := set p | p in peerSet && p.active && !p.chokingRequired;
    assert Lifted(peerSet) == lifted;
    forall p | p in peerSet ensures EntryOf(p, clock).regularUnchoker == Sends(p, clock) {
    }
  }

  /**
   * Where the optimistic flag is after a round: in round 0 with an interested peer that we choke or whose choking is
   * lifted; in the others a peer keeps it unless its choking is lifted, and gets it only then.
   */
  twostate predicate FlagMoves(p: Peer, round: int)
    reads p
  {
    if round == 0 then p.optUnchoking ==> p.interested && (p.amChoking || !p.chokingRequired)
    else
      && (old(p.optUnchoking) && p.chokingRequired ==> p.optUnchoking)
      && (p.optUnchoking && !old(p.optUnchoking) ==> !p.chokingRequired)
  }

  class BtLeecherStateChoke {
    var round: int

    predicate Valid()
      reads this
    {
      0 <= round < 3
    }

    constructor ()
      ensures Valid() && round == 0
    {
      round := 0;
    }

    method ClearFlags(peerEntries: seq<PeerEntry>)
      requires DistinctPeers(peerEntries)
      modifies PeersOf(peerEntries)`chokingRequired, PeersOf(peerEntries)`optUnchoking
      ensures forall e :: e in peerEntries ==> !e.peer.optUnchoking
      ensures forall e :: e in peerEntries ==> e.peer.chokingRequired == old(e.peer.chokingRequired) && Facts(e.peer)
    {
      assert peerEntries[..0] == [];
      for k := 0 to |peerEntries|
        invariant forall e :: e in peerEntries ==>
          e.peer.chokingRequired == old(e.peer.chokingRequired) && Facts(e.peer)
        invariant forall e :: e in peerEntries ==>
          e.peer.optUnchoking == (e !in peerEntries[..k] && old(e.peer.optUnchoking))
      {
        TakeOneMore(peerEntries, k);
        peerEntries[k].peer.optUnchoking := false;
      }
      assert peerEntries[..|peerEntries|] == peerEntries;
    }

    /**
     * All optimistic flags are cleared, then one peer is flagged that we choke and that is interested, if there is
     * any.
     */
    method PlannedOptimisticUnchoke(peerEntries: seq<PeerEntry>) returns (entries: seq<PeerEntry>)
      requires DistinctPeers(peerEntries)
      modifies PeersOf(peerEntries)`chokingRequired, PeersOf(peerEntries)`optUnchoking
      ensures DistinctPeers(entries) && forall e :: e in entries <==> e in peerEntries
      ensures forall e :: e in peerEntries ==> e.peer.chokingRequired == old(e.peer.chokingRequired) && Facts(e.peer)
      ensures OneFlagged(peerEntries)
      ensures forall e :: e in peerEntries && e.peer.optUnchoking ==> e.peer.amChoking && e.peer.interested
      ensures (exists e :: e in peerEntries && e.peer.amChoking && e.peer.interested) ==>
        exists e :: e in peerEntries && e.peer.optUnchoking
    {
      ClearFlags(peerEntries);
      var yes, no := PartitionCandidates(peerEntries);
      var shuffled := Shuffle(yes);
      entries := shuffled + no;
      SameMembers(yes, shuffled);
      SameMembers(peerEntries, yes + no);
      PermutedDistinct(peerEntries, entries);
      if yes != [] {
        assert yes[0] in shuffled;
        assert shuffled[0] in yes && shuffled[0] in yes + no;
        shuffled[0].peer.optUnchoking := true;
        assert shuffled[0] in peerEntries;
      }
    }

    /**
     * The loop over the first three entries: those interested are not choked; whether one of them, the `at`-th, was
     * the optimistic one.
     */
    method LiftFirst(order: seq<PeerEntry>) returns (fast: bool, ghost at: nat)
      requires DistinctPeers(order)
      modifies PeersOf(order)`chokingRequired, PeersOf(order)`optUnchoking
      ensures forall e :: e in order ==>
        e.peer.chokingRequired == (!(e in Top(order) && e.peer.interested) && old(e.peer.chokingRequired))
      ensures forall e :: e in order ==>
        e.peer.optUnchoking == (!(e in Top(order) && e.peer.interested) && old(e.peer.optUnchoking))
      ensures forall e :: e in order ==> Facts(e.peer)
      ensures fast ==>
        at < |order| && at < |Top(order)| && order[at].peer.interested && old(order[at].peer.optUnchoking)
      ensures !fast ==> forall e :: e in order ==> e.peer.optUnchoking == old(e.peer.optUnchoking)
    {
      fast, at := false, 0;
      var r, count := 0, 3;
      assert order[..0] == [];
      while r != |order| && count != 0
        invariant 0 <= r <= |order| && 0 <= count && r + count == SLOTS
        invariant forall e :: e in order ==> Lifting(e, order[..r])
        invariant fast ==> at < r && order[at].peer.interested && old(order[at].peer.optUnchoking)
        invariant !fast ==> forall e :: e in order ==> e.peer.optUnchoking == old(e.peer.optUnchoking)
        decreases count
      {
        TakeOneMore(order, r);
        if order[r].peer.interested {
          order[r].peer.chokingRequired := false;
          if order[r].peer.optUnchoking {
            fast, at := true, r;
            order[r].peer.optUnchoking := false;
          }
        }
        r, count := r + 1, count - 1;
      }
      assert order[..|order|] == order;
    }

    /** The entries done are unchoked if interested, and nothing else has changed. */
    twostate predicate Lifting(e: PeerEntry, done: seq<PeerEntry>)
      reads e.peer
    {
      && e.peer.chokingRequired == (!(e in done && e.peer.interested) && old(e.peer.chokingRequired))
      && e.peer.optUnchoking == (!(e in done && e.peer.interested) && old(e.peer.optUnchoking))
      && Facts(e.peer)
    }

    /**
     * regularUnchoke: the first three entries in order are not choked if interested. If the optimistic one is among
     * them its flag goes to the first interested entry, which is then one of the three as well.
     */
    method RegularUnchoke(peerEntries: seq<PeerEntry>) returns (ghost order: seq<PeerEntry>)
      requires DistinctPeers(peerEntries)
      modifies PeersOf(peerEntries)`chokingRequired, PeersOf(peerEntries)`optUnchoking
      ensures multiset(order) == multiset(peerEntries) && Arranged(order) && DistinctPeers(order) && forall e ::
        e in order <==> e in peerEntries
      ensures forall e :: e in peerEntries ==> Facts(e.peer)
      ensures forall e :: e in peerEntries ==>
        e.peer.chokingRequired == (!(e in Top(order) && e.peer.interested) && old(e.peer.chokingRequired))
      ensures old(OneFlagged(peerEntries)) ==> OneFlagged(peerEntries)
      ensures forall e :: e in peerEntries && e.peer.optUnchoking ==> e.peer.interested || old(e.peer.optUnchoking)
      ensures forall e :: e in peerEntries && e.peer.optUnchoking && !old(e.peer.optUnchoking) ==>
        !e.peer.chokingRequired
      ensures forall e :: e in peerEntries && old(e.peer.optUnchoking) && e.peer.chokingRequired ==> e.peer.optUnchoking
      ensures (exists e :: e in peerEntries && old(e.peer.optUnchoking)) ==>
        exists e :: e in peerEntries && e.peer.optUnchoking
    {
      var entries := Arrange(peerEntries);
      order := entries;
      hide Arranged, Top, DistinctPeers;
      var fast, at := LiftFirst(entries);
      if fast {
        AmongFirst(entries, at);
        ghost var i := PassFlag(entries, at);
        AmongFirst(entries, i);
      }
    }

    /** The flag of a fast optimistic unchoker goes to the first interested entry. */
    method PassFlag(entries: seq<PeerEntry>, ghost at: nat) returns (ghost i: nat)
      requires DistinctPeers(entries) && at < |entries| && entries[at].peer.interested
      modifies PeersOf(entries)`chokingRequired, PeersOf(entries)`optUnchoking
      ensures i <= at && entries[i].peer.interested && entries[i] in entries
      ensures forall e :: e in entries ==> e.peer.optUnchoking == (e == entries[i] || old(e.peer.optUnchoking))
      ensures forall e :: e in entries ==> e.peer.chokingRequired == old(e.peer.chokingRequired) && Facts(e.peer)
    {
      var k := FirstInterested(entries, at);
      TakeOneMore(entries, k);
      entries[k].peer.optUnchoking := true;
      i := k;
    }

    /** The search of the loop that hands the flag on; it ends because some entry is interested. */
    method FirstInterested(entries: seq<PeerEntry>, ghost at: nat) returns (i: nat)
      requires at < |entries| && entries[at].peer.interested
      ensures i <= at && entries[i].peer.interested && forall k :: 0 <= k < i ==> !entries[k].peer.interested
    {
      i := 0;
      while !entries[i].peer.interested
        invariant i <= at && forall k :: 0 <= k < i ==> !entries[k].peer.interested
        decreases at - i
      {
        i := i + 1;
      }
    }

    /** The first loop of executeChoke: all active peers are to be choked; those not snubbing become entries. */
    method Collect(peerSet: set<Peer>, clock: int) returns (peerEntries: seq<PeerEntry>)
      modifies peerSet`chokingRequired, peerSet`optUnchoking
      ensures DistinctPeers(peerEntries)
      ensures forall e :: e in peerEntries ==>
        e.peer in peerSet && e == EntryOf(e.peer, clock) && e.peer.active && !e.peer.snubbing && e.peer.chokingRequired
      ensures forall p :: p in peerSet && p.active && EntryOf(p, clock) !in peerEntries ==>
        p.chokingRequired && !p.optUnchoking && p.snubbing
      ensures forall p :: p in peerSet ==> Collected(p)
    {
      peerEntries := [];
      var todo := peerSet;
      hide DistinctPeers;
      assert DistinctPeers([]) by { NoneDistinct(); }
      while todo != {}
        invariant todo <= peerSet && DistinctPeers(peerEntries)
        invariant forall e :: e in peerEntries ==> e.peer in peerSet && e.peer !in todo
        invariant forall e :: e in peerEntries ==>
          e == EntryOf(e.peer, clock) && e.peer.active && !e.peer.snubbing && e.peer.chokingRequired
        invariant forall p :: p in peerSet && p !in todo && p.active && EntryOf(p, clock) !in peerEntries ==>
          p.chokingRequired && !p.optUnchoking && p.snubbing
        invariant forall p :: p in peerSet && p !in todo ==> Collected(p)
        invariant forall p :: p in todo ==> unchanged(p)
        decreases |todo|
      {
        var p :| p in todo;
        todo := todo - {p};
        if p.active {
          p.chokingRequired := true;
          if p.snubbing {
            p.optUnchoking := false;
          } else {
            AppendDistinct(peerEntries, EntryOf(p, clock));
            peerEntries := peerEntries + [EntryOf(p, clock)];
          }
        }
      }
    }

    /** executeChoke. */
    method ExecuteChoke(peerSet: set<Peer>, clock: int)
      requires Valid()
      modifies this, peerSet`chokingRequired, peerSet`optUnchoking
      ensures Valid() && round == (old(round) + 1) % 3
      ensures old(OneOptimistic(peerSet)) || old(round) == 0 ==> OneOptimistic(peerSet)
      ensures forall p :: p in peerSet ==> Kept(p)
      ensures Passed(peerSet, clock)
      ensures Fair(peerSet, clock)
      ensures forall p :: p in peerSet && p.active && !p.snubbing ==> FlagMoves(p, old(round))
      ensures
        old(round) == 0 && (exists p :: p in peerSet && p.active && !p.snubbing && p.amChoking && p.interested) ==>
        exists p :: p in peerSet && p.active && p.optUnchoking
      ensures old(round) != 0 && (exists p :: p in peerSet && p.active && !p.snubbing && old(p.optUnchoking)) ==>
        exists p :: p in peerSet && p.active && p.optUnchoking
    {
      hide Lifted, Arranged, Top, DistinctPeers, Passed, Fair, EntryOf, Sends, Served;
      var peerEntries := Collect(peerSet, clock);
      UnchokeCollected(peerSet, peerEntries, clock);
      round := round + 1;
      if round == 3 {
        round := 0;
      }
    }

    /** The two steps on the entries of a peer set, and what they come to for the set. */
    method UnchokeCollected(peerSet: set<Peer>, peerEntries: seq<PeerEntry>, clock: int)
      requires DistinctPeers(peerEntries)
      requires forall e :: e in peerEntries ==>
        e.peer in peerSet && e == EntryOf(e.peer, clock) && e.peer.active && !e.peer.snubbing && e.peer.chokingRequired
      requires forall p :: p in peerSet && p.active && EntryOf(p, clock) !in peerEntries ==>
        p.chokingRequired && !p.optUnchoking && p.snubbing
      modifies peerSet`chokingRequired, peerSet`optUnchoking
      ensures Passed(peerSet, clock) && Fair(peerSet, clock)
      ensures old(OneOptimistic(peerSet)) || round == 0 ==> OneOptimistic(peerSet)
      ensures forall p :: p in peerSet ==> Facts(p)
      ensures forall p :: p in peerSet && !(p.active && !p.snubbing) ==>
        p.optUnchoking == old(p.optUnchoking) && p.chokingRequired == old(p.chokingRequired)
      ensures round == 0 && (exists p :: p in peerSet && p.active && !p.snubbing && p.amChoking && p.interested) ==>
        exists p :: p in peerSet && p.active && p.optUnchoking
      ensures forall p :: p in peerSet && p.active && !p.snubbing ==> FlagMoves(p, round)
      ensures round != 0 && (exists p :: p in peerSet && p.active && !p.snubbing && old(p.optUnchoking)) ==>
        exists p :: p in peerSet && p.active && p.optUnchoking
    {
      hide Lifted, Arranged, Top, DistinctPeers, Passed, Fair, FlagMoves;
      ghost var order := UnchokeEntries(peerEntries);
      assert Passed(peerSet, clock) && Fair(peerSet, clock) by {
        LiftedAreTop(peerSet, peerEntries, order, clock);
        PassedIsFair(peerSet, clock);
      }
      assert forall p :: p in peerSet && p.active && !p.snubbing ==> EntryOf(p, clock) in peerEntries;
    }

    /** The two steps of a round on the entries. */
    method UnchokeEntries(peerEntries: seq<PeerEntry>) returns (ghost order: seq<PeerEntry>)
      requires DistinctPeers(peerEntries) && forall e :: e in peerEntries ==> e.peer.chokingRequired
      modifies PeersOf(peerEntries)`chokingRequired, PeersOf(peerEntries)`optUnchoking
      ensures Arranged(order) && DistinctPeers(order) && forall e :: e in order <==> e in peerEntries
      ensures forall e :: e in peerEntries ==>
        Facts(e.peer) && e.peer.chokingRequired == !(e in Top(order) && e.peer.interested)
      ensures old(OneFlagged(peerEntries)) || round == 0 ==> OneFlagged(peerEntries)
      ensures round == 0 && (exists e :: e in peerEntries && e.peer.amChoking && e.peer.interested) ==>
        exists e :: e in peerEntries && e.peer.optUnchoking
      ensures forall e :: e in peerEntries ==> FlagMoves(e.peer, round)
      ensures round != 0 && (exists e :: e in peerEntries && old(e.peer.optUnchoking)) ==>
        exists e :: e in peerEntries && e.peer.optUnchoking
    {
      hide Arranged, Top, DistinctPeers;
      var entries := peerEntries;
      if round == 0 {
        entries := PlannedOptimisticUnchoke(peerEntries);
      }
      assert PeersOf(entries) == PeersOf(peerEntries);
      order := RegularUnchoke(entries);
    }
  }

  /** After unchoking, the lifted peers are the interested ones of the first three entries. */
  lemma LiftedAreTop(peerSet: set<Peer>, peers: seq<PeerEntry>, order: seq<PeerEntry>, clock: int)
    requires (forall e :: e in order <==> e in peers) && DistinctPeers(order) && Arranged(order)
    requires forall e :: e in peers ==>
      e.peer in peerSet && e == EntryOf(e.peer, clock) && e.peer.active && !e.peer.snubbing
    requires forall e :: e in peers ==> e.peer.chokingRequired == !(e in Top(order) && e.peer.interested)
    requires forall p :: p in peerSet && p.active && EntryOf(p, clock) !in peers ==> p.chokingRequired && p.snubbing
    ensures Passed(peerSet, clock)
  {
    LiftedEntries(peerSet, peers, order, clock);
    forall q | q in peerSet && q.active && !q.snubbing && q.interested && q.chokingRequired
      ensures |Served(peerSet)| >= SLOTS
    {
      assert EntryOf(q, clock) in peers;
      OthersServed(peerSet, peers, order, EntryOf(q, clock));
    }
    forall q | q in peerSet && q.active && !q.snubbing && q.chokingRequired && EntryOf(q, clock).regularUnchoker
      ensures |Lifted(peerSet)| == SLOTS
      ensures forall p :: p in Lifted(peerSet) ==>
        EntryOf(p, clock).regularUnchoker && p.downloadSpeed >= q.downloadSpeed
    {
      PassedOver(peerSet, peers, order, q, clock);
    }
  }

  lemma OthersServed(peerSet: set<Peer>, peers: seq<PeerEntry>, order: seq<PeerEntry>, y: PeerEntry)
    requires (forall e :: e in order <==> e in peers) && DistinctPeers(order)
    requires forall e :: e in peers ==> e.peer in peerSet && e.peer.active && !e.peer.snubbing
    requires forall e :: e in peers ==> e.peer.chokingRequired == !(e in Top(order) && e.peer.interested)
    requires y in peers && y.peer.interested && y.peer.chokingRequired
    ensures |Served(peerSet)| >= SLOTS
  {
    var top := Top(order);
    var j :| 0 <= j < |order| && order[j] == y;
    TopMembers(order, j);
    DistinctSize(top);
    SubsetSize(PeersOf(top), Served(peerSet));
  }

  lemma LiftedEntries(peerSet: set<Peer>, peers: seq<PeerEntry>, order: seq<PeerEntry>, clock: int)
    requires (forall e :: e in order <==> e in peers) && DistinctPeers(order)
    requires forall e :: e in peers ==>
      e.peer in peerSet && e == EntryOf(e.peer, clock) && e.peer.active && !e.peer.snubbing
    requires forall e :: e in peers ==> e.peer.chokingRequired == !(e in Top(order) && e.peer.interested)
    requires forall p :: p in peerSet && p.active && EntryOf(p, clock) !in peers ==> p.chokingRequired && p.snubbing
    ensures |Lifted(peerSet)| <= SLOTS
    ensures forall p :: p in Lifted(peerSet) ==> EntryOf(p, clock) in Top(order) && p.interested && !p.snubbing
  {
    var top, lifted := Top(order), Lifted(peerSet);
    DistinctSize(top);
    forall p | p in lifted ensures EntryOf(p, clock) in top && p in PeersOf(top) && p.interested && !p.snubbing {
      assert EntryOf(p, clock) in peers;
    }
    assert PeersOf(top) == lifted + (PeersOf(top) - lifted);
  }

  /** A regular unchoker that is passed over was beaten by three regular unchokers that are at least as fast. */
  lemma PassedOver(peerSet: set<Peer>, peers: seq<PeerEntry>, order: seq<PeerEntry>, q: Peer, clock: int)
    requires (forall e :: e in order <==> e in peers) && DistinctPeers(order) && Arranged(order)
    requires forall e :: e in peers ==> e.peer in peerSet && e == EntryOf(e.peer, clock) && e.peer.active
    requires forall e :: e in peers ==> e.peer.chokingRequired == !(e in Top(order) && e.peer.interested)
    requires forall p :: p in Lifted(peerSet) ==> EntryOf(p, clock) in Top(order)
    requires q in peerSet && q.chokingRequired && EntryOf(q, clock).regularUnchoker && EntryOf(q, clock) in peers
    ensures |Lifted(peerSet)| == SLOTS
    ensures forall p :: p in Lifted(peerSet) ==> EntryOf(p, clock).regularUnchoker && p.downloadSpeed >= q.downloadSpeed
  {
    var top, y := Top(order), EntryOf(q, clock);
    var j :| 0 <= j < |order| && order[j] == y;
    TopMembers(order, j);
    AllAhead(order, j);
    DistinctSize(top);
    forall e | e in top ensures e.peer in Lifted(peerSet) {
      assert e in order;
    }
    assert Lifted(peerSet) == PeersOf(top);
  }

  lemma AmongFirst(order: seq<PeerEntry>, k: nat)
    requires k < |order|
    ensures k < |Top(order)| ==> forall i: nat :: i <= k ==> i < |order| && order[i] in Top(order)
    ensures |Top(order)| <= |order|
  {
    forall i: nat | i <= k < |Top(order)| ensures i < |order| && order[i] in Top(order) {
      assert Top(order)[i] == order[i];
    }
  }

  lemma TopMembers(order: seq<PeerEntry>, j: nat)
    requires j < |order| && DistinctPeers(order)
    ensures order[j] in Top(order) <==> j < SLOTS
    ensures forall e :: e in Top(order) ==> e in order
    ensures j >= SLOTS ==> |Top(order)| == SLOTS
  {
    if j < SLOTS {
      assert Top(order)[j] == order[j];
    }
  }

  lemma AllAhead(order: seq<PeerEntry>, j: nat)
    requires j < |order| && Arranged(order) && order[j].regularUnchoker
    ensures j >= SLOTS ==> forall e :: e in Top(order) ==>
      e.regularUnchoker && e.downloadSpeed >= order[j].downloadSpeed
  {
  }
}
