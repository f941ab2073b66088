/** Choking rounds while seeding. */
module SeederChoke {
  import opened ChokePeers
  import opened Sequences

  const TIME_FRAME: int := 20

  datatype PeerEntry = PeerEntry(peer: Peer, outstandingUpload: bool, lastAmUnchoking: int, recentUnchoking: bool,
      uploadSpeed: int)
  {
    /** operator<: the one to be unchoked first. */
    predicate Before(rhs: PeerEntry) {
      if outstandingUpload && !rhs.outstandingUpload then true
      else if !outstandingUpload && rhs.outstandingUpload then false
      else if recentUnchoking && lastAmUnchoking > rhs.lastAmUnchoking then true
      else if rhs.recentUnchoking then false
      else uploadSpeed > rhs.uploadSpeed
    }

    /** The entry was made at this clock value. */
    predicate MadeAt(clock: int) {
      recentUnchoking <==> Elapsed(lastAmUnchoking, clock) < TIME_FRAME
    }
  }

  /** Among entries made at one clock value the comparison is a strict weak order. */
  lemma BeforeIsStrictWeak(a: PeerEntry, b: PeerEntry, c: PeerEntry, clock: int)
    requires a.MadeAt(clock) && b.MadeAt(clock) && c.MadeAt(clock)
    ensures !a.Before(a)
    ensures a.Before(b) ==> !b.Before(a)
    ensures a.Before(b) && b.Before(c) ==> a.Before(c)
    ensures !a.Before(b) && !b.Before(c) ==> !a.Before(c)
  {
  }

  /**
   * The one clock value matters: of three entries made at the clock values 20 and 21 two pairs are not before one
   * another in turn and yet the first is before the last. (A round takes all its entries at the same value.)
   */
  lemma MixedClocksBreakIt(p: Peer, q: Peer, r: Peer) returns (a: PeerEntry, b: PeerEntry, c: PeerEntry)
    ensures a.peer == p && a.MadeAt(20) && b.peer == q && b.MadeAt(20) && c.peer == r && c.MadeAt(21)
    ensures !a.Before(b) && !b.Before(c) && a.Before(c)
  {
    a, b, c := PeerEntry(p, false, 0, false, 2), PeerEntry(q, false, 1, true, 0), PeerEntry(r, false, 1, false, 1);
  }

  ghost predicate Sorted(s: seq<PeerEntry>) {
    forall i, j :: 0 <= i < j < |s| ==> !s[j].Before(s[i])
  }

  ghost predicate DistinctPeers(s: seq<PeerEntry>) {
    forall i, j :: 0 <= i < j < |s| ==> s[i].peer != s[j].peer
  }

  ghost function PeersOf(s: seq<PeerEntry>): set<Peer> {
    set e | e in s :: e.peer
  }

  /** std::sort with the comparator of entries made at one clock value. */
  method SortEntries(s: seq<PeerEntry>, ghost clock: int) returns (r: seq<PeerEntry>)
    requires forall e :: e in s ==> e.MadeAt(clock)
    ensures multiset(r) == multiset(s) && Sorted(r)
  {
    r := [];
    assert Sorted(r);
    var i := 0;
    while i < |s|
      invariant 0 <= i <= |s| && multiset(r) == multiset(s[..i]) && Sorted(r) && forall e :: e in r ==> e.MadeAt(clock)
    {
      var k: nat := |r|;
      while k > 0 && s[i].Before(r[k - 1])
        invariant k <= |r| && forall j :: k <= j < |r| ==> s[i].Before(r[j])
      {
        k := k - 1;
      }
      InsertSorted(r, k, s[i], clock);
      InsertMembers(r, k, s[i]);
      TakeMembers(s, i);
      r := r[..k] + [s[i]] + r[k..];
      i := i + 1;
    }
    assert s[..|s|] == s;
  }

  lemma InsertSorted(r: seq<PeerEntry>, k: nat, e: PeerEntry, clock: int)
    requires k <= |r| && Sorted(r) && e.MadeAt(clock) && forall x :: x in r ==> x.MadeAt(clock)
    requires forall j :: k <= j < |r| ==> e.Before(r[j])
    requires k > 0 ==> !e.Before(r[k - 1])
    ensures Sorted(r[..k] + [e] + r[k..])
  {
    hide e.Before, e.MadeAt;
    var t := r[..k] + [e] + r[k..];
    forall i, j | 0 <= i < j < |t| ensures !t[j].Before(t[i]) {
      if j == k {
        BeforeIsStrictWeak(e, r[k - 1], r[i], clock);
      } else if i == k {
        BeforeIsStrictWeak(e, r[j - 1], e, clock);
      } else {
        assert t[j] == r[if j < k then j else j - 1] && t[i] == r[if i < k then i else i - 1];
      }
    }
  }

  lemma PermutedDistinct(a: seq<PeerEntry>, b: seq<PeerEntry>)
    requires DistinctPeers(a) && multiset(a) == multiset(b)
    ensures DistinctPeers(b) && PeersOf(a) == PeersOf(b) && |a| == |b|
  {
    assert NoneTwice(a);
    PermutedNoneTwice(a, b);
    forall i, j | 0 <= i < j < |b| ensures b[i].peer != b[j].peer {
      assert b[i] in b && b[j] in b;
      var x :| 0 <= x < |a| && a[x] == b[i];
      var y :| 0 <= y < |a| && a[y] == b[j];
    }
  }

  /** What a round never changes of a peer. */
  twostate predicate Facts(p: Peer)
    reads p
  {
    && p.active == old(p.active) && p.interested == old(p.interested) && p.outstandingUpload == old(p.outstandingUpload)
    && p.lastAmUnchoking == old(p.lastAmUnchoking) && p.uploadSpeed == old(p.uploadSpeed)
  }

  /** What the first loop does to a peer: an active one is to be choked and, if not interested, loses its flag. */
  twostate predicate Collected(p: Peer)
    reads p
  {
    && Facts(p)
    && p.optUnchoking == (old(p.optUnchoking) && (!p.active || p.interested))
    && p.chokingRequired == (p.active || old(p.chokingRequired))
  }

  /** What a whole round does to a peer apart from those it lifts and flags. */
  twostate predicate Kept(p: Peer, round: int)
    reads p
  {
    && Facts(p)
    && (!p.active ==> p.optUnchoking == old(p.optUnchoking) && p.chokingRequired == old(p.chokingRequired))
    && (p.active && !p.interested ==> !p.optUnchoking && p.chokingRequired)
    && (p.active && p.interested && round == 2 ==> p.optUnchoking == old(p.optUnchoking))
  }

  class BtSeederStateChoke {
    var round: int

    predicate Valid()
      reads this
    {
      0 <= round < 3
    }

    constructor ()
      ensures Valid() && round == 0
    {
      round := 0;
    }

    function Slots(): nat
      reads this
    {
      if round == 2 then 4 else 3
    }

    /**
     * unchoke: the first entries in order have their choking lifted. In rounds 0 and 1 the optimistic flags are
     * cleared and, if entries are left over, one of those, the f-th, is flagged.
     */
    method Unchoke(peers: seq<PeerEntry>, ghost clock: int) returns (ghost order: seq<PeerEntry>, ghost f: nat)
      requires Valid() && DistinctPeers(peers) && forall e :: e in peers ==> e.MadeAt(clock)
      modifies PeersOf(peers)`chokingRequired, PeersOf(peers)`optUnchoking
      ensures multiset(order) == multiset(peers) && DistinctPeers(order) && Sorted(order)
      ensures forall e :: e in peers ==>
        e.peer.chokingRequired == (e !in Top(order, Slots()) && old(e.peer.chokingRequired))
      ensures round == 2 ==> forall e :: e in peers ==> e.peer.optUnchoking == old(e.peer.optUnchoking)
      ensures round < 2 ==> forall e :: e in peers ==> e.peer.optUnchoking == (f < |order| && e == order[f])
      ensures f >= Slots() && (f < |order| <==> round < 2 && |order| > Slots())
      ensures forall e :: e in peers ==> Facts(e.peer)
    {
      var count := if round == 2 then 4 else 3;
      var entries := SortEntries(peers, clock);
      PermutedDistinct(peers, entries);
      SameMembers(peers, entries);
      order := entries;
      f := Slots() + |order|;
      hide Sorted, PeerEntry.Before;
      var r := LiftFirst(entries, count);
      if round < 2 {
        f := FlagOneOf(entries, r);
      }
    }

    /** The choking of the first `count` entries is lifted; r is where the loop stops. */
    method LiftFirst(entries: seq<PeerEntry>, count: nat) returns (r: nat)
      requires DistinctPeers(entries)
      modifies PeersOf(entries)`chokingRequired, PeersOf(entries)`optUnchoking
      ensures r == (if |entries| < count then |entries| else count)
      ensures forall e :: e in entries ==>
        e.peer.chokingRequired == (e !in Top(entries, count) && old(e.peer.chokingRequired))
      ensures forall e :: e in entries ==> e.peer.optUnchoking == old(e.peer.optUnchoking) && Facts(e.peer)
    {
      r := 0;
      var left := count;
      while r != |entries| && left != 0
        invariant 0 <= r <= |entries| && 0 <= left && r + left == count
        invariant forall e :: e in entries ==>
          e.peer.chokingRequired == (e !in entries[..r] && old(e.peer.chokingRequired))
        invariant forall e :: e in entries ==> e.peer.optUnchoking == old(e.peer.optUnchoking) && Facts(e.peer)
        decreases left
      {
        TakeOneMore(entries, r);
        entries[r].peer.chokingRequired := false;
        r, left := r + 1, left - 1;
      }
      assert entries[..|entries|] == entries;
    }

    /** All optimistic flags are cleared, then one from the r-th entry on is set, if there is one. */
    method FlagOneOf(entries: seq<PeerEntry>, r: nat) returns (ghost f: nat)
      requires DistinctPeers(entries) && r <= |entries|
      modifies PeersOf(entries)`chokingRequired, PeersOf(entries)`optUnchoking
      ensures f >= r && (f < |entries| <==> r < |entries|) && (r == |entries| ==> f == r + 4)
      ensures forall e :: e in entries ==> e.peer.optUnchoking == (f < |entries| && e == entries[f])
      ensures forall e :: e in entries ==> e.peer.chokingRequired == old(e.peer.chokingRequired) && Facts(e.peer)
    {
      f := r + 4;
      assert entries[..0] == [];
      for k := 0 to |entries|
        invariant forall e :: e in entries ==> e.peer.optUnchoking == (e !in entries[..k] && old(e.peer.optUnchoking))
        invariant forall e :: e in entries ==> e.peer.chokingRequired == old(e.peer.chokingRequired) && Facts(e.peer)
      {
        TakeOneMore(entries, k);
        entries[k].peer.optUnchoking := false;
      }
      assert entries[..|entries|] == entries;
      if r != |entries| {
        var rest := Shuffle(entries[r..]);
        f := FirstOfShuffled(entries, r, rest);
        rest[0].peer.optUnchoking := true;
      }
    }

    /** The first loop of executeChoke: all active peers are to be choked; those interested become entries. */
    method Collect(peerSet: set<Peer>, clock: int) returns (peerEntries: seq<PeerEntry>)
      modifies peerSet`chokingRequired, peerSet`optUnchoking
      ensures DistinctPeers(peerEntries)
      ensures forall e :: e in peerEntries ==>
        e.peer in peerSet && e == EntryOf(e.peer, clock) && e.peer.active && e.peer.interested && e.peer.chokingRequired
      ensures forall p :: p in peerSet && p.active && EntryOf(p, clock) !in peerEntries ==>
        p.chokingRequired && !p.optUnchoking && !p.interested
      ensures forall p :: p in peerSet ==> Collected(p)
    {
      peerEntries := [];
      var todo := peerSet;
      hide PeerEntry.Before, PeerEntry.MadeAt, DistinctPeers;
      assert DistinctPeers([]) by { NoneDistinct(); }
      while todo != {}
        invariant todo <= peerSet && DistinctPeers(peerEntries)
        invariant forall e :: e in peerEntries ==> e.peer in peerSet && e.peer !in todo
        invariant forall e :: e in peerEntries ==>
          e == EntryOf(e.peer, clock) && e.peer.active && e.peer.interested && e.peer.chokingRequired
        invariant forall p :: p in peerSet && p !in todo && p.active && EntryOf(p, clock) !in peerEntries ==>
          p.chokingRequired && !p.optUnchoking && !p.interested
        invariant forall p :: p in peerSet && p !in todo ==> Collected(p)
        invariant forall p :: p in todo ==> unchanged(p)
        decreases |todo|
      {
        var p :| p in todo;
        todo := todo - {p};
        if p.active {
          p.chokingRequired := true;
          if p.interested {
            AppendDistinct(peerEntries, EntryOf(p, clock));
            peerEntries := peerEntries + [EntryOf(p, clock)];
          } else {
            p.optUnchoking := false;
          }
        }
      }
    }

    /** executeChoke: every peer of the set that is active, in any order. */
    method ExecuteChoke(peerSet: set<Peer>, clock: int)
      requires Valid()
      modifies this, peerSet`chokingRequired, peerSet`optUnchoking
      ensures Valid() && round == (old(round) + 1) % 3
      ensures old(OneOptimistic(peerSet)) ==> OneOptimistic(peerSet)
      ensures forall p :: p in peerSet ==> Kept(p, old(round))
      ensures Passed(peerSet, old(Slots()), clock) && (old(round) < 2 ==> Flagged(peerSet))
      ensures Fair(peerSet, if old(round) == 2 then 4 else 3, clock)
    {
      hide PeerEntry.Before, PeerEntry.MadeAt, Lifted, DistinctPeers, Passed, Fair, EntryOf, Deserves, Top;
      var peerEntries := Collect(peerSet, clock);
      UnchokeCollected(peerSet, peerEntries, clock);
      round := round + 1;
      if round == 3 {
        round := 0;
      }
    }

    /** unchoke on the entries of a peer set, and what it comes to for the set. */
    method UnchokeCollected(peerSet: set<Peer>, peerEntries: seq<PeerEntry>, clock: int)
      requires Valid() && DistinctPeers(peerEntries)
      requires forall e :: e in peerEntries ==>
        e.peer in peerSet && e == EntryOf(e.peer, clock) && e.peer.active && e.peer.interested && e.peer.chokingRequired
      requires forall p :: p in peerSet && p.active && EntryOf(p, clock) !in peerEntries ==>
        p.chokingRequired && !p.optUnchoking && !p.interested
      modifies peerSet`chokingRequired, peerSet`optUnchoking
      ensures Passed(peerSet, Slots(), clock) && Fair(peerSet, Slots(), clock) && (round < 2 ==> Flagged(peerSet))
      ensures forall p :: p in peerSet ==> Facts(p) && (round == 2 ==> p.optUnchoking == old(p.optUnchoking))
      ensures forall p :: p in peerSet && !(p.active && p.interested) ==>
        p.optUnchoking == old(p.optUnchoking) && p.chokingRequired == old(p.chokingRequired)
    {
      hide PeerEntry.Before, PeerEntry.MadeAt, Lifted, Top, Sorted, DistinctPeers, Fair;
      ghost var slots := Slots();
      ghost var order, f := Unchoke(peerEntries, clock);
      LiftedAreTop(peerSet, peerEntries, order, slots, clock);
      PassedIsFair(peerSet, Slots(), clock);
      if round < 2 {
        FlaggedIsLeftOver(peerSet, peerEntries, order, slots, f, clock);
      }
    }
  }

  /**
   * At most so many interested peers are lifted, exactly as many if one is passed over, who comes before none of them.
   */
  ghost predicate Passed(peerSet: set<Peer>, slots: nat, clock: int)
    reads peerSet
  {
    && |Lifted(peerSet)| <= slots
    && (forall p :: p in Lifted(peerSet) ==> p.interested)
    && (forall q :: q in peerSet && q.active && q.interested && q.chokingRequired ==> |Lifted(peerSet)| == slots)
    && (forall p, q :: p in Lifted(peerSet) && q in peerSet && q.active && q.interested && q.chokingRequired ==>
         !EntryOf(q, clock).Before(EntryOf(p, clock)))
  }

  /**
   * p, whose choking is lifted, has as good a claim as q, who is passed over: first come those with uploads
   * outstanding, then those unchoked within the last 20 seconds, the last one first, then the fastest.
   */
  ghost predicate Deserves(p: Peer, q: Peer, clock: int)
    reads p, q
  {
    && (q.outstandingUpload > 0 ==> p.outstandingUpload > 0)
    && ((p.outstandingUpload > 0 <==> q.outstandingUpload > 0) ==>
         && (clock - q.lastAmUnchoking < 20 ==> p.lastAmUnchoking >= q.lastAmUnchoking)
         && (clock - p.lastAmUnchoking >= 20 && clock - q.lastAmUnchoking >= 20 ==> p.uploadSpeed >= q.uploadSpeed))
  }

  /**
   * In terms of the peers: at most so many are lifted, all of them interested; if an interested one is passed over they
   * are exactly as many, and each of them has as good a claim.
   */
  ghost predicate Fair(peerSet: set<Peer>, slots: nat, clock: int)
    reads peerSet
  {
    var lifted := set p | p in peerSet && p.active && !p.chokingRequired;
    && |lifted| <= slots
    && (forall p :: p in lifted ==> p.interested)
    && forall q :: q in peerSet && q.active && q.interested && q.chokingRequired ==>
         |lifted| == slots && forall p :: p in lifted ==> Deserves(p, q, clock)
  }

  lemma PassedIsFair(peerSet: set<Peer>, slots: nat, clock: int)
    requires Passed(peerSet, slots, clock)
    ensures Fair(peerSet, slots, clock)
  {
    assert Lifted(peerSet) == set p | p in peerSet && p.active && !p.chokingRequired;
  }

  /** One active peer that is passed over is flagged, if there is one, and no other. */
  ghost predicate Flagged(peerSet: set<Peer>)
    reads peerSet
  {
    && OneOptimistic(peerSet)
    && (forall p :: p in peerSet && p.active && p.optUnchoking ==> p.chokingRequired)
    && ((exists q :: q in peerSet && q.active && q.interested && q.chokingRequired) ==>
        exists p :: p in peerSet && p.active && p.optUnchoking)
  }

  function EntryOf(p: Peer, clock: int): (e: PeerEntry)
    reads p
    ensures e.MadeAt(clock) && e.peer == p
  {
    PeerEntry(p, p.outstandingUpload > 0, p.lastAmUnchoking, Elapsed(p.lastAmUnchoking, clock) < TIME_FRAME,
        p.uploadSpeed)
  }

  function Top(s: seq<PeerEntry>, n: nat): seq<PeerEntry> {
    if |s| < n then s else s[..n]
  }

  /**
   * When one entry beyond the first ones is flagged: no other active peer is, it stays choked, and one is flagged if
   * any is left over.
   */
  lemma FlaggedIsLeftOver(peerSet: set<Peer>, peers: seq<PeerEntry>, order: seq<PeerEntry>, slots: nat, f: nat,
      clock: int)
    requires multiset(order) == multiset(peers) && DistinctPeers(order) && f >= slots
      && (f < |order| <==> |order| > slots)
    requires forall e :: e in peers ==> e.peer in peerSet && e == EntryOf(e.peer, clock) && e.peer.active
    requires forall e :: e in peers ==> e.peer.chokingRequired == (e !in Top(order, slots))
    requires forall e :: e in peers ==> e.peer.optUnchoking == (f < |order| && e == order[f])
    requires forall p :: p in peerSet && p.active && EntryOf(p, clock) !in peers ==> !p.interested && !p.optUnchoking
    ensures Flagged(peerSet)
  {
    hide PeerEntry.Before;
    SameMembers(peers, order);
    if f < |order| {
      assert order[f] in order;
      forall e | e in Top(order, slots) ensures e != order[f] {
        var k :| 0 <= k < |Top(order, slots)| && Top(order, slots)[k] == e;
        assert order[k] == e;
      }
    }
    if q :| q in peerSet && q.active && q.interested && q.chokingRequired {
      assert EntryOf(q, clock) in order && EntryOf(q, clock) !in Top(order, slots);
      assert |order| <= slots ==> order == Top(order, slots);
    }
  }

  lemma TopSize(s: seq<PeerEntry>, n: nat)
    requires DistinctPeers(s)
    ensures |PeersOf(Top(s, n))| == (if |s| < n then |s| else n)
    ensures forall e :: e in Top(s, n) ==> e in s
  {
    var t := Top(s, n);
    DistinctSize(t);
  }

  lemma {:induction false} DistinctSize(s: seq<PeerEntry>)
    requires DistinctPeers(s)
    ensures |PeersOf(s)| == |s|
  {
    if s != [] {
      var n := |s| - 1;
      DistinctSize(s[..n]);
      TakeOneMore(s, n);
      assert s[..n + 1] == s;
      assert PeersOf(s) == PeersOf(s[..n]) + {s[n].peer};
    }
  }

  /** After unchoking, the lifted peers are those of the first entries in order. */
  lemma LiftedAreTop(peerSet: set<Peer>, peers: seq<PeerEntry>, order: seq<PeerEntry>, slots: nat, clock: int)
    requires multiset(order) == multiset(peers) && DistinctPeers(order) && Sorted(order)
    requires forall e :: e in peers ==>
      e.peer in peerSet && e == EntryOf(e.peer, clock) && e.peer.active && e.peer.interested
    requires forall e :: e in peers ==> e.peer.chokingRequired == (e !in Top(order, slots))
    requires forall p :: p in peerSet && p.active && EntryOf(p, clock) !in peers ==> p.chokingRequired && !p.interested
    ensures Passed(peerSet, slots, clock)
  {
    hide PeerEntry.Before;
    SameMembers(peers, order);
    TopSize(order, slots);
    var top := Top(order, slots);
    assert Lifted(peerSet) == PeersOf(top) by {
      forall p | p in Lifted(peerSet) ensures p in PeersOf(top) {
        assert EntryOf(p, clock) in peers;
      }
    }
    forall q | q in peerSet && q.active && q.interested && q.chokingRequired ensures |Lifted(peerSet)| == slots {
      var y := EntryOf(q, clock);
      assert y in order && y !in top;
    }
    forall p, q | p in Lifted(peerSet) && q in peerSet && q.active && q.interested && q.chokingRequired
      ensures !EntryOf(q, clock).Before(EntryOf(p, clock))
    {
      var x, y := EntryOf(p, clock), EntryOf(q, clock);
      assert x in top && y in order && y !in top;
      var i :| 0 <= i < |top| && top[i] == x;
      var j :| 0 <= j < |order| && order[j] == y;
      assert order[i] == x && j >= |top|;
    }
  }

  lemma NoneDistinct()
    ensures DistinctPeers([])
  {
  }

  lemma AppendDistinct(s: seq<PeerEntry>, e: PeerEntry)
    requires DistinctPeers(s) && forall x :: x in s ==> x.peer != e.peer
    ensures DistinctPeers(s + [e]) && forall x :: x in s + [e] <==> x in s || x == e
  {
  }

  lemma TakeOneMore(s: seq<PeerEntry>, k: nat)
    requires DistinctPeers(s) && k < |s|
    ensures forall e :: e in s[..k + 1] <==> e in s[..k] || e == s[k]
    ensures s[k] in s && forall e :: e in s && e.peer == s[k].peer ==> e == s[k]
  {
    assert s[..k + 1] == s[..k] + [s[k]];
  }

  lemma FirstOfShuffled(s: seq<PeerEntry>, r: nat, rest: seq<PeerEntry>) returns (f: nat)
    requires DistinctPeers(s) && r < |s| && multiset(rest) == multiset(s[r..])
    ensures rest != [] && r <= f < |s| && s[f] == rest[0] && s[f] in s
    ensures forall e :: e in s && e.peer == s[f].peer ==> e == s[f]
  {
    assert |multiset(rest)| == |multiset(s[r..])|;
    assert rest[0] in multiset(s[r..]);
    var m :| 0 <= m < |s[r..]| && s[r..][m] == rest[0];
    f := r + m;
  }
}
