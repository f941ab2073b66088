/** The peers of a download as the choking rounds see them. */
module ChokePeers {

  class Peer {
    var active: bool
    var interested: bool
    var snubbing: bool
    var amChoking: bool
    var outstandingUpload: nat
    var lastAmUnchoking: int
    var uploadSpeed: int
    var downloadSpeed: int
    var lastDownloadUpdate: int
    var chokingRequired: bool
    var optUnchoking: bool

    constructor ()
      ensures !active && !optUnchoking && chokingRequired
    {
      active, interested, snubbing, amChoking := false, false, false, true;
      outstandingUpload, lastAmUnchoking, uploadSpeed, downloadSpeed, lastDownloadUpdate := 0, 0, 0, 0, 0;
      chokingRequired, optUnchoking := true, false;
    }
  }

  /** At most one active peer is unchoked optimistically. */
  ghost predicate OneOptimistic(peers: set<Peer>)
    reads peers
  {
    forall p, q :: p in peers && q in peers && p.active && q.active && p.optUnchoking && q.optUnchoking ==> p == q
  }

  /** The active peers whose choking was lifted. */
  ghost function Lifted(peers: set<Peer>): set<Peer>
    reads peers
  {
    set p | p in peers && p.active && !p.chokingRequired
  }

  /** std::shuffle: callers know only that it is some order of the elements. */
  method Shuffle<T>(s: seq<T>) returns (r: seq<T>)
    ensures multiset(r) == multiset(s)
  {
    r := s;
  }

  /** Timer::difference: the time from t to the clock, zero if t is ahead of it. */
  function Elapsed(t: int, clock: int): int {
    if clock < t then 0 else clock - t
  }
}
