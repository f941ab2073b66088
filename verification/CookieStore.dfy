/**
 * The cookie store: a trie of reversed domain labels, and a tracker of the nodes that have held cookies,
 * ordered by when they were last used. A node is named by its path, the labels from the top level down;
 * the nodes that exist are the keys of a map.
 */
module CookieStore {
  import opened Cookies
  import opened DomainNodes

  type Path = seq<string>
  type Nodes = map<Path, DomainNode>
  type Tracker = set<(int, Path)>

  const DOMAIN_EVICTION_TRIGGER: nat := 2000
  const FRESH := DomainNode(0, 0, false, NoList)

  function Parent(p: Path): Path
    requires p != []
  {
    p[..|p| - 1]
  }

  predicate HasNext(nodes: Nodes, p: Path) {
    exists q :: q in nodes && q != [] && Parent(q) == p
  }

  // ----- what every operation keeps -----

  ghost predicate Tree(nodes: Nodes) {
    && [] in nodes && nodes[[]].list.NoList?
    && forall p :: p in nodes && p != [] ==> Parent(p) in nodes
  }

  /** A node that holds cookies is tracked; only tracked nodes are ever cleared, so they have a list. */
  ghost predicate Sound(isNumeric: string -> bool, p: Path, n: DomainNode) {
    && (n.inLru ==> n.list.List?)
    && (!n.Empty() ==> n.inLru)
    && |n.list.Content()| <= MAX_COOKIE_PER_DOMAIN
    && Distinct(n.list.Content())
    && forall c :: c in n.list.Content() ==> Labels(isNumeric, c.domain) == p
  }

  ghost predicate AllSound(isNumeric: string -> bool, nodes: Nodes) {
    forall p :: p in nodes ==> Sound(isNumeric, p, nodes[p])
  }

  /** The tracker holds exactly the existing nodes marked as tracked, each under its time of last use. */
  ghost predicate Tracks(nodes: Nodes, lru: Tracker) {
    forall t, p :: (t, p) in lru <==> p in nodes && nodes[p].inLru && nodes[p].lruAccessTime == t
  }

  /** A node that serves no purpose: below the root, without cookies and without children. */
  ghost predicate Dead(nodes: Nodes, p: Path) {
    p in nodes && p != [] && nodes[p].Empty() && !HasNext(nodes, p)
  }

  // ----- eviction -----

  /**
   * The trie after some evictions. The victims were tracked, lost their cookies, and were used no later than any
   * node still tracked; other nodes kept everything; a node that was freed was a victim or had no cookies; and no
   * node has become useless.
   */
  ghost predicate Evicting(before: Nodes, after: Nodes, victims: set<Path>) {
    && (forall v :: v in victims ==> v in before && before[v].inLru)
    && (forall p :: p in after ==>
        p in before && after[p] == if p in victims then before[p].(inLru := false, list := List([])) else before[p])
    && (forall p :: p in before && p !in after ==> p in victims || before[p].Empty())
    && (forall v, p :: v in victims && p in after && after[p].inLru ==>
        before[v].lruAccessTime <= before[p].lruAccessTime)
    && (forall p :: Dead(after, p) ==> Dead(before, p))
  }

  /** Fewer than `count` nodes fall victim only when none is left that is tracked. */
  ghost predicate Evicted(before: Nodes, after: Nodes, victims: set<Path>, count: nat) {
    && Evicting(before, after, victims)
    && |victims| <= count
    && (|victims| == count || forall p :: p in after ==> !after[p].inLru)
  }

  lemma OldestExists(lru: Tracker) returns (least: (int, Path))
    requires lru != {}
    ensures least in lru && forall e :: e in lru ==> least.0 <= e.0
  {
    least :| least in lru;
    if lru != {least} {
      var rest := lru - {least};
      var other := OldestExists(rest);
      assert forall e :: e in lru ==> e == least || e in rest;
      if other.0 < least.0 {
        least := other;
      }
    }
  }

  // ----- storing -----

  function Prefixes(p: Path): (r: set<Path>)
    ensures forall q :: q in r <==> q <= p
  {
    var r := set k | 0 <= k <= |p| :: p[..k];
    assert forall q :: q <= p ==> q == p[..|q|];
    r
  }

  /** The trie after a cookie is stored: its way exists, and its node has taken it. */
  function Stored(nodes: Nodes, p: Path, c: Cookie, now: int): Nodes {
    map q | q in nodes.Keys + Prefixes(p) ::
        if q == p then Took(if q in nodes then nodes[q] else FRESH, c, now) else if q in nodes then nodes[q] else FRESH
  }

  function Took(n: DomainNode, c: Cookie, now: int): DomainNode {
    var m := n.(lastAccessTime := now, list := Added(n.list, c, now));
    if c.IsExpired(now) then m else m.(inLru := true, lruAccessTime := now)
  }

  /** The trie with a way made through it. */
  function Grown(nodes: Nodes, p: Path): Nodes {
    map q | q in nodes.Keys + Prefixes(p) :: if q in nodes then nodes[q] else FRESH
  }

  lemma GrownStart(nodes: Nodes)
    requires Tree(nodes)
    ensures Grown(nodes, []) == nodes
  {
  }

  lemma GrownStep(nodes: Nodes, p: Path, i: nat)
    requires i < |p|
    ensures var q, g := p[..i + 1], Grown(nodes, p[..i]);
      p[..i] + [p[i]] == q && Grown(nodes, q) == if q in g then g else g[q := FRESH]
  {
    assert p[..i] + [p[i]] == p[..i + 1];
    var longer, shorter := Prefixes(p[..i + 1]), Prefixes(p[..i]);
    forall r | r in longer ensures r in shorter || r == p[..i + 1] {
      if |r| <= i {
        assert r == p[..i][..|r|];
      } else {
        assert r == p[..i + 1];
      }
    }
    forall r | r in shorter ensures r in longer {
      assert r == p[..i + 1][..|r|];
    }
  }

  lemma GrownKeeps(isNumeric: string -> bool, nodes: Nodes, lru: Tracker, p: Path)
    requires Tree(nodes) && AllSound(isNumeric, nodes) && Tracks(nodes, lru)
    ensures p in Grown(nodes, p) && Tree(Grown(nodes, p)) && AllSound(isNumeric, Grown(nodes, p))
      && Tracks(Grown(nodes, p), lru)
  {
    hide Labels;
    var g := Grown(nodes, p);
    forall q | q in g && q != [] ensures Parent(q) in g {
      if q !in nodes {
        assert Parent(q) <= p;
      }
    }
    forall q | q in g ensures Sound(isNumeric, q, g[q]) {
    }
  }

  /** The node has its cookie but is not tracked anew: the tracker is still right, the trie is still a tree. */
  lemma TookKeeps(isNumeric: string -> bool, grown: Nodes, lru: Tracker, p: Path, c: Cookie, now: int, nodes: Nodes)
    requires Tree(grown) && Tracks(grown, lru) && p in grown && p != []
    requires nodes == grown[p := grown[p].(lastAccessTime := now, list := Added(grown[p].list, c, now))]
    ensures Tree(nodes) && Tracks(nodes, lru)
  {
    hide Added;
    forall q | q in nodes && q != [] ensures Parent(q) in nodes {
      assert Parent(q) in grown;
    }
  }

  lemma StoredInSteps(isNumeric: string -> bool, mid: Nodes, grown: Nodes, p: Path, c: Cookie, now: int, nodes: Nodes)
    requires grown == Grown(mid, p) && p != [] && p == Labels(isNumeric, c.domain)
    requires Tree(grown) && AllSound(isNumeric, grown)
    requires p in grown && nodes == grown[p := Took(grown[p], c, now)]
    ensures nodes == Stored(mid, p, c, now)
    ensures Tree(nodes) && AllSound(isNumeric, nodes)
  {
    hide Added, Labels, c.IsExpired, Sound, Took;
    TookIsSound(isNumeric, p, grown[p], c, now);
    forall q | q in nodes && q != [] ensures Parent(q) in nodes {
      assert Parent(q) in grown;
    }
  }

  lemma TookUnfold(n: DomainNode, c: Cookie, now: int)
    ensures Took(n, c, now)
      == n.(lastAccessTime := now, list := Added(n.list, c, now), inLru := n.inLru || !c.IsExpired(now),
                                  lruAccessTime := if c.IsExpired(now) then n.lruAccessTime else now)
  {
  }

  lemma NothingEvicted(nodes: Nodes)
    ensures Evicted(nodes, nodes, {}, 0)
  {
  }

  lemma TookIsSound(isNumeric: string -> bool, p: Path, n: DomainNode, c: Cookie, now: int)
    requires Sound(isNumeric, p, n) && Labels(isNumeric, c.domain) == p
    ensures Sound(isNumeric, p, Took(n, c, now))
  {
    hide Added, Labels, c.IsExpired;
    var cs, ds := n.list.Content(), Added(n.list, c, now).Content();
    AddedMeaning(n.list, c, now, cs, ds);
    assert c.IsExpired(now) && n.list.NoList? ==> Added(n.list, c, now) == n.list by { AddedKind(n.list, c, now); }
    AddedKind(n.list, c, now);
    forall d | d in ds ensures Labels(isNumeric, d.domain) == p {
      if !d.Same(c) { assert d in cs; }
    }
    assert c.IsExpired(now) ==> forall k :: 0 <= k < |ds| ==> ds[k] in cs by {
      assert forall k :: 0 <= k < |ds| ==> ds[k] in ds;
    }
    assert c.IsExpired(now) && cs == [] ==> |ds| == 0 by {
      if c.IsExpired(now) && |ds| > 0 { assert ds[0] in cs; }
    }
  }

  lemma AddedKind(list: CookieList, c: Cookie, now: int)
    ensures Added(list, c, now).List? <==> list.List? || !c.IsExpired(now)
  {
  }

  // ----- searching -----

  function Searched(isNumeric: string -> bool, n: DomainNode, r: Request): DomainNode {
    var m := n.(lastAccessTime := r.now, lruAccessTime := if n.inLru then r.now else n.lruAccessTime);
    m.(list := if n.list.List? then List(Visited(isNumeric, n.list.cookies, r)) else NoList)
  }

  /** The trie after a search that went k levels down the host's way. */
  function SearchedTo(isNumeric: string -> bool, nodes: Nodes, way: Path, k: nat, r: Request): Nodes
    requires k <= |way|
  {
    map p | p in nodes :: if p != [] && p <= way[..k] then Searched(isNumeric, nodes[p], r) else nodes[p]
  }

  /** The stored cookies of the first k levels of the way that the request accepts. */
  function FoundTo(isNumeric: string -> bool, nodes: Nodes, way: Path, k: nat, r: Request): set<Cookie>
    requires k <= |way|
  {
    set p, c | p in nodes && p <= way[..k] && c in nodes[p].list.Content() && r.Accepts(isNumeric, c) :: c
  }

  function AsSet(cs: seq<Cookie>): set<Cookie> {
    set c | c in cs
  }

  function Accepted(isNumeric: string -> bool, cs: seq<Cookie>, r: Request): set<Cookie> {
    set c | c in cs && r.Accepts(isNumeric, c)
  }

  lemma SearchStart(isNumeric: string -> bool, nodes: Nodes, way: Path, r: Request)
    requires Tree(nodes)
    ensures SearchedTo(isNumeric, nodes, way, 0, r) == nodes
    ensures AsSet([]) == FoundTo(isNumeric, nodes, way, 0, r)
  {
  }

  lemma SearchKeys(isNumeric: string -> bool, nodes: Nodes, way: Path, k: nat, r: Request)
    requires k < |way|
    ensures SearchedTo(isNumeric, nodes, way, k, r).Keys == nodes.Keys && way[..k] + [way[k]] == way[..k + 1]
  {
  }

  lemma PrefixStep(p: Path, way: Path, k: nat)
    requires k < |way|
    ensures p <= way[..k + 1] <==> p <= way[..k] || p == way[..k + 1]
  {
    if p <= way[..k + 1] {
      if |p| <= k { assert p == way[..k + 1][..|p|] == way[..k][..|p|]; } else { assert p == way[..k + 1]; }
    }
    if p <= way[..k] { assert way[..k + 1] == way[..k] + [way[k]]; }
  }

  lemma SearchStep(isNumeric: string -> bool, nodes: Nodes, way: Path, k: nat, r: Request)
    requires k < |way| && way[..k + 1] in nodes
    ensures var next, s := way[..k + 1], SearchedTo(isNumeric, nodes, way, k, r);
      && way[..k] + [way[k]] == next && next in s && s[next] == nodes[next]
      && SearchedTo(isNumeric, nodes, way, k + 1, r) == s[next := Searched(isNumeric, nodes[next], r)]
  {
    hide Searched;
    assert !(way[..k + 1] <= way[..k]);
    var later := SearchedTo(isNumeric, nodes, way, k + 1, r);
    var next := way[..k + 1];
    var s := SearchedTo(isNumeric, nodes, way, k, r);
    forall p | p in later ensures later[p] == s[next := Searched(isNumeric, nodes[next], r)][p] {
      PrefixStep(p, way, k);
    }
  }

  /** The cookies found so far, when the nodes below them change, stay what was found. */
  lemma FoundStep(isNumeric: string -> bool, s: Nodes, later: Nodes, way: Path, k: nat, r: Request)
    requires k < |way| && way[..k + 1] in s && way[..k + 1] in later && later == s[way[..k + 1] := later[way[..k + 1]]]
    ensures FoundTo(isNumeric, later, way, k + 1, r)
         == FoundTo(isNumeric, s, way, k, r) + Accepted(isNumeric, later[way[..k + 1]].list.Content(), r)
  {
    hide r.Accepts;
    assert !(way[..k + 1] <= way[..k]);
    var next := way[..k + 1];
    var found, before := FoundTo(isNumeric, later, way, k + 1, r), FoundTo(isNumeric, s, way, k, r);
    var here := Accepted(isNumeric, later[next].list.Content(), r);
    forall c | c in found ensures c in before + here {
      var p :| p in later && p <= way[..k + 1] && c in later[p].list.Content() && r.Accepts(isNumeric, c);
      PrefixStep(p, way, k);
    }
    forall c | c in before ensures c in found {
      var p :| p in s && p <= way[..k] && c in s[p].list.Content() && r.Accepts(isNumeric, c);
      PrefixStep(p, way, k);
      assert p != next && p in later;
    }
    PrefixStep(next, way, k);
  }

  /** Where the trie ends the search has already seen everything. */
  lemma SearchEnds(isNumeric: string -> bool, nodes: Nodes, s: Nodes, way: Path, k: nat, r: Request)
    requires k <= |way| && Tree(nodes) && (k == |way| || way[..k + 1] !in nodes)
    requires s == SearchedTo(isNumeric, nodes, way, k, r)
    ensures s == SearchedTo(isNumeric, nodes, way, |way|, r)
    ensures FoundTo(isNumeric, s, way, k, r) == FoundTo(isNumeric, s, way, |way|, r)
  {
    hide r.Accepts, Searched;
    assert way[..|way|] == way;
    forall p | p in nodes ensures p <= way[..k] <==> p <= way {
      if p <= way && |p| > k {
        LongerIsAbsent(nodes, p, way[..k + 1]);
      }
    }
  }

  lemma {:induction false} LongerIsAbsent(nodes: Nodes, p: Path, q: Path)
    requires Tree(nodes) && q <= p && q !in nodes
    ensures p !in nodes
    decreases |p|
  {
    if p != q {
      assert q == p[..|q|] == Parent(p)[..|q|];
      LongerIsAbsent(nodes, Parent(p), q);
    }
  }

  lemma SearchKeeps(isNumeric: string -> bool, p: Path, n: DomainNode, r: Request)
    requires Sound(isNumeric, p, n)
    ensures Sound(isNumeric, p, Searched(isNumeric, n, r))
    ensures forall c :: c in Searched(isNumeric, n, r).list.Content() ==> Labels(isNumeric, c.domain) == p
  {
    hide Labels, r.Accepts;
    var m := Searched(isNumeric, n, r);
    var cs, vs := n.list.Content(), m.list.Content();
    assert |vs| == |cs| && forall i :: 0 <= i < |cs| ==> vs[i].Same(cs[i]);
    forall i | 0 <= i < |vs| ensures Labels(isNumeric, vs[i].domain) == p {
      assert cs[i] in cs;
    }
  }

  lemma SoundDistinct(isNumeric: string -> bool, nodes: Nodes, p: Path)
    requires AllSound(isNumeric, nodes) && p in nodes
    ensures Distinct(nodes[p].list.Content())
  {
    assert Sound(isNumeric, p, nodes[p]);
  }

  lemma ReplaceKeeps(isNumeric: string -> bool, nodes: Nodes, p: Path, n: DomainNode, r: Request)
    requires Tree(nodes) && AllSound(isNumeric, nodes) && p in nodes && p != []
    ensures var after := nodes[p := Searched(isNumeric, nodes[p], r)]; Tree(after) && AllSound(isNumeric, after)
  {
    hide Searched, Sound;
    SearchKeeps(isNumeric, p, nodes[p], r);
    forall q | q in nodes && q != [] ensures Parent(q) in nodes {
    }
  }

  /** What was found on the way so far has other identities than the next node's cookies. */
  lemma FoundElsewhere(isNumeric: string -> bool, nodes: Nodes, way: Path, k: nat, r: Request, found: seq<Cookie>)
    requires AllSound(isNumeric, nodes) && k < |way| && way[..k + 1] in nodes
    requires AsSet(found) == FoundTo(isNumeric, nodes, way, k, r)
    ensures forall f, c :: f in found && c in nodes[way[..k + 1]].list.Content() ==> !f.Same(c)
  {
    hide r.Accepts, Labels;
    var next := way[..k + 1];
    assert Sound(isNumeric, next, nodes[next]);
    forall f, c | f in found && c in nodes[next].list.Content() ensures !f.Same(c) {
      assert f in FoundTo(isNumeric, nodes, way, k, r);
      var p :| p in nodes && p <= way[..k] && f in nodes[p].list.Content();
      assert Sound(isNumeric, p, nodes[p]);
    }
  }

  lemma FoundSum(found: seq<Cookie>, out: seq<Cookie>, cs: seq<Cookie>, isNumeric: string -> bool, r: Request)
    requires forall c :: c in out <==> c in found || (c in cs && r.Accepts(isNumeric, c))
    ensures AsSet(out) == AsSet(found) + Accepted(isNumeric, cs, r)
  {
  }

  /** What a search finds is a linear scan with the match, but only over the domains on the host's way. */
  lemma FoundIsScan(isNumeric: string -> bool, nodes: Nodes, r: Request)
    requires AllSound(isNumeric, nodes)
    ensures FoundTo(isNumeric, nodes, Labels(isNumeric, r.host), |Labels(isNumeric, r.host)|, r)
         == set c | c in AllCookies(nodes) && r.Accepts(isNumeric, c) && OnTheWay(isNumeric, c.domain, r.host)
  {
    hide r.Accepts, Labels;
    var way := Labels(isNumeric, r.host);
    assert way[..|way|] == way;
    var found := FoundTo(isNumeric, nodes, way, |way|, r);
    forall c | c in found ensures c in AllCookies(nodes) && r.Accepts(isNumeric, c)
        && OnTheWay(isNumeric, c.domain, r.host) {
      var p :| p in nodes && p <= way && c in nodes[p].list.Content() && r.Accepts(isNumeric, c);
      assert Sound(isNumeric, p, nodes[p]);
    }
    forall c | c in AllCookies(nodes) && r.Accepts(isNumeric, c)
        && OnTheWay(isNumeric, c.domain, r.host) ensures c in found {
      var p :| p in nodes && c in nodes[p].list.Content();
      assert Sound(isNumeric, p, nodes[p]);
    }
  }

  function AllCookies(nodes: Nodes): set<Cookie> {
    set p, c | p in nodes && c in nodes[p].list.Content() :: c
  }

  /** An identity is stored once in the whole trie. */
  lemma IdentityIsUnique(isNumeric: string -> bool, nodes: Nodes, c: Cookie, d: Cookie)
    requires AllSound(isNumeric, nodes) && c in AllCookies(nodes) && d in AllCookies(nodes) && c.Same(d)
    ensures c == d
  {
    hide Labels, Sound;
    var p :| p in nodes && c in nodes[p].list.Content();
    var q :| q in nodes && d in nodes[q].list.Content();
    SoundDomain(isNumeric, p, nodes[p], c);
    SoundDomain(isNumeric, q, nodes[q], d);
    SameInList(nodes[p].list.Content(), c, d);
  }

  lemma SoundDomain(isNumeric: string -> bool, p: Path, n: DomainNode, c: Cookie)
    requires Sound(isNumeric, p, n) && c in n.list.Content()
    ensures Labels(isNumeric, c.domain) == p && Distinct(n.list.Content())
  {
    hide Labels, Distinct;
  }

  lemma SameInList(cs: seq<Cookie>, c: Cookie, d: Cookie)
    requires Distinct(cs) && c in cs && d in cs && c.Same(d)
    ensures c == d
  {
    var i :| 0 <= i < |cs| && cs[i] == c;
    var j :| 0 <= j < |cs| && cs[j] == d;
  }

  /** Whether a search for a host passes the node of a cookie's domain. */
  predicate OnTheWay(isNumeric: string -> bool, domain: string, host: string) {
    Labels(isNumeric, domain) <= Labels(isNumeric, host)
  }

  /**
   * Exactly which matching cookies a search misses: those of a domain that counts as a numeric host and
   * contains a dot, or is empty, when the host asked for is another one.
   */
  lemma MissedExactly(isNumeric: string -> bool, r: Request, c: Cookie)
    requires r.Accepts(isNumeric, c)
    ensures OnTheWay(isNumeric, c.domain, r.host)
      <==> !(isNumeric(c.domain) && c.domain != r.host && ('.' in c.domain || c.domain == ""))
  {
    hide Labels, Split;
    MatchingDomainIsOnTheWay(isNumeric, r.host, c.domain);
    if c.domain != r.host && isNumeric(c.domain) {
      NumericSuffix(isNumeric, r.host, c.domain);
    }
  }

  /**
   * Such a cookie exists: if "1.2" counts as numeric and "a.1.2" does not, a cookie of the former matches the latter.
   */
  lemma NumericDomainIsMissed() returns (isNumeric: string -> bool, r: Request, c: Cookie)
    ensures r.Accepts(isNumeric, c) && !OnTheWay(isNumeric, c.domain, r.host)
  {
    isNumeric := s => s == "1.2";
    r := Request("a.1.2", "/", 0, false);
    c := Cookie("n", "v", 0, false, "1.2", false, "/", false, false, 0, 0);
    assert r.host[2..] == "1.2" && r.host[1] == '.';
    MissedExactly(isNumeric, r, c);
    assert c.domain[1] == '.';
  }

  lemma NumericSuffix(isNumeric: string -> bool, host: string, domain: string)
    requires DomainMatch(isNumeric, host, domain) && domain != host && isNumeric(domain)
    ensures OnTheWay(isNumeric, domain, host) <==> '.' !in domain && domain != ""
  {
    hide Split;
    var x := host[..|host| - |domain| - 1];
    assert host == x + "." + domain;
    var way := Reverse(Split(host));
    assert Labels(isNumeric, host) == way && Labels(isNumeric, domain) == [domain];
    if '.' !in domain && domain != "" {
      SplitAtDot(x, domain);
      SplitWhole(domain);
      assert way[0] == domain;
    } else {
      FirstOfReversed(host, domain);
    }
  }

  lemma FirstOfReversed(host: string, domain: string)
    requires '.' in domain || domain == ""
    ensures Reverse(Split(host)) == [] || Reverse(Split(host))[0] != domain
  {
    hide Split;
    SplitParts(host);
    assert forall k :: 0 <= k < |Split(host)| ==> Split(host)[k] in Split(host);
  }

  lemma SplitWhole(s: string)
    requires '.' !in s && s != ""
    ensures Split(s) == [s]
  {
    var i := FirstDot(s);
    SplitUnfold(s, i);
    assert s[..|s|] == s;
  }

  lemma {:induction false} SplitParts(s: string)
    ensures forall l :: l in Split(s) ==> '.' !in l && l != ""
    decreases |s|
  {
    var i := FirstDot(s);
    hide Split;
    SplitUnfold(s, i);
    if i < |s| {
      SplitParts(s[i + 1..]);
    }
  }

  lemma FoundMembers(found: seq<Cookie>, isNumeric: string -> bool, nodes: Nodes, r: Request)
    requires AsSet(found) == set c | c in AllCookies(nodes) && r.Accepts(isNumeric, c)
      && OnTheWay(isNumeric, c.domain, r.host)
    ensures forall c ::
      c in found <==> c in AllCookies(nodes) && r.Accepts(isNumeric, c) && OnTheWay(isNumeric, c.domain, r.host)
  {
    assert forall c :: c in found <==> c in AsSet(found);
  }

  // ----- counting -----

  function CookiesOf(nodes: Nodes, ps: set<Path>): set<Cookie> {
    set p, c | p in ps && p in nodes && c in nodes[p].list.Content() :: c
  }

  lemma CookiesOfNone(nodes: Nodes)
    ensures CookiesOf(nodes, {}) == {}
  {
  }

  lemma CookiesOfOneMore(isNumeric: string -> bool, nodes: Nodes, lru: Tracker, done: set<Path>, t: int, p: Path)
    requires AllSound(isNumeric, nodes) && Tracks(nodes, lru) && (t, p) in lru && p !in done
    ensures p in nodes
    ensures |CookiesOf(nodes, done + {p})| == |CookiesOf(nodes, done)| + |nodes[p].list.Content()|
  {
    hide Labels;
    var cs := nodes[p].list.Content();
    assert Sound(isNumeric, p, nodes[p]);
    var here := set c | c in cs;
    DistinctSize(cs);
    assert CookiesOf(nodes, done + {p}) == CookiesOf(nodes, done) + here;
    forall q, c | q in done && q in nodes && c in nodes[q].list.Content() ensures Labels(isNumeric, c.domain) == q {
      assert Sound(isNumeric, q, nodes[q]);
    }
    assert CookiesOf(nodes, done) !! here;
  }

  lemma TrackedOnce(nodes: Nodes, lru: Tracker, t: int, p: Path, u: int, q: Path)
    requires Tracks(nodes, lru) && (t, p) in lru && (u, q) in lru && (t, p) != (u, q)
    ensures p != q
  {
  }

  /** Every node with cookies is tracked. */
  lemma CookiesOfTracked(isNumeric: string -> bool, nodes: Nodes, lru: Tracker, done: set<Path>)
    requires AllSound(isNumeric, nodes) && Tracks(nodes, lru) && forall t, p :: (t, p) in lru ==> p in done
    ensures CookiesOf(nodes, done) == AllCookies(nodes)
  {
    forall c | c in AllCookies(nodes) ensures c in CookiesOf(nodes, done) {
      var p :| p in nodes && c in nodes[p].list.Content();
      assert Sound(isNumeric, p, nodes[p]);
      assert (nodes[p].lruAccessTime, p) in lru;
    }
  }

  lemma NoSameWithout(isNumeric: string -> bool, nodes: Nodes, way: Path, cookie: Cookie)
    requires AllSound(isNumeric, nodes) && way == Labels(isNumeric, cookie.domain)
    requires way !in nodes
    ensures forall c :: c in AllCookies(nodes) ==> !c.Same(cookie)
  {
    forall c | c in AllCookies(nodes) ensures !c.Same(cookie) {
      var p :| p in nodes && c in nodes[p].list.Content();
      assert Sound(isNumeric, p, nodes[p]);
    }
  }

  lemma SameIsAtHome(isNumeric: string -> bool, nodes: Nodes, cookie: Cookie)
    requires AllSound(isNumeric, nodes) && Labels(isNumeric, cookie.domain) in nodes
    ensures (exists c :: c in AllCookies(nodes) && c.Same(cookie))
       <==> exists c :: c in nodes[Labels(isNumeric, cookie.domain)].list.Content() && c.Same(cookie)
  {
    forall c: Cookie | c.Same(cookie)
        && c in AllCookies(nodes) ensures c in nodes[Labels(isNumeric, cookie.domain)].list.Content() {
      var p :| p in nodes && c in nodes[p].list.Content();
      assert Sound(isNumeric, p, nodes[p]);
    }
  }

  // ----- steps of eviction -----

  lemma ClearKeeps(isNumeric: string -> bool, nodes: Nodes, lru: Tracker, t: int, p: Path, after: Nodes)
    requires Tree(nodes) && AllSound(isNumeric, nodes) && Tracks(nodes, lru) && (t, p) in lru
    requires p in nodes && after == nodes[p := nodes[p].(inLru := false, list := List([]))]
    ensures p != [] && Tree(after) && AllSound(isNumeric, after) && Tracks(after, lru - {(t, p)})
  {
    hide Parent, HasNext, Labels;
    assert Sound(isNumeric, p, nodes[p]);
    forall q | q in after && q != p ensures Sound(isNumeric, q, after[q]) {
      assert Sound(isNumeric, q, nodes[q]);
    }
    assert Tree(after) by {
      forall q | q in after && q != [] ensures Parent(q) in after {
        assert Parent(q) in nodes;
      }
    }
  }

  lemma FreeKeeps(isNumeric: string -> bool, nodes: Nodes, lru: Tracker, p: Path, after: Nodes)
    requires Tree(nodes) && AllSound(isNumeric, nodes) && Tracks(nodes, lru)
    requires p in nodes && p != [] && !HasNext(nodes, p) && !nodes[p].inLru
    requires after == nodes - {p}
    ensures Parent(p) in after && Tree(after) && AllSound(isNumeric, after) && Tracks(after, lru)
  {
    hide Parent, Labels, Sound;
    assert Parent(p) in nodes && Parent(p) != p by { assert |Parent(p)| < |p| by { ParentIsShorter(p); } }
    forall q | q in after && q != [] ensures Parent(q) in after {
      assert Parent(q) in nodes && Parent(q) != p;
    }
  }

  lemma ParentIsShorter(p: Path)
    requires p != []
    ensures |Parent(p)| < |p| && Parent(p) <= p
  {
  }

  ghost predicate PruningAt(before: Nodes, nodes: Nodes, start: Path, node: Path) {
    && node in nodes && node in before && node != [] && !nodes[node].inLru
    && (if node == start then nodes == before
        else nodes[node] == before[node].(inLru := false) && nodes[node].Empty() && !HasNext(nodes, node))
    && (forall p :: p in nodes && p != node ==> p in before && nodes[p] == before[p])
    && (forall p :: p in before && p !in nodes ==> before[p].Empty())
    && (forall p :: p != node && Dead(nodes, p) ==> Dead(before, p) && p != start)
  }

  /** The start and every node freed had no cookies, the rest is untouched, and no useless node is left behind. */
  ghost predicate Pruned(before: Nodes, after: Nodes, start: Path) {
    && (forall p :: p in after ==> p in before && after[p] == before[p])
    && (forall p :: p in before && p !in after ==> before[p].Empty())
    && (forall p :: Dead(after, p) ==> Dead(before, p) && p != start)
  }

  lemma PruningEnds(before: Nodes, nodes: Nodes, start: Path, node: Path)
    requires PruningAt(before, nodes, start, node) && (!nodes[node].Empty() || HasNext(nodes, node))
    ensures Pruned(before, nodes, start)
  {
    hide HasNext;
  }

  lemma PruningStops(before: Nodes, mid: Nodes, start: Path, node: Path, nodes: Nodes)
    requires PruningAt(before, mid, start, node) && nodes == mid - {node}
    requires mid[node].Empty() && !HasNext(mid, node) && Parent(node) in nodes
    requires !nodes[Parent(node)].Empty() || HasNext(nodes, Parent(node)) || Parent(node) == []
    ensures Pruned(before, nodes, start)
  {
    hide Parent, HasNext;
    forall p | Dead(nodes, p) ensures Dead(mid, p) && p != node {
      OnlyParentLosesChild(mid, node, nodes, p);
    }
  }

  lemma OnlyParentLosesChild(mid: Nodes, node: Path, nodes: Nodes, p: Path)
    requires node in mid && node != [] && nodes == mid - {node} && p != Parent(node)
    ensures HasNext(nodes, p) <==> HasNext(mid, p)
  {
    hide Parent;
    if HasNext(mid, p) {
      var q :| q in mid && q != [] && Parent(q) == p;
      assert q in nodes;
    }
  }

  lemma PruningGoesOn(before: Nodes, mid: Nodes, start: Path, node: Path, nodes: Nodes, next: Nodes)
    requires PruningAt(before, mid, start, node) && nodes == mid - {node}
    requires mid[node].Empty() && !HasNext(mid, node) && Parent(node) in nodes
    requires nodes[Parent(node)].Empty() && !HasNext(nodes, Parent(node)) && Parent(node) != [] && Parent(node) != start
    requires next == nodes[Parent(node) := nodes[Parent(node)].(inLru := false)]
    ensures PruningAt(before, next, start, Parent(node))
  {
    hide Parent, HasNext;
    SameKeysSameChildren(nodes, next);
    forall p | p != Parent(node) && Dead(next, p) ensures Dead(mid, p) && p != node {
      OnlyParentLosesChild(mid, node, nodes, p);
    }
  }

  lemma SameKeysSameChildren(a: Nodes, b: Nodes)
    requires a.Keys == b.Keys
    ensures forall p :: HasNext(a, p) <==> HasNext(b, p)
  {
    forall p ensures HasNext(a, p) <==> HasNext(b, p) {
      if q :| q in a && q != [] && Parent(q) == p {
        assert q in b;
      }
    }
  }

  lemma UntrackKeeps(isNumeric: string -> bool, nodes: Nodes, lru: Tracker, p: Path, after: Nodes)
    requires Tree(nodes) && AllSound(isNumeric, nodes) && Tracks(nodes, lru)
    requires p in nodes && nodes[p].Empty() && after == nodes[p := nodes[p].(inLru := false)]
    ensures Tree(after) && AllSound(isNumeric, after) && Tracks(after, lru - {(nodes[p].lruAccessTime, p)})
  {
    hide Parent, Labels;
    forall q | q in after ensures Sound(isNumeric, q, after[q]) {
      assert Sound(isNumeric, q, nodes[q]);
    }
    forall q | q in after && q != [] ensures Parent(q) in after {
      assert Parent(q) in nodes;
    }
  }

  lemma TrackedExists(nodes: Nodes, lru: Tracker, t: int, p: Path)
    requires Tracks(nodes, lru) && (t, p) in lru
    ensures p in nodes
  {
  }

  lemma EvictingEnds(before: Nodes, nodes: Nodes, lru: Tracker, victims: set<Path>, count: nat)
    requires Tracks(nodes, lru) && Evicting(before, nodes, victims) && |victims| <= count
      && (|victims| == count || lru == {})
    ensures Evicted(before, nodes, victims, count)
  {
    hide Evicting;
    forall p | p in nodes && nodes[p].inLru ensures |victims| == count {
      assert (nodes[p].lruAccessTime, p) in lru;
    }
  }

  lemma EvictingOneMore(before: Nodes, mid: Nodes, lru: Tracker, victims: set<Path>, t: int, p: Path, cleared: Nodes,
      after: Nodes)
    requires Evicting(before, mid, victims) && Tracks(mid, lru)
    requires (t, p) in lru && forall u, q :: (u, q) in lru ==> t <= u
    requires cleared == mid[p := mid[p].(inLru := false, list := List([]))] && Pruned(cleared, after, p)
    ensures p !in victims && Evicting(before, after, victims + {p})
  {
    hide Parent, HasNext;
    SameKeysSameChildren(mid, cleared);
    forall q | q in after && after[q].inLru ensures before[p].lruAccessTime <= before[q].lruAccessTime {
      assert (mid[q].lruAccessTime, q) in lru;
    }
    forall q | Dead(after, q) ensures Dead(before, q) {
      assert Dead(cleared, q) && q != p;
      assert Dead(mid, q);
    }
  }

  // ----- the store -----

  class CookieStorage {
    const isNumeric: string -> bool
    var nodes: Nodes
    var lru: Tracker

    ghost predicate Valid()
      reads this
    {
      Tree(nodes) && AllSound(isNumeric, nodes) && Tracks(nodes, lru)
    }

    constructor (isNumeric: string -> bool)
      ensures Valid() && this.isNumeric == isNumeric && AllCookies(nodes) == {}
    {
      this.isNumeric := isNumeric;
      nodes := map[[] := FRESH];
      lru := {};
    }

    method EvictNode(delnum: nat) returns (ghost victims: set<Path>)
      requires Valid()
      modifies this
      ensures Valid() && Evicted(old(nodes), nodes, victims, delnum)
    {
      victims := {};
      var n := delnum;
      ghost var before := nodes;
      assert Evicting(before, nodes, victims);
      hide *;
      while n > 0 && lru != {}
        invariant 0 <= n <= delnum && Tree(nodes) && AllSound(isNumeric, nodes) && Tracks(nodes, lru)
        invariant Evicting(before, nodes, victims) && |victims| == delnum - n
      {
        ghost var first := OldestExists(lru);
        var least :| least in lru && forall e :: e in lru ==> least.0 <= e.0;
        var (t, p) := least;
        ghost var mid, tracked := nodes, lru;
        TrackedExists(mid, tracked, t, p);
        lru := lru - {(t, p)};
        nodes := nodes[p := nodes[p].(inLru := false, list := List([]))];
        ClearKeeps(isNumeric, mid, tracked, t, p, nodes);
        ghost var cleared := nodes;
        Prune(p);
        EvictingOneMore(before, mid, tracked, victims, t, p, cleared, nodes);
        victims := victims + {p};
        n := n - 1;
      }
      EvictingEnds(before, nodes, lru, victims, delnum);
    }

    /** The inner loop of eviction: free the node and then its ancestors, as long as they serve no purpose. */
    method Prune(start: Path)
      requires Valid() && start in nodes && start != [] && nodes[start].Empty() && !nodes[start].inLru
      modifies this
      ensures Valid() && Pruned(old(nodes), nodes, start)
    {
      ghost var before := nodes;
      assert PruningAt(before, nodes, start, start);
      hide *;
      var node := start;
      while nodes[node].Empty() && !HasNext(nodes, node)
        invariant Valid() && PruningAt(before, nodes, start, node) && node <= start
        decreases |node|
      {
        var parent := Parent(node);
        ghost var mid := nodes;
        nodes := nodes - {node};
        FreeKeeps(isNumeric, mid, lru, node, nodes);
        ParentIsShorter(node);
        if !nodes[parent].Empty() || HasNext(nodes, parent) || parent == [] {
          PruningStops(before, mid, start, node, nodes);
          return;
        }
        ghost var child, mid2, tracked := node, nodes, lru;
        node := parent;
        if nodes[node].inLru {
          lru := lru - {(nodes[node].lruAccessTime, node)};
          nodes := nodes[node := nodes[node].(inLru := false)];
        }
        UntrackKeeps(isNumeric, mid2, tracked, parent, mid2[parent := mid2[parent].(inLru := false)]);
        PruningGoesOn(before, mid, start, child, mid2, nodes);
      }
      PruningEnds(before, nodes, start, node);
    }

    method UpdateLru(node: Path, now: int)
      requires node in nodes && Tracks(nodes, lru)
      modifies this
      ensures nodes == old(nodes)[node := old(nodes)[node].(inLru := true, lruAccessTime := now)]
      ensures Tracks(nodes, lru)
    {
      if nodes[node].inLru {
        lru := lru - {(nodes[node].lruAccessTime, node)};
      } else {
        nodes := nodes[node := nodes[node].(inLru := true)];
      }
      nodes := nodes[node := nodes[node].(lruAccessTime := now)];
      lru := lru + {(now, node)};
    }

    /**
     * store: first evict a tenth of the tracked nodes if there are too many, then put the cookie in.
     * `mid` is the trie in between.
     */
    method Store(cookie: Cookie, now: int) returns (ok: bool, ghost mid: Nodes, ghost victims: set<Path>)
      requires Valid() && Labels(isNumeric, cookie.domain) != []
      modifies this
      ensures Valid() && ok == !cookie.IsExpired(now)
      ensures Evicted(old(nodes), mid, victims, if old(|lru|) >= DOMAIN_EVICTION_TRIGGER then old(|lru|) / 10 else 0)
      ensures nodes == Stored(mid, Labels(isNumeric, cookie.domain), cookie, now)
    {
      hide Stored, AllSound, Tracks, Sound, Tree, Evicted, Evicting, Labels, Added, Took, Grown, Prefixes,
        cookie.IsExpired;
      victims := {};
      NothingEvicted(nodes);
      if |lru| >= DOMAIN_EVICTION_TRIGGER {
        victims := EvictNode(|lru| / 10);
      }
      mid := nodes;
      var labels := Labels(isNumeric, cookie.domain);
      var node := WalkTo(labels);
      ghost var grown := nodes;
      var (list, added) := (nodes[node].list, false);
      nodes := nodes[node := nodes[node].(lastAccessTime := now)];
      list, added := AddCookie(list, cookie, now);
      nodes := nodes[node := nodes[node].(list := list)];
      TookKeeps(isNumeric, grown, lru, node, cookie, now, nodes);
      TookUnfold(grown[node], cookie, now);
      ok := added;
      if ok {
        UpdateLru(node, now);
      }
      StoredInSteps(isNumeric, mid, grown, node, cookie, now, nodes);
    }

    /** The walk from the root that makes the nodes that are missing. */
    method WalkTo(labels: Path) returns (node: Path)
      requires Valid()
      modifies `nodes
      ensures node == labels && node in nodes && nodes == Grown(old(nodes), labels)
      ensures Valid()
    {
      ghost var before := nodes;
      node := [];
      GrownStart(nodes);
      hide *;
      for i := 0 to |labels|
        invariant node == labels[..i] && nodes == Grown(before, node)
      {
        GrownStep(before, labels, i);
        var next := node + [labels[i]];
        if next !in nodes {
          nodes := nodes[next := FRESH];
        }
        node := next;
      }
      GrownKeeps(isNumeric, before, lru, labels);
      assert labels[..|labels|] == labels;
    }

    /**
     * criteriaFind: every stored cookie the request accepts, each once, deeper paths and older cookies first;
     * except exactly those MissedExactly describes. The nodes on the way and the cookies found count as accessed.
     */
    method CriteriaFind(r: Request) returns (res: seq<Cookie>)
      requires Valid()
      modifies this
      ensures Valid()
      ensures r.path == "" ==> res == [] && nodes == old(nodes)
      ensures r.path != "" ==>
        nodes == SearchedTo(isNumeric, old(nodes), Labels(isNumeric, r.host), |Labels(isNumeric, r.host)|, r)
      ensures r.path != "" ==> forall c :: c in res <==>
          c in AllCookies(nodes) && r.Accepts(isNumeric, c) && OnTheWay(isNumeric, c.domain, r.host)
      ensures Distinct(res) && Ordered(res)
    {
      res := [];
      if r.path == "" {
        return;
      }
      ghost var before := nodes;
      var way := Labels(isNumeric, r.host);
      SearchStart(isNumeric, nodes, way, r);
      assert Distinct(res);
      hide *;
      var node: Path := [];
      var k := 0;
      while k < |way|
        invariant 0 <= k <= |way| && node == way[..k] && Tree(nodes) && AllSound(isNumeric, nodes) && Tracks(nodes, lru)
        invariant nodes == SearchedTo(isNumeric, before, way, k, r)
        invariant Distinct(res) && AsSet(res) == FoundTo(isNumeric, nodes, way, k, r)
      {
        var next := node + [way[k]];
        SearchKeys(isNumeric, before, way, k, r);
        if next !in nodes {
          break;
        }
        ghost var mid, earlier := nodes, res;
        SearchStep(isNumeric, before, way, k, r);
        FoundElsewhere(isNumeric, mid, way, k, r, res);
        res := VisitNode(next, res, r);
        FoundStep(isNumeric, mid, nodes, way, k, r);
        FoundSum(earlier, res, nodes[next].list.Content(), isNumeric, r);
        node := next;
        k := k + 1;
      }
      SearchEnds(isNumeric, before, nodes, way, k, r);
      FoundIsScan(isNumeric, nodes, r);
      ghost var found := res;
      FoundMembers(found, isNumeric, nodes, r);
      res := SortCookies(res);
      PermutedDistinct(found, res);
      assert forall c :: c in res <==> c in multiset(res);
      assert forall c :: c in found <==> c in multiset(found);
    }

    /** One step of the walk of a search: the node and its cookies that match are marked as accessed. */
    method VisitNode(next: Path, found: seq<Cookie>, r: Request) returns (out: seq<Cookie>)
      requires Tree(nodes) && AllSound(isNumeric, nodes) && Tracks(nodes, lru) && next in nodes && next != []
      requires Distinct(found) && forall f, c :: f in found && c in nodes[next].list.Content() ==> !f.Same(c)
      modifies this
      ensures nodes == old(nodes)[next := Searched(isNumeric, old(nodes)[next], r)]
      ensures Tree(nodes) && AllSound(isNumeric, nodes) && Tracks(nodes, lru)
      ensures Distinct(out)
      ensures forall c :: c in out <==>
        c in found || (c in nodes[next].list.Content() && r.Accepts(isNumeric, c))
    {
      hide r.Accepts, Visited, Distinct, AllSound, Sound, Tree;
      assert Distinct(nodes[next].list.Content()) by { SoundDistinct(isNumeric, nodes, next); }
      ReplaceKeeps(isNumeric, nodes, next, nodes[next], r);
      nodes := nodes[next := nodes[next].(lastAccessTime := r.now)];
      if nodes[next].inLru {
        UpdateLru(next, r.now);
      }
      out := found;
      if nodes[next].list.List? {
        var after;
        out, after := FindCookie(isNumeric, found, nodes[next].list.cookies, r);
        nodes := nodes[next := nodes[next].(list := List(after))];
      }
    }

    /** size: counted over the tracked nodes only, and yet the number of all stored cookies. */
    method Size() returns (n: nat)
      requires Valid()
      ensures n == |AllCookies(nodes)|
    {
      n := 0;
      var todo := lru;
      ghost var done: set<Path> := {};
      hide *;
      CookiesOfNone(nodes);
      while todo != {}
        invariant todo <= lru && n == |CookiesOf(nodes, done)|
        invariant forall t, p :: (t, p) in lru && (t, p) !in todo ==> p in done
        invariant forall t, p :: (t, p) in todo ==> p !in done
        decreases |todo|
      {
        var e :| e in todo;
        CookiesOfOneMore(isNumeric, nodes, lru, done, e.0, e.1);
        forall t, p | (t, p) in todo - {e} ensures p !in done + {e.1} {
          TrackedOnce(nodes, lru, t, p, e.0, e.1);
        }
        done := done + {e.1};
        n := n + |nodes[e.1].list.Content()|;
        todo := todo - {e};
      }
      CookiesOfTracked(isNumeric, nodes, lru, done);
    }

    /** contains: whether a cookie with that identity is stored anywhere. */
    method Contains(cookie: Cookie) returns (r: bool)
      requires Valid()
      ensures r <==> exists c :: c in AllCookies(nodes) && c.Same(cookie)
    {
      var way := Labels(isNumeric, cookie.domain);
      var found := FindNode(way);
      if !found {
        NoSameWithout(isNumeric, nodes, way, cookie);
        return false;
      }
      SameIsAtHome(isNumeric, nodes, cookie);
      hide *;
      r := ListContains(nodes[way].list.Content(), cookie);
    }

    /** findNode: whether the way leads to a node. */
    method FindNode(way: Path) returns (found: bool)
      requires Valid()
      ensures found <==> way in nodes
    {
      var node: Path := [];
      var k := 0;
      hide Labels, AllSound, Tracks, HasNext;
      while k < |way|
        invariant 0 <= k <= |way| && node == way[..k] && node in nodes
      {
        assert way[..k + 1] == node + [way[k]];
        node := node + [way[k]];
        if node !in nodes {
          LongerIsAbsent(nodes, way, node);
          return false;
        }
        k := k + 1;
      }
      assert way[..|way|] == way;
      return true;
    }
  }

  /** DomainNode::contains. */
  method ListContains(cs: seq<Cookie>, cookie: Cookie) returns (r: bool)
    ensures r <==> exists c :: c in cs && c.Same(cookie)
  {
    hide Cookie.Same;
    for i := 0 to |cs|
      invariant forall j :: 0 <= j < i ==> !cs[j].Same(cookie)
    {
      if cs[i].Same(cookie) {
        assert cs[i] in cs;
        return true;
      }
    }
    return false;
  }
}
