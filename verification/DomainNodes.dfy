/** A node of the cookie store: one domain's cookies, and how a cookie is added to them or found among them. */
module DomainNodes {
  import opened Cookies

  const MAX_COOKIE_PER_DOMAIN: nat := 50

  /** The cookies of a node are a list that may not have been created yet. */
  datatype CookieList = NoList | List(cookies: seq<Cookie>)
  {
    function Content(): seq<Cookie> {
      if List? then cookies else []
    }
  }

  datatype DomainNode = DomainNode(lastAccessTime: int, lruAccessTime: int, inLru: bool, list: CookieList)
  {
    predicate Empty() {
      list.Content() == []
    }
  }

  // ----- one domain's cookies -----

  /** Some cookie of the list has the identity of c. */
  predicate Has(cs: seq<Cookie>, c: Cookie) {
    exists i :: 0 <= i < |cs| && cs[i].Same(c)
  }

  /** The position of the first cookie with the identity of c, or the length. */
  function IndexOf(cs: seq<Cookie>, c: Cookie): (i: nat)
    ensures i <= |cs|
    ensures forall k :: 0 <= k < i ==> !cs[k].Same(c)
    ensures i < |cs| ==> cs[i].Same(c)
  {
    if cs == [] || cs[0].Same(c) then 0 else 1 + IndexOf(cs[1..], c)
  }

  function Live(cs: seq<Cookie>, now: int): (r: seq<Cookie>)
    ensures |r| <= |cs|
    ensures forall c :: c in r <==> c in cs && !c.IsExpired(now)
  {
    if cs == [] then []
    else (if cs[0].IsExpired(now) then [] else [cs[0]]) + Live(cs[1..], now)
  }

  /** The position of the first of the cookies that were accessed the longest ago. */
  function LeastRecent(cs: seq<Cookie>): (m: nat)
    requires cs != []
    ensures m < |cs|
    ensures forall k :: 0 <= k < |cs| ==> cs[m].lastAccessTime <= cs[k].lastAccessTime
    ensures forall k :: 0 <= k < m ==> cs[m].lastAccessTime < cs[k].lastAccessTime
  {
    if |cs| == 1 then 0
    else
      var m := 1 + LeastRecent(cs[1..]);
      if cs[m].lastAccessTime < cs[0].lastAccessTime then m else 0
  }

  /** DomainNode::addCookie: the list afterwards. */
  function Added(list: CookieList, c: Cookie, now: int): CookieList {
    var cs := list.Content();
    var i := IndexOf(cs, c);
    if i < |cs| then
      if c.IsExpired(now) then List(cs[..i] + cs[i + 1..])
      else List(cs[i := c.(creationTime := cs[i].creationTime)])
    else if c.IsExpired(now) then list
    else if |cs| < MAX_COOKIE_PER_DOMAIN then List(cs + [c])
    else if |Live(cs, now)| < MAX_COOKIE_PER_DOMAIN then List(Live(cs, now) + [c])
    else List(Live(cs, now)[LeastRecent(Live(cs, now)) := c])
  }

  ghost predicate Distinct(cs: seq<Cookie>) {
    forall i, j :: 0 <= i < j < |cs| ==> !cs[i].Same(cs[j])
  }

  lemma LiveDistinct(cs: seq<Cookie>, now: int)
    requires Distinct(cs)
    ensures Distinct(Live(cs, now))
  {
    if cs != [] {
      LiveDistinct(cs[1..], now);
      var rest := Live(cs[1..], now);
      forall i | 0 <= i < |rest| ensures !cs[0].Same(rest[i]) {
        assert rest[i] in cs[1..];
      }
    }
  }

  /** The cookie that stands for c once it is stored, when o is its namesake from before. */
  predicate Replaces(d: Cookie, c: Cookie, o: Cookie) {
    o.Same(c) && d == c.(creationTime := o.creationTime)
  }

  /** o left the list for a reason: it had expired, or it was the one unused the longest of 50 live ones. */
  ghost predicate RightlyDropped(o: Cookie, cs: seq<Cookie>, ds: seq<Cookie>, c: Cookie, now: int) {
    || o.IsExpired(now)
    || (|Live(cs, now)| == MAX_COOKIE_PER_DOMAIN
        && forall d :: d in ds && !d.Same(c) ==> o.lastAccessTime <= d.lastAccessTime)
  }

  /**
   * What adding a cookie means for a domain's list: identities stay distinct and at most 50; the cookie is in
   * afterwards unless it has expired, keeping the creation time of the one it replaces; nothing else enters;
   * and what leaves is its namesake, or an expired cookie, or the one unused the longest of 50 live ones.
   */
  lemma AddedMeaning(list: CookieList, c: Cookie, now: int, cs: seq<Cookie>, ds: seq<Cookie>)
    requires cs == list.Content() && ds == Added(list, c, now).Content()
    requires Distinct(cs) && |cs| <= MAX_COOKIE_PER_DOMAIN
    ensures Distinct(ds) && |ds| <= MAX_COOKIE_PER_DOMAIN
    ensures Has(ds, c) <==> !c.IsExpired(now)
    ensures !Has(cs, c) && !c.IsExpired(now) ==> c in ds
    ensures forall o, d :: o in cs && o.Same(c) && d in ds && d.Same(c) ==> Replaces(d, c, o)
    ensures forall d :: d in ds && !d.Same(c) ==> d in cs
    ensures forall o :: o in cs && !o.Same(c) && o !in ds ==> RightlyDropped(o, cs, ds, c, now)
    ensures forall o1, o2 ::
      (o1 in cs && !o1.Same(c) && o1 !in ds && !o1.IsExpired(now)
       && o2 in cs && !o2.Same(c) && o2 !in ds && !o2.IsExpired(now)) ==> o1 == o2
  {
    var i := IndexOf(cs, c);
    if i < |cs| {
      AddedToNamesake(cs, c, now, i, ds);
    } else if !c.IsExpired(now) {
      if |cs| >= MAX_COOKIE_PER_DOMAIN {
        AddedToFull(cs, c, now, ds);
      } else {
        assert ds[|cs|] == c;
      }
    }
  }

  /**
   * The same in terms of the fields: namesakes are cookies that agree in domain, path and name, and a persistent
   * cookie has expired once its time is past.
   */
  lemma AddedInFields(list: CookieList, c: Cookie, now: int, cs: seq<Cookie>, ds: seq<Cookie>)
    requires cs == list.Content() && ds == Added(list, c, now).Content()
    requires Distinct(cs) && |cs| <= 50
    ensures c.persistent && c.expiryTime < now ==>
      forall d :: d in ds ==> d in cs && (d.domain != c.domain || d.path != c.path || d.name != c.name)
    ensures !(c.persistent && c.expiryTime < now) ==> exists d :: d in ds && d == c.(creationTime := d.creationTime)
    ensures forall d :: d in ds && d.domain == c.domain && d.path == c.path && d.name == c.name ==>
      d == c.(creationTime := d.creationTime)
    ensures forall o, d | o in cs && o.domain == c.domain && o.path == c.path && o.name == c.name && d in ds ::
      d.domain == c.domain && d.path == c.path && d.name == c.name ==> d.creationTime == o.creationTime
    ensures forall o :: o in cs && (o.domain != c.domain || o.path != c.path || o.name != c.name) && o !in ds ==>
      || (o.persistent && o.expiryTime < now)
      || (|cs| == 50 && (forall l :: l in cs ==> !(l.persistent && l.expiryTime < now))
          && forall d :: d in ds && (d.domain != c.domain || d.path != c.path || d.name != c.name) ==>
            o.lastAccessTime <= d.lastAccessTime)
  {
    AddedMeaning(list, c, now, cs, ds);
    hide Added, Distinct;
    if !c.IsExpired(now) {
      var i :| 0 <= i < |ds| && ds[i].Same(c);
      NamesakeIsSuccessor(list, c, now, cs, ds, ds[i]);
    }
    forall d | d in ds && d.Same(c)
      ensures d == c.(creationTime := d.creationTime)
      ensures forall o :: o in cs && o.Same(c) ==> d.creationTime == o.creationTime
    {
      NamesakeIsSuccessor(list, c, now, cs, ds, d);
    }
    forall o | o in cs && !o.Same(c) && o !in ds && !o.IsExpired(now) ensures |cs| == 50
      && forall l :: l in cs ==> !l.IsExpired(now) {
      LiveOfAll(cs, now);
    }
  }

  lemma NamesakeIsSuccessor(list: CookieList, c: Cookie, now: int, cs: seq<Cookie>, ds: seq<Cookie>, d: Cookie)
    requires cs == list.Content() && ds == Added(list, c, now).Content()
    requires Distinct(cs) && |cs| <= MAX_COOKIE_PER_DOMAIN && d in ds && d.Same(c)
    ensures d == c.(creationTime := d.creationTime)
    ensures forall o :: o in cs && o.Same(c) ==> d.creationTime == o.creationTime
  {
    AddedMeaning(list, c, now, cs, ds);
    forall o | o in cs && o.Same(c) ensures d.creationTime == o.creationTime {
      assert Replaces(d, c, o);
    }
    if Has(cs, c) {
      var i :| 0 <= i < |cs| && cs[i].Same(c);
      assert Replaces(d, c, cs[i]);
    } else {
      assert Has(ds, c);
      assert c in ds;
      var i :| 0 <= i < |ds| && ds[i] == d;
      var j :| 0 <= j < |ds| && ds[j] == c;
      assert ds[i].Same(ds[j]) && ds[j].Same(ds[i]);
    }
  }

  /** If no live cookie is missing, none had expired. */
  lemma {:induction false} LiveOfAll(cs: seq<Cookie>, now: int)
    ensures |Live(cs, now)| == |cs| ==> forall c :: c in cs ==> !c.IsExpired(now)
  {
    if cs != [] {
      LiveOfAll(cs[1..], now);
    }
  }

  lemma AddedToNamesake(cs: seq<Cookie>, c: Cookie, now: int, i: nat, ds: seq<Cookie>)
    requires i < |cs| && cs[i].Same(c) && Distinct(cs)
    requires ds == if c.IsExpired(now) then cs[..i] + cs[i + 1..] else cs[i := c.(creationTime := cs[i].creationTime)]
    ensures Distinct(ds)
    ensures Has(ds, c) <==> !c.IsExpired(now)
    ensures forall o, d :: o in cs && o.Same(c) && d in ds && d.Same(c) ==> Replaces(d, c, o)
    ensures forall d :: d in ds && !d.Same(c) ==> d in cs
    ensures forall o :: o in cs && !o.Same(c) ==> o in ds
  {
    if c.IsExpired(now) {
      WithoutIndex(cs, c, i);
    } else {
      WithIndex(cs, c, i, ds[i]);
      assert Replaces(ds[i], c, cs[i]);
    }
  }

  lemma WithoutIndex(cs: seq<Cookie>, c: Cookie, i: nat)
    requires i < |cs| && cs[i].Same(c) && Distinct(cs)
    ensures var ds := cs[..i] + cs[i + 1..];
      && Distinct(ds) && !Has(ds, c)
      && (forall d :: d in ds ==> d in cs && !d.Same(c))
      && (forall o :: o in cs && !o.Same(c) ==> o in ds)
  {
    var ds := cs[..i] + cs[i + 1..];
    forall k | 0 <= k < |ds| ensures !ds[k].Same(c) && ds[k] in cs {
      assert ds[k] == cs[if k < i then k else k + 1];
    }
    forall o | o in cs && !o.Same(c) ensures o in ds {
      var k :| 0 <= k < |cs| && cs[k] == o;
      assert o == ds[if k < i then k else k - 1];
    }
  }

  lemma WithIndex(cs: seq<Cookie>, c: Cookie, i: nat, x: Cookie)
    requires i < |cs| && cs[i].Same(c) && x.Same(c) && Distinct(cs)
    ensures var ds := cs[i := x];
      && Distinct(ds) && Has(ds, c)
      && (forall o, d :: o in cs && o.Same(c) && d in ds && d.Same(c) ==> o == cs[i] && d == x)
      && (forall d :: d in ds && !d.Same(c) ==> d in cs)
      && (forall o :: o in cs && !o.Same(c) ==> o in ds)
  {
    var ds := cs[i := x];
    assert ds[i] == x;
    forall o | o in cs && !o.Same(c) ensures o in ds {
      var k :| 0 <= k < |cs| && cs[k] == o;
      assert o == ds[k];
    }
  }

  lemma AddedToFull(cs: seq<Cookie>, c: Cookie, now: int, ds: seq<Cookie>)
    requires Distinct(cs) && |cs| == MAX_COOKIE_PER_DOMAIN && !Has(cs, c) && !c.IsExpired(now)
    requires ds == if |Live(cs, now)| < MAX_COOKIE_PER_DOMAIN
      then Live(cs, now) + [c] else Live(cs, now)[LeastRecent(Live(cs, now)) := c]
    ensures Distinct(ds) && |ds| <= MAX_COOKIE_PER_DOMAIN && c in ds && Has(ds, c)
    ensures forall d :: d in ds && !d.Same(c) ==> d in cs
    ensures forall o :: o in cs && o !in ds ==> RightlyDropped(o, cs, ds, c, now)
    ensures forall o1, o2 ::
      o1 in cs && o2 in cs && o1 !in ds && o2 !in ds && !o1.IsExpired(now) && !o2.IsExpired(now) ==> o1 == o2
  {
    hide Live, LeastRecent;
    LiveDistinct(cs, now);
    var live := Live(cs, now);
    NotSame(cs, c);
    if |live| < MAX_COOKIE_PER_DOMAIN {
      assert ds[|live|] == c;
    } else {
      var m := LeastRecent(live);
      PutInstead(live, c, m);
    }
  }

  lemma NotSame(cs: seq<Cookie>, c: Cookie)
    requires !Has(cs, c)
    ensures forall o :: o in cs ==> !o.Same(c) && !c.Same(o)
  {
  }

  lemma PutInstead(cs: seq<Cookie>, c: Cookie, m: nat)
    requires m < |cs| && Distinct(cs) && forall o :: o in cs ==> !o.Same(c) && !c.Same(o)
    ensures var ds := cs[m := c];
      && Distinct(ds) && c in ds && Has(ds, c)
      && (forall d :: d in ds && !d.Same(c) ==> d in cs)
      && (forall o :: o in cs && o != cs[m] ==> o in ds)
  {
    var ds := cs[m := c];
    assert ds[m] == c;
    forall o | o in cs && o != cs[m] ensures o in ds {
      var k :| 0 <= k < |cs| && cs[k] == o;
      assert o == ds[k];
    }
  }

  lemma {:induction false} DistinctOnce(cs: seq<Cookie>, c: Cookie)
    requires Distinct(cs)
    ensures multiset(cs)[c] <= 1
  {
    if cs != [] {
      assert cs == [cs[0]] + cs[1..];
      DistinctOnce(cs[1..], c);
      forall k | 0 <= k < |cs[1..]| ensures cs[1..][k] != cs[0] {
        assert cs[1..][k] == cs[k + 1];
      }
    }
  }

  lemma PermutedDistinct(a: seq<Cookie>, b: seq<Cookie>)
    requires Distinct(a) && multiset(a) == multiset(b)
    ensures Distinct(b)
  {
    forall i, j | 0 <= i < j < |b| ensures !b[i].Same(b[j]) {
      assert b[i] in multiset(b) && b[j] in multiset(b);
      assert b[i] in multiset(a) && b[j] in multiset(a);
      var x :| 0 <= x < |a| && a[x] == b[i];
      var y :| 0 <= y < |a| && a[y] == b[j];
      if b[i] == b[j] {
        assert b == b[..j] + [b[j]] + b[j + 1..];
        assert b[i] == b[..j][i];
        DistinctOnce(a, b[i]);
        assert false;
      }
    }
  }

  /** Distinct cookies: the list and the set of them have one size. */
  lemma {:induction false} DistinctSize(cs: seq<Cookie>)
    requires Distinct(cs)
    ensures |set c | c in cs| == |cs|
  {
    if cs != [] {
      var n := |cs| - 1;
      DistinctSize(cs[..n]);
      assert (set c | c in cs) == (set c | c in cs[..n]) + {cs[n]} by {
        assert cs == cs[..n] + [cs[n]];
      }
    }
  }

  // ----- the methods -----

  /** addCookie: the list is changed in steps as the source does it. */
  method AddCookie(list: CookieList, cookie: Cookie, now: int) returns (after: CookieList, ok: bool)
    ensures after == Added(list, cookie, now) && ok == !cookie.IsExpired(now)
  {
    if list.NoList? {
      if cookie.IsExpired(now) {
        return list, false;
      }
      return List([cookie]), true;
    }
    var cs := list.cookies;
    var i := 0;
    while i < |cs| && !cs[i].Same(cookie)
      invariant i <= |cs| && forall k :: 0 <= k < i ==> !cs[k].Same(cookie)
    {
      i := i + 1;
    }
    assert i == IndexOf(cs, cookie) by {
      hide IndexOf;
      assert !(i < IndexOf(cs, cookie)) && !(IndexOf(cs, cookie) < i);
    }
    if i == |cs| {
      if cookie.IsExpired(now) {
        return list, false;
      }
      if |cs| >= MAX_COOKIE_PER_DOMAIN {
        cs := EraseExpired(cs, now);
        if |cs| >= MAX_COOKIE_PER_DOMAIN {
          var m := MinElement(cs);
          cs := cs[m := cookie];
        } else {
          cs := cs + [cookie];
        }
      } else {
        cs := cs + [cookie];
      }
      return List(cs), true;
    } else if cookie.IsExpired(now) {
      return List(cs[..i] + cs[i + 1..]), false;
    }
    return List(cs[i := cookie.(creationTime := cs[i].creationTime)]), true;
  }

  /** std::erase_if over expired cookies. */
  method EraseExpired(cs: seq<Cookie>, now: int) returns (r: seq<Cookie>)
    ensures r == Live(cs, now)
  {
    r := [];
    var i := |cs|;
    while i > 0
      invariant 0 <= i <= |cs| && r == Live(cs[i..], now)
    {
      i := i - 1;
      assert cs[i..][1..] == cs[i + 1..];
      if !cs[i].IsExpired(now) {
        r := [cs[i]] + r;
      }
    }
    assert cs[0..] == cs;
  }

  /** std::min_element by last access: the first of the least. */
  method MinElement(cs: seq<Cookie>) returns (m: nat)
    requires cs != []
    ensures m == LeastRecent(cs)
  {
    m := 0;
    for i := 1 to |cs|
      invariant m < i && forall k :: 0 <= k < i ==> cs[m].lastAccessTime <= cs[k].lastAccessTime
      invariant forall k :: 0 <= k < m ==> cs[m].lastAccessTime < cs[k].lastAccessTime
    {
      if cs[i].lastAccessTime < cs[m].lastAccessTime {
        m := i;
      }
    }
    hide LeastRecent;
    assert !(m < LeastRecent(cs)) && !(LeastRecent(cs) < m);
  }

  datatype Request = Request(host: string, path: string, now: int, secure: bool)
  {
    predicate Accepts(isNumeric: string -> bool, c: Cookie) {
      c.Match(isNumeric, host, path, now, secure)
    }
  }

  /** The list after a search: the cookies that match have been accessed. */
  function Visited(isNumeric: string -> bool, cs: seq<Cookie>, r: Request): (vs: seq<Cookie>)
    ensures |vs| == |cs|
    ensures forall i :: 0 <= i < |cs| ==>
      vs[i].Same(cs[i]) && r.Accepts(isNumeric, vs[i]) == r.Accepts(isNumeric, cs[i])
    ensures forall i :: 0 <= i < |cs| ==>
      vs[i] == if r.Accepts(isNumeric, cs[i]) then cs[i].(lastAccessTime := r.now) else cs[i]
  {
    seq(|cs|, i requires 0 <= i < |cs| => if r.Accepts(isNumeric, cs[i])
        then cs[i].(lastAccessTime := r.now) else cs[i])
  }

  /** findCookie on one list: the matches are marked as accessed and appended to what was found. */
  method FindCookie(isNumeric: string -> bool, found: seq<Cookie>, cs: seq<Cookie>, r: Request)
    returns (out: seq<Cookie>, after: seq<Cookie>)
    requires Distinct(found) && Distinct(cs) && forall f, c :: f in found && c in cs ==> !f.Same(c)
    ensures after == Visited(isNumeric, cs, r) && Distinct(out)
    ensures forall c :: c in out <==> c in found || (c in after && r.Accepts(isNumeric, c))
  {
    out, after := found, cs;
    ghost var target := Visited(isNumeric, cs, r);
    assert FoundUpTo(isNumeric, r, found, target, 0, out);
    hide *;
    for i := 0 to |cs|
      invariant |after| == |cs| && FoundUpTo(isNumeric, r, found, target, i, out)
      invariant forall k :: 0 <= k < |cs| ==> after[k] == if k < i then target[k] else cs[k]
    {
      FoundOneMore(found, cs, target, i, out, isNumeric, r);
      if r.Accepts(isNumeric, after[i]) {
        after := after[i := after[i].(lastAccessTime := r.now)];
        out := out + [after[i]];
      }
    }
    assert after == target;
    FoundAll(found, target, out, isNumeric, r);
  }

  ghost predicate FoundUpTo(isNumeric: string -> bool, r: Request, found: seq<Cookie>, target: seq<Cookie>, i: nat,
      out: seq<Cookie>)
    requires i <= |target|
  {
    && Distinct(out)
    && (forall f :: f in found ==> f in out)
    && (forall k :: 0 <= k < i && r.Accepts(isNumeric, target[k]) ==> target[k] in out)
    && (forall c :: c in out ==> c in found || (c in target[..i] && r.Accepts(isNumeric, c)))
  }

  lemma FoundAll(found: seq<Cookie>, target: seq<Cookie>, out: seq<Cookie>, isNumeric: string -> bool, r: Request)
    requires FoundUpTo(isNumeric, r, found, target, |target|, out)
    ensures Distinct(out)
    ensures forall c :: c in out <==> c in found || (c in target && r.Accepts(isNumeric, c))
  {
    assert target[..|target|] == target;
  }

  lemma FoundOneMore(found: seq<Cookie>, cs: seq<Cookie>, target: seq<Cookie>, i: nat, out: seq<Cookie>,
      isNumeric: string -> bool, r: Request)
    requires Distinct(cs) && forall f, c :: f in found && c in cs ==> !f.Same(c)
    requires |target| == |cs| && i < |cs| && forall i :: 0 <= i < |cs| ==> target[i].Same(cs[i])
    requires FoundUpTo(isNumeric, r, found, target, i, out)
    ensures FoundUpTo(isNumeric, r, found, target, i + 1, if r.Accepts(isNumeric, target[i])
      then out + [target[i]] else out)
  {
    hide r.Accepts;
    assert target[..i + 1] == target[..i] + [target[i]];
    forall k | 0 <= k < |out| ensures !out[k].Same(target[i]) {
      var c := out[k];
      if c in found {
        assert cs[i] in cs;
      } else {
        assert c in target[..i];
        var j :| 0 <= j < i && target[j] == c;
      }
    }
  }
}
