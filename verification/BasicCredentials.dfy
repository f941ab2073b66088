/**
 * The credentials of HTTP basic authentication: an ordered set, searched for the longest path that leads to a request.
 */
module BasicCredentials {

  // ----- strings in order -----

  /** std::string's operator<. */
  predicate StrLess(a: string, b: string) {
    b != "" && (a == "" || a[0] < b[0] || (a[0] == b[0] && StrLess(a[1..], b[1..])))
  }

  lemma {:induction false} StrTotal(a: string, b: string)
    ensures !StrLess(a, a)
    ensures StrLess(a, b) || StrLess(b, a) || a == b
    ensures !(StrLess(a, b) && StrLess(b, a))
  {
    if a != "" {
      StrTotal(a[1..], a[1..]);
    }
    if a != "" && b != "" {
      StrTotal(a[1..], b[1..]);
      assert a == [a[0]] + a[1..] && b == [b[0]] + b[1..];
    }
  }

  lemma {:induction false} StrTransitive(a: string, b: string, c: string)
    requires StrLess(a, b) && StrLess(b, c)
    ensures StrLess(a, c)
  {
    if a != "" && b != "" && c != "" && a[0] == b[0] && b[0] == c[0] {
      StrTransitive(a[1..], b[1..], c[1..]);
    }
  }

  /** Where two strings part, what comes before has ended or has the smaller character. */
  lemma {:induction false} StrLessIff(a: string, b: string) returns (k: nat)
    ensures k <= |a| && k <= |b| && a[..k] == b[..k] && (k < |a| && k < |b| ==> a[k] != b[k])
    ensures StrLess(a, b) <==> k < |b| && (k == |a| || a[k] < b[k])
  {
    k := 0;
    if a != "" && b != "" && a[0] == b[0] {
      var j := StrLessIff(a[1..], b[1..]);
      k := j + 1;
      assert a[..k] == [a[0]] + a[1..][..j] && b[..k] == [b[0]] + b[1..][..j];
    }
  }

  /** A proper prefix comes before the string. */
  lemma {:induction false} PrefixLess(a: string, b: string)
    requires a <= b && a != b
    ensures StrLess(a, b)
  {
    if a != "" {
      assert a[0] == b[0] && a[1..] <= b[1..] && a == [a[0]] + a[1..] && b == [b[0]] + b[1..];
      PrefixLess(a[1..], b[1..]);
    }
  }

  // ----- credentials -----

  datatype BasicCred = BasicCred(user: string, password: string, host: string, port: int, path: string, activated: bool)
  {
    /** operator==. */
    predicate Same(c: BasicCred) {
      host == c.host && port == c.port && path == c.path
    }

    /** operator<: by host, then port, then path in descending order. */
    predicate Less(c: BasicCred) {
      StrLess(host, c.host)
          || (!StrLess(c.host, host) && (port < c.port || (!(c.port < port) && StrLess(c.path, path))))
    }

    /** Whether the credential is for a request: same host and port, and its path leads to the request's. */
    predicate Serves(h: string, p: int, requestPath: string) {
      host == h && port == p && path <= requestPath
    }
  }

  /** A credential serves what is asked of its host and port at its path or anywhere below. */
  lemma ServesIff(c: BasicCred, host: string, port: int, path: string)
    ensures c.Serves(host, port, path) <==> c.host == host && c.port == port && exists below :: path == c.path + below
  {
    if c.path <= path {
      assert path == c.path + path[|c.path|..];
    }
  }

  /** The constructor ends the path with a slash. */
  function Terminated(path: string): (r: string)
    ensures r != "" && r[|r| - 1] == '/'
    ensures path != "" && path[|path| - 1] == '/' ==> r == path
    ensures path == "" || path[|path| - 1] != '/' ==> r == path + "/"
  {
    if path == "" || path[|path| - 1] != '/' then path + "/" else path
  }

  function Make(user: string, password: string, host: string, port: int, path: string, activated: bool): BasicCred {
    BasicCred(user, password, host, port, Terminated(path), activated)
  }

  /** The order is total up to identity. */
  lemma LessTotal(a: BasicCred, b: BasicCred)
    ensures !a.Less(a)
    ensures !(a.Less(b) && b.Less(a))
    ensures !a.Less(b) && !b.Less(a) <==> a.Same(b)
  {
    hide StrLess;
    StrTotal(a.host, b.host);
    StrTotal(a.path, b.path);
    StrTotal(b.host, a.host);
    StrTotal(b.path, a.path);
  }

  lemma LessTransitive(a: BasicCred, b: BasicCred, c: BasicCred)
    requires a.Less(b) && b.Less(c)
    ensures a.Less(c)
  {
    hide StrLess;
    StrTotal(a.host, b.host);
    StrTotal(b.host, c.host);
    StrTotal(a.host, c.host);
    if StrLess(a.host, b.host) && StrLess(b.host, c.host) {
      StrTransitive(a.host, b.host, c.host);
    }
    if StrLess(c.path, b.path) && StrLess(b.path, a.path) {
      StrTransitive(c.path, b.path, a.path);
    }
  }

  ghost predicate Ordered(s: seq<BasicCred>) {
    forall i, j :: 0 <= i < j < |s| ==> s[i].Less(s[j])
  }

  /** No stored credential that serves a request stands before the one made for it. */
  lemma ServingIsNotBefore(c: BasicCred, bc: BasicCred)
    requires c.Serves(bc.host, bc.port, bc.path)
    ensures !c.Less(bc)
  {
    hide StrLess;
    StrTotal(bc.host, bc.host);
    StrTotal(bc.path, bc.path);
    StrTotal(bc.path, c.path);
    if c.path != bc.path {
      PrefixLess(c.path, bc.path);
    }
  }

  /** Of two that serve a request the one with the longer path stands first. */
  lemma LongerStandsFirst(c: BasicCred, d: BasicCred, host: string, port: int, path: string)
    requires c.Serves(host, port, path) && d.Serves(host, port, path) && |c.path| > |d.path|
    ensures c.Less(d)
  {
    hide StrLess;
    assert d.path == c.path[..|d.path|];
    PrefixLess(d.path, c.path);
    StrTotal(host, host);
  }

  /** Once host and port are passed they do not come back. */
  lemma PassedForGood(bc: BasicCred, c: BasicCred, d: BasicCred)
    requires !c.Less(bc) && (c.host != bc.host || c.port != bc.port) && c.Less(d)
    ensures d.host != bc.host || d.port != bc.port
  {
    hide StrLess;
    StrTotal(c.host, bc.host);
    StrTotal(c.host, d.host);
    StrTotal(bc.host, bc.host);
  }

  /** The set owns its credentials through pointers: `addresses` holds where each of them lies. */
  class AuthConfigFactory {
    var basicCreds: seq<BasicCred>
    var addresses: seq<nat>

    ghost predicate Valid()
      reads this
    {
      && Ordered(basicCreds) && (forall c :: c in basicCreds ==> c.path != "" && c.path[|c.path| - 1] == '/')
      && |addresses| == |basicCreds|
    }

    constructor ()
      ensures Valid() && basicCreds == [] && addresses == []
    {
      basicCreds, addresses := [], [];
    }

    /** std::set::lower_bound. */
    method LowerBound(bc: BasicCred) returns (i: nat)
      requires Ordered(basicCreds)
      ensures i <= |basicCreds|
      ensures forall k :: 0 <= k < i ==> basicCreds[k].Less(bc)
      ensures forall k :: i <= k < |basicCreds| ==> !basicCreds[k].Less(bc)
    {
      var lo, hi := 0, |basicCreds|;
      hide BasicCred.Less;
      while lo < hi
        invariant 0 <= lo <= hi <= |basicCreds|
        invariant forall k :: 0 <= k < lo ==> basicCreds[k].Less(bc)
        invariant forall k :: hi <= k < |basicCreds| ==> !basicCreds[k].Less(bc)
      {
        var mid := (lo + hi) / 2;
        if basicCreds[mid].Less(bc) {
          forall k | 0 <= k < mid ensures basicCreds[k].Less(bc) {
            LessTransitive(basicCreds[k], basicCreds[mid], bc);
          }
          lo := mid + 1;
        } else {
          forall k | mid < k < |basicCreds| ensures !basicCreds[k].Less(bc) {
            if basicCreds[k].Less(bc) {
              LessTransitive(basicCreds[mid], basicCreds[k], bc);
            }
          }
          hi := mid;
        }
      }
      i := lo;
    }

    /**
     * findBasicCred: the stored credential for the host and port with the longest path that leads to the request's
     * path, and the end of the set exactly if there is none.
     */
    method FindBasicCred(host: string, port: int, path: string) returns (i: nat)
      requires Valid()
      ensures i <= |basicCreds|
      ensures i < |basicCreds| ==> basicCreds[i].Serves(host, port, Terminated(path))
      ensures i < |basicCreds| ==>
        forall k :: 0 <= k < |basicCreds| && basicCreds[k].Serves(host, port, Terminated(path)) && k != i ==>
        |basicCreds[k].path| < |basicCreds[i].path|
      ensures i == |basicCreds|
        <==> forall k :: 0 <= k < |basicCreds| ==> !basicCreds[k].Serves(host, port, Terminated(path))
    {
      var bc := Make("", "", host, port, path, false);
      i := LowerBound(bc);
      forall k | 0 <= k < i ensures !basicCreds[k].Serves(host, port, bc.path) {
        if basicCreds[k].Serves(host, port, bc.path) {
          ServingIsNotBefore(basicCreds[k], bc);
        }
      }
      hide BasicCred.Less;
      while i != |basicCreds| && basicCreds[i].host == host && basicCreds[i].port == port
        invariant i <= |basicCreds| && forall k :: 0 <= k < i ==> !basicCreds[k].Serves(host, port, bc.path)
        invariant forall k :: i <= k < |basicCreds| ==> !basicCreds[k].Less(bc)
        decreases |basicCreds| - i
      {
        if basicCreds[i].path <= bc.path {
          FirstIsLongest(basicCreds, i, host, port, bc.path);
          return;
        }
        i := i + 1;
      }
      forall k | i < k < |basicCreds| ensures !basicCreds[k].Serves(host, port, bc.path) {
        PassedForGood(bc, basicCreds[i], basicCreds[k]);
      }
      i := |basicCreds|;
    }

    /**
     * updateBasicCred: c lies at an address of its own, its caller being its only owner. The source compares pointers
     * where it means credentials, so what it finds is never equal, nothing is replaced, and a set does not take a
     * second credential of the same identity: an update takes effect exactly if its identity was not stored, or the
     * very same credential was.
     */
    method UpdateBasicCred(c: BasicCred, address: nat)
      requires Valid() && c.path != "" && c.path[|c.path| - 1] == '/' && address !in addresses
      modifies this
      ensures Valid()
      ensures Stored(old(basicCreds), c) ==> basicCreds == old(basicCreds) && addresses == old(addresses)
      ensures !Stored(old(basicCreds), c) ==> multiset(basicCreds) == multiset(old(basicCreds)) + multiset{c}
      ensures forall a :: a in addresses ==> a in old(addresses) || a == address
      ensures c in basicCreds <==> !Stored(old(basicCreds), c) || c in old(basicCreds)
    {
      var i := LowerBound(c);
      if i != |basicCreds| && addresses[i] == address {
        // Here the source would assign the new credential.
        assert false;
      }
      Insert(c, address);
      if !Stored(old(basicCreds), c) {
        assert c in multiset(basicCreds);
      }
    }

    /** std::set::insert. */
    method Insert(c: BasicCred, address: nat)
      requires Valid() && c.path != "" && c.path[|c.path| - 1] == '/'
      modifies this
      ensures Valid()
      ensures Stored(old(basicCreds), c) ==> basicCreds == old(basicCreds) && addresses == old(addresses)
      ensures !Stored(old(basicCreds), c) ==> multiset(basicCreds) == multiset(old(basicCreds)) + multiset{c}
      ensures forall a :: a in addresses ==> a in old(addresses) || a == address
    {
      var i := LowerBound(c);
      ghost var before := basicCreds;
      StoredAtLowerBound(before, c, i);
      hide BasicCred.Less;
      if i == |basicCreds| || c.Less(basicCreds[i]) {
        InsertKeepsOrder(before, i, c);
        basicCreds := basicCreds[..i] + [c] + basicCreds[i..];
        addresses := addresses[..i] + [address] + addresses[i..];
        assert before == before[..i] + before[i..];
      }
    }

    /** activateBasicCred; `resolved` is what the resolver knows for the host, `address` where a new credential lies. */
    method ActivateBasicCred(host: string, port: int, path: string, resolved: Resolved, address: nat)
      returns (ok: bool)
      requires Valid()
      modifies this
      ensures Valid()
      ensures !ok <==> resolved.Unknown? && forall c :: c in old(basicCreds) ==> !c.Serves(host, port, Terminated(path))
      ensures !ok ==> basicCreds == old(basicCreds)
      ensures (exists c :: c in old(basicCreds) && c.Serves(host, port, Terminated(path))) ==>
        exists i :: Activated(old(basicCreds), basicCreds, i)
            && BestFor(old(basicCreds), old(basicCreds)[i], host, port, Terminated(path))
      ensures ok && (forall c :: c in old(basicCreds) ==> !c.Serves(host, port, Terminated(path))) ==>
        var c := BasicCred(resolved.user, resolved.password, host, port, Terminated(path), true);
        multiset(basicCreds) == multiset(old(basicCreds)) + multiset{c}
      ensures ok ==> exists c :: c in basicCreds && c.activated && BestFor(basicCreds, c, host, port, Terminated(path))
    {
      var i := FindBasicCred(host, port, path);
      if i == |basicCreds| {
        if resolved.Unknown? {
          return false;
        }
        var c := Make(resolved.user, resolved.password, host, port, path, true);
        ghost var before := basicCreds;
        assert !Stored(before, c);
        Insert(c, address);
        NewIsBest(before, basicCreds, c, host, port, path);
        return true;
      } else {
        ghost var before := basicCreds;
        basicCreds := basicCreds[i := basicCreds[i].(activated := true)];
        ActivatingKeepsOrder(before, i);
        assert basicCreds[i] in basicCreds;
        assert Activated(before, basicCreds, i) && BestFor(before, before[i], host, port, Terminated(path));
        assert BestFor(basicCreds, basicCreds[i], host, port, Terminated(path));
        return true;
      }
    }
  }

  /** The i-th credential is activated and nothing else has changed. */
  predicate Activated(before: seq<BasicCred>, after: seq<BasicCred>, i: int) {
    0 <= i < |before| && after == before[i := before[i].(activated := true)]
  }

  datatype Resolved = Unknown | Known(user: string, password: string)

  /** A credential of this identity is in the set. */
  predicate Stored(s: seq<BasicCred>, c: BasicCred) {
    exists k :: 0 <= k < |s| && s[k].host == c.host && s[k].port == c.port && s[k].path == c.path
  }

  /** c serves the request, and no other of the set does with as long a path. */
  ghost predicate BestFor(s: seq<BasicCred>, c: BasicCred, host: string, port: int, path: string) {
    c.Serves(host, port, path) && forall d :: d in s && d.Serves(host, port, path) && d != c ==> |d.path| < |c.path|
  }

  lemma FirstIsLongest(s: seq<BasicCred>, i: nat, host: string, port: int, path: string)
    requires Ordered(s) && i < |s| && s[i].Serves(host, port, path)
    requires forall k :: 0 <= k < i ==> !s[k].Serves(host, port, path)
    ensures forall k :: 0 <= k < |s| && s[k].Serves(host, port, path) && k != i ==> |s[k].path| < |s[i].path|
  {
    hide BasicCred.Less;
    forall k | i < k < |s| && s[k].Serves(host, port, path) ensures |s[k].path| < |s[i].path| {
      LessTotal(s[i], s[k]);
      if |s[k].path| > |s[i].path| {
        LongerStandsFirst(s[k], s[i], host, port, path);
      }
      assert s[k].path == path[..|s[k].path|] && s[i].path == path[..|s[i].path|];
    }
  }

  lemma StoredAtLowerBound(s: seq<BasicCred>, c: BasicCred, i: nat)
    requires Ordered(s) && i <= |s|
    requires (forall k :: 0 <= k < i ==> s[k].Less(c)) && forall k :: i <= k < |s| ==> !s[k].Less(c)
    ensures Stored(s, c) <==> i < |s| && !c.Less(s[i])
  {
    hide BasicCred.Less;
    if i < |s| {
      LessTotal(s[i], c);
    }
    forall k | 0 <= k < |s| && s[k].Same(c) ensures i < |s| && !c.Less(s[i]) {
      LessTotal(s[k], c);
      if k > i && c.Less(s[i]) {
        LessTransitive(c, s[i], s[k]);
      }
    }
  }

  lemma InsertKeepsOrder(s: seq<BasicCred>, i: nat, c: BasicCred)
    requires Ordered(s) && i <= |s|
    requires (forall k :: 0 <= k < i ==> s[k].Less(c)) && (i < |s| ==> c.Less(s[i]))
    ensures Ordered(s[..i] + [c] + s[i..])
  {
    hide BasicCred.Less;
    forall k | i < k < |s| ensures c.Less(s[k]) {
      LessTransitive(c, s[i], s[k]);
    }
  }

  lemma ActivatingKeepsOrder(s: seq<BasicCred>, i: nat)
    requires Ordered(s) && i < |s|
    ensures Ordered(s[i := s[i].(activated := true)])
  {
  }

  lemma NewIsBest(before: seq<BasicCred>, after: seq<BasicCred>, c: BasicCred, host: string, port: int, path: string)
    requires multiset(after) == multiset(before) + multiset{c} && c.Serves(host, port, Terminated(path))
    requires forall d :: d in before ==> !d.Serves(host, port, Terminated(path))
    ensures c in after && BestFor(after, c, host, port, Terminated(path))
  {
    assert c in multiset(after);
    forall d | d in after ensures d in before || d == c {
      assert d in multiset(after);
    }
  }

  /** An update with a new password for a known identity is lost, unlike what the comment on it says. */
  method NewPasswordIsLost(first: nat, second: nat) returns (factory: AuthConfigFactory, c: BasicCred)
    requires first != second
    ensures fresh(factory) && factory.Valid() && factory.basicCreds == [c.(password := "old")] && c.password == "new"
  {
    c := Make("user", "new", "host", 80, "/", true);
    var d := c.(password := "old");
    factory := new AuthConfigFactory();
    factory.UpdateBasicCred(d, first);
    OnlyOne(factory.basicCreds, d);
    assert factory.basicCreds[0].Same(c);
    factory.UpdateBasicCred(c, second);
  }

  lemma OnlyOne(s: seq<BasicCred>, c: BasicCred)
    requires multiset(s) == multiset([]) + multiset{c}
    ensures s == [c]
  {
    assert |multiset(s)| == |s|;
    assert s[0] in multiset(s);
  }
}
