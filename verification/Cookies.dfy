/** Cookies, when they match a request, and how domains are cut into labels. */
module Cookies {
  import opened Sequences

  datatype Cookie = Cookie(
    name: string, value: string, expiryTime: int, persistent: bool, domain: string, hostOnly: bool,
    path: string, secure: bool, httpOnly: bool, creationTime: int, lastAccessTime: int)
  {
    predicate IsExpired(base: int) {
      persistent && base > expiryTime
    }

    /** operator==: the identity of a cookie is its domain, path and name. */
    predicate Same(c: Cookie) {
      domain == c.domain && path == c.path && name == c.name
    }

    predicate Match(isNumeric: string -> bool, requestHost: string, requestPath: string, date: int,
        secureRequest: bool) {
      && !(secure && !secureRequest)
      && !IsExpired(date)
      && PathMatch(requestPath, path)
      && (if hostOnly then requestHost == domain else DomainMatch(isNumeric, requestHost, domain))
    }
  }

  predicate StartsWith(s: string, prefix: string) {
    |prefix| <= |s| && s[..|prefix|] == prefix
  }

  predicate EndsWith(s: string, suffix: string) {
    |suffix| <= |s| && s[|s| - |suffix|..] == suffix
  }

  /** Section 5.1.3 of RFC 6265. The test for a numeric host is the resolver's and is a parameter. */
  predicate DomainMatch(isNumeric: string -> bool, requestHost: string, domain: string) {
    requestHost == domain ||
    (|domain| < |requestHost| && EndsWith(requestHost, domain) && requestHost[|requestHost| - |domain| - 1] == '.'
        && !isNumeric(requestHost))
  }

  /** Section 5.1.4 of RFC 6265. A cookie's path is not empty. */
  predicate PathMatch(requestPath: string, path: string) {
    requestPath == path ||
    (0 < |path| < |requestPath| && StartsWith(requestPath, path)
        && (path[|path| - 1] == '/' || requestPath[|path|] == '/'))
  }

  /** A path matches itself, everything below it if it ends with a slash, and what continues it with a slash. */
  lemma PathMatchIff(requestPath: string, path: string)
    requires path != ""
    ensures PathMatch(requestPath, path) <==>
      || requestPath == path
      || (path[|path| - 1] == '/' && exists x: string :: requestPath == path + x)
      || (exists x: string :: requestPath == path + "/" + x)
  {
    if x: string :| requestPath == path + "/" + x {
      assert requestPath[|path|] == '/' && requestPath[..|path|] == path;
    }
    if x: string :| requestPath == path + x {
      assert requestPath[..|path|] == path;
      assert x == "" ==> requestPath == path;
    }
    if PathMatch(requestPath, path) && requestPath != path {
      var x := requestPath[|path|..];
      assert requestPath == path + x;
      if path[|path| - 1] != '/' {
        assert requestPath == path + "/" + x[1..];
      }
    }
  }

  /** A domain matches itself, and every host that is not numeric and ends with a dot and the domain. */
  lemma DomainMatchIff(isNumeric: string -> bool, requestHost: string, domain: string)
    ensures DomainMatch(isNumeric, requestHost, domain) <==>
      || requestHost == domain
      || (!isNumeric(requestHost) && exists x: string :: requestHost == x + "." + domain)
  {
    if x: string :| requestHost == x + "." + domain {
      assert requestHost[|x|] == '.' && requestHost[|x| + 1..] == domain;
    }
    if DomainMatch(isNumeric, requestHost, domain) && requestHost != domain {
      var x := requestHost[..|requestHost| - |domain| - 1];
      assert requestHost == x + "." + domain;
    }
  }

  /** When a cookie matches a request, in terms of its fields. */
  lemma MatchIff(c: Cookie, isNumeric: string -> bool, requestHost: string, requestPath: string, date: int,
      secureRequest: bool)
    requires c.path != ""
    ensures c.Match(isNumeric, requestHost, requestPath, date, secureRequest) <==>
      && (c.secure ==> secureRequest)
      && (c.persistent ==> date <= c.expiryTime)
      && (|| requestPath == c.path
          || (c.path[|c.path| - 1] == '/' && exists x: string :: requestPath == c.path + x)
          || (exists x: string :: requestPath == c.path + "/" + x))
      && (|| requestHost == c.domain
          || (!c.hostOnly && !isNumeric(requestHost) && exists x: string :: requestHost == x + "." + c.domain))
  {
    PathMatchIff(requestPath, c.path);
    DomainMatchIff(isNumeric, requestHost, c.domain);
    hide PathMatch, DomainMatch;
  }

  // ----- labels -----

  /** The position of the first dot, or the length. */
  function FirstDot(s: string): (i: nat)
    ensures i <= |s|
    ensures forall k :: 0 <= k < i ==> s[k] != '.'
    ensures i < |s| ==> s[i] == '.'
  {
    if s == [] || s[0] == '.' then 0 else 1 + FirstDot(s[1..])
  }

  /** util::split at dots, leaving out empty pieces. */
  function Split(s: string): seq<string>
    decreases |s|
  {
    if s == [] then []
    else
      var i := FirstDot(s);
      Piece(s[..i]) + (if i == |s| then [] else Split(s[i + 1..]))
  }

  function Piece(s: string): seq<string> {
    if s == "" then [] else [s]
  }

  /** splitDomainLabel, from the right: the way from the root of the trie, top-level label first. */
  function Labels(isNumeric: string -> bool, domain: string): seq<string> {
    if isNumeric(domain) then [domain] else Reverse(Split(domain))
  }

  function Reverse(s: seq<string>): (r: seq<string>)
    ensures |r| == |s|
    ensures forall i :: 0 <= i < |s| ==> r[i] == s[|s| - 1 - i]
  {
    if s == [] then [] else Reverse(s[1..]) + [s[0]]
  }

  lemma ReverseConcat(a: seq<string>, b: seq<string>)
    ensures Reverse(a + b) == Reverse(b) + Reverse(a)
  {
  }

  lemma {:induction false} SplitUnfold(s: string, i: nat)
    requires i == FirstDot(s)
    ensures Split(s) == Piece(s[..i]) + (if i == |s| then [] else Split(s[i + 1..]))
  {
    hide FirstDot;
    if s == "" {
      assert s[..0] == "";
    }
  }

  /** Cutting at a dot: the labels of x.y are those of x and then those of y. */
  lemma {:induction false} SplitAtDot(x: string, y: string)
    ensures Split(x + "." + y) == Split(x) + Split(y)
    decreases |x|
  {
    hide Split, FirstDot, Piece;
    var s := x + "." + y;
    var i := FirstDot(x);
    FirstDotIs(s, i);
    SplitUnfold(s, i);
    SplitUnfold(x, i);
    assert s[..i] == x[..i];
    if i == |x| {
      assert s[i + 1..] == y;
    } else {
      assert s[i + 1..] == x[i + 1..] + "." + y;
      SplitAtDot(x[i + 1..], y);
    }
  }

  lemma FirstDotIs(s: string, i: nat)
    requires i < |s| && s[i] == '.' && forall k :: 0 <= k < i ==> s[k] != '.'
    ensures FirstDot(s) == i
  {
    hide FirstDot;
    var j := FirstDot(s);
    assert !(j < i) && !(i < j);
  }

  /**
   * A domain that matches a host by its dotted suffix lies on the host's way through the trie,
   * unless the domain is numeric (the matching host then is not).
   */
  lemma MatchingDomainIsOnTheWay(isNumeric: string -> bool, host: string, domain: string)
    requires DomainMatch(isNumeric, host, domain)
    ensures host == domain || !isNumeric(domain) ==> Labels(isNumeric, domain) <= Labels(isNumeric, host)
  {
    if host != domain && !isNumeric(domain) {
      var x := host[..|host| - |domain| - 1];
      assert host == x + "." + domain;
      SplitAtDot(x, domain);
      ReverseConcat(Split(x), Split(domain));
    }
  }

  // ----- the order of results -----

  /** CookiePathDivider: the number of path components. */
  function PathDepth(path: string): (d: nat)
  {
    if path == [] then 0
    else SlashesAfterNonSlash(path, |path|) + (if path[|path| - 1] != '/' then 1 else 0)
  }

  /** Slashes among the first n characters, the very first one aside, that follow a character other than a slash. */
  function SlashesAfterNonSlash(path: string, n: nat): nat
    requires n <= |path|
  {
    if n <= 1 then 0
    else SlashesAfterNonSlash(path, n - 1) + (if path[n - 1] == '/' && path[n - 2] != '/' then 1 else 0)
  }

  lemma {:induction false} DepthAfterSlash(x: string, y: string, n: nat)
    requires n <= |y|
    ensures var s := x + "/" + y;
      SlashesAfterNonSlash(s, |x| + 1 + n) ==
      SlashesAfterNonSlash(x, |x|) + (if x != "" && x[|x| - 1] != '/' then 1 else 0) + SlashesAfterNonSlash(y, n)
  {
    var s := x + "/" + y;
    SameStart(x, s, |x|);
    if n > 0 {
      DepthAfterSlash(x, y, n - 1);
      assert s[|x| + n] == y[n - 1];
      assert n > 1 ==> s[|x| + n - 1] == y[n - 2];
      assert n == 1 ==> s[|x| + n - 1] == '/';
    } else {
      assert |x| > 0 ==> s[|x|] == '/' && s[|x| - 1] == x[|x| - 1];
    }
  }

  lemma {:induction false} SameStart(x: string, s: string, n: nat)
    requires x <= s && n <= |x|
    ensures SlashesAfterNonSlash(s, n) == SlashesAfterNonSlash(x, n)
  {
    if n > 1 {
      SameStart(x, s, n - 1);
    }
  }

  lemma {:induction false} NoSlashes(s: string, n: nat)
    requires '/' !in s && n <= |s|
    ensures SlashesAfterNonSlash(s, n) == 0
  {
    if n > 1 {
      NoSlashes(s, n - 1);
      assert s[n - 1] in s;
    }
  }

  /** The depth is the number of components: none in nothing, one in a name, and slashes separate them. */
  lemma PathDepthCounts(x: string, y: string)
    ensures PathDepth("") == 0
    ensures x != "" && '/' !in x ==> PathDepth(x) == 1
    ensures PathDepth(x + "/" + y) == PathDepth(x) + PathDepth(y)
  {
    if x != "" && '/' !in x {
      NoSlashes(x, |x|);
      assert x[|x| - 1] in x;
    }
    DepthAfterSlash(x, y, |y|);
    var s := x + "/" + y;
    assert y != "" ==> s[|s| - 1] == y[|y| - 1];
    assert y == "" ==> s[|s| - 1] == '/';
  }

  method ComputePathDepth(path: string) returns (depth: nat)
    ensures depth == PathDepth(path)
  {
    depth := 0;
    if path != [] {
      for i := 1 to |path|
        invariant depth == SlashesAfterNonSlash(path, i)
      {
        if path[i] == '/' && path[i - 1] != '/' {
          depth := depth + 1;
        }
      }
      if path[|path| - 1] != '/' {
        depth := depth + 1;
      }
    }
  }

  /** OrderByPathDepthDesc: deeper paths first, then earlier creation. */
  predicate Before(a: Cookie, b: Cookie) {
    PathDepth(a.path) > PathDepth(b.path) ||
    (!(PathDepth(b.path) > PathDepth(a.path)) && a.creationTime < b.creationTime)
  }

  /** No later cookie of the list belongs before an earlier one. */
  ghost predicate Ordered(s: seq<Cookie>) {
    forall i, j :: 0 <= i < j < |s| ==> !Before(s[j], s[i])
  }

  /** Ordered results: deeper paths stand first, and among equally deep ones the cookies created earlier. */
  lemma OrderedMeans(s: seq<Cookie>, i: nat, j: nat)
    requires Ordered(s) && i < j < |s|
    ensures
      || PathDepth(s[i].path) > PathDepth(s[j].path)
      || (PathDepth(s[i].path) == PathDepth(s[j].path) && s[i].creationTime <= s[j].creationTime)
  {
    hide PathDepth;
    assert !Before(s[j], s[i]);
  }

  /** The comparator is a strict weak order: not being before, either way round, is transitive. */
  lemma BeforeIsStrictWeak(a: Cookie, b: Cookie, c: Cookie)
    ensures !Before(a, a)
    ensures Before(a, b) && Before(b, c) ==> Before(a, c)
    ensures !Before(a, b) && !Before(b, c) ==> !Before(a, c)
  {
  }

  /** std::sort with that comparator: some ordered permutation. */
  method SortCookies(s: seq<Cookie>) returns (r: seq<Cookie>)
    ensures multiset(r) == multiset(s) && Ordered(r)
  {
    r := [];
    assert Ordered(r);
    hide *;
    var i := 0;
    while i < |s|
      invariant 0 <= i <= |s| && multiset(r) == multiset(s[..i]) && Ordered(r)
    {
      var k: nat := |r|;
      while k > 0 && Before(s[i], r[k - 1])
        invariant k <= |r| && forall j :: k <= j < |r| ==> Before(s[i], r[j])
      {
        k := k - 1;
      }
      InsertKeepsOrder(r, k, s[i]);
      InsertMembers(r, k, s[i]);
      TakeMembers(s, i);
      r := r[..k] + [s[i]] + r[k..];
      i := i + 1;
    }
    assert s[..|s|] == s;
  }

  lemma InsertKeepsOrder(r: seq<Cookie>, k: nat, c: Cookie)
    requires k <= |r| && Ordered(r)
    requires forall j :: k <= j < |r| ==> Before(c, r[j])
    requires k > 0 ==> !Before(c, r[k - 1])
    ensures Ordered(r[..k] + [c] + r[k..])
  {
    var t := r[..k] + [c] + r[k..];
    forall i, j | 0 <= i < j < |t| ensures !Before(t[j], t[i]) {
      if j == k {
        BeforeIsStrictWeak(c, r[k - 1], t[i]);
      } else if i == k {
        BeforeIsStrictWeak(t[j], c, t[j]);
      } else if i < k < j && k > 0 {
        assert !Before(r[j - 1], r[i]);
      }
    }
  }
}
