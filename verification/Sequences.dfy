/** Facts about sequences and sets that do not depend on what they hold. */
module Sequences {

  /** A permutation has the same members. */
  lemma SameMembers<T>(a: seq<T>, b: seq<T>)
    requires multiset(a) == multiset(b)
    ensures forall e :: e in a <==> e in b
  {
    assert forall e :: e in a <==> e in multiset(a);
    assert forall e :: e in b <==> e in multiset(b);
  }

  ghost predicate NoneTwice<T>(s: seq<T>) {
    forall i, j :: 0 <= i < j < |s| ==> s[i] != s[j]
  }

  lemma {:induction false} OnceIn<T>(s: seq<T>, e: T)
    requires NoneTwice(s)
    ensures multiset(s)[e] <= 1
  {
    if s != [] {
      assert s == [s[0]] + s[1..];
      OnceIn(s[1..], e);
      forall k | 0 <= k < |s[1..]| ensures s[1..][k] != s[0] {
        assert s[1..][k] == s[k + 1];
      }
    }
  }

  /** A permutation repeats nothing that the sequence does not repeat. */
  lemma PermutedNoneTwice<T>(a: seq<T>, b: seq<T>)
    requires NoneTwice(a) && multiset(a) == multiset(b)
    ensures NoneTwice(b) && |a| == |b| && forall e :: e in a <==> e in b
  {
    SameMembers(a, b);
    forall i, j | 0 <= i < j < |b| ensures b[i] != b[j] {
      if b[i] == b[j] {
        assert b == b[..j] + [b[j]] + b[j + 1..] && b[i] == b[..j][i];
        OnceIn(a, b[i]);
        assert false;
      }
    }
    assert |multiset(a)| == |multiset(b)|;
  }

  /** Inserting at a position adds just that member. */
  lemma InsertMembers<T>(r: seq<T>, k: nat, e: T)
    requires k <= |r|
    ensures multiset(r[..k] + [e] + r[k..]) == multiset(r) + multiset{e}
    ensures forall x :: x in r[..k] + [e] + r[k..] ==> x in r || x == e
  {
    assert r == r[..k] + r[k..];
  }

  lemma TakeMembers<T>(s: seq<T>, i: nat)
    requires i < |s|
    ensures multiset(s[..i + 1]) == multiset(s[..i]) + multiset{s[i]}
  {
    assert s[..i + 1] == s[..i] + [s[i]];
  }

  /** A subset of the same size is the whole set. */
  lemma SubsetSize<T>(a: set<T>, b: set<T>)
    requires a <= b
    ensures |a| <= |b|
    ensures |a| == |b| <==> a == b
  {
    assert b == a + (b - a);
  }
}
