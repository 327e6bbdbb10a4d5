/** Sequences with the same elements. */
module Permutations {
  /** All elements but the one at position k. */
  function Others<T>(s: seq<T>, k: nat): (r: seq<T>)
    requires k < |s|
    ensures |r| == |s| - 1
  {
    s[..k] + s[k + 1..]
  }

  lemma TakeOut<T>(s: seq<T>, k: nat)
    requires k < |s|
    ensures multiset(Others(s, k)) == multiset(s) - multiset{s[k]}
  {
    var before, after := s[..k], s[k + 1..];
    assert s == before + ([s[k]] + after);
    assert multiset(s) == multiset(before) + (multiset{s[k]} + multiset(after));
  }

  lemma SameElements<T>(a: seq<T>, b: seq<T>)
    requires multiset(a) == multiset(b)
    ensures |a| == |b| && forall x :: x in a <==> x in b
  {
    assert |multiset(a)| == |a| && |multiset(b)| == |b|;
    forall x
      ensures x in a <==> x in b
    {
      assert x in multiset(a) <==> x in a;
      assert x in multiset(b) <==> x in b;
    }
  }

  /** An element of one can be taken out of the other. */
  lemma TakeOutSame<T>(a: seq<T>, b: seq<T>) returns (k: nat)
    requires a != [] && multiset(a) == multiset(b)
    ensures k < |b| && b[k] == a[0] && multiset(a[1..]) == multiset(Others(b, k))
  {
    SameElements(a, b);
    assert a[0] in b;
    k :| 0 <= k < |b| && b[k] == a[0];
    TakeOut(b, k);
    TakeOut(a, 0);
    assert Others(a, 0) == a[1..];
  }
}
