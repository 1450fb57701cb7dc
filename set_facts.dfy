/** Two facts about finite sets that the loops over sets and the size checks rely on. */
module SetFacts {

  /** A non-empty set has an element, so a loop over it can pick one. */
  lemma Element<T>(s: set<T>) returns (x: T)
    requires s != {}
    ensures x in s
  {
    if forall y :: y !in s {
      assert false;
    }
    x :| x in s;
  }

  /** A proper subset misses an element of the whole set. */
  lemma Missing<T>(a: set<T>, b: set<T>) returns (x: T)
    requires a <= b && a != b
    ensures x in b && x !in a
  {
    if forall y :: y in b ==> y in a {
      assert false;
    }
    x :| x in b && x !in a;
  }

  /** A proper subset is strictly smaller. */
  lemma ProperSubsetSmaller<T>(a: set<T>, b: set<T>)
    requires a <= b && a != b
    ensures |a| < |b|
  {
    var x := Missing(a, b);
    var c := b - {x};
    assert b == c + {x};
    assert a <= c;
    assert |a| <= |c| by { assert c == a + (c - a); }
  }

  /** A subset is the whole set exactly when it is as large. */
  lemma SubsetSameSize<T>(a: set<T>, b: set<T>)
    requires a <= b
    ensures a == b <==> |a| == |b|
  {
    if a != b {
      ProperSubsetSmaller(a, b);
    }
  }
}
