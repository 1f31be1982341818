/** Facts about finite sets of integers that several modules need. */
module Collections {
  ghost predicate IsLeast(least: int, s: set<int>) {
    least in s && forall i | i in s :: least <= i
  }

  lemma Member<T>(s: set<T>) returns (x: T)
    requires s != {}
    ensures x in s
  {
    x :| x in s;
  }

  lemma {:induction false} LeastExists(s: set<int>)
    requires s != {}
    ensures exists least :: IsLeast(least, s)
  {
    var k := Member(s);
    if s == {k} {
      assert IsLeast(k, s);
    } else {
      LeastExists(s - {k});
      var least :| IsLeast(least, s - {k});
      assert forall i | i in s :: i == k || i in s - {k};
      assert IsLeast(if k < least then k else least, s);
    }
  }

  lemma SubsetSize<T>(a: set<T>, b: set<T>)
    requires a <= b
    ensures |a| <= |b|
    ensures a != b ==> |a| < |b|
  {
    assert b == a + (b - a);
    if a != b {
      var x := Member(b - a);
    }
  }
}
