/** Facts about finite collections, here only to support the proofs of the
    models' loops and lemmas; they state nothing about the service. */
module Collections {

  /** A non-empty set has a member to pick. */
  lemma NonEmptyHasMember(s: set<int>)
    requires s != {}
    ensures exists x :: x in s
  {
    if forall x :: x !in s {
      assert false;
    }
  }

  /** Every value of a map is stored under some key. */
  lemma ValueHasKey<V>(m: map<int, V>, v: V)
    requires v in m.Values
    ensures exists k :: k in m && m[k] == v
  {
    if forall k :: k in m ==> m[k] != v {
      assert false;
    }
  }

  /** Storing a value under a new key adds exactly that value. */
  lemma ValuesOfFreshKey(m: map<int, int>, k: int, v: int)
    requires k !in m
    ensures m[k := v].Values == m.Values + {v}
  {
    var m' := m[k := v];
    forall x | x in m'.Values
      ensures x in m.Values + {v}
    {
      ValueHasKey(m', x);
      var j :| j in m' && m'[j] == x;
      if j != k {
        assert m[j] == x;
      }
    }
    forall x | x in m.Values
      ensures x in m'.Values
    {
      ValueHasKey(m, x);
      var j :| j in m && m[j] == x;
      assert m'[j] == x;
    }
    assert m'[k] == v;
  }
}
