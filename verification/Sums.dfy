/** Sums over the values of finite maps. */
module Sums {

  ghost function Sum<K>(m: map<K, nat>): nat {
    if m == map[] then 0
    else
      var k :| k in m;
      m[k] + Sum(m - {k})
  }

  lemma {:induction false} SumAt<K>(m: map<K, nat>, k: K)
    requires k in m
    ensures Sum(m) == m[k] + Sum(m - {k})
    decreases |m|
  {
    var j :| j in m && Sum(m) == m[j] + Sum(m - {j});
    if j != k {
      SumAt(m - {j}, k);
      SumAt(m - {k}, j);
      assert m - {j} - {k} == m - {k} - {j};
    }
  }

  lemma SumAdd<K>(m: map<K, nat>, k: K, v: nat)
    requires k !in m
    ensures Sum(m[k := v]) == Sum(m) + v
  {
    SumAt(m[k := v], k);
    assert m[k := v] - {k} == m;
  }

  /** Keys split by a set. */
  function Restrict<K, V>(m: map<K, V>, keys: set<K>): map<K, V> {
    map k | k in m && k in keys :: m[k]
  }

  lemma {:induction false} SumSplits<K>(m: map<K, nat>, keys: set<K>)
    ensures Sum(m) == Sum(Restrict(m, keys)) + Sum(m - keys)
    decreases |m|
  {
    hide Sum;
    if m == map[] {
      assert Restrict(m, keys) == m && m - keys == m;
      SumOfNone<K>();
    } else {
      var k :| k in m;
      SumAt(m, k);
      SumSplits(m - {k}, keys);
      if k in keys {
        SplitInside(m, keys, k);
      } else {
        SplitOutside(m, keys, k);
      }
    }
  }

  lemma SumOfNone<K>()
    ensures Sum<K>(map[]) == 0
  {
  }

  lemma SplitInside<K>(m: map<K, nat>, keys: set<K>, k: K)
    requires k in m && k in keys
    ensures Sum(Restrict(m, keys)) == m[k] + Sum(Restrict(m - {k}, keys)) && m - keys == (m - {k}) - keys
  {
    SumAt(Restrict(m, keys), k);
    assert Restrict(m, keys) - {k} == Restrict(m - {k}, keys);
  }

  lemma SplitOutside<K>(m: map<K, nat>, keys: set<K>, k: K)
    requires k in m && k !in keys
    ensures Sum(m - keys) == m[k] + Sum((m - {k}) - keys) && Restrict(m, keys) == Restrict(m - {k}, keys)
  {
    SumAt(m - keys, k);
    assert (m - keys) - {k} == (m - {k}) - keys;
  }

  /** Inclusion and exclusion, for two parts of one map. */
  lemma SumOverlap<K>(m: map<K, nat>, a: set<K>, b: set<K>)
    requires a <= m.Keys && b <= m.Keys
    ensures Sum(Restrict(m, a)) + Sum(Restrict(m, b)) <= Sum(m) + Sum(Restrict(m, a * b))
  {
    hide Sum;
    SumSplits(m, a);
    SumSplits(Restrict(m, b), a);
    assert Restrict(Restrict(m, b), a) == Restrict(m, a * b);
    SumSplits(m - a, b);
    assert Restrict(m - a, b) == Restrict(m, b) - a;
  }

  lemma {:induction false} SumOfOnes<K>(m: map<K, nat>)
    requires forall k :: k in m ==> m[k] == 1
    ensures Sum(m) == |m|
    decreases |m|
  {
    if m != map[] {
      var k :| k in m;
      SumAt(m, k);
      SumOfOnes(m - {k});
    }
  }
}
