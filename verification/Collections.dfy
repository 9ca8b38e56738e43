/** Loops over hash maps and hash sets, whose entries are visited in an arbitrary order. */
module Collections {

  /** `kept` is `m` without the entries that `keep` refuses. */
  ghost predicate Retained<K, V>(m: map<K, V>, kept: map<K, V>, keep: (K, V) -> bool) {
    && kept.Keys <= m.Keys
    && (forall k :: k in m ==> (k in kept <==> keep(k, m[k])))
    && (forall k :: k in kept ==> kept[k] == m[k])
  }

  /** Drops the entries that `keep` refuses. */
  method RetainMap<K(==), V(==)>(m: map<K, V>, keep: (K, V) -> bool) returns (kept: map<K, V>)
    ensures Retained(m, kept, keep)
  {
    kept := m;
    var todo := m.Keys;
    while todo != {}
      invariant todo <= m.Keys && kept.Keys <= m.Keys
      invariant forall k :: k in m ==> (k in kept <==> k in todo || keep(k, m[k]))
      invariant forall k :: k in kept ==> kept[k] == m[k]
      decreases |todo|
    {
      var k :| k in todo;
      todo := todo - {k};
      if !keep(k, m[k]) {
        kept := kept - {k};
      }
    }
  }

  method RetainSet<T(==)>(s: set<T>, keep: T -> bool) returns (kept: set<T>)
    ensures forall x :: x in kept <==> x in s && keep(x)
  {
    kept := s;
    var todo := s;
    while todo != {}
      invariant todo <= s
      invariant forall x :: x in kept <==> x in s && (x in todo || keep(x))
      decreases |todo|
    {
      var x :| x in todo;
      todo := todo - {x};
      if !keep(x) {
        kept := kept - {x};
      }
    }
  }

  /** Takes `x` out of every set in the map. */
  method RemoveFromAll<K(==), T(==)>(m: map<K, set<T>>, x: T) returns (r: map<K, set<T>>)
    ensures r.Keys == m.Keys && forall k :: k in m ==> r[k] == m[k] - {x}
  {
    r := m;
    var todo := m.Keys;
    while todo != {}
      invariant todo <= m.Keys && r.Keys == m.Keys
      invariant forall k :: k in m ==> r[k] == if k in todo then m[k] else m[k] - {x}
      decreases |todo|
    {
      var k :| k in todo;
      todo := todo - {k};
      r := r[k := r[k] - {x}];
    }
  }
}
