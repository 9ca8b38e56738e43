/** Ascending listings of finite sets: the iteration order of `BTreeSet` and `BTreeMap`. */
module Ordered {
  import opened Types

  ghost predicate StrictlyAscending(s: seq<nat>) {
    forall i, j :: 0 <= i < j < |s| ==> s[i] < s[j]
  }

  ghost predicate IsLeast(m: nat, s: set<nat>) {
    m in s && forall x :: x in s ==> m <= x
  }

  /** The least element, found by scanning the set in any order. */
  function Least(s: set<nat>): (m: nat)
    requires s != {}
    ensures IsLeast(m, s)
  {
    LeastExists(s);
    var m :| m in s && forall x :: x in s ==> m <= x;
    m
  }

  lemma {:induction false} LeastExists(s: set<nat>)
    requires s != {}
    ensures exists m :: IsLeast(m, s)
  {
    var k :| k in s;
    var rest := s - {k};
    if rest == {} {
      assert s == {k};
      assert IsLeast(k, s);
    } else {
      LeastExists(rest);
      var m :| IsLeast(m, rest);
      assert s == rest + {k};
      assert IsLeast(if k < m then k else m, s);
    }
  }

  function Ascending(s: set<nat>): (r: seq<nat>)
    ensures StrictlyAscending(r)
    ensures forall x :: x in r <==> x in s
    ensures |r| == |s|
  {
    if s == {} then []
    else
      var m := Least(s);
      var rest := Ascending(s - {m});
      assert |s| == |s - {m}| + 1;
      [m] + rest
  }

  /** A strictly ascending sequence is determined by its elements. */
  lemma {:induction false} AscendingIsUnique(a: seq<nat>, b: seq<nat>)
    requires StrictlyAscending(a) && StrictlyAscending(b)
    requires forall x :: x in a <==> x in b
    ensures a == b
  {
    if a == [] {
      assert forall i :: 0 <= i < |b| ==> b[i] in a;
    } else {
      assert b != [] by { assert a[0] in a; }
      assert a[0] in b && b[0] in a;
      assert a[0] == b[0];
      forall x
        ensures x in a[1..] <==> x in b[1..]
      {
        assert x in a[1..] <==> x in a && x != a[0];
        assert x in b[1..] <==> x in b && x != b[0];
      }
      AscendingIsUnique(a[1..], b[1..]);
      assert a == [a[0]] + a[1..] && b == [b[0]] + b[1..];
    }
  }

  lemma AscendingConcat(a: seq<nat>, b: seq<nat>)
    requires StrictlyAscending(a) && StrictlyAscending(b)
    requires forall x, y :: x in a && y in b ==> x < y
    ensures StrictlyAscending(a + b)
  {
    forall i, j | 0 <= i < j < |a + b|
      ensures (a + b)[i] < (a + b)[j]
    {
      if i < |a| <= j {
        assert a[i] in a && b[j - |a|] in b;
      }
    }
  }

  /** The listed elements that are in the set, in the order listed. */
  function Where(s: seq<nat>, allowed: set<nat>): seq<nat> {
    if s == [] then []
    else Where(s[..|s| - 1], allowed) + if s[|s| - 1] in allowed then [s[|s| - 1]] else []
  }

  lemma WhereNext(s: seq<nat>, allowed: set<nat>, i: nat)
    requires i < |s|
    ensures Where(s[..i + 1], allowed) == Where(s[..i], allowed) + if s[i] in allowed then [s[i]] else []
  {
    assert s[..i + 1][..i] == s[..i];
  }

  lemma {:induction false} WhereAscends(s: seq<nat>, allowed: set<nat>)
    requires StrictlyAscending(s)
    ensures StrictlyAscending(Where(s, allowed))
    ensures forall x :: x in Where(s, allowed) <==> x in s && x in allowed
  {
    if s != [] {
      var n := |s| - 1;
      WhereAscends(s[..n], allowed);
      var before := Where(s[..n], allowed);
      assert forall x :: x in s <==> x in s[..n] || x == s[n];
      forall i | 0 <= i < |before|
        ensures before[i] < s[n]
      {
        assert before[i] in before;
      }
    }
  }

  /** Filtering an ascending listing lists the subset. */
  lemma WhereIsAscending(s: seq<nat>, allowed: set<nat>)
    requires StrictlyAscending(s) && forall x :: x in allowed ==> x in s
    ensures Where(s, allowed) == Ascending(allowed)
  {
    WhereAscends(s, allowed);
    AscendingIsUnique(Where(s, allowed), Ascending(allowed));
  }

  lemma SizeOfAscending(s: seq<nat>)
    requires StrictlyAscending(s)
    ensures |Elements(s)| == |s|
  {
    AscendingIsUnique(s, Ascending(Elements(s)));
  }
}
