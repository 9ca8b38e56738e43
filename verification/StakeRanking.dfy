/** The stake ranking: stake descending, node id ascending among equals. */
module StakeRanking {
  import opened Committee

  predicate Before(a: StakeEntry, b: StakeEntry) {
    a.stake > b.stake || (a.stake == b.stake && a.nodeId < b.nodeId)
  }

  ghost predicate IsRanked(s: seq<StakeEntry>) {
    forall i, j :: 0 <= i < j < |s| ==> !Before(s[j], s[i])
  }

  function InsertRanked(s: seq<StakeEntry>, e: StakeEntry): seq<StakeEntry> {
    if s == [] || !Before(e, s[|s| - 1]) then s + [e]
    else InsertRanked(s[..|s| - 1], e) + [s[|s| - 1]]
  }

  function Ranked(s: seq<StakeEntry>): seq<StakeEntry> {
    if s == [] then [] else InsertRanked(Ranked(s[..|s| - 1]), s[|s| - 1])
  }

  /** Insertion adds the entry and nothing else. */
  lemma {:induction false} InsertAdds(s: seq<StakeEntry>, e: StakeEntry)
    ensures multiset(InsertRanked(s, e)) == multiset(s) + multiset{e}
  {
    if s != [] && Before(e, s[|s| - 1]) {
      var n := |s| - 1;
      InsertAdds(s[..n], e);
      assert s == s[..n] + [s[n]];
    }
  }

  lemma {:induction false} InsertTotal(s: seq<StakeEntry>, e: StakeEntry)
    ensures TotalStake(InsertRanked(s, e)) == TotalStake(s) + e.stake
  {
    if s == [] || !Before(e, s[|s| - 1]) {
      assert (s + [e])[..|s|] == s;
    } else {
      var n := |s| - 1;
      var r := InsertRanked(s[..n], e);
      InsertTotal(s[..n], e);
      assert (r + [s[n]])[..|r|] == r;
    }
  }

  lemma {:induction false} InsertKeepsRanked(s: seq<StakeEntry>, e: StakeEntry)
    requires IsRanked(s)
    ensures IsRanked(InsertRanked(s, e))
  {
    if s == [] {
    } else if !Before(e, s[|s| - 1]) {
      RankedSnoc(s, e);
    } else {
      var n := |s| - 1;
      InsertKeepsRanked(s[..n], e);
      InsertAdds(s[..n], e);
      assert InsertRanked(s[..n], e)[..] == InsertRanked(s[..n], e);
      LastStaysLast(InsertRanked(s[..n], e), s[..n], e, s[n]);
    }
  }

  lemma RankedSnoc(s: seq<StakeEntry>, e: StakeEntry)
    requires IsRanked(s) && s != [] && !Before(e, s[|s| - 1])
    ensures IsRanked(s + [e])
  {
    forall i | 0 <= i < |s|
      ensures !Before(e, s[i])
    {
      assert i < |s| - 1 ==> !Before(s[|s| - 1], s[i]);
    }
  }

  lemma LastStaysLast(r: seq<StakeEntry>, s: seq<StakeEntry>, e: StakeEntry, last: StakeEntry)
    requires IsRanked(r) && multiset(r) == multiset(s) + multiset{e}
    requires Before(e, last) && forall i :: 0 <= i < |s| ==> !Before(last, s[i])
    ensures IsRanked(r + [last])
  {
    forall i | 0 <= i < |r|
      ensures !Before(last, r[i])
    {
      assert r[i] in multiset(r);
      assert r[i] == e || r[i] in s;
    }
  }

  lemma NoneIsRanked()
    ensures IsRanked([])
  {
  }

  lemma {:induction false} RankedSorts(s: seq<StakeEntry>)
    ensures IsRanked(Ranked(s)) && multiset(Ranked(s)) == multiset(s) && TotalStake(Ranked(s)) == TotalStake(s)
  {
    hide InsertRanked, IsRanked;
    if s == [] {
      NoneIsRanked();
    } else {
      var n := |s| - 1;
      RankedSorts(s[..n]);
      InsertAdds(Ranked(s[..n]), s[n]);
      InsertTotal(Ranked(s[..n]), s[n]);
      InsertKeepsRanked(Ranked(s[..n]), s[n]);
      assert s == s[..n] + [s[n]];
    }
  }

  /** A ranking is determined by the entries, whatever their order. */
  lemma {:induction false} RankingIsUnique(a: seq<StakeEntry>, b: seq<StakeEntry>)
    requires IsRanked(a) && IsRanked(b) && multiset(a) == multiset(b)
    ensures a == b
  {
    if a == [] {
      assert |multiset(b)| == |b|;
    } else {
      SameFirst(a, b);
      SameRest(a, b);
      RankingIsUnique(a[1..], b[1..]);
      assert a == [a[0]] + a[1..] && b == [b[0]] + b[1..];
    }
  }

  lemma SameFirst(a: seq<StakeEntry>, b: seq<StakeEntry>)
    requires IsRanked(a) && IsRanked(b) && multiset(a) == multiset(b) && a != []
    ensures b != [] && a[0] == b[0]
  {
    assert a[0] in multiset(b) && a[0] in b;
    assert b[0] in multiset(a) && b[0] in a;
    assert !Before(a[0], b[0]) && !Before(b[0], a[0]);
  }

  lemma SameRest(a: seq<StakeEntry>, b: seq<StakeEntry>)
    requires multiset(a) == multiset(b) && a != [] && b != [] && a[0] == b[0]
    ensures multiset(a[1..]) == multiset(b[1..])
  {
    assert a == [a[0]] + a[1..] && b == [b[0]] + b[1..];
    assert multiset(a[1..]) == multiset(a) - multiset{a[0]};
    assert multiset(b[1..]) == multiset(b) - multiset{b[0]};
  }

  // ---------------------------------------------------------------------------
  // Pools with stake come first
  // ---------------------------------------------------------------------------

  function Staked(s: seq<StakeEntry>): seq<StakeEntry> {
    if s == [] then []
    else Staked(s[..|s| - 1]) + if s[|s| - 1].stake > 0 then [s[|s| - 1]] else []
  }

  function Unstaked(s: seq<StakeEntry>): seq<StakeEntry> {
    if s == [] then []
    else Unstaked(s[..|s| - 1]) + if s[|s| - 1].stake > 0 then [] else [s[|s| - 1]]
  }

  lemma {:induction false} StakedSplits(s: seq<StakeEntry>)
    ensures multiset(s) == multiset(Staked(s)) + multiset(Unstaked(s))
  {
    if s != [] {
      var n := |s| - 1;
      StakedSplits(s[..n]);
      assert s == s[..n] + [s[n]];
    }
  }

  lemma {:induction false} StakedHolds(s: seq<StakeEntry>)
    ensures forall e :: e in Staked(s) ==> e.stake > 0
    ensures forall e :: e in Unstaked(s) ==> e.stake == 0
    ensures TotalStake(Staked(s)) == TotalStake(s)
  {
    if s != [] {
      var n := |s| - 1;
      StakedHolds(s[..n]);
      if s[n].stake > 0 {
        assert Staked(s)[..|Staked(s)| - 1] == Staked(s[..n]);
      } else {
        assert Staked(s) == Staked(s[..n]);
      }
    }
  }

  lemma RankedPutsStakedFirst(s: seq<StakeEntry>)
    ensures Ranked(s) == Ranked(Staked(s)) + Ranked(Unstaked(s))
  {
    hide Ranked, Staked, Unstaked, IsRanked, TotalStake;
    var top, rest := Ranked(Staked(s)), Ranked(Unstaked(s));
    StakedSplits(s);
    StakedHolds(s);
    RankedSorts(s);
    RankedSorts(Staked(s));
    RankedSorts(Unstaked(s));
    assert forall e :: e in top ==> e in multiset(top);
    assert forall e :: e in rest ==> e in multiset(rest);
    RankingsJoin(top, rest);
    RankingIsUnique(Ranked(s), top + rest);
  }

  lemma RankingsJoin(top: seq<StakeEntry>, rest: seq<StakeEntry>)
    requires IsRanked(top) && IsRanked(rest)
    requires (forall e :: e in top ==> e.stake > 0) && forall e :: e in rest ==> e.stake == 0
    ensures IsRanked(top + rest)
  {
    forall i, j | 0 <= i < j < |top + rest|
      ensures !Before((top + rest)[j], (top + rest)[i])
    {
      if i < |top| <= j {
        assert top[i] in top && rest[j - |top|] in rest;
      }
    }
  }
}
