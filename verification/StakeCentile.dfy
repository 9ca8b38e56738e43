/** The stake-centile committee: top pools by stake until their stake covers the centile. */
module StakeCentile {
  import opened Types
  import opened Ordered
  import opened Committee
  import opened StakeRanking

  function Clamp01(x: real): real {
    if x < 0.0 then 0.0 else if x > 1.0 then 1.0 else x
  }

  /** The stake that the committee must reach: the centile of the total, rounded down. */
  function Cutoff(centile: real, total: nat): (c: nat)
    ensures c <= total
  {
    var product := Clamp01(centile) * total as real;
    assert 0.0 <= product <= total as real;
    product.Floor
  }

  /** The length of the shortest prefix whose stake reaches the cutoff. */
  function ShortestReaching(ranked: seq<StakeEntry>, cutoff: nat): (k: nat)
    requires cutoff <= TotalStake(ranked)
    ensures k <= |ranked| && cutoff <= TotalStake(ranked[..k])
    ensures k > 0 ==> TotalStake(ranked[..k - 1]) < cutoff
  {
    if cutoff == 0 then 0
    else
      var n := |ranked| - 1;
      assert ranked[..n + 1] == ranked;
      if cutoff <= TotalStake(ranked[..n]) then
        var k := ShortestReaching(ranked[..n], cutoff);
        assert ranked[..n][..k] == ranked[..k];
        assert k > 0 ==> ranked[..n][..k - 1] == ranked[..k - 1];
        k
      else n + 1
  }

  function SeatEach(entries: seq<StakeEntry>): map<NodeId, nat> {
    if entries == [] then map[] else SeatEach(entries[..|entries| - 1])[entries[|entries| - 1].nodeId := 1]
  }

  /** The ranked pools that have stake, up to the cutoff. */
  function Members(registry: seq<StakeEntry>, centile: real): seq<StakeEntry> {
    var ranked := Ranked(Staked(registry));
    RankedSorts(Staked(registry));
    StakedHolds(registry);
    ranked[..ShortestReaching(ranked, Cutoff(centile, TotalStake(registry)))]
  }

  method TopCentileCommittee(registry: seq<StakeEntry>, centile: real) returns (committee: map<NodeId, nat>)
    ensures committee == SeatEach(Members(registry, centile))
  {
    hide Ranked, Staked, Clamp01, ShortestReaching;
    committee := map[];
    var total := TotalStake(registry);
    if total == 0 {
      NoStakeNoMembers(registry, centile);
      return;
    }
    var cutoff := Cutoff(centile, total);
    var ranked := Ranked(Staked(registry));
    var running, k := 0, 0;
    while k < |ranked| && running < cutoff
      invariant k <= |ranked|
      invariant running == TotalStake(ranked[..k]) && committee == SeatEach(ranked[..k])
      invariant k > 0 ==> TotalStake(ranked[..k - 1]) < cutoff
    {
      assert ranked[..k + 1][..k] == ranked[..k];
      committee := committee[ranked[k].nodeId := 1];
      running := running + ranked[k].stake;
      k := k + 1;
    }
    RankedSorts(Staked(registry));
    StakedHolds(registry);
    assert ranked[..|ranked|] == ranked;
    ShortestIsUnique(ranked, cutoff, k);
  }

  lemma NoStakeNoMembers(registry: seq<StakeEntry>, centile: real)
    requires TotalStake(registry) == 0
    ensures Members(registry, centile) == []
  {
    hide Ranked, Staked;
  }

  lemma ShortestIsUnique(ranked: seq<StakeEntry>, cutoff: nat, k: nat)
    requires cutoff <= TotalStake(ranked)
    requires k <= |ranked| && cutoff <= TotalStake(ranked[..k])
    requires k > 0 ==> TotalStake(ranked[..k - 1]) < cutoff
    ensures k == ShortestReaching(ranked, cutoff)
  {
    var j := ShortestReaching(ranked, cutoff);
    if j < k {
      PrefixTotals(ranked, j, k - 1);
    } else if k < j {
      PrefixTotals(ranked, k, j - 1);
    }
  }

  lemma {:induction false} StakedCount(s: seq<StakeEntry>, e: StakeEntry)
    ensures multiset(Staked(s))[e] == if e.stake > 0 then multiset(s)[e] else 0
  {
    if s != [] {
      var n := |s| - 1;
      StakedCount(s[..n], e);
      assert s == s[..n] + [s[n]];
    }
  }

  /** The committee does not depend on the order in which the registry lists its entries. */
  lemma ListingOrderIsIrrelevant(a: seq<StakeEntry>, b: seq<StakeEntry>, centile: real)
    requires multiset(a) == multiset(b)
    ensures Members(a, centile) == Members(b, centile)
  {
    RankedSorts(Staked(a));
    RankedSorts(Staked(b));
    forall e
      ensures multiset(Staked(a))[e] == multiset(Staked(b))[e]
    {
      StakedCount(a, e);
      StakedCount(b, e);
    }
    RankingIsUnique(Ranked(Staked(a)), Ranked(Staked(b)));
    StakedHolds(a);
    StakedHolds(b);
  }

  // ---------------------------------------------------------------------------
  // The voter ranking of the elections
  // ---------------------------------------------------------------------------

  /** Compact voter indices are 16-bit. */
  const MAX_VOTER_INDEX: nat := 0xFFFF

  function Entries(stakes: map<NodeId, nat>): seq<StakeEntry> {
    var ids := Ascending(stakes.Keys);
    seq(|ids|, i requires 0 <= i < |ids| => assert ids[i] in ids; StakeEntry(ids[i], stakes[ids[i]]))
  }

  function Ids(entries: seq<StakeEntry>): (r: seq<NodeId>)
    ensures |r| == |entries| && forall i :: 0 <= i < |r| ==> r[i] == entries[i].nodeId
  {
    seq(|entries|, i requires 0 <= i < |entries| => entries[i].nodeId)
  }

  /** The position of a pool in this list is its index in votes and certificates. */
  function VoterIds(stakes: map<NodeId, nat>): seq<NodeId> {
    Ids(Ranked(Entries(stakes)))
  }

  function VoterIdAt(stakes: map<NodeId, nat>, index: nat): Option<NodeId> {
    if index < |VoterIds(stakes)| then Some(VoterIds(stakes)[index]) else None
  }

  function IndexMap(ids: seq<NodeId>): map<NodeId, nat> {
    if ids == [] then map[]
    else
      var n := |ids| - 1;
      if n <= MAX_VOTER_INDEX then IndexMap(ids[..n])[ids[n] := n] else IndexMap(ids[..n])
  }

  ghost predicate Lists(registry: seq<StakeEntry>, stakes: map<NodeId, nat>) {
    && DistinctIds(registry)
    && forall e :: e in registry <==> e.nodeId in stakes && stakes[e.nodeId] == e.stake
  }

  lemma EntriesLists(stakes: map<NodeId, nat>)
    ensures Lists(Entries(stakes), stakes)
  {
    hide Ascending;
    var ids := Ascending(stakes.Keys);
    forall e: StakeEntry | e.nodeId in stakes && stakes[e.nodeId] == e.stake
      ensures e in Entries(stakes)
    {
      assert e.nodeId in ids;
      var i :| 0 <= i < |ids| && ids[i] == e.nodeId;
      assert Entries(stakes)[i] == e;
    }
    forall e | e in Entries(stakes)
      ensures e.nodeId in stakes && stakes[e.nodeId] == e.stake
    {
      var i :| 0 <= i < |ids| && Entries(stakes)[i] == e;
      assert ids[i] in ids;
    }
  }

  lemma {:induction false} CountsOfDistinct(s: seq<StakeEntry>, e: StakeEntry)
    requires DistinctIds(s)
    ensures multiset(s)[e] == if e in s then 1 else 0
  {
    if s != [] {
      var n := |s| - 1;
      CountsOfDistinct(s[..n], e);
      assert s == s[..n] + [s[n]];
    }
  }

  lemma RegistryRanksAlike(registry: seq<StakeEntry>, stakes: map<NodeId, nat>)
    requires Lists(registry, stakes)
    ensures Ranked(registry) == Ranked(Entries(stakes)) && multiset(registry) == multiset(Entries(stakes))
  {
    hide Entries, Ranked, IsRanked, TotalStake;
    EntriesLists(stakes);
    SameListing(registry, Entries(stakes), stakes);
    RankedSorts(registry);
    RankedSorts(Entries(stakes));
    RankingIsUnique(Ranked(registry), Ranked(Entries(stakes)));
  }

  lemma SameListing(a: seq<StakeEntry>, b: seq<StakeEntry>, stakes: map<NodeId, nat>)
    requires Lists(a, stakes) && Lists(b, stakes)
    ensures multiset(a) == multiset(b)
  {
    forall e
      ensures multiset(a)[e] == multiset(b)[e]
    {
      CountsOfDistinct(a, e);
      CountsOfDistinct(b, e);
    }
  }

  lemma MembersLead(registry: seq<StakeEntry>, centile: real)
    ensures Members(registry, centile) <= Ranked(registry)
  {
    RankedPutsStakedFirst(registry);
  }

  /** Every listed pool gets one seat. */
  lemma {:induction false} OneSeatEach(entries: seq<StakeEntry>)
    ensures SeatEach(entries).Keys == Elements(Ids(entries))
    ensures forall id :: id in SeatEach(entries) ==> SeatEach(entries)[id] == 1
  {
    if entries != [] {
      var n := |entries| - 1;
      OneSeatEach(entries[..n]);
      assert Ids(entries) == Ids(entries[..n]) + [entries[n].nodeId];
    }
  }

  lemma {:induction false} SeatCountOfDistinct(entries: seq<StakeEntry>)
    requires DistinctIds(entries)
    ensures |SeatEach(entries)| == |entries|
  {
    if entries != [] {
      var n := |entries| - 1;
      OneSeatEach(entries[..n]);
      SeatCountOfDistinct(entries[..n]);
      assert entries[n].nodeId !in SeatEach(entries[..n]);
    }
  }

  lemma RankedStaysDistinct(s: seq<StakeEntry>)
    requires DistinctIds(s)
    ensures DistinctIds(Ranked(s))
  {
    var r := Ranked(s);
    RankedSorts(s);
    forall i, j | 0 <= i < j < |r|
      ensures r[i].nodeId != r[j].nodeId
    {
      if r[i].nodeId == r[j].nodeId {
        SameIdSameEntry(s, r[i], r[j]);
        RepeatedCount(r, i, j);
        CountsOfDistinct(s, r[i]);
      }
    }
  }

  lemma SameIdSameEntry(s: seq<StakeEntry>, a: StakeEntry, b: StakeEntry)
    requires DistinctIds(s) && a in multiset(s) && b in multiset(s) && a.nodeId == b.nodeId
    ensures a == b
  {
    var i :| 0 <= i < |s| && s[i] == a;
    var j :| 0 <= j < |s| && s[j] == b;
  }

  lemma RepeatedCount(s: seq<StakeEntry>, i: nat, j: nat)
    requires i < j < |s| && s[i] == s[j]
    ensures multiset(s)[s[i]] >= 2
  {
    assert s == s[..j] + [s[j]] + s[j + 1..];
    assert s[i] in s[..j];
    assert s[i] in multiset(s[..j]);
  }

  /** The committee is exactly the voter indices below its size. */
  lemma CommitteeIsIndexPrefix(registry: seq<StakeEntry>, stakes: map<NodeId, nat>, centile: real, i: nat)
    requires Lists(registry, stakes) && i < |VoterIds(stakes)|
    ensures var committee := SeatEach(Members(registry, centile));
            VoterIds(stakes)[i] in committee <==> i < |committee|
  {
    hide Entries, Ranked, Members, SeatEach;
    var ranked, members := Ranked(registry), Members(registry, centile);
    RegistryRanksAlike(registry, stakes);
    MembersLead(registry, centile);
    RankedStaysDistinct(registry);
    assert DistinctIds(members);
    OneSeatEach(members);
    SeatCountOfDistinct(members);
    if i < |members| {
      assert Ids(members)[i] == VoterIds(stakes)[i];
    }
  }

  function VoterIndex(stakes: map<NodeId, nat>, id: NodeId): Option<nat> {
    var index := IndexMap(VoterIds(stakes));
    if id in index then Some(index[id]) else None
  }

  /** Resolving an index and looking the pool up again gives the index, exactly when it fits 16 bits. */
  lemma VoterIndexInverts(stakes: map<NodeId, nat>, i: nat)
    requires VoterIdAt(stakes, i).Some?
    ensures VoterIndex(stakes, VoterIdAt(stakes, i).value) == if i <= MAX_VOTER_INDEX then Some(i) else None
  {
    EntriesLists(stakes);
    RankedStaysDistinct(Entries(stakes));
    IndexOf(VoterIds(stakes), i);
  }

  lemma {:induction false} IndexOf(ids: seq<NodeId>, i: nat)
    requires Distinct(ids) && i < |ids|
    ensures ids[i] in IndexMap(ids) <==> i <= MAX_VOTER_INDEX
    ensures i <= MAX_VOTER_INDEX ==> IndexMap(ids)[ids[i]] == i
  {
    var n := |ids| - 1;
    if i < n {
      assert ids[..n][i] == ids[i];
      IndexOf(ids[..n], i);
    } else if ids[n] in IndexMap(ids[..n]) {
      IndexMapWithin(ids[..n], ids[n]);
    }
  }

  lemma {:induction false} IndexMapWithin(ids: seq<NodeId>, id: NodeId)
    requires id in IndexMap(ids)
    ensures id in ids
  {
    var n := |ids| - 1;
    if id in IndexMap(ids[..n]) {
      IndexMapWithin(ids[..n], id);
    }
  }
}
