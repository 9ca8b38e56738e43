/** Stake-centile quorums: any two overlap, and when a unanimous committee can form one. */
module Quorum {
  import opened Types
  import opened Sums
  import opened Committee
  import opened StakeRanking
  import opened StakeCentile
  import opened ElectionsModel
  import opened ElectionsRuns

  // ---------------------------------------------------------------------------
  // Recorded weights are stakes of committee members
  // ---------------------------------------------------------------------------

  ghost predicate IsStake(cfg: Config, key: VoterKey, weight: nat) {
    key.tag == 0 && key.id in cfg.committee && key.id in cfg.stakes && weight == cfg.stakes[key.id]
  }

  ghost predicate AllStakes(cfg: Config, weights: map<VoterKey, nat>) {
    forall key :: key in weights ==> IsStake(cfg, key, weights[key])
  }

  /** Votes are recorded at the weight computed for them, and not at all when that is zero. */
  ghost predicate FromVote(cfg: Config, op: Op) {
    op.Record? ==> op.weight > 0 && exists npvWins :: op.weight == WeightFor(cfg, op.key, npvWins)
  }

  lemma VotesRecordStakes(s: Elections, op: Op, rb: Hash)
    requires s.cfg.selection.StakeCentile? && FromVote(s.cfg, op)
    requires rb in s.elections ==> AllStakes(s.cfg, s.elections[rb].voterWeights)
    ensures rb in Step(s, op).elections ==> AllStakes(s.cfg, Step(s, op).elections[rb].voterWeights)
  {
  }

  lemma {:induction false} RunRecordsStakes(s: Elections, ops: seq<Op>, rb: Hash)
    requires s.cfg.selection.StakeCentile? && forall i :: 0 <= i < |ops| ==> FromVote(s.cfg, ops[i])
    requires Inv(s) && (rb in s.elections ==> AllStakes(s.cfg, s.elections[rb].voterWeights))
    ensures Run(s, ops).cfg == s.cfg
    ensures rb in Run(s, ops).elections ==> AllStakes(s.cfg, Run(s, ops).elections[rb].voterWeights)
    decreases |ops|
  {
    if ops != [] {
      VotesRecordStakes(s, ops[0], rb);
      StepKeepsInv(s, ops[0]);
      RunRecordsStakes(Step(s, ops[0]), ops[1..], rb);
    }
  }

  ghost function Voters(weights: map<VoterKey, nat>): set<NodeId> {
    set key | key in weights :: key.id
  }

  lemma {:induction false} WeightsAreStakes(cfg: Config, weights: map<VoterKey, nat>)
    requires AllStakes(cfg, weights)
    ensures Sum(weights) == Sum(Restrict(cfg.stakes, Voters(weights)))
    decreases |weights|
  {
    if weights == map[] {
      assert Restrict(cfg.stakes, Voters(weights)) == map[];
    } else {
      var key :| key in weights;
      SumAt(weights, key);
      WeightsAreStakes(cfg, weights - {key});
      VotersWithout(cfg, weights, key);
      SumAt(Restrict(cfg.stakes, Voters(weights)), key.id);
      RestrictWithout(cfg.stakes, Voters(weights), key.id);
    }
  }

  lemma VotersWithout(cfg: Config, weights: map<VoterKey, nat>, key: VoterKey)
    requires AllStakes(cfg, weights) && key in weights
    ensures key.id in Voters(weights) && Voters(weights - {key}) == Voters(weights) - {key.id}
  {
  }

  lemma RestrictWithout(m: map<NodeId, nat>, keys: set<NodeId>, k: NodeId)
    ensures Restrict(m, keys) - {k} == Restrict(m, keys - {k})
  {
  }

  /** Two elections at quorum, on any nodes that share the registry, have committee members in
      common that hold at least twice the threshold less the total stake. */
  lemma QuorumsOverlap(cfg: Config, a: map<VoterKey, nat>, b: map<VoterKey, nat>)
    requires AllStakes(cfg, a) && AllStakes(cfg, b) && HasQuorum(cfg, a) && HasQuorum(cfg, b)
    requires cfg.expectedWeight == Sum(cfg.stakes)
    ensures Voters(a) * Voters(b) <= cfg.committee.Keys
    ensures Sum(Restrict(cfg.stakes, Voters(a) * Voters(b)))
            >= 2 * Threshold(cfg.quorumFraction, cfg.expectedWeight) - cfg.expectedWeight
  {
    WeightsAreStakes(cfg, a);
    WeightsAreStakes(cfg, b);
    SumOverlap(cfg.stakes, Voters(a), Voters(b));
  }

  /** ... which covers every pair of elections at quorum that runs of two nodes can produce. */
  lemma QuorumsOverlapAcrossRuns(cfg: Config, left: seq<Op>, right: seq<Op>, rb1: Hash, rb2: Hash)
    requires cfg.selection.StakeCentile? && cfg.expectedWeight == Sum(cfg.stakes)
    requires forall i :: 0 <= i < |left| ==> FromVote(cfg, left[i])
    requires forall i :: 0 <= i < |right| ==> FromVote(cfg, right[i])
    requires AtQuorum(Run(EmptyElections(cfg), left), rb1) && AtQuorum(Run(EmptyElections(cfg), right), rb2)
    ensures var a := Run(EmptyElections(cfg), left).elections[rb1].voterWeights;
            var b := Run(EmptyElections(cfg), right).elections[rb2].voterWeights;
            && Voters(a) * Voters(b) <= cfg.committee.Keys
            && Sum(Restrict(cfg.stakes, Voters(a) * Voters(b)))
               >= 2 * Threshold(cfg.quorumFraction, cfg.expectedWeight) - cfg.expectedWeight
  {
    var empty := EmptyElections(cfg);
    RunRecordsStakes(empty, left, rb1);
    RunRecordsStakes(empty, right, rb2);
    RunKeepsInv(empty, left);
    RunKeepsInv(empty, right);
    var s, t := Run(empty, left), Run(empty, right);
    assert Sound(s, s.elections[rb1]) && Sound(t, t.elections[rb2]);
    QuorumsOverlap(cfg, s.elections[rb1].voterWeights, t.elections[rb2].voterWeights);
  }

  // ---------------------------------------------------------------------------
  // Reachability
  // ---------------------------------------------------------------------------

  /** What configuration validation rejects. */
  predicate Validates(selection: Selection, quorumFraction: real) {
    selection.StakeCentile? ==> selection.topCentile > quorumFraction
  }

  /** The configuration is built from one registry. */
  ghost predicate BuiltFrom(cfg: Config, registry: seq<StakeEntry>) {
    && cfg.selection.StakeCentile?
    && Lists(registry, cfg.stakes)
    && cfg.committee == SeatEach(Members(registry, cfg.selection.topCentile))
    && cfg.expectedWeight == TotalStake(registry)
  }

  /** The whole committee's stake is enough for a quorum. */
  ghost predicate CommitteeSuffices(registry: seq<StakeEntry>, centile: real, fraction: real) {
    var members := Members(registry, centile);
    members != [] && TotalStake(members) >= Threshold(fraction, TotalStake(registry))
  }

  ghost function KeysOf(entries: seq<StakeEntry>): set<VoterKey> {
    set e | e in entries :: VoterKey(e.nodeId, 0)
  }

  lemma {:induction false} UnanimousWeight(entries: seq<StakeEntry>, w: VoterKey -> nat)
    requires DistinctIds(entries) && forall e :: e in entries ==> w(VoterKey(e.nodeId, 0)) == e.stake
    ensures Sum(WeightsOf(KeysOf(entries), w)) == TotalStake(entries)
  {
    if entries == [] {
      assert WeightsOf(KeysOf(entries), w) == map[];
    } else {
      var n := |entries| - 1;
      var rest, key := entries[..n], VoterKey(entries[n].nodeId, 0);
      assert entries == rest + [entries[n]];
      UnanimousWeight(rest, w);
      assert KeysOf(entries) == KeysOf(rest) + {key};
      assert key !in KeysOf(rest);
      SumAdd(WeightsOf(KeysOf(rest), w), key, w(key));
      assert WeightsOf(KeysOf(entries), w) == WeightsOf(KeysOf(rest), w)[key := w(key)];
    }
  }

  lemma MembersAreListed(registry: seq<StakeEntry>, centile: real)
    requires DistinctIds(registry)
    ensures DistinctIds(Members(registry, centile))
    ensures forall e :: e in Members(registry, centile) ==> e in registry
  {
    MembersLead(registry, centile);
    RankedStaysDistinct(registry);
    RankedSorts(registry);
    PrefixIsListed(Members(registry, centile), Ranked(registry), registry);
  }

  lemma PrefixIsListed(prefix: seq<StakeEntry>, all: seq<StakeEntry>, registry: seq<StakeEntry>)
    requires prefix <= all && multiset(all) == multiset(registry)
    ensures forall e :: e in prefix ==> e in registry
  {
    forall e | e in prefix
      ensures e in registry
    {
      assert e in all;
      assert e in multiset(all);
    }
  }

  lemma MemberWeight(cfg: Config, registry: seq<StakeEntry>, e: StakeEntry)
    requires BuiltFrom(cfg, registry) && e in Members(registry, cfg.selection.topCentile)
    ensures WeightFor(cfg, VoterKey(e.nodeId, 0), None) == e.stake
  {
    var members := Members(registry, cfg.selection.topCentile);
    MembersAreListed(registry, cfg.selection.topCentile);
    OneSeatEach(members);
    var i :| 0 <= i < |members| && members[i] == e;
    assert Ids(members)[i] == e.nodeId;
  }

  /** When the whole committee votes, in any order, quorum is reached exactly when the committee's
      stake suffices. */
  lemma UnanimousVote(s: Elections, registry: seq<StakeEntry>, ops: seq<Op>, rb: Hash, w: VoterKey -> nat)
    requires BuiltFrom(s.cfg, registry) && forall key :: w(key) == WeightFor(s.cfg, key, None)
    requires Inv(s) && rb in s.elections && s.elections[rb].voterWeights == map[]
    requires SparesAlong(s, ops, rb) && Weighs(ops, rb, w)
    requires VotersIn(ops, rb) == KeysOf(Members(registry, s.cfg.selection.topCentile))
    ensures AtQuorum(Run(s, ops), rb) <==>
            CommitteeSuffices(registry, s.cfg.selection.topCentile, s.cfg.quorumFraction)
  {
    var members := Members(registry, s.cfg.selection.topCentile);
    MembersAreListed(registry, s.cfg.selection.topCentile);
    forall e | e in members
      ensures w(VoterKey(e.nodeId, 0)) == e.stake
    {
      MemberWeight(s.cfg, registry, e);
    }
    UnanimousWeight(members, w);
    QuorumIsOfTheSet(s, ops, rb, w);
    if members != [] {
      assert VoterKey(members[0].nodeId, 0) in KeysOf(members);
    }
  }

  /** One unit of stake each. */
  function UnitRegistry(total: nat): (r: seq<StakeEntry>)
    ensures |r| == total && DistinctIds(r) && forall e :: e in r ==> e.stake == 1 && e.nodeId < total
    ensures TotalStake(r) == total
  {
    if total == 0 then []
    else
      var r := UnitRegistry(total - 1) + [StakeEntry(total - 1, 1)];
      assert r[..total - 1] == UnitRegistry(total - 1);
      r
  }

  lemma UnitCommittee(total: nat, centile: real)
    ensures TotalStake(Members(UnitRegistry(total), centile)) == Cutoff(centile, total)
  {
    hide Ranked, Staked, IsRanked, UnitRegistry, Members;
    var registry := UnitRegistry(total);
    var members := Members(registry, centile);
    MembersAreListed(registry, centile);
    MembersJustReach(registry, centile);
    if members != [] {
      assert members[|members| - 1] in members;
    }
  }

  lemma MembersJustReach(registry: seq<StakeEntry>, centile: real)
    ensures var members := Members(registry, centile);
            && TotalStake(members) >= Cutoff(centile, TotalStake(registry))
            && (members != [] ==> TotalStake(members[..|members| - 1]) < Cutoff(centile, TotalStake(registry)))
  {
    hide Ranked, Staked, IsRanked, Cutoff, TotalStake;
    var ranked, members := Ranked(Staked(registry)), Members(registry, centile);
    RankedSorts(Staked(registry));
    StakedHolds(registry);
    if members != [] {
      assert members[..|members| - 1] == ranked[..|members| - 1];
    }
  }

  lemma CommitteeReachesCutoff(registry: seq<StakeEntry>, centile: real)
    ensures TotalStake(Members(registry, centile)) >= Cutoff(centile, TotalStake(registry))
  {
    RankedSorts(Staked(registry));
    StakedHolds(registry);
  }

  lemma ShortfallFails(total: nat, centile: real, fraction: real)
    requires Cutoff(centile, total) < Max(1, Threshold(fraction, total))
    ensures !CommitteeSuffices(UnitRegistry(total), centile, fraction)
  {
    UnitCommittee(total, centile);
    if Members(UnitRegistry(total), centile) != [] && Cutoff(centile, total) == 0 {
      RankedSorts(Staked(UnitRegistry(total)));
      StakedHolds(UnitRegistry(total));
    }
  }

  /** A unanimous committee forms a quorum under every registry of the given total stake if and only
      if the committee's cutoff is positive and at least the quorum threshold. */
  lemma ReachableIff(total: nat, centile: real, fraction: real)
    ensures (forall registry :: DistinctIds(registry) && TotalStake(registry) == total ==>
              CommitteeSuffices(registry, centile, fraction))
            <==> Cutoff(centile, total) >= Max(1, Threshold(fraction, total))
  {
    if Cutoff(centile, total) >= Max(1, Threshold(fraction, total)) {
      forall registry | DistinctIds(registry) && TotalStake(registry) == total
        ensures CommitteeSuffices(registry, centile, fraction)
      {
        CommitteeReachesCutoff(registry, centile);
      }
    } else {
      ShortfallFails(total, centile, fraction);
    }
  }

  /** A margin of one unit of stake between centile and fraction is enough. */
  lemma MarginSuffices(total: nat, centile: real, fraction: real)
    requires 0.0 <= fraction
    requires ((if centile < 1.0 then centile else 1.0) - fraction) * total as real >= 1.0
    ensures Cutoff(centile, total) >= Max(1, Threshold(fraction, total))
  {
    var a, b := Clamp01(centile) * total as real, fraction * total as real;
    assert a - b >= 1.0;
  }

  /** Reachability: with that margin, in a configuration that validates, any order of all members'
      votes, with repeats and whatever happens in between, reaches quorum. */
  lemma AllVotesReachQuorum(s: Elections, registry: seq<StakeEntry>, ops: seq<Op>, rb: Hash, w: VoterKey -> nat)
    requires BuiltFrom(s.cfg, registry) && forall key :: w(key) == WeightFor(s.cfg, key, None)
    requires Validates(s.cfg.selection, s.cfg.quorumFraction) && 0.0 <= s.cfg.quorumFraction
    requires var centile := s.cfg.selection.topCentile;
             ((if centile < 1.0 then centile else 1.0) - s.cfg.quorumFraction) * TotalStake(registry) as real >= 1.0
    requires Inv(s) && rb in s.elections && s.elections[rb].voterWeights == map[]
    requires SparesAlong(s, ops, rb) && Weighs(ops, rb, w)
    requires VotersIn(ops, rb) == KeysOf(Members(registry, s.cfg.selection.topCentile))
    ensures AtQuorum(Run(s, ops), rb)
  {
    hide Inv, SparesAlong, Weighs, Members, AtQuorum;
    MarginSuffices(TotalStake(registry), s.cfg.selection.topCentile, s.cfg.quorumFraction);
    ReachableIff(TotalStake(registry), s.cfg.selection.topCentile, s.cfg.quorumFraction);
    UnanimousVote(s, registry, ops, rb, w);
  }

  /** Validation alone is not: it accepts 0.76 over 0.75, yet with three units of stake the committee
      need hold no more than two of them, and the threshold is three. */
  lemma ValidationIsNotEnough()
    ensures Validates(StakeCentile(0.76), 0.75)
    ensures exists registry ::
              DistinctIds(registry) && TotalStake(registry) == 3 && !CommitteeSuffices(registry, 0.76, 0.75)
  {
    assert Cutoff(0.76, 3) == 2;
    assert Threshold(0.75, 3) == 3;
    ReachableIff(3, 0.76, 0.75);
  }
}
