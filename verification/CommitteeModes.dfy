/** The three committee modes and the quorum denominator that goes with each. */
module CommitteeModes {
  import opened Types
  import opened Sums
  import opened Committee
  import opened StakeCentile

  /** The total vote weight the network expects, in the units of the mode. */
  ghost function ExpectedTotalWeight(selection: Selection, committee: map<NodeId, nat>, totalStake: nat): nat {
    match selection
    case WfaLs(_, nonPersistentVoters) => Sum(committee) + nonPersistentVoters
    case EveryoneVotes => Sum(committee)
    case StakeCentile(_) => totalStake
  }

  /** What each mode stands for: all seats asked for, all registered nodes, or all stake. */
  ghost function FullWeight(selection: Selection, registry: seq<StakeEntry>): nat {
    match selection
    case WfaLs(pv, npv) => (if TotalStake(registry) == 0 then 0 else pv) + npv
    case EveryoneVotes => |Elements(Ids(registry))|
    case StakeCentile(_) => TotalStake(registry)
  }

  /** Who is seated: the winners of the draws, everyone once, or the top of the ranking once. */
  ghost predicate Seated(
    selection: Selection, registry: seq<StakeEntry>, draws: seq<nat>, committee: map<NodeId, nat>)
    requires DrawsFit(selection, registry, draws)
  {
    match selection
    case WfaLs(_, _) =>
      if TotalStake(registry) == 0 then committee == map[]
      else forall id :: SeatCount(committee, id) == SeatsWon(registry, draws, id)
    case EveryoneVotes => committee == SeatEach(registry)
    case StakeCentile(centile) => committee == SeatEach(Members(registry, centile))
  }

  /** One draw below the total stake for every persistent seat. */
  ghost predicate DrawsFit(selection: Selection, registry: seq<StakeEntry>, draws: seq<nat>) {
    selection.WfaLs? ==>
      && |draws| == selection.persistentVoters
      && (TotalStake(registry) > 0 ==> forall k :: 0 <= k < |draws| ==> draws[k] < TotalStake(registry))
  }

  /** Whatever the mode, the right nodes are seated and the denominator is what the mode stands for. */
  method BuildCommittee(selection: Selection, registry: seq<StakeEntry>, draws: seq<nat>)
    returns (committee: map<NodeId, nat>)
    requires DrawsFit(selection, registry, draws)
    ensures Seated(selection, registry, draws, committee)
    ensures ExpectedTotalWeight(selection, committee, TotalStake(registry)) == FullWeight(selection, registry)
  {
    match selection
    case WfaLs(pv, npv) =>
      committee := AllocatePersistentSeats(registry, pv, draws);
    case EveryoneVotes =>
      committee := map[];
      for i := 0 to |registry|
        invariant committee == SeatEach(registry[..i])
      {
        assert registry[..i + 1][..i] == registry[..i];
        committee := committee[registry[i].nodeId := 1];
      }
      assert registry[..|registry|] == registry;
      OneSeatEach(registry);
      SumOfOnes(committee);
    case StakeCentile(centile) =>
      committee := TopCentileCommittee(registry, centile);
  }
}
