/** Endorser-block elections as a value: one per announcing ranking block. */
module ElectionsModel {
  import opened Types
  import opened Ordered
  import opened Sums
  import opened Committee

  datatype Phase = EquivocationCheck | Voting | Diffusing | CertEligible

  datatype Pipeline = Pipeline(deltaHdr: nat, voteWindow: nat, diffuseWindow: nat)

  function PhaseFor(p: Pipeline, elapsed: nat): Phase {
    var equivocationEnd := 3 * p.deltaHdr;
    var votingEnd := equivocationEnd + p.voteWindow;
    var diffuseEnd := votingEnd + p.diffuseWindow;
    if elapsed < equivocationEnd then EquivocationCheck
    else if elapsed < votingEnd then Voting
    else if elapsed < diffuseEnd then Diffusing
    else CertEligible
  }

  /** A voter and the tag of its vote: 0 persistent, 1 non-persistent. */
  datatype VoterKey = VoterKey(id: NodeId, tag: nat)

  datatype Election = Election(
    ebHash: Hash, announcedSlot: nat, phase: Phase, seenSlot: nat, voted: bool,
    voterWeights: map<VoterKey, nat>, quorumReached: bool, bodyValidated: bool)

  datatype Config = Config(
    pipeline: Pipeline, selection: Selection,
    committee: map<NodeId, nat>, stakes: map<NodeId, nat>,
    expectedWeight: nat, quorumFraction: real)

  datatype Elections = Elections(cfg: Config, currentSlot: nat, elections: map<Hash, Election>)

  function EmptyElections(cfg: Config): Elections {
    Elections(cfg, 0, map[])
  }

  function Ceil(x: real): int {
    -((-x).Floor)
  }

  /** The weight a quorum needs: the fraction of the expected weight, rounded up. */
  function Threshold(fraction: real, weight: nat): nat {
    var c := Ceil(fraction * weight as real);
    if c < 0 then 0 else c
  }

  // ---------------------------------------------------------------------------
  // Operations
  // ---------------------------------------------------------------------------

  function PhaseAt(s: Elections, announcedSlot: nat): Phase {
    PhaseFor(s.cfg.pipeline, SaturatingSub(s.currentSlot, announcedSlot))
  }

  function AnnounceFromRb(s: Elections, rb: Hash, slot: nat, eb: Hash): Elections {
    if rb in s.elections then s
    else
      var election := Election(eb, slot, PhaseAt(s, slot), s.currentSlot, false, map[], false, false);
      s.(elections := s.elections[rb := election])
  }

  function Validated(e: Election, eb: Hash): Election {
    if e.ebHash == eb then e.(bodyValidated := true) else e
  }

  function MarkBodyValidated(s: Elections, eb: Hash): Elections {
    s.(elections := map rb | rb in s.elections :: Validated(s.elections[rb], eb))
  }

  function Refreshed(p: Pipeline, e: Election, slot: nat): Election {
    e.(phase := PhaseFor(p, SaturatingSub(slot, e.announcedSlot)))
  }

  function OnSlot(s: Elections, slot: nat): Elections {
    Elections(s.cfg, slot, map rb | rb in s.elections :: Refreshed(s.cfg.pipeline, s.elections[rb], slot))
  }

  predicate IsEligible(s: Elections, rb: Hash, slot: nat) {
    && rb in s.elections
    && PhaseFor(s.cfg.pipeline, SaturatingSub(slot, s.elections[rb].announcedSlot)) == Voting
    && !s.elections[rb].voted
  }

  function EligibleSet(s: Elections, slot: nat): set<Hash> {
    set rb | rb in s.elections && IsEligible(s, rb, slot)
  }

  /** The elections in which this node may vote at the slot, by announcing block. */
  function Eligible(s: Elections, slot: nat): (r: seq<Hash>)
    ensures StrictlyAscending(r)
    ensures forall rb :: rb in r <==> IsEligible(s, rb, slot)
  {
    Ascending(EligibleSet(s, slot))
  }

  function MarkVoted(s: Elections, rb: Hash): Elections {
    if rb in s.elections then s.(elections := s.elections[rb := s.elections[rb].(voted := true)]) else s
  }

  datatype QuorumFormed = QuorumFormed(ebSlot: nat, votedWeight: nat, voters: nat, expectedWeight: nat)

  ghost function RecordVote(s: Elections, rb: Hash, key: VoterKey, weight: nat): (Elections, Option<QuorumFormed>) {
    if rb !in s.elections || key in s.elections[rb].voterWeights then (s, None)
    else
      var e := s.elections[rb];
      var weights := e.voterWeights[key := weight];
      var formed := !e.quorumReached && Sum(weights) >= Threshold(s.cfg.quorumFraction, s.cfg.expectedWeight);
      (s.(elections := s.elections[rb := e.(voterWeights := weights, quorumReached := e.quorumReached || formed)]),
       if formed then Some(QuorumFormed(e.announcedSlot, Sum(weights), |weights|, s.cfg.expectedWeight)) else None)
  }

  /** The final tally of a pruned election. */
  datatype Expired = Expired(
    ebHash: Hash, ebSlot: nat, hadQuorum: bool, votedWeight: nat, voters: nat, expectedWeight: nat)

  ghost function Tally(cfg: Config, e: Election): Expired {
    Expired(e.ebHash, e.announcedSlot, e.quorumReached, Sum(e.voterWeights), |e.voterWeights|, cfg.expectedWeight)
  }

  ghost function Tallies(s: Elections, rbs: seq<Hash>): seq<Expired>
    requires forall rb :: rb in rbs ==> rb in s.elections
  {
    if rbs == [] then []
    else Tallies(s, rbs[..|rbs| - 1]) + [Tally(s.cfg, s.elections[rbs[|rbs| - 1]])]
  }

  function PruneBelowSlot(s: Elections, min: nat): Elections {
    s.(elections := map rb | rb in s.elections && s.elections[rb].announcedSlot >= min :: s.elections[rb])
  }

  function CertifiableSlot(s: Elections, rb: Hash): Option<nat> {
    if rb in s.elections && s.elections[rb].quorumReached && s.elections[rb].phase == CertEligible
    then Some(s.elections[rb].announcedSlot)
    else None
  }

  function SeatsOf(cfg: Config, id: NodeId): nat {
    if id in cfg.committee then cfg.committee[id] else 0
  }

  function StakeAt(cfg: Config, id: NodeId): nat {
    if id in cfg.stakes then cfg.stakes[id] else 0
  }

  /** `npvWins` is what the lottery gives for the signature attached to the vote, if there is one. */
  function WeightFor(cfg: Config, key: VoterKey, npvWins: Option<nat>): nat {
    if key.tag == 0 then
      if cfg.selection.StakeCentile? then
        if key.id in cfg.committee then StakeAt(cfg, key.id) else 0
      else SeatsOf(cfg, key.id)
    else if key.tag == 1 && npvWins.Some? && cfg.selection.WfaLs? then
      if key.id in cfg.committee then 0 else npvWins.value
    else 0
  }

  // ---------------------------------------------------------------------------
  // Steps and runs
  // ---------------------------------------------------------------------------

  datatype Op =
    | Announce(rb: Hash, slot: nat, eb: Hash)
    | BodyValidated(eb: Hash)
    | Tick(slot: nat)
    | Voted(rb: Hash)
    | Record(rb: Hash, key: VoterKey, weight: nat)
    | Prune(min: nat)

  ghost function Step(s: Elections, op: Op): Elections {
    match op
    case Announce(rb, slot, eb) => AnnounceFromRb(s, rb, slot, eb)
    case BodyValidated(eb) => MarkBodyValidated(s, eb)
    case Tick(slot) => OnSlot(s, slot)
    case Voted(rb) => MarkVoted(s, rb)
    case Record(rb, key, weight) => RecordVote(s, rb, key, weight).0
    case Prune(min) => PruneBelowSlot(s, min)
  }

  ghost function Run(s: Elections, ops: seq<Op>): Elections
    decreases |ops|
  {
    if ops == [] then s else Run(Step(s, ops[0]), ops[1..])
  }

  // ---------------------------------------------------------------------------
  // Invariant
  // ---------------------------------------------------------------------------

  ghost predicate HasQuorum(cfg: Config, weights: map<VoterKey, nat>) {
    weights != map[] && Sum(weights) >= Threshold(cfg.quorumFraction, cfg.expectedWeight)
  }

  ghost predicate Sound(s: Elections, e: Election) {
    && e.phase == PhaseAt(s, e.announcedSlot)
    && (e.quorumReached <==> HasQuorum(s.cfg, e.voterWeights))
  }

  /** Phases are those of the current slot, and quorum is exact. */
  ghost predicate Inv(s: Elections) {
    forall rb :: rb in s.elections ==> Sound(s, s.elections[rb])
  }

  lemma RecordKeepsInv(s: Elections, rb: Hash, key: VoterKey, weight: nat)
    requires Inv(s)
    ensures Inv(RecordVote(s, rb, key, weight).0)
  {
    if rb in s.elections && key !in s.elections[rb].voterWeights {
      SumAdd(s.elections[rb].voterWeights, key, weight);
    }
  }

  lemma StepKeepsInv(s: Elections, op: Op)
    requires Inv(s)
    ensures Inv(Step(s, op)) && Step(s, op).cfg == s.cfg
  {
    if op.Record? {
      RecordKeepsInv(s, op.rb, op.key, op.weight);
    }
  }

  lemma {:induction false} RunKeepsInv(s: Elections, ops: seq<Op>)
    requires Inv(s)
    ensures Inv(Run(s, ops)) && Run(s, ops).cfg == s.cfg
    decreases |ops|
  {
    if ops != [] {
      StepKeepsInv(s, ops[0]);
      RunKeepsInv(Step(s, ops[0]), ops[1..]);
    }
  }
}
