/** The voting half of the Leios state machine as a value. */
module VotingModel {
  import opened Types
  import E = ElectionsModel

  datatype NoVoteReason =
    | LateEB | LateRBHeader | WrongEB | NoChainTip
    | MissingTX(required: nat, presentPinned: nat, presentUnpinned: nat)
    | EBValidating | EquivocatingRB | Declined

  datatype VotePolicy = Honest | Abstain(reason: NoVoteReason)

  datatype TxAvailability = Absent | Present(pinned: bool)

  /** What the adopted chain tip says, as the I/O layer reports it. */
  datatype TipContext = TipContext(
    equivocatingSlots: set<nat>, headerArrival: Option<nat>, ebAnnouncement: Option<Hash>,
    rbHash: Option<Hash>, rbSlot: Option<nat>)

  datatype VotingConfig = VotingConfig(
    persistentSeats: nat, nonPersistentVoters: nat, retryInWindow: bool, evaluateVotes: bool)

  datatype Voting = Voting(
    elections: E.Elections, cfg: VotingConfig, pipeline: E.Pipeline,
    manifests: map<Hash, (nat, seq<TxId>)>, validatedBodies: map<Hash, nat>,
    endorsedUnvalidated: map<Hash, nat>, tip: TipContext, policy: VotePolicy)

  datatype Effect =
    | EmitVote(ebSlot: nat, ebHash: Hash, rb: Hash, persistent: bool, nonPersistent: bool)
    | NoVote(ebSlot: nat, ebHash: Hash, reason: NoVoteReason)

  datatype Decision = Cast(persistent: bool, nonPersistent: bool) | Refuse(reason: NoVoteReason)

  /** Which transactions are at hand, and how often the non-persistent lottery hits for an EB. */
  datatype Surroundings = Surroundings(txKnown: TxId -> TxAvailability, npvWins: (Hash, nat) -> nat)

  // ---------------------------------------------------------------------------
  // Deciding one vote
  // ---------------------------------------------------------------------------

  function CountPresent(txs: seq<TxId>, known: TxId -> TxAvailability, pinned: bool): nat {
    if txs == [] then 0
    else
      CountPresent(txs[..|txs| - 1], known, pinned)
      + if known(txs[|txs| - 1]) == Present(pinned) then 1 else 0
  }

  predicate AllPresent(txs: seq<TxId>, known: TxId -> TxAvailability) {
    forall i :: 0 <= i < |txs| ==> known(txs[i]) != Absent
  }

  function Decide(v: Voting, rb: Hash, around: Surroundings): Decision
    requires rb in v.elections.elections
  {
    var e := v.elections.elections[rb];
    if SaturatingSub(e.seenSlot, e.announcedSlot) >= 3 * v.pipeline.deltaHdr + v.pipeline.voteWindow then
      Refuse(LateEB)
    else if v.tip.headerArrival.None? then Refuse(NoChainTip)
    else if v.tip.rbHash != Some(rb) then Refuse(WrongEB)
    else if v.tip.headerArrival.value >= e.announcedSlot + v.pipeline.deltaHdr then Refuse(LateRBHeader)
    else if e.announcedSlot in v.tip.equivocatingSlots then Refuse(EquivocatingRB)
    else if e.ebHash in v.manifests && !AllPresent(v.manifests[e.ebHash].1, around.txKnown) then
      var txs := v.manifests[e.ebHash].1;
      Refuse(MissingTX(|txs|, CountPresent(txs, around.txKnown, true), CountPresent(txs, around.txKnown, false)))
    else if !e.bodyValidated then Refuse(EBValidating)
    else
      var persistent := v.cfg.persistentSeats > 0;
      Cast(persistent,
           !persistent && v.cfg.nonPersistentVoters > 0 && around.npvWins(e.ebHash, e.announcedSlot) > 0)
  }

  function Resolve(v: Voting, rb: Hash, around: Surroundings): Decision
    requires rb in v.elections.elections
  {
    match v.policy
    case Honest => Decide(v, rb, around)
    case Abstain(reason) => Refuse(reason)
  }

  // ---------------------------------------------------------------------------
  // A slot
  // ---------------------------------------------------------------------------

  function Done(v: Voting, rb: Hash): Voting {
    v.(elections := E.MarkVoted(v.elections, rb))
  }

  /** One eligible election: vote, or say why not, and mark it done unless it may be retried. */
  function VoteOn(v: Voting, rb: Hash, around: Surroundings): (r: (Voting, seq<Effect>))
    requires rb in v.elections.elections
    ensures r.0.elections.elections.Keys == v.elections.elections.Keys
  {
    var e := v.elections.elections[rb];
    if !v.cfg.evaluateVotes then (Done(v, rb), [])
    else
      match Resolve(v, rb, around)
      case Cast(persistent, nonPersistent) =>
        if persistent || nonPersistent then
          (Done(v, rb), [EmitVote(e.announcedSlot, e.ebHash, rb, persistent, nonPersistent)])
        else (if v.cfg.retryInWindow then v else Done(v, rb), [])
      case Refuse(reason) =>
        (if reason == LateEB || !v.cfg.retryInWindow then Done(v, rb) else v,
         [NoVote(e.announcedSlot, e.ebHash, reason)])
  }

  function VoteOnEach(v: Voting, rbs: seq<Hash>, around: Surroundings): (r: (Voting, seq<Effect>))
    requires forall i :: 0 <= i < |rbs| ==> rbs[i] in v.elections.elections
    ensures r.0.elections.elections.Keys == v.elections.elections.Keys
    decreases |rbs|
  {
    if rbs == [] then (v, [])
    else
      var n := |rbs| - 1;
      var (w, fx) := VoteOnEach(v, rbs[..n], around);
      var (u, more) := VoteOn(w, rbs[n], around);
      (u, fx + more)
  }

  /** Voting changes nothing but the voted marks. */
  ghost predicate SameButVoted(v: Voting, w: Voting) {
    && w == v.(elections := w.elections)
    && w.elections == v.elections.(elections := w.elections.elections)
    && w.elections.elections.Keys == v.elections.elections.Keys
    && forall rb :: rb in v.elections.elections ==>
         var e, f := v.elections.elections[rb], w.elections.elections[rb];
         f == e.(voted := f.voted) && (e.voted ==> f.voted)
  }

  lemma {:induction false} VoteOnEachKeeps(v: Voting, rbs: seq<Hash>, around: Surroundings)
    requires forall i :: 0 <= i < |rbs| ==> rbs[i] in v.elections.elections
    ensures SameButVoted(v, VoteOnEach(v, rbs, around).0)
    decreases |rbs|
  {
    if rbs != [] {
      var n := |rbs| - 1;
      VoteOnEachKeeps(v, rbs[..n], around);
      VoteOnKeeps(VoteOnEach(v, rbs[..n], around).0, rbs[n], around);
    }
  }

  lemma VoteOnKeeps(v: Voting, rb: Hash, around: Surroundings)
    requires rb in v.elections.elections
    ensures SameButVoted(v, VoteOn(v, rb, around).0)
  {
    DoneKeeps(v, rb);
    assert VoteOn(v, rb, around).0 in {v, Done(v, rb)};
  }

  lemma DoneKeeps(v: Voting, rb: Hash)
    ensures SameButVoted(v, Done(v, rb)) && SameButVoted(v, v)
  {
  }

  function FromSlot<T>(m: map<Hash, (nat, T)>, min: nat): map<Hash, (nat, T)> {
    map h | h in m && m[h].0 >= min :: m[h]
  }

  function SlotsFrom(m: map<Hash, nat>, min: nat): map<Hash, nat> {
    map h | h in m && m[h] >= min :: m[h]
  }

  function PruneChainProgress(v: Voting, min: nat): Voting {
    v.(manifests := FromSlot(v.manifests, min),
       endorsedUnvalidated := SlotsFrom(v.endorsedUnvalidated, min),
       validatedBodies := SlotsFrom(v.validatedBodies, min),
       elections := E.PruneBelowSlot(v.elections, min))
  }

  function Ticked(v: Voting, slot: nat): Voting {
    v.(elections := E.OnSlot(v.elections, slot))
  }

  /** The voting part of a slot, before the prune. */
  function VoteAt(v: Voting, slot: nat, around: Surroundings): (Voting, seq<Effect>) {
    var rbs := E.Eligible(v.elections, slot);
    assert forall i :: 0 <= i < |rbs| ==> rbs[i] in rbs;
    VoteOnEach(Ticked(v, slot), rbs, around)
  }

  function OnSlot(v: Voting, slot: nat, around: Surroundings): (Voting, seq<Effect>) {
    var (w, fx) := VoteAt(v, slot, around);
    (match w.tip.rbSlot case Some(min) => PruneChainProgress(w, min) case None => w, fx)
  }

  // ---------------------------------------------------------------------------
  // Other events
  // ---------------------------------------------------------------------------

  function SetChainTip(v: Voting, tip: TipContext): Voting {
    var elections :=
      if tip.rbHash.Some? && tip.rbSlot.Some? && tip.ebAnnouncement.Some? then
        var eb := tip.ebAnnouncement.value;
        var announced := E.AnnounceFromRb(v.elections, tip.rbHash.value, tip.rbSlot.value, eb);
        if eb in v.validatedBodies then E.MarkBodyValidated(announced, eb) else announced
      else v.elections;
    v.(elections := elections, tip := tip)
  }

  function OnValidatedEb(v: Voting, point: Point): Voting {
    match point
    case Origin => v
    case Specific(slot, hash) =>
      v.(validatedBodies := v.validatedBodies[hash := slot],
         elections := E.MarkBodyValidated(v.elections, hash),
         endorsedUnvalidated := v.endorsedUnvalidated - {hash})
  }

  function OnEbReceived(v: Voting, point: Point, manifest: Option<seq<TxId>>): Voting {
    if point.Specific? && manifest.Some?
    then v.(manifests := v.manifests[point.hash := (point.slot, manifest.value)])
    else v
  }

  predicate EbBodyValidated(s: E.Elections, eb: Hash) {
    exists rb :: rb in s.elections && s.elections[rb].ebHash == eb && s.elections[rb].bodyValidated
  }

  function OnChainEndorsement(v: Voting, slot: nat, eb: Hash): Voting {
    if EbBodyValidated(v.elections, eb) || eb in v.endorsedUnvalidated then v
    else v.(endorsedUnvalidated := v.endorsedUnvalidated[eb := slot])
  }

  datatype Ballot = Ballot(rb: Hash, key: E.VoterKey, npvWins: Option<nat>)

  /** Votes without weight are skipped, the others recorded against their election. */
  ghost function OnValidatedVotes(s: E.Elections, ballots: seq<Ballot>): (E.Elections, seq<E.QuorumFormed>) {
    if ballots == [] then (s, [])
    else
      var n := |ballots| - 1;
      var (t, formed) := OnValidatedVotes(s, ballots[..n]);
      var b := ballots[n];
      var weight := E.WeightFor(t.cfg, b.key, b.npvWins);
      if weight == 0 then (t, formed)
      else
        var (u, f) := E.RecordVote(t, b.rb, b.key, weight);
        (u, if f.Some? then formed + [f.value] else formed)
  }

  // ---------------------------------------------------------------------------
  // Steps and runs
  // ---------------------------------------------------------------------------

  datatype Op =
    | TipChanged(tip: TipContext)
    | Slot(slot: nat, around: Surroundings)
    | ValidatedEb(point: Point)
    | EbReceived(point: Point, manifest: Option<seq<TxId>>)
    | Votes(ballots: seq<Ballot>)
    | Endorsement(slot: nat, eb: Hash)
    | Control(policy: VotePolicy)

  ghost function Step(v: Voting, op: Op): Voting {
    match op
    case TipChanged(tip) => SetChainTip(v, tip)
    case Slot(slot, around) => OnSlot(v, slot, around).0
    case ValidatedEb(point) => OnValidatedEb(v, point)
    case EbReceived(point, manifest) => OnEbReceived(v, point, manifest)
    case Votes(ballots) => v.(elections := OnValidatedVotes(v.elections, ballots).0)
    case Endorsement(slot, eb) => OnChainEndorsement(v, slot, eb)
    case Control(policy) => v.(policy := policy)
  }

  ghost function Run(v: Voting, ops: seq<Op>): Voting
    decreases |ops|
  {
    if ops == [] then v else Run(Step(v, ops[0]), ops[1..])
  }

  /** The announcing blocks voted for, in order. */
  function VotesIn(fx: seq<Effect>): seq<Hash> {
    if fx == [] then []
    else VotesIn(fx[..|fx| - 1]) + if fx[|fx| - 1].EmitVote? then [fx[|fx| - 1].rb] else []
  }

  ghost function VotesBy(v: Voting, op: Op): seq<Hash> {
    if op.Slot? then VotesIn(OnSlot(v, op.slot, op.around).1) else []
  }
}
