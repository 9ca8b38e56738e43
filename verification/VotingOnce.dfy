/** How often one announcing block is voted for in a run. */
module VotingOnce {
  import opened Types
  import opened VotingModel
  import opened VotingRuns
  import opened Committee
  import E = ElectionsModel

  ghost function VotesAlong(v: Voting, ops: seq<Op>): seq<Hash>
    decreases |ops|
  {
    if ops == [] then [] else VotesBy(v, ops[0]) + VotesAlong(Step(v, ops[0]), ops[1..])
  }

  /** The block has an election in which this node has not voted. */
  ghost predicate Open(v: Voting, rb: Hash) {
    rb in v.elections.elections && !v.elections.elections[rb].voted
  }

  /** The step adopts a tip whose election does not exist yet, or not any more. */
  ghost predicate Creates(v: Voting, op: Op, rb: Hash) {
    && op.TipChanged? && op.tip.rbHash == Some(rb) && op.tip.rbSlot.Some? && op.tip.ebAnnouncement.Some?
    && rb !in v.elections.elections
  }

  /** A vote closes the election it is cast in, and only creation opens one. */
  lemma StepOpens(v: Voting, op: Op, rb: Hash)
    ensures |VotesBy(v, op)| <= 1
    ensures rb in VotesBy(v, op) ==> Open(v, rb) && !Open(Step(v, op), rb)
    ensures Open(Step(v, op), rb) ==> Open(v, rb) || Creates(v, op, rb)
    ensures Creates(v, op, rb) ==> Open(Step(v, op), rb)
  {
    match op
    case Slot(slot, around) => SlotCloses(v, slot, around, rb);
    case Votes(ballots) => BallotsKeepMarks(v.elections, ballots);
    case _ =>
  }

  lemma SlotCloses(v: Voting, slot: nat, around: Surroundings, rb: Hash)
    ensures |VotesBy(v, Slot(slot, around))| <= 1
    ensures rb in VotesBy(v, Slot(slot, around)) ==> Open(v, rb) && !Open(OnSlot(v, slot, around).0, rb)
    ensures Open(OnSlot(v, slot, around).0, rb) ==> Open(v, rb)
  {
    hide Casts, VoteAt;
    SlotVotesIff(v, slot, around);
    SlotKeepsMarks(v, slot, around);
    if rb in VotesBy(v, Slot(slot, around)) {
      VoteAtMarks(v, slot, around, rb);
      var u := VoteAt(v, slot, around).0;
      if u.tip.rbSlot.Some? {
        PruneKeepsMarks(u, u.tip.rbSlot.value);
      }
    }
  }

  // ---------------------------------------------------------------------------
  // Every run
  // ---------------------------------------------------------------------------

  ghost function Creations(v: Voting, ops: seq<Op>, rb: Hash): nat
    decreases |ops|
  {
    if ops == [] then 0
    else (if Creates(v, ops[0], rb) then 1 else 0) + Creations(Step(v, ops[0]), ops[1..], rb)
  }

  ghost function Openings(v: Voting, rb: Hash): nat {
    if Open(v, rb) then 1 else 0
  }

  /** In every run, each vote for a block uses up an election of it: one open at the start or one
      created on the way. */
  lemma {:induction false} VotesUseUpElections(v: Voting, ops: seq<Op>, rb: Hash)
    ensures multiset(VotesAlong(v, ops))[rb] + Openings(Run(v, ops), rb) <= Openings(v, rb) + Creations(v, ops, rb)
    decreases |ops|
  {
    hide Open, Creates, VotesBy, Step;
    if ops != [] {
      StepOpens(v, ops[0], rb);
      AtMostOnce(VotesBy(v, ops[0]), rb);
      VotesUseUpElections(Step(v, ops[0]), ops[1..], rb);
    }
  }

  lemma AtMostOnce(s: seq<Hash>, x: Hash)
    requires |s| <= 1
    ensures multiset(s)[x] == if x in s then 1 else 0
  {
    if s != [] {
      assert s == [s[0]];
    }
  }

  // ---------------------------------------------------------------------------
  // The step that lets a block be voted for again
  // ---------------------------------------------------------------------------

  /** None of the blocks voted for so far is open for another vote. */
  ghost predicate Guarded(v: Voting, past: set<Hash>) {
    forall rb :: rb in past ==> !Open(v, rb)
  }

  /** The step adopts a block voted for before whose election, and with it the mark, is gone. */
  ghost predicate Reopens(v: Voting, op: Op, past: set<Hash>) {
    op.TipChanged? && op.tip.rbHash.Some? && op.tip.rbHash.value in past && Creates(v, op, op.tip.rbHash.value)
  }

  ghost function PastAfter(v: Voting, op: Op, past: set<Hash>): set<Hash> {
    past + Elements(VotesBy(v, op))
  }

  lemma StepGuardsIff(v: Voting, op: Op, past: set<Hash>)
    requires Guarded(v, past)
    ensures Guarded(Step(v, op), PastAfter(v, op, past)) <==> !Reopens(v, op, past)
    ensures forall rb :: rb in VotesBy(v, op) ==> rb !in past
  {
    hide Open, VotesBy, Step;
    forall rb
      ensures rb in VotesBy(v, op) ==> Open(v, rb) && !Open(Step(v, op), rb)
      ensures Open(Step(v, op), rb) ==> Open(v, rb) || Creates(v, op, rb)
      ensures Creates(v, op, rb) ==> Open(Step(v, op), rb)
    {
      StepOpens(v, op, rb);
    }
  }

  ghost predicate AlwaysGuarded(v: Voting, ops: seq<Op>, past: set<Hash>)
    decreases |ops|
  {
    Guarded(v, past) && (ops == [] || AlwaysGuarded(Step(v, ops[0]), ops[1..], PastAfter(v, ops[0], past)))
  }

  ghost predicate NeverReopens(v: Voting, ops: seq<Op>, past: set<Hash>)
    decreases |ops|
  {
    ops == [] || (!Reopens(v, ops[0], past) && NeverReopens(Step(v, ops[0]), ops[1..], PastAfter(v, ops[0], past)))
  }

  /** A run always bars a second vote exactly when no step of it adopts again a block that was voted
      for and pruned; then no block is voted for twice. */
  lemma {:induction false} BarredIffNeverReopened(v: Voting, ops: seq<Op>, past: set<Hash>)
    requires Guarded(v, past)
    ensures AlwaysGuarded(v, ops, past) <==> NeverReopens(v, ops, past)
    ensures NeverReopens(v, ops, past) ==>
              Distinct(VotesAlong(v, ops)) && forall rb :: rb in VotesAlong(v, ops) ==> rb !in past
    decreases |ops|
  {
    hide Guarded, Reopens, VotesBy, Step;
    if ops != [] {
      StepGuardsIff(v, ops[0], past);
      if !Reopens(v, ops[0], past) {
        var next := PastAfter(v, ops[0], past);
        BarredIffNeverReopened(Step(v, ops[0]), ops[1..], next);
        if NeverReopens(v, ops, past) {
          StepOpens(v, ops[0], 0);
          assert forall rb :: rb in VotesBy(v, ops[0]) ==> rb in next;
          DistinctConcat(VotesBy(v, ops[0]), VotesAlong(Step(v, ops[0]), ops[1..]));
        }
      } else {
        UnguardedNext(v, ops, past);
      }
    }
  }

  lemma UnguardedNext(v: Voting, ops: seq<Op>, past: set<Hash>)
    requires ops != [] && !Guarded(Step(v, ops[0]), PastAfter(v, ops[0], past))
    ensures !AlwaysGuarded(v, ops, past)
  {
  }

  lemma DistinctConcat(a: seq<Hash>, b: seq<Hash>)
    requires |a| <= 1 && Distinct(b) && forall x :: x in a ==> x !in b
    ensures Distinct(a + b)
  {
    forall i, j | 0 <= i < j < |a + b|
      ensures (a + b)[i] != (a + b)[j]
    {
      if i < |a| {
        assert a[i] in a && (a + b)[j] in b;
      }
    }
  }

  /** What a block just adopted, and its body just validated, needs for a vote at `slot`. */
  ghost predicate VotesWhenCreated(v: Voting, tip: TipContext, slot: nat, around: Surroundings)
    requires tip.rbSlot.Some? && tip.ebAnnouncement.Some?
  {
    var eb, announced := tip.ebAnnouncement.value, tip.rbSlot.value;
    && E.PhaseFor(v.elections.cfg.pipeline, SaturatingSub(slot, announced)) == E.Voting
    && SaturatingSub(v.elections.currentSlot, announced) < 3 * v.pipeline.deltaHdr + v.pipeline.voteWindow
    && tip.headerArrival.Some? && tip.headerArrival.value < announced + v.pipeline.deltaHdr
    && announced !in tip.equivocatingSlots
    && (eb in v.manifests ==> AllPresent(v.manifests[eb].1, around.txKnown))
    && v.cfg.evaluateVotes && v.policy.Honest?
    && (v.cfg.persistentSeats > 0 || (v.cfg.nonPersistentVoters > 0 && around.npvWins(eb, announced) > 0))
  }

  function AdoptAndVote(tip: TipContext, at: nat, slot: nat, around: Surroundings): seq<Op>
    requires tip.ebAnnouncement.Some?
  {
    [TipChanged(tip), ValidatedEb(Specific(at, tip.ebAnnouncement.value)), Slot(slot, around)]
  }

  /** A created election is voted in exactly on conditions that do not ask whether its block was
      voted for before. */
  lemma CreatedElectionVotesIff(v: Voting, tip: TipContext, rb: Hash, at: nat, slot: nat, around: Surroundings)
    requires Creates(v, TipChanged(tip), rb)
    ensures VotesAlong(v, AdoptAndVote(tip, at, slot, around)) ==
            if VotesWhenCreated(v, tip, slot, around) then [rb] else []
  {
    hide SetChainTip, OnValidatedEb, OnSlot, VotesWhenCreated;
    var ops := AdoptAndVote(tip, at, slot, around);
    AdoptedVotesIff(v, tip, rb, at, slot, around);
    ThreeSteps(v, ops[0], ops[1], ops[2]);
  }

  lemma AdoptedVotesIff(v: Voting, tip: TipContext, rb: Hash, at: nat, slot: nat, around: Surroundings)
    requires Creates(v, TipChanged(tip), rb)
    ensures var w := OnValidatedEb(SetChainTip(v, tip), Specific(at, tip.ebAnnouncement.value));
            VotesIn(OnSlot(w, slot, around).1) == if VotesWhenCreated(v, tip, slot, around) then [rb] else []
  {
    hide OnSlot, AllPresent;
    var eb := tip.ebAnnouncement.value;
    var w := OnValidatedEb(SetChainTip(v, tip), Specific(at, eb));
    SlotVotesIff(w, slot, around);
    var e := w.elections.elections[rb];
    assert e.bodyValidated && !e.voted && e.ebHash == eb && e.announcedSlot == tip.rbSlot.value;
    assert e.seenSlot == v.elections.currentSlot;
  }

  lemma ThreeSteps(v: Voting, a: Op, b: Op, c: Op)
    ensures VotesAlong(v, [a, b, c]) == VotesBy(v, a) + VotesBy(Step(v, a), b) + VotesBy(Step(Step(v, a), b), c)
    ensures Run(v, [a, b, c]) == Step(Step(Step(v, a), b), c)
  {
    hide VotesBy, Step;
    assert [a, b, c][1..] == [b, c] && [b, c][1..] == [c] && [c][1..] == [];
    var u := Step(Step(v, a), b);
    assert VotesAlong(u, [c]) == VotesBy(u, c) + VotesAlong(Step(u, c), []);
    assert Run(u, [c]) == Run(Step(u, c), []);
    assert VotesAlong(Step(v, a), [b, c]) == VotesBy(Step(v, a), b) + VotesAlong(u, [c]);
  }

  lemma {:induction false} VotesAlongConcat(v: Voting, a: seq<Op>, b: seq<Op>)
    ensures VotesAlong(v, a + b) == VotesAlong(v, a) + VotesAlong(Run(v, a), b)
    decreases |a|
  {
    hide VotesBy, Step;
    if a == [] {
      assert a + b == b;
    } else {
      assert (a + b)[1..] == a[1..] + b;
      VotesAlongConcat(Step(v, a[0]), a[1..], b);
    }
  }

  // ---------------------------------------------------------------------------
  // A block voted for twice
  // ---------------------------------------------------------------------------

  const WINDOWS := E.Pipeline(1, 10, 1)

  /** A node with a persistent seat that has seen nothing yet. */
  const START := Voting(
    E.EmptyElections(E.Config(WINDOWS, EveryoneVotes, map[], map[], 1, 1.0)),
    VotingConfig(1, 0, true, true), WINDOWS, map[], map[], map[],
    TipContext({}, None, None, None, None), Honest)

  const NOTHING_KNOWN := Surroundings((_: TxId) => Absent, (_: Hash, _: nat) => 0)

  const BLOCK_A := TipContext({}, Some(5), Some(100), Some(1), Some(5))

  /** A later block that announces no EB. */
  const BLOCK_B := TipContext({}, Some(7), None, Some(2), Some(7))

  const SWITCH_AWAY: seq<Op> := [TipChanged(BLOCK_B), Slot(9, NOTHING_KNOWN)]

  const THERE_AND_BACK: seq<Op> :=
    AdoptAndVote(BLOCK_A, 5, 8, NOTHING_KNOWN) + (SWITCH_AWAY + AdoptAndVote(BLOCK_A, 5, 10, NOTHING_KNOWN))

  /** Adopting a block, another one two slots later, and the first again votes for it twice: the
      switch prunes the election that held the mark. */
  lemma BlockVotedTwice()
    ensures VotesAlong(START, THERE_AND_BACK) == [1, 1]
  {
    hide VotesAlong, Run, Step;
    var first, second := AdoptAndVote(BLOCK_A, 5, 8, NOTHING_KNOWN), AdoptAndVote(BLOCK_A, 5, 10, NOTHING_KNOWN);
    CreatedElectionVotesIff(START, BLOCK_A, 1, 5, 8, NOTHING_KNOWN);
    var v := Run(START, first);
    AwayPrunes();
    var w := Run(v, SWITCH_AWAY);
    CreatedElectionVotesIff(w, BLOCK_A, 1, 5, 10, NOTHING_KNOWN);
    VotesAlongConcat(START, first, SWITCH_AWAY + second);
    VotesAlongConcat(v, SWITCH_AWAY, second);
  }

  /** What a slot leaves alone, and what is left of the elections. */
  lemma SlotFrame(v: Voting, slot: nat, around: Surroundings)
    ensures var w := OnSlot(v, slot, around).0;
            && w.cfg == v.cfg && w.pipeline == v.pipeline && w.policy == v.policy && w.tip == v.tip
            && w.elections.cfg == v.elections.cfg && w.elections.currentSlot == slot
            && w.manifests.Keys <= v.manifests.Keys
            && forall rb :: rb in w.elections.elections && v.tip.rbSlot.Some? ==>
                 w.elections.elections[rb].announcedSlot >= v.tip.rbSlot.value
  {
    hide VoteOnEach;
    var rbs := E.Eligible(v.elections, slot);
    assert forall i :: 0 <= i < |rbs| ==> rbs[i] in rbs;
    VoteOnEachKeeps(Ticked(v, slot), rbs, around);
  }

  lemma AwayPrunes()
    ensures var v := Run(START, AdoptAndVote(BLOCK_A, 5, 8, NOTHING_KNOWN));
            var w := Run(v, SWITCH_AWAY);
            && VotesAlong(v, SWITCH_AWAY) == []
            && 1 !in w.elections.elections && VotesWhenCreated(w, BLOCK_A, 10, NOTHING_KNOWN)
  {
    hide OnSlot;
    var adopted := OnValidatedEb(SetChainTip(START, BLOCK_A), Specific(5, 100));
    var v := OnSlot(adopted, 8, NOTHING_KNOWN).0;
    ThreeSteps(START, TipChanged(BLOCK_A), ValidatedEb(Specific(5, 100)), Slot(8, NOTHING_KNOWN));
    SlotFrame(adopted, 8, NOTHING_KNOWN);
    SlotKeepsMarks(adopted, 8, NOTHING_KNOWN);
    var away := SetChainTip(v, BLOCK_B);
    TwoSteps(v, TipChanged(BLOCK_B), Slot(9, NOTHING_KNOWN));
    SlotFrame(away, 9, NOTHING_KNOWN);
    SlotKeepsMarks(away, 9, NOTHING_KNOWN);
    SlotVotesIff(away, 9, NOTHING_KNOWN);
  }

  lemma TwoSteps(v: Voting, a: Op, b: Op)
    ensures VotesAlong(v, [a, b]) == VotesBy(v, a) + VotesBy(Step(v, a), b)
    ensures Run(v, [a, b]) == Step(Step(v, a), b)
  {
    hide VotesBy, Step;
    assert [a, b][1..] == [b] && [b][1..] == [];
    var u := Step(v, a);
    assert VotesAlong(u, [b]) == VotesBy(u, b) + VotesAlong(Step(u, b), []);
    assert Run(u, [b]) == Run(Step(u, b), []);
  }

  // ---------------------------------------------------------------------------
  // Tips that do not go back
  // ---------------------------------------------------------------------------

  /** Adopted tips never go back in slots, and a block's hash fixes its slot. */
  ghost predicate TipsAdvance(ops: seq<Op>, high: nat, slotOf: Hash -> nat)
    decreases |ops|
  {
    if ops == [] then true
    else if ops[0].TipChanged? && ops[0].tip.rbSlot.Some? then
      var slot := ops[0].tip.rbSlot.value;
      && high <= slot && (ops[0].tip.rbHash.Some? ==> slotOf(ops[0].tip.rbHash.value) == slot)
      && TipsAdvance(ops[1..], slot, slotOf)
    else TipsAdvance(ops[1..], high, slotOf)
  }

  ghost function HighAfter(op: Op, high: nat): nat {
    if op.TipChanged? && op.tip.rbSlot.Some? then op.tip.rbSlot.value else high
  }

  ghost predicate Dated(v: Voting, high: nat, slotOf: Hash -> nat) {
    && (v.tip.rbSlot.Some? ==> v.tip.rbSlot.value <= high)
    && forall rb :: rb in v.elections.elections ==> v.elections.elections[rb].announcedSlot == slotOf(rb)
  }

  /** Every block of `past` still has its election, or is behind the tips for good. */
  ghost predicate Kept(v: Voting, past: set<Hash>, high: nat, slotOf: Hash -> nat) {
    forall rb :: rb in past ==> rb in v.elections.elections || slotOf(rb) < high
  }

  lemma TipsAdvanceSplits(ops: seq<Op>, high: nat, slotOf: Hash -> nat)
    requires ops != [] && TipsAdvance(ops, high, slotOf)
    ensures TipsAdvance([ops[0]], high, slotOf) && TipsAdvance(ops[1..], HighAfter(ops[0], high), slotOf)
  {
    assert [ops[0]][1..] == [];
  }

  lemma StepKeepsDates(v: Voting, op: Op, past: set<Hash>, high: nat, slotOf: Hash -> nat)
    requires Dated(v, high, slotOf) && TipsAdvance([op], high, slotOf) && Kept(v, past, high, slotOf)
    ensures Dated(Step(v, op), HighAfter(op, high), slotOf)
    ensures Kept(Step(v, op), past, HighAfter(op, high), slotOf)
  {
    hide OnSlot;
    match op
    case Slot(slot, around) => SlotKeepsMarks(v, slot, around);
    case Votes(ballots) => BallotsKeepMarks(v.elections, ballots);
    case _ =>
  }

  lemma VotedIsKept(v: Voting, op: Op, past: set<Hash>, high: nat, slotOf: Hash -> nat)
    requires Dated(v, high, slotOf) && TipsAdvance([op], high, slotOf) && Kept(v, past, high, slotOf)
    ensures Kept(Step(v, op), PastAfter(v, op, past), HighAfter(op, high), slotOf)
  {
    hide Step, VotesBy;
    forall rb | rb in VotesBy(v, op)
      ensures rb in v.elections.elections
    {
      StepOpens(v, op, rb);
    }
    StepKeepsDates(v, op, past, high, slotOf);
    StepKeepsDates(v, op, Elements(VotesBy(v, op)), high, slotOf);
  }

  lemma {:induction false} AdvancingTipsNeverReopen(
      v: Voting, ops: seq<Op>, past: set<Hash>, high: nat, slotOf: Hash -> nat)
    requires Dated(v, high, slotOf) && TipsAdvance(ops, high, slotOf) && Kept(v, past, high, slotOf)
    ensures NeverReopens(v, ops, past)
    decreases |ops|
  {
    hide Step, VotesBy;
    if ops != [] {
      TipsAdvanceSplits(ops, high, slotOf);
      StepKeepsDates(v, ops[0], past, high, slotOf);
      VotedIsKept(v, ops[0], past, high, slotOf);
      AdvancingTipsNeverReopen(
        Step(v, ops[0]), ops[1..], PastAfter(v, ops[0], past), HighAfter(ops[0], high), slotOf);
    }
  }

  /** While adopted tips advance, no announcing block is voted for twice in a run. */
  lemma NoBlockVotedTwice(v: Voting, ops: seq<Op>, high: nat, slotOf: Hash -> nat)
    requires Dated(v, high, slotOf) && TipsAdvance(ops, high, slotOf)
    ensures Distinct(VotesAlong(v, ops))
  {
    AdvancingTipsNeverReopen(v, ops, {}, high, slotOf);
    BarredIffNeverReopened(v, ops, {});
  }
}
