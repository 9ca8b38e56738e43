/** Every vote is for a body that this node validated before, whichever of validation and
    announcement came first. */
module VotingBacked {
  import opened Types
  import opened VotingModel
  import opened VotingRuns
  import E = ElectionsModel

  /** Marked elections are of bodies in `ever`; bodies remembered as validated are marked in every
      election that announces them. */
  ghost predicate Backed(v: Voting, ever: set<Hash>) {
    && v.validatedBodies.Keys <= ever
    && forall rb :: rb in v.elections.elections ==> Agrees(v.validatedBodies.Keys, ever, v.elections.elections[rb])
  }

  ghost predicate Agrees(remembered: set<Hash>, ever: set<Hash>, e: E.Election) {
    && (e.bodyValidated ==> e.ebHash in ever)
    && (e.ebHash in remembered ==> e.bodyValidated)
  }

  /** The step leaves bodies and their marks alone in what it keeps of the elections. */
  ghost predicate KeepsBodies(s: E.Elections, t: E.Elections) {
    forall rb :: rb in t.elections ==>
      && rb in s.elections
      && t.elections[rb].ebHash == s.elections[rb].ebHash
      && t.elections[rb].bodyValidated == s.elections[rb].bodyValidated
  }

  lemma KeptBodiesStayBacked(v: Voting, w: Voting, ever: set<Hash>)
    requires Backed(v, ever) && KeepsBodies(v.elections, w.elections)
    requires w.validatedBodies.Keys <= v.validatedBodies.Keys
    ensures Backed(w, ever)
  {
    forall rb | rb in w.elections.elections
      ensures Agrees(w.validatedBodies.Keys, ever, w.elections.elections[rb])
    {
      assert Agrees(v.validatedBodies.Keys, ever, v.elections.elections[rb]);
    }
  }

  lemma {:induction false} BallotsKeepBodies(s: E.Elections, ballots: seq<Ballot>)
    ensures KeepsBodies(s, OnValidatedVotes(s, ballots).0)
  {
    if ballots != [] {
      BallotsKeepBodies(s, ballots[..|ballots| - 1]);
    }
  }

  lemma VoteAtKeepsBodies(v: Voting, slot: nat, around: Surroundings)
    ensures KeepsBodies(v.elections, VoteAt(v, slot, around).0.elections)
    ensures VoteAt(v, slot, around).0.validatedBodies == v.validatedBodies
  {
    var rbs := E.Eligible(v.elections, slot);
    assert forall i :: 0 <= i < |rbs| ==> rbs[i] in rbs;
    VoteOnEachKeeps(Ticked(v, slot), rbs, around);
    TickKeepsBodies(v, slot);
    VotingKeepsBodies(v, Ticked(v, slot), VoteAt(v, slot, around).0);
  }

  lemma TickKeepsBodies(v: Voting, slot: nat)
    ensures KeepsBodies(v.elections, Ticked(v, slot).elections)
  {
  }

  lemma VotingKeepsBodies(v: Voting, u: Voting, w: Voting)
    requires KeepsBodies(v.elections, u.elections) && SameButVoted(u, w)
    ensures KeepsBodies(v.elections, w.elections)
  {
  }

  lemma SlotKeepsBacked(v: Voting, slot: nat, around: Surroundings, ever: set<Hash>)
    requires Backed(v, ever)
    ensures Backed(OnSlot(v, slot, around).0, ever)
  {
    VoteAtKeepsBodies(v, slot, around);
    var u := VoteAt(v, slot, around).0;
    KeptBodiesStayBacked(v, u, ever);
    if u.tip.rbSlot.Some? {
      KeptBodiesStayBacked(u, PruneChainProgress(u, u.tip.rbSlot.value), ever);
    }
  }

  lemma TipKeepsBacked(v: Voting, tip: TipContext, ever: set<Hash>)
    requires Backed(v, ever)
    ensures Backed(SetChainTip(v, tip), ever)
  {
    forall rb | rb in SetChainTip(v, tip).elections.elections
      ensures Agrees(v.validatedBodies.Keys, ever, SetChainTip(v, tip).elections.elections[rb])
    {
      assert rb in v.elections.elections ==> Agrees(v.validatedBodies.Keys, ever, v.elections.elections[rb]);
    }
  }

  ghost function ValidatedBy(op: Op): set<Hash> {
    if op.ValidatedEb? && op.point.Specific? then {op.point.hash} else {}
  }

  lemma ValidationKeepsBacked(v: Voting, point: Point, ever: set<Hash>)
    requires Backed(v, ever)
    ensures Backed(OnValidatedEb(v, point), ever + ValidatedBy(ValidatedEb(point)))
  {
    var w, more := OnValidatedEb(v, point), ever + ValidatedBy(ValidatedEb(point));
    forall rb | rb in w.elections.elections
      ensures Agrees(w.validatedBodies.Keys, more, w.elections.elections[rb])
    {
      assert Agrees(v.validatedBodies.Keys, ever, v.elections.elections[rb]);
    }
  }

  lemma StepKeepsBacked(v: Voting, op: Op, ever: set<Hash>)
    requires Backed(v, ever)
    ensures Backed(Step(v, op), ever + ValidatedBy(op))
  {
    assert !op.ValidatedEb? ==> ever + ValidatedBy(op) == ever;
    match op
    case TipChanged(tip) => TipKeepsBacked(v, tip, ever);
    case Slot(slot, around) => SlotKeepsBacked(v, slot, around, ever);
    case ValidatedEb(point) => ValidationKeepsBacked(v, point, ever);
    case Votes(ballots) =>
      BallotsKeepBodies(v.elections, ballots);
      KeptBodiesStayBacked(v, Step(v, op), ever);
    case _ => KeptBodiesStayBacked(v, Step(v, op), ever);
  }

  /** What holds of every vote at the moment it is emitted. */
  ghost predicate VotesSafely(v: Voting, op: Op, ever: set<Hash>) {
    forall rb :: rb in VotesBy(v, op) ==>
      && VotesAt(v, op.slot, op.around, rb)
      && v.elections.elections[rb].ebHash in ever
  }

  ghost predicate AllVotesSafe(v: Voting, ops: seq<Op>, ever: set<Hash>)
    decreases |ops|
  {
    ops == [] || (VotesSafely(v, ops[0], ever)
                  && AllVotesSafe(Step(v, ops[0]), ops[1..], ever + ValidatedBy(ops[0])))
  }

  lemma BackedVotesSafely(v: Voting, op: Op, ever: set<Hash>)
    requires Backed(v, ever)
    ensures VotesSafely(v, op, ever)
  {
    hide OnSlot;
    if op.Slot? {
      SlotVotesIff(v, op.slot, op.around);
      if v.tip.rbHash.Some? && v.tip.rbHash.value in v.elections.elections {
        assert Agrees(v.validatedBodies.Keys, ever, v.elections.elections[v.tip.rbHash.value]);
      }
    }
  }

  /** Along every run, each vote is warranted when it is emitted, and its body was validated by an
      earlier step. */
  lemma {:induction false} VotesAreBacked(v: Voting, ops: seq<Op>, ever: set<Hash>)
    requires Backed(v, ever)
    ensures AllVotesSafe(v, ops, ever)
    decreases |ops|
  {
    hide Step, Backed, VotesSafely;
    if ops != [] {
      BackedVotesSafely(v, ops[0], ever);
      StepKeepsBacked(v, ops[0], ever);
      VotesAreBacked(Step(v, ops[0]), ops[1..], ever + ValidatedBy(ops[0]));
    }
  }

  // ---------------------------------------------------------------------------
  // Whichever comes first
  // ---------------------------------------------------------------------------

  /** Nothing validated for the EB is at a slot that a prune up to `low` drops. */
  ghost predicate Retains(v: Voting, eb: Hash, low: nat) {
    && (v.tip.rbSlot.Some? ==> v.tip.rbSlot.value <= low)
    && (eb in v.validatedBodies ==> v.validatedBodies[eb] >= low)
  }

  ghost predicate Within(op: Op, eb: Hash, low: nat) {
    && (op.TipChanged? && op.tip.rbSlot.Some? ==> op.tip.rbSlot.value <= low)
    && (op.ValidatedEb? && op.point.Specific? && op.point.hash == eb ==> op.point.slot >= low)
  }

  lemma SlotRemembers(v: Voting, slot: nat, around: Surroundings, eb: Hash, low: nat)
    requires Retains(v, eb, low)
    ensures var w := OnSlot(v, slot, around).0;
            Retains(w, eb, low) && (eb in w.validatedBodies <==> eb in v.validatedBodies)
  {
    VoteAtKeepsBodies(v, slot, around);
    VoteAtKeepsMarks(v, slot, around);
  }

  lemma StepRemembers(v: Voting, op: Op, eb: Hash, low: nat)
    requires Retains(v, eb, low) && Within(op, eb, low)
    ensures Retains(Step(v, op), eb, low)
    ensures eb in Step(v, op).validatedBodies <==> eb in v.validatedBodies || eb in ValidatedBy(op)
  {
    if op.Slot? {
      SlotRemembers(v, op.slot, op.around, eb, low);
    }
  }

  /** In a run that validates an EB and does not prune its slot, every election of the EB ends up
      marked, whether it was announced before the validation or after. */
  lemma {:induction false} MarkedWhicheverCameFirst(v: Voting, ops: seq<Op>, ever: set<Hash>, eb: Hash, low: nat)
    requires Backed(v, ever) && Retains(v, eb, low)
    requires forall i :: 0 <= i < |ops| ==> Within(ops[i], eb, low)
    requires eb in v.validatedBodies || exists i :: 0 <= i < |ops| && eb in ValidatedBy(ops[i])
    ensures forall rb :: rb in Run(v, ops).elections.elections && Run(v, ops).elections.elections[rb].ebHash == eb ==>
              Run(v, ops).elections.elections[rb].bodyValidated
    decreases |ops|
  {
    if ops == [] {
      forall rb | rb in v.elections.elections && v.elections.elections[rb].ebHash == eb
        ensures v.elections.elections[rb].bodyValidated
      {
        assert Agrees(v.validatedBodies.Keys, ever, v.elections.elections[rb]);
      }
    } else {
      StepKeepsBacked(v, ops[0], ever);
      StepRemembers(v, ops[0], eb, low);
      MarkedWhicheverCameFirst(Step(v, ops[0]), ops[1..], ever + ValidatedBy(ops[0]), eb, low);
    }
  }

  // ---------------------------------------------------------------------------
  // The EB-safety gate
  // ---------------------------------------------------------------------------

  /** The chain endorses the EB and no live election of it is marked validated. */
  predicate OpensGate(v: Voting, op: Op, eb: Hash) {
    op.Endorsement? && op.eb == eb && !EbBodyValidated(v.elections, eb)
  }

  /** The body is validated, or its slot falls behind the adopted tip. */
  predicate ClosesGate(v: Voting, op: Op, eb: Hash)
    requires eb in v.endorsedUnvalidated
  {
    || (op.ValidatedEb? && op.point.Specific? && op.point.hash == eb)
    || (op.Slot? && v.tip.rbSlot.Some? && v.endorsedUnvalidated[eb] < v.tip.rbSlot.value)
  }

  lemma SlotGate(v: Voting, slot: nat, around: Surroundings)
    ensures OnSlot(v, slot, around).0.endorsedUnvalidated ==
            match v.tip.rbSlot case Some(min) => SlotsFrom(v.endorsedUnvalidated, min) case None => v.endorsedUnvalidated
  {
    hide VoteOnEach;
    var rbs := E.Eligible(v.elections, slot);
    assert forall i :: 0 <= i < |rbs| ==> rbs[i] in rbs;
    VoteOnEachKeeps(Ticked(v, slot), rbs, around);
  }

  /** An EB is endorsed and unvalidated exactly when an endorsement put it there and nothing has
      validated it or left it behind since. */
  lemma StepGate(v: Voting, op: Op, eb: Hash)
    ensures eb in Step(v, op).endorsedUnvalidated <==>
            OpensGate(v, op, eb) || (eb in v.endorsedUnvalidated && !ClosesGate(v, op, eb))
    ensures eb in v.endorsedUnvalidated && eb in Step(v, op).endorsedUnvalidated ==>
              Step(v, op).endorsedUnvalidated[eb] == v.endorsedUnvalidated[eb]
  {
    hide OnSlot;
    if op.Slot? {
      SlotGate(v, op.slot, op.around);
    }
  }
}
