/** Vote safety over whole runs. */
module VotingRuns {
  import opened Types
  import opened Ordered
  import opened VotingModel
  import E = ElectionsModel

  // ---------------------------------------------------------------------------
  // When a slot votes
  // ---------------------------------------------------------------------------

  /** Everything that a vote attests. */
  ghost predicate Warranted(v: Voting, rb: Hash, around: Surroundings) {
    && rb in v.elections.elections
    && var e := v.elections.elections[rb];
    && v.tip.rbHash == Some(rb)
    && SaturatingSub(e.seenSlot, e.announcedSlot) < 3 * v.pipeline.deltaHdr + v.pipeline.voteWindow
    && v.tip.headerArrival.Some? && v.tip.headerArrival.value < e.announcedSlot + v.pipeline.deltaHdr
    && e.announcedSlot !in v.tip.equivocatingSlots
    && (e.ebHash in v.manifests ==> AllPresent(v.manifests[e.ebHash].1, around.txKnown))
    && e.bodyValidated
  }

  /** The node holds a seat or wins one, evaluates votes, and is not told to abstain. */
  ghost predicate MayVote(v: Voting, rb: Hash, around: Surroundings)
    requires rb in v.elections.elections
  {
    var e := v.elections.elections[rb];
    && v.cfg.evaluateVotes && v.policy.Honest?
    && (v.cfg.persistentSeats > 0
        || (v.cfg.nonPersistentVoters > 0 && around.npvWins(e.ebHash, e.announcedSlot) > 0))
  }

  ghost predicate Casts(v: Voting, rb: Hash, around: Surroundings) {
    Warranted(v, rb, around) && MayVote(v, rb, around)
  }

  lemma VoteOnIff(v: Voting, rb: Hash, around: Surroundings)
    requires rb in v.elections.elections
    ensures VotesIn(VoteOn(v, rb, around).1) == if Casts(v, rb, around) then [rb] else []
    ensures Casts(v, rb, around) ==> VoteOn(v, rb, around).0 == Done(v, rb)
  {
    var fx := VoteOn(v, rb, around).1;
    assert |fx| <= 1;
    assert fx != [] ==> fx[..0] == [];
  }

  lemma CastsIgnoresMarks(v: Voting, w: Voting, rb: Hash, around: Surroundings)
    requires SameButVoted(v, w)
    ensures Casts(v, rb, around) <==> Casts(w, rb, around)
  {
  }

  lemma {:induction false} VotesConcat(a: seq<Effect>, b: seq<Effect>)
    ensures VotesIn(a + b) == VotesIn(a) + VotesIn(b)
  {
    if b == [] {
      assert a + b == a;
    } else {
      var n := |b| - 1;
      VotesConcat(a, b[..n]);
      assert (a + b)[..|a + b| - 1] == a + b[..n];
    }
  }

  /** Going through distinct elections casts one vote if the tip's is among them and warrants it,
      and else none. */
  lemma {:induction false} VoteOnEachIff(v: Voting, rbs: seq<Hash>, around: Surroundings)
    requires forall i :: 0 <= i < |rbs| ==> rbs[i] in v.elections.elections
    requires StrictlyAscending(rbs)
    ensures VotesIn(VoteOnEach(v, rbs, around).1) ==
            if v.tip.rbHash.Some? && v.tip.rbHash.value in rbs && Casts(v, v.tip.rbHash.value, around)
            then [v.tip.rbHash.value] else []
    decreases |rbs|
  {
    if rbs != [] {
      var n := |rbs| - 1;
      var (w, fx) := VoteOnEach(v, rbs[..n], around);
      VoteOnEachIff(v, rbs[..n], around);
      VoteOnEachKeeps(v, rbs[..n], around);
      VoteOnIff(w, rbs[n], around);
      CastsIgnoresMarks(v, w, rbs[n], around);
      VotesConcat(fx, VoteOn(w, rbs[n], around).1);
      assert forall rb :: rb in rbs <==> rb in rbs[..n] || rb == rbs[n];
      assert rbs[n] !in rbs[..n];
    }
  }

  ghost predicate VotesAt(v: Voting, slot: nat, around: Surroundings, rb: Hash) {
    E.IsEligible(v.elections, rb, slot) && Casts(v, rb, around)
  }

  lemma TickKeepsCasts(v: Voting, slot: nat, rb: Hash, around: Surroundings)
    ensures Casts(Ticked(v, slot), rb, around) <==> Casts(v, rb, around)
  {
  }

  /** A slot emits at most one vote; it emits one exactly when the election of the adopted tip is in
      its voting window and not voted in yet, and every predicate holds. */
  lemma SlotVotesIff(v: Voting, slot: nat, around: Surroundings)
    ensures VotesIn(OnSlot(v, slot, around).1) ==
            if v.tip.rbHash.Some? && VotesAt(v, slot, around, v.tip.rbHash.value)
            then [v.tip.rbHash.value] else []
  {
    var rbs := E.Eligible(v.elections, slot);
    assert forall i :: 0 <= i < |rbs| ==> rbs[i] in rbs;
    VoteOnEachIff(Ticked(v, slot), rbs, around);
    if v.tip.rbHash.Some? {
      TickKeepsCasts(v, slot, v.tip.rbHash.value, around);
    }
  }

  // ---------------------------------------------------------------------------
  // Voted marks
  // ---------------------------------------------------------------------------

  /** What a step does to the elections, as far as dates and marks go. */
  ghost predicate Marks(s: E.Elections, t: E.Elections) {
    forall rb :: rb in t.elections ==>
      && rb in s.elections
      && t.elections[rb].announcedSlot == s.elections[rb].announcedSlot
      && (s.elections[rb].voted ==> t.elections[rb].voted)
  }

  lemma {:induction false} BallotsKeepMarks(s: E.Elections, ballots: seq<Ballot>)
    ensures Marks(s, OnValidatedVotes(s, ballots).0)
    ensures OnValidatedVotes(s, ballots).0.elections.Keys == s.elections.Keys
  {
    if ballots != [] {
      BallotsKeepMarks(s, ballots[..|ballots| - 1]);
    }
  }

  lemma TickKeepsMarks(v: Voting, slot: nat)
    ensures Marks(v.elections, Ticked(v, slot).elections)
    ensures Ticked(v, slot).elections.elections.Keys == v.elections.elections.Keys
  {
  }

  lemma VotingKeepsMarks(v: Voting, u: Voting, w: Voting)
    requires Marks(v.elections, u.elections) && SameButVoted(u, w)
    ensures Marks(v.elections, w.elections)
  {
  }

  lemma VoteAtKeepsMarks(v: Voting, slot: nat, around: Surroundings)
    ensures var w := VoteAt(v, slot, around).0;
            && w.tip == v.tip && Marks(v.elections, w.elections)
            && w.elections.elections.Keys == v.elections.elections.Keys
  {
    TickKeepsMarks(v, slot);
    var rbs := E.Eligible(v.elections, slot);
    assert forall i :: 0 <= i < |rbs| ==> rbs[i] in rbs;
    VoteOnEachKeeps(Ticked(v, slot), rbs, around);
    VotingKeepsMarks(v, Ticked(v, slot), VoteAt(v, slot, around).0);
  }

  lemma PruneKeepsMarks(v: Voting, min: nat)
    ensures var w := PruneChainProgress(v, min);
            && w.tip == v.tip && Marks(v.elections, w.elections)
            && forall rb :: rb in v.elections.elections && rb !in w.elections.elections ==>
                 v.elections.elections[rb].announcedSlot < min
  {
  }

  lemma SlotKeepsMarks(v: Voting, slot: nat, around: Surroundings)
    ensures var w := OnSlot(v, slot, around).0;
            && w.tip == v.tip && Marks(v.elections, w.elections)
            && forall rb :: rb in v.elections.elections && rb !in w.elections.elections ==>
                 v.tip.rbSlot.Some? && v.elections.elections[rb].announcedSlot < v.tip.rbSlot.value
  {
    VoteAtKeepsMarks(v, slot, around);
    var u := VoteAt(v, slot, around).0;
    if u.tip.rbSlot.Some? {
      PruneKeepsMarks(u, u.tip.rbSlot.value);
    }
  }

  lemma {:induction false} VoteOnEachMarks(v: Voting, rbs: seq<Hash>, around: Surroundings, rb: Hash)
    requires forall i :: 0 <= i < |rbs| ==> rbs[i] in v.elections.elections
    requires rb in rbs && Casts(v, rb, around)
    ensures VoteOnEach(v, rbs, around).0.elections.elections[rb].voted
    decreases |rbs|
  {
    hide Casts, VoteOn;
    var n := |rbs| - 1;
    var w := VoteOnEach(v, rbs[..n], around).0;
    VoteOnEachKeeps(v, rbs[..n], around);
    VoteOnKeeps(w, rbs[n], around);
    if rb in rbs[..n] {
      VoteOnEachMarks(v, rbs[..n], around, rb);
      assert w.elections.elections[rb].voted;
    } else {
      assert rb == rbs[n];
      CastsIgnoresMarks(v, w, rb, around);
      VoteOnIff(w, rb, around);
      assert Done(w, rb).elections.elections[rb].voted;
    }
  }

  lemma VoteAtMarks(v: Voting, slot: nat, around: Surroundings, rb: Hash)
    requires VotesAt(v, slot, around, rb)
    ensures rb in VoteAt(v, slot, around).0.elections.elections
    ensures VoteAt(v, slot, around).0.elections.elections[rb].voted
  {
    var rbs := E.Eligible(v.elections, slot);
    assert forall i :: 0 <= i < |rbs| ==> rbs[i] in rbs;
    TickKeepsCasts(v, slot, rb, around);
    VoteOnEachMarks(Ticked(v, slot), rbs, around, rb);
  }
}
