/** A node's run drives its elections through a run of their own, so what holds of every election run
    holds of every node. */
module NodeElections {
  import opened Types
  import opened Sums
  import opened VotingModel
  import E = ElectionsModel
  import R = ElectionsRuns
  import Q = Quorum

  // ---------------------------------------------------------------------------
  // The election operations of one step
  // ---------------------------------------------------------------------------

  /** The marks that going through the elections leaves. */
  ghost function MarkOps(v: Voting, rbs: seq<Hash>, around: Surroundings): seq<E.Op>
    requires forall i :: 0 <= i < |rbs| ==> rbs[i] in v.elections.elections
    decreases |rbs|
  {
    if rbs == [] then []
    else
      var n := |rbs| - 1;
      var w := VoteOnEach(v, rbs[..n], around).0;
      MarkOps(v, rbs[..n], around) + if VoteOn(w, rbs[n], around).0 == w then [] else [E.Voted(rbs[n])]
  }

  ghost function BallotOps(s: E.Elections, ballots: seq<Ballot>): seq<E.Op> {
    if ballots == [] then []
    else
      var n := |ballots| - 1;
      var b := ballots[n];
      var weight := E.WeightFor(s.cfg, b.key, b.npvWins);
      BallotOps(s, ballots[..n]) + if weight == 0 then [] else [E.Record(b.rb, b.key, weight)]
  }

  ghost function PruneOps(tip: TipContext): seq<E.Op> {
    match tip.rbSlot case Some(min) => [E.Prune(min)] case None => []
  }

  ghost function SlotOps(v: Voting, slot: nat, around: Surroundings): seq<E.Op> {
    var rbs := E.Eligible(v.elections, slot);
    assert forall i :: 0 <= i < |rbs| ==> rbs[i] in rbs;
    [E.Tick(slot)] + (MarkOps(Ticked(v, slot), rbs, around) + PruneOps(v.tip))
  }

  ghost function TipOps(v: Voting, tip: TipContext): seq<E.Op> {
    if tip.rbHash.Some? && tip.rbSlot.Some? && tip.ebAnnouncement.Some? then
      var eb := tip.ebAnnouncement.value;
      [E.Announce(tip.rbHash.value, tip.rbSlot.value, eb)]
      + if eb in v.validatedBodies then [E.BodyValidated(eb)] else []
    else []
  }

  ghost function StepOps(v: Voting, op: Op): seq<E.Op> {
    match op
    case TipChanged(tip) => TipOps(v, tip)
    case Slot(slot, around) => SlotOps(v, slot, around)
    case ValidatedEb(point) => if point.Specific? then [E.BodyValidated(point.hash)] else []
    case Votes(ballots) => BallotOps(v.elections, ballots)
    case _ => []
  }

  ghost function RunOps(v: Voting, ops: seq<Op>): seq<E.Op>
    decreases |ops|
  {
    if ops == [] then [] else StepOps(v, ops[0]) + RunOps(Step(v, ops[0]), ops[1..])
  }

  lemma {:induction false} RunConcat(s: E.Elections, a: seq<E.Op>, b: seq<E.Op>)
    ensures E.Run(s, a + b) == E.Run(E.Run(s, a), b)
    decreases |a|
  {
    hide E.Step;
    if a == [] {
      assert a + b == b;
    } else {
      assert (a + b)[1..] == a[1..] + b;
      RunConcat(E.Step(s, a[0]), a[1..], b);
    }
  }

  lemma RunOne(s: E.Elections, op: E.Op)
    ensures E.Run(s, [op]) == E.Step(s, op)
  {
    hide E.Step;
    assert E.Run(E.Step(s, op), []) == E.Step(s, op);
  }

  lemma RunSnoc(s: E.Elections, a: seq<E.Op>, op: E.Op)
    ensures E.Run(s, a + [op]) == E.Step(E.Run(s, a), op)
  {
    hide E.Step;
    RunConcat(s, a, [op]);
    RunOne(E.Run(s, a), op);
  }

  lemma {:induction false} MarksRun(v: Voting, rbs: seq<Hash>, around: Surroundings)
    requires forall i :: 0 <= i < |rbs| ==> rbs[i] in v.elections.elections
    ensures E.Run(v.elections, MarkOps(v, rbs, around)) == VoteOnEach(v, rbs, around).0.elections
    decreases |rbs|
  {
    hide E.Step, E.Run;
    if rbs == [] {
      RunNone(v.elections);
    } else {
      var n := |rbs| - 1;
      var w := VoteOnEach(v, rbs[..n], around).0;
      MarksRun(v, rbs[..n], around);
      VoteOnMarksOrNot(w, rbs[n], around);
      if VoteOn(w, rbs[n], around).0 == w {
        assert MarkOps(v, rbs, around) == MarkOps(v, rbs[..n], around);
      } else {
        RunSnoc(v.elections, MarkOps(v, rbs[..n], around), E.Voted(rbs[n]));
        MarkIsVoted(w.elections, rbs[n]);
      }
    }
  }

  lemma RunNone(s: E.Elections)
    ensures E.Run(s, []) == s
  {
  }

  lemma MarkIsVoted(s: E.Elections, rb: Hash)
    ensures E.Step(s, E.Voted(rb)) == E.MarkVoted(s, rb)
  {
  }

  lemma VoteOnMarksOrNot(v: Voting, rb: Hash, around: Surroundings)
    requires rb in v.elections.elections
    ensures VoteOn(v, rb, around).0 == v || VoteOn(v, rb, around).0 == v.(elections := E.MarkVoted(v.elections, rb))
  {
  }

  lemma {:induction false} BallotsRun(s: E.Elections, ballots: seq<Ballot>)
    ensures E.Run(s, BallotOps(s, ballots)) == OnValidatedVotes(s, ballots).0
    ensures OnValidatedVotes(s, ballots).0.cfg == s.cfg
  {
    hide E.Run;
    if ballots == [] {
      RunNone(s);
    } else {
      var n := |ballots| - 1;
      var b := ballots[n];
      BallotsRun(s, ballots[..n]);
      var weight := E.WeightFor(s.cfg, b.key, b.npvWins);
      if weight == 0 {
        assert BallotOps(s, ballots) == BallotOps(s, ballots[..n]);
      } else {
        RunSnoc(s, BallotOps(s, ballots[..n]), E.Record(b.rb, b.key, weight));
      }
    }
  }

  lemma SlotRuns(v: Voting, slot: nat, around: Surroundings)
    ensures E.Run(v.elections, SlotOps(v, slot, around)) == OnSlot(v, slot, around).0.elections
  {
    hide E.Run, VoteOnEach, MarkOps, E.PruneBelowSlot, E.Eligible;
    var rbs := E.Eligible(v.elections, slot);
    assert forall i :: 0 <= i < |rbs| ==> rbs[i] in rbs;
    var u := Ticked(v, slot);
    var marks := MarkOps(u, rbs, around);
    RunConcat(v.elections, [E.Tick(slot)], marks + PruneOps(v.tip));
    RunOne(v.elections, E.Tick(slot));
    RunConcat(u.elections, marks, PruneOps(v.tip));
    MarksRun(u, rbs, around);
    VoteOnEachKeeps(u, rbs, around);
    var w := VoteAt(v, slot, around).0;
    if v.tip.rbSlot.Some? {
      RunOne(w.elections, E.Prune(v.tip.rbSlot.value));
    } else {
      RunNone(w.elections);
    }
  }

  lemma TipRuns(v: Voting, tip: TipContext)
    ensures E.Run(v.elections, TipOps(v, tip)) == SetChainTip(v, tip).elections
  {
    hide E.Run, E.AnnounceFromRb, E.MarkBodyValidated;
    RunNone(v.elections);
    if tip.rbHash.Some? && tip.rbSlot.Some? && tip.ebAnnouncement.Some? {
      var announce := E.Announce(tip.rbHash.value, tip.rbSlot.value, tip.ebAnnouncement.value);
      RunOne(v.elections, announce);
      RunSnoc(v.elections, [announce], E.BodyValidated(tip.ebAnnouncement.value));
      assert [announce] + [] == [announce];
    }
  }

  /** Every step of a node is a run of its elections, in which votes carry the weight computed for
      them. */
  lemma StepRuns(v: Voting, op: Op)
    ensures E.Run(v.elections, StepOps(v, op)) == Step(v, op).elections
    ensures forall i :: 0 <= i < |StepOps(v, op)| ==> Q.FromVote(v.elections.cfg, StepOps(v, op)[i])
  {
    hide E.Run, SlotOps, OnSlot, TipOps, SetChainTip, BallotOps, OnValidatedVotes;
    RunNone(v.elections);
    match op
    case TipChanged(tip) =>
      TipRuns(v, tip);
      OnlyVotesRecord(v, op);
    case Slot(slot, around) =>
      SlotRuns(v, slot, around);
      OnlyVotesRecord(v, op);
    case ValidatedEb(point) =>
      if point.Specific? {
        RunOne(v.elections, E.BodyValidated(point.hash));
      }
    case Votes(ballots) =>
      BallotsRun(v.elections, ballots);
      BallotsAreVotes(v.elections, ballots);
    case _ =>
  }

  lemma OnlyVotesRecord(v: Voting, op: Op)
    requires op.TipChanged? || op.Slot?
    ensures forall i :: 0 <= i < |StepOps(v, op)| ==> !StepOps(v, op)[i].Record?
  {
    hide MarkOps, E.Eligible;
    if op.Slot? {
      var rbs := E.Eligible(v.elections, op.slot);
      assert forall i :: 0 <= i < |rbs| ==> rbs[i] in rbs;
      MarksAreMarks(Ticked(v, op.slot), rbs, op.around);
    }
  }

  lemma {:induction false} MarksAreMarks(v: Voting, rbs: seq<Hash>, around: Surroundings)
    requires forall i :: 0 <= i < |rbs| ==> rbs[i] in v.elections.elections
    ensures forall i :: 0 <= i < |MarkOps(v, rbs, around)| ==> MarkOps(v, rbs, around)[i].Voted?
    decreases |rbs|
  {
    if rbs != [] {
      MarksAreMarks(v, rbs[..|rbs| - 1], around);
    }
  }

  lemma {:induction false} BallotsAreVotes(s: E.Elections, ballots: seq<Ballot>)
    ensures forall i :: 0 <= i < |BallotOps(s, ballots)| ==>
              BallotOps(s, ballots)[i].Record? && Q.FromVote(s.cfg, BallotOps(s, ballots)[i])
  {
    if ballots != [] {
      BallotsAreVotes(s, ballots[..|ballots| - 1]);
    }
  }

  lemma {:induction false} NodeRuns(v: Voting, ops: seq<Op>)
    ensures E.Run(v.elections, RunOps(v, ops)) == Run(v, ops).elections
    ensures Run(v, ops).elections.cfg == v.elections.cfg
    ensures forall i :: 0 <= i < |RunOps(v, ops)| ==> Q.FromVote(v.elections.cfg, RunOps(v, ops)[i])
    decreases |ops|
  {
    hide E.Run, Step, StepOps, Q.FromVote;
    RunNone(v.elections);
    if ops != [] {
      StepRuns(v, ops[0]);
      RunKeepsConfig(v.elections, StepOps(v, ops[0]));
      RunConcat(v.elections, StepOps(v, ops[0]), RunOps(Step(v, ops[0]), ops[1..]));
      NodeRuns(Step(v, ops[0]), ops[1..]);
    }
  }

  lemma {:induction false} RunKeepsConfig(s: E.Elections, ops: seq<E.Op>)
    ensures E.Run(s, ops).cfg == s.cfg
    decreases |ops|
  {
    if ops != [] {
      RunKeepsConfig(E.Step(s, ops[0]), ops[1..]);
    }
  }

  // ---------------------------------------------------------------------------
  // What every node run keeps
  // ---------------------------------------------------------------------------

  /** Phases and quorum flags are exact on every node, after every run. */
  lemma NodeKeepsInv(v: Voting, ops: seq<Op>)
    requires E.Inv(v.elections)
    ensures E.Inv(Run(v, ops).elections)
  {
    NodeRuns(v, ops);
    E.RunKeepsInv(v.elections, RunOps(v, ops));
  }

  /** Any two elections at quorum, on any two nodes that share the registry, after any runs, have
      committee members in common that hold at least twice the threshold less the total stake. */
  lemma NodeQuorumsOverlap(v: Voting, w: Voting, left: seq<Op>, right: seq<Op>, rb1: Hash, rb2: Hash)
    requires v.elections == w.elections == E.EmptyElections(v.elections.cfg)
    requires v.elections.cfg.selection.StakeCentile? && v.elections.cfg.expectedWeight == Sum(v.elections.cfg.stakes)
    requires R.AtQuorum(Run(v, left).elections, rb1) && R.AtQuorum(Run(w, right).elections, rb2)
    ensures var cfg := v.elections.cfg;
            var a := Run(v, left).elections.elections[rb1].voterWeights;
            var b := Run(w, right).elections.elections[rb2].voterWeights;
            && Q.Voters(a) * Q.Voters(b) <= cfg.committee.Keys
            && Sum(Restrict(cfg.stakes, Q.Voters(a) * Q.Voters(b)))
               >= 2 * E.Threshold(cfg.quorumFraction, cfg.expectedWeight) - cfg.expectedWeight
  {
    hide Run, E.Run, RunOps, Q.FromVote;
    NodeRuns(v, left);
    NodeRuns(w, right);
    Q.QuorumsOverlapAcrossRuns(v.elections.cfg, RunOps(v, left), RunOps(w, right), rb1, rb2);
  }

  // ---------------------------------------------------------------------------
  // Quorum and certification of one election
  // ---------------------------------------------------------------------------

  /** The node does not prune the election of `rb`. */
  ghost predicate NodeSpares(v: Voting, op: Op, rb: Hash) {
    op.Slot? && v.tip.rbSlot.Some? && rb in v.elections.elections ==>
      v.tip.rbSlot.value <= v.elections.elections[rb].announcedSlot
  }

  ghost predicate NodeSparesAlong(v: Voting, ops: seq<Op>, rb: Hash)
    decreases |ops|
  {
    ops == [] || (NodeSpares(v, ops[0], rb) && NodeSparesAlong(Step(v, ops[0]), ops[1..], rb))
  }

  ghost predicate NodeAdvances(v: Voting, ops: seq<Op>)
    decreases |ops|
  {
    ops == [] || ((ops[0].Slot? ==> ops[0].slot >= v.elections.currentSlot) && NodeAdvances(Step(v, ops[0]), ops[1..]))
  }

  lemma {:induction false} SparesConcat(s: E.Elections, a: seq<E.Op>, b: seq<E.Op>, rb: Hash)
    ensures R.SparesAlong(s, a + b, rb) <==> R.SparesAlong(s, a, rb) && R.SparesAlong(E.Run(s, a), b, rb)
    decreases |a|
  {
    hide E.Step, R.Spares;
    if a == [] {
      assert a + b == b;
    } else {
      assert (a + b)[1..] == a[1..] + b;
      SparesConcat(E.Step(s, a[0]), a[1..], b, rb);
    }
  }

  lemma {:induction false} AdvancesConcat(s: E.Elections, a: seq<E.Op>, b: seq<E.Op>)
    ensures R.Advances(s, a + b) <==> R.Advances(s, a) && R.Advances(E.Run(s, a), b)
    decreases |a|
  {
    hide E.Step;
    if a == [] {
      assert a + b == b;
    } else {
      assert (a + b)[1..] == a[1..] + b;
      AdvancesConcat(E.Step(s, a[0]), a[1..], b);
    }
  }

  /** Operations other than prunes and ticks spare every election and keep the slot. */
  lemma {:induction false} QuietOps(s: E.Elections, ops: seq<E.Op>, rb: Hash)
    requires forall i :: 0 <= i < |ops| ==> !ops[i].Prune? && !ops[i].Tick?
    ensures R.SparesAlong(s, ops, rb) && R.Advances(s, ops)
    decreases |ops|
  {
    hide E.Step;
    if ops != [] {
      QuietOps(E.Step(s, ops[0]), ops[1..], rb);
    }
  }

  lemma OneTick(s: E.Elections, slot: nat, rb: Hash)
    ensures R.SparesAlong(s, [E.Tick(slot)], rb)
    ensures slot >= s.currentSlot ==> R.Advances(s, [E.Tick(slot)])
  {
    hide E.Step;
    assert R.SparesAlong(E.Step(s, E.Tick(slot)), [], rb);
    assert R.Advances(E.Step(s, E.Tick(slot)), []);
  }

  lemma OnePrune(s: E.Elections, tip: TipContext, rb: Hash)
    ensures R.Advances(s, PruneOps(tip))
    ensures (tip.rbSlot.Some? && rb in s.elections ==> tip.rbSlot.value <= s.elections[rb].announcedSlot) ==>
              R.SparesAlong(s, PruneOps(tip), rb)
  {
    hide E.Step;
    if tip.rbSlot.Some? {
      var after := E.Step(s, E.Prune(tip.rbSlot.value));
      assert R.SparesAlong(after, [], rb) && R.Advances(after, []);
    }
  }

  lemma SlotSpares(v: Voting, slot: nat, around: Surroundings, rb: Hash)
    ensures NodeSpares(v, Slot(slot, around), rb) ==> R.SparesAlong(v.elections, SlotOps(v, slot, around), rb)
    ensures slot >= v.elections.currentSlot ==> R.Advances(v.elections, SlotOps(v, slot, around))
  {
    hide E.Run, MarkOps, VoteOnEach, E.Eligible, R.SparesAlong, R.Advances;
    var rbs := E.Eligible(v.elections, slot);
    assert forall i :: 0 <= i < |rbs| ==> rbs[i] in rbs;
    var u := Ticked(v, slot);
    var marks, tick := MarkOps(u, rbs, around), [E.Tick(slot)];
    var w := VoteOnEach(u, rbs, around).0;
    SparesConcat(v.elections, tick, marks + PruneOps(v.tip), rb);
    AdvancesConcat(v.elections, tick, marks + PruneOps(v.tip));
    SparesConcat(u.elections, marks, PruneOps(v.tip), rb);
    AdvancesConcat(u.elections, marks, PruneOps(v.tip));
    RunOne(v.elections, E.Tick(slot));
    OneTick(v.elections, slot, rb);
    MarksAreMarks(u, rbs, around);
    QuietOps(u.elections, marks, rb);
    MarksRun(u, rbs, around);
    VoteOnEachKeeps(u, rbs, around);
    OnePrune(w.elections, v.tip, rb);
  }

  lemma StepSpares(v: Voting, op: Op, rb: Hash)
    ensures NodeSpares(v, op, rb) ==> R.SparesAlong(v.elections, StepOps(v, op), rb)
    ensures (op.Slot? ==> op.slot >= v.elections.currentSlot) ==> R.Advances(v.elections, StepOps(v, op))
  {
    hide SlotOps, BallotOps, R.SparesAlong, R.Advances;
    if op.Slot? {
      SlotSpares(v, op.slot, op.around, rb);
    } else {
      if op.Votes? {
        BallotsAreVotes(v.elections, op.ballots);
      }
      QuietOps(v.elections, StepOps(v, op), rb);
    }
  }

  lemma {:induction false} NodeSparesRun(v: Voting, ops: seq<Op>, rb: Hash)
    ensures NodeSparesAlong(v, ops, rb) ==> R.SparesAlong(v.elections, RunOps(v, ops), rb)
    ensures NodeAdvances(v, ops) ==> R.Advances(v.elections, RunOps(v, ops))
    decreases |ops|
  {
    hide Step, StepOps, E.Run, NodeSpares;
    if ops != [] {
      StepSpares(v, ops[0], rb);
      StepRuns(v, ops[0]);
      SparesConcat(v.elections, StepOps(v, ops[0]), RunOps(Step(v, ops[0]), ops[1..]), rb);
      AdvancesConcat(v.elections, StepOps(v, ops[0]), RunOps(Step(v, ops[0]), ops[1..]));
      NodeSparesRun(Step(v, ops[0]), ops[1..], rb);
    }
  }

  /** As slots advance, what a node may certify stays certifiable, for the same slot, until the node
      prunes it. */
  lemma NodeCertifiableStays(v: Voting, ops: seq<Op>, rb: Hash)
    requires E.Inv(v.elections) && E.CertifiableSlot(v.elections, rb).Some?
    requires NodeSparesAlong(v, ops, rb) && NodeAdvances(v, ops)
    ensures E.CertifiableSlot(Run(v, ops).elections, rb) == E.CertifiableSlot(v.elections, rb)
  {
    hide E.Run, Run, RunOps;
    NodeRuns(v, ops);
    NodeSparesRun(v, ops, rb);
    R.CertifiableStays(v.elections, RunOps(v, ops), rb);
  }

  // ---------------------------------------------------------------------------
  // Quorum reports
  // ---------------------------------------------------------------------------

  /** The elections whose quorum a batch of votes reports, in the order of the reports. */
  ghost function FormedBy(s: E.Elections, ballots: seq<Ballot>): seq<Hash> {
    if ballots == [] then []
    else
      var n := |ballots| - 1;
      var b := ballots[n];
      var t := OnValidatedVotes(s, ballots[..n]).0;
      var weight := E.WeightFor(t.cfg, b.key, b.npvWins);
      FormedBy(s, ballots[..n])
      + if weight > 0 && E.RecordVote(t, b.rb, b.key, weight).1.Some? then [b.rb] else []
  }

  lemma {:induction false} ReportsAreFormed(s: E.Elections, ballots: seq<Ballot>)
    ensures |OnValidatedVotes(s, ballots).1| == |FormedBy(s, ballots)|
  {
    if ballots != [] {
      ReportsAreFormed(s, ballots[..|ballots| - 1]);
    }
  }

  lemma {:induction false} FormedConcat(s: E.Elections, a: seq<E.Op>, b: seq<E.Op>, rb: Hash)
    ensures R.TimesFormed(s, a + b, rb) == R.TimesFormed(s, a, rb) + R.TimesFormed(E.Run(s, a), b, rb)
    decreases |a|
  {
    hide E.Step, R.Forms;
    if a == [] {
      assert a + b == b;
    } else {
      assert (a + b)[1..] == a[1..] + b;
      FormedConcat(E.Step(s, a[0]), a[1..], b, rb);
    }
  }

  lemma FormedOne(s: E.Elections, op: E.Op, rb: Hash)
    ensures R.TimesFormed(s, [op], rb) == if R.Forms(s, op, rb) then 1 else 0
  {
    hide E.Step, R.Forms;
    assert R.TimesFormed(E.Step(s, op), [], rb) == 0;
  }

  lemma {:induction false} BallotsForm(s: E.Elections, ballots: seq<Ballot>, rb: Hash)
    ensures R.TimesFormed(s, BallotOps(s, ballots), rb) == multiset(FormedBy(s, ballots))[rb]
  {
    hide E.Run, R.TimesFormed, E.RecordVote;
    if ballots == [] {
      NoneForm(s, rb);
    } else {
      var n := |ballots| - 1;
      var b := ballots[n];
      var t := OnValidatedVotes(s, ballots[..n]).0;
      BallotsForm(s, ballots[..n], rb);
      BallotsRun(s, ballots[..n]);
      var weight := E.WeightFor(s.cfg, b.key, b.npvWins);
      var record := E.Record(b.rb, b.key, weight);
      if weight == 0 {
        assert BallotOps(s, ballots) == BallotOps(s, ballots[..n]);
      } else {
        FormedConcat(s, BallotOps(s, ballots[..n]), [record], rb);
        FormedOne(t, record, rb);
      }
    }
  }

  lemma NoneForm(s: E.Elections, rb: Hash)
    ensures R.TimesFormed(s, [], rb) == 0
  {
  }

  lemma {:induction false} OthersFormNone(s: E.Elections, ops: seq<E.Op>, rb: Hash)
    requires forall i :: 0 <= i < |ops| ==> !ops[i].Record?
    ensures R.TimesFormed(s, ops, rb) == 0
    decreases |ops|
  {
    hide E.Step;
    if ops != [] {
      OthersFormNone(E.Step(s, ops[0]), ops[1..], rb);
    }
  }

  ghost function NodeFormed(v: Voting, ops: seq<Op>): seq<Hash>
    decreases |ops|
  {
    if ops == [] then []
    else (if ops[0].Votes? then FormedBy(v.elections, ops[0].ballots) else [])
         + NodeFormed(Step(v, ops[0]), ops[1..])
  }

  lemma StepForms(v: Voting, op: Op, rb: Hash)
    ensures R.TimesFormed(v.elections, StepOps(v, op), rb) ==
            multiset(if op.Votes? then FormedBy(v.elections, op.ballots) else [])[rb]
  {
    hide SlotOps, BallotOps, FormedBy, R.TimesFormed;
    if op.Votes? {
      BallotsForm(v.elections, op.ballots, rb);
    } else {
      if op.Slot? {
        OnlyVotesRecord(v, op);
      }
      OthersFormNone(v.elections, StepOps(v, op), rb);
    }
  }

  lemma {:induction false} NodeFormedCounts(v: Voting, ops: seq<Op>, rb: Hash)
    ensures R.TimesFormed(v.elections, RunOps(v, ops), rb) == multiset(NodeFormed(v, ops))[rb]
    decreases |ops|
  {
    hide Step, StepOps, E.Run, R.TimesFormed, FormedBy;
    if ops == [] {
      NoneForm(v.elections, rb);
    } else {
      StepForms(v, ops[0], rb);
      StepRuns(v, ops[0]);
      FormedConcat(v.elections, StepOps(v, ops[0]), RunOps(Step(v, ops[0]), ops[1..]), rb);
      NodeFormedCounts(Step(v, ops[0]), ops[1..], rb);
    }
  }

  /** A node reports the quorum of an election it does not prune once if it is reached, and else
      never. */
  lemma NodeQuorumFormsOnce(v: Voting, ops: seq<Op>, rb: Hash)
    requires NodeSparesAlong(v, ops, rb)
    ensures (if R.AtQuorum(v.elections, rb) then 1 else 0) + multiset(NodeFormed(v, ops))[rb]
            == if R.AtQuorum(Run(v, ops).elections, rb) then 1 else 0
  {
    hide E.Run, Run, RunOps, NodeFormed;
    NodeRuns(v, ops);
    NodeSparesRun(v, ops, rb);
    NodeFormedCounts(v, ops, rb);
    R.QuorumFormsOnce(v.elections, RunOps(v, ops), rb);
  }
}
