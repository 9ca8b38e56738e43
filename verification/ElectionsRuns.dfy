/** What holds of elections over whole runs. */
module ElectionsRuns {
  import opened Types
  import opened Sums
  import opened ElectionsModel

  /** The op does not prune the election of `rb`. */
  ghost predicate Spares(s: Elections, op: Op, rb: Hash) {
    op.Prune? && rb in s.elections ==> op.min <= s.elections[rb].announcedSlot
  }

  ghost predicate SparesAlong(s: Elections, ops: seq<Op>, rb: Hash)
    decreases |ops|
  {
    ops == [] || (Spares(s, ops[0], rb) && SparesAlong(Step(s, ops[0]), ops[1..], rb))
  }

  // ---------------------------------------------------------------------------
  // Quorum forms exactly once
  // ---------------------------------------------------------------------------

  ghost predicate AtQuorum(s: Elections, rb: Hash) {
    rb in s.elections && s.elections[rb].quorumReached
  }

  ghost predicate Forms(s: Elections, op: Op, rb: Hash) {
    op.Record? && op.rb == rb && RecordVote(s, rb, op.key, op.weight).1.Some?
  }

  ghost function TimesFormed(s: Elections, ops: seq<Op>, rb: Hash): nat
    decreases |ops|
  {
    if ops == [] then 0 else (if Forms(s, ops[0], rb) then 1 else 0) + TimesFormed(Step(s, ops[0]), ops[1..], rb)
  }

  lemma StepForms(s: Elections, op: Op, rb: Hash)
    requires Spares(s, op, rb)
    ensures AtQuorum(Step(s, op), rb) <==> AtQuorum(s, rb) || Forms(s, op, rb)
    ensures !(AtQuorum(s, rb) && Forms(s, op, rb))
  {
  }

  /** An election that is not pruned reports its quorum once if it reaches it, and else never. */
  lemma {:induction false} QuorumFormsOnce(s: Elections, ops: seq<Op>, rb: Hash)
    requires SparesAlong(s, ops, rb)
    ensures (if AtQuorum(s, rb) then 1 else 0) + TimesFormed(s, ops, rb) == if AtQuorum(Run(s, ops), rb) then 1 else 0
    decreases |ops|
  {
    if ops != [] {
      StepForms(s, ops[0], rb);
      QuorumFormsOnce(Step(s, ops[0]), ops[1..], rb);
    }
  }

  // ---------------------------------------------------------------------------
  // Votes count as a set
  // ---------------------------------------------------------------------------

  ghost function VotersIn(ops: seq<Op>, rb: Hash): set<VoterKey> {
    if ops == [] then {}
    else VotersIn(ops[1..], rb) + if ops[0].Record? && ops[0].rb == rb then {ops[0].key} else {}
  }

  /** Every vote for `rb` carries the weight that `w` gives its voter. */
  ghost predicate Weighs(ops: seq<Op>, rb: Hash, w: VoterKey -> nat) {
    forall i :: 0 <= i < |ops| && ops[i].Record? && ops[i].rb == rb ==> ops[i].weight == w(ops[i].key)
  }

  ghost function WeightsOf(keys: set<VoterKey>, w: VoterKey -> nat): map<VoterKey, nat> {
    map key | key in keys :: w(key)
  }

  lemma StepCollects(s: Elections, op: Op, rb: Hash, keys: set<VoterKey>, w: VoterKey -> nat)
    requires rb in s.elections && s.elections[rb].voterWeights == WeightsOf(keys, w)
    requires Spares(s, op, rb) && (op.Record? && op.rb == rb ==> op.weight == w(op.key))
    ensures rb in Step(s, op).elections
    ensures Step(s, op).elections[rb].voterWeights == WeightsOf(keys + VotersIn([op], rb), w)
  {
    assert VotersIn([op], rb) == if op.Record? && op.rb == rb then {op.key} else {};
    if op.Record? && op.rb == rb && op.key !in keys {
      assert WeightsOf(keys + {op.key}, w) == WeightsOf(keys, w)[op.key := w(op.key)];
    } else {
      assert keys + VotersIn([op], rb) == keys;
    }
  }

  /** What a run leaves of the votes for an election is the set of voters, each at its weight. */
  lemma {:induction false} RunCollects(s: Elections, ops: seq<Op>, rb: Hash, keys: set<VoterKey>, w: VoterKey -> nat)
    requires rb in s.elections && s.elections[rb].voterWeights == WeightsOf(keys, w)
    requires SparesAlong(s, ops, rb) && Weighs(ops, rb, w)
    ensures rb in Run(s, ops).elections
    ensures Run(s, ops).elections[rb].voterWeights == WeightsOf(keys + VotersIn(ops, rb), w)
    decreases |ops|
  {
    if ops == [] {
      assert keys + {} == keys;
    } else {
      StepCollects(s, ops[0], rb, keys, w);
      var more := keys + VotersIn([ops[0]], rb);
      RunCollects(Step(s, ops[0]), ops[1..], rb, more, w);
      assert keys + VotersIn(ops, rb) == more + VotersIn(ops[1..], rb);
    }
  }

  /** Quorum is a function of the set of voters: the order of the votes, repeats, and whatever else
      happens in between make no difference. */
  lemma QuorumIsOfTheSet(s: Elections, ops: seq<Op>, rb: Hash, w: VoterKey -> nat)
    requires Inv(s) && rb in s.elections && s.elections[rb].voterWeights == map[]
    requires SparesAlong(s, ops, rb) && Weighs(ops, rb, w)
    ensures var voters := VotersIn(ops, rb);
            AtQuorum(Run(s, ops), rb) <==>
            && voters != {}
            && Sum(WeightsOf(voters, w)) >= Threshold(s.cfg.quorumFraction, s.cfg.expectedWeight)
  {
    var voters := VotersIn(ops, rb);
    assert WeightsOf({}, w) == map[];
    RunCollects(s, ops, rb, {}, w);
    RunKeepsInv(s, ops);
    assert {} + voters == voters;
    assert WeightsOf(voters, w).Keys == voters;
  }

  // ---------------------------------------------------------------------------
  // Certification
  // ---------------------------------------------------------------------------

  /** A certifiable election has its quorum and is past all three windows. */
  lemma CertifiableIsDue(s: Elections, rb: Hash)
    requires Inv(s)
    ensures CertifiableSlot(s, rb).Some? <==>
            && rb in s.elections
            && HasQuorum(s.cfg, s.elections[rb].voterWeights)
            && SaturatingSub(s.currentSlot, s.elections[rb].announcedSlot)
               >= 3 * s.cfg.pipeline.deltaHdr + s.cfg.pipeline.voteWindow + s.cfg.pipeline.diffuseWindow
  {
    if rb in s.elections {
      assert Sound(s, s.elections[rb]);
    }
  }

  ghost predicate Advances(s: Elections, ops: seq<Op>)
    decreases |ops|
  {
    ops == [] || ((ops[0].Tick? ==> ops[0].slot >= s.currentSlot) && Advances(Step(s, ops[0]), ops[1..]))
  }

  lemma StepKeepsCertifiable(s: Elections, op: Op, rb: Hash)
    requires Inv(s) && CertifiableSlot(s, rb).Some? && Spares(s, op, rb)
    requires op.Tick? ==> op.slot >= s.currentSlot
    ensures CertifiableSlot(Step(s, op), rb) == CertifiableSlot(s, rb)
  {
    assert Sound(s, s.elections[rb]);
  }

  /** Once certifiable, always certifiable, for the same slot, until pruned. */
  lemma {:induction false} CertifiableStays(s: Elections, ops: seq<Op>, rb: Hash)
    requires Inv(s) && CertifiableSlot(s, rb).Some? && SparesAlong(s, ops, rb) && Advances(s, ops)
    ensures CertifiableSlot(Run(s, ops), rb) == CertifiableSlot(s, rb)
    decreases |ops|
  {
    if ops != [] {
      StepKeepsCertifiable(s, ops[0], rb);
      StepKeepsInv(s, ops[0]);
      CertifiableStays(Step(s, ops[0]), ops[1..], rb);
    }
  }
}
