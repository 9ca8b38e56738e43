/** The voting half of the Leios state machine, updated in place. */
module LeiosVoting {
  import opened Types
  import opened Collections
  import E = ElectionsModel
  import ElectionState
  import V = VotingModel

  /** Scans the manifest for transactions that are not at hand. */
  method ScanManifest(txs: seq<TxId>, known: TxId -> V.TxAvailability)
    returns (decline: bool, pinned: nat, unpinned: nat)
    ensures decline <==> !V.AllPresent(txs, known)
    ensures pinned == V.CountPresent(txs, known, true) && unpinned == V.CountPresent(txs, known, false)
  {
    decline, pinned, unpinned := false, 0, 0;
    for i := 0 to |txs|
      invariant decline <==> !V.AllPresent(txs[..i], known)
      invariant pinned == V.CountPresent(txs[..i], known, true)
      invariant unpinned == V.CountPresent(txs[..i], known, false)
    {
      assert txs[..i + 1][..i] == txs[..i];
      match known(txs[i])
      case Absent =>
        decline := true;
      case Present(isPinned) =>
        if isPinned {
          pinned := pinned + 1;
        } else {
          unpinned := unpinned + 1;
        }
    }
    assert txs[..|txs|] == txs;
  }

  method RetainManifests(m: map<Hash, (nat, seq<TxId>)>, min: nat) returns (kept: map<Hash, (nat, seq<TxId>)>)
    ensures kept == V.FromSlot(m, min)
  {
    kept := RetainMap(m, (_: Hash, entry: (nat, seq<TxId>)) => entry.0 >= min);
    assert kept == V.FromSlot(m, min);
  }

  method RetainSlots(m: map<Hash, nat>, min: nat) returns (kept: map<Hash, nat>)
    ensures kept == V.SlotsFrom(m, min)
  {
    kept := RetainMap(m, (_: Hash, slot: nat) => slot >= min);
    assert kept == V.SlotsFrom(m, min);
  }

  class LeiosVoting {
    var v: V.Voting

    constructor (cfg: E.Config, voting: V.VotingConfig, pipeline: E.Pipeline)
      ensures v == V.Voting(E.EmptyElections(cfg), voting, pipeline, map[], map[], map[],
                            V.TipContext({}, None, None, None, None), V.Honest)
    {
      v := V.Voting(E.EmptyElections(cfg), voting, pipeline, map[], map[], map[],
                    V.TipContext({}, None, None, None, None), V.Honest);
    }

    method SetChainTipContext(tip: V.TipContext)
      modifies this
      ensures v == V.SetChainTip(old(v), tip)
    {
      if tip.rbHash.Some? && tip.rbSlot.Some? && tip.ebAnnouncement.Some? {
        var eb := tip.ebAnnouncement.value;
        v := v.(elections := E.AnnounceFromRb(v.elections, tip.rbHash.value, tip.rbSlot.value, eb));
        if eb in v.validatedBodies {
          var marked := ElectionState.ValidateEach(v.elections, eb);
          v := v.(elections := marked);
        }
      }
      v := v.(tip := tip);
    }

    method DecideVote(rb: Hash, around: V.Surroundings) returns (decision: V.Decision)
      requires rb in v.elections.elections
      ensures decision == V.Decide(v, rb, around)
    {
      var e := v.elections.elections[rb];
      var votingEnd := 3 * v.pipeline.deltaHdr + v.pipeline.voteWindow;
      if SaturatingSub(e.seenSlot, e.announcedSlot) >= votingEnd {
        return V.Refuse(V.LateEB);
      }
      if v.tip.headerArrival.None? {
        return V.Refuse(V.NoChainTip);
      }
      if v.tip.rbHash != Some(rb) {
        return V.Refuse(V.WrongEB);
      }
      if v.tip.headerArrival.value >= e.announcedSlot + v.pipeline.deltaHdr {
        return V.Refuse(V.LateRBHeader);
      }
      if e.announcedSlot in v.tip.equivocatingSlots {
        return V.Refuse(V.EquivocatingRB);
      }
      if e.ebHash in v.manifests {
        var txs := v.manifests[e.ebHash].1;
        var decline, pinned, unpinned := ScanManifest(txs, around.txKnown);
        if decline {
          return V.Refuse(V.MissingTX(|txs|, pinned, unpinned));
        }
      }
      if !e.bodyValidated {
        return V.Refuse(V.EBValidating);
      }
      var persistent := v.cfg.persistentSeats > 0;
      var nonPersistent := false;
      if !persistent && v.cfg.nonPersistentVoters != 0 {
        nonPersistent := around.npvWins(e.ebHash, e.announcedSlot) > 0;
      }
      return V.Cast(persistent, nonPersistent);
    }

    method MarkVoted(rb: Hash)
      modifies this
      ensures v == V.Done(old(v), rb)
    {
      v := v.(elections := E.MarkVoted(v.elections, rb));
    }

    method VoteOn(rb: Hash, around: V.Surroundings) returns (fx: seq<V.Effect>)
      requires rb in v.elections.elections
      modifies this
      ensures (v, fx) == V.VoteOn(old(v), rb, around)
    {
      var e := v.elections.elections[rb];
      if !v.cfg.evaluateVotes {
        MarkVoted(rb);
        return [];
      }
      var honest := DecideVote(rb, around);
      var resolved := match v.policy case Honest => honest case Abstain(reason) => V.Refuse(reason);
      match resolved
      case Cast(persistent, nonPersistent) =>
        if persistent || nonPersistent {
          MarkVoted(rb);
          fx := [V.EmitVote(e.announcedSlot, e.ebHash, rb, persistent, nonPersistent)];
        } else {
          if !v.cfg.retryInWindow {
            MarkVoted(rb);
          }
          fx := [];
        }
      case Refuse(reason) =>
        if reason == V.LateEB || !v.cfg.retryInWindow {
          MarkVoted(rb);
        }
        fx := [V.NoVote(e.announcedSlot, e.ebHash, reason)];
    }

    method OnSlot(slot: nat, around: V.Surroundings) returns (fx: seq<V.Effect>)
      modifies this
      ensures (v, fx) == V.OnSlot(old(v), slot, around)
    {
      hide V.VoteOnEach, V.PruneChainProgress, E.Eligible;
      var eligible := ElectionState.CollectEligible(v.elections, slot);
      assert forall i :: 0 <= i < |eligible| ==> eligible[i] in eligible;
      var refreshed := ElectionState.RefreshEach(v.elections, slot);
      v := v.(elections := refreshed);
      fx := VoteOnEach(eligible, around);
      if v.tip.rbSlot.Some? {
        PruneChainProgress(v.tip.rbSlot.value);
      }
    }

    method PruneChainProgress(minKeep: nat)
      modifies this
      ensures v == V.PruneChainProgress(old(v), minKeep)
    {
      hide V.FromSlot, V.SlotsFrom, E.PruneBelowSlot;
      var manifests := RetainManifests(v.manifests, minKeep);
      var endorsed := RetainSlots(v.endorsedUnvalidated, minKeep);
      var validated := RetainSlots(v.validatedBodies, minKeep);
      var elections := ElectionState.DropBelow(v.elections, minKeep);
      v := v.(manifests := manifests, endorsedUnvalidated := endorsed, validatedBodies := validated,
              elections := elections);
    }

    method VoteOnEach(eligible: seq<Hash>, around: V.Surroundings) returns (fx: seq<V.Effect>)
      requires forall i :: 0 <= i < |eligible| ==> eligible[i] in v.elections.elections
      modifies this
      ensures (v, fx) == V.VoteOnEach(old(v), eligible, around)
    {
      ghost var before := v;
      fx := [];
      for i := 0 to |eligible|
        invariant v.elections.elections.Keys == before.elections.elections.Keys
        invariant (v, fx) == V.VoteOnEach(before, eligible[..i], around)
      {
        assert eligible[..i + 1][..i] == eligible[..i];
        var more := VoteOn(eligible[i], around);
        fx := fx + more;
      }
      assert eligible[..|eligible|] == eligible;
    }

    method OnValidatedEb(point: Point)
      modifies this
      ensures v == V.OnValidatedEb(old(v), point)
    {
      if point.Origin? {
        return;
      }
      v := v.(validatedBodies := v.validatedBodies[point.hash := point.slot]);
      var marked := ElectionState.ValidateEach(v.elections, point.hash);
      v := v.(elections := marked);
      v := v.(endorsedUnvalidated := v.endorsedUnvalidated - {point.hash});
    }

    method OnChainEndorsement(slot: nat, eb: Hash)
      modifies this
      ensures v == V.OnChainEndorsement(old(v), slot, eb)
    {
      if V.EbBodyValidated(v.elections, eb) {
        return;
      }
      if eb !in v.endorsedUnvalidated {
        v := v.(endorsedUnvalidated := v.endorsedUnvalidated[eb := slot]);
      }
    }

    method OnValidatedVotes(ballots: seq<V.Ballot>) returns (formed: seq<E.QuorumFormed>)
      modifies this
      ensures v == old(v).(elections := V.OnValidatedVotes(old(v.elections), ballots).0)
      ensures formed == V.OnValidatedVotes(old(v.elections), ballots).1
    {
      ghost var before := v.elections;
      formed := [];
      var tally := new ElectionState.Elections(v.elections.cfg);
      tally.e := v.elections;
      for i := 0 to |ballots|
        invariant v == old(v)
        invariant (tally.e, formed) == V.OnValidatedVotes(before, ballots[..i])
      {
        assert ballots[..i + 1][..i] == ballots[..i];
        var b := ballots[i];
        var weight := E.WeightFor(tally.e.cfg, b.key, b.npvWins);
        if weight != 0 {
          var f := tally.RecordVote(b.rb, b.key, weight);
          if f.Some? {
            formed := formed + [f.value];
          }
        }
      }
      assert ballots[..|ballots|] == ballots;
      v := v.(elections := tally.e);
    }

    /** Caches the manifest that came with an EB. */
    method OnEbReceived(point: Point, manifest: Option<seq<TxId>>)
      modifies this
      ensures v == V.OnEbReceived(old(v), point, manifest)
    {
      if point.Specific? && manifest.Some? {
        v := v.(manifests := v.manifests[point.hash := (point.slot, manifest.value)]);
      }
    }

    method ApplyControl(policy: V.VotePolicy)
      modifies this
      ensures v == old(v).(policy := policy)
    {
      v := v.(policy := policy);
    }

    /** Any operation takes the model's step; what it votes for is what the model votes for. */
    method Perform(op: V.Op) returns (fx: seq<V.Effect>)
      modifies this
      ensures v == V.Step(old(v), op) && V.VotesIn(fx) == V.VotesBy(old(v), op)
    {
      hide V.OnSlot, V.SetChainTip, V.OnValidatedEb, V.OnValidatedVotes, V.OnChainEndorsement, V.OnEbReceived;
      fx := [];
      match op
      case TipChanged(tip) => SetChainTipContext(tip);
      case Slot(slot, around) => fx := OnSlot(slot, around);
      case ValidatedEb(point) => OnValidatedEb(point);
      case EbReceived(point, manifest) => OnEbReceived(point, manifest);
      case Votes(ballots) => var _ := OnValidatedVotes(ballots);
      case Endorsement(slot, eb) => OnChainEndorsement(slot, eb);
      case Control(policy) => ApplyControl(policy);
    }
  }
}
