/** The election state machine, updated in place. */
module ElectionState {
  import opened Types
  import opened Ordered
  import opened Sums
  import opened Collections
  import E = ElectionsModel

  /** The total of a map's values, by iteration. */
  method SumValues(m: map<E.VoterKey, nat>) returns (total: nat)
    ensures total == Sum(m)
  {
    total := 0;
    var rest := m;
    while rest != map[]
      invariant total + Sum(rest) == Sum(m)
      decreases |rest|
    {
      var k :| k in rest;
      SumAt(rest, k);
      total := total + rest[k];
      rest := rest - {k};
    }
  }

  /** The first pass of a slot, in key order. */
  method CollectEligible(s: E.Elections, slot: nat) returns (eligible: seq<Hash>)
    ensures eligible == E.Eligible(s, slot)
  {
    var keys := Ascending(s.elections.Keys);
    ghost var allowed := E.EligibleSet(s, slot);
    eligible := [];
    for i := 0 to |keys|
      invariant eligible == Where(keys[..i], allowed)
    {
      WhereNext(keys, allowed, i);
      assert keys[i] in s.elections.Keys;
      var election := s.elections[keys[i]];
      if E.PhaseFor(s.cfg.pipeline, SaturatingSub(slot, election.announcedSlot)) == E.Voting && !election.voted {
        eligible := eligible + [keys[i]];
      }
    }
    assert keys[..|keys|] == keys;
    WhereIsAscending(keys, allowed);
  }

  ghost function DroppedBelow(s: E.Elections, min: nat): set<Hash> {
    set rb | rb in s.elections && s.elections[rb].announcedSlot < min
  }

  lemma TalliesNext(s: E.Elections, rbs: seq<Hash>, rb: Hash)
    requires forall r :: r in rbs ==> r in s.elections
    requires rb in s.elections
    ensures E.Tallies(s, rbs + [rb]) == E.Tallies(s, rbs) + [E.Tally(s.cfg, s.elections[rb])]
  {
    assert (rbs + [rb])[..|rbs|] == rbs;
  }

  /** The final tallies of what a prune drops, in key order. */
  method CollectTallies(s: E.Elections, min: nat) returns (expired: seq<E.Expired>)
    ensures expired == E.Tallies(s, Ascending(DroppedBelow(s, min)))
  {
    var keys := Ascending(s.elections.Keys);
    ghost var gone := DroppedBelow(s, min);
    expired := [];
    ghost var dropped: seq<Hash> := [];
    for i := 0 to |keys|
      invariant dropped == Where(keys[..i], gone)
      invariant forall rb :: rb in dropped ==> rb in s.elections
      invariant expired == E.Tallies(s, dropped)
    {
      WhereNext(keys, gone, i);
      assert keys[i] in s.elections.Keys;
      var election := s.elections[keys[i]];
      if election.announcedSlot < min {
        var tally := TallyOf(s.cfg, election);
        TalliesNext(s, dropped, keys[i]);
        dropped := dropped + [keys[i]];
        expired := expired + [tally];
      }
    }
    assert keys[..|keys|] == keys;
    WhereIsAscending(keys, gone);
  }

  method TallyOf(cfg: E.Config, election: E.Election) returns (tally: E.Expired)
    ensures tally == E.Tally(cfg, election)
  {
    var votedWeight := SumValues(election.voterWeights);
    tally := E.Expired(election.ebHash, election.announcedSlot, election.quorumReached,
                       votedWeight, |election.voterWeights|, cfg.expectedWeight);
  }

  /** Marks every election of the EB. */
  method ValidateEach(s: E.Elections, eb: Hash) returns (t: E.Elections)
    ensures t == E.MarkBodyValidated(s, eb)
  {
    var elections := s.elections;
    var todo := elections.Keys;
    while todo != {}
      invariant todo <= s.elections.Keys && elections.Keys == s.elections.Keys
      invariant forall rb :: rb in s.elections ==>
                  elections[rb] == if rb in todo then s.elections[rb] else E.Validated(s.elections[rb], eb)
      decreases |todo|
    {
      var rb :| rb in todo;
      todo := todo - {rb};
      if elections[rb].ebHash == eb {
        elections := elections[rb := elections[rb].(bodyValidated := true)];
      }
    }
    assert elections == E.MarkBodyValidated(s, eb).elections;
    t := s.(elections := elections);
  }

  /** Moves every election to its phase at the slot. */
  method RefreshEach(s: E.Elections, slot: nat) returns (t: E.Elections)
    ensures t == E.OnSlot(s, slot)
  {
    var elections := s.elections;
    var todo := elections.Keys;
    while todo != {}
      invariant todo <= s.elections.Keys && elections.Keys == s.elections.Keys
      invariant forall rb :: rb in s.elections ==>
                  elections[rb] == if rb in todo then s.elections[rb]
                                   else E.Refreshed(s.cfg.pipeline, s.elections[rb], slot)
      decreases |todo|
    {
      var rb :| rb in todo;
      todo := todo - {rb};
      var phase := E.PhaseFor(s.cfg.pipeline, SaturatingSub(slot, elections[rb].announcedSlot));
      elections := elections[rb := elections[rb].(phase := phase)];
    }
    assert elections == E.OnSlot(s, slot).elections;
    t := E.Elections(s.cfg, slot, elections);
  }

  method DropBelow(s: E.Elections, min: nat) returns (t: E.Elections)
    ensures t == E.PruneBelowSlot(s, min)
  {
    var kept := RetainMap(s.elections, (_: Hash, election: E.Election) => election.announcedSlot >= min);
    assert kept == E.PruneBelowSlot(s, min).elections;
    t := s.(elections := kept);
  }

  class Elections {
    var e: E.Elections

    constructor (cfg: E.Config)
      ensures e == E.EmptyElections(cfg)
    {
      e := E.EmptyElections(cfg);
    }

    method AnnounceFromRb(rb: Hash, slot: nat, eb: Hash) returns (inserted: bool)
      modifies this
      ensures e == E.AnnounceFromRb(old(e), rb, slot, eb) && inserted == (rb !in old(e.elections))
    {
      if rb in e.elections {
        return false;
      }
      var phase := E.PhaseFor(e.cfg.pipeline, SaturatingSub(e.currentSlot, slot));
      var election := E.Election(eb, slot, phase, e.currentSlot, false, map[], false, false);
      e := e.(elections := e.elections[rb := election]);
      return true;
    }

    method MarkBodyValidated(eb: Hash)
      modifies this
      ensures e == E.MarkBodyValidated(old(e), eb)
    {
      e := ValidateEach(e, eb);
    }

    /** Advances to the slot; the result lists the elections to vote in, by announcing block. */
    method OnSlot(slot: nat) returns (eligible: seq<Hash>)
      modifies this
      ensures e == E.OnSlot(old(e), slot) && eligible == E.Eligible(old(e), slot)
    {
      eligible := CollectEligible(e, slot);
      e := RefreshEach(e, slot);
    }

    method MarkVoted(rb: Hash)
      modifies this
      ensures e == E.MarkVoted(old(e), rb)
    {
      if rb in e.elections {
        e := e.(elections := e.elections[rb := e.elections[rb].(voted := true)]);
      }
    }

    method RecordVote(rb: Hash, key: E.VoterKey, weight: nat) returns (formed: Option<E.QuorumFormed>)
      modifies this
      ensures (e, formed) == E.RecordVote(old(e), rb, key, weight)
    {
      if rb !in e.elections {
        return None;
      }
      if key in e.elections[rb].voterWeights {
        return None;
      }
      var election := e.elections[rb].(voterWeights := e.elections[rb].voterWeights[key := weight]);
      e := e.(elections := e.elections[rb := election]);
      if election.quorumReached {
        return None;
      }
      var votedWeight := SumValues(election.voterWeights);
      if votedWeight < E.Threshold(e.cfg.quorumFraction, e.cfg.expectedWeight) {
        return None;
      }
      e := e.(elections := e.elections[rb := election.(quorumReached := true)]);
      assert e == E.RecordVote(old(e), rb, key, weight).0;
      formed := Some(E.QuorumFormed(
                       election.announcedSlot, votedWeight, |election.voterWeights|, e.cfg.expectedWeight));
    }

    /** Drops the elections announced below the slot and reports the final tally of each, by
        announcing block. */
    method PruneBelowSlot(min: nat) returns (expired: seq<E.Expired>)
      modifies this
      ensures e == E.PruneBelowSlot(old(e), min)
      ensures e.elections.Keys == old(e.elections.Keys) - DroppedBelow(old(e), min)
      ensures expired == E.Tallies(old(e), Ascending(DroppedBelow(old(e), min)))
    {
      expired := CollectTallies(e, min);
      e := DropBelow(e, min);
    }
  }
}
