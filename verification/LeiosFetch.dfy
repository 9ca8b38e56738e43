/** The fetch half of the Leios state machine, updated in place. */
module LeiosFetch {
  import opened Types
  import opened Ordered
  import opened Bitmap
  import opened Collections
  import F = FetchModel
  import M = MempoolModel

  /** The source's fields are the components of the record `f`, updated one at a time. */
  class LeiosFetch {
    var f: F.Fetch

    constructor (maxWaves: nat)
      ensures f == F.EmptyFetch(maxWaves)
    {
      f := F.EmptyFetch(maxWaves);
    }

    method EvictStaleInFlight(now: nat)
      modifies this
      ensures f == F.EvictStale(old(f), now)
    {
      var fresh' := RetainMap(f.inFlight, (_: Point, at: nat) => SaturatingSub(now, at) < F.IN_FLIGHT_TTL);
      assert fresh' == F.EvictStale(f, now).inFlight;
      f := f.(inFlight := fresh');
    }

    method OnEbOffered(point: Point, peer: PeerId, now: nat, policy: F.Policy) returns (fx: seq<F.Effect>)
      modifies this
      ensures (f, fx) == F.OnEbOffered(old(f), point, peer, now, policy)
    {
      f := f.(tracker := f.tracker.(ebOffers := F.AddAt(f.tracker.ebOffers, point, {peer})));
      fx := DoEbFetch(point, now, policy);
    }

    method DoEbFetch(point: Point, now: nat, policy: F.Policy) returns (fx: seq<F.Effect>)
      modifies this
      ensures (f, fx) == F.DoEbFetch(old(f), point, now, policy)
    {
      EvictStaleInFlight(now);
      if point in f.inFlight {
        return [];
      }
      var candidates := Ascending(F.AvailableEbCandidates(f.tracker, point));
      var peers := policy(candidates);
      if peers == [] {
        return [];
      }
      var started := StartEbFetch(point, peers);
      if !started {
        return [];
      }
      f := f.(inFlight := f.inFlight[point := now]);
      fx := [F.FetchLeiosBlock(point, peers)];
    }

    /** Refuses, without a change, when one of the peers is pending for the EB. */
    method StartEbFetch(point: Point, peers: seq<PeerId>) returns (started: bool)
      modifies this
      ensures started <==> Elements(peers) * F.At(old(f.tracker.pendingEb), point) == {}
      ensures f == if !started then old(f)
                   else old(f).(tracker := old(f.tracker).(
                     pendingEb := F.AddAt(old(f.tracker.pendingEb), point, Elements(peers))))
    {
      if point in f.tracker.pendingEb {
        var i := 0;
        while i < |peers|
          invariant 0 <= i <= |peers|
          invariant forall j :: 0 <= j < i ==> peers[j] !in f.tracker.pendingEb[point]
          invariant f == old(f)
        {
          if peers[i] in f.tracker.pendingEb[point] {
            assert peers[i] in Elements(peers) * F.At(f.tracker.pendingEb, point);
            return false;
          }
          i := i + 1;
        }
      }
      f := f.(tracker := f.tracker.(pendingEb := F.AddAt(f.tracker.pendingEb, point, Elements(peers))));
      return true;
    }

    /** True when no pending request for the point remains. */
    method FinishEbFetch(source: PeerId, point: Point) returns (done: bool)
      modifies this
      ensures var rest := F.At(old(f.tracker.pendingEb), point) - {source};
              && done == (point !in old(f.tracker.pendingEb) || rest == {})
              && f == old(f).(tracker := old(f.tracker).(
                   pendingEb := if done then old(f.tracker.pendingEb) - {point}
                                else old(f.tracker.pendingEb)[point := rest]))
    {
      if point !in f.tracker.pendingEb {
        assert f.tracker.pendingEb - {point} == f.tracker.pendingEb;
        return true;
      }
      var rest := f.tracker.pendingEb[point] - {source};
      f := f.(tracker := f.tracker.(pendingEb := f.tracker.pendingEb[point := rest]));
      if rest != {} {
        return false;
      }
      assert f.tracker.pendingEb - {point} == old(f.tracker.pendingEb) - {point};
      f := f.(tracker := f.tracker.(pendingEb := f.tracker.pendingEb - {point}));
      return true;
    }

    method OnEbFetchFailed(source: PeerId, point: Point)
      modifies this
      ensures f == F.FinishEb(old(f), source, point)
    {
      var done := FinishEbFetch(source, point);
      if done {
        f := f.(inFlight := f.inFlight - {point});
      }
    }

    method OnEbReceived(source: Option<PeerId>, point: Point, manifest: Option<seq<TxId>>)
      returns (fx: seq<F.Effect>)
      modifies this
      ensures (f, fx) == F.OnEbReceived(old(f), source, point, manifest)
    {
      if source.Some? {
        OnEbFetchFailed(source.value, point);
      }
      fx := [];
      if manifest.Some? && point.Specific? {
        f := f.(ebTxHashes := f.ebTxHashes[point.hash := (point.slot, manifest.value)]);
        fx := [F.RecordLeiosEbManifest(source, point, manifest.value)];
      }
      fx := fx + [F.ValidateEb(point)];
      assert fx == F.OnEbReceived(old(f), source, point, manifest).1;
    }

    method OnEbTxsOffered(point: Point, peer: PeerId, bitmap: Bitmap, now: nat, policy: F.Policy)
      returns (fx: seq<F.Effect>)
      modifies this
      ensures (f, fx) == F.OnEbTxsOffered(old(f), point, peer, bitmap, now, policy)
    {
      if f.maxWaves == 0 {
        return [];
      }
      EvictStaleInFlight(now);
      if point.Origin? {
        return [];
      }
      f := f.(tracker := f.tracker.(ebTxsOffers := F.AddAt(f.tracker.ebTxsOffers, point, {peer})));
      fx := InitiateFirstEbTxsFetch(point, bitmap, now, policy);
    }

    method InitiateFirstEbTxsFetch(point: Point, bitmap: Bitmap, now: nat, policy: F.Policy)
      returns (fx: seq<F.Effect>)
      modifies this
      ensures (f, fx) == F.InitiateFirstEbTxsFetch(old(f), point, bitmap, now, policy)
    {
      if f.maxWaves == 0 || bitmap == map[] {
        return [];
      }
      if point !in f.waves {
        f := f.(waves := f.waves[point := 1]);
      }
      fx := InitiateEbTxsFetch(point, bitmap, now, policy);
    }

    method InitiateNextLeiosFetchTxsWave(point: Point, bitmap: Bitmap, now: nat, policy: F.Policy)
      returns (fx: seq<F.Effect>)
      modifies this
      ensures (f, fx) == F.InitiateNextWave(old(f), point, bitmap, now, policy)
    {
      if point !in f.waves {
        return [];
      }
      if f.waves[point] >= f.maxWaves {
        return [];
      }
      f := f.(waves := f.waves[point := f.waves[point] + 1]);
      f := f.(tracker := f.tracker.(ebTxsAttempts := f.tracker.ebTxsAttempts - {point}));
      fx := InitiateEbTxsFetch(point, bitmap, now, policy);
    }

    method InitiateEbTxsFetch(point: Point, bitmap: Bitmap, now: nat, policy: F.Policy)
      returns (fx: seq<F.Effect>)
      modifies this
      ensures (f, fx) == F.InitiateEbTxsFetch(old(f), point, bitmap, now, policy)
    {
      if bitmap == map[] {
        return [];
      }
      if point.Origin? {
        return [];
      }
      var gate := Specific(point.slot, F.GATE_HASH);
      if gate in f.inFlight {
        return [];
      }
      var candidates := Ascending(F.EbTxsCandidates(f.tracker, point));
      var peers := policy(candidates);
      if peers == [] {
        return [];
      }
      f := f.(inFlight := f.inFlight[gate := now]);
      f := f.(pendingBitmaps := f.pendingBitmaps[point.hash := (point.slot, bitmap)]);
      var _ := StartEbTxsFetch(point, peers);
      fx := [F.FetchLeiosBlockTxs(point, bitmap, peers)];
    }

    method StartEbTxsFetch(point: Point, peers: seq<PeerId>) returns (started: bool)
      modifies this
      ensures started == (point !in old(f.tracker.pendingEbTxs))
      ensures f == old(f).(tracker := F.StartEbTxs(old(f.tracker), point, Elements(peers)))
    {
      if point in f.tracker.pendingEbTxs {
        return false;
      }
      f := f.(tracker := f.tracker.(pendingEbTxs := f.tracker.pendingEbTxs + {point}));
      f := f.(tracker := f.tracker.(ebTxsAttempts := F.AddAt(f.tracker.ebTxsAttempts, point, Elements(peers))));
      return true;
    }

    method OnEbTxsReceived(point: Point)
      modifies this
      ensures f == F.OnEbTxsReceived(old(f), point)
    {
      if point.Specific? {
        f := f.(inFlight := f.inFlight - {Specific(point.slot, F.GATE_HASH)});
      }
      f := F.FinishEbTxs(f, point);
    }

    method RetryEbTxFetch(point: Point, bitmap: Bitmap, policy: F.Policy) returns (fx: seq<F.Effect>)
      modifies this
      ensures (f, fx) == F.RetryEbTxs(old(f), point, bitmap, policy)
    {
      if bitmap == map[] {
        f := f.(nextWave := f.nextWave - {point});
        return [];
      }
      var candidates := Ascending(F.EbTxsCandidates(f.tracker, point));
      var peers := policy(candidates);
      if peers == [] {
        f := f.(nextWave := f.nextWave + {point});
        return [];
      }
      var started := StartEbTxsFetch(point, peers);
      if !started {
        return [];
      }
      fx := [F.FetchLeiosBlockTxs(point, bitmap, peers)];
    }

    method TakePostponedEbTxRequests() returns (points: set<Point>)
      modifies this
      ensures points == old(f.nextWave) && f == old(f).(nextWave := {})
    {
      points := f.nextWave;
      f := f.(nextWave := {});
    }

    method ForgetPeer(peer: PeerId)
      modifies this
      ensures f == F.ForgetPeer(old(f), peer)
    {
      var t := f.tracker;
      var ebOffers := RemoveFromAll(t.ebOffers, peer);
      var ebTxsOffers := RemoveFromAll(t.ebTxsOffers, peer);
      var attempts := RemoveFromAll(t.ebTxsAttempts, peer);
      var pendingEb := RemoveFromAll(t.pendingEb, peer);
      assert ebOffers == F.WithoutPeer(t.ebOffers, peer) && ebTxsOffers == F.WithoutPeer(t.ebTxsOffers, peer);
      assert attempts == F.WithoutPeer(t.ebTxsAttempts, peer) && pendingEb == F.WithoutPeer(t.pendingEb, peer);
      f := f.(tracker := F.Tracker(ebOffers, ebTxsOffers, pendingEb, t.pendingEbTxs, attempts));
    }

    method PruneChainProgress(minKeep: nat)
      modifies this
      ensures f == F.PruneChainProgress(old(f), minKeep)
    {
      hide F.PruneChainProgress, F.PruneTracker;
      var manifests := RetainMap(f.ebTxHashes, (_: Hash, entry: (nat, seq<TxId>)) => entry.0 >= minKeep);
      var postponed := RetainSet(f.nextWave, (p: Point) => p.Specific? && p.slot >= minKeep);
      var waves := RetainMap(f.waves, (p: Point, _: nat) => p.Specific? && p.slot >= minKeep);
      var requests := RetainMap(f.pendingBitmaps, (_: Hash, entry: (nat, Bitmap)) => entry.0 >= minKeep);
      PrunedAre(f, minKeep, manifests, postponed, waves, requests);
      f := f.(ebTxHashes := manifests, nextWave := postponed, waves := waves, pendingBitmaps := requests);
      PruneBelowSlot(SaturatingSub(minKeep, F.RETENTION_SLOTS));
    }

    /** The candidate tracker's own prune. */
    method PruneBelowSlot(min: nat)
      modifies this
      ensures f == old(f).(tracker := F.PruneTracker(old(f.tracker), min))
    {
      var t := f.tracker;
      var recent := (p: Point, _: set<PeerId>) => p.SlotOr(0) >= min;
      var ebOffers := RetainMap(t.ebOffers, recent);
      var ebTxsOffers := RetainMap(t.ebTxsOffers, recent);
      var pendingEb := RetainMap(t.pendingEb, recent);
      var pendingEbTxs := RetainSet(t.pendingEbTxs, (p: Point) => p.SlotOr(0) >= min);
      var attempts := RetainMap(t.ebTxsAttempts, recent);
      assert ebOffers == F.FromSlot(t.ebOffers, min) && ebTxsOffers == F.FromSlot(t.ebTxsOffers, min);
      assert pendingEb == F.FromSlot(t.pendingEb, min) && attempts == F.FromSlot(t.ebTxsAttempts, min);
      assert pendingEbTxs == set p | p in t.pendingEbTxs && p.SlotOr(0) >= min;
      f := f.(tracker := F.Tracker(ebOffers, ebTxsOffers, pendingEb, pendingEbTxs, attempts));
    }

    /** The request bitmap for the manifest entries the mempool lacks; empty without a manifest. */
    method MissingEbTxBitmap(ebHash: Hash, mempool: M.Pool) returns (bitmap: Bitmap)
      ensures bitmap == if ebHash in f.ebTxHashes then Packed(M.MissingIn(mempool, f.ebTxHashes[ebHash].1)) else map[]
    {
      if ebHash !in f.ebTxHashes {
        return map[];
      }
      bitmap := FromIndices(M.MissingIn(mempool, f.ebTxHashes[ebHash].1));
    }

    method MatchEbTxResponse(point: Point, bodies: seq<(TxBody, TxId)>) returns (outcome: F.Outcome)
      modifies this
      ensures (f, outcome) == F.Match(old(f), point, bodies)
    {
      f := F.FinishEbTxs(f, point);
      if point.Origin? {
        return F.Outcome([], 0, map[]);
      }
      if point.hash !in f.ebTxHashes {
        return F.Outcome(seq(|bodies|, i requires 0 <= i < |bodies| => bodies[i].0), 0, map[]);
      }
      var matched := MatchAgainst(f.ebTxHashes[point.hash].1, bodies);
      if point.hash !in f.pendingBitmaps {
        return F.Outcome(F.InOrder(matched), 0, map[]);
      }
      var requested := IterIndices(f.pendingBitmaps[point.hash].1);
      var requestedSet := Elements(requested);
      SizeOfAscending(requested);
      var remaining := Ascending(requestedSet - matched.Keys);
      var bitmap := FromIndices(remaining);
      if remaining == [] {
        f := f.(pendingBitmaps := f.pendingBitmaps - {point.hash});
      } else {
        f := f.(pendingBitmaps := f.pendingBitmaps[point.hash := (point.slot, bitmap)]);
      }
      outcome := F.Outcome(F.InOrder(matched), |requestedSet|, bitmap);
    }

    /** Any operation takes the model's step and returns its effects. */
    method Perform(op: F.Op) returns (fx: seq<F.Effect>)
      modifies this
      ensures (f, fx) == F.Apply(old(f), op)
    {
      hide F.OnEbOffered, F.DoEbFetch, F.OnEbReceived, F.FinishEb, F.OnEbTxsOffered, F.InitiateNextWave,
           F.InitiateEbTxsFetch, F.OnEbTxsReceived, F.Match, F.RetryEbTxs, F.ForgetPeer, F.PruneChainProgress;
      fx := [];
      match op
      case EbOffered(point, peer, now, policy) => fx := OnEbOffered(point, peer, now, policy);
      case RetryEb(point, now, policy) => fx := DoEbFetch(point, now, policy);
      case EbReceived(source, point, manifest) => fx := OnEbReceived(source, point, manifest);
      case EbFetchFailed(peer, point) => OnEbFetchFailed(peer, point);
      case EbTxsOffered(point, peer, bitmap, now, policy) => fx := OnEbTxsOffered(point, peer, bitmap, now, policy);
      case NextWave(point, bitmap, now, policy) => fx := InitiateNextLeiosFetchTxsWave(point, bitmap, now, policy);
      case InitiateTxs(point, bitmap, now, policy) => fx := InitiateEbTxsFetch(point, bitmap, now, policy);
      case EbTxsReceived(point) => OnEbTxsReceived(point);
      case MatchTxs(point, bodies) => var _ := MatchEbTxResponse(point, bodies);
      case RetryTxs(point, bitmap, policy) => fx := RetryEbTxFetch(point, bitmap, policy);
      case TakePostponed => var _ := TakePostponedEbTxRequests();
      case Disconnect(peer) => ForgetPeer(peer);
      case Prune(minKeep) => PruneChainProgress(minKeep);
    }
  }

  lemma PrunedAre(f: F.Fetch, min: nat, manifests: map<Hash, (nat, seq<TxId>)>, postponed: set<Point>,
                  waves: map<Point, nat>, requests: map<Hash, (nat, Bitmap)>)
    requires Retained(f.ebTxHashes, manifests, (_: Hash, entry: (nat, seq<TxId>)) => entry.0 >= min)
    requires forall p :: p in postponed <==> p in f.nextWave && p.Specific? && p.slot >= min
    requires Retained(f.waves, waves, (p: Point, _: nat) => p.Specific? && p.slot >= min)
    requires Retained(f.pendingBitmaps, requests, (_: Hash, entry: (nat, Bitmap)) => entry.0 >= min)
    ensures F.PruneChainProgress(f, min) ==
            f.(ebTxHashes := manifests, nextWave := postponed, waves := waves, pendingBitmaps := requests,
               tracker := F.PruneTracker(f.tracker, SaturatingSub(min, F.RETENTION_SLOTS)))
  {
    hide F.PruneTracker;
    var pruned := F.PruneChainProgress(f, min);
    assert manifests == pruned.ebTxHashes;
    assert postponed == pruned.nextWave;
    assert waves == pruned.waves;
    assert requests == pruned.pendingBitmaps;
  }

  method MatchAgainst(manifest: seq<TxId>, bodies: seq<(TxBody, TxId)>) returns (matched: map<nat, TxBody>)
    ensures matched == F.MatchedBodies(F.ManifestIndex(manifest), bodies)
  {
    var index := map[];
    for i := 0 to |manifest|
      invariant index == F.ManifestIndex(manifest[..i])
    {
      assert manifest[..i + 1][..i] == manifest[..i];
      index := index[manifest[i] := i];
    }
    assert manifest[..|manifest|] == manifest;
    matched := map[];
    for k := 0 to |bodies|
      invariant matched == F.MatchedBodies(index, bodies[..k])
    {
      assert bodies[..k + 1][..k] == bodies[..k];
      var (body, hash) := bodies[k];
      if hash in index && index[hash] !in matched {
        matched := matched[index[hash] := body];
      }
    }
    assert bodies[..|bodies|] == bodies;
  }
}
