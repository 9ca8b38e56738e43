/** Matching EB-tx responses against the manifest, and the request/response round trip. */
module EbTxMatch {
  import opened Types
  import opened Ordered
  import opened Bitmap
  import opened FetchModel
  import M = MempoolModel

  // ---------------------------------------------------------------------------
  // What is matched
  // ---------------------------------------------------------------------------

  /** The hash at position `i` does not come again. A manifest may repeat hashes: its decoder does
      not check. */
  predicate IsLast(manifest: seq<TxId>, i: nat)
    requires i < |manifest|
  {
    manifest[i] !in manifest[i + 1..]
  }

  /** The index keeps the last position of each hash. */
  lemma {:induction false} ManifestIndexOf(manifest: seq<TxId>, i: nat)
    requires i < |manifest|
    ensures manifest[i] in ManifestIndex(manifest)
    ensures ManifestIndex(manifest)[manifest[i]] == i <==> IsLast(manifest, i)
  {
    var n := |manifest| - 1;
    if i < n {
      var front := manifest[..n];
      assert front[i] == manifest[i];
      ManifestIndexOf(front, i);
      assert manifest[i + 1..] == front[i + 1..] + [manifest[n]];
      if manifest[i] != manifest[n] {
        assert IsLast(manifest, i) <==> IsLast(front, i);
      }
    }
  }

  lemma {:induction false} ManifestIndexSound(manifest: seq<TxId>, hash: TxId)
    requires hash in ManifestIndex(manifest)
    ensures ManifestIndex(manifest)[hash] < |manifest| && manifest[ManifestIndex(manifest)[hash]] == hash
  {
    var n := |manifest| - 1;
    if hash != manifest[n] {
      ManifestIndexSound(manifest[..n], hash);
    }
  }

  /** Position `i` is matched exactly when its hash does not come again and some body of the response
      hashes to it, and then by the first such body. */
  lemma {:induction false} MatchedIff(manifest: seq<TxId>, bodies: seq<(TxBody, TxId)>, i: nat)
    requires i < |manifest|
    ensures var matched := MatchedBodies(ManifestIndex(manifest), bodies);
            && (i in matched <==>
                  IsLast(manifest, i) && exists k :: 0 <= k < |bodies| && bodies[k].1 == manifest[i])
            && (i in matched ==> exists k ::
                  && 0 <= k < |bodies| && bodies[k] == (matched[i], manifest[i])
                  && forall j :: 0 <= j < k ==> bodies[j].1 != manifest[i])
  {
    if bodies != [] {
      var n := |bodies| - 1;
      var index := ManifestIndex(manifest);
      MatchedIff(manifest, bodies[..n], i);
      assert forall k :: 0 <= k < n ==> bodies[..n][k] == bodies[k];
      ManifestIndexOf(manifest, i);
      if bodies[n].1 in index {
        ManifestIndexSound(manifest, bodies[n].1);
      }
      var before, matched := MatchedBodies(index, bodies[..n]), MatchedBodies(index, bodies);
      if i in before {
        var k :| && 0 <= k < n && bodies[..n][k] == (before[i], manifest[i])
                 && forall j :: 0 <= j < k ==> bodies[..n][j].1 != manifest[i];
        assert bodies[k] == (matched[i], manifest[i]);
        assert forall j :: 0 <= j < k ==> bodies[j].1 == bodies[..n][j].1;
      } else if i in matched {
        assert bodies[n] == (matched[i], manifest[i]);
      }
    }
  }

  lemma {:induction false} MatchedWithin(manifest: seq<TxId>, bodies: seq<(TxBody, TxId)>, i: nat)
    requires i in MatchedBodies(ManifestIndex(manifest), bodies)
    ensures i < |manifest|
  {
    var n := |bodies| - 1;
    if i in MatchedBodies(ManifestIndex(manifest), bodies[..n]) {
      MatchedWithin(manifest, bodies[..n], i);
    } else {
      ManifestIndexSound(manifest, bodies[n].1);
    }
  }

  /** The remaining request is what was requested minus what was matched, and the outstanding entry
      is gone exactly when nothing remains. */
  lemma RemainingIsExact(f: Fetch, point: Point, bodies: seq<(TxBody, TxId)>)
    requires point.Specific? && point.hash in f.ebTxHashes && point.hash in f.pendingBitmaps
    ensures var (g, outcome) := Match(f, point, bodies);
            var matched := MatchedBodies(ManifestIndex(f.ebTxHashes[point.hash].1), bodies);
            var requested := Indices(f.pendingBitmaps[point.hash].1);
            && Indices(outcome.remaining) == requested - matched.Keys
            && outcome.requested == |requested|
            && (point.hash in g.pendingBitmaps <==> requested - matched.Keys != {})
            && (point.hash in g.pendingBitmaps ==> g.pendingBitmaps[point.hash] == (point.slot, outcome.remaining))
            && (outcome.remaining == map[] <==> requested - matched.Keys == {})
  {
    var matched := MatchedBodies(ManifestIndex(f.ebTxHashes[point.hash].1), bodies);
    var left := Indices(f.pendingBitmaps[point.hash].1) - matched.Keys;
    PackedSetReadsBack(left);
  }

  lemma PackedSetReadsBack(left: set<nat>)
    requires forall i :: i in left ==> i < LIMIT
    ensures Indices(Packed(Ascending(left))) == left
    ensures Packed(Ascending(left)) == map[] <==> left == {}
  {
    RoundTripIffFits(Ascending(left));
    EmptyIffNothingSelected(Ascending(left));
    assert Elements(Ascending(left)) == left;
  }

  // ---------------------------------------------------------------------------
  // Repeated partial responses
  // ---------------------------------------------------------------------------

  ghost function Outstanding(f: Fetch, hash: Hash): set<nat> {
    if hash in f.pendingBitmaps then Indices(f.pendingBitmaps[hash].1) else {}
  }

  /** The positions matched by the responses of a run. */
  ghost function AllMatched(manifest: seq<TxId>, ops: seq<Op>, hash: Hash): set<nat> {
    if ops == [] then {} else MatchedBy(manifest, ops[0], hash) + AllMatched(manifest, ops[1..], hash)
  }

  ghost function MatchedBy(manifest: seq<TxId>, op: Op, hash: Hash): set<nat> {
    if op.MatchTxs? && op.point.Specific? && op.point.hash == hash
    then MatchedBodies(ManifestIndex(manifest), op.bodies).Keys
    else {}
  }

  /** The operation may replace or drop the manifest or the request of the EB: a new manifest, a new
      request, or a prune. Retries do neither. */
  predicate Replaces(op: Op, hash: Hash) {
    match op
    case EbReceived(_, point, _) => point.Specific? && point.hash == hash
    case EbTxsOffered(point, _, _, _, _) => point.Specific? && point.hash == hash
    case NextWave(point, _, _, _) => point.Specific? && point.hash == hash
    case InitiateTxs(point, _, _, _) => point.Specific? && point.hash == hash
    case Prune(_) => true
    case _ => false
  }

  /** In any run, with any retries and whatever happens to other EBs in between, what is outstanding
      is the original request minus everything matched so far. */
  lemma {:induction false} PartialResponses(f: Fetch, ops: seq<Op>, hash: Hash)
    requires hash in f.ebTxHashes && forall op :: op in ops ==> !Replaces(op, hash)
    ensures hash in Run(f, ops).ebTxHashes && Run(f, ops).ebTxHashes[hash] == f.ebTxHashes[hash]
    ensures Outstanding(Run(f, ops), hash)
            == Outstanding(f, hash) - AllMatched(f.ebTxHashes[hash].1, ops, hash)
    decreases |ops|
  {
    hide Step, Outstanding, MatchedBy;
    if ops != [] {
      assert ops[0] in ops && forall op :: op in ops[1..] ==> op in ops;
      StepOutstanding(f, ops[0], hash);
      PartialResponses(Step(f, ops[0]), ops[1..], hash);
    }
  }

  lemma StepOutstanding(f: Fetch, op: Op, hash: Hash)
    requires hash in f.ebTxHashes && !Replaces(op, hash)
    ensures hash in Step(f, op).ebTxHashes && Step(f, op).ebTxHashes[hash] == f.ebTxHashes[hash]
    ensures Outstanding(Step(f, op), hash) == Outstanding(f, hash) - MatchedBy(f.ebTxHashes[hash].1, op, hash)
  {
    hide Match, DoEbFetch, OnEbTxsOffered, InitiateNextWave, InitiateEbTxsFetch, RetryEbTxs, ForgetPeer, AddAt,
         OnEbReceived, FinishEb, OnEbTxsReceived;
    match op
    case MatchTxs(point, bodies) =>
      if point.Specific? && point.hash == hash {
        OneResponse(f, point, bodies);
      } else {
        OtherResponse(f, point, bodies, hash);
      }
    case EbOffered(point, peer, now, policy) =>
      EbFetchKeepsRequests(f.(tracker := f.tracker.(ebOffers := AddAt(f.tracker.ebOffers, point, {peer}))), point, now, policy);
    case RetryEb(point, now, policy) => EbFetchKeepsRequests(f, point, now, policy);
    case EbTxsOffered(point, peer, bitmap, now, policy) => OfferKeepsRequest(f, point, peer, bitmap, now, policy, hash);
    case NextWave(point, bitmap, now, policy) => NextWaveKeepsRequest(f, point, bitmap, now, policy, hash);
    case InitiateTxs(point, bitmap, now, policy) => FetchKeepsRequest(f, point, bitmap, now, policy, hash);
    case RetryTxs(point, bitmap, policy) => RetryKeepsRequests(f, point, bitmap, policy);
    case _ => OthersKeepRequest(f, op, hash);
  }

  lemma OthersKeepRequest(f: Fetch, op: Op, hash: Hash)
    requires !Replaces(op, hash)
    requires op.EbReceived? || op.EbFetchFailed? || op.EbTxsReceived? || op.TakePostponed? || op.Disconnect?
    ensures Step(f, op).pendingBitmaps == f.pendingBitmaps
    ensures hash in f.ebTxHashes ==>
              hash in Step(f, op).ebTxHashes && Step(f, op).ebTxHashes[hash] == f.ebTxHashes[hash]
  {
    hide Match, DoEbFetch, OnEbTxsOffered, InitiateNextWave, InitiateEbTxsFetch, RetryEbTxs, WithoutPeer, At, FinishEb;
    match op
    case EbReceived(source, point, _) =>
      if source.Some? {
        FinishKeepsRequests(f, source.value, point);
      }
    case EbFetchFailed(peer, point) => FinishKeepsRequests(f, peer, point);
    case _ =>
  }

  lemma FinishKeepsRequests(f: Fetch, source: PeerId, point: Point)
    ensures var g := FinishEb(f, source, point);
            g.ebTxHashes == f.ebTxHashes && g.pendingBitmaps == f.pendingBitmaps
  {
    hide At;
  }

  ghost predicate SameRequest(f: Fetch, g: Fetch, hash: Hash) {
    && g.ebTxHashes == f.ebTxHashes
    && (hash in g.pendingBitmaps <==> hash in f.pendingBitmaps)
    && (hash in f.pendingBitmaps ==> g.pendingBitmaps[hash] == f.pendingBitmaps[hash])
  }

  lemma EbFetchKeepsRequests(f: Fetch, point: Point, now: nat, policy: Policy)
    ensures var g := DoEbFetch(f, point, now, policy).0;
            g.ebTxHashes == f.ebTxHashes && g.pendingBitmaps == f.pendingBitmaps
  {
    hide Ascending, AvailableEbCandidates, AddAt, At;
  }

  lemma RetryKeepsRequests(f: Fetch, point: Point, bitmap: Bitmap, policy: Policy)
    ensures var g := RetryEbTxs(f, point, bitmap, policy).0;
            g.ebTxHashes == f.ebTxHashes && g.pendingBitmaps == f.pendingBitmaps
  {
    hide Ascending, EbTxsCandidates, StartEbTxs;
  }

  lemma FetchKeepsRequest(f: Fetch, point: Point, bitmap: Bitmap, now: nat, policy: Policy, hash: Hash)
    requires point.Specific? ==> point.hash != hash
    ensures SameRequest(f, InitiateEbTxsFetch(f, point, bitmap, now, policy).0, hash)
  {
  }

  lemma OfferKeepsRequest(
      f: Fetch, point: Point, peer: PeerId, bitmap: Bitmap, now: nat, policy: Policy, hash: Hash)
    requires point.Specific? ==> point.hash != hash
    ensures SameRequest(f, OnEbTxsOffered(f, point, peer, bitmap, now, policy).0, hash)
  {
    hide InitiateEbTxsFetch;
    var e := EvictStale(f, now);
    var g := e.(tracker := e.tracker.(ebTxsOffers := AddAt(e.tracker.ebTxsOffers, point, {peer})));
    FetchKeepsRequest(if point in g.waves then g else g.(waves := g.waves[point := 1]), point, bitmap, now, policy, hash);
  }

  lemma NextWaveKeepsRequest(f: Fetch, point: Point, bitmap: Bitmap, now: nat, policy: Policy, hash: Hash)
    requires point.Specific? ==> point.hash != hash
    ensures SameRequest(f, InitiateNextWave(f, point, bitmap, now, policy).0, hash)
  {
    hide InitiateEbTxsFetch;
    if point in f.waves {
      var tracker := f.tracker.(ebTxsAttempts := f.tracker.ebTxsAttempts - {point});
      FetchKeepsRequest(
        f.(waves := f.waves[point := f.waves[point] + 1], tracker := tracker), point, bitmap, now, policy, hash);
    }
  }

  lemma OtherResponse(f: Fetch, point: Point, bodies: seq<(TxBody, TxId)>, hash: Hash)
    requires point.Specific? ==> point.hash != hash
    ensures SameRequest(f, Match(f, point, bodies).0, hash)
  {
    hide MatchedBodies, ManifestIndex, InOrder;
  }

  lemma OneResponse(f: Fetch, point: Point, bodies: seq<(TxBody, TxId)>)
    requires point.Specific? && point.hash in f.ebTxHashes
    ensures var g := Match(f, point, bodies).0;
            var matched := MatchedBodies(ManifestIndex(f.ebTxHashes[point.hash].1), bodies);
            && g.ebTxHashes == f.ebTxHashes
            && Outstanding(g, point.hash) == Outstanding(f, point.hash) - matched.Keys
  {
    if point.hash in f.pendingBitmaps {
      RemainingIsExact(f, point, bodies);
    }
  }

  // ---------------------------------------------------------------------------
  // The whole round trip
  // ---------------------------------------------------------------------------

  function Hashed(bodies: seq<TxBody>, hash: TxBody -> TxId): seq<(TxBody, TxId)> {
    seq(|bodies|, i requires 0 <= i < |bodies| => (bodies[i], hash(bodies[i])))
  }

  /** Every held body hashes to its manifest entry. */
  ghost predicate Honest(held: seq<Option<TxBody>>, manifest: seq<TxId>, hash: TxBody -> TxId) {
    && |held| == |manifest|
    && forall i :: 0 <= i < |held| && held[i].Some? ==> hash(held[i].value) == manifest[i]
  }

  /** The requested positions that can be served, in request order. */
  function Servable(held: seq<Option<TxBody>>, indices: seq<nat>): (served: seq<nat>)
    ensures forall i: nat :: i in served <==> i in indices && i < |held| && held[i].Some?
  {
    if indices == [] then []
    else
      var rest := Servable(held, indices[1..]);
      if indices[0] < |held| && held[indices[0]].Some? then [indices[0]] + rest else rest
  }

  lemma {:induction false} ServableAscends(held: seq<Option<TxBody>>, indices: seq<nat>)
    requires StrictlyAscending(indices)
    ensures StrictlyAscending(Servable(held, indices))
  {
    if indices != [] {
      ServableAscends(held, indices[1..]);
      var rest := Servable(held, indices[1..]);
      forall k | 0 <= k < |rest|
        ensures indices[0] < rest[k]
      {
        assert rest[k] in rest && rest[k] in indices[1..];
      }
    }
  }

  lemma {:induction false} ServeIsServable(held: seq<Option<TxBody>>, indices: seq<nat>)
    ensures |M.Serve(held, indices)| == |Servable(held, indices)|
    ensures forall k :: 0 <= k < |Servable(held, indices)| ==>
              Servable(held, indices)[k] < |held|
              && held[Servable(held, indices)[k]] == Some(M.Serve(held, indices)[k])
  {
    if indices != [] {
      ServeIsServable(held, indices[1..]);
    }
  }

  /** A response built from the manifest matches the last position of every hash it serves. */
  lemma ServedKeys(held: seq<Option<TxBody>>, manifest: seq<TxId>, indices: seq<nat>, hash: TxBody -> TxId, i: nat)
    requires Honest(held, manifest, hash)
    ensures var response := Hashed(M.Serve(held, indices), hash);
            i in MatchedBodies(ManifestIndex(manifest), response) <==>
            && i < |manifest| && IsLast(manifest, i)
            && exists j :: j in Servable(held, indices) && manifest[j] == manifest[i]
  {
    hide MatchedBodies, ManifestIndex, Servable, M.Serve, IsLast;
    var served := Servable(held, indices);
    var response := Hashed(M.Serve(held, indices), hash);
    ServeIsServable(held, indices);
    assert forall k :: 0 <= k < |response| ==> served[k] in served && response[k].1 == manifest[served[k]];
    if i < |manifest| {
      MatchedIff(manifest, response, i);
      if j :| j in served && manifest[j] == manifest[i] {
        var k :| 0 <= k < |served| && served[k] == j;
        assert response[k].1 == manifest[i];
      }
    } else if i in MatchedBodies(ManifestIndex(manifest), response) {
      MatchedWithin(manifest, response, i);
    }
  }

  /** Bodies are held by hash. */
  ghost predicate HeldByHash(held: seq<Option<TxBody>>, manifest: seq<TxId>) {
    && |held| == |manifest|
    && forall i: nat, j: nat :: i < |manifest| && j < |manifest| && manifest[i] == manifest[j] ==> held[i] == held[j]
  }

  /** Positions are asked for by hash. */
  ghost predicate AskedByHash(manifest: seq<TxId>, indices: seq<nat>) {
    forall i: nat, j: nat :: i < |manifest| && j < |manifest| && manifest[i] == manifest[j] ==>
      (i in indices <==> j in indices)
  }

  /** Those of the positions whose hash does not come again. */
  function Lasts(manifest: seq<TxId>, indices: seq<nat>): (lasts: seq<nat>)
    ensures forall i: nat :: i in lasts <==> i in indices && i < |manifest| && IsLast(manifest, i)
  {
    if indices == [] then []
    else
      var rest := Lasts(manifest, indices[1..]);
      if indices[0] < |manifest| && IsLast(manifest, indices[0]) then [indices[0]] + rest else rest
  }

  lemma {:induction false} LastsAscend(manifest: seq<TxId>, indices: seq<nat>)
    requires StrictlyAscending(indices)
    ensures StrictlyAscending(Lasts(manifest, indices))
  {
    if indices != [] {
      LastsAscend(manifest, indices[1..]);
      var rest := Lasts(manifest, indices[1..]);
      forall k | 0 <= k < |rest|
        ensures indices[0] < rest[k]
      {
        assert rest[k] in rest && rest[k] in indices[1..];
      }
    }
  }

  lemma ServedLasts(held: seq<Option<TxBody>>, manifest: seq<TxId>, indices: seq<nat>, hash: TxBody -> TxId, i: nat)
    requires Honest(held, manifest, hash) && HeldByHash(held, manifest) && AskedByHash(manifest, indices)
    ensures var matched := MatchedBodies(ManifestIndex(manifest), Hashed(M.Serve(held, indices), hash));
            && (i in matched <==> i in Servable(held, Lasts(manifest, indices)))
            && (i in matched ==> i < |held| && held[i] == Some(matched[i]))
  {
    hide MatchedBodies, ManifestIndex, Servable, Lasts, M.Serve, IsLast;
    var served := Servable(held, indices);
    var response := Hashed(M.Serve(held, indices), hash);
    var matched := MatchedBodies(ManifestIndex(manifest), response);
    ServedKeys(held, manifest, indices, hash, i);
    ServeIsServable(held, indices);
    if i in matched {
      MatchedIff(manifest, response, i);
      var j :| 0 <= j < |response| && response[j] == (matched[i], manifest[i]);
      assert served[j] in served && response[j].1 == manifest[served[j]];
    }
  }

  /** ... with the matched bodies those of the last positions, in manifest order. */
  lemma ServedIsMatched(held: seq<Option<TxBody>>, manifest: seq<TxId>, indices: seq<nat>, hash: TxBody -> TxId)
    requires StrictlyAscending(indices) && Honest(held, manifest, hash)
    requires HeldByHash(held, manifest) && AskedByHash(manifest, indices)
    ensures var matched := MatchedBodies(ManifestIndex(manifest), Hashed(M.Serve(held, indices), hash));
            && matched.Keys == Elements(Servable(held, Lasts(manifest, indices)))
            && InOrder(matched) == M.Serve(held, Lasts(manifest, indices))
  {
    hide MatchedBodies, ManifestIndex, Servable, Lasts, M.Serve, Ascending, Honest, HeldByHash, AskedByHash;
    var lasts := Lasts(manifest, indices);
    var served := Servable(held, lasts);
    var matched := MatchedBodies(ManifestIndex(manifest), Hashed(M.Serve(held, indices), hash));
    forall i: nat
      ensures i in matched <==> i in served
      ensures i in matched ==> i < |held| && held[i] == Some(matched[i])
    {
      ServedLasts(held, manifest, indices, hash, i);
    }
    assert matched.Keys == Elements(served);
    LastsAscend(manifest, indices);
    ServableAscends(held, lasts);
    AscendingIsUnique(served, Ascending(matched.Keys));
    ServeIsServable(held, lasts);
    assert forall k :: 0 <= k < |served| ==> served[k] in served;
  }

  /** The request for what is missing reads back as exactly the missing positions. */
  lemma RequestReadsBack(requester: M.Pool, manifest: seq<TxId>, asked: seq<nat>)
    requires |manifest| <= LIMIT && StrictlyAscending(asked)
    requires Elements(asked) == Indices(Packed(M.MissingIn(requester, manifest)))
    ensures asked == M.MissingIn(requester, manifest)
  {
    var missing := M.MissingIn(requester, manifest);
    assert forall i :: i in missing ==> i < LIMIT;
    RoundTripIffFits(missing);
    assert forall i :: i in asked <==> i in Elements(asked);
    assert forall i :: i in missing <==> i in Elements(missing);
    AscendingIsUnique(asked, missing);
  }

  lemma {:induction false} LastsOfDistinct(manifest: seq<TxId>, indices: seq<nat>)
    requires Distinct(manifest) && forall i :: i in indices ==> i < |manifest|
    ensures Lasts(manifest, indices) == indices
  {
    if indices != [] {
      assert indices[0] in indices && forall i :: i in indices[1..] ==> i in indices;
      LastsOfDistinct(manifest, indices[1..]);
    }
  }

  /** The whole exchange: the requester asks for what it lacks, a responder with the same manifest
      serves what it holds, and matching the answer splits the request into the bodies served at the
      last position of their hash, in manifest order, and everything else. What is left is what the
      responder lacked exactly when no served hash comes again; in a manifest of distinct hashes
      the matched bodies are the response itself. */
  lemma RoundTrip(f: Fetch, point: Point, requester: M.Pool, held: seq<Option<TxBody>>, hash: TxBody -> TxId,
                  asked: seq<nat>)
    requires point.Specific? && point.hash in f.ebTxHashes && point.hash in f.pendingBitmaps
    requires |f.ebTxHashes[point.hash].1| <= LIMIT
    requires Honest(held, f.ebTxHashes[point.hash].1, hash) && HeldByHash(held, f.ebTxHashes[point.hash].1)
    requires f.pendingBitmaps[point.hash].1 == Packed(M.MissingIn(requester, f.ebTxHashes[point.hash].1))
    requires StrictlyAscending(asked) && Elements(asked) == Indices(f.pendingBitmaps[point.hash].1)
    ensures asked == M.MissingIn(requester, f.ebTxHashes[point.hash].1)
    ensures var manifest := f.ebTxHashes[point.hash].1;
            var outcome := Match(f, point, Hashed(M.Serve(held, asked), hash)).1;
            && outcome.requested == |asked|
            && outcome.matchedBodies == M.Serve(held, Lasts(manifest, asked))
            && Indices(outcome.remaining) == Elements(asked) - Elements(Servable(held, Lasts(manifest, asked)))
            && (Indices(outcome.remaining) == Elements(asked) - Elements(Servable(held, asked)) <==>
                forall i :: i in Servable(held, asked) ==> IsLast(manifest, i))
            && (Distinct(manifest) ==> outcome.matchedBodies == M.Serve(held, asked))
  {
    hide Match, MatchedBodies, ManifestIndex, Packed, Honest, AskedByHash, M.MissingIn, M.HasTx,
         M.Serve, InOrder, Servable, Lasts, IsLast, Indices, Ascending, StrictlyAscending, Elements, Distinct, Hashed;
    var manifest := f.ebTxHashes[point.hash].1;
    RequestReadsBack(requester, manifest, asked);
    MissingIsByHash(requester, manifest);
    SizeOfAscending(asked);
    MatchesInOrder(f, point, Hashed(M.Serve(held, asked), hash));
    ServedIsMatched(held, manifest, asked, hash);
    RemainingIsExact(f, point, Hashed(M.Serve(held, asked), hash));
    LeftIff(held, manifest, asked);
    if Distinct(manifest) {
      assert forall i :: i in asked ==> i < |manifest|;
      LastsOfDistinct(manifest, asked);
    }
  }

  lemma MatchesInOrder(f: Fetch, point: Point, bodies: seq<(TxBody, TxId)>)
    requires point.Specific? && point.hash in f.ebTxHashes
    ensures Match(f, point, bodies).1.matchedBodies
            == InOrder(MatchedBodies(ManifestIndex(f.ebTxHashes[point.hash].1), bodies))
  {
  }

  lemma MissingIsByHash(requester: M.Pool, manifest: seq<TxId>)
    ensures AskedByHash(manifest, M.MissingIn(requester, manifest))
  {
    hide M.MissingIn;
  }

  lemma LeftIff(held: seq<Option<TxBody>>, manifest: seq<TxId>, asked: seq<nat>)
    requires |held| == |manifest|
    ensures Elements(asked) - Elements(Servable(held, Lasts(manifest, asked)))
            == Elements(asked) - Elements(Servable(held, asked))
            <==> forall i :: i in Servable(held, asked) ==> IsLast(manifest, i)
  {
    hide Servable, Lasts, IsLast;
    var all, lasts := Servable(held, asked), Servable(held, Lasts(manifest, asked));
    assert forall i :: i in lasts ==> i in all && IsLast(manifest, i);
    if i :| i in all && !IsLast(manifest, i) {
      assert i in Elements(asked) - Elements(lasts) && i !in Elements(asked) - Elements(all);
    }
  }

  /** The same exchange between two mempools: the responder answers from its own copy of the
      manifest, and what remains is what it does not hold and what comes again in the manifest. */
  lemma RoundTripBetweenPools(f: Fetch, point: Point, requester: M.Pool, responder: M.Pool, key: EbKey,
                              hash: TxBody -> TxId, asked: seq<nat>)
    requires point.Specific? && point.hash in f.ebTxHashes && point.hash in f.pendingBitmaps
    requires var manifest := f.ebTxHashes[point.hash].1;
             && |manifest| <= LIMIT
             && key in responder.manifests && responder.manifests[key] == manifest
             && Honest(M.HeldBodies(responder, manifest), manifest, hash)
             && f.pendingBitmaps[point.hash].1 == Packed(M.MissingIn(requester, manifest))
    requires StrictlyAscending(asked) && Elements(asked) == Indices(f.pendingBitmaps[point.hash].1)
    ensures M.GetEbBodies(responder, key, asked).Some?
    ensures var manifest := f.ebTxHashes[point.hash].1;
            var bodies := M.GetEbBodies(responder, key, asked).value;
            var outcome := Match(f, point, Hashed(bodies, hash)).1;
            && (Distinct(manifest) ==> outcome.matchedBodies == bodies)
            && outcome.matchedBodies == M.Serve(M.HeldBodies(responder, manifest), Lasts(manifest, asked))
            && forall i: nat :: i in Indices(outcome.remaining) <==>
                 && i < |manifest| && !M.HasTx(requester, manifest[i])
                 && (M.GetBody(responder, manifest[i]).None? || !IsLast(manifest, i))
  {
    hide Match, Packed, Honest, M.MissingIn, Servable, Lasts, IsLast, M.Serve, M.GetBody;
    var manifest := f.ebTxHashes[point.hash].1;
    var held := M.HeldBodies(responder, manifest);
    RequestReadsBack(requester, manifest, asked);
    assert forall i: nat :: i in asked <==> i < |manifest| && !M.HasTx(requester, manifest[i]);
    assert HeldByHash(held, manifest);
    RoundTrip(f, point, requester, held, hash, asked);
    assert forall i: nat :: i in Elements(Servable(held, Lasts(manifest, asked))) <==>
             i in asked && IsLast(manifest, i) && held[i].Some?;
  }
}
