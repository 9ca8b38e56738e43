/** What holds over whole fetch runs: no peer is asked twice for one EB, and retries end. */
module FetchRuns {
  import opened Types
  import opened Ordered
  import opened Bitmap
  import opened FetchModel

  // ---------------------------------------------------------------------------
  // EB fetch exclusivity
  // ---------------------------------------------------------------------------

  /** The effects ask `peer` for the EB at `point`. */
  ghost predicate Asks(fx: seq<Effect>, point: Point, peer: PeerId) {
    exists i :: 0 <= i < |fx| && fx[i].FetchLeiosBlock? && fx[i].point == point && peer in fx[i].peers
  }

  /** The operation ends the peer's request for `point`: an answer, a failure, a disconnect or a prune. */
  predicate Resolves(op: Op, point: Point, peer: PeerId) {
    match op
    case EbReceived(source, p, _) => source == Some(peer) && p == point
    case EbFetchFailed(q, p) => q == peer && p == point
    case Disconnect(q) => q == peer
    case Prune(minKeep) => point.SlotOr(0) < SaturatingSub(minKeep, RETENTION_SLOTS)
    case _ => false
  }

  predicate IsPending(t: Tracker, point: Point, peer: PeerId) {
    peer in At(t.pendingEb, point)
  }

  lemma AskPending(f: Fetch, at: Point, now: nat, peers: seq<PeerId>, point: Point, peer: PeerId)
    ensures var (g, fx) := AskEb(f, at, now, peers);
            && (Asks(fx, point, peer) ==> !IsPending(f.tracker, point, peer))
            && (IsPending(g.tracker, point, peer) <==> IsPending(f.tracker, point, peer) || Asks(fx, point, peer))
  {
    var asked := [FetchLeiosBlock(at, peers)];
    assert Asks(asked, point, peer) <==> point == at && peer in asked[0].peers;
    assert peer in Elements(peers) * At(f.tracker.pendingEb, at) <==> peer in peers && IsPending(f.tracker, at, peer);
  }

  lemma DoEbFetchPending(f: Fetch, at: Point, now: nat, policy: Policy, point: Point, peer: PeerId)
    ensures var (g, fx) := DoEbFetch(f, at, now, policy);
            && (Asks(fx, point, peer) ==> !IsPending(f.tracker, point, peer))
            && (IsPending(g.tracker, point, peer) <==> IsPending(f.tracker, point, peer) || Asks(fx, point, peer))
  {
    var g := EvictStale(f, now);
    AskPending(g, at, now, policy(Ascending(AvailableEbCandidates(g.tracker, at))), point, peer);
  }

  lemma FinishEbPending(f: Fetch, source: PeerId, at: Point, point: Point, peer: PeerId)
    ensures IsPending(FinishEb(f, source, at).tracker, point, peer)
            <==> IsPending(f.tracker, point, peer) && !(source == peer && at == point)
  {
    PendingAfter(f.tracker.pendingEb, source, at, point, peer);
  }

  lemma PendingAfter(pending: map<Point, set<PeerId>>, source: PeerId, at: Point, point: Point, peer: PeerId)
    ensures var rest := At(pending, at) - {source};
            var after := if at in pending && rest != {} then pending[at := rest] else pending - {at};
            peer in At(after, point) <==> peer in At(pending, point) && !(source == peer && at == point)
  {
    if at == point && at in pending {
      assert peer in pending[at] - {source} <==> peer in pending[at] && source != peer;
    }
  }

  /** The operation leaves the pending EB requests alone and asks for no EB. */
  ghost predicate EbQuiet(f: Fetch, r: (Fetch, seq<Effect>)) {
    && r.0.tracker.pendingEb == f.tracker.pendingEb
    && forall i :: 0 <= i < |r.1| ==> !r.1[i].FetchLeiosBlock?
  }

  lemma InitiateQuiet(f: Fetch, point: Point, bitmap: Bitmap, now: nat, policy: Policy)
    ensures EbQuiet(f, InitiateEbTxsFetch(f, point, bitmap, now, policy))
  {
    if point.Specific? {
      AskTxsQuiet(f, point, bitmap, now, policy(Ascending(EbTxsCandidates(f.tracker, point))));
    }
  }

  lemma AskTxsQuiet(f: Fetch, point: Point, bitmap: Bitmap, now: nat, peers: seq<PeerId>)
    requires point.Specific?
    ensures EbQuiet(f, AskEbTxs(f, point, bitmap, now, peers))
  {
  }

  lemma OfferQuiet(f: Fetch, point: Point, peer: PeerId, bitmap: Bitmap, now: nat, policy: Policy)
    ensures EbQuiet(f, OnEbTxsOffered(f, point, peer, bitmap, now, policy))
  {
    var g := EvictStale(f, now);
    var h := g.(tracker := g.tracker.(ebTxsOffers := AddAt(g.tracker.ebTxsOffers, point, {peer})));
    InitiateQuiet(if point in h.waves then h else h.(waves := h.waves[point := 1]), point, bitmap, now, policy);
  }

  lemma NextWaveQuiet(f: Fetch, point: Point, bitmap: Bitmap, now: nat, policy: Policy)
    ensures EbQuiet(f, InitiateNextWave(f, point, bitmap, now, policy))
  {
    if point in f.waves {
      var tracker := f.tracker.(ebTxsAttempts := f.tracker.ebTxsAttempts - {point});
      InitiateQuiet(f.(waves := f.waves[point := f.waves[point] + 1], tracker := tracker), point, bitmap, now, policy);
    }
  }

  lemma RetryQuiet(f: Fetch, point: Point, bitmap: Bitmap, policy: Policy)
    ensures EbQuiet(f, RetryEbTxs(f, point, bitmap, policy))
  {
    ReaskQuiet(f, point, bitmap, policy(Ascending(EbTxsCandidates(f.tracker, point))));
  }

  lemma ReaskQuiet(f: Fetch, point: Point, bitmap: Bitmap, peers: seq<PeerId>)
    ensures EbQuiet(f, ReaskEbTxs(f, point, bitmap, peers))
  {
  }

  lemma ReceivedPending(
      f: Fetch, source: Option<PeerId>, at: Point, manifest: Option<seq<TxId>>, point: Point, peer: PeerId)
    ensures var (g, fx) := OnEbReceived(f, source, at, manifest);
            && (IsPending(g.tracker, point, peer) <==>
                IsPending(f.tracker, point, peer) && !(source == Some(peer) && at == point))
            && forall i :: 0 <= i < |fx| ==> !fx[i].FetchLeiosBlock?
  {
    if source.Some? {
      FinishEbPending(f, source.value, at, point, peer);
    }
  }

  lemma PrunePending(f: Fetch, minKeep: nat, point: Point, peer: PeerId)
    ensures IsPending(PruneChainProgress(f, minKeep).tracker, point, peer)
            <==> IsPending(f.tracker, point, peer) && point.SlotOr(0) >= SaturatingSub(minKeep, RETENTION_SLOTS)
  {
  }

  lemma DisconnectPending(f: Fetch, who: PeerId, point: Point, peer: PeerId)
    ensures IsPending(ForgetPeer(f, who).tracker, point, peer) <==> IsPending(f.tracker, point, peer) && who != peer
  {
  }

  /** One step: a peer with a pending request is not asked again, and the pending requests are
      exactly the ones asked and not yet resolved. */
  lemma StepPending(f: Fetch, op: Op, point: Point, peer: PeerId)
    ensures Asks(Apply(f, op).1, point, peer) ==> !IsPending(f.tracker, point, peer)
    ensures IsPending(Step(f, op).tracker, point, peer) <==>
            (IsPending(f.tracker, point, peer) && !Resolves(op, point, peer)) || Asks(Apply(f, op).1, point, peer)
  {
    hide DoEbFetch, OnEbReceived, FinishEb, OnEbTxsOffered, InitiateNextWave, InitiateEbTxsFetch, RetryEbTxs,
         ForgetPeer, PruneChainProgress, Match;
    match op
    case EbOffered(at, who, now, policy) =>
      var g := f.(tracker := f.tracker.(ebOffers := AddAt(f.tracker.ebOffers, at, {who})));
      DoEbFetchPending(g, at, now, policy, point, peer);
    case RetryEb(at, now, policy) => DoEbFetchPending(f, at, now, policy, point, peer);
    case EbReceived(source, at, manifest) => ReceivedPending(f, source, at, manifest, point, peer);
    case EbFetchFailed(who, at) => FinishEbPending(f, who, at, point, peer);
    case EbTxsOffered(at, who, bitmap, now, policy) => OfferQuiet(f, at, who, bitmap, now, policy);
    case NextWave(at, bitmap, now, policy) => NextWaveQuiet(f, at, bitmap, now, policy);
    case InitiateTxs(at, bitmap, now, policy) => InitiateQuiet(f, at, bitmap, now, policy);
    case RetryTxs(at, bitmap, policy) => RetryQuiet(f, at, bitmap, policy);
    case Disconnect(who) => DisconnectPending(f, who, point, peer);
    case Prune(minKeep) => PrunePending(f, minKeep, point, peer);
    case MatchTxs(at, bodies) => MatchQuiet(f, at, bodies);
    case EbTxsReceived(_) =>
    case TakePostponed =>
  }

  /** A response changes only the pending guard and the request. */
  lemma MatchQuiet(f: Fetch, at: Point, bodies: seq<(TxBody, TxId)>)
    ensures var g := Match(f, at, bodies).0;
            && g == f.(tracker := g.tracker, pendingBitmaps := g.pendingBitmaps)
            && g.tracker == f.tracker.(pendingEbTxs := f.tracker.pendingEbTxs - {at})
  {
  }

  /** Between the effect that asks a peer for an EB and that peer's answer, failure, disconnect or
      prune, no further effect asks it, whatever expires or is offered meanwhile. */
  lemma {:induction false} AskedOnce(f: Fetch, ops: seq<Op>, point: Point, peer: PeerId)
    requires IsPending(f.tracker, point, peer)
    requires forall op :: op in ops ==> !Resolves(op, point, peer)
    ensures IsPending(Run(f, ops).tracker, point, peer)
    ensures forall i :: 0 <= i < |ops| ==> !Asks(Apply(Run(f, ops[..i]), ops[i]).1, point, peer)
    decreases |ops|
  {
    if ops != [] {
      StepPending(f, ops[0], point, peer);
      AskedOnce(Step(f, ops[0]), ops[1..], point, peer);
      forall i | 0 <= i < |ops|
        ensures !Asks(Apply(Run(f, ops[..i]), ops[i]).1, point, peer)
      {
        if i > 0 {
          assert ops[..i][0] == ops[0] && ops[..i][1..] == ops[1..][..i - 1];
        }
      }
    }
  }

  /** One peer's answer or failure never opens the gate while another request is pending. */
  lemma GateHeldWhilePending(f: Fetch, op: Op, point: Point, source: PeerId, other: PeerId)
    requires op == EbFetchFailed(source, point) || (op.EbReceived? && op.source == Some(source) && op.point == point)
    requires other != source && IsPending(f.tracker, point, other) && point in f.inFlight
    ensures point in Step(f, op).inFlight && IsPending(Step(f, op).tracker, point, other)
  {
    assert other in At(f.tracker.pendingEb, point) - {source};
  }

  // ---------------------------------------------------------------------------
  // EB-tx retries
  // ---------------------------------------------------------------------------

  ghost predicate WavesBounded(f: Fetch) {
    forall p :: p in f.waves ==> f.waves[p] <= f.maxWaves
  }

  ghost predicate WavesKept(f: Fetch, g: Fetch) {
    g.maxWaves == f.maxWaves && forall p :: p in g.waves ==> p in f.waves && g.waves[p] == f.waves[p]
  }

  lemma InitiateKeepsWaves(f: Fetch, point: Point, bitmap: Bitmap, now: nat, policy: Policy)
    ensures WavesKept(f, InitiateEbTxsFetch(f, point, bitmap, now, policy).0)
  {
  }

  lemma DoEbFetchKeepsWaves(f: Fetch, point: Point, now: nat, policy: Policy)
    ensures WavesKept(f, DoEbFetch(f, point, now, policy).0)
  {
  }

  lemma RetryKeepsWaves(f: Fetch, point: Point, bitmap: Bitmap, policy: Policy)
    ensures WavesKept(f, RetryEbTxs(f, point, bitmap, policy).0)
  {
    ReaskKeepsWaves(f, point, bitmap, policy(Ascending(EbTxsCandidates(f.tracker, point))));
  }

  lemma ReaskKeepsWaves(f: Fetch, point: Point, bitmap: Bitmap, peers: seq<PeerId>)
    ensures WavesKept(f, ReaskEbTxs(f, point, bitmap, peers).0)
  {
  }

  lemma OfferKeepsBound(f: Fetch, point: Point, peer: PeerId, bitmap: Bitmap, now: nat, policy: Policy)
    requires WavesBounded(f)
    ensures var g := OnEbTxsOffered(f, point, peer, bitmap, now, policy).0;
            WavesBounded(g) && g.maxWaves == f.maxWaves
  {
    hide InitiateEbTxsFetch;
    var e := EvictStale(f, now);
    var h := e.(tracker := e.tracker.(ebTxsOffers := AddAt(e.tracker.ebTxsOffers, point, {peer})));
    InitiateKeepsWaves(if point in h.waves then h else h.(waves := h.waves[point := 1]), point, bitmap, now, policy);
  }

  lemma NextWaveKeepsBound(f: Fetch, point: Point, bitmap: Bitmap, now: nat, policy: Policy)
    requires WavesBounded(f)
    ensures var g := InitiateNextWave(f, point, bitmap, now, policy).0;
            WavesBounded(g) && g.maxWaves == f.maxWaves
  {
    if point in f.waves {
      var tracker := f.tracker.(ebTxsAttempts := f.tracker.ebTxsAttempts - {point});
      var h := f.(waves := f.waves[point := f.waves[point] + 1], tracker := tracker);
      InitiateKeepsWaves(h, point, bitmap, now, policy);
    }
  }

  lemma StepKeepsWavesBounded(f: Fetch, op: Op)
    requires WavesBounded(f)
    ensures WavesBounded(Step(f, op)) && Step(f, op).maxWaves == f.maxWaves
  {
    hide DoEbFetch, OnEbTxsOffered, InitiateNextWave, InitiateEbTxsFetch, RetryEbTxs, Match;
    match op
    case MatchTxs(at, bodies) => MatchQuiet(f, at, bodies);
    case EbOffered(at, who, now, policy) =>
      DoEbFetchKeepsWaves(f.(tracker := f.tracker.(ebOffers := AddAt(f.tracker.ebOffers, at, {who}))), at, now, policy);
    case RetryEb(at, now, policy) => DoEbFetchKeepsWaves(f, at, now, policy);
    case EbTxsOffered(at, who, bitmap, now, policy) => OfferKeepsBound(f, at, who, bitmap, now, policy);
    case NextWave(at, bitmap, now, policy) => NextWaveKeepsBound(f, at, bitmap, now, policy);
    case InitiateTxs(at, bitmap, now, policy) => InitiateKeepsWaves(f, at, bitmap, now, policy);
    case RetryTxs(at, bitmap, policy) => RetryKeepsWaves(f, at, bitmap, policy);
    case _ =>
  }

  /** No point is ever on a later wave than the configured limit. */
  lemma {:induction false} RunKeepsWavesBounded(f: Fetch, ops: seq<Op>)
    requires WavesBounded(f)
    ensures WavesBounded(Run(f, ops)) && Run(f, ops).maxWaves == f.maxWaves
    decreases |ops|
  {
    if ops != [] {
      StepKeepsWavesBounded(f, ops[0]);
      RunKeepsWavesBounded(Step(f, ops[0]), ops[1..]);
    }
  }

  ghost function Attempted(f: Fetch, point: Point): set<PeerId> {
    At(f.tracker.ebTxsAttempts, point)
  }

  ghost function Offerers(f: Fetch, point: Point): set<PeerId> {
    EbTxsOfferers(f.tracker, point)
  }

  ghost function WavesLeft(f: Fetch, point: Point): nat {
    SaturatingSub(f.maxWaves, if point in f.waves then f.waves[point] else 0)
  }

  /** Peers that may still be named by a retry, now and in later waves. */
  ghost function RetryBudget(f: Fetch, point: Point): nat {
    WavesLeft(f, point) * |Offerers(f, point)| + |Offerers(f, point) - Attempted(f, point)|
  }

  /** A retry names only offerers not asked in the current wave, at least one of them. */
  lemma RetryNamesFreshPeers(f: Fetch, point: Point, bitmap: Bitmap, policy: Policy)
    requires ChoosesAmongCandidates(policy) && RetryEbTxs(f, point, bitmap, policy).1 != []
    ensures RetryIsFresh(f, point, bitmap, RetryEbTxs(f, point, bitmap, policy))
  {
    var candidates := Ascending(EbTxsCandidates(f.tracker, point));
    var peers := policy(candidates);
    assert Elements(peers) <= Elements(candidates) == Offerers(f, point) - Attempted(f, point);
    ReaskIsFresh(f, point, bitmap, peers);
  }

  ghost predicate RetryIsFresh(f: Fetch, point: Point, bitmap: Bitmap, r: (Fetch, seq<Effect>)) {
    && |r.1| == 1 && r.1[0].FetchLeiosBlockTxs? && r.1[0].point == point && r.1[0].bitmap == bitmap
    && r.1[0].peers != []
    && Elements(r.1[0].peers) <= Offerers(f, point) - Attempted(f, point)
    && Attempted(r.0, point) == Attempted(f, point) + Elements(r.1[0].peers)
    && Offerers(r.0, point) == Offerers(f, point) && WavesLeft(r.0, point) == WavesLeft(f, point)
  }

  lemma ReaskIsFresh(f: Fetch, point: Point, bitmap: Bitmap, peers: seq<PeerId>)
    requires Elements(peers) <= Offerers(f, point) - Attempted(f, point)
    requires ReaskEbTxs(f, point, bitmap, peers).1 != []
    ensures RetryIsFresh(f, point, bitmap, ReaskEbTxs(f, point, bitmap, peers))
  {
  }

  lemma SubsetSize(a: set<PeerId>, b: set<PeerId>)
    requires a <= b
    ensures |a| <= |b|
    ensures a != b ==> |a| < |b|
  {
    assert b == a + (b - a);
    assert |b| == |a| + |b - a|;
  }

  lemma Product(a: nat, b: nat, n: nat)
    requires a <= b
    ensures a * n <= b * n
  {
  }

  lemma RetrySpendsOne(f: Fetch, point: Point, bitmap: Bitmap, policy: Policy)
    requires ChoosesAmongCandidates(policy) && RetryEbTxs(f, point, bitmap, policy).1 != []
    ensures RetryBudget(RetryEbTxs(f, point, bitmap, policy).0, point) + 1 <= RetryBudget(f, point)
  {
    var (g, fx) := RetryEbTxs(f, point, bitmap, policy);
    RetryNamesFreshPeers(f, point, bitmap, policy);
    SmallerRest(Offerers(f, point), Attempted(f, point), Elements(fx[0].peers), fx[0].peers[0]);
  }

  lemma SmallerRest(offerers: set<PeerId>, before: set<PeerId>, added: set<PeerId>, peer: PeerId)
    requires peer in added && added <= offerers - before
    ensures |offerers - (before + added)| + 1 <= |offerers - before|
  {
    assert peer in offerers - before && peer !in offerers - (before + added);
    SubsetSize(offerers - (before + added), offerers - before);
  }

  /** Attempts and waves move only in the directions that spend the budget. */
  ghost predicate Spends(f: Fetch, g: Fetch, point: Point) {
    || (WavesLeft(g, point) <= WavesLeft(f, point) && Attempted(f, point) <= Attempted(g, point))
    || WavesLeft(g, point) < WavesLeft(f, point)
  }

  lemma SpendingKeepsBudget(f: Fetch, g: Fetch, point: Point)
    requires Spends(f, g, point) && Offerers(g, point) == Offerers(f, point)
    ensures RetryBudget(g, point) <= RetryBudget(f, point)
  {
    var offerers := Offerers(f, point);
    if WavesLeft(g, point) < WavesLeft(f, point) {
      SubsetSize(offerers - Attempted(g, point), offerers);
      Product(WavesLeft(g, point) + 1, WavesLeft(f, point), |offerers|);
      assert (WavesLeft(g, point) + 1) * |offerers| == WavesLeft(g, point) * |offerers| + |offerers|;
    } else {
      SubsetSize(offerers - Attempted(g, point), offerers - Attempted(f, point));
      Product(WavesLeft(g, point), WavesLeft(f, point), |offerers|);
    }
  }

  lemma InitiateSpends(f: Fetch, at: Point, bitmap: Bitmap, now: nat, policy: Policy, point: Point)
    ensures var g := InitiateEbTxsFetch(f, at, bitmap, now, policy).0;
            Attempted(f, point) <= Attempted(g, point) && WavesLeft(g, point) == WavesLeft(f, point)
  {
    if at.Specific? {
      AskSpends(f, at, bitmap, now, policy(Ascending(EbTxsCandidates(f.tracker, at))), point);
    }
  }

  lemma AskSpends(f: Fetch, at: Point, bitmap: Bitmap, now: nat, peers: seq<PeerId>, point: Point)
    requires at.Specific?
    ensures var g := AskEbTxs(f, at, bitmap, now, peers).0;
            Attempted(f, point) <= Attempted(g, point) && WavesLeft(g, point) == WavesLeft(f, point)
  {
  }

  lemma OfferSpends(f: Fetch, at: Point, peer: PeerId, bitmap: Bitmap, now: nat, policy: Policy, point: Point)
    ensures Spends(f, OnEbTxsOffered(f, at, peer, bitmap, now, policy).0, point)
  {
    hide InitiateFirstEbTxsFetch, Spends;
    var e := EvictStale(f, now);
    var h := e.(tracker := e.tracker.(ebTxsOffers := AddAt(e.tracker.ebTxsOffers, at, {peer})));
    SameAttemptsSpend(f, e, point);
    FirstFetchSpends(h, at, bitmap, now, policy, point);
    SpendsAfter(f, h, InitiateFirstEbTxsFetch(h, at, bitmap, now, policy).0, point);
    SameAttemptsSpend(f, f, point);
  }

  lemma SameAttemptsSpend(f: Fetch, g: Fetch, point: Point)
    requires g.tracker.ebTxsAttempts == f.tracker.ebTxsAttempts && g.waves == f.waves && g.maxWaves == f.maxWaves
    ensures Spends(f, g, point)
  {
  }

  lemma SpendsAfter(f: Fetch, h: Fetch, g: Fetch, point: Point)
    requires h.tracker.ebTxsAttempts == f.tracker.ebTxsAttempts && h.waves == f.waves && h.maxWaves == f.maxWaves
    requires Spends(h, g, point)
    ensures Spends(f, g, point)
  {
  }

  lemma FirstFetchSpends(f: Fetch, at: Point, bitmap: Bitmap, now: nat, policy: Policy, point: Point)
    ensures Spends(f, InitiateFirstEbTxsFetch(f, at, bitmap, now, policy).0, point)
  {
    hide InitiateEbTxsFetch;
    InitiateSpends(if at in f.waves then f else f.(waves := f.waves[at := 1]), at, bitmap, now, policy, point);
  }

  lemma NextWaveSpends(f: Fetch, at: Point, bitmap: Bitmap, now: nat, policy: Policy, point: Point)
    ensures Spends(f, InitiateNextWave(f, at, bitmap, now, policy).0, point)
  {
    hide InitiateEbTxsFetch;
    if at in f.waves && f.waves[at] < f.maxWaves {
      var h := NextWaveState(f, at);
      NextWaveStateSpends(f, at, point);
      InitiateSpends(h, at, bitmap, now, policy, point);
    }
  }

  ghost function NextWaveState(f: Fetch, at: Point): Fetch
    requires at in f.waves
  {
    f.(waves := f.waves[at := f.waves[at] + 1],
       tracker := f.tracker.(ebTxsAttempts := f.tracker.ebTxsAttempts - {at}))
  }

  lemma NextWaveStateSpends(f: Fetch, at: Point, point: Point)
    requires at in f.waves && f.waves[at] < f.maxWaves
    ensures if at == point then WavesLeft(NextWaveState(f, at), point) < WavesLeft(f, point)
            else WavesLeft(NextWaveState(f, at), point) == WavesLeft(f, point)
                 && Attempted(NextWaveState(f, at), point) == Attempted(f, point)
  {
  }

  lemma RetrySpends(f: Fetch, at: Point, bitmap: Bitmap, policy: Policy, point: Point)
    ensures Spends(f, RetryEbTxs(f, at, bitmap, policy).0, point)
  {
    ReaskSpends(f, at, bitmap, policy(Ascending(EbTxsCandidates(f.tracker, at))), point);
  }

  lemma ReaskSpends(f: Fetch, at: Point, bitmap: Bitmap, peers: seq<PeerId>, point: Point)
    ensures Spends(f, ReaskEbTxs(f, at, bitmap, peers).0, point)
  {
  }

  lemma DoEbFetchSpends(f: Fetch, at: Point, now: nat, policy: Policy, point: Point)
    ensures Spends(f, DoEbFetch(f, at, now, policy).0, point)
  {
  }

  predicate OffersMayLeave(op: Op) {
    op.Disconnect? || op.Prune?
  }

  lemma StepSpends(f: Fetch, op: Op, point: Point)
    requires !OffersMayLeave(op)
    ensures Spends(f, Step(f, op), point)
  {
    hide OnEbOffered, DoEbFetch, OnEbTxsOffered, InitiateNextWave, InitiateEbTxsFetch, RetryEbTxs,
         OnEbReceived, FinishEb, OnEbTxsReceived, Match;
    match op
    case EbOffered(at, who, now, policy) => EbOfferSpends(f, at, who, now, policy, point);
    case RetryEb(at, now, policy) => DoEbFetchSpends(f, at, now, policy, point);
    case EbTxsOffered(at, who, bitmap, now, policy) => OfferSpends(f, at, who, bitmap, now, policy, point);
    case NextWave(at, bitmap, now, policy) => NextWaveSpends(f, at, bitmap, now, policy, point);
    case InitiateTxs(at, bitmap, now, policy) => InitiateSpends(f, at, bitmap, now, policy, point);
    case RetryTxs(at, bitmap, policy) => RetrySpends(f, at, bitmap, policy, point);
    case EbReceived(source, at, manifest) => ReceptionSpends(f, source, at, manifest, point);
    case EbFetchFailed(peer, at) => FinishSpends(f, peer, at, point);
    case EbTxsReceived(at) => TxReceptionSpends(f, at, point);
    case MatchTxs(at, bodies) => MatchQuiet(f, at, bodies);
    case TakePostponed =>
  }

  lemma EbOfferSpends(f: Fetch, at: Point, who: PeerId, now: nat, policy: Policy, point: Point)
    ensures Spends(f, OnEbOffered(f, at, who, now, policy).0, point)
  {
    hide DoEbFetch;
    DoEbFetchSpends(f.(tracker := f.tracker.(ebOffers := AddAt(f.tracker.ebOffers, at, {who}))), at, now, policy, point);
  }

  lemma FinishSpends(f: Fetch, source: PeerId, at: Point, point: Point)
    ensures Spends(f, FinishEb(f, source, at), point)
  {
  }

  lemma ReceptionSpends(f: Fetch, source: Option<PeerId>, at: Point, manifest: Option<seq<TxId>>, point: Point)
    ensures Spends(f, OnEbReceived(f, source, at, manifest).0, point)
  {
    hide FinishEb;
    if source.Some? {
      FinishSpends(f, source.value, at, point);
    }
  }

  lemma TxReceptionSpends(f: Fetch, at: Point, point: Point)
    ensures Spends(f, OnEbTxsReceived(f, at), point)
  {
  }

  predicate IsRetryEffect(op: Op, fx: seq<Effect>, point: Point) {
    op.RetryTxs? && op.point == point && fx != []
  }

  /** The peers offering `point` stay the same, with no disconnects and no pruning. */
  ghost predicate OffersFixed(f: Fetch, ops: seq<Op>, point: Point)
    decreases |ops|
  {
    ops == [] ||
    (&& ValidPolicy(ops[0]) && !OffersMayLeave(ops[0])
     && Offerers(Step(f, ops[0]), point) == Offerers(f, point)
     && OffersFixed(Step(f, ops[0]), ops[1..], point))
  }

  ghost function RetryCount(f: Fetch, ops: seq<Op>, point: Point): nat
    decreases |ops|
  {
    if ops == [] then 0
    else (if IsRetryEffect(ops[0], Apply(f, ops[0]).1, point) then 1 else 0)
         + RetryCount(Step(f, ops[0]), ops[1..], point)
  }

  lemma StepBudget(f: Fetch, op: Op, point: Point)
    requires ValidPolicy(op) && !OffersMayLeave(op) && Offerers(Step(f, op), point) == Offerers(f, point)
    ensures RetryBudget(Step(f, op), point)
            + (if IsRetryEffect(op, Apply(f, op).1, point) then 1 else 0) <= RetryBudget(f, point)
  {
    if IsRetryEffect(op, Apply(f, op).1, point) {
      RetrySpendsOne(f, point, op.bitmap, op.policy);
    } else {
      StepSpends(f, op, point);
      SpendingKeepsBudget(f, Step(f, op), point);
    }
  }

  /** Retries end: whatever the responses and however the waves interleave, the retry effects of a
      run never exceed the unasked peers of this wave plus all offering peers of each wave left. */
  lemma {:induction false} RetriesAreBounded(f: Fetch, ops: seq<Op>, point: Point)
    requires OffersFixed(f, ops, point)
    ensures RetryCount(f, ops, point) <= RetryBudget(f, point)
    decreases |ops|
  {
    if ops != [] {
      RetriesAreBounded(Step(f, ops[0]), ops[1..], point);
      StepBudget(f, ops[0], point);
    }
  }

  /** From the first wave on: at most the wave limit times the offering peers. */
  lemma RetriesFromFirstWave(f: Fetch, ops: seq<Op>, point: Point)
    requires OffersFixed(f, ops, point)
    requires point in f.waves && 1 <= f.waves[point] <= f.maxWaves
    ensures RetryCount(f, ops, point) <= f.maxWaves * |Offerers(f, point)|
  {
    var offerers := Offerers(f, point);
    RetriesAreBounded(f, ops, point);
    SubsetSize(offerers - Attempted(f, point), offerers);
    Product(WavesLeft(f, point) + 1, f.maxWaves, |offerers|);
    assert (WavesLeft(f, point) + 1) * |offerers| == WavesLeft(f, point) * |offerers| + |offerers|;
  }

  // ---------------------------------------------------------------------------
  // After a response
  // ---------------------------------------------------------------------------

  /** Once a response is in, the next request for the EB goes out exactly when something is missing
      and the policy finds a peer not asked in this wave. */
  lemma ReceptionOpensGate(f: Fetch, point: Point, bitmap: Bitmap, now: nat, policy: Policy)
    ensures var g := OnEbTxsReceived(f, point);
            var peers := policy(Ascending(EbTxsCandidates(f.tracker, point)));
            && InitiateEbTxsFetch(g, point, bitmap, now, policy).1 ==
               (if point.Origin? || bitmap == map[] || peers == [] then []
                else [FetchLeiosBlockTxs(point, bitmap, peers)])
            && RetryEbTxs(g, point, bitmap, policy).1 ==
               (if bitmap == map[] || peers == [] then [] else [FetchLeiosBlockTxs(point, bitmap, peers)])
  {
    var g := OnEbTxsReceived(f, point);
    assert EbTxsCandidates(g.tracker, point) == EbTxsCandidates(f.tracker, point);
  }
}
