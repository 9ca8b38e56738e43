/** Pruning behind the chain tip is invisible at every point that is not behind it. */
module FetchPruning {
  import opened Types
  import opened Ordered
  import opened Bitmap
  import opened FetchModel
  import opened FetchRuns
  import opened EbTxMatch

  /** All that the fetch state says about one point. */
  datatype PointView = PointView(
    ebOffers: set<PeerId>, ebTxsOffers: set<PeerId>, attempts: set<PeerId>,
    pendingEb: Option<set<PeerId>>, pendingEbTxs: bool, postponed: bool, wave: Option<nat>)

  function Lookup<K, V>(m: map<K, V>, k: K): Option<V> {
    if k in m then Some(m[k]) else None
  }

  function View(f: Fetch, p: Point): PointView {
    PointView(At(f.tracker.ebOffers, p), At(f.tracker.ebTxsOffers, p), At(f.tracker.ebTxsAttempts, p),
              Lookup(f.tracker.pendingEb, p), p in f.tracker.pendingEbTxs, p in f.nextWave, Lookup(f.waves, p))
  }

  ghost predicate Kept(p: Point, min: nat) {
    p.Specific? && p.slot >= min
  }

  ghost predicate SameGates(f: Fetch, g: Fetch) {
    f.inFlight == g.inFlight && f.maxWaves == g.maxWaves
  }

  /** The two states agree on everything from slot `min` on. The gates they share outright. */
  ghost predicate AgreeFrom(f: Fetch, g: Fetch, min: nat) {
    SameGates(f, g) && forall p :: Kept(p, min) ==> View(f, p) == View(g, p)
  }

  /** The operation concerns no point before `min`. */
  ghost predicate Concerns(op: Op, min: nat) {
    match op
    case TakePostponed => true
    case Disconnect(_) => true
    case Prune(_) => true
    case EbOffered(p, _, _, _) => Kept(p, min)
    case RetryEb(p, _, _) => Kept(p, min)
    case EbReceived(_, p, _) => Kept(p, min)
    case EbFetchFailed(_, p) => Kept(p, min)
    case EbTxsOffered(p, _, _, _, _) => Kept(p, min)
    case NextWave(p, _, _, _) => Kept(p, min)
    case InitiateTxs(p, _, _, _) => Kept(p, min)
    case EbTxsReceived(p) => Kept(p, min)
    case MatchTxs(p, _) => Kept(p, min)
    case RetryTxs(p, _, _) => Kept(p, min)
  }

  lemma PruneAgrees(f: Fetch, min: nat)
    ensures AgreeFrom(f, PruneChainProgress(f, min), min)
  {
  }

  // ---------------------------------------------------------------------------
  // Operations at one point
  // ---------------------------------------------------------------------------

  /** `g` differs from `f` at `p` alone. */
  ghost predicate OnlyAt(f: Fetch, g: Fetch, p: Point) {
    forall q :: q != p ==> View(g, q) == View(f, q)
  }

  lemma Joins(f: Fetch, g: Fetch, f': Fetch, g': Fetch, min: nat, p: Point)
    requires AgreeFrom(f, g, min) && OnlyAt(f, f', p) && OnlyAt(g, g', p)
    requires SameGates(f', g') && View(f', p) == View(g', p)
    ensures AgreeFrom(f', g', min)
  {
    hide View;
  }

  lemma AskEbLocal(f: Fetch, p: Point, now: nat, peers: seq<PeerId>)
    ensures OnlyAt(f, AskEb(f, p, now, peers).0, p)
  {
  }

  ghost function Pending(v: PointView): set<PeerId> {
    v.pendingEb.GetOr({})
  }

  lemma AskEbView(f: Fetch, p: Point, now: nat, peers: seq<PeerId>)
    ensures var (f', fx) := AskEb(f, p, now, peers);
            var v := View(f, p);
            var asks := peers != [] && Elements(peers) * Pending(v) == {};
            && fx == (if asks then [FetchLeiosBlock(p, peers)] else [])
            && f'.inFlight == (if asks then f.inFlight[p := now] else f.inFlight) && f'.maxWaves == f.maxWaves
            && View(f', p) == if asks then v.(pendingEb := Some(Pending(v) + Elements(peers))) else v
  {
    assert Pending(View(f, p)) == At(f.tracker.pendingEb, p);
  }

  lemma AskEbAlike(f: Fetch, g: Fetch, p: Point, now: nat, peers: seq<PeerId>)
    requires SameGates(f, g) && View(f, p) == View(g, p)
    ensures var (f', fx) := AskEb(f, p, now, peers);
            var (g', gx) := AskEb(g, p, now, peers);
            fx == gx && SameGates(f', g') && View(f', p) == View(g', p)
  {
    hide AskEb, View;
    AskEbView(f, p, now, peers);
    AskEbView(g, p, now, peers);
  }

  lemma DoEbFetchLocal(f: Fetch, p: Point, now: nat, policy: Policy)
    ensures OnlyAt(f, DoEbFetch(f, p, now, policy).0, p)
  {
    hide AskEb;
    var e := EvictStale(f, now);
    assert forall q :: View(e, q) == View(f, q);
    AskEbLocal(e, p, now, policy(Ascending(AvailableEbCandidates(e.tracker, p))));
  }

  lemma DoEbFetchAlike(f: Fetch, g: Fetch, p: Point, now: nat, policy: Policy)
    requires SameGates(f, g) && View(f, p) == View(g, p)
    ensures var (f', fx) := DoEbFetch(f, p, now, policy);
            var (g', gx) := DoEbFetch(g, p, now, policy);
            fx == gx && SameGates(f', g') && View(f', p) == View(g', p)
  {
    hide AskEb;
    var e, d := EvictStale(f, now), EvictStale(g, now);
    assert View(e, p) == View(f, p) && View(d, p) == View(g, p);
    assert AvailableEbCandidates(e.tracker, p) == AvailableEbCandidates(d.tracker, p);
    AskEbAlike(e, d, p, now, policy(Ascending(AvailableEbCandidates(e.tracker, p))));
  }

  ghost function WithOffer(f: Fetch, p: Point, peer: PeerId): Fetch {
    f.(tracker := f.tracker.(ebOffers := AddAt(f.tracker.ebOffers, p, {peer})))
  }

  lemma WithOfferAlike(f: Fetch, g: Fetch, p: Point, peer: PeerId)
    requires SameGates(f, g) && View(f, p) == View(g, p)
    ensures OnlyAt(f, WithOffer(f, p, peer), p) && SameGates(WithOffer(f, p, peer), WithOffer(g, p, peer))
    ensures View(WithOffer(f, p, peer), p) == View(WithOffer(g, p, peer), p)
  {
  }

  lemma PendingIs(f: Fetch, p: Point)
    ensures Pending(View(f, p)) == At(f.tracker.pendingEb, p)
  {
  }

  lemma PendingLeftView(f: Fetch, p: Point, left: set<PeerId>)
    ensures View(f.(tracker := f.tracker.(pendingEb := f.tracker.pendingEb[p := left])), p)
            == View(f, p).(pendingEb := Some(left))
  {
    hide At;
  }

  lemma PendingGoneView(f: Fetch, p: Point)
    ensures View(f.(tracker := f.tracker.(pendingEb := f.tracker.pendingEb - {p})), p)
            == View(f, p).(pendingEb := None)
  {
    hide At;
    assert p !in f.tracker.pendingEb - {p};
  }

  lemma GatesAreNotViewed(f: Fetch, gates: map<Point, nat>, p: Point)
    ensures View(f.(inFlight := gates), p) == View(f, p)
  {
  }

  lemma FinishEbView(f: Fetch, source: PeerId, p: Point)
    ensures var f', v := FinishEb(f, source, p), View(f, p);
            var left := Pending(v) - {source};
            && f'.inFlight == (if left != {} then f.inFlight else f.inFlight - {p}) && f'.maxWaves == f.maxWaves
            && View(f', p) == v.(pendingEb := if left != {} then Some(left) else None)
  {
    hide View, Pending;
    var left := At(f.tracker.pendingEb, p) - {source};
    PendingIs(f, p);
    PendingLeftView(f, p, left);
    PendingGoneView(f, p);
    var gone := f.(tracker := f.tracker.(pendingEb := f.tracker.pendingEb - {p}));
    GatesAreNotViewed(gone, f.inFlight - {p}, p);
    if left == {} {
      assert FinishEb(f, source, p) == gone.(inFlight := f.inFlight - {p});
    }
  }

  lemma FinishEbAlike(f: Fetch, g: Fetch, source: PeerId, p: Point)
    requires SameGates(f, g) && View(f, p) == View(g, p)
    ensures OnlyAt(f, FinishEb(f, source, p), p)
    ensures SameGates(FinishEb(f, source, p), FinishEb(g, source, p))
    ensures View(FinishEb(f, source, p), p) == View(FinishEb(g, source, p), p)
  {
    hide FinishEb, View;
    FinishEbLocal(f, source, p);
    FinishEbView(f, source, p);
    FinishEbView(g, source, p);
  }

  lemma FinishEbLocal(f: Fetch, source: PeerId, p: Point)
    ensures OnlyAt(f, FinishEb(f, source, p), p)
  {
  }

  lemma ReceptionAlike(f: Fetch, g: Fetch, source: Option<PeerId>, p: Point, manifest: Option<seq<TxId>>)
    requires SameGates(f, g) && View(f, p) == View(g, p)
    ensures var (f', fx) := OnEbReceived(f, source, p, manifest);
            var (g', gx) := OnEbReceived(g, source, p, manifest);
            fx == gx && OnlyAt(f, f', p) && SameGates(f', g') && View(f', p) == View(g', p)
  {
    hide FinishEb;
    if source.Some? {
      FinishEbAlike(f, g, source.value, p);
    }
  }

  lemma AskEbTxsLocal(f: Fetch, p: Point, bitmap: Bitmap, now: nat, peers: seq<PeerId>)
    requires p.Specific?
    ensures OnlyAt(f, AskEbTxs(f, p, bitmap, now, peers).0, p)
  {
  }

  lemma AskEbTxsAlike(f: Fetch, g: Fetch, p: Point, bitmap: Bitmap, now: nat, peers: seq<PeerId>)
    requires p.Specific? && SameGates(f, g) && View(f, p) == View(g, p)
    ensures var (f', fx) := AskEbTxs(f, p, bitmap, now, peers);
            var (g', gx) := AskEbTxs(g, p, bitmap, now, peers);
            fx == gx && SameGates(f', g') && View(f', p) == View(g', p)
  {
  }

  lemma InitiateLocal(f: Fetch, p: Point, bitmap: Bitmap, now: nat, policy: Policy)
    ensures OnlyAt(f, InitiateEbTxsFetch(f, p, bitmap, now, policy).0, p)
  {
    hide AskEbTxs, OnlyAt, View;
    if p.Specific? {
      AskEbTxsLocal(f, p, bitmap, now, policy(Ascending(EbTxsCandidates(f.tracker, p))));
    }
    Unchanged(f, p);
  }

  lemma Unchanged(f: Fetch, p: Point)
    ensures OnlyAt(f, f, p)
  {
  }

  lemma InitiateAlike(f: Fetch, g: Fetch, p: Point, bitmap: Bitmap, now: nat, policy: Policy)
    requires SameGates(f, g) && View(f, p) == View(g, p)
    ensures var (f', fx) := InitiateEbTxsFetch(f, p, bitmap, now, policy);
            var (g', gx) := InitiateEbTxsFetch(g, p, bitmap, now, policy);
            fx == gx && SameGates(f', g') && View(f', p) == View(g', p)
  {
    hide AskEbTxs;
    assert EbTxsCandidates(f.tracker, p) == EbTxsCandidates(g.tracker, p);
    if p.Specific? {
      AskEbTxsAlike(f, g, p, bitmap, now, policy(Ascending(EbTxsCandidates(f.tracker, p))));
    }
  }

  /** The state in which an offer of EB txs tries its first fetch. */
  ghost function Offered(f: Fetch, p: Point, peer: PeerId, now: nat): Fetch {
    var e := EvictStale(f, now);
    e.(tracker := e.tracker.(ebTxsOffers := AddAt(e.tracker.ebTxsOffers, p, {peer})))
  }

  ghost function Started(f: Fetch, p: Point): Fetch {
    if p in f.waves then f else f.(waves := f.waves[p := 1])
  }

  lemma OfferedAlike(f: Fetch, g: Fetch, p: Point, peer: PeerId, now: nat)
    requires SameGates(f, g) && View(f, p) == View(g, p)
    ensures OnlyAt(f, Offered(f, p, peer, now), p) && SameGates(Offered(f, p, peer, now), Offered(g, p, peer, now))
    ensures View(Offered(f, p, peer, now), p) == View(Offered(g, p, peer, now), p)
  {
  }

  lemma StartedAlike(f: Fetch, g: Fetch, p: Point)
    requires SameGates(f, g) && View(f, p) == View(g, p)
    ensures OnlyAt(f, Started(f, p), p) && SameGates(Started(f, p), Started(g, p))
    ensures View(Started(f, p), p) == View(Started(g, p), p)
  {
  }

  lemma OfferIs(f: Fetch, p: Point, peer: PeerId, bitmap: Bitmap, now: nat, policy: Policy)
    requires p.Specific?
    ensures OnEbTxsOffered(f, p, peer, bitmap, now, policy) ==
            if f.maxWaves == 0 then (f, [])
            else if bitmap == map[] then (Offered(f, p, peer, now), [])
            else InitiateEbTxsFetch(Started(Offered(f, p, peer, now), p), p, bitmap, now, policy)
  {
    hide InitiateEbTxsFetch;
  }

  lemma OfferAlike(f: Fetch, g: Fetch, p: Point, peer: PeerId, bitmap: Bitmap, now: nat, policy: Policy)
    requires p.Specific? && SameGates(f, g) && View(f, p) == View(g, p)
    ensures var (f', fx) := OnEbTxsOffered(f, p, peer, bitmap, now, policy);
            var (g', gx) := OnEbTxsOffered(g, p, peer, bitmap, now, policy);
            fx == gx && OnlyAt(f, f', p) && SameGates(f', g') && View(f', p) == View(g', p)
  {
    hide OnEbTxsOffered, InitiateEbTxsFetch, Offered, Started, View;
    OfferIs(f, p, peer, bitmap, now, policy);
    OfferIs(g, p, peer, bitmap, now, policy);
    OfferedAlike(f, g, p, peer, now);
    var e, d := Offered(f, p, peer, now), Offered(g, p, peer, now);
    StartedAlike(e, d, p);
    InitiateAlike(Started(e, p), Started(d, p), p, bitmap, now, policy);
    InitiateLocal(Started(e, p), p, bitmap, now, policy);
  }

  lemma NextWaveStateAlike(f: Fetch, g: Fetch, p: Point)
    requires p in f.waves && SameGates(f, g) && View(f, p) == View(g, p)
    ensures p in g.waves && SameGates(NextWaveState(f, p), NextWaveState(g, p)) && OnlyAt(f, NextWaveState(f, p), p)
    ensures View(NextWaveState(f, p), p) == View(NextWaveState(g, p), p)
  {
  }

  lemma SameWave(f: Fetch, g: Fetch, p: Point)
    requires View(f, p) == View(g, p)
    ensures p in f.waves <==> p in g.waves
    ensures p in f.waves ==> f.waves[p] == g.waves[p]
  {
  }

  lemma NextWaveAlike(f: Fetch, g: Fetch, p: Point, bitmap: Bitmap, now: nat, policy: Policy)
    requires SameGates(f, g) && View(f, p) == View(g, p)
    ensures var (f', fx) := InitiateNextWave(f, p, bitmap, now, policy);
            var (g', gx) := InitiateNextWave(g, p, bitmap, now, policy);
            fx == gx && OnlyAt(f, f', p) && SameGates(f', g') && View(f', p) == View(g', p)
  {
    hide InitiateEbTxsFetch, View;
    SameWave(f, g, p);
    if p in f.waves && f.waves[p] < f.maxWaves {
      NextWaveStateAlike(f, g, p);
      InitiateAlike(NextWaveState(f, p), NextWaveState(g, p), p, bitmap, now, policy);
      InitiateLocal(NextWaveState(f, p), p, bitmap, now, policy);
    }
  }

  lemma ReaskLocal(f: Fetch, p: Point, bitmap: Bitmap, peers: seq<PeerId>)
    ensures OnlyAt(f, ReaskEbTxs(f, p, bitmap, peers).0, p)
  {
  }

  lemma ReaskView(f: Fetch, p: Point, bitmap: Bitmap, peers: seq<PeerId>)
    ensures var (f', fx) := ReaskEbTxs(f, p, bitmap, peers);
            var v := View(f, p);
            && fx == (if peers == [] || v.pendingEbTxs then [] else [FetchLeiosBlockTxs(p, bitmap, peers)])
            && SameGates(f, f')
            && View(f', p) == if peers == [] then v.(postponed := true)
                              else if v.pendingEbTxs then v
                              else v.(pendingEbTxs := true, attempts := v.attempts + Elements(peers))
  {
  }

  lemma ReaskAlike(f: Fetch, g: Fetch, p: Point, bitmap: Bitmap, peers: seq<PeerId>)
    requires SameGates(f, g) && View(f, p) == View(g, p)
    ensures var (f', fx) := ReaskEbTxs(f, p, bitmap, peers);
            var (g', gx) := ReaskEbTxs(g, p, bitmap, peers);
            fx == gx && SameGates(f', g') && View(f', p) == View(g', p)
  {
    hide ReaskEbTxs, View;
    ReaskView(f, p, bitmap, peers);
    ReaskView(g, p, bitmap, peers);
  }

  lemma RetryAlike(f: Fetch, g: Fetch, p: Point, bitmap: Bitmap, policy: Policy)
    requires SameGates(f, g) && View(f, p) == View(g, p)
    ensures var (f', fx) := RetryEbTxs(f, p, bitmap, policy);
            var (g', gx) := RetryEbTxs(g, p, bitmap, policy);
            fx == gx && OnlyAt(f, f', p) && SameGates(f', g') && View(f', p) == View(g', p)
  {
    hide ReaskEbTxs;
    assert EbTxsCandidates(f.tracker, p) == EbTxsCandidates(g.tracker, p);
    var peers := policy(Ascending(EbTxsCandidates(f.tracker, p)));
    ReaskAlike(f, g, p, bitmap, peers);
    ReaskLocal(f, p, bitmap, peers);
  }

  lemma MatchIsQuiet(f: Fetch, p: Point, bodies: seq<(TxBody, TxId)>)
    ensures var f' := Match(f, p, bodies).0;
            && OnlyAt(f, f', p) && SameGates(f, f')
            && View(f', p) == View(f, p).(pendingEbTxs := false)
  {
    hide Match;
    MatchQuiet(f, p, bodies);
    var f' := Match(f, p, bodies).0;
    assert forall q :: View(f', q) == View(f, q).(pendingEbTxs := q != p && q in f.tracker.pendingEbTxs);
  }

  lemma TxReceptionAlike(f: Fetch, g: Fetch, p: Point)
    requires SameGates(f, g) && View(f, p) == View(g, p)
    ensures OnlyAt(f, OnEbTxsReceived(f, p), p) && SameGates(OnEbTxsReceived(f, p), OnEbTxsReceived(g, p))
    ensures View(OnEbTxsReceived(f, p), p) == View(OnEbTxsReceived(g, p), p)
  {
  }

  // ---------------------------------------------------------------------------
  // Operations on every point
  // ---------------------------------------------------------------------------

  lemma DisconnectView(f: Fetch, peer: PeerId, q: Point)
    ensures var v := View(f, q);
            View(ForgetPeer(f, peer), q) == v.(
              ebOffers := v.ebOffers - {peer}, ebTxsOffers := v.ebTxsOffers - {peer}, attempts := v.attempts - {peer},
              pendingEb := match v.pendingEb case Some(s) => Some(s - {peer}) case None => None)
  {
  }

  lemma PruneView(f: Fetch, minKeep: nat, q: Point)
    requires q.Specific?
    ensures var v, old' := View(f, q), q.slot < SaturatingSub(minKeep, RETENTION_SLOTS);
            View(PruneChainProgress(f, minKeep), q) ==
            PointView(if old' then {} else v.ebOffers, if old' then {} else v.ebTxsOffers,
                      if old' then {} else v.attempts, if old' then None else v.pendingEb,
                      !old' && v.pendingEbTxs, q.slot >= minKeep && v.postponed,
                      if q.slot >= minKeep then v.wave else None)
  {
  }

  lemma EverywhereAlike(f: Fetch, g: Fetch, min: nat, op: Op)
    requires AgreeFrom(f, g, min) && (op.TakePostponed? || op.Disconnect? || op.Prune?)
    ensures AgreeFrom(Step(f, op), Step(g, op), min)
  {
    hide View;
    forall q | Kept(q, min)
      ensures View(Step(f, op), q) == View(Step(g, op), q)
    {
      match op
      case Disconnect(peer) =>
        DisconnectView(f, peer, q);
        DisconnectView(g, peer, q);
      case Prune(minKeep) =>
        PruneView(f, minKeep, q);
        PruneView(g, minKeep, q);
      case TakePostponed =>
        PostponedView(f, q);
        PostponedView(g, q);
    }
  }

  lemma PostponedView(f: Fetch, q: Point)
    ensures View(f.(nextWave := {}), q) == View(f, q).(postponed := false)
  {
  }

  // ---------------------------------------------------------------------------
  // Whole runs
  // ---------------------------------------------------------------------------

  /** Agreeing states give the same effects and agree afterwards. */
  lemma StepAlike(f: Fetch, g: Fetch, min: nat, op: Op)
    requires AgreeFrom(f, g, min) && Concerns(op, min)
    ensures Apply(f, op).1 == Apply(g, op).1 && AgreeFrom(Step(f, op), Step(g, op), min)
  {
    if op.TakePostponed? || op.Disconnect? || op.Prune? {
      EverywhereAlike(f, g, min, op);
    } else {
      PointStep(f, g, op);
      PointStep(g, f, op);
      Joins(f, g, Step(f, op), Step(g, op), min, op.point);
    }
  }

  lemma PointStep(f: Fetch, g: Fetch, op: Op)
    requires !op.TakePostponed? && !op.Disconnect? && !op.Prune? && op.point.Specific?
    requires SameGates(f, g) && View(f, op.point) == View(g, op.point)
    ensures Apply(f, op).1 == Apply(g, op).1 && OnlyAt(f, Step(f, op), op.point)
    ensures SameGates(Step(f, op), Step(g, op)) && View(Step(f, op), op.point) == View(Step(g, op), op.point)
  {
    hide View, SameGates, DoEbFetch, OnEbReceived, FinishEb, OnEbTxsOffered, InitiateNextWave, InitiateEbTxsFetch,
         RetryEbTxs, OnEbTxsReceived, Match, EvictStale;
    match op
    case EbOffered(p, peer, now, policy) =>
      WithOfferAlike(f, g, p, peer);
      DoEbFetchAlike(WithOffer(f, p, peer), WithOffer(g, p, peer), p, now, policy);
      DoEbFetchLocal(WithOffer(f, p, peer), p, now, policy);
    case RetryEb(p, now, policy) =>
      DoEbFetchAlike(f, g, p, now, policy);
      DoEbFetchLocal(f, p, now, policy);
    case EbReceived(source, p, manifest) => ReceptionAlike(f, g, source, p, manifest);
    case EbFetchFailed(peer, p) => FinishEbAlike(f, g, peer, p);
    case EbTxsOffered(p, peer, bitmap, now, policy) => OfferAlike(f, g, p, peer, bitmap, now, policy);
    case NextWave(p, bitmap, now, policy) => NextWaveAlike(f, g, p, bitmap, now, policy);
    case InitiateTxs(p, bitmap, now, policy) =>
      InitiateAlike(f, g, p, bitmap, now, policy);
      InitiateLocal(f, p, bitmap, now, policy);
    case EbTxsReceived(p) => TxReceptionAlike(f, g, p);
    case MatchTxs(p, bodies) =>
      MatchIsQuiet(f, p, bodies);
      MatchIsQuiet(g, p, bodies);
      GatesJoin(f, g, Match(f, p, bodies).0, Match(g, p, bodies).0);
    case RetryTxs(p, bitmap, policy) => RetryAlike(f, g, p, bitmap, policy);
  }

  lemma GatesJoin(f: Fetch, g: Fetch, f': Fetch, g': Fetch)
    requires SameGates(f, g) && SameGates(f, f') && SameGates(g, g')
    ensures SameGates(f', g')
  {
  }

  // ---------------------------------------------------------------------------
  // Manifests and outstanding requests
  // ---------------------------------------------------------------------------

  /** All that the fetch state says about one EB hash. */
  datatype HashView = HashView(manifest: Option<(nat, seq<TxId>)>, request: Option<(nat, Bitmap)>)

  function ViewOf(f: Fetch, h: Hash): HashView {
    HashView(Lookup(f.ebTxHashes, h), Lookup(f.pendingBitmaps, h))
  }

  function FromSlotOn<V>(entry: Option<(nat, V)>, min: nat): Option<(nat, V)> {
    if entry.Some? && entry.value.0 >= min then entry else None
  }

  /** What a response leaves of a request. */
  ghost function Settled(v: HashView, slot: nat, bodies: seq<(TxBody, TxId)>): HashView {
    if v.manifest.None? || v.request.None? then v
    else
      var matched := MatchedBodies(ManifestIndex(v.manifest.value.1), bodies);
      var left := Indices(v.request.value.1) - matched.Keys;
      v.(request := if left == {} then None else Some((slot, Packed(Ascending(left)))))
  }

  /** The view of `h` after an operation, from the view before it and the effects. */
  ghost function NextView(v: HashView, op: Op, fx: seq<Effect>, h: Hash): HashView {
    match op
    case EbReceived(_, p, manifest) =>
      if p.Specific? && p.hash == h && manifest.Some? then v.(manifest := Some((p.slot, manifest.value))) else v
    case EbTxsOffered(p, _, bitmap, _, _) => Requested(v, p, bitmap, fx, h)
    case NextWave(p, bitmap, _, _) => Requested(v, p, bitmap, fx, h)
    case InitiateTxs(p, bitmap, _, _) => Requested(v, p, bitmap, fx, h)
    case MatchTxs(p, bodies) => if p.Specific? && p.hash == h then Settled(v, p.slot, bodies) else v
    case Prune(min) => HashView(FromSlotOn(v.manifest, min), FromSlotOn(v.request, min))
    case _ => v
  }

  ghost function Requested(v: HashView, p: Point, bitmap: Bitmap, fx: seq<Effect>, h: Hash): HashView {
    if p.Specific? && p.hash == h && fx != [] then v.(request := Some((p.slot, bitmap))) else v
  }

  lemma InitiateViewOf(f: Fetch, p: Point, bitmap: Bitmap, now: nat, policy: Policy, h: Hash)
    ensures var (g, fx) := InitiateEbTxsFetch(f, p, bitmap, now, policy);
            ViewOf(g, h) == Requested(ViewOf(f, h), p, bitmap, fx, h)
  {
    hide Ascending, EbTxsCandidates, StartEbTxs;
  }

  lemma OfferViewOf(f: Fetch, p: Point, peer: PeerId, bitmap: Bitmap, now: nat, policy: Policy, h: Hash)
    requires p.Specific?
    ensures var (g, fx) := OnEbTxsOffered(f, p, peer, bitmap, now, policy);
            ViewOf(g, h) == Requested(ViewOf(f, h), p, bitmap, fx, h)
  {
    hide OnEbTxsOffered, InitiateEbTxsFetch;
    OfferIs(f, p, peer, bitmap, now, policy);
    InitiateViewOf(Started(Offered(f, p, peer, now), p), p, bitmap, now, policy, h);
  }

  lemma NextWaveViewOf(f: Fetch, p: Point, bitmap: Bitmap, now: nat, policy: Policy, h: Hash)
    ensures var (g, fx) := InitiateNextWave(f, p, bitmap, now, policy);
            ViewOf(g, h) == Requested(ViewOf(f, h), p, bitmap, fx, h)
  {
    hide InitiateEbTxsFetch;
    if p in f.waves {
      InitiateViewOf(NextWaveState(f, p), p, bitmap, now, policy, h);
    }
  }

  lemma MatchViewOf(f: Fetch, p: Point, bodies: seq<(TxBody, TxId)>, h: Hash)
    requires p.Specific?
    ensures ViewOf(Match(f, p, bodies).0, h) ==
            if p.hash == h then Settled(ViewOf(f, h), p.slot, bodies) else ViewOf(f, h)
  {
    hide MatchedBodies, ManifestIndex, InOrder, Packed, Indices, Ascending;
  }

  /** What a response is answered with, from the view of its hash. */
  ghost function OutcomeOf(v: HashView, bodies: seq<(TxBody, TxId)>): Outcome {
    match v.manifest
    case None => Outcome(seq(|bodies|, i requires 0 <= i < |bodies| => bodies[i].0), 0, map[])
    case Some((_, manifest)) =>
      var matched := MatchedBodies(ManifestIndex(manifest), bodies);
      match v.request
      case None => Outcome(InOrder(matched), 0, map[])
      case Some((_, bitmap)) =>
        var requested := Indices(bitmap);
        Outcome(InOrder(matched), |requested|, Packed(Ascending(requested - matched.Keys)))
  }

  lemma MatchOutcomeOf(f: Fetch, p: Point, bodies: seq<(TxBody, TxId)>)
    requires p.Specific?
    ensures Match(f, p, bodies).1 == OutcomeOf(ViewOf(f, p.hash), bodies)
  {
    hide MatchedBodies, ManifestIndex, InOrder, Packed, Indices, Ascending;
  }

  lemma StepViewOf(f: Fetch, op: Op, h: Hash)
    requires op.EbTxsOffered? || op.MatchTxs? ==> op.point.Specific?
    ensures ViewOf(Step(f, op), h) == NextView(ViewOf(f, h), op, Apply(f, op).1, h)
  {
    hide DoEbFetch, OnEbTxsOffered, InitiateNextWave, InitiateEbTxsFetch, RetryEbTxs, Match, FinishEb, ForgetPeer,
         Settled, Requested, PruneTracker;
    match op
    case EbOffered(p, peer, now, policy) => EbFetchKeepsRequests(WithOffer(f, p, peer), p, now, policy);
    case RetryEb(p, now, policy) => EbFetchKeepsRequests(f, p, now, policy);
    case EbReceived(source, p, _) =>
      if source.Some? {
        FinishKeepsRequests(f, source.value, p);
      }
    case EbFetchFailed(peer, p) => FinishKeepsRequests(f, peer, p);
    case EbTxsOffered(p, peer, bitmap, now, policy) => OfferViewOf(f, p, peer, bitmap, now, policy, h);
    case NextWave(p, bitmap, now, policy) => NextWaveViewOf(f, p, bitmap, now, policy, h);
    case InitiateTxs(p, bitmap, now, policy) => InitiateViewOf(f, p, bitmap, now, policy, h);
    case MatchTxs(p, bodies) => MatchViewOf(f, p, bodies, h);
    case RetryTxs(p, bitmap, policy) => RetryKeepsRequests(f, p, bitmap, policy);
    case Disconnect(peer) => ForgetKeepsRequests(f, peer);
    case _ =>
  }

  lemma ForgetKeepsRequests(f: Fetch, peer: PeerId)
    ensures ForgetPeer(f, peer).ebTxHashes == f.ebTxHashes && ForgetPeer(f, peer).pendingBitmaps == f.pendingBitmaps
  {
  }

  /** The hashes whose manifest or request a prune drops. */
  function Lost(f: Fetch, min: nat): set<Hash> {
    (set h | h in f.ebTxHashes && f.ebTxHashes[h].0 < min) + set h | h in f.pendingBitmaps && f.pendingBitmaps[h].0 < min
  }

  ghost predicate AgreeOutside(f: Fetch, g: Fetch, lost: set<Hash>) {
    forall h :: h !in lost ==> ViewOf(f, h) == ViewOf(g, h)
  }

  lemma PruneAgreesOutside(f: Fetch, min: nat)
    ensures AgreeOutside(f, PruneChainProgress(f, min), Lost(f, min))
  {
  }

  // ---------------------------------------------------------------------------
  // Everything a run shows
  // ---------------------------------------------------------------------------

  /** The effects of an operation, and its outcome when it matches a response for a hash not lost. */
  datatype Shown = Shown(fx: seq<Effect>, outcome: Option<Outcome>)

  ghost function ShownBy(f: Fetch, op: Op, lost: set<Hash>): Shown {
    Shown(Apply(f, op).1,
          if op.MatchTxs? && op.point.Specific? && op.point.hash !in lost
          then Some(Match(f, op.point, op.bodies).1) else None)
  }

  ghost predicate Agree(f: Fetch, g: Fetch, min: nat, lost: set<Hash>) {
    AgreeFrom(f, g, min) && AgreeOutside(f, g, lost)
  }

  /** Agreeing states show the same and agree afterwards. */
  lemma StepShowsAlike(f: Fetch, g: Fetch, min: nat, lost: set<Hash>, op: Op)
    requires Agree(f, g, min, lost) && Concerns(op, min)
    ensures ShownBy(f, op, lost) == ShownBy(g, op, lost) && Agree(Step(f, op), Step(g, op), min, lost)
  {
    hide AgreeFrom, Apply, Match, ViewOf, NextView, OutcomeOf;
    StepAlike(f, g, min, op);
    forall h | h !in lost
      ensures ViewOf(Step(f, op), h) == ViewOf(Step(g, op), h)
    {
      StepViewOf(f, op, h);
      StepViewOf(g, op, h);
    }
    if op.MatchTxs? {
      MatchOutcomeOf(f, op.point, op.bodies);
      MatchOutcomeOf(g, op.point, op.bodies);
    }
  }

  ghost function ShownAlong(f: Fetch, ops: seq<Op>, lost: set<Hash>): seq<Shown>
    decreases |ops|
  {
    if ops == [] then [] else [ShownBy(f, ops[0], lost)] + ShownAlong(Step(f, ops[0]), ops[1..], lost)
  }

  lemma {:induction false} AgreeingRuns(f: Fetch, g: Fetch, min: nat, lost: set<Hash>, ops: seq<Op>)
    requires Agree(f, g, min, lost) && forall op :: op in ops ==> Concerns(op, min)
    ensures ShownAlong(f, ops, lost) == ShownAlong(g, ops, lost)
    ensures Agree(Run(f, ops), Run(g, ops), min, lost)
    decreases |ops|
  {
    hide Agree, Apply, ShownBy, Concerns;
    if ops != [] {
      assert ops[0] in ops && forall op :: op in ops[1..] ==> op in ops;
      StepShowsAlike(f, g, min, lost, ops[0]);
      AgreeingRuns(Step(f, ops[0]), Step(g, ops[0]), min, lost, ops[1..]);
    }
  }

  /** Whether or not the state is pruned first, a run that concerns no point behind the prune asks the
      same peers for the same things in the same order, and matches every response alike whose
      manifest and request the prune keeps. */
  lemma PruneIsInvisible(f: Fetch, min: nat, ops: seq<Op>)
    requires forall op :: op in ops ==> Concerns(op, min)
    ensures var g, lost := PruneChainProgress(f, min), Lost(f, min);
            && ShownAlong(g, ops, lost) == ShownAlong(f, ops, lost)
            && AgreeOutside(Run(g, ops), Run(f, ops), lost)
  {
    hide AgreeFrom, PruneChainProgress, Lost, Concerns;
    PruneAgrees(f, min);
    PruneAgreesOutside(f, min);
    AgreeingRuns(f, PruneChainProgress(f, min), min, Lost(f, min), ops);
  }
}
