/**
 Leios-fetch bookkeeping as a value: who offered what, which fetches are pending, which peers
 were asked in the current wave, and the gates that suppress parallel fetches.
 */
module FetchModel {
  import opened Types
  import opened Ordered
  import opened Bitmap

  /** Nanoseconds; instants are nanoseconds too. */
  const IN_FLIGHT_TTL: nat := 5_000_000_000

  /** Keeps the per-slot EB-txs gate apart from an EB-body fetch at the same slot: `[0xFE; 32]`. */
  const GATE_HASH: Hash :=
    0xFEFE_FEFE_FEFE_FEFE_FEFE_FEFE_FEFE_FEFE_FEFE_FEFE_FEFE_FEFE_FEFE_FEFE_FEFE_FEFE

  /** Slots behind the prune point for which offers are still kept. */
  const RETENTION_SLOTS: nat := 100

  /** What a fetch policy does with the candidate list it is given. */
  type Policy = seq<PeerId> -> seq<PeerId>

  ghost predicate ChoosesAmongCandidates(policy: Policy) {
    forall peers :: Elements(policy(peers)) <= Elements(peers)
  }

  datatype Tracker = Tracker(
    ebOffers: map<Point, set<PeerId>>, ebTxsOffers: map<Point, set<PeerId>>,
    pendingEb: map<Point, set<PeerId>>, pendingEbTxs: set<Point>,
    ebTxsAttempts: map<Point, set<PeerId>>)

  datatype Fetch = Fetch(
    tracker: Tracker,
    ebTxHashes: map<Hash, (nat, seq<TxId>)>,
    pendingBitmaps: map<Hash, (nat, Bitmap)>,
    nextWave: set<Point>, waves: map<Point, nat>, maxWaves: nat,
    inFlight: map<Point, nat>)

  datatype Effect =
    | FetchLeiosBlock(point: Point, peers: seq<PeerId>)
    | FetchLeiosBlockTxs(point: Point, bitmap: Bitmap, peers: seq<PeerId>)
    | RecordLeiosEbManifest(source: Option<PeerId>, point: Point, txHashes: seq<TxId>)
    | ValidateEb(point: Point)

  function EmptyFetch(maxWaves: nat): Fetch {
    Fetch(Tracker(map[], map[], map[], {}, map[]), map[], map[], {}, map[], maxWaves, map[])
  }

  function At(m: map<Point, set<PeerId>>, point: Point): set<PeerId> {
    if point in m then m[point] else {}
  }

  function AddAt(m: map<Point, set<PeerId>>, point: Point, peers: set<PeerId>): map<Point, set<PeerId>> {
    m[point := At(m, point) + peers]
  }

  // ---------------------------------------------------------------------------
  // Endorser-block bodies
  // ---------------------------------------------------------------------------

  function EvictStale(f: Fetch, now: nat): Fetch {
    f.(inFlight := map p | p in f.inFlight && SaturatingSub(now, f.inFlight[p]) < IN_FLIGHT_TTL :: f.inFlight[p])
  }

  /** Offerers of the EB that have no request for it pending. */
  function AvailableEbCandidates(t: Tracker, point: Point): set<PeerId> {
    At(t.ebOffers, point) - At(t.pendingEb, point)
  }

  /** Ask the picked peers, unless one of them already has a request for the EB pending. */
  function AskEb(f: Fetch, point: Point, now: nat, peers: seq<PeerId>): (Fetch, seq<Effect>) {
    if peers == [] || Elements(peers) * At(f.tracker.pendingEb, point) != {} then (f, [])
    else
      (f.(tracker := f.tracker.(pendingEb := AddAt(f.tracker.pendingEb, point, Elements(peers))),
          inFlight := f.inFlight[point := now]),
       [FetchLeiosBlock(point, peers)])
  }

  function DoEbFetch(f: Fetch, point: Point, now: nat, policy: Policy): (Fetch, seq<Effect>) {
    var g := EvictStale(f, now);
    if point in g.inFlight then (g, [])
    else AskEb(g, point, now, policy(Ascending(AvailableEbCandidates(g.tracker, point))))
  }

  function OnEbOffered(f: Fetch, point: Point, peer: PeerId, now: nat, policy: Policy): (Fetch, seq<Effect>) {
    var tracker := f.tracker.(ebOffers := AddAt(f.tracker.ebOffers, point, {peer}));
    DoEbFetch(f.(tracker := tracker), point, now, policy)
  }

  /** Settle one peer's request; the gate opens only when no other peer is pending. */
  function FinishEb(f: Fetch, source: PeerId, point: Point): Fetch {
    var rest := At(f.tracker.pendingEb, point) - {source};
    if point in f.tracker.pendingEb && rest != {}
    then f.(tracker := f.tracker.(pendingEb := f.tracker.pendingEb[point := rest]))
    else f.(tracker := f.tracker.(pendingEb := f.tracker.pendingEb - {point}), inFlight := f.inFlight - {point})
  }

  function OnEbReceived(f: Fetch, source: Option<PeerId>, point: Point, manifest: Option<seq<TxId>>)
    : (Fetch, seq<Effect>)
  {
    var g := match source case Some(peer) => FinishEb(f, peer, point) case None => f;
    if manifest.Some? && point.Specific? then
      (g.(ebTxHashes := g.ebTxHashes[point.hash := (point.slot, manifest.value)]),
       [RecordLeiosEbManifest(source, point, manifest.value), ValidateEb(point)])
    else (g, [ValidateEb(point)])
  }

  // ---------------------------------------------------------------------------
  // Endorser-block transactions
  // ---------------------------------------------------------------------------

  function EbTxsOfferers(t: Tracker, point: Point): set<PeerId> {
    At(t.ebTxsOffers, point) + At(t.ebOffers, point)
  }

  /** Offerers not yet asked in the current wave. */
  function EbTxsCandidates(t: Tracker, point: Point): set<PeerId> {
    EbTxsOfferers(t, point) - At(t.ebTxsAttempts, point)
  }

  /** No change while a fetch for the point is pending. */
  function StartEbTxs(t: Tracker, point: Point, peers: set<PeerId>): Tracker {
    if point in t.pendingEbTxs then t
    else t.(pendingEbTxs := t.pendingEbTxs + {point}, ebTxsAttempts := AddAt(t.ebTxsAttempts, point, peers))
  }

  function FinishEbTxs(f: Fetch, point: Point): Fetch {
    f.(tracker := f.tracker.(pendingEbTxs := f.tracker.pendingEbTxs - {point}))
  }

  function InitiateEbTxsFetch(f: Fetch, point: Point, bitmap: Bitmap, now: nat, policy: Policy)
    : (Fetch, seq<Effect>)
  {
    if bitmap == map[] || point.Origin? || Specific(point.slot, GATE_HASH) in f.inFlight then (f, [])
    else AskEbTxs(f, point, bitmap, now, policy(Ascending(EbTxsCandidates(f.tracker, point))))
  }

  function AskEbTxs(f: Fetch, point: Point, bitmap: Bitmap, now: nat, peers: seq<PeerId>): (Fetch, seq<Effect>)
    requires point.Specific?
  {
    if peers == [] then (f, [])
    else
      (f.(tracker := StartEbTxs(f.tracker, point, Elements(peers)),
          pendingBitmaps := f.pendingBitmaps[point.hash := (point.slot, bitmap)],
          inFlight := f.inFlight[Specific(point.slot, GATE_HASH) := now]),
       [FetchLeiosBlockTxs(point, bitmap, peers)])
  }

  function InitiateFirstEbTxsFetch(f: Fetch, point: Point, bitmap: Bitmap, now: nat, policy: Policy)
    : (Fetch, seq<Effect>)
  {
    if f.maxWaves == 0 || bitmap == map[] then (f, [])
    else
      var g := if point in f.waves then f else f.(waves := f.waves[point := 1]);
      InitiateEbTxsFetch(g, point, bitmap, now, policy)
  }

  function OnEbTxsOffered(f: Fetch, point: Point, peer: PeerId, bitmap: Bitmap, now: nat, policy: Policy)
    : (Fetch, seq<Effect>)
  {
    if f.maxWaves == 0 then (f, [])
    else
      var g := EvictStale(f, now);
      if point.Origin? then (g, [])
      else
        var tracker := g.tracker.(ebTxsOffers := AddAt(g.tracker.ebTxsOffers, point, {peer}));
        InitiateFirstEbTxsFetch(g.(tracker := tracker), point, bitmap, now, policy)
  }

  function InitiateNextWave(f: Fetch, point: Point, bitmap: Bitmap, now: nat, policy: Policy)
    : (Fetch, seq<Effect>)
  {
    if point !in f.waves || f.waves[point] >= f.maxWaves then (f, [])
    else
      var tracker := f.tracker.(ebTxsAttempts := f.tracker.ebTxsAttempts - {point});
      InitiateEbTxsFetch(
        f.(waves := f.waves[point := f.waves[point] + 1], tracker := tracker), point, bitmap, now, policy)
  }

  function OnEbTxsReceived(f: Fetch, point: Point): Fetch {
    var g := match point
             case Specific(slot, _) => f.(inFlight := f.inFlight - {Specific(slot, GATE_HASH)})
             case Origin => f;
    FinishEbTxs(g, point)
  }

  function RetryEbTxs(f: Fetch, point: Point, bitmap: Bitmap, policy: Policy): (Fetch, seq<Effect>) {
    if bitmap == map[] then (f.(nextWave := f.nextWave - {point}), [])
    else ReaskEbTxs(f, point, bitmap, policy(Ascending(EbTxsCandidates(f.tracker, point))))
  }

  /** With every candidate asked already, the point waits for the next wave. */
  function ReaskEbTxs(f: Fetch, point: Point, bitmap: Bitmap, peers: seq<PeerId>): (Fetch, seq<Effect>) {
    if peers == [] then (f.(nextWave := f.nextWave + {point}), [])
    else if point in f.tracker.pendingEbTxs then (f, [])
    else (f.(tracker := StartEbTxs(f.tracker, point, Elements(peers))), [FetchLeiosBlockTxs(point, bitmap, peers)])
  }

  // ---------------------------------------------------------------------------
  // Responses
  // ---------------------------------------------------------------------------

  /** Manifest positions by hash. */
  function ManifestIndex(manifest: seq<TxId>): map<TxId, nat> {
    if manifest == [] then map[]
    else
      var n := |manifest| - 1;
      ManifestIndex(manifest[..n])[manifest[n] := n]
  }

  /** The bodies that hash to a manifest entry, by position; of several, the first. */
  function MatchedBodies(index: map<TxId, nat>, bodies: seq<(TxBody, TxId)>): map<nat, TxBody> {
    if bodies == [] then map[]
    else
      var n := |bodies| - 1;
      var matched := MatchedBodies(index, bodies[..n]);
      var (body, hash) := bodies[n];
      if hash in index && index[hash] !in matched then matched[index[hash] := body] else matched
  }

  function InOrder(matched: map<nat, TxBody>): seq<TxBody> {
    var keys := Ascending(matched.Keys);
    seq(|keys|, i requires 0 <= i < |keys| => assert keys[i] in keys; matched[keys[i]])
  }

  datatype Outcome = Outcome(matchedBodies: seq<TxBody>, requested: nat, remaining: Bitmap)

  /** What a response does to the request that is outstanding for its EB. */
  ghost function SettlePending(pending: map<Hash, (nat, Bitmap)>, slot: nat, hash: Hash, matched: set<nat>)
    : (map<Hash, (nat, Bitmap)>, nat, Bitmap)
  {
    if hash !in pending then (pending, 0, map[])
    else
      var requested := Indices(pending[hash].1);
      var left := requested - matched;
      var bitmap := Packed(Ascending(left));
      (if left == {} then pending - {hash} else pending[hash := (slot, bitmap)], |requested|, bitmap)
  }

  ghost function Match(f: Fetch, point: Point, bodies: seq<(TxBody, TxId)>): (Fetch, Outcome) {
    var g := FinishEbTxs(f, point);
    if point.Origin? then (g, Outcome([], 0, map[]))
    else if point.hash !in f.ebTxHashes then
      (g, Outcome(seq(|bodies|, i requires 0 <= i < |bodies| => bodies[i].0), 0, map[]))
    else
      var matched := MatchedBodies(ManifestIndex(f.ebTxHashes[point.hash].1), bodies);
      var (pending, requested, remaining) := SettlePending(f.pendingBitmaps, point.slot, point.hash, matched.Keys);
      (g.(pendingBitmaps := pending), Outcome(InOrder(matched), requested, remaining))
  }

  // ---------------------------------------------------------------------------
  // Peers leaving and slots passing
  // ---------------------------------------------------------------------------

  function WithoutPeer(m: map<Point, set<PeerId>>, peer: PeerId): map<Point, set<PeerId>> {
    map p | p in m :: m[p] - {peer}
  }

  function ForgetPeer(f: Fetch, peer: PeerId): Fetch {
    var t := f.tracker;
    f.(tracker := Tracker(WithoutPeer(t.ebOffers, peer), WithoutPeer(t.ebTxsOffers, peer),
                          WithoutPeer(t.pendingEb, peer), t.pendingEbTxs, WithoutPeer(t.ebTxsAttempts, peer)))
  }

  function FromSlot(m: map<Point, set<PeerId>>, min: nat): map<Point, set<PeerId>> {
    map p | p in m && p.SlotOr(0) >= min :: m[p]
  }

  function PruneTracker(t: Tracker, min: nat): Tracker {
    var pendingEbTxs := set p | p in t.pendingEbTxs && p.SlotOr(0) >= min;
    Tracker(FromSlot(t.ebOffers, min), FromSlot(t.ebTxsOffers, min), FromSlot(t.pendingEb, min),
            pendingEbTxs, FromSlot(t.ebTxsAttempts, min))
  }

  /** The chain-progress prune: fetch state at `minKeep` and up, offers a retention window longer. */
  function PruneChainProgress(f: Fetch, minKeep: nat): Fetch {
    f.(ebTxHashes := map h | h in f.ebTxHashes && f.ebTxHashes[h].0 >= minKeep :: f.ebTxHashes[h],
       nextWave := (set p | p in f.nextWave && p.Specific? && p.slot >= minKeep),
       waves := map p | p in f.waves && p.Specific? && p.slot >= minKeep :: f.waves[p],
       pendingBitmaps := map h | h in f.pendingBitmaps && f.pendingBitmaps[h].0 >= minKeep :: f.pendingBitmaps[h],
       tracker := PruneTracker(f.tracker, SaturatingSub(minKeep, RETENTION_SLOTS)))
  }

  // ---------------------------------------------------------------------------
  // Steps and runs
  // ---------------------------------------------------------------------------

  datatype Op =
    | EbOffered(point: Point, peer: PeerId, now: nat, policy: Policy)
    | RetryEb(point: Point, now: nat, policy: Policy)
    | EbReceived(source: Option<PeerId>, point: Point, manifest: Option<seq<TxId>>)
    | EbFetchFailed(peer: PeerId, point: Point)
    | EbTxsOffered(point: Point, peer: PeerId, bitmap: Bitmap, now: nat, policy: Policy)
    | NextWave(point: Point, bitmap: Bitmap, now: nat, policy: Policy)
    | InitiateTxs(point: Point, bitmap: Bitmap, now: nat, policy: Policy)
    | EbTxsReceived(point: Point)
    | MatchTxs(point: Point, bodies: seq<(TxBody, TxId)>)
    | RetryTxs(point: Point, bitmap: Bitmap, policy: Policy)
    | TakePostponed
    | Disconnect(peer: PeerId)
    | Prune(minKeep: nat)

  ghost function Apply(f: Fetch, op: Op): (Fetch, seq<Effect>) {
    match op
    case EbOffered(point, peer, now, policy) => OnEbOffered(f, point, peer, now, policy)
    case RetryEb(point, now, policy) => DoEbFetch(f, point, now, policy)
    case EbReceived(source, point, manifest) => OnEbReceived(f, source, point, manifest)
    case EbFetchFailed(peer, point) => (FinishEb(f, peer, point), [])
    case EbTxsOffered(point, peer, bitmap, now, policy) => OnEbTxsOffered(f, point, peer, bitmap, now, policy)
    case NextWave(point, bitmap, now, policy) => InitiateNextWave(f, point, bitmap, now, policy)
    case InitiateTxs(point, bitmap, now, policy) => InitiateEbTxsFetch(f, point, bitmap, now, policy)
    case EbTxsReceived(point) => (OnEbTxsReceived(f, point), [])
    case MatchTxs(point, bodies) => (Match(f, point, bodies).0, [])
    case RetryTxs(point, bitmap, policy) => RetryEbTxs(f, point, bitmap, policy)
    case TakePostponed => (f.(nextWave := {}), [])
    case Disconnect(peer) => (ForgetPeer(f, peer), [])
    case Prune(minKeep) => (PruneChainProgress(f, minKeep), [])
  }

  ghost function Step(f: Fetch, op: Op): Fetch {
    Apply(f, op).0
  }

  ghost function Run(f: Fetch, ops: seq<Op>): Fetch
    decreases |ops|
  {
    if ops == [] then f else Run(Step(f, ops[0]), ops[1..])
  }

  ghost predicate ValidPolicy(op: Op) {
    match op
    case EbOffered(_, _, _, policy) => ChoosesAmongCandidates(policy)
    case RetryEb(_, _, policy) => ChoosesAmongCandidates(policy)
    case EbTxsOffered(_, _, _, _, policy) => ChoosesAmongCandidates(policy)
    case NextWave(_, _, _, policy) => ChoosesAmongCandidates(policy)
    case InitiateTxs(_, _, _, policy) => ChoosesAmongCandidates(policy)
    case RetryTxs(_, _, policy) => ChoosesAmongCandidates(policy)
    case _ => true
  }
}
