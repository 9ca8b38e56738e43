/**
 The mempool's state as a value, and each operation's effect on it.

 The operations are stated the simple way: `Without` removes a set of ids from every
 compartment at once, sums and indexes are recomputed from the queue. `Mempool` holds the
 in-place code, which keeps the index, the byte counter and the per-peer sets
 incrementally and is proved to reach exactly these states.
 */
module MempoolModel {
  import opened Types
  import opened Ordered
  import opened Queue

  /** Capacity of the replay filter. */
  const REPLAY_WINDOW: nat := 65_536

  datatype WithholdingPolicy =
    | Relay
    | WithholdTxs(slots: nat, producerOnly: bool, submission: bool, leiosFetch: bool)

  datatype RejectReason = QueueFull | AlreadyKnown | EbClosurePruned

  datatype Effect = TxRejected(id: TxId, reason: RejectReason)

  datatype Pool = Pool(
    applied: set<TxId>, appliedOrder: seq<TxId>,
    txs: seq<MempoolTx>, txIndex: set<TxId>, totalBytes: nat, capacity: nat,
    advertised: map<PeerId, set<TxId>>, unannounced: map<PeerId, set<TxId>>,
    pendingValidation: map<TxId, TxBody>,
    manifests: map<EbKey, seq<TxId>>, pinned: map<TxId, MempoolTx>,
    maxEbSlot: nat, protectedEb: Option<EbKey>, retentionSlots: nat,
    policy: WithholdingPolicy)

  function EmptyPool(capacity: nat, retentionSlots: nat): Pool {
    Pool({}, [], [], {}, 0, capacity, map[], map[], map[], map[], map[], 0, None, retentionSlots, Relay)
  }

  // ---------------------------------------------------------------------------
  // Invariants
  // ---------------------------------------------------------------------------

  function AdvertisedTo(p: Pool, peer: PeerId): set<TxId> {
    if peer in p.advertised then p.advertised[peer] else {}
  }

  ghost predicate QueueAgrees(p: Pool) {
    && DistinctIds(p.txs)
    && p.txIndex == Ids(p.txs)
    && p.totalBytes == SizeOf(p.txs)
    && |p.txs| <= Max(1, p.capacity)
  }

  /** Owed and advertised partition the queue, for every registered peer. */
  ghost predicate PeersAgree(p: Pool) {
    && p.advertised.Keys <= p.unannounced.Keys
    && forall q :: q in p.unannounced ==>
         && p.unannounced[q] !! AdvertisedTo(p, q)
         && p.unannounced[q] + AdvertisedTo(p, q) == p.txIndex
  }

  ghost predicate ReplayAgrees(p: Pool) {
    && p.applied == Elements(p.appliedOrder)
    && Distinct(p.appliedOrder)
    && |p.appliedOrder| <= REPLAY_WINDOW
    && p.applied !! p.txIndex
  }

  ghost predicate Inv(p: Pool) {
    QueueAgrees(p) && PeersAgree(p) && ReplayAgrees(p)
  }

  // ---------------------------------------------------------------------------
  // Lookups
  // ---------------------------------------------------------------------------

  function GetRecord(p: Pool, id: TxId): Option<MempoolTx> {
    if id in p.pinned then Some(p.pinned[id]) else Find(p.txs, id)
  }

  function GetBody(p: Pool, id: TxId): Option<TxBody> {
    match GetRecord(p, id)
    case Some(t) => Some(t.tx.body)
    case None => None
  }

  predicate HasTx(p: Pool, id: TxId) {
    id in p.txIndex || id in p.pinned
  }

  lemma HasTxIffBody(p: Pool, id: TxId)
    requires Inv(p)
    ensures HasTx(p, id) <==> GetBody(p, id).Some?
  {
  }

  /** The pool's body for each manifest entry. */
  function HeldBodies(p: Pool, manifest: seq<TxId>): seq<Option<TxBody>> {
    seq(|manifest|, i requires 0 <= i < |manifest| => GetBody(p, manifest[i]))
  }

  /** The requested bodies that are held, in request order. Indices past the manifest and entries
      without a body are skipped. */
  function Serve(held: seq<Option<TxBody>>, indices: seq<nat>): seq<TxBody> {
    if indices == [] then []
    else
      var rest := Serve(held, indices[1..]);
      if indices[0] < |held| && held[indices[0]].Some? then [held[indices[0]].value] + rest else rest
  }

  function GetEbBodies(p: Pool, key: EbKey, indices: seq<nat>): Option<seq<TxBody>> {
    if key in p.manifests then Some(Serve(HeldBodies(p, p.manifests[key]), indices)) else None
  }

  /** The positions of a manifest whose body is not held, ascending. */
  function MissingIn(p: Pool, manifest: seq<TxId>): (missing: seq<nat>)
    ensures StrictlyAscending(missing)
    ensures forall i: nat :: i in missing <==> i < |manifest| && !HasTx(p, manifest[i])
  {
    if manifest == [] then []
    else
      var n := |manifest| - 1;
      var front := MissingIn(p, manifest[..n]);
      assert forall i :: 0 <= i < n ==> manifest[..n][i] == manifest[i];
      assert forall k :: 0 <= k < |front| ==> front[k] in front;
      if HasTx(p, manifest[n]) then front else front + [n]
  }

  /** False when the control signal withholds the tx from this protocol for now. */
  predicate MayTransmit(p: Pool, currentSlot: nat, id: TxId, isLeiosFetch: bool) {
    match p.policy
    case Relay => true
    case WithholdTxs(slots, producerOnly, submission, leiosFetch) =>
      if (isLeiosFetch && !leiosFetch) || (!isLeiosFetch && !submission) then true
      else match GetRecord(p, id)
           case None => true
           case Some(t) =>
             !((t.ours || !producerOnly) && SaturatingSub(currentSlot, t.slot) < slots)
  }

  // ---------------------------------------------------------------------------
  // Queue operations
  // ---------------------------------------------------------------------------

  function PrunePeers(m: map<PeerId, set<TxId>>, gone: set<TxId>): map<PeerId, set<TxId>> {
    map q | q in m :: m[q] - gone
  }

  /** Remove `gone` from the queue and from everything indexed by it. */
  function Without(p: Pool, gone: set<TxId>): Pool {
    var kept := Keep(p.txs, gone);
    p.(txs := kept, txIndex := Ids(kept), totalBytes := SizeOf(kept),
       advertised := PrunePeers(p.advertised, gone), unannounced := PrunePeers(p.unannounced, gone))
  }

  function FanOut(m: map<PeerId, set<TxId>>, id: TxId): map<PeerId, set<TxId>> {
    map q | q in m :: m[q] + {id}
  }

  predicate IsFull(p: Pool) {
    p.txs != [] && |p.txs| >= p.capacity
  }

  function MakeRoom(p: Pool): Pool {
    if IsFull(p) then Without(p, {p.txs[0].Id()}) else p
  }

  function Push(p: Pool, t: MempoolTx): Pool {
    p.(txs := p.txs + [t], txIndex := p.txIndex + {t.Id()}, totalBytes := p.totalBytes + t.Size(),
       unannounced := FanOut(p.unannounced, t.Id()))
  }

  function Admit(p: Pool, id: TxId, body: TxBody, size: nat, slot: nat, ours: bool): (Pool, seq<Effect>) {
    if id in p.txIndex then (p, [TxRejected(id, AlreadyKnown)])
    else
      var q := p.(pendingValidation := p.pendingValidation - {id});
      if id in q.applied then (q, [TxRejected(id, AlreadyKnown)])
      else
        var fx := if IsFull(q) then [TxRejected(q.txs[0].Id(), QueueFull)] else [];
        (Push(MakeRoom(q), MempoolTx(TxInfo(id, body, size), ours, slot)), fx)
  }

  function PushApplied(order: seq<TxId>, id: TxId): seq<TxId> {
    if id in order then order
    else if |order| < REPLAY_WINDOW then order + [id]
    else (order + [id])[1..]
  }

  function PushAllApplied(order: seq<TxId>, ids: seq<TxId>): seq<TxId>
    decreases |ids|
  {
    if ids == [] then order else PushAllApplied(PushApplied(order, ids[0]), ids[1..])
  }

  function BlockApplied(p: Pool, ids: seq<TxId>): Pool {
    if ids == [] then p
    else
      var order := PushAllApplied(p.appliedOrder, ids);
      Without(p, Elements(ids)).(
        applied := Elements(order), appliedOrder := order,
        pendingValidation := p.pendingValidation - Elements(ids))
  }

  function DrainUpTo(p: Pool, maxBytes: nat): (Pool, seq<MempoolTx>) {
    var taken := p.txs[..Fill(p.txs, maxBytes)];
    (Without(p, Ids(taken)), taken)
  }

  // ---------------------------------------------------------------------------
  // Peer operations
  // ---------------------------------------------------------------------------

  function Registered(p: Pool, peer: PeerId): Pool {
    if peer in p.unannounced then p else p.(unannounced := p.unannounced[peer := p.txIndex])
  }

  function ForgetPeer(p: Pool, peer: PeerId): Pool {
    p.(advertised := p.advertised - {peer}, unannounced := p.unannounced - {peer})
  }

  /** The txs still owed to a registered peer that may be sent now. */
  function Sendable(p: Pool, peer: PeerId, currentSlot: nat): set<TxId>
    requires peer in p.unannounced
  {
    set id | id in p.unannounced[peer] && MayTransmit(p, currentSlot, id, false)
  }

  function Announce(p: Pool, peer: PeerId, sent: set<TxId>): Pool
    requires peer in p.unannounced
  {
    p.(advertised := p.advertised[peer := AdvertisedTo(p, peer) + sent],
       unannounced := p.unannounced[peer := p.unannounced[peer] - sent])
  }

  /** The least `maxCount` ids of a set: a `BTreeSet` iterated and cut off. */
  function FirstIds(ids: set<TxId>, maxCount: nat): (r: seq<TxId>)
    ensures |r| == Min(maxCount, |ids|) && StrictlyAscending(r)
    ensures Elements(r) <= ids
  {
    var all := Ascending(ids);
    all[..Min(maxCount, |ids|)]
  }

  function Peek(p: Pool, peer: PeerId, maxCount: nat, currentSlot: nat): (Pool, seq<MempoolTx>) {
    var r := Registered(p, peer);
    if r.unannounced[peer] == {} || maxCount == 0 then (r, [])
    else
      var sent := Elements(FirstIds(Sendable(r, peer, currentSlot), maxCount));
      (Announce(r, peer, sent), Select(r.txs, sent))
  }

  function Mark(p: Pool, peer: PeerId, id: TxId, currentSlot: nat): (Pool, bool) {
    var r := Registered(p, peer);
    if MayTransmit(r, currentSlot, id, false) && id in r.unannounced[peer]
    then (Announce(r, peer, {id}), true)
    else (r, false)
  }

  // ---------------------------------------------------------------------------
  // Endorser-block operations
  // ---------------------------------------------------------------------------

  /** Pin the wanted txs of a queue. A body that is already pinned stays as it is. */
  function PinFrom(pinned: map<TxId, MempoolTx>, txs: seq<MempoolTx>, wanted: set<TxId>): map<TxId, MempoolTx> {
    map id | id in pinned.Keys + Ids(txs) * wanted :: if id in pinned then pinned[id] else Find(txs, id).value
  }

  function Cutoff(p: Pool): nat {
    SaturatingSub(p.maxEbSlot, p.retentionSlots)
  }

  predicate Retained(p: Pool, key: EbKey) {
    key.slot >= Cutoff(p) || p.protectedEb == Some(key)
  }

  function RetainManifests(manifests: map<EbKey, seq<TxId>>, cutoff: nat, protectedEb: Option<EbKey>)
    : map<EbKey, seq<TxId>>
  {
    map k | k in manifests && (k.slot >= cutoff || protectedEb == Some(k)) :: manifests[k]
  }

  function Referenced(manifests: map<EbKey, seq<TxId>>): set<TxId> {
    set k, id | k in manifests && id in manifests[k] :: id
  }

  function Reports(dropped: set<TxId>): seq<Effect> {
    var ids := Ascending(dropped);
    seq(|ids|, i requires 0 <= i < |ids| => TxRejected(ids[i], EbClosurePruned))
  }

  /** Drop manifests outside the window, then pinned bodies no manifest references. */
  function PruneWindow(p: Pool): (Pool, seq<Effect>) {
    if Cutoff(p) == 0 then (p, [])
    else
      var manifests := RetainManifests(p.manifests, Cutoff(p), p.protectedEb);
      var dropped := p.pinned.Keys - Referenced(manifests);
      (p.(manifests := manifests, pinned := p.pinned - dropped), Reports(dropped))
  }

  function BumpEbSlot(p: Pool, slot: nat): (Pool, seq<Effect>) {
    PruneWindow(p.(maxEbSlot := Max(p.maxEbSlot, slot)))
  }

  function RecordManifest(p: Pool, key: EbKey, manifest: seq<TxId>): (Pool, seq<Effect>) {
    var q := if key in p.manifests then p else p.(manifests := p.manifests[key := manifest]);
    BumpEbSlot(q, key.slot)
  }

  function ProduceEb(p: Pool, key: EbKey, count: nat): (Pool, seq<TxId>, seq<Effect>) {
    var drained := p.txs[..Min(count, |p.txs|)];
    var manifest := IdList(drained);
    var q := Without(p, Ids(drained)).(
      pinned := PinFrom(p.pinned, drained, Ids(drained)), manifests := p.manifests[key := manifest]);
    var (r, fx) := BumpEbSlot(q, key.slot);
    (r, manifest, fx)
  }

  function PinEb(p: Pool, manifest: seq<TxId>): Pool {
    p.(pinned := PinFrom(p.pinned, p.txs, Elements(manifest)))
  }

  function ProduceSelectedEb(p: Pool, key: EbKey, manifest: seq<TxId>): (Pool, seq<Effect>) {
    RecordManifest(Without(PinEb(p, manifest), Elements(manifest)), key, manifest)
  }

  function MergeEbBody(p: Pool, tx: TxInfo, ours: bool, slot: nat): Pool {
    if HasTx(p, tx.id) then p
    else p.(pinned := p.pinned[tx.id := MempoolTx(tx, ours, slot)])
  }

  // ---------------------------------------------------------------------------
  // Every operation keeps the invariants
  // ---------------------------------------------------------------------------

  lemma WithoutKeepsInv(p: Pool, gone: set<TxId>)
    requires Inv(p)
    ensures Inv(Without(p, gone))
    ensures Without(p, gone).txIndex == p.txIndex - gone
  {
    var r := Without(p, gone);
    assert r.txIndex == p.txIndex - gone;
    forall q | q in r.unannounced
      ensures r.unannounced[q] !! AdvertisedTo(r, q)
      ensures r.unannounced[q] + AdvertisedTo(r, q) == r.txIndex
    {
      assert AdvertisedTo(r, q) == AdvertisedTo(p, q) - gone;
      assert p.unannounced[q] + AdvertisedTo(p, q) == p.txIndex;
    }
  }

  lemma MakeRoomKeepsInv(p: Pool)
    requires Inv(p)
    ensures Inv(MakeRoom(p)) && |MakeRoom(p).txs| < Max(1, p.capacity)
    ensures MakeRoom(p).txIndex <= p.txIndex && MakeRoom(p).applied == p.applied
  {
    if IsFull(p) {
      WithoutKeepsInv(p, {p.txs[0].Id()});
      assert Ids(p.txs[..1]) == {p.txs[0].Id()};
      KeepDropsPrefix(p.txs, 1);
    }
  }

  lemma PushKeepsInv(p: Pool, t: MempoolTx)
    requires Inv(p) && |p.txs| < Max(1, p.capacity)
    requires t.Id() !in p.txIndex && t.Id() !in p.applied
    ensures Inv(Push(p, t))
  {
    IdsConcat(p.txs, [t]);
    SizeOfConcat(p.txs, [t]);
    assert forall i :: 0 <= i < |p.txs| ==> p.txs[i].Id() in Ids(p.txs);
    var r := Push(p, t);
    forall q | q in r.unannounced
      ensures r.unannounced[q] !! AdvertisedTo(r, q)
      ensures r.unannounced[q] + AdvertisedTo(r, q) == r.txIndex
    {
      assert p.unannounced[q] + AdvertisedTo(p, q) == p.txIndex;
    }
  }

  lemma AdmitKeepsInv(p: Pool, id: TxId, body: TxBody, size: nat, slot: nat, ours: bool)
    requires Inv(p)
    ensures Inv(Admit(p, id, body, size, slot, ours).0)
  {
    var q := p.(pendingValidation := p.pendingValidation - {id});
    if id !in q.txIndex && id !in q.applied {
      MakeRoomKeepsInv(q);
      PushKeepsInv(MakeRoom(q), MempoolTx(TxInfo(id, body, size), ours, slot));
    }
  }

  lemma {:induction false} PushAllKeepsWindow(order: seq<TxId>, ids: seq<TxId>)
    requires Distinct(order) && |order| <= REPLAY_WINDOW
    ensures Distinct(PushAllApplied(order, ids)) && |PushAllApplied(order, ids)| <= REPLAY_WINDOW
    ensures Elements(PushAllApplied(order, ids)) <= Elements(order) + Elements(ids)
    decreases |ids|
  {
    if ids != [] {
      PushAllKeepsWindow(PushApplied(order, ids[0]), ids[1..]);
    }
  }

  lemma BlockAppliedKeepsInv(p: Pool, ids: seq<TxId>)
    requires Inv(p)
    ensures Inv(BlockApplied(p, ids))
  {
    var w := Without(p, Elements(ids));
    WithoutKeepsInv(p, Elements(ids));
    PushAllKeepsWindow(p.appliedOrder, ids);
    var r := BlockApplied(p, ids);
    assert ids != [] ==> PeersAgree(r) by {
      assert forall q :: AdvertisedTo(r, q) == AdvertisedTo(w, q) || ids == [];
    }
  }

  lemma AnnounceKeepsInv(p: Pool, peer: PeerId, sent: set<TxId>)
    requires Inv(p) && peer in p.unannounced && sent <= p.unannounced[peer]
    ensures Inv(Announce(p, peer, sent))
  {
    var r := Announce(p, peer, sent);
    forall q | q in r.unannounced
      ensures r.unannounced[q] !! AdvertisedTo(r, q)
      ensures r.unannounced[q] + AdvertisedTo(r, q) == r.txIndex
    {
      assert p.unannounced[q] + AdvertisedTo(p, q) == p.txIndex;
    }
  }

  lemma RegisteredKeepsInv(p: Pool, peer: PeerId)
    requires Inv(p)
    ensures Inv(Registered(p, peer))
  {
    hide Ids, SizeOf;
    var r := Registered(p, peer);
    forall q | q in r.unannounced
      ensures r.unannounced[q] !! AdvertisedTo(r, q)
      ensures r.unannounced[q] + AdvertisedTo(r, q) == r.txIndex
    {
      assert q in p.unannounced ==> p.unannounced[q] + AdvertisedTo(p, q) == p.txIndex;
    }
  }

  lemma PeekKeepsInv(p: Pool, peer: PeerId, maxCount: nat, slot: nat)
    requires Inv(p)
    ensures Inv(Peek(p, peer, maxCount, slot).0)
  {
    hide Inv, MayTransmit;
    var r := Registered(p, peer);
    RegisteredKeepsInv(p, peer);
    AnnounceKeepsInv(r, peer, Elements(FirstIds(Sendable(r, peer, slot), maxCount)));
  }

  lemma MarkKeepsInv(p: Pool, peer: PeerId, id: TxId, slot: nat)
    requires Inv(p)
    ensures Inv(Mark(p, peer, id, slot).0)
  {
    hide Inv, MayTransmit;
    var r := Registered(p, peer);
    RegisteredKeepsInv(p, peer);
    if id in r.unannounced[peer] {
      AnnounceKeepsInv(r, peer, {id});
    }
  }

  lemma ForgetKeepsInv(p: Pool, peer: PeerId)
    requires Inv(p)
    ensures Inv(ForgetPeer(p, peer))
  {
    var r := ForgetPeer(p, peer);
    assert forall q :: q in r.unannounced ==> AdvertisedTo(r, q) == AdvertisedTo(p, q);
  }

  /** The fields the invariants speak of. */
  ghost predicate SameCore(p: Pool, q: Pool) {
    && p.applied == q.applied && p.appliedOrder == q.appliedOrder
    && p.txs == q.txs && p.txIndex == q.txIndex && p.totalBytes == q.totalBytes && p.capacity == q.capacity
    && p.advertised == q.advertised && p.unannounced == q.unannounced
  }

  lemma SameCoreKeepsInv(p: Pool, q: Pool)
    requires Inv(p) && SameCore(p, q)
    ensures Inv(q)
  {
    assert forall r :: AdvertisedTo(p, r) == AdvertisedTo(q, r);
  }

  lemma PruneSameCore(p: Pool)
    ensures SameCore(p, PruneWindow(p).0)
  {
  }

  lemma BumpSameCore(p: Pool, slot: nat)
    ensures SameCore(p, BumpEbSlot(p, slot).0)
  {
    PruneSameCore(p.(maxEbSlot := Max(p.maxEbSlot, slot)));
  }

  lemma ProtectKeepsInv(p: Pool, key: Option<EbKey>)
    requires Inv(p)
    ensures Inv(PruneWindow(p.(protectedEb := key)).0)
  {
    PruneSameCore(p.(protectedEb := key));
    SameCoreKeepsInv(p, PruneWindow(p.(protectedEb := key)).0);
  }

  lemma EbFieldsKeepInv(p: Pool, manifests: map<EbKey, seq<TxId>>, pinned: map<TxId, MempoolTx>, slot: nat)
    requires Inv(p)
    ensures Inv(BumpEbSlot(p.(pinned := pinned, manifests := manifests), slot).0)
  {
    var q := p.(pinned := pinned, manifests := manifests);
    BumpSameCore(q, slot);
    SameCoreKeepsInv(p, BumpEbSlot(q, slot).0);
  }

  lemma ProduceKeepsInv(p: Pool, key: EbKey, count: nat)
    requires Inv(p)
    ensures Inv(ProduceEb(p, key, count).0)
  {
    var drained := p.txs[..Min(count, |p.txs|)];
    WithoutKeepsInv(p, Ids(drained));
    EbFieldsKeepInv(Without(p, Ids(drained)), p.manifests[key := IdList(drained)],
                    PinFrom(p.pinned, drained, Ids(drained)), key.slot);
  }

  lemma ProduceSelectedKeepsInv(p: Pool, key: EbKey, manifest: seq<TxId>)
    requires Inv(p)
    ensures Inv(ProduceSelectedEb(p, key, manifest).0)
  {
    var q := Without(PinEb(p, manifest), Elements(manifest));
    assert Inv(PinEb(p, manifest)) by { SameCoreKeepsInv(p, PinEb(p, manifest)); }
    WithoutKeepsInv(PinEb(p, manifest), Elements(manifest));
    RecordKeepsInv(q, key, manifest);
  }

  lemma RecordKeepsInv(p: Pool, key: EbKey, manifest: seq<TxId>)
    requires Inv(p)
    ensures Inv(RecordManifest(p, key, manifest).0)
  {
    var manifests := if key in p.manifests then p.manifests else p.manifests[key := manifest];
    EbFieldsKeepInv(p, manifests, p.pinned, key.slot);
    assert p.(pinned := p.pinned, manifests := p.manifests) == p;
  }

  // ---------------------------------------------------------------------------
  // Steps and runs
  // ---------------------------------------------------------------------------

  datatype Op =
    | AdmitValidated(id: TxId, body: TxBody, size: nat, slot: nat, ours: bool)
    | OnBlockApplied(ids: seq<TxId>)
    | OnBlockRolledBack
    | Forget(peer: PeerId)
    | PeekUnannounced(peer: PeerId, maxCount: nat, slot: nat)
    | MarkAnnounced(peer: PeerId, id: TxId, slot: nat)
    | Drain(maxBytes: nat)
    | DrainAll
    | Produce(key: EbKey, count: nat)
    | ProduceSelected(key: EbKey, manifest: seq<TxId>)
    | Protect(protectedKey: Option<EbKey>)
    | Record(key: EbKey, manifest: seq<TxId>)
    | Pin(manifest: seq<TxId>)
    | Merge(tx: TxInfo, ours: bool, slot: nat)
    | ApplyControl(policy: WithholdingPolicy)

  function Apply(p: Pool, op: Op): (Pool, seq<Effect>) {
    match op
    case AdmitValidated(id, body, size, slot, ours) => Admit(p, id, body, size, slot, ours)
    case OnBlockApplied(ids) => (BlockApplied(p, ids), [])
    case OnBlockRolledBack => (p, [])
    case Forget(peer) => (ForgetPeer(p, peer), [])
    case PeekUnannounced(peer, maxCount, slot) => (Peek(p, peer, maxCount, slot).0, [])
    case MarkAnnounced(peer, id, slot) => (Mark(p, peer, id, slot).0, [])
    case Drain(maxBytes) => (DrainUpTo(p, maxBytes).0, [])
    case DrainAll => (Without(p, Ids(p.txs)), [])
    case Produce(key, count) => var (q, _, fx) := ProduceEb(p, key, count); (q, fx)
    case ProduceSelected(key, manifest) => ProduceSelectedEb(p, key, manifest)
    case Protect(key) => PruneWindow(p.(protectedEb := key))
    case Record(key, manifest) => RecordManifest(p, key, manifest)
    case Pin(manifest) => (PinEb(p, manifest), [])
    case Merge(tx, ours, slot) => (MergeEbBody(p, tx, ours, slot), [])
    case ApplyControl(policy) => (p.(policy := policy), [])
  }

  function Step(p: Pool, op: Op): Pool {
    Apply(p, op).0
  }

  function Run(p: Pool, ops: seq<Op>): Pool
    decreases |ops|
  {
    if ops == [] then p else Run(Step(p, ops[0]), ops[1..])
  }

  lemma StepKeepsInv(p: Pool, op: Op)
    requires Inv(p)
    ensures Inv(Step(p, op))
  {
    hide Inv, Admit, BlockApplied, ForgetPeer, Peek, Mark, Without, ProduceEb, ProduceSelectedEb, PruneWindow,
         RecordManifest, PinEb, MergeEbBody;
    match op
    case AdmitValidated(id, body, size, slot, ours) => AdmitKeepsInv(p, id, body, size, slot, ours);
    case OnBlockApplied(ids) => BlockAppliedKeepsInv(p, ids);
    case OnBlockRolledBack =>
    case Forget(peer) => ForgetKeepsInv(p, peer);
    case PeekUnannounced(peer, maxCount, slot) => PeekKeepsInv(p, peer, maxCount, slot);
    case MarkAnnounced(peer, id, slot) => MarkKeepsInv(p, peer, id, slot);
    case Drain(maxBytes) => WithoutKeepsInv(p, Ids(DrainUpTo(p, maxBytes).1));
    case DrainAll => WithoutKeepsInv(p, Ids(p.txs));
    case _ => EbStepKeepsInv(p, op);
  }

  predicate IsEbOp(op: Op) {
    op.Produce? || op.ProduceSelected? || op.Protect? || op.Record? || op.Pin? || op.Merge? || op.ApplyControl?
  }

  lemma EbStepKeepsInv(p: Pool, op: Op)
    requires Inv(p) && IsEbOp(op)
    ensures Inv(Step(p, op))
  {
    hide Inv, Admit, BlockApplied, ForgetPeer, Peek, Mark, DrainUpTo, Without, ProduceEb, ProduceSelectedEb, PruneWindow,
         RecordManifest, PinFrom;
    match op
    case Produce(key, count) => ProduceKeepsInv(p, key, count);
    case ProduceSelected(key, manifest) => ProduceSelectedKeepsInv(p, key, manifest);
    case Protect(key) => ProtectKeepsInv(p, key);
    case Record(key, manifest) => RecordKeepsInv(p, key, manifest);
    case Pin(manifest) => SameCoreKeepsInv(p, PinEb(p, manifest));
    case Merge(tx, ours, slot) => SameCoreKeepsInv(p, MergeEbBody(p, tx, ours, slot));
    case ApplyControl(policy) => SameCoreKeepsInv(p, p.(policy := policy));
  }

  /** Every mempool run keeps every invariant. */
  lemma {:induction false} RunKeepsInv(p: Pool, ops: seq<Op>)
    requires Inv(p)
    ensures Inv(Run(p, ops))
    decreases |ops|
  {
    if ops != [] {
      StepKeepsInv(p, ops[0]);
      RunKeepsInv(Step(p, ops[0]), ops[1..]);
    }
  }
}
