/** What happens to endorser-block manifests and pinned bodies over whole mempool runs. */
module EbRetention {
  import opened Types
  import opened Ordered
  import opened Queue
  import opened MempoolModel

  // ---------------------------------------------------------------------------
  // Closures that are retained
  // ---------------------------------------------------------------------------

  /** The closure of `key` is intact: this manifest, and at least these pinned bodies of it. */
  ghost predicate Intact(p: Pool, key: EbKey, manifest: seq<TxId>, bodies: map<TxId, MempoolTx>) {
    && key in p.manifests && p.manifests[key] == manifest
    && bodies.Keys <= Elements(manifest)
    && (forall id :: id in bodies ==> id in p.pinned && p.pinned[id] == bodies[id])
  }

  predicate Reproduces(op: Op, key: EbKey) {
    op.Produce? && op.key == key
  }

  lemma PruneKeepsRetained(p: Pool, key: EbKey, manifest: seq<TxId>, bodies: map<TxId, MempoolTx>)
    requires Intact(p, key, manifest, bodies) && Retained(p, key)
    ensures Intact(PruneWindow(p).0, key, manifest, bodies)
  {
    if Cutoff(p) != 0 {
      var manifests := RetainManifests(p.manifests, Cutoff(p), p.protectedEb);
      assert key in manifests && manifests[key] == manifest;
      assert forall id :: id in bodies ==> id in Referenced(manifests);
    }
  }

  /** The state that the operation hands to the window prune; itself when it does not prune. */
  function BeforePrune(p: Pool, op: Op): Pool {
    match op
    case Produce(key, count) =>
      var drained := p.txs[..Min(count, |p.txs|)];
      Without(p, Ids(drained)).(
        pinned := PinFrom(p.pinned, drained, Ids(drained)), manifests := p.manifests[key := IdList(drained)],
        maxEbSlot := Max(p.maxEbSlot, key.slot))
    case ProduceSelected(key, manifest) =>
      var q := Without(PinEb(p, manifest), Elements(manifest));
      q.(manifests := if key in q.manifests then q.manifests else q.manifests[key := manifest],
         maxEbSlot := Max(q.maxEbSlot, key.slot))
    case Record(key, manifest) =>
      p.(manifests := if key in p.manifests then p.manifests else p.manifests[key := manifest],
         maxEbSlot := Max(p.maxEbSlot, key.slot))
    case Protect(key) => p.(protectedEb := key)
    case _ => Step(p, op)
  }

  predicate Prunes(op: Op) {
    op.Produce? || op.ProduceSelected? || op.Record? || op.Protect?
  }

  lemma StepIsPrune(p: Pool, op: Op)
    ensures Prunes(op) ==> Apply(p, op) == PruneWindow(BeforePrune(p, op))
    ensures !Prunes(op) ==> Step(p, op) == BeforePrune(p, op)
  {
    if op.Record? {
      assert p.(manifests := p.manifests) == p;
    }
  }

  lemma BeforePruneKeeps(p: Pool, op: Op, key: EbKey, manifest: seq<TxId>, bodies: map<TxId, MempoolTx>)
    requires Intact(p, key, manifest, bodies) && !Reproduces(op, key)
    ensures Intact(BeforePrune(p, op), key, manifest, bodies)
  {
    hide PinFrom, Keep, Ids, SizeOf, PrunePeers;
    BeforePruneKeepsPins(p, op);
    if !Prunes(op) && !op.Pin? && !op.Merge? {
      KeepsEbState(p, op);
    }
  }

  ghost predicate SameEbState(p: Pool, q: Pool) {
    && p.pinned == q.pinned && p.manifests == q.manifests
    && p.protectedEb == q.protectedEb
  }

  lemma AdmitKeepsEbState(p: Pool, id: TxId, body: TxBody, size: nat, slot: nat, ours: bool)
    ensures SameEbState(p, Admit(p, id, body, size, slot, ours).0)
  {
  }

  lemma AnnounceKeepsEbState(p: Pool, peer: PeerId, sent: set<TxId>)
    requires peer in p.unannounced
    ensures SameEbState(p, Announce(p, peer, sent))
  {
  }

  lemma PeekKeepsEbState(p: Pool, peer: PeerId, maxCount: nat, slot: nat)
    ensures SameEbState(p, Peek(p, peer, maxCount, slot).0)
  {
    var r := Registered(p, peer);
    AnnounceKeepsEbState(r, peer, Elements(FirstIds(Sendable(r, peer, slot), maxCount)));
  }

  lemma MarkKeepsEbState(p: Pool, peer: PeerId, id: TxId, slot: nat)
    ensures SameEbState(p, Mark(p, peer, id, slot).0)
  {
  }

  lemma KeepsEbState(p: Pool, op: Op)
    requires !Prunes(op) && !op.Pin? && !op.Merge?
    ensures SameEbState(p, Step(p, op))
  {
    match op
    case AdmitValidated(id, body, size, slot, ours) => AdmitKeepsEbState(p, id, body, size, slot, ours);
    case PeekUnannounced(peer, maxCount, slot) => PeekKeepsEbState(p, peer, maxCount, slot);
    case MarkAnnounced(peer, id, slot) => MarkKeepsEbState(p, peer, id, slot);
    case _ =>
  }

  lemma PruneKeepsSlots(p: Pool)
    ensures PruneWindow(p).0.maxEbSlot == p.maxEbSlot
    ensures PruneWindow(p).0.protectedEb == p.protectedEb
    ensures PruneWindow(p).0.retentionSlots == p.retentionSlots
  {
  }

  lemma StepKeepsIntact(p: Pool, op: Op, key: EbKey, manifest: seq<TxId>, bodies: map<TxId, MempoolTx>)
    requires Intact(p, key, manifest, bodies) && !Reproduces(op, key)
    requires Retained(Step(p, op), key)
    ensures Intact(Step(p, op), key, manifest, bodies)
  {
    BeforePruneKeeps(p, op, key, manifest, bodies);
    StepIsPrune(p, op);
    if Prunes(op) {
      PruneKeepsSlots(BeforePrune(p, op));
      PruneKeepsRetained(BeforePrune(p, op), key, manifest, bodies);
    }
  }

  /** After every operation of the run `key` is in the window or protected, and it is not re-produced. */
  ghost predicate RetainedAlong(p: Pool, ops: seq<Op>, key: EbKey)
    decreases |ops|
  {
    ops == [] ||
    (&& !Reproduces(ops[0], key)
     && Retained(Step(p, ops[0]), key)
     && RetainedAlong(Step(p, ops[0]), ops[1..], key))
  }

  /** A retained manifest and every body pinned for it survive the run unchanged. */
  lemma {:induction false} ClosureSurvives(
      p: Pool, ops: seq<Op>, key: EbKey, manifest: seq<TxId>, bodies: map<TxId, MempoolTx>)
    requires Intact(p, key, manifest, bodies) && RetainedAlong(p, ops, key)
    ensures Intact(Run(p, ops), key, manifest, bodies)
    decreases |ops|
  {
    if ops != [] {
      StepKeepsIntact(p, ops[0], key, manifest, bodies);
      ClosureSurvives(Step(p, ops[0]), ops[1..], key, manifest, bodies);
    }
  }

  /** While an EB is the protected chain tip its closure survives every operation, however far
      the slot window advances. */
  lemma {:induction false} ProtectedClosureSurvives(
      p: Pool, ops: seq<Op>, key: EbKey, manifest: seq<TxId>, bodies: map<TxId, MempoolTx>)
    requires Intact(p, key, manifest, bodies) && p.protectedEb == Some(key)
    requires forall op :: op in ops ==> !op.Protect? && !Reproduces(op, key)
    ensures Intact(Run(p, ops), key, manifest, bodies)
    ensures Run(p, ops).protectedEb == Some(key)
    decreases |ops|
  {
    if ops != [] {
      ProtectionStays(p, ops[0]);
      StepKeepsIntact(p, ops[0], key, manifest, bodies);
      ProtectedClosureSurvives(Step(p, ops[0]), ops[1..], key, manifest, bodies);
    }
  }

  lemma ProtectionStays(p: Pool, op: Op)
    requires !op.Protect?
    ensures Step(p, op).protectedEb == p.protectedEb
  {
    if Prunes(op) {
      var q := BeforePrune(p, op);
      assert q.protectedEb == p.protectedEb;
      StepIsPrune(p, op);
      PruneKeepsSlots(q);
    } else if !op.Pin? && !op.Merge? {
      KeepsEbState(p, op);
    }
  }

  // ---------------------------------------------------------------------------
  // Pinned bodies leave only with a report
  // ---------------------------------------------------------------------------

  function ReportCount(fx: seq<Effect>, id: TxId): nat {
    multiset(fx)[TxRejected(id, EbClosurePruned)]
  }

  lemma {:induction false} DistinctCount<T>(s: seq<T>, x: T)
    requires Distinct(s)
    ensures multiset(s)[x] == if x in s then 1 else 0
  {
    if s != [] {
      var rest := s[..|s| - 1];
      assert s == rest + [s[|s| - 1]];
      DistinctCount(rest, x);
    }
  }

  lemma ReportsCount(dropped: set<TxId>, id: TxId)
    ensures ReportCount(Reports(dropped), id) == if id in dropped then 1 else 0
  {
    var ids := Ascending(dropped);
    var fx := Reports(dropped);
    assert forall i :: 0 <= i < |ids| ==> fx[i] == TxRejected(ids[i], EbClosurePruned);
    assert id in dropped <==> TxRejected(id, EbClosurePruned) in fx by {
      if id in dropped {
        var i :| 0 <= i < |ids| && ids[i] == id;
        assert fx[i] == TxRejected(id, EbClosurePruned);
      }
    }
    DistinctCount(fx, TxRejected(id, EbClosurePruned));
  }

  /** Each operation reports exactly the bodies that were pinned before or during it and are
      not pinned after it, once each. */
  lemma StepReports(p: Pool, op: Op, id: TxId)
    ensures Step(p, op).pinned.Keys <= BeforePrune(p, op).pinned.Keys
    ensures p.pinned.Keys <= BeforePrune(p, op).pinned.Keys
    ensures ReportCount(Apply(p, op).1, id) ==
            if id in BeforePrune(p, op).pinned && id !in Step(p, op).pinned then 1 else 0
  {
    hide Apply, BeforePrune, PruneWindow;
    StepIsPrune(p, op);
    BeforePruneKeepsPins(p, op);
    if Prunes(op) {
      PruneReports(BeforePrune(p, op), id);
    } else {
      NoPruneNoReport(p, op, id);
    }
  }

  lemma BeforePruneKeepsPins(p: Pool, op: Op)
    ensures forall id :: id in p.pinned ==> id in BeforePrune(p, op).pinned && BeforePrune(p, op).pinned[id] == p.pinned[id]
  {
    if !Prunes(op) && !op.Pin? && !op.Merge? {
      KeepsEbState(p, op);
    }
  }

  lemma NoPruneNoReport(p: Pool, op: Op, id: TxId)
    requires !Prunes(op)
    ensures ReportCount(Apply(p, op).1, id) == 0
  {
    hide BlockApplied, Peek, Mark, DrainUpTo, Without, Push, MakeRoom, PinEb, MergeEbBody;
  }

  lemma PruneReports(p: Pool, id: TxId)
    ensures PruneWindow(p).0.pinned.Keys <= p.pinned.Keys
    ensures ReportCount(PruneWindow(p).1, id) ==
            if id in p.pinned && id !in PruneWindow(p).0.pinned then 1 else 0
  {
    if Cutoff(p) != 0 {
      var manifests := RetainManifests(p.manifests, Cutoff(p), p.protectedEb);
      ReportsCount(p.pinned.Keys - Referenced(manifests), id);
    }
  }

  /** How often the run pins `id` afresh. */
  ghost function TimesPinned(p: Pool, ops: seq<Op>, id: TxId): nat
    decreases |ops|
  {
    if ops == [] then 0
    else (if id !in p.pinned && id in BeforePrune(p, ops[0]).pinned then 1 else 0)
         + TimesPinned(Step(p, ops[0]), ops[1..], id)
  }

  /** How often the run's effects report `id` as pruned. */
  ghost function TimesReported(p: Pool, ops: seq<Op>, id: TxId): nat
    decreases |ops|
  {
    if ops == [] then 0
    else ReportCount(Apply(p, ops[0]).1, id) + TimesReported(Step(p, ops[0]), ops[1..], id)
  }

  /** Conservation over a run: a body pinned at the start, plus its pinnings, is either still
      pinned at the end or accounted for by exactly one report per departure. */
  lemma {:induction false} PinnedIsConserved(p: Pool, ops: seq<Op>, id: TxId)
    ensures (if id in p.pinned then 1 else 0) + TimesPinned(p, ops, id)
         == (if id in Run(p, ops).pinned then 1 else 0) + TimesReported(p, ops, id)
    decreases |ops|
  {
    if ops != [] {
      StepReports(p, ops[0], id);
      PinnedIsConserved(Step(p, ops[0]), ops[1..], id);
    }
  }

  // ---------------------------------------------------------------------------
  // Fetched bodies
  // ---------------------------------------------------------------------------

  /** After a merge the tx has a body, the fetched one unless there was one already, and every other
      lookup is as before. */
  lemma MergedBodyResolves(p: Pool, tx: TxInfo, ours: bool, slot: nat, id: TxId)
    requires Inv(p)
    ensures var q := MergeEbBody(p, tx, ours, slot);
            && GetBody(q, tx.id) == (if HasTx(p, tx.id) then GetBody(p, tx.id) else Some(tx.body))
            && GetBody(q, tx.id).Some?
            && (id != tx.id ==> GetBody(q, id) == GetBody(p, id))
  {
    HasTxIffBody(p, tx.id);
  }

  /** What a manifest lacks shrinks by exactly this tx. */
  lemma MergeShrinksMissing(p: Pool, tx: TxInfo, ours: bool, slot: nat, manifest: seq<TxId>, i: nat)
    ensures i in MissingIn(MergeEbBody(p, tx, ours, slot), manifest) <==>
            i in MissingIn(p, manifest) && manifest[i] != tx.id
  {
    hide MissingIn;
  }
}
