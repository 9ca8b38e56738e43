/** What holds over whole mempool runs. */
module MempoolRuns {
  import opened Types
  import opened Ordered
  import opened Queue
  import opened MempoolModel

  // ---------------------------------------------------------------------------
  // Advertising
  // ---------------------------------------------------------------------------

  lemma {:induction false} DistinctIdsSize(txs: seq<MempoolTx>)
    requires DistinctIds(txs)
    ensures |txs| == |Ids(txs)|
  {
    if txs != [] {
      assert txs == [txs[0]] + txs[1..];
      IdsConcat([txs[0]], txs[1..]);
      assert Ids([txs[0]]) == {txs[0].Id()};
      DistinctIdsSize(txs[1..]);
    }
  }

  lemma OwedIsQueued(p: Pool, peer: PeerId)
    requires Inv(p)
    ensures Registered(p, peer).unannounced[peer] <= Ids(p.txs)
  {
    if peer in p.unannounced {
      assert p.unannounced[peer] + AdvertisedTo(p, peer) == p.txIndex;
    }
  }

  /** A peek returns as many txs as the limit and the filter allow, all owed, in queue order. */
  lemma PeekIsExact(p: Pool, peer: PeerId, maxCount: nat, slot: nat)
    requires Inv(p)
    ensures PeekExact(p, peer, maxCount, slot)
  {
    OwedIsQueued(p, peer);
    OwedPeekIsExact(p, peer, maxCount, slot);
  }

  ghost predicate PeekExact(p: Pool, peer: PeerId, maxCount: nat, slot: nat) {
    var sendable := Sendable(Registered(p, peer), peer, slot);
    var txs := Peek(p, peer, maxCount, slot).1;
    && |txs| == Min(maxCount, |sendable|)
    && Ids(txs) == Elements(FirstIds(sendable, maxCount))
    && DistinctIds(txs)
    && (forall t :: t in txs ==> t in p.txs)
  }

  lemma OwedPeekIsExact(p: Pool, peer: PeerId, maxCount: nat, slot: nat)
    requires DistinctIds(p.txs) && Registered(p, peer).unannounced[peer] <= Ids(p.txs)
    ensures PeekExact(p, peer, maxCount, slot)
  {
    var r := Registered(p, peer);
    var sendable := Sendable(r, peer, slot);
    var first := FirstIds(sendable, maxCount);
    SizeOfAscending(first);
    assert Elements(first) <= sendable <= r.unannounced[peer];
    SelectedSize(r.txs, Elements(first));
    if r.unannounced[peer] == {} || maxCount == 0 {
      assert r.unannounced[peer] == {} ==> sendable == {};
      assert first == [] && Elements(first) == {};
    }
  }

  lemma SelectedSize(txs: seq<MempoolTx>, ids: set<TxId>)
    requires DistinctIds(txs) && ids <= Ids(txs)
    ensures |Select(txs, ids)| == |ids| && Ids(Select(txs, ids)) == ids
  {
    var r := Select(txs, ids);
    assert Ids(r) == ids;
    DistinctIdsSize(r);
  }

  /** `id` is queued in every state of the run. */
  ghost predicate StaysQueued(p: Pool, ops: seq<Op>, id: TxId)
    decreases |ops|
  {
    id in p.txIndex && (ops == [] || StaysQueued(Step(p, ops[0]), ops[1..], id))
  }

  /** Only a newly queued id can become owed. */
  ghost predicate OwedShrinks(p: Pool, q: Pool, peer: PeerId) {
    peer in p.unannounced ==>
      peer in q.unannounced && q.unannounced[peer] <= p.unannounced[peer] + (q.txIndex - p.txIndex)
  }

  lemma AdmitOwed(p: Pool, id: TxId, body: TxBody, size: nat, slot: nat, ours: bool, peer: PeerId)
    ensures OwedShrinks(p, Admit(p, id, body, size, slot, ours).0, peer)
  {
  }

  lemma RecordSameCore(p: Pool, key: EbKey, manifest: seq<TxId>)
    ensures SameCore(p, RecordManifest(p, key, manifest).0)
  {
    BumpSameCore(if key in p.manifests then p else p.(manifests := p.manifests[key := manifest]), key.slot);
  }

  lemma ProduceOwed(p: Pool, key: EbKey, count: nat, peer: PeerId)
    ensures OwedShrinks(p, ProduceEb(p, key, count).0, peer)
  {
    var drained := p.txs[..Min(count, |p.txs|)];
    BumpSameCore(Without(p, Ids(drained)).(
      pinned := PinFrom(p.pinned, drained, Ids(drained)), manifests := p.manifests[key := IdList(drained)]), key.slot);
  }

  lemma ProduceSelectedOwed(p: Pool, key: EbKey, manifest: seq<TxId>, peer: PeerId)
    ensures OwedShrinks(p, ProduceSelectedEb(p, key, manifest).0, peer)
  {
    RecordSameCore(Without(PinEb(p, manifest), Elements(manifest)), key, manifest);
  }

  lemma PeekOwed(p: Pool, other: PeerId, maxCount: nat, slot: nat, peer: PeerId)
    ensures OwedShrinks(p, Peek(p, other, maxCount, slot).0, peer)
  {
  }

  lemma EbStepOwed(p: Pool, op: Op, peer: PeerId)
    requires IsEbOp(op)
    ensures OwedShrinks(p, Step(p, op), peer)
  {
    hide Admit, BlockApplied, ForgetPeer, Peek, Mark, DrainUpTo, Without, ProduceEb, ProduceSelectedEb, PruneWindow,
         RecordManifest, PinFrom;
    match op
    case Produce(key, count) => ProduceOwed(p, key, count, peer);
    case ProduceSelected(key, manifest) => ProduceSelectedOwed(p, key, manifest, peer);
    case Protect(key) => PruneSameCore(p.(protectedEb := key));
    case Record(key, manifest) => RecordSameCore(p, key, manifest);
    case _ =>
  }

  lemma StepOwed(p: Pool, op: Op, peer: PeerId)
    requires op != Forget(peer)
    ensures OwedShrinks(p, Step(p, op), peer)
  {
    hide Admit, Peek, ProduceEb, ProduceSelectedEb, PruneWindow, RecordManifest, PinEb, MergeEbBody, Keep, SizeOf;
    if IsEbOp(op) {
      EbStepOwed(p, op, peer);
    } else {
      match op
      case AdmitValidated(id, body, size, slot, ours) => AdmitOwed(p, id, body, size, slot, ours, peer);
      case PeekUnannounced(other, maxCount, slot) => PeekOwed(p, other, maxCount, slot, peer);
      case _ =>
    }
  }

  lemma StepKeepsAdvertised(p: Pool, op: Op, peer: PeerId, id: TxId)
    requires Inv(p) && id in AdvertisedTo(p, peer)
    requires op != Forget(peer) && id in Step(p, op).txIndex
    ensures id in AdvertisedTo(Step(p, op), peer)
  {
    StepKeepsInv(p, op);
    StepOwed(p, op, peer);
    assert id in p.txIndex && id !in p.unannounced[peer] by {
      assert p.unannounced[peer] + AdvertisedTo(p, peer) == p.txIndex;
    }
    var q := Step(p, op);
    assert q.unannounced[peer] + AdvertisedTo(q, peer) == q.txIndex;
  }

  /** A tx announced to a peer is never handed to that peer again while it stays queued. */
  lemma {:induction false} NeverRepeats(
      p: Pool, ops: seq<Op>, peer: PeerId, id: TxId, maxCount: nat, slot: nat)
    requires Inv(p) && id in AdvertisedTo(p, peer)
    requires StaysQueued(p, ops, id) && Forget(peer) !in ops
    ensures id in AdvertisedTo(Run(p, ops), peer)
    ensures id !in Ids(Peek(Run(p, ops), peer, maxCount, slot).1)
    ensures !Mark(Run(p, ops), peer, id, slot).1
    decreases |ops|
  {
    if ops == [] {
      PeekIsExact(p, peer, maxCount, slot);
      assert peer in p.unannounced && id !in p.unannounced[peer];
    } else {
      StepKeepsInv(p, ops[0]);
      StepKeepsAdvertised(p, ops[0], peer, id);
      NeverRepeats(Step(p, ops[0]), ops[1..], peer, id, maxCount, slot);
    }
  }

  /** What a peek returns is announced from then on. */
  lemma PeekAnnounces(p: Pool, peer: PeerId, maxCount: nat, slot: nat)
    requires Inv(p)
    ensures var (q, txs) := Peek(p, peer, maxCount, slot);
            Ids(txs) <= AdvertisedTo(q, peer) && q.txs == p.txs
  {
    PeekIsExact(p, peer, maxCount, slot);
  }

  // ---------------------------------------------------------------------------
  // The replay filter
  // ---------------------------------------------------------------------------

  function Tail(log: seq<TxId>): seq<TxId> {
    if |log| <= REPLAY_WINDOW then log else log[|log| - REPLAY_WINDOW..]
  }

  /** The history of the filter: every id it ever appended, in order. */
  function LogBlock(log: seq<TxId>, ids: seq<TxId>): (grown: seq<TxId>)
    ensures log <= grown
    decreases |ids|
  {
    if ids == [] then log
    else LogBlock(if ids[0] in Tail(log) then log else log + [ids[0]], ids[1..])
  }

  function LogRun(log: seq<TxId>, ops: seq<Op>): (grown: seq<TxId>)
    ensures log <= grown
    decreases |ops|
  {
    if ops == [] then log
    else LogRun(if ops[0].OnBlockApplied? then LogBlock(log, ops[0].ids) else log, ops[1..])
  }

  /** No id recurs within a window's distance. */
  ghost predicate Spread(log: seq<TxId>) {
    forall i, j :: 0 <= i < j < |log| && j - i <= REPLAY_WINDOW ==> log[i] != log[j]
  }

  lemma InTail(log: seq<TxId>, i: nat)
    requires i < |log| && |log| - i <= REPLAY_WINDOW
    ensures log[i] in Tail(log)
  {
    assert log[i] == Tail(log)[i - (|log| - |Tail(log)|)];
  }

  lemma PushIsTail(log: seq<TxId>, id: TxId)
    requires Spread(log) && id !in Tail(log)
    ensures PushApplied(Tail(log), id) == Tail(log + [id])
    ensures Spread(log + [id])
  {
    forall i | 0 <= i < |log| && |log| - i <= REPLAY_WINDOW
      ensures log[i] != id
    {
      InTail(log, i);
    }
  }

  lemma {:induction false} BlockLog(log: seq<TxId>, ids: seq<TxId>)
    requires Spread(log)
    ensures PushAllApplied(Tail(log), ids) == Tail(LogBlock(log, ids))
    ensures Spread(LogBlock(log, ids))
    decreases |ids|
  {
    if ids != [] {
      if ids[0] in Tail(log) {
        BlockLog(log, ids[1..]);
      } else {
        PushIsTail(log, ids[0]);
        BlockLog(log + [ids[0]], ids[1..]);
      }
    }
  }

  lemma OrderChangesOnlyOnApply(p: Pool, op: Op)
    requires !op.OnBlockApplied?
    ensures Step(p, op).appliedOrder == p.appliedOrder
  {
    hide Keep, PinFrom, Referenced, Reports, Sendable, MayTransmit;
  }

  /** Across any run, rollbacks included, the filter is exactly the last window of the
      ids ever appended, and no id is appended while still in the window. */
  lemma {:induction false} FilterIsLastWindow(p: Pool, ops: seq<Op>, log: seq<TxId>)
    requires p.appliedOrder == Tail(log) && Spread(log)
    ensures Run(p, ops).appliedOrder == Tail(LogRun(log, ops))
    ensures Spread(LogRun(log, ops))
    decreases |ops|
  {
    if ops != [] {
      if ops[0].OnBlockApplied? {
        BlockLog(log, ops[0].ids);
        FilterIsLastWindow(Step(p, ops[0]), ops[1..], LogBlock(log, ops[0].ids));
      } else {
        OrderChangesOnlyOnApply(p, ops[0]);
        FilterIsLastWindow(Step(p, ops[0]), ops[1..], log);
      }
    }
  }

  /** An applied id that is queued again has been pushed out by a full window of
      distinct later ids. */
  lemma NoEarlyReentry(p: Pool, ops: seq<Op>, i: nat)
    requires Inv(p) && i < |p.appliedOrder|
    requires p.appliedOrder[i] in Run(p, ops).txIndex
    ensures var later := LogRun(p.appliedOrder, ops)[i + 1..];
            && |later| >= REPLAY_WINDOW
            && Distinct(later[..REPLAY_WINDOW])
            && p.appliedOrder[i] !in later[..REPLAY_WINDOW]
  {
    var log := LogRun(p.appliedOrder, ops);
    RunKeepsInv(p, ops);
    FilterIsLastWindow(p, ops, p.appliedOrder);
    assert log[i] == p.appliedOrder[i] && log[i] !in Tail(log);
    assert |log| - i > REPLAY_WINDOW by {
      if |log| - i <= REPLAY_WINDOW { InTail(log, i); assert false; }
    }
    WindowIsDistinct(log, i);
  }

  lemma WindowIsDistinct(log: seq<TxId>, i: nat)
    requires Spread(log) && i + REPLAY_WINDOW < |log|
    ensures Distinct(log[i + 1..][..REPLAY_WINDOW])
    ensures log[i] !in log[i + 1..][..REPLAY_WINDOW]
  {
    var window := log[i + 1..][..REPLAY_WINDOW];
    assert forall j :: 0 <= j < |window| ==> window[j] == log[i + 1 + j];
  }

  /** After a full window of other ids the marker is gone and the id may be admitted again. */
  lemma WindowExpires(p: Pool, ops: seq<Op>, i: nat)
    requires Inv(p) && i < |p.appliedOrder|
    requires var later := LogRun(p.appliedOrder, ops)[i + 1..];
             |later| >= REPLAY_WINDOW && p.appliedOrder[i] !in later
    ensures p.appliedOrder[i] !in Run(p, ops).applied
  {
    var log := LogRun(p.appliedOrder, ops);
    RunKeepsInv(p, ops);
    FilterIsLastWindow(p, ops, p.appliedOrder);
    TailWithin(log, i);
  }

  lemma TailWithin(log: seq<TxId>, i: nat)
    requires i + REPLAY_WINDOW < |log|
    ensures forall x :: x in Tail(log) ==> x in log[i + 1..]
  {
    forall j | 0 <= j < |Tail(log)|
      ensures Tail(log)[j] in log[i + 1..]
    {
      var k := |log| - REPLAY_WINDOW + j;
      assert Tail(log)[j] == log[k] == log[i + 1..][k - (i + 1)];
    }
  }

  // ---------------------------------------------------------------------------
  // A peer that comes back
  // ---------------------------------------------------------------------------

  /** A disconnected peer that peeks again is owed the whole queue, whatever it was sent before. */
  lemma ReconnectStartsOver(p: Pool, peer: PeerId, maxCount: nat, slot: nat)
    requires Inv(p)
    ensures var txs := Peek(ForgetPeer(p, peer), peer, maxCount, slot).1;
            var all := set id | id in p.txIndex && MayTransmit(p, slot, id, false);
            |txs| == Min(maxCount, |all|) && Ids(txs) == Elements(FirstIds(all, maxCount))
  {
    hide Peek, Inv, FirstIds;
    var q := ForgetPeer(p, peer);
    ForgetKeepsInv(p, peer);
    PeekIsExact(q, peer, maxCount, slot);
    OwedAll(p, peer, slot);
  }

  lemma OwedAll(p: Pool, peer: PeerId, slot: nat)
    ensures Sendable(Registered(ForgetPeer(p, peer), peer), peer, slot)
            == set id | id in p.txIndex && MayTransmit(p, slot, id, false)
  {
    var r := Registered(ForgetPeer(p, peer), peer);
    assert forall id :: MayTransmit(r, slot, id, false) == MayTransmit(p, slot, id, false);
  }
}
