/** The mempool as it runs: the index, byte counter and per-peer sets are updated in place,
    entry by entry, and always agree with `MempoolModel`. */
module Mempool {
  import opened Types
  import opened Ordered
  import opened Queue
  import M = MempoolModel
  import R = MempoolRuns

  /** The source's fields are the components of the record `s`, updated one at a time. */
  class MempoolState {
    var s: M.Pool

    /** All the invariants of `MempoolModel`. */
    ghost predicate Valid()
      reads this
    {
      M.Inv(s)
    }

    /** The part of `Valid` that the queue operations rely on. */
    ghost predicate Indexed()
      reads this
    {
      DistinctIds(s.txs) && s.txIndex == Ids(s.txs) && s.totalBytes == SizeOf(s.txs)
    }

    constructor (capacity: nat, retentionSlots: nat)
      ensures Valid() && s == M.EmptyPool(capacity, retentionSlots)
    {
      s := M.EmptyPool(capacity, retentionSlots);
    }

    method PruneFromPeerSets(id: TxId)
      modifies this
      ensures s == old(s).(advertised := M.PrunePeers(old(s.advertised), {id}),
                           unannounced := M.PrunePeers(old(s.unannounced), {id}))
    {
      s := s.(advertised := M.PrunePeers(s.advertised, {id}));
      s := s.(unannounced := M.PrunePeers(s.unannounced, {id}));
    }

    method PruneAllFromPeerSets(ids: seq<TxId>)
      modifies this
      ensures s == old(s).(advertised := M.PrunePeers(old(s.advertised), Elements(ids)),
                           unannounced := M.PrunePeers(old(s.unannounced), Elements(ids)))
    {
      PruneNone(s.advertised);
      PruneNone(s.unannounced);
      var i := 0;
      while i < |ids|
        invariant 0 <= i <= |ids|
        invariant s == old(s).(advertised := M.PrunePeers(old(s.advertised), Elements(ids[..i])),
                               unannounced := M.PrunePeers(old(s.unannounced), Elements(ids[..i])))
      {
        PruneMore(old(s.advertised), Elements(ids[..i]), {ids[i]});
        PruneMore(old(s.unannounced), Elements(ids[..i]), {ids[i]});
        PruneFromPeerSets(ids[i]);
        assert Elements(ids[..i + 1]) == Elements(ids[..i]) + {ids[i]};
        i := i + 1;
      }
      assert ids[..i] == ids;
    }

    /** Pop the oldest tx out of the queue and its indexes. */
    method PopFront() returns (t: MempoolTx)
      requires Indexed() && s.txs != []
      modifies this
      ensures Indexed() && t == old(s.txs)[0]
      ensures s == old(s).(txs := old(s.txs)[1..], txIndex := s.txIndex, totalBytes := s.totalBytes)
    {
      t := s.txs[0];
      IndexTail(s.txs);
      s := s.(txs := s.txs[1..]);
      s := s.(txIndex := s.txIndex - {t.Id()});
      s := s.(totalBytes := s.totalBytes - t.Size());
    }

    method AdmitValidated(id: TxId, body: TxBody, size: nat, slot: nat, ours: bool)
      returns (fx: seq<M.Effect>)
      requires Indexed()
      modifies this
      ensures (s, fx) == M.Admit(old(s), id, body, size, slot, ours)
    {
      if id in s.txIndex {
        return [M.TxRejected(id, M.AlreadyKnown)];
      }
      s := s.(pendingValidation := s.pendingValidation - {id});
      if id in s.applied {
        return [M.TxRejected(id, M.AlreadyKnown)];
      }
      fx := EvictWhenFull();
      s := s.(totalBytes := s.totalBytes + size);
      s := s.(txIndex := s.txIndex + {id});
      s := s.(unannounced := M.FanOut(s.unannounced, id));
      s := s.(txs := s.txs + [MempoolTx(TxInfo(id, body, size), ours, slot)]);
    }

    method EvictWhenFull() returns (fx: seq<M.Effect>)
      requires Indexed()
      modifies this
      ensures s == M.MakeRoom(old(s))
      ensures fx == if M.IsFull(old(s)) then [M.TxRejected(old(s.txs)[0].Id(), M.QueueFull)] else []
    {
      if |s.txs| >= s.capacity {
        if s.txs != [] {
          FrontRemoved(s);
          var evicted := PopFront();
          PruneFromPeerSets(evicted.Id());
          return [M.TxRejected(evicted.Id(), M.QueueFull)];
        }
      }
      return [];
    }

    /** The indexes are touched only if the queue shrank. */
    method OnBlockApplied(ids: seq<TxId>)
      requires Valid()
      modifies this
      ensures s == M.BlockApplied(old(s), ids)
    {
      if ids == [] {
        return;
      }
      ReplayFacts(s);
      MarkApplied(ids);
      var before := |s.txs|;
      s := s.(txs := Keep(s.txs, Elements(ids)));
      if |s.txs| != before {
        s := s.(txIndex := s.txIndex - Elements(ids));
        s := s.(totalBytes := SizeOf(s.txs));
        PruneAllFromPeerSets(ids);
        M.WithoutKeepsInv(old(s), Elements(ids));
      } else {
        NothingRemoved(old(s), Elements(ids));
      }
    }

    method MarkApplied(ids: seq<TxId>)
      requires s.applied == Elements(s.appliedOrder) && Distinct(s.appliedOrder)
      requires |s.appliedOrder| <= M.REPLAY_WINDOW
      modifies this
      ensures var order := M.PushAllApplied(old(s.appliedOrder), ids);
              s == old(s).(applied := Elements(order), appliedOrder := order,
                           pendingValidation := old(s.pendingValidation) - Elements(ids))
    {
      hide M.PushApplied, Distinct;
      var i := 0;
      while i < |ids|
        invariant 0 <= i <= |ids|
        invariant s.applied == Elements(s.appliedOrder) && Distinct(s.appliedOrder)
        invariant |s.appliedOrder| <= M.REPLAY_WINDOW
        invariant M.PushAllApplied(s.appliedOrder, ids[i..]) == M.PushAllApplied(old(s.appliedOrder), ids)
        invariant s == old(s).(applied := s.applied, appliedOrder := s.appliedOrder,
                               pendingValidation := old(s.pendingValidation) - Elements(ids[..i]))
      {
        MarkOneApplied(ids[i]);
        assert ids[i..][1..] == ids[i + 1..];
        assert Elements(ids[..i + 1]) == Elements(ids[..i]) + {ids[i]};
        i := i + 1;
      }
      assert ids[..i] == ids;
    }

    method MarkOneApplied(id: TxId)
      requires s.applied == Elements(s.appliedOrder) && Distinct(s.appliedOrder)
      requires |s.appliedOrder| <= M.REPLAY_WINDOW
      modifies this
      ensures Distinct(s.appliedOrder) && |s.appliedOrder| <= M.REPLAY_WINDOW
      ensures var order := M.PushApplied(old(s.appliedOrder), id);
              s == old(s).(applied := Elements(order), appliedOrder := order,
                           pendingValidation := old(s.pendingValidation) - {id})
    {
      if id !in s.applied {
        AppendFresh(s.appliedOrder, id);
        s := s.(applied := s.applied + {id});
        s := s.(appliedOrder := s.appliedOrder + [id]);
        if |s.appliedOrder| > M.REPLAY_WINDOW {
          var oldest := s.appliedOrder[0];
          s := s.(appliedOrder := s.appliedOrder[1..]);
          s := s.(applied := s.applied - {oldest});
        }
      }
      s := s.(pendingValidation := s.pendingValidation - {id});
    }

    method ForgetPeer(peer: PeerId)
      modifies this
      ensures s == M.ForgetPeer(old(s), peer)
    {
      s := s.(advertised := s.advertised - {peer});
      s := s.(unannounced := s.unannounced - {peer});
    }

    method EnsurePeerRegistered(peer: PeerId)
      modifies this
      ensures s == M.Registered(old(s), peer)
    {
      if peer !in s.unannounced {
        s := s.(unannounced := s.unannounced[peer := s.txIndex]);
      }
    }

    /** The resolution scan stops once every id is found. The fallback to pinned bodies that
        follows it in the source is unreachable: every owed id is queued. */
    method PeekUnannouncedForPeer(peer: PeerId, maxCount: nat, currentSlot: nat)
      returns (result: seq<MempoolTx>)
      requires Indexed() && M.Registered(s, peer).unannounced[peer] <= Ids(s.txs)
      modifies this
      ensures (s, result) == M.Peek(old(s), peer, maxCount, currentSlot)
    {
      EnsurePeerRegistered(peer);
      if s.unannounced[peer] == {} || maxCount == 0 {
        return [];
      }
      var toSend := PickSendable(peer, maxCount, currentSlot);
      assert Elements(toSend) <= M.Sendable(s, peer, currentSlot) <= s.unannounced[peer];
      MoveToAdvertised(peer, Elements(toSend));
      result := ResolveBodies(toSend);
    }

    method MoveToAdvertised(peer: PeerId, sent: set<TxId>)
      requires peer in s.unannounced
      modifies this
      ensures s == M.Announce(old(s), peer, sent)
    {
      s := s.(unannounced := s.unannounced[peer := s.unannounced[peer] - sent]);
      var soFar := if peer in s.advertised then s.advertised[peer] else {};
      s := s.(advertised := s.advertised[peer := soFar + sent]);
    }

    method PickSendable(peer: PeerId, maxCount: nat, currentSlot: nat) returns (toSend: seq<TxId>)
      requires peer in s.unannounced
      ensures toSend == M.FirstIds(M.Sendable(s, peer, currentSlot), maxCount)
    {
      hide M.MayTransmit, Ascending, M.FirstIds;
      var owed := Ascending(s.unannounced[peer]);
      ghost var passing := M.Sendable(s, peer, currentSlot);
      toSend := [];
      var i := 0;
      while i < |owed| && |toSend| < maxCount
        invariant 0 <= i <= |owed|
        invariant toSend == Where(owed[..i], passing) && |toSend| <= maxCount
      {
        WhereNext(owed, passing, i);
        assert owed[i] in owed;
        if M.MayTransmit(s, currentSlot, owed[i], false) {
          toSend := toSend + [owed[i]];
        }
        i := i + 1;
      }
      WhereIsFirst(owed, i, passing, maxCount);
    }

    method ResolveBodies(toSend: seq<TxId>) returns (result: seq<MempoolTx>)
      requires DistinctIds(s.txs) && StrictlyAscending(toSend) && Elements(toSend) <= Ids(s.txs)
      ensures result == Select(s.txs, Elements(toSend))
    {
      var txs, wanted := s.txs, Elements(toSend);
      SizeOfAscending(toSend);
      R.SelectedSize(txs, wanted);
      result := [];
      var i := 0;
      while i < |txs|
        invariant 0 <= i <= |txs|
        invariant result == Select(txs[..i], wanted)
      {
        SelectSnoc(txs, i, wanted);
        if txs[i].Id() in wanted {
          result := result + [txs[i]];
          if |result| == |toSend| {
            RestIsUnwanted(txs, i + 1, wanted);
            return;
          }
        }
        i := i + 1;
      }
      assert txs[..i] == txs;
    }

    method MarkAnnouncedToPeer(peer: PeerId, id: TxId, currentSlot: nat) returns (wasOwed: bool)
      modifies this
      ensures (s, wasOwed) == M.Mark(old(s), peer, id, currentSlot)
    {
      EnsurePeerRegistered(peer);
      if !M.MayTransmit(s, currentSlot, id, false) {
        return false;
      }
      wasOwed := id in s.unannounced[peer];
      if wasOwed {
        MoveToAdvertised(peer, {id});
      }
    }

    method DrainUpTo(maxBytes: nat) returns (result: seq<MempoolTx>)
      requires Indexed()
      modifies this
      ensures (s, result) == M.DrainUpTo(old(s), maxBytes)
    {
      result := TakeUpTo(maxBytes);
      PrefixRemoved(old(s), |result|);
      PruneAllFromPeerSets(IdList(result));
    }

    method TakeUpTo(maxBytes: nat) returns (result: seq<MempoolTx>)
      requires Indexed()
      modifies this
      ensures Indexed() && result == old(s.txs)[..Fill(old(s.txs), maxBytes)]
      ensures s == old(s).(txs := old(s.txs)[|result|..], txIndex := s.txIndex, totalBytes := s.totalBytes)
    {
      ghost var queue := s.txs;
      result := [];
      var bytes := 0;
      while s.txs != []
        invariant Indexed()
        invariant |result| <= |queue| && result == queue[..|result|] && bytes == SizeOf(result)
        invariant s == old(s).(txs := queue[|result|..], txIndex := s.txIndex, totalBytes := s.totalBytes)
        invariant StillFilling(queue, maxBytes, |result|)
        decreases |s.txs|
      {
        FillStep(queue, maxBytes, |result|);
        var nextBytes := bytes + s.txs[0].Size();
        if nextBytes > maxBytes && result != [] {
          return;
        }
        var t := PopFront();
        bytes := nextBytes;
        result := result + [t];
        if bytes >= maxBytes {
          return;
        }
      }
      FillsIsUnique(queue, maxBytes, Fill(queue, maxBytes), |result|);
    }

    method DrainAll() returns (drained: seq<MempoolTx>)
      requires Indexed()
      modifies this
      ensures drained == old(s.txs) && s == M.Without(old(s), Ids(drained))
    {
      PrefixRemoved(s, |s.txs|);
      s := s.(totalBytes := 0);
      drained := s.txs;
      assert drained[..|drained|] == drained && drained[|drained|..] == [];
      s := s.(txs := []);
      s := s.(txIndex := {});
      PruneAllFromPeerSets(IdList(drained));
    }

    method PruneEbSlotWindow() returns (fx: seq<M.Effect>)
      modifies this
      ensures (s, fx) == M.PruneWindow(old(s))
    {
      var cutoff := SaturatingSub(s.maxEbSlot, s.retentionSlots);
      if cutoff == 0 {
        return [];
      }
      s := s.(manifests := M.RetainManifests(s.manifests, cutoff, s.protectedEb));
      fx := ReleaseUnreferenced(M.Referenced(s.manifests));
    }

    /** Drop each pinned body that no manifest references, reporting it as it goes. */
    method ReleaseUnreferenced(stillReferenced: set<TxId>) returns (fx: seq<M.Effect>)
      modifies this
      ensures var dropped := old(s.pinned).Keys - stillReferenced;
              s == old(s).(pinned := old(s.pinned) - dropped) && fx == M.Reports(dropped)
    {
      ghost var dropped := s.pinned.Keys - stillReferenced;
      var ids := Ascending(s.pinned.Keys);
      ghost var released: seq<TxId> := [];
      NoneReleased(s.pinned);
      fx := [];
      var i := 0;
      while i < |ids|
        invariant 0 <= i <= |ids|
        invariant released == Where(ids[..i], dropped)
        invariant s == old(s).(pinned := Released(old(s.pinned), released))
        invariant fx == ReportAll(released)
      {
        WhereNext(ids, dropped, i);
        if ids[i] !in stillReferenced {
          ReleaseMore(old(s.pinned), released, ids[i]);
          fx := fx + [M.TxRejected(ids[i], M.EbClosurePruned)];
          s := s.(pinned := s.pinned - {ids[i]});
          released := released + [ids[i]];
        }
        i := i + 1;
      }
      assert ids[..i] == ids;
      WhereIsAscending(ids, dropped);
      AllReleased(old(s.pinned), dropped);
    }

    method BumpEbSlot(slot: nat) returns (fx: seq<M.Effect>)
      modifies this
      ensures (s, fx) == M.BumpEbSlot(old(s), slot)
    {
      s := s.(maxEbSlot := Max(s.maxEbSlot, slot));
      fx := PruneEbSlotWindow();
    }

    method ProduceEb(key: EbKey, count: nat) returns (manifest: seq<TxId>, fx: seq<M.Effect>)
      requires Indexed()
      modifies this
      ensures (s, manifest, fx) == M.ProduceEb(old(s), key, count)
    {
      var drained := TakeCount(count);
      PrefixRemoved(old(s), |drained|);
      manifest := IdList(drained);
      PruneAllFromPeerSets(manifest);
      PinDrained(drained);
      s := s.(manifests := s.manifests[key := manifest]);
      fx := BumpEbSlot(key.slot);
    }

    method TakeCount(count: nat) returns (drained: seq<MempoolTx>)
      requires Indexed()
      modifies this
      ensures Indexed() && drained == old(s.txs)[..Min(count, |old(s.txs)|)] && DistinctIds(drained)
      ensures s == old(s).(txs := old(s.txs)[|drained|..], txIndex := s.txIndex, totalBytes := s.totalBytes)
    {
      ghost var queue := s.txs;
      var take := Min(count, |s.txs|);
      drained := [];
      for i := 0 to take
        invariant Indexed()
        invariant drained == queue[..i]
        invariant s == old(s).(txs := queue[i..], txIndex := s.txIndex, totalBytes := s.totalBytes)
      {
        var t := PopFront();
        drained := drained + [t];
      }
    }

    method PinDrained(drained: seq<MempoolTx>)
      requires DistinctIds(drained)
      modifies this
      ensures s == old(s).(pinned := M.PinFrom(old(s.pinned), drained, Ids(drained)))
    {
      hide M.PinFrom;
      PinNone(s.pinned, drained);
      var i := 0;
      while i < |drained|
        invariant 0 <= i <= |drained|
        invariant s == old(s).(pinned := M.PinFrom(old(s.pinned), drained, Ids(drained[..i])))
      {
        FindDistinct(drained, i);
        PinMore(old(s.pinned), drained, Ids(drained[..i]), drained[i].Id());
        IdsSnoc(drained, i);
        if drained[i].Id() !in s.pinned {
          s := s.(pinned := s.pinned[drained[i].Id() := drained[i]]);
        }
        i := i + 1;
      }
      assert drained[..i] == drained;
    }

    method PinEbTransactions(manifest: seq<TxId>)
      modifies this
      ensures s == M.PinEb(old(s), manifest)
    {
      hide M.PinFrom;
      PinNone(s.pinned, s.txs);
      var i := 0;
      while i < |manifest|
        invariant 0 <= i <= |manifest|
        invariant s == old(s).(pinned := M.PinFrom(old(s.pinned), old(s.txs), Elements(manifest[..i])))
      {
        PinMore(old(s.pinned), s.txs, Elements(manifest[..i]), manifest[i]);
        assert Elements(manifest[..i + 1]) == Elements(manifest[..i]) + {manifest[i]};
        var found := Find(s.txs, manifest[i]);
        if found.Some? && manifest[i] !in s.pinned {
          s := s.(pinned := s.pinned[manifest[i] := found.value]);
        }
        i := i + 1;
      }
      assert manifest[..i] == manifest;
    }

    method ProduceSelectedEb(key: EbKey, manifest: seq<TxId>) returns (fx: seq<M.Effect>)
      requires Indexed()
      modifies this
      ensures (s, fx) == M.ProduceSelectedEb(old(s), key, manifest)
    {
      PinEbTransactions(manifest);
      var selected := Elements(manifest);
      s := s.(txs := Keep(s.txs, selected));
      assert Ids(s.txs) == Ids(old(s.txs)) - selected;
      s := s.(txIndex := s.txIndex - selected);
      PruneAllFromPeerSets(manifest);
      s := s.(totalBytes := SizeOf(s.txs));
      fx := RecordEbManifest(key, manifest);
    }

    method ProtectChainTipEb(key: Option<EbKey>) returns (fx: seq<M.Effect>)
      modifies this
      ensures (s, fx) == M.PruneWindow(old(s).(protectedEb := key))
    {
      s := s.(protectedEb := key);
      fx := PruneEbSlotWindow();
    }

    method RecordEbManifest(key: EbKey, manifest: seq<TxId>) returns (fx: seq<M.Effect>)
      modifies this
      ensures (s, fx) == M.RecordManifest(old(s), key, manifest)
    {
      if key !in s.manifests {
        s := s.(manifests := s.manifests[key := manifest]);
      }
      fx := BumpEbSlot(key.slot);
    }

    method MergeEbBody(tx: TxInfo, ours: bool, slot: nat)
      modifies this
      ensures s == M.MergeEbBody(old(s), tx, ours, slot)
    {
      if tx.id in s.txIndex || tx.id in s.pinned {
        return;
      }
      s := s.(pinned := s.pinned[tx.id := MempoolTx(tx, ours, slot)]);
    }

    method ApplyControl(policy: M.WithholdingPolicy)
      modifies this
      ensures s == old(s).(policy := policy)
    {
      s := s.(policy := policy);
    }

    /** Any operation, on a pool that satisfies the invariants, takes the model's step, returns
        its effects and keeps the invariants. */
    method Perform(op: M.Op) returns (fx: seq<M.Effect>)
      requires Valid()
      modifies this
      ensures Valid() && (s, fx) == M.Apply(old(s), op)
    {
      M.StepKeepsInv(s, op);
      QueueFacts(s);
      fx := [];
      match op
      case AdmitValidated(id, body, size, slot, ours) => fx := AdmitValidated(id, body, size, slot, ours);
      case OnBlockApplied(ids) => OnBlockApplied(ids);
      case OnBlockRolledBack =>
      case Forget(peer) => ForgetPeer(peer);
      case PeekUnannounced(peer, maxCount, slot) =>
        R.OwedIsQueued(s, peer);
        var _ := PeekUnannouncedForPeer(peer, maxCount, slot);
      case MarkAnnounced(peer, id, slot) => var _ := MarkAnnouncedToPeer(peer, id, slot);
      case Drain(maxBytes) => var _ := DrainUpTo(maxBytes);
      case DrainAll => var _ := DrainAll();
      case Produce(key, count) => var _, effects := ProduceEb(key, count); fx := effects;
      case ProduceSelected(key, manifest) => fx := ProduceSelectedEb(key, manifest);
      case Protect(key) => fx := ProtectChainTipEb(key);
      case Record(key, manifest) => fx := RecordEbManifest(key, manifest);
      case Pin(manifest) => PinEbTransactions(manifest);
      case Merge(tx, ours, slot) => MergeEbBody(tx, ours, slot);
      case ApplyControl(policy) => ApplyControl(policy);
    }
  }

  // ---------------------------------------------------------------------------
  // Facts the loops use
  // ---------------------------------------------------------------------------

  lemma PruneNone(m: map<PeerId, set<TxId>>)
    ensures M.PrunePeers(m, {}) == m
    ensures forall none: seq<TxId> :: none == [] ==> M.PrunePeers(m, Elements(none)) == m
  {
    var pruned := M.PrunePeers(m, {});
    assert forall q :: q in m ==> pruned[q] == m[q];
    assert forall none: seq<TxId> :: none == [] ==> Elements(none) == {};
  }

  lemma PruneMore(m: map<PeerId, set<TxId>>, a: set<TxId>, b: set<TxId>)
    ensures M.PrunePeers(M.PrunePeers(m, a), b) == M.PrunePeers(m, a + b)
  {
    var twice, once := M.PrunePeers(M.PrunePeers(m, a), b), M.PrunePeers(m, a + b);
    assert forall q :: q in m ==> twice[q] == once[q];
  }

  lemma IndexTail(txs: seq<MempoolTx>)
    requires txs != [] && DistinctIds(txs)
    ensures DistinctIds(txs[1..])
    ensures Ids(txs[1..]) == Ids(txs) - {txs[0].Id()}
    ensures SizeOf(txs[1..]) == SizeOf(txs) - txs[0].Size()
  {
    assert txs == [txs[0]] + txs[1..];
    IdsConcat([txs[0]], txs[1..]);
    assert Ids([txs[0]]) == {txs[0].Id()};
  }

  lemma PrefixRemoved(p: M.Pool, k: nat)
    requires k <= |p.txs| && DistinctIds(p.txs)
    ensures var gone := Ids(p.txs[..k]);
            M.Without(p, gone) ==
            p.(txs := p.txs[k..], txIndex := Ids(p.txs[k..]), totalBytes := SizeOf(p.txs[k..]),
               advertised := M.PrunePeers(p.advertised, gone), unannounced := M.PrunePeers(p.unannounced, gone))
  {
    KeepDropsPrefix(p.txs, k);
  }

  lemma FrontRemoved(p: M.Pool)
    requires p.txs != [] && DistinctIds(p.txs)
    ensures var gone := {p.txs[0].Id()};
            M.Without(p, gone) ==
            p.(txs := p.txs[1..], txIndex := Ids(p.txs[1..]), totalBytes := SizeOf(p.txs[1..]),
               advertised := M.PrunePeers(p.advertised, gone), unannounced := M.PrunePeers(p.unannounced, gone))
  {
    assert Ids(p.txs[..1]) == {p.txs[0].Id()};
    PrefixRemoved(p, 1);
  }

  lemma QueueFacts(p: M.Pool)
    requires M.Inv(p)
    ensures DistinctIds(p.txs) && p.txIndex == Ids(p.txs) && p.totalBytes == SizeOf(p.txs)
  {
  }

  lemma ReplayFacts(p: M.Pool)
    requires M.Inv(p)
    ensures p.applied == Elements(p.appliedOrder) && Distinct(p.appliedOrder)
    ensures |p.appliedOrder| <= M.REPLAY_WINDOW
  {
  }

  lemma AppendFresh(order: seq<TxId>, id: TxId)
    requires Distinct(order) && id !in order
    ensures Distinct(order + [id]) && Distinct((order + [id])[1..])
    ensures Elements(order + [id]) == Elements(order) + {id}
    ensures Elements((order + [id])[1..]) == Elements(order + [id]) - {(order + [id])[0]}
  {
    var s := order + [id];
    assert s == [s[0]] + s[1..];
  }

  lemma NothingRemoved(p: M.Pool, gone: set<TxId>)
    requires M.Inv(p) && |Keep(p.txs, gone)| == |p.txs|
    ensures M.Without(p, gone) == p
  {
    FullSelect(p.txs, Ids(p.txs) - gone);
    assert p.txIndex !! gone;
    forall q | q in p.unannounced
      ensures p.unannounced[q] - gone == p.unannounced[q]
      ensures M.AdvertisedTo(p, q) - gone == M.AdvertisedTo(p, q)
    {
      assert p.unannounced[q] + M.AdvertisedTo(p, q) == p.txIndex;
    }
    assert M.PrunePeers(p.unannounced, gone) == p.unannounced;
    assert M.PrunePeers(p.advertised, gone) == p.advertised by {
      assert forall q :: q in p.advertised ==> p.advertised[q] == M.AdvertisedTo(p, q);
    }
  }

  lemma {:induction false} FullSelect(txs: seq<MempoolTx>, wanted: set<TxId>)
    requires |Select(txs, wanted)| == |txs|
    ensures Select(txs, wanted) == txs && Ids(txs) <= wanted
  {
    hide Ids;
    if txs == [] {
      IdsOfNone();
    } else {
      assert txs == [txs[0]] + txs[1..];
      FullSelect(txs[1..], wanted);
      IdsOfHead(txs);
    }
  }

  lemma IdsOfNone()
    ensures Ids([]) == {}
  {
  }

  lemma IdsOfHead(txs: seq<MempoolTx>)
    requires txs != []
    ensures Ids(txs) == {txs[0].Id()} + Ids(txs[1..])
  {
    assert txs == [txs[0]] + txs[1..];
    IdsConcat([txs[0]], txs[1..]);
    assert Ids([txs[0]]) == {txs[0].Id()};
  }

  lemma {:induction false} WherePrefix(s: seq<TxId>, i: nat, ok: set<TxId>)
    requires i <= |s|
    ensures Where(s[..i], ok) <= Where(s, ok)
    decreases |s| - i
  {
    if i < |s| {
      WhereNext(s, ok, i);
      WherePrefix(s, i + 1, ok);
    } else {
      assert s[..i] == s;
    }
  }

  /** Filtering until enough are found finds the least of them. */
  lemma WhereIsFirst(s: seq<TxId>, i: nat, ok: set<TxId>, maxCount: nat)
    requires StrictlyAscending(s) && ok <= Elements(s) && i <= |s|
    requires |Where(s[..i], ok)| <= maxCount
    requires i == |s| || |Where(s[..i], ok)| == maxCount
    ensures Where(s[..i], ok) == M.FirstIds(ok, maxCount)
  {
    hide Where, Ascending;
    assert forall x :: x in ok ==> x in Elements(s);
    WhereIsAscending(s, ok);
    WherePrefix(s, i, ok);
    if i == |s| {
      assert s[..i] == s;
    }
  }

  lemma SelectSnoc(txs: seq<MempoolTx>, i: nat, wanted: set<TxId>)
    requires i < |txs|
    ensures Select(txs[..i + 1], wanted) == Select(txs[..i], wanted) + if txs[i].Id() in wanted then [txs[i]] else []
  {
    assert txs[..i + 1] == txs[..i] + [txs[i]];
    SelectConcat(txs[..i], [txs[i]], wanted);
  }

  lemma RestIsUnwanted(txs: seq<MempoolTx>, i: nat, wanted: set<TxId>)
    requires i <= |txs| && |Select(txs[..i], wanted)| == |Select(txs, wanted)|
    ensures Select(txs[..i], wanted) == Select(txs, wanted)
  {
    assert txs == txs[..i] + txs[i..];
    SelectConcat(txs[..i], txs[i..], wanted);
  }

  lemma {:induction false} FindDistinct(txs: seq<MempoolTx>, k: nat)
    requires DistinctIds(txs) && k < |txs|
    ensures Find(txs, txs[k].Id()) == Some(txs[k])
  {
    if k > 0 {
      assert txs[1..][k - 1] == txs[k];
      FindDistinct(txs[1..], k - 1);
    }
  }

  lemma IdsSnoc(txs: seq<MempoolTx>, i: nat)
    requires i < |txs|
    ensures Ids(txs[..i + 1]) == Ids(txs[..i]) + {txs[i].Id()}
  {
    assert txs[..i + 1] == txs[..i] + [txs[i]];
    IdsConcat(txs[..i], [txs[i]]);
    assert Ids([txs[i]]) == {txs[i].Id()};
  }

  lemma PinNone(pinned: map<TxId, MempoolTx>, txs: seq<MempoolTx>)
    ensures M.PinFrom(pinned, txs, {}) == pinned
    ensures Ids(txs[..0]) == {}
    ensures forall none: seq<TxId> :: none == [] ==> Elements(none) == {}
  {
    assert pinned.Keys + Ids(txs) * {} == pinned.Keys;
  }

  lemma PinMore(pinned: map<TxId, MempoolTx>, txs: seq<MempoolTx>, wanted: set<TxId>, id: TxId)
    ensures var less := M.PinFrom(pinned, txs, wanted);
            M.PinFrom(pinned, txs, wanted + {id})
            == if id in Ids(txs) && id !in less then less[id := Find(txs, id).value] else less
  {
    var less, more := M.PinFrom(pinned, txs, wanted), M.PinFrom(pinned, txs, wanted + {id});
    var expected := if id in Ids(txs) && id !in less then less[id := Find(txs, id).value] else less;
    assert more.Keys == expected.Keys;
    assert forall x :: x in more ==> more[x] == expected[x];
  }

  /** One report per id, in order. */
  function ReportAll(ids: seq<TxId>): seq<M.Effect> {
    seq(|ids|, i requires 0 <= i < |ids| => M.TxRejected(ids[i], M.EbClosurePruned))
  }

  function Released(m: map<TxId, MempoolTx>, gone: seq<TxId>): map<TxId, MempoolTx> {
    map id | id in m && id !in gone :: m[id]
  }

  lemma NoneReleased(m: map<TxId, MempoolTx>)
    ensures Released(m, []) == m
  {
  }

  lemma ReleaseMore(m: map<TxId, MempoolTx>, gone: seq<TxId>, id: TxId)
    ensures Released(m, gone) - {id} == Released(m, gone + [id])
    ensures ReportAll(gone + [id]) == ReportAll(gone) + [M.TxRejected(id, M.EbClosurePruned)]
  {
    assert forall x :: x in gone + [id] <==> x in gone || x == id;
  }

  lemma AllReleased(m: map<TxId, MempoolTx>, dropped: set<TxId>)
    ensures Released(m, Ascending(dropped)) == m - dropped
    ensures ReportAll(Ascending(dropped)) == M.Reports(dropped)
  {
  }
}
