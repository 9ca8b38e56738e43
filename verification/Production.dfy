/** How a produced ranking block splits the mempool between its inline body and a fresh EB. */
module Production {
  import opened Types
  import opened Queue
  import M = MempoolModel
  import R = EbRetention
  import opened Mempool

  datatype BodyPath = BodyPath(inline: seq<MempoolTx>, manifest: seq<TxId>)

  const EMPTY_BODY := BodyPath([], [])

  /** The txs the overflow rule looks at: exclusions apply only under a certificate. */
  function Selectable(txs: seq<MempoolTx>, certified: bool, excluded: set<TxId>): seq<MempoolTx> {
    if certified then Keep(txs, excluded) else txs
  }

  function Decide(p: M.Pool, rbMax: nat, ebMax: nat, gated: bool, certified: bool, excluded: set<TxId>)
    : (M.Pool, BodyPath)
  {
    if gated then (p, EMPTY_BODY)
    else if SizeOf(Selectable(p.txs, certified, excluded)) > rbMax then
      var (q, inline) := if certified || rbMax == 0 then (p, []) else M.DrainUpTo(p, rbMax);
      var rest := Selectable(q.txs, certified, excluded);
      (q, BodyPath(inline, IdList(rest[..Fill(rest, ebMax)])))
    else if certified then (p, EMPTY_BODY)
    else
      var (q, inline) := M.DrainUpTo(p, rbMax);
      (q, BodyPath(inline, []))
  }

  /** `gated`: the node holds a certificate for an EB body it has not validated. */
  method DecideExcluding(mempool: MempoolState, rbMax: nat, ebMax: nat, gated: bool, certified: bool,
                         excluded: set<TxId>)
    returns (path: BodyPath)
    requires mempool.Indexed()
    modifies mempool
    ensures (mempool.s, path) == Decide(old(mempool.s), rbMax, ebMax, gated, certified, excluded)
  {
    if gated {
      return EMPTY_BODY;
    }
    if SizeOf(Selectable(mempool.s.txs, certified, excluded)) > rbMax {
      var inline := [];
      if !certified && rbMax != 0 {
        inline := mempool.DrainUpTo(rbMax);
      }
      var manifest := CollectManifest(Selectable(mempool.s.txs, certified, excluded), ebMax);
      return BodyPath(inline, manifest);
    }
    if certified {
      return EMPTY_BODY;
    }
    var inline := mempool.DrainUpTo(rbMax);
    return BodyPath(inline, []);
  }

  method CollectManifest(txs: seq<MempoolTx>, ebMax: nat) returns (manifest: seq<TxId>)
    ensures manifest == IdList(txs[..Fill(txs, ebMax)])
  {
    manifest := [];
    var bytes := 0;
    var k := 0;
    while k < |txs|
      invariant 0 <= k <= |txs| && manifest == IdList(txs[..k]) && bytes == SizeOf(txs[..k])
      invariant StillFilling(txs, ebMax, k)
    {
      FillStep(txs, ebMax, k);
      var next := bytes + txs[k].Size();
      if next > ebMax && manifest != [] {
        return;
      }
      manifest := manifest + [txs[k].Id()];
      bytes := next;
      k := k + 1;
      if bytes >= ebMax {
        return;
      }
    }
    assert txs[..k] == txs;
    FillsIsUnique(txs, ebMax, Fill(txs, ebMax), k);
  }

  // ---------------------------------------------------------------------------
  // What selection conserves
  // ---------------------------------------------------------------------------

  ghost predicate WithinCap(txs: seq<MempoolTx>, cap: nat) {
    SizeOf(txs) <= cap || |txs| == 1
  }

  /** The capped front of a queue, as a manifest. */
  lemma FillManifest(txs: seq<MempoolTx>, cap: nat)
    ensures var manifest := IdList(txs[..Fill(txs, cap)]);
            && |manifest| == Fill(txs, cap) <= |txs|
            && WithinCap(txs[..|manifest|], cap)
            && Elements(manifest) <= Ids(txs)
            && (manifest == [] <==> txs == [])
  {
    var k := Fill(txs, cap);
    assert txs == txs[..k] + txs[k..];
    IdsConcat(txs[..k], txs[k..]);
  }

  lemma DrainConserves(p: M.Pool, cap: nat)
    requires DistinctIds(p.txs)
    ensures var (q, taken) := M.DrainUpTo(p, cap);
            && taken + q.txs == p.txs && WithinCap(taken, cap)
            && DistinctIds(q.txs)
  {
    hide SizeOf, Keep, M.PrunePeers, Fill, Ids;
    KeepDropsPrefix(p.txs, Fill(p.txs, cap));
    FillManifest(p.txs, cap);
  }

  lemma ProduceTakesPrefix(q: M.Pool, key: EbKey, count: nat)
    requires DistinctIds(q.txs) && count <= |q.txs|
    ensures var (r, manifest, _) := M.ProduceEb(q, key, count);
            manifest == IdList(q.txs[..count]) && r.txs == q.txs[count..]
  {
    KeepDropsPrefix(q.txs, count);
    var drained := q.txs[..count];
    M.BumpSameCore(M.Without(q, Ids(drained)).(
      pinned := M.PinFrom(q.pinned, drained, Ids(drained)), manifests := q.manifests[key := IdList(drained)]), key.slot);
  }

  /** Without a certificate the inline body is the front of the queue and the rest stays, and each
      part keeps its cap unless it is a single oversize tx. */
  lemma UncertifiedConserves(p: M.Pool, rbMax: nat, ebMax: nat, gated: bool, excluded: set<TxId>)
    requires DistinctIds(p.txs)
    ensures var (q, path) := Decide(p, rbMax, ebMax, gated, false, excluded);
            && path.inline + q.txs == p.txs
            && (gated ==> q == p && path == EMPTY_BODY)
            && WithinCap(path.inline, rbMax)
            && |path.manifest| <= |q.txs|
            && path.manifest == IdList(q.txs[..|path.manifest|])
            && WithinCap(q.txs[..|path.manifest|], ebMax)
            && DistinctIds(q.txs)
  {
    hide M.DrainUpTo, Ids;
    var (q, path) := Decide(p, rbMax, ebMax, gated, false, excluded);
    DrainConserves(p, rbMax);
    assert path.inline == [] ==> path.inline + q.txs == q.txs;
    if path.manifest == [] {
      assert q.txs[..0] == [] && IdList(q.txs[..0]) == [];
    } else {
      FillManifest(q.txs, ebMax);
    }
  }

  /** Draining the manifest's length into an EB yields exactly the announced manifest, and under a
      retained key leaves every manifest body resolvable, unchanged. */
  lemma UncertifiedCommit(p: M.Pool, rbMax: nat, ebMax: nat, gated: bool, excluded: set<TxId>, key: EbKey)
    requires DistinctIds(p.txs)
    ensures var (q, path) := Decide(p, rbMax, ebMax, gated, false, excluded);
            var (r, manifest, _) := M.ProduceEb(q, key, |path.manifest|);
            && manifest == path.manifest && r.txs == q.txs[|manifest|..]
            && (M.Retained(q.(maxEbSlot := Max(q.maxEbSlot, key.slot)), key) ==>
                forall id :: id in manifest ==> M.GetBody(q, id).Some? && M.GetBody(r, id) == M.GetBody(q, id))
  {
    hide Decide, M.ProduceEb, M.GetBody, M.Retained;
    UncertifiedConserves(p, rbMax, ebMax, gated, excluded);
    var (q, path) := Decide(p, rbMax, ebMax, gated, false, excluded);
    ProduceTakesPrefix(q, key, |path.manifest|);
    if M.Retained(q.(maxEbSlot := Max(q.maxEbSlot, key.slot)), key) {
      forall id | id in path.manifest
        ensures M.GetBody(q, id).Some? && M.GetBody(M.ProduceEb(q, key, |path.manifest|).0, id) == M.GetBody(q, id)
      {
        ProducedBodyResolves(q, key, |path.manifest|, id);
      }
    }
  }

  lemma ProducedBodyResolves(q: M.Pool, key: EbKey, count: nat, id: TxId)
    requires DistinctIds(q.txs) && count <= |q.txs| && id in IdList(q.txs[..count])
    requires M.Retained(q.(maxEbSlot := Max(q.maxEbSlot, key.slot)), key)
    ensures M.GetBody(q, id).Some? && M.GetBody(M.ProduceEb(q, key, count).0, id) == M.GetBody(q, id)
  {
    hide M.PruneWindow, M.Without, M.PinFrom, M.Retained, M.ProduceEb, R.BeforePrune;
    var op := M.Produce(key, count);
    R.StepIsPrune(q, op);
    BeforeProduce(q, key, count);
    DrainedRecord(q, count, id);
    PruneKeepsManifest(R.BeforePrune(q, op), key);
  }

  lemma BeforeProduce(q: M.Pool, key: EbKey, count: nat)
    requires count <= |q.txs|
    ensures var r, drained := R.BeforePrune(q, M.Produce(key, count)), q.txs[..count];
            && r.pinned == M.PinFrom(q.pinned, drained, Ids(drained)) && key in r.manifests
            && r.manifests[key] == IdList(drained)
            && (M.Retained(q.(maxEbSlot := Max(q.maxEbSlot, key.slot)), key) ==> M.Retained(r, key))
  {
    hide M.PinFrom, Keep, Ids;
  }

  lemma DrainedRecord(q: M.Pool, count: nat, id: TxId)
    requires DistinctIds(q.txs) && count <= |q.txs| && id in IdList(q.txs[..count])
    ensures var pinned := M.PinFrom(q.pinned, q.txs[..count], Ids(q.txs[..count]));
            id in pinned && M.GetRecord(q, id) == Some(pinned[id])
  {
    hide Find, DistinctIds;
    var drained := q.txs[..count];
    var k :| 0 <= k < count && drained[k].Id() == id;
    PrefixIsDistinct(q.txs, count);
    FindDistinct(drained, k);
    FindDistinct(q.txs, k);
    assert id in Ids(drained);
  }

  lemma PrefixIsDistinct(txs: seq<MempoolTx>, count: nat)
    requires DistinctIds(txs) && count <= |txs|
    ensures DistinctIds(txs[..count])
  {
  }

  /** Under a certificate nothing is drained and the manifest is the capped front of the
      non-excluded queue. */
  lemma CertifiedSelects(p: M.Pool, rbMax: nat, ebMax: nat, excluded: set<TxId>)
    ensures var (q, path) := Decide(p, rbMax, ebMax, false, true, excluded);
            var open := Keep(p.txs, excluded);
            && q == p && path.inline == []
            && (path.manifest == [] <==> SizeOf(open) <= rbMax)
            && |path.manifest| <= |open|
            && path.manifest == IdList(open[..|path.manifest|])
            && WithinCap(open[..|path.manifest|], ebMax)
            && Elements(path.manifest) <= Ids(p.txs) - excluded
  {
    var open := Keep(p.txs, excluded);
    FillManifest(open, ebMax);
    assert Ids(open) == Ids(p.txs) - excluded;
    assert open[..0] == [] && IdList(open[..0]) == [];
  }

  /** Committing a selected manifest under a fresh, retained key removes exactly the manifest and
      keeps the rest in order. */
  lemma SelectedCommit(p: M.Pool, key: EbKey, manifest: seq<TxId>)
    requires key !in p.manifests && M.Retained(p.(maxEbSlot := Max(p.maxEbSlot, key.slot)), key)
    ensures var r := M.ProduceSelectedEb(p, key, manifest).0;
            && r.txs == Keep(p.txs, Elements(manifest))
            && key in r.manifests && r.manifests[key] == manifest
  {
    hide M.PruneWindow, M.ProduceSelectedEb, M.PinEb, M.Retained, R.BeforePrune;
    var op := M.ProduceSelected(key, manifest);
    SelectedIsPrune(p, key, manifest);
    BeforeSelected(p, key, manifest);
    M.PruneSameCore(R.BeforePrune(p, op));
    PruneKeepsManifest(R.BeforePrune(p, op), key);
  }

  /** ... and leaves every manifest body resolvable, unchanged. */
  lemma SelectedBodiesResolve(p: M.Pool, key: EbKey, manifest: seq<TxId>, id: TxId)
    requires Elements(manifest) <= Ids(p.txs) && id in manifest
    requires key !in p.manifests && M.Retained(p.(maxEbSlot := Max(p.maxEbSlot, key.slot)), key)
    ensures M.GetBody(p, id).Some?
    ensures M.GetBody(M.ProduceSelectedEb(p, key, manifest).0, id) == M.GetBody(p, id)
  {
    hide M.PruneWindow, M.ProduceSelectedEb, M.Without, M.PinFrom, M.PinEb, M.Retained, R.BeforePrune, Find;
    var op := M.ProduceSelected(key, manifest);
    var r := R.BeforePrune(p, op);
    PinsRecord(p, manifest, id);
    SelectedIsPrune(p, key, manifest);
    BeforeSelected(p, key, manifest);
    PruneKeepsManifest(r, key);
    assert M.GetRecord(M.PruneWindow(r).0, id) == Some(r.pinned[id]);
  }

  lemma PinsRecord(p: M.Pool, manifest: seq<TxId>, id: TxId)
    requires Elements(manifest) <= Ids(p.txs) && id in manifest
    ensures var pinned := M.PinEb(p, manifest).pinned;
            id in pinned && M.GetRecord(p, id) == Some(pinned[id])
  {
    assert id in Elements(manifest);
  }

  lemma SelectedIsPrune(p: M.Pool, key: EbKey, manifest: seq<TxId>)
    ensures M.ProduceSelectedEb(p, key, manifest) == M.PruneWindow(R.BeforePrune(p, M.ProduceSelected(key, manifest)))
  {
    hide M.PruneWindow, M.ProduceSelectedEb, R.BeforePrune;
    R.StepIsPrune(p, M.ProduceSelected(key, manifest));
  }

  lemma BeforeSelected(p: M.Pool, key: EbKey, manifest: seq<TxId>)
    requires key !in p.manifests
    ensures var r := R.BeforePrune(p, M.ProduceSelected(key, manifest));
            && r.txs == Keep(p.txs, Elements(manifest))
            && r.pinned == M.PinEb(p, manifest).pinned && r.manifests == p.manifests[key := manifest]
            && (M.Retained(p.(maxEbSlot := Max(p.maxEbSlot, key.slot)), key) ==> M.Retained(r, key))
  {
    hide M.PinFrom, Keep, Ids;
  }

  lemma PruneKeepsManifest(p: M.Pool, key: EbKey)
    requires key in p.manifests && M.Retained(p, key)
    ensures var r := M.PruneWindow(p).0;
            && key in r.manifests && r.manifests[key] == p.manifests[key]
            && forall id :: id in p.manifests[key] && id in p.pinned ==> id in r.pinned && r.pinned[id] == p.pinned[id]
  {
    hide M.PruneWindow, M.Retained;
    var manifest := p.manifests[key];
    R.PruneKeepsRetained(p, key, manifest, map id | id in p.pinned && id in manifest :: p.pinned[id]);
  }
}
