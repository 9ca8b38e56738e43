/** Manifests that repeat a hash: what no response ever settles. */
module EbTxRepeats {
  import opened Types
  import opened Ordered
  import opened Bitmap
  import opened FetchModel
  import opened EbTxMatch
  import M = MempoolModel

  lemma {:induction false} RepeatIsNeverMatched(manifest: seq<TxId>, ops: seq<Op>, hash: Hash, i: nat)
    requires i < |manifest| && !IsLast(manifest, i)
    ensures i !in AllMatched(manifest, ops, hash)
  {
    hide IsLast, MatchedBodies, ManifestIndex;
    if ops != [] {
      if ops[0].MatchTxs? {
        MatchedIff(manifest, ops[0].bodies, i);
      }
      RepeatIsNeverMatched(manifest, ops[1..], hash, i);
    }
  }

  /** A requested position whose hash comes again stays requested, in any run and whatever the
      responses hold, until the manifest or the request is replaced or pruned. */
  lemma RepeatStaysRequested(f: Fetch, ops: seq<Op>, hash: Hash, i: nat)
    requires hash in f.ebTxHashes && forall op :: op in ops ==> !Replaces(op, hash)
    requires i in Outstanding(f, hash) && i < |f.ebTxHashes[hash].1| && !IsLast(f.ebTxHashes[hash].1, i)
    ensures i in Outstanding(Run(f, ops), hash)
  {
    PartialResponses(f, ops, hash);
    RepeatIsNeverMatched(f.ebTxHashes[hash].1, ops, hash, i);
  }

  // ---------------------------------------------------------------------------
  // An exchange that settles less than it serves
  // ---------------------------------------------------------------------------

  const EB := Specific(1, 50)

  const TWICE: seq<TxId> := [7, 7]

  /** The manifest arrives, and a peer offers its txs while both are missing. */
  function Requesting(): seq<Op> {
    [EbReceived(None, EB, Some(TWICE)), EbTxsOffered(EB, 3, Packed([0, 1]), 0, peers => peers)]
  }

  /** The state of a node that has asked for both positions. */
  ghost function Asked(): Fetch {
    Run(EmptyFetch(1), Requesting())
  }

  lemma AskedForBoth()
    ensures 50 in Asked().ebTxHashes && Asked().ebTxHashes[50] == (1, TWICE)
    ensures 50 in Asked().pendingBitmaps && Asked().pendingBitmaps[50] == (1, Packed([0, 1]))
  {
    hide Packed, Ascending;
    var ops := Requesting();
    assert ops[1..][1..] == [] && ops[1..][0] == ops[1];
    var f := Step(EmptyFetch(1), ops[0]);
    assert Asked() == Run(Step(f, ops[1]), []);
    BothPositionsPack();
    assert Ascending({3}) == [3] by { AscendingIsUnique(Ascending({3}), [3]); }
    var e := EvictStale(f, 0).(tracker := f.tracker.(ebTxsOffers := map[EB := {3}]));
    assert EbTxsCandidates(e.tracker, EB) == {3};
  }

  lemma BothPositionsPack()
    ensures Indices(Packed([0, 1])) == {0, 1} && Packed([0, 1]) != map[]
  {
    hide Packed, Indices;
    RoundTripIffFits([0, 1]);
    EmptyIffNothingSelected([0, 1]);
    assert Elements([0, 1]) == {0, 1};
  }

  lemma BothAreMissing()
    ensures M.MissingIn(M.EmptyPool(0, 0), TWICE) == [0, 1]
  {
    hide M.MissingIn;
    AscendingIsUnique(M.MissingIn(M.EmptyPool(0, 0), TWICE), [0, 1]);
  }

  lemma OnlyTheSecondIsLast(body: TxBody)
    ensures !IsLast(TWICE, 0)
    ensures var held := [Some(body), Some(body)];
            && Elements(Servable(held, [0, 1])) == {0, 1}
            && Elements([0, 1]) - Elements(Servable(held, Lasts(TWICE, [0, 1]))) == {0}
  {
    hide Servable, Lasts;
    assert TWICE[1..] == [7] && TWICE[2..] == [];
  }

  /** A responder that holds and serves both positions settles one: the other stays requested, in
      this response and in any run after it that leaves manifest and request alone. */
  lemma ServedButNotSettled(body: TxBody, ops: seq<Op>)
    requires forall op :: op in ops ==> !Replaces(op, 50)
    ensures var held, hash := [Some(body), Some(body)], (_: TxBody) => 7;
            var (f, outcome) := Match(Asked(), EB, Hashed(M.Serve(held, [0, 1]), hash));
            && Elements(Servable(held, [0, 1])) == {0, 1}
            && Indices(outcome.remaining) == {0}
            && 0 in Outstanding(Run(f, ops), 50)
  {
    hide Match, Servable, Lasts, IsLast, M.Serve, M.MissingIn, Packed, Indices, MatchedBodies, ManifestIndex, Asked, Run;
    var held, hash := [Some(body), Some(body)], (_: TxBody) => 7;
    var response := Hashed(M.Serve(held, [0, 1]), hash);
    AskedForBoth();
    BothPositionsPack();
    BothAreMissing();
    OnlyTheSecondIsLast(body);
    assert Honest(held, TWICE, hash) && HeldByHash(held, TWICE);
    RoundTrip(Asked(), EB, M.EmptyPool(0, 0), held, hash, [0, 1]);
    StaysAfter(Asked(), response, ops);
  }

  lemma StaysAfter(f: Fetch, response: seq<(TxBody, TxId)>, ops: seq<Op>)
    requires 50 in f.ebTxHashes && f.ebTxHashes[50] == (1, TWICE) && !IsLast(TWICE, 0)
    requires 0 in Outstanding(f, 50) && forall op :: op in ops ==> !Replaces(op, 50)
    ensures 0 in Outstanding(Run(Match(f, EB, response).0, ops), 50)
  {
    hide Match, IsLast, Outstanding;
    var all := [MatchTxs(EB, response)] + ops;
    assert all[0] == MatchTxs(EB, response) && all[1..] == ops;
    assert forall op :: op in all ==> op == all[0] || op in ops;
    RepeatStaysRequested(f, all, 50, 0);
  }
}
