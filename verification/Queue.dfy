/** The mempool's FIFO queue as a sequence: filtering, byte sums, and the byte-capped prefix. */
module Queue {
  import opened Types

  datatype TxInfo = TxInfo(id: TxId, body: TxBody, size: nat)

  datatype MempoolTx = MempoolTx(tx: TxInfo, ours: bool, slot: nat) {
    function Id(): TxId { tx.id }
    function Size(): nat { tx.size }
  }

  function Ids(txs: seq<MempoolTx>): set<TxId> {
    set t | t in txs :: t.Id()
  }

  function IdList(txs: seq<MempoolTx>): (ids: seq<TxId>)
    ensures Elements(ids) == Ids(txs)
  {
    var ids := seq(|txs|, i requires 0 <= i < |txs| => txs[i].Id());
    assert forall i :: 0 <= i < |txs| ==> ids[i] in ids && txs[i] in txs;
    ids
  }

  ghost predicate DistinctIds(txs: seq<MempoolTx>) {
    forall i, j :: 0 <= i < j < |txs| ==> txs[i].Id() != txs[j].Id()
  }

  function SizeOf(txs: seq<MempoolTx>): nat {
    if txs == [] then 0 else txs[0].Size() + SizeOf(txs[1..])
  }

  lemma {:induction false} SizeOfConcat(a: seq<MempoolTx>, b: seq<MempoolTx>)
    ensures SizeOf(a + b) == SizeOf(a) + SizeOf(b)
  {
    if a == [] {
      assert a + b == b;
    } else {
      assert (a + b)[1..] == a[1..] + b;
      SizeOfConcat(a[1..], b);
    }
  }

  lemma SizeOfPrefix(txs: seq<MempoolTx>, k: nat)
    requires k < |txs|
    ensures SizeOf(txs[..k + 1]) == SizeOf(txs[..k]) + txs[k].Size()
    ensures SizeOf(txs) == SizeOf(txs[..k]) + SizeOf(txs[k..])
  {
    assert txs[..k + 1] == txs[..k] + [txs[k]];
    SizeOfConcat(txs[..k], [txs[k]]);
    assert txs == txs[..k] + txs[k..];
    SizeOfConcat(txs[..k], txs[k..]);
  }

  /** The first queued tx with the given id. */
  function Find(txs: seq<MempoolTx>, id: TxId): (r: Option<MempoolTx>)
    ensures r.Some? <==> id in Ids(txs)
    ensures r.Some? ==> r.value in txs && r.value.Id() == id
  {
    if txs == [] then None
    else if txs[0].Id() == id then Some(txs[0])
    else Find(txs[1..], id)
  }

  /** The queue restricted to `wanted`, in order. */
  function Select(txs: seq<MempoolTx>, wanted: set<TxId>): (r: seq<MempoolTx>)
    ensures forall t :: t in r <==> t in txs && t.Id() in wanted
    ensures Ids(r) == Ids(txs) * wanted
    ensures DistinctIds(txs) ==> DistinctIds(r)
    ensures |r| <= |txs|
  {
    if txs == [] then []
    else
      var rest := Select(txs[1..], wanted);
      assert forall t :: t in txs <==> t == txs[0] || t in txs[1..];
      if txs[0].Id() in wanted then
        assert DistinctIds(txs) ==> forall t :: t in rest ==> t.Id() != txs[0].Id();
        [txs[0]] + rest
      else rest
  }

  /** The queue with the ids in `gone` removed, in order. */
  function Keep(txs: seq<MempoolTx>, gone: set<TxId>): seq<MempoolTx> {
    Select(txs, Ids(txs) - gone)
  }

  lemma {:induction false} SelectAgrees(txs: seq<MempoolTx>, a: set<TxId>, b: set<TxId>)
    requires forall id :: id in Ids(txs) ==> (id in a <==> id in b)
    ensures Select(txs, a) == Select(txs, b)
  {
    if txs != [] {
      assert txs[0] in txs && forall t :: t in txs[1..] ==> t in txs;
      SelectAgrees(txs[1..], a, b);
    }
  }

  lemma {:induction false} SelectConcat(x: seq<MempoolTx>, y: seq<MempoolTx>, wanted: set<TxId>)
    ensures Select(x + y, wanted) == Select(x, wanted) + Select(y, wanted)
  {
    if x == [] {
      assert x + y == y;
    } else {
      assert (x + y)[1..] == x[1..] + y;
      SelectConcat(x[1..], y, wanted);
    }
  }

  lemma {:induction false} SelectAllOrNone(txs: seq<MempoolTx>, wanted: set<TxId>)
    ensures Ids(txs) <= wanted ==> Select(txs, wanted) == txs
    ensures Ids(txs) !! wanted ==> Select(txs, wanted) == []
  {
    if txs != [] {
      assert txs[0] in txs && forall t :: t in txs[1..] ==> t in txs;
      assert txs[0].Id() in Ids(txs) && Ids(txs[1..]) <= Ids(txs);
      SelectAllOrNone(txs[1..], wanted);
    }
  }

  lemma IdsConcat(a: seq<MempoolTx>, b: seq<MempoolTx>)
    ensures Ids(a + b) == Ids(a) + Ids(b)
    ensures DistinctIds(a + b) ==> Ids(a) !! Ids(b)
  {
    assert forall t :: t in a + b <==> t in a || t in b;
    if DistinctIds(a + b) {
      forall t, u | t in a && u in b ensures t.Id() != u.Id() {
        var i :| 0 <= i < |a| && a[i] == t;
        var j :| 0 <= j < |b| && b[j] == u;
        assert (a + b)[i] == t && (a + b)[|a| + j] == u;
      }
    }
  }

  /** With distinct ids, removing a prefix by id leaves exactly the suffix. */
  lemma KeepDropsPrefix(txs: seq<MempoolTx>, k: nat)
    requires k <= |txs| && DistinctIds(txs)
    ensures Keep(txs, Ids(txs[..k])) == txs[k..]
    ensures Select(txs, Ids(txs[..k])) == txs[..k]
  {
    var front, back := txs[..k], txs[k..];
    assert txs == front + back;
    IdsConcat(front, back);
    var rest := Ids(txs) - Ids(front);
    assert Ids(back) <= rest && Ids(front) !! rest;
    SelectConcat(front, back, rest);
    SelectConcat(front, back, Ids(front));
    SelectAllOrNone(front, rest);
    SelectAllOrNone(back, rest);
    SelectAllOrNone(front, Ids(front));
    SelectAllOrNone(back, Ids(front));
  }

  // ---------------------------------------------------------------------------
  // The byte-capped prefix
  // ---------------------------------------------------------------------------

  /** `k` front txs are what a cap of `cap` bytes admits: at least one when there is one,
      within the cap unless a single oversize tx, stopped once the cap is reached, and
      not extendable. */
  ghost predicate Fills(txs: seq<MempoolTx>, cap: nat, k: nat) {
    && k <= |txs|
    && (txs != [] ==> k > 0)
    && (k > 1 ==> SizeOf(txs[..k]) <= cap)
    && (forall j :: 0 < j < k ==> SizeOf(txs[..j]) < cap)
    && (0 < k < |txs| ==> SizeOf(txs[..k]) >= cap || SizeOf(txs[..k + 1]) > cap)
  }

  lemma FillsIsUnique(txs: seq<MempoolTx>, cap: nat, j: nat, k: nat)
    requires Fills(txs, cap, j) && Fills(txs, cap, k)
    ensures j == k
  {
  }

  /** `k` front txs are taken and the next one is still to be considered. */
  ghost predicate StillFilling(txs: seq<MempoolTx>, cap: nat, k: nat) {
    && k <= |txs|
    && forall j :: 0 < j <= k ==> SizeOf(txs[..j]) < cap
  }

  /** One turn of the loop: stop before the next tx, stop after it, or go on. */
  lemma FillStep(txs: seq<MempoolTx>, cap: nat, k: nat)
    requires StillFilling(txs, cap, k) && k < |txs|
    ensures var next := SizeOf(txs[..k]) + txs[k].Size();
            && next == SizeOf(txs[..k + 1])
            && (next > cap && k > 0 ==> Fill(txs, cap) == k)
            && (!(next > cap && k > 0) && next >= cap ==> Fill(txs, cap) == k + 1)
            && (next < cap ==> StillFilling(txs, cap, k + 1))
    ensures txs[k..][1..] == txs[k + 1..] && txs[..k] + [txs[k]] == txs[..k + 1]
  {
    SizeOfPrefix(txs, k);
    var next := SizeOf(txs[..k]) + txs[k].Size();
    if next > cap && k > 0 {
      FillsIsUnique(txs, cap, Fill(txs, cap), k);
    } else if next >= cap {
      FillsIsUnique(txs, cap, Fill(txs, cap), k + 1);
    }
  }

  function Fill(txs: seq<MempoolTx>, cap: nat): (k: nat)
    ensures Fills(txs, cap, k)
  {
    if txs == [] then 0 else
      assert txs[..1] == [txs[0]];
      FillFrom(txs, cap, 1)
  }

  function FillFrom(txs: seq<MempoolTx>, cap: nat, taken: nat): (k: nat)
    requires 0 < taken <= |txs|
    requires taken > 1 ==> SizeOf(txs[..taken]) <= cap
    requires forall j :: 0 < j < taken ==> SizeOf(txs[..j]) < cap
    ensures k >= taken && Fills(txs, cap, k)
    decreases |txs| - taken
  {
    if taken == |txs| || SizeOf(txs[..taken]) >= cap || SizeOf(txs[..taken + 1]) > cap
    then taken
    else FillFrom(txs, cap, taken + 1)
  }
}
