/** The stock peer-selection policies. */
module FetchPolicies {
  import opened Types
  import opened FetchModel

  type Rtt = PeerId -> Option<nat>

  /** Nanoseconds; a peer without a measurement sorts last. */
  const UNMEASURED: nat := 999_000_000_000

  function Key(rtt: Rtt, peer: PeerId): nat {
    rtt(peer).GetOr(UNMEASURED)
  }

  /** The position of the first candidate with the least round-trip time. */
  function FirstNearest(candidates: seq<PeerId>, rtt: Rtt): (k: nat)
    requires candidates != []
    ensures k < |candidates|
    ensures forall j :: 0 <= j < |candidates| ==> Key(rtt, candidates[k]) <= Key(rtt, candidates[j])
    ensures forall j :: 0 <= j < k ==> Key(rtt, candidates[k]) < Key(rtt, candidates[j])
  {
    if |candidates| == 1 then 0
    else
      var n := |candidates| - 1;
      var k := FirstNearest(candidates[..n], rtt);
      assert forall j :: 0 <= j < n ==> candidates[..n][j] == candidates[j];
      if Key(rtt, candidates[n]) < Key(rtt, candidates[k]) then n else k
  }

  function LowestRttFirst(candidates: seq<PeerId>, rtt: Rtt): seq<PeerId> {
    if candidates == [] then [] else [candidates[FirstNearest(candidates, rtt)]]
  }

  ghost predicate SortedByKey(s: seq<PeerId>, rtt: Rtt) {
    forall i, j :: 0 <= i < j < |s| ==> Key(rtt, s[i]) <= Key(rtt, s[j])
  }

  function Insert(peer: PeerId, sorted: seq<PeerId>, rtt: Rtt): (r: seq<PeerId>)
    ensures multiset(r) == multiset(sorted) + multiset{peer}
    ensures forall x :: x in r ==> x == peer || x in sorted
  {
    if sorted == [] || Key(rtt, peer) <= Key(rtt, sorted[0]) then [peer] + sorted
    else
      assert sorted == [sorted[0]] + sorted[1..];
      [sorted[0]] + Insert(peer, sorted[1..], rtt)
  }

  lemma SortedHead(sorted: seq<PeerId>, rtt: Rtt, x: PeerId)
    requires SortedByKey(sorted, rtt) && x in sorted
    ensures Key(rtt, sorted[0]) <= Key(rtt, x)
  {
    hide Key;
    var i :| 0 <= i < |sorted| && sorted[i] == x;
  }

  lemma ConsKeepsSorted(head: PeerId, rest: seq<PeerId>, rtt: Rtt)
    requires SortedByKey(rest, rtt) && forall x :: x in rest ==> Key(rtt, head) <= Key(rtt, x)
    ensures SortedByKey([head] + rest, rtt)
  {
    hide Key;
    forall i, j | 0 <= i < j < |[head] + rest|
      ensures Key(rtt, ([head] + rest)[i]) <= Key(rtt, ([head] + rest)[j])
    {
      assert ([head] + rest)[j] == rest[j - 1] && rest[j - 1] in rest;
    }
  }

  lemma {:induction false} InsertKeepsSorted(peer: PeerId, sorted: seq<PeerId>, rtt: Rtt)
    requires SortedByKey(sorted, rtt)
    ensures SortedByKey(Insert(peer, sorted, rtt), rtt)
  {
    hide Key;
    forall x | x in sorted
      ensures Key(rtt, sorted[0]) <= Key(rtt, x)
    {
      SortedHead(sorted, rtt, x);
    }
    if sorted == [] || Key(rtt, peer) <= Key(rtt, sorted[0]) {
      ConsKeepsSorted(peer, sorted, rtt);
    } else {
      InsertKeepsSorted(peer, sorted[1..], rtt);
      ConsKeepsSorted(sorted[0], Insert(peer, sorted[1..], rtt), rtt);
    }
  }

  /** A stable sort by round-trip time. */
  function SortByRtt(candidates: seq<PeerId>, rtt: Rtt): (r: seq<PeerId>)
    ensures SortedByKey(r, rtt) && multiset(r) == multiset(candidates)
  {
    if candidates == [] then []
    else
      assert candidates == [candidates[0]] + candidates[1..];
      var rest := SortByRtt(candidates[1..], rtt);
      InsertKeepsSorted(candidates[0], rest, rtt);
      Insert(candidates[0], rest, rtt)
  }

  function BroadcastN(n: nat, candidates: seq<PeerId>, rtt: Rtt): seq<PeerId> {
    if n == 0 || candidates == [] then []
    else
      var sorted := SortByRtt(candidates, rtt);
      sorted[..Min(n, |sorted|)]
  }

  /** Both stock policies pick among their candidates, whatever the measurements, and pick someone
      whenever the policy allows it. */
  lemma StockPoliciesChooseAmongCandidates(n: nat, rtt: Rtt)
    ensures ChoosesAmongCandidates(peers => LowestRttFirst(peers, rtt))
    ensures ChoosesAmongCandidates(peers => BroadcastN(n, peers, rtt))
  {
    forall peers: seq<PeerId>
      ensures Elements(BroadcastN(n, peers, rtt)) <= Elements(peers)
      ensures Elements(LowestRttFirst(peers, rtt)) <= Elements(peers)
    {
      BroadcastPicksNearest(n, peers, rtt);
    }
  }

  /** A broadcast reaches `n` candidates (or all), taken from the front of the candidates sorted by
      round-trip time. */
  lemma BroadcastPicksNearest(n: nat, candidates: seq<PeerId>, rtt: Rtt)
    ensures var picked, sorted := BroadcastN(n, candidates, rtt), SortByRtt(candidates, rtt);
            && |picked| == Min(n, |candidates|) && |sorted| == |candidates|
            && picked == sorted[..|picked|]
            && Elements(picked) <= Elements(candidates)
  {
    var sorted := SortByRtt(candidates, rtt);
    assert |sorted| == |multiset(sorted)| == |multiset(candidates)| == |candidates|;
    forall p | p in sorted
      ensures p in candidates
    {
      assert p in multiset(sorted);
    }
  }
}
