/** Seat allocation from the stake registry. */
module Committee {
  import opened Types
  import opened Sums

  /** Node ids are numbers ordered as the id strings are. */
  type NodeId = nat

  datatype StakeEntry = StakeEntry(nodeId: NodeId, stake: nat)

  datatype Selection =
    | WfaLs(persistentVoters: nat, nonPersistentVoters: nat)
    | EveryoneVotes
    | StakeCentile(topCentile: real)

  function TotalStake(registry: seq<StakeEntry>): nat {
    if registry == [] then 0
    else TotalStake(registry[..|registry| - 1]) + registry[|registry| - 1].stake
  }

  /** What the entries of one pool hold together. */
  function StakeOf(registry: seq<StakeEntry>, id: NodeId): nat {
    if registry == [] then 0
    else
      var last := registry[|registry| - 1];
      StakeOf(registry[..|registry| - 1], id) + if last.nodeId == id then last.stake else 0
  }

  ghost predicate DistinctIds(registry: seq<StakeEntry>) {
    forall i, j :: 0 <= i < j < |registry| ==> registry[i].nodeId != registry[j].nodeId
  }

  // ---------------------------------------------------------------------------
  // The weighted lottery
  // ---------------------------------------------------------------------------

  /** The entry whose slice of [0, total) a draw falls into. */
  function Winner(registry: seq<StakeEntry>, draw: nat): (i: nat)
    requires draw < TotalStake(registry)
    ensures i < |registry|
  {
    var n := |registry| - 1;
    if draw < TotalStake(registry[..n]) then Winner(registry[..n], draw) else n
  }

  /** It is the first entry whose cumulative stake exceeds the draw. */
  lemma {:induction false} WinnerIsFirstAbove(registry: seq<StakeEntry>, draw: nat)
    requires draw < TotalStake(registry)
    ensures var i := Winner(registry, draw);
            TotalStake(registry[..i]) <= draw < TotalStake(registry[..i + 1])
  {
    var n := |registry| - 1;
    if draw < TotalStake(registry[..n]) {
      WinnerIsFirstAbove(registry[..n], draw);
      var i := Winner(registry, draw);
      assert registry[..n][..i] == registry[..i] && registry[..n][..i + 1] == registry[..i + 1];
    } else {
      assert registry[..n + 1] == registry;
    }
  }

  lemma {:induction false} PrefixTotals(registry: seq<StakeEntry>, i: nat, j: nat)
    requires i <= j <= |registry|
    ensures TotalStake(registry[..i]) <= TotalStake(registry[..j])
  {
    if i < j {
      PrefixTotals(registry, i, j - 1);
      assert registry[..j][..j - 1] == registry[..j - 1];
    }
  }

  method Cumulative(registry: seq<StakeEntry>) returns (cumsum: seq<nat>)
    ensures |cumsum| == |registry|
    ensures forall i :: 0 <= i < |cumsum| ==> cumsum[i] == TotalStake(registry[..i + 1])
  {
    cumsum := [];
    var running := 0;
    for k := 0 to |registry|
      invariant |cumsum| == k && running == TotalStake(registry[..k])
      invariant forall i :: 0 <= i < k ==> cumsum[i] == TotalStake(registry[..i + 1])
    {
      assert registry[..k + 1][..k] == registry[..k];
      running := running + registry[k].stake;
      cumsum := cumsum + [running];
    }
  }

  /** The number of leading elements that are at most `draw`, by binary search. */
  method PartitionPoint(cumsum: seq<nat>, draw: nat) returns (index: nat)
    requires forall i, j :: 0 <= i < j < |cumsum| ==> cumsum[i] <= cumsum[j]
    ensures index <= |cumsum|
    ensures forall i :: 0 <= i < index ==> cumsum[i] <= draw
    ensures forall i :: index <= i < |cumsum| ==> draw < cumsum[i]
  {
    var low, high := 0, |cumsum|;
    while low < high
      invariant 0 <= low <= high <= |cumsum|
      invariant forall i :: 0 <= i < low ==> cumsum[i] <= draw
      invariant forall i :: high <= i < |cumsum| ==> draw < cumsum[i]
    {
      var mid := (low + high) / 2;
      if cumsum[mid] <= draw {
        low := mid + 1;
      } else {
        high := mid;
      }
    }
    index := low;
  }

  /** How many of the draws seat the pool. */
  function SeatsWon(registry: seq<StakeEntry>, draws: seq<nat>, id: NodeId): nat
    requires forall k :: 0 <= k < |draws| ==> draws[k] < TotalStake(registry)
  {
    if draws == [] then 0
    else
      var n := |draws| - 1;
      SeatsWon(registry, draws[..n], id) + if registry[Winner(registry, draws[n])].nodeId == id then 1 else 0
  }

  lemma AddSeatTotal(seats: map<NodeId, nat>, id: NodeId)
    ensures Sum(AddSeat(seats, id)) == Sum(seats) + 1
  {
    var r := AddSeat(seats, id);
    SumAt(r, id);
    assert r - {id} == seats - {id};
    if id in seats {
      SumAt(seats, id);
    } else {
      assert seats - {id} == seats;
    }
  }

  function AddSeat(seats: map<NodeId, nat>, id: NodeId): map<NodeId, nat> {
    seats[id := SeatCount(seats, id) + 1]
  }

  function SeatCount(seats: map<NodeId, nat>, id: NodeId): nat {
    if id in seats then seats[id] else 0
  }

  /** The seat map under the given draws: its keys are the pools with a seat, each with as many
      seats as draws landed on it, and exactly as many seats are given out as were asked for. */
  method AllocatePersistentSeats(registry: seq<StakeEntry>, persistentVoters: nat, draws: seq<nat>)
    returns (seats: map<NodeId, nat>)
    requires |draws| == persistentVoters
    requires TotalStake(registry) > 0 ==> forall k :: 0 <= k < |draws| ==> draws[k] < TotalStake(registry)
    ensures TotalStake(registry) == 0 ==> seats == map[]
    ensures TotalStake(registry) > 0 ==>
              && Sum(seats) == persistentVoters
              && forall id :: SeatCount(seats, id) == SeatsWon(registry, draws, id)
    ensures forall id :: id in seats ==> seats[id] > 0
  {
    seats := map[];
    if TotalStake(registry) == 0 || persistentVoters == 0 || registry == [] {
      return;
    }
    var cumsum := Cumulative(registry);
    forall i, j | 0 <= i < j < |cumsum|
      ensures cumsum[i] <= cumsum[j]
    {
      PrefixTotals(registry, i + 1, j + 1);
    }
    for k := 0 to persistentVoters
      invariant Sum(seats) == k
      invariant forall id :: SeatCount(seats, id) == SeatsWon(registry, draws[..k], id)
      invariant forall id :: id in seats ==> seats[id] > 0
    {
      var index := PartitionPoint(cumsum, draws[k]);
      PartitionIsWinner(registry, cumsum, draws[k], index);
      var id := registry[index].nodeId;
      assert draws[..k + 1][..k] == draws[..k];
      AddSeatTotal(seats, id);
      seats := AddSeat(seats, id);
    }
    assert draws[..persistentVoters] == draws;
  }

  lemma PartitionIsWinner(registry: seq<StakeEntry>, cumsum: seq<nat>, draw: nat, index: nat)
    requires draw < TotalStake(registry)
    requires |cumsum| == |registry| && index <= |cumsum|
    requires forall i :: 0 <= i < |cumsum| ==> cumsum[i] == TotalStake(registry[..i + 1])
    requires forall i :: 0 <= i < index ==> cumsum[i] <= draw
    requires forall i :: index <= i < |cumsum| ==> draw < cumsum[i]
    ensures index == Winner(registry, draw)
  {
    var i := Winner(registry, draw);
    WinnerIsFirstAbove(registry, draw);
    assert draw < cumsum[i];
    if index < i {
      assert draw < cumsum[index];
      PrefixTotals(registry, index + 1, i);
    }
  }

  predicate Seats(registry: seq<StakeEntry>, draw: nat, id: NodeId) {
    draw < TotalStake(registry) && registry[Winner(registry, draw)].nodeId == id
  }

  /** How many of the draws below `n` seat the pool. */
  function WinningBelow(registry: seq<StakeEntry>, id: NodeId, n: nat): nat {
    if n == 0 then 0 else WinningBelow(registry, id, n - 1) + if Seats(registry, n - 1, id) then 1 else 0
  }

  /** The lottery is fair: of all draws, as many seat a pool as the pool has stake. */
  lemma {:induction false} WinningDrawsMeasureStake(registry: seq<StakeEntry>, id: NodeId)
    ensures WinningBelow(registry, id, TotalStake(registry)) == StakeOf(registry, id)
  {
    if registry == [] {
      assert WinningBelow(registry, id, 0) == 0;
    } else {
      WinningDrawsMeasureStake(registry[..|registry| - 1], id);
      WinningBelowUnfolds(registry, id, TotalStake(registry));
    }
  }

  lemma {:induction false} WinningBelowUnfolds(registry: seq<StakeEntry>, id: NodeId, n: nat)
    requires registry != [] && n <= TotalStake(registry)
    ensures var shorter, last := registry[..|registry| - 1], registry[|registry| - 1];
            WinningBelow(registry, id, n) ==
            WinningBelow(shorter, id, Min(n, TotalStake(shorter)))
            + if last.nodeId == id then SaturatingSub(n, TotalStake(shorter)) else 0
  {
    if n > 0 {
      WinningBelowUnfolds(registry, id, n - 1);
    }
  }
}
