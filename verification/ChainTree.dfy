/**
 The forest of block headers with its cached best tip.

 `insert` checks neither contiguity nor heights. Two facts about the stored
 blocks are hypotheses of everything below (`WellFormed`): the stored point
 carries the key hash, and no parent link leads back to where it started, which
 is what lets the ancestry walks end. Heights need not grow along links.
 */
module ChainTree {
  import opened Types
  import opened Collections

  datatype NodeStatus = Normal | ChainStart

  datatype ChainNode = ChainNode(
    point: Point, status: NodeStatus, blockNumber: nat, slot: nat, prevHash: Option<Hash>,
    txCount: nat, announcedEb: Option<Hash>, certifiedEb: bool)

  type Nodes = map<Hash, ChainNode>

  type Tip = Option<(Point, nat)>

  predicate IsBetterTip(aBlockNo: nat, aHash: Hash, bBlockNo: nat, bHash: Hash) {
    if aBlockNo != bBlockNo then aBlockNo > bBlockNo else aHash < bHash
  }

  // ---------------------------------------------------------------------------
  // What the cache must equal
  // ---------------------------------------------------------------------------

  /** The parent link of `h`, when both ends are in the tree. */
  function VisibleParent(nodes: Nodes, h: Hash): Option<Hash> {
    if h in nodes && nodes[h].prevHash.Some? && nodes[h].prevHash.value in nodes
    then nodes[h].prevHash
    else None
  }

  /** The block reached from `h` by following `k` visible parent links. */
  function WalkBack(nodes: Nodes, h: Hash, k: nat): Option<Hash>
    decreases k
  {
    if k == 0 then Some(h)
    else match VisibleParent(nodes, h)
         case None => None
         case Some(parent) => WalkBack(nodes, parent, k - 1)
  }

  ghost predicate WalkEnds(nodes: Nodes, h: Hash) {
    exists k :: WalkBack(nodes, h, k).None?
  }

  /** Every walk along parent links comes to an end. */
  ghost predicate Acyclic(nodes: Nodes) {
    forall h :: WalkEnds(nodes, h)
  }

  ghost predicate WellFormed(nodes: Nodes) {
    && (forall h :: h in nodes ==> nodes[h].point.Specific? && nodes[h].point.hash == h)
    && Acyclic(nodes)
  }

  /** Neither `h` nor any visible ancestor of it is blacklisted. */
  ghost predicate Clean(nodes: Nodes, blacklist: set<Hash>, h: Hash) {
    forall k :: WalkBack(nodes, h, k).Some? ==> WalkBack(nodes, h, k).value !in blacklist
  }

  ghost predicate Eligible(nodes: Nodes, blacklist: set<Hash>, h: Hash) {
    h in nodes && Clean(nodes, blacklist, h)
  }

  /** `tip` is the `IsBetterTip` maximum over the eligible members of `among`. */
  ghost predicate IsBestAmong(nodes: Nodes, blacklist: set<Hash>, among: set<Hash>, tip: Tip) {
    match tip
    case None => forall h :: h in among ==> !Eligible(nodes, blacklist, h)
    case Some((point, blockNo)) =>
      && point.Specific?
      && point.hash in among
      && Eligible(nodes, blacklist, point.hash)
      && nodes[point.hash].point == point
      && nodes[point.hash].blockNumber == blockNo
      && forall h :: h in among && h != point.hash && Eligible(nodes, blacklist, h)
           ==> IsBetterTip(blockNo, point.hash, nodes[h].blockNumber, h)
  }

  ghost predicate IsBest(nodes: Nodes, blacklist: set<Hash>, tip: Tip) {
    IsBestAmong(nodes, blacklist, nodes.Keys, tip)
  }

  /** The tree's content determines the tip: nothing else about a run matters. */
  lemma BestIsUnique(nodes: Nodes, blacklist: set<Hash>, s: Tip, t: Tip)
    requires IsBest(nodes, blacklist, s) && IsBest(nodes, blacklist, t)
    ensures s == t
  {
    if s.Some? && t.Some? {
      assert s.value.0.hash == t.value.0.hash;
    }
  }

  // ---------------------------------------------------------------------------
  // How eligibility moves when the node map changes
  // ---------------------------------------------------------------------------

  lemma CleanUnfolds(nodes: Nodes, blacklist: set<Hash>, h: Hash)
    ensures Clean(nodes, blacklist, h) <==>
            h !in blacklist
            && (VisibleParent(nodes, h).Some? ==> Clean(nodes, blacklist, VisibleParent(nodes, h).value))
  {
    var parent := VisibleParent(nodes, h);
    assert WalkBack(nodes, h, 0) == Some(h);
    if parent.Some? {
      assert forall k: nat :: WalkBack(nodes, h, k + 1) == WalkBack(nodes, parent.value, k);
      forall k: nat | Clean(nodes, blacklist, parent.value) && WalkBack(nodes, h, k).Some? && k > 0
        ensures WalkBack(nodes, h, k).value !in blacklist
      {
        assert WalkBack(nodes, h, k) == WalkBack(nodes, parent.value, k - 1);
      }
    }
  }

  ghost predicate Within(part: Nodes, nodes: Nodes) {
    forall h :: h in part ==> h in nodes && part[h] == nodes[h]
  }

  /** A walk inside part of the tree is a walk of the tree. */
  lemma {:induction false} WalkExtends(part: Nodes, nodes: Nodes, h: Hash, k: nat)
    requires Within(part, nodes) && WalkBack(part, h, k).Some?
    ensures WalkBack(nodes, h, k) == WalkBack(part, h, k)
    decreases k
  {
    if k > 0 {
      WalkExtends(part, nodes, VisibleParent(part, h).value, k - 1);
    }
  }

  lemma {:induction false} WalkJoins(nodes: Nodes, h: Hash, j: nat, k: nat)
    requires WalkBack(nodes, h, j).Some?
    ensures WalkBack(nodes, h, j + k) == WalkBack(nodes, WalkBack(nodes, h, j).value, k)
    decreases j
  {
    if j > 0 {
      WalkJoins(nodes, VisibleParent(nodes, h).value, j - 1, k);
    }
  }

  /** Taking nodes away keeps the links acyclic and never taints a node. */
  lemma PartKeeps(part: Nodes, nodes: Nodes, blacklist: set<Hash>)
    requires Within(part, nodes)
    ensures WellFormed(nodes) ==> WellFormed(part)
    ensures forall h :: Clean(nodes, blacklist, h) ==> Clean(part, blacklist, h)
  {
    forall h, k | WalkBack(part, h, k).Some?
      ensures WalkBack(nodes, h, k) == WalkBack(part, h, k)
    {
      WalkExtends(part, nodes, h, k);
    }
    if WellFormed(nodes) {
      forall h
        ensures WalkEnds(part, h)
      {
        assert WalkEnds(nodes, h);
        var k :| WalkBack(nodes, h, k).None?;
        assert WalkBack(part, h, k).None?;
      }
    }
  }

  /** Filling the gap `h` never frees a node, and taints one only if `h` is tainted. */
  lemma InsertKeepsEligibility(nodes: Nodes, blacklist: set<Hash>, h: Hash, node: ChainNode, g: Hash)
    requires h !in nodes && g in nodes
    ensures Clean(nodes[h := node], blacklist, g) ==> Clean(nodes, blacklist, g)
    ensures Clean(nodes[h := node], blacklist, h) && Clean(nodes, blacklist, g)
            ==> Clean(nodes[h := node], blacklist, g)
  {
    var grown := nodes[h := node];
    PartKeeps(nodes, grown, blacklist);
    if Clean(grown, blacklist, h) && Clean(nodes, blacklist, g) {
      forall k | WalkBack(grown, g, k).Some?
        ensures WalkBack(grown, g, k).value !in blacklist
      {
        GrownWalkIsClean(nodes, blacklist, h, node, g, k);
      }
    }
  }

  lemma {:induction false} GrownWalkIsClean(
      nodes: Nodes, blacklist: set<Hash>, h: Hash, node: ChainNode, g: Hash, k: nat)
    requires h !in nodes && g in nodes && WalkBack(nodes[h := node], g, k).Some?
    requires Clean(nodes[h := node], blacklist, h) && Clean(nodes, blacklist, g)
    ensures WalkBack(nodes[h := node], g, k).value !in blacklist
    decreases k
  {
    CleanUnfolds(nodes, blacklist, g);
    if k > 0 {
      var parent := VisibleParent(nodes[h := node], g).value;
      if parent != h {
        GrownWalkIsClean(nodes, blacklist, h, node, parent, k - 1);
      }
    }
  }

  // ---------------------------------------------------------------------------
  // What pruning frees
  // ---------------------------------------------------------------------------

  function KeepFrom(nodes: Nodes, minBlockNumber: nat): Nodes {
    map h | h in nodes && nodes[h].blockNumber >= minBlockNumber :: nodes[h]
  }

  function KeepUpTo(nodes: Nodes, maxBlockNumber: nat): Nodes {
    map h | h in nodes && nodes[h].blockNumber <= maxBlockNumber :: nodes[h]
  }

  /** Pruning cuts `b`, itself not blacklisted, off from a tainted parent. */
  ghost predicate CutOff(nodes: Nodes, blacklist: set<Hash>, min: nat, b: Hash) {
    && b in nodes && nodes[b].blockNumber >= min && b !in blacklist
    && VisibleParent(nodes, b).Some?
    && nodes[VisibleParent(nodes, b).value].blockNumber < min
    && !Clean(nodes, blacklist, VisibleParent(nodes, b).value)
  }

  /** Some kept ancestor of `g`, or `g`, is cut off, and what is kept of its ancestry is clean. */
  ghost predicate Freed(nodes: Nodes, blacklist: set<Hash>, min: nat, g: Hash) {
    var kept := KeepFrom(nodes, min);
    && Eligible(kept, blacklist, g)
    && exists j :: WalkBack(kept, g, j).Some? && CutOff(nodes, blacklist, min, WalkBack(kept, g, j).value)
  }

  /** The freed blocks are exactly the kept ones that pruning makes eligible. */
  lemma FreedIff(nodes: Nodes, blacklist: set<Hash>, min: nat, g: Hash)
    requires g in KeepFrom(nodes, min)
    ensures Freed(nodes, blacklist, min, g) <==>
            !Clean(nodes, blacklist, g) && Clean(KeepFrom(nodes, min), blacklist, g)
  {
    var kept := KeepFrom(nodes, min);
    if Freed(nodes, blacklist, min, g) {
      var j :| WalkBack(kept, g, j).Some? && CutOff(nodes, blacklist, min, WalkBack(kept, g, j).value);
      WalkExtends(kept, nodes, g, j);
      CutOffIsTainted(nodes, blacklist, min, g, j);
    }
    if !Clean(nodes, blacklist, g) && Clean(kept, blacklist, g) {
      var k :| WalkBack(nodes, g, k).Some? && WalkBack(nodes, g, k).value in blacklist;
      var j := CutOn(nodes, blacklist, min, g, k);
    }
  }

  lemma CutOffIsTainted(nodes: Nodes, blacklist: set<Hash>, min: nat, g: Hash, j: nat)
    requires WalkBack(nodes, g, j).Some? && CutOff(nodes, blacklist, min, WalkBack(nodes, g, j).value)
    ensures !Clean(nodes, blacklist, g)
  {
    var b := WalkBack(nodes, g, j).value;
    CleanUnfolds(nodes, blacklist, b);
    var k :| WalkBack(nodes, b, k).Some? && WalkBack(nodes, b, k).value in blacklist;
    WalkJoins(nodes, g, j, k);
  }

  /** On the way to a blacklisted ancestor that is no longer visible, some block is cut off. */
  lemma {:induction false} CutOn(nodes: Nodes, blacklist: set<Hash>, min: nat, g: Hash, k: nat) returns (j: nat)
    requires g in KeepFrom(nodes, min) && Clean(KeepFrom(nodes, min), blacklist, g)
    requires WalkBack(nodes, g, k).Some? && WalkBack(nodes, g, k).value in blacklist
    ensures var kept := KeepFrom(nodes, min);
            WalkBack(kept, g, j).Some? && CutOff(nodes, blacklist, min, WalkBack(kept, g, j).value)
    decreases k
  {
    var kept := KeepFrom(nodes, min);
    CleanUnfolds(kept, blacklist, g);
    var parent := VisibleParent(nodes, g).value;
    if parent in kept {
      j := CutOn(nodes, blacklist, min, parent, k - 1);
      j := j + 1;
    } else {
      j := 0;
    }
  }

  /** Pruning leaves the eligibility of every kept block alone exactly when it cuts none off. */
  lemma PruneKeepsEligibilityIff(nodes: Nodes, blacklist: set<Hash>, min: nat)
    ensures (forall g :: g in KeepFrom(nodes, min) ==>
               (Clean(KeepFrom(nodes, min), blacklist, g) <==> Clean(nodes, blacklist, g)))
            <==> forall b :: !CutOff(nodes, blacklist, min, b)
  {
    var kept := KeepFrom(nodes, min);
    PartKeeps(kept, nodes, blacklist);
    forall g | g in kept
      ensures Freed(nodes, blacklist, min, g) <==>
              !Clean(nodes, blacklist, g) && Clean(kept, blacklist, g)
    {
      FreedIff(nodes, blacklist, min, g);
    }
    forall b | b in nodes && CutOff(nodes, blacklist, min, b)
      ensures b in kept && Freed(nodes, blacklist, min, b)
    {
      CleanUnfolds(kept, blacklist, b);
      assert WalkBack(kept, b, 0) == Some(b);
    }
  }

  ghost predicate PrunesBlacklisted(nodes: Nodes, blacklist: set<Hash>, min: nat) {
    exists h :: h in nodes && nodes[h].blockNumber < min && h in blacklist
  }

  /** Some block is eligible, and all that are get pruned. */
  ghost predicate PrunesTip(nodes: Nodes, blacklist: set<Hash>, min: nat) {
    && (exists h :: Eligible(nodes, blacklist, h))
    && forall h :: Eligible(nodes, blacklist, h) ==> nodes[h].blockNumber < min
  }

  /** A freed block that beats every kept block which was eligible before. */
  ghost predicate Overtakes(nodes: Nodes, blacklist: set<Hash>, min: nat, g: Hash) {
    && g in nodes && Freed(nodes, blacklist, min, g)
    && forall h :: h in KeepFrom(nodes, min) && Clean(nodes, blacklist, h) ==>
         IsBetterTip(nodes[g].blockNumber, g, nodes[h].blockNumber, h)
  }

  /** Pruning rescans, or frees no block that would be the tip. */
  ghost predicate PruneIsExact(nodes: Nodes, blacklist: set<Hash>, min: nat) {
    || PrunesBlacklisted(nodes, blacklist, min)
    || PrunesTip(nodes, blacklist, min)
    || forall g :: !Overtakes(nodes, blacklist, min, g)
  }

  /** Without a rescan the cached tip is still right exactly when no freed block overtakes it. */
  lemma CacheSurvivesIff(nodes: Nodes, blacklist: set<Hash>, min: nat, tip: Tip)
    requires IsBest(nodes, blacklist, tip) && (tip.Some? ==> tip.value.1 >= min)
    ensures IsBest(KeepFrom(nodes, min), blacklist, tip) <==> forall g :: !Overtakes(nodes, blacklist, min, g)
  {
    hide Clean, Freed;
    var kept := KeepFrom(nodes, min);
    PartKeeps(kept, nodes, blacklist);
    forall g | g in kept
      ensures Freed(nodes, blacklist, min, g) <==> Eligible(kept, blacklist, g) && !Eligible(nodes, blacklist, g)
    {
      FreedIff(nodes, blacklist, min, g);
    }
    if g :| Overtakes(nodes, blacklist, min, g) {
      FreedIsKept(nodes, blacklist, min, g);
      assert Eligible(kept, blacklist, g);
    } else if !IsBest(kept, blacklist, tip) {
      var g :| g in kept && Eligible(kept, blacklist, g)
               && (tip.Some? ==> g != tip.value.0.hash
                                 && !IsBetterTip(tip.value.1, tip.value.0.hash, kept[g].blockNumber, g));
      assert Freed(nodes, blacklist, min, g);
      assert Overtakes(nodes, blacklist, min, g);
    }
  }

  lemma FreedIsKept(nodes: Nodes, blacklist: set<Hash>, min: nat, g: Hash)
    requires Freed(nodes, blacklist, min, g)
    ensures g in KeepFrom(nodes, min)
  {
  }

  /** Heights that grow along visible links. */
  ghost predicate StrictHeights(nodes: Nodes) {
    forall h :: h in nodes && VisibleParent(nodes, h).Some?
      ==> nodes[VisibleParent(nodes, h).value].blockNumber < nodes[h].blockNumber
  }

  lemma {:induction false} WalkDescends(nodes: Nodes, h: Hash, k: nat)
    requires StrictHeights(nodes) && h in nodes && WalkBack(nodes, h, k).Some?
    ensures WalkBack(nodes, h, k).value in nodes
    ensures nodes[WalkBack(nodes, h, k).value].blockNumber <= nodes[h].blockNumber
    decreases k
  {
    if k > 0 {
      WalkDescends(nodes, VisibleParent(nodes, h).value, k - 1);
    }
  }

  /** With strict heights a lost blacklisted ancestor is itself pruned, so pruning is always exact. */
  lemma StrictHeightsSuffice(nodes: Nodes, blacklist: set<Hash>, min: nat)
    requires StrictHeights(nodes)
    ensures PruneIsExact(nodes, blacklist, min)
  {
    if b :| b in nodes && CutOff(nodes, blacklist, min, b) {
      var parent := VisibleParent(nodes, b).value;
      var k :| WalkBack(nodes, parent, k).Some? && WalkBack(nodes, parent, k).value in blacklist;
      WalkDescends(nodes, parent, k);
      assert PrunesBlacklisted(nodes, blacklist, min);
    }
  }

  lemma StrictHeightsWillDo(nodes: Nodes, blacklist: set<Hash>, min: nat)
    ensures StrictHeights(nodes) ==> PruneIsExact(nodes, blacklist, min)
  {
    if StrictHeights(nodes) {
      StrictHeightsSuffice(nodes, blacklist, min);
    }
  }

  lemma NoCutOffWillDo(nodes: Nodes, blacklist: set<Hash>, min: nat)
    ensures (forall b :: !CutOff(nodes, blacklist, min, b)) ==> PruneIsExact(nodes, blacklist, min)
  {
    hide CutOff;
  }

  lemma TipIsPrunedIff(nodes: Nodes, blacklist: set<Hash>, min: nat, tip: Tip)
    requires IsBest(nodes, blacklist, tip)
    ensures PrunesTip(nodes, blacklist, min) <==> tip.Some? && tip.value.1 < min
  {
    hide Clean;
    if tip.Some? {
      assert Eligible(nodes, blacklist, tip.value.0.hash);
    }
  }

  // ---------------------------------------------------------------------------
  // The tree
  // ---------------------------------------------------------------------------

  class ChainTree {
    var nodes: Nodes
    var blacklist: set<Hash>
    var bestTip: Tip

    /** The cache equals a full scan. */
    ghost predicate Valid()
      reads this
    {
      WellFormed(nodes) && IsBest(nodes, blacklist, bestTip)
    }

    constructor ()
      ensures Valid()
      ensures nodes == map[] && blacklist == {} && bestTip == None
    {
      nodes, blacklist, bestTip := map[], {}, None;
      var none: Nodes := map[];
      assert forall h :: WalkBack(none, h, 1).None? && WalkEnds(none, h);
    }

    function BestTipHash(): Option<Hash>
      reads this
    {
      if bestTip.Some? && bestTip.value.0.Specific? then Some(bestTip.value.0.hash) else None
    }

    predicate BeatsBestTip(blockNumber: nat, hash: Hash)
      reads this
    {
      match bestTip
      case None => true
      case Some((_, bestNo)) =>
        var bestHash := match BestTipHash() case Some(h) => h case None => MAX_HASH;
        IsBetterTip(blockNumber, hash, bestNo, bestHash)
    }

    method IsBlacklisted(h: Hash) returns (tainted: bool)
      requires Acyclic(nodes)
      ensures tainted <==> !Clean(nodes, blacklist, h)
    {
      if blacklist == {} {
        return false;
      }
      var hash := h;
      assert WalkEnds(nodes, h);
      ghost var left :| WalkBack(nodes, h, left).None?;
      while true
        invariant Clean(nodes, blacklist, h) <==> Clean(nodes, blacklist, hash)
        invariant WalkBack(nodes, hash, left).None?
        decreases left
      {
        CleanUnfolds(nodes, blacklist, hash);
        if hash in blacklist {
          return true;
        }
        if hash !in nodes || nodes[hash].prevHash.None? {
          return false;
        }
        var prev := nodes[hash].prevHash.value;
        if prev !in nodes {
          return false;
        }
        hash := prev;
        left := left - 1;
      }
    }

    /** The walk back from `h`, whole. */
    method AncestorsOf(h: Hash) returns (chain: seq<Hash>)
      requires Acyclic(nodes)
      ensures forall k :: 0 <= k < |chain| ==> WalkBack(nodes, h, k) == Some(chain[k])
      ensures WalkBack(nodes, h, |chain|) == None
    {
      var hash := h;
      chain := [hash];
      assert WalkEnds(nodes, h);
      ghost var left :| WalkBack(nodes, h, left).None?;
      while hash in nodes && nodes[hash].prevHash.Some? && nodes[hash].prevHash.value in nodes
        invariant |chain| > 0 && chain[|chain| - 1] == hash
        invariant forall k :: 0 <= k < |chain| ==> WalkBack(nodes, h, k) == Some(chain[k])
        invariant WalkBack(nodes, hash, left).None?
        decreases left
      {
        WalkJoins(nodes, h, |chain| - 1, 1);
        var parent := nodes[hash].prevHash.value;
        assert WalkBack(nodes, hash, 1) == WalkBack(nodes, parent, 0);
        chain := chain + [parent];
        hash := parent;
        left := left - 1;
      }
      WalkJoins(nodes, h, |chain| - 1, 1);
      assert WalkBack(nodes, hash, 1) == None;
    }

    /** The scan visits the hash map's entries in an arbitrary order. */
    method RecomputeBestTip()
      requires WellFormed(nodes)
      modifies this`bestTip
      ensures IsBest(nodes, blacklist, bestTip)
    {
      bestTip := None;
      var unseen := nodes.Keys;
      while unseen != {}
        invariant unseen <= nodes.Keys
        invariant IsBestAmong(nodes, blacklist, nodes.Keys - unseen, bestTip)
      {
        var hash :| hash in unseen;
        var seen := nodes.Keys - unseen;
        unseen := unseen - {hash};
        assert nodes.Keys - unseen == seen + {hash};
        var tainted := IsBlacklisted(hash);
        if !tainted && BeatsBestTip(nodes[hash].blockNumber, hash) {
          bestTip := Some((nodes[hash].point, nodes[hash].blockNumber));
        }
      }
      assert nodes.Keys - {} == nodes.Keys;
    }

    method UpdateBestTip(point: Point, blockNumber: nat, hash: Hash) returns (isNewBest: bool)
      requires WellFormed(nodes) && hash in nodes
      requires nodes[hash].point == point && nodes[hash].blockNumber == blockNumber
      requires IsBest(nodes - {hash}, blacklist, bestTip)
      modifies this`bestTip
      ensures IsBest(nodes, blacklist, bestTip)
      ensures isNewBest <==> bestTip == Some((point, blockNumber))
    {
      ghost var before := nodes - {hash};
      assert nodes == before[hash := nodes[hash]];
      forall g | g in before
        ensures Eligible(nodes, blacklist, g) ==> Eligible(before, blacklist, g)
        ensures Clean(nodes, blacklist, hash) && Eligible(before, blacklist, g) ==> Eligible(nodes, blacklist, g)
      {
        InsertKeepsEligibility(before, blacklist, hash, nodes[hash], g);
      }
      var tainted := IsBlacklisted(hash);
      if tainted {
        if BestTipHash().Some? {
          var tipTainted := IsBlacklisted(BestTipHash().value);
          if tipTainted {
            RecomputeBestTip();
          }
        }
        return false;
      }
      isNewBest := BeatsBestTip(blockNumber, hash);
      if isNewBest {
        bestTip := Some((point, blockNumber));
      }
    }

    method InsertNode(hash: Hash, node: ChainNode) returns (isNewBest: bool)
      requires Valid()
      requires hash !in nodes ==> WellFormed(nodes[hash := node])
      modifies this`nodes, this`bestTip
      ensures Valid()
      ensures nodes == if hash in old(nodes) then old(nodes) else old(nodes)[hash := node]
      ensures isNewBest <==> hash !in old(nodes) && bestTip == Some((node.point, node.blockNumber))
    {
      if hash in nodes {
        return false;
      }
      nodes := nodes[hash := node];
      assert nodes - {hash} == old(nodes);
      isNewBest := UpdateBestTip(node.point, node.blockNumber, hash);
    }

    method Insert(hash: Hash, point: Point, blockNumber: nat, slot: nat, prevHash: Option<Hash>,
                  txCount: nat, announcedEb: Option<Hash>, certifiedEb: bool)
      returns (isNewBest: bool)
      requires Valid()
      requires var node := ChainNode(point, Normal, blockNumber, slot, prevHash, txCount, announcedEb, certifiedEb);
               hash !in nodes ==> WellFormed(nodes[hash := node])
      modifies this`nodes, this`bestTip
      ensures Valid()
      ensures var node := ChainNode(point, Normal, blockNumber, slot, prevHash, txCount, announcedEb, certifiedEb);
              nodes == if hash in old(nodes) then old(nodes) else old(nodes)[hash := node]
      ensures isNewBest <==> hash !in old(nodes) && bestTip == Some((point, blockNumber))
    {
      isNewBest := InsertNode(
        hash, ChainNode(point, Normal, blockNumber, slot, prevHash, txCount, announcedEb, certifiedEb));
    }

    method InsertChainStart(hash: Hash, point: Point, slot: nat, blockNumber: nat) returns (isNewBest: bool)
      requires Valid()
      requires var node := ChainNode(point, ChainStart, blockNumber, slot, None, 0, None, false);
               hash !in nodes ==> WellFormed(nodes[hash := node])
      modifies this`nodes, this`bestTip
      ensures Valid()
      ensures var node := ChainNode(point, ChainStart, blockNumber, slot, None, 0, None, false);
              nodes == if hash in old(nodes) then old(nodes) else old(nodes)[hash := node]
      ensures isNewBest <==> hash !in old(nodes) && bestTip == Some((point, blockNumber))
    {
      isNewBest := InsertNode(hash, ChainNode(point, ChainStart, blockNumber, slot, None, 0, None, false));
    }

    method UpdateBlacklist(hashes: seq<Hash>)
      requires Valid()
      modifies this`blacklist, this`bestTip
      ensures Valid()
      ensures blacklist == set h | h in hashes
    {
      var fresh' := set h | h in hashes;
      if blacklist == fresh' {
        return;
      }
      blacklist := fresh';
      RecomputeBestTip();
    }

    /** The cache stays right exactly when the guard for the rescan covers every block that pruning
        would make the tip. */
    method PruneBelow(minBlockNumber: nat)
      requires Valid()
      modifies this`nodes, this`bestTip
      ensures nodes == KeepFrom(old(nodes), minBlockNumber) && WellFormed(nodes)
      ensures Valid() <==> PruneIsExact(old(nodes), blacklist, minBlockNumber)
      ensures (forall b :: !CutOff(old(nodes), blacklist, minBlockNumber, b)) ==> Valid()
      ensures StrictHeights(old(nodes)) ==> Valid()
      ensures !Valid() ==> bestTip == old(bestTip)
    {
      hide Clean, Freed, CutOff;
      StrictHeightsWillDo(nodes, blacklist, minBlockNumber);
      NoCutOffWillDo(nodes, blacklist, minBlockNumber);
      var prunedBlacklisted := exists h :: h in nodes && nodes[h].blockNumber < minBlockNumber && h in blacklist;
      nodes := RetainMap(nodes, (_: Hash, node: ChainNode) => node.blockNumber >= minBlockNumber);
      assert nodes == KeepFrom(old(nodes), minBlockNumber);
      PartKeeps(nodes, old(nodes), blacklist);
      var pruned := bestTip.Some? && bestTip.value.1 < minBlockNumber;
      TipIsPrunedIff(old(nodes), blacklist, minBlockNumber, bestTip);
      if pruned || prunedBlacklisted {
        RecomputeBestTip();
      } else {
        CacheSurvivesIff(old(nodes), blacklist, minBlockNumber, bestTip);
      }
    }

    method RemoveAbove(blockNumber: nat)
      requires Valid()
      modifies this`nodes, this`bestTip
      ensures Valid()
      ensures nodes == KeepUpTo(old(nodes), blockNumber)
    {
      var before := |nodes|;
      nodes := RetainMap(nodes, (_: Hash, node: ChainNode) => node.blockNumber <= blockNumber);
      assert nodes == KeepUpTo(old(nodes), blockNumber);
      PartKeeps(nodes, old(nodes), blacklist);
      if |nodes| != before {
        RecomputeBestTip();
      } else {
        SameSizeSubmap(nodes, old(nodes));
      }
    }
  }

  lemma SameSizeSubmap(kept: Nodes, nodes: Nodes)
    requires kept.Keys <= nodes.Keys && |kept| == |nodes|
    requires forall h :: h in kept ==> kept[h] == nodes[h]
    ensures kept == nodes
  {
    assert nodes.Keys == kept.Keys + (nodes.Keys - kept.Keys);
    assert |nodes.Keys| == |kept.Keys| + |nodes.Keys - kept.Keys|;
  }

  // ---------------------------------------------------------------------------
  // Whole runs
  // ---------------------------------------------------------------------------

  datatype Op =
    | InsertBlock(hash: Hash, point: Point, blockNumber: nat, slot: nat, prevHash: Option<Hash>,
                  txCount: nat, announcedEb: Option<Hash>, certifiedEb: bool)
    | InsertStart(hash: Hash, point: Point, slot: nat, blockNumber: nat)
    | SetBlacklist(hashes: seq<Hash>)
    | Prune(minBlockNumber: nat)
    | Rollback(maxBlockNumber: nat)

  /** Everything about a tree except its cache. */
  datatype Content = Content(nodes: Nodes, blacklist: set<Hash>)

  const EMPTY := Content(map[], {})

  predicate IsInsert(op: Op) {
    op.InsertBlock? || op.InsertStart?
  }

  function NodeOf(op: Op): ChainNode
    requires IsInsert(op)
  {
    match op
    case InsertBlock(_, point, blockNumber, slot, prevHash, txCount, announcedEb, certifiedEb) =>
      ChainNode(point, Normal, blockNumber, slot, prevHash, txCount, announcedEb, certifiedEb)
    case InsertStart(_, point, slot, blockNumber) =>
      ChainNode(point, ChainStart, blockNumber, slot, None, 0, None, false)
  }

  function Step(c: Content, op: Op): Content {
    match op
    case SetBlacklist(hashes) => c.(blacklist := set h | h in hashes)
    case Prune(min) => c.(nodes := KeepFrom(c.nodes, min))
    case Rollback(max) => c.(nodes := KeepUpTo(c.nodes, max))
    case _ => if op.hash in c.nodes then c else c.(nodes := c.nodes[op.hash := NodeOf(op)])
  }

  function Run(c: Content, ops: seq<Op>): Content
    decreases |ops|
  {
    if ops == [] then c else Run(Step(c, ops[0]), ops[1..])
  }

  /** The step leaves the cached tip right. */
  ghost predicate StepIsExact(c: Content, op: Op) {
    op.Prune? ==> PruneIsExact(c.nodes, c.blacklist, op.minBlockNumber)
  }

  ghost predicate StaysExact(c: Content, ops: seq<Op>)
    decreases |ops|
  {
    WellFormed(c.nodes) && (ops == [] || (StepIsExact(c, ops[0]) && StaysExact(Step(c, ops[0]), ops[1..])))
  }

  ghost predicate StaysStrict(c: Content, ops: seq<Op>)
    decreases |ops|
  {
    && (forall h :: h in c.nodes ==> c.nodes[h].point.Specific? && c.nodes[h].point.hash == h)
    && StrictHeights(c.nodes)
    && (ops == [] || StaysStrict(Step(c, ops[0]), ops[1..]))
  }

  lemma {:induction false} StrictWalkEnds(nodes: Nodes, h: Hash) returns (k: nat)
    requires StrictHeights(nodes)
    ensures WalkBack(nodes, h, k).None?
    decreases if h in nodes then nodes[h].blockNumber else 0
  {
    k := 0;
    if VisibleParent(nodes, h).Some? {
      k := StrictWalkEnds(nodes, VisibleParent(nodes, h).value);
    }
    k := k + 1;
  }

  /** In a run whose heights are always strict every step is exact. */
  lemma {:induction false} StrictRunsAreExact(c: Content, ops: seq<Op>)
    requires StaysStrict(c, ops)
    ensures StaysExact(c, ops)
    decreases |ops|
  {
    forall h
      ensures WalkEnds(c.nodes, h)
    {
      var k := StrictWalkEnds(c.nodes, h);
    }
    if ops != [] {
      if ops[0].Prune? {
        StrictHeightsSuffice(c.nodes, c.blacklist, ops[0].minBlockNumber);
      }
      StrictRunsAreExact(Step(c, ops[0]), ops[1..]);
    }
  }

  method Apply(tree: ChainTree, op: Op)
    requires tree.Valid()
    requires WellFormed(Step(Content(tree.nodes, tree.blacklist), op).nodes)
    modifies tree
    ensures tree.Valid() <==> StepIsExact(old(Content(tree.nodes, tree.blacklist)), op)
    ensures Content(tree.nodes, tree.blacklist) == Step(old(Content(tree.nodes, tree.blacklist)), op)
  {
    hide PruneIsExact, IsBest, WellFormed;
    match op
    case InsertBlock(hash, point, blockNumber, slot, prevHash, txCount, announcedEb, certifiedEb) =>
      var _ := tree.Insert(hash, point, blockNumber, slot, prevHash, txCount, announcedEb, certifiedEb);
    case InsertStart(hash, point, slot, blockNumber) =>
      var _ := tree.InsertChainStart(hash, point, slot, blockNumber);
    case SetBlacklist(hashes) =>
      tree.UpdateBlacklist(hashes);
    case Prune(min) =>
      tree.PruneBelow(min);
    case Rollback(max) =>
      tree.RemoveAbove(max);
  }

  /** After every run the cached tip is the full scan's answer, if every prune on the way is exact. */
  method Replay(ops: seq<Op>) returns (tree: ChainTree)
    requires StaysExact(EMPTY, ops)
    ensures fresh(tree) && tree.Valid()
    ensures Content(tree.nodes, tree.blacklist) == Run(EMPTY, ops)
  {
    hide StepIsExact, IsBest;
    tree := new ChainTree();
    for i := 0 to |ops|
      invariant fresh(tree) && tree.Valid()
      invariant StaysExact(Content(tree.nodes, tree.blacklist), ops[i..])
      invariant Run(Content(tree.nodes, tree.blacklist), ops[i..]) == Run(EMPTY, ops)
    {
      assert ops[i..][1..] == ops[i + 1..];
      Apply(tree, ops[i]);
    }
  }

  function Inserts(blocks: map<Hash, Op>, order: seq<Hash>): seq<Op>
    requires forall h :: h in order ==> h in blocks
  {
    seq(|order|, i requires 0 <= i < |order| => blocks[order[i]])
  }

  function NodesOf(blocks: map<Hash, Op>): Nodes
    requires forall h :: h in blocks ==> IsInsert(blocks[h])
  {
    map h | h in blocks :: NodeOf(blocks[h])
  }

  ghost predicate BlockSet(blocks: map<Hash, Op>) {
    && (forall h :: h in blocks ==> IsInsert(blocks[h]) && blocks[h].hash == h)
    && WellFormed(NodesOf(blocks))
  }

  /** Inserting blocks in any order, with any repetitions, ends with the same content. */
  lemma {:induction false} InsertsBuild(blocks: map<Hash, Op>, order: seq<Hash>, c: Content)
    requires BlockSet(blocks)
    requires forall h :: h in order ==> h in blocks
    requires DrawnFrom(c.nodes, blocks)
    ensures StaysExact(c, Inserts(blocks, order))
    ensures Run(c, Inserts(blocks, order)).blacklist == c.blacklist
    ensures DrawnFrom(Run(c, Inserts(blocks, order)).nodes, blocks)
    ensures forall h :: h in Run(c, Inserts(blocks, order)).nodes <==> h in c.nodes || h in order
  {
    hide WellFormed, NodeOf;
    DrawnIsWellFormed(c.nodes, blocks);
    if order != [] {
      var ops := Inserts(blocks, order);
      assert order[0] in order && ops[0] == blocks[order[0]];
      assert ops[1..] == Inserts(blocks, order[1..]);
      assert forall h :: h in order <==> h == order[0] || h in order[1..];
      InsertsBuild(blocks, order[1..], Step(c, ops[0]));
    }
  }

  /** The nodes are among the blocks' nodes. */
  ghost predicate DrawnFrom(nodes: Nodes, blocks: map<Hash, Op>)
    requires forall h :: h in blocks ==> IsInsert(blocks[h])
  {
    forall h :: h in nodes ==> h in blocks && nodes[h] == NodeOf(blocks[h])
  }

  lemma DrawnIsWellFormed(nodes: Nodes, blocks: map<Hash, Op>)
    requires BlockSet(blocks) && DrawnFrom(nodes, blocks)
    ensures WellFormed(nodes)
  {
    PartKeeps(nodes, NodesOf(blocks), {});
  }

  /** Any two arrival orders of the same blocks, under the same blacklist, give the same tip. */
  method AnyOrderSameTip(blocks: map<Hash, Op>, banned: seq<Hash>, order: seq<Hash>, order': seq<Hash>)
    returns (tree: ChainTree, tree': ChainTree)
    requires BlockSet(blocks)
    requires (set h | h in order) == blocks.Keys && (set h | h in order') == blocks.Keys
    ensures tree.Valid() && tree'.Valid()
    ensures tree.nodes == NodesOf(blocks) && tree'.nodes == NodesOf(blocks)
    ensures tree.bestTip == tree'.bestTip
  {
    tree := InsertAll(blocks, banned, order);
    tree' := InsertAll(blocks, banned, order');
    BestIsUnique(tree.nodes, tree.blacklist, tree.bestTip, tree'.bestTip);
  }

  method InsertAll(blocks: map<Hash, Op>, banned: seq<Hash>, order: seq<Hash>) returns (tree: ChainTree)
    requires BlockSet(blocks) && (set h | h in order) == blocks.Keys
    ensures fresh(tree) && tree.Valid()
    ensures tree.nodes == NodesOf(blocks) && tree.blacklist == set h | h in banned
  {
    assert forall h :: h in order <==> h in (set g | g in order);
    var ops := [SetBlacklist(banned)] + Inserts(blocks, order);
    assert ops[1..] == Inserts(blocks, order);
    InsertsBuild(blocks, order, Step(EMPTY, ops[0]));
    tree := Replay(ops);
  }

  // ---------------------------------------------------------------------------
  // A prune that is not exact
  // ---------------------------------------------------------------------------

  /** The second block is lower than its parent, the first. */
  const SAGGING: map<Hash, Op> := map[
    1 := InsertBlock(1, Specific(0, 1), 5, 0, None, 0, None, false),
    2 := InsertBlock(2, Specific(1, 2), 1, 1, Some(1), 0, None, false),
    3 := InsertBlock(3, Specific(2, 3), 9, 2, Some(2), 0, None, false)]

  /** With the first block blacklisted, pruning the second cuts the third off without pruning the
      first, so no rescan happens: the cached `None`, right before, misses the third block. */
  method PruneLeavesStaleTip() returns (tree: ChainTree, before: Nodes, cached: Tip)
    ensures tree.blacklist == {1} && WellFormed(before) && IsBest(before, {1}, cached)
    ensures tree.nodes == KeepFrom(before, 2) && tree.bestTip == cached == None
    ensures WellFormed(tree.nodes) && Eligible(tree.nodes, {1}, 3) && !tree.Valid()
  {
    hide BlockSet, NodesOf, Clean, PruneIsExact, WellFormed, KeepFrom, CutOff;
    SaggingIsBlockSet();
    SaggingIsTainted();
    tree := InsertAll(SAGGING, [1], [1, 2, 3]);
    before, cached := tree.nodes, tree.bestTip;
    assert tree.blacklist == {1};
    BestIsUnique(tree.nodes, {1}, cached, None);
    tree.PruneBelow(2);
  }

  lemma SaggingIsBlockSet()
    ensures BlockSet(SAGGING) && (set h | h in [1, 2, 3]) == SAGGING.Keys
  {
    var nodes := NodesOf(SAGGING);
    forall h
      ensures WalkEnds(nodes, h)
    {
      assert WalkBack(nodes, 1, 1).None?;
      assert WalkBack(nodes, 2, 2).None?;
      assert WalkBack(nodes, 3, 3).None?;
      assert h !in nodes ==> WalkBack(nodes, h, 1).None?;
    }
  }

  lemma SaggingIsTainted()
    requires BlockSet(SAGGING)
    ensures IsBest(NodesOf(SAGGING), {1}, None)
    ensures forall h :: h in SAGGING && NodesOf(SAGGING)[h].blockNumber < 2 ==> h != 1
    ensures Eligible(KeepFrom(NodesOf(SAGGING), 2), {1}, 3)
    ensures !PruneIsExact(NodesOf(SAGGING), {1}, 2)
  {
    hide Clean;
    var nodes, kept := NodesOf(SAGGING), KeepFrom(NodesOf(SAGGING), 2);
    CleanUnfolds(nodes, {1}, 1);
    CleanUnfolds(nodes, {1}, 2);
    CleanUnfolds(nodes, {1}, 3);
    CleanUnfolds(kept, {1}, 3);
    FreedIff(nodes, {1}, 2, 3);
    assert Overtakes(nodes, {1}, 2, 3);
  }
}
