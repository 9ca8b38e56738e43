# Leios consensus core and ledger codec, in Dafny

A model of the deterministic core of a Leios node and of the era-8 ledger codec next to it, with proofs of what
the two promise. `dafny verify dfyconfig.toml` checks the whole project.

| component | modules |
|---|---|
| chain tree with a cached best tip | `ChainTree` |
| mempool, replay filter, EB closures, body selection | `Queue`, `MempoolModel`, `MempoolRuns`, `EbRetention`, `Mempool`, `Production` |
| committee, elections, quorum, votes | `Committee`, `StakeRanking`, `StakeCentile`, `CommitteeModes`, `ElectionsModel`, `ElectionsRuns`, `Quorum`, `ElectionState`, `VotingModel`, `VotingRuns`, `VotingOnce`, `VotingBacked`, `NodeElections`, `LeiosVoting` |
| EB and EB-tx fetch | `Bitmap`, `FetchModel`, `FetchRuns`, `FetchPruning`, `FetchPolicies`, `EbTxMatch`, `EbTxRepeats`, `LeiosFetch` |
| CBOR boundary | `Cbor`, `CborTokens`, `CborDecoder`, `Transaction`, `TransactionForms`, `TransactionCodec`, `Header`, `HeaderEncoding`, `HeaderAgreement`, `HeaderCodec`, `Block`, `BlockRoundTrip`, `BlockCodec`, `EbManifest` |
| shared | `Types`, `Collections`, `Ordered`, `Sums` |

Code that works in place is a class or a method with the source's loops (`Mempool`, `LeiosFetch`, `LeiosVoting`,
`ElectionState`, the `...Codec` modules, `ChainTree`), proved against a function on values; the statements about whole
runs are about those functions. A class keeps its fields as one record, so that each method states its whole new state.

Modelling choices:

- A digest is the number its 32 bytes denote, which keeps order and equality; node and peer ids are numbers.
- Fractions are reals, sums and sizes unbounded naturals, instants nanoseconds. Random draws, non-persistent lottery
  outcomes, Blake2b and fetch policies are parameters.
- The control signal is its transaction-withholding and vote-abstention policies; the rest of it is honest.
- `HashMap` scans go through the entries in an arbitrary order; `BTreeMap` iteration is ascending.
- A voter is one id: the source deduplicates votes on the raw bytes of the id and looks the weight up by their lossy UTF-8
  reading. The model merges the two, which agree for valid UTF-8.
- Parent links in the chain tree are acyclic, without which the ancestry walks would not end.
- CBOR follows sections 3.1 to 3.3 of RFC 8949. A decoder that skips at a break consumes that one byte, as the codec
  relies on. `minicbor` itself is not part of this model.

Where code and comments disagree the model follows the code. `voter_id_at` is documented as registry order by node id;
the code ranks by stake descending and node id ascending. `NoVote` is documented as fired at most once per EB; the code
leaves an election open for retry after most refusals. The voting predicates are documented to treat a missing tip as
`WrongEB`; the code answers `NoChainTip`.

Properties that do not hold in general, with the condition under which they do:

- Reading a packed bitmap back: only for indices below 2^22 (`Bitmap.RoundTripIffFits`, `Bitmap.PastLimitReadsBackWrong`).
- `select_all(n)` as packing 0..n: only up to 2^22 or for multiples of 64 (`Bitmap.SelectAllIffNoWrap`,
  `Bitmap.PastLimitSelectsLess`).
- A validated stake-centile configuration can reach quorum: only if the cutoff reaches the rounded-up threshold
  (`Quorum.ReachableIff`, `Quorum.ValidationIsNotEnough`).
- The lenient header parser reads what the strict one accepts: only for a definite header body array
  (`HeaderAgreement.StrictImpliesLenient`, `HeaderEncoding.IndefiniteBodySplitsTheParsers`).
- Pruning the chain tree keeps the cached tip right: only if the rescan guard fires or no block freed by the prune beats
  the kept ones (`ChainTree.ChainTree.PruneBelow`, `ChainTree.CacheSurvivesIff`); strict heights suffice
  (`ChainTree.StrictHeightsSuffice`), and `insert` does not check them (`ChainTree.PruneLeavesStaleTip`).
- At most one vote per announcing block: only while no block that was voted for and pruned is adopted again
  (`VotingOnce.BarredIffNeverReopened`, `VotingOnce.BlockVotedTwice`); advancing tips suffice
  (`VotingOnce.NoBlockVotedTwice`).
- A response settles every position it serves: only if no served hash comes again later in the manifest, which its
  decoder does not check (`EbTxMatch.RoundTrip`, `EbTxRepeats.ServedButNotSettled`). A repeated position stays requested
  (`EbTxRepeats.RepeatStaysRequested`).

## Model

| member | source | states |
|---|---|---|
| `ChainTree.BestIsUnique` | shared-rs/consensus/src/chain_tree.rs:64-75 | two tips that are each the `IsBetterTip` maximum over the eligible nodes are equal, so the content of a tree fixes its tip |
| `ChainTree.InsertKeepsEligibility` | shared-rs/consensus/src/chain_tree.rs:187-207 | filling a gap never frees a node, and taints one only if the inserted node is tainted: what lets insertion skip the rescan |
| `ChainTree.PruneKeepsEligibilityIff` | shared-rs/consensus/src/chain_tree.rs:405-426 | pruning leaves the eligibility of every kept block as it was if and only if no kept block that is not blacklisted has a pruned, tainted parent |
| `ChainTree.FreedIff` | shared-rs/consensus/src/chain_tree.rs:405-426 | the kept blocks that pruning makes eligible are exactly those with such a cut-off block on a clean kept ancestry |
| `ChainTree.CacheSurvivesIff` | shared-rs/consensus/src/chain_tree.rs:405-426 | without a rescan the cached tip is still right if and only if no freed block beats every kept block that was eligible before |
| `ChainTree.StrictHeightsSuffice` | shared-rs/consensus/src/chain_tree.rs:405-426 | with heights strict along links pruning is always exact, since a lost blacklisted ancestor is itself pruned |
| `ChainTree.ChainTree.IsBlacklisted` | shared-rs/consensus/src/chain_tree.rs:161-180 | walking parents answers true exactly when some visible ancestor, or the node, is blacklisted |
| `ChainTree.ChainTree.AncestorsOf` | shared-rs/consensus/src/chain_tree.rs:504-516 | the result is the whole walk back from the block: position k is k links back, and nothing lies beyond the last |
| `ChainTree.ChainTree.RecomputeBestTip` | shared-rs/consensus/src/chain_tree.rs:446-465 | a scan in any order finds the maximum over the eligible nodes, and none if there is none |
| `ChainTree.ChainTree.UpdateBestTip` | shared-rs/consensus/src/chain_tree.rs:187-207 | the incremental update after one insertion leaves the cached tip equal to a full scan |
| `ChainTree.ChainTree.Insert` | shared-rs/consensus/src/chain_tree.rs:256-288 | insertion keeps the cache exact; a known hash changes nothing; the result says whether the new block is the tip |
| `ChainTree.ChainTree.InsertChainStart` | shared-rs/consensus/src/chain_tree.rs:217-245 | the same for a chain start, which has no parent |
| `ChainTree.ChainTree.UpdateBlacklist` | shared-rs/consensus/src/chain_tree.rs:143-153 | replacing the blacklist keeps the cache exact |
| `ChainTree.ChainTree.PruneBelow` | shared-rs/consensus/src/chain_tree.rs:405-426 | pruning keeps exactly the nodes from the height up; the cache is right afterwards if and only if the rescan guard fires or no freed block would be the tip, and always when nothing is cut off or heights are strict |
| `ChainTree.PruneLeavesStaleTip` | shared-rs/consensus/src/chain_tree.rs:405-426 | three blocks, the second lower than its blacklisted parent: the cached tip is right before the prune and misses an eligible block after it |
| `ChainTree.ChainTree.RemoveAbove` | shared-rs/consensus/src/chain_tree.rs:433-440 | rollback keeps exactly the nodes up to the height and keeps the cache exact |
| `ChainTree.Apply` | shared-rs/consensus/src/chain_tree.rs:143-465 | one operation in place is one step on the content, and leaves the cache right if and only if the step is exact |
| `ChainTree.Replay` | shared-rs/consensus/src/chain_tree.rs:143-465 | after every run of the five operations on acyclic links, heights strict or not, the cached tip is the answer of a full scan, provided each prune on the way is exact |
| `ChainTree.StrictRunsAreExact` | shared-rs/consensus/src/chain_tree.rs:143-465 | runs whose heights are always strict need no such proviso |
| `ChainTree.InsertsBuild` | shared-rs/consensus/src/chain_tree.rs:256-288 | inserting blocks in any order, with repeats, ends with the same nodes |
| `ChainTree.AnyOrderSameTip` | shared-rs/consensus/src/chain_tree.rs:256-288 | any two arrival orders of the same blocks give the same tip |
| `MempoolModel.RunKeepsInv` | shared-rs/consensus/src/mempool.rs:236-292 | every run keeps: distinct queue ids equal to the index, the byte counter equal to the sum of sizes, length at most max(1, capacity), owed and advertised a partition of the queue for every registered peer, and the replay filter equal to its order queue, bounded and disjoint from the queue |
| `MempoolModel.HasTxIffBody` | shared-rs/consensus/src/mempool.rs:887-889 | under the invariant a tx is known exactly when its body resolves |
| `MempoolModel.AdmitKeepsInv` | shared-rs/consensus/src/mempool.rs:970-1015 | admission, with eviction when full, keeps every invariant |
| `MempoolModel.BlockAppliedKeepsInv` | shared-rs/consensus/src/mempool.rs:405-450 | applying a block keeps every invariant |
| `MempoolModel.ProduceSelectedKeepsInv` | shared-rs/consensus/src/mempool.rs:824-834 | committing a selected manifest keeps every invariant |
| `MempoolRuns.PeekIsExact` | shared-rs/consensus/src/mempool.rs:551-622 | peek returns min(max_count, owed txs that pass the filter) txs, exactly the least such ids, each from the queue |
| `MempoolRuns.NeverRepeats` | shared-rs/consensus/src/mempool.rs:551-622 | a tx advertised to a peer is not returned to it again while it stays queued and the peer stays registered |
| `MempoolRuns.PeekAnnounces` | shared-rs/consensus/src/mempool.rs:551-622 | what peek returns is advertised afterwards |
| `MempoolRuns.ReconnectStartsOver` | shared-rs/consensus/src/mempool.rs:464-467 | a forgotten peer that peeks again gets the least ids of the whole sendable queue, whatever it was sent before |
| `MempoolRuns.FilterIsLastWindow` | shared-rs/consensus/src/mempool.rs:405-459 | across any run, rollbacks included, the replay filter is the last 65,536 of the ids ever appended |
| `MempoolRuns.NoEarlyReentry` | shared-rs/consensus/src/mempool.rs:970-983 | an applied id is refused admission until 65,536 further ids have been appended |
| `MempoolRuns.WindowExpires` | shared-rs/consensus/src/mempool.rs:405-459 | after 65,536 further ids, none of them itself, it is out of the filter again |
| `EbRetention.ClosureSurvives` | shared-rs/consensus/src/mempool.rs:942-968 | a manifest that stays in the window or protected and is not re-produced, and every body pinned for it, survive any run unchanged |
| `EbRetention.ProtectedClosureSurvives` | shared-rs/consensus/src/mempool.rs:840-843 | the closure of the protected chain tip survives any run that neither moves the protection nor re-produces its key, however far slots advance |
| `EbRetention.StepReports` | shared-rs/consensus/src/mempool.rs:942-968 | each operation reports exactly the pinned bodies that leave, once each |
| `EbRetention.PinnedIsConserved` | shared-rs/consensus/src/mempool.rs:942-968 | over a run, pinnings equal what is still pinned plus one report per departure |
| `EbRetention.MergedBodyResolves` | shared-rs/consensus/src/mempool.rs:876-882 | after a merge the tx has a body, the fetched one unless there was one, and every other lookup is as before |
| `EbRetention.MergeShrinksMissing` | shared-rs/consensus/src/mempool.rs:876-882 | what a manifest lacks shrinks by exactly the merged tx |
| `Mempool.MempoolState.AdmitValidated` | shared-rs/consensus/src/mempool.rs:380-398 | in-place admission reaches the state and effects of the value-level operation |
| `Mempool.MempoolState.OnBlockApplied` | shared-rs/consensus/src/mempool.rs:405-450 | in-place application, with its incremental replay filter, reaches the value-level state |
| `Mempool.MempoolState.PeekUnannouncedForPeer` | shared-rs/consensus/src/mempool.rs:551-622 | the filtered scan, the move between the peer sets and the one-pass body lookup reach the value-level state and result |
| `Mempool.MempoolState.MarkAnnouncedToPeer` | shared-rs/consensus/src/mempool.rs:629-655 | the single-tx variant reaches the value-level state and result |
| `Mempool.MempoolState.DrainUpTo` | shared-rs/consensus/src/mempool.rs:661-682 | popping from the front takes the byte-capped prefix and reaches the value-level state |
| `Mempool.MempoolState.DrainAll` | shared-rs/consensus/src/mempool.rs:685-693 | draining all empties queue, index, counter and peer sets |
| `Mempool.MempoolState.ProduceEb` | shared-rs/consensus/src/mempool.rs:789-819 | popping, pinning and recording reach the value-level state, manifest and effects |
| `Mempool.MempoolState.ProduceSelectedEb` | shared-rs/consensus/src/mempool.rs:824-834 | retaining, pinning and recording reach the value-level state and effects |
| `Mempool.MempoolState.PruneEbSlotWindow` | shared-rs/consensus/src/mempool.rs:942-968 | the two retain passes reach the value-level state and report the dropped bodies in id order |
| `Mempool.MempoolState.ProtectChainTipEb` | shared-rs/consensus/src/mempool.rs:840-843 | moving the protection and pruning reach the value-level state and effects |
| `Mempool.MempoolState.RecordEbManifest` | shared-rs/consensus/src/mempool.rs:853-856 | the first writer wins; slot bump and prune reach the value-level state |
| `Mempool.MempoolState.PinEbTransactions` | shared-rs/consensus/src/mempool.rs:858-868 | the loop pins the queued txs of a manifest, keeping bodies already pinned |
| `Mempool.MempoolState.Perform` | shared-rs/consensus/src/mempool.rs:405-968 | each operation, performed in place, is the corresponding step of the value-level run |
| `Production.DecideExcluding` | shared-rs/consensus/src/production.rs:116-177 | the in-place decision reaches the value-level pool and body path |
| `Production.CollectManifest` | shared-rs/consensus/src/production.rs:146-163 | the byte-counting loop takes the capped prefix |
| `Production.UncertifiedConserves` | shared-rs/consensus/src/production.rs:116-177 | without a certificate inline followed by the remaining queue is the old queue; inline and manifest are each within their cap or a single oversize tx |
| `Production.UncertifiedCommit` | shared-rs/consensus/src/mempool.rs:789-819 | producing an EB of the manifest's length yields exactly the announced manifest, and under a retained key leaves every manifest body resolvable, unchanged |
| `Production.CertifiedSelects` | shared-rs/consensus/src/production.rs:116-177 | with a certificate nothing is drained and the manifest is the capped front of the non-excluded queue |
| `Production.SelectedCommit` | shared-rs/consensus/src/mempool.rs:824-834 | under a fresh retained key a selected commit removes exactly the manifest and keeps the rest in order |
| `Production.SelectedBodiesResolve` | shared-rs/consensus/src/mempool.rs:824-834 | and leaves every manifest body resolvable, unchanged |
| `Bitmap.FromIndices` | shared-rs/consensus/src/bitmap.rs:35-43 | the loop builds the map the recursive definition gives |
| `Bitmap.PackedSelects` | shared-rs/consensus/src/bitmap.rs:35-43 | a packed list selects index i exactly when some element equals i modulo 2^22 |
| `Bitmap.RoundTripIffFits` | shared-rs/consensus/src/bitmap.rs:35-85 | packing and reading back gives the set of the list if and only if every index is below 2^22 |
| `Bitmap.EmptyIffNothingSelected` | shared-rs/consensus/src/bitmap.rs:35-43 | a packed map is empty exactly when it selects nothing |
| `Bitmap.IterIndices` | shared-rs/consensus/src/bitmap.rs:72-85 | segments upward and bits downward list the selected indices in ascending order |
| `Bitmap.SelectAll` | shared-rs/consensus/src/bitmap.rs:46-60 | the loop and the partial last segment build the map of full segments |
| `Bitmap.SelectAllIffNoWrap` | shared-rs/consensus/src/bitmap.rs:46-60 | select_all(n) equals packing 0..n if and only if n is at most 2^22 or a multiple of 64 |
| `Bitmap.PastLimitReadsBackWrong` | shared-rs/consensus/src/bitmap.rs:30-43 | the index 2^22 reads back as 0 |
| `Bitmap.PastLimitSelectsLess` | shared-rs/consensus/src/bitmap.rs:46-60 | select_all(2^22 + 1) loses index 1, which packing 0..n selects |
| `FetchPolicies.StockPoliciesChooseAmongCandidates` | shared-rs/consensus/src/fetch.rs:137-199 | both stock policies pick among their candidates |
| `FetchPolicies.BroadcastPicksNearest` | shared-rs/consensus/src/fetch.rs:190-198 | a broadcast takes the first n of the candidates sorted by round-trip time |
| `FetchPolicies.SortByRtt` | shared-rs/consensus/src/fetch.rs:190-198 | the sort is a permutation ordered by round-trip time, unmeasured peers last |
| `FetchRuns.StepPending` | shared-rs/consensus/src/leios.rs:1047-1068 | pending requests are exactly those asked and not resolved, and a pending peer is never asked |
| `FetchRuns.AskedOnce` | shared-rs/consensus/src/leios.rs:1036-1068 | between asking a peer for an EB and that peer's resolution no step of the run asks it again, TTL expiry included |
| `FetchRuns.GateHeldWhilePending` | shared-rs/consensus/src/fetch.rs:421-434 | one peer's resolution never opens the gate while another is pending |
| `FetchRuns.RunKeepsWavesBounded` | shared-rs/consensus/src/leios.rs:1110-1138 | no point is ever on a later wave than the limit |
| `FetchRuns.RetryNamesFreshPeers` | shared-rs/consensus/src/leios.rs:1513-1547 | a retry names at least one peer, all of them offerers not asked in the current wave |
| `FetchRuns.RetriesAreBounded` | shared-rs/consensus/src/leios.rs:1513-1547 | while the offering peers stay the same the retry effects of a run never exceed the unasked peers of this wave plus all offerers of each wave left |
| `FetchRuns.RetriesFromFirstWave` | shared-rs/consensus/src/leios.rs:1110-1161 | from the first wave on that is at most waves times offering peers |
| `FetchRuns.ReceptionOpensGate` | shared-rs/consensus/src/leios.rs:1312-1334 | after a response the next request for the EB goes out exactly when something is missing and the policy finds a peer not asked in this wave |
| `FetchPruning.PruneIsInvisible` | shared-rs/consensus/src/leios.rs:656-689 | whether or not the state is pruned first, every run that concerns no point behind the prune has the same effects in the same order, and the same match outcomes for every hash whose manifest and request the prune keeps |
| `FetchPruning.StepAlike` | shared-rs/consensus/src/leios.rs:656-689 | states that agree on the points from a slot on give the same effects at every operation there, and agree on them afterwards |
| `FetchPruning.StepShowsAlike` | shared-rs/consensus/src/leios.rs:656-689 | states that also agree on manifests and requests outside some hashes give the same match outcomes there, and agree on them afterwards |
| `FetchPruning.StepViewOf` | shared-rs/consensus/src/leios.rs:1436-1502 | what an operation does to the manifest and request of a hash depends on them and on its effects alone |
| `EbTxMatch.MatchedIff` | shared-rs/consensus/src/leios.rs:1436-1502 | in any manifest, repeated hashes included, a position is matched exactly when its hash does not come again and some body hashes to it, and then by the first such body |
| `EbTxMatch.RemainingIsExact` | shared-rs/consensus/src/leios.rs:1436-1502 | the remaining request is the requested set minus the matched one; the outstanding entry goes exactly when nothing remains |
| `EbTxMatch.PartialResponses` | shared-rs/consensus/src/leios.rs:1436-1502 | in any run, with any retries and whatever happens to other EBs, the outstanding set is the original minus everything matched so far |
| `EbTxMatch.ServedIsMatched` | shared-rs/consensus/src/mempool.rs:901-914 | a response served from the manifest matches exactly the served positions that are the last of their hash, in manifest order |
| `EbTxMatch.RequestReadsBack` | shared-rs/consensus/src/leios.rs:607-621 | the bitmap of missing entries reads back as exactly those entries, for up to 2^22 |
| `EbTxMatch.RoundTrip` | shared-rs/consensus/src/leios.rs:1436-1502 | request, serve and match leave exactly the asked positions not served at the last place of their hash; that is what the responder lacked if and only if no served hash comes again |
| `EbTxMatch.RoundTripBetweenPools` | shared-rs/consensus/src/leios.rs:607-621 | the same between two mempools with one manifest: a position remains exactly when the requester lacks it and the responder lacks it too or it comes again |
| `EbTxRepeats.RepeatStaysRequested` | shared-rs/consensus/src/leios.rs:1436-1502 | a requested position whose hash comes again stays requested in any run, whatever the responses hold, until manifest or request is replaced or pruned |
| `EbTxRepeats.ServedButNotSettled` | shared-rs/consensus/src/leios.rs:1436-1502 | from the empty state, a node asks for both positions of a manifest that names one hash twice; a responder serves both, one stays requested, and no later response settles it |
| `LeiosFetch.LeiosFetch.OnEbOffered` | shared-rs/consensus/src/leios.rs:1036-1045 | the offer is recorded, then a fetch is tried under the gate |
| `LeiosFetch.LeiosFetch.DoEbFetch` | shared-rs/consensus/src/leios.rs:1047-1068 | stale gates are evicted; an engaged gate or an empty choice asks nobody; otherwise the chosen non-pending offerers are asked and marked |
| `LeiosFetch.LeiosFetch.OnEbReceived` | shared-rs/consensus/src/leios.rs:1231-1264 | the source's request is settled, a decoded manifest cached and reported, validation asked for |
| `LeiosFetch.LeiosFetch.OnEbFetchFailed` | shared-rs/consensus/src/leios.rs:1267-1272 | settles the source; the gate opens only when nobody is pending |
| `LeiosFetch.LeiosFetch.OnEbTxsOffered` | shared-rs/consensus/src/leios.rs:1075-1100 | with waves enabled the offer is recorded and the first wave started |
| `LeiosFetch.LeiosFetch.InitiateFirstEbTxsFetch` | shared-rs/consensus/src/leios.rs:1143-1161 | the point enters wave one unless it has a wave already |
| `LeiosFetch.LeiosFetch.InitiateNextLeiosFetchTxsWave` | shared-rs/consensus/src/leios.rs:1110-1138 | below the wave limit the wave is counted and its attempts forgotten; otherwise nothing changes |
| `LeiosFetch.LeiosFetch.InitiateEbTxsFetch` | shared-rs/consensus/src/leios.rs:1169-1225 | an empty request, the origin or an engaged per-slot gate asks nobody; otherwise the chosen unasked offerers are asked and the request is outstanding |
| `LeiosFetch.LeiosFetch.RetryEbTxFetch` | shared-rs/consensus/src/leios.rs:1513-1547 | fresh peers are asked, or the point waits for the next wave; a pending fetch or an empty request asks nobody |
| `LeiosFetch.LeiosFetch.MissingEbTxBitmap` | shared-rs/consensus/src/leios.rs:607-621 | the bitmap of the manifest entries the mempool lacks |
| `LeiosFetch.LeiosFetch.MatchEbTxResponse` | shared-rs/consensus/src/leios.rs:1436-1502 | the index map, the matching loop and the updated request give the value-level outcome |
| `LeiosFetch.LeiosFetch.PruneChainProgress` | shared-rs/consensus/src/leios.rs:656-689 | the retain loops over manifests, postponed points, waves, requests and the tracker reach the value-level prune |
| `LeiosFetch.LeiosFetch.EvictStaleInFlight` | shared-rs/consensus/src/leios.rs:1651-1654 | the retain loop keeps exactly the gates younger than the time to live |
| `LeiosFetch.LeiosFetch.ForgetPeer` | shared-rs/consensus/src/fetch.rs:455-471 | the four loops take the peer out of every offer, attempt and pending set and nothing else |
| `LeiosFetch.LeiosFetch.PruneBelowSlot` | shared-rs/consensus/src/fetch.rs:476-488 | the retain loops drop tracker entries older than the slot |
| `LeiosFetch.LeiosFetch.Perform` | shared-rs/consensus/src/leios.rs:1036-1555 | each operation, performed in place, is the corresponding step of the value-level run |
| `LeiosFetch.LeiosFetch.StartEbFetch` | shared-rs/consensus/src/fetch.rs:397-407 | refuses, without a change, when a chosen peer is pending |
| `LeiosFetch.LeiosFetch.FinishEbFetch` | shared-rs/consensus/src/fetch.rs:421-434 | true exactly when no pending request for the point remains |
| `LeiosFetch.LeiosFetch.StartEbTxsFetch` | shared-rs/consensus/src/fetch.rs:438-447 | refuses while a fetch for the point is pending, else records the attempts |
| `Committee.AllocatePersistentSeats` | shared-rs/consensus/src/committee.rs:36-66 | for any draws exactly the requested seats are handed out, each pool as many as draws landed on it |
| `Committee.PartitionPoint` | shared-rs/consensus/src/committee.rs:60-61 | the binary search splits at the first cumulative stake above the draw |
| `Committee.WinnerIsFirstAbove` | shared-rs/consensus/src/committee.rs:45-61 | the pool a draw seats is the first whose cumulative stake exceeds it |
| `Committee.WinningDrawsMeasureStake` | shared-rs/consensus/src/committee.rs:36-66 | of the draws in [0, total) as many seat a pool as it has stake |
| `CommitteeModes.BuildCommittee` | shared-rs/consensus/src/committee.rs:77-94 | each mode seats whom it stands for (winners of the draws, everyone, the top of the ranking), and its expected total weight is all seats, all nodes, or all stake |
| `StakeCentile.TopCentileCommittee` | shared-rs/consensus/src/committee.rs:96-121 | the loop seats exactly the ranked members |
| `StakeCentile.ShortestReaching` | shared-rs/consensus/src/committee.rs:96-121 | the members are the shortest ranked prefix that reaches the cutoff |
| `StakeCentile.ListingOrderIsIrrelevant` | shared-rs/consensus/src/committee.rs:96-121 | the committee does not depend on the listing order of the registry |
| `StakeRanking.RankingIsUnique` | shared-rs/consensus/src/elections.rs:150-187 | a ranking by stake and node id is determined by its entries |
| `StakeCentile.CommitteeIsIndexPrefix` | shared-rs/consensus/src/elections.rs:150-187 | a voter index is in the committee exactly when it is below the committee's size |
| `StakeCentile.VoterIndexInverts` | shared-rs/consensus/src/elections.rs:380-387 | index to pool and back gives the index, exactly for indices that fit 16 bits |
| `ElectionsModel.RunKeepsInv` | shared-rs/consensus/src/elections.rs:207-318 | over every run the stored phase is the phase of the current slot, and quorum is reached exactly when a vote is recorded and the distinct-key weight reaches the rounded-up threshold |
| `ElectionsRuns.QuorumFormsOnce` | shared-rs/consensus/src/aggregation.rs:48-99 | an unpruned election reports its quorum once if it reaches it, and else never |
| `ElectionsRuns.QuorumIsOfTheSet` | shared-rs/consensus/src/aggregation.rs:48-99 | when weight is a function of the key, quorum depends on the set of voters only: not on order, repeats or what happens in between |
| `ElectionsRuns.CertifiableIsDue` | shared-rs/consensus/src/elections.rs:496-503 | certifiable means quorum and all three windows passed, and conversely |
| `ElectionsRuns.CertifiableStays` | shared-rs/consensus/src/elections.rs:255-284 | as slots advance a certifiable election stays certifiable for the same slot until pruned |
| `Quorum.RunRecordsStakes` | shared-rs/consensus/src/leios.rs:1387-1424 | under StakeCentile every recorded weight is the stake of a committee member |
| `Quorum.QuorumsOverlap` | shared-rs/consensus/src/elections.rs:340-370 | two elections at quorum share committee members holding at least twice the threshold less the total stake |
| `Quorum.QuorumsOverlapAcrossRuns` | shared-rs/consensus/src/aggregation.rs:48-99 | the same for elections reached by any runs of any two nodes with one registry |
| `Quorum.UnanimousVote` | shared-rs/consensus/src/aggregation.rs:72-98 | when the whole committee votes, in any order, quorum is reached exactly when its stake suffices |
| `Quorum.ReachableIff` | shared-rs/consensus/src/elections.rs:116-129 | a unanimous committee suffices under every registry of a given total stake if and only if the cutoff is at least one and at least the threshold |
| `Quorum.MarginSuffices` | shared-rs/consensus/src/elections.rs:116-129 | a margin of one unit of stake between centile and quorum fraction is enough |
| `Quorum.AllVotesReachQuorum` | shared-rs/consensus/src/elections.rs:116-129 | in a validated configuration with a margin of one unit of stake, the votes of all members in any order, with repeats and anything in between, reach quorum |
| `Quorum.ValidationIsNotEnough` | shared-rs/consensus/src/elections.rs:116-129 | a configuration that validates and a registry whose committee cannot reach quorum |
| `NodeElections.StepRuns` | shared-rs/consensus/src/leios.rs:704-840 | every step of a node is a run of its elections in which votes carry the weight computed for them |
| `NodeElections.NodeKeepsInv` | shared-rs/consensus/src/elections.rs:207-318 | phases and quorum flags are exact on every node after every run |
| `NodeElections.NodeQuorumFormsOnce` | shared-rs/consensus/src/leios.rs:1387-1424 | a node reports the quorum of an election it does not prune once if it is reached, and else never |
| `NodeElections.ReportsAreFormed` | shared-rs/consensus/src/leios.rs:1387-1424 | a batch of votes reports as many quorums as it forms |
| `NodeElections.NodeCertifiableStays` | shared-rs/consensus/src/elections.rs:496-503 | as slots advance what a node may certify stays certifiable for the same slot until the node prunes it |
| `NodeElections.NodeQuorumsOverlap` | shared-rs/consensus/src/elections.rs:340-370 | elections at quorum on any two nodes with one registry, after any node runs, share members holding at least twice the threshold less the total stake |
| `ElectionState.Elections.MarkBodyValidated` | shared-rs/consensus/src/elections.rs:242-248 | every election of the EB is marked |
| `ElectionState.Elections.OnSlot` | shared-rs/consensus/src/elections.rs:255-284 | lists the eligible elections by announcing block and refreshes every phase |
| `ElectionState.Elections.PruneBelowSlot` | shared-rs/consensus/src/elections.rs:467-488 | drops elections below the slot and reports the final tally of each |
| `ElectionState.Elections.RecordVote` | shared-rs/consensus/src/aggregation.rs:48-99 | deduplicates, sums and sets quorum as the value-level operation does |
| `VotingRuns.SlotVotesIff` | shared-rs/consensus/src/leios.rs:704-840 | a slot emits at most one vote, and emits one exactly when the tip's election is in its window, not voted in, and every voting predicate holds |
| `VotingOnce.StepOpens` | shared-rs/consensus/src/elections.rs:207-293 | a vote closes the election it is cast in, and only adopting a block without an election opens one |
| `VotingOnce.VotesUseUpElections` | shared-rs/consensus/src/leios.rs:704-840 | in every run, votes for a block plus its election still open are at most the one open at the start plus those created on the way |
| `VotingOnce.BarredIffNeverReopened` | shared-rs/consensus/src/leios.rs:555-573 | a run always bars a second vote if and only if no step adopts again a block that was voted for and pruned; then no block is voted for twice |
| `VotingOnce.CreatedElectionVotesIff` | shared-rs/consensus/src/leios.rs:851-983 | a created election is voted in exactly on timing, header, manifest and seat conditions, none of which asks whether its block was voted for before |
| `VotingOnce.BlockVotedTwice` | shared-rs/consensus/src/leios.rs:656-689 | a run from the empty state that adopts a block, another, and the first again votes for the first twice |
| `VotingOnce.NoBlockVotedTwice` | shared-rs/consensus/src/leios.rs:704-840 | while adopted tips never go back in slots and a hash fixes its slot, no announcing block is voted for twice in a run |
| `VotingBacked.VotesAreBacked` | shared-rs/consensus/src/leios.rs:851-983 | along every run each vote is for the tip, in its window, timely, non-equivocating, with every transaction of a known manifest present, and its body was validated by an earlier step |
| `VotingBacked.MarkedWhicheverCameFirst` | shared-rs/consensus/src/leios.rs:1341-1354 | an EB validated and not pruned is marked in every election of it, announced before or after |
| `VotingBacked.StepGate` | shared-rs/consensus/src/leios.rs:1363-1370 | an EB is endorsed and unvalidated exactly when an endorsement found no validated election of it and nothing has validated it or left it behind since |
| `LeiosVoting.LeiosVoting.DecideVote` | shared-rs/consensus/src/leios.rs:851-983 | the predicates in order, with the counts of present transactions |
| `LeiosVoting.LeiosVoting.VoteOn` | shared-rs/consensus/src/leios.rs:704-795 | vote, silence or refusal, and which of them end the election for this node |
| `LeiosVoting.LeiosVoting.OnSlot` | shared-rs/consensus/src/leios.rs:704-840 | phases advance, eligible elections are decided in key order, state behind the tip is dropped |
| `LeiosVoting.LeiosVoting.PruneChainProgress` | shared-rs/consensus/src/leios.rs:656-689 | the retain loops over manifests, endorsed and validated EBs and elections reach the value-level prune |
| `LeiosVoting.LeiosVoting.OnValidatedVotes` | shared-rs/consensus/src/leios.rs:1387-1424 | skips weightless votes, records the others, reports each quorum formed |
| `LeiosVoting.LeiosVoting.Perform` | shared-rs/consensus/src/leios.rs:555-1424 | each operation, performed in place, is the corresponding step of the value-level run and votes for the same blocks |
| `Cbor.ItemIsLocal` | net-rs/net-codec/src/transaction.rs:45-45 | whether and where a skipped item ends depends on its own bytes only |
| `CborTokens.EncodedHeadReads` | net-rs/net-codec/src/encode.rs:61-105 | the shortest head of any major type and 64-bit argument reads back |
| `TransactionForms.FlagLastReads` | net-rs/net-codec/src/transaction.rs:10-64 | every form with the flag last (any head width, definite or indefinite, three or four fields) is read as its parts |
| `TransactionForms.FlagLastSplits` | net-rs/net-codec/src/transaction.rs:10-64 | and only those forms are read |
| `TransactionForms.FlagThirdReads` | net-rs/net-codec/src/transaction.rs:71-115 | every form with a true flag third, or none, is read as its parts |
| `TransactionForms.FlagThirdSplits` | net-rs/net-codec/src/transaction.rs:71-115 | and only those forms are read |
| `TransactionForms.FlagLastExcludesThird` | net-rs/net-codec/src/transaction.rs:10-115 | four fields with the flag last are refused by the reading with the flag third |
| `TransactionForms.FlagThirdExcludesLast` | net-rs/net-codec/src/transaction.rs:10-115 | and conversely, so no byte string has both four-field readings |
| `TransactionForms.LeiosInlineIsIdempotent` | net-rs/net-codec/src/transaction.rs:120-131 | converting for a ranking block twice is converting once |
| `TransactionForms.MempoolConversionsInvert` | net-rs/net-codec/src/transaction.rs:136-150 | for every accepted form, converting for selection and back, or for submission and back, gives its one-byte-head form: the conversions undo each other on such forms |
| `TransactionForms.FailedScriptsAreRefused` | net-rs/net-codec/src/transaction.rs:120-150 | a failed-script transaction, in every form that is read, is converted neither for submission nor for selection |
| `TransactionForms.ConversionsKeepParts` | net-rs/net-codec/src/transaction.rs:10-150 | every conversion keeps body, witness and auxiliary bytes |
| `TransactionForms.ConversionsKeepTxId` | net-rs/net-codec/src/lib.rs:59-68 | and so the transaction id |
| `TransactionCodec.InlineLeiosTransaction` | net-rs/net-codec/src/transaction.rs:10-64 | the cursor over three fields, the flag and the break computes the reading with the flag last, the borrowed case included |
| `TransactionCodec.MempoolLeiosTransaction` | net-rs/net-codec/src/transaction.rs:71-115 | the cursor computes the reading with the flag third |
| `TransactionCodec.LeiosInlineTransaction` | net-rs/net-codec/src/transaction.rs:120-131 | first the one reading, then the other |
| `TransactionCodec.LeiosMempoolTransaction` | net-rs/net-codec/src/transaction.rs:136-150 | drops head and flag of a valid transaction |
| `TransactionCodec.WireTxIdOf` | net-rs/net-codec/src/lib.rs:59-68 | the digest of the first element's bytes |
| `HeaderEncoding.HeaderRoundTrip` | net-rs/net-codec/src/leios_header.rs:17-82 | any header body, signed with 448 bytes and wrapped as era 7, validates to the same fields; any other signature length is refused |
| `HeaderAgreement.StrictImpliesLenient` | net-rs/net-codec/src/header.rs:55-236 | what the strict validator accepts the lenient parser reads identically if the header body array is definite, and refuses if it is not |
| `HeaderEncoding.IndefiniteBodySplitsTheParsers` | net-rs/net-codec/src/leios_header.rs:17-82 | every header body, sent with an indefinite body array, passes the strict validator with its fields and is refused by the lenient parser |
| `HeaderAgreement.ValidInnerIsItem` | net-rs/net-codec/src/leios_header.rs:17-82 | a strictly valid inner header is one CBOR item |
| `HeaderCodec.Encode` | net-rs/net-codec/src/encode.rs:61-105 | appending field by field produces the wire form of the header body |
| `HeaderCodec.ValidateHeaderBytes` | net-rs/net-codec/src/leios_header.rs:17-82 | the cursor computes the strict validation |
| `HeaderCodec.TryParse` | net-rs/net-codec/src/header.rs:55-236 | the cursor computes the lenient parse |
| `HeaderCodec.DecodeExtensions` | net-rs/net-codec/src/header.rs:136-223 | the loop over the remaining elements reads flag and announcement in any order and either layout |
| `BlockRoundTrip.CertificateIsVerbatim` | net-rs/net-codec/src/block.rs:89-184 | the certificate of a wrapped era-8 block comes back byte for byte; a null one, or none, reads as no certificate |
| `BlockRoundTrip.InspectionCountsTransactions` | net-rs/net-codec/src/block.rs:434-508 | the inspected transaction count is the number of transactions, and a two-field certificate is noted as present |
| `BlockRoundTrip.BlockPointIsHeaderPoint` | net-rs/net-codec/src/block.rs:561-575 | the point of a block is the point of its header wrapped as era 7 |
| `BlockRoundTrip.EncodedBlockPoint` | net-rs/net-codec/src/block.rs:516-575 | for an encoded header that point is its slot and the digest of its bytes |
| `BlockCodec.EncodeBody` | net-rs/net-codec/src/encode.rs:127-142 | the loop over transactions appends them verbatim |
| `BlockCodec.LeiosBlockInfo` | net-rs/net-codec/src/block.rs:89-184 | the cursor extracts the certificate, for both eras and both body layouts |
| `BlockCodec.TryInspect` | net-rs/net-codec/src/block.rs:305-423 | the cursor computes the inspection, for both eras |
| `BlockCodec.Classify` | net-rs/net-codec/src/block.rs:655-681 | absent, pending, present without identity, or other, consuming the slot unless other |
| `BlockCodec.CountAndSkipArray` | net-rs/net-codec/src/block.rs:43-63 | counts and skips a definite or indefinite array |
| `BlockCodec.TryPoint` | net-rs/net-codec/src/block.rs:561-575 | header extraction, parse and hash |
| `BlockCodec.SendAndRead` | net-rs/net-codec/src/encode.rs:166-179 | encoding, wrapping and reading a block in place gives the header's slot and digest as its point, the certificate whole, and the number of transactions |
| `EbManifest.EncodeOverflowEb` | net-rs/net-codec/src/eb.rs:89-97 | the loop writes the map in manifest order |
| `EbManifest.DecodeOverflowEb` | net-rs/net-codec/src/eb.rs:30-76 | the cursor computes the decoding, with the key from slot and digest |
| `EbManifest.ManifestRoundTrip` | net-rs/net-codec/src/eb.rs:30-97 | decoding an encoded manifest gives it back in order exactly when it has at most 65,536 hashes |
| `EbManifest.IndefiniteManifestReads` | net-rs/net-codec/src/eb.rs:56-69 | the indefinite form decodes to the same manifest, under the same limit |

## Left out

- LeiosFetch.LeiosFetch.OnEbOffered: does not model the t22 checksum filter that drops an offer first, because it depends on a hasher outside the repository's core.
- Praos chain selection, the behaviour tree, networking, storage, command lines, simulation: chain tips arrive as arbitrary contexts.
- Signatures (BLS, KES, VRF) and the lottery arithmetic: their outcomes are parameters.
- The t22 checksum filter on EB offers and manifests: it depends on a hasher that is not modelled.
- Telemetry (the expiry reports of a slot tick among it), logging, state sizes, snapshots, hex display and filter statistics: no effect on the modelled state.
- Ranking-block offers in the candidate tracker: the same bookkeeping as for EBs without the retry part.
- `election_mut` and direct writes to public fields: they bypass the state machine.
- Completeness of `ebs_needing_tx_fetch`: it looks elections up by EB hash although they are keyed by announcing block.
- Disjointness of endorsed-unvalidated EBs and validated bodies: an endorsement consults live elections only, so it does not hold.
- A retry bound through `initiate_eb_txs_fetch`: it ignores whether the fetch could start, so the bound is proved for the retry path.
- Machine-word overflow of slots, sizes and sums, and rounding of fractions: numbers are exact.
- UTF-8 validity of text strings and other checks inside the CBOR library.
- The points codec and the era-tagged pass-through of headers and blocks: plain copying.
- Peek's second lookup among pinned bodies: under the mempool invariant every owed tx is queued, so it finds nothing.
