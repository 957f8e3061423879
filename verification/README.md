# PEEK in Dafny

PEEK schedules language-model requests so that prompts with common prefixes reuse each
other's KV cache. This project models the parts of it where a fast form must agree with a
simple one, and proves that they do. Each part is built around a plain description of what
its state stands for:

- **Pending requests** (`Arena*`, `Tree`, `SharingCounts`, `Scores`, `MainHits`, `DualWalk`,
  `Pending`). The arena and freelist of `src/tree.rs` hold a path-compressed tree that splits
  edges on insert and fuses them on remove. What it stands for is a map from request id to
  tokens. `Tree.Valid` says that the arena is exactly the canonical tree of that map; every
  query has a specification on the map alone.
- **KV cache** (`Cache*`, `RadixCache`). Node objects updated in place, with lock counts,
  queue references, access times, sizes and the set of evictable leaves. They stand for a map
  from cached prefixes to KV indices, a set of lock holders and last cycle's protected nodes. `view` is
  that value; `RadixCache.Synced` ties the objects to it, and the invariants are proved on it
  one edit at a time.
- **Scheduling cycle** (`Engine`, `GroupScores`, `DepthReorder`, `DepthOrder`, `Grouping`). Reset, match, rebuild and
  protect over that cache. Deleted nodes keep their parent pointers and are walked again.
- **Cluster-LPM** (`InBatch`, `StockLpm`, `Stride`, `Scheduler`, `LaneOrder`). Sections, two lane orders,
  the stride merge with real arithmetic, and the agreement of three dedup implementations.
- **Eviction by demand** (`DemandEviction`, `DemandOrder`) over both structures, and the **offline trie and
  dispatcher** (`TrieOrder`, `Trie`, `TrieWalk`, `TrieScore`, `Reorder`). The trie stands for one
  entry per insert, so a prompt index may be inserted twice.

`Radix`, `RadixEdits` and `Frontier` hold the link structure and the explicit-stack traversal
that the pending tree and the cache share.

Conventions of the model: token sequences are finite sequences of naturals, `ROOT` has no
count of its own (`src/tree.rs:953-956`), request ids within a queue are distinct and stand
for queue positions, time stamps are inputs and not negative, and a dictionary is listed in
an arbitrary order where the code does not sort it. A `holder` of a lock is a ghost id: it
names the request behind each `inc_lock_ref` so that lock counts can be stated as counts. One
call of `match_prefix`, and one eviction by demand, happens at one instant of the clock.

Where the code and what is said about it part, the model follows the code:

- The tagged fast path of the engine rebuilds the queue from tagged requests only, but its
  guard looks at the first request only. The queue is preserved if and only if every request
  is tagged (`RebuiltPermutes`, `UntaggedIsDropped`).
- The three dedup implementations that are meant to be equal are so if and only if the threshold
  is at least one or no request is cold (`ThreeAgree`). At zero two cold requests get three
  different answers (`TwoColdAtZero`); from one on the orders agree too (`ThreeOrders`).
- The tagged path scores a group by how stale its cached prefix is, to use it before LRU evicts
  it, but it matches with `match_prefix`, which refreshes the node just before its age is read
  (`python/peek/offline/engine.py:227-251`). The term only ever sees the time between the two
  (`MatchGroups`), and earlier access times never enter the order (`PlannedUnique`);
  `python/peek/offline/scheduler.py:608-613` avoids this with the read-only match.
- The lower clamp of the lane share, 0.10, can never bind, because the wanted share starts at
  0.15 (`WantedShare`).
- `PeekDispatcher.remove` counts a group down even for a prompt that is not stored. The
  counts stay right if and only if the prompt was stored or its group had nobody
  (`PeekDispatcher.Remove`); `RemoveStranger` is a run that breaks them.
- Eviction priorities are cut to integers. In the decay mode a wanted node whose weighed tokens
  stay below one is let go as if nobody wanted it (`LetGoFirst` says exactly when, `DecayForgets`
  is a run). The age that weighs it is the wall clock minus a monotonic access time
  (`python/peek/online/eviction.py:197-200`), so it is any difference of two clocks, not an age.
- The read-only match is there to score prefixes without touching access times, but when it stops
  inside a key the upper half of the split is a new node, stamped now below older ones. Times go on
  falling along the root path if and only if it makes no node or all above were accessed at that
  very time (`ReadOnlyKeeps`; `ReadOnlyDisorders` is a run), and LRU eviction of the whole tree
  rests on them (`LruPartitions`).
- The queue-depth reorder says that targets come first. A target is worth ten thousand requests, so
  a large enough group that is no target overtakes it (`TargetOvertaken` says exactly when,
  `TargetsFirst` up to where it cannot).

## Model

| member | source | states |
|---|---|---|
| PendingRadix.Tree.Insert | src/tree.rs:196-222 | After inserting a fresh id the arena is exactly the canonical tree of the pending map with that one entry added: counts, terminators, links, edges, freelist. |
| PendingRadix.Tree.Remove | src/tree.rs:229-255 | Succeeds exactly when this id is pending with these tokens; the arena is then the canonical tree of the map without it, and otherwise untouched. |
| PendingRadix.Tree.Gc | src/tree.rs:257-298 | Restores compression above a node that may have become dead or fusable, without changing what is pending. |
| PendingRadix.Tree.FuseChild | src/tree.rs:266-294 | Fusing a node into its only child keeps the tree sound: exactly the child's slot is freed, the edges are joined, the node takes over the child's place, table and requests, and no other node changes but for the parent of a grandchild. |
| PendingRadix.Tree.SplitEdge | src/tree.rs:121-147 | A split puts the lower half in a new slot, keeps the old id at the split point and re-parents the children. |
| PendingRadix.Tree.Alloc | src/tree.rs:88-97 | A slot handed out was neither live nor on the freelist any more; no live slot changes. |
| PendingRadix.Tree.Descend | src/tree.rs:154-189 | A descent ends at the deepest position whose tokens agree with the query. |
| PendingRadix.DescentFarthest | src/tree.rs:154-189 | No node of the tree agrees with the query farther than the descent went. |
| PendingRadix.DescentUnique | src/tree.rs:315-318 | A token sequence has exactly one position. |
| PendingRadix.PositionInjective | src/tree.rs:300-318 | Two prefixes of pending sequences that stop at the same position are equal token for token. |
| ArenaFacts.EdgeDemand | src/tree.rs:320-326 | Demand is uniform along an edge and equals the count below it. |
| ArenaFacts.Populated | src/tree.rs:196-298 | Every node but a bare root has a pending request at or below it. |
| ArenaFacts.CanonicalNodes | src/tree.rs:121-298 | A non-root node exists at a path if and only if some pending sequence ends there or two continue it with different tokens. |
| ArenaShape.SameMapSameTree | src/tree.rs:196-298 | Any two sound arenas of the same pending map are the same tree up to slot names: same paths, edges, counts, terminators and child tokens. |
| ArenaShape.Drained | src/tree.rs:229-298 | With nothing pending only the root is live. |
| ArenaShape.SizeBound | src/tree.rs:354-356 | At most two live nodes per distinct non-empty pending sequence. |
| PendingRequests.PendingTree.InsertThenRemove | src/tree.rs:637-653 | Inserting and removing a request gives back the same tree, up to slot names: every old node has a twin and every node that is there now had one. |
| PendingRadix.Tree.DeepestWithCount | src/tree.rs:327-350 | Returns the largest k such that at least the threshold of pending requests share the first k query tokens. |
| PendingRadix.Tree.PendingDemand | src/tree.rs:453-485 | Number of pending sequences that start with the path, mid-edge or not; 0 for the empty path. |
| PendingRadix.Tree.TerminatorsAt | src/tree.rs:430-450 | Number of pending sequences equal to the path. |
| PendingRadix.Tree.LongestMatchAlong | src/tree.rs:495-530 | The deepest match with anything pending and a request that witnesses it. |
| PendingRadix.Tree.SampleTerminator | src/tree.rs:532-548 | Finds a request at or below a node exactly when there is one. |
| PendingRadix.Tree.ClusterInfo | src/tree.rs:560-585 | None exactly for unknown or unshared requests; otherwise the deepest prefix two requests share, its node and its demand. |
| Sharing.DeepestIsLongestShared | src/pending.rs:80-88 | The threshold-two depth is the greatest common prefix with another pending request. |
| SharingCounts.SharedRidCount | src/tree.rs:376-385 | The sum over shared root children is the number of requests that share their first token with another one. |
| SharingCounts.SingletonRidCount | src/tree.rs:394-407 | The singleton counter, zero-token requests included, counts exactly the others. |
| SharingCounts.HasSharing | src/tree.rs:364-369 | True exactly when two different requests have a common first token. |
| PendingRequests.PendingTree.Insert | src/pending.rs:58-65 | A duplicate id changes nothing; otherwise map and tree grow together. |
| PendingRequests.PendingTree.Remove | src/pending.rs:68-76 | Reports presence; map and tree shrink together. |
| PendingRequests.PendingTree.InsertMany | src/pending.rs:149-180 | All or nothing: it fails exactly when an id is present or repeated, says which, and then changes nothing. |
| PendingRequests.PendingTree.RemoveMany | src/pending.rs:184-192 | Removes what is there and counts exactly that many. |
| PendingRequests.PendingTree.LongestSharedPrefix | src/pending.rs:80-86 | The maximum common prefix with another request, attained unless zero. |
| PendingRequests.PendingTree.MatchPrefix | src/pending.rs:90-92 | The maximum common prefix with any request, attained unless zero. |
| PendingRequests.PendingTree.ClusterInfo | src/pending.rs:99-102 | Cluster depth and size in terms of the pending map alone. |
| Scores.ComputeReqScores | src/pending.rs:245-263 | The score of a request is the sum, over all pending requests, of its common prefix length with them: no tree in the statement. |
| Sharing.PrefixDemandIsSum | src/pending.rs:236-243 | Adding up demand over the prefixes of a sequence is adding up common prefixes over the requests. |
| DualWalking.ComputeMainHits | src/pending.rs:413-442 | Every request gets min(f, max(D, e)) of its tokens; the callback runs fewer times than there are nodes. |
| DualWalking.DualWalk.Walk | src/pending.rs:481-533 | One level of the walk: decides every request below the node, asks only about edges below it, each once, and restores path and scratch stack. |
| DualWalking.DualWalk.AssignSubtree | src/pending.rs:541-558 | Gives one hit to every request of a subtree and to nobody else, and leaves the caller's stack as it was. |
| MainHits.HitIsExact | src/pending.rs:404-412 | With threshold one the assigned hit is exactly the longest cached prefix. |
| MainHits.CacheIsOracle | src/pending.rs:396-403 | The longest cached prefix of any prefix-closed cache is an admissible callback. |
| MainHits.FirstEdgeIsEdge | src/pending.rs:473-480 | The first edge of a request, defined on the map, is the edge of the root child it passes. |
| KvCache.RadixCache.MatchPrefix | python/peek/offline/sglang_patches/patched_files/radix_cache.py:366-480 | Returns the indices of the longest cached prefix and a node ending exactly there, the only one it may make; what is cached, locked, evictable or referenced does not change. With updates exactly the root and the nodes whose key the way enters are accessed now; without, no old node is. |
| KvCache.RadixCache.MatchDown | python/peek/offline/sglang_patches/patched_files/radix_cache.py:739-774 | The walk down stops at the end of the longest cached prefix, at a node or inside a key, and has accessed the root and exactly the nodes whose key the way enters. |
| CacheTimes.OnWayStep | python/peek/offline/sglang_patches/patched_files/radix_cache.py:748-773 | Going down a child, however far into its key, adds that child to the nodes accessed and no other. |
| CacheTimes.OnWayEndsInside | python/peek/offline/sglang_patches/patched_files/radix_cache.py:754-762 | Past a mismatch inside a key no further node is on the way. |
| KvCache.RadixCache.SplitChild | python/peek/offline/sglang_patches/patched_files/radix_cache.py:776-801 | The objects after a split are those of the value-level split: the upper half copies locks, references and gets its depth. |
| CacheEdits.SplitInv | python/peek/offline/sglang_patches/patched_files/radix_cache.py:776-801 | A split keeps links, depths, lock counts, sizes, evictable leaves, reference order and the cached map. |
| CacheRefs.SplitTraced | python/peek/offline/sglang_patches/patched_files/radix_cache.py:776-801 | A split keeps every queue reference on a walk up from last cycle's protected nodes. |
| KvCache.RadixCache.Insert | python/peek/offline/sglang_patches/patched_files/radix_cache.py:803-847 | Returns how much was cached; exactly the remaining prefixes are added, old indices stay, and the evictable size grows by what was added. New nodes end the key or its cached part, and are made now; exactly the root and the old nodes on the way are accessed now. Access times that fall along root paths go on doing so. |
| CacheTimes.FallingKept | python/peek/offline/sglang_patches/patched_files/radix_cache.py:739-847 | If no node was accessed later than one above it and the clock has not gone back, an insert or an updating match keeps it so. |
| CacheTimes.ReadOnlyKeeps | python/peek/offline/sglang_patches/patched_files/radix_cache.py:438-480 | A read-only match keeps that order if and only if it makes no node or every node above the new one was accessed at this very time: the upper half of a split counts as accessed now. |
| KvCache.ReadOnlyDisorders | python/peek/offline/sglang_patches/patched_files/radix_cache.py:438-480 | A run that breaks it: two prompts cached at one time, and a later read-only match that stops inside the longer one. |
| CacheLeaves.AddInv | python/peek/offline/sglang_patches/patched_files/radix_cache.py:835-847 | Hanging a new leaf keeps every cache invariant. |
| CacheLeaves.RemoveInv | python/peek/offline/sglang_patches/patched_files/radix_cache.py:867-890 | Deleting an evictable leaf keeps every cache invariant. |
| KvCache.RadixCache.IncLockRef | python/peek/offline/sglang_patches/patched_files/radix_cache.py:651-664 | Adds one holder: afterwards lock counts are again the holders at or below each node, sizes and leaves match, and the returned delta is the change of the evictable size. |
| KvCache.RadixCache.DecLockRef | python/peek/offline/sglang_patches/patched_files/radix_cache.py:666-683 | Takes one holder away with the same guarantees. |
| CacheStore.LockMonotone | python/peek/offline/sglang_patches/patched_files/radix_cache.py:651-683 | Lock counts never grow downward. |
| CacheStore.LeafBelow | python/peek/offline/sglang_patches/patched_files/radix_cache.py:622-649 | Below every unlocked node there is an evictable leaf with no more references. |
| CacheStore.NoLeavesNothingEvictable | python/peek/offline/sglang_patches/patched_files/radix_cache.py:877-890 | Without evictable leaves the evictable size is zero. |
| KvCache.RadixCache.Evict | python/peek/offline/sglang_patches/patched_files/radix_cache.py:622-649 | Frees at least min(n, evictable size), and stops: before each victim less than n had been freed, and nothing goes for n of zero or less. Each victim was an evictable leaf of its moment with a least strategy key; nothing locked goes, freed plus evictable is conserved, the protected size stays and exactly the victims' prefixes are lost. |
| KvCache.RadixCache.EvictQueueAware | python/peek/offline/scheduler.py:818-837 | With the queue-aware strategy, at any cost function, no node with a queue reference goes while an unlocked one without is left anywhere in the tree; among leaves of one moment the unreferenced go first, then the cheaper, then the least recently used; it stops at the quota. |
| CacheEviction.QueueAwareOrder | python/peek/offline/scheduler.py:818-837 | Of the evictable leaves of a moment the victim is unreferenced if any is, then no dearer at the cost of its references and depth, then no later accessed. |
| CacheEviction.LruOrder | python/peek/offline/sglang_patches/patched_files/radix_cache.py:634-646 | With the LRU strategy no evictable leaf of the moment was accessed before the victim. |
| CacheEviction.LruPartitions | python/peek/offline/sglang_patches/patched_files/radix_cache.py:622-649 | While access times fall along root paths, LRU eviction takes, of the whole tree, nothing accessed since any given time as long as an unlocked node was last accessed before it. |
| CacheEviction.LeavesAfter | python/peek/offline/sglang_patches/patched_files/radix_cache.py:634-646 | At any moment of an eviction the evictable leaves are the unlocked survivors all of whose children have gone. |
| CacheEviction.LeastPartitions | python/peek/offline/sglang_patches/patched_files/radix_cache.py:634-646 | Least first means for the whole tree: if the nodes to keep have kept parents and higher keys than the others, none of them goes while any unlocked other node is left, leaf or internal. |
| CacheEviction.UnkeptLeaf | python/peek/offline/sglang_patches/patched_files/radix_cache.py:634-646 | Below every unlocked node that is left and not kept there is an evictable leaf of that moment that is not kept. |
| CacheEviction.QuotaMet | python/peek/offline/sglang_patches/patched_files/radix_cache.py:622-649 | When the loop ends the quota is met or everything evictable is gone. |
| KvCache.RadixCache.IncQueueRef | python/peek/offline/sglang_patches/patched_files/radix_cache.py:689-698 | Adds one reference to exactly the nodes of the walk up and keeps references from growing downward. |
| CacheRefs.RaiseKeeps | python/peek/offline/sglang_patches/patched_files/radix_cache.py:689-698 | Raising a whole walk keeps references ancestor-closed. |
| KvCache.RadixCache.ResetAllQueueRefs | python/peek/offline/sglang_patches/patched_files/radix_cache.py:706-717 | The full reset leaves no reference on any node of the tree and changes nothing else. |
| KvCache.RadixCache.TotalSize | python/peek/offline/sglang_patches/patched_files/radix_cache.py:892-902 | The node-by-node total is the evictable plus the protected size. |
| PeekEngines.PeekEngine.ResetProtection | python/peek/offline/engine.py:434-445 | The targeted reset clears every node of the tree, exactly like the full reset, although it walks stale parent pointers of nodes that may be gone. |
| CacheSweeps.SweepClears | python/peek/offline/engine.py:434-445 | Because every reference lies on a walk from last cycle's nodes, sweeping those walks clears the tree. |
| PeekEngines.PeekEngine.Protect | python/peek/offline/engine.py:336-350 | Whatever nodes are remembered, live or gone, a live node is referenced exactly when a walk up from one of them passes it, and the next reset can find all references; with live nodes the references count the protected nodes at or below. |
| CacheSweeps.ProtectTraced | python/peek/offline/engine.py:336-350 | Every reference made by a cycle lies on a walk up from the nodes it remembers. |
| CacheSweeps.ProtectedIff | python/peek/offline/engine.py:336-350 | From a clear tree a node is referenced if and only if a walk up from a remembered node, deleted or not, passes it. |
| CacheSweeps.WalkersLive | python/peek/offline/sglang_patches/patched_files/radix_cache.py:689-698 | From live nodes the walks that pass a node are those of the remembered nodes at or below it. |
| CacheSweeps.WalkUpLive | python/peek/offline/sglang_patches/patched_files/radix_cache.py:689-698 | The walk up from a live node visits exactly its ancestors. |
| PeekEngines.PeekEngine.MatchGroups | python/peek/offline/engine.py:222-256 | Each representative is matched to the end of its longest cached prefix, later splits do not disturb earlier matches, and the age read is the time since that very match. |
| PeekEngines.PeekEngine.Rebuild | python/peek/offline/engine.py:205-323 | The queue is rebuilt from whole groups in score order, with every term of the score given by the queue, the cached map, the pending counts and the clocks. |
| PeekEngines.PeekEngine.RunTagged | python/peek/offline/engine.py:181-370 | One cycle: exactly the tagged requests are kept, in the one score order (`ScoreOrder` says which), and the nodes protected end the matched prefixes of the first groups within the budget. |
| PeekEngines.PlannedUnique | python/peek/offline/engine.py:227-315 | Queue, cached map, pending counts and clocks determine hits, scores and order: the access times the cache had before play no part. |
| PeekEngines.RebuiltPermutes | python/peek/offline/engine.py:207-323 | The rebuilt queue is a reordering of the queue if and only if every request is tagged. |
| PeekEngines.UntaggedIsDropped | python/peek/offline/engine.py:163-169 | The guard looks at the first request only: a tagged request in front of an untagged one loses the latter. |
| GroupScores.ScoreOrder | python/peek/offline/engine.py:296-315 | Of two groups the earlier leads by 10000 times its cached share, 100 times its risk and wait, a thousandth of its requests, and one less for each pending request beyond 32; ties by client rank and then by arrival. |
| GroupScores.OneFactOrders | python/peek/offline/engine.py:296-315 | Of two groups that differ in one fact, the one with more of its prompt cached, more risk, wait or requests, fewer pending beyond 32, or the lower rank comes first; pending up to 32 does not matter. |
| GroupScores.ExchangeRates | python/peek/offline/engine.py:191-194 | A prompt cached in full weighs exactly 100 units of risk or wait, ten million requests, or ten thousand pending beyond a batch. |
| GroupScores.ProtectBudget | python/peek/offline/engine.py:327-340 | Protecting k of g groups: unless k is one, k groups of mean length fit in three quarters of the cached tokens; unless k is all, k + 7/4 would not fit. |
| GroupScores.SumLengthsIsSum | python/peek/offline/engine.py:335 | The mean is taken over every group once. |
| DepthReordering.DepthReorder | python/peek/offline/engine.py:447-547 | The whole queue is kept, held-back requests exactly at the tail; groups by requests times prompt length, targets are the first of them and within budget, and those targets are protected whose first request has something cached. |
| DepthOrder.GroupHolds | python/peek/offline/engine.py:463-474 | A group is, in queue order, every request not held back that shares its first 64 tokens, or its whole shorter prompt, with the first. |
| DepthOrder.ScheduledAhead | python/peek/offline/engine.py:525-543 | Which of two groups is scheduled first, told by targets, cached shares and requests: an if-and-only-if. |
| DepthOrder.OneFactSchedules | python/peek/offline/engine.py:525-543 | With all else equal the group with more cached, or with more requests, goes first. |
| DepthOrder.TotalCachedIs | python/peek/offline/engine.py:489-492 | The cached tokens of a group are those of its members, each once. |
| DepthOrder.TargetsFirst | python/peek/offline/engine.py:454-457 | The promise that targets come before the others holds up to nine thousand requests more in the other group. |
| DepthOrder.TargetOvertaken | python/peek/offline/engine.py:454-457 | And fails beyond: with nothing cached a group that is no target overtakes a target if and only if it has over ten thousand requests more. |
| DepthReordering.ChooseTargets | python/peek/offline/engine.py:504-523 | Targets are the longest run of groups that fits the budget, but at least one; all without a budget. |
| Grouping.GroupBy | python/peek/offline/engine.py:207-214 | One pass with a dictionary of lists yields every key in order of first appearance with all its positions in queue order. |
| Grouping.LayOutPermutes | python/peek/offline/engine.py:318-323 | Laying out all groups, in any order, lists every keyed position once; it reorders the whole queue if and only if all have keys. |
| InBatch.TupleClaims | python/peek/online/lpm_integration.py:119-140 | Deprioritizes exactly the cold requests whose first K tokens an earlier cold request has too; nothing for a negative threshold. |
| InBatch.PioneerOf | python/peek/online/lpm_integration.py:359-381 | Each sibling has exactly one pioneer with the same first tokens, and it is the earliest of them. |
| PendingRequests.PendingTree.LpmOrder | src/pending.rs:307-334 | Claiming tree positions flags exactly the siblings among the requests the tree knows, none for threshold zero. |
| PendingRequests.SamePosition | src/pending.rs:296-302 | Prefixes of pending sequences are equal if and only if they stop at the same position. |
| InBatch.LpmSortOrder | src/pending.rs:453-472 | The comparator sort gives the very order of the Python key. |
| InBatch.CompareIsKeyOrder | src/pending.rs:457-470 | The comparator and the key order agree in both directions. |
| StockPolicy.StockSiblings | python/peek/offline/sglang_patches/patched_files/schedule_policy.py:192-248 | Requests already matched at group level are passed over; of the others the auxiliary radix tree flags exactly the siblings for a positive threshold and every cold request otherwise. |
| StockPolicy.HeldIffSibling | python/peek/offline/sglang_patches/patched_files/schedule_policy.py:224-247 | Although siblings are never inserted, the auxiliary tree holds a request's first K tokens if and only if an earlier cold request has them. |
| StockPolicy.ThreeOrders | python/peek/offline/sglang_patches/patched_files/schedule_policy.py:192-266 | For K at least one and a tree in step with the queue the three implementations give the same order: by hit, siblings last in arrival order. |
| StockPolicy.StockAgrees | python/peek/offline/sglang_patches/patched_files/schedule_policy.py:202-248 | The stock flags are the siblings if and only if the threshold is at least one or no request is cold. |
| StockPolicy.TuplesAgreeIff | python/peek/online/lpm_integration.py:119-137 | The tuple flags are the siblings if and only if the threshold is at least one or no two requests are cold. |
| StockPolicy.ThreeAgree | src/pending.rs:318-320 | The three flag sets agree if and only if the threshold is at least one or no request is cold. |
| StockPolicy.TwoColdAtZero | src/pending.rs:318-320 | Any two cold requests at threshold zero get three different answers: no sibling, the second, both. |
| StockPolicy.SiblingsLast | python/peek/offline/sglang_patches/patched_files/schedule_policy.py:250-266 | Siblings come last in arrival order, the others by descending hit. |
| Stride.Interleave | python/peek/online/lpm_integration.py:519-552 | Exactly n picks and a permutation; each pick is the next of its lane, the exhausted branches are dead, and the lane is decided by the shares alone. |
| Stride.ClocksAgree | python/peek/online/lpm_integration.py:524-541 | Comparing the two virtual clocks is comparing the picks of lane A with its share. |
| Stride.FairIsProportional | python/peek/online/lpm_integration.py:519-552 | After every k picks lane A has between s*k-(1-s) and s*k+s of them. |
| Stride.PicksBeforeRank | python/peek/online/lpm_integration.py:530-552 | While rank j of a lane waits, that lane has picked at most j times. |
| Stride.RankBound | python/peek/online/lpm_integration.py:519-552 | Rank j of lane B is out by index floor((j+s)/(1-s)), rank j of lane A by floor((j+1-s)/s). |
| Stride.MergeAscending | python/peek/online/lpm_integration.py:519-554 | Two orders sorted by section merge into one sorted by section, at any share. |
| ClusterLpm.AssignSections | python/peek/online/lpm_integration.py:359-381 | Warm, pioneer and sibling sections as the dedup defines them, for all thresholds. |
| ClusterLpm.GroupMajorOrder | python/peek/online/lpm_integration.py:493-512 | The group-major lane is a permutation by section, whole groups at a time. |
| ClusterLpm.GroupMajorFacts | python/peek/online/lpm_integration.py:493-512 | Groups ranked by section, score and arrival list every request once and by section. |
| ClusterLpm.Scheduler.NextShare | python/peek/online/lpm_integration.py:404-430 | The smoothed share of lane B stays in [0.15, 0.60] over every run of ticks, so lane A never gets less than 0.40 or more than 0.85. |
| ClusterLpm.WantedShare | python/peek/online/lpm_integration.py:420-425 | The wanted share lies in [0.15, 0.60]: the lower clamp of 0.10 never binds. |
| LaneOrder.ShareMeans | python/peek/online/lpm_integration.py:415-425 | The wanted share is 0.15 plus half the fraction of singles plus 0.3 of the oldest wait in budgets, at most one, up to the cap of 0.60. |
| LaneOrder.SinglesCounted | python/peek/online/lpm_integration.py:404-410 | The singles are the requests outside every cluster of at least two. |
| LaneOrder.OldestMeans | python/peek/online/lpm_integration.py:411-419 | The oldest wait is the longest of a single with an arrival time, on a tick that has the time. |
| ClusterLpm.Scheduler.Sort | python/peek/online/lpm_integration.py:288-555 | The queue is permuted into section order for every share, with and without group-major; outside the collapses it is the stride merge of the two lanes that `FairnessOrder`, `DenseOrder` and `GroupOrder` describe. |
| LaneOrder.FairnessOrder | python/peek/online/lpm_integration.py:462-465 | Lane B: within a section the earlier arrival in nanoseconds, then the larger hit, then the earlier place. |
| LaneOrder.OldestFirst | python/peek/online/lpm_integration.py:435-465 | Of two requests of a section lane B takes the one that came a nanosecond earlier first. |
| LaneOrder.DenseOrder | python/peek/online/lpm_integration.py:441-461 | Lane A by request: within a section the larger hit with its age, then the larger score, then the larger cluster, then the earlier arrival, then the earlier place. |
| LaneOrder.GroupOrder | python/peek/online/lpm_integration.py:466-512 | Lane A by groups: within a section by depth times size, then earliest arrival, then first appearance; inside a group by hit, then arrival, then place. |
| LaneOrder.GroupsTogether | python/peek/online/lpm_integration.py:494-512 | The members of a group stand next to each other. |
| ClusterLpm.SiblingAfterPioneer | python/peek/online/lpm_integration.py:359-381 | In the final queue every sibling comes after its one pioneer. |
| ClusterLpm.DynamicStarvation | python/peek/online/lpm_integration.py:404-552 | With the dynamic share rank j of the fairness lane is out by index floor((j+0.85)/0.15) and rank j of the dense lane by floor((j+0.6)/0.4), whatever the queue and its history. |
| DemandEviction.MaxAncestorDemand | python/peek/online/eviction.py:230-282 | The walk with early exit returns the greatest requests times tokens over all cached ancestors, at the shallowest that attains it, and says where it stopped. |
| DemandEviction.ExitIsSound | python/peek/online/eviction.py:278-281 | Past a path nobody wants nobody wants anything, so stopping loses nothing. |
| DemandEviction.WorstOfAll | python/peek/online/eviction.py:230-282 | What is most along the chain is most over every ancestor in the cache: no ancestor has more requests times tokens behind it. |
| DemandEviction.GetPriority | python/peek/online/eviction.py:160-202 | In each of the four modes the priority is that maximum, weighed by the levels walked or by the difference of the two clocks and cut to an integer. |
| DemandEviction.LetGoFirst | python/peek/online/eviction.py:186-202 | In any mode the priority is at most zero if and only if no ancestor's tokens at risk, weighed, come to one: age and truncation can make demand count for nothing. |
| DemandEviction.UnwantedGoFirst | python/peek/online/eviction.py:187-192 | In the modes without age the priority is zero if and only if nobody pending wants any ancestor. |
| DemandEviction.DecayForgets | python/peek/online/eviction.py:199-202 | A cached token that a pending request wants gets priority zero in the decay mode as soon as it is weighed below one. |
| DemandEviction.EvictByDemand | python/peek/online/eviction.py:15-27 | Eviction with the demand strategy: least priority of its moment first, ties by access time, and no victim once the quota is met; in the modes without age no node goes that is in demand, or has an ancestor that is, while any unlocked node without such an ancestor is left. |
| DemandOrder.KeyMeans | python/peek/online/eviction.py:177-202 | A priority in numbers: the greatest requests times tokens over the ancestors, in the cluster mode as often again as levels were walked, less weight times age, or times the decay at that age, cut toward zero. |
| DemandOrder.PlainOrder | python/peek/online/eviction.py:186-187 | In the plain mode a leaf with fewer requests times tokens at stake goes before one with more, and among equals the least recently used. |
| DemandOrder.ClusterOrder | python/peek/online/eviction.py:188-191 | In the cluster mode the stake counts once more for every level walked. |
| DemandOrder.OlderFirst | python/peek/online/eviction.py:192-202 | With as much at stake the leaf accessed longer ago goes first, in every mode without levels, but one never accessed counts as accessed just now. |
| DemandEviction.KeyStays | python/peek/online/eviction.py:160-202 | The priority of a node does not change while others are evicted. |
| DemandEviction.DemandPartitions | python/peek/online/eviction.py:174-187 | Whatever was evicted least priority first, the nodes in demand went last, tree-wide. |
| Tries.PrefixTrie.Insert | python/peek/offline/trie.py:35-53 | Adds one entry for this prompt, cut at the maximum depth, even for an index already stored: nodes are the prefixes of the entries, counts their demand, lists the indices of the entries ending there. |
| Tries.PrefixTrie.Remove | python/peek/offline/trie.py:55-91 | Succeeds exactly when this prompt is stored here under this index, takes away one such entry, and the trie is then that of the others. |
| Tries.PrefixTrie.Prune | python/peek/offline/trie.py:85-91 | Stopping at the first node in use removes every node that is not. |
| TrieWalks.DfsOrder | python/peek/offline/trie.py:133-158 | The index of every entry once; entries with a common prefix are contiguous, and count-aware order puts the larger of two sibling groups first. |
| TrieWalks.DfsGroupKeys | python/peek/offline/trie.py:103-131 | Every non-empty group once, in the same kind of order. |
| TrieWalks.WalkStep | python/peek/offline/trie.py:146-158 | One pop keeps the line of emitted and waiting paths nested and shrinks what waits. |
| TrieOrder.VisitNested | python/peek/offline/trie.py:146-158 | Replacing a waiting node by itself and its children keeps whatever lies between two entries within their common prefix. |
| TrieOrder.VisitRanked | python/peek/offline/trie.py:146-158 | With children in descending count the line stays ranked at every fork. |
| TrieOrder.NestedIsContiguous | python/peek/offline/trie.py:133-136 | For every prefix the prompts that start with it form one contiguous block. |
| TrieOrder.RankedSiblings | python/peek/offline/trie.py:138-141 | Of two sibling blocks the earlier one is no smaller. |
| TrieScores.SharingScore | python/peek/offline/trie.py:160-207 | Coverage is the fraction of prompts that share at least m tokens with another one, the largest group the most prompts with one m-token prefix, the depth the average over those prompts of what their whole group has in common; m is the asked depth, at least one. |
| TrieScores.NeighbourIffDemand | python/peek/offline/trie.py:164-169 | A prompt shares m tokens with another one exactly when its first m tokens are in demand twice. |
| TrieScores.SharedDepth | python/peek/offline/trie.py:189-196 | Walking down while there is one child and no prompt ends at the longest prefix the whole group has in common. |
| TrieScores.GroupStep | python/peek/offline/trie.py:185-200 | A group is counted in whole, once, and not entered. |
| Reordering.FullDuplicationRatio | python/peek/offline/reorder.py:53-68 | The fraction of sequences whose tokens, in full, occur at another position too. |
| Reordering.ReorderForPrefixSharing | python/peek/offline/reorder.py:71-118 | Always a permutation; the identity exactly as duplication, coverage and average depth of the sequences say, otherwise contiguous and ranked. |
| Reordering.PeekDispatcher.Submit | python/peek/offline/reorder.py:213-258 | After any history of submits and removals the ranking lists every counted group once, larger groups first and ties in depth-first order, and the rank returned is that of the prompt's group; while the counts agree with the trie it lists exactly the groups. |
| Reordering.SubmitTracks | python/peek/offline/reorder.py:213-235 | A submit keeps what no history breaks: no group is counted beyond its prompts, and the listed order is depth-first and complete. |
| Reordering.RemoveTracks | python/peek/offline/reorder.py:260-272 | A removal keeps it too, whether or not the prompt was stored. |
| Reordering.PeekDispatcher.Remove | python/peek/offline/reorder.py:260-272 | From agreeing counts the dispatcher stays coherent if and only if the prompt was stored or its group had nobody. |
| Reordering.RemoveStranger | python/peek/offline/reorder.py:260-272 | One prompt submitted and the same tokens removed under an index never handed out: the trie still holds the prompt and the dispatcher is incoherent. |
| Reordering.PeekDispatcher.RecomputeDfsKeys | python/peek/offline/reorder.py:204-211 | The recomputed key list holds each non-empty group once. |
| Reordering.GroupsShrink | python/peek/offline/reorder.py:264-270 | Counting one down fits the trie exactly when the prompt was there. |
| Sorting.StableSortOrdered | python/peek/online/lpm_integration.py:493 | The library sort returns a permutation in stable key order. |
| Sorting.AnyStableSort | src/pending.rs:444-452 | Whatever lists the positions in stable key order is the library sort, so any stable sort of either language gives the same order. |

## Left out

- Tensors, devices, `page_size` above one, `extra_key` namespaces, bigram keys, KV events and hashes, host and HiCache fields: values are sequences of integers in one namespace and never absent.
- `RadixCache.reset` while a cycle is under way, the `disable` flag, `cache_finished_req` and `cache_unfinished_req`.
- Eviction strategies that read hit counts, priorities or creation times: a strategy is a function of references, depth and access time, or the demand strategy.
- The `heapq` of `evict` is a map from nodes to keys from which a least entry is taken; ties are broken arbitrarily.
- Floating-point rounding: shares, scores and clocks are real numbers, and `log1p(refs) * depth` and `exp(-age/tau)` are arbitrary functions.
- `u32`, `u64` and `i64` widths, and collisions of 32-bit group hashes.
- PyO3 conversions, exceptions as such, `snapshot_for_walk`, `node_count`: results are options instead.
- `CacheStateStore` and its threads: pending counts arrive as a map; pushing state to the client and the dispatcher calls made by the engine are not modelled.
- Copying one representative's match to the other members of its group, and the recomputed `prefix_indices` of requests.
- The glue of the engine's untagged path: its parts are `ResetProtection`, `StockSiblings`, `DepthReorder` and `Protect`.
- `prefix_groups`, `build` and `clear` of the trie: nothing else here uses them.
- The other stock policies, `PrefillAdder`, preemption and `peek_sort_inplace`.
- `engine_vllm.py` and `popleft_queue_aware`: the vLLM block pool and free list are not part of this model.
- ClusterLpm.Scheduler.Sort: scores, clusters and cache hits of the requests are inputs; `ComputeReqScores`, `ClusterInfo` and `ComputeMainHits` say what they are.
- Benchmarks, presets, patch installers and configuration.
