# A verified model of the LRU success-function simulators

The repository computes, for a trace of memory requests, the LRU success function S: S(x) is the number of
requests that hit in an LRU cache of x pages.  It does so in four independent ways: Increment-and-Freeze, its
chunked online version BoundedIAF, and two simulators that keep the LRU queue in an order-statistic tree (the
OSTree, rebuilt subtree by subtree, and the weight-balanced RawOrderStatisticSet).  This project models all four
and proves that each returns S exactly, hence that they agree (`Agreement.Compare`).

## How the proof is built

- `lru.dfy` says what is to be computed, twice: the LRU stack with the depth of every request, and an actual
  cache of a given capacity that evicts as it goes.  `HitsAreShallowDepths` connects the two.
- `operations.dfy` gives the operations of Increment-and-Freeze a meaning: `Total` is what a sequence adds to a
  cell, and `View` is everything that can be seen of a sequence on a range of cells, namely every freeze with
  the frozen value and every Prefix that separates two of the cells.  Two sequences with the same view are
  interchangeable; all of the in-place rewriting is justified by this.
- `encoding.dfy` proves that the operations built from a trace freeze exactly the LRU depths.
  `subproblem.dfy` has the shape that the top level and every subproblem has (a leading Null operation, Prefix
  targets exactly start..end-1 in increasing order, distinct Postfix targets, net effect zero to the right of a
  Prefix) and shows that the shape is inherited by every subrange.
- `partition_state.dfy`, `split_points.dfy`, `scan.dfy`, `scan_steps.dfy` and `projection.dfy` are the in-place
  split.  `Scanning.Inv` is its invariant: for every part still to come, the unscanned operations, the full
  increment owed and the part's scratch stack together show what the original sequence shows; the operations
  already laid out on the right do so for the part being built; and the merge index is ahead of the current
  index by exactly the number of Postfixes on the stacks.
- `base_case.dfy`, `tally.dfy`, `tasks.dfy` and `recursion.dfy` are the recursion as methods.  The split-off parts
  of a node are tasks; a scheduler runs them in any order among each other, each with all its descendants, at any
  time between the creation of the task and the end of its node.
- `threads.dfy` and `interleaving.dfy` are the same recursion as a system of threads that share the operations
  array and the histogram.  A thread takes one operation of its scan, or of its base case, at a time; a thread that
  was split off may outlive the one that created it.  Every interleaving of the steps keeps the invariant, is never
  stuck, ends, and leaves the histogram that the methods compute.
- `requests.dfy`, `populate.dfy` and `increment_and_freeze.dfy` are the class around it; `chunks.dfy` and
  `bounded_iaf.dfy` are the online version, where nothing at depths up to the limit is lost by chunking and
  truncation, with its chunk-size policy and amortised work bound.
- `trees.dfy`, `weight_balanced.dfy` and `search_tree.dfy` treat the weight-balanced tree as a value: one rotation
  always repairs the balance, the height is logarithmic, every operation is the corresponding one on a
  sorted sequence.  `raw_node.dfy` is the pointer version, proved to do the same in place, and `ordered_set.dfy`
  the set on top.  `ostree_model.dfy`, `ostree.dfy` and `ostree_head.dfy` are the same three layers for the OSTree.
- `lru_queue.dfy`, `container_cache_sim.dfy` and `ost_cache_sim.dfy` are the two simulators, `agreement.dfy`
  puts all four side by side.

## Where the code and its documentation disagree

The model follows the code.

- `container/raw_order_statistic_set.h:588` promises the rank of the key as the index that insertion returns.
  For a key that is already there the code returns the rank without the left subtree
  (`InsertIdxIsRank`, `InsertIdxOfPresentKey`).
- `container/raw_order_statistic_set.h:674-675` promises the next key as the successor that deletion returns.
  For an absent key the code returns none (`EraseSuccessorIsNext`), also where there is a next key
  (`EraseSuccessorOfAbsentKey`).
- `container/raw_order_statistic_set.h:791-794` says that the tree is not always balanced.  It is
  (`InsertBalanced`, `EraseBalanced`).
- `ostree.h:77-79` says that removal may rebalance.  It does not; it never makes the tree higher
  (`RemoveNotHigher`).
- `ostree.cc:35-37` says that insertion leaves the tree out of balance by at most one element.  That holds exactly
  when every node away from the path of the insertion was within one element before (`InsertSlightlyOffIff`).  A
  removal can break it: insert 6, 10, 4, 2, 8, 12, 14 and 16, remove 10, insert 1 (`InsertionAfterRemoval`).  On the
  path it always holds (`InsertPathSlightlyOff`), and everywhere in a run of insertions
  (`InsertRunStaysSlightlyOff`).
- `increment_and_freeze.h:70-71` says that the requests are copied and not modified.  They are sorted in place.  The
  list comes back as it was exactly when it was sorted by id already (`SortUnchanged`); for the trace 2, 1 it does
  not (`SortChangesTrace21`).  The class invariant therefore speaks of the requests in any order (`Represents`).

## Model

| member | source | states |
|---|---|---|
| Lru.DepthIsWindow | increment_and_freeze.cc:57-66 | the depth of a repeated id in the LRU stack is one more than the number of first requests since its last use |
| Lru.WindowCountsDistinctIds | increment_and_freeze.cc:53-74 | those first requests number exactly the distinct ids requested in between |
| Lru.StackSorted | increment_and_freeze.cc:98-106 | the LRU stack lists the ids by their last access, most recent first |
| Lru.CacheIsTopOfStack | increment_and_freeze.h:98-104 | an evicting LRU cache of any capacity holds exactly the top of the LRU stack (inclusion property) |
| Lru.HitIffShallow | increment_and_freeze.cc:228 | a request hits in a cache of capacity x if and only if its depth is between 1 and x |
| Lru.HitsAreShallowDepths | increment_and_freeze.cc:228-238 | the hits of a real cache of capacity x on a trace are the sum of the depth histogram up to x |
| Operations.Congruence | op.h:86-108 | if two operation sequences cannot be told apart on a range of cells, neither can they after any common continuation |
| Operations.Absorb | projection.cc:103-114 | an operation that is uniform on a range may be folded into the full amount of a following Null operation |
| Operations.AbsorbLeft | projection.cc:54-73 | a uniform operation may be folded into the full amount of the operation before it |
| Partitioning.CeLog2 | partition.h:38-45 | ce_log2 returns the rounded-down binary logarithm |
| Partitioning.PartitionState.constructor | partition.h:50-64 | all counters and the pending increment are 0, every scratch stack is one empty Null, both indices are at the last operation |
| Partitioning.CountsStep | partition.h:86-93 | one step down the implicit tree keeps every counter equal to the number of earlier calls below the left child of its node |
| Partitioning.SumStep | partition.h:87-89 | turning right at a node adds exactly the calls below its left child |
| Partitioning.PartitionState.QryAndUpdPartitionIncr | partition.h:74-95 | returns the number of earlier calls with a strictly smaller argument, for every sequence of calls and every power of two as branching, and records the call |
| SplitPoints.CutEnds | increment_and_freeze.cc:153-173 | the parts start at start and end at end: nothing is left over |
| SplitPoints.CutsMonotone | increment_and_freeze.cc:153-173 | the cuts strictly increase, so no part is empty |
| SplitPoints.CutsEven | increment_and_freeze.cc:153-173 | the parts differ by at most one cell |
| SplitPoints.FloorOfEnd | increment_and_freeze.cc:159-173 | walking down by the split amount and truncating gives exactly the cuts |
| SplitPoints.PartOfIsInverse | projection.cc:82-84 | the ceil formula returns part p for a target if and only if the target lies in part p |
| Subproblem.BoundaryExists | projection.cc:49-76 | in every subproblem each cell but the last has a boundary Prefix, with only smaller targets before it, adding nothing to the cells right of it |
| Subproblem.ViewOfSubrange | projection.cc:22-215 | what a subproblem shows on a subrange is the part of its view that speaks of the subrange |
| Subproblem.SubrangeGood | projection.cc:38-43 | so the order, net-zero and completeness properties are inherited by every subrange |
| Subproblem.OrderOfOps | projection.cc:52 | Prefix targets increase and exceed every target before them; Postfix targets are distinct |
| Subproblem.NumOpsBound | increment_and_freeze.cc:187-193 | a subproblem on start..end has at most 2*(end-start+1) operations |
| ScanSteps.ScannedOp | projection.cc:49-56 | while parts remain the scanned operation is not the first, it is a boundary operation exactly at the boundary, and no Prefix target lies left of it |
| ScanSteps.StayKeepsInv | projection.cc:118-132 | keeping an operation on the right preserves the invariant: every part still shows what the node shows |
| ScanSteps.MoveKeepsInv | projection.cc:79-117 | moving a Postfix to the scratch stack of its part preserves the invariant |
| ScanSteps.CutOffIsSubproblem | projection.cc:54-76 | the operations cut off at the boundary are a subproblem of the part and freeze the same values as the node |
| ScanSteps.CrossKeepsLeft | projection.cc:54-76 | the boundary Prefix turned into full increments leaves every part on the left showing the same |
| ScanSteps.LayOutRoom | projection.cc:179-192 | there is always room for the scratch stack between the current and the merge index |
| ScanSteps.LayOutGivesInv | projection.cc:176-209 | after the stack is laid out the invariant holds for the next part; in particular the merge index less the unresolved Postfixes is the current index |
| Scanning.FindBoundary | projection.cc:49-76 | the boundary operation of every part exists, so the scan stops before index 0 |
| Scanning.FreezeInOnePart | increment_and_freeze.cc:164-180 | every freeze of the node is seen, with the same value, in exactly one part, the one that holds its target |
| Projection.FindPart | projection.cc:82-84 | for a Postfix to be moved the formula finds a part left of the one being built, and the part contains the target |
| Projection.CrossBoundary | projection.cc:54-76 | the boundary branch, in place, as the step function says; nothing outside the window is written |
| Projection.MoveLeft | projection.cc:79-117 | the scratch branch, in place |
| Projection.KeepRight | projection.cc:118-132 | the right-side branch, in place |
| Projection.ScanToBoundary | projection.cc:49-148 | the scan stops at the boundary of the part, in bounds, with the invariant intact |
| Projection.MergeScratch | projection.cc:165-193 | lays the stack out left of the merge index and settles the owed full increment |
| Projection.Partition | projection.cc:22-215 | left and right tile the window; right is a subproblem that freezes on its cells exactly what the node freezes there; left is ready for the next call; nothing outside the window is written |
| BaseCase.FrozenValue | increment_and_freeze.cc:205-213 | the value read from the local distances is the value the operations freeze, positive and inside the histogram (both asserts) |
| BaseCase.CountedStep | increment_and_freeze.cc:192-222 | one more operation adds its freeze, if any, to the account |
| BaseCase.DoBaseCase | increment_and_freeze.cc:187-223 | every entry of the histogram grows by the number of freezes with that value |
| Tallying.TallySplit | increment_and_freeze.cc:164-180 | the freezes of a range are those of a left and a right part, value by value |
| Recursion.StartInv | increment_and_freeze.cc:162 | a fresh state satisfies the split invariant for the last part |
| Recursion.LastPart | increment_and_freeze.cc:182-183 | after the last cut the remaining window is the subproblem of the first part |
| Recursion.NewTask | increment_and_freeze.cc:171-179 | a part cut off becomes a task and takes its freezes along |
| Tasks.AfterTask | increment_and_freeze.cc:177-179 | solving any task moves its freezes to the histogram and leaves every other task intact |
| Recursion.RunTasks | increment_and_freeze.cc:177-183 | running the waiting tasks of a node in any order, each with all its descendants, conserves histogram plus waiting freezes |
| Recursion.SplitAndSolve | increment_and_freeze.cc:152-184 | the recursive case, with the tasks of the node run in any order and at any time before the node ends, counts exactly the freezes of the window; its subproblems are the sixteenths of the range |
| Recursion.SolveRest | increment_and_freeze.cc:182-183 | with the remaining window as the last task, all freezes of the node are counted |
| Recursion.DoProjections | increment_and_freeze.cc:145-185 | terminates and adds to every entry of the histogram the number of freezes of the window with that value; writes only in the window, not at all below 256 cells, and cuts it into sixteen otherwise |
| Threads.BeginKeeps | increment_and_freeze.cc:145-164 | a started thread satisfies its invariant and has as much to count as before |
| Threads.CountKeeps | increment_and_freeze.cc:192-222 | one operation of a base case moves its freeze, if any, to a place inside the histogram and leaves the rest to be counted |
| Threads.ScanKeeps | projection.cc:49-147 | one operation of a scan keeps the split invariant; at the boundary the window is cut in two and nothing is lost between the thread and the one it creates |
| Threads.CutKeeps | increment_and_freeze.cc:171-179 | the cut gives two subproblems that share the freezes of the window |
| Interleaving.OthersKept | increment_and_freeze.cc:177-179 | a step of one thread is not noticed by any other |
| Interleaving.ThreadsKept | increment_and_freeze.cc:145-185 | after a step all threads still work on disjoint windows, each with its invariant |
| Interleaving.RemainingAfterStep | increment_and_freeze.cc:205-213 | every step conserves, for every value, histogram plus freezes still to be counted |
| Interleaving.WorkAfterStep | increment_and_freeze.cc:145-185 | every step decreases the work left, so every run ends |
| Interleaving.EveryInterleaving | increment_and_freeze.cc:128-185 | every interleaving is never stuck, takes at most 4*cells^2 steps, writes in the window only, and when all threads are finished has counted exactly the freezes of the window |
| Interleaving.ScheduleIndependent | increment_and_freeze.cc:128-185 | the histogram is the same for every schedule, and the one that the sequential recursion returns |
| Interleaving.DepthsOfTrace | increment_and_freeze.cc:111-142 | on the operations of a trace every interleaving adds exactly the depth histogram |
| Encoding.LaterCellsUntouched | increment_and_freeze.cc:53-74 | the operations of the first n requests have net effect 0 on the cells from n on |
| Encoding.CellCountsWindow | increment_and_freeze.cc:53-74 | cell p counts the distinct ids requested since request p |
| Encoding.FrozenIsDepth | increment_and_freeze.cc:57-62 | the Postfix of a re-access freezes its LRU depth |
| Encoding.FrozenCountsDistinctIds | increment_and_freeze.cc:57-62 | the frozen value is the number of distinct ids requested after the previous access up to this one |
| Encoding.EncodingIsWellFormed | increment_and_freeze.cc:84-91 | the operations of a non-empty trace are a subproblem on 1..n |
| Encoding.SolvableIffNonEmpty | increment_and_freeze.cc:126 | the operations are a subproblem on the initial range if and only if the trace is not empty |
| Encoding.FrozenValuesFit | increment_and_freeze.cc:117-126 | every frozen value is positive and at most the number of distinct ids |
| Encoding.TallyIsDepthCount | increment_and_freeze.cc:187-223 | the frozen values are the depth histogram of the trace |
| Requests.SortIsSorted | increment_and_freeze.cc:37-38 | sorting gives a sorted permutation of the requests |
| Requests.SortUnchanged | increment_and_freeze.h:70-71 | the list comes back unchanged if and only if it was sorted before |
| Requests.SortChangesTrace21 | increment_and_freeze.h:70-71 | the list of the trace 2, 1 comes back changed |
| Requests.NeighbourIsPrevious | increment_and_freeze.cc:54-66 | in the sorted list the left neighbour is the previous access to the same id, if there is one |
| Requests.LastOfGroup | increment_and_freeze.cc:69-72 | the last entry of a group in the sorted list is the last access of its id |
| Populate.Compact | increment_and_freeze.cc:83-91 | keeps the first operation and the non-null ones, in order, in place |
| Populate.CompactedIsEncode | increment_and_freeze.cc:53-91 | the compacted array is the encoding of the trace |
| Populate.LivingIsSortedEnds | increment_and_freeze.cc:69-106 | the living requests are the reversed LRU stack with the last access numbers |
| IncrementFreeze.SlotsOfRequest | increment_and_freeze.cc:54-68 | comparing with the left neighbour writes exactly the two operations that belong to the request |
| IncrementFreeze.IncrementAndFreeze.MemoryAccess | increment_and_freeze.cc:26-29 | appends the request to the list, whatever order earlier calls left it in |
| IncrementFreeze.IncrementAndFreeze.WriteRequest | increment_and_freeze.cc:53-68 | writes the operations of one request to its two slots and tells whether its id is new |
| IncrementFreeze.IncrementAndFreeze.BuildOperations | increment_and_freeze.cc:41-82 | every request has its operations in its slots, the ids are counted, the ends of all groups but the last are collected |
| IncrementFreeze.IncrementAndFreeze.CompactOperations | increment_and_freeze.cc:83-91 | the operations vector is the encoding, or one Null operation for no requests |
| IncrementFreeze.IncrementAndFreeze.PopulateOperations | increment_and_freeze.cc:31-108 | the requests are sorted, the operations are the encoding, the number of ids is exact, the living requests are the reversed LRU stack |
| IncrementFreeze.IncrementAndFreeze.UpdateHitsVector | increment_and_freeze.cc:111-142 | the histogram is grown to hold every depth and gains the depth histogram of the trace; the requests come back as the same requests in ascending order, by id and then by number |
| IncrementFreeze.IncrementAndFreeze.ProcessChunk | increment_and_freeze.cc:244-247 | the same for a chunk, with its living requests |
| IncrementFreeze.OneMorePage | increment_and_freeze.cc:233-238 | one more page of cache adds the requests of exactly that depth |
| IncrementFreeze.IncrementAndFreeze.GetSuccessFunction | increment_and_freeze.cc:225-242 | the vector has one entry more than there are distinct ids and entry x is the number of hits of an evicting LRU cache of capacity x; the list of requests is sorted by id, none is lost, and the object is ready for more |
| Chunks.SameTop | bounded_iaf.cc:85-105 | the stack built from the carried ids and the true LRU stack agree on the top M entries after every request of the chunk |
| Chunks.ChunkCounts | bounded_iaf.cc:71-83 | the depth histogram of the chunk is the increase of the true one, at every depth up to M |
| Chunks.ChunkKeepsExact | bounded_iaf.cc:71-83 | adding the histogram of the chunk and cutting at M keeps the histogram exact |
| Chunks.NoDeepRequests | bounded_iaf.cc:83 | no request is deeper than the number of distinct ids |
| Chunks.TrimmedIsCarried | bounded_iaf.cc:85-95 | dropping the oldest living requests leaves the ids of the top M of the true LRU stack |
| BoundedIncrementFreeze.NextPending | bounded_iaf.cc:92-105 | the trimmed, renumbered living requests are numbered from 1 and start the next chunk |
| BoundedIncrementFreeze.BoundedIAF.UpdateU | bounded_iaf.h:43-50 | the buffer size is kept while it exceeds three times the carried requests and becomes four times their number otherwise |
| BoundedIncrementFreeze.BoundedIAF.ProcessRequests | bounded_iaf.cc:58-107 | the histogram becomes exact for all requests so far, with 1 + min(distinct ids, M) entries, the invariants of the next chunk hold and the buffer size follows the rule of three and four |
| BoundedIncrementFreeze.BoundedIAF.MemoryAccess | bounded_iaf.cc:32-44 | the request is appended and nothing else changes, unless that fills the buffer: then, and only then, a chunk is processed, its length is added to the work done, and the buffer size follows the rule of three and four; the buffer is not full afterwards, its size is at most max(first size, 4*min(distinct ids, M)), and a chunk is at least two thirds fresh, so these chunks total at most 3/2 of the requests |
| BoundedIncrementFreeze.PrefixSums | bounded_iaf.cc:116-122 | the running sums of an exact histogram are the hits of evicting caches |
| BoundedIncrementFreeze.TrimAndNumber | bounded_iaf.cc:85-95 | keeps the most recent M living requests, numbered from 1 |
| BoundedIncrementFreeze.BoundedIAF.GetSuccessFunction | bounded_iaf.cc:109-128 | the exact success function of all requests so far for every size up to min(distinct ids, M), empty for the empty trace; the buffer size changes only if requests were pending, by the same rule |
| WeightBalanced.RotationsExist | container/raw_order_statistic_set.h:947-971 | at an unbalanced node the children that the chosen rotation needs are there, in any tree |
| WeightBalanced.SingleLeftWeights | container/raw_order_statistic_set.h:949-957 | where the inner grandchild is light enough a single rotation restores the balance at both nodes |
| WeightBalanced.DoubleLeftWeights | container/raw_order_statistic_set.h:957-960 | otherwise a double rotation restores it at all three nodes |
| WeightBalanced.StaysInBalance | container/raw_order_statistic_set.h:942-946 | a node with 1/4 <= left weight / total weight <= 3/4 is returned unchanged |
| WeightBalanced.TurnsLeft | container/raw_order_statistic_set.h:949-957 | with less than 1/4 on the left and less than 2/3 of the right child in its inner half, one rotation to the left |
| WeightBalanced.TurnsRightLeft | container/raw_order_statistic_set.h:949-960 | with less than 1/4 on the left and at least 2/3 in the inner half, the key of the inner grandchild goes to the top |
| WeightBalanced.TurnsRight | container/raw_order_statistic_set.h:961-967 | the mirror image of the single rotation |
| WeightBalanced.TurnsLeftRight | container/raw_order_statistic_set.h:961-970 | the mirror image of the double rotation |
| WeightBalanced.RebalanceInorder | container/raw_order_statistic_set.h:940-972 | rebalancing keeps the keys in order and their number |
| WeightBalanced.RebalanceBalances | container/raw_order_statistic_set.h:940-972 | a node whose balance one insertion or deletion below it has broken is repaired by one rotation, at every node |
| WeightBalanced.InsertBalanced | container/raw_order_statistic_set.h:595-638 | insertion keeps every node in balance |
| WeightBalanced.EraseBalanced | container/raw_order_statistic_set.h:683-713 | deletion keeps every node in balance |
| WeightBalanced.UnlinkFacts | container/raw_order_statistic_set.h:851-862 | unlinking the last node removes exactly the last key and keeps every node in balance |
| WeightBalanced.DeleteRootFacts | container/raw_order_statistic_set.h:866-881 | deleting a root keeps all other keys in order and every node in balance |
| WeightBalanced.DeletedRootIsReplaced | container/raw_order_statistic_set.h:869-876 | the last key on the left takes the place of a deleted root; where that keeps the balance the right side is untouched |
| WeightBalanced.HeightIsLogarithmic | container/raw_order_statistic_set.h:917-937 | size + 1 >= (4/3)^height in every balanced tree |
| SearchTrees.InsertRefines | container/raw_order_statistic_set.h:595-638 | insertion is insertion into the sorted sequence |
| SearchTrees.EraseRefines | container/raw_order_statistic_set.h:683-713 | deletion is deletion from the sorted sequence |
| SearchTrees.EraseAbsentUnchanged | container/raw_order_statistic_set.h:644-646 | erasing an absent key does not modify a balanced tree |
| SearchTrees.InsertPresentUnchanged | container/raw_order_statistic_set.h:625-635 | nor does inserting a key that is there |
| SearchTrees.InsertIdxIsRank | container/raw_order_statistic_set.h:578-594 | the returned index is the rank of the key if and only if the key has no keys in its own left subtree, so always for a new key; otherwise it falls short by their number |
| SearchTrees.InsertIdxOfPresentKey | container/raw_order_statistic_set.h:625-633 | after inserting 2 and 1, inserting 2 again does not return its rank |
| SearchTrees.EraseIdxIsRank | container/raw_order_statistic_set.h:671-675 | for a present key deletion returns its rank and the next key |
| SearchTrees.EraseOfAbsentKey | container/raw_order_statistic_set.h:689-690 | for an absent key deletion returns its rank and no successor |
| SearchTrees.EraseSuccessorIsNext | container/raw_order_statistic_set.h:674-675 | the returned successor is the first key after k if and only if k is in the tree or no key is after it |
| SearchTrees.EraseSuccessorOfAbsentKey | container/raw_order_statistic_set.h:674-675 | in the tree of the key 2, erasing 1 returns no successor although 2 is the next key |
| SearchTrees.FindIsRank | container/raw_order_statistic_set.h:715-733 | Find returns the number of smaller keys, and the key if it is there |
| SearchTrees.LowerBoundIsFirst | container/raw_order_statistic_set.h:735-755 | LowerBound returns the number of smaller keys and the first key that is not smaller |
| SearchTrees.UpperBoundIsFirst | container/raw_order_statistic_set.h:757-775 | UpperBound returns the number of keys not after k and the first key after k |
| SearchTrees.RankUpToIs | container/raw_order_statistic_set.h:757-775 | that number exceeds the rank by one exactly for a present key |
| SearchTrees.SelectIsAt | container/raw_order_statistic_set.h:777-789 | Select reads the sorted sequence, none beyond its end |
| SearchTrees.SelectInvertsFind | container/raw_order_statistic_set.h:717-789 | Select of the rank found is the key, for present keys |
| RawNodes.UpdateLeftAndRight | container/raw_order_statistic_set.h:824-829 | relinks a node with exact sizes and disjoint subtrees |
| RawNodes.RotateLeft | container/raw_order_statistic_set.h:890-896 | the rotation in place: same nodes, the rotated tree, exact sizes |
| RawNodes.RotateRight | container/raw_order_statistic_set.h:898-904 | the mirror image |
| RawNodes.RotateRightLeft | container/raw_order_statistic_set.h:906-910 | the double rotation in place |
| RawNodes.RotateLeftRight | container/raw_order_statistic_set.h:912-915 | its mirror image |
| RawNodes.NodeInBalance | container/raw_order_statistic_set.h:925-937 | decides whether 1/4 <= left weight / total weight <= 3/4, in numbers and from the stored sizes |
| RawNodes.MaybeRebalance | container/raw_order_statistic_set.h:939-972 | in place what rebalancing does to the tree as a value; no null child is followed |
| RawNodes.RebalanceWithRight | container/raw_order_statistic_set.h:696-697 | relinks the right child and rebalances in place |
| RawNodes.RebalanceWithLeft | container/raw_order_statistic_set.h:702-703 | relinks the left child and rebalances in place |
| RawNodes.Insert | container/raw_order_statistic_set.h:595-638 | the new tree, index and flag are those of insertion on the tree as a value; every node stays in the tree, a new key adds one new node, and a present key returns the node that has it |
| RawNodes.UnlinkRightMost | container/raw_order_statistic_set.h:849-862 | takes exactly the last node out; all others stay |
| RawNodes.DeleteNode | container/raw_order_statistic_set.h:864-881 | the last node of the left subtree takes the place of the root; exactly the root leaves the tree |
| RawNodes.LeftMost | container/raw_order_statistic_set.h:841-847 | the first key of the subtree |
| RawNodes.Erase | container/raw_order_statistic_set.h:644-713 | the new tree, rank, successor and count are those of deletion on the tree as a value; exactly the node of the key leaves the tree, none if it is absent |
| RawNodes.FindNode | container/raw_order_statistic_set.h:715-733 | the pointer version returns what the search on the tree as a value returns |
| RawNodes.LowerBoundNode | container/raw_order_statistic_set.h:735-755 | likewise for LowerBound |
| RawNodes.UpperBoundNode | container/raw_order_statistic_set.h:757-775 | likewise for UpperBound |
| RawNodes.SelectNode | container/raw_order_statistic_set.h:777-789 | likewise for Select |
| OrderedSet.OrderStatisticSet.Insert | container/raw_order_statistic_set.h:308-322 | the keys gain k in its place unless it was there; all nodes stay, a new key gets a new node, for a present key the tree is unchanged and its node is returned; the index falls short of the rank by the keys in the left subtree of k, so for a new key it is the rank; the set stays sorted and balanced |
| OrderedSet.OrderStatisticSet.Erase | container/raw_order_statistic_set.h:524-535 | the keys lose k and the tree exactly its node, for an absent key nothing changes; the returned index is its rank, and for a present key the key now at that index is the returned successor |
| OrderedSet.OrderStatisticSet.Find | container/raw_order_statistic_set.h:177-189 | the rank of k, and k if it is there |
| OrderedSet.OrderStatisticSet.LowerBound | container/raw_order_statistic_set.h:192-202 | rank and key of the first key not before k |
| OrderedSet.OrderStatisticSet.UpperBound | container/raw_order_statistic_set.h:217-228 | rank and key of the first key after k |
| OrderedSet.OrderStatisticSet.Select | container/raw_order_statistic_set.h:241-256 | the key at an index of the sorted sequence, if there is one |
| OrderedSet.OrderStatisticSet.Size | container/raw_order_statistic_set.h:140-141 | the number of keys |
| OSTreeModel.RebuildInorder | ostree.cc:137-156 | rebuilding keeps the list of entries |
| OSTreeModel.RebuildHeight | ostree.cc:137-146 | the rebuilt tree of n entries has as many levels as n has binary digits |
| OSTreeModel.RebuildIsLowest | ostree.cc:148-156 | no tree with the same entries is lower than the rebuilt one |
| OSTreeModel.RebuildMiddle | ostree.cc:137-146 | the middle entry is on top, with half the entries on each side |
| OSTreeModel.InsertBelow | ostree.cc:35-47 | at a node where neither side with the root weighs more than twice the other, insertion goes on below and changes nothing else |
| OSTreeModel.RebuiltBeforeInsert | ostree.cc:35-38 | at any other node the subtree is first rebuilt around its middle entry |
| OSTreeModel.NoRebuildSoon | ostree.h:55-59 | a subtree rebuilt with n entries is not rebuilt again before n/2 more have entered it |
| OSTreeModel.InsertRefinesList | ostree.cc:29-51 | insertion of a new timestamp is insertion into the descending list |
| OSTreeModel.InsertSlightlyOffIff | ostree.cc:35-37 | after an insertion no node exceeds the limit by more than one entry if and only if no node away from its path did before |
| OSTreeExample.InsertionAfterRemoval | ostree.cc:35-37 | a run of eight insertions and a removal after which an insertion leaves a node with three entries on one side and none on the other |
| OSTreeModel.InsertRunIsLow | ostree.cc:35-38 | a run of insertions gives a tree with size >= (3/2)^(height-1) |
| OSTreeModel.InsertStaysSlightlyOff | ostree.cc:35-38 | in particular, where no node is off balance by more than one entry insertion keeps it so |
| OSTreeModel.InsertRunStaysSlightlyOff | ostree.cc:35-38 | in every run of insertions no node exceeds the balance limit by more than one entry |
| OSTreeModel.InsertPathSlightlyOff | ostree.cc:35-38 | in any tree every node on the path of the insertion ends within one entry of the limit |
| OSTreeModel.RemoveRefinesList | ostree.cc:63-105 | removal takes the entry at the rank out of the list; sizes stay exact |
| OSTreeModel.RemoveShape | ostree.cc:77-104 | a node that stays keeps its key and its other side; a node that goes is replaced by its only child or by the next entry |
| OSTreeModel.RemoveNotHigher | ostree.cc:72-73 | removal never makes the tree higher |
| OSTreeModel.FindIsIndex | ostree.cc:107-121 | Find returns the number of newer entries and the value of the timestamp |
| OSTreeModel.RebuiltIsBalanced | ostree.cc:158-166 | a rebuilt tree is balanced at every node up to one entry, and within the limit at the root |
| OSTrees.ToArray | ostree.cc:123-135 | fills the array with all nodes of the subtree, each once, in the order of the list; the rest of the array is unchanged |
| OSTrees.FromArray | ostree.cc:137-146 | links exactly the nodes of the stretch into the tree with the middle one on top, with exact weights |
| OSTrees.Rebalance | ostree.cc:148-156 | the same nodes, relinked into the rebuilt tree |
| OSTrees.IsBadBalance | ostree.cc:158-166 | decides, in numbers and from the stored weights, whether either side with the root weighs more than twice the other |
| OSTrees.Insert | ostree.cc:29-51 | the tree becomes the one insertion gives as a value; weights are exact; all nodes stay in the tree |
| OSTrees.RebalanceIfBad | ostree.cc:35-38 | rebuilds the subtree exactly when either side with the root weighs more than twice the other, and leaves it alone otherwise |
| OSTrees.RemoveTop | ostree.cc:77-95 | the node itself is taken out and, with two children, replaced by the next entry |
| OSTrees.Remove | ostree.cc:63-105 | the tree becomes the one removal gives as a value; exactly the node of that rank leaves the tree, childless |
| OSTrees.Find | ostree.cc:107-121 | the pointer version returns what the search on the tree as a value returns |
| OSTreeHeads.OSTreeHead.Insert | ostree.h:129-133 | the descending list gains the entry in its place; the tree is the one insertion gives and keeps all its nodes |
| OSTreeHeads.OSTreeHead.Remove | ostree.h:135-143 | the list loses the entry of the rank, whose value is returned; the tree is the one removal gives |
| OSTreeHeads.OSTreeHead.Find | ostree.h:145-152 | the returned rank is the index of the timestamp, the value is that of its entry |
| OSTreeHeads.OSTreeHead.GetWeight | ostree.h:163-166 | the number of entries |
| LruQueue.RankIsDepth | ost_cache_sim.cc:44-54 | the rank of a page in the queue of last-access times is its LRU depth minus one |
| LruQueue.TimesStep | ost_cache_sim.cc:25-42 | one request moves, or adds, exactly the time of its page: the queue is again the list of last-access times |
| LruQueue.HitStep | ost_cache_sim.cc:29-33 | adding one at the rank keeps page_hits the depth histogram |
| LruQueue.MissStep | ost_cache_sim.cc:36-41 | a new page adds an empty cell and no hit |
| LruQueue.PageTableStep | ost_cache_sim.cc:29-38 | the page table holds every page of the trace with its last access time |
| OSTSim.QueueMove | ost_cache_sim.cc:44-54 | taking a page out at its rank and putting it back with the new time gives the queue of the longer trace, each time with its own page |
| OSTSim.OSTCacheSim.MemoryAccess | ost_cache_sim.cc:24-42 | the queue, page table and hits are those of the trace with the request appended |
| OSTSim.OSTCacheSim.MoveFrontQueue | ost_cache_sim.cc:44-54 | returns the old rank; the entry is re-inserted with the new time and the same page |
| OSTSim.OSTCacheSim.GetSuccessFunction | ost_cache_sim.cc:56-72 | entry x is the number of hits of an evicting LRU cache of capacity x |
| ContainerSim.ContainerCacheSim.MemoryAccess | container_cache_sim.cc:24-42 | the queue, page table and hits are those of the trace with the request appended |
| ContainerSim.ContainerCacheSim.MoveFrontQueue | container_cache_sim.cc:44-56 | returns the old rank; the time is replaced by the new one |
| ContainerSim.ContainerCacheSim.GetSuccessFunction | container_cache_sim.cc:58-74 | entry x is the number of hits of an evicting LRU cache of capacity x |
| Agreement.LimitedIsPrefix | memory_cutoff_tests.cc:128-143 | a limited success function is a prefix of the full one |
| Agreement.SaturatesAtDistinctIds | unit_tests.cc:48-50 | a cache larger than the number of distinct ids gets no more hits |
| Agreement.RunIaf | unit_tests.cc:93-130 | Increment-and-Freeze is exact on every non-empty trace, whatever success functions were asked for on the way |
| Agreement.RunBounded | memory_cutoff_tests.cc:77-112 | BoundedIAF is exact up to its limit for every chunk size, likewise |
| Agreement.RunOst | unit_tests.cc:93-130 | the OSTree simulator is exact, likewise |
| Agreement.RunContainer | unit_tests.cc:93-130 | the order-statistic set simulator is exact, likewise |
| Agreement.Compare | memory_cutoff_tests.cc:114-143 | all four return the same vector on every non-empty trace, the bounded one cut at its limit |

## Left out

- Recursion.RunTasks: runs a task with all its descendants before the next one, which the code does not demand; all
  other interleavings are covered by Interleaving.EveryInterleaving, where the steps are functions on values.
- Recursion.SplitAndSolve: likewise.
- Memory models: a step of a thread, one operation of a scan or a base case, is atomic, and memory is sequentially
  consistent.  The parallel loop that builds the operations, its reduction and its critical section are sequential.
- Floating point: the `double` split amount and fractional end are exact reals.
- Machine words: numbers are unbounded, the type bit packed into the target is a datatype constructor, shifts and
  masks of the counting tree are division and remainder.
- `std::sort` is an insertion sort as a function; `std::unordered_map` is a map; vectors that grow are sequences
  held in fields, or the filled part of an array (operations).
- Operations, requests and projected sequences are values.  The histogram is passed in and returned instead of
  updated through a reference; the base case and the recursion therefore do not model aliasing of it.
- Unique pointers: a moved-from pointer is set to null only where the code would otherwise keep it (taking a tree
  apart, removed nodes); elsewhere ownership is expressed by disjoint node sets.
- IncrementFreeze.IncrementAndFreeze.GetSuccessFunction: requires a non-empty trace.  For an empty one the code
  builds the range (1, 0), which is no subproblem (Encoding.SolvableIffNonEmpty); its length underflows and the number
  of parts minus one is then converted from a negative `double`, which has no defined value.
- IncrementFreeze.IncrementAndFreeze.UpdateHitsVector: the same.
- IncrementFreeze.IncrementAndFreeze.ProcessChunk: the same; the code also reads the last request of an empty chunk.
- OSTreeHeads.OSTreeHead.Insert: requires a timestamp that is not in the tree, which the code asserts on the way down.
- Running times, beyond the bounds on chunk lengths, steps and rebuilding stated above.
- Iterators, heterogeneous lookup, the map variant, `assign` and extracted nodes: thin layers over the node
  operations that are modelled.
- `get_last`, `get_leftmost`, `validate`, `Check` and printing: readers of what the class invariants state.
- Memory accounting, `dump_success_function`, workload generation, simulation drivers and plotting: reporting.
