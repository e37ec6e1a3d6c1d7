# Relay: verified models of the broker's algorithms, protocols and stores

Relay is a library of small broker components. This project models the twenty of
them whose correctness is not visible from one body, and proves what each is for.
There is one module per source file, named after it, plus `Common` (results and
error classes) and `Sorting` (the sorted order that selection and merging are
compared against). `dafny verify dfyconfig.toml` checks everything.

How a component is modelled:

- A source class whose methods change its fields is a `class` with those fields.
  Its methods are proved against a transition function on values (`Next`,
  `Decide`, `RoundOf`, `Appended`, ...), and the theorems over whole runs are
  lemmas about that function.
- A source loop is a `while` or `for` loop with its invariants, over an `array`
  where the source works in place on a fixed-size list and over a `seq` or `map`
  field where it works on a growing list or a dictionary.
- A raised exception is an `Err` result. What a raise leaves behind is stated by
  the method that raises it, including where the source leaves a partial change.
- Python's order of dictionary iteration is arbitrary in the model, so results
  about such loops hold for every order. The one exception is the LRU cache,
  whose `OrderedDict` order is the subject.
- SHA-256 and Python's `hash` are function parameters. No hash is assumed to be
  injective: the Merkle results offer the collision as the alternative.

## Algorithms in place

**Quickselect** returns the element a full sort puts at rank k, for every list and
rank. The unguarded inner scans stay inside the bracket because the pivot, and
after the first swap the swapped elements, stop them. **Interval scheduling** is
proved optimal by stabbing points: every offered interval contains the last
instant of a chosen one. **Union-find** answers exactly the equivalence closure of
the unions performed, and 2^depth never exceeds the number of elements. The
**Fenwick tree** ties `i & -i` to bits and shows that the update walk visits
exactly the cells whose range covers the index, both walks in logarithmic length.
The **heap** and the **k-way
merge** determine their outputs from the multiset pending. The table-driven
**CRC-32C** is proved to be the complemented remainder of polynomial long
division (section 12.1 of RFC 3720), and to detect every change confined to a
window of 32 bits at any bit position.

## Protocols over every run

**Log matching**, **causal delivery**, the **OR-set**, the **idempotence gate**,
the **hybrid logical clock**, **deficit round robin** and the **framer** are state
machines. Their theorems quantify over every run, arrival order, merge pattern,
retry pattern or chunking.

## Stores against a plain map

The **LSM tree** and **Bitcask** refine a plain map under every sequence of
operations. The **compactor** preserves replay, and a consumer that resumes in the
compacted log ends in the right state exactly when no tombstone it still needed
was reaped. The **Merkle diff**, the **counting bloom filter** and the **LRU
cache** have their fast path justified: no hidden difference without a collision,
no false negative, and inclusion between cache sizes.

## Where the code and its own words differ

The model follows the code.

- relay/fairqueue.py:57-58 adds the weight to the deficit of an empty queue; the
  docstring (16-17) says unused quantum is not hoarded. `IdleQuantumIsHoarded`
  shows the hoarding, and it breaks the promise of fair shares: with both clients
  backlogged at both ends of one round, one that was idle for k rounds is served
  k + 1 where the busy one is served 1 (`BurstAfterIdleIsUnfair`). What decides is
  the deficits carried into the window. Whatever arrives, one client's service is
  sure to track its weight up to every later point with its work held over,
  exactly when it carries less than one largest request (`AlwaysTracksIffLean`),
  and two clients are sure to be served fairly up to every later point with work
  of both held over, exactly when their deficits, weighted crosswise, are balanced
  (`AlwaysFairIffBalanced`). Clients are lean, and so balanced, before the first
  round and whenever work was held over at the last one (`BackloggedIsLean`,
  `LeanIsBalanced`).
- relay/idempotent.py:47-57 replaces a session reopened at the same epoch, so
  exactly-once holds within one opening (`AcceptedTwiceOnlyIfReopened`). A record
  can come to be accepted again exactly when its producer was opened anew after
  the acceptance (`RepeatableIffReopened`), at any epoch that is let through
  (`ReopeningAcceptsAgain`). `admit` refuses earlier epochs only.
- relay/causaldelivery.py:46-48 releases an id again when it is accepted after
  its delivery. `ReleasedOnceIff` gives the exact condition.
- relay/framing.py:51-70 loses the frames cut earlier in a call that then raises:
  every stream with a bad length loses all its frames fed whole and none cut
  where they end (`LossDependsOnChunking`). The chunking never shows exactly when
  there is no bad length or no frame before it (`ChunkingNeverShowsIff`). The bad
  length stays in front of the buffer, so every later call raises too
  (`RefusalIsPermanent`).
- relay/logmatching.py:52-53 does not check that the batch starts right after the
  agreed entry, so a gap can be installed (`GapIsAccepted`,
  `AppendKeepsContiguityIff`).
- relay/countingbloom.py:61-69 refuses to remove a key that is surely absent, but
  cannot see a false positive (`RemoveSparesKeyIff`), and its docstring speaks of
  refusing an increment past the maximum where the code pins the counter. A
  maximum below one is not refused and makes every test negative
  (`NoFalseNegativesIff`).
- relay/merkletree.py's docstring (12-25) says the diff descends from the root and
  skips matching subtrees; the code compares every leaf hash once the roots differ
  (67-70), so only equal roots can hide a difference.
- relay/orset.py:39 gives every replica the same node id unless told otherwise,
  while its tags are meant to be globally unique (45-47). Distinct ids are exactly
  what uniqueness of tags and observed-remove membership need
  (`UniqueTagsIffDistinctIds`, `ObservedRemoveIffDistinctIds`).
- relay/mergeiterator.py's docstring mentions a heap and a policy for equal
  elements of different streams; the code scans the heads and keeps the earliest
  stream, which integers cannot tell apart.

## Model

| member | source | states |
|---|---|---|
| Quickselect.KthSmallest | relay/quickselect.py:40-67 | for every list and rank the result is the element at rank k of the sorted list; an empty list or a rank outside it is refused |
| Quickselect.Narrow | relay/quickselect.py:45-67 | the outer loop ends with rank k settled, nothing lost from the list, and returns that element on each of its exits |
| Quickselect.Partition | relay/quickselect.py:50-59 | one partition pass leaves the outside untouched, rearranges the inside, splits it around the pivot and makes both sides strictly smaller |
| Quickselect.ScanUp | relay/quickselect.py:52-53 | the unguarded scan stops at or before its sentinel, having passed only smaller elements |
| Quickselect.ScanDown | relay/quickselect.py:54-55 | the unguarded scan down stops at or after its sentinel, having passed only larger elements |
| Quickselect.PickPivot | relay/quickselect.py:34-37 | the pivot is a median of three and occurs in the bracket, which is what bounds the scans |
| Quickselect.Percentile | relay/quickselect.py:70-77 | the sorted value at the only rank k that is the last one or the largest with 100 * k at most p * n; a p outside 0..100 or an empty list is refused |
| Quickselect.PercentileRankIsRight | relay/quickselect.py:75-76 | the truncated and clamped rank is such a rank, for every p and every number of values |
| Quickselect.PercentileRankIsUnique | relay/quickselect.py:75-76 | there is only one such rank |
| Quickselect.PercentileMonotone | relay/quickselect.py:70-77 | a higher percentile is never a smaller value |
| Sorting.SortedIsUnique | relay/quickselect.py:40-67 | sorted lists with the same multiset are equal, so the k-th smallest is well defined |
| Sorting.PartitionedElementIsAtItsRank | relay/quickselect.py:60-67 | an element with nothing larger before it and nothing smaller after it stands at its sorted rank |
| IntervalScheduler.Select | relay/intervalscheduler.py:35-48 | returns a largest set of pairwise non-overlapping input intervals; an interval that ends at or before its start is refused |
| IntervalScheduler.Choose | relay/intervalscheduler.py:42-48 | the loop over the sorted list makes the greedy choice |
| IntervalScheduler.GreedyIsOptimal | relay/intervalscheduler.py:35-48 | no non-overlapping subset of the input is larger than the greedy choice, ties and touching ends included |
| IntervalScheduler.GreedyStabs | relay/intervalscheduler.py:44-47 | every input interval contains the last instant of a chosen one |
| IntervalScheduler.StabbedOncePerChoice | relay/intervalscheduler.py:44-47 | a non-overlapping set holds at most one interval per chosen instant |
| IntervalScheduler.GreedyIsSchedule | relay/intervalscheduler.py:44-47 | the chosen intervals come from the input with their multiplicity and do not overlap |
| IntervalScheduler.GreedyRule | relay/intervalscheduler.py:42-47 | an interval of the sorted list is chosen exactly when it starts at or after the end of every one chosen before it |
| IntervalScheduler.GreedyMarkIsUnique | relay/intervalscheduler.py:42-47 | only one choice follows that rule |
| IntervalScheduler.SortIsStable | relay/intervalscheduler.py:44 | intervals with equal ends keep their input order |
| DisjointSet.DisjointSet.Add | relay/disjointset.py:41-44 | a new element is its own parent at rank 0; a known one changes nothing |
| DisjointSet.DisjointSet.Find | relay/disjointset.py:46-55 | returns the root, points the whole path at it and changes no element's root; an unknown element is refused |
| DisjointSet.DisjointSet.Compress | relay/disjointset.py:52-54 | the in-place loop rewrites exactly the links on the element's path |
| DisjointSet.DisjointSet.Union | relay/disjointset.py:57-66 | the partition becomes that of the unions performed plus this one, under the root of higher rank, or the first one's if equal; a refused union changes no group |
| DisjointSet.DisjointSet.LinkRoots | relay/disjointset.py:61-66 | joins exactly the two groups, under the root of higher rank, or the first one if the ranks are equal |
| DisjointSet.DisjointSet.SameGroup | relay/disjointset.py:68-69 | true exactly on the equivalence closure of the unions performed |
| DisjointSet.CompressionKeepsRoots | relay/disjointset.py:52-54 | path compression changes no root, no group and no group size |
| DisjointSet.LinkMergesGroups | relay/disjointset.py:61-66 | linking by rank merges exactly two groups and keeps 2^rank members under every root |
| DisjointSet.AddingKeepsRoots | relay/disjointset.py:41-44 | a new element is a group of its own and no other group changes |
| DisjointSet.SameRootIsEquivalence | relay/disjointset.py:57-69 | sharing a root is, both ways, being related by a chain of unions |
| DisjointSet.MergeRepresents | relay/disjointset.py:57-66 | a forest that represented the unions represents them with the new one added |
| DisjointSet.DepthIsLogarithmic | relay/disjointset.py:46-66 | 2 to the depth of any element is at most the number of elements |
| FenwickTree.LowBitIsAndWithNegation | relay/fenwicktree.py:53-62 | the step of both walks is, bit by bit, the conjunction of the index and its negation |
| FenwickTree.WalkSkipsNoCover | relay/fenwicktree.py:50-53 | no cell between two steps of the update walk covers the index |
| FenwickTree.WalkKeepsCovers | relay/fenwicktree.py:50-53 | from the next step on, the cells covering the index are those covering that step |
| FenwickTree.SumAfterUpdate | relay/fenwicktree.py:47-53 | a point update moves exactly the range sums that hold the index |
| FenwickTree.ClearingLowBit | relay/fenwicktree.py:60-62 | each step of the query walk clears one set bit |
| FenwickTree.StepDoublesLowBit | relay/fenwicktree.py:50-53 | each step of the update walk at least doubles the lowest set bit |
| FenwickTree.QueryWalkIsLogarithmic | relay/fenwicktree.py:60-62 | 2 to the number of set bits is at most the index plus one |
| FenwickTree.Tree.Update | relay/fenwicktree.py:47-53 | adds delta at one index of the abstract array, to exactly the cells covering it, in steps with 2^steps at most twice the size; an index outside is refused unchanged |
| FenwickTree.Tree.PrefixSum | relay/fenwicktree.py:55-63 | the sum of the abstract array up to the index, in as many steps as the index has set bits |
| FenwickTree.Tree.RangeSum | relay/fenwicktree.py:65-68 | the sum over both ends inclusive; refused when out of order or out of range |
| Crc32c.CrcIsPolynomialRemainder | relay/crc32c.py:50-54 | the CRC is the complemented remainder of dividing the message times x^32, its first 32 bits complemented, by the generator |
| Crc32c.RunIsRemainder | relay/crc32c.py:50-54 | the shift register computes long division from any starting register |
| Crc32c.RegOfPoly | relay/crc32c.py:33-34 | the reflected constant denotes the CRC-32C generator of section 12.1 of RFC 3720 |
| Crc32c.LookupIsEightSteps | relay/crc32c.py:37-44 | one table lookup with a shift by eight equals eight single-bit steps, for every register |
| Crc32c.UpdateIsRun | relay/crc32c.py:53 | one byte of the loop is the register run on its eight bits, lowest first |
| Crc32c.RegOfStepBits | relay/crc32c.py:41-42 | stepping the reflected integer is shifting the register of coefficients |
| Crc32c.ShiftInjective | relay/crc32c.py:42 | the single-bit step loses nothing: equal successors have equal predecessors |
| Crc32c.RunInjectiveInRegister | relay/crc32c.py:50-54 | distinct registers stay distinct under the same message |
| Crc32c.BurstChangesRegister | relay/crc32c.py:50-54 | messages differing only in a window of at most 32 bits leave different registers |
| Crc32c.BurstDetected | relay/crc32c.py:50-64 | equally long messages differing only within 32 bits, at any bit alignment, have different CRCs |
| Crc32c.FourByteChangeDetected | relay/crc32c.py:57-64 | any change within four consecutive bytes changes the CRC |
| Crc32c.BuildTable | relay/crc32c.py:37-44 | the nested loops build the table of eight-step registers |
| Crc32c.Crc32c | relay/crc32c.py:50-54 | the loop over the bytes returns the CRC, and so the complemented polynomial remainder |
| Crc32c.Verify | relay/crc32c.py:57-64 | true exactly when the stored value is the CRC; a stored value outside 32 bits is refused |
| LogMatching.FollowerLog.Append | relay/logmatching.py:42-54 | accepted exactly when the entry before the batch agrees; then the tail is cut and the batch installed, otherwise nothing changes |
| LogMatching.FollowerLog.AgreementPoint | relay/logmatching.py:56-63 | for any two logs, the last leader index up to which every leader entry is held with the same term, or 0 if there is none |
| LogMatching.AgreementPointIsCommonPrefix | relay/logmatching.py:56-63 | on gap-free logs the agreement point is the length of the longest common prefix |
| LogMatching.AppendInstallsPrefix | relay/logmatching.py:51-53 | a leader slice accepted after an equal prefix leaves exactly the leader's prefix |
| LogMatching.NextKeepsInv | relay/logmatching.py:42-54 | every proposal and every append, in any order, delayed or repeated, keeps the logs built from leader prefixes |
| LogMatching.SendConverges | relay/logmatching.py:42-54 | a send changes nothing or leaves the node with the leader's prefix, and is accepted exactly when the previous entry matches |
| LogMatching.LogMatching | relay/logmatching.py:3-21 | over every run, two logs with the same term at an index hold the same entries at every index up to it |
| LogMatching.BackwardWalkFindsAgreementPoint | relay/logmatching.py:11-21 | in every reachable state a send is accepted exactly when it starts at or below the agreement point |
| LogMatching.GapIsAccepted | relay/logmatching.py:51-53 | a batch that does not start right after the agreed entry is accepted and leaves a gap |
| LogMatching.AppendKeepsContiguityIff | relay/logmatching.py:51-53 | an accepted append leaves the log gap-free exactly when every index of the batch is positive and follows on from the kept prefix or from the batch's own index before it |
| CausalDelivery.CausalDelivery.Accept | relay/causaldelivery.py:46-50 | a message whose dependencies are missing is buffered with them, replacing what was buffered under its id; otherwise it and everything it unblocks is released, in an order that respects dependencies |
| CausalDelivery.CausalDelivery.Deliver | relay/causaldelivery.py:52-65 | the cascade ends with nothing deliverable left buffered, and moves exactly the released messages |
| CausalDelivery.CausalDelivery.Sweep | relay/causaldelivery.py:58-64 | one pass over the buffer, in any order, either shrinks it or leaves everything as it was with nothing deliverable |
| CausalDelivery.TraceInvariant | relay/causaldelivery.py:43-65 | after every call of every trace: delivered in causal order, nothing deliverable held, nothing delivered beyond the closure |
| CausalDelivery.CausesComeFirst | relay/causaldelivery.py:43-65 | every released message follows all its dependencies |
| CausalDelivery.DeliveredIsLeastFixpoint | relay/causaldelivery.py:46-65 | the delivered set is the least set closed under the dependencies of what was accepted; the rest is buffered |
| CausalDelivery.ArrivalOrderIsIrrelevant | relay/causaldelivery.py:46-65 | traces that accept the same ids end in the same state, whatever the order, the repetition or the order of the sweep |
| CausalDelivery.ReleasedOnceIff | relay/causaldelivery.py:46-48 | each id is released at most once exactly when none is accepted after its delivery |
| Compaction.Compactor.Compact | relay/compaction.py:41-74 | the two loops keep, count as superseded or reap each record; an empty log is refused unchanged |
| Compaction.Compactor.FindLast | relay/compaction.py:50-52 | the first loop maps each key to the offset of its last record |
| Compaction.CompactionConserves | relay/compaction.py:54-72 | kept, superseded and reaped add up to the input |
| Compaction.FateOfRecord | relay/compaction.py:54-72 | with the age rule written out, a record is kept exactly when it is its key's last and not an observed tombstone older than the retention, reaped exactly when it is one, and superseded exactly when it is not the last |
| Compaction.UnrecordedTombstoneStays | relay/compaction.py:62-69 | a tombstone without a recorded tick is never reaped under a retention that is not negative |
| Compaction.CompactedLast | relay/compaction.py:50-72 | the compacted log answers for each key with its last record, or with nothing if that is a reaped tombstone |
| Compaction.CompactionPreservesReplay | relay/compaction.py:41-74 | the compacted log replays to the same key map |
| Compaction.ResumeIsExactIff | relay/compaction.py:61-71 | a consumer resuming at an offset ends in the right state exactly when no key it holds had its tombstone reaped ahead of it |
| Compaction.CompactedAllLast | relay/compaction.py:50-72 | after any sequence of compactions the last record of a key is still there, or was a tombstone below every offset not yet observed |
| Compaction.ObservedTombstonesStayDead | relay/compaction.py:61-71 | a consumer at or above the minimum offset of every compaction so far resumes in exactly the right state, however often the log was compacted |
| Compaction.LaggingReaderCanResurrect | relay/compaction.py:63-65 | below that offset it can: a concrete log, policy and reader |
| Compaction.RepeatedCompactionPreservesReplay | relay/compaction.py:41-74 | read from the start, a log compacted any number of times replays to the same key map |
| Compaction.CompactionKeepsOffsets | relay/compaction.py:76-82 | after any number of compactions the kept records come from the input with their offsets, in order and unrepeated |
| MerkleTree.MerkleTree.Root | relay/merkletree.py:49-59 | the nested loops fold the leaf hashes pairwise, pairing an odd last node with itself |
| MerkleTree.MerkleTree.Diff | relay/merkletree.py:61-70 | refuses unequal leaf counts, and otherwise returns the indexes compared behind the root shortcut |
| MerkleTree.EqualRootsOrCollision | relay/merkletree.py:49-59 | equal roots over equally many leaf hashes mean equal leaf hashes, or two distinct strings the trees hashed alike |
| MerkleTree.DiffIsExactOrCollision | relay/merkletree.py:61-70 | the diff lists exactly the indexes of differing leaves, or a collision among the hashed strings exists |
| MerkleTree.ShortcutHidesOnlyCollisions | relay/merkletree.py:67-68 | an empty diff over differing leaf hashes exhibits a collision |
| MerkleTree.RootJoinsHalves | relay/merkletree.py:49-59 | the shape of the tree: the leaves up to the largest power of two form the left half, whose root is hashed before the node the others are raised to; one leaf and none as base cases |
| MerkleTree.RaisedAlone | relay/merkletree.py:55-57 | a lone node is paired with itself on every level it is raised |
| MerkleTree.RootHidesRepeatedLastLeaf | relay/merkletree.py:56-67 | over an odd count, repeating the last leaf keeps the root, so unequal counts must be refused |
| ORSet.ORSet.Add | relay/orset.py:44-50 | attaches the tag made of this node and its counter to one element, and advances the counter by one |
| ORSet.ORSet.Remove | relay/orset.py:52-58 | buries exactly the observed tags of the element; an absent element is refused unchanged |
| ORSet.ORSet.Merge | relay/orset.py:64-68 | joins adds, removes and counter with the other replica, which is unchanged; merging with itself is allowed |
| ORSet.MergeCommutative | relay/orset.py:64-68 | merge does not depend on the direction, for every part of the state |
| ORSet.MergeAssociative | relay/orset.py:64-68 | merge does not depend on grouping |
| ORSet.MergeIdempotent | relay/orset.py:64-68 | merging a state with itself changes nothing |
| ORSet.TagsAreUnique | relay/orset.py:45-48 | no tag is issued twice in any run of replicas with distinct ids |
| ORSet.StateReflectsSeen | relay/orset.py:44-71 | at every point a replica's state is determined by the set of updates it has absorbed, even with shared node ids |
| ORSet.StrongConvergence | relay/orset.py:44-71 | replicas that absorbed the same updates hold the same elements, adds and removes, whatever the merges |
| ORSet.MembershipIsObservedRemove | relay/orset.py:52-71 | with distinct node ids, an element is present exactly when some absorbed add of it was observed by no absorbed remove |
| ORSet.RefusedRemoveIsVacuous | relay/orset.py:52-58 | a refused remove would have changed nothing |
| ORSet.UniqueTagsIffDistinctIds | relay/orset.py:39-48 | no run of a set of replicas issues a tag twice exactly when their node ids are distinct |
| ORSet.ClashLosesAdd | relay/orset.py:39-68 | any two replicas with one node id have a run in which a remove at one erases the other's concurrent add of any element |
| ORSet.ObservedRemoveIffDistinctIds | relay/orset.py:39-71 | membership is observed-remove in every run exactly when the node ids are distinct |
| LSMTree.LSMTree.Put | relay/lsmtree.py:49-52 | the map view gains the key; the table as written becomes a new run exactly when it has reached the limit |
| LSMTree.PutKeepsBelowLimit | relay/lsmtree.py:50-52 | after a put the memtable holds fewer keys than the limit, and is empty exactly when the put flushed |
| LSMTree.LSMTree.Delete | relay/lsmtree.py:54-55 | the map view loses the key; a tombstone is written and nothing is flushed |
| LSMTree.LSMTree.Flush | relay/lsmtree.py:57-62 | refused exactly on an empty memtable, and invisible to reads |
| LSMTree.LSMTree.Get | relay/lsmtree.py:64-75 | the newest-first scan finds exactly what the map view holds |
| LSMTree.LSMTree.Compact | relay/lsmtree.py:77-84 | leaves at most one run, without tombstones, and does not change the map view |
| LSMTree.CompactContents | relay/lsmtree.py:77-84 | merging all runs and dropping tombstones is invisible, with any memtable on top |
| LSMTree.NextRefines | relay/lsmtree.py:49-84 | every operation does to the map view what it does to a plain map |
| LSMTree.ReadsMatchPlainMap | relay/lsmtree.py:49-84 | after any sequence of operations every read agrees with the plain map |
| Bitcask.Bitcask.Put | relay/bitcask.py:43-47 | appends at the returned offset; the view gains the key and the index is again the log's replay |
| Bitcask.Bitcask.Get | relay/bitcask.py:49-55 | answers from the view; its tombstone branch cannot be reached |
| Bitcask.Bitcask.Delete | relay/bitcask.py:57-61 | appends a tombstone and the view loses the key; an absent key is refused unchanged |
| Bitcask.Bitcask.CopyLive | relay/bitcask.py:63-69 | in any order of the index, copies one live entry per key, with an index equal to the new log's replay |
| Bitcask.Bitcask.Compact | relay/bitcask.py:63-72 | leaves exactly one entry per live key, the index still the replay, the view unchanged |
| Bitcask.CompactionKeepsContents | relay/bitcask.py:63-72 | a compacted log replays to the same contents and holds one entry per live key |
| Bitcask.DenseReplay | relay/bitcask.py:66-71 | in a log of distinct live keys, replay points each key at its own entry |
| Bitcask.RunRefinesPlainMap | relay/bitcask.py:43-72 | after any sequence of operations the log stands for the plain map they describe |
| PriorityQueue.PriorityQueue.Push | relay/priorityqueue.py:41-50 | keeps the heap order and adds exactly the pushed pair to the pending multiset |
| PriorityQueue.PriorityQueue.Peek | relay/priorityqueue.py:52-55 | a least pending pair, with no smaller priority pending, and no item of that priority that the dictionary puts before it; or a refusal when empty |
| PriorityQueue.PriorityQueue.Pop | relay/priorityqueue.py:57-65 | removes and returns such a pair and keeps the heap order; refused when empty |
| PriorityQueue.RootIsServedFirst | relay/priorityqueue.py:46-60 | the root has the smallest priority number of the heap and, among equal numbers, the first item in dictionary order |
| PriorityQueue.TextBeforeIff | relay/priorityqueue.py:46 | one item comes before another exactly when it is a proper prefix or has the smaller character at the first difference |
| PriorityQueue.PriorityQueue.SiftDown | relay/priorityqueue.py:67-79 | from a heap broken only at one node, restores the order and keeps the multiset |
| PriorityQueue.RootIsLeast | relay/priorityqueue.py:52-60 | the local heap order makes the root a global minimum |
| PriorityQueue.SiftUpStep | relay/priorityqueue.py:44-48 | one swap upward moves the only broken link to the parent |
| PriorityQueue.SiftDownStep | relay/priorityqueue.py:69-79 | one swap downward moves the only broken node to the smaller child, and stopping means the heap is whole |
| PriorityQueue.PriorityQueue.Drain | relay/priorityqueue.py:57-65 | a caller that pops until the queue is empty gets a draining of what was pending, which is sorted and holds exactly that |
| PriorityQueue.DrainSorts | relay/priorityqueue.py:57-65 | every draining is a sorted rearrangement of what was pending |
| PriorityQueue.DrainIsDetermined | relay/priorityqueue.py:57-65 | two drainings of the same pending multiset are the same sequence |
| FairQueue.FairQueue.Enqueue | relay/fairqueue.py:51-54 | appends to one client's queue and touches nothing else; an unknown client is refused unchanged |
| FairQueue.FairQueue.ServeClient | relay/fairqueue.py:57-63 | one client's turn: the weight is granted and heads are served while they fit, other clients untouched |
| FairQueue.FairQueue.ServeCovered | relay/fairqueue.py:59-63 | the inner loop serves heads from the front while the deficit covers them, and stops there |
| FairQueue.FairQueue.Round | relay/fairqueue.py:56-63 | every client gets exactly one turn, in whatever order they are visited |
| FairQueue.ServedInOrder | relay/fairqueue.py:51-63 | after every trace a prefix of the client's requests has been served, their costs are its service, and the others wait in the order they came |
| FairQueue.QuantumIsConserved | relay/fairqueue.py:57-63 | served plus deficit is always rounds times weight, and the deficit is never negative |
| FairQueue.ServiceIsShareAndSpent | relay/fairqueue.py:57-63 | over any window, a client's service is its weight times the rounds plus what it drew from its deficit |
| FairQueue.ServiceTracksWeightIff | relay/fairqueue.py:56-63 | over any window of any trace, service is within one largest request of its share exactly when the deficits at the two ends are within one of each other |
| FairQueue.ServiceTracksWeight | relay/fairqueue.py:56-63 | with less than one largest request carried at each end, service is within one largest request of its share |
| FairQueue.HeldOverIsLean | relay/fairqueue.py:60-62 | a client left with work at the last round carries less than one largest request, whatever arrived since |
| FairQueue.BackloggedIsLean | relay/fairqueue.py:57-62 | so does every client before the first round, however much it has queued |
| FairQueue.HoardIsTheOnlyExcess | relay/fairqueue.py:56-63 | into a point with work held over, service tracks the weight exactly when the client brought in less than one largest request more than it took out |
| FairQueue.AlwaysTracksIffLean | relay/fairqueue.py:56-63 | service tracks the weight in every window from here to a point with work held over, whatever arrives, exactly when the client now carries less than one largest request |
| FairQueue.FairSharesIff | relay/fairqueue.py:56-63 | over any window of any trace the rounds granted cancel: two services are fair to each other exactly when the amounts drawn from the two deficits are |
| FairQueue.FairShares | relay/fairqueue.py:56-63 | from balanced deficits to an end where both clients carry less than one largest request, their services, each times the other's weight, differ by less than the largest cost times the sum of the weights |
| FairQueue.LeanIsBalanced | relay/fairqueue.py:57-62 | two clients that each carry less than one largest request carry balanced deficits |
| FairQueue.WorstWindow | relay/fairqueue.py:56-63 | after any trace some continuation leaves both clients with work held over, one with nothing carried and the other with one unit less than the largest cost |
| FairQueue.AlwaysFairIffBalanced | relay/fairqueue.py:56-63 | two clients are served fairly in every window from here to a point with work of both held over, whatever arrives, exactly when the deficits they carry now are balanced |
| FairQueue.BurstAfterIdleIsUnfair | relay/fairqueue.py:57-62 | backlog at both ends is not enough: after k idle rounds a client is served k + 1 in a round where an equal one is served 1, which is fair exactly for k below 2 |
| FairQueue.HeadIsServedInTime | relay/fairqueue.py:58-63 | a head request is served by the time the rounds have granted its cost |
| FairQueue.IdleQuantumIsHoarded | relay/fairqueue.py:57-60 | while a client with an empty queue enqueues nothing, every round adds its whole weight to the carried deficit |
| MergeIterator.CheckSorted | relay/mergeiterator.py:35-41 | the scan of neighbours refuses exactly the streams that are not sorted |
| MergeIterator.PickSmallest | relay/mergeiterator.py:50-57 | chooses a least head among the unfinished streams, or none exactly when all are finished |
| MergeIterator.MergeSorted | relay/mergeiterator.py:47-64 | the cursor loop ends having taken the sorted pool of all elements, and emits it with repeats collapsed when asked to |
| MergeIterator.Merge | relay/mergeiterator.py:44-64 | the sort of all streams together, without repeats under dedupe; refused exactly when some stream is not sorted |
| MergeIterator.CollapsedIsStrict | relay/mergeiterator.py:61-63 | dropping repeats of the last output makes a sorted list strictly increasing with the same values |
| MergeIterator.TakeStep | relay/mergeiterator.py:58-63 | taking a least head keeps the output sorted, the pool conserved and every remaining element above |
| MergeIterator.MergeKeepsElements | relay/mergeiterator.py:44-64 | without dedupe the result is sorted and its multiset is the sum of the inputs |
| MergeIterator.DedupeKeepsValues | relay/mergeiterator.py:61-63 | with dedupe the result is strictly increasing and holds exactly the values of the inputs |
| MergeIterator.StreamOrderIsIrrelevant | relay/mergeiterator.py:52-57 | passing the streams in another order gives the same result, with and without dedupe |
| MergeIterator.MergeIsSortOfAll | relay/mergeiterator.py:44-64 | any sorted arrangement of the pooled elements is the sort of the streams laid end to end in any order |
| Framing.FrameReader.Feed | relay/framing.py:49-71 | the loop cuts every whole frame and keeps the rest; it raises, with the earlier frames gone, exactly when the rest starts with a whole header whose length is negative or over the limit |
| Framing.StopsBadIff | relay/framing.py:53-68 | reading stops bad exactly in front of a negative or oversize length, and otherwise exactly because a header or the frame it announces is incomplete |
| Framing.BufferIsBounded | relay/framing.py:53-68 | what a feed that does not raise leaves buffered is less than a header and one frame of the largest size |
| Framing.LengthIsSigned | relay/framing.py:55 | the length is the four bytes, most significant first, in two's complement |
| Framing.ReadContinues | relay/framing.py:49-71 | reading more bytes continues from the kept ones; a bad length stays bad |
| Framing.ChunkingIsIrrelevant | relay/framing.py:49-71 | piece by piece yields what the whole stream yields; before a bad length the raising call loses exactly the frames it had cut |
| Framing.GoodStreamsFrameAlike | relay/framing.py:49-71 | two chunkings of one stream without a bad length end alike, in frames and in leftover |
| Framing.ChunkingNeverShowsIff | relay/framing.py:49-71 | all chunkings of a stream return the same frames exactly when it holds no bad length, or one before any frame is complete |
| Framing.LossDependsOnChunking | relay/framing.py:51-70 | every stream with a bad length, fed whole, returns nothing and loses all its frames; cut where they end, it returns them all |
| Framing.BadRestStaysBad | relay/framing.py:55-66 | what a refusal leaves in the buffer starts with the bad length |
| Framing.RefusalIsPermanent | relay/framing.py:55-66 | after a refusal every later feed is refused and only grows the buffer |
| Framing.ReadUndoesEncode | relay/framing.py:49-71 | length-prefixed frames no longer than the maximum read back as themselves with nothing left |
| Framing.EncodeUndoesRead | relay/framing.py:49-71 | encoding what was read, then the rest, gives the stream back: no byte lost or invented |
| Framing.ChunkedRoundTrip | relay/framing.py:49-71 | any chunking of an encoding delivers exactly the frames |
| Idempotent.IdempotencyGate.OpenSession | relay/idempotent.py:43-58 | a fresh session unless the epoch is behind the held one, which is refused unchanged; no other producer is touched |
| Idempotent.OpensIffNewest | relay/idempotent.py:46-57 | over every run, an opening is let through exactly when no opening of that producer with a later epoch was tried before |
| Idempotent.IdempotencyGate.AdmitRecord | relay/idempotent.py:60-105 | the answer and the new state for each of the six outcomes; only an acceptance changes a session, and only a duplicate the count |
| Idempotent.DuplicateIffAccepted | relay/idempotent.py:73-87 | over every run, an admission is answered as a duplicate at an offset exactly when its producer is current and that sequence was accepted at that offset in the same opening |
| Idempotent.AcceptedIffNext | relay/idempotent.py:93-105 | over every run, a record is accepted exactly when its producer is current and it is the next sequence of the opening |
| Idempotent.RefusedOtherwise | relay/idempotent.py:67-99 | every other admission is refused: Fenced exactly when the epoch is behind, Invalid exactly for an unopened producer, a gap or a negative sequence |
| Idempotent.AcceptedSequencesHaveNoGaps | relay/idempotent.py:93-101 | in every reachable session the accepted sequences are exactly 0 to the last |
| Idempotent.RetryIsAlwaysAnswered | relay/idempotent.py:78-92 | a non-negative sequence at or below the last is always answered with its recorded offset, so the never-seen branch is unreachable for it |
| Idempotent.RecordsStay | relay/idempotent.py:78-101 | within one opening, what is recorded stays at its offset and the last sequence never falls |
| Idempotent.AcceptedTwiceOnlyIfReopened | relay/idempotent.py:60-105 | one sequence accepted at two steps means the producer was opened anew in between |
| Idempotent.AcceptedInOrder | relay/idempotent.py:93-101 | within one opening later acceptances carry larger sequences |
| Idempotent.RetryGetsOriginalOffset | relay/idempotent.py:78-87 | a retry within the opening is answered with the offset first assigned |
| Idempotent.DuplicateWasAccepted | relay/idempotent.py:78-101 | every recorded sequence was accepted earlier in the same opening, at the recorded offset |
| Idempotent.EpochNeverFalls | relay/idempotent.py:46-57 | a producer's epoch never falls along any run |
| Idempotent.ZombieStaysFenced | relay/idempotent.py:46-77 | an epoch once overtaken is fenced in every later state |
| Idempotent.AdmitUpTo | relay/idempotent.py:93-101 | a producer can go on from where its session stands up to any later sequence, by admissions alone |
| Idempotent.RepeatableIffReopened | relay/idempotent.py:47-105 | over every run, a record accepted at a step can come to be accepted again without a further opening exactly when its producer was opened anew after that step |
| Idempotent.ReopeningAcceptsAgain | relay/idempotent.py:47-57 | over every run, any opening that is let through makes every record accepted so far acceptable again |
| HybridLogicalClock.HybridLogicalClock.Tick | relay/hlc.py:41-48 | the new stamp is the wall clock's if that has moved past the node's last one, and otherwise the next after it |
| HybridLogicalClock.HybridLogicalClock.OnReceive | relay/hlc.py:50-62 | the new stamp is the wall clock's if that has moved past both, and otherwise the next after the later of the node's last stamp and the message's |
| HybridLogicalClock.HybridLogicalClock.Compare | relay/hlc.py:73-79 | the order of the stamps, zero exactly on equal ones |
| HybridLogicalClock.CausalityIsStamped | relay/hlc.py:41-62 | over every run, an event in another's causal past carries a smaller stamp, however skewed the walls |
| HybridLogicalClock.PhysicalIsLargestKnownWall | relay/hlc.py:41-62 | the physical part is exactly the largest wall reading in the event's causal past |
| HybridLogicalClock.CounterIsZeroIff | relay/hlc.py:42-60 | over every run, the counter is zero exactly when the event's wall clock is past every reading in its causal past |
| HybridLogicalClock.CounterContinues | relay/hlc.py:45-61 | a counter above zero is one more than that of an event just before with the same physical part, or the first |
| HybridLogicalClock.CounterIsBounded | relay/hlc.py:41-62 | the counter is at most the number of events in the causal past, with the same physical part, whose wall clock was not past what they knew |
| CountingBloom.CountingBloom.Add | relay/countingbloom.py:53-56 | one increment per hash hit, pinned at the maximum; every counter stays exact or pinned |
| CountingBloom.CountingBloom.MightContain | relay/countingbloom.py:58-59 | true exactly when all the key's counters are positive, and so for every key present |
| CountingBloom.CountingBloom.Remove | relay/countingbloom.py:61-69 | refused unchanged exactly when the test is negative; otherwise one occurrence of the key is gone, and if it was present every counter stays exact or pinned |
| CountingBloom.CountingBloom.IncrementAll | relay/countingbloom.py:54-56 | the in-place loop raises each counter once per hash hit, up to the maximum |
| CountingBloom.CountingBloom.DecrementAll | relay/countingbloom.py:67-69 | the in-place loop lowers each counter once per hash hit, unless it is zero or pinned |
| CountingBloom.TestsAfterOneAddIff | relay/countingbloom.py:50-59 | with one key in the filter another tests positive exactly when each of its hashes, masked and reduced, meets one of the key's |
| CountingBloom.RestoredIffNotSaturated | relay/countingbloom.py:53-69 | removing what was just added restores a counter exactly when it did not saturate |
| CountingBloom.NextKeepsTracking | relay/countingbloom.py:53-69 | adding any key or removing a present one, on whatever counters, leaves every counter exact or pinned at the maximum |
| CountingBloom.RunKeepsTracking | relay/countingbloom.py:47-69 | over every run whose removes name present keys, each counter is exactly the hits of the keys present, or pinned |
| CountingBloom.LoadAfterForget | relay/countingbloom.py:61-69 | forgetting a present key lowers every position's exact count by that key's hits |
| CountingBloom.NoFalseNegativesIff | relay/countingbloom.py:53-69 | with exact or pinned counters a present key tests positive exactly when the maximum is at least one |
| CountingBloom.NoFalseNegativesInAnyRun | relay/countingbloom.py:53-69 | over every run whose removes name present keys, every key still present tests positive, even after saturation |
| CountingBloom.RemoveSparesKeyIff | relay/countingbloom.py:61-69 | a key survives the removal of another exactly when each of its counters is not hit, exceeds the other's share or is pinned |
| CountingBloom.RemovingFalsePositiveHidesKey | relay/countingbloom.py:61-69 | removing a key never added, but sharing the positions of the one present, hides that one |
| LruCache.LruCache.Get | relay/lrucache.py:48-54 | a hit returns the held value, counts as a hit and makes the key newest; a miss changes only the count of misses; no value changes |
| LruCache.LruCache.Put | relay/lrucache.py:56-65 | one key gets the value and becomes newest, every other key still held keeps its value, and when a new key overflows exactly the oldest is given up |
| LruCache.LruCache.KeysMruFirst | relay/lrucache.py:67-68 | the keys from newest to oldest |
| LruCache.GetKeepsValid | relay/lrucache.py:48-54 | a get keeps one position per key and the bound |
| LruCache.PutKeepsValid | relay/lrucache.py:56-65 | a put keeps one position per key and the bound |
| LruCache.LargerCacheIncludesSmaller | relay/lrucache.py:48-65 | on the same trace a larger cache always holds every key, value and relative order a smaller one holds, and hits at least as often |
| LruCache.HoldsLastValues | relay/lrucache.py:48-65 | over every trace each held key holds the value of the last put of that key |
| LruCache.CountersAreExact | relay/lrucache.py:48-53 | over every trace the counters are the numbers of reads that found their key and that did not |
| LruCache.HoldsMostRecentlyUsed | relay/lrucache.py:48-65 | over every trace the cache holds exactly the most recently used keys, in order of last use |

## Left out

- Report, note, status and health strings, and the text of messages and errors.
- Floating point: the elements selected from are integers, standing for any total order without NaN, and a percentile's rank is computed over reals, so rounding of `p / 100 * n` is not modelled.
- SHA-256 and Python's `hash` are function parameters, the Merkle one with results of a fixed width; no collision bound is claimed.
- Constructor arguments the source refuses (sizes, limits and capacities below one, weights at or below zero) are preconditions of the constructors.
- Dictionaries and lists a caller passes in as initial internal state (`_tree`, `counters`, `_heap`, `log`, `index`, `adds` and the like): objects start empty.
- Aliasing of the session object that `open_session` returns: sessions are values, so a caller's later changes to it are not modelled.
- Lists that grow (`_heap`, `log`, `runs`, the framer's byte buffer) are `seq` fields that the methods reassign, so their element updates are not array writes.
- The machine words of the CRC are non-negative integers below 2^32 with exclusive-or defined on their bits.
- The inner loops of `kth_smallest`, `merge`, `round`, `find` and `_deliver` are methods of their own, each with its contract.
- `CausalDelivery.force_deliver`, `DisjointSet.group_count`, `FenwickTree.total` and `check_batch`: they restate or print results of the modelled operations.
- Log entries carry only their terms, as in the source; commands, elections, commit indexes and Raft's commit safety are not modelled, and each term has one append-only leader log.
- Running times, except the walks bounded above (the Fenwick tree's two and the union-find climb).
- An admit at an epoch later than the session's is let through as in the source, so nothing is claimed about that epoch having been registered.
- The first-seen or last-seen policy for equal elements that the merge iterator's docstring describes, which the code does not have.
- The remaining modules of the repository, most of them a single guard or counter.
