# Verified models of the data-structure handbook

This project models the handbook's C++ reference implementations whose correctness is not visible
from their code, and proves that they do what their documentation promises: lock-free protocols in
every interleaving, self-adjusting pointer structures against plain values, layered stores against
a map, fast algorithms against slow ones, and proof objects against arbitrary provers.
`dafny verify dfyconfig.toml` checks everything.

How the parts are modelled:

- **Lock-free protocols** (`hazard_*`, `snapshot`, `ms_queue`, `rcu`) are state machines. One step is
  one atomic load, store, exchange or compare-and-swap, or one dereference or free, of one thread; a
  weak compare-and-swap may fail for no reason. Theorems speak of the state after any schedule.
  Using or freeing a freed node raises a fault flag, which is shown never to rise. Linearisation is
  stated through a log of effects that replays on the sequential structure, with one entry per
  finished call between its start and its end. What each call was asked to do, and when it ran, is
  read off the schedule (`call_records`, `hazard_calls`, `ms_queue_calls`, `snapshot_calls`), and so
  is which entry each RCU update published and each section was given (`rcu_history`).
- **Pointer structures** (`lct_*`, `link_cut_tree`, `rb_*`) are classes over one memory of nodes with
  the program's fields; node 0 is the null pointer. Ghost fields say where each node stands: for
  link-cut trees the stretch of its preferred path and the parity of the pending reversals above it,
  for red-black trees the stretch of the in-order list and the black height. Invariants are local to
  a node and its neighbours. The mirrored branches of the red-black fixups share one body with a
  side as parameter.
- **Stores and caches** (`lsm_*`, `arc_*`) are classes whose contents are compared with a map and
  with the values last put. The adaptive cache also carries the time of the last use of every key
  (`arc_usage`), by which its lists are ordered and its victims chosen.
- **Algorithms** (`optimal_bst*`, `spanning_trees`, `minimum_spanning_trees`, `prim`, `disjoint_sets`,
  `shortest_paths`, `johnson`, `binomials`, `combinatorics`, `aho_*`, `vector_clocks`,
  `sliding_median`) are the program's loops, proved against definitions that do not mention them:
  all search trees on the keys, all spanning trees, all walks, Pascal's triangle, all occurrences,
  the transitive closure of messages, the sorted window.
- **Trees as values** (`treap_proofs`, `treap_insert`, `treap_shape` beside the pointer code of `treap_nodes`;
  `btree_*` and `fusion_tree`).

Where the code does less than its documentation says, the exact condition is proved:

- Treap digests cut string lengths to 32 bits. Verification is sound for arbitrary proof objects
  exactly if the strings of the tree allow no second reading
  (`TreapProofs.MembershipSoundExactly`); strings below 2^32 bytes always qualify, and a key of 2^32
  zero bytes is an instance that does not.
- Factorial tables as long as the prime make every `nCr` answer 0 (`ModularCombinatorics.NCr`), and
  `mod_pow` answers 1 for exponent 0 modulo 1 (`ModPow`).
- A pattern added to the Aho-Corasick matcher after `build` is answered rightly exactly if it is a
  prefix of a known pattern that no longer known prefix ends with (`AddPattern`,
  `LateAddExactly`), and a second `build` never returns (`SecondBuildNeverEnds`).
- The adaptive cache keeps its bound for every capacity of at least 1 and breaks it at once for 0.
- The optimal-search-tree tables are right as long as no cost reaches the sentinel
  (`OptimalBstTables.SmallInputFits` gives a bound that a caller can check).

## Model

| member | source | states |
|---|---|---|
| `HazardTheorems.NoUseAfterFree` | implementations/cpp/hazard_pointers_and_epoch_reclamation.cpp:107-161 | in every interleaving of pushes, pops, retirements and slot-by-slot scans, with freed addresses reused at will, no thread touches a freed node and nothing is freed twice |
| `HazardTheorems.PopInstallsTrueSuccessor` | implementations/cpp/hazard_pointers_and_epoch_reclamation.cpp:224-257 | whenever the CAS of a pop can succeed, the head is the very node that was validated (same allocation, not a reused address) and the value to be installed is its true successor: no ABA |
| `HazardTheorems.ReadsTheValidatedNode` | implementations/cpp/hazard_pointers_and_epoch_reclamation.cpp:231-241 | the node whose next field a pop reads is still the allocation it published and validated |
| `HazardTheorems.RetiredListBounded` | implementations/cpp/hazard_pointers_and_epoch_reclamation.cpp:119-161 | after every retire a thread holds at most MAX_THREADS * SLOTS_PER_THREAD retired nodes, one more only while its own scan is running |
| `HazardTheorems.EveryNodeHasOneHolder` | implementations/cpp/hazard_pointers_and_epoch_reclamation.cpp:213-257 | every live node is in the stack or with exactly one thread, and allocations equal frees plus live nodes: none leaks |
| `HazardTheorems.StackIsTheReplayedLog` | implementations/cpp/hazard_pointers_and_epoch_reclamation.cpp:213-257 | the linked nodes from head hold exactly the contents of a sequential LIFO stack after the logged operations |
| `HazardTheorems.FinishedCallsAreLinearised` | implementations/cpp/hazard_pointers_and_epoch_reclamation.cpp:213-257 | every finished call is the operation its thread asked for in the step that began it, read off the schedule, a push with its own argument, over the interval from that step to the one that ended it; it has its effect at one point of the LIFO log inside that interval (a pop that finds nothing: at an instant when the stack is empty), two calls never at the same point, and calls that do not overlap keep their order |
| `HazardTheorems.EventsAreTheCallsAskedFor` | implementations/cpp/hazard_pointers_and_epoch_reclamation.cpp:213-257 | every push in the log puts the argument of that very call on the stack, and every pop in it belongs to a call that was asked to pop |
| `HazardTheorems.EndedCallsAreFinished` | implementations/cpp/hazard_pointers_and_epoch_reclamation.cpp:213-257 | every call that has ended is among the finished calls |
| `HazardCalls.NextAsked` | implementations/cpp/hazard_pointers_and_epoch_reclamation.cpp:213-257 | every atomic step keeps the agreement between the calls of the schedule and the nodes, the log and the finished calls |
| `HazardTheorems.NoCallTakesEffectTwice` | implementations/cpp/hazard_pointers_and_epoch_reclamation.cpp:213-257 | no call appears twice in the log |
| `HazardTheorems.NextSafe` | implementations/cpp/hazard_pointers_and_epoch_reclamation.cpp:107-257 | every atomic step keeps the safety invariant (owners, protections, scan coverage, list bounds) |
| `HazardTheorems.NextHistory` | implementations/cpp/hazard_pointers_and_epoch_reclamation.cpp:213-257 | every atomic step keeps the linearisation invariant |
| `HazardSafety.ValidateSafe` | implementations/cpp/hazard_pointers_and_epoch_reclamation.cpp:231-238 | publishing and then re-reading head makes the published node protected: no later scan can free it while it is published |
| `HazardSafety.ScanSlotSafe` | implementations/cpp/hazard_pointers_and_epoch_reclamation.cpp:137-146 | reading one slot of the scan keeps the fact that every protected retired node has been or still will be seen |
| `HazardSafety.ReclaimFreeSafe` | implementations/cpp/hazard_pointers_and_epoch_reclamation.cpp:150-159 | freeing a retired node that the scan did not see keeps every other thread safe |
| `HazardSafety.AcquireSafe` | implementations/cpp/hazard_pointers_and_epoch_reclamation.cpp:81-94 | claiming a thread record keeps ids unique |
| `HazardHistory.PopCasHistory` | implementations/cpp/hazard_pointers_and_epoch_reclamation.cpp:241-253 | a successful pop CAS is the instant at which the popped value leaves the sequential stack |
| `HazardHistory.PushCasHistory` | implementations/cpp/hazard_pointers_and_epoch_reclamation.cpp:217-222 | a successful push CAS is the instant at which the value enters it |
| `SnapshotProof.ScansAreAtomicAndBounded` | implementations/cpp/lock_free_and_wait_free_basics.cpp:157-195 | with one writer per index, every scan returns the whole register array as it was at one instant inside the scan, also when it adopts a snapshot that was itself adopted, and within N + 1 collect rounds |
| `SnapshotProof.UpdatesAreAtomic` | implementations/cpp/lock_free_and_wait_free_basics.cpp:135-151 | the recorded instants are exactly the states after each store, and every update stores its value at one instant inside its call |
| `SnapshotProof.StoresAreUpdates` | implementations/cpp/lock_free_and_wait_free_basics.cpp:135-151 | stores and finished updates correspond one to one and in order: every store is that of one update, and later updates have later stores |
| `SnapshotCalls.ReportsAreTheCallsAskedFor` | implementations/cpp/lock_free_and_wait_free_basics.cpp:135-195 | what a thread reports is, in order, what it was asked for, read off the schedule: one scan for a scan; for an update its scan and then the store of its own argument; over the interval of that call |
| `SnapshotCalls.NextAsked` | implementations/cpp/lock_free_and_wait_free_basics.cpp:135-195 | every atomic step keeps that agreement |
| `SnapshotProof.EveryCallEnds` | implementations/cpp/lock_free_and_wait_free_basics.cpp:135-195 | whatever the schedule, every step of a call lowers a bounded measure: all calls are wait-free |
| `SnapshotProof.CompareMeans` | implementations/cpp/lock_free_and_wait_free_basics.cpp:171-182 | what the comparison of two collects decides: clean, adopt from a twice-moved index, or retry with one more index marked |
| `SnapshotMachine.CompareLoop` | implementations/cpp/lock_free_and_wait_free_basics.cpp:171-191 | the loop with its early return computes that decision |
| `SnapshotProof.AdoptedViewOk` | implementations/cpp/lock_free_and_wait_free_basics.cpp:173-178 | an adopted snapshot was taken inside the adopting scan |
| `SnapshotProof.NextOk` | implementations/cpp/lock_free_and_wait_free_basics.cpp:135-195 | every atomic step keeps the invariant |
| `MsQueueProof.TailLagsByAtMostOneLink` | implementations/cpp/concurrent_queues_and_stacks.cpp:356-436 | in every interleaving tail is at or past head and at most one link short of the last node, and the chain from head holds the contents of the sequential queue |
| `MsQueueProof.FinishedCallsAreLinearised` | implementations/cpp/concurrent_queues_and_stacks.cpp:356-436 | every finished call is the operation its thread asked for in the step that began it, read off the schedule, an enqueue with its own argument, over the interval from that step to the one that ended it; it has its effect at one point inside that interval; non-overlapping calls keep their order; empty is answered only if the queue was empty at an instant of the call |
| `MsQueueProof.EventsAreTheCallsAskedFor` | implementations/cpp/concurrent_queues_and_stacks.cpp:356-436 | every enqueue in the log puts the argument of that very call into the queue, and every dequeue in it belongs to a call that was asked to dequeue |
| `MsQueueProof.EndedCallsAreFinished` | implementations/cpp/concurrent_queues_and_stacks.cpp:356-436 | every call that has ended is among the finished calls |
| `MsQueueCalls.NextAsked` | implementations/cpp/concurrent_queues_and_stacks.cpp:356-436 | every atomic step keeps the agreement between the calls of the schedule and the nodes, the log and the finished calls |
| `MsQueueProof.ValuesLeaveInOrder` | implementations/cpp/concurrent_queues_and_stacks.cpp:399-436 | the values enqueued so far are the values dequeued so far followed by the queue: FIFO, nothing lost, nothing dequeued twice |
| `MsQueueProof.FifoOrder` | implementations/cpp/concurrent_queues_and_stacks.cpp:399-436 | the same for every log that replays on a sequential queue |
| `MsQueueProof.NoCallTakesEffectTwice` | implementations/cpp/concurrent_queues_and_stacks.cpp:356-436 | no call appears twice in the log |
| `MsQueueProof.NextOk` | implementations/cpp/concurrent_queues_and_stacks.cpp:356-436 | every atomic step keeps the invariant |
| `MsQueueProof.LinkChain` | implementations/cpp/concurrent_queues_and_stacks.cpp:367-375 | a successful CAS on a null next field can only happen on the last node, and appends to the chain |
| `MsQueueProof.SwingTailOk` | implementations/cpp/concurrent_queues_and_stacks.cpp:376-388 | any swing or help of tail moves it to a node of the chain and never behind head |
| `MsQueueProof.DeqCasOk` | implementations/cpp/concurrent_queues_and_stacks.cpp:417-431 | a successful head CAS removes exactly the first value |
| `MsQueueProof.DeqCheckOk` | implementations/cpp/concurrent_queues_and_stacks.cpp:406-416 | the empty answer is given only when the queue was empty at the read of next |
| `LinkCutTrees.LinkCutTree.constructor` | implementations/cpp/link_cut_trees.cpp:111-114 | a new structure represents n isolated nodes of value 0 |
| `LinkCutTrees.LinkCutTree.IsConnected` | implementations/cpp/link_cut_trees.cpp:208-213 | answers whether a walk joins x and y in the represented graph, and changes nothing in it |
| `LinkCutTrees.LinkCutTree.TryLink` | implementations/cpp/link_cut_trees.cpp:218-224 | adds the edge exactly when x and y were not connected, and says so |
| `LinkCutTrees.LinkCutTree.TryCut` | implementations/cpp/link_cut_trees.cpp:229-241 | removes the edge exactly when it was there, and says so |
| `LinkCutTrees.LinkCutTree.QueryPath` | implementations/cpp/link_cut_trees.cpp:195-201 | for connected nodes, the exclusive or of the values on the one simple path between them |
| `LinkCutTrees.LinkCutTree.Link` | implementations/cpp/link_cut_trees.cpp:171-176 | adds the edge; the assertion against cycles never fails for unconnected nodes |
| `LinkCutTrees.LinkCutTree.Cut` | implementations/cpp/link_cut_trees.cpp:181-190 | removes the edge; the assertion that recognises it never fails for an edge |
| `LinkCutTrees.LinkCutTree.SetVal` | implementations/cpp/link_cut_trees.cpp:116-121 | changes the value of x and of nothing else, with all aggregates kept right |
| `LinkCutTrees.LinkCutTree.GetVal` | implementations/cpp/link_cut_trees.cpp:123-127 | returns the value of x |
| `LinkCutTrees.LinkCutTree.MakeRoot` | implementations/cpp/link_cut_trees.cpp:144-149 | re-roots the represented tree at x: the edges, the values and the aggregates stay |
| `LinkCutTrees.LinkCutTree.FindRoot` | implementations/cpp/link_cut_trees.cpp:154-164 | finds the represented root, and changes no parent and no other tree |
| `LinkCutTrees.LinkCutTree.Leftmost` | implementations/cpp/link_cut_trees.cpp:158-161 | the walk that tests the left child before push_down is right: its push_downs do nothing |
| `LinkCutTrees.LinkCutTree.Access` | implementations/cpp/link_cut_trees.cpp:132-139 | makes the path from the represented root to x one splay tree that ends at x, keeping every represented parent |
| `LinkCutTrees.LinkCutTree.AccessRound` | implementations/cpp/link_cut_trees.cpp:134-138 | one round replaces what is below x on its path by the path gathered so far |
| `LinkCutTrees.LinkCutTree.Splay` | implementations/cpp/link_cut_trees.cpp:81-108 | x becomes an unflagged splay root; no path, parent or value changes and no other splay tree is touched |
| `LinkCutTrees.LinkCutTree.Rotations` | implementations/cpp/link_cut_trees.cpp:95-107 | the zig, zig-zig and zig-zag rotations end with x as splay root |
| `LinkCutTrees.LinkCutTree.Rotate` | implementations/cpp/link_cut_trees.cpp:59-79 | the assignments of a rotation, in order, relink exactly x, its parent, its grandparent and one child |
| `LinkCutTrees.LinkCutTree.PushDown` | implementations/cpp/link_cut_trees.cpp:51-57 | swaps the children and hands the reversal on, keeping the meaning of every node |
| `LinkCutTrees.LinkCutTree.PushUp` | implementations/cpp/link_cut_trees.cpp:46-49 | recomputes one aggregate |
| `LctState.IsRootMeansWhole` | implementations/cpp/link_cut_trees.cpp:41-44 | the splay-root test is right: a node that is not a child of its parent covers its whole path |
| `LctSteps.PushDownKeeps` | implementations/cpp/link_cut_trees.cpp:51-57 | pushing a reversal down changes no path and no stretch of a path |
| `LctSteps.RotateKeeps` | implementations/cpp/link_cut_trees.cpp:59-79 | a rotation keeps the in-order path under pending reversals, including the flag-free top of represented-root paths |
| `LctSteps.RotateSums` | implementations/cpp/link_cut_trees.cpp:59-79 | a rotation keeps every aggregate the exclusive or of its stretch |
| `LctAccess.SpliceKeeps` | implementations/cpp/link_cut_trees.cpp:134-138 | replacing the right subtree of a splay root keeps all links meaningful and every represented parent |
| `LctEdges.TurnKeeps` | implementations/cpp/link_cut_trees.cpp:144-149 | one flag on the splay root reverses the path as a whole |
| `LctForest.TurnedForest` | implementations/cpp/link_cut_trees.cpp:144-149 | reversing the path from a root keeps the edges and the forest free of cycles |
| `LctForest.HungForest` | implementations/cpp/link_cut_trees.cpp:218-224 | hanging a root below a node of another tree adds one edge and closes no cycle |
| `LctForest.CutForest` | implementations/cpp/link_cut_trees.cpp:229-241 | cutting a root from its child removes one edge |
| `LctForest.ConnectedMeansSameRoot` | implementations/cpp/link_cut_trees.cpp:208-213 | two nodes are connected exactly if they have the same represented root |
| `LctForest.OneSimplePath` | implementations/cpp/link_cut_trees.cpp:195-201 | from a represented root exactly one simple path leads to each node below it |
| `LinkCutTrees.CutTest` | implementations/cpp/link_cut_trees.cpp:229-241 | the two child pointers tested by try_cut are as tested exactly if the edge exists |
| `LinkCutTrees.LeftChild` | implementations/cpp/link_cut_trees.cpp:154-164 | below the represented root's splay root no node on the left edge is flagged |
| `OptimalBstTables.OptimalBstCost` | implementations/cpp/interval_and_matrix_dp.cpp:102-137 | the cubic table computes the least cost of any binary search tree on the keys |
| `OptimalBstTables.OptimalBstCostKnuth` | implementations/cpp/interval_and_matrix_dp.cpp:143-187 | the Knuth-restricted root range computes the same optimal cost, for all non-negative frequencies |
| `OptimalBstTables.FillCell` | implementations/cpp/interval_and_matrix_dp.cpp:124-132 | one cell of the cubic table, from the cells of shorter intervals |
| `OptimalBstTables.FillCellKnuth` | implementations/cpp/interval_and_matrix_dp.cpp:167-182 | one cell from the restricted root range, with its smallest optimal root |
| `OptimalBstTables.PrefixSums` | implementations/cpp/interval_and_matrix_dp.cpp:107-114 | the prefix sums |
| `OptimalBstTables.CostIsOptimal` | implementations/cpp/interval_and_matrix_dp.cpp:102-137 | the recurrence is the minimum of the search cost over all trees that hold the keys in order, and is attained |
| `OptimalBstTables.SmallInputFits` | implementations/cpp/interval_and_matrix_dp.cpp:106 | inputs whose size times total weight stays below the sentinel never meet it |
| `OptimalBst.CostQuadrangle` | implementations/cpp/interval_and_matrix_dp.cpp:139-142 | the cost satisfies the quadrangle inequality |
| `OptimalBst.RootMovesRight` | implementations/cpp/interval_and_matrix_dp.cpp:139-142 | the smallest optimal root does not move left when a key is added on the right |
| `OptimalBst.RootMovesLeft` | implementations/cpp/interval_and_matrix_dp.cpp:139-142 | nor right when a key is added on the left |
| `OptimalBst.NoTreeIsCheaper` | implementations/cpp/interval_and_matrix_dp.cpp:128-132 | no tree beats the recurrence |
| `OptimalBst.SomeTreeReachesCost` | implementations/cpp/interval_and_matrix_dp.cpp:128-132 | some tree reaches it |
| `LsmTree.Run` | implementations/cpp/lsm_trees.cpp:185-370 | after any run of put, remove and flush, get answers exactly like a plain map |
| `LsmTree.LSMTree.Put` | implementations/cpp/lsm_trees.cpp:307-313 | sets one key of the view, also when it triggers a flush and a cascade of compactions |
| `LsmTree.LSMTree.Remove` | implementations/cpp/lsm_trees.cpp:315-321 | clears one key of the view, likewise |
| `LsmTree.LSMTree.Flush` | implementations/cpp/lsm_trees.cpp:367-369 | changes no answer |
| `LsmTree.LSMTree.FlushMemtable` | implementations/cpp/lsm_trees.cpp:196-213 | changes no answer |
| `LsmTree.LSMTree.CompactLevel` | implementations/cpp/lsm_trees.cpp:215-302 | empties level 0, or takes the first table off a lower level, leaves the levels above alone, changes no answer, and keeps levels 1 and up sorted and range-disjoint |
| `LsmTree.LSMTree.Get` | implementations/cpp/lsm_trees.cpp:323-365 | returns the view of the key |
| `LsmTree.GetInLevel` | implementations/cpp/lsm_trees.cpp:344-361 | binary search over disjoint tables finds the entry a linear search would |
| `LsmTree.MergeDown` | implementations/cpp/lsm_trees.cpp:237-296 | one compaction, from picking tables to replacing the level, keeps all answers |
| `LsmTree.Merge` | implementations/cpp/lsm_trees.cpp:249-263 | overlapping tables are merged with the newer level winning |
| `LsmTree.SplitByOverlap` | implementations/cpp/lsm_trees.cpp:238-247 | splits the next level by overlap with the key range |
| `LsmTree.KeyRange` | implementations/cpp/lsm_trees.cpp:221-227 | the range covers all tables compacted |
| `LsmTree.PurgeTombstones` | implementations/cpp/lsm_trees.cpp:265-273 | tombstones are dropped at the bottom level only |
| `LsmTree.MakeTables` | implementations/cpp/lsm_trees.cpp:281-289 | cutting a sorted run into tables loses nothing |
| `LsmCompaction.CompactionKeepsHits` | implementations/cpp/lsm_trees.cpp:237-296 | after a compaction the level below finds what the two levels found before, or nothing where a bottom tombstone was purged |
| `LsmCompaction.CompactionKeepsAnswers` | implementations/cpp/lsm_trees.cpp:215-302 | so no answer of the whole tree changes: a purged tombstone never revives a key |
| `LsmBloom.Add` | implementations/cpp/lsm_trees.cpp:67-76 | a bit is set afterwards exactly if it was set before or is one of the bits of the key; so the filter admits the key and all it admitted before |
| `LsmBloom.MayContain` | implementations/cpp/lsm_trees.cpp:78-90 | says no only if some bit of the key is unset |
| `LsmSSTable.Build` | implementations/cpp/lsm_trees.cpp:125-139 | a table holds its entries, its range, a sparse index of them and a filter that admits all of them |
| `LsmSSTable.FindBlock` | implementations/cpp/lsm_trees.cpp:156-166 | the search of the sparse index ends at the block that could hold the key |
| `LsmSSTable.Get` | implementations/cpp/lsm_trees.cpp:150-179 | range, filter, index and block scan together never miss a stored entry |
| `LsmRuns.UpsertLookup` | implementations/cpp/lsm_trees.cpp:307-313 | writing a key of the memtable changes that key only |
| `TreapProofs.MembershipIsSound` | implementations/cpp/authenticated_data_structures.cpp:297-324 | for an arbitrary proof object: if it is accepted for a false membership claim about a tree whose nodes each have one reading, two different payloads of equal digest are computed from it |
| `TreapProofs.NonMembershipIsSound` | implementations/cpp/authenticated_data_structures.cpp:329-352 | the same for a false non-membership claim about a search-ordered tree |
| `TreapProofs.MembershipSoundExactly` | implementations/cpp/authenticated_data_structures.cpp:149-163 | whatever the hash, membership is sound for all proofs if and only if the strings of the tree, with lengths cut to 32 bits, allow no false claim to be read into them |
| `TreapProofs.NonMembershipSoundExactly` | implementations/cpp/authenticated_data_structures.cpp:149-163 | the same for non-membership |
| `TreapProofs.MembershipExactly` | implementations/cpp/authenticated_data_structures.cpp:297-324 | a claim has an accepted proof without a collision exactly if some node reads as that claim below ancestors that can be read so as to send the search there |
| `TreapProofs.NonMembershipExactly` | implementations/cpp/authenticated_data_structures.cpp:329-352 | the same for claims of absence, which end at an empty place |
| `TreapProofs.OneReadingMeans` | implementations/cpp/authenticated_data_structures.cpp:149-163 | a node has one reading, which its owner can check by looking for the value length field at other places of the body, exactly if no other key and value have its payload |
| `TreapProofs.SmallIsReadable` | implementations/cpp/authenticated_data_structures.cpp:149-163 | strings below 2^32 bytes have one reading |
| `TreapProofs.LongStringsBreakSoundness` | implementations/cpp/authenticated_data_structures.cpp:149-163 | an instance of the failure: a key of 2^32 zero bytes can also be read as the value of the empty key, and that false claim is accepted without any collision |
| `TreapProofs.HonestProofsVerify` | implementations/cpp/authenticated_data_structures.cpp:238-292 | the proofs made from the tree are accepted |
| `TreapProofs.PayloadInjective` | implementations/cpp/authenticated_data_structures.cpp:144-170 | a payload with one reading determines its key, value and child digests |
| `TreapProofs.SamePayload` | implementations/cpp/authenticated_data_structures.cpp:144-170 | two nodes have the same payload if and only if one is a reading of the other and the child digests agree |
| `TreapProofs.ExtractOrClaim` | implementations/cpp/authenticated_data_structures.cpp:313-321 | an accepted fold either exhibits a collision or ends in a payload of the tree below ancestors read in the order of the claimed key |
| `TreapProofs.VerifyMembership` | implementations/cpp/authenticated_data_structures.cpp:297-324 | accepts exactly the ordered proofs whose fold is the root digest |
| `TreapProofs.VerifyNonMembership` | implementations/cpp/authenticated_data_structures.cpp:329-352 | likewise from the empty digest |
| `TreapProofs.FoldAncestors` | implementations/cpp/authenticated_data_structures.cpp:313-321 | the loop from the last ancestor to the first computes the recursive fold |
| `TreapProofs.CheckOrder` | implementations/cpp/authenticated_data_structures.cpp:300-304 | the ordering check |
| `TreapProofs.SearchPathFolds` | implementations/cpp/authenticated_data_structures.cpp:238-292 | the recorded search path folds back to the root digest |
| `TreapProofs.SearchFindsMembers` | implementations/cpp/authenticated_data_structures.cpp:238-263 | in a search-ordered tree the search ends at the key exactly if it is there |
| `TreapInsertion.InsertMembers` | implementations/cpp/authenticated_data_structures.cpp:373-394 | insertion with rotations adds or replaces exactly one key |
| `TreapInsertion.InsertKeepsSearchOrder` | implementations/cpp/authenticated_data_structures.cpp:373-394 | insertion keeps search order |
| `TreapInsertion.InsertKeepsHeapOrder` | implementations/cpp/authenticated_data_structures.cpp:373-394 | insertion keeps heap order |
| `TreapShapes.InsertPriorities` | implementations/cpp/authenticated_data_structures.cpp:373-394 | a new key carries the priority of its insertion; a replaced key and all others keep theirs |
| `TreapShapes.EntriesFixTheTree` | implementations/cpp/authenticated_data_structures.cpp:373-394 | search order, heap order and the stored entries leave one tree only, if no priority is shared |
| `TreapShapes.OrderOfInsertionsIsIrrelevant` | implementations/cpp/authenticated_data_structures.cpp:230-233 | inserting the same entries in another order, with different keys and priorities, gives the same tree and the same root digest |
| `TreapNodes.InsertRec` | implementations/cpp/authenticated_data_structures.cpp:373-394 | the pointer code computes that insertion in place, gives a new key the given priority and changes no other priority, and leaves every stored digest right |
| `TreapNodes.RotateNodeRight` | implementations/cpp/authenticated_data_structures.cpp:355-362 | a right rotation in place, digests recomputed bottom-up |
| `TreapNodes.RotateNodeLeft` | implementations/cpp/authenticated_data_structures.cpp:364-371 | a left rotation in place |
| `TreapNodes.TreapNode.UpdateHash` | implementations/cpp/authenticated_data_structures.cpp:185-189 | makes a stored digest right |
| `TreapNodes.AuthenticatedTreap.Insert` | implementations/cpp/authenticated_data_structures.cpp:230-233 | the key maps to the value and all else as before; a new key has the given priority and no other priority changes; search order, heap order and all digests hold again |
| `TreapNodes.AuthenticatedTreap.GetRoot` | implementations/cpp/authenticated_data_structures.cpp:222-224 | the stored root digest is the digest of the tree |
| `TreapNodes.AuthenticatedTreap.ProveMembership` | implementations/cpp/authenticated_data_structures.cpp:238-263 | makes an accepted proof exactly for the keys in the tree |
| `TreapNodes.AuthenticatedTreap.ProveNonMembership` | implementations/cpp/authenticated_data_structures.cpp:268-292 | makes an accepted proof exactly for the keys not in the tree |
| `AhoCorasick.Matcher.Search` | implementations/cpp/aho_corasick.cpp:125-141 | reports every occurrence (start, pattern id) exactly once and nothing else, in the order in which they end |
| `AhoCorasick.Matcher.CountMatches` | implementations/cpp/aho_corasick.cpp:164-173 | counts the occurrences |
| `AhoCorasick.Matcher.ContainsAny` | implementations/cpp/aho_corasick.cpp:148-158 | says whether there is any occurrence |
| `AhoCorasick.Matcher.Build` | implementations/cpp/aho_corasick.cpp:74-119 | turns the trie into the automaton |
| `AhoRebuild.SecondBuildNeverEnds` | implementations/cpp/aho_corasick.cpp:74-119 | a second build never returns: with no edge missing, every round leaves 25 more nodes in the queue |
| `AhoCorasick.Matcher.AddPattern` | implementations/cpp/aho_corasick.cpp:49-68 | adds a pattern, or refuses the empty one; after build the automaton stays right if and only if the pattern is a prefix of a known one and no longer known prefix ends with it |
| `AhoCorasick.LateAddExactly` | implementations/cpp/aho_corasick.cpp:49-68 | a pattern added after build is answered rightly on every text if and only if it meets that condition |
| `AhoCorasick.Matcher.ExpandNode` | implementations/cpp/aho_corasick.cpp:94-117 | one round of the queue loop |
| `AhoCorasick.Matcher.ExpandRoot` | implementations/cpp/aho_corasick.cpp:77-87 | the first level |
| `AhoCorasick.NextState` | implementations/cpp/aho_corasick.cpp:129-131 | after each letter the state is the longest suffix of the text read that is a prefix of a pattern |
| `AhoCorasick.OutputsHere` | implementations/cpp/aho_corasick.cpp:133-137 | the outputs of that state are the patterns that end here, each once |
| `AhoBuild.ExpandKeepsBfs` | implementations/cpp/aho_corasick.cpp:90-118 | finishing the front of the queue keeps: every finished node has its final transitions, failure and outputs |
| `AhoBuild.AllFinished` | implementations/cpp/aho_corasick.cpp:90-118 | when the queue is empty every node has been finished |
| `AhoTrie.OutsAreSuffixes` | implementations/cpp/aho_corasick.cpp:103-106 | the propagated outputs are the patterns that are suffixes of the word |
| `AhoTrie.OutsOnce` | implementations/cpp/aho_corasick.cpp:103-106 | none is listed twice |
| `AhoWords.LongestStep` | implementations/cpp/aho_corasick.cpp:108-117 | the longest known suffix after one more letter depends only on the longest known suffix before |
| `AhoWords.FailOfChild` | implementations/cpp/aho_corasick.cpp:109-112 | the failure node of a child is reached from the failure node of its parent |
| `AhoWords.LongestIsLongest` | implementations/cpp/aho_corasick.cpp:70-73 | no longer suffix qualifies |
| `RcuProof.NoUseAfterDelete` | implementations/cpp/linux_kernel_internals.cpp:435-483 | in every interleaving of readers and writers no reader uses a deleted entry, no entry is deleted twice, and everything held in a read section is alive |
| `RcuProof.GracePeriod` | implementations/cpp/linux_kernel_internals.cpp:468-483 | when synchronize_rcu returns, every open section began, by the schedule, after the writer advanced the epoch, and no reader holds the entry that was published just before its exchange |
| `RcuProof.UpdatesArePublished` | implementations/cpp/linux_kernel_internals.cpp:454-459 | after any schedule the published entry is the one the writer of the last exchange had allocated for its update, or the first entry |
| `RcuProof.DeletesWhatItReplaced` | implementations/cpp/linux_kernel_internals.cpp:454-466 | an update puts its own allocation in place of the entry published just before its exchange, and it is that entry that it deletes |
| `RcuProof.SectionsSeeCurrentEntries` | implementations/cpp/linux_kernel_internals.cpp:434-451 | a read section holds exactly the entries published at the instants of its dereferences, none older than the one published when it began: a section that begins after an exchange never gets an older entry |
| `RcuProof.NoEntryLeaks` | implementations/cpp/linux_kernel_internals.cpp:454-466 | every live entry is the published one or with exactly one writer, which has yet to publish or to delete it |
| `RcuHistory.NextFollows` | implementations/cpp/linux_kernel_internals.cpp:434-483 | every atomic step keeps the agreement between the state and the record of allocations, exchanges and dereferences |
| `RcuProof.WaitsOnlyForReaders` | implementations/cpp/linux_kernel_internals.cpp:473-482 | a wait is held up only by an open section whose lock read the epoch before the writer advanced it; later sections hold up nobody |
| `RcuProof.NextOk` | implementations/cpp/linux_kernel_internals.cpp:435-483 | every atomic load, store, exchange and fetch_add keeps the reclamation invariant, and keeps what is published, kept by the writers and held by the readers in agreement with the record of the schedule |
| `RcuProof.CheckKeepsHeld` | implementations/cpp/linux_kernel_internals.cpp:474-479 | passing a slot that is 0 or above the target keeps every held entry alive |
| `RcuProof.NobodyHolds` | implementations/cpp/linux_kernel_internals.cpp:464-465 | at the delete no reader holds the old entry |
| `RbTrees.RbTreeCached.Insert` | implementations/cpp/linux_kernel_internals.cpp:213-252 | the tree stays a valid red-black tree with consistent links and cached leftmost, and the new node enters the in-order list behind all members of equal key |
| `RbTrees.RbTreeCached.Erase` | implementations/cpp/linux_kernel_internals.cpp:255-310 | the same with exactly the given member taken out of the list |
| `RbTrees.RbTreeCached.PickNextTask` | implementations/cpp/linux_kernel_internals.cpp:207-210 | the cached leftmost node is the first of the list and no member has a smaller key |
| `RbTrees.RbTreeCached.FindPlace` | implementations/cpp/linux_kernel_internals.cpp:219-232 | the descent ends below the node where the key belongs, behind its equals, and knows whether it went left all the way |
| `RbTrees.RbTreeCached.TreeMinimum` | implementations/cpp/linux_kernel_internals.cpp:193-198 | the first node of the subtree |
| `RbTrees.RbTreeCached.RotateLeft` | implementations/cpp/linux_kernel_internals.cpp:110-127 | relinks the nodes in place and keeps the in-order list |
| `RbTrees.RbTreeCached.RotateRight` | implementations/cpp/linux_kernel_internals.cpp:129-146 | likewise |
| `RbTrees.RbTreeCached.InsertFixup` | implementations/cpp/linux_kernel_internals.cpp:148-191 | the loop restores the colours after a red leaf was attached, and ends |
| `RbTrees.RbTreeCached.InsertRound` | implementations/cpp/linux_kernel_internals.cpp:149-188 | one round of that loop, either side, moves the violation up or ends it |
| `RbTrees.RbTreeCached.EraseFixup` | implementations/cpp/linux_kernel_internals.cpp:326-399 | the loop repairs the one missing black node after an unlink, and ends |
| `RbTrees.RbTreeCached.EraseRound` | implementations/cpp/linux_kernel_internals.cpp:327-361 | one round of that loop: the shortage moves up or is repaired; the branches for a missing sibling are never taken |
| `RbTrees.RbTreeCached.EraseBlackSibling` | implementations/cpp/linux_kernel_internals.cpp:341-361 | the three cases of a black sibling |
| `RbTrees.RbTreeCached.LowerRedSibling` | implementations/cpp/linux_kernel_internals.cpp:330-335 | a red sibling is rotated away |
| `RbTrees.RbTreeCached.TurnInnerNephew` | implementations/cpp/linux_kernel_internals.cpp:347-352 | a red inner nephew is turned outward |
| `RbTrees.RbTreeCached.UseOuterNephew` | implementations/cpp/linux_kernel_internals.cpp:353-359 | a red outer nephew repairs the shortage |
| `RbTrees.RbTreeCached.Transplant` | implementations/cpp/linux_kernel_internals.cpp:313-324 | one subtree takes the place of another |
| `RbTrees.RbTreeCached.LinkOut` | implementations/cpp/linux_kernel_internals.cpp:275-299 | unlinks a member and leaves a balanced tree, or one that is a single black node short at a known place |
| `RbTrees.RbTreeCached.ReplaceBySuccessor` | implementations/cpp/linux_kernel_internals.cpp:283-299 | the case of two children: the successor takes the place and colour |
| `RbRotate.TurnKeeps` | implementations/cpp/linux_kernel_internals.cpp:110-146 | a rotation to either side keeps the shape and the in-order list |
| `RbBalance.UncleRed` | implementations/cpp/linux_kernel_internals.cpp:153-158 | recolouring under a red uncle moves the violation two levels up |
| `RbBalance.InnerTurn` | implementations/cpp/linux_kernel_internals.cpp:160-165 | the inner case becomes the outer one |
| `RbBalance.OuterTurn` | implementations/cpp/linux_kernel_internals.cpp:166-168 | the outer case ends the violation |
| `RbErase.RedSibling` | implementations/cpp/linux_kernel_internals.cpp:330-335 | a red sibling gives way to a black one with the shortage kept in place |
| `RbErase.BlackNephews` | implementations/cpp/linux_kernel_internals.cpp:341-345 | reddening the sibling moves the shortage up |
| `RbErase.InnerNephew` | implementations/cpp/linux_kernel_internals.cpp:347-352 | the inner case becomes the outer one |
| `RbErase.OuterNephew` | implementations/cpp/linux_kernel_internals.cpp:353-359 | the outer case ends the shortage |
| `RbErase.SiblingExists` | implementations/cpp/linux_kernel_internals.cpp:328-340 | the sibling is never null and the side test is right |
| `RbEdit.AttachKeeps` | implementations/cpp/linux_kernel_internals.cpp:234-244 | attaching a leaf inserts it at its place of the in-order list |
| `RbEdit.UnlinkKeeps` | implementations/cpp/linux_kernel_internals.cpp:275-282 | unlinking a node with at most one child takes it out of the list |
| `RbEdit.SubstituteKeeps` | implementations/cpp/linux_kernel_internals.cpp:283-299 | putting the successor in a node's place keeps the shape |
| `RbEditBalance.UnlinkBlack` | implementations/cpp/linux_kernel_internals.cpp:275-303 | unlinking a black node leaves a shortage of one exactly there |
| `RbEditBalance.SubstituteShort` | implementations/cpp/linux_kernel_internals.cpp:283-303 | so does moving a black successor |
| `RbHeight.DepthIsLogarithmic` | implementations/cpp/linux_kernel_internals.cpp:148-191 | two to the half of any depth is at most the number of members plus one |
| `MinimumSpanningTrees.Kruskal` | implementations/cpp/cut_and_cycle_properties.cpp:61-78 | on every connected graph, with any order std::sort may give to equal weights, returns the least total weight of any spanning tree; the early stop loses nothing |
| `PrimSearch.Prim` | implementations/cpp/cut_and_cycle_properties.cpp:83-116 | the same, from a heap with stale entries |
| `MinimumSpanningTrees.ReverseDelete` | implementations/cpp/cut_and_cycle_properties.cpp:122-157 | the same, deleting the heaviest edges that keep the graph connected |
| `SpanningTrees.SameMinimum` | implementations/cpp/cut_and_cycle_properties.cpp:61-157 | so all three return the same number |
| `SpanningTrees.CutProperty` | implementations/cpp/cut_and_cycle_properties.cpp:100-114 | a lightest edge across a cut that the chosen edges do not cross can be chosen |
| `SpanningTrees.CycleProperty` | implementations/cpp/cut_and_cycle_properties.cpp:143-150 | a heaviest edge that can be spared is not needed |
| `SpanningTrees.FindExchange` | implementations/cpp/cut_and_cycle_properties.cpp:83-116 | for an edge across a cut some tree edge across that cut can be exchanged for it |
| `SpanningTrees.ExchangeKeepsTree` | implementations/cpp/cut_and_cycle_properties.cpp:83-116 | the exchange gives a spanning tree and changes the weight by the difference |
| `SpanningTrees.ConnectedByWalks` | implementations/cpp/cut_and_cycle_properties.cpp:128-139 | crossing every cut is the same as having a walk between any two vertices |
| `MinimumSpanningTrees.IsConnected` | implementations/cpp/cut_and_cycle_properties.cpp:128-139 | counting successful unions decides connectedness of the active edges |
| `DisjointSets.DSU.Find` | implementations/cpp/cut_and_cycle_properties.cpp:36-39 | returns the root of the class, with path compression, and keeps all classes |
| `DisjointSets.DSU.Unite` | implementations/cpp/cut_and_cycle_properties.cpp:41-55 | joins the two classes, or says they are one |
| `MinimumSpanningTrees.SumActive` | implementations/cpp/cut_and_cycle_properties.cpp:152-156 | the total of the active edges |
| `PrimSearch.BuildLists` | implementations/cpp/cut_and_cycle_properties.cpp:84-88 | the adjacency lists hold every edge at both ends and nothing else |
| `PrimSearch.Grow` | implementations/cpp/cut_and_cycle_properties.cpp:101-107 | the entry taken from the heap is a lightest edge out of the visited set |
| `Johnson.JohnsonApsp` | implementations/cpp/all_pairs_shortest_paths.cpp:184-211 | reports a negative cycle exactly when there is one; otherwise every entry of the matrix is the true length of a shortest walk, or unreachable |
| `Johnson.BellmanFordPotential` | implementations/cpp/all_pairs_shortest_paths.cpp:117-153 | false exactly when there is a negative cycle; otherwise potentials that no edge can improve |
| `Johnson.Dijkstra` | implementations/cpp/all_pairs_shortest_paths.cpp:155-182 | the true distances from the source, with stale heap entries skipped |
| `Johnson.Round` | implementations/cpp/all_pairs_shortest_paths.cpp:131-142 | one round: relaxing in place bounds all walks of one more edge |
| `Johnson.RoundsSettle` | implementations/cpp/all_pairs_shortest_paths.cpp:144-149 | without negative cycles as many rounds as vertices settle the table |
| `Johnson.RelaxArcs` | implementations/cpp/all_pairs_shortest_paths.cpp:173-179 | relaxing all arcs of a fresh entry keeps the search invariant and leaves less to do |
| `Johnson.DropStale` | implementations/cpp/all_pairs_shortest_paths.cpp:171 | an entry above its vertex distance may be dropped |
| `Johnson.SearchEnds` | implementations/cpp/all_pairs_shortest_paths.cpp:167-181 | when the heap is empty the table holds the distances |
| `Johnson.SameCycles` | implementations/cpp/all_pairs_shortest_paths.cpp:122-129 | the added source makes no cycle |
| `Walks.ReweightedCost` | implementations/cpp/all_pairs_shortest_paths.cpp:193-197 | reweighting changes all walks between two vertices by the same amount |
| `Walks.FeasibleNoCycle` | implementations/cpp/all_pairs_shortest_paths.cpp:144-149 | potentials that no edge improves exclude negative cycles |
| `Walks.ShortWalk` | implementations/cpp/all_pairs_shortest_paths.cpp:131-142 | without negative cycles any walk can be cut down to fewer edges than vertices at no more cost |
| `Walks.DistanceBack` | implementations/cpp/all_pairs_shortest_paths.cpp:203-207 | undoing the reweighting turns distances into distances |
| `Combinatorics.NCrLucas` | implementations/cpp/combinatorics.cpp:109-123 | for every prime, the binomial coefficient C(n, r) modulo the prime, for all n and r |
| `Binomials.LucasStep` | implementations/cpp/combinatorics.cpp:114-121 | the last digits split off: C(n, r) is congruent to C(n / p, r / p) times C(n % p, r % p) |
| `Combinatorics.ModularCombinatorics.NCr` | implementations/cpp/combinatorics.cpp:68-74 | the right remainder if and only if the tables stop below the prime or the coefficient is a multiple of it; with longer tables every answer is 0 |
| `Combinatorics.LongTablesBreakNCr` | implementations/cpp/combinatorics.cpp:68-74 | an instance: with tables up to 2 modulo 2, C(1, 0) comes out as 0 |
| `Combinatorics.ModularCombinatorics.constructor` | implementations/cpp/combinatorics.cpp:50-63 | the factorial and inverse-factorial tables |
| `Combinatorics.FillFactorials` | implementations/cpp/combinatorics.cpp:51-54 | the forward sweep |
| `Combinatorics.SweepInverses` | implementations/cpp/combinatorics.cpp:57-62 | the backward sweep from one Fermat inverse |
| `Combinatorics.ModPow` | implementations/cpp/combinatorics.cpp:21-30 | the power modulo m if and only if not both the exponent is 0 and the modulus 1, where it answers 1 |
| `Combinatorics.ModInverse` | implementations/cpp/combinatorics.cpp:35-37 | an inverse of every number the prime does not divide |
| `Binomials.FermatInverse` | implementations/cpp/combinatorics.cpp:35-37 | Fermat: a to the p - 2 inverts a |
| `Binomials.PrimeRow` | implementations/cpp/combinatorics.cpp:109-123 | a prime divides the inner coefficients of its row |
| `Binomials.ChooseFactorial` | implementations/cpp/combinatorics.cpp:68-74 | coefficients are quotients of factorials |
| `VectorClocks.CompareIsCausality` | implementations/cpp/distributed_state_engines.cpp:127-163 | in every run of local events, sends and receives, compare says BEFORE exactly when the first event happened before the second, AFTER for the reverse, EQUAL for the same event, CONCURRENT exactly when neither |
| `VectorClocks.LeqIffHappened` | implementations/cpp/distributed_state_engines.cpp:142-163 | clocks are ordered exactly as the transitive closure of program order and messages orders the events |
| `VectorClocks.StampBound` | implementations/cpp/distributed_state_engines.cpp:127-129 | no entry of a clock runs ahead of the events that happened, and a node's own entry counts its events |
| `VectorClocks.CountedHappened` | implementations/cpp/distributed_state_engines.cpp:127-140 | an entry that counts an event shows that it happened before |
| `VectorClocks.VectorClock.Merge` | implementations/cpp/distributed_state_engines.cpp:136-140 | the entry-wise maximum |
| `VectorClocks.VectorClock.Tick` | implementations/cpp/distributed_state_engines.cpp:127-129 | one more in the own entry |
| `VectorClocks.VectorClock.Compare` | implementations/cpp/distributed_state_engines.cpp:142-163 | the loop over all keys with two flags decides the order of the two clocks |
| `SlidingMedian.SlidingWindowMedian.FindMedian` | implementations/cpp/median_maintenance.cpp:174-181 | the median of the values added and not removed |
| `SlidingMedian.SlidingWindowMedian.Add` | implementations/cpp/median_maintenance.cpp:147-156 | the window gains the value; heaps stay ordered and balanced, no deleted value is at a top |
| `SlidingMedian.SlidingWindowMedian.Remove` | implementations/cpp/median_maintenance.cpp:158-172 | the window loses one copy of a value it holds; the deletion is charged to the heap that holds it and no count underflows |
| `SlidingMedian.SlidingWindowMedian.Balance` | implementations/cpp/median_maintenance.cpp:128-142 | moves one top and keeps the window |
| `SlidingMedian.SlidingWindowMedian.PruneLow` | implementations/cpp/median_maintenance.cpp:98-111 | drops delayed deletions from the top |
| `SlidingMedian.SlidingWindowMedian.PruneHigh` | implementations/cpp/median_maintenance.cpp:113-126 | likewise |
| `SlidingMedian.WhichHeap` | implementations/cpp/median_maintenance.cpp:158-170 | comparing with the top of the lower heap names the heap that holds a live copy |
| `SlidingMedian.ChargedHere` | implementations/cpp/median_maintenance.cpp:98-111 | a delayed deletion met at a top belongs to that heap |
| `Medians.LowerPart` | implementations/cpp/median_maintenance.cpp:174-181 | in any sorted list of the window the lower heap holds the first half |
| `Medians.OneMedian` | implementations/cpp/median_maintenance.cpp:174-181 | a window that is not empty has exactly one median |
| `ArcCaches.ARCCache.Put` | implementations/cpp/high_performance_caching.cpp:245-329 | the new lists and target; lists equal their maps and stay in order of use, no key is listed twice, and for capacity of at least 1 the size bounds stay, a full cache sends out exactly the least recently used key of T1 if T1 exceeds the target, or meets it and the key is in B2, or T2 is empty, else the least recently used of T2, and only complete misses forget a key: the least recently used of a full list |
| `ArcCaches.ARCCache.Get` | implementations/cpp/high_performance_caching.cpp:221-243 | a hit gives the last value put for the key, moves it to the front of T2 and marks it used again now; a miss changes nothing |
| `ArcCaches.ARCCache.Replace` | implementations/cpp/high_performance_caching.cpp:335-353 | the least recently used key of T1 leaves exactly if T1 exceeds the target, or meets it and the key asked for is in B2, else the least recently used of T2; T1 with B1 and T2 with B2 list the same keys as before |
| `ArcCaches.ARCCache.MakeRoom` | implementations/cpp/high_performance_caching.cpp:298-325 | what a complete miss drops |
| `ArcCaches.ZeroCapacityOverflows` | implementations/cpp/high_performance_caching.cpp:219 | with capacity 0 the bound fails at the first put |
| `ArcLists.PutBounded` | implementations/cpp/high_performance_caching.cpp:245-329 | the target stays in range, T1 and B1 hold at most c, all four at most 2c, and T1 and T2 together exactly min(c, total) |
| `ArcLists.GhostHitEvicts` | implementations/cpp/high_performance_caching.cpp:335-353 | on a ghost hit replace always finds a victim |
| `ArcLists.PutOnce` | implementations/cpp/high_performance_caching.cpp:245-353 | no key is listed twice |
| `ArcLists.PutCurrent` | implementations/cpp/high_performance_caching.cpp:245-329 | the cache holds the last value put for every key in it |
| `ArcUsage.PutOrdered` | implementations/cpp/high_performance_caching.cpp:245-353 | T1 followed by B1 lists the keys used once and T2 followed by B2 those used again while cached or remembered, each from the most to the least recently used, after every put |
| `ArcUsage.TouchOrdered` | implementations/cpp/high_performance_caching.cpp:221-243 | and after every hit |
| `ArcUsage.PutEvicts` | implementations/cpp/high_performance_caching.cpp:245-353 | which key a put sends out of the cache, by time of last use and target, and that nothing else leaves or enters |
| `ArcUsage.PutForgets` | implementations/cpp/high_performance_caching.cpp:294-329 | which key a put forgets: none for a cached or remembered key, else the least recently used of T1 with B1 when these are c, else that of T2 with B2 when all are 2c |
| `ArcUsage.ReplacedVictim` | implementations/cpp/high_performance_caching.cpp:335-353 | the victim of replace, by time of last use |
| `ArcLists.TargetInRange` | implementations/cpp/high_performance_caching.cpp:265-286 | the target stays between 0 and c; a key of B1 raises it by the larger of 1 and /B2///B1/, or to c, a key of B2 lowers it by the larger of 1 and /B1///B2/, or to 0, and no other key moves it |
| `FusionTrees.FusionTree.Insert` | implementations/cpp/fusion_trees.cpp:351-366 | the set gains the key and says whether it was new; keys stay sorted, leaves at one depth, 3 to 7 keys in every node but the root |
| `FusionTrees.FusionTree.Erase` | implementations/cpp/fusion_trees.cpp:368-384 | the set loses the key with the same shape kept, and the root gives way when it runs empty |
| `FusionTrees.FusionTree.PredecessorOf` | implementations/cpp/fusion_trees.cpp:385-402 | the greatest key that is at most x |
| `FusionTrees.FusionTree.SuccessorOf` | implementations/cpp/fusion_trees.cpp:404-421 | the least key that is at least x |
| `FusionTrees.FusionTree.Has` | implementations/cpp/fusion_trees.cpp:340-349 | whether the key is in the set |
| `FusionTrees.InsertNonFull` | implementations/cpp/fusion_trees.cpp:279-301 | enters the key below a node that is not full, splitting full children on the way |
| `FusionTrees.Remove` | implementations/cpp/fusion_trees.cpp:88-113 | removes the key below a node with a key to spare; every child entered has one too |
| `FusionTrees.RemoveFromNonLeaf` | implementations/cpp/fusion_trees.cpp:115-130 | the key of an inner node is replaced by a neighbour from a child, or pushed down by a merge |
| `FusionTrees.Fill` | implementations/cpp/fusion_trees.cpp:144-153 | a child with too few keys borrows or merges, and the search goes on in the right child |
| `FusionTrees.GetPredecessor` | implementations/cpp/fusion_trees.cpp:132-136 | the last key below a child |
| `FusionTrees.GetSuccessor` | implementations/cpp/fusion_trees.cpp:138-142 | the first key below the next child |
| `BTreeSteps.BorrowPrevKeeps` | implementations/cpp/fusion_trees.cpp:155-178 | borrowing from the left keeps order and shape |
| `BTreeSteps.BorrowNextKeeps` | implementations/cpp/fusion_trees.cpp:180-206 | borrowing from the right keeps order and shape |
| `BTreeSteps.MergeKeeps` | implementations/cpp/fusion_trees.cpp:208-238 | merging keeps order and shape |
| `BTreeSteps.SplitKeeps` | implementations/cpp/fusion_trees.cpp:250-277 | splitting a full child keeps order and shape |
| `BTreeNodes.FindKey` | implementations/cpp/fusion_trees.cpp:82-86 | the number of keys below x |
| `BTreeNodes.RankParts` | implementations/cpp/fusion_trees.cpp:82-86 | a key that is not in the node can only be below the child at its rank |
| `PackedRank.ParallelRank` | implementations/cpp/fusion_trees.cpp:67-80 | one word subtraction counts the sketches below the query, for any word whose valid bytes carry their indicator bits |
| `PackedRank.IndicatorOfDifference` | implementations/cpp/fusion_trees.cpp:69-71 | no byte borrows from the next, and its indicator survives exactly if its sketch is at least the query |

## Left out

- AhoCorasick.Matcher.Build: asks that build has not been called before, because a second call never returns (AhoRebuild.SecondBuildNeverEnds).
- OptimalBstTables.OptimalBstCost: asks that costs stay below the sentinel INF; so does OptimalBstTables.OptimalBstCostKnuth, which also asks for frequencies that are not negative.
- RbTrees.RbTreeCached.Erase: asks that the node is in the tree unless the tree is empty; the code does not look for it.
- SlidingMedian.SlidingWindowMedian.Remove: asks that the value is in the window, and FindMedian that the window is not empty, as the code does of its callers; values are exact reals, without the rounding of double.
- FusionTrees.FusionTree.Insert: nodes are values, so allocation, ownership and the shifting of arrays in place are not captured; keys are natural numbers, since the tree only compares them.
- PackedRank.ParallelRank: a word is the number it stands for; popcount of the masked indicators is the count of the bytes whose top bit is set.
- ArcCaches.ARCCache.Put: a map is the set of its keys and an iterator the cell of its key; the target is an exact real.
- MinimumSpanningTrees.Kruskal: graphs that are not connected are not covered, here and for Prim and ReverseDelete; std::sort is any order that sorts the weights.
- Johnson.JohnsonApsp: weights and distances are mathematical integers and INF is a case of its own, so overflow and sums that reach INF are not captured.
- Combinatorics.NCrLucas: numbers are mathematical integers; the 128-bit products of the code never overflow. nPr, catalan, stars_and_bars and derangements are not modelled.
- VectorClocks.VectorClock.Tick: counters do not wrap at 64 bits; the hash ring and the Raft simulation of the same file are not modelled.
- C++ weak memory orders: every atomic access is one sequentially consistent step.
- Epoch-based reclamation (EpochReclaimer, EpochDomain): its rule falls back to the current epoch for a thread pinned at epoch 0, so it does not promise what hazard pointers do.
- Hazard pointers: release_thread_id, drain_global and destructors, which run outside the protocol.
- Michael-Scott queue: nodes are never reused, so its memory reclamation is not covered; the other queues and stacks of that file are not modelled.
- Wait-free snapshot: entries are never freed; sequence numbers do not wrap at 64 bits. WaitFreeAnnounceQueue and ConsensusObject are not modelled.
- RCU: epochs do not wrap at 64 bits and what a RoutingEntry holds is not looked at; the circular lists and the dentry cache of that file are not modelled.
- Link-cut trees: the amortised cost of splaying, and path aggregates other than exclusive or.
- LSM tree: the sizing formula of the Bloom filter (any size and any hash functions are allowed), the text of the write-ahead log, and the constructor's sort of runs that callers already pass sorted.
- Authenticated treap: the rounds of SHA-256 (the hash is any function to 32-byte digests), random priorities (a parameter of insert), and destructors.
- Aho-Corasick: dict_link, which search does not read and which is not the nearest terminal node; the alphabet is the 26 letters after char_to_index.
- Optimal search trees: matrix-chain multiplication and the other interval programs of that file.
- Caches: LRU, 2Q and W-TinyLFU.
- Medians: MedianMaintenance, which is the sliding window without removals.
- All-pairs shortest paths: Floyd-Warshall, path reconstruction and transitive closure.
- The Fibonacci heap, Huffman coding, branch-and-bound knapsack, closest pair, parity and rollback union-find, the hash table, and the remaining files.
- main functions, printing, timing and benchmarks.
