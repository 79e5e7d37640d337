# A verified model of the CUSF enforcer's mempool

This project models, in Dafny, the parts of the CUSF enforcer library that keep a mempool in step with a Bitcoin node
and build block templates from it, and proves what those parts are for. The command
`dafny verify dfyconfig.toml` checks it.

## What is modelled

**The ancestor-indexed mempool** (`Types`, `Graph`, `Totals`, `LinkedSets`, `FeeRates`, `FeeRateIndex`, `TxChilds`,
`AncestorWalks`, `Traversal`, `Descendants`, the `Pool*` files, `Mempool`). The pool is a directed acyclic graph of
transactions that is stored three times over: as parents, as spenders and as the child map. Each entry caches fee, size
and weight totals over its ancestors and its descendants, inherits conflicts, and has one slot in an index by ancestor
fee rate. The class `Mempool` updates all of this in place, step by step, with the two iterators, and is proved against
the functions `AfterInsert` and `AfterRemove` on plain values. The main results are about block templates:
`propose_txs_mut` terminates although it takes the pool apart while it walks it, and what it returns is duplicate-free,
closed under in-pool ancestors with ancestors first, within the weight limit, greedy in every round by the exact fees and
sizes of whole packages, maximal, and free of conflicts, over runs of childless inserts and any removals.

**The abandoned pool** (`AbandonedTxs`, `AbandonedClosures`, `AbandonedPool`). Transactions that wait for parents which
are absent or wait themselves. Cascading removal takes out exactly a family; restoration hands back exactly the least
set that no longer waits for anything else, parents first; and an inserted transaction leaves with whichever parent is
rejected later, unless a restoration came in between (`RestoreLinkedIff`).

**The sync** (`SyncQueues`, `SyncRequests`, `SyncParents`, `SyncTips`, `SyncLog`, `SyncPool`, `SyncFacts`, `SyncSteps`,
`Enforcers`, `MempoolSync`). Block and transaction messages are queued as actions, wait for responses, and move a filtered view, a
mirror of the node's mempool and an enforcer. One invariant is kept by every handler, on both the response-driven and the
queue-driven path, over runs of any messages (`TaskInner`): the enforcer holds a chain whose top is the filtered tip,
which observers see; a block is only connected on that top and only that top is disconnected; the mirrored tip is the
filtered tip or a rejected block; every needed block or transaction has a request queued or in flight; and the mirrored
set is what the history of applied actions makes of it. That history is the snapshot and the announcements in order, but
for restored insertions. The sync uses the abandoned pool proved above, and keeps its invariant. `SyncSteps` says what
each action, message and response does to the whole state; every handler is proved to do just that, up to `TaskInner`,
whose run is a sequence of such steps. After each message the queue is empty or its head has to wait, and then what it
waits for has been asked for (`HeadIsServed`).

**Supporting parts.** `Compose` (any nesting of enforcers connects a block everywhere or nowhere), `Zmq` (parsing of
sequence messages and the check of a stream of them), `Bytes` and `Dat` (the `mempool.dat` reader and its mask),
`Coinbase` (what the coinbase pays and the weight kept free for it), `InitialSync` (the retry loop that brings an
enforcer to the node's tip, and how the tip is followed meanwhile).

## How to read it

Where the source changes state there is a class or a method with the source's own steps, and its `ensures` ties the new
state to a specification on values or says outright what is achieved; the lemmas are about that specification. Code
behind an interface (the enforcer, the node, the arbitrary order of hash sets) answers with any value its interface
allows. Transactions are abstract: a txid, inputs, output values and a weight. That identifiers are hashes is used in
this form only: a transaction does not spend itself or its own descendants, one txid has one set of inputs, one block
hash has one parent and one set of txids, and no block descends from itself.

## What does not hold, and when it does

- Inserting a transaction that pool transactions already spend breaks the pool: the spenders do not gain it as a parent
  (`InsertValidIff` gives the exact condition). Removing a transaction with parents can leave cached totals too high;
  `RemoveExactIff` says exactly when it does not (`MiddleRemovalInexact` is a case), `RunExactIff` says it of whole runs.
- Inherited conflicts stay sound over a run if and only if every single removal leaves only backed conflicts behind
  (`RunSoundIff`; `InheritedConflictUnbacked` is one that does not). Whatever is removed, two transactions of which one
  declared the other are still kept out of every template (`RunApart`).
- An insert into the abandoned pool may leave an absent transaction linked to one it does not block, if the caller does
  not give it as absent (`InsertExactIff`). The sync calls insert that way when the parent is cached as well, so its
  invariant is the weaker one of `InsertValidIff`, which is all that removal and restoration need.
- A transaction that stays abandoned after one of its parents became available again is no longer linked to that parent
  (`RestoreLinkedIff` gives the exact condition), and a later rejection of the parent takes along nothing that waited for
  it (`RestoredIsForgotten`).
- The fee-rate comparison is an order on exactly those sets of rates that hold at most one of vsize zero (`LawfulIff`).
  A weight tweak that takes off a transaction's whole weight makes such a rate (`WeightVanishesIff`), and two with
  different fees tie, so modified weights must be positive. Its documentation says
  `self.fee == other.fee /\ other.fee == other.vsize` where both fields of the two rates must be equal; the code compares
  as `EqualIff` states.
- The iterators are documented to yield ancestors before descendants. They mark a transaction as visited when it is
  pushed, so if T spends A and B, B spends A, and A sorts before B, then B comes before A. The documented order holds in
  a pool if and only if there is no such T (`AncestorsFirstIff`). No caller depends on it.
- After a rejected block is disconnected, the mirrored tip stays on it (`RejectedBlockLeavesStaleTip`): the same block
  connected again is skipped, and a disconnect of the filtered tip fails, exactly until an event moves the tips again
  (`OutOfStepIff`). A skipped connect is what can make the mirror differ from the node's mempool
  (`ReconnectedBlockParts`; `FollowsStreamIff` gives the exact condition).
- A restored transaction that is still in the mirror is not looked at again: its queued insertion changes nothing
  (`TryAddTxFromCaches`).
- The sync may let a transaction into its mempool before a parent that is cached but not yet announced
  (`CachedParentMayFollow`). If parents are announced first, no block is rejected and nothing restored, every insertion is
  childless (`TaskInner`).
- `propose_txs_mut` is documented to fall back to the maximum block weight; the code falls back to the usable weight.
- A message that repeats the publisher's number of the transaction message before it is dropped only after the check of
  mempool numbers has moved on, which hides a gap (`MislabelledBlockHidesGap`); `PublishedIff` says exactly when.
- The tip tracked during the initial sync goes wrong if the stream still holds the connect of the block it starts from
  and disconnects it right after; one more connect in between puts it right again (`StaleConnectIff`, `FollowsIff`).

## Model

| member | source | states |
|---|---|---|
| FeeRates.EqualIff | lib/mempool/mod.rs:227-238 | Two rates compare equal exactly when fee and vsize are both equal, or both vsizes are zero |
| FeeRates.Reversed | lib/mempool/mod.rs:227-238 | Swapping the operands reverses the comparison |
| FeeRates.BelowTransitiveIff | lib/mempool/mod.rs:227-238 | Two steps up the order make one if and only if they do not lead from a rate of vsize zero to another |
| FeeRates.LawfulIff | lib/mempool/mod.rs:227-238 | The comparison is a strict total order on a set of rates if and only if no two different rates in it have vsize zero |
| FeeRates.RefinesQuotient | lib/mempool/mod.rs:213-226 | The comparison refines the order of the quotients fee / vsize and sorts equal quotients by vsize, as its documentation promises |
| FeeRates.ProductsFitU128 | lib/mempool/mod.rs:231-234 | The cross products of u64 fees and sizes never overflow u128 |
| FeeRates.ZeroVsizeTies | lib/mempool/mod.rs:227-238 | A rate of vsize zero with a fee and one without tie although all positive rates lie strictly between them |
| PoolTxs.RatesLawfulIff | lib/mempool/mod.rs:660-664 | The rates of a pool are lawfully ordered if and only if all entries whose cached weight is zero cache the same fee |
| PoolTxs.WeightVanishesIff | lib/mempool/sync/task.rs:832-836 | A new transaction's rate has vsize zero exactly when the enforcer's tweak takes off at least all of its weight |
| FeeRateIndex.OrderableIff | lib/mempool/mod.rs:337-348 | A rate fits into an index exactly when it and the indexed rates are lawfully ordered together |
| FeeRateIndex.ByAncestorFeeRate.Insert | lib/mempool/mod.rs:343-348 | For a rate that can be ordered with those indexed, the txid joins the back of its rate's bucket, or a new bucket in rate order; the slots gain exactly one |
| FeeRateIndex.ByAncestorFeeRate.Remove | lib/mempool/mod.rs:351-363 | The txid leaves its rate's bucket, an emptied bucket goes; reports whether the rate had a bucket; the slots lose exactly one |
| FeeRateIndex.ByAncestorFeeRate.FindBest | lib/mempool/mod.rs:865-876 | Returns the oldest entry of the highest rate that fits the remaining weight, or nothing when no entry fits |
| FeeRateIndex.RatesDiffer | lib/mempool/mod.rs:337-340 | No two buckets of the index share a rate |
| TxChildsMap.TxChilds.Insert | lib/mempool/mod.rs:416-418 | A child is added below a txid and nothing else changes |
| TxChildsMap.TxChilds.Remove | lib/mempool/mod.rs:420-431 | A child is removed below a txid, and an emptied entry with it |
| Graph.ReachesIffPath | lib/mempool/iter.rs:8-17 | The closed-set definition of reachability used throughout agrees with the existence of a path |
| Traversal.AncestorsIter.Next | lib/mempool/iter.rs:20-54 | Each call yields a proper ancestor not yielded before, never the root, and ends only when all ancestors were yielded |
| Traversal.AncestorsIter.OrderOfWalk | lib/mempool/iter.rs:8-17 | The iterator yields in the order of the walk, so ancestors come first wherever the walk has them first |
| AncestorWalks.AncestorsFirstIff | lib/mempool/iter.rs:8-54 | The walks from all transactions of a pool yield ancestors before descendants, as documented, if and only if no transaction has two parents of which the one that sorts first is an ancestor of the other |
| AncestorWalks.UntangledAfter | lib/mempool/iter.rs:36-54 | If no relative of the root has such parents, nothing on the stack reaches anything below it, and every ancestor is yielded after all of its own |
| AncestorWalks.TangledFails | lib/mempool/iter.rs:36-54 | From a transaction with such parents, the one that sorts last is yielded before its ancestor |
| AncestorWalks.WalkEnds | lib/mempool/iter.rs:20-54 | Every walk comes to an end |
| AncestorWalks.ExpandKeeps | lib/mempool/iter_mut.rs:22-63 | One expansion of the two-phase stack keeps its invariant: the stack holds exactly the visited but unyielded txids, all above the root |
| DescendantTraversal.DescendantsIter.Next | lib/mempool/iter_mut.rs:102-121 | Yields the root first and then every descendant once, each with its shortest distance, in non-decreasing distance |
| DescendantTraversal.AdvanceBfs | lib/mempool/iter_mut.rs:102-121 | One step of the queue keeps the breadth-first invariant on discovery depths |
| PoolRemove.ReachTotalAfterRemove | lib/mempool/mod.rs:684-733 | Deleting a node lowers the total over what another node reaches by at least the deleted node, by exactly it if it led nowhere, and not at all if it was not reached |
| PoolRemove.AfterRemoveValid | lib/mempool/mod.rs:669-745 | Removing any transaction keeps every pool invariant: edges agree, graph acyclic, no cached total below its exact value, weights bounded |
| PoolRemove.ParentlessRemoveExact | lib/mempool/mod.rs:686-720 | Removing a transaction without in-pool parents keeps cached ancestor totals exact |
| PoolRemove.RemoveExactIff | lib/mempool/mod.rs:686-720 | A removal keeps cached ancestor totals exact if and only if no descendant of the removed transaction loses a further ancestor with it |
| PoolRemove.MiddleRemovalInexact | lib/mempool/mod.rs:686-720 | Removing a transaction with an in-pool parent from above one that spends it alone leaves cached totals too high |
| PoolInsert.ChildlessRelatives | lib/mempool/mod.rs:550-574 | A childless insert changes no ancestor set, and adds the new transaction below exactly its ancestors |
| PoolInsert.ChildlessTotals | lib/mempool/mod.rs:600-638 | The exact totals of every old transaction after a childless insert |
| PoolInsert.ChildlessInsertValid | lib/mempool/mod.rs:523-666 | A childless insert keeps every pool invariant and keeps exact ancestor totals exact |
| PoolInsert.SpentInsertBreaksWiring | lib/mempool/mod.rs:570-574 | Inserting a transaction that the pool already spends breaks the agreement of the two edge sets |
| PoolInsert.InsertValidIff | lib/mempool/mod.rs:523-666 | An insert keeps the pool invariants if and only if no pool transaction spends the new one |
| PoolInsert.InsertedSlots | lib/mempool/mod.rs:660-664 | If the pool is valid after an insert, the index must gain exactly the new transaction's slot and nothing else moves |
| PoolCluster.ClusterLeast | lib/mempool/mod.rs:757-775 | A transaction and what is below it are the least set closed under pool spenders |
| PoolCluster.CascadeSteps | lib/mempool/mod.rs:764-775 | One turn of the removal queue removes a member of the cluster and queues its children, also when the popped txid is absent |
| PoolCluster.ClosedRemovalExact | lib/mempool/mod.rs:749-777 | Removing a spender-closed set leaves exact ancestor totals of the survivors exact |
| PoolCluster.RemoveAllClosed | lib/mempool/mod.rs:764-775 | Removing members of a spender-closed set one by one, in any order, keeps the pool valid and leaves the ancestor side of the rest as it was |
| PoolCluster.CascadeExact | lib/mempool/mod.rs:749-777 | A removal with descendants, in any order, keeps the pool valid and exact ancestor totals exact |
| PoolFilter.RemainsAncestors | lib/mempool/mod.rs:785-850 | Ancestors in what remains of a pool are ancestors in the original pool |
| PoolFilter.RootsCoverAll | lib/mempool/mod.rs:796-809 | Every pool transaction is a root or descends from one, so the pass misses none although the roots are listed before any removal |
| PoolFilter.ProgressEnds | lib/mempool/mod.rs:785-850 | Once every root was listed, exactly the transactions the filter asks for are left |
| PoolFilter.VerdictExact | lib/mempool/mod.rs:820-835 | A transaction still pooled is judged as it would have been at the start, although the pass has removed others |
| PoolPackage.PickingExpands | lib/mempool/mod.rs:894-902 | Reopening a stack entry puts its in-pool parents above it and keeps the invariant of the depth-first search |
| PoolPackage.PickingPicks | lib/mempool/mod.rs:882-885 | An entry popped a second time is still pooled, has no in-pool parent left, and comes after all its ancestors |
| PoolPackage.PickingSkips | lib/mempool/mod.rs:895-898 | Dropping an entry that was removed through another branch loses nothing |
| PoolProposal.PackageEnds | lib/mempool/mod.rs:880-906 | When the stack runs empty, exactly the root and its in-pool ancestors were picked, ancestors first, and exactly the clusters of the root's conflicts evicted |
| PoolProposal.ProposalSteps | lib/mempool/mod.rs:864-908 | Adding a package keeps the template valid: distinct, closed under in-pool ancestors, ancestors first, and everything else left or dropped for a conflict |
| PoolProposal.BudgetSteps | lib/mempool/mod.rs:907-908 | A package that fits is paid for from the remaining weight, which never underflows; the modified weights chosen stay within the limit |
| PoolProposal.ConflictsInherited | lib/mempool/mod.rs:566-569 | Conflict sets grow from every ancestor to every descendant |
| PoolProposal.PairFreeSteps | lib/mempool/mod.rs:887-896 | Although only the final transaction's conflicts are evicted, the partner of a chosen transaction is neither chosen nor left in the pool |
| PoolProposal.RemainsApart | lib/mempool/mod.rs:669-777 | Whatever is removed from a pool, the pairs that it keeps apart stay apart |
| PoolProposal.SoundApart | lib/mempool/mod.rs:549-569 | Sound conflict sets keep apart all transactions that name each other |
| PoolProposal.NoPairsNoConflicts | lib/mempool/mod.rs:856-911 | Keeping those apart keeps apart all conflicts, inherited ones included |
| Mempools.Mempool.Insert | lib/mempool/mod.rs:523-666 | The pool becomes the specified one, the index gains one slot, an existing txid is refused without change; the invariants hold again whenever the specified pool is valid |
| Mempools.Mempool.LinkInputs | lib/mempool/mod.rs:550-557 | The new transaction enters the child sets of everything it spends |
| Mempools.Mempool.StoreEntry | lib/mempool/mod.rs:560-593 | The entry is stored with the in-pool parents and spenders and the conflicts its parents pass on |
| Mempools.Mempool.CreditToAncestors | lib/mempool/mod.rs:600-616 | Every ancestor gains the new transaction in its descendant totals, once, and the entry gains theirs |
| Mempools.Mempool.CreditToDescendants | lib/mempool/mod.rs:618-638 | Every descendant gains the new transaction in its ancestor totals and conflicts, once |
| Mempools.Mempool.MarkConflicts | lib/mempool/mod.rs:640-652 | Every pooled declared conflict and its descendants learn of the new transaction; absent ones are skipped |
| Mempools.Mempool.Remove | lib/mempool/mod.rs:669-745 | Never fails: returns the entry and leaves the specified pool, with every descendant re-indexed under its new rate |
| Mempools.Mempool.UnlinkFromAncestor | lib/mempool/mod.rs:690-713 | A descendant moves to the rate it has without the removed transaction; its old slot is always found |
| Mempools.Mempool.DebitFromDescendants | lib/mempool/mod.rs:684-720 | Every proper descendant is debited and re-indexed exactly once |
| Mempools.Mempool.DebitFromAncestors | lib/mempool/mod.rs:721-733 | Every ancestor is debited exactly once, and no subtraction underflows |
| Mempools.Mempool.RemoveWithDescendants | lib/mempool/mod.rs:749-777 | Removes and returns exactly the transaction, if pooled, and everything reachable through its children, also when it is absent; survivors keep their ancestor side; the pool is what removing the returned ones in that order leaves |
| Mempools.Mempool.EvictConflicts | lib/mempool/mod.rs:888-893 | Removes exactly the clusters of the given conflicts |
| Mempools.Mempool.AddPackage | lib/mempool/mod.rs:878-906 | Terminates and picks exactly the root with its in-pool ancestors, ancestors first; the panic on a missing transaction cannot happen |
| Mempools.Mempool.ProposeTxsMut | lib/mempool/mod.rs:856-911 | The template is valid, within the weight budget, maximal at exit, free of every set of pairs that the pool keeps apart, and free of all conflicts when conflict sets are sound; where cached totals are exact, every round takes a package of the highest quotient of its ancestors' fees over a quarter of their weight, rounded up, larger ones first among equals, and at exit four times that size exceeds the rest for every transaction left |
| Mempools.LimitIs | lib/mempool/mod.rs:856-863 | The weight limit is the given one, at most 3,999,412, and that number if none is given |
| PoolProposal.BestIsBestPackage | lib/mempool/mod.rs:660-664 | The best slot of the index belongs to the transaction whose package, itself with its in-pool ancestors, pays most per size |
| PoolProposal.BestRoundsMore | lib/mempool/mod.rs:864-908 | A round that takes the best slot takes the best package and pays four times its size |
| PoolProposal.NoPackageFits | lib/mempool/mod.rs:865-876 | When no slot fits, no package fits |
| Mempools.Mempool.ProposeTxs | lib/mempool/mod.rs:913-957 | The pool is unchanged, the lookup never fails, and each entry's positions are the strictly ascending places of all its ancestors, below its own |
| Mempools.Mempool.DependsOf | lib/mempool/mod.rs:929-943 | The ancestor positions of one entry, found through the ancestor iterator |
| Mempools.Mempool.TryFilter | lib/mempool/mod.rs:785-850 | With descendants, for any filter that does not fail, keeps exactly the transactions that pass with the inputs they had at the start, together with all their ancestors; without, for a filter that does not mind inputs disappearing, keeps exactly those that pass; the removed ones are returned once each |
| Mempools.Mempool.FilterOne | lib/mempool/mod.rs:820-846 | Decides on one listed transaction; one already gone is skipped |
| Mempools.Mempool.InPoolInputs | lib/mempool/mod.rs:824-833 | The filter is shown exactly the in-pool input transactions |
| Mempools.Mempool.Clone | lib/mempool/mod.rs:913-917 | A clone has the same contents and shares no state |
| PoolRuns.RunValid | lib/mempool/mod.rs:523-777 | Every run of childless inserts, arbitrary removals and removals with descendants from the empty pool satisfies every pool invariant |
| PoolRuns.RunExactIff | lib/mempool/mod.rs:523-777 | Over such runs the cached ancestor totals are exact throughout if and only if no removal takes further ancestors away from descendants it leaves; removals with descendants never do |
| PoolRuns.ParentlessKeepsExact | lib/mempool/mod.rs:686-720 | A removal of a transaction whose in-pool parents are gone is of that kind |
| PoolRuns.InsertThenRemove | lib/mempool/mod.rs:523-745 | Removing the transaction a childless insert added restores every other entry, up to the conflict marks it left |
| PoolRuns.InsertKeepsConflictsSound | lib/mempool/mod.rs:549-569 | A compatible, reciprocated insert keeps conflict sets sound |
| PoolRuns.ClosedRemovalKeepsConflictsSound | lib/mempool/mod.rs:749-777 | Removing a spender-closed set keeps conflict sets sound |
| PoolRuns.RemoveSoundIff | lib/mempool/mod.rs:669-745 | A single removal keeps conflict sets sound, inherited conflicts included, if and only if every conflict of a descendant is backed by a mutual conflict without the removed transaction |
| PoolRuns.InheritedConflictUnbacked | lib/mempool/mod.rs:669-745 | Removing the only parent from which a conflict was inherited is a removal that does not |
| PoolRuns.RunSoundIff | lib/mempool/mod.rs:549-777 | Over runs of compatible, reciprocated inserts conflict sets are sound throughout if and only if every single removal leaves only backed conflicts; removals with descendants always do |
| PoolRuns.SpenderlessKeepsBacked | lib/mempool/mod.rs:669-745 | So does the removal of a transaction that nothing spends |
| PoolRuns.InsertKeepsApart | lib/mempool/mod.rs:549-652 | A childless insert that declares no ancestor, and whose ancestors have no declared conflict among them, keeps declared conflicts apart |
| PoolRuns.RunApart | lib/mempool/mod.rs:523-777 | After every run of such inserts and any removals at all, no template can hold two transactions of which one declared the other while both were pooled |
| AbandonedTxs.EmptyValid | lib/mempool/sync/abandoned_pool.rs:29-37 | The empty abandoned pool satisfies the invariant |
| AbandonedTxs.InsertValidIff | lib/mempool/sync/abandoned_pool.rs:51-118 | An insert keeps the invariant if and only if some parent of the tx is pooled or given as absent |
| AbandonedTxs.InsertExactIff | lib/mempool/sync/abandoned_pool.rs:51-118 | It also keeps every absent link exact if and only if each absent tx already linked to the tx is given as absent |
| AbandonedTxs.RemoveValid | lib/mempool/sync/abandoned_pool.rs:123-180 | A removal keeps the invariant: the tx stays known as absent, so every child left behind is still blocked |
| AbandonedTxs.RemoveExact | lib/mempool/sync/abandoned_pool.rs:123-180 | A removal keeps absent links exact |
| AbandonedTxs.InsertThenRemove | lib/mempool/sync/abandoned_pool.rs:51-180 | Removing a tx undoes its insertion exactly, when the pool knew it only as an absent parent |
| AbandonedTxs.InsertedAbsent | lib/mempool/sync/abandoned_pool.rs:70-90 | Exactly which txs are linked to an absent parent after an insertion |
| AbandonedTxs.InsertedAvailable | lib/mempool/sync/abandoned_pool.rs:70-90 | Exactly which txs are linked to an available parent after an insertion |
| AbandonedClosures.InsertedInFamily | lib/mempool/sync/abandoned_pool.rs:51-118 | Whatever state a parent is in, the inserted tx is in its family |
| AbandonedClosures.LinkedInFamily | lib/mempool/sync/abandoned_pool.rs:190-215 | A tx linked to one of its parents leaves with it |
| AbandonedClosures.InsertKeepsLinked | lib/mempool/sync/abandoned_pool.rs:51-118 | If every pooled tx is linked to each of its parents, so it is after an insertion |
| AbandonedClosures.RemoveKeepsParentsLinked | lib/mempool/sync/abandoned_pool.rs:120-180 | And after a removal |
| AbandonedClosures.RemovalKeepsLinked | lib/mempool/sync/abandoned_pool.rs:190-215 | And after a cascading removal |
| AbandonedClosures.RestoreLinkedIff | lib/mempool/sync/abandoned_pool.rs:220-273 | And after a restoration if and only if nothing left behind waited for the tx that became available, unless it is also linked to it as available, or for one handed back |
| AbandonedClosures.RestoredIsForgotten | lib/mempool/sync/abandoned_pool.rs:226-249 | After a restoration below a tx, rejecting that tx takes nothing along |
| AbandonedClosures.PrunedFamily | lib/mempool/sync/abandoned_pool.rs:190-215 | What a removal still finds below a tx is what earlier removals left of its family |
| AbandonedPools.AbandonedPool.Insert | lib/mempool/sync/abandoned_pool.rs:51-118 | The pool becomes the specified one; an existing entry is returned unchanged; a new tx is in the family of each of its parents, so a later rejection of any of them takes it along |
| AbandonedPools.AbandonedPool.LinkToParents | lib/mempool/sync/abandoned_pool.rs:72-88 | Each distinct parent is linked once, as abandoned, absent or available |
| AbandonedPools.AbandonedPool.Remove | lib/mempool/sync/abandoned_pool.rs:123-180 | The pool becomes the specified one: links to its parents go, its children wait for it as absent |
| AbandonedPools.AbandonedPool.RemoveDescendantTxs | lib/mempool/sync/abandoned_pool.rs:184-217 | Removes and returns each pooled tx of the family below the rejected tx once; survivors are blocked by exactly what blocked them before; links to removed txs are gone and the invariant holds |
| AbandonedPools.AbandonedPool.RestoreDescendantTxs | lib/mempool/sync/abandoned_pool.rs:220-273 | Returns, parents before children, exactly the least set of pooled txs that wait only for the given tx and for each other; what stays is still blocked and the invariant holds |
| AbandonedClosures.ReleasedWithin | lib/mempool/sync/abandoned_pool.rs:220-273 | What is restored lies within every set the restoration rule generates, so it is the least one |
| AbandonedClosures.SurvivorsStayBlocked | lib/mempool/sync/abandoned_pool.rs:184-217 | A survivor of a cascading removal is not below anything removed and keeps its blocking parents |
| AbandonedClosures.SweepDone | lib/mempool/sync/abandoned_pool.rs:190-215 | When the removal queue is empty, the txids visited are exactly the family of the rejected tx |
| AbandonedClosures.ThinnedExact | lib/mempool/sync/abandoned_pool.rs:184-217 | A cascading removal keeps absent links exact |
| AbandonedClosures.RestoreExact | lib/mempool/sync/abandoned_pool.rs:220-273 | A restoration keeps absent links exact |
| AbandonedClosures.RestoreFrees | lib/mempool/sync/abandoned_pool.rs:220-273 | If everything left behind is blocked, no tx that could be restored was missed |
| SyncQueues.RequestQueue.PushBack | lib/mempool/sync/mod.rs:101-106 | A new request goes to the back, a queued one keeps its place; no duplicates |
| SyncQueues.RequestQueue.PushFront | lib/mempool/sync/mod.rs:109-116 | The request goes to the front, wherever it was; no duplicates |
| SyncQueues.RequestQueue.Remove | lib/mempool/sync/mod.rs:96-98 | The request is gone, the order of the rest unchanged |
| SyncQueues.RequestQueue.PollNext | lib/mempool/sync/mod.rs:122-172 | Takes the longest front run of one kind that its cap allows, as a single request when it is one, and leaves the rest |
| SyncQueues.BatchUnique | lib/mempool/sync/mod.rs:122-172 | The queue determines the batch |
| SyncQueues.DrainInOrder | lib/mempool/sync/mod.rs:122-172 | Draining hands out every request once, in order, in tx batches of at most 1000 |
| SyncQueues.SyncActionQueue.PopFront | lib/mempool/sync/mod.rs:209-216 | Removes the first action; the next one starts its wait at that moment |
| SyncQueues.SyncActionQueue.PushBack | lib/mempool/sync/mod.rs:218-230 | Appends an action without touching the head or the time it has waited |
| SyncQueues.SyncActionQueue.PushFront | lib/mempool/sync/mod.rs:232-242 | Puts an action before the old head and restarts the wait |
| SyncQueues.SyncActionQueue.FromActions | lib/mempool/sync/mod.rs:245-256 | Collecting keeps the order |
| SyncRequests.ServedForget | lib/mempool/sync/task.rs:286-295 | Forgetting a tx together with its request strands nobody |
| SyncRequests.ServedDispatch | lib/mempool/sync/mod.rs:122-172 | A dispatched batch moves its requests from the queue to those in flight and strands nobody |
| SyncRequests.ServedAnswer | lib/mempool/sync/task.rs:1050-1092 | A response that settles what its batch was sent for strands nobody |
| SyncRequests.FrontedFirst | lib/mempool/sync/task.rs:799-807 | Parents pushed to the front in reverse end up first, in the order of the inputs |
| SyncParents.TryGetParentTxsFromCaches | lib/mempool/sync/task.rs:653-702 | The first rejected parent decides; else the required, unavailable or abandoned parents, each once in vin order; else what was found, by cache before mempool |
| SyncParents.InVinOrderComplete | lib/mempool/sync/task.rs:672-692 | The lists name exactly the parents in the respective state |
| SyncParents.FeeUnknownNeedsEveryParent | lib/mempool/sync/task.rs:645-652 | Without a fee from the node every parent is at hand once parents count as available, so the fee sum misses none |
| SyncParents.FetchedEarly | lib/mempool/sync/task.rs:600-609 | Every parent that resolution calls needed is one that is fetched when its child arrives |
| SyncParents.FeeDelta | lib/mempool/sync/task.rs:704-733 | The fee is inputs less outputs exactly when no sum overflows and the inputs cover the outputs; each failure has its exact condition |
| SyncTips.TipsStayCoherent | lib/mempool/sync/task.rs:226-381 | After every block event the mirrored tip is the filtered tip or a rejected block |
| SyncTips.OutOfStepIff | lib/mempool/sync/task.rs:197-381 | After any run of block events, skipped ones included, a disconnect of the filtered tip fails if and only if the last event that moved the tips rejected a block; that a hash commits to its parent is used as: some age grows from parent to child |
| SyncTips.RejectedBlockLeavesStaleTip | lib/mempool/sync/task.rs:904-927 | After a rejected block is disconnected, reconnecting it is skipped and disconnecting its parent fails |
| SyncTips.MirrorIff | lib/mempool/sync/task.rs:227-258 | The mirrored tx set equals the node's mempool throughout a run if and only if no skipped block held a tx of it |
| SyncTips.LeavingTxIsMirrored | lib/mempool/sync/task.rs:943-965 | While the mirror is exact, a tx the node drops is always there to be dropped |
| SyncLogs.EffectsFold | lib/mempool/sync/task.rs:894-982 | Without restored txs, the history of effects is the fold of the snapshot and the announcements applied so far |
| SyncLogs.FollowsStreamIff | lib/mempool/sync/task.rs:738-982 | In a run that restores nothing, the mirror is that fold after every applied action if and only if no skipped block held a tx of the node's mempool |
| SyncLogs.ReconnectedBlockParts | lib/mempool/sync/task.rs:209-258 | A run on which the mirror and the node's mempool part: a block is rejected and disconnected, one of its txs announced again, and the block connected once more, which is skipped |
| SyncLogs.MirrorOfStream | lib/mempool/sync/task.rs:943-965 | In such a run, a removal that misses its tx was announced by no node whose mempool held the tx |
| SyncLogs.LogRestores | lib/mempool/sync/task.rs:456-467 | Restored insertions go in front of what is queued and leave the announcements in order |
| SyncParents.CachedParentMayFollow | lib/mempool/sync/task.rs:653-702 | A tx whose parent is cached but not pooled is let in, so a parent announced later finds a pooled spender |
| SyncPools.LedStep | lib/mempool/sync/task.rs:738-892 | If insertions into the filtered mempool were childless so far, the next applied action keeps them so, in a run that restores nothing, skips no tx of the node, rejects no block and announces parents first |
| SyncPools.PoolUnspent | lib/mempool/sync/task.rs:837-842 | In such a run no pooled tx spends the one announced next |
| SyncPools.NoSpenderIff | lib/mempool/mod.rs:523-574 | An insertion that finds no spender is a childless one of the pool that holds the same txs, so the pool's invariants apply to it |
| SyncPools.ViewsShrink | lib/mempool/sync/task.rs:255-315 | Removals keep the filtered mempool within the mirror as long as no block was rejected |
| Enforcers.PushChained | lib/mempool/sync/task.rs:259-283 | A block that extends the top of the enforcer's stack keeps the stack a chain |
| Enforcers.PopChained | lib/mempool/sync/task.rs:366-379 | Popping the top block of a chain leaves its parent on top |
| MempoolSyncs.MempoolSync.constructor | lib/mempool/sync/task.rs:1373-1418 | The initial state satisfies the invariant; every snapshot tx is queued and logged in order, and the ones not seeded are needed and requested |
| MempoolSyncs.MempoolSync.SyncedTipAtHand | lib/mempool/sync/task.rs:187-193 | Once synced, the block at the filtered tip is there to be looked up |
| SyncPools.DownstreamMore | lib/mempool/mod.rs:749-777 | Removing tx after tx with all descendants takes out exactly what removing them all at once does |
| MempoolSyncs.MempoolSync.RemoveSubtree | lib/mempool/mod.rs:749-777 | The tx and the pooled txs that spend it, directly or through each other, leave, and nothing else |
| SyncSteps.ConnectedMeans | lib/mempool/sync/task.rs:197-327 | A connected block moves the tips as its case and the verdict say, takes its txs from the mirror unless skipped, and keeps the filtered mempool within the mirror |
| SyncSteps.AcceptedMeans | lib/mempool/sync/task.rs:284-316 | After an accepted block nothing is pooled that was mined, asked to be removed, or spends something that left; whoever is downstream of nothing removed stays; exactly what was asked to be removed and not mined is rejected; mined txs are cached and needed no more |
| SyncSteps.DisconnectedMeans | lib/mempool/sync/task.rs:366-381 | A disconnect pops the enforcer, and both tips are the parent of the block, which is at hand |
| MempoolSyncs.MempoolSync.ConnectBlock | lib/mempool/sync/task.rs:197-327 | Exactly what the case and the enforcer's answer call for happens to the whole state, and nothing else; asks the enforcer only about a block that extends the filtered tip, which is the top of its stack; forgets the block's txs unless it is skipped; fails exactly on a tip mismatch it cannot explain |
| MempoolSyncs.MempoolSync.AskAbout | lib/mempool/sync/task.rs:273-325 | An accepted block's txs leave the mempool and the needs, exactly what it conflicts with, with everything downstream, leaves the mempool, and exactly what of that it did not mine is rejected; a rejected block changes no view and is queued for rejection |
| MempoolSyncs.MempoolSync.TakeMined | lib/mempool/sync/task.rs:286-294 | Unless the mempool fails, mined txs leave mempool, needs and request queue, and enter the cache |
| MempoolSyncs.MempoolSync.DropConflicting | lib/mempool/sync/task.rs:296-315 | Conflicting txs and everything downstream of them leave the mempool, and nothing else; exactly those not mined by the block are rejected and deprioritised |
| MempoolSyncs.MempoolSync.HandleDisconnectedBlock | lib/mempool/sync/task.rs:332-383 | Pops exactly the filtered tip from the enforcer and rolls both tips back, or first asks for the parent block; rolls back the mirror alone for a block only it stands at; refuses exactly a block the mirror does not stand at |
| MempoolSyncs.MempoolSync.HandleBlockHashMsg | lib/mempool/sync/task.rs:385-402 | A block not at hand becomes needed and is requested |
| MempoolSyncs.MempoolSync.HandleTxHashMsg | lib/mempool/sync/task.rs:404-485 | Messages before the snapshot change nothing; an addition is needed and requested, at the front if it was unavailable, and then the abandoned pool hands back exactly the least set that waited for it, which is cached and queued first; a removal is forgotten together with its request |
| MempoolSyncs.MempoolSync.RestoreBelow | lib/mempool/sync/task.rs:456-467 | What the abandoned pool hands back is cached and queued first, parents first |
| MempoolSyncs.MempoolSync.HandleSeqMessage | lib/mempool/sync/task.rs:487-508 | The invariant is kept, and the message is queued and logged last, also one from before the snapshot, behind what it restored; a block not at hand is needed and requested, an added tx that is not cached is needed, requested and not unavailable, a removed one is neither needed nor requested and unavailable |
| SyncSteps.NotedMeans | lib/mempool/sync/task.rs:385-508 | Noting a message does so without losing a need or moving a view; only restored insertions overtake what is queued |
| SyncSteps.NothingStranded | lib/mempool/sync/task.rs:894-982 | If the block of every queued message is at hand or needed, and the queue waits, then what its head waits for has a request queued or in flight; only a disconnect of a block that is not the filtered tip waits for something else |
| SyncSteps.AwaitedMore | lib/mempool/sync/task.rs:385-508 | The block of every queued message stays at hand or needed when a message is noted |
| SyncSteps.WaitingMeans | lib/mempool/sync/task.rs:510-591 | And when a block arrives and the message that waited for it is applied |
| MempoolSyncs.MempoolSync.RestoreBelowBlock | lib/mempool/sync/task.rs:521-533 | The block's txs are available again, last one first, and exactly what the abandoned pool hands back below each of them is cached and queued first |
| MempoolSyncs.MempoolSync.TakeInBlock | lib/mempool/sync/task.rs:519-533 | The block is needed no more, its request is answered, and exactly what its txs free is cached and queued; nothing else changes |
| MempoolSyncs.MempoolSync.ApplyWaiting | lib/mempool/sync/task.rs:534-584 | A block response applies the message waiting for it at the head with its whole effect, or asks for the parent block, or does nothing |
| MempoolSyncs.MempoolSync.HandleRespBlock | lib/mempool/sync/task.rs:510-591 | What the block restores is logged in front; then the message at the head that waited for the block is applied with its effect, or nothing is; the block is kept, and so are the invariant and the record of the run |
| MempoolSyncs.MempoolSync.FeeFor | lib/mempool/sync/task.rs:820-823 | The fee is the node's if it gave one, else what the inputs are worth above the outputs; it fails exactly when that cannot be computed |
| MempoolSyncs.MempoolSync.AddCached | lib/mempool/sync/task.rs:765-891 | What happens to the whole state for each way the parents of an announced tx resolve, and for each answer of the enforcer about that very tx; an accepted one is handed to the mempool with its fee, the enforcer's conflicts and its weight as tweaked |
| MempoolSyncs.MempoolSync.TryAddTxFromCaches | lib/mempool/sync/task.rs:738-892 | A tx that is done is mirrored and settled as its parents and the enforcer say; one mirrored before or known unavailable changes nothing else; a missing one is requested first, and so are missing parents |
| SyncSteps.AdditionGoes | lib/mempool/sync/task.rs:738-892 | An added tx is in the mempool exactly if its parents are available and the enforcer accepts it, rejected with the rejection queued if a parent is rejected or the enforcer turns it down, and abandoned if a parent is unavailable or abandoned |
| SyncParents.ResolvesOneWay | lib/mempool/sync/task.rs:653-702 | The caches decide how the parents resolve |
| SyncSteps.FamilyMeans | lib/mempool/sync/task.rs:862-888 | What stays pooled after a rejection spends neither the tx nor anything that left, and what left from either pool is exactly what is rejected with the tx |
| SyncSteps.RejectedLeast | lib/mempool/sync/task.rs:867-883 | What is rejected along from the abandoned pool are the pooled members of the least set that holds the roots, what is linked to a root as available, and everything below a member |
| MempoolSyncs.MempoolSync.RejectFamily | lib/mempool/sync/task.rs:862-888 | A rejected tx leaves both pools with exactly what is below it, exactly that is rejected, and each rejection is queued |
| MempoolSyncs.MempoolSync.Abandon | lib/mempool/sync/task.rs:785-817 | A tx with unavailable or abandoned parents enters the abandoned pool, which always finds a parent to block it |
| MempoolSyncs.MempoolSync.RemoveAbandoned | lib/mempool/sync/task.rs:867-883 | Exactly the pooled members of the families of the roots leave the abandoned pool; they and the roots are returned |
| MempoolSyncs.MempoolSync.ApplyDisconnected | lib/mempool/sync/task.rs:904-941 | A disconnect rolls back the filtered tip with its whole effect, is ignored for a rejected block, and waits otherwise, after asking for the parent block if that is what is missing |
| MempoolSyncs.MempoolSync.ApplyRemoved | lib/mempool/sync/task.rs:943-965 | Fails exactly when the tx is not mirrored; else it leaves every view, in the abandoned pool its children wait for it, and nothing else changes |
| MempoolSyncs.MempoolSync.ApplyConnected | lib/mempool/sync/task.rs:966-980 | A connect waits for its block and is then applied with its whole effect |
| MempoolSyncs.MempoolSync.TryApplySeqMessage | lib/mempool/sync/task.rs:894-982 | An applied message does to the whole state exactly what is specified for it, one that waits only asks for what it waits for; keeps the chain and request invariants |
| MempoolSyncs.MempoolSync.TryApplyNextSyncAction | lib/mempool/sync/task.rs:985-1039 | An applied action has its whole specified effect, leaves the queue, and its effect on the node's mempool joins the history; a missing tx is reported only for a removal of a tx that is not mirrored |
| MempoolSyncs.MempoolSync.TryApply | lib/mempool/sync/task.rs:985-1024 | Either way of queuing an addition, and every message, has its whole specified effect or waits |
| SyncSteps.ActionMeans | lib/mempool/sync/task.rs:738-982 | An applied action moves the mirror by its effect on the node's mempool, keeps the filtered mempool within the mirror and the tip at hand, and forgets no needed block |
| SyncSteps.WaitsMeans | lib/mempool/sync/task.rs:738-982 | An action that waits changes nothing but what is needed and asked for |
| MempoolSyncs.MempoolSync.ApplySyncActions | lib/mempool/sync/task.rs:1101-1102 | Terminates; applies action after action, each with its whole effect, until the queue is empty or its head has to wait; an error for a missing tx means that the next action removes a tx the mirror does not hold |
| MempoolSyncs.MempoolSync.HeadIsServed | lib/mempool/sync/task.rs:894-982 | In every state a run reaches between messages, what the head of the queue waits for has been asked for |
| SyncSteps.WaitsStuck | lib/mempool/sync/task.rs:985-1039 | When the last action tried has to wait, nothing that is queued can be applied |
| SyncSteps.SentStuck | lib/mempool/sync/mod.rs:122-172 | Handing out requests does not change that |
| MempoolSyncs.MempoolSync.CacheFetched | lib/mempool/sync/task.rs:1067-1084 | The parents wanted are exactly those some fetched mempool tx still needs when it is handled |
| MempoolSyncs.MempoolSync.HandleRespTxs | lib/mempool/sync/task.rs:1052-1092 | Fetched txs enter the cache, lost ones are unavailable, wanted parents are needed and requested, no need is left without a request, and nothing else changes |
| MempoolSyncs.MempoolSync.HandleResp | lib/mempool/sync/task.rs:1041-1103 | The response has its whole specified effect, and then every action that no longer has to wait is applied; the invariant and the record of the run are kept, announcements stay as they were, and an error for a missing tx means that the next action removes a tx the mirror does not hold |
| MempoolSyncs.MempoolSync.NextRequest | lib/mempool/sync/mod.rs:122-172 | Dispatching the next batch keeps the invariant |
| MempoolSyncs.MempoolSync.TaskInner | lib/mempool/sync/task.rs:1139-1253 | Every run over any messages keeps the invariant and handles each message with its whole specified effect; after each but a poll the queue is empty or its head waits; once the tip's block is at hand it always is; what was applied and what is queued is, but for restored insertions, the snapshot and the announcements in order; if nothing was restored and no skipped block held a tx of the node, the mirror is the fold of the announcements applied so far, and on a well-formed stream no removal ever misses its tx; if moreover no block was rejected and parents were announced first, the filtered mempool lies within the mirror and every insertion into it was childless |
| MempoolSyncs.MempoolSync.MirrorExact | lib/mempool/sync/task.rs:255-258 | In every reachable state of such a run the mirror is that fold, and no removal that a node announces can miss |
| Composes.ConnectBlock | lib/cusf_enforcer.rs:575-624 | For any nesting, either every leaf connects the block and the removals are the union of theirs, or it is rejected and every leaf is as before |
| Composes.DisconnectBlock | lib/cusf_enforcer.rs:629-645 | Every leaf returns to its state from before the block, and the removals are the union of theirs |
| Composes.AcceptTx | lib/cusf_enforcer.rs:649-677 | Accepted exactly by all: the conflicts are the union, the tweaks the saturating sum; a rejection comes from some leaf |
| Composes.TweakExact | lib/cusf_enforcer.rs:665-671 | The tweak does not depend on the nesting while no partial sum leaves the range of an i64 |
| Zmq.ParsedIffCarried | lib/zmq.rs:88-151 | Frames parse to a message if and only if they carry it: prefix, reversed hash, type, numbers in little endian, anything after them ignored |
| Zmq.LettersAreTold | lib/zmq.rs:88-151 | The prefix spells "sequence", and C, D, A and R stand for connected, disconnected, added and removed |
| Zmq.SequenceChecker.CheckMempoolSeq | lib/zmq.rs:208-251 | The verdict and the next expectation on mempool numbers |
| Zmq.SequenceChecker.CheckZmqSeq | lib/zmq.rs:253-276 | The verdict and the next expectation on publisher numbers |
| Zmq.SequenceChecker.CheckSeqNumbers | lib/zmq.rs:278-287 | Publisher numbers are checked only if the mempool number passes |
| Zmq.SequenceChecker.CheckStream | lib/zmq.rs:360-382 | The stream is filtered message by message up to the first error |
| Zmq.Deduplicated | lib/zmq.rs:199-287 | A valid publisher stream with each message repeated any number of times comes out exactly deduplicated and without error |
| Zmq.AcceptedInOrder | lib/zmq.rs:199-287 | Whatever is accepted has consecutive publisher numbers and strictly increasing mempool numbers |
| Zmq.AcceptedIsPublished | lib/zmq.rs:199-287 | If numbers identify messages, an accepted stream is one a publisher could have sent |
| Zmq.PublishedIff | lib/zmq.rs:199-287 | What an accepted stream lets through is what a publisher could have sent, if and only if between two consecutive passed tx messages no other tx message is dropped for repeating a publisher's number, nor a block message while the mempool number of the second skips |
| Zmq.PassingFollows | lib/zmq.rs:199-287 | A message that passes is one a publisher could have sent next, unless it completes such a gap |
| Zmq.MislabelledBlockHidesGap | lib/zmq.rs:247-250 | Whatever tx message a block message repeats the number of, any later mempool number then passes |
| Bytes.LeRoundTrip | lib/mempool/dat.rs:91-93 | A number is read back from its little-endian bytes |
| Bytes.XorTwice | lib/mempool/dat.rs:66-70 | Masking a byte twice with the same key byte gives it back |
| Bytes.XorAt | lib/mempool/dat.rs:66-70 | A bit of a masked byte is set exactly if the bits of byte and key differ |
| Bytes.LeAt | lib/mempool/dat.rs:91-93 | The byte at place i of a number in little endian is its i-th digit to base 256 |
| Dat.ApplyXor | lib/mempool/dat.rs:66-70 | The buffer is masked in place, byte by byte, with the key indexed by absolute offset |
| Dat.XoredTwice | lib/mempool/dat.rs:66-70 | Masking by absolute offset is its own inverse |
| Dat.TxCut | lib/mempool/dat.rs:139-150 | No proper prefix of an encoded transaction decodes |
| Dat.DecodedCut | lib/mempool/dat.rs:135-165 | However the bytes are cut, decoding yields exactly the entries wholly inside the cut |
| Dat.DecodeEntries | lib/mempool/dat.rs:135-165 | The cursor loop yields the decodable entries up to the count, and the index of the first missing one |
| Dat.ReadMempoolDat | lib/mempool/dat.rs:76-172 | Reading yields the specified result or the specified error for every file |
| Dat.CutDumpReads | lib/mempool/dat.rs:76-172 | A dump of either version cut anywhere after the count reads as the entries wholly inside the cut, with the index of the first missing one; so does one whose count is too large |
| Dat.DumpRoundTrip | lib/mempool/dat.rs:201-226 | A whole dump with any key and any trailing bytes reads back as exactly the transactions written |
| Dat.LiteralDumpsRead | lib/mempool/dat.rs:76-172 | Two dumps of two entries written out byte by byte, one of each version, read as their two transactions |
| Coinbase.SupplyIsCapped | lib/server.rs:346-358 | However long the chain, the subsidies never add up to more than 21 million coins |
| Coinbase.RewardIs | lib/server.rs:346-358 | The reward at any height is the fees and 5,000,000,000 halved once per 210,000 blocks, on a regression test network per 150 |
| Coinbase.FinalizeCoinbaseTx | lib/server.rs:428-492 | The outputs are worth exactly subsidy plus fees, in the stated order, and finalizing succeeds if and only if no fee is negative, no sum overflows and the given outputs are covered |
| Coinbase.SumTxFees | lib/server.rs:435-449 | The first negative fee or the first overflow is reported |
| Coinbase.HeightScriptFits | lib/server.rs:415-422 | The height script fits its reservation exactly below height 2^23 |
| Coinbase.OverheadReserved | lib/mempool/mod.rs:442-477 | What the usable weight leaves out covers all that a block weighs besides outputs and transactions, and is tight |
| Coinbase.ProposalLimit | lib/server.rs:619-687 | The limit is the usable weight less coinbase outputs, prefix and suffix, floored at zero; it fails only on overflow |
| Coinbase.ListWithinBudget | lib/mempool/mod.rs:907-908 | Real weights stay within the modified weights when no tweak is negative |
| Coinbase.AssembledBlockFits | lib/server.rs:619-727 | Under the stated bounds the assembled block weighs at most what a block may weigh |
| InitialSync.SyncToTip | lib/cusf_enforcer.rs:217-262 | Terminates; yields a tip exactly if the last answer of the enforcer was that it is synced to that tip; every other attempt was about the node's best block of the moment; exactly the blocks reported invalid were invalidated, none reported twice; another error ends it |
| InitialSync.TrackedIsTip | lib/cusf_enforcer.rs:363-398 | Block events that start at the tracked block are followed exactly, reorganisations included |
| InitialSync.FollowsIff | lib/cusf_enforcer.rs:363-398 | Whatever is tracked when a node's events come in, the tracked hash is the node's tip after each of them if and only if the first event finds the right block or parent tracked, or connects a block and the next one does not disconnect it |
| InitialSync.StaleConnectIff | lib/cusf_enforcer.rs:370-386 | If the stream still holds the connect of the tracked block, the tip is followed if and only if the block is not disconnected right after |
| InitialSync.DropSeqMsgs | lib/cusf_enforcer.rs:363-398 | Messages are dropped up to the first one that brings the tracked block to the node's best one |

## Left out

- Mempools.Mempool.Insert: asks that the new transaction spends neither itself nor a pool descendant, which hashing guarantees, and that its modified weight is positive; fees and sizes are unbounded numbers, so the overflow panics of their sums are not modelled, and the replaceability flag and the base fee, which equals the modified fee, are dropped.
- PoolRuns.RunValid: runs insert only transactions that nothing in the pool spends and whose weight does not saturate the pool's; other inserts are covered by the exact condition of InsertValidIff.
- Mempools.Mempool.TryFilter: a filter is a function of the transaction and its in-pool inputs; for one that fails, or that minds inputs disappearing while descendants are left behind, it is only stated that what remains is a valid part of the pool.
- Traversal.AncestorsIter.Next: the mutable iterator has the same steps and is not modelled twice. For one walk alone the condition on the root and its relatives suffices (UntangledAfter) and its failure at the root is fatal (TangledFails); at other relatives it depends on what was pushed before.
- MempoolSyncs.MempoolSync.AddCached: the filtered mempool of the sync is a map of transactions, where descendants are found by the inputs, and an insertion or removal may fail. The class `Mempool` is not used here because the sync can insert a parent after its child (CachedParentMayFollow), and InsertValidIff says what that breaks. An input that names a missing output of its parent panics in the source and is an error here.
- MempoolSyncs.MempoolSync.TaskInner: messages, responses and requests arrive in any order, a response is only asked to answer the batch it belongs to; timeouts and shutdown end a run and are not modelled. What the head of the queue waits for is asked for, but nothing says that the node answers, and a disconnect of a block that is not the filtered tip may wait forever.
- SyncTips.MirrorIff: insertions of restored transactions count as entering the node's mempool; what it says of the announcements alone is FollowsStreamIff, for runs that restore nothing.
- Enforcers.Enforcer.ConnectBlock, Composes.Leaf: after an error of an enforcer nothing is claimed; the caller gives up.
- Dat.ReadMempoolDat: the consensus encoding of transactions is library code; a small self-delimiting encoding stands in for it, and the hash is a parameter. The bound on the first allocation is not modelled.
- Zmq.SequenceChecker.CheckSeqNumbers: numbers are unbounded, so overflow of the counters is not modelled.
- Coinbase.FinalizeCoinbaseTx: scripts are lengths, and the witness commitment is an output of fixed size; a reward beyond a u64 panics in the source and is an error here.
- Coinbase.AssembledBlockFits: what the block producer finalizes is bounded by what was reserved for it, as its interface asks.
- The position lists that block building recomputes when a template has a prefix mix two numberings and have no clean meaning; positions are specified for the mempool's own proposal.
- RPC, sockets, locks, wakers, timeouts, logging, template caching, long polling, proposal checking, response formats and the demonstration program are input and output without logic of their own.
