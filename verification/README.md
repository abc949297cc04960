# Verified model of the Helios node's core

A Dafny model of the parts of the Helios node (a wallet-chain block DAG with its own
peer-to-peer stack) whose correctness is not visible from any one function, with proofs
of what they promise. `dafny verify dfyconfig.toml` covers the whole project.

## What is modelled

**Kademlia routing table** (`Bits`, `Buckets`, `Splitting`, `TableUpdates`, `Neighbours`, `RoutingTable`, `Refusal`).
Ids are natural numbers below 2^256 and distance is exclusive or. The buckets are objects that are
mutated and replaced as in the source; `table` is the value they stand for. Every bucket is an aligned
power-of-two block, the blocks partition the id space, and every operation keeps that.
`add_node` is recursive; it is proved to end, after at most 252 splits. It refuses a node exactly if the
covering bucket is full, the node is new, the shared prefix of the bucket's nodes is a multiple of 8, and
some shorter prefix of those nodes and the new one is not shared by our own id: a condition on the table
before the call. A bucket that covers our own id is split, not refused; but the splits may part the new node from our
id, so that even a table whose bucket covered our id at the start can refuse (`OwnBucketRefuses`). `neighbours` takes buckets by midpoint distance and only leaves the inner loop when it has
2k nodes; it is proved to return the nearest nodes all the same, for every k (a negative k slices as in Python).

**Ordered task preparation** (`TaskStates`, `TaskPreparation`). The incremental cascade with pruning against
the definition "every task on the dependency chain is complete", for every run of calls. A ghost record
remembers all tasks ever entered, pruned ones included.

**Task queue** (`JobPlaces`, `TaskQueue`). Each coroutine is a sequence of atomic steps between its awaits;
the invariant holds after every step, so for every interleaving. The lock of `add` is modelled with its waiters.

**Block DAG** (`Blocks`, `CanonicalChains`, `PurgeStates`, `Purge`, `BlockImport`, `Ancestry`, `Rebuild`, `DiffWalk`). Hashes are
numbers, a root hash stands for the heads it commits to, and the databases are maps: canonical slots, heads, child
links, windows, and the lookups for unprocessed blocks.

- Purging is modelled on any child links, cyclic and stale ones included, and for every order in which the set of
  descendants is met. It removes exactly the block and its descendants and leaves contiguous chains with the right heads,
  whatever the order, if and only if two things hold before the call. First, the block's parent is not one of its
  descendants (always so on acyclic links). Second, every processed descendant at which another chain is cut has a
  canonical parent and no block in its place that is not a descendant (always so when no child link is stale).
  The source does not remove all child links of what it purges: `PurgedLive` says exactly when a purge leaves a
  link to a block that is gone, `StaleLinkExample` is such a case, and `StaleLinkDamage` what it leads to.
- Importing, where no block may be replaced: blocks that arrive before their dependencies wait. After every received
  block nothing importable is left waiting, and the set of imported blocks depends only on the set of accepted ones,
  not on their order.
- The rebuild saves for every window the heads of that time and files every block once; the walk over head
  differences, a different algorithm, finds exactly the same window.

**Stake-weighted consensus** (`Votes`, `Consensus`, `SyncScan`). The totals kept by differences equal the stakes
recomputed from each peer's last message as long as no peer changes its stake. For one message the exact condition is
given: for root hashes, which are added at the previous stake, the stake is unchanged or the message is empty; for block
choices, added at the new stake, the stake is unchanged or no choice is repeated. The consensus root hash is the
maximum by (stake, hash), and the resync point is characterised for every snapshot.

**RLPx framing** (`Framing`, `Transport`). Cipher, hash and key agreement are parameters with only their lengths and
the symmetry of the agreement known. Both ends start from the crossed MACs of `derive_secrets`; under every interleaving
of sends, partial deliveries and reads in both directions, a read returns the oldest command sent and not yet read as soon
as its bytes have arrived, and waits before that; there is no MAC failure. What is on the wire is tied to the key stream
and the digests themselves, byte by byte.

## Assumptions

- `Purging.Chain.Purge` starts from contiguous chains in which every canonical block is linked under what it depends on,
  and every child link leads to a block whose header is saved; headers are never deleted.
- Every saved block has number 0 or is on top of a saved parent of its chain (`CanonicalChains.Rooted`).
- A block can be imported exactly when all blocks it depends on are processed; execution itself is not modelled.
- Timestamps do not decrease along a chain (`Ancestry.WfHeaders`).
- In task preparation, ids are distinct within one `register_tasks` call, no id is entered again after it was pruned,
  there is at least one prerequisite, and a task passed to `finish_prereq` has the dependency it was registered with.
- In the task queue, an `add` repeats no task, and not one that another `add` is still inserting.
- In the routing table, the local id and the ids looked up are natural numbers; ids beyond 2^256 - 1 take the error path.

## Model

| member | source | states |
|---|---|---|
| Buckets.BlocksOrderedByDistance | hp2p/kademlia.py:153-157 | two disjoint aligned blocks are ordered by distance alike at all their points, so midpoints decide |
| RoutingTables.KBucket.Add | hp2p/kademlia.py:187-208 | a known node moves to the tail, a new one is appended while there is room, and otherwise it is cached and the head offered for eviction |
| RoutingTables.KBucket.RemoveNode | hp2p/kademlia.py:175-178 | the node, and nothing else, is removed; order is kept |
| Sequences.RemoveFirstMeans | hp2p/kademlia.py:175-178 | the first occurrence goes, what is before and after it stays in place |
| RoutingTables.KBucket.Split | hp2p/kademlia.py:162-173 | the halves hold exactly the nodes and cached nodes of their ranges, in order |
| Splitting.RestrictInOrder | hp2p/kademlia.py:162-173 | two nodes of a half keep the order they had in the bucket |
| Splitting.SplitBucketWf | hp2p/kademlia.py:162-173 | both halves of an aligned block are aligned blocks, with nodes in range and none twice |
| RoutingTables.BisectLeft | hp2p/kademlia.py:343-353 | the first position whose value is not below the key |
| RoutingTables.BinaryGetBucketForNode | hp2p/kademlia.py:343-353 | finds the bucket that covers an id, and fails exactly when none does |
| RoutingTables.ComputeSharedPrefixBits | hp2p/kademlia.py:356-371 | the result is the longest shared prefix; the failing assertion is reached exactly for two or more equal ids |
| Splitting.DepthUnique | hp2p/kademlia.py:356-371 | the shared prefix length of nodes is determined by them |
| RoutingTables.RoutingTable.constructor | hp2p/kademlia.py:230-233 | a new table is one empty bucket over all ids and satisfies the invariant |
| RoutingTables.RoutingTable.BucketIndex | hp2p/kademlia.py:295-296 | the covering bucket is unique and found for every id of the space |
| RoutingTables.RoutingTable.SplitBucketAt | hp2p/kademlia.py:258-262 | one bucket is replaced by its halves, the others stay in place |
| Splitting.SplitAtWf | hp2p/kademlia.py:258-262 | splitting keeps the partition of the id space and the bucket invariants |
| RoutingTables.RoutingTable.RemoveNode | hp2p/kademlia.py:273-274 | the members lose exactly that node; a foreign id is an error and changes nothing |
| RoutingTables.RoutingTable.TryAdd | hp2p/kademlia.py:276-293 | one level of the recursion: it ends with the node added or refused as it should be, or splits and makes the covering bucket smaller |
| RoutingTables.RoutingTable.AddNode | hp2p/kademlia.py:276-293 | keeps the invariant; refuses exactly under the condition Refuses on the old table, and then the final bucket of the node does not cover our own id and has the node last in its cache; otherwise the node is stored and no other membership changes; our own id is rejected |
| Splitting.RefusalAfterSplit | hp2p/kademlia.py:276-293 | splitting a full bucket does not change whether the node will be refused |
| Splitting.RefusalWithoutSplit | hp2p/kademlia.py:283-291 | a full bucket that is not split is one that refuses |
| Refusal.OwnBucketRefuses | hp2p/kademlia.py:283-291 | a table whose one bucket covers our own id at the start and which refuses a node: splitting parts the two |
| RoutingTables.AddedMembers | hp2p/kademlia.py:276-293 | adding stores the node or changes no membership, after at most 252 splits |
| Neighbours.VisitOrder | hp2p/kademlia.py:298-323 | visiting buckets by midpoint distance and each by distance visits all nodes by distance |
| Neighbours.NeighboursAreNearest | hp2p/kademlia.py:312-323 | the slice holds the nearest nodes, as many as k asks for or all there are; with a negative k all but the farthest -k; everything left out is farther |
| RoutingTables.RoutingTable.NearestTo | hp2p/kademlia.py:312-323 | for k of 0 or more, the k nearest members, or all if there are fewer; for a negative k all but the -k farthest; sorted by distance, although the search stops early |
| TaskStates.ReadyIffChainComplete | helios/utils/datastructures.py:425-428 | between calls a task is ready exactly if its whole dependency chain is complete, pruned tasks included |
| TaskStates.ReadinessIsDetermined | helios/utils/datastructures.py:535-552 | one record of completed prerequisites allows one set of unready tasks |
| TaskStates.EmittedIffChainComplete | helios/utils/datastructures.py:554-591 | a registered task has been emitted exactly if its chain is complete |
| TaskPreparation.CompleteAllMarks | helios/utils/datastructures.py:535-552 | a finish call adds its prerequisite to its tasks and changes nothing else in the record |
| TaskPreparation.FinishOrderIrrelevant | helios/utils/datastructures.py:535-567 | runs of finish calls that complete the same prerequisites, in whatever order and grouping, give the same record, the same unready tasks and the same emitted tasks |
| TaskStates.MarkOneMid | helios/utils/datastructures.py:570-591 | one step of the cascade keeps the whole invariant, with the tasks it releases pending |
| TaskStates.MarkOneFacts | helios/utils/datastructures.py:570-591 | the step finds every dependent still stored, so no key is missing, and releases no task twice |
| TaskStates.PrunedKeeps | helios/utils/datastructures.py:593-615 | a task stays exactly if it is at most the maximal depth shallower than the one just made ready; the oldest depth follows, and no task that stays is changed |
| TaskStates.PrunedTrimmed | helios/utils/datastructures.py:593-615 | after each step no live task that was made ready is more than the maximal depth below the oldest depth: old tasks are really forgotten |
| TaskPreparation.OrderedTaskPreparation.constructor | helios/utils/datastructures.py:439-476 | nothing is entered; the maximal depth is the one given, but at most 10000 |
| TaskPreparation.OrderedTaskPreparation.Prune | helios/utils/datastructures.py:593-615 | the loop over depths removes exactly the tasks more than the maximal depth shallower than the ready one, from all three maps |
| TaskPreparation.OrderedTaskPreparation.MarkOneTaskComplete | helios/utils/datastructures.py:570-591 | emits the task, prunes below it, and returns the complete dependents, each one level deeper |
| TaskPreparation.OrderedTaskPreparation.MarkLevel | helios/utils/datastructures.py:563-567 | one level of the cascade leaves exactly the next level pending |
| TaskPreparation.OrderedTaskPreparation.MarkComplete | helios/utils/datastructures.py:561-567 | the cascade ends, with nothing pending and only additions to what was emitted |
| TaskPreparation.OrderedTaskPreparation.SetFinishedDependency | helios/utils/datastructures.py:478-497 | enters a finished task, complete and at the largest depth in use or 0, or rejects a known id and changes nothing |
| TaskPreparation.OrderedTaskPreparation.RegisterTasks | helios/utils/datastructures.py:499-533 | rejects duplicates without change; enters tasks up to the first missing dependency, each waiting for all prerequisites one level below its dependency and listed under it |
| TaskPreparation.OrderedTaskPreparation.FinishPrereq | helios/utils/datastructures.py:535-552 | keeps the invariant; stops exactly at a task that is unknown, ready, or has the prerequisite already; each task before it lacked the prerequisite and has it now; only adds to what was emitted |
| TaskPreparation.OrderedTaskPreparation.ReadyTasks | helios/utils/datastructures.py:554-559 | hands out, in order, what was emitted and not handed out before |
| JobPlaces.OnePlace | helios/utils/datastructures.py:123-134 | an uncompleted task is in the open queue or in exactly one batch, and nothing else is anywhere |
| TaskQueues.TaskQueue.constructor | helios/utils/datastructures.py:136-148 | an empty queue satisfies the invariant |
| TaskQueues.TaskQueue.PutAll | helios/utils/datastructures.py:188-201 | putting the tasks that fit never overflows the open queue |
| TaskQueues.TaskQueue.InsertSlots | helios/utils/datastructures.py:185-206 | one round inserts the next tasks into the free slots and releases the lock exactly if there is room |
| TaskQueues.SuffixLessUrgent | helios/utils/datastructures.py:165-185 | what add has inserted is at least as urgent as what it still has to insert |
| TaskQueues.TaskQueue.Add | helios/utils/datastructures.py:150-206 | rejects known tasks without change; otherwise inserts until done or maxsize tasks are pending, nothing inserted less urgent than what is left waiting |
| TaskQueues.TaskQueue.Resume | helios/utils/datastructures.py:177-206 | a woken add takes the lock and continues; at most maxsize tasks are pending, and nobody sleeps while there is room |
| TaskQueues.BatchSize | helios/utils/queues.py:45-53 | a limit is never exceeded, and is reached if there are enough tasks; without a limit all are taken |
| TaskQueues.TaskQueue.QueueGetNowait | helios/utils/queues.py:45-53 | the batch is sorted by priority, has the right size, and no task left is more urgent |
| TaskQueues.TaskQueue.GetNowait | helios/utils/datastructures.py:208-228 | checks out such a batch under a new id; an empty queue is an error |
| TaskQueues.TaskQueue.Get | helios/utils/datastructures.py:230-244 | the same, for the first task and the rest taken separately; a limit below one is an error |
| TaskQueues.TaskQueue.Reopen | helios/utils/datastructures.py:259-263 | abandoned tasks return to the open queue, and there is always room for them |
| TaskQueues.TaskQueue.Complete | helios/utils/datastructures.py:246-268 | ends a batch and returns its incomplete tasks; refused exactly for an unknown batch or a task outside it, without change |
| Blocks.DescendantsExcept | hvm/db/chain.py:1599-1618 | the search with exclusions ends, finds only descendants, and is closed up to the excluded blocks |
| Blocks.AllDescendants | hvm/db/chain.py:1594-1618 | returns exactly the blocks reached over child links, on cyclic links too: the least set that holds the children of the block and of its own members; none exactly without children |
| Blocks.LeastBelow | hvm/db/chain.py:1594-1618 | the blocks reached over child links are the least set closed under them |
| CanonicalChains.CutTo | hvm/db/chain.py:787-795 | truncating a chain to one of its blocks keeps all chains contiguous with the right heads |
| CanonicalChains.CutAll | hvm/db/chain.py:644-668 | deleting a chain keeps the others contiguous |
| CanonicalChains.HeadsDetermined | hvm/db/chain.py:748-766 | the canonical slots determine every chain's head |
| CanonicalChains.CanonicalIff | hvm/db/chain.py:748-766 | in contiguous chains a block is canonical exactly if some slot holds it |
| CanonicalChains.HeadBelowRemoved | hvm/chains/base.py:1467-1476 | a cut chain's head is the parent of its lowest removed block, or the chain is gone |
| CanonicalChains.ExtendFills | hvm/db/chain.py:822-852 | a block and its new ancestors fill every slot up to it |
| CanonicalChains.ExtendPlaces | hvm/db/chain.py:822-852 | the block becomes canonical; a slot that changes is in its chain, not above it, and gets a block whose parent is canonical too; all other slots stay |
| CanonicalChains.SetHeadFills | hvm/db/chain.py:771-820 | whatever block is made head, canonical or not, it is the head afterwards, every chain has exactly the slots up to its head, and no other chain changes; a block above the old head becomes canonical, below it the slots up to its number stay |
| CanonicalChains.CutBelowFills | hvm/chains/base.py:1546-1550 | after cutting below any block its slot is empty and its parent is the head |
| CanonicalChains.CutBelowCanonical | hvm/chains/base.py:1527-1531 | below a canonical parent the cut removes just the slots from the block on and all chains stay contiguous |
| Purging.Chain.DeleteCanonicalChain | hvm/chains/base.py:1460-1464 | removes all slots of one chain and its head, and nothing else |
| Purging.Chain.SetAsCanonicalChainHead | hvm/db/chain.py:771-820 | truncates the chain to a block, or extends it with the block and its new ancestors; an unknown block is an error |
| Purging.Chain.FindNewAncestors | hvm/db/chain.py:822-852 | walks down to the first canonical ancestor, and what it finds is what the extension adds |
| Purging.Chain.SetParentAsCanonicalHead | hvm/chains/base.py:1467-1476 | the parent, canonical or not, becomes the head in both databases |
| Purging.Chain.CutDescendants | hvm/chains/base.py:1538-1550 | the first loop meets the set of descendants in some order, and does what CutInOrder says for that order |
| Purging.Chain.RemoveFromParents | hvm/db/chain.py:1531-1561 | the block is unlinked from its chain parent and its senders, and from nothing else |
| Purging.Chain.RevertBlock | hvm/chains/base.py:1478-1495 | the block's slot goes if it is canonical, its child list goes, and it is unlinked |
| Purging.Chain.RevertDescendants | hvm/chains/base.py:1556-1561 | in any order, the second loop reverts the processed descendants and forgets the unprocessed ones |
| PurgeStates.PurgedSlots | hvm/chains/base.py:1522-1564 | if the first loop removed the descendants of the other chains, both loops together remove the block and its descendants and no other block |
| PurgeStates.PurgedContiguous | hvm/chains/base.py:1522-1564 | afterwards the chains are contiguous if and only if the block's parent is not one of its descendants, or it is a chain's first block |
| PurgeStates.AcyclicParentStays | hvm/chains/base.py:1522-1532 | that condition holds whenever no cycle of links leads through the block |
| PurgeStates.FirstLoopExact | hvm/chains/base.py:1538-1550 | in every order, harmless targets make the first loop remove exactly the descendants of the other chains |
| PurgeStates.HarmlessPurge | hvm/chains/base.py:1522-1564 | so with harmless targets every order removes just the block and its descendants |
| PurgeStates.HarmfulLast | hvm/chains/base.py:1538-1550 | a stale target whose place another block has, or whose parent is not canonical, met last: that block is lost or the head left wrong |
| PurgeStates.PurgeRightIff | hvm/chains/base.py:1522-1564 | the purge is right in every order of the descendants if and only if all targets are harmless and the parent of the block is no descendant |
| PurgeStates.LiveHarmless | hvm/chains/base.py:1538-1550 | live child links make all targets harmless |
| PurgeStates.PurgedSupported | hvm/chains/base.py:1522-1564 | what stays canonical depends only on what stays canonical |
| PurgeStates.PurgedLive | hvm/chains/base.py:1478-1495 | from live links, every remaining child link leads to a live block if and only if each link to a purged block came from a reverted one or was a chain or transaction link of a reverted one |
| PurgeStates.StaleLinkExample | hvm/chains/base.py:1572-1599 | a state in which a purge leaves a link to an unprocessed block it has forgotten |
| PurgeStates.StaleLinkDamage | hvm/chains/base.py:1538-1550 | an instance of HarmfulLast: the purge, in its only order, deletes a block that does not descend from the purged one |
| Purging.Chain.Purge | hvm/chains/base.py:1522-1569 | on any child links: a non-canonical block changes nothing; otherwise the chains are those of PurgedChains; with harmless targets just the block and its descendants go, each cut chain ends at the parent of its lowest removed block, and the invariant is kept if and only if the block's parent stays |
| BlockImport.Node.AddToParents | hvm/db/chain.py:901-940 | a saved block becomes a child of exactly what it depends on |
| BlockImport.ReadyIff | hvm/chains/base.py:2037-2057 | a block can be imported exactly if its chain parent, every block it receives from and every block its reward proofs name are processed |
| BlockImport.Node.SaveAsUnprocessed | hvm/db/chain.py:984-994 | flags exactly the missing dependencies and keeps the invariant |
| BlockImport.Node.RemoveFromUnprocessed | hvm/db/chain.py:996-1009 | drops the flag of a parent exactly if none of its children is still unprocessed; only flags of the senders and the chain parent can go |
| BlockImport.Node.ImportBlock | hvm/chains/base.py:1954-2057 | the block is imported exactly if its chain parent, all blocks it receives from and all its reward proofs are processed; otherwise it is kept as unprocessed |
| BlockImport.Node.RetryAll | hvm/chains/base.py:2074-2105 | the deque loop ends, by the unprocessed blocks and then its length, with nothing importable left |
| BlockImport.Node.ImportDescendants | hvm/chains/base.py:2062-2108 | after it no unprocessed block has all its dependencies processed, and no block is lost |
| BlockImport.Node.Receive | hvm/chains/base.py:1773-1903 | with replacement not allowed: refused exactly if it is processed or another block has its chain and number, rejected without its parent, kept exactly if a parent, sender or reward proof is not processed, imported otherwise; after every call nothing importable waits |
| BlockImport.ImportedIff | hvm/chains/base.py:2037-2108 | between calls an accepted block is imported exactly if its chain parent, senders and reward proofs are |
| BlockImport.OrderIndependent | hvm/chains/base.py:2062-2108 | two runs that accepted the same blocks have imported the same blocks |
| BlockImport.ImportedRuns | hvm/chains/base.py:1773-1846 | the imported blocks of a chain are a run from number 0, each on its parent, and no two have the same chain and number |
| Ancestry.LastBeforeSplits | hvm/chains/base.py:1402-1419 | the blocks older than a time are those under the last block before it |
| Ancestry.LastBeforeTwice | hvm/chains/base.py:1392-1419 | walking back in two steps gives the same head |
| Rebuilding.ChainHeads.WalkChain | hvm/chains/base.py:1402-1419 | files the blocks of one chain not older than the window and makes its last older block the head |
| Rebuilding.ChainHeads.Round | hvm/chains/base.py:1396-1419 | one round sets every head to its chain's last block before the window and refills that window |
| Rebuilding.RootsAfterOne | hvm/db/chain_head.py:549-561 | saving roots newest first keeps the newest thousand and the last one |
| Rebuilding.InsertRootMeans | hvm/db/chain_head.py:549-561 | a saved root gets its place among the times, or replaces the root of its time; the others stay |
| Rebuilding.LatestRootMeans | hvm/db/chain_head.py:617-640 | a lookup gives the last root not newer than the time, and none exactly if all are newer |
| Rebuilding.RebuiltRoot | hvm/db/chain_head.py:617-680 | looking up a rebuilt root gives the heads of that time |
| Rebuilding.GridCovered | hvm/chains/base.py:1390-1393 | the rounds reach every multiple of 1000 between the two ends and not before genesis |
| Rebuilding.ChainHeads.Rebuild | hvm/chains/base.py:1353-1428 | for every multiple of 1000 from the current window down to the earliest, not before genesis, the window holds exactly the blocks of its thousand seconds, each once, and the saved root maps each chain to its last older block |
| DiffWalking.WalkDown | hvm/chains/base.py:1290-1305 | the walk collects the head and what lies below it down to the start of the window |
| DiffWalking.NewInRoot | hvm/chains/base.py:1265-1310 | the blocks under the heads that are new, oldest first and by hash at equal times, or the source's result for equal or missing roots |
| DiffWalking.LoadedInOrder | hvm/db/chain_head.py:826-837 | a loaded window has the stored entries, oldest first and by hash at equal times |
| DiffWalking.WalkIsWindow | hvm/chains/base.py:1265-1310 | between the heads of two neighbouring times the walk gives exactly the stored window, oldest block first, and nothing exactly if the window is empty |
| DiffWalking.RebuiltWindow | hvm/chains/base.py:1265-1428 | so it does, oldest block first, for every pair of rebuilt roots that can be looked up |
| Votes.RecomputedChange | hp2p/consensus.py:963-1083 | what one message changes in the stake recomputed over all peers |
| Votes.DifferenceCount | hp2p/consensus.py:485-493 | the difference keeps every occurrence of what is missing on the other side |
| Votes.LatestMeans | hp2p/consensus.py:963-1083 | the message kept for a peer is the one no later message of it follows |
| Votes.RecomputedIsStake | hp2p/consensus.py:496-525 | while no peer changes its stake or repeats a choice, a recomputed total is the sum of the stakes of the peers whose last message has the choice |
| Votes.SteadyIff | hp2p/consensus.py:970-991 | updating by differences is right for a choice exactly if it is steady |
| Votes.SteadyRoots | hp2p/consensus.py:1031-1066 | for root hashes: exactly if the stake is the same or the new message is empty |
| Votes.SteadyBlocks | hp2p/consensus.py:973-991 | for block choices: exactly if the stake is the same or no choice is repeated |
| Votes.VoteStatistics.Delta | hp2p/consensus.py:496-525 | one total changes by the difference, all others stay |
| Votes.VoteStatistics.ReceiveRoots | hp2p/consensus.py:1021-1083 | exact totals stay exact if and only if every choice of the message is steady |
| Votes.VoteStatistics.ReceiveBlockChoices | hp2p/consensus.py:963-1003 | the same, with additions at the new stake |
| Votes.VoteStatistics.Run | hp2p/consensus.py:963-1083 | after any sequence of messages in which no peer changes its stake, each total is the sum of the stakes of the peers whose last message has the choice |
| Votes.ExactNonNegative | hp2p/consensus.py:496-525 | such totals are never negative while no stake is |
| Votes.ForgottenExact | hp2p/consensus.py:1353-1368 | forgetting a disconnected peer keeps the totals exact if and only if its last message gave no stake |
| Votes.ForgottenAllExact | hp2p/consensus.py:1353-1368 | the same for several peers: silent peers are enough, and with non-negative stakes necessary |
| Votes.VoteStatistics.RemoveDisconnected | hp2p/consensus.py:1353-1368 | exactly the messages of the peers that are gone are forgotten, the totals stay as they are, and with non-negative stakes they stay exact if and only if all those messages gave no stake |
| Consensus.DetermineStakeWinner | hp2p/consensus.py:435-459 | the item with the most stake, ties to the greater item; fails exactly on no items |
| Consensus.DetermineStakeWinnerOfList | hp2p/consensus.py:460-483 | the same on a list |
| Consensus.WinnerUnique | hp2p/consensus.py:435-459 | the winner does not depend on the order of the dictionary |
| Consensus.WinnerOfTwo | hp2p/consensus.py:527-542 | the greater of two by stake, then by item |
| Consensus.BetterOfTwoWins | hp2p/consensus.py:1540-1552 | the peers' winner against our own hash gives the winner with our stake counted in |
| Consensus.OwnStakeBacks | hp2p/consensus.py:1540-1552 | the winner with our stake has the most, ours counted once for our own hash and for no other |
| Consensus.RootHashConsensus | hp2p/consensus.py:1507-1552 | the result has the greatest stake of the peers, plus ours once if it is our hash, ties to the greater hash; it fails exactly without statistics, or when our unknown stake would matter |
| SyncScan.SyncParameters | hp2p/consensus.py:1556-1709 | the scan finds the newest run of disagreeing windows and decides as Decides says |
| SyncScan.DecisionOf | hp2p/consensus.py:1588-1709 | an agreeing window newer than the limit below the run gives parameters without fast sync, no such window gives fast sync, no run none |
| SyncScan.SyncNamesRun | hp2p/consensus.py:1612-1639 | parameters without fast sync name the oldest window of that run, above an agreeing one, with only peers that report the consensus hash, at least one |
| SyncScan.SyncedOnlyIf | hp2p/consensus.py:1591-1709 | no parameters only if nothing is there, the newest window agrees, or statistics are missing |
| SyncScan.RunUnique | hp2p/consensus.py:1588-1657 | the snapshot determines the newest run of disagreement |
| Framing.StreamTwice | hp2p/peer.py:251-256 | the decryptor undoes the encryptor at the same position |
| Framing.StreamIsStreamed | hp2p/peer.py:251-256 | ciphertext XOR plain text is the key stream, byte by byte from the position |
| Framing.PartsAreSealed | hp2p/peer.py:521-539 | one key stream runs through header and frame; the MAC absorbs the masked header ciphertext, the frame ciphertext and a masked digest, each mask the encrypted beginning of the digest so far; each tag is the beginning of the digest |
| Framing.MacsDetermine | hp2p/peer.py:525-537 | what the MAC has absorbed determines the ciphertext |
| Framing.ChangedFrameRefused | hp2p/peer.py:558-576 | a frame changed on the way is refused, or two MAC inputs collide in the beginning of their digests |
| Framing.ChangedHeaderRefused | hp2p/peer.py:540-556 | the same for a header |
| Framing.FrameSizeOfHeader | hp2p/protocol.py:113-124 | the three size bytes of a header are read back; the rest is c28080 and zeros |
| Framing.RlpIntMeans | hp2p/protocol.py:112 | an id below 128 and not 0 is one byte, any other its length above 128 and its big-endian bytes |
| Framing.FirstByteIdIff | hp2p/utils.py:33-39 | a first byte gives an id exactly if it is the whole encoding of that id |
| Framing.DecodeBody | hp2p/protocol.py:104-113 | id and payload are read back exactly for ids below 128 |
| Framing.LawfulExists | hp2p/peer.py:248-258 | what is known of cipher and hash can be met |
| Framing.ReadBodyPart | hp2p/peer.py:558-576 | any beginning of a body and what follows it: the command once all of it is there, and waiting before |
| Framing.ReadWritten | hp2p/peer.py:436-583 | whatever follows, a frame is read as the command sent, and MAC and cipher position of both ends agree after it |
| Transport.SecretsCross | hp2p/auth.py:141-178 | both ends derive the same keys, and each egress MAC is the other's ingress MAC |
| Transport.SecretsMean | hp2p/auth.py:141-178 | the order in which keys are derived, and which nonce and message each MAC of each end starts with |
| Transport.FramesAreStreamed | hp2p/peer.py:525-530 | over any sequence of sent commands, tags aside, byte i on the wire XOR byte i of the headers and padded bodies is byte i of the one key stream: it never restarts |
| Transport.Peer.Encrypt | hp2p/peer.py:521-539 | the four parts of a frame and the state after it, as PartsAreSealed describes them; a header of another length is an error without effect |
| Transport.Peer.Send | hp2p/protocol.py:110-127 | a command is sent exactly if its id is below 128 and its body is shorter than 2^24 bytes; an error leaves the state as it was |
| Transport.Peer.DecryptHeader | hp2p/peer.py:540-556 | rejects exactly data of the wrong length, without any change, and a wrong MAC, without moving the cipher |
| Transport.Peer.DecryptBody | hp2p/peer.py:558-576 | the same for the body, which may be longer, cut to its size |
| Transport.Peer.ReadMsg | hp2p/peer.py:436-461 | reading what has arrived is the specification ReadFrame, errors included; a frame that arrives in parts is read on from where the reader waits |
| Transport.FramesSnoc | hp2p/peer.py:585-593 | sending one more command appends its frame to those on the wire |
| Transport.ReadInStep | hp2p/peer.py:436-461 | from any beginning of a wire in step, reading gives the oldest pending command once it has arrived and waits before, and stays in step |
| Transport.Connection.constructor | hp2p/peer.py:248-258 | after the handshake both directions are in step, the initiator with the secrets SecretsMean describes |
| Transport.Connection.SendToB | hp2p/peer.py:585-593 | sending keeps both directions in step |
| Transport.Connection.DeliverToB | hp2p/peer.py:367-372 | any part of the bytes in flight may arrive at any time |
| Transport.Connection.ReadAtB | hp2p/peer.py:436-461 | a read returns the oldest command sent and not yet read exactly when its bytes have arrived, under every interleaving of sends, deliveries and reads |
| Transport.Connection.SendToA | hp2p/peer.py:585-593 | the same in the other direction |
| Transport.Connection.DeliverToA | hp2p/peer.py:367-372 | the same in the other direction |
| Transport.Connection.ReadAtA | hp2p/peer.py:436-461 | the same in the other direction |

## Left out

- Execution of blocks, accounts, rewards and gas: the import of a block is a condition on its dependencies.
- The replacement of blocks that is the default of `import_block`, the journal, chronological consistency keys and the genesis block (hvm/chains/base.py:1753-1762, 1776-1886): `Receive` models the calls that do not allow replacement, where a taken place is an error.
- The genesis check by hash before a purge, and the update of windows, historical roots, transactions and account state during a purge (hvm/chains/base.py:1463-1520): the purge covers canonical slots, heads, child links and unprocessed blocks.
- Purging.Chain.Purge: where some target is harmful, the state is given as a function of the order, and only the order that meets it last is proved to go wrong; in other orders a later step may repair it.
- Rebuilding.ChainHeads.Rebuild: the defaults for its window arguments come from the clock and are parameters, as is the age limit for windows; windows newer than the first one are not cleared by the source, and nothing is stated about them.
- Votes: the two outer dictionaries of block choices are one map from chain and number; removal of old root hash timestamps is not modelled.
- SyncScan.SyncParameters: runs on a fixed snapshot of consensus results and peer reports; the clock gives two parameters.
- Framing: payloads are byte strings; their RLP structures and the lookup of a command by its id are not modelled. Command ids have up to 32 bits.
- TaskQueues.TaskQueue.Resume: any waiting add may be the one that was woken; the first-in-first-out order of the lock's waiters is not modelled.
- TaskQueues.TaskQueue.QueueGetNowait: among tasks of equal priority any may come first; the order of the heap is not modelled.
- Discovery, handshake messages, networking, persistence formats and the JSON-RPC interface.
