# Verified model of openmina's stateful cores

A Dafny model of six parts of openmina, with proofs of what they keep over every
operation and every run. `dafny verify dfyconfig.toml` checks all of it.

**Transaction mempool** (`Buckets`, `Commands`, `Senders`, `QueueSteps`, `PoolSize`,
`Gossip`, `GossipProperties`, `GossipPlan`, `Backtrack`, `Eviction`, `Revalidation`,
`Selection`, `IndexedPool`, `VkRefcountTable`). The pool is one queue of commands per
sender with the currency it reserves; four indexes and a counter sit beside it. `Valid`
of `IndexedPool` says that queues are non-empty, chained by nonce and reserve the exact
sum, and that every index is the function of the queues it should be. Gossip first plans
updates against a copy of one queue; `Decide` is the decision as a function,
`PlanAddition` the code, and `PlanSimulates` says the planned updates lead to the indexes
of the new queues. `AcceptedIff` says from the fields of a command when it is accepted.
Nonces and amounts are 32 and 64 bits wide, with wrap-around and
overflow checks as in the source. A fee rate is the exact fraction.

**Fork choice** (`ForkChoice`). The short and long range rules, the ring-shifted window
density with its closed form, and the order they induce on candidates: among short-range
forks a node ends at the longest chain it has seen.

**VRF threshold** (`Series`, `Slope`, `Threshold`, `VrfBase`, `VrfConstants`, `VrfMonotone`).
The searches for terms and precision, the fixed-point Taylor polynomial, and its distance from
the exact one at the true share of the stake, over `real`; then the same in numbers: the base,
the parameters that the searches find, the integer coefficients, and what follows for a stake.

**Poseidon input packing and sponge** (`Powers`, `Limbs`, `Packing`, `LegacyPacking`,
`Sponge`). Limbs shifted in place, greedy packing with its inverse, and the sponge over a
permutation that is a parameter.

**Propagation pool and request table** (`DistributedPool`, `Propagation`,
`PendingRequests`, `RequestRuns`). A list with a key index and paging cursors, and a slab
whose slots are reused, each with theorems over whole runs.

**Merkle ledger** (`AddressBytes`, `MerkleTree`, `HashesMatrix`, `TreeWalk`, `Database`,
`DatabaseRuns`). Addresses as bits and as stored bytes, the true hash of a tree, the hash
cache with path invalidation, and the database that keeps it: accounts set, created and
removed, root hashes and Merkle paths. Hashing is a parameter.

Code that updates state in place is modelled by classes and by methods with loops; each
is proved against a function, and the theorems are about those functions.

Where the code does not do what its comments or its names suggest:

- The comment on `transactions` promises descending fee order
  (ledger/src/transaction_pool.rs:1456). For every limit the listing is in that order
  exactly when each sender's part of it is (`Selection.DescendingPicksIff`); a listing of
  the whole pool, exactly when every queue is (`Selection.DescendingIff`).
  `Selection.NotAlwaysDescending` is a pool where it is not.
- A queued command cannot be replaced while the nonces of its queue, with the one after it, do
  not fit below 2^32 (`GossipProperties.AcceptedIff`).
- The list of dropped commands that a replacement returns misses the first command that
  could not be added again (`GossipProperties.DroppedListCompleteIff`,
  `GossipProperties.DroppedListCanMiss`).
- Decrementing the last count of one key of an account forgets the account's other keys,
  and the key's other accounts (`VkRefcountTables.DecrementExactIff`,
  `VkRefcountTables.DecrementKeyExactIff`); lookups still never fail.
- poseidon/src/hash.rs:167-168 says that the or is an addition. It is, for all contents of
  the limbs, exactly for items in range; a two-bit item of 4 or more can overlap
  (`Packing.JoinAddsIff`). Lines 172 and 180 say that the conversion never fails. An
  item can be followed by items in range such that it fails exactly when the item is out of
  range (`Packing.ConversionCanFailIff`; `Packing.PushedElement` is the input). Such an item
  also packs like another input of the same shape (`Packing.OutOfRangeCollides`).
- Preference between blocks can be circular (`ForkChoice.PreferenceCanCycle`).
  `ForkChoice.CircularIff` says for which three blocks, and
  `ForkChoice.OrderIrrelevantIff` says for which arrivals their order does
  not matter; it never does where all forks are short-range.
- The assertion at ledger/src/database/database_impl.rs:99 fails on the next creation once
  the account at the last location has been removed (`Databases.RemovalBlocksCreation`),
  and holds exactly while the last location is the highest leaf ever filled
  (`DatabaseRuns.CreationAllowedIff`, `Databases.RemoveCompactIff`).
- The left child of an address keeps what the buffer holds behind the address, so the left
  child of a parent can be the right one (`AddressBytes.ChildrenAre`,
  `AddressBytes.LeftOfParent`).
- Hashing a subtree goes down by these children. It is right for every ledger exactly if no
  bit is set behind the address, down to the leaves (`TreeWalks.RawHashRightIff`). An address
  made from bytes keeps such bits (ledger/src/address/raw.rs:150-161). A wrong hash is cached
  and then serves for the clean address too (`Databases.Database.GetInnerHashAtAddr`,
  `Databases.DirtyAddressSpoilsRoot`). Root hashes and paths start from an address of zeros.
- `prev` fails its own assertion exactly for a root whose first byte is not zero
  (`AddressBytes.PrevRaw`), such as the parent of the root's right child
  (`AddressBytes.ParentOfRightKeepsBit`).
- A page of limit zero asked for at index zero reports index zero as sent
  (`DistributedPools.NextCursorSkipsNothingIff`).

Assumptions stated as preconditions: hashes of pooled and incoming commands do not
collide; a sender has fewer than 2^32 queued commands; a command put back by a backtrack
that passes the checks before does not overflow the reserve, which the source unwraps
(ledger/src/transaction_pool.rs:813); a decrement of a key finds a positive count; the
request counter does not wrap; a tree that is hashed has at most the 36 levels for which empty
hashes are precomputed; the accounts to remove are distinct and present, which the source
unwraps. Time, ledgers and accounts seen by the pool are parameters.

## Model

| member | source | states |
|---|---|---|
| `Buckets.InsertGroups` | ledger/src/transaction_pool.rs:697-704 | inserting into a map of sets gives the grouping of the larger set |
| `Buckets.RemoveGroups` | ledger/src/transaction_pool.rs:707-720 | removing gives the grouping of the smaller set: an emptied bucket disappears |
| `Senders.QueuedConsumptionFits` | ledger/src/transaction_pool.rs:1536-1556 | what a queued command consumes fits 64 bits and is within its sender's reserve, so subtracting it cannot fail |
| `Commands.NonceAfterInjective` | ledger/src/scan_state/currency.rs:298-320 | counting a 32-bit nonce up, with wrap-around, repeats nothing within 2^32 steps |
| `Commands.NonceWraps` | ledger/src/scan_state/currency.rs:298-320 | a nonce counts modulo 2^32 |
| `Commands.ConsumedByKind` | ledger/src/transaction_pool.rs:1536-1556 | a payment takes its amount and its fee, a delegation or a zkApp command only the fee |
| `Commands.RateOrder` | ledger/src/scan_state/transaction_logic.rs:4451-4461 | fee rates compare as fees weighed by the other command's size: the fee payer and each account update of a zkApp command, one for a signed command |
| `Senders.ChainedDistinct` | ledger/src/transaction_pool.rs:603-619 | in a chained queue no nonce occurs twice |
| `Senders.AddIndexes` | ledger/src/transaction_pool.rs:828-844 | adding a new command to the four indexes and the counter gives the indexes of the pool with that command |
| `Senders.RemoveEachIndexes` | ledger/src/transaction_pool.rs:848-860 | removing distinct pooled commands gives the indexes of the pool without them |
| `Senders.SafeIfRemovesFirst` | ledger/src/transaction_pool.rs:949-966 | a plan that removes at most once, and first, never takes the size counter below zero |
| `PoolSizes.SizeIsTotalLength` | ledger/src/transaction_pool.rs:603-619 | the size of the indexes is the sum of the lengths of all queues |
| `QueueSteps.ContinuationIsNew` | ledger/src/transaction_pool.rs:981-1010 | a command that continues a queue at either end cannot be pooled already; this follows from the nonce chain alone |
| `QueueSteps.AppendSimulates` | ledger/src/transaction_pool.rs:828-844 | appending a command to a queue and `update_add` agree |
| `QueueSteps.PrependSimulates` | ledger/src/transaction_pool.rs:754-826 | putting a command in front of a queue: moving the queue head in the fee index and adding the command give the indexes of the new queues |
| `QueueSteps.CutSimulates` | ledger/src/transaction_pool.rs:889-947 | cutting a queue and the planned removals agree on all indexes, and exactly the cut-off commands leave |
| `Gossip.ReplacementIndex` | ledger/src/transaction_pool.rs:1105-1122 | a nonce in the replaceable range names exactly one queued command, so the search never fails |
| `Gossip.FitCountLongest` | ledger/src/transaction_pool.rs:1168-1205 | no longer prefix of the cut-off commands passes the checks than the one counted |
| `Gossip.ChargeIsTotalFee` | ledger/src/transaction_pool.rs:1169-1179 | charging fees one by one succeeds exactly when their sum is offered, and leaves the difference |
| `Gossip.ScreenedIff` | ledger/src/transaction_pool.rs:1022-1046 | a command passes the checks on itself exactly if transactions have not ended, it has not expired, it consumes a 64-bit amount and pays in the default token |
| `GossipProperties.AcceptedIff` | ledger/src/transaction_pool.rs:1012-1227 | exactly which commands are accepted, from their fields: without a queue the nonce is the account's and the balance suffices; with one the command comes next in it, or replaces a queued one of a queue that starts at the account's nonce and does not wrap around, and pays for all that leave |
| `GossipProperties.RejectionIsJustified` | ledger/src/transaction_pool.rs:1012-1227 | the numbers in an error are those of the check that failed, and they do fail it; a nonce error can name one nonce twice only if the queue wraps around 2^32 |
| `GossipProperties.GossipQueueOk` | ledger/src/transaction_pool.rs:1012-1227 | the queue after any accepted command is non-empty, chained, of one sender, its reserve is the exact sum, and that sum is within the balance |
| `GossipProperties.ReplacementKeepsLongestPrefix` | ledger/src/transaction_pool.rs:1105-1217 | a replacement gives kept prefix, new command, and the longest prefix of the rest that still passes the checks |
| `GossipProperties.ReplacementPays` | ledger/src/transaction_pool.rs:1129-1212 | the new fee covers the fees of all commands that left, also the one missing from the returned list, plus the replace fee |
| `GossipProperties.DepartedIsDifference` | ledger/src/transaction_pool.rs:1105-1217 | the commands paid for are exactly the old queue minus the new queue |
| `GossipProperties.GossipPays` | ledger/src/transaction_pool.rs:981-1010 | seen from the whole pool: the new fee covers the fees of all pooled commands that are pooled no longer, plus the replace fee, and nothing but the new command is added |
| `GossipProperties.ReplacementAcceptedIff` | ledger/src/transaction_pool.rs:1129-1212 | the two fee checks, the nested addition and the charging loop together accept exactly when the balance suffices and the fee covers everything that leaves |
| `GossipProperties.DroppedListCompleteIff` | ledger/src/transaction_pool.rs:1183-1217 | the returned list of dropped commands is complete exactly when the whole rest of the queue still passes the checks |
| `GossipProperties.DroppedListCanMiss` | ledger/src/transaction_pool.rs:1197-1201 | a well-formed two-command queue whose replacement drops a command that the returned list does not name |
| `GossipProperties.NotQueued` | ledger/src/transaction_pool.rs:1012-1227 | a command with the nonce of a queued one and another fee is not in the queue |
| `GossipProperties.PlanSimulates` | ledger/src/transaction_pool.rs:981-1010 | the updates planned against the private copy, applied in order, give exactly the indexes of the new queues, and the command was not pooled before |
| `GossipPlan.FirstNotBelow` | ledger/src/transaction_pool.rs:1115-1121 | the first queued command whose nonce is not below the given one |
| `GossipPlan.PlanRemoval` | ledger/src/transaction_pool.rs:889-947 | the command and all later ones are dropped, the reserve is what the rest consumes, and the planned updates are those of the cut; subtraction and search never fail |
| `GossipPlan.PlanAddition` | ledger/src/transaction_pool.rs:1012-1227 | returns the decision on the command: same error, same queue, same dropped list, same updates; the recursion ends because a nested call never replaces again |
| `GossipPlan.PlanReplacement` | ledger/src/transaction_pool.rs:1105-1217 | the replacing branch, with the search for the replaced command |
| `GossipPlan.PlanReplacementAt` | ledger/src/transaction_pool.rs:1124-1158 | fee check, removal of the tail, and the nested addition, whose dropped list is empty |
| `GossipPlan.FinishReplacement` | ledger/src/transaction_pool.rs:1160-1217 | re-adding, charging and the final fee check |
| `GossipPlan.ReaddTail` | ledger/src/transaction_pool.rs:1160-1205 | re-adds exactly the counted prefix, charges every later command including the failing one, and collects the list behind the failing one |
| `GossipPlan.CutThenDecide` | ledger/src/transaction_pool.rs:1138-1158 | after the cut the new command continues the queue, so the nested call does not enter the replacement branch |
| `Backtrack.RestoredQueueOk` | ledger/src/transaction_pool.rs:754-826 | a command put back in front gives a well-formed queue |
| `Backtrack.RestoreSimulates` | ledger/src/transaction_pool.rs:754-826 | the index updates of the backtrack path give the indexes of the new queues, and the command was not pooled before |
| `Backtrack.RestoredIff` | ledger/src/transaction_pool.rs:754-826 | a command is put back exactly if transactions have not ended, it has not expired, its amount fits and the queue goes on at the next nonce; an error carries the numbers of the check that failed |
| `Eviction.ExpiredRemovesExactly` | ledger/src/transaction_pool.rs:1241-1253 | a command left exactly when it or an earlier command of its queue had expired |
| `Eviction.BeforeSlotExact` | ledger/src/transaction_pool.rs:1229-1239 | the expiry index below a slot lists exactly the pooled commands that expired |
| `Eviction.CheapestOf` | ledger/src/transaction_pool.rs:1255-1267 | the least fee rate and the least hash among those; nothing exactly for an empty pool |
| `Eviction.EvictsStep` | ledger/src/transaction_pool.rs:1694-1708 | a round appended to a run of eviction gives a run again |
| `Eviction.SurvivorsAreDearer` | ledger/src/transaction_pool.rs:1694-1708 | no command that stays has a lower fee rate, or the same and a lower hash, than one that a round picked |
| `Revalidation.AffordableCountLongest` | ledger/src/transaction_pool.rs:1271-1293 | what is kept is the longest prefix the balance pays for |
| `Revalidation.DropUntilSufficientBalance` | ledger/src/transaction_pool.rs:1271-1293 | pops from the back until the reserve fits; popping never meets an empty queue and the reserve stays the exact sum |
| `Revalidation.ReleaseReserved` | ledger/src/transaction_pool.rs:1341-1345 | the reserve after the commands below the account nonce are gone is what the rest consumes |
| `Revalidation.SplitForAccount` | ledger/src/transaction_pool.rs:1329-1359 | the kept slice, its reserve and the dropped commands |
| `Revalidation.SurvivorMatchesAccount` | ledger/src/transaction_pool.rs:1295-1397 | a surviving queue starts at the account nonce, is within the liquid balance, and is the longest such slice |
| `Revalidation.SurvivesIff` | ledger/src/transaction_pool.rs:1311-1397 | a queue survives exactly if the account may send and count its nonce up, that nonce has reached the queue and belongs to a queued command, and the balance pays for that command |
| `Revalidation.DroppedFromExact` | ledger/src/transaction_pool.rs:1295-1397 | dropped and kept commands are disjoint and together the old queue, without repetition |
| `Revalidation.DroppedOrder` | ledger/src/transaction_pool.rs:1329-1359 | listed are first the commands dropped for their nonce in queue order, then those dropped for the balance, the last one first |
| `Revalidation.RevalidateSimulates` | ledger/src/transaction_pool.rs:1295-1397 | moving the queue head and removing the dropped commands gives the indexes of the new queues |
| `Selection.BestUnique` | ledger/src/transaction_pool.rs:1409-1416 | highest fee rate, then least hash, names one head only |
| `Selection.SelectionUnique` | ledger/src/transaction_pool.rs:1401-1515 | there is one possible selection, so listing and taking return the same commands |
| `Selection.SelectionConserves` | ledger/src/transaction_pool.rs:1401-1515 | nothing is picked twice, only pooled commands are picked, and picked and remaining commands are the pool |
| `Selection.SelectionLength` | ledger/src/transaction_pool.rs:1401-1515 | the length is the smaller of limit and pool size |
| `Selection.PicksArePrefix` | ledger/src/transaction_pool.rs:1401-1515 | each sender's picks are a prefix of its queue and the rest stays queued |
| `Selection.EarlierIsBetter` | ledger/src/transaction_pool.rs:1401-1515 | of two picks the earlier has the higher fee rate, or the same and the lower hash, unless the later had to wait for one of its own sender |
| `Selection.SelectionKeepsReserves` | ledger/src/transaction_pool.rs:1418-1449 | taking commands leaves the reserved amounts as they are |
| `Selection.DescendingPicksIff` | ledger/src/transaction_pool.rs:1456-1515 | for every limit: the listing is in descending fee order exactly when each sender's part of it is |
| `Selection.DescendingIff` | ledger/src/transaction_pool.rs:1456-1515 | so a listing of the whole pool is in descending fee order exactly when every queue is |
| `Selection.NotAlwaysDescending` | ledger/src/transaction_pool.rs:1456-1515 | a valid pool whose listing is not in descending fee order |
| `Selection.PickBest` | ledger/src/transaction_pool.rs:1409-1416 | maximum of the fee index and minimum of its bucket are the best head |
| `Selection.TakeBest` | ledger/src/transaction_pool.rs:1409-1449 | one pass: the best head is the front of its queue, so the branch for a malformed queue is dead, and the heads index follows |
| `IndexedPools.IndexedPool.constructor` | ledger/src/transaction_pool.rs:648-661 | an empty pool is valid |
| `IndexedPools.IndexedPool.UpdateAdd` | ledger/src/transaction_pool.rs:828-844 | all indexes and the counter after an addition |
| `IndexedPools.IndexedPool.UpdateRemoveAll` | ledger/src/transaction_pool.rs:848-860 | all indexes and the counter after the removals |
| `IndexedPools.IndexedPool.ApplyUpdates` | ledger/src/transaction_pool.rs:949-966 | the updates applied in order |
| `IndexedPools.IndexedPool.AddFromGossip` | ledger/src/transaction_pool.rs:981-1010 | the pool stays valid; an error leaves every field unchanged and is justified; success happens exactly for acceptable commands, gives the decided queue and nothing else, within the balance, and pays for everything that leaves the pool |
| `IndexedPools.IndexedPool.AddFromBacktrack` | ledger/src/transaction_pool.rs:754-826 | the pool stays valid; an error leaves every field unchanged; success, exactly for commands that may be restored, puts the command in front |
| `IndexedPools.IndexedPool.RemoveWithDependents` | ledger/src/transaction_pool.rs:870-887 | the command and its successors leave, no other queue changes, the counter drops by their number |
| `IndexedPools.IndexedPool.ExpiredByGlobalSlot` | ledger/src/transaction_pool.rs:1229-1239 | exactly the pooled commands that expired before the slot |
| `IndexedPools.IndexedPool.RemoveExpired` | ledger/src/transaction_pool.rs:1241-1253 | every queue ends before its first expired command and no expired command stays; the list names what left, once |
| `IndexedPools.IndexedPool.RemoveLowestFee` | ledger/src/transaction_pool.rs:1255-1267 | the cheapest command leaves with its dependents, one or more; an empty pool is left alone |
| `IndexedPools.IndexedPool.DropUntilBelowMaxSize` | ledger/src/transaction_pool.rs:1694-1707 | ends within the limit; each round starts above the limit and cuts at a cheapest command, and the list is what the rounds drop, in order |
| `IndexedPools.IndexedPool.RevalidateSender` | ledger/src/transaction_pool.rs:1311-1394 | one queue is brought in line with its account and the indexes follow |
| `IndexedPools.IndexedPool.RetainFromNonce` | ledger/src/transaction_pool.rs:1329-1393 | the case in which the account nonce has reached the queue |
| `IndexedPools.IndexedPool.SetRevalidated` | ledger/src/transaction_pool.rs:1361-1390 | the queue and its head in the fee index after the split |
| `IndexedPools.IndexedPool.Revalidate` | ledger/src/transaction_pool.rs:1295-1397 | succeeds exactly if every sender concerned has an account; then these are revalidated; senders outside the given set are as before in any case; the list names what left, once |
| `IndexedPools.IndexedPool.ListIncludableTransactions` | ledger/src/transaction_pool.rs:1401-1452 | the selection, on copies |
| `IndexedPools.IndexedPool.Transactions` | ledger/src/transaction_pool.rs:1457-1515 | the selection, taken out of the queues; the heads index agrees with the queues afterwards |
| `IndexedPools.PlanSafe` | ledger/src/transaction_pool.rs:949-966 | applying a gossip plan never takes the counter below zero |
| `IndexedPools.MemberIff` | ledger/src/transaction_pool.rs:671-673 | membership by hash is membership |
| `VkRefcountTables.RunCounts` | ledger/src/transaction_pool.rs:385-480 | in every run with matched decrements the key counts are the true totals and no other entry counts more than is outstanding |
| `VkRefcountTables.IncrementCounts` | ledger/src/transaction_pool.rs:409-418 | an increment counts one more for its pair and changes no other count |
| `VkRefcountTables.DecrementCounts` | ledger/src/transaction_pool.rs:439-470 | a decrement counts one less for its pair, and if that was the last forgets every pair with the same outer key |
| `VkRefcountTables.IncrementExactIff` | ledger/src/transaction_pool.rs:396-419 | after an increment the counts of an account, and of a key, are exact if and only if they were before |
| `VkRefcountTables.IncrementsAloneAreExact` | ledger/src/transaction_pool.rs:396-419 | without decrements every count is exact |
| `VkRefcountTables.StoredKeysWereGiven` | ledger/src/transaction_pool.rs:396-419 | what is stored under a hash is a key that was given |
| `VkRefcountTables.LookupNeverDangles` | ledger/src/transaction_pool.rs:385-394 | then every key listed for an account is in the table, so the lookup cannot fail |
| `VkRefcountTables.DecrementExactIff` | ledger/src/transaction_pool.rs:421-480 | a matched decrement keeps an account's counts exact if and only if it is not the last for its key or the account holds no other key |
| `VkRefcountTables.DecrementKeyExactIff` | ledger/src/transaction_pool.rs:421-480 | the same for the accounts listed for a key: exact if and only if it is not the last of its account or no other account holds the key |
| `VkRefcountTables.SiblingKeyForgotten` | ledger/src/transaction_pool.rs:438-470 | the two-key run in which a decrement erases the account's other key |
| `VkRefcountTables.SiblingAccountForgotten` | ledger/src/transaction_pool.rs:438-470 | the two-account run in which a decrement erases the key's other account |
| `VkRefcountTables.UnmatchedDecrementDangles` | ledger/src/transaction_pool.rs:385-480 | without the matching condition a lookup can fail |
| `VkRefcountTables.VkRefcountTable.FindVksByAccountId` | ledger/src/transaction_pool.rs:385-394 | finds a key for every hash listed for the account, and only keys that were given and that the account holds; all of those if its counts are exact |
| `VkRefcountTables.VkRefcountTable.Inc` | ledger/src/transaction_pool.rs:396-419 | the three maps after an increment |
| `VkRefcountTables.VkRefcountTable.Dec` | ledger/src/transaction_pool.rs:421-480 | the three maps after a decrement |
| `ForkChoice.Density` | core/src/consensus.rs:114-116 | the sum of the window, in 32 bits |
| `ForkChoice.RingShift` | core/src/consensus.rs:100-105 | the loop empties exactly the sub-windows that follow the block's own one on the ring and keeps the others |
| `ForkChoice.RelativeMinWindowDensity` | core/src/consensus.rs:77-112 | the closed form: the minimum of the density and the sum of the sub-windows that remain |
| `ForkChoice.DensityNonIncreasing` | core/src/consensus.rs:77-112 | the later the other block the lower the density, also across the end of the grace period |
| `ForkChoice.NextSlotDensityIff` | core/src/consensus.rs:77-116 | for any window, also one whose sum wraps around, and any slot: one slot later the density is not higher exactly when the slot is not after the block's own, or is in the grace period, or is beyond the ring, or the wrapped sum covers the sub-window that drops out or has reached the minimum density |
| `ForkChoice.WrappedDensityCanGrow` | core/src/consensus.rs:114-116 | a window whose sum wraps around and whose density grows with the slot |
| `ForkChoice.ConsensusTake` | core/src/consensus.rs:190-201 | whether the candidate is preferred, by the short or the long range rule |
| `ForkChoice.ShortRangeTakesIff` | core/src/consensus.rs:126-152 | in a short-range fork the candidate is taken exactly if its chain is longer, or as long with the greater VRF output, or equal in both with the greater hash |
| `ForkChoice.LongRangeTakesIff` | core/src/consensus.rs:154-188 | in a long-range fork exactly if it is denser, or as dense and would be taken in a short-range fork |
| `ForkChoice.NeighbouringEpochsIff` | core/src/consensus.rs:43-72 | blocks of neighbouring epochs make a short-range fork exactly if the earlier is in the last third of its epoch, rounded down, and the later stakes on the ledger it locked |
| `ForkChoice.DistantEpochs` | core/src/consensus.rs:43-72 | blocks of epochs further apart never make one |
| `ForkChoice.SubWindowIs` | core/src/consensus.rs:118-120 | seven slots make a sub-window, eleven sub-windows a round |
| `ForkChoice.GracePeriod` | core/src/consensus.rs:80-84 | below slot 1440 the density is the minimum density |
| `ForkChoice.TakeIsAntisymmetricAndTotal` | core/src/consensus.rs:126-201 | of two different blocks exactly one is preferred to the other, whichever rule applies |
| `ForkChoice.CircularIff` | core/src/consensus.rs:126-201 | three blocks are preferred in a circle exactly when density overturns the tie break for the outer pair and neither inner pair, or for both inner pairs and not the outer one |
| `ForkChoice.SameEpochLedgerIsShortRange` | core/src/consensus.rs:62-67 | in one epoch a fork is short-range exactly when the staking lock checkpoints agree |
| `ForkChoice.TakeIsTransitive` | core/src/consensus.rs:126-152 | transitive among blocks any two of which make a short-range fork, within one epoch or across two |
| `ForkChoice.FollowReachesWinner` | core/src/consensus.rs:190-201 | a node that sees a block preferred to each other one ends up with it, in whatever order the blocks arrive |
| `ForkChoice.OrderMattersWithoutWinner` | core/src/consensus.rs:190-201 | without such a block some permutation of the same arrivals ends elsewhere |
| `ForkChoice.OrderIrrelevantIff` | core/src/consensus.rs:190-201 | every permutation of the arrivals has the same outcome if and only if one block is preferred to each other one |
| `ForkChoice.FollowEndsAtBest` | core/src/consensus.rs:190-201 | where all forks are short-range a node ends at a block to which none it saw is preferred |
| `ForkChoice.FollowEndsAtLongest` | core/src/consensus.rs:126-201 | there the outcome is the longest chain seen, of those the one with the greatest VRF output, of those the one with the greatest hash |
| `ForkChoice.OrderDoesNotMatter` | core/src/consensus.rs:190-201 | so there the outcome is independent of the order |
| `ForkChoice.PreferenceCanCycle` | core/src/consensus.rs:154-201 | three blocks of one epoch on two staking ledgers that are preferred in a circle |
| `Series.GrowthUnbounded` | vrf/src/threshold.rs:92-108 | n! / b^(n+1) exceeds every bound, for every positive b |
| `Thresholds.ComputeFactorial` | vrf/src/threshold.rs:110-122 | the descending product is the factorial |
| `Thresholds.Log` | vrf/src/threshold.rs:124-142 | the partial sum of the alternating logarithm series |
| `Thresholds.TermsNeeded` | vrf/src/threshold.rs:92-108 | ends for every positive base, with the least number of terms that is enough |
| `Thresholds.CeilLog2` | vrf/src/threshold.rs:144-155 | ends, with the least power of two that is at least n |
| `Thresholds.GreatestFor` | vrf/src/threshold.rs:160-172 | what k bits ask for, and whether it fits 255 bits |
| `Thresholds.BitParams` | vrf/src/threshold.rs:157-181 | ends, with the last of the initial run of feasible k, or with zeros if not even 0 is feasible |
| `Thresholds.AbsLogBaseBounds` | vrf/src/threshold.rs:23-27 | the base in use lies strictly between 1 and 1.49 |
| `Thresholds.FeasibleAtZero` | vrf/src/threshold.rs:157-181 | for such a base the search never falls back to zeros |
| `Thresholds.ChosenParams` | vrf/src/threshold.rs:157-181 | n <= 2^(precision - k), (n + 1) * precision < 255 and at least three terms |
| `Thresholds.NextCoefficient` | vrf/src/threshold.rs:36-52 | the fixed-point coefficient with its sign; the linear one leaves its integer part behind |
| `Thresholds.Evaluate` | vrf/src/threshold.rs:36-76 | the fold over the coefficients plus the linear integer part |
| `Thresholds.NewThreshold` | vrf/src/threshold.rs:19-83 | the evaluated polynomial at the rounded share, for the chosen parameters |
| `Thresholds.InputIs` | vrf/src/threshold.rs:56-63 | for a stake within the total the input is in the unit interval and less than one unit below the true share |
| `Thresholds.FixedError` | vrf/src/threshold.rs:36-76 | m coefficients in fixed point are off by at most m units of the precision |
| `Thresholds.OmittedTerm` | vrf/src/threshold.rs:92-108 | n times the first term left out is below 2^-k |
| `Thresholds.ThresholdIsAccurate` | vrf/src/threshold.rs:19-83 | rounding and truncation together: the threshold is within 2^-k of every Taylor polynomial of 1 - exp(-b x) with at least as many terms |
| `Slopes.SlopeAtMost` | vrf/src/threshold.rs:55-76 | between two shares every Taylor polynomial differs by at most b times their distance |
| `Thresholds.ThresholdAtShare` | vrf/src/threshold.rs:19-83 | at the true, unrounded share of the stake: within 2^-k + b 2^-precision of every such polynomial, which is below 1.5 times 2^-k |
| `Thresholds.NoStakeNoSlot` | vrf/src/threshold.rs:87-90 | without stake only the output zero meets the threshold |
| `VrfBase.BaseBounds` | vrf/src/threshold.rs:23-27 | the base to ten digits |
| `VrfBase.BaseIsLogarithm` | vrf/src/threshold.rs:23-27 | any longer sum of the series of the logarithm of 1/4 is above the base by less than 2^-46 |
| `VrfConstants.ParametersAre` | vrf/src/threshold.rs:157-181 | for the base in use the search answers 20 bits for each of 11 terms, and no other parameters |
| `VrfConstants.ThresholdIsCurve` | vrf/src/threshold.rs:29-83 | so the threshold is one polynomial with ten integer coefficients, of the share rounded down to 20 bits, for every stake |
| `VrfConstants.FullStake` | vrf/src/threshold.rs:19-83 | who holds all stake has the threshold 3/4 less 2^-20 |
| `VrfConstants.FullStakeWins` | vrf/src/threshold.rs:87-90 | and wins with exactly the outputs up to 786431 times 2^233 |
| `VrfMonotone.CurveIncreases` | vrf/src/threshold.rs:66-76 | between two shares the polynomial rises by at least a tenth of their distance |
| `VrfMonotone.ThresholdIncreases` | vrf/src/threshold.rs:19-83 | more stake never lowers the threshold, and leaves it as it is exactly if the rounded shares are the same |
| `VrfMonotone.ThresholdPositiveIff` | vrf/src/threshold.rs:19-83 | the threshold is positive exactly from one part in 2^20 of the currency on, and zero below |
| `Limbs.ShlBitsValue` | poseidon/src/hash.rs:89-98 | the limbs shifted by fewer than 64 bits together with what leaves the top are the value times 2^n |
| `Limbs.ShlWordInPlace` | poseidon/src/hash.rs:82-88 | one limb up, in place |
| `Limbs.ShlBitsInPlace` | poseidon/src/hash.rs:89-98 | fewer than 64 bits up, in place, with the carry |
| `Limbs.Shl` | poseidon/src/hash.rs:77-99 | the value times 2^n modulo 2^256, for every n |
| `Limbs.OrAdds` | poseidon/src/hash.rs:94-98 | bitwise or on disjoint bits is addition |
| `Limbs.OrIsSumLessCommon` | poseidon/src/hash.rs:94-98 | bitwise or is the sum less the common bits |
| `Packing.InRangeIff` | poseidon/src/hash.rs:29-53 | an item fits its width, except a two-bit item of 4 or more |
| `Packing.ItemDetermined` | poseidon/src/hash.rs:29-53 | width and value determine an item |
| `Packing.WidthIsUsed` | poseidon/src/hash.rs:29-53 | every value of the width is the value of an item of the kind, so no width is larger than it need be |
| `Packing.OneElementIff` | poseidon/src/hash.rs:157-184 | items share one element exactly if together they have at most 254 bits |
| `Packing.BitsAddUp` | poseidon/src/hash.rs:137-147 | the flags of a byte are its binary digits, the lowest first |
| `Packing.PackedIsAppended` | poseidon/src/hash.rs:157-184 | for items in range the bitwise packing is the arithmetic one and every element is below 2^254 |
| `Packing.BelowFieldOrder` | poseidon/src/hash.rs:171-181 | 2^254 is below the field order, so the conversion cannot fail |
| `Packing.UnpackedIs` | poseidon/src/hash.rs:157-184 | unpacking by the widths inverts the packing from any state of the loop |
| `Packing.RoundTrip` | poseidon/src/hash.rs:157-184 | unpacking by the widths gives the values of all items back |
| `Packing.PackingIsInjective` | poseidon/src/hash.rs:157-184 | inputs of one shape with the same elements are equal |
| `Packing.OutOfRangeCollides` | poseidon/src/hash.rs:113-115 | every out-of-range two-bit item has another input of the same shape with the same packing |
| `Packing.JoinedLessOverlap` | poseidon/src/hash.rs:164-169 | for any item of one limb: joining is shifting and adding, less the bits the two have in common |
| `Packing.JoinAddsIff` | poseidon/src/hash.rs:164-169 | the comment that the or is an addition holds for all contents of the limbs exactly when the item is in range |
| `Packing.PushedElement` | poseidon/src/hash.rs:171-181 | the input with an out-of-range two-bit item whose element is not below the field order |
| `Packing.ConversionCanFailIff` | poseidon/src/hash.rs:171-181 | some items in range behind an item make a conversion fail exactly when that item is out of range |
| `Packing.Inputs.Append` | poseidon/src/hash.rs:109-131 | an item is pushed at the end |
| `Packing.Inputs.AppendField` | poseidon/src/hash.rs:133-135 | a field element is pushed at the end |
| `Packing.Inputs.AppendBytes` | poseidon/src/hash.rs:137-147 | eight flags a byte, the lowest bit first |
| `Packing.Inputs.ToFields` | poseidon/src/hash.rs:157-184 | the loop over limbs pushes exactly the packed elements after the field elements, for any items |
| `LegacyPacking.ChunkToField` | poseidon/src/hash.rs:507-515 | writing bits into limbs gives the value of the chunk |
| `LegacyPacking.LegacyToFields` | poseidon/src/hash.rs:503-517 | one element for each 254 bits |
| `LegacyPacking.ChunksFit` | poseidon/src/hash.rs:503-517 | every element is below 2^254 |
| `LegacyPacking.ChunksAre` | poseidon/src/hash.rs:503-517 | as many elements as groups of 254 bits, each the value of its group |
| `LegacyPacking.LegacyPackingIsInjective` | poseidon/src/hash.rs:503-517 | bit strings of one length with the same elements are equal |
| `Sponges.AbsorbStreams` | poseidon/src/lib.rs:172-207 | absorbing in pieces is absorbing at once |
| `Sponges.CallsCompose` | poseidon/src/lib.rs:172-207 | the same for two calls on inputs that are not empty |
| `Sponges.EmptyIsZero` | poseidon/src/lib.rs:172-188 | absorbing nothing is absorbing a zero |
| `Sponges.CapacityUntouched` | poseidon/src/lib.rs:172-207 | while no permutation runs the third element keeps its value |
| `Sponges.CapacityFromPermutation` | poseidon/src/lib.rs:172-207 | a step that changes the third element leaves it as the permutation made it |
| `Sponges.HashIsBlockFold` | poseidon/src/lib.rs:172-228 | absorbing and squeezing is the fold over zero-padded blocks of two |
| `Sponges.HashWithKimchiIs` | poseidon/src/hash.rs:217-232 | the hash from a saved state is that fold, with one block for no input |
| `Sponges.TrailingZero` | poseidon/src/hash.rs:217-232 | an odd number of elements and the same with a zero behind hash alike |
| `Sponges.SqueezesReadPermutations` | poseidon/src/lib.rs:210-228 | after absorbing, squeeze k reads element k mod 2 of the state permuted k/2 + 1 times |
| `Sponges.LimbsOfSqueeze` | poseidon/src/lib.rs:265-282 | each squeeze gives its lower limb first |
| `Sponges.Sponge.constructor` | poseidon/src/lib.rs:161-170 | a zero state that has absorbed nothing |
| `Sponges.Sponge.Absorb` | poseidon/src/lib.rs:172-207 | the state machine step for every input, empty ones included |
| `Sponges.Sponge.Squeeze` | poseidon/src/lib.rs:210-228 | the next element and state |
| `Sponges.FqSponge.constructor` | poseidon/src/lib.rs:248-255 | a fresh sponge over the given field and permutation, with nothing squeezed and nothing waiting |
| `Sponges.FqSponge.AbsorbFq` | poseidon/src/lib.rs:258-263 | absorbs element by element, nothing from nothing, and starts a new stream |
| `Sponges.FqSponge.SqueezeLimbs` | poseidon/src/lib.rs:265-282 | calls of any sizes return consecutive pieces of the stream of low limb pairs, with as few squeezes as needed |
| `DistributedPools.InsertConsistentIff` | core/src/distributed_pool.rs:62-67 | inserting keeps list and key index inverse to each other exactly when the key is new |
| `DistributedPools.RemoveConsistent` | core/src/distributed_pool.rs:87-90 | removing keeps them inverse |
| `DistributedPools.InsertedIsFound` | core/src/distributed_pool.rs:62-67 | an insertion is found under its key, above all other indexes, and every other key as before |
| `DistributedPools.RemovedIsGone` | core/src/distributed_pool.rs:87-90 | a removed key is found no longer, and every other key as before |
| `DistributedPools.RetainConsistentIff` | core/src/distributed_pool.rs:99-115 | retaining keeps them inverse exactly when no kept entry changes its key |
| `DistributedPools.SerializationRoundTrip` | core/src/distributed_pool.rs:193-208 | rebuilding the key index from the list gives the same pool |
| `DistributedPools.SendableComplete` | core/src/distributed_pool.rs:127-159 | the listing of a range misses no entry that yields a message |
| `DistributedPools.PageIsComplete` | core/src/distributed_pool.rs:127-159 | a page holds everything to be sent from the cursor to its last index |
| `DistributedPools.PageSizeIs` | core/src/distributed_pool.rs:127-159 | a page holds as many entries as the limit allows |
| `DistributedPools.NextCursorSkipsNothingIff` | core/src/distributed_pool.rs:135-138 | moving behind the reported last index skips nothing, except exactly after a page of limit zero at index zero when entry zero yields a message |
| `DistributedPools.PagingIsExact` | core/src/distributed_pool.rs:127-159 | chained pages yield exactly the entries to be sent, in index order |
| `DistributedPools.DistributedPool.FromSerialized` | core/src/distributed_pool.rs:193-208 | the key index is rebuilt in index order, whatever the list holds |
| `DistributedPools.DistributedPool.Insert` | core/src/distributed_pool.rs:62-67 | the new entry gets the counter as its index |
| `DistributedPools.DistributedPool.Remove` | core/src/distributed_pool.rs:87-90 | the entry leaves both maps and is returned |
| `DistributedPools.DistributedPool.Update` | core/src/distributed_pool.rs:69-78 | the entry moves past every other one, also if its key changes; consistent afterwards exactly when it does not take another entry's key; a missing key changes nothing |
| `DistributedPools.DistributedPool.RetainAndUpdate` | core/src/distributed_pool.rs:99-115 | exactly the accepted entries stay, in their new form, at their index and under their old key; consistent afterwards exactly when no key changes |
| `DistributedPools.DistributedPool.LastIndex` | core/src/distributed_pool.rs:58-60 | the greatest index, or zero |
| `DistributedPools.DistributedPool.NextMessagesToSend` | core/src/distributed_pool.rs:127-159 | the first `limit` entries from the cursor that yield a message, with first and last index |
| `Propagation.StepKeepsGood` | core/src/distributed_pool.rs:62-115 | insert, update, remove, retain and send keep the invariant of what a peer was sent |
| `Propagation.RetainDeliversIff` | core/src/distributed_pool.rs:99-115 | rewriting entries in place leaves the sent ones up to date exactly when no message below the cursor becomes another one or appears without having been sent; messages may disappear |
| `Propagation.ChangeDeliversIff` | node/src/transaction_pool/transaction_pool_reducer.rs:470-480 | the same where the extraction looks messages up in a pool that changes |
| `Propagation.EveryRunIsGood` | p2p/src/channels/transaction/p2p_channels_transaction_reducer.rs:166-185 | at every point of every run, also one in which the extraction changes from step to step, each entry below the cursor was sent in its present form and nothing was sent twice |
| `Propagation.CaughtUp` | core/src/distributed_pool.rs:127-159 | a peer with an empty next page has every entry |
| `PendingRequests.InsertKeepsFreeList` | core/src/requests/mod.rs:80-92 | filling the first vacant slot keeps the vacant slots linked and changes no other slot |
| `PendingRequests.RemoveKeepsFreeList` | core/src/requests/mod.rs:95-98 | emptying a slot puts it first in that list |
| `PendingRequests.AddAgrees` | core/src/requests/mod.rs:80-92 | after an addition every id resolves as it should |
| `PendingRequests.RemoveAgrees` | core/src/requests/mod.rs:101-103 | after a removal too |
| `PendingRequests.PutBackAgrees` | core/src/requests/mod.rs:106-118 | a request taken out and put back returns to the slot it left |
| `PendingRequests.PendingRequests.Get` | core/src/requests/mod.rs:64-69 | the request while it waits, nothing otherwise |
| `PendingRequests.PendingRequests.Add` | core/src/requests/mod.rs:80-92 | the id is the predicted one and was never handed out; nothing dead revives |
| `PendingRequests.PendingRequests.Remove` | core/src/requests/mod.rs:101-103 | returns the waiting request and forgets it; nothing dead revives |
| `PendingRequests.PendingRequests.Update` | core/src/requests/mod.rs:106-118 | changes the request, keeps the id; the locator assertion holds |
| `RequestRuns.SlotsNeverClash` | core/src/requests/mod.rs:106-118 | at every point of every run the slot about to be filled is vacant, and an update returns to its own slot |
| `RequestRuns.ResolvesUntilRemoved` | core/src/requests/mod.rs:64-118 | in every run an id stands for its own request, as last updated, until it is removed |
| `RequestRuns.RemovedForever` | core/src/requests/mod.rs:64-118 | and for nothing ever after, even when the slot is reused |
| `RequestRuns.IdsAreFresh` | core/src/requests/mod.rs:80-92 | no id is handed out twice in a run |
| `AddressBytes.NextRaw` | ledger/src/address/raw.rs:311-343 | the masked search over the used bytes gives the address after this one, whatever the buffer holds behind it |
| `AddressBytes.PrevRaw` | ledger/src/address/raw.rs:345-374 | and the address before it; the assertion at the end fails exactly for a root whose first byte is not zero |
| `AddressBytes.ParentOfRightKeepsBit` | ledger/src/address/raw.rs:209-231 | going to the right and up from the root gives such a root |
| `AddressBytes.FindLastOther` | ledger/src/address/raw.rs:328-335 | the search from the last used byte on finds the last bit that differs, or none |
| `AddressBytes.ToIndexRaw` | ledger/src/address/raw.rs:387-414 | the shifted and or-ed bytes give the index of the bits, for up to 64 bits |
| `AddressBytes.FromIndexRaw` | ledger/src/address/raw.rs:416-427 | the bits of the index, one by one |
| `AddressBytes.SameRaw` | ledger/src/address/raw.rs:42-67 | equality under the mask is equality of the addresses |
| `AddressBytes.ChildrenAre` | ledger/src/address/raw.rs:209-220 | the right child always is one; the left child exactly if the bit behind the address is clear |
| `AddressBytes.ChildrenClean` | ledger/src/address/raw.rs:209-220 | below the root both children are right and nothing is left behind them |
| `AddressBytes.LeftOfParent` | ledger/src/address/raw.rs:209-231 | going up and then to the left comes back to where one was, also from a right child |
| `MerkleTree.NextIndex` | ledger/src/address/raw.rs:311-343 | of these bits: the next address has the next index, and there is none exactly at the end of the level |
| `MerkleTree.PrevIndex` | ledger/src/address/raw.rs:345-374 | of these bits: the previous address has the previous index, and there is none exactly at the start |
| `MerkleTree.FromToIndex` | ledger/src/address/raw.rs:387-427 | of these bits: address to index and back |
| `MerkleTree.ToFromIndex` | ledger/src/address/raw.rs:387-427 | of these bits: index to address and back, within the level |
| `MerkleTree.LinearIndexInjective` | ledger/src/address/raw.rs:169-173 | addresses of any lengths have different matrix slots |
| `MerkleTree.LinearIndexOfChildren` | ledger/src/address/raw.rs:169-173 | slots number the tree level by level: the children of slot n have slots 2n+1 and 2n+2 |
| `MerkleTree.RightOfStays` | ledger/src/address/raw.rs:456-465 | an address to the right of another on some level is so on every lower level |
| `MerkleTree.EmptySubtreeHash` | ledger/src/tree_version.rs:36-45 | the hash folded up from the empty account is the hash of a subtree without accounts |
| `MerkleTree.HashOffPath` | ledger/src/tree.rs:146-157 | changing a leaf changes no hash off its path to the root |
| `MerkleTree.PathLeadsToRoot` | ledger/src/account/account.rs:1754-1768 | the siblings of a leaf carry its hash to the root |
| `MerkleTree.OldPathGivesNewRoot` | ledger/src/account/account.rs:1771-1793 | a path taken before an account changes gives, for the new account, the root after the change |
| `MerkleTree.InclusionIsSound` | ledger/src/account/account.rs:1754-1768 | if node hashes do not collide, only the leaf's own hash and the true siblings lead to the root |
| `HashesMatrices.OnPathIff` | ledger/src/tree.rs:146-157 | the slots invalidated for a leaf are those of its prefixes and no others |
| `HashesMatrices.InvalidationSuffices` | ledger/src/tree.rs:146-157 | a cache that was right is right for the changed ledger once the path is dropped |
| `HashesMatrices.InvalidationKeepsLeaves` | ledger/src/tree.rs:146-157 | and no empty leaf becomes a cached one |
| `HashesMatrices.SetKeepsCacheOk` | ledger/src/tree.rs:93-105 | caching a true hash disturbs no other slot |
| `HashesMatrices.TransferKeepsCacheOk` | ledger/src/tree.rs:137-144 | merging two caches of one ledger gives a right one |
| `TreeWalks.ClearHash` | ledger/src/database/database_impl.rs:159-190 | with nothing cached, going down by stored addresses gives the true hash if no bit is set behind the address |
| `TreeWalks.DirtyRootHash` | ledger/src/database/database_impl.rs:159-190 | two accounts at depth one, the first bit set behind the root: the right leaf is hashed twice, which is not the root hash |
| `TreeWalks.RawHashRightIff` | ledger/src/database/database_impl.rs:159-190 | the hash is right for every ledger if and only if no bit is set between the length and the depth |
| `TreeWalks.WalkedStable` | ledger/src/database/database_impl.rs:159-190 | what a walk has put into the cache does not change what the rest of it computes, also where both children are the same |
| `TreeWalks.WalkedIsRaw` | ledger/src/database/database_impl.rs:159-190 | the shortcut for empty subtrees changes no hash, whatever is stored behind the address |
| `TreeWalks.WalkedIsTrue` | ledger/src/database/database_impl.rs:159-190 | with any right cache and clear bits the walk gives the true hash |
| `TreeWalks.ClearWalkKeepsCache` | ledger/src/database/database_impl.rs:159-190 | and leaves a right cache |
| `HashesMatrices.HashesMatrix.constructor` | ledger/src/tree.rs:74-84 | empty, and the counter is exact |
| `HashesMatrices.HashesMatrix.Set` | ledger/src/tree.rs:93-105 | one more slot; the counter stays exact |
| `HashesMatrices.HashesMatrix.RemoveAtIndex` | ledger/src/tree.rs:120-124 | one slot less, if it was there; the counter stays exact |
| `HashesMatrices.HashesMatrix.Remove` | ledger/src/tree.rs:115-118 | by address |
| `HashesMatrices.HashesMatrix.TransferHashes` | ledger/src/tree.rs:137-144 | the merged matrix; the counter stays exact |
| `HashesMatrices.HashesMatrix.InvalidateHashes` | ledger/src/tree.rs:146-157 | removes exactly the slots from the leaf to the root; the counter stays exact |
| `HashesMatrices.HashesMatrix.EmptyHashAtHeight` | ledger/src/tree.rs:159-169 | the true hash of an empty subtree, remembered |
| `HashesMatrices.HashesMatrix.Clear` | ledger/src/tree.rs:171-185 | nothing cached |
| `Databases.SetKeepsLocated` | ledger/src/database/database_impl.rs:690-740 | every indexed id names the account at its address, whatever is set |
| `Databases.SetKeepsIndexedIff` | ledger/src/database/database_impl.rs:690-740 | every account stays indexed exactly when the new id is not at another leaf |
| `Databases.SecondLeafLosesIndex` | ledger/src/database/database_impl.rs:690-740 | an account set at a second leaf leaves the first one without index |
| `Databases.FreeLocationIs` | ledger/src/database/database_impl.rs:94-97 | the new location is the leaf after the last one, and there is none exactly when the level is full |
| `Databases.LastKeptStep` | ledger/src/database/database_impl.rs:831-875 | removing from the highest leaf down, one step back at a time finds the last leaf that stays |
| `Databases.LastKeptIs` | ledger/src/database/database_impl.rs:842-874 | the last location after a removal stays itself, and every leaf between it and the old one is gone |
| `Databases.RemovalKeepsIndexed` | ledger/src/database/database_impl.rs:819-877 | accounts that stay are still indexed |
| `Databases.SetCompactIff` | ledger/src/database/database_impl.rs:690-740 | after `set` the accounts end at the last location exactly when they did before or the leaf reaches their end |
| `Databases.RemoveCompactIff` | ledger/src/database/database_impl.rs:819-877 | after a removal exactly when they did before and the last location is not removed |
| `Databases.RemovalBlocksCreation` | ledger/src/database/database_impl.rs:94-99 | one account created and removed: the level is free and no id is known, but the asserted length is wrong |
| `DatabaseRuns.LengthIsHighWater` | ledger/src/database/database_impl.rs:94-106 | in every run of set, create and remove the length of the accounts is one more than the highest leaf ever filled |
| `DatabaseRuns.CreationAllowedIff` | ledger/src/database/database_impl.rs:94-99 | so the assertion before a creation holds exactly when the last location is that leaf |
| `DatabaseRuns.BlockedUntilSet` | ledger/src/database/database_impl.rs:94-99 | once it fails it fails until an account is set at or beyond the end of the accounts |
| `Databases.Greatest` | ledger/src/database/database_impl.rs:829-831 | the next address in descending order |
| `Databases.Database.constructor` | ledger/src/database/database_impl.rs:320-358 | an empty valid database of the given depth, hashing and ids |
| `Databases.Database.Set` | ledger/src/database/database_impl.rs:690-740 | account, id index, counter, length and last location; the cache is right for the new ledger |
| `Databases.Database.PutAccount` | ledger/src/database/database_impl.rs:690-740 | the accounts, the id index, the count and the last location after `set` |
| `Databases.Database.GetOrCreateAccount` | ledger/src/database/database_impl.rs:612-625 | existing address, new address at the end, or out of leaves; the cache is right afterwards |
| `Databases.Database.Push` | ledger/src/database/database_impl.rs:99-118 | the account is appended and indexed |
| `Databases.Database.RemoveAt` | ledger/src/database/database_impl.rs:842-874 | one account leaves; the last location steps back if it was the last |
| `Databases.Database.RemoveAccounts` | ledger/src/database/database_impl.rs:819-877 | exactly the named accounts leave, the last location is the last leaf that stays, the cache is right; a later creation satisfies the length assertion exactly when it did and the last location is not removed |
| `Databases.Database.GetAccountHash` | ledger/src/database/database_impl.rs:649-662 | the cached hash or else that of the account, which is cached; with a right cache it is the true one, and nothing exactly for an empty leaf |
| `Databases.Database.EmulateTreeRecursive` | ledger/src/database/database_impl.rs:159-190 | whatever is cached and stored behind the address: the hash that the walk gives is returned and cached, and only hashes of that walk are added |
| `Databases.Database.GetInnerHashAtAddr` | ledger/src/database/database_impl.rs:137-156 | the true hash and a right cache, if the cache was right and no bit is set behind the address; an answer that is not the true hash always leaves a wrong cache |
| `Databases.Database.MerkleRoot` | ledger/src/database/database_impl.rs:380-382 | the true root if the cache was right, since nothing is stored behind the root's address |
| `Databases.Database.EmulateTreeToGetPath` | ledger/src/database/database_impl.rs:192-252 | the iterator is used up before any sibling is computed, and the siblings are collected from the leaf up |
| `Databases.Database.MerklePath` | ledger/src/database/database_impl.rs:796-812 | the siblings of the address, which for a leaf lead from its hash to the root |
| `Databases.DirtyAddressSpoilsRoot` | ledger/src/database/database_impl.rs:137-190 | after one question by an address with a set bit behind it the database gives a wrong root |

## Left out

- `handle_transition_frontier_diff`, `apply` and `on_new_best_tip` of the transaction pool: whole transactions over the pool, the key table and the local command tables, in which some commands are decremented twice and one filter is never run.
- Agreement of the size counter and of the fee, hash and expiry indexes with the queues after `transactions`: the source deliberately leaves them behind.
- Full agreement of the three maps of the verification-key table: false as written; the bound and the exact conditions are proved instead.
- `HashesMatrix::take`: it leaves the counter of the emptied matrix stale.
- Masks over the database, token owners, and the sparse ledger: further users of the hash cache.
- AddressBytes.ToIndexRaw: requires at most 64 bits, as the source shifts bytes into a 64-bit number.
- Trees deeper than an address has bits: addresses of the model have any length, those of the source 40 bits.
- Children iteration and text and wire forms of addresses.
- `silent_update` of the propagation pool, and the peer-to-peer state around it beyond the cursor.
- Thresholds.NewThreshold: works over `real` and does not model the fixed widths of 2048 and 4096 bits of the source's rationals.
- ForkChoice.DensityNonIncreasing: requires that a window's densities add up to less than 2^32, as the source's sum wraps around otherwise; `ForkChoice.NextSlotDensityIff` covers all windows, one slot at a time.
- Sponges.HashWithKimchiIs: does not model the rounds of the permutation, which is a parameter like addition in the field.
- The VRF, key and blake2b hashes that fork choice compares, the Poseidon rounds and all curve arithmetic: uninterpreted.
- Wire formats, reducers, effects, proofs, networking and user interfaces.
