# Plasma EVM: the stateful core, modelled and proved

Plasma EVM is a go-ethereum fork. This project models the parts of it whose correctness rests on
invariants that span many operations, in Dafny, and proves those invariants for every input and
every run:

- the **transaction pool** (`Heaps`, `Transactions`, `TxLists`, `TxPriced`, `PoolModel`, `PoolShapes`,
  `PoolResets`, `GasRules`, `TxPools`): pending and queued transactions per account, the hash index with its slot count, the
  price heap with its stale counter, and the virtual nonces, all kept in agreement by every operation;
- the **canonical chain and its index** (`Headers`, `HeaderChains`, `BlockChains`, `ChainIndexers`):
  fork choice, reorganisation, ancestor lookup, and the section indexer that runs beside reorganisations;
- the **weighted random selection tree** of the light client (`RandSelects`);
- **event feeds** that deliver to many channels while subscriptions change (`Feeds`);
- **gas and ether accounting** of a block with its three payment paths (`GasRules`, `StateTransitions`,
  `StateProcessors`);
- the **derivation path** printer and parser of hierarchical wallets (`HdPaths`).

`dafny verify dfyconfig.toml` checks the whole project.

## How the system is represented

- Objects that the program updates in place are classes with a `Valid()` predicate; their methods
  are proved against functions on values. Every locked region is one atomic method. Where other
  goroutines can act in between (the indexer, a feed in the middle of a send), their steps are
  separate methods and the theorems quantify over every interleaving.
- Hashes are injective: a header hash is the free constructor `HashOf(header)`, and a transaction
  stands for its own hash. Database tables are sets and maps; a batch is applied at its end.
- Integers are unbounded except where width matters: intrinsic gas, the up-front cost in signed
  64 bits, the 128-bit shift of the fork choice key, 32-bit path components and the running gas
  total (modulo 2^64) are modelled with their widths. Nonces stay below 2^64 - 1.
- Clocks, random choices, receivers of channels, the weight an item reports and the outcome of the
  virtual machine are arbitrary inputs of the model. An execution of the virtual machine is any list
  of covered transfers, writes of stamina and delegatees, left-over gas and refund counter; it
  therefore conserves ether and returns no more gas than it was given.
- `container/heap` is modelled with its sift operations and proved (`Heaps`); `sort` and the priority
  queue that pops the largest spammer are methods with the contract of the library.

### Findings

- The canonical map can keep a number above the new head: when a heavier block forks off the
  canonical path by one step below the old head, `reorg` removes nothing above the old head.
  `BlockChains.StaleEntry` exhibits it, and `BlockChains.BlockChain.WriteBlockWithState` states
  exactly when it happens.
- The section indexer compares one hash, that of its last section, and takes all earlier sections for
  canonical. Given that match, they are so exactly when the canonical map links each section end to
  the one before it (`ChainIndexers.OneComparison`); a map that is the path of a head does so up to
  that head (`ChainIndexers.LinkedBelowHead`). At the map of `BlockChains.StaleEntry` the comparison
  succeeds and a section is not canonical (`ChainIndexers.StaleSections`). What every step of the
  indexer keeps is proved for any canonical map at any moment.
- `HeaderChain.SetHead` breaks the chain invariant when a side header loses an ancestor or outweighs
  the new head (`HeaderChains.LostAncestor`). `HeaderChains.HeaderChain.SetHead` states exactly when,
  over the headers and the canonical map before the call.
- The delegated path is chosen by a cost computed in signed 64 bits: for gas limits of 2^63 and more
  it is chosen although stamina does not cover the cost, and the purchase then fails
  (`StateTransitions.DelegatedUncovered`, with the condition in `StateTransitions.DelegatedWhenCovered`).
- The pool promotes a transaction when balance or stamina covers it and demotes it when balance alone
  does not. At the next block a transaction on stamina is dropped, and its sender is left with a
  virtual nonce ahead of an empty pending list (`TxPools.Stranded`). `TxPools.TxPool.RunReorg` states
  exactly when consecutive nonces survive a new head.
- The comment on `truncateQueue` says the oldest transactions are dropped; the code drops the accounts
  with the latest heartbeat first, and the model follows the code.
- What is stored as total difficulty of a block is the difficulty of that block and its number, not a
  sum over its ancestry; the model follows the code.
- A pool over its capacity holds at most one remote transaction unconditionally, also when a hash
  re-enters while a dead copy of it is still in the price heap.
- An empty derivation path prints as `m`, which is not accepted back (`HdPaths.RoundTrip`).

## Model

| member | source | states |
|---|---|---|
| Transactions.FilterShortCircuit | core/tx_list.go:294-318 | cost and gas caps bound every transaction, so skipping the filter under the caps gives what the full filter gives |
| Transactions.FilterPartitions | core/tx_list.go:294-318 | filtering splits a list into kept, removed and invalidated parts that hold every transaction exactly once, kept ones payable, removed ones not |
| Transactions.FilterExactly | core/tx_list.go:294-318 | a transaction is removed exactly when it is over a limit, and kept exactly when it is within both and, on a strict list, so is everything below it |
| Transactions.FilterInterval | core/tx_list.go:294-318 | on a strict list with consecutive nonces the filter leaves consecutive nonces from the same start |
| Transactions.RemoveInterval | core/tx_list.go:329-340 | removing a nonce from a strict consecutive list leaves the nonces below and invalidates exactly those above |
| Transactions.CutInterval | core/tx_list.go:281-324 | forwarding and capping keep consecutive nonces |
| Transactions.ReadyIsMaximalRun | core/tx_list.go:178-193 | ready transactions are the maximal consecutive run from the lowest nonce; only nonces past the gap remain |
| Transactions.CapToUnique | core/tx_list.go:127-148 | capping keeps the lowest nonces: any lower cut of the same size is the same set |
| Transactions.CapToCompose | core/tx_list.go:127-148 | capping in two steps is capping once |
| Transactions.OutbidsExactly | core/tx_list.go:255-267 | an occupied nonce is taken exactly by a transaction that pays more than the old one and reaches its price raised by the bump in whole percent, rounded down |
| Transactions.TxInNumbers | core/tx_pool.go:1709-1711 | a transaction costs its value plus gas times price, and takes the fewest slots of 32 KiB that hold it |
| TxLists.TxSortedMap.Put | core/tx_list.go:73-79 | the map gains the transaction while nonce heap and cache stay in agreement with it |
| TxLists.TxSortedMap.Forward | core/tx_list.go:84-98 | removes exactly the nonces below the threshold and returns them, with heap and shifted cache exact |
| TxLists.TxSortedMap.Filter | core/tx_list.go:102-123 | removes exactly the matching transactions and rebuilds the heap |
| TxLists.TxSortedMap.Cap | core/tx_list.go:127-148 | keeps exactly the lowest nonces and returns the rest, with heap and shortened cache exact |
| TxLists.TxSortedMap.Remove | core/tx_list.go:152-169 | removes the nonce from map, heap and cache and tells whether it was there |
| TxLists.TxSortedMap.Ready | core/tx_list.go:178-193 | removes and returns, in order, the consecutive run from the lowest nonce if that is not past the start |
| TxLists.TxSortedMap.FlattenCached | core/tx_list.go:203-220 | the cached slice is the contents sorted by nonce, whatever operations preceded |
| TxLists.TxList.Add | core/tx_list.go:255-276 | refines the value function: a transaction replaces an old one only when it outbids it by the price bump, and the caps keep bounding |
| TxLists.TxList.Forward | core/tx_list.go:281-283 | refines forwarding on values |
| TxLists.TxList.Filter | core/tx_list.go:294-318 | refines the short-circuiting filter on values, returning removed and invalidated transactions exactly once |
| TxLists.TxList.Cap | core/tx_list.go:322-324 | refines capping on values |
| TxLists.TxList.Remove | core/tx_list.go:329-340 | refines removal on values, with the invalidated transactions of a strict list |
| TxLists.TxList.Ready | core/tx_list.go:349-351 | refines the ready run on values |
| TxLists.TxList.Flatten | core/tx_list.go:366-368 | returns the list sorted by nonce and changes nothing |
| TxPriced.StalesCoverDead | core/tx_list.go:425-440 | the stale counter is at least the number of dead heap entries, hence never negative |
| TxPriced.RankExactly | core/tx_list.go:377-387 | the cheaper transaction comes first, and among equal prices the one with the higher nonce |
| TxPriced.TxLookup.Add | core/tx_pool.go:1687-1695 | the slot count stays the sum of slots over the index |
| TxPriced.TxLookup.Remove | core/tx_pool.go:1698-1706 | the slot count stays the sum of slots over the index |
| TxPriced.TxPricedList.Removed | core/tx_list.go:425-440 | counts stale entries, and past a quarter rebuilds the heap to exactly the indexed transactions, all of which stay in the heap |
| TxPriced.TxPricedList.Cap | core/tx_list.go:444-471 | returns exactly the remote transactions priced under the threshold and keeps the rest in the heap |
| TxPriced.TxPricedList.Underpriced | core/tx_list.go:475-497 | true exactly when a remote transaction is priced at or below everything in a non-empty index |
| TxPriced.TxPricedList.Discard | core/tx_list.go:501-524 | drops the cheapest remote transactions, higher nonces first among equal prices, no more than needed, until the slots are free or no remote one is left |
| GasRules.ComputeIntrinsicGas | core/state_transition.go:79-113 | the overflow guards fail exactly when the exact sum exceeds 64 bits, and otherwise the sum is exact |
| GasRules.IntrinsicInNumbers | core/state_transition.go:79-113 | 21000, or 53000 for a contract, plus 4 for each zero byte and 68, since Istanbul 16, for each other byte |
| PoolModel.WaterLevelUnique | core/tx_pool.go:1331-1413 | there is one water level |
| PoolModel.WaterLevelMaximal | core/tx_pool.go:1331-1413 | the water level is the largest cap whose total fits into the global limit |
| PoolModel.WaterLevelBound | core/tx_pool.go:1331-1413 | below the water level the total fits, or every remote account is down to its guaranteed slots |
| PoolModel.KnownByNonce | core/tx_pool.go:949-994 | in an agreeing pool the list that holds the nonce of an indexed transaction holds that very transaction |
| PoolModel.RemovePending | core/tx_pool.go:965-982 | deleting by nonce from pending removes the intended transaction and puts exactly the later ones in flight |
| PoolModel.RemoveQueued | core/tx_pool.go:984-993 | deleting by nonce from the queue removes the intended transaction and no other |
| PoolModel.ReadyStartsAtVirtual | core/tx_pool.go:1293-1300 | with consecutive pending nonces, a ready run starts exactly at the virtual nonce |
| PoolShapes.ExecutableStart | core/tx_pool.go:1261-1293 | with the virtual nonce at the state nonce, promotion takes a run from there, and takes one exactly when the transaction at the state nonce survives the limits |
| PoolShapes.FilteredRun | core/tx_pool.go:1510-1525 | demotion keeps a run from the same start, or nothing exactly when its first transaction is not payable |
| PoolShapes.Lands | core/tx_pool.go:1251-1544 | promotion and demotion of one account leave a run from the state nonce, and leave nothing of a promoted run exactly when its first transaction costs more than the balance |
| PoolShapes.QueueFate | core/tx_pool.go:1261-1303 | promotion takes or leaves every queued transaction that is neither stale nor over the limits, and no other |
| PoolShapes.CapFate | core/tx_pool.go:1305-1313 | a transaction falls to the account cap only when as many as the cap allows have lower nonces |
| PoolShapes.PendingFate | core/tx_pool.go:1499-1543 | demotion keeps or postpones every pending transaction that is neither stale nor over the limits, and no other |
| PoolShapes.DemotedExactly | core/tx_pool.go:1499-1543 | a pending transaction stays exactly when the state nonce is pending and everything from there up to it is within the limits |
| PoolResets.Reinjected | core/tx_pool.go:1162-1224 | the reinjected transactions are those above the fork on the old branch and not on the new one; nothing is due for a child or a deep change; there is no result exactly when a block on the way is missing |
| PoolResets.DueExactly | core/tx_pool.go:1166-1174 | nothing is reinjected for a child of the old head or when the heads are more than 64 blocks apart |
| TxPools.Config.Sanitize | core/tx_pool.go:193-228 | every limit of a sanitised configuration is at least one: workable settings are kept, and others become the defaults 1, 10, 512, 8192, 64 and 4096 |
| TxPools.TxNoncer.Get | core/tx_noncer.go:45-55 | reading memoises but changes no nonce |
| TxPools.TxNoncer.Set | core/tx_noncer.go:59-64 | sets one account and no other |
| TxPools.TxNoncer.SetIfLower | core/tx_noncer.go:68-79 | lowers one account to the minimum and changes no other |
| TxPools.TxPool.EnqueueTx | core/tx_pool.go:716-742 | the queue joins the transaction by the list rules; a transaction in flight is always inserted, so ignoring the result leaks nothing |
| TxPools.TxPool.EnqueueAll | core/tx_pool.go:965-981 | a whole batch in flight lands in the queue and the index is unchanged |
| TxPools.TxPool.PromoteTx | core/tx_pool.go:776-812 | a transaction in flight lands in pending, never replacing, and the virtual nonce becomes its successor |
| TxPools.TxPool.RemoveTx | core/tx_pool.go:949-994 | the index loses exactly the transaction, later pending ones move to the queue, and the nonce shape is kept |
| TxPools.TxPool.ReplacePending | core/tx_pool.go:672-691 | a replacement keeps all views in agreement and needs a higher price |
| TxPools.TxPool.MakeRoom | core/tx_pool.go:654-669 | refuses exactly the remote transactions that underpay a full pool; otherwise drops the cheapest remote ones, at least one if there is any, until the new transaction fits the capacity in slots and not one more than that needs |
| TxPools.TxPool.ValidExactly | core/tx_pool.go:565-631 | validation passes exactly when size, value, gas, signature, price and nonce are in order and the sender is the null address or has a reachable delegatee, the funds and the intrinsic gas, all in numbers read off the chain state |
| TxPools.TxPool.RefusedFirst | core/tx_pool.go:565-631 | each of the eleven errors is given exactly when its check fails and every earlier one passes |
| TxPools.TxPool.Insert | core/tx_pool.go:671-711 | a valid transaction joins pending where its nonce is pending and the queue otherwise, and marks local accounts |
| TxPools.TxPool.Add | core/tx_pool.go:565-711 | every outcome keeps all pool invariants; known transactions, inadmissible ones and those that underpay a full pool are refused without effect; an admissible one is accepted unless it underpays; accepted means indexed; no local transaction is lost but to its own replacement |
| TxPools.TxPool.PromoteReady | core/tx_pool.go:1292-1303 | exactly the ready run moves from queue to pending, and what stays queued lies past the virtual nonce |
| TxPools.TxPool.PromoteAccount | core/tx_pool.go:1255-1324 | an account's queue ends stale-free, payable, capped and past the virtual nonce, and pending gains exactly the executable run; a queued transaction is gone exactly when it is stale, too large for a block or covered by neither the balance nor the delegatee's stamina, or when lower nonces fill the account cap |
| TxPools.TxPool.PromoteExecutables | core/tx_pool.go:1251-1326 | all views agree, no processed account has a queued nonce at or below its virtual nonce, each account gains exactly its executable run, and every queued transaction of it meets the fate stated for one account |
| TxPools.DemotedExecutable | core/tx_pool.go:1499-1543 | what demotion keeps of a list is payable and starts at the state nonce |
| TxPools.TxPool.DemoteAccount | core/tx_pool.go:1499-1543 | the pending list becomes exactly its demoted form, and the queue gains exactly the postponed transactions |
| TxPools.TxPool.DemoteUnexecutables | core/tx_pool.go:1497-1544 | every pending list becomes exactly its demoted form, payable and starting at the state nonce; a pending transaction is gone exactly when it is stale, too large for a block or not covered by the balance; nothing leaves the queue |
| TxPools.TxPool.CapRounds | core/tx_pool.go:1356-1411 | rounds of cutting one transaction per offender lower the common level by one each and stop at the limit or the threshold |
| TxPools.TxPool.PenalizeSpammers | core/tx_pool.go:1349-1385 | after every popped offender all remote accounts are cut to one common level |
| TxPools.TxPool.TruncatePending | core/tx_pool.go:1331-1413 | over the global limit every remote account keeps exactly its lowest nonces up to the water level, locals are untouched, and otherwise nothing changes |
| TxPools.TxPool.TruncateQueue | core/tx_pool.go:1416-1458 | over the limit the queue ends at exactly the limit or without remote transactions, cut from the latest heartbeats first |
| TxPools.TxPool.SetGasPrice | core/tx_pool.go:443-452 | exactly the remote transactions under the price leave the pool |
| TxPools.TxPool.Evict | core/tx_pool.go:382-397 | exactly the expired remote queues are dropped |
| TxPools.TxPool.AddAll | core/tx_pool.go:905-917 | a batch keeps every pool invariant, admits only what was accepted, and reports as dirty exactly the senders of accepted transactions that replaced nothing |
| TxPools.TxPool.Reset | core/tx_pool.go:1162-1246 | takes effect exactly when the new state opens and the branches can be walked back to where they part, and otherwise changes nothing; keeps every pool invariant, rebuilds the virtual nonces and adds nothing but what the old branch loses and the new state admits |
| TxPools.TxPool.SyncNonces | core/tx_pool.go:1143-1147 | virtual nonces become the successors of the highest pending nonces, without disturbing a consecutive pool |
| TxPools.TxPool.Truncate | core/tx_pool.go:1139-1141 | both limits hold, and what was executable or promoted before stays so |
| TxPools.TxPool.RunReorg | core/tx_pool.go:1099-1158 | the pool ends valid, within its limits, with virtual nonces that follow pending; dirty accounts are fully promoted; after a reset everything pending is executable, and when no state nonce fell and nothing was reinjected, nonces stay consecutive exactly when no account's next transaction is promoted on stamina that its balance does not match |
| TxPools.TxPool.Settle | core/tx_pool.go:1123-1147 | promotion, demotion, truncation and nonce update in sequence; started afresh on grounded lists they end consecutive exactly when no account overdraws |
| TxPools.TxPool.Turnover | core/tx_pool.go:1123-1137 | every account ends with a run from its state nonce or with nothing, and with a virtual nonce ahead of nothing exactly when it overdrew |
| TxPools.Stranded | core/tx_pool.go:1270-1282 | a run of an accepted transaction and one new head after which a virtual nonce is ahead of an empty pending list |
| TxPools.TxPool.Run | core/tx_pool.go:340-1246 | every sequence of pool operations keeps all views in agreement; it keeps consecutive nonces across any number of new heads in which no state nonce falls and no delegatee has more stamina than its delegator has balance |
| Headers.LinkedAncestor | core/headerchain.go:355-388 | below a canonical block the canonical map is the walk along parents |
| Headers.RootedAncestor | core/headerchain.go:355-388 | stored headers have stored ancestors down to genesis |
| HeaderChains.HeaderChain.GetTd | core/headerchain.go:392-404 | the cache never disagrees with the database |
| HeaderChains.HeaderChain.GetHeader | core/headerchain.go:418-430 | the cache never disagrees with the database |
| HeaderChains.HeaderChain.Reroute | core/headerchain.go:168-206 | moving to a stored header leaves the canonical map exactly its path from genesis |
| HeaderChains.HeaderChain.WriteHeader | core/headerchain.go:141-216 | canonical map with domain 0..head along parents, total difficulty as sum over ancestry, head maximal; the head moves exactly when the header is heavier or wins a tie |
| HeaderChains.HeaderChain.InsertHeaderChain | core/headerchain.go:284-325 | every run of header writes keeps these invariants; it stops at the first header whose parent is missing, stores everything before it, and moves the head to each new header that is heavier or wins a tie |
| HeaderChains.HeaderChain.SetHead | core/headerchain.go:492-543 | a rewind deletes exactly the canonical headers above, and keeps the invariant exactly when, before the call, no side header has an ancestor among them or outweighs the header at the target |
| HeaderChains.LostAncestor | core/headerchain.go:492-543 | a run of three writes and a rewind after which a stored header has no stored parent |
| HeaderChains.HeaderChain.GetAncestor | core/headerchain.go:355-388 | a result is the naive parent walk; it is found exactly when the non-canonical steps fit the budget, which drops by that many |
| HeaderChains.StepsExactly | core/headerchain.go:368-387 | the walk goes to the first canonical ancestor, and not past the one asked for |
| BlockChains.TdOrder | core/blockchain.go:1371-1375 | comparing stored difficulties compares difficulty, then number |
| BlockChains.BlockChain.WriteHeadBlock | core/blockchain.go:656-683 | canonical number, transaction entries and head are written; the other heads follow unless the block was canonical |
| BlockChains.BlockChain.FindFork | core/blockchain.go:2003-2048 | finds the common ancestor, the new chain off the old path, and exactly the transactions indexed above the fork |
| BlockChains.BlockChain.Reorg | core/blockchain.go:1947-2093 | canonical numbers become the path to the parent of the new head, the index exactly its transactions, and nothing is mapped past the current head |
| BlockChains.BlockChain.Adopt | core/blockchain.go:1454-1468 | the path from genesis ends in the block, the index holds exactly its transactions, all three heads agree, and when numbers above stay mapped |
| BlockChains.BlockChain.WriteBlockWithState | core/blockchain.go:1360-1488 | the head changes exactly when difficulty and number strictly grow, and the map ends at the head unless a one-step fork stays below the old head |
| BlockChains.BlockChain.WriteAll | core/blockchain.go:1360-1488 | in any run of writes a block is stored exactly when its parent is stored by then, and the head ends as the maximum of difficulty and number over all stored blocks |
| BlockChains.StaleEntry | core/blockchain.go:2082-2090 | a run of three writes that leaves a number mapped above the head, with the map it ends in |
| ChainIndexers.OneComparison | core/chain_indexer.go:420-427 | given a matching last head, every stored section above the checkpoint is canonical exactly when the map links each section end to the one before it |
| ChainIndexers.LinkedBelowHead | core/chain_indexer.go:420-427 | a map that is the path of a head links every section that ends at or below that head |
| ChainIndexers.ChainIndexer.Settled | core/chain_indexer.go:420-438 | after the comparison every stored section is canonical if the map is the path of its head, or of a head the sections do not pass |
| ChainIndexers.StaleSections | core/chain_indexer.go:420-438 | at a map with a stale entry the comparison succeeds and a reported section is not canonical |
| ChainIndexers.ReorgSettles | core/chain_indexer.go:244-262 | told the fork point, the indexer keeps only sections that are canonical on the new chain |
| ChainIndexers.CompleteEnds | core/chain_indexer.go:275-279 | a section counts as complete exactly when its last block is among the confirmed blocks |
| ChainIndexers.CompleteExactly | core/chain_indexer.go:275-279 | sections are known when they and the checkpoint end among the confirmed blocks |
| ChainIndexers.SurvivorsExactly | core/chain_indexer.go:248-262 | a stored section survives a reorganisation exactly when the checkpoint covers it or it ends at or below the fork |
| ChainIndexers.ChainIndexer.AddCheckpoint | core/chain_indexer.go:127-140 | a checkpoint past the stored sections becomes the trusted base at any time, an older one is ignored |
| ChainIndexers.ChainIndexer.SetValidSections | core/chain_indexer.go:469-481 | exactly the heads at and above the count are removed |
| ChainIndexers.ChainIndexer.VerifyLastHead | core/chain_indexer.go:420-427 | the last section that stays is canonical, and only non-canonical sections are dropped |
| ChainIndexers.ChainIndexer.NewHead | core/chain_indexer.go:240-297 | new sections become known exactly when the next one and the checkpoint are confirmed and the checkpoint matches, and then exactly those whose last block is confirmed; a reorganisation keeps exactly the known and stored sections that end at or below the fork, the checkpoint apart |
| ChainIndexers.ChainIndexer.Begin | core/chain_indexer.go:314-335 | an update starts on a last section that is canonical, with the head it has to continue, having dropped only non-canonical ones |
| ChainIndexers.ChainIndexer.FailReset | core/chain_indexer.go:390-393 | a backend that fails to reset leaves no section stored |
| ChainIndexers.ChainIndexer.ProcessHeader | core/chain_indexer.go:395-410 | a header is accepted exactly when it is there and continues the last one |
| ChainIndexers.ChainIndexer.Conclude | core/chain_indexer.go:347-367 | a section counts exactly when nothing was rolled back under it; otherwise the index falls back to a last section that is canonical |
| ChainIndexers.ChainIndexer.GetSections | core/chain_indexer.go:432-438 | the last reported section is canonical, and only non-canonical ones were dropped |
| ChainIndexers.ChainIndexer.Step | core/chain_indexer.go:127-438 | every atomic step, under any canonical map, keeps the section heads one hash chain that stops at the stored count, and does what it is for whenever it is enabled |
| ChainIndexers.ChainIndexer.Run | core/chain_indexer.go:127-438 | so does every interleaving of arbitrary chain changes, checkpoints, head events, failures and section processing; sections reported at the end are canonical whenever the map then is the path of a head |
| RandSelects.PickInterval | les/randselect.go:158-169 | with no negative weight exactly one slot's interval of prefix sums contains a value below the total |
| RandSelects.Proportional | les/randselect.go:74-77 | a slot is picked by exactly as many values below the total as it weighs |
| RandSelects.WrsNode.Above | les/randselect.go:62-67 | under a new root the old slots keep their indexes and the new ones are empty |
| RandSelects.WrsNode.FindBranch | les/randselect.go:107-113 | a node with room has a branch with room, so the search does not run out, and all earlier branches are full |
| RandSelects.WrsNode.Insert | les/randselect.go:106-130 | an item of any weight lands in the lowest free slot, and sums and counts agree at every level |
| RandSelects.WrsNode.SetWeight | les/randselect.go:134-155 | exactly one slot changes to any weight, by the returned difference, and sums and counts agree at every level |
| RandSelects.WrsNode.Choose | les/randselect.go:158-169 | returns the item whose interval of prefix sums contains the value |
| RandSelects.WeightedRandomSelect.SetWeight | les/randselect.go:53-72 | for any weight, negative ones included, the weights by item change at one item only, indexes stay valid, and the root sum follows |
| RandSelects.WeightedRandomSelect.Draw | les/randselect.go:83-91 | the item whose interval of prefix sums contains the drawn value takes the weight it reports, and is returned exactly when that did not fall or the second draw is below it; otherwise the sum falls |
| RandSelects.WeightedRandomSelect.Choose | les/randselect.go:78-93 | the rounds of drawing one after the other, up to the first that returns an item; terminates because every retry lowers the sum, and returns nothing exactly when nothing is left |
| Feeds.Find | event/feed.go:212-219 | the first index of a channel, or -1 exactly when it is absent |
| Feeds.Served | event/feed.go:227-231 | swapping a case behind the prefix moves exactly one channel from waiting to served |
| Feeds.Dropped | event/feed.go:222-224 | deleting a case shrinks the prefix exactly when the case was still waiting |
| Feeds.Feed.Subscribe | event/feed.go:72-92 | the channel waits in the inbox |
| Feeds.Feed.BeginRemove | event/feed.go:103-123 | a live subscription leaves the inbox or asks the active list, and is never lost or counted twice |
| Feeds.Feed.FinishRemove | event/feed.go:119-122 | an idle feed removes exactly one occurrence of the channel |
| Feeds.Feed.Locate | event/feed.go:170-172 | a channel that asked to be removed is always found, and never in slot 0 |
| Feeds.Feed.Answer | event/feed.go:170-176 | a removal in the middle of a send counts as early exactly when the channel was still waiting |
| Feeds.Feed.Send | event/feed.go:128-189 | each channel of the start is served exactly once unless removed before; the count is the number served; the list ends as the start without the removals |
| StateTransitions.TotalTransfer | core/evm.go:90-100 | a transfer conserves ether, except that one from the null address creates the amount |
| StateTransitions.TransferredTo | core/evm.go:94-100 | the recipient gains exactly the amount, the sender loses it unless it is the null address, and no other account changes |
| StateTransitions.DelegatedWhenCovered | core/state_transition.go:247-253 | stamina is chosen exactly when it covers the cost, unless the gas limit does not fit signed 64 bits |
| StateTransitions.DelegatedUncovered | core/state_transition.go:247-253 | at gas limit 2^63 a message whose sender could pay is refused, one below it is accepted |
| StateTransitions.EtherConserved | core/state_transition.go:229-324 | an accepted message changes total ether by what it mints: nothing for a sender who pays, the fee for stamina or free gas, plus the value sent by the null address |
| StateTransitions.StaminaSpent | core/state_transition.go:177-195 | a delegated message takes exactly the fee of the used gas out of total stamina, apart from what its own execution does |
| StateTransitions.BalanceAfter | core/state_transition.go:229-324 | each balance after an accepted message without inner transfers, in numbers: value from sender to recipient unless reverted, the price of the used gas from a paying sender and to the coinbase |
| StateTransitions.StaminaOf | core/state_transition.go:177-195 | the stamina of an account that the execution does not write: a paying delegatee loses the price of the used gas, and nobody else anything |
| StateTransitions.WrittenOf | core/state_transition.go:177-195 | stamina and delegatee of an account that the execution writes are what it wrote last, plus the price of the unused gas for a paying delegatee |
| StateTransitions.DelegateeKept | core/state_transition.go:242-244 | an account that the execution does not write keeps its delegatee, and so does every account when it is reverted |
| StateTransitions.PaidBy | core/state_transition.go:242-277 | the delegatee pays exactly when the limit exceeds 63 bits or its stamina covers it, the null address never does |
| StateTransitions.AcceptedExactly | core/state_transition.go:156-314 | a message is accepted exactly when nonce, funds, block gas, intrinsic gas and value are in order, in numbers |
| StateTransitions.RefusedBecause | core/state_transition.go:156-314 | each of the six refusals is given exactly when its check fails and every earlier one passes |
| StateTransitions.UsedExactly | core/state_transition.go:284-341 | the used gas is what the execution does not leave over, less the refund counter but never under the upper half |
| StateTransitions.IntrinsicOf | core/state_transition.go:254-263 | the intrinsic gas of a message in numbers |
| StateTransitions.GasPool.AddGas | core/gaspool.go:29-35 | adds within 64 bits |
| StateTransitions.GasPool.SubGas | core/gaspool.go:39-45 | subtracts exactly when enough is there |
| StateTransitions.StateTransition.BuyGas | core/state_transition.go:156-175 | the sender is charged the full limit, fails on balance before pool, and the null address is not charged |
| StateTransitions.StateTransition.BuyDelegateeGas | core/state_transition.go:177-195 | the delegatee's stamina is charged the full limit, with the same failures |
| StateTransitions.StateTransition.ApplyRefund | core/state_transition.go:326-332 | the refund is capped to half of the used gas |
| StateTransitions.RefundedExactly | core/state_transition.go:326-332 | what stays used is the used gas less the counter, or its upper half if that is more |
| StateTransitions.StateTransition.RefundGas | core/state_transition.go:326-341 | remaining gas goes back to sender and pool at the original price |
| StateTransitions.StateTransition.RefundDelegateeGas | core/state_transition.go:343-358 | remaining gas goes back to stamina and pool at the original price |
| StateTransitions.StateTransition.Execute | core/state_transition.go:293-314 | fails exactly on intrinsic gas or an uncovered value, and otherwise runs with what is left |
| StateTransitions.StateTransition.TransitionDb | core/state_transition.go:229-324 | refused exactly when one of the checks fails, in order; otherwise gas, pool, balances, stamina, delegatees and nonce are exact |
| StateProcessors.PoolConserved | core/state_processor.go:56-82 | remaining pool gas plus the gas of paying transactions is the gas limit |
| StateProcessors.EtherOverBlock | core/state_processor.go:56-82 | over a block total ether grows by what its transactions mint |
| StateProcessors.StaminaOverBlock | core/state_processor.go:56-82 | over a block total stamina changes by what executions write minus the fees of delegated transactions, whatever delegatees change meanwhile |
| StateProcessors.SenderPaidBlock | core/state_processor.go:56-82 | a block of sender-paid transactions conserves ether and its gas fits the limit |
| StateProcessors.ApplyTransaction | core/state_processor.go:88-129 | one transaction moves the world one step and adds its gas to the running total |
| StateProcessors.Process | core/state_processor.go:56-82 | a block succeeds exactly when every transaction is accepted; every receipt carries its gas and the prefix sum |
| HdPaths.ParseComponent | accounts/hd.go:91-115 | an accepted component fits 32 bits |
| HdPaths.ComponentRoundTrip | accounts/hd.go:91-135 | every 32-bit component, hardened or not, survives printing and parsing |
| HdPaths.DecimalComponent | accounts/hd.go:95-112 | a decimal component is accepted exactly up to what 32 bits leave it, and an apostrophe adds 2147483648 |
| HdPaths.PrefixedComponent | accounts/hd.go:100-112 | a binary, octal or hexadecimal component means its number, within the same range |
| HdPaths.SeparatorIgnored | accounts/hd.go:100-103 | an underscore between digits changes nothing |
| HdPaths.SeparatorPlaces | accounts/hd.go:100-103 | an underscore may follow a prefix but not begin, double or end a number |
| HdPaths.BadCharacter | accounts/hd.go:100-103 | a character that is no digit of the base makes the number invalid |
| HdPaths.DigitsExactly | accounts/hd.go:100-103 | digits count from 0 to 15 in either case, and no other character is one |
| HdPaths.NegativeComponent | accounts/hd.go:105-111 | negative components are out of range |
| HdPaths.SpaceIgnored | accounts/hd.go:91-99 | white space around a component changes nothing |
| HdPaths.SpaceExactly | accounts/hd.go:91-93 | the white space characters one by one |
| HdPaths.BlankStart | accounts/hd.go:71-79 | a path that is blank, or blank before its first separator, is refused as ambiguous |
| HdPaths.ComponentsExactly | accounts/hd.go:90-118 | components are read in order, and the first bad one decides the error |
| HdPaths.RoundTrip | accounts/hd.go:68-136 | printing and parsing gives the path back exactly when it is not empty |
| HdPaths.PathStringInjective | accounts/hd.go:122-136 | distinct paths print differently |
| HdPaths.Canonical | accounts/hd.go:68-136 | whatever text is accepted, its canonical form means the same |
| HdPaths.RelativePath | accounts/hd.go:80-87 | a text without the leading `m/` means the path below the default root 44', 60', 0', 0 |
| HdPaths.RootPrinted | accounts/hd.go:122-136 | the default root prints as m/44'/60'/0'/0 |

## Left out

- Pool lists are held by value in `TxPools`; the classes in `TxLists` prove that the in-place lists refine those values, but aliasing of list objects between pool maps is not modelled.
- Consecutive pending nonces across a reset that rewinds a state nonce or reinjects: rejected reinjection can leave a gap, and a discarded stale transaction lowers a virtual nonce below the state nonce.
- TxPools.TxPool.AddAll: models the batch under the pool lock; merging its errors into those of known transactions is left out, because the original does not advance the slot after an accepted one.
- PoolResets.Reinjected: the head of the chain standing in for a missing new head, a special case of tests, and a new head that is itself not stored, which the original dereferences.
- The pool's journal, event feeds, metrics, request transactions of the root chain and the scheduling goroutines.
- ChainIndexers.ChainIndexer.Run: child indexers and the cascaded head, and the notification channel that decides when an update starts; updates may start at any time here.
- BlockChains: insertion of side chains, known blocks, fast sync and the ancient store; the lookup cache, which a reorganisation does not purge; state commits and log events; transactions of a block are assumed not to occur in its ancestors, which account nonces guarantee.
- BlockChains.BlockChain.FindFork: has no error outcome, because stored blocks have stored ancestors and both walks meet at genesis at the latest.
- HeaderChains: header validation, the number cache and the fast-sync callbacks of a rewind.
- RandSelects.WeightedRandomSelect.Choose: is called with no negative weight stored and items report none, because the original draws a random number below the sum and panics when that is negative.
- RandSelects: sums are unbounded rather than 64-bit; the eight item slots of a node are two fields, one for items and one for child nodes; chances are counted as values that pick an item.
- TxPools.TxPool.MakeRoom: that enough slots are freed, and no more, is stated for a price heap that holds no transaction twice; a hash that re-enters beside a dead copy of itself is counted twice by the original.
- Feeds.Feed.Send: does not model the type check, the value stored in the select cases, or a receiver that never becomes ready.
- StateTransitions: what the virtual machine computes, self-destruction that burns ether, failing calls of the stamina contract, signatures and the extra gas rules of nested calls.
- StateProcessors.Process: the hard-fork balance move, block rewards, logs, blooms and state roots.
- HdPaths: number syntax follows the integer literals accepted by the big-integer parser with base 0; wording of error messages is not modelled.
- Light-client pools, fetcher trees and cost tracking, consensus engines, console, GraphQL and formatting helpers: outside these cores.
