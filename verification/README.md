# Ring, modelled in Dafny

Ring is a full node for a Bitcoin-like chain with Hive mining. This project models the parts of
it with the most intricate state and arithmetic, and proves what they are for.

- **Address manager** (`AddrManModel`, `AddrManEffects`, `AddrMan`, `AddrManCheck`, `AddrManSerial`). Known peers
  are kept in two hash tables, an address map and a random order. `AddrManModel` gives every
  operation on values and one invariant that every operation keeps, over whole runs. `AddrManEffects`
  says what each operation does to every field of every entry: who keeps a tried slot after a collision,
  which slots are taken over, which addresses are handed out. The class
  `AddrMan` holds the arrays the node holds, and each method is proved to compute the model step;
  the assertions of the original are assertions there. The self-check returns zero exactly when its conditions
  hold, and the invariant implies them. Saving and loading give the same tables back up to
  renaming of ids.
- **Coin cache** (`Coins`). Caches of unspent coins stacked to any depth over a database. Each
  method is proved against the map of coins the stack denotes.
- **Check queue** (`CheckQueue`). One master and any number of workers as a state machine whose
  steps are the regions under the mutex. Verdicts are right in every interleaving, no wake-up
  is lost, and a round goes on to its end.
- **Block assembly** (`BlockAssembler`). Packages of the mempool are chosen best first, with totals that are
  corrected lazily. The block stays ordered, closed and within limits; every package in it paid its way with
  totals that were exact, or corrected for part of its ancestors if it could not be added before; and when
  candidates run out, whatever is left out has a reason: an inadmissible transaction, or the mempool's totals
  do not fit.
- **Cuckoo cache** (`CuckooCache`, `ByteBits`), **partial Merkle trees** (`PartialMerkle`),
  **rolling bloom filter** (`RollingBloom`), **block index and active chain** (`Chain`),
  **256-bit limbs** (`Limbs`) and **compact difficulty** (`Difficulty`), **Golomb-coded filters** (`GcsFilter`,
  BIP 158), **compact blocks** (`CompactBlocks`, BIP 152), **Hive work split** (`Hive`),
  **Base58** (`Base58`) and **Bech32** (`Bech32`, BIP 173): each a fast form proved against a simple
  specification, or an encoder and a decoder proved to undo each other.

`Arithmetic` holds facts about products, quotients, powers of two and bitwise operators; `Options` and `Sets`
are shared by several modules.

Hashes, and the functions that pick buckets and positions from them, are function parameters, with
only their ranges assumed, and injectivity where a member says so. Randomness is a parameter (the
draws), and so is the clock.

Where the code and its comments differ, the model follows the code:

- The comment on partial Merkle trees promises at most 2N - 1 bits; `PartialMerkle.ThreeTransactions`
  shows a tree with more, and `PartialMerkle.BitBound` says exactly when the promise holds.
- The comment on displacement in the cuckoo cache says the first slot is tried first; the code tries
  the second, as `CuckooCache.Cache.NextSlot` states. A new table is full of default elements, so
  claims about single elements leave the default one out.
- `AddrManSerial.Clear` keeps the remembered collisions, as the code does; `AddrManSerial.ClearedInv`
  says exactly when the invariant then holds, and `AddrManSerial.StaleCollision` shows a run in which a
  collision that outlived clearing leads to an empty tried slot.
- `Coins.CoinsViewCache.AddCoin` subtracts the usage of the old coin before it throws;
  the contract says exactly when the count is then still right. `Coins.FreshDuty` says exactly when the FRESH
  flag given to a new coin is right, and the contracts of `Coins.CoinsViewCache.AddCoin` and `Coins.AddCoins`
  say exactly when the cache is valid after an addition.
- The two places that correct a package subtract different fees (src/miner.cpp:351 and src/miner.h:129): the
  modified fee of the first ancestor added, and the fees paid of the others. `BlockAssembly.CandidateExact` says
  what the fees of a candidate then are, and that they are right if no fee in the block was modified.
- The comment where assembly stops says that everything else has a lower fee rate. What is proved is that nothing
  else comes before the candidate in the order of scores, which are the lower of two rates.
- Extracting matches appends to the list of positions given, as `PartialMerkle.PartialMerkleTree.ExtractMatches` states.
- The last-common-ancestor assertion never fails: two blocks without a common block give null.

## Model

| member | source | states |
|---|---|---|
| AddrManModel.DeleteConsistent | src/addrman.cpp:113-125 | deleting an unreferenced new entry keeps all indexes in agreement, whatever other entries are in flight |
| AddrManModel.ClearNewConsistent | src/addrman.cpp:127-140 | clearing a new slot, with the deletion of an entry that loses its last reference, keeps the indexes in agreement |
| AddrManModel.ClearNewKeeps | src/addrman.cpp:127-140 | exactly the slot leaves the new table; the tried side and every entry but the one listed there stay as they are |
| AddrManModel.EvictConsistent | src/addrman.cpp:161-182 | the tried slot is free, its entry is a new entry again with one reference, no entry appears or changes its address |
| AddrManModel.MakeTriedConsistent | src/addrman.cpp:142-188 | the indexes agree again, the entry is tried, what it displaced is a new entry with one reference, occupied tried slots stay occupied |
| AddrManModel.GoodInv | src/addrman.cpp:190-254 | Good_ keeps the whole invariant; without test-before-evict the address ends up tried; collisions change only under test-before-evict |
| AddrManModel.PlaceConsistent | src/addrman.cpp:305-325 | the second half of Add_ leaves no entry without a slot and does not touch the tried side |
| AddrManModel.AddConsistent | src/addrman.cpp:256-327 | Add_ keeps the indexes in agreement whatever collisions are remembered, and leaves those and the tried table alone |
| AddrManModel.AddInv | src/addrman.cpp:256-327 | Add_ keeps the whole invariant |
| AddrManModel.AddKeepsTried | src/addrman.cpp:256-327 | Add_ never changes the tried table nor which entries are tried |
| AddrManModel.GetAddrInv | src/addrman.cpp:476-495 | shuffling out addresses keeps the invariant |
| AddrManModel.GetAddrShares | src/addrman.cpp:476-495 | from the start, the addresses handed out are distinct, known and not terrible, at most as many as wanted, and all of that kind if fewer |
| AddrManModel.ResolveOneInv | src/addrman.cpp:537-591 | resolving one collision keeps the invariant, keeps occupied tried slots occupied and forgets no other collision |
| AddrManModel.ResolveBelow | src/addrman.cpp:535-592 | resolving all collisions in order of id keeps the invariant |
| AddrManModel.EmptyInv | src/addrman.h:456-478 | a new manager satisfies the invariant |
| AddrManModel.StepInv | src/addrman.cpp:81-619 | every operation with a positive clock keeps the invariant |
| AddrManModel.Run | src/addrman.cpp:81-619 | after any sequence of operations from construction the invariant holds |
| AddrManEffects.ClearNewEffect | src/addrman.cpp:127-140 | the entry of the slot has one slot less, and is gone with its last one; every other entry keeps all its fields |
| AddrManEffects.EvictEffect | src/addrman.cpp:160-182 | the entry of a tried slot is a new entry with one slot, the one its own source gives it; what was there has one less; every other entry keeps all its fields |
| AddrManEffects.MakeTriedEffect | src/addrman.cpp:142-188 | the entry has left all its new slots and holds its tried slot; every other slot and entry is as it was, but for the one evicted and what that one displaced |
| AddrManEffects.GoodUnknown | src/addrman.cpp:190-209 | a connection to an address that is not known with this port only sets the clock |
| AddrManEffects.GoodEffect | src/addrman.cpp:190-254 | the times and failures of the entry are set; it is promoted unless it is tried, or its tried slot is taken and is to be tested first; then the tables and all other entries stay and it is remembered if fewer than ten are |
| AddrManEffects.ResolveGone | src/addrman.cpp:542-553 | a collision with an address that is gone or not valid is forgotten and nothing else happens |
| AddrManEffects.ResolveEffect | src/addrman.cpp:552-590 | the newcomer gets an empty slot; of another holder it gets the slot if and only if that one has not connected for four hours, and was tried more than a minute and less than four hours ago, or was not tried for four hours while the newcomer has waited 40 minutes; otherwise tables and entries stay; the collision stays exactly while that is undecided |
| AddrManEffects.ResolveVisitsAll | src/addrman.cpp:537-592 | every remembered collision has its turn, and is still remembered afterwards if and only if its address was then known and valid and its slot held by one that was undecided |
| AddrManEffects.ResolveSparesLivePeers | src/addrman.cpp:535-592 | however many collisions are resolved, a tried entry that connected within the last four hours keeps its slot and its last success |
| AddrManEffects.SelectedIsInTheWay | src/addrman.cpp:594-619 | the entry selected for a known collision is the one in its tried slot |
| AddrManEffects.GetAddrHandsOut | src/addrman.cpp:476-495 | at most 2500 addresses and at most 23 in 100 of those known, each once; none that is withheld, in terms of its times and failures; all others if they are fewer |
| AddrManEffects.PlaceEffect | src/addrman.cpp:304-325 | an entry takes over the slot its source gives it exactly when the slot is free, or holds a withheld address, or the entry has no slot and the one there has another; one without any slot is dropped |
| AddrManEffects.AddUnroutable | src/addrman.cpp:256-259 | an address that cannot be routed changes nothing |
| AddrManEffects.AddKnown | src/addrman.cpp:270-302 | a repeated announcement adds services, and a date that is newer by more than the interval and the penalty; it gains a slot exactly when it is news, the entry is not tried and has fewer than eight, the draw is won, and the slot is free or holds a withheld address; nothing else changes |
| AddrManEffects.AddUnknown | src/addrman.cpp:299-325 | a new address gets an id, and its one slot exactly when that is free, or holds a withheld address or one with another slot; otherwise it is not kept; nothing else changes |
| AddrManEffects.FailureCountsOnce | src/addrman.cpp:329-349 | a failure counts only if none was counted since the last success of any peer, so a second one in a row does not; only the entry changes |
| AddrManEffects.ConnectedEffect | src/addrman.cpp:497-515 | the date of a connected peer lags by at most twenty minutes, a recent one is kept, and nothing else changes |
| AddrManEffects.SetServicesEffect | src/addrman.cpp:517-533 | the services of a known address are replaced and nothing else changes |
| AddrManager.AddrMan.constructor | src/addrman.h:456-483 | empty tables and indexes, valid |
| AddrManager.AddrMan.SwapRandom | src/addrman.cpp:93-111 | the array code computes the model step; its assertions hold |
| AddrManager.AddrMan.Delete | src/addrman.cpp:113-125 | refines the model; none of the three assertions can fail |
| AddrManager.AddrMan.ClearNew | src/addrman.cpp:127-140 | refines the model; the reference-count assertion cannot fail |
| AddrManager.AddrMan.MakeTried | src/addrman.cpp:142-188 | refines the model; the assertions about the emptied slot and the occupied slot cannot fail |
| AddrManager.AddrMan.Evict | src/addrman.cpp:161-182 | refines the model step that moves the displaced entry back |
| AddrManager.AddrMan.Replace | src/addrman.cpp:316-319 | refines clearing a new slot and putting the entry there |
| AddrManager.AddrMan.Unlist | src/addrman.cpp:144-154 | refines the model step that takes the entry out of every new slot; the asserted count of zero is reached |
| AddrManager.AddrMan.Find | src/addrman.cpp:68-79 | finds the id of a network address, if there is one |
| AddrManager.AddrMan.FindNewBucket | src/addrman.cpp:219-234 | the probe from a random bucket finds a slot of any new entry, so Good_ never gives up for lack of one |
| AddrManager.AddrMan.Good | src/addrman.cpp:190-254 | refines the model operation, for every random start of the probe |
| AddrManager.AddrMan.Attempt | src/addrman.cpp:329-349 | refines the model operation |
| AddrManager.AddrMan.Connected | src/addrman.cpp:497-515 | refines the model operation |
| AddrManager.AddrMan.SetServices | src/addrman.cpp:517-533 | refines the model operation |
| AddrManager.AddrMan.Place | src/addrman.cpp:305-325 | refines the second half of Add_ |
| AddrManager.AddrMan.Create | src/addrman.cpp:81-91 | refines the model operation and returns the id used |
| AddrManager.AddrMan.Factor | src/addrman.cpp:292-295 | two to the number of references |
| AddrManager.AddrMan.AdmitNew | src/addrman.cpp:298-303 | refines creating the entry with the penalised time, counted but in no slot yet |
| AddrManager.AddrMan.Add | src/addrman.cpp:256-327 | refines the model operation; the result says whether the address was unknown |
| AddrManager.AddrMan.GetAddr | src/addrman.cpp:476-495 | refines the model operation: same shuffle, same list |
| AddrManager.AddrMan.ResolveCollisions | src/addrman.cpp:535-592 | refines the ascending walk over the remembered collisions |
| AddrManager.AddrMan.ResolveCollision | src/addrman.cpp:537-591 | refines resolving one collision, whose outcome AddrManEffects.ResolveEffect states in terms of the times of both entries |
| AddrManager.AddrMan.SelectTriedCollision | src/addrman.cpp:594-619 | refines the model; gives an entry exactly when the collision chosen is still known, and that entry is tried, so the lookup never misses |
| AddrManCheck.Check | src/addrman.cpp:399-473 | returns zero exactly when all of its conditions hold of the tables |
| AddrManCheck.CheckEntries | src/addrman.cpp:407-432 | no error exactly when every entry is in order; collects the tried ids and the reference counts |
| AddrManCheck.CheckTried | src/addrman.cpp:438-450 | no error exactly when every tried slot holds its own entry; leaves the tried ids without slot |
| AddrManCheck.CheckNew | src/addrman.cpp:452-463 | no error exactly when every new slot is in order and no entry has more slots than references |
| AddrManCheck.InvChecked | src/addrman.cpp:399-473 | the invariant, with a nonzero key, implies everything the self-check demands |
| AddrManSerial.Serialize | src/addrman.h:300-348 | writes the code of the state, entries named by rank; neither assertion on the counts can fail |
| AddrManSerial.SaveNew | src/addrman.h:314-324 | new entries in order of id, each with its rank |
| AddrManSerial.SaveTried | src/addrman.h:325-333 | tried entries in order of id after the new ones |
| AddrManSerial.SaveBuckets | src/addrman.h:334-347 | the rows of the new table, by rank |
| AddrManSerial.Unserialize | src/addrman.h:350-454 | what was saved from a valid state loads into a valid one with the same tables, and entries that agree on address, date, services, source, last success, failures, table and references, up to ids; the times of the last tries are zero; a wrong key size or counts beyond the tables are refused |
| AddrManSerial.LoadNew | src/addrman.h:379-397 | new entries get the ids 0 to nNew - 1 |
| AddrManSerial.LoadTried | src/addrman.h:399-418 | tried entries take their slots; none is lost when the stream comes from a valid state |
| AddrManSerial.StoreTried | src/addrman.h:402-416 | an entry takes its tried slot unless it is occupied |
| AddrManSerial.LoadRow | src/addrman.h:422-435 | the entries of one saved row are listed again in their slots |
| AddrManSerial.LoadBuckets | src/addrman.h:420-436 | all saved rows are listed again |
| AddrManSerial.Prune | src/addrman.h:438-448 | exactly the new entries without a slot go, the others stay but for their place in the random order; when there are none, nothing changes |
| AddrManSerial.LoadBody | src/addrman.h:379-453 | the part after the header: the same tables and entries field by field up to ids, and a valid state |
| AddrManSerial.Clear | src/addrman.h:456-478 | everything is reset but the remembered collisions |
| AddrManSerial.ClearedInv | src/addrman.h:456-478 | a cleared manager satisfies the invariant if and only if no collision was remembered |
| AddrManSerial.RivalsCollide | src/addrman.cpp:190-254 | two new addresses that compete for one tried slot, added and found good: the second is remembered as a collision |
| AddrManSerial.StaleCollision | src/addrman.cpp:594-619 | if the manager is then cleared and the addresses added again, the collision is known and its tried slot empty, so selecting it looks up an id that does not exist |
| AddrManSerial.RivalsExist | src/addrman.cpp:594-619 | hashes and addresses for which this happens |
| AddrManSerial.CountsFit | src/addrman.h:371-377 | the saved counts never exceed the size of the tables, so the reader never rejects them |
| AddrManSerial.IdsComplete | src/addrman.h:314-333 | the saved list names every entry once |
| AddrManSerial.IdsSplit | src/addrman.h:314-333 | new entries come first; their numbers are nNew and nTried |
| AddrManSerial.ReloadedSame | src/addrman.h:379-448 | entries loaded under new ids agree field by field with those saved, the tables are the same up to the renaming, and counters and reference counts agree |
| AddrManSerial.ReloadedInv | src/addrman.h:379-448 | a reloaded state satisfies the invariant |
| AddrManSerial.SavedFormat | src/addrman.h:272-313 | the stream starts with version 1, the key and the counts, and the number of new buckets XOR 2^30; then each entry with its six saved fields, new ones first, by id |
| Coins.OverlayFetch | src/coins.cpp:41-56 | caching a coin of the parent changes neither the coins meant nor the truth of the flags |
| Coins.OverlayUncache | src/coins.cpp:211-218 | dropping a clean entry changes neither |
| Coins.OverlayPut | src/coins.cpp:67-86 | an entry with an unspent coin acts as a map update |
| Coins.OverlaySpend | src/coins.cpp:99-113 | spending acts as removal, whether the entry is erased or marked |
| Coins.FreshDuty | src/coins.cpp:72-83 | adding as fresh and then erasing acts as removal if and only if the parent lacks the coin |
| Coins.MergedOverlay | src/coins.cpp:146-202 | merging a child into its parent denotes what the child denoted on top of the parent, and the flags stay true |
| Coins.NoneMisapplied | src/coins.cpp:170-176 | true flags in the child rule out the FRESH misapplied error |
| Coins.CoinsDatabase.BatchWrite | src/txdb.cpp:83-142 | dirty entries are written or erased, others ignored; the best block is recorded |
| Coins.CoinsViewCache.constructor | src/coins.cpp:35 | an empty cache denotes its base |
| Coins.CoinsViewCache.FetchCoin | src/coins.cpp:41-56 | fills caches of the whole stack without changing what any of them denotes |
| Coins.CoinsViewCache.GetCoin | src/coins.cpp:58-65 | the denoted coin, if there is one |
| Coins.CoinsViewCache.AccessCoin | src/coins.cpp:117-124 | the denoted coin, or a spent one |
| Coins.CoinsViewCache.HaveCoin | src/coins.cpp:126-129 | whether the coin is denoted |
| Coins.CoinsViewCache.Uncache | src/coins.cpp:211-218 | erases exactly an entry without flags; the coins denoted stay |
| Coins.CoinsViewCache.AddCoin | src/coins.cpp:67-86 | a map update; throws exactly when an unspent cached coin would be overwritten without leave, and then the usage count is right only if that coin used nothing; otherwise the cache stays valid exactly unless a coin that only the base has is overwritten without leave |
| Coins.CoinsViewCache.SpendCoin | src/coins.cpp:99-113 | removal; gives the coin removed |
| Coins.CoinsViewCache.GetBestBlock | src/coins.cpp:136-140 | the own best block, or the base's if there is none |
| Coins.CoinsViewCache.SetBestBlock | src/coins.cpp:142-144 | sets it; zero means the base's |
| Coins.CoinsViewCache.BatchWrite | src/coins.cpp:146-202 | throws exactly on a misapplied FRESH flag; with true flags in the child it never throws, and denotes the child's coins on top of its own |
| Coins.CoinsViewCache.BatchWriteOne | src/coins.cpp:148-198 | one entry of the child is merged, and the usage count stays exact |
| Coins.CoinsViewCache.Flush | src/coins.cpp:204-209 | the base denotes what the cache denoted, the cache is empty, coins and usage agree |
| Coins.AddCoins | src/coins.cpp:88-97 | throws exactly when, unchecked and not for a coinbase, an output is unspent in the cache; otherwise every output whose script can be satisfied is there with its value and script, this height and the kind of the transaction, and no other coin changes; it ends well with a valid cache exactly when it is checked, or for a coinbase, or no such output existed |
| CheckQueue.InitInv | src/checkqueue.h:131 | the initial state satisfies the protocol invariant |
| CheckQueue.BatchLength | src/checkqueue.h:102-107 | a batch is never empty and never longer than the queue |
| CheckQueue.BatchIsShare | src/checkqueue.h:102-107 | a batch is the share of each thread if all that are here or wait took one more, but at most the batch size and at least one |
| CheckQueue.FromBackOrder | src/checkqueue.h:109-114 | checks are taken from the back of the queue, the last one first |
| CheckQueue.JoinInv | src/checkqueue.h:75-86 | entering the loop keeps the invariant |
| CheckQueue.SettleCounted | src/checkqueue.h:77-82 | subtracting a finished batch keeps nTodo equal to queued checks plus checks in unfinished batches |
| CheckQueue.TakeInv | src/checkqueue.h:102-117 | taking a batch keeps the invariant |
| CheckQueue.RunInv | src/checkqueue.h:118-122 | running one check keeps the invariant |
| CheckQueue.AddInv | src/checkqueue.h:146-158 | queueing checks and waking workers keeps the invariant |
| CheckQueue.AddWakes | src/checkqueue.h:146-158 | the checks go on top; adding several wakes every waiting worker, adding one wakes one that waits; no other thread changes |
| CheckQueue.ApplyInv | src/checkqueue.h:66-158 | every step of every thread keeps the invariant |
| CheckQueue.RunsKeepInv | src/checkqueue.h:66-158 | it holds after every interleaving of master and any number of workers |
| CheckQueue.VerdictFair | src/checkqueue.h:88-97 | when the master returns, its verdict is true exactly when all checks added in the round pass, and then all of them were run; no batch is in hand |
| CheckQueue.VerdictsFair | src/checkqueue.h:88-97 | so is every verdict of every run; no failure leaks into the next round |
| CheckQueue.NoLostWakeUp | src/checkqueue.h:98-100 | a master that sleeps waits for an empty queue with work outstanding, and some worker is running |
| CheckQueue.NeverStuck | src/checkqueue.h:66-124 | in every state reached with the master in Wait, some thread can run a check, finish a batch or wake |
| CheckQueue.StepsFall | src/checkqueue.h:66-124 | while the master is in Wait, every step but a wait that ends for no reason lowers one measure |
| CheckQueue.RoundIsShort | src/checkqueue.h:66-124 | so the number of steps of a round is bounded by the state it starts in, however the threads are scheduled |
| BlockAssembly.SumScaled | src/miner.cpp:286-294 | the weight of a set of transactions is at most four times its size |
| BlockAssembly.UpdatePackagesForAdded | src/miner.cpp:335-360 | each descendant outside the added set loses exactly the sizes and sigops of its added ancestors, from its own totals or the mempool's, and their fees: of one as modified if it is new in the side index, of the others as paid; all other entries stay |
| BlockAssembly.UpdateDescendants | src/miner.cpp:340-357 | one round of it: the descendants of one added transaction |
| BlockAssembly.UpdatedModOk | src/miner.cpp:335-360 | the side index stays right: every entry has its totals less those of its ancestors in the block, all of them unless it could not be added before, and what is in neither the index nor the block has none there or could not be added before |
| BlockAssembly.CandidateBounds | src/miner.cpp:458-465 | the totals of a candidate are no less than what adding it would add, and no more than the mempool caches |
| BlockAssembly.UntouchedTotals | src/miner.cpp:458-460 | the totals of a candidate without an ancestor in the block are those the mempool caches, fees included |
| BlockAssembly.CandidateExact | src/miner.cpp:335-360 | unless it could not be added before, the totals of a candidate are exactly what adding it would add; its fees too if no fee in the block was modified, and otherwise up to what was modified of all its ancestors in the block but one |
| BlockAssembly.RateIsLower | src/txmempool.h:299-315 | an entry is sorted by the lower of its own fee rate and that of its package |
| BlockAssembly.NotAfterTransitive | src/txmempool.h:282-297 | the order by rates, compared by products and then by identity, is transitive |
| BlockAssembly.BetterTotal | src/txmempool.h:282-297 | of two different candidates exactly one comes first |
| BlockAssembly.SortForBlock | src/miner.cpp:377-386 | a permutation of the package, by ancestor count |
| BlockAssembly.AncestorBefore | src/miner.h:94-101 | an ancestor sorts before its descendant |
| BlockAssembly.AppendOrdered | src/miner.cpp:511-519 | appending a sorted package keeps every transaction after its ancestors and listed once |
| BlockAssembly.ClosedMore | src/miner.cpp:491-497 | the block with the package holds all ancestors of its transactions |
| BlockAssembly.CachedBounds | src/miner.cpp:458-460 | the totals the mempool caches bound what adding the package would add |
| BlockAssembly.BlockAssembler.constructor | src/miner.cpp:70-107 | an empty valid block with the weight and sigops reserved for the coinbase; the weight limit is the option, kept between 4000 and 3996000 |
| BlockAssembly.BlockAssembler.TestPackage | src/miner.cpp:286-294 | both limits, strictly |
| BlockAssembly.BlockAssembler.TestPackageTransactions | src/miner.cpp:300-314 | every transaction is final and allowed by the witness and creation-transaction switches |
| BlockAssembly.BlockAssembler.OnlyUnconfirmed | src/miner.cpp:273-284 | what is not in the block yet |
| BlockAssembly.BlockAssembler.AddToBlock | src/miner.cpp:316-333 | list, set and all counters move together |
| BlockAssembly.BlockAssembler.AddSorted | src/miner.cpp:515-519 | a whole package is added and erased from the side index; the counters equal the sums over the block |
| BlockAssembly.BlockAssembler.AddPackage | src/miner.cpp:508-524 | the block stays valid: ancestors first, once each, within weight and sigops limits; the side index stays right |
| BlockAssembly.BlockAssembler.TryPackage | src/miner.cpp:472-524 | the package is added, or nothing changes; either way the transaction is settled: in the block, in a package with an inadmissible one, or too large by the mempool's totals |
| BlockAssembly.BlockAssembler.Consider | src/miner.cpp:472-524 | a candidate that is added leaves fewer transactions outside; one that is not leaves the block as it is and the side index; either way it is settled |
| BlockAssembly.BlockAssembler.Pick | src/miner.cpp:428-465 | the candidate is the next entry of the index or the best of the side index, and neither the one nor any of the other comes before it |
| BlockAssembly.BlockAssembler.Round | src/miner.cpp:472-524 | what a round does to the side index, the failed set and the count of failures in a row |
| BlockAssembly.BlockAssembler.AddPackageTxs | src/miner.cpp:398-526 | the block stays valid whichever way the loop stops, and is made of packages each of which had its corrected totals and paid the minimum fee for its size; when candidates run out, every transaction left out has an inadmissible one in its package or does not fit by the mempool's totals; it gives up only close to the weight limit and after more than 1000 failures in a row; it stops for fees only with a candidate whose corrected totals pay too little, and if the index is sorted by score, nothing that could still be added comes before it; the assertion on inBlock holds |
| CuckooCache.BitFlags.constructor | src/cuckoocache.h:61-68 | all flags set; there is memory for them exactly up to 2^32 - 8 flags, beyond which the padded size wraps to nothing |
| CuckooCache.BitFlags.Set | src/cuckoocache.h:92-95 | sets exactly one packed flag |
| CuckooCache.BitFlags.Unset | src/cuckoocache.h:103-106 | clears exactly one packed flag |
| CuckooCache.BitFlags.IsSet | src/cuckoocache.h:113-116 | reads the packed flag |
| CuckooCache.LocScales | src/cuckoocache.h:243-253 | the hash as a fraction of 2^32, times the size, rounded down: always in the table |
| CuckooCache.LiveWrite | src/cuckoocache.h:411-413 | writing a slot exchanges exactly one live element |
| CuckooCache.YoungWrite | src/cuckoocache.h:411-435 | writing a slot moves the count of the youngest epoch by exactly what enters and leaves |
| CuckooCache.Cache.constructor | src/cuckoocache.h:340-353 | nothing inserted and nothing live; at least two slots, and an epoch of 45 in 100 of them as long as that product fits 32 bits; valid exactly up to 2^32 - 8 elements |
| CuckooCache.Cache.AllowErase | src/cuckoocache.h:266-269 | sets the collection flag of one slot |
| CuckooCache.Cache.Contains | src/cuckoocache.h:467-477 | apart from the default element, true exactly for elements in the table, which were all inserted; erasing takes exactly the element out of the live ones |
| CuckooCache.Cache.CountYoung | src/cuckoocache.h:297-300 | counts the live elements of the youngest epoch |
| CuckooCache.Cache.AgeEpochs | src/cuckoocache.h:306-310 | releases what is not of the youngest epoch and ages the rest |
| CuckooCache.Cache.EpochCheck | src/cuckoocache.h:289-321 | a full youngest epoch releases exactly the older elements and ages the others; the next count is due when the worst case would exceed the epoch, exactly as computed; room for one more is left |
| CuckooCache.Cache.FindCollected | src/cuckoocache.h:407-410 | the first of the eight slots that may be collected, if there is one |
| CuckooCache.Cache.NextSlot | src/cuckoocache.h:430 | the slot after the last one used, cyclically, the second one at first |
| CuckooCache.Cache.Put | src/cuckoocache.h:411-413 | fills and protects a slot, keeps the table consistent; live elements and the youngest epoch change by exactly what enters and leaves |
| CuckooCache.Cache.Swap | src/cuckoocache.h:431-435 | exchanges an element and its epoch with a protected slot |
| CuckooCache.Cache.FindSlot | src/cuckoocache.h:398-405 | finds the element wherever it is |
| CuckooCache.Cache.Displace | src/cuckoocache.h:406-439 | table, epochs and flags after the exchanges, exactly: each is of an element none of whose slots may be collected, with its slot after the one it came from; after fewer than the limit what is in hand goes to the first slot it may have, at the limit it is lost |
| CuckooCache.Cache.Insert | src/cuckoocache.h:392-440 | beside what the epoch check releases, at most one element is lost: none if e is in the table, or has a slot that may be collected, and then e is live; otherwise only after as many exchanges as the limit, none of which met an element with such a slot |
| PartialMerkle.InWidth | src/merkleblock.h:66-68 | a node exists exactly when its first transaction does |
| PartialMerkle.WidthHalf | src/merkleblock.h:66-68 | rows halve, rounding up |
| PartialMerkle.HashesDiffer | src/merkleblock.cpp:40-58 | with an injective hash and distinct txids, nodes of one row have different hashes |
| PartialMerkle.BuildBounds | src/merkleblock.h:36-40 | hashes are at most the transactions below the node and at most 1 + matches * height; bits are at least as many as hashes |
| PartialMerkle.BitCount | src/merkleblock.h:47 | bits are twice the hashes, less one, plus the single-child nodes walked through |
| PartialMerkle.BitBound | src/merkleblock.h:47 | the bound of 2N - 1 bits holds if and only if no match lies below a node with a single child |
| PartialMerkle.ThreeTransactions | src/merkleblock.h:47 | three transactions with the third matched: four bits, two hashes |
| PartialMerkle.WalkBuild | src/merkleblock.cpp:78-114 | walking what was built finds the true hash and the chosen transactions, uses exactly the stored data, and goes bad exactly on equal siblings |
| PartialMerkle.NoTwins | src/merkleblock.cpp:101-107 | with an injective hash and distinct txids no siblings are equal |
| PartialMerkle.WalkAuthentic | src/merkleblock.cpp:78-114 | whatever the data, a walk that arrives at a true hash found only true positions and txids, in order |
| PartialMerkle.RoundTrip | src/merkleblock.cpp:116-163 | a padded proof is accepted exactly when the block has at most 16666 transactions and no two children walked have one hash; the root, the chosen transactions and their positions come back |
| PartialMerkle.Authentic | src/merkleblock.cpp:132-163 | with an injective hash, an accepted proof with the right length and root names only true pairs, in order |
| PartialMerkle.NothingToSpare | src/merkleblock.cpp:156-161 | a proof that is accepted is not accepted with another hash or another byte of bits at its end |
| PartialMerkle.EarlyTests | src/merkleblock.cpp:140-145 | if all hashes were consumed, there were no more of them than transactions or than bits |
| PartialMerkle.RowIs | src/consensus/merkle.cpp:48-59 | the nodes of one height are a row of the computation of the block's root |
| PartialMerkle.ComputeMerkleRoot | src/consensus/merkle.cpp:46-63 | the root of the block is the one that a proof leads to; the flag is set exactly when somewhere two neighbours that are hashed together are equal |
| PartialMerkle.MutatedRefused | src/consensus/merkle.cpp:46-63 | the flag is set exactly when the proof for all transactions meets equal children; without it no proof does |
| PartialMerkle.Height | src/merkleblock.cpp:121-124 | the first row of width one |
| PartialMerkle.PartialMerkleTree.constructor | src/merkleblock.cpp:116-128 | stores exactly the specified bits and hashes |
| PartialMerkle.PartialMerkleTree.Null | src/merkleblock.cpp:130 | no transactions, and bad |
| PartialMerkle.PartialMerkleTree.CalcHeight | src/merkleblock.cpp:121-124 | the loop finds that row |
| PartialMerkle.PartialMerkleTree.TraverseAndBuild | src/merkleblock.cpp:60-76 | appends exactly the bits and hashes of the subtree |
| PartialMerkle.PartialMerkleTree.TraverseAndExtract | src/merkleblock.cpp:78-114 | refines the specified walk, cursors, matches and bad flag included |
| PartialMerkle.PartialMerkleTree.ExtractMatches | src/merkleblock.cpp:132-163 | the root exactly when the proof is accepted, otherwise zero; positions are appended to those given |
| PartialMerkle.PartialMerkleTree.PackBits | src/merkleblock.h:100-102 | bit p of the list is bit p mod 8 of byte p / 8, padded with zeros |
| PartialMerkle.PartialMerkleTree.UnpackBits | src/merkleblock.h:95-98 | bit p is bit p mod 8 of byte p / 8; the bad flag is cleared |
| PartialMerkle.Transmit | src/merkleblock.cpp:116-163 | with an injective hash and distinct txids, build, pack, unpack and extract give the root and the chosen transactions with their positions |
| RollingBloom.PutLane | src/bloom.cpp:271-272 | writing one bit leaves the other 63 alone |
| RollingBloom.WipeLane | src/bloom.cpp:253-260 | the mask clears exactly the lanes that carry the generation |
| RollingBloom.FastModScales | src/bloom.cpp:241-243 | the number as a fraction of 2^32, times n, rounded down: always in the range |
| RollingBloom.KeptOlder | src/bloom.cpp:247-262 | after the wipe every key at most one generation old is kept, one generation older |
| RollingBloom.KeptWritten | src/bloom.cpp:265-273 | writing newer keys takes no older key away |
| RollingBloom.SourcedWiped | src/bloom.cpp:247-262 | after a wipe, whatever is set was set by a key of the two generations before |
| RollingBloom.SourcedWritten | src/bloom.cpp:265-273 | after a key is written, whatever is set was set by it or by a recent key |
| RollingBloom.RollingBloomFilter.constructor | src/bloom.cpp:205-230 | an empty filter, each generation with half the elements, rounded up, and just enough words for the bits |
| RollingBloom.RollingBloomFilter.Reset | src/bloom.cpp:302-310 | all words zero, first generation |
| RollingBloom.RollingBloomFilter.Wipe | src/bloom.cpp:253-261 | exactly the positions that carry the number of the new generation are zero afterwards, and no others change |
| RollingBloom.RollingBloomFilter.StartGeneration | src/bloom.cpp:247-262 | the next of the three numbers; exactly what carries it is wiped; the keys of the last two generations are kept |
| RollingBloom.RollingBloomFilter.Mark | src/bloom.cpp:271-272 | one position gets the current generation |
| RollingBloom.RollingBloomFilter.Insert | src/bloom.cpp:245-274 | exactly the positions of the key carry the current generation, and beside a wipe no others change; keys within the span stay remembered |
| RollingBloom.RollingBloomFilter.Contains | src/bloom.cpp:282-294 | true exactly when every position of the key is one of a key of this generation or the two before, so for all of those keys |
| Chain.LowestOneCleared | src/chain.cpp:75 | an odd number times a power of two becomes the even number below it times that power |
| Chain.GetSkipHeight | src/chain.cpp:78-86 | strictly below the height |
| Chain.SkipFromEven | src/chain.cpp:78-86 | from an even height the lowest 1 bit is dropped |
| Chain.SkipFromOdd | src/chain.cpp:78-86 | from an odd height the lowest two 1 bits but the last one are dropped |
| Chain.BlockIndex.AncestorOfAncestor | src/chain.cpp:88-113 | ancestors of ancestors are ancestors |
| Chain.BlockIndex.GetAncestor | src/chain.cpp:88-113 | equals following parent links, null outside the range; the assertion holds |
| Chain.BlockIndex.BuildSkip | src/chain.cpp:120-124 | the skip link leads to the ancestor at the computed height, and all links below stay right |
| Chain.CChain.constructor | src/chain.h:461-465 | an empty chain |
| Chain.CChain.NextIsChild | src/chain.h:494-500 | the successor of a block of the chain is its child; only the tip has none |
| Chain.CChain.SetTip | src/chain.cpp:16-26 | entry i is the tip's ancestor at height i, although the walk stops early |
| Chain.CChain.FindFork | src/chain.cpp:56-65 | a block of the chain at or below the given one, and none higher is; null only if there is none |
| Chain.CChain.GetLocator | src/chain.cpp:28-54 | from the block down to genesis: ancestors whose heights are one apart for the first twelve and then fall in steps that double, with genesis last; at most 12 + ceil(log2(height)) of them, on either lookup path |
| Chain.LastCommonAncestor | src/chain.cpp:264-279 | the highest common block; null exactly when the two have different first blocks; the assertion holds |
| Limbs.BaseUint.constructor | src/arith_uint256.h:33-39 | zero |
| Limbs.BaseUint.Copy | src/arith_uint256.h:41-47 | the same limbs |
| Limbs.BaseUint.Assign | src/arith_uint256.h:87-94 | the 64-bit value |
| Limbs.BaseUint.Not | src/arith_uint256.h:68-74 | 2^n - 1 minus the value |
| Limbs.BaseUint.Negated | src/arith_uint256.h:76-83 | the negative modulo 2^n |
| Limbs.BaseUint.Add | src/arith_uint256.h:134-144 | the sum modulo 2^n, also when both operands are one object; no 64-bit overflow |
| Limbs.BaseUint.Subtract | src/arith_uint256.h:146-150 | the difference modulo 2^n |
| Limbs.BaseUint.Increment | src/arith_uint256.h:172-179 | one more, modulo 2^n |
| Limbs.BaseUint.Decrement | src/arith_uint256.h:189-196 | one less, modulo 2^n |
| Limbs.BaseUint.MultiplyWord | src/arith_uint256.cpp:57-67 | the product modulo 2^n; no 64-bit overflow |
| Limbs.BaseUint.Multiply | src/arith_uint256.cpp:69-83 | the product modulo 2^n; no 64-bit overflow |
| Limbs.BaseUint.AddRow | src/arith_uint256.cpp:75-79 | one row of the product |
| Limbs.BaseUint.CompareTo | src/arith_uint256.cpp:111-121 | the sign of the difference |
| Limbs.BaseUint.ShiftLeft | src/arith_uint256.cpp:23-38 | multiplication by a power of two, modulo 2^n, for any shift |
| Limbs.BaseUint.ShiftRight | src/arith_uint256.cpp:40-55 | division by a power of two, for any shift |
| Limbs.BaseUint.Divide | src/arith_uint256.cpp:85-109 | floor division; the error exactly for a zero divisor |
| Limbs.BaseUint.TryBit | src/arith_uint256.cpp:99-106 | one quotient bit: quotient times divisor plus rest stays the dividend |
| Limbs.BaseUint.Bits | src/arith_uint256.cpp:173-186 | the position of the highest bit plus one |
| Limbs.ShiftedLeft | src/arith_uint256.cpp:23-38 | limbs shifted piecewise have the shifted value |
| Limbs.ShiftedRight | src/arith_uint256.cpp:40-55 | limbs shifted piecewise have the shifted value |
| Limbs.ProductAll | src/arith_uint256.cpp:69-83 | the accumulated rows are the product modulo 2^n |
| Difficulty.SetCompact | src/arith_uint256.cpp:206-224 | the meaning modulo 2^256; negative exactly for a nonzero number with the sign bit; overflow exactly when the number is at least 2^256 |
| Difficulty.OverflowIs | src/arith_uint256.cpp:219-222 | the comparisons on word and size are exactly mantissa * 256^(size - 3) >= 2^256 |
| Difficulty.KnownTargets | src/arith_uint256.cpp:207-224 | what five compact words mean |
| Difficulty.GetCompact | src/arith_uint256.cpp:226-247 | the specified compact form, for either sign; both assertions hold |
| Difficulty.RawMantissa | src/arith_uint256.cpp:228-235 | the top three bytes before the sign bit is considered |
| Difficulty.GetLow64 | src/arith_uint256.h:244-248 | the value modulo 2^64 |
| Difficulty.MeaningOfCompact | src/arith_uint256.cpp:206-247 | decoding the compact form clears the low bytes and nothing else |
| Difficulty.CompactStable | src/arith_uint256.cpp:206-247 | encoding the decoded number gives the same word |
| Difficulty.CompactRoundTrip | src/arith_uint256.cpp:206-247 | for every 256-bit number: fits 32 bits, exact up to cleared bytes, neither flag set, stable |
| Difficulty.GetNumHashes | src/chain.cpp:225-243 | floor(2^256 / (target + 1)), or zero when the target is zero, negative or overflows, or the block was not mined by hashing |
| Difficulty.Work | src/chain.cpp:238-242 | the complement over one more, plus one, is that quotient; no division by zero |
| Difficulty.NotAllOnes | src/chain.cpp:238-242 | a target in compact form is never 2^256 - 1 |
| GcsFilter.GolombRiceEncode | src/blockfilter.cpp:18-33 | appends the unary quotient, a zero and the low bits, although written 64 ones at a time |
| GcsFilter.GolombRiceDecode | src/blockfilter.cpp:35-47 | reads one number, or runs out of data |
| GcsFilter.DecodeEncode | src/blockfilter.cpp:18-47 | decoding undoes encoding for every 64-bit value and uses exactly its bits |
| GcsFilter.GolombOfEleven | src/blockfilter.cpp:18-33 | the codes of two numbers, bit by bit |
| GcsFilter.MapIntoRange | src/blockfilter.cpp:54-78 | the 32-bit halves give (x * n) / 2^64; no intermediate exceeds 64 bits |
| GcsFilter.HashToRange | src/blockfilter.cpp:80-86 | the 64-bit hash as a fraction, of the range: rounded down |
| GcsFilter.BuildHashedSet | src/blockfilter.cpp:88-97 | sorted, with each hash listed once for each element that has it |
| GcsFilter.EncodeAll | src/blockfilter.cpp:146-151 | codes the differences of the sorted values |
| GcsFilter.DecodeStream | src/blockfilter.cpp:146-151 | the coded differences give the sorted list back |
| GcsFilter.FromElements | src/blockfilter.cpp:126-154 | refused exactly at 2^32 elements; otherwise the code of the sorted hashes of the elements, each as often as elements have it, padded to whole bytes |
| GcsFilter.FromEncoding | src/blockfilter.cpp:103-124 | accepted exactly when it codes n numbers with less than a byte left; exactly n values were read |
| GcsFilter.ReadBack | src/blockfilter.cpp:103-154 | a filter that was built is read back, value for value |
| GcsFilter.MatchInternal | src/blockfilter.cpp:156-186 | a yes means a common value; with values in order, a common value means a yes |
| GcsFilter.Match | src/blockfilter.cpp:188-192 | true exactly when some element has the same hash; never false for an element of the set |
| GcsFilter.MatchAny | src/blockfilter.cpp:194-198 | true exactly when some query would match on its own |
| CompactBlocks.WriteIndexes | src/blockencodings.h:63-66 | the first index, and then each difference less one, in unsigned 64 bits |
| CompactBlocks.ReadIndexes | src/blockencodings.h:42-61 | strictly increasing 16-bit indexes with these gaps; fails only if no such list exists |
| CompactBlocks.IndexRoundTrip | src/blockencodings.h:38-68 | reading gives the written list back exactly if it is strictly increasing, and nothing else otherwise |
| CompactBlocks.PlacePrefilled | src/blockencodings.cpp:59-75 | succeeds exactly when every given transaction exists and its place is 16-bit and not beyond the short ids; each is then in place, and nothing else |
| CompactBlocks.AssignSlots | src/blockencodings.cpp:81-103 | the search stays within the slots; short ids are one to one with the slots not given; fails exactly on equal ids or a crowded table |
| CompactBlocks.Search | src/blockencodings.cpp:109-164 | slots are filled only with transactions of their short id from the lists searched; one that alone has a short id is found, or stays where it was found before, despite the early exit; the count equals the slots filled |
| CompactBlocks.PartiallyDownloadedBlock.constructor | src/blockencodings.h:204 | no header, no slots |
| CompactBlocks.PartiallyDownloadedBlock.InitData | src/blockencodings.cpp:49-169 | each status exactly under its condition; every transaction at hand that alone has a short id of the message is in its slot; mempool_count equals the slots filled that were not given |
| CompactBlocks.PartiallyDownloadedBlock.FillBlock | src/blockencodings.cpp:177-219 | invalid exactly when the number of missing transactions is wrong; otherwise they fill the empty slots in order and the state is cleared |
| CompactBlocks.FoundIsReal | src/blockencodings.cpp:109-164 | if no other transaction at hand has the id of one of the block, every filled slot holds the block's own |
| CompactBlocks.FoundAtHand | src/blockencodings.cpp:109-164 | without impostors and repetitions, every transaction of the block that is at hand and was not given is found |
| CompactBlocks.MergeIsBlock | src/blockencodings.cpp:183-191 | with the block's transactions in the empty slots the block comes out |
| CompactBlocks.Announce | src/blockencodings.cpp:19-29 | the message the sender makes stands for the block |
| CompactBlocks.Receive | src/blockencodings.cpp:49-219 | taking in a message that stands for the block, then filling, gives exactly the sender's list; with a mempool without repetitions, what is asked for is exactly what was not given and is not at hand |
| Hive.SelectMature | src/miner.cpp:921-930 | exactly the mature transactions in order, and the number of their dwarves |
| Hive.FillBin | src/miner.cpp:955-978 | one bin takes the next dwarves in order: all that are left, or exactly as many as fit |
| Hive.MakeBins | src/miner.cpp:950-980 | the bins hold every dwarf of every transaction once, in order; all but the last hold exactly the given number |
| Hive.BinCount | src/miner.cpp:946-980 | with enough dwarves per bin there are no more bins than threads |
| Hive.WorkIs | src/miner.cpp:822-853 | a thread goes through exactly the dwarves of its bin |
| Hive.StepInv | src/miner.cpp:795-853 | every step of every thread and an abort at any time keep the invariant |
| Hive.RunsKeepInv | src/miner.cpp:795-1018 | it holds after every interleaving |
| Hive.Verdict | src/miner.cpp:1016-1038 | after joining: neither abort nor solution means every item of every thread was hashed and missed; a solution is an item of some thread that meets the target |
| Hive.NothingMissed | src/miner.cpp:950-1038 | with no abort and no solution, no dwarf of any mature transaction meets the target |
| Hive.SolutionIsReal | src/miner.cpp:950-1038 | with a solution, the stored range is in some bin and the stored number in the range: a dwarf of a mature transaction that meets the target |
| Hive.FoundIfAny | src/miner.cpp:950-1038 | without an abort, a solution is found exactly when some dwarf of a mature transaction meets the target |
| Base58.EnoughDigits | src/base58.cpp:94 | 138/100 digits and one more hold any bytes |
| Base58.EnoughBytes | src/base58.cpp:48 | 733/1000 bytes and one more hold any digits |
| Base58.AlphabetInverse | src/base58.cpp:15-33 | alphabet and table are inverse |
| Base58.MultiplyAdd | src/base58.cpp:98-108 | multiplies the buffer in place and adds; the carry assertion cannot fail |
| Base58.RebaseBack | src/base58.cpp:35-122 | changing the base and back is the identity, leading zeros included |
| Base58.Convert | src/base58.cpp:93-114 | the base 58 digits of the bytes |
| Base58.EncodeBase58 | src/base58.cpp:84-122 | a one for each leading zero, then the digits |
| Base58.ConvertWord | src/base58.cpp:47-66 | the bytes of the digits up to the next space, or failure at a character that is no digit |
| Base58.DecodeBase58 | src/base58.cpp:35-82 | accepts exactly one word of digits between spaces, and gives its bytes |
| Base58.DecodeEncoded | src/base58.cpp:35-122 | decoding undoes encoding for every byte list |
| Base58.EncodeDecoded | src/base58.cpp:35-122 | for every text that decodes, encoding the result gives its one word, which is the text itself if it has no spaces |
| Base58.EncodedMeans | src/base58.cpp:84-122 | the text is a numeral in base 58 of the number that the bytes are in base 256, with a 1 for each zero byte in front |
| Base58.KnownTexts | src/base58.cpp:84-122 | the texts of two byte lists |
| Bech32.Linear | src/bech32.cpp:80-91 | a checksum step is linear in state and symbol |
| Bech32.Injective | src/bech32.cpp:80-91 | a step is injective in its 30-bit state |
| Bech32.InjectiveSymbol | src/bech32.cpp:80-91 | a step is injective in its symbol |
| Bech32.PolyMod | src/bech32.cpp:37-94 | refines the fold of steps |
| Bech32.TimesExample | src/bech32.cpp:54-61 | the product that the comment gives as an example |
| Bech32.StepIsTimesX | src/bech32.cpp:69-92 | one step multiplies a polynomial over GF(32) by x and adds the symbol, modulo the generator of BIP 173 |
| Bech32.ModIsRemainder | src/bech32.cpp:39-94 | the word holds the remainder of the polynomial of all symbols, with a leading 1 |
| Bech32.GroupsBack | src/bech32.cpp:133-137 | the six groups of a word, fed to an empty checksum, give the word |
| Bech32.GroupsOf | src/bech32.cpp:133-137 | and conversely |
| Bech32.CreateChecksum | src/bech32.cpp:128-139 | the groups of the checksum of the padded list |
| Bech32.VerifyChecksum | src/bech32.cpp:118-125 | whether the checksum is one |
| Bech32.OnlyChecksum | src/bech32.cpp:118-139 | six symbols make a list valid if and only if they are its checksum |
| Bech32.ValidIsRemainderOne | src/bech32.cpp:118-125 | a list is valid exactly when its polynomial, with that of the prefix, leaves the remainder 1 |
| Bech32.SubstitutionDetected | src/bech32.cpp:118-125 | replacing one symbol of a valid list makes it invalid |
| Bech32.BurstDetected | src/bech32.cpp:118-125 | any change within six consecutive symbols of a valid list makes it invalid |
| Bech32.TranspositionDetected | src/bech32.cpp:118-125 | so does exchanging two different neighbours |
| Bech32.Encode | src/bech32.cpp:147-156 | prefix, separator, symbols and checksum |
| Bech32.Decode | src/bech32.cpp:159-190 | succeeds exactly for one case, a separator, known characters, at most 90 of them, and a right checksum |
| Bech32.DecodeEncoded | src/bech32.cpp:147-190 | decoding undoes encoding for every lower-case printable prefix within 90 characters |
| Bech32.EncodeDecoded | src/bech32.cpp:147-190 | encoding what a text decodes to gives the text in lower case |
| Bech32.Charset | src/bech32.cpp:12-13 | the character set, in order |
| Bech32.ShortestString | src/bech32.cpp:147-190 | the shortest valid string of the standard decodes to its prefix and no data, and is encoded back |

## Left out

- AddrManModel.Run: starts from construction and has no Clear in it, since Clear keeps collisions; ids and times are unbounded integers.
- AddrManager.AddrMan.ResolveCollisions: reads the clock once for each collision resolved, where the code reads it again for each comparison.
- AddrManager.AddrMan.ResolveCollision: takes that one reading as a parameter.
- Choosing an address to connect to (`Select_`) and `GetChance`: random probing and floating point.
- AddrManSerial.Unserialize: of streams that no valid state was saved to it says only what is refused, and that no index or lookup fails; the old formats are read but not specified.
- Coins.CoinsDatabase.BatchWrite: one atomic write; splitting into batches and crash recovery are not modelled.
- Replacing the backend of a coin cache, cursors and size estimates: they do not touch the entries or flags that the results are about.
- CheckQueue: interruption of threads and the scope guard around a round.
- BlockAssembly.BlockAssembler.AddPackageTxs: scores are compared exactly, where the code multiplies in floating point; that the block is the best possible is not claimed. A package counts as not fitting by the mempool's totals, which still include ancestors already in the block.
- Creating the coinbase, validating the template and signing: they depend on most of the node.
- CuckooCache.Cache.constructor: the depth limit is a parameter, since it comes from a floating-point logarithm.
- CuckooCache: concurrent erasure; the flags are set in one thread.
- RollingBloom.RollingBloomFilter.constructor: the number of hash functions and of bits are parameters, since they come from floating-point formulas; false-positive rates are not claimed.
- Chain: number of steps of a skip-list lookup, chain work with the Hive bonus, and lookups by time.
- PartialMerkle: 32-bit widths of counts and shifts; extraction first bounds the number of transactions by 16666.
- Limbs: hexadecimal text, conversion to double and bitwise operators on whole numbers.
- GcsFilter.FromEncoding: the count in front of the bits is a parameter, and streams are lists of bits; a filter whose sums wrap past 2^64 is read, but its values need not be in order.
- GcsFilter.MatchInternal: a no is specified only for values in order, which the values of every filter built from elements are; read data whose sums wrap can be out of order.
- GcsFilter.BuildHashedSet: sorting is an insertion into a list rather than the library's sort.
- CompactBlocks.PartiallyDownloadedBlock.InitData: is not specified between 65536 and 100000 transactions, where 16-bit positions would wrap; deserialization rules such messages out (src/blockencodings.h:189-190); a crowded bucket of the hash table is a parameter. Two transactions with one witness hash are one.
- CompactBlocks.PartiallyDownloadedBlock.FillBlock: the outcome of checking the block is a parameter. The count of extra transactions is an integer that can fall below zero, where the code wraps.
- Hive.BinCount: takes an exact number of dwarves per bin; the code rounds a float up.
- Hive: wallet access, the proof script and the checks before a round.
- Base58: the variants with a hash appended.
- Bech32.DecodeEncoded: prefixes with capitals are not covered, since they never decode to themselves.
- Networking, storage, logging, configuration, RPC, wallet and user interface: I/O and plumbing.
- Cryptographic primitives: foreign code or bit mixing without a useful specification.
- Ban lists, bounded maps, amount compression, key stores and chain parameters: lookups and tables with no property across operations.
