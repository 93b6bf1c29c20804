# Verified models of the node's core structures

This project models, in Dafny, the parts of the Resistance node (a Zcash and Bitcoin descendant) whose correctness
rests on invariants that no single function shows: the layered coins cache, the address manager, the parallel check
queue, partial Merkle trees, big-integer arithmetic with compact targets and work, the text and disk codecs, the
mempool's weighted eviction tree, the block skip list and active chain, message framing and the emission schedule.

`dafny verify dfyconfig.toml` checks the whole project. Objects that the node changes in place are classes with the
same fields; loops are loops with invariants; pure code is functions. Each operation is proved against a specification
that does not mention how it works, and the main theorems are about whole runs, whole streams or all inputs:

- **Coins cache** (`Coins`, `CoinsLayer`, `CoinsCache`, `AnchorHistory`). `RunAndFlush`: for any sequence of operations on a cache, what
  the base shows after the flush is what the operations made of the view. DIRTY and FRESH flags keep an inductive
  invariant between the two layers, which makes the assert in `BatchWrite` unreachable. Three promises turn out to hold
  only on a condition, which is stated exactly: a flush into the database is invisible for anchors iff nobody popped the
  empty tree's anchor (`DiskFlushAnchors`, with `FlushBringsBackEmptyAnchor` showing the failure), popping undoes
  pushing iff the pushed root was best already or no anchor (`PopUndoesPush`, with `PopLosesOldAnchor`), and all blocks
  can be disconnected without firing the assert in `PopAnchor` iff no root came back after a different one
  (`UnwindsExactly`, with `RepushFires`; `NeverFires` for arbitrary runs that push new roots only).
- **Address manager** (`AddrTables`, `AddrMan`, `AddrSpread`, `AddrSelect`, `AddrStore`, `AddrRehash`, `AddrCheck`). The
  condition that the code's own checker tests is inductive under every operation; each operation's effect on every entry
  and slot is stated exactly. The design's promise that a few sources cannot fill the tables holds after every run
  (`AddrSpread.Run`: 64 buckets for a group of sources, 512 tried entries of a group). Selection ends for all random
  numbers, with a bound on its rounds (`Select`, `ThirtyDays`). Saving
  and loading loses nothing (`RoundTrip`, `Reload`), and what loading any framed stream gives is consistent under an
  exact condition on shared addresses (`LoadConsistent`). The checker accepts more states than the consistent ones:
  `CheckDecides` says which part it does not see, `StaleAddressPasses` and `UnknownZeroPasses` show two such states.
- **Check queue** (`CheckQueue`). A state machine of one master and any number of workers over a mutex and two condition
  variables, spurious wake-ups included: in every interleaving `Wait` returns the conjunction of exactly the checks added
  since the last one, no wake-up is lost, and `Wait` returns.
- **Partial Merkle trees** (`PartialMerkle`, `PartialMerkleTree`, `PartialMerkleSize`). Soundness for arbitrary offered
  bits and hashes and completeness of build, pack, unpack, extract, with an injective pair hash.
- **Arithmetic** (`Limbs`, `Shifts`, `ArithUint`, `Compact`, `ProofOfWork`). The limb loops compute modulo the width for
  every width of two limbs or more; compact encoding rounds down, is idempotent and monotone; work is the exact
  floor of 2^256/(target+1); in every chain that follows the rule no retarget wraps or leaves the limit, and a target is
  legal iff the average before it is at least the span (`ChainLegal`, with `HardestTarget` for a chain that gets stuck).
- **Codecs** (`Base58`, `Bech32`, `Bech32Poly`, `Field1024`, `Bech32Distance`, `Bech32Text`, `Amounts`, `CoinsCodec`).
  Round trips in both directions, buffers that always suffice, checksums that always verify and are polynomial
  remainders over the field GF(32), the documented detection of up to three errors within 1023 characters
  (`FourPlaces`), by the roots of the generator in GF(1024), and so the refusal of such strings (`DataErrorsRefused`,
  `PrefixErrorRefused`).
- **Eviction tree** (`WeightedTxTree`), **skip list and chain** (`SkipHeights`, `Chain`), **framing** (`Framing`),
  **emission** (`Emission`). Fair draws, with the exact totals that the conversions to int leave them fair
  (`DrawsFindExactly`); the skip list as a refinement of the parent walk, with the documented bound of 110 steps to go
  back up to 2^18 blocks from any height (`StepsBack18`); delivery as a prefix of what was queued, exactly unless a size
  wraps at 2^32 (`CarriesExact`); a supply that stays below the money cap at every
  height, ends when rewards do, and ends less than two coins below the cap (`TotalAtEnd`).

Hashes are functions given as parameters, injective where a theorem says so. Random numbers, clocks, socket results and
the scheduler are parameters or step choices.

The header of `src/merkleblock.h` promises at most 2N-1 flag bits for N hashes (line 47) and a size of at most
10 + ceil(32.25 N) bytes (line 34). Nodes with a single child exceed both, so the model follows the code: `BitCount` and
`SizeExactly` say exactly when the promises hold, `BitCountExceeds` and `SizeExceeds` give inputs for which they do not.

## Model

| member | source | states |
|---|---|---|
| `CheckQueue.BatchSize` | src/checkqueue.h:105-110 | a thread takes as many checks as are within the limit and as every thread, the idle ones counted twice and one more, could take alike, or one; never more than are queued |
| `CheckQueue.TakeBatch` | src/checkqueue.h:105-119 | the batch is the end of the queue, last check first, the rest of the queue is untouched, and together they are what the state machine does at the head of the loop |
| `CheckQueue.CheckingAll` | src/checkqueue.h:121-125 | the steps of one thread through a whole batch end with the conjunction of it as the thread's result, and with nothing else changed |
| `CheckQueue.RunBatch` | src/checkqueue.h:121-125 | skipping checks after a failure does not change the verdict: it is the conjunction of the whole batch, as the steps of the state machine leave it |
| `CheckQueue.InitKeepsInv` | src/checkqueue.h:131 | a new queue with any number of threads satisfies the invariant |
| `CheckQueue.StepKeepsInv` | src/checkqueue.h:69-158 | every step of every thread keeps: nTodo, nIdle, nTotal exact, the pending verdict equal to the conjunction of all checks added, no lost wake-up |
| `CheckQueue.RunKeepsInv` | src/checkqueue.h:69-158 | the invariant holds after every run, whatever the interleaving |
| `CheckQueue.RunKeepsHistory` | src/checkqueue.h:92-99 | no check is lost, repeated or reported in two rounds: rounds plus pending are exactly what was added |
| `CheckQueue.WaitReturnsConjunction` | src/checkqueue.h:140-158 | in every interleaving each Wait returned the conjunction of exactly the checks added since the previous Wait; nTodo is queued plus in flight |
| `CheckQueue.MasterNeverStuck` | src/checkqueue.h:78-104 | whenever the master is blocked some worker holds unfinished checks; whenever checks are queued and a worker sleeps, another worker is active |
| `CheckQueue.IdleExactly` | src/checkqueue.h:164-191 | IsIdle answers whether nothing is to be done and all checks since the last Wait passed, so the assert of the controller cannot fire |
| `CheckQueue.StepLowersRank` | src/checkqueue.h:69-127 | every step but a spurious wake-up strictly lowers a measure while the master is in Wait |
| `CheckQueue.NeverDeadlocked` | src/checkqueue.h:69-127 | while the master is in Wait some thread can take a real step |
| `CheckQueue.WaitTerminates` | src/checkqueue.h:140-143 | under any scheduling the master stays in Wait for a bounded number of steps plus two for each spurious wake-up |
| `Coins.TrimExact` | src/coins.h:114-119 | cleaning up drops trailing spent outputs only, and all of them |
| `Coins.CleanedExact` | src/coins.h:114-119 | cleaning up changes the availability and value of no output, keeps clean records as they are, and empties exactly the pruned ones |
| `Coins.Cleanup` | src/coins.h:114-119 | the loop leaves the trimmed outputs |
| `Coins.Spend` | src/coins.cpp:37-44 | succeeds exactly for an available output; that one goes, every other keeps its value, the result is clean |
| `CoinsLayer.Fetched` | src/coins.cpp:101-117 | pulling an entry up from the base keeps the flags invariant and the view |
| `CoinsLayer.Replaced` | src/coins.cpp:342-370 | a modified entry changes the view at its transaction only and keeps the flags invariant |
| `CoinsLayer.Dropped` | src/coins.cpp:657-669 | dropping a FRESH entry removes the transaction from what the cache shows, whatever the base holds |
| `CoinsLayer.DroppedUncovers` | src/coins.h:506-513 | dropping a FRESH entry uncovers the transaction exactly if the base has something unspent, which is why ModifyNewCoins asks for the opposite |
| `CoinsLayer.AnchorFetched` | src/coins.cpp:120-164 | caching an anchor read from the base shows nothing new |
| `CoinsLayer.AnchorReplaced` | src/coins.cpp:192-316 | entering or removing an anchor changes the view at that root only |
| `CoinsLayer.NullifierSet` | src/coins.cpp:166-189 | a cached nullifier overrides the base at that nullifier only |
| `CoinsLayer.BatchWriteCoins` | src/coins.cpp:482-515 | in whatever order the child is visited, each entry of the base becomes the merge of the two; entries not dirty in the child are ignored |
| `CoinsLayer.BatchWriteAnchors` | src/coins.cpp:440-471 | likewise for anchors |
| `CoinsLayer.BatchWriteNullifiers` | src/coins.cpp:418-438 | likewise for nullifiers |
| `CoinsLayer.MovedUpIsFresh` | src/coins.cpp:485-491 | an entry that the base does not hold is FRESH in the child, so the assert cannot fire |
| `CoinsLayer.FlushCoins` | src/coins.cpp:473-515 | after the merge the base shows every unspent output that the child showed, and no other, and keeps its own flags invariant |
| `CoinsLayer.FlushAnchors` | src/coins.cpp:440-471 | after the merge the base shows exactly the anchors that the child showed, although known trees are not copied: a root determines its tree |
| `CoinsLayer.FlushNullifiers` | src/coins.cpp:418-438 | after the merge the base shows exactly the nullifiers that the child showed |
| `CoinsLayer.PopUndoesPush` | src/coins.cpp:192-316 | popping a pushed anchor restores the view if and only if its root was best already or no anchor |
| `CoinsLayer.UnspendUndoesSpend` | src/coins.cpp:318-331 | marking nullifiers unspent restores the view if and only if none of them was spent before |
| `CoinsLayer.DiskFlushCoins` | src/txdb.cpp:172-183 | writing dirty entries makes the database show exactly the unspent outputs of the cache |
| `CoinsLayer.DiskFlushAnchors` | src/txdb.cpp:142-159 | writing anchors makes the database show those of the cache if and only if no empty-tree anchor was popped |
| `CoinsLayer.DiskFlushNullifiers` | src/txdb.cpp:127-140 | writing nullifiers makes the database show exactly those of the cache |
| `CoinsLayer.FlushDisk` | src/txdb.cpp:161-200 | a whole batch makes the database show the view of the cache, best hashes included unless they are null |
| `CoinsCache.CoinsViewCache.OnDisk` | src/txdb.cpp:53-75 | a new cache over the database shows the database, with the empty trees as anchors |
| `CoinsCache.CoinsViewCache.OnCache` | src/coins.cpp:85 | a new cache over another shows the same |
| `CoinsCache.CoinsViewCache.FetchCoins` | src/coins.cpp:101-117 | finds a transaction exactly if the layered view has it, with its coins; no layer shows anything different afterwards |
| `CoinsCache.CoinsViewCache.GetCoins` | src/coins.cpp:333-340 | returns the coins of the layered view |
| `CoinsCache.CoinsViewCache.HaveCoins` | src/coins.cpp:381-388 | true exactly for transactions with something unspent |
| `CoinsCache.CoinsViewCache.HaveInputs` | src/coins.cpp:609-621 | true exactly if every referenced output is available |
| `CoinsCache.CoinsViewCache.GetAnchorAt` | src/coins.cpp:120-164 | returns the anchor of the layered view; filling the cache changes no view |
| `CoinsCache.CoinsViewCache.GetNullifier` | src/coins.cpp:166-189 | answers as the layered view does; filling the cache changes no view |
| `CoinsCache.CoinsViewCache.GetBestBlock` | src/coins.cpp:390-395 | resolves the hash of the layered view and keeps it |
| `CoinsCache.CoinsViewCache.GetBestAnchor` | src/coins.cpp:397-412 | resolves the best anchor of the layered view and keeps it |
| `CoinsCache.CoinsViewCache.ModifyCoins` | src/coins.cpp:342-361 | hands out the present coins or empty ones, marks the entry dirty, and shows no change yet |
| `CoinsCache.CoinsViewCache.ModifyNewCoins` | src/coins.cpp:363-370 | starts from empty coins where nothing unspent is below |
| `CoinsCache.CoinsViewCache.EndModify` | src/coins.cpp:657-669 | from then on the view has the new coins, cleaned up, or not the transaction if all is spent; the base is untouched |
| `CoinsCache.CoinsViewCache.PushAnchor` | src/coins.cpp:192-244 | the view gains the root as an anchor and as best anchor, unless it is best already |
| `CoinsCache.CoinsViewCache.PopAnchor` | src/coins.cpp:246-316 | the assert fires exactly if another root is to become the best and the best anchor is not in view; else the view loses its best anchor and has the given one as best |
| `CoinsCache.CoinsViewCache.SetNullifiers` | src/coins.cpp:318-331 | exactly the given nullifiers become spent or unspent |
| `CoinsCache.CoinsViewCache.SetBestBlock` | src/coins.cpp:414-416 | the best block changes; a null hash shows the one below |
| `CoinsCache.CoinsViewCache.BatchWrite` | src/coins.cpp:473-527 | the view becomes that of the child, for coins, anchors, nullifiers and best hashes |
| `CoinsCache.CoinsViewCache.FlushToBase` | src/coins.cpp:529-538 | flushing into another cache: it then shows what this one showed, and keeps its own base |
| `CoinsCache.CoinsViewCache.WriteDisk` | src/txdb.cpp:161-200 | the database shows the view of the cache, anchors exactly if no empty-tree anchor was popped |
| `CoinsCache.CoinsViewCache.FlushToDisk` | src/coins.cpp:529-538 | flushing into the database: it then shows what this cache showed |
| `CoinsCache.CoinsViewCache.Flush` | src/coins.cpp:529-538 | the base shows what the cache showed; for the best block and each best anchor exactly when that is so; the cache itself shows no change |
| `CoinsCache.RunOne` | src/coins.cpp:166-416 | each operation, reads included, has the effect its specification gives on what is shown, none on the base, and settles the best hashes it sets or looks up |
| `CoinsCache.Run` | src/coins.cpp:166-416 | a whole run of operations has the composed effect on what is shown, none on the base, and settles the best hashes that some operation set or looked up |
| `CoinsCache.RunAndFlush` | src/coins.cpp:529-538 | after any run of operations and a flush the base shows their effect: every output, anchor and nullifier, and every best hash if the run set or looked them up |
| `CoinsCache.FlushBringsBackEmptyAnchor` | src/txdb.cpp:142-159 | a database, a popped empty-tree anchor and a flush: the anchor is not shown before and is shown afterwards |
| `CoinsCache.PopLosesOldAnchor` | src/coins.cpp:192-316 | from an empty database, pushing T, U and T again and popping back to U loses the first anchor T |
| `AnchorHistory.NeverFires` | src/coins.cpp:192-316 | in any run whose pushes give the best anchor again or a root that is no anchor, and whose pops go back to the anchor before, the assert never fires, whatever other operations come between |
| `AnchorHistory.NewDatabase` | src/txdb.cpp:53-75 | a new database is a start for such runs |
| `AnchorHistory.UnwindsExactly` | src/coins.cpp:246-316 | with all roots of the connected blocks as anchors, disconnecting all blocks never fires the assert and leaves the first anchor if and only if no root came back after a different one |
| `AnchorHistory.MissingFires` | src/coins.cpp:246-316 | a root that is still to be disconnected and is no anchor makes it fire, or is missing at the end |
| `AnchorHistory.RepushFires` | src/coins.cpp:246-316 | from an empty database, pushing T, U and T again and popping all of them: the assert fires at the third pop |
| `AddrTables.Swapped` | src/addrman.cpp:106-124 | swapping two places keeps the random order a permutation whose inverse the entries hold |
| `AddrTables.RandomCount` | src/addrman.cpp:409-410 | the random order has as many places as there are entries |
| `AddrTables.CreatedKeeps` | src/addrman.cpp:94-104 | a created entry keeps all indexes consistent, with one entry to count and to place |
| `AddrTables.DeletedKeeps` | src/addrman.cpp:126-138 | deleting an unplaced entry keeps all indexes consistent |
| `AddrTables.NewClearedKeeps` | src/addrman.cpp:140-153 | clearing a slot keeps all indexes consistent |
| `AddrTables.NewClearedEffect` | src/addrman.cpp:140-153 | clearing a slot costs its holder one reference, or its existence if that was the last, and touches no other entry |
| `AddrTables.SlotSetKeeps` | src/addrman.cpp:307-310 | putting an entry into its slot keeps its reference count equal to the slots that hold it |
| `AddrTables.TriedEnteredKeeps` | src/addrman.cpp:198-200 | entering the tried table keeps every tried entry in exactly its slot |
| `AddrTables.TriedLeftKeeps` | src/addrman.cpp:180-183 | leaving the tried table does too |
| `AddrTables.TriedInSteps` | src/addrman.cpp:155-201 | leaving the new table, making room and entering the tried table is one move; the evicted entry is back in the new table, and only the holder of the slot it got loses a reference |
| `AddrMan.AddrMan.constructor` | src/addrman.h:437-460 | a new manager is consistent and empty, both tables included |
| `AddrMan.AddrMan.Find` | src/addrman.cpp:81-92 | finds exactly the known addresses |
| `AddrMan.AddrMan.SwapRandom` | src/addrman.cpp:106-124 | both places and both entries are exchanged |
| `AddrMan.AddrMan.Delete` | src/addrman.cpp:126-138 | removes the entry from all indexes, the last of the random order taking its place |
| `AddrMan.AddrMan.ClearNew` | src/addrman.cpp:140-153 | the slot is free, its holder has one reference less or is gone, every other entry stays |
| `AddrMan.AddrMan.LeaveNew` | src/addrman.cpp:157-167 | after the pass over all buckets the entry is in no slot and its count is zero, so the assert cannot fire; no other slot changes |
| `AddrMan.AddrMan.BackToNew` | src/addrman.cpp:185-194 | the evicted entry holds the slot its own source gives it, with one reference; only the old holder of the slot is affected |
| `AddrMan.AddrMan.Evict` | src/addrman.cpp:174-195 | the holder of the tried slot is back in the new table, and the slot is free |
| `AddrMan.AddrMan.MakeTried` | src/addrman.cpp:155-201 | all indexes stay consistent; the entry is in its tried slot and nowhere else, the one it displaced is in the new table |
| `AddrMan.AddrMan.FindBucket` | src/addrman.cpp:229-244 | the search from any start finds a bucket that holds the entry, so the bail-out is dead |
| `AddrMan.AddrMan.Good_` | src/addrman.cpp:203-250 | a known exact service always ends in tried with its times set; any other leaves everything as it was; the effect on all entries and slots is exact |
| `AddrMan.AddrMan.Create` | src/addrman.cpp:94-104 | a fresh id with a record of what was told, all indexes consistent but for the missing place |
| `AddrMan.AddrMan.MayTake` | src/addrman.cpp:299-306 | true exactly if the slot is free, its holder has another place and the newcomer none, or its holder was not just tried and is from the future, not seen for 30 days, failed three times without any success or ten times without one within a week |
| `AddrMan.AddrMan.Place` | src/addrman.cpp:296-316 | the entry gets the slot exactly if that yields, at the cost of its holder only; without any place it is gone |
| `AddrMan.AddrMan.Refresh` | src/addrman.cpp:261-288 | the time changes exactly if the news are newer by an hour, or a day if a day old, plus the penalty, and then to the told time less the penalty, never below zero; services accumulate, and a further place is tried with probability one in two to the power of the references |
| `AddrMan.AddrMan.AddNew` | src/addrman.cpp:289-316 | a new address is entered and stays exactly if its slot yields |
| `AddrMan.AddrMan.Add_` | src/addrman.cpp:252-318 | true exactly for routable unknown addresses; consistent afterwards; the effect on every entry and slot is exact in all three cases, the new time included |
| `AddrMan.AddrMan.Attempt_` | src/addrman.cpp:320-337 | counts an attempt for the exact service, else changes nothing |
| `AddrMan.AddrMan.Connected_` | src/addrman.cpp:502-520 | moves the time on only for the exact service and only after twenty minutes |
| `AddrMan.AddrMan.Draw` | src/addrman.cpp:492-493 | exchanges the next place and a drawn one at or after it, and leaves those drawn before |
| `AddrMan.AddrMan.GetAddr_` | src/addrman.cpp:481-500 | distinct entries, at most 2500 and 23 percent, each of them eligible by its times and attempts, and all that are eligible if fewer than the limit; the entries themselves only change places |
| `AddrMan.TerribleExact` | src/addrman.cpp:32-50 | the quality test agrees with the conditions written out: just tried, or not from the future, seen within 30 days, with a success or fewer than three attempts, and with a success within a week or fewer than ten |
| `AddrMan.RefreshedExact` | src/addrman.cpp:262-267 | the refreshed time is the old one, or, exactly when the news are fresh enough, the told one less the penalty, never below zero |
| `AddrSpread.TriedSpread` | src/addrman.cpp:11-17 | all addresses of one group hash to at most 8 buckets of the tried table, whatever the hash function |
| `AddrSpread.TriedLimit` | src/addrman.h:107-131 | in every consistent state at most 512 tried entries are of one group |
| `AddrSpread.NewSpread` | src/addrman.cpp:19-24 | all addresses told by sources of one group hash to at most 64 buckets of the new table |
| `AddrSpread.NewLimit` | src/addrman.h:107-131 | where every slot is one that sources of n groups could have filled, at most 64 n buckets and 4096 n slots of the new table are in use |
| `AddrSpread.Run` | src/addrman.cpp:203-337 | after every run from a new manager whose addresses all came from sources of n groups, no more than 64 n buckets of the new table are in use, and no more than 512 tried entries are of one group |
| `AddrSelect.GetChance` | src/addrman.cpp:52-80 | the chance as a product: by the time since the entry was seen, a penalty after ten days, one for a recent try, and 0.66 for each failed attempt up to eight |
| `AddrSelect.ChanceLeast` | src/addrman.cpp:52-80 | no chance is zero: for an entry of any age a positive bound |
| `AddrSelect.ChanceMost` | src/addrman.cpp:52-80 | with a count of attempts that is not negative it is at most one |
| `AddrSelect.Seek` | src/addrman.cpp:357-367 | finds the first occupied slot of those looked at, or gives up after exactly 200002 empty ones |
| `AddrSelect.Choose` | src/addrman.cpp:355-375 | ends for all random numbers: the entry returned is the first that the growing chance takes, and the assert holds for each that was come to |
| `AddrSelect.Select` | src/addrman.cpp:339-400 | nothing if there is nothing to choose from, else an entry of the table that the flag, the counts and the coin pick, unless 200002 slots were looked at in vain |
| `AddrSelect.RejectedFewer` | src/addrman.cpp:355-375 | no more entries are rejected than it takes the growing chance to reach one for entries of that age |
| `AddrSelect.ThirtyDays` | src/addrman.cpp:355-375 | with entries seen within 30 days at most 87 are rejected |
| `AddrStore.Listed` | src/addrman.h:297-314 | the two passes list exactly as many entries as nNew and nTried say, so neither assert fires |
| `AddrStore.WithinLimits` | src/addrman.h:352-358 | a consistent manager never has more entries than slots, so what was saved passes the limits |
| `AddrStore.NewInjective` | src/addrman.h:295-305 | renumbering gives different entries different ids, new ones first |
| `AddrStore.NewOnto` | src/addrman.h:361-398 | renumbering uses every id below the number of entries |
| `AddrStore.LoadRecentBuilds` | src/addrman.h:360-378 | loading new entries keeps both tables, the order and the counts right, but for unplaced entries, for any list of records |
| `AddrStore.LoadSettledBuilds` | src/addrman.h:380-399 | loading tried entries does too, entries with an occupied slot being lost |
| `AddrStore.LoadBucketsBuilds` | src/addrman.h:401-417 | loading positions does too, whatever the positions are |
| `AddrStore.PrunedKeeps` | src/addrman.h:419-429 | pruning removes exactly what is unplaced and keeps both tables, the order and the counts right |
| `AddrStore.LoadUnindexed` | src/addrman.h:332-435 | whatever is in the stream, everything but the index by address is consistent afterwards |
| `AddrStore.LoadConsistent` | src/addrman.h:332-435 | for any framed stream - stale positions, other table sizes, collisions, repeated addresses - what is loaded is consistent if and only if no entry that gets a place has its address in common with another |
| `AddrStore.DistinctUnshared` | src/addrman.h:332-435 | a stream that repeats no address meets that condition |
| `AddrStore.EntriesBack` | src/addrman.h:360-399 | from a saved manager every entry comes back, and every tried slot |
| `AddrStore.BucketsPlaced` | src/addrman.h:401-417 | from a saved manager every position of the new table is restored, bucket by bucket |
| `AddrStore.RoundTrip` | src/addrman.h:282-435 | save and load restores every entry but for its last try, every tried and new slot and every reference count, up to renumbering, and is consistent |
| `AddrStore.SerializeNew` | src/addrman.h:295-305 | writes the entries of the new table in order of their ids, and numbers all ids |
| `AddrStore.SerializeTried` | src/addrman.h:306-314 | writes the entries of the tried table in order of their ids |
| `AddrStore.SerializeBucket` | src/addrman.h:315-328 | writes the number and the renumbered holders of the occupied slots of a bucket |
| `AddrStore.Serialize` | src/addrman.h:282-329 | writes the stored form of the manager: version 1, key size 32, both counts, 1024 buckets with bit 30 flipped |
| `AddrStore.Clear` | src/addrman.h:437-455 | empties tables, order and counts, and leaves both maps as they are |
| `AddrStore.Prune` | src/addrman.h:419-429 | deletes the unplaced entries in order and counts them |
| `AddrStore.Unserialize` | src/addrman.h:332-435 | loads exactly the streams with a 32-byte key and counts within the limits, and reports what was lost |
| `AddrStore.Reload` | src/addrman.h:282-435 | saving and loading into a new manager succeeds, loses nothing, and gives a consistent manager |
| `AddrStore.UsableExactly` | src/addrman.h:346-350 | positions are used exactly from a stream of version 1 that says 1024 buckets with bit 30 flipped |
| `AddrRehash.NewKept` | src/addrman.h:367-375 | from any other stream an entry of the new table is kept exactly if no earlier one has the slot of its own source; it then holds that slot with one reference and all that was written of it, and no other slot is held |
| `AddrRehash.TriedKept` | src/addrman.h:380-399 | from any stream each tried slot holds the first record that has it, with all that was written of it, and no other slot is held |
| `AddrCheck.CheckEntry` | src/addrman.cpp:413-435 | passes exactly the entries that agree with their flags, counts and indexes; the code says what is wrong with any other |
| `AddrCheck.CheckEntries` | src/addrman.cpp:412-436 | passes exactly if all entries do, and collects the ids of both tables |
| `AddrCheck.CheckTried` | src/addrman.cpp:443-455 | passes exactly if every tried cell holds a tried entry in its place; what is left over was nowhere |
| `AddrCheck.CheckNew` | src/addrman.cpp:457-468 | passes exactly if every entry is held by as many new cells as it counts, each its own place |
| `AddrCheck.Check_` | src/addrman.cpp:404-478 | returns zero exactly for the states that satisfy the whole condition, and else one of nineteen codes, each of which is proved to say what is wrong |
| `AddrCheck.ConsistentPasses` | src/addrman.cpp:404-478 | every state that the operations keep passes the check |
| `AddrCheck.PassesConsistent` | src/addrman.cpp:404-478 | what passes is consistent, given what the check does not see: no stale address, entry 0 has its address known, ids below nIdCount |
| `AddrCheck.CheckDecides` | src/addrman.cpp:404-478 | passing, with what the check does not see in order, is the same as being consistent with good times and a key |
| `AddrCheck.StaleAddressPasses` | src/addrman.cpp:428-429 | a state with an address of no entry passes although it is not consistent |
| `AddrCheck.UnknownZeroPasses` | src/addrman.cpp:428-429 | a state whose entry 0 has no known address passes although it is not consistent |
| `AddrCheck.LoadPassesExactly` | src/addrman.h:332-435 | for any framed stream, exactly when what is loaded passes the check and is consistent |
| `AddrCheck.LoadPasses` | src/addrman.h:419-434 | a stream with a key, no address twice and admissible times loads into a manager that passes the check |
| `AddrCheck.RepeatedAddressFails` | src/addrman.h:360-398 | a stream with one address in both tables loads into a manager that is not consistent and does not pass |
| `PartialMerkle.ExtractSound` | src/merkleblock.cpp:98-132 | a subtree that extracts to the true node hash yields only true transactions at ascending leaves, whatever bits and hashes are offered |
| `PartialMerkle.SameHashSameStart` | src/merkleblock.cpp:63-78 | with distinct transactions no two nodes of one height have the same hash |
| `PartialMerkle.ExtractComplete` | src/merkleblock.cpp:80-132 | extraction undoes building, wherever in the bits and hashes the subtree stands |
| `PartialMerkle.HashCount` | src/merkleblock.h:36-40 | at most one stored hash for each transaction, and at most one plus matches times height |
| `PartialMerkle.BitCount` | src/merkleblock.h:47 | bits are twice the hashes less one plus the expanded nodes with a single child, so the documented bound holds exactly without any |
| `PartialMerkleTree.WidthExact` | src/merkleblock.h:66-68 | a position is within the width exactly if its first leaf is a transaction |
| `PartialMerkleTree.WidthByShifting` | src/merkleblock.h:66-68 | the shift expression is the width obtained by halving level by level |
| `PartialMerkleTree.ShapeLeaves` | src/merkleblock.cpp:63-96 | the leaves below a node are exactly the transactions from pos << height up to (pos+1) << height |
| `PartialMerkleTree.TreeHeight` | src/merkleblock.cpp:139-142 | the least height at which one node is left |
| `PartialMerkleTree.CalcHashIs` | src/merkleblock.cpp:63-78 | the recursion by height and position is the hash of the subtree over those leaves |
| `PartialMerkleTree.PackBits` | src/merkleblock.h:99-104 | unpacking the bytes gives the bits, padded with zeros to whole bytes |
| `PartialMerkleTree.UnpackBytes` | src/merkleblock.h:92-98 | each byte gives eight bits, lowest first |
| `PartialMerkleTree.PartialMerkleTree.Build` | src/merkleblock.cpp:134-146 | the constructed bits and hashes encode the whole tree |
| `PartialMerkleTree.PartialMerkleTree.Read` | src/merkleblock.h:88-98 | what is read is what was sent, not yet judged |
| `PartialMerkleTree.PartialMerkleTree.TraverseAndBuild` | src/merkleblock.cpp:80-96 | appends exactly the encoding of the subtree |
| `PartialMerkleTree.PartialMerkleTree.ParentOfMatch` | src/merkleblock.cpp:80-84 | true exactly if some leaf below is matched, the cut-off at the last transaction included |
| `PartialMerkleTree.PartialMerkleTree.TraverseAndExtract` | src/merkleblock.cpp:98-132 | consumes and yields what extraction of the subtree does, and is bad exactly if that is |
| `PartialMerkleTree.PartialMerkleTree.ExtractMatches` | src/merkleblock.cpp:150-181 | root and ids of the extraction if it is acceptable, and the null hash exactly otherwise |
| `PartialMerkleTree.SoundProof` | src/merkleblock.cpp:150-181 | any accepted proof that gives the true root returns transactions of the block, in block order |
| `PartialMerkleTree.CompleteProof` | src/merkleblock.cpp:134-181 | build, pack, unpack, extract is accepted and gives the true root and exactly the selected ids, within both size bounds |
| `PartialMerkleTree.RoundTrip` | src/merkleblock.cpp:134-181 | the objects and the wire form together do the same |
| `PartialMerkleSize.OnesExact` | src/merkleblock.h:66-68 | only the last node of a height can have a single child, so there are as many as heights of odd width |
| `PartialMerkleSize.BitCountExceeds` | src/merkleblock.h:47 | three transactions, the last matched: two hashes and four bits |
| `PartialMerkleSize.SizeExactly` | src/merkleblock.h:31-34 | the guaranteed size is kept if and only if there are fewer than 253 flag bytes or the nodes with a single child need no further byte |
| `PartialMerkleSize.SizeExceeds` | src/merkleblock.h:31-34 | 1025 transactions, all matched, exceed the guaranteed size |
| `WeightedTxTree.WeightOf` | src/mempool_limit.cpp:148-160 | the cost is the larger of the memory used and 4000; the eviction weight exceeds it by 16000 exactly for fees below 10000, else not |
| `WeightedTxTree.WeighedBounds` | src/mempool_limit.cpp:148-160 | transactions weighed so cost at least 4000 each and their eviction weights together at most five times their costs |
| `WeightedTxTree.WeighedFits` | src/mempool_limit.h:16 | in a pool within the default limit plus one transaction below 349496730 bytes every draw is found, and the pool had at most a 4000th of the limit in transactions |
| `WeightedTxTree.SubSumUpdate` | src/mempool_limit.cpp:50-56 | changing one weight changes the sum of a subtree by the difference, exactly for the nodes above |
| `WeightedTxTree.RootSum` | src/mempool_limit.cpp:74-77 | the sum at the root is the sum over all transactions |
| `WeightedTxTree.FindExact` | src/mempool_limit.cpp:58-72 | a draw finds a transaction exactly if it falls into an interval as long as its weight |
| `WeightedTxTree.FairDraw` | src/mempool_limit.cpp:58-72 | each transaction is found by exactly as many draws as its eviction weight |
| `WeightedTxTree.GetWeightAt` | src/mempool_limit.cpp:45-48 | own weight plus stored sum is the sum over the whole subtree |
| `WeightedTxTree.FindsByDraw` | src/mempool_limit.cpp:58-72 | the descent by stored sums, through 32-bit conversions, finds what the exact sums say, for sums below 2^31 |
| `WeightedTxTree.DrawsFindExactly` | src/mempool_limit.cpp:58-72 | with positive weights every draw, converted to int, finds its transaction if and only if the total is below 2^31, or equal to it with three transactions or more |
| `WeightedTxTree.SomeDrawLost` | src/mempool_limit.cpp:128-129 | otherwise the draw of zero, of 2^31 or of the weight on the left goes astray |
| `WeightedTxTree.LeastDraw` | src/mempool_limit.cpp:58-72 | the draw of 2^31, converted to the least int, leads out of the tree unless a sum on the left wraps |
| `WeightedTxTree.AddedSums` | src/mempool_limit.cpp:80-91 | after propagation every stored sum is again that of the strict descendants |
| `WeightedTxTree.RemovedSums` | src/mempool_limit.cpp:93-119 | after both propagations and the move of the last transaction, too |
| `WeightedTxTree.RemovedIndex` | src/mempool_limit.cpp:112-116 | the index stays exact when the last transaction takes the free place |
| `WeightedTxTree.WeightedTxTree.GetTotalWeight` | src/mempool_limit.cpp:74-77 | cost and weight of all transactions |
| `WeightedTxTree.WeightedTxTree.BackPropagate` | src/mempool_limit.cpp:50-56 | adds to exactly the strict ancestors |
| `WeightedTxTree.WeightedTxTree.Add` | src/mempool_limit.cpp:80-91 | appends unless already there; sums and index exact |
| `WeightedTxTree.WeightedTxTree.Remove` | src/mempool_limit.cpp:93-119 | removes the transaction if there; sums and index exact |
| `WeightedTxTree.WeightedTxTree.MaybeDropRandom` | src/mempool_limit.cpp:121-134 | nothing happens exactly if the cost is within the capacity; else what the converted draw leads to is dropped, or the search never ends; where the total fits, that is the drawn transaction |
| `WeightedTxTree.WeightedTxTree.DropUntilFits` | src/txmempool.cpp:824-833 | ends with the cost within capacity unless a search never ends, nothing but the dropped transactions lost; where the total fits, no search is lost and each drop was necessary and fairly drawn |
| `SkipHeights.InvertLowestOneExact` | src/chain.cpp:61-62 | clears exactly the lowest one bit |
| `SkipHeights.GetSkipHeight` | src/chain.cpp:64-73 | the skip goes strictly down |
| `SkipHeights.OddSteps` | src/chain.cpp:82-97 | from an odd height within a block of 2^k heights: what the middle of the block needs, and one step for every two one bits |
| `SkipHeights.EvenSteps` | src/chain.cpp:82-97 | from an even height within a block of 2^k heights: what the middle of the block needs, and one step for each one bit or half of that |
| `SkipHeights.StepsBound` | src/chain.cpp:75-99 | below height 2^n a walk takes at most n^2/4 + 2n - 7 steps, for n from 10 on |
| `SkipHeights.AcrossSteps` | src/chain.cpp:82-97 | over the middle of a block of 2^k heights: what the middle needs, and one step for each one bit of the rest or half of that |
| `SkipHeights.Tradeoff` | src/chain.cpp:82-97 | starting beyond a multiple of 2^n and ending before it, within 2^n heights, the two parts of the walk even out |
| `SkipHeights.StepsBack` | src/chain.cpp:75-99 | going back at most 2^n blocks from any height takes at most n^2/4 + 2n - 7 steps, for n from 16 on |
| `SkipHeights.StepsBack18` | src/chain.cpp:69-72 | going back up to 2^18 blocks from any height takes at most 110 steps, as the comment says |
| `Chain.BlockIndex.GetAncestor` | src/chain.cpp:75-99 | the walk over skip pointers finds exactly what following pprev finds, null outside the range; with all skip pointers built it takes at most 110 steps to go back up to 2^18 blocks |
| `Chain.BlockIndex.BuildSkip` | src/chain.cpp:106-110 | sets the pointer to the ancestor at the skip height, spoils no other skip pointer and keeps all of them built |
| `Chain.AncestorByHeight` | src/chain.cpp:75-99 | a block is an ancestor exactly if following pprev to its height finds it |
| `Chain.Meet` | src/chain.cpp:53-59 | the common ancestors of two blocks are the ancestry of the highest one |
| `Chain.ActiveChain.Tip` | src/chain.h:505-508 | null exactly for the empty chain, else the block whose ancestry the chain is |
| `Chain.ActiveChain.Contains` | src/chain.h:523-526 | the comparison at one height decides membership in the ancestry of the tip |
| `Chain.ActiveChain.SetTip` | src/chain.cpp:13-23 | the early stop still leaves exactly the ancestry of the new tip |
| `Chain.ActiveChain.FindFork` | src/chain.cpp:53-59 | the highest common ancestor of chain and block, null exactly if there is none |
| `Chain.ActiveChain.GetLocator` | src/chain.cpp:25-51 | hashes of ancestors at exactly the locator heights, ending at the genesis block and not before |
| `Chain.LocatorLength` | src/chain.cpp:25-51 | heights strictly descend, and the length is at most 12 plus the logarithm of the height |
| `Framing.FramesConcat` | src/net.cpp:576-612 | taking a byte stream apart into messages and a rest loses nothing |
| `Framing.FramesUnique` | src/net.cpp:576-612 | there is only one way to take a stream apart |
| `Framing.FramesPrefix` | src/net.cpp:576-612 | a prefix of a stream spells a prefix of its messages |
| `Framing.MessagesPrefix` | src/net.cpp:576-612 | a part of a stream of messages, of the sizes they announce up to an oversized one, spells the first of them, and where it is refused exactly those before an oversized one |
| `Framing.CarriesExact` | src/net.cpp:576-612 | every part of the stream of queued messages spells the first of them if and only if no size wraps before the first oversized message |
| `Framing.WholeOrRefused` | src/net.cpp:2195-2204 | a message is delivered or refused as a whole if and only if its size is below 2^32, or above 2097152 modulo 2^32 |
| `Framing.NetMessage.CompleteExact` | src/net.h:218-223 | complete exactly if the bytes taken in are one whole message, a zero-length payload included |
| `Framing.NetMessage.ReadHeader` | src/net.cpp:614-643 | takes in header bytes up to 24, refusing exactly the announcements above 32 MiB |
| `Framing.NetMessage.ReadData` | src/net.cpp:645-659 | takes in at least one byte; the buffer is never longer than the message nor more than 256 KiB ahead of the data |
| `Framing.NetMessage.Absorb` | src/net.cpp:587-595 | progress by at least one byte, or a header that announces too much |
| `Framing.Receiver.Parsed` | src/net.cpp:576-612 | the complete messages are those the received bytes spell, however they were cut |
| `Framing.Receiver.Step` | src/net.cpp:578-608 | progress by at least one byte, or an oversized message, the messages before it staying as they are |
| `Framing.Receiver.ReceiveMsgBytes` | src/net.cpp:576-612 | fails exactly if the stream comes to an oversized message, and has exactly the messages before it; else has exactly the messages the stream spells |
| `Framing.Stamped` | src/net.cpp:2195-2204 | bytes 16 to 19 are the payload size modulo 2^32, lowest first, bytes 20 to 23 the checksum of the payload, nothing else changes, and the result is a legal message if not too long |
| `Framing.Sender.SocketSendData` | src/net.cpp:670-711 | sends exactly what the calls accept, whole messages leave the queue, nSendSize stays the bytes of those queued, so neither assert fires |
| `Framing.Sender.EndMessage` | src/net.cpp:2190-2214 | queues the stamped message and sends at once exactly if nothing was waiting |
| `Framing.EndToEnd` | src/net.cpp:576-612 | what was received of what was sent of what was queued spells the first of the queued messages, all of them if all arrived and none was refused |
| `Framing.Run` | src/net.cpp:670-711 | for every sequence of queueing, short writes and deliveries, messages of any size included, the receiver has what a part of the sent stream spells and drops exactly at an oversized message; unless a size wraps these are a prefix of the queued messages: all once everything arrived, or those before the first oversized one when dropped; each of them carries the checksum of its payload; and once everything arrived, only then |
| `Framing.WrappedSizeSplits` | src/net.cpp:2196-2197 | a payload of 2^32 bytes announces a size of zero, so that its header alone is taken for a message |
| `Base58.CharDigit` | src/base58.cpp:13-14 | each digit has its own character of the alphabet, none of them a space |
| `Base58.AlphabetExactly` | src/base58.cpp:13-14 | the alphabet is all digits and letters but 0, I, O and l |
| `Base58.SpaceExactly` | src/base58.cpp:18-20 | the spaces around the text are the six white-space characters |
| `Base58.DecodeFits` | src/base58.cpp:27-42 | the bytes allocated for decoding always suffice, so the carry assert cannot fire |
| `Base58.EncodeFits` | src/base58.cpp:70-81 | the digits allocated for encoding always suffice, so the carry assert cannot fire |
| `Base58.OneWord` | src/base58.cpp:62-95 | no two words stand for the same bytes |
| `Base58.OneMeaning` | src/base58.cpp:16-60 | no word stands for two byte strings |
| `Base58.ToBase58` | src/base58.cpp:70-83 | the digits in the rewritten buffer have the value of the bytes |
| `Base58.EncodeBase58` | src/base58.cpp:62-95 | the word stands for the bytes: leading zeros as ones, and the same value |
| `Base58.DecodableExact` | src/base58.cpp:16-60 | text is decodable if and only if it is a word of the alphabet between spaces, and there is only one such word |
| `Base58.FromBase58` | src/base58.cpp:27-44 | fails exactly at a foreign character, else has the value of the word |
| `Base58.DecodeBase58` | src/base58.cpp:16-60 | succeeds exactly for decodable text, with the bytes its word stands for |
| `Base58.DecodeEncoded` | src/base58.cpp:16-95 | decoding what was encoded gives back the bytes, for all bytes |
| `Base58.EncodeDecoded` | src/base58.cpp:16-95 | encoding what was decoded gives back the text without surrounding spaces |
| `Bech32.StepXor` | src/bech32.cpp:37-94 | one step of the remainder is linear over exclusive or |
| `Bech32.StepInjective` | src/bech32.cpp:37-94 | one step maps no nonzero remainder to zero |
| `Bech32.FoldXor` | src/bech32.cpp:37-94 | the remainder of a whole list is linear over exclusive or |
| `Bech32.FoldInjective` | src/bech32.cpp:37-94 | a difference never vanishes by appending equal values |
| `Bech32.PolyMod` | src/bech32.cpp:37-94 | the loop computes the fold of steps from one on, which Remainder shows to be the remainder |
| `Bech32.ChecksumVerifies` | src/bech32.cpp:118-139 | the checksum made for any values verifies |
| `Bech32.BurstDetected` | src/bech32.cpp:118-125 | two value lists that differ only within six consecutive places never have the same remainder, for any prefix |
| `Bech32Poly.StepDivides` | src/bech32.cpp:60-92 | one step is multiplication by x, plus the value, less a multiple of the generator over GF(32) |
| `Bech32Poly.Remainder` | src/bech32.cpp:37-94 | the result is the remainder of the polynomial with an implicit leading one on division by the generator over GF(32) |
| `Bech32Poly.RemainderUnique` | src/bech32.cpp:37-94 | the division has only one quotient and one remainder |
| `Bech32Poly.FieldLaws` | src/bech32.cpp:51-58 | five-bit values with exclusive or and the multiplication modulo a^5 + a^3 + 1 are a field: closed, commutative, associative, distributive, with one, inverses and no zero divisors |
| `Field1024.NoZeroProd` | src/bech32.cpp:45-50 | in the field of 1024 elements over it no product of others is zero |
| `Bech32Distance.Order` | src/bech32.cpp:45-50 | no power below the 1023rd of the primitive element is one |
| `Bech32Distance.Roots` | src/bech32.cpp:45-50 | the generator vanishes at three consecutive powers of it |
| `Bech32Distance.EvFold` | src/bech32.cpp:37-94 | at a root of the generator the remainder of a list has the value of the list itself |
| `Bech32Distance.Vandermonde` | src/bech32.cpp:45-50 | three terms that vanish for three consecutive powers of different factors are zero |
| `Bech32Distance.ThreeErrors` | src/bech32.cpp:45-50 | two lists with the same remainder that differ only in three places within 1023 of each other are equal, for any prefix and any length |
| `Bech32Distance.FourPlaces` | src/bech32.cpp:45-50 | different lists with the same remainder whose differences are within 1023 of each other differ in at least four places |
| `Bech32Text.CharsetFacts` | src/bech32.cpp:12-25 | the reverse table inverts the character set; no character of it is upper case or the separator |
| `Bech32Text.RevBack` | src/bech32.cpp:12-25 | only the case of a character is lost |
| `Bech32Text.ExpandHRP` | src/bech32.cpp:103-115 | for n characters 2n + 1 values, the middle one zero; each character is 32 times its value before the middle, which is below 8, plus its value after it, which is below 32 |
| `Bech32Text.ExpandedDiffers` | src/bech32.cpp:103-115 | different prefixes of one length expand differently, a changed character showing at one of its two places |
| `Bech32Text.VerifyChecksum` | src/bech32.cpp:118-125 | true exactly if the remainder is one |
| `Bech32Text.CreateChecksum` | src/bech32.cpp:128-139 | the values followed by the result verify |
| `Bech32Text.Encode` | src/bech32.cpp:147-159 | the string is prefix, separator and the characters of values and checksum, or empty for values out of range |
| `Bech32Text.Decode` | src/bech32.cpp:162-192 | returns the decoded pair, empty exactly for what is refused |
| `Bech32Text.DecodeEncode` | src/bech32.cpp:147-192 | decoding an encoded legal pair gives it back |
| `Bech32Text.DecodeEncodeExact` | src/bech32.cpp:147-192 | no other pair comes back, but for the empty one that stands for failure |
| `Bech32Text.EncodeDecode` | src/bech32.cpp:147-192 | encoding what was decoded gives the string in lower case |
| `Bech32Text.DecodesExactly` | src/bech32.cpp:162-192 | exactly the encodings of legal pairs are decoded, in lower or upper case but not in both |
| `Bech32Text.PrefixErrorRefused` | src/bech32.cpp:162-192 | a decodable string with one character of its prefix changed, other than in case, is refused |
| `Bech32Text.DataErrorsRefused` | src/bech32.cpp:162-192 | a decodable string with one to three of its data characters changed to others is refused |
| `Bech32Text.ShortestVerifies` | src/test/bech32_tests.cpp:28 | the checksum of the shortest valid string of BIP 173 verifies |
| `ArithUint.BaseUint.Add` | src/arith_uint256.h:135-145 | addition modulo the width, an operand added to itself included |
| `ArithUint.BaseUint.Complement` | src/arith_uint256.h:69-75 | the greatest number less this one |
| `ArithUint.BaseUint.Increment` | src/arith_uint256.h:173-180 | plus one modulo the width, though it stops at the first limb without overflow |
| `ArithUint.BaseUint.Negate` | src/arith_uint256.h:77-84 | the additive inverse modulo the width |
| `ArithUint.BaseUint.Sub` | src/arith_uint256.h:147-151 | subtraction modulo the width |
| `ArithUint.BaseUint.MulSmall` | src/arith_uint256.cpp:55-65 | multiplication by 32 bits modulo the width |
| `ArithUint.BaseUint.Mul` | src/arith_uint256.cpp:67-81 | multiplication modulo the width; of a number by itself in place it gives zero |
| `ArithUint.BaseUint.ShiftLeft` | src/arith_uint256.cpp:21-36 | multiplication by a power of two modulo the width |
| `ArithUint.BaseUint.ShiftRight` | src/arith_uint256.cpp:38-53 | division by a power of two, rounded down |
| `ArithUint.BaseUint.CompareTo` | src/arith_uint256.cpp:109-119 | the numeric order |
| `ArithUint.BaseUint.EqualTo` | src/arith_uint256.cpp:121-133 | numeric equality with a 64-bit number |
| `ArithUint.BaseUint.Bits` | src/arith_uint256.cpp:171-185 | the length in bits, zero for zero |
| `ArithUint.BaseUint.DivStep` | src/arith_uint256.cpp:97-104 | one place of the long division keeps quotient times divisor plus remainder |
| `ArithUint.BaseUint.Div` | src/arith_uint256.cpp:83-107 | the floor quotient, the remainder left in num; division by zero fails |
| `ArithUint.BaseUint.Assign` | src/arith_uint256.h:88-95 | has the value assigned |
| `ArithUint.BaseUint.GetLow64` | src/arith_uint256.h:245-249 | the value modulo 2^64 |
| `Compact.OverflowExact` | src/arith_uint256.cpp:218-221 | the flag is set exactly if the number does not fit into 256 bits |
| `Compact.FieldsOf` | src/arith_uint256.cpp:205-217 | any byte of size, bit of sign and 23 bits of mantissa are those read from the number they make up |
| `Compact.ExpandExact` | src/arith_uint256.cpp:205-217 | the mantissa is moved by whole bytes: multiplied exactly above three bytes, cut off below |
| `Compact.SetCompact` | src/arith_uint256.cpp:205-223 | the decoded value, whether it overflows and whether it is negative |
| `Compact.MantissaRange` | src/arith_uint256.cpp:225-240 | the mantissa never reaches the sign bit and always uses its upper 16 bits |
| `Compact.SignClash` | src/arith_uint256.cpp:235-240 | the sign bit would be hit exactly if the bits fill whole bytes |
| `Compact.GetCompact` | src/arith_uint256.cpp:225-246 | size, sign and mantissa of the value, both asserts holding |
| `Compact.SignedParts` | src/arith_uint256.cpp:205-246 | the sign given is the sign read back, for all numbers but zero, and disturbs nothing else |
| `Compact.RoundedIs` | src/arith_uint256.cpp:205-246 | decoding the encoding drops what is below the unit, and nothing else |
| `Compact.RoundsDown` | src/arith_uint256.cpp:205-246 | rounding is down, by less than one part in 2^15 |
| `Compact.RoundedLength` | src/arith_uint256.cpp:205-246 | rounding keeps the highest bit |
| `Compact.RoundedIdempotent` | src/arith_uint256.cpp:205-246 | encoding again changes nothing |
| `Compact.RoundedMonotone` | src/arith_uint256.cpp:205-246 | encoding keeps the order |
| `ProofOfWork.ProofIs` | src/pow.cpp:125-130 | the quotient computed within 256 bits is 2^256/(target+1), which does not fit |
| `ProofOfWork.GetBlockProof` | src/pow.cpp:118-131 | floor of 2^256/(target+1), zero for illegal targets |
| `ProofOfWork.ProofMonotone` | src/pow.cpp:118-131 | an easier target never stands for more work |
| `ProofOfWork.CheckProofOfWork` | src/pow.cpp:99-116 | true exactly for a legal target within the limit that the hash does not exceed |
| `ProofOfWork.CalculateNextWorkRequired` | src/pow.cpp:58-97 | the compact form of the average over the window times a span, limited; the span is within the least and the most, and where it is neither, it is the window plus a quarter of the difference, cut off towards zero |
| `ProofOfWork.QuarteredOnly` | src/pow.cpp:70-73 | four times the change stays within four of the difference, on the same side, and that leaves one span only, which grows with the time taken |
| `ProofOfWork.NextTargetMonotone` | src/pow.cpp:58-97 | a window that took longer never makes the target harder |
| `ProofOfWork.OnTime` | src/pow.cpp:58-97 | a window that took exactly its time leaves the average target, up to the division |
| `ProofOfWork.AverageBetween` | src/pow.cpp:36-55 | the average lies between the least and the greatest target of the window |
| `ProofOfWork.RequiredDepends` | src/pow.cpp:36-55 | only the targets of the window and the two times at its ends matter |
| `ProofOfWork.NextTargetBelow` | src/pow.cpp:58-97 | neither the new target nor its compact form exceeds the limit |
| `ProofOfWork.RetargetFits` | src/pow.cpp:80-88 | with average within the limit the product does not wrap, so the result is the exact one |
| `ProofOfWork.SumWindow` | src/pow.cpp:36-44 | sums the targets of the window, modulo 2^256 |
| `ProofOfWork.GetNextWorkRequired` | src/pow.cpp:14-56 | the limit for short chains, else the retarget of the average over the window, modulo 2^256 |
| `ProofOfWork.AverageFits` | src/pow.cpp:36-55 | with targets within the limit the sum does not wrap and the average is within the limit |
| `ProofOfWork.NextWorkFits` | src/pow.cpp:14-97 | after targets within the limit neither the sum nor the product wraps, the result is the plain one, and it is within the limit again |
| `ProofOfWork.CompactLegal` | src/pow.cpp:99-116 | the compact form of a 256-bit number is a legal target if and only if the number is not zero |
| `ProofOfWork.NextWorkLegal` | src/pow.cpp:14-97 | after targets within the limit the next one is legal if and only if the limit is not zero and either the rule returns the limit or the average is at least the window's span; else it is zero |
| `ProofOfWork.ChainFits` | src/pow.cpp:14-97 | in every chain that follows the rule, with spans and the special rule varying by height, all targets are within the limit and no computation wrapped |
| `ProofOfWork.ChainLegal` | src/pow.cpp:14-97 | in every such chain a target is legal if and only if it was the limit, or the average before it was at least the span |
| `ProofOfWork.HardestTarget` | src/pow.cpp:80-96 | after two blocks with target one the next target is zero, which no hash meets, whatever the times |
| `ProofOfWork.MainNetworkFits` | src/chainparams.cpp:101-103 | on the main network the window of limits fits into 256 bits |
| `ProofOfWork.MainPowLimitIs` | src/chainparams.cpp:101 | the limit of the main network, digit by digit |
| `Amounts.DecompressCompress` | src/compressor.cpp:142-185 | compression loses no amount |
| `Amounts.CompressDecompress` | src/compressor.cpp:142-185 | every number is a compressed amount |
| `Amounts.CompressOf` | src/compressor.cpp:142-159 | the compact form of every mantissa and exponent |
| `Amounts.KnownAmounts` | src/test/compress_tests.cpp:42-47 | the amounts listed in the tests and in the format documentation have the listed forms |
| `Amounts.CompressFits` | src/compressor.cpp:142-159 | no amount of money overflows 64 bits |
| `Amounts.CompressAmount` | src/compressor.cpp:142-159 | the compressed amount modulo 2^64 |
| `Amounts.DecompressAmount` | src/compressor.cpp:161-185 | the decompressed amount modulo 2^64 |
| `CoinsCodec.CalcMaskSize` | src/coins.cpp:19-35 | the mask ends with its last byte in use; the second result counts those in use |
| `CoinsCodec.MaskUsed` | src/coins.h:168-175 | a byte is zero exactly if all its outputs are spent |
| `CoinsCodec.MaskRoundTrip` | src/coins.h:198-207 | the count of nonzero bytes tells exactly where the mask ends |
| `CoinsCodec.OutRoundTrip` | src/compressor.h:104-118 | an output with an amount of money survives |
| `CoinsCodec.OutsRoundTrip` | src/coins.h:208-213 | the outputs come back in their places, spent ones null |
| `CoinsCodec.SerializeMask` | src/coins.h:168-175 | writes the mask |
| `CoinsCodec.Serialize` | src/coins.h:156-183 | writes the encoded record; the assert holds for whatever is not pruned |
| `CoinsCodec.UnserializeMask` | src/coins.h:197-207 | reads a mask up to its last nonzero byte, or fails at the end of the stream |
| `CoinsCodec.Unserialize` | src/coins.h:185-217 | reads the decoded record, or fails |
| `CoinsCodec.RoundTrip` | src/coins.h:156-217 | what is not pruned is read back cleaned up, hence unchanged exactly if it was clean |
| `CoinsCodec.CodeParts` | src/coins.h:35-40 | the bits of the header code: coinbase, first output, second output, and the count of mask bytes, one less if neither is there |
| `CoinsCodec.MaskBit` | src/coins.h:168-175 | bit k of mask byte b is set exactly if output 2 + 8b + k is unspent |
| `CoinsCodec.FirstExample` | src/coins.h:42-54 | the first record of the format documentation |
| `CoinsCodec.SecondExample` | src/coins.h:57-75 | the second: mask bytes 0x04 and 0x40 for outputs 4 and 16 of a coinbase transaction, header code 9 |
| `Emission.RampTotal` | resutil/res-supply.c:19-21 | for any reward and length the slow start issues at most half of reward times length plus one |
| `Emission.PeriodTotal` | resutil/res-supply.c:22-30 | a sloped period issues at most three quarters of reward times length and a bit |
| `Emission.TailSplit` | resutil/res-supply.c:22-30 | summing block by block is summing period by period, beyond the capped shift too |
| `Emission.TailSumBound` | resutil/res-supply.c:22-30 | however far into a period, no more than the halvings so far allow; beyond the capped shift for rewards below 2^64 |
| `Emission.IssuanceBound` | resutil/res-supply.c:12-50 | for any premine, reward, ramp and period the total up to any block of a period is within the closed-form bound less what the halvings leave |
| `Emission.IssuanceExactly` | resutil/res-supply.c:12-50 | for any premine, reward, ramp and period the total is within the closed-form bound at every height if and only if the reward is below 2^64 |
| `Emission.BoundFails` | resutil/res-supply.c:27-30 | from 2^64 on the capped shift pays forever, and a height at which the bound is exceeded |
| `Emission.BoundFailsAt` | resutil/res-supply.c:27-30 | a reward of 2^64 with a ramp and a period of one block, and the height |
| `Emission.BoundIsMaxMoney` | src/amount.h:30 | with the constants of the chain the bound is MAX_MONEY to the unit |
| `Emission.RampTotalLoss` | resutil/res-supply.c:19-21 | for any reward and length the slow start falls short of its line by less than one unit a block |
| `Emission.PeriodTotalLoss` | resutil/res-supply.c:22-30 | so does each sloped period, of three quarters of reward times length |
| `Emission.TotalAtEnd` | resutil/res-supply.c:12-50 | all that is ever issued is between the cap less two coins and the cap |
| `Emission.NeverReachesCap` | resutil/res-supply.c:12 | at no height does the total reach the cap, so the loop never ends that way |
| `Emission.NeverUnexpected` | resutil/res-supply.c:37-38 | at no height is the condition of the break that should not happen met |
| `Emission.FirstZero` | resutil/res-supply.c:48-49 | after the premine a block has no reward if and only if it is in the 31st period or later |
| `Emission.BlockReward` | resutil/res-supply.c:14-30 | in the widths of the loop nothing overflows; one million coins for heights 21 to 80 and none elsewhere up to 200; up to 43400 the largest reward within 20 coins times the blocks since over 43200; later the sloped share of the reward halved as often as periods have passed, none exactly from the 31st period on |
| `Emission.Supply` | resutil/res-supply.c:8-50 | in the widths of the loop nothing overflows; it ends when rewards do, at that height, with the exact total, below the cap by less than two coins |

## Left out

- FindByEvictionWeight: beyond the end of the vector the original's search never ends; the model says that nothing is found. The wrap of the index at 2^64 is not modelled.
- PolyMod: the detection of four errors within 89 characters is not shown; that of three within 1023 is.
- LoadConsistent: stated for framed streams: lists of the announced lengths, which are not negative.
- Check_: an address missing from the map is inserted by the lookup in the original; the model reports it without the insertion. Which of several faults is reported is not stated.
- Unserialize: the stream is a record whose lists have the announced lengths; streams cut short and negative counts are not modelled. It is stated for a new manager, since Clear leaves mapInfo and mapAddr.
- CoinsViewCache: one child per cache, no change of the base underneath a child; cachedCoinsUsage is not modelled. Sprout and Sapling maps are one map with the type in the key. Changes made through a modifier take effect at its end.
- ModifyNewCoins: stated where nothing unspent is below, as its comment asks (src/coins.h:506-513); DroppedUncovers says what goes wrong otherwise.
- SetCompact: the flags are always computed; the original can be called without them.
- GetNextWorkRequired: the minimum-difficulty rule of test networks is a boolean input, the chain a sequence of blocks, the timespans parameters.
- GetLocator: nStep is unbounded; the original's int would overflow beyond any real height.
- CheckQueue: fQuit is never set by the original and is left out; nTodo is unbounded; no thread is interrupted.
- Receiver: messages are not taken out of the queue by the message handler; receive times and notifications are left out.
- Sender: the drop and fuzz options for testing, byte statistics and closing of the socket are left out.
- CoinsCodec: VARINT bytes and the compression of scripts and public keys are taken as lossless.
- PartialMerkleTree: hashes are numbers and the pair hash an injective function; the double SHA-256 is not modelled.
- AddrMan: the hashes behind buckets and positions are arbitrary functions.
- GetChance: floating-point numbers are taken as exact; rounding is not modelled.
- Select: random numbers and the times of the clock are given, the times having some upper bound; sleeping between retries is left out.
- Emission: printing of statistics is left out.
- EncodeBase58Check, hexadecimal text, getdouble, bitwise operators and decrement of big integers: easy members.
- GetBlockProofEquivalentTime, operator== of chains, Genesis and Next: easy members.
- Sockets, threads, LevelDB, RPC, init, wallet, validation in main.cpp, block assembly, alerts and bloom filters.
- prevector, limitedmap, mruset, the list of recently evicted transactions and the asynchronous RPC queue.
