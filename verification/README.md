# Bitcoin core data structures, verified

A Dafny model of the cores of this fork of Bitcoin Core, and proofs of what they are meant to
guarantee. Each core is modelled in its own form: what the source updates in place is a class or
an array with the source's loops, asserts and early exits, proved against a mathematical
specification; the laws are lemmas about that specification.

| files | core | what is guaranteed |
|---|---|---|
| `AddrManState`, `AddrManOps`, `AddrManEffects`, `AddrMan`, `AddrManCheck`, `AddrManSaved`, `AddrManForeign`, `AddrManStorage` | address manager | the six coupled structures stay consistent over every run, what each operation does to entries and tables is exact, each loss of an entry is accounted for, and saving and loading gives the same manager up to a renaming of ids |
| `Mempool`, `Miner`, `BlockAssembler` | block package selection | the greedy selection ends, respects all limits and the order of ancestors, and says of all it takes and leaves out why |
| `CoinsState`, `Coins` | UTXO cache stack | any stack of caches is indistinguishable from one flat map |
| `FlagBits`, `MerkleTree`, `PartialMerkleTree`, `MerkleShapes`, `MerkleRows` | partial Merkle trees | no adversary can prove a transaction that is not in the block; every honest tree is read back; exactly which trees are accepted |
| `CheckQueueState`, `CheckQueue` | script check queue | in every interleaving Wait gives the right verdict, and the queue is never stuck |
| `CuckooState`, `CuckooCache` | signature cache | what one insertion can lose, where elements are found, and a bound on the current epoch |
| `WordBits`, `RollingBloom` | rolling Bloom filter | exactly which keys are reported, hence none missed within the window |
| `Chain`, `Compact`, `Pow` | block index, targets, difficulty | the skip list is right, compact targets round-trip, difficulty rules over whole chains |
| `Limbs`, `ArithUint256`, `Targets` | 256-bit numbers | limb loops are arithmetic modulo 2^256, and the proof of a block is the exact quotient |
| `Digits`, `Base58`, `Base58Codec`, `Base58Check` | Base58 | a bijection, in buffers that are always large enough |
| `Bech32Checksum`, `Bech32Field`, `Bech32Roots`, `Bech32Detection`, `Bech32` | Bech32 | the one checksum that fits, that it detects up to three changes within 1023 places, and exactly which strings are decoded |
| `NetFrames`, `NetReceive`, `NetSend` | message framing | the stream is read the same however it is cut, and what is sent arrives as it was pushed |

`Helpers` and `Arithmetic` hold what several of them use.

`dafny verify dfyconfig.toml` checks everything.

## Notes on the source

- src/cuckoocache.h: a comment says that the displacement of an element begins at its first
  location. The code begins at the second: `last_loc` starts as an invalid location, `find` gives
  the end, and one more, masked, is 1. The model does what the code does
  (`CuckooCaches.FirstIsSecond`); later displacements go on as the comment says
  (`CuckooCaches.NextIsAfter`).
- src/merkleblock.h:47 bounds the flag bits by 2*N-1. Taken for the number of hashes sent this is
  not so: a node with a single child costs a bit and no hash. `MerkleTree.BitCount` gives the exact
  number, `MerkleTree.FourBitsTwoHashes` an example and `PartialMerkle.BitsBounded` the exact
  condition.
- src/arith_uint256.cpp:70-83 sets the result to zero before it reads the other operand, so
  `a *= a` gives 0 (`ArithUint256.BaseUint.Multiply`).
- src/miner.h:117 takes the base fee of an added transaction off the cached fees of a descendant,
  where src/miner.cpp:267 takes off the modified fee. So fees set by prioritisation can leave the
  cached sum wrong (`Miner.PrioritisedParent`); `Miner.FeesStayTrue` is the exact condition.
- src/coins.cpp:66-85 trusts its caller: adding without the overwrite flag over a coin of the view
  below, which is not cached, and then spending brings that coin back
  (`CoinsState.MisuseResurrects`). `CoinsState.AddKeepsIff` is the exact condition.
- src/addrman.h:366-497: neither Clear nor Unserialize resets the collision queue, whose ids may
  then name other entries or none. `AddrManSaved.QueuedBeforeLoading` is such a case;
  `AddrManSaved.ClearedInv` and `AddrManSaved.RestoredInv` say exactly when the manager is
  consistent afterwards.

## Model

| member | source | states |
|---|---|---|
| AddrManState.CreateCore | src/addrman.cpp:81-91 | a new entry keeps every part of the consistency condition but for its own missing bucket and count |
| AddrManState.SwapCore | src/addrman.cpp:93-111 | exchanging two places of vRandom keeps all index structures inverse to each other |
| AddrManState.DeleteCore | src/addrman.cpp:113-125 | deleting an entry without references keeps the condition: vRandom, mapAddr and the counters follow |
| AddrManState.ClearNewCore | src/addrman.cpp:127-140 | emptying a new slot keeps the condition: the occupant loses exactly one reference, and its entry only with the last one |
| AddrManState.PutNewCore | src/addrman.cpp:307-309 | filling an empty new slot keeps the condition when the entry has fewer than eight references |
| AddrManState.UnlinkCore | src/addrman.cpp:142-152 | after the bucket walk of MakeTried the entry has no slot left anywhere in the new table and no reference |
| AddrManState.ReleaseCore | src/addrman.cpp:160-166 | taking an entry out of its tried slot leaves it with no slot in either table, and the condition holds up to that one entry |
| AddrManState.PlaceTriedCore | src/addrman.cpp:184-187 | filling the tried slot of an unlinked entry restores the whole condition |
| AddrManState.ReaddCore | src/addrman.cpp:174-179 | the evicted entry is entered in a free new slot with one reference |
| AddrManOps.MakeTriedCore | src/addrman.cpp:142-188 | moving a new entry to tried, with the eviction it may cascade into, keeps the condition |
| AddrManOps.EvictLoses | src/addrman.cpp:157-180 | an eviction from tried gives the entry a new slot; nothing changes for any other entry but the one that held that slot |
| AddrManOps.MakeTriedLoses | src/addrman.cpp:142-188 | the only entry a move to tried can lose is the occupant of the evicted entry's return slot, and only if that slot was its last reference |
| AddrManOps.GoodInv | src/addrman.cpp:190-252 | Good_ keeps the condition for every address, clock reading and flag; no id is reused and no filled tried slot is emptied |
| AddrManOps.GoodMovesToTried | src/addrman.cpp:190-252 | after Good_ a known entry is in tried if and only if it was there, or eviction was not to be tested, or its slot was free |
| AddrManOps.GoodLoses | src/addrman.cpp:190-252 | with a test before eviction Good_ loses nothing; without one at most the last reference in the return slot |
| AddrManEffects.GoodIs | src/addrman.cpp:190-252 | an entry known under exactly this port is marked as reached; if it is not in tried it gets its tried slot and the one that held it goes to its primary new slot, or, with a test before eviction and the slot taken, it is queued if fewer than ten are; everything else is as it was but for the one reference that makes room |
| AddrManOps.SomeBucketHolds | src/addrman.cpp:219-233 | an entry that is not in tried is found in some new bucket, so the bail-out of Good_ cannot happen |
| AddrManOps.AddInv | src/addrman.cpp:254-325 | Add_ keeps the condition for every address, source, penalty, clock reading and draw |
| AddrManOps.AddLoses | src/addrman.cpp:254-325 | Add_ loses only the terrible last-reference occupant of the one slot it writes, and that slot then holds another entry |
| AddrManEffects.AddNewIs | src/addrman.cpp:254-325 | a routable address not known before is in the manager afterwards, in the slot its source gives it, with one reference, its source and its penalised time, if and only if that slot was free or its occupant terrible or in another bucket too; otherwise entries, index and tables are as before |
| AddrManEffects.AddKnownIs | src/addrman.cpp:254-325 | a known entry has its time brought forward and services added by the stated rule, and holds the slot afterwards with its count one higher exactly if it did not before, there was news, it was not in tried, in fewer than eight buckets, the draw was 0, and the slot was free or its occupant terrible |
| AddrManEffects.TerribleIs | src/addrman.cpp:33-53 | when an entry is not worth keeping, in seconds and numbers of attempts |
| AddrManOps.AttemptInv | src/addrman.cpp:327-347 | Attempt_ keeps the condition |
| AddrManEffects.AttemptIs | src/addrman.cpp:327-347 | only this entry changes; its failure is counted exactly if none was counted since an address was last reached, and a second one before the next success is not |
| AddrManOps.ConnectedInv | src/addrman.cpp:495-513 | Connected_ keeps the condition |
| AddrManEffects.ConnectedIs | src/addrman.cpp:495-513 | only this entry changes, and its time exactly if it is more than twenty minutes old |
| AddrManOps.SetServicesInv | src/addrman.cpp:515-531 | SetServices_ keeps the condition |
| AddrManEffects.SetServicesIs | src/addrman.cpp:515-531 | only the services of this entry change |
| AddrManOps.GetAddrInv | src/addrman.cpp:474-493 | GetAddr_ keeps the condition and gives at most 23 percent and 2500 of the entries, all different and none terrible; if it gives fewer than allowed, every entry not given is terrible |
| AddrManOps.AnyFirst | src/addrman.cpp:474-493 | every entry that is not terrible is the first of the answer for some draws |
| AddrManOps.ResolveOneInv | src/addrman.cpp:540-586 | resolving one queued collision keeps the condition and takes at most its own id out of the queue |
| AddrManEffects.ResolveOneIs | src/addrman.cpp:540-586 | a holder reached within four hours stays and the collision leaves the queue; one that was not, and was tried more than 60 seconds and less than four hours ago, gives its slot to the queued entry, goes back to the new table, and the collision leaves the queue; for any other valid queued entry nothing changes |
| AddrManOps.ResolveAllInv | src/addrman.cpp:537-587 | ResolveCollisions_ keeps the condition |
| AddrManEffects.ResolveAllIs | src/addrman.cpp:537-587 | the same over the whole queue: which tried slots keep their holder as it was and which are taken over, and which entries stay in the queue |
| AddrManOps.SelectTriedCollisionInv | src/addrman.cpp:589-614 | SelectTriedCollision_ keeps the condition, and what it returns is an entry in tried: its slot is filled, so it never indexes with -1 |
| AddrManEffects.SelectTriedCollisionIs | src/addrman.cpp:589-614 | it gives the holder of the slot that the drawn queued entry waits for; a drawn one that is gone leaves the queue and gives nothing |
| AddrManOps.RunInv | src/addrman.cpp:397-471 | every run of all the operations, with any hashes, positive clock readings and draws, keeps the condition, hands out no id twice and empties no filled tried slot |
| AddrManOps.EmptyInv | src/addrman.h:471-497 | a cleared manager meets the condition |
| AddrMan.AddrManager.Create | src/addrman.cpp:81-91 | the method on fields has the effect of the function Create |
| AddrMan.AddrManager.SwapRandom | src/addrman.cpp:93-111 | the same for SwapRandom |
| AddrMan.AddrManager.Delete | src/addrman.cpp:113-125 | the same for Delete, its asserts included |
| AddrMan.AddrManager.ClearNew | src/addrman.cpp:127-140 | the same for ClearNew on the slot array |
| AddrMan.AddrManager.MakeTried | src/addrman.cpp:142-188 | the same for MakeTried, with its bucket loop and its asserts |
| AddrMan.AddrManager.Good | src/addrman.cpp:190-252 | the same for Good_, with the scan from a random bucket, and the invariant of the object holds again |
| AddrMan.AddrManager.Add | src/addrman.cpp:254-325 | the same for Add_; it reports a new entry exactly for a routable address not known before |
| AddrMan.AddrManager.Attempt | src/addrman.cpp:327-347 | the same for Attempt_ |
| AddrMan.AddrManager.Connected | src/addrman.cpp:495-513 | the same for Connected_ |
| AddrMan.AddrManager.SetServices | src/addrman.cpp:515-531 | the same for SetServices_ |
| AddrMan.AddrManager.GetAddr | src/addrman.cpp:474-493 | the same for the partial shuffle of GetAddr_; the list given is that of the chosen entries, in order |
| AddrMan.AddrManager.ResolveCollisions | src/addrman.cpp:537-587 | the same for the loop over the collision queue |
| AddrMan.AddrManager.SelectTriedCollision | src/addrman.cpp:589-614 | the same for SelectTriedCollision_ |
| AddrMan.AddrManager.Clear | src/addrman.h:471-497 | an empty manager but for the collision queue, which Clear leaves as it is |
| AddrManCheck.Check | src/addrman.cpp:397-471 | the scan over all entries and both tables returns 0 exactly for the states in which entries, counters and tables agree |
| AddrManCheck.InvAccepted | src/addrman.cpp:397-471 | the invariant implies that Check_ returns 0 |
| AddrManCheck.AcceptedIff | src/addrman.cpp:397-471 | Check_ accepts exactly the states in which the random vector, the times, both tables, all reference counts and the counters are consistent and the address of each entry is found under its id; an address missing from the index goes unnoticed for the id 0 |
| AddrManSaved.RoundTrip | src/addrman.h:316-469 | restoring what was saved never fails, whatever was in the manager before, and gives the same entries, addresses, tried and new slots and reference counts up to one renaming of ids |
| AddrManSaved.RestoredInv | src/addrman.h:366-469 | what is restored from a consistent manager over a queue of collisions c is consistent if and only if c is within the limit and each of its ids has, after loading, an entry whose tried slot is filled; this is also stated on the manager before it was saved, by the places of its entries in the file |
| AddrManSaved.QueuedBeforeLoading | src/addrman.h:366-469 | one saved new entry, loaded over the queue {0}, is not consistent: the tried slot that SelectTriedCollision_ would read for it is empty |
| AddrManSaved.ClearedInv | src/addrman.h:471-497 | a cleared manager is consistent if and only if its collision queue was empty |
| AddrManSaved.WithinLimits | src/addrman.h:386-392 | a consistent manager never has more entries than the size limits of Unserialize allow |
| AddrManForeign.OtherShapeIs | src/addrman.h:394-469 | from a file of another version or with another number of buckets a new entry is kept exactly if no earlier one has the same slot from its source, and then has that slot and no other |
| AddrManForeign.SavedIs | src/addrman.h:316-360 | the header that is written: version, key size, counters, and the number of buckets with bit 30 flipped |
| AddrManStorage.Serialize | src/addrman.h:316-360 | the writing loops produce exactly the saved form: new entries first, then tried ones, then the buckets by number, and their asserts hold |
| AddrManStorage.Unserialize | src/addrman.h:366-469 | the reading loops, for any input at all, fail exactly when the restoring function fails and otherwise leave the state it gives |
| Mempool.WeightBySize | src/miner.cpp:207-216 | the weight of a package is at most four times the sum of its virtual sizes |
| Mempool.CountGrows | src/miner.cpp:293-302 | an ancestor has strictly fewer ancestors, which is why sorting by their number is enough |
| Miner.UpdatePackagesForAdded | src/miner.cpp:256-281 | after a package is added, the cached size, operations and fees of each descendant are its totals less what the members of the package contribute, for entries already modified and for new ones; of the fees, the modified one for the member that made the entry and the base fee for the others |
| Miner.BoundsRepaired | src/miner.cpp:256-281 | after that repair every cached size and operation count is again an upper bound on what of the ancestors is missing from the block, and no cached entry is in the block |
| Miner.ExactRepaired | src/miner.cpp:256-281 | and the size and operation count of each entry that has not failed are exactly those of what is missing |
| Miner.FeesStayTrue | src/miner.cpp:256-281 | cached fees that are those of what is missing stay so if and only if the members taken off at their base fee have in sum the same base fees and modified fees |
| Miner.PrioritisedParent | src/miner.cpp:256-281 | with one parent in the block and a prioritised one added, the fees cached for the child become wrong |
| Miner.SortForBlock | src/miner.cpp:293-302 | the package in order of the number of ancestors: each member once |
| Miner.SortedIsTopological | src/miner.cpp:293-302 | in that order all ancestors inside the package come before |
| BlockAssembly.BlockAssembler.ResetBlock | src/miner.cpp:95-107 | an empty block with the reserved weight and operations |
| BlockAssembly.BlockAssembler.OnlyUnconfirmed | src/miner.cpp:194-205 | removes from a set exactly what is in the block |
| BlockAssembly.BlockAssembler.TestPackage | src/miner.cpp:207-216 | whether the package stays below both limits |
| BlockAssembly.BlockAssembler.TestPackageTransactions | src/miner.cpp:221-230 | whether every transaction of the package may be included |
| BlockAssembly.BlockAssembler.AddToBlock | src/miner.cpp:232-254 | adds one transaction after its ancestors and keeps the template: order, weight, operations, fees and their lists |
| BlockAssembly.BlockAssembler.AddPackageTxs | src/miner.cpp:314-442 | terminates; weight and operations within the limits; the block is as many packages as it counts, one after the other, each of them what was missing of its last transaction and none below the minimum fee. It tells why it ended: out of candidates, and then for each transaction left out there was a time when what was missing of its package was too large or not includable; or at a candidate below the minimum fee; or, exactly if more than 1000 different candidates in a row were too large for the block as it is, with less than 4000 of weight left |
| BlockAssembly.BlockAssembler.CreateNewBlock | src/miner.cpp:109-190 | the finished template: closed under ancestors and ordered, final transactions only and none with a witness unless wanted, weight and operations with the coinbase within the limits, the fee list with the coinbase entry sums to zero, and what is in it and what is left out is justified as before |
| BlockAssembly.FailedIsRefused | src/miner.cpp:381-407 | exact totals that fail a limit, with the block as it is, show that what is missing of the package does not fit in it |
| CoinsState.FetchKeeps | src/coins.cpp:40-55 | reading a coin into the cache changes no answer and keeps the flags truthful |
| CoinsState.AddKeepsIff | src/coins.cpp:66-85 | AddCoin neither throws nor breaks the meaning of the flags if and only if overwriting was announced or the view has no such coin |
| CoinsState.MisuseResurrects | src/coins.cpp:66-85 | used otherwise, adding and then spending gives back the coin of the view below |
| CoinsState.SpendShows | src/coins.cpp:98-114 | spending takes the coin out of the view, by erasing a fresh entry or marking a dirty one |
| CoinsState.UncacheKeeps | src/coins.cpp:210-217 | dropping a clean entry changes no answer |
| CoinsState.MergeShows | src/coins.cpp:145-201 | merging one flagged entry of the child into this cache: never a misapplied FRESH flag, and the view is that of the child at this outpoint |
| CoinsState.StoreShows | src/txdb.cpp:110-117 | what a stored coin map shows after one entry is written |
| CoinsState.UsagePut | src/coins.cpp:66-114 | the memory accounted follows a write of one entry |
| Coins.CoinsViewDB.BatchWrite | src/txdb.cpp:85-140 | the database then shows what the cache above it showed |
| Coins.CoinsViewCache.FetchCoin | src/coins.cpp:40-55 | finds the coin or caches it from the stack below, with no change in what any cache shows |
| Coins.CoinsViewCache.GetCoin | src/coins.cpp:57-64 | the coin of the flat map, if there is one |
| Coins.CoinsViewCache.AccessCoin | src/coins.cpp:116-123 | the same, with a spent coin for none |
| Coins.CoinsViewCache.HaveCoin | src/coins.cpp:125-128 | whether the flat map has it |
| Coins.CoinsViewCache.HaveCoinInCache | src/coins.cpp:130-133 | true only for coins of the view, and exact where there is an entry |
| Coins.CoinsViewCache.AddCoin | src/coins.cpp:66-85 | throws exactly in the stated case; otherwise the view is the flat map with the coin, unless it is unspendable |
| Coins.CoinsViewCache.SpendCoin | src/coins.cpp:98-114 | the view without the coin; the moved coin is that of the view |
| Coins.CoinsViewCache.Uncache | src/coins.cpp:210-217 | the view is unchanged |
| Coins.CoinsViewCache.BatchWrite | src/coins.cpp:145-201 | the view becomes that of the child; the logic error is not reached |
| Coins.CoinsViewCache.Flush | src/coins.cpp:203-208 | the view is unchanged, the cache is empty and the view below now shows the same |
| Coins.CoinsViewCache.HaveInputs | src/coins.cpp:235-245 | whether all inputs are in the view |
| Coins.CoinsViewCache.GetValueIn | src/coins.cpp:223-233 | the sum of the values of the inputs in the view |
| Coins.ValueInIs | src/coins.cpp:223-233 | that sum adds up over any split of the inputs, from single ones |
| Coins.CoinsViewCache.AddCoins | src/coins.cpp:87-96 | every spendable output is in the view with its value, its script, this height and whether the transaction is a coinbase; every other outpoint is as before |
| Coins.AddsOutputs | src/coins.cpp:87-96 | the same for the first outputs, on flat maps |
| Coins.CoinsViewCache.AccessByTxid | src/coins.cpp:250-259 | the first unspent output of a transaction, or none if there is none |
| Coins.CoinsViewCache.Run | src/coins.cpp:40-217 | for any stack of caches, every legal run of operations on the top gives the answers and the view of the same run on one flat map |
| Coins.NotYetAdded | src/coins.cpp:87-96 | outputs after the current one are not added yet, so a first addition is no overwrite |
| FlagBits.BitPut | src/merkleblock.h:88-105 | a flag put in a byte can be read back, and the others do not change |
| PartialMerkle.PackBits | src/merkleblock.h:100-104 | bits in bytes, lowest first, in as few bytes as possible |
| PartialMerkle.UnpackBits | src/merkleblock.h:92-98 | eight bits from every byte |
| PartialMerkle.UnpackPacked | src/merkleblock.h:88-105 | unpacking packed bits gives them back, with fewer than eight behind |
| PartialMerkle.PartialMerkleTree.TraverseAndBuild | src/merkleblock.cpp:60-76 | appends exactly the bits and hashes of the subtree, depth first |
| PartialMerkle.PartialMerkleTree.TraverseAndExtract | src/merkleblock.cpp:78-114 | reads as the extraction function does, including the cursors and the bad flag |
| PartialMerkle.PartialMerkleTree.Build | src/merkleblock.cpp:116-128 | the tree of all transactions |
| PartialMerkle.PartialMerkleTree.ExtractMatches | src/merkleblock.cpp:132-163 | returns a root exactly when every check passes, and 0 otherwise |
| PartialMerkle.Authentic | src/merkleblock.cpp:78-163 | for any bits and hashes whatever: if extraction is accepted with the true root, every reported pair is a transaction of the list at its index, and the indices increase |
| PartialMerkle.Complete | src/merkleblock.cpp:40-163 | for every list of different transactions within the limit and every mask, extraction from the built tree is accepted, returns the true root and reports exactly the masked ones in order |
| MerkleShapes.AcceptedIff | src/merkleblock.cpp:78-163 | under the true root exactly the bits and hashes of a tree that is opened down from the root in some places are accepted, with bits to fill the last byte, for at most 133333 transactions |
| MerkleShapes.SpelledIsAccepted | src/merkleblock.cpp:78-163 | and what is reported are its matches with their places |
| MerkleShapes.SelectionIff | src/merkleblock.cpp:60-163 | such a tree is what is built for some selection if and only if every opened node has a match below it |
| MerkleShapes.OpenedInVain | src/merkleblock.cpp:78-163 | an accepted tree that is not: opened, without any match |
| MerkleRows.RootIsMerkleRoot | src/test/merkle_tests.cpp:12-40 | the hash of the root is the Merkle root computed row by row, an odd last hash paired with itself |
| PartialMerkle.BuildSendExtract | src/merkleblock.cpp:116-163 | the same through building, packing, unpacking and extracting |
| PartialMerkle.Sizes | src/merkleblock.h:34-49 | at most as many hashes as transactions and at most 1 + matches * height; at least 2 * hashes - 1 bits |
| PartialMerkle.BitsBounded | src/merkleblock.h:47 | at most 2 * hashes - 1 bits if and only if no inner node that is entered has a single child |
| MerkleTree.SameHashSameLeaf | src/merkleblock.cpp:40-58 | equal node hashes of one height have equal first leaves |
| MerkleTree.SiblingsDiffer | src/merkleblock.cpp:99-103 | for different transactions the right child never has the hash of the left, so the duplicate check does not fire |
| MerkleTree.NodeSound | src/merkleblock.cpp:78-114 | an accepted subtree with the true hash reports only true leaves of its range, in order |
| MerkleTree.NodeComplete | src/merkleblock.cpp:60-114 | reading a built subtree gives its hash, its matches and moves both cursors over exactly its parts |
| MerkleTree.BitCount | src/merkleblock.h:34-49 | the exact number of bits: twice the hashes, less one, and one for every node with a single child |
| MerkleTree.FourBitsTwoHashes | src/merkleblock.h:47 | with three transactions and the last one matched there are 4 bits and 2 hashes: the number of bits is not bounded by 2 * hashes - 1 |
| MerkleTree.HashCount | src/merkleblock.cpp:60-76 | at most one hash for each leaf below, and at most one for each level of each match |
| CheckQueueState.CountsKept | src/checkqueue.h:66-158 | every step keeps the counters: open checks are those queued and those in flight, idle and total threads are those waiting and inside |
| CheckQueueState.VerdictKept | src/checkqueue.h:66-158 | every step keeps the verdict: all checks added since the last return are true if and only if the flag holds and all pending ones are true |
| CheckQueueState.AwakeKept | src/checkqueue.h:66-158 | a queue that is not empty never has all its workers asleep |
| CheckQueueState.StepInv | src/checkqueue.h:66-158 | all of these together, for every step of every thread |
| CheckQueueState.WaitIsRight | src/checkqueue.h:88-97 | in every interleaving, when Wait returns it tells whether every check added since the last return was true, nothing is in flight and the queue is reset |
| CheckQueueState.NotStuck | src/checkqueue.h:88-101 | while the master is in Wait some thread can take a step |
| CheckQueueState.WorkGoesOn | src/checkqueue.h:146-158 | while there is work and some worker has come in, a worker can take a step |
| CheckQueueState.FairShare | src/checkqueue.h:99-107 | a batch is the most that everyone can have as many of, within the batch size, and at least one |
| CheckQueueState.PotentialFalls | src/checkqueue.h:66-124 | every step but spurious wake-ups, additions and arrivals lowers a measure |
| CheckQueueState.QuietIsShort | src/checkqueue.h:66-124 | so without those a run is no longer than the measure at its start |
| CheckQueueState.WaitEnds | src/checkqueue.h:88-124 | once the master has entered Wait, such a run that cannot be made longer ends where Wait returns |
| CheckQueueState.WaitCanEnd | src/checkqueue.h:88-124 | and from every state in between there is one that does |
| CheckQueues.CheckQueue.Push | src/checkqueue.h:146-158 | Add on the fields is the Add step, with the notification it gives |
| CheckQueues.CheckQueue.CriticalSection | src/checkqueue.h:76-117 | one pass under the mutex is the corresponding step; a return tells whether all checks were true |
| CheckQueues.CheckQueue.ExecuteBatch | src/checkqueue.h:118-122 | runs a batch outside the mutex; checks are skipped only after a failure |
| CuckooState.KeptOnce | src/cuckoocache.h:392-440 | no element is kept in two slots |
| CuckooState.PutOpen | src/cuckoocache.h:407-415 | filling the first open location of an element keeps every kept element where it can be found |
| CuckooState.Swap | src/cuckoocache.h:416-438 | exchanging the element with the occupant of a location keeps that too, with the occupant now the one in hand |
| CuckooState.KeptPut | src/cuckoocache.h:407-438 | what a write to one slot does to the multiset of kept elements |
| CuckooCaches.BitPackedFlags.BitSet | src/cuckoocache.h:92-95 | sets one flag of the packed bytes and no other |
| CuckooCaches.BitPackedFlags.BitUnset | src/cuckoocache.h:103-106 | clears one flag and no other |
| CuckooCaches.BitPackedFlags.BitIsSet | src/cuckoocache.h:113-116 | reads one flag |
| CuckooCaches.Cache.EpochCheck | src/cuckoocache.h:289-321 | afterwards there is room for one more element of the current epoch within the bound; unless it ages the cache nothing is lost, and what it loses was of an older epoch |
| CuckooCaches.Cache.Insert | src/cuckoocache.h:392-440 | the element is kept before, or the kept ones are those before with it and without at most one other, after at most depth_limit exchanges; those before are all, or those of the current epoch where the cache was aged; the element then belongs to the current epoch, and otherwise that has only lost the one dropped; the bound on it holds again |
| CuckooCaches.Cache.Contains | src/cuckoocache.h:467-477 | a kept element is found; with erase it and nothing else is given up |
| CuckooCaches.NextMovesOn | src/cuckoocache.h:416-430 | the next location tried is not the one just exchanged, if the eight are different |
| CuckooCaches.FirstIsSecond | src/cuckoocache.h:416-430 | with no exchange yet the location tried is the second |
| CuckooCaches.NextIsAfter | src/cuckoocache.h:416-430 | and after an exchange the one after the first that equals it, in a circle |
| RollingBloom.RollingBloomFilter.Insert | src/bloom.cpp:248-276 | the key is appended to the keys inserted, and every place is marked with the last generation that touched it |
| RollingBloom.RollingBloomFilter.Contains | src/bloom.cpp:284-296 | true exactly if each place of the key was touched within the last three generations; so true for each of the last 2 * nEntriesPerGeneration + nEntriesThisGeneration keys |
| RollingBloom.RollingBloomFilter.Reset | src/bloom.cpp:304-312 | no key is left and no place is marked |
| RollingBloom.RollingBloomFilter.WipeGeneration | src/bloom.cpp:252-267 | the word masks clear exactly the places of one generation |
| RollingBloom.RecentEra | src/bloom.cpp:248-276 | a place touched by a key has been marked since, at least with its generation |
| RollingBloom.KeyMarked | src/bloom.cpp:248-276 | each place of a key inserted in this or the last two generations is marked |
| Chain.BlockIndex.BuildSkip | src/chain.cpp:115-119 | the skip pointer is the ancestor at the skip height |
| Chain.LowestOneIs | src/chain.cpp:70 | the lowest power of two is what is taken away |
| Chain.BlockIndex.GetAncestor | src/chain.cpp:83-113 | terminates with the block that walking pprev gives at that height, and null outside the range |
| Chain.AncestorTwice | src/chain.cpp:83-113 | an ancestor of an ancestor is an ancestor |
| Chain.LastCommonAncestor | src/chain.cpp:155-170 | the highest block that is an ancestor of both, or null exactly when they have none |
| Chain.ActiveChain.SetTip | src/chain.cpp:11-21 | in spite of its early stop every place of the chain then holds the ancestor of the tip at its height |
| Chain.ActiveChain.FindFork | src/chain.cpp:51-60 | the highest block of the chain that is an ancestor of the argument |
| Chain.ActiveChain.GetLocator | src/chain.cpp:23-49 | strictly descending ancestors from the argument to the first block, one apart at first and then in steps that double; no longer than 12 and the binary logarithm of the height |
| Chain.ActiveChain.Next | src/chain.h:474-480 | the block of the chain right after its argument |
| Compact.DecodeEncode | src/arith_uint256.cpp:206-247 | decoding an encoded number raises no flag and drops only what is below the mantissa |
| Compact.EncodeMonotone | src/arith_uint256.cpp:226-247 | a larger number never has a smaller encoding |
| Compact.OverflowIs | src/arith_uint256.cpp:206-224 | the overflow flag is set exactly when the number meant does not fit in 256 bits; otherwise that number is decoded |
| Compact.MeantIs | src/arith_uint256.cpp:206-224 | the number meant is the low 23 bits moved by whole bytes, with what falls below the point dropped |
| Compact.NegativeIs | src/arith_uint256.cpp:206-224 | the negative flag is set exactly when the sign bit is and the number meant is not zero |
| Compact.KeepsLeading | src/arith_uint256.cpp:226-247 | the compact form keeps at least 15 leading bits |
| Compact.DecodedIsFixed | src/arith_uint256.cpp:206-247 | a number decoded without flags is encoded and decoded to itself |
| Compact.SizeFits | src/arith_uint256.cpp:238-245 | the size byte is at most 33, so the asserts hold |
| Targets.SetCompact | src/arith_uint256.cpp:206-224 | the method on limbs decodes as the function does, flags included |
| Targets.GetCompact | src/arith_uint256.cpp:226-247 | the method on limbs encodes as the function does |
| Targets.GetBlockProof | src/chain.cpp:121-134 | floor(2^256 / (target + 1)), and 0 for a target that is negative, overflowing or 0 |
| ArithUint256.BaseUint.Add | src/arith_uint256.h:141-151 | addition modulo 2^256 |
| ArithUint256.BaseUint.Complement | src/arith_uint256.h:75-81 | the complement |
| ArithUint256.BaseUint.Increment | src/arith_uint256.h:179-186 | one more, modulo 2^256 |
| ArithUint256.BaseUint.Negate | src/arith_uint256.h:83-90 | the negative modulo 2^256 |
| ArithUint256.BaseUint.Subtract | src/arith_uint256.h:153-157 | subtraction modulo 2^256 |
| ArithUint256.BaseUint.MultiplyWord | src/arith_uint256.cpp:58-67 | the product with one word modulo 2^256 |
| ArithUint256.BaseUint.Multiply | src/arith_uint256.cpp:70-83 | the product modulo 2^256; 0 if both operands are the same object |
| ArithUint256.BaseUint.ShiftLeft | src/arith_uint256.cpp:24-38 | the product with a power of two modulo 2^256 |
| ArithUint256.BaseUint.ShiftRight | src/arith_uint256.cpp:41-55 | the quotient by a power of two |
| ArithUint256.BaseUint.Divide | src/arith_uint256.cpp:86-109 | the exact quotient for every divisor but 0, which is refused |
| ArithUint256.BaseUint.CompareTo | src/arith_uint256.cpp:112-121 | the order of the values |
| ArithUint256.BaseUint.Bits | src/arith_uint256.cpp:174-186 | the length in bits |
| Limbs.OrAdds | src/arith_uint256.cpp:24-55 | or-ing words that share no bits adds them |
| Pow.GetNextWorkRequired | src/pow.cpp:21-64 | the loops over the index give the required target of the rules |
| Pow.CalculateNextWorkRequired | src/pow.cpp:72-117 | the retarget from the clamped timespan, at most the limit |
| Pow.RetargetIs | src/pow.cpp:72-117 | the new target is floor(old * span / timespan) or the limit if that is less, with the span no less than a quarter and no more than four times the timespan |
| Pow.RetargetMonotone | src/pow.cpp:72-117 | a longer span never gives a smaller target |
| Pow.RetargetClamped | src/pow.cpp:72-82 | a span beyond the factor of four gives the target of the span at it |
| Pow.RetargetOnTime | src/pow.cpp:72-117 | a span of just the timespan leaves a target in range as it is |
| Pow.IntervalBits | src/pow.cpp:21-64 | in a chain that follows the rules every target in an interval is that of its first block or the limit, and the walk back finds that of the first block |
| Pow.OffBoundary | src/pow.cpp:21-53 | in a chain that follows the rules a block off the boundaries has the limit if minimum difficulty is allowed, its height is at most 60500 and it comes more than two spacings after its parent; otherwise it has the target of the first block of its interval |
| Pow.OnBoundary | src/pow.cpp:55-64 | and one on a boundary has the retarget of its parent from the time of the first block of the interval before |
| Pow.LateBlocksAgree | src/pow.cpp:36-41 | a block that does not start an interval and whose parent is at height 60500 or above has exactly the target of the first block of its interval |
| Pow.RetargetFromFirst | src/pow.cpp:44-63 | above height 51840 the retarget starts from the target of the first block of the interval and from its time |
| Pow.RetargetInRange | src/pow.cpp:72-117 | a retarget decodes without flags to at most the limit, and is the truncation of the scaled target |
| Pow.ChainInRange | src/pow.cpp:146-163 | in a whole chain that follows the rules every target passes the range check |
| Pow.CheckProofOfWork | src/pow.cpp:146-163 | accepted exactly for a target in range that the hash does not exceed |
| Digits.WrittenIs | src/base58.cpp:66-104 | the digits written have the value, and do not start with 0 |
| Base58.SymbolIs | src/base58.cpp:14 | the alphabet |
| Digits.OneWay | src/base58.cpp:66-104 | there is only one way to write a number without leading zeroes |
| Digits.TailStep | src/base58.cpp:40-44 | one more digit of the carry loop: what is done and what is carried add up |
| Digits.Room | src/base58.cpp:28-30 | if q digits of one base fit in p of another, n fit in m as soon as m / n is at least p / q |
| Base58Codec.EncodeRoom | src/base58.cpp:75-77 | the buffer of 138/100 digits per byte is large enough for every length |
| Base58Codec.DecodeRoom | src/base58.cpp:28-30 | the buffer of 733/1000 bytes per digit is large enough for every length |
| Base58Codec.MultiplyAdd | src/base58.cpp:37-46 | the carry loop multiplies and adds over the whole buffer, and its assert of no carry holds |
| Base58Codec.EncodeBase58 | src/base58.cpp:66-104 | the text of every byte vector: a 1 for every leading zero, then the digits |
| Base58Codec.DecodeBase58 | src/base58.cpp:16-64 | accepts exactly one word of the alphabet with white space around it, and gives its zeroes and the bytes of its value |
| Base58.DecodeEncode | src/base58.cpp:16-104 | decoding undoes encoding, for every byte vector |
| Base58.EncodeDecode | src/base58.cpp:16-104 | encoding what was decoded gives the text without the white space around it |
| Base58Check.EncodeBase58Check | src/base58.cpp:116-123 | the encoding of the data with the first four bytes of its hash behind |
| Base58Check.DecodeBase58Check | src/base58.cpp:125-140 | accepts a text if and only if it is the encoding, with white space around it, of data with its check, and gives those data |
| Bech32Checksum.ShiftLinear | src/bech32.cpp:65-92 | the round of PolyMod without a value is linear over exclusive or |
| Bech32Checksum.ShiftInjective | src/bech32.cpp:65-92 | and loses nothing on states of 30 bits |
| Bech32Checksum.AbsorbInjective | src/bech32.cpp:65-94 | a difference of states stays while the same values follow |
| Bech32Field.Period | src/bech32.cpp:43-49 | in the field of 1024 elements over which the generator splits, no power of h below the 1023rd fixes anything but 0 |
| Bech32Roots.GeneratorsValue | src/bech32.cpp:43-92 | the five constants of PolyMod are those of a generator with h^24, h^25 and h^26 as roots |
| Bech32Roots.ShiftValue | src/bech32.cpp:65-92 | a round of PolyMod without a value multiplies the value of the state at each of these roots by the root |
| Bech32Roots.ThreeApart | src/bech32.cpp:43-49 | no sum of up to three constants at places less than 1023 apart is a multiple of the generator, unless all are 0 |
| Bech32Checksum.Advance | src/bech32.cpp:65-92 | one round with its five conditional additions is the step |
| Bech32Checksum.ComputePolyMod | src/bech32.cpp:37-95 | the loop computes the checksum of a sequence |
| Bech32Detection.ChangesDetected | src/bech32.cpp:45-49 | any change of up to three values within 1023 places changes the result, whatever is around and between them |
| Bech32Detection.BurstDetected | src/bech32.cpp:37-95 | so do changes within any six neighbouring values |
| Bech32Detection.ChecksumFits | src/bech32.cpp:128-140 | the result over the data and the created checksum is 1, for every sequence |
| Bech32Detection.ChecksumIsUnique | src/bech32.cpp:118-140 | and for no other six values of five bits |
| Bech32.IndexIs | src/bech32.cpp:14-25 | the two tables are inverse to each other, for letters of either case |
| Bech32.CharIs | src/bech32.cpp:13 | the alphabet |
| Bech32.ExpandHRP | src/bech32.cpp:103-115 | the high three bits of every character, a zero and the low five bits of every character |
| Bech32.VerifyChecksum | src/bech32.cpp:118-125 | whether the result over prefix and values is 1 |
| Bech32.CreateChecksum | src/bech32.cpp:128-140 | the six groups of the result over six zeroes, with 1 added |
| Bech32.Encode | src/bech32.cpp:147-156 | prefix, separator and the symbols of the values with their checksum |
| Bech32.Decode | src/bech32.cpp:159-189 | succeeds if and only if the text, in lower case, is an encoding: printable, not of mixed case, of at most 90 characters with a prefix; and then gives the one pair it encodes |
| Bech32.EncodedIsEncoding | src/bech32.cpp:147-189 | so every encoding of five-bit values under a printable prefix without capitals, of at most 90 characters, is decoded to itself |
| Bech32.ShortestText | src/test/bech32_tests.cpp:26-29 | the prefix a and no data give a12uel5l |
| Bech32.CodewordsApart | src/bech32.cpp:118-140 | two encodings under one prefix that agree in all but three symbols are equal |
| Bech32.CodewordsDiffer | src/bech32.cpp:118-140 | two that agree but for six symbols in a row are equal |
| Bech32.PrefixApart | src/bech32.cpp:118-140 | changing one character of the prefix makes the checksum fail |
| NetFrames.FeedParse | src/net.cpp:740-790 | feeding bytes to what a stream has left goes on with the parse of the stream |
| NetFrames.CutAnywhere | src/net.cpp:740-790 | every way of cutting a stream gives the same messages, the same partial one and the same verdict |
| NetFrames.ParsedFrames | src/net.cpp:740-790 | an accepted stream is complete messages within the size limit and at most one beginning |
| NetFrames.Refused | src/net.cpp:763-769 | after a header that is refused nothing behind it matters |
| NetFrames.RefusedIff | src/net.cpp:763-769 | a header is refused exactly if its size is above 16000000 |
| NetFrames.SizeIs | src/protocol.h:53-60 | the size is at offset 16, its lowest byte first |
| NetReceive.NetMessage.ReadHeader | src/net.cpp:819-848 | takes at most what is missing of 24 bytes; -1 exactly for a full header with a size above MAX_SIZE |
| NetReceive.NetMessage.ReadData | src/net.cpp:850-865 | takes at most what is missing of the data, whatever was allocated ahead |
| NetReceive.NetMessage.CompleteIs | src/net.h:578-583 | complete() holds exactly for a full header with all its data, of size 0 too, and then the buffer is exactly the data |
| NetReceive.Node.ReceiveMsgBytes | src/net.cpp:740-790 | the messages and the verdict are those of feeding the bytes; complete is set exactly if a message was completed |
| NetReceive.Node.PassOn | src/net.cpp:1359-1373 | hands on exactly the complete messages in front, in order, and accounts for their size |
| NetReceive.Connection | src/net.cpp:1353-1375 | over a whole connection what has come, and whether it is accepted, is the parse of the stream |
| NetSend.SendQueue.SocketSendData | src/net.cpp:884-934 | bytes taken by the socket and bytes still queued are the bytes queued before, for any answers of the socket; the size and pause flag stay exact, the three asserts hold, and a socket that takes everything empties the queue |
| NetSend.SendQueue.PushMessage | src/net.cpp:2820-2856 | bytes taken and still queued are those queued before, the header and the data |
| NetSend.Delivered | src/net.cpp:740-790 | whatever part of some complete messages has arrived is read as those messages, in order and unchanged; all of them once all has arrived |
| NetSend.Sender | src/net.cpp:884-934 | any schedule of pushes and sends puts on the wire the bytes of the messages pushed, in order, up to what is still queued |
| NetSend.Transfer | src/net.cpp:884-934 | from sender to receiver, with the wire cut anywhere: the complete messages received are the first of those pushed, and all of them once nothing is queued |
| NetSend.HeaderSize | src/protocol.h:53-60 | the size in a header is read back |
| NetSend.HeaderIs | src/protocol.h:33-60 | a header is the start, the command, the size with its lowest byte first and the checksum |

## Left out

- Byte encodings of address records, integers and vectors: AddrManSaved and PartialMerkle work on the values that are written and read, and the checksum of peers.dat is not modelled.
- src/addrman.cpp Select_ and GetChance: floating point, and they end only with probability 1.
- AddrManCheck.Check: the code -16 for a null key is not there, because the key stands for arbitrary hash functions.
- src/addrman.cpp Check_ under DEBUG_ADDRMAN inserts a default entry through operator[] when an address is missing; the model looks it up without inserting.
- The clock is read once per operation of the address manager, and 64-bit times do not overflow; nTime is reduced to 32 bits where the source stores it.
- The mempool is a finite graph with its closed ancestor relation; the traversals in txmempool.cpp that compute ancestors and descendants are not modelled.
- BlockAssembly.BlockAssembler.AddPackageTxs: which of two candidates comes first is left open, so nothing is claimed about the order of fee rates, which are compared in floating point (src/txmempool.h:280-295).
- BlockAssembly.BlockAssembler.CreateNewBlock: the coinbase transaction, its founder reward and the block validity test are left out.
- Coins.CoinsViewDB.BatchWrite: one atomic write; the best-block markers, and the partial batches between them, are left out.
- Coins: hashBlock and cursors; script memory is a function of the coin, and the salted hasher does not matter.
- CheckQueueState: checks are values that are true or false, and a spurious wake-up is a step of its own; the destructor and CCheckQueueControl are left out.
- The memory order of the atomics of src/cuckoocache.h: calls are taken one after the other. The depth limit is a parameter of at least 1 in place of a logarithm.
- RollingBloom.RollingBloomFilter.constructor: the number of bits and hash functions are parameters in place of floating point sizing, and nElements is at least 1; nTweak is part of the hash.
- CalcTreeWidth is over unbounded integers; for more than 2^31 transactions the source wraps.
- FindEarliestAtLeast, block status flags and GetMedianTimePast in src/chain.h.
- src/pow.cpp: the Equihash and authorization checks, and the conversions through hex strings, which are the identity on numbers.
- Base58Codec.EncodeRoom: over unbounded integers; the products in src/base58.cpp:28 and :75 are of size_t and ptrdiff_t, and could wrap for some million characters only where these have 32 bits.
- Bech32Detection.ChangesDetected: the comment at src/bech32.cpp:45-49 also promises four errors within 89 characters. This generator was picked by a search over all such errors, and no shorter argument is known.
- Bech32.Encode: values above 31 would index beyond the character table in the source; the caller has to give five-bit values.
- Per-command byte counters, message times, the message hash and the network magic in src/net.cpp; closing the socket on an error is an end of the answers.
