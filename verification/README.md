# Verified models of a Bitcoin-derived node

This project models, in Dafny 4.11, the algorithmic cores of the node and proves what each
is for: properties of every input, every run or every reachable state.

| files | component |
|---|---|
| `Coins.dfy`, `CoinsCache.dfy` | the stack of write-back coin caches over the database |
| `AddrTables.dfy`, `AddrState.dfy`, `AddrOps.dfy`, `AddrMan.dfy` | the address manager and its redundant structures |
| `AddrReports.dfy` | what each report does to entries and tables |
| `AddrCheck.dfy`, `AddrTimes.dfy` | its own consistency test, and the times that test looks at |
| `AddrDisk.dfy`, `AddrLoad.dfy` | writing it to and reading it from disk |
| `AncestorScore.dfy`, `Packages.dfy`, `BlockAssembler.dfy` | selection of ancestor packages for a block template |
| `CheckQueue.dfy` | the parallel check queue as a state machine over all interleavings |
| `MerkleTree.dfy`, `MerkleProofs.dfy`, `PartialMerkleTree.dfy` | partial Merkle trees (section "Partial Merkle branch format" of BIP 37) |
| `Powers.dfy`, `Limbs.dfy`, `Bits.dfy`, `ArithUint.dfy`, `Compact.dfy` | 256-bit arithmetic on limbs, compact targets, block work |
| `BlockTree.dfy`, `Chain.dfy`, `ProofOfWork.dfy` | skip links, the active chain, locators, retargeting |
| `CompactBlocks.dfy` | compact block reconstruction (BIP 152) |
| `RollingBloom.dfy` | the rolling Bloom filter |
| `CuckooCache.dfy` | the cuckoo cache |
| `ByteBits.dfy` | single bits of packed bytes, for the cuckoo cache and the partial Merkle trees |
| `Bech32.dfy`, `BechVector.dfy` | Bech32 (section "Bech32" of BIP 173) |
| `Gf32.dfy`, `Gf1024.dfy`, `Polynomials.dfy`, `BechCode.dfy` | the fields and polynomials behind its checksum, and the errors it detects |
| `Digits.dfy`, `Base58.dfy` | Base58 |

Objects whose methods update fields are classes with `modifies` clauses; loops are loops with
invariants; each such method is proved against a function of its inputs or of the old state,
and the lemmas about that function carry the properties. Hash functions, clocks, random
numbers and code outside the modelled files are parameters, so the results hold for all of
them; hashing is assumed injective only in the Merkle tree results. Integers are unbounded
and machine widths are written out where they matter: 32-bit limbs and the 32-bit factor of
the retarget product, 16-bit positions in compact blocks, 64-bit filter words, 8-bit flags.

Where code and comments disagree, the code is followed:

- `src/cuckoocache.h:416-430`: when no slot was used before, the index computed is 1, not 0
  as the comment says.
- `src/merkleblock.h:47`: the flag bits are not always at most twice the hashes minus one;
  `MerkleTree.FourBitsTwoHashes` is an input, `MerkleTree.EncodedSize` the exact condition.
- `src/arith_uint256.cpp:69-83`: multiplying an object by itself in place gives zero, since the
  operand is read after `*this` was cleared.
- `src/miner.h:108-120`: a parent's base fee is taken off a sum of modified fees, while the first
  subtraction takes off the modified fee; `Packages.SubtractsAgreeIff` is the exact condition.
- `src/coins.cpp:101-116`: the flag `fJustCheck` of `SpendCoin` has no effect.
- `src/coins.cpp:207-212`: flushing a cache that never learned a best block erases the best
  block of the layer below.
- `src/blockencodings.cpp:80-98`: positions and offsets are kept in 16 bits although messages of
  100000 transactions are accepted; `CompactBlocks.PositionsRightIff` and
  `CompactBlocks.SlotLoopsEndIff` are the exact conditions, `CompactBlocks.LastStrays` and
  `CompactBlocks.FullMessageIsEndless` the inputs.

## Model

| member | source | states |
|---|---|---|
| `Coins.AddKeepsLayerIff` | src/coins.cpp:69-88 | an add keeps the entry consistent with the layer below exactly when overwriting is allowed, the key is cached, or nothing unspent lies below; the FRESH mark is wrong in every other case |
| `Coins.MisusedAddResurrects` | src/coins.cpp:79-84 | what a misused add leads to: after add and spend the old coin below shows again, and flushing it into a parent that has fetched it throws |
| `Coins.WriteEntryCorrect` | src/coins.cpp:149-205 | merging one child entry into a parent never throws for consistent layers, keeps the parent consistent, and makes it show the child's coin |
| `Coins.TotalUsagePut` | src/coins.cpp:43-116 | replacing an entry changes the memory total by exactly the difference of the two entries |
| `CoinsCache.CoinsViewStore.BatchWrite` | src/txdb.cpp:98-143 | writes exactly the dirty entries; for a cache consistent with it the database afterwards holds, key by key, what the cache showed over it |
| `CoinsCache.CoinsViewCache.constructor` | src/coins.cpp:37-37 | a new cache layer shows exactly what its backing view shows |
| `CoinsCache.CoinsViewCache.FetchCoin` | src/coins.cpp:43-58 | fetching caches, without flags, the unspent coin the layer below shows, nothing when it shows none, and leaves what that layer shows as it was |
| `CoinsCache.CoinsViewCache.GetCoin` | src/coins.cpp:60-67 | returns the visible coin, and whether it is unspent, leaving the whole view as it was |
| `CoinsCache.CoinsViewCache.HaveCoin` | src/coins.cpp:129-132 | true exactly when an unspent coin is visible |
| `CoinsCache.CoinsViewCache.AddCoin` | src/coins.cpp:69-88 | shows the coin at one key and changes no other; the layer stays valid exactly when the overwrite permission was given, the key was cached, or nothing unspent was visible; throws exactly for a cached unspent coin without the permission, and then only the usage total has moved |
| `CoinsCache.CoinsViewCache.AddCoins` | src/coins.cpp:90-99 | shows every spendable output of a transaction and changes nothing else unless it throws; with the check, for a coinbase, or when no output replaces a coin, it does not throw and the layer stays valid |
| `CoinsCache.CoinsViewCache.SpendCoin` | src/coins.cpp:101-116 | removes one key from the view and no other, with either value of the check-only flag, and returns the coin that was visible there; succeeds exactly when one was visible or an entry was cached |
| `CoinsCache.CoinsViewCache.GetBestBlock` | src/coins.cpp:139-143 | finds the best block through the layers and remembers it without changing the answer or any coin |
| `CoinsCache.CoinsViewCache.BatchWrite` | src/coins.cpp:149-205 | throws exactly when a dirty FRESH child entry meets an unspent parent entry; for a consistent child it does not throw and the parent shows the child's view |
| `CoinsCache.CoinsViewCache.Flush` | src/coins.cpp:207-212 | empties the cache, moves its whole view to the layer below and keeps what is visible; the layer below takes over the best block of this cache, even an unset one |
| `CoinsCache.CoinsViewCache.Uncache` | src/coins.cpp:214-221 | drops an unmodified entry and changes no view |
| `CoinsCache.CoinsViewCache.FlushAt` | src/coins.cpp:207-212 | flushing any layer of the stack leaves the top view unchanged |
| `CoinsCache.CoinsViewCache.UncacheAt` | src/coins.cpp:214-221 | uncaching at any layer leaves the top view unchanged |
| `CoinsCache.CoinsViewCache.Step` | src/coins.cpp:43-221 | one read, add, spend, flush or uncache does to the stack what it does to a plain map |
| `CoinsCache.CoinsViewCache.Run` | src/coins.cpp:43-221 | every legal run over a stack of any depth reads and leaves what the same run over one plain map reads and leaves, with all layers consistent throughout |
| `AddrTables.DropRef` | src/addrman.cpp:127-140 | taking an id out of one new slot and lowering its count keeps every reference count equal to the slots held |
| `AddrTables.AddRef` | src/addrman.cpp:302-305 | putting an id into its hashed free slot and raising its count keeps all reference counts right |
| `AddrTables.RandomListsAll` | src/addrman.cpp:385-459 | clause -7: the random order lists every entry once, so its length is the sum of the two counters |
| `AddrState.CreateInv` | src/addrman.cpp:81-91 | creating an entry keeps all structures consistent, with the new entry still unreferenced |
| `AddrState.SwapRandomInv` | src/addrman.cpp:93-111 | swapping two places of the random order keeps positions and order inverse and moves nothing else |
| `AddrState.DeleteInv` | src/addrman.cpp:113-125 | deleting an unreferenced new entry removes it from all structures and keeps them consistent |
| `AddrState.ClearNewInv` | src/addrman.cpp:127-140 | clearing any new slot keeps the invariant |
| `AddrState.ClearNewFrame` | src/addrman.cpp:127-140 | exactly that slot is emptied; its occupant loses one reference and is forgotten exactly when it was the last, and no other entry changes |
| `AddrState.DrainAllInv` | src/addrman.cpp:144-154 | the loop of MakeTried leaves the entry in no new slot with count zero |
| `AddrState.EvictInv` | src/addrman.cpp:160-182 | moving a tried occupant back to the new table keeps the invariant, whatever it displaces there |
| `AddrState.MakeTriedInv` | src/addrman.cpp:142-188 | promoting an entry keeps the whole invariant, including the case that evicts another entry |
| `AddrState.ProbeVisits` | src/addrman.cpp:219-229 | probing from any random start visits every bucket, so a referenced entry is found |
| `AddrOps.GoodValid` | src/addrman.cpp:190-240 | Good_ keeps the invariant; a known address ends in the tried table at its own slot, and no other tried slot changes |
| `AddrOps.PlaceInv` | src/addrman.cpp:291-311 | storing a reference keeps the invariant, and happens exactly when the occupant yields; an entry that gets none is forgotten |
| `AddrOps.AddValid` | src/addrman.cpp:242-313 | Add_ keeps the invariant and the tried table; an unknown address ends up known exactly when its slot is free or held by a terrible or over-referenced entry |
| `AddrReports.AddKnown` | src/addrman.cpp:242-313 | a report of a known address adds its services, sets its time when the report is news, and takes the slot of this source exactly when an untried entry below the reference limit is reported as news, wins the draw, and the slot yields; every other entry, slot and field stays |
| `AddrReports.AddUnknown` | src/addrman.cpp:242-313 | an unknown address comes in with the reported data and the penalised time when its slot is free or its occupant is terrible or has other references; otherwise only an id is used up |
| `AddrReports.GoodEffect` | src/addrman.cpp:190-240 | a reported success sets both times, clears the attempts and moves the entry to the tried table; the entry pushed out goes to its own new slot with one reference, and nothing else changes |
| `AddrOps.SampleExact` | src/addrman.cpp:462-481 | an address is returned by GetAddr_ exactly when it was drawn and is not terrible |
| `AddrOps.SampleDistinct` | src/addrman.cpp:462-481 | no address is returned twice |
| `AddrOps.SampleSize` | src/addrman.cpp:464-466 | the number asked for is the largest within 23 percent of the entries and 2500 |
| `AddrReports.CountedOnce` | src/addrman.cpp:315-335 | a failure is counted only when none was since the last success of any peer, and a second one counts nothing |
| `AddrReports.ConnectedIsClose` | src/addrman.cpp:483-501 | a connection brings the time to within twenty minutes and changes nothing else |
| `AddrReports.TerribleIff` | src/addrman.cpp:33-55 | an entry is given up never in the minute after a try; else when not heard of in the last thirty days or from the future, after three failures with no success ever, or after ten with none in a week |
| `AddrReports.GoodIsNotTerrible` | src/addrman.cpp:33-55 | a success keeps an entry for a minute, and for a week if it was heard of lately |
| `AddrMan.AddrMan.constructor` | src/addrman.h:456-478 | a cleared manager satisfies the invariant and is empty |
| `AddrMan.AddrMan.Create` | src/addrman.cpp:81-91 | the in-place update equals the specified state change |
| `AddrMan.AddrMan.SwapRandom` | src/addrman.cpp:93-111 | the in-place swap equals the specified state change |
| `AddrMan.AddrMan.Delete` | src/addrman.cpp:113-125 | the in-place removal equals the specified state change |
| `AddrMan.AddrMan.ClearNew` | src/addrman.cpp:127-140 | the in-place clearing equals the specified state change |
| `AddrMan.AddrMan.MakeTried` | src/addrman.cpp:142-188 | the in-place promotion equals the specified one, with the source's asserts on the count and the freed slot proved |
| `AddrMan.AddrMan.FindBucket` | src/addrman.cpp:219-234 | the probing loop, from any start, returns a bucket that holds the entry and fails exactly when none does |
| `AddrMan.AddrMan.Good_` | src/addrman.cpp:190-240 | keeps the invariant and computes the specified state, so the exit for an entry in no bucket is never taken; the time of the last success is recorded |
| `AddrMan.AddrMan.Add_` | src/addrman.cpp:242-313 | keeps the invariant, computes the specified state, and reports a new address exactly when it was unknown and routable |
| `AddrMan.AddrMan.Attempt_` | src/addrman.cpp:315-335 | keeps the invariant and changes only the statistics of a known address with the same port |
| `AddrMan.AddrMan.Connected_` | src/addrman.cpp:483-501 | keeps the invariant and changes only the time of a known address |
| `AddrMan.AddrMan.SetServices_` | src/addrman.cpp:503-519 | keeps the invariant and changes only the services of a known address |
| `AddrMan.AddrMan.GetAddr_` | src/addrman.cpp:462-481 | keeps the invariant, changes only the random order, and returns the good addresses of a drawn prefix, as many as asked or all |
| `AddrCheck.EntriesPass` | src/addrman.cpp:393-417 | no entry of a consistent state with sound times fails the per-entry clauses of Check_, and the two working sets come out as intended |
| `AddrCheck.TriedTablePasses` | src/addrman.cpp:424-436 | at every point of the scan over the tried table the working set is what is still to come |
| `AddrCheck.NewTablePasses` | src/addrman.cpp:438-449 | at every point of the scan over the new table the remaining counts are the references still to come |
| `AddrCheck.CheckPassesIff` | src/addrman.cpp:385-459 | of a state that keeps the invariant the source's own test complains exactly when a time is negative, a tried entry has had no success, or the key is null |
| `AddrTimes.GoodTimes` | src/addrman.cpp:190-240 | Good_ at a positive time keeps all times sound, whatever it moves, evicts and forgets |
| `AddrTimes.AddTimes` | src/addrman.cpp:242-313 | so does Add_, whatever times it is given |
| `AddrLoad.LoadedValidIff` | src/addrman.h:350-454 | reading any stream that does not throw gives a state that keeps the invariant exactly when, as pruning begins, every address shared by entries belongs only to new entries without a reference; all clauses but the address index hold in any case |
| `AddrLoad.LoadedValid` | src/addrman.h:350-454 | in particular the invariant holds when no address is repeated among the records read, in every format version |
| `AddrLoad.TriedGetsFirst` | src/addrman.h:398-417 | a tried slot gets the first record that belongs there, from any stream, and the others for it are lost |
| `AddrLoad.NewGetsFirst` | src/addrman.h:379-395 | when the stored positions cannot be used, so does the slot a new record's own source leads to |
| `AddrLoad.RepeatedAddress` | src/addrman.h:379-417 | one address as a new and as a tried entry is read without a throw and breaks the address index |
| `AddrDisk.OrderSize` | src/addrman.h:314-333 | the entries written in each part are as many as the counter says |
| `AddrDisk.CountsFit` | src/addrman.h:371-377 | the counters of a consistent state never exceed the limits checked on reading |
| `AddrDisk.RhoInjective` | src/addrman.h:314-333 | the renumbering done by writing never gives two entries one id |
| `AddrDisk.SameRefs` | src/addrman.h:420-436 | after the positions are read an entry has the reference count it had, and all persistent fields |
| `AddrDisk.NothingPruned` | src/addrman.h:438-448 | when every entry is tried or referenced the pruning loop changes nothing |
| `AddrDisk.RoundTrip` | src/addrman.h:300-454 | reading what was written does not throw and rebuilds both tables, all entries and the address index exactly up to the renumbering, losing nothing |
| `AddrMan.AddrMan.Serialize` | src/addrman.h:300-348 | writes the specified stream; the asserts on both counters hold |
| `AddrMan.AddrMan.Unserialize` | src/addrman.h:350-454 | throws exactly for a bad key size, a count beyond its table or a short stream, and otherwise computes the specified state for any stream, with repeated addresses too |
| `AddrMan.AddrMan.Reload` | src/addrman.h:300-454 | writing and reading back in place gives a valid manager matching the old one |
| `AddrMan.AddrMan.Run` | src/addrman.cpp:81-335 | after every run of public operations from a cleared manager the invariant holds, and Check_ returns 0 if successes were reported at positive and attempts at non-negative times |
| `Packages.CachedCovers` | src/miner.cpp:733-735 | the cached ancestor totals of the pool bound what a package adds, and its size and sigops are exact when nothing of it is selected |
| `Packages.UnmodifiedIsExact` | src/miner.cpp:640-644 | a candidate that is not skipped has no ancestor in the block, so its cached size and sigops are exactly those of its package |
| `Packages.FirstCovers` | src/miner.h:35-54 | a modified entry that subtracts its first included ancestor still bounds the unselected rest of its package |
| `Packages.SubtractCovers` | src/miner.h:108-120 | subtracting a further included ancestor keeps the bound |
| `Packages.FirstExact` | src/miner.h:35-54 | the first subtraction is exact in size and sigops, and in fees when no fee was modified, while no ancestor is selected |
| `Packages.SubtractExact` | src/miner.h:108-120 | so is every further one |
| `Packages.SubtractsAgreeIff` | src/miner.h:108-120 | the two ways to subtract a parent agree exactly when its fee was not modified |
| `AncestorScore.HigherIsOrder` | src/txmempool.h:289-327 | the comparator by the worse of own and package fee rate, hash last, is a strict weak order |
| `AncestorScore.ScoreOf` | src/txmempool.h:310-326 | the score is one of the two rates, and neither of them is lower |
| `Packages.BetterIsGreedy` | src/miner.cpp:706-731 | the better of the best modified entry and the next of the index scores at least as high as everything left |
| `Packages.UpdateForKeeps` | src/miner.cpp:485-510 | updating the descendants of an included transaction keeps every modified entry a bound and keeps the map disjoint from the block |
| `Packages.UpdateForExact` | src/miner.cpp:485-510 | it also keeps every modified entry exact that is not recorded as failed |
| `Packages.PackageCloses` | src/miner.cpp:423-434 | adding a transaction with its unselected ancestors keeps the selection closed under ancestors |
| `Packages.AncestorCountsLess` | src/miner.h:76-86 | an ancestor has a smaller ancestor count than its descendant, so the comparator puts it first |
| `Packages.AppendPackage` | src/miner.cpp:646-655 | a package sorted by ancestor count can be appended without putting a child before its parent or repeating one |
| `Packages.AncestorsFirst` | src/miner.cpp:646-655 | in an ordered closed list every in-pool ancestor stands before its descendant |
| `Packages.PackageFits` | src/miner.cpp:436-445 | a claim that bounds a package also bounds the weight and sigop totals after adding it |
| `BlockAssembler.BlockAssembler.constructor` | src/miner.cpp:84-123 | the weight limit is the option, clamped at both ends, and the empty template is valid and within limits |
| `BlockAssembler.BlockAssembler.AddToBlock` | src/miner.cpp:466-483 | appends one transaction and adds exactly its fee, weight and sigops to the totals |
| `BlockAssembler.BlockAssembler.SortForBlock` | src/miner.cpp:646-655 | returns the package's transactions, each once, in comparator order |
| `BlockAssembler.BlockAssembler.UpdatePackagesForAdded` | src/miner.cpp:485-510 | afterwards every modified entry bounds its unselected package with respect to the grown block, is exact unless its transaction failed before, and every affected descendant is recorded |
| `BlockAssembler.BlockAssembler.AddPackage` | src/miner.cpp:783-802 | a package that passed the size test is added whole and the block stays within its limits |
| `BlockAssembler.BlockAssembler.Choose` | src/miner.cpp:688-731 | the candidate chosen is the next of the index or the best modified entry, and nothing left scores higher |
| `BlockAssembler.BlockAssembler.Evaluate` | src/miner.cpp:733-802 | the outcome is the prescribed one: stop below the fee floor, refused without room or with a transaction not includable, added otherwise; it is judged by the exact totals of the unselected package unless it failed before, and a refusal leaves the block untouched |
| `BlockAssembler.BlockAssembler.Round` | src/miner.cpp:688-803 | the candidate nothing beats is judged so, and every round shrinks the unselected transactions or the remaining candidates: the loop's lexicographic measure |
| `BlockAssembler.BlockAssembler.AddPackageTxs` | src/miner.cpp:667-804 | in every run the block stays ancestor-closed, parents first, without repeats, within the weight and sigop limits, with exact totals, and the loop ends: either every pool transaction is in the block, a skipped deposit, or refused against a part of the block, or a candidate outside the block is below the fee floor, or the loop gave up near the limit; the critical-fee flag is set exactly when it was or such a transaction came in |
| `CheckQueue.BatchSize` | src/checkqueue.h:102-107 | a batch is at least one check, never more than is queued or than the batch size, and otherwise the largest equal share of all who can take work |
| `CheckQueue.LoopHeadInv` | src/checkqueue.h:87-117 | the critical section of the loop keeps the invariant, for master and workers, whether it takes work, sleeps or returns |
| `CheckQueue.StepInv` | src/checkqueue.h:66-158 | every step of any thread keeps the invariant |
| `CheckQueue.RunInv` | src/checkqueue.h:66-158 | so does every interleaving |
| `CheckQueue.CallsPossible` | src/checkqueue.h:137-158 | outside Wait the master can always add any checks and call Wait |
| `CheckQueue.WaitIsExact` | src/checkqueue.h:66-158 | over every interleaving the n-th return of Wait is the conjunction of exactly the checks given to Add between the return before it and itself, read off the run; the to-do count is queue plus work in hand, and the master never sleeps un-notified with nothing to do |
| `CheckQueue.WaitReturnsWhenDone` | src/checkqueue.h:88-97 | Wait returns only when the queue and all hands are empty |
| `CheckQueue.NoDeadlock` | src/checkqueue.h:66-158 | while the master waits, some thread can always make a real step |
| `CheckQueue.ProperStepsRunOut` | src/checkqueue.h:66-158 | such steps strictly lower a bounded measure |
| `CheckQueue.WaitReturns` | src/checkqueue.h:66-158 | Wait returns: every run that begins with the master in Wait and has more real steps than a bound computed from its first state contains a return, whatever else is interleaved |
| `MerkleTree.HashesDiffer` | src/merkleblock.cpp:40-58 | with injective hashing and distinct transactions no two nodes of a level are equal, so the duplicate test never rejects an honest tree |
| `MerkleTree.MatchedIsMask` | src/merkleblock.cpp:78-114 | the reported leaves are exactly the masked positions, ascending, each with its own id |
| `MerkleTree.ExtractOfBuild` | src/merkleblock.cpp:60-114 | extracting from any place where a built subtree is stored gives its hash, its matches, and consumes exactly what was written |
| `MerkleTree.ExtractSound` | src/merkleblock.cpp:78-114 | for arbitrary bits and hashes, a subtree that hashes to the true node reports only true leaves |
| `MerkleTree.BuildSizes` | src/merkleblock.cpp:60-76 | a subtree stores at most one hash per leaf and at most 1 + matches * height |
| `MerkleTree.BitsExact` | src/merkleblock.cpp:60-76 | a subtree has two bits per hash but one, plus one for each descended inner node without a right child |
| `MerkleTree.SinglesIff` | src/merkleblock.h:40-47 | some such node is descended into exactly when a match lies under one, anywhere in the tree |
| `MerkleTree.EncodedSize` | src/merkleblock.cpp:116-128 | the whole tree stores at most 1 + matches * height hashes, at most one per transaction and at most one per bit; the documented 2 * hashes - 1 bits hold exactly when no match lies under an inner node without a right child, and each such node descended into adds one bit |
| `MerkleTree.FourBitsTwoHashes` | src/merkleblock.h:47-47 | three transactions with only the third matched need four bits for two hashes, one more than documented |
| `MerkleTree.RoundTrip` | src/merkleblock.cpp:116-163 | building, padding to bytes and extracting yields the Merkle root and exactly the masked transactions |
| `MerkleTree.Authentic` | src/merkleblock.cpp:132-163 | if extraction from arbitrary data returns the root of a real list of that length, every reported pair is true of the list |
| `MerkleProofs.DescribedAccepted` | src/merkleblock.cpp:78-163 | all hashes and all bits up to padding that write out a tree of the right shape without equal siblings are accepted, with its root and flagged leaves |
| `MerkleProofs.AcceptedDescribed` | src/merkleblock.cpp:78-163 | conversely any answer with a root comes from such a tree: every hash and every bit up to padding was used and no two siblings are equal |
| `MerkleProofs.RootIsReduced` | src/merkleblock.cpp:40-58 | the root is what hashing neighbours level by level gives, an odd last one with itself |
| `PartialMerkleTree.PackBits` | src/merkleblock.h:99-104 | the bytes hold exactly the given bits, lowest first, and zeros after them |
| `PartialMerkleTree.UnpackBits` | src/merkleblock.h:92-98 | the bits are exactly those of the bytes |
| `PartialMerkleTree.PartialMerkleTree.TreeHeight` | src/merkleblock.cpp:119-122 | the loop finds the height whose root covers all transactions |
| `PartialMerkleTree.PartialMerkleTree.TraverseAndBuild` | src/merkleblock.cpp:60-76 | appends exactly the specified bits and hashes |
| `PartialMerkleTree.PartialMerkleTree.TraverseAndExtract` | src/merkleblock.cpp:78-114 | returns the specified hash, cursors and matches, and sets the bad flag exactly when specified |
| `PartialMerkleTree.PartialMerkleTree.ExtractMatches` | src/merkleblock.cpp:132-163 | applies all size, usage and flag tests of the specification |
| `PartialMerkleTree.Relay` | src/merkleblock.cpp:40-163 | end to end through packed bytes: the receiver gets the Merkle root and exactly the masked ids and positions |
| `ArithUint.BaseUint.Add` | src/arith_uint256.h:141-151 | the carry loop adds modulo 2^256 |
| `ArithUint.BaseUint.Complement` | src/arith_uint256.h:75-81 | gives 2^256 - 1 - x |
| `ArithUint.BaseUint.Increment` | src/arith_uint256.h:179-186 | the carry loop adds one modulo 2^256 |
| `ArithUint.BaseUint.Decrement` | src/arith_uint256.h:196-203 | the borrow loop subtracts one modulo 2^256 |
| `ArithUint.BaseUint.Negate` | src/arith_uint256.h:83-90 | gives -x modulo 2^256 |
| `ArithUint.BaseUint.Subtract` | src/arith_uint256.h:153-157 | subtracts modulo 2^256 |
| `ArithUint.BaseUint.MultiplySmall` | src/arith_uint256.cpp:57-67 | the carry loop multiplies by a 32-bit number modulo 2^256 |
| `ArithUint.BaseUint.AddRow` | src/arith_uint256.cpp:74-81 | one row of the schoolbook product adds a shifted multiple, losing only what is beyond 2^256 |
| `ArithUint.BaseUint.Multiply` | src/arith_uint256.cpp:69-83 | multiplies modulo 2^256; an object multiplied by itself becomes zero, because the operand is read after the clearing |
| `ArithUint.BaseUint.ShiftLeft` | src/arith_uint256.cpp:23-38 | multiplies by 2^shift modulo 2^256 for every shift |
| `ArithUint.BaseUint.ShiftRight` | src/arith_uint256.cpp:40-55 | divides by 2^shift, rounding down, for every shift |
| `ArithUint.BaseUint.CompareTo` | src/arith_uint256.cpp:111-121 | decides the order of the two numbers |
| `ArithUint.BaseUint.BitCount` | src/arith_uint256.cpp:173-186 | the result n satisfies 2^(n-1) <= x < 2^n, or is 0 for 0 |
| `ArithUint.BaseUint.Divide` | src/arith_uint256.cpp:85-109 | throws exactly for a zero divisor and otherwise gives the exact floor of the quotient, also when an object divides itself |
| `ArithUint.BaseUint.FromUint256` | src/arith_uint256.cpp:256-263 | the limbs represent the given number |
| `ArithUint.BaseUint.Low64` | src/arith_uint256.h:251-255 | the low 64 bits |
| `Compact.OverflowTest` | src/arith_uint256.cpp:217-222 | the three tests hold exactly when mantissa * 256^(exponent - 3) is at least 2^256 |
| `Compact.SetCompact` | src/arith_uint256.cpp:204-224 | computes mantissa * 256^(exponent - 3) modulo 2^256, with both flags exact |
| `Compact.GetCompact` | src/arith_uint256.cpp:226-247 | computes the compact form, with both asserts proved |
| `Compact.CompactRoundTrip` | src/arith_uint256.cpp:204-247 | decoding an encoded number never overflows and keeps its sign except for zero |
| `Compact.RoundedIsGreatest` | src/arith_uint256.cpp:204-247 | encoding and decoding gives the greatest representable number not above x |
| `Compact.RoundedMonotone` | src/arith_uint256.cpp:204-247 | the round trip is monotone |
| `Compact.RoundedIdempotent` | src/arith_uint256.cpp:204-247 | the round trip is idempotent |
| `Compact.RoundedClose` | src/arith_uint256.cpp:204-247 | x is within a factor 1 + 2^-15 of the result |
| `Compact.TargetRoom` | src/chain.cpp:121-134 | for every compact target that fits, target + 1 fits too: the divisor does not wrap to zero |
| `Compact.GetBlockProof` | src/chain.cpp:121-134 | floor(2^256 / (target + 1)) for every usable compact target, and 0 for the others |
| `BlockTree.InvertLowestOneIs` | src/chain.cpp:69-70 | n & (n - 1) is n without its lowest set bit |
| `BlockTree.SkipBelow` | src/chain.cpp:72-81 | a skip height is always below the height |
| `BlockTree.SkipHeightIs` | src/chain.cpp:72-81 | from an even height the skip link clears the lowest set bit, from an odd one it keeps the last bit and clears the next two |
| `BlockTree.BlockIndex.GetAncestor` | src/chain.cpp:83-108 | returns what the parent walk returns, for every height, in any tree whose skip links are unset or right |
| `BlockTree.BlockIndex.BuildSkip` | src/chain.cpp:115-119 | sets the link to the right ancestor and keeps the tree well formed with the new block in it |
| `Chain.LastCommonAncestor` | src/chain.cpp:153-170 | the common ancestor behind which all common ancestors lie, or nothing when the trees are separate |
| `Chain.BlockChain.ContainsIffAncestor` | src/chain.h:474-477 | one comparison decides whether a block is on the path to the tip |
| `Chain.BlockChain.NextIsChild` | src/chain.h:479-485 | the next block is the child on the chain, missing exactly at the tip |
| `Chain.BlockChain.SetTip` | src/chain.cpp:11-21 | with its early stop, leaves exactly the ancestor path of the new tip |
| `Chain.BlockChain.FindFork` | src/chain.cpp:51-60 | the ancestor on the chain behind which all such ancestors lie |
| `Chain.BlockChain.GetLocator` | src/chain.cpp:23-49 | lists the hashes of the ancestors at the specified heights, through the chain index or the skip links |
| `Chain.HeightsShape` | src/chain.cpp:23-49 | the heights go strictly down to genesis, by ten single steps and then doubling ones |
| `Chain.LocatorLength` | src/chain.cpp:23-49 | at most 12 + floor(log2 h) entries |
| `Chain.StepsFit` | src/chain.cpp:23-49 | the step never exceeds twice the starting height, so it fits 32 bits below height 2^30 |
| `ProofOfWork.CalculateNextWorkRequired` | src/pow.cpp:49-76 | computes the specified bits on 256-bit integers, wrap-around, no-retargeting and fork reset included |
| `ProofOfWork.Clamped` | src/pow.cpp:54-59 | the timespan used is the actual one inside a quarter to four times the wanted one, and the nearer end outside |
| `ProofOfWork.WalkBack` | src/pow.cpp:30-35 | the loop over minimum-difficulty blocks computes the specified bits |
| `ProofOfWork.LastNormalIs` | src/pow.cpp:30-35 | that walk ends at the nearest block that is not at the minimum, starts a period, or is genesis, with only minimum blocks passed |
| `ProofOfWork.GetNextWorkRequired` | src/pow.cpp:13-47 | the bits are those the preceding blocks prescribe: scaled over the period that began Interval - 1 blocks back, those of the last block, the minimum after a long gap, or those of the nearest ordinary block; both asserts are proved |
| `ProofOfWork.NextBitsPrescribed` | src/pow.cpp:13-47 | what is computed satisfies that prescription for any block of a rooted chain |
| `ProofOfWork.NoWrap` | src/pow.cpp:65-65 | under the parameter bounds the retarget product neither wraps nor loses part of its factor |
| `ProofOfWork.OrdinaryRetarget` | src/pow.cpp:49-76 | an ordinary retarget is the scaled target, limited and rounded down, and at most four times the old one |
| `ProofOfWork.NoTargetAboveLimit` | src/pow.cpp:13-76 | along every chain whose blocks carry the required bits no target exceeds the limit |
| `ProofOfWork.RetargetAlongChain` | src/pow.cpp:13-76 | along such a chain every block carries the prescribed bits; a retarget never wraps and is exactly the last target scaled by the clamped time from the first to the last block of the period, at most four times it; the fork reset gives the limit, and without retargeting nothing changes |
| `CompactBlocks.FilledAt` | src/blockencodings.cpp:58-73 | an accepted prefilled transaction sits at its decoded position |
| `CompactBlocks.FilledEmpties` | src/blockencodings.cpp:58-73 | as many slots stay empty as there are short ids |
| `CompactBlocks.MapShortIds` | src/blockencodings.cpp:80-102 | the i-th short id leads to the i-th empty slot, kept in 16 bits, without leaving the array; it never ends exactly when all 65536 first slots are prefilled and there is a short id, and otherwise fails exactly for two equal ids or a crowded bucket |
| `CompactBlocks.NextEmpty` | src/blockencodings.cpp:81-84 | the 16-bit offset stops exactly when some turn of it meets an empty slot, and then at the next one while fewer than 65536 slots are taken |
| `CompactBlocks.SlotLoopsEndIff` | src/blockencodings.cpp:81-84 | for every accepted message, every search for a slot ends exactly when there is no short id or fewer than 65536 transactions are prefilled |
| `CompactBlocks.PrefilledBound` | src/blockencodings.cpp:58-73 | an accepted message has at most 65536 prefilled transactions, and that many fill the first 65536 slots |
| `CompactBlocks.FullMessageIsEndless` | src/blockencodings.cpp:81-84 | 65536 prefilled transactions and one short id are accepted and the search for its slot never ends |
| `CompactBlocks.PositionsRightIff` | src/blockencodings.cpp:80-85 | for every accepted message, the 16-bit positions are the right slots exactly up to 65536 transactions or without short ids |
| `CompactBlocks.PartialBlock.InitData` | src/blockencodings.cpp:48-168 | each status exactly when specified, the endless search included; on success a slot is as prefilled without an entry for it, holds the first entry looked at whose short id leads to it, and is empty exactly after a clash among those looked at; each loop stops right after as many slots are settled as there are short ids |
| `CompactBlocks.PartialBlock.Scan` | src/blockencodings.cpp:104-165 | one pool loop leaves exactly what the entries it looks at prescribe, stops at the first that settles as many slots as there are short ids, and then leaves nothing the other entries would have filled |
| `CompactBlocks.PartialBlock.AllExamined` | src/blockencodings.cpp:104-165 | while some slot a short id leads to has no entry, every entry is looked at and every clash empties its slot |
| `CompactBlocks.PartialBlock.FillBlock` | src/blockencodings.cpp:176-218 | invalid exactly for a wrong number of missing transactions; otherwise the merged list, the check's verdict, and a state that cannot be filled again |
| `CompactBlocks.MakeMessage` | src/blockencodings.cpp:18-28 | the sender's message stands for its block |
| `CompactBlocks.GatheredRight` | src/blockencodings.cpp:48-168 | without short id collisions a filled slot holds the block's own transaction unless the short id of another slot leads to it; up to 65536 transactions none does |
| `CompactBlocks.RequestedIff` | src/blockencodings.cpp:48-174 | without collisions and repetitions, up to 65536 transactions, the transaction of a short id stays to be requested exactly when neither pool lists it |
| `CompactBlocks.MergedAt` | src/blockencodings.cpp:176-190 | completed by the missing transactions in order, an empty slot becomes right and a filled one stays |
| `CompactBlocks.Relay` | src/blockencodings.cpp:18-218 | from sender to receiver, for any message that stands for the block: absent collisions, whenever the first step succeeds the receiver rebuilds the sender's list up to 65536 transactions, and beyond that wherever no short id went astray |
| `CompactBlocks.LastStrays` | src/blockencodings.cpp:80-127 | the sender's message for 65537 transactions: the last short id leads to the coinbase's slot, a pool entry for the last transaction replaces the coinbase, and the last slot stays empty |
| `RollingBloom.WipeCell` | src/bloom.cpp:256-264 | the masks clear exactly the cells of one generation |
| `RollingBloom.PutCell` | src/bloom.cpp:270-274 | the two word updates set exactly one cell to the generation |
| `RollingBloom.RollingBloomFilter.Wipe` | src/bloom.cpp:256-264 | every cell of the new generation number is cleared and no other |
| `RollingBloom.RollingBloomFilter.Rolled` | src/bloom.cpp:250-265 | keys of the last two generations never carry the number being wiped |
| `RollingBloom.RollingBloomFilter.Inserted` | src/bloom.cpp:266-275 | inserting remembers the key and forgets none |
| `RollingBloom.RollingBloomFilter.RolledForgets` | src/bloom.cpp:250-265 | every cell that survives the wipe was set by a key of one of the two generations before |
| `RollingBloom.RollingBloomFilter.InsertedForgets` | src/bloom.cpp:266-275 | inserting sets only the cells of the key |
| `RollingBloom.RollingBloomFilter.Reset` | src/bloom.cpp:304-312 | the filter is empty and valid |
| `RollingBloom.RollingBloomFilter.Insert` | src/bloom.cpp:248-276 | keeps the invariant over every history: all recent keys show, and no cell shows for any other reason |
| `RollingBloom.RollingBloomFilter.Contains` | src/bloom.cpp:284-296 | true exactly when each cell of the key is also one of some key among the last 2 * perGeneration + thisGeneration, in particular for all of these |
| `RollingBloom.RollingBloomFilter.LastElements` | src/bloom.cpp:216-223 | those keys include the last nElements |
| `CuckooCache.SlotBound` | src/cuckoocache.h:243-253 | hash * size >> 32 is a slot |
| `CuckooCache.BitFlags.Set` | src/cuckoocache.h:92-95 | sets one packed flag and no other |
| `CuckooCache.BitFlags.Unset` | src/cuckoocache.h:103-106 | clears one packed flag and no other |
| `CuckooCache.PlaceOk` | src/cuckoocache.h:406-415 | storing in a free slot keeps every element unique and at home, and adds exactly it to what is kept |
| `CuckooCache.SwapOk` | src/cuckoocache.h:430-435 | a swap keeps uniqueness and homes and conserves the kept elements together with the one in hand |
| `CuckooCache.AfterConserves` | src/cuckoocache.h:406-439 | displacement along any path neither makes nor loses an element, the one left over included |
| `CuckooCache.AfterElsewhere` | src/cuckoocache.h:406-439 | and leaves every slot off the path as it was |
| `CuckooCache.Cache.Displace` | src/cuckoocache.h:406-439 | each element in hand goes to its first free slot, or when all eight are taken to the one after the slot it came from; epochs travel with elements; one is lost exactly when the depth limit is reached without a free slot |
| `CuckooCache.Cache.EpochCheck` | src/cuckoocache.h:289-321 | keeps everything, or exactly the current epoch when the count is reached; the counter is set as specified |
| `CuckooCache.Cache.constructor` | src/cuckoocache.h:340-353 | everything is empty and collectable, and an epoch is 45 percent of the slots, at least one |
| `CuckooCache.Cache.Insert` | src/cuckoocache.h:392-440 | the kept set becomes what the epoch check keeps plus the element minus at most one of these, none if the element was there or has a free slot; otherwise the element takes one of its own slots and each displaced one moves on along a path of at most the depth limit; uniqueness and homes are kept |
| `CuckooCache.Cache.Contains` | src/cuckoocache.h:467-477 | true exactly when the element is in one of its slots, which for any but the default one means in the table; erasing removes it from the kept set and leaves the table |
| `Bech32.StepInjective` | src/bech32.cpp:64-94 | one checksum round never merges two states |
| `Bech32.SplitRun` | src/bech32.cpp:37-94 | up to six symbols enter the checksum as they are, on top of what zeros would give |
| `Bech32.BurstDetected` | src/bech32.cpp:37-94 | any change within six consecutive symbols changes the checksum, at any place and length |
| `Bech32.BurstFails` | src/bech32.cpp:117-125 | so a verifying string stops verifying after any such change |
| `Bech32.ChecksumUnique` | src/bech32.cpp:117-139 | six symbols complete the data to a verifying string exactly when they are the created ones |
| `Bech32.LeadingZero` | src/bech32.cpp:40-42 | a leading zero always changes the checksum, because of the implicit 1 in front |
| `Bech32.PolyMod` | src/bech32.cpp:37-94 | the loop computes the checksum that BechCode.ChecksumIsRemainder shows to be the remainder |
| `Bech32.ExpandHRP` | src/bech32.cpp:102-115 | fills the buffer with high bits, a zero and low bits |
| `Bech32.ExpandedIs` | src/bech32.cpp:102-115 | every character can be put together again from its two symbols around a zero |
| `Bech32.CreateChecksum` | src/bech32.cpp:127-139 | the created checksum verifies |
| `Bech32.Encode` | src/bech32.cpp:146-156 | computes the specified string |
| `Bech32.Decode` | src/bech32.cpp:158-189 | computes the specified pair, empty on every failure |
| `Bech32.DecodeOfEncode` | src/bech32.cpp:146-189 | decoding an encoding gives a non-empty prefix and its data back exactly when the prefix is printable without upper case and the length is at most 90; an empty prefix comes back exactly without data |
| `Bech32.EncodeOfDecode` | src/bech32.cpp:146-189 | a string that decodes is, in lower case, the encoding of what it decoded to |
| `Bech32.DecodesIff` | src/bech32.cpp:146-189 | a string decodes to a prefix and data exactly when it is not of mixed case and its lower-case form is their encoding, for prefixes and lengths the format allows |
| `Gf32.MulAssoc` | src/bech32.cpp:52-58 | multiplication modulo a^5 + a^3 + 1 is associative; with the lemmas beside it, the coefficients form a field |
| `Gf32.Example` | src/bech32.cpp:52-58 | the sum and the product worked out in the comment |
| `Gf1024.AlphaOrder` | src/bech32.cpp:46-50 | the generator of the field with 1024 elements has order exactly 1023 |
| `Polynomials.DivisionUnique` | src/bech32.cpp:44-50 | quotient and remainder by a monic polynomial are unique |
| `BechCode.MultipleDigit` | src/bech32.cpp:84-91 | the five constants of a round add exactly c0 * k(x) |
| `BechCode.ChecksumIsRemainder` | src/bech32.cpp:37-94 | the checksum of v packs the remainder of v(x), with a 1 in front, modulo g(x), and nothing else is quotient and remainder |
| `BechCode.ErrorsDetected` | src/bech32.cpp:44-50 | up to three errors within a window of 1023 symbols always change the checksum, at any length |
| `BechCode.ErrorsFail` | src/bech32.cpp:117-125 | so verifying data with up to three errors does not verify |
| `BechCode.ChangedFails` | src/bech32.cpp:158-189 | a string that decodes does not decode after one to three characters behind the separator are replaced, by anything but the separator or the other case |
| `BechVector.Vector` | src/test/bech32_tests.cpp:31-31 | the published string over all 32 symbols is the encoding of its parts |
| `Digits.DigitsOfBig` | src/base58.cpp:101-111 | digits without a leading zero are the digits of their value |
| `Digits.DigitsSuffice` | src/base58.cpp:36-38 | how many digits a change of base can need |
| `Base58.EncodeFits` | src/base58.cpp:83-85 | 138/100 digits per byte always suffice |
| `Base58.DecodeFits` | src/base58.cpp:36-38 | 733/1000 bytes per letter always suffice |
| `Base58.AlphabetIs` | src/base58.cpp:22-22 | the letters, which ascend, are the ASCII digits and letters without 0, I, O and l |
| `Base58.MulAdd` | src/base58.cpp:45-54 | the digit loop computes buffer * mul + digit, and the source's assert that no carry is left holds |
| `Base58.EncodeBase58` | src/base58.cpp:74-112 | computes leading ones and the digits of the number |
| `Base58.DecodeBase58` | src/base58.cpp:24-72 | computes the bytes, or fails exactly for a foreign character or an inner space |
| `Base58.DecodeOfEncode` | src/base58.cpp:24-112 | every byte vector comes back |
| `Base58.EncodeOfDecode` | src/base58.cpp:24-112 | encoding what was decoded gives the string back without its outer spaces |

## Left out

- AddrCheck.Check: Check_ as a function over the state, not as loops over mutable sets.
- CoinsCache.CoinsViewStore.BatchWrite: the database assert that the best block is set, and the crash-recovery markers written around a batch, are not modelled.
- CompactBlocks.PartialBlock.InitData: the bucket-size test of the hash map is a parameter; `extra_count` is not modelled, as the code does not keep it exact.
- AddrMan.AddrMan.Unserialize: streams are records rather than bytes, and negative counts in a corrupted stream are not modelled.
- AddrMan.AddrMan.Reload: gives a new object, where the source clears and refills the same one.
- AddrMan.AddrMan.Good_: overflow of the id counter after 2^31 new entries is not modelled.
- BlockAssembler.BlockAssembler.AddPackageTxs: scores are compared over integers, where the source multiplies as floating point; fees of modified entries are exact only while no fee is prioritised; the deposit test is applied only while the iterator is not at the end; log counters are omitted.
- RollingBloom.RollingBloomFilter.constructor: the number of hash functions and words is a parameter, because the sizing is floating point.
- CuckooCache.Cache.constructor: the depth limit is a parameter, because it is computed in floating point; memory ordering of the atomic flags is not modelled.
- CuckooCache.Cache.Insert: requires an element other than the default one, which stands for an empty slot.
- ProofOfWork.CalculateNextWorkRequired: timestamps are unbounded integers, so 64-bit overflow of time differences is not modelled.
- Base58.DecodeBase58: characters are those before the terminator of the C string; `isspace` is that of the C locale.
- BechCode.ErrorsDetected: detection of four errors within 89 characters, which the source also mentions, rests on an exhaustive search over codes and is not proved.
- Chain.BlockChain.GetLocator: the step is an unbounded integer; `Chain.StepsFit` gives the heights for which 32 bits suffice.
- Random selection of addresses (`Select_`, `GetChance`): ends only with probability one, and uses floating point.
- Sidechain commitments and withdrawal payouts of the block assembler: they rest on code outside these files.
- `FindEarliestAtLeast`, `GetMedianTimePast` and the block proof equivalent time: short uses of library search and of the arithmetic above.
- The plain Bloom filter, amount compression, address classification and memory-usage estimates: they would only add easy members.
- Sockets, RPC, databases, logging and cryptographic internals: plumbing and foreign code.
