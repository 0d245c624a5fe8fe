# Mynta core: data structures and consensus kernel, verified

A Dafny model of the parts of the node that need no I/O: the coin caches, the address manager, the
check queue, block assembly, partial Merkle trees, the cuckoo cache, 256-bit arithmetic with compact
targets and retargeting, the block index, Base58, the rolling Bloom filter, compact blocks and the
boolean verifier. `dafny verify dfyconfig.toml` checks everything.

Where the program updates things in place the model does too: classes with the program's fields,
arrays for fixed-size tables and limb or digit buffers, loops with invariants. Each such method is
proved against a function on values, and the properties are proved about that function. The check
queue is a state machine whose steps are the critical sections and the running of single checks, over
any number of threads.

| files | what they model |
|---|---|
| Coins.dfy | `CCoinsViewCache` over a database, stacks of any depth, whole runs against plain maps |
| CheckQueue.dfy | `CCheckQueue`: invariant, verdict, no deadlock, termination over all interleavings |
| AddrState.dfy, AddrOps.dfy, AddrMan.dfy | `CAddrMan`: what `Check_` checks, kept by every step, operation and run; the object itself |
| AddrHistory.dfy | what its operations may forget, what stays true of an entry over a run |
| AddrFacts.dfy, AddrGroups.dfy | what is recorded about a node over a run and what follows from it; how much one group can fill |
| AddrWire.dfy, AddrDisk.dfy | saving and loading it |
| AddrCheck.dfy, AddrLoad.dfy | `Check_` itself; loading files of any version |
| Mempool.dfy, Miner.dfy | `BlockAssembler::addPackageTxs` |
| MerkleRoot.dfy, MerkleComputation.dfy | the Merkle root level by level, which lists share one, its constant-space computation |
| Merkle.dfy, MerkleBlock.dfy, MerkleSize.dfy, ByteBits.dfy | `CPartialMerkleTree`; digests are a free datatype, so hashing is injective |
| CuckooTable.dfy, Cuckoo.dfy | `CuckooCache::cache` |
| Numbers.dfy, Limbs.dfy, BaseUint.dfy, Compact.dfy | `base_uint`, compact targets, block proof |
| SkipWalk.dfy, SkipBound.dfy, Chain.dfy | skip heights, the most steps of a walk, block index, active chain |
| Pow.dfy | Dark Gravity Wave and the older retarget rule |
| Radix.dfy, Base58.dfy | Base58 and its checksummed form |
| Bloom.dfy | `CRollingBloomFilter` |
| BlockSlots.dfy, PoolScan.dfy, CompactBlocks.dfy, IndexCodec.dfy | compact blocks after BIP 152 |
| BoolExpr.dfy, BoolText.dfy, BoolGrammar.dfy | `LibBoolEE` |
| Options.dfy | optional values |

Hashes, the mempool's order, random choices, clocks and the outcome of checks made elsewhere are
parameters or nondeterministic. Exceptions and error codes are results.

## Where the code and its own text differ

The model follows the code. These are stated by lemmas or contracts:

- `SpendCoin` returns true for an outpoint without a coin when the cache happens to hold a spent entry
  for it (`CoinMap.SpendFlagNotDeterminedByView`, `Coins.CoinsCache.SpendCoin`).
- `Flush` hands the null hash to its parent when no best block was set (`Coins.CoinsCache.Flush`).
- The partial Merkle tree may need more than 2N-1 flag bits (`MerkleTree.BitCount`), and then the size can
  exceed its guarantee (`MerkleSize.SizeExample`); exactly when, say `MerkleSize.SizeIff` and `MerkleSize.SizeOfTree`.
- A returned zero hash means "malformed"; for a list whose root is the zero hash this cannot be told
  apart (`MerkleBlock.ZeroRootUnsound`), and only that list is concerned (`MerkleBlock.ZeroRootIff`).
  `ExtractMatches` clears the matched txids but not the indices.
- `Add_` answers true for a new address even when the entry is dropped at once (`AddrHistory.AddStores`,
  `AddrHistory.SecondDroppedExample`).
- `Good_` at time zero makes a state that `Check_` rejects (`AddrCheck.RejectedAtZero`).
- The recorded fee of a package in block assembly drifts when ancestors have fee deltas
  (`Miner.FeeDrifts`), by exactly the deltas of all but one of those included (`Miner.NextDrift`).
- In the cuckoo cache the first displaced location is the second of the eight, not the first
  (`CuckooTable.FirstDisplaced`), and the element just put in can be moved again when two successive
  locations coincide (`CuckooTable.MovedAgainIff`, `CuckooTable.MovedAgainExample`).
- Compact blocks are accepted up to 200000 transactions, but slot numbers have 16 bits: beyond 65536 the
  short ids no longer have slots of their own (`CompactBlocks.OwnSlotsIff`, `CompactBlocks.LastMisplaced`).
- With 65536 prefilled transactions and a short id the scan for an empty slot does not end
  (`CompactBlocks.EndlessIff`, `CompactBlocks.EndlessMessage`).
- The boolean evaluator gives values to texts that are no formulas (`BoolText.JunkWitness`,
  `BoolGrammar.JunkInside`); which ones, and what values, is exact (`BoolGrammar.ValueIff`).
- On the test network the retarget overflows 256 bits (`Pow.TestNetworkWraps`).
- `a *= a` gives zero in `base_uint` (`BaseUint.BaseUint.MulAssign`).

## Model

| member | source | states |
|---|---|---|
| `CoinMap.PushedIsChildView` | src/coins.cpp:424-478 | pushing a child's entries into a cache makes the cache's view equal to the child's old view, keeps the FRESH/DIRTY meaning, and cannot reach the logic_error, provided the child's flags were right |
| `CoinMap.AddInserts` | src/coins.cpp:76-95 | AddCoin puts exactly this coin into the view; the flags stay right if and only if the caller allowed an overwrite or there was no coin to overwrite |
| `CoinMap.SpendRemoves` | src/coins.cpp:359-393 | spending removes exactly this coin from the view, whether the entry is erased (FRESH) or marked spent, and keeps the flags right |
| `CoinMap.FetchKeepsMeaning` | src/coins.cpp:50-65 | caching a coin of the parent leaves the view as it was |
| `CoinMap.UncacheKeepsMeaning` | src/coins.cpp:487-494 | dropping an unmodified entry leaves the view as it was |
| `CoinMap.SpendFlagNotDeterminedByView` | src/coins.cpp:359-393 | two caches with the same view for which SpendCoin answers differently: its return value tells whether an entry existed, not whether a coin did |
| `Coins.CoinsDb.BatchWrite` | src/txdb.cpp:91-135 | the database ends up with the child's view and the given best block |
| `Coins.ContentsUnspent` | src/coins.h:155-159 | no view of any stack ever shows a spent coin |
| `Coins.ViewGetCoin` | src/coins.cpp:33 | a lookup at any level answers from that level's contents and changes no level's contents |
| `Coins.ViewBatchWrite` | src/coins.cpp:38 | a batch write at any level replaces that level's contents by the child's view and leaves the levels below alone |
| `Coins.CoinsCache.constructor` | src/coins.cpp:44 | a new cache shows its parent's contents |
| `Coins.CoinsCache.FetchCoin` | src/coins.cpp:50-65 | finds an entry exactly if there is one or the view has a coin; no level's contents change |
| `Coins.CoinsCache.GetCoin` | src/coins.cpp:67-74 | answers exactly from the view |
| `Coins.CoinsCache.HaveCoin` | src/coins.cpp:404-407 | true exactly if the view has an unspent coin |
| `Coins.CoinsCache.AddCoin` | src/coins.cpp:76-95 | throws exactly when a new coin would replace an unspent entry without permission; otherwise the cache is consistent if and only if the overwrite contract was met, and then the view gains exactly this coin |
| `Coins.CoinsCache.SpendCoin` | src/coins.cpp:359-393 | the view loses exactly this coin, the coin is handed out, and the exact condition under which the call reports success for a coin that was not there |
| `Coins.CoinsCache.Uncache` | src/coins.cpp:487-494 | no level's contents change; an entry stays only if it was modified |
| `Coins.CoinsCache.GetBestBlock` | src/coins.cpp:414-418 | the best block of the stack, however many levels have none of their own |
| `Coins.CoinsCache.SetBestBlock` | src/coins.cpp:420-422 | only the best block changes |
| `Coins.CoinsCache.BatchWrite` | src/coins.cpp:424-478 | throws exactly when some FRESH child entry meets an unspent entry; with right flags it never throws and the parent's view becomes the child's |
| `Coins.CoinsCache.Flush` | src/coins.cpp:480-485 | never fails on a consistent stack; the parent's view becomes this view, this cache is empty and shows the same; the parent's best block exactly |
| `Coins.AddCoins` | src/coins.cpp:256-261 | all spendable outputs of a transaction are added, none else, without a throw, when the transaction is a coinbase, is checked, or brings new outpoints |
| `Coins.Step` | src/coins.cpp:50-95 | each operation of a stack of any depth gives the answer, the contents and the block hashes that plain maps, one per level, would give |
| `Coins.Run` | src/coins.cpp:50-494 | every run of get, have, add, spend, uncache, getting and setting the best block, flush, opening and discarding caches, of any length on a stack of any depth, agrees with plain maps in every answer, every level and every block hash, and reaches no logic_error; a null hash is refused only by the database |
| `CheckQueue.Init` | src/checkqueue.h:135 | a new queue satisfies the invariant |
| `CheckQueue.NextKeepsInv` | src/checkqueue.h:70-162 | every step of every thread keeps the counters equal to what they count, every added check in exactly one place, and the verdicts sufficient to tell the answer |
| `CheckQueue.AddKeepsInv` | src/checkqueue.h:150-162 | Add keeps the invariant |
| `CheckQueue.LockKeepsInv` | src/checkqueue.h:79-122 | the critical section of Loop keeps the invariant: clean-up, return, going to sleep, taking a batch |
| `CheckQueue.RunKeepsInv` | src/checkqueue.h:124-126 | running or skipping a check keeps the invariant |
| `CheckQueue.LockReady` | src/checkqueue.h:110 | the batch size divides by a positive number and never exceeds the queue |
| `CheckQueue.BatchIsShare` | src/checkqueue.h:105-112 | a batch is the most checks that are neither over the batch size nor, for every thread and one more, over the queue; at least one |
| `CheckQueue.EveryReachableState` | src/checkqueue.h:70-162 | in every interleaving nTodo is queued plus in-flight checks, no check runs twice, and a blocked master always has a thread at work that will wake it |
| `CheckQueue.EndOf` | src/checkqueue.h:70-162 | the invariant holds after any enabled sequence of steps |
| `CheckQueue.WaitVerdict` | src/checkqueue.h:90-101 | Wait returns true exactly if all checks added since the last return pass; then every one has run; the state is reset |
| `CheckQueue.AddedSinceReturn` | src/checkqueue.h:150-162 | the checks Wait answers for are exactly those handed to Add since the last return |
| `CheckQueue.NoDeadlock` | src/checkqueue.h:90-107 | while the master is in Wait some thread can take a step |
| `CheckQueue.StepsUsePotential` | src/checkqueue.h:70-128 | every step between two calls of the master uses up a measure |
| `CheckQueue.WaitTerminates` | src/checkqueue.h:144-147 | no run without new work is longer than that measure, and when no thread can go on, Wait has returned |
| `MerkleTree.ExtractSound` | src/merkleblock.cpp:80-116 | below a node whose computed hash is the true one, every extracted leaf is the true leaf at its index, for arbitrary bits and hashes |
| `MerkleTree.ExtractBuilt` | src/merkleblock.cpp:62-116 | extracting what was built consumes exactly those bits and hashes and yields the node's hash and its matched leaves |
| `MerkleTree.SiblingsDiffer` | src/merkleblock.cpp:103-110 | with distinct txids the left-equals-right check never fires on a real tree |
| `MerkleTree.HashCount` | src/merkleblock.h:36-41 | at most one hash per leaf, and at most 1 + matches times height |
| `MerkleTree.BitCount` | src/merkleblock.h:43-48 | the exact number of flag bits; the documented 2N-1 holds if and only if no matched single-child node exists |
| `MerkleTree.BitCountExample` | src/merkleblock.h:43-48 | three transactions, the last one matched: four bits for two hashes |
| `MerkleSize.SizeIff` | src/merkleblock.h:32-48 | with N hashes and s flag bits beyond 2N-1 the serialized size is at most 10 + ceil(32.25 N) if and only if N is at most 65535 and s is at most 1, 3, 5 or 7 by N modulo 4, plus eight for each byte by which the length prefixes fall short of three |
| `MerkleSize.EdgeSingles` | src/merkleblock.cpp:62-78 | single children that are descended through lie on the right edge: at most one for each odd level, exactly one if the last transaction is matched |
| `MerkleSize.SizeOfTree` | src/merkleblock.h:32-48 | the exact condition for the message of any block and any matches |
| `MerkleSize.SmallTreesFit` | src/merkleblock.h:32-48 | up to 252 hashes the guarantee holds for every block that 32 bits can count |
| `MerkleSize.SizeExample` | src/merkleblock.h:32-48 | 1012 transactions, all matched: one byte more than guaranteed |
| `MerkleBlock.CalcTreeWidth` | src/merkleblock.h:67-69 | shift arithmetic equals repeated halving upwards |
| `MerkleBlock.WidthFits` | src/merkleblock.h:67-69 | the sum it is computed from is below three times the number of transactions |
| `MerkleBlock.ShapeSpan` | src/merkleblock.cpp:62-78 | the node at (height, pos) covers exactly the leaves pos * 2^height up to (pos + 1) * 2^height, cut at the end |
| `MerkleBlock.CalcHash` | src/merkleblock.cpp:42-60 | the hash of the subtree of that shape |
| `MerkleBlock.MatchedIsRange` | src/merkleblock.cpp:64-66 | a node is parent of a match exactly if a leaf in its range is matched |
| `MerkleBlock.LeavesAreChosen` | src/merkleblock.cpp:62-78 | the matched leaves of a subtree, in order, are the chosen txids of its range |
| `MerkleBlock.PackBits` | src/merkleblock.h:100-105 | the byte vector holds exactly these bits, zero padded |
| `MerkleBlock.UnpackBits` | src/merkleblock.h:93-99 | each bit is read from its byte |
| `MerkleBlock.ParentOfMatch` | src/merkleblock.cpp:64-66 | the scan finds out whether the node is a parent of a match |
| `MerkleBlock.TreeHeight` | src/merkleblock.cpp:124-126 | the least height at which the tree is one node wide |
| `MerkleBlock.PartialMerkleTree.Build` | src/merkleblock.cpp:118-130 | bits and hashes are those of the whole tree in depth-first order |
| `MerkleBlock.PartialMerkleTree.TraverseAndBuild` | src/merkleblock.cpp:62-78 | appends exactly the bits and hashes of the subtree |
| `MerkleBlock.PartialMerkleTree.TraverseAndExtract` | src/merkleblock.cpp:80-116 | refines the recursive decoder over the shape, including every way of going bad |
| `MerkleBlock.PartialMerkleTree.ExtractMatches` | src/merkleblock.cpp:134-165 | the root, or zero for malformed input; matched txids afresh, indices appended |
| `MerkleBlock.PartialMerkleTree.Serialize` | src/merkleblock.h:100-105 | the packed form |
| `MerkleBlock.PartialMerkleTree.Unserialize` | src/merkleblock.h:93-99 | the unpacked form |
| `MerkleBlock.DecodeSound` | src/merkleblock.cpp:134-165 | for arbitrary input: if a nonzero true root comes out, every reported pair is a true (txid, index) |
| `MerkleBlock.ZeroRootUnsound` | src/merkleblock.cpp:134-165 | the exception: for a list whose root is the zero hash, malformed input is reported as that root with a false match |
| `MerkleBlock.ZeroRootIff` | src/merkleblock.cpp:134-165 | only the list of one zero txid has a zero root, so the exception is exactly that list |
| `MerkleBlock.DecodeComplete` | src/merkleblock.cpp:134-165 | decoding an encoded tree of distinct txids gives the root and exactly the chosen pairs in order, with any padding the packing adds |
| `MerkleBlock.EncodedHashCount` | src/merkleblock.h:36-41 | the number of hashes sent is at most the number of transactions and at most 1 + matches times height |
| `MerkleBlock.RoundTrip` | src/merkleblock.cpp:62-165 | build, pack, unpack and extract returns the root and exactly the matched txids and indices in order |
| `MerkleBlock.AcceptedForm` | src/merkleblock.cpp:134-165 | a nonzero root comes only from a number of transactions within the limit, no more hashes than those or than bits, and a good traversal that uses up all hashes and all bits but the padding |
| `MerkleRoot.RootIs` | src/merkleblock.cpp:42-60 | the root of one txid is itself; the root of more is the root of the list of hashes of neighbours, the last of an odd number being hashed with itself |
| `MerkleRoot.LastTwice` | src/merkleblock.cpp:103-112 | for every odd length from 3 on the list with its last txid twice has the same root |
| `MerkleRoot.RootUnique` | src/consensus/merkle.cpp:12-43 | two different lists of txids with the same root: one of them has two equal neighbours on some level that are hashed together |
| `MerkleComputation.ComputeMerkleRoot` | src/consensus/merkle.cpp:46-138 | the constant-space computation gives the root of the partial trees, and reports exactly the lists with equal neighbours on some level |
| `MerkleComputation.PushLeaf` | src/consensus/merkle.cpp:65-91 | after each leaf the array holds the hash of the last complete subtree for every bit of the count, and all equal complete neighbours were seen |
| `MerkleComputation.Sweep` | src/consensus/merkle.cpp:92-128 | filling up the odd levels leads to the root; the count stays within 32 bits |
| `MerkleComputation.MutatedIff` | src/consensus/merkle.cpp:83 | looking at complete subtrees only is enough: if any neighbours on any level are equal, some complete ones are |
| `AddrState.GetTriedBucket` | src/addrman.cpp:13-18 | a bucket of the tried table |
| `AddrState.GetNewBucket` | src/addrman.cpp:20-26 | a bucket of the new table |
| `AddrState.GetBucketPosition` | src/addrman.cpp:28-32 | a position of a bucket |
| `AddrState.CreateKeepsInv` | src/addrman.cpp:89-99 | a created entry keeps the invariant as one more entry under way |
| `AddrState.SwapKeepsInv` | src/addrman.cpp:101-119 | swapping two places of vRandom keeps the invariant |
| `AddrState.DeleteKeepsInv` | src/addrman.cpp:121-133 | deleting an entry without references keeps the invariant |
| `AddrState.UnlinkKeepsInv` | src/addrman.cpp:139-145 | taking back one reference keeps the invariant, the entry being under way when it was the last |
| `AddrState.ClearNewKeepsInv` | src/addrman.cpp:135-148 | clearing a slot of the new table keeps the invariant |
| `AddrState.LinkKeepsInv` | src/addrman.cpp:314-317 | giving a free slot to an entry keeps the invariant |
| `AddrState.DetachKeepsInv` | src/addrman.cpp:152-160 | taking an entry out of all new buckets keeps the invariant |
| `AddrState.EvictKeepsInv` | src/addrman.cpp:172-178 | taking an entry out of the tried table keeps the invariant |
| `AddrState.PromoteKeepsInv` | src/addrman.cpp:192-195 | putting an entry into a free tried slot keeps the invariant |
| `AddrState.TouchKeepsInv` | src/addrman.cpp:323-343 | changing times, counters or services of an entry keeps the invariant |
| `AddrOps.Find` | src/addrman.cpp:69-80 | an id exactly if the address is known |
| `AddrOps.MakeRoomKeepsInv` | src/addrman.cpp:166-188 | the tried-to-new eviction keeps the invariant |
| `AddrOps.MakeTriedKeepsInv` | src/addrman.cpp:150-196 | moving an entry to the tried table, with the eviction cascade, ends consistent with the entry in its tried slot |
| `AddrOps.GoodKeepsConsistent` | src/addrman.cpp:198-248 | Good leaves the service it names in its tried slot, and keeps the whole Check_ invariant if and only if its time is nonzero or it does not know the service |
| `AddrOps.AddKeepsConsistent` | src/addrman.cpp:250-321 | Add keeps the whole Check_ invariant |
| `AddrOps.PlaceKeepsInv` | src/addrman.cpp:300-320 | the placement at the end of Add, with its possible overwrite or deletion, ends consistent |
| `AddrOps.TouchesKeepConsistent` | src/addrman.cpp:323-343 | Attempt, Connected and SetServices keep the whole Check_ invariant |
| `AddrOps.ShuffleKeepsConsistent` | src/addrman.cpp:470-489 | the partial shuffle of GetAddr keeps the whole Check_ invariant |
| `AddrOps.ApplyKeepsConsistent` | src/addrman.cpp:89-527 | every public operation keeps the whole Check_ invariant |
| `AddrOps.RunFrom` | src/addrman.cpp:393-468 | after any sequence of public operations the state is consistent and vRandom, mapInfo and the counters agree in size |
| `AddrHistory.AddEffect` | src/addrman.cpp:250-321 | Add answers whether the address is routable and was unknown; it leaves the tried table alone and changes no node behind an id; the only entry it may forget is the owner of the one slot it looks at, and only if that is terrible and has no other place |
| `AddrHistory.AddStores` | src/addrman.cpp:293-320 | an unknown address is stored, with its penalized time and one reference, if and only if the slot for its source is free or its owner is terrible or has another place; otherwise nothing remains of it |
| `AddrHistory.SecondDropped` | src/addrman.cpp:293-320 | of two addresses with the same slot the second is answered true and not stored while the first is not terrible |
| `AddrHistory.SecondDroppedExample` | src/addrman.cpp:293-320 | such an input |
| `AddrHistory.AddRefreshes` | src/addrman.cpp:264-292 | a known address keeps its id; its time never goes back, its services only grow, it gains at most one reference |
| `AddrHistory.GoodEffect` | src/addrman.cpp:150-248 | Good puts its entry over the owner of the tried slot; the only entry it may forget is the one that loses its last place to the evicted owner |
| `AddrHistory.GoodAtZero` | src/addrman.cpp:198-220 | one announced address and then Good at time zero: the state is not consistent |
| `AddrHistory.ListedIs` | src/addrman.cpp:470-489 | the addresses handed out are known, not terrible and pairwise different, and none acceptable among the places looked at is missing |
| `AddrHistory.ApplyEffect` | src/addrman.cpp:198-527 | no public operation forgets more than one entry, none forgets a tried one, and no id changes hands |
| `AddrHistory.RunEffect` | src/addrman.cpp:198-527 | over any run an id stays with its node while it is known, and n operations forget at most n entries |
| `AddrFacts.RunFollows` | src/addrman.cpp:198-527 | over any run, all that is known about a node that is not forgotten is what the operations make of its entry by itself |
| `AddrFacts.ApplyFollows` | src/addrman.cpp:198-527 | each operation does to each entry exactly that |
| `AddrFacts.AttemptEffect` | src/addrman.cpp:323-343 | the entry of exactly this service is marked as tried at this time, and nothing else changes but its counters |
| `AddrFacts.RunFailures` | src/addrman.cpp:338-342 | over any run without a success of anyone a node is charged one failure if an attempt counts failures and none was counted since the last success, and none otherwise |
| `AddrFacts.FailuresAtMost` | src/addrman.cpp:338-342 | over any run at most one failure, and one more for each success of anyone |
| `AddrFacts.OthersLeaveAlone` | src/addrman.cpp:198-527 | operations about other nodes leave a node alone |
| `AddrFacts.KeptIff` | src/addrman.cpp:34-52 | an entry is not terrible exactly if it was tried within a minute, or was seen within 30 days and not in the future, has succeeded or failed less than 3 times, and has succeeded within a week or failed less than 10 times |
| `AddrFacts.TriedIsKept` | src/addrman.cpp:34-37 | after an attempt an entry is not terrible for a minute |
| `AddrFacts.FailsThrice` | src/addrman.cpp:46-47 | an entry without success that was charged three failures is terrible from a minute after the last on |
| `AddrFacts.SuccessClears` | src/addrman.cpp:198-215 | a success clears the failures, and no number of failures makes the entry terrible within a week |
| `AddrFacts.TerribleOmitted` | src/addrman.cpp:470-489 | terrible entries are not handed out |
| `AddrFacts.TerribleReplaced` | src/addrman.cpp:299-313 | a terrible entry loses its slot to an unknown address that wants it |
| `AddrFacts.OnlineTime` | src/addrman.cpp:491-509 | after a connection the time is at most twenty minutes behind and never goes back |
| `AddrFacts.SeenTime` | src/addrman.cpp:264-272 | a sighting adds services; the time moves to that of the sighting less the penalty exactly if it lags by more than an hour, or a day when the node is not online |
| `AddrFacts.SetServicesEffect` | src/addrman.cpp:511-527 | the services of exactly this service are replaced, nothing else |
| `AddrFacts.GainsReference` | src/addrman.cpp:274-313 | a known address gains a reference if and only if it is new with less than eight, was seen later than it is known for, zero is drawn, and the slot is free or its owner another, terrible one |
| `AddrGroups.NewBucketInGroup` | src/addrman.cpp:20-26 | all that the sources of one group announce goes to at most 64 new buckets |
| `AddrGroups.TriedBucketInGroup` | src/addrman.cpp:13-18 | all addresses of one group go to at most 8 tried buckets |
| `AddrGroups.TriedOfGroup` | src/addrman.cpp:13-18 | in every consistent state a group of addresses has at most 512 tried places, in those buckets |
| `AddrGroups.RunOfGroups` | src/addrman.cpp:20-26 | over any run from an empty manager n groups of sources reach at most 64 n new buckets and 4096 n places in them |
| `AddrCheck.Check_` | src/addrman.cpp:393-468 | returns zero exactly on the states described by Checked, in particular on every consistent one; otherwise the code of the first fault in the order of the checks: sizes, the first faulty entry by id, the counters, the first faulty tried slot, the first faulty new slot, entries left over, the key; looks up, and so enters, addresses of entries |
| `AddrCheck.OneReport` | src/addrman.cpp:393-468 | that determines the code |
| `AddrCheck.ConsistentIff` | src/addrman.cpp:393-468 | consistent means that the check passes, the address map is exact and ids are below the counter |
| `AddrCheck.PlacesFilled` | src/addrman.cpp:398-420 | the check looks from entries to vRandom only; with equal sizes that makes them mutual inverses |
| `AddrCheck.CheckEntries` | src/addrman.cpp:401-425 | passes exactly if every entry does, and then counts tried and new ones |
| `AddrCheck.CheckTried` | src/addrman.cpp:432-444 | passes exactly if every slot does; otherwise the code of the first slot that does not: no tried entry or one met before, wrong bucket, wrong position; then the tried table is not right |
| `AddrCheck.CheckNew` | src/addrman.cpp:446-457 | passes exactly if every slot does; otherwise the code of the first slot that does not: no new entry or one with all its references met, wrong position; then the new table or a reference count is not right |
| `AddrCheck.RejectedAtZero` | src/addrman.cpp:198-220 | one announced address and then Good at time zero: the check answers -1 |
| `AddrMan.CAddrMan.constructor` | src/addrman.h:457-483 | a cleared manager, which is consistent |
| `AddrMan.CAddrMan.Create` | src/addrman.cpp:89-99 | exactly the created entry is added |
| `AddrMan.CAddrMan.SwapRandom` | src/addrman.cpp:101-119 | the two entries trade places; its asserts hold |
| `AddrMan.CAddrMan.Delete` | src/addrman.cpp:121-133 | exactly this entry goes |
| `AddrMan.CAddrMan.ClearNew` | src/addrman.cpp:135-148 | the slot is free, an entry that lost its last reference is gone; its assert holds |
| `AddrMan.CAddrMan.LeaveNewBuckets` | src/addrman.cpp:152-161 | the bucket scan finds every reference, so that the count ends at zero |
| `AddrMan.CAddrMan.MakeTried` | src/addrman.cpp:150-196 | refines the eviction cascade; its asserts hold |
| `AddrMan.CAddrMan.MakeRoom` | src/addrman.cpp:166-190 | refines the eviction of the entry that held the tried slot |
| `AddrMan.CAddrMan.FindBucket` | src/addrman.cpp:227-242 | the search from a random bucket always finds the entry: the "no bucket" exit is never taken |
| `AddrMan.CAddrMan.Good_` | src/addrman.cpp:198-248 | exactly the specified state; consistent if and only if the time is nonzero or the service unknown; the asserts of the eviction cascade hold |
| `AddrMan.CAddrMan.Add_` | src/addrman.cpp:250-321 | consistent, and exactly the specified state and answer |
| `AddrMan.CAddrMan.Place` | src/addrman.cpp:300-320 | refines the placement at the end of Add_ |
| `AddrMan.CAddrMan.Attempt_` | src/addrman.cpp:323-343 | consistent, and exactly the specified state |
| `AddrMan.CAddrMan.GetAddr_` | src/addrman.cpp:470-489 | consistent; at most 2500 addresses and at most 23 percent, namely the acceptable ones of the shuffled prefix, which ends only at one of these bounds or with the list |
| `AddrMan.CAddrMan.Connected_` | src/addrman.cpp:491-509 | consistent, and exactly the specified state |
| `AddrMan.CAddrMan.SetServices_` | src/addrman.cpp:511-527 | consistent, and exactly the specified state |
| `AddrWire.WithinLimits` | src/addrman.h:372-378 | a consistent manager never exceeds the limits its own loader enforces |
| `AddrWire.SavedHeader` | src/addrman.h:305-316 | version 1, a key of 32 bytes, 1024 buckets with bit 30 flipped and a list for each |
| `AddrWire.RoundTrip` | src/addrman.h:301-455 | saving and loading any consistent manager succeeds; the result is consistent and the same up to a renaming of ids and the order of vRandom: same entries, same reference counts, same slots taken in both tables by the same entries, same counters and key |
| `AddrWire.LoadBucketsBack` | src/addrman.h:421-437 | reading the written bucket lists restores the new table slot by slot |
| `AddrWire.LoadTriedBack` | src/addrman.h:400-419 | reading the written tried entries restores the tried table; none collides |
| `AddrDisk.Serialize` | src/addrman.h:301-349 | writes exactly the specified form; its asserts hold |
| `AddrDisk.WriteNew` | src/addrman.h:315-325 | writes the entries with references in order and knows the index of each |
| `AddrDisk.WriteBucket` | src/addrman.h:335-348 | writes the indices of the entries in a bucket |
| `AddrDisk.Clear` | src/addrman.h:457-478 | an empty manager |
| `AddrDisk.Unserialize` | src/addrman.h:351-455 | succeeds exactly on acceptable input, for arbitrary input, and then has exactly the specified state; that is consistent for every well-formed file of any version and bucket count |
| `AddrLoad.FileConsistent` | src/addrman.h:351-455 | loading any well-formed file, whatever its version and bucket count, ends consistent |
| `AddrLoad.SerializedWellFormed` | src/addrman.h:301-349 | a consistent manager writes a well-formed file |
| `AddrLoad.OtherVersionKeeps` | src/addrman.h:380-396 | when the new table cannot be used a new entry is kept exactly if no earlier one has its home slot, and then has that slot alone |
| `AddrLoad.TriedKept` | src/addrman.h:400-419 | whatever the version a tried entry is kept, in its slot, exactly if no earlier one has that slot |
| `AddrDisk.ReadNew` | src/addrman.h:380-398 | reads the new entries; gives them a first reference when the table cannot be used |
| `AddrDisk.ReadTried` | src/addrman.h:400-419 | reads the tried entries; counts those that collide as lost |
| `AddrDisk.Prune` | src/addrman.h:439-449 | deletes exactly the new entries without a reference |
| `AddrDisk.SaveAndLoad` | src/addrman.h:301-455 | a loaded copy of a saved manager is valid and the same up to renaming |
| `Mempool.FewerAncestors` | src/miner.h:84-87 | an ancestor has fewer ancestors than its descendant |
| `Miner.DiscountKeeps` | src/miner.cpp:421-446 | recording that an ancestor went into the block keeps the record exact, or, for an entry that was dropped once, not too small |
| `Miner.SortedAncestors` | src/miner.cpp:463-472 | sorted by ancestor count, every ancestor in a package comes first |
| `Miner.PackageFits` | src/miner.cpp:377-385 | what a package really weighs and costs is covered by its recorded totals, given weight at most four times size |
| `Miner.ChosenEnough` | src/miner.cpp:544-551 | the totals a package is judged by never underestimate what is not yet in the block |
| `Miner.BlockAssembler.constructor` | src/miner.cpp:101-106 | an empty block; the limit given if it lies between 4000 and 4000 below the maximum, otherwise the nearer of the two |
| `Miner.BlockAssembler.OnlyUnconfirmed` | src/miner.cpp:364-375 | exactly the entries not in the block stay |
| `Miner.BlockAssembler.TestPackageTransactions` | src/miner.cpp:391-400 | true exactly if every transaction may be included |
| `Miner.BlockAssembler.SortForBlock` | src/miner.cpp:463-472 | the same entries, sorted |
| `Miner.BlockAssembler.AddToBlock` | src/miner.cpp:402-419 | the block grows by this transaction and its totals, lists and order stay right |
| `Miner.BlockAssembler.UpdatePackagesForAdded` | src/miner.cpp:421-446 | afterwards every record takes exactly the block into account, exactly the entries that depend on what was added have gained one, and the number of updates is the number of (added, dependent) pairs |
| `Miner.BlockAssembler.AddPackage` | src/miner.cpp:597-610 | the package is added parents first, within the limits, and the records are up to date |
| `Miner.BlockAssembler.TryPackage` | src/miner.cpp:558-610 | refused as too big exactly by the test, refused as not final only if something in the package may not be included, otherwise added whole |
| `Miner.BlockAssembler.Consider` | src/miner.cpp:558-610 | a refused package was refused by its exact totals, or had been refused before; the record it came from is dropped, and everything already passed stays decided |
| `Miner.BlockAssembler.RefusesStays` | src/miner.cpp:377-385 | a package that does not go with a block does not go with it after unrelated transactions were added |
| `Miner.BlockAssembler.RecordRefuses` | src/miner.cpp:544-558 | an entry that was not dropped before is judged by its exact totals |
| `Miner.FeeStaysExactIff` | src/miner.h:118-127 | updating a record keeps its fee exact if and only if the included ancestor has no fee delta |
| `Miner.FeeDrifts` | src/miner.cpp:434-444 | two prioritised parents: the record of their child ends with a fee that is too high |
| `Miner.NextDrift` | src/miner.cpp:421-446 | over any sequence of updates the recorded fee less what the rest of the package pays is the sum of the fee deltas of the included ancestors without the one the record was made for |
| `Miner.NoDrift` | src/miner.h:118-127 | without fee deltas among those ancestors the fee is exact |
| `Miner.BlockAssembler.AddPackageTxs` | src/miner.cpp:484-612 | terminates with a block that is closed under ancestors, duplicate free, parents first, all final, with exact weight, sigop, fee and count totals, weight at most the limit (below it once anything was added) and sigops below theirs; the assert holds. If it ran to the end, every entry is in the block, or its package does not go with the finished block, or it was refused when some of its ancestors were in already; an early end has a package whose recorded fee is below the minimum, with exact size and sigops and a fee off by exactly the sum of deltas above unless refused before, or a nearly full block for which more than 1000 different packages were refused as too big since the last addition, and exactly then; so never with at most 1000 entries outside the block. What was added is a succession of whole packages, each paying the minimum by the totals it was judged by |
| `CuckooTable.LocIs` | src/cuckoocache.h:243-253 | the k-th location is as far into the table as the k-th 32-bit hash into its range |
| `CuckooTable.LiveIsPresent` | src/cuckoocache.h:467-477 | a lookup misses no element that may not be collected |
| `CuckooTable.KeptIff` | src/cuckoocache.h:399-406 | nothing but flags changes exactly if the element was at one of its locations |
| `CuckooTable.InsertItems` | src/cuckoocache.h:392-438 | the stored multiset is unchanged, or gains the element and loses exactly one |
| `CuckooTable.FirstDisplaced` | src/cuckoocache.h:430 | the first location to be displaced is the second of the eight |
| `CuckooTable.MovedAgainIff` | src/cuckoocache.h:418-430 | the element just put in is moved again exactly if the next location of the displaced one is the same slot |
| `CuckooTable.MovedAgainExample` | src/cuckoocache.h:418-430 | two elements with one location: the second is put in, moved again at once and lost |
| `CuckooTable.InsertLive` | src/cuckoocache.h:380-390 | only running out of depth costs an element that may not be collected, and then exactly one |
| `CuckooTable.InsertFound` | src/cuckoocache.h:392-438 | after an insertion a lookup finds the element, unless it is the one left over |
| `CuckooTable.InsertFresh` | src/cuckoocache.h:392-438 | and it is in a slot of the current epoch that may not be collected, unless it is the one left over |
| `CuckooTable.DroppedIff` | src/cuckoocache.h:372-438 | an element is left over if and only if in depth_limit displacements no element in hand has a location that may be collected, and it is the one then in hand |
| `CuckooTable.InsertInPlace` | src/cuckoocache.h:392-438 | every slot that may not be collected stays one of its element's eight locations |
| `CuckooTable.InsertEpochs` | src/cuckoocache.h:392-438 | at most one more slot of the current epoch, none of the old one |
| `CuckooTable.AgedCounts` | src/cuckoocache.h:304-310 | ageing makes the current epoch the old one and frees the old one |
| `CuckooTable.EpochStepLeavesRoom` | src/cuckoocache.h:289-321 | after the epoch check there is room for one insertion within the bound |
| `CuckooTable.EpochStepIs` | src/cuckoocache.h:289-322 | a scan ages the epoch exactly if it is full; otherwise the next scan comes when it can be full at the earliest, and not before a sixteenth of an epoch |
| `CuckooTable.BoundedLive` | src/cuckoocache.h:210-219 | the current epoch has at most epoch_size + max(1, epoch_size / 16) slots in use, both together twice that |
| `Cuckoo.BitPackedFlags.constructor` | src/cuckoocache.h:61-68 | all flags are set |
| `Cuckoo.BitPackedFlags.BitSet` | src/cuckoocache.h:92-95 | sets exactly this flag |
| `Cuckoo.BitPackedFlags.BitUnset` | src/cuckoocache.h:103-106 | clears exactly this flag |
| `Cuckoo.Cache.constructor` | src/cuckoocache.h:340-353 | every slot may be collected; epoch size with its 32-bit product |
| `Cuckoo.Cache.EpochCheck` | src/cuckoocache.h:289-321 | exactly the specified ageing, keeping every bound |
| `Cuckoo.Cache.Insert` | src/cuckoocache.h:392-438 | exactly the specified chain; elements stay where lookups find them and the epoch bounds hold after every insertion of every run |
| `Cuckoo.Cache.Displace` | src/cuckoocache.h:407-437 | refines the displacement chain |
| `Cuckoo.Cache.Contains` | src/cuckoocache.h:467-477 | true exactly if the element is at one of its locations; with erase only its flag changes, so that a second lookup still finds it |
| `Cuckoo.ErasedIs` | src/cuckoocache.h:440-477 | with erase exactly one slot with the element, at one of its locations, may be collected then, and what the table holds stays |
| `BaseUint.BaseUint.constructor` | src/arith_uint256.h:31-37 | zero |
| `BaseUint.BaseUint.Copy` | src/arith_uint256.h:39-45 | the same value |
| `BaseUint.BaseUint.Assign` | src/arith_uint256.h:95-102 | the 64-bit value |
| `BaseUint.BaseUint.AddAssign` | src/arith_uint256.h:142-152 | the sum modulo 2^BITS, also of a number with itself |
| `BaseUint.BaseUint.Increment` | src/arith_uint256.h:180-187 | plus one modulo 2^BITS |
| `BaseUint.BaseUint.Complement` | src/arith_uint256.h:76-82 | 2^BITS - 1 minus the value |
| `BaseUint.BaseUint.Negate` | src/arith_uint256.h:84-91 | minus the value modulo 2^BITS |
| `BaseUint.BaseUint.SubAssign` | src/arith_uint256.h:154-158 | the difference modulo 2^BITS |
| `BaseUint.BaseUint.ShiftLeft` | src/arith_uint256.cpp:24-39 | the value times 2^shift modulo 2^BITS, for every shift |
| `BaseUint.BaseUint.ShiftRight` | src/arith_uint256.cpp:41-56 | the value over 2^shift rounded down, for every shift |
| `BaseUint.BaseUint.MulAssign32` | src/arith_uint256.cpp:58-68 | the product modulo 2^BITS |
| `BaseUint.BaseUint.MulAssign` | src/arith_uint256.cpp:70-84 | the product modulo 2^BITS; zero when the right operand is the object itself, because it is cleared before the same two loops read it |
| `BaseUint.BaseUint.AddRow` | src/arith_uint256.cpp:75-81 | one row adds the limb times the other number, shifted; a cleared object added to itself stays zero |
| `BaseUint.BaseUint.DivAssign` | src/arith_uint256.cpp:86-110 | the quotient rounded down; division by zero is reported and leaves zero |
| `BaseUint.BaseUint.DivStep` | src/arith_uint256.cpp:100-107 | one step keeps quotient times divisor plus remainder, and the remainder below the aligned divisor |
| `BaseUint.BaseUint.CompareTo` | src/arith_uint256.cpp:112-122 | the order of the values |
| `BaseUint.BaseUint.Bits` | src/arith_uint256.cpp:174-187 | the bit length of the value |
| `BaseUint.BaseUint.GetLow64` | src/arith_uint256.h:252-256 | the value modulo 2^64 |
| `Compact.SetCompact` | src/arith_uint256.cpp:207-225 | mantissa times 256^(exponent - 3) modulo 2^256; overflow exactly if that does not fit; negative exactly for a nonzero value with the sign bit |
| `Compact.OverflowIff` | src/arith_uint256.cpp:221-223 | the three-way guard is exactly "mantissa times 256^(exponent - 3) is at least 2^256" |
| `Compact.GetCompact` | src/arith_uint256.cpp:227-248 | exponent and leading bytes of the value; its asserts hold |
| `Compact.RoundedDown` | src/arith_uint256.cpp:207-248 | decoding an encoded number gives at most the number, off by less than 256^max(0, exponent - 3) |
| `Compact.RoundedMono` | src/arith_uint256.cpp:207-248 | encoding and decoding is monotone |
| `Compact.RoundedLength` | src/arith_uint256.cpp:227-248 | encoding keeps the bit length, so a nonzero number stays nonzero |
| `Compact.EncodeIdempotent` | src/arith_uint256.cpp:207-248 | encoding what was decoded from an encoding gives the same compact value |
| `Compact.EncodedRange` | src/arith_uint256.cpp:227-248 | a 256-bit number encodes into 32 bits without sign and decodes without overflow |
| `Compact.GetBlockProof` | src/chain.cpp:121-134 | exactly 2^256 / (target + 1) rounded down; zero for negative, overflowing or zero targets |
| `Compact.TargetBelowTop` | src/chain.cpp:128-133 | no compact target is 2^256 - 1, so adding one never wraps to a division by zero |
| `Compact.WorkAntitone` | src/chain.cpp:121-134 | a higher target is not more work, and every valid target is some |
| `Pow.AverageBetween` | src/pow.cpp:44-66 | while nothing wraps, the running average lies between the least and the greatest target of the window |
| `Pow.AverageIsMean` | src/pow.cpp:44-66 | it is the mean of the window with the last block counted twice, too small by at most half the number of blocks |
| `Pow.RetargetBetween` | src/pow.cpp:78-92 | with a clamped timespan the new target is between floor(old / k) and k times old, if old times the timespan fits 256 bits |
| `Pow.RetargetExactIff` | src/pow.cpp:87-88 | scaling gives the floor of the true quotient if and only if the product fits 256 bits |
| `Pow.DgwSound` | src/pow.cpp:18-95 | the compact result is always unsigned, in range and at most the limit; the new target is between a third and three times the average if the product of average and timespan fits |
| `Pow.DgwFits` | src/pow.cpp:40-88 | with window targets up to the limit and a limit times three timespans below 2^256 it always fits |
| `Pow.DgwRetargets` | src/pow.cpp:73-95 | a block that is not exempt, and is before the activation or has a window entirely since it, gets the compact rounding of average times time taken over time due, the time kept within a factor of three and the target cut to the limit, if the product fits; so between a third of the average and three times it |
| `Pow.DgwLimits` | src/pow.cpp:23-71 | the limit without a window or for a late block on a test network; the KAWPOW limit for a block since the activation whose window goes back before it |
| `Pow.DgwSlower` | src/pow.cpp:75-95 | with the same average a window that took longer never gives a smaller target |
| `Pow.TestNetworkWraps` | src/chainparams.cpp:471-474 | at the test network limit it does not: after 180 blocks at the limit, exactly on schedule, the new target is less than a third of the average |
| `Pow.WindowAverage` | src/pow.cpp:40-66 | walks exactly 180 blocks and computes their running average and how many are KAWPOW |
| `Pow.Blend` | src/pow.cpp:50 | one step of the average in 256-bit arithmetic |
| `Pow.DarkGravityWave` | src/pow.cpp:18-95 | computes the function these are proved of, with all its branches |
| `Pow.CalculateNextWorkRequired` | src/pow.cpp:150-173 | refines the older rule |
| `Pow.NextWorkSound` | src/pow.cpp:150-173 | the older rule always gives a target without sign, in range and not above the limit; within a factor of four of the old one, up to compact rounding, if the old target times the clamped timespan fits 256 bits |
| `Pow.NextWorkIs` | src/pow.cpp:150-173 | it is the compact rounding of the old target times time taken over time due, the time kept within a factor of four and the target cut to the limit, if the product fits; the same bits where targets stay |
| `Pow.NextWorkFits` | src/pow.cpp:150-173 | which it does for a target up to a limit that leaves room for the longest timespan |
| `Pow.CheckProofOfWork` | src/pow.cpp:175-192 | true exactly if the compact target is positive, unsigned, at most the limit, and the hash is at most the target |
| `SkipWalk.InvertLowestOneIs` | src/chain.cpp:70-71 | clears exactly the lowest one bit |
| `SkipWalk.GetSkipHeight` | src/chain.cpp:74-82 | strictly below every positive height |
| `SkipBound.OddBound` | src/chain.cpp:84-108 | inside a block of 2^k heights every walk from an odd height takes at most OddMost(k) steps |
| `SkipBound.EighthBound` | src/chain.cpp:84-108 | and every walk from a multiple of 8 at most one more for each of its bits |
| `SkipBound.HopsBound` | src/chain.cpp:84-108 | no walk between two heights up to 2^k takes more than Most(k) steps |
| `SkipBound.MostIs` | src/chain.cpp:78-80 | Most(k) is (k^2 + 8k - 26) / 4 for k from 10 on, so 110 for k = 18 |
| `SkipBound.MostIsMet` | src/chain.cpp:78-80 | the walk from 2^k - 8 to 2 takes exactly that many; for k = 18 it is the 110 steps of the comment |
| `Chain.GetAncestor` | src/chain.cpp:84-108 | the walk over skip pointers ends at the block the walk over pprev ends at; null exactly out of range; with all skip pointers set it takes Hops steps, at most 110 up to height 2^18 |
| `Chain.BuildSkip` | src/chain.cpp:115-119 | the skip pointer is the ancestor at the skip height; the index stays right, and complete in skip pointers if it was |
| `Chain.LastCommonAncestor` | src/chain.cpp:155-170 | two blocks share exactly the ancestors up to the returned one; null exactly if they share none; the assert holds |
| `Chain.ActiveChain.SetTip` | src/chain.cpp:12-22 | the chain is exactly the tip's ancestors, although the loop stops early |
| `Chain.ActiveChain.FindFork` | src/chain.cpp:52-61 | the highest ancestor in the chain: those up to it are, those above are not |
| `Chain.ActiveChain.GetLocator` | src/chain.cpp:24-50 | the ancestors at heights 0, 1, ..., 11, 13, 17, ... below the start, that is i and from the twelfth on 2^(i - 10) + 9, down to the first block; beyond 12 entries, 2^(entries - 12) + 10 is at most the height |
| `Chain.LocatorSize` | src/chain.cpp:24-50 | hence at most 13 + log2(height) entries |
| `Chain.ActiveChain.Next` | src/chain.h:499-504 | the block of the chain built on this one; none exactly if the block is the tip or not in the chain |
| `Radix.MulAdd` | src/base58.cpp:41-51 | the buffer holds its number times the base plus the digit; no carry is left over when the result fits |
| `Radix.PowCompare` | src/base58.cpp:36 | powers of two bases compare as their exponents do |
| `Base58.EncodeFits` | src/base58.cpp:82 | 256^n is at most 58^(n * 138 / 100 + 1) for every n |
| `Base58.DecodeFits` | src/base58.cpp:36 | 58^n is at most 256^(n * 733 / 1000 + 1) for every n |
| `Base58.EncodeBase58` | src/base58.cpp:72-110 | one '1' per leading zero byte, then the number in base 58; the carry assert holds |
| `Base58.DecodeBase58` | src/base58.cpp:22-70 | the bytes of the word if the string is one word of base 58 digits with any surrounding spaces, up to an embedded NUL; otherwise refused; the carry assert holds |
| `Base58.DecodeEncode` | src/base58.cpp:22-110 | decoding an encoded byte string gives it back, for every byte string |
| `Base58.EncodeDecode` | src/base58.cpp:22-110 | encoding what was decoded gives the string without its spaces, for every accepted string |
| `Base58.EncodeBase58Check` | src/base58.cpp:122-129 | decoding the result gives the payload followed by the first four bytes of its hash |
| `Base58.DecodeBase58Check` | src/base58.cpp:131-146 | gives the payload exactly if the string decodes to it followed by the first four bytes of its hash, and is refused if there is no such payload |
| `Base58.DecodeEncodeCheck` | src/base58.cpp:122-146 | the checksummed form round trips for any hash |
| `Base58.EncodeDecodeCheck` | src/base58.cpp:122-146 | and back on every accepted string |
| `Base58.AcceptedBytesIff` | src/base58.cpp:131-146 | encoded bytes are accepted as a payload if and only if they are it and four bytes of its hash; fewer than four never |
| `Base58.ChangedPayload` | src/base58.cpp:137-146 | a changed payload under an old checksum is accepted if and only if the two hashes agree in four bytes |
| `Bloom.WipeGen` | src/bloom.cpp:257-266 | the masked wipe clears exactly the positions of one generation |
| `Bloom.PutGen` | src/bloom.cpp:274-275 | writing a position stores the generation there and nowhere else |
| `Bloom.StoredNext` | src/bloom.cpp:251-266 | when the generation number is used again, it marks exactly what is three generations old |
| `Bloom.RecentEpoch` | src/bloom.cpp:249-277 | the last two generations of keys and the current one are at most two generations old |
| `Bloom.RollingBloomFilter.constructor` | src/bloom.cpp:217-242 | an empty filter; two generations hold at least the requested number |
| `Bloom.RollingBloomFilter.Insert` | src/bloom.cpp:249-277 | each position holds the generation of its last write if that is at most two generations old, and nothing otherwise |
| `Bloom.RollingBloomFilter.Contains` | src/bloom.cpp:285-297 | true exactly if all positions hold a generation; true for each of the last 2 * nEntriesPerGeneration + nEntriesThisGeneration keys |
| `Bloom.AtIs` | src/bloom.cpp:269-275 | the n-th position is made of the n-th hash: its last six bits, and the pair of words the rest falls in, counted round |
| `Bloom.RollingBloomFilter.Reset` | src/bloom.cpp:305-313 | an empty filter with the new tweak |
| `CompactBlocks.Compress` | src/blockencodings.cpp:19-29 | the message describes the block |
| `CompactBlocks.PlacedIs` | src/blockencodings.cpp:59-75 | prefilled transactions take that many different slots and all other slots stay empty |
| `CompactBlocks.AcceptableIff` | src/blockencodings.cpp:62-79 | the tests on prefilled transactions pass if and only if each is there and has a place in the block that 16 bits can name |
| `CompactBlocks.PartiallyDownloadedBlock.Prefill` | src/blockencodings.cpp:56-76 | accepted exactly if every prefilled transaction is acceptable |
| `CompactBlocks.PartiallyDownloadedBlock.NextGap` | src/blockencodings.cpp:84-85 | the scan with its 16-bit offset ends exactly if some number of turns brings it to an empty slot, and then at the next one; it never leaves the array |
| `CompactBlocks.PartiallyDownloadedBlock.MapShortIds` | src/blockencodings.cpp:77-103 | the k-th short id maps to the number of the k-th empty slot modulo 65536; the scan ends exactly if there is no short id or one of the first 65536 slots is empty |
| `CompactBlocks.EndlessIff` | src/blockencodings.cpp:84-85 | in an acceptable message with short ids the scan goes on for ever exactly if 65536 transactions are prefilled |
| `CompactBlocks.EndlessMessage` | src/blockencodings.cpp:84-85 | such a message: 65536 prefilled transactions of index zero and one short id |
| `CompactBlocks.OwnSlotsIff` | src/blockencodings.cpp:81-86 | each short id gets an empty slot of its own if and only if the message has at most 65536 transactions |
| `CompactBlocks.LastMisplaced` | src/blockencodings.cpp:86 | in any larger message the transaction of the last slot, found in the mempool, ends in another slot |
| `CompactBlocks.PartiallyDownloadedBlock.TakeFromPool` | src/blockencodings.cpp:105-133 | of the transactions looked at, a slot gets the only one that maps to it, and nothing if there are several; without one it is left alone; the scan ends with the list or when every mapped slot is filled; mempool_count is the number of slots filled |
| `CompactBlocks.PartiallyDownloadedBlock.TakeFromExtra` | src/blockencodings.cpp:135-164 | a slot ends with the first transaction found for it in both lists if all found agree in witness hash and at most one is from the mempool, and empty otherwise; the scan ends with the list or when every mapped slot is filled |
| `CompactBlocks.PartiallyDownloadedBlock.InitData` | src/blockencodings.cpp:49-170 | invalid exactly for malformed messages, endless exactly with short ids and 65536 prefilled transactions, failed otherwise exactly if a hash bucket is overfull or two short ids are equal; on success what the full lists decide on for a slot is in it, although the scans stop early, and nothing but prefilled and found transactions is; with at most 65536 transactions every slot is empty or holds the block's transaction, for any block the message describes, if no pool transaction is mistaken for another |
| `PoolScan.AllFound` | src/blockencodings.cpp:130-131 | when the count equals the number of short ids every mapped slot is filled |
| `PoolScan.RecoveredAll` | src/blockencodings.cpp:105-164 | what the full lists decide on for a slot is there although the scans may stop early; a slot nothing was found for is as it was; nothing but a found transaction gets in |
| `CompactBlocks.OnlyUnknownMissing` | src/blockencodings.cpp:105-164 | after a read of at most 65536 transactions without mistaken ones only those in neither list are missing |
| `CompactBlocks.ReadConsistent` | src/blockencodings.cpp:49-170 | slots filled by short id agree with the block when it has at most 65536 transactions and none is mistaken for another |
| `CompactBlocks.CompletedIs` | src/blockencodings.cpp:184-193 | the missing transactions in order complete the block |
| `CompactBlocks.PartiallyDownloadedBlock.FillBlock` | src/blockencodings.cpp:178-220 | invalid exactly if the number of missing transactions differs; otherwise the completed list and the outcome of the block check |
| `CompactBlocks.Relay` | src/blockencodings.cpp:19-220 | a block of at most 65536 transactions sent in compact form comes out as it was, the missing ones being asked for by an index list that is written and read; only transactions the receiver has in neither list are asked for; invalid exactly if it has more than the limit, failed exactly if a hash bucket is overfull or two of the short ids are equal |
| `IndexCodec.WriteIndexes` | src/blockencodings.h:65-69 | each index as its distance from its predecessor |
| `IndexCodec.ReadIndexes` | src/blockencodings.h:44-63 | the running sums; refused exactly if a value exceeds 16 bits or the stream is short |
| `IndexCodec.IndexesBack` | src/blockencodings.h:39-70 | every strictly increasing list of 16-bit indexes comes back |
| `IndexCodec.SendIndexes` | src/blockencodings.h:39-70 | a list of 16-bit indexes comes back if and only if it is strictly increasing, and is refused otherwise |
| `BoolExpr.RemoveWhitespaces` | src/LibBoolEE.cpp:158-166 | exactly the characters that are no spaces |
| `BoolExpr.SingleParse` | src/LibBoolEE.cpp:19-68 | the subexpressions at the top level, or the error, exactly as the scan defines them |
| `BoolExpr.SplitShorter` | src/LibBoolEE.cpp:81-142 | on every string each of several subexpressions is strictly shorter |
| `BoolExpr.Resolve` | src/LibBoolEE.cpp:70-146 | ends on every string with the specified value or error |
| `BoolExpr.SplitPrinted` | src/LibBoolEE.cpp:19-68 | splitting a printed chain of operands gives the operands |
| `BoolExpr.PrintedResolves` | src/LibBoolEE.cpp:74-146 | a printed formula evaluates to its truth value |
| `BoolExpr.EvaluatorCorrect` | src/LibBoolEE.cpp:70-166 | any formula, printed with conjunction binding tighter than disjunction, any extra parentheses and any added spaces, evaluates to its truth value |
| `BoolGrammar.ValueIsMeaning` | src/LibBoolEE.cpp:19-146 | every string that gets a value is, without its spaces, a text of a grammar in which ! binds tighter than & and & tighter than the bar, with characters that belong to no expression in front of a whole or parenthesised chain and only & in front of a later operand; the value is the meaning of that text |
| `BoolGrammar.TextResolves` | src/LibBoolEE.cpp:19-146 | conversely every text of the grammar with names of name characters evaluates to its meaning |
| `BoolGrammar.ValueIff` | src/LibBoolEE.cpp:70-166 | with such names a string gets a value if and only if it is, without its spaces, a text of the grammar, and exactly the meaning of that text |
| `BoolGrammar.OneMeaning` | src/LibBoolEE.cpp:19-146 | a text has one meaning however it is read |
| `BoolGrammar.JunkInside` | src/LibBoolEE.cpp:33-38 | and so does one in parentheses with a dollar sign inside them |
| `BoolText.JunkIgnored` | src/LibBoolEE.cpp:33-38 | such characters in front of any text are ignored if it has an operator at the top level, and make it fail otherwise unless the whole is a known name |
| `BoolText.JunkWitness` | src/LibBoolEE.cpp:33-38 | so a disjunction of a and b with a dollar sign in front gets its value |

## Left out

- Asset, messaging and wallet parts of AddCoins and SpendCoin: they call code outside this model.
- Database write failures, crash replay and partial batches below the coin caches.
- Changing a lower coin cache while a child cache exists, and the state after AddCoin throws: the code promises nothing there.
- Coins.CoinsDb.BatchWrite: models the effect of one complete write, not batching or the head-blocks marker.
- MerkleBlock.CalcTreeWidth: computes without a width; by MerkleBlock.WidthFits 32 bits suffice below a third of 2^32 transactions.
- MerkleComputation.ComputeMerkleRoot: asks for at most 2^31 leaves, so that its count fits 32 bits; Merkle branches are not modelled.
- MerkleRoot.RootUnique: txids are atoms, no hashes of two others.
- Select_, GetChance and the distribution of random choices in the address manager: floating point, and termination only with probability one.
- AddrWire.RoundTrip: negative counters on the wire and overflow of the id counter are not modelled.
- Hash functions, address groups and IsRoutable are parameters; so are random choices and times.
- Package fees of entries that were dropped once in block assembly: their records start again from all ancestors, so only lower bounds of size and sigops are stated.
- The order of mapTx by ancestor score and CompareModifiedEntry use doubles: any order and any choice is allowed.
- Creating the coinbase, block templates, mining threads.
- Cuckoo.Cache.constructor: the depth limit, a floating-point logarithm in the source, is a parameter of at least one.
- Reading and writing hexadecimal, getdouble and the bitwise operators of base_uint.
- Pow.DarkGravityWave: the limits are given as 256-bit numbers, their conversion from uint256 bytes is not modelled.
- GetNextWorkRequired and its choice of rule by height; GetBlockProofEquivalentTime; FindEarliestAtLeast.
- Chain.ActiveChain.GetLocator: block hashes stand for the blocks.
- Destinations, keys and addresses built on Base58; locale-dependent isspace.
- Bloom.RollingBloomFilter.constructor: the number of words and hash functions, floating point in the source, are parameters; at least one element is asked for. False positive rates are not modelled.
- CBloomFilter.
- CompactBlocks.PartiallyDownloadedBlock.InitData: whether a hash bucket is overfull is a parameter.
- CompactBlocks.PartiallyDownloadedBlock.FillBlock: CheckBlock's outcome is a parameter.
- IndexCodec.ReadIndexes: the encoding of a single compact size is not modelled.
- BoolGrammar.ValueIff: for valuations with names of other than name characters only one direction is stated, by BoolGrammar.ValueIsMeaning.
- Error reports of the boolean evaluator beyond their kind.
- The amount compressor, network, storage, RPC and configuration code.
