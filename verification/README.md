# A verified model of a small database engine

The engine keeps tables as heaps of slotted pages behind a buffer pool, indexes them with an
extendible hash table, and runs transactions under two-phase locking. This project models its
stateful core and proves, for all inputs, runs and interleavings, the properties each part is for.

Each component comes as a layer of values and functions, on which the theorems are proved, and,
where the program changes something in place, a class whose methods are proved to do to that state
exactly what the function says, loop by loop.

- `Common`: ids, bytes, options shared by all.
- `Bits`, `Directory`, `DirectoryPage`, `Bucket`, `BucketPage`, `HashStore`, `DeepSplit`, `Sweep`,
  `HashTable`, `LostKey`: the hash index. Masks, shifts and xors are defined bit by bit. The invariant is
  `Directory.Canonical` (two entries share a page exactly when their indices agree on the low
  local-depth bits) together with `HashStore.WellFormed` (every pair lies in the bucket of its hash
  class). A table stands for a set of (key, value) pairs, `Contents()`. Where an insert loses the canonical shape, `Findable()` is
  the set of pairs that lookups still find.
- `Locks`, `TwoPhase`, `LockSets`, `Accounting`, `Grants`, `Serializability`, `LostUpdate`,
  `LockManager`: the lock manager as a step system, one step for each stretch between taking
  the manager's latch and giving it up, and theorems about whole runs.
- `Slotted`, `TablePage`, `TableHeap`, `Rollback`, `Restore`, `TransactionManager`, `History`: slotted
  pages down to the bytes that memmove shifts, heaps and scans, commit and abort, and whole
  transactions from their first heap call to the end.
- `BufferPool`, `LruReplacer`, `BufferPoolManager`: the pool and its replacer.
- `RwLatch`: the reader-writer latch as an interleaving step system.
- `Tuple`, `IntegerType`, `Joins`: tuple layout, overflow detection, hash join against nested-loop
  join.

Findings about the code as it is, each with the members that prove it:

- A split of a bucket two or more levels below the global depth leaves the directory
  non-canonical. One split keeps it canonical if and only if the bucket's local depth is the global
  depth or one less (`Directory.SplitCanonicalIff`); `Directory.DeepSplitLeavesStaleEntry` names an
  entry of the image's class that stays on the old page. An insert, with as many splits as it takes,
  keeps the table valid if and only if its target was not so deep, and what lookups find afterwards
  is the old contents and the new pair without exactly the pairs of `Lost(key)`: those that part from
  the key at the first bit on which the full bucket does and whose own entry is not the one
  redirected (`HashTable.ExtendibleHashTable.Insert`). `LostKey.InsertOfSevenLosesFive` is an index in
  which one more insert makes a stored key unfindable.
- The split loop of the hash table ends in a directory of at most 512 entries unless every pair in
  the full bucket shares nine hash bits with the new key; then the program would write past the
  directory arrays. The model returns `DirectoryFull` there, and only there
  (`DeepSplit.SplittingDecidesHopeless`).
- A wound upsets the lock accounts: a step of a caller that keeps the protocol leaves queue counters,
  requests and lock sets in agreement if and only if it wounds nobody (`Accounting.StepAccountsIff`).
- An upgrade that waits has already given its shared lock up. Runs are serializable as long as nobody
  writes a record between the moment its reader's upgrade goes to sleep and the moment it wakes
  (`Serializability.ConflictGraphIsAcyclic`). Where every upgrader that was disturbed in this way comes
  back to its record, that condition is exact (`Serializability.AcyclicIff`);
  `LostUpdate.WaitingUpgradeMakesCycle` is a run that breaks it.
- Abort does not always restore a table. Every undo call succeeds if and only if every mark-delete
  named a slot that exists in the end and every update had eight bytes free for each slot its page
  gained later (`Rollback.EveryUndoSucceedsIff`). For restoring the tuples it is enough that the first
  update of each tuple had that slack: then they are restored if and only if no mark-delete named a
  tuple that was marked beforehand (`Restore.FirstSlackRestoresIff`). Where no tuple is updated twice
  the slack is also necessary (`Restore.SingleUpdatesRestoreIff`). In general it is not:
  `Restore.RestoredWithoutSlack` is a history in which an undo fails and the tuples come back all the
  same. `Rollback.ShrinkThenInsertIsNotRestored` is a two-call history that abort gets wrong.
- The size check of a heap insert wraps around in 32 bits for sizes just below 2^32; such a tuple
  passes it and fits no page (`TableHeaps.CheckedTupleFitsFreshPage`). The walk then takes every page
  the pool will give it, chains them all, and fails (`TableHeaps.TableHeap.InsertTuple`).
- Unpinning overwrites the dirty flag, although the header comment describes the argument as
  marking the page. Idle pages keep equal to their disk images if and only if the call that lets go
  of a changed page passes `true` (`BufferPool.UnpinKeepsContents`).
- A fetch keeps the frame partition whatever page id it asks for. A new page breaks it if and only if
  the id handed out is cached already, brought in by such an early fetch
  (`BufferPool.NewPartitionIff`); two frames then hold pages under one id
  (`BufferPool.FetchThenNewBreaksPartition`). Where callers fetch only ids that were handed out it
  never happens (`BufferPool.PoliteRuns`).
- Deleting a page puts its frame on the free list without taking it out of the eviction order, so a
  deletion keeps the frame partition only where it has nothing to do (`BufferPool.DeletePartitionIff`);
  a pinned page can lose its frame afterwards (`BufferPool.DeletedFrameIsGivenOutTwice`).
- When a right row has several partners the hash join reads the right-hand columns of all output rows
  but the first from its own previous output. It agrees with the nested loops on all inputs if and only
  if the output columns are stable: every byte taken from the right tuple stands, in the output, where
  it stood there (`Joins.HashJoinIsRightIff`). A list that starts with a left column and goes on with the
  first right one is not (`Joins.LeftColumnFirstIsWrong`). With at most one partner for each right row
  any columns will do (`Joins.ChainedIsSwapped`).
- A latch loses a wake-up exactly when a reader leaves a full latch that nobody claims while two or
  more threads sleep on its reader condition (`RwLatch.StepLosesWakeupIff`).
  `RwLatch.FullLatchCanHang` is a run, for any maximum of two or more, that ends with one thread asleep,
  un-notified, on a free latch.
- The length of a NULL text plus four wraps to three, so its four-byte mark runs into the text after
  it, or past the tuple when it is the last. A column of a tuple without a NULL text in last place
  reads back if and only if it is no NULL text or the next text supplies the mark's last byte
  (`Tuples.GetValueReadsBackIff`).

Where the code and its comments disagree the model follows the code: the locking header says that
lock calls return false for an aborted transaction, and the calls throw.

What the environment decides is a parameter: the hash function of the index and of the hash join,
the capacity of a bucket, the page size (any constant of at least 128 bytes, its header is not part
of this model), the page a buffer pool would hand out next, which sleeper a `notify_one` wakes, and
the order in which a set of locks is released. Addresses and page ids are unbounded integers;
32-bit wrap-around is written out where it matters (size words of slots, integer arithmetic, the
tuple size check).

## Model

| member | source | states |
|---|---|---|
| Bits.AndMask | src/storage/page/hash_table_directory_page.cpp:28-30 | and-ing with 2^d - 1 gives the low d bits |
| Directory.SplitImageFlipsTopBit | src/storage/page/hash_table_directory_page.cpp:67-76 | the split image is the one index below 2^depth that agrees with the bucket index on all lower bits and differs in the top one, and every index of the other half-class maps to it |
| Directory.SplitEntries | src/container/hash/extendible_hash_table.cpp:165-205 | entry by entry, what a split round at any depth leaves in the directory |
| Directory.SplitKeepsCanonical | src/container/hash/extendible_hash_table.cpp:160-205 | a split at local depth GD or GD-1 keeps the directory canonical |
| Directory.SplitPair | src/container/hash/extendible_hash_table.cpp:168-176 | after a split at depth GD or GD-1 two entries share a page exactly when they agree on the local depth of either, and then both have that depth |
| Directory.SplitHalves | src/container/hash/extendible_hash_table.cpp:168-176 | the old page is the page of exactly the entries that agree with the target on one more bit, the fresh page of exactly the other half-class, and every other entry keeps the page of the entry it extends |
| Directory.DeepSplitLeavesStaleEntry | src/container/hash/extendible_hash_table.cpp:198-205 | with a larger gap an entry of the image's half-class, other than the image, still points at the old page with the old depth |
| Directory.SplitCanonicalIff | src/container/hash/extendible_hash_table.cpp:160-205 | canonical after one split if and only if the local depth was at least GD-1 |
| Directory.MergeKeepsCanonical | src/container/hash/extendible_hash_table.cpp:263-290 | folding an entry into its image keeps the directory canonical at any depth gap |
| Directory.ShrinkKeepsCanonical | src/storage/page/hash_table_directory_page.cpp:44-51 | halving a directory none of whose entries is at global depth keeps it canonical |
| DirectoryPage.CountIsPowerOfTwo | src/storage/page/hash_table_directory_page.cpp:80-87 | a class of indices with the same low L bits has 2^(GD-L) members |
| DirectoryPage.CanonicalHasIntegrity | src/storage/page/hash_table_directory_page.cpp:80-128 | a canonical directory meets all three integrity assertions, including exactly 2^(GD-LD) pointers to each bucket |
| DirectoryPage.CountIsCardinality | src/storage/page/hash_table_directory_page.cpp:96 | the pointer count of a page is the number of entries that name it |
| DirectoryPage.HashTableDirectoryPage.CanShrink | src/storage/page/hash_table_directory_page.cpp:44-51 | true exactly when every live local depth is below the global depth |
| DirectoryPage.HashTableDirectoryPage.VerifyIntegrity | src/storage/page/hash_table_directory_page.cpp:88-128 | the counting loops pass exactly when no local depth exceeds the global depth, entries of one page have one depth, and the entries of each page are 2^(GD-LD) in number |
| Bucket.LookupIsExact | src/storage/page/hash_table_bucket_page.cpp:27-40 | the scan that stops at the first unoccupied slot finds exactly the values stored under the key |
| Bucket.InsertAddsPair | src/storage/page/hash_table_bucket_page.cpp:43-62 | insert adds the pair, succeeds exactly when it was absent and there was room, and keeps the bucket valid |
| Bucket.RemoveDropsPair | src/storage/page/hash_table_bucket_page.cpp:65-78 | remove takes the pair out and nothing else, and succeeds exactly when it was there |
| Bucket.NumReadableCountsPairs | src/storage/page/hash_table_bucket_page.cpp:131-151 | the number of readable slots is the number of stored pairs; the bucket tests full exactly when it holds as many pairs as it has slots, and empty exactly when it holds none |
| BucketPage.ClearLowest | src/storage/page/hash_table_bucket_page.cpp:136-146 | clearing the lowest set bit lowers the bit count of a byte by one |
| BucketPage.BytesCountSlots | src/storage/page/hash_table_bucket_page.cpp:136-146 | counting bits byte by byte counts readable slots |
| BucketPage.HashTableBucketPage.GetValue | src/storage/page/hash_table_bucket_page.cpp:27-40 | the loop over the two bitmaps equals the bucket's scan |
| BucketPage.HashTableBucketPage.Insert | src/storage/page/hash_table_bucket_page.cpp:43-62 | the in-place insert does to the bucket exactly what Bucket.Insert says |
| BucketPage.HashTableBucketPage.Remove | src/storage/page/hash_table_bucket_page.cpp:65-78 | the in-place remove does exactly what Bucket.Remove says |
| BucketPage.HashTableBucketPage.NumReadable | src/storage/page/hash_table_bucket_page.cpp:136-146 | the bit-clearing loop returns the number of readable slots |
| HashStore.BucketHoldsItsClass | src/container/hash/extendible_hash_table.cpp:68-75 | a bucket holds exactly the stored pairs of its hash class |
| HashStore.ReachableByHash | src/container/hash/extendible_hash_table.cpp:68-75 | every stored pair is in the bucket its key's hash leads to |
| HashStore.SplitKeepsStore | src/container/hash/extendible_hash_table.cpp:160-213 | a split with its rehash keeps index well-formed and the stored set unchanged |
| HashStore.MergeKeepsStore | src/container/hash/extendible_hash_table.cpp:263-290 | a merge with an empty bucket keeps both, for any depth gap |
| HashStore.ShrinkKeepsStore | src/container/hash/extendible_hash_table.cpp:291-293 | halving the directory keeps both |
| Sweep.MergeFolds | src/container/hash/extendible_hash_table.cpp:263-290 | one turn at an empty bucket deeper than one: if the other half of its class is as deep, exactly the entries that agree on one bit less go to that half's page, one level up; otherwise nothing changes |
| HashTable.ExtendibleHashTable.MergeAt | src/container/hash/extendible_hash_table.cpp:254-295 | a turn of the sweep does that, and then halves the directory exactly when no entry is at global depth; at other entries it does nothing |
| Sweep.SweepFolds | src/container/hash/extendible_hash_table.cpp:254-301 | a sweep over a table with a bucket to fold ends with strictly fewer pages in use |
| DeepSplit.RoundLoses | src/container/hash/extendible_hash_table.cpp:154-205 | where the entries of the key's class are all on its bucket, a split round at any depth makes the lookups lose exactly those pairs dealt to the new page whose own entry is not the image, and changes nothing else they find |
| DeepSplit.RoundFinds | src/container/hash/extendible_hash_table.cpp:154-205 | the exact effect of one split round on what lookups find, on any table, however badly earlier deep splits left it |
| DeepSplit.RoundKeepsAim | src/container/hash/extendible_hash_table.cpp:154-213 | after a round at any depth the key's entry leads to exactly the pairs of the old target that agree with the key on one more bit |
| DeepSplit.SplittingEnds | src/container/hash/extendible_hash_table.cpp:150-214 | over all rounds of one insert the lookups have lost exactly the pairs that part from the key at the first bit on which the full bucket does and whose own entry is not redirected |
| DeepSplit.SplittingDecidesHopeless | src/container/hash/extendible_hash_table.cpp:154-164 | the rounds run out of directory bits exactly when every pair of the full target agrees with the key on nine bits |
| DeepSplit.SplittableLosesNothing | src/container/hash/extendible_hash_table.cpp:160-205 | nothing is lost when the target lies at global depth or one below |
| DeepSplit.BrokenStays | src/container/hash/extendible_hash_table.cpp:198-205 | once a deep split has left a stale entry, no later round of the same insert restores the canonical shape |
| LostKey.InsertOfSevenLosesFive | src/container/hash/extendible_hash_table.cpp:144-218 | the table that inserts of three keys make of an empty one, in which inserting a fourth key makes one of the three unfindable |
| HashTable.ExtendibleHashTable.constructor | src/container/hash/extendible_hash_table.cpp:26-50 | a new table is well-formed and empty, with global depth one |
| HashTable.ExtendibleHashTable.GetValue | src/container/hash/extendible_hash_table.cpp:98-114 | returns exactly the values paired with the key in the set that lookups find, which is the stored set of a valid table |
| HashTable.ExtendibleHashTable.Insert | src/container/hash/extendible_hash_table.cpp:118-141 | terminates and makes the pair findable on every table, broken by earlier deep splits or not; where the entries of the key's class are on its bucket, as in every valid table, the lookups gain the pair and lose exactly the pairs that deep splits hide, the result says whether the pair was new, and the directory is split for the key exactly as far as room takes, with one new page for each split, and left alone elsewhere; a valid table stays valid if and only if a full target lay at global depth or one below |
| HashTable.ExtendibleHashTable.SplitInsert | src/container/hash/extendible_hash_table.cpp:144-218 | the same through any number of splits; DirectoryFull exactly when every resident agrees with the key on the nine bits a directory can use |
| HashTable.ExtendibleHashTable.Rehash | src/container/hash/extendible_hash_table.cpp:178-193 | the loop deals every pair of the full bucket to the half-class of its hash |
| HashTable.ExtendibleHashTable.Remove | src/container/hash/extendible_hash_table.cpp:224-248 | on every table: the result says whether the pair was findable, and unless the bucket was emptied the lookups lose that pair and nothing else; a valid table stays valid and its set loses the pair, emptied or not; an emptied bucket's page goes out of use if the other half of its class is as deep |
| HashTable.ExtendibleHashTable.Merge | src/container/hash/extendible_hash_table.cpp:254-301 | on every table the sweep, whose bound shrinks under it, terminates and leaves all buckets alone; on a valid one every entry that is left has had its turn, the stored set is unchanged, and fewer pages are in use whenever there was a bucket to fold |
| LockManager.LockManager.DeadlockPrevent | src/concurrency/lock_manager.cpp:187-198 | the loop aborts exactly the owners of the granted requests of younger transactions, takes their shares and their write off the counters, and changes nothing else |
| LockManager.LockManager.LockShared | src/concurrency/lock_manager.cpp:20-52 | reaches the state, and gives the reply, of the step the run theorems speak of: refused, granted or asleep |
| LockManager.LockManager.LockExclusive | src/concurrency/lock_manager.cpp:54-82 | the same for exclusive requests, wounds included |
| LockManager.LockManager.LockUpgrade | src/concurrency/lock_manager.cpp:84-125 | the same for upgrades, which give the shared lock up first |
| LockManager.LockManager.WakeUp | src/concurrency/lock_manager.cpp:37-51 | what a sleeping lock call does once its condition holds is the wake-up step |
| LockManager.LockManager.Unlock | src/concurrency/lock_manager.cpp:135-162 | does what the unlock step says, which is spelled out by Grants.UnlockOutcome |
| LockManager.LockManager.ReleaseLocks | src/include/concurrency/transaction_manager.h:91-102 | wounded or not, afterwards the transaction holds nothing, each record it had lost its request and counter share, and no other record or transaction changed |
| Grants.LockCallOutcome | src/concurrency/lock_manager.cpp:20-125 | the outcome of every lock call that is not turned away, of a transaction not aborted, while the accounts hold: granted at once, changing nobody, if no other transaction holds the record in conflict; otherwise the younger such holders are aborted, and it sleeps exactly when an older one is left; with what it leaves in the queue and its counters |
| Grants.SharedIsGrantedAtOnce | src/concurrency/lock_manager.cpp:20-52 | whatever the accounts say, a shared request on a queue nobody writes is granted at once, as one sharer more, and changes nothing else |
| Grants.ExclusiveIsGrantedAtOnce | src/concurrency/lock_manager.cpp:54-82 | the same for an exclusive request on a queue with no writer and no sharer |
| Grants.UpgradeIsGrantedAtOnce | src/concurrency/lock_manager.cpp:84-125 | the same for an upgrade by the only sharer |
| Grants.TurnedAwayOutcome | src/concurrency/lock_manager.cpp:163-175 | a call under READ_UNCOMMITTED, of a shrinking transaction, or against a pending upgrade throws, aborts its transaction and does nothing else |
| Grants.AbortedCallThrows | src/concurrency/lock_manager.cpp:127-133 | a call of an aborted transaction throws, gains no lock and leaves no new request |
| Grants.AbortedSleeperThrows | src/concurrency/lock_manager.cpp:127-133 | a sleeper wounded in its sleep wakes to throw and takes its request away |
| Grants.SleeperIsGranted | src/concurrency/lock_manager.cpp:37-49 | a sleeper that is not aborted can wake into its lock exactly when no other transaction holds the record in conflict |
| Grants.WokenOutcome | src/concurrency/lock_manager.cpp:69-80 | what waking into the lock leaves in queue, counters and lock sets |
| Grants.UnlockOutcome | src/concurrency/lock_manager.cpp:135-162 | an unlock removes one request with its share of the counters and turns growing into shrinking; for a shared lock under READ_COMMITTED the state stays as it was |
| LockSets.RunLocksListed | src/concurrency/lock_manager.cpp:20-162 | at every moment of a polite run, wounds included, each lock a transaction has recorded is matched by a request of its own in that record's queue |
| TwoPhase.NeverGrowsAgain | src/concurrency/lock_manager.cpp:164-169 | in every run a transaction that left the growing state never returns to it |
| TwoPhase.NoGrantAfterUnlock | src/concurrency/lock_manager.cpp:135-150 | in every run, wounds included, no request of a transaction is granted after its first unlock, shared unlocks under READ_COMMITTED excepted, provided that transaction issues no lock calls after it committed |
| TwoPhase.ReadUncommittedNeverShares | src/concurrency/lock_manager.cpp:25-32 | in every run no shared lock is granted under READ_UNCOMMITTED |
| TwoPhase.RunIsWellKept | src/include/concurrency/lock_manager.h:40-66 | in every run each transaction that sleeps in a lock call has its request in the queue it waits on |
| TwoPhase.EnabledIsDemanded | src/concurrency/lock_manager.cpp:177-198 | in a run the step system refuses only calls that the lock manager's callers must not make; its other side conditions always hold |
| Accounting.StepAccounts | src/concurrency/lock_manager.cpp:20-162 | each wound-free step keeps queue counters, requests and lock sets in agreement |
| Accounting.StepAccountsIff | src/concurrency/lock_manager.cpp:187-198 | a step of a caller that keeps the protocol leaves them in agreement if and only if it wounds nobody |
| Accounting.WoundAborts | src/concurrency/lock_manager.cpp:187-198 | a wound aborts a transaction exactly when it is younger and owns a granted request in the queue |
| Accounting.RunAccounts | src/include/concurrency/lock_manager.h:47-55 | in every wound-free run the sharing count is the number of granted shared requests, writing holds exactly when one exclusive request is granted, the two exclude each other, and each lock set equals the granted requests |
| Accounting.ExclusiveExcludes | src/concurrency/lock_manager.cpp:54-82 | while one transaction holds a record exclusively no other holds it at all |
| Serializability.EdgeOrdersReleases | src/concurrency/lock_manager.cpp:20-162 | if t's operation conflicts with a later one of u, t first released a lock before u did, in every wound-free REPEATABLE_READ run in which no other transaction writes a record while an upgrade by a transaction that touched it sleeps |
| Serializability.ConflictGraphIsAcyclic | src/concurrency/lock_manager.cpp:20-162 | the conflict graph of every such run has no cycle |
| Serializability.AcyclicIff | src/concurrency/lock_manager.cpp:101-115 | where every transaction whose upgrade was so disturbed touches the record again, the conflict graph is acyclic if and only if no upgrade was disturbed |
| LostUpdate.WaitingUpgradeMakesCycle | src/concurrency/lock_manager.cpp:101-115 | a concrete wound-free REPEATABLE_READ run in which one upgrade waits and the conflict graph has a cycle |
| Slotted.SlotsTileTheTupleRegion | src/include/storage/page/table_page.h:27-44 | every byte from the free-space pointer to the page end lies under exactly one slot |
| Slotted.ResizeKeepsOther | src/storage/page/table_page.cpp:180-196 | moving the region and patching offsets leaves every other slot's bytes and flag as they were |
| Slotted.ResizeIsUpdate | src/storage/page/table_page.cpp:229-244 | growing, shrinking or removing a tuple keeps the page invariant and changes that one record |
| Slotted.PlaceIsPut | src/storage/page/table_page.cpp:61-72 | placing a tuple keeps the page invariant and changes that one record |
| Slotted.FlagIsFlag | src/storage/page/table_page.cpp:123-126 | setting or clearing the deleted bit changes the flag alone |
| Slotted.FreeSpaceIsExact | src/include/storage/page/table_page.h:169-171 | the free space computed from the pointer is what the records leave |
| Slotted.InsertOutcome | src/storage/page/table_page.cpp:38-86 | an insert fails exactly without room for the tuple and a slot entry, takes the first vacant slot, and gains a slot only if none is vacant |
| Slotted.MarkDeleteOutcome | src/storage/page/table_page.cpp:88-128 | a mark-delete is accepted exactly for an unmarked tuple, and sets its mark |
| Slotted.UpdateOutcome | src/storage/page/table_page.cpp:130-198 | an update succeeds exactly for an unmarked tuple whose new bytes fit, replaces them and hands back the old ones |
| Slotted.DeleteOutcomes | src/storage/page/table_page.cpp:200-266 | applying a delete empties the slot, rolling one back clears the mark, and neither touches another slot |
| TablePages.TablePage.MemMove | src/storage/page/table_page.cpp:184-185 | copies overlapping regions as if through a buffer |
| TablePages.TablePage.InsertTuple | src/storage/page/table_page.cpp:38-86 | reuses the first empty slot or appends one, fails exactly without room, keeps the invariant |
| TablePages.TablePage.MarkDelete | src/storage/page/table_page.cpp:88-128 | marks a live tuple, refuses others, keeps the invariant |
| TablePages.TablePage.UpdateTuple | src/storage/page/table_page.cpp:130-198 | replaces a live tuple's bytes and returns the old ones, fails exactly without room, all other records unchanged |
| TablePages.TablePage.ApplyDelete | src/storage/page/table_page.cpp:200-245 | empties the slot, all other records unchanged |
| TablePages.TablePage.RollbackDelete | src/storage/page/table_page.cpp:247-266 | clears the mark |
| TablePages.TablePage.GetTuple | src/storage/page/table_page.cpp:268-306 | the bytes of a live tuple, nothing otherwise |
| TablePages.TablePage.GetFirstTupleRid | src/storage/page/table_page.cpp:308-318 | the first live slot of the page |
| TablePages.TablePage.GetNextTupleRid | src/storage/page/table_page.cpp:320-332 | the first live slot after the given one |
| TableHeaps.CheckedTupleFitsFreshPage | src/storage/table/table_heap.cpp:40-43 | a tuple that passes the 32-bit size check fits a fresh page exactly when the check did not wrap |
| TableHeaps.TableHeap.InsertTuple | src/storage/table/table_heap.cpp:39-91 | for tuples of every size, those whose size check wraps included: uses the first page of the chain with room, else the first fresh page the pool gives that has room; fails and aborts exactly when the check fails or no page can be had; appends one write record; a failed walk leaves the empty pages it took in the chain |
| TableHeaps.TableHeap.FindRoom | src/storage/table/table_heap.cpp:52-83 | the walk tries the pages in chain order and then fresh ones, each at most once, and stops at the first with room |
| TableHeaps.TableHeap.UpdateTuple | src/storage/table/table_heap.cpp:112-131 | records the old version exactly when the update took place and the transaction is not aborted |
| TableHeaps.TableHeap.Begin | src/storage/table/table_heap.cpp:172-190 | the first live tuple of the chain, or the end |
| TableHeaps.TableIterator.Increment | src/storage/table/table_iterator.cpp:36-65 | the next live tuple in page and slot order with its bytes, or the end |
| TableHeaps.LiveIsExact | src/storage/table/table_iterator.cpp:36-65 | the scan order holds exactly the live tuples |
| TableHeaps.LiveAscends | src/storage/table/table_iterator.cpp:36-65 | and each once, ascending by page and slot |
| TableHeaps.Scan | src/storage/table/table_heap.cpp:172-192 | a scan from begin to end terminates and yields the scan order with every tuple's bytes |
| Rollback.UndoRewinds | src/concurrency/transaction_manager.cpp:61-78 | undoing a suffix of any history leaves each page as it was before, without the marks that suffix asked for and with the slots gained since empty |
| Rollback.EveryUndoSucceedsIff | src/concurrency/transaction_manager.cpp:61-78 | every call of the abort loop succeeds if and only if mark-deletes were in range and updates had slack for later slots |
| Rollback.AbortMeetsAssertionsIff | src/storage/page/table_page.cpp:200-259 | abort trips no assertion if and only if every slot named by a mark-delete exists in the end |
| Rollback.AbortRestoresIff | src/concurrency/transaction_manager.cpp:61-78 | when every update had slack, abort restores the map from RIDs to bytes and flags if and only if no mark-delete named a tuple already marked |
| Rollback.GrowingUpdatesHaveSlack | src/storage/page/table_page.cpp:149-152 | histories whose updates never shrink a tuple always have the slack |
| Rollback.ShrinkThenInsertIsNotRestored | src/concurrency/transaction_manager.cpp:73-75 | a history of two calls, on a full page, that abort does not undo |
| Restore.AbortLeavesNoLarger | src/concurrency/transaction_manager.cpp:61-78 | whatever undo calls fail, abort leaves no tuple larger than the history's states allow, so that room freed stays free |
| Restore.FirstSlackRestoresIff | src/concurrency/transaction_manager.cpp:61-78 | when only the first update of each tuple had slack, abort restores the tuples if and only if no mark-delete named a tuple already marked |
| Restore.SingleUpdatesRestoreIff | src/concurrency/transaction_manager.cpp:61-78 | for histories that update no tuple twice, abort restores the tuples if and only if every update had slack and no mark-delete named a tuple already marked |
| Restore.RestoredWithoutSlack | src/storage/page/table_page.cpp:149-152 | a history of three calls, for any page size, in which one undo call fails and the tuples are restored nevertheless |
| TransactionManager.Abort | src/concurrency/transaction_manager.cpp:61-78 | the loop terminates and is the undo of the whole write set |
| TransactionManager.RunIsUndoable | src/concurrency/transaction_manager.cpp:61-78 | the abort loop can run on the write set of any history whose mark-deletes are in range |
| TransactionManager.Commit | src/concurrency/transaction_manager.cpp:39-53 | the loop applies the deletes of the write set and nothing else |
| TransactionManager.CommitMeetsAssertionsIff | src/storage/page/table_page.cpp:229-230 | commit trips no assertion if and only if the deletes name distinct slots that hold tuples |
| TransactionManager.CommitErases | src/concurrency/transaction_manager.cpp:44-52 | after commit the deleted tuples are gone and all others unchanged |
| TransactionManager.AcceptedDeletesCommit | src/storage/table/table_heap.cpp:93-110 | a transaction whose mark-deletes were all accepted can commit |
| Rollback.DoOutcome | src/storage/table/table_heap.cpp:39-131 | what each heap call does to every RID, and the write record it leaves, a refused mark-delete's included |
| History.InsertIsMade | src/storage/table/table_heap.cpp:52-83 | a client's insert goes to the first page of the chain with room, else to a fresh page if there is one and the tuple is not oversized, else nowhere |
| History.ChangeIsMade | src/storage/table/table_heap.cpp:93-131 | a client's updates and deletes are passed on whatever the page answers |
| History.OneMore | src/storage/table/table_heap.cpp:39-131 | one more heap call appends its own effect and write record to those of the history before it |
| History.PerformAndAbort | src/concurrency/transaction_manager.cpp:58-85 | for any heap calls, followed by abort: the heap is the undo of the history that these calls make, up to the insert that aborts the transaction if there is one, and so every tuple is restored exactly under the conditions above |
| History.PerformAndCommit | src/concurrency/transaction_manager.cpp:36-56 | for any heap calls, deletes being of tuples that are there: unless an insert aborts the transaction, commit leaves every tuple as the history of these calls left it and none of those it deleted |
| LruReplacer.EraseIsWithout | src/buffer/lru_replacer.cpp:33-40 | erasing through a frame's iterator takes out that frame and no other |
| LruReplacer.LRUReplacer.Victim | src/buffer/lru_replacer.cpp:21-31 | hands out the back of the list; list and index stay in step |
| LruReplacer.LRUReplacer.Pin | src/buffer/lru_replacer.cpp:33-40 | takes the frame out; list and index stay in step |
| LruReplacer.LRUReplacer.Unpin | src/buffer/lru_replacer.cpp:42-49 | puts an absent frame in front; list and index stay in step |
| BufferPool.FetchKeepsContents | src/buffer/buffer_pool_manager_instance.cpp:91-120 | fetching any page id changes no page's contents, hands back the page's last contents, and fails exactly when the page is not cached and all frames are pinned |
| BufferPool.FetchKeepsPartition | src/buffer/buffer_pool_manager_instance.cpp:91-120 | a fetch of any page id keeps each frame free, pinned or evictable and the page table inverse to the frames' ids |
| BufferPool.NewKeepsContents | src/buffer/buffer_pool_manager_instance.cpp:71-89 | a new page reads as zeros, no other page changes, failure exactly when all frames are pinned |
| BufferPool.NewPartitionIff | src/buffer/buffer_pool_manager_instance.cpp:71-89 | a new page keeps that partition if and only if its id is not cached once a frame has been found |
| BufferPool.FetchThenNewBreaksPartition | src/buffer/buffer_pool_manager_instance.cpp:71-120 | in every pool of two or more frames, fetching the first id and then asking for a new page leaves two pinned frames under one id |
| BufferPool.PoliteRuns | src/buffer/buffer_pool_manager_instance.cpp:158-167 | in runs that fetch only ids handed out a new page never has an id in use |
| BufferPool.UnpinKeepsContents | src/buffer/buffer_pool_manager_instance.cpp:144-156 | unpinning keeps idle pages equal to disk if and only if a changed page is let go of as dirty |
| BufferPool.FreshFrame | src/buffer/buffer_pool_manager_instance.cpp:169-184 | a frame comes from the head of the free list while there is one, and nothing else changes; else it is the one at the end of the eviction order, whose page leaves the table and is written out if dirty; else there is none |
| BufferPool.FetchOutcome | src/buffer/buffer_pool_manager_instance.cpp:91-120 | a hit pins once more and marks dirty; a miss fills a fresh frame, clean and pinned once; without a frame nothing changes |
| BufferPool.NewOutcome | src/buffer/buffer_pool_manager_instance.cpp:71-89 | a new page is a zeroed, clean frame pinned once under the next id, which is used up only then |
| BufferPool.UnpinOutcome | src/buffer/buffer_pool_manager_instance.cpp:144-156 | letting go takes one pin and overwrites the dirty flag; the last pin puts the frame in front of the eviction order and, if the flag is set, on disk |
| BufferPool.FlushOutcome | src/buffer/buffer_pool_manager_instance.cpp:53-62 | a flush succeeds exactly for pages in the pool, writes the frame out if it is marked dirty, and leaves it clean and all else as it was |
| BufferPool.DeletePartitionIff | src/buffer/buffer_pool_manager_instance.cpp:122-142 | a deletion keeps the frame partition if and only if the page is not in the pool or is pinned |
| BufferPool.DeleteKeepsContents | src/buffer/buffer_pool_manager_instance.cpp:122-142 | and the page can still be read back from disk |
| BufferPool.DeletedFrameIsGivenOutTwice | src/buffer/buffer_pool_manager_instance.cpp:122-142 | calls on a pool of one frame after which a new page is given the frame that another page has pinned |
| BufferPool.StepKeeps | src/buffer/buffer_pool_manager_instance.cpp:71-191 | every call keeps partition and coherence and changes the contents of the written or new page only |
| BufferPool.PoolRefinesStore | src/buffer/buffer_pool_manager_instance.cpp:71-191 | in every run, early fetches included, in which no new page takes an id in use: frames are partitioned into free, pinned and evictable, the page table is inverse to the frames' ids, and every page has the contents last written to it, or zeros if it was handed out since |
| BufferPool.FetchReturnsLastWritten | src/buffer/buffer_pool_manager_instance.cpp:91-120 | after any run a fetch returns the last contents whatever was evicted |
| BufferPool.PinnedStays | src/buffer/buffer_pool_manager_instance.cpp:169-184 | a pinned page stays in its frame through every call |
| BufferPool.LruIsByLastUnpin | src/buffer/lru_replacer.cpp:42-49 | in every run the replacer's list is ordered by the last unpin that let go |
| BufferPool.VictimIsLeastRecentlyUnpinned | src/buffer/lru_replacer.cpp:21-31 | the victim is the frame let go of longest ago |
| BufferPoolManager.BufferPoolManagerInstance.FindFreshPage | src/buffer/buffer_pool_manager_instance.cpp:169-184 | free list first, then the victim, written back if dirty |
| BufferPoolManager.BufferPoolManagerInstance.NewPgImp | src/buffer/buffer_pool_manager_instance.cpp:71-89 | refines New on the pool: a zeroed page under the next id, pinned once; keeps the frame partition if and only if that id is not in use |
| BufferPoolManager.BufferPoolManagerInstance.FetchPgImp | src/buffer/buffer_pool_manager_instance.cpp:91-120 | refines Fetch on the pool, hits and misses, for any page id, and keeps the frame partition |
| BufferPoolManager.BufferPoolManagerInstance.UnpinPgImp | src/buffer/buffer_pool_manager_instance.cpp:144-156 | refines Unpin on the pool, flushing when the last pin goes, and keeps the frame partition |
| BufferPoolManager.BufferPoolManagerInstance.FlushPgImp | src/buffer/buffer_pool_manager_instance.cpp:53-62 | does what Flush says, spelled out by BufferPool.FlushOutcome, and keeps the frame partition |
| BufferPoolManager.BufferPoolManagerInstance.DeletePgImp | src/buffer/buffer_pool_manager_instance.cpp:122-142 | refines Delete; fails exactly for pinned pages, and keeps the frame partition exactly when it frees no frame |
| BufferPoolManager.BufferPoolManagerInstance.AllocatePage | src/buffer/buffer_pool_manager_instance.cpp:158-167 | ids handed out stay in the residue class of the instance |
| RwLatch.WriterExcludes | src/include/common/rwlatch.h:40-86 | in every interleaving a writer overlaps neither a reader nor another writer |
| RwLatch.NoReaderAfterClaim | src/include/common/rwlatch.h:40-69 | between a writer's claim and its release no reader enters |
| RwLatch.WriterOutcome | src/include/common/rwlatch.h:40-49 | a writer's call or wake-up takes a free latch, claims one with readers and waits for them, and sleeps behind another claim; it never leaves without one of these |
| RwLatch.DrainerOutcome | src/include/common/rwlatch.h:46-48 | a writer waiting for readers takes the latch as soon as it wakes to find none |
| RwLatch.ReaderOutcome | src/include/common/rwlatch.h:63-69 | a reader enters exactly when no writer has claimed the latch and it is not full |
| RwLatch.WriterLeaves | src/include/common/rwlatch.h:54-58 | a writer's release frees the latch and notifies exactly those who wait to enter |
| RwLatch.ReaderLeaves | src/include/common/rwlatch.h:74-86 | a reader's release notifies one waiting writer if it was the last under a claim, one sleeper if it was the first off a full latch, and nobody otherwise |
| RwLatch.StepLosesWakeupIff | src/include/common/rwlatch.h:74-86 | a step loses a wake-up if and only if a reader leaves a full unclaimed latch while two or more threads sleep on the reader condition |
| RwLatch.BelowMaxSuffices | src/include/common/rwlatch.h:67-69 | while readers stay below the maximum no such departure can happen |
| RwLatch.RunLosesNoWakeup | src/include/common/rwlatch.h:54-86 | in a run no un-notified thread is ever left asleep with its condition false if and only if no reader leaves a full unclaimed latch while two or more threads sleep on the reader condition |
| RwLatch.NeverHangs | src/include/common/rwlatch.h:40-86 | in every run without such a departure, while threads wait, one holds the latch or one has been notified |
| RwLatch.FullLatchCanHang | src/include/common/rwlatch.h:76-86 | for every maximum of two or more, a run from the start state after which every thread is idle but one, which sleeps un-notified on a free latch |
| RwLatch.ReaderWriterLatch.WLock | src/include/common/rwlatch.h:40-49 | each stretch from the call or from a wake-up to the next wait is one step of the system; afterwards the latch is claimed, and the thread holds it, waits for readers, or sleeps behind another claim |
| RwLatch.ReaderWriterLatch.RLock | src/include/common/rwlatch.h:63-69 | the same for readers: the thread is counted and reading exactly when nobody had claimed the latch and it was not full |
| RwLatch.ReaderWriterLatch.WaitForReaders | src/include/common/rwlatch.h:46-48 | the wake-up of a writer that has claimed the latch and waits for readers is the step of that name |
| RwLatch.ReaderWriterLatch.RUnlock | src/include/common/rwlatch.h:74-86 | is an enabled step: it wakes one sleeper of the right kind exactly when the last reader leaves a claimed latch or the first leaves a full one |
| Tuples.BuiltHolds | src/storage/table/tuple.cpp:42-53 | no column written later overlaps the room an earlier one was given |
| Tuples.KeyFromTupleIsProjection | src/storage/table/tuple.cpp:99-106 | the key tuple equals the tuple built from the projected values, for columns that read back |
| Tuples.DecodeEncode | src/storage/table/tuple.cpp:46 | a machine word reads back from its bytes |
| Tuples.EncodeIsLittleEndian | src/storage/table/tuple.cpp:46 | byte i of a word is its i-th from the bottom |
| Tuples.LayoutIs | src/storage/table/tuple.cpp:28-53 | columns follow one another at their sizes in schema order, and the texts behind them, four bytes longer than their characters, three for a NULL |
| Tuples.WordBytes | src/storage/table/tuple.cpp:50-52 | the bytes of every fixed-size column of a constructed tuple |
| Tuples.OffsetBytes | src/storage/table/tuple.cpp:44-46 | the bytes that say where a text lies |
| Tuples.TextBytes | src/storage/table/tuple.cpp:47-49 | and the bytes there: length and characters, or three of a NULL mark |
| Tuples.GetValueReadsBackIff | src/storage/table/tuple.cpp:90-121 | a column of a constructed tuple reads back as its value if and only if it is no NULL text or the length of the next text ends in the byte the NULL mark lacks |
| Tuples.GetValueReadsBack | src/storage/table/tuple.cpp:90-97 | without NULL texts every column reads back |
| Tuples.ContainedIff | src/storage/table/tuple.cpp:28-53 | the constructor writes inside the bytes it allocates if and only if the last text is not NULL |
| Tuples.Schema.constructor | src/catalog/schema.cpp:21-39 | column offsets are prefix sums of the fixed lengths, and the variable-length columns are listed in order |
| Tuples.Tuple.constructor | src/storage/table/tuple.cpp:24-54 | allocates exactly the bytes its length sum gives and writes the specified layout, NULL texts included unless one comes last |
| IntegerType.AddIsExact | src/include/type/integer_parent_type.h:78-99 | for non-NULL operands of any widths: the exact sum in the wider type, or an error exactly when it does not fit |
| IntegerType.SubtractIsExact | src/include/type/integer_parent_type.h:101-121 | the same for differences |
| IntegerType.MultiplyIsExact | src/include/type/integer_parent_type.h:123-143 | the same for products |
| IntegerType.QuotientTellsWrap | src/include/type/integer_parent_type.h:133-137 | a wrapped product that divides back to x lost nothing |
| IntegerType.OperateIsExact | src/type/integer_type.cpp:70-103 | for any operands: NULL of the wider type when either is NULL, else the exact result in the wider type or an error exactly when it does not fit |
| IntegerType.MinimumsAddToZero | src/include/type/integer_parent_type.h:78-99 | the addition itself does not notice NULL: the words for NULL of four and of eight bytes wrap around to zero without an error |
| Joins.InsertThenLookup | src/execution/hash_join_executor.cpp:38-43 | a row inserted is found under every key equal to its own, of whatever width, and under no other |
| Joins.GetAsReadsBack | src/include/type/value.h:87-90 | an integer of any width reads back from its two's complement, whatever the bytes above it hold |
| Joins.WidthsAreBytes | src/type/type.cpp:32-51 | the four widths are those of one, two, four and eight byte columns |
| Joins.EqualHashesEqual | src/include/common/util/hash_util.h:61-78 | integers equal across widths hash equally, for any byte hash |
| Joins.SameBytesIffEqual | src/include/common/util/hash_util.h:61-78 | reading each width at its own size and widening to eight bytes gives the same bytes exactly for equal integers |
| Joins.LoopsSwap | src/execution/nested_loop_join_executor.cpp:51-83 | the order of the two loops does not change the multiset of rows |
| Joins.NestedCounts | src/execution/nested_loop_join_executor.cpp:51-83 | a row comes out once for every pair of a left and a right row whose keys are the same integer and whose columns make that row |
| Joins.NestedLoopJoin.Next | src/execution/nested_loop_join_executor.cpp:51-83 | produces the nested comprehension row by row, then reports the end |
| Joins.HashJoin.Build | src/execution/hash_join_executor.cpp:28-45 | under every key the table holds the left rows with that key, in order |
| Joins.HashJoin.Next | src/execution/hash_join_executor.cpp:54-84 | produces the rows of each lookup in turn, later ones from the caller's tuple |
| Joins.ChainedIsSwapped | src/execution/hash_join_executor.cpp:71-82 | when no right row has two partners, or the output columns are stable, that is the comprehension itself |
| Joins.DistinctKeysSuffice | src/execution/hash_join_executor.cpp:38-43 | distinct left keys are one way for no right row to have two partners |
| Joins.RepeatedKeysChain | src/execution/hash_join_executor.cpp:71-82 | two partners of one right row: the rows produced, and they are the comprehension's if and only if the output ignores the difference between the row and the previous output |
| Joins.HashJoinIsRightIff | src/execution/hash_join_executor.cpp:54-84 | the rows produced are the comprehension's on all inputs if and only if every byte the output takes from the right tuple stands where it stood there |
| Joins.LeftColumnFirstIsWrong | src/execution/hash_join_executor.cpp:71-79 | a left column followed by the first right column: rows on which the hash join goes wrong |
| Joins.OutputRow | src/execution/hash_join_executor.cpp:71-80 | the loop over the output columns builds the projection of the two tuples |
| Joins.BothJoins | src/execution/hash_join_executor.cpp:54-84 | when no right row has two partners, or the output columns are stable, both joins produce the same multiset of rows |

## Left out

- HashTable.ExtendibleHashTable.Merge: on a table that a deep split has broken, the sweep and the halving of the directory may change what lookups find; how is not stated. Nor is the combined effect of several rounds of an insert that is not aimed (DeepSplit.RoundFinds gives one).
- HashTable.ExtendibleHashTable.Insert: one step here, although the program drops the table latch before SplitInsert, and Remove before Merge, so that calls of other threads can come between. SplitInsert and Merge are proved from every valid table, the one such calls leave included; the combined effect of an interleaved Insert or Remove is not stated.
- Accounting.RunAccounts: covers runs without wounds and callers that do not lock a record they hold, as the locking header asks; every wound breaks the accounts (Accounting.StepAccountsIff).
- Serializability.AcyclicIff: a disturbed upgrader that never comes back to its record may or may not be on a cycle, depending on what else it touches after waking; for those runs only one direction is proved. All runs are wound-free and REPEATABLE_READ.
- TwoPhase.NoGrantAfterUnlock: assumes that the transaction in question issues no lock calls after it committed; nothing is assumed of the others.
- RwLatch.NeverHangs: says nothing about fairness; a notified thread may find its condition true again.
- Restore.FirstSlackRestoresIff: one half of the general question; when a tuple is updated several times and the slack of its first update is missing, abort restores some histories and not others, as Restore.RestoredWithoutSlack shows, and no closed condition is given.
- BufferPool.PoolRefinesStore: runs without page deletion, which breaks the frame partition (BufferPool.DeletePartitionIff), and a disk whose unwritten pages read as zeros.
- History.PerformAndAbort: calls of one transaction on one heap, one after another, each with a tuple of fewer than 2^32 - 32 bytes and deletes of slots that exist; calls of other transactions between them are left out.
- Tuples.Tuple.constructor: a tuple whose last text is NULL, for which the program writes one byte past the tuple, and sizes of 2^32 or more are not built; reading assumes less than 2 GiB, because offsets are read back as signed 32-bit words.
- IntegerType.AddIsExact: signed overflow wraps in two's complement, which the language standard of the program leaves undefined.
- Joins.BothJoins: keys are integers other than NULL; tuples have fixed-size columns, so that an output row is a row of copied bytes; bytes behind the end of a tuple read as zero; the children are fixed lists of rows.
- Deadlock freedom of the lock manager: waiters are not looked at again for their age once asleep, so it is not claimed; its condition variable is modelled as waking any sleeper whose condition holds.
- Buffer-pool failures inside the hash index and the heap's reads, and page latches held around single calls: each call on a page is one step.
- The key comparator of the index and the MurmurHash function: keys are compared by equality and the hash is any function, truncated to the bits the directory uses.
- Header words of table pages (LSN, previous page) and their byte encoding: the free-space pointer, slot entries and next link are fields beside the byte buffer; the page invariant keeps the buffer's tuple region clear of the slot array.
- The pages of a heap are held as their records, which the methods of TablePages.TablePage refine to bytes one page at a time; the heap object holds no page objects.
- Write sets over several tables: page ids are unique across tables, so the rollback theorems speak of one store for all; the commit and abort methods take one heap.
- Undo of index entries on abort, logging, checkpoints and recovery.
- Division, modulo, decimals, and casts between types.
- Flushing all pages (repeats the flush of one), closing the pool, tuple copying.
- Catalog maps, B+ tree stubs, parallel buffer pool, the other executors and the command line: easy members or unimplemented.
