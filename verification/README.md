# L4: epoch reclamation, lock-free table and cache, verified

L4 is a hash table of a fixed number of buckets. Reads take no locks; a record that is unlinked is
released only when no reader can still hold it, which an epoch scheme decides. On top of the table are
a cache with CLOCK and time-based eviction and a binary dump and load. This project models these parts
and proves what they are for. `dafny verify dfyconfig.toml` checks all of it.

How the parts fit together:

- `Reclamation.dfy` is the epoch protocol as a state machine whose steps are the single atomic actions of
  readers, writers and the processing thread. `EpochQueue.dfy`, `EpochActions.dfy` and `EpochManager.dfy`
  hold the classes behind it; `LocalEpochManager.RemoveIsARun` ties the class to the machine.
- `SafeReads.dfy` runs both machines together and shows that no look up touches released memory.
- `LockFreeGet.dfy` is a bucket chain under lock-free readers and locked writers, load by load and store
  by store. `LockFreeGet.AddingIsAdded` ties its writers to the table.
- `BucketChain.dfy` says what it means for chains to store a map; `SharedHashTable.dfy` and
  `ReadWriteHashTable.dfy` are the linked entries and the operations on them; `Accounting.dfy` and
  `PerfCounter.dfy` are the counters; `TableIterator.dfy` is the cursor.
- `RecordCodec.dfy` is the record layout, `Serializer.dfy` the dump of a table.
- `Metadata.dfy`, `ClockSweep.dfy`, `CacheHashTable.dfy` and `CacheIterator.dfy` are the cache.
- `Bits.dfy` is the power-of-two arithmetic, `Wrappers.dfy` two common datatypes.

Where the code does something else than its comments suggest, the model follows the code:

- An overwrite of a value of no bytes is counted as a new record (ReadWrite/HashTable.h:419-424).
  `TableRuns.ExactAccounting` gives the exact condition under which the counters are right.
- `RemoveUnreferenceEpochCounters` returns what its comment promises only while no reference shares a slot
  with an older epoch (`EpochTokens.LoopReturnsOldestExactly`); it is safe in any case.
- Get is not an atomic look up for every key. `LockFreeGet.AtomicIffTagZero` says for which it is.
- The order of the two epoch increments matters, but not for every configuration
  (`Reclamation.CounterFirstIsNeeded`).
- The size computed for a buffer wraps when fixed value size and metadata reach 2^32
  (`RecordCodec.LayoutFillsBuffer`).
- A cached record whose creation time needs more than 31 bits looks older than it is
  (`CacheMetadata.ExpiryOfStamp`); a hit is never too old (`CacheTable.FreshEnough`).
- A cache Add whose sizes are refused may have evicted records before; `CacheTable.CacheHashTable.Add` says
  exactly when.
- The assertions of the cache that a value is not empty and that the clock is not behind a record are
  absent from release builds; the model does not need them.

Parameters stand for what the code gets from elsewhere: the two hash words of a key (any function), the
readings of the clock, the number of hardware threads, and the sizes of platform-dependent objects.

## Model

| member | source | states |
|---|---|---|
| `Reclamation.EveryRunIsSafe` | inc/L4/LocalMemory/EpochManager.h:42-87 | in every interleaving of readers, writers and the processing thread, for every ring size and number of queues, no release of a record has run while a reader that loaded it still holds its epoch reference, and none has run twice |
| `Reclamation.StepKeepsInv` | inc/L4/LocalMemory/EpochManager.h:58-87 | each single step (a load, the store that unlinks, the two halves of RegisterAction, one probe or increment of the front, the sweep of one queue, one action, each of the two epoch increments) keeps the invariant behind safety: reader epoch <= back <= current counter, releases registered no earlier than their readers, places of records, pending count |
| `Reclamation.EveryRunConserves` | src/EpochActionManager.cpp:33-69 | over every run an allocated record is in exactly one place: linked, in the hands of one writer, waiting in a queue, in the batch being performed, or released; so registered actions are the disjoint union of pending and performed ones |
| `Reclamation.PendingCountAtQuiescence` | inc/L4/LocalMemory/EpochManager.h:42-46 | once no registration is half done and no batch is being performed, PendingActionsCount is the number of waiting actions |
| `Reclamation.PassPerformsWhatIsDue` | inc/L4/LocalMemory/EpochManager.h:72-87 | when no reference reaches the slots of the epochs from the front to e during the loop, a pass that ends has moved the front beyond e and has performed every action that waited at e or below, whatever interleaves; `Reclamation.RegisteredIsReleased` starts from the registration instead |
| `Reclamation.RegisteredIsReleased` | inc/L4/LocalMemory/EpochManager.h:42-87 | progress from the registration on: a record that a writer has unlinked when the counter said c is released by every undisturbed pass that moves the front beyond c, if the insertion of its release, however late after the counter was read, came before the sweep of its queue |
| `Reclamation.EnqueueIsExact` | src/EpochActionManager.cpp:33-40 | the second half of RegisterAction lets exactly this action wait in addition, in the queue chosen, at the epoch that the first half has read, whatever the counter says by then |
| `Reclamation.OthersAreNeverBlocked` | inc/L4/LocalMemory/EpochManager.h:42-56 | a reader can take, move and give back a reference and load what is linked, and a writer can unlink, read the counter, insert and count, whatever the others have done |
| `Reclamation.HeldIsWhatWasLoaded` | inc/L4/Epoch/EpochRefPolicy.h:12-27 | a reader holds exactly what it has loaded since it took its reference, also under a reference that has been moved |
| `Reclamation.OwnStepsAreBounded` | inc/L4/LocalMemory/EpochManager.h:72-87 | whatever interleaves, the processing thread makes at most as many steps of its own within a pass as two per epoch in flight, one per queue, one per action waiting or registered meanwhile, and three |
| `Reclamation.ThreadIsNeverBlocked` | inc/L4/LocalMemory/EpochManager.h:72-87 | at each point of a pass its next own step is possible |
| `Reclamation.PassEnds` | inc/L4/LocalMemory/EpochManager.h:72-87 | so the thread alone ends its pass within that bound, without touching a slot |
| `Reclamation.DueActionIsPerformed` | inc/L4/LocalMemory/EpochManager.h:72-87 | and every action that is due has then been performed |
| `Reclamation.BackFirstIsUnsafe` | inc/L4/LocalMemory/EpochManager.h:59-67 | with the two increments of Add reversed there is, for any ring of more than one slot and any number of queues, a run in which a reader holds a record whose release has run |
| `Reclamation.CounterFirstIsNeeded` | inc/L4/LocalMemory/EpochManager.h:59-67 | the comment about the order, exactly: all reachable states are safe if and only if the counter is incremented before the back, or the ring has a single slot, or there is no queue |
| `LocalEpochManager.RemoveIsARun` | inc/L4/LocalMemory/EpochManager.h:72-87 | what Remove does to ring, queues and performed actions is a run of own steps of the machine, undisturbed if the slots are free, so the theorems about safety and progress cover the class |
| `LocalEpochManager.EpochManager.RegisterAction` | inc/L4/LocalMemory/EpochManager.h:42-46 | inserts the action at the current epoch counter into the next queue in turn and adds one to the pending count |
| `LocalEpochManager.EpochManager.Add` | inc/L4/LocalMemory/EpochManager.h:58-68 | one epoch more in the counter and one in the queue, and nothing else |
| `LocalEpochManager.EpochManager.Remove` | inc/L4/LocalMemory/EpochManager.h:72-87 | the front goes to where the loop stops, exactly the actions below it are performed and the others stay, and the four counters say so |
| `EpochTokens.EveryRunIsSound` | inc/L4/Epoch/EpochQueue.h:72-139 | in all reachable states, wrapped or not, each slot is the number of live references congruent to it, every live reference lies between front and back, added and removed references balance per epoch, and the exception of RemoveRef is unreachable |
| `EpochTokens.StepKeepsInv` | inc/L4/Epoch/EpochRefPolicy.h:12-27 | construction, move, destruction, AddNewEpoch and each step of the front keep that invariant, and none of them meets an invalid reference count |
| `EpochTokens.OnlyOneOwnerReleases` | inc/L4/Epoch/EpochRefPolicy.h:16-27 | after a move the moved-from policy releases nothing when it is destroyed and the new owner releases what the old one would have |
| `EpochTokens.LoopNeverPassesALiveReference` | inc/L4/Epoch/EpochQueue.h:122-139 | the front never passes a live reference, even when more epochs are in flight than the ring has slots |
| `EpochTokens.LoopReturnsOldestExactly` | inc/L4/Epoch/EpochQueue.h:122-139 | the loop returns the oldest live epoch (or the back) if and only if no live reference shares a slot with an older epoch in the queue |
| `EpochTokens.LoopReturnsOldestUnwrapped` | inc/L4/Epoch/EpochQueue.h:122-139 | it does so whenever fewer epochs are in flight than there are slots |
| `EpochTokens.OverlapHidesTheOldest` | inc/L4/Epoch/EpochQueue.h:119 | the overlap left as a TODO: a run after which the loop stops before the oldest live epoch |
| `EpochRing.LoopStopsAtFirstReferencedSlot` | inc/L4/Epoch/EpochQueue.h:126-139 | on any ring the loop skips zero slots only and stops at the first slot in use or at the back |
| `EpochRing.EpochQueue.Create` | inc/L4/Epoch/EpochQueue.h:24-36 | a queue size of zero is refused; otherwise front and back are the given epoch and all counts are zero |
| `EpochRing.EpochQueue.AddRef` | inc/L4/Epoch/EpochQueue.h:72-80 | counts one reference on the back epoch and returns it |
| `EpochRing.EpochQueue.RemoveRef` | inc/L4/Epoch/EpochQueue.h:84-94 | takes one reference off, or refuses a slot that is already zero and changes nothing |
| `EpochRing.EpochQueue.AddNewEpoch` | inc/L4/Epoch/EpochQueue.h:113-120 | moves the back by one and nothing else |
| `EpochRing.EpochQueue.RemoveUnreferenceEpochCounters` | inc/L4/Epoch/EpochQueue.h:126-139 | the loop computes RemoveUnreferenced and returns the front |
| `EpochTokens.EpochRefPolicy.constructor` | inc/L4/Epoch/EpochRefPolicy.h:12-14 | takes a reference on the back epoch and remembers it |
| `EpochTokens.EpochRefPolicy.MoveFrom` | inc/L4/Epoch/EpochRefPolicy.h:16-21 | takes the epoch over and leaves the sentinel behind |
| `EpochTokens.EpochRefPolicy.Destroy` | inc/L4/Epoch/EpochRefPolicy.h:23-27 | releases the remembered epoch unless it is the sentinel, as the state machine does |
| `EpochActions.SweepIsExact` | src/EpochActionManager.cpp:46-64 | the sweep of a queue takes exactly the actions registered strictly below the bound, leaves every other one at its epoch and loses none |
| `EpochActions.SweepConserves` | src/EpochActionManager.cpp:42-69 | over all queues, taken and left actions together are the ones that waited, as multisets |
| `EpochActions.InsertKeepsSorted` | src/EpochActionManager.cpp:39 | a registration keeps the map from epochs to actions in order |
| `EpochActions.InsertWaits` | src/EpochActionManager.cpp:39 | after a registration exactly the new action, at its epoch, waits in addition |
| `EpochActions.InsertIsLast` | src/EpochActionManager.cpp:39 | the new action is the last one of its epoch, and the actions of the other epochs and their order stay |
| `EpochActions.InsertIntoOne` | src/EpochActionManager.cpp:33-40 | a registration adds one action to one queue and to the total |
| `EpochActions.SweepOfOne` | src/EpochActionManager.cpp:46-64 | sweeping one of the queues takes from the total exactly what it moves out |
| `EpochActions.EveryQueueOncePerWindow` | src/EpochActionManager.cpp:35 | any window of as many consecutive registrations as there are queues uses every queue exactly once, even across the wrap of the 32-bit counter |
| `EpochActions.MaskedIndexInRange` | src/EpochActionManager.cpp:35 | the masked index is the remainder, so it is in range |
| `EpochActions.EpochActionManager.Create` | src/EpochActionManager.cpp:12-31 | the number of queues is the least power of two from the request (or from the number of hardware threads for a request of zero); it fails exactly when the narrowed count is zero |
| `EpochActions.EpochActionManager.RegisterAction` | src/EpochActionManager.cpp:33-40 | the action goes to the queue whose index is the incremented counter modulo the number of queues, at its epoch, and nowhere else |
| `EpochActions.EpochActionManager.PerformActions` | src/EpochActionManager.cpp:42-69 | performs what is below the bound, in order of queue and epoch, keeps the rest and returns the number |
| `EpochActions.EpochActionManager.SweepQueue` | src/EpochActionManager.cpp:49-63 | the erasing loop over one queue moves out everything before lower_bound |
| `EpochActions.EpochActionManager.ApplyActions` | src/EpochActionManager.cpp:71-75 | runs every action of the batch once, in order |
| `Bits.NextHighestPowerOfTwo` | inc/L4/Utils/Math.h:28-36 | the shifts and ors give the least power of two that is at least v for every v from 1 to 2^31, and 0 for the other words |
| `Bits.IsPowerOfTwoExact` | inc/L4/Utils/Math.h:22-24 | the bit test accepts exactly the powers of two |
| `Bits.SmearStep` | inc/L4/Utils/Math.h:30-34 | one shift-and-or doubles the run of ones at the top of the word |
| `Bits.AndMaskIsMod` | src/EpochActionManager.cpp:35 | masking with a power of two less one is the remainder |
| `LockFreeGet.EveryRunKeepsInv` | inc/L4/HashTable/ReadWrite/HashTable.h:389-402 | in every interleaving of lock-free readers with locked Adds, overwrites, Removes, evictions and chain growth each key is in at most one slot, and every tag is that of its data (0 for none) but the one about to be stored |
| `LockFreeGet.StoreDataKeepsInv` | inc/L4/HashTable/ReadWrite/HashTable.h:389-398 | the store of the data keeps that invariant |
| `LockFreeGet.StoreTagKeepsInv` | inc/L4/HashTable/ReadWrite/HashTable.h:399 | so does the store of the tag behind it |
| `LockFreeGet.HitIsRegular` | inc/L4/HashTable/ReadWrite/HashTable.h:43-71 | a hit returns a value that some slot held for the key at an instant of the call |
| `LockFreeGet.MissIsRegular` | inc/L4/HashTable/ReadWrite/HashTable.h:43-71 | a miss means that at an instant of the call no slot held the key with both data and tag in place |
| `LockFreeGet.PublishedStays` | inc/L4/HashTable/ReadWrite/HashTable.h:299-350 | a key that stays published does not change its slot |
| `LockFreeGet.ReaderStops` | inc/L4/HashTable/ReadWrite/HashTable.h:48-65 | a reader does not step over a slot in which its key is published |
| `LockFreeGet.UnpublishedIsInFlight` | inc/L4/HashTable/Common/SharedHashTable.h:46-57 | a key that is held but not published is between the two stores of its own Add, into a slot whose tag is still 0 |
| `LockFreeGet.UndisturbedCallIsExact` | inc/L4/HashTable/ReadWrite/HashTable.h:43-71 | a Get that no update overlaps is an exact look up: after 33 loads of its own for each entry of the chain it has ended, with the value if some slot holds the key and with a miss if none does |
| `LockFreeGet.CallIsBounded` | inc/L4/HashTable/ReadWrite/HashTable.h:47-68 | a Get under any updates: the loads it has made and a bound on those it has still to make are together at most 33 for each entry that the chain has at the start or gets meanwhile; until it ends its next load is possible |
| `LockFreeGet.LoadIsProgress` | inc/L4/HashTable/ReadWrite/HashTable.h:47-68 | each load of a Get lowers that bound, the growth of the chain raises it by 33, and no other step changes it |
| `LockFreeGet.AtomicIffTagZero` | inc/L4/HashTable/ReadWrite/HashTable.h:43-71 | Get is atomic for a key (in every run each finished call gives what the slots held at one instant of it) if and only if the tag of the key is 0; the reason is that data is stored before the tag |
| `LockFreeGet.LateMissIffTagged` | inc/L4/HashTable/ReadWrite/HashTable.h:398-399 | two calls can even contradict each other: a hit, and a miss of a later call, with no data stored in between; for exactly the keys whose tag is not 0 |
| `LockFreeGet.NoLateMissForTagZero` | inc/L4/HashTable/ReadWrite/HashTable.h:398-399 | for a key with tag 0 no such pair of calls exists |
| `LockFreeGet.AddingIsAdded` | inc/L4/HashTable/ReadWrite/HashTable.h:299-350 | the steps of an Add in the machine (growth, data, tag) are enabled for its target, add up to the Add of the table and leave the writer ready to give the lock back |
| `LockFreeGet.RemovingIsRemoved` | inc/L4/HashTable/ReadWrite/HashTable.h:361-372 | those of a Remove add up to the removal of the table |
| `LockFreeGet.EvictingIsRemoved` | inc/L4/HashTable/Cache/HashTable.h:265-297 | so do those of each removal of an eviction, which goes on under the lock |
| `LockFreeGet.WriterIsNeverBlocked` | inc/L4/HashTable/ReadWrite/HashTable.h:299-350 | the holder of the lock can always make its next step, and gives the lock back exactly when it has stored, has nothing to remove or is evicting |
| `SafeReads.NoGetTouchesReleasedMemory` | inc/L4/HashTable/ReadWrite/HashTable.h:50-64 | in every run of the look ups, the writers and the reclamation protocol together, the buffer whose data a Get is about to read is linked and not released, and no buffer that it has read is released while its policy lives |
| `SafeReads.EveryReadIsALoad` | inc/L4/HashTable/ReadWrite/HashTable.h:50-58 | each load of data by a Get is a Load of a linked record in the protocol |
| `SafeReads.ReadIsPossible` | inc/L4/HashTable/ReadWrite/HashTable.h:50-58 | the next load of a Get that has not ended is possible in any reachable state of the two machines together |
| `SafeReads.UpdateIsStore` | inc/L4/HashTable/ReadWrite/HashTable.h:389-402 | a writer that is about to store a pointer can always do so as a Store of the protocol |
| `SafeReads.NextKeepsInv` | inc/L4/HashTable/ReadWrite/HashTable.h:43-71 | each step keeps slots and buffers in one-to-one correspondence, the buffers linked, and what a Get has read under its live reference |
| `BucketChain.AddIsMapUpdate` | inc/L4/HashTable/ReadWrite/HashTable.h:278-357 | writing a record to its target slot keeps every key in one slot, in its own bucket, with its own tag, and is insertion into (or update of) the map |
| `BucketChain.RemoveIsMapDeletion` | inc/L4/HashTable/ReadWrite/HashTable.h:361-372 | clearing a slot keeps the same and is deletion from the map |
| `BucketChain.LookupIsExact` | inc/L4/HashTable/ReadWrite/HashTable.h:43-71 | a key is in the map if and only if its own bucket holds it, and every slot that holds it has the value of the map |
| `BucketChain.BucketIsRemainder` | inc/L4/HashTable/ReadWrite/HashTable.h:97-103 | the bucket of a key is the remainder of its first hash word by the number of buckets |
| `BucketChain.TargetIsUnique` | inc/L4/HashTable/ReadWrite/HashTable.h:299-345 | the slot that Add writes is determined: the holder, else the first vacant slot of the chain, else the first slot of an appended entry |
| `SharedTable.SharedHashTable.constructor` | inc/L4/HashTable/Common/SharedHashTable.h:141-158 | a new table has one empty entry in each bucket and represents the empty map; TotalIndexSize starts with 152 bytes per bucket, the mutexes and the table, where the number of mutexes is the largest one, at least one, that gives each its own buckets |
| `SharedTable.MutexesCounted` | inc/L4/HashTable/Common/SharedHashTable.h:147-151 | the quotient in the constructor is that largest number, for every setting |
| `SharedTable.SharedHashTable.UpdateRecord` | inc/L4/HashTable/ReadWrite/HashTable.h:389-402 | stores data and tag into one slot, changes no other slot and returns what was there |
| `SharedTable.SharedHashTable.AppendEntry` | inc/L4/HashTable/ReadWrite/HashTable.h:332-342 | links one empty entry behind the last one of a bucket; the chains stay acyclic and disjoint |
| `SharedTable.ChainedEntry.Scan` | inc/L4/HashTable/ReadWrite/HashTable.h:48-65 | finds the first slot of the entry with the tag and the key, or none |
| `SharedTable.ChainedEntry.ScanForAdd` | inc/L4/HashTable/ReadWrite/HashTable.h:302-323 | stops at the key and reports the first slot without data met so far |
| `ReadWriteTable.WritableHashTable.Find` | inc/L4/HashTable/ReadWrite/HashTable.h:47-68 | the walk along the chain ends at the slot that holds the key, or the key is not in the map |
| `ReadWriteTable.WritableHashTable.Get` | inc/L4/HashTable/ReadWrite/HashTable.h:43-71 | is map look up |
| `ReadWriteTable.WritableHashTable.FindTarget` | inc/L4/HashTable/ReadWrite/HashTable.h:285-347 | the scan finds the target slot and the statistics; after a match with an empty value it goes on scanning because it tests the old size, and still ends with the right slot and no new entry |
| `ReadWriteTable.WritableHashTable.VisitEntry` | inc/L4/HashTable/ReadWrite/HashTable.h:299-344 | one iteration: the report on the entry, and growth of the chain exactly when nothing has been found up to its end |
| `ReadWriteTable.ScanStep` | inc/L4/HashTable/ReadWrite/HashTable.h:299-345 | what the scan knows about the chain is carried from entry to entry |
| `ReadWriteTable.ScanEnds` | inc/L4/HashTable/ReadWrite/HashTable.h:347-350 | at the end of the chain that knowledge makes the remembered slot the target |
| `ReadWriteTable.WritableHashTable.AddRecord` | inc/L4/HashTable/ReadWrite/HashTable.h:278-357 | stores the record at the target, updates the map, hands back exactly the overwritten record for release, and counts |
| `ReadWriteTable.WritableHashTable.Add` | inc/L4/HashTable/ReadWrite/HashTable.h:237-239 | is map update if the settings accept the sizes, else nothing changes at all |
| `ReadWriteTable.WritableHashTable.RemoveAt` | inc/L4/HashTable/ReadWrite/HashTable.h:361-372 | takes one record out, deletes its key and counts it off |
| `ReadWriteTable.WritableHashTable.Remove` | inc/L4/HashTable/ReadWrite/HashTable.h:241-271 | is map deletion; it reports whether the key was there and releases exactly its record |
| `ReadWriteTable.WritableHashTable.UpdatePerfDataForAdd` | inc/L4/HashTable/ReadWrite/HashTable.h:416-453 | the counter updates are CountForAdd |
| `ReadWriteTable.WritableHashTable.UpdatePerfDataForRemove` | inc/L4/HashTable/ReadWrite/HashTable.h:455-463 | the counter updates are CountForRemove |
| `ReadWriteTable.CreateRecordBuffer` | inc/L4/HashTable/ReadWrite/HashTable.h:379-387 | a buffer with the layout of the record, or a refusal when the sizes do not fit the settings |
| `TableRuns.EveryRunRefinesMap` | inc/L4/HashTable/ReadWrite/HashTable.h:237-357 | after every run of Add and Remove the table represents the map that the same operations give |
| `TableRuns.StepRefinesMap` | inc/L4/HashTable/ReadWrite/HashTable.h:237-372 | each operation does, and it keeps the counters exact if and only if it does not overwrite an empty value |
| `TableRuns.ExactAccounting` | inc/L4/HashTable/ReadWrite/HashTable.h:416-463 | in every run from a new table all six counters equal the values recomputed from the structure after every operation if and only if no operation overwrites an empty value |
| `TableRuns.CountersOfRun` | inc/L4/HashTable/ReadWrite/HashTable.h:416-463 | as long as nothing overwrites an empty value: RecordsCount is the size of the map, TotalKeySize and TotalValueSize are the bytes stored, ChainingEntriesCount the linked entries without the first ones, MaxBucketChainLength the longest chain, and TotalIndexSize is 152 per linked entry, the overhead per record, the mutexes and the table |
| `TableRuns.ExtremesOfRun` | inc/L4/HashTable/ReadWrite/HashTable.h:436-452 | after every operation of every run the four minima and maxima are those of the sizes of all records added so far, or still have their initial values |
| `TableRuns.EmptyOverwriteMiscounts` | inc/L4/HashTable/ReadWrite/HashTable.h:416-453 | a run that overwrites an empty value, for every key and value, after which the counters are wrong |
| `TableRuns.Execute` | inc/L4/HashTable/ReadWrite/HashTable.h:237-271 | operations done on the class, one after the other, make such a run |
| `TableRuns.NewTableIsExact` | inc/L4/HashTable/Common/SharedHashTable.h:141-158 | the counters of a new table are exact, for any setting |
| `Accounting.AddKeepsExact` | inc/L4/HashTable/ReadWrite/HashTable.h:416-453 | Add keeps RecordsCount, TotalKeySize, TotalValueSize, TotalIndexSize, ChainingEntriesCount and MaxBucketChainLength exact if and only if it does not overwrite an empty value |
| `Accounting.RemoveKeepsExact` | inc/L4/HashTable/ReadWrite/HashTable.h:455-463 | Remove keeps them exact |
| `PerfCounter.HashTablePerfData.constructor` | inc/L4/Log/PerfCounter.h:177-188 | all zero, the minima at the largest value, the longest chain at 1 |
| `TableListing.ListingIsTheMap` | inc/L4/HashTable/ReadWrite/HashTable.h:130-169 | the records in the order of buckets, chains and slots are the map: every key once with its value, nothing else |
| `TableListing.RecordsTotalIsMapSize` | inc/L4/HashTable/ReadWrite/HashTable.h:439 | the number that RecordsCount is compared with is the size of the map |
| `TableIterator.Iterator.constructor` | inc/L4/HashTable/ReadWrite/HashTable.h:115-121 | a new cursor has the whole list ahead |
| `TableIterator.Iterator.Reset` | inc/L4/HashTable/ReadWrite/HashTable.h:130-134 | a reset cursor has it ahead again |
| `TableIterator.Iterator.MoveNext` | inc/L4/HashTable/ReadWrite/HashTable.h:136-169 | yields the next record of the list, or reports its end |
| `TableIterator.Iterator.SkipToRecord` | inc/L4/HashTable/ReadWrite/HashTable.h:147-163 | the loop ends at the first slot with data at or after the cursor; it terminates by buckets, chain and slots left |
| `TableIterator.Iterator.MoveToNextData` | inc/L4/HashTable/ReadWrite/HashTable.h:201-206 | one slot further, across the end of an entry |
| `TableIterator.Iterator.GetRecord` | inc/L4/HashTable/ReadWrite/HashTable.h:171-193 | a record of the list, the one under the cursor, or the exception |
| `TableIterator.VisitAll` | inc/L4/HashTable/ReadWrite/HashTable.h:136-169 | repeated MoveNext yields exactly the list |
| `RecordCodec.RoundTrip` | inc/L4/HashTable/Common/Record.h:65-145 | for fixed and variable keys and values and any metadata that pass Validate, reading a layout back gives the key and metadata ++ value if and only if the two together fit the 32-bit size, whatever follows in memory |
| `RecordCodec.LayoutInBytes` | inc/L4/HashTable/Common/Record.h:91-185 | where each part is in the buffer: two bytes for the size of a variable key, four for that of metadata and variable value, least significant first, then key, metadata and value |
| `RecordCodec.LayoutFillsBuffer` | inc/L4/HashTable/Common/Record.h:48-60 | the bytes written are overhead, key, metadata and value, and as many as CalculateBufferSize says if and only if its 32-bit sum of the fixed value size and the metadata size does not wrap |
| `RecordCodec.BufferTooSmall` | inc/L4/HashTable/Common/Record.h:48-54 | settings for which it wraps: 4 bytes are allocated for a record of more than 2^32 |
| `RecordCodec.StoredSizes` | inc/L4/HashTable/Common/Record.h:126-139 | the sizes read back are the ones written |
| `RecordCodec.RecordSerializer.Serialize` | inc/L4/HashTable/Common/Record.h:91-117 | accepts exactly the sizes that fit the settings, writes the layout at the start of the buffer and nothing else, or leaves the buffer as it was |
| `RecordCodec.RecordSerializer.SerializeSizes` | inc/L4/HashTable/Common/Record.h:170-185 | writes the sizes that are not fixed and returns their length |
| `RecordCodec.LittleEndianRoundTrip` | inc/L4/HashTable/Common/Record.h:174-182 | a number that fits is read back from its bytes |
| `TableSerializer.SaveAndLoad` | inc/L4/HashTable/ReadWrite/Serializer.h:44-159 | any table that is dumped and loaded again comes back with the same settings and the same map; the stream is left at exactly the bytes behind the dump; loaded and saved counts are both the number of records |
| `TableSerializer.DumpIsLoadable` | inc/L4/HashTable/ReadWrite/Serializer.h:145-160 | the dump of any table parses completely, its keys are distinct, so the throwing RegisterAction is out of reach, and its records are the map |
| `TableSerializer.DumpReadBack` | inc/L4/HashTable/ReadWrite/Serializer.h:31-35 | a dump of any settings and records is read back completely and nothing behind it is touched |
| `TableSerializer.ParseIsExact` | inc/L4/HashTable/ReadWrite/Serializer.h:31-35 | reading succeeds for the streams that start with a dump of some settings and records, finds exactly these, and succeeds for no other stream |
| `TableSerializer.DumpInBytes` | inc/L4/HashTable/ReadWrite/Serializer.h:44-52 | the version, the four members of the settings at their offsets, and the first flag |
| `TableSerializer.RecordsInBytes` | inc/L4/HashTable/ReadWrite/Serializer.h:58-72 | a one, the key behind its size, the value behind its size, then the next record; a zero at the end |
| `TableSerializer.Serialize` | inc/L4/HashTable/ReadWrite/Serializer.h:44-77 | the stream gets the dump of the listed records, and the saved count is their number |
| `TableSerializer.Deserialize` | inc/L4/HashTable/ReadWrite/Serializer.h:194-210 | succeeds exactly for streams that start with a dump of the supported version whose records the settings accept and whose keys are distinct; the table then holds their map |
| `TableSerializer.LoadRecords` | inc/L4/HashTable/ReadWrite/Serializer.h:110-136 | the loop fails exactly when the stream does not parse, a size is refused or a key repeats |
| `TableSerializer.NextIsInContent` | inc/L4/HashTable/ReadWrite/Serializer.h:145-160 | a refused or repeated record proves that the content was not loadable |
| `TableSerializer.SettingReadBack` | inc/L4/HashTable/ReadWrite/Serializer.h:52 | the settings survive, whatever the padding bytes are |
| `TableSerializer.RecordsReadBack` | inc/L4/HashTable/ReadWrite/Serializer.h:58-72 | the announced records are read back up to the end mark |
| `CacheMetadata.UpdatesAreIndependent` | inc/L4/HashTable/Cache/Metadata.h:49-62 | over any sequence of updates of the access bit the stored time and the value stay, and the bit is the last one stored |
| `CacheMetadata.UpdateIsIndependent` | inc/L4/HashTable/Cache/Metadata.h:49-62 | one update changes the access bit and nothing else |
| `CacheMetadata.StampHoldsTime` | inc/L4/HashTable/Cache/Metadata.h:18-33 | new metadata holds the time modulo 2^31 and is not accessed |
| `CacheMetadata.ExpiryOfStamp` | inc/L4/HashTable/Cache/Metadata.h:37-41 | a record older than its time to live is always expired; the test is exact for times below 2^31, and for later ones off by the whole periods of 2^31 that are cut off |
| `CacheMetadata.BitIsHighest` | inc/L4/HashTable/Cache/Metadata.h:77-81 | the masks test, set and clear the highest bit of the byte |
| `CacheMetadata.Metadata.New` | inc/L4/HashTable/Cache/Metadata.h:18-21 | writes the word in front and leaves the bytes behind it |
| `CacheMetadata.Metadata.UpdateAccessStatus` | inc/L4/HashTable/Cache/Metadata.h:49-62 | stores the bit and returns the previous one |
| `CacheTable.CacheHashTable.Add` | inc/L4/HashTable/Cache/HashTable.h:177-185 | with need = key, value and four bytes modulo 2^32: if need is below the limit and fits it together with key, value and index bytes, nothing but what the eviction by time takes goes; otherwise a sweep frees the excess over the limit plus need and stops at the first visit after which that is free; which keys are left is given by the number of visits of their buckets; afterwards the bytes are at most the limit plus the overhead of a record plus 152 (and 2^32 more for a record whose need wraps), or the table holds exactly the new record; with time-based eviction no other record of the bucket is expired; every record that is evicted or overwritten is registered for release exactly once, and no other; a refused Add leaves the keys as they were if and only if neither time nor bytes asked for an eviction or there was nothing to evict |
| `CacheTable.CacheHashTable.MakeRoom` | inc/L4/HashTable/Cache/HashTable.h:178-182 | the evictions in front of an Add: what the one by time leaves, that nothing is swept when there is room for the bytes needed, how much is freed when there is not, and that afterwards there is room or the table is empty |
| `CacheTable.RefusedAddEvicts` | inc/L4/HashTable/Cache/HashTable.h:177-185 | a refused Add that does evict: a cache without room, and a key of the wrong fixed size |
| `CacheTable.SweepTakesSomething` | inc/L4/HashTable/Cache/HashTable.h:228-299 | a sweep that wants bytes takes a record from any table but an empty one |
| `CacheTable.CacheHashTable.Evict` | inc/L4/HashTable/Cache/HashTable.h:228-299 | nothing at all changes when there is room; otherwise the sweep stops at the first visit after which the excess over the limit plus the bytes needed are free, after at most twice as many visits as buckets; then there is room or the table is empty; which keys are left is given by the visits; the evicted records are counted, and each is registered for release exactly once |
| `CacheTable.CacheHashTable.CalculateNumBytesToFree` | inc/L4/HashTable/Cache/HashTable.h:303-325 | nothing if the bytes needed are below the limit and fit it, else the excess over the limit plus the bytes needed |
| `CacheTable.CacheHashTable.SweepFreesBytes` | inc/L4/HashTable/Cache/HashTable.h:283-286 | in bytes of keys and values: before the last visit of a sweep fewer than wanted are free, and after it enough unless nothing is left, for records of less than 2^32 bytes |
| `CacheTable.CacheHashTable.ComparedSize` | inc/L4/HashTable/Cache/HashTable.h:303-309 | the size compared with the limit is the size of everything stored: keys, values, 152 per linked entry, the overhead per record, mutexes and table |
| `CacheTable.CacheHashTable.Sweep` | inc/L4/HashTable/Cache/HashTable.h:244-298 | the loop: which visits it makes, that it stops at the first one after which the sizes counted, each a 32-bit sum, are enough, and that two rounds without success leave nothing |
| `CacheTable.CacheHashTable.VisitBucket` | inc/L4/HashTable/Cache/HashTable.h:256-297 | one visit treats every slot of the chain by the rule, frees what it says, and keeps counters and map exact |
| `CacheTable.CacheHashTable.VisitSlot` | inc/L4/HashTable/Cache/HashTable.h:267-293 | a record goes if it is expired or, under CLOCK, not accessed; CLOCK clears the bit of the others, a visit by time leaves them as they are |
| `CacheTable.CacheHashTable.EvictBasedOnTime` | inc/L4/HashTable/Cache/HashTable.h:195-223 | of the bucket of the key exactly the expired records go, all others stay as they are |
| `CacheTable.CacheHashTable.EnoughFreed` | inc/L4/HashTable/Cache/HashTable.h:303-325 | freeing that many bytes makes room for the bytes needed |
| `CacheTable.CacheHashTable.Get` | inc/L4/HashTable/Cache/HashTable.h:41-51 | hits exactly the stored keys that are not expired; a hit is the value of the latest Add of the key, not removed since and at most as old as the time to live; it sets the access bit and counts |
| `CacheTable.CacheHashTable.GetInternal` | inc/L4/HashTable/Cache/HashTable.h:63-85 | the same without the counters; an expired record is left where it is |
| `CacheTable.CacheHashTable.Remove` | inc/L4/HashTable/ReadWrite/HashTable.h:241-271 | deletes the key, registers its record for release, and keeps cache invariant and accounting |
| `CacheTable.CacheHashTable.CreateStampedBuffer` | inc/L4/HashTable/Cache/HashTable.h:327-343 | the layout with four bytes of metadata in front of the value |
| `CacheTable.CacheHashTable.UpdateAccessStatus` | inc/L4/HashTable/Cache/Metadata.h:49-62 | on a stored record: only its access bit changes, in the slot and in the map |
| `CacheTable.CacheHashTable.AddedStampedIsExact` | inc/L4/HashTable/Cache/HashTable.h:177-185 | no stored value is empty because of its metadata, so the accounting of the cache stays exact over every run |
| `CacheTable.MakeCache` | inc/L4/HashTable/Cache/HashTable.h:158-172 | a new cache meets the invariant that every operation keeps |
| `CacheTable.SweepIsExact` | inc/L4/HashTable/Cache/HashTable.h:244-298 | a key is left if and only if its bucket was not visited twice, and not once while its record was expired or not accessed; those left keep value and time and lose the access bit at the first visit |
| `CacheTable.TimeVisitIsExact` | inc/L4/HashTable/Cache/HashTable.h:204-222 | the map after a visit by time only |
| `CacheTable.HandedOverTwice` | inc/L4/HashTable/ReadWrite/HashTable.h:404-414 | over several steps the records that are gone are the ones registered for release, each once, and the others keep value and time |
| `CacheTable.FreshEnough` | inc/L4/HashTable/Cache/HashTable.h:71-77 | a record that is not expired is not older than its time to live, even when its time does not fit 31 bits |
| `CacheTable.ShrunkSize` | inc/L4/HashTable/Cache/HashTable.h:303-325 | the total that is compared with the limit falls at least by the key and value bytes freed |
| `CacheTable.AddGrowth` | inc/L4/HashTable/ReadWrite/HashTable.h:416-453 | an Add raises that total by at most key, value, overhead and one entry |
| `ClockSweep.SecondChance` | inc/L4/HashTable/Cache/HashTable.h:277-292 | a record goes at the first visit of its bucket if it is expired or not accessed, else at the second; until then key, value and time stay |
| `ClockSweep.SurvivesOneRound` | inc/L4/HashTable/Cache/HashTable.h:277-292 | a record whose access bit is set and that is not expired survives every sweep of at most as many visits as there are buckets |
| `ClockSweep.TwoRoundsEmpty` | inc/L4/HashTable/Cache/HashTable.h:246-253 | two rounds leave no record |
| `ClockSweep.VisitsPerRound` | inc/L4/HashTable/Cache/HashTable.h:253-256 | any round meets each bucket exactly once, wherever the hand is, so a sweep meets it at most twice |
| `ClockSweep.VisitedBuckets` | inc/L4/HashTable/Cache/HashTable.h:253-256 | the buckets that the first visits meet are the ones from the hand on, modulo their number, and the second round meets them again in the same order |
| `ClockSweep.SweptAt` | inc/L4/HashTable/Cache/HashTable.h:256-297 | the sweep acts on each slot by itself, as often as its bucket is visited |
| `CacheIterator.Iterator.MoveNext` | inc/L4/HashTable/Cache/HashTable.h:108-124 | yields the next record that was not expired when the cursor was made |
| `CacheIterator.Iterator.GetValue` | inc/L4/HashTable/Cache/HashTable.h:126-132 | the value of a listed record without its metadata, or the exception |
| `CacheIterator.FilteredListing` | inc/L4/HashTable/Cache/HashTable.h:108-124 | the filtered list is the unexpired part of the map, each key once |
| `CacheIterator.VisitAll` | inc/L4/HashTable/Cache/HashTable.h:108-124 | repeated MoveNext yields exactly the filtered list |

## Left out

- Weak memory orders, `AtomicOffsetPtr` and the lock implementations: steps are sequentially consistent and a mutex excludes.
- The allocator: memory never runs out, and an address that is reused is a new record. Buffers of refused records, `Entry::Release` and what leaks at shutdown are not part of the model.
- MurmurHash3: its two words are any functions of the key.
- Overflow of 64-bit epochs, the clock hand, byte totals and signed counters, and of 32-bit reference counts: natural numbers. Only the epoch that equals the sentinel of a moved-from policy is excluded, by the guard of the step that publishes it.
- CacheTable.CacheHashTable.Add: requires that metadata and value together fit 32 bits; beyond, the stored size is cut off, as `RecordCodec.RoundTrip` shows.
- ReadWriteTable.CreateRecordBuffer: requires of an accepted record that the fixed sizes do not wrap; otherwise the code writes past its buffer, and what happens then is not modelled.
- Several threads in the cache: the bound on its size is for one thread, since the code itself admits that several can exceed it. The lock-free reads of the table under eviction are in the machine of `LockFreeGet`.
- LockFreeGet.HitIsRegular: no linearizability is claimed; `LockFreeGet.AtomicIffTagZero` shows that it does not hold.
- The scan of a writer that holds the lock is one step with its store of the data in `LockFreeGet`, because no one else changes the chain meanwhile.
- The byte of the access bit is written inside a record's buffer. A slot of the model holds the decoded record, so this shows up as a new value of the slot; two pointers to one buffer are not modelled.
- Which queue a registration uses is free in the machine of `Reclamation`; the class uses round robin.
- The actions that the table registers are the records that its methods return, or that the cache lists as registered; the machine of `Reclamation` says what becomes of them.
- The tags and data lists of an `Entry` are fixed arrays inside the object; they are sequence fields here.
- `Serialize` without a meta value is the one with an empty meta value.
- TableSerializer.Deserialize: a stream that ends early, a flag byte other than 0 and 1 and a table of no buckets are errors here; the code does not check its stream and goes on with what it has.
- TableSerializer.LoadRecords: the same holds for its loop.
- PerfCounter.HashTablePerfData.Max: one thread at a time, so the retry of the compare-exchange of Max and Min is not modelled.
- The ordered map of `EpochActionManager` is a sorted sequence of epochs with their actions.
- Moving an `Iterator`, `GetPerfData`, the serializer of the cache (which only throws) and the interface classes would add only easy members.
- HashTableManager, HashTableService, Config, SettingAdapter, Properties, PerfLogger, RunningThread, ConnectionMonitor, Handle and EndPointInfo: wiring and operating system calls.
