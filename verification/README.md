# FlintPlugin: a verified model of its data structures and protocols

FlintPlugin is a browser plugin; most of its own code moves bytes between sockets and a host. The
logic in it sits in the Poco templates it carries and in the header handling of its XMLHttpRequest
object. This project models that logic in Dafny 4.11 and proves what it is for. Each class below has
the fields of the C++ class and updates them in place; beside it stands a mathematical description
(functions on values) that the class is proved to compute, and the lemmas are about that description.

`dafny verify dfyconfig.toml` checks everything.

## What is modelled

**Linear hashing** (`LinearHashing.dfy`, `LinearHashTable.dfy`, `HashMap.dfy`). A table has one bucket
more than it has values. An insertion splits one bucket, an erasure merges one, and the address of a
value switches between its hash modulo `front` and modulo `2 * front`. The same number of buckets can
be reached as `split = front = f` and as `split = 0, front = 2f`. The main results: the address
depends on the number of buckets only (it is the largest low-order part of the hash that names a
bucket); every run leaves a table that represents a finite map; two runs that leave the same map leave
the same buckets; iteration meets every value once; `HashMap` is a finite map although its entries are
compared by key only.

Equality of stored values is equality of their keys (`Hashing.key`): the value itself for a set, the
first field for a `HashMapEntry`. Every equality that goes together with a hash function has this form.

**Caches** (`RecencyList.dfy`, `RecencyRun.dfy`, `LruStrategy.dfy`, `LruCache.dfy`, `TimedMap.dfy`,
`ExpireStrategy.dfy`, `ExpireCache.dfy`). The cache keeps values, the strategy keeps its own list or time index and a map of
iterators into it, and the two learn of each other only through notifications. The LRU cache is proved
to be one bounded most-recent-first association list. After any run that list is sorted by last use and
holds exactly the entries put last that were not removed or dropped for being the one used longest ago;
and a larger LRU cache contains a smaller one. The expiring cache collects lazily. What it still holds is a function of the history of
its calls and their times; it is proved to answer like a map that forgets at once, except that `get` of
the access-renewing variant, which stamps a key before it tests it, can revive an expired entry, and
exactly when it does is proved too. Iterators are identities of list nodes and multimap elements. The
time of a call is a parameter; times must not decrease between calls. An addition may be stamped earlier
than the replacement at its end runs, and a get stamped earlier than it tests.

`AbstractCache` is a template over its strategy; it appears here once for each of the two kinds of
strategy, as `LruCache` and as `ExpireCache`.

**Events** (`EventProtocol.dfy`, `Event.dfy`). Any number of notifications in flight walk over their
own copies of the delegate list, while the delegate objects are shared with the live list and are
disabled when they leave it. In every run a notification calls, in order of registration and at most
once each, exactly the delegates that were live at its start, had a receiver and were not disabled by a
removal or a clear before their turn. One step is what happens under one lock: a clear keeps the
event's lock throughout but disables the delegates one by one, so notifications can call delegates in
the middle of it (`EventProtocol.NotifyDuringClear`). The methods of the `Event` class, which work on
shared `Delegate` objects, are proved to make these steps. An asynchronous notification differs only in
when its steps happen.

**Stream buffer** (`StreamBuffer.dfy`). Characters are neither lost nor reordered on the way in or out,
the overlapping move keeps the characters to be put back, and every store stays inside the buffer. What
the device delivers and accepts are parameters.

**Active methods** (`ActiveMethodProtocol.dfy`, `AutoPtr.dfy`). In every interleaving of callers, workers
and owners of results, no freed object is used, nothing is freed twice, everything is freed in the end,
and a wait that returns sees exactly one of data and error. `ActiveResult::operator =` is the steps
`Copy`, `Swap`, `Destroy` on a temporary. `AutoPtr` is proved on its own: the count of an object is the
number of `AutoPtr`s that point to it plus the references that belong to none of them yet.

**Numbered archives** (`ArchiveStrategy.dfy`), **HMAC** (`HMACEngine.dfy`, section 2 of RFC 2104) and the
**header lines** of the XMLHttpRequest object (`HeaderText.dfy`, `XmlHttpRequest.dfy`).

`Sequences.dfy` and `Outcomes.dfy` hold what several components share.

## Where a promise needs a condition

- `LruStrategies.AddAgrees`: the interface says that adding a known key throws; the code neither throws
  nor removes the old list node. List and index stay in agreement exactly when the key is new, which the
  cache ensures by removing first.
- `ExpireCaches.ExpireCache.DoGet`: with an `AccessExpireStrategy` the answer differs from that of a map
  that forgets at once exactly when the key has expired, still awaits collection, and is tested less than
  the expire time after the get has stamped it. A key awaits collection exactly when no add, update, size,
  getAllKeys or forceReplace has run since it expired and no get of it has come back empty.
  `ExpireCaches.AccessRevives` is a run in which `has` denies a key and `get` returns it.
- `StreamBuffers.EndKeepsPutback`: when the device reports the end of input, the move has already been made
  but the pointers stay, so characters to be put back can be overwritten; they survive, whatever they are,
  exactly when none stands below position 4 or the get area starts there. `StreamBuffers.EndLosesPutback`
  is a run in which a reader steps back over `e` and then reads `g`.
- `HeaderText.HeaderRoundTrip`: printing and parsing headers gives the map back exactly when no key contains
  `": "` and neither keys nor values contain line breaks.

## Model

| member | source | states |
|---|---|---|
| `LinearHashing.AddressByCount` | Poco/LinearHashTable.h:430-445 | the two reachable geometries with the same number of buckets address every hash alike |
| `LinearHashing.AddressIsLargestTruncation` | Poco/LinearHashTable.h:430-445 | the address is the largest of the values hash mod 2^j that names an existing bucket |
| `LinearHashing.SplitReaddresses` | Poco/LinearHashTable.h:447-466 | advancing the split pointer changes the address of residents of one bucket only, and only to the new bucket |
| `LinearHashing.SplitPlaced` | Poco/LinearHashTable.h:447-466 | rehashing one bucket puts every stored value where its new address says |
| `LinearHashing.MergePlaced` | Poco/LinearHashTable.h:468-486 | so does dissolving the last bucket |
| `LinearHashing.HasIsMembership` | Poco/LinearHashTable.h:326-355 | find and count answer membership of the represented map and lead to the stored value |
| `LinearHashing.InsertRepresents` | Poco/LinearHashTable.h:357-384 | insert adds a value with a new key and leaves the table alone otherwise; one bucket more than values, each value in its bucket once |
| `LinearHashing.EraseFromRepresents` | Poco/LinearHashTable.h:386-395 | erasing removes exactly the value pointed to, and merge never runs on the one initial bucket |
| `LinearHashing.EraseRepresents` | Poco/LinearHashTable.h:397-402 | erasing by value removes that value or nothing |
| `LinearHashing.Run` | Poco/LinearHashTable.h:357-409 | the table after any run of insert, erase and clear represents the map that the run computes |
| `LinearHashing.SameMapSameBuckets` | Poco/LinearHashTable.h:430-486 | two tables for the same map have equally many buckets with equal contents |
| `LinearHashing.HistoryIndependence` | Poco/LinearHashTable.h:430-486 | any two runs that leave the same values leave the same buckets, as multisets |
| `LinearHashing.BothGeometriesReachable` | Poco/LinearHashTable.h:447-476 | (1,1) and (0,2) are both reached, with the same contents |
| `LinearHashing.VisitedIsRest` | Poco/LinearHashTable.h:148-160 | repeated ++ yields the remaining values in bucket order and comes to an end |
| `LinearHashing.IterationVisitsEachOnce` | Poco/LinearHashTable.h:305-318 | from begin to end every stored value is met exactly once and nothing else |
| `LinearHashTables.LinearHashTable.Rehash` | Poco/LinearHashTable.h:459-465 | the loop appends each value to the bucket of its address and moves nothing else |
| `LinearHashTables.LinearHashTable.SplitOnce` | Poco/LinearHashTable.h:447-466 | the in-place split divides one bucket, keeping the order, and no other |
| `LinearHashTables.LinearHashTable.MergeOnce` | Poco/LinearHashTable.h:468-486 | the in-place merge appends the last bucket to the one it split from |
| `LinearHashTables.LinearHashTable.Find` | Poco/LinearHashTable.h:338-348 | an iterator to the stored value with that key, or end |
| `LinearHashTables.LinearHashTable.Count` | Poco/LinearHashTable.h:350-355 | 1 for a member, 0 otherwise |
| `LinearHashTables.LinearHashTable.InsertValue` | Poco/LinearHashTable.h:357-384 | reports true iff the key was absent, and points to the stored value either way |
| `LinearHashTables.LinearHashTable.ErasePosition` | Poco/LinearHashTable.h:386-395 | removes the value pointed to, nothing at end |
| `LinearHashTables.LinearHashTable.EraseValue` | Poco/LinearHashTable.h:397-402 | removes the value with that key, if any |
| `LinearHashTables.LinearHashTable.Clear` | Poco/LinearHashTable.h:404-409 | back to the initial table |
| `LinearHashTables.LinearHashTable.Size` | Poco/LinearHashTable.h:411-415 | the number of distinct keys stored |
| `LinearHashTables.LinearHashTable.Begin` | Poco/LinearHashTable.h:305-318 | the first value, skipping empty buckets |
| `LinearHashTables.LinearHashTable.Next` | Poco/LinearHashTable.h:148-160 | the next value, skipping empty buckets; end stays end |
| `HashMaps.HashMap.Find` | Poco/HashMap.h:171-181 | found by key alone, with the value stored for it |
| `HashMaps.HashMap.InsertPair` | Poco/HashMap.h:189-198 | an existing mapping is left unchanged and reported |
| `HashMaps.HashMap.Erase` | Poco/HashMap.h:205-209 | removes one key, all other mappings survive the merge |
| `HashMaps.HashMap.At` | Poco/HashMap.h:226-233 | the mapped value, or the not-found exception iff the key is absent |
| `HashMaps.HashMap.Index` | Poco/HashMap.h:235-240 | adds the default value only when the key is absent, and refers to the mapping |
| `HashMaps.HashMap.Store` | Poco/HashMap.h:235-240 | writing through the reference changes that mapping only |
| `HashMaps.HashMap.Size` | Poco/HashMap.h:216-219 | the number of mappings |
| `RecencyLists.StepKeepsInclusion` | Poco/LRUStrategy.h:79-150 | one operation on both keeps a smaller LRU cache a subsequence of a larger one, which is never ahead by more than the difference of the capacities |
| `RecencyLists.LruInclusion` | Poco/AbstractCache.h:229-373 | after any run every hit of the smaller cache is the same hit in the larger one |
| `RecencyLists.PutByPlace` | Poco/LRUStrategy.h:79-87 | a put moves the entry to the front, or adds it there and drops the last one if there is no room; the others keep their order |
| `RecencyLists.GetByPlace` | Poco/LRUStrategy.h:100-110 | a get that finds its key moves that entry to the front, any other changes nothing |
| `RecencyLists.RemoveByPlace` | Poco/LRUStrategy.h:89-98 | a removal takes out that entry and no other |
| `RecencyRuns.RunByLastUse` | Poco/LRUStrategy.h:79-150 | after any run the entries are sorted by the last operation that put or found their key |
| `RecencyRuns.RunHolds` | Poco/AbstractCache.h:229-373 | after any run an entry is held iff its value was put last under its key and the key was neither removed nor dropped since, which happens only to the key used longest ago on a put to a full cache |
| `LruStrategies.AddAgrees` | Poco/LRUStrategy.h:79-87 | onAdd keeps list and index in agreement iff the key is new |
| `LruStrategies.EraseAgrees` | Poco/LRUStrategy.h:89-98 | erasing a node and its index entry keeps every other iterator right |
| `LruStrategies.SpliceAgrees` | Poco/LRUStrategy.h:100-110 | moving a node to the front keeps every iterator right |
| `LruStrategies.AgreeSize` | Poco/LRUStrategy.h:131-139 | the index counts the nodes of the list |
| `LruStrategies.LruStrategy.Create` | Poco/LRUStrategy.h:69-73 | a capacity below one is refused |
| `LruStrategies.LruStrategy.OnAdd` | Poco/LRUStrategy.h:79-87 | the key is put first and its iterator stored; agreement is kept iff the key is new |
| `LruStrategies.LruStrategy.OnRemove` | Poco/LRUStrategy.h:89-98 | removes exactly that key from list and index |
| `LruStrategies.LruStrategy.OnUpdate` | Poco/AbstractStrategy.h:65-70 | remove followed by add makes the key the most recent |
| `LruStrategies.LruStrategy.OnGet` | Poco/LRUStrategy.h:100-110 | a known key becomes the most recent, an unknown one changes nothing |
| `LruStrategies.LruStrategy.OnIsValid` | Poco/LRUStrategy.h:118-124 | valid iff the key is in the list |
| `LruStrategies.LruStrategy.OnReplace` | Poco/LRUStrategy.h:126-150 | names exactly the keys beyond the capacity, from the old end |
| `LruCaches.LruCache.DoAdd` | Poco/AbstractCache.h:229-255 | the entry becomes the first, the others keep their order, and the last is dropped if there is no room |
| `LruCaches.LruCache.DoUpdate` | Poco/AbstractCache.h:257-295 | has the same effect through different notifications |
| `LruCaches.LruCache.Remove` | Poco/AbstractCache.h:129-136 | removes the entry from data, list and index |
| `LruCaches.LruCache.DoHas` | Poco/AbstractCache.h:308-323 | true iff the key is in the list; the order stays |
| `LruCaches.LruCache.DoGet` | Poco/AbstractCache.h:325-351 | the cached value, whose entry becomes the first while the others keep their order; or nothing, for a key that is not there |
| `LruCaches.LruCache.DoClear` | Poco/AbstractCache.h:353-358 | empties data, list and index |
| `LruCaches.LruCache.DoReplace` | Poco/AbstractCache.h:360-373 | whatever the order of removals, the first entries up to the capacity remain |
| `LruCaches.LruCache.Size` | Poco/AbstractCache.h:168-174 | the number of entries of the list |
| `LruCaches.LruCache.GetAllKeys` | Poco/AbstractCache.h:187-199 | the keys of the list |
| `LruCaches.WithoutBeyond` | Poco/AbstractCache.h:360-373 | removing the keys named leaves exactly the first ones in their order |
| `TimedMaps.VisibleIsLastStore` | Poco/AbstractCache.h:308-351 | a lookup finds v iff the last call that concerned the key stored v, or returned and renewed it, less than the expire time ago |
| `TimedMaps.StoredIsCached` | Poco/AbstractCache.h:360-373 | what was stored last is still cached iff no replacement ran after it expired and no get came back empty |
| `TimedMaps.AwaitsIsCached` | Poco/ExpireStrategy.h:131-142 | an expired key is still cached iff, told from calls and times alone, it awaits collection |
| `TimedMaps.StepReflects` | Poco/AbstractCache.h:229-373 | every call keeps what is cached equal to the timed map up to expired keys |
| `TimedMaps.CollectReflects` | Poco/AbstractCache.h:360-373 | collecting any set of expired keys cannot be noticed |
| `TimedMaps.CollectLeavesLive` | Poco/AbstractCache.h:360-373 | a replacement leaves exactly the live keys |
| `ExpireStrategies.AddAgrees` | Poco/ExpireStrategy.h:82-94 | inserting a new key keeps the index sorted and in one-to-one correspondence with the key map |
| `ExpireStrategies.EraseAgrees` | Poco/ExpireStrategy.h:96-104 | so does erasing through an iterator |
| `ExpireStrategies.InsertThenErase` | Poco/ExpireStrategy.h:82-94 | re-adding a key, which inserts before it erases, equals erasing first |
| `ExpireStrategies.ExpiredInPrefix` | Poco/ExpireStrategy.h:131-142 | the prefix that the loop walks holds all keys that have expired when it starts |
| `ExpireStrategies.PrefixExpired` | Poco/ExpireStrategy.h:131-142 | and only keys that have expired when it ends |
| `ExpireStrategies.ExpireStrategy.Create` | Poco/ExpireStrategy.h:71-76 | less than 25 ms is refused |
| `ExpireStrategies.ExpireStrategy.OnAdd` | Poco/ExpireStrategy.h:82-94 | stamps the key, known or not |
| `ExpireStrategies.ExpireStrategy.OnRemove` | Poco/ExpireStrategy.h:96-104 | forgets exactly that key |
| `ExpireStrategies.ExpireStrategy.OnUpdate` | Poco/AbstractStrategy.h:65-70 | stamps the key anew |
| `ExpireStrategies.ExpireStrategy.OnGet` | Poco/AccessExpireStrategy.h:74-86 | the access variant stamps a known key anew, the other does nothing |
| `ExpireStrategies.ExpireStrategy.OnIsValid` | Poco/ExpireStrategy.h:117-129 | valid iff known and not yet elapsed |
| `ExpireStrategies.ExpireStrategy.OnReplace` | Poco/ExpireStrategy.h:131-142 | reading the clock anew for every element, names all keys expired at the first reading and none not expired at the last; with one reading, exactly the expired keys |
| `ExpireCaches.PlainGetAgrees` | Poco/AbstractCache.h:325-351 | a get that only tests answers like the timed map |
| `ExpireCaches.RenewingGetAgrees` | Poco/AccessExpireStrategy.h:74-86 | a get that stamps first answers like the timed map iff the key does not both await collection and pass the test against its new stamp |
| `ExpireCaches.AccessRevives` | Poco/AccessExpireStrategy.h:74-86 | a run where has denies a key that get then returns |
| `ExpireCaches.AccessRenews` | Poco/AccessExpireStrategy.h:74-86 | a run where a key read in time is still there after its first expire time, for the access variant only |
| `ExpireCaches.AnswerIsStored` | Poco/AbstractCache.h:325-351 | what a get answers, told from the calls |
| `ExpireCaches.ExpireCache.DoReplace` | Poco/AbstractCache.h:360-373 | leaves exactly the live keys and is unnoticed by the callers |
| `ExpireCaches.ExpireCache.DoAdd` | Poco/AbstractCache.h:229-255 | a store in the timed map, whatever was collected before |
| `ExpireCaches.ExpireCache.DoUpdate` | Poco/AbstractCache.h:257-295 | likewise, through different notifications |
| `ExpireCaches.ExpireCache.RemoveKey` | Poco/AbstractCache.h:129-136 | a removal in the timed map |
| `ExpireCaches.ExpireCache.DoHas` | Poco/AbstractCache.h:308-323 | true iff the last call that concerned the key stored or renewed it less than the expire time ago |
| `ExpireCaches.ExpireCache.DoGet` | Poco/AbstractCache.h:325-351 | returns what was stored last iff it is still cached and passes the test; agrees with the timed map, for the access variant iff the key is not revived; a key returned by the access variant is stamped anew and visible for the expire time, a key not returned is gone |
| `ExpireCaches.ExpireCache.DoClear` | Poco/AbstractCache.h:353-358 | clears the timed map |
| `ExpireCaches.ExpireCache.Size` | Poco/AbstractCache.h:168-174 | the number of live keys at that time, and only these stay cached |
| `ExpireCaches.ExpireCache.GetAllKeys` | Poco/AbstractCache.h:187-199 | the live keys at that time, and only these stay cached |
| `EventProtocol.ExecutionGood` | Poco/DefaultStrategy.h:86-120 | in every reachable state, also in the middle of a clear, delegates in the list that the clear has not come to are as registered and all others disabled |
| `EventProtocol.LiveUntilRemoved` | Poco/DefaultStrategy.h:91-120 | a delegate stays active until a removal or a clear disables it and never returns |
| `EventProtocol.CallInvokes` | Poco/Delegate.h:86-95 | a delegate is called in its turn iff it is still active and was registered with a receiver |
| `EventProtocol.Delivery` | Poco/AbstractEvent.h:223-244 | in every run a notify on an event that is not switched off calls exactly the delegates of its snapshot that no removal or clear disabled before their turn, in order |
| `EventProtocol.ExpectedIff` | Poco/Delegate.h:86-95 | a delegate is called iff some step was its turn and it had a receiver and was not removed since the notify started |
| `EventProtocol.EnabledByLabels` | Poco/AbstractEvent.h:275-288 | in every run the event is enabled iff no disable came since the last enable |
| `EventProtocol.ActiveSinceAdded` | Poco/DefaultStrategy.h:86-120 | in every run a delegate is active iff some step added it and none removed it since, and it is called as it was added |
| `EventProtocol.NotifyDuringClear` | Poco/DefaultStrategy.h:113-120 | a run in which a notify skips one delegate and calls the next while one clear is disabling both |
| `EventProtocol.WholeClear` | Poco/DefaultStrategy.h:113-120 | a clear that nothing interferes with disables every delegate of the list, empties it and changes nothing else |
| `EventProtocol.DisabledDeliversNothing` | Poco/AbstractEvent.h:236-236 | a notify on an event that is switched off calls nothing, also later |
| `EventProtocol.ExpectedAscends` | Poco/DefaultStrategy.h:78-84 | none twice, in order of registration, none added after the start |
| `Events.Delegate.Notify` | Poco/Delegate.h:86-95 | calls the receiver unless disabled |
| `Events.Delegate.Clone` | Poco/Delegate.h:103-106 | a new object with the same target |
| `Events.Delegate.Disable` | Poco/Delegate.h:108-112 | takes the receiver away |
| `Events.DefaultStrategy.Notify` | Poco/DefaultStrategy.h:78-84 | calls the delegates at exactly those places that have a receiver, in order |
| `Events.DefaultStrategy.Add` | Poco/DefaultStrategy.h:86-89 | appends a clone |
| `Events.DefaultStrategy.Remove` | Poco/DefaultStrategy.h:91-102 | disables and erases the first equal delegate and touches no other |
| `Events.DefaultStrategy.Clear` | Poco/DefaultStrategy.h:113-120 | disables all delegates and empties the list |
| `Events.Event.AddDelegate` | Poco/AbstractEvent.h:193-200 | appends a new object with the delegate's target: is the protocol's Add step |
| `Events.Event.RemoveDelegate` | Poco/AbstractEvent.h:202-209 | is its Remove step: the one object disabled, in all copies, is the one taken from the list |
| `Events.Event.BeginClear` | Poco/AbstractEvent.h:296-301 | takes the event's lock: is the ClearBegin step |
| `Events.Event.ClearNext` | Poco/DefaultStrategy.h:115-118 | disables one shared delegate object: is the ClearNext step |
| `Events.Event.EndClear` | Poco/DefaultStrategy.h:119-119 | empties the list: is the ClearEnd step |
| `Events.Event.Clear` | Poco/AbstractEvent.h:296-301 | undisturbed, makes these steps for the whole list |
| `Events.Event.Enable` | Poco/AbstractEvent.h:275-280 | the event is enabled: is the Enable step |
| `Events.Event.Disable` | Poco/AbstractEvent.h:282-288 | the event is not enabled: is the Disable step |
| `Events.Event.StartNotify` | Poco/AbstractEvent.h:234-242 | is its Start step: the copied list is the snapshot of the new flight, empty if the event is disabled |
| `Events.Event.CallNext` | Poco/DefaultStrategy.h:78-84 | is its Call step: the receiver is called exactly when the protocol records the delegate |
| `Events.OthersKeepFlying` | Poco/AbstractEvent.h:238-243 | a step leaves the copies that all other notifications walk over as they were |
| `Events.Event.Notify` | Poco/AbstractEvent.h:223-244 | undisturbed, calls all enabled delegates of an enabled event |
| `StreamBuffers.RefillKeeps` | Poco/BufferedBidirectionalStreamBuf.h:115-123 | the overlapping move keeps the last up to four characters returned in front of the new ones |
| `StreamBuffers.EndKeepsPutback` | Poco/BufferedBidirectionalStreamBuf.h:115-121 | the exact condition under which the end of input keeps all characters to be put back |
| `StreamBuffers.EndLosesPutback` | Poco/BufferedBidirectionalStreamBuf.h:115-121 | a run that fails it: after the end of input the reader steps back and reads a character other than the one returned |
| `StreamBuffers.StreamBuf.Underflow` | Poco/BufferedBidirectionalStreamBuf.h:108-127 | input delivered stays the characters returned plus the get area; gives the next character without taking it; after a refill the last four characters can be put back, or all there were; at the end of input only the move has happened |
| `StreamBuffers.StreamBuf.UngetAfterRefill` | Poco/BufferedBidirectionalStreamBuf.h:115-123 | until the end of input the last four characters returned can be put back after every refill and are the next to be read, in their order |
| `StreamBuffers.StreamBuf.Get` | Poco/BufferedBidirectionalStreamBuf.h:108-127 | returns the characters in the order delivered |
| `StreamBuffers.StreamBuf.Unget` | Poco/BufferedBidirectionalStreamBuf.h:115-123 | gives back the last character returned, unless the end of input may have overwritten it |
| `StreamBuffers.StreamBuf.FlushBuffer` | Poco/BufferedBidirectionalStreamBuf.h:166-175 | a full write empties the put area, any other leaves it and reports failure |
| `StreamBuffers.StreamBuf.Overflow` | Poco/BufferedBidirectionalStreamBuf.h:94-106 | the character fits the slot reserved past epptr, and everything put reaches the device in order |
| `StreamBuffers.StreamBuf.Put` | Poco/BufferedBidirectionalStreamBuf.h:94-106 | all characters put are those written plus those pending |
| `StreamBuffers.StreamBuf.Sync` | Poco/BufferedBidirectionalStreamBuf.h:129-136 | success leaves nothing pending, and everything put is written if no write has failed |
| `ActiveMethodProtocol.StepGood` | Poco/ActiveMethod.h:109-116 | every step of every thread keeps the reference counts equal to the references held |
| `ActiveMethodProtocol.NoUseAfterFree` | Poco/ActiveStarter.h:59-63 | in every run whatever a step uses is alive, although the worker may release before the starter duplicates |
| `ActiveMethodProtocol.ResultsKeepHolders` | Poco/ActiveResult.h:266-284 | a holder lives as long as any result that points to it |
| `ActiveMethodProtocol.FreedExactlyOnce` | Poco/ActiveRunnable.h:80-100 | nothing is freed twice; in the end the runnable is freed once, the holder once its results are gone |
| `ActiveMethodProtocol.WaitReturns` | Poco/ActiveRunnable.h:80-100 | a wait returns iff the worker has notified |
| `ActiveMethodProtocol.WaitSeesOutcome` | Poco/ActiveRunnable.h:80-100 | a wait that returns sees the value the method returned, or the exception it threw, and not both |
| `ActiveMethodProtocol.OutcomeIsFinal` | Poco/ActiveRunnable.h:80-100 | what the method returned or threw is what its holder shows ever after |
| `ActiveMethodProtocol.StepHandles` | Poco/ActiveResult.h:273-298 | whose result each result object is after every step |
| `ActiveMethodProtocol.Assignment` | Poco/ActiveResult.h:286-292 | an assignment makes the left result one of the right one's call and changes no other |
| `ActiveMethodProtocol.WorkerMayFinishFirst` | Poco/ActiveStarter.h:59-63 | the race is real: a run in which the worker is through before the starter duplicates |
| `AutoPtrs.OwnersKeepAlive` | Poco/RefCountedObject.h:100-103 | whatever has an owner or a loose reference is not deleted, and it is deleted when it has neither |
| `AutoPtrs.AutoPtr.constructor` | Poco/AutoPtr.h:90-97 | owns the caller's loose reference or a new one |
| `AutoPtrs.AutoPtr.Copy` | Poco/AutoPtr.h:99-102 | a copy owns a reference of its own |
| `AutoPtrs.AutoPtr.Drop` | Poco/AutoPtr.h:110-113 | every other owner stays valid, and the object is deleted iff this was the last reference |
| `AutoPtrs.AutoPtr.AssignPointer` | Poco/AutoPtr.h:115-134 | moves this owner from one object to the other, and changes nothing when the pointer is the one held |
| `AutoPtrs.AutoPtr.Assign` | Poco/AutoPtr.h:136-145 | likewise, and safe without a condition when both hold the same object |
| `AutoPtrs.AutoPtr.SwapWith` | Poco/AutoPtr.h:175-178 | the owners change places and no count changes |
| `AutoPtrs.RefCounted.Release` | Poco/RefCountedObject.h:100-103 | deletes the object iff no owner and no loose reference is left |
| `ArchiveStrategies.NumberedInjective` | Poco/ArchiveStrategy.h:137-145 | different numbers make different names, none the base name |
| `ArchiveStrategies.NumberedReads` | Poco/ArchiveStrategy.h:139-142 | the name is the base, a dot and the decimal digits of the number, without leading zeros |
| `ArchiveStrategies.ShiftKeepsContents` | Poco/ArchiveStrategy.h:147-160 | every file is found again under its new name, no two under the same |
| `ArchiveStrategies.FileSystem.FirstFreeNumber` | Poco/ArchiveStrategy.h:137-145 | finds the first free number and ends on every finite file system |
| `ArchiveStrategies.FileSystem.ArchiveByNumber` | Poco/ArchiveStrategy.h:132-161 | the base is gone, number 0 is the old base, number i + 1 the old number i, all else as before; no rename lands on an existing name |
| `HMACEngines.HMACEngine.constructor` | Poco/HMACEngine.h:116-147 | byte by byte, both pads hold the key, or the hash of a key longer than a block, filled up with zeros and xored; the engine is fed the inner pad |
| `HMACEngines.HMACEngine.CopyBoth` | Poco/HMACEngine.h:127-140 | both pads hold the key filled up with zeros |
| `HMACEngines.HMACEngine.XorPads` | Poco/HMACEngine.h:141-145 | both pads are xored byte by byte |
| `HMACEngines.HMACEngine.Reset` | Poco/HMACEngine.h:94-98 | starts a new message |
| `HMACEngines.HMACEngine.Update` | Poco/HMACEngine.h:149-152 | only the concatenation of the pieces matters |
| `HMACEngines.HMACEngine.TakeDigest` | Poco/HMACEngine.h:100-113 | the hash of the outer pad and of the hash of inner pad and message, that is the HMAC; and the engine is as init left it |
| `HMACEngines.EquivalentKeys` | Poco/HMACEngine.h:120-140 | short keys may be zero-extended, long keys replaced by their hash |
| `HeaderText.LineRoundTrip` | FlintXmlHttpRequestAPI.cpp:116-116 | a printed header line is read back as its key and value, also with colons at the end of the key or separators in the value |
| `HeaderText.ParseKeeps` | FlintXmlHttpRequestAPI.cpp:259-260 | a name that is there keeps its value, whatever lines follow |
| `HeaderText.ParseTakesFirst` | FlintXmlHttpRequestAPI.cpp:259-260 | a new name gets the value of its first line |
| `HeaderText.HeaderRoundTrip` | FlintXmlHttpRequestAPI.cpp:240-261 | printed headers and a blank line are read back as the same map, with the body left over, iff keys and values are clean |
| `XmlHttpRequests.XmlHttpRequest.SetRequestHeader` | FlintXmlHttpRequestAPI.cpp:140-143 | the first value set for a name stays |
| `XmlHttpRequests.XmlHttpRequest.WriteHeaders` | FlintXmlHttpRequestAPI.cpp:112-118 | prints every header once, one line each, in ascending order of the names |
| `XmlHttpRequests.XmlHttpRequest.ReadHeaders` | FlintXmlHttpRequestAPI.cpp:240-261 | reads the lines up to the blank one, the first value of a name staying, and leaves the rest in the buffer |

## Left out

- Sockets, resolver, WebSocket client, SSDP and the browser host: input and output over libraries that are not part of this model.
- `LinearHashTable` copying, assignment and `swap`, and `reserve`: they do not change the stored values.
- `AbstractCache` delegates registered by users, which could change the cache from inside a notification.
- `ExpireCaches.ExpireCache.DoReplace`: the strategy may read the clock anew for every element, but the cache's own runs pass it one time per call.
- `StrategyCollection` and the caches that combine expiry and LRU: the bodies that decide them are not part of this model.
- Exceptions thrown by delegates and by the thread pool when it has no thread left, and failures to allocate.
- Overflow of sizes, counters and file numbers: they are unbounded here.
- `StreamBuffers.StreamBuf.Overflow`: a character that arrives after an overflow whose write the device did not accept in full; the reserved slot is taken then, and the pointer stands past it.
- `StreamBuffers.StreamBuf.Put`: the same, since sputc ends in overflow when the put area is full.
- `StreamBuffers.StreamBuf.Sync`: that output and put characters agree, once a write was not accepted in full.
- `StreamBuffers.StreamBuf.Unget`: which character is read again below position 4 after the device reported the end of input; see `EndKeepsPutback`.
- `StreamBuffers.StreamBuf.constructor`: buffer sizes of four and less, which leave no room behind the characters to be put back.
- `ArchiveByTimestampStrategy::archive` as a whole, file compression, and moves that fail.
- The digest algorithms: any function with digests no longer than a block.
- `XmlHttpRequests.XmlHttpRequest.ReadHeaders`: header lines without `": "`, where the code steps past the end of the line; every line up to the blank one must have a separator.
- The fixed request lines around the custom headers, and the state changes of the request object.
