# Naesala: models and proofs

This project models the containers and queues of the Naesala C++ library and proves what they keep over
whole histories. `dafny verify dfyconfig.toml` checks all of it.

* **Open-addressing map** (`LinearTable`, `LinearTableFacts`, `LinearHistory`, `LinearHashmap`). The class keeps
  the buckets, sentinel keys and counters of the original and updates them in place; each method is proved to act
  as a function on the table's cells, and the facts and histories are about those functions.
* **Chained table** (`Chains`, `ChainHash`, `ChainHistory`, `ChainErase`; the sort in `StableSort`, `SortLevels`,
  `SnapSort`). Entries are heap objects with two independent links. A ghost sequence of chains and one for the snapshot say
  what the links thread; the map from keys to stacks, iteration and sorting are stated about them.
* **Blocking queues** (`BoundedFifo`, `ConditionQueue`, `SemaphoreQueue`; how calls complete in `ConditionRuns`,
  `SemaphoreRuns`). State machines whose steps are those of any number of threads, interleaved at will. The pthread
  and the C++ file of each protocol share one machine: the predicate form of `wait` is the same loop.
* **Configuration parser** (`Text`, `ConfParser`, `ConfFile`; line by line in `ConfLines`), **LRU cache** (`Lru`,
  `LruCache`) and **trie** (`Trie`).

`Bits` holds the bit arithmetic of both tables, `Counting` counts elements of sequences, and `Options` is the optional
value.

## Where the code departs from what it promises

Each departure has a failing input and the exact condition under which the code does keep its promise.

* `LinearHashmap::Set` stops at the first erased bucket, while `Get` walks past it
  (naesala/hashmap/linear_hashmap-inl.h:74, naesala/hashmap/linear_hashmap-inl.h:89). A key that lies behind an
  erased bucket is then stored a second time: `LinearHistory.DuplicateAfterErase`. Keys stay unique, and the table
  agrees with a finite map, exactly in the clean histories: `LinearHistory.HistoryUnique`,
  `LinearHistory.HistoryAgrees`. An insertion is clean when, before the call, a rehash is due or no erased bucket
  lies ahead of the key on its probe path. A later rehash removes duplicates and keeps the value of the lowest
  bucket.
* The comment that a bucket count is at least 8 (naesala/hashmap/linear_hashmap.h:389) does not hold:
  `LinearHistory.OneBucket`. It holds in all histories of a table exactly when it holds at the start, that is, for
  a request that is 0 or, cut to 32 bits, more than 4: `LinearHistory.AlwaysRoomy`, `LinearHistory.FirstRoomy`.
* `NextPowTwo` returns an `int`, so of the 32-bit arguments it rounds exactly those up to 2^30 correctly
  (`Bits.NextPowTwoRounds`). A larger request for buckets is cut to 32 bits first; then one up to 2^31 fails, a higher
  one gives a table without buckets, and growing beyond 2^30 buckets fails (`LinearHashmap.LinearHashmap.New`,
  `LinearHashmap.LinearHashmap.Set`).
* A copy of a `chain_hash_map` need not find what the original finds. The copying loop pushes on the front of each
  chain and so reverses entries with equal keys (`ChainHistory.CopyReverses`); and it walks the snapshot in force and
  so misses entries that are newer (`ChainHistory.SnapHides`). `ChainHash.ChainHash.CopyFinds` says exactly for which
  keys lookups agree.
* `size` counts the snapshot while there is one: it misses later entries (`ChainHistory.SnapHides`), and counts all
  entries exactly when the snapshot lacks none (`ChainHash.ChainHash.Size`).
* Erasing through an iterator unlinks everything between the predecessor that the iterator carries and the end of
  its own entry (naesala/third/ulib/hash_chain_prot.h:213-216), so exactly its own entry goes if and only if it
  carries its own predecessor (`ChainHash.ChainHash.EraseAt`). Two kinds of iterators do not.
  * One of a walk over a snapshot carries the predecessor of the first entry with its key
    (naesala/third/ulib/hash_chain_prot.h:258-264). It erases its own entry alone exactly when that is the newest with
    its key (`ChainErase.EraseTopped`); otherwise the newest goes too (`ChainErase.EraseLosesBoth`).
  * One without a predecessor goes stale when `insert` puts a new entry at the front of its chain, be it the iterator
    that an earlier `insert` returned or one of a walk, and even if keys are unique throughout
    (`ChainErase.StaleErase`). An erase after an insert still removes exactly its own entry if and only if the
    insert went to another chain or the iterator carries a predecessor (`ChainErase.InsertThenErase`);
    `find_or_insert` never makes an iterator stale (`ChainErase.FindOrInsertThenErase`).
* `snap` on a table without entries leaves an old snapshot in force (`ChainHistory.StaleSnap`); iteration goes over the
  current entries exactly when there are some or there was no snapshot (`ChainHash.ChainHash.Snap`).

What `operator<<` of `ConfParser` writes is not, as a whole, a text that loads: the header is a bad item unless the
path has exactly one '=' (`ConfParser.OutputLoads`), and it hardly ever loads back (`ConfParser.OutputRoundTrip`). The
body alone does (`ConfParser.RoundTrip`).

## Model

The main results come first.

| member | source | states |
|---|---|---|
| `LinearHistory.HistoryAgrees` | naesala/hashmap/linear_hashmap-inl.h:68-146 | Of every history, through every growing and shrinking rehash: after each of its calls all lookups and the size are those of a finite map under the same calls, if and only if no insertion meets a tombstone ahead of its key |
| `LinearHistory.HistoryUnique` | naesala/hashmap/linear_hashmap-inl.h:81-107 | Of every history, iterator erasures included: it keeps keys unique after each of its calls if and only if each of its insertions is clean |
| `LinearHistory.HistoryOk` | naesala/hashmap/linear_hashmap-inl.h:68-146 | After every history of insertions, erasures by key and through iterators, and clears, clean or not, every invariant holds: size and used count live and non-empty buckets, used stays within the threshold, and no empty bucket lies between a key's home and its slot |
| `LinearHistory.DuplicateAfterErase` | naesala/hashmap/linear_hashmap-inl.h:89-103 | For any two keys that share the first of eight buckets, as 0 and 8 do (`LinearHistory.CollidingKeys`): emplace a, emplace b, erase a, emplace b again stores b twice, overrides a value that emplace should keep, and one erase of b then brings its old value back |
| `LinearHashmap.Replay` | naesala/hashmap/linear_hashmap.h:126-224 | On the buckets themselves, from a new table on and for every history: the table is what the history makes of it, and agrees with the finite map throughout exactly when the history is clean; it stops early only at an insertion into a table of 2^30 buckets that has reached its threshold |
| `LinearTableFacts.ResizeMeaning` | naesala/hashmap/linear_hashmap-inl.h:122-146 | Rehashing any table yields a table without tombstones, with unique keys and the same key set, keeps the invariant, and keeps every lookup when keys were unique |
| `LinearTableFacts.EraseRemoves` | naesala/hashmap/linear_hashmap.h:191-193 | After erase(key) the key is gone if and only if it occupied at most one bucket; with unique keys it acts as erasing from a map |
| `LinearTableFacts.DeleteShrinks` | naesala/hashmap/linear_hashmap-inl.h:111-120 | Erasing a live bucket halves a table of more than 8 buckets, and sweeps its erased buckets, exactly when fewer pairs remain than a fifth of the buckets; otherwise only that bucket changes, to erased |
| `LinearTableFacts.ProbeEnds` | naesala/hashmap/linear_hashmap-inl.h:72-91 | From every bucket of a table that satisfies the invariant, both kinds of probe reach a bucket where they stop |
| `LinearHistory.AlwaysRoomy` | naesala/hashmap/linear_hashmap.h:389-389 | For every new table: in no history does it have 1 to 7 buckets, if and only if it does not at the start; growing starts at 8 and shrinking stops there |
| `LinearHistory.FirstRoomy` | naesala/hashmap/linear_hashmap.h:70-76 | It does not at the start exactly when the request is 0 or, cut to 32 bits, more than 4; exactly the requests from 2^30 + 1 to 2^31, cut to 32 bits, cannot be met; a table that starts with buckets has the least power of two that the cut request fits |
| `Bits.SmearedMaskRounds` | naesala/third/ulib/hash_chain_prot.h:94-108 | For 1 <= min the smeared 64-bit mask is one less than the least power of two not below min; the bucket count fits 64 bits exactly when 1 <= min <= 2^63 |
| `Bits.NextPowTwoRounds` | naesala/hashmap/linear_hashmap.h:279-285 | NextPowTwo is the least power of two not below x if and only if x <= 2^30: beyond that its int cannot hold it |
| `SnapSort.SortSnap` | naesala/third/ulib/hash_chain_prot.h:308-334 | For every list of n entries up to 2^64, re-threading the snap links in place yields its stable sort, within 65 levels, with at least n - 1 and at most n(floor(log2 n) + 1) comparisons |
| `SnapSort.PartIsCounter` | naesala/third/ulib/hash_chain_prot.h:318-329 | After n entries, part[l] is occupied exactly when bit l of n is set, and then threads 2^l entries, sorted |
| `ChainHistory.Replay` | naesala/third/ulib/hash_chain.h:229-282 | From a new table, after every history of insert, find_or_insert, erase by key, erase at the end of a walk, clear, snap and sort that sorts no freed entry: each key carries exactly the stack of values that the history leaves, and the snapshot stays sound as long as nothing is erased under it |
| `ChainHistory.SnapshotWalk` | naesala/third/ulib/hash_chain_prot.h:220-285 | On a non-empty table with unique keys: snap, perhaps sort, and any find_or_insert calls before and after the sort; iteration visits exactly the entries present at the snapshot, once each, in key order or bucket order, each with its true bucket and predecessor |
| `ChainHash.ChainHash.CopyFinds` | naesala/third/ulib/hash_chain.h:182-183 | For every table, with or without a snapshot, and every key: a copy finds what the original finds if and only if the key is absent or the last of its entries that iteration visits has the value of the newest |
| `ChainHash.ChainHash.EraseAt` | naesala/third/ulib/hash_chain.h:268-270 | erase through any iterator takes the entries behind the predecessor it carries, up to its own; exactly its entry leaves its stack, and no other stack changes, if and only if it carries its own predecessor |
| `ChainErase.EraseTopped` | naesala/third/ulib/hash_chain_prot.h:254-264 | erase through an iterator of a walk over a snapshot takes exactly its entry if and only if that is the newest with its key; otherwise the newest goes too |
| `ChainErase.InsertThenErase` | naesala/third/ulib/hash_chain_prot.h:187-218 | insert, then erase through an iterator positioned before it: exactly the iterator's entry goes if and only if it carried its own predecessor and the insert went to another chain or that predecessor is an entry; with none, the chain keeps only what followed the iterator |
| `ChainHash.ChainHash.Size` | naesala/third/ulib/hash_chain.h:284-291 | size counts the entries that iteration visits; these are all entries if and only if there is no snapshot or it misses none |
| `ConditionQueue.RunInv` | naesala/blocking_queue/cplus_condition_bounded_blocking_queue.h:39-57 | In every state of every run, with any number of threads and spurious wakeups: mutual exclusion, both assertions, no lost wakeup of takers or putters, FIFO order, and each thread's own order |
| `ConditionQueue.NoDeadlock` | naesala/blocking_queue/condition_bounded_blocking_queue.h:24-46 | With capacity, no run ends with a parked putter, a parked taker and no thread able to move |
| `ConditionQueue.RunIsFifo` | naesala/blocking_queue/cplus_condition_bounded_blocking_queue.h:39-57 | In every run both assertions hold, items popped followed by the buffer are the items pushed, producers and consumers in their own order |
| `ConditionRuns.TakeAlone` | naesala/blocking_queue/condition_bounded_blocking_queue.h:35-46 | take with an item there and no other thread in its way takes the mutex, pops, unlocks, wakes a parked putter if there is one, and returns the oldest item |
| `ConditionRuns.PutAlone` | naesala/blocking_queue/condition_bounded_blocking_queue.h:24-33 | put with room there and no other thread in its way takes the mutex, adds its item behind the others, unlocks, and wakes a parked taker if there is one |
| `ConditionRuns.RunEnds` | naesala/blocking_queue/condition_bounded_blocking_queue.h:24-46 | A run in which no call begins and no wait ends spuriously has at most ten steps a thread, whatever the interleaving |
| `ConditionRuns.RunToRest` | naesala/blocking_queue/condition_bounded_blocking_queue.h:24-46 | From every state of every run, without new calls, the threads can go on until every call has returned, or is parked for want of an item or of room |
| `SemaphoreQueue.RunInv` | naesala/blocking_queue/cplus_semaphore_bounded_blocking_queue.h:22-40 | Exclusion, ledger, order and each thread's log hold in every state of every run |
| `SemaphoreQueue.NoDeadlock` | naesala/blocking_queue/semaphore_bounded_blocking_queue.h:26-44 | When no thread can move, takers wait only on an empty queue and putters only on a full one; so with capacity never both |
| `SemaphoreQueue.RunIsFifo` | naesala/blocking_queue/cplus_semaphore_bounded_blocking_queue.h:22-40 | In every run the ledger balances, the assertions hold, and items leave in push order, nothing lost |
| `SemaphoreRuns.TakeAlone` | naesala/blocking_queue/semaphore_bounded_blocking_queue.h:35-44 | take with a permit there and no other thread in its way pops and returns the oldest item, and gives the slot back |
| `SemaphoreRuns.PutAlone` | naesala/blocking_queue/semaphore_bounded_blocking_queue.h:26-33 | put with a permit there and no other thread in its way adds its item behind the others, and posts it |
| `SemaphoreRuns.RunEnds` | naesala/blocking_queue/semaphore_bounded_blocking_queue.h:26-44 | A run in which no call begins has at most five steps a thread, whatever the interleaving |
| `SemaphoreRuns.RunToRest` | naesala/blocking_queue/semaphore_bounded_blocking_queue.h:26-44 | From every state of every run, without new calls, the threads can go on until every call has returned, or waits for want of an item or of room |
| `ConfParser.RoundTrip` | naesala/configure/conf_parser.h:132-139 | For every configuration and iteration order, printing its body and loading that again gives the configuration if and only if it is well-formed |
| `ConfParser.LoadPrintLoad` | naesala/configure/conf_parser.h:97-139 | For every text and iteration order, printing the body of what was loaded and loading it again changes nothing |
| `ConfParser.OutputRoundTrip` | naesala/configure/conf_parser.h:127-141 | The whole text loads back to the configuration if and only if the path has exactly one '=' and the option without a name already has the key that the header becomes |
| `ConfLines.SkippedAnywhere` | naesala/configure/conf_parser.h:97-105 | A line that is blank when trimmed, or begins with '#', can be left out of any text, wherever it stands, and loading yields the same |
| `ConfLines.LineItem` | naesala/configure/conf_parser.h:115-122 | A line that is neither comment nor option and has one '=' gives the trimmed key of the current option the trimmed value, and changes nothing else |
| `ConfLines.PrintedAt` | naesala/configure/conf_parser.h:132-138 | The lines of the body: for each option it in brackets, then each of its keys with its value behind ' = ', and no others |
| `Lru.RunIncluded` | naesala/container/lru.h:20-43 | For every trace and capacities 0 < c <= d, the cache of size c is always a subsequence, values included, of the cache of size d |
| `Lru.HitsIncluded` | naesala/container/lru.h:20-43 | Every hit of the small cache is a hit of the large one, with the same value |
| `Lru.TouchedStays` | naesala/container/lru.h:20-43 | After a key is set or hit it stays cached while fewer than capacity other keys are; and until it is set or hit again, it is cached if and only if fewer than capacity keys have been |
| `Lru.HitIsLastSet` | naesala/container/lru.h:20-43 | A cached key carries the value last Set for it |
| `LruCache.LRU.Set` | naesala/container/lru.h:29-43 | In place: list and index become those of the specified cache, eviction included |
| `Trie.Trie.Search` | naesala/container/trie.h:32-35 | Search(w) holds if and only if w was inserted |
| `Trie.Trie.StartsWith` | naesala/container/trie.h:37-39 | StartsWith(p) holds if and only if p is empty or some inserted word extends p |
| `Trie.Trie.InsertAll` | naesala/container/trie.h:21-30 | After any sequence of insertions the words are the set of those inserted, whatever their order |
| `LinearHistory.ApplyAgrees` | naesala/hashmap/linear_hashmap-inl.h:81-119 | One call on a table that agrees with a map, erasure through an iterator included, keeps keys unique exactly when it is clean, and then acts as on the map |
| `LinearHistory.SizeAgrees` | naesala/hashmap/linear_hashmap.h:211-213 | With unique keys, size is the number of keys that a lookup finds |
| `LinearHistory.AgreesUnique` | naesala/hashmap/linear_hashmap.h:211-213 | A table that agrees with a map in lookups and in size has unique keys, so duplicates always show |
| `LinearHistory.OneBucket` | naesala/hashmap/linear_hashmap.h:389-389 | A request of 1 gives a table with one bucket |
| `LinearHistory.DeleteLength` | naesala/hashmap/linear_hashmap-inl.h:116-118 | An erasure keeps the bucket count, or halves it to no fewer than 8 |
| `LinearHistory.SetLength` | naesala/hashmap/linear_hashmap-inl.h:83-86 | An insertion doubles the buckets, or starts with 8, exactly when the used ones have reached the threshold, and otherwise keeps their number |
| `LinearHistory.OkCounts` | naesala/hashmap/linear_hashmap.h:389-395 | The invariant: size is the number of live buckets, used that of non-empty ones, and used is at most the threshold, below the bucket count |
| `LinearHistory.OkReaches` | naesala/hashmap/linear_hashmap-inl.h:73-76 | The invariant: no empty bucket lies between where a stored key's hash leads and the bucket that holds it |
| `LinearHistory.ApplyMeaning` | naesala/hashmap/linear_hashmap.h:169-224 | On unique keys, what a lookup of any key yields after each kind of clean call |
| `LinearHistory.ApplyFinds` | naesala/hashmap/linear_hashmap.h:169-224 | On any table, duplicates included: an assigned key is then found with its value, and an emplaced key is found |
| `LinearTableFacts.Thresholds` | naesala/hashmap/linear_hashmap.h:275-294 | The growth threshold leaves a free bucket, doubling raises it, and half a table below its shrink threshold has room for what is stored |
| `LinearTableFacts.ProbeIsFirst` | naesala/hashmap/linear_hashmap-inl.h:72-76 | A probe, of either kind, ends at the first bucket in cyclic order from its start where it may stop, and misses none |
| `LinearTableFacts.GetFindsFirst` | naesala/hashmap/linear_hashmap-inl.h:68-78 | Get reports the bucket count exactly when no bucket holds the key, and otherwise the holder that comes first on the probe path, duplicates included |
| `LinearTableFacts.PlaceOk` | naesala/hashmap/linear_hashmap-inl.h:87-106 | An insertion below the threshold keeps the whole invariant |
| `LinearTableFacts.PlaceLookupSame` | naesala/hashmap/linear_hashmap-inl.h:87-106 | After it, the key is found in the bucket where it landed, with the new value, or with the value it had if the probe met the key and displace is false |
| `LinearTableFacts.PlaceLookupOther` | naesala/hashmap/linear_hashmap-inl.h:87-106 | It leaves the lookup of every other key alone, duplicates included |
| `LinearTableFacts.SlotMissesKey` | naesala/hashmap/linear_hashmap-inl.h:89-91 | With unique keys, an insertion overlooks a stored key exactly when an erased bucket lies ahead of it on its probe path |
| `LinearTableFacts.PlaceUnique` | naesala/hashmap/linear_hashmap-inl.h:87-106 | It keeps keys unique if and only if no erased bucket lies ahead of the key |
| `LinearTableFacts.Reinserted` | naesala/hashmap/linear_hashmap-inl.h:138-143 | The loop of a rehash yields a table without tombstones and with unique keys and the same key set; a duplicated key keeps the value of its lowest bucket |
| `LinearTableFacts.GrownMeaning` | naesala/hashmap/linear_hashmap-inl.h:83-86 | Growing leaves room for one more insertion and keeps the key set; with unique keys it keeps every lookup |
| `LinearTableFacts.SetMeaning` | naesala/hashmap/linear_hashmap-inl.h:81-107 | Set on any table: invariant kept, the key set gains the key, a displacing Set is found again with its value, and without a rehash other lookups are unchanged |
| `LinearTableFacts.SetUniqueMeaning` | naesala/hashmap/linear_hashmap-inl.h:81-107 | On unique keys, Set keeps them unique exactly when it is clean, and then acts on every lookup as emplace or insert_or_assign on a map |
| `LinearTableFacts.DeleteMeaning` | naesala/hashmap/linear_hashmap-inl.h:109-119 | Delete by index, which erase through an iterator calls: invariant kept through the shrinking rehash, exactly the keys held elsewhere remain, other lookups are unchanged unless duplicates meet a rehash |
| `LinearTableFacts.Factors` | naesala/hashmap/linear_hashmap.h:275-294 | The two thresholds are the bucket count times the single-precision 0.85 and 0.2, rounded down |
| `LinearTableFacts.SlotIsMod` | naesala/hashmap/linear_hashmap-inl.h:75-75 | After d probe steps the index is home + d modulo the bucket count |
| `LinearTableFacts.GetProbes` | naesala/hashmap/linear_hashmap-inl.h:72-78 | A key that is found stands some d buckets on from hash modulo count, behind erased buckets and other keys only |
| `LinearTableFacts.SetProbes` | naesala/hashmap/linear_hashmap-inl.h:87-91 | An insertion lands some d buckets on from hash modulo count, behind other keys only, in a bucket that is empty, erased or holds the key |
| `LinearHashmap.LinearHashmap.constructor` | naesala/hashmap/linear_hashmap.h:70-76 | The new table is empty, with as many buckets as the request rounds to, which is cut to 32 bits first and can come out as 0 |
| `LinearHashmap.LinearHashmap.SeekGet` | naesala/hashmap/linear_hashmap-inl.h:72-76 | The lookup loop terminates, by the cyclic distance to its stopping bucket, at the bucket that the probe function names |
| `LinearHashmap.LinearHashmap.SeekSet` | naesala/hashmap/linear_hashmap-inl.h:87-91 | The insertion loop likewise |
| `LinearHashmap.LinearHashmap.Get` | naesala/hashmap/linear_hashmap-inl.h:67-78 | In-place lookup equals the lookup function on the table's cells |
| `LinearHashmap.LinearHashmap.Set` | naesala/hashmap/linear_hashmap-inl.h:80-107 | In place, with the growing rehash inside, the table becomes the specified one, and the index returned is where the key landed; it fails, and changes nothing, exactly when the table has 2^30 buckets and has reached its threshold |
| `LinearHashmap.LinearHashmap.Store` | naesala/hashmap/linear_hashmap-inl.h:87-106 | The part of Set after the threshold test, in place |
| `LinearHashmap.LinearHashmap.Delete` | naesala/hashmap/linear_hashmap-inl.h:109-119 | In place, with the shrinking rehash inside, the table becomes the specified one; out-of-range and dead indices change nothing |
| `LinearHashmap.LinearHashmap.Resize` | naesala/hashmap/linear_hashmap-inl.h:121-146 | Building another table and swapping with it yields the specified rehash, or fails and changes nothing exactly for more than 2^30 buckets; the mutual recursion with Set terminates |
| `LinearHashmap.LinearHashmap.InitializeBuckets` | naesala/hashmap/linear_hashmap-inl.h:124-137 | The first allocation yields an empty table of the requested size, 0 included |
| `LinearHashmap.LinearHashmap.MovePairs` | naesala/hashmap/linear_hashmap-inl.h:138-143 | Every pair is inserted into the new table, which never has to rehash |
| `LinearHashmap.ReinsertNext` | naesala/hashmap/linear_hashmap-inl.h:138-143 | At every turn of the rehash loop the new table is below its growth threshold |
| `LinearHashmap.LinearHashmap.Swap` | naesala/hashmap/linear_hashmap.h:246-255 | All seven fields are exchanged |
| `LinearHashmap.LinearHashmap.Find` | naesala/hashmap/linear_hashmap.h:150-153 | find yields the end exactly when no bucket holds the key, and otherwise a bucket with that key and the value found |
| `LinearHashmap.LinearHashmap.Emplace` | naesala/hashmap/linear_hashmap.h:169-177 | emplace acts as one Emplace step of the histories, and returns the bucket where a lookup then finds the key; it fails, and changes nothing, exactly when the table has 2^30 buckets and has reached its threshold |
| `LinearHashmap.LinearHashmap.InsertOrAssign` | naesala/hashmap/linear_hashmap.h:179-183 | insert_or_assign acts as one Assign step, likewise; it fails, and changes nothing, exactly when the table has 2^30 buckets and has reached its threshold |
| `LinearHashmap.LinearHashmap.Index` | naesala/hashmap/linear_hashmap.h:201-210 | operator[] acts as an Emplace step with the default value, and designates the bucket where a lookup then finds the key; it fails, and changes nothing, exactly when the table has 2^30 buckets and has reached its threshold |
| `LinearHashmap.LinearHashmap.Erase` | naesala/hashmap/linear_hashmap.h:191-193 | erase acts as one EraseKey step of the histories |
| `LinearHashmap.LinearHashmap.Clear` | naesala/hashmap/linear_hashmap.h:219-224 | clear acts as one Clear step and keeps the buckets |
| `LinearHashmap.LinearHashmap.Size` | naesala/hashmap/linear_hashmap.h:211-213 | size is the number of live buckets |
| `LinearHashmap.SetFinds` | naesala/hashmap/linear_hashmap.h:169-210 | The index that any insertion returns is where a lookup then finds the key, even in a table with duplicates |
| `LinearHashmap.LinearHashmap.Begin` | naesala/hashmap/linear_hashmap.h:126-132 | begin stands at the first live bucket |
| `LinearHashmap.LinearHashmap.Increment` | naesala/hashmap/linear_hashmap-inl.h:49-57 | operator++ goes on to the next live bucket, or to the end, where it stays |
| `LinearHashmap.IterationVisitsAll` | naesala/hashmap/linear_hashmap-inl.h:49-57 | From begin on, iteration visits exactly the live buckets, each once, in bucket order |
| `LinearHashmap.IterationCount` | naesala/hashmap/linear_hashmap-inl.h:49-57 | It visits size() buckets |
| `LinearHashmap.LinearHashmap.CopyFrom` | naesala/hashmap/linear_hashmap.h:89-105 | Copy assignment makes the cells of the two tables equal, through either copying loop |
| `LinearHashmap.LinearHashmap.InitializedCopy` | naesala/hashmap/linear_hashmap.h:367-384 | Copying over live buckets of the same count yields the source's cells and counters |
| `LinearHashmap.LinearHashmap.UninitializedCopy` | naesala/hashmap/linear_hashmap.h:350-365 | So does copying into fresh buckets |
| `LinearHashmap.LinearHashmap.Destroy` | naesala/hashmap/linear_hashmap.h:335-348 | Destroying leaves a valid table without buckets |
| `LinearHashmap.LinearHashmap.New` | naesala/hashmap/linear_hashmap.h:70-76 | For every request: construction fails exactly for those from 2^30 + 1 to 2^31, cut to 32 bits, and otherwise yields that table |
| `LinearHashmap.LinearHashmap.PerformAll` | naesala/hashmap/linear_hashmap.h:169-224 | From any table on, performing a history in place gives the specified table, and stops early only at an insertion into a table of 2^30 buckets that has reached its threshold |
| `Bits.SmearFillsBelowTop` | naesala/third/ulib/hash_chain_prot.h:95-101 | Six rounds of or-shifting set every bit below the highest one |
| `Bits.RoundingsAgree` | naesala/hashmap/linear_hashmap.h:283-285 | The two roundings agree for 1 <= x <= 2^30 |
| `Bits.MaskIsMod` | naesala/third/ulib/hash_chain_prot.h:145-145 | For any power-of-two count, h & (count - 1) is h modulo count |
| `ChainHistory.Walk` | naesala/third/ulib/hash_chain.h:201-223 | A loop from begin to end visits exactly the entries of the iteration order, in order |
| `ChainHistory.InsertAfterSnap` | naesala/third/ulib/hash_chain_prot.h:409-413 | Entries added by find_or_insert after a snapshot stay invisible to it |
| `ChainHistory.EraseNthEntry` | naesala/third/ulib/hash_chain.h:268-270 | Without a snapshot, a walk to the entry of a key that n others precede, and an erase there, remove exactly that entry from its stack |
| `ChainHistory.CopyReverses` | naesala/third/ulib/hash_chain.h:177-184 | Failing input: of two values under one key the table finds the newer and its copy the older |
| `ChainHistory.SnapHides` | naesala/third/ulib/hash_chain_prot.h:227-237 | Failing family: with a snapshot in force, a key inserted later is found in the table, but size does not count it and a copy does not have it |
| `ChainHistory.SnapHidesOne` | naesala/third/ulib/hash_chain_prot.h:227-237 | Such an input: one key, a snapshot, then another key |
| `ChainHistory.StaleSnap` | naesala/third/ulib/hash_chain_prot.h:341-346 | Failing input: one key, a snapshot, the key erased, and a new snapshot leave the old one in force |
| `ChainHistory.SnappedIs` | naesala/third/ulib/hash_chain_prot.h:336-364 | Histories in which a snapshot may be in force are exactly those with a snap that no clear follows |
| `ChainHistory.SoundIs` | naesala/third/ulib/hash_chain_prot.h:254-264 | Histories after which a snapshot may reach freed entries are exactly those with an erase under a snapshot that no clear follows |
| `ChainHash.ChainHash.constructor` | naesala/third/ulib/hash_chain_prot.h:87-111 | The new table has the least power of two of chains not below min, all empty |
| `ChainHash.ChainHash.Get` | naesala/third/ulib/hash_chain_prot.h:142-160 | The first entry of the key in its chain, its true predecessor and bucket; past the end of the chain when the key is absent |
| `ChainHash.ChainHash.SetUniq` | naesala/third/ulib/hash_chain_prot.h:162-185 | A new entry goes to the end of its chain if and only if the key is absent; chains stay acyclic, disjoint and correctly hashed |
| `ChainHash.ChainHash.Append` | naesala/third/ulib/hash_chain_prot.h:174-181 | Linking behind the predecessor appends to that chain and leaves the others |
| `ChainHash.ChainHash.Set` | naesala/third/ulib/hash_chain_prot.h:187-206 | A new entry goes to the front of its chain |
| `ChainHash.ChainHash.Del` | naesala/third/ulib/hash_chain_prot.h:208-218 | The entries behind the predecessor that the iterator carries, up to its own, leave the chain: its own alone when that is its own predecessor; past the end nothing changes |
| `ChainHash.ChainHash.Find` | naesala/third/ulib/hash_chain.h:256-262 | find peeks at the stack of the key, with the true position of its top |
| `ChainHash.ChainHash.Contain` | naesala/third/ulib/hash_chain.h:225-227 | contain holds exactly when the stack of the key is not empty |
| `ChainHash.ChainHash.Insert` | naesala/third/ulib/hash_chain.h:229-237 | insert pushes on the stack of its key, leaves all other stacks, and keeps the snapshot |
| `ChainHash.ChainHash.FindOrInsert` | naesala/third/ulib/hash_chain.h:239-250 | find_or_insert pushes on an empty stack only, returns the top of the stack, leaves all other stacks, and keeps the snapshot |
| `ChainHash.ChainHash.Erase` | naesala/third/ulib/hash_chain.h:264-266 | erase(key) pops the stack of the key and leaves all others |
| `ChainHash.ChainHash.Clear` | naesala/third/ulib/hash_chain_prot.h:113-130 | clear empties every stack and drops the snapshot |
| `ChainHash.PopStack` | naesala/third/ulib/hash_chain_prot.h:208-218 | Unlinking the first entry of a key pops its stack and no other |
| `ChainHash.AppendStack` | naesala/third/ulib/hash_chain_prot.h:174-181 | Appending to a chain appends to the stack of that key and to no other |
| `ChainHash.ChainHash.Locate` | naesala/third/ulib/hash_chain_prot.h:228-236 | The bucket of a snapshot entry, and the predecessor of the first entry with its key; the entry's own when keys are unique |
| `ChainHash.ChainHash.Begin` | naesala/third/ulib/hash_chain_prot.h:220-247 | Iteration starts at the first entry of the snapshot, or of all entries in bucket order |
| `ChainHash.ChainHash.Advance` | naesala/third/ulib/hash_chain_prot.h:249-285 | One step goes to the next entry of that order, with its true position; at the end it reports -1 or stands at none |
| `ChainHash.ChainHash.Increment` | naesala/third/ulib/hash_chain.h:87-93 | operator++ goes to the next entry of the iteration order, or to the end |
| `ChainHash.ChainHash.Snap` | naesala/third/ulib/hash_chain_prot.h:336-365 | On a non-empty table the snapshot threads every entry once, in bucket order, and no chain changes; on an empty one the old snapshot stays; iteration is then over the current entries if and only if there are some or there was no snapshot |
| `ChainHash.ChainHash.NextEntry` | naesala/third/ulib/hash_chain_prot.h:352-361 | The snapshot loop finds the entry that follows in bucket order, or that there is none |
| `ChainHash.ChainHash.SortSnapshot` | naesala/third/ulib/hash_chain.h:280-282 | sort makes the snapshot its own stable sort by key and changes no chain and no stack |
| `ChainHash.ChainHash.Copy` | naesala/third/ulib/hash_chain.h:177-184 | A copy has as many chains, and under every key the values of the original's iteration order, reversed; for every key it finds what the original finds if and only if the key is absent or the last of its entries that iteration visits has the value of the newest |
| `ChainHash.ChainHash.CopyFrom` | naesala/third/ulib/hash_chain.h:186-195 | Copy assignment likewise; self-assignment changes nothing |
| `ChainHash.ChainHash.KeepsFindOldest` | naesala/third/ulib/hash_chain.h:182-183 | Without a snapshot that means that the oldest and the newest entry of the key have the same value |
| `ChainHash.SlotIsMod` | naesala/third/ulib/hash_chain_prot.h:145-145 | With a power of two of buckets up to 2^64, the bucket of a key is its remainder by their number, negative keys included |
| `SnapSort.MergeLists` | naesala/third/ulib/hash_chain_prot.h:287-306 | Relinking two lists in place yields their merge, first list first among equals, with at most one comparison per entry and at least as many as the shorter list has entries |
| `SnapSort.Carry` | naesala/third/ulib/hash_chain_prot.h:322-325 | Carrying an entry up through the occupied levels is binary addition of one, and pays for its comparisons |
| `SnapSort.Collect` | naesala/third/ulib/hash_chain_prot.h:330-333 | Merging the levels from the lowest yields the stable sort of all entries |
| `SortLevels.LevelsAreBits` | naesala/third/ulib/hash_chain_prot.h:322-328 | Levels that hold nothing or 2^l entries spell the number of entries in binary |
| `SortLevels.CarryStep` | naesala/third/ulib/hash_chain_prot.h:322-325 | One carry keeps the counter and the order of the input, stays below level 64 for at most 2^64 entries, and is paid for |
| `StableSort.SortIsStable` | naesala/third/ulib/hash_chain_prot.h:294-301 | The reference sort orders by key and keeps the order of entries with equal keys |
| `StableSort.SortContents` | naesala/third/ulib/hash_chain_prot.h:308-334 | It permutes the entries |
| `StableSort.StableIsUnique` | naesala/third/ulib/hash_chain_prot.h:294-301 | Order and stability determine the result |
| `StableSort.MergeSorts` | naesala/third/ulib/hash_chain_prot.h:287-306 | Merging the sorts of two consecutive runs sorts the whole |
| `BoundedFifo.ProducerOrder` | naesala/blocking_queue/condition_bounded_blocking_queue.h:24-46 | Each producer's items leave in the order in which it put them |
| `ConditionQueue.StepAsserted` | naesala/blocking_queue/condition_bounded_blocking_queue.h:29-40 | Both assertions hold whenever they are reached, so the overwriting push_back overwrites nothing |
| `ConditionQueue.StepTakers` | naesala/blocking_queue/condition_bounded_blocking_queue.h:35-46 | No lost wakeup: while a taker is parked, items never exceed pending not_empty signals plus awake takers |
| `ConditionQueue.StepPutters` | naesala/blocking_queue/condition_bounded_blocking_queue.h:24-33 | Symmetrically for free slots, pending not_full signals and awake putters |
| `ConditionQueue.SignalTakers` | naesala/blocking_queue/condition_bounded_blocking_queue.h:32-32 | A signal after unlocking keeps the takers' bound, whomever it wakes |
| `ConditionQueue.SignalPutters` | naesala/blocking_queue/condition_bounded_blocking_queue.h:44-44 | It keeps the putters' bound |
| `ConditionQueue.StepRefines` | naesala/blocking_queue/condition_bounded_blocking_queue.h:29-45 | Every step is an atomic put, an atomic take, or invisible to the atomic FIFO |
| `ConditionQueue.StepLogged` | naesala/blocking_queue/cplus_condition_bounded_blocking_queue.h:39-57 | Each thread pushes what it called put with and returns what it popped, in order |
| `ConditionQueue.Progress` | naesala/blocking_queue/condition_bounded_blocking_queue.h:24-46 | While some thread is under way and not parked, some thread can move |
| `ConditionQueue.StuckMeansParked` | naesala/blocking_queue/condition_bounded_blocking_queue.h:24-46 | When none can, takers are parked only on an empty queue and putters only on a full one |
| `SemaphoreQueue.StepSlots` | naesala/blocking_queue/semaphore_bounded_blocking_queue.h:26-44 | The slot ledger: not_full permits, items, putters before their push and takers before their post add up to the capacity |
| `SemaphoreQueue.StepItems` | naesala/blocking_queue/semaphore_bounded_blocking_queue.h:26-44 | The item ledger: not_empty permits, takers before their pop and putters before their post add up to the items |
| `SemaphoreQueue.AssertsHold` | naesala/blocking_queue/semaphore_bounded_blocking_queue.h:29-38 | Under the ledger a thread past its wait finds room or an item, so both assertions hold |
| `SemaphoreQueue.StepRefines` | naesala/blocking_queue/cplus_semaphore_bounded_blocking_queue.h:22-40 | Every step is an atomic put, an atomic take, or invisible to the atomic FIFO |
| `SemaphoreQueue.StepLogged` | naesala/blocking_queue/cplus_semaphore_bounded_blocking_queue.h:22-40 | Each thread pushes what it called put with and returns what it popped, in order |
| `ConfParser.LoadTextGood` | naesala/configure/conf_parser.h:97-123 | Loading, even up to a bad line, yields only trimmed keys and values without '=', keys not starting with '#' or '[', options without ']', and no option without items |
| `ConfParser.LoadLineGood` | naesala/configure/conf_parser.h:98-122 | So does every single line |
| `ConfParser.ItemLine` | naesala/configure/conf_parser.h:137-137 | A printed item loads as that key and value, the empty key and the empty value included |
| `ConfParser.SectionsLoad` | naesala/configure/conf_parser.h:132-139 | The printed sections, loaded on top of other options, add exactly their options and items |
| `ConfParser.OutputLoads` | naesala/configure/conf_parser.h:127-141 | What loading the whole text comes to: a bad item and nothing loaded unless the path has exactly one '='; then the header is an item of the option without a name, and the notice is a bad item after it, or all options are loaded on top of it |
| `ConfParser.HeaderLine` | naesala/configure/conf_parser.h:128-128 | The header line is a bad item unless the path has exactly one '=', and then it is the item of the text before and after it |
| `Text.LinesOfUnlines` | naesala/configure/conf_parser.h:97-97 | Reading line by line undoes writing line by line |
| `Text.TrimFacts` | naesala/configure/conf_parser.h:98-98 | Trimming leaves no white space at either end and only characters of the line, and trimmed text alone |
| `Text.SplitTwo` | naesala/configure/conf_parser.h:115-116 | Two pieces mean exactly one separator, between them |
| `Text.SpaceIs` | naesala/configure/conf_parser.h:98-98 | White space is the blank and the characters 9 to 13, tab and return among them |
| `Text.TrimCuts` | naesala/configure/conf_parser.h:98-98 | Trimming cuts off all the white space at both ends and nothing else |
| `Text.SplitJoins` | naesala/configure/conf_parser.h:115-115 | The pieces hold no separator, and joined by it they are the line |
| `ConfFile.ConfFile.Load` | naesala/configure/conf_parser.h:90-125 | The loop over lines computes the specified outcome, keeps what precedes a bad line, and reports loaded only at the end of the text |
| `ConfFile.ConfFile.Write` | naesala/configure/conf_parser.h:127-141 | Header, notice and nested loops write the specified text, for any iteration order |
| `ConfFile.ConfFile.Get` | naesala/configure/conf_parser.h:27-44 | get yields the converted value, or tells apart a missing option, a missing key and a text that does not convert |
| `ConfFile.ConfFile.GetOr` | naesala/configure/conf_parser.h:53-61 | get with a default yields the default in all three of these cases |
| `ConfFile.ConfFile.Set` | naesala/configure/conf_parser.h:69-79 | set stores the converted value under a new or known option and key, or changes nothing when it does not convert; it keeps a configuration well-formed exactly when the item stored is |
| `ConfFile.ConfFile.WriteBody` | naesala/configure/conf_parser.h:132-139 | The nested loops write the specified body |
| `Lru.Retained` | naesala/container/lru.h:20-43 | While fewer than capacity other keys are set or hit, a key at the front stays cached, and every key ahead of it has been set or hit since |
| `Lru.RunOk` | naesala/container/lru.h:37-40 | The cache never exceeds its capacity and holds no key twice |
| `Lru.RunOvertakes` | naesala/container/lru.h:20-43 | Every key set or hit since an untouched key was is ahead of it in the list, as long as that one is cached |
| `LruCache.LRU.IndexAgrees` | naesala/container/lru.h:46-52 | The index maps exactly the cached keys, each to its own node, and has as many entries as the list |
| `LruCache.LRU.Get` | naesala/container/lru.h:20-27 | In place: a hit yields the cached value and moves it to the front, a miss yields the stand-in and changes nothing |
| `Trie.Trie.Insert` | naesala/container/trie.h:21-30 | Insert adds exactly its word; nodes stay a tree, one node a path, without a path that begins no word |
| `Trie.Trie.Find` | naesala/container/trie.h:56-65 | Find yields the node of the path, or null when there is none |
| `ChainErase.EraseLosesBoth` | naesala/third/ulib/hash_chain_prot.h:208-264 | Failing input: two inserts under one key, snap, begin, ++ and erase leave neither entry |
| `ChainErase.FindOrInsertThenErase` | naesala/third/ulib/hash_chain_prot.h:162-218 | find_or_insert, then erase through an iterator positioned before it: exactly its entry goes if and only if it carried its own predecessor |
| `ChainErase.StaleErase` | naesala/third/ulib/hash_chain_prot.h:201-214 | Failing inputs with unique keys throughout: insert, or insert, snap and begin, then insert of another key in the chain, then erase through the first iterator, leave neither entry |
| `ConditionRuns.CallParks` | naesala/blocking_queue/condition_bounded_blocking_queue.h:24-38 | take on an empty queue, and put on a full one, park and give the mutex back, and the queue stays |
| `ConditionRuns.AcquireTest` | naesala/blocking_queue/condition_bounded_blocking_queue.h:25-38 | Whoever takes the mutex, also after a wait, tests the queue again: it goes on under the mutex, or parks and frees it |
| `ConditionRuns.FinishTake` | naesala/blocking_queue/condition_bounded_blocking_queue.h:35-46 | A woken taker, undisturbed, completes in the same way |
| `ConditionRuns.FinishPut` | naesala/blocking_queue/condition_bounded_blocking_queue.h:24-33 | A woken putter, undisturbed, completes in the same way |
| `ConditionRuns.HandOver` | naesala/blocking_queue/condition_bounded_blocking_queue.h:24-46 | A put on an empty queue hands its item to a parked taker, which returns it |
| `ConditionRuns.MakeRoom` | naesala/blocking_queue/condition_bounded_blocking_queue.h:24-46 | A take from a full queue lets a parked putter add its item |
| `ConditionRuns.SpuriousWake` | naesala/blocking_queue/condition_bounded_blocking_queue.h:26-38 | A parked thread may leave its wait at any time, and then has to take the mutex again |
| `ConditionRuns.RunNoLostWakeup` | naesala/blocking_queue/condition_bounded_blocking_queue.h:24-46 | In every run, while a taker is parked there are no more items than putters that owe a signal and takers that are awake; and symmetrically for putters and free slots |
| `ConditionRuns.StepLowers` | naesala/blocking_queue/condition_bounded_blocking_queue.h:24-46 | Every step of a call, a signal included, lowers what all threads together have left |
| `ConditionRuns.NewQueue` | naesala/blocking_queue/condition_bounded_blocking_queue.h:19-22 | A new queue of any capacity, empty and unlocked, is where runs start |
| `SemaphoreRuns.FinishTake` | naesala/blocking_queue/semaphore_bounded_blocking_queue.h:35-44 | A waiting taker with a permit there, undisturbed, completes in the same way |
| `SemaphoreRuns.FinishPut` | naesala/blocking_queue/semaphore_bounded_blocking_queue.h:26-33 | A waiting putter with a permit there, undisturbed, completes in the same way |
| `SemaphoreRuns.CallWaits` | naesala/blocking_queue/semaphore_bounded_blocking_queue.h:26-36 | A call without a permit waits, and cannot move by itself |
| `SemaphoreRuns.HandOver` | naesala/blocking_queue/semaphore_bounded_blocking_queue.h:26-44 | A put on an empty queue hands its item to a waiting taker, which returns it |
| `SemaphoreRuns.MakeRoom` | naesala/blocking_queue/semaphore_bounded_blocking_queue.h:26-44 | A take from a full queue lets a waiting putter add its item |
| `SemaphoreRuns.StepLowers` | naesala/blocking_queue/semaphore_bounded_blocking_queue.h:26-44 | Every step of a call is one fewer of those that all threads together have left |
| `SemaphoreRuns.NewQueue` | naesala/blocking_queue/semaphore_bounded_blocking_queue.h:20-24 | A new queue of any capacity, with a permit for every slot, is where runs start |
| `ConfLines.LineSkipped` | naesala/configure/conf_parser.h:98-105 | A line that is blank when trimmed, or begins with '#', is skipped |
| `ConfLines.LineOption` | naesala/configure/conf_parser.h:106-114 | A line that begins with '[' names the option up to the first ']', whatever follows that |
| `ConfLines.LineBadOption` | naesala/configure/conf_parser.h:106-111 | A line that begins with '[' and has no ']' is a bad option |
| `ConfLines.LineBadItem` | naesala/configure/conf_parser.h:115-119 | A line that is neither blank, comment nor option, without '=' or with two or more, is a bad item |
| `ConfLines.LoadStops` | naesala/configure/conf_parser.h:97-119 | A bad line ends the loading with what the lines before it have loaded, whatever follows it |
| `ConfLines.PrintLinesAt` | naesala/configure/conf_parser.h:132-138 | Likewise for the lines written of configurations that are not well-formed |
| `ConfLines.PrintLength` | naesala/configure/conf_parser.h:132-138 | There is one line for each option and one for each key |
| `ConfLines.OutputIs` | naesala/configure/conf_parser.h:127-139 | The whole text is the header line with the path, and then the body, or the notice when there are no options; a body ends with a line feed |
| `ConfLines.SomeOrder` | naesala/configure/conf_parser.h:132-136 | Every configuration can be iterated, so none of these statements is empty |

## Left out

- LinearHashmap.LinearHashmap.New: the failures of an allocator that runs out of memory for counts up to 2^30.
- LinearHashmap.LinearHashmap.Swap: move construction and move assignment, which hand the fields over in the same way.
- LinearHashmap.LinearHashmap.CopyFrom: the copy constructor, which is the same `UninitializedCopy` on a table without buckets.
- LinearHashmap.LinearHashmap.constructor: the default sentinels of numeric and string keys; the sentinels are parameters, and stored keys must differ from both, as in the original.
- Allocators, construction and destruction of values in dead buckets, user-defined key equality (`==` is used), the range overloads of insert and insert_or_assign (loops over `Set`), and iterators used after a rehash, but for erasing through them.
- The single-precision load factors are modelled exactly, as 14260634/2^24 and 13421773/2^26, on the power-of-two counts that occur.
- ChainHash.ChainHash.constructor: a request of 0 or above 2^63. Its bucket count wraps to 0 (`Bits.SmearedMaskRounds`), and what the original does then is up to the allocator and, after that, undefined.
- ChainHistory.Replay: a sort after an erase under the same snapshot, which follows freed entries, and a walk over a snapshot that ends in an erase, for which `ChainErase.EraseTopped` says what it takes.
- ChainHash.ChainHash.EraseAt: iterators whose own entry, or the predecessor they carry, has been freed.
- ChainHash.ChainHash.Erase: what becomes of a snapshot after erase (the original does not maintain the list, which then reaches freed entries); erasing keeps the snapshot valid only when there is none.
- ChainHash.ChainHash.SortSnapshot: more than 2^64 entries.
- Keys of the chained table are integers hashed by conversion to 64 bits; other key types, failing allocation, freeing, and writes through returned references are not modelled.
- ConditionQueue.NoDeadlock: fairness among threads, and timing; a signal wakes one thread, and threads it wakes beyond that leave their wait by spurious steps.
- SemaphoreQueue.NoDeadlock: fairness among threads, timing, and the overflow of a semaphore's counter.
- Items of the queues are copied without failing; the destruction of a queue in use is not modelled.
- ConfFile.ConfFile.Load: opening the file; its text is a parameter, and white space is that of the classic locale.
- ConfFile.ConfFile.Get: the conversion itself, which is a parameter, and the texts of exceptions.
- ConfParser.OutputLoads: paths with line feeds, and configurations that are not well-formed.
- LruCache.LRU.Set: capacity 0, where the original takes the back of an empty list.
- LruCache.LRU.Get: values changed through the returned reference.
- LruCache.LRU.MoveUp: the recency list is a sequence of nodes on the heap, spliced as a whole; its own links are not modelled.
- Trie.Trie.Find: letters other than 'a' to 'z', which index outside the array of the original.
- Trie.Trie.Insert: the array of children is a sequence field of its node; the destructor is not modelled.
- naesala/lockfree/lockfree_stack.h and naesala/lockfree/lockfree_list.h: the lock-free stack and queue, and the pool that rests on them.
- naesala/third/alignhash.h, the slab pool and its list, barrier, range, process statistics, durations and benchmarks.
