# Caches, proved

A Dafny model of four caching components and proofs of what each of them is for. Run
`dafny verify dfyconfig.toml`.

- **bigcache**: a growable ring of length-prefixed records in one byte array
  (`RingLayout`, `RingRuns`, `BytesQueue`, `QueueHole`, over `Varint` and `Bytes`), the entry encoding (`Encoding`), the
  shard that keeps a map from hashes to offsets in step with those bytes (`ShardModel`, `ShardTheorems`,
  `ShardEffects`, `ShardRuns`, `ShardLedger`, `ShardAges`, `ShardCorners`, `CacheShard`), and the sharded cache with its iterator
  (`Sharding`, `BigCache`).
- **golang-lru**: simplelru (`Recency`, `SimpleLru`, `LruRuns`), ARC (`ArcModel`, `ArcEffects`, `ArcCache`) and 2Q
  (`TwoQueueModel`, `TwoQueueEffects`, `TwoQueueCache`), with `CacheRuns` for what both are asked to do.
- **groupcache**: singleflight for any number of threads (`Singleflight`), the LRU list and the byte-counted caches
  (`GroupLru`, `ByteCacheModel`, `GroupCache`), the whole fill protocol of `Group.Get` for any number of
  threads (`FillProtocol`, `FillSteps`), and its eviction loop under interference (`EvictionRace`).
- **consistenthash** (`ConsistentHash`).

## How it is built

Each component that updates state in place is a class with the source's fields (`Queue` over a real
`array<byte>`, `CacheShard`, `BigCache`, `EntryInfoIterator`, `LRU`, `ARCCache`, `TwoQueueCache`, `Cache`, `ByteCache`,
`Group`, `Map`). Its methods are proved against functions on abstract states: `ensures State() == Spec(old(State()))`,
together with the invariant. The theorems are lemmas about those functions, so they hold of the methods:
what each operation does to every part of the state, in terms of the state before it,
invariants of every step, of every run, refinement of a sequence, conservation, and exact conditions where
a property fails. Slices that the source lets alias the queue's array are offset and length (`Slice`), and the shard
tombstones through them. The two concurrent components are step relations: a state, an `Enabled` predicate and a `Next`
function per event of a thread, with runs as arbitrary sequences of enabled events.

`onRemove`, `onEvict` and `OnEvicted` callbacks are a log of calls, or a returned entry. Clock readings, hash functions, the
outcome of asking a peer or the getter, and the choice to mirror a peer's value are parameters.

A run of a shard is *safe* (`SafeRun`) when each write has a non-zero hash and a key of at most 65517 bytes,
stays within 32-bit offsets, does not grow the queue over a boundary gap, and does not fail over a mapped hash in the way
that leaves its offset dangling. The invariant of the shard is not part of that: it is proved of every state such a run reaches.
`FixedCapacityRunsAreSafe` gives conditions on the operations alone.

## Where the code falls short of its comments

Each of these has its exact condition, and a concrete state or run where one is needed.

- The filler written on growth is a byte short for certain gaps, which breaks the record chain
  (`FillerMissesBoundaryGaps`, `PushValid`, `HoleBreaksChain`, `BoundaryGapIsReachable`); Pop then delivers a record
  that no one pushed and loses one (`HoleMisleadsReads`, `RecordIsLost`).
- A `set` or `append` that fails for size over a mapped hash leaves the old offset in the map, pointing into an empty queue,
  unless another record carries that hash (`SetKeepsInvariantIff`, `AppendKeepsInvariantIff`, `FailedSetDangles`).
- An `append` that meets another key under its hash does not tombstone the old record. Unless the append drops that record
  to make room it is an orphan, and evicting it later unmaps the live entry (`AppendOrphans`,
  `OrphanTakesMappingDown`, `LiveEntryIsLost`).
- ARC documents `size` as its total capacity; one corner holds `size + 1` residents (`AddExceedsIff`, `SizeIsExceeded`). 2Q has
  the same corner, only when `recentSize = size`.
- `New2Q` refuses a size of 1, because half of it leaves the ghost list no room.
- A key of more than 65517 bytes does not read back from its entry (`WrappedReadsBack`).
- groupcache's `cache.add` overcounts when the key is present (`AddKeepsExactIff`), and an overcount could make
  `populateCache` spin (`OvercountSpins`). The second look inside singleflight is what rules it out (`ByteCountsExact`).
- `populateCache` reads its two byte counts one after the other, so a thread may decide to evict although the caches fit, or from
  an empty cache (`StaleVictimIsReachable`), but only on a count of main that is too high by then (`EvictionDecision`). The loops
  end all the same, even when the cache chosen is emptied before the eviction (`LoopEnds`).
- Nodes of a hash ring whose names differ by a leading digit collide under every hash function once there are 20 replicas
  (`DigitNamesCollide`), and then the order of adding them matters (`OrderMattersIff`).

## Model

| member | source | states |
|---|---|---|
| Varint.UvarintSizeExact | bigcache/queue/bytes_queue.go:51-63 | The queue's size table gives the length of the varint the encoder writes, for every uint32. |
| Varint.UvarintRoundTrip | bigcache/queue/bytes_queue.go:264-272 | Reading a record's header returns the length written and the header's size, whatever bytes follow. |
| Varint.UvarintFormat | bigcache/queue/bytes_queue.go:163-179 | The format: seven bits a byte, least significant group first, the high bit set on all bytes but the last. |
| RingLayout.RecordsDisjoint | bigcache/queue/bytes_queue.go:163-179 | In a valid queue no two live records share a byte, wrapped or not. |
| RingLayout.RecordBetweenCursors | bigcache/queue/bytes_queue.go:119-161 | Every live record lies between the cursors: never in the tail-to-head gap, never beyond the right margin, never outside the array. |
| RingLayout.RoomForRecord | bigcache/queue/bytes_queue.go:95-117 | Wherever Push decides to write (after tail, at the left margin, in the gap, or in a grown array), the record fits the array and touches no live record; Push then appends exactly that record. |
| RingLayout.FillerMissesBoundaryGaps | bigcache/queue/bytes_queue.go:137-148 | The filler written on growth covers the gap exactly for every gap except 128-129, 16384-16386, 2097152-2097155 and 268435456-268435460, where it is one byte short. |
| RingLayout.GrowValid | bigcache/queue/bytes_queue.go:119-161 | Growth keeps the layout invariant whenever the filler covers the gap. |
| RingLayout.PlaceValid | bigcache/queue/bytes_queue.go:163-179 | Writing a record where there is room keeps the layout (contiguous runs, full iff tail meets head) and appends the record. |
| RingLayout.PushValid | bigcache/queue/bytes_queue.go:95-117 | Push keeps the layout invariant if and only if it does not grow the array over a gap the filler misses. |
| RingLayout.HoleBreaksChain | bigcache/queue/bytes_queue.go:137-148 | Growth over a boundary gap breaks the layout: the filler ends one byte before the record that should follow it. |
| RingLayout.PushRecords | bigcache/queue/bytes_queue.go:95-161 | As a sequence, Push appends; growth of a wrapped or full queue turns older ++ wrapped into wrapped ++ zero filler (if there is a gap) ++ older, then appends. |
| RingLayout.PushPlaces | bigcache/queue/bytes_queue.go:95-161 | Where Push puts a record and how large the array then is, in numbers: behind the last record if it fits; else in the gap before head if it fits exactly or leaves 17 bytes; else refused if 0 < maxCapacity <= capacity + need; else in an array of twice the size (twice capacity + need if the capacity is less than the need), cut to a positive maxCapacity, and never less than capacity + need. |
| RingLayout.CapacityKept | bigcache/queue/bytes_queue.go:95-161 | Push never shrinks the array and never takes it beyond a positive limit it was within; Pop and Reset leave it alone. |
| RingLayout.PopRemovesFirst | bigcache/queue/bytes_queue.go:188-209 | Pop removes exactly the first record, which is the one at head, and keeps the layout. |
| RingLayout.RefusesWhenTooBig | bigcache/queue/bytes_queue.go:99-109 | A record with need > capacity - 1 and 0 < maxCapacity <= capacity + need is refused in every state; an empty queue refuses nothing else. |
| RingLayout.EvictionsAreNeeded | bigcache/queue/bytes_queue.go:99-109 | The number of evictions that make room is the least: before each of them the record is refused, after the last it is not. |
| RingLayout.PushKeepsRoomy | bigcache/queue/bytes_queue.go:276-305 | With records of at least 16 bytes a wrapped queue's gap is 0 or at least 17, so every filler has 16 readable zero bytes. |
| RingLayout.PopKeepsRoomy | bigcache/queue/bytes_queue.go:188-209 | Pop keeps that gap rule. |
| RingRuns.RunValid | bigcache/queue/bytes_queue.go:95-209 | The layout invariant holds after every run of Push, Pop and Reset that does not grow over a boundary gap. |
| RingRuns.OffsetStable | bigcache/queue/bytes_queue.go:95-222 | Over any such run, the offset Push handed out stays that record's, with the same bytes, through wrap-around, in-gap pushes and reallocation, until the record is popped or the queue reset. |
| RingRuns.RunKeepsLimit | bigcache/queue/bytes_queue.go:95-209 | Over every safe run the array stays within maxCapacity and never shrinks. |
| RingRuns.FixedCapacityIsFifo | bigcache/queue/bytes_queue.go:99-109 | Created with its capacity at a positive limit, the queue never grows and is a strict FIFO: what was popped followed by what is left is what was there followed by what was accepted. |
| RingRuns.BoundaryGapIsReachable | bigcache/queue/bytes_queue.go:135-153 | A concrete run of four operations on a fresh 220-byte queue reaches a 128-byte gap, and the next growing push breaks the layout. |
| QueueHole.ReadChain | bigcache/queue/bytes_queue.go:188-209 | Along a chain of stored records successive reads deliver exactly the records, in order. |
| QueueHole.HoleMisleadsReads | bigcache/queue/bytes_queue.go:188-209 | What reading in Pop's way then delivers: the wrapped records, the filler, then a record no one pushed, as long as the stray byte in the hole says; if that byte is 0 the older records follow, and the count runs out before the record whose push made the hole. |
| QueueHole.RecordIsLost | bigcache/queue/bytes_queue.go:95-209 | The same on the queue itself: after five operations four records are counted and four Pops succeed, the third delivers a record no one pushed, and the last record pushed is never delivered. |
| BytesQueue.Queue.constructor | bigcache/queue/bytes_queue.go:68-79 | A new queue is empty, valid, and has all cursors at the left margin. |
| BytesQueue.Queue.Reset | bigcache/queue/bytes_queue.go:82-89 | Reset empties the queue and restores validity even after a hole, keeping the array. |
| BytesQueue.Queue.Push | bigcache/queue/bytes_queue.go:95-117 | The array, cursors and count follow the abstract queue; the returned offset is that of the last record, whose bytes are in the array beside all earlier ones; the array never shrinks or outgrows maxCapacity, and without growth no other byte changes; error exactly when refused, and then nothing changes; valid after iff growth leaves no hole, and the byte in a hole is the old one. |
| BytesQueue.Queue.EnsureRoom | bigcache/queue/bytes_queue.go:99-109 | The space decision: fails exactly when Push refuses, otherwise no stored record is lost and tail is where the record will go. |
| BytesQueue.Queue.AllocateAdditionalMemory | bigcache/queue/bytes_queue.go:119-161 | Growth replaces the array by a fresh one that has at least the bytes needed more, is within a positive maxCapacity, and holds every record, filler included, in the rotated order. |
| BytesQueue.Queue.Reallocate | bigcache/queue/bytes_queue.go:119-134 | Copying the part of the old array left of the right margin loses no record. |
| BytesQueue.Queue.Unwrap | bigcache/queue/bytes_queue.go:135-153 | The rotation: wrapped records, then the filler if there is a gap, then the older records, all still readable in the array, even when the filler is a byte short, in which case the byte it misses stays. |
| BytesQueue.Queue.WriteFiller | bigcache/queue/bytes_queue.go:137-148 | The filler is stored beside all records. |
| BytesQueue.Queue.Put | bigcache/queue/bytes_queue.go:163-179 | The unexported push writes header and data at tail, changes no other byte, and moves the cursors as the abstract queue does. |
| BytesQueue.Queue.Copy | bigcache/queue/bytes_queue.go:182-184 | Copies as many bytes as fit, as Go's copy does, and moves tail by that many. |
| BytesQueue.Queue.Pop | bigcache/queue/bytes_queue.go:188-209 | On any queue: the three errors change nothing; otherwise head moves behind whatever is read there, and from the right margin to the left one. On a valid queue that is the removal of the first record, whose data the returned slice shows. Demanded is only that Go's slice bounds are in range. |
| BytesQueue.Queue.HeadReads | bigcache/queue/bytes_queue.go:188-216 | On a valid queue head is where the first record is read, so Pop and Peek never run out of bounds there. |
| BytesQueue.Queue.Skip | bigcache/queue/bytes_queue.go:196-206 | The cursors' move in Pop. |
| BytesQueue.Queue.Peek | bigcache/queue/bytes_queue.go:213-216 | Shows what is read at head without removing it, or the error; on a valid queue the first record. |
| BytesQueue.Queue.Get | bigcache/queue/bytes_queue.go:219-222 | For an offset of a live record, the slice of the array that is that record's data, also after growth has left a hole; at any other index what the bytes there look like; the three error cases. |
| BytesQueue.Queue.PeekAt | bigcache/queue/bytes_queue.go:247-272 | Decodes the header at the index and returns the slice behind it; at a live record exactly its data and header length. Demanded is only that Go's slice bounds are in range. |
| BytesQueue.RecordReads | bigcache/queue/bytes_queue.go:264-272 | A stored record reads, from the raw array, as exactly its data, and the next read is behind its end. |
| Encoding.WrappedReadsBack | bigcache/encoding.go:15-87 | Timestamp and hash always read back; key and value read back if and only if the key has at most 65517 bytes (where headersSizeInBytes + length wraps in uint16). |
| Encoding.AppendedReadsBack | bigcache/encoding.go:34-87 | appendToWrappedEntry keeps key and hash, sets the timestamp, and makes the value old ++ new. |
| Encoding.EntryLayout | bigcache/encoding.go:15-31 | The layout: little-endian timestamp (8 bytes), hash (8) and key length (2), then the key, then the value. |
| Encoding.TombstonedReadsBack | bigcache/encoding.go:90-92 | resetKeyFromEntry makes the hash 0 and changes no other field. |
| Encoding.WrapEntry | bigcache/encoding.go:15-31 | The bytes written are the entry, whatever the reuse buffer held before and whether or not it was large enough. |
| Encoding.AppendToWrappedEntry | bigcache/encoding.go:34-47 | The same for the appended entry. |
| Encoding.ResetKey | bigcache/encoding.go:90-92 | Writing through the slice zeroes the hash field in the queue's array and no other byte. |
| ShardModel.RingZeroAtKeeps | bigcache/shard.go:135-139 | Tombstoning a record in place keeps the queue's layout and all other records. |
| ShardModel.TombstoneKeepsOthers | bigcache/shard.go:135-139 | After tombstoning the entry of h, every other mapped hash still leads to a live record with that hash. |
| ShardModel.RemoveOldestKeeps | bigcache/shard.go:342-359 | Evicting the oldest record leaves no mapping dangling and adds none. |
| ShardModel.PushKeeps | bigcache/shard.go:149-154 | Storing an entry maps its hash to it and leaves every other mapping pointing at its record, also when the push grows and rotates the queue. |
| ShardModel.InsertCorrect | bigcache/shard.go:149-161 | The evict-and-retry loop ends; it stores and maps the entry unless need > capacity - 1 and 0 < maxCapacity <= capacity + need, in which case it fails with an empty queue. |
| ShardEffects.InsertDrops | bigcache/shard.go:149-161 | The push loop drops the oldest records, as many as have to go and each reported as NoSpace, and nothing else. |
| ShardEffects.ExpiredIff | bigcache/shard.go:291-298 | The age test, with the clock's wrap-around written out. |
| ShardTheorems.SetCorrect | bigcache/shard.go:129-162 | set succeeds exactly when the emptied queue could take the entry; then get returns the value. The shard invariant holds afterwards if and only if it succeeded or h is unmapped. |
| ShardEffects.SetEffect | bigcache/shard.go:129-162 | Everything set does to what it was not asked about, on the records before it: the old record of the hash is silenced; the oldest record leaves if its age, counted in uint64, exceeds lifeWindow, and is reported as Expired; then as many more as the space takes leave, reported as NoSpace; exactly their hashes are unmapped; every other hashed record and mapping stays. |
| ShardEffects.OthersFoundAsBefore | bigcache/shard.go:65-104 | After a set or append, get finds a key of another hash exactly as before if none of the records that left carried its hash, and not at all otherwise. |
| ShardTheorems.SetKeepsInvariantIff | bigcache/shard.go:135-161 | In any shard that satisfies the invariant: set breaks it if and only if it fails for size over a mapped hash whose record is the only live one with that hash; the map is then left with the old offset alone, and with nothing otherwise. |
| ShardTheorems.TombstoneLeavesOrphans | bigcache/shard.go:135-139 | After tombstoning the record h is mapped to, exactly its orphans still carry h. |
| ShardTheorems.FailedOverwriteIndex | bigcache/shard.go:149-161 | What a failed overwrite leaves in the map, orphans or not: an orphan takes the mapping down when the failing loop evicts it. |
| ShardTheorems.AppendCorrect | bigcache/shard.go:165-233 | append on a cached key makes its value old ++ new; on an absent or colliding key it stores the value alone; failure as for set. |
| ShardEffects.AppendEffect | bigcache/shard.go:208-233 | The same for append, which silences the old record exactly when the key is cached. |
| ShardTheorems.AppendKeepsInvariantIff | bigcache/shard.go:208-233 | append breaks the invariant if and only if the key is cached and the overwrite dangles as set's does; an absent or colliding key never does. |
| ShardTheorems.DeleteCorrect | bigcache/shard.go:253-288 | del unmaps its hash, reports exactly the entry removed, and changes the outcome of no other get. |
| ShardTheorems.CleanUpCorrect | bigcache/shard.go:301-311 | cleanUp ends, removes exactly the expired records at the front, and stops at the first that is not. |
| ShardEffects.CleanUpEffect | bigcache/shard.go:301-311 | cleanUp drops and reports as Expired exactly the overdue records at the front, unmaps exactly their hashes, and stops at the first that is not overdue. |
| ShardCorners.FailedSetDangles | bigcache/shard.go:135-161 | A concrete shard of 100 bytes on which a set of 200 bytes over a mapped hash empties the queue and leaves the old offset in the map. |
| ShardRuns.FillersHaveNoHash | bigcache/queue/bytes_queue.go:137-148 | A filler reads as a tombstone, so the shard skips it on eviction. |
| ShardRuns.InsertAddsOnly | bigcache/shard.go:149-161 | The push loop brings in no hashed record but the new entry. |
| ShardRuns.StepKeepsInv | bigcache/shard.go:129-368 | Every safe operation keeps the invariant: each map entry leads to the start of a live record with its hash. |
| ShardRuns.RunKeepsInv | bigcache/shard.go:129-368 | So it holds in every state that a safe run reaches, from the invariant of the first state alone. |
| ShardRuns.RunKeepsLimit | bigcache/shard.go:129-368 | Over every safe run a shard's array stays within its size limit. |
| ShardRuns.SetAgrees | bigcache/shard.go:129-162 | set keeps: every mapped entry is readable, belongs to its hash and holds its key's latest value; the other keys of the hash are displaced. |
| ShardRuns.AppendAgrees | bigcache/shard.go:208-233 | append keeps the same, also when it meets another key under its hash. |
| ShardRuns.DeleteAgrees | bigcache/shard.go:253-288 | del leaves nothing readable of the keys of its hash, and every other mapped entry its key's latest value. |
| ShardRuns.StepAgrees | bigcache/shard.go:129-368 | Every operation keeps that agreement. |
| ShardRuns.RunAgrees | bigcache/shard.go:129-368 | Every safe run keeps the invariant and that agreement. |
| ShardRuns.GetIsLatest | bigcache/shard.go:65-104 | After any safe run of a new shard, get(key) is "not found" or exactly the bytes of the latest successful Set/Append of that key, and only if neither a Delete or another key's write under its hash nor a reset came after it; also under hash collisions. |
| ShardRuns.FixedCapacityRunsAreSafe | bigcache/shard.go:129-233 | On a shard of fixed capacity any run of Set, Append, Delete, cleanUp and reset is safe as soon as every key written has a non-zero hash, at most 65517 bytes, and room for all that the run writes under it. |
| ShardLedger.SetLedger | bigcache/shard.go:129-162 | What was live or reported before set, plus the new entry if it was stored, is what is live or reported after it, plus the overwritten entry. |
| ShardLedger.AppendLedger | bigcache/shard.go:208-233 | The same for append; a colliding entry is not dropped. |
| ShardLedger.StepLedger | bigcache/shard.go:129-368 | Every operation balances the ledger of entries. |
| ShardLedger.RunLedger | bigcache/shard.go:129-368 | So does every safe run. |
| ShardLedger.NothingLost | bigcache/shard.go:129-368 | Over a safe run of a new shard, counted with multiplicity: entries stored = entries live + entries passed to onRemove + entries silently overwritten or reset away. |
| ShardLedger.SetKeepsNoOrphans | bigcache/shard.go:129-162 | set leaves every hashed record the one its hash is mapped to. |
| ShardLedger.AppendKeepsNoOrphans | bigcache/shard.go:208-233 | So does append when it does not collide. |
| ShardLedger.AppendOrphans | bigcache/shard.go:165-233 | A colliding append makes an orphan if and only if the entry it collides with is not among the oldest records it has to drop, one for expiry and then as many as the entry needs; counted on the state before the call. |
| ShardLedger.CollidingInsert | bigcache/shard.go:149-161 | The push loop leaves the colliding record at position k alone exactly when fewer than k + 1 evictions make room. |
| ShardLedger.OrphanTakesMappingDown | bigcache/shard.go:342-359 | Evicting an orphan deletes the mapping of the live entry that replaced it, which then cannot be found although it is still in the queue. |
| ShardCorners.LiveEntryIsLost | bigcache/shard.go:165-233 | A safe run of three operations (set of one key, append of another under the same hash, a cleaning that expires the first) after which a live, unexpired entry is in the queue and get does not find it. |
| ShardLedger.RunKeepsNoOrphans | bigcache/shard.go:129-368 | Safe runs without colliding appends keep the shard free of orphans. |
| ShardLedger.IndexIsBijection | bigcache/shard.go:129-368 | After such a run of a new shard, map entries and records with a hash are in bijection; both directions are conclusions. |
| ShardLedger.FoundIffHeld | bigcache/shard.go:65-104 | After such a run, get finds a key, with its latest value, exactly as long as the queue holds a live entry of it. |
| ShardAges.RunKeepsOrder | bigcache/shard.go:129-162 | With fixed capacity and a clock that does not go back, the queue's records stay in time order, tombstones included. |
| ShardAges.CleanUpOfOrdered | bigcache/shard.go:291-311 | On records in time order cleanUp leaves only records within the life window. |
| ShardAges.CleanUpLeavesNoneExpired | bigcache/shard.go:291-311 | Hence after any such run of a new shard cleanUp leaves no record older than the life window. |
| CacheShard.StoredAfterTombstone | bigcache/shard.go:135-139 | Zeroing the hash bytes through the slice, in the array, is tombstoning that one record; all others stay readable. |
| CacheShard.CacheShard.constructor | bigcache/shard.go:445-465 | A new shard is empty and satisfies the invariant. |
| CacheShard.CacheShard.GetWrappedEntry | bigcache/shard.go:88-104 | The slice returned is the array part of the live record mapped to h; none exactly when h is unmapped. |
| CacheShard.CacheShard.ResetEntry | bigcache/shard.go:135-139 | Tombstones the entry of h in the array and keeps queue and array in step. |
| CacheShard.CacheShard.RemoveOldestEntry | bigcache/shard.go:342-359 | Pops the oldest record; unmaps and reports it unless it is a tombstone; fails exactly on an empty queue. |
| CacheShard.CacheShard.EvictIfExpired | bigcache/shard.go:291-298 | Drops and reports the oldest record exactly when it is past the life window, with uint64 wrap-around of the age. |
| CacheShard.CacheShard.PushEvicting | bigcache/shard.go:149-161 | The loop on the real queue ends and comes to the outcome that InsertCorrect describes. |
| CacheShard.CacheShard.Set | bigcache/shard.go:129-162 | set on the real array, map and buffer comes to the outcome that SetCorrect describes; the array and the buffer stay its own and apart. |
| CacheShard.CacheShard.Append | bigcache/shard.go:208-233 | append on the real array, map and buffer comes to the outcome that AppendCorrect describes. |
| CacheShard.CacheShard.Get | bigcache/shard.go:65-85 | get, read out of the array, is what the theorems about runs speak of. |
| CacheShard.CacheShard.Delete | bigcache/shard.go:253-288 | del reports whether the hash was mapped, keeps the invariant, and comes to the state that DeleteCorrect describes. |
| CacheShard.CacheShard.CleanUp | bigcache/shard.go:301-311 | cleanUp ends, keeps the invariant, and comes to the state that CleanUpCorrect describes. |
| CacheShard.CacheShard.GetEntry | bigcache/shard.go:314-325 | A copy of the entry mapped to h, which carries hash h and a full header; none exactly when h is unmapped. |
| CacheShard.CacheShard.CopyHashedKeys | bigcache/shard.go:328-339 | Every mapped hash exactly once, in any order. |
| CacheShard.CacheShard.Reset | bigcache/shard.go:362-368 | reset forgets all entries without onRemove and restores the invariant, also after a hole or a dangling offset. |
| Sharding.MaskIsRemainder | bigcache/bigcache.go:240-242 | Masking a hash with 2^k - 1 is taking its remainder by 2^k. |
| Sharding.PowerOfTwoCheck | bigcache/utils.go:23-25 | The bit test accepts a positive number exactly when it is a power of two. |
| Sharding.ShardsPartition | bigcache/bigcache.go:240-242 | With an accepted shard count every hash has exactly one shard, its remainder class. |
| BigCache.NewBigCache | bigcache/bigcache.go:55-109 | Fails exactly when the shard count is not a power of two; otherwise that many empty shards sharing no queue, array or buffer. |
| BigCache.SetMapsOnly | bigcache/shard.go:129-162 | set maps no hash but its own anew, so every hash stays in the shard the mask sends it to. |
| BigCache.BigCache.Get | bigcache/bigcache.go:125-129 | Get is the get of the one shard the key's hash belongs to. |
| BigCache.BigCache.Set | bigcache/bigcache.go:143-147 | Set changes only its own shard, keeps all shards apart and every hash in its shard, and keeps the whole cache valid when that shard's set does. |
| BigCache.EntryInfoIterator.constructor | bigcache/iterator.go:127-137 | A new iterator has exactly the stored hashes before it. |
| BigCache.EntryInfoIterator.SetNext | bigcache/iterator.go:63-101 | Returns true exactly when a stored hash is still to come whose entry is there when looked at; shows that hash with the very key and value that get finds, and takes off those to come only that hash and hashes whose entries vanish while the call runs. Its recursion ends on (shards left, elements left) whatever vanishes. |
| BigCache.EntryInfoIterator.NextShard | bigcache/iterator.go:81-101 | The part that goes on to the next shard with entries, with the same promise, the recursive call for a vanished first entry included. |
| BigCache.EntryInfoIterator.EnterShard | bigcache/iterator.go:81-90 | Copying a shard's hashes and standing on the first leaves exactly the others to come. |
| BigCache.EntryInfoIterator.SetCurrentEntry | bigcache/iterator.go:103-125 | Shows the current hash with the key and value that get finds, or shows nothing and says that the entry has gone, before the call or since. |
| BigCache.InfoOfWrapped | bigcache/iterator.go:116-119 | The info of an entry is the timestamp, hash, key and value it was built from. |
| BigCache.ShownIsFound | bigcache/iterator.go:103-125 | The key and value shown are exactly the pair that get finds under the hash shown, which is the current one. |
| BigCache.VisitAll | bigcache/iterator.go:63-137 | Calling SetNext until it returns false on an unchanged cache shows every stored hash of all shards exactly once, and the pairs shown are exactly the pairs that get finds. |
| Recency.AddedKeys | golang-lru/simplelru/lru.go:51-70 | Adding keeps keys distinct and length within size, puts the pair first, and lets go of the least recently used key only, and only when a new key meets a full list. |
| Recency.TouchedKeys | golang-lru/simplelru/lru.go:73-82 | A use changes the order and nothing else. |
| Recency.WithoutCuts | golang-lru/simplelru/lru.go:103-109 | Removing a key cuts out its entry and keeps the order of the others. |
| SimpleLru.NewLRU | golang-lru/simplelru/lru.go:26-37 | Fails exactly for a size that is not positive. |
| SimpleLru.LRU.Contains | golang-lru/simplelru/lru.go:86-89 | Answers from the map what holds of the list, without touching the order. |
| SimpleLru.LRU.Peek | golang-lru/simplelru/lru.go:93-99 | The value the list holds for the key, without touching the order. |
| SimpleLru.LRU.Add | golang-lru/simplelru/lru.go:51-70 | Map and list stay in step; an eviction happens exactly when a new key exceeds the size, and the callback gets exactly the entry that fell off. |
| SimpleLru.LRU.Get | golang-lru/simplelru/lru.go:73-82 | Finds what the list holds and makes it the most recently used. |
| SimpleLru.LRU.Remove | golang-lru/simplelru/lru.go:103-109 | Removes exactly that key; one callback with its entry if it was present, none otherwise. |
| SimpleLru.LRU.RemoveOldest | golang-lru/simplelru/lru.go:112-120 | Removes and reports the least recently used entry, once. |
| SimpleLru.LRU.RemoveLast | golang-lru/simplelru/lru.go:162-177 | Removing the back element keeps map and list in step and fires the callback once. |
| SimpleLru.LRU.Resize | golang-lru/simplelru/lru.go:149-159 | Keeps the most recent newSize entries (none for a negative size), calls back once per entry dropped, oldest first, and returns the surplus. |
| SimpleLru.LRU.KeysOldestFirst | golang-lru/simplelru/lru.go:133-141 | The keys from least to most recently used. |
| SimpleLru.LRU.Purge | golang-lru/simplelru/lru.go:40-48 | Empties the cache with exactly one callback per entry, in any order. |
| LruRuns.HoldsMostRecent | golang-lru/simplelru/lru.go:51-82 | After any run of Add and Get the cache holds exactly the size most recently used distinct keys, latest first, where uses are Adds and successful Gets. |
| ArcModel.ReplaceKeeps | golang-lru/arc.go:180-193 | replace takes one resident to its own ghost list, or does nothing, exactly when t1 is within its target and t2 is empty; ghosts exceed size by at most one. |
| ArcEffects.ReplaceMoves | golang-lru/arc.go:180-193 | replace takes the least recently used entry, from t1 if that has entries and is over its target, or at it on a b2 hit, otherwise from t2; the key becomes the first of that list's own ghosts; the other lists are unchanged. |
| ArcEffects.TargetMoves | golang-lru/arc.go:105-146 | p moves on ghost hits only: up on a b1 hit, down on a b2 hit, by how many times the other ghost list goes over the hit one, or by 1, within [0, size]. |
| ArcModel.TrimKeeps | golang-lru/arc.go:166-172 | Trimming each ghost list by at most one key brings the ghosts back within size. |
| ArcModel.HitKeeps | golang-lru/arc.go:88-101 | Adding a cached key keeps the invariant and makes it the most recent of t2; nothing else enters the cache. |
| ArcModel.GhostHitKeeps | golang-lru/arc.go:105-159 | Re-admitting a ghost keeps the invariant and 0 <= p <= size, never divides by zero, and exceeds size exactly in the corner that AddExceedsIff names. |
| ArcModel.MissKeeps | golang-lru/arc.go:161-175 | A miss keeps the invariant and never brings a cache within size above it. |
| ArcModel.AddKeeps | golang-lru/arc.go:85-176 | Add keeps the invariant (p in range, the four lists disjoint, |b1|+|b2| <= size, residents <= size + 1), caches the pair, and brings nothing else into the cache. |
| ArcEffects.KnownKeyIsPromoted | golang-lru/arc.go:85-159 | A key that any of the four lists has ends first in t2 and in no other list. |
| ArcEffects.HitEffect | golang-lru/arc.go:86-101 | Adding a cached key moves its entry to the front of t2 and changes nothing else; within size nothing is evicted. |
| ArcEffects.GhostHitEffect | golang-lru/arc.go:105-159 | A ghost hit replaces one entry exactly if the cache is full, on the moved target, takes the key off its ghost list and puts it first in t2. |
| ArcEffects.MissEffect | golang-lru/arc.go:161-175 | A miss replaces one entry exactly if the cache is full, drops the oldest ghost of b1 exactly if b1 is over size - p and of b2 exactly if it is over p, and puts the key first in t1. |
| ArcEffects.RoomMeansNoEviction | golang-lru/arc.go:85-176 | With room, Add evicts nothing. |
| ArcModel.AddExceedsIff | golang-lru/arc.go:105-193 | From within size, Add exceeds it if and only if the key is in b1, t1 holds size entries, t2 is empty and p rises to size, which it does if p + 1 >= size or b2 has at least (size - p) times as many keys as b1. |
| ArcModel.SizeIsExceeded | golang-lru/arc.go:18 | Three Adds to a cache of size 1 leave it with two residents. |
| ArcModel.GetKeeps | golang-lru/arc.go:63-82 | Get keeps the invariant and the cached value, and adds no resident. |
| ArcEffects.GetEffect | golang-lru/arc.go:63-82 | A lookup moves the entry it finds to the front of t2, from either list, and changes nothing else. |
| ArcModel.RemoveLeavesNone | golang-lru/arc.go:212-227 | Remove stops at the first list that has the key, and still leaves it in none. |
| ArcModel.RunKeeps | golang-lru/arc.go:63-237 | Every run of Add, Get, Remove and Purge keeps the invariant and that every resident holds the value last added under its key and not removed or purged since. |
| ArcModel.ArcSound | golang-lru/arc.go:31-256 | After any run of a new cache the bounds and disjointness hold, and Peek finds nothing or the value last added and not removed or purged since. |
| ArcCache.NewARC | golang-lru/arc.go:31-60 | Fails exactly for a size that is not positive. |
| ArcCache.ARCCache.constructor | golang-lru/arc.go:31-60 | Four separate LRU caches of the full size, p = 0, invariant established. |
| ArcCache.ARCCache.Get | golang-lru/arc.go:63-82 | On the four LRU caches: returns the cached value, promotes a t1 hit to t2, keeps the invariant. |
| ArcCache.ARCCache.Add | golang-lru/arc.go:85-176 | On the four LRU caches: the state the ArcModel theorems are about, invariant kept. |
| ArcCache.ARCCache.RaiseTarget | golang-lru/arc.go:107-117 | p grows by the ratio of the ghost lists, at least 1, up to size. |
| ArcCache.ARCCache.LowerTarget | golang-lru/arc.go:136-146 | p shrinks by the ratio of the ghost lists, at least 1, down to 0. |
| ArcCache.ARCCache.AddMissing | golang-lru/arc.go:161-175 | Makes room, trims the ghosts and adds to t1. |
| ArcCache.ARCCache.Replace | golang-lru/arc.go:180-193 | Takes the victim from the list the target names to its ghost list. |
| ArcCache.ARCCache.Remove | golang-lru/arc.go:212-227 | On the four LRU caches: the key is in none afterwards, invariant kept. |
| ArcCache.ARCCache.Purge | golang-lru/arc.go:230-237 | All four lists empty, each entry reported once, the learned p kept, invariant kept. |
| TwoQueueModel.EnsureSpaceKeeps | golang-lru/2q.go:144-162 | A full cache loses exactly one resident, except when frequent is empty and recent is within its share; disjointness kept. |
| TwoQueueEffects.EnsureSpaceMoves | golang-lru/2q.go:144-162 | A cache with room is left alone. A full one loses the least recently used entry of recent if that has entries and is over its share, or at it unless a key is readmitted, and its key becomes the first ghost; otherwise it loses the least recently used entry of frequent. |
| TwoQueueModel.HitKeeps | golang-lru/2q.go:116-126 | Promoting a key drops no key from frequent while recentSize < size. |
| TwoQueueModel.ReadmitKeeps | golang-lru/2q.go:131-137 | Re-admitting a key drops no key from frequent beyond the one ensureSpace chose, while recentSize < size. |
| TwoQueueModel.MissKeeps | golang-lru/2q.go:139-141 | A new key never brings a cache within size above it. |
| TwoQueueModel.AddKeeps | golang-lru/2q.go:110-141 | Add keeps the three lists disjoint and the residents within size (size + 1 when recentSize = size), caches the pair and brings in nothing else. |
| TwoQueueEffects.KnownKeyIsPromoted | golang-lru/2q.go:110-137 | A key that any of the three lists has ends first in frequent and in no other list. |
| TwoQueueEffects.HitEffect | golang-lru/2q.go:116-126 | Adding a cached key moves its entry to the front of frequent and changes nothing else. |
| TwoQueueEffects.ReadmitEffect | golang-lru/2q.go:131-137 | Readmitting takes the key off the ghosts and puts it first in frequent, after ensureSpace. |
| TwoQueueEffects.MissEffect | golang-lru/2q.go:139-141 | A new key comes first in recent, after ensureSpace. |
| TwoQueueModel.AddExceedsIff | golang-lru/2q.go:110-162 | From within size, Add exceeds it if and only if recentSize = size, recent holds size entries, frequent is empty and the key is re-admitted. |
| TwoQueueModel.SizeIsExceeded | golang-lru/2q.go:110-162 | Three Adds to an all-recent cache of size 1 leave it with two residents. |
| TwoQueueModel.GetKeeps | golang-lru/2q.go:88-107 | Get keeps the invariant and the cached value, and loses no key of frequent while recentSize < size. |
| TwoQueueEffects.GetEffect | golang-lru/2q.go:88-107 | A lookup moves the entry it finds to the front of frequent, from either list, and changes nothing else. |
| TwoQueueModel.RemoveLeavesNone | golang-lru/2q.go:182-194 | Remove stops at the first list that has the key, and still leaves it in none. |
| TwoQueueModel.RunKeeps | golang-lru/2q.go:88-203 | Every run of Add, Get, Remove and Purge keeps the invariant and that every resident holds the value last added under its key and not removed or purged since. |
| TwoQueueModel.TwoQueueSound | golang-lru/2q.go:47-222 | After any run of a new cache the bounds and disjointness hold, and Peek finds nothing or the value last added and not removed or purged since. |
| TwoQueueCache.New2QParams | golang-lru/2q.go:47-85 | Succeeds exactly for a positive size, ratios from 0 to 1, and a ghost list with room; the cache then has the truncated shares. |
| TwoQueueCache.New2Q | golang-lru/2q.go:41-43 | With the default ratios a size of 1 is refused too; otherwise the cache's size is never exceeded. |
| TwoQueueCache.TwoQueueCache.constructor | golang-lru/2q.go:60-84 | Three separate LRU caches, invariant established. |
| TwoQueueCache.TwoQueueCache.Get | golang-lru/2q.go:88-107 | On the three LRU caches: returns the cached value, promotes a recent hit, keeps the invariant. |
| TwoQueueCache.TwoQueueCache.Add | golang-lru/2q.go:110-141 | On the three LRU caches: the state the TwoQueueModel theorems are about, invariant kept. |
| TwoQueueCache.TwoQueueCache.EnsureSpace | golang-lru/2q.go:144-162 | Takes the victim from recent (remembering its key) or from frequent. |
| TwoQueueCache.TwoQueueCache.Remove | golang-lru/2q.go:182-194 | On the three LRU caches: the key is in none afterwards, invariant kept. |
| TwoQueueCache.TwoQueueCache.Purge | golang-lru/2q.go:197-203 | All three lists empty, invariant kept. |
| Singleflight.NextKeepsInv | groupcache/singleflight/singleflight.go:41-64 | Every step of any thread keeps: a leader's key is mapped to its own call, a mapped call has its leader at work, followers wait on a call for their key, returned results are their call's. |
| Singleflight.OneLeaderPerKey | groupcache/singleflight/singleflight.go:41-64 | At most one thread runs fn for a key at any moment. |
| Singleflight.ResultWrittenOnce | groupcache/singleflight/singleflight.go:56-57 | A call's result, once written, never changes, and done is never undone. |
| Singleflight.FinishStores | groupcache/singleflight/singleflight.go:56 | What fn gives is stored in the call of the thread that ran it, which is for its key, and nowhere else. |
| Singleflight.EnterJoinsOrStarts | groupcache/singleflight/singleflight.go:42-54 | A thread that asks for a key waits on the call under way for it, or starts the only new one. |
| Singleflight.ReturnsCallResult | groupcache/singleflight/singleflight.go:47-63 | Leader and followers return their call's result, each once. |
| Singleflight.DeleteRemovesOwnCall | groupcache/singleflight/singleflight.go:59-61 | The leader's delete always removes its own call. |
| Singleflight.NoEarlyReturn | groupcache/singleflight/singleflight.go:46-50 | A follower can return exactly when its call is done, and then the result is there. |
| Singleflight.WaiterHasLeader | groupcache/singleflight/singleflight.go:46-57 | No follower is abandoned: until its call is done, its leader has a step to take. |
| Singleflight.RunKeepsInv | groupcache/singleflight/singleflight.go:41-64 | The invariant holds in every interleaving of any number of threads. |
| Singleflight.SameCallSameResult | groupcache/singleflight/singleflight.go:41-64 | In every interleaving, the leader and all followers of a call return the same pair. |
| ByteCacheModel.AddKeepsExactIff | groupcache/groupcache.go:437-451 | Adding keeps the byte count exact if and only if the key is absent (or both it and its value are empty); otherwise it overcounts by exactly the replaced entry. |
| ByteCacheModel.GetKeepsExact | groupcache/groupcache.go:453-466 | Looking up keeps the count exact and the entries the same. |
| ByteCacheModel.RemoveOldestKeepsExact | groupcache/groupcache.go:468-474 | Evicting keeps the count exact. |
| ByteCacheModel.EighthRule | groupcache/groupcache.go:375-378 | The hot cache gives way if and only if eight times what it holds is more than what main holds. |
| ByteCacheModel.VictimNotEmpty | groupcache/groupcache.go:375-379 | With exact counts, both true at one moment, the cache chosen by the one-eighth rule always has an entry to give. |
| ByteCacheModel.ShrinkFits | groupcache/groupcache.go:365-380 | Undisturbed, the eviction loop ends with mainBytes + hotBytes <= cacheBytes, keeps the most recent entries of each cache, and its last eviction was needed. |
| ByteCacheModel.OvercountSpins | groupcache/groupcache.go:365-380 | Counts that exceed what is stored by more than the limit make the loop turn for ever: after any number of evictions the test still fails. |
| GroupLru.Cache.Add | groupcache/lru/lru.go:61-79 | The pair comes first; over a positive limit the least recently used entry goes and is reported; limit 0 evicts nothing. |
| GroupLru.Cache.Get | groupcache/lru/lru.go:83-92 | Finds what the list holds and makes it the most recently used. |
| GroupLru.Cache.Remove | groupcache/lru/lru.go:96-103 | Removes and reports exactly that key's entry. |
| GroupLru.Cache.RemoveOldest | groupcache/lru/lru.go:107-124 | Removes and reports the least recently used entry. |
| GroupCache.ByteCache.Add | groupcache/groupcache.go:437-451 | Creates the list on first use; count and entries change together as AddKeepsExactIff describes. |
| GroupCache.ByteCache.Get | groupcache/groupcache.go:453-466 | Counts the lookup and the hit, returns what the list holds. |
| GroupCache.ByteCache.RemoveOldest | groupcache/groupcache.go:468-474 | The callback takes exactly the evicted entry's size off the count and counts one eviction. |
| GroupCache.Group.LookupCache | groupcache/groupcache.go:344-354 | A miss exactly when neither cache has the key; exact counts and key sets are kept. |
| GroupCache.Group.PopulateCache | groupcache/groupcache.go:357-381 | Run by one thread on an absent key, ends with both caches exact, disjoint and together within cacheBytes; with caching off it changes nothing. |
| GroupCache.Group.EvictToLimit | groupcache/groupcache.go:365-380 | The loop on the real caches ends, within the limit, in the state that ShrinkFits describes. |
| GroupCache.Group.EvictOne | groupcache/groupcache.go:375-379 | One eviction takes the last entry of hot if 8 * hotBytes > mainBytes and of main otherwise; that cache has one. |
| FillProtocol.CachesChange | groupcache/groupcache.go:344-381 | Whatever step any thread takes, both counts stay exact and no key is in both caches; only a fill lets a cache grow, and only by the filling thread's key. |
| FillProtocol.OthersKeep | groupcache/groupcache.go:277-280 | One thread's step never makes another thread's second look stale: a key found missing inside fn stays missing until its own thread adds it. |
| FillProtocol.ResponsibilityKept | groupcache/groupcache.go:357-381 | While the caches are over the limit some thread is in the eviction loop and will not leave it. |
| FillProtocol.NextKeepsInv | groupcache/groupcache.go:222-381 | Every step of every thread keeps the whole invariant. |
| FillProtocol.SomeoneCanMove | groupcache/groupcache.go:253-310 | No deadlock: while a Get is under way, some thread in a Get has a step to take. |
| FillProtocol.NextKeepsKnown | groupcache/groupcache.go:222-381 | Every step keeps: what is cached, in flight, stored in a call or answered was given for its key by a peer or the getter. |
| FillProtocol.RunKeeps | groupcache/groupcache.go:222-381 | The invariant holds in every interleaving of any number of threads. |
| FillProtocol.ByteCountsExact | groupcache/groupcache.go:253-381 | In every interleaving mainCache.nbytes and hotCache.nbytes are the sums of the sizes stored, no key is in both caches, and the limit holds whenever no thread is in the eviction loop. |
| FillProtocol.OneFetchPerKey | groupcache/groupcache.go:253-310 | At most one thread at a time is loading a given key. |
| FillProtocol.AnswersReceived | groupcache/groupcache.go:222-310 | In every interleaving every answer of every Get, value or failure, is one that a peer or the getter gave during the run to a thread fetching that key: no Get fails, or sees a value, that no one was given. |
| FillProtocol.ReceiptHappened | groupcache/groupcache.go:292-309 | What counts as given names an event of the run, a peer's or the getter's answer to a thread that was fetching the key. |
| FillProtocol.AnswersRight | groupcache/groupcache.go:222-310 | With honest peers and getter, every answer is the value of the key it asked for, or a failure that the getter gave for that key. |
| FillSteps.StartLooks | groupcache/groupcache.go:222-228 | A Get begins with a look for its own key. |
| FillSteps.LookMainAnswers | groupcache/groupcache.go:344-351 | A look that hits main is answered with exactly the value stored there; a miss goes on to hot; without caching the Get loads. |
| FillSteps.LookHotAnswers | groupcache/groupcache.go:352-354 | The same for hot, a miss going on to load. |
| FillSteps.LoadJoinsOrLeads | groupcache/groupcache.go:255 | A thread that loads waits on the call of its key or leads a new one and looks again. |
| FillSteps.SecondLookHandsOn | groupcache/groupcache.go:277-280 | The second look hands exactly the value found to the call; a miss in both caches goes on to fetch. |
| FillSteps.ReceivedIsHandedOn | groupcache/groupcache.go:283-309 | What a peer or the getter gives is cached in the cache meant for it or handed to the call, unchanged; a failure is handed to the call. |
| FillSteps.FillAdds | groupcache/groupcache.go:361 | A fill puts the entry first in the cache meant for it, adds its size to that count and leaves the other cache alone. |
| FillSteps.LoopTurns | groupcache/groupcache.go:365-380 | The loop stops exactly when the counts read fit the limit, chooses hot exactly when eight times its count exceeds main's, and hands on the value it came with. |
| FillSteps.EvictTakesLast | groupcache/groupcache.go:379 | An eviction takes the least recently used entry of the cache chosen, and its size off the count. |
| FillSteps.FinishStores | groupcache/groupcache.go:255-305 | fn's result becomes that of the call the thread leads, which is for its key. |
| FillSteps.CallIsAnswered | groupcache/groupcache.go:306-309 | The leader and each follower answer their call's result for the key they asked for, and only then. |
| EvictionRace.EvictionDecision | groupcache/groupcache.go:365-380 | What a thread that decides to evict can rely on in any reachable state: the cache chosen is empty exactly when main is empty and hot is within an eighth of what main was read to hold; on a count of main that is still true the caches are over the limit and the one chosen has an entry. |
| EvictionRace.StaleVictimIsReachable | groupcache/groupcache.go:365-380 | A run of two threads after which one is about to evict from an empty main cache although the caches fit the limit, because it read main's count before the other's eviction. |
| EvictionRace.LoopStepFalls | groupcache/groupcache.go:365-380 | Under any interference each turn of each thread's loop either removes an entry, or makes a stale thread start afresh, or makes no thread stale and gets further. |
| EvictionRace.OtherStepKeeps | groupcache/groupcache.go:222-381 | No other step but a fill touches what the loops depend on. |
| EvictionRace.LoopEnds | groupcache/groupcache.go:365-380 | In any run of any threads without further fills the eviction loops of all threads together take a bounded number of turns. |
| EvictionRace.EveryLoopEnds | groupcache/groupcache.go:365-380 | So from every reachable state: once no one fills, the loops under way end. |
| ConsistentHash.AddNodesPoints | groupcache/consistenthash/consistenthash.go:54-63 | Adding nodes removes no point; a point keeps its owner or goes to an added node. |
| ConsistentHash.AddMovesOnlyToAdded | groupcache/consistenthash/consistenthash.go:54-82 | Adding nodes to a non-empty ring moves a key only to one of the added nodes, even when points collide. |
| ConsistentHash.AddTwice | groupcache/consistenthash/consistenthash.go:54-63 | One Add of two lists is two Adds. |
| ConsistentHash.OrderMattersIff | groupcache/consistenthash/consistenthash.go:54-63 | The order of adding two different nodes is irrelevant if and only if they share no point. |
| ConsistentHash.DigitNamesCollide | groupcache/consistenthash/consistenthash.go:54-63 | Nodes whose names differ by a leading digit share a point under every hash function once there are 20 replicas (11 more than the digit suffice), replica 10 + d of one being replica 1 of the other. |
| ConsistentHash.OrderIrrelevant | groupcache/consistenthash/consistenthash.go:54-63 | Without collisions the ring depends only on the set of nodes added. |
| ConsistentHash.OwnerIsHolder | groupcache/consistenthash/consistenthash.go:54-63 | In a ring built from nothing the points are exactly the nodes' replica points, each owned by a node that has it. |
| ConsistentHash.SortInts | groupcache/consistenthash/consistenthash.go:62 | The sorted points are a permutation of the points. |
| ConsistentHash.PointIsHashOfName | groupcache/consistenthash/consistenthash.go:57-59 | A replica's point is the hash of its decimal numeral followed by the node's name. |
| ConsistentHash.ReplicaNamesDiffer | groupcache/consistenthash/consistenthash.go:57-59 | The replicas of one node are hashed under different names. |
| ConsistentHash.Map.Add | groupcache/consistenthash/consistenthash.go:54-63 | The ring's sorted points are exactly the points with an owner, and the owners are those the theorems speak of. |
| ConsistentHash.Map.Get | groupcache/consistenthash/consistenthash.go:66-82 | The owner of the smallest point at or after the key's hash, wrapping to the smallest point; "" on an empty ring. |
| ConsistentHash.Map.Search | groupcache/consistenthash/consistenthash.go:74 | The binary search finds the first point at or after the hash. |

## Left out

Contracts stated for less than all inputs or states:

- BytesQueue.Queue.Push: not modelled on a queue in which an earlier growth has left a hole; nor for queues and records of 4 GiB or more, where the casts of lengths and gaps to uint32 lose bits.
- BytesQueue.Queue.EnsureRoom: as for Push.
- BytesQueue.Queue.AllocateAdditionalMemory: as for Push.
- BytesQueue.Queue.Reallocate: as for Push.
- BytesQueue.Queue.Get: an index at which Go's slice bounds are out of range panics in the source and is excluded here.
- CacheShard.CacheShard.GetWrappedEntry: not modelled on a shard in which a failed set has left a dangling offset, nor on a queue with a hole; hit and miss counters are not modelled.
- CacheShard.CacheShard.ResetEntry: as for GetWrappedEntry.
- CacheShard.CacheShard.RemoveOldestEntry: not modelled on a queue with a hole.
- CacheShard.CacheShard.EvictIfExpired: as for RemoveOldestEntry.
- CacheShard.CacheShard.PushEvicting: as for RemoveOldestEntry, and below 4 GiB.
- CacheShard.CacheShard.Set: as for GetWrappedEntry and PushEvicting.
- CacheShard.CacheShard.Append: as for Set.
- CacheShard.CacheShard.Get: as for GetWrappedEntry.
- CacheShard.CacheShard.GetEntry: as for GetWrappedEntry.
- CacheShard.CacheShard.CleanUp: as for GetWrappedEntry.
- CacheShard.CacheShard.Delete: as for GetWrappedEntry; and the pre-check under the read lock, whose answer the write-locked part takes again, is not modelled.
- ShardRuns.GetIsLatest: safe runs only; the exact limits of safety are PushValid, SetKeepsInvariantIff, AppendKeepsInvariantIff and WrappedReadsBack.
- ShardLedger.NothingLost: safe runs only, as above.
- BigCache.BigCache.Set: as for CacheShard.CacheShard.Set.
- BigCache.NewBigCache: a shard count of 0, which passes the power-of-two test, is not modelled.
- Sharding.ShardsPartition: as for NewBigCache.
- BigCache.EntryInfoIterator.SetNext: entries may vanish while a call runs and change in any way between calls, but entries that are added or overwritten while a call runs are not modelled.
- ByteCacheModel.OvercountSpins: a sufficient overcount; smaller ones spin or not depending on the order of evictions.
- GroupCache.Group.PopulateCache: one thread undisturbed; FillProtocol and EvictionRace have the interference.
- GroupCache.Group.EvictToLimit: as for PopulateCache.
- GroupCache.Group.EvictOne: as for PopulateCache.
- TwoQueueCache.New2QParams: ratios are real numbers, so the rounding of a float64 product is not modelled; the default ratios are powers of two, for which it is exact.
- BigCache.VisitAll: an unchanged cache; SetNext has the changes during and between calls.
- ConsistentHash.SortInts: stands for the standard library's sort, of which only the result matters.

Not modelled:

- `container/list` as linked nodes: the lists are sequences, front first.
- `headerBuffer` of the queue, which only saves an allocation.
- `getWithInfo`, whose expiry test uses `>=` where `onEvict` uses `>`: a read that adds one comparison.
- Statistics, `hashmapStats`, logging, the cleaning goroutine, `Close`, and `Len`/`Capacity`/`Stats` accessors.
- Hash quality (FNV-1a, CRC32): the hash is an arbitrary function, non-zero in the statements about bigcache runs.
- HTTP servers, peers' transport, protobuf, sinks and ByteView.
- go-cache: a locked map with expiry and many alike typed operations; it would only add easy members.
- A panic inside the function given to singleflight.
- `lru.Cache.Clear`, and overflow of `nbytes` in int64.
