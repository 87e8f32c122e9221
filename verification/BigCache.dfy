/** bigcache's BigCache: routing of hashes to shards, and the iterator over all entries. */
module BigCache {
  import opened Bytes
  import opened Options
  import opened Encoding
  import opened ShardModel
  import opened ShardTheorems
  import opened ShardRuns
  import opened CacheShard
  import opened Sharding

  /** Two shards share no queue, array or buffer. */
  ghost predicate Apart(s: CacheShard, t: CacheShard)
    reads s, t, s.entries, t.entries
  {
    && s != t && s.entries != t.entries && s.entries.bytes != t.entries.bytes
    && s.entryBuffer != t.entryBuffer && s.entryBuffer != t.entries.bytes
  }

  class BigCache {
    const shards: seq<CacheShard>
    const hash: seq<byte> -> uint64

    /** At least one shard, each in order, and every hash in the shard the mask sends it to. */
    ghost predicate Valid()
      reads this, shards
      reads set s | s in shards :: s.entries
      reads set s | s in shards :: s.entries.bytes
    {
      && |shards| >= 1
      && (forall i :: 0 <= i < |shards| ==> shards[i].Valid())
      && Routed()
    }

    /** Every hash is in the shard the mask sends it to. */
    ghost predicate Routed()
      requires |shards| >= 1
      reads shards
    {
      forall i, h :: 0 <= i < |shards| && h in shards[i].hashmap ==> ShardOf(h, |shards|) == i
    }

    ghost predicate Separate()
      reads this, shards
      reads set s | s in shards :: s.entries
    {
      forall i, j :: 0 <= i < |shards| && 0 <= j < |shards| && i != j ==> Apart(shards[i], shards[j])
    }

    constructor (made: seq<CacheShard>, hasher: seq<byte> -> uint64)
      ensures shards == made && hash == hasher
    {
      shards := made;
      hash := hasher;
    }

    /** The shard that getShard picks. */
    function IndexOf(key: seq<byte>): (i: nat)
      requires |shards| >= 1
      ensures i < |shards|
    {
      ShardOf(hash(key), |shards|)
    }

    method Get(key: seq<byte>) returns (r: GetResult)
      requires Valid()
      ensures r == ShardModel.Get(shards[IndexOf(key)].State(), hash(key), key)
    {
      assert shards[IndexOf(key)] in shards;
      r := shards[IndexOf(key)].Get(key, hash(key));
    }

    /** Set changes one shard, the one its hash belongs to, and keeps every hash where the mask sends it. */
    method Set(key: seq<byte>, value: seq<byte>, now: uint64) returns (status: Status)
      requires Valid() && Separate()
      requires shards[IndexOf(key)].entries.capacity < UINT32_LIMIT && HEADERS_SIZE + |key| + |value| < UINT32_LIMIT
      modifies shards[IndexOf(key)], shards[IndexOf(key)].entries, shards[IndexOf(key)].entries.bytes,
               shards[IndexOf(key)].entryBuffer
      ensures Outcome(shards[IndexOf(key)].State(), status)
           == ShardModel.Set(old(shards[IndexOf(key)].State()), now, hash(key), key, value)
      ensures forall j :: 0 <= j < |shards| && j != IndexOf(key) ==>
                shards[j].Valid() && shards[j].State() == old(shards[j].State())
      ensures Routed() && Separate()
      ensures Inv(shards[IndexOf(key)].State()) && !GrowsOverGap(old(shards[IndexOf(key)].State()), now, hash(key), key, value)
              ==> Valid()
    {
      hide GrowsOverGap, Inv, ShardOf, ShardModel.Set, CacheShard.Owned, CacheShard.Valid, CacheShard.State;
      ghost var i := IndexOf(key);
      assert forall j :: 0 <= j < |shards| ==> shards[j] in shards;
      ValidState(shards[i]);
      SetMapsOnly(shards[i].State(), now, hash(key), key, value);
      status := shards[IndexOf(key)].Set(key, hash(key), value, now);
      StateIndex(shards[i]);
      hide Valid;
      assert Routed();
      if !GrowsOverGap(old(shards[i].State()), now, hash(key), key, value) && Inv(shards[i].State()) {
        OwnedBySet(old(shards[i].State()), shards[i], now, hash(key), key, value);
        AllInOrder(this);
      }
    }
  }

  lemma AllInOrder(c: BigCache)
    requires |c.shards| >= 1 && c.Routed() && forall i :: 0 <= i < |c.shards| ==> c.shards[i].Valid()
    ensures c.Valid()
  {
  }

  /** The set's push has to grow a wrapped queue whose gap the filler does not cover. */
  predicate GrowsOverGap(s: Shard, now: uint64, h: uint64, key: seq<byte>, value: seq<byte>) {
    BeforeOverwrite(s, now, h).q.LeavesHole(HEADERS_SIZE + |key| + |value|)
  }

  lemma OwnedBySet(before: Shard, s: CacheShard, now: uint64, h: uint64, key: seq<byte>, value: seq<byte>)
    requires !GrowsOverGap(before, now, h, key, value)
    requires !BeforeOverwrite(before, now, h).q.LeavesHole(HEADERS_SIZE + |key| + |value|) ==> s.Owned()
    ensures s.Owned() && (Inv(s.State()) ==> s.Valid())
  {
  }

  lemma ValidState(s: CacheShard)
    requires s.Valid()
    ensures Inv(s.State()) && s.State().index == s.hashmap
  {
  }

  lemma StateIndex(s: CacheShard)
    ensures s.State().index == s.hashmap
  {
  }

  /** newBigCache: an error unless the number of shards is a power of two; then as many separate, empty shards. */
  method NewBigCache(shardCount: nat, initialCapacity: nat, maximum: int, bufferSize: nat, lifeWindow: uint64,
                     hasher: seq<byte> -> uint64)
    returns (r: Option<BigCache>)
    requires shardCount >= 1
    ensures r.Some? <==> IsPowerOfTwo(shardCount)
    ensures r.Some? ==>
              && fresh(r.value) && r.value.Valid() && r.value.Separate() && r.value.hash == hasher
              && |r.value.shards| == shardCount
              && forall i :: 0 <= i < shardCount ==>
                   r.value.shards[i].State() == NewShard(initialCapacity, maximum, lifeWindow)
  {
    hide CacheShard.Valid;
    if !IsPowerOfTwo(shardCount) {
      return None;
    }
    var shards: seq<CacheShard> := [];
    for i := 0 to shardCount
      invariant |shards| == i
      invariant forall j :: 0 <= j < i ==>
                  && shards[j].Valid() && shards[j].State() == NewShard(initialCapacity, maximum, lifeWindow)
                  && shards[j].hashmap == map[]
      invariant forall j, k :: 0 <= j < i && 0 <= k < i && j != k ==> Apart(shards[j], shards[k])
    {
      var s := new CacheShard(initialCapacity, maximum, bufferSize, lifeWindow);
      shards := shards + [s];
    }
    var cache := new BigCache(shards, hasher);
    return Some(cache);
  }

  /** set maps no hash but its own anew. */
  lemma SetMapsOnly(s: Shard, now: uint64, h: uint64, key: seq<byte>, value: seq<byte>)
    requires Inv(s)
    ensures forall g :: g in ShardModel.Set(s, now, h, key, value).shard.index ==> g in s.index || g == h
  {
    BeforeOverwriteKeeps(s, now, h);
    BeforeOverwriteShrinks(s, now, h);
    InsertShrinks(BeforeOverwrite(s, now, h), Wrapped(now, h, key, value), h, h);
  }

  /** What the iterator shows of an entry. */
  datatype EntryInfo = NoEntry | EntryInfo(timestamp: uint64, hash: uint64, key: Read, value: Read)

  function InfoOf(data: seq<byte>): EntryInfo
    requires |data| >= HEADERS_SIZE
  {
    EntryInfo(ReadTimestamp(data), ReadHash(data), ReadKey(data), ReadEntry(data))
  }

  /** The info of an entry as wrapEntry builds it is what it was built from. */
  lemma InfoOfWrapped(timestamp: uint64, hash: uint64, key: seq<byte>, value: seq<byte>)
    requires |key| <= MAX_KEY
    ensures InfoOf(Wrapped(timestamp, hash, key, value)) == EntryInfo(timestamp, hash, Got(key), Got(value))
  {
    WrappedReadsBack(timestamp, hash, key, value);
  }

  /** What get answers in the shard of the hash. */
  ghost function Lookup(c: BigCache, h: uint64, key: seq<byte>): GetResult
    requires |c.shards| >= 1
    reads c, c.shards
    reads set s | s in c.shards :: s.entries
  {
    var s := c.shards[ShardOf(h, |c.shards|)];
    assert s in c.shards;
    ShardModel.Get(s.State(), h, key)
  }

  /** The info's key and value are exactly the pair that get finds under its hash. */
  ghost predicate Truthful(c: BigCache, info: EntryInfo)
    requires |c.shards| >= 1
    reads c, c.shards
    reads set s | s in c.shards :: s.entries
  {
    && info.EntryInfo?
    && forall k, v :: Lookup(c, info.hash, k) == Found(v) <==> info.key == Got(k) && info.value == Got(v)
  }

  lemma ShownIsFound(it: EntryInfoIterator)
    requires it.Valid() && it.cache.Valid() && it.ShowsCurrent()
    ensures Truthful(it.cache, it.currentEntryInfo) && it.currentEntryInfo.hash == it.elements[it.currentIndex]
  {
    hide CacheShard.Valid, ReadKey, ReadEntry, ReadTimestamp, ReadHash, Find;
    var s := it.cache.shards[it.currentShard];
    assert s in it.cache.shards;
    var h := it.elements[it.currentIndex];
    assert ShardOf(h, |it.cache.shards|) == it.currentShard;
  }

  /** Some shard holds an entry under the hash. */
  ghost predicate Stored(c: BigCache, h: uint64)
    reads c, c.shards
  {
    exists i :: 0 <= i < |c.shards| && h in c.shards[i].hashmap
  }

  class EntryInfoIterator {
    const cache: BigCache
    var currentShard: nat
    var currentIndex: int
    var currentEntryInfo: EntryInfo
    var elements: seq<uint64>
    var valid: bool

    /** The iterator's own state: hashes copied from one shard, each once, and a position among them. */
    ghost predicate Valid()
      reads this
    {
      && -1 <= currentIndex && currentShard < |cache.shards|
      && (forall i, j :: 0 <= i < j < |elements| ==> elements[i] != elements[j])
      && (forall h :: h in elements ==> ShardOf(h, |cache.shards|) == currentShard)
    }

    /** The copied hashes the iterator has not come to yet. */
    ghost function Rest(): seq<uint64>
      requires -1 <= currentIndex
      reads this
    {
      if currentIndex < |elements| then elements[currentIndex + 1..] else []
    }

    /** The hash is stored, and the iterator has still to come to it. */
    ghost predicate Pending(h: uint64)
      requires |cache.shards| >= 1 && -1 <= currentIndex
      reads this, cache.shards
    {
      var i := ShardOf(h, |cache.shards|);
      i < |cache.shards| && h in cache.shards[i].hashmap && (i > currentShard || (i == currentShard && h in Rest()))
    }

    /** newIterator: every stored hash is pending. */
    constructor (c: BigCache)
      requires c.Valid()
      ensures cache == c && Valid() && !valid
      ensures forall h: uint64 :: Pending(h) <==> Stored(c, h)
    {
      var keys := c.shards[0].CopyHashedKeys();
      cache := c;
      currentShard := 0;
      currentIndex := -1;
      currentEntryInfo := NoEntry;
      elements := keys;
      valid := false;
      new;
      assert c.shards[0] in c.shards;
      assert Rest() == keys;
    }

    /**
      SetNext: moves to a pending hash and shows its entry, or reports that none is left. Entries may vanish
      at any time: `gone` are the hashes whose entries other threads remove while the call runs, after it has
      copied them. Those, and hashes whose entries had gone before the call, are passed over.
     */
    method SetNext(gone: set<uint64>) returns (more: bool)
      requires Valid() && cache.Valid()
      modifies this
      ensures Valid() && cache.Valid() && valid == more
      ensures more ==> 0 <= currentIndex < |elements| && ShowsCurrent()
      ensures more ==> currentEntryInfo.EntryInfo? && currentEntryInfo.hash == elements[currentIndex]
      ensures more ==> Truthful(cache, currentEntryInfo)
      ensures more ==> var h := elements[currentIndex]; h !in gone && old(Pending(h)) && !Pending(h)
      ensures forall g: uint64 :: Pending(g) ==> old(Pending(g))
      ensures forall g: uint64 :: old(Pending(g)) && !Pending(g) ==> g in gone || (more && g == elements[currentIndex])
      ensures !more ==> forall g: uint64 :: !Pending(g)
      ensures more ==> Later(old(currentShard), old(currentIndex), old(elements))
      decreases |cache.shards| - currentShard, Left(), 1
    {
      hide CacheShard.Valid, ShowsCurrent, ShardOf, Truthful;
      RestStep(elements, currentIndex + 1);
      valid := false;
      currentIndex := currentIndex + 1;
      if |elements| > currentIndex {
        valid := true;
        var empty := SetCurrentEntry(gone);
        if empty {
          more := SetNext(gone);
          return;
        }
        return true;
      }
      assert Rest() == [] && old(Rest()) == [];
      assert forall g: uint64 :: Pending(g) <==> old(Pending(g));
      more := NextShard(gone);
    }

    /** How many of the copied hashes are left, the current one included. */
    function Left(): nat
      reads this
    {
      if currentIndex < |elements| then |elements| - currentIndex else 0
    }

    /** The position is beyond the given one. */
    ghost predicate Later(shard: nat, index: int, copied: seq<uint64>)
      reads this
    {
      currentShard > shard || (currentShard == shard && elements == copied && currentIndex > index)
    }

    lemma RestStep(es: seq<uint64>, i: nat)
      ensures i < |es| ==> forall h :: h in es[i..] <==> h == es[i] || h in es[i + 1..]
      ensures i < |es| && (forall j, k :: 0 <= j < k < |es| ==> es[j] != es[k]) ==> es[i] !in es[i + 1..]
    {
    }

    /** The second half of SetNext: go on to the next shard that holds anything. */
    method NextShard(gone: set<uint64>) returns (more: bool)
      requires Valid() && cache.Valid() && |elements| <= currentIndex && !valid
      modifies this
      ensures Valid() && cache.Valid() && valid == more
      ensures more ==> 0 <= currentIndex < |elements| && ShowsCurrent()
      ensures more ==> currentEntryInfo.EntryInfo? && currentEntryInfo.hash == elements[currentIndex]
      ensures more ==> Truthful(cache, currentEntryInfo)
      ensures more ==> var h := elements[currentIndex]; h !in gone && old(Pending(h)) && !Pending(h)
      ensures forall g: uint64 :: Pending(g) ==> old(Pending(g))
      ensures forall g: uint64 :: old(Pending(g)) && !Pending(g) ==> g in gone || (more && g == elements[currentIndex])
      ensures !more ==> forall g: uint64 :: !Pending(g)
      ensures more ==> Later(old(currentShard), old(currentIndex), old(elements))
      decreases |cache.shards| - currentShard, Left(), 0
    {
      hide CacheShard.Valid, ShowsCurrent, ShardOf, Truthful;
      var i := currentShard + 1;
      while i < |cache.shards|
        invariant currentShard + 1 <= i <= |cache.shards| && currentShard == old(currentShard)
        invariant Valid() && cache.Valid() && !valid && |elements| <= currentIndex
        invariant forall g: uint64 :: Pending(g) <==> old(Pending(g))
        invariant forall j :: currentShard < j < i ==> cache.shards[j].hashmap == map[]
      {
        EnterShard(i);
        if |elements| > 0 {
          ghost var first := elements[0];
          var empty := SetCurrentEntry(gone);
          if empty {
            assert first in gone;
            more := SetNext(gone);
            return;
          }
          return true;
        }
        i := i + 1;
      }
      return false;
    }

    /** Copies the hashes of a shard and, if there are any, stands on the first of them. */
    method EnterShard(i: nat)
      requires Valid() && cache.Valid() && |elements| <= currentIndex && !valid
      requires currentShard < i < |cache.shards|
      requires forall j :: currentShard < j < i ==> cache.shards[j].hashmap == map[]
      modifies this`elements, this`currentIndex, this`currentShard, this`valid
      ensures Valid() && cache.Valid()
      ensures valid <==> elements != []
      ensures elements == [] ==>
                && currentShard == old(currentShard) && currentIndex == old(currentIndex)
                && cache.shards[i].hashmap == map[] && forall g: uint64 :: Pending(g) <==> old(Pending(g))
      ensures elements != [] ==>
                && currentShard == i && currentIndex == 0
                && var h := elements[0];
                   && h in cache.shards[i].hashmap && old(Pending(h)) && !Pending(h)
                   && forall g: uint64 :: old(Pending(g)) <==> g == h || Pending(g)
    {
      hide CacheShard.Valid, ShardOf;
      assert cache.shards[i] in cache.shards;
      elements := cache.shards[i].CopyHashedKeys();
      if |elements| > 0 {
        RestStep(elements, 0);
        assert elements[0..] == elements;
        currentIndex := 0;
        currentShard := i;
        valid := true;
      }
    }

    ghost predicate ShowsCurrent()
      requires |cache.shards| >= 1
      reads this, cache.shards
      reads set s | s in cache.shards :: s.entries
    {
      && 0 <= currentIndex < |elements| && currentShard < |cache.shards|
      && var s := cache.shards[currentShard];
         var h := elements[currentIndex];
         && h in s.hashmap
         && var data := Find(s.State().q.Records(), s.hashmap[h]);
            |data| >= HEADERS_SIZE && HashOf(data) == h && currentEntryInfo == InfoOf(data)
    }

    /** setCurrentEntry: true if the entry is gone by the time it is looked up. */
    method SetCurrentEntry(gone: set<uint64>) returns (empty: bool)
      requires Valid() && cache.Valid() && 0 <= currentIndex < |elements|
      modifies this`currentEntryInfo
      ensures Valid() && cache.Valid()
      ensures empty <==> elements[currentIndex] !in cache.shards[currentShard].hashmap || elements[currentIndex] in gone
      ensures !empty ==> ShowsCurrent()
      ensures !empty ==> currentEntryInfo.EntryInfo? && currentEntryInfo.hash == elements[currentIndex]
      ensures !empty ==> Truthful(cache, currentEntryInfo)
      ensures empty ==> currentEntryInfo == NoEntry
    {
      hide CacheShard.Valid, ShardOf, ReadKey, ReadEntry, ReadHash, ReadTimestamp, Find, Truthful;
      assert cache.shards[currentShard] in cache.shards;
      var entry := cache.shards[currentShard].GetEntry(elements[currentIndex]);
      if entry.None? || elements[currentIndex] in gone {
        currentEntryInfo := NoEntry;
        return true;
      }
      currentEntryInfo := InfoOf(entry.value);
      ShownIsFound(this);
      return false;
    }
  }

  /** Iterating over an unchanged cache shows every stored hash exactly once, with the very pairs that get finds. */
  method VisitAll(c: BigCache) returns (visited: seq<EntryInfo>)
    requires c.Valid()
    ensures forall i :: 0 <= i < |visited| ==> visited[i].EntryInfo? && Truthful(c, visited[i])
    ensures forall i, j :: 0 <= i < j < |visited| ==> visited[i].hash != visited[j].hash
    ensures forall h: uint64 :: Stored(c, h) <==> exists i :: 0 <= i < |visited| && visited[i].hash == h
    ensures forall h, k, v :: Lookup(c, h, k) == Found(v) ==>
              exists i :: 0 <= i < |visited| && visited[i].hash == h && visited[i].key == Got(k) && visited[i].value == Got(v)
  {
    hide CacheShard.Valid, BigCache.Valid, ShardOf, Stored, EntryInfoIterator.Pending, EntryInfoIterator.ShowsCurrent,
         Truthful, Lookup;
    visited := [];
    ghost var hashes: seq<uint64> := [];
    var it := new EntryInfoIterator(c);
    var more := it.SetNext({});
    while more
      invariant it.Valid() && c.Valid() && it.cache == c && fresh(it)
      invariant |c.shards| >= 1 && AllTruthful(c, visited, hashes)
      invariant more ==> 0 <= it.currentIndex < |it.elements| && it.elements[it.currentIndex] !in hashes
                         && !it.Pending(it.elements[it.currentIndex])
                         && Truthful(c, it.currentEntryInfo)
                         && it.currentEntryInfo.EntryInfo? && it.currentEntryInfo.hash == it.elements[it.currentIndex]
      invariant forall i, j :: 0 <= i < j < |hashes| ==> hashes[i] != hashes[j]
      invariant forall h: uint64 :: h in hashes ==> !it.Pending(h)
      invariant forall h: uint64 :: Stored(c, h) <==>
                  h in hashes || it.Pending(h) || (more && h == it.elements[it.currentIndex])
      invariant !more ==> forall h: uint64 :: !it.Pending(h)
      decreases more, |c.shards| - it.currentShard, |it.elements| - it.currentIndex
    {
      AllTruthfulAppend(c, visited, hashes, it.currentEntryInfo);
      visited := visited + [it.currentEntryInfo];
      hashes := hashes + [it.elements[it.currentIndex]];
      more := it.SetNext({});
    }
    PairsVisited(c, visited, hashes);
  }

  ghost predicate AllTruthful(c: BigCache, visited: seq<EntryInfo>, hashes: seq<uint64>)
    requires |c.shards| >= 1
    reads c, c.shards
    reads set s | s in c.shards :: s.entries
  {
    && |visited| == |hashes|
    && (forall i :: 0 <= i < |visited| ==> Truthful(c, visited[i]))
    && (forall i :: 0 <= i < |visited| ==> visited[i].EntryInfo? && visited[i].hash == hashes[i])
  }

  lemma AllTruthfulAppend(c: BigCache, visited: seq<EntryInfo>, hashes: seq<uint64>, info: EntryInfo)
    requires |c.shards| >= 1 && AllTruthful(c, visited, hashes) && Truthful(c, info)
    ensures AllTruthful(c, visited + [info], hashes + [info.hash])
  {
  }

  /** Infos for all stored hashes, each truthful, have all the pairs that can be found. */
  lemma PairsVisited(c: BigCache, visited: seq<EntryInfo>, hashes: seq<uint64>)
    requires c.Valid() && AllTruthful(c, visited, hashes)
    requires forall h: uint64 :: Stored(c, h) <==> h in hashes
    ensures forall h: uint64 :: Stored(c, h) <==> exists i :: 0 <= i < |visited| && visited[i].hash == h
    ensures forall h, k, v :: Lookup(c, h, k) == Found(v) ==>
              exists i :: 0 <= i < |visited| && visited[i].hash == h && visited[i].key == Got(k) && visited[i].value == Got(v)
  {
    hide CacheShard.Valid, ReadKey, ReadEntry, Find, ShardOf;
    forall h: uint64 ensures Stored(c, h) <==> exists i :: 0 <= i < |visited| && visited[i].hash == h {
      assert h in hashes <==> exists i :: 0 <= i < |visited| && hashes[i] == h;
    }
    forall h, k, v | Lookup(c, h, k) == Found(v)
      ensures exists i :: 0 <= i < |visited| && visited[i].hash == h && visited[i].key == Got(k) && visited[i].value == Got(v)
    {
      FoundIsStored(c, h, k);
      var i :| 0 <= i < |visited| && visited[i].hash == h;
      assert Truthful(c, visited[i]);
    }
  }

  lemma FoundIsStored(c: BigCache, h: uint64, key: seq<byte>)
    requires c.Valid() && Lookup(c, h, key).Found?
    ensures Stored(c, h)
  {
    assert h in c.shards[ShardOf(h, |c.shards|)].hashmap;
  }
}
