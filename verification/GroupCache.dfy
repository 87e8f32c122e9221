/** groupcache's two byte-counted caches and the operations of Group on them, as one thread runs them. */
module GroupCache {
  import opened Bytes
  import opened Options
  import opened Recency
  import opened ByteCacheModel
  import GroupLru

  /** groupcache's cache: an unlimited lru.Cache made at the first add, with a count of its bytes. */
  class ByteCache {
    var nbytes: int
    var lru: GroupLru.Cache?<Key, Value>
    var nget: nat
    var nhit: nat
    var nevict: nat

    ghost function State(): Cache
      reads this, lru
    {
      Cache(nbytes, if lru == null then [] else lru.ll)
    }

    ghost predicate Valid()
      reads this, lru
    {
      lru != null ==> lru.Valid() && lru.maxEntries == 0
    }

    constructor ()
      ensures Valid() && State() == Cache(0, []) && lru == null
    {
      nbytes, nget, nhit, nevict := 0, 0, 0, 0;
      lru := null;
    }

    method Add(key: Key, value: Value)
      requires Valid()
      modifies this, lru
      ensures Valid() && State() == ByteCacheModel.Add(old(State()), key, value)
      ensures nevict == old(nevict) && (lru == old(lru) || fresh(lru))
    {
      if lru == null {
        lru := new GroupLru.Cache(0);
      }
      assert Without<Key, Value>([], key) == [];
      var _ := lru.Add(key, value);
      nbytes := nbytes + |key| + |value|;
    }

    method Get(key: Key) returns (r: Option<Value>)
      requires Valid()
      modifies this`nget, this`nhit, lru
      ensures Valid() && r == Lookup(old(State()).entries, key) && State() == ByteCacheModel.Get(old(State()), key)
      ensures nget == old(nget) + 1 && nhit == old(nhit) + if r.Some? then 1 else 0
    {
      nget := nget + 1;
      if lru == null {
        return None;
      }
      r := lru.Get(key);
      if r.Some? {
        nhit := nhit + 1;
      }
    }

    /** removeOldest, with the OnEvicted callback that the cache installs. */
    method RemoveOldest()
      requires Valid()
      modifies this`nbytes, this`nevict, lru
      ensures Valid() && State() == ByteCacheModel.RemoveOldest(old(State()))
      ensures nevict == old(nevict) + if old(State()).entries == [] then 0 else 1
    {
      if lru != null {
        var evicted := lru.RemoveOldest();
        if evicted.Some? {
          nbytes := nbytes - (|evicted.value.key| + |evicted.value.value|);
          nevict := nevict + 1;
        }
      }
    }
  }

  lemma CountsNotNegative(c: Cache)
    requires Exact(c)
    ensures c.nbytes >= 0
  {
  }

  class Group {
    const cacheBytes: int
    const mainCache: ByteCache
    const hotCache: ByteCache

    /** Two separate caches with exact counts and no key in common; both empty if caching is off. */
    ghost predicate Valid()
      reads this, mainCache, hotCache, mainCache.lru, hotCache.lru
    {
      && mainCache != hotCache && (mainCache.lru != null ==> mainCache.lru != hotCache.lru)
      && mainCache.Valid() && hotCache.Valid()
      && Exact(mainCache.State()) && Exact(hotCache.State())
      && Keys(mainCache.State().entries) !! Keys(hotCache.State().entries)
      && (cacheBytes <= 0 ==> mainCache.State().entries == [] && hotCache.State().entries == [])
    }

    constructor (limit: int)
      ensures Valid() && cacheBytes == limit && fresh(mainCache) && fresh(hotCache)
      ensures mainCache.State() == hotCache.State() == Cache(0, [])
    {
      cacheBytes := limit;
      mainCache := new ByteCache();
      hotCache := new ByteCache();
    }

    method LookupCache(key: Key) returns (r: Option<Value>)
      requires Valid()
      modifies mainCache, hotCache, mainCache.lru, hotCache.lru
      ensures Valid()
      ensures r.None? <==> Lookup(old(mainCache.State()).entries, key).None?
                           && Lookup(old(hotCache.State()).entries, key).None?
      ensures r.Some? ==> r == Lookup(old(mainCache.State()).entries, key)
                          || r == Lookup(old(hotCache.State()).entries, key)
      ensures Keys(mainCache.State().entries) == Keys(old(mainCache.State()).entries)
      ensures Keys(hotCache.State().entries) == Keys(old(hotCache.State()).entries)
    {
      hide Exact, Touched, Matches, ByteCache.Valid;
      r := None;
      if cacheBytes > 0 {
        GetKeepsExact(mainCache.State(), key);
        GetKeepsExact(hotCache.State(), key);
        r := mainCache.Get(key);
        if r.None? {
          r := hotCache.Get(key);
        }
      }
    }

    /** Adds an entry no cache has and evicts until both caches fit the limit; the loop ends because counts are exact. */
    method PopulateCache(key: Key, value: Value, toHot: bool)
      requires Valid()
      requires key !in Keys(mainCache.State().entries) + Keys(hotCache.State().entries)
      modifies mainCache, hotCache, mainCache.lru, hotCache.lru
      ensures Valid()
      ensures cacheBytes > 0 ==>
                var main := if toHot then old(mainCache.State()) else Add(old(mainCache.State()), key, value);
                var hot := if toHot then Add(old(hotCache.State()), key, value) else old(hotCache.State());
                && Exact(main) && Exact(hot)
                && (mainCache.State(), hotCache.State()) == Shrink(main, hot, cacheBytes)
                && mainCache.nbytes + hotCache.nbytes <= cacheBytes
    {
      if cacheBytes <= 0 {
        return;
      }
      hide Exact, Keys, Shrink, ByteCache.Valid, ByteCacheModel.Add, Lookup;
      if toHot {
        AddKeepsExactIff(hotCache.State(), key, value);
        hotCache.Add(key, value);
      } else {
        AddKeepsExactIff(mainCache.State(), key, value);
        mainCache.Add(key, value);
      }
      EvictToLimit();
    }

    /** The loop of populateCache. */
    method EvictToLimit()
      requires Valid() && cacheBytes > 0
      modifies mainCache`nbytes, mainCache`nevict, hotCache`nbytes, hotCache`nevict, mainCache.lru, hotCache.lru
      ensures Valid() && mainCache.nbytes + hotCache.nbytes <= cacheBytes
      ensures (mainCache.State(), hotCache.State())
           == Shrink(old(mainCache.State()), old(hotCache.State()), cacheBytes)
    {
      hide Exact, Keys, ByteCache.Valid, HotGivesWay;
      while true
        invariant Valid()
        invariant Shrink(mainCache.State(), hotCache.State(), cacheBytes)
               == Shrink(old(mainCache.State()), old(hotCache.State()), cacheBytes)
        decreases |mainCache.State().entries| + |hotCache.State().entries|
      {
        var mainBytes := mainCache.nbytes;
        var hotBytes := hotCache.nbytes;
        if mainBytes + hotBytes <= cacheBytes {
          return;
        }
        CountsNotNegative(mainCache.State());
        EighthRule(mainCache.State(), hotCache.State());
        EvictOne(mainBytes, hotBytes);
      }
    }

    /** One eviction, from the cache chosen by the counts just read. */
    method EvictOne(mainBytes: int, hotBytes: int)
      requires Valid() && cacheBytes > 0 && mainBytes == mainCache.nbytes && hotBytes == hotCache.nbytes
      requires mainBytes + hotBytes > cacheBytes
      modifies mainCache`nbytes, mainCache`nevict, hotCache`nbytes, hotCache`nevict, mainCache.lru, hotCache.lru
      ensures Valid()
      ensures 8 * hotBytes > mainBytes ==>
                && mainCache.State() == old(mainCache.State()) && old(hotCache.State()).entries != []
                && hotCache.State().entries == old(hotCache.State()).entries[..|old(hotCache.State()).entries| - 1]
                && hotCache.State() == ByteCacheModel.RemoveOldest(old(hotCache.State()))
      ensures 8 * hotBytes <= mainBytes ==>
                && hotCache.State() == old(hotCache.State()) && old(mainCache.State()).entries != []
                && mainCache.State().entries == old(mainCache.State()).entries[..|old(mainCache.State()).entries| - 1]
                && mainCache.State() == ByteCacheModel.RemoveOldest(old(mainCache.State()))
      ensures |mainCache.State().entries| + |hotCache.State().entries|
            < |old(mainCache.State()).entries| + |old(hotCache.State()).entries|
    {
      VictimNotEmpty(mainCache.State(), hotCache.State(), cacheBytes);
      EighthRule(mainCache.State(), hotCache.State());
      hide Exact, Keys, ByteCache.Valid;
      RemoveOldestKeepsExact(mainCache.State());
      RemoveOldestKeepsExact(hotCache.State());
      if hotBytes > TruncatedEighth(mainBytes) {
        hotCache.RemoveOldest();
      } else {
        mainCache.RemoveOldest();
      }
    }
  }
}
