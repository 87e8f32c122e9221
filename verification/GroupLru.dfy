/** groupcache's lru.Cache: an LRU list whose limit on entries may be 0, for none. */
module GroupLru {
  import opened Options
  import opened Recency

  class Cache<K(==,!new), V(!new)> {
    const maxEntries: int
    /** container/list: front (most recently used) first; a cache not yet made is an empty one. */
    var ll: seq<Entry<K, V>>
    var cache: map<K, Entry<K, V>>

    ghost predicate Valid()
      reads this
    {
      Matches(ll, cache)
    }

    constructor (limit: int)
      ensures Valid() && ll == [] && maxEntries == limit
    {
      maxEntries := limit;
      ll := [];
      cache := map[];
    }

    /** Adds or refreshes an entry; returns the entry OnEvicted is called with, if the limit costs one. */
    method Add(key: K, value: V) returns (evicted: Option<Entry<K, V>>)
      requires Valid()
      modifies this
      ensures Valid()
      ensures var added := [Entry(key, value)] + Without(old(ll), key);
              if key !in Keys(old(ll)) && maxEntries != 0 && |added| > maxEntries
              then ll == DropLast(added) && evicted == Some(added[|added| - 1])
              else ll == added && evicted == None
    {
      hide Matches, Without;
      MatchesLookup(ll, cache, key);
      MatchesWithout(ll, cache, key);
      MatchesCons(Without(ll, key), cache - {key}, Entry(key, value));
      assert (cache - {key})[key := Entry(key, value)] == cache[key := Entry(key, value)];
      if key in cache {
        ll := [Entry(key, value)] + Without(ll, key);
        cache := cache[key := Entry(key, value)];
        return None;
      }
      ll := [Entry(key, value)] + ll;
      cache := cache[key := Entry(key, value)];
      if maxEntries != 0 && |ll| > maxEntries {
        evicted := RemoveOldest();
        return;
      }
      return None;
    }

    method Get(key: K) returns (r: Option<V>)
      requires Valid()
      modifies this`ll
      ensures Valid() && r == Lookup(old(ll), key) && ll == Touched(old(ll), key)
    {
      hide Matches, Without;
      MatchesLookup(ll, cache, key);
      if key in cache {
        MatchesWithout(ll, cache, key);
        MatchesCons(Without(ll, key), cache - {key}, cache[key]);
        assert (cache - {key})[key := cache[key]] == cache;
        ll := [cache[key]] + Without(ll, key);
        return Some(cache[key].value);
      }
      return None;
    }

    /** Removes an entry and returns the one OnEvicted is called with. */
    method Remove(key: K) returns (evicted: Option<Entry<K, V>>)
      requires Valid()
      modifies this
      ensures Valid() && ll == Without(old(ll), key)
      ensures evicted == match Lookup(old(ll), key) case Some(v) => Some(Entry(key, v)) case None => None
    {
      hide Matches, Without;
      MatchesLookup(ll, cache, key);
      MatchesWithout(ll, cache, key);
      if key in cache {
        evicted := Some(cache[key]);
        ll := Without(ll, key);
        cache := cache - {key};
        return;
      }
      return None;
    }

    /** Removes the least recently used entry and returns it, for OnEvicted. */
    method RemoveOldest() returns (evicted: Option<Entry<K, V>>)
      requires Valid()
      modifies this
      ensures Valid() && ll == DropLast(old(ll))
      ensures evicted == if old(ll) == [] then None else Some(old(ll)[|old(ll)| - 1])
    {
      hide Matches;
      if ll == [] {
        return None;
      }
      MatchesDropLast(ll, cache);
      var last := ll[|ll| - 1];
      ll := ll[..|ll| - 1];
      cache := cache - {last.key};
      return Some(last);
    }
  }
}
