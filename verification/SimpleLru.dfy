/** golang-lru's simplelru.LRU: a recency list with an index into it and an eviction callback. */
module SimpleLru {
  import opened Options
  import opened Recency

  class LRU<K(==,!new), V(!new)> {
    var size: int
    /** container/list: front (most recently used) first. */
    var evictList: seq<Entry<K, V>>
    var items: map<K, Entry<K, V>>
    /** The onEvict calls made so far. */
    var evictions: seq<Entry<K, V>>

    /** Map and list hold the same entries, no key twice, and no more entries than the size allows. */
    ghost predicate Valid()
      reads this
    {
      && Matches(evictList, items)
      && |evictList| <= if size < 0 then 0 else size
    }

    constructor (capacity: int)
      requires capacity > 0
      ensures Valid() && size == capacity && evictList == [] && evictions == []
    {
      size := capacity;
      evictList := [];
      items := map[];
      evictions := [];
    }

    function Len(): nat
      reads this
    {
      |evictList|
    }

    function Contains(key: K): (ok: bool)
      reads this
      requires Valid()
      ensures ok <==> key in Keys(evictList)
    {
      key in items
    }

    function Peek(key: K): (r: Option<V>)
      reads this
      requires Valid()
      ensures r == Lookup(evictList, key)
    {
      MatchesLookup(evictList, items, key);
      if key in items then Some(items[key].value) else None
    }

    /** Adds or refreshes an entry; the least recently used one goes when the list gets too long. */
    method Add(key: K, value: V) returns (evicted: bool)
      requires Valid()
      modifies this
      ensures Valid() && size == old(size)
      ensures evictList == Added(old(evictList), size, key, value)
      ensures evicted <==> key !in Keys(old(evictList)) && |old(evictList)| + 1 > size
      ensures evictions == old(evictions)
                           + if evicted then [([Entry(key, value)] + old(evictList))[|old(evictList)|]] else []
    {
      hide Matches, Without, Lookup;
      MatchesLookup(evictList, items, key);
      if key in items {
        MatchesWithout(evictList, items, key);
        MatchesCons(Without(evictList, key), items - {key}, Entry(key, value));
        assert (items - {key})[key := Entry(key, value)] == items[key := Entry(key, value)];
        evictList := [Entry(key, value)] + Without(evictList, key);
        items := items[key := Entry(key, value)];
        return false;
      }
      MatchesCons(evictList, items, Entry(key, value));
      evictList := [Entry(key, value)] + evictList;
      items := items[key := Entry(key, value)];
      evicted := |evictList| > size;
      if evicted {
        RemoveLast();
      }
    }

    /** Looks a key up and makes it the most recently used. */
    method Get(key: K) returns (r: Option<V>)
      requires Valid()
      modifies this`evictList
      ensures Valid()
      ensures r == Lookup(old(evictList), key) && evictList == Touched(old(evictList), key)
    {
      hide Matches, Without;
      r := Peek(key);
      if r.Some? {
        MatchesLookup(evictList, items, key);
        MatchesWithout(evictList, items, key);
        MatchesCons(Without(evictList, key), items - {key}, items[key]);
        assert (items - {key})[key := items[key]] == items;
        evictList := [items[key]] + Without(evictList, key);
      }
    }

    method Remove(key: K) returns (present: bool)
      requires Valid()
      modifies this
      ensures Valid() && size == old(size)
      ensures present <==> key in Keys(old(evictList))
      ensures evictList == Without(old(evictList), key)
      ensures evictions == old(evictions) + if present then [old(items)[key]] else []
    {
      hide Matches, Without;
      MatchesLookup(evictList, items, key);
      if key in items {
        MatchesWithout(evictList, items, key);
        evictions := evictions + [items[key]];
        evictList := Without(evictList, key);
        items := items - {key};
        return true;
      }
      return false;
    }

    /** Removes the least recently used entry. */
    method RemoveOldest() returns (oldest: Option<Entry<K, V>>)
      requires Valid()
      modifies this
      ensures Valid() && size == old(size) && evictList == DropLast(old(evictList))
      ensures oldest == if old(evictList) == [] then None else Some(old(evictList)[|old(evictList)| - 1])
      ensures evictions == old(evictions) + if oldest.Some? then [oldest.value] else []
    {
      if evictList == [] {
        return None;
      }
      oldest := Some(evictList[|evictList| - 1]);
      RemoveLast();
    }

    /** removeElement on the back of the list. */
    method RemoveLast()
      requires Matches(evictList, items) && evictList != []
      modifies this`evictList, this`items, this`evictions
      ensures Matches(evictList, items)
      ensures evictList == DropLast(old(evictList))
      ensures evictions == old(evictions) + [old(evictList)[|old(evictList)| - 1]]
    {
      MatchesDropLast(evictList, items);
      var last := evictList[|evictList| - 1];
      evictList := evictList[..|evictList| - 1];
      items := items - {last.key};
      evictions := evictions + [last];
    }

    /** Changes the size; returns how many entries it means to evict, which for a negative size is too many. */
    method Resize(newSize: int) returns (evicted: nat)
      requires Valid()
      modifies this
      ensures Valid() && size == newSize
      ensures evicted == if |old(evictList)| <= newSize then 0 else |old(evictList)| - newSize
      ensures evictList == old(evictList)[..if newSize < 0 then 0 else if newSize < |old(evictList)| then newSize else |old(evictList)|]
      ensures evictions == old(evictions) + LastFirst(old(evictList), |old(evictList)| - |evictList|)
    {
      hide Matches;
      var diff := Len() - newSize;
      if diff < 0 {
        diff := 0;
      }
      ghost var list, calls := evictList, evictions;
      ghost var keep := |list| - if diff <= |list| then diff else |list|;
      for i := 0 to diff
        invariant Matches(evictList, items)
        invariant evictList == list[..if i <= |list| then |list| - i else 0]
        invariant keep <= |evictList|
        invariant evictions + LastFirst(evictList, |evictList| - keep) == calls + LastFirst(list, |list| - keep)
      {
        if evictList != [] {
          assert DropLast(evictList) == list[..|list| - i - 1];
          RemoveLast();
        }
      }
      size := newSize;
      return diff;
    }

    /** The keys from least to most recently used. */
    method KeysOldestFirst() returns (keys: seq<K>)
      requires Valid()
      ensures |keys| == |evictList|
      ensures forall i :: 0 <= i < |keys| ==> keys[i] == evictList[|evictList| - 1 - i].key
    {
      keys := [];
      for i := 0 to |evictList|
        invariant |keys| == i
        invariant forall j :: 0 <= j < i ==> keys[j] == evictList[|evictList| - 1 - j].key
      {
        keys := keys + [evictList[|evictList| - 1 - i].key];
      }
    }

    /** Removes everything, one callback per entry, in the arbitrary order of Go's map iteration. */
    method Purge()
      requires Valid()
      modifies this`evictList, this`items, this`evictions
      ensures Valid() && evictList == []
      ensures |old(evictions)| <= |evictions| && evictions[..|old(evictions)|] == old(evictions)
      ensures Distinct(evictions[|old(evictions)|..])
      ensures forall e :: e in evictions[|old(evictions)|..] <==> e in old(evictList)
    {
      hide Matches, Called, Without;
      ghost var calls: seq<Entry<K, V>>, left := [], evictList;
      assert Called(evictList, left, calls) && evictions == old(evictions) + calls by {
        CalledNone(evictList);
      }
      while items != map[]
        invariant Matches(left, items) && Called(evictList, left, calls)
        invariant evictions == old(evictions) + calls && evictList == old(evictList)
        decreases |items|
      {
        var k :| k in items;
        CalledStep(evictList, left, calls, items, k);
        evictions := evictions + [items[k]];
        calls, left := calls + [items[k]], Without(left, k);
        assert items == (items - {k})[k := items[k]];
        items := items - {k};
      }
      assert evictions[|old(evictions)|..] == calls;
      CalledAll(evictList, left, calls, items);
      evictList := [];
    }
  }

  /** NewLRU: an error for a size that is not positive. */
  method NewLRU<K(==,!new), V(!new)>(size: int) returns (r: Option<LRU<K, V>>)
    ensures r.Some? <==> size > 0
    ensures r.Some? ==> fresh(r.value) && r.value.Valid() && r.value.size == size && r.value.evictList == []
  {
    if size <= 0 {
      return None;
    }
    var lru := new LRU<K, V>(size);
    return Some(lru);
  }
}
