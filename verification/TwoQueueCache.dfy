/** golang-lru's TwoQueueCache over three simplelru caches; each method is one critical section of its lock. */
module TwoQueueCache {
  import opened Options
  import opened Recency
  import opened SimpleLru
  import M = TwoQueueModel

  class TwoQueueCache<K(==,!new), V(!new)> {
    const size: nat
    const recentSize: nat
    const recent: LRU<K, V>
    const frequent: LRU<K, V>
    const recentEvict: LRU<K, ()>

    ghost function State(): M.TwoQueue<K, V>
      requires recentEvict.size >= 0
      reads this, recent, frequent, recentEvict
    {
      M.TwoQueue(size, recentSize, recentEvict.size, recent.evictList, frequent.evictList, recentEvict.evictList)
    }

    ghost predicate Owned()
      reads this, recent, frequent, recentEvict
    {
      && recent != frequent && (recent as object) != recentEvict && (frequent as object) != recentEvict
      && (this as object) != recent && (this as object) != frequent && (this as object) != recentEvict
      && recent.Valid() && frequent.Valid() && recentEvict.Valid()
      && size >= 1 && recent.size == frequent.size == size && recentEvict.size >= 1
    }

    ghost predicate Valid()
      reads this, recent, frequent, recentEvict
    {
      Owned() && M.Inv(State())
    }

    /** New2QParams after the ratios have been turned into sizes. */
    constructor (capacity: nat, recentShare: nat, evictShare: nat)
      requires capacity > 0 && recentShare <= capacity && evictShare > 0
      ensures Valid() && State() == M.New(capacity, recentShare, evictShare)
      ensures fresh(recent) && fresh(frequent) && fresh(recentEvict)
    {
      size := capacity;
      recentSize := recentShare;
      recent := new LRU(capacity);
      frequent := new LRU(capacity);
      recentEvict := new LRU(evictShare);
    }

    method Get(key: K) returns (r: Option<V>)
      requires Valid()
      modifies recent, frequent
      ensures Valid() && State() == M.Get(old(State()), key) && r == M.Peek(old(State()), key)
    {
      hide LRU.Valid, Matches, Without, Added, Lookup, Distinct, M.Inv;
      M.GetKeeps(State(), key);
      r := frequent.Get(key);
      if r.Some? {
        return;
      }
      r := recent.Peek(key);
      if r.Some? {
        var _ := recent.Remove(key);
        var _ := frequent.Add(key, r.value);
      }
    }

    method Add(key: K, value: V)
      requires Valid()
      modifies recent, frequent, recentEvict
      ensures Valid() && State() == M.Add(old(State()), key, value)
    {
      hide LRU.Valid, Matches, Without, Added, Distinct, M.Inv, M.EnsureSpace;
      M.AddKeeps(State(), key, value);
      if frequent.Contains(key) {
        var _ := frequent.Add(key, value);
        return;
      }
      if recent.Contains(key) {
        var _ := recent.Remove(key);
        var _ := frequent.Add(key, value);
        return;
      }
      if recentEvict.Contains(key) {
        EnsureSpace(true);
        var _ := recentEvict.Remove(key);
        var _ := frequent.Add(key, value);
        return;
      }
      EnsureSpace(false);
      var _ := recent.Add(key, value);
    }

    method EnsureSpace(readmitting: bool)
      requires Owned()
      modifies recent, frequent, recentEvict
      ensures Owned() && State() == M.EnsureSpace(old(State()), readmitting)
    {
      hide LRU.Valid, Matches, Without, Added, Distinct;
      var recentLen, freqLen := recent.Len(), frequent.Len();
      if recentLen + freqLen < size {
        return;
      }
      if recentLen > 0 && (recentLen > recentSize || (recentLen == recentSize && !readmitting)) {
        var oldest := recent.RemoveOldest();
        var _ := recentEvict.Add(oldest.value.key, ());
        return;
      }
      var _ := frequent.RemoveOldest();
    }

    method Remove(key: K)
      requires Valid()
      modifies recent, frequent, recentEvict
      ensures Valid() && State() == M.Remove(old(State()), key)
    {
      hide LRU.Valid, Matches, Without, Distinct, M.Inv;
      M.RemoveLeavesNone(State(), key);
      var present := frequent.Remove(key);
      if present {
        return;
      }
      present := recent.Remove(key);
      if present {
        return;
      }
      present := recentEvict.Remove(key);
    }

    method Purge()
      requires Valid()
      modifies recent, frequent, recentEvict
      ensures Valid() && State() == M.Purge(old(State()))
      ensures recent.evictList == [] && frequent.evictList == [] && recentEvict.evictList == []
    {
      M.PurgeKeeps(State());
      recent.Purge();
      frequent.Purge();
      recentEvict.Purge();
    }
  }

  const DEFAULT_RECENT_RATIO: real := 0.25
  const DEFAULT_GHOST_ENTRIES: real := 0.50

  /** A ratio of the size, truncated. */
  function Share(size: nat, ratio: real): (n: nat)
    requires 0.0 <= ratio <= 1.0
    ensures n <= size && n as real <= size as real * ratio < n as real + 1.0
  {
    ShareBounds(size as real, ratio);
    (size as real * ratio).Floor
  }

  lemma ShareBounds(x: real, ratio: real)
    requires 0.0 <= x && 0.0 <= ratio <= 1.0
    ensures 0.0 <= x * ratio <= x
  {
    assert x - x * ratio == x * (1.0 - ratio);
  }

  /** New2QParams: an error for a size or ratio out of range, or a ghost list without room. */
  method New2QParams<K(==,!new), V(!new)>(size: int, recentRatio: real, ghostRatio: real)
    returns (r: Option<TwoQueueCache<K, V>>)
    ensures r.Some? <==>
              && size > 0 && 0.0 <= recentRatio <= 1.0 && 0.0 <= ghostRatio <= 1.0
              && Share(size, ghostRatio) > 0
    ensures r.Some? ==>
              && fresh(r.value) && r.value.Valid()
              && r.value.State() == M.New(size, Share(size, recentRatio), Share(size, ghostRatio))
  {
    if size <= 0 || recentRatio < 0.0 || recentRatio > 1.0 || ghostRatio < 0.0 || ghostRatio > 1.0 {
      return None;
    }
    var recentSize := Share(size, recentRatio);
    var evictSize := Share(size, ghostRatio);
    if evictSize == 0 {
      return None;
    }
    var cache := new TwoQueueCache<K, V>(size, recentSize, evictSize);
    return Some(cache);
  }

  /** New2Q refuses a size of 1 too; otherwise a quarter of the cache is recent, so its size is never exceeded. */
  method New2Q<K(==,!new), V(!new)>(size: int) returns (r: Option<TwoQueueCache<K, V>>)
    ensures r.Some? <==> size >= 2
    ensures r.Some? ==>
              && fresh(r.value) && r.value.Valid()
              && r.value.State() == M.New(size, size / 4, size / 2) && M.Bound(r.value.State()) == size
  {
    if size > 0 {
      Quarters(size);
    }
    r := New2QParams(size, DEFAULT_RECENT_RATIO, DEFAULT_GHOST_ENTRIES);
  }

  lemma Quarters(size: nat)
    ensures Share(size, DEFAULT_RECENT_RATIO) == size / 4 && Share(size, DEFAULT_GHOST_ENTRIES) == size / 2
  {
    var q, h := size / 4, size / 2;
    assert size as real == 4.0 * q as real + (size % 4) as real;
    assert size as real == 2.0 * h as real + (size % 2) as real;
  }
}
