/** What 2Q's operations do to its three lists, entry by entry. */
module TwoQueueEffects {
  import opened Options
  import opened Recency
  import opened TwoQueueModel

  /**
    ensureSpace leaves a cache with room alone. On a full one it takes from recent if that has entries and is over its
    share, or at it unless a key is being readmitted, and remembers the key as the first ghost; otherwise it takes
    from frequent, for good. It takes the least recently used entry.
   */
  ghost predicate Ensures<K(!new), V(!new)>(c: TwoQueue<K, V>, r: TwoQueue<K, V>, readmitting: bool) {
    && r.size == c.size && r.recentSize == c.recentSize && r.evictSize == c.evictSize
    && if |c.recent| + |c.frequent| < c.size then r == c
       else if c.recent != [] && (|c.recent| > c.recentSize || (|c.recent| == c.recentSize && !readmitting)) then
         && r.recent == c.recent[..|c.recent| - 1] && r.frequent == c.frequent
         && r.recentEvict == Cut([Entry(c.recent[|c.recent| - 1].key, ())] + c.recentEvict, c.evictSize)
       else
         && r.recent == c.recent && r.recentEvict == c.recentEvict
         && r.frequent == if c.frequent == [] then [] else c.frequent[..|c.frequent| - 1]
  }

  lemma EnsureSpaceMoves<K(!new), V(!new)>(c: TwoQueue<K, V>, readmitting: bool)
    requires WellFormed(c)
    ensures Ensures(c, EnsureSpace(c, readmitting), readmitting)
  {
    hide Added, Distinct;
    if c.recent != [] {
      MemberKey(c.recent, c.recent[|c.recent| - 1]);
      NewInFront(c.recentEvict, c.evictSize, c.recent[|c.recent| - 1].key, ());
    }
  }

  // ---- Add ----

  /** A key that any of the three lists knows ends first in frequent, and in no other list. */
  lemma KnownKeyIsPromoted<K(!new), V(!new)>(c: TwoQueue<K, V>, k: K, v: V)
    requires Inv(c) && (k in Keys(c.recent) || k in Keys(c.frequent) || k in Keys(c.recentEvict))
    ensures var r := Add(c, k, v);
            && r.frequent != [] && r.frequent[0] == Entry(k, v)
            && k !in Keys(r.recent) && k !in Keys(r.recentEvict)
  {
    hide Added, Without, EnsureSpace, Distinct;
    if k in Keys(c.recent) || k in Keys(c.frequent) {
      HitKeeps(c, k, v);
    } else {
      ReadmitKeeps(c, k, v);
    }
    MemberKey(Add(c, k, v).frequent, Entry(k, v));
  }

  /** A hit changes only where the entry is: nothing is evicted, as long as the cache is within its size. */
  lemma HitEffect<K(!new), V(!new)>(c: TwoQueue<K, V>, k: K, v: V)
    requires Inv(c) && (k in Keys(c.recent) || k in Keys(c.frequent))
    ensures var r := Add(c, k, v);
            && r.recentEvict == c.recentEvict && r.size == c.size && r.recentSize == c.recentSize
            && r.recent == Without(c.recent, k) && r.frequent == Cut([Entry(k, v)] + Without(c.frequent, k), c.size)
    ensures Residents(c) <= c.size ==>
              Keys(Add(c, k, v).recent) + Keys(Add(c, k, v).frequent) == Keys(c.recent) + Keys(c.frequent)
  {
    hide Without, Distinct;
    WithoutDistinct(c.recent, k);
    WithoutDistinct(c.frequent, k);
    AddedKeys(c.frequent, c.size, k, v);
  }

  /** A readmitted key leaves the ghosts and comes first in frequent, after one entry has left a full cache. */
  lemma ReadmitEffect<K(!new), V(!new)>(c: TwoQueue<K, V>, k: K, v: V)
    requires Inv(c) && k !in Keys(c.recent) && k !in Keys(c.frequent) && k in Keys(c.recentEvict)
    ensures var r := Add(c, k, v);
            var m := EnsureSpace(c, true);
            && r.recent == m.recent && r.recentEvict == Without(m.recentEvict, k)
            && r.frequent == Cut([Entry(k, v)] + m.frequent, c.size)
  {
    hide Without, Added, Distinct, EnsureSpace;
    EnsureSpaceKeeps(c, true);
    NewInFront(EnsureSpace(c, true).frequent, c.size, k, v);
  }

  /** A new key comes first in recent, after one entry has left a full cache. */
  lemma MissEffect<K(!new), V(!new)>(c: TwoQueue<K, V>, k: K, v: V)
    requires Inv(c) && k !in Keys(c.recent) && k !in Keys(c.frequent) && k !in Keys(c.recentEvict)
    ensures var r := Add(c, k, v);
            var m := EnsureSpace(c, false);
            && r.frequent == m.frequent && r.recentEvict == m.recentEvict
            && r.recent == Cut([Entry(k, v)] + m.recent, c.size)
  {
    hide Without, Added, Distinct, EnsureSpace;
    EnsureSpaceKeeps(c, false);
    NewInFront(EnsureSpace(c, false).recent, c.size, k, v);
  }

  // ---- Get ----

  /** A hit moves the entry to the front of frequent, from either list; a miss changes nothing. */
  lemma GetEffect<K(!new), V(!new)>(c: TwoQueue<K, V>, k: K)
    requires Inv(c)
    ensures var r := Get(c, k);
            && r.recentEvict == c.recentEvict && r.size == c.size && r.recentSize == c.recentSize
            && (Peek(c, k).Some? ==>
                  && r.recent == Without(c.recent, k)
                  && r.frequent == Cut([Entry(k, Peek(c, k).value)] + Without(c.frequent, k), c.size))
            && (Peek(c, k).None? ==> r == c)
  {
    hide Distinct;
    WithoutDistinct(c.frequent, k);
    if k in Keys(c.recent) {
      NewInFront(c.frequent, c.size, k, Lookup(c.recent, k).value);
    }
  }
}
