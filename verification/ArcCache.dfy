/** golang-lru's ARCCache over four simplelru caches; each method is one critical section of its lock. */
module ArcCache {
  import opened Options
  import opened Recency
  import opened SimpleLru
  import M = ArcModel

  class ARCCache<K(==,!new), V(!new)> {
    const size: nat
    var p: nat
    const t1: LRU<K, V>
    const b1: LRU<K, ()>
    const t2: LRU<K, V>
    const b2: LRU<K, ()>

    ghost function State(): M.Arc<K, V>
      reads this, t1, t2, b1, b2
    {
      M.Arc(size, p, t1.evictList, t2.evictList, b1.evictList, b2.evictList)
    }

    /** Four separate, valid LRU caches of the full size. */
    ghost predicate Owned()
      reads this, t1, t2, b1, b2
    {
      && t1 != t2 && b1 != b2 && (t1 as object) != b1 && (t1 as object) != b2
      && (t2 as object) != b1 && (t2 as object) != b2
      && (this as object) != t1 && (this as object) != t2 && (this as object) != b1 && (this as object) != b2
      && t1.Valid() && t2.Valid() && b1.Valid() && b2.Valid()
      && size >= 1 && t1.size == t2.size == b1.size == b2.size == size
    }

    ghost predicate Valid()
      reads this, t1, t2, b1, b2
    {
      Owned() && M.Inv(State())
    }

    constructor (capacity: nat)
      requires capacity > 0
      ensures Valid() && State() == M.New(capacity)
      ensures fresh(t1) && fresh(t2) && fresh(b1) && fresh(b2)
    {
      size := capacity;
      p := 0;
      b1 := new LRU(capacity);
      b2 := new LRU(capacity);
      t1 := new LRU(capacity);
      t2 := new LRU(capacity);
    }

    /** A hit in the recent list moves the entry to the frequent one. */
    method Get(key: K) returns (r: Option<V>)
      requires Valid()
      modifies t1, t2
      ensures Valid() && State() == M.Get(old(State()), key) && r == M.Peek(old(State()), key)
    {
      hide LRU.Valid, Matches, Without, Added, Touched, Lookup, Distinct, M.Inv;
      M.GetKeeps(State(), key);
      r := t1.Peek(key);
      if r.Some? {
        var _ := t1.Remove(key);
        var _ := t2.Add(key, r.value);
        return;
      }
      r := t2.Get(key);
    }

    method Add(key: K, value: V)
      requires Valid()
      modifies this`p, t1, t2, b1, b2
      ensures Valid() && State() == M.Add(old(State()), key, value)
    {
      hide LRU.Valid, Matches, Without, Added, Distinct, M.Inv, M.Replace, M.Trim, M.Raised, M.Lowered;
      ghost var a := State();
      M.AddKeeps(a, key, value);
      if t1.Contains(key) {
        var _ := t1.Remove(key);
        var _ := t2.Add(key, value);
        return;
      }
      if t2.Contains(key) {
        var _ := t2.Add(key, value);
        return;
      }
      if b1.Contains(key) {
        RaiseTarget();
        if t1.Len() + t2.Len() >= size {
          Replace(false);
        }
        var _ := b1.Remove(key);
        var _ := t2.Add(key, value);
        return;
      }
      if b2.Contains(key) {
        LowerTarget();
        if t1.Len() + t2.Len() >= size {
          Replace(true);
        }
        var _ := b2.Remove(key);
        var _ := t2.Add(key, value);
        return;
      }
      AddMissing(key, value);
    }

    /** A hit in b1: t1 was too small. */
    method RaiseTarget()
      requires Owned() && b1.evictList != []
      modifies this`p
      ensures p == M.Raised(old(State()))
    {
      var delta := 1;
      var b1Len, b2Len := b1.Len(), b2.Len();
      if b2Len > b1Len {
        delta := b2Len / b1Len;
      }
      if p + delta >= size {
        p := size;
      } else {
        p := p + delta;
      }
    }

    /** A hit in b2: t2 was too small. */
    method LowerTarget()
      requires Owned() && b2.evictList != []
      modifies this`p
      ensures p == M.Lowered(old(State()))
    {
      var delta := 1;
      var b1Len, b2Len := b1.Len(), b2.Len();
      if b1Len > b2Len {
        delta := b1Len / b2Len;
      }
      if delta >= p {
        p := 0;
      } else {
        p := p - delta;
      }
    }

    /** The last part of Add: the key is in no list. */
    method AddMissing(key: K, value: V)
      requires Owned()
      modifies t1, t2, b1, b2
      ensures Owned()
      ensures var a := old(State());
              State() == var r := M.Trim(M.MakeRoom(a, false)); r.(t1 := Added(r.t1, size, key, value))
    {
      hide LRU.Valid, Matches, Without, Added, Distinct;
      if t1.Len() + t2.Len() >= size {
        Replace(false);
      }
      if b1.Len() > size - p {
        var _ := b1.RemoveOldest();
      }
      if b2.Len() > p {
        var _ := b2.RemoveOldest();
      }
      var _ := t1.Add(key, value);
    }

    /** Evicts from t1 or t2 by the target p and remembers the key in b1 or b2. */
    method Replace(b2ContainsKey: bool)
      requires Owned()
      modifies t1, t2, b1, b2
      ensures Owned() && State() == M.Replace(old(State()), b2ContainsKey)
    {
      hide LRU.Valid, Matches, Without, Added, Distinct;
      var t1Len := t1.Len();
      if t1Len > 0 && (t1Len > p || (t1Len == p && b2ContainsKey)) {
        var oldest := t1.RemoveOldest();
        if oldest.Some? {
          var _ := b1.Add(oldest.value.key, ());
        }
      } else {
        var oldest := t2.RemoveOldest();
        if oldest.Some? {
          var _ := b2.Add(oldest.value.key, ());
        }
      }
    }

    /** Removes the key from the first list that has it. */
    method Remove(key: K)
      requires Valid()
      modifies t1, t2, b1, b2
      ensures Valid() && State() == M.Remove(old(State()), key)
    {
      hide LRU.Valid, Matches, Without, Distinct, M.Inv;
      M.RemoveLeavesNone(State(), key);
      var present := t1.Remove(key);
      if present {
        return;
      }
      present := t2.Remove(key);
      if present {
        return;
      }
      present := b1.Remove(key);
      if present {
        return;
      }
      present := b2.Remove(key);
    }

    method Purge()
      requires Valid()
      modifies t1, t2, b1, b2
      ensures Valid() && State() == M.Purge(old(State())) && p == old(p)
      ensures t1.evictList == [] && t2.evictList == [] && b1.evictList == [] && b2.evictList == []
    {
      M.PurgeKeeps(State());
      t1.Purge();
      t2.Purge();
      b1.Purge();
      b2.Purge();
    }
  }

  /** NewARC: an error for a size that is not positive. */
  method NewARC<K(==,!new), V(!new)>(size: int) returns (r: Option<ARCCache<K, V>>)
    ensures r.Some? <==> size > 0
    ensures r.Some? ==> fresh(r.value) && r.value.Valid() && r.value.State() == M.New(size)
  {
    if size <= 0 {
      return None;
    }
    var cache := new ARCCache<K, V>(size);
    return Some(cache);
  }
}
