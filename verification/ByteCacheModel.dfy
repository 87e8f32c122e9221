/** groupcache's byte-counted caches on values: what cache.add, get and removeOldest do, and the eviction loop over two of them. */
module ByteCacheModel {
  import opened Bytes
  import opened Options
  import opened Recency

  type Key = seq<byte>
  type Value = seq<byte>
  type Item = Entry<Key, Value>

  /** The count kept in nbytes, and the entries of the LRU list. */
  datatype Cache = Cache(nbytes: int, entries: seq<Item>)

  function SizeOf(e: Item): nat {
    |e.key| + |e.value|
  }

  function Total(s: seq<Item>): nat {
    if s == [] then 0 else SizeOf(s[0]) + Total(s[1..])
  }

  /** lru.Cache.Add without a limit on the number of entries. */
  function Front(s: seq<Item>, k: Key, v: Value): seq<Item> {
    [Entry(k, v)] + Without(s, k)
  }

  /** cache.add counts the new entry whether or not it replaces one. */
  function Add(c: Cache, k: Key, v: Value): Cache {
    Cache(c.nbytes + |k| + |v|, Front(c.entries, k, v))
  }

  function Get(c: Cache, k: Key): Cache {
    c.(entries := Touched(c.entries, k))
  }

  function RemoveOldest(c: Cache): Cache {
    if c.entries == [] then c
    else Cache(c.nbytes - SizeOf(c.entries[|c.entries| - 1]), DropLast(c.entries))
  }

  /** No key twice, and the count is the sum of the sizes stored. */
  ghost predicate Exact(c: Cache) {
    Distinct(c.entries) && c.nbytes == Total(c.entries)
  }

  // ---- Totals ----

  lemma {:induction false} TotalWithout(s: seq<Item>, k: Key, v: Value)
    requires Distinct(s) && Lookup(s, k) == Some(v)
    ensures Total(Without(s, k)) + |k| + |v| == Total(s)
  {
    if s[0].key == k {
      assert k !in Keys(s[1..]);
    } else {
      TotalWithout(s[1..], k, v);
    }
  }

  lemma {:induction false} TotalDropLast(s: seq<Item>)
    requires s != []
    ensures Total(DropLast(s)) + SizeOf(s[|s| - 1]) == Total(s)
  {
    if |s| > 1 {
      TotalDropLast(s[1..]);
      assert DropLast(s)[1..] == DropLast(s[1..]);
    }
  }

  // ---- What each operation keeps ----

  /** cache.add keeps the count exact exactly when it replaces no entry that takes up space. */
  lemma AddKeepsExactIff(c: Cache, k: Key, v: Value)
    requires Exact(c)
    ensures Distinct(Add(c, k, v).entries) && Keys(Add(c, k, v).entries) == Keys(c.entries) + {k}
    ensures Exact(Add(c, k, v)) <==> k !in Keys(c.entries) || (k == [] && Lookup(c.entries, k) == Some([]))
    ensures k in Keys(c.entries) ==>
              Add(c, k, v).nbytes == Total(Add(c, k, v).entries) + |k| + |Lookup(c.entries, k).value|
  {
    WithoutDistinct(c.entries, k);
    ConsDistinct(Entry(k, v), Without(c.entries, k));
    assert Add(c, k, v).entries[1..] == Without(c.entries, k);
    if k in Keys(c.entries) {
      TotalWithout(c.entries, k, Lookup(c.entries, k).value);
    }
  }

  lemma GetKeepsExact(c: Cache, k: Key)
    requires Exact(c)
    ensures Exact(Get(c, k)) && Keys(Get(c, k).entries) == Keys(c.entries)
    ensures forall e :: e in Get(c, k).entries <==> e in c.entries
  {
    TouchedKeys(c.entries, k);
    var r := Lookup(c.entries, k);
    if r.Some? {
      TotalWithout(c.entries, k, r.value);
      assert Get(c, k).entries[1..] == Without(c.entries, k);
    }
  }

  lemma RemoveOldestKeepsExact(c: Cache)
    requires Exact(c)
    ensures Exact(RemoveOldest(c)) && Keys(RemoveOldest(c).entries) <= Keys(c.entries)
    ensures RemoveOldest(c).nbytes <= c.nbytes
    ensures forall e :: e in RemoveOldest(c).entries ==> e in c.entries
  {
    if c.entries != [] {
      DropLastKeys(c.entries);
      TotalDropLast(c.entries);
    }
  }

  // ---- The eviction loop of populateCache, undisturbed ----

  /** The hot cache gives way when it holds more than an eighth of what the main one does (integer division). */
  predicate HotGivesWay(main: Cache, hot: Cache) {
    hot.nbytes > TruncatedEighth(main.nbytes)
  }

  /** Go's n / 8, which truncates toward zero. */
  function TruncatedEighth(n: int): int {
    if n >= 0 then n / 8 else -(-n / 8)
  }

  /** The rule, without the division. */
  lemma EighthRule(main: Cache, hot: Cache)
    requires main.nbytes >= 0
    ensures HotGivesWay(main, hot) <==> 8 * hot.nbytes > main.nbytes
  {
  }

  /** With exact counts the victim of an over-full pair of caches has an entry to give. */
  lemma VictimNotEmpty(main: Cache, hot: Cache, limit: int)
    requires Exact(main) && Exact(hot) && limit > 0 && main.nbytes + hot.nbytes > limit
    ensures (if HotGivesWay(main, hot) then hot else main).entries != []
  {
  }

  ghost function Shrink(main: Cache, hot: Cache, limit: int): (r: (Cache, Cache))
    requires Exact(main) && Exact(hot) && limit > 0
    decreases |main.entries| + |hot.entries|
  {
    if main.nbytes + hot.nbytes <= limit then (main, hot)
    else
      VictimNotEmpty(main, hot, limit);
      RemoveOldestKeepsExact(main);
      RemoveOldestKeepsExact(hot);
      if HotGivesWay(main, hot) then Shrink(main, RemoveOldest(hot), limit)
      else Shrink(RemoveOldest(main), hot, limit)
  }

  /** The loop ends within the limit, keeps the counts exact, keeps the most recent entries, and removes no entry needlessly. */
  lemma {:induction false} ShrinkFits(main: Cache, hot: Cache, limit: int)
    requires Exact(main) && Exact(hot) && limit > 0
    ensures var (m, h) := Shrink(main, hot, limit);
            && Exact(m) && Exact(h) && m.nbytes + h.nbytes <= limit
            && m.entries <= main.entries && h.entries <= hot.entries
            && (main.nbytes + hot.nbytes <= limit ==> (m, h) == (main, hot))
            && (main.nbytes + hot.nbytes > limit ==>
                  || (|m.entries| < |main.entries| && m.nbytes + h.nbytes + SizeOf(main.entries[|m.entries|]) > limit)
                  || (|h.entries| < |hot.entries| && m.nbytes + h.nbytes + SizeOf(hot.entries[|h.entries|]) > limit))
    decreases |main.entries| + |hot.entries|
  {
    if main.nbytes + hot.nbytes > limit {
      VictimNotEmpty(main, hot, limit);
      RemoveOldestKeepsExact(main);
      RemoveOldestKeepsExact(hot);
      if HotGivesWay(main, hot) {
        ShrinkFits(main, RemoveOldest(hot), limit);
      } else {
        ShrinkFits(RemoveOldest(main), hot, limit);
      }
    }
  }

  /** The caches after n turns of the loop's body. */
  function Turns(main: Cache, hot: Cache, n: nat): (Cache, Cache)
    decreases n
  {
    if n == 0 then (main, hot)
    else if HotGivesWay(main, hot) then Turns(main, RemoveOldest(hot), n - 1)
    else Turns(RemoveOldest(main), hot, n - 1)
  }

  /** If the counts exceed what is stored by more than the limit, the loop never ends: no eviction repairs a count. */
  lemma {:induction false} OvercountSpins(main: Cache, hot: Cache, limit: int, n: nat)
    requires main.nbytes + hot.nbytes > limit + Total(main.entries) + Total(hot.entries)
    ensures var (m, h) := Turns(main, hot, n); m.nbytes + h.nbytes > limit
    decreases n
  {
    if n > 0 {
      if main.entries != [] {
        TotalDropLast(main.entries);
      }
      if hot.entries != [] {
        TotalDropLast(hot.entries);
      }
      if HotGivesWay(main, hot) {
        OvercountSpins(main, RemoveOldest(hot), limit, n - 1);
      } else {
        OvercountSpins(RemoveOldest(main), hot, limit, n - 1);
      }
    }
  }
}
