/** golang-lru's TwoQueueCache on lists: entries used once, entries used again, and keys lately evicted from the first. */
module TwoQueueModel {
  import opened Options
  import opened Recency
  import opened CacheRuns

  datatype TwoQueue<K, V> = TwoQueue(size: nat, recentSize: nat, evictSize: nat,
                                     recent: seq<Entry<K, V>>, frequent: seq<Entry<K, V>>,
                                     recentEvict: seq<Entry<K, ()>>)

  function Residents<K, V>(c: TwoQueue<K, V>): nat {
    |c.recent| + |c.frequent|
  }

  /** ensureSpace: on a full cache, one entry leaves recent for recentEvict or leaves frequent for good. */
  function EnsureSpace<K(==,!new), V(!new)>(c: TwoQueue<K, V>, readmitting: bool): TwoQueue<K, V> {
    if Residents(c) < c.size then c
    else if |c.recent| > 0 && (|c.recent| > c.recentSize || (|c.recent| == c.recentSize && !readmitting)) then
      c.(recent := DropLast(c.recent),
         recentEvict := Added(c.recentEvict, c.evictSize, c.recent[|c.recent| - 1].key, ()))
    else c.(frequent := DropLast(c.frequent))
  }

  function Add<K(==,!new), V(!new)>(c: TwoQueue<K, V>, k: K, v: V): TwoQueue<K, V> {
    if Has(c.frequent, k) then
      c.(frequent := Added(c.frequent, c.size, k, v))
    else if Has(c.recent, k) then
      c.(recent := Without(c.recent, k), frequent := Added(c.frequent, c.size, k, v))
    else if Has(c.recentEvict, k) then
      var r := EnsureSpace(c, true);
      r.(recentEvict := Without(r.recentEvict, k), frequent := Added(r.frequent, c.size, k, v))
    else
      var r := EnsureSpace(c, false);
      r.(recent := Added(r.recent, c.size, k, v))
  }

  function Peek<K(==,!new), V(!new)>(c: TwoQueue<K, V>, k: K): Option<V> {
    if Has(c.frequent, k) then Lookup(c.frequent, k) else Lookup(c.recent, k)
  }

  function Get<K(==,!new), V(!new)>(c: TwoQueue<K, V>, k: K): TwoQueue<K, V> {
    if Has(c.frequent, k) then c.(frequent := Touched(c.frequent, k))
    else
      match Lookup(c.recent, k)
      case Some(v) => c.(recent := Without(c.recent, k), frequent := Added(c.frequent, c.size, k, v))
      case None => c
  }

  /** Remove stops at the first list that has the key. */
  function Remove<K(==,!new), V(!new)>(c: TwoQueue<K, V>, k: K): TwoQueue<K, V> {
    if Has(c.frequent, k) then c.(frequent := Without(c.frequent, k))
    else if Has(c.recent, k) then c.(recent := Without(c.recent, k))
    else c.(recentEvict := Without(c.recentEvict, k))
  }

  function Purge<K, V>(c: TwoQueue<K, V>): TwoQueue<K, V> {
    c.(recent := [], frequent := [], recentEvict := [])
  }

  function New<K, V>(size: nat, recentSize: nat, evictSize: nat): TwoQueue<K, V> {
    TwoQueue(size, recentSize, evictSize, [], [], [])
  }

  // ---- The invariant ----

  /** Residents the cache can hold: its size, or one more when recent may fill all of it. */
  function Bound<K, V>(c: TwoQueue<K, V>): nat {
    if c.recentSize < c.size then c.size else c.size + 1
  }

  ghost predicate WellFormed<K(!new), V(!new)>(c: TwoQueue<K, V>) {
    && 1 <= c.size && c.recentSize <= c.size && 1 <= c.evictSize
    && Distinct(c.recent) && Distinct(c.frequent) && Distinct(c.recentEvict)
    && |c.recent| <= c.size && |c.frequent| <= c.size && |c.recentEvict| <= c.evictSize
    && Keys(c.recent) !! Keys(c.frequent) !! Keys(c.recentEvict)
  }

  ghost predicate Inv<K(!new), V(!new)>(c: TwoQueue<K, V>) {
    WellFormed(c) && Residents(c) <= Bound(c)
  }

  /** A full cache loses one resident, except when readmitting with recent within its share and frequent empty. */
  lemma EnsureSpaceKeeps<K(!new), V(!new)>(c: TwoQueue<K, V>, readmitting: bool)
    requires WellFormed(c)
    ensures var r := EnsureSpace(c, readmitting);
            && WellFormed(r) && r.size == c.size && r.recentSize == c.recentSize && r.evictSize == c.evictSize
            && Keys(r.recent) <= Keys(c.recent) && Keys(r.frequent) <= Keys(c.frequent)
            && Keys(r.recentEvict) <= Keys(c.recentEvict) + Keys(c.recent)
            && (forall e :: e in r.recent ==> e in c.recent) && (forall e :: e in r.frequent ==> e in c.frequent)
    ensures var r := EnsureSpace(c, readmitting);
            var stuck := c.frequent == [] && (c.recent == [] || |c.recent| < c.recentSize
                                              || (|c.recent| == c.recentSize && readmitting));
            Residents(r) == if Residents(c) < c.size || stuck then Residents(c) else Residents(c) - 1
  {
    if Residents(c) >= c.size {
      if |c.recent| > 0 && (|c.recent| > c.recentSize || (|c.recent| == c.recentSize && !readmitting)) {
        DropLastKeys(c.recent);
        AddedKeys(c.recentEvict, c.evictSize, c.recent[|c.recent| - 1].key, ());
      } else if c.frequent != [] {
        DropLastKeys(c.frequent);
      }
    }
  }

  /** Promoting an entry of recent, or using one of frequent: frequent drops nothing while recentSize < size. */
  lemma HitKeeps<K(!new), V(!new)>(c: TwoQueue<K, V>, k: K, v: V)
    requires Inv(c) && (k in Keys(c.recent) || k in Keys(c.frequent))
    ensures var r := c.(recent := Without(c.recent, k), frequent := Added(c.frequent, c.size, k, v));
            && Inv(r) && Residents(r) <= Residents(c)
            && (k in Keys(c.recent) || r == c.(frequent := Added(c.frequent, c.size, k, v)))
            && r.frequent != [] && r.frequent[0] == Entry(k, v)
            && (c.recentSize < c.size ==> Keys(r.frequent) == Keys(c.frequent) + {k})
            && (forall e :: e in r.recent + r.frequent ==> e == Entry(k, v) || (e in c.recent + c.frequent && e.key != k))
  {
    WithoutDistinct(c.recent, k);
    AddedKeys(c.frequent, c.size, k, v);
    if k in Keys(c.recent) {
      assert c.recent != [];
      forall e | e in c.frequent ensures e.key != k {
        MemberKey(c.frequent, e);
      }
    }
  }

  /** Readmitting a lately evicted key: it goes to frequent, which drops nothing more while recentSize < size. */
  lemma ReadmitKeeps<K(!new), V(!new)>(c: TwoQueue<K, V>, k: K, v: V)
    requires Inv(c) && k in Keys(c.recentEvict)
    ensures var r := Add(c, k, v);
            && Inv(r) && r.frequent != [] && r.frequent[0] == Entry(k, v)
            && (c.recentSize < c.size ==> Keys(r.frequent) == Keys(EnsureSpace(c, true).frequent) + {k})
            && (forall e :: e in r.recent + r.frequent ==> e == Entry(k, v) || (e in c.recent + c.frequent && e.key != k))
            && (Residents(c) <= c.size ==>
                  (Residents(r) > c.size <==> c.recentSize == c.size == |c.recent| && c.frequent == []))
  {
    hide Without, Added, Distinct, EnsureSpace;
    var m := EnsureSpace(c, true);
    EnsureSpaceKeeps(c, true);
    WithoutDistinct(m.recentEvict, k);
    AddedKeys(m.frequent, c.size, k, v);
    var r := Add(c, k, v);
    forall e | e in r.recent + r.frequent ensures e == Entry(k, v) || (e in c.recent + c.frequent && e.key != k) {
      if e in m.recent {
        MemberKey(m.recent, e);
      } else if e != Entry(k, v) {
        MemberKey(m.frequent, e);
      }
    }
  }

  lemma MissKeeps<K(!new), V(!new)>(c: TwoQueue<K, V>, k: K, v: V)
    requires Inv(c) && k !in Keys(c.recent) && k !in Keys(c.frequent) && k !in Keys(c.recentEvict)
    ensures var r := Add(c, k, v);
            && Inv(r) && r.recent != [] && r.recent[0] == Entry(k, v)
            && (forall e :: e in r.recent + r.frequent ==> e == Entry(k, v) || (e in c.recent + c.frequent && e.key != k))
            && (Residents(c) <= c.size ==> Residents(r) <= c.size)
  {
    hide Without, Added, Distinct, EnsureSpace;
    var m := EnsureSpace(c, false);
    EnsureSpaceKeeps(c, false);
    AddedKeys(m.recent, c.size, k, v);
    var r := Add(c, k, v);
    forall e | e in r.recent + r.frequent ensures e == Entry(k, v) || (e in c.recent + c.frequent && e.key != k) {
      if e in m.frequent {
        MemberKey(m.frequent, e);
      } else if e != Entry(k, v) {
        MemberKey(m.recent, e);
      }
    }
  }

  lemma FirstIsPeeked<K(!new), V(!new)>(c: TwoQueue<K, V>, k: K, v: V)
    requires WellFormed(c)
    requires (c.recent != [] && c.recent[0] == Entry(k, v)) || (c.frequent != [] && c.frequent[0] == Entry(k, v))
    ensures Peek(c, k) == Some(v)
  {
    if c.frequent != [] && c.frequent[0] == Entry(k, v) {
      LookupUnique(c.frequent, Entry(k, v));
    } else {
      LookupUnique(c.recent, Entry(k, v));
      MemberKey(c.recent, Entry(k, v));
    }
  }

  /** Add keeps the invariant, caches the pair, and adds nothing else to the cache. */
  lemma AddKeeps<K(!new), V(!new)>(c: TwoQueue<K, V>, k: K, v: V)
    requires Inv(c)
    ensures Inv(Add(c, k, v)) && Peek(Add(c, k, v), k) == Some(v)
    ensures forall e :: e in Add(c, k, v).recent + Add(c, k, v).frequent ==>
                          e == Entry(k, v) || (e in c.recent + c.frequent && e.key != k)
  {
    hide Without, Added, Distinct, EnsureSpace;
    if k in Keys(c.recent) || k in Keys(c.frequent) {
      HitKeeps(c, k, v);
    } else if k in Keys(c.recentEvict) {
      ReadmitKeeps(c, k, v);
    } else {
      MissKeeps(c, k, v);
    }
    FirstIsPeeked(Add(c, k, v), k, v);
  }

  /** From a state within size, Add exceeds it exactly when recent may fill the cache, does, and a key is readmitted. */
  lemma AddExceedsIff<K(!new), V(!new)>(c: TwoQueue<K, V>, k: K, v: V)
    requires Inv(c) && Residents(c) <= c.size
    ensures Residents(Add(c, k, v)) > c.size <==>
            k in Keys(c.recentEvict) && c.recentSize == c.size == |c.recent| && c.frequent == []
  {
    hide Without, Added, Distinct, EnsureSpace;
    if k in Keys(c.recent) || k in Keys(c.frequent) {
      HitKeeps(c, k, v);
    } else if k in Keys(c.recentEvict) {
      ReadmitKeeps(c, k, v);
    } else {
      MissKeeps(c, k, v);
    }
  }

  /** The corner is reached by three Adds to a cache of size 1 that is all recent. */
  lemma SizeIsExceeded()
    ensures var c := Add(Add(Add(New<int, int>(1, 1, 1), 7, 0), 8, 0), 7, 0);
            Inv(c) && Residents(c) == 2
  {
    var c1 := Add(New<int, int>(1, 1, 1), 7, 0);
    assert c1.recent == [Entry(7, 0)] && c1.frequent == [] && c1.recentEvict == [];
    assert c1.recent[0].key == 7;
    var c2 := Add(c1, 8, 0);
    assert c2.recent == [Entry(8, 0)] && c2.recentEvict == [Entry(7, ())] && c2.frequent == [];
    assert c2.recentEvict[0].key == 7 && c2.recent[0].key == 8;
    AddKeeps(c2, 7, 0);
    AddExceedsIff(c2, 7, 0);
  }

  lemma GetKeeps<K(!new), V(!new)>(c: TwoQueue<K, V>, k: K)
    requires Inv(c)
    ensures Inv(Get(c, k)) && Peek(Get(c, k), k) == Peek(c, k)
    ensures c.recentSize < c.size ==> Keys(c.frequent) <= Keys(Get(c, k).frequent)
    ensures forall e :: e in Get(c, k).recent + Get(c, k).frequent ==> e in c.recent + c.frequent
  {
    var r := Lookup(c.recent, k);
    var u := Lookup(c.frequent, k);
    if u.Some? {
      TouchedKeys(c.frequent, k);
      FirstIsPeeked(Get(c, k), k, u.value);
    } else if r.Some? {
      HitKeeps(c, k, r.value);
      FirstIsPeeked(Get(c, k), k, r.value);
    }
  }

  /** Because the lists are disjoint, stopping at the first list that has the key removes it from all. */
  lemma RemoveLeavesNone<K(!new), V(!new)>(c: TwoQueue<K, V>, k: K)
    requires Inv(c)
    ensures var r := Remove(c, k);
            && Inv(r)
            && Keys(r.recent) == Keys(c.recent) - {k} && Keys(r.frequent) == Keys(c.frequent) - {k}
            && Keys(r.recentEvict) == Keys(c.recentEvict) - {k}
    ensures forall e :: e in Remove(c, k).recent + Remove(c, k).frequent ==> e in c.recent + c.frequent
  {
    WithoutDistinct(c.recent, k);
    WithoutDistinct(c.frequent, k);
    WithoutDistinct(c.recentEvict, k);
  }

  lemma PurgeKeeps<K(!new), V(!new)>(c: TwoQueue<K, V>)
    requires Inv(c)
    ensures Inv(Purge(c))
  {
  }

  // ---- Runs ----

  function Step<K(==,!new), V(!new)>(c: TwoQueue<K, V>, op: Op<K, V>): TwoQueue<K, V> {
    match op
    case AddOp(k, v) => Add(c, k, v)
    case GetOp(k) => Get(c, k)
    case RemoveOp(k) => Remove(c, k)
    case PurgeOp => Purge(c)
  }

  function Run<K(==,!new), V(!new)>(c: TwoQueue<K, V>, ops: seq<Op<K, V>>): TwoQueue<K, V>
    decreases ops
  {
    if ops == [] then c else Run(Step(c, ops[0]), ops[1..])
  }

  lemma StepKeeps<K(!new), V(!new)>(c: TwoQueue<K, V>, op: Op<K, V>, latest: map<K, V>)
    requires Inv(c) && Agrees(c.recent + c.frequent, latest)
    ensures Inv(Step(c, op))
    ensures Agrees(Step(c, op).recent + Step(c, op).frequent, Noted(latest, op))
  {
    hide Add, Get, Remove, WellFormed;
    match op {
      case AddOp(k, v) => AddKeeps(c, k, v);
      case GetOp(k) => GetKeeps(c, k);
      case RemoveOp(k) => RemoveLeavesNone(c, k);
      case PurgeOp => PurgeKeeps(c);
    }
  }

  lemma {:induction false} RunKeeps<K(!new), V(!new)>(c: TwoQueue<K, V>, ops: seq<Op<K, V>>, latest: map<K, V>)
    requires Inv(c) && Agrees(c.recent + c.frequent, latest)
    ensures Inv(Run(c, ops)) && Agrees(Run(c, ops).recent + Run(c, ops).frequent, LastAdded(ops, latest))
    decreases ops
  {
    if ops != [] {
      StepKeeps(c, ops[0], latest);
      RunKeeps(Step(c, ops[0]), ops[1..], Noted(latest, ops[0]));
    }
  }

  /** After any run of a new cache the lists are disjoint and within bounds, and lookups find the value last added or nothing. */
  lemma TwoQueueSound<K(!new), V(!new)>(size: nat, recentSize: nat, evictSize: nat, ops: seq<Op<K, V>>, k: K)
    requires 1 <= size && recentSize <= size && 1 <= evictSize
    ensures var c := Run(New(size, recentSize, evictSize), ops);
            && Inv(c)
            && (Peek(c, k) == None || (k in LastAdded(ops, map[]) && Peek(c, k) == Some(LastAdded(ops, map[])[k])))
  {
    RunKeeps(New<K, V>(size, recentSize, evictSize), ops, map[]);
    var c := Run(New<K, V>(size, recentSize, evictSize), ops);
    if Peek(c, k).Some? {
      assert Entry(k, Peek(c, k).value) in c.recent + c.frequent;
    }
  }
}
