/** golang-lru's ARCCache on lists: two LRU lists of cached entries, two of evicted keys, and the target p. */
module ArcModel {
  import opened Arithmetic
  import opened Options
  import opened Recency
  import opened CacheRuns

  datatype Arc<K, V> = Arc(size: nat, p: nat,
                           t1: seq<Entry<K, V>>, t2: seq<Entry<K, V>>,
                           b1: seq<Entry<K, ()>>, b2: seq<Entry<K, ()>>)

  /** The larger step of the adaptation: the ratio of the other ghost list to the hit one, at least 1. */
  function Delta(hit: nat, other: nat): (d: nat)
    requires hit > 0
    ensures d >= 1
  {
    if other > hit then other / hit else 1
  }

  function Raised<K, V>(a: Arc<K, V>): nat
    requires a.b1 != []
  {
    var delta := Delta(|a.b1|, |a.b2|);
    if a.p + delta >= a.size then a.size else a.p + delta
  }

  function Lowered<K, V>(a: Arc<K, V>): nat
    requires a.b2 != []
  {
    var delta := Delta(|a.b2|, |a.b1|);
    if delta >= a.p then 0 else a.p - delta
  }

  /** replace: one entry moves from t1 to b1 or from t2 to b2, if the chosen list has one. */
  function Replace<K(==,!new), V(!new)>(a: Arc<K, V>, b2ContainsKey: bool): Arc<K, V> {
    if |a.t1| > 0 && (|a.t1| > a.p || (|a.t1| == a.p && b2ContainsKey)) then
      a.(t1 := DropLast(a.t1), b1 := Added(a.b1, a.size, a.t1[|a.t1| - 1].key, ()))
    else if a.t2 != [] then
      a.(t2 := DropLast(a.t2), b2 := Added(a.b2, a.size, a.t2[|a.t2| - 1].key, ()))
    else a
  }

  function MakeRoom<K(==,!new), V(!new)>(a: Arc<K, V>, b2ContainsKey: bool): Arc<K, V> {
    if |a.t1| + |a.t2| >= a.size then Replace(a, b2ContainsKey) else a
  }

  /** A miss trims each ghost list by at most one key. */
  function Trim<K(!new), V(!new)>(a: Arc<K, V>): Arc<K, V> {
    a.(b1 := if |a.b1| > a.size - a.p then DropLast(a.b1) else a.b1,
       b2 := if |a.b2| > a.p then DropLast(a.b2) else a.b2)
  }

  function Add<K(==,!new), V(!new)>(a: Arc<K, V>, k: K, v: V): Arc<K, V> {
    if Has(a.t1, k) then
      a.(t1 := Without(a.t1, k), t2 := Added(a.t2, a.size, k, v))
    else if Has(a.t2, k) then
      a.(t2 := Added(a.t2, a.size, k, v))
    else if Has(a.b1, k) then
      var r := MakeRoom(a.(p := Raised(a)), false);
      r.(b1 := Without(r.b1, k), t2 := Added(r.t2, a.size, k, v))
    else if Has(a.b2, k) then
      var r := MakeRoom(a.(p := Lowered(a)), true);
      r.(b2 := Without(r.b2, k), t2 := Added(r.t2, a.size, k, v))
    else
      var r := Trim(MakeRoom(a, false));
      r.(t1 := Added(r.t1, a.size, k, v))
  }

  function Peek<K(==,!new), V(!new)>(a: Arc<K, V>, k: K): Option<V> {
    if Has(a.t1, k) then Lookup(a.t1, k) else Lookup(a.t2, k)
  }

  /** A hit in t1 promotes the entry to t2. */
  function Get<K(==,!new), V(!new)>(a: Arc<K, V>, k: K): Arc<K, V> {
    match Lookup(a.t1, k)
    case Some(v) => a.(t1 := Without(a.t1, k), t2 := Added(a.t2, a.size, k, v))
    case None => a.(t2 := Touched(a.t2, k))
  }

  /** Remove stops at the first list that has the key. */
  function Remove<K(==,!new), V(!new)>(a: Arc<K, V>, k: K): Arc<K, V> {
    if Has(a.t1, k) then a.(t1 := Without(a.t1, k))
    else if Has(a.t2, k) then a.(t2 := Without(a.t2, k))
    else if Has(a.b1, k) then a.(b1 := Without(a.b1, k))
    else a.(b2 := Without(a.b2, k))
  }

  /** Purge empties the lists and keeps the learned target. */
  function Purge<K, V>(a: Arc<K, V>): Arc<K, V> {
    a.(t1 := [], t2 := [], b1 := [], b2 := [])
  }

  function New<K, V>(size: nat): Arc<K, V> {
    Arc(size, 0, [], [], [], [])
  }

  function Residents<K, V>(a: Arc<K, V>): nat {
    |a.t1| + |a.t2|
  }

  // ---- The invariant ----

  /** The lists are proper LRU lists of at most size entries, and no key is in two of them. */
  ghost predicate WellFormed<K(!new), V(!new)>(a: Arc<K, V>) {
    && 1 <= a.size && a.p <= a.size
    && Distinct(a.t1) && Distinct(a.t2) && Distinct(a.b1) && Distinct(a.b2)
    && |a.t1| <= a.size && |a.t2| <= a.size && |a.b1| <= a.size && |a.b2| <= a.size
    && Keys(a.t1) !! Keys(a.t2) !! Keys(a.b1) !! Keys(a.b2)
  }

  /** WellFormed, together at most size ghosts, and at most one resident above size. */
  ghost predicate Inv<K(!new), V(!new)>(a: Arc<K, V>) {
    WellFormed(a) && |a.b1| + |a.b2| <= a.size && Residents(a) <= a.size + 1
  }

  /** replace moves a key between lists, or does nothing when t1 is within its target and t2 is empty. */
  lemma ReplaceKeeps<K(!new), V(!new)>(a: Arc<K, V>, b2ContainsKey: bool)
    requires WellFormed(a) && |a.b1| + |a.b2| <= a.size
    ensures var r := Replace(a, b2ContainsKey);
            && WellFormed(r) && r.size == a.size && r.p == a.p
            && |r.b1| + |r.b2| <= a.size + 1
            && Keys(r.t1) <= Keys(a.t1) && Keys(r.t2) <= Keys(a.t2)
            && Keys(r.b1) <= Keys(a.b1) + Keys(a.t1) && Keys(r.b2) <= Keys(a.b2) + Keys(a.t2)
            && (forall e :: e in r.t1 ==> e in a.t1) && (forall e :: e in r.t2 ==> e in a.t2)
            && (|r.b1| + |r.b2| <= a.size || (Keys(a.b1) <= Keys(r.b1) && Keys(a.b2) <= Keys(r.b2)))
    ensures var r := Replace(a, b2ContainsKey);
            var stuck := a.t2 == [] && (a.t1 == [] || |a.t1| < a.p || (|a.t1| == a.p && !b2ContainsKey));
            if stuck then r == a else Residents(r) == Residents(a) - 1
  {
    if |a.t1| > 0 && (|a.t1| > a.p || (|a.t1| == a.p && b2ContainsKey)) {
      DropLastKeys(a.t1);
      AddedKeys(a.b1, a.size, a.t1[|a.t1| - 1].key, ());
    } else if a.t2 != [] {
      DropLastKeys(a.t2);
      AddedKeys(a.b2, a.size, a.t2[|a.t2| - 1].key, ());
    }
  }

  lemma TrimKeeps<K(!new), V(!new)>(a: Arc<K, V>)
    requires WellFormed(a) && |a.b1| + |a.b2| <= a.size + 1
    ensures WellFormed(Trim(a)) && |Trim(a).b1| + |Trim(a).b2| <= a.size
    ensures Keys(Trim(a).b1) <= Keys(a.b1) && Keys(Trim(a).b2) <= Keys(a.b2)
  {
    if |a.b1| > a.size - a.p {
      DropLastKeys(a.b1);
    }
    if |a.b2| > a.p {
      DropLastKeys(a.b2);
    }
  }

  // ---- Add ----

  /** Using an entry that is cached: it ends up first in t2. */
  lemma HitKeeps<K(!new), V(!new)>(a: Arc<K, V>, k: K, v: V)
    requires Inv(a) && (k in Keys(a.t1) || k in Keys(a.t2))
    ensures var r := a.(t1 := Without(a.t1, k), t2 := Added(a.t2, a.size, k, v));
            && Inv(r) && Residents(r) <= Residents(a)
            && (k in Keys(a.t1) || r == a.(t2 := Added(a.t2, a.size, k, v)))
            && r.t2 != [] && r.t2[0] == Entry(k, v)
            && (forall e :: e in r.t1 + r.t2 ==> e == Entry(k, v) || (e in a.t1 + a.t2 && e.key != k))
  {
    WithoutDistinct(a.t1, k);
    AddedKeys(a.t2, a.size, k, v);
    forall e | e in a.t2 && k in Keys(a.t1) ensures e.key != k {
      MemberKey(a.t2, e);
    }
  }

  /** The state after a key leaves the ghost lists and enters t2. */
  function Readmit<K(==,!new), V(!new)>(a: Arc<K, V>, k: K, v: V): Arc<K, V> {
    a.(b1 := Without(a.b1, k), b2 := Without(a.b2, k), t2 := Added(a.t2, a.size, k, v))
  }

  lemma ReadmitKeeps<K(!new), V(!new)>(a: Arc<K, V>, k: K, v: V)
    requires WellFormed(a) && k !in Keys(a.t1) && k !in Keys(a.t2)
    requires |a.b1| + |a.b2| <= a.size + if k in Keys(a.b1) || k in Keys(a.b2) then 1 else 0
    ensures var r := Readmit(a, k, v);
            && WellFormed(r) && |r.b1| + |r.b2| <= a.size
            && Residents(r) == Residents(a) + (if |a.t2| < a.size then 1 else 0)
            && r.t2 != [] && r.t2[0] == Entry(k, v)
            && (forall e :: e in r.t1 + r.t2 ==> e == Entry(k, v) || (e in a.t1 + a.t2 && e.key != k))
  {
    WithoutDistinct(a.b1, k);
    WithoutDistinct(a.b2, k);
    AddedKeys(a.t2, a.size, k, v);
    forall e | e in a.t1 ensures e.key != k {
      MemberKey(a.t1, e);
    }
  }

  /** Readmitting a key from a ghost list: p moves, one entry may be replaced, the key enters t2. */
  lemma GhostHitKeeps<K(!new), V(!new)>(a: Arc<K, V>, k: K, v: V)
    requires Inv(a) && k !in Keys(a.t1) && k !in Keys(a.t2)
    requires k in Keys(a.b1) || k in Keys(a.b2)
    ensures var r := Add(a, k, v);
            && Inv(r) && r.t2 != [] && r.t2[0] == Entry(k, v)
            && (forall e :: e in r.t1 + r.t2 ==> e == Entry(k, v) || (e in a.t1 + a.t2 && e.key != k))
            && (Residents(a) <= a.size ==>
                  (Residents(r) > a.size <==>
                     k in Keys(a.b1) && |a.t1| == a.size && a.t2 == [] && Raised(a) == a.size))
  {
    hide Without, Added, Replace, Distinct;
    var inB1 := k in Keys(a.b1);
    var start := a.(p := if inB1 then Raised(a) else Lowered(a));
    var r := MakeRoom(start, !inB1);
    ReplaceKeeps(start, !inB1);
    ReadmitKeeps(r, k, v);
    assert Add(a, k, v) == Readmit(r, k, v);
  }

  /** Adding a key no list knows. */
  lemma MissKeeps<K(!new), V(!new)>(a: Arc<K, V>, k: K, v: V)
    requires Inv(a) && k !in Keys(a.t1) && k !in Keys(a.t2) && k !in Keys(a.b1) && k !in Keys(a.b2)
    ensures var r := Add(a, k, v);
            && Inv(r) && r.t1 != [] && r.t1[0] == Entry(k, v)
            && (forall e :: e in r.t1 + r.t2 ==> e == Entry(k, v) || (e in a.t1 + a.t2 && e.key != k))
            && (Residents(a) <= a.size ==> Residents(r) <= a.size)
  {
    hide Without, Added, Replace, Distinct;
    var m := MakeRoom(a, false);
    ReplaceKeeps(a, false);
    TrimKeeps(m);
    var r := Trim(m);
    AddedKeys(r.t1, a.size, k, v);
    forall e | e in r.t1 + r.t2 ensures e in a.t1 + a.t2 && e.key != k {
      if e in r.t1 { MemberKey(r.t1, e); } else { MemberKey(r.t2, e); }
    }
  }

  /** Add keeps the invariant, caches the pair, and adds nothing else to the cache. */
  lemma AddKeeps<K(!new), V(!new)>(a: Arc<K, V>, k: K, v: V)
    requires Inv(a)
    ensures Inv(Add(a, k, v))
    ensures Peek(Add(a, k, v), k) == Some(v)
    ensures forall e :: e in Add(a, k, v).t1 + Add(a, k, v).t2 ==> e == Entry(k, v) || (e in a.t1 + a.t2 && e.key != k)
  {
    hide Without, Added, Replace, Distinct, Trim, MakeRoom;
    var r := Add(a, k, v);
    if k in Keys(a.t1) || k in Keys(a.t2) {
      HitKeeps(a, k, v);
    } else if k in Keys(a.b1) || k in Keys(a.b2) {
      GhostHitKeeps(a, k, v);
    } else {
      MissKeeps(a, k, v);
    }
    FirstIsPeeked(r, k, v);
  }

  lemma FirstIsPeeked<K(!new), V(!new)>(a: Arc<K, V>, k: K, v: V)
    requires WellFormed(a)
    requires (a.t1 != [] && a.t1[0] == Entry(k, v)) || (a.t2 != [] && a.t2[0] == Entry(k, v))
    ensures Peek(a, k) == Some(v)
  {
    if a.t1 != [] && a.t1[0] == Entry(k, v) {
      LookupUnique(a.t1, Entry(k, v));
    } else {
      LookupUnique(a.t2, Entry(k, v));
      MemberKey(a.t2, Entry(k, v));
    }
  }

  /** A b1 hit raises p to size if one step does, or the ratio of the ghost lists. */
  lemma RaisedToSize<K, V>(a: Arc<K, V>)
    requires a.b1 != [] && a.p <= a.size
    ensures Raised(a) == a.size <==> a.p + 1 >= a.size || |a.b2| >= (a.size - a.p) * |a.b1|
  {
    var n, x, y := a.size - a.p, |a.b1|, |a.b2|;
    QuotientAtLeast(y, x, n);
    if y <= x && n > 1 {
      MulGrows(2, n, x);
    }
  }

  /**
    From a state within size, Add exceeds it exactly when a b1 hit raises p to size while t1 alone is full.
   */
  lemma AddExceedsIff<K(!new), V(!new)>(a: Arc<K, V>, k: K, v: V)
    requires Inv(a) && Residents(a) <= a.size
    ensures Residents(Add(a, k, v)) > a.size <==>
            && k in Keys(a.b1) && |a.t1| == a.size && a.t2 == []
            && (a.p + 1 >= a.size || |a.b2| >= (a.size - a.p) * |a.b1|)
  {
    if k in Keys(a.b1) {
      RaisedToSize(a);
    }
    if k in Keys(a.t1) || k in Keys(a.t2) {
      HitKeeps(a, k, v);
    } else if k in Keys(a.b1) || k in Keys(a.b2) {
      GhostHitKeeps(a, k, v);
    } else {
      MissKeeps(a, k, v);
    }
  }

  /** The corner is reached by three Adds to a cache of size 1. */
  lemma SizeIsExceeded()
    ensures var a := Add(Add(Add(New<int, int>(1), 7, 0), 8, 0), 7, 0);
            Inv(a) && Residents(a) == 2
  {
    FullAndGhosted();
    var a2 := Add(Add(New<int, int>(1), 7, 0), 8, 0);
    AddKeeps(a2, 7, 0);
    AddExceedsIff(a2, 7, 0);
  }

  lemma FullAndGhosted()
    ensures var a := Add(Add(New<int, int>(1), 7, 0), 8, 0);
            a == Arc(1, 0, [Entry(8, 0)], [], [Entry(7, ())], []) && Inv(a) && 7 in Keys(a.b1)
  {
    var a1 := Add(New<int, int>(1), 7, 0);
    assert a1.t1 == [Entry(7, 0)] && a1.t2 == [] && a1.b1 == [] && a1.b2 == [];
    var a2 := Add(a1, 8, 0);
    assert Keys(a1.t1) == {7};
    assert a2.b1[0].key == 7 && a2.t1[0].key == 8;
  }

  // ---- The other operations ----

  lemma GetKeeps<K(!new), V(!new)>(a: Arc<K, V>, k: K)
    requires Inv(a)
    ensures Inv(Get(a, k)) && Residents(Get(a, k)) <= Residents(a)
    ensures forall e :: e in Get(a, k).t1 + Get(a, k).t2 ==> e in a.t1 + a.t2
    ensures Peek(Get(a, k), k) == Peek(a, k)
  {
    var r := Lookup(a.t1, k);
    if r.Some? {
      HitKeeps(a, k, r.value);
      FirstIsPeeked(Get(a, k), k, r.value);
    } else {
      TouchedKeys(a.t2, k);
      var u := Lookup(a.t2, k);
      if u.Some? {
        FirstIsPeeked(Get(a, k), k, u.value);
      }
    }
  }

  /** Because the lists are disjoint, stopping at the first list that has the key removes it from all. */
  lemma RemoveLeavesNone<K(!new), V(!new)>(a: Arc<K, V>, k: K)
    requires Inv(a)
    ensures var r := Remove(a, k);
            && Inv(r)
            && Keys(r.t1) == Keys(a.t1) - {k} && Keys(r.t2) == Keys(a.t2) - {k}
            && Keys(r.b1) == Keys(a.b1) - {k} && Keys(r.b2) == Keys(a.b2) - {k}
    ensures forall e :: e in Remove(a, k).t1 + Remove(a, k).t2 ==> e in a.t1 + a.t2
  {
    WithoutDistinct(a.t1, k);
    WithoutDistinct(a.t2, k);
    WithoutDistinct(a.b1, k);
    WithoutDistinct(a.b2, k);
  }

  // ---- Runs ----

  function Step<K(==,!new), V(!new)>(a: Arc<K, V>, op: Op<K, V>): Arc<K, V> {
    match op
    case AddOp(k, v) => Add(a, k, v)
    case GetOp(k) => Get(a, k)
    case RemoveOp(k) => Remove(a, k)
    case PurgeOp => Purge(a)
  }

  function Run<K(==,!new), V(!new)>(a: Arc<K, V>, ops: seq<Op<K, V>>): Arc<K, V>
    decreases ops
  {
    if ops == [] then a else Run(Step(a, ops[0]), ops[1..])
  }

  lemma StepKeeps<K(!new), V(!new)>(a: Arc<K, V>, op: Op<K, V>, latest: map<K, V>)
    requires Inv(a) && Agrees(a.t1 + a.t2, latest)
    ensures Inv(Step(a, op))
    ensures Agrees(Step(a, op).t1 + Step(a, op).t2, Noted(latest, op))
  {
    hide Add, Get, Remove, WellFormed;
    match op {
      case AddOp(k, v) => AddKeeps(a, k, v);
      case GetOp(k) => GetKeeps(a, k);
      case RemoveOp(k) => RemoveLeavesNone(a, k);
      case PurgeOp => PurgeKeeps(a);
    }
  }

  lemma PurgeKeeps<K(!new), V(!new)>(a: Arc<K, V>)
    requires Inv(a)
    ensures Inv(Purge(a))
  {
  }

  lemma {:induction false} RunKeeps<K(!new), V(!new)>(a: Arc<K, V>, ops: seq<Op<K, V>>, latest: map<K, V>)
    requires Inv(a) && Agrees(a.t1 + a.t2, latest)
    ensures Inv(Run(a, ops)) && Agrees(Run(a, ops).t1 + Run(a, ops).t2, LastAdded(ops, latest))
    decreases ops
  {
    if ops != [] {
      StepKeeps(a, ops[0], latest);
      RunKeeps(Step(a, ops[0]), ops[1..], Noted(latest, ops[0]));
    }
  }

  /**
    After any run of a new cache: p within [0, size], the four lists disjoint, at most size ghosts and
    size + 1 residents, and every lookup finds nothing or the value last added.
   */
  lemma ArcSound<K(!new), V(!new)>(size: nat, ops: seq<Op<K, V>>, k: K)
    requires size >= 1
    ensures var a := Run(New(size), ops);
            && Inv(a)
            && (Peek(a, k) == None || (k in LastAdded(ops, map[]) && Peek(a, k) == Some(LastAdded(ops, map[])[k])))
  {
    RunKeeps(New<K, V>(size), ops, map[]);
    var a := Run(New<K, V>(size), ops);
    if Peek(a, k).Some? {
      assert Entry(k, Peek(a, k).value) in a.t1 + a.t2;
    }
  }
}
