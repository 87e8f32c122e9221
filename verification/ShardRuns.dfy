/** Whole runs of a bigcache shard: the map stays in step with the records, and reads return the latest write. */
module ShardRuns {
  import opened Bytes
  import opened RingLayout
  import opened Encoding
  import opened ShardModel
  import opened ShardTheorems

  type Key = seq<byte>
  type Value = seq<byte>

  datatype Op =
    | SetOp(now: uint64, key: Key, value: Value)
    | AppendOp(now: uint64, key: Key, value: Value)
    | DeleteOp(key: Key)
    | CleanUpOp(now: uint64)
    | ResetOp

  ghost function Step(s: Shard, op: Op, hasher: Key -> uint64): Shard
    requires Inv(s)
  {
    match op
    case SetOp(now, key, value) => Set(s, now, hasher(key), key, value).shard
    case AppendOp(now, key, value) => Append(s, now, hasher(key), key, value).shard
    case DeleteOp(key) => Delete(s, hasher(key))
    case CleanUpOp(now) => CleanUp(s, now)
    case ResetOp => Reset(s)
  }

  ghost predicate Stores(s: Shard, op: Op, hasher: Key -> uint64)
    requires Inv(s)
  {
    || (op.SetOp? && Set(s, op.now, hasher(op.key), op.key, op.value).status == Done)
    || (op.AppendOp? && Append(s, op.now, hasher(op.key), op.key, op.value).status == Done)
  }

  /**
    What the statements about runs assume of each write: the hasher does not return the
    tombstone hash, the key's length fits uint16 with the header, the entry fits 32-bit
    offsets without growth over a boundary gap, and a failure leaves no mapping dangling.
   */
  ghost predicate SafeStep(s: Shard, op: Op, hasher: Key -> uint64)
    requires Inv(s)
  {
    match op
    case SetOp(now, key, value) =>
      && hasher(key) != 0 && |key| <= MAX_KEY
      && FitsRing(BeforeOverwrite(s, now, hasher(key)), Wrapped(now, hasher(key), key, value))
      && !Dangles(s, hasher(key), Wrapped(now, hasher(key), key, value))
    case AppendOp(now, key, value) =>
      && hasher(key) != 0 && |key| <= MAX_KEY
      && FitsRing(BeforeAppend(s, now, hasher(key), key), AppendEntry(s, now, hasher(key), key, value))
      && (MatchKey(s, hasher(key), key).Same? ==>
            !Dangles(s, hasher(key), AppendEntry(s, now, hasher(key), key, value)))
    case _ => true
  }

  /** A safe step leaves every map entry leading to a live record with its hash. */
  lemma StepKeepsInv(s: Shard, op: Op, hasher: Key -> uint64)
    requires Inv(s) && SafeStep(s, op, hasher)
    ensures Inv(Step(s, op, hasher))
  {
    hide InvExcept, FitsRing, BeforeOverwrite, Dangles, Set, Append, CleanUp;
    match op {
      case SetOp(now, key, value) => SetKeepsInvariantIff(s, now, hasher(key), key, value);
      case AppendOp(now, key, value) => AppendKeepsInvariantIff(s, now, hasher(key), key, value);
      case DeleteOp(key) => DeleteCorrect(s, hasher(key));
      case CleanUpOp(now) => CleanUpCorrect(s, now);
      case ResetOp => ResetKeepsInv(s);
    }
  }

  lemma ResetKeepsInv(s: Shard)
    ensures Inv(Reset(s))
  {
    assert Reset(s).q.Records() == [];
  }

  // ---- Latest writes ----

  /** The values of the keys whose hash is not h. */
  function Forget(latest: map<Key, Value>, h: uint64, hasher: Key -> uint64): map<Key, Value> {
    map k | k in latest && hasher(k) != h :: latest[k]
  }

  /**
    The value the caller last stored under each key, as long as nothing was done that takes it away: a
    deletion or another write under its hash, or a reset. A cached key's Append extends what was last stored.
   */
  ghost function Latest(s: Shard, op: Op, hasher: Key -> uint64, latest: map<Key, Value>): map<Key, Value>
    requires Inv(s)
  {
    match op
    case SetOp(_, key, value) =>
      if Stores(s, op, hasher) then Forget(latest, hasher(key), hasher)[key := value] else latest
    case AppendOp(_, key, value) =>
      if !Stores(s, op, hasher) then latest
      else
        var before := if Get(s, hasher(key), key).Found? && key in latest then latest[key] else [];
        Forget(latest, hasher(key), hasher)[key := before + value]
    case DeleteOp(key) => Forget(latest, hasher(key), hasher)
    case CleanUpOp(_) => latest
    case ResetOp => map[]
  }

  /** The entry can be read, hashes to its own hash field and holds its key's latest value. */
  ghost predicate EntryAgrees(data: seq<byte>, latest: map<Key, Value>, hasher: Key -> uint64) {
    && |data| >= HEADERS_SIZE && ReadKey(data).Got? && ReadEntry(data).Got?
    && hasher(ReadKey(data).bytes) == HashOf(data)
    && ReadKey(data).bytes in latest && latest[ReadKey(data).bytes] == ReadEntry(data).bytes
  }

  ghost predicate Indexed(s: Shard, r: Record) {
    HashOf(r.data) != 0 && HashOf(r.data) in s.index && s.index[HashOf(r.data)] == r.off
  }

  ghost predicate Agrees(s: Shard, latest: map<Key, Value>, hasher: Key -> uint64) {
    forall r :: r in s.q.Records() && Indexed(s, r) ==> EntryAgrees(r.data, latest, hasher)
  }

  /** A state whose hashed records and mappings all come from another's agrees when that one does. */
  lemma AgreesShrinks(s: Shard, t: Shard, latest: map<Key, Value>, hasher: Key -> uint64)
    requires Agrees(s, latest, hasher)
    requires forall r :: r in t.q.Records() && HashOf(r.data) != 0 ==> r in s.q.Records()
    requires forall g :: g in t.index ==> g in s.index && t.index[g] == s.index[g]
    ensures Agrees(t, latest, hasher)
  {
  }

  lemma TombstoneShrinks(s: Shard, h: uint64)
    requires Inv(s)
    ensures forall r :: r in Tombstone(s, h).q.Records() && HashOf(r.data) != 0 ==> r in s.q.Records()
  {
    if h in s.index {
      var recs := s.q.Records();
      RingZeroAtKeeps(s.q, s.index[h]);
      forall r | r in Tombstone(s, h).q.Records() && HashOf(r.data) != 0 ensures r in recs {
        var i :| 0 <= i < |recs| && ZeroAt(recs, s.index[h])[i] == r;
        if r != recs[i] {
          TombstonedReadsBack(recs[i].data);
        }
      }
    }
  }

  lemma BeforeOverwriteShrinks(s: Shard, now: uint64, h: uint64)
    requires Inv(s)
    ensures var t := BeforeOverwrite(s, now, h);
            && (forall r :: r in t.q.Records() && HashOf(r.data) != 0 ==> r in s.q.Records())
            && (forall g :: g in t.index ==> g in s.index && t.index[g] == s.index[g])
  {
    TombstoneShrinks(s, h);
    TombstoneKeepsOthers(s, h);
    ExpireOldestShrinks(Tombstone(s, h), now, h);
  }

  /** Filler records carry hash 0. */
  lemma FillersHaveNoHash(q: Ring)
    ensures forall f :: f in q.Filler() ==> HashOf(f.data) == 0
  {
    if q.tail < q.head {
      var data := Zeros(FillerLength(q.head - q.tail));
      if |data| >= 16 {
        ZeroDecodesToZero(data[8..16]);
      }
    }
  }

  /** The push loop adds no hashed record but the entry, which it maps. */
  lemma {:induction false} InsertAddsOnly(s: Shard, w: seq<byte>, h: uint64, x: uint64)
    requires InvExcept(s, x) && (x == 0 || x == h) && h != 0
    requires HEADERS_SIZE <= |w| && HashOf(w) == h && FitsRing(s, w)
    ensures var o := Insert(s, w, h);
            && (o.status == Done ==> h in o.shard.index)
            && forall r :: r in o.shard.q.Records() && HashOf(r.data) != 0 ==>
                             r in s.q.Records() || (o.status == Done && r == Record(o.shard.index[h], w))
    decreases |s.q.Records()|
  {
    if !s.q.Refuses(Need(|w|)) {
      PushRecords(s.q, w);
      FillersHaveNoHash(s.q);
    } else if s.q.Records() != [] {
      RemoveOldestKeeps(s, NoSpace, x);
      RefusedNeverGrows(s.q, RemoveOldest(s, NoSpace).q, |w|);
      InsertAddsOnly(RemoveOldest(s, NoSpace), w, h, x);
    }
  }

  /** Storing a readable entry as its key's latest value keeps the agreement of all others. */
  lemma InsertAgrees(s: Shard, w: seq<byte>, h: uint64, x: uint64,
                     latest: map<Key, Value>, hasher: Key -> uint64)
    requires InvExcept(s, x) && (x == 0 || x == h) && h != 0
    requires HEADERS_SIZE <= |w| && HashOf(w) == h && FitsRing(s, w)
    requires ReadKey(w).Got? && ReadEntry(w).Got? && hasher(ReadKey(w).bytes) == h
    requires Agrees(s, latest, hasher)
    ensures var o := Insert(s, w, h);
            Agrees(o.shard,
                   if o.status == Done then Forget(latest, h, hasher)[ReadKey(w).bytes := ReadEntry(w).bytes] else latest,
                   hasher)
  {
    InsertCorrect(s, w, h, x);
    InsertAddsOnly(s, w, h, x);
    InsertShrinks(s, w, h, x);
    var o := Insert(s, w, h);
    if o.status == Done {
      var t := o.shard;
      var latest' := Forget(latest, h, hasher)[ReadKey(w).bytes := ReadEntry(w).bytes];
      forall r | r in t.q.Records() && Indexed(t, r) ensures EntryAgrees(r.data, latest', hasher) {
        if r != Record(t.index[h], w) {
          assert r in s.q.Records();
          if HashOf(r.data) == h {
            SameOffsetSameRecord(t.q, r, Record(t.index[h], w));
          }
          assert Indexed(s, r);
        }
      }
    }
  }

  lemma SameOffsetSameRecord(q: Ring, a: Record, b: Record)
    requires q.Valid() && a in q.Records() && b in q.Records() && a.off == b.off
    ensures a == b
  {
    var i :| 0 <= i < |q.Records()| && q.Records()[i] == a;
    var j :| 0 <= j < |q.Records()| && q.Records()[j] == b;
    OffsetsDistinct(q, i, j);
  }

  lemma SetAgrees(s: Shard, op: Op, latest: map<Key, Value>, hasher: Key -> uint64)
    requires op.SetOp? && Inv(s) && SafeStep(s, op, hasher) && Agrees(s, latest, hasher)
    ensures Agrees(Step(s, op, hasher), Latest(s, op, hasher, latest), hasher)
  {
    hide InvExcept, TooBig, Get, ReadKey, ReadEntry, ReadHash, ReadTimestamp, BeforeOverwrite, Insert, Agrees, Wrapped;
    var h := hasher(op.key);
    var b := BeforeOverwrite(s, op.now, h);
    SetCorrect(s, op.now, h, op.key, op.value);
    WrappedReadsBack(op.now, h, op.key, op.value);
    BeforeOverwriteKeeps(s, op.now, h);
    BeforeOverwriteShrinks(s, op.now, h);
    InsertShrinks(b, Wrapped(op.now, h, op.key, op.value), h, h);
    AgreesShrinks(s, b, latest, hasher);
    InsertAgrees(b, Wrapped(op.now, h, op.key, op.value), h, h, latest, hasher);
  }

  /** In an agreeing state every mapped entry can be read, and a stored key's value is its latest. */
  lemma MatchAgrees(s: Shard, key: Key, latest: map<Key, Value>, hasher: Key -> uint64)
    requires Inv(s) && Agrees(s, latest, hasher)
    ensures var m := MatchKey(s, hasher(key), key);
            && !m.Unreadable?
            && (m.Same? ==> && EntryAgrees(m.entry, latest, hasher) && HashOf(m.entry) == hasher(key)
                            && ReadKey(m.entry) == Got(key) && Get(s, hasher(key), key) == Found(latest[key]))
  {
    if hasher(key) in s.index {
      var r := EntryOf(s, hasher(key));
      assert Indexed(s, r);
    }
  }

  /** append on a cached key stores the old value and the new one. */
  lemma ExtendAgrees(s: Shard, op: Op, latest: map<Key, Value>, hasher: Key -> uint64)
    requires op.AppendOp? && Inv(s) && SafeStep(s, op, hasher) && Agrees(s, latest, hasher)
    requires MatchKey(s, hasher(op.key), op.key).Same?
    ensures Agrees(Step(s, op, hasher), Latest(s, op, hasher, latest), hasher)
  {
    hide Find, HashOf, ReadTimestamp, Roomy, Ring.Valid, IsEntry, Agrees, Insert, BeforeOverwrite;
    var h := hasher(op.key);
    var b := BeforeOverwrite(s, op.now, h);
    MatchAgrees(s, op.key, latest, hasher);
    AppendedReadsBack(op.now, MatchKey(s, h, op.key).entry, op.value);
    AppendedIsEntry(s, op.now, h, op.key, op.value);
    BeforeOverwriteKeeps(s, op.now, h);
    BeforeOverwriteShrinks(s, op.now, h);
    AgreesShrinks(s, b, latest, hasher);
    InsertAgrees(b, AppendEntry(s, op.now, h, op.key, op.value), h, h, latest, hasher);
  }

  lemma AppendAgrees(s: Shard, op: Op, latest: map<Key, Value>, hasher: Key -> uint64)
    requires op.AppendOp? && Inv(s) && SafeStep(s, op, hasher) && Agrees(s, latest, hasher)
    ensures Agrees(Step(s, op, hasher), Latest(s, op, hasher, latest), hasher)
  {
    hide Find, HashOf, ReadTimestamp, Roomy, Ring.Valid, IsEntry, Agrees, Insert, ExpireOldest;
    var h := hasher(op.key);
    MatchAgrees(s, op.key, latest, hasher);
    if MatchKey(s, h, op.key).Same? {
      ExtendAgrees(s, op, latest, hasher);
    } else {
      var b := ExpireOldest(s, op.now);
      WrappedReadsBack(op.now, h, op.key, op.value);
      WrappedHash(op.now, h, op.key, op.value);
      assert [] + op.value == op.value;
      ExpireOldestKeeps(s, op.now, 0);
      ExpireOldestShrinks(s, op.now, 0);
      AgreesShrinks(s, b, latest, hasher);
      InsertAgrees(b, Wrapped(op.now, h, op.key, op.value), h, 0, latest, hasher);
    }
  }

  lemma WrappedHash(now: uint64, h: uint64, key: Key, value: Value)
    ensures HashOf(Wrapped(now, h, key, value)) == h
  {
    WrappedReadsBack(now, h, key, value);
  }

  lemma DeleteAgrees(s: Shard, h: uint64, latest: map<Key, Value>, hasher: Key -> uint64)
    requires Inv(s) && Agrees(s, latest, hasher)
    ensures Agrees(Delete(s, h), Forget(latest, h, hasher), hasher)
  {
    hide ReadKey, ReadEntry, HashOf, Tombstone, Find;
    var t := Delete(s, h);
    DeleteCorrect(s, h);
    DeleteShrinks(s, h);
    forall r | r in t.q.Records() && Indexed(t, r) ensures EntryAgrees(r.data, Forget(latest, h, hasher), hasher) {
      assert Indexed(s, r);
    }
  }

  lemma DeleteShrinks(s: Shard, h: uint64)
    requires Inv(s)
    ensures forall r :: r in Delete(s, h).q.Records() && HashOf(r.data) != 0 ==> r in s.q.Records()
  {
    TombstoneShrinks(s, h);
  }

  /** Every operation keeps: what is mapped is readable, belongs to its hash and is its key's latest value. */
  lemma StepAgrees(s: Shard, op: Op, latest: map<Key, Value>, hasher: Key -> uint64)
    requires Inv(s) && SafeStep(s, op, hasher) && Agrees(s, latest, hasher)
    ensures Agrees(Step(s, op, hasher), Latest(s, op, hasher, latest), hasher)
  {
    hide SafeStep, EntryAgrees, Set, Append, Delete, Forget;
    match op {
      case SetOp(_, _, _) => SetAgrees(s, op, latest, hasher);
      case AppendOp(_, _, _) => AppendAgrees(s, op, latest, hasher);
      case DeleteOp(key) => DeleteAgrees(s, hasher(key), latest, hasher);
      case CleanUpOp(now) =>
        CleanUpCorrect(s, now);
        AgreesShrinks(s, CleanUp(s, now), latest, hasher);
      case ResetOp =>
    }
  }

  // ---- Runs ----

  ghost predicate SafeRun(s: Shard, ops: seq<Op>, hasher: Key -> uint64)
    requires Inv(s)
    decreases ops
  {
    ops == [] ||
    (&& SafeStep(s, ops[0], hasher)
     && (StepKeepsInv(s, ops[0], hasher);
         SafeRun(Step(s, ops[0], hasher), ops[1..], hasher)))
  }

  ghost function Run(s: Shard, ops: seq<Op>, hasher: Key -> uint64): Shard
    requires Inv(s) && SafeRun(s, ops, hasher)
    decreases ops
  {
    if ops == [] then s
    else
      StepKeepsInv(s, ops[0], hasher);
      Run(Step(s, ops[0], hasher), ops[1..], hasher)
  }

  ghost function LatestOf(s: Shard, ops: seq<Op>, hasher: Key -> uint64, latest: map<Key, Value>): map<Key, Value>
    requires Inv(s) && SafeRun(s, ops, hasher)
    decreases ops
  {
    if ops == [] then latest
    else
      StepKeepsInv(s, ops[0], hasher);
      LatestOf(Step(s, ops[0], hasher), ops[1..], hasher, Latest(s, ops[0], hasher, latest))
  }

  /** In every state that a safe run reaches, every map entry leads to the start of a live record with its hash. */
  lemma {:induction false} RunKeepsInv(s: Shard, ops: seq<Op>, hasher: Key -> uint64)
    requires Inv(s) && SafeRun(s, ops, hasher)
    ensures Inv(Run(s, ops, hasher))
    decreases ops
  {
    if ops != [] {
      StepKeepsInv(s, ops[0], hasher);
      RunKeepsInv(Step(s, ops[0], hasher), ops[1..], hasher);
    }
  }

  lemma {:induction false} RunAgrees(s: Shard, ops: seq<Op>, hasher: Key -> uint64, latest: map<Key, Value>)
    requires Inv(s) && SafeRun(s, ops, hasher) && Agrees(s, latest, hasher)
    ensures Inv(Run(s, ops, hasher))
    ensures Agrees(Run(s, ops, hasher), LatestOf(s, ops, hasher, latest), hasher)
    decreases ops
  {
    if ops != [] {
      StepKeepsInv(s, ops[0], hasher);
      StepAgrees(s, ops[0], latest, hasher);
      RunAgrees(Step(s, ops[0], hasher), ops[1..], hasher, Latest(s, ops[0], hasher, latest));
    }
  }

  function NewShard(cap: nat, max: int, lifeWindow: uint64): (s: Shard)
    ensures Inv(s) && s.q.Records() == []
  {
    Shard(RingLayout.New(cap, max), map[], [], lifeWindow)
  }

  /**
    After any safe run from a new shard, get returns "not found" or the latest value stored under the key
    and not deleted, reset or displaced since.
   */
  lemma GetIsLatest(cap: nat, max: int, lifeWindow: uint64, ops: seq<Op>, hasher: Key -> uint64, key: Key)
    requires SafeRun(NewShard(cap, max, lifeWindow), ops, hasher)
    ensures var s := NewShard(cap, max, lifeWindow);
            var latest := LatestOf(s, ops, hasher, map[]);
            var got := Get(Run(s, ops, hasher), hasher(key), key);
            got == NotFound || (key in latest && got == Found(latest[key]))
  {
    var s := NewShard(cap, max, lifeWindow);
    RunAgrees(s, ops, hasher, map[]);
    MatchAgrees(Run(s, ops, hasher), key, LatestOf(s, ops, hasher, map[]), hasher);
  }

  // ---- Runs that are safe by their operations alone ----

  predicate Writes(op: Op) {
    op.SetOp? || op.AppendOp?
  }

  /** Bytes of value that the operation writes under the key. */
  function Adds(op: Op, key: Key): nat {
    if Writes(op) && op.key == key then |op.value| else 0
  }

  function TotalWritten(ops: seq<Op>, key: Key): nat {
    if ops == [] then 0 else Adds(ops[0], key) + TotalWritten(ops[1..], key)
  }

  function LengthOf(latest: map<Key, Value>, key: Key): nat {
    if key in latest then |latest[key]| else 0
  }

  /** An entry of the key that holds its latest value and all the run writes under it fits the capacity. */
  predicate FitsCapacity(op: Op, ops: seq<Op>, latest: map<Key, Value>, cap: nat, hasher: Key -> uint64) {
    Writes(op) ==>
      && hasher(op.key) != 0 && |op.key| <= MAX_KEY
      && Need(HEADERS_SIZE + |op.key| + LengthOf(latest, op.key) + TotalWritten(ops, op.key)) <= cap - 1
  }

  lemma NeedGrows(a: nat, b: nat)
    requires a <= b < UINT32_LIMIT
    ensures Need(a) <= Need(b)
  {
  }

  /** With the capacity at its limit an entry that fits is stored, without growth. */
  lemma WriteIsSafe(s: Shard, h: uint64, w: seq<byte>, b: Shard)
    requires 0 < s.q.cap == s.q.max < UINT32_LIMIT && b.q.cap == s.q.cap && b.q.max == s.q.max
    requires Need(|w|) <= s.q.cap - 1
    ensures FitsRing(b, w) && !Dangles(s, h, w)
  {
  }

  lemma StepOfFixedCapacity(s: Shard, op: Op, latest: map<Key, Value>, hasher: Key -> uint64)
    requires Inv(s) && Agrees(s, latest, hasher) && 0 < s.q.cap == s.q.max < UINT32_LIMIT
    requires FitsCapacity(op, [op], latest, s.q.cap, hasher)
    ensures SafeStep(s, op, hasher)
  {
    hide InvExcept, Agrees, BeforeOverwrite, BeforeAppend, AppendEntry, Need, Dangles, FitsRing, Wrapped, Get, ExpireOldest;
    match op {
      case SetOp(now, key, value) =>
        BeforeOverwriteKeeps(s, now, hasher(key));
        assert TotalWritten([op], key) == |value|;
        NeedAtMost(HEADERS_SIZE + |key| + |value|, HEADERS_SIZE + |key| + LengthOf(latest, key) + |value|, s.q.cap);
        WriteIsSafe(s, hasher(key), Wrapped(now, hasher(key), key, value), BeforeOverwrite(s, now, hasher(key)));
      case AppendOp(now, key, value) =>
        var w := AppendEntry(s, now, hasher(key), key, value);
        BeforeAppendCapacity(s, now, hasher(key), key);
        AppendEntryLength(s, now, key, value, latest, hasher);
        assert TotalWritten([op], key) == |value|;
        NeedAtMost(|w|, HEADERS_SIZE + |key| + LengthOf(latest, key) + |value|, s.q.cap);
        WriteIsSafe(s, hasher(key), w, BeforeAppend(s, now, hasher(key), key));
      case _ =>
    }
  }

  lemma BeforeAppendCapacity(s: Shard, now: uint64, h: uint64, key: Key)
    requires Inv(s)
    ensures BeforeAppend(s, now, h, key).q.cap == s.q.cap && BeforeAppend(s, now, h, key).q.max == s.q.max
  {
    BeforeOverwriteKeeps(s, now, h);
    ExpireOldestKeeps(s, now, 0);
  }

  lemma AppendEntryLength(s: Shard, now: uint64, key: Key, value: Value, latest: map<Key, Value>,
                          hasher: Key -> uint64)
    requires Inv(s) && Agrees(s, latest, hasher)
    ensures |AppendEntry(s, now, hasher(key), key, value)| <= HEADERS_SIZE + |key| + LengthOf(latest, key) + |value|
  {
    hide InvExcept, Agrees, Get;
    MatchAgrees(s, key, latest, hasher);
  }

  lemma StepKeepsCapacity(s: Shard, op: Op, hasher: Key -> uint64)
    requires Inv(s) && SafeStep(s, op, hasher) && 0 < s.q.cap == s.q.max
    ensures Step(s, op, hasher).q.cap == s.q.cap && Step(s, op, hasher).q.max == s.q.max
  {
    match op {
      case SetOp(now, key, value) =>
        BeforeOverwriteKeeps(s, now, hasher(key));
        InsertKeepsCapacity(BeforeOverwrite(s, now, hasher(key)), Wrapped(now, hasher(key), key, value),
                            hasher(key), hasher(key));
      case AppendOp(now, key, value) =>
        BeforeOverwriteKeeps(s, now, hasher(key));
        ExpireOldestKeeps(s, now, 0);
        if MatchKey(s, hasher(key), key).Same? {
          InsertKeepsCapacity(BeforeOverwrite(s, now, hasher(key)), AppendEntry(s, now, hasher(key), key, value),
                              hasher(key), hasher(key));
        } else {
          InsertKeepsCapacity(ExpireOldest(s, now), AppendEntry(s, now, hasher(key), key, value), hasher(key), 0);
        }
      case CleanUpOp(now) => CleanUpCorrect(s, now);
      case _ =>
    }
  }

  lemma {:induction false} InsertKeepsCapacity(s: Shard, w: seq<byte>, h: uint64, x: uint64)
    requires InvExcept(s, x) && 0 < s.q.cap == s.q.max
    ensures Insert(s, w, h).shard.q.cap == s.q.cap && Insert(s, w, h).shard.q.max == s.q.max
    decreases |s.q.Records()|
  {
    if s.q.Refuses(Need(|w|)) && s.q.Records() != [] {
      RemoveOldestKeeps(s, NoSpace, x);
      InsertKeepsCapacity(RemoveOldest(s, NoSpace), w, h, x);
    }
  }

  // ---- The size limit ----

  ghost predicate WithinLimit(s: Shard, t: Shard) {
    s.q.cap <= t.q.cap && t.q.max == s.q.max && (s.q.max > 0 && s.q.cap <= s.q.max ==> t.q.cap <= s.q.max)
  }

  lemma {:induction false} InsertKeepsLimit(s: Shard, w: seq<byte>, h: uint64, x: uint64)
    requires InvExcept(s, x) && FitsRing(s, w)
    ensures WithinLimit(s, Insert(s, w, h).shard)
    decreases |s.q.Records()|
  {
    hide Ring.Push, Ring.Valid;
    if !s.q.Refuses(Need(|w|)) {
      CapacityKept(s.q, w);
    } else if s.q.Records() != [] {
      RemoveOldestKeeps(s, NoSpace, x);
      RefusedNeverGrows(s.q, RemoveOldest(s, NoSpace).q, |w|);
      InsertKeepsLimit(RemoveOldest(s, NoSpace), w, h, x);
    }
  }

  lemma StepKeepsLimit(s: Shard, op: Op, hasher: Key -> uint64)
    requires Inv(s) && SafeStep(s, op, hasher)
    ensures WithinLimit(s, Step(s, op, hasher))
  {
    hide Insert, Wrapped, Dangles, BeforeOverwrite, ExpireOldest, CleanUp;
    match op {
      case SetOp(now, key, value) =>
        BeforeOverwriteKeeps(s, now, hasher(key));
        InsertKeepsLimit(BeforeOverwrite(s, now, hasher(key)), Wrapped(now, hasher(key), key, value), hasher(key), hasher(key));
      case AppendOp(now, key, value) =>
        BeforeOverwriteKeeps(s, now, hasher(key));
        ExpireOldestKeeps(s, now, 0);
        if MatchKey(s, hasher(key), key).Same? {
          InsertKeepsLimit(BeforeOverwrite(s, now, hasher(key)), AppendEntry(s, now, hasher(key), key, value),
                           hasher(key), hasher(key));
        } else {
          InsertKeepsLimit(ExpireOldest(s, now), AppendEntry(s, now, hasher(key), key, value), hasher(key), 0);
        }
      case CleanUpOp(now) => CleanUpCorrect(s, now);
      case _ =>
    }
  }

  /** Over every safe run a shard stays within its size limit. */
  lemma {:induction false} RunKeepsLimit(s: Shard, ops: seq<Op>, hasher: Key -> uint64)
    requires Inv(s) && SafeRun(s, ops, hasher)
    ensures WithinLimit(s, Run(s, ops, hasher))
    decreases ops
  {
    hide Step, SafeStep, Inv;
    if ops != [] {
      StepKeepsInv(s, ops[0], hasher);
      StepKeepsLimit(s, ops[0], hasher);
      RunKeepsLimit(Step(s, ops[0], hasher), ops[1..], hasher);
    }
  }

  // ---- Runs of fixed capacity ----

  /** What is stored under a key is no longer than what was, and what the operation adds. */
  lemma LatestGrows(s: Shard, op: Op, hasher: Key -> uint64, latest: map<Key, Value>, key: Key)
    requires Inv(s)
    ensures LengthOf(Latest(s, op, hasher, latest), key) <= LengthOf(latest, key) + Adds(op, key)
  {
    hide Inv, Get, Stores;
  }

  /**
    On a shard of fixed capacity a run is safe as soon as every key written has a non-zero hash, at most 65517
    bytes, and room for all that is written under it.
   */
  lemma {:induction false} FixedCapacityRunsAreSafe(s: Shard, ops: seq<Op>, latest: map<Key, Value>, hasher: Key -> uint64)
    requires Inv(s) && Agrees(s, latest, hasher) && 0 < s.q.cap == s.q.max < UINT32_LIMIT
    requires forall op :: op in ops ==> FitsCapacity(op, ops, latest, s.q.cap, hasher)
    ensures SafeRun(s, ops, hasher)
    decreases ops
  {
    hide Inv, Agrees, SafeStep, Step, Latest, Need;
    if ops != [] {
      var op := ops[0];
      var latest' := Latest(s, op, hasher, latest);
      assert op in ops;
      if Writes(op) {
        assert TotalWritten([op], op.key) == |op.value|;
        NeedAtMost(HEADERS_SIZE + |op.key| + LengthOf(latest, op.key) + |op.value|,
                   HEADERS_SIZE + |op.key| + LengthOf(latest, op.key) + TotalWritten(ops, op.key), s.q.cap);
      }
      StepOfFixedCapacity(s, op, latest, hasher);
      StepKeepsInv(s, op, hasher);
      StepAgrees(s, op, latest, hasher);
      StepKeepsCapacity(s, op, hasher);
      forall later | later in ops[1..] ensures FitsCapacity(later, ops[1..], latest', s.q.cap, hasher) {
        assert later in ops;
        if Writes(later) {
          LatestGrows(s, op, hasher, latest, later.key);
          NeedAtMost(HEADERS_SIZE + |later.key| + LengthOf(latest', later.key) + TotalWritten(ops[1..], later.key),
                     HEADERS_SIZE + |later.key| + LengthOf(latest, later.key) + TotalWritten(ops, later.key), s.q.cap);
        }
      }
      FixedCapacityRunsAreSafe(Step(s, op, hasher), ops[1..], latest', hasher);
    }
  }

  lemma NeedAtMost(a: nat, b: nat, cap: nat)
    requires a <= b && Need(b) <= cap - 1 && cap < UINT32_LIMIT
    ensures Need(a) <= cap - 1
  {
    NeedGrows(a, b);
  }
}
