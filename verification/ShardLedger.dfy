/**
  Where the values of a bigcache shard go: every entry stored is live, was silently overwritten or
  reset away, or was reported through exactly one onRemove call. And the orphans a colliding append makes.
 */
module ShardLedger {
  import opened Bytes
  import opened RingLayout
  import opened Encoding
  import opened ShardModel
  import opened ShardTheorems
  import opened ShardRuns

  type Entries = multiset<seq<byte>>

  /** The entries with a hash, that is, neither tombstones nor fillers. */
  function Live(recs: seq<Record>): Entries {
    if recs == [] then multiset{} else LiveOne(recs[0]) + Live(recs[1..])
  }

  function LiveOne(r: Record): Entries {
    if HashOf(r.data) != 0 then multiset{r.data} else multiset{}
  }

  /** The entries passed to onRemove. */
  function Reported(log: seq<Removal>): Entries {
    if log == [] then multiset{} else Reported(log[..|log| - 1]) + multiset{log[|log| - 1].entry}
  }

  function Ledger(s: Shard): Entries {
    Live(s.q.Records()) + Reported(s.log)
  }

  // ---- Live entries of concatenations and tombstones ----

  lemma {:induction false} LiveConcat(a: seq<Record>, b: seq<Record>)
    ensures Live(a + b) == Live(a) + Live(b)
  {
    hide LiveOne;
    if a == [] {
      assert a + b == b;
    } else {
      LiveConcat(a[1..], b);
      assert (a + b)[1..] == a[1..] + b;
    }
  }

  lemma LiveSingle(r: Record)
    ensures Live([r]) == LiveOne(r)
  {
    assert [r][1..] == [];
  }

  lemma ReportedOneMore(log: seq<Removal>, r: Removal)
    ensures Reported(log + [r]) == Reported(log) + multiset{r.entry}
  {
    assert (log + [r])[..|log|] == log;
  }

  /** Tombstoning a live record takes exactly its entry out of the live ones. */
  lemma LiveZeroAt(q: Ring, r: Record)
    requires q.Valid() && r in q.Records() && |r.data| >= HEADERS_SIZE && HashOf(r.data) != 0
    ensures Live(ZeroAt(q.Records(), r.off)) + multiset{r.data} == Live(q.Records())
  {
    hide Live, LiveOne, Tombstoned, Chain;
    var recs := q.Records();
    var i :| 0 <= i < |recs| && recs[i] == r;
    var z := Zeroed(r, r.off);
    forall j | 0 <= j < |recs| && j != i ensures recs[j].off != r.off {
      if recs[j].off == r.off {
        OffsetsDistinct(q, i, j);
      }
    }
    assert ZeroAt(recs, r.off) == recs[i := z];
    LiveUpdate(recs, i, z);
    LiveOneZeroed(r);
  }

  lemma {:induction false} LiveUpdate(recs: seq<Record>, i: nat, z: Record)
    requires i < |recs|
    ensures Live(recs[i := z]) + LiveOne(recs[i]) == Live(recs) + LiveOne(z)
  {
    hide LiveOne;
    if i == 0 {
      assert recs[0 := z][1..] == recs[1..];
    } else {
      LiveUpdate(recs[1..], i - 1, z);
      assert recs[i := z][1..] == recs[1..][i - 1 := z];
      assert Live(recs[i := z]) == LiveOne(recs[0]) + Live(recs[1..][i - 1 := z]);
      assert recs[1..][i - 1] == recs[i];
      assert Live(recs[i := z]) + LiveOne(recs[i]) == LiveOne(recs[0]) + (Live(recs[1..]) + LiveOne(z));
    }
  }

  lemma LiveOneZeroed(r: Record)
    requires |r.data| >= HEADERS_SIZE && HashOf(r.data) != 0
    ensures LiveOne(r) == multiset{r.data} && LiveOne(Zeroed(r, r.off)) == multiset{}
  {
    TombstonedReadsBack(r.data);
  }

  lemma {:induction false} LiveNone(recs: seq<Record>)
    requires forall r :: r in recs ==> HashOf(r.data) == 0
    ensures Live(recs) == multiset{}
  {
    if recs != [] {
      assert recs[0] in recs;
      LiveNone(recs[1..]);
    }
  }

  // ---- One step ----

  /** What the entry mapped to h contributes when it is tombstoned. */
  function Overwritten(s: Shard, h: uint64): Entries {
    if h in s.index then multiset{Find(s.q.Records(), s.index[h])} else multiset{}
  }

  lemma TombstoneLedger(s: Shard, h: uint64)
    requires Inv(s)
    ensures Ledger(Tombstone(s, h)) + Overwritten(s, h) == Ledger(s)
  {
    if h in s.index {
      var r := EntryOf(s, h);
      LiveZeroAt(s.q, r);
      RingZeroAtKeeps(s.q, s.index[h]);
    }
  }

  lemma RemoveOldestLedger(s: Shard, reason: RemoveReason, x: uint64)
    requires InvExcept(s, x) && s.q.Records() != []
    ensures Ledger(RemoveOldest(s, reason)) == Ledger(s)
  {
    RemoveOldestKeeps(s, reason, x);
    ReportedOneMore(s.log, Removal(s.q.Records()[0].data, reason));
  }

  lemma ExpireOldestLedger(s: Shard, now: uint64, x: uint64)
    requires InvExcept(s, x)
    ensures Ledger(ExpireOldest(s, now)) == Ledger(s)
  {
    if ExpireOldest(s, now) != s {
      RemoveOldestLedger(s, Expired, x);
    }
  }

  lemma PushLedger(q: Ring, w: seq<byte>)
    requires q.Valid() && q.cap < UINT32_LIMIT && |w| < UINT32_LIMIT && HashOf(w) != 0
    requires !q.Refuses(Need(|w|))
    ensures Live(q.Push(w).Records()) == Live(q.Records()) + multiset{w}
  {
    PushRecords(q, w);
    var r := Record(q.MakeRoom(Need(|w|)).tail, w);
    LiveConcat(q.older, q.newer);
    LiveSingle(r);
    FillersHaveNoHash(q);
    LiveNone(q.Filler());
    LiveConcat(q.newer, q.Filler());
    LiveConcat(q.newer + q.Filler(), q.older);
    LiveConcat(q.newer + q.Filler() + q.older, [r]);
    LiveConcat(q.Records(), [r]);
  }

  lemma {:induction false} InsertLedger(s: Shard, w: seq<byte>, h: uint64, x: uint64)
    requires InvExcept(s, x) && h != 0 && HashOf(w) == h && FitsRing(s, w)
    ensures var o := Insert(s, w, h);
            Ledger(o.shard) == Ledger(s) + if o.status == Done then multiset{w} else multiset{}
    decreases |s.q.Records()|
  {
    if !s.q.Refuses(Need(|w|)) {
      PushLedger(s.q, w);
    } else if s.q.Records() != [] {
      RemoveOldestKeeps(s, NoSpace, x);
      RemoveOldestLedger(s, NoSpace, x);
      RefusedNeverGrows(s.q, RemoveOldest(s, NoSpace).q, |w|);
      InsertLedger(RemoveOldest(s, NoSpace), w, h, x);
    }
  }

  lemma {:induction false} CleanUpLedger(s: Shard, now: uint64)
    requires Inv(s)
    ensures Ledger(CleanUp(s, now)) == Ledger(s)
    decreases |s.q.Records()|
  {
    if s.q.Records() != [] && IsExpired(now, s.q.Records()[0].data, s.lifeWindow) {
      RemoveOldestKeeps(s, Expired, 0);
      RemoveOldestLedger(s, Expired, 0);
      CleanUpLedger(RemoveOldest(s, Expired), now);
    }
  }

  lemma DeleteLedger(s: Shard, h: uint64)
    requires Inv(s)
    ensures Ledger(Delete(s, h)) == Ledger(s)
  {
    TombstoneLedger(s, h);
    if h in s.index {
      ReportedOneMore(s.log, Removal(Find(s.q.Records(), s.index[h]), Deleted));
    }
  }

  /** The entry the step stores, if it stores one. */
  ghost function Written(s: Shard, op: Op, hasher: Key -> uint64): Entries
    requires Inv(s)
  {
    if !Stores(s, op, hasher) then multiset{}
    else if op.SetOp? then multiset{Wrapped(op.now, hasher(op.key), op.key, op.value)}
    else multiset{AppendEntry(s, op.now, hasher(op.key), op.key, op.value)}
  }

  /** The entries the step drops without an onRemove call. */
  ghost function Silenced(s: Shard, op: Op, hasher: Key -> uint64): Entries
    requires Inv(s)
  {
    match op
    case SetOp(_, key, _) => Overwritten(s, hasher(key))
    case AppendOp(_, key, _) =>
      if MatchKey(s, hasher(key), key).Same? then Overwritten(s, hasher(key)) else multiset{}
    case ResetOp => Live(s.q.Records())
    case _ => multiset{}
  }

  lemma StepLedger(s: Shard, op: Op, hasher: Key -> uint64, latest: map<Key, Value>)
    requires Inv(s) && SafeStep(s, op, hasher) && Agrees(s, latest, hasher)
    ensures Ledger(Step(s, op, hasher)) + Silenced(s, op, hasher) == Ledger(s) + Written(s, op, hasher)
  {
    match op {
      case SetOp(now, key, value) => SetLedger(s, now, hasher(key), key, value);
      case AppendOp(now, key, value) =>
        MatchAgrees(s, key, latest, hasher);
        AppendLedger(s, now, hasher(key), key, value);
      case DeleteOp(key) => DeleteLedger(s, hasher(key));
      case CleanUpOp(now) => CleanUpLedger(s, now);
      case ResetOp =>
    }
  }

  lemma SetLedger(s: Shard, now: uint64, h: uint64, key: Key, value: Value)
    requires Inv(s) && h != 0
    requires FitsRing(BeforeOverwrite(s, now, h), Wrapped(now, h, key, value))
    ensures var o := Set(s, now, h, key, value);
            && Ledger(o.shard) + Overwritten(s, h)
               == Ledger(s) + (if o.status == Done then multiset{Wrapped(now, h, key, value)} else multiset{})
  {
    WrappedReadsBack(now, h, key, value);
    BeforeOverwriteKeeps(s, now, h);
    TombstoneKeepsOthers(s, h);
    TombstoneLedger(s, h);
    ExpireOldestLedger(Tombstone(s, h), now, h);
    InsertLedger(BeforeOverwrite(s, now, h), Wrapped(now, h, key, value), h, h);
  }

  lemma AppendLedger(s: Shard, now: uint64, h: uint64, key: Key, value: Value)
    requires Inv(s) && h != 0 && !MatchKey(s, h, key).Unreadable?
    requires FitsRing(BeforeAppend(s, now, h, key), AppendEntry(s, now, h, key, value))
    ensures var o := Append(s, now, h, key, value);
            && Ledger(o.shard) + (if MatchKey(s, h, key).Same? then Overwritten(s, h) else multiset{})
               == Ledger(s) + (if o.status == Done then multiset{AppendEntry(s, now, h, key, value)} else multiset{})
  {
    var w := AppendEntry(s, now, h, key, value);
    if MatchKey(s, h, key).Same? {
      var r := EntryOf(s, h);
      AppendedReadsBack(now, r.data, value);
      BeforeOverwriteKeeps(s, now, h);
      TombstoneKeepsOthers(s, h);
      TombstoneLedger(s, h);
      ExpireOldestLedger(Tombstone(s, h), now, h);
      InsertLedger(BeforeOverwrite(s, now, h), w, h, h);
    } else {
      WrappedReadsBack(now, h, key, value);
      ExpireOldestKeeps(s, now, 0);
      ExpireOldestLedger(s, now, 0);
      InsertLedger(ExpireOldest(s, now), w, h, 0);
    }
  }

  // ---- Whole runs ----

  ghost function WrittenBy(s: Shard, ops: seq<Op>, hasher: Key -> uint64): Entries
    requires Inv(s) && SafeRun(s, ops, hasher)
    decreases ops
  {
    if ops == [] then multiset{}
    else
      StepKeepsInv(s, ops[0], hasher);
      Written(s, ops[0], hasher) + WrittenBy(Step(s, ops[0], hasher), ops[1..], hasher)
  }

  ghost function SilencedBy(s: Shard, ops: seq<Op>, hasher: Key -> uint64): Entries
    requires Inv(s) && SafeRun(s, ops, hasher)
    decreases ops
  {
    if ops == [] then multiset{}
    else
      StepKeepsInv(s, ops[0], hasher);
      Silenced(s, ops[0], hasher) + SilencedBy(Step(s, ops[0], hasher), ops[1..], hasher)
  }

  lemma {:induction false} RunLedger(s: Shard, ops: seq<Op>, hasher: Key -> uint64, latest: map<Key, Value>)
    requires Inv(s) && SafeRun(s, ops, hasher) && Agrees(s, latest, hasher)
    ensures Ledger(Run(s, ops, hasher)) + SilencedBy(s, ops, hasher) == Ledger(s) + WrittenBy(s, ops, hasher)
    decreases ops
  {
    hide Ledger, Step, Written, Silenced, Latest, Agrees, Inv, SafeStep;
    if ops != [] {
      var next := Step(s, ops[0], hasher);
      StepKeepsInv(s, ops[0], hasher);
      StepAgrees(s, ops[0], latest, hasher);
      StepLedger(s, ops[0], hasher, latest);
      RunLedger(next, ops[1..], hasher, Latest(s, ops[0], hasher, latest));
      AddUp(Ledger(Run(s, ops, hasher)), SilencedBy(next, ops[1..], hasher), Ledger(next),
            WrittenBy(next, ops[1..], hasher), Silenced(s, ops[0], hasher), Ledger(s), Written(s, ops[0], hasher));
    }
  }

  lemma AddUp(last: Entries, silenced: Entries, next: Entries, written: Entries,
              silenced0: Entries, first: Entries, written0: Entries)
    requires last + silenced == next + written
    requires next + silenced0 == first + written0
    ensures last + (silenced0 + silenced) == first + (written0 + written)
  {
    assert last + (silenced0 + silenced) == (last + silenced) + silenced0;
    assert (next + written) + silenced0 == (next + silenced0) + written;
  }

  /** Over any safe run of a new shard: stored = live + reported once + silently replaced, counted with multiplicity. */
  lemma NothingLost(cap: nat, max: int, lifeWindow: uint64, ops: seq<Op>, hasher: Key -> uint64)
    requires SafeRun(NewShard(cap, max, lifeWindow), ops, hasher)
    ensures var s := NewShard(cap, max, lifeWindow);
            var t := Run(s, ops, hasher);
            WrittenBy(s, ops, hasher) == Live(t.q.Records()) + Reported(t.log) + SilencedBy(s, ops, hasher)
  {
    var s := NewShard(cap, max, lifeWindow);
    RunLedger(s, ops, hasher, map[]);
    assert Ledger(s) == multiset{};
  }

  // ---- Orphans ----

  /** append meets a cached entry of another key under the same hash. */
  predicate Collides(s: Shard, h: uint64, key: Key) {
    h in s.index && MatchKey(s, h, key).Absent?
  }

  lemma {:induction false} InsertKeepsNoOrphans(s: Shard, w: seq<byte>, h: uint64, x: uint64)
    requires InvExcept(s, x) && (x == 0 || x == h) && h != 0 && NoOrphans(s)
    requires HEADERS_SIZE <= |w| && HashOf(w) == h && FitsRing(s, w)
    requires forall r :: r in s.q.Records() ==> HashOf(r.data) != h
    ensures NoOrphans(Insert(s, w, h).shard)
    decreases |s.q.Records()|
  {
    if !s.q.Refuses(Need(|w|)) {
      PushRecords(s.q, w);
      FillersHaveNoHash(s.q);
    } else if s.q.Records() != [] {
      RemoveOldestKeeps(s, NoSpace, x);
      RemoveOldestKeepsNoOrphans(s, NoSpace, x);
      RefusedNeverGrows(s.q, RemoveOldest(s, NoSpace).q, |w|);
      InsertKeepsNoOrphans(RemoveOldest(s, NoSpace), w, h, x);
    }
  }

  lemma RemoveOldestKeepsNoOrphans(s: Shard, reason: RemoveReason, x: uint64)
    requires InvExcept(s, x) && s.q.Records() != [] && NoOrphans(s)
    ensures NoOrphans(RemoveOldest(s, reason))
  {
    RemoveOldestKeeps(s, reason, x);
    var recs := s.q.Records();
    var t := RemoveOldest(s, reason);
    forall r | r in t.q.Records() && HashOf(r.data) != 0
      ensures HashOf(r.data) in t.index && t.index[HashOf(r.data)] == r.off
    {
      var i :| 0 <= i < |recs[1..]| && recs[1..][i] == r;
      assert recs[i + 1] == r && recs[0] in recs;
      if HashOf(recs[0].data) == HashOf(r.data) {
        OffsetsDistinct(s.q, 0, i + 1);
      }
    }
  }

  /** set never makes an orphan: hashed records and mappings stay in bijection. */
  lemma SetKeepsNoOrphans(s: Shard, now: uint64, h: uint64, key: Key, value: Value)
    requires Inv(s) && NoOrphans(s) && h != 0
    requires FitsRing(BeforeOverwrite(s, now, h), Wrapped(now, h, key, value))
    ensures NoOrphans(Set(s, now, h, key, value).shard)
  {
    var b := BeforeOverwrite(s, now, h);
    WrappedReadsBack(now, h, key, value);
    BeforeOverwriteKeeps(s, now, h);
    BeforeOverwriteNoOrphans(s, now, h);
    InsertKeepsNoOrphans(b, Wrapped(now, h, key, value), h, h);
  }

  lemma BeforeOverwriteNoOrphans(s: Shard, now: uint64, h: uint64)
    requires Inv(s) && NoOrphans(s) && h != 0
    ensures var b := BeforeOverwrite(s, now, h);
            NoOrphans(b) && forall r :: r in b.q.Records() ==> HashOf(r.data) != h
  {
    var t := Tombstone(s, h);
    TombstoneKeepsOthers(s, h);
    TombstoneShrinks(s, h);
    if h in s.index {
      NoHashLeft(s, h);
    }
    assert NoOrphans(t);
    ExpireOldestShrinks(t, now, h);
    if ExpireOldest(t, now) != t {
      RemoveOldestKeepsNoOrphans(t, Expired, h);
    }
  }

  /** The push loop of a colliding append leaves the colliding record, at position k, alone unless it evicts it. */
  lemma {:induction false} CollidingInsert(s: Shard, w: seq<byte>, h: uint64, k: nat)
    requires Inv(s) && NoOrphans(s) && h != 0 && HEADERS_SIZE <= |w| && HashOf(w) == h && FitsRing(s, w)
    requires k < |s.q.Records()| && HashOf(s.q.Records()[k].data) == h && s.q.Records()[k].data != w
    requires forall i :: 0 <= i < |s.q.Records()| && i != k ==> HashOf(s.q.Records()[i].data) != h
    ensures NoOrphans(Insert(s, w, h).shard) <==> k < Evictions(s.q, Need(|w|))
    decreases |s.q.Records()|
  {
    hide HashOf, Roomy, IsEntry, Chain, Ring.MakeRoom, Need;
    if !s.q.Refuses(Need(|w|)) {
      PlacedBesideOrphan(s, w, h, s.q.Records()[k]);
    } else {
      var next := RemoveOldest(s, NoSpace);
      RemoveOldestKeeps(s, NoSpace, 0);
      RemoveOldestKeepsNoOrphans(s, NoSpace, 0);
      RefusedNeverGrows(s.q, next.q, |w|);
      assert forall i :: 0 <= i < |next.q.Records()| ==> next.q.Records()[i] == s.q.Records()[i + 1];
      if k == 0 {
        InsertKeepsNoOrphans(next, w, h, 0);
      } else {
        CollidingInsert(next, w, h, k - 1);
      }
    }
  }

  lemma PlacedBesideOrphan(s: Shard, w: seq<byte>, h: uint64, rh: Record)
    requires Inv(s) && h != 0 && HEADERS_SIZE <= |w| && HashOf(w) == h && FitsRing(s, w)
    requires rh in s.q.Records() && HashOf(rh.data) == h && rh.data != w && !s.q.Refuses(Need(|w|))
    ensures !NoOrphans(Insert(s, w, h).shard)
  {
    hide HashOf, Roomy, IsEntry, Chain, Ring.MakeRoom, Need;
    PushRecords(s.q, w);
    PushValid(s.q, w);
    var p := s.q.Push(w);
    var placed := Record(s.q.MakeRoom(Need(|w|)).tail, w);
    assert p.Records()[|p.Records()| - 1] == placed;
    assert rh in p.Records();
    if rh.off == placed.off {
      SameOffsetSameRecord(p, rh, placed);
    }
  }

  /** How many of the oldest records an append that does not overwrite drops before it stores its entry. */
  ghost function Dropped(s: Shard, now: uint64, need: nat): nat
    requires Inv(s)
  {
    ExpireOldestKeeps(s, now, 0);
    (if s.q.Records() != [] && IsExpired(now, s.q.Records()[0].data, s.lifeWindow) then 1 else 0)
    + Evictions(ExpireOldest(s, now).q, need)
  }

  /**
    A colliding append makes an orphan exactly when the entry it collides with, at position k of the queue,
    is not among the records that the append drops to make room.
   */
  lemma AppendOrphans(s: Shard, now: uint64, h: uint64, key: Key, value: Value) returns (k: nat)
    requires Inv(s) && NoOrphans(s) && h != 0 && |key| <= MAX_KEY && Collides(s, h, key)
    requires FitsRing(BeforeAppend(s, now, h, key), AppendEntry(s, now, h, key, value))
    ensures k < |s.q.Records()| && s.q.Records()[k].off == s.index[h]
    ensures NoOrphans(Append(s, now, h, key, value).shard)
            <==> k < Dropped(s, now, Need(HEADERS_SIZE + |key| + |value|))
  {
    hide HashOf, Roomy, IsEntry, Chain, Need, Wrapped, IsExpired, Ring.Valid, Dropped, Insert, ExpireOldest, Find, ReadKey;
    var w := Wrapped(now, h, key, value);
    k := OnlyCarrier(s, h);
    WrappedReadsBack(now, h, key, value);
    WrappedHash(now, h, key, value);
    FindLive(s.q, s.q.Records()[k]);
    ExpireOldestKeeps(s, now, 0);
    DropThenInsert(s, now, w, h, k);
  }

  /** The position of the one record that carries a mapped hash. */
  lemma OnlyCarrier(s: Shard, h: uint64) returns (k: nat)
    requires Inv(s) && NoOrphans(s) && h != 0 && h in s.index
    ensures k < |s.q.Records()| && s.q.Records()[k].off == s.index[h] && HashOf(s.q.Records()[k].data) == h
    ensures forall i :: 0 <= i < |s.q.Records()| && i != k ==> HashOf(s.q.Records()[i].data) != h
  {
    hide HashOf, Roomy, Ring.Valid;
    var recs := s.q.Records();
    var rh := EntryOf(s, h);
    k :| 0 <= k < |recs| && recs[k] == rh;
    forall i | 0 <= i < |recs| && i != k ensures HashOf(recs[i].data) != h {
      if HashOf(recs[i].data) == h {
        assert recs[i] in recs;
        OffsetsDistinct(s.q, i, k);
      }
    }
  }

  lemma DropThenInsert(s: Shard, now: uint64, w: seq<byte>, h: uint64, k: nat)
    requires Inv(s) && NoOrphans(s) && h != 0 && HEADERS_SIZE <= |w| && HashOf(w) == h
    requires ExpireOldest(s, now).q.Valid() && FitsRing(ExpireOldest(s, now), w)
    requires k < |s.q.Records()| && HashOf(s.q.Records()[k].data) == h && s.q.Records()[k].data != w
    requires forall i :: 0 <= i < |s.q.Records()| && i != k ==> HashOf(s.q.Records()[i].data) != h
    ensures NoOrphans(Insert(ExpireOldest(s, now), w, h).shard) <==> k < Dropped(s, now, Need(|w|))
  {
    hide HashOf, Roomy, IsEntry, Chain, Need, IsExpired, Ring.Valid, NoOrphans, Insert;
    var recs := s.q.Records();
    if recs != [] && IsExpired(now, recs[0].data, s.lifeWindow) {
      var b := RemoveOldest(s, Expired);
      RemoveOldestKeeps(s, Expired, 0);
      RemoveOldestKeepsNoOrphans(s, Expired, 0);
      assert forall i :: 0 <= i < |b.q.Records()| ==> b.q.Records()[i] == recs[i + 1];
      if k == 0 {
        InsertKeepsNoOrphans(b, w, h, 0);
      } else {
        CollidingInsert(b, w, h, k - 1);
      }
    } else {
      CollidingInsert(s, w, h, k);
    }
  }

  /** Without a collision append keeps hashed records and mappings in bijection. */
  lemma AppendKeepsNoOrphans(s: Shard, now: uint64, h: uint64, key: Key, value: Value)
    requires Inv(s) && NoOrphans(s) && h != 0 && !Collides(s, h, key) && !MatchKey(s, h, key).Unreadable?
    requires FitsRing(BeforeAppend(s, now, h, key), AppendEntry(s, now, h, key, value))
    ensures NoOrphans(Append(s, now, h, key, value).shard)
  {
    var w := AppendEntry(s, now, h, key, value);
    if h in s.index {
      var r := EntryOf(s, h);
      AppendedReadsBack(now, r.data, value);
      BeforeOverwriteKeeps(s, now, h);
      BeforeOverwriteNoOrphans(s, now, h);
      InsertKeepsNoOrphans(BeforeOverwrite(s, now, h), w, h, h);
    } else {
      WrappedReadsBack(now, h, key, value);
      ExpireOldestKeeps(s, now, 0);
      ExpireOldestShrinks(s, now, 0);
      if ExpireOldest(s, now) != s {
        RemoveOldestKeepsNoOrphans(s, Expired, 0);
      }
      InsertKeepsNoOrphans(ExpireOldest(s, now), w, h, 0);
    }
  }

  /** When an orphan is evicted it takes down the mapping of the live entry that replaced it. */
  lemma OrphanTakesMappingDown(s: Shard, reason: RemoveReason)
    requires Inv(s) && s.q.Records() != []
    requires var r := s.q.Records()[0];
             HashOf(r.data) in s.index && s.index[HashOf(r.data)] != r.off
    ensures var h := HashOf(s.q.Records()[0].data);
            var t := RemoveOldest(s, reason);
            h !in t.index && IsEntry(t.q.Records(), s.index[h], h)
  {
    RemoveOldestKeeps(s, reason, 0);
    var recs := s.q.Records();
    var r := EntryOf(s, HashOf(recs[0].data));
    assert r in recs[1..];
  }

  lemma DeleteKeepsNoOrphans(s: Shard, h: uint64)
    requires Inv(s) && NoOrphans(s)
    ensures NoOrphans(Delete(s, h))
  {
    TombstoneShrinks(s, h);
    if h in s.index {
      NoHashLeft(s, h);
    }
  }

  lemma {:induction false} CleanUpKeepsNoOrphans(s: Shard, now: uint64)
    requires Inv(s) && NoOrphans(s)
    ensures NoOrphans(CleanUp(s, now))
    decreases |s.q.Records()|
  {
    if s.q.Records() != [] && IsExpired(now, s.q.Records()[0].data, s.lifeWindow) {
      RemoveOldestKeeps(s, Expired, 0);
      RemoveOldestKeepsNoOrphans(s, Expired, 0);
      CleanUpKeepsNoOrphans(RemoveOldest(s, Expired), now);
    }
  }

  lemma StepKeepsNoOrphans(s: Shard, op: Op, hasher: Key -> uint64, latest: map<Key, Value>)
    requires Inv(s) && SafeStep(s, op, hasher) && Agrees(s, latest, hasher) && NoOrphans(s)
    requires op.AppendOp? ==> !Collides(s, hasher(op.key), op.key)
    ensures NoOrphans(Step(s, op, hasher))
  {
    match op {
      case SetOp(now, key, value) => SetKeepsNoOrphans(s, now, hasher(key), key, value);
      case AppendOp(now, key, value) =>
        MatchAgrees(s, key, latest, hasher);
        AppendKeepsNoOrphans(s, now, hasher(key), key, value);
      case DeleteOp(key) => DeleteKeepsNoOrphans(s, hasher(key));
      case CleanUpOp(now) => CleanUpKeepsNoOrphans(s, now);
      case ResetOp =>
    }
  }

  /** No append of the run meets a cached entry of another key under its hash. */
  ghost predicate NoCollidingAppend(s: Shard, ops: seq<Op>, hasher: Key -> uint64)
    requires Inv(s) && SafeRun(s, ops, hasher)
    decreases ops
  {
    ops != [] ==>
      && (ops[0].AppendOp? ==> !Collides(s, hasher(ops[0].key), ops[0].key))
      && (StepKeepsInv(s, ops[0], hasher);
          NoCollidingAppend(Step(s, ops[0], hasher), ops[1..], hasher))
  }

  lemma {:induction false} RunKeepsNoOrphans(s: Shard, ops: seq<Op>, hasher: Key -> uint64, latest: map<Key, Value>)
    requires Inv(s) && SafeRun(s, ops, hasher) && Agrees(s, latest, hasher) && NoOrphans(s)
    requires NoCollidingAppend(s, ops, hasher)
    ensures NoOrphans(Run(s, ops, hasher))
    decreases ops
  {
    if ops != [] {
      StepKeepsInv(s, ops[0], hasher);
      StepAgrees(s, ops[0], latest, hasher);
      StepKeepsNoOrphans(s, ops[0], hasher, latest);
      RunKeepsNoOrphans(Step(s, ops[0], hasher), ops[1..], hasher, Latest(s, ops[0], hasher, latest));
    }
  }

  /** After such a run of a new shard the map and the hashed records of the queue are in bijection. */
  lemma IndexIsBijection(cap: nat, max: int, lifeWindow: uint64, ops: seq<Op>, hasher: Key -> uint64)
    requires SafeRun(NewShard(cap, max, lifeWindow), ops, hasher)
    requires NoCollidingAppend(NewShard(cap, max, lifeWindow), ops, hasher)
    ensures var t := Run(NewShard(cap, max, lifeWindow), ops, hasher);
            && (forall h :: h in t.index ==> IsEntry(t.q.Records(), t.index[h], h))
            && (forall r :: r in t.q.Records() && HashOf(r.data) != 0 ==>
                              HashOf(r.data) in t.index && t.index[HashOf(r.data)] == r.off)
  {
    var s := NewShard(cap, max, lifeWindow);
    RunKeepsInv(s, ops, hasher);
    RunKeepsNoOrphans(s, ops, hasher, map[]);
  }

  /** The record is a live entry of the key. */
  ghost predicate Holds(r: Record, h: uint64, key: Key) {
    |r.data| >= HEADERS_SIZE && HashOf(r.data) == h && ReadKey(r.data) == Got(key)
  }

  /** After such a run a key is found, with its latest value, exactly as long as the queue holds an entry of it. */
  lemma FoundIffHeld(cap: nat, max: int, lifeWindow: uint64, ops: seq<Op>, hasher: Key -> uint64, key: Key)
    requires SafeRun(NewShard(cap, max, lifeWindow), ops, hasher)
    requires NoCollidingAppend(NewShard(cap, max, lifeWindow), ops, hasher)
    requires hasher(key) != 0
    ensures var s := NewShard(cap, max, lifeWindow);
            var t := Run(s, ops, hasher);
            var latest := LatestOf(s, ops, hasher, map[]);
            if exists r :: r in t.q.Records() && Holds(r, hasher(key), key)
            then key in latest && Get(t, hasher(key), key) == Found(latest[key])
            else Get(t, hasher(key), key) == NotFound
  {
    var s := NewShard(cap, max, lifeWindow);
    var t := Run(s, ops, hasher);
    var h := hasher(key);
    IndexIsBijection(cap, max, lifeWindow, ops, hasher);
    RunAgrees(s, ops, hasher, map[]);
    MatchAgrees(t, key, LatestOf(s, ops, hasher, map[]), hasher);
    if r :| r in t.q.Records() && Holds(r, h, key) {
      FindLive(t.q, r);
    } else if h in t.index {
      var r := EntryOf(t, h);
      assert !Holds(r, h, key);
    }
  }
}
