/** Expiry in a bigcache shard of fixed capacity: records stay in time order, so cleanUp leaves none that is too old. */
module ShardAges {
  import opened Bytes
  import opened RingLayout
  import opened Encoding
  import opened ShardModel
  import opened ShardTheorems
  import opened ShardRuns

  /** Timestamps do not decrease from the oldest record on, and none is later than clock. */
  ghost predicate InTimeOrder(recs: seq<Record>, clock: uint64) {
    && (forall i, j :: 0 <= i < j < |recs| ==> TimeOf(recs[i].data) <= TimeOf(recs[j].data))
    && (forall i :: 0 <= i < |recs| ==> TimeOf(recs[i].data) <= clock)
  }

  /** The queue was made at its positive size limit, so it never grows and never rotates. */
  predicate FixedCapacity(s: Shard) {
    s.q.cap == s.q.max > 0
  }

  lemma DropKeepsOrder(recs: seq<Record>, n: nat, clock: uint64)
    requires n <= |recs| && InTimeOrder(recs, clock)
    ensures InTimeOrder(recs[n..], clock)
  {
  }

  lemma ConcatKeepsOrder(recs: seq<Record>, r: Record, clock: uint64, now: uint64)
    requires InTimeOrder(recs, clock) && clock <= now && TimeOf(r.data) == now
    ensures InTimeOrder(recs + [r], now)
  {
  }

  lemma TombstoneKeepsOrder(s: Shard, h: uint64, clock: uint64)
    requires Inv(s) && InTimeOrder(s.q.Records(), clock)
    ensures InTimeOrder(Tombstone(s, h).q.Records(), clock)
  {
    if h in s.index {
      var recs := s.q.Records();
      RingZeroAtKeeps(s.q, s.index[h]);
      forall i | 0 <= i < |recs|
        ensures TimeOf(ZeroAt(recs, s.index[h])[i].data) == TimeOf(recs[i].data)
      {
        if |recs[i].data| >= 16 {
          TombstonedReadsBack(recs[i].data);
        }
      }
    }
  }

  lemma ExpireOldestKeepsOrder(s: Shard, now: uint64, x: uint64, clock: uint64)
    requires InvExcept(s, x) && InTimeOrder(s.q.Records(), clock)
    ensures InTimeOrder(ExpireOldest(s, now).q.Records(), clock)
  {
    if ExpireOldest(s, now) != s {
      RemoveOldestKeeps(s, Expired, x);
      DropKeepsOrder(s.q.Records(), 1, clock);
    }
  }

  lemma {:induction false} InsertKeepsOrder(s: Shard, w: seq<byte>, h: uint64, x: uint64, clock: uint64, now: uint64)
    requires InvExcept(s, x) && (x == 0 || x == h) && h != 0 && FixedCapacity(s)
    requires HEADERS_SIZE <= |w| && HashOf(w) == h && TimeOf(w) == now && FitsRing(s, w)
    requires InTimeOrder(s.q.Records(), clock) && clock <= now
    ensures InTimeOrder(Insert(s, w, h).shard.q.Records(), now) && FixedCapacity(Insert(s, w, h).shard)
    decreases |s.q.Records()|
  {
    if !s.q.Refuses(Need(|w|)) {
      PushRecords(s.q, w);
      ConcatKeepsOrder(s.q.Records(), Record(s.q.MakeRoom(Need(|w|)).tail, w), clock, now);
    } else if s.q.Records() != [] {
      RemoveOldestKeeps(s, NoSpace, x);
      RefusedNeverGrows(s.q, RemoveOldest(s, NoSpace).q, |w|);
      DropKeepsOrder(s.q.Records(), 1, clock);
      InsertKeepsOrder(RemoveOldest(s, NoSpace), w, h, x, clock, now);
    }
  }

  /** The clock reading an operation is made at; Delete and Reset read none. */
  function ClockAfter(op: Op, clock: uint64): uint64 {
    match op
    case SetOp(now, _, _) => now
    case AppendOp(now, _, _) => now
    case CleanUpOp(now) => now
    case _ => clock
  }

  lemma StepKeepsOrder(s: Shard, op: Op, hasher: Key -> uint64, latest: map<Key, Value>, clock: uint64)
    requires Inv(s) && SafeStep(s, op, hasher) && Agrees(s, latest, hasher)
    requires FixedCapacity(s) && InTimeOrder(s.q.Records(), clock) && clock <= ClockAfter(op, clock)
    ensures InTimeOrder(Step(s, op, hasher).q.Records(), ClockAfter(op, clock))
    ensures FixedCapacity(Step(s, op, hasher)) && Step(s, op, hasher).lifeWindow == s.lifeWindow
  {
    match op {
      case SetOp(now, key, value) => SetKeepsOrder(s, now, hasher(key), key, value, clock);
      case AppendOp(now, key, value) =>
        MatchAgrees(s, key, latest, hasher);
        AppendOpKeepsOrder(s, now, hasher(key), key, value, clock);
      case DeleteOp(key) => TombstoneKeepsOrder(s, hasher(key), clock);
      case CleanUpOp(now) =>
        CleanUpCorrect(s, now);
        DropKeepsOrder(s.q.Records(), |s.q.Records()| - |CleanUp(s, now).q.Records()|, clock);
      case ResetOp =>
    }
  }

  lemma SetKeepsOrder(s: Shard, now: uint64, h: uint64, key: Key, value: Value, clock: uint64)
    requires Inv(s) && h != 0 && FixedCapacity(s) && InTimeOrder(s.q.Records(), clock) && clock <= now
    requires FitsRing(BeforeOverwrite(s, now, h), Wrapped(now, h, key, value))
    ensures var t := Set(s, now, h, key, value).shard;
            InTimeOrder(t.q.Records(), now) && FixedCapacity(t) && t.lifeWindow == s.lifeWindow
  {
    WrappedReadsBack(now, h, key, value);
    BeforeOverwriteKeeps(s, now, h);
    TombstoneKeepsOthers(s, h);
    TombstoneKeepsOrder(s, h, clock);
    ExpireOldestKeepsOrder(Tombstone(s, h), now, h, clock);
    InsertKeepsOrder(BeforeOverwrite(s, now, h), Wrapped(now, h, key, value), h, h, clock, now);
    InsertKeepsWindow(BeforeOverwrite(s, now, h), Wrapped(now, h, key, value), h, h);
  }

  lemma AppendOpKeepsOrder(s: Shard, now: uint64, h: uint64, key: Key, value: Value, clock: uint64)
    requires Inv(s) && h != 0 && FixedCapacity(s) && InTimeOrder(s.q.Records(), clock) && clock <= now
    requires !MatchKey(s, h, key).Unreadable?
    requires FitsRing(BeforeAppend(s, now, h, key), AppendEntry(s, now, h, key, value))
    ensures var t := Append(s, now, h, key, value).shard;
            InTimeOrder(t.q.Records(), now) && FixedCapacity(t) && t.lifeWindow == s.lifeWindow
  {
    var w := AppendEntry(s, now, h, key, value);
    if MatchKey(s, h, key).Same? {
      var r := EntryOf(s, h);
      AppendedReadsBack(now, r.data, value);
      BeforeOverwriteKeeps(s, now, h);
      TombstoneKeepsOthers(s, h);
      TombstoneKeepsOrder(s, h, clock);
      ExpireOldestKeepsOrder(Tombstone(s, h), now, h, clock);
      InsertKeepsOrder(BeforeOverwrite(s, now, h), w, h, h, clock, now);
      InsertKeepsWindow(BeforeOverwrite(s, now, h), w, h, h);
    } else {
      WrappedReadsBack(now, h, key, value);
      ExpireOldestKeeps(s, now, 0);
      ExpireOldestKeepsOrder(s, now, 0, clock);
      InsertKeepsOrder(ExpireOldest(s, now), w, h, 0, clock, now);
      InsertKeepsWindow(ExpireOldest(s, now), w, h, 0);
    }
  }

  lemma {:induction false} InsertKeepsWindow(s: Shard, w: seq<byte>, h: uint64, x: uint64)
    requires InvExcept(s, x)
    ensures Insert(s, w, h).shard.lifeWindow == s.lifeWindow
    decreases |s.q.Records()|
  {
    if s.q.Refuses(Need(|w|)) && s.q.Records() != [] {
      RemoveOldestKeeps(s, NoSpace, x);
      InsertKeepsWindow(RemoveOldest(s, NoSpace), w, h, x);
    }
  }

  /** The clock does not go back during the run. */
  predicate ClockAdvances(ops: seq<Op>, clock: uint64) {
    ops == [] || (clock <= ClockAfter(ops[0], clock) && ClockAdvances(ops[1..], ClockAfter(ops[0], clock)))
  }

  function LastClock(ops: seq<Op>, clock: uint64): uint64 {
    if ops == [] then clock else LastClock(ops[1..], ClockAfter(ops[0], clock))
  }

  lemma {:induction false} RunKeepsOrder(s: Shard, ops: seq<Op>, hasher: Key -> uint64,
                                         latest: map<Key, Value>, clock: uint64)
    requires Inv(s) && SafeRun(s, ops, hasher) && Agrees(s, latest, hasher) && FixedCapacity(s)
    requires InTimeOrder(s.q.Records(), clock) && ClockAdvances(ops, clock)
    ensures InTimeOrder(Run(s, ops, hasher).q.Records(), LastClock(ops, clock))
    ensures Run(s, ops, hasher).lifeWindow == s.lifeWindow
    decreases ops
  {
    if ops != [] {
      StepKeepsInv(s, ops[0], hasher);
      StepAgrees(s, ops[0], latest, hasher);
      StepKeepsOrder(s, ops[0], hasher, latest, clock);
      RunKeepsOrder(Step(s, ops[0], hasher), ops[1..], hasher,
                    Latest(s, ops[0], hasher, latest), ClockAfter(ops[0], clock));
    }
  }

  /** On records in time order cleanUp, which stops at the first one not expired, removes all that are. */
  lemma CleanUpOfOrdered(s: Shard, clock: uint64, now: uint64)
    requires Inv(s) && InTimeOrder(s.q.Records(), clock) && clock <= now
    ensures forall r :: r in CleanUp(s, now).q.Records() ==> TimeOf(r.data) <= now <= TimeOf(r.data) + s.lifeWindow
  {
    hide IsExpired, TimeOf, CleanUp, Chain, Roomy, IsEntry;
    CleanUpCorrect(s, now);
    var recs := CleanUp(s, now).q.Records();
    DropKeepsOrder(s.q.Records(), |s.q.Records()| - |recs|, clock);
    if recs != [] {
      AgeInWindow(now, recs[0].data, s.lifeWindow);
    }
    forall r | r in recs ensures TimeOf(r.data) <= now <= TimeOf(r.data) + s.lifeWindow {
      var i :| 0 <= i < |recs| && recs[i] == r;
      if i > 0 {
        assert TimeOf(recs[0].data) <= TimeOf(recs[i].data);
      }
    }
  }

  lemma AgeInWindow(now: uint64, data: seq<byte>, lifeWindow: uint64)
    requires TimeOf(data) <= now && !IsExpired(now, data, lifeWindow)
    ensures now <= TimeOf(data) + lifeWindow
  {
    hide TimeOf;
    assert 0 <= now - TimeOf(data) < UINT64_LIMIT;
  }

  /** cleanUp after any such run of a fixed-capacity shard leaves no record older than the life window. */
  lemma CleanUpLeavesNoneExpired(cap: nat, lifeWindow: uint64, ops: seq<Op>, hasher: Key -> uint64, now: uint64)
    requires cap > 0 && SafeRun(NewShard(cap, cap, lifeWindow), ops, hasher)
    requires ClockAdvances(ops, 0) && LastClock(ops, 0) <= now
    ensures var s := Run(NewShard(cap, cap, lifeWindow), ops, hasher);
            && Inv(s)
            && forall r :: r in CleanUp(s, now).q.Records() ==> TimeOf(r.data) <= now <= TimeOf(r.data) + lifeWindow
  {
    var s := NewShard(cap, cap, lifeWindow);
    RunKeepsInv(s, ops, hasher);
    RunKeepsOrder(s, ops, hasher, map[], 0);
    CleanUpOfOrdered(Run(s, ops, hasher), LastClock(ops, 0), now);
  }
}
