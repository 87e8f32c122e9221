/** Concrete runs of a bigcache shard into the two states that its map cannot recover from. */
module ShardCorners {
  import opened Bytes
  import opened Varint
  import opened RingLayout
  import opened Encoding
  import opened ShardModel
  import opened ShardTheorems
  import opened ShardRuns
  import opened ShardLedger

  const KEY_A: Key := [1]
  const KEY_B: Key := [2]

  // ---- A failed set over a mapped hash ----

  /** A shard of 100 bytes that holds one entry, and a set of 200 bytes under its hash. */
  lemma FailedSetDangles()
    ensures var stored := Set(NewShard(100, 100, 0), 0, 7, KEY_A, []);
            && stored.status == Done && Inv(stored.shard) && 7 in stored.shard.index
            && var failed := Set(stored.shard, 0, 7, KEY_A, Zeros(200));
               && failed.status != Done && failed.shard.q.Records() == []
               && failed.shard.index == map[7 := stored.shard.index[7]] && !Inv(failed.shard)
  {
    hide Inv, Wrapped, BeforeOverwrite, Find, ReadKey, ReadEntry, Set;
    var s := NewShard(100, 100, 0);
    SmallSetIsSafe(s, 0, 7, KEY_A, []);
    SetCorrect(s, 0, 7, KEY_A, []);
    SetKeepsNoOrphans(s, 0, 7, KEY_A, []);
    var stored := Set(s, 0, 7, KEY_A, []).shard;
    assert 7 in stored.index;
    FixedCapacityKept(s, 0, 7, KEY_A, []);
    SmallSetIsSafe(stored, 0, 7, KEY_A, Zeros(200));
    SetCorrect(stored, 0, 7, KEY_A, Zeros(200));
    SetKeepsInvariantIff(stored, 0, 7, KEY_A, Zeros(200));
    NoOrphansNone(stored, 7);
  }

  lemma SmallSetIsSafe(s: Shard, now: uint64, h: uint64, key: Key, value: Value)
    requires Inv(s) && s.q.cap == s.q.max == 100 && |key| + |value| < 1000
    ensures FitsRing(BeforeOverwrite(s, now, h), Wrapped(now, h, key, value))
  {
    BeforeOverwriteKeeps(s, now, h);
  }

  lemma FixedCapacityKept(s: Shard, now: uint64, h: uint64, key: Key, value: Value)
    requires Inv(s) && s.q.cap == s.q.max > 0
    ensures var t := Set(s, now, h, key, value).shard; t.q.cap == s.q.cap && t.q.max == s.q.max
  {
    BeforeOverwriteKeeps(s, now, h);
    InsertKeepsCapacity(BeforeOverwrite(s, now, h), Wrapped(now, h, key, value), h, h);
  }

  lemma NoOrphansNone(s: Shard, h: uint64)
    requires NoOrphans(s) && h != 0 && h in s.index
    ensures !HasOrphan(s, h)
  {
  }

  // ---- An orphan that takes a live entry's mapping down ----

  function AlwaysSeven(): Key -> uint64 {
    (k: Key) => 7
  }

  /** Two keys under one hash, and a cleaning that expires the first of them. */
  function OrphanRun(): seq<Op> {
    [SetOp(0, KEY_A, []), AppendOp(5, KEY_B, []), CleanUpOp(6)]
  }

  /** The shard after the first n operations. */
  function Stage(n: nat): Shard
    requires n <= 3
  {
    var a := Record(1, Wrapped(0, 7, KEY_A, []));
    var b := Record(21, Wrapped(5, 7, KEY_B, []));
    if n == 0 then NewShard(100, 100, 5)
    else if n == 1 then Shard(Ring(100, 100, 1, 21, 21, false, [a], []), map[7 := 1], [], 5)
    else if n == 2 then Shard(Ring(100, 100, 1, 41, 41, false, [a, b], []), map[7 := 21], [], 5)
    else Shard(Ring(100, 100, 21, 41, 41, false, [b], []), map[], [Removal(a.data, Expired)], 5)
  }

  /**
    A safe run in which a colliding append leaves an orphan; when the orphan expires, the live entry of the
    other key is in the queue and within its life window, but get does not find it.
   */
  lemma LiveEntryIsLost()
    ensures var s := NewShard(100, 100, 5);
            && SafeRun(s, OrphanRun(), AlwaysSeven())
            && var t := Run(s, OrphanRun(), AlwaysSeven());
               && (exists r :: r in t.q.Records() && Holds(r, 7, KEY_B) && !IsExpired(6, r.data, 5))
               && Get(t, 7, KEY_B) == NotFound
  {
    hide Inv, SafeStep, Step, Wrapped;
    var ops := OrphanRun();
    StageOne();
    StageTwo();
    StageThree();
    assert ops[1..] == [ops[1], ops[2]];
    assert ops[1..][1..] == [ops[2]];
    assert ops[1..][1..][1..] == [];
    assert Run(Stage(0), ops, AlwaysSeven()) == Stage(3);
    EntryB();
    assert Stage(3).q.Records()[0] == Record(21, Wrapped(5, 7, KEY_B, []));
  }

  lemma EntryB()
    ensures var data := Wrapped(5, 7, KEY_B, []);
            Holds(Record(21, data), 7, KEY_B) && !IsExpired(6, data, 5)
  {
    hide Wrapped, ReadKey, ReadEntry, ReadHash, ReadTimestamp;
    WrappedReadsBack(5, 7, KEY_B, []);
  }

  lemma StageOne()
    ensures SafeStep(Stage(0), OrphanRun()[0], AlwaysSeven())
    ensures Step(Stage(0), OrphanRun()[0], AlwaysSeven()) == Stage(1)
    ensures Inv(Stage(1))
  {
    hide ReadKey, ReadEntry, ReadHash, ReadTimestamp;
    StepKeepsInv(Stage(0), OrphanRun()[0], AlwaysSeven());
  }

  lemma StageTwo()
    requires Inv(Stage(1))
    ensures SafeStep(Stage(1), OrphanRun()[1], AlwaysSeven())
    ensures Step(Stage(1), OrphanRun()[1], AlwaysSeven()) == Stage(2)
    ensures Inv(Stage(2))
  {
    hide ReadKey, ReadEntry, ReadHash, ReadTimestamp, Wrapped, InvExcept;
    WrappedReadsBack(0, 7, KEY_A, []);
    assert KEY_A[0] != KEY_B[0];
    assert MatchKey(Stage(1), 7, KEY_B) == Absent;
    StepKeepsInv(Stage(1), OrphanRun()[1], AlwaysSeven());
  }

  lemma StageThree()
    requires Inv(Stage(2))
    ensures SafeStep(Stage(2), OrphanRun()[2], AlwaysSeven())
    ensures Step(Stage(2), OrphanRun()[2], AlwaysSeven()) == Stage(3)
    ensures Inv(Stage(3))
  {
    hide ReadKey, ReadEntry, ReadHash, ReadTimestamp, Wrapped, InvExcept;
    WrappedReadsBack(0, 7, KEY_A, []);
    WrappedReadsBack(5, 7, KEY_B, []);
    StepKeepsInv(Stage(2), OrphanRun()[2], AlwaysSeven());
  }
}
