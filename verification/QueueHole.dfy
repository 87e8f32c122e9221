/** What a caller of bigcache's BytesQueue sees after growth has left a one-byte hole before the old head. */
module QueueHole {
  import opened Bytes
  import opened Varint
  import opened RingLayout
  import opened RingRuns
  import opened BytesQueue

  /** The data of n reads in a row, each beginning where the one before ended: what n Pops deliver short of the margin. */
  function ReadFrom(a: seq<byte>, at: nat, n: nat): seq<seq<byte>>
    decreases n
  {
    if n == 0 || !Readable(a, at) then [] else [DataAt(a, at)] + ReadFrom(a, NextAfter(a, at), n - 1)
  }

  /** Along a chain of stored records the reads deliver the records. */
  lemma {:induction false} ReadChain(a: seq<byte>, recs: seq<Record>, from: nat, to: nat, more: nat)
    requires Chain(recs, from, to) && StoredAll(a, recs) && forall r :: r in recs ==> |r.data| < UINT32_LIMIT
    ensures ReadFrom(a, from, |recs| + more) == Datas(recs) + ReadFrom(a, to, more)
    decreases recs
  {
    hide Stored, Readable, DataAt, NextAfter;
    if recs == [] {
      assert Datas(recs) == [];
    } else {
      StoredRest(a, recs);
      RecordReads(a, recs[0]);
      ReadChain(a, recs[1..], recs[0].End(), to, more);
      assert Datas(recs) == [recs[0].data] + Datas(recs[1..]);
    }
  }

  /** The hole is read as a record whose length is the stray byte. */
  lemma StrayReads(a: seq<byte>, at: nat)
    requires at < |a| && a[at] < 128 && at + 1 + a[at] as nat <= |a|
    ensures Readable(a, at) && DataAt(a, at) == a[at + 1..at + 1 + a[at] as nat] && NextAfter(a, at) == at + 1 + a[at] as nat
  {
    assert a[at..][0] == a[at];
  }

  /** As many bytes behind the hole as the byte in it says. */
  function StrayRecord(a: seq<byte>, hole: nat): seq<byte>
    requires hole < |a| && hole + 1 + a[hole] as nat <= |a|
  {
    a[hole + 1..hole + 1 + a[hole] as nat]
  }

  /** A chain of stored records with a hole behind it. */
  lemma ReadsOverHole(a: seq<byte>, x: seq<Record>, from: nat, hole: nat, n: nat, stray: seq<byte>)
    requires Chain(x, from, hole) && StoredAll(a, x) && forall r :: r in x ==> |r.data| < UINT32_LIMIT
    requires hole < |a| && a[hole] < 128 && hole + 1 + a[hole] as nat <= |a| && n == |x| + 1
    requires stray == StrayRecord(a, hole)
    ensures ReadFrom(a, from, n) == Datas(x) + [stray]
  {
    hide Stored, StoredAll, Readable, DataAt, NextAfter, Chain;
    StrayReads(a, hole);
    ReadChain(a, x, from, hole, 1);
    assert ReadFrom(a, hole, 1) == [DataAt(a, hole)];
  }

  /** A chain of stored records, a byte 0 and another chain. */
  lemma ReadsOverZero(a: seq<byte>, x: seq<Record>, y: seq<Record>, from: nat, hole: nat, to: nat, n: nat)
    requires Chain(x, from, hole) && Chain(y, hole + 1, to) && StoredAll(a, x) && StoredAll(a, y)
    requires forall r :: r in x || r in y ==> |r.data| < UINT32_LIMIT
    requires hole < |a| && a[hole] == 0 && n == |x| + 1 + |y|
    ensures ReadFrom(a, from, n) == Datas(x) + [[]] + Datas(y)
  {
    hide Stored, StoredAll, Readable, DataAt, NextAfter, Chain;
    StrayReads(a, hole);
    ReadChain(a, x, from, hole, 1 + |y|);
    ReadChain(a, y, hole + 1, to, 0);
    assert ReadFrom(a, hole + 1, |y|) == Datas(y);
    assert ReadFrom(a, hole, 1 + |y|) == [[]] + Datas(y);
  }

  /**
    After growth over a boundary gap reading goes astray. Behind the wrapped records and the filler it finds a
    record that no one pushed, as long as the stray byte says. When that byte is 0 the older records follow in
    order, but the count runs out before the record whose push made the hole.
   */
  lemma HoleMisleadsReads(q: Ring, data: seq<byte>, a: seq<byte>)
    requires q.Valid() && q.cap < UINT32_LIMIT && |data| < UINT32_LIMIT && q.LeavesHole(|data|)
    requires StoredAll(a, q.Push(data).Records())
    requires q.head <= |a| && a[q.head - 1] < 128 && q.head + a[q.head - 1] as nat <= |a|
    ensures var before := Datas(q.newer) + [Zeros(FillerLength(q.head - q.tail))];
            && ReadFrom(a, LEFT_MARGIN, |q.newer| + 2) == before + [StrayRecord(a, q.head - 1)]
            && (a[q.head - 1] == 0 ==>
                  ReadFrom(a, LEFT_MARGIN, |q.Push(data).Records()|) == before + [[]] + Datas(q.older))
  {
    hide Stored, StoredAll, Chain, Ring.Push, Ring.Valid, FillerLength, ReadFrom, Ring.LeavesHole, Datas, Zeros;
    HoleInArray(q, data);
    var f := Record(q.tail, Zeros(FillerLength(q.head - q.tail)));
    var x := q.newer + [f];
    HoleParts(q, data);
    StoredParts(a, x, q.older, q.Push(data).Records());
    ReadsOverHole(a, x, LEFT_MARGIN, q.head - 1, |q.newer| + 2, StrayRecord(a, q.head - 1));
    DatasAppend(q.newer, f);
    if a[q.head - 1] == 0 {
      ReadsOverZero(a, x, q.older, LEFT_MARGIN, q.head - 1, q.right, |q.Push(data).Records()|);
    }
  }

  lemma DatasAppend(recs: seq<Record>, r: Record)
    ensures Datas(recs + [r]) == Datas(recs) + [r.data]
  {
  }

  lemma HoleInArray(q: Ring, data: seq<byte>)
    requires q.Valid() && q.LeavesHole(|data|)
    ensures LEFT_MARGIN <= q.tail < q.head
  {
    Cursors(q);
  }

  lemma StoredParts(a: seq<byte>, x: seq<Record>, y: seq<Record>, all: seq<Record>)
    requires StoredAll(a, all) && forall r :: r in x || r in y ==> r in all
    ensures StoredAll(a, x) && StoredAll(a, y)
  {
  }

  /** The records after such a push, and how they lie. */
  lemma HoleParts(q: Ring, data: seq<byte>)
    requires q.Valid() && q.cap < UINT32_LIMIT && |data| < UINT32_LIMIT && q.LeavesHole(|data|)
    ensures var f := Record(q.tail, Zeros(FillerLength(q.head - q.tail)));
            && Chain(q.newer + [f], LEFT_MARGIN, q.head - 1) && Chain(q.older, q.head, q.right)
            && |q.Push(data).Records()| == |q.newer| + 1 + |q.older| + 1
            && (forall r :: r in q.newer + [f] || r in q.older ==> r in q.Push(data).Records() && |r.data| < UINT32_LIMIT)
  {
    Cursors(q);
    var f := Record(q.tail, Zeros(FillerLength(q.head - q.tail)));
    FillerMissesBoundaryGaps(q.head - q.tail);
    PushRecords(q, data);
    assert Chain([f], q.tail, q.head - 1) by {
      assert [f][1..] == [];
    }
    ChainAppend(q.newer, [f], LEFT_MARGIN, q.tail, q.head - 1);
  }

  // ---- On the queue itself ----

  /**
    The run into a boundary gap and the push that grows over it, on a queue: four records are counted and four
    Pops succeed, but the third delivers a record that no one pushed, and the last one pushed is never delivered.
   */
  method RecordIsLost() returns (delivered: seq<seq<byte>>, last: Result<Slice>)
    ensures delivered == [Zeros(73), Zeros(126), [], Zeros(10)]
    ensures last == Err(EmptyQueue)
  {
    hide Ring.Push, Ring.Pop, Ring.Valid, Stored, StoredAll, Readable, DataAt, NextAfter;
    var q := MakeHole();
    delivered := [];
    for i := 0 to 4
      invariant q.count == 4 - i && q.head == [1, 75, 202, 203, 214][i] && q.rightMargin == 366 && q.bytes.Length == 440
      invariant |delivered| == i && forall j :: 0 <= j < i ==> delivered[j] == [Zeros(73), Zeros(126), [], Zeros(10)][j]
      invariant ReadsAt(q.bytes[..])
      invariant fresh(q) && fresh(q.bytes)
    {
      var r := q.Pop();
      delivered := delivered + [q.bytes[r.value.start..r.value.start + r.value.len]];
    }
    last := q.Pop();
  }

  ghost predicate Reads(a: seq<byte>, at: nat, data: seq<byte>, next: nat) {
    Readable(a, at) && DataAt(a, at) == data && NextAfter(a, at) == next
  }

  ghost predicate ReadsAt(a: seq<byte>) {
    && Reads(a, 1, Zeros(73), 75)
    && Reads(a, 75, Zeros(126), 202)
    && Reads(a, 202, [], 203)
    && Reads(a, 203, Zeros(10), 214)
  }

  /** The queue after the run and the push of 150 bytes. */
  method MakeHole() returns (q: Queue)
    ensures fresh(q) && fresh(q.bytes)
    ensures q.count == 4 && q.head == 1 && q.rightMargin == 366 && q.bytes.Length == 440 && ReadsAt(q.bytes[..])
  {
    hide Ring.Push, Ring.Pop, Ring.Valid, Ring.Grows, Ring.Refuses, Ring.LeavesHole, Ring.MakeRoom, Need,
         Stored, StoredAll, Readable, DataAt, NextAfter, Spliced, Reads, ByteAt, Zeros, Record.Bytes, Record.Size;
    GapPushes();
    GapPop();
    q := new Queue(220, 0);
    var _ := q.Push(Zeros(200));
    var _ := q.Push(Zeros(10));
    ZeroAtEnd(q.bytes[..]);
    q.HeadReads();
    var _ := q.Pop();
    ghost var before := q.bytes[..];
    var _ := q.Push(Zeros(73));
    RecordBelow(before);
    assert ByteAt(q.bytes[..], 202) == 0;
    var _ := q.Push(Zeros(150));
    assert q.Model() == GapStage(5) && ByteAt(q.bytes[..], 202) == 0;
    StageReads(q.bytes[..]);
  }

  /** The last byte of the first record is the one that will be the hole. */
  lemma ZeroAtEnd(a: seq<byte>)
    requires StoredAll(a, GapStage(2).Records())
    ensures ByteAt(a, 202) == 0
  {
    UvarintSizeExact(200);
    var r := GapStage(2).Records()[0];
    assert Stored(a, r) && r == Record(1, Zeros(200));
    assert a[r.off..r.End()][201] == r.Bytes()[201];
  }

  lemma RecordBelow(a: seq<byte>)
    requires |a| == 220
    ensures var r := Record(1, Zeros(73)); r.End() <= |a| && ByteAt(Spliced(a, 1, r.Bytes()), 202) == ByteAt(a, 202)
  {
    UvarintSizeExact(73);
  }

  lemma StageReads(a: seq<byte>)
    requires StoredAll(a, GapStage(5).Records()) && |a| == 440 && ByteAt(a, 202) == 0
    ensures ReadsAt(a)
  {
    hide Readable, DataAt, NextAfter, Stored;
    UvarintSizeExact(73);
    UvarintSizeExact(126);
    UvarintSizeExact(10);
    var recs := GapStage(5).Records();
    assert recs[0] in recs && recs[1] in recs && recs[2] in recs;
    RecordReads(a, recs[0]);
    RecordReads(a, recs[1]);
    RecordReads(a, recs[2]);
    StrayReads(a, 202);
  }
}
