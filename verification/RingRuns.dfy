/** Whole runs of the byte queue: stable offsets, first-in first-out order, and a run into a boundary gap. */
module RingRuns {
  import opened Bytes
  import opened Varint
  import opened RingLayout

  datatype Op = PushOp(data: seq<byte>) | PopOp | ResetOp

  /** The queue as seen by a caller: Pop on an empty queue is an error that changes nothing. */
  function Step(q: Ring, op: Op): Ring {
    match op
    case PushOp(data) => q.Push(data)
    case PopOp => if q.Records() == [] then q else q.Pop()
    case ResetOp => q.Reset()
  }

  /** Within the 32-bit range of offsets and lengths, and not growing over a boundary gap. */
  ghost predicate SafeStep(q: Ring, op: Op) {
    op.PushOp? ==>
      && q.cap < UINT32_LIMIT && |op.data| < UINT32_LIMIT
      && !q.LeavesHole(|op.data|)
  }

  ghost predicate SafeRun(q: Ring, ops: seq<Op>)
    decreases ops
  {
    ops == [] || (SafeStep(q, ops[0]) && SafeRun(Step(q, ops[0]), ops[1..]))
  }

  ghost function Run(q: Ring, ops: seq<Op>): Ring
    requires SafeRun(q, ops)
    decreases ops
  {
    if ops == [] then q else Run(Step(q, ops[0]), ops[1..])
  }

  lemma StepValid(q: Ring, op: Op)
    requires q.Valid() && SafeStep(q, op)
    ensures Step(q, op).Valid()
  {
    match op {
      case PushOp(data) => PushValid(q, data);
      case PopOp => if q.Records() != [] { PopRemovesFirst(q); }
      case ResetOp =>
    }
  }

  /** The layout invariant holds after every safe run from a valid ring. */
  lemma {:induction false} RunValid(q: Ring, ops: seq<Op>)
    requires q.Valid() && SafeRun(q, ops)
    ensures Run(q, ops).Valid()
    decreases ops
  {
    if ops != [] {
      StepValid(q, ops[0]);
      RunValid(Step(q, ops[0]), ops[1..]);
    }
  }

  /** Over every safe run the array never grows beyond a positive limit, and never shrinks. */
  lemma {:induction false} RunKeepsLimit(q: Ring, ops: seq<Op>)
    requires q.Valid() && SafeRun(q, ops)
    ensures q.cap <= Run(q, ops).cap && Run(q, ops).max == q.max
    ensures q.max > 0 && q.cap <= q.max ==> Run(q, ops).cap <= q.max
    decreases ops
  {
    hide Ring.Push, Ring.Pop, Ring.Valid;
    if ops != [] {
      StepValid(q, ops[0]);
      if ops[0].PushOp? {
        CapacityKept(q, ops[0].data);
      } else {
        StepKeepsCapacity(q, ops[0]);
      }
      RunKeepsLimit(Step(q, ops[0]), ops[1..]);
    }
  }

  lemma StepKeepsCapacity(q: Ring, op: Op)
    requires !op.PushOp?
    ensures Step(q, op).cap == q.cap && Step(q, op).max == q.max
  {
  }

  /** Some operation of the run pops the record or resets the queue while the record is in it. */
  ghost predicate Leaves(q: Ring, ops: seq<Op>, r: Record)
    requires SafeRun(q, ops)
    decreases ops
  {
    ops != [] &&
    (|| ops[0].ResetOp?
     || (ops[0].PopOp? && q.Records() != [] && q.Records()[0] == r)
     || Leaves(Step(q, ops[0]), ops[1..], r))
  }

  /** The offset handed out for a record stays that record's, with those bytes, until it is popped or reset away. */
  lemma {:induction false} OffsetStable(q: Ring, ops: seq<Op>, r: Record)
    requires q.Valid() && SafeRun(q, ops) && r in q.Records() && !Leaves(q, ops, r)
    ensures r in Run(q, ops).Records()
    decreases ops
  {
    if ops != [] {
      StepValid(q, ops[0]);
      match ops[0] {
        case PushOp(data) => if !q.Refuses(Need(|data|)) { PushRecords(q, data); }
        case PopOp => if q.Records() != [] { PopRemovesFirst(q); }
        case ResetOp =>
      }
      OffsetStable(Step(q, ops[0]), ops[1..], r);
    }
  }

  function Datas(recs: seq<Record>): (ds: seq<seq<byte>>)
    ensures |ds| == |recs| && forall i :: 0 <= i < |recs| ==> ds[i] == recs[i].data
  {
    seq(|recs|, i requires 0 <= i < |recs| => recs[i].data)
  }

  /** Data delivered by the run's successful Pops, in order. */
  ghost function Popped(q: Ring, ops: seq<Op>): seq<seq<byte>>
    requires SafeRun(q, ops)
    decreases ops
  {
    if ops == [] then []
    else (if ops[0].PopOp? && q.Records() != [] then [q.Records()[0].data] else [])
         + Popped(Step(q, ops[0]), ops[1..])
  }

  /** Data of the run's Pushes that were not refused, in order. */
  ghost function Accepted(q: Ring, ops: seq<Op>): seq<seq<byte>>
    requires SafeRun(q, ops)
    decreases ops
  {
    if ops == [] then []
    else (if ops[0].PushOp? && !q.Refuses(Need(|ops[0].data|)) then [ops[0].data] else [])
         + Accepted(Step(q, ops[0]), ops[1..])
  }

  lemma FifoStep(q: Ring, op: Op)
    requires q.Valid() && SafeStep(q, op) && q.cap == q.max > 0 && !op.ResetOp?
    ensures Step(q, op).cap == q.cap && Step(q, op).max == q.max
    ensures op.PushOp? ==>
              Datas(Step(q, op).Records()) == Datas(q.Records()) + if q.Refuses(Need(|op.data|)) then [] else [op.data]
    ensures op.PopOp? && q.Records() != [] ==>
              [q.Records()[0].data] + Datas(Step(q, op).Records()) == Datas(q.Records())
  {
    match op {
      case PushOp(data) => if !q.Refuses(Need(|data|)) { PushRecords(q, data); }
      case PopOp => if q.Records() != [] { PopRemovesFirst(q); }
    }
  }

  lemma Regroup<T>(out: seq<T>, popped: seq<T>, live: seq<T>, last: seq<T>, first: seq<T>, acc: seq<T>, pushed: seq<T>)
    requires out + live == first + acc && popped + last == live + pushed
    ensures (out + popped) + last == first + (acc + pushed)
  {
    assert (out + popped) + last == out + (popped + last);
    assert out + (live + pushed) == (out + live) + pushed;
    assert (first + acc) + pushed == first + (acc + pushed);
  }

  /** With its capacity at a positive limit the queue never grows, and is a strict FIFO. */
  lemma {:induction false} FixedCapacityIsFifo(q: Ring, ops: seq<Op>)
    requires q.Valid() && SafeRun(q, ops) && q.cap == q.max > 0
    requires ResetOp !in ops
    ensures Run(q, ops).cap == q.cap
    ensures Popped(q, ops) + Datas(Run(q, ops).Records()) == Datas(q.Records()) + Accepted(q, ops)
    decreases ops
  {
    if ops != [] {
      var next := Step(q, ops[0]);
      StepValid(q, ops[0]);
      FifoStep(q, ops[0]);
      FixedCapacityIsFifo(next, ops[1..]);
      var out := if ops[0].PopOp? && q.Records() != [] then [q.Records()[0].data] else [];
      var acc := if ops[0].PushOp? && !q.Refuses(Need(|ops[0].data|)) then [ops[0].data] else [];
      Regroup(out, Popped(next, ops[1..]), Datas(next.Records()), Datas(Run(q, ops).Records()),
              Datas(q.Records()), acc, Accepted(next, ops[1..]));
    }
  }

  /** Four ordinary operations on a fresh 220-byte queue. */
  function GapRun(): seq<Op> {
    [PushOp(Zeros(200)), PushOp(Zeros(10)), PopOp, PushOp(Zeros(73))]
  }

  /** The ring they lead to: wrapped, with a gap of 128 bytes from 75 to 203. */
  function GapRing(): Ring {
    Ring(220, 0, 203, 75, 214, false, [Record(203, Zeros(10))], [Record(1, Zeros(73))])
  }

  /** The rings on the way, and the one that a push of 150 bytes then leaves. */
  function GapStage(n: nat): Ring
    requires n <= 5
  {
    if n == 0 then New(220, 0)
    else if n == 1 then Ring(220, 0, 1, 203, 203, false, [Record(1, Zeros(200))], [])
    else if n == 2 then Ring(220, 0, 1, 214, 214, false, [Record(1, Zeros(200)), Record(203, Zeros(10))], [])
    else if n == 3 then Ring(220, 0, 203, 214, 214, false, [Record(203, Zeros(10))], [])
    else if n == 4 then GapRing()
    else Ring(440, 0, 1, 366, 366, false,
              [Record(1, Zeros(73)), Record(75, Zeros(126)), Record(203, Zeros(10)), Record(214, Zeros(150))], [])
  }

  /** A record of this length is stored without growing the array. */
  predicate FitsAsIs(q: Ring, dataLen: nat) {
    !q.Grows(Need(dataLen)) && !q.Refuses(Need(dataLen)) && !q.LeavesHole(dataLen)
  }

  lemma GapPushes()
    ensures GapStage(0).Push(Zeros(200)) == GapStage(1) && GapStage(1).Push(Zeros(10)) == GapStage(2)
    ensures GapStage(3).Push(Zeros(73)) == GapStage(4) && GapStage(4).Push(Zeros(150)) == GapStage(5)
    ensures FitsAsIs(GapStage(0), 200) && FitsAsIs(GapStage(1), 10) && FitsAsIs(GapStage(3), 73)
    ensures GapStage(4).LeavesHole(150) && !GapStage(4).Refuses(Need(150))
  {
    UvarintSizeExact(200);
    UvarintSizeExact(10);
    UvarintSizeExact(73);
    UvarintSizeExact(126);
    UvarintSizeExact(150);
  }

  lemma GapPop()
    ensures GapStage(2).Records() != [] && GapStage(2).Pop() == GapStage(3)
  {
    UvarintSizeExact(200);
    assert GapStage(2).Records()[0] == Record(1, Zeros(200));
  }

  lemma GapRunEnds()
    ensures SafeRun(New(220, 0), GapRun()) && Run(New(220, 0), GapRun()) == GapRing()
  {
    hide Ring.Push, Ring.Pop, Ring.LeavesHole, Need;
    var ops := GapRun();
    GapPushes();
    GapPop();
    assert ops[1..] == [PushOp(Zeros(10)), PopOp, PushOp(Zeros(73))];
    assert ops[1..][1..] == [PopOp, PushOp(Zeros(73))];
    assert ops[1..][1..][1..] == [PushOp(Zeros(73))];
    assert ops[1..][1..][1..][1..] == [];
  }

  /** They lead to a boundary gap, and a push that grows the queue over it breaks the layout. */
  lemma BoundaryGapIsReachable()
    ensures SafeRun(New(220, 0), GapRun())
    ensures var q := Run(New(220, 0), GapRun());
            q.Valid() && q.tail < q.head && BoundaryGap(q.head - q.tail) && !q.Push(Zeros(150)).Valid()
  {
    hide Ring.Push, Ring.Pop;
    GapRunEnds();
    RunValid(New(220, 0), GapRun());
    FillerMissesBoundaryGaps(128);
    PushValid(GapRing(), Zeros(150));
    assert GapRing().LeavesHole(150);
  }
}
