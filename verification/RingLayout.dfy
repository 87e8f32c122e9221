/**
  The record layout of bigcache's BytesQueue, without its bytes: where each record
  of the ring sits, in the order Pop delivers them, and how Push, growth, Pop and
  Reset move the cursors. The class BytesQueue.Queue is proved against these functions.
 */
module RingLayout {
  import opened Bytes
  import opened Varint

  /** Index 0 is never used: the first byte of a record is at 1 or later. */
  const LEFT_MARGIN: nat := 1

  /** Bytes kept free behind a record pushed into a gap it does not fill exactly. */
  const MINIMUM_HEADER: nat := 17

  /** A stored entry: the header starts at off, the data follows it. */
  datatype Record = Record(off: nat, data: seq<byte>) {
    function Size(): (n: nat)
      ensures n >= 1
    {
      |PutUvarint(|data|)| + |data|
    }

    function End(): nat {
      off + Size()
    }

    function Bytes(): (s: seq<byte>)
      ensures |s| == Size()
    {
      PutUvarint(|data|) + data
    }
  }

  /** The records follow one another without a gap from index `from` to index `to`. */
  predicate Chain(recs: seq<Record>, from: nat, to: nat) {
    if recs == [] then from == to
    else recs[0].off == from && Chain(recs[1..], recs[0].End(), to)
  }

  /** Capacity after allocateAdditionalMemory(need): doubled, within the limit if there is one. */
  function GrownCapacity(cap: nat, max: int, need: nat): nat {
    var doubled := 2 * (if cap < need then cap + need else cap);
    if doubled > max && max > 0 then max else doubled
  }

  /** Bytes a push needs, header included; its length is cast to uint32 for the header's size. */
  function Need(dataLen: nat): (n: nat)
    ensures n >= 1
  {
    dataLen + UvarintSize(dataLen % UINT32_LIMIT)
  }

  /** Data bytes of the filler written into a gap when the ring grows. */
  function FillerLength(gap: nat): nat
    requires 0 < gap
  {
    gap - UvarintSize(gap % UINT32_LIMIT)
  }

  /** The filler's header and data cover the gap exactly. */
  predicate FillerFits(gap: nat)
    requires 0 < gap
  {
    |PutUvarint(FillerLength(gap))| + FillerLength(gap) == gap
  }

  /** The gaps just above a power of 128, where the filler's own header is shorter than the gap's. */
  predicate BoundaryGap(gap: nat) {
    || 128 <= gap <= 129
    || 16384 <= gap <= 16386
    || 2097152 <= gap <= 2097155
    || 268435456 <= gap <= 268435460
  }

  /**
    Abstract state of the queue. `older` is the run of records starting at head,
    `newer` the run that was wrapped around to the left margin ([] when not wrapped).
   */
  datatype Ring = Ring(cap: nat, max: int, head: nat, tail: nat, right: nat, full: bool,
                       older: seq<Record>, newer: seq<Record>)
  {
    /** All records, in the order Pop delivers them. */
    function Records(): seq<Record> {
      older + newer
    }

    predicate CanInsertAfterTail(need: nat) {
      if full then false
      else if tail >= head then cap - tail >= need
      else head - tail == need || head - tail >= need + MINIMUM_HEADER
    }

    predicate CanInsertBeforeHead(need: nat) {
      if full then false
      else if tail >= head then head - LEFT_MARGIN == need || head - LEFT_MARGIN >= need + MINIMUM_HEADER
      else head - tail == need || head - tail >= need + MINIMUM_HEADER
    }

    /** Push refuses the record: it fits nowhere and the capacity limit forbids growing. */
    predicate Refuses(need: nat) {
      !CanInsertAfterTail(need) && !CanInsertBeforeHead(need) && cap + need >= max && max > 0
    }

    /** Push has to allocate a larger array for the record. */
    predicate Grows(need: nat) {
      !CanInsertAfterTail(need) && !CanInsertBeforeHead(need) && !Refuses(need)
    }

    predicate Wrapped() {
      newer != []
    }

    /** The layout invariant. */
    ghost predicate Valid() {
      && 1 <= head
      && (forall r :: r in Records() ==> |r.data| < UINT32_LIMIT)
      && Chain(older, head, right)
      && (older != [] ==> right <= cap)
      && if newer == [] then
           tail == right && !full && (older == [] ==> head == LEFT_MARGIN)
         else
           older != [] && Chain(newer, LEFT_MARGIN, tail) && tail <= head && (full <==> tail == head)
    }

    /** The filler record for the gap between tail and head, if there is one. */
    function Filler(): (f: seq<Record>) {
      if tail < head then [Record(tail, Zeros(FillerLength(head - tail)))] else []
    }

    /** allocateAdditionalMemory: a wrapped or full ring comes out unwrapped, its newer records first. */
    function Grow(need: nat): Ring {
      if right == LEFT_MARGIN || tail > head then
        this.(cap := GrownCapacity(cap, max, need), full := false)
      else
        Ring(GrownCapacity(cap, max, need), max, LEFT_MARGIN, right, right, false, newer + Filler() + older, [])
    }

    /** The unexported push: store the record at tail. */
    function Place(data: seq<byte>): Ring {
      var r := Record(tail, data);
      var t := r.End();
      if tail < head then
        this.(tail := t, right := if t > head then t else right, full := full || t == head, newer := newer + [r])
      else
        this.(tail := t, right := if t > head then t else right, full := full || t == head, older := older + [r])
    }

    /** State in which Push places the record, once it has decided not to refuse it. */
    function MakeRoom(need: nat): Ring {
      if CanInsertAfterTail(need) then this
      else if CanInsertBeforeHead(need) then this.(tail := LEFT_MARGIN)
      else Grow(need)
    }

    function Push(data: seq<byte>): Ring {
      var need := Need(|data|);
      if Refuses(need) then this else MakeRoom(need).Place(data)
    }

    function Pop(): Ring
      requires Records() != []
    {
      var next := head + Records()[0].Size();
      if next == right then
        var t := if tail == right then LEFT_MARGIN else tail;
        Ring(cap, max, LEFT_MARGIN, t, t, false, newer, [])
      else
        this.(head := next, full := false, older := if older == [] then [] else older[1..])
    }

    function Reset(): Ring {
      Ring(cap, max, LEFT_MARGIN, LEFT_MARGIN, LEFT_MARGIN, false, [], [])
    }

    /** The ring is wrapped over a gap that a filler would not cover. */
    predicate Holed() {
      tail < head && !FillerFits(head - tail)
    }

    /** This push grows such a ring. */
    predicate LeavesHole(dataLen: nat) {
      Grows(Need(dataLen)) && Holed()
    }
  }

  /** NewBytesQueue. */
  function New(cap: nat, max: int): Ring {
    Ring(cap, max, LEFT_MARGIN, LEFT_MARGIN, LEFT_MARGIN, false, [], [])
  }

  // ---- Chains of records ----

  lemma {:induction false} ChainAppend(a: seq<Record>, b: seq<Record>, from: nat, mid: nat, to: nat)
    requires Chain(a, from, mid) && Chain(b, mid, to)
    ensures Chain(a + b, from, to)
  {
    if a == [] {
      assert a + b == b;
    } else {
      ChainAppend(a[1..], b, a[0].End(), mid, to);
      assert (a + b)[1..] == a[1..] + b;
    }
  }

  /** Where the i-th record of a chain lies, and that the records before and after it lie apart. */
  lemma {:induction false} ChainBounds(recs: seq<Record>, from: nat, to: nat, i: nat)
    requires Chain(recs, from, to) && i < |recs|
    ensures from <= recs[i].off && recs[i].End() <= to
    ensures Chain(recs[..i], from, recs[i].off) && Chain(recs[i + 1..], recs[i].End(), to)
  {
    if i > 0 {
      ChainBounds(recs[1..], recs[0].End(), to, i - 1);
      assert recs[1..][..i - 1] == recs[..i][1..];
      assert recs[1..][i..] == recs[i + 1..];
      ChainLength(recs[1..][..i - 1], recs[0].End(), recs[i].off);
    } else {
      ChainLength(recs[1..], recs[0].End(), to);
    }
  }

  lemma {:induction false} ChainLength(recs: seq<Record>, from: nat, to: nat)
    requires Chain(recs, from, to)
    ensures from <= to && (from == to <==> recs == [])
  {
    if recs != [] {
      ChainLength(recs[1..], recs[0].End(), to);
    }
  }

  lemma {:induction false} ChainDisjoint(recs: seq<Record>, from: nat, to: nat, i: nat, j: nat)
    requires Chain(recs, from, to) && i < j < |recs|
    ensures recs[i].End() <= recs[j].off
  {
    ChainBounds(recs, from, to, i);
    ChainBounds(recs[i + 1..], recs[i].End(), to, j - i - 1);
  }

  /** Same offsets and sizes: the same chain. */
  lemma {:induction false} ChainSameShape(a: seq<Record>, b: seq<Record>, from: nat, to: nat)
    requires |a| == |b| && forall i :: 0 <= i < |a| ==> a[i].off == b[i].off && |a[i].data| == |b[i].data|
    requires Chain(a, from, to)
    ensures Chain(b, from, to)
  {
    if a != [] {
      ChainSameShape(a[1..], b[1..], a[0].End(), to);
    }
  }

  /** Any two live records occupy disjoint bytes, inside the array and right of the margin. */
  lemma RecordsDisjoint(q: Ring, i: nat, j: nat)
    requires q.Valid() && i < j < |q.Records()|
    ensures q.Records()[i].End() <= q.Records()[j].off || q.Records()[j].End() <= q.Records()[i].off
  {
    var n := |q.older|;
    if j < n {
      ChainDisjoint(q.older, q.head, q.right, i, j);
    } else if i >= n {
      ChainDisjoint(q.newer, LEFT_MARGIN, q.tail, i - n, j - n);
    } else {
      ChainBounds(q.older, q.head, q.right, i);
      ChainBounds(q.newer, LEFT_MARGIN, q.tail, j - n);
    }
  }

  // ---- The filler ----

  /** The gaps a filler misses are exactly the boundary gaps, and each is missed by one byte. */
  lemma FillerMissesBoundaryGaps(gap: nat)
    requires 0 < gap < UINT32_LIMIT
    ensures FillerFits(gap) <==> !BoundaryGap(gap)
    ensures |PutUvarint(FillerLength(gap))| + FillerLength(gap) == if BoundaryGap(gap) then gap - 1 else gap
  {
    UvarintSizeExact(FillerLength(gap));
  }

  // ---- What each operation keeps ----

  /** Cursor facts of a valid ring that the operations below rest on. */
  lemma Cursors(q: Ring)
    requires q.Valid()
    ensures q.Records() == [] <==> q.older == []
    ensures q.Records() == [] <==> q.right == LEFT_MARGIN
    ensures LEFT_MARGIN <= q.head && (q.older == [] ==> q.head == q.tail == q.right == LEFT_MARGIN)
    ensures q.older != [] ==> q.head < q.right <= q.cap
    ensures !q.Wrapped() && q.older != [] ==> q.head < q.tail == q.right
    ensures q.Wrapped() ==> LEFT_MARGIN < q.tail <= q.head < q.right
    ensures q.tail <= q.cap || (q.older == [] && q.cap == 0)
  {
    ChainLength(q.older, q.head, q.right);
    if q.newer != [] {
      ChainLength(q.newer, LEFT_MARGIN, q.tail);
    }
  }

  lemma PlaceAppends(q: Ring, data: seq<byte>)
    requires q.tail >= q.head ==> q.newer == []
    ensures q.Place(data).Records() == q.Records() + [Record(q.tail, data)]
  {
    if q.tail < q.head {
      assert q.Place(data).Records() == q.older + (q.newer + [Record(q.tail, data)]);
    }
  }

  /** The room Push made is enough: the record lies inside the array and left of head when it wraps. */
  lemma RoomSuffices(q: Ring, data: seq<byte>)
    requires q.Valid() && q.cap < UINT32_LIMIT && |data| < UINT32_LIMIT
    requires !q.Refuses(Need(|data|))
    ensures var room := q.MakeRoom(Need(|data|));
            var r := Record(room.tail, data);
            && r.Size() == Need(|data|)
            && LEFT_MARGIN <= room.tail && r.End() <= room.cap
            && (if room.tail < room.head then r.End() <= room.head else room.newer == [])
            && q.right <= room.cap + 1 && q.cap <= room.cap
  {
    UvarintSizeExact(|data|);
    Cursors(q);
  }

  /** No live record reaches into the bytes the pushed record is going to take. */
  lemma RoomIsFree(q: Ring, data: seq<byte>, r: Record)
    requires q.Valid() && q.cap < UINT32_LIMIT && |data| < UINT32_LIMIT
    requires !q.Refuses(Need(|data|))
    requires r in q.MakeRoom(Need(|data|)).Records()
    ensures var room := q.MakeRoom(Need(|data|));
            && r.End() <= room.cap
            && (r.End() <= room.tail || room.tail + Need(|data|) <= r.off)
  {
    RoomSuffices(q, data);
    Cursors(q);
    if r in q.Records() {
      RecordBetweenCursors(q, r);
    } else {
      FillerMissesBoundaryGaps(q.head - q.tail);
    }
  }

  /** RoomSuffices and RoomIsFree for the whole ring. */
  lemma RoomForRecord(q: Ring, data: seq<byte>)
    requires q.Valid() && q.cap < UINT32_LIMIT && |data| < UINT32_LIMIT
    requires !q.Refuses(Need(|data|))
    ensures var room := q.MakeRoom(Need(|data|));
            var r := Record(room.tail, data);
            && r.End() <= room.cap
            && (forall o :: o in room.Records() ==> o.End() <= room.tail || r.End() <= o.off)
            && room.Place(data).Records() == room.Records() + [r]
            && q.Push(data) == room.Place(data)
  {
    RoomSuffices(q, data);
    var room := q.MakeRoom(Need(|data|));
    PlaceAppends(room, data);
    forall o | o in room.Records()
      ensures o.End() <= room.tail || Record(room.tail, data).End() <= o.off
    {
      RoomIsFree(q, data, o);
    }
  }

  /** A live record lies between the cursors: never in the gap or right of the margin. */
  lemma RecordBetweenCursors(q: Ring, r: Record)
    requires q.Valid() && r in q.Records()
    ensures LEFT_MARGIN <= r.off && r.End() <= q.right <= q.cap
    ensures q.tail < q.head || q.Wrapped() ==> r.End() <= q.tail || q.head <= r.off
    ensures !q.Wrapped() ==> q.head <= r.off
  {
    Cursors(q);
    if r in q.older {
      var i :| 0 <= i < |q.older| && q.older[i] == r;
      ChainBounds(q.older, q.head, q.right, i);
    } else {
      var i :| 0 <= i < |q.newer| && q.newer[i] == r;
      ChainBounds(q.newer, LEFT_MARGIN, q.tail, i);
    }
  }

  /** A push that grows the ring gets an array that holds everything the old one did. */
  lemma GrownCapacityFits(q: Ring, need: nat)
    requires q.Valid() && q.Grows(need)
    ensures q.right <= GrownCapacity(q.cap, q.max, need) || q.Records() == []
    ensures q.cap + need <= GrownCapacity(q.cap, q.max, need)
    ensures q.max > 0 ==> GrownCapacity(q.cap, q.max, need) <= q.max
  {
    Cursors(q);
  }

  /** Growing a ring keeps the layout, except when the filler leaves a hole. */
  lemma GrowValid(q: Ring, need: nat)
    requires q.Valid() && q.cap < UINT32_LIMIT
    requires q.tail < q.head ==> FillerFits(q.head - q.tail)
    requires q.right <= GrownCapacity(q.cap, q.max, need) || q.older == []
    ensures q.Grow(need).Valid()
  {
    Cursors(q);
    if q.Wrapped() {
      var f := q.Filler();
      assert Chain(f, q.tail, q.head) by {
        if q.tail < q.head {
          assert f[1..] == [];
        }
      }
      ChainAppend(q.newer, f, LEFT_MARGIN, q.tail, q.head);
      ChainAppend(q.newer + f, q.older, LEFT_MARGIN, q.head, q.right);
    }
  }

  /** Placing a record where there is room keeps the layout. */
  lemma PlaceValid(q: Ring, data: seq<byte>)
    requires 1 <= q.tail && |data| < UINT32_LIMIT
    requires q.Valid() || (q.tail == LEFT_MARGIN < q.head && !q.full && !q.Wrapped() && q.older != []
                           && q.(tail := q.right).Valid())
    requires q.tail == q.head ==> q.older == []
    requires Record(q.tail, data).End() <= q.cap
    requires q.tail < q.head ==> Record(q.tail, data).End() <= q.head
    ensures q.Place(data).Valid()
    ensures q.Place(data).Records() == q.Records() + [Record(q.tail, data)]
  {
    var r := Record(q.tail, data);
    assert Chain([r], q.tail, r.End()) by {
      assert [r][1..] == [];
    }
    if q.Valid() {
      Cursors(q);
    }
    if q.tail < q.head {
      if q.newer == [] {
        assert q.newer + [r] == [r];
      } else {
        ChainAppend(q.newer, [r], LEFT_MARGIN, q.tail, r.End());
      }
    } else {
      ChainAppend(q.older, [r], q.head, q.tail, r.End());
    }
    PlaceAppends(q, data);
  }

  /** Push on a valid ring: it stays valid exactly when growth leaves no hole before the old head. */
  lemma PushValid(q: Ring, data: seq<byte>)
    requires q.Valid() && q.cap < UINT32_LIMIT && |data| < UINT32_LIMIT
    ensures q.Push(data).Valid() <==> !q.LeavesHole(|data|)
  {
    var need := Need(|data|);
    if !q.Refuses(need) {
      var room := q.MakeRoom(need);
      RoomSuffices(q, data);
      Cursors(q);
      if q.LeavesHole(|data|) {
        HoleBreaksChain(q, data);
      } else {
        if q.Grows(need) {
          GrowValid(q, need);
          Cursors(room);
        }
        PlaceValid(room, data);
      }
    }
  }

  /** After growth over a boundary gap the filler ends one byte before the record that should follow it. */
  lemma HoleBreaksChain(q: Ring, data: seq<byte>)
    requires q.Valid() && q.cap < UINT32_LIMIT && |data| < UINT32_LIMIT
    requires q.LeavesHole(|data|)
    ensures !q.Push(data).Valid()
    ensures var recs := q.Push(data).Records();
            && |q.newer| + 1 < |recs| && recs[|q.newer| + 1].off == q.head
            && recs[|q.newer|].End() == q.head - 1
  {
    Cursors(q);
    var p := q.Push(data);
    var k := |q.newer|;
    FillerMissesBoundaryGaps(q.head - q.tail);
    assert p.Records()[k] == q.Filler()[0] && p.Records()[k + 1] == q.older[0];
    if p.Valid() {
      assert p.Records() == p.older;
      ChainBounds(p.older, p.head, p.right, k);
    }
  }

  /** The queue as a sequence: Push appends, but growing while wrapped rotates the order first. */
  lemma PushRecords(q: Ring, data: seq<byte>)
    requires q.Valid() && q.cap < UINT32_LIMIT && |data| < UINT32_LIMIT
    requires !q.Refuses(Need(|data|))
    ensures var r := Record(q.MakeRoom(Need(|data|)).tail, data);
            q.Push(data).Records() ==
            (if q.Grows(Need(|data|)) && q.Wrapped() then q.newer + q.Filler() + q.older else q.Records()) + [r]
  {
    RoomSuffices(q, data);
    Cursors(q);
    PlaceAppends(q.MakeRoom(Need(|data|)), data);
  }

  /** Pop on a non-empty valid ring removes the first record and keeps the layout. */
  lemma PopRemovesFirst(q: Ring)
    requires q.Valid() && q.Records() != []
    ensures q.older != [] && q.Records()[0] == q.older[0] && q.older[0].off == q.head
    ensures q.Pop().Valid() && q.Pop().Records() == q.Records()[1..]
  {
    Cursors(q);
    var rest := q.older[1..];
    ChainLength(rest, q.older[0].End(), q.right);
    if rest == [] {
      assert q.Records()[1..] == q.newer;
      if q.newer != [] {
        ChainLength(q.newer, LEFT_MARGIN, q.tail);
      }
    } else {
      assert q.Records()[1..] == rest + q.newer;
    }
  }

  // ---- Where Push puts a record, and in how large an array ----

  /**
    The place Push chooses, in numbers: behind the last record; else in the gap before head, if it fits exactly
    or leaves 17 bytes; else in a larger array, unless the limit would be reached. The array grows to twice its
    size, or to twice what is needed if that is more than it has, cut to the limit.
   */
  lemma PushPlaces(q: Ring, data: seq<byte>)
    requires q.Valid() && q.cap < UINT32_LIMIT && |data| < UINT32_LIMIT
    ensures var need := |PutUvarint(|data|)| + |data|;
            var gap := if q.newer == [] then q.head - 1 else q.head - q.tail;
            var after := q.newer == [] && q.right + need <= q.cap;
            var inGap := gap == need || gap >= need + 17;
            var p := q.Push(data);
            if !after && !inGap && 0 < q.max <= q.cap + need then p == q
            else
              && p.Records() != [] && p.max == q.max
              && p.Records()[|p.Records()| - 1]
                 == Record(if !after && inGap then (if q.newer == [] then 1 else q.tail) else q.right, data)
              && if after || inGap then p.cap == q.cap
                 else
                   && q.cap + need <= p.cap && (q.max > 0 ==> p.cap <= q.max)
                   && var doubled := if q.cap < need then 2 * (q.cap + need) else 2 * q.cap;
                      p.cap == doubled || (0 < q.max < doubled && p.cap == q.max)
  {
    hide Chain, PutUvarint, UvarintSize, Zeros, Ring.Filler, Ring.Wrapped, Ring.Valid, Ring.Refuses, Ring.MakeRoom, Ring.Grows;
    UvarintSizeExact(|data|);
    RoomInNumbers(q, Need(|data|));
    if !q.Refuses(Need(|data|)) {
      PushRecords(q, data);
    }
  }

  lemma RoomInNumbers(q: Ring, need: nat)
    requires q.Valid() && need >= 1
    ensures var gap := if q.newer == [] then q.head - 1 else q.head - q.tail;
            var after := q.newer == [] && q.right + need <= q.cap;
            var inGap := gap == need || gap >= need + 17;
            var room := q.MakeRoom(need);
            && (q.Refuses(need) <==> !after && !inGap && 0 < q.max <= q.cap + need)
            && room.max == q.max
            && (!q.Refuses(need) ==>
                  && room.tail == (if !after && inGap then (if q.newer == [] then 1 else q.tail) else q.right)
                  && if after || inGap then room.cap == q.cap
                     else
                       && q.cap + need <= room.cap && (q.max > 0 ==> room.cap <= q.max)
                       && var doubled := if q.cap < need then 2 * (q.cap + need) else 2 * q.cap;
                          room.cap == doubled || (0 < q.max < doubled && room.cap == q.max))
  {
    hide Chain;
    Cursors(q);
  }

  /** What Push, Pop and Reset do to the capacity: it never shrinks and never exceeds a limit it was within. */
  lemma CapacityKept(q: Ring, data: seq<byte>)
    requires q.Valid() && q.cap < UINT32_LIMIT && |data| < UINT32_LIMIT
    ensures q.cap <= q.Push(data).cap && q.Push(data).max == q.max
    ensures q.max > 0 && q.cap <= q.max ==> q.Push(data).cap <= q.max
    ensures q.Records() != [] ==> q.Pop().cap == q.cap && q.Pop().max == q.max
    ensures q.Reset().cap == q.cap && q.Reset().max == q.max
  {
    PushPlaces(q, data);
  }

  // ---- When Push refuses ----

  /** A record that even the emptied ring cannot take. */
  predicate TooBig(cap: nat, max: int, need: nat) {
    need > cap - 1 && 0 < max <= cap + need
  }

  lemma RefusesWhenTooBig(q: Ring, need: nat)
    requires q.Valid() && need >= 1
    ensures TooBig(q.cap, q.max, need) ==> q.Refuses(need)
    ensures q.Records() == [] ==> (q.Refuses(need) <==> TooBig(q.cap, q.max, need))
  {
    Cursors(q);
  }

  /** How many records have to go before the record fits, or all of them if it never does. */
  ghost function Evictions(q: Ring, need: nat): (n: nat)
    requires q.Valid()
    ensures n <= |q.Records()|
    decreases |q.Records()|
  {
    if !q.Refuses(need) || q.Records() == [] then 0
    else
      PopRemovesFirst(q);
      1 + Evictions(q.Pop(), need)
  }

  /** The ring after n Pops. */
  ghost function AfterPops(q: Ring, n: nat): Ring
    requires q.Valid() && n <= |q.Records()|
    decreases n
  {
    if n == 0 then q
    else
      PopRemovesFirst(q);
      AfterPops(q.Pop(), n - 1)
  }

  /** None of the evictions is needless, and they suffice if any do. */
  lemma {:induction false} EvictionsAreNeeded(q: Ring, need: nat, k: nat)
    requires q.Valid() && k <= Evictions(q, need)
    ensures k < Evictions(q, need) ==> AfterPops(q, k).Refuses(need)
    ensures k == Evictions(q, need) < |q.Records()| ==> !AfterPops(q, k).Refuses(need)
    decreases k
  {
    hide Ring.Valid, Ring.Pop, Ring.Refuses;
    if q.Refuses(need) && q.Records() != [] {
      PopRemovesFirst(q);
      if k > 0 {
        EvictionsAreNeeded(q.Pop(), need, k - 1);
      }
    }
  }

  // ---- Gaps ----

  /** Every record holds at least a wrapped entry's fixed fields, and a gap can hold a filler that does. */
  ghost predicate Roomy(q: Ring) {
    && (forall r :: r in q.Records() ==> |r.data| >= 16)
    && (q.tail < q.head ==> q.head - q.tail >= MINIMUM_HEADER)
  }

  lemma PushKeepsRoomy(q: Ring, data: seq<byte>)
    requires q.Valid() && q.cap < UINT32_LIMIT && 16 <= |data| < UINT32_LIMIT && Roomy(q)
    ensures Roomy(q.Push(data))
    ensures forall f :: f in q.Filler() ==> |f.data| >= 16 && forall i :: 0 <= i < |f.data| ==> f.data[i] == 0
  {
    if !q.Refuses(Need(|data|)) {
      RoomSuffices(q, data);
      Cursors(q);
      PushRecords(q, data);
    }
  }

  lemma PopKeepsRoomy(q: Ring)
    requires q.Valid() && Roomy(q) && q.Records() != []
    ensures Roomy(q.Pop())
  {
    Cursors(q);
    PopRemovesFirst(q);
    ChainLength(q.older[1..], q.older[0].End(), q.right);
    assert |q.older[0].data| >= 16;
  }
}
