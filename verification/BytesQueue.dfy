/** bigcache's BytesQueue: a growable ring of length-prefixed records in one byte array. */
module BytesQueue {
  import opened Bytes
  import opened Options
  import opened Varint
  import opened RingLayout

  datatype QueueError = EmptyQueue | InvalidIndex | IndexOutOfBounds | FullQueue

  datatype Result<T> = Ok(value: T) | Err(error: QueueError)

  /** A slice of the queue's array: callers that write through it write into the queue. */
  datatype Slice = Slice(start: nat, len: nat)

  predicate Stored(a: seq<byte>, r: Record) {
    r.End() <= |a| && a[r.off..r.End()] == r.Bytes()
  }

  predicate StoredAll(a: seq<byte>, recs: seq<Record>) {
    forall r :: r in recs ==> Stored(a, r)
  }

  /** A write leaves every record it does not touch as it was. */
  lemma SplicedElsewhere(a: seq<byte>, at: nat, data: seq<byte>, recs: seq<Record>)
    requires at + |data| <= |a| && StoredAll(a, recs)
    requires forall r :: r in recs ==> r.End() <= at || at + |data| <= r.off
    ensures StoredAll(Spliced(a, at, data), recs)
  {
    var s := Spliced(a, at, data);
    forall r | r in recs ensures Stored(s, r) {
      assert Stored(a, r);
      assert forall i :: r.off <= i < r.End() ==> s[i] == a[i];
      assert s[r.off..r.End()] == a[r.off..r.End()];
    }
  }

  /** A copy of the first part of an array holds the records of that part. */
  lemma StoredInPrefix(a: seq<byte>, b: seq<byte>, n: nat, recs: seq<Record>)
    requires n <= |a| && n <= |b| && a[..n] == b[..n] && StoredAll(a, recs)
    requires forall r :: r in recs ==> r.End() <= n
    ensures StoredAll(b, recs)
  {
    forall r | r in recs ensures Stored(b, r) {
      assert Stored(a, r);
      assert a[..n][r.off..r.End()] == a[r.off..r.End()];
      assert b[..n][r.off..r.End()] == b[r.off..r.End()];
    }
  }

  /** Writing a record into free room stores it beside the others. */
  lemma StoredAfterWrite(a: seq<byte>, recs: seq<Record>, r: Record)
    requires r.End() <= |a| && StoredAll(a, recs)
    requires forall o :: o in recs ==> o.End() <= r.off || r.End() <= o.off
    ensures StoredAll(Spliced(a, r.off, r.Bytes()), recs + [r])
  {
    SplicedElsewhere(a, r.off, r.Bytes(), recs);
    assert Stored(Spliced(a, r.off, r.Bytes()), r);
  }

  function ByteAt(a: seq<byte>, i: int): byte {
    if 0 <= i < |a| then a[i] else 0
  }

  lemma SplicedByte(a: seq<byte>, at: nat, data: seq<byte>, i: int)
    requires at + |data| <= |a| && (i < at || at + |data| <= i)
    ensures ByteAt(Spliced(a, at, data), i) == ByteAt(a, i)
  {
  }

  // ---- Reading at an index ----

  /** The header that Uvarint finds at the index. */
  function HeaderAt(a: seq<byte>, index: nat): Decoded
    requires index <= |a|
  {
    Uvarint(a[index..])
  }

  /** Go's slice bounds for the data behind the header at the index are in range. */
  predicate Readable(a: seq<byte>, index: int) {
    && 0 <= index <= |a|
    && var h := HeaderAt(a, index); 0 <= index + h.n && index + h.n + h.value <= |a|
  }

  /** The data that a read at the index returns. */
  function DataAt(a: seq<byte>, index: nat): seq<byte>
    requires Readable(a, index)
  {
    var h := HeaderAt(a, index);
    a[index + h.n..index + h.n + h.value]
  }

  /** The index behind that data. */
  function NextAfter(a: seq<byte>, index: nat): nat
    requires Readable(a, index)
  {
    index + HeaderAt(a, index).n + HeaderAt(a, index).value
  }

  /** A stored record reads as its data, and the next read is behind its end. */
  lemma RecordReads(a: seq<byte>, r: Record)
    requires Stored(a, r) && |r.data| < UINT32_LIMIT
    ensures Readable(a, r.off) && DataAt(a, r.off) == r.data && NextAfter(a, r.off) == r.End()
    ensures HeaderAt(a, r.off) == Decoded(|r.data|, |PutUvarint(|r.data|)|)
  {
    RecordDecodes(a, r);
  }

  lemma StoredRotated(a: seq<byte>, older: seq<Record>, newer: seq<Record>)
    requires StoredAll(a, older + newer)
    ensures StoredAll(a, newer + older) && forall r :: r in newer + older <==> r in older + newer
  {
  }

  lemma StoredRest(a: seq<byte>, recs: seq<Record>)
    requires StoredAll(a, recs) && recs != []
    ensures StoredAll(a, recs[1..]) && Stored(a, recs[0])
    ensures forall r :: r in recs[1..] ==> r in recs
  {
  }

  /** The filler reaches up to head, or to the byte before it. */
  lemma FillerEnds(q: Ring)
    requires q.tail < q.head < UINT32_LIMIT
    ensures FillerLength(q.head - q.tail) < UINT32_LIMIT
    ensures Record(q.tail, Zeros(FillerLength(q.head - q.tail))).End() == if q.Holed() then q.head - 1 else q.head
  {
    FillerMissesBoundaryGaps(q.head - q.tail);
  }

  lemma HoleBeforeTail(q: Ring, data: seq<byte>)
    requires q.Valid() && q.LeavesHole(|data|)
    ensures q.Grows(Need(|data|)) && q.Holed() && q.head <= q.MakeRoom(Need(|data|)).tail
  {
    Cursors(q);
  }

  class Queue {
    var full: bool
    var bytes: array<byte>
    var capacity: nat
    var maxCapacity: int
    var head: nat
    var tail: nat
    var count: nat
    var rightMargin: nat
    ghost var older: seq<Record>
    ghost var newer: seq<Record>

    ghost function Model(): Ring
      reads this
    {
      Ring(capacity, maxCapacity, head, tail, rightMargin, full, older, newer)
    }

    ghost function Records(): seq<Record>
      reads this
    {
      older + newer
    }

    /** Every record of the model is in the array, byte for byte. */
    ghost predicate Mirrors()
      reads this, bytes
    {
      && bytes.Length == capacity
      && count == |Records()|
      && StoredAll(bytes[..], Records())
      && forall r :: r in Records() ==> |r.data| < UINT32_LIMIT
    }

    ghost predicate Valid()
      reads this, bytes
    {
      Mirrors() && Model().Valid()
    }

    constructor (initialCapacity: nat, maximum: int)
      ensures Valid() && fresh(bytes)
      ensures Model() == RingLayout.New(initialCapacity, maximum)
    {
      bytes := new byte[initialCapacity](_ => 0);
      capacity, maxCapacity := initialCapacity, maximum;
      head, tail, rightMargin := LEFT_MARGIN, LEFT_MARGIN, LEFT_MARGIN;
      count, full := 0, false;
      older, newer := [], [];
    }

    method Reset()
      requires Mirrors()
      modifies this
      ensures Valid() && bytes == old(bytes)
      ensures Model() == old(Model()).Reset()
    {
      tail := LEFT_MARGIN;
      head := LEFT_MARGIN;
      rightMargin := LEFT_MARGIN;
      count := 0;
      full := false;
      older, newer := [], [];
    }

    /** Stores the record, growing the array if need be; fails only when the size limit forbids growing. */
    method Push(data: seq<byte>) returns (r: Result<nat>)
      requires Valid() && capacity < UINT32_LIMIT && |data| < UINT32_LIMIT
      modifies this, bytes
      ensures Mirrors() && (bytes == old(bytes) || fresh(bytes))
      ensures Model() == old(Model()).Push(data)
      ensures r.Err? <==> old(Model()).Refuses(Need(|data|))
      ensures r.Err? ==> r.error == FullQueue && bytes == old(bytes) && bytes[..] == old(bytes[..])
      ensures r.Ok? ==> Records() != [] && Records()[|Records()| - 1] == Record(r.value, data)
      ensures r.Ok? ==> r.value == old(Model()).MakeRoom(Need(|data|)).tail
      ensures Valid() <==> !old(Model()).LeavesHole(|data|)
      ensures old(bytes.Length) <= bytes.Length && maxCapacity == old(maxCapacity)
      ensures maxCapacity > 0 && old(bytes.Length) <= maxCapacity ==> bytes.Length <= maxCapacity
      ensures r.Ok? && !old(Model()).Grows(Need(|data|)) ==>
                && bytes == old(bytes) && Record(r.value, data).End() <= bytes.Length
                && bytes[..] == Spliced(old(bytes[..]), r.value, Record(r.value, data).Bytes())
      ensures old(Model()).LeavesHole(|data|) ==> ByteAt(bytes[..], old(head) - 1) == old(ByteAt(bytes[..], head - 1))
    {
      hide Stored, StoredAll, Spliced, Chain, PutUvarint;
      hide Ring.MakeRoom, Ring.Place, Ring.Refuses, Ring.LeavesHole, Ring.Valid;
      ghost var q := Model();
      PushValid(q, data);
      CapacityKept(q, data);
      var dataLen := |data|;
      var headerEntrySize := UvarintSize(dataLen);
      var ok := EnsureRoom(dataLen + headerEntrySize);
      if !ok {
        return Err(FullQueue);
      }
      RoomForRecord(q, data);
      StoredAfterWrite(bytes[..], Records(), Record(tail, data));
      var index := tail;
      if q.LeavesHole(|data|) {
        HoleBeforeTail(q, data);
        SplicedByte(bytes[..], tail, Record(tail, data).Bytes(), q.head - 1);
      }
      Put(data);
      return Ok(index);
    }

    /** The first half of Push: move tail to where need bytes are free, or report that no such place can be made. */
    method EnsureRoom(need: nat) returns (ok: bool)
      requires Valid() && capacity < UINT32_LIMIT && need >= 1
      modifies this
      ensures Mirrors() && (bytes == old(bytes) || fresh(bytes))
      ensures ok <==> !old(Model()).Refuses(need)
      ensures ok ==> Model() == old(Model()).MakeRoom(need)
      ensures !ok ==> Model() == old(Model()) && bytes == old(bytes)
      ensures !old(Model()).Grows(need) ==> bytes == old(bytes)
      ensures old(Model()).Grows(need) && old(Model()).Holed() ==>
                ByteAt(bytes[..], old(head) - 1) == old(ByteAt(bytes[..], head - 1))
    {
      hide Stored, Chain;
      if !CanInsertAfterTail(need) {
        if CanInsertBeforeHead(need) {
          tail := LEFT_MARGIN;
        } else if capacity + need >= maxCapacity && maxCapacity > 0 {
          return false;
        } else {
          AllocateAdditionalMemory(need);
        }
      }
      return true;
    }

    /** Replaces the array by a larger one; a wrapped ring is unwrapped and its gap filled with a record of zeros. */
    method AllocateAdditionalMemory(minimum: nat)
      requires Valid() && capacity < UINT32_LIMIT
      requires Model().Grows(minimum)
      modifies this
      ensures Mirrors() && fresh(bytes)
      ensures Model() == old(Model()).Grow(minimum) && maxCapacity == old(maxCapacity)
      ensures old(bytes.Length) + minimum <= bytes.Length && (maxCapacity > 0 ==> bytes.Length <= maxCapacity)
      ensures old(Model()).Holed() ==> ByteAt(bytes[..], old(head) - 1) == old(ByteAt(bytes[..], head - 1))
    {
      hide Stored, StoredAll, Chain, Ring.Valid, Ring.Grows, PutUvarint, ByteAt, FillerFits, FillerLength, Zeros, GrownCapacity;
      Cursors(Model());
      GrownCapacityFits(Model(), minimum);
      forall r | r in Records()
        ensures Model().Wrapped() ==> r.End() <= tail || head <= r.off
      {
        RecordBetweenCursors(Model(), r);
      }
      Reallocate(GrownCapacity(capacity, maxCapacity, minimum));
      if LEFT_MARGIN != rightMargin && tail <= head {
        Unwrap();
      }
      full := false;
    }

    /** A new array of the given size, with the used part of the old one. */
    method Reallocate(newCapacity: nat)
      requires Valid() && (rightMargin <= newCapacity || Records() == [])
      modifies this`capacity, this`bytes
      ensures Mirrors() && fresh(bytes) && Model() == old(Model()).(cap := newCapacity)
      ensures forall i :: 0 <= i < rightMargin && Records() != [] ==> ByteAt(bytes[..], i) == old(ByteAt(bytes[..], i))
    {
      hide Stored, Chain;
      var oldArray := bytes;
      ghost var before := bytes[..];
      Cursors(Model());
      capacity := newCapacity;
      bytes := new byte[capacity](_ => 0);
      if LEFT_MARGIN != rightMargin {
        forall i | 0 <= i < rightMargin {
          bytes[i] := oldArray[i];
        }
        forall r | r in Records() ensures r.End() <= rightMargin {
          RecordBetweenCursors(old(Model()), r);
        }
        assert before[..rightMargin] == bytes[..][..rightMargin];
        StoredInPrefix(before, bytes[..], rightMargin, Records());
      }
    }

    /** The records of a wrapped or full ring become one run from the left margin. */
    method Unwrap()
      requires Mirrors() && tail <= head < rightMargin <= capacity && head < UINT32_LIMIT
      requires forall r :: r in Records() ==> r.End() <= tail || head <= r.off
      modifies this`head, this`tail, this`rightMargin, this`full, this`count, this`older, this`newer, bytes
      ensures Mirrors() && bytes == old(bytes) && capacity == old(capacity) && maxCapacity == old(maxCapacity)
      ensures head == LEFT_MARGIN && tail == rightMargin == old(rightMargin)
      ensures older == old(newer) + old(Model()).Filler() + old(older) && newer == []
      ensures old(Model()).Holed() ==> ByteAt(bytes[..], old(head) - 1) == old(ByteAt(bytes[..], head - 1))
    {
      hide Stored, StoredAll, Spliced, PutUvarint, FillerFits;
      if tail != head {
        WriteFiller();
      }
      StoredRotated(bytes[..], older, newer);
      head := LEFT_MARGIN;
      tail := rightMargin;
      older, newer := newer + older, [];
      assert Records() == older;
    }

    /** A record of zeros in the gap between tail and head, as long as its header's size in the gap allows. */
    method WriteFiller()
      requires Mirrors() && tail < head < rightMargin <= capacity && head < UINT32_LIMIT
      requires forall r :: r in Records() ==> r.End() <= tail || head <= r.off
      modifies this`tail, this`rightMargin, this`full, this`count, this`older, this`newer, bytes
      ensures Mirrors() && rightMargin == old(rightMargin)
      ensures older == old(older) && newer == old(newer) + old(Model()).Filler()
      ensures old(Model()).Holed() ==> ByteAt(bytes[..], head - 1) == old(ByteAt(bytes[..], head - 1))
    {
      hide Stored, StoredAll, Spliced, ByteAt, Zeros, PutUvarint, UvarintSize, FillerFits, Record.Size, Record.Bytes;
      FillerEnds(Model());
      var headerEntrySize := UvarintSize(head - tail);
      var emptyBlobLen := head - tail - headerEntrySize;
      assert emptyBlobLen == FillerLength(head - tail);
      ghost var filler := Record(tail, Zeros(emptyBlobLen));
      StoredAfterWrite(bytes[..], Records(), filler);
      if Model().Holed() {
        SplicedByte(bytes[..], tail, filler.Bytes(), head - 1);
      }
      Put(Zeros(emptyBlobLen));
      assert Records() == old(Records()) + [filler];
    }

    /** The unexported push: header and data at tail, then the cursors. */
    method Put(data: seq<byte>)
      requires |data| < UINT32_LIMIT && Record(tail, data).End() <= bytes.Length
      modifies this`tail, this`rightMargin, this`full, this`count, this`older, this`newer, bytes
      ensures Model() == old(Model()).Place(data) && count == old(count) + 1
      ensures bytes[..] == Spliced(old(bytes[..]), old(tail), Record(old(tail), data).Bytes())
    {
      hide Spliced;
      ghost var q := Model();
      ghost var header := PutUvarint(|data|);
      SplicedTwice(bytes[..], tail, header, data);
      assert header[..|header|] == header && data[..|data|] == data;
      Copy(PutUvarint(|data|));
      Copy(data);
      if tail > head {
        rightMargin := tail;
      }
      if tail == head {
        full := true;
      }
      count := count + 1;
      older, newer := q.Place(data).older, q.Place(data).newer;
    }

    /** Go's copy into array[tail:]: as many bytes as fit. */
    method Copy(data: seq<byte>)
      requires tail <= bytes.Length
      modifies this`tail, bytes
      ensures old(tail) <= tail <= bytes.Length
      ensures tail - old(tail) == if |data| <= bytes.Length - old(tail) then |data| else bytes.Length - old(tail)
      ensures bytes[..] == Spliced(old(bytes[..]), old(tail), data[..tail - old(tail)])
    {
      var n := if |data| <= bytes.Length - tail then |data| else bytes.Length - tail;
      forall i | 0 <= i < n {
        bytes[tail + i] := data[i];
      }
      tail := tail + n;
    }

    /**
      Moves head behind the record it reads there, whatever that is, and returns its data, which stay in the
      array until the next Push. On a valid queue that is the oldest record.
     */
    method Pop() returns (r: Result<Slice>)
      requires CheckErr(head).None? ==> Readable(bytes[..], head)
      modifies this`head, this`tail, this`rightMargin, this`count, this`full, this`older, this`newer
      ensures old(CheckErr(head)).Some? ==>
                r == Err(old(CheckErr(head)).value) && Model() == old(Model()) && count == old(count)
      ensures old(CheckErr(head)).None? ==>
                && r.Ok? && Shows(r.value, DataAt(bytes[..], old(head))) && count == old(count) - 1 && !full
                && var next := NextAfter(bytes[..], old(head));
                   if next == old(rightMargin)
                   then head == LEFT_MARGIN && tail == rightMargin == if old(tail) == next then LEFT_MARGIN else old(tail)
                   else head == next && tail == old(tail) && rightMargin == old(rightMargin)
      ensures old(Valid()) ==>
                && Valid()
                && (old(Records()) == [] ==> r == Err(EmptyQueue))
                && (old(Records()) != [] ==>
                      && r.Ok? && Model() == old(Model()).Pop() && Records() == old(Records())[1..]
                      && Shows(r.value, old(Records())[0].data))
    {
      hide Stored, StoredAll, Chain, Uvarint, Readable, DataAt, NextAfter, HeaderAt, Ring.Valid, PutUvarint;
      ghost var q := Model();
      ghost var valid := Valid();
      if valid && Records() != [] {
        HeadReads();
        PopRemovesFirst(q);
        Cursors(q);
        StoredRest(bytes[..], Records());
      }
      var p := PeekAt(head);
      if p.Err? {
        return Err(p.error);
      }
      var (data, headerEntrySize) := p.value;
      Skip(headerEntrySize + data.len);
      if valid {
        older, newer := q.Pop().older, q.Pop().newer;
        assert Model() == q.Pop();
      }
      return Ok(data);
    }

    /** The second half of Pop: head moves on, and from the right margin back to the left one. */
    method Skip(size: int)
      requires 0 <= head + size && count > 0
      modifies this`head, this`tail, this`rightMargin, this`count, this`full
      ensures count == old(count) - 1 && !full
      ensures var next := old(head) + size;
              if next == old(rightMargin)
              then head == LEFT_MARGIN && tail == rightMargin == if old(tail) == next then LEFT_MARGIN else old(tail)
              else head == next && tail == old(tail) && rightMargin == old(rightMargin)
    {
      head := head + size;
      count := count - 1;
      if head == rightMargin {
        head := LEFT_MARGIN;
        if tail == rightMargin {
          tail := LEFT_MARGIN;
        }
        rightMargin := tail;
      }
      full := false;
    }

    method Peek() returns (r: Result<Slice>)
      requires CheckErr(head).None? ==> Readable(bytes[..], head)
      ensures CheckErr(head).Some? ==> r == Err(CheckErr(head).value)
      ensures CheckErr(head).None? ==> r.Ok? && Shows(r.value, DataAt(bytes[..], head))
      ensures Valid() && Records() == [] ==> r == Err(EmptyQueue)
      ensures Valid() && Records() != [] ==> r.Ok? && Locates(r.value, Records()[0]) && Shows(r.value, Records()[0].data)
    {
      hide Stored, Chain, Uvarint, Readable, DataAt, NextAfter, HeaderAt;
      if Valid() && Records() != [] {
        HeadReads();
      }
      var p := PeekAt(head);
      if p.Err? {
        return Err(p.error);
      }
      return Ok(p.value.0);
    }

    /** Reads the record that starts at index; at any other index, what the bytes there look like. */
    method Get(index: int) returns (r: Result<Slice>)
      requires CheckErr(index).None? ==> Readable(bytes[..], index)
      ensures CheckErr(index).Some? ==> r == Err(CheckErr(index).value)
      ensures CheckErr(index).None? ==> r.Ok? && Shows(r.value, DataAt(bytes[..], index))
      ensures Mirrors() && CheckErr(index).None? ==>
                r.Ok? && forall rec :: rec in Records() && rec.off == index ==> Locates(r.value, rec) && Shows(r.value, rec.data)
    {
      var p := PeekAt(index);
      if p.Err? {
        return Err(p.error);
      }
      return Ok(p.value.0);
    }

    /** On a valid queue head is where the first record is read. */
    lemma HeadReads()
      requires Valid()
      ensures Records() == [] ==> CheckErr(head) == Some(EmptyQueue)
      ensures Records() != [] ==>
                && CheckErr(head).None? && Records()[0].off == head && Readable(bytes[..], head)
                && DataAt(bytes[..], head) == Records()[0].data && NextAfter(bytes[..], head) == Records()[0].End()
    {
      hide Stored, Chain, Readable, DataAt, NextAfter, HeaderAt;
      if Records() != [] {
        PopRemovesFirst(Model());
        Cursors(Model());
        assert older[0] in Records();
        RecordReads(bytes[..], older[0]);
      }
    }

    /** The slice is the data part of the record. */
    ghost predicate Locates(s: Slice, r: Record) {
      s.len == |r.data| && s.start + s.len == r.End()
    }

    ghost predicate Shows(s: Slice, data: seq<byte>)
      reads this, bytes
    {
      s.start + s.len <= bytes.Length && bytes[s.start..s.start + s.len] == data
    }

    /** peekCheckErr. */
    function CheckErr(index: int): Option<QueueError>
      reads this
    {
      if count == 0 then Some(EmptyQueue)
      else if index <= 0 then Some(InvalidIndex)
      else if index >= bytes.Length then Some(IndexOutOfBounds)
      else None
    }

    /** The unexported peek: the data at index and the length of its header. */
    method PeekAt(index: int) returns (r: Result<(Slice, int)>)
      requires CheckErr(index).None? ==> Readable(bytes[..], index)
      ensures CheckErr(index).Some? ==> r == Err(CheckErr(index).value)
      ensures CheckErr(index).None? ==>
                && r.Ok? && Shows(r.value.0, DataAt(bytes[..], index))
                && index + r.value.1 + r.value.0.len == r.value.0.start + r.value.0.len == NextAfter(bytes[..], index)
      ensures Mirrors() && CheckErr(index).None? ==>
                forall rec :: rec in Records() && rec.off == index ==>
                  && Locates(r.value.0, rec) && Shows(r.value.0, rec.data) && r.value.1 + |rec.data| == rec.Size()
    {
      hide Stored, PutUvarint, Uvarint, UvarintAt;
      var err := CheckErr(index);
      if err.Some? {
        return Err(err.value);
      }
      assert bytes[index..] == bytes[..][index..];
      var decoded := Uvarint(bytes[index..]);
      if Mirrors() {
        forall rec | rec in Records() && rec.off == index
          ensures decoded == Decoded(|rec.data|, |PutUvarint(|rec.data|)|) && DataAt(bytes[..], index) == rec.data
        {
          assert Stored(bytes[..], rec);
          RecordReads(bytes[..], rec);
        }
      }
      return Ok((Slice(index + decoded.n, decoded.value), decoded.n));
    }

    predicate CanInsertAfterTail(need: nat)
      reads this
      ensures CanInsertAfterTail(need) == Model().CanInsertAfterTail(need)
    {
      if full then false
      else if tail >= head then capacity - tail >= need
      else head - tail == need || head - tail >= need + MINIMUM_HEADER
    }

    predicate CanInsertBeforeHead(need: nat)
      reads this
      ensures CanInsertBeforeHead(need) == Model().CanInsertBeforeHead(need)
    {
      if full then false
      else if tail >= head then head - LEFT_MARGIN == need || head - LEFT_MARGIN >= need + MINIMUM_HEADER
      else head - tail == need || head - tail >= need + MINIMUM_HEADER
    }
  }

  /** Decoding the header of a stored record leads to its data. */
  lemma RecordDecodes(a: seq<byte>, r: Record)
    requires Stored(a, r) && |r.data| < UINT32_LIMIT
    ensures var n := |PutUvarint(|r.data|)|;
            && r.End() == r.off + n + |r.data| <= |a|
            && Uvarint(a[r.off..]) == Decoded(|r.data|, n)
            && a[r.off + n..r.off + n + |r.data|] == r.data
  {
    var header := PutUvarint(|r.data|);
    assert a[r.off..] == a[r.off..r.End()] + a[r.End()..];
    assert a[r.off..] == header + (r.data + a[r.End()..]);
    UvarintRoundTrip(|r.data|, r.data + a[r.End()..]);
    assert a[r.off..r.End()][|header|..] == r.data;
  }
}
