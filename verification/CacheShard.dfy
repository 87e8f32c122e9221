/** bigcache's cacheShard over the byte queue; each method is one critical section of its lock. */
module CacheShard {
  import opened Bytes
  import opened Options
  import opened RingLayout
  import opened Encoding
  import opened ShardModel
  import opened ShardTheorems
  import Q = BytesQueue

  // ---- Tombstones in the array ----

  /** Zeroing the hash of a stored record stores the tombstone and leaves the other records alone. */
  lemma StoredAfterTombstone(a: seq<byte>, q: Ring, r: Record)
    requires q.Valid() && Q.StoredAll(a, q.Records()) && r in q.Records() && |r.data| >= 16
    ensures r.End() <= |a|
    ensures Q.StoredAll(Spliced(a, r.End() - |r.data|, Tombstoned(r.data)), ZeroAt(q.Records(), r.off))
  {
    hide Tombstoned, Spliced;
    var recs := q.Records();
    var k :| 0 <= k < |recs| && recs[k] == r;
    assert Q.Stored(a, r);
    var b := Spliced(a, r.End() - |r.data|, Tombstoned(r.data));
    forall z | z in ZeroAt(recs, r.off) ensures Q.Stored(b, z) {
      var i :| 0 <= i < |recs| && ZeroAt(recs, r.off)[i] == z;
      if i == k {
        TombstoneStored(a, r);
      } else {
        if recs[i].off == r.off {
          OffsetsDistinct(q, i, k);
        }
        if i < k { RecordsDisjoint(q, i, k); } else { RecordsDisjoint(q, k, i); }
        assert z == recs[i] && Q.StoredAll(a, [z]);
        Q.SplicedElsewhere(a, r.End() - |r.data|, Tombstoned(r.data), [z]);
        assert z in [z];
      }
    }
  }

  lemma ZeroAtFits(recs: seq<Record>, off: nat)
    requires forall r :: r in recs ==> |r.data| < UINT32_LIMIT
    ensures forall z :: z in ZeroAt(recs, off) ==> |z.data| < UINT32_LIMIT
  {
    ZeroAtMembers(recs, off);
  }

  lemma TombstoneStored(a: seq<byte>, r: Record)
    requires Q.Stored(a, r) && |r.data| >= 16
    ensures Q.Stored(Spliced(a, r.End() - |r.data|, Tombstoned(r.data)), Record(r.off, Tombstoned(r.data)))
  {
    hide Tombstoned;
    var n := r.Size() - |r.data|;
    var b := Spliced(a, r.off + n, Tombstoned(r.data));
    assert b[r.off..r.off + n] == a[r.off..r.off + n] == a[r.off..r.End()][..n];
    assert b[r.off + n..r.End()] == Tombstoned(r.data);
    assert b[r.off..r.End()] == b[r.off..r.off + n] + b[r.off + n..r.End()];
  }

  class CacheShard {
    var hashmap: map<uint64, nat>
    var entries: Q.Queue
    var entryBuffer: array<byte>
    const lifeWindow: uint64
    /** The onRemove calls made so far. */
    var removals: seq<Removal>

    ghost function State(): Shard
      reads this, entries
    {
      Shard(entries.Model(), hashmap, removals, lifeWindow)
    }

    /** The queue is in order and the buffer is not part of it; the map may be out of step. */
    ghost predicate Owned()
      reads this, entries, entries.bytes
    {
      entries.Valid() && entryBuffer != entries.bytes
    }

    ghost predicate Valid()
      reads this, entries, entries.bytes
    {
      Owned() && Inv(State())
    }

    constructor (initialCapacity: nat, maximum: int, bufferSize: nat, window: uint64)
      ensures Valid() && fresh(entries) && fresh(entries.bytes) && fresh(entryBuffer)
      ensures State() == Shard(RingLayout.New(initialCapacity, maximum), map[], [], window)
    {
      var queue := new Q.Queue(initialCapacity, maximum);
      hashmap := map[];
      entries := queue;
      entryBuffer := new byte[bufferSize](_ => 0);
      lifeWindow := window;
      removals := [];
      new;
      assert State().q.Records() == [];
    }

    function EntryBytes(s: Q.Slice): seq<byte>
      requires s.start + s.len <= entries.bytes.Length
      reads this, entries, entries.bytes
    {
      entries.bytes[s.start..s.start + s.len]
    }

    /** getWrappedEntry: the slice of the entry mapped to h. */
    method GetWrappedEntry(h: uint64) returns (r: Option<Q.Slice>)
      requires Valid()
      ensures r.None? <==> h !in hashmap
      ensures r.Some? ==>
                && r.value.start + r.value.len <= entries.bytes.Length
                && EntryBytes(r.value) == Find(State().q.Records(), hashmap[h])
                && |EntryBytes(r.value)| >= HEADERS_SIZE
                && Record(hashmap[h], EntryBytes(r.value)) in State().q.Records()
                && r.value.start + r.value.len == Record(hashmap[h], EntryBytes(r.value)).End()
    {
      hide Ring.Valid, Roomy, Q.Stored, ReadHash;
      var itemIndex := if h in hashmap then hashmap[h] else 0;
      ghost var rec: Record;
      if h in hashmap {
        rec := EntryOf(State(), h);
        RecordBetweenCursors(entries.Model(), rec);
      }
      if itemIndex == 0 {
        return None;
      }
      assert entries.Model().Records() == entries.Records();
      Q.RecordReads(entries.bytes[..], rec);
      var g := entries.Get(itemIndex);
      return Some(g.value);
    }

    /** Marks the entry mapped to h, if any, as no longer usable. */
    method ResetEntry(h: uint64)
      requires Valid()
      modifies entries`older, entries`newer, entries.bytes
      ensures Owned() && State() == Tombstone(old(State()), h)
    {
      hide Ring.Valid, Roomy, Q.Stored, Q.StoredAll, ReadHash, Spliced, Tombstoned, Chain, Find, IsEntry, ZeroAt;
      var g := GetWrappedEntry(h);
      if g.Some? {
        ghost var rec := Record(hashmap[h], EntryBytes(g.value));
        ghost var q := RingZeroAt(entries.Model(), hashmap[h]);
        assert entries.Records() == entries.Model().Records();
        StoredAfterTombstone(entries.bytes[..], entries.Model(), rec);
        RingZeroAtKeeps(entries.Model(), hashmap[h]);
        ZeroAtFits(entries.Records(), hashmap[h]);
        ResetKey(entries.bytes, g.value.start, rec.data);
        entries.older, entries.newer := q.older, q.newer;
        assert entries.Records() == q.Records();
      }
    }

    /** removeOldestEntry: fails on an empty queue; a tombstone goes without an onRemove call. */
    method RemoveOldestEntry(reason: RemoveReason) returns (ok: bool)
      requires Owned() && Roomy(State().q)
      modifies this`hashmap, this`removals, entries
      ensures Owned() && entries.bytes == old(entries.bytes)
      ensures ok <==> old(State()).q.Records() != []
      ensures ok ==> State() == RemoveOldest(old(State()), reason)
      ensures !ok ==> State() == old(State())
    {
      hide Ring.Valid, Ring.Pop, Q.Stored, Q.StoredAll, ReadHash, Chain;
      assert entries.Model().Records() == entries.Records();
      entries.HeadReads();
      var oldest := entries.Pop();
      if oldest.Err? {
        return false;
      }
      var data := EntryBytes(oldest.value);
      assert data == old(entries.Records())[0].data && old(entries.Records())[0] in old(entries.Records());
      var hash := ReadHash(data);
      if hash != 0 {
        hashmap := hashmap - {hash};
        removals := removals + [Removal(data, reason)];
      }
      return true;
    }

    /** Peek and onEvict: drops the oldest record if it is expired. */
    method EvictIfExpired(now: uint64) returns (evicted: bool)
      requires Owned() && Roomy(State().q)
      modifies this`hashmap, this`removals, entries
      ensures Owned() && entries.bytes == old(entries.bytes)
      ensures State() == ExpireOldest(old(State()), now)
      ensures evicted <==> old(State()).q.Records() != []
                           && IsExpired(now, old(State()).q.Records()[0].data, lifeWindow)
    {
      hide Ring.Valid, Ring.Pop, Q.Stored, Q.StoredAll, ReadHash, ReadTimestamp, Chain;
      assert entries.Model().Records() == entries.Records();
      entries.HeadReads();
      var oldest := entries.Peek();
      if oldest.Err? {
        return false;
      }
      var data := EntryBytes(oldest.value);
      assert data == entries.Records()[0].data && entries.Records()[0] in entries.Records();
      var oldestTimestamp := ReadTimestamp(data);
      if (now - oldestTimestamp) % UINT64_LIMIT > lifeWindow {
        var _ := RemoveOldestEntry(Expired);
        return true;
      }
      return false;
    }

    /** The push loop shared by set and append: evict the oldest until the entry fits or nothing is left. */
    method PushEvicting(w: seq<byte>, h: uint64) returns (status: Status)
      requires Owned() && InvExcept(State(), h)
      requires entries.capacity < UINT32_LIMIT && |w| < UINT32_LIMIT
      modifies this`hashmap, this`removals, entries, entries.bytes
      ensures entries.Mirrors() && (entries.bytes == old(entries.bytes) || fresh(entries.bytes))
      ensures Outcome(State(), status) == Insert(old(State()), w, h)
      ensures !old(State()).q.LeavesHole(|w|) ==> Owned()
    {
      hide Ring.Valid, Ring.Pop, Ring.MakeRoom, Ring.Refuses, Ring.Place, Q.Stored, Q.StoredAll, ReadHash, Chain, Roomy, RemoveOldest;
      while true
        invariant Owned() && InvExcept(State(), h) && entries.bytes == old(entries.bytes)
        invariant entries.capacity == old(entries.capacity)
        invariant Insert(State(), w, h) == Insert(old(State()), w, h)
        invariant old(State()).q.LeavesHole(|w|) || !State().q.LeavesHole(|w|)
        decreases |State().q.Records()|
      {
        ghost var s := State();
        var index := entries.Push(w);
        if index.Ok? {
          hashmap := hashmap[h := index.value];
          return Done;
        }
        var removed := RemoveOldestEntry(NoSpace);
        if !removed {
          return EntryTooBig;
        }
        RemoveOldestKeeps(s, NoSpace, h);
        RefusedNeverGrows(s.q, State().q, |w|);
      }
    }

    /** set: tombstone the old entry, drop the oldest if expired, then store the new one. */
    method Set(key: seq<byte>, h: uint64, value: seq<byte>, now: uint64) returns (status: Status)
      requires Valid() && entries.capacity < UINT32_LIMIT && HEADERS_SIZE + |key| + |value| < UINT32_LIMIT
      modifies this`hashmap, this`removals, this`entryBuffer, entries, entries.bytes, entryBuffer
      ensures entries.Mirrors() && (entries.bytes == old(entries.bytes) || fresh(entries.bytes))
      ensures (entryBuffer == old(entryBuffer) || fresh(entryBuffer)) && entryBuffer != entries.bytes
      ensures Outcome(State(), status) == ShardModel.Set(old(State()), now, h, key, value)
      ensures !BeforeOverwrite(old(State()), now, h).q.LeavesHole(HEADERS_SIZE + |key| + |value|) ==> Owned()
    {
      hide Ring.Valid, Q.Stored, Q.StoredAll, ReadHash, Roomy, Insert, Tombstone, ExpireOldest, Wrapped, IsEntry, RingZeroAt;
      TombstoneKeepsOthers(State(), h);
      BeforeOverwriteKeeps(State(), now, h);
      ResetEntry(h);
      var _ := EvictIfExpired(now);
      var n: nat;
      entryBuffer, n := WrapEntry(now, h, key, value, entryBuffer);
      status := PushEvicting(entryBuffer[..n], h);
    }

    /** append: extends the cached entry of the key, or adds a new one; a colliding entry is left as it is. */
    method Append(key: seq<byte>, h: uint64, value: seq<byte>, now: uint64) returns (status: Status)
      requires Valid() && entries.capacity < UINT32_LIMIT
      requires |AppendEntry(State(), now, h, key, value)| < UINT32_LIMIT
      modifies this`hashmap, this`removals, this`entryBuffer, entries, entries.bytes, entryBuffer
      ensures entries.Mirrors()
      ensures Outcome(State(), status) == ShardModel.Append(old(State()), now, h, key, value)
      ensures !BeforeAppend(old(State()), now, h, key).q.LeavesHole(|AppendEntry(old(State()), now, h, key, value)|)
              ==> Owned()
    {
      hide Ring.Valid, Q.Stored, Q.StoredAll, ReadHash, Roomy, Insert, Tombstone, ExpireOldest, Wrapped, IsEntry,
           RingZeroAt, Appended, Find;
      ghost var s := State();
      TombstoneKeepsOthers(s, h);
      BeforeOverwriteKeeps(s, now, h);
      ExpireOldestKeeps(s, now, 0);
      var g := GetWrappedEntry(h);
      if g.Some? {
        var data := EntryBytes(g.value);
        var stored := ReadKey(data);
        if stored.Panics? {
          return Crashed;
        }
        if stored.bytes == key {
          var n: nat;
          entryBuffer, n := AppendToWrappedEntry(now, data, value, entryBuffer);
          var w := entryBuffer[..n];
          ResetEntry(h);
          var _ := EvictIfExpired(now);
          status := PushEvicting(w, h);
          return;
        }
      }
      var _ := EvictIfExpired(now);
      var n: nat;
      entryBuffer, n := WrapEntry(now, h, key, value, entryBuffer);
      status := PushEvicting(entryBuffer[..n], h);
    }

    /** get: the value of the entry mapped to h, if its key is the one asked for. */
    method Get(key: seq<byte>, h: uint64) returns (r: GetResult)
      requires Valid()
      ensures r == ShardModel.Get(State(), h, key)
    {
      hide Ring.Valid, Q.Stored, Q.StoredAll, ReadHash, Roomy, Find, IsEntry;
      var g := GetWrappedEntry(h);
      if g.None? {
        return NotFound;
      }
      var data := EntryBytes(g.value);
      var stored := ReadKey(data);
      if stored.Panics? {
        return GetCrashed;
      }
      if stored.bytes != key {
        return NotFound;
      }
      var entry := ReadEntry(data);
      return if entry.Panics? then GetCrashed else Found(entry.bytes);
    }

    /** del, after its read-locked pre-check: unmap, report, tombstone. */
    method Delete(h: uint64) returns (found: bool)
      requires Valid()
      modifies this`hashmap, this`removals, entries, entries.bytes
      ensures Valid() && found == (h in old(hashmap))
      ensures State() == ShardModel.Delete(old(State()), h)
    {
      hide Ring.Valid, Q.Stored, Q.StoredAll, ReadHash, Roomy, Find, IsEntry, Tombstoned, RingZeroAt;
      ghost var s := State();
      var g := GetWrappedEntry(h);
      if g.None? {
        return false;
      }
      DeleteKeepsInv(s, h);
      var wrapped := EntryBytes(g.value);
      ResetEntry(h);
      hashmap := hashmap - {h};
      removals := removals + [Removal(wrapped, Deleted)];
      return true;
    }

    /** cleanUp: drops expired records from the front until it meets one that is not. */
    method CleanUp(now: uint64)
      requires Valid()
      modifies this`hashmap, this`removals, entries
      ensures Valid() && entries.bytes == old(entries.bytes)
      ensures State() == ShardModel.CleanUp(old(State()), now)
    {
      hide Ring.Valid, Ring.Pop, Q.Stored, Q.StoredAll, ReadHash, Roomy, IsEntry, IsExpired, RemoveOldest;
      var evicted := true;
      while evicted
        invariant Valid() && entries.bytes == old(entries.bytes)
        invariant ShardModel.CleanUp(State(), now) == ShardModel.CleanUp(old(State()), now)
        invariant !evicted ==> State().q.Records() == []
                               || !IsExpired(now, State().q.Records()[0].data, lifeWindow)
        decreases |State().q.Records()|, evicted
      {
        ghost var s := State();
        evicted := EvictIfExpired(now);
        if evicted {
          RemoveOldestKeeps(s, Expired, 0);
        }
      }
    }

    /** getEntry: a copy of the wrapped entry. */
    method GetEntry(h: uint64) returns (r: Option<seq<byte>>)
      requires Valid()
      ensures r == if h in hashmap then Some(Find(State().q.Records(), hashmap[h])) else None
      ensures r.Some? ==> |r.value| >= HEADERS_SIZE && HashOf(r.value) == h
    {
      hide Ring.Valid, Q.Stored, Q.StoredAll, ReadHash, Roomy, Find;
      var g := GetWrappedEntry(h);
      if g.None? {
        return None;
      }
      ghost var rec := EntryOf(State(), h);
      return Some(EntryBytes(g.value));
    }

    /** copyHashedKeys: the mapped hashes, each once, in the arbitrary order of Go's map iteration. */
    method CopyHashedKeys() returns (keys: seq<uint64>)
      ensures forall h :: h in keys <==> h in hashmap
      ensures forall i, j :: 0 <= i < j < |keys| ==> keys[i] != keys[j]
    {
      keys := [];
      var left := hashmap.Keys;
      while left != {}
        invariant left <= hashmap.Keys
        invariant forall h :: h in keys <==> h in hashmap && h !in left
        invariant forall i, j :: 0 <= i < j < |keys| ==> keys[i] != keys[j]
        decreases |left|
      {
        var h :| h in left;
        keys := keys + [h];
        left := left - {h};
      }
    }

    /** reset: forgets every entry without an onRemove call; the array keeps its size. */
    method Reset(bufferSize: nat)
      requires entries.Mirrors() && entryBuffer != entries.bytes
      modifies this`hashmap, this`entryBuffer, entries
      ensures Valid() && State() == ShardModel.Reset(old(State()))
    {
      hashmap := map[];
      entryBuffer := new byte[bufferSize](_ => 0);
      entries.Reset();
      assert State().q.Records() == [];
    }
  }
}
