/** What callers of a bigcache shard can rely on: single operations, and whole runs of them. */
module ShardTheorems {
  import opened Bytes
  import opened RingLayout
  import opened Encoding
  import opened ShardModel

  // ---- Reading what an operation left ----

  lemma GetStored(s: Shard, h: uint64, key: seq<byte>, data: seq<byte>)
    requires s.q.Valid() && h in s.index && Record(s.index[h], data) in s.q.Records()
    requires |data| >= HEADERS_SIZE && ReadKey(data) == Got(key) && ReadEntry(data).Got?
    ensures MatchKey(s, h, key) == Same(data) && Get(s, h, key) == Found(ReadEntry(data).bytes)
  {
    FindLive(s.q, Record(s.index[h], data));
  }

  /** The entry a mapped hash leads to. */
  lemma EntryOf(s: Shard, h: uint64) returns (r: Record)
    requires Inv(s) && h in s.index
    ensures r in s.q.Records() && r.off == s.index[h] && |r.data| >= HEADERS_SIZE && HashOf(r.data) == h
    ensures Find(s.q.Records(), s.index[h]) == r.data
  {
    r :| r in s.q.Records() && r.off == s.index[h] && |r.data| >= HEADERS_SIZE && HashOf(r.data) == h;
    FindLive(s.q, r);
  }

  // ---- set ----

  /** The entry fits the 32-bit offsets, and growing for it meets no boundary gap. */
  predicate FitsRing(s: Shard, w: seq<byte>) {
    s.q.cap < UINT32_LIMIT && |w| < UINT32_LIMIT && !s.q.LeavesHole(|w|)
  }

  /** A live record other than the one h is mapped to carries h. */
  ghost predicate HasOrphan(s: Shard, h: uint64) {
    exists r :: r in s.q.Records() && HashOf(r.data) == h && (h in s.index ==> r.off != s.index[h])
  }

  /**
    Storing w over the mapping of h fails and leaves the old offset in the map. An orphan would take the
    mapping down when the failing push loop evicts it.
   */
  ghost predicate Dangles(s: Shard, h: uint64, w: seq<byte>) {
    h in s.index && TooBig(s.q.cap, s.q.max, Need(|w|)) && !HasOrphan(s, h)
  }

  /** set fails exactly when even the emptied queue cannot take the entry; otherwise the entry is what get returns. */
  lemma SetCorrect(s: Shard, now: uint64, h: uint64, key: seq<byte>, value: seq<byte>)
    requires Inv(s) && h != 0
    requires FitsRing(BeforeOverwrite(s, now, h), Wrapped(now, h, key, value))
    ensures var o := Set(s, now, h, key, value);
            && (o.status == Done <==> !TooBig(s.q.cap, s.q.max, Need(HEADERS_SIZE + |key| + |value|)))
            && (Inv(o.shard) <==> o.status == Done || h !in o.shard.index)
            && (o.status == Done && |key| <= MAX_KEY ==> Get(o.shard, h, key) == Found(value))
            && (o.status != Done ==> o.shard.q.Records() == [] && o.shard.index.Keys <= {h})
  {
    hide ReadKey, ReadEntry, ReadHash, Roomy, Find, TooBig, BeforeOverwrite;
    var w := Wrapped(now, h, key, value);
    WrappedReadsBack(now, h, key, value);
    BeforeOverwriteKeeps(s, now, h);
    InsertCorrect(BeforeOverwrite(s, now, h), w, h, h);
    var o := Set(s, now, h, key, value);
    if o.status == Done && |key| <= MAX_KEY {
      GetStored(o.shard, h, key, w);
    }
  }

  /**
    The one way in which set breaks the invariant: it fails over a mapped hash whose record is the only
    one with that hash. The map is then left with the old offset alone, into an empty queue.
   */
  lemma SetKeepsInvariantIff(s: Shard, now: uint64, h: uint64, key: seq<byte>, value: seq<byte>)
    requires Inv(s) && h != 0
    requires FitsRing(BeforeOverwrite(s, now, h), Wrapped(now, h, key, value))
    ensures var o := Set(s, now, h, key, value);
            && (Inv(o.shard) <==> !Dangles(s, h, Wrapped(now, h, key, value)))
            && (o.status != Done ==>
                  o.shard.index == if Dangles(s, h, Wrapped(now, h, key, value)) then map[h := s.index[h]] else map[])
  {
    hide Inv, BeforeOverwrite, FitsRing, TooBig, Wrapped, Get, HasOrphan, Insert;
    var w := Wrapped(now, h, key, value);
    SetCorrect(s, now, h, key, value);
    WrappedReadsBack(now, h, key, value);
    BeforeOverwriteKeeps(s, now, h);
    if Set(s, now, h, key, value).status != Done {
      FailedOverwriteIndex(s, now, h, w);
    }
  }

  /** What a failed overwrite leaves in the map: nothing, or the old offset of h if nothing else carried h. */
  lemma FailedOverwriteIndex(s: Shard, now: uint64, h: uint64, w: seq<byte>)
    requires Inv(s) && h != 0 && HEADERS_SIZE <= |w| && HashOf(w) == h
    requires BeforeOverwrite(s, now, h).q.Valid() && FitsRing(BeforeOverwrite(s, now, h), w)
    requires Insert(BeforeOverwrite(s, now, h), w, h).status != Done
    ensures Insert(BeforeOverwrite(s, now, h), w, h).shard.index
         == if h in s.index && !HasOrphan(s, h) then map[h := s.index[h]] else map[]
  {
    hide Insert, HashOf, Roomy, Ring.Valid, IsEntry;
    var t := Tombstone(s, h);
    var b := BeforeOverwrite(s, now, h);
    BeforeOverwriteKeeps(s, now, h);
    var left := Insert(b, w, h).shard.index;
    TombstoneKeepsOthers(s, h);
    ExpireOldestShrinks(t, now, h);
    InsertCorrect(b, w, h, h);
    InsertShrinks(b, w, h, h);
    if h in s.index {
      TombstoneLeavesOrphans(s, h);
      if HasHash(t, h) {
        ExpireOldestUnmaps(t, now, h);
        if h in b.index {
          InsertUnmaps(b, w, h);
        }
      } else {
        ExpireOldestKeepsMapped(t, now, h);
        InsertKeepsMapped(b, w, h);
      }
    }
    OnlyKey(left, h);
  }

  ghost predicate HasHash(s: Shard, h: uint64) {
    exists r :: r in s.q.Records() && HashOf(r.data) == h
  }

  /** After tombstoning the record h is mapped to, exactly its orphans still carry h. */
  lemma TombstoneLeavesOrphans(s: Shard, h: uint64)
    requires Inv(s) && h in s.index
    ensures HasHash(Tombstone(s, h), h) <==> HasOrphan(s, h)
  {
    hide HashOf, Tombstoned;
    var recs := s.q.Records();
    RingZeroAtKeeps(s.q, s.index[h]);
    if HasOrphan(s, h) {
      var r :| r in recs && HashOf(r.data) == h && r.off != s.index[h];
      OthersUntouched(s, h, r);
    }
    if r :| r in Tombstone(s, h).q.Records() && HashOf(r.data) == h {
      var i :| 0 <= i < |recs| && ZeroAt(recs, s.index[h])[i] == r;
      assert recs[i] in recs;
      if recs[i].off == s.index[h] {
        TombstoneHasNoHash(recs[i].data, h);
      }
    }
  }

  lemma TombstoneHasNoHash(data: seq<byte>, h: uint64)
    requires h != 0 && |data| >= TIMESTAMP_SIZE + HASH_SIZE
    ensures HashOf(Tombstoned(data)) != h
  {
    TombstonedReadsBack(data);
  }

  /** Expiring the oldest record either unmaps h or leaves a record that carries it. */
  lemma ExpireOldestUnmaps(s: Shard, now: uint64, h: uint64)
    requires InvExcept(s, h) && HasHash(s, h) && h != 0
    ensures h in ExpireOldest(s, now).index ==> HasHash(ExpireOldest(s, now), h)
  {
    hide HashOf, IsExpired, Ring.Valid, Roomy;
    if ExpireOldest(s, now) != s {
      RemoveOldestKeeps(s, Expired, h);
      var r :| r in s.q.Records() && HashOf(r.data) == h;
      if r != s.q.Records()[0] {
        assert r in s.q.Records()[1..];
      }
    }
  }

  lemma ExpireOldestKeepsMapped(s: Shard, now: uint64, h: uint64)
    requires InvExcept(s, h) && !HasHash(s, h) && h in s.index
    ensures var t := ExpireOldest(s, now); !HasHash(t, h) && h in t.index && t.index[h] == s.index[h]
  {
    hide HashOf, IsExpired, Ring.Valid, Roomy;
    if ExpireOldest(s, now) != s {
      RemoveOldestKeeps(s, Expired, h);
      assert s.q.Records()[0] in s.q.Records();
    }
  }

  /** A push loop that evicts everything evicts the orphan too, and with it the mapping. */
  lemma {:induction false} InsertUnmaps(s: Shard, w: seq<byte>, h: uint64)
    requires InvExcept(s, h) && HasHash(s, h) && h != 0
    requires Insert(s, w, h).status != Done
    ensures h !in Insert(s, w, h).shard.index
    decreases |s.q.Records()|
  {
    hide HashOf, Ring.Valid, Roomy, IsEntry;
    var next := RemoveOldest(s, NoSpace);
    var r :| r in s.q.Records() && HashOf(r.data) == h;
    RemoveOldestKeeps(s, NoSpace, h);
    InsertShrinks(next, w, h, h);
    if r != s.q.Records()[0] {
      assert r in s.q.Records()[1..];
      InsertUnmaps(next, w, h);
    }
  }

  lemma OnlyKey(m: map<uint64, nat>, h: uint64)
    requires m.Keys <= {h}
    ensures m == if h in m then map[h := m[h]] else map[]
  {
  }

  /** Expiring the oldest record drops at most its own mapping. */
  lemma ExpireOldestShrinks(s: Shard, now: uint64, x: uint64)
    requires InvExcept(s, x)
    ensures var t := ExpireOldest(s, now);
            && (forall r :: r in t.q.Records() ==> r in s.q.Records())
            && (forall g :: g in t.index ==> g in s.index && t.index[g] == s.index[g])
            && (forall g :: g in s.index && g !in t.index ==> exists r :: r in s.q.Records() && HashOf(r.data) == g)
  {
    if ExpireOldest(s, now) != s {
      RemoveOldestKeeps(s, Expired, x);
      assert s.q.Records()[0] in s.q.Records();
    }
  }

  /** Without orphans, tombstoning h removes the last record that carries h. */
  lemma NoHashLeft(s: Shard, h: uint64)
    requires Inv(s) && NoOrphans(s) && h in s.index
    ensures forall r :: r in Tombstone(s, h).q.Records() ==> HashOf(r.data) != h
  {
    var recs := s.q.Records();
    RingZeroAtKeeps(s.q, s.index[h]);
    forall r | r in Tombstone(s, h).q.Records() ensures HashOf(r.data) != h {
      var i :| 0 <= i < |recs| && ZeroAt(recs, s.index[h])[i] == r;
      assert recs[i] in recs;
      if recs[i].off == s.index[h] {
        TombstonedReadsBack(recs[i].data);
      }
    }
  }

  lemma {:induction false} InsertKeepsMapped(s: Shard, w: seq<byte>, h: uint64)
    requires InvExcept(s, h) && h in s.index && h != 0 && !HasHash(s, h)
    requires Insert(s, w, h).status != Done
    ensures h in Insert(s, w, h).shard.index && Insert(s, w, h).shard.index[h] == s.index[h]
    decreases |s.q.Records()|
  {
    if s.q.Records() != [] {
      RemoveOldestKeeps(s, NoSpace, h);
      InsertKeepsMapped(RemoveOldest(s, NoSpace), w, h);
    }
  }

  /** The push loop only removes mappings, except the one it makes. */
  lemma {:induction false} InsertShrinks(s: Shard, w: seq<byte>, h: uint64, x: uint64)
    requires InvExcept(s, x)
    ensures var o := Insert(s, w, h);
            forall g :: g in o.shard.index && (g != h || o.status != Done) ==>
                          g in s.index && o.shard.index[g] == s.index[g]
    decreases |s.q.Records()|
  {
    if s.q.Refuses(Need(|w|)) && s.q.Records() != [] {
      RemoveOldestKeeps(s, NoSpace, x);
      InsertShrinks(RemoveOldest(s, NoSpace), w, h, x);
    }
  }

  // ---- append ----

  /** append on a cached key extends its value; on an absent or colliding one it stores the value alone. */
  lemma AppendCorrect(s: Shard, now: uint64, h: uint64, key: seq<byte>, value: seq<byte>)
    requires Inv(s) && h != 0 && !MatchKey(s, h, key).Unreadable?
    requires FitsRing(BeforeAppend(s, now, h, key), AppendEntry(s, now, h, key, value))
    ensures var o := Append(s, now, h, key, value);
            && (o.status == Done <==> !TooBig(s.q.cap, s.q.max, Need(|AppendEntry(s, now, h, key, value)|)))
            && (Inv(o.shard) <==> o.status == Done || h !in o.shard.index)
            && (MatchKey(s, h, key).Absent? ==> Inv(o.shard))
            && (o.status == Done && |key| <= MAX_KEY ==>
                  Get(o.shard, h, key) == Found(if Get(s, h, key).Found? then Get(s, h, key).value + value else value))
  {
    var w := AppendEntry(s, now, h, key, value);
    var o := Append(s, now, h, key, value);
    if MatchKey(s, h, key).Same? {
      var r := EntryOf(s, h);
      AppendedReadsBack(now, r.data, value);
      BeforeOverwriteKeeps(s, now, h);
      InsertCorrect(BeforeOverwrite(s, now, h), w, h, h);
    } else {
      WrappedReadsBack(now, h, key, value);
      ExpireOldestKeeps(s, now, 0);
      InsertCorrect(ExpireOldest(s, now), w, h, 0);
    }
    if o.status == Done && |key| <= MAX_KEY {
      GetStored(o.shard, h, key, w);
    }
  }

  /** append breaks the invariant exactly when it means to overwrite a cached key and dangles as set does. */
  lemma AppendKeepsInvariantIff(s: Shard, now: uint64, h: uint64, key: seq<byte>, value: seq<byte>)
    requires Inv(s) && h != 0
    requires FitsRing(BeforeAppend(s, now, h, key), AppendEntry(s, now, h, key, value))
    ensures var o := Append(s, now, h, key, value);
            var overwrites := MatchKey(s, h, key).Same?;
            Inv(o.shard) <==> !(overwrites && Dangles(s, h, AppendEntry(s, now, h, key, value)))
  {
    hide Inv, BeforeOverwrite, FitsRing, TooBig, Get, HasOrphan, ReadKey, ReadEntry, Insert, Find;
    if !MatchKey(s, h, key).Unreadable? {
      AppendCorrect(s, now, h, key, value);
      if MatchKey(s, h, key).Same? && Append(s, now, h, key, value).status != Done {
        AppendedIsEntry(s, now, h, key, value);
        BeforeOverwriteKeeps(s, now, h);
        FailedOverwriteIndex(s, now, h, AppendEntry(s, now, h, key, value));
      }
    }
  }

  lemma AppendedIsEntry(s: Shard, now: uint64, h: uint64, key: seq<byte>, value: seq<byte>)
    requires Inv(s) && MatchKey(s, h, key).Same?
    ensures var w := AppendEntry(s, now, h, key, value); HEADERS_SIZE <= |w| && HashOf(w) == h
  {
    var r := EntryOf(s, h);
    AppendedReadsBack(now, r.data, value);
  }

  // ---- del and cleanUp ----

  /** Delete unmaps exactly its hash and tells onRemove the entry; every other lookup is unaffected. */
  lemma DeleteCorrect(s: Shard, h: uint64)
    requires Inv(s)
    ensures var t := Delete(s, h);
            && Inv(t) && t.index == s.index - {h}
            && (h in s.index ==> exists r :: r in s.q.Records() && r.off == s.index[h] && HashOf(r.data) == h
                                             && t.log == s.log + [Removal(r.data, Deleted)])
            && (forall k :: Get(t, h, k) == NotFound)
            && (forall g, k :: g != h ==> Get(t, g, k) == Get(s, g, k))
  {
    hide ReadKey, ReadEntry, Find, RingZeroAt, Ring.Valid, Roomy, IsEntry;
    if h in s.index {
      var r := EntryOf(s, h);
      DeleteKeepsInv(s, h);
      forall g, k | g != h ensures Get(Delete(s, h), g, k) == Get(s, g, k) {
        if g in s.index {
          DeleteKeepsOther(s, h, g);
        }
      }
    }
  }

  lemma DeleteKeepsInv(s: Shard, h: uint64)
    requires Inv(s) && h in s.index
    ensures Inv(Delete(s, h))
  {
    TombstoneKeepsOthers(s, h);
    assert Delete(s, h).q == Tombstone(s, h).q;
  }

  lemma DeleteKeepsOther(s: Shard, h: uint64, g: uint64)
    requires Inv(s) && h in s.index && g in s.index && g != h
    ensures Find(Delete(s, h).q.Records(), s.index[g]) == Find(s.q.Records(), s.index[g])
  {
    RingZeroAtKeeps(s.q, s.index[h]);
    var rg := EntryOf(s, g);
    var rh := EntryOf(s, h);
    OthersUntouched(s, h, rg);
    FindLive(Delete(s, h).q, rg);
  }

  lemma OthersUntouched(s: Shard, h: uint64, r: Record)
    requires Inv(s) && h in s.index && r in s.q.Records() && r.off != s.index[h]
    ensures r in Tombstone(s, h).q.Records()
  {
    RingZeroAtKeeps(s.q, s.index[h]);
    var i :| 0 <= i < |s.q.Records()| && s.q.Records()[i] == r;
    assert ZeroAt(s.q.Records(), s.index[h])[i] == r;
  }

  /** cleanUp removes exactly the expired records at the front of the queue. */
  lemma {:induction false} CleanUpCorrect(s: Shard, now: uint64)
    requires Inv(s)
    ensures var t := CleanUp(s, now);
            && Inv(t) && t.q.cap == s.q.cap && t.q.max == s.q.max && t.lifeWindow == s.lifeWindow
            && |t.q.Records()| <= |s.q.Records()|
            && t.q.Records() == s.q.Records()[|s.q.Records()| - |t.q.Records()|..]
            && (forall i :: 0 <= i < |s.q.Records()| - |t.q.Records()| ==>
                              IsExpired(now, s.q.Records()[i].data, s.lifeWindow))
            && (t.q.Records() != [] ==> !IsExpired(now, t.q.Records()[0].data, s.lifeWindow))
            && (forall h :: h in t.index ==> h in s.index && t.index[h] == s.index[h])
    decreases |s.q.Records()|
  {
    hide IsExpired, RemoveOldest, Roomy, Ring.Valid, IsEntry;
    if s.q.Records() != [] && IsExpired(now, s.q.Records()[0].data, s.lifeWindow) {
      RemoveOldestKeeps(s, Expired, 0);
      var next := RemoveOldest(s, Expired);
      CleanUpCorrect(next, now);
      var dropped := |s.q.Records()| - |CleanUp(s, now).q.Records()|;
      forall i | 0 <= i < dropped ensures IsExpired(now, s.q.Records()[i].data, s.lifeWindow) {
        if i > 0 {
          assert next.q.Records()[i - 1] == s.q.Records()[i];
        }
      }
    }
  }
}
