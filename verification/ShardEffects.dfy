/**
  What the operations of a bigcache shard do to everything they were not asked about: which of the
  oldest records leave, for which reason, and that all others stay, mapped and readable.
 */
module ShardEffects {
  import opened Bytes
  import opened RingLayout
  import opened Encoding
  import opened ShardModel
  import opened ShardTheorems
  import opened ShardRuns

  // ---- What leaves ----

  /** The entry's age, the clock counting in uint64, exceeds the life window. */
  predicate Overdue(now: uint64, data: seq<byte>, lifeWindow: uint64) {
    var written := TimeOf(data);
    if written <= now then now - written > lifeWindow else now + UINT64_LIMIT - written > lifeWindow
  }

  lemma ExpiredIff(now: uint64, data: seq<byte>, lifeWindow: uint64)
    ensures IsExpired(now, data, lifeWindow) <==> Overdue(now, data, lifeWindow)
  {
    hide TimeOf;
    var age := now - TimeOf(data);
    if age < 0 {
      assert age % UINT64_LIMIT == age + UINT64_LIMIT;
    }
  }

  /** The onRemove calls for records that leave, oldest first; tombstones, fillers and the record at `silent` go without one. */
  function Reports(recs: seq<Record>, silent: int, reason: RemoveReason): seq<Removal> {
    if recs == [] then [] else ReportOf(recs[0], silent, reason) + Reports(recs[1..], silent, reason)
  }

  function ReportOf(r: Record, silent: int, reason: RemoveReason): seq<Removal> {
    if HashOf(r.data) == 0 || r.off == silent then [] else [Removal(r.data, reason)]
  }

  ghost predicate NoneCarries(recs: seq<Record>, h: uint64) {
    forall r :: r in recs ==> HashOf(r.data) != h
  }

  /** Apart from h, exactly the hashes carried by the records gone are unmapped. */
  ghost predicate UnmapsOnly(s: Shard, t: Shard, gone: seq<Record>, h: uint64) {
    forall g :: g != h ==>
      && (g in t.index <==> g in s.index && NoneCarries(gone, g))
      && (g in t.index ==> t.index[g] == s.index[g])
  }

  /** What RemoveOldest does, on its own. */
  lemma OneLeaves(s: Shard, reason: RemoveReason, x: uint64)
    requires InvExcept(s, x) && s.q.Records() != []
    ensures var t := RemoveOldest(s, reason);
            var gone := s.q.Records()[..1];
            && t.log == s.log + Reports(gone, -1, reason)
            && t.q.Records() == s.q.Records()[1..] && t.q == s.q.Pop()
            && UnmapsOnly(s, t, gone, 0)
            && 0 !in t.index
  {
    hide Ring.Valid, Ring.Pop, Roomy, IsEntry, HashOf;
    RemoveOldestKeeps(s, reason, x);
    var gone := s.q.Records()[..1];
    assert gone == [s.q.Records()[0]] && gone[1..] == [];
  }

  lemma UnmapsThen(s: Shard, m: Shard, t: Shard, a: seq<Record>, b: seq<Record>, h: uint64, gone: seq<Record>)
    requires 0 !in s.index && 0 !in m.index && UnmapsOnly(s, m, a, 0) && UnmapsOnly(m, t, b, h)
    requires gone == a + b
    ensures UnmapsOnly(s, t, gone, h)
  {
    hide HashOf;
  }

  lemma UnmapsNone(s: Shard, h: uint64)
    ensures UnmapsOnly(s, s, [], h)
  {
  }

  lemma {:induction false} ReportsConcat(a: seq<Record>, b: seq<Record>, silent: int, reason: RemoveReason)
    ensures Reports(a + b, silent, reason) == Reports(a, silent, reason) + Reports(b, silent, reason)
    decreases a
  {
    hide ReportOf;
    if a == [] {
      assert a + b == b;
    } else {
      ReportsConcat(a[1..], b, silent, reason);
      assert (a + b)[1..] == a[1..] + b;
    }
  }

  // ---- The push loop ----

  /** The push loop drops as many of the oldest records as have to go, each for lack of space, and nothing else. */
  lemma {:induction false} InsertDrops(s: Shard, w: seq<byte>, h: uint64, x: uint64)
    requires InvExcept(s, x) && (x == 0 || x == h) && h != 0
    requires HEADERS_SIZE <= |w| && HashOf(w) == h && FitsRing(s, w)
    ensures var o := Insert(s, w, h);
            var n := Evictions(s.q, Need(|w|));
            var recs := s.q.Records();
            && o.shard.log == s.log + Reports(recs[..n], -1, NoSpace)
            && UnmapsOnly(s, o.shard, recs[..n], h)
            && (o.status == Done ==> h in o.shard.index)
            && (forall r: Record :: HashOf(r.data) != 0 ==>
                  (r in o.shard.q.Records() <==>
                     r in recs[n..] || (o.status == Done && r == Record(o.shard.index[h], w))))
    decreases |s.q.Records()|
  {
    hide Ring.Valid, Ring.Pop, Ring.Push, Ring.MakeRoom, Ring.Refuses, Need, Roomy, IsEntry, HashOf, Chain, UnmapsOnly, RemoveOldest;
    var recs := s.q.Records();
    var n := Evictions(s.q, Need(|w|));
    if !s.q.Refuses(Need(|w|)) {
      assert recs[..n] == [];
      NothingLeaves(s, w, h);
    } else if recs == [] {
      assert recs[..n] == [];
      UnmapsNone(s, h);
    } else {
      var next := RemoveOldest(s, NoSpace);
      var first, rest := recs[..1], recs[1..][..n - 1];
      assert recs[..n] == first + rest && recs[1..][n - 1..] == recs[n..];
      OneLeaves(s, NoSpace, x);
      RemoveOldestKeeps(s, NoSpace, x);
      RefusedNeverGrows(s.q, next.q, |w|);
      InsertDrops(next, w, h, x);
      assert next.q.Records()[..n - 1] == rest;
      ReportsConcat(first, rest, -1, NoSpace);
      UnmapsThen(s, next, Insert(s, w, h).shard, first, rest, h, recs[..n]);
    }
  }

  lemma NothingLeaves(s: Shard, w: seq<byte>, h: uint64)
    requires s.q.Valid() && h != 0 && HashOf(w) == h && FitsRing(s, w) && !s.q.Refuses(Need(|w|))
    ensures var o := Insert(s, w, h);
            && o.status == Done && o.shard.log == s.log && h in o.shard.index && UnmapsOnly(s, o.shard, [], h)
            && (forall r: Record :: HashOf(r.data) != 0 ==>
                  (r in o.shard.q.Records() <==> r in s.q.Records() || r == Record(o.shard.index[h], w)))
  {
    hide Ring.Valid, Ring.MakeRoom, Ring.Push, HashOf;
    PushRecords(s.q, w);
    FillersHaveNoHash(s.q);
  }

  // ---- Tombstoning and expiry ----

  /** Tombstoning changes no record's place or size, so it changes nothing about evictions. */
  lemma ZeroAtPops(q: Ring, off: nat)
    requires q.Records() != []
    ensures RingZeroAt(q, off).Records() != [] && RingZeroAt(q, off).Pop() == RingZeroAt(q.Pop(), off)
  {
    var z := RingZeroAt(q, off);
    assert z.Records()[0].Size() == q.Records()[0].Size();
    if q.older != [] {
      assert ZeroAt(q.older, off)[1..] == ZeroAt(q.older[1..], off);
    }
    assert ZeroAt([], off) == [];
  }

  lemma {:induction false} ZeroAtEvictions(q: Ring, off: nat, need: nat)
    requires q.Valid() && RingZeroAt(q, off).Valid()
    ensures Evictions(RingZeroAt(q, off), need) == Evictions(q, need)
    decreases |q.Records()|
  {
    hide Ring.Valid, Ring.Pop;
    if q.Refuses(need) && q.Records() != [] {
      PopRemovesFirst(q);
      PopRemovesFirst(RingZeroAt(q, off));
      ZeroAtPops(q, off);
      ZeroAtEvictions(q.Pop(), off, need);
    } else {
      ZeroAtEmpty(q, off);
    }
  }

  lemma ZeroAtEmpty(q: Ring, off: nat)
    ensures RingZeroAt(q, off).Records() == [] <==> q.Records() == []
  {
  }

  /** A tombstone is not reported: reports of tombstoned records are those of the records, but for the one at off. */
  lemma {:induction false} ZeroAtReports(recs: seq<Record>, off: nat, reason: RemoveReason)
    requires forall r :: r in recs && r.off == off ==> |r.data| >= HEADERS_SIZE
    ensures Reports(ZeroAt(recs, off), -1, reason) == Reports(recs, off, reason)
  {
    hide ReportOf, Zeroed;
    if recs != [] {
      ZeroedReport(recs[0], off, reason);
      ZeroAtReports(recs[1..], off, reason);
      assert ZeroAt(recs, off)[1..] == ZeroAt(recs[1..], off);
    }
  }

  lemma ZeroedReport(r: Record, off: nat, reason: RemoveReason)
    requires r.off == off ==> |r.data| >= HEADERS_SIZE
    ensures ReportOf(Zeroed(r, off), -1, reason) == ReportOf(r, off, reason)
  {
    if r.off == off {
      TombstonedReadsBack(r.data);
    }
  }

  // ---- set and append ----

  /** How many records set and append drop for their age: the oldest one, if it is overdue. */
  function OverdueFirst(s: Shard, now: uint64): (e: nat)
    ensures e <= |s.q.Records()| && e <= 1
  {
    if s.q.Records() != [] && Overdue(now, s.q.Records()[0].data, s.lifeWindow) then 1 else 0
  }

  /** How many of the oldest records go before an entry of that size is stored, or before storing it is given up. */
  ghost function GoneBefore(s: Shard, now: uint64, need: nat): (n: nat)
    requires s.q.Valid()
    ensures OverdueFirst(s, now) <= n <= |s.q.Records()|
  {
    if OverdueFirst(s, now) == 1 then
      PopRemovesFirst(s.q);
      1 + Evictions(s.q.Pop(), need)
    else Evictions(s.q, need)
  }

  /**
    What storing w under h does, in terms of the records before it. Overwriting silences the record h is mapped
    to. The oldest record goes if it is overdue, then as many more as the space needed takes; each is reported
    with its reason and unmapped. All other hashed records and mappings stay, and w comes in if there is room.
   */
  ghost predicate StoreEffect(s: Shard, o: Outcome, now: uint64, h: uint64, w: seq<byte>, overwrites: bool)
    requires s.q.Valid()
  {
    var recs := s.q.Records();
    var e := OverdueFirst(s, now);
    var n := GoneBefore(s, now, Need(|w|));
    var silent: int := if overwrites && h in s.index then s.index[h] else -1;
    && o.shard.log == s.log + Reports(recs[..e], silent, Expired) + Reports(recs[e..n], silent, NoSpace)
    && UnmapsOnly(s, o.shard, recs[..n], h)
    && (o.status == Done ==> h in o.shard.index)
    && (forall r: Record :: HashOf(r.data) != 0 ==>
          (r in o.shard.q.Records() <==>
             || (r in recs[n..] && r.off != silent)
             || (o.status == Done && r == Record(o.shard.index[h], w))))
  }

  lemma ExpireDrops(s: Shard, now: uint64, x: uint64)
    requires InvExcept(s, x)
    ensures var t := ExpireOldest(s, now);
            var recs := s.q.Records();
            var e := OverdueFirst(s, now);
            && t.log == s.log + Reports(recs[..e], -1, Expired)
            && t.q.Records() == recs[e..] && (e == 0 ==> t == s) && (e == 1 ==> t.q == s.q.Pop())
            && UnmapsOnly(s, t, recs[..e], 0) && 0 !in t.index
  {
    hide Ring.Valid, Ring.Pop, Roomy, IsEntry, HashOf, RemoveOldest, IsExpired, Overdue;
    if s.q.Records() != [] {
      ExpiredIff(now, s.q.Records()[0].data, s.lifeWindow);
      OneLeaves(s, Expired, x);
    }
  }

  lemma AddedEffect(s: Shard, now: uint64, h: uint64, w: seq<byte>, x: uint64)
    requires InvExcept(s, x) && (x == 0 || x == h) && h != 0
    requires HEADERS_SIZE <= |w| && HashOf(w) == h
    requires ExpireOldest(s, now).q.Valid() && FitsRing(ExpireOldest(s, now), w)
    ensures StoreEffect(s, Insert(ExpireOldest(s, now), w, h), now, h, w, false)
  {
    hide Ring.Valid, Ring.Pop, Roomy, IsEntry, HashOf, ExpireOldest, Insert, Need, OverdueFirst, FitsRing, UnmapsOnly, Reports;
    var t := ExpireOldest(s, now);
    var recs := s.q.Records();
    var e := OverdueFirst(s, now);
    var n := GoneBefore(s, now, Need(|w|));
    ExpireDrops(s, now, x);
    ExpireOldestKeeps(s, now, x);
    InsertDrops(t, w, h, x);
    assert recs[e..][..n - e] == recs[e..n] && recs[e..][n - e..] == recs[n..];
    UnmapsThen(s, t, Insert(t, w, h).shard, recs[..e], recs[e..n], h, recs[..n]);
  }

  lemma OverwriteEffect(s: Shard, now: uint64, h: uint64, w: seq<byte>)
    requires Inv(s) && h != 0 && HEADERS_SIZE <= |w| && HashOf(w) == h
    requires BeforeOverwrite(s, now, h).q.Valid() && FitsRing(BeforeOverwrite(s, now, h), w)
    ensures StoreEffect(s, Insert(BeforeOverwrite(s, now, h), w, h), now, h, w, true)
  {
    hide Ring.Valid, Ring.Pop, Roomy, IsEntry, HashOf, ExpireOldest, Insert, Need, FitsRing, StoreEffect, Tombstone;
    var t := Tombstone(s, h);
    TombstoneKeepsOthers(s, h);
    AddedEffect(t, now, h, w, h);
    SilencedEffect(s, Insert(BeforeOverwrite(s, now, h), w, h), now, h, w);
  }

  /** The effect on a shard whose record of h is already a tombstone, told of the shard before. */
  lemma SilencedEffect(s: Shard, o: Outcome, now: uint64, h: uint64, w: seq<byte>)
    requires Inv(s) && h != 0 && Tombstone(s, h).q.Valid()
    requires StoreEffect(Tombstone(s, h), o, now, h, w, false)
    ensures StoreEffect(s, o, now, h, w, true)
  {
    hide Ring.Valid, Ring.Pop, Roomy, IsEntry, HashOf, Need, Reports, OverdueFirst, GoneBefore, UnmapsOnly;
    if h in s.index {
      var t := Tombstone(s, h);
      var off := s.index[h];
      var recs := s.q.Records();
      var e := OverdueFirst(s, now);
      var n := GoneBefore(s, now, Need(|w|));
      RingZeroAtKeeps(s.q, off);
      SameGone(s, h, now, Need(|w|));
      var z := ZeroAt(recs, off);
      assert z[n..] == ZeroAt(recs[n..], off);
      SilencedReports(s, h, 0, e, Expired);
      SilencedReports(s, h, e, n, NoSpace);
      SilencedUnmaps(s, o.shard, h, n);
      ZeroAtHashed(s, h, n);
    }
  }

  lemma SilencedReports(s: Shard, h: uint64, i: nat, j: nat, reason: RemoveReason)
    requires Inv(s) && h in s.index && h != 0 && i <= j <= |s.q.Records()|
    ensures Reports(ZeroAt(s.q.Records(), s.index[h])[i..j], -1, reason) == Reports(s.q.Records()[i..j], s.index[h], reason)
  {
    hide Ring.Valid, Roomy, IsEntry, HashOf;
    var recs := s.q.Records();
    MappedIsEntry(s, h);
    forall r | r in recs[i..j] ensures r in recs {
    }
    ZeroAtReports(recs[i..j], s.index[h], reason);
    assert ZeroAt(recs, s.index[h])[i..j] == ZeroAt(recs[i..j], s.index[h]);
  }

  lemma SilencedUnmaps(s: Shard, t: Shard, h: uint64, n: nat)
    requires Inv(s) && h in s.index && h != 0 && n <= |s.q.Records()|
    requires UnmapsOnly(Tombstone(s, h), t, ZeroAt(s.q.Records(), s.index[h])[..n], h)
    ensures UnmapsOnly(s, t, s.q.Records()[..n], h)
  {
    hide Ring.Valid, Roomy, IsEntry, HashOf, NoneCarries;
    var recs := s.q.Records();
    ZeroAtCarriers(s, h, n);
    assert ZeroAt(recs, s.index[h])[..n] == ZeroAt(recs[..n], s.index[h]);
  }

  lemma MappedIsEntry(s: Shard, h: uint64)
    requires Inv(s) && h in s.index && h != 0
    ensures forall r :: r in s.q.Records() && r.off == s.index[h] ==> |r.data| >= HEADERS_SIZE && HashOf(r.data) == h
  {
    var rh := EntryOf(s, h);
    forall r | r in s.q.Records() && r.off == s.index[h] ensures r == rh {
      SameOffsetSameRecord(s.q, r, rh);
    }
  }

  lemma SameGone(s: Shard, h: uint64, now: uint64, need: nat)
    requires Inv(s) && h in s.index && Tombstone(s, h).q.Valid()
    ensures OverdueFirst(Tombstone(s, h), now) == OverdueFirst(s, now)
    ensures GoneBefore(Tombstone(s, h), now, need) == GoneBefore(s, now, need)
  {
    hide Ring.Valid, Ring.Pop, Roomy, IsEntry, TimeOf, Tombstoned;
    var off := s.index[h];
    RingZeroAtKeeps(s.q, off);
    if s.q.Records() == [] {
      ZeroAtEvictions(s.q, off, need);
    } else {
      ZeroedTime(s.q.Records()[0], off);
      if OverdueFirst(s, now) == 1 {
        PopRemovesFirst(s.q);
        PopRemovesFirst(RingZeroAt(s.q, off));
        ZeroAtPops(s.q, off);
        ZeroAtEvictions(s.q.Pop(), off, need);
      } else {
        ZeroAtEvictions(s.q, off, need);
      }
    }
  }

  lemma ZeroedTime(r: Record, off: nat)
    ensures TimeOf(Zeroed(r, off).data) == TimeOf(r.data)
  {
    if |r.data| >= TIMESTAMP_SIZE + HASH_SIZE {
      TombstonedReadsBack(r.data);
    }
  }

  /** Among the first n records the tombstone changes which of them carry h, and nothing else that is mapped. */
  lemma ZeroAtCarriers(s: Shard, h: uint64, n: nat)
    requires Inv(s) && h in s.index && h != 0 && n <= |s.q.Records()|
    ensures forall g :: g != h && g != 0 ==>
              (NoneCarries(ZeroAt(s.q.Records()[..n], s.index[h]), g) <==> NoneCarries(s.q.Records()[..n], g))
  {
    hide HashOf, Ring.Valid, Roomy, Tombstoned;
    var recs := s.q.Records()[..n];
    MappedIsEntry(s, h);
    forall g | g != h && g != 0
      ensures NoneCarries(ZeroAt(recs, s.index[h]), g) <==> NoneCarries(recs, g)
    {
      forall i | 0 <= i < n
        ensures HashOf(ZeroAt(recs, s.index[h])[i].data) == g <==> HashOf(recs[i].data) == g
      {
        assert recs[i] in s.q.Records();
        ZeroedHash(recs[i], s.index[h]);
      }
    }
  }

  lemma ZeroedHash(r: Record, off: nat)
    ensures HashOf(Zeroed(r, off).data) == if r.off == off && |r.data| >= TIMESTAMP_SIZE + HASH_SIZE then 0 else HashOf(r.data)
  {
    if r.off == off && |r.data| >= TIMESTAMP_SIZE + HASH_SIZE {
      TombstonedReadsBack(r.data);
    }
  }

  /** The hashed records behind the first n are as before, but for the one at the tombstone. */
  lemma ZeroAtHashed(s: Shard, h: uint64, n: nat)
    requires Inv(s) && h in s.index && h != 0 && n <= |s.q.Records()|
    ensures forall r: Record :: HashOf(r.data) != 0 ==>
              (r in ZeroAt(s.q.Records()[n..], s.index[h]) <==> r in s.q.Records()[n..] && r.off != s.index[h])
  {
    hide HashOf, Ring.Valid, Roomy, Tombstoned;
    var recs := s.q.Records()[n..];
    var z := ZeroAt(recs, s.index[h]);
    MappedIsEntry(s, h);
    forall i | 0 <= i < |recs|
      ensures if recs[i].off == s.index[h] then z[i].off == s.index[h] && HashOf(z[i].data) == 0 else z[i] == recs[i]
    {
      assert recs[i] in s.q.Records();
      ZeroedHash(recs[i], s.index[h]);
    }
  }

  /** set, with every effect on what it was not asked about. */
  lemma SetEffect(s: Shard, now: uint64, h: uint64, key: Key, value: Value)
    requires Inv(s) && h != 0
    requires FitsRing(BeforeOverwrite(s, now, h), Wrapped(now, h, key, value))
    ensures StoreEffect(s, Set(s, now, h, key, value), now, h, Wrapped(now, h, key, value), true)
  {
    hide StoreEffect, Inv, BeforeOverwrite, Wrapped, FitsRing, Insert;
    BeforeOverwriteKeeps(s, now, h);
    WrappedHash(now, h, key, value);
    OverwriteEffect(s, now, h, Wrapped(now, h, key, value));
  }

  /** append, the same: it overwrites exactly when the key is cached. */
  lemma AppendEffect(s: Shard, now: uint64, h: uint64, key: Key, value: Value)
    requires Inv(s) && h != 0 && !MatchKey(s, h, key).Unreadable?
    requires FitsRing(BeforeAppend(s, now, h, key), AppendEntry(s, now, h, key, value))
    ensures StoreEffect(s, Append(s, now, h, key, value), now, h, AppendEntry(s, now, h, key, value),
                        MatchKey(s, h, key).Same?)
  {
    hide StoreEffect, InvExcept, BeforeOverwrite, Wrapped, FitsRing, Insert, ExpireOldest, MatchKey;
    BeforeOverwriteKeeps(s, now, h);
    ExpireOldestKeeps(s, now, 0);
    if MatchKey(s, h, key).Same? {
      AppendedIsEntry(s, now, h, key, value);
      OverwriteEffect(s, now, h, AppendEntry(s, now, h, key, value));
    } else {
      WrappedHash(now, h, key, value);
      AddedEffect(s, now, h, Wrapped(now, h, key, value), 0);
    }
  }

  /** A key of another hash is found after a store exactly as before if its hash is still mapped, and not at all otherwise. */
  lemma OthersFoundAsBefore(s: Shard, o: Outcome, now: uint64, h: uint64, w: seq<byte>, overwrites: bool,
                            g: uint64, key: Key)
    requires Inv(s) && Inv(o.shard) && StoreEffect(s, o, now, h, w, overwrites) && g != h && g != 0
    requires h != 0 && HashOf(w) == h
    ensures var gone := s.q.Records()[..GoneBefore(s, now, Need(|w|))];
            Get(o.shard, g, key) == if NoneCarries(gone, g) then Get(s, g, key) else NotFound
  {
    hide StoreEffect, HashOf, NoneCarries, GoneBefore, Need, Ring.Valid, Roomy, ReadKey, ReadEntry, Find;
    OthersKept(s, o, now, h, w, overwrites, g);
    if g in o.shard.index {
      var r := EntryOf(o.shard, g);
      FindLive(s.q, r);
    }
  }

  lemma OthersKept(s: Shard, o: Outcome, now: uint64, h: uint64, w: seq<byte>, overwrites: bool, g: uint64)
    requires s.q.Valid() && StoreEffect(s, o, now, h, w, overwrites) && g != h && g != 0 && HashOf(w) == h
    ensures var gone := s.q.Records()[..GoneBefore(s, now, Need(|w|))];
            && (g in o.shard.index <==> g in s.index && NoneCarries(gone, g))
            && (g in o.shard.index ==> o.shard.index[g] == s.index[g])
            && (forall r: Record :: r in o.shard.q.Records() && HashOf(r.data) == g ==> r in s.q.Records())
  {
    hide HashOf, NoneCarries, Reports, Need, Ring.Valid, OverdueFirst, GoneBefore;
  }

  // ---- cleanUp ----

  lemma {:induction false} CleanUpReports(s: Shard, now: uint64)
    requires Inv(s)
    ensures var t := CleanUp(s, now);
            var recs := s.q.Records();
            && |t.q.Records()| <= |recs|
            && var gone := recs[..|recs| - |t.q.Records()|];
               t.log == s.log + Reports(gone, -1, Expired) && UnmapsOnly(s, t, gone, 0)
    decreases |s.q.Records()|
  {
    hide Ring.Valid, Ring.Pop, Roomy, IsEntry, HashOf, RemoveOldest, IsExpired, UnmapsOnly;
    var recs := s.q.Records();
    if recs != [] && IsExpired(now, recs[0].data, s.lifeWindow) {
      var next := RemoveOldest(s, Expired);
      OneLeaves(s, Expired, 0);
      RemoveOldestKeeps(s, Expired, 0);
      CleanUpReports(next, now);
      var n := |recs| - |CleanUp(s, now).q.Records()|;
      var first, rest := recs[..1], recs[1..][..n - 1];
      assert recs[..n] == first + rest;
      ReportsConcat(first, rest, -1, Expired);
      UnmapsThen(s, next, CleanUp(s, now), first, rest, 0, recs[..n]);
    } else {
      assert recs[..0] == [];
      UnmapsNone(s, 0);
    }
  }

  /** cleanUp drops and reports as expired exactly the overdue records at the front; the others keep their mappings. */
  lemma CleanUpEffect(s: Shard, now: uint64)
    requires Inv(s)
    ensures var t := CleanUp(s, now);
            var recs := s.q.Records();
            var n := |recs| - |t.q.Records()|;
            && n >= 0 && t.q.Records() == recs[n..]
            && (forall i :: 0 <= i < n ==> Overdue(now, recs[i].data, s.lifeWindow))
            && (n < |recs| ==> !Overdue(now, recs[n].data, s.lifeWindow))
            && t.log == s.log + Reports(recs[..n], -1, Expired)
            && UnmapsOnly(s, t, recs[..n], 0)
  {
    hide Ring.Valid, CleanUp, IsExpired, Overdue, UnmapsOnly, Reports;
    CleanUpCorrect(s, now);
    CleanUpReports(s, now);
    forall i | 0 <= i < |s.q.Records()|
      ensures IsExpired(now, s.q.Records()[i].data, s.lifeWindow) <==> Overdue(now, s.q.Records()[i].data, s.lifeWindow)
    {
      ExpiredIff(now, s.q.Records()[i].data, s.lifeWindow);
    }
  }
}
