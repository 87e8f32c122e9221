/**
  bigcache's cacheShard on abstract state: the ring of records, the map from hashes to
  offsets and the log of onRemove calls. The class CacheShard is proved against these functions.
 */
module ShardModel {
  import opened Bytes
  import opened RingLayout
  import opened Encoding

  datatype RemoveReason = Expired | NoSpace | Deleted

  /** One onRemove call. */
  datatype Removal = Removal(entry: seq<byte>, reason: RemoveReason)

  datatype Shard = Shard(q: Ring, index: map<uint64, nat>, log: seq<Removal>, lifeWindow: uint64)

  datatype Status = Done | EntryTooBig | Crashed

  datatype Outcome = Outcome(shard: Shard, status: Status)

  datatype GetResult = NotFound | Found(value: seq<byte>) | GetCrashed

  // ---- Records as entries ----

  /** readHashFromEntry; every record of a shard has the 16 bytes it reads. */
  function HashOf(data: seq<byte>): uint64 {
    if |data| >= TIMESTAMP_SIZE + HASH_SIZE then ReadHash(data) else 0
  }

  function TimeOf(data: seq<byte>): uint64 {
    if |data| >= TIMESTAMP_SIZE then ReadTimestamp(data) else 0
  }

  /** onEvict's age test, in uint64: a timestamp from the future counts as very old. */
  predicate IsExpired(now: uint64, data: seq<byte>, lifeWindow: uint64) {
    (now - TimeOf(data)) % UINT64_LIMIT > lifeWindow
  }

  /** The data of the record that starts at off. */
  function Find(recs: seq<Record>, off: nat): seq<byte> {
    if recs == [] then []
    else if recs[0].off == off then recs[0].data
    else Find(recs[1..], off)
  }

  /** The records with the one at off turned into a tombstone. */
  function ZeroAt(recs: seq<Record>, off: nat): (zs: seq<Record>)
    ensures |zs| == |recs|
    ensures forall i :: 0 <= i < |recs| ==> zs[i] == Zeroed(recs[i], off)
  {
    seq(|recs|, i requires 0 <= i < |recs| => Zeroed(recs[i], off))
  }

  function Zeroed(r: Record, off: nat): (z: Record)
    ensures z.off == r.off && |z.data| == |r.data|
  {
    if r.off == off && |r.data| >= TIMESTAMP_SIZE + HASH_SIZE then Record(off, Tombstoned(r.data)) else r
  }

  // ---- The operations ----

  /** resetKeyFromEntry on the entry mapped to h, if there is one. */
  function Tombstone(s: Shard, h: uint64): Shard {
    if h in s.index then s.(q := RingZeroAt(s.q, s.index[h])) else s
  }

  function RingZeroAt(q: Ring, off: nat): Ring {
    q.(older := ZeroAt(q.older, off), newer := ZeroAt(q.newer, off))
  }

  function RemoveOldest(s: Shard, reason: RemoveReason): Shard
    requires s.q.Records() != []
  {
    var oldest := s.q.Records()[0].data;
    var hash := HashOf(oldest);
    var popped := s.(q := s.q.Pop());
    if hash == 0 then popped
    else popped.(index := s.index - {hash}, log := s.log + [Removal(oldest, reason)])
  }

  /** Drops the oldest record if it is past its life window. */
  function ExpireOldest(s: Shard, now: uint64): Shard {
    if s.q.Records() != [] && IsExpired(now, s.q.Records()[0].data, s.lifeWindow)
    then RemoveOldest(s, Expired) else s
  }

  /** The push loop of set: evict the oldest until the entry is stored or nothing is left to evict. */
  ghost function Insert(s: Shard, w: seq<byte>, h: uint64): Outcome
    requires s.q.Valid()
    decreases |s.q.Records()|
  {
    var need := Need(|w|);
    if !s.q.Refuses(need) then
      Outcome(s.(q := s.q.Push(w), index := s.index[h := s.q.MakeRoom(need).tail]), Done)
    else if s.q.Records() == [] then
      Outcome(s, EntryTooBig)
    else
      PopRemovesFirst(s.q);
      Insert(RemoveOldest(s, NoSpace), w, h)
  }

  /** The state in which set starts its push loop. */
  function BeforeOverwrite(s: Shard, now: uint64, h: uint64): Shard {
    ExpireOldest(Tombstone(s, h), now)
  }

  ghost function Set(s: Shard, now: uint64, h: uint64, key: seq<byte>, value: seq<byte>): Outcome
    requires Inv(s)
  {
    BeforeOverwriteKeeps(s, now, h);
    Insert(BeforeOverwrite(s, now, h), Wrapped(now, h, key, value), h)
  }

  /** The outcome of comparing the stored key with the one asked for. */
  datatype Match = Absent | Same(entry: seq<byte>) | Unreadable

  /** getValidWrapEntry: a stored entry with another key counts as absent. */
  function MatchKey(s: Shard, h: uint64, key: seq<byte>): Match {
    if h !in s.index then Absent
    else
      var data := Find(s.q.Records(), s.index[h]);
      if |data| < HEADERS_SIZE || ReadKey(data).Panics? then Unreadable
      else if ReadKey(data).bytes == key then Same(data) else Absent
  }

  /** The entry append is going to push, and the state it starts from. */
  function AppendEntry(s: Shard, now: uint64, h: uint64, key: seq<byte>, value: seq<byte>): seq<byte> {
    match MatchKey(s, h, key)
    case Same(data) => if |data| >= TIMESTAMP_SIZE then Appended(now, data, value) else []
    case _ => Wrapped(now, h, key, value)
  }

  function BeforeAppend(s: Shard, now: uint64, h: uint64, key: seq<byte>): Shard {
    if MatchKey(s, h, key).Same? then BeforeOverwrite(s, now, h) else ExpireOldest(s, now)
  }

  ghost function Append(s: Shard, now: uint64, h: uint64, key: seq<byte>, value: seq<byte>): Outcome
    requires Inv(s)
  {
    BeforeOverwriteKeeps(s, now, h);
    ExpireOldestKeeps(s, now, 0);
    if MatchKey(s, h, key).Unreadable? then Outcome(s, Crashed)
    else Insert(BeforeAppend(s, now, h, key), AppendEntry(s, now, h, key, value), h)
  }

  function Get(s: Shard, h: uint64, key: seq<byte>): GetResult {
    match MatchKey(s, h, key)
    case Absent => NotFound
    case Unreadable => GetCrashed
    case Same(data) =>
      if |data| < HEADERS_SIZE || ReadEntry(data).Panics? then GetCrashed else Found(ReadEntry(data).bytes)
  }

  /** del: not found, or one onRemove call with the entry and a tombstone in its place. */
  function Delete(s: Shard, h: uint64): Shard {
    if h !in s.index then s
    else
      Tombstone(s, h).(index := s.index - {h},
                       log := s.log + [Removal(Find(s.q.Records(), s.index[h]), Deleted)])
  }

  ghost function CleanUp(s: Shard, now: uint64): Shard
    requires s.q.Valid()
    decreases |s.q.Records()|
  {
    if s.q.Records() == [] || !IsExpired(now, s.q.Records()[0].data, s.lifeWindow) then s
    else
      PopRemovesFirst(s.q);
      CleanUp(RemoveOldest(s, Expired), now)
  }

  function Reset(s: Shard): Shard {
    s.(q := s.q.Reset(), index := map[])
  }

  // ---- The index invariant ----

  /** A live record of at least a full header starts at off and carries hash h. */
  ghost predicate IsEntry(recs: seq<Record>, off: nat, h: uint64) {
    exists r :: r in recs && r.off == off && |r.data| >= HEADERS_SIZE && HashOf(r.data) == h
  }

  /** Every mapped hash but x leads to the start of a live record with that hash. */
  ghost predicate InvExcept(s: Shard, x: uint64) {
    && s.q.Valid() && Roomy(s.q)
    && 0 !in s.index
    && forall h :: h in s.index && h != x ==> IsEntry(s.q.Records(), s.index[h], h)
  }

  ghost predicate Inv(s: Shard) {
    InvExcept(s, 0)
  }

  /** The converse: every live record with a hash is the one its hash is mapped to. */
  ghost predicate NoOrphans(s: Shard) {
    forall r :: r in s.q.Records() && HashOf(r.data) != 0 ==>
                  HashOf(r.data) in s.index && s.index[HashOf(r.data)] == r.off
  }

  // ---- Lookups in the ring ----

  lemma OffsetsDistinct(q: Ring, i: nat, j: nat)
    requires q.Valid() && i < |q.Records()| && j < |q.Records()|
    requires q.Records()[i].off == q.Records()[j].off
    ensures i == j
  {
    if i < j {
      RecordsDisjoint(q, i, j);
    } else if j < i {
      RecordsDisjoint(q, j, i);
    }
  }

  lemma {:induction false} FindFirst(recs: seq<Record>, i: nat)
    requires i < |recs| && forall j :: 0 <= j < i ==> recs[j].off != recs[i].off
    ensures Find(recs, recs[i].off) == recs[i].data
  {
    if i > 0 {
      FindFirst(recs[1..], i - 1);
    }
  }

  lemma FindLive(q: Ring, r: Record)
    requires q.Valid() && r in q.Records()
    ensures Find(q.Records(), r.off) == r.data
  {
    var i :| 0 <= i < |q.Records()| && q.Records()[i] == r;
    forall j | 0 <= j < i ensures q.Records()[j].off != r.off {
      if q.Records()[j].off == r.off {
        OffsetsDistinct(q, j, i);
      }
    }
    FindFirst(q.Records(), i);
  }

  // ---- What tombstoning keeps ----

  lemma RingZeroAtKeeps(q: Ring, off: nat)
    requires q.Valid()
    ensures RingZeroAt(q, off).Valid()
    ensures RingZeroAt(q, off).Records() == ZeroAt(q.Records(), off)
    ensures Roomy(q) ==> Roomy(RingZeroAt(q, off))
  {
    hide Chain, Record.Size;
    var z := RingZeroAt(q, off);
    assert z.Records() == ZeroAt(q.Records(), off);
    ZeroAtMembers(q.Records(), off);
    ChainSameShape(q.older, z.older, q.head, q.right);
    if q.newer != [] {
      ChainSameShape(q.newer, z.newer, LEFT_MARGIN, q.tail);
    }
  }

  /** Each record of the result comes from one with the same offset and length. */
  lemma ZeroAtMembers(recs: seq<Record>, off: nat)
    ensures forall z :: z in ZeroAt(recs, off) ==>
                          exists r :: r in recs && z == Zeroed(r, off)
  {
    forall z | z in ZeroAt(recs, off)
      ensures exists r :: r in recs && z == Zeroed(r, off)
    {
      var i :| 0 <= i < |recs| && ZeroAt(recs, off)[i] == z;
      assert recs[i] in recs;
    }
  }

  /** After tombstoning h every other mapped hash still leads to its record. */
  lemma TombstoneKeepsOthers(s: Shard, h: uint64)
    requires Inv(s)
    ensures InvExcept(Tombstone(s, h), h)
  {
    if h in s.index {
      var t := Tombstone(s, h);
      RingZeroAtKeeps(s.q, s.index[h]);
      forall g | g in s.index && g != h ensures IsEntry(t.q.Records(), s.index[g], g) {
        EntrySurvives(s, h, g);
      }
    }
  }

  lemma EntrySurvives(s: Shard, h: uint64, g: uint64)
    requires Inv(s) && h in s.index && g in s.index && g != h
    ensures IsEntry(ZeroAt(s.q.Records(), s.index[h]), s.index[g], g)
  {
    var recs := s.q.Records();
    var rg :| rg in recs && rg.off == s.index[g] && |rg.data| >= HEADERS_SIZE && HashOf(rg.data) == g;
    var rh :| rh in recs && rh.off == s.index[h] && |rh.data| >= HEADERS_SIZE && HashOf(rh.data) == h;
    var i :| 0 <= i < |recs| && recs[i] == rg;
    var j :| 0 <= j < |recs| && recs[j] == rh;
    if rg.off == rh.off {
      OffsetsDistinct(s.q, i, j);
    }
    assert ZeroAt(recs, s.index[h])[i] == rg;
  }

  // ---- What evicting keeps ----

  lemma RemoveOldestKeeps(s: Shard, reason: RemoveReason, x: uint64)
    requires InvExcept(s, x) && s.q.Records() != []
    ensures var t := RemoveOldest(s, reason);
            && InvExcept(t, x) && t.q.Records() == s.q.Records()[1..]
            && t.q.cap == s.q.cap && t.q.max == s.q.max && t.lifeWindow == s.lifeWindow
            && (forall g :: g in t.index ==> g in s.index && t.index[g] == s.index[g])
  {
    hide Ring.Valid, HashOf, Roomy, Chain;
    PopRemovesFirst(s.q);
    PopKeepsRoomy(s.q);
    var t := RemoveOldest(s, reason);
    var recs := s.q.Records();
    forall h | h in t.index && h != x ensures IsEntry(t.q.Records(), t.index[h], h) {
      var r :| r in recs && r.off == s.index[h] && |r.data| >= HEADERS_SIZE && HashOf(r.data) == h;
      assert r != recs[0];
      assert r in recs[1..];
    }
  }

  lemma ExpireOldestKeeps(s: Shard, now: uint64, x: uint64)
    requires InvExcept(s, x)
    ensures var t := ExpireOldest(s, now);
            InvExcept(t, x) && t.q.cap == s.q.cap && t.q.max == s.q.max && t.lifeWindow == s.lifeWindow
  {
    if ExpireOldest(s, now) != s {
      RemoveOldestKeeps(s, Expired, x);
    }
  }

  lemma BeforeOverwriteKeeps(s: Shard, now: uint64, h: uint64)
    requires Inv(s)
    ensures var t := BeforeOverwrite(s, now, h);
            InvExcept(t, h) && t.q.cap == s.q.cap && t.q.max == s.q.max && t.lifeWindow == s.lifeWindow
  {
    TombstoneKeepsOthers(s, h);
    ExpireOldestKeeps(Tombstone(s, h), now, h);
  }

  // ---- Storing an entry ----

  lemma PushKeeps(s: Shard, w: seq<byte>, h: uint64, x: uint64)
    requires InvExcept(s, x) && (x == 0 || x == h) && h != 0
    requires HEADERS_SIZE <= |w| < UINT32_LIMIT && HashOf(w) == h && s.q.cap < UINT32_LIMIT
    requires !s.q.Refuses(Need(|w|)) && !s.q.LeavesHole(|w|)
    ensures var off := s.q.MakeRoom(Need(|w|)).tail;
            && Inv(s.(q := s.q.Push(w), index := s.index[h := off]))
            && Record(off, w) in s.q.Push(w).Records()
  {
    PushValid(s.q, w);
    PushRecords(s.q, w);
    PushKeepsRoomy(s.q, w);
    var p := s.q.Push(w).Records();
    var r := Record(s.q.MakeRoom(Need(|w|)).tail, w);
    assert p[|p| - 1] == r;
    forall g | g in s.index && g != h ensures IsEntry(p, s.index[g], g) {
      var rg :| rg in s.q.Records() && rg.off == s.index[g] && |rg.data| >= HEADERS_SIZE && HashOf(rg.data) == g;
      assert rg in p;
    }
    assert IsEntry(p, r.off, h);
  }

  /** Once refused, a record makes no later push of the same loop grow the ring. */
  lemma RefusedNeverGrows(q: Ring, p: Ring, dataLen: nat)
    requires q.Refuses(Need(dataLen)) && p.cap == q.cap && p.max == q.max
    ensures !p.LeavesHole(dataLen)
  {
  }

  /** The push loop ends with the entry stored and mapped, or with the queue empty, and says which. */
  lemma {:induction false} InsertCorrect(s: Shard, w: seq<byte>, h: uint64, x: uint64)
    requires InvExcept(s, x) && (x == 0 || x == h) && h != 0
    requires HEADERS_SIZE <= |w| < UINT32_LIMIT && HashOf(w) == h && s.q.cap < UINT32_LIMIT
    requires !s.q.LeavesHole(|w|)
    ensures var o := Insert(s, w, h);
            && (o.status == Done <==> !TooBig(s.q.cap, s.q.max, Need(|w|)))
            && (o.status == Done ==> && Inv(o.shard) && h in o.shard.index
                                     && Record(o.shard.index[h], w) in o.shard.q.Records())
            && (o.status != Done ==> && o.status == EntryTooBig && InvExcept(o.shard, x)
                                     && o.shard.q.Records() == [] && o.shard.index.Keys <= {x})
    decreases |s.q.Records()|
  {
    RefusesWhenTooBig(s.q, Need(|w|));
    if !s.q.Refuses(Need(|w|)) {
      PushKeeps(s, w, h, x);
    } else if s.q.Records() != [] {
      RemoveOldestKeeps(s, NoSpace, x);
      RefusedNeverGrows(s.q, RemoveOldest(s, NoSpace).q, |w|);
      InsertCorrect(RemoveOldest(s, NoSpace), w, h, x);
    }
  }
}
