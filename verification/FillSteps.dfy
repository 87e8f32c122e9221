/**
  The steps of groupcache's Group.Get one by one, told of what the caches store: what a look finds is what
  the thread answers or hands on, and what is received, found or failed reaches the call and all its threads.
 */
module FillSteps {
  import opened Options
  import opened Recency
  import opened ByteCacheModel
  import opened FillProtocol
  import SF = Singleflight

  /** Nothing happens to the other threads. */
  ghost predicate OthersWait(g: Group, n: Group, t: ThreadId) {
    forall u :: u != t ==> n.PcOf(u) == g.PcOf(u) && n.sf.RoleOf(u) == g.sf.RoleOf(u)
  }

  /** The caches hold what they held, in an order that may have changed. */
  ghost predicate SameContents(g: Group, n: Group) {
    && n.limit == g.limit && n.main.nbytes == g.main.nbytes && n.hot.nbytes == g.hot.nbytes
    && (forall x :: x in n.main.entries <==> x in g.main.entries)
    && (forall x :: x in n.hot.entries <==> x in g.hot.entries)
  }

  /** A thread's look for a key in a cache: `found` says what the cache stores for it. */
  ghost predicate Stores(c: Cache, key: Key, found: Option<Value>) {
    match found
    case Some(v) => Entry(key, v) in c.entries
    case None => key !in Keys(c.entries)
  }

  lemma StoresLookup(c: Cache, key: Key, found: Option<Value>)
    requires Exact(c) && Stores(c, key, found)
    ensures Lookup(c.entries, key) == found
  {
    if found.Some? {
      LookupUnique(c.entries, Entry(key, found.value));
    }
  }

  // ---- The first look ----

  /** A Get looks in main: a hit is answered with the value stored, a miss goes on to hot; without caching it loads. */
  lemma LookMainAnswers(g: Group, t: ThreadId, found: Option<Value>)
    requires Inv(g) && g.PcOf(t).LookMain? && Stores(g.main, g.PcOf(t).key, found)
    ensures var key := g.PcOf(t).key;
            var n := Next(g, Advance(t));
            && SameContents(g, n) && OthersWait(g, n, t) && n.sf == g.sf
            && (g.limit > 0 && found.Some? ==>
                  n.PcOf(t).Idle? && n.answers == g.answers + [Answer(key, Loaded(found.value))])
            && (g.limit > 0 && found.None? ==> n.PcOf(t) == LookHot(key) && n.answers == g.answers)
            && (g.limit <= 0 ==> n.PcOf(t) == Load(key) && n.answers == g.answers)
  {
    hide Exact, Keys, Lookup, Touched, SF.Inv;
    StoresLookup(g.main, g.PcOf(t).key, found);
    GetKeepsExact(g.main, g.PcOf(t).key);
  }

  lemma LookHotAnswers(g: Group, t: ThreadId, found: Option<Value>)
    requires Inv(g) && g.PcOf(t).LookHot? && Stores(g.hot, g.PcOf(t).key, found)
    ensures var key := g.PcOf(t).key;
            var n := Next(g, Advance(t));
            && SameContents(g, n) && OthersWait(g, n, t) && n.sf == g.sf
            && (found.Some? ==> n.PcOf(t).Idle? && n.answers == g.answers + [Answer(key, Loaded(found.value))])
            && (found.None? ==> n.PcOf(t) == Load(key) && n.answers == g.answers)
  {
    hide Exact, Keys, Lookup, Touched, SF.Inv;
    StoresLookup(g.hot, g.PcOf(t).key, found);
    GetKeepsExact(g.hot, g.PcOf(t).key);
  }

  lemma StartLooks(g: Group, t: ThreadId, key: Key)
    requires g.PcOf(t).Idle?
    ensures var n := Next(g, Start(t, key));
            && SameContents(g, n) && OthersWait(g, n, t) && n.answers == g.answers
            && n.PcOf(t) == LookMain(key)
  {
  }

  // ---- Inside singleflight ----

  /** A thread that loads joins the call of its key, or leads a new one and looks again. */
  lemma LoadJoinsOrLeads(g: Group, t: ThreadId)
    requires Inv(g) && g.PcOf(t).Load?
    ensures Enabled(g, Advance(t))
    ensures var key := g.PcOf(t).key;
            var n := Next(g, Advance(t));
            && SameContents(g, n) && OthersWait(g, n, t) && n.answers == g.answers
            && (key in g.sf.m ==> n.PcOf(t).InDo? && n.sf.RoleOf(t) == SF.Waiting(key, g.sf.m[key]) && n.sf.calls == g.sf.calls)
            && (key !in g.sf.m ==>
                  && n.PcOf(t) == ReMain(key) && n.sf.RoleOf(t) == SF.Running(key, |g.sf.calls|)
                  && n.sf.calls == g.sf.calls + [SF.Call(key, t, None, false)])
  {
    hide Exact, Keys, SF.Inv;
    assert PcOk(g, t);
  }

  /** The second look: a hit is handed to the call, a miss goes on. */
  lemma SecondLookHandsOn(g: Group, t: ThreadId, found: Option<Value>)
    requires Inv(g) && (g.PcOf(t).ReMain? || g.PcOf(t).ReHot?)
    requires Stores(if g.PcOf(t).ReMain? then g.main else g.hot, g.PcOf(t).key, found)
    ensures var key := g.PcOf(t).key;
            var n := Next(g, Advance(t));
            && SameContents(g, n) && OthersWait(g, n, t) && n.answers == g.answers && n.sf == g.sf
            && n.PcOf(t) == if g.limit <= 0 then Fetch(key)
                            else if found.Some? then FnDone(key, Loaded(found.value))
                            else if g.PcOf(t).ReMain? then ReHot(key)
                            else Fetch(key)
  {
    hide Exact, Keys, Lookup, Touched, SF.Inv;
    assert MissOk(g, t);
    StoresLookup(if g.PcOf(t).ReMain? then g.main else g.hot, g.PcOf(t).key, found);
    GetKeepsExact(g.main, g.PcOf(t).key);
    GetKeepsExact(g.hot, g.PcOf(t).key);
  }

  /** What is received is about to be cached, in hot if a peer's value is mirrored, in main if the getter gave it, or handed to the call. */
  lemma ReceivedIsHandedOn(g: Group, t: ThreadId, outcome: Fetched)
    requires g.PcOf(t).Fetch?
    ensures var key := g.PcOf(t).key;
            var pc := Next(g, Receive(t, outcome)).PcOf(t);
            var caches := g.limit > 0 && (outcome.FromGetter? || (outcome.FromPeer? && outcome.mirror));
            && OthersWait(g, Next(g, Receive(t, outcome)), t) && SameContents(g, Next(g, Receive(t, outcome)))
            && pc.key == key
            && (if caches then pc.Fill? && pc.value == outcome.value && (pc.toHot <==> outcome.FromPeer?)
                else pc.FnDone? && pc.result == if outcome.NoValue? then Failed else Loaded(outcome.value))
  {
  }

  /** Filling puts the entry first in the one cache meant for it, which did not have the key, and leaves the other alone. */
  lemma FillAdds(g: Group, t: ThreadId)
    requires Inv(g) && g.PcOf(t).Fill?
    ensures var pc := g.PcOf(t);
            var n := Next(g, Advance(t));
            var size := |pc.key| + |pc.value|;
            && OthersWait(g, n, t) && n.PcOf(t) == ReadMain(pc.key, pc.value) && n.answers == g.answers
            && (pc.toHot ==>
                  && n.main == g.main && n.hot.entries == [Entry(pc.key, pc.value)] + g.hot.entries
                  && n.hot.nbytes == g.hot.nbytes + size)
            && (!pc.toHot ==>
                  && n.hot == g.hot && n.main.entries == [Entry(pc.key, pc.value)] + g.main.entries
                  && n.main.nbytes == g.main.nbytes + size)
  {
    hide Exact, Keys, SF.Inv;
    assert MissOk(g, t);
  }

  /**
    The eviction loop reads main, then hot, and evicts while the two exceed the limit, from hot if that holds more
    than an eighth of what main was read to hold; it hands on the value it came with.
   */
  lemma LoopTurns(g: Group, t: ThreadId)
    requires g.PcOf(t).ReadMain? || g.PcOf(t).ReadHot?
    ensures var pc := g.PcOf(t);
            var n := Next(g, Advance(t));
            && n.main == g.main && n.hot == g.hot && OthersWait(g, n, t) && n.answers == g.answers
            && (pc.ReadMain? ==> n.PcOf(t) == ReadHot(pc.key, pc.value, g.main.nbytes))
            && (pc.ReadHot? && pc.mainBytes + g.hot.nbytes <= g.limit ==> n.PcOf(t) == FnDone(pc.key, Loaded(pc.value)))
            && (pc.ReadHot? && pc.mainBytes + g.hot.nbytes > g.limit && pc.mainBytes >= 0 ==>
                  n.PcOf(t) == Evict(pc.key, pc.value, 8 * g.hot.nbytes > pc.mainBytes))
  {
  }

  /** An eviction takes the least recently used entry of the cache chosen, if it has one, and its size off the count. */
  lemma EvictTakesLast(g: Group, t: ThreadId)
    requires g.PcOf(t).Evict?
    ensures var pc := g.PcOf(t);
            var n := Next(g, Advance(t));
            var (before, after) := if pc.fromHot then (g.hot, n.hot) else (g.main, n.main);
            && OthersWait(g, n, t) && n.PcOf(t) == ReadMain(pc.key, pc.value) && n.answers == g.answers
            && (if pc.fromHot then n.main == g.main else n.hot == g.hot)
            && (if before.entries == [] then after == before
                else
                  var last := before.entries[|before.entries| - 1];
                  && after.entries == before.entries[..|before.entries| - 1]
                  && after.nbytes == before.nbytes - |last.key| - |last.value|)
  {
  }

  // ---- Answers through the call ----

  /** fn's result becomes the result of the call that the thread leads, which is for its key. */
  lemma FinishStores(g: Group, t: ThreadId)
    requires Inv(g) && g.PcOf(t).FnDone?
    ensures Enabled(g, Advance(t))
    ensures var c := g.sf.RoleOf(t).call;
            var n := Next(g, Advance(t));
            && SameContents(g, n) && OthersWait(g, n, t) && n.answers == g.answers && n.PcOf(t).InDo?
            && c < |n.sf.calls| == |g.sf.calls| && n.sf.calls[c].key == g.PcOf(t).key
            && n.sf.calls[c].result == Some(g.PcOf(t).result)
            && (forall d :: 0 <= d < |g.sf.calls| && d != c ==> n.sf.calls[d] == g.sf.calls[d])
  {
    hide Exact, Keys;
    assert PcOk(g, t) && SF.LeaderOk(g.sf, t);
  }

  /** The leader, after releasing the waiters, and each follower answer the call's result for the key they asked for. */
  lemma CallIsAnswered(g: Group, t: ThreadId)
    requires Inv(g) && g.PcOf(t).InDo? && Enabled(g, Advance(t))
    ensures var role := g.sf.RoleOf(t);
            var n := Next(g, Advance(t));
            && role.call < |g.sf.calls| && g.sf.calls[role.call].key == role.key && g.sf.calls[role.call].result.Some?
            && SameContents(g, n) && OthersWait(g, n, t)
            && if role.Written? then n.PcOf(t).InDo? && n.answers == g.answers && n.sf.calls[role.call].done
               else
                 && n.PcOf(t).Idle? && n.sf.RoleOf(t).Outside?
                 && n.answers == g.answers + [Answer(role.key, g.sf.calls[role.call].result.value)]
  {
    hide Exact, Keys;
    assert PcOk(g, t) && SF.LeaderOk(g.sf, t) && SF.WaiterOk(g.sf, t);
  }
}
