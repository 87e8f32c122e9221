/**
  groupcache's singleflight.Group.Do for any number of threads, as a step relation: each step is
  what one thread does between two points at which another thread can run.
 */
module Singleflight {
  import opened Options

  type ThreadId = nat

  /** A call object, made by its leader; the result is None until the leader has run fn. */
  datatype Call<K, R> = Call(key: K, leader: ThreadId, result: Option<R>, done: bool)

  /** Where a thread stands in Do; calls are named by their position in the history of calls. */
  datatype Role<K> =
    | Outside
    | Waiting(key: K, call: nat)    // follower, at c.wg.Wait
    | Running(key: K, call: nat)    // leader, inside fn
    | Written(key: K, call: nat)    // leader, result stored, waiters not released yet
    | Signalled(key: K, call: nat)  // leader, after wg.Done, before delete

  /** A return from Do: by which thread, from which call, with which result. */
  datatype Return<R> = Return(thread: ThreadId, call: nat, result: R)

  datatype State<K, R> = State(m: map<K, nat>, calls: seq<Call<K, R>>,
                               roles: map<ThreadId, Role<K>>, history: seq<Return<R>>)
  {
    function RoleOf(t: ThreadId): Role<K> {
      if t in roles then roles[t] else Outside
    }
  }

  datatype Event<K, R> =
    | Enter(t: ThreadId, key: K)      // lock, look the key up, join or start a call, unlock
    | Finish(t: ThreadId, result: R)  // fn returns and its result is stored in the call
    | Signal(t: ThreadId)             // wg.Done
    | Delete(t: ThreadId)             // lock, delete, unlock, return the call's result
    | Wake(t: ThreadId)               // Wait returns, and so does Do

  predicate Enabled<K(==), R>(s: State<K, R>, e: Event<K, R>) {
    match e
    case Enter(t, _) => s.RoleOf(t).Outside?
    case Finish(t, _) => s.RoleOf(t).Running? && s.RoleOf(t).call < |s.calls|
    case Signal(t) => s.RoleOf(t).Written? && s.RoleOf(t).call < |s.calls|
    case Delete(t) =>
      && s.RoleOf(t).Signalled? && s.RoleOf(t).call < |s.calls| && s.calls[s.RoleOf(t).call].result.Some?
    case Wake(t) =>
      && s.RoleOf(t).Waiting? && s.RoleOf(t).call < |s.calls|
      && s.calls[s.RoleOf(t).call].done && s.calls[s.RoleOf(t).call].result.Some?
  }

  function Next<K(==), R>(s: State<K, R>, e: Event<K, R>): State<K, R>
    requires Enabled(s, e)
  {
    match e
    case Enter(t, key) =>
      if key in s.m then s.(roles := s.roles[t := Waiting(key, s.m[key])])
      else
        var c := |s.calls|;
        s.(m := s.m[key := c], calls := s.calls + [Call(key, t, None, false)], roles := s.roles[t := Running(key, c)])
    case Finish(t, result) =>
      var c := s.RoleOf(t).call;
      s.(calls := s.calls[c := s.calls[c].(result := Some(result))],
         roles := s.roles[t := Written(s.RoleOf(t).key, c)])
    case Signal(t) =>
      var c := s.RoleOf(t).call;
      s.(calls := s.calls[c := s.calls[c].(done := true)],
         roles := s.roles[t := Signalled(s.RoleOf(t).key, c)])
    case Delete(t) =>
      var c := s.RoleOf(t).call;
      s.(m := s.m - {s.RoleOf(t).key}, roles := s.roles[t := Outside],
         history := s.history + [Return(t, c, s.calls[c].result.value)])
    case Wake(t) =>
      var c := s.RoleOf(t).call;
      s.(roles := s.roles[t := Outside],
         history := s.history + [Return(t, c, s.calls[c].result.value)])
  }

  function Initial<K, R>(): State<K, R> {
    State(map[], [], map[], [])
  }

  // ---- The invariant ----

  /** The thread is the leader of a call that is still in the map. */
  predicate Leads<K>(r: Role<K>) {
    r.Running? || r.Written? || r.Signalled?
  }

  /** A leader's key is mapped to its own call, which it leads and whose progress its role tells. */
  ghost predicate LeaderOk<K(!new), R>(s: State<K, R>, t: ThreadId) {
    var r := s.RoleOf(t);
    Leads(r) ==>
      && r.call < |s.calls| && r.key in s.m && s.m[r.key] == r.call
      && s.calls[r.call].leader == t && s.calls[r.call].key == r.key
      && (r.Running? ==> s.calls[r.call].result.None?)
      && (!r.Running? ==> s.calls[r.call].result.Some?)
      && (s.calls[r.call].done <==> r.Signalled?)
  }

  /** A mapped key's call is led by a thread that is still on it. */
  ghost predicate MappedOk<K(!new), R>(s: State<K, R>, key: K) {
    key in s.m ==>
      && s.m[key] < |s.calls|
      && var r := s.RoleOf(s.calls[s.m[key]].leader); Leads(r) && r.key == key && r.call == s.m[key]
  }

  /** A follower waits on a call for the key it asked for. */
  ghost predicate WaiterOk<K(!new), R>(s: State<K, R>, t: ThreadId) {
    var r := s.RoleOf(t);
    r.Waiting? ==> r.call < |s.calls| && s.calls[r.call].key == r.key
  }

  /** Every return so far was of the result its call now holds. */
  ghost predicate HistoryOk<K, R>(s: State<K, R>) {
    && (forall c :: 0 <= c < |s.calls| && s.calls[c].done ==> s.calls[c].result.Some?)
    && (forall i :: 0 <= i < |s.history| ==>
                      && s.history[i].call < |s.calls| && s.calls[s.history[i].call].done
                      && s.calls[s.history[i].call].result == Some(s.history[i].result))
  }

  /** A call that is not done has its leader still working on it. */
  ghost predicate CallOk<K, R>(s: State<K, R>, c: nat) {
    c < |s.calls| && !s.calls[c].done ==>
      var r := s.RoleOf(s.calls[c].leader); (r.Running? || r.Written?) && r.call == c
  }

  ghost predicate Inv<K(!new), R(!new)>(s: State<K, R>) {
    && (forall t :: LeaderOk(s, t) && WaiterOk(s, t))
    && (forall key :: MappedOk(s, key))
    && (forall c :: CallOk(s, c))
    && HistoryOk(s)
  }

  lemma InitialInv<K(!new), R(!new)>()
    ensures Inv(Initial<K, R>())
  {
  }

  lemma NextKeepsLeaders<K(!new), R(!new)>(s: State<K, R>, e: Event<K, R>, t: ThreadId)
    requires Inv(s) && Enabled(s, e)
    ensures LeaderOk(Next(s, e), t) && WaiterOk(Next(s, e), t)
  {
    assert LeaderOk(s, t) && WaiterOk(s, t) && LeaderOk(s, e.t) && WaiterOk(s, e.t);
    if e.Enter? {
      assert MappedOk(s, e.key);
      if e.key in s.m {
        assert LeaderOk(s, s.calls[s.m[e.key]].leader);
      }
    }
  }

  lemma NextKeepsMapped<K(!new), R(!new)>(s: State<K, R>, e: Event<K, R>, key: K)
    requires Inv(s) && Enabled(s, e)
    ensures MappedOk(Next(s, e), key)
  {
    assert MappedOk(s, key) && LeaderOk(s, e.t);
    if key in s.m {
      assert LeaderOk(s, s.calls[s.m[key]].leader);
    }
  }

  lemma NextKeepsHistory<K(!new), R(!new)>(s: State<K, R>, e: Event<K, R>)
    requires Inv(s) && Enabled(s, e)
    ensures HistoryOk(Next(s, e))
  {
    assert LeaderOk(s, e.t) && WaiterOk(s, e.t);
  }

  lemma NextKeepsCalls<K(!new), R(!new)>(s: State<K, R>, e: Event<K, R>, c: nat)
    requires Inv(s) && Enabled(s, e)
    ensures CallOk(Next(s, e), c)
  {
    assert CallOk(s, c) && LeaderOk(s, e.t);
  }

  lemma NextKeepsInv<K(!new), R(!new)>(s: State<K, R>, e: Event<K, R>)
    requires Inv(s) && Enabled(s, e)
    ensures Inv(Next(s, e))
  {
    forall t ensures LeaderOk(Next(s, e), t) && WaiterOk(Next(s, e), t) {
      NextKeepsLeaders(s, e, t);
    }
    forall key ensures MappedOk(Next(s, e), key) {
      NextKeepsMapped(s, e, key);
    }
    forall c ensures CallOk(Next(s, e), c) {
      NextKeepsCalls(s, e, c);
    }
    NextKeepsHistory(s, e);
  }

  // ---- What a step promises ----

  /** At most one thread is inside fn for a key: two leaders of one key are the same thread on the same call. */
  lemma OneLeaderPerKey<K(!new), R(!new)>(s: State<K, R>, t: ThreadId, u: ThreadId)
    requires Inv(s) && Leads(s.RoleOf(t)) && Leads(s.RoleOf(u)) && s.RoleOf(t).key == s.RoleOf(u).key
    ensures t == u
  {
    assert LeaderOk(s, t) && LeaderOk(s, u);
  }

  /** A result, once stored, is never stored again; a call is never forgotten. */
  lemma ResultWrittenOnce<K(!new), R(!new)>(s: State<K, R>, e: Event<K, R>, c: nat)
    requires Inv(s) && Enabled(s, e) && c < |s.calls|
    ensures c < |Next(s, e).calls| && Next(s, e).calls[c].key == s.calls[c].key
    ensures s.calls[c].result.Some? ==> Next(s, e).calls[c].result == s.calls[c].result
    ensures s.calls[c].done ==> Next(s, e).calls[c].done
  {
    assert LeaderOk(s, e.t);
  }

  /** What fn gives is what is stored, in the call of the thread that ran it, which is for its key. */
  lemma FinishStores<K(!new), R(!new)>(s: State<K, R>, t: ThreadId, result: R)
    requires Inv(s) && Enabled(s, Finish(t, result))
    ensures var c := s.RoleOf(t).call;
            var n := Next(s, Finish(t, result));
            && c < |s.calls| == |n.calls| && s.calls[c].key == s.RoleOf(t).key && s.calls[c].leader == t
            && n.calls[c].result == Some(result) && n.history == s.history && n.m == s.m
            && (forall d :: 0 <= d < |s.calls| && d != c ==> n.calls[d] == s.calls[d])
  {
    assert LeaderOk(s, t);
  }

  /** A thread that asks for a key waits on the call under way for it, or starts the only new call. */
  lemma EnterJoinsOrStarts<K(!new), R(!new)>(s: State<K, R>, t: ThreadId, key: K)
    requires Enabled(s, Enter(t, key))
    ensures var n := Next(s, Enter(t, key));
            && n.history == s.history
            && (key in s.m ==> n.m == s.m && n.calls == s.calls && n.RoleOf(t) == Waiting(key, s.m[key]))
            && (key !in s.m ==>
                  && n.calls == s.calls + [Call(key, t, None, false)] && n.m.Keys == s.m.Keys + {key}
                  && n.m[key] == |s.calls| && n.RoleOf(t) == Running(key, |s.calls|))
  {
  }

  /** Leader and follower leave with their call's result, which is recorded once. */
  lemma ReturnsCallResult<K(!new), R(!new)>(s: State<K, R>, e: Event<K, R>)
    requires Inv(s) && Enabled(s, e) && (e.Delete? || e.Wake?)
    ensures var c := s.RoleOf(e.t).call;
            && c < |s.calls| && s.calls[c].key == s.RoleOf(e.t).key && s.calls[c].result.Some?
            && Next(s, e).history == s.history + [Return(e.t, c, s.calls[c].result.value)]
            && Next(s, e).RoleOf(e.t).Outside? && Next(s, e).calls == s.calls
  {
    assert LeaderOk(s, e.t) && WaiterOk(s, e.t);
  }

  /** The leader's delete removes its own call: the key is mapped to it right up to the delete. */
  lemma DeleteRemovesOwnCall<K(!new), R(!new)>(s: State<K, R>, t: ThreadId)
    requires Inv(s) && Enabled(s, Delete(t))
    ensures var r := s.RoleOf(t);
            && r.key in s.m && s.m[r.key] == r.call && s.calls[r.call].leader == t
            && Next(s, Delete(t)).m == s.m - {r.key}
  {
    assert LeaderOk(s, t);
  }

  /** A follower is released exactly when its call is done, and then the result is there. */
  lemma NoEarlyReturn<K(!new), R(!new)>(s: State<K, R>, t: ThreadId)
    requires Inv(s) && s.RoleOf(t).Waiting?
    ensures var c := s.RoleOf(t).call;
            && c < |s.calls| && s.calls[c].key == s.RoleOf(t).key
            && (Enabled(s, Wake(t)) <==> s.calls[c].done)
            && (s.calls[c].done ==> s.calls[c].result.Some?)
  {
    assert WaiterOk(s, t);
  }

  /** No follower is left behind: until its call is done the call's leader is still on it and can move. */
  lemma WaiterHasLeader<K(!new), R(!new)>(s: State<K, R>, t: ThreadId, result: R)
    requires Inv(s) && s.RoleOf(t).Waiting?
    ensures var c := s.RoleOf(t).call;
            && c < |s.calls|
            && (s.calls[c].done || Enabled(s, Finish(s.calls[c].leader, result)) || Enabled(s, Signal(s.calls[c].leader)))
  {
    assert WaiterOk(s, t);
    assert CallOk(s, s.RoleOf(t).call);
  }

  // ---- Runs ----

  ghost predicate Possible<K(!new), R(!new)>(s: State<K, R>, run: seq<Event<K, R>>)
    decreases run
  {
    run == [] || (Enabled(s, run[0]) && Possible(Next(s, run[0]), run[1..]))
  }

  ghost function After<K(!new), R(!new)>(s: State<K, R>, run: seq<Event<K, R>>): State<K, R>
    requires Possible(s, run)
    decreases run
  {
    if run == [] then s else After(Next(s, run[0]), run[1..])
  }

  lemma {:induction false} RunKeepsInv<K(!new), R(!new)>(s: State<K, R>, run: seq<Event<K, R>>)
    requires Inv(s) && Possible(s, run)
    ensures Inv(After(s, run))
    decreases run
  {
    if run != [] {
      NextKeepsInv(s, run[0]);
      RunKeepsInv(Next(s, run[0]), run[1..]);
    }
  }

  /** In every interleaving, leader and followers of one call all return the same result. */
  lemma SameCallSameResult<K(!new), R(!new)>(run: seq<Event<K, R>>, i: nat, j: nat)
    requires Possible(Initial<K, R>(), run)
    requires var h := After(Initial<K, R>(), run).history; i < |h| && j < |h| && h[i].call == h[j].call
    ensures var h := After(Initial<K, R>(), run).history; h[i].result == h[j].result
  {
    InitialInv<K, R>();
    RunKeepsInv(Initial<K, R>(), run);
  }
}
