/**
  groupcache's Group.Get for any number of threads, as a step relation over the two caches and
  singleflight. Each step is one critical section of a cache's lock, one step of singleflight,
  or one answer from a peer or the getter; threads interleave between steps in any order.
 */
module FillProtocol {
  import opened Options
  import opened Recency
  import opened ByteCacheModel
  import SF = Singleflight

  type ThreadId = SF.ThreadId

  /** What load's fn returns: a value, or the getter's error. */
  datatype Result = Loaded(value: Value) | Failed

  /** Where a thread stands in Group.Get. */
  datatype Pc =
    | Idle
    | LookMain(key: Key)                                // lookupCache, before mainCache.get
    | LookHot(key: Key)
    | Load(key: Key)                                    // both missed; about to call loadGroup.Do
    | InDo                                              // in Do, not inside fn: singleflight knows where
    | ReMain(key: Key)                                  // inside fn: the second look
    | ReHot(key: Key)
    | Fetch(key: Key)                                   // both missed again; asking a peer or the getter
    | Fill(key: Key, value: Value, toHot: bool)         // about to add
    | ReadMain(key: Key, value: Value)                  // eviction loop: read mainCache.bytes
    | ReadHot(key: Key, value: Value, mainBytes: int)   // eviction loop: read hotCache.bytes
    | Evict(key: Key, value: Value, fromHot: bool)      // eviction loop: remove the victim's oldest
    | FnDone(key: Key, result: Result)                  // fn about to return

  /** A return of Group.Get (or of load, on failure). */
  datatype Answer = Answer(key: Key, result: Result)

  datatype Group = Group(limit: int, main: Cache, hot: Cache, sf: SF.State<Key, Result>,
                         pcs: map<ThreadId, Pc>, answers: seq<Answer>)
  {
    function PcOf(t: ThreadId): Pc {
      if t in pcs then pcs[t] else Idle
    }
  }

  /** What came of fetching: a peer's value, to be mirrored or not, the getter's value, or its error. */
  datatype Fetched = FromPeer(value: Value, mirror: bool) | FromGetter(value: Value) | NoValue

  datatype Event =
    | Start(t: ThreadId, key: Key)           // a thread calls Group.Get
    | Receive(t: ThreadId, outcome: Fetched)
    | Advance(t: ThreadId)                   // the one step the thread can take otherwise

  /** The singleflight event by which a thread in Do, outside fn, moves on. */
  function DoEvent(g: Group, t: ThreadId): SF.Event<Key, Result> {
    match g.sf.RoleOf(t)
    case Written(_, _) => SF.Signal(t)
    case Signalled(_, _) => SF.Delete(t)
    case _ => SF.Wake(t)
  }

  predicate Enabled(g: Group, e: Event) {
    var pc := g.PcOf(e.t);
    match e
    case Start(_, _) => pc.Idle?
    case Receive(_, _) => pc.Fetch?
    case Advance(t) =>
      match pc
      case Idle => false
      case Fetch(_) => false
      case Load(key) => SF.Enabled(g.sf, SF.Enter(t, key))
      case FnDone(_, result) => SF.Enabled(g.sf, SF.Finish(t, result))
      case InDo => SF.Enabled(g.sf, DoEvent(g, t))
      case _ => true
  }

  function Move(g: Group, t: ThreadId, pc: Pc): Group {
    g.(pcs := g.pcs[t := pc])
  }

  function Reply(g: Group, t: ThreadId, key: Key, result: Result): Group {
    g.(pcs := g.pcs[t := Idle], answers := g.answers + [Answer(key, result)])
  }

  function Next(g: Group, e: Event): Group
    requires Enabled(g, e)
  {
    match e
    case Start(t, key) => Move(g, t, LookMain(key))
    case Receive(t, outcome) =>
      var key := g.PcOf(t).key;
      (match outcome
       case FromPeer(v, mirror) =>
         Move(g, t, if mirror && g.limit > 0 then Fill(key, v, true) else FnDone(key, Loaded(v)))
       case FromGetter(v) =>
         Move(g, t, if g.limit > 0 then Fill(key, v, false) else FnDone(key, Loaded(v)))
       case NoValue => Move(g, t, FnDone(key, Failed)))
    case Advance(t) => AdvanceNext(g, t)
  }

  function AdvanceNext(g: Group, t: ThreadId): Group
    requires Enabled(g, Advance(t))
  {
    match g.PcOf(t)
    case LookMain(key) =>
      if g.limit <= 0 then Move(g, t, Load(key))
      else
        var looked := g.(main := Get(g.main, key));
        (match Lookup(g.main.entries, key)
         case Some(v) => Reply(looked, t, key, Loaded(v))
         case None => Move(looked, t, LookHot(key)))
    case LookHot(key) =>
      var looked := g.(hot := Get(g.hot, key));
      (match Lookup(g.hot.entries, key)
       case Some(v) => Reply(looked, t, key, Loaded(v))
       case None => Move(looked, t, Load(key)))
    case Load(key) =>
      var entered := g.(sf := SF.Next(g.sf, SF.Enter(t, key)));
      Move(entered, t, if key in g.sf.m then InDo else ReMain(key))
    case ReMain(key) =>
      if g.limit <= 0 then Move(g, t, Fetch(key))
      else
        var looked := g.(main := Get(g.main, key));
        (match Lookup(g.main.entries, key)
         case Some(v) => Move(looked, t, FnDone(key, Loaded(v)))
         case None => Move(looked, t, ReHot(key)))
    case ReHot(key) =>
      var looked := g.(hot := Get(g.hot, key));
      (match Lookup(g.hot.entries, key)
       case Some(v) => Move(looked, t, FnDone(key, Loaded(v)))
       case None => Move(looked, t, Fetch(key)))
    case Fill(key, v, toHot) =>
      Move(if toHot then g.(hot := Add(g.hot, key, v)) else g.(main := Add(g.main, key, v)), t, ReadMain(key, v))
    case ReadMain(key, v) => Move(g, t, ReadHot(key, v, g.main.nbytes))
    case ReadHot(key, v, mainBytes) =>
      if mainBytes + g.hot.nbytes <= g.limit then Move(g, t, FnDone(key, Loaded(v)))
      else Move(g, t, Evict(key, v, g.hot.nbytes > TruncatedEighth(mainBytes)))
    case Evict(key, v, fromHot) =>
      Move(if fromHot then g.(hot := RemoveOldest(g.hot)) else g.(main := RemoveOldest(g.main)), t, ReadMain(key, v))
    case FnDone(key, result) => Move(g.(sf := SF.Next(g.sf, SF.Finish(t, result))), t, InDo)
    case InDo =>
      var moved := g.(sf := SF.Next(g.sf, DoEvent(g, t)));
      if DoEvent(g, t).Signal? then moved
      else
        var role := g.sf.RoleOf(t);
        Reply(moved, t, role.key, g.sf.calls[role.call].result.value)
  }

  function Initial(limit: int): Group {
    Group(limit, Cache(0, []), Cache(0, []), SF.Initial(), map[], [])
  }

  // ---- The invariant ----

  predicate InFn(pc: Pc) {
    !pc.Idle? && !pc.LookMain? && !pc.LookHot? && !pc.Load? && !pc.InDo?
  }

  /** A thread is inside fn exactly when it leads a running call, for the key it works on. */
  ghost predicate PcOk(g: Group, t: ThreadId) {
    var pc := g.PcOf(t);
    var role := g.sf.RoleOf(t);
    && (InFn(pc) <==> role.Running?)
    && (InFn(pc) ==> role.key == pc.key)
    && (pc.InDo? ==> role.Waiting? || role.Written? || role.Signalled?)
    && (!pc.InDo? && !InFn(pc) ==> role.Outside?)
  }

  /** What a thread inside fn has found out stays true until it adds its own entry. */
  ghost predicate MissOk(g: Group, t: ThreadId) {
    var pc := g.PcOf(t);
    && (pc.ReHot? ==> pc.key !in Keys(g.main.entries))
    && (pc.Fetch? || pc.Fill? ==> pc.key !in Keys(g.main.entries) && pc.key !in Keys(g.hot.entries))
    && (pc.LookHot? || pc.ReHot? || pc.Fill? || pc.ReadMain? || pc.ReadHot? || pc.Evict? ==> g.limit > 0)
  }

  /** Both counts exact, no key in both caches, and nothing cached when caching is off. */
  ghost predicate CachesOk(g: Group) {
    && Exact(g.main) && Exact(g.hot)
    && Keys(g.main.entries) !! Keys(g.hot.entries)
    && (g.limit <= 0 ==> g.main.entries == [] && g.hot.entries == [])
  }

  /** The thread is in the eviction loop and will not leave it while the caches are over the limit. */
  predicate Responsible(g: Group, t: ThreadId) {
    var pc := g.PcOf(t);
    pc.ReadMain? || pc.Evict? || (pc.ReadHot? && pc.mainBytes >= g.main.nbytes)
  }

  ghost predicate Inv(g: Group) {
    && SF.Inv(g.sf)
    && (forall t :: PcOk(g, t) && MissOk(g, t))
    && CachesOk(g)
    && (g.limit > 0 ==> g.main.nbytes + g.hot.nbytes <= g.limit || exists t :: Responsible(g, t))
  }

  lemma InitialInv(limit: int)
    ensures Inv(Initial(limit))
  {
    SF.InitialInv<Key, Result>();
  }

  // ---- One step ----

  /** The thread adds its key to a cache in this step. */
  predicate Adds(g: Group, e: Event) {
    e.Advance? && g.PcOf(e.t).Fill?
  }

  /** Only Fill lets a cache gain a key or bytes, and then only the key of the thread that fills. */
  lemma CachesChange(g: Group, e: Event)
    requires Inv(g) && Enabled(g, e)
    ensures CachesOk(Next(g, e)) && Next(g, e).limit == g.limit
    ensures !Adds(g, e) ==>
              && Keys(Next(g, e).main.entries) <= Keys(g.main.entries) && Next(g, e).main.nbytes <= g.main.nbytes
              && Keys(Next(g, e).hot.entries) <= Keys(g.hot.entries) && Next(g, e).hot.nbytes <= g.hot.nbytes
    ensures Adds(g, e) ==>
              && Keys(Next(g, e).main.entries) <= Keys(g.main.entries) + {g.PcOf(e.t).key}
              && Keys(Next(g, e).hot.entries) <= Keys(g.hot.entries) + {g.PcOf(e.t).key}
  {
    hide Exact, Keys, Touched, ByteCacheModel.Add, RemoveOldest, SF.Next, SF.Enabled, SF.Inv;
    var t := e.t;
    assert PcOk(g, t) && MissOk(g, t);
    if e.Advance? {
      var pc := g.PcOf(t);
      if pc.LookMain? || pc.LookHot? || pc.ReMain? || pc.ReHot? {
        GetKeepsExact(g.main, pc.key);
        GetKeepsExact(g.hot, pc.key);
      } else if pc.Evict? {
        RemoveOldestKeepsExact(g.main);
        RemoveOldestKeepsExact(g.hot);
      } else if pc.Fill? {
        AddKeepsExactIff(g.main, pc.key, pc.value);
        AddKeepsExactIff(g.hot, pc.key, pc.value);
      }
    }
  }

  /** A step of one thread leaves every other thread's role in singleflight alone. */
  lemma SfSteps(g: Group, e: Event)
    requires Inv(g) && Enabled(g, e)
    ensures SF.Inv(Next(g, e).sf)
    ensures forall u :: u != e.t ==> Next(g, e).sf.RoleOf(u) == g.sf.RoleOf(u) && Next(g, e).PcOf(u) == g.PcOf(u)
  {
    hide SF.Inv, Exact, Keys, Touched, CachesOk, ByteCacheModel.Add, RemoveOldest;
    var pc := g.PcOf(e.t);
    if e.Advance? {
      if pc.Load? {
        SF.NextKeepsInv(g.sf, SF.Enter(e.t, pc.key));
      } else if pc.FnDone? {
        SF.NextKeepsInv(g.sf, SF.Finish(e.t, pc.result));
      } else if pc.InDo? {
        SF.NextKeepsInv(g.sf, DoEvent(g, e.t));
      }
    }
  }

  lemma OthersKeep(g: Group, e: Event, u: ThreadId)
    requires Inv(g) && Enabled(g, e) && u != e.t
    ensures PcOk(Next(g, e), u) && MissOk(Next(g, e), u)
  {
    hide Exact, Keys, ByteCacheModel.Add, ByteCacheModel.Get, RemoveOldest, SF.Inv, Next;
    assert PcOk(g, u) && MissOk(g, u) && PcOk(g, e.t);
    SfSteps(g, e);
    CachesChange(g, e);
    if Adds(g, e) && (g.PcOf(u).ReHot? || g.PcOf(u).Fetch? || g.PcOf(u).Fill?) {
      if g.PcOf(u).key == g.PcOf(e.t).key {
        SF.OneLeaderPerKey(g.sf, u, e.t);
      }
    }
  }

  lemma MoverKeepsRole(g: Group, e: Event)
    requires Inv(g) && Enabled(g, e)
    ensures PcOk(Next(g, e), e.t)
  {
    hide Exact, Keys, Touched, CachesOk, MissOk, ByteCacheModel.Add, ByteCacheModel.Get, RemoveOldest, SF.Inv, Responsible;
    assert PcOk(g, e.t);
  }

  lemma MoverKeepsMiss(g: Group, e: Event)
    requires Inv(g) && Enabled(g, e)
    ensures MissOk(Next(g, e), e.t)
  {
    hide Exact, Keys, Touched, ByteCacheModel.Add, RemoveOldest, SF.Inv, SF.Next, SF.Enabled, PcOk, Responsible;
    var t := e.t;
    assert MissOk(g, t);
    CachesChange(g, e);
    if e.Advance? && (g.PcOf(t).ReMain? || g.PcOf(t).ReHot?) {
      GetKeepsExact(g.main, g.PcOf(t).key);
      GetKeepsExact(g.hot, g.PcOf(t).key);
    }
  }

  /** Whoever adds becomes responsible, and stays so until it has seen the caches fit. */
  lemma ResponsibilityKept(g: Group, e: Event)
    requires Inv(g) && Enabled(g, e) && g.limit > 0
    ensures var n := Next(g, e);
            n.main.nbytes + n.hot.nbytes <= n.limit || exists t :: Responsible(n, t)
  {
    hide Exact, Keys, ByteCacheModel.Add, RemoveOldest, SF.Inv, SF.Next, SF.Enabled;
    var n := Next(g, e);
    CachesChange(g, e);
    if Adds(g, e) {
      assert Responsible(n, e.t);
    } else if g.main.nbytes + g.hot.nbytes > g.limit {
      var t :| Responsible(g, t);
      if t != e.t {
        SfSteps(g, e);
        assert Responsible(n, t);
      } else if n.main.nbytes + n.hot.nbytes > n.limit {
        assert Responsible(n, e.t);
      }
    }
  }

  lemma NextKeepsInv(g: Group, e: Event)
    requires Inv(g) && Enabled(g, e)
    ensures Inv(Next(g, e))
  {
    hide PcOk, MissOk, CachesOk, SF.Inv, Responsible, Next, Enabled;
    SfSteps(g, e);
    CachesChange(g, e);
    forall u ensures PcOk(Next(g, e), u) && MissOk(Next(g, e), u) {
      if u == e.t {
        MoverKeepsRole(g, e);
        MoverKeepsMiss(g, e);
      } else {
        OthersKeep(g, e, u);
      }
    }
    if g.limit > 0 {
      ResponsibilityKept(g, e);
    }
  }

  /** No deadlock: while a Get is under way, some thread in a Get has a step to take. */
  lemma SomeoneCanMove(g: Group, t: ThreadId) returns (u: ThreadId)
    requires Inv(g) && !g.PcOf(t).Idle?
    ensures !g.PcOf(u).Idle?
    ensures forall outcome :: Enabled(g, Advance(u)) || Enabled(g, Receive(u, outcome))
  {
    assert PcOk(g, t) && SF.LeaderOk(g.sf, t) && SF.WaiterOk(g.sf, t);
    u := t;
    var role := g.sf.RoleOf(t);
    if g.PcOf(t).InDo? && role.Waiting? && !g.sf.calls[role.call].done {
      u := g.sf.calls[role.call].leader;
      assert SF.CallOk(g.sf, role.call);
      assert PcOk(g, u) && SF.LeaderOk(g.sf, u);
    }
  }

  // ---- Where answers come from ----

  /** A result for a key, as a peer or the getter gave it. */
  datatype Receipt = Receipt(key: Key, result: Result)

  function ResultOf(outcome: Fetched): Result {
    if outcome.NoValue? then Failed else Loaded(outcome.value)
  }

  /** What the step receives from a peer or the getter. */
  function ReceivedIn(g: Group, e: Event): set<Receipt>
    requires Enabled(g, e)
  {
    if e.Receive? then {Receipt(g.PcOf(e.t).key, ResultOf(e.outcome))} else {}
  }

  ghost predicate PcKnown(pc: Pc, known: set<Receipt>) {
    && (pc.Fill? || pc.ReadMain? || pc.ReadHot? || pc.Evict? ==> Receipt(pc.key, Loaded(pc.value)) in known)
    && (pc.FnDone? ==> Receipt(pc.key, pc.result) in known)
  }

  /** Everything cached, under way, stored in a call or answered was received for its key. */
  ghost predicate AllKnown(g: Group, known: set<Receipt>) {
    && (forall x :: x in g.main.entries || x in g.hot.entries ==> Receipt(x.key, Loaded(x.value)) in known)
    && (forall t :: PcKnown(g.PcOf(t), known))
    && (forall c :: 0 <= c < |g.sf.calls| && g.sf.calls[c].result.Some? ==>
                      Receipt(g.sf.calls[c].key, g.sf.calls[c].result.value) in known)
    && (forall i :: 0 <= i < |g.answers| ==> Receipt(g.answers[i].key, g.answers[i].result) in known)
  }

  lemma CachedKnown(g: Group, e: Event, known: set<Receipt>)
    requires Inv(g) && Enabled(g, e) && AllKnown(g, known)
    ensures forall x :: x in Next(g, e).main.entries || x in Next(g, e).hot.entries ==>
                          Receipt(x.key, Loaded(x.value)) in known
  {
    hide Exact, Keys, Touched, PcOk, MissOk, SF.Inv, SF.Next, SF.Enabled, Matches, DropLast;
    assert PcKnown(g.PcOf(e.t), known);
    if e.Advance? {
      var pc := g.PcOf(e.t);
      if pc.LookMain? || pc.LookHot? || pc.ReMain? || pc.ReHot? {
        GetKeepsExact(g.main, pc.key);
        GetKeepsExact(g.hot, pc.key);
      } else if pc.Evict? {
        RemoveOldestKeepsExact(g.main);
        RemoveOldestKeepsExact(g.hot);
      }
    }
  }

  lemma ThreadKnown(g: Group, e: Event, known: set<Receipt>, u: ThreadId)
    requires Inv(g) && Enabled(g, e) && AllKnown(g, known)
    ensures PcKnown(Next(g, e).PcOf(u), known + ReceivedIn(g, e))
  {
    hide Exact, Keys, Touched, PcOk, MissOk, SF.Inv, SF.Next, SF.Enabled, ByteCacheModel.Add, RemoveOldest;
    assert PcKnown(g.PcOf(u), known) && PcKnown(g.PcOf(e.t), known);
  }

  /** A call's result is for the key its leader, and each of its followers, asked for. */
  lemma CallsKnown(g: Group, e: Event, known: set<Receipt>)
    requires Inv(g) && Enabled(g, e) && AllKnown(g, known)
    ensures var n := Next(g, e);
            forall c :: 0 <= c < |n.sf.calls| && n.sf.calls[c].result.Some? ==>
                          Receipt(n.sf.calls[c].key, n.sf.calls[c].result.value) in known
    ensures var n := Next(g, e);
            forall i :: 0 <= i < |n.answers| ==> Receipt(n.answers[i].key, n.answers[i].result) in known
  {
    hide Exact, Keys, Touched, MissOk, ByteCacheModel.Add, RemoveOldest;
    assert PcOk(g, e.t) && PcKnown(g.PcOf(e.t), known);
    assert SF.LeaderOk(g.sf, e.t) && SF.WaiterOk(g.sf, e.t);
  }

  lemma NextKeepsKnown(g: Group, e: Event, known: set<Receipt>)
    requires Inv(g) && Enabled(g, e) && AllKnown(g, known)
    ensures AllKnown(Next(g, e), known + ReceivedIn(g, e))
  {
    hide Next, Inv, Enabled, PcKnown, ReceivedIn;
    CachedKnown(g, e, known);
    CallsKnown(g, e, known);
    forall u ensures PcKnown(Next(g, e).PcOf(u), known + ReceivedIn(g, e)) {
      ThreadKnown(g, e, known, u);
    }
  }

  // ---- Runs ----

  ghost predicate Possible(g: Group, run: seq<Event>)
    decreases run
  {
    run == [] || (Enabled(g, run[0]) && Possible(Next(g, run[0]), run[1..]))
  }

  ghost function After(g: Group, run: seq<Event>): Group
    requires Possible(g, run)
    decreases run
  {
    if run == [] then g else After(Next(g, run[0]), run[1..])
  }

  lemma {:induction false} RunKeeps(g: Group, run: seq<Event>)
    requires Inv(g) && Possible(g, run)
    ensures Inv(After(g, run)) && After(g, run).limit == g.limit
    decreases run
  {
    if run != [] {
      NextKeepsInv(g, run[0]);
      CachesChange(g, run[0]);
      RunKeeps(Next(g, run[0]), run[1..]);
    }
  }

  /** All that peers and getter gave during the run. */
  ghost function Received(g: Group, run: seq<Event>): set<Receipt>
    requires Possible(g, run)
    decreases run
  {
    if run == [] then {} else ReceivedIn(g, run[0]) + Received(Next(g, run[0]), run[1..])
  }

  /** A receipt names an event of the run: a thread that was fetching the key was given the result. */
  lemma {:induction false} ReceiptHappened(g: Group, run: seq<Event>, r: Receipt) returns (i: nat)
    requires Possible(g, run) && r in Received(g, run)
    ensures i < |run| && Possible(g, run[..i]) && run[i].Receive? && ResultOf(run[i].outcome) == r.result
    ensures var pc := After(g, run[..i]).PcOf(run[i].t); pc.Fetch? && pc.key == r.key
    decreases run
  {
    hide Next;
    if r in ReceivedIn(g, run[0]) {
      i := 0;
      assert run[..0] == [];
    } else {
      var j := ReceiptHappened(Next(g, run[0]), run[1..], r);
      i := j + 1;
      assert run[..i][1..] == run[1..][..j] && run[..i][0] == run[0];
    }
  }

  lemma {:induction false} RunKeepsKnown(g: Group, run: seq<Event>, known: set<Receipt>)
    requires Inv(g) && AllKnown(g, known) && Possible(g, run)
    ensures AllKnown(After(g, run), known + Received(g, run))
    decreases run
  {
    hide Inv, AllKnown, Next, Enabled, ReceivedIn;
    if run != [] {
      NextKeepsInv(g, run[0]);
      NextKeepsKnown(g, run[0], known);
      RunKeepsKnown(Next(g, run[0]), run[1..], known + ReceivedIn(g, run[0]));
      assert known + ReceivedIn(g, run[0]) + Received(Next(g, run[0]), run[1..]) == known + Received(g, run);
    } else {
      assert known + Received(g, run) == known;
    }
  }

  /**
    In every interleaving of any number of threads: both byte counts are the sum of the sizes stored, no key
    is in both caches, and whenever no thread is in the eviction loop the two fit the limit together.
   */
  lemma ByteCountsExact(limit: int, run: seq<Event>)
    requires Possible(Initial(limit), run)
    ensures var g := After(Initial(limit), run);
            && g.main.nbytes == Total(g.main.entries) && g.hot.nbytes == Total(g.hot.entries)
            && Keys(g.main.entries) !! Keys(g.hot.entries)
            && (limit > 0 && (forall t :: var pc := g.PcOf(t); !pc.ReadMain? && !pc.ReadHot? && !pc.Evict?) ==>
                  g.main.nbytes + g.hot.nbytes <= limit)
  {
    InitialInv(limit);
    RunKeeps(Initial(limit), run);
  }

  /** At most one thread at a time fetches a given key. */
  lemma OneFetchPerKey(limit: int, run: seq<Event>, t: ThreadId, u: ThreadId)
    requires Possible(Initial(limit), run)
    requires var g := After(Initial(limit), run);
             InFn(g.PcOf(t)) && InFn(g.PcOf(u)) && g.PcOf(t).key == g.PcOf(u).key
    ensures t == u
  {
    InitialInv(limit);
    RunKeeps(Initial(limit), run);
    var g := After(Initial(limit), run);
    assert PcOk(g, t) && PcOk(g, u);
    SF.OneLeaderPerKey(g.sf, t, u);
  }

  /**
    In every interleaving every answer, value or failure, is one that a peer or the getter gave during the run
    to a thread that asked for that key: no Get fails, or sees a value, that no one was given.
   */
  lemma AnswersReceived(limit: int, run: seq<Event>, i: nat)
    requires Possible(Initial(limit), run) && i < |After(Initial(limit), run).answers|
    ensures var a := After(Initial(limit), run).answers[i];
            Receipt(a.key, a.result) in Received(Initial(limit), run)
  {
    InitialInv(limit);
    RunKeepsKnown(Initial(limit), run, {});
    assert {} + Received(Initial(limit), run) == Received(Initial(limit), run);
  }

  /** Peers and getter answer with the value the key stands for, as Getter's documentation asks. */
  ghost predicate Honest(limit: int, run: seq<Event>, origin: Key -> Value)
    requires Possible(Initial(limit), run)
  {
    forall r :: r in Received(Initial(limit), run) && r.result.Loaded? ==> r.result.value == origin(r.key)
  }

  /** So when peers and getter are honest, every answer of every Get is the value of the key asked for. */
  lemma AnswersRight(limit: int, run: seq<Event>, origin: Key -> Value, i: nat)
    requires Possible(Initial(limit), run) && Honest(limit, run, origin)
    requires i < |After(Initial(limit), run).answers|
    ensures var a := After(Initial(limit), run).answers[i];
            if a.result.Loaded? then a.result.value == origin(a.key)
            else Receipt(a.key, Failed) in Received(Initial(limit), run)
  {
    AnswersReceived(limit, run, i);
  }
}
