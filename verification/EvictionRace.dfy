/**
  The eviction loop of groupcache's populateCache when other threads interfere: it reads the two byte
  counts one after the other, so it may act on a count that is no longer true. What a thread can rely on,
  a run in which it evicts from an empty cache, and why the loop ends all the same.
 */
module EvictionRace {
  import opened Arithmetic
  import opened Options
  import opened Recency
  import opened ByteCacheModel
  import opened FillProtocol
  import SF = Singleflight

  predicate InLoop(pc: Pc) {
    pc.ReadMain? || pc.ReadHot? || pc.Evict?
  }

  function Victim(g: Group, fromHot: bool): Cache {
    if fromHot then g.hot else g.main
  }

  // ---- What a thread that decides to evict can rely on ----

  /**
    The cache chosen is empty exactly when main is, and hot is within an eighth of what main was read to hold.
    On a count of main that is still true the caches are over the limit and the one chosen has an entry.
   */
  lemma EvictionDecision(g: Group, t: ThreadId)
    requires Inv(g) && g.PcOf(t).ReadHot? && Next(g, Advance(t)).PcOf(t).Evict?
    ensures var read := g.PcOf(t).mainBytes;
            var chosen := Victim(g, Next(g, Advance(t)).PcOf(t).fromHot);
            && (chosen.entries == [] <==> g.main.entries == [] && g.hot.nbytes <= TruncatedEighth(read))
            && (chosen.entries == [] ==> read > g.main.nbytes)
            && (g.main.nbytes + g.hot.nbytes <= g.limit ==> read > g.main.nbytes)
            && (read == g.main.nbytes ==> chosen.entries != [] && g.main.nbytes + g.hot.nbytes > g.limit)
  {
    hide Exact, Keys, SF.Inv, SF.Next, SF.Enabled;
    assert MissOk(g, t);
    ExactNonNegative(g.main);
    ExactNonNegative(g.hot);
  }

  lemma ExactNonNegative(c: Cache)
    requires Exact(c)
    ensures c.nbytes >= 0 && (c.entries == [] ==> c.nbytes == 0)
  {
  }

  // ---- A run in which the cache chosen is empty ----

  const KEY_A: Key := [1]
  const KEY_B: Key := [2]

  /** A thread's Get of a key that no cache has and no one is loading, up to the point where it adds it. */
  function FillRun(t: ThreadId, key: Key, outcome: Fetched): seq<Event> {
    [Start(t, key), Advance(t), Advance(t), Advance(t), Advance(t), Advance(t), Receive(t, outcome)]
  }

  lemma {:induction false} RunConcat(g: Group, a: seq<Event>, b: seq<Event>)
    requires Possible(g, a) && Possible(After(g, a), b)
    ensures Possible(g, a + b) && After(g, a + b) == After(After(g, a), b)
    decreases a
  {
    hide Next, Enabled;
    if a == [] {
      assert a + b == b;
    } else {
      RunConcat(Next(g, a[0]), a[1..], b);
      assert (a + b)[1..] == a[1..] + b;
    }
  }

  lemma OneMore(g: Group, a: seq<Event>, e: Event)
    requires Possible(g, a) && Enabled(After(g, a), e)
    ensures Possible(g, a + [e]) && After(g, a + [e]) == Next(After(g, a), e)
  {
    hide Next, Enabled;
    assert [e][1..] == [];
    RunConcat(g, a, [e]);
  }

  lemma TwoEvents(g: Group, e1: Event, e2: Event)
    requires Enabled(g, e1) && Enabled(Next(g, e1), e2)
    ensures Possible(g, [e1, e2]) && After(g, [e1, e2]) == Next(Next(g, e1), e2)
  {
    hide Next, Enabled;
    assert [e1][1..] == [];
    OneMore(g, [e1], e2);
    assert [e1] + [e2] == [e1, e2];
  }

  lemma FourEvents(g: Group, e1: Event, e2: Event, e3: Event, e4: Event)
    requires Enabled(g, e1) && Enabled(Next(g, e1), e2)
    requires var n := Next(Next(g, e1), e2); Enabled(n, e3) && Enabled(Next(n, e3), e4)
    ensures Possible(g, [e1, e2, e3, e4])
    ensures After(g, [e1, e2, e3, e4]) == Next(Next(Next(Next(g, e1), e2), e3), e4)
  {
    hide Next, Enabled, Possible, After;
    TwoEvents(g, e1, e2);
    TwoEvents(Next(Next(g, e1), e2), e3, e4);
    RunConcat(g, [e1, e2], [e3, e4]);
    assert [e1, e2] + [e3, e4] == [e1, e2, e3, e4];
  }

  /** The thread's own state, and that all else is as it was. */
  ghost predicate Moved(g: Group, n: Group, t: ThreadId, pc: Pc) {
    && n.main == g.main && n.hot == g.hot && n.limit == g.limit
    && n.PcOf(t) == pc
    && (forall u :: u != t ==> n.PcOf(u) == g.PcOf(u) && n.sf.RoleOf(u) == g.sf.RoleOf(u))
  }

  ghost predicate Unknown(g: Group, key: Key) {
    g.limit > 0 && Lookup(g.main.entries, key).None? && Lookup(g.hot.entries, key).None?
  }

  lemma ReachesLoad(g: Group, t: ThreadId, key: Key)
    requires g.PcOf(t).Idle? && Unknown(g, key)
    ensures var run := [Start(t, key), Advance(t), Advance(t)];
            && Possible(g, run)
            && Moved(g, After(g, run), t, Load(key)) && After(g, run).sf == g.sf
  {
    hide Lookup, SF.Next, SF.Enabled;
    hide Possible, After;
    var g1 := Next(g, Start(t, key));
    var g2 := Next(g1, Advance(t));
    TwoEvents(g, Start(t, key), Advance(t));
    OneMore(g, [Start(t, key), Advance(t)], Advance(t));
    assert [Start(t, key), Advance(t)] + [Advance(t)] == [Start(t, key), Advance(t), Advance(t)];
  }

  lemma LoadsAndFills(g: Group, t: ThreadId, key: Key, outcome: Fetched)
    requires g.PcOf(t) == Load(key) && g.sf.RoleOf(t).Outside? && Unknown(g, key) && key !in g.sf.m
    requires outcome.FromGetter? || (outcome.FromPeer? && outcome.mirror)
    ensures var run := [Advance(t), Advance(t), Advance(t), Receive(t, outcome)];
            && Possible(g, run)
            && Moved(g, After(g, run), t, Fill(key, outcome.value, outcome.FromPeer?))
            && After(g, run).sf == SF.Next(g.sf, SF.Enter(t, key))
  {
    hide Possible, After;
    var g1 := Next(g, Advance(t));
    EntersFn(g, t, key);
    LooksAgain(g1, t, key);
    FourEvents(g, Advance(t), Advance(t), Advance(t), Receive(t, outcome));
  }

  /** A thread that finds no call for its key under way leads one. */
  lemma EntersFn(g: Group, t: ThreadId, key: Key)
    requires g.PcOf(t) == Load(key) && g.sf.RoleOf(t).Outside? && key !in g.sf.m
    ensures Enabled(g, Advance(t))
    ensures var n := Next(g, Advance(t)); Moved(g, n, t, ReMain(key)) && n.sf == SF.Next(g.sf, SF.Enter(t, key))
  {
    hide Lookup;
  }

  lemma LooksAgain(g: Group, t: ThreadId, key: Key)
    requires g.PcOf(t) == ReMain(key) && Unknown(g, key)
    ensures Enabled(g, Advance(t)) && Enabled(Next(g, Advance(t)), Advance(t))
    ensures var n := Next(Next(g, Advance(t)), Advance(t)); Moved(g, n, t, Fetch(key)) && n.sf == g.sf
  {
    hide Lookup, SF.Next, SF.Enabled;
  }

  lemma ReachesFill(g: Group, t: ThreadId, key: Key, outcome: Fetched)
    requires g.PcOf(t).Idle? && g.sf.RoleOf(t).Outside? && Unknown(g, key) && key !in g.sf.m
    requires outcome.FromGetter? || (outcome.FromPeer? && outcome.mirror)
    ensures var run := FillRun(t, key, outcome);
            && Possible(g, run)
            && Moved(g, After(g, run), t, Fill(key, outcome.value, outcome.FromPeer?))
            && After(g, run).sf.m.Keys == g.sf.m.Keys + {key}
  {
    hide Next, Enabled, Possible, After, Lookup;
    var a := [Start(t, key), Advance(t), Advance(t)];
    var b := [Advance(t), Advance(t), Advance(t), Receive(t, outcome)];
    ReachesLoad(g, t, key);
    LoadsAndFills(After(g, a), t, key, outcome);
    RunConcat(g, a, b);
    assert FillRun(t, key, outcome) == a + b;
  }

  /** Thread 1 adds 11 bytes to main and reads that count; thread 2 then mirrors a byte into hot and evicts from main. */
  function RaceRun(): seq<Event> {
    FillRun(1, KEY_A, FromGetter(TEN_BYTES)) + [Advance(1), Advance(1)]
    + FillRun(2, KEY_B, FromPeer([], true)) + [Advance(2), Advance(2), Advance(2), Advance(2)]
    + [Advance(1)]
  }

  const TEN_BYTES: Value := [0, 0, 0, 0, 0, 0, 0, 0, 0, 0]

  /** The run ends with thread 1 about to evict from an empty main cache, although the two caches fit the limit. */
  lemma StaleVictimIsReachable()
    ensures Possible(Initial(10), RaceRun())
    ensures var g := After(Initial(10), RaceRun());
            && g.PcOf(1).Evict? && !g.PcOf(1).fromHot && g.main.entries == []
            && g.main.nbytes + g.hot.nbytes <= g.limit
  {
    hide Next, Enabled, Possible, After, FillRun;
    var g0 := Initial(10);
    var run1 := FillRun(1, KEY_A, FromGetter(TEN_BYTES));
    ReachesFill(g0, 1, KEY_A, FromGetter(TEN_BYTES));
    var g1 := After(g0, run1);
    AddsAndReads(g1);
    RunConcat(g0, run1, [Advance(1), Advance(1)]);
    var run2 := run1 + [Advance(1), Advance(1)];
    var g2 := After(g0, run2);
    var fill := FillRun(2, KEY_B, FromPeer([], true));
    ReachesFill(g2, 2, KEY_B, FromPeer([], true));
    RunConcat(g0, run2, fill);
    var run3 := run2 + fill;
    var g3 := After(g0, run3);
    MirrorsAndEvicts(g3);
    RunConcat(g0, run3, [Advance(2), Advance(2), Advance(2), Advance(2)]);
    var run4 := run3 + [Advance(2), Advance(2), Advance(2), Advance(2)];
    ChoosesEmpty(After(g0, run4));
    OneMore(g0, run4, Advance(1));
  }

  /** Thread 1 adds its entry to the empty main cache and reads the count. */
  lemma AddsAndReads(g: Group)
    requires g.main == Cache(0, []) && g.PcOf(1) == Fill(KEY_A, TEN_BYTES, false)
    ensures var run := [Advance(1), Advance(1)];
            && Possible(g, run)
            && var n := After(g, run);
               && n.main == Cache(11, [Entry(KEY_A, TEN_BYTES)]) && n.hot == g.hot && n.limit == g.limit && n.sf == g.sf
               && n.PcOf(1) == ReadHot(KEY_A, TEN_BYTES, 11)
               && forall u :: u != 1 ==> n.PcOf(u) == g.PcOf(u)
  {
    hide Possible, After;
    assert Without<Key, Value>([], KEY_A) == [];
    var g1 := Next(g, Advance(1));
    TwoEvents(g, Advance(1), Advance(1));
  }

  /** Thread 2 adds its entry to hot, finds the caches too full, and evicts main's only entry. */
  lemma MirrorsAndEvicts(g: Group)
    requires g.limit == 10 && g.main == Cache(11, [Entry(KEY_A, TEN_BYTES)]) && g.hot == Cache(0, [])
    requires g.PcOf(2) == Fill(KEY_B, [], true)
    ensures var run := [Advance(2), Advance(2), Advance(2), Advance(2)];
            && Possible(g, run)
            && var n := After(g, run);
               && n.main == Cache(0, []) && n.hot.nbytes == 1 && n.limit == g.limit
               && forall u :: u != 2 ==> n.PcOf(u) == g.PcOf(u)
  {
    hide Possible, After;
    var g1 := Next(g, Advance(2));
    assert g1.hot.nbytes == 1;
    var g2 := Next(g1, Advance(2));
    var g3 := Next(g2, Advance(2));
    assert g3.PcOf(2) == Evict(KEY_B, [], false);
    FourEvents(g, Advance(2), Advance(2), Advance(2), Advance(2));
  }

  /** Thread 1, which read 11 bytes for main, now reads 1 for hot and chooses main. */
  lemma ChoosesEmpty(g: Group)
    requires g.limit == 10 && g.main == Cache(0, []) && g.hot.nbytes == 1
    requires g.PcOf(1) == ReadHot(KEY_A, TEN_BYTES, 11)
    ensures Enabled(g, Advance(1))
    ensures var n := Next(g, Advance(1)); n.PcOf(1) == Evict(KEY_A, TEN_BYTES, false) && n.main == g.main && n.hot == g.hot && n.limit == g.limit
  {
  }

  // ---- Why the loop ends under interference ----

  /** The thread acts on a count of main that is no longer true, or on a choice that has become empty. */
  predicate Stale(g: Group, t: ThreadId) {
    var pc := g.PcOf(t);
    || (pc.ReadHot? && pc.mainBytes != g.main.nbytes)
    || (pc.Evict? && Victim(g, pc.fromHot).entries == [])
  }

  /** The threads in the loop; those that have not chosen yet; those that have not read anything yet. */
  ghost function Looping(g: Group): set<ThreadId> {
    set t | t in g.pcs && InLoop(g.PcOf(t))
  }

  ghost function Undecided(g: Group): set<ThreadId> {
    set t | t in g.pcs && (g.PcOf(t).ReadMain? || g.PcOf(t).ReadHot?)
  }

  ghost function AtStart(g: Group): set<ThreadId> {
    set t | t in g.pcs && g.PcOf(t).ReadMain?
  }

  ghost function StaleOnes(g: Group): set<ThreadId> {
    set t | t in g.pcs && Stale(g, t)
  }

  ghost function Stored(g: Group): nat {
    |g.main.entries| + |g.hot.entries|
  }

  ghost function Positions(g: Group): nat {
    |Looping(g)| + |Undecided(g)| + |AtStart(g)|
  }

  /** A turn of some thread's eviction loop. */
  predicate LoopStep(g: Group, e: Event) {
    e.Advance? && InLoop(g.PcOf(e.t))
  }

  lemma SetsBounded(g: Group)
    ensures |StaleOnes(g)| <= |Looping(g)| && Positions(g) <= 3 * |Looping(g)|
  {
    Subset(StaleOnes(g), Looping(g));
    Subset(Undecided(g), Looping(g));
    Subset(AtStart(g), Looping(g));
  }

  lemma {:induction false} Subset(a: set<ThreadId>, b: set<ThreadId>)
    requires a <= b
    ensures |a| <= |b| && (a != b ==> |a| < |b|)
    decreases a
  {
    if t :| t in a {
      Subset(a - {t}, b - {t});
    }
  }

  /**
    Each turn of each thread, whatever the others did in between: an entry goes, or none does and a stale
    thread starts afresh, or no thread becomes stale and the thread gets further.
   */
  lemma LoopStepFalls(g: Group, e: Event)
    requires Inv(g) && Enabled(g, e) && LoopStep(g, e)
    ensures var n := Next(g, e);
            && Looping(n) <= Looping(g)
            && (|| Stored(n) < Stored(g)
                || (Stored(n) == Stored(g) && |StaleOnes(n)| < |StaleOnes(g)|)
                || (Stored(n) == Stored(g) && |StaleOnes(n)| <= |StaleOnes(g)| && Positions(n) < Positions(g)))
  {
    hide Exact, Keys, SF.Inv, SF.Next, SF.Enabled, DropLast;
    var n := Next(g, e);
    var t := e.t;
    assert Looping(n) <= Looping(g);
    match g.PcOf(t) {
      case Evict(_, _, fromHot) =>
        if Victim(g, fromHot).entries == [] {
          StartsAfresh(g, t);
        } else {
          EntryGoes(g, t);
        }
      case ReadMain(_, _) => GetsFurther(g, t);
      case ReadHot(_, _, _) =>
        if n.PcOf(t).Evict? {
          EvictionDecision(g, t);
        }
        GetsFurther(g, t);
    }
  }

  lemma EntryGoes(g: Group, t: ThreadId)
    requires Enabled(g, Advance(t)) && g.PcOf(t).Evict? && Victim(g, g.PcOf(t).fromHot).entries != []
    ensures Stored(Next(g, Advance(t))) < Stored(g)
  {
  }

  lemma StartsAfresh(g: Group, t: ThreadId)
    requires Enabled(g, Advance(t)) && g.PcOf(t).Evict? && Victim(g, g.PcOf(t).fromHot).entries == []
    ensures var n := Next(g, Advance(t)); Stored(n) == Stored(g) && |StaleOnes(n)| < |StaleOnes(g)|
  {
    var n := Next(g, Advance(t));
    assert n.main == g.main && n.hot == g.hot;
    assert t in StaleOnes(g) && t !in StaleOnes(n);
    Subset(StaleOnes(n), StaleOnes(g));
  }

  lemma GetsFurther(g: Group, t: ThreadId)
    requires Enabled(g, Advance(t)) && (g.PcOf(t).ReadMain? || g.PcOf(t).ReadHot?)
    requires Stale(Next(g, Advance(t)), t) ==> Stale(g, t)
    ensures var n := Next(g, Advance(t));
            && Stored(n) == Stored(g) && |StaleOnes(n)| <= |StaleOnes(g)| && Positions(n) < Positions(g)
  {
    var n := Next(g, Advance(t));
    assert n.main == g.main && n.hot == g.hot;
    Subset(StaleOnes(n), StaleOnes(g));
    Subset(Looping(n), Looping(g));
    Subset(Undecided(n), Undecided(g));
    Subset(AtStart(n), AtStart(g));
    if g.PcOf(t).ReadMain? {
      assert t in AtStart(g) && t !in AtStart(n);
    } else {
      assert t in Undecided(g) && t !in Undecided(n);
    }
  }

  /** All other steps but fills leave the loop's threads, and what they depend on, as they are. */
  lemma OtherStepKeeps(g: Group, e: Event)
    requires Inv(g) && Enabled(g, e) && !LoopStep(g, e) && !Adds(g, e)
    ensures var n := Next(g, e);
            && Looping(n) == Looping(g) && Stored(n) == Stored(g)
            && StaleOnes(n) == StaleOnes(g) && Positions(n) == Positions(g)
  {
    hide Inv, Enabled, Next, Adds, LoopStep;
    var n := Next(g, e);
    LookupsKeepSizes(g, e);
    assert Looping(n) == Looping(g) && Undecided(n) == Undecided(g) && AtStart(n) == AtStart(g);
    assert g.main.entries == [] <==> |g.main.entries| == 0;
    assert StaleOnes(n) == StaleOnes(g);
  }

  lemma LookupsKeepSizes(g: Group, e: Event)
    requires Inv(g) && Enabled(g, e) && !LoopStep(g, e) && !Adds(g, e)
    ensures var n := Next(g, e);
            && n.main.nbytes == g.main.nbytes && |n.main.entries| == |g.main.entries|
            && n.hot.nbytes == g.hot.nbytes && |n.hot.entries| == |g.hot.entries|
            && forall u :: InLoop(n.PcOf(u)) || InLoop(g.PcOf(u)) ==> n.PcOf(u) == g.PcOf(u)
  {
    hide Keys, Touched, SF.Inv, SF.Next, SF.Enabled;
    if e.Advance? {
      var pc := g.PcOf(e.t);
      if pc.LookMain? || pc.LookHot? || pc.ReMain? || pc.ReHot? {
        TouchedKeys(g.main.entries, pc.key);
        TouchedKeys(g.hot.entries, pc.key);
      }
    }
  }

  /** A bound on the turns to come, for at most `threads` threads in the loop. */
  ghost function TurnsLeft(g: Group, threads: nat): nat {
    (Stored(g) * (threads + 1) + |StaleOnes(g)|) * (3 * threads + 1) + Positions(g)
  }

  lemma TurnsLeftFalls(g: Group, e: Event, threads: nat)
    requires Inv(g) && Enabled(g, e) && LoopStep(g, e) && |Looping(g)| <= threads
    ensures |Looping(Next(g, e))| <= threads && TurnsLeft(Next(g, e), threads) < TurnsLeft(g, threads)
  {
    hide Inv, Enabled, Next, Looping, StaleOnes, Stored, Positions;
    var n := Next(g, e);
    LoopStepFalls(g, e);
    Subset(Looping(n), Looping(g));
    SetsBounded(g);
    SetsBounded(n);
    Lexicographic(Stored(g), |StaleOnes(g)|, Positions(g), Stored(n), |StaleOnes(n)|, Positions(n), threads);
  }

  /** A lexicographic fall of bounded components as the fall of one number. */
  lemma Lexicographic(e: nat, s: nat, p: nat, e': nat, s': nat, p': nat, threads: nat)
    requires s' <= threads && p' <= 3 * threads
    requires e' < e || (e' == e && s' < s) || (e' == e && s' <= s && p' < p)
    ensures (e' * (threads + 1) + s') * (3 * threads + 1) + p' < (e * (threads + 1) + s) * (3 * threads + 1) + p
  {
    var k := threads + 1;
    if e' < e || s' < s {
      PairFalls(e, s, e', s', k);
    }
    PairFalls(e * k + s, p, e' * k + s', p', 3 * threads + 1);
  }

  lemma PairFalls(hi: nat, lo: nat, hi': nat, lo': nat, k: nat)
    requires lo' < k
    requires hi' < hi || (hi' == hi && lo' < lo)
    ensures hi' * k + lo' < hi * k + lo
  {
    if hi' < hi {
      MulGrows(hi' + 1, hi, k);
      MulNext(hi', k);
    }
  }

  // ---- Runs ----

  ghost predicate NoFills(g: Group, run: seq<Event>)
    requires Possible(g, run)
    decreases run
  {
    run == [] || (!Adds(g, run[0]) && NoFills(Next(g, run[0]), run[1..]))
  }

  /** The turns of the eviction loop that all threads together take in the run. */
  ghost function LoopSteps(g: Group, run: seq<Event>): nat
    requires Possible(g, run)
    decreases run
  {
    if run == [] then 0
    else (if LoopStep(g, run[0]) then 1 else 0) + LoopSteps(Next(g, run[0]), run[1..])
  }

  /** In any run of any threads without further fills all eviction loops together take a bounded number of turns. */
  lemma {:induction false} LoopEnds(g: Group, run: seq<Event>, threads: nat)
    requires Inv(g) && Possible(g, run) && NoFills(g, run) && |Looping(g)| <= threads
    ensures LoopSteps(g, run) <= TurnsLeft(g, threads)
    decreases run
  {
    hide Inv, Enabled, Next, Looping, TurnsLeft, Adds, LoopStep;
    if run != [] {
      var n := Next(g, run[0]);
      NextKeepsInv(g, run[0]);
      if LoopStep(g, run[0]) {
        TurnsLeftFalls(g, run[0], threads);
      } else {
        OtherKeepsTurns(g, run[0], threads);
      }
      LoopEnds(n, run[1..], threads);
    }
  }

  /** So from every reachable state: once no one fills, the loops that are under way come to an end. */
  lemma EveryLoopEnds(limit: int, before: seq<Event>, run: seq<Event>)
    requires Possible(Initial(limit), before) && Possible(After(Initial(limit), before), run)
    requires NoFills(After(Initial(limit), before), run)
    ensures var g := After(Initial(limit), before); LoopSteps(g, run) <= TurnsLeft(g, |Looping(g)|)
  {
    hide Inv, Enabled, Next, Looping, TurnsLeft, LoopSteps, NoFills;
    InitialInv(limit);
    RunKeeps(Initial(limit), before);
    var g := After(Initial(limit), before);
    LoopEnds(g, run, |Looping(g)|);
  }

  lemma OtherKeepsTurns(g: Group, e: Event, threads: nat)
    requires Inv(g) && Enabled(g, e) && !LoopStep(g, e) && !Adds(g, e)
    ensures Looping(Next(g, e)) == Looping(g) && TurnsLeft(Next(g, e), threads) == TurnsLeft(g, threads)
  {
    hide Inv, Enabled, Next, Looping, StaleOnes, Stored, Positions;
    OtherStepKeeps(g, e);
  }
}
