/** What ARC's operations do to its four lists and its target, entry by entry. */
module ArcEffects {
  import opened Arithmetic
  import opened Options
  import opened Recency
  import opened ArcModel

  /**
    replace takes from t1 if that has entries and is over its target, or at it on a b2 hit, and otherwise from t2.
    It takes the least recently used entry, whose key becomes the first of the list's own ghosts.
   */
  ghost predicate Replaces<K(!new), V(!new)>(a: Arc<K, V>, r: Arc<K, V>, b2ContainsKey: bool) {
    && r.size == a.size && r.p == a.p
    && if a.t1 != [] && (|a.t1| > a.p || (|a.t1| == a.p && b2ContainsKey)) then
         && r.t1 == a.t1[..|a.t1| - 1] && r.t2 == a.t2 && r.b2 == a.b2
         && r.b1 == Cut([Entry(a.t1[|a.t1| - 1].key, ())] + a.b1, a.size)
       else if a.t2 != [] then
         && r.t2 == a.t2[..|a.t2| - 1] && r.t1 == a.t1 && r.b1 == a.b1
         && r.b2 == Cut([Entry(a.t2[|a.t2| - 1].key, ())] + a.b2, a.size)
       else r == a
  }

  lemma ReplaceMoves<K(!new), V(!new)>(a: Arc<K, V>, b2ContainsKey: bool)
    requires WellFormed(a)
    ensures Replaces(a, Replace(a, b2ContainsKey), b2ContainsKey)
  {
    hide Added, Distinct;
    if a.t1 != [] {
      MemberKey(a.t1, a.t1[|a.t1| - 1]);
      NewInFront(a.b1, a.size, a.t1[|a.t1| - 1].key, ());
    }
    if a.t2 != [] {
      MemberKey(a.t2, a.t2[|a.t2| - 1]);
      NewInFront(a.b2, a.size, a.t2[|a.t2| - 1].key, ());
    }
  }

  /**
    The target moves on a ghost hit only: up on a b1 hit and down on a b2 hit, by how many times the other ghost list
    is longer, or by 1, and never out of [0, size].
   */
  lemma TargetMoves<K(!new), V(!new)>(a: Arc<K, V>, k: K, v: V, step: nat)
    requires Inv(a)
    ensures k in Keys(a.b1) && k !in Keys(a.t1) && k !in Keys(a.t2) && IsStep(|a.b1|, |a.b2|, step) ==>
              Add(a, k, v).p == if a.p + step >= a.size then a.size else a.p + step
    ensures k in Keys(a.b2) && k !in Keys(a.t1) && k !in Keys(a.t2) && k !in Keys(a.b1) && IsStep(|a.b2|, |a.b1|, step) ==>
              Add(a, k, v).p == if step >= a.p then 0 else a.p - step
    ensures k !in Keys(a.b1) && k !in Keys(a.b2) ==> Add(a, k, v).p == a.p
  {
    hide Added, Without, Distinct;
    if a.b1 != [] && IsStep(|a.b1|, |a.b2|, step) {
      StepIsDelta(|a.b1|, |a.b2|, step);
    }
    if a.b2 != [] && IsStep(|a.b2|, |a.b1|, step) {
      StepIsDelta(|a.b2|, |a.b1|, step);
    }
  }

  /** 1, or how many times the list that was hit goes into the other. */
  predicate IsStep(hit: nat, other: nat, step: nat) {
    if other <= hit then step == 1 else step * hit <= other < (step + 1) * hit
  }

  lemma StepIsDelta(hit: nat, other: nat, step: nat)
    requires hit > 0 && IsStep(hit, other, step)
    ensures Delta(hit, other) == step
  {
    if other > hit {
      QuotientAtLeast(other, hit, step);
      QuotientAtLeast(other, hit, step + 1);
    }
  }

  // ---- Add ----

  /** A key that any of the four lists knows ends first in t2, and in no other list. */
  lemma KnownKeyIsPromoted<K(!new), V(!new)>(a: Arc<K, V>, k: K, v: V)
    requires Inv(a) && (k in Keys(a.t1) || k in Keys(a.t2) || k in Keys(a.b1) || k in Keys(a.b2))
    ensures var r := Add(a, k, v);
            && r.t2 != [] && r.t2[0] == Entry(k, v)
            && k !in Keys(r.t1) && k !in Keys(r.b1) && k !in Keys(r.b2)
  {
    hide Added, Without, Replace, Distinct;
    if k in Keys(a.t1) || k in Keys(a.t2) {
      HitKeeps(a, k, v);
    } else {
      GhostHitKeeps(a, k, v);
    }
    MemberKey(Add(a, k, v).t2, Entry(k, v));
  }

  /** A hit changes only where the entry is: nothing is evicted, as long as the cache is within its size. */
  lemma HitEffect<K(!new), V(!new)>(a: Arc<K, V>, k: K, v: V)
    requires Inv(a) && (k in Keys(a.t1) || k in Keys(a.t2))
    ensures var r := Add(a, k, v);
            && r.b1 == a.b1 && r.b2 == a.b2 && r.p == a.p && r.size == a.size
            && r.t1 == Without(a.t1, k) && r.t2 == Cut([Entry(k, v)] + Without(a.t2, k), a.size)
    ensures Residents(a) <= a.size ==>
              Keys(Add(a, k, v).t1) + Keys(Add(a, k, v).t2) == Keys(a.t1) + Keys(a.t2)
  {
    hide Without, Distinct;
    WithoutDistinct(a.t1, k);
    WithoutDistinct(a.t2, k);
    AddedKeys(a.t2, a.size, k, v);
  }

  /** A ghost hit replaces an entry if the cache is full, on the moved target, and lets nothing else go. */
  lemma GhostHitEffect<K(!new), V(!new)>(a: Arc<K, V>, k: K, v: V)
    requires Inv(a) && k !in Keys(a.t1) && k !in Keys(a.t2) && (k in Keys(a.b1) || k in Keys(a.b2))
    ensures var r := Add(a, k, v);
            var m := AfterRoom(a.(p := r.p), k in Keys(a.b2));
            && r.size == a.size && r.t1 == m.t1 && r.t2 == Cut([Entry(k, v)] + m.t2, a.size)
            && r.b1 == Without(m.b1, k) && r.b2 == Without(m.b2, k)
  {
    hide Without, Added, Distinct, Replace;
    var inB1 := k in Keys(a.b1);
    assert inB1 <==> k !in Keys(a.b2);
    var start := a.(p := if inB1 then Raised(a) else Lowered(a));
    var m := MakeRoom(start, !inB1);
    ReplaceKeeps(start, !inB1);
    assert Add(a, k, v) == Readmit(m, k, v);
    NewInFront(m.t2, a.size, k, v);
  }

  /** A full cache replaces an entry, any other one does not. */
  function AfterRoom<K(==,!new), V(!new)>(a: Arc<K, V>, b2ContainsKey: bool): Arc<K, V> {
    if |a.t1| + |a.t2| >= a.size then Replace(a, b2ContainsKey) else a
  }

  /** A miss replaces an entry if the cache is full, trims at most the oldest ghost of each list, and puts the key first in t1. */
  lemma MissEffect<K(!new), V(!new)>(a: Arc<K, V>, k: K, v: V)
    requires Inv(a) && k !in Keys(a.t1) && k !in Keys(a.t2) && k !in Keys(a.b1) && k !in Keys(a.b2)
    ensures var r := Add(a, k, v);
            var m := AfterRoom(a, false);
            && r.size == a.size && r.p == a.p && r.t2 == m.t2 && r.t1 == Cut([Entry(k, v)] + m.t1, a.size)
            && r.b1 == (if |m.b1| > a.size - a.p then m.b1[..|m.b1| - 1] else m.b1)
            && r.b2 == (if |m.b2| > a.p then m.b2[..|m.b2| - 1] else m.b2)
  {
    hide Added, Distinct, Replace;
    var m := AfterRoom(a, false);
    ReplaceKeeps(a, false);
    NewInFront(m.t1, a.size, k, v);
  }

  /** With room, Add evicts nothing. */
  lemma RoomMeansNoEviction<K(!new), V(!new)>(a: Arc<K, V>, k: K, v: V)
    requires Inv(a) && Residents(a) < a.size
    ensures var r := Add(a, k, v); Keys(r.t1) + Keys(r.t2) == Keys(a.t1) + Keys(a.t2) + {k}
  {
    hide Added, Distinct, Replace;
    if k in Keys(a.t1) || k in Keys(a.t2) {
      HitEffect(a, k, v);
    } else if k in Keys(a.b1) || k in Keys(a.b2) {
      GhostHitEffect(a, k, v);
      KeysCons(Entry(k, v), a.t2);
    } else {
      MissEffect(a, k, v);
      KeysCons(Entry(k, v), a.t1);
    }
  }

  // ---- Get ----

  /** A lookup changes only where the entry it finds is: first in t2. */
  lemma GetEffect<K(!new), V(!new)>(a: Arc<K, V>, k: K)
    requires Inv(a)
    ensures var r := Get(a, k);
            && r.b1 == a.b1 && r.b2 == a.b2 && r.p == a.p && r.size == a.size
            && (Peek(a, k).Some? ==>
                  && r.t1 == Without(a.t1, k)
                  && r.t2 == Cut([Entry(k, Peek(a, k).value)] + Without(a.t2, k), a.size))
            && (Peek(a, k).None? ==> r == a)
  {
    hide Distinct;
    WithoutDistinct(a.t2, k);
    if k in Keys(a.t1) {
      NewInFront(a.t2, a.size, k, Lookup(a.t1, k).value);
    }
  }
}
