/** What simplelru holds after any run of lookups and additions: the most recently used keys, and nothing else. */
module LruRuns {
  import opened Options
  import opened Recency

  datatype Op<K, V> = AddOp(key: K, value: V) | GetOp(key: K)

  function Step<K(==,!new), V(!new)>(s: seq<Entry<K, V>>, size: nat, op: Op<K, V>): seq<Entry<K, V>> {
    match op
    case AddOp(k, v) => Added(s, size, k, v)
    case GetOp(k) => Touched(s, k)
  }

  /** The list after the operations, the latest of which is the last of ops. */
  function Run<K(==,!new), V(!new)>(size: nat, ops: seq<Op<K, V>>): seq<Entry<K, V>> {
    if ops == [] then [] else Step(Run(size, ops[..|ops| - 1]), size, ops[|ops| - 1])
  }

  /** The keys used, in order: every addition, and every lookup that found its key. */
  function Uses<K(==,!new), V(!new)>(size: nat, ops: seq<Op<K, V>>): seq<K> {
    if ops == [] then []
    else
      var before := ops[..|ops| - 1];
      var op := ops[|ops| - 1];
      Uses(size, before) + if op.AddOp? || Has(Run(size, before), op.key) then [op.key] else []
  }

  function WithoutKey<K(==)>(ks: seq<K>, k: K): seq<K> {
    if ks == [] then [] else (if ks[0] == k then [] else [ks[0]]) + WithoutKey(ks[1..], k)
  }

  /** The distinct keys of a sequence of uses, latest use first. */
  function LatestFirst<K(==)>(uses: seq<K>): seq<K> {
    if uses == [] then []
    else
      var k := uses[|uses| - 1];
      [k] + WithoutKey(LatestFirst(uses[..|uses| - 1]), k)
  }

  function Prefix<T>(s: seq<T>, n: nat): seq<T> {
    if |s| <= n then s else s[..n]
  }

  function KeySeq<K(!new), V(!new)>(s: seq<Entry<K, V>>): (ks: seq<K>)
    ensures |ks| == |s| && forall i :: 0 <= i < |s| ==> ks[i] == s[i].key
  {
    seq(|s|, i requires 0 <= i < |s| => s[i].key)
  }

  ghost predicate NoDuplicates<K(!new)>(ks: seq<K>) {
    forall i, j :: 0 <= i < j < |ks| ==> ks[i] != ks[j]
  }

  // ---- Removing a key from a sequence ----

  lemma {:induction false} WithoutAbsent<K(!new)>(ks: seq<K>, k: K)
    requires k !in ks
    ensures WithoutKey(ks, k) == ks
  {
    if ks != [] {
      WithoutAbsent(ks[1..], k);
    }
  }

  lemma {:induction false} WithoutAt<K(!new)>(ks: seq<K>, i: nat)
    requires NoDuplicates(ks) && i < |ks|
    ensures WithoutKey(ks, ks[i]) == ks[..i] + ks[i + 1..]
  {
    if i == 0 {
      WithoutAbsent(ks[1..], ks[0]);
    } else {
      WithoutAt(ks[1..], i - 1);
      assert ks[..i] == [ks[0]] + ks[1..][..i - 1];
    }
  }

  lemma WithoutNoDuplicates<K(!new)>(ks: seq<K>, k: K)
    requires NoDuplicates(ks)
    ensures NoDuplicates(WithoutKey(ks, k)) && k !in WithoutKey(ks, k)
  {
    if k in ks {
      var i :| 0 <= i < |ks| && ks[i] == k;
      WithoutAt(ks, i);
    } else {
      WithoutAbsent(ks, k);
    }
  }

  lemma {:induction false} LatestNoDuplicates<K(!new)>(uses: seq<K>)
    ensures NoDuplicates(LatestFirst(uses))
  {
    if uses != [] {
      LatestNoDuplicates(uses[..|uses| - 1]);
      WithoutNoDuplicates(LatestFirst(uses[..|uses| - 1]), uses[|uses| - 1]);
    }
  }

  lemma {:induction false} KeysWithout<K(!new), V(!new)>(s: seq<Entry<K, V>>, k: K)
    ensures KeySeq(Without(s, k)) == WithoutKey(KeySeq(s), k)
  {
    if s != [] {
      KeysWithout(s[1..], k);
      assert KeySeq(s)[1..] == KeySeq(s[1..]);
    }
  }

  /** Moving a key to the front commutes with keeping the first n keys. */
  lemma FrontOfPrefix<K(!new)>(all: seq<K>, n: nat, k: K)
    requires NoDuplicates(all) && n >= 1
    ensures var kept := Prefix(all, n);
            && Prefix([k] + WithoutKey(all, k), n)
               == (if k in kept then [k] + WithoutKey(kept, k) else Prefix([k] + kept, n))
  {
    var kept := Prefix(all, n);
    hide WithoutKey;
    if k in all {
      var i :| 0 <= i < |all| && all[i] == k;
      WithoutAt(all, i);
      if i < |kept| {
        assert kept[i] == k;
        WithoutAt(kept, i);
      } else {
        assert k !in kept;
        assert (all[..i] + all[i + 1..])[..n - 1] == kept[..n - 1];
      }
    } else {
      WithoutAbsent(all, k);
    }
  }

  lemma HasIsMember<K(!new), V(!new)>(s: seq<Entry<K, V>>, k: K)
    ensures Has(s, k) <==> k in KeySeq(s)
  {
    if k in KeySeq(s) {
      var i :| 0 <= i < |s| && KeySeq(s)[i] == k;
      assert s[i].key == k;
    }
  }

  lemma AddedKeySeq<K(!new), V(!new)>(s: seq<Entry<K, V>>, size: nat, k: K, v: V)
    requires |s| <= size
    ensures var ks := KeySeq(s);
            KeySeq(Added(s, size, k, v)) == if k in ks then [k] + WithoutKey(ks, k) else Prefix([k] + ks, size)
  {
    hide Without, Keys;
    HasIsMember(s, k);
    KeysWithout(s, k);
  }

  lemma TouchedKeySeq<K(!new), V(!new)>(s: seq<Entry<K, V>>, k: K)
    ensures var ks := KeySeq(s);
            KeySeq(Touched(s, k)) == if k in ks then [k] + WithoutKey(ks, k) else ks
  {
    hide Without, Keys, Lookup;
    HasIsMember(s, k);
    KeysWithout(s, k);
  }

  /** What one operation does to the sequence of keys. */
  lemma StepKeys<K(!new), V(!new)>(s: seq<Entry<K, V>>, size: nat, op: Op<K, V>)
    requires |s| <= size
    ensures var ks := KeySeq(s);
            var k := op.key;
            && (Has(s, k) <==> k in ks)
            && KeySeq(Step(s, size, op))
               == (if k in ks then [k] + WithoutKey(ks, k) else if op.AddOp? then Prefix([k] + ks, size) else ks)
  {
    hide Added, Touched, Has;
    HasIsMember(s, op.key);
    match op {
      case AddOp(k, v) => AddedKeySeq(s, size, k, v);
      case GetOp(k) => TouchedKeySeq(s, k);
    }
  }

  lemma UsesStep<K(!new), V(!new)>(size: nat, ops: seq<Op<K, V>>)
    requires ops != []
    ensures var before := ops[..|ops| - 1];
            var op := ops[|ops| - 1];
            && LatestFirst(Uses(size, ops))
               == (if op.AddOp? || Has(Run(size, before), op.key)
                   then [op.key] + WithoutKey(LatestFirst(Uses(size, before)), op.key)
                   else LatestFirst(Uses(size, before)))
  {
    var before := ops[..|ops| - 1];
    var op := ops[|ops| - 1];
    if op.AddOp? || Has(Run(size, before), op.key) {
      assert Uses(size, ops)[..|Uses(size, ops)| - 1] == Uses(size, before);
    } else {
      assert Uses(size, ops) == Uses(size, before);
    }
  }

  /** After any run the list holds exactly the size most recently used distinct keys, latest first. */
  lemma {:induction false} HoldsMostRecent<K(!new), V(!new)>(size: nat, ops: seq<Op<K, V>>)
    requires size >= 1
    ensures KeySeq(Run(size, ops)) == Prefix(LatestFirst(Uses(size, ops)), size)
    decreases |ops|
  {
    hide Step, Uses, LatestFirst, WithoutKey, Has;
    if ops == [] {
      NothingUsed<K, V>(size);
    } else {
      var before := ops[..|ops| - 1];
      HoldsMostRecent(size, before);
      LatestNoDuplicates(Uses(size, before));
      FrontOfPrefix(LatestFirst(Uses(size, before)), size, ops[|ops| - 1].key);
      StepKeys(Run(size, before), size, ops[|ops| - 1]);
      UsesStep(size, ops);
    }
  }

  lemma NothingUsed<K(!new), V(!new)>(size: nat)
    ensures Prefix(LatestFirst(Uses<K, V>(size, [])), size) == []
  {
  }
}
