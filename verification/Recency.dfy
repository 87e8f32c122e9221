/** Recency lists: the contents of an LRU cache, most recently used entry first. */
module Recency {
  import opened Options

  datatype Entry<+K, +V> = Entry(key: K, value: V)

  ghost function Keys<K(!new), V(!new)>(s: seq<Entry<K, V>>): set<K> {
    set i | 0 <= i < |s| :: s[i].key
  }

  ghost predicate Distinct<K(!new), V(!new)>(s: seq<Entry<K, V>>) {
    forall i, j :: 0 <= i < j < |s| ==> s[i].key != s[j].key
  }

  predicate Has<K(==,!new), V(!new)>(s: seq<Entry<K, V>>, k: K)
    ensures Has(s, k) <==> k in Keys(s)
  {
    exists i :: 0 <= i < |s| && s[i].key == k
  }

  function Lookup<K(==,!new), V(!new)>(s: seq<Entry<K, V>>, k: K): (r: Option<V>)
    ensures r.Some? <==> k in Keys(s)
    ensures r.Some? ==> Entry(k, r.value) in s
  {
    if s == [] then None
    else if s[0].key == k then Some(s[0].value)
    else
      var r := Lookup(s[1..], k);
      assert Keys(s) == {s[0].key} + Keys(s[1..]);
      r
  }

  /** The list without the entry of k. */
  function Without<K(==,!new), V(!new)>(s: seq<Entry<K, V>>, k: K): (r: seq<Entry<K, V>>)
    ensures Keys(r) == Keys(s) - {k}
    ensures forall e :: e in r <==> e in s && e.key != k
    ensures |r| <= |s| && (k !in Keys(s) ==> r == s)
  {
    if s == [] then []
    else
      assert s == [s[0]] + s[1..];
      assert Keys(s) == {s[0].key} + Keys(s[1..]);
      var rest := Without(s[1..], k);
      if s[0].key == k then rest
      else
        assert Keys([s[0]] + rest) == {s[0].key} + Keys(rest) by { KeysCons(s[0], rest); }
        [s[0]] + rest
  }

  lemma KeysCons<K(!new), V(!new)>(e: Entry<K, V>, s: seq<Entry<K, V>>)
    ensures Keys([e] + s) == {e.key} + Keys(s)
  {
    var t := [e] + s;
    assert forall i :: 0 <= i < |s| ==> t[i + 1] == s[i];
    assert t[0].key == e.key;
  }

  lemma {:induction false} WithoutDistinct<K(!new), V(!new)>(s: seq<Entry<K, V>>, k: K)
    requires Distinct(s)
    ensures Distinct(Without(s, k))
    ensures |Without(s, k)| == |s| - if k in Keys(s) then 1 else 0
  {
    if s != [] {
      WithoutDistinct(s[1..], k);
      var rest := Without(s[1..], k);
      assert Keys(s) == {s[0].key} + Keys(s[1..]) by { KeysCons(s[0], s[1..]); assert s == [s[0]] + s[1..]; }
      assert s[0].key !in Keys(s[1..]);
      if s[0].key != k {
        ConsDistinct(s[0], rest);
      }
    }
  }

  lemma ConsDistinct<K(!new), V(!new)>(e: Entry<K, V>, s: seq<Entry<K, V>>)
    requires Distinct(s) && e.key !in Keys(s)
    ensures Distinct([e] + s) && Keys([e] + s) == {e.key} + Keys(s)
  {
    KeysCons(e, s);
  }

  lemma MemberKey<K(!new), V(!new)>(s: seq<Entry<K, V>>, e: Entry<K, V>)
    requires e in s
    ensures e.key in Keys(s)
  {
  }

  lemma LookupUnique<K(!new), V(!new)>(s: seq<Entry<K, V>>, e: Entry<K, V>)
    requires Distinct(s) && e in s
    ensures Lookup(s, e.key) == Some(e.value)
  {
    var r := Lookup(s, e.key);
    MemberKey(s, e);
    var i :| 0 <= i < |s| && s[i] == e;
    var j :| 0 <= j < |s| && s[j] == Entry(e.key, r.value);
  }

  /** Removing a key cuts its entry out and leaves the order of the others. */
  lemma {:induction false} WithoutCuts<K(!new), V(!new)>(s: seq<Entry<K, V>>, i: nat)
    requires Distinct(s) && i < |s|
    ensures Without(s, s[i].key) == s[..i] + s[i + 1..]
    decreases i
  {
    var rest := s[1..];
    if i == 0 {
      WithoutDistinct(rest, s[0].key);
      forall j | 0 <= j < |rest| ensures rest[j].key != s[0].key {
        assert s[j + 1] == rest[j];
      }
      assert s[0].key !in Keys(rest);
    } else {
      WithoutCuts(rest, i - 1);
      assert rest[i - 1] == s[i];
      assert s[..i] == [s[0]] + rest[..i - 1] && s[i + 1..] == rest[i..];
    }
  }

  // ---- What an LRU of limited size does to its list ----

  /** The list after Add: the entry comes first, and the last one falls off a list that got too long. */
  function Added<K(==,!new), V(!new)>(s: seq<Entry<K, V>>, size: int, k: K, v: V): seq<Entry<K, V>> {
    if Has(s, k) then [Entry(k, v)] + Without(s, k)
    else if |s| + 1 > size then ([Entry(k, v)] + s)[..|s|]
    else [Entry(k, v)] + s
  }

  /** At most n entries of the list, the first ones. */
  function Cut<T>(s: seq<T>, n: nat): seq<T> {
    if |s| <= n then s else s[..n]
  }

  /** A key the list does not have comes in front, and the last entry falls off a full list. */
  lemma NewInFront<K(!new), V(!new)>(s: seq<Entry<K, V>>, size: nat, k: K, v: V)
    requires k !in Keys(s) && |s| <= size
    ensures Added(s, size, k, v) == Cut([Entry(k, v)] + s, size)
  {
  }

  /** The list after a successful lookup that counts as a use. */
  function Touched<K(==,!new), V(!new)>(s: seq<Entry<K, V>>, k: K): seq<Entry<K, V>> {
    match Lookup(s, k)
    case None => s
    case Some(v) => [Entry(k, v)] + Without(s, k)
  }

  function DropLast<K(!new), V(!new)>(s: seq<Entry<K, V>>): seq<Entry<K, V>> {
    if s == [] then [] else s[..|s| - 1]
  }

  /** The last n entries, last one first: the order in which n evictions take them. */
  function LastFirst<K(!new), V(!new)>(s: seq<Entry<K, V>>, n: nat): (r: seq<Entry<K, V>>)
    requires n <= |s|
    ensures |r| == n
  {
    if n == 0 then [] else [s[|s| - 1]] + LastFirst(s[..|s| - 1], n - 1)
  }

  lemma {:induction false} DropLastKeys<K(!new), V(!new)>(s: seq<Entry<K, V>>)
    requires Distinct(s) && s != []
    ensures Distinct(DropLast(s)) && Keys(DropLast(s)) == Keys(s) - {s[|s| - 1].key}
  {
    var d := DropLast(s);
    forall k | k in Keys(s) && k != s[|s| - 1].key ensures k in Keys(d) {
      var i :| 0 <= i < |s| && s[i].key == k;
      assert d[i].key == k;
    }
  }

  /** What Add keeps and what it lets go. */
  lemma AddedKeys<K(!new), V(!new)>(s: seq<Entry<K, V>>, size: int, k: K, v: V)
    requires Distinct(s) && |s| <= size && size >= 1
    ensures var t := Added(s, size, k, v);
            && Distinct(t) && |t| <= size && t != [] && t[0] == Entry(k, v)
            && (k in Keys(s) ==> Keys(t) == Keys(s) && |t| == |s|)
            && (k !in Keys(s) && |s| < size ==> Keys(t) == Keys(s) + {k} && |t| == |s| + 1)
            && (k !in Keys(s) && |s| == size ==> Keys(t) == Keys(s) + {k} - {s[|s| - 1].key} && |t| == |s|)
            && (forall e :: e in t ==> e == Entry(k, v) || (e in s && e.key != k))
  {
    var e := Entry(k, v);
    if k in Keys(s) {
      WithoutDistinct(s, k);
      ConsDistinct(e, Without(s, k));
    } else {
      ConsDistinct(e, s);
      if |s| == size {
        DropLastKeys([e] + s);
        assert Added(s, size, k, v) == DropLast([e] + s);
      }
      forall x | x in s ensures x.key != k {
        MemberKey(s, x);
      }
    }
  }

  lemma TouchedKeys<K(!new), V(!new)>(s: seq<Entry<K, V>>, k: K)
    requires Distinct(s)
    ensures Distinct(Touched(s, k)) && Keys(Touched(s, k)) == Keys(s) && |Touched(s, k)| == |s|
    ensures forall e :: e in Touched(s, k) <==> e in s
  {
    var r := Lookup(s, k);
    if r.Some? {
      WithoutDistinct(s, k);
      ConsDistinct(Entry(k, r.value), Without(s, k));
      forall e | e in s && e.key == k ensures e == Entry(k, r.value) {
        LookupUnique(s, e);
      }
    }
  }

  // ---- A list and the map into it ----

  /** The map holds exactly the entries of the list, each under its key. */
  ghost predicate Matches<K(!new), V(!new)>(s: seq<Entry<K, V>>, m: map<K, Entry<K, V>>) {
    && Distinct(s)
    && m.Keys == Keys(s)
    && forall e :: e in s ==> m[e.key] == e
  }

  lemma MatchesLookup<K(!new), V(!new)>(s: seq<Entry<K, V>>, m: map<K, Entry<K, V>>, k: K)
    requires Matches(s, m)
    ensures k in m <==> k in Keys(s)
    ensures k in m ==> m[k] in s && m[k].key == k && Lookup(s, k) == Some(m[k].value)
  {
    if k in m {
      var i :| 0 <= i < |s| && s[i].key == k;
      assert s[i] in s;
      LookupUnique(s, s[i]);
    }
  }

  lemma MatchesWithout<K(!new), V(!new)>(s: seq<Entry<K, V>>, m: map<K, Entry<K, V>>, k: K)
    requires Matches(s, m)
    ensures Matches(Without(s, k), m - {k})
    ensures |Without(s, k)| == |s| - if k in m then 1 else 0
  {
    WithoutDistinct(s, k);
  }

  lemma MatchesCons<K(!new), V(!new)>(s: seq<Entry<K, V>>, m: map<K, Entry<K, V>>, e: Entry<K, V>)
    requires Matches(s, m) && e.key !in m
    ensures Matches([e] + s, m[e.key := e])
  {
    ConsDistinct(e, s);
    forall x | x in s ensures x.key != e.key {
      MemberKey(s, x);
    }
  }

  lemma MatchesDropLast<K(!new), V(!new)>(s: seq<Entry<K, V>>, m: map<K, Entry<K, V>>)
    requires Matches(s, m) && s != []
    ensures Matches(DropLast(s), m - {s[|s| - 1].key})
  {
    DropLastKeys(s);
  }

  /** calls lists, once each, exactly the entries of s that are not in left. */
  ghost predicate Called<K(!new), V(!new)>(s: seq<Entry<K, V>>, left: seq<Entry<K, V>>, calls: seq<Entry<K, V>>) {
    && Distinct(calls) && Keys(calls) !! Keys(left)
    && forall e :: e in s <==> e in calls || e in left
  }

  lemma CalledStep<K(!new), V(!new)>(s: seq<Entry<K, V>>, left: seq<Entry<K, V>>, calls: seq<Entry<K, V>>,
                                     m: map<K, Entry<K, V>>, k: K)
    requires Matches(left, m) && k in m && Called(s, left, calls)
    ensures Called(s, Without(left, k), calls + [m[k]])
    ensures Matches(Without(left, k), m - {k})
  {
    MatchesLookup(left, m, k);
    MatchesWithout(left, m, k);
    var next := calls + [m[k]];
    assert next[|calls|] == m[k];
    assert forall i :: 0 <= i < |calls| ==> next[i] == calls[i];
    assert Keys(next) == Keys(calls) + {k};
    forall e | e in left && e.key == k ensures e == m[k] {
    }
  }

  lemma CalledNone<K(!new), V(!new)>(s: seq<Entry<K, V>>)
    ensures Called(s, s, [])
    ensures Matches<K, V>([], map[])
  {
  }

  lemma CalledAll<K(!new), V(!new)>(s: seq<Entry<K, V>>, left: seq<Entry<K, V>>, calls: seq<Entry<K, V>>,
                                    m: map<K, Entry<K, V>>)
    requires Matches(left, m) && m == map[] && Called(s, left, calls)
    ensures Distinct(calls) && forall e :: e in calls <==> e in s
    ensures Matches<K, V>([], m)
  {
    if left != [] {
      MemberKey(left, left[0]);
    }
  }
}
