/** groupcache's consistenthash.Map: nodes own points on a ring, keys go to the next point at or after their hash. */
module ConsistentHash {

  type Hash = string -> nat

  /** strconv.Itoa on a replica number. */
  function Itoa(n: nat): string {
    if n < 10 then [Digit(n)] else Itoa(n / 10) + [Digit(n % 10)]
  }

  function Digit(n: nat): char
    requires n < 10
  {
    "0123456789"[n]
  }

  /** The point of a node's i-th replica. */
  function Point(hash: Hash, i: nat, node: string): nat {
    hash(Itoa(i) + node)
  }

  // ---- Numerals ----

  predicate IsDigit(c: char) {
    '0' <= c <= '9'
  }

  /** The number that a string of digits denotes. */
  function ValueOf(s: string): nat
    requires forall i :: 0 <= i < |s| ==> IsDigit(s[i])
  {
    if s == [] then 0
    else
      assert IsDigit(s[|s| - 1]);
      10 * ValueOf(s[..|s| - 1]) + (s[|s| - 1] as int - '0' as int)
  }

  /** The decimal numeral of n: digits only, no leading zero. */
  predicate IsNumeral(s: string, n: nat) {
    && s != [] && (forall i :: 0 <= i < |s| ==> IsDigit(s[i]))
    && (s[0] == '0' ==> |s| == 1)
    && ValueOf(s) == n
  }

  lemma {:induction false} ItoaIsNumeral(n: nat)
    ensures IsNumeral(Itoa(n), n) && (n > 0 ==> Itoa(n)[0] != '0')
  {
    if n >= 10 {
      ItoaIsNumeral(n / 10);
      var s := Itoa(n);
      assert s[..|s| - 1] == Itoa(n / 10);
    } else {
      assert Itoa(n)[..0] == "";
    }
  }

  /** The points of a node's replicas are the hashes of decimal numerals, each put before the node's name. */
  lemma PointIsHashOfName(hash: Hash, i: nat, node: string) returns (numeral: string)
    ensures IsNumeral(numeral, i) && Point(hash, i, node) == hash(numeral + node)
  {
    ItoaIsNumeral(i);
    numeral := Itoa(i);
  }

  /** So the replicas of one node are hashed under different names. */
  lemma ReplicaNamesDiffer(i: nat, j: nat, node: string)
    requires i != j
    ensures Itoa(i) + node != Itoa(j) + node
  {
    if Itoa(i) + node == Itoa(j) + node {
      SamePrefix(Itoa(i), Itoa(j), node);
      ItoaIsNumeral(i);
      ItoaIsNumeral(j);
    }
  }

  lemma SamePrefix(a: string, b: string, rest: string)
    requires a + rest == b + rest
    ensures a == b
  {
    assert |a| == |b|;
    assert (a + rest)[..|a|] == a && (b + rest)[..|b|] == b;
  }

  type Owners = map<nat, string>

  /** The inner loop of Add: the node takes over each of its points. */
  function AddNode(m: Owners, hash: Hash, replicas: nat, node: string): Owners {
    if replicas == 0 then m
    else AddNode(m, hash, replicas - 1, node)[Point(hash, replicas - 1, node) := node]
  }

  function AddNodes(m: Owners, hash: Hash, replicas: nat, nodes: seq<string>): Owners {
    if nodes == [] then m
    else AddNode(AddNodes(m, hash, replicas, nodes[..|nodes| - 1]), hash, replicas, nodes[|nodes| - 1])
  }

  ghost predicate HasPoint(hash: Hash, replicas: nat, node: string, q: nat) {
    exists i :: 0 <= i < replicas && Point(hash, i, node) == q
  }

  /** The smallest point at or after h, or the smallest of all when there is none. */
  ghost predicate IsSuccessor(points: set<nat>, h: nat, p: nat) {
    && p in points
    && if p >= h then forall q :: q in points && q >= h ==> p <= q
       else forall q :: q in points ==> p <= q < h
  }

  lemma SuccessorUnique(points: set<nat>, h: nat, p: nat, q: nat)
    requires IsSuccessor(points, h, p) && IsSuccessor(points, h, q)
    ensures p == q
  {
  }

  // ---- Points after Add ----

  lemma {:induction false} AddNodePoints(m: Owners, hash: Hash, replicas: nat, node: string, q: nat)
    ensures var t := AddNode(m, hash, replicas, node);
            && (q in t <==> q in m || HasPoint(hash, replicas, node, q))
            && (q in t ==> t[q] == if HasPoint(hash, replicas, node, q) then node else m[q])
  {
    if replicas > 0 {
      AddNodePoints(m, hash, replicas - 1, node, q);
      if Point(hash, replicas - 1, node) == q {
        assert HasPoint(hash, replicas, node, q);
      }
    }
  }

  /** Every point keeps its owner or goes to one of the added nodes, and no point disappears. */
  lemma {:induction false} AddNodesPoints(m: Owners, hash: Hash, replicas: nat, nodes: seq<string>, q: nat)
    ensures var t := AddNodes(m, hash, replicas, nodes);
            && (q in m ==> q in t)
            && (q in t ==> t[q] in nodes || (q in m && t[q] == m[q]))
  {
    if nodes != [] {
      var before := nodes[..|nodes| - 1];
      AddNodesPoints(m, hash, replicas, before, q);
      AddNodePoints(AddNodes(m, hash, replicas, before), hash, replicas, nodes[|nodes| - 1], q);
    }
  }

  /** Adding nodes to a non-empty ring moves a key only to one of the added nodes, collisions or not. */
  lemma AddMovesOnlyToAdded(m: Owners, hash: Hash, replicas: nat, nodes: seq<string>, h: nat, p: nat, p': nat)
    requires IsSuccessor(m.Keys, h, p)
    requires IsSuccessor(AddNodes(m, hash, replicas, nodes).Keys, h, p')
    ensures var t := AddNodes(m, hash, replicas, nodes);
            t[p'] in nodes || t[p'] == m[p]
  {
    var t := AddNodes(m, hash, replicas, nodes);
    forall q | q in m ensures q in t {
      AddNodesPoints(m, hash, replicas, nodes, q);
    }
    AddNodesPoints(m, hash, replicas, nodes, p');
    if t[p'] !in nodes {
      assert IsSuccessor(m.Keys, h, p');
      SuccessorUnique(m.Keys, h, p, p');
    }
  }

  /** One Add of two lists is two Adds. */
  lemma {:induction false} AddTwice(m: Owners, hash: Hash, replicas: nat, a: seq<string>, b: seq<string>)
    ensures AddNodes(AddNodes(m, hash, replicas, a), hash, replicas, b) == AddNodes(m, hash, replicas, a + b)
    decreases |b|
  {
    if b == [] {
      assert a + b == a;
    } else {
      AddTwice(m, hash, replicas, a, b[..|b| - 1]);
      assert (a + b)[..|a + b| - 1] == a + b[..|b| - 1];
    }
  }

  // ---- Collisions ----

  /** Two nodes share a point of the ring. */
  ghost predicate Collide(hash: Hash, replicas: nat, a: string, b: string) {
    exists q :: HasPoint(hash, replicas, a, q) && HasPoint(hash, replicas, b, q)
  }

  /** Names that differ by a leading digit d share a point under every hash function: replica 1d of one is replica 1 of the other. */
  lemma DigitNamesCollide(hash: Hash, replicas: nat, d: nat, name: string)
    requires d < 10 && replicas > 10 + d
    ensures Collide(hash, replicas, name, [Digit(d)] + name)
  {
    assert Itoa(10 + d) == Itoa(1) + [Digit(d)];
    assert Itoa(10 + d) + name == Itoa(1) + ([Digit(d)] + name);
    assert HasPoint(hash, replicas, name, Point(hash, 10 + d, name));
    assert HasPoint(hash, replicas, [Digit(d)] + name, Point(hash, 1, [Digit(d)] + name));
  }

  /** The order in which two nodes are added matters exactly when they share a point. */
  lemma OrderMattersIff(m: Owners, hash: Hash, replicas: nat, a: string, b: string)
    requires a != b
    ensures AddNodes(m, hash, replicas, [a, b]) == AddNodes(m, hash, replicas, [b, a])
            <==> !Collide(hash, replicas, a, b)
  {
    var ab := AddNode(AddNode(m, hash, replicas, a), hash, replicas, b);
    var ba := AddNode(AddNode(m, hash, replicas, b), hash, replicas, a);
    TwoNodes(m, hash, replicas, a, b);
    TwoNodes(m, hash, replicas, b, a);
    forall q
      ensures q in ab <==> q in ba
      ensures q in ab && !(HasPoint(hash, replicas, a, q) && HasPoint(hash, replicas, b, q)) ==> ab[q] == ba[q]
    {
      AddNodePoints(m, hash, replicas, a, q);
      AddNodePoints(m, hash, replicas, b, q);
      AddNodePoints(AddNode(m, hash, replicas, a), hash, replicas, b, q);
      AddNodePoints(AddNode(m, hash, replicas, b), hash, replicas, a, q);
    }
    if Collide(hash, replicas, a, b) {
      var q :| HasPoint(hash, replicas, a, q) && HasPoint(hash, replicas, b, q);
      AddNodePoints(AddNode(m, hash, replicas, a), hash, replicas, b, q);
      AddNodePoints(AddNode(m, hash, replicas, b), hash, replicas, a, q);
      assert ab[q] == b && ba[q] == a;
    } else {
      assert forall q :: HasPoint(hash, replicas, a, q) ==> !HasPoint(hash, replicas, b, q);
    }
  }

  lemma TwoNodes(m: Owners, hash: Hash, replicas: nat, a: string, b: string)
    ensures AddNodes(m, hash, replicas, [a, b]) == AddNode(AddNode(m, hash, replicas, a), hash, replicas, b)
  {
    hide AddNode;
    var none: seq<string> := [];
    assert [a, b][..1] == [a] && [a][..0] == none;
    assert AddNodes(m, hash, replicas, none) == m;
    assert AddNodes(m, hash, replicas, [a]) == AddNode(m, hash, replicas, a);
  }

  /** Without collisions among the nodes, the ring depends only on which nodes were added. */
  lemma OrderIrrelevant(hash: Hash, replicas: nat, xs: seq<string>, ys: seq<string>)
    requires forall n :: n in xs <==> n in ys
    requires forall a, b :: a in xs && b in xs && a != b ==> !Collide(hash, replicas, a, b)
    ensures AddNodes(map[], hash, replicas, xs) == AddNodes(map[], hash, replicas, ys)
  {
    var mx, my := AddNodes(map[], hash, replicas, xs), AddNodes(map[], hash, replicas, ys);
    forall q
      ensures q in mx <==> q in my
      ensures q in mx ==> mx[q] == my[q]
    {
      OwnerIsHolder(hash, replicas, xs, q);
      OwnerIsHolder(hash, replicas, ys, q);
      if q in mx && q in my && mx[q] != my[q] {
        assert Collide(hash, replicas, mx[q], my[q]);
      }
    }
  }

  /** In a ring built from nothing, the points are those of the nodes, and each is owned by a node that has it. */
  lemma {:induction false} OwnerIsHolder(hash: Hash, replicas: nat, nodes: seq<string>, q: nat)
    ensures var t := AddNodes(map[], hash, replicas, nodes);
            && (q in t <==> exists n :: n in nodes && HasPoint(hash, replicas, n, q))
            && (q in t ==> t[q] in nodes && HasPoint(hash, replicas, t[q], q))
  {
    if nodes != [] {
      var before, last := nodes[..|nodes| - 1], nodes[|nodes| - 1];
      assert nodes == before + [last];
      OwnerIsHolder(hash, replicas, before, q);
      AddNodePoints(AddNodes(map[], hash, replicas, before), hash, replicas, last, q);
    }
  }

  // ---- Sorting ----

  ghost predicate Sorted(s: seq<nat>) {
    forall i, j :: 0 <= i < j < |s| ==> s[i] <= s[j]
  }

  function InsertSorted(s: seq<nat>, x: nat): (r: seq<nat>)
    ensures multiset(r) == multiset(s) + multiset{x}
  {
    if s == [] || x <= s[0] then [x] + s
    else
      assert s == [s[0]] + s[1..];
      [s[0]] + InsertSorted(s[1..], x)
  }

  lemma {:induction false} InsertSortedSorts(s: seq<nat>, x: nat)
    requires Sorted(s)
    ensures Sorted(InsertSorted(s, x))
  {
    if s != [] && x > s[0] {
      var rest := InsertSorted(s[1..], x);
      InsertSortedSorts(s[1..], x);
      forall j | 0 <= j < |rest| ensures s[0] <= rest[j] {
        assert rest[j] in multiset(rest);
        assert rest[j] in s[1..] || rest[j] == x;
      }
    }
  }

  /** sort.Ints, by what it promises. */
  function SortInts(s: seq<nat>): (r: seq<nat>)
    ensures Sorted(r) && multiset(r) == multiset(s)
  {
    if s == [] then []
    else
      assert s == s[..|s| - 1] + [s[|s| - 1]];
      InsertSortedSorts(SortInts(s[..|s| - 1]), s[|s| - 1]);
      InsertSorted(SortInts(s[..|s| - 1]), s[|s| - 1])
  }

  ghost function Elements(s: seq<nat>): set<nat> {
    set x | x in s
  }

  class Map {
    const hash: Hash
    const replicas: int
    var keys: seq<nat>
    var hashMap: Owners

    /** The sorted points are the points that have an owner. */
    ghost predicate Valid()
      reads this
    {
      Sorted(keys) && Elements(keys) == hashMap.Keys
    }

    ghost function Replicas(): nat {
      if replicas < 0 then 0 else replicas
    }

    constructor (replicaCount: int, fn: Hash)
      ensures Valid() && keys == [] && hashMap == map[] && hash == fn && replicas == replicaCount
    {
      replicas := replicaCount;
      hash := fn;
      keys := [];
      hashMap := map[];
    }

    predicate IsEmpty()
      reads this
    {
      |keys| == 0
    }

    method Add(nodes: seq<string>)
      requires Valid()
      modifies this`keys, this`hashMap
      ensures Valid() && hashMap == AddNodes(old(hashMap), hash, Replicas(), nodes)
      ensures |keys| == |old(keys)| + |nodes| * Replicas()
    {
      for n := 0 to |nodes|
        invariant Elements(keys) == hashMap.Keys && |keys| == |old(keys)| + n * Replicas()
        invariant hashMap == AddNodes(old(hashMap), hash, Replicas(), nodes[..n])
      {
        ghost var before := hashMap;
        assert nodes[..n + 1][..n] == nodes[..n];
        var i := 0;
        while i < replicas
          invariant 0 <= i <= Replicas()
          invariant Elements(keys) == hashMap.Keys && |keys| == |old(keys)| + n * Replicas() + i
          invariant hashMap == AddNode(before, hash, i, nodes[n])
        {
          var point := hash(Itoa(i) + nodes[n]);
          assert Elements(keys + [point]) == Elements(keys) + {point};
          keys := keys + [point];
          hashMap := hashMap[point := nodes[n]];
          i := i + 1;
        }
        assert (n + 1) * Replicas() == n * Replicas() + Replicas();
      }
      assert nodes[..|nodes|] == nodes;
      SameElements(SortInts(keys), keys);
      keys := SortInts(keys);
    }

    /** The owner of the key's successor on the ring; "" on an empty one. */
    method Get(key: string) returns (node: string)
      requires Valid()
      ensures keys == [] ==> node == ""
      ensures keys != [] ==> exists p :: IsSuccessor(hashMap.Keys, hash(key), p) && node == hashMap[p]
    {
      if IsEmpty() {
        return "";
      }
      var h := hash(key);
      var idx := Search(h);
      if idx == |keys| {
        idx := 0;
      }
      assert keys[idx] in Elements(keys);
      assert IsSuccessor(hashMap.Keys, h, keys[idx]);
      return hashMap[keys[idx]];
    }

    /** sort.Search for the first point at or after h. */
    method Search(h: nat) returns (i: nat)
      requires Valid()
      ensures i <= |keys|
      ensures forall k :: 0 <= k < i ==> keys[k] < h
      ensures forall k :: i <= k < |keys| ==> keys[k] >= h
    {
      var j := |keys|;
      i := 0;
      while i < j
        invariant i <= j <= |keys|
        invariant forall k :: 0 <= k < i ==> keys[k] < h
        invariant forall k :: j <= k < |keys| ==> keys[k] >= h
      {
        var mid := (i + j) / 2;
        if !(keys[mid] >= h) {
          i := mid + 1;
        } else {
          j := mid;
        }
      }
    }
  }

  lemma SameElements(a: seq<nat>, b: seq<nat>)
    requires multiset(a) == multiset(b)
    ensures Elements(a) == Elements(b) && |a| == |b|
  {
    assert forall x :: x in a <==> x in multiset(a);
    assert forall x :: x in b <==> x in multiset(b);
    assert |a| == |multiset(a)| == |multiset(b)| == |b|;
  }
}
