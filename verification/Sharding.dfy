/** How bigcache spreads hashes over its shards: the bit mask, and the power-of-two check that makes it fair. */
module Sharding {
  import opened Arithmetic

  /** Go's & on non-negative integers. */
  function And(a: nat, b: nat): (r: nat)
    ensures r <= b
  {
    if a == 0 || b == 0 then 0
    else 2 * And(a / 2, b / 2) + if a % 2 == 1 && b % 2 == 1 then 1 else 0
  }

  /** isPowerOfTwo; 0 passes too. */
  predicate IsPowerOfTwo(number: nat) {
    number == 0 || And(number, number - 1) == 0
  }

  function Pow2(k: nat): (p: nat)
    ensures p >= 1
  {
    if k == 0 then 1 else 2 * Pow2(k - 1)
  }

  /** getShard: the index of the shard of a hash. */
  function ShardOf(h: nat, shards: nat): nat
    requires shards >= 1
  {
    And(h, shards - 1)
  }

  /** Masking with 2^k - 1 is taking the remainder by 2^k. */
  lemma {:induction false} MaskIsRemainder(h: nat, k: nat)
    ensures And(h, Pow2(k) - 1) == h % Pow2(k)
  {
    hide And;
    if k == 0 {
      MaskWithNone(h);
    } else {
      var p := Pow2(k - 1);
      MaskIsRemainder(h / 2, k - 1);
      MaskStep(h, p);
      RemainderOfHalf(h, p);
    }
  }

  lemma MaskWithNone(h: nat)
    ensures And(h, 0) == 0 == h % 1
  {
  }

  lemma MaskStep(h: nat, p: nat)
    requires p >= 1
    ensures And(h, 2 * p - 1) == 2 * And(h / 2, p - 1) + h % 2
  {
    assert (2 * p - 1) / 2 == p - 1 && (2 * p - 1) % 2 == 1;
  }

  lemma RemainderOfHalf(h: nat, p: nat)
    requires p >= 1
    ensures h % (2 * p) == 2 * ((h / 2) % p) + h % 2
  {
    var q, r := (h / 2) / p, (h / 2) % p;
    assert h / 2 == q * p + r;
    assert q * (2 * p) == 2 * (q * p);
    UniqueQuotient(h, 2 * p, q, 2 * r + h % 2);
  }

  /** The check accepts exactly 0 and the powers of two. */
  lemma {:induction false} PowerOfTwoCheck(n: nat)
    requires n >= 1
    ensures IsPowerOfTwo(n) <==> exists k: nat :: n == Pow2(k)
  {
    hide And, Pow2;
    if n == 1 {
      OneIsPower();
    } else if n % 2 == 0 {
      var m := n / 2;
      assert n == 2 * m;
      PowerOfTwoCheck(m);
      EvenAndPrevious(m);
      assert IsPowerOfTwo(n) <==> IsPowerOfTwo(m);
      DoublePower(m);
    } else {
      OddAndPrevious(n);
      OddIsNoPower(n);
    }
  }

  lemma OneIsPower()
    ensures And(1, 0) == 0 && Pow2(0) == 1
  {
  }

  lemma DoublePower(m: nat)
    ensures (exists k: nat :: m == Pow2(k)) <==> exists k: nat :: 2 * m == Pow2(k)
  {
    if k: nat :| m == Pow2(k) {
      assert 2 * m == Pow2(k + 1);
    }
    if k: nat :| 2 * m == Pow2(k) {
      assert k > 0;
      assert m == Pow2(k - 1);
    }
  }

  lemma OddIsNoPower(n: nat)
    requires n > 1 && n % 2 == 1
    ensures forall k: nat :: n != Pow2(k)
  {
    forall k: nat ensures n != Pow2(k) {
      if k > 0 {
        assert Pow2(k) == 2 * Pow2(k - 1);
      }
    }
  }

  /** Doubling keeps what a number shares with its predecessor. */
  lemma EvenAndPrevious(m: nat)
    requires m >= 1
    ensures And(2 * m, 2 * m - 1) == 2 * And(m, m - 1)
  {
    assert (2 * m) / 2 == m && (2 * m) % 2 == 0 && (2 * m - 1) / 2 == m - 1;
  }

  /** An odd number above 1 shares its top bit with its predecessor. */
  lemma OddAndPrevious(n: nat)
    requires n > 1 && n % 2 == 1
    ensures And(n, n - 1) > 0
  {
    assert (n - 1) / 2 == n / 2;
    AndSelf(n / 2);
  }

  lemma {:induction false} AndSelf(n: nat)
    ensures And(n, n) == n
  {
    if n > 0 {
      AndSelf(n / 2);
    }
  }

  /** With an accepted number of shards every hash has one shard, and every shard has hashes: the remainder classes. */
  lemma ShardsPartition(h: nat, shards: nat)
    requires shards >= 1 && IsPowerOfTwo(shards)
    ensures ShardOf(h, shards) == h % shards < shards
  {
    PowerOfTwoCheck(shards);
    var k: nat :| shards == Pow2(k);
    MaskIsRemainder(h, k);
  }
}
