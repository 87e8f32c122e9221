/** Multiplication and division of natural numbers, in steps. */
module Arithmetic {

  lemma MulNext(x: nat, k: nat)
    ensures (x + 1) * k == x * k + k
  {
  }

  lemma {:induction false} MulGrows(x: nat, y: nat, k: nat)
    requires x <= y
    ensures x * k <= y * k
    decreases y
  {
    if x < y {
      MulGrows(x, y - 1, k);
      MulNext(y - 1, k);
    }
  }

  /** Quotient and remainder are the only pair with a remainder below the divisor. */
  lemma UniqueQuotient(x: nat, d: nat, q: nat, r: nat)
    requires r < d && x == q * d + r
    ensures x / d == q && x % d == r
  {
    var q', r' := x / d, x % d;
    assert x == q' * d + r';
    if q < q' {
      MulGrows(q + 1, q', d);
      MulNext(q, d);
      assert false;
    } else if q' < q {
      MulGrows(q' + 1, q, d);
      MulNext(q', d);
      assert false;
    }
  }

  lemma QuotientAtLeast(y: nat, x: nat, n: nat)
    requires x > 0
    ensures y / x >= n <==> y >= n * x
  {
    var q, r := y / x, y % x;
    assert y == q * x + r;
    if q >= n {
      MulGrows(n, q, x);
    } else {
      MulGrows(q + 1, n, x);
      MulNext(q, x);
    }
  }

  /** Dividing by 256 and then by m is dividing by 256 * m. */
  lemma QuotientTwice(n: nat, m: nat)
    requires m > 0
    ensures n / 256 / m == n / (256 * m)
  {
    var h, l := n / 256, n % 256;
    var q, r := h / m, h % m;
    assert h == q * m + r && n == 256 * h + l;
    assert q * (256 * m) == 256 * (q * m);
    assert n == q * (256 * m) + (256 * r + l);
    assert 256 * r + l < 256 * m;
    UniqueQuotient(n, 256 * m, q, 256 * r + l);
  }
}
