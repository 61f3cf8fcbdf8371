/** Facts about quotients and remainders, each proved once and away from everything else. */
module Integers {
  lemma DivUnique(n: int, d: int, q: int, r: int)
    requires d > 0 && n == d * q + r && 0 <= r < d
    ensures n / d == q && n % d == r
  {
    var k := n / d - q;
    assert n == d * (n / d) + n % d;
    Distribute(d, n / d, q);
    if k >= 1 {
      AtLeast(d, k);
    } else if k <= -1 {
      AtLeast(d, -k);
      Distribute(d, 0, k);
    }
  }

  lemma Distribute(d: int, a: int, b: int)
    ensures d * (a - b) == d * a - d * b
  {
  }

  lemma AtLeast(d: int, k: int)
    requires d > 0 && k >= 1
    ensures d * k >= d
  {
  }

  /** Adding a multiple of d changes no remainder. */
  lemma SameRemainder(n: int, k: int, d: int, t: int)
    requires d > 0 && n == d * t + k
    ensures n % d == k % d
  {
    Distribute(d, t, -(k / d));
    DivUnique(n, d, t + k / d, k % d);
  }

  /** Counting up by one. */
  lemma StepDiv(n: int, d: int)
    requires d > 0
    ensures if n % d == d - 1 then (n + 1) / d == n / d + 1 && (n + 1) % d == 0
            else (n + 1) / d == n / d && (n + 1) % d == n % d + 1
  {
    if n % d == d - 1 {
      Distribute(d, n / d, -1);
      DivUnique(n + 1, d, n / d + 1, 0);
    } else {
      DivUnique(n + 1, d, n / d, n % d + 1);
    }
  }

  /** Dividing twice is dividing by the product. */
  lemma DivTwice(n: nat, d: nat, e: nat)
    requires d > 0 && e > 0 && d * e > 0
    ensures n / d / e == n / (d * e)
  {
    var q, r := n / d, n % d;
    var t, u := q / e, q % e;
    Distribute(d, e * t, -u);
    Regroup(d, e, t);
    BelowProduct(d, e, u, r);
    DivUnique(n, d * e, t, d * u + r);
  }

  lemma Regroup(a: int, b: int, c: int)
    ensures a * (b * c) == a * b * c
  {
  }

  lemma BelowProduct(d: nat, e: nat, u: nat, r: nat)
    requires r < d && u < e
    ensures d * u + r < d * e
  {
    Distribute(d, e, u);
    AtLeast(d, e - u);
  }
}
