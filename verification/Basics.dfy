/** Shared by several modules. */
module Basics {
  datatype Option<+T> = None | Some(value: T)

  function Power2(k: nat): (p: nat)
    ensures 0 < p
  {
    if k == 0 then 1 else 2 * Power2(k - 1)
  }

  function Digit(bit: bool): nat { if bit then 1 else 0 }

  function Max(a: int, b: int): int { if a < b then b else a }

  lemma DivideTwice(n: nat, p: nat)
    requires 0 < p
    ensures n / 2 / p == n / (2 * p)
  {
    var q := n / 2;
    assert n == (2 * p) * (q / p) + (2 * (q % p) + n % 2) by { assert (2 * p) * (q / p) == 2 * (p * (q / p)); }
    QuotientIs(n, 2 * p, q / p, 2 * (q % p) + n % 2);
  }

  lemma DivideThenHalf(n: nat, p: nat)
    requires 0 < p
    ensures n / p / 2 == n / (2 * p)
  {
    var q, r := n / p, n % p;
    var h, b := q / 2, q % 2;
    HalfQuotient(n, p, q, r, h, b);
    QuotientIs(n, 2 * p, h, p * b + r);
  }

  lemma HalfQuotient(n: nat, p: nat, q: nat, r: nat, h: nat, b: nat)
    requires n == p * q + r && r < p && q == 2 * h + b && b < 2
    ensures n == (2 * p) * h + (p * b + r) && 0 <= p * b + r < 2 * p
  {
    assert p * (2 * h + b) == p * (2 * h) + p * b;
    assert p * (2 * h) == (2 * p) * h;
    if b == 0 { assert p * b == 0; } else { assert p * b == p; }
  }

  lemma QuotientIs(n: nat, d: nat, q: nat, r: nat)
    requires n == d * q + r && r < d
    ensures n / d == q
  {
    if n / d < q { MultiplesApart(d, n / d, q); } else if q < n / d { MultiplesApart(d, q, n / d); }
  }

  lemma MultiplesApart(d: nat, a: nat, b: nat)
    requires a < b
    ensures d * a + d <= d * b
  {
    assert d * b == d * a + d * (b - a);
    assert d * (b - a) == d * (b - a - 1) + d;
  }
}
