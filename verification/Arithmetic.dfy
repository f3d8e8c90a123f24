/** Facts of integer arithmetic that are not linear. */
module Arithmetic {
  lemma Multiples(z: int, d: nat)
    requires d > 0
    ensures z >= 1 ==> z * d >= d
    ensures z <= -1 ==> z * d <= 0 - d
  {
  }

  lemma Division(x: nat, d: nat)
    requires d > 0
    ensures x == x / d * d + x % d && 0 <= x % d < d
  {
  }

  /** Quotient and remainder are unique. */
  lemma DivMod(q: nat, d: nat, x: nat)
    requires 0 <= x < d
    ensures (q * d + x) / d == q && (q * d + x) % d == x
  {
    var n := q * d + x;
    assert n == n / d * d + n % d;
    assert (n / d - q) * d == x - n % d;
    Multiples(n / d - q, d);
  }

  lemma QuotientIs(n: nat, q: nat, d: nat, x: nat)
    requires x < d && n == q * d + x
    ensures n / d == q && n % d == x
  {
    DivMod(q, d, x);
  }

  lemma Distribute(x: int, y: int, z: int)
    ensures x * (y + z) == x * y + x * z
    ensures (y + z) * x == y * x + z * x
  {
  }

  lemma Scale(a: nat, b: nat, unit: nat)
    requires a <= b
    ensures a * unit <= b * unit && b * unit - a * unit == (b - a) * unit
  {
  }
}
