/** A few facts about products and quotients of naturals. */
module Arithmetic {

  lemma Associate(x: nat, y: nat, z: nat)
    ensures (x * y) * z == x * (y * z)
  {
  }

  lemma Swap(x: nat, y: nat, z: nat)
    ensures x * (y * z) == y * (x * z)
  {
  }

  lemma Distribute(k: nat, d: nat, m: nat)
    ensures k * m + d * m == (k + d) * m
  {
  }

  lemma Positive(d: nat, f: nat)
    requires d > 0
    ensures d * f >= f
  {
  }

  lemma Divide(x: nat, f: nat)
    requires f > 0
    ensures x == (x / f) * f + x % f
  {
  }

  lemma Cancel(x: nat, y: nat, f: nat)
    requires f > 0 && x * f == y * f
    ensures x == y
  {
    if x < y {
      Distribute(x, y - x, f);
      Positive(y - x, f);
    } else if y < x {
      Distribute(y, x - y, f);
      Positive(x - y, f);
    }
  }

  /** There is only one way to divide with a remainder. */
  lemma DivideUnique(v: nat, d: nat, q: nat, r: nat)
    requires d > 0 && v == q * d + r && r < d
    ensures v / d == q && v % d == r
  {
    var q', r' := v / d, v % d;
    Divide(v, d);
    if q' > q {
      Distribute(q, q' - q, d);
      Positive(q' - q, d);
    } else if q > q' {
      Distribute(q', q - q', d);
      Positive(q - q', d);
    }
  }
}
