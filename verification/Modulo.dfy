/** Remainders by a divisor that is not a literal. */
module Modulo {

  lemma AtLeast(m: nat, d: nat)
    requires d >= 1
    ensures m * d >= m
  {
  }

  lemma Distribute(m: nat, a: nat, b: nat)
    ensures m * (a + b) == m * a + m * b
  {
  }

  lemma Associate(a: nat, b: nat, c: nat)
    ensures a * (b * c) == a * b * c
  {
  }

  lemma ModIs(x: nat, m: nat, k: nat, r: nat)
    requires r < m && x == m * k + r
    ensures x % m == r
  {
    var d := k - x / m;
    assert x == m * (x / m) + x % m;
    assert m * d == m * k - m * (x / m);
    if d >= 1 { AtLeast(m, d); } else if d <= -1 { AtLeast(m, -d); }
  }

  /** An addend may be added before or after reducing. */
  lemma ModAdd(x: nat, d: nat, m: nat)
    requires m > 0
    ensures (x % m + d) % m == (x + d) % m
  {
    var y := x % m + d;
    assert x == m * (x / m) + x % m;
    assert y == m * (y / m) + y % m;
    Distribute(m, x / m, y / m);
    ModIs(x + d, m, x / m + y / m, y % m);
  }
}
