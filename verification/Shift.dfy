/**
 Division and multiplication by a unit size, for the shifts by `clust_shift`,
 `blktosec` and the like.
 */
module Shift {

  lemma MulMono(a: int, b: int, m: nat)
    requires a <= b
    ensures a * m <= b * m
  {
  }

  lemma Quotient(x: int, m: nat)
    requires m > 0
    ensures x == x / m * m + x % m
  {
  }

  lemma DivUnique(x: int, m: nat, q: int, r: int)
    requires m > 0 && x == q * m + r && 0 <= r < m
    ensures x / m == q && x % m == r
  {
    var d := x / m - q;
    Quotient(x, m);
    assert d * m == r - x % m;
    if d >= 1 { MulMono(1, d, m); } else if d <= -1 { MulMono(d, -1, m); }
  }

  lemma DivMul(a: int, m: nat)
    requires m > 0
    ensures a * m / m == a && a * m % m == 0
  {
    DivUnique(a * m, m, a, 0);
  }

  lemma DivNonneg(x: nat, m: nat)
    requires m > 0
    ensures 0 <= x / m
  {
    Quotient(x, m);
    if x / m < 0 { MulMono(x / m, -1, m); }
  }

  lemma Distribute(a: int, b: int, m: int)
    ensures (a + b) * m == a * m + b * m
  {
  }

  /** Where offset `j` behind unit `m` falls. */
  lemma UnitAt(m: nat, j: nat, unit: nat)
    requires unit > 0
    ensures (m * unit + j) / unit == m + j / unit && (m * unit + j) % unit == j % unit
    ensures 0 <= j / unit && j == j / unit * unit + j % unit && 0 <= j % unit < unit
  {
    Quotient(j, unit);
    DivNonneg(j, unit);
    Distribute(m, j / unit, unit);
    DivUnique(m * unit + j, unit, m + j / unit, j % unit);
  }

  lemma QuotientBelow(j: nat, k: nat, unit: nat)
    requires unit > 0 && j < k * unit
    ensures 0 <= j / unit < k
  {
    Quotient(j, unit);
    DivNonneg(j, unit);
    if j / unit >= k { MulMono(k, j / unit, unit); }
  }
}
