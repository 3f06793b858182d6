/** Facts about quotients and remainders by a variable divisor. */
module Arithmetic {

  lemma MultipleBound(m: int, d: int)
    requires m > 0
    ensures d >= 1 ==> m * d >= m
    ensures d <= -1 ==> m * d <= -m
  {
  }

  lemma QuotientIsUnique(x: int, q: int, rest: int, m: nat)
    requires m > 0 && x == m * q + rest && 0 <= rest < m
    ensures x / m == q && x % m == rest
  {
    var d := x / m - q;
    assert m * d == rest - x % m;
    MultipleBound(m, d);
  }

  lemma MultipleHasNoResidue(x: int, q: int, m: nat)
    requires m > 0 && x == m * q
    ensures x % m == 0 && x / m == q
  {
    QuotientIsUnique(x, q, 0, m);
  }

  /** Whole multiples leave the residue alone. */
  lemma MultiplesLeaveResidue(x: int, q: int, m: nat)
    requires m > 0
    ensures (x + m * q) % m == x % m
  {
    assert x + m * q == m * (x / m + q) + x % m;
    QuotientIsUnique(x + m * q, x / m + q, x % m, m);
  }

  /** Adding d keeps the residue exactly when d has none. */
  lemma SameResidue(a: nat, d: nat, m: nat)
    requires m > 0
    ensures a % m == (a + d) % m <==> d % m == 0
  {
    var p, q, r := a / m, (a + d) / m, d / m;
    assert a == m * p + a % m && a + d == m * q + (a + d) % m && d == m * r + d % m;
    if a % m == (a + d) % m {
      assert d == m * (q - p);
      MultipleHasNoResidue(d, q - p, m);
    } else if d % m == 0 {
      assert (a + d) - (a % m) == m * (p + r);
      QuotientIsUnique(a + d, p + r, a % m, m);
    }
  }

  lemma ResidueOfSuccessor(x: nat, m: nat)
    requires m > 0
    ensures (x + 1) % m == (x % m + 1) % m
  {
    var q, r := x / m, x % m;
    assert x + 1 == m * q + (r + 1);
    if r + 1 < m {
      QuotientIsUnique(x + 1, q, r + 1, m);
      QuotientIsUnique(r + 1, 0, r + 1, m);
    } else {
      assert m * (q + 1) == m * q + m;
      QuotientIsUnique(x + 1, q + 1, 0, m);
      QuotientIsUnique(r + 1, 1, 0, m);
    }
  }
}
