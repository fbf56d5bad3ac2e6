/** Division facts the encodings share. */
module Arithmetic {

  lemma MulAtLeast(k: int, m: int)
    requires k >= 1 && m > 0
    ensures k * m >= m
  {
  }

  lemma ModUnique(x: int, m: int, q: int, r: int)
    requires m > 0 && x == q * m + r && 0 <= r < m
    ensures x % m == r && x / m == q
  {
    var q', r' := x / m, x % m;
    assert (q - q') * m == r' - r;
    if q > q' {
      MulAtLeast(q - q', m);
    } else if q < q' {
      MulAtLeast(q' - q, m);
    }
  }

  lemma SameResidue(y: int, x: int, k: int, m: int)
    requires m > 0 && y == x + k * m
    ensures y % m == x % m
  {
    ModUnique(y, m, x / m + k, x % m);
  }

  lemma Divide(n: nat, b: nat)
    requires n > 0 && b >= 2
    ensures n == n / b * b + n % b && n / b < n
  {
    var q := n / b;
    assert n == q * b + n % b;
    if q > 0 {
      assert q * b >= q * 2;
    }
  }

  lemma AppendedDigitIsBelow(v: nat, d: nat, p: nat, b: nat)
    requires v < p && d < b
    ensures v * b + d < b * p
  {
    assert (v + 1) * b <= p * b;
    assert (v + 1) * b == v * b + b;
  }
}
