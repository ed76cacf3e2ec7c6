/** Division facts that the solver does not find by itself. */
module Arith {
  function Pow2(k: nat): (p: nat)
    ensures p > 0
  {
    if k == 0 then 1 else 2 * Pow2(k - 1)
  }

  lemma MulMonotone(a: int, b: int, c: nat)
    requires a <= b
    ensures a * c <= b * c
  {
  }

  lemma DivModUnique(x: int, m: nat, q: int, r: int)
    requires 0 <= r < m && x == q * m + r
    ensures x / m == q && x % m == r
  {
    var q', r' := x / m, x % m;
    var d := q' - q;
    assert d * m == q' * m - q * m;
    assert d * m == r - r';
    if d < 0 {
      MulMonotone(d, -1, m);
    } else if 0 < d {
      MulMonotone(1, d, m);
    }
  }

  lemma DivFacts(n: nat, b: nat)
    requires 2 <= b
    ensures 0 <= n / b && n == (n / b) * b + n % b && 0 <= n % b < b && (n >= b ==> n / b < n)
  {
    var q := n / b;
    assert q * b == n - n % b;
    if n >= b && q >= n { MulMonotone(n, q, b); }
  }

  lemma ModCancel(a: int, k: int, m: nat)
    requires 0 < m
    ensures (a + k * m) % m == a % m
  {
    DivModUnique(a + k * m, m, a / m + k, a % m);
  }

  /** Reducing one factor first does not change a product modulo `m`. */
  lemma ModMul(x: nat, y: nat, m: nat)
    requires 0 < m
    ensures ((x % m) * y) % m == (x * y) % m
  {
    var q := x / m;
    assert x * y == (x % m) * y + (q * y) * m by {
      assert x == q * m + x % m;
      assert (q * m) * y == (q * y) * m;
    }
    ModCancel((x % m) * y, q * y, m);
  }

  lemma ModSum(a: nat, b: nat, m: nat)
    requires 0 < m
    ensures (a % m + b % m) % m == (a + b) % m
  {
    ModCancel(a % m + b % m, a / m + b / m, m);
    assert a + b == (a % m + b % m) + (a / m + b / m) * m;
  }
}
