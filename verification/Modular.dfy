/** Facts about remainders that the solver does not find by itself. */
module Modular {

  lemma Multiple(n: nat, d: int)
    requires n > 0
    ensures d >= 1 ==> n * d >= n
    ensures d <= -1 ==> n * d + n <= 0
  {
    if d >= 1 {
      assert n * d == n + n * (d - 1);
    } else if d <= -1 {
      assert n * d + n == n * (d + 1);
    }
  }

  lemma ModUnique(x: nat, n: nat, q: nat, r: nat)
    requires n > 0 && x == n * q + r && r < n
    ensures x % n == r && x / n == q
  {
    var d := x / n - q;
    assert n * d == n * (x / n) - n * q;
    Multiple(n, d);
  }

  lemma ModShift(a: nat, n: nat, k: nat)
    requires n > 0
    ensures (a + n * k) % n == a % n
  {
    assert a + n * k == n * (a / n + k) + a % n;
    ModUnique(a + n * k, n, a / n + k, a % n);
  }

  lemma ModDiffers(a: nat, b: nat, n: nat)
    requires n > 0 && a < b < a + n
    ensures a % n != b % n
  {
    var d := b / n - a / n;
    assert n * d == n * (b / n) - n * (a / n);
    Multiple(n, d);
  }

  lemma Distribute(n: nat, a: int, b: int)
    ensures n * (a + b) == n * a + n * b
  {}

  lemma SumOfParts(x: nat, n: nat, qa: nat, ra: nat, qm: nat, rm: nat)
    requires n > 0 && ra < n && rm < n && x == n * qa + ra + (n * qm + rm)
    ensures x / n == qa + qm + (if ra + rm < n then 0 else 1)
  {
    Distribute(n, qa, qm);
    if ra + rm < n {
      ModUnique(x, n, qa + qm, ra + rm);
    } else {
      Distribute(n, qa + qm, 1);
      ModUnique(x, n, qa + qm + 1, ra + rm - n);
    }
  }

  lemma QuotientSum(a: nat, m: nat, n: nat)
    requires n > 0
    ensures (a + m) / n == a / n + m / n + (if a % n + m % n < n then 0 else 1)
  {
    SumOfParts(a + m, n, a / n, a % n, m / n, m % n);
  }

  lemma CeilQuotient(m: nat, n: nat)
    requires n > 0
    ensures (m + n - 1) / n == m / n + (if m % n == 0 then 0 else 1)
  {
    ModUnique(n - 1, n, 0, n - 1);
    QuotientSum(m, n - 1, n);
  }

  /** A stretch of m numbers holds floor(m/n) or ceil(m/n) multiples of n. */
  lemma QuotientSpread(a: nat, m: nat, n: nat)
    requires n > 0
    ensures m / n <= (a + m) / n - a / n <= (m + n - 1) / n
  {
    QuotientSum(a, m, n);
    CeilQuotient(m, n);
  }
}
