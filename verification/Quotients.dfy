/** Division facts that the solver does not find by itself. */
module Quotients {
  lemma MulMonotone(a: nat, b: nat, m: nat)
    requires a <= b
    ensures a * m <= b * m
  {
  }

  /** A quotient is known from any division with a remainder below the divisor. */
  lemma QuotientIs(n: nat, divisor: nat, q: nat, remainder: nat)
    requires remainder < divisor && n == q * divisor + remainder
    ensures n / divisor == q
  {
    var p := n / divisor;
    assert p * divisor <= n < p * divisor + divisor;
    if p < q {
      MulMonotone(p + 1, q, divisor);
    } else if p > q {
      MulMonotone(q + 1, p, divisor);
    }
  }

  /** Dividing twice is dividing by the product. */
  lemma DivideTwice(n: nat, a: nat, b: nat)
    requires a > 0 && b > 0
    ensures a * b > 0 && n / (a * b) == n / a / b
  {
    var q, s, r := n / a / b, n / a % b, n % a;
    assert n / a == q * b + s && n == n / a * a + r;
    assert n == q * (a * b) + (s * a + r) by {
      assert (q * b + s) * a == q * b * a + s * a;
      assert q * b * a == q * (a * b);
    }
    MulMonotone(s + 1, b, a);
    assert (s + 1) * a == s * a + a;
    QuotientIs(n, a * b, q, s * a + r);
  }
}
