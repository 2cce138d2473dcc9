/**
 * Facts about natural-number division and remainder by a positive divisor,
 * the only arithmetic the time formatter performs.
 */
module Arith {

  /** Quotient and remainder are the unique pair with `n == q * d + r` and `r < d`. */
  lemma DivModUnique(n: nat, d: nat, q: nat, r: nat)
    requires d > 0 && r < d && n == q * d + r
    ensures n / d == q && n % d == r
  {
    var q0, r0 := n / d, n % d;
    assert n == q0 * d + r0;
    if q0 < q {
      assert q0 + 1 <= q;
      assert (q0 + 1) * d <= q * d by { MulMonotone(q0 + 1, q, d); }
      assert false;
    } else if q < q0 {
      assert q + 1 <= q0;
      assert (q + 1) * d <= q0 * d by { MulMonotone(q + 1, q0, d); }
      assert false;
    }
  }

  lemma MulMonotone(a: nat, b: nat, d: nat)
    requires a <= b
    ensures a * d <= b * d
  {
  }

  lemma Regroup(x: nat, b: nat, y: nat, a: nat)
    ensures (x * b + y) * a == x * (a * b) + y * a
  {
  }

  /**
   * Taking the remainder by `a * b` and then dividing by `a` picks the
   * `b`-digit of `n` in mixed radix `a`; the remainder by `a` survives the
   * outer remainder unchanged.
   */
  lemma ModMulDiv(n: nat, a: nat, b: nat)
    requires a > 0 && b > 0
    ensures (n % (a * b)) / a == (n / a) % b
    ensures (n % (a * b)) % a == n % a
    ensures n / (a * b) == (n / a) / b
  {
    var q, r0 := n / a, n % a;
    var q2, r1 := q / b, q % b;
    assert n == q * a + r0;
    assert q == q2 * b + r1;
    assert q * a == q2 * (a * b) + r1 * a by { Regroup(q2, b, r1, a); }
    assert r1 * a + r0 < a * b by {
      MulMonotone(r1 + 1, b, a);
      assert (r1 + 1) * a == r1 * a + a;
    }
    DivModUnique(n, a * b, q2, r1 * a + r0);
    DivModUnique(r1 * a + r0, a, r1, r0);
  }
}
