/** Facts about integer division that the solver does not find unaided. */
module Arith {

  lemma MulAtLeast(d: int, n: int)
    requires d >= 1 && n >= 1
    ensures d * n >= d
  {
  }

  /** Quotient and remainder are the only ones: `a == d * q + r` with `0 <= r < d` fixes both. */
  lemma DivModUnique(a: int, d: int, q: int, r: int)
    requires d >= 1 && 0 <= r < d && a == d * q + r
    ensures a / d == q && a % d == r
  {
    var q', r' := a / d, a % d;
    assert d * q' + r' == d * q + r;
    if q' < q {
      MulAtLeast(d, q - q');
      assert false;
    } else if q < q' {
      MulAtLeast(d, q' - q);
      assert false;
    }
  }

  /** Counting up by one crosses a multiple of `k` exactly when the new value is one. */
  lemma StepDiv(x: int, k: int)
    requires k >= 1
    ensures (x + 1) / k == x / k + (if (x + 1) % k == 0 then 1 else 0)
  {
    var q, r := x / k, x % k;
    if r + 1 < k {
      DivModUnique(x + 1, k, q, r + 1);
    } else {
      assert x + 1 == k * (q + 1);
      DivModUnique(x + 1, k, q + 1, 0);
    }
  }

  /** Reducing the first summand first does not change the remainder of a sum. */
  lemma ModAdd(a: int, b: int, k: int)
    requires k >= 1
    ensures (a % k + b) % k == (a + b) % k
  {
    var q, q2, r := a / k, (a % k + b) / k, (a % k + b) % k;
    assert a % k + b == k * q2 + r;
    assert a + b == k * q + k * q2 + r;
    assert k * q + k * q2 == k * (q + q2);
    DivModUnique(a + b, k, q + q2, r);
  }
}
