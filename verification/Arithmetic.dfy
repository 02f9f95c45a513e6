/** Multiplication and division by a variable. */
module Arithmetic {
  lemma MulMonotone(a: int, b: int, n: int)
    requires a <= b && n >= 0
    ensures a * n <= b * n
  {
    assert (b - a) * n >= 0;
    assert (b - a) * n == b * n - a * n;
  }

  lemma MulBelow(q: int, m: int, n: int)
    requires 0 <= q < m && n > 0
    ensures 0 <= q * n && q * n + n <= m * n
  {
    MulMonotone(q + 1, m, n);
    assert (q + 1) * n == q * n + n;
  }

  lemma MulAligned(q: int, n: int)
    requires n % 32 == 0
    ensures q * n % 32 == 0
  {
    assert n == 32 * (n / 32);
    assert q * n == 32 * (q * (n / 32));
  }

  lemma DivFloor(x: int, n: int)
    requires n > 0
    ensures x / n * n <= x < x / n * n + n
  {
    assert x == n * (x / n) + x % n;
  }

  /** The quotient is the only q with q*n <= x < q*n + n. */
  lemma DivBetween(x: int, n: int, q: int)
    requires n > 0 && q * n <= x < q * n + n
    ensures x / n == q
  {
    DivFloor(x, n);
    var d := x / n - q;
    assert d * n == x / n * n - q * n;
    assert -n < d * n < n;
  }

  lemma DivLess(x: int, n: int)
    requires n > 0 && x >= 0
    ensures x < n ==> x / n == 0
    ensures x >= n ==> (x - n) / n == x / n - 1
  {
    DivFloor(x, n);
    if x < n {
      DivBetween(x, n, 0);
    } else {
      assert (x / n - 1) * n == x / n * n - n;
      DivBetween(x - n, n, x / n - 1);
    }
  }

  lemma DivAtLeast(x: int, n: int, k: int)
    requires n > 0
    ensures k <= x / n <==> k * n <= x
  {
    DivFloor(x, n);
    if k <= x / n {
      MulMonotone(k, x / n, n);
    } else {
      MulMonotone(x / n + 1, k, n);
      assert (x / n + 1) * n == x / n * n + n;
    }
  }

  /** Which of m slots of n bytes the offset x falls in; m itself only at the very end. */
  lemma SlotOf(x: int, n: int, m: int)
    requires n > 0 && m >= 0 && 0 <= x <= m * n
    ensures 0 <= x / n <= m && x / n * n <= x < x / n * n + n
    ensures x / n == m <==> x == m * n
  {
    DivFloor(x, n);
    DivAtLeast(x, n, 0);
    DivAtLeast(x, n, m);
    DivAtLeast(x, n, m + 1);
    assert (m + 1) * n == m * n + n;
  }
}
