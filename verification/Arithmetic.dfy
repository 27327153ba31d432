/** Elementary facts about products and quotients of unbounded integers. */
module Arithmetic {

  function Max(a: int, b: int): int { if a < b then b else a }

  function Pow2(n: nat): (r: nat)
    ensures r > 0
  {
    if n == 0 then 1 else 2 * Pow2(n - 1)
  }

  /** Division in C++ truncates toward zero. */
  function TruncDiv(a: int, b: int): int
    requires b != 0
  {
    if a >= 0 then a / b else -((-a) / b)
  }

  lemma MultiplyMonotone(a: int, b: int, c: nat)
    requires a <= b
    ensures a * c <= b * c
  {
  }

  /** q is at most a / b exactly when q * b is at most a. */
  lemma QuotientAtLeast(a: int, b: int, q: int)
    requires b > 0
    ensures q <= a / b <==> q * b <= a
  {
    var d := a / b;
    assert d * b <= a < d * b + b;
    if q <= d {
      MultiplyMonotone(q, d, b);
    } else {
      MultiplyMonotone(d + 1, q, b);
    }
  }

  lemma QuotientShrinks(a: nat, b: int)
    requires b > 0
    ensures 0 <= a / b <= a
  {
    QuotientAtLeast(a, b, 0);
    QuotientAtLeast(a, b, a + 1);
    MultiplyMonotone(1, b, a + 1);
  }

  lemma QuotientMonotone(a: nat, d: int, e: int)
    requires 0 < d <= e
    ensures 0 <= a / e <= a / d
  {
    QuotientAtLeast(a, e, 0);
    QuotientAtLeast(a, e, a / e);
    MultiplyMonotone(d, e, a / e);
    QuotientAtLeast(a, d, a / e);
  }

  /** A number that differs from i by a multiple of n leaves remainder i. */
  lemma RemainderUnique(x: int, n: int, q: int, i: int)
    requires 0 <= i < n && x == q * n + i
    ensures x % n == i
  {
    var d := x / n;
    assert x == d * n + x % n;
    if d < q {
      MultiplyMonotone(d + 1, q, n);
    } else if d > q {
      MultiplyMonotone(q + 1, d, n);
    }
  }

  /** Among any n consecutive numbers one leaves remainder i. */
  lemma ConsecutiveCoverResidues(first: int, n: int, i: int) returns (k: int)
    requires 0 <= i < n
    ensures first <= k < first + n && k % n == i
  {
    var r, q := (i - first) % n, (i - first) / n;
    k := first + r;
    assert i - first == q * n + r;
    assert k == (-q) * n + i;
    RemainderUnique(k, n, -q, i);
  }
}
