/**
  Integer division facts used by the calendar arithmetic and the batch counting.
  Divisors are positive, so Dafny's `/` and `%` agree with Python's `//` and `%`.
 */
module Arith {

  /** Division with remainder has one answer: `q` and `r` are the quotient and remainder of `a` by `n`. */
  lemma DivUnique(a: int, n: int, q: int, r: int)
    requires n > 0 && a == q * n + r && 0 <= r < n
    ensures a / n == q && a % n == r
  {
    var q' := a / n;
    MulAtLeast(q - q', n);
    MulAtLeast(q' - q, n);
    assert (q - q') * n == q * n - q' * n;
  }

  /** A positive multiple of `n` is at least `n`. */
  lemma MulAtLeast(m: int, n: int)
    requires n > 0
    ensures m >= 1 ==> m * n >= n
  {
    assert m * n == (m - 1) * n + n;
  }

  /** Stepping back by no more than the remainder keeps the quotient. */
  lemma DivBack(x: int, n: int, k: int)
    requires n > 0 && 0 <= k <= x % n
    ensures (x - k) / n == x / n && (x - k) % n == x % n - k
  {
    DivUnique(x - k, n, x / n, x % n - k);
  }

  /** The quotient by `n` goes up by one exactly at multiples of `n`. */
  lemma DivStep(y: int, n: int)
    requires n > 0
    ensures y / n - (y - 1) / n == if y % n == 0 then 1 else 0
  {
    if y % n == 0 {
      DivUnique(y - 1, n, y / n - 1, n - 1);
    } else {
      DivUnique(y - 1, n, y / n, y % n - 1);
    }
  }
}
