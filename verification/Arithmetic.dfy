/** Division with a variable divisor, and row-major indices.

    Small facts about products and remainders, one at a time, so that the proofs that use
    them stay linear. */
module Arithmetic {

  lemma {:induction false} DivModUnique(x: int, n: int, q: int, t: int)
    requires 0 <= t < n && x == q * n + t
    ensures x / n == q && x % n == t
  {
    var (q', t') := (x / n, x % n);
    assert (q' - q) * n == t - t';
    if q' > q {
      MulMonotone(1, q' - q, n);
    } else if q' < q {
      MulMonotone(q' - q, -1, n);
    }
  }

  lemma DivMod(x: int, n: nat)
    requires n > 0
    ensures x == x / n * n + x % n
  {
  }

  lemma MulMonotone(a: int, b: int, n: int)
    requires a <= b && 0 <= n
    ensures a * n <= b * n
  {
  }

  lemma SmallRemainder(x: nat, n: nat)
    requires x < n
    ensures x % n == x
  {
  }

  lemma WrapsOnce(x: nat, n: nat)
    requires n <= x < 2 * n
    ensures x % n == x - n
  {
    DivModUnique(x, n, 1, x - n);
  }

  /** Only the remainder of a term matters. */
  lemma {:induction false} ModAdd(x: nat, y: nat, n: nat)
    requires n > 0
    ensures (x % n + y) % n == (x + y) % n
  {
    var s := x % n + y;
    DivMod(x, n);
    DivMod(s, n);
    assert x + y == (x / n + s / n) * n + s % n;
    DivModUnique(x + y, n, x / n + s / n, s % n);
  }

  lemma OneMoreTimes(q: int, b: int)
    ensures (q + 1) * b == q * b + b
  {
  }

  lemma TimesSuccessor(a: nat, b: nat)
    requires b > 0
    ensures a * (b - 1) >= 0 && a + a * (b - 1) == a * b
  {
  }

  lemma {:induction false} ModStep(x: int, n: int)
    requires 0 < n
    ensures (x - n) % n == x % n && x / n == (x - n) / n + 1
  {
    var (q, t) := ((x - n) / n, (x - n) % n);
    assert x == (q + 1) * n + t;
    DivModUnique(x, n, q + 1, t);
  }

  /** Row i of a matrix with k columns ends where row i + 1 begins, within n rows. */
  lemma RowBounds(i: int, n: int, k: int)
    requires 0 <= i < n && 0 <= k
    ensures 0 <= i * k <= i * k + k == (i + 1) * k <= n * k
  {
    MulMonotone(0, i, k);
    MulMonotone(i + 1, n, k);
  }

  /** Different rows do not overlap. */
  lemma {:induction false} RowsApart(i: int, j: int, k: int)
    requires i < j && 0 <= k
    ensures i * k + k <= j * k
  {
    MulMonotone(i + 1, j, k);
  }
}
