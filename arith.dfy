/**
 * Small facts of integer arithmetic the index and neighbour computations
 * rely on: monotonicity of multiplication, the position of a point inside a
 * block of a row-major layout, and the Euclidean remainder of a value whose
 * block is known.
 */
module Arith {

  lemma MulMonotone(a: int, b: int, n: nat)
    requires a <= b
    ensures a * n <= b * n
  {
    assert b * n == a * n + (b - a) * n;
  }

  /** a*n + b < m*n for a < m and b < n: a point of row a of an m-by-n block. */
  lemma {:induction false} WithinBlock(a: nat, b: nat, m: nat, n: nat)
    requires a < m && b < n
    ensures a * n + b < m * n
  {
    MulMonotone(a + 1, m, n);
    assert (a + 1) * n == a * n + n;
  }

  /** A non-zero multiple of n is at least n away from 0. */
  lemma MultipleAwayFromZero(d: int, n: nat)
    ensures d >= 1 ==> d * n >= n
    ensures d <= -1 ==> d * n <= -(n as int)
  {
    if d >= 1 {
      MulMonotone(1, d, n);
    }
    if d <= -1 {
      MulMonotone(d, -1, n);
    }
  }

  /** x lies in block q of size n, so x mod n is its offset in the block. */
  lemma ModInBlock(x: int, n: int, q: int)
    requires n > 0 && q * n <= x < q * n + n
    ensures x % n == x - q * n
  {
    var q0 := x / n;
    var r := x % n;
    assert x == q0 * n + r && 0 <= r < n;
    var d := q0 - q;
    MultipleAwayFromZero(d, n);
    assert d * n == q0 * n - q * n;
  }
}
