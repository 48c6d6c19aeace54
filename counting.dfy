/**
 * Counting the pairs of states related by an overlap test, as the nested
 * counting loops of the localisation code do. The relation is a parameter.
 */
module Counting {

  /** Number of j in [lo, hi) with r(i, j); zero when the range is empty. */
  function CountRange(r: (nat, nat) -> bool, i: nat, lo: nat, hi: nat): (c: nat)
    ensures hi <= lo ==> c == 0
    ensures lo <= hi ==> c <= hi - lo
    decreases hi
  {
    if hi <= lo then 0
    else CountRange(r, i, lo, hi - 1) + (if r(i, hi - 1) then 1 else 0)
  }

  /** Number of i < m with r(i, j): the count down column j. */
  function ColCount(r: (nat, nat) -> bool, j: nat, m: nat): (c: nat)
    ensures c <= m
  {
    if m == 0 then 0 else ColCount(r, j, m - 1) + (if r(m - 1, j) then 1 else 0)
  }

  /** All related (i, j) with i < m and j < n. */
  function Full(r: (nat, nat) -> bool, m: nat, n: nat): nat
  {
    if m == 0 then 0 else Full(r, m - 1, n) + CountRange(r, m - 1, 0, n)
  }

  /** Related (i, j) with i < m and i < j < n: the pairs above the diagonal. */
  function Upper(r: (nat, nat) -> bool, m: nat, n: nat): nat
  {
    if m == 0 then 0 else Upper(r, m - 1, n) + CountRange(r, m - 1, m, n)
  }

  /** Related (i, j) with j < i < m: the pairs below the diagonal. */
  function Lower(r: (nat, nat) -> bool, m: nat): nat
  {
    if m == 0 then 0 else Lower(r, m - 1) + CountRange(r, m - 1, 0, m - 1)
  }

  /** Related (i, i) with i < m. */
  function Diagonal(r: (nat, nat) -> bool, m: nat): (d: nat)
    ensures d <= m
  {
    if m == 0 then 0 else Diagonal(r, m - 1) + (if r(m - 1, m - 1) then 1 else 0)
  }

  ghost predicate Symmetric(r: (nat, nat) -> bool)
  {
    forall i: nat, j: nat :: r(i, j) == r(j, i)
  }

  predicate Reflexive(r: (nat, nat) -> bool, n: nat)
  {
    forall i: nat :: i < n ==> r(i, i)
  }

  /** A range splits at any interior point. */
  lemma {:induction false} CountRangeSplit(r: (nat, nat) -> bool, i: nat, lo: nat, mid: nat, hi: nat)
    requires lo <= mid <= hi
    ensures CountRange(r, i, lo, hi) == CountRange(r, i, lo, mid) + CountRange(r, i, mid, hi)
    decreases hi
  {
    if hi > mid {
      CountRangeSplit(r, i, lo, mid, hi - 1);
    }
  }

  /** Every row of n entries splits into the part left of the diagonal, the
      diagonal entry and the part right of it. */
  lemma {:induction false} FullIsLowerDiagonalUpper(r: (nat, nat) -> bool, m: nat, n: nat)
    requires m <= n
    ensures Full(r, m, n) == Lower(r, m) + Diagonal(r, m) + Upper(r, m, n)
  {
    if m > 0 {
      FullIsLowerDiagonalUpper(r, m - 1, n);
      CountRangeSplit(r, m - 1, 0, m - 1, n);
      CountRangeSplit(r, m - 1, m - 1, m, n);
    }
  }

  /** Extending the columns by one adds, to the upper count, column n's
      entries in rows below m. */
  lemma {:induction false} UpperExtend(r: (nat, nat) -> bool, m: nat, n: nat)
    requires m <= n
    ensures Upper(r, m, n + 1) == Upper(r, m, n) + ColCount(r, n, m)
  {
    if m > 0 {
      UpperExtend(r, m - 1, n);
    }
  }

  /** For a symmetric relation, a column count is the matching row count. */
  lemma {:induction false} ColumnIsRow(r: (nat, nat) -> bool, j: nat, m: nat)
    requires Symmetric(r)
    ensures ColCount(r, j, m) == CountRange(r, j, 0, m)
  {
    if m > 0 {
      ColumnIsRow(r, j, m - 1);
      assert r(m - 1, j) == r(j, m - 1);
    }
  }

  /** For a symmetric relation there are as many related pairs above the
      diagonal as below it. */
  lemma {:induction false} UpperIsLower(r: (nat, nat) -> bool, n: nat)
    requires Symmetric(r)
    ensures Upper(r, n, n) == Lower(r, n)
  {
    if n > 0 {
      UpperIsLower(r, n - 1);
      calc {
        Upper(r, n, n);
        Upper(r, n - 1, n) + CountRange(r, n - 1, n, n);
        Upper(r, n - 1, n);
        { UpperExtend(r, n - 1, n - 1); }
        Upper(r, n - 1, n - 1) + ColCount(r, n - 1, n - 1);
        { ColumnIsRow(r, n - 1, n - 1); }
        Lower(r, n - 1) + CountRange(r, n - 1, 0, n - 1);
      }
    }
  }

  /** For a symmetric relation that relates every state to itself, the full
      count is twice the count above the diagonal plus n. */
  lemma FullOfSymmetric(r: (nat, nat) -> bool, n: nat)
    requires Symmetric(r) && Reflexive(r, n)
    ensures Full(r, n, n) == 2 * Upper(r, n, n) + n
  {
    FullIsLowerDiagonalUpper(r, n, n);
    UpperIsLower(r, n);
    DiagonalOfReflexive(r, n);
  }

  lemma {:induction false} DiagonalOfReflexive(r: (nat, nat) -> bool, n: nat)
    requires Reflexive(r, n)
    ensures Diagonal(r, n) == n
  {
    if n > 0 {
      DiagonalOfReflexive(r, n - 1);
    }
  }

  /** At most m*n of the m-by-n entries are related. */
  lemma {:induction false} FullBound(r: (nat, nat) -> bool, m: nat, n: nat)
    ensures Full(r, m, n) <= m * n
  {
    if m > 0 {
      FullBound(r, m - 1, n);
      assert (m - 1) * n + n == m * n;
    }
  }

  /** At most n(n-1)/2 pairs lie above the diagonal. */
  lemma {:induction false} UpperBound(r: (nat, nat) -> bool, n: nat)
    ensures 2 * Upper(r, n, n) <= n * (n - 1)
  {
    if n > 0 {
      UpperBound(r, n - 1);
      assert Upper(r, n, n) == Upper(r, n - 1, n);
      UpperExtend(r, n - 1, n - 1);
      assert (n - 1) * (n - 2) + 2 * (n - 1) == n * (n - 1);
    }
  }
}
