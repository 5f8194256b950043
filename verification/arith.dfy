/** Small facts about non-linear integer arithmetic used by the layout and
    indexing proofs. */
module Arith {

  lemma MulMonotone(a: nat, b: nat, c: nat)
    requires a <= b
    ensures a * c <= b * c
  {
  }

  /** Distinct rows of a row-major block of width `c` occupy disjoint
      index ranges. */
  lemma RowsOrdered(i: nat, i2: nat, c: nat)
    requires i < i2
    ensures i * c + c <= i2 * c
  {
    MulMonotone(i + 1, i2, c);
  }

  /** A row-major index `i * c + j` with `j < c` stays inside an `n * c` block. */
  lemma RowMajorBound(i: nat, j: nat, c: nat, n: nat)
    requires i < n && j < c
    ensures i * c + j < n * c
  {
    RowsOrdered(i, n, c);
  }

  /** The row and column are recovered from a row-major index. */
  lemma RowMajorDivMod(i: nat, j: nat, c: nat)
    requires j < c
    ensures (i * c + j) / c == i
    ensures (i * c + j) % c == j
  {
    var k := i * c + j;
    var q := k / c;
    var r := k % c;
    assert k == q * c + r;
    if q < i {
      RowsOrdered(q, i, c);
      assert false;
    } else if q > i {
      RowsOrdered(i, q, c);
      assert false;
    }
  }

  /** Two row-major positions in rows of width `c` coincide only when both
      their row and their column do. */
  lemma RowMajorInjective(i: nat, j: nat, i2: nat, j2: nat, c: nat)
    requires j < c && j2 < c
    requires i * c + j == i2 * c + j2
    ensures i == i2 && j == j2
  {
    RowMajorDivMod(i, j, c);
    RowMajorDivMod(i2, j2, c);
  }

  /** Every index of an `n * c` row-major block splits into a row below `n`
      and a column below `c`. */
  lemma SplitRowMajor(k: nat, c: nat, n: nat)
    requires k < n * c
    ensures c > 0 && 0 <= k / c < n && 0 <= k % c < c
    ensures k == (k / c) * c + k % c
  {
    if k / c >= n {
      MulMonotone(n, k / c, c);
    }
  }
}
