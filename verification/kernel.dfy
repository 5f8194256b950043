/** `spmm_csr_dense`: the plain-array kernel. A CSR matrix of `m` rows given
    by its row-pointer, column-index and value arrays, times a row-major
    dense matrix of width `p`, accumulated into a row-major result of width
    `p`. */
module Kernel {
  import Arith
  import Csr
  import Dense
  import Product

  /** First entry of row `r`. */
  function Begin(rowPointers: seq<nat>, r: nat): nat
    requires r < |rowPointers|
  {
    rowPointers[r]
  }

  /** One past the last entry of row `r`. */
  function End(rowPointers: seq<nat>, r: nat): nat
    requires r + 1 < |rowPointers|
  {
    rowPointers[r + 1]
  }

  /** Row `r` has an entry, so the kernel writes its band of the result. */
  predicate Written(rowPointers: seq<nat>, r: nat)
    requires r + 1 < |rowPointers|
  {
    Begin(rowPointers, r) < End(rowPointers, r)
  }

  /** Entry `k` can be read, and the dense row its column names exists. */
  predicate EntryReadable(columnIndices: seq<nat>, values: seq<int>, dense: seq<int>, p: nat, k: nat)
  {
    k < |columnIndices| && k < |values| && columnIndices[k] * p + p <= |dense|
  }

  /** What the kernel reads and writes is there: every entry of the first
      `m` rows is readable, and each row with an entry has its band of the
      result. */
  predicate Addressable(m: nat, p: nat, rowPointers: seq<nat>, columnIndices: seq<nat>, values: seq<int>,
                        dense: seq<int>, result: seq<int>)
  {
    && |rowPointers| > m
    && (forall r: nat, k: nat :: r < m && Begin(rowPointers, r) <= k < End(rowPointers, r) ==>
          EntryReadable(columnIndices, values, dense, p, k))
    && (forall r: nat :: r < m && Written(rowPointers, r) ==> r * p + p <= |result|)
  }

  /** A row-major array of width `p` has an element `(r, j)`. */
  predicate Within(s: seq<int>, p: nat, r: nat, j: nat)
  {
    r * p + j < |s|
  }

  /** Element `(r, j)` of a row-major array of width `p`. */
  function Slot(s: seq<int>, p: nat, r: nat, j: nat): int
    requires Within(s, p, r, j)
  {
    s[r * p + j]
  }

  /** What entry `k` adds to column `j` of its row:
      `dense[column][j] * value`. */
  function EntryTerm(columnIndices: seq<nat>, values: seq<int>, dense: seq<int>, p: nat, k: nat, j: nat): int
    requires j < p && EntryReadable(columnIndices, values, dense, p, k)
  {
    dense[columnIndices[k] * p + j] * values[k]
  }

  /** Reference definition: the sum over entries `lo` to `hi` of their
      terms, in entry order. */
  function RowSum(columnIndices: seq<nat>, values: seq<int>, dense: seq<int>, p: nat, lo: nat, hi: nat, j: nat): int
    requires j < p
    requires forall k: nat :: lo <= k < hi ==> EntryReadable(columnIndices, values, dense, p, k)
    decreases hi - lo
  {
    if hi <= lo then 0
    else
      assert EntryReadable(columnIndices, values, dense, p, hi - 1);
      RowSum(columnIndices, values, dense, p, lo, hi - 1, j) + EntryTerm(columnIndices, values, dense, p, hi - 1, j)
  }

  /** The innermost loop: `result[resBase + t] += dense[rhsBase + t] * value`
      for `t` below `p`; nothing else changes. */
  method AddScaledRow(result: seq<int>, dense: seq<int>, rhsBase: nat, resBase: nat, p: nat, value: int)
    returns (out: seq<int>)
    requires rhsBase + p <= |dense| && resBase + p <= |result|
    ensures |out| == |result|
    ensures forall x :: resBase <= x < resBase + p ==> out[x] == result[x] + dense[rhsBase + (x - resBase)] * value
    ensures forall x :: 0 <= x < |result| && !(resBase <= x < resBase + p) ==> out[x] == result[x]
  {
    out := result;
    var rhsIndex, resIndex := rhsBase, resBase;
    while rhsIndex < rhsBase + p
      invariant rhsBase <= rhsIndex <= rhsBase + p && resIndex == resBase + (rhsIndex - rhsBase)
      invariant |out| == |result|
      invariant forall x :: resBase <= x < resIndex ==> out[x] == result[x] + dense[rhsBase + (x - resBase)] * value
      invariant forall x :: 0 <= x < |result| && !(resBase <= x < resIndex) ==> out[x] == result[x]
    {
      out := out[resIndex := out[resIndex] + dense[rhsIndex] * value];
      rhsIndex := rhsIndex + 1;
      resIndex := resIndex + 1;
    }
  }

  /** The middle loop's effect on row `r`: with an entry, the row's band of
      `after` is that of `before` plus the row's sum; without one nothing
      changes; outside the band nothing changes either way. */
  predicate RowAdded(r: nat, p: nat, rowPointers: seq<nat>, columnIndices: seq<nat>, values: seq<int>,
                     dense: seq<int>, before: seq<int>, after: seq<int>)
    requires r + 1 < |rowPointers|
    requires forall k: nat :: Begin(rowPointers, r) <= k < End(rowPointers, r) ==>
               EntryReadable(columnIndices, values, dense, p, k)
    requires Written(rowPointers, r) ==> r * p + p <= |before|
  {
    && |after| == |before|
    && (!Written(rowPointers, r) ==> after == before)
    && (Written(rowPointers, r) ==> forall j: nat :: j < p ==>
          Slot(after, p, r, j) == Slot(before, p, r, j) + RowSum(columnIndices, values, dense, p, Begin(rowPointers, r), End(rowPointers, r), j))
    && (forall x :: 0 <= x < |before| && !(r * p <= x < r * p + p) ==> after[x] == before[x])
  }

  /** The middle loop for row `r`: every entry of the row, in order, adds
      its scaled dense row into the row's band of the result; a row whose
      begin pointer is not below its end pointer changes nothing. */
  method AccumulateRow(r: nat, p: nat, rowPointers: seq<nat>, columnIndices: seq<nat>, values: seq<int>,
                       dense: seq<int>, result: seq<int>)
    returns (out: seq<int>)
    requires r + 1 < |rowPointers|
    requires forall k: nat :: Begin(rowPointers, r) <= k < End(rowPointers, r) ==>
               EntryReadable(columnIndices, values, dense, p, k)
    requires Written(rowPointers, r) ==> r * p + p <= |result|
    ensures RowAdded(r, p, rowPointers, columnIndices, values, dense, result, out)
  {
    var lo, hi := Begin(rowPointers, r), End(rowPointers, r);
    out := result;
    var k := lo;
    while k < hi
      invariant lo <= k && (k <= hi || k == lo)
      invariant |out| == |result|
      invariant lo >= hi ==> out == result
      invariant lo < hi ==> forall j: nat :: j < p ==>
                  Slot(out, p, r, j) == Slot(result, p, r, j) + RowSum(columnIndices, values, dense, p, lo, k, j)
      invariant forall x :: 0 <= x < |result| && !(r * p <= x < r * p + p) ==> out[x] == result[x]
    {
      assert EntryReadable(columnIndices, values, dense, p, k);
      out := AddScaledRow(out, dense, columnIndices[k] * p, r * p, p, values[k]);
      k := k + 1;
    }
  }

  /** The first `upTo` rows are done: rows with an entry hold their old
      contents plus their sum, rows without one are untouched, and nothing
      from row `upTo` on has changed. */
  predicate Accumulated(upTo: nat, m: nat, p: nat, rowPointers: seq<nat>, columnIndices: seq<nat>, values: seq<int>,
                        dense: seq<int>, result: seq<int>, out: seq<int>)
    requires Addressable(m, p, rowPointers, columnIndices, values, dense, result) && upTo <= m
  {
    && |out| == |result|
    && (forall r: nat, j: nat :: r < upTo && j < p && Written(rowPointers, r) ==>
          Slot(out, p, r, j) == Slot(result, p, r, j) + RowSum(columnIndices, values, dense, p, Begin(rowPointers, r), End(rowPointers, r), j))
    && (forall r: nat, j: nat :: r < upTo && j < p && !Written(rowPointers, r) && Within(result, p, r, j) ==>
          Slot(out, p, r, j) == Slot(result, p, r, j))
    && (forall x :: upTo * p <= x < |result| ==> out[x] == result[x])
  }

  /** Finishing row `i` extends the rows done by one. */
  lemma AccumulatedStep(i: nat, m: nat, p: nat, rowPointers: seq<nat>, columnIndices: seq<nat>, values: seq<int>,
                        dense: seq<int>, result: seq<int>, out: seq<int>, next: seq<int>)
    requires Addressable(m, p, rowPointers, columnIndices, values, dense, result) && i < m
    requires Accumulated(i, m, p, rowPointers, columnIndices, values, dense, result, out)
    requires RowAdded(i, p, rowPointers, columnIndices, values, dense, out, next)
    ensures Accumulated(i + 1, m, p, rowPointers, columnIndices, values, dense, result, next)
  {
    forall r: nat, j: nat | r < i + 1 && j < p && Written(rowPointers, r)
      ensures Slot(next, p, r, j) == Slot(result, p, r, j) +
                RowSum(columnIndices, values, dense, p, Begin(rowPointers, r), End(rowPointers, r), j)
    {
      if r < i {
        Arith.RowsOrdered(r, i, p);
        assert Slot(next, p, r, j) == Slot(out, p, r, j);
      } else {
        assert Slot(out, p, r, j) == Slot(result, p, r, j);
      }
    }
    forall r: nat, j: nat | r < i + 1 && j < p && !Written(rowPointers, r) && Within(result, p, r, j)
      ensures Slot(next, p, r, j) == Slot(result, p, r, j)
    {
      if r < i {
        Arith.RowsOrdered(r, i, p);
        assert Slot(next, p, r, j) == Slot(out, p, r, j);
      }
    }
    forall x | (i + 1) * p <= x < |result|
      ensures next[x] == result[x]
    {
      assert (i + 1) * p == i * p + p;
      assert next[x] == out[x];
    }
  }

  /** `spmm_csr_dense(m, n, p, ...)`: for each of the `m` rows with an
      entry, its band of the result becomes its old contents plus the row's
      sum (the result is added to, never cleared); the bands of rows
      without entries and everything past row `m` are left alone. `n` is
      not read. */
  method SpmmCsrDense(m: nat, n: nat, p: nat, rowPointers: seq<nat>, columnIndices: seq<nat>, values: seq<int>,
                      dense: seq<int>, result: seq<int>)
    returns (out: seq<int>)
    requires Addressable(m, p, rowPointers, columnIndices, values, dense, result)
    ensures |out| == |result|
    ensures forall r: nat, j: nat :: r < m && j < p && Written(rowPointers, r) ==>
              Slot(out, p, r, j) == Slot(result, p, r, j) + RowSum(columnIndices, values, dense, p, Begin(rowPointers, r), End(rowPointers, r), j)
    ensures forall r: nat, j: nat :: r < m && j < p && !Written(rowPointers, r) && Within(result, p, r, j) ==>
              Slot(out, p, r, j) == Slot(result, p, r, j)
    ensures forall x :: m * p <= x < |result| ==> out[x] == result[x]
  {
    out := result;
    var rowIndex := 0;
    while rowIndex < m
      invariant rowIndex <= m
      invariant Accumulated(rowIndex, m, p, rowPointers, columnIndices, values, dense, result, out)
    {
      var next := AccumulateRow(rowIndex, p, rowPointers, columnIndices, values, dense, out);
      AccumulatedStep(rowIndex, m, p, rowPointers, columnIndices, values, dense, result, out, next);
      out := next;
      rowIndex := rowIndex + 1;
    }
  }

  /** The kernel only adds into the result: when no row has an entry (all
      row pointers equal), the result comes back exactly as it was. */
  method SpmmOnEmptyRows(m: nat, n: nat, p: nat, rowPointers: seq<nat>, columnIndices: seq<nat>, values: seq<int>,
                         dense: seq<int>, result: seq<int>)
    returns (out: seq<int>)
    requires Addressable(m, p, rowPointers, columnIndices, values, dense, result)
    requires forall r: nat :: r < m ==> !Written(rowPointers, r)
    ensures out == result
  {
    out := SpmmCsrDense(m, n, p, rowPointers, columnIndices, values, dense, result);
    forall x | 0 <= x < |result| && x < m * p
      ensures out[x] == result[x]
    {
      Arith.SplitRowMajor(x, p, m);
      var r, j := x / p, x % p;
      assert Within(result, p, r, j) && !Written(rowPointers, r);
    }
  }

  /** The row-pointer array of `a` in the kernel's form: `lineNum + 1`
      pointers, the rows past the last populated one pointing at the end. */
  function RowPointersOf(a: Csr.CsrMatrix): (ptrs: seq<nat>)
    requires Csr.Valid(a)
    ensures |ptrs| == a.lineNum + 1
    ensures forall r: nat :: r <= a.lineNum ==> ptrs[r] <= |a.values|
  {
    var lp := a.linePtrs;
    seq(a.lineNum + 1, (r: nat) => if r < |lp| then lp[r] else Csr.Last(lp))
  }

  /** Entries whose columns name rows of `rhs` are readable against `rhs`
      flattened row by row. */
  lemma FittingEntriesReadable(columnIndices: seq<nat>, values: seq<int>, rhs: Dense.DenseMatrix, lo: nat, hi: nat)
    requires Dense.Valid(rhs) && lo <= hi <= |columnIndices| == |values|
    requires Product.ColumnsFit(columnIndices[lo..hi], rhs.lineNum)
    ensures forall k: nat :: lo <= k < hi ==> EntryReadable(columnIndices, values, Dense.RowMajor(rhs), rhs.columnNum, k)
  {
    forall k: nat | lo <= k < hi
      ensures EntryReadable(columnIndices, values, Dense.RowMajor(rhs), rhs.columnNum, k)
    {
      assert columnIndices[lo..hi][k - lo] == columnIndices[k];
      Arith.RowsOrdered(columnIndices[k], rhs.lineNum, rhs.columnNum);
    }
  }

  /** Against `rhs` flattened row by row, an entry's term is its value
      times the cell of `rhs` its column names. */
  lemma EntryTermIsCellTerm(columnIndices: seq<nat>, values: seq<int>, rhs: Dense.DenseMatrix, k: nat, j: nat)
    requires Dense.Valid(rhs) && j < rhs.columnNum
    requires k < |columnIndices| && k < |values| && columnIndices[k] < rhs.lineNum
    ensures EntryReadable(columnIndices, values, Dense.RowMajor(rhs), rhs.columnNum, k)
    ensures EntryTerm(columnIndices, values, Dense.RowMajor(rhs), rhs.columnNum, k, j) ==
            values[k] * Dense.Cell(rhs, columnIndices[k], j)
  {
    var c, p := columnIndices[k], rhs.columnNum;
    Arith.RowsOrdered(c, rhs.lineNum, p);
    Dense.RowMajorAt(rhs, c, j);
    var x := Dense.RowMajor(rhs)[c * p + j];
    assert x == Dense.Cell(rhs, c, j);
    assert EntryTerm(columnIndices, values, Dense.RowMajor(rhs), p, k, j) == x * values[k];
  }

  /** The kernel's sum over entries `lo` to `hi`, against `rhs` flattened
      row by row, is the dot product `operator*` specifies for them. */
  lemma {:induction false} RowSumIsDot(columnIndices: seq<nat>, values: seq<int>, rhs: Dense.DenseMatrix, lo: nat, hi: nat, j: nat)
    requires Dense.Valid(rhs) && j < rhs.columnNum
    requires lo <= hi <= |columnIndices| == |values|
    requires Product.ColumnsFit(columnIndices[lo..hi], rhs.lineNum)
    ensures forall k: nat :: lo <= k < hi ==> EntryReadable(columnIndices, values, Dense.RowMajor(rhs), rhs.columnNum, k)
    ensures RowSum(columnIndices, values, Dense.RowMajor(rhs), rhs.columnNum, lo, hi, j) ==
            Product.Dot(values[lo..hi], columnIndices[lo..hi], rhs, j)
    decreases hi - lo
  {
    FittingEntriesReadable(columnIndices, values, rhs, lo, hi);
    if lo < hi {
      var flat, p := Dense.RowMajor(rhs), rhs.columnNum;
      var vs, cs := values[lo..hi], columnIndices[lo..hi];
      var n := hi - lo - 1;
      var c, v := columnIndices[hi - 1], values[hi - 1];
      assert vs[..n] == values[lo..hi - 1] && cs[..n] == columnIndices[lo..hi - 1];
      assert cs[n] == c && vs[n] == v;
      assert c < rhs.lineNum;
      RowSumIsDot(columnIndices, values, rhs, lo, hi - 1, j);
      var before := RowSum(columnIndices, values, flat, p, lo, hi - 1, j);
      var term := v * Dense.Cell(rhs, c, j);
      EntryTermIsCellTerm(columnIndices, values, rhs, hi - 1, j);
      assert RowSum(columnIndices, values, flat, p, lo, hi, j) == before + term;
      assert Product.Dot(vs[..n], cs[..n], rhs, j) == before;
      assert Product.Dot(vs, cs, rhs, j) == before + term;
    } else {
      assert values[lo..hi] == [];
    }
  }

  /** The arrays of a CSR matrix whose column indexes all name rows of
      `rhs`, with `rhs` flattened row by row and a result of `lineNum` rows
      of width `rhs.columnNum`, are what the kernel may read and write. */
  lemma CsrArraysAddressable(a: Csr.CsrMatrix, rhs: Dense.DenseMatrix, result: seq<int>)
    requires Csr.Valid(a) && Dense.Valid(rhs)
    requires a.columnNum == rhs.lineNum && Product.ColumnsInRange(a)
    requires |result| == a.lineNum * rhs.columnNum
    ensures Addressable(a.lineNum, rhs.columnNum, RowPointersOf(a), a.columnIndexes, a.values, Dense.RowMajor(rhs), result)
  {
    var p := rhs.columnNum;
    var ptrs := RowPointersOf(a);
    forall r: nat, k: nat | r < a.lineNum && Begin(ptrs, r) <= k < End(ptrs, r)
      ensures EntryReadable(a.columnIndexes, a.values, Dense.RowMajor(rhs), p, k)
    {
      Arith.RowsOrdered(a.columnIndexes[k], rhs.lineNum, p);
    }
    forall r: nat | r < a.lineNum && Written(ptrs, r)
      ensures r * p + p <= |result|
    {
      Arith.RowsOrdered(r, a.lineNum, p);
    }
  }

  /** The kernel's sum for cell `(i, j)` is the cell `operator*` computes. */
  lemma KernelCellIsProductCell(a: Csr.CsrMatrix, rhs: Dense.DenseMatrix, i: nat, j: nat)
    requires Csr.Valid(a) && Dense.Valid(rhs)
    requires a.columnNum == rhs.lineNum && Product.ColumnsInRange(a)
    requires i < a.lineNum && j < rhs.columnNum
    ensures Product.LineFits(a, rhs, i)
    ensures forall k: nat :: Begin(RowPointersOf(a), i) <= k < End(RowPointersOf(a), i) ==>
              EntryReadable(a.columnIndexes, a.values, Dense.RowMajor(rhs), rhs.columnNum, k)
    ensures RowSum(a.columnIndexes, a.values, Dense.RowMajor(rhs), rhs.columnNum,
                   Begin(RowPointersOf(a), i), End(RowPointersOf(a), i), j) == Product.ProductCell(a, rhs, i, j)
  {
    RowOfPointers(a, i);
    var ptrs := RowPointersOf(a);
    var lo, hi := ptrs[i], ptrs[i + 1];
    assert forall t :: 0 <= t < hi - lo ==> a.columnIndexes[lo..hi][t] == a.columnIndexes[lo + t];
    RowSumIsDot(a.columnIndexes, a.values, rhs, lo, hi, j);
  }

  /** `out` is the product of `a` and `rhs` laid out row by row with
      width `rhs.columnNum`: every cell is the one `operator*` specifies. */
  predicate IsProduct(a: Csr.CsrMatrix, rhs: Dense.DenseMatrix, out: seq<int>)
    requires Csr.Valid(a) && Dense.Valid(rhs)
  {
    && |out| == a.lineNum * rhs.columnNum
    && forall i: nat, j: nat :: i < a.lineNum && j < rhs.columnNum ==>
         Within(out, rhs.columnNum, i, j) && Product.LineFits(a, rhs, i) &&
         Slot(out, rhs.columnNum, i, j) == Product.ProductCell(a, rhs, i, j)
  }

  /** Rows with entries hold their sums and the others hold zero: that is
      the `operator*` product, flattened row by row. */
  lemma RowSumsAreProduct(a: Csr.CsrMatrix, rhs: Dense.DenseMatrix, out: seq<int>)
    requires Csr.Valid(a) && Dense.Valid(rhs)
    requires a.columnNum == rhs.lineNum && Product.ColumnsInRange(a)
    requires |out| == a.lineNum * rhs.columnNum
    requires Addressable(a.lineNum, rhs.columnNum, RowPointersOf(a), a.columnIndexes, a.values, Dense.RowMajor(rhs), out)
    requires forall r: nat, j: nat :: r < a.lineNum && j < rhs.columnNum && Written(RowPointersOf(a), r) ==>
               Slot(out, rhs.columnNum, r, j) == 0 + RowSum(a.columnIndexes, a.values, Dense.RowMajor(rhs), rhs.columnNum,
                                                           Begin(RowPointersOf(a), r), End(RowPointersOf(a), r), j)
    requires forall r: nat, j: nat :: r < a.lineNum && j < rhs.columnNum && !Written(RowPointersOf(a), r) && Within(out, rhs.columnNum, r, j) ==>
               Slot(out, rhs.columnNum, r, j) == 0
    ensures IsProduct(a, rhs, out)
  {
    forall i: nat, j: nat | i < a.lineNum && j < rhs.columnNum
      ensures Within(out, rhs.columnNum, i, j) && Product.LineFits(a, rhs, i) &&
              Slot(out, rhs.columnNum, i, j) == Product.ProductCell(a, rhs, i, j)
    {
      Arith.RowMajorBound(i, j, rhs.columnNum, a.lineNum);
      KernelCellIsProductCell(a, rhs, i, j);
      if !Written(RowPointersOf(a), i) {
        assert RowSum(a.columnIndexes, a.values, Dense.RowMajor(rhs), rhs.columnNum,
                      Begin(RowPointersOf(a), i), End(RowPointersOf(a), i), j) == 0;
      }
    }
  }

  /** Running the kernel on the arrays of a CSR matrix and a row-major dense
      matrix, with a zeroed result, computes the same cells as `operator*`
      when every column index names a row of the dense matrix. */
  method MultiplyWithKernel(a: Csr.CsrMatrix, rhs: Dense.DenseMatrix) returns (out: seq<int>)
    requires Csr.Valid(a) && Dense.Valid(rhs)
    requires a.columnNum == rhs.lineNum && Product.ColumnsInRange(a)
    ensures IsProduct(a, rhs, out)
  {
    Arith.MulMonotone(0, a.lineNum, rhs.columnNum);
    var zeros := seq(a.lineNum * rhs.columnNum, _ => 0);
    CsrArraysAddressable(a, rhs, zeros);
    out := SpmmCsrDense(a.lineNum, a.columnNum, rhs.columnNum, RowPointersOf(a), a.columnIndexes, a.values,
                        Dense.RowMajor(rhs), zeros);
    forall r: nat, j: nat | Within(zeros, rhs.columnNum, r, j)
      ensures Slot(zeros, rhs.columnNum, r, j) == 0
    {
      Arith.MulMonotone(0, r, rhs.columnNum);
    }
    CsrArraysAddressable(a, rhs, out);
    RowSumsAreProduct(a, rhs, out);
  }

  /** Row `i` of `a` is the stretch between pointers `i` and `i + 1` of
      `RowPointersOf(a)`. */
  lemma RowOfPointers(a: Csr.CsrMatrix, i: nat)
    requires Csr.Valid(a) && i < a.lineNum
    ensures var ptrs := RowPointersOf(a);
            ptrs[i] <= ptrs[i + 1] <= |a.values| &&
            Csr.Row(a, i).value.values == a.values[ptrs[i]..ptrs[i + 1]] &&
            Csr.Row(a, i).value.columns == a.columnIndexes[ptrs[i]..ptrs[i + 1]]
  {
    var lp := a.linePtrs;
    if i + 1 < |lp| {
      assert lp[i] <= lp[i + 1];
    }
  }
}
