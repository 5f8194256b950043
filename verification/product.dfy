/** `CSRMatrix::operator*(DenseMatrix)`: the sparse-times-dense product into
    a freshly zeroed result. */
module Product {
  import opened Outcomes
  import Dense
  import Csr

  /** Every column index in `columns` is below `bound`. */
  predicate ColumnsFit(columns: seq<nat>, bound: nat)
  {
    forall t :: 0 <= t < |columns| ==> columns[t] < bound
  }

  /** The sum, in entry order, of `values[t] * rhs[columns[t]][j]`. */
  function Dot(values: seq<int>, columns: seq<nat>, rhs: Dense.DenseMatrix, j: nat): int
    requires |values| == |columns| && Dense.Valid(rhs) && j < rhs.columnNum
    requires ColumnsFit(columns, rhs.lineNum)
    decreases |values|
  {
    if |values| == 0 then 0
    else
      var n := |values| - 1;
      Dot(values[..n], columns[..n], rhs, j) + values[n] * Dense.Cell(rhs, columns[n], j)
  }

  /** Extending a prefix of the entries by one adds that entry's term. */
  lemma DotStep(values: seq<int>, columns: seq<nat>, rhs: Dense.DenseMatrix, j: nat, t: nat)
    requires t < |values| == |columns| && Dense.Valid(rhs) && j < rhs.columnNum
    requires ColumnsFit(columns[..t], rhs.lineNum) && columns[t] < rhs.lineNum
    ensures ColumnsFit(columns[..t + 1], rhs.lineNum)
    ensures Dot(values[..t + 1], columns[..t + 1], rhs, j) ==
            Dot(values[..t], columns[..t], rhs, j) + values[t] * Dense.Cell(rhs, columns[t], j)
  {
    var vs, cs := values[..t + 1], columns[..t + 1];
    assert vs[..t] == values[..t] && cs[..t] == columns[..t];
    assert vs[t] == values[t] && cs[t] == columns[t];
    assert ColumnsFit(cs, rhs.lineNum) by {
      forall u | 0 <= u < |cs| ensures cs[u] < rhs.lineNum {
        if u < t { assert cs[u] == columns[..t][u]; }
      }
    }
  }

  /** Every column index stored in `a` names a column of `a`. */
  predicate ColumnsInRange(a: Csr.CsrMatrix)
  {
    forall k :: 0 <= k < |a.columnIndexes| ==> a.columnIndexes[k] < a.columnNum
  }

  /** Row `i` of `a` only names rows of `rhs`. */
  predicate LineFits(a: Csr.CsrMatrix, rhs: Dense.DenseMatrix, i: nat)
    requires Csr.Valid(a) && i < a.lineNum
  {
    ColumnsFit(Csr.Row(a, i).value.columns, rhs.lineNum)
  }

  /** Cell `(i, j)` of the product: row `i` of `a` against column `j` of
      `rhs`. */
  function ProductCell(a: Csr.CsrMatrix, rhs: Dense.DenseMatrix, i: nat, j: nat): int
    requires Csr.Valid(a) && Dense.Valid(rhs) && i < a.lineNum && j < rhs.columnNum
    requires LineFits(a, rhs, i)
  {
    var line := Csr.Row(a, i).value;
    Dot(line.values, line.columns, rhs, j)
  }

  /** The innermost loop: `res[i][j] += value * rhs[column][j]` for every
      `j`. The row access of `rhs` throws when `column` is not one of its
      rows, and is only reached when `rhs` has a column at all. */
  method AccumulateEntry(res: Dense.DenseMatrix, rhs: Dense.DenseMatrix, i: nat, value: int, column: nat)
    returns (r: Result<Dense.DenseMatrix>)
    requires Dense.Valid(res) && Dense.Valid(rhs)
    requires i < res.lineNum && res.columnNum == rhs.columnNum
    ensures r.Throw? <==> column >= rhs.lineNum && rhs.columnNum > 0
    ensures r.Throw? ==> r.error == OutOfRange
    ensures r.Ok? ==> Dense.Valid(r.value) && Dense.Size(r.value) == Dense.Size(res)
    ensures r.Ok? ==> forall j: nat :: j < rhs.columnNum ==>
              column < rhs.lineNum && Dense.Cell(r.value, i, j) == Dense.Cell(res, i, j) + value * Dense.Cell(rhs, column, j)
    ensures r.Ok? ==> forall i2: nat, j2: nat :: Dense.InBounds(res, i2, j2) && i2 != i ==>
              Dense.Cell(r.value, i2, j2) == Dense.Cell(res, i2, j2)
  {
    var acc := res;
    var j := 0;
    while j < rhs.columnNum
      invariant j <= rhs.columnNum
      invariant Dense.Valid(acc) && Dense.Size(acc) == Dense.Size(res)
      invariant j > 0 ==> column < rhs.lineNum
      invariant forall j2: nat :: j2 < j ==>
                  column < rhs.lineNum && Dense.Cell(acc, i, j2) == Dense.Cell(res, i, j2) + value * Dense.Cell(rhs, column, j2)
      invariant forall j2: nat :: j <= j2 < rhs.columnNum ==> Dense.Cell(acc, i, j2) == Dense.Cell(res, i, j2)
      invariant forall i2: nat, j2: nat :: Dense.InBounds(res, i2, j2) && i2 != i ==> Dense.Cell(acc, i2, j2) == Dense.Cell(res, i2, j2)
    {
      var rhsValue := Dense.Get(rhs, column, j);
      if rhsValue.Throw? {
        return Throw(rhsValue.error);
      }
      acc := Dense.Update(acc, i, j, Dense.Cell(acc, i, j) + value * rhsValue.value);
      j := j + 1;
    }
    r := Ok(acc);
  }

  /** The middle loop: the entries of one row of the sparse matrix (its
      values and column indexes, from the row's begin pointer to its end
      pointer) accumulated into row `i` of `res`, in entry order; throws
      when one of them names a row `rhs` does not have (and `rhs` has a
      column). */
  method AccumulateLine(res: Dense.DenseMatrix, values: seq<int>, columns: seq<nat>, rhs: Dense.DenseMatrix, i: nat)
    returns (r: Result<Dense.DenseMatrix>)
    requires Dense.Valid(res) && Dense.Valid(rhs) && |values| == |columns|
    requires i < res.lineNum && res.columnNum == rhs.columnNum
    ensures r.Throw? <==> rhs.columnNum > 0 && !ColumnsFit(columns, rhs.lineNum)
    ensures r.Throw? ==> r.error == OutOfRange
    ensures r.Ok? ==> Dense.Valid(r.value) && Dense.Size(r.value) == Dense.Size(res)
    ensures r.Ok? ==> forall j: nat :: j < rhs.columnNum ==>
              ColumnsFit(columns, rhs.lineNum) && Dense.Cell(r.value, i, j) == Dense.Cell(res, i, j) + Dot(values, columns, rhs, j)
    ensures r.Ok? ==> forall i2: nat, j2: nat :: Dense.InBounds(res, i2, j2) && i2 != i ==>
              Dense.Cell(r.value, i2, j2) == Dense.Cell(res, i2, j2)
  {
    var acc := res;
    var t := 0;
    while t < |values|
      invariant t <= |values|
      invariant Dense.Valid(acc) && Dense.Size(acc) == Dense.Size(res)
      invariant rhs.columnNum > 0 ==> ColumnsFit(columns[..t], rhs.lineNum)
      invariant forall j: nat :: j < rhs.columnNum ==>
                  Dense.Cell(acc, i, j) == Dense.Cell(res, i, j) + Dot(values[..t], columns[..t], rhs, j)
      invariant forall i2: nat, j2: nat :: Dense.InBounds(res, i2, j2) && i2 != i ==> Dense.Cell(acc, i2, j2) == Dense.Cell(res, i2, j2)
    {
      var step := AccumulateEntry(acc, rhs, i, values[t], columns[t]);
      if step.Throw? {
        return Throw(step.error);
      }
      forall j: nat | j < rhs.columnNum
        ensures ColumnsFit(columns[..t + 1], rhs.lineNum)
        ensures Dense.Cell(step.value, i, j) == Dense.Cell(res, i, j) + Dot(values[..t + 1], columns[..t + 1], rhs, j)
      {
        DotStep(values, columns, rhs, j, t);
      }
      acc := step.value;
      t := t + 1;
    }
    assert values[..t] == values && columns[..t] == columns;
    r := Ok(acc);
  }

  /** Finds the row an entry belongs to. */
  lemma LineOfEntry(a: Csr.CsrMatrix, k: nat) returns (i: nat)
    requires Csr.Valid(a) && k < |a.values|
    ensures i <= Csr.CurrentLine(a) && i < a.lineNum
    ensures a.linePtrs[i] <= k < a.linePtrs[i + 1]
  {
    i := Csr.CurrentLine(a);
    while a.linePtrs[i] > k
      invariant i <= Csr.CurrentLine(a)
      invariant k < a.linePtrs[i + 1]
      decreases i
    {
      i := i - 1;
    }
  }

  /** When every row fits `rhs` and `a` has as many columns as `rhs` rows,
      every stored column index is in range. */
  lemma FittingLinesMeanColumnsInRange(a: Csr.CsrMatrix, rhs: Dense.DenseMatrix)
    requires Csr.Valid(a) && a.columnNum == rhs.lineNum
    requires forall i :: 0 <= i < a.lineNum ==> LineFits(a, rhs, i)
    ensures ColumnsInRange(a)
  {
    forall k | 0 <= k < |a.columnIndexes|
      ensures a.columnIndexes[k] < a.columnNum
    {
      var i := LineOfEntry(a, k);
      assert LineFits(a, rhs, i);
      var lo := a.linePtrs[i];
      assert Csr.Row(a, i).value.columns[k - lo] == a.columnIndexes[k];
    }
  }

  /** The rows of `res` before `i` hold their product cells and the rows
      from `i` on are still zero. */
  ghost predicate LinesDone(a: Csr.CsrMatrix, rhs: Dense.DenseMatrix, res: Dense.DenseMatrix, i: nat)
    requires Csr.Valid(a) && Dense.Valid(rhs) && Dense.Valid(res)
    requires Dense.Size(res) == (a.lineNum, rhs.columnNum)
  {
    && (forall i2: nat, j: nat :: Dense.InBounds(res, i2, j) && i2 < i ==>
          LineFits(a, rhs, i2) && Dense.Cell(res, i2, j) == ProductCell(a, rhs, i2, j))
    && (forall i2: nat, j: nat :: Dense.InBounds(res, i2, j) && i2 >= i ==> Dense.Cell(res, i2, j) == 0)
  }

  /** Row `i` of `res` holds its product cells. */
  ghost predicate LineHolds(a: Csr.CsrMatrix, rhs: Dense.DenseMatrix, res: Dense.DenseMatrix, i: nat)
    requires Csr.Valid(a) && Dense.Valid(rhs) && Dense.Valid(res)
    requires Dense.Size(res) == (a.lineNum, rhs.columnNum) && i < a.lineNum
  {
    forall j: nat :: j < rhs.columnNum ==>
      LineFits(a, rhs, i) && Dense.Cell(res, i, j) == ProductCell(a, rhs, i, j)
  }

  /** Filling row `i` with its product cells, and nothing else, extends
      `LinesDone` by one row. */
  lemma LineDone(a: Csr.CsrMatrix, rhs: Dense.DenseMatrix, res: Dense.DenseMatrix, next: Dense.DenseMatrix, i: nat)
    requires Csr.Valid(a) && Dense.Valid(rhs) && Dense.Valid(res) && Dense.Valid(next)
    requires Dense.Size(res) == (a.lineNum, rhs.columnNum) && Dense.Size(next) == Dense.Size(res)
    requires i < a.lineNum && LinesDone(a, rhs, res, i)
    requires LineHolds(a, rhs, next, i)
    requires forall i2: nat, j: nat :: Dense.InBounds(res, i2, j) && i2 != i ==>
               Dense.Cell(next, i2, j) == Dense.Cell(res, i2, j)
    ensures LinesDone(a, rhs, next, i + 1)
  {
  }

  /** A row past the last one appended to is already done: its cells are
      zero, and so is its (empty) sum. */
  lemma EmptyLineDone(a: Csr.CsrMatrix, rhs: Dense.DenseMatrix, res: Dense.DenseMatrix, i: nat)
    requires Csr.Valid(a) && Dense.Valid(rhs) && Dense.Valid(res)
    requires Dense.Size(res) == (a.lineNum, rhs.columnNum) && i < a.lineNum
    requires i >= |a.linePtrs| - 1 && LinesDone(a, rhs, res, i)
    ensures LinesDone(a, rhs, res, i + 1)
  {
    var line := Csr.Row(a, i).value;
    assert line.values == [] && line.columns == [];
    assert LineHolds(a, rhs, res, i) by {
      forall j: nat | j < rhs.columnNum
        ensures LineFits(a, rhs, i) && Dense.Cell(res, i, j) == ProductCell(a, rhs, i, j)
      {
        assert Dense.InBounds(res, i, j);
      }
    }
    LineDone(a, rhs, res, res, i);
  }

  /** One pass of the outer loop of `operator*`: row `i` of `a` accumulated
      into the zero row `i` of `res`. A row past the last populated one has
      no entries and leaves `res` as it is. */
  method MultiplyLine(a: Csr.CsrMatrix, rhs: Dense.DenseMatrix, res: Dense.DenseMatrix, i: nat)
    returns (r: Result<Dense.DenseMatrix>)
    requires Csr.Valid(a) && Dense.Valid(rhs) && Dense.Valid(res) && a.columnNum == rhs.lineNum
    requires Dense.Size(res) == (a.lineNum, rhs.columnNum) && i < a.lineNum
    requires LinesDone(a, rhs, res, i)
    ensures r.Throw? <==> rhs.columnNum > 0 && !LineFits(a, rhs, i)
    ensures r.Throw? ==> r.error == OutOfRange && !ColumnsInRange(a)
    ensures r.Ok? ==> Dense.Valid(r.value) && Dense.Size(r.value) == Dense.Size(res)
    ensures r.Ok? ==> LinesDone(a, rhs, r.value, i + 1)
  {
    if i >= |a.linePtrs| - 1 {
      // no entry has been appended to this row or any later one
      EmptyLineDone(a, rhs, res, i);
      return Ok(res);
    }
    ghost var line := Csr.Row(a, i).value;
    var lo, hi := a.linePtrs[i], a.linePtrs[i + 1];
    var step := AccumulateLine(res, a.values[lo..hi], a.columnIndexes[lo..hi], rhs, i);
    assert line.values == a.values[lo..hi] && line.columns == a.columnIndexes[lo..hi];
    if step.Throw? {
      ghost var t :| 0 <= t < |line.columns| && line.columns[t] >= rhs.lineNum;
      assert a.columnIndexes[lo + t] == line.columns[t];
      return Throw(step.error);
    }
    assert LineHolds(a, rhs, step.value, i) by {
      forall j: nat | j < rhs.columnNum
        ensures LineFits(a, rhs, i) && Dense.Cell(step.value, i, j) == ProductCell(a, rhs, i, j)
      {
        assert Dense.InBounds(res, i, j);
      }
    }
    LineDone(a, rhs, res, step.value, i);
    return step;
  }

  /** `operator*`: `invalid_argument` when the inner dimensions differ;
      `out_of_range` when some entry names a column of `a` that is not a
      row of `rhs` (only if `rhs` has a column, since that is where the row
      is accessed); otherwise the `a.lineNum` by `rhs.columnNum` product,
      in which rows of `a` without entries stay zero. */
  method Multiply(a: Csr.CsrMatrix, rhs: Dense.DenseMatrix, junk: nat -> int) returns (r: Result<Dense.DenseMatrix>)
    requires Csr.Valid(a) && Dense.Valid(rhs)
    ensures r == Throw(InvalidArgument) <==> a.columnNum != rhs.lineNum
    ensures a.columnNum == rhs.lineNum ==> (r.Throw? <==> rhs.columnNum > 0 && !ColumnsInRange(a))
    ensures r.Ok? ==> Dense.Valid(r.value) && Dense.Size(r.value) == (a.lineNum, rhs.columnNum)
    ensures r.Ok? ==> forall i: nat, j: nat :: Dense.InBounds(r.value, i, j) ==>
              LineFits(a, rhs, i) && Dense.Cell(r.value, i, j) == ProductCell(a, rhs, i, j)
  {
    if a.columnNum != rhs.lineNum {
      return Throw(InvalidArgument);
    }
    var res := Dense.Create(a.lineNum, rhs.columnNum, 0, junk);
    var i := 0;
    while i < a.lineNum
      invariant i <= a.lineNum
      invariant Dense.Valid(res) && Dense.Size(res) == (a.lineNum, rhs.columnNum)
      invariant rhs.columnNum > 0 ==> forall i2 :: 0 <= i2 < i ==> LineFits(a, rhs, i2)
      invariant LinesDone(a, rhs, res, i)
    {
      var step := MultiplyLine(a, rhs, res, i);
      if step.Throw? {
        return step;
      }
      res := step.value;
      i := i + 1;
    }
    if rhs.columnNum > 0 {
      FittingLinesMeanColumnsInRange(a, rhs);
    }
    r := Ok(res);
  }
}
