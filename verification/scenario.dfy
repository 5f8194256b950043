/** A worked case of the library end to end: a 3 by 3 sparse matrix built
    by `push_back` times the 3 by 3 identity gives back the sparse entries
    scattered into a zero matrix. */
module Scenario {
  import opened Outcomes
  import Layout
  import Csr
  import Dense
  import Product

  /** `(1, 0, 0)`, `(2, 1, 1)`, `(3, 1, 0)`, `(4, 2, 0)` as
      `(value, row, column)`, in row order. */
  function Entries(): seq<Csr.Entry>
  {
    [Csr.Entry(1, 0, 0), Csr.Entry(2, 1, 1), Csr.Entry(3, 1, 0), Csr.Entry(4, 2, 0)]
  }

  /** The store those entries build from an empty 3 by 3 one. */
  function Built(): Csr.CsrMatrix
  {
    Csr.Replay(Csr.Create(3, 3), Entries()).0
  }

  /** The entries come in row order and name rows of a 3 by 3 matrix. */
  lemma EntriesInRowOrder()
    ensures Csr.InRowOrder(0, Entries()) && Csr.LinesBelow(3, Entries())
  {
  }

  /** The entries of each row, in the order appended. */
  lemma EntriesOnRow()
    ensures Csr.ValuesOn(Entries(), 0) == [1] && Csr.ColumnsOn(Entries(), 0) == [0]
    ensures Csr.ValuesOn(Entries(), 1) == [2, 3] && Csr.ColumnsOn(Entries(), 1) == [1, 0]
    ensures Csr.ValuesOn(Entries(), 2) == [4] && Csr.ColumnsOn(Entries(), 2) == [0]
  {
    var es := Entries();
    var e3 := [Csr.Entry(4, 2, 0)];
    var e2 := [Csr.Entry(3, 1, 0)] + e3;
    var e1 := [Csr.Entry(2, 1, 1)] + e2;
    assert es[1..] == e1 && e1[1..] == e2 && e2[1..] == e3 && e3[1..] == [];
    assert Csr.ValuesOn(e3, 0) == [] && Csr.ValuesOn(e3, 1) == [] && Csr.ValuesOn(e3, 2) == [4];
    assert Csr.ColumnsOn(e3, 0) == [] && Csr.ColumnsOn(e3, 1) == [] && Csr.ColumnsOn(e3, 2) == [0];
    assert Csr.ValuesOn(e2, 0) == [] && Csr.ValuesOn(e2, 1) == [3] && Csr.ValuesOn(e2, 2) == [4];
    assert Csr.ColumnsOn(e2, 0) == [] && Csr.ColumnsOn(e2, 1) == [0] && Csr.ColumnsOn(e2, 2) == [0];
    assert Csr.ValuesOn(e1, 0) == [] && Csr.ValuesOn(e1, 1) == [2, 3] && Csr.ValuesOn(e1, 2) == [4];
    assert Csr.ColumnsOn(e1, 0) == [] && Csr.ColumnsOn(e1, 1) == [1, 0] && Csr.ColumnsOn(e1, 2) == [0];
  }

  /** A 3 by 3 store whose rows hold one entry, two entries (in the order
      appended) and one entry. */
  predicate HasExampleRows(a: Csr.CsrMatrix)
  {
    && Csr.Valid(a) && Csr.Size(a) == (3, 3)
    && Csr.Row(a, 0).value == Csr.CsrLine(3, [1], [0])
    && Csr.Row(a, 1).value == Csr.CsrLine(3, [2, 3], [1, 0])
    && Csr.Row(a, 2).value == Csr.CsrLine(3, [4], [0])
  }

  /** An empty 3 by 3 store. */
  predicate EmptyStore(m: Csr.CsrMatrix)
  {
    && Csr.Valid(m) && Csr.Size(m) == (3, 3) && Csr.CurrentLine(m) == 0
    && (forall i: nat :: i < 3 ==> Csr.Row(m, i).value == Csr.CsrLine(3, [], []))
  }

  /** Entries in row order, one on row 0, two on row 1 and one on row 2. */
  predicate ExampleEntries(es: seq<Csr.Entry>)
  {
    && Csr.InRowOrder(0, es) && Csr.LinesBelow(3, es)
    && Csr.ValuesOn(es, 0) == [1] && Csr.ColumnsOn(es, 0) == [0]
    && Csr.ValuesOn(es, 1) == [2, 3] && Csr.ColumnsOn(es, 1) == [1, 0]
    && Csr.ValuesOn(es, 2) == [4] && Csr.ColumnsOn(es, 2) == [0]
  }

  /** Appending such entries to an empty store succeeds and gives the
      example rows. */
  lemma GroupedRows(m: Csr.CsrMatrix, es: seq<Csr.Entry>)
    requires EmptyStore(m) && ExampleEntries(es)
    ensures Csr.Replay(m, es).1 == None && HasExampleRows(Csr.Replay(m, es).0)
  {
    Csr.ReplayAcceptsIff(m, es);
    Csr.ReplayGroupsByLine(m, es, 0);
    Csr.ReplayGroupsByLine(m, es, 1);
    Csr.ReplayGroupsByLine(m, es, 2);
  }

  lemma CreateIsEmpty()
    ensures EmptyStore(Csr.Create(3, 3))
  {
  }

  lemma EntriesAreExample()
    ensures ExampleEntries(Entries())
  {
    EntriesInRowOrder();
    EntriesOnRow();
  }

  /** Building succeeds and gives those rows. */
  lemma BuiltRows()
    ensures Csr.Replay(Csr.Create(3, 3), Entries()).1 == None
    ensures HasExampleRows(Built())
  {
    CreateIsEmpty();
    EntriesAreExample();
    GroupedRows(Csr.Create(3, 3), Entries());
  }

  /** The 3 by 3 identity written straight into the byte layout that
      `operator[]` addresses: rows of 24 bytes rounded to 32, so the
      diagonal sits at bytes 0, 40 and 80. */
  function Identity(): Dense.DenseMatrix
  {
    Dense.DenseMatrix(3, 3, 32, 96, seq(96, (a: int) => if a == 0 || a == 40 || a == 80 then 1 else 0))
  }

  lemma IdentityCells()
    ensures Dense.Valid(Identity()) && Dense.Size(Identity()) == (3, 3)
    ensures forall i: nat, j: nat :: i < 3 && j < 3 ==> Dense.Cell(Identity(), i, j) == if i == j then 1 else 0
  {
    Layout.RoundingExamples();
  }

  /** The expected product: the entries scattered into a zero matrix. */
  function Scattered(i: nat, j: nat): int
    requires i < 3 && j < 3
  {
    if i == 0 then (if j == 0 then 1 else 0)
    else if i == 1 then (if j == 0 then 3 else if j == 1 then 2 else 0)
    else (if j == 0 then 4 else 0)
  }

  lemma DotOne(v: int, c: nat, rhs: Dense.DenseMatrix, j: nat)
    requires Dense.Valid(rhs) && c < rhs.lineNum && j < rhs.columnNum
    ensures Product.ColumnsFit([c], rhs.lineNum)
    ensures Product.Dot([v], [c], rhs, j) == v * Dense.Cell(rhs, c, j)
  {
    assert [v][..0] == [];
  }

  lemma DotTwo(v: int, c: nat, v2: int, c2: nat, rhs: Dense.DenseMatrix, j: nat)
    requires Dense.Valid(rhs) && c < rhs.lineNum && c2 < rhs.lineNum && j < rhs.columnNum
    ensures Product.ColumnsFit([c, c2], rhs.lineNum)
    ensures Product.Dot([v, v2], [c, c2], rhs, j) == v * Dense.Cell(rhs, c, j) + v2 * Dense.Cell(rhs, c2, j)
  {
    assert [v, v2][..1] == [v] && [c, c2][..1] == [c];
    DotOne(v, c, rhs, j);
  }

  /** Each cell of the product with the identity is the scattered entry. */
  lemma ProductCells(a: Csr.CsrMatrix, i: nat, j: nat)
    requires HasExampleRows(a) && i < 3 && j < 3
    ensures Dense.Valid(Identity()) && Product.LineFits(a, Identity(), i)
    ensures Product.ProductCell(a, Identity(), i, j) == Scattered(i, j)
  {
    IdentityCells();
    var id := Identity();
    if i == 1 {
      DotTwo(2, 1, 3, 0, id, j);
    } else {
      DotOne(if i == 0 then 1 else 4, 0, id, j);
    }
  }

  /** Each cell of the sparse matrix is the scattered entry. */
  lemma SparseCells(a: Csr.CsrMatrix, i: nat, j: nat)
    requires HasExampleRows(a) && i < 3 && j < 3
    ensures Csr.Lookup(a, i, j) == Ok(Scattered(i, j))
  {
    var line := Csr.Row(a, i).value;
    assert line.columns[1..] == if i == 1 then [0] else [];
    assert Csr.Lookup(a, i, j) == Csr.LineAt(line, j);
  }

  /** The product of such a store with the identity is defined, and it agrees
      with the store cell by cell. */
  lemma ExampleCells(a: Csr.CsrMatrix)
    requires HasExampleRows(a)
    ensures Dense.Valid(Identity()) && a.columnNum == Identity().lineNum && Product.ColumnsInRange(a)
    ensures forall i: nat, j: nat :: i < 3 && j < 3 ==>
              Product.ProductCell(a, Identity(), i, j) == Scattered(i, j) && Csr.Lookup(a, i, j) == Ok(Scattered(i, j))
  {
    IdentityCells();
    var id := Identity();
    forall i: nat, j: nat | i < 3 && j < 3
      ensures Product.LineFits(a, id, i)
      ensures Product.ProductCell(a, id, i, j) == Scattered(i, j) && Csr.Lookup(a, i, j) == Ok(Scattered(i, j))
    {
      ProductCells(a, i, j);
      SparseCells(a, i, j);
    }
    Product.FittingLinesMeanColumnsInRange(a, id);
  }

  /** `operator*` of the built store and the identity succeeds, and every
      cell of the product is the sparse matrix's own cell, which is the
      scattered entry. */
  method MultiplyByIdentity(junk: nat -> int) returns (r: Result<Dense.DenseMatrix>)
    ensures r.Ok? && Dense.Valid(r.value) && Dense.Size(r.value) == (3, 3)
    ensures forall i: nat, j: nat :: i < 3 && j < 3 ==>
              Dense.Cell(r.value, i, j) == Scattered(i, j) && Csr.Lookup(Built(), i, j) == Ok(Scattered(i, j))
  {
    BuiltRows();
    var a := Built();
    ExampleCells(a);
    r := Product.Multiply(a, Identity(), junk);
  }
}
