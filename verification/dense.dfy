/** `DenseMatrix`: a row-major matrix whose rows start `lineCapacity` bytes
    apart in one buffer, with bounds-checked row views. */
module Dense {
  import opened Outcomes
  import Layout
  import Arith

  /** The store. `memory` is addressed by byte offset; the element of a cell
      is held at the offset where it starts. `lineCapacity` and `capacity`
      are in bytes, as in the source. */
  datatype DenseMatrix = DenseMatrix(
    lineNum: nat,
    columnNum: nat,
    lineCapacity: nat,
    capacity: nat,
    memory: seq<int>)

  /** What every constructor and `resize` establish: the row size is the
      rounded one, every row fits in the buffer. */
  predicate Valid(m: DenseMatrix)
  {
    && m.lineCapacity == Layout.ProperLineCapacityOf(m.columnNum)
    && m.lineNum * m.lineCapacity <= m.capacity
    && |m.memory| == m.capacity
  }

  /** A cell the logical bounds admit. */
  predicate InBounds(m: DenseMatrix, i: nat, j: nat)
  {
    i < m.lineNum && j < m.columnNum
  }

  /** `size()`: the pair bounding exactly the cells that can be addressed. */
  function Size(m: DenseMatrix): (r: (nat, nat))
    ensures forall i: nat, j: nat :: InBounds(m, i, j) <==> i < r.0 && j < r.1
  {
    (m.lineNum, m.columnNum)
  }

  /** Byte offset of cell `(i, j)` in the buffer. */
  function Address(m: DenseMatrix, i: nat, j: nat): nat
  {
    Layout.Offset(m.lineCapacity, i, j)
  }

  /** A logical cell lies in its row's slot, before the padding, and inside
      the buffer. */
  lemma AddressInside(m: DenseMatrix, i: nat, j: nat)
    requires Valid(m) && InBounds(m, i, j)
    ensures i * m.lineCapacity <= Address(m, i, j)
    ensures Address(m, i, j) + Layout.ElemBytes <= i * m.lineCapacity + m.columnNum * Layout.ElemBytes
    ensures Address(m, i, j) + Layout.ElemBytes <= m.capacity
  {
    Layout.ElementInsideLine(m.columnNum, m.lineCapacity, i, j);
    Layout.LineInsideBlock(m.lineCapacity, i, m.lineNum);
  }

  /** The value stored for cell `(i, j)`. */
  function Cell(m: DenseMatrix, i: nat, j: nat): int
    requires Valid(m) && InBounds(m, i, j)
  {
    AddressInside(m, i, j);
    m.memory[Address(m, i, j)]
  }

  /** A change to the bytes of one cell leaves every other cell as it was. */
  lemma WriteFrame(m: DenseMatrix, r: DenseMatrix, i: nat, j: nat)
    requires Valid(m) && InBounds(m, i, j)
    requires r.lineNum == m.lineNum && r.columnNum == m.columnNum
    requires r.lineCapacity == m.lineCapacity && r.capacity == m.capacity
    requires |r.memory| == |m.memory|
    requires forall a :: 0 <= a < |m.memory| && a != Address(m, i, j) ==> r.memory[a] == m.memory[a]
    ensures forall i2: nat, j2: nat :: InBounds(m, i2, j2) && (i2 != i || j2 != j) ==> Cell(r, i2, j2) == Cell(m, i2, j2)
  {
    forall i2, j2 | InBounds(m, i2, j2) && (i2 != i || j2 != j)
      ensures Cell(r, i2, j2) == Cell(m, i2, j2)
    {
      var a2 := Address(m, i2, j2);
      AddressInside(m, i2, j2);
      Layout.ElementsDisjoint(m.columnNum, m.lineCapacity, i, j, i2, j2);
      assert a2 != Address(m, i, j);
      assert Address(r, i2, j2) == a2;
    }
  }

  /** Assignment through a row view to an in-range cell: exactly that cell
      changes, and no byte other than the cell's own. */
  function Update(m: DenseMatrix, i: nat, j: nat, v: int): (r: DenseMatrix)
    requires Valid(m) && InBounds(m, i, j)
    ensures Valid(r) && Size(r) == Size(m) && r.lineCapacity == m.lineCapacity && r.capacity == m.capacity
    ensures Cell(r, i, j) == v
    ensures forall i2: nat, j2: nat :: InBounds(m, i2, j2) && (i2 != i || j2 != j) ==> Cell(r, i2, j2) == Cell(m, i2, j2)
    ensures forall a :: 0 <= a < |m.memory| && a != Address(m, i, j) ==> r.memory[a] == m.memory[a]
  {
    AddressInside(m, i, j);
    var r := m.(memory := m.memory[Address(m, i, j) := v]);
    WriteFrame(m, r, i, j);
    r
  }

  /** `Line` / `ConstLine`: a view of `size` elements starting at byte
      `base` of the parent's buffer. */
  datatype Line = Line(size: nat, base: nat)

  predicate LineFits(m: DenseMatrix, line: Line)
  {
    line.base + line.size * Layout.ElemBytes <= |m.memory|
  }

  /** `operator[](index)` on the matrix: the view of row `i`. */
  function RowAt(m: DenseMatrix, i: nat): (r: Result<Line>)
    requires Valid(m)
    ensures r.Throw? <==> i >= m.lineNum
    ensures r.Throw? ==> r.error == OutOfRange
    ensures r.Ok? ==> LineFits(m, r.value) && r.value.size == m.columnNum
    ensures r.Ok? ==> i * m.lineCapacity <= r.value.base
                      && r.value.base + r.value.size * Layout.ElemBytes <= i * m.lineCapacity + m.lineCapacity
                      && i * m.lineCapacity + m.lineCapacity <= m.capacity
  {
    if i >= m.lineNum then Throw(OutOfRange)
    else
      Layout.LineInsideBlock(m.lineCapacity, i, m.lineNum);
      Ok(Line(m.columnNum, i * m.lineCapacity))
  }

  /** `Line::operator[]` for reading. */
  function LineRead(m: DenseMatrix, line: Line, j: nat): (r: Result<int>)
    requires LineFits(m, line)
    ensures r.Throw? <==> j >= line.size
    ensures r.Throw? ==> r.error == OutOfRange
  {
    if j >= line.size then Throw(OutOfRange)
    else
      Ok(m.memory[line.base + j * Layout.ElemBytes])
  }

  /** `Line::operator[]` used as an assignment target. */
  function LineWrite(m: DenseMatrix, line: Line, j: nat, v: int): (r: Result<DenseMatrix>)
    requires LineFits(m, line)
    ensures r.Throw? <==> j >= line.size
    ensures r.Throw? ==> r.error == OutOfRange
    ensures r.Ok? ==> |r.value.memory| == |m.memory|
  {
    if j >= line.size then Throw(OutOfRange)
    else
      Ok(m.(memory := m.memory[line.base + j * Layout.ElemBytes := v]))
  }

  /** `m[i][j]` read: throws exactly when a logical bound is exceeded, and
      otherwise yields the cell. */
  function Get(m: DenseMatrix, i: nat, j: nat): (r: Result<int>)
    requires Valid(m)
    ensures r.Throw? <==> i >= m.lineNum || j >= m.columnNum
    ensures r.Throw? ==> r.error == OutOfRange
    ensures r.Ok? ==> InBounds(m, i, j) && r.value == Cell(m, i, j)
  {
    match RowAt(m, i)
    case Throw(e) => Throw(e)
    case Ok(line) => LineRead(m, line, j)
  }

  /** `m[i][j] = v`: throws exactly when a logical bound is exceeded, and
      otherwise changes that one cell. */
  function Set(m: DenseMatrix, i: nat, j: nat, v: int): (r: Result<DenseMatrix>)
    requires Valid(m)
    ensures r.Throw? <==> i >= m.lineNum || j >= m.columnNum
    ensures r.Throw? ==> r.error == OutOfRange
    ensures r.Ok? ==> InBounds(m, i, j) && r.value == Update(m, i, j, v)
  {
    match RowAt(m, i)
    case Throw(e) => Throw(e)
    case Ok(line) => LineWrite(m, line, j, v)
  }

  /** Reading back through the row views after a write: the written cell
      gives the new value, every other cell what it held, and the same
      indexes throw as before. */
  lemma SetThenGet(m: DenseMatrix, i: nat, j: nat, v: int, i2: nat, j2: nat)
    requires Valid(m) && Set(m, i, j, v).Ok?
    ensures Valid(Set(m, i, j, v).value)
    ensures Get(Set(m, i, j, v).value, i2, j2) == if i2 == i && j2 == j then Ok(v) else Get(m, i2, j2)
  {
  }

  /** Memory fresh from `operator new`: its contents are whatever `junk`
      says. */
  function Allocate(bytes: nat, junk: nat -> int): (s: seq<int>)
    ensures |s| == bytes
  {
    seq(bytes, (a: nat) => junk(a))
  }

  /** The constructor `DenseMatrix(lineNum, columnNum, initValue)`: a buffer
      of exactly `lineNum` rounded rows, every logical cell `initValue`. */
  method Create(lineNum: nat, columnNum: nat, initValue: int, junk: nat -> int) returns (m: DenseMatrix)
    ensures Valid(m) && Size(m) == (lineNum, columnNum)
    ensures m.capacity == lineNum * m.lineCapacity
    ensures forall i: nat, j: nat :: InBounds(m, i, j) ==> Cell(m, i, j) == initValue
  {
    var lineCapacity := Layout.ProperLineCapacityOf(columnNum);
    Arith.MulMonotone(0, lineNum, lineCapacity);
    var capacity := lineNum * lineCapacity;
    m := DenseMatrix(lineNum, columnNum, lineCapacity, capacity, Allocate(capacity, junk));
    var i := 0;
    while i < lineNum
      invariant i <= lineNum
      invariant Valid(m) && Size(m) == (lineNum, columnNum) && m.capacity == capacity
      invariant forall i2: nat, j2: nat :: InBounds(m, i2, j2) && i2 < i ==> Cell(m, i2, j2) == initValue
    {
      m := FillLine(m, i, initValue);
      i := i + 1;
    }
  }

  /** The constructor's inner loop: every cell of row `i` becomes `v`, other
      rows are untouched. */
  method FillLine(m: DenseMatrix, i: nat, v: int) returns (r: DenseMatrix)
    requires Valid(m) && i < m.lineNum
    ensures Valid(r) && Size(r) == Size(m) && r.capacity == m.capacity
    ensures forall j: nat :: j < m.columnNum ==> Cell(r, i, j) == v
    ensures forall i2: nat, j2: nat :: InBounds(m, i2, j2) && i2 != i ==> Cell(r, i2, j2) == Cell(m, i2, j2)
  {
    r := m;
    var j := 0;
    while j < m.columnNum
      invariant j <= m.columnNum
      invariant Valid(r) && Size(r) == Size(m) && r.capacity == m.capacity
      invariant forall j2: nat :: j2 < j ==> Cell(r, i, j2) == v
      invariant forall i2: nat, j2: nat :: InBounds(m, i2, j2) && i2 != i ==> Cell(r, i2, j2) == Cell(m, i2, j2)
    {
      r := Update(r, i, j, v);
      j := j + 1;
    }
  }

  /** `resize(lineNum, columnNum)`: the new dimensions and row size take
      effect at once; the buffer is replaced by fresh memory exactly when the
      new rows do not fit in the current capacity, so capacity never
      shrinks and otherwise the old bytes stay where they were. */
  function Resize(m: DenseMatrix, lineNum: nat, columnNum: nat, junk: nat -> int): (r: DenseMatrix)
    requires Valid(m)
    ensures Valid(r) && Size(r) == (lineNum, columnNum)
    ensures r.capacity >= m.capacity
    ensures r.capacity != m.capacity <==> lineNum * r.lineCapacity > m.capacity
    ensures lineNum * r.lineCapacity <= m.capacity ==> r.memory == m.memory
  {
    var lineCapacity := Layout.ProperLineCapacityOf(columnNum);
    if lineNum * lineCapacity > m.capacity then
      DenseMatrix(lineNum, columnNum, lineCapacity, lineNum * lineCapacity, Allocate(lineNum * lineCapacity, junk))
    else
      DenseMatrix(lineNum, columnNum, lineCapacity, m.capacity, m.memory)
  }

  /** The logical cells in row-major order, without padding. */
  function RowMajor(m: DenseMatrix): (s: seq<int>)
    requires Valid(m)
    ensures |s| == m.lineNum * m.columnNum
  {
    Arith.MulMonotone(0, m.lineNum, m.columnNum);
    seq(m.lineNum * m.columnNum, k requires 0 <= k < m.lineNum * m.columnNum =>
      Arith.SplitRowMajor(k, m.columnNum, m.lineNum);
      Cell(m, k / m.columnNum, k % m.columnNum))
  }

  /** Position `i * columnNum + j` of the row-major sequence holds cell
      `(i, j)`. */
  lemma RowMajorAt(m: DenseMatrix, i: nat, j: nat)
    requires Valid(m) && InBounds(m, i, j)
    ensures 0 <= i * m.columnNum + j < |RowMajor(m)|
    ensures RowMajor(m)[i * m.columnNum + j] == Cell(m, i, j)
  {
    var k := i * m.columnNum + j;
    Arith.RowMajorBound(i, j, m.columnNum, m.lineNum);
    Arith.RowMajorDivMod(i, j, m.columnNum);
    assert RowMajor(m)[k] == Cell(m, k / m.columnNum, k % m.columnNum);
  }
}
