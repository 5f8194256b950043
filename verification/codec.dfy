/** The binary stream operators: `>>` and `<<` for `DenseMatrix`, `>>` for
    `CSRMatrix`. A stream is a sequence of machine words, each holding
    either a `size_t` or an element. */
module Codec {
  import opened Outcomes
  import Dense
  import Csr
  import Arith

  datatype Word = SizeWord(size: nat) | ValueWord(value: int)

  /** What the bytes of a word of one kind mean when read as the other
      kind; the library reads without checking, so this is left abstract. */
  datatype Reinterpret = Reinterpret(sizeOfValueBytes: int -> nat, valueOfSizeBytes: nat -> int)

  /** The read buffer after the read of word `k` (counting from zero). A
      read past the end of the stream fails without touching the buffer,
      which then still holds the last word read, or its uninitialised
      contents `uninit` when nothing was read. */
  function Fetched(words: seq<Word>, k: nat, uninit: Word): (w: Word)
    ensures k < |words| ==> w == words[k]
    ensures k >= |words| && |words| > 0 ==> w == words[|words| - 1]
    ensures |words| == 0 ==> w == uninit
  {
    if k < |words| then words[k]
    else if |words| == 0 then uninit
    else words[|words| - 1]
  }

  /** The `size_t` read as word `k`. */
  function SizeAt(words: seq<Word>, k: nat, uninit: Word, cast: Reinterpret): nat
  {
    match Fetched(words, k, uninit)
    case SizeWord(n) => n
    case ValueWord(v) => cast.sizeOfValueBytes(v)
  }

  /** The element read as word `k`. */
  function ValueAt(words: seq<Word>, k: nat, uninit: Word, cast: Reinterpret): int
  {
    match Fetched(words, k, uninit)
    case ValueWord(v) => v
    case SizeWord(n) => cast.valueOfSizeBytes(n)
  }

  /** The element the dense reader stores in cell `(i, j)` of a matrix with
      `columnNum` columns: word `2 + i * columnNum + j`. */
  function CellWord(words: seq<Word>, columnNum: nat, i: nat, j: nat, uninit: Word, cast: Reinterpret): int
  {
    ValueAt(words, 2 + i * columnNum + j, uninit, cast)
  }

  /** `operator<<` for a dense matrix: the two dimensions, then the cells in
      row-major order with no padding. */
  function EncodeDense(m: Dense.DenseMatrix): (words: seq<Word>)
    requires Dense.Valid(m)
    ensures |words| >= 2 && |words| == 2 + m.lineNum * m.columnNum
    ensures words[0] == SizeWord(m.lineNum) && words[1] == SizeWord(m.columnNum)
  {
    var cells := Dense.RowMajor(m);
    [SizeWord(m.lineNum), SizeWord(m.columnNum)] + seq(|cells|, k requires 0 <= k < |cells| => ValueWord(cells[k]))
  }

  /** The writer's layout, cell by cell: cell `(i, j)` is word
      `2 + i * columnNum + j`. */
  lemma EncodeDenseLayout(m: Dense.DenseMatrix, i: nat, j: nat)
    requires Dense.Valid(m) && Dense.InBounds(m, i, j)
    ensures 0 <= 2 + i * m.columnNum + j < |EncodeDense(m)|
    ensures EncodeDense(m)[2 + i * m.columnNum + j] == ValueWord(Dense.Cell(m, i, j))
  {
    Dense.RowMajorAt(m, i, j);
  }

  /** The reader's inner loop: cells of row `i` from consecutive words. */
  method ReadLine(words: seq<Word>, m: Dense.DenseMatrix, i: nat, uninit: Word, cast: Reinterpret)
    returns (r: Dense.DenseMatrix)
    requires Dense.Valid(m) && i < m.lineNum
    ensures Dense.Valid(r) && Dense.Size(r) == Dense.Size(m)
    ensures forall j: nat :: j < m.columnNum ==>
              Dense.Cell(r, i, j) == CellWord(words, m.columnNum, i, j, uninit, cast)
    ensures forall i2: nat, j2: nat :: Dense.InBounds(m, i2, j2) && i2 != i ==> Dense.Cell(r, i2, j2) == Dense.Cell(m, i2, j2)
  {
    r := m;
    var j := 0;
    while j < m.columnNum
      invariant j <= m.columnNum
      invariant Dense.Valid(r) && Dense.Size(r) == Dense.Size(m)
      invariant forall j2: nat :: j2 < j ==> Dense.Cell(r, i, j2) == CellWord(words, m.columnNum, i, j2, uninit, cast)
      invariant forall i2: nat, j2: nat :: Dense.InBounds(m, i2, j2) && i2 != i ==> Dense.Cell(r, i2, j2) == Dense.Cell(m, i2, j2)
    {
      var value := CellWord(words, m.columnNum, i, j, uninit, cast);
      var written := Dense.Set(r, i, j, value);
      r := written.value;
      j := j + 1;
    }
  }

  /** `operator>>` for a dense matrix: read the dimensions, `resize` the
      target to them, then read every cell in row-major order. No check
      that the stream is long enough is made. */
  method DecodeDense(words: seq<Word>, target: Dense.DenseMatrix, uninit: Word, cast: Reinterpret, junk: nat -> int)
    returns (m: Dense.DenseMatrix)
    requires Dense.Valid(target)
    ensures Dense.Valid(m)
    ensures Dense.Size(m) == (SizeAt(words, 0, uninit, cast), SizeAt(words, 1, uninit, cast))
    ensures forall i: nat, j: nat :: Dense.InBounds(m, i, j) ==>
              Dense.Cell(m, i, j) == CellWord(words, m.columnNum, i, j, uninit, cast)
  {
    var lineNum := SizeAt(words, 0, uninit, cast);
    var columnNum := SizeAt(words, 1, uninit, cast);
    m := Dense.Resize(target, lineNum, columnNum, junk);
    var i := 0;
    while i < lineNum
      invariant i <= lineNum
      invariant Dense.Valid(m) && Dense.Size(m) == (lineNum, columnNum)
      invariant forall i2: nat, j: nat :: Dense.InBounds(m, i2, j) && i2 < i ==>
                  Dense.Cell(m, i2, j) == CellWord(words, columnNum, i2, j, uninit, cast)
    {
      m := ReadLine(words, m, i, uninit, cast);
      i := i + 1;
    }
  }

  /** Writing a dense matrix and reading the words back, into any target,
      gives its dimensions and every cell. */
  method DenseRoundTrip(m: Dense.DenseMatrix, target: Dense.DenseMatrix, uninit: Word, cast: Reinterpret, junk: nat -> int)
    returns (back: Dense.DenseMatrix)
    requires Dense.Valid(m) && Dense.Valid(target)
    ensures Dense.Valid(back) && Dense.Size(back) == Dense.Size(m)
    ensures forall i: nat, j: nat :: Dense.InBounds(m, i, j) ==> Dense.Cell(back, i, j) == Dense.Cell(m, i, j)
  {
    var words := EncodeDense(m);
    back := DecodeDense(words, target, uninit, cast, junk);
    forall i: nat, j: nat | Dense.InBounds(m, i, j)
      ensures Dense.Cell(back, i, j) == Dense.Cell(m, i, j)
    {
      EncodeDenseLayout(m, i, j);
    }
  }

  /** The entries of a sparse-matrix stream: after the two dimensions and
      the entry count, each entry is a value, a row index and a column
      index. */
  function CooEntries(words: seq<Word>, uninit: Word, cast: Reinterpret): (es: seq<Csr.Entry>)
    ensures |es| == SizeAt(words, 2, uninit, cast)
  {
    seq(SizeAt(words, 2, uninit, cast), (idx: nat) => CooEntry(words, idx, uninit, cast))
  }

  /** Entry number `idx` of a sparse-matrix stream. */
  function CooEntry(words: seq<Word>, idx: nat, uninit: Word, cast: Reinterpret): Csr.Entry
  {
    Csr.Entry(ValueAt(words, 3 + 3 * idx, uninit, cast),
              SizeAt(words, 4 + 3 * idx, uninit, cast),
              SizeAt(words, 5 + 3 * idx, uninit, cast))
  }

  /** `operator>>` for a CSR matrix: read the dimensions, `resize` the
      target (which empties it), read the entry count, then `push_back`
      every entry read. The first entry `push_back` refuses ends the read
      with its exception, and the matrix keeps the entries appended before
      it. Nothing else about the stream is checked. */
  method DecodeCsr(words: seq<Word>, target: Csr.CsrMatrix, uninit: Word, cast: Reinterpret)
    returns (m: Csr.CsrMatrix, thrown: Option<Error>)
    ensures var lineNum := SizeAt(words, 0, uninit, cast);
            (m, thrown) == Csr.Replay(Csr.Create(lineNum, SizeAt(words, 1, uninit, cast)), CooEntries(words, uninit, cast))
    ensures thrown.None? <==> Csr.InRowOrder(0, CooEntries(words, uninit, cast))
                              && Csr.LinesBelow(SizeAt(words, 0, uninit, cast), CooEntries(words, uninit, cast))
    ensures Csr.Size(m) == (SizeAt(words, 0, uninit, cast), SizeAt(words, 1, uninit, cast))
  {
    var lineNum := SizeAt(words, 0, uninit, cast);
    var columnNum := SizeAt(words, 1, uninit, cast);
    m := Csr.Resize(target, lineNum, columnNum);
    var es := CooEntries(words, uninit, cast);
    Csr.ReplayAcceptsIff(m, es);
    m, thrown := Csr.PushAll(m, es);
  }

  /** The words of a sparse-matrix stream as the test-case generator writes
      them: dimensions, entry count, then the entries. */
  function EncodeCoo(lineNum: nat, columnNum: nat, es: seq<Csr.Entry>): (words: seq<Word>)
    ensures |words| == 3 + 3 * |es|
  {
    [SizeWord(lineNum), SizeWord(columnNum), SizeWord(|es|)] + EncodeEntries(es)
  }

  function EncodeEntries(es: seq<Csr.Entry>): (words: seq<Word>)
    ensures |words| == 3 * |es|
  {
    if |es| == 0 then []
    else [ValueWord(es[0].value), SizeWord(es[0].line), SizeWord(es[0].column)] + EncodeEntries(es[1..])
  }

  /** Entry `idx` occupies words `3 * idx` to `3 * idx + 2`. */
  lemma {:induction false} EncodeEntriesAt(es: seq<Csr.Entry>, idx: nat)
    requires idx < |es|
    ensures EncodeEntries(es)[3 * idx] == ValueWord(es[idx].value)
    ensures EncodeEntries(es)[3 * idx + 1] == SizeWord(es[idx].line)
    ensures EncodeEntries(es)[3 * idx + 2] == SizeWord(es[idx].column)
    decreases idx
  {
    if idx > 0 {
      EncodeEntriesAt(es[1..], idx - 1);
    }
  }

  /** Reading back a stream in the generator's layout yields its
      dimensions and exactly its entries, whatever the buffer held before
      and however words of the other kind would be reinterpreted. */
  lemma CooStreamReadsBack(lineNum: nat, columnNum: nat, es: seq<Csr.Entry>, uninit: Word, cast: Reinterpret)
    ensures SizeAt(EncodeCoo(lineNum, columnNum, es), 0, uninit, cast) == lineNum
    ensures SizeAt(EncodeCoo(lineNum, columnNum, es), 1, uninit, cast) == columnNum
    ensures CooEntries(EncodeCoo(lineNum, columnNum, es), uninit, cast) == es
  {
    var words := EncodeCoo(lineNum, columnNum, es);
    var back := CooEntries(words, uninit, cast);
    assert SizeAt(words, 2, uninit, cast) == |es|;
    forall idx | 0 <= idx < |es|
      ensures back[idx] == es[idx]
    {
      EncodeEntriesAt(es, idx);
    }
  }

  /** Loading a generator-written stream: the same as appending its entries
      to an empty store, so it succeeds exactly when their rows are in
      order and in range, and then every cell reads back the first entry
      written for it, or zero. */
  method LoadCoo(lineNum: nat, columnNum: nat, es: seq<Csr.Entry>, target: Csr.CsrMatrix, uninit: Word, cast: Reinterpret)
    returns (m: Csr.CsrMatrix, thrown: Option<Error>)
    ensures (m, thrown) == Csr.Replay(Csr.Create(lineNum, columnNum), es)
    ensures thrown.None? <==> Csr.InRowOrder(0, es) && Csr.LinesBelow(lineNum, es)
    ensures thrown.None? ==> forall i: nat, j: nat :: i < lineNum && j < columnNum ==>
              Csr.Lookup(m, i, j) == Ok(Csr.FirstValueAt(es, i, j))
  {
    CooStreamReadsBack(lineNum, columnNum, es, uninit, cast);
    m, thrown := DecodeCsr(EncodeCoo(lineNum, columnNum, es), target, uninit, cast);
    forall i: nat, j: nat | thrown.None? && i < lineNum && j < columnNum
      ensures Csr.Lookup(m, i, j) == Ok(Csr.FirstValueAt(es, i, j))
    {
      Csr.FromEntriesReadsBack(lineNum, columnNum, es, i, j);
    }
  }
}
