/** `CSRMatrix`: a compressed-sparse-row store built by appending
    (value, row, column) entries in non-decreasing row order. */
module Csr {
  import opened Outcomes

  /** `ConstLine::ZERO`: what a lookup of an absent entry yields. */
  const Zero: int := 0

  /** One coordinate entry, the `(value, lineIndex, columnIndex)` tuple. */
  datatype Entry = Entry(value: int, line: nat, column: nat)

  /** The store. `linePtrs` only reaches as far as the last row that has
      been appended to: it has `CurrentLine + 2` elements. */
  datatype CsrMatrix = CsrMatrix(
    lineNum: nat,
    columnNum: nat,
    values: seq<int>,
    columnIndexes: seq<nat>,
    linePtrs: seq<nat>)

  function Last(s: seq<nat>): nat
    requires |s| > 0
  {
    s[|s| - 1]
  }

  /** The invariant every constructor, `resize` and successful `push_back`
      leave behind. */
  predicate Valid(m: CsrMatrix)
  {
    && |m.linePtrs| >= 2
    && m.linePtrs[0] == 0
    && (forall a, b :: 0 <= a <= b < |m.linePtrs| ==> m.linePtrs[a] <= m.linePtrs[b])
    && Last(m.linePtrs) == |m.values|
    && |m.columnIndexes| == |m.values|
    && (|m.values| > 0 ==> |m.linePtrs| - 2 < m.lineNum)
    && (|m.linePtrs| > 2 ==> m.linePtrs[|m.linePtrs| - 2] < Last(m.linePtrs))
  }

  /** The row the next entry is appended to unless it names a later row:
      `__linePtrs.size() - 2`. */
  function CurrentLine(m: CsrMatrix): nat
    requires |m.linePtrs| >= 2
  {
    |m.linePtrs| - 2
  }

  /** A cell the logical bounds admit. */
  predicate InBounds(m: CsrMatrix, i: nat, j: nat)
  {
    i < m.lineNum && j < m.columnNum
  }

  /** `size()`: the pair bounding exactly the cells that can be addressed. */
  function Size(m: CsrMatrix): (r: (nat, nat))
    ensures forall i: nat, j: nat :: InBounds(m, i, j) <==> i < r.0 && j < r.1
  {
    (m.lineNum, m.columnNum)
  }

  /** The constructor `CSRMatrix(lineNum, columnNum)`: an empty store whose
      every in-range cell reads as zero. */
  function Create(lineNum: nat, columnNum: nat): (m: CsrMatrix)
    ensures Valid(m) && Size(m) == (lineNum, columnNum)
    ensures m.values == [] && m.columnIndexes == []
    ensures forall i: nat, j: nat :: i < lineNum && j < columnNum ==> Lookup(m, i, j) == Ok(Zero)
  {
    CsrMatrix(lineNum, columnNum, [], [], [0, 0])
  }

  /** `resize(lineNum, columnNum)`: new dimensions, and every entry that was
      stored is forgotten. */
  function Resize(m: CsrMatrix, lineNum: nat, columnNum: nat): (r: CsrMatrix)
    ensures Valid(r) && Size(r) == (lineNum, columnNum)
    ensures r.values == [] && r.columnIndexes == [] && r.linePtrs == [0, 0]
    ensures forall i: nat, j: nat :: i < lineNum && j < columnNum ==> Lookup(r, i, j) == Ok(Zero)
  {
    Create(lineNum, columnNum)
  }

  /** `push_back(entry)`. An entry for a row before the current one throws
      `invalid_argument`; one for a row past the last throws `out_of_range`;
      both are checked before anything changes, so a throwing call leaves
      the caller with the store it had. Otherwise the pointers of skipped
      rows repeat the running count and the entry lands at the end. */
  function PushBack(m: CsrMatrix, e: Entry): (r: Result<CsrMatrix>)
    requires Valid(m)
    ensures r.Throw? <==> e.line < CurrentLine(m) || e.line >= m.lineNum
    ensures r == Throw(InvalidArgument) <==> e.line < CurrentLine(m)
    ensures r.Ok? ==>
      var n := r.value;
      && Valid(n) && Size(n) == Size(m)
      && CurrentLine(n) == e.line
      && n.values == m.values + [e.value]
      && n.columnIndexes == m.columnIndexes + [e.column]
      && n.linePtrs[..|m.linePtrs| - 1] == m.linePtrs[..|m.linePtrs| - 1]
      && (forall t :: |m.linePtrs| - 1 <= t < |n.linePtrs| - 1 ==> n.linePtrs[t] == Last(m.linePtrs))
      && Last(n.linePtrs) == Last(m.linePtrs) + 1
  {
    var current := CurrentLine(m);
    if e.line < current then Throw(InvalidArgument)
    else if e.line >= m.lineNum then Throw(OutOfRange)
    else
      var ptrs := GrowPointers(m.linePtrs, e.line);
      Ok(CsrMatrix(m.lineNum, m.columnNum, m.values + [e.value], m.columnIndexes + [e.column], ptrs))
  }

  /** The row pointers after an append to row `line`: the rows skipped
      since the current one begin and end at the running count, and row
      `line` ends one past it. */
  function GrowPointers(linePtrs: seq<nat>, line: nat): (r: seq<nat>)
    requires |linePtrs| >= 2 && line >= |linePtrs| - 2
    requires forall a, b :: 0 <= a <= b < |linePtrs| ==> linePtrs[a] <= linePtrs[b]
    ensures |r| == line + 2
    ensures r[..|linePtrs| - 1] == linePtrs[..|linePtrs| - 1]
    ensures forall t :: |linePtrs| - 1 <= t < |r| - 1 ==> r[t] == Last(linePtrs)
    ensures Last(r) == Last(linePtrs) + 1
    ensures forall a, b :: 0 <= a <= b < |r| ==> r[a] <= r[b]
  {
    var last := Last(linePtrs);
    var grown := linePtrs + seq(line - (|linePtrs| - 2), _ => last);
    grown[|grown| - 1 := last + 1]
  }

  /** `ConstLine`: a row's values and column indexes, and the number of
      columns a lookup may ask for. */
  datatype CsrLine = CsrLine(size: nat, values: seq<int>, columns: seq<nat>)

  /** `operator[](index)`: the view of row `i`, empty for rows past the
      last one appended to. */
  function Row(m: CsrMatrix, i: nat): (r: Result<CsrLine>)
    requires Valid(m)
    ensures r.Throw? <==> i >= m.lineNum
    ensures r.Throw? ==> r.error == OutOfRange
    ensures r.Ok? ==> r.value.size == m.columnNum && |r.value.values| == |r.value.columns|
    ensures r.Ok? && i > CurrentLine(m) ==> r.value.values == [] && r.value.columns == []
  {
    if i >= m.lineNum then Throw(OutOfRange)
    else if i > CurrentLine(m) then Ok(CsrLine(m.columnNum, [], []))
    else
      var lo := m.linePtrs[i];
      var hi := m.linePtrs[i + 1];
      Ok(CsrLine(m.columnNum, m.values[lo..hi], m.columnIndexes[lo..hi]))
  }

  /** The linear scan of `ConstLine::operator[]`: the position of the first
      occurrence of `j`, or `|columns|` when there is none. */
  function FirstMatch(columns: seq<nat>, j: nat): (k: nat)
    ensures k <= |columns|
    ensures forall t :: 0 <= t < k ==> columns[t] != j
    ensures k < |columns| ==> columns[k] == j
  {
    if |columns| == 0 then 0
    else if columns[0] == j then 0
    else 1 + FirstMatch(columns[1..], j)
  }

  /** `ConstLine::operator[](j)`: throws past the row's width; otherwise the
      value of the first entry with column `j`, or zero when there is none. */
  function LineAt(line: CsrLine, j: nat): (r: Result<int>)
    requires |line.values| == |line.columns|
    ensures r.Throw? <==> j >= line.size
    ensures r.Throw? ==> r.error == OutOfRange
    ensures r.Ok? && j !in line.columns ==> r.value == Zero
    ensures r.Ok? && j in line.columns ==>
      exists k :: 0 <= k < |line.columns| && line.columns[k] == j && r.value == line.values[k]
                  && (forall t :: 0 <= t < k ==> line.columns[t] != j)
  {
    if j >= line.size then Throw(OutOfRange)
    else
      var k := FirstMatch(line.columns, j);
      if k < |line.columns| then Ok(line.values[k]) else Ok(Zero)
  }

  /** `m[i][j]`: throws exactly when a logical bound is exceeded; rows past
      the last one appended to read as zero. */
  function Lookup(m: CsrMatrix, i: nat, j: nat): (r: Result<int>)
    requires Valid(m)
    ensures r.Throw? <==> i >= m.lineNum || j >= m.columnNum
    ensures r.Throw? ==> r.error == OutOfRange
    ensures r.Ok? && i > CurrentLine(m) ==> r.value == Zero
  {
    match Row(m, i)
    case Throw(e) => Throw(e)
    case Ok(line) => LineAt(line, j)
  }

  /** Slices of a sequence with one element appended: a slice inside the
      old part is unchanged, and a slice reaching the end gains the element. */
  lemma AppendSlice<T>(s: seq<T>, x: T, lo: nat, hi: nat)
    requires lo <= hi <= |s|
    ensures (s + [x])[lo..hi] == s[lo..hi]
    ensures (s + [x])[lo..|s| + 1] == s[lo..] + [x]
  {
  }

  /** A successful `push_back` adds its entry to the end of its own row and
      leaves every other row as it was. */
  lemma PushBackRowEffect(m: CsrMatrix, e: Entry, i: nat)
    requires Valid(m) && PushBack(m, e).Ok? && i < m.lineNum
    ensures var n := PushBack(m, e).value;
            && Row(n, i).value.values == Row(m, i).value.values + (if i == e.line then [e.value] else [])
            && Row(n, i).value.columns == Row(m, i).value.columns + (if i == e.line then [e.column] else [])
  {
    var n := PushBack(m, e).value;
    var cur := CurrentLine(m);
    var last := Last(m.linePtrs);
    if i <= cur {
      var lo, hi := m.linePtrs[i], m.linePtrs[i + 1];
      assert n.linePtrs[i] == lo;
      AppendSlice(m.values, e.value, lo, hi);
      AppendSlice(m.columnIndexes, e.column, lo, hi);
      if i == cur && i == e.line {
        assert n.linePtrs[i + 1] == last + 1;
      } else {
        assert n.linePtrs[i + 1] == hi;
      }
    } else if i < e.line {
      assert n.linePtrs[i] == last && n.linePtrs[i + 1] == last;
    } else if i == e.line {
      assert n.linePtrs[i] == last && n.linePtrs[i + 1] == last + 1;
      AppendSlice(m.values, e.value, last, last);
      AppendSlice(m.columnIndexes, e.column, last, last);
    }
  }

  /** Appending the entries `es` one `push_back` at a time, stopping at the
      first one that throws: the store as far as it got, and the exception
      if there was one. */
  function Replay(m: CsrMatrix, es: seq<Entry>): (r: (CsrMatrix, Option<Error>))
    requires Valid(m)
    ensures Valid(r.0) && Size(r.0) == Size(m)
    ensures r.1.None? ==> |r.0.values| == |m.values| + |es|
    decreases |es|
  {
    if |es| == 0 then (m, None)
    else
      match PushBack(m, es[0])
      case Throw(e) => (m, Some(e))
      case Ok(next) => Replay(next, es[1..])
  }

  /** One step of `Replay`: the first entry's `push_back`, then the rest. */
  lemma ReplayStep(m: CsrMatrix, es: seq<Entry>)
    requires Valid(m) && |es| > 0
    ensures PushBack(m, es[0]).Throw? ==> Replay(m, es) == (m, Some(PushBack(m, es[0]).error))
    ensures PushBack(m, es[0]).Ok? ==> Replay(m, es) == Replay(PushBack(m, es[0]).value, es[1..])
  {
  }

  /** The loop of `operator>>`: `push_back` each entry in turn, stopping at
      the first that throws. */
  method PushAll(m: CsrMatrix, es: seq<Entry>) returns (r: CsrMatrix, thrown: Option<Error>)
    requires Valid(m)
    ensures (r, thrown) == Replay(m, es)
  {
    r := m;
    var idx := 0;
    while idx < |es|
      invariant idx <= |es| && Valid(r)
      invariant Replay(m, es) == Replay(r, es[idx..])
    {
      ghost var rest := es[idx..];
      assert rest[0] == es[idx];
      ReplayStep(r, rest);
      match PushBack(r, es[idx])
      case Throw(e) =>
        thrown := Some(e);
        return;
      case Ok(next) =>
        assert rest[1..] == es[idx + 1..];
        r := next;
      idx := idx + 1;
    }
    assert es[idx..] == [];
    thrown := None;
  }

  /** The rows of `es` never decrease, starting from row `from`. */
  predicate InRowOrder(from: nat, es: seq<Entry>)
  {
    && (|es| > 0 ==> from <= es[0].line)
    && (forall k :: 0 < k < |es| ==> es[k - 1].line <= es[k].line)
  }

  predicate LinesBelow(lineNum: nat, es: seq<Entry>)
  {
    forall k :: 0 <= k < |es| ==> es[k].line < lineNum
  }

  /** Appending a list of entries succeeds exactly when their rows never go
      back (starting from the current row) and all lie below `lineNum`. */
  lemma {:induction false} ReplayAcceptsIff(m: CsrMatrix, es: seq<Entry>)
    requires Valid(m)
    ensures Replay(m, es).1.None? <==> InRowOrder(CurrentLine(m), es) && LinesBelow(m.lineNum, es)
    decreases |es|
  {
    if |es| > 0 {
      match PushBack(m, es[0])
      case Throw(e) =>
      case Ok(next) =>
        ReplayAcceptsIff(next, es[1..]);
        assert InRowOrder(CurrentLine(m), es) <==> InRowOrder(CurrentLine(next), es[1..]) by {
          if InRowOrder(CurrentLine(next), es[1..]) {
            forall k | 0 < k < |es| ensures es[k - 1].line <= es[k].line {
              if k > 1 {
                assert es[1..][k - 2] == es[k - 1] && es[1..][k - 1] == es[k];
              }
            }
          }
        }
        assert LinesBelow(m.lineNum, es) <==> LinesBelow(next.lineNum, es[1..]) by {
          if LinesBelow(next.lineNum, es[1..]) {
            forall k | 0 <= k < |es| ensures es[k].line < m.lineNum {
              if k > 0 {
                assert es[1..][k - 1] == es[k];
              }
            }
          }
        }
    }
  }

  /** The values, and the columns, of the entries of `es` on row `i`, in
      the order of `es`. */
  function ValuesOn(es: seq<Entry>, i: nat): seq<int>
  {
    if |es| == 0 then []
    else (if es[0].line == i then [es[0].value] else []) + ValuesOn(es[1..], i)
  }

  function ColumnsOn(es: seq<Entry>, i: nat): (cs: seq<nat>)
    ensures |cs| == |ValuesOn(es, i)|
  {
    if |es| == 0 then []
    else (if es[0].line == i then [es[0].column] else []) + ColumnsOn(es[1..], i)
  }

  /** A successful replay groups the entries by row, keeping their order
      within each row. */
  lemma {:induction false} ReplayGroupsByLine(m: CsrMatrix, es: seq<Entry>, i: nat)
    requires Valid(m) && Replay(m, es).1.None? && i < m.lineNum
    ensures Row(Replay(m, es).0, i).value.values == Row(m, i).value.values + ValuesOn(es, i)
    ensures Row(Replay(m, es).0, i).value.columns == Row(m, i).value.columns + ColumnsOn(es, i)
    decreases |es|
  {
    if |es| > 0 {
      var next := PushBack(m, es[0]).value;
      var r := Replay(m, es).0;
      assert r == Replay(next, es[1..]).0;
      var before, after, final := Row(m, i).value, Row(next, i).value, Row(r, i).value;
      PushBackRowEffect(m, es[0], i);
      ReplayGroupsByLine(next, es[1..], i);
      var extra := if es[0].line == i then [es[0].value] else [];
      var extraColumns := if es[0].line == i then [es[0].column] else [];
      assert ValuesOn(es, i) == extra + ValuesOn(es[1..], i);
      assert ColumnsOn(es, i) == extraColumns + ColumnsOn(es[1..], i);
      AppendAssoc(before.values, extra, ValuesOn(es[1..], i));
      AppendAssoc(before.columns, extraColumns, ColumnsOn(es[1..], i));
    } else {
      assert ColumnsOn(es, i) == [] && ValuesOn(es, i) == [];
    }
  }

  lemma AppendAssoc<T>(a: seq<T>, b: seq<T>, c: seq<T>)
    ensures (a + b) + c == a + (b + c)
  {
  }

  /** The value of the first entry of `es` at `(i, j)`, or zero. */
  function FirstValueAt(es: seq<Entry>, i: nat, j: nat): int
  {
    if |es| == 0 then Zero
    else if es[0].line == i && es[0].column == j then es[0].value
    else FirstValueAt(es[1..], i, j)
  }

  /** Looking up `j` in the row built from `es` finds the first entry of
      `es` at `(i, j)`. */
  lemma {:induction false} GroupedLookup(es: seq<Entry>, i: nat, j: nat, size: nat)
    requires j < size
    ensures LineAt(CsrLine(size, ValuesOn(es, i), ColumnsOn(es, i)), j) == Ok(FirstValueAt(es, i, j))
    decreases |es|
  {
    if |es| > 0 {
      GroupedLookup(es[1..], i, j, size);
      var vs, cs := ValuesOn(es[1..], i), ColumnsOn(es[1..], i);
      if es[0].line == i {
        assert ValuesOn(es, i) == [es[0].value] + vs;
        assert ColumnsOn(es, i) == [es[0].column] + cs;
        LineAtCons(size, es[0].value, es[0].column, vs, cs, j);
      } else {
        assert ValuesOn(es, i) == vs;
        assert ColumnsOn(es, i) == cs;
      }
    }
  }

  /** A lookup scans a row from its first entry. */
  lemma LineAtCons(size: nat, v: int, column: nat, vs: seq<int>, cs: seq<nat>, j: nat)
    requires j < size && |vs| == |cs|
    ensures LineAt(CsrLine(size, [v] + vs, [column] + cs), j) ==
            if column == j then Ok(v) else LineAt(CsrLine(size, vs, cs), j)
  {
    var columns := [column] + cs;
    assert columns[1..] == cs;
    if column != j {
      var k := FirstMatch(cs, j);
      assert FirstMatch(columns, j) == 1 + k;
      if k < |cs| {
        assert ([v] + vs)[1 + k] == vs[k];
      }
    }
  }

  /** Building a store from a list of entries in row order: every in-range
      cell reads back the value of the first entry at that cell, or zero. */
  lemma FromEntriesReadsBack(lineNum: nat, columnNum: nat, es: seq<Entry>, i: nat, j: nat)
    requires Replay(Create(lineNum, columnNum), es).1.None?
    requires i < lineNum && j < columnNum
    ensures Lookup(Replay(Create(lineNum, columnNum), es).0, i, j) == Ok(FirstValueAt(es, i, j))
  {
    var m := Create(lineNum, columnNum);
    var r := Replay(m, es).0;
    ReplayGroupsByLine(m, es, i);
    assert Row(m, i).value.values == [] && Row(m, i).value.columns == [];
    var line := Row(r, i).value;
    assert line == CsrLine(columnNum, ValuesOn(es, i), ColumnsOn(es, i));
    GroupedLookup(es, i, j, columnNum);
    assert Lookup(r, i, j) == LineAt(line, j);
  }

  /** The construction discipline on small examples: rows 2 then 1 are
      refused on the second entry, rows 1, 1, 2 are accepted. */
  lemma RowOrderExamples()
    ensures Replay(Create(3, 3), [Entry(1, 2, 0), Entry(2, 1, 0)]) ==
            (PushBack(Create(3, 3), Entry(1, 2, 0)).value, Some(InvalidArgument))
    ensures Replay(Create(3, 3), [Entry(1, 1, 0), Entry(2, 1, 1), Entry(3, 2, 0)]).1 == None
  {
    var es := [Entry(1, 2, 0), Entry(2, 1, 0)];
    assert es[1..] == [Entry(2, 1, 0)];
    var fs := [Entry(1, 1, 0), Entry(2, 1, 1), Entry(3, 2, 0)];
    ReplayAcceptsIff(Create(3, 3), fs);
  }
}
