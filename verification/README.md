# Sparse-times-dense matrix library, modelled in Dafny

This project models the matrix library of a small SpMM (sparse matrix times
dense matrix) benchmark. It covers:

- **`DenseMatrix`** (`include/matrix.hpp`). Rows of `columnNum` elements are
  stored `lineCapacity` bytes apart in one buffer. The row size comes from
  `proper_line_capacity_of`. Element access goes through bounds-checked row
  views (`Line`, `ConstLine`), and `resize` only grows the buffer.
- **`CSRMatrix`** (`include/matrix.hpp`). A compressed-sparse-row store that
  is built by `push_back` of `(value, row, column)` entries in
  non-decreasing row order. It has row views whose lookup scans the row for
  the first entry with the wanted column.
- **`CSRMatrix::operator*`**, the product with a dense matrix.
- **The binary stream operators** `>>`/`<<` for dense matrices and `>>` for
  CSR matrices.
- **`spmm_csr_dense`** (`spmm.cpp`). A kernel on plain arrays that adds the
  product of CSR arrays and a row-major dense array into a row-major result.

Elements are `int`. The library is only instantiated with `double`, so an
element is taken to be 8 bytes wide (`Layout.ElemBytes`). That width fixes
the byte arithmetic of the row layout. Exceptions are values of
`Outcomes.Result`: `Throw(OutOfRange)` stands for `std::out_of_range` and
`Throw(InvalidArgument)` for `std::invalid_argument`.

Modules, one per part of the program:

- `Outcomes`: the exception and result types.
- `Arith`: helper facts about row-major index arithmetic.
- `Layout`: `proper_line_capacity_of` and the byte layout of rows.
- `Dense`: the dense store, its constructor, `resize` and the row views.
- `Csr`: the CSR store, `push_back`, `resize`, row views and lookups. It
  also has `Replay`, the effect of a sequence of `push_back` calls.
- `Product`: `operator*`, as three nested loops that are methods.
- `Codec`: the stream operators. A stream is a sequence of words, each a
  `size_t` or an element.
- `Kernel`: `spmm_csr_dense`. It also ties the kernel to `operator*`: on a
  zeroed result with the arrays of a CSR matrix whose column indices are
  all below the dense matrix's row count, the kernel computes the same
  cells. With a column index out of range, `operator*` throws
  `out_of_range` while the kernel would read outside the dense array, so
  nothing is claimed for that case.
- `Scenario`: one worked case, a 3 by 3 sparse matrix built by `push_back`
  times the 3 by 3 identity.

Each operation is paired with an independent statement of what it must
compute:

- The dense store has `Cell`, read through the rounded layout; `Get`, `Set`
  and `SetThenGet` talk about it.
- The CSR store has `ValuesOn`/`ColumnsOn` (the entries of a row in append
  order) and `FirstValueAt` (the first entry at a cell).
- The product has `ProductCell`, a dot product over the row's entries.
- The kernel has `RowSum`, a sum over a row-pointer range.
- The codec has round trips: a dense matrix written and read back, and a
  generator-written COO stream read back.

## Model

| member | source | states |
|---|---|---|
| Layout.LineCapacitySearch | include/matrix.hpp:68-73 | from any power-of-two candidate that earlier rounds found too small, the loop ends with enough bytes: the smallest sufficient power of two up to 128, or otherwise a multiple of 128 strictly above the need and at most 128 above it |
| Layout.ProperLineCapacityOf | include/matrix.hpp:67-74 | a row gets at least `columnNum * 8` bytes (and at least 1). A row of at most 128 bytes gets the least power of two that holds it; a longer row gets a multiple of the 128-byte cache line, strictly more than its size and at most one cache line more |
| Layout.RoundingExamples | include/matrix.hpp:67-74 | 32 doubles (256 bytes) get 384 bytes, a whole spare cache line; 3 doubles (24 bytes) get 32; an empty row gets 1 byte; 17 doubles (136 bytes) get 256 and 33 doubles (264 bytes) get 384, multiples of the cache line that are not all powers of two |
| Layout.ElementInsideLine | include/matrix.hpp:155-158 | when the slot holds the row, element `j` of row `i` lies in that row's slot, before the padding |
| Layout.ElementsDisjoint | include/matrix.hpp:151-158 | two different cells never share a byte when every slot holds its row |
| Layout.ElementsInOrder | include/matrix.hpp:151-158 | every cell of an earlier row ends before any cell of a later row begins |
| Layout.LineInsideBlock | include/matrix.hpp:78 | every row of a `lineNum`-row block ends inside the `lineNum * lineCapacity` bytes allocated for it |
| Dense.Size | include/matrix.hpp:135-137 | `size()` gives the pair that bounds exactly the cells inside the logical bounds |
| Dense.AddressInside | include/matrix.hpp:151-158 | a logical cell's bytes lie inside its row's slot, before the padding, and inside the buffer |
| Dense.WriteFrame | include/matrix.hpp:40-43 | changing the bytes of one cell changes no other logical cell |
| Dense.Update | include/matrix.hpp:40-43 | assigning through a row view sets that cell; every other cell and every other byte stay as they were; the layout stays valid |
| Dense.RowAt | include/matrix.hpp:151-158 | row access throws `out_of_range` exactly when the row is out of range; otherwise the view has `columnNum` elements and lies inside the row's own slot, which lies inside the buffer |
| Dense.LineRead | include/matrix.hpp:36-39 | a row view read throws `out_of_range` exactly when the column is at or past the view's size |
| Dense.LineWrite | include/matrix.hpp:40-43 | a row view write throws `out_of_range` exactly when the column is at or past the view's size, and never resizes the buffer |
| Dense.Get | include/matrix.hpp:151-154 | `m[i][j]` throws `out_of_range` exactly when `i >= lineNum` or `j >= columnNum`, and otherwise reads the logical cell, so padding is never reached |
| Dense.Set | include/matrix.hpp:155-158 | `m[i][j] = v` throws exactly when an index is out of range, and otherwise changes only that cell |
| Dense.SetThenGet | include/matrix.hpp:36-43 | after a write, reading through the views gives the new value at the written cell and the old result at every other index, including the same exceptions |
| Dense.Create | include/matrix.hpp:78-86 | the constructor gives the requested size and a buffer of exactly `lineNum` rounded rows, with every logical cell equal to `initValue` |
| Dense.FillLine | include/matrix.hpp:82-84 | the constructor's inner loop sets every cell of its row to the value and leaves every other row alone |
| Dense.Resize | include/matrix.hpp:138-149 | `resize` gives the new size and the rounded row size. The buffer is replaced exactly when the new rows do not fit, so capacity never shrinks; otherwise the old bytes are kept |
| Dense.RowMajorAt | include/matrix.hpp:349-354 | position `i * columnNum + j` of the padding-free row-major order holds cell `(i, j)` |
| Csr.Size | include/matrix.hpp:234-236 | `size()` gives the pair that bounds exactly the cells inside the logical bounds |
| Csr.Create | include/matrix.hpp:210 | a new store has the given size and no entries, and every in-range cell reads as zero |
| Csr.Resize | include/matrix.hpp:237-244 | `resize` gives the new size, forgets every entry, restores the pointers `[0, 0]`, and every in-range cell reads as zero |
| Csr.PushBack | include/matrix.hpp:246-265 | `push_back` throws exactly when the row is before the current row (`invalid_argument`) or past the last row (`out_of_range`). Otherwise it keeps the store invariant (first pointer 0, pointers non-decreasing, last pointer equal to the number of values and column indexes), makes the entry's row the current one, appends the value and column, gives skipped rows empty ranges, and extends the entry's row by one |
| Csr.GrowPointers | include/matrix.hpp:256-264 | the pointer update keeps earlier pointers, starts and ends each skipped row at the running count, ends the entry's row one past it, and stays non-decreasing |
| Csr.PushBackRowEffect | include/matrix.hpp:246-265 | a successful `push_back` adds its entry to the end of its own row and leaves every other row as it was |
| Csr.Row | include/matrix.hpp:267-276 | row access throws `out_of_range` exactly when the row is out of range; the view has `columnNum` columns, and rows past the current row are empty |
| Csr.FirstMatch | include/matrix.hpp:193-197 | the row scan stops at the first position holding the column, or at the end when there is none |
| Csr.LineAt | include/matrix.hpp:190-199 | a row lookup throws `out_of_range` exactly when the column is at or past the row's width. Otherwise it gives the value of the first entry with that column, or zero when there is none |
| Csr.Lookup | include/matrix.hpp:267-276 | `m[i][j]` throws exactly when an index is out of range, and rows past the current one read as zero |
| Csr.Replay | include/matrix.hpp:372-380 | appending entries one by one, stopping at the first throw, keeps the store valid with the same size; when none throws, every entry was appended |
| Csr.ReplayStep | include/matrix.hpp:372-380 | appending a list is the first `push_back` followed by the rest, or stops with the first `push_back`'s exception |
| Csr.PushAll | include/matrix.hpp:372-380 | the reader's `push_back` loop produces the store and the exception that `Replay` defines |
| Csr.ReplayAcceptsIff | include/matrix.hpp:251-254 | appending a list succeeds if and only if its rows never go back (starting at the current row) and all lie below `lineNum` |
| Csr.ReplayGroupsByLine | include/matrix.hpp:256-264 | after a successful append of a list, each row holds its old entries followed by that row's entries from the list, in list order |
| Csr.GroupedLookup | include/matrix.hpp:190-199 | looking up a column in the row built from a list finds the first entry of the list at that cell, or zero |
| Csr.LineAtCons | include/matrix.hpp:193-197 | a lookup checks the row's first entry before the rest |
| Csr.FromEntriesReadsBack | include/matrix.hpp:246-276 | a store built from a list in row order reads back, at every in-range cell, the first entry written there, or zero |
| Csr.RowOrderExamples | include/matrix.hpp:253 | rows 2 then 1 are refused with `invalid_argument` on the second entry, keeping the first; rows 1, 1, 2 are accepted |
| Product.DotStep | include/matrix.hpp:297-306 | extending the entries by one adds that entry's value times the `rhs` cell its column names |
| Product.AccumulateEntry | include/matrix.hpp:302-306 | the innermost loop throws `out_of_range` exactly when `rhs` has a column and the entry's column is not a row of `rhs`. Otherwise it adds `value * rhs[column][j]` to every cell of its row and changes no other row |
| Product.AccumulateLine | include/matrix.hpp:297-307 | the middle loop throws exactly when `rhs` has a column and some entry of the row names a row `rhs` lacks. Otherwise it adds the row's dot product to each cell of its row and changes no other row |
| Product.FittingLinesMeanColumnsInRange | include/matrix.hpp:297-306 | when every row's columns name rows of `rhs` and the inner dimensions agree, every stored column index is below `columnNum` |
| Product.LineDone | include/matrix.hpp:290-308 | filling one more row with its product cells, and changing nothing else, extends the finished rows by one |
| Product.EmptyLineDone | include/matrix.hpp:291 | a row past the current one is already finished, because its cells are zero and its sum is empty |
| Product.MultiplyLine | include/matrix.hpp:290-308 | one pass of the outer loop throws exactly when the row names a row `rhs` lacks (and `rhs` has a column), which means some column index is out of range; otherwise it finishes that row |
| Product.Multiply | include/matrix.hpp:281-311 | `operator*` throws `invalid_argument` exactly when `columnNum != rhs.lineNum`. Otherwise it throws `out_of_range` exactly when `rhs` has a column and some stored column index is out of range. Otherwise it returns a valid `lineNum` by `rhs.columnNum` matrix whose every cell is the sum over its row's entries of `value * rhs[column][j]` (zero for rows without entries) |
| Codec.Fetched | include/matrix.hpp:320-325 | for a stream of whole words, the read buffer holds the word read, or after a read past the end, the last word read (the uninitialised buffer if there was none) |
| Codec.EncodeDense | include/matrix.hpp:338-356 | the writer emits the two dimensions and then `lineNum * columnNum` words |
| Codec.EncodeDenseLayout | include/matrix.hpp:349-354 | the writer puts cell `(i, j)` at word `2 + i * columnNum + j`, with no padding |
| Codec.ReadLine | include/matrix.hpp:329-332 | the reader's inner loop fills row `i` from consecutive words and leaves the other rows alone |
| Codec.DecodeDense | include/matrix.hpp:317-335 | the dense reader resizes the target to the two dimensions read and fills cell `(i, j)` from word `2 + i * columnNum + j`, whatever the stream's length |
| Codec.DenseRoundTrip | include/matrix.hpp:317-356 | writing a dense matrix and reading it back into any target gives the same dimensions and every cell |
| Codec.CooEntries | include/matrix.hpp:369-378 | the CSR reader reads as many entries as the count word says |
| Codec.DecodeCsr | include/matrix.hpp:359-383 | the CSR reader is `resize` followed by `push_back` of each entry read, keeping the partial store at the first exception. It throws if and only if the entries' rows go back or reach `lineNum` |
| Codec.EncodeCoo | testcase_gen.cpp:60-73 | the generator writes three header words and three words per entry |
| Codec.EncodeEntries | testcase_gen.cpp:66-73 | the generator's entry loop writes three words for every entry |
| Codec.EncodeEntriesAt | testcase_gen.cpp:66-73 | entry `k` occupies words `3k` to `3k + 2`, as value, row and column |
| Codec.CooStreamReadsBack | include/matrix.hpp:363-378 | reading a generator-written stream gives back its dimensions and exactly its entries, whatever the buffer held and however words would be reinterpreted |
| Codec.LoadCoo | include/matrix.hpp:359-383 | loading a generator-written stream succeeds exactly when its rows are in order and in range, and then every cell reads the first entry written for it, or zero |
| Kernel.AddScaledRow | spmm.cpp:15-22 | the innermost loop adds `dense[rhsBase + t] * value` to each of the `p` consecutive result cells from `resBase`, and nothing else changes |
| Kernel.AccumulateRow | spmm.cpp:11-23 | for a row with entries, the row's band of the result gains the row's sum at every column; a row whose begin pointer is not below its end changes nothing; nothing outside the band changes |
| Kernel.AccumulatedStep | spmm.cpp:10-24 | finishing one more row extends the rows done by one, and everything after it is still untouched |
| Kernel.SpmmCsrDense | spmm.cpp:6-25 | for every row below `m` with an entry and every column below `p`, the result cell ends as its initial value plus the row's sum. Rows without entries and everything past row `m` keep their initial values, and `n` is never read |
| Kernel.SpmmOnEmptyRows | spmm.cpp:11-19 | the kernel only adds into the result, so when all row pointers are equal the result is returned exactly as given |
| Kernel.RowPointersOf | include/matrix.hpp:291-295 | the store's pointers, extended to `lineNum + 1` entries with the running count for rows never appended to, all lie within the values |
| Kernel.RowOfPointers | include/matrix.hpp:294-295 | row `i` of the store is exactly the stretch between pointers `i` and `i + 1` of those extended pointers |
| Kernel.FittingEntriesReadable | spmm.cpp:12-16 | entries whose columns name rows of the dense matrix read inside the row-major dense array |
| Kernel.EntryTermIsCellTerm | spmm.cpp:15-19 | an entry's term against the row-major array is its value times the dense cell its column names |
| Kernel.RowSumIsDot | spmm.cpp:11-23 | the kernel's sum over a pointer range equals the product's dot product over the same entries |
| Kernel.CsrArraysAddressable | spmm.cpp:6-9 | the arrays of a CSR matrix whose columns are in range, with the dense matrix flattened and a result of the product's size, are in bounds for every read and write the kernel makes |
| Kernel.KernelCellIsProductCell | spmm.cpp:10-24 | the kernel's sum for cell `(i, j)` is the cell `operator*` computes |
| Kernel.RowSumsAreProduct | spmm.cpp:10-24 | a zero-based result holding the kernel's sums is the `operator*` product, cell by cell |
| Kernel.MultiplyWithKernel | spmm.cpp:10-24 | on a zeroed result with the arrays of a CSR matrix whose columns are in range, the kernel computes exactly the cells of `operator*` |
| Scenario.GroupedRows | include/matrix.hpp:256-264 | appending entries in row order (one on row 0, two on row 1, one on row 2) to an empty 3 by 3 store succeeds and gives those rows, in append order |
| Scenario.BuiltRows | include/matrix.hpp:246-265 | `push_back` of `(1,0,0)`, `(2,1,1)`, `(3,1,0)`, `(4,2,0)` succeeds and gives rows `[1]`, `[2, 3]` and `[4]` |
| Scenario.IdentityCells | include/matrix.hpp:151-158 | the 3 by 3 identity, written into rows rounded to 32 bytes and addressed as `operator[]` does, is a valid store whose diagonal cells are 1 and whose other cells are 0 |
| Scenario.ProductCells | include/matrix.hpp:297-306 | each cell of that store times the identity is the sparse entry scattered into a zero matrix |
| Scenario.SparseCells | include/matrix.hpp:190-199 | each cell of that store reads the scattered entry |
| Scenario.ExampleCells | include/matrix.hpp:281-311 | the product with the identity is defined and agrees with the sparse matrix cell by cell |
| Scenario.MultiplyByIdentity | include/matrix.hpp:281-311 | `operator*` of the built store and the 3 by 3 identity succeeds, and every cell of the product equals the sparse matrix's own cell |

## Behaviour of the code worth knowing

- `proper_line_capacity_of` (`include/matrix.hpp:67-74`) adds a whole spare
  cache line when a row longer than 128 bytes is already a multiple of 128
  bytes: 256 bytes become 384 (`Layout.RoundingExamples`).
- The same function works in bytes. An empty row (`columnNum` 0) gets a
  1-byte line rather than none. A row of more than 128 bytes gets a multiple
  of 128 bytes (16 doubles), which need not be a power of two: 17 doubles
  (136 bytes) get 256 bytes, and 33 doubles (264 bytes) get 384
  (`Layout.RoundingExamples`).
- `push_back` (`include/matrix.hpp:246-265`) never compares the column index
  with `columnNum`. A stored column that is not a row of the right-hand
  operand is caught only by the dense row bounds check inside `operator*`
  (`include/matrix.hpp:302-306`). The product then throws `out_of_range`
  partway through, and only when the right-hand operand has at least one
  column. `Product.Multiply` states exactly when.
- The CSR row-pointer array (`include/matrix.hpp:256-264`) reaches only the
  last row appended to: it has `current row + 2` elements. The row view
  answers later rows as empty (`include/matrix.hpp:267-276`), and
  `operator*` skips them. `Kernel.RowPointersOf` extends the array to the
  `lineNum + 1` pointers `spmm_csr_dense` reads.
- Neither stream reader (`include/matrix.hpp:317-335`, `359-383`) checks
  the stream's length or contents. For a stream of whole words, a read past
  the end leaves the read buffer as it was, and the model says so
  (`Codec.Fetched`).
- `spmm_csr_dense` (`spmm.cpp:6-25`) only adds into `resultMatrix` and
  never clears it (`Kernel.SpmmCsrDense`, `Kernel.SpmmOnEmptyRows`), while
  `operator*` starts from a freshly zeroed result
  (`include/matrix.hpp:287`).
- The library has a dense writer (`include/matrix.hpp:338-356`) but no CSR
  writer, so the sparse round trip is stated against the stream layout of
  `testcase_gen.cpp:60-73` (`Codec.CooStreamReadsBack`, `Codec.LoadCoo`).
- `invalid_argument` is thrown in two places: for a row before the current
  one in `push_back` (`include/matrix.hpp:253`) and for mismatched inner
  dimensions in `operator*` (`include/matrix.hpp:285`). Every other
  throw is `out_of_range`.

## Left out

- OpenMP (`#pragma omp parallel for` in the constructor and in `operator*`):
  the loops are modelled sequentially. Each iteration writes only its own
  row, so the order does not matter. In the parallel build an exception
  escaping the region terminates the program. The model instead returns the
  exception that the sequential loop would throw.
- IEEE double arithmetic: elements are unbounded integers, so the sums are
  exact and their order does not matter.
- `size_t` and `MKL_INT` widths: sizes, products such as
  `lineNum * lineCapacity`, and indexes are unbounded naturals. Wrap-around
  is not modelled, and negative `MKL_INT` values are excluded by the types.
- Aligned `operator new`/`delete`, the move constructor and move
  assignment, and the destructor: these are raw memory management with no
  logical effect beyond ownership. That includes the buffer that move
  assignment overwrites without freeing it. Allocation failure
  (`std::bad_alloc`) is not modelled either.
- Fresh memory is a parameter `junk`. Its contents after allocation are
  whatever that parameter says, and so are the contents of a buffer after a
  growing `resize`.
- Byte reinterpretation in the codec: a stream is a sequence of words that
  are either a `size_t` or an element. Reading a word of the other kind
  goes through the abstract `Codec.Reinterpret` parameter.
- The only element type is `double`, with 8-byte elements. The `Layout`
  constants fix that width.
- The DEBUG-only initializer-list constructors and stdout printers.
- The `alpha`/`beta` parameters declared in `spmm.hpp`: no definition
  implements them.
- There is no CSR writer in the library. The stream layout that the
  test-case generator writes is modelled as `Codec.EncodeCoo`, so that the
  reader has something to be read back against. The generator's random
  contents and the rest of it, the benchmark drivers and the Python scripts
  are not part of this model.
- File handles and stream state: `std::ifstream`/`std::ofstream` are not
  modelled, only the sequence of words they carry.
- Codec.Fetched: a stream ending in a partial word is not modelled. A read
  that straddles the end stores the bytes it extracted before failing, and
  that partial overwrite of the buffer is lost.
- Kernel.SpmmCsrDense: `denseMatrix` and `resultMatrix` are separate
  sequences, so aliasing between the two pointers is not modelled. No
  caller in the library passes overlapping buffers.
