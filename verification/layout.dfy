/** How `DenseMatrix` sizes one row in bytes (`proper_line_capacity_of`) and
    why rows laid out with that capacity never overlap. */
module Layout {
  import Arith

  /** `ALIGN_CACHE_LINE`: the alignment of the buffer, in bytes. */
  const CacheLine: nat := 128

  /** `sizeof(ElementType)`: the library is instantiated with `double`. */
  const ElemBytes: nat := 8

  predicate IsPowerOfTwo(x: nat)
    decreases x
  {
    x == 1 || (x >= 2 && x % 2 == 0 && IsPowerOfTwo(x / 2))
  }

  lemma {:induction false} CacheLineIsPowerOfTwo()
    ensures IsPowerOfTwo(CacheLine)
  {
    assert IsPowerOfTwo(1);
    assert IsPowerOfTwo(2);
    assert IsPowerOfTwo(4);
    assert IsPowerOfTwo(8);
    assert IsPowerOfTwo(16);
    assert IsPowerOfTwo(32);
    assert IsPowerOfTwo(64);
  }

  /** Between two powers of two there is room for a doubling. */
  lemma {:induction false} PowerOfTwoGap(x: nat, y: nat)
    requires IsPowerOfTwo(x) && IsPowerOfTwo(y) && x < y
    ensures 2 * x <= y
    decreases y
  {
    if x != 1 {
      PowerOfTwoGap(x / 2, y / 2);
    }
  }

  /** The loop of `proper_line_capacity_of`, from the candidate
      `lineCapacity` on: double the candidate until it holds `need` bytes,
      but once it reaches one cache line round `need` up past a multiple of
      the cache line instead. The requires say what the loop has already
      established: every smaller power of two was too small. */
  function LineCapacitySearch(lineCapacity: nat, need: nat): (r: nat)
    requires IsPowerOfTwo(lineCapacity) && lineCapacity <= CacheLine
    requires lineCapacity == 1 || lineCapacity / 2 < need
    ensures r >= need && r >= 1
    ensures need <= CacheLine ==> IsPowerOfTwo(r) && r <= CacheLine && (r == 1 || r / 2 < need)
    ensures need > CacheLine ==> r % CacheLine == 0 && need < r <= need + CacheLine
    decreases CacheLine - lineCapacity
  {
    if lineCapacity >= need then lineCapacity
    else if lineCapacity == CacheLine then (need / lineCapacity + 1) * lineCapacity
    else
      CacheLineIsPowerOfTwo();
      PowerOfTwoGap(lineCapacity, CacheLine);
      LineCapacitySearch(lineCapacity * 2, need)
  }

  /** `proper_line_capacity_of(columnNum)`: the smallest power of two
      holding the row's bytes when the row fits in one cache line, otherwise
      a multiple of the cache line strictly above the row's size and at most
      one cache line above it. */
  function ProperLineCapacityOf(columnNum: nat): (r: nat)
    ensures r >= columnNum * ElemBytes && r >= 1
    ensures columnNum * ElemBytes <= CacheLine ==>
              IsPowerOfTwo(r) && r <= CacheLine && (r == 1 || r / 2 < columnNum * ElemBytes)
    ensures columnNum * ElemBytes > CacheLine ==>
              r % CacheLine == 0 && columnNum * ElemBytes < r <= columnNum * ElemBytes + CacheLine
  {
    LineCapacitySearch(1, columnNum * ElemBytes)
  }

  /** One case of each kind of rounding: an empty row still gets 1 byte;
      a small row gets the next power of two (3 doubles: 24 bytes become
      32); a longer row gets the next multiple of the cache line (17
      doubles: 136 bytes become 256; 33 doubles: 264 bytes become 384);
      and a row that is already a multiple of the cache line gets a whole
      spare one (32 doubles: 256 bytes become 384). */
  lemma RoundingExamples()
    ensures ProperLineCapacityOf(32) == 384
    ensures ProperLineCapacityOf(3) == 32
    ensures ProperLineCapacityOf(0) == 1
    ensures ProperLineCapacityOf(17) == 256
    ensures ProperLineCapacityOf(33) == 384
  {
    CacheLineIsPowerOfTwo();
    assert LineCapacitySearch(128, 256) == 384;
    assert LineCapacitySearch(32, 24) == 32;
    assert LineCapacitySearch(128, 136) == 256;
    assert LineCapacitySearch(128, 264) == 384;
  }

  /** Byte offset of element `j` of row `i` when each row occupies
      `lineCapacity` bytes. */
  function Offset(lineCapacity: nat, i: nat, j: nat): nat
  {
    i * lineCapacity + j * ElemBytes
  }

  /** Element `j` of a `columnNum`-element row lies inside that row's own
      `lineCapacity`-byte slot, before the padding, whenever the slot holds
      the row (as the rounded capacity does). */
  lemma ElementInsideLine(columnNum: nat, lineCapacity: nat, i: nat, j: nat)
    requires j < columnNum && columnNum * ElemBytes <= lineCapacity
    ensures var o := Offset(lineCapacity, i, j);
            i * lineCapacity <= o && o + ElemBytes <= i * lineCapacity + columnNum * ElemBytes <= i * lineCapacity + lineCapacity
  {
  }

  /** The elements of two different cells occupy disjoint byte ranges when
      every slot holds its row. */
  lemma ElementsDisjoint(columnNum: nat, lineCapacity: nat, i: nat, j: nat, i2: nat, j2: nat)
    requires j < columnNum && j2 < columnNum && columnNum * ElemBytes <= lineCapacity
    requires i != i2 || j != j2
    ensures var o := Offset(lineCapacity, i, j);
            var o2 := Offset(lineCapacity, i2, j2);
            o + ElemBytes <= o2 || o2 + ElemBytes <= o
  {
    if i < i2 {
      ElementsInOrder(columnNum, lineCapacity, i, j, i2, j2);
    } else if i2 < i {
      ElementsInOrder(columnNum, lineCapacity, i2, j2, i, j);
    }
  }

  /** A cell of an earlier row ends before any cell of a later row. */
  lemma ElementsInOrder(columnNum: nat, lineCapacity: nat, i: nat, j: nat, i2: nat, j2: nat)
    requires j < columnNum && columnNum * ElemBytes <= lineCapacity && i < i2
    ensures Offset(lineCapacity, i, j) + ElemBytes <= Offset(lineCapacity, i2, j2)
  {
    Arith.RowsOrdered(i, i2, lineCapacity);
  }

  /** Every row of a `lineNum`-row block ends inside the block. */
  lemma LineInsideBlock(lineCapacity: nat, i: nat, lineNum: nat)
    requires i < lineNum
    ensures 0 <= i * lineCapacity
    ensures i * lineCapacity + lineCapacity <= lineNum * lineCapacity
  {
    Arith.RowsOrdered(i, lineNum, lineCapacity);
  }
}
