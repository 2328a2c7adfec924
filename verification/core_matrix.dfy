/**
 The image buffer `basic_matrix<T>` of the core library
 (src/core/matrix.hpp). One cell holds one T; rows may be padded through
 an explicit row stride. The storage is held by a shared pointer, so
 copies of a matrix refer to the same memory. Memory is modelled as a
 heap of byte buffers; a matrix refers to one buffer by its handle.
 */
module CoreMatrix {
  import opened Wrappers
  import Int32

  /** What the layout needs to know about the cell type T. */
  datatype CellType = CellType(size: int, align: int)

  /**
   The two static assertions of the class: sizeof(T) >= alignof(T) and
   sizeof(T) a multiple of alignof(T). Alignments are positive.
   */
  predicate ValidCellType(t: CellType) {
    t.align >= 1 && t.size >= t.align && t.size % t.align == 0
  }

  /** The memory the model tracks: byte buffers, identified by their position. */
  datatype Heap = Heap(buffers: seq<seq<int>>)

  /** A shared pointer: empty, or owning a share of one buffer. */
  type Storage = Option<nat>

  datatype BasicMatrix = BasicMatrix(columns: int, rows: int, bytesPerRow: int, storage: Storage)

  /** basic_matrix(): an empty matrix without storage. */
  function Default(): (r: BasicMatrix)
    ensures r.columns == 0 && r.rows == 0 && r.bytesPerRow == 0 && r.storage.None?
  {
    BasicMatrix(0, 0, 0, None)
  }

  /**
   The default row stride: columns * sizeof(T) is computed in size_t and
   stored in the int32_t member, which keeps its low 32 bits.
   */
  function DefaultBytesPerRow(t: CellType, columns: int): (r: int)
    ensures Int32.InRange(r)
    ensures Int32.InRange(columns * t.size) ==> r == columns * t.size
  {
    Int32.Wrap(columns * t.size)
  }

  /**
   basic_matrix(columns, rows): the default row stride and
   aligned_alloc(alignof(T), bytes_per_row * rows). The int32_t product
   must not overflow. A negative product reaches aligned_alloc as a size_t
   close to 2^64, which cannot be allocated, so the storage is null; any
   other size gives a fresh buffer. Fresh memory has unspecified
   contents; the model fills it with zeros.
   */
  function Owning(heap: Heap, t: CellType, columns: int, rows: int): (r: (Heap, BasicMatrix))
    requires ValidCellType(t) && Int32.InRange(columns) && Int32.InRange(rows)
    requires Int32.InRange(DefaultBytesPerRow(t, columns) * rows)
    ensures r.1.columns == columns && r.1.rows == rows
    ensures r.1.bytesPerRow == DefaultBytesPerRow(t, columns)
    ensures r.1.storage.None? <==> r.1.bytesPerRow * rows < 0
    ensures r.1.storage.None? ==> r.0 == heap
    ensures r.1.storage.Some? ==>
      && r.1.storage == Some(|heap.buffers|)
      && |r.0.buffers| == |heap.buffers| + 1 && r.0.buffers[..|heap.buffers|] == heap.buffers
      && |r.0.buffers[|heap.buffers|]| == r.1.bytesPerRow * rows
  {
    var bpr := DefaultBytesPerRow(t, columns);
    var size := bpr * rows;
    if size < 0 then (heap, BasicMatrix(columns, rows, bpr, None))
    else (Heap(heap.buffers + [seq(size, _ => 0)]), BasicMatrix(columns, rows, bpr, Some(|heap.buffers|)))
  }

  /**
   Without wrap-around, non-negative dimensions get the stride
   columns * sizeof(T) and a buffer of columns * sizeof(T) * rows bytes.
   */
  lemma {:induction false} OwningDenseAllocates(heap: Heap, t: CellType, columns: int, rows: int)
    requires ValidCellType(t) && 0 <= columns && 0 <= rows && Int32.InRange(rows)
    requires Int32.InRange(columns * t.size) && Int32.InRange(columns * t.size * rows)
    ensures var r := Owning(heap, t, columns, rows);
      && r.1.bytesPerRow == columns * t.size
      && r.1.storage == Some(|heap.buffers|)
      && |r.0.buffers[|heap.buffers|]| == columns * t.size * rows
  {
    NonNegativeProduct(columns, t.size);
    NonNegativeProduct(columns * t.size, rows);
  }

  /**
   basic_matrix(columns, rows, storage, bytes_per_row, deleter): the given
   storage, and the given row stride unless it is zero, in which case the
   default stride.
   */
  function External(t: CellType, columns: int, rows: int, storage: Storage, bytesPerRow: int): (r: BasicMatrix)
    ensures r.columns == columns && r.rows == rows && r.storage == storage
    ensures bytesPerRow != 0 ==> r.bytesPerRow == bytesPerRow
    ensures bytesPerRow == 0 ==> r.bytesPerRow == DefaultBytesPerRow(t, columns)
  {
    BasicMatrix(columns, rows, if bytesPerRow == 0 then DefaultBytesPerRow(t, columns) else bytesPerRow, storage)
  }

  /**
   The size handed to aligned_alloc is a multiple of the alignment, as
   aligned_alloc requires: it is a whole number of cells, and sizeof(T)
   is a multiple of alignof(T).
   */
  lemma {:induction false} AllocationIsAligned(t: CellType, columns: int, rows: int)
    requires ValidCellType(t) && Int32.InRange(columns * t.size)
    ensures (DefaultBytesPerRow(t, columns) * rows) % t.align == 0
  {
    var k := t.size / t.align;
    assert t.size == t.align * k;
    assert DefaultBytesPerRow(t, columns) * rows == t.align * (k * columns * rows) by {
      assert columns * t.size * rows == columns * (t.align * k) * rows;
    }
    MultipleMod(t.align, k * columns * rows);
  }

  lemma MultipleMod(a: int, n: int)
    requires a >= 1
    ensures (a * n) % a == 0
  {
    var q := (a * n) / a;
    var r := (a * n) % a;
    assert a * n == a * q + r;
    assert a * (n - q) == r;
    SmallMultipleIsZero(a, n - q);
  }

  /** A multiple of a that lies in [0, a) is zero. */
  lemma SmallMultipleIsZero(a: int, d: int)
    requires a >= 1 && 0 <= a * d < a
    ensures a * d == 0
  {
    if d >= 1 {
      assert a * d == a + a * (d - 1);
      NonNegativeProduct(a, d - 1);
    } else if d <= -1 {
      assert a * d == -a + a * (d + 1);
      NonNegativeProduct(a, -(d + 1));
    }
  }

  lemma NonNegativeProduct(a: int, b: int)
    requires 0 <= a && 0 <= b
    ensures 0 <= a * b
  {
  }

  // ---- offsets and getters --------------------------------------------------

  /** get_row_ptr(row), as a byte offset from the storage. */
  function RowOffset(m: BasicMatrix, row: int): int {
    m.bytesPerRow * row
  }

  /** get_cell_ptr(row, column), as a byte offset: the row offset plus sizeof(T) per column. */
  function CellOffset(t: CellType, m: BasicMatrix, row: int, column: int): int {
    m.bytesPerRow * row + t.size * column
  }

  /** The row pointer is the pointer to the row's first cell, and neighbouring cells are sizeof(T) apart. */
  lemma RowIsFirstCell(t: CellType, m: BasicMatrix, row: int, column: int)
    ensures RowOffset(m, row) == CellOffset(t, m, row, 0)
    ensures CellOffset(t, m, row, column + 1) == CellOffset(t, m, row, column) + t.size
  {
  }

  /** get_storage_ptr(): the buffer the shared pointer holds, if any. */
  function StoragePtr(m: BasicMatrix): Storage { m.storage }

  /** get_bytes_per_row(). */
  function BytesPerRow(m: BasicMatrix): int { m.bytesPerRow }

  /** get_columns(). */
  function Columns(m: BasicMatrix): int { m.columns }

  /** get_rows(). */
  function Rows(m: BasicMatrix): int { m.rows }

  /** The getters return what the external constructor was given, a non-zero stride included. */
  lemma GettersReturnArguments(t: CellType, columns: int, rows: int, storage: Storage, bytesPerRow: int)
    requires bytesPerRow != 0
    ensures var m := External(t, columns, rows, storage, bytesPerRow);
      Columns(m) == columns && Rows(m) == rows && StoragePtr(m) == storage && BytesPerRow(m) == bytesPerRow
  {
  }

  // ---- shared storage -------------------------------------------------------

  /** The copy constructor and copy assignment: the copy shares the original's storage. */
  function Copy(m: BasicMatrix): (r: BasicMatrix)
    ensures r.storage == m.storage
    ensures r.columns == m.columns && r.rows == m.rows && r.bytesPerRow == m.bytesPerRow
  {
    m
  }

  /** The matrix refers to a buffer of the heap and the byte lies inside it. */
  predicate Addressable(heap: Heap, m: BasicMatrix, offset: int) {
    m.storage.Some? && m.storage.value < |heap.buffers| && 0 <= offset < |heap.buffers[m.storage.value]|
  }

  /** Storing a byte through the matrix's storage pointer. */
  function WriteByte(heap: Heap, m: BasicMatrix, offset: int, b: int): (r: Heap)
    requires Addressable(heap, m, offset)
    ensures |r.buffers| == |heap.buffers|
    ensures forall id :: 0 <= id < |heap.buffers| ==> |r.buffers[id]| == |heap.buffers[id]|
  {
    var id := m.storage.value;
    Heap(heap.buffers[id := heap.buffers[id][offset := b]])
  }

  /** Loading a byte through the matrix's storage pointer. */
  function ReadByte(heap: Heap, m: BasicMatrix, offset: int): int
    requires Addressable(heap, m, offset)
  {
    heap.buffers[m.storage.value][offset]
  }

  /**
   A byte written through one matrix is read back through a copy of it,
   and every other byte of every buffer keeps its value.
   */
  lemma WriteVisibleThroughCopy(heap: Heap, m: BasicMatrix, offset: int, b: int, other: BasicMatrix, o: int)
    requires Addressable(heap, m, offset)
    ensures ReadByte(WriteByte(heap, m, offset, b), Copy(m), offset) == b
    ensures Addressable(heap, other, o) && (other.storage != m.storage || o != offset)
      ==> ReadByte(WriteByte(heap, m, offset, b), other, o) == ReadByte(heap, other, o)
  {
  }
}
