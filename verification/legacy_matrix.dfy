/**
 The older image buffer `basic_matrix<T, Amount>` (matrix.hpp): a grid of
 cells, each holding Amount values of T, addressed by byte offsets from
 the start of the storage. Pointers are modelled as byte offsets from the
 storage base; the storage and the deleter are opaque handles.
 */
module LegacyMatrix {
  import opened Wrappers
  import Int32

  /** What the layout needs to know about the cell type T. */
  datatype CellType = CellType(size: int, align: int)

  /** Any C++ object type has a positive size and a positive alignment. */
  predicate ValidCellType(t: CellType) {
    t.size >= 1 && t.align >= 1
  }

  /** The storage pointer: null, or the start of some block of memory. */
  datatype Pointer = Null | Block(id: nat)

  /** The deleter: none, the `delete[]` installed by the owning constructor, or one the caller supplied. */
  datatype Deleter = NoDeleter | DeleteArray | Custom(id: nat)

  datatype BasicMatrix = BasicMatrix(
    columns: int,
    rows: int,
    bytesPerRow: int,
    bytesPerCell: int,
    storage: Pointer,
    deleter: Deleter)

  /**
   The default cell stride: the larger of alignof(T) and sizeof(T), times
   Amount, computed in size_t and stored in the int32_t member.
   */
  function DefaultBytesPerCell(t: CellType, amount: nat): (r: int)
    ensures Int32.InRange(r)
    ensures Int32.InRange(t.size * amount) && Int32.InRange(t.align * amount) ==>
      && r >= t.size * amount && r >= t.align * amount
      && (r == t.size * amount || r == t.align * amount)
  {
    var widest := if t.align > t.size then t.align else t.size;
    MulMonotone(amount, t.size, widest);
    MulMonotone(amount, t.align, widest);
    Int32.Wrap(widest * amount)
  }

  /**
   basic_matrix(columns, rows): default strides, a `new T[bytes_per_row *
   rows]` block (here the handle `block`) and a `delete[]` deleter.
   */
  function Owning(t: CellType, amount: nat, columns: int, rows: int, block: nat): (r: BasicMatrix)
    ensures r.columns == columns && r.rows == rows
    ensures r.bytesPerCell == DefaultBytesPerCell(t, amount)
    ensures r.bytesPerRow == columns * r.bytesPerCell
    ensures r.storage == Block(block) && r.deleter == DeleteArray
  {
    var bpc := DefaultBytesPerCell(t, amount);
    BasicMatrix(columns, rows, columns * bpc, bpc, Block(block), DeleteArray)
  }

  /**
   The number of T elements the owning constructor allocates: the byte
   size of the image, used as an element count.
   */
  function OwningElementCount(m: BasicMatrix): int {
    m.bytesPerRow * m.rows
  }

  /**
   basic_matrix(columns, rows, storage, bytes_per_row, bytes_per_cell,
   deleter): the caller's storage and deleter, and the caller's strides
   where they are non-zero; a zero stride gets the default.
   */
  function External(t: CellType, amount: nat, columns: int, rows: int, storage: Pointer,
                    bytesPerRow: int, bytesPerCell: int, deleter: Deleter): (r: BasicMatrix)
    ensures r.columns == columns && r.rows == rows && r.storage == storage && r.deleter == deleter
    ensures bytesPerCell != 0 ==> r.bytesPerCell == bytesPerCell
    ensures bytesPerCell == 0 ==> r.bytesPerCell == DefaultBytesPerCell(t, amount)
    ensures bytesPerRow != 0 ==> r.bytesPerRow == bytesPerRow
    ensures bytesPerRow == 0 ==> r.bytesPerRow == columns * r.bytesPerCell
  {
    var bpc := if bytesPerCell == 0 then DefaultBytesPerCell(t, amount) else bytesPerCell;
    var bpr := if bytesPerRow == 0 then columns * bpc else bytesPerRow;
    BasicMatrix(columns, rows, bpr, bpc, storage, deleter)
  }

  /** With both strides left at zero, the external constructor lays cells out like the owning one. */
  lemma ExternalDefaultsMatchOwning(t: CellType, amount: nat, columns: int, rows: int, block: nat, deleter: Deleter)
    ensures var e := External(t, amount, columns, rows, Block(block), 0, 0, deleter);
      var o := Owning(t, amount, columns, rows, block);
      e.bytesPerRow == o.bytesPerRow && e.bytesPerCell == o.bytesPerCell
  {
  }

  /**
   ~basic_matrix(): the storage handed to the deleter, if a deleter is set,
   and the matrix with its storage nulled.
   */
  function Destroy(m: BasicMatrix): (r: (BasicMatrix, Option<Pointer>))
    ensures r.1.Some? <==> m.deleter != NoDeleter
    ensures r.1.Some? ==> r.1.value == m.storage
    ensures r.0.storage == Null
    ensures r.0.(storage := m.storage) == m
  {
    (m.(storage := Null), if m.deleter != NoDeleter then Some(m.storage) else None)
  }

  // ---- offsets and getters --------------------------------------------------

  /** get_row_ptr(row), as a byte offset from the storage. */
  function RowOffset(m: BasicMatrix, row: int): int {
    m.bytesPerRow * row
  }

  /** get_cell_ptr(row, column), as a byte offset from the storage. */
  function CellOffset(m: BasicMatrix, row: int, column: int): int {
    m.bytesPerRow * row + m.bytesPerCell * column
  }

  /** The row pointer is the pointer to the row's first cell, and cells within a row are one stride apart. */
  lemma RowIsFirstCell(m: BasicMatrix, row: int, column: int)
    ensures RowOffset(m, row) == CellOffset(m, row, 0)
    ensures CellOffset(m, row, column + 1) == CellOffset(m, row, column) + m.bytesPerCell
  {
  }

  /** get_storage_ptr(). */
  function StoragePtr(m: BasicMatrix): Pointer { m.storage }

  /** get_bytes_per_row(). */
  function BytesPerRow(m: BasicMatrix): int { m.bytesPerRow }

  /** get_bytes_per_cell(). */
  function BytesPerCell(m: BasicMatrix): int { m.bytesPerCell }

  /** get_columns(). */
  function Columns(m: BasicMatrix): int { m.columns }

  /** get_rows(). */
  function Rows(m: BasicMatrix): int { m.rows }

  /** The getters return what the external constructor was given, non-zero strides included. */
  lemma GettersReturnArguments(t: CellType, amount: nat, columns: int, rows: int, storage: Pointer,
                               bytesPerRow: int, bytesPerCell: int, deleter: Deleter)
    requires bytesPerRow != 0 && bytesPerCell != 0
    ensures var m := External(t, amount, columns, rows, storage, bytesPerRow, bytesPerCell, deleter);
      Columns(m) == columns && Rows(m) == rows && StoragePtr(m) == storage
      && BytesPerRow(m) == bytesPerRow && BytesPerCell(m) == bytesPerCell
  {
  }

  // ---- layout ---------------------------------------------------------------

  /**
   The matrix uses the default row stride for a positive cell stride, and
   the image size bytes_per_row * rows is an int32_t value, so the int32_t
   offset arithmetic of get_row_ptr and get_cell_ptr does not overflow
   inside the grid.
   */
  predicate DenseLayout(m: BasicMatrix) {
    && m.bytesPerCell >= 1 && m.bytesPerRow == m.columns * m.bytesPerCell && m.columns >= 0 && m.rows >= 0
    && Int32.InRange(m.columns) && Int32.InRange(m.rows) && Int32.InRange(m.bytesPerCell)
    && Int32.InRange(m.bytesPerRow) && Int32.InRange(m.bytesPerRow * m.rows)
  }

  /** A cell inside the grid. */
  predicate InGrid(m: BasicMatrix, row: int, column: int) {
    0 <= row < m.rows && 0 <= column < m.columns
  }

  /**
   With the default strides, every cell's bytes lie inside the first
   `bytes_per_row * rows` bytes of the storage.
   */
  lemma {:induction false} CellInsideImage(m: BasicMatrix, row: int, column: int)
    requires DenseLayout(m)
    requires InGrid(m, row, column)
    ensures 0 <= CellOffset(m, row, column)
    ensures CellOffset(m, row, column) + m.bytesPerCell <= m.bytesPerRow * m.rows
  {
    var k := m.columns * row + column;
    CellIndexOffset(m, row, column);
    IndexInside(m.columns, m.rows, row, column);
    BoundedProduct(m.bytesPerCell, k, m.columns * m.rows);
    StrideArea(m.bytesPerRow, m.bytesPerCell, m.columns, m.rows);
  }

  /** The row-major index of a cell of the grid is below columns * rows. */
  lemma IndexInside(columns: int, rows: int, row: int, column: int)
    requires 0 <= row < rows && 0 <= column < columns
    ensures 0 <= columns * row + column
    ensures columns * row + column + 1 <= columns * rows
  {
    MulMonotone(columns, 0, row);
    MulMonotone(columns, row + 1, rows);
    assert columns * (row + 1) == columns * row + columns;
  }

  /** a k and a (k + 1) stay within [0, a n] when k + 1 <= n. */
  lemma BoundedProduct(a: int, k: int, n: int)
    requires 0 <= a && 0 <= k && k + 1 <= n
    ensures 0 <= a * k && a * k + a <= a * n
  {
    MulMonotone(a, 0, k);
    MulMonotone(a, k + 1, n);
    assert a * (k + 1) == a * k + a;
  }

  /** The image size bytes_per_row * rows in cells. */
  lemma StrideArea(bytesPerRow: int, bytesPerCell: int, columns: int, rows: int)
    requires bytesPerRow == columns * bytesPerCell
    ensures bytesPerRow * rows == bytesPerCell * (columns * rows)
  {
  }

  /**
   With the default strides, distinct cells of the grid start at distinct
   offsets, so no two cells share bytes.
   */
  lemma {:induction false} CellOffsetsDistinct(m: BasicMatrix, r1: int, c1: int, r2: int, c2: int)
    requires DenseLayout(m)
    requires InGrid(m, r1, c1) && InGrid(m, r2, c2)
    requires CellOffset(m, r1, c1) == CellOffset(m, r2, c2)
    ensures r1 == r2 && c1 == c2
  {
    CellIndexOffset(m, r1, c1);
    CellIndexOffset(m, r2, c2);
    var k1 := m.columns * r1 + c1;
    var k2 := m.columns * r2 + c2;
    assert m.bytesPerCell * k1 == m.bytesPerCell * k2;
    MulCancel(m.bytesPerCell, k1, k2);
    RowMajorIndexUnique(m.columns, r1, c1, r2, c2);
  }

  /** A cell's offset is the cell stride times its row-major index. */
  lemma CellIndexOffset(m: BasicMatrix, row: int, column: int)
    requires m.bytesPerRow == m.columns * m.bytesPerCell
    ensures CellOffset(m, row, column) == m.bytesPerCell * (m.columns * row + column)
  {
    assert m.bytesPerRow * row == m.bytesPerCell * (m.columns * row);
  }

  lemma MulMonotone(a: int, b: int, c: int)
    requires 0 <= a && b <= c
    ensures a * b <= a * c
  {
    assert a * c - a * b == a * (c - b);
  }

  lemma MulCancel(a: int, b: int, c: int)
    requires a != 0 && a * b == a * c
    ensures b == c
  {
    assert a * (b - c) == 0;
  }

  /** Row-major indices of cells with columns in range determine row and column. */
  lemma RowMajorIndexUnique(columns: int, r1: int, c1: int, r2: int, c2: int)
    requires 0 <= c1 < columns && 0 <= c2 < columns
    requires columns * r1 + c1 == columns * r2 + c2
    ensures r1 == r2 && c1 == c2
  {
    if r1 < r2 {
      MulMonotone(columns, r1 + 1, r2);
      assert false;
    } else if r2 < r1 {
      MulMonotone(columns, r2 + 1, r1);
      assert false;
    }
  }

  /**
   The owning constructor's `new T[bytes_per_row * rows]` allocates that
   many elements of T, which is at least as many bytes as the cells
   occupy: sizeof(T) bytes per element, and sizeof(T) >= 1.
   */
  lemma {:induction false} OwningAllocationCoversCells(t: CellType, amount: nat, columns: int, rows: int, block: nat)
    requires ValidCellType(t) && amount >= 1 && columns >= 0 && rows >= 0
    requires Int32.InRange(t.size * amount) && Int32.InRange(t.align * amount)
    requires Int32.InRange(columns) && Int32.InRange(rows)
    requires Int32.InRange(columns * DefaultBytesPerCell(t, amount))
    requires Int32.InRange(columns * DefaultBytesPerCell(t, amount) * rows)
    ensures var m := Owning(t, amount, columns, rows, block);
      DenseLayout(m)
      && OwningElementCount(m) * t.size >= m.bytesPerRow * m.rows
  {
    var m := Owning(t, amount, columns, rows, block);
    var n := OwningElementCount(m);
    MulMonotone(1, 1, amount);
    MulMonotone(t.size, 1, amount);
    assert m.bytesPerCell >= 1;
    MulMonotone(columns, 0, m.bytesPerCell);
    MulMonotone(m.bytesPerRow, 0, rows);
    MulMonotone(n, 1, t.size);
  }
}
