/**
 * Index arithmetic of the rows x cols letter grid: the row-major position
 * `row*cols + col` used when a block is written into the grid, and the
 * column-major position `col*rows + row` used when the grid is read out.
 */
module GridIndex {

  /** Position of cell (row, col) when the grid is traversed row by row. */
  function RowMajor(row: int, col: int, cols: int): int {
    row * cols + col
  }

  /** Position of cell (row, col) when the grid is traversed column by column. */
  function ColMajor(row: int, col: int, rows: int): int {
    col * rows + row
  }

  lemma MulMonotone(a: int, b: int, k: int)
    requires a <= b && 0 <= k
    ensures a * k <= b * k
  {
    assert (b - a) * k >= 0;
  }

  /** Every cell of the grid has a row-major position inside the block. */
  lemma RowMajorInRange(row: int, col: int, rows: int, cols: int)
    requires 0 <= row < rows && 0 <= col < cols
    ensures 0 <= RowMajor(row, col, cols) < rows * cols
  {
    MulMonotone(row + 1, rows, cols);
    MulMonotone(0, row, cols);
  }

  /** Every cell of the grid has a column-major position inside the block. */
  lemma ColMajorInRange(row: int, col: int, rows: int, cols: int)
    requires 0 <= row < rows && 0 <= col < cols
    ensures 0 <= ColMajor(row, col, rows) < rows * cols
  {
    MulMonotone(col + 1, cols, rows);
    MulMonotone(0, col, rows);
  }

  /** Distinct cells never share a row-major position: the position determines the cell. */
  lemma RowMajorParts(row: int, col: int, cols: int)
    requires 0 <= row && 0 <= col < cols
    ensures RowMajor(row, col, cols) / cols == row
    ensures RowMajor(row, col, cols) % cols == col
  {
    var k := RowMajor(row, col, cols);
    var q, m := k / cols, k % cols;
    assert k == q * cols + m;
    assert (q - row) * cols == col - m;
    if q - row >= 1 {
      MulMonotone(1, q - row, cols);
    } else if q - row <= -1 {
      MulMonotone(q - row, -1, cols);
    }
  }

  /** Every position inside the block is the row-major position of some cell. */
  lemma RowMajorSplit(k: int, rows: int, cols: int)
    requires 0 <= k < rows * cols && 0 < cols
    ensures 0 <= k / cols < rows && 0 <= k % cols < cols
    ensures RowMajor(k / cols, k % cols, cols) == k
  {
    if k / cols >= rows {
      MulMonotone(rows, k / cols, cols);
    }
  }

  /** Column-major positions determine the cell, as row-major ones do. */
  lemma ColMajorParts(row: int, col: int, rows: int)
    requires 0 <= col && 0 <= row < rows
    ensures ColMajor(row, col, rows) / rows == col
    ensures ColMajor(row, col, rows) % rows == row
  {
    RowMajorParts(col, row, rows);
  }

  /** Every position inside the block is the column-major position of some cell. */
  lemma ColMajorSplit(k: int, rows: int, cols: int)
    requires 0 <= k < rows * cols && 0 < rows
    ensures 0 <= k % rows < rows && 0 <= k / rows < cols
    ensures ColMajor(k % rows, k / rows, rows) == k
  {
    RowMajorSplit(k, cols, rows);
  }

  /** Both positions of every cell lie inside the block. */
  lemma CellsInRange(rows: int, cols: int)
    ensures forall row, col :: 0 <= row < rows && 0 <= col < cols ==>
              0 <= RowMajor(row, col, cols) < rows * cols && 0 <= ColMajor(row, col, rows) < rows * cols
  {
    forall row, col | 0 <= row < rows && 0 <= col < cols
      ensures 0 <= RowMajor(row, col, cols) < rows * cols && 0 <= ColMajor(row, col, rows) < rows * cols
    {
      RowMajorInRange(row, col, rows, cols);
      ColMajorInRange(row, col, rows, cols);
    }
  }

  /** A length splits into whole blocks of `area` characters and a shorter remainder. */
  lemma WholeBlocks(len: int, area: int)
    requires 0 <= len && 1 <= area
    ensures 0 <= len / area
    ensures (len / area) * area <= len < (len / area + 1) * area
  {
    assert len == RowMajor(len / area, len % area, area);
  }

  /** A length of at least one block has a prefix of one or more whole blocks, less than one block short of it. */
  lemma WholeBlockPrefix(len: int, area: int)
    requires 1 <= area <= len
    ensures 1 <= len / area
    ensures area <= (len / area) * area <= len < (len / area) * area + area
    ensures ((len / area) * area) % area == 0
  {
    var q := len / area;
    assert len == RowMajor(q, len % area, area);
    assert 1 <= q by {
      if q < 1 {
        MulMonotone(q, 0, area);
      }
    }
    MulMonotone(1, q, area);
    RowMajorParts(q, 0, area);
  }

  /** A length between k and k+1 whole blocks holds exactly k whole blocks. */
  lemma BlockCount(len: int, area: int, k: int)
    requires 1 <= area && 0 <= k && k * area <= len < k * area + area
    ensures len / area == k
  {
    RowMajorParts(k, len - k * area, area);
  }

  /** Removing one block from a length of at least one block leaves one block fewer and the same remainder. */
  lemma ModStep(len: int, area: int)
    requires 1 <= area <= len
    ensures (len - area) / area == len / area - 1
    ensures (len - area) % area == len % area
  {
    var q, r := (len - area) / area, (len - area) % area;
    assert len == RowMajor(q + 1, r, area);
    RowMajorParts(q + 1, r, area);
  }

  /** Stepping past the last column of a row lands on the first cell of the next row. */
  lemma NextRow(row: int, cols: int)
    ensures RowMajor(row, cols, cols) == RowMajor(row + 1, 0, cols)
  {
  }

  /** Stepping past the last row of a column lands on the first cell of the next column. */
  lemma NextColumn(col: int, rows: int)
    ensures ColMajor(rows, col, rows) == ColMajor(0, col + 1, rows)
  {
  }
}
