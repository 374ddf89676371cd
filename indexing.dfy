/**
 * Arithmetic on row-major flat indices, shared by the maze map, the
 * framebuffer and the image buffers.
 */
module Indexing {

  /** Row-major flat index of (row, col) with the given stride. */
  function Index(cols: int, row: int, col: int): int
  {
    row * cols + col
  }

  lemma IndexBounds(cols: int, rows: int, row: int, col: int)
    requires 0 <= row < rows && 0 <= col < cols
    ensures 0 <= Index(cols, row, col) < rows * cols
  {
    assert row * cols <= (rows - 1) * cols by {
      MulLeq(row, rows - 1, cols);
    }
  }

  lemma MulLeq(a: int, b: int, c: int)
    requires a <= b && 0 <= c
    ensures a * c <= b * c
  {
    assert b * c - a * c == (b - a) * c;
  }

  lemma MulSucc(a: int, c: int)
    ensures (a + 1) * c == a * c + c
  {
  }

  /** A row-major index decodes back into its row and column. */
  lemma IndexDecode(cols: int, row: int, col: int)
    requires 0 <= col < cols
    ensures Index(cols, row, col) / cols == row
    ensures Index(cols, row, col) % cols == col
  {
    var i := Index(cols, row, col);
    var q, r := i / cols, i % cols;
    assert i == q * cols + r;
    assert (q - row) * cols == col - r;
    if q > row {
      MulLeq(1, q - row, cols);
    } else if q < row {
      MulLeq(1, row - q, cols);
    }
  }

  /** Every index of a rows x cols grid is Index of its own row and column. */
  lemma IndexSplit(cols: int, rows: int, i: int)
    requires 0 < cols && 0 <= i < rows * cols
    ensures 0 <= i / cols < rows && 0 <= i % cols < cols
    ensures i == Index(cols, i / cols, i % cols)
  {
    if i / cols >= rows {
      MulLeq(rows, i / cols, cols);
    }
  }

  /** Two cells of one grid have the same index only if they are the same cell. */
  lemma IndexInjective(cols: int, r1: int, c1: int, r2: int, c2: int)
    requires 0 <= c1 < cols && 0 <= c2 < cols
    requires Index(cols, r1, c1) == Index(cols, r2, c2)
    ensures r1 == r2 && c1 == c2
  {
    IndexDecode(cols, r1, c1);
    IndexDecode(cols, r2, c2);
  }
}
