/**
  Index arithmetic of row-major flat buffers. A rows x cols tensor keeps cell
  (i, j) at position i * cols + j of its data array; these lemmas say that this
  position is in bounds, that distinct cells have distinct positions, and that
  every position is the position of some cell.
 */
module Flat {

  lemma MulMono(a: nat, b: nat, k: nat)
    requires a <= b
    ensures a * k <= b * k
  {
    assert b * k == a * k + (b - a) * k;
  }

  /** Cell (i, j) of a rows x cols buffer lies inside the buffer. */
  lemma CellInBounds(i: nat, j: nat, rows: nat, cols: nat)
    requires i < rows && j < cols
    ensures i * cols + j < rows * cols
  {
    MulMono(i + 1, rows, cols);
    assert (i + 1) * cols == i * cols + cols;
  }

  /** Two cells of the same width share a flat position only if they are the same cell. */
  lemma CellInjective(i: nat, j: nat, i': nat, j': nat, cols: nat)
    requires j < cols && j' < cols
    requires i * cols + j == i' * cols + j'
    ensures i == i' && j == j'
  {
    if i < i' {
      assert (i + 1) * cols == i * cols + cols;
      MulMono(i + 1, i', cols);
    } else if i' < i {
      assert (i' + 1) * cols == i' * cols + cols;
      MulMono(i' + 1, i, cols);
    }
  }

  /** Every flat position of a rows x cols buffer is the position of a cell. */
  lemma CellOfIndex(k: nat, rows: nat, cols: nat)
    requires k < rows * cols
    ensures cols > 0 && k / cols < rows && k % cols < cols
    ensures (k / cols) * cols + k % cols == k
  {
    assert cols > 0;
    if k / cols >= rows {
      MulMono(rows, k / cols, cols);
    }
  }

  /** Division and remainder by the width recover the row and the column. */
  lemma IndexOfCell(i: nat, j: nat, cols: nat)
    requires j < cols
    ensures (i * cols + j) / cols == i && (i * cols + j) % cols == j
  {
    var k := i * cols + j;
    assert k == (k / cols) * cols + k % cols;
    CellInjective(k / cols, k % cols, i, j, cols);
  }
}
