// Grids stored row-major in one flat array, as the solvers' `IDX_2D` macro
// does, and the per-direction bit flags kept in such arrays.

module FlatGrid {
  import opened GridWalk
  import opened CArith

  predicate InGrid(p: Point, rows: int, cols: int) {
    0 <= p.row < rows && 0 <= p.col < cols
  }

  /** `IDX_2D`: the row-major offset of a cell in a map of `rows` rows of
    * `cols` cells. */
  function Idx(row: int, col: int, rows: int, cols: int): (i: int)
    requires 0 <= row < rows && 0 <= col < cols
    ensures 0 <= i < rows * cols
  {
    IdxBound(row, col, rows, cols);
    row * cols + col
  }

  lemma IdxBound(row: int, col: int, rows: int, cols: int)
    requires 0 <= row < rows && 0 <= col < cols
    ensures 0 <= row * cols + col < rows * cols
  {
    assert row * cols >= 0;
    assert (row + 1) * cols <= rows * cols;
  }

  /** Two cells share an offset exactly when they are the same cell. */
  lemma IdxInjective(r: int, c: int, r': int, c': int, rows: int, cols: int)
    requires 0 <= r < rows && 0 <= c < cols && 0 <= r' < rows && 0 <= c' < cols
    ensures Idx(r, c, rows, cols) == Idx(r', c', rows, cols) <==> r == r' && c == c'
  {
    DivUnique(Idx(r, c, rows, cols), cols, r, c);
    DivUnique(Idx(r', c', rows, cols), cols, r', c');
  }

  /** The bit for direction `d` in a cell of the found map. */
  function Bit(d: int): (b: bv8)
    requires 0 <= d < 8
    ensures b == (1 as bv8) << d
  {
    if d == 0 then 1 else if d == 1 then 2 else if d == 2 then 4 else if d == 3 then 8
    else if d == 4 then 16 else if d == 5 then 32 else if d == 6 then 64 else 128
  }

  /** After OR-ing in the bit for `d`, a direction's bit is set exactly
    * when it is `d` or was set before. */
  lemma MarkedBits(b: bv8, d: int, e: int)
    requires 0 <= d < 8 && 0 <= e < 8
    ensures (b | Bit(d)) & Bit(e) != 0 <==> e == d || b & Bit(e) != 0
  {
  }
}
