/** Row-major addressing of a `width` by `height` grid laid out in one flat
buffer: the cell in row `row` and column `col` sits at `row * width + col`. */
module Grid {

  /** Scaling by a natural number keeps the order of its operands. */
  lemma MulMono(a: nat, b: nat, w: nat)
    ensures a <= b ==> a * w <= b * w
  {
    if a <= b {
      var d := b - a;
      assert b * w == a * w + d * w;
    }
  }

  /** A run of `len` cells starting at column `off` of row `row` lies inside
      the buffer of a `w` by `h` grid. */
  lemma RowRunInBounds(row: nat, off: nat, len: nat, w: nat, h: nat)
    requires row < h && off + len <= w
    ensures row * w + off + len <= w * h
  {
    MulMono(row + 1, h, w);
    assert (row + 1) * w == row * w + w;
  }

  /** Every cell of a `w` by `h` grid has an index inside its buffer. */
  lemma CellInBounds(row: nat, col: nat, w: nat, h: nat)
    requires row < h && col < w
    ensures row * w + col < w * h
  {
    RowRunInBounds(row, col, 1, w, h);
  }

  /** A cell's index lies in the run of `len` cells starting at column `off`
      of row `r` exactly when the cell is in row `r` and its column is in the
      run. */
  lemma InRowRun(row: nat, col: nat, r: nat, off: nat, len: nat, w: nat)
    requires col < w && off + len <= w
    ensures r * w + off <= row * w + col < r * w + off + len
        <==> row == r && off <= col < off + len
  {
    if row < r {
      MulMono(row + 1, r, w);
      assert (row + 1) * w == row * w + w;
    } else if row > r {
      MulMono(r + 1, row, w);
      assert (r + 1) * w == r * w + w;
    }
  }

  /** Distinct cells have distinct indices. */
  lemma CellIndexInjective(r1: nat, c1: nat, r2: nat, c2: nat, w: nat)
    requires c1 < w && c2 < w
    requires r1 * w + c1 == r2 * w + c2
    ensures r1 == r2 && c1 == c2
  {
    InRowRun(r1, c1, r2, c2, 1, w);
  }

  /** Every index of a grid buffer names exactly one cell: its row is the
      quotient and its column the remainder of the division by the width. */
  lemma CellOfIndex(i: nat, w: nat, h: nat)
    requires i < w * h
    ensures w > 0 && i / w < h && i % w < w
    ensures (i / w) * w + i % w == i
  {
    MulMono(h, i / w, w);
  }
}
