/**
  Row-major index arithmetic shared by the plane writers: a cell at column
  `x` of row `y` in a plane of width `w` sits at `y * w + x`.
 */
module PlaneIndex {

  /** Multiplication by a natural number is monotone. */
  lemma MulMonotone(a: nat, b: nat, m: nat)
    requires a <= b
    ensures a * m <= b * m
  {
    assert b * m == a * m + (b - a) * m;
  }

  /** A row-major index determines its row and column. */
  lemma DivModOfIndex(row: nat, col: nat, w: nat)
    requires col < w
    ensures (row * w + col) / w == row
    ensures (row * w + col) % w == col
  {
    var q := row * w + col;
    var d, r := q / w, q % w;
    assert q == d * w + r;
    if d < row {
      MulMonotone(d + 1, row, w);
      assert false;
    } else if d > row {
      MulMonotone(row + 1, d, w);
      assert false;
    }
  }

  /** Two row-major indices are equal only for equal rows and columns. */
  lemma IndexInjective(row1: nat, col1: nat, row2: nat, col2: nat, w: nat)
    requires col1 < w && col2 < w
    requires row1 * w + col1 == row2 * w + col2
    ensures row1 == row2 && col1 == col2
  {
    DivModOfIndex(row1, col1, w);
    DivModOfIndex(row2, col2, w);
  }

  /** Every index below `w * h` has a row below `h`, and conversely. */
  lemma IndexInPlane(row: nat, col: nat, w: nat, h: nat)
    requires col < w && row < h
    ensures row * w + col < w * h
  {
    MulMonotone(row + 1, h, w);
  }

  /** The row of an index of a plane of height `h` is below `h`. */
  lemma RowInPlane(q: nat, w: nat, h: nat)
    requires w > 0 && q < w * h
    ensures q / w < h
  {
    var d := q / w;
    assert q == d * w + q % w;
    if d >= h {
      MulMonotone(h, d, w);
      assert false;
    }
  }

  /** An index whose row is below `h` lies inside a plane of `w * h` cells. */
  lemma BelowPlane(q: nat, w: nat, h: nat)
    requires w > 0 && q / w < h
    ensures q < w * h
  {
    var row := q / w;
    assert q == row * w + q % w;
    MulMonotone(row + 1, h, w);
    assert (row + 1) * w == row * w + w;
  }
}
