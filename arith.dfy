/** Facts about row-major indices that the raster scan relies on. */
module Arith {

  /** The only multiple of a positive w strictly between -w and w is zero. */
  lemma ZeroMultiple(a: int, w: int)
    requires w > 0 && -w < a * w < w
    ensures a == 0
  {
  }

  /** Division by a positive width is unique: the quotient and remainder of i * w + j. */
  lemma DivModOfRowMajor(i: nat, j: nat, w: nat)
    requires j < w
    ensures (i * w + j) / w == i && (i * w + j) % w == j
  {
    var n := i * w + j;
    var q, r := n / w, n % w;
    assert (q - i) * w == j - r;
    ZeroMultiple(q - i, w);
  }

  /** A flat index below h * w names a row below h. */
  lemma RowOfIndex(k: nat, h: nat, w: nat)
    requires k < h * w
    ensures w > 0 && k / w < h && k == (k / w) * w + k % w
  {
  }

  /** Advancing one cell: the count of completed rows goes up exactly when a row ends. */
  lemma CompletedRowsStep(n: nat, w: nat)
    requires n > 0 && w > 0
    ensures n / w == (n - 1) / w + (if n % w == 0 then 1 else 0)
  {
    var q, r := (n - 1) / w, (n - 1) % w;
    assert n - 1 == q * w + r && 0 <= r < w;
    if r + 1 == w {
      assert (q + 1) * w == q * w + w;
      DivModOfRowMajor(q + 1, 0, w);
    } else {
      DivModOfRowMajor(q, r + 1, w);
    }
  }

  /** Raster position (i, j) is the very first one exactly when the flat index is 0. */
  lemma FirstCell(i: nat, j: nat, w: nat)
    requires j < w
    ensures (i * w + j == 0) == (i == 0 && j == 0)
  {
  }

  /** The cell after (i, j) completes a row exactly when j is the last column. */
  lemma RowEnd(i: nat, j: nat, w: nat)
    requires j < w
    ensures ((i * w + j + 1) % w == 0) == (j == w - 1)
  {
    if j == w - 1 {
      assert (i + 1) * w == i * w + w;
      DivModOfRowMajor(i + 1, 0, w);
    } else {
      DivModOfRowMajor(i, j + 1, w);
    }
  }

  /** Completing h rows of w cells gives exactly h rows. */
  lemma RowsOfFullGrid(h: nat, w: nat)
    requires w > 0
    ensures (h * w) / w == h && (h * w) % w == 0
  {
    DivModOfRowMajor(h, 0, w);
  }

  lemma MulMono(a: nat, b: nat, w: nat)
    requires a <= b
    ensures a * w <= b * w
  {
  }

  /** Cell (i, j) of an h-by-w grid has a flat index inside the grid. */
  lemma IndexInGrid(i: nat, j: nat, h: nat, w: nat)
    requires i < h && j < w
    ensures i * w + j < h * w
  {
    assert (i + 1) * w == i * w + w;
    MulMono(i + 1, h, w);
  }

  /** A flat index names cell (i, j) exactly when it is i * w + j. */
  lemma CellOfIndex(k: nat, i: nat, j: nat, h: nat, w: nat)
    requires k < h * w && j < w
    ensures w > 0 && k / w < h && k % w < w
    ensures (k == i * w + j) == (k / w == i && k % w == j)
  {
    RowOfIndex(k, h, w);
    DivModOfRowMajor(i, j, w);
  }

  /** The cells before row i + 1 are those before row i and row i itself. */
  lemma NextRow(i: nat, w: nat)
    ensures (i + 1) * w == i * w + w
  {
  }

  /**
   * Where cell (i, j), the n-th in raster order, sits: first cell, last column.
   * `next` (== n + 1) is passed so that callers' terms match as written.
   */
  lemma CellPosition(n: nat, next: nat, i: nat, j: nat, h: nat, w: nat)
    requires i < h && j < w && n == i * w + j && next == n + 1
    ensures n < h * w && n / w == i && n % w == j
    ensures (n == 0) == (i == 0 && j == 0)
    ensures (next % w == 0) == (j == w - 1)
  {
    IndexInGrid(i, j, h, w);
    DivModOfRowMajor(i, j, w);
    FirstCell(i, j, w);
    RowEnd(i, j, w);
  }
}
