/** The flat pitched buffer of life/run_serial.c and life/run_cuda.c:
    rows + 2 rows of pitch ints each, margin row 0 and row rows + 1, and
    the cell at row r, column c stored at index r * pitch + c. */
module Flat {
  import opened Grid

  /** A buffer of size ints holds rows + 2 rows of pitch ints, and a row
      has room for the cols interior cells and both margin columns. */
  predicate Layout(size: int, rows: nat, cols: nat, pitch: int) {
    pitch >= cols + 2 && size == (rows + 2) * pitch
  }

  /** The flat index r * pitch + c of cell (r, c). */
  function Index(r: int, c: int, pitch: int): int {
    r * pitch + c
  }

  /** A product of two non-negative numbers is non-negative. */
  lemma {:induction false} MulNonNegative(a: int, b: int)
    requires a >= 0 && b >= 0
    ensures a * b >= 0
    decreases a
  {
    if a > 0 {
      MulNonNegative(a - 1, b);
      assert a * b == (a - 1) * b + b;
    }
  }

  /** Every index of the padded grid, margin included, lies in the buffer. */
  lemma IndexInRange(size: int, rows: nat, cols: nat, pitch: int, r: int, c: int)
    requires Layout(size, rows, cols, pitch)
    requires 0 <= r <= rows + 1 && 0 <= c <= cols + 1
    ensures 0 <= Index(r, c, pitch) < size
  {
    MulNonNegative(r, pitch);
    MulNonNegative(rows + 1 - r, pitch);
    assert (rows + 1 - r) * pitch == (rows + 1) * pitch - r * pitch;
    assert (rows + 2) * pitch == (rows + 1) * pitch + pitch;
  }

  /** Two cells of the padded grid never share a flat index. */
  lemma IndexDistinct(rows: nat, cols: nat, pitch: int, r1: int, c1: int, r2: int, c2: int)
    requires pitch >= cols + 2
    requires 0 <= c1 <= cols + 1 && 0 <= c2 <= cols + 1
    requires Index(r1, c1, pitch) == Index(r2, c2, pitch)
    ensures r1 == r2 && c1 == c2
  {
    var d := r1 - r2;
    assert d * pitch == r1 * pitch - r2 * pitch;
    if d > 0 {
      MulNonNegative(d - 1, pitch);
      assert false;
    } else if d < 0 {
      MulNonNegative(-d - 1, pitch);
      assert false;
    }
  }

  /** The interior of a flat buffer as a grid value. */
  function FlatInterior(buf: seq<int>, rows: nat, cols: nat, pitch: int): (g: Cells)
    requires Layout(|buf|, rows, cols, pitch)
    ensures IsGrid(g, rows, cols)
    ensures forall i, j :: 0 <= i < rows && 0 <= j < cols ==> g[i][j] == buf[Index(i + 1, j + 1, pitch)]
  {
    seq(rows, i requires 0 <= i < rows =>
      seq(cols, j requires 0 <= j < cols =>
        IndexInRange(|buf|, rows, cols, pitch, i + 1, j + 1);
        buf[Index(i + 1, j + 1, pitch)]))
  }

  /** Interior cell (r, c) of the grid is the buffer at index r * pitch + c. */
  lemma FlatAt(buf: seq<int>, rows: nat, cols: nat, pitch: int, r: int, c: int)
    requires Layout(|buf|, rows, cols, pitch) && 1 <= r <= rows && 1 <= c <= cols
    ensures 0 <= Index(r, c, pitch) < |buf|
    ensures At(FlatInterior(buf, rows, cols, pitch), rows, cols, r, c) == buf[Index(r, c, pitch)]
  {
    IndexInRange(|buf|, rows, cols, pitch, r, c);
    var g := FlatInterior(buf, rows, cols, pitch);
    assert g[r - 1][c - 1] == buf[Index(r - 1 + 1, c - 1 + 1, pitch)];
  }

  /** The interior depends only on the interior indices: buffers that agree
      there have the same interior, whatever their margins hold. */
  lemma InteriorIgnoresMargin(a: seq<int>, b: seq<int>, rows: nat, cols: nat, pitch: int)
    requires Layout(|a|, rows, cols, pitch) && Layout(|b|, rows, cols, pitch)
    requires forall r, c :: 1 <= r <= rows && 1 <= c <= cols ==> a[Index(r, c, pitch)] == b[Index(r, c, pitch)]
    ensures FlatInterior(a, rows, cols, pitch) == FlatInterior(b, rows, cols, pitch)
  {
    var ga, gb := FlatInterior(a, rows, cols, pitch), FlatInterior(b, rows, cols, pitch);
    forall i, j | 0 <= i < rows && 0 <= j < cols
      ensures ga[i][j] == gb[i][j]
    {
      assert ga[i][j] == a[Index(i + 1, j + 1, pitch)];
    }
    SameCells(ga, gb, rows, cols);
  }
}
