/** Filling a square cost matrix in place, cell by cell in row order. */
module CostMatrix {
  import opened Assignment
  import opened Matching

  /** The matrix is filled row by row: up to (row, col) cells hold what is wanted, the rest `init`. */
  ghost predicate Painted(c: Matrix, n: nat, want: (int, int) -> real, init: real, row: int, col: int) {
    && |c| == n && Square(c)
    && forall i, j :: 0 <= i < n && 0 <= j < n ==>
         Cell(c, i, j) == if i < row || (i == row && j < col) then want(i, j) else init
  }

  /** Writing one cell in place. */
  function SetCell(c: Matrix, i: int, j: int, cost: real): Matrix
    requires 0 <= i < |c| && 0 <= j < |c[i]|
  {
    c[i := c[i][j := cost]]
  }

  lemma Unpainted(n: nat, want: (int, int) -> real, init: real)
    ensures Painted(seq(n, _ => seq(n, _ => init)), n, want, init, 0, 0)
  {
  }

  lemma PaintCell(c: Matrix, n: nat, want: (int, int) -> real, init: real, row: int, col: int)
    requires Painted(c, n, want, init, row, col) && 0 <= row < n && 0 <= col < n
    ensures row < |c| && col < |c[row]|
    ensures Painted(SetCell(c, row, col, want(row, col)), n, want, init, row, col + 1)
  {
    var c' := SetCell(c, row, col, want(row, col));
    forall i, j | 0 <= i < n && 0 <= j < n
      ensures Cell(c', i, j) == if i == row && j == col then want(row, col) else Cell(c, i, j)
    {
    }
  }

  /** Cells that are wanted as they are need not be written. */
  lemma SkipCells(c: Matrix, n: nat, want: (int, int) -> real, init: real, row: int, col: int, col': int)
    requires Painted(c, n, want, init, row, col) && 0 <= row < n && 0 <= col <= col' <= n
    requires forall j :: col <= j < col' ==> want(row, j) == init
    ensures Painted(c, n, want, init, row, col')
  {
  }

  lemma NextRow(c: Matrix, n: nat, want: (int, int) -> real, init: real, row: int, col: int)
    requires Painted(c, n, want, init, row, col) && 0 <= row < n && 0 <= col <= n
    requires forall j :: col <= j < n ==> want(row, j) == init
    ensures Painted(c, n, want, init, row + 1, 0)
  {
  }

  lemma Quotient(d: real, r: real)
    requires 0.0 <= d && r > 0.0
    ensures 0.0 <= d / r && (d <= r ==> d / r <= 1.0)
  {
    if d / r > 1.0 {
      assert d == (d / r) * r;
    }
  }
}
