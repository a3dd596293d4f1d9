/** The constraint checker: may digit n go at (r, c) without repeating a
    digit of its row, column or box? */
module Constraint {
  import opened Board

  /** n occurs in no cell of the row, the column or the box of (r, c).
      The cell (r, c) is a peer of itself, so its own value counts too. */
  ghost predicate Unblocked(g: Grid, r: int, c: int, n: int)
    requires IsGrid(g) && InRange(r, c)
  {
    forall r2, c2 :: InRange(r2, c2) && Peer(r, c, r2, c2) ==> g[r2][c2] != n
  }

  /** The row-and-column scan: no k in i..8 has g[r][k] == n or g[k][c] == n. */
  function LinesFree(g: Grid, r: int, c: int, n: int, i: int): (free: bool)
    requires IsGrid(g) && InRange(r, c) && 0 <= i <= 9
    ensures free <==> forall k :: i <= k < 9 ==> g[r][k] != n && g[k][c] != n
    decreases 9 - i
  {
    if i == 9 then true
    else g[r][i] != n && g[i][c] != n && LinesFree(g, r, c, n, i + 1)
  }

  /** Columns c..cEnd-1 of one row do not hold n. */
  function SegmentFree(g: Grid, row: int, c: int, cEnd: int, n: int): (free: bool)
    requires IsGrid(g) && 0 <= row < 9 && 0 <= c <= cEnd <= 9
    ensures free <==> forall k :: c <= k < cEnd ==> g[row][k] != n
    decreases cEnd - c
  {
    if c == cEnd then true
    else g[row][c] != n && SegmentFree(g, row, c + 1, cEnd, n)
  }

  /** The box scan: rows row..rEnd-1 of the three columns starting at bc do not hold n. */
  function BoxRowsFree(g: Grid, row: int, rEnd: int, bc: int, n: int): (free: bool)
    requires IsGrid(g) && 0 <= row <= rEnd <= 9 && 0 <= bc <= 6
    ensures free <==> forall r2, c2 :: row <= r2 < rEnd && bc <= c2 < bc + 3 ==> g[r2][c2] != n
    decreases rEnd - row
  {
    if row == rEnd then true
    else SegmentFree(g, row, bc, bc + 3, n) && BoxRowsFree(g, row + 1, rEnd, bc, n)
  }

  /** isValid: n may be placed at (r, c) exactly when it occurs nowhere in
      the row, the column or the box of (r, c), the cell itself included. */
  function IsValid(g: Grid, r: int, c: int, n: int): (ok: bool)
    requires IsGrid(g) && InRange(r, c)
    ensures ok <==> Unblocked(g, r, c, n)
    ensures ok ==> g[r][c] != n
  {
    var br, bc := BoxStart(r), BoxStart(c);
    var lines := LinesFree(g, r, c, n, 0);
    var box := BoxRowsFree(g, br, br + 3, bc, n);
    forall i | 0 <= i < 9
      ensures (br <= i < br + 3 <==> i / 3 == r / 3) && (bc <= i < bc + 3 <==> i / 3 == c / 3)
    {
      BoxBand(r, i);
      BoxBand(c, i);
    }
    lines && box
  }

  /** No digit repeats inside a row, a column or a box (empty cells aside). */
  ghost predicate NoConflicts(g: Grid)
    requires IsGrid(g)
  {
    forall r1, c1, r2, c2 ::
      InRange(r1, c1) && InRange(r2, c2) && (r1 != r2 || c1 != c2) && Peer(r1, c1, r2, c2) && g[r1][c1] != 0
      ==> g[r1][c1] != g[r2][c2]
  }

  /** A complete, valid Sudoku grid. */
  ghost predicate IsSolution(g: Grid) {
    && IsGrid(g)
    && (forall r, c :: InRange(r, c) ==> 1 <= g[r][c] <= 9)
    && NoConflicts(g)
  }

  /** Placing a digit that IsValid accepts never creates a repeated digit. */
  lemma PlaceKeepsNoConflicts(g: Grid, r: int, c: int, n: int)
    requires IsGrid(g) && InRange(r, c)
    requires NoConflicts(g) && IsValid(g, r, c, n)
    ensures NoConflicts(SetCell(g, r, c, n))
  {
    var g' := SetCell(g, r, c, n);
    forall r1, c1, r2, c2 |
      InRange(r1, c1) && InRange(r2, c2) && (r1 != r2 || c1 != c2) && Peer(r1, c1, r2, c2) && g'[r1][c1] != 0
      ensures g'[r1][c1] != g'[r2][c2]
    {
      if r1 == r && c1 == c {
        assert g[r2][c2] != n;
      } else if r2 == r && c2 == c {
        assert Peer(r, c, r1, c1);
        assert g[r1][c1] != n;
      }
    }
  }
}
