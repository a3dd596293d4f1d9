/** Shared vocabulary of the 9x9 board: grid shapes, cells, boxes, single-cell
    updates and counting cells that pass a test. */
module Board {

  /** A 9x9 matrix of digits; 0 is an empty cell. */
  type Grid = seq<seq<int>>

  /** A 9x9 matrix of flags, used for the given-cell mask. */
  type Mask = seq<seq<bool>>

  datatype Option<T> = None | Some(value: T)

  /** A board position (row, column). */
  datatype Cell = Cell(r: int, c: int)

  predicate InRange(r: int, c: int) {
    0 <= r < 9 && 0 <= c < 9
  }

  predicate IsGrid(g: Grid) {
    |g| == 9 && forall r :: 0 <= r < 9 ==> |g[r]| == 9
  }

  /** A grid whose every cell holds 0 (empty) or a digit 1..9. */
  predicate IsBoard(g: Grid) {
    IsGrid(g) && forall r, c :: 0 <= r < 9 && 0 <= c < 9 ==> 0 <= g[r][c] <= 9
  }

  predicate IsMask(m: Mask) {
    |m| == 9 && forall r :: 0 <= r < 9 ==> |m[r]| == 9
  }

  predicate ZeroFree(g: Grid)
    requires IsGrid(g)
  {
    forall r, c :: 0 <= r < 9 && 0 <= c < 9 ==> g[r][c] != 0
  }

  function EmptyGrid(): (g: Grid)
    ensures IsBoard(g)
    ensures forall r, c :: InRange(r, c) ==> g[r][c] == 0
  {
    seq(9, _ => seq(9, _ => 0))
  }

  function FullMask(b: bool): (m: Mask)
    ensures IsMask(m)
    ensures forall r, c :: InRange(r, c) ==> m[r][c] == b
  {
    seq(9, _ => seq(9, _ => b))
  }

  /** The grid with the one cell (r, c) replaced by v. */
  function SetCell(g: Grid, r: int, c: int, v: int): (g': Grid)
    requires IsGrid(g) && InRange(r, c)
    ensures IsGrid(g')
    ensures g'[r][c] == v
    ensures forall r2, c2 :: InRange(r2, c2) && (r2 != r || c2 != c) ==> g'[r2][c2] == g[r2][c2]
    ensures IsBoard(g) && 0 <= v <= 9 ==> IsBoard(g')
  {
    g[r := g[r][c := v]]
  }

  function SetFlag(m: Mask, r: int, c: int, b: bool): (m': Mask)
    requires IsMask(m) && InRange(r, c)
    ensures IsMask(m')
    ensures m'[r][c] == b
    ensures forall r2, c2 :: InRange(r2, c2) && (r2 != r || c2 != c) ==> m'[r2][c2] == m[r2][c2]
  {
    m[r := m[r][c := b]]
  }

  /** Two grids of the right shape are equal as soon as they agree cell by cell. */
  lemma GridExt(g: Grid, h: Grid)
    requires IsGrid(g) && IsGrid(h)
    requires forall r, c :: InRange(r, c) ==> g[r][c] == h[r][c]
    ensures g == h
  {
    forall r | 0 <= r < 9
      ensures g[r] == h[r]
    {
      assert forall c :: 0 <= c < 9 ==> g[r][c] == h[r][c];
    }
  }

  // ---------------------------------------------------------------------
  // Boxes

  /** First row (or column) of the box band that row (or column) i lies in. */
  function BoxStart(i: int): (b: int)
    requires 0 <= i < 9
    ensures b == 0 || b == 3 || b == 6
    ensures b <= i < b + 3
  {
    (i / 3) * 3
  }

  predicate SameBox(r1: int, c1: int, r2: int, c2: int) {
    r1 / 3 == r2 / 3 && c1 / 3 == c2 / 3
  }

  /** Cells that constrain each other: same row, same column or same box.
      Every cell is its own peer. */
  predicate Peer(r1: int, c1: int, r2: int, c2: int) {
    r1 == r2 || c1 == c2 || SameBox(r1, c1, r2, c2)
  }

  /** Index of the box holding (r, c), numbered 0..8 in row-major order. */
  function GetBlock(r: int, c: int): (b: int)
    requires InRange(r, c)
    ensures 0 <= b < 9
    ensures b / 3 == r / 3 && b % 3 == c / 3
  {
    (r / 3) * 3 + c / 3
  }

  /** Two cells get the same block number exactly when they share a box. */
  lemma GetBlockIdentifiesBox(r1: int, c1: int, r2: int, c2: int)
    requires InRange(r1, c1) && InRange(r2, c2)
    ensures GetBlock(r1, c1) == GetBlock(r2, c2) <==> SameBox(r1, c1, r2, c2)
  {
    var b1, b2 := GetBlock(r1, c1), GetBlock(r2, c2);
    if b1 == b2 {
      assert r1 / 3 == b1 / 3 == r2 / 3;
      assert c1 / 3 == b1 % 3 == c2 / 3;
    }
  }

  /** Row i lies in the band of rows starting at BoxStart(r) exactly when it
      shares r's band. */
  lemma BoxBand(r: int, i: int)
    requires 0 <= r < 9 && 0 <= i < 9
    ensures BoxStart(r) <= i < BoxStart(r) + 3 <==> i / 3 == r / 3
  {
  }

  // ---------------------------------------------------------------------
  // Counting cells

  /** A property of one cell, judged from its value v and the value s of the
      same cell in a second grid (the solution, where one is needed). */
  datatype CellTest = IsZero | Filled | Correct | Wrong | HasDigit(d: int)

  predicate Passes(t: CellTest, v: int, s: int) {
    match t
    case IsZero => v == 0
    case Filled => v != 0
    case Correct => v != 0 && v == s
    case Wrong => v != 0 && v != s
    case HasDigit(d) => v == d
  }

  /** Tests that look only at the first grid. */
  predicate OneGrid(t: CellTest) {
    t.IsZero? || t.Filled? || t.HasDigit?
  }

  /** Number of columns j < n whose pair (a[j], b[j]) passes t. */
  function CountRow(a: seq<int>, b: seq<int>, t: CellTest, n: nat): (k: nat)
    requires n <= |a| && n <= |b|
    ensures k <= n
  {
    if n == 0 then 0
    else CountRow(a, b, t, n - 1) + (if Passes(t, a[n - 1], b[n - 1]) then 1 else 0)
  }

  /** Number of cells in rows 0..m-1 that pass t. */
  function CountRows(g: Grid, h: Grid, t: CellTest, m: nat): (k: nat)
    requires IsGrid(g) && IsGrid(h) && m <= 9
    ensures k <= 9 * m
  {
    if m == 0 then 0
    else CountRows(g, h, t, m - 1) + CountRow(g[m - 1], h[m - 1], t, 9)
  }

  /** Number of the 81 cells that pass t. */
  function Count(g: Grid, h: Grid, t: CellTest): (k: nat)
    requires IsGrid(g) && IsGrid(h)
    ensures k <= 81
  {
    CountRows(g, h, t, 9)
  }

  /** Number of empty cells of g. */
  function Holes(g: Grid): (k: nat)
    requires IsGrid(g)
    ensures k <= 81
  {
    Count(g, g, IsZero)
  }

  lemma {:induction false} CountRowAll(a: seq<int>, b: seq<int>, t: CellTest, n: nat)
    requires n <= |a| && n <= |b|
    ensures CountRow(a, b, t, n) == n <==> forall j :: 0 <= j < n ==> Passes(t, a[j], b[j])
  {
    if n > 0 {
      CountRowAll(a, b, t, n - 1);
    }
  }

  lemma {:induction false} CountRowNone(a: seq<int>, b: seq<int>, t: CellTest, n: nat)
    requires n <= |a| && n <= |b|
    ensures CountRow(a, b, t, n) == 0 <==> forall j :: 0 <= j < n ==> !Passes(t, a[j], b[j])
  {
    if n > 0 {
      CountRowNone(a, b, t, n - 1);
    }
  }

  lemma {:induction false} CountRowsAll(g: Grid, h: Grid, t: CellTest, m: nat)
    requires IsGrid(g) && IsGrid(h) && m <= 9
    ensures CountRows(g, h, t, m) == 9 * m
        <==> forall r, c :: 0 <= r < m && 0 <= c < 9 ==> Passes(t, g[r][c], h[r][c])
  {
    if m > 0 {
      CountRowsAll(g, h, t, m - 1);
      CountRowAll(g[m - 1], h[m - 1], t, 9);
    }
  }

  lemma {:induction false} CountRowsNone(g: Grid, h: Grid, t: CellTest, m: nat)
    requires IsGrid(g) && IsGrid(h) && m <= 9
    ensures CountRows(g, h, t, m) == 0
        <==> forall r, c :: 0 <= r < m && 0 <= c < 9 ==> !Passes(t, g[r][c], h[r][c])
  {
    if m > 0 {
      CountRowsNone(g, h, t, m - 1);
      CountRowNone(g[m - 1], h[m - 1], t, 9);
    }
  }

  /** All 81 cells pass exactly when the count is 81. */
  lemma CountAll(g: Grid, h: Grid, t: CellTest)
    requires IsGrid(g) && IsGrid(h)
    ensures Count(g, h, t) == 81 <==> forall r, c :: InRange(r, c) ==> Passes(t, g[r][c], h[r][c])
  {
    CountRowsAll(g, h, t, 9);
  }

  /** No cell passes exactly when the count is 0. */
  lemma CountNone(g: Grid, h: Grid, t: CellTest)
    requires IsGrid(g) && IsGrid(h)
    ensures Count(g, h, t) == 0 <==> forall r, c :: InRange(r, c) ==> !Passes(t, g[r][c], h[r][c])
  {
    CountRowsNone(g, h, t, 9);
  }

  function Ind(b: bool): nat {
    if b then 1 else 0
  }

  lemma {:induction false} CountRowUpdate(a: seq<int>, b: seq<int>, t: CellTest, n: nat, j: int, v: int)
    requires n <= |a| && |a| == |b| && 0 <= j < |a|
    ensures CountRow(a[j := v], b, t, n)
         == CountRow(a, b, t, n) - Ind(j < n && Passes(t, a[j], b[j])) + Ind(j < n && Passes(t, v, b[j]))
  {
    if n > 0 {
      CountRowUpdate(a, b, t, n - 1, j, v);
    }
  }

  lemma {:induction false} CountRowsUpdate(g: Grid, h: Grid, t: CellTest, m: nat, r: int, c: int, v: int)
    requires IsGrid(g) && IsGrid(h) && m <= 9 && InRange(r, c)
    ensures CountRows(SetCell(g, r, c, v), h, t, m)
         == CountRows(g, h, t, m) - Ind(r < m && Passes(t, g[r][c], h[r][c])) + Ind(r < m && Passes(t, v, h[r][c]))
  {
    if m > 0 {
      CountRowsUpdate(g, h, t, m - 1, r, c, v);
      var g' := SetCell(g, r, c, v);
      if m - 1 == r {
        assert g'[r] == g[r][c := v];
        CountRowUpdate(g[r], h[r], t, 9, c, v);
      } else {
        assert g'[m - 1] == g[m - 1];
      }
    }
  }

  /** Changing one cell changes a count by what that cell contributes before and after. */
  lemma CountSetCell(g: Grid, h: Grid, t: CellTest, r: int, c: int, v: int)
    requires IsGrid(g) && IsGrid(h) && InRange(r, c)
    ensures Count(SetCell(g, r, c, v), h, t)
         == Count(g, h, t) - Ind(Passes(t, g[r][c], h[r][c])) + Ind(Passes(t, v, h[r][c]))
  {
    CountRowsUpdate(g, h, t, 9, r, c, v);
  }

  lemma {:induction false} CountRowOneGrid(a: seq<int>, b: seq<int>, b2: seq<int>, t: CellTest, n: nat)
    requires OneGrid(t) && n <= |a| && n <= |b| && n <= |b2|
    ensures CountRow(a, b, t, n) == CountRow(a, b2, t, n)
  {
    if n > 0 {
      CountRowOneGrid(a, b, b2, t, n - 1);
    }
  }

  lemma {:induction false} CountRowsOneGrid(g: Grid, h: Grid, h2: Grid, t: CellTest, m: nat)
    requires OneGrid(t) && IsGrid(g) && IsGrid(h) && IsGrid(h2) && m <= 9
    ensures CountRows(g, h, t, m) == CountRows(g, h2, t, m)
  {
    if m > 0 {
      CountRowsOneGrid(g, h, h2, t, m - 1);
      CountRowOneGrid(g[m - 1], h[m - 1], h2[m - 1], t, 9);
    }
  }

  /** A test on the first grid alone does not depend on the second grid. */
  lemma CountOneGrid(g: Grid, h: Grid, h2: Grid, t: CellTest)
    requires OneGrid(t) && IsGrid(g) && IsGrid(h) && IsGrid(h2)
    ensures Count(g, h, t) == Count(g, h2, t)
  {
    CountRowsOneGrid(g, h, h2, t, 9);
  }

  /** Clearing or filling one cell moves the number of holes by exactly one. */
  lemma HolesSetCell(g: Grid, r: int, c: int, v: int)
    requires IsGrid(g) && InRange(r, c)
    ensures Holes(SetCell(g, r, c, v)) == Holes(g) - Ind(g[r][c] == 0) + Ind(v == 0)
  {
    var g' := SetCell(g, r, c, v);
    CountOneGrid(g', g', g, IsZero);
    CountSetCell(g, g, IsZero, r, c, v);
  }

  /** t splits into the two disjoint tests t1 and t2. */
  ghost predicate Splits(t: CellTest, t1: CellTest, t2: CellTest) {
    forall v, s {:trigger Passes(t, v, s)} ::
      (Passes(t, v, s) <==> Passes(t1, v, s) || Passes(t2, v, s)) && !(Passes(t1, v, s) && Passes(t2, v, s))
  }

  lemma {:induction false} CountRowSplit(a: seq<int>, b: seq<int>, t: CellTest, t1: CellTest, t2: CellTest, n: nat)
    requires Splits(t, t1, t2) && n <= |a| && n <= |b|
    ensures CountRow(a, b, t, n) == CountRow(a, b, t1, n) + CountRow(a, b, t2, n)
  {
    if n > 0 {
      CountRowSplit(a, b, t, t1, t2, n - 1);
      var v, w := a[n - 1], b[n - 1];
      assert Passes(t, v, w) <==> Passes(t1, v, w) || Passes(t2, v, w);
    }
  }

  lemma {:induction false} CountRowsSplit(g: Grid, h: Grid, t: CellTest, t1: CellTest, t2: CellTest, m: nat)
    requires Splits(t, t1, t2) && IsGrid(g) && IsGrid(h) && m <= 9
    ensures CountRows(g, h, t, m) == CountRows(g, h, t1, m) + CountRows(g, h, t2, m)
  {
    if m > 0 {
      CountRowsSplit(g, h, t, t1, t2, m - 1);
      CountRowSplit(g[m - 1], h[m - 1], t, t1, t2, 9);
    }
  }

  /** The count of a test that splits into two disjoint tests is the sum of their counts. */
  lemma CountSplit(g: Grid, h: Grid, t: CellTest, t1: CellTest, t2: CellTest)
    requires Splits(t, t1, t2) && IsGrid(g) && IsGrid(h)
    ensures Count(g, h, t) == Count(g, h, t1) + Count(g, h, t2)
  {
    CountRowsSplit(g, h, t, t1, t2, 9);
  }
}
