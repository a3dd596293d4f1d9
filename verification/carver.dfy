/** The puzzle carver: clear a difficulty-dependent number of filled cells of
    the solution and record which cells remain as givens. */
module Carver {
  import opened Board

  /** Hole budget of a difficulty tier; every tier other than easy, medium
      and hard (the expert tier among them) gets 64. */
  function HoleBudget(diff: string): (n: nat)
    ensures 30 <= n <= 64
    ensures diff == "easy" ==> n == 30
    ensures diff == "medium" ==> n == 45
    ensures diff == "hard" ==> n == 55
    ensures diff != "easy" && diff != "medium" && diff != "hard" ==> n == 64
  {
    if diff == "easy" then 30
    else if diff == "medium" then 45
    else if diff == "hard" then 55
    else 64
  }

  /** The cells of cs are pairwise distinct. */
  predicate DistinctCells(cs: seq<Cell>) {
    forall i, j :: 0 <= i < j < |cs| ==> cs[i] != cs[j]
  }

  /** puzzle is a carve of sol under the mask given: given cells keep the
      solution's value, and a cell is not given exactly when the solution had
      a digit there that is now cleared. */
  ghost predicate Carved(sol: Grid, puzzle: Grid, given: Mask)
    requires IsGrid(sol) && IsGrid(puzzle) && IsMask(given)
  {
    forall r, c :: InRange(r, c) ==>
      && (given[r][c] ==> puzzle[r][c] == sol[r][c])
      && (!given[r][c] <==> sol[r][c] != 0 && puzzle[r][c] == 0)
  }

  /** Clearing a filled cell of a carve and dropping its given flag is again a
      carve; the cell was given and the solution had a digit there. */
  lemma CarvedClear(sol: Grid, puzzle: Grid, given: Mask, cell: Cell)
    requires IsGrid(sol) && IsGrid(puzzle) && IsMask(given) && InRange(cell.r, cell.c)
    requires Carved(sol, puzzle, given) && puzzle[cell.r][cell.c] != 0
    ensures given[cell.r][cell.c] && sol[cell.r][cell.c] != 0
    ensures Carved(sol, SetCell(puzzle, cell.r, cell.c, 0), SetFlag(given, cell.r, cell.c, false))
  {
  }

  /** An empty cell of a carve that is still given was empty in the solution. */
  lemma CarvedEmpty(sol: Grid, puzzle: Grid, given: Mask, cell: Cell)
    requires IsGrid(sol) && IsGrid(puzzle) && IsMask(given) && InRange(cell.r, cell.c)
    requires Carved(sol, puzzle, given) && puzzle[cell.r][cell.c] == 0
    ensures given[cell.r][cell.c] ==> sol[cell.r][cell.c] == 0
  {
  }

  /** The cleared cells of a carve are exactly the solution's filled cells
      that appear in ds. */
  ghost predicate ClearedAmong(sol: Grid, given: Mask, ds: seq<Cell>)
    requires IsGrid(sol) && IsMask(given)
  {
    forall r, c :: InRange(r, c) ==> (!given[r][c] <==> sol[r][c] != 0 && Cell(r, c) in ds)
  }

  /** One more draw: the drawn cell stays given only if it was given and the
      solution had no digit there, and no other flag changes. */
  lemma ClearedAmongStep(sol: Grid, given: Mask, given': Mask, ds: seq<Cell>, cell: Cell)
    requires IsGrid(sol) && IsMask(given) && IsMask(given') && InRange(cell.r, cell.c)
    requires ClearedAmong(sol, given, ds)
    requires given'[cell.r][cell.c] == (given[cell.r][cell.c] && sol[cell.r][cell.c] == 0)
    requires forall r, c :: InRange(r, c) && (r != cell.r || c != cell.c) ==> given'[r][c] == given[r][c]
    ensures ClearedAmong(sol, given', ds + [cell])
  {
  }

  /** pokeHoles. The random cells the loop draws are given as draws: a draw on
      a filled cell clears it and spends one unit of the budget, a draw on an
      empty cell is a retry that changes nothing. done is false only when the
      draws ran out before the budget was spent (pokeHoles would keep
      drawing). used is the number of draws consumed. The given mask is false
      exactly on the cells of the solution that hold a digit and were drawn,
      every other cell keeps the solution's value, and a finished carve adds
      exactly HoleBudget(diff) holes. A carve of a grid without holes always finishes
      when the first HoleBudget(diff) draws are distinct. */
  method PokeHoles(sol: Grid, diff: string, draws: seq<Cell>) returns (puzzle: Grid, given: Mask, done: bool, used: nat)
    requires IsGrid(sol)
    requires forall k :: 0 <= k < |draws| ==> InRange(draws[k].r, draws[k].c)
    ensures IsGrid(puzzle) && IsMask(given)
    ensures used <= |draws| && (!done ==> used == |draws|)
    ensures forall r, c :: InRange(r, c) ==> (!given[r][c] <==> sol[r][c] != 0 && Cell(r, c) in draws[..used])
    ensures forall r, c :: InRange(r, c) && given[r][c] ==> puzzle[r][c] == sol[r][c]
    ensures forall r, c :: InRange(r, c) ==> (!given[r][c] <==> sol[r][c] != 0 && puzzle[r][c] == 0)
    ensures done ==> Holes(puzzle) == Holes(sol) + HoleBudget(diff)
    ensures !done ==> Holes(puzzle) < Holes(sol) + HoleBudget(diff)
    ensures ZeroFree(sol) && HoleBudget(diff) <= |draws| && DistinctCells(draws[..HoleBudget(diff)]) ==> done
  {
    var budget := HoleBudget(diff);
    ghost var distinctDraws := ZeroFree(sol) && budget <= |draws| && DistinctCells(draws[..budget]);
    puzzle := sol;
    given := FullMask(true);
    var attempts := budget;
    var k := 0;
    while attempts > 0 && k < |draws|
      invariant 0 <= k <= |draws| && 0 <= attempts <= budget
      invariant IsGrid(puzzle) && IsMask(given)
      invariant Carved(sol, puzzle, given)
      invariant ClearedAmong(sol, given, draws[..k])
      invariant Holes(puzzle) == Holes(sol) + (budget - attempts)
      invariant distinctDraws ==> attempts == budget - k
      invariant distinctDraws ==> forall j :: k <= j < budget ==> puzzle[draws[j].r][draws[j].c] != 0
    {
      var cell := draws[k];
      ghost var before := given;
      if puzzle[cell.r][cell.c] != 0 {
        CarvedClear(sol, puzzle, given, cell);
        HolesSetCell(puzzle, cell.r, cell.c, 0);
        puzzle := SetCell(puzzle, cell.r, cell.c, 0);
        given := SetFlag(given, cell.r, cell.c, false);
        attempts := attempts - 1;
        if distinctDraws {
          forall j | k < j < budget
            ensures puzzle[draws[j].r][draws[j].c] != 0
          {
            assert draws[..budget][k] != draws[..budget][j];
          }
        }
      } else {
        CarvedEmpty(sol, puzzle, given, cell);
      }
      ClearedAmongStep(sol, before, given, draws[..k], cell);
      assert draws[..k + 1] == draws[..k] + [cell];
      k := k + 1;
    }
    done := attempts == 0;
    used := k;
  }
}
