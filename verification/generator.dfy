/** The solution generator: randomised backtracking over the cells in
    row-major order, trying the nine digits in a Fisher-Yates shuffled order. */
module Generator {
  import opened Board
  import opened Constraint

  const Digits: seq<int> := [1, 2, 3, 4, 5, 6, 7, 8, 9]

  /** (r1, c1) comes strictly before (r2, c2) in row-major order. */
  predicate Before(r1: int, c1: int, r2: int, c2: int) {
    r1 < r2 || (r1 == r2 && c1 < c2)
  }

  /** findEmpty: the first empty cell in row-major order, or None when the
      grid is full. */
  method FindEmpty(g: Grid) returns (e: Option<Cell>)
    requires IsGrid(g)
    ensures e.None? <==> ZeroFree(g)
    ensures e.Some? ==> InRange(e.value.r, e.value.c) && g[e.value.r][e.value.c] == 0
    ensures e.Some? ==> forall r, c :: InRange(r, c) && Before(r, c, e.value.r, e.value.c) ==> g[r][c] != 0
  {
    var r := 0;
    while r < 9
      invariant 0 <= r <= 9
      invariant forall r2, c2 :: 0 <= r2 < r && 0 <= c2 < 9 ==> g[r2][c2] != 0
    {
      var c := 0;
      while c < 9
        invariant 0 <= c <= 9
        invariant forall c2 :: 0 <= c2 < c ==> g[r][c2] != 0
      {
        if g[r][c] == 0 {
          return Some(Cell(r, c));
        }
        c := c + 1;
      }
      r := r + 1;
    }
    return None;
  }

  /** s with the elements at positions i and j exchanged. */
  function Swap(s: seq<int>, i: int, j: int): (t: seq<int>)
    requires 0 <= i < |s| && 0 <= j < |s|
    ensures |t| == |s| && t[i] == s[j] && t[j] == s[i]
  {
    s[i := s[j]][j := s[i]]
  }

  /** A swap reorders s. */
  lemma SwapPermutes(s: seq<int>, i: int, j: int)
    requires 0 <= i < |s| && 0 <= j < |s|
    ensures multiset(Swap(s, i, j)) == multiset(s)
  {
  }

  /** js is a sequence of swap indices for n elements: the index used at
      position i lies in 0..i (position 0 is never swapped). */
  predicate Admissible(js: seq<int>, n: int) {
    |js| == n && forall i :: 0 < i < n ==> 0 <= js[i] <= i
  }

  /** The Fisher-Yates pass as a function: for positions i down to 1, swap
      position i with position js[i]. */
  function FisherYates(s: seq<int>, js: seq<int>, i: int): (t: seq<int>)
    requires Admissible(js, |s|) && -1 <= i < |s|
    ensures |t| == |s|
    decreases i
  {
    if i <= 0 then s else FisherYates(Swap(s, i, js[i]), js, i - 1)
  }

  /** The pass reorders s and never touches a position above i. */
  lemma {:induction false} FisherYatesPermutes(s: seq<int>, js: seq<int>, i: int)
    requires Admissible(js, |s|) && -1 <= i < |s|
    ensures multiset(FisherYates(s, js, i)) == multiset(s)
    ensures FisherYates(s, js, i)[i + 1..] == s[i + 1..]
    decreases i
  {
    if i > 0 {
      var u := Swap(s, i, js[i]);
      SwapPermutes(s, i, js[i]);
      FisherYatesPermutes(u, js, i - 1);
      assert u[i + 1..] == s[i + 1..];
    }
  }

  /** shuffle: Fisher-Yates. For i from |a|-1 down to 1 it swaps a[i] with
      a[js[i]], where js[i] is the random index drawn from 0..i. The result
      is the functional pass above, so in particular its last element is
      a[js[|a|-1]], and it is a reordering of a. */
  method Shuffle(a: seq<int>, js: seq<int>) returns (s: seq<int>)
    requires Admissible(js, |a|)
    ensures s == FisherYates(a, js, |a| - 1)
    ensures |s| == |a| && multiset(s) == multiset(a)
    ensures |a| > 1 ==> s[|a| - 1] == a[js[|a| - 1]]
    ensures (forall i :: 0 < i < |a| ==> js[i] == i) ==> s == a
  {
    s := a;
    var i := |a| - 1;
    while i > 0
      invariant -1 <= i < |a| && |s| == |a|
      invariant FisherYates(a, js, |a| - 1) == FisherYates(s, js, i)
    {
      s := Swap(s, i, js[i]);
      i := i - 1;
    }
    FisherYatesPermutes(a, js, |a| - 1);
    if |a| > 1 {
      var u := Swap(a, |a| - 1, js[|a| - 1]);
      FisherYatesPermutes(u, js, |a| - 2);
      assert s == FisherYates(u, js, |a| - 2);
      assert s[|a| - 1..] == u[|a| - 1..];
    }
    if forall k :: 0 < k < |a| ==> js[k] == k {
      FisherYatesIdentity(a, js, |a| - 1);
    }
  }

  /** With every swap index equal to its own position no swap moves
      anything, and the pass returns its input. */
  lemma {:induction false} FisherYatesIdentity(a: seq<int>, js: seq<int>, i: int)
    requires Admissible(js, |a|) && -1 <= i < |a|
    requires forall k :: 0 < k < |a| ==> js[k] == k
    ensures FisherYates(a, js, i) == a
    decreases i
  {
    if i > 0 {
      assert Swap(a, i, js[i]) == a;
      FisherYatesIdentity(a, js, i - 1);
    }
  }

  /** Every reordering b of a is the outcome of the shuffle for some
      admissible choice of swap indices: no permutation is out of reach. */
  lemma FisherYatesReaches(a: seq<int>, b: seq<int>) returns (js: seq<int>)
    requires multiset(b) == multiset(a)
    ensures Admissible(js, |a|) && FisherYates(a, js, |a| - 1) == b
  {
    assert |b| == |multiset(b)| == |multiset(a)| == |a|;
    assert a[..|a|] == a && b[..|b|] == b;
    js := FisherYatesReachesFrom(a, b, |a| - 1, seq(|a|, k => 0));
  }

  /** The pass from position i down reaches any b that agrees with a above i
      and reorders a up to i; the indices above i are kept as given. */
  lemma {:induction false} FisherYatesReachesFrom(a: seq<int>, b: seq<int>, i: int, js0: seq<int>) returns (js: seq<int>)
    requires |a| == |b| && -1 <= i < |a| && Admissible(js0, |a|)
    requires multiset(a[..i + 1]) == multiset(b[..i + 1])
    requires forall k :: i < k < |a| && 0 <= k ==> a[k] == b[k]
    ensures Admissible(js, |a|) && FisherYates(a, js, i) == b
    ensures forall k :: i < k < |a| && 0 <= k ==> js[k] == js0[k]
    decreases i
  {
    if i <= 0 {
      js := js0;
      PrefixAgrees(a, b, i);
    } else {
      var j := PickSource(a, b, i);
      SwapIntoPlace(a, b, i, j);
      js := FisherYatesReachesFrom(Swap(a, i, j), b, i - 1, js0[i := j]);
    }
  }

  /** The element b holds at position i sits at some position j <= i of a
      when the two prefixes up to i are reorderings of each other. */
  lemma PickSource(a: seq<int>, b: seq<int>, i: int) returns (j: int)
    requires |a| == |b| && 0 <= i < |a|
    requires multiset(a[..i + 1]) == multiset(b[..i + 1])
    ensures 0 <= j <= i && a[j] == b[i]
  {
    assert b[..i + 1][i] == b[i];
    assert b[i] in multiset(a[..i + 1]);
    j :| 0 <= j <= i && a[j] == b[i];
  }

  /** With at most one position left to shuffle, prefixes that reorder each
      other and agreeing suffixes make the sequences equal. */
  lemma PrefixAgrees(a: seq<int>, b: seq<int>, i: int)
    requires |a| == |b| && -1 <= i <= 0 && i < |a|
    requires multiset(a[..i + 1]) == multiset(b[..i + 1])
    requires forall k :: i < k < |a| && 0 <= k ==> a[k] == b[k]
    ensures a == b
  {
    if i == 0 {
      assert a[..1] == [a[0]] && b[..1] == [b[0]];
      assert a[0] in multiset(b[..1]);
    }
  }

  /** Swapping into position i the element b wants there leaves a prefix
      that is again a reordering of b's prefix, with everything from i up in
      agreement with b. */
  lemma SwapIntoPlace(a: seq<int>, b: seq<int>, i: int, j: int)
    requires |a| == |b| && 0 < i < |a| && 0 <= j <= i && a[j] == b[i]
    requires multiset(a[..i + 1]) == multiset(b[..i + 1])
    requires forall k :: i < k < |a| ==> a[k] == b[k]
    ensures
      var u := Swap(a, i, j);
      && multiset(u[..i]) == multiset(b[..i])
      && forall k :: i <= k < |a| ==> u[k] == b[k]
  {
    var u := Swap(a, i, j);
    assert u[..i + 1] == Swap(a[..i + 1], i, j);
    SwapPermutes(a[..i + 1], i, j);
    PrefixMultiset(u[..i + 1], b[..i + 1]);
    assert u[..i + 1][..i] == u[..i] && b[..i + 1][..i] == b[..i];
  }

  /** Two reorderings of each other that end in the same element are
      reorderings of each other without it. */
  lemma PrefixMultiset(u: seq<int>, b: seq<int>)
    requires |u| == |b| > 0 && multiset(u) == multiset(b) && u[|u| - 1] == b[|b| - 1]
    ensures multiset(u[..|u| - 1]) == multiset(b[..|b| - 1])
  {
    var n := |u|;
    assert u == u[..n - 1] + [u[n - 1]];
    assert b == b[..n - 1] + [b[n - 1]];
    var x := multiset{u[n - 1]};
    assert multiset(u[..n - 1]) + x == multiset(b[..n - 1]) + x;
    assert multiset(u[..n - 1]) == (multiset(u[..n - 1]) + x) - x;
  }

  /** Any reordering of the nine digits holds only digits 1..9. */
  lemma ShuffledDigits(nums: seq<int>)
    requires multiset(nums) == multiset(Digits)
    ensures forall k :: 0 <= k < |nums| ==> 1 <= nums[k] <= 9
  {
    forall k | 0 <= k < |nums|
      ensures 1 <= nums[k] <= 9
    {
      assert nums[k] in multiset(nums);
      assert nums[k] in Digits;
    }
  }

  /** The order in which one cell tries the digits: the nine digits
      shuffled with the indices drawn at next, each exactly once. */
  method DigitOrder(rand: nat -> nat, next: nat) returns (nums: seq<int>)
    ensures nums == FisherYates(Digits, DrawIndices(rand, next), 8)
    ensures |nums| == 9 && multiset(nums) == multiset(Digits)
    ensures forall k :: 0 <= k < |nums| ==> 1 <= nums[k] <= 9
  {
    nums := Shuffle(Digits, DrawIndices(rand, next));
    ShuffledDigits(nums);
  }

  /** The eight random indices one shuffle of the nine digits draws, taken
      from the random stream at positions next .. next+7 (i = 8 first). */
  function DrawIndices(rand: nat -> nat, next: nat): (js: seq<int>)
    ensures Admissible(js, 9)
  {
    seq(9, i requires 0 <= i < 9 => if i == 0 then 0 else rand(next + 8 - i) % (i + 1))
  }

  /** g' completes g: no hole is left, every cell filled in g keeps its
      value, every hole of g now holds a digit 1..9, and when g had no
      repeated digit neither has g'. */
  ghost predicate Completes(g: Grid, g': Grid)
    requires IsGrid(g) && IsGrid(g')
  {
    && ZeroFree(g')
    && (forall r, c :: InRange(r, c) && g[r][c] != 0 ==> g'[r][c] == g[r][c])
    && (forall r, c :: InRange(r, c) && g[r][c] == 0 ==> 1 <= g'[r][c] <= 9)
    && (NoConflicts(g) ==> NoConflicts(g'))
  }

  /** Completing the grid after a valid placement into a hole completes the
      grid before it. */
  lemma CompletesAfterPlace(g: Grid, r: int, c: int, n: int, filled: Grid)
    requires IsGrid(g) && IsGrid(filled) && InRange(r, c)
    requires g[r][c] == 0 && 1 <= n <= 9 && IsValid(g, r, c, n)
    requires Completes(SetCell(g, r, c, n), filled)
    ensures Completes(g, filled)
  {
    if NoConflicts(g) {
      PlaceKeepsNoConflicts(g, r, c, n);
    }
  }

  /** fillGrid: recursive backtracking. On success every empty cell has been
      filled with a digit, the cells filled on entry are untouched and, when
      the entry grid had no repeated digit, neither has the result. On failure
      the grid is exactly as it was on entry. Each recursive call is made on a
      grid with one hole fewer. */
  method FillGrid(g: Grid, rand: nat -> nat, next: nat) returns (ok: bool, g': Grid, next': nat)
    requires IsGrid(g)
    ensures IsGrid(g')
    ensures ok ==> Completes(g, g')
    ensures !ok ==> g' == g
    decreases Holes(g), 1
  {
    var empty := FindEmpty(g);
    if empty.None? {
      return true, g, next;
    }
    var nums := DigitOrder(rand, next);
    ok, g', next' := TryDigits(g, empty.value.r, empty.value.c, nums, rand, next + 8);
  }

  /** The loop of fillGrid over the shuffled digits for the hole (r, c): each
      digit that IsValid accepts is placed and the rest of the grid filled
      recursively; a failed attempt puts the hole back. The outcome is as for
      FillGrid. */
  method TryDigits(g: Grid, r: int, c: int, nums: seq<int>, rand: nat -> nat, next: nat) returns (ok: bool, g': Grid, next': nat)
    requires IsGrid(g) && InRange(r, c) && g[r][c] == 0
    requires forall k :: 0 <= k < |nums| ==> 1 <= nums[k] <= 9
    ensures IsGrid(g')
    ensures ok ==> Completes(g, g')
    ensures !ok ==> g' == g
    decreases Holes(g), 0
  {
    var cursor: nat := next;
    var grid := g;
    var i := 0;
    while i < |nums|
      invariant 0 <= i <= |nums|
      invariant grid == g
    {
      var n := nums[i];
      if IsValid(grid, r, c, n) {
        grid := SetCell(grid, r, c, n);
        HolesSetCell(g, r, c, n);
        var done, filled, cur := FillGrid(grid, rand, cursor);
        cursor := cur;
        if done {
          CompletesAfterPlace(g, r, c, n, filled);
          return true, filled, cursor;
        }
        grid := SetCell(filled, r, c, 0);
        GridExt(grid, g);
      }
      i := i + 1;
    }
    return false, grid, cursor;
  }

  /** generateSolution: start from the empty grid and run fillGrid; the result
      of fillGrid is not inspected, so the grid is either a complete valid
      Sudoku or, had the search failed, still empty. */
  method GenerateSolution(rand: nat -> nat) returns (g: Grid)
    ensures IsBoard(g)
    ensures g == EmptyGrid() || IsSolution(g)
  {
    var start := EmptyGrid();
    var ok, filled, _ := FillGrid(start, rand, 0);
    g := filled;
    if ok {
      assert forall r, c :: InRange(r, c) ==> start[r][c] == 0;
    }
  }
}
