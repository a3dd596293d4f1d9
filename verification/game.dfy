/** The game state and its transitions: digit input, note toggling, the undo
    history, hints, the board check, the win check, solving, selection and a
    fresh game. Every transition is a pure function from state to state. */
module Game {
  import opened Board
  import opened Constraint
  import opened NotesEngine
  import Generator
  import Carver

  /** One undoable action: a digit written into a cell (with the cell's old
      value and old notes) or a note flag toggled (with the cell's old notes). */
  datatype Edit =
    | SetEdit(r: int, c: int, oldVal: int, newVal: int, notes: CellNotes)
    | NoteEdit(r: int, c: int, num: int, oldNotes: CellNotes)

  /** The redo stack is emptied on every push and never read. */
  datatype History = History(undo: seq<Edit>, redo: seq<Edit>)

  datatype Settings = Settings(noteMode: bool, autoNotes: bool, showMistakes: bool)

  /** The timer's clock fields are not modelled; only the pause flag is. */
  datatype Stats = Stats(mistakes: nat, paused: bool)

  datatype GameState = GameState(
    grid: Grid,
    solution: Grid,
    given: Mask,
    notes: NoteGrid,
    history: History,
    selected: Option<Cell>,
    settings: Settings,
    stats: Stats)

  /** What one input did: the rejections the player is told about, a toggled
      note, a silent no-op, or a placement with its mistake and win checks. */
  datatype Outcome =
    | NoSelection
    | GivenCell
    | NoteToggled
    | Unchanged
    | Placed(mistake: bool, won: bool)
    | NoEmptyCell

  datatype Step = Step(state: GameState, outcome: Outcome)

  predicate EditOk(e: Edit, given: Mask)
    requires IsMask(given)
  {
    && InRange(e.r, e.c)
    && !given[e.r][e.c]
    && match e
       case SetEdit(_, _, oldVal, newVal, cn) => 0 <= oldVal <= 9 && 0 <= newVal <= 9 && |cn| == 10
       case NoteEdit(_, _, num, cn) => 1 <= num <= 9 && |cn| == 10
  }

  /** Shapes are right, the selection is on the board, given cells hold the
      solution's digit, and every recorded edit is about a non-given cell. */
  ghost predicate Valid(s: GameState) {
    && IsBoard(s.grid) && IsBoard(s.solution) && IsMask(s.given) && IsNotes(s.notes)
    && (s.selected.Some? ==> InRange(s.selected.value.r, s.selected.value.c))
    && (forall r, c :: InRange(r, c) && s.given[r][c] ==> s.grid[r][c] == s.solution[r][c])
    && (forall e :: e in s.history.undo ==> EditOk(e, s.given))
    && (forall e :: e in s.history.redo ==> EditOk(e, s.given))
  }

  /** Every cell is filled and agrees with the solution. */
  ghost predicate Won(g: Grid, sol: Grid)
    requires IsGrid(g) && IsGrid(sol)
  {
    forall r, c :: InRange(r, c) ==> g[r][c] != 0 && g[r][c] == sol[r][c]
  }

  // ---------------------------------------------------------------------
  // History

  /** pushHistory: append one record and drop the redo stack. */
  function PushHistory(s: GameState, e: Edit): (s': GameState)
    requires Valid(s) && EditOk(e, s.given)
    ensures Valid(s')
    ensures s'.history == History(s.history.undo + [e], [])
    ensures s' == s.(history := s'.history)
  {
    s.(history := History(s.history.undo + [e], []))
  }

  /** toggleNote: flip flag num of (r, c) and record the cell's old notes. */
  function ToggleNote(s: GameState, r: int, c: int, num: int): (s': GameState)
    requires Valid(s) && InRange(r, c) && !s.given[r][c] && 1 <= num <= 9
    ensures Valid(s')
    ensures s'.notes == ToggleFlag(s.notes, r, c, num)
    ensures s'.history == History(s.history.undo + [NoteEdit(r, c, num, s.notes[r][c])], [])
    ensures s' == s.(notes := s'.notes, history := s'.history)
  {
    var prev := s.notes[r][c];
    PushHistory(s.(notes := ToggleFlag(s.notes, r, c, num)), NoteEdit(r, c, num, prev))
  }

  /** undo: pop the last record and put back what it saved: the old value and
      old notes of its cell for a digit, the old notes of its cell for a note.
      No other cell, no other note, the redo stack and the mistake counter are
      left alone; with nothing to undo nothing changes. */
  function Undo(s: GameState): (s': GameState)
    requires Valid(s)
    ensures Valid(s')
    ensures |s.history.undo| == 0 ==> s' == s
    ensures |s.history.undo| > 0 ==>
      var e := s.history.undo[|s.history.undo| - 1];
      && InRange(e.r, e.c)
      && s'.history == History(s.history.undo[..|s.history.undo| - 1], s.history.redo)
      && s'.grid[e.r][e.c] == (if e.SetEdit? then e.oldVal else s.grid[e.r][e.c])
      && s'.notes[e.r][e.c] == (if e.SetEdit? then e.notes else e.oldNotes)
      && (forall r, c :: InRange(r, c) && (r != e.r || c != e.c) ==> s'.grid[r][c] == s.grid[r][c] && s'.notes[r][c] == s.notes[r][c])
    ensures s' == s.(grid := s'.grid, notes := s'.notes, history := s'.history)
  {
    if |s.history.undo| == 0 then s
    else
      var n := |s.history.undo|;
      var e := s.history.undo[n - 1];
      assert e in s.history.undo;
      var h := History(s.history.undo[..n - 1], s.history.redo);
      assert forall x :: x in h.undo ==> x in s.history.undo;
      match e
      case SetEdit(r, c, oldVal, _, cn) =>
        s.(grid := SetCell(s.grid, r, c, oldVal), notes := SetCellNotes(s.notes, r, c, cn), history := h)
      case NoteEdit(r, c, _, cn) =>
        s.(notes := SetCellNotes(s.notes, r, c, cn), history := h)
  }

  // ---------------------------------------------------------------------
  // Win check, board check and digit counts

  /** checkWinCondition: 81 filled cells and 81 correct cells is the same as
      every cell being filled with the solution's digit. */
  function CheckWin(g: Grid, sol: Grid): (won: bool)
    requires IsGrid(g) && IsGrid(sol)
    ensures won <==> Won(g, sol)
  {
    CountAll(g, sol, Filled);
    CountAll(g, sol, Correct);
    Count(g, sol, Filled) == 81 && Count(g, sol, Correct) == 81
  }

  /** checkBoard: the number of filled cells that disagree with the solution.
      It is zero exactly when every filled cell agrees, and together with the
      correct cells it makes up all filled cells. */
  function CheckBoard(s: GameState): (errs: nat)
    requires Valid(s)
    ensures errs == 0 <==> forall r, c :: InRange(r, c) ==> s.grid[r][c] == 0 || s.grid[r][c] == s.solution[r][c]
    ensures errs + Count(s.grid, s.solution, Correct) == Count(s.grid, s.solution, Filled)
  {
    CountNone(s.grid, s.solution, Wrong);
    CountSplit(s.grid, s.solution, Filled, Correct, Wrong);
    Count(s.grid, s.solution, Wrong)
  }

  /** The keypad's remaining count of digit d: 9 minus its occurrences on the
      board. It is 9 exactly when d is nowhere on the board, and can drop
      below zero when d is over-placed. */
  function Remaining(g: Grid, d: int): (rem: int)
    requires IsGrid(g)
    ensures -72 <= rem <= 9
    ensures rem == 9 <==> forall r, c :: InRange(r, c) ==> g[r][c] != d
  {
    CountNone(g, g, HasDigit(d));
    9 - Count(g, g, HasDigit(d))
  }

  // ---------------------------------------------------------------------
  // Digit input

  /** The notes after num is written into (r, c): a non-zero num clears the
      cell's own notes and, with auto-notes on, turns flag num off in every
      peer; a zero leaves the notes alone. */
  function PlacedNotes(ns: NoteGrid, r: int, c: int, num: int, auto: bool): (res: NoteGrid)
    requires IsNotes(ns) && InRange(r, c) && 0 <= num <= 9
    ensures IsNotes(res)
    ensures res[r][c] == if num != 0 then EmptyCellNotes() else ns[r][c]
    ensures !(auto && num != 0) ==>
      forall r2, c2 :: InRange(r2, c2) && (r2 != r || c2 != c) ==> res[r2][c2] == ns[r2][c2]
    ensures auto && num != 0 ==>
      forall r2, c2, d :: InRange(r2, c2) && (r2 != r || c2 != c) && 0 <= d < 10 ==>
        res[r2][c2][d] == (ns[r2][c2][d] && !(d == num && Peer(r, c, r2, c2)))
  {
    if num == 0 then ns
    else
      var cleared := SetCellNotes(ns, r, c, EmptyCellNotes());
      if auto then
        var res := ClearRelatedNotes(cleared, r, c, num);
        forall r2, c2, d | InRange(r2, c2) && (r2 != r || c2 != c) && 0 <= d < 10
          ensures res[r2][c2][d] == (ns[r2][c2][d] && !(d == num && Peer(r, c, r2, c2)))
        {
          assert cleared[r2][c2] == ns[r2][c2];
        }
        assert res[r][c] == EmptyCellNotes() by {
          assert forall d :: 0 <= d < 10 ==> res[r][c][d] == EmptyCellNotes()[d];
        }
        res
      else cleared
  }

  /** The normal-input branch of inputDigit for a non-given cell whose value
      differs from num: one SetEdit record is pushed and redo emptied, the cell
      takes num, its notes change as PlacedNotes says, the mistake counter
      grows by one iff num is a wrong non-zero digit, and the win check runs on
      the new board. Nothing else changes. */
  function Place(s: GameState, r: int, c: int, num: int): (step: Step)
    requires Valid(s) && InRange(r, c) && !s.given[r][c] && 0 <= num <= 9 && s.grid[r][c] != num
    ensures Valid(step.state)
    ensures step.outcome.Placed?
    ensures step.state.history == History(s.history.undo + [SetEdit(r, c, s.grid[r][c], num, s.notes[r][c])], [])
    ensures step.state.grid[r][c] == num
    ensures forall r2, c2 :: InRange(r2, c2) && (r2 != r || c2 != c) ==> step.state.grid[r2][c2] == s.grid[r2][c2]
    ensures step.state.notes == PlacedNotes(s.notes, r, c, num, s.settings.autoNotes)
    ensures step.outcome.mistake <==> num != 0 && num != s.solution[r][c]
    ensures step.state.stats.mistakes == s.stats.mistakes + Ind(step.outcome.mistake)
    ensures step.outcome.won <==> Won(step.state.grid, s.solution)
    ensures step.state == s.(grid := step.state.grid, notes := step.state.notes, history := step.state.history,
                             stats := s.stats.(mistakes := step.state.stats.mistakes))
  {
    var s1 := PushHistory(s, SetEdit(r, c, s.grid[r][c], num, s.notes[r][c]));
    var grid := SetCell(s.grid, r, c, num);
    var notes := PlacedNotes(s.notes, r, c, num, s.settings.autoNotes);
    var mistake := num != 0 && num != s.solution[r][c];
    var mistakes := s.stats.mistakes + Ind(mistake);
    Step(s1.(grid := grid, notes := notes, stats := s.stats.(mistakes := mistakes)),
         Placed(mistake, CheckWin(grid, s.solution)))
  }

  /** inputDigit for the selected cell: without a selection, on a given cell,
      or with a value the cell already holds outside note mode, nothing at all
      changes; in note mode a non-zero digit toggles a note; otherwise the
      digit is placed. The mistake counter never goes down and grows by at
      most one. */
  function InputDigit(s: GameState, num: int): (step: Step)
    requires Valid(s) && 0 <= num <= 9
    ensures Valid(step.state)
    ensures step.state.solution == s.solution && step.state.given == s.given
    ensures step.state.selected == s.selected && step.state.settings == s.settings
    ensures step.state.stats.paused == s.stats.paused
    ensures step.state.stats.mistakes == s.stats.mistakes + Ind(step.outcome.Placed? && step.outcome.mistake)
    ensures forall r, c :: InRange(r, c) && s.given[r][c] ==> step.state.grid[r][c] == s.grid[r][c]
    ensures s.selected.None? ==> step == Step(s, NoSelection)
    ensures s.selected.Some? && s.given[s.selected.value.r][s.selected.value.c] ==> step == Step(s, GivenCell)
    ensures (s.selected.Some? && !s.given[s.selected.value.r][s.selected.value.c] && !(s.settings.noteMode && num != 0)
             && s.grid[s.selected.value.r][s.selected.value.c] == num) ==> step == Step(s, Unchanged)
    ensures s.selected.Some? && s.settings.noteMode && num != 0 ==> step.state.grid == s.grid
    ensures s.selected.Some? ==>
      var r, c := s.selected.value.r, s.selected.value.c;
      && (!s.given[r][c] && s.settings.noteMode && num != 0 ==> step == Step(ToggleNote(s, r, c, num), NoteToggled))
      && (!s.given[r][c] && !(s.settings.noteMode && num != 0) && s.grid[r][c] != num ==> step == Place(s, r, c, num))
  {
    if s.selected.None? then Step(s, NoSelection)
    else
      var r, c := s.selected.value.r, s.selected.value.c;
      if s.given[r][c] then Step(s, GivenCell)
      else if s.settings.noteMode && num != 0 then Step(ToggleNote(s, r, c, num), NoteToggled)
      else if s.grid[r][c] == num then Step(s, Unchanged)
      else Place(s, r, c, num)
  }

  // ---------------------------------------------------------------------
  // Hints and solving

  /** The empty cells of row r from column c on, in column order. */
  function EmptiesInRow(g: Grid, r: int, c: int): (cs: seq<Cell>)
    requires IsGrid(g) && 0 <= r < 9 && 0 <= c <= 9
    ensures forall x :: x in cs <==> x.r == r && c <= x.c < 9 && g[r][x.c] == 0
    ensures |cs| == 0 <==> forall k :: c <= k < 9 ==> g[r][k] != 0
    ensures forall i :: 0 < i < |cs| ==> cs[i - 1].c < cs[i].c
    decreases 9 - c
  {
    if c == 9 then []
    else
      var rest := EmptiesInRow(g, r, c + 1);
      CellThenRest(g, r, c, rest);
      (if g[r][c] == 0 then [Cell(r, c)] else []) + rest
  }

  /** Cell (r, c), when empty, followed by the empty cells of row r after
      column c are the empty cells of row r from column c on, in column
      order. */
  lemma CellThenRest(g: Grid, r: int, c: int, rest: seq<Cell>)
    requires IsGrid(g) && 0 <= r < 9 && 0 <= c < 9
    requires forall x :: x in rest <==> x.r == r && c + 1 <= x.c < 9 && g[r][x.c] == 0
    requires |rest| == 0 <==> forall k :: c + 1 <= k < 9 ==> g[r][k] != 0
    requires forall i :: 0 < i < |rest| ==> rest[i - 1].c < rest[i].c
    ensures var cs := (if g[r][c] == 0 then [Cell(r, c)] else []) + rest;
      && (forall x :: x in cs <==> x.r == r && c <= x.c < 9 && g[r][x.c] == 0)
      && (|cs| == 0 <==> forall k :: c <= k < 9 ==> g[r][k] != 0)
      && (forall i :: 0 < i < |cs| ==> cs[i - 1].c < cs[i].c)
  {
    if |rest| > 0 {
      assert rest[0] in rest;
    }
  }

  /** The empty cells of rows r..8 in row-major order. */
  function EmptiesFrom(g: Grid, r: int): (cs: seq<Cell>)
    requires IsGrid(g) && 0 <= r <= 9
    ensures forall x :: x in cs <==> r <= x.r < 9 && 0 <= x.c < 9 && g[x.r][x.c] == 0
    ensures |cs| == 0 <==> forall r2, c2 :: r <= r2 < 9 && 0 <= c2 < 9 ==> g[r2][c2] != 0
    ensures forall i :: 0 < i < |cs| ==> Generator.Before(cs[i - 1].r, cs[i - 1].c, cs[i].r, cs[i].c)
    decreases 9 - r
  {
    if r == 9 then []
    else
      var row, rest := EmptiesInRow(g, r, 0), EmptiesFrom(g, r + 1);
      EmptiesJoin(g, r, row, rest);
      RowThenLater(row, rest, r);
      row + rest
  }

  /** The empty cells of row r followed by those of the rows below are the
      empty cells of rows r..8. */
  lemma EmptiesJoin(g: Grid, r: int, row: seq<Cell>, rest: seq<Cell>)
    requires IsGrid(g) && 0 <= r < 9
    requires forall x :: x in row <==> x.r == r && 0 <= x.c < 9 && g[r][x.c] == 0
    requires |row| == 0 <==> forall k :: 0 <= k < 9 ==> g[r][k] != 0
    requires forall x :: x in rest <==> r + 1 <= x.r < 9 && 0 <= x.c < 9 && g[x.r][x.c] == 0
    requires |rest| == 0 <==> forall r2, c2 :: r + 1 <= r2 < 9 && 0 <= c2 < 9 ==> g[r2][c2] != 0
    ensures forall x :: x in row + rest <==> r <= x.r < 9 && 0 <= x.c < 9 && g[x.r][x.c] == 0
    ensures |row + rest| == 0 <==> forall r2, c2 :: r <= r2 < 9 && 0 <= c2 < 9 ==> g[r2][c2] != 0
  {
  }

  /** One row's cells in column order followed by cells of later rows in
      row-major order are in row-major order, pair by adjacent pair. */
  lemma RowThenLater(row: seq<Cell>, rest: seq<Cell>, r: int)
    requires forall x :: x in row ==> x.r == r
    requires forall i :: 0 < i < |row| ==> row[i - 1].c < row[i].c
    requires forall x :: x in rest ==> r < x.r
    requires forall i :: 0 < i < |rest| ==> Generator.Before(rest[i - 1].r, rest[i - 1].c, rest[i].r, rest[i].c)
    ensures var cs := row + rest;
      forall i :: 0 < i < |cs| ==> Generator.Before(cs[i - 1].r, cs[i - 1].c, cs[i].r, cs[i].c)
  {
    var cs := row + rest;
    forall i | 0 < i < |cs|
      ensures Generator.Before(cs[i - 1].r, cs[i - 1].c, cs[i].r, cs[i].c)
    {
      if i < |row| {
        assert cs[i - 1] == row[i - 1] && cs[i] == row[i];
        assert row[i - 1] in row && row[i] in row;
      } else if i == |row| {
        assert cs[i - 1] == row[i - 1] && cs[i] == rest[0];
        assert row[i - 1] in row && rest[0] in rest;
      } else {
        assert cs[i - 1] == rest[i - 1 - |row|] && cs[i] == rest[i - |row|];
      }
    }
  }

  /** A sequence of cells in row-major order pair by adjacent pair is in
      row-major order for every pair: Before is transitive. */
  lemma {:induction false} RowMajorFromAdjacent(cs: seq<Cell>)
    requires forall i :: 0 < i < |cs| ==> Generator.Before(cs[i - 1].r, cs[i - 1].c, cs[i].r, cs[i].c)
    ensures forall i, j :: 0 <= i < j < |cs| ==> Generator.Before(cs[i].r, cs[i].c, cs[j].r, cs[j].c)
    decreases |cs|
  {
    if |cs| > 1 {
      var init := cs[..|cs| - 1];
      forall i | 0 < i < |init|
        ensures Generator.Before(init[i - 1].r, init[i - 1].c, init[i].r, init[i].c)
      {
        assert init[i - 1] == cs[i - 1] && init[i] == cs[i];
      }
      RowMajorFromAdjacent(init);
      forall i, j | 0 <= i < j < |cs|
        ensures Generator.Before(cs[i].r, cs[i].c, cs[j].r, cs[j].c)
      {
        if j < |cs| - 1 {
          assert init[i] == cs[i] && init[j] == cs[j];
        } else if i < j - 1 {
          assert init[i] == cs[i] && init[j - 1] == cs[j - 1];
        }
      }
    }
  }

  /** The list giveHint picks from: exactly the empty cells of the board,
      each once, in row-major order. */
  function EmptyCells(g: Grid): (cs: seq<Cell>)
    requires IsGrid(g)
    ensures forall x :: x in cs <==> InRange(x.r, x.c) && g[x.r][x.c] == 0
    ensures |cs| == 0 <==> ZeroFree(g)
    ensures forall i, j :: 0 <= i < j < |cs| ==> Generator.Before(cs[i].r, cs[i].c, cs[j].r, cs[j].c)
  {
    var cs := EmptiesFrom(g, 0);
    RowMajorFromAdjacent(cs);
    cs
  }

  /** The hint for one empty cell t: select t, then enter its solution digit
      as inputDigit would. */
  function HintAt(s: GameState, t: Cell): (step: Step)
    requires Valid(s) && InRange(t.r, t.c) && s.grid[t.r][t.c] == 0
    ensures Valid(step.state)
    ensures step.state.solution == s.solution && step.state.given == s.given
    ensures s.stats.mistakes <= step.state.stats.mistakes <= s.stats.mistakes + 1
    ensures step.state.selected == Some(t)
    ensures step == InputDigit(s.(selected := Some(t)), s.solution[t.r][t.c])
  {
    InputDigit(s.(selected := Some(t)), s.solution[t.r][t.c])
  }

  /** giveHint: k is the random draw, and the hint goes to the empty cell at
      position k modulo the number of empty cells, so every empty cell can be
      chosen. With no empty cell nothing happens. */
  function GiveHint(s: GameState, k: nat): (step: Step)
    requires Valid(s)
    ensures Valid(step.state)
    ensures step.state.solution == s.solution && step.state.given == s.given
    ensures s.stats.mistakes <= step.state.stats.mistakes <= s.stats.mistakes + 1
    ensures ZeroFree(s.grid) ==> step == Step(s, NoEmptyCell)
    ensures !ZeroFree(s.grid) ==>
      var empties := EmptyCells(s.grid);
      var t := empties[k % |empties|];
      && InRange(t.r, t.c) && s.grid[t.r][t.c] == 0
      && step == HintAt(s, t)
  {
    var empties := EmptyCells(s.grid);
    if |empties| == 0 then Step(s, NoEmptyCell)
    else
      var t := empties[k % |empties|];
      assert t in empties;
      HintAt(s, t)
  }

  /** solveGame; confirmed is the player's answer to the confirmation
      dialog. When declined nothing happens; when confirmed the board becomes
      the solution and the game is paused, and no history is pushed, so the
      undo stack still holds the player's own moves. The board is then won
      exactly when the solution has no hole, and the board check finds no
      error. */
  function SolveGame(s: GameState, confirmed: bool): (s': GameState)
    requires Valid(s)
    ensures Valid(s')
    ensures !confirmed ==> s' == s
    ensures confirmed ==> s'.grid == s.solution && s'.stats.paused
    ensures s'.history == s.history && s'.notes == s.notes && s'.stats.mistakes == s.stats.mistakes
    ensures confirmed ==> (Won(s'.grid, s'.solution) <==> ZeroFree(s.solution))
    ensures confirmed ==> CheckBoard(s') == 0
    ensures s' == s.(grid := s'.grid, stats := s'.stats)
  {
    if confirmed then s.(grid := s.solution, stats := s.stats.(paused := true)) else s
  }

  // ---------------------------------------------------------------------
  // Settings, pause and selection

  /** toggleNoteMode: flip note mode and nothing else. */
  function ToggleNoteMode(s: GameState): (s': GameState)
    requires Valid(s)
    ensures Valid(s')
    ensures s'.settings.noteMode == !s.settings.noteMode
    ensures s' == s.(settings := s.settings.(noteMode := s'.settings.noteMode))
  {
    s.(settings := s.settings.(noteMode := !s.settings.noteMode))
  }

  /** The auto-notes switch: turning it on recomputes all notes, so that every
      empty cell then holds exactly its possible digits; turning it off keeps
      the notes. */
  function SetAutoNotes(s: GameState, on: bool): (s': GameState)
    requires Valid(s)
    ensures Valid(s')
    ensures s'.settings.autoNotes == on
    ensures on ==> NotesExact(s'.grid, s'.notes)
    ensures on ==> s'.notes == GenerateAllNotes(s.grid, s.notes)
    ensures !on ==> s'.notes == s.notes
    ensures s' == s.(notes := s'.notes, settings := s.settings.(autoNotes := on))
  {
    var s1 := s.(settings := s.settings.(autoNotes := on));
    if on then s1.(notes := GenerateAllNotes(s.grid, s.notes)) else s1
  }

  /** The show-mistakes switch only affects presentation. */
  function SetShowMistakes(s: GameState, on: bool): (s': GameState)
    requires Valid(s)
    ensures Valid(s')
    ensures s' == s.(settings := s.settings.(showMistakes := on))
  {
    s.(settings := s.settings.(showMistakes := on))
  }

  /** pauseGame / resumeGame, reduced to the pause flag. */
  function Pause(s: GameState): (s': GameState)
    requires Valid(s)
    ensures Valid(s')
    ensures s'.stats.paused
    ensures s' == s.(stats := s.stats.(paused := true))
  {
    if s.stats.paused then s else s.(stats := s.stats.(paused := true))
  }

  function Resume(s: GameState): (s': GameState)
    requires Valid(s)
    ensures Valid(s')
    ensures !s'.stats.paused
    ensures s' == s.(stats := s.stats.(paused := false))
  {
    if s.stats.paused then s.(stats := s.stats.(paused := false)) else s
  }

  /** selectCell. */
  function SelectCell(s: GameState, r: int, c: int): (s': GameState)
    requires Valid(s) && InRange(r, c)
    ensures Valid(s')
    ensures s' == s.(selected := Some(Cell(r, c)))
  {
    s.(selected := Some(Cell(r, c)))
  }

  datatype Arrow = Up | Down | Left | Right

  function Opposite(a: Arrow): Arrow {
    match a
    case Up => Down
    case Down => Up
    case Left => Right
    case Right => Left
  }

  /** The cell one arrow step from cell, clamped to the board: it stays on
      the board, moves by one in the arrow's direction, and stays put exactly
      when the arrow points off the board. */
  function Step1(cell: Cell, a: Arrow): (next: Cell)
    requires InRange(cell.r, cell.c)
    ensures InRange(next.r, next.c)
    ensures (next.r == cell.r && -1 <= next.c - cell.c <= 1) || (next.c == cell.c && -1 <= next.r - cell.r <= 1)
    ensures next == cell <==> AtEdge(cell, a)
    ensures a.Up? ==> next.c == cell.c && next.r <= cell.r
    ensures a.Down? ==> next.c == cell.c && next.r >= cell.r
    ensures a.Left? ==> next.r == cell.r && next.c <= cell.c
    ensures a.Right? ==> next.r == cell.r && next.c >= cell.c
  {
    match a
    case Up => Cell(if cell.r - 1 < 0 then 0 else cell.r - 1, cell.c)
    case Down => Cell(if cell.r + 1 > 8 then 8 else cell.r + 1, cell.c)
    case Left => Cell(cell.r, if cell.c - 1 < 0 then 0 else cell.c - 1)
    case Right => Cell(cell.r, if cell.c + 1 > 8 then 8 else cell.c + 1)
  }

  /** Whether an arrow would push the selection off the board. */
  predicate AtEdge(cell: Cell, a: Arrow) {
    match a
    case Up => cell.r == 0
    case Down => cell.r == 8
    case Left => cell.c == 0
    case Right => cell.c == 8
  }

  /** The arrow-key branch of handleKeydown: ignored while paused, selects
      (0, 0) when nothing is selected, otherwise moves the selection one cell,
      clamped to the board. The selection always stays on the board. */
  function MoveSelection(s: GameState, a: Arrow): (s': GameState)
    requires Valid(s)
    ensures Valid(s')
    ensures s'.selected.Some? || s.stats.paused
    ensures s.stats.paused ==> s' == s
    ensures !s.stats.paused && s.selected.None? ==> s'.selected == Some(Cell(0, 0))
    ensures !s.stats.paused && s.selected.Some? ==> s'.selected == Some(Step1(s.selected.value, a))
    ensures s' == s.(selected := s'.selected)
  {
    if s.stats.paused then s
    else if s.selected.None? then SelectCell(s, 0, 0)
    else
      var next := Step1(s.selected.value, a);
      SelectCell(s, next.r, next.c)
  }

  /** The keys handleKeydown reacts to; Digit carries 1..9. */
  datatype Key = ArrowKey(dir: Arrow) | DigitKey(d: int) | EraseKey | NoteModeKey | UndoKey | OtherKey

  /** handleKeydown: while paused no key has any effect; otherwise arrows move
      the selection, digits and erase go through inputDigit, n flips note mode
      and ctrl/cmd-z undoes. A key never touches the solution or the givens. */
  function HandleKey(s: GameState, key: Key): (s': GameState)
    requires Valid(s)
    requires key.DigitKey? ==> 1 <= key.d <= 9
    ensures Valid(s')
    ensures s.stats.paused ==> s' == s
    ensures s'.solution == s.solution && s'.given == s.given && s'.stats.paused == s.stats.paused
    ensures s.stats.mistakes <= s'.stats.mistakes <= s.stats.mistakes + 1
  {
    if s.stats.paused then s
    else
      match key
      case ArrowKey(a) => MoveSelection(s, a)
      case DigitKey(d) => InputDigit(s, d).state
      case EraseKey => InputDigit(s, 0).state
      case NoteModeKey => ToggleNoteMode(s)
      case UndoKey => Undo(s)
      case OtherKey => s
  }

  // ---------------------------------------------------------------------
  // New game

  /** newGame for a difficulty: a fresh solution from the random stream, a
      carve driven by draws, the board set to the puzzle, notes emptied (and
      recomputed when auto-notes is on), history, mistakes, pause and
      selection reset; only the settings survive. game is None when the draws
      ran out before the carve finished. A finished game has a complete valid
      solution and exactly HoleBudget(diff) holes. */
  method NewGame(s: GameState, diff: string, rand: nat -> nat, draws: seq<Cell>)
    returns (solution: Grid, game: Option<GameState>)
    requires forall k :: 0 <= k < |draws| ==> InRange(draws[k].r, draws[k].c)
    ensures solution == EmptyGrid() || IsSolution(solution)
    ensures game.Some? ==>
      var t := game.value;
      && Valid(t)
      && t.solution == solution && IsSolution(solution)
      && Holes(t.grid) == Carver.HoleBudget(diff)
      && (forall r, c :: InRange(r, c) ==> (t.given[r][c] <==> t.grid[r][c] != 0))
      && t.history == History([], []) && t.stats == Stats(0, false) && t.selected.None?
      && t.settings == s.settings
      && (t.settings.autoNotes ==> NotesExact(t.grid, t.notes))
      && (!t.settings.autoNotes ==> t.notes == CreateEmptyNotes())
    ensures (solution != EmptyGrid() && Carver.HoleBudget(diff) <= |draws|
             && Carver.DistinctCells(draws[..Carver.HoleBudget(diff)])) ==> game.Some?
  {
    solution := Generator.GenerateSolution(rand);
    var puzzle, given, done, _ := Carver.PokeHoles(solution, diff, draws);
    if solution != EmptyGrid() {
      assert ZeroFree(solution);
      CountNone(solution, solution, IsZero);
    } else {
      assert Holes(solution) == 81 by {
        CountAll(solution, solution, IsZero);
      }
    }
    if !done {
      return solution, None;
    }
    var notes := CreateEmptyNotes();
    if s.settings.autoNotes {
      notes := GenerateAllNotes(puzzle, notes);
    }
    var t := GameState(puzzle, solution, given, notes, History([], []), None, s.settings, Stats(0, false));
    return solution, Some(t);
  }
}
