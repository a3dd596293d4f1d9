/** Properties that relate several transitions of the game: what undo gives
    back, what repeating an input does, when the win fires, what a hint does,
    how the keypad counts move and when auto-notes stay exact. */
module GameProperties {
  import opened Board
  import opened Constraint
  import opened NotesEngine
  import opened Game

  /** Undoing a placement gives the board back exactly and the placed cell
      its old notes, with the undo stack as it was before the placement and
      an empty redo stack. The mistake the placement counted stays counted,
      and with auto-notes on the flags pruned from the peers stay pruned:
      undo restores the one cell its record names and nothing else. */
  lemma UndoAfterPlace(s: GameState, r: int, c: int, num: int)
    requires Valid(s) && InRange(r, c) && !s.given[r][c] && 0 <= num <= 9 && s.grid[r][c] != num
    ensures
      var p := Place(s, r, c, num);
      var u := Undo(p.state);
      && u.grid == s.grid
      && u.notes[r][c] == s.notes[r][c]
      && u.history == History(s.history.undo, [])
      && u.stats.mistakes == s.stats.mistakes + Ind(p.outcome.mistake)
      && (!(s.settings.autoNotes && num != 0) ==> u.notes == s.notes)
      && (s.settings.autoNotes && num != 0 ==>
            forall r2, c2, d :: InRange(r2, c2) && (r2 != r || c2 != c) && 0 <= d < 10 ==>
              u.notes[r2][c2][d] == (s.notes[r2][c2][d] && !(d == num && Peer(r, c, r2, c2))))
  {
    var p := Place(s, r, c, num);
    var u := Undo(p.state);
    var undo := p.state.history.undo;
    assert undo[|undo| - 1] == SetEdit(r, c, s.grid[r][c], num, s.notes[r][c]);
    assert undo[..|undo| - 1] == s.history.undo;
    GridExt(u.grid, s.grid);
    if !(s.settings.autoNotes && num != 0) {
      NotesExt(u.notes, s.notes);
    }
  }

  /** Undoing a note toggle gives back the state before the toggle, except
      that the redo stack is now empty. */
  lemma UndoAfterToggle(s: GameState, r: int, c: int, num: int)
    requires Valid(s) && InRange(r, c) && !s.given[r][c] && 1 <= num <= 9
    ensures Undo(ToggleNote(s, r, c, num)) == s.(history := History(s.history.undo, []))
  {
    var t := ToggleNote(s, r, c, num);
    var u := Undo(t);
    var undo := t.history.undo;
    assert undo[|undo| - 1] == NoteEdit(r, c, num, s.notes[r][c]);
    assert undo[..|undo| - 1] == s.history.undo;
    NotesExt(u.notes, s.notes);
    GridExt(u.grid, s.grid);
  }

  /** Toggling the same note twice gives the notes back, with both toggles
      recorded; undoing the second toggle gives the state after the first. */
  lemma ToggleNoteTwice(s: GameState, r: int, c: int, num: int)
    requires Valid(s) && InRange(r, c) && !s.given[r][c] && 1 <= num <= 9
    ensures
      var t1 := ToggleNote(s, r, c, num);
      var t2 := ToggleNote(t1, r, c, num);
      && t2.notes == s.notes
      && t2.history.undo == s.history.undo + [NoteEdit(r, c, num, s.notes[r][c]), NoteEdit(r, c, num, t1.notes[r][c])]
      && Undo(t2) == t1
  {
    var t1 := ToggleNote(s, r, c, num);
    var t2 := ToggleNote(t1, r, c, num);
    ToggleFlagTwice(s.notes, r, c, num);
    UndoAfterToggle(t1, r, c, num);
  }

  /** Outside note mode, entering the same digit twice is the same as
      entering it once: the second entry finds the cell already holding it. */
  lemma InputDigitIdempotent(s: GameState, num: int)
    requires Valid(s) && 0 <= num <= 9 && !(s.settings.noteMode && num != 0)
    ensures
      var t := InputDigit(s, num).state;
      InputDigit(t, num).state == t
  {
    var step := InputDigit(s, num);
    if step.outcome.Placed? {
      var r, c := s.selected.value.r, s.selected.value.c;
      assert step.state.grid[r][c] == num;
    }
  }

  /** The win check fires exactly on the placement that leaves every cell
      filled with the solution's digit: the placed digit is the right
      non-zero digit and every other cell already agrees with the solution.
      So it never fires while two or more holes are left. */
  lemma PlaceWinsExactly(s: GameState, r: int, c: int, num: int)
    requires Valid(s) && InRange(r, c) && !s.given[r][c] && 0 <= num <= 9 && s.grid[r][c] != num
    ensures Place(s, r, c, num).outcome.won <==>
      && num != 0 && num == s.solution[r][c]
      && (forall r2, c2 :: InRange(r2, c2) && (r2 != r || c2 != c) ==> s.grid[r2][c2] != 0 && s.grid[r2][c2] == s.solution[r2][c2])
    ensures Place(s, r, c, num).outcome.won ==> Holes(s.grid) <= 1
  {
    var p := Place(s, r, c, num);
    var g' := p.state.grid;
    if p.outcome.won {
      assert g'[r][c] != 0 && g'[r][c] == s.solution[r][c];
      CountNone(g', g', IsZero);
      HolesSetCell(s.grid, r, c, num);
    }
  }

  /** A hint outside note mode, for an empty cell t whose solution digit is
      known, selects t and writes that digit: no mistake is counted, one
      record is pushed, and every other cell keeps its value. (GiveHint hands
      its drawn empty cell to HintAt.) */
  lemma HintPlacesSolutionDigit(s: GameState, t: Cell)
    requires Valid(s) && InRange(t.r, t.c) && s.grid[t.r][t.c] == 0 && s.solution[t.r][t.c] != 0
    requires !s.settings.noteMode
    ensures
      var step := HintAt(s, t);
      && step.state.selected == Some(t)
      && step.outcome.Placed? && !step.outcome.mistake
      && step.state.grid[t.r][t.c] == s.solution[t.r][t.c]
      && (forall r, c :: InRange(r, c) && (r != t.r || c != t.c) ==> step.state.grid[r][c] == s.grid[r][c])
      && step.state.stats.mistakes == s.stats.mistakes
      && |step.state.history.undo| == |s.history.undo| + 1
  {
    var d := s.solution[t.r][t.c];
    assert !s.given[t.r][t.c];
    var s1 := s.(selected := Some(t));
    assert InputDigit(s1, d) == Place(s1, t.r, t.c, d);
  }

  /** A hint in note mode does not write the digit: inputDigit's note-mode
      branch runs first, so the hint toggles the solution digit's note of the
      empty cell and leaves the board and the mistakes as they were. */
  lemma HintInNoteModeTogglesNote(s: GameState, t: Cell)
    requires Valid(s) && InRange(t.r, t.c) && s.grid[t.r][t.c] == 0 && s.solution[t.r][t.c] != 0
    requires s.settings.noteMode
    ensures
      var step := HintAt(s, t);
      && step.outcome == NoteToggled
      && step.state.grid == s.grid
      && step.state.notes == ToggleFlag(s.notes, t.r, t.c, s.solution[t.r][t.c])
      && step.state.stats.mistakes == s.stats.mistakes
  {
    var d := s.solution[t.r][t.c];
    assert !s.given[t.r][t.c];
    var s1 := s.(selected := Some(t));
    assert InputDigit(s1, d) == Step(ToggleNote(s1, t.r, t.c, d), NoteToggled);
  }

  /** Writing v over one cell moves digit d's keypad count by what the cell
      held before and after: one down when v is d, one up when the old value
      was d. */
  lemma RemainingAfterSet(g: Grid, r: int, c: int, v: int, d: int)
    requires IsGrid(g) && InRange(r, c)
    ensures Remaining(SetCell(g, r, c, v), d) == Remaining(g, d) + Ind(g[r][c] == d) - Ind(v == d)
  {
    var g' := SetCell(g, r, c, v);
    CountOneGrid(g', g', g, HasDigit(d));
    CountSetCell(g, g, HasDigit(d), r, c, v);
  }

  /** With auto-notes on and notes that hold exactly the possible digits, a
      placement of a digit into an empty cell keeps them exact. */
  lemma AutoNotesStayExact(s: GameState, r: int, c: int, num: int)
    requires Valid(s) && InRange(r, c) && !s.given[r][c] && 1 <= num <= 9 && s.grid[r][c] == 0
    requires s.settings.autoNotes && NotesExact(s.grid, s.notes)
    ensures
      var t := Place(s, r, c, num).state;
      NotesExact(t.grid, t.notes)
  {
    var t := Place(s, r, c, num).state;
    var pruned := ClearRelatedNotes(SetCellNotes(s.notes, r, c, EmptyCellNotes()), r, c, num);
    PruneKeepsNotesExact(s.grid, s.notes, r, c, num);
    NotesExt(t.notes, pruned);
    GridExt(t.grid, SetCell(s.grid, r, c, num));
  }

  /** Outside a pause every key reaches the transition handleKeydown wires
      it to: arrows move the selection, a digit or erase enters through
      inputDigit, n flips note mode, ctrl/cmd-z undoes, and any other key
      changes nothing. */
  lemma HandleKeyDispatch(s: GameState, key: Key)
    requires Valid(s) && !s.stats.paused
    requires key.DigitKey? ==> 1 <= key.d <= 9
    ensures key.ArrowKey? ==> HandleKey(s, key) == MoveSelection(s, key.dir)
    ensures key.DigitKey? ==> HandleKey(s, key) == InputDigit(s, key.d).state
    ensures key.EraseKey? ==> HandleKey(s, key) == InputDigit(s, 0).state
    ensures key.NoteModeKey? ==> HandleKey(s, key) == ToggleNoteMode(s)
    ensures key.UndoKey? ==> HandleKey(s, key) == Undo(s)
    ensures key.OtherKey? ==> HandleKey(s, key) == s
  {
  }

  /** An arrow step followed by the opposite step comes back to the start
      exactly when the first step was not stopped by the edge of the board. */
  lemma ArrowRoundTrip(cell: Cell, a: Arrow)
    requires InRange(cell.r, cell.c)
    ensures Step1(Step1(cell, a), Opposite(a)) == cell <==> !AtEdge(cell, a)
  {
    match a
    case Up =>
    case Down =>
    case Left =>
    case Right =>
  }
}
