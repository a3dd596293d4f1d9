# Sudoku game engine in Dafny

This project models the game engine of a browser Sudoku game (`script.js`). The game state is one immutable value: the board, the solution, the mask of given clues, the per-cell pencil notes, the undo/redo history, the selection, the three settings (note mode, auto-notes, show mistakes) and the mistake counter with the pause flag. Every player action is a pure function from state to state.

The model covers:

- the constraint check `isValid`;
- the randomised backtracking generator: `findEmpty`, `shuffle`, `fillGrid`, `generateSolution`;
- the hole-poking carver `pokeHoles` with its difficulty budget;
- the notes engine: `createEmptyNotes`, `generateAllNotes`, `clearRelatedNotes`, `toggleNote`;
- digit input, the undo history, the win check, the board check, hints, solving, new game, the settings switches, pause and resume;
- selection and arrow-key movement, the keyboard dispatch and the keypad's per-digit remaining counts.

Modules, one file each:

| module | file | contents |
|---|---|---|
| `Board` | board.dfy | grids, masks, cell updates, boxes and `getBlock`, one generic cell counter (`Count` over a `CellTest`) with its lemmas |
| `Constraint` | constraint.dfy | `isValid` as three scans, its meaning (`Unblocked`), Sudoku validity (`NoConflicts`, `IsSolution`) |
| `Generator` | generator.dfy | `findEmpty`, Fisher–Yates `shuffle`, `fillGrid`, `generateSolution` |
| `Carver` | carver.dfy | the hole budget and `pokeHoles` |
| `NotesEngine` | notes.dfy | note grids, pruning, toggling, full recomputation, exactness of auto-notes |
| `Game` | game.dfy | the game state, `Valid`, and every transition |
| `GameProperties` | game_properties.dfy | lemmas relating transitions: undo round trips, idempotence, the win moment, hints, keypad counts, arrow moves |
| `Session` | session.dfy | arbitrary sequences of player actions and what they preserve |

Randomness is passed in by the caller:

- `fillGrid` reads a stream `rand: nat -> nat`. Each shuffle draws `rand(k) % (i + 1)` for `i = 8 … 1`.
- `Shuffle` itself takes its swap indices `js` with `0 <= js[i] <= i`.
- `pokeHoles` takes its random cells as a sequence `draws`. Retries on already-empty cells are part of that sequence.
- `giveHint` takes a draw `k`. The hint goes to the empty cell at position `k` modulo the number of empty cells, so every index `Math.floor(Math.random() * n)` can produce is reachable.

The confirmation dialog of `solveGame` is the boolean parameter `confirmed`. The difficulty of `newGame` is the string parameter `diff`.

The model follows the code where the code is subtle:

- `IsValid` scans the cell `(r, c)` itself as well. So a digit already in the cell is rejected there (`IsValid`'s second postcondition).
- After a placement with auto-notes on, the notes are pruned with `ClearRelatedNotes`, not recomputed. `GenerateAllNotes` runs only when the switch is turned on (`SetAutoNotes`) and in `NewGame`. `AutoNotesStayExact` shows that pruning is exact when the digit goes into an empty cell.
- Erasing (digit 0) leaves the cell's notes alone (`PlacedNotes`).
- `Undo` restores only the cell its record names. Flags pruned from the peers stay pruned (`UndoAfterPlace`).
- The given-cell check runs before the note-mode branch. So a hint in note mode toggles a note instead of writing a digit (`HintInNoteModeTogglesNote`).
- The redo stack is emptied on every push and never read. `Undo` does not fill it.
- `SolveGame` pushes no history.
- Every difficulty other than easy, medium and hard gets 64 holes (`HoleBudget`). This covers the expert tier and any unknown string.

## Model

| member | source | states |
|---|---|---|
| Board.GetBlock | script.js:318 | the block number lies in 0..8 and encodes the box row as its quotient by 3 and the box column as its remainder |
| Board.GetBlockIdentifiesBox | script.js:318 | two cells get the same block number exactly when they lie in the same 3×3 box |
| Board.SetCell | script.js:153 | one cell takes the new value, every other cell keeps its value, and a board stays a board |
| Board.CountAll | script.js:363-375 | a cell count reaches 81 exactly when every cell passes the test |
| Board.CountNone | script.js:531-541 | a cell count is 0 exactly when no cell passes the test |
| Board.CountSplit | script.js:367-370 | the count of a test that splits into two disjoint tests is the sum of their counts |
| Board.HolesSetCell | script.js:459-462 | clearing or filling one cell moves the number of empty cells by exactly one |
| Constraint.LinesFree | script.js:469 | the row-and-column scan succeeds iff no cell of row r and no cell of column c holds n |
| Constraint.BoxRowsFree | script.js:470-473 | the box scan succeeds iff no cell of the given rows of the three-column band holds n |
| Constraint.IsValid | script.js:468-475 | n is accepted iff it occurs in no peer of (r, c), the cell itself included, so an accepted n is never the cell's current value |
| Constraint.PlaceKeepsNoConflicts | script.js:440-442 | writing a digit that isValid accepts into a grid without repeats keeps it without repeats |
| Generator.FindEmpty | script.js:477-482 | None iff the grid has no zero; otherwise an in-range zero cell with every earlier cell in row-major order non-zero |
| Generator.Shuffle | script.js:484-490 | the in-place loop computes the Fisher–Yates pass that swaps position i with the drawn js[i] for i from the last position down to 1; the result is a permutation of the input, its last element is the one at the first drawn index, and with every drawn index equal to its position nothing moves |
| Generator.FisherYatesPermutes | script.js:485-488 | the pass from position i down reorders the sequence and never touches a position above i |
| Generator.FisherYatesIdentity | script.js:485-488 | when every drawn index equals its position, the pass returns its input |
| Generator.FisherYatesReaches | script.js:484-490 | every permutation of the input is the result for some admissible choice of drawn indices |
| Generator.DigitOrder | script.js:438 | the digit order one cell tries is the Fisher–Yates pass over the digits with the indices drawn at the current stream position, so it holds each digit 1..9 exactly once |
| Generator.ShuffledDigits | script.js:438 | any permutation of the nine digits holds only digits 1..9 |
| Generator.DrawIndices | script.js:486 | each drawn swap index j for position i lies in 0..i |
| Generator.CompletesAfterPlace | script.js:440-444 | a completion of the grid after a valid placement into a hole is a completion of the grid before it |
| Generator.TryDigits | script.js:440-448 | trying the digits in order for one hole: on success the grid is completed, keeping the entry digits and freedom from repeats; when every digit fails the hole is put back and the grid is exactly the entry grid |
| Generator.FillGrid | script.js:434-448 | on success: no zero is left, non-zero entry cells are unchanged, holes hold 1..9, and a grid without repeats stays without repeats; on failure the grid is exactly the entry grid |
| Generator.GenerateSolution | script.js:428-432 | the result is a board that is either still all zeros or a complete Sudoku solution without repeats |
| Carver.HoleBudget | script.js:454 | easy, medium and hard give 30, 45 and 55; every other tier gives 64 |
| Carver.PokeHoles | script.js:450-466 | given cells hold the solution's value; a cell is not given iff the solution had a digit there that is now cleared, and iff the solution had a digit there and the cell is among the draws consumed, which are all draws when the carve stops early; a finished carve adds exactly the budget in holes; distinct draws over a full solution always finish |
| NotesEngine.CreateEmptyNotes | script.js:422-424 | a 9×9 grid of ten-flag notes with every flag off |
| NotesEngine.ClearLines | script.js:506-509 | flag num is cleared in row r and column c from position k on, and every other flag is unchanged |
| NotesEngine.ClearBoxRows | script.js:510-513 | flag num is cleared in the box rows scanned, and every other flag is unchanged |
| NotesEngine.ClearRelatedNotes | script.js:505-514 | flag num becomes false in every peer of (r, c), and every other flag of every cell is unchanged |
| NotesEngine.ToggleFlag | script.js:177 | flag num of (r, c) is negated and every other flag is unchanged |
| NotesEngine.ToggleFlagTwice | script.js:177 | toggling the same flag twice gives the notes back |
| NotesEngine.GenerateAllNotes | script.js:493-503 | every empty cell's flag d (1..9) is set iff d is blocked by no peer; filled cells and flag 0 keep their old notes |
| NotesEngine.UnblockedAfterPlace | script.js:158 | after num goes into a hole, digit d is possible at a cell iff it was possible before and is not num at a peer of the hole |
| NotesEngine.PruneKeepsNotesExact | script.js:155-159 | if the notes held exactly the possible digits, clearing the cell's notes and pruning num from its peers keeps them exact for the new board |
| Game.PushHistory | script.js:183-187 | the record is appended to the undo stack and the redo stack is emptied; nothing else changes |
| Game.ToggleNote | script.js:175-180 | the notes become the flag toggle at (r, c) and one note record with the cell's old notes is pushed; nothing else changes |
| Game.Undo | script.js:189-202 | with an empty stack nothing changes; otherwise the last record is popped and its cell gets back its old value and notes (set) or old notes (note); no other cell, the redo stack and the mistake counter are unchanged |
| Game.CheckWin | script.js:363-375 | 81 filled and 81 correct holds iff every cell is non-zero and equal to the solution |
| Game.CheckBoard | script.js:531-541 | the error count is 0 iff every filled cell matches the solution, and errors plus correct cells equal filled cells |
| Game.Remaining | script.js:296-298 | the keypad count is at most 9 and equals 9 iff the digit is nowhere on the board |
| Game.PlacedNotes | script.js:155-159 | a non-zero digit empties the cell's notes (and with auto-notes prunes it from the peers); a zero leaves all notes alone |
| Game.Place | script.js:148-170 | one set record with the old value and notes is pushed and redo emptied; the cell takes num and no other cell changes; mistakes grow by one iff num is a wrong non-zero digit; the win flag holds iff the new board is won |
| Game.InputDigit | script.js:129-173 | without a selection, on a given cell, or with the cell's own value outside note mode, the state is unchanged (the last case reports `Unchanged`: no history entry and no win check); on any other cell, note mode with a non-zero digit is exactly a note toggle and otherwise exactly a placement; note mode never changes the board; given cells never change; mistakes grow by at most one; the state stays valid |
| Game.EmptyCells | script.js:518-521 | the list holds exactly the empty cells, each once and in row-major order, and is empty iff the board has no zero |
| Game.HintAt | script.js:525-527 | the hint selects its empty cell t, keeps the state valid, the solution and the givens, and raises mistakes by at most one |
| Game.GiveHint | script.js:517-529 | with no empty cell nothing happens; otherwise an empty cell, chosen by the draw, gets the hint; the solution and givens are kept and mistakes grow by at most one |
| Game.SolveGame | script.js:544-551 | when declined nothing changes; when confirmed the board becomes the solution and the game pauses, and nothing but the board and the pause flag changes (history, notes, selection, settings and mistakes are kept); the board is then won iff the solution has no zero and the board check finds no error |
| Game.ToggleNoteMode | script.js:415-419 | note mode is negated and nothing else changes |
| Game.SetAutoNotes | script.js:67-71 | turning auto-notes on recomputes the notes of the empty cells from the current notes, which keeps the notes of filled cells and makes the notes exact for the board; turning it off keeps them |
| Game.SetShowMistakes | script.js:72-75 | only the show-mistakes setting changes |
| Game.Pause | script.js:345-353 | the game is paused afterwards and nothing else changes |
| Game.Resume | script.js:355-361 | the game is running afterwards and nothing else changes |
| Game.SelectCell | script.js:311-315 | only the selection changes, to (r, c) |
| Game.Step1 | script.js:398-402 | the clamped neighbour stays on the board, moves by at most one in the arrow's own direction, and stays put exactly when the arrow points off the board |
| Game.MoveSelection | script.js:391-403 | ignored while paused; no selection becomes (0, 0); otherwise the selection becomes the clamped neighbour; nothing else changes |
| Game.HandleKey | script.js:391-413 | while paused a key changes nothing; a key never changes the solution, the givens or the pause flag, and raises mistakes by at most one |
| GameProperties.HandleKeyDispatch | script.js:395-412 | outside a pause an arrow moves the selection, a digit or erase goes through inputDigit, n toggles note mode, ctrl/cmd-z undoes, and any other key changes nothing |
| Game.NewGame | script.js:102-127 | a finished game has a complete valid solution, exactly the budget in holes, givens exactly on the filled cells, empty history, zero mistakes, no selection, unpaused, kept settings, and notes that are exact under auto-notes and empty otherwise; distinct draws always finish |
| GameProperties.UndoAfterPlace | script.js:189-198 | undoing a placement restores the board and the cell's notes and the undo stack; the mistake stays counted and, under auto-notes, peers stay pruned |
| GameProperties.UndoAfterToggle | script.js:175-198 | undoing a note toggle restores the state apart from an empty redo stack |
| GameProperties.ToggleNoteTwice | script.js:175-180 | two toggles of the same note give the notes back with two records pushed, and undoing the second gives the state after the first |
| GameProperties.InputDigitIdempotent | script.js:149 | outside note mode, entering the same digit twice equals entering it once |
| GameProperties.PlaceWinsExactly | script.js:170 | the win fires iff the placed digit is the right non-zero digit and every other cell already matches the solution, so never with two or more holes left |
| GameProperties.HintPlacesSolutionDigit | script.js:525-527 | outside note mode a hint writes the solution digit into its empty cell, selects it, counts no mistake, pushes one record and changes no other cell |
| GameProperties.HintInNoteModeTogglesNote | script.js:141-145 | in note mode a hint toggles the solution digit's note of its empty cell and leaves the board and mistakes unchanged |
| GameProperties.RemainingAfterSet | script.js:258 | writing v over a cell moves digit d's remaining count up by one if the cell held d and down by one if v is d |
| GameProperties.AutoNotesStayExact | script.js:155-159 | with auto-notes on, exact notes stay exact after a digit is placed into an empty cell |
| GameProperties.ArrowRoundTrip | script.js:397-402 | an arrow step and the opposite step return to the start iff the first step was not stopped by the board's edge |
| Session.Apply | script.js:62-98 | any wired action keeps the state valid, keeps the solution, the givens and the given cells' digits, and raises mistakes by at most one |
| Session.ApplyControl | script.js:66-75 | settings, pause and selection actions leave the board, the history and the mistake counter unchanged |
| Session.Run | script.js:62-98 | over a whole session the state stays valid, the solution, the givens and the given digits are kept, and mistakes grow monotonically by at most one per action |
| Session.RunAppend | script.js:62-98 | running two sessions in turn equals running their concatenation, which can run iff the first can and the second can from where the first ends |
| Session.NoInputNoMistake | script.js:62-98 | a session without digit input, hints or key presses counts no mistake |
| Session.PausedKeysIgnored | script.js:392 | while paused, any number of key presses leaves the state unchanged |
| Session.PausedKeyIgnored | script.js:392 | while paused, a session's first key press changes nothing, so the session runs as if it began with its second action |

## Left out

- Rendering and the DOM are not modelled, since they are presentation only: `createBoardDOM`, class toggling in `render`, `updateUI`, `animateCell`, `showToast`, modal text and `confettiEffect`. Of `render` only the keypad's remaining counts are modelled (`Remaining`).
- The timer is not modelled: `startTimer`, `elapsed`, `startTime`, `timerId`, `setInterval`/`clearInterval` and the clock text. It is wall-clock I/O. Only the `paused` flag is kept.
- `Math.random` is replaced by caller-supplied values: the `rand` stream, the `draws` cells and the hint draw `k`. `confirm()` is the `confirmed` parameter.
- Browser key-event parsing is not modelled. `Key` gives the keys `handleKeydown` distinguishes after parsing; which physical key with which modifier maps to which `Key` is browser interaction.
- Generator.FillGrid: partial correctness only. Its loop over the digits is `TryDigits`, with the same contract. There is no proof that generation from the empty grid succeeds, since that needs an argument that a completion exists. `GenerateSolution` therefore states "all zeros or a solution".
- Puzzle uniqueness is not modelled, because the code never checks it.
- The probability distribution of `shuffle` is not modelled, because randomness is a parameter. `FisherYatesReaches` shows only that every permutation is reachable, not that all are equally likely.
- Carver.PokeHoles: pokeHoles draws until its budget is spent; with a finite `draws` sequence the carve can stop early, which `done == false` reports. `NewGame` then returns `None`. When the solution has fewer filled cells than the budget, its loop would never end.
- The redo stack is only ever emptied, matching the code, which never reads it. No redo operation exists to model.
- `selectCell`'s early return when the same cell is selected again changes nothing in the state, so `SelectCell` does not distinguish it.
