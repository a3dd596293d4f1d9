/** A play session: any sequence of player actions between two new games.
    Over a whole session the solution and the givens never change, the given
    cells keep their digits, and the mistake counter only grows, by at most
    one per action. */
module Session {
  import opened Board
  import opened NotesEngine
  import opened Game

  /** One player action; Hint carries the random index the hint draws and
      Solve the answer to the confirmation dialog. */
  datatype Action =
    | Input(num: int)
    | Hint(k: nat)
    | UndoAction
    | Solve(confirmed: bool)
    | NoteMode
    | AutoNotes(on: bool)
    | ShowMistakes(on: bool)
    | PauseAction
    | ResumeAction
    | Select(r: int, c: int)
    | Press(key: Key)

  /** The arguments an action carries are ones the interface can produce. */
  predicate Enabled(s: GameState, a: Action)
    requires Valid(s)
  {
    match a
    case Input(num) => 0 <= num <= 9
    case Select(r, c) => InRange(r, c)
    case Press(key) => key.DigitKey? ==> 1 <= key.d <= 9
    case _ => true
  }

  /** One action. It keeps the state valid, never touches the solution or the
      givens, and raises the mistake counter by at most one. */
  function Apply(s: GameState, a: Action): (s': GameState)
    requires Valid(s) && Enabled(s, a)
    ensures Valid(s')
    ensures s'.solution == s.solution && s'.given == s.given
    ensures s.stats.mistakes <= s'.stats.mistakes <= s.stats.mistakes + 1
    ensures forall r, c :: InRange(r, c) && s.given[r][c] ==> s'.grid[r][c] == s.grid[r][c]
  {
    var s' :=
      match a
      case Input(num) => InputDigit(s, num).state
      case Hint(k) => GiveHint(s, k).state
      case UndoAction => Undo(s)
      case Solve(confirmed) => SolveGame(s, confirmed)
      case Press(key) => HandleKey(s, key)
      case _ => ApplyControl(s, a);
    GivenCellsKept(s, s');
    s'
  }

  /** The actions that only change settings, the pause flag or the
      selection: the board, the history and the mistake counter stay. */
  function ApplyControl(s: GameState, a: Action): (s': GameState)
    requires Valid(s) && Enabled(s, a)
    requires !a.Input? && !a.Hint? && !a.UndoAction? && !a.Solve? && !a.Press?
    ensures Valid(s')
    ensures s'.grid == s.grid && s'.solution == s.solution && s'.given == s.given
    ensures s'.history == s.history && s'.stats.mistakes == s.stats.mistakes
  {
    match a
    case NoteMode => ToggleNoteMode(s)
    case AutoNotes(on) => SetAutoNotes(s, on)
    case ShowMistakes(on) => SetShowMistakes(s, on)
    case PauseAction => Pause(s)
    case ResumeAction => Resume(s)
    case Select(r, c) => SelectCell(s, r, c)
  }

  /** Two valid states with the same solution and givens agree on every
      given cell: both hold the solution's digit there. */
  lemma GivenCellsKept(s: GameState, s': GameState)
    requires Valid(s) && Valid(s') && s'.solution == s.solution && s'.given == s.given
    ensures forall r, c :: InRange(r, c) && s.given[r][c] ==> s'.grid[r][c] == s.grid[r][c]
  {
  }

  /** Every action of acts is enabled in the state it is applied to. */
  predicate Runnable(s: GameState, acts: seq<Action>)
    requires Valid(s)
    decreases |acts|
  {
    |acts| == 0 || (Enabled(s, acts[0]) && Runnable(Apply(s, acts[0]), acts[1..]))
  }

  /** The state after a whole session. The solution and the givens are as at
      the start, each given cell holds the digit it started with, and the
      mistake counter has grown by at most the number of actions. */
  function Run(s: GameState, acts: seq<Action>): (s': GameState)
    requires Valid(s) && Runnable(s, acts)
    ensures Valid(s')
    ensures s'.solution == s.solution && s'.given == s.given
    ensures forall r, c :: InRange(r, c) && s.given[r][c] ==> s'.grid[r][c] == s.grid[r][c]
    ensures s.stats.mistakes <= s'.stats.mistakes <= s.stats.mistakes + |acts|
    decreases |acts|
  {
    if |acts| == 0 then s else Run(Apply(s, acts[0]), acts[1..])
  }

  /** Running two sessions one after the other is running their
      concatenation, and the concatenation can run exactly when the first can
      and the second can run from where the first ends. */
  lemma {:induction false} RunAppend(s: GameState, xs: seq<Action>, ys: seq<Action>)
    requires Valid(s)
    ensures Runnable(s, xs + ys) <==> Runnable(s, xs) && Runnable(Run(s, xs), ys)
    ensures Runnable(s, xs + ys) ==> Run(s, xs + ys) == Run(Run(s, xs), ys)
    decreases |xs|
  {
    if |xs| == 0 {
      assert xs + ys == ys;
    } else {
      assert (xs + ys)[0] == xs[0];
      assert (xs + ys)[1..] == xs[1..] + ys;
      if Enabled(s, xs[0]) {
        RunAppend(Apply(s, xs[0]), xs[1..], ys);
      }
    }
  }

  /** A session that never enters a digit, asks for a hint or presses a key
      counts no mistake. */
  lemma {:induction false} NoInputNoMistake(s: GameState, acts: seq<Action>)
    requires Valid(s) && Runnable(s, acts)
    requires forall i :: 0 <= i < |acts| ==> !acts[i].Input? && !acts[i].Hint? && !acts[i].Press?
    ensures Run(s, acts).stats.mistakes == s.stats.mistakes
    decreases |acts|
  {
    if |acts| > 0 {
      NoInputNoMistake(Apply(s, acts[0]), acts[1..]);
    }
  }

  /** While paused, key presses change nothing, however many there are. */
  lemma {:induction false} PausedKeysIgnored(s: GameState, keys: seq<Action>)
    requires Valid(s) && s.stats.paused && Runnable(s, keys)
    requires forall i :: 0 <= i < |keys| ==> keys[i].Press?
    ensures Run(s, keys) == s
    decreases |keys|
  {
    if |keys| > 0 {
      PausedKeyIgnored(s, keys);
      PausedKeysIgnored(s, keys[1..]);
    }
  }

  /** While paused, the first key press of a session changes nothing: the
      session runs as if it started with the second action. */
  lemma PausedKeyIgnored(s: GameState, keys: seq<Action>)
    requires Valid(s) && s.stats.paused && Runnable(s, keys)
    requires |keys| > 0 && keys[0].Press?
    ensures Apply(s, keys[0]) == s
    ensures Runnable(s, keys[1..]) && Run(s, keys) == Run(s, keys[1..])
  {
    assert Apply(s, keys[0]) == HandleKey(s, keys[0].key) == s;
  }
}
