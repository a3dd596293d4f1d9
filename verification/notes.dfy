/** The notes engine: per-cell candidate flags, their full recomputation from
    the board (auto-notes), pruning after a placement, and manual toggling. */
module NotesEngine {
  import opened Board
  import opened Constraint

  /** Ten flags per cell; flag d marks digit d as a candidate, flag 0 is unused. */
  type CellNotes = seq<bool>

  /** A 9x9 matrix of cell notes. */
  type NoteGrid = seq<seq<CellNotes>>

  predicate IsNotes(ns: NoteGrid) {
    && |ns| == 9
    && (forall r :: 0 <= r < 9 ==> |ns[r]| == 9)
    && (forall r, c :: 0 <= r < 9 && 0 <= c < 9 ==> |ns[r][c]| == 10)
  }

  /** A cell with no candidate marked. */
  function EmptyCellNotes(): (cn: CellNotes)
    ensures |cn| == 10 && forall d :: 0 <= d < 10 ==> !cn[d]
  {
    seq(10, _ => false)
  }

  /** createEmptyNotes: no candidate marked anywhere. */
  function CreateEmptyNotes(): (ns: NoteGrid)
    ensures IsNotes(ns)
    ensures forall r, c, d :: InRange(r, c) && 0 <= d < 10 ==> !ns[r][c][d]
  {
    seq(9, _ => seq(9, _ => EmptyCellNotes()))
  }

  /** The notes with cell (r, c) replaced by cn. */
  function SetCellNotes(ns: NoteGrid, r: int, c: int, cn: CellNotes): (res: NoteGrid)
    requires IsNotes(ns) && InRange(r, c) && |cn| == 10
    ensures IsNotes(res)
    ensures res[r][c] == cn
    ensures forall r2, c2 :: InRange(r2, c2) && (r2 != r || c2 != c) ==> res[r2][c2] == ns[r2][c2]
  {
    ns[r := ns[r][c := cn]]
  }

  /** The notes with flag d of cell (r, c) turned off. */
  function ClearNote(ns: NoteGrid, r: int, c: int, d: int): (res: NoteGrid)
    requires IsNotes(ns) && InRange(r, c) && 0 <= d < 10
    ensures IsNotes(res)
    ensures forall r2, c2, d2 :: InRange(r2, c2) && 0 <= d2 < 10 ==>
      res[r2][c2][d2] == (ns[r2][c2][d2] && !(r2 == r && c2 == c && d2 == d))
  {
    SetCellNotes(ns, r, c, ns[r][c][d := false])
  }

  /** The row-and-column pass of clearRelatedNotes, for i = k..8: turns flag
      num off in (r, i) and in (i, c). */
  function ClearLines(ns: NoteGrid, r: int, c: int, num: int, k: int): (res: NoteGrid)
    requires IsNotes(ns) && InRange(r, c) && 0 <= num < 10 && 0 <= k <= 9
    ensures IsNotes(res)
    ensures forall r2, c2, d :: InRange(r2, c2) && 0 <= d < 10 ==>
      res[r2][c2][d] == (ns[r2][c2][d] && !(d == num && ((r2 == r && k <= c2) || (c2 == c && k <= r2))))
    decreases 9 - k
  {
    if k == 9 then ns
    else ClearLines(ClearNote(ClearNote(ns, r, k, num), k, c, num), r, c, num, k + 1)
  }

  /** Turns flag num off in columns c..cEnd-1 of one row. */
  function ClearSegment(ns: NoteGrid, row: int, c: int, cEnd: int, num: int): (res: NoteGrid)
    requires IsNotes(ns) && 0 <= row < 9 && 0 <= c <= cEnd <= 9 && 0 <= num < 10
    ensures IsNotes(res)
    ensures forall r2, c2, d :: InRange(r2, c2) && 0 <= d < 10 ==>
      res[r2][c2][d] == (ns[r2][c2][d] && !(d == num && r2 == row && c <= c2 < cEnd))
    decreases cEnd - c
  {
    if c == cEnd then ns
    else ClearSegment(ClearNote(ns, row, c, num), row, c + 1, cEnd, num)
  }

  /** The box pass of clearRelatedNotes: turns flag num off in rows
      row..rEnd-1 of the three columns starting at bc. */
  function ClearBoxRows(ns: NoteGrid, row: int, rEnd: int, bc: int, num: int): (res: NoteGrid)
    requires IsNotes(ns) && 0 <= row <= rEnd <= 9 && 0 <= bc <= 6 && 0 <= num < 10
    ensures IsNotes(res)
    ensures forall r2, c2, d :: InRange(r2, c2) && 0 <= d < 10 ==>
      res[r2][c2][d] == (ns[r2][c2][d] && !(d == num && row <= r2 < rEnd && bc <= c2 < bc + 3))
    decreases rEnd - row
  {
    if row == rEnd then ns
    else ClearBoxRows(ClearSegment(ns, row, bc, bc + 3, num), row + 1, rEnd, bc, num)
  }

  /** clearRelatedNotes: num is no longer a candidate of any cell that shares
      a row, a column or a box with (r, c); every other flag of every cell is
      as it was. */
  function ClearRelatedNotes(ns: NoteGrid, r: int, c: int, num: int): (res: NoteGrid)
    requires IsNotes(ns) && InRange(r, c) && 0 <= num < 10
    ensures IsNotes(res)
    ensures forall r2, c2, d :: InRange(r2, c2) && 0 <= d < 10 ==>
      res[r2][c2][d] == (ns[r2][c2][d] && !(d == num && Peer(r, c, r2, c2)))
  {
    var br, bc := BoxStart(r), BoxStart(c);
    var lines := ClearLines(ns, r, c, num, 0);
    var res := ClearBoxRows(lines, br, br + 3, bc, num);
    forall r2, c2, d | InRange(r2, c2) && 0 <= d < 10
      ensures res[r2][c2][d] == (ns[r2][c2][d] && !(d == num && Peer(r, c, r2, c2)))
    {
      BoxBand(r, r2);
      BoxBand(c, c2);
    }
    res
  }

  /** The cell notes of toggleNote: flag num of (r, c) flipped. */
  function ToggleFlag(ns: NoteGrid, r: int, c: int, num: int): (res: NoteGrid)
    requires IsNotes(ns) && InRange(r, c) && 0 <= num < 10
    ensures IsNotes(res)
    ensures res[r][c][num] == !ns[r][c][num]
    ensures forall r2, c2, d :: InRange(r2, c2) && 0 <= d < 10 && (r2 != r || c2 != c || d != num) ==>
      res[r2][c2][d] == ns[r2][c2][d]
  {
    SetCellNotes(ns, r, c, ns[r][c][num := !ns[r][c][num]])
  }

  /** Two note grids of the right shape are equal as soon as every flag agrees. */
  lemma NotesExt(ns: NoteGrid, ms: NoteGrid)
    requires IsNotes(ns) && IsNotes(ms)
    requires forall r, c, d :: InRange(r, c) && 0 <= d < 10 ==> ns[r][c][d] == ms[r][c][d]
    ensures ns == ms
  {
    forall r | 0 <= r < 9
      ensures ns[r] == ms[r]
    {
      forall c | 0 <= c < 9
        ensures ns[r][c] == ms[r][c]
      {
        assert forall d :: 0 <= d < 10 ==> ns[r][c][d] == ms[r][c][d];
      }
    }
  }

  /** Toggling the same flag twice gives the notes back. */
  lemma ToggleFlagTwice(ns: NoteGrid, r: int, c: int, num: int)
    requires IsNotes(ns) && InRange(r, c) && 0 <= num < 10
    ensures ToggleFlag(ToggleFlag(ns, r, c, num), r, c, num) == ns
  {
    NotesExt(ToggleFlag(ToggleFlag(ns, r, c, num), r, c, num), ns);
  }

  /** Every empty cell is marked with exactly the digits still possible there. */
  ghost predicate NotesExact(g: Grid, ns: NoteGrid)
    requires IsGrid(g) && IsNotes(ns)
  {
    forall r, c, d :: InRange(r, c) && g[r][c] == 0 && 1 <= d <= 9 ==> (ns[r][c][d] <==> Unblocked(g, r, c, d))
  }

  /** generateAllNotes: every empty cell gets exactly the digits 1..9 that
      occur in none of its peers; filled cells and the unused flag 0 keep
      their old notes. */
  function GenerateAllNotes(g: Grid, ns: NoteGrid): (res: NoteGrid)
    requires IsGrid(g) && IsNotes(ns)
    ensures IsNotes(res)
    ensures NotesExact(g, res)
    ensures forall r, c, d :: InRange(r, c) && 0 <= d < 10 && (g[r][c] != 0 || d == 0) ==> res[r][c][d] == ns[r][c][d]
  {
    seq(9, r requires 0 <= r < 9 =>
      seq(9, c requires 0 <= c < 9 =>
        if g[r][c] == 0 then seq(10, d requires 0 <= d < 10 => if d == 0 then ns[r][c][0] else IsValid(g, r, c, d))
        else ns[r][c]))
  }

  /** Writing num into a hole blocks num exactly at the peers of that hole and
      changes nothing else about which digits are possible where. */
  lemma UnblockedAfterPlace(g: Grid, r: int, c: int, num: int, r2: int, c2: int, d: int)
    requires IsGrid(g) && InRange(r, c) && InRange(r2, c2) && g[r][c] == 0 && d != 0
    ensures Unblocked(SetCell(g, r, c, num), r2, c2, d)
        <==> Unblocked(g, r2, c2, d) && !(d == num && Peer(r2, c2, r, c))
  {
    var g' := SetCell(g, r, c, num);
    if Unblocked(g', r2, c2, d) {
      forall r3, c3 | InRange(r3, c3) && Peer(r2, c2, r3, c3)
        ensures g[r3][c3] != d
      {
        if r3 != r || c3 != c {
          assert g'[r3][c3] == g[r3][c3];
        }
      }
      if Peer(r2, c2, r, c) {
        assert g'[r][c] != d;
      }
    }
    if Unblocked(g, r2, c2, d) && !(d == num && Peer(r2, c2, r, c)) {
      forall r3, c3 | InRange(r3, c3) && Peer(r2, c2, r3, c3)
        ensures g'[r3][c3] != d
      {
        if r3 != r || c3 != c {
          assert g'[r3][c3] == g[r3][c3];
        }
      }
    }
  }

  /** Auto-notes maintenance is exact for a placement into a hole: if the
      notes were exact before, clearing the cell's notes and pruning num from
      its peers leaves them exact for the new board. */
  lemma PruneKeepsNotesExact(g: Grid, ns: NoteGrid, r: int, c: int, num: int)
    requires IsGrid(g) && IsNotes(ns) && InRange(r, c)
    requires g[r][c] == 0 && 1 <= num <= 9
    requires NotesExact(g, ns)
    ensures NotesExact(SetCell(g, r, c, num), ClearRelatedNotes(SetCellNotes(ns, r, c, EmptyCellNotes()), r, c, num))
  {
    var g' := SetCell(g, r, c, num);
    var ns' := ClearRelatedNotes(SetCellNotes(ns, r, c, EmptyCellNotes()), r, c, num);
    forall r2, c2, d | InRange(r2, c2) && g'[r2][c2] == 0 && 1 <= d <= 9
      ensures ns'[r2][c2][d] <==> Unblocked(g', r2, c2, d)
    {
      PruneKeepsNoteExact(g, ns, r, c, num, r2, c2, d);
    }
  }

  /** PruneKeepsNotesExact at one flag of one hole. */
  lemma PruneKeepsNoteExact(g: Grid, ns: NoteGrid, r: int, c: int, num: int, r2: int, c2: int, d: int)
    requires IsGrid(g) && IsNotes(ns) && InRange(r, c) && InRange(r2, c2)
    requires g[r][c] == 0 && 1 <= num <= 9 && 1 <= d <= 9
    requires SetCell(g, r, c, num)[r2][c2] == 0
    requires ns[r2][c2][d] <==> Unblocked(g, r2, c2, d)
    ensures ClearRelatedNotes(SetCellNotes(ns, r, c, EmptyCellNotes()), r, c, num)[r2][c2][d]
        <==> Unblocked(SetCell(g, r, c, num), r2, c2, d)
  {
    var ns1 := SetCellNotes(ns, r, c, EmptyCellNotes());
    assert r2 != r || c2 != c;
    assert ns1[r2][c2] == ns[r2][c2];
    UnblockedAfterPlace(g, r, c, num, r2, c2, d);
    assert Peer(r, c, r2, c2) <==> Peer(r2, c2, r, c);
  }
}
