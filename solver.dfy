/** solve and its nested get_solution: backtracking search that writes
    candidates into the board in place and undoes them on failure. */
module Solver {
  import opened Grid
  import opened Rules
  import opened Candidates

  /** get_solution: fills the first empty cell with each candidate in turn
      and recurses; a dead end resets the cell to '.'. Returns the board
      itself once no cell is empty, None when no candidate leads there.
      - success: the board is full and keeps every cell that was filled on
        entry; when those cells broke no rule the board is a solution;
      - failure: the board is back to its entry contents, and no solution
        keeps the entry's filled cells;
      - a board with no empty cell is returned unchanged.
      The recursion ends because each level fills one more cell. */
  method Solve(board: Board) returns (r: Option<Board>)
    requires WellFormed(board.cells)
    modifies board
    ensures WellFormed(board.cells)
    ensures r.Some? ==> r.value == board && Full(board.cells) && Extends(board.cells, old(board.cells))
    ensures r.Some? && Consistent(old(board.cells)) ==> IsSolution(board.cells)
    ensures r.None? ==> board.cells == old(board.cells) && !Solvable(old(board.cells))
    ensures Full(old(board.cells)) ==> r == Some(board) && board.cells == old(board.cells)
    decreases 81 - FilledCount(board.cells)
  {
    var g := board.cells;
    var emptyPos := FindEmptyPositions(g);
    if emptyPos.None? {
      return Some(board);
    }
    var pos := emptyPos.value;
    var possible := FindPossibleValues(g, pos);
    if possible == {} {
      NoCandidateCompletes(g, pos, possible);
      return None;
    }
    FilledCountRange(g);
    var remaining := possible;
    while remaining != {}
      invariant remaining <= possible
      invariant board.cells == g
      invariant forall d :: d in possible && d !in remaining ==> !Solvable(Place(g, pos, d))
      decreases |remaining|
    {
      var value :| value in remaining;
      board.cells := Place(board.cells, pos, value);
      FilledCountPlace(g, pos, value);
      PlaceWellFormed(g, pos, value);
      var sub := Solve(board);
      if sub.Some? {
        CompletionThroughCandidate(g, pos, value, board.cells);
        return Some(board);
      }
      board.cells := Place(board.cells, pos, Empty);
      SameCells(board.cells, g);
      remaining := remaining - {value};
    }
    NoCandidateCompletes(g, pos, possible);
    return None;
  }
}
