/** generate_sudoku: solves an empty board, then empties filled cells until
    the requested number of cells remain filled. */
module Generator {
  import opened Grid
  import opened Rules
  import opened Solver

  /** Every cell is empty. */
  ghost predicate AllEmpty(g: Grid)
    requires IsShape(g)
  {
    forall p :: InRange(p) ==> At(g, p) == Empty
  }

  /** The board generate_sudoku starts from: nine rows of nine '.'. */
  function EmptyGrid(): (g: Grid)
    ensures IsShape(g) && forall p :: InRange(p) ==> At(g, p) == Empty
  {
    seq(9, i => seq(9, j => Empty))
  }

  /** The digit character for 0..8. */
  function DigitChar(k: nat): char
    requires k < 9
  {
    (('1' as int) + k) as char
  }

  lemma DigitCharIsDigit(k: nat)
    requires k < 9
    ensures DigitChar(k) in Digits
  {
    if k == 0 { assert DigitChar(k) == '1'; }
    else if k == 1 { assert DigitChar(k) == '2'; }
    else if k == 2 { assert DigitChar(k) == '3'; }
    else if k == 3 { assert DigitChar(k) == '4'; }
    else if k == 4 { assert DigitChar(k) == '5'; }
    else if k == 5 { assert DigitChar(k) == '6'; }
    else if k == 6 { assert DigitChar(k) == '7'; }
    else if k == 7 { assert DigitChar(k) == '8'; }
    else { assert DigitChar(k) == '9'; }
  }

  /** The digit index of cell `p` in a fixed solved grid: rows are shifted
      copies of one another, by 3 within a band and by 1 across bands. */
  function PatternIndex(p: Pos): nat
  {
    (3 * (p.row % 3) + p.row / 3 + p.col) % 9
  }

  ghost function PatternGrid(): (s: Grid)
    ensures IsShape(s)
    ensures forall p :: InRange(p) ==> At(s, p) == DigitChar(PatternIndex(p))
  {
    seq(9, i requires 0 <= i < 9 => seq(9, j requires 0 <= j < 9 => DigitChar(PatternIndex(Pos(i, j)))))
  }

  lemma ModNineDiffer(x: nat, y: nat)
    requires x != y && -9 < x - y < 9
    ensures x % 9 != y % 9
  {
  }

  /** Row `r` is shifted by 3 * (r % 3) + r / 3: a different shift in 0..8
      for each row. */
  lemma RowShift(r1: nat, r2: nat)
    requires r1 < 9 && r2 < 9 && r1 != r2
    ensures 3 * (r1 % 3) + r1 / 3 <= 8 && 3 * (r2 % 3) + r2 / 3 <= 8
    ensures 3 * (r1 % 3) + r1 / 3 != 3 * (r2 % 3) + r2 / 3
  {
  }

  /** Two different cells of one block have different shifted columns. */
  lemma BlockShift(p: Pos, q: Pos)
    requires InRange(p) && InRange(q) && p.row != q.row
    requires p.row / 3 == q.row / 3 && p.col / 3 == q.col / 3
    ensures var x, y := 3 * (p.row % 3) + p.col, 3 * (q.row % 3) + q.col;
            x != y && -9 < x - y < 9
  {
    assert p.row % 3 != q.row % 3;
  }

  /** Two different cells sharing a unit get different digit indices. */
  lemma PatternPeersDiffer(p: Pos, q: Pos)
    requires InRange(p) && InRange(q) && p != q && SameUnit(p, q)
    ensures PatternIndex(p) != PatternIndex(q)
  {
    var x := 3 * (p.row % 3) + p.row / 3 + p.col;
    var y := 3 * (q.row % 3) + q.row / 3 + q.col;
    if p.row != q.row {
      RowShift(p.row, q.row);
      if p.col != q.col {
        BlockShift(p, q);
      }
    }
    ModNineDiffer(x, y);
  }

  /** The fixed grid is a solution, so every empty grid is completable. */
  lemma EmptyGridSolvable(g: Grid)
    requires IsShape(g) && AllEmpty(g)
    ensures Consistent(g) && Solvable(g)
  {
    var s := PatternGrid();
    forall p | InRange(p)
      ensures At(s, p) in Digits
    {
      DigitCharIsDigit(PatternIndex(p));
    }
    forall p, q | InRange(p) && InRange(q) && p != q && SameUnit(p, q) && At(s, p) != Empty
      ensures At(s, p) != At(s, q)
    {
      PatternPeersDiffer(p, q);
    }
    assert IsSolution(s) && Extends(s, g);
  }

  /** Emptying a filled cell keeps the grid well-formed and extended by the
      same solution, and lowers the filled count by one. */
  lemma ClearCell(g: Grid, p: Pos, s: Grid)
    requires WellFormed(g) && InRange(p) && At(g, p) != Empty
    requires IsShape(s) && Extends(s, g)
    ensures WellFormed(Place(g, p, Empty)) && Extends(s, Place(g, p, Empty))
    ensures FilledCount(Place(g, p, Empty)) == FilledCount(g) - 1
  {
    FilledCountPlace(g, p, Empty);
  }

  /** generate_sudoku(N), N >= 0. N == 0 gives an empty board. Otherwise an
      empty board is solved; N > 81 returns that solution; else cells are
      emptied one at a time, each a filled cell picked at random, until N
      cells remain filled. The result always extends to a solution. */
  method GenerateSudoku(n: int) returns (sudoku: Board)
    requires n >= 0
    ensures fresh(sudoku)
    ensures WellFormed(sudoku.cells) && Solvable(sudoku.cells)
    ensures n == 0 ==> AllEmpty(sudoku.cells)
    ensures n > 81 ==> IsSolution(sudoku.cells)
    ensures n <= 81 ==> FilledCount(sudoku.cells) == n
  {
    sudoku := new Board(EmptyGrid());
    ghost var empty := sudoku.cells;
    EmptyGridSolvable(empty);
    FilledCountZero(empty);
    if n == 0 {
      return;
    }
    var solved := Solve(sudoku);
    if solved.None? {
      assert false;
      return;
    }
    ghost var solution := sudoku.cells;
    FilledCountRange(solution);
    assert IsShape(solution) && IsSolution(solution) && Extends(solution, solution);
    if n > 81 {
      return;
    }
    var freePositionCount := 81 - n;
    while freePositionCount != 0
      invariant 0 <= freePositionCount <= 81 - n
      invariant WellFormed(sudoku.cells)
      invariant FilledCount(sudoku.cells) == n + freePositionCount
      invariant Extends(solution, sudoku.cells)
      decreases freePositionCount
    {
      ghost var before := sudoku.cells;
      FilledCountZero(before);
      var row, col :| 0 <= row < 9 && 0 <= col < 9 && sudoku.cells[row][col] != Empty;
      sudoku.cells := Place(sudoku.cells, Pos(row, col), Empty);
      ClearCell(before, Pos(row, col), solution);
      freePositionCount := freePositionCount - 1;
    }
    assert IsShape(solution) && IsSolution(solution) && Extends(solution, sudoku.cells);
  }
}
