# Sudoku engine: a Dafny model

This project models the Sudoku engine of `src/lab3/sudoku.py`: building a
9×9 grid from text, the row, column and block views of a cell, the scan for
the first empty cell, the candidate digits of a cell, the backtracking solver
that writes into the grid in place, the solution checker and the puzzle
generator. A grid is a sequence of nine rows of nine characters, each one of
the digits `'1'`..`'9'` or the empty marker `'.'`.

The modules follow the program's structure:

- `Grid` (`grid.dfy`) holds cells, positions, `create_grid` and `group`, the
  views, `find_empty_positions` and the count of filled cells. It also holds
  `Board`, the grid object that the solver and the generator update in place.
- `Rules` (`rules.dfy`) defines the Sudoku rules the engine relies on:
  - two cells share a unit when they share a row, a column or a 3×3 block;
  - a grid is consistent when no unit repeats a digit;
  - a solution is a full, consistent grid;
  - a grid is solvable when some solution keeps all of its filled cells.
- `Candidates` (`candidates.dfy`) holds `find_possible_values` and what a
  candidate means for completions of the grid.
- `Solver` (`solver.dfy`) holds `solve` with its nested `get_solution`.
- `Checker` (`checker.dfy`) holds `check_solution`.
- `Generator` (`generator.dfy`) holds `generate_sudoku`.

The main results:

- `solve` is sound. On success the board is full and keeps every given cell. When the givens broke no rule, the board is a solution.
- `solve` is complete. It returns `None` only when no solution keeps the givens, and then the board is back to its original contents.
- `check_solution` returns `True` exactly on solutions.
- In a solution every row, column and block is a permutation of the nine digits.
- `generate_sudoku(N)` returns a grid with exactly `N` filled cells for `N <= 81`, and a full solution for `N > 81`. Either way the grid can still be completed to a solution.
- The `sudoku is None` branch of `generate_sudoku` is dead, because the empty grid is solvable.

Line 122 of the checker reads like the intersection of the row, column and
block sets. Python's `and` on sets returns its first empty operand, or its
last operand when none is empty. The model follows the code (`Checker.PyAnd`)
and proves that on a 9×9 grid the value is the block's set. Because every
cell lies in its own block and every position is visited, the checker still
accepts exactly the solutions.

## Model

| member | source | states |
|---|---|---|
| `Grid.Place` | src/lab3/sudoku.py:105-109 | writing one cell sets that cell and leaves every other cell as it was |
| `Grid.FilterCells` | src/lab3/sudoku.py:17 | the comprehension keeps only digits and '.', so it is never longer than the text |
| `Grid.FilterCellsAppend` | src/lab3/sudoku.py:17 | filtering distributes over concatenation, so it keeps the characters in their original order |
| `Grid.FilterCellsKeepsCells` | src/lab3/sudoku.py:17 | text made only of digits and '.' is kept whole |
| `Grid.FilterCellsDropsOthers` | src/lab3/sudoku.py:17 | text with no digit and no '.' gives no cells |
| `Grid.Group` | src/lab3/sudoku.py:37-43 | group returns `n` chunks, the i-th being `values[i*n:(i+1)*n]` with Python's clamping of slice ends |
| `Grid.GroupOfSquare` | src/lab3/sudoku.py:37-43 | grouping `n*n` values gives `n` chunks of length `n` whose concatenation is the input |
| `Grid.CreateGrid` | src/lab3/sudoku.py:16-19 | create_grid gives 9 rows cut from the filtered text; with at least 81 cell characters it is a 9×9 grid of cell characters holding the first 81 of them, row by row |
| `Grid.GetCol` | src/lab3/sudoku.py:51-56 | get_col collects column `pos[1]` of every row, top to bottom |
| `Grid.BlockPosIndex` | src/lab3/sudoku.py:61-64 | the block index `3*(r%3)+c%3` reaches each cell of the block of `pos`, and only that index does |
| `Grid.GetBlock` | src/lab3/sudoku.py:59-68 | get_block gives the nine cells of the 3×3 block of `pos`, row by row, three from each row |
| `Grid.IndexOf` | src/lab3/sudoku.py:73 | `row.index('.')` is the first index holding '.' |
| `Grid.FindEmptyFrom` | src/lab3/sudoku.py:71-74 | from row `i` on, the scan finds an empty cell that no earlier cell of those rows is, or `None` exactly when those rows are full |
| `Grid.FindEmptyPositions` | src/lab3/sudoku.py:70-74 | the first empty cell in row-major order, or `None` exactly when the grid is full |
| `Grid.FilledCountRange` | src/lab3/sudoku.py:145-150 | at most 81 cells are filled, and exactly 81 when the grid is full |
| `Grid.FilledCountPlace` | src/lab3/sudoku.py:159-160 | writing a cell changes the filled count by the change in that one cell |
| `Grid.FilledCountZero` | src/lab3/sudoku.py:137-139 | the filled count is 0 exactly when every cell is '.' |
| `Rules.InViews` | src/lab3/sudoku.py:46-68 | get_row, get_col and get_block together hold exactly the values of the cells sharing a row, column or block with `pos` |
| `Rules.SolvableIsConsistent` | src/lab3/sudoku.py:92-111 | a grid that some solution completes repeats no digit in any unit |
| `Rules.FullConsistentIsSolution` | src/lab3/sudoku.py:95-97 | a full grid of cell characters that repeats no digit is a solution of itself |
| `Candidates.FindPossibleValues` | src/lab3/sudoku.py:78-90 | the result is exactly the digits found in none of the row, column and block of `pos` |
| `Candidates.AllowedIffNoPeerHolds` | src/lab3/sudoku.py:78-90 | a digit is a candidate exactly when no cell sharing a unit with `pos` holds it |
| `Candidates.PlaceKeepsConsistent` | src/lab3/sudoku.py:104-105 | writing a candidate into an empty cell of a rule-abiding grid keeps it rule-abiding |
| `Candidates.SolutionPicksCandidate` | src/lab3/sudoku.py:99-105 | the digit a completing solution has in the empty cell is a candidate, and the solution still completes the grid after it is written |
| `Candidates.SolvableHasCandidate` | src/lab3/sudoku.py:99-106 | a solvable grid has a candidate at its empty cell after which it stays solvable |
| `Candidates.NoCandidateCompletes` | src/lab3/sudoku.py:100-110 | when no candidate leaves the grid solvable, and in particular when there is none, the grid is not solvable |
| `Candidates.CompletionThroughCandidate` | src/lab3/sudoku.py:104-107 | a completion found after writing a candidate also completes the grid before the write, and is a solution when that grid broke no rule |
| `Solver.Solve` | src/lab3/sudoku.py:92-111 | on success the board is full and keeps every given, and is a solution when the givens broke no rule; on `None` the board is restored and no solution keeps the givens; a full board is returned unchanged |
| `Checker.AllSetsIsBlockSet` | src/lab3/sudoku.py:122 | `set(row) and set(col) and set(block)` is the block's set on a 9×9 grid |
| `Checker.DistinctIffSetSize` | src/lab3/sudoku.py:125-127 | `len(values) == len(set(values))` holds exactly when no value repeats |
| `Checker.CheckFrom` | src/lab3/sudoku.py:116-131 | the nested loops return `True` exactly when all four tests pass at every remaining position in row-major order |
| `Checker.PositionOkCellsDiffer` | src/lab3/sudoku.py:124-128 | when the tests pass at a position, its cell differs from every other cell of its row, column and block |
| `Checker.SolutionPositionOk` | src/lab3/sudoku.py:118-130 | every solution passes the four tests at every position |
| `Checker.CheckSolutionSound` | src/lab3/sudoku.py:114-132 | when check_solution returns `True`, the grid is a solution |
| `Checker.SolutionPassesCheck` | src/lab3/sudoku.py:114-132 | check_solution returns `True` on every solution |
| `Checker.CheckSolutionIffSolution` | src/lab3/sudoku.py:114-132 | check_solution returns `True` if and only if the grid is a solution |
| `Checker.SolutionUnitsArePermutations` | src/lab3/sudoku.py:124-128 | in a solution every row, column and block holds each of `all_values` exactly once |
| `Generator.EmptyGrid` | src/lab3/sudoku.py:137 | the starting board is 9×9 with every cell '.' |
| `Generator.EmptyGridSolvable` | src/lab3/sudoku.py:141-143 | the empty board is completable, so `solve` never returns `None` on it |
| `Generator.ClearCell` | src/lab3/sudoku.py:156-160 | emptying a filled cell lowers the filled count by one and keeps the grid completable by the same solution |
| `Generator.GenerateSudoku` | src/lab3/sudoku.py:135-162 | the result is a new completable board: all '.' for N = 0, a solution for N > 81, otherwise exactly N filled cells |

## Left out

- `read_sudoku` (lines 8-13) reads a file. File I/O is not modelled; `Grid.CreateGrid` models what it does with the text.
- `display` (lines 22-34), `run_solve` (lines 165-173) and the `__main__` block (lines 176-184) only print and time. Printing and the clock are not modelled.
- `Generator.GenerateSudoku`: `random.randint` is not modelled. The draw-and-retry loop at lines 150-160 is a nondeterministic pick of a filled cell. A draw that hits an empty cell changes nothing, so only the cells finally emptied matter. The distribution of the cells emptied is not modelled.
- `Generator.GenerateSudoku: requires n >= 0`. For a negative N the source loop empties all 81 cells and then draws forever. The model does not cover that non-terminating call.
- `Solver.Solve` and `Candidates.FindPossibleValues`: the order in which Python iterates a set is not modelled. Each picks an arbitrary remaining value. The contracts hold whichever order is used.
- `Solver.Solve` takes any well-formed grid. The source runs on any list of lists. Grids that are not 9×9 or that hold other characters are outside the model. That is also why the views, `find_empty_positions`, `find_possible_values` and `check_solution` require a 9×9 grid. `create_grid` and `group` take input of any length.
- A grid is one value held by a `Board` object. Python's aliasing of individual row lists is not modelled, because the engine never shares a row between two grids.
- `Solver.Solve` states solvability relative to the givens. When the givens already break a rule, the source may still fill the board. The contract then promises only a full board that keeps the givens. This is also what the code does.
- Time limits, performance and the running time of backtracking are not modelled.
