/** The Sudoku board (`src/lab3/sudoku.py`): cell characters, positions,
    building a grid from text, the row/column/block views, the scan for the
    first empty cell, the board updated in place, and the count of filled
    cells. */
module Grid {

  datatype Option<T> = None | Some(value: T)

  /** A grid is a list of 9 rows of 9 one-character cells. */
  type Grid = seq<seq<char>>

  /** The marker of an empty cell. */
  const Empty: char := '.'

  /** `all_values`: the nine digit characters a filled cell may hold. */
  const Digits: set<char> := {'1', '2', '3', '4', '5', '6', '7', '8', '9'}

  /** A cell position (row, column). */
  datatype Pos = Pos(row: nat, col: nat)

  predicate InRange(p: Pos) { p.row < 9 && p.col < 9 }

  /** Row-major scan order: `p` is visited before `q`. */
  predicate Before(p: Pos, q: Pos) { p.row < q.row || (p.row == q.row && p.col < q.col) }

  /** The characters a grid is built from: a digit or the empty marker. */
  predicate IsCellChar(c: char) { c in Digits || c == Empty }

  predicate IsShape(g: Grid) { |g| == 9 && forall i :: 0 <= i < 9 ==> |g[i]| == 9 }

  function At(g: Grid, p: Pos): char
    requires IsShape(g) && InRange(p)
  {
    g[p.row][p.col]
  }

  ghost predicate WellFormed(g: Grid) { IsShape(g) && forall p :: InRange(p) ==> IsCellChar(At(g, p)) }

  /** No cell is empty. */
  ghost predicate Full(g: Grid)
    requires IsShape(g)
  {
    forall p :: InRange(p) ==> At(g, p) != Empty
  }

  /** The grid with the cell at `p` set to `v` and every other cell kept. */
  function Place(g: Grid, p: Pos, v: char): (r: Grid)
    requires IsShape(g) && InRange(p)
    ensures IsShape(r) && At(r, p) == v
    ensures forall q :: InRange(q) && q != p ==> At(r, q) == At(g, q)
  {
    g[p.row := g[p.row][p.col := v]]
  }

  /** Two grids with the same cells are the same grid. */
  lemma SameCells(g: Grid, h: Grid)
    requires IsShape(g) && IsShape(h)
    requires forall p :: InRange(p) ==> At(g, p) == At(h, p)
    ensures g == h
  {
    forall i | 0 <= i < 9
      ensures g[i] == h[i]
    {
      forall j | 0 <= j < 9
        ensures g[i][j] == h[i][j]
      {
        assert At(g, Pos(i, j)) == At(h, Pos(i, j));
      }
    }
  }

  /** A grid shared by reference and updated cell by cell in place, as the
      solver and the generator do with their list of row lists. */
  class Board {
    var cells: Grid

    constructor (init: Grid)
      ensures cells == init
    {
      cells := init;
    }
  }

  // ---------------------------------------------------------------------
  // Building a grid from text: create_grid and group
  // ---------------------------------------------------------------------

  /** The comprehension of create_grid: the characters of `puzzle` that are
      digits or '.', in their original order. */
  function FilterCells(puzzle: string): (r: string)
    ensures |r| <= |puzzle|
    ensures forall k :: 0 <= k < |r| ==> IsCellChar(r[k])
  {
    if puzzle == [] then []
    else (if IsCellChar(puzzle[0]) then [puzzle[0]] else []) + FilterCells(puzzle[1..])
  }

  /** Filtering distributes over concatenation, so it keeps the order of the
      characters it keeps. */
  lemma {:induction false} FilterCellsAppend(s: string, t: string)
    ensures FilterCells(s + t) == FilterCells(s) + FilterCells(t)
  {
    if s == [] {
      assert s + t == t;
    } else {
      assert (s + t)[1..] == s[1..] + t;
      FilterCellsAppend(s[1..], t);
    }
  }

  /** Text made only of cell characters is kept whole. */
  lemma {:induction false} FilterCellsKeepsCells(s: string)
    requires forall k :: 0 <= k < |s| ==> IsCellChar(s[k])
    ensures FilterCells(s) == s
  {
    if s != [] {
      FilterCellsKeepsCells(s[1..]);
    }
  }

  /** Text without cell characters is dropped entirely. */
  lemma {:induction false} FilterCellsDropsOthers(s: string)
    requires forall k :: 0 <= k < |s| ==> !IsCellChar(s[k])
    ensures FilterCells(s) == []
  {
    if s != [] {
      FilterCellsDropsOthers(s[1..]);
    }
  }

  /** Python's `s[lo:hi]` for non-negative bounds: both ends are clamped to
      the length of `s`. */
  function Slice<T>(s: seq<T>, lo: nat, hi: nat): seq<T>
  {
    var h := if hi < |s| then hi else |s|;
    var l := if lo < h then lo else h;
    s[l..h]
  }

  /** The i-th chunk of `n` values, `values[i*n:(i+1)*n]`. */
  function Chunk<T>(values: seq<T>, n: nat, i: nat): seq<T>
  {
    Slice(values, i * n, (i + 1) * n)
  }

  lemma SliceSteps<T>(values: seq<T>, lo: nat, n: nat)
    ensures Slice(Slice(values, lo, |values|), 0, n) == Slice(values, lo, lo + n)
    ensures Slice(Slice(values, lo, |values|), n, |Slice(values, lo, |values|)|) == Slice(values, lo + n, |values|)
  {
    if lo <= |values| {
      var rest := values[lo..];
      assert Slice(values, lo, |values|) == rest;
      if lo + n <= |values| {
        assert rest[..n] == values[lo..lo + n];
        assert rest[n..] == values[lo + n..];
      } else {
        assert rest[..|rest|] == values[lo..];
      }
    }
  }

  lemma MulSucc(i: nat, n: nat)
    ensures (i + 1) * n == i * n + n
  {
  }

  /** group: `n` chunks, the i-th being `values[i*n:(i+1)*n]`; the loop takes
      `values[:n]` and then drops it with `values = values[n:]`. */
  method Group<T>(values: seq<T>, n: nat) returns (a: seq<seq<T>>)
    ensures |a| == n
    ensures forall i :: 0 <= i < n ==> a[i] == Chunk(values, n, i)
  {
    a := [];
    var rest := values;
    for i := 0 to n
      invariant |a| == i
      invariant forall k :: 0 <= k < i ==> a[k] == Chunk(values, n, k)
      invariant rest == Slice(values, i * n, |values|)
    {
      MulSucc(i, n);
      SliceSteps(values, i * n, n);
      assert Slice(rest, 0, n) == Chunk(values, n, i);
      a := a + [Slice(rest, 0, n)];
      rest := Slice(rest, n, |rest|);
    }
  }

  /** Joins the rows of a grid back into one sequence. */
  function Flatten<T>(a: seq<seq<T>>): seq<T>
  {
    if a == [] then [] else Flatten(a[..|a| - 1]) + a[|a| - 1]
  }

  lemma MulMono(m: nat, n: nat)
    requires m <= n
    ensures m * n <= n * n
  {
  }

  /** A chunk that lies inside a sequence of n*n values is a plain slice. */
  lemma ChunkInside<T>(values: seq<T>, n: nat, i: nat)
    requires |values| == n * n && i < n
    ensures i * n + n <= |values|
    ensures Chunk(values, n, i) == values[i * n..i * n + n]
  {
    MulSucc(i, n);
    MulMono(i + 1, n);
  }

  /** A chunk that ends within the first `m` values is a chunk of them. */
  lemma ChunkOfPrefix<T>(values: seq<T>, n: nat, i: nat, m: nat)
    requires i * n + n <= m <= |values|
    ensures Chunk(values, n, i) == Chunk(values[..m], n, i)
  {
    MulSucc(i, n);
    assert values[i * n..i * n + n] == values[..m][i * n..i * n + n];
  }

  lemma {:induction false} ChunksPrefix<T>(values: seq<T>, n: nat, a: seq<seq<T>>, m: nat)
    requires |values| == n * n && |a| == n && m <= n
    requires forall i :: 0 <= i < n ==> a[i] == Chunk(values, n, i)
    ensures m * n <= |values|
    ensures Flatten(a[..m]) == values[..m * n]
  {
    MulMono(m, n);
    if m > 0 {
      var lo, hi := (m - 1) * n, m * n;
      ChunksPrefix(values, n, a, m - 1);
      ChunkInside(values, n, m - 1);
      MulSucc(m - 1, n);
      assert hi == lo + n;
      assert a[..m][..m - 1] == a[..m - 1];
      assert Flatten(a[..m]) == Flatten(a[..m - 1]) + a[m - 1];
      assert values[..hi] == values[..lo] + values[lo..hi];
    }
  }

  /** Grouping n*n values gives chunks of length n whose concatenation is
      the input. */
  lemma GroupOfSquare<T>(values: seq<T>, n: nat, a: seq<seq<T>>)
    requires |values| == n * n && |a| == n
    requires forall i :: 0 <= i < n ==> a[i] == Chunk(values, n, i)
    ensures forall i :: 0 <= i < n ==> |a[i]| == n
    ensures Flatten(a) == values
  {
    ChunkLengths(values, n, a);
    ChunksPrefix(values, n, a, n);
    assert a[..n] == a;
  }

  lemma ChunkLengths<T>(values: seq<T>, n: nat, a: seq<seq<T>>)
    requires |values| == n * n && |a| == n
    requires forall i :: 0 <= i < n ==> a[i] == Chunk(values, n, i)
    ensures forall i :: 0 <= i < n ==> |a[i]| == n
  {
    forall i | 0 <= i < n
      ensures |a[i]| == n
    {
      ChunkInside(values, n, i);
    }
  }

  /** create_grid: the cell characters of the text, cut into rows of 9. With
      at least 81 of them the result is a well-formed 9×9 grid holding the
      first 81, row by row. */
  method CreateGrid(puzzle: string) returns (g: Grid)
    ensures |g| == 9
    ensures forall i :: 0 <= i < 9 ==> g[i] == Chunk(FilterCells(puzzle), 9, i)
    ensures |FilterCells(puzzle)| >= 81 ==> WellFormed(g) && Flatten(g) == FilterCells(puzzle)[..81]
  {
    var digits := FilterCells(puzzle);
    g := Group(digits, 9);
    if |digits| >= 81 {
      var first := digits[..81];
      forall i | 0 <= i < 9
        ensures g[i] == Chunk(first, 9, i)
      {
        ChunkOfPrefix(digits, 9, i, 81);
      }
      GroupOfSquare(first, 9, g);
      forall p | InRange(p)
        ensures IsCellChar(At(g, p))
      {
        assert At(g, p) == first[p.row * 9 + p.col];
      }
    }
  }

  // ---------------------------------------------------------------------
  // Views: get_row, get_col, get_block
  // ---------------------------------------------------------------------

  /** get_row: the values of the row of `p`. */
  function Row(g: Grid, p: Pos): (r: seq<char>)
    requires IsShape(g) && InRange(p)
    ensures |r| == 9
  {
    g[p.row]
  }

  /** The values of the column of `p`, top to bottom. */
  function Col(g: Grid, p: Pos): (r: seq<char>)
    requires IsShape(g) && InRange(p)
    ensures |r| == 9
  {
    seq(9, i requires 0 <= i < 9 => g[i][p.col])
  }

  /** The position of the `k`-th cell, in row-major order, of the 3×3
      block of `p`. */
  function BlockPos(p: Pos, k: nat): (q: Pos)
    requires InRange(p) && k < 9
    ensures InRange(q) && q.row / 3 == p.row / 3 && q.col / 3 == p.col / 3
  {
    Pos((p.row / 3) * 3 + k / 3, (p.col / 3) * 3 + k % 3)
  }

  /** Each cell of a block is reached by exactly one index. */
  lemma BlockPosIndex(p: Pos, q: Pos)
    requires InRange(p) && InRange(q) && q.row / 3 == p.row / 3 && q.col / 3 == p.col / 3
    ensures BlockPos(p, (q.row % 3) * 3 + q.col % 3) == q
    ensures forall k :: 0 <= k < 9 && BlockPos(p, k) == q ==> k == (q.row % 3) * 3 + q.col % 3
  {
    var k := (q.row % 3) * 3 + q.col % 3;
    assert k / 3 == q.row % 3 && k % 3 == q.col % 3;
  }

  /** The values of the 3×3 block of `p`, in row-major order within it. */
  function Block(g: Grid, p: Pos): (r: seq<char>)
    requires IsShape(g) && InRange(p)
    ensures |r| == 9
  {
    seq(9, k requires 0 <= k < 9 => At(g, BlockPos(p, k)))
  }

  /** get_col: collects cell `p.col` of every row. */
  method GetCol(g: Grid, p: Pos) returns (a: seq<char>)
    requires IsShape(g) && InRange(p)
    ensures a == Col(g, p)
  {
    a := [];
    for i := 0 to |g|
      invariant a == Col(g, p)[..i]
    {
      a := a + [g[i][p.col]];
    }
  }

  /** get_block: concatenates the three-cell slices of the block's three rows. */
  method GetBlock(g: Grid, p: Pos) returns (a: seq<char>)
    requires IsShape(g) && InRange(p)
    ensures a == Block(g, p)
  {
    var x0 := (p.row / 3) * 3;
    var x1 := x0 + 3;
    var y0 := (p.col / 3) * 3;
    var y1 := y0 + 3;
    a := [];
    for i := x0 to x1
      invariant a == Block(g, p)[..3 * (i - x0)]
    {
      BlockRow(g, p, i - x0);
      a := a + g[i][y0..y1];
    }
  }

  /** The `r`-th three cells of a block are a slice of one row of the grid. */
  lemma BlockRow(g: Grid, p: Pos, r: nat)
    requires IsShape(g) && InRange(p) && r < 3
    ensures Block(g, p)[..3 * r + 3] ==
            Block(g, p)[..3 * r] + g[(p.row / 3) * 3 + r][(p.col / 3) * 3..(p.col / 3) * 3 + 3]
  {
    var row := g[(p.row / 3) * 3 + r][(p.col / 3) * 3..(p.col / 3) * 3 + 3];
    forall j | 0 <= j < 3
      ensures Block(g, p)[3 * r + j] == row[j]
    {
      assert (3 * r + j) / 3 == r && (3 * r + j) % 3 == j;
    }
  }

  // ---------------------------------------------------------------------
  // find_empty_positions
  // ---------------------------------------------------------------------

  /** `row.index(c)`: the first index holding `c`. */
  function IndexOf(row: seq<char>, c: char): (k: nat)
    requires c in row
    ensures k < |row| && row[k] == c
    ensures forall j :: 0 <= j < k ==> row[j] != c
  {
    if row[0] == c then 0 else 1 + IndexOf(row[1..], c)
  }

  /** The enumerate loop of find_empty_positions, from row `i` on. */
  function FindEmptyFrom(g: Grid, i: nat): (r: Option<Pos>)
    requires IsShape(g) && i <= 9
    ensures r.Some? ==> InRange(r.value) && i <= r.value.row && At(g, r.value) == Empty
    ensures r.Some? ==> forall q :: InRange(q) && i <= q.row && Before(q, r.value) ==> At(g, q) != Empty
    ensures r.None? <==> forall q :: InRange(q) && i <= q.row ==> At(g, q) != Empty
    decreases 9 - i
  {
    if i == 9 then None
    else if Empty in g[i] then Some(Pos(i, IndexOf(g[i], Empty)))
    else FindEmptyFrom(g, i + 1)
  }

  /** find_empty_positions: the first empty cell in row-major order, or None
      exactly when the grid is full. */
  function FindEmptyPositions(g: Grid): (r: Option<Pos>)
    requires IsShape(g)
    ensures r.Some? ==> InRange(r.value) && At(g, r.value) == Empty
    ensures r.Some? ==> forall q :: InRange(q) && Before(q, r.value) ==> At(g, q) != Empty
    ensures r.None? <==> Full(g)
  {
    FindEmptyFrom(g, 0)
  }

  // ---------------------------------------------------------------------
  // Counting filled cells
  // ---------------------------------------------------------------------

  function FilledIn(s: seq<char>): (k: nat)
    ensures k <= |s|
  {
    if s == [] then 0 else (if s[0] != Empty then 1 else 0) + FilledIn(s[1..])
  }

  /** The number of non-empty cells of a grid. */
  function FilledCount(g: Grid): nat
  {
    if g == [] then 0 else FilledIn(g[0]) + FilledCount(g[1..])
  }

  lemma {:induction false} FilledInAll(s: seq<char>)
    ensures FilledIn(s) == |s| <==> forall j :: 0 <= j < |s| ==> s[j] != Empty
  {
    if s != [] {
      FilledInAll(s[1..]);
      if FilledIn(s) == |s| {
        assert s[0] != Empty;
      }
    }
  }

  lemma {:induction false} FilledRows(rows: seq<seq<char>>)
    requires forall i :: 0 <= i < |rows| ==> |rows[i]| == 9
    ensures FilledCount(rows) <= 9 * |rows|
    ensures FilledCount(rows) == 9 * |rows| <==>
              forall i, j :: 0 <= i < |rows| && 0 <= j < 9 ==> rows[i][j] != Empty
  {
    if rows != [] {
      FilledRows(rows[1..]);
      FilledInAll(rows[0]);
      if FilledCount(rows) == 9 * |rows| {
        forall i, j | 0 <= i < |rows| && 0 <= j < 9
          ensures rows[i][j] != Empty
        {
          if i > 0 {
            assert rows[1..][i - 1] == rows[i];
          }
        }
      }
      if forall i, j :: 0 <= i < |rows| && 0 <= j < 9 ==> rows[i][j] != Empty {
        forall i, j | 0 <= i < |rows[1..]| && 0 <= j < 9
          ensures rows[1..][i][j] != Empty
        {
          assert rows[1..][i] == rows[i + 1];
        }
      }
    }
  }

  /** A grid has at most 81 filled cells, and exactly 81 when it is full. */
  lemma FilledCountRange(g: Grid)
    requires IsShape(g)
    ensures FilledCount(g) <= 81
    ensures FilledCount(g) == 81 <==> Full(g)
  {
    FilledRows(g);
    if FilledCount(g) == 81 {
      forall p | InRange(p)
        ensures At(g, p) != Empty
      {
      }
    }
    if Full(g) {
      forall i, j | 0 <= i < 9 && 0 <= j < 9
        ensures g[i][j] != Empty
      {
        assert At(g, Pos(i, j)) != Empty;
      }
    }
  }

  function Filled(c: char): nat { if c != Empty then 1 else 0 }

  lemma {:induction false} FilledInUpdate(s: seq<char>, j: nat, v: char)
    requires j < |s|
    ensures FilledIn(s[j := v]) == FilledIn(s) - Filled(s[j]) + Filled(v)
  {
    if j > 0 {
      assert s[j := v][1..] == s[1..][j - 1 := v];
      FilledInUpdate(s[1..], j - 1, v);
    } else {
      assert s[j := v][1..] == s[1..];
    }
  }

  lemma {:induction false} FilledCountUpdate(rows: seq<seq<char>>, i: nat, row: seq<char>)
    requires i < |rows|
    ensures FilledCount(rows[i := row]) == FilledCount(rows) - FilledIn(rows[i]) + FilledIn(row)
  {
    if i > 0 {
      assert rows[i := row][1..] == rows[1..][i - 1 := row];
      FilledCountUpdate(rows[1..], i - 1, row);
    } else {
      assert rows[i := row][1..] == rows[1..];
    }
  }

  /** Writing `v` at `p` changes the filled count by what leaves and what
      enters the cell. */
  lemma FilledCountPlace(g: Grid, p: Pos, v: char)
    requires IsShape(g) && InRange(p)
    ensures FilledCount(Place(g, p, v)) == FilledCount(g) - Filled(At(g, p)) + Filled(v)
  {
    FilledInUpdate(g[p.row], p.col, v);
    FilledCountUpdate(g, p.row, g[p.row][p.col := v]);
  }

  lemma {:induction false} FilledInNone(s: seq<char>)
    ensures FilledIn(s) == 0 <==> forall j :: 0 <= j < |s| ==> s[j] == Empty
  {
    if s != [] {
      FilledInNone(s[1..]);
      if FilledIn(s) == 0 {
        assert s[0] == Empty;
      }
    }
  }

  lemma {:induction false} EmptyRows(rows: seq<seq<char>>)
    requires forall i :: 0 <= i < |rows| ==> |rows[i]| == 9
    ensures FilledCount(rows) == 0 <==>
              forall i, j :: 0 <= i < |rows| && 0 <= j < 9 ==> rows[i][j] == Empty
  {
    if rows != [] {
      EmptyRows(rows[1..]);
      FilledInNone(rows[0]);
      if FilledCount(rows) == 0 {
        forall i, j | 0 <= i < |rows| && 0 <= j < 9
          ensures rows[i][j] == Empty
        {
          if i > 0 {
            assert rows[1..][i - 1] == rows[i];
          }
        }
      }
      if forall i, j :: 0 <= i < |rows| && 0 <= j < 9 ==> rows[i][j] == Empty {
        forall i, j | 0 <= i < |rows[1..]| && 0 <= j < 9
          ensures rows[1..][i][j] == Empty
        {
          assert rows[1..][i] == rows[i + 1];
        }
      }
    }
  }

  /** A grid has no filled cell exactly when its filled count is zero. */
  lemma FilledCountZero(g: Grid)
    requires IsShape(g)
    ensures FilledCount(g) == 0 <==> forall p :: InRange(p) ==> At(g, p) == Empty
  {
    EmptyRows(g);
    if forall p :: InRange(p) ==> At(g, p) == Empty {
      forall i, j | 0 <= i < 9 && 0 <= j < 9
        ensures g[i][j] == Empty
      {
        assert At(g, Pos(i, j)) == Empty;
      }
    }
  }
}
