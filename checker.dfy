/** check_solution: a scan of all 81 positions that stops at the first
    position whose row, column or block repeats a value or whose block holds
    something other than a digit. */
module Checker {
  import opened Grid
  import opened Rules

  /** Python's `set(values)`. */
  function ToSet(s: seq<char>): set<char>
  {
    set v | v in s
  }

  /** No value occurs twice. */
  predicate Distinct(s: seq<char>)
  {
    forall i, j :: 0 <= i < j < |s| ==> s[i] != s[j]
  }

  /** `len(values) == len(set(values))`. */
  predicate SameSizeAsSet(s: seq<char>)
  {
    |s| == |ToSet(s)|
  }

  /** The position visited `k`-th by the nested loops over rows and columns. */
  function PosOf(k: nat): (p: Pos)
    requires k < 81
    ensures InRange(p)
  {
    Pos(k / 9, k % 9)
  }

  /** The step of the nested loops that visits `p`. */
  function PosIndex(p: Pos): (k: nat)
    requires InRange(p)
    ensures k < 81 && PosOf(k) == p
  {
    var k := p.row * 9 + p.col;
    assert k / 9 == p.row && k % 9 == p.col;
    k
  }

  /** Python's `a and b` on sets: `a` when it is empty, otherwise `b`. */
  function PyAnd(a: set<char>, b: set<char>): set<char>
  {
    if a == {} then a else b
  }

  /** The four tests check_solution makes at one position. The set it
      compares with the digits is `set(row) and set(col) and set(block)`. */
  predicate PositionOk(g: Grid, p: Pos)
    requires IsShape(g) && InRange(p)
  {
    var row, col, block := Row(g, p), Col(g, p), Block(g, p);
    var allSets := PyAnd(PyAnd(ToSet(row), ToSet(col)), ToSet(block));
    && SameSizeAsSet(row)
    && SameSizeAsSet(col)
    && SameSizeAsSet(block)
    && allSets - Digits == {}
  }

  /** The nested loops of check_solution from the `k`-th position in
      row-major order on: false at the first position that fails. */
  function CheckFrom(g: Grid, k: nat): (ok: bool)
    requires IsShape(g) && k <= 81
    ensures ok <==> forall m :: k <= m < 81 ==> PositionOk(g, PosOf(m))
    decreases 81 - k
  {
    if k == 81 then true
    else if !PositionOk(g, PosOf(k)) then false
    else CheckFrom(g, k + 1)
  }

  /** check_solution. */
  function CheckSolution(g: Grid): bool
    requires IsShape(g)
  {
    CheckFrom(g, 0)
  }

  /** On a 9×9 grid the row set is never empty, so line 122 yields the block
      set, not the intersection of the three sets. */
  lemma AllSetsIsBlockSet(g: Grid, p: Pos)
    requires IsShape(g) && InRange(p)
    ensures PyAnd(PyAnd(ToSet(Row(g, p)), ToSet(Col(g, p))), ToSet(Block(g, p))) == ToSet(Block(g, p))
  {
    assert Row(g, p)[0] in ToSet(Row(g, p));
    assert Col(g, p)[0] in ToSet(Col(g, p));
  }

  /** A sequence has as many distinct values as elements exactly when no
      value repeats. */
  lemma {:induction false} DistinctIffSetSize(s: seq<char>)
    ensures |ToSet(s)| <= |s|
    ensures SameSizeAsSet(s) <==> Distinct(s)
  {
    if s != [] {
      DistinctIffSetSize(s[1..]);
      assert ToSet(s) == {s[0]} + ToSet(s[1..]);
      if s[0] in ToSet(s[1..]) {
        assert ToSet(s) == ToSet(s[1..]);
        var j :| 0 <= j < |s[1..]| && s[1..][j] == s[0];
        assert s[0] == s[j + 1];
      } else {
        if Distinct(s[1..]) {
          forall i, j | 0 <= i < j < |s|
            ensures s[i] != s[j]
          {
            if i > 0 {
              assert s[i] == s[1..][i - 1] && s[j] == s[1..][j - 1];
            } else {
              assert s[j] in ToSet(s[1..]);
            }
          }
        }
        if Distinct(s) {
          forall i, j | 0 <= i < j < |s[1..]|
            ensures s[1..][i] != s[1..][j]
          {
            assert s[1..][i] == s[i + 1] && s[1..][j] == s[j + 1];
          }
        }
      }
    }
  }

  /** Every position passing the four tests makes the grid a solution. */
  lemma AllPositionsOkIsSolution(g: Grid)
    requires IsShape(g) && forall p :: InRange(p) ==> PositionOk(g, p)
    ensures IsSolution(g)
  {
    forall p | InRange(p)
      ensures At(g, p) in Digits
    {
      PositionOkCellIsDigit(g, p);
    }
    forall p, q | InRange(p) && InRange(q) && p != q && SameUnit(p, q) && At(g, p) != Empty
      ensures At(g, p) != At(g, q)
    {
      PositionOkCellsDiffer(g, p, q);
    }
  }

  /** The tests at `p` find no value outside the digits in its block, which
      holds its own cell. */
  lemma PositionOkCellIsDigit(g: Grid, p: Pos)
    requires IsShape(g) && InRange(p) && PositionOk(g, p)
    ensures At(g, p) in Digits
  {
    AllSetsIsBlockSet(g, p);
    BlockPosIndex(p, p);
    assert Block(g, p)[(p.row % 3) * 3 + p.col % 3] == At(g, p);
  }

  /** The tests at `p` tell apart `p` from any other cell of its units. */
  lemma PositionOkCellsDiffer(g: Grid, p: Pos, q: Pos)
    requires IsShape(g) && InRange(p) && InRange(q) && p != q && SameUnit(p, q)
    requires PositionOk(g, p)
    ensures At(g, p) != At(g, q)
  {
    var row, col, block := Row(g, p), Col(g, p), Block(g, p);
    assert SameSizeAsSet(row) && SameSizeAsSet(col) && SameSizeAsSet(block);
    if p.row == q.row {
      DistinctAt(row, p.col, q.col);
    } else if p.col == q.col {
      DistinctAt(col, p.row, q.row);
    } else {
      BlockPosIndex(p, p);
      BlockPosIndex(p, q);
      DistinctAt(block, (p.row % 3) * 3 + p.col % 3, (q.row % 3) * 3 + q.col % 3);
    }
  }

  /** Two different indices of a sequence as long as its set hold different
      values. */
  lemma DistinctAt(s: seq<char>, i: nat, j: nat)
    requires SameSizeAsSet(s) && i < |s| && j < |s| && i != j
    ensures s[i] != s[j]
  {
    DistinctIffSetSize(s);
  }

  /** A solution passes the four tests at every position. */
  lemma SolutionPositionOk(g: Grid, p: Pos)
    requires IsSolution(g) && InRange(p)
    ensures PositionOk(g, p)
  {
    SolutionRowDistinct(g, p);
    SolutionColDistinct(g, p);
    SolutionBlockDistinct(g, p);
    DistinctIffSetSize(Row(g, p));
    DistinctIffSetSize(Col(g, p));
    DistinctIffSetSize(Block(g, p));
    AllSetsIsBlockSet(g, p);
    forall v | v in ToSet(Block(g, p))
      ensures v in Digits
    {
      var k :| 0 <= k < 9 && Block(g, p)[k] == v;
      assert v == At(g, BlockPos(p, k));
    }
  }

  lemma SolutionRowDistinct(g: Grid, p: Pos)
    requires IsSolution(g) && InRange(p)
    ensures Distinct(Row(g, p))
  {
    forall i, j | 0 <= i < j < 9
      ensures Row(g, p)[i] != Row(g, p)[j]
    {
      var qi, qj := Pos(p.row, i), Pos(p.row, j);
      assert At(g, qi) != Empty && SameUnit(qi, qj);
    }
  }

  lemma SolutionColDistinct(g: Grid, p: Pos)
    requires IsSolution(g) && InRange(p)
    ensures Distinct(Col(g, p))
  {
    forall i, j | 0 <= i < j < 9
      ensures Col(g, p)[i] != Col(g, p)[j]
    {
      var qi, qj := Pos(i, p.col), Pos(j, p.col);
      assert At(g, qi) != Empty && SameUnit(qi, qj);
    }
  }

  lemma SolutionBlockDistinct(g: Grid, p: Pos)
    requires IsSolution(g) && InRange(p)
    ensures Distinct(Block(g, p))
  {
    forall i, j | 0 <= i < j < 9
      ensures Block(g, p)[i] != Block(g, p)[j]
    {
      var qi, qj := BlockPos(p, i), BlockPos(p, j);
      BlockPosIndex(p, qi);
      assert qi != qj;
      assert At(g, qi) != Empty && SameUnit(qi, qj);
    }
  }

  /** When check_solution returns True the grid is a solution. */
  lemma CheckSolutionSound(g: Grid)
    requires IsShape(g) && CheckSolution(g)
    ensures IsSolution(g)
  {
    forall p | InRange(p)
      ensures PositionOk(g, p)
    {
      var m := PosIndex(p);
      assert PositionOk(g, PosOf(m));
    }
    AllPositionsOkIsSolution(g);
  }

  /** check_solution returns True on every solution. */
  lemma SolutionPassesCheck(g: Grid)
    requires IsSolution(g)
    ensures CheckSolution(g)
  {
    forall m | 0 <= m < 81
      ensures PositionOk(g, PosOf(m))
    {
      SolutionPositionOk(g, PosOf(m));
    }
  }

  /** check_solution returns True exactly on solutions: every cell a digit
      and no row, column or block repeating one. */
  lemma CheckSolutionIffSolution(g: Grid)
    requires IsShape(g)
    ensures CheckSolution(g) <==> IsSolution(g)
  {
    if CheckSolution(g) {
      CheckSolutionSound(g);
    }
    if IsSolution(g) {
      SolutionPassesCheck(g);
    }
  }

  /** Nine distinct digits are all nine digits. */
  lemma NineDistinctDigits(s: seq<char>)
    requires |s| == 9 && Distinct(s)
    requires forall k :: 0 <= k < 9 ==> s[k] in Digits
    ensures ToSet(s) == Digits
  {
    DistinctIffSetSize(s);
    var a := ToSet(s);
    assert |Digits| == 9;
    assert Digits == a + (Digits - a);
    assert a * (Digits - a) == {};
    assert |Digits - a| == 0;
  }

  /** In a solution every row, column and block holds each of the nine
      digits exactly once. */
  lemma SolutionUnitsArePermutations(g: Grid, p: Pos)
    requires IsSolution(g) && InRange(p)
    ensures Distinct(Row(g, p)) && ToSet(Row(g, p)) == Digits
    ensures Distinct(Col(g, p)) && ToSet(Col(g, p)) == Digits
    ensures Distinct(Block(g, p)) && ToSet(Block(g, p)) == Digits
  {
    SolutionRowDistinct(g, p);
    SolutionColDistinct(g, p);
    SolutionBlockDistinct(g, p);
    forall k | 0 <= k < 9
      ensures Row(g, p)[k] in Digits && Col(g, p)[k] in Digits && Block(g, p)[k] in Digits
    {
      assert Row(g, p)[k] == At(g, Pos(p.row, k));
      assert Col(g, p)[k] == At(g, Pos(k, p.col));
      assert Block(g, p)[k] == At(g, BlockPos(p, k));
    }
    NineDistinctDigits(Row(g, p));
    NineDistinctDigits(Col(g, p));
    NineDistinctDigits(Block(g, p));
  }
}
