/** The Sudoku rules the engine relies on: which cells constrain each other,
    when a grid breaks no rule, what a solution is, and when a partial grid
    can still be completed. */
module Rules {
  import opened Grid

  /** Two positions share a row, a column or a 3×3 block. */
  predicate SameUnit(p: Pos, q: Pos)
  {
    p.row == q.row || p.col == q.col || (p.row / 3 == q.row / 3 && p.col / 3 == q.col / 3)
  }

  /** No digit occurs twice in a row, a column or a block. */
  ghost predicate Consistent(g: Grid)
    requires IsShape(g)
  {
    forall p, q :: InRange(p) && InRange(q) && p != q && SameUnit(p, q) && At(g, p) != Empty ==>
      At(g, p) != At(g, q)
  }

  /** A solved Sudoku: every cell holds a digit and no rule is broken. */
  ghost predicate IsSolution(g: Grid)
  {
    IsShape(g) && (forall p :: InRange(p) ==> At(g, p) in Digits) && Consistent(g)
  }

  /** `s` keeps every filled cell of `g`. */
  ghost predicate Extends(s: Grid, g: Grid)
    requires IsShape(s) && IsShape(g)
  {
    forall p :: InRange(p) && At(g, p) != Empty ==> At(s, p) == At(g, p)
  }

  /** Some solution keeps every filled cell of `g`. */
  ghost predicate Solvable(g: Grid)
    requires IsShape(g)
  {
    exists s :: IsShape(s) && IsSolution(s) && Extends(s, g)
  }

  /** A value seen in a view of `p` sits in a cell sharing a unit with `p`. */
  lemma ViewValueHasPeer(g: Grid, p: Pos, v: char)
    requires IsShape(g) && InRange(p)
    requires v in Row(g, p) || v in Col(g, p) || v in Block(g, p)
    ensures exists q :: InRange(q) && SameUnit(p, q) && At(g, q) == v
  {
    if v in Row(g, p) {
      var j :| 0 <= j < 9 && Row(g, p)[j] == v;
      assert At(g, Pos(p.row, j)) == v;
    } else if v in Col(g, p) {
      var i :| 0 <= i < 9 && Col(g, p)[i] == v;
      assert At(g, Pos(i, p.col)) == v;
    } else {
      var k :| 0 <= k < 9 && Block(g, p)[k] == v;
      assert SameUnit(p, BlockPos(p, k));
    }
  }

  /** The value of a cell sharing a unit with `p` is seen in a view of `p`. */
  lemma PeerValueInViews(g: Grid, p: Pos, q: Pos)
    requires IsShape(g) && InRange(p) && InRange(q) && SameUnit(p, q)
    ensures At(g, q) in Row(g, p) || At(g, q) in Col(g, p) || At(g, q) in Block(g, p)
  {
    if q.row == p.row {
      assert Row(g, p)[q.col] == At(g, q);
    } else if q.col == p.col {
      assert Col(g, p)[q.row] == At(g, q);
    } else {
      BlockPosIndex(p, q);
      assert Block(g, p)[(q.row % 3) * 3 + q.col % 3] == At(g, q);
    }
  }

  /** get_row, get_col and get_block together see exactly the values of
      the cells that share a row, a column or a block with `p`. */
  lemma InViews(g: Grid, p: Pos, v: char)
    requires IsShape(g) && InRange(p)
    ensures (v in Row(g, p) || v in Col(g, p) || v in Block(g, p)) <==>
            exists q :: InRange(q) && SameUnit(p, q) && At(g, q) == v
  {
    if v in Row(g, p) || v in Col(g, p) || v in Block(g, p) {
      ViewValueHasPeer(g, p, v);
    }
    if q :| InRange(q) && SameUnit(p, q) && At(g, q) == v {
      PeerValueInViews(g, p, q);
    }
  }

  /** Emptying cells of a solution leaves a grid that breaks no rule. */
  lemma ExtendedIsConsistent(s: Grid, g: Grid)
    requires IsShape(s) && IsShape(g) && IsSolution(s) && Extends(s, g)
    ensures Consistent(g)
  {
    forall p, q | InRange(p) && InRange(q) && p != q && SameUnit(p, q) && At(g, p) != Empty
      ensures At(g, p) != At(g, q)
    {
      if At(g, q) != Empty {
        assert At(s, p) != At(s, q);
      }
    }
  }

  /** A grid that can be completed to a solution breaks no rule. */
  lemma SolvableIsConsistent(g: Grid)
    requires IsShape(g) && Solvable(g)
    ensures Consistent(g)
  {
    var s :| IsShape(s) && IsSolution(s) && Extends(s, g);
    ExtendedIsConsistent(s, g);
  }

  /** A full, well-formed grid that breaks no rule is its own completion. */
  lemma FullConsistentIsSolution(g: Grid)
    requires WellFormed(g) && Full(g) && Consistent(g)
    ensures IsSolution(g) && Solvable(g)
  {
    forall p | InRange(p)
      ensures At(g, p) in Digits
    {
      assert IsCellChar(At(g, p));
    }
    assert Extends(g, g);
  }
}
