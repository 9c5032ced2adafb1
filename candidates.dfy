/** find_possible_values: the digits that may still be written into a cell,
    and what they mean for the rules and for completions of the grid. */
module Candidates {
  import opened Grid
  import opened Rules

  /** `d` is a digit that occurs in none of the row, column and block of `p`. */
  predicate Allowed(g: Grid, p: Pos, d: char)
    requires IsShape(g) && InRange(p)
  {
    d in Digits && d !in Row(g, p) && d !in Col(g, p) && d !in Block(g, p)
  }

  /** find_possible_values: removes the block's values from the nine digits,
      then keeps those found neither in the row nor in the column. The set of
      free values is visited in no particular order. */
  method FindPossibleValues(g: Grid, pos: Pos) returns (possible: set<char>)
    requires IsShape(g) && InRange(pos)
    ensures possible <= Digits
    ensures forall d :: d in possible <==> Allowed(g, pos, d)
  {
    var row := Row(g, pos);
    var col := GetCol(g, pos);
    var block := GetBlock(g, pos);
    var blockValues := set v | v in block;
    var freeValues := Digits - blockValues;
    possible := {};
    var remaining := freeValues;
    while remaining != {}
      invariant remaining <= freeValues
      invariant forall d :: d in possible <==> d in freeValues && d !in remaining && d !in row && d !in col
      decreases |remaining|
    {
      var value :| value in remaining;
      remaining := remaining - {value};
      if value in row || value in col {
        continue;
      }
      possible := possible + {value};
    }
  }

  /** A digit is a candidate exactly when no cell sharing a unit with `p`
      holds it. */
  lemma AllowedIffNoPeerHolds(g: Grid, p: Pos, d: char)
    requires IsShape(g) && InRange(p)
    ensures Allowed(g, p, d) <==>
            d in Digits && forall q :: InRange(q) && SameUnit(p, q) ==> At(g, q) != d
  {
    InViews(g, p, d);
  }

  /** Writing a candidate into an empty cell of a grid that breaks no rule
      gives a grid that breaks no rule. */
  lemma PlaceKeepsConsistent(g: Grid, p: Pos, d: char)
    requires IsShape(g) && InRange(p) && Consistent(g)
    requires At(g, p) == Empty && Allowed(g, p, d)
    ensures Consistent(Place(g, p, d))
  {
    AllowedIffNoPeerHolds(g, p, d);
    var h := Place(g, p, d);
    forall q1, q2 | InRange(q1) && InRange(q2) && q1 != q2 && SameUnit(q1, q2) && At(h, q1) != Empty
      ensures At(h, q1) != At(h, q2)
    {
      if q1 == p {
        assert At(g, q2) != d;
      } else if q2 == p {
        assert SameUnit(p, q1) && At(g, q1) != d;
      }
    }
  }

  /** The value a solution gives an empty cell is one of its candidates, and
      the solution still completes the grid once that value is written. */
  lemma SolutionPicksCandidate(g: Grid, s: Grid, p: Pos)
    requires IsShape(g) && IsShape(s) && IsSolution(s) && Extends(s, g)
    requires InRange(p) && At(g, p) == Empty
    ensures Allowed(g, p, At(s, p))
    ensures Extends(s, Place(g, p, At(s, p)))
  {
    var d := At(s, p);
    forall q | InRange(q) && SameUnit(p, q)
      ensures At(g, q) != d
    {
      if q != p && At(g, q) != Empty {
        assert At(s, q) == At(g, q);
      }
    }
    AllowedIffNoPeerHolds(g, p, d);
  }

  /** A completable grid has, at any empty cell, a candidate whose placement
      is still completable. */
  lemma SolvableHasCandidate(g: Grid, p: Pos)
    requires IsShape(g) && InRange(p) && At(g, p) == Empty
    ensures Solvable(g) ==> exists d :: Allowed(g, p, d) && Solvable(Place(g, p, d))
  {
    if Solvable(g) {
      var s :| IsShape(s) && IsSolution(s) && Extends(s, g);
      SolutionPicksCandidate(g, s, p);
      assert Solvable(Place(g, p, At(s, p)));
    }
  }

  /** When every candidate of an empty cell has been tried and none is
      completable, the grid is not completable. */
  lemma NoCandidateCompletes(g: Grid, p: Pos, possible: set<char>)
    requires IsShape(g) && InRange(p) && At(g, p) == Empty
    requires forall d :: d in possible <==> Allowed(g, p, d)
    requires forall d :: d in possible ==> !Solvable(Place(g, p, d))
    ensures !Solvable(g)
  {
    SolvableHasCandidate(g, p);
  }

  /** A completion found after writing a candidate into an empty cell also
      completes the grid before the write, and is a solution when that grid
      broke no rule. */
  lemma CompletionThroughCandidate(g: Grid, p: Pos, d: char, h: Grid)
    requires IsShape(g) && InRange(p) && At(g, p) == Empty && Allowed(g, p, d)
    requires IsShape(h) && Extends(h, Place(g, p, d))
    requires Consistent(Place(g, p, d)) ==> IsSolution(h)
    ensures Extends(h, g)
    ensures Consistent(g) ==> IsSolution(h)
  {
    forall q | InRange(q) && At(g, q) != Empty
      ensures At(h, q) == At(g, q)
    {
      assert q != p && At(Place(g, p, d), q) == At(g, q);
    }
    if Consistent(g) {
      PlaceKeepsConsistent(g, p, d);
    }
  }

  /** Writing a digit keeps a grid well-formed. */
  lemma PlaceWellFormed(g: Grid, p: Pos, v: char)
    requires WellFormed(g) && InRange(p) && IsCellChar(v)
    ensures WellFormed(Place(g, p, v))
  {
  }
}
