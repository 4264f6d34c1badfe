/** The rectangular grid that src/labpyrinth/maze.py works on: bounds, the
    border and interior positions, where the start and the goal may go, and
    why a depth-first walk over the grid reaches every cell. */
module Grid {
  import opened Wrappers
  import opened Geometry

  /** `Maze._in_bounds`; `Maze._out_of_bounds` is its negation. No
      position is in bounds on an empty grid, and on a non-empty one both
      extreme corners are. */
  predicate InBounds(width: int, height: int, c: Coordinate)
    ensures InBounds(width, height, c) ==> 0 < width && 0 < height
    ensures 0 < width && 0 < height && (c == Coordinate(0, 0) || c == Coordinate(width - 1, height - 1))
            ==> InBounds(width, height, c)
  {
    0 <= c.x < width && 0 <= c.y < height
  }

  /** `all_positions`: the full `[0, width) x [0, height)` grid. */
  function AllPositions(width: int, height: int): (r: set<Coordinate>)
    ensures forall c :: c in r <==> InBounds(width, height, c)
  {
    var r := set x: int, y: int | 0 <= x < width && 0 <= y < height :: Coordinate(x, y);
    assert forall c :: InBounds(width, height, c) ==> c in r by {
      forall c | InBounds(width, height, c) ensures c in r {
        assert c == Coordinate(c.x, c.y);
      }
    }
    r
  }

  /** `inside`: grid positions on neither the first nor the last row or
      column. */
  function Inside(width: int, height: int): (r: set<Coordinate>)
    ensures r <= AllPositions(width, height)
    ensures width >= 3 && height >= 3 ==> Coordinate(1, 1) in r
  {
    set c | c in AllPositions(width, height)
            && c.x !in {0, width - 1} && c.y !in {0, height - 1}
  }

  /** `circumference`: the remaining grid positions. */
  function Circumference(width: int, height: int): (r: set<Coordinate>)
    ensures r <= AllPositions(width, height)
    ensures r !! Inside(width, height)
  {
    AllPositions(width, height) - Inside(width, height)
  }

  predicate OnBorder(width: int, height: int, c: Coordinate)
  {
    c.x == 0 || c.x == width - 1 || c.y == 0 || c.y == height - 1
  }

  /** The interior and the border split the grid; the border is exactly the
      first and last rows and columns. */
  lemma BorderPartition(width: int, height: int)
    ensures Inside(width, height) * Circumference(width, height) == {}
    ensures Inside(width, height) + Circumference(width, height) == AllPositions(width, height)
    ensures forall c :: c in Circumference(width, height)
                        <==> InBounds(width, height, c) && OnBorder(width, height, c)
    ensures forall c :: c in Inside(width, height)
                        <==> 1 <= c.x <= width - 2 && 1 <= c.y <= height - 2
  {
  }

  /** A border position is on the grid, and on a non-empty grid the corner
      (0, 0) is one. */
  lemma BorderPosition(width: int, height: int, c: Coordinate)
    ensures c in Circumference(width, height) ==> InBounds(width, height, c) && OnBorder(width, height, c)
    ensures width >= 1 && height >= 1 ==> Coordinate(0, 0) in Circumference(width, height)
  {
  }

  /** `next(filter(out_of_bounds, positions))`: the first position off the
      grid, or `None` where Python would raise `StopIteration`. */
  function FirstOffGrid(width: int, height: int, ps: seq<Coordinate>): (r: Option<Coordinate>)
    ensures r.None? <==> forall q :: q in ps ==> InBounds(width, height, q)
    ensures r.Some? ==>
              exists i :: 0 <= i < |ps| && ps[i] == r.value && !InBounds(width, height, ps[i])
                          && forall j :: 0 <= j < i ==> InBounds(width, height, ps[j])
  {
    if ps == [] then None
    else if !InBounds(width, height, ps[0]) then Some(ps[0])
    else
      var r := FirstOffGrid(width, height, ps[1..]);
      assert r.Some? ==> exists i :: 0 <= i < |ps| && ps[i] == r.value && !InBounds(width, height, ps[i])
                                     && forall j :: 0 <= j < i ==> InBounds(width, height, ps[j]) by {
        if r.Some? {
          var i :| 0 <= i < |ps[1..]| && ps[1..][i] == r.value && !InBounds(width, height, ps[1..][i])
                   && forall j :: 0 <= j < i ==> InBounds(width, height, ps[1..][j]);
          assert ps[i + 1] == r.value;
          forall j | 0 <= j < i + 1 ensures InBounds(width, height, ps[j]) {
            if j > 0 { assert ps[j] == ps[1..][j - 1]; }
          }
        }
      }
      assert ps == [ps[0]] + ps[1..];
      r
  }

  /** A border cell has a neighbour off the grid, in some direction. */
  lemma {:induction false} BorderCellLeadsOffGrid(width: int, height: int, c: Coordinate)
    requires c in Circumference(width, height)
    ensures exists i :: 0 <= i < 4 && !InBounds(width, height, c.Add(DirectionOrder[i]))
  {
    BorderPartition(width, height);
    if c.y == 0 {
      assert !InBounds(width, height, c.Add(DirectionOrder[0]));
    } else if c.y == height - 1 {
      assert !InBounds(width, height, c.Add(DirectionOrder[1]));
    } else if c.x == 0 {
      assert !InBounds(width, height, c.Add(DirectionOrder[2]));
    } else {
      assert !InBounds(width, height, c.Add(DirectionOrder[3]));
    }
  }

  // ------------------------------------------------------------------
  // The 3x3 goal
  // ------------------------------------------------------------------

  /** The centres `choose_end` picks from, as written: both ranges are
      `range(4, width - 3)`. */
  function GoalCentresAsWritten(width: int, height: int): (r: set<Coordinate>)
    ensures forall c :: c in r ==> 4 <= c.x <= width - 4 && 4 <= c.y <= width - 4
  {
    set x: int, y: int | 4 <= x < width - 3 && 4 <= y < width - 3 :: Coordinate(x, y)
  }

  /** The centres with the y range taken from the height. */
  function GoalCentres(width: int, height: int): set<Coordinate>
  {
    set x: int, y: int | 4 <= x < width - 3 && 4 <= y < height - 3 :: Coordinate(x, y)
  }

  /** The nine cells `goal_centre + (x, y)` for `x, y` in `range(-1, 2)`. */
  function GoalCells(centre: Coordinate): (r: set<Coordinate>)
    ensures centre in r
  {
    {centre.Add(Coordinate(-1, -1)), centre.Add(Coordinate(-1, 0)), centre.Add(Coordinate(-1, 1)),
     centre.Add(Coordinate(0, -1)), centre.Add(Coordinate(0, 0)), centre.Add(Coordinate(0, 1)),
     centre.Add(Coordinate(1, -1)), centre.Add(Coordinate(1, 0)), centre.Add(Coordinate(1, 1))}
  }

  predicate InGoal(centre: Coordinate, p: Coordinate)
  {
    Abs(p.x - centre.x) <= 1 && Abs(p.y - centre.y) <= 1
  }

  /** The goal cells are those within one step of the centre on each axis. */
  lemma GoalCellsCharacterised(centre: Coordinate)
    ensures forall p :: p in GoalCells(centre) <==> InGoal(centre, p)
  {
    forall p | InGoal(centre, p) ensures p in GoalCells(centre) {
      assert p == centre.Add(Coordinate(p.x - centre.x, p.y - centre.y));
    }
  }

  /** Membership of the as-written centre set: both coordinates lie in
      `[4, width - 4]`. */
  lemma GoalCentresAsWrittenRange(width: int, height: int, c: Coordinate)
    ensures c in GoalCentresAsWritten(width, height)
            <==> 4 <= c.x <= width - 4 && 4 <= c.y <= width - 4
  {
    if 4 <= c.x <= width - 4 && 4 <= c.y <= width - 4 {
      assert c == Coordinate(c.x, c.y);
    }
  }

  /** Every goal cell around a centre of `GoalCentres` lies inside, with at
      least two cells between it and the outside of the grid, and a maze of
      at least 9x9 has such a centre. */
  lemma GoalCentresPlacement(width: int, height: int, c: Coordinate)
    ensures c in GoalCentres(width, height)
            <==> 4 <= c.x <= width - 4 && 4 <= c.y <= height - 4
    ensures c in GoalCentres(width, height) ==>
              forall p :: p in GoalCells(c) ==>
                3 <= p.x <= width - 3 && 3 <= p.y <= height - 3 && p in Inside(width, height)
    ensures width >= 9 && height >= 9 ==> Coordinate(4, 4) in GoalCentres(width, height)
  {
    GoalCellsCharacterised(c);
    BorderPartition(width, height);
    if 4 <= c.x <= width - 4 && 4 <= c.y <= height - 4 {
      assert c == Coordinate(c.x, c.y);
    }
    if c in GoalCentres(width, height) {
      forall p | p in GoalCells(c)
        ensures 3 <= p.x <= width - 3 && 3 <= p.y <= height - 3 && p in Inside(width, height)
      {
        assert InGoal(c, p);
      }
    }
    if width >= 9 && height >= 9 {
      assert Coordinate(4, 4) in GoalCentres(width, height);
    }
  }

  /** A goal block around a centre of `GoalCentres` holds its centre,
      lies on the grid and misses every border position. */
  lemma GoalMissesBorder(width: int, height: int, centre: Coordinate, c: Coordinate)
    requires centre in GoalCentres(width, height) && c in Circumference(width, height)
    ensures centre in GoalCells(centre) && InBounds(width, height, centre)
    ensures GoalCells(centre) <= AllPositions(width, height)
    ensures c !in GoalCells(centre)
  {
    GoalCentresPlacement(width, height, centre);
    BorderPartition(width, height);
    assert centre == centre.Add(Coordinate(0, 0));
  }

  /** On a square grid the two centre sets agree; when the grid is at least
      as tall as it is wide the as-written set is one of the corrected ones. */
  lemma GoalCentresAgreeWhenTall(width: int, height: int)
    ensures height >= width ==> GoalCentresAsWritten(width, height) <= GoalCentres(width, height)
    ensures GoalCentresAsWritten(width, width) == GoalCentres(width, width)
  {
  }

  /** On a grid taller than it is wide the corrected set also holds the
      centres whose `y` lies in `(width - 4, height - 4]`, and only those
      beyond the as-written ones; on a 9-wide, 12-tall maze (4, 8) is one. */
  lemma GoalCentresWiderWhenTaller(width: int, height: int, c: Coordinate)
    ensures height >= width ==>
              (c in GoalCentres(width, height) - GoalCentresAsWritten(width, height)
               <==> 4 <= c.x <= width - 4 && width - 4 < c.y <= height - 4)
    ensures Coordinate(4, 8) in GoalCentres(9, 12) - GoalCentresAsWritten(9, 12)
  {
    GoalCentresPlacement(width, height, c);
    GoalCentresAsWrittenRange(width, height, c);
    GoalCentresPlacement(9, 12, Coordinate(4, 8));
    GoalCentresAsWrittenRange(9, 12, Coordinate(4, 8));
  }

  /** As written, a 12x9 maze can get the centre (4, 8), whose goal cell
      (4, 9) is off the grid, so `self[coord]` raises `KeyError`. */
  lemma GoalCentreAsWrittenLeavesGrid()
    ensures Coordinate(4, 8) in GoalCentresAsWritten(12, 9)
    ensures Coordinate(4, 9) in GoalCells(Coordinate(4, 8))
    ensures !InBounds(12, 9, Coordinate(4, 9))
    ensures Coordinate(4, 8) !in GoalCentres(12, 9)
  {
    assert Coordinate(4, 9) == Coordinate(4, 8).Add(Coordinate(0, 1));
    GoalCentresAsWrittenRange(12, 9, Coordinate(4, 8));
    GoalCentresPlacement(12, 9, Coordinate(4, 8));
  }

  /** As written, a 12x9 maze can also get the centre (4, 7), whose goal
      cell (4, 8) lies on the border, where the start may already be: once
      the line calling `Square.vector_to` is fixed, the start then becomes a
      goal square. */
  lemma GoalAsWrittenMeetsBorder()
    ensures Coordinate(4, 7) in GoalCentresAsWritten(12, 9)
    ensures Coordinate(4, 7) !in GoalCentres(12, 9)
    ensures Coordinate(4, 8) in GoalCells(Coordinate(4, 7)) && Coordinate(4, 8) in Circumference(12, 9)
  {
    GoalCentresAsWrittenRange(12, 9, Coordinate(4, 7));
    GoalCentresPlacement(12, 9, Coordinate(4, 7));
    assert Coordinate(4, 8) == Coordinate(4, 7).Add(Coordinate(0, 1));
    assert InBounds(12, 9, Coordinate(4, 8));
  }

  /** The directions a goal cell is pre-linked in: toward its in-bounds
      neighbours that are in `goal` too. */
  function GoalLinks(width: int, height: int, goal: set<Coordinate>, p: Coordinate): (r: set<Coordinate>)
    ensures r <= AllDirections
  {
    set d | d in AllDirections && InBounds(width, height, p.Add(d)) && p.Add(d) in goal
  }

  /** A goal link of `p` is the direction toward an adjacent goal cell on
      the grid, and every such direction is one. */
  lemma GoalLinkToward(width: int, height: int, goal: set<Coordinate>, p: Coordinate, q: Coordinate)
    requires Adjacent(p, q)
    ensures q.Sub(p) in GoalLinks(width, height, goal, p)
            <==> InBounds(width, height, q) && q in goal
    ensures p.Add(q.Sub(p)) == q
  {
    DirectionsAreUnitSteps(q.Sub(p));
    assert p.Add(q.Sub(p)) == q;
  }

  /** Where a goal link of `p` leads. */
  lemma GoalLinkTarget(width: int, height: int, goal: set<Coordinate>, p: Coordinate, d: Coordinate)
    requires d in GoalLinks(width, height, goal, p)
    ensures d in AllDirections && Adjacent(p, p.Add(d)) && p.Add(d).Sub(p) == d
    ensures InBounds(width, height, p.Add(d)) && p.Add(d) in goal
  {
    DirectionsAreUnitSteps(d);
  }

  /** Pre-set goal links come in opposite pairs, and the centre is linked on
      all four sides. */
  lemma GoalLinksSymmetric(width: int, height: int, centre: Coordinate, p: Coordinate, d: Coordinate)
    requires InBounds(width, height, p) && p in GoalCells(centre)
    ensures d in GoalLinks(width, height, GoalCells(centre), p)
            ==> d.Neg() in GoalLinks(width, height, GoalCells(centre), p.Add(d))
    ensures InBounds(width, height, centre) && GoalCells(centre) <= AllPositions(width, height)
            ==> GoalLinks(width, height, GoalCells(centre), centre) == AllDirections
  {
    GoalCellsCharacterised(centre);
    if d in GoalLinks(width, height, GoalCells(centre), p) {
      assert p.Add(d).Add(d.Neg()) == p;
    }
    if InBounds(width, height, centre) && GoalCells(centre) <= AllPositions(width, height) {
      forall e | e in AllDirections ensures e in GoalLinks(width, height, GoalCells(centre), centre) {
        assert InGoal(centre, centre.Add(e));
      }
    }
  }

  /** Whenever the goal block lies on the grid, every goal square has a
      goal square beside it, so the loop of `choose_end` always reaches the
      link it adds toward one (the line that, as written, calls the missing
      `Square.vector_to`). The block lies on the grid for every corrected
      centre, and for every as-written one when `height >= width`. */
  lemma GoalSquareHasGoalNeighbour(width: int, height: int, centre: Coordinate, p: Coordinate)
    requires GoalCells(centre) <= AllPositions(width, height) && p in GoalCells(centre)
    ensures GoalLinks(width, height, GoalCells(centre), p) != {}
  {
    GoalCellsCharacterised(centre);
    var d := if p == centre then Up
             else if p.x != centre.x then Coordinate(centre.x - p.x, 0)
             else Coordinate(0, centre.y - p.y);
    assert InGoal(centre, p);
    DirectionsAreUnitSteps(d);
    assert InGoal(centre, p.Add(d));
    assert d in GoalLinks(width, height, GoalCells(centre), p);
  }

  /** The goal block lies on the grid for every corrected centre, and for
      every as-written centre of a grid at least as tall as it is wide. */
  lemma GoalBlockOnGrid(width: int, height: int, centre: Coordinate)
    ensures centre in GoalCentres(width, height) ==> GoalCells(centre) <= AllPositions(width, height)
    ensures height >= width && centre in GoalCentresAsWritten(width, height)
            ==> GoalCells(centre) <= AllPositions(width, height)
  {
    GoalCentresAgreeWhenTall(width, height);
    GoalCentresPlacement(width, height, centre);
    BorderPartition(width, height);
  }

  // ------------------------------------------------------------------
  // Reachability
  // ------------------------------------------------------------------

  /** One step in any direction from `reach` to a position of `region`
      stays in `reach`. */
  predicate Closed(region: set<Coordinate>, reach: set<Coordinate>)
  {
    forall a, i :: a in reach && 0 <= i < 4 && a.Add(DirectionOrder[i]) in region
                   ==> a.Add(DirectionOrder[i]) in reach
  }

  lemma {:induction false} WalkRow(region: set<Coordinate>, reach: set<Coordinate>, y: int, from: int, to: int)
    requires Closed(region, reach) && Coordinate(from, y) in reach
    requires forall x :: (from <= x <= to || to <= x <= from) ==> Coordinate(x, y) in region
    ensures Coordinate(to, y) in reach
    decreases Abs(to - from)
  {
    if from < to {
      assert Coordinate(from, y).Add(DirectionOrder[3]) == Coordinate(from + 1, y);
      WalkRow(region, reach, y, from + 1, to);
    } else if to < from {
      assert Coordinate(from, y).Add(DirectionOrder[2]) == Coordinate(from - 1, y);
      WalkRow(region, reach, y, from - 1, to);
    }
  }

  lemma {:induction false} WalkColumn(region: set<Coordinate>, reach: set<Coordinate>, x: int, from: int, to: int)
    requires Closed(region, reach) && Coordinate(x, from) in reach
    requires forall y :: (from <= y <= to || to <= y <= from) ==> Coordinate(x, y) in region
    ensures Coordinate(x, to) in reach
    decreases Abs(to - from)
  {
    if from < to {
      assert Coordinate(x, from).Add(DirectionOrder[1]) == Coordinate(x, from + 1);
      WalkColumn(region, reach, x, from + 1, to);
    } else if to < from {
      assert Coordinate(x, from).Add(DirectionOrder[0]) == Coordinate(x, from - 1);
      WalkColumn(region, reach, x, from - 1, to);
    }
  }

  /** The grid less `blocked`, where `blocked` is nothing or a goal block. */
  function Region(width: int, height: int, blocked: set<Coordinate>): set<Coordinate>
  {
    AllPositions(width, height) - blocked
  }

  /** Inside a closed set, every open cell and the corner (0, 0) are
      reachable from each other: go straight to the first row or column,
      then along it to the corner, passing beside the goal block. */
  lemma ReachCorner(width: int, height: int, centre: Coordinate, blocked: set<Coordinate>,
                    reach: set<Coordinate>, p: Coordinate)
    requires blocked == {} || blocked == GoalCells(centre)
    requires 2 <= centre.x && 2 <= centre.y
    requires Closed(Region(width, height, blocked), reach)
    requires p in Region(width, height, blocked)
    ensures p in reach <==> Coordinate(0, 0) in reach
  {
    var region := Region(width, height, blocked);
    GoalCellsCharacterised(centre);
    if blocked == {} || p.x < centre.x - 1 || p.x > centre.x + 1 {
      assert forall y :: (p.y <= y <= 0 || 0 <= y <= p.y) ==> Coordinate(p.x, y) in region;
      assert forall x :: (p.x <= x <= 0 || 0 <= x <= p.x) ==> Coordinate(x, 0) in region;
      if p in reach {
        WalkColumn(region, reach, p.x, p.y, 0);
        WalkRow(region, reach, 0, p.x, 0);
      }
      if Coordinate(0, 0) in reach {
        WalkRow(region, reach, 0, 0, p.x);
        WalkColumn(region, reach, p.x, 0, p.y);
      }
    } else {
      assert p.y < centre.y - 1 || p.y > centre.y + 1;
      assert forall x :: (p.x <= x <= 0 || 0 <= x <= p.x) ==> Coordinate(x, p.y) in region;
      assert forall y :: (p.y <= y <= 0 || 0 <= y <= p.y) ==> Coordinate(0, y) in region;
      if p in reach {
        WalkRow(region, reach, p.y, p.x, 0);
        WalkColumn(region, reach, 0, p.y, 0);
      }
      if Coordinate(0, 0) in reach {
        WalkColumn(region, reach, 0, 0, p.y);
        WalkRow(region, reach, p.y, 0, p.x);
      }
    }
  }

  /** A set closed under steps within the region that holds one open cell
      holds all of them. */
  lemma ClosedRegionCovered(width: int, height: int, centre: Coordinate, blocked: set<Coordinate>,
                            reach: set<Coordinate>, p: Coordinate)
    requires blocked == {} || blocked == GoalCells(centre)
    requires 2 <= centre.x && 2 <= centre.y
    requires Closed(Region(width, height, blocked), reach)
    requires p in reach && p in Region(width, height, blocked)
    ensures Region(width, height, blocked) <= reach
  {
    ReachCorner(width, height, centre, blocked, reach, p);
    forall q | q in Region(width, height, blocked) ensures q in reach {
      ReachCorner(width, height, centre, blocked, reach, q);
    }
  }

  /** With nothing blocked, a set closed under steps within the grid that
      holds one grid position holds them all. */
  lemma ClosedGridCovered(width: int, height: int, reach: set<Coordinate>, p: Coordinate)
    requires Closed(AllPositions(width, height), reach)
    requires p in reach && InBounds(width, height, p)
    ensures AllPositions(width, height) <= reach
  {
    assert Region(width, height, {}) == AllPositions(width, height);
    ClosedRegionCovered(width, height, Coordinate(2, 2), {}, reach, p);
  }
}
