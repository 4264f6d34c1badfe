/** The maze generator of src/labpyrinth/maze.py: a randomized depth-first
    walk from a border cell to a 3x3 goal, followed by a phase that grows
    dead-end branches off the solution path. `random.choice` is a
    nondeterministic choice (`:|`). */
module Mazes {
  import opened Wrappers
  import opened Geometry
  import opened Grid

  /** Widths and heights the constructor accepts. */
  type Dimension = n: int | 9 <= n witness 9

  datatype MazeError = ValueError(message: string)

  /** `Maze(width, height)`: raises `ValueError` below 9x9. */
  method NewMaze(width: int, height: int) returns (r: Result<Maze, MazeError>)
    ensures r.Err? <==> width < 9 || height < 9
    ensures r.Err? ==> r.error == ValueError("Maze must be at least 9x9")
    ensures r.Ok? ==> fresh(r.value) && r.value.width == width && r.value.height == height
                      && r.value.Valid() && r.value.Pristine()
                      && forall p :: p in r.value.grid ==> fresh(r.value.grid[p])
  {
    if width < 9 || height < 9 {
      return Err(ValueError("Maze must be at least 9x9"));
    }
    var maze := new Maze(width, height);
    return Ok(maze);
  }

  /** The index of the first occurrence of `x` in `s`. */
  function IndexOf<T(==)>(s: seq<T>, x: T): (i: nat)
    requires x in s
    ensures i < |s| && s[i] == x && x !in s[..i]
  {
    if s[0] == x then 0
    else
      var j := IndexOf(s[1..], x);
      assert s[..j + 1] == [s[0]] + s[1..][..j];
      j + 1
  }

  /** `list.remove(x)`: drops the first occurrence of `x` and keeps the
      other elements in their order. */
  function RemoveFirst<T(==)>(s: seq<T>, x: T): (r: seq<T>)
    requires x in s
    ensures |r| == |s| - 1
    ensures multiset(r) == multiset(s) - multiset{x}
    ensures forall y :: y in r ==> y in s
    ensures forall y :: y in s && y != x ==> y in r
  {
    var i := IndexOf(s, x);
    assert s == s[..i] + [x] + s[i + 1..];
    s[..i] + s[i + 1..]
  }

  /** `list.remove` takes out the first occurrence of `x` and keeps the
      order of everything else. */
  lemma RemoveFirstDropsFirst<T>(s: seq<T>, x: T)
    requires x in s
    ensures exists i :: 0 <= i < |s| && s[i] == x && x !in s[..i] && RemoveFirst(s, x) == s[..i] + s[i + 1..]
  {
    var i := IndexOf(s, x);
    assert s[i] == x && x !in s[..i] && RemoveFirst(s, x) == s[..i] + s[i + 1..];
  }

  /** Removing the last element of a sequence without repeats leaves the
      prefix before it. */
  lemma RemoveFirstOfLast<T>(s: seq<T>)
    requires |s| > 0 && Distinct(s)
    ensures RemoveFirst(s, s[|s| - 1]) == s[..|s| - 1]
  {
    var i := IndexOf(s, s[|s| - 1]);
    assert i == |s| - 1;
  }

  /** The positions of `squares`, in order. */
  function Positions(squares: seq<Square>): (r: seq<Coordinate>)
    ensures |r| == |squares|
  {
    if squares == [] then [] else [squares[0].position] + Positions(squares[1..])
  }

  /** `a` is `b` with some elements left out and the rest kept in order. */
  predicate Subsequence<T(==)>(a: seq<T>, b: seq<T>)
  {
    a == [] || (b != [] && ((a[0] == b[0] && Subsequence(a[1..], b[1..])) || Subsequence(a, b[1..])))
  }

  /** The squares of `squares` that are not visited (the candidates of the
      primary walk). */
  function NotVisited(squares: seq<Square>): (r: seq<Square>)
    reads squares
    ensures forall s :: s in r ==> s in squares && !s.Visited()
    ensures forall s :: s in squares && !s.Visited() ==> s in r
  {
    if squares == [] then []
    else (if squares[0].Visited() then [] else [squares[0]]) + NotVisited(squares[1..])
  }

  /** The directions from `here` toward those of `neighbours` that are
      among `targets`. */
  function LinksToward(here: Coordinate, neighbours: seq<Square>, targets: set<Square>): (r: set<Coordinate>)
    ensures forall s :: s in neighbours && s in targets ==> s.position.Sub(here) in r
  {
    set s | s in neighbours && s in targets :: s.position.Sub(here)
  }

  /** One more neighbour adds its direction exactly when it is a target. */
  lemma LinksTowardAppend(here: Coordinate, neighbours: seq<Square>, next: Square, targets: set<Square>)
    ensures LinksToward(here, neighbours + [next], targets)
            == LinksToward(here, neighbours, targets) + (if next in targets then {next.position.Sub(here)} else {})
  {
    forall d | d in LinksToward(here, neighbours + [next], targets)
      ensures d in LinksToward(here, neighbours, targets) || (next in targets && d == next.position.Sub(here))
    {
      var s :| s in neighbours + [next] && s in targets && d == s.position.Sub(here);
      if s != next {
        assert s in neighbours;
      }
    }
  }

  /** The squares of `squares` that are not assigned (the candidates of the
      branching phase). */
  function NotAssigned(squares: seq<Square>): (r: seq<Square>)
    reads squares
    ensures forall s :: s in r ==> s in squares && !s.Assigned()
    ensures forall s :: s in squares && !s.Assigned() ==> s in r
  {
    if squares == [] then []
    else (if squares[0].Assigned() then [] else [squares[0]]) + NotAssigned(squares[1..])
  }

  /** A walk: no square twice, every square visited, and each square linked
      from the one before it. */
  ghost predicate IsPath(steps: seq<Square>)
    reads steps
  {
    Distinct(steps)
    && (forall i :: 0 <= i < |steps| ==> steps[i].Visited())
    && forall i :: 0 <= i < |steps| - 1 ==> Linked(steps[i], steps[i + 1])
  }

  class Maze {
    const width: Dimension
    const height: Dimension
    const allPositions: set<Coordinate> := AllPositions(width, height)
    const inside: set<Coordinate> := Inside(width, height)
    const circumference: set<Coordinate> := Circumference(width, height)

    var grid: map<Coordinate, Square>
    var solution: seq<Square>

    /** One square per grid position, holding that position. */
    ghost predicate WellFormed()
      reads this`grid
    {
      (forall p :: p in grid <==> InBounds(width, height, p)) && forall p :: p in grid ==> grid[p].position == p
    }

    /** A well-formed grid, and the walk made of its squares. */
    ghost predicate Valid()
      reads this
    {
      WellFormed() && forall i :: 0 <= i < |solution| ==> solution[i] in grid.Values
    }

    /** The state `reset` leaves: every square blank and the walk empty. */
    ghost predicate Pristine()
      reads this, grid.Values
    {
      solution == [] && forall p :: p in grid ==> grid[p].Blank()
    }

    constructor (width: Dimension, height: Dimension)
      ensures this.width == width && this.height == height
      ensures Valid() && Pristine()
      ensures forall p :: p in grid ==> fresh(grid[p])
    {
      this.width := width;
      this.height := height;
      new;
      Reset();
    }

    /** `reset`: a fresh square for every position and an empty walk, so
        the state afterwards does not depend on the state before. */
    method Reset()
      modifies this
      ensures Valid() && Pristine()
      ensures forall p :: p in grid ==> fresh(grid[p])
    {
      var remaining := allPositions;
      var cells: map<Coordinate, Square> := map[];
      while remaining != {}
        invariant remaining <= allPositions
        invariant cells.Keys == allPositions - remaining
        invariant forall p :: p in cells ==> fresh(cells[p]) && cells[p].position == p && cells[p].Blank()
        decreases remaining
      {
        var p :| p in remaining;
        var square := new Square(p);
        cells := cells[p := square];
        remaining := remaining - {p};
      }
      grid := cells;
      solution := [];
    }

    /** `__getitem__`: the square at a position, `None` where the lookup
        would raise `KeyError`. */
    function At(position: Coordinate): (r: Option<Square>)
      reads this`grid
      requires WellFormed()
      ensures r.Some? <==> InBounds(width, height, position)
      ensures r.Some? ==> r.value in grid.Values && r.value.position == position
    {
      if position in grid then Some(grid[position]) else None
    }

    /** The squares at those positions that are in bounds, in order. */
    function SquaresAt(positions: seq<Coordinate>): (r: seq<Square>)
      reads this`grid
      requires WellFormed()
      ensures forall s :: s in r ==> s in grid.Values && s.position in positions
      ensures forall s :: s in grid.Values && s.position in positions ==> s in r
      ensures Distinct(positions) ==> Distinct(r)
      ensures Subsequence(Positions(r), positions)
    {
      if positions == [] then []
      else
        var rest := SquaresAt(positions[1..]);
        assert positions == [positions[0]] + positions[1..];
        assert Distinct(positions) ==> Distinct(positions[1..]) && positions[0] !in positions[1..] by {
          if Distinct(positions) {
            forall i, j | 0 <= i < j < |positions[1..]| ensures positions[1..][i] != positions[1..][j] {
              assert positions[1..][i] == positions[i + 1] && positions[1..][j] == positions[j + 1];
            }
            forall i | 0 <= i < |positions[1..]| ensures positions[1..][i] != positions[0] {
              assert positions[1..][i] == positions[i + 1];
            }
          }
        }
        var r := (if InBounds(width, height, positions[0]) then [grid[positions[0]]] else []) + rest;
        assert Subsequence(Positions(r), positions) by {
          var a := Positions(r);
          if InBounds(width, height, positions[0]) {
            assert r[1..] == rest;
            assert a == [r[0].position] + Positions(rest);
            assert a[0] == positions[0] && a[1..] == Positions(rest);
          } else {
            assert r == rest;
          }
        }
        r
    }

    /** `_neighbours`: the grid squares next to `square`. */
    function Neighbours(square: Square): (r: seq<Square>)
      reads this`grid
      requires WellFormed() && square in grid.Values
      ensures Distinct(r)
      ensures forall s :: s in r ==> s in grid.Values && Adjacent(square.position, s.position)
      ensures forall s :: s in grid.Values && Adjacent(square.position, s.position) ==> s in r
    {
      SquaresAt(square.NeighbourPositions())
    }

    /** The positions of the squares that are not visited. */
    ghost function UnvisitedPositions(): set<Coordinate>
      reads this`grid, grid.Values
    {
      set p | p in grid && !grid[p].Visited()
    }

    /** The termination measure of both walks: twice the number of
        unvisited squares plus the length of the list being walked. */
    ghost function Measure(steps: seq<Square>): nat
      reads this`grid, grid.Values
    {
      2 * |UnvisitedPositions()| + |steps|
    }

    /** `choose_start`: a border square becomes the one-element walk, marked
        as start and entered from a position off the grid. */
    method ChooseStart() returns (start: Square)
      requires WellFormed()
      modifies this`solution, grid.Values
      ensures Valid()
      ensures start in grid.Values && start.position in circumference
      ensures solution == [start]
      ensures start.isStart && start.connectedFrom.Some?
      ensures start.connectedFrom.value in AllDirections
      ensures !InBounds(width, height, start.position.Add(start.connectedFrom.value))
      ensures start.connectedTo == old(start.connectedTo) && start.isEnd == old(start.isEnd)
      ensures forall p :: p in grid && grid[p] != start ==> grid[p].Kept()
    {
      BorderPosition(width, height, Coordinate(0, 0));
      assert Coordinate(0, 0) in circumference;
      var choice :| choice in circumference;
      BorderPosition(width, height, choice);
      var square := grid[choice];
      solution := [square];
      var neighbour := OffGridNeighbour(square);
      start := square.StartFrom(neighbour);
    }

    /** The first of the positions next to a border square that lies off
        the grid (`next(filter(self._out_of_bounds, ...))`); it is one step
        away in one of the four directions. */
    function OffGridNeighbour(square: Square): (r: Coordinate)
      requires square.position in circumference
      ensures Some(r) == FirstOffGrid(width, height, square.NeighbourPositions())
      ensures r.Sub(square.position) in AllDirections && !InBounds(width, height, r)
    {
      var positions := square.NeighbourPositions();
      var neighbour := FirstOffGrid(width, height, positions);
      BorderCellLeadsOffGrid(width, height, square.position);
      assert neighbour.Some? by {
        var i :| 0 <= i < 4 && !InBounds(width, height, square.position.Add(DirectionOrder[i]));
        assert positions[i] == square.position.Add(DirectionOrder[i]);
      }
      assert neighbour.value.Sub(square.position) in AllDirections by {
        var i :| 0 <= i < 4 && positions[i] == neighbour.value;
        assert neighbour.value.Sub(square.position) == DirectionOrder[i];
        DirectionsAreUnitSteps(DirectionOrder[i]);
      }
      neighbour.value
    }

    /** The body of the `choose_end` loop for one square: mark it as a goal
        square and add the direction toward each of `neighbours` that is
        one of `goalSquares`. */
    method MarkGoalSquare(square: Square, neighbours: seq<Square>, goalSquares: set<Square>)
      modifies square
      ensures square.isEnd
      ensures square.connectedTo == old(square.connectedTo) + LinksToward(square.position, neighbours, goalSquares)
      ensures square.connectedFrom == old(square.connectedFrom) && square.isStart == old(square.isStart)
    {
      square.isEnd := true;
      var k := 0;
      while k < |neighbours|
        invariant 0 <= k <= |neighbours|
        invariant square.isEnd && square.connectedFrom == old(square.connectedFrom) && square.isStart == old(square.isStart)
        invariant square.connectedTo
                  == old(square.connectedTo) + LinksToward(square.position, neighbours[..k], goalSquares)
      {
        var neighbour := neighbours[k];
        LinksTowardAppend(square.position, neighbours[..k], neighbour, goalSquares);
        assert neighbours[..k + 1] == neighbours[..k] + [neighbour];
        if neighbour in goalSquares {
          // `square.vector_to(neighbour)`: the direction toward the neighbour
          square.connectedTo := square.connectedTo + {neighbour.position.Sub(square.position)};
        }
        k := k + 1;
      }
      assert neighbours[..k] == neighbours;
    }

    /** Toward its grid neighbours, a square of the goal gets exactly the
        links that `GoalLinks` describes. */
    lemma GoalSquareLinks(square: Square, goalSquares: set<Square>, goal: set<Coordinate>)
      requires WellFormed() && square in grid.Values
      requires forall s :: s in goalSquares ==> s in grid.Values && s.position in goal
      requires forall p :: p in grid && p in goal ==> grid[p] in goalSquares
      ensures LinksToward(square.position, Neighbours(square), goalSquares)
              == GoalLinks(width, height, goal, square.position)
    {
      var p := square.position;
      var neighbours := Neighbours(square);
      forall d | d in LinksToward(p, neighbours, goalSquares) ensures d in GoalLinks(width, height, goal, p) {
        var s :| s in neighbours && s in goalSquares && d == s.position.Sub(p);
        var q :| q in grid && grid[q] == s;
        assert q == s.position;
        GoalLinkToward(width, height, goal, p, s.position);
      }
      forall d | d in GoalLinks(width, height, goal, p) ensures d in LinksToward(p, neighbours, goalSquares) {
        GoalLinkTarget(width, height, goal, p, d);
        var q := p.Add(d);
        assert grid[q] in goalSquares && grid[q] in grid.Values;
        assert grid[q] in neighbours;
      }
    }

    /** `choose_end`: pick a centre and make its 3x3 block the goal, each
        goal square linked toward the goal squares beside it. */
    method ChooseEnd() returns (centre: Coordinate)
      requires WellFormed()
      modifies grid.Values
      ensures centre in GoalCentres(width, height)
      ensures GoalCells(centre) <= allPositions
      ensures forall p :: p in grid ==> grid[p].isEnd == (old(grid[p].isEnd) || p in GoalCells(centre))
      ensures forall p :: p in grid ==>
                grid[p].connectedTo
                == old(grid[p].connectedTo)
                   + (if p in GoalCells(centre) then GoalLinks(width, height, GoalCells(centre), p) else {})
      ensures forall p :: p in grid ==>
                grid[p].connectedFrom == old(grid[p].connectedFrom) && grid[p].isStart == old(grid[p].isStart)
    {
      GoalCentresPlacement(width, height, Coordinate(4, 4));
      centre :| centre in GoalCentres(width, height);
      GoalCentresPlacement(width, height, centre);
      BorderPartition(width, height);
      MarkGoal(GoalCells(centre));
    }

    /** A square at the position of a goal that the loop below has done
        is marked and carries the goal links; any other square is as it
        was. */
    twostate predicate MarkedSoFar(s: Square, goal: set<Coordinate>, pending: set<Coordinate>)
      reads s
    {
      s.connectedFrom == old(s.connectedFrom) && s.isStart == old(s.isStart)
      && if s.position in goal && s.position !in pending
         then s.isEnd && s.connectedTo == old(s.connectedTo) + GoalLinks(width, height, goal, s.position)
         else s.isEnd == old(s.isEnd) && s.connectedTo == old(s.connectedTo)
    }

    /** The loop of `choose_end` over the squares at the positions of
        `goal`. */
    method MarkGoal(goal: set<Coordinate>)
      requires WellFormed() && goal <= allPositions
      modifies grid.Values
      ensures forall p :: p in grid ==> grid[p].isEnd == (old(grid[p].isEnd) || p in goal)
      ensures forall p :: p in grid ==>
                grid[p].connectedTo
                == old(grid[p].connectedTo) + (if p in goal then GoalLinks(width, height, goal, p) else {})
      ensures forall p :: p in grid ==>
                grid[p].connectedFrom == old(grid[p].connectedFrom) && grid[p].isStart == old(grid[p].isStart)
    {
      var goalSquares := set p | p in goal :: grid[p];
      assert forall s :: s in goalSquares ==> s in grid.Values && s.position in goal;
      var pending := goal;
      while pending != {}
        invariant pending <= goal
        invariant forall s :: s in goalSquares ==> s in grid.Values && s.position in goal
        invariant forall p :: p in grid && p in goal ==> grid[p] in goalSquares
        invariant forall p :: p in grid ==> MarkedSoFar(grid[p], goal, pending)
        decreases pending
      {
        var position :| position in pending;
        var square := grid[position];
        var neighbours := Neighbours(square);
        GoalSquareLinks(square, goalSquares, goal);
        label Before:
        MarkGoalSquare(square, neighbours, goalSquares);
        forall p | p in grid ensures MarkedSoFar(grid[p], goal, pending - {position}) {
          if p == position {
            assert grid[p] == square;
          } else {
            assert grid[p].position == p;
            assert grid[p] != square;
            assert unchanged@Before(grid[p]);
          }
        }
        pending := pending - {position};
      }
    }

    /** When `there` becomes visited and no other square changes whether
        it is visited, the unvisited positions lose exactly `there`'s. */
    twostate lemma VisitsOne(new there: Square)
      requires grid == old(grid) && WellFormed() && there in grid.Values && there.Visited()
      requires forall s :: s in grid.Values && s != there ==>
                 s.connectedFrom == old(s.connectedFrom) && s.isStart == old(s.isStart)
      ensures UnvisitedPositions() == old(UnvisitedPositions()) - {there.position}
    {
      forall p | p in grid
        ensures p in UnvisitedPositions() <==> p in old(UnvisitedPositions()) && p != there.position
      {
        assert grid[p] == there <==> p == there.position;
      }
    }

    /** `_next`: with candidates, link one of them from `here` and append
        it; without, remove `here`. The measure drops either way when the
        candidates are unvisited. */
    method Next(here: Square, steps: seq<Square>, possible: seq<Square>)
      returns (newSteps: seq<Square>, reported: Square)
      requires WellFormed() && here in grid.Values && here in steps
      requires forall s :: s in possible ==> s in grid.Values && s != here
      modifies grid.Values
      ensures possible != [] ==> reported in possible && newSteps == steps + [reported]
      ensures possible != [] ==>
                reported.connectedFrom == Some(here.position.Sub(reported.position))
                && reported.connectedTo == old(reported.connectedTo)
                && here.connectedTo == old(here.connectedTo) + {reported.position.Sub(here.position)}
                && here.connectedFrom == old(here.connectedFrom)
      ensures possible != [] ==> UnvisitedPositions() == old(UnvisitedPositions()) - {reported.position}
      ensures possible == [] ==> reported == here && newSteps == RemoveFirst(steps, here)
      ensures forall s :: s in grid.Values ==> s.isStart == old(s.isStart) && s.isEnd == old(s.isEnd)
      ensures forall s :: s in grid.Values && (possible == [] || (s != here && s != reported)) ==> unchanged(s)
      ensures forall s :: s in grid.Values && s != reported ==>
                s.connectedFrom == old(s.connectedFrom) && old(s.connectedTo) <= s.connectedTo
      ensures possible != [] && Adjacent(here.position, reported.position) ==> Linked(here, reported)
      ensures (forall s :: s in possible ==> !old(s.Visited())) ==> Measure(newSteps) < old(Measure(steps))
    {
      if possible != [] {
        assert possible[0] in possible;
        var there :| there in possible;
        reported := there.LinkedFrom(here);
        newSteps := steps + [reported];
        VisitsOne(reported);
      } else {
        newSteps := RemoveFirst(steps, here);
        reported := here;
      }
    }

    /** The positions of the visited squares. */
    ghost function VisitedPositions(): set<Coordinate>
      reads this`grid, grid.Values
    {
      set p | p in grid && grid[p].Visited()
    }

    /** Every visited square that `steps` no longer holds has only visited
        neighbours: the walk has nothing left to explore from it. */
    ghost predicate Explored(steps: seq<Square>)
      reads this`grid, grid.Values
    {
      forall p, q :: p in grid && q in grid && Adjacent(p, q) && grid[p].Visited() && grid[p] !in steps
                     ==> grid[q].Visited()
    }

    /** Once the walk holds nothing, the visited positions are closed under
        steps within the grid. */
    lemma ExploredClosed()
      requires WellFormed() && Explored([])
      ensures Closed(allPositions, VisitedPositions())
    {
      forall a, i | a in VisitedPositions() && 0 <= i < 4 && a.Add(DirectionOrder[i]) in allPositions
        ensures a.Add(DirectionOrder[i]) in VisitedPositions()
      {
        StepIsAdjacent(a, i);
      }
    }

    /** The state the first loop of `create` keeps: `steps` is a walk of
        grid squares with nothing left to explore behind it, some square is
        a goal square, no goal square is entered before the walk's last
        one, and none is visited while the walk has not reached one. */
    ghost predicate Walk(steps: seq<Square>)
      reads this`grid, grid.Values
    {
      WellFormed() && |steps| > 0
      && (forall i :: 0 <= i < |steps| ==> steps[i] in grid.Values)
      && IsPath(steps) && Explored(steps)
      && (forall i :: 0 <= i < |steps| - 1 ==> !steps[i].isEnd)
      && (exists p :: p in grid && grid[p].isEnd)
      && (!steps[|steps| - 1].isEnd ==> forall p :: p in grid && grid[p].isEnd ==> !grid[p].Visited())
    }

    /** A forward step keeps a path a path: the last square of `walk` was
        unvisited and is now linked from the one before it, and every
        other square kept its parent and at most gained children. */
    twostate lemma ForwardKeepsPath(walk: seq<Square>)
      requires |walk| >= 2 && old(IsPath(walk[..|walk| - 1]))
      requires !old(walk[|walk| - 1].Visited()) && Linked(walk[|walk| - 2], walk[|walk| - 1])
      requires forall i :: 0 <= i < |walk| - 1 ==>
                 walk[i].connectedFrom == old(walk[i].connectedFrom) && walk[i].isStart == old(walk[i].isStart)
                 && old(walk[i].connectedTo) <= walk[i].connectedTo
      ensures IsPath(walk)
    {
      var steps := walk[..|walk| - 1];
      assert forall i :: 0 <= i < |steps| ==> walk[i] == steps[i];
      forall i, j | 0 <= i < j < |walk| ensures walk[i] != walk[j] {
        if j < |steps| {
          assert steps[i] != steps[j];
        } else {
          assert old(steps[i].Visited());
        }
      }
      forall i | 0 <= i < |walk| - 1 ensures Linked(walk[i], walk[i + 1]) {
        if i < |steps| - 1 {
          assert old(Linked(steps[i], steps[i + 1]));
        }
      }
    }

    /** A forward step leaves nothing to explore behind the walk: the only
        newly visited square is the one the walk now ends in. */
    twostate lemma ForwardKeepsExplored(walk: seq<Square>)
      requires |walk| >= 2 && grid == old(grid) && old(WellFormed()) && old(Explored(walk[..|walk| - 1]))
      requires forall s :: s in grid.Values && s != walk[|walk| - 1] ==> s.Visited() == old(s.Visited())
      requires walk[|walk| - 1].Visited()
      ensures Explored(walk)
    {
      forall p, q | p in grid && q in grid && Adjacent(p, q) && grid[p].Visited() && grid[p] !in walk
        ensures grid[q].Visited()
      {
        assert grid[p] in grid.Values && grid[q] in grid.Values;
        assert grid[p] !in walk[..|walk| - 1];
      }
    }

    /** A forward step keeps a walk a walk: `there` was unvisited and is
        now linked from the last square of `steps`, and every other square
        kept its parent and at most gained children. */
    twostate lemma ForwardKeepsWalk(steps: seq<Square>, new there: Square)
      requires grid == old(grid) && old(Walk(steps)) && !old(steps[|steps| - 1].isEnd)
      requires there in grid.Values && old(allocated(there)) && !old(there.Visited())
      requires Linked(steps[|steps| - 1], there)
      requires forall s :: s in grid.Values ==> s.isStart == old(s.isStart) && s.isEnd == old(s.isEnd)
      requires forall s :: s in grid.Values && s != there ==>
                 s.connectedFrom == old(s.connectedFrom) && old(s.connectedTo) <= s.connectedTo
      ensures Walk(steps + [there])
    {
      var walk := steps + [there];
      assert walk[..|walk| - 1] == steps;
      assert forall i :: 0 <= i < |steps| ==> walk[i] == steps[i] && steps[i] in grid.Values;
      ForwardKeepsPath(walk);
      ForwardKeepsExplored(walk);
      ghost var target :| old(target in grid && grid[target].isEnd);
      assert grid[target] in grid.Values;
      if !there.isEnd {
        forall p | p in grid && grid[p].isEnd ensures !grid[p].Visited() {
          assert grid[p] in grid.Values;
        }
      }
    }

    /** A walk stays a walk while no square changes. */
    twostate lemma WalkKept(walk: seq<Square>)
      requires grid == old(grid) && old(Walk(walk))
      requires forall s :: s in grid.Values ==> unchanged(s)
      ensures Walk(walk)
    {
    }

    /** Dropping the last square of a walk, when all its neighbours are
        visited, leaves nothing to explore behind the shorter walk. */
    lemma BackKeepsExplored(steps: seq<Square>)
      requires WellFormed() && |steps| > 0 && Explored(steps)
      requires forall s :: s in grid.Values && Adjacent(steps[|steps| - 1].position, s.position) ==> s.Visited()
      ensures Explored(steps[..|steps| - 1])
    {
      var walk := steps[..|steps| - 1];
      forall p, q | p in grid && q in grid && Adjacent(p, q) && grid[p].Visited() && grid[p] !in walk
        ensures grid[q].Visited()
      {
        if grid[p] != steps[|steps| - 1] {
          assert grid[p] !in steps;
        } else {
          assert grid[q] in grid.Values;
        }
      }
    }

    /** A walk that is not at a goal square never empties: an empty walk
        would leave the visited squares closed under steps, so a goal
        square would be visited already. */
    lemma WalkNeverEmpties(steps: seq<Square>)
      requires Walk(steps) && !steps[|steps| - 1].isEnd
      requires forall s :: s in grid.Values && Adjacent(steps[|steps| - 1].position, s.position) ==> s.Visited()
      ensures |steps| >= 2
    {
      if |steps| == 1 {
        var here := steps[0];
        BackKeepsExplored(steps);
        assert steps[..0] == [];
        ghost var target :| target in grid && grid[target].isEnd;
        assert grid[here.position] == here;
        ExploredClosed();
        ClosedGridCovered(width, height, VisitedPositions(), here.position);
        assert false;
      }
    }

    /** A step back from a square with no unvisited neighbour keeps the walk
        a walk. */
    lemma BackKeepsWalk(steps: seq<Square>)
      requires Walk(steps) && !steps[|steps| - 1].isEnd
      requires forall s :: s in grid.Values && Adjacent(steps[|steps| - 1].position, s.position) ==> s.Visited()
      ensures |steps| >= 2
      ensures Walk(RemoveFirst(steps, steps[|steps| - 1]))
    {
      RemoveFirstOfLast(steps);
      WalkNeverEmpties(steps);
      BackKeepsExplored(steps);
      var walk := steps[..|steps| - 1];
      assert forall i :: 0 <= i < |walk| ==> walk[i] == steps[i];
    }

    /** The walk that holds only a square that is not a goal square, with
        only that square visited and some goal square present, is a walk. */
    lemma WalkBegins(start: Square)
      requires WellFormed() && start in grid.Values && !start.isEnd
      requires exists p :: p in grid && grid[p].isEnd
      requires forall p :: p in grid ==> (grid[p].Visited() <==> grid[p] == start)
      ensures Walk([start])
    {
      assert grid[start.position] == start;
    }

    /** The first loop of `create`: a depth-first walk from the one square
        of `solution` that stops on the first goal square it enters. `_next`
        extends or shrinks the list it is given; here that list is the
        returned walk, which `create` keeps as `solution`. */
    method PrimaryWalk() returns (walk: seq<Square>)
      requires WellFormed() && |solution| == 1 && solution[0] in grid.Values && !solution[0].isEnd
      requires exists p :: p in grid && grid[p].isEnd
      requires forall p :: p in grid ==> (grid[p].Visited() <==> grid[p] == solution[0])
      requires Tree()
      modifies grid.Values
      ensures Walk(walk) && walk[|walk| - 1].isEnd && walk[0] == solution[0] && Tree()
      ensures forall s :: s in grid.Values ==>
                s.isStart == old(s.isStart) && s.isEnd == old(s.isEnd)
                && (old(s.Visited()) ==> s.connectedFrom == old(s.connectedFrom))
                && (s.isEnd ==> s.connectedTo == old(s.connectedTo))
    {
      WalkBegins(solution[0]);
      walk := solution;
      while !walk[|walk| - 1].isEnd
        invariant Walk(walk) && walk[0] == solution[0] && Tree()
        invariant forall s :: s in grid.Values ==>
                  s.isStart == old(s.isStart) && s.isEnd == old(s.isEnd)
                  && (old(s.Visited()) ==> s.connectedFrom == old(s.connectedFrom))
                  && (s.isEnd ==> s.connectedTo == old(s.connectedTo))
        decreases Measure(walk)
      {
        walk := WalkStep(walk);
      }
    }

    /** One pass of the first loop of `create`: step from the walk's last
        square to an unvisited neighbour, or drop that square when it has
        none. */
    method WalkStep(steps: seq<Square>) returns (newSteps: seq<Square>)
      requires Walk(steps) && !steps[|steps| - 1].isEnd && Tree()
      modifies grid.Values
      ensures Walk(newSteps) && newSteps[0] == steps[0] && Tree()
      ensures Measure(newSteps) < old(Measure(steps))
      ensures forall s :: s in grid.Values ==>
                s.isStart == old(s.isStart) && s.isEnd == old(s.isEnd)
                && (old(s.Visited()) ==> s.connectedFrom == old(s.connectedFrom))
                && (s.isEnd ==> s.connectedTo == old(s.connectedTo))
    {
      var here := steps[|steps| - 1];
      var candidates := NotVisited(Neighbours(here));
      if candidates == [] {
        newSteps := WalkBack(steps, candidates);
      } else {
        newSteps := WalkForward(steps, candidates);
      }
    }

    /** `_next` with unvisited candidates next to the walk's last square. */
    method WalkForward(steps: seq<Square>, candidates: seq<Square>) returns (newSteps: seq<Square>)
      requires Walk(steps) && !steps[|steps| - 1].isEnd && candidates != []
      requires forall s :: s in candidates ==>
                 s in grid.Values && Adjacent(steps[|steps| - 1].position, s.position) && !s.Visited()
      requires Tree()
      modifies grid.Values
      ensures Walk(newSteps) && newSteps[0] == steps[0] && Tree()
      ensures Measure(newSteps) < old(Measure(steps))
      ensures forall s :: s in grid.Values ==>
                s.isStart == old(s.isStart) && s.isEnd == old(s.isEnd)
                && (old(s.Visited()) ==> s.connectedFrom == old(s.connectedFrom))
                && (s.isEnd ==> s.connectedTo == old(s.connectedTo))
    {
      var there;
      newSteps, there := Next(steps[|steps| - 1], steps, candidates);
      ForwardKeepsWalk(steps, there);
      TreeGrows(steps[|steps| - 1], there);
    }

    /** `_next` with no candidate: every neighbour of the walk's last
        square is visited. */
    method WalkBack(steps: seq<Square>, candidates: seq<Square>) returns (newSteps: seq<Square>)
      requires Walk(steps) && !steps[|steps| - 1].isEnd && candidates == []
      requires forall s :: s in grid.Values && Adjacent(steps[|steps| - 1].position, s.position) ==> s.Visited()
      requires Tree()
      modifies grid.Values
      ensures Walk(newSteps) && newSteps[0] == steps[0] && Tree()
      ensures Measure(newSteps) < old(Measure(steps))
      ensures forall s :: s in grid.Values ==> unchanged(s)
      ensures forall s :: s in grid.Values ==>
                s.isStart == old(s.isStart) && s.isEnd == old(s.isEnd)
                && (old(s.Visited()) ==> s.connectedFrom == old(s.connectedFrom))
                && (s.isEnd ==> s.connectedTo == old(s.connectedTo))
    {
      BackKeepsWalk(steps);
      var here;
      newSteps, here := Next(steps[|steps| - 1], steps, candidates);
      WalkKept(newSteps);
      TreeKept();
    }

    /** Every visited square that is not a goal square and that `remainder`
        no longer holds has only assigned neighbours. */
    ghost predicate BranchesExplored(remainder: seq<Square>)
      reads this`grid, grid.Values
    {
      forall p, q :: p in grid && q in grid && Adjacent(p, q) && grid[p].Visited() && !grid[p].isEnd
                     && grid[p] !in remainder
                     ==> grid[q].Assigned()
    }

    /** The state the second loop of `create` keeps: `remainder` holds
        visited grid squares that are not goal squares, and nothing is left
        to explore behind it. */
    ghost predicate Growing(remainder: seq<Square>)
      reads this`grid, grid.Values
    {
      WellFormed()
      && (forall i :: 0 <= i < |remainder| ==> remainder[i] in grid.Values)
      && (forall i :: 0 <= i < |remainder| ==> remainder[i].Visited() && !remainder[i].isEnd)
      && BranchesExplored(remainder)
    }

    /** The solution without its goal square is where the branches start. */
    lemma WalkStartsGrowing(steps: seq<Square>)
      requires Walk(steps) && steps[|steps| - 1].isEnd
      ensures Growing(steps[..|steps| - 1])
    {
      var remainder := steps[..|steps| - 1];
      forall p, q | p in grid && q in grid && Adjacent(p, q) && grid[p].Visited() && !grid[p].isEnd
                    && grid[p] !in remainder
        ensures grid[q].Assigned()
      {
        assert grid[p] !in steps;
      }
    }

    /** A forward step keeps the branching state: `there` was unassigned
        and is now visited, and every other square kept its parent. */
    twostate lemma ForwardKeepsGrowing(remainder: seq<Square>, new there: Square)
      requires grid == old(grid) && old(Growing(remainder))
      requires there in grid.Values && old(allocated(there)) && !old(there.Assigned()) && there.Visited()
      requires forall s :: s in grid.Values ==> s.isStart == old(s.isStart) && s.isEnd == old(s.isEnd)
      requires forall s :: s in grid.Values && s != there ==> s.connectedFrom == old(s.connectedFrom)
      ensures Growing(remainder + [there])
    {
      var grown := remainder + [there];
      assert forall s :: s in grid.Values && old(s.Visited()) ==> s.Visited();
      assert forall s :: s in grid.Values && old(s.Assigned()) ==> s.Assigned();
      forall i | 0 <= i < |grown| ensures grown[i] in grid.Values && grown[i].Visited() && !grown[i].isEnd {
        if i < |remainder| {
          assert grown[i] == remainder[i];
          assert old(remainder[i].Visited() && !remainder[i].isEnd);
        }
      }
      forall p, q | p in grid && q in grid && Adjacent(p, q) && grid[p].Visited() && !grid[p].isEnd
                    && grid[p] !in grown
        ensures grid[q].Assigned()
      {
        assert grid[p] in grid.Values && grid[q] in grid.Values;
        assert old(grid[p].Visited()) && grid[p] !in remainder;
      }
    }

    /** The branching state stays while no square changes. */
    twostate lemma GrowingKept(remainder: seq<Square>)
      requires grid == old(grid) && old(Growing(remainder))
      requires forall s :: s in grid.Values ==> unchanged(s)
      ensures Growing(remainder)
    {
    }

    /** Dropping a square whose neighbours are all assigned keeps the
        branching state. */
    lemma BackKeepsGrowing(remainder: seq<Square>, here: Square)
      requires Growing(remainder) && here in remainder
      requires forall s :: s in grid.Values && Adjacent(here.position, s.position) ==> s.Assigned()
      ensures Growing(RemoveFirst(remainder, here))
    {
      var shrunk := RemoveFirst(remainder, here);
      forall i | 0 <= i < |shrunk| ensures shrunk[i] in grid.Values && shrunk[i].Visited() && !shrunk[i].isEnd {
        assert shrunk[i] in remainder;
      }
      forall p, q | p in grid && q in grid && Adjacent(p, q) && grid[p].Visited() && !grid[p].isEnd
                    && grid[p] !in shrunk
        ensures grid[q].Assigned()
      {
        if grid[p] != here {
          assert grid[p] !in remainder;
        } else {
          assert grid[q] in grid.Values;
        }
      }
    }

    /** When the branches are done, every square is assigned: the visited
        squares outside the goal block are closed under steps that avoid
        the block, so they cover everything outside it. */
    lemma GrownCovered(centre: Coordinate, start: Square)
      requires Growing([]) && 2 <= centre.x && 2 <= centre.y
      requires forall p :: p in grid ==> (grid[p].isEnd <==> p in GoalCells(centre))
      requires start in grid.Values && start.Visited() && !start.isEnd
      ensures forall p :: p in grid ==> grid[p].Assigned()
    {
      var region := Region(width, height, GoalCells(centre));
      var reach := set p | p in grid && grid[p].Visited() && !grid[p].isEnd;
      forall a, i | a in reach && 0 <= i < 4 && a.Add(DirectionOrder[i]) in region
        ensures a.Add(DirectionOrder[i]) in reach
      {
        StepIsAdjacent(a, i);
      }
      assert grid[start.position] == start;
      ClosedRegionCovered(width, height, centre, GoalCells(centre), reach, start.position);
      forall p | p in grid ensures grid[p].Assigned() {
        if p !in GoalCells(centre) {
          assert p in region;
        }
      }
    }

    /** Visited squares keep their parents and squares only gain children,
        so a walk stays a walk. */
    twostate lemma PathKept(path: seq<Square>)
      requires old(IsPath(path))
      requires forall i :: 0 <= i < |path| ==>
                 path[i].connectedFrom == old(path[i].connectedFrom) && path[i].isStart == old(path[i].isStart)
                 && old(path[i].connectedTo) <= path[i].connectedTo
      ensures IsPath(path)
    {
      forall i | 0 <= i < |path| - 1 ensures Linked(path[i], path[i + 1]) {
        assert old(Linked(path[i], path[i + 1]));
      }
    }

    /** The second loop of `create`: grow dead-end branches from the
        squares of `remainder` until it is empty. It leaves the goal
        squares as they are, keeps every visited square's parent and only
        adds children, so `path` (the walk `solution` holds) stays a walk. */
    method GrowBranches(remainder: seq<Square>, ghost path: seq<Square>)
      requires Growing(remainder) && IsPath(path)
      requires forall i :: 0 <= i < |path| ==> path[i] in grid.Values
      requires Tree()
      modifies grid.Values
      ensures Growing([]) && IsPath(path) && Tree()
      ensures forall s :: s in grid.Values ==>
                s.isStart == old(s.isStart) && s.isEnd == old(s.isEnd)
                && (old(s.Visited()) ==> s.connectedFrom == old(s.connectedFrom))
                && (s.isEnd ==> s.Kept())
    {
      var rest := remainder;
      while rest != []
        invariant Growing(rest) && Tree()
        invariant forall s :: s in grid.Values ==>
                  s.isStart == old(s.isStart) && s.isEnd == old(s.isEnd)
                  && (old(s.Visited()) ==> s.connectedFrom == old(s.connectedFrom))
                  && old(s.connectedTo) <= s.connectedTo
                  && (s.isEnd ==> s.Kept())
        decreases Measure(rest)
      {
        rest := BranchStep(rest);
      }
      PathKept(path);
    }

    /** One pass of the second loop of `create`: pick the end of the
        remainder or a random square of it, then step from there to an
        unassigned neighbour, or drop it when it has none. */
    method BranchStep(remainder: seq<Square>) returns (newRemainder: seq<Square>)
      requires Growing(remainder) && remainder != [] && Tree()
      modifies grid.Values
      ensures Growing(newRemainder) && Tree()
      ensures Measure(newRemainder) < old(Measure(remainder))
      ensures forall s :: s in grid.Values ==>
                s.isStart == old(s.isStart) && s.isEnd == old(s.isEnd)
                && (old(s.Visited()) ==> s.connectedFrom == old(s.connectedFrom))
                && old(s.connectedTo) <= s.connectedTo
                && (s.isEnd ==> s.Kept())
    {
      var end := remainder[|remainder| - 1];
      assert end in remainder;
      var any :| any in remainder;
      assert any in [any, end];
      var here :| here in [any, end];
      assert here in remainder;
      var candidates := NotAssigned(Neighbours(here));
      if candidates == [] {
        newRemainder := BranchBack(remainder, here, candidates);
      } else {
        newRemainder := BranchForward(remainder, here, candidates);
      }
    }

    /** `_next` from `here` with unassigned candidates next to it. */
    method BranchForward(remainder: seq<Square>, here: Square, candidates: seq<Square>)
      returns (newRemainder: seq<Square>)
      requires Growing(remainder) && here in remainder && candidates != []
      requires forall s :: s in candidates ==>
                 s in grid.Values && Adjacent(here.position, s.position) && !s.Assigned()
      requires Tree()
      modifies grid.Values
      ensures Growing(newRemainder) && Tree()
      ensures Measure(newRemainder) < old(Measure(remainder))
      ensures forall s :: s in grid.Values ==>
                s.isStart == old(s.isStart) && s.isEnd == old(s.isEnd)
                && (old(s.Visited()) ==> s.connectedFrom == old(s.connectedFrom))
                && old(s.connectedTo) <= s.connectedTo
                && (s.isEnd ==> s.Kept())
    {
      var there;
      newRemainder, there := Next(here, remainder, candidates);
      ForwardKeepsGrowing(remainder, there);
      TreeGrows(here, there);
    }

    /** `_next` from `here` with no candidate: every neighbour of `here`
        is assigned. */
    method BranchBack(remainder: seq<Square>, here: Square, candidates: seq<Square>)
      returns (newRemainder: seq<Square>)
      requires Growing(remainder) && here in remainder && candidates == []
      requires forall s :: s in grid.Values && Adjacent(here.position, s.position) ==> s.Assigned()
      requires Tree()
      modifies grid.Values
      ensures Growing(newRemainder) && Tree()
      ensures Measure(newRemainder) < old(Measure(remainder))
      ensures forall s :: s in grid.Values ==> unchanged(s)
      ensures forall s :: s in grid.Values ==>
                s.isStart == old(s.isStart) && s.isEnd == old(s.isEnd)
                && (old(s.Visited()) ==> s.connectedFrom == old(s.connectedFrom))
                && old(s.connectedTo) <= s.connectedTo
                && (s.isEnd ==> s.Kept())
    {
      BackKeepsGrowing(remainder, here);
      var dropped;
      newRemainder, dropped := Next(here, remainder, candidates);
      GrowingKept(newRemainder);
      TreeKept();
    }

    /** The square at `p` was entered from a parent: the position its
        `connected_from` points at holds a visited square linked to it in
        both directions, one level less deep. */
    ghost predicate ParentLinked(p: Coordinate, depth: map<Coordinate, nat>)
      reads this`grid, grid.Values
    {
      p in grid && grid[p].connectedFrom.Some?
      && var q := p.Add(grid[p].connectedFrom.value);
         q in grid && grid[q].Visited() && Linked(grid[q], grid[p])
         && p in depth && q in depth && depth[p] == depth[q] + 1
    }

    /** The direction `d` of the square at `p` leads to a child: `p` is
        visited and the square at `p + d` is linked to it in both
        directions. */
    ghost predicate ChildLinked(p: Coordinate, d: Coordinate)
      reads this`grid, grid.Values
    {
      p in grid && grid[p].Visited() && p.Add(d) in grid && Linked(grid[p], grid[p.Add(d)])
    }

    /** The links form a tree, with `depth` giving each visited square's
        distance from the start: every visited square other than the start
        has a linked parent one level up, and every direction in the
        `connected_to` of a square outside the goal leads to a linked
        child. Goal squares are left out of the second clause because
        `choose_end` pre-sets their links toward each other. */
    ghost predicate TreeBy(depth: map<Coordinate, nat>)
      reads this`grid, grid.Values
    {
      (forall p :: p in grid && grid[p].Visited() ==> p in depth)
      && (forall p {:trigger ParentLinked(p, depth)} ::
            p in grid && grid[p].Visited() && !grid[p].isStart ==> ParentLinked(p, depth))
      && (forall p, d {:trigger ChildLinked(p, d)} ::
            p in grid && !grid[p].isEnd && d in grid[p].connectedTo ==> ChildLinked(p, d))
    }

    /** The links form a tree for some choice of depths. */
    ghost predicate Tree()
      reads this`grid, grid.Values
    {
      exists depth :: TreeBy(depth)
    }

    /** Right after placing the start and the goal the tree is the start
        alone. */
    lemma TreeBegins(start: Square)
      requires WellFormed() && start in grid.Values && start.isStart
      requires forall p :: p in grid ==> (grid[p].Visited() <==> grid[p] == start)
      requires forall s :: s in grid.Values && !s.isEnd ==> s.connectedTo == {}
      ensures Tree()
    {
      var depth := map[start.position := 0];
      forall p | p in grid ensures grid[p].Visited() ==> grid[p].isStart && p in depth {
        assert grid[p].Visited() ==> grid[p] == start;
      }
      forall p | p in grid ensures grid[p].isEnd || grid[p].connectedTo == {} {
        assert grid[p] in grid.Values;
      }
      assert TreeBy(depth);
    }

    /** The change `linked_from` makes when the unvisited `there` is
        linked as a child of the visited `here`: `here` gains the direction
        toward `there`, `there` gains its parent and no other square and no
        marker changes. */
    twostate predicate LinkedOnce(new here: Square, new there: Square)
      reads this`grid, grid.Values
    {
      grid == old(grid) && old(WellFormed())
      && here in grid.Values && there in grid.Values && here != there
      && old(here.Visited()) && !old(there.Visited()) && Linked(here, there)
      && here.connectedTo == old(here.connectedTo) + {there.position.Sub(here.position)}
      && here.connectedFrom == old(here.connectedFrom) && there.connectedTo == old(there.connectedTo)
      && (forall s :: s in grid.Values ==> s.isStart == old(s.isStart) && s.isEnd == old(s.isEnd))
      && (forall s :: s in grid.Values && s != here && s != there ==> unchanged(s))
    }

    /** Linking the unvisited `there` as a child of the visited `here`
        keeps the links a tree, with `there` one level below `here`. */
    twostate lemma TreeGrows(new here: Square, new there: Square)
      requires LinkedOnce(here, there) && old(Tree())
      ensures Tree()
    {
      ghost var depth :| old(TreeBy(depth));
      var grown := depth[there.position := depth[here.position] + 1];
      ParentsGrow(here, there, depth);
      ChildrenGrow(here, there, depth);
      TreeWitness(grown);
    }

    /** Depths that fit the links show that the links form a tree. */
    lemma TreeWitness(depth: map<Coordinate, nat>)
      requires TreeBy(depth)
      ensures Tree()
    {
    }

    /** The squares other than `there` keep their visited state, their
        parent and at least their children. */
    twostate lemma OthersKept(new here: Square, new there: Square)
      requires LinkedOnce(here, there)
      ensures forall p :: p in grid && p != there.position ==>
                grid[p].Visited() == old(grid[p].Visited()) && grid[p].connectedFrom == old(grid[p].connectedFrom)
                && old(grid[p].connectedTo) <= grid[p].connectedTo
    {
      forall p | p in grid && p != there.position
        ensures grid[p].Visited() == old(grid[p].Visited()) && grid[p].connectedFrom == old(grid[p].connectedFrom)
        ensures old(grid[p].connectedTo) <= grid[p].connectedTo
      {
        assert grid[p] in grid.Values && grid[p] != there;
      }
    }

    /** After such a link every visited square other than the start still
        has its linked parent, and `there` has `here`. */
    twostate lemma ParentsGrow(new here: Square, new there: Square, new depth: map<Coordinate, nat>)
      requires LinkedOnce(here, there) && old(TreeBy(depth))
      ensures forall p :: p in grid && grid[p].Visited() ==> p in depth[there.position := depth[here.position] + 1]
      ensures forall p :: p in grid && grid[p].Visited() && !grid[p].isStart ==>
                ParentLinked(p, depth[there.position := depth[here.position] + 1])
    {
      var h, t := here.position, there.position;
      assert grid[h] == here && grid[t] == there;
      var grown := depth[t := depth[h] + 1];
      OthersKept(here, there);
      forall p | p in grid && grid[p].Visited() && !grid[p].isStart ensures ParentLinked(p, grown) {
        if p == t {
          assert t.Add(h.Sub(t)) == h;
        } else {
          assert old(ParentLinked(p, depth));
          var q := p.Add(grid[p].connectedFrom.value);
          assert q != t;
        }
      }
    }

    /** After such a link every direction in the `connected_to` of a square
        outside the goal still leads to a linked child. */
    twostate lemma ChildrenGrow(new here: Square, new there: Square, new depth: map<Coordinate, nat>)
      requires LinkedOnce(here, there) && old(TreeBy(depth))
      ensures forall p, d :: p in grid && !grid[p].isEnd && d in grid[p].connectedTo ==> ChildLinked(p, d)
    {
      var h, t := here.position, there.position;
      assert grid[h] == here && grid[t] == there;
      OthersKept(here, there);
      forall p, d | p in grid && d in grid[p].connectedTo ensures !grid[p].isEnd ==> ChildLinked(p, d) {
        assert grid[p] in grid.Values;
        if p == h && d == t.Sub(h) {
          assert h.Add(t.Sub(h)) == t;
        } else if p == t {
          assert grid[p].isEnd || old(ChildLinked(p, d));
        } else if !grid[p].isEnd {
          assert old(ChildLinked(p, d));
          assert p.Add(d) != t;
        }
      }
    }

    /** The links stay a tree while no square changes. */
    twostate lemma TreeKept()
      requires grid == old(grid) && old(Tree())
      requires forall s :: s in grid.Values ==> unchanged(s)
      ensures Tree()
    {
      ghost var depth :| old(TreeBy(depth));
      forall p | p in grid ensures unchanged(grid[p]) {
        assert grid[p] in grid.Values;
      }
      forall p | p in grid && grid[p].Visited() && !grid[p].isStart ensures ParentLinked(p, depth) {
        assert old(ParentLinked(p, depth));
      }
      forall p, d | p in grid && !grid[p].isEnd && d in grid[p].connectedTo ensures ChildLinked(p, d) {
        assert old(ChildLinked(p, d));
      }
      assert TreeBy(depth);
    }

    /** Following `connected_from` from a visited square reaches the start:
        the squares met on the way, read backwards, are a simple linked path
        from the start, each one level deeper than the one before. */
    lemma {:induction false} PathFromStartBy(start: Square, depth: map<Coordinate, nat>, p: Coordinate)
      returns (chain: seq<Square>)
      requires WellFormed() && TreeBy(depth) && p in grid && grid[p].Visited()
      requires forall s :: s in grid.Values ==> (s.isStart <==> s == start)
      ensures |chain| > 0 && chain[0] == start && chain[|chain| - 1] == grid[p] && IsPath(chain)
      ensures forall i :: 0 <= i < |chain| ==> chain[i] in grid.Values
      ensures forall i :: 0 <= i < |chain| ==> chain[i].position in depth && depth[chain[i].position] <= depth[p]
      ensures forall i :: 0 <= i < |chain| - 1 ==> depth[chain[i].position] < depth[p]
      decreases depth[p]
    {
      assert grid[p] in grid.Values;
      if grid[p].isStart {
        chain := [grid[p]];
      } else {
        assert ParentLinked(p, depth);
        var q := p.Add(grid[p].connectedFrom.value);
        var prefix := PathFromStartBy(start, depth, q);
        chain := prefix + [grid[p]];
        forall i | 0 <= i < |prefix| ensures prefix[i] != grid[p] {
          assert depth[prefix[i].position] <= depth[q];
        }
        assert Distinct(chain) by {
          forall i, j | 0 <= i < j < |chain| ensures chain[i] != chain[j] {
            if j < |prefix| {
              assert chain[i] == prefix[i] && chain[j] == prefix[j];
            } else {
              assert chain[i] == prefix[i];
            }
          }
        }
        forall i | 0 <= i < |chain| - 1 ensures Linked(chain[i], chain[i + 1]) {
          if i < |prefix| - 1 {
            assert chain[i] == prefix[i] && chain[i + 1] == prefix[i + 1];
          }
        }
      }
    }

    /** When the links form a tree and `start` is the only start square,
        every visited square is reached from the start along a simple path
        of linked squares. */
    lemma PathFromStart(start: Square, p: Coordinate) returns (chain: seq<Square>)
      requires WellFormed() && Tree() && p in grid && grid[p].Visited()
      requires forall s :: s in grid.Values ==> (s.isStart <==> s == start)
      ensures |chain| > 0 && chain[0] == start && chain[|chain| - 1] == grid[p] && IsPath(chain)
      ensures forall i :: 0 <= i < |chain| ==> chain[i] in grid.Values
    {
      ghost var depth :| TreeBy(depth);
      chain := PathFromStartBy(start, depth, p);
    }

    /** The grid just after `choose_start` on a pristine grid: only the
        start is visited or marked, and nothing has children. */
    ghost predicate StartOnly(start: Square)
      reads this`grid, grid.Values
    {
      forall p :: p in grid ==>
        grid[p].connectedTo == {} && !grid[p].isEnd
        && (grid[p].isStart <==> grid[p] == start) && (grid[p].Visited() <==> grid[p] == start)
    }

    /** `choose_start` on a pristine grid changes the start square alone. */
    twostate lemma StartPlaced(start: Square)
      requires grid == old(grid) && old(WellFormed()) && old(Pristine())
      requires start in grid.Values && start.isStart && start.connectedFrom.Some?
      requires start.connectedTo == old(start.connectedTo) && start.isEnd == old(start.isEnd)
      requires forall p :: p in grid && grid[p] != start ==> grid[p].Kept()
      ensures StartOnly(start)
    {
      forall p | p in grid
        ensures grid[p].connectedTo == {} && !grid[p].isEnd
                && (grid[p].isStart <==> grid[p] == start) && (grid[p].Visited() <==> grid[p] == start)
      {
        assert old(grid[p].Blank());
        if grid[p] != start {
          assert grid[p].Kept();
        }
      }
    }

    /** `choose_end` after `choose_start`: the start stays the only start
        square and the only visited one, the goal block is exactly the goal
        squares, and they carry only their pre-set links. */
    method ChooseEndAfterStart(start: Square) returns (centre: Coordinate)
      requires WellFormed() && StartOnly(start) && start in grid.Values && start.position in circumference
      modifies grid.Values
      ensures centre in GoalCentres(width, height)
      ensures !start.isEnd && grid[centre].isEnd
      ensures forall s :: s in grid.Values ==> s.connectedFrom == old(s.connectedFrom)
      ensures forall p :: p in grid ==> (grid[p].Visited() <==> grid[p] == start)
      ensures forall s :: s in grid.Values ==>
                (s.isStart <==> s == start) && (s.isEnd <==> s.position in GoalCells(centre))
                && (s.isEnd ==> s.connectedTo == GoalLinks(width, height, GoalCells(centre), s.position))
                && (!s.isEnd ==> s.connectedTo == {})
    {
      centre := ChooseEnd();
      GoalMissesBorder(width, height, centre, start.position);
      assert grid[start.position] == start;
      EndPlaced(start, centre);
    }

    /** The goal marks `choose_end` sets, on a grid where only the start
        is marked or visited and nothing has children. */
    twostate lemma EndPlaced(start: Square, new centre: Coordinate)
      requires grid == old(grid) && old(WellFormed()) && old(StartOnly(start))
      requires start in grid.Values && start.position !in GoalCells(centre)
      requires forall p :: p in grid ==> grid[p].isEnd == (old(grid[p].isEnd) || p in GoalCells(centre))
      requires forall p :: p in grid ==>
                 grid[p].connectedTo
                 == old(grid[p].connectedTo)
                    + (if p in GoalCells(centre) then GoalLinks(width, height, GoalCells(centre), p) else {})
      requires forall p :: p in grid ==>
                 grid[p].connectedFrom == old(grid[p].connectedFrom) && grid[p].isStart == old(grid[p].isStart)
      ensures forall p :: p in grid ==> (grid[p].Visited() <==> grid[p] == start)
      ensures forall s :: s in grid.Values ==>
                (s.isStart <==> s == start) && (s.isEnd <==> s.position in GoalCells(centre))
                && (s.isEnd ==> s.connectedTo == GoalLinks(width, height, GoalCells(centre), s.position))
                && (!s.isEnd ==> s.connectedTo == {})
    {
      forall s | s in grid.Values
        ensures (s.isStart <==> s == start) && (s.isEnd <==> s.position in GoalCells(centre))
                && (s.isEnd ==> s.connectedTo == GoalLinks(width, height, GoalCells(centre), s.position))
                && (!s.isEnd ==> s.connectedTo == {})
      {
        assert grid[s.position] == s;
      }
    }

    /** The first two steps of `create`: `choose_start`, then
        `choose_end`. Only the start is visited, and the goal block is the
        only place marked as goal. */
    method PlaceStartAndGoal() returns (start: Square, ghost centre: Coordinate)
      requires WellFormed() && Pristine()
      modifies this`solution, grid.Values
      ensures centre in GoalCentres(width, height)
      ensures Valid() && solution == [start] && start in grid.Values && !start.isEnd
      ensures start.position in circumference && start.connectedFrom.Some?
      ensures !InBounds(width, height, start.position.Add(start.connectedFrom.value))
      ensures exists p :: p in grid && grid[p].isEnd
      ensures forall p :: p in grid ==> (grid[p].Visited() <==> grid[p] == start)
      ensures Marked(start, centre) && Tree()
    {
      start := ChooseStart();
      StartPlaced(start);
      centre := ChooseEndAfterStart(start);
      TreeBegins(start);
    }

    /** The start square is the only start square, the goal block is
        exactly the goal squares, and they carry their pre-set links. */
    ghost predicate Marked(start: Square, centre: Coordinate)
      reads this`grid, grid.Values
    {
      forall s :: s in grid.Values ==>
        (s.isStart <==> s == start) && (s.isEnd <==> s.position in GoalCells(centre))
        && (s.isEnd ==> s.connectedTo == GoalLinks(width, height, GoalCells(centre), s.position))
    }

    /** Markers and the goal squares' links do not change, so neither
        does `Marked`. */
    twostate lemma MarkedKept(start: Square, new centre: Coordinate)
      requires grid == old(grid) && old(Marked(start, centre))
      requires forall s :: s in grid.Values ==>
                 s.isStart == old(s.isStart) && s.isEnd == old(s.isEnd)
                 && (s.isEnd ==> s.connectedTo == old(s.connectedTo))
      ensures Marked(start, centre)
    {
    }

    /** `create`: place the start and the goal, walk from the start until
        a goal square is entered, then grow branches off that walk until
        every square is assigned. The goal centre is reported as a ghost
        result, since `create` keeps it to itself. */
    method Create() returns (ghost centre: Coordinate)
      requires WellFormed() && Pristine()
      modifies this`solution, grid.Values
      ensures centre in GoalCentres(width, height)
      ensures Valid() && IsPath(solution) && |solution| > 0
      ensures solution[0].position in circumference && solution[0].connectedFrom.Some?
      ensures !InBounds(width, height, solution[0].position.Add(solution[0].connectedFrom.value))
      ensures solution[|solution| - 1].isEnd && forall i :: 0 <= i < |solution| - 1 ==> !solution[i].isEnd
      ensures Marked(solution[0], centre) && Tree()
      ensures forall p :: p in grid ==> grid[p].Assigned()
    {
      var start;
      start, centre := PlaceStartAndGoal();
      Generate(start, centre);
    }

    /** The two loops of `create`, once the start and the goal are placed. */
    method Generate(start: Square, ghost centre: Coordinate)
      requires WellFormed() && solution == [start] && start in grid.Values && !start.isEnd
      requires start.position in circumference && start.connectedFrom.Some?
      requires !InBounds(width, height, start.position.Add(start.connectedFrom.value))
      requires centre in GoalCentres(width, height) && Marked(start, centre)
      requires exists p :: p in grid && grid[p].isEnd
      requires forall p :: p in grid ==> (grid[p].Visited() <==> grid[p] == start)
      requires Tree()
      modifies this`solution, grid.Values
      ensures Valid() && IsPath(solution) && |solution| > 0 && solution[0] == start
      ensures start.position in circumference && start.connectedFrom == old(start.connectedFrom)
      ensures solution[|solution| - 1].isEnd && forall i :: 0 <= i < |solution| - 1 ==> !solution[i].isEnd
      ensures Marked(start, centre) && Tree()
      ensures forall p :: p in grid ==> grid[p].Assigned()
    {
      WalkToGoal(start, centre);
      BranchOff(start, centre);
    }

    /** The first loop of `create`, which leaves its walk in `solution`. */
    method WalkToGoal(start: Square, ghost centre: Coordinate)
      requires WellFormed() && solution == [start] && start in grid.Values && !start.isEnd
      requires Marked(start, centre)
      requires exists p :: p in grid && grid[p].isEnd
      requires forall p :: p in grid ==> (grid[p].Visited() <==> grid[p] == start)
      requires Tree()
      modifies this`solution, grid.Values
      ensures Walk(solution) && solution[|solution| - 1].isEnd && solution[0] == start
      ensures start.connectedFrom == old(start.connectedFrom)
      ensures Marked(start, centre) && Tree()
    {
      var walk := PrimaryWalk();
      MarkedKept(start, centre);
      solution := walk;
    }

    /** The second loop of `create`, over the walk without its goal square. */
    method BranchOff(start: Square, ghost centre: Coordinate)
      requires Walk(solution) && solution[|solution| - 1].isEnd && solution[0] == start
      requires start.Visited() && !start.isEnd
      requires centre in GoalCentres(width, height) && Marked(start, centre) && Tree()
      modifies grid.Values
      ensures Valid() && IsPath(solution) && solution == old(solution)
      ensures start.connectedFrom == old(start.connectedFrom)
      ensures Marked(start, centre) && Tree()
      ensures forall p :: p in grid ==> grid[p].Assigned()
    {
      WalkStartsGrowing(solution);
      var remainder := solution[..|solution| - 1];
      GrowBranches(remainder, solution);
      MarkedKept(start, centre);
      GoalCentresPlacement(width, height, centre);
      GrownCovered(centre, start);
    }
  }
}
