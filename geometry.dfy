/** Integer coordinates, the four unit directions and the grid square
    (src/labpyrinth/geometry.py). */
module Geometry {
  import opened Wrappers

  /** A sequence without repeated elements. */
  predicate Distinct<T(==)>(s: seq<T>)
  {
    forall i, j :: 0 <= i < j < |s| ==> s[i] != s[j]
  }

  function Abs(n: int): nat
  {
    if n < 0 then -n else n
  }

  // ------------------------------------------------------------------
  // Coordinate
  // ------------------------------------------------------------------

  /** An integer pair. Every operation returns a new value; equality is
      the datatype's structural equality, i.e. componentwise. */
  datatype Coordinate = Coordinate(x: int, y: int)
  {
    function Add(other: Coordinate): Coordinate
    {
      Coordinate(x + other.x, y + other.y)
    }

    function Sub(other: Coordinate): Coordinate
    {
      Coordinate(x - other.x, y - other.y)
    }

    function Neg(): Coordinate
    {
      Coordinate(-x, -y)
    }

    /** `__mul__` by an integer: scaling by 0 gives zero, by 1 the same
        coordinate and by -1 its negation. */
    function Scale(scale: int): (r: Coordinate)
      ensures scale == 0 ==> r == Coordinate(0, 0)
      ensures scale == 1 ==> r == this
      ensures scale == -1 ==> r == Neg()
    {
      Coordinate(x * scale, y * scale)
    }
  }

  /** Two coordinates are equal exactly when both components agree. */
  lemma CoordinateEquality(a: Coordinate, b: Coordinate)
    ensures a == b <==> a.x == b.x && a.y == b.y
  {
  }

  /** The algebra of the vector operations. */
  lemma CoordinateArithmetic(a: Coordinate, b: Coordinate)
    ensures a.Add(b).Sub(b) == a
    ensures a.Sub(b).Add(b) == a
    ensures a.Neg().Neg() == a
    ensures a.Sub(b) == a.Add(b.Neg())
    ensures a.Sub(b) == b.Sub(a).Neg()
    ensures a.Scale(-1) == a.Neg() && a.Scale(1) == a
  {
  }

  /** Scaling distributes over integer addition and composes by
      multiplication, as `c * m + c * n == c * (m + n)` and
      `(c * m) * n == c * (m * n)` for the coordinate `__mul__`. */
  lemma ScaleLaws(c: Coordinate, m: int, n: int)
    ensures c.Scale(m).Add(c.Scale(n)) == c.Scale(m + n)
    ensures c.Scale(m).Scale(n) == c.Scale(m * n)
  {
    assert c.x * m + c.x * n == c.x * (m + n);
    assert c.y * m + c.y * n == c.y * (m + n);
    assert c.x * m * n == c.x * (m * n);
    assert c.y * m * n == c.y * (m * n);
  }

  /** Grid adjacency: the two positions differ by one step along one axis. */
  predicate Adjacent(p: Coordinate, q: Coordinate)
  {
    Abs(p.x - q.x) + Abs(p.y - q.y) == 1
  }

  // ------------------------------------------------------------------
  // Direction
  // ------------------------------------------------------------------

  const Up := Coordinate(0, -1)
  const Down := Coordinate(0, 1)
  const Left := Coordinate(-1, 0)
  const Right := Coordinate(1, 0)

  /** `Direction.all`, a set of the four unit vectors. */
  const AllDirections: set<Coordinate> := {Up, Down, Left, Right}

  /** The order in which this model iterates `Direction.all`. */
  const DirectionOrder: seq<Coordinate> := [Up, Down, Left, Right]

  /** The four directions are exactly the unit steps, and the iteration
      order lists each of them once. */
  lemma {:induction false} DirectionsAreUnitSteps(d: Coordinate)
    ensures d in AllDirections <==> Adjacent(Coordinate(0, 0), d)
    ensures d in AllDirections <==> d in DirectionOrder
    ensures Distinct(DirectionOrder) && |DirectionOrder| == 4
  {
    if Adjacent(Coordinate(0, 0), d) {
      if d.x == 0 {
        assert d.y == 1 || d.y == -1;
      } else {
        assert d.y == 0 && (d.x == 1 || d.x == -1);
      }
    }
  }

  /** A step in any of the four directions reaches a neighbour. */
  lemma StepIsAdjacent(p: Coordinate, i: int)
    requires 0 <= i < 4
    ensures Adjacent(p, p.Add(DirectionOrder[i]))
  {
  }

  /** The bit `Direction._int_lookup` gives a direction; any other
      coordinate contributes nothing. */
  function Bit(d: Coordinate): (r: nat)
    ensures r != 0 <==> d in AllDirections
    ensures r in {0, 1, 2, 4, 8}
  {
    if d == Up then 1
    else if d == Down then 2
    else if d == Left then 4
    else if d == Right then 8
    else 0
  }

  /** `Direction.to_int`: the sum of the bits of the given directions. */
  function ToInt(directions: seq<Coordinate>): (r: nat)
    ensures r == 0 <==> forall i :: 0 <= i < |directions| ==> directions[i] !in AllDirections
  {
    if directions == [] then 0 else Bit(directions[0]) + ToInt(directions[1..])
  }

  /** Reference definition: the 4-bit side mask of a set of directions. */
  function Mask(sides: set<Coordinate>): nat
  {
    (if Up in sides then 1 else 0) + (if Down in sides then 2 else 0)
    + (if Left in sides then 4 else 0) + (if Right in sides then 8 else 0)
  }

  function Elements<T>(s: seq<T>): set<T>
  {
    set x | x in s
  }

  lemma MaskAdd(d: Coordinate, sides: set<Coordinate>)
    requires d !in sides
    ensures Mask(sides + {d}) == Bit(d) + Mask(sides)
  {
  }

  /** Over distinct directions `to_int` is the side mask of their set. */
  lemma {:induction false} ToIntIsMask(directions: seq<Coordinate>)
    requires Distinct(directions)
    ensures ToInt(directions) == Mask(Elements(directions))
  {
    if directions != [] {
      var rest := directions[1..];
      assert Distinct(rest) by {
        forall i, j | 0 <= i < j < |rest| ensures rest[i] != rest[j] {
          assert rest[i] == directions[i + 1] && rest[j] == directions[j + 1];
        }
      }
      ToIntIsMask(rest);
      assert directions[0] !in rest by {
        forall i | 0 <= i < |rest| ensures rest[i] != directions[0] {
          assert rest[i] == directions[i + 1];
        }
      }
      assert Elements(directions) == Elements(rest) + {directions[0]} by {
        assert directions == [directions[0]] + rest;
      }
      MaskAdd(directions[0], Elements(rest));
    }
  }

  /** Over distinct directions `to_int` lies in 0..15, and two such
      sequences give the same value exactly when they hold the same
      directions (other coordinates are ignored). */
  lemma ToIntCharacterised(ds: seq<Coordinate>, es: seq<Coordinate>)
    requires Distinct(ds) && Distinct(es)
    ensures ToInt(ds) <= 15
    ensures ToInt(ds) == ToInt(es)
            <==> Elements(ds) * AllDirections == Elements(es) * AllDirections
  {
    ToIntIsMask(ds);
    ToIntIsMask(es);
    var s, t := Elements(ds), Elements(es);
    if Mask(s) == Mask(t) {
      assert Up in s <==> Up in t;
      assert Down in s <==> Down in t;
      assert Left in s <==> Left in t;
      assert Right in s <==> Right in t;
      assert s * AllDirections == t * AllDirections;
    }
    if s * AllDirections == t * AllDirections {
      assert Up in s <==> Up in t by { assert Up in s * AllDirections <==> Up in t * AllDirections; }
      assert Down in s <==> Down in t by { assert Down in s * AllDirections <==> Down in t * AllDirections; }
      assert Left in s <==> Left in t by { assert Left in s * AllDirections <==> Left in t * AllDirections; }
      assert Right in s <==> Right in t by { assert Right in s * AllDirections <==> Right in t * AllDirections; }
    }
  }

  // ------------------------------------------------------------------
  // Direction.combinations
  // ------------------------------------------------------------------

  function Prefixed<T>(x: T, tuples: seq<seq<T>>): (r: seq<seq<T>>)
    ensures |r| == |tuples|
    ensures forall j :: 0 <= j < |r| ==> r[j] == [x] + tuples[j]
  {
    seq(|tuples|, j requires 0 <= j < |tuples| => [x] + tuples[j])
  }

  function RemoveAt<T>(s: seq<T>, i: nat): seq<T>
    requires i < |s|
  {
    s[..i] + s[i + 1..]
  }

  /** `itertools.permutations(pool, k)`: all ordered selections of `k`
      elements at distinct indices, in lexicographic order of the
      indices. */
  function Permutations<T>(pool: seq<T>, k: nat): (r: seq<seq<T>>)
    ensures |r| == Falling(|pool|, k)
    decreases k, |pool| + 1
  {
    if k == 0 then [[]] else PermutationsFrom(pool, k, 0)
  }

  /** The selections whose first element has index `i` or more: for each
      such first element, the selections of `k - 1` out of the rest. */
  function PermutationsFrom<T>(pool: seq<T>, k: nat, i: nat): (r: seq<seq<T>>)
    requires 0 < k && i <= |pool|
    ensures |r| == if i == |pool| then 0 else (|pool| - i) * Falling(|pool| - 1, k - 1)
    decreases k, |pool| - i
  {
    if i == |pool| then []
    else
      var heads := Prefixed(pool[i], Permutations(RemoveAt(pool, i), k - 1));
      var tail := PermutationsFrom(pool, k, i + 1);
      assert |heads| + |tail| == (|pool| - i) * Falling(|pool| - 1, k - 1) by {
        var n, f := |pool| - i - 1, Falling(|pool| - 1, k - 1);
        assert (n + 1) * f == n * f + f;
      }
      heads + tail
  }

  /** `n! / (n - k)!`, the number of ordered selections of `k` out of `n`
      elements; zero when `k > n`. */
  function Falling(n: nat, k: nat): nat
  {
    if k == 0 then 1 else if n == 0 then 0 else n * Falling(n - 1, k - 1)
  }

  /** `Direction.combinations()`: the empty tuple, each single direction,
      then the permutations of length 2, 3 and 4. It yields the empty tuple
      first and 1 + 4 + 12 + 24 + 24 tuples in all. */
  function Combinations(): (r: seq<seq<Coordinate>>)
    ensures |r| == 65 && r[0] == []
  {
    assert Falling(4, 2) == 12 && Falling(4, 3) == 24 && Falling(4, 4) == 24 by {
      assert Falling(1, 1) == 1 && Falling(2, 1) == 2 && Falling(3, 1) == 3 && Falling(4, 1) == 4;
      assert Falling(2, 2) == 2 && Falling(3, 2) == 6 && Falling(3, 3) == 6;
    }
    [[]] + seq(4, i requires 0 <= i < 4 => [DirectionOrder[i]])
    + Permutations(DirectionOrder, 2)
    + Permutations(DirectionOrder, 3)
    + Permutations(DirectionOrder, 4)
  }

  lemma RemoveAtFacts<T>(s: seq<T>, i: nat)
    requires i < |s| && Distinct(s)
    ensures Distinct(RemoveAt(s, i))
    ensures forall x :: x in RemoveAt(s, i) <==> x in s && x != s[i]
  {
    var r := RemoveAt(s, i);
    forall a, b | 0 <= a < b < |r| ensures r[a] != r[b] {
      var a', b' := if a < i then a else a + 1, if b < i then b else b + 1;
      assert r[a] == s[a'] && r[b] == s[b'];
    }
    forall x ensures x in r <==> x in s && x != s[i] {
      if x in r {
        var a :| 0 <= a < |r| && r[a] == x;
        var a' := if a < i then a else a + 1;
        assert s[a'] == x;
      }
      if x in s && x != s[i] {
        var a :| 0 <= a < |s| && s[a] == x;
        assert a != i;
        if a < i { assert r[a] == x; } else { assert r[a - 1] == x; }
      }
    }
  }

  /** Every selection has `k` distinct elements, all from the pool. */
  lemma {:induction false} PermutationsSound<T>(pool: seq<T>, k: nat, t: seq<T>)
    requires Distinct(pool) && t in Permutations(pool, k)
    ensures |t| == k && Distinct(t) && forall x :: x in t ==> x in pool
    decreases k, |pool| + 1
  {
    if k > 0 {
      PermutationsFromSound(pool, k, 0, t);
    }
  }

  lemma {:induction false} PermutationsFromSound<T>(pool: seq<T>, k: nat, i: nat, t: seq<T>)
    requires 0 < k && i <= |pool| && Distinct(pool) && t in PermutationsFrom(pool, k, i)
    ensures |t| == k && Distinct(t) && forall x :: x in t ==> x in pool
    decreases k, |pool| - i
  {
    if i < |pool| {
      var rest := RemoveAt(pool, i);
      var heads := Prefixed(pool[i], Permutations(rest, k - 1));
      if t in heads {
        var j :| 0 <= j < |heads| && heads[j] == t;
        var u := Permutations(rest, k - 1)[j];
        assert t == [pool[i]] + u;
        RemoveAtFacts(pool, i);
        PermutationsSound(rest, k - 1, u);
        forall a, b | 0 <= a < b < |t| ensures t[a] != t[b] {
          if a == 0 {
            assert t[b] == u[b - 1] && t[b] in rest;
          } else {
            assert t[a] == u[a - 1] && t[b] == u[b - 1];
          }
        }
      } else {
        PermutationsFromSound(pool, k, i + 1, t);
      }
    }
  }

  /** Every selection of `k` distinct pool elements is listed. */
  lemma {:induction false} PermutationsComplete<T>(pool: seq<T>, t: seq<T>)
    requires Distinct(pool) && Distinct(t) && forall x :: x in t ==> x in pool
    ensures t in Permutations(pool, |t|)
    decreases |t|
  {
    if t != [] {
      assert t[0] in t;
      var i :| 0 <= i < |pool| && pool[i] == t[0];
      var rest := RemoveAt(pool, i);
      TailSelection(pool, i, t);
      PermutationsComplete(rest, t[1..]);
      PrefixedIncludes(pool[i], Permutations(rest, |t| - 1), t[1..]);
      assert [pool[i]] + t[1..] == t;
      PermutationsFromIncludes(pool, |t|, 0, i, t);
    }
  }

  lemma TailSelection<T>(pool: seq<T>, i: nat, t: seq<T>)
    requires Distinct(pool) && Distinct(t) && forall x :: x in t ==> x in pool
    requires t != [] && i < |pool| && pool[i] == t[0]
    ensures Distinct(RemoveAt(pool, i)) && Distinct(t[1..])
    ensures forall x :: x in t[1..] ==> x in RemoveAt(pool, i)
  {
    var tail := t[1..];
    RemoveAtFacts(pool, i);
    forall a, b | 0 <= a < b < |tail| ensures tail[a] != tail[b] {
      assert tail[a] == t[a + 1] && tail[b] == t[b + 1];
    }
    forall x | x in tail ensures x in RemoveAt(pool, i) {
      var a :| 0 <= a < |tail| && tail[a] == x;
      assert x == t[a + 1] && x != t[0];
    }
  }

  lemma PrefixedIncludes<T>(x: T, tuples: seq<seq<T>>, u: seq<T>)
    requires u in tuples
    ensures [x] + u in Prefixed(x, tuples)
  {
    var j :| 0 <= j < |tuples| && tuples[j] == u;
    assert Prefixed(x, tuples)[j] == [x] + u;
  }

  lemma {:induction false} PermutationsFromIncludes<T>(pool: seq<T>, k: nat, from: nat, i: nat, t: seq<T>)
    requires 0 < k && from <= i < |pool|
    requires t in Prefixed(pool[i], Permutations(RemoveAt(pool, i), k - 1))
    ensures t in PermutationsFrom(pool, k, from)
    decreases i - from
  {
    if from < i {
      PermutationsFromIncludes(pool, k, from + 1, i, t);
    }
  }

  /** No tuple of `combinations` repeats a direction, and all of them are
      made of directions. */
  lemma CombinationsSound(t: seq<Coordinate>)
    requires t in Combinations()
    ensures Distinct(t) && Elements(t) <= AllDirections
  {
    DirectionsAreUnitSteps(Up);
    var singles := seq(4, i requires 0 <= i < 4 => [DirectionOrder[i]]);
    if t in Permutations(DirectionOrder, 2) {
      PermutationsSound(DirectionOrder, 2, t);
    } else if t in Permutations(DirectionOrder, 3) {
      PermutationsSound(DirectionOrder, 3, t);
    } else if t in Permutations(DirectionOrder, 4) {
      PermutationsSound(DirectionOrder, 4, t);
    } else if t in singles {
      var i :| 0 <= i < 4 && singles[i] == t;
      assert t == [DirectionOrder[i]];
    } else {
      assert t == [];
    }
  }

  /** The directions, in iteration order, that belong to `sides`. */
  function Select(pool: seq<Coordinate>, sides: set<Coordinate>): (r: seq<Coordinate>)
    ensures |r| <= |pool|
    ensures forall x :: x in r <==> x in pool && x in sides
  {
    if pool == [] then []
    else (if pool[0] in sides then [pool[0]] else []) + Select(pool[1..], sides)
  }

  lemma {:induction false} SelectDistinct(pool: seq<Coordinate>, sides: set<Coordinate>)
    requires Distinct(pool)
    ensures Distinct(Select(pool, sides))
  {
    if pool != [] {
      var rest := pool[1..];
      assert Distinct(rest) by {
        forall a, b | 0 <= a < b < |rest| ensures rest[a] != rest[b] {
          assert rest[a] == pool[a + 1] && rest[b] == pool[b + 1];
        }
      }
      SelectDistinct(rest, sides);
      assert pool[0] !in rest by {
        forall a | 0 <= a < |rest| ensures rest[a] != pool[0] {
          assert rest[a] == pool[a + 1];
        }
      }
    }
  }

  /** Every set of directions appears among the tuples of `combinations`. */
  lemma CombinationsComplete(sides: set<Coordinate>)
    requires sides <= AllDirections
    ensures exists t :: t in Combinations() && Elements(t) == sides
  {
    DirectionsAreUnitSteps(Up);
    var t := Select(DirectionOrder, sides);
    SelectDistinct(DirectionOrder, sides);
    assert Elements(t) == sides;
    var singles := seq(4, i requires 0 <= i < 4 => [DirectionOrder[i]]);
    if |t| == 0 {
      assert Combinations()[0] == t;
    } else if |t| == 1 {
      assert t[0] in t;
      var i :| 0 <= i < 4 && DirectionOrder[i] == t[0];
      assert singles[i] == t;
      assert Combinations()[1 + i] == t;
    } else {
      PermutationsComplete(DirectionOrder, t);
      assert t in Combinations();
    }
  }

  // ------------------------------------------------------------------
  // Square
  // ------------------------------------------------------------------

  /** One grid cell with its link state. */
  class Square {
    const position: Coordinate
    /** Direction back toward the parent; `None` while the attribute is unset. */
    var connectedFrom: Option<Coordinate>
    /** Directions toward the children. */
    var connectedTo: set<Coordinate>
    var isStart: bool
    var isEnd: bool

    /** No links and neither flag. */
    predicate Blank()
      reads this
    {
      connectedFrom == None && connectedTo == {} && !isStart && !isEnd
    }

    /** Every field is as it was in the old state. */
    twostate predicate Kept()
      reads this
    {
      connectedFrom == old(connectedFrom) && connectedTo == old(connectedTo)
      && isStart == old(isStart) && isEnd == old(isEnd)
    }

    constructor (position: Coordinate)
      ensures this.position == position && Blank()
    {
      this.position := position;
      connectedFrom := None;
      connectedTo := {};
      isStart := false;
      isEnd := false;
    }

    /** `visited`: a start square, or one entered from a parent. */
    predicate Visited()
      reads this
      ensures isStart ==> Visited()
      ensures connectedFrom.Some? ==> Visited()
      ensures Blank() ==> !Visited()
    {
      connectedFrom.Some? || isStart
    }

    /** `assigned`: visited, or part of the goal. */
    predicate Assigned()
      reads this
      ensures Visited() ==> Assigned()
      ensures isEnd ==> Assigned()
      ensures Blank() ==> !Assigned()
    {
      Visited() || isEnd
    }

    /** `connected_from` (when set) together with `connected_to`. */
    function OpenSides(): (r: set<Coordinate>)
      reads this
      ensures connectedTo <= r
      ensures connectedFrom.Some? ==> connectedFrom.value in r
      ensures r == {} <==> connectedFrom.None? && connectedTo == {}
    {
      (if connectedFrom.Some? then {connectedFrom.value} else {}) + connectedTo
    }

    /** The directions that are not open: no direction is both open and
        closed, and together they cover `Direction.all`. */
    function ClosedSides(): (r: set<Coordinate>)
      reads this
      ensures r <= AllDirections
      ensures r * OpenSides() == {}
      ensures AllDirections <= r + OpenSides()
      ensures connectedFrom.Some? ==> connectedFrom.value !in r
      ensures forall d :: d in connectedTo ==> d !in r
    {
      AllDirections - OpenSides()
    }

    /** The four positions one step away, one per direction. */
    function NeighbourPositions(): (r: seq<Coordinate>)
      ensures |r| == 4 && Distinct(r)
      ensures forall i :: 0 <= i < 4 ==> r[i] == position.Add(DirectionOrder[i])
      ensures forall q :: q in r <==> Adjacent(position, q)
    {
      var r := seq(4, i requires 0 <= i < 4 => position.Add(DirectionOrder[i]));
      forall q ensures q in r <==> Adjacent(position, q) {
        DirectionsAreUnitSteps(q.Sub(position));
        if q in r {
          var i :| 0 <= i < 4 && r[i] == q;
          assert q.Sub(position) == DirectionOrder[i];
        }
        if Adjacent(position, q) {
          var i :| 0 <= i < 4 && DirectionOrder[i] == q.Sub(position);
          assert r[i] == q;
        }
      }
      r
    }

    /** Marks the start square, entered from `outside`. */
    method StartFrom(outside: Coordinate) returns (r: Square)
      modifies this
      ensures r == this
      ensures isStart && connectedFrom == Some(outside.Sub(position))
      ensures connectedTo == old(connectedTo) && isEnd == old(isEnd)
      ensures Visited()
    {
      isStart := true;
      connectedFrom := Some(outside.Sub(position));
      r := this;
    }

    /** Links this square as a child of `other`: this square points back
        at `other`, and `other` gains the direction toward this square. */
    method LinkedFrom(other: Square) returns (r: Square)
      modifies this, other
      ensures r == this
      ensures connectedFrom == Some(other.position.Sub(position))
      ensures other.connectedTo == old(other.connectedTo) + {position.Sub(other.position)}
      ensures other != this ==> connectedTo == old(connectedTo)
      ensures other != this ==> other.connectedFrom == old(other.connectedFrom)
      ensures isStart == old(isStart) && isEnd == old(isEnd)
      ensures other.isStart == old(other.isStart) && other.isEnd == old(other.isEnd)
      ensures Visited()
    {
      var vector := position.Sub(other.position);
      connectedFrom := Some(vector.Neg());
      other.connectedTo := other.connectedTo + {vector};
      r := this;
    }
  }

  /** `parent` and `child` are neighbours joined by a link in both
      directions. */
  predicate Linked(parent: Square, child: Square)
    reads parent, child
  {
    Adjacent(parent.position, child.position)
    && child.connectedFrom == Some(parent.position.Sub(child.position))
    && child.position.Sub(parent.position) in parent.connectedTo
  }
}
