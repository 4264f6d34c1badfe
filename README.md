# labpyrinth maze generator in Dafny

This project models the maze generator of labpyrinth. The generator:

- places a start square on the border of a rectangular grid;
- places a 3x3 goal block in the interior, with links already set between its squares;
- runs a randomized depth-first walk with backtracking from the start until it enters a goal square;
- then grows dead-end branches off that walk until no square is left to link.

The project is split into four modules:

- `Wrappers` (`wrappers.dfy`): `Option` and `Result`. They stand for a missing attribute and a raised exception.
- `Geometry` (`geometry.dfy`), for `src/labpyrinth/geometry.py`:
  - `Coordinate`, a value type with componentwise `+`, `-`, negation and scaling;
  - the four directions, `Direction.to_int` and `Direction.combinations`;
  - `Square`, a class whose link state (`connected_from`, `connected_to`, `is_start`, `is_end`) is updated in place by `start_from` and `linked_from`.
- `Grid` (`grid.dfy`): facts about the rectangle that `src/labpyrinth/maze.py` works on. They cover:
  - bounds;
  - the split into border and interior;
  - where the start and the goal may go;
  - the reachability argument that makes the walk complete.
- `Mazes` (`maze.dfy`), for the `Maze` class of `src/labpyrinth/maze.py`. The grid is a `map` from positions to `Square` objects and `solution` is a `seq` field. `reset`, `choose_start`, `choose_end`, `_next` and `create` are methods that change them.

How the model treats the source's runtime features:

- `random.choice` is a nondeterministic choice (`:|`) over the non-empty candidates.
- The suspend/resume generators of `create`, `choose_start`, `choose_end` and `_next` are run to completion, as by a caller that iterates `create()` fully.
- `_next` returns the list it would have changed in place, together with the square it reports.
- Errors the source raises are modelled as error results:
  - `ValueError` in the constructor is `Err(ValueError(...))`;
  - `KeyError` in `__getitem__` is `None`.

Main results:

- `Maze.Next` lowers the measure `2 * unvisited + len(list)` whenever every candidate it is given is unvisited, whichever branch it takes. Both loops of `create` pass only such candidates, and this measure is the decreases clause of both.
- The primary walk always reaches the goal. A walk that emptied would leave the visited squares closed under grid steps, so a goal square would already be visited.
- The walk that `solution` holds is a simple path. Each square on it is linked from the square before it.
- When `create` finishes, every square is visited or is a goal square.
- The links form a tree throughout `create`: every visited square other than the start has a parent one level closer to the start and linked back to it, and every `connected_to` entry outside the goal block leads to a child. So every visited square is reached from the start along a linked path (`Mazes.Maze.PathFromStart`).

Design choices of the code that the model follows:

- The code uses a 3x3 goal block, not a single end cell.
- The minimum size is 9x9.
- `linked_from` does not check adjacency. `LinkedFrom` has no adjacency precondition, and `Linked` adds adjacency only where the caller provides it.
- An out-of-grid lookup raises `KeyError`, modelled as `None`.

The iteration order of `Direction.all` (a `frozenset`) is fixed here as up, down, left, right. In the source that order follows the hashes of the four coordinates, and `Coordinate.__hash__` (`src/labpyrinth/geometry.py:38-39`) hashes a tuple that holds `type(self)`, whose hash can differ from one run to the next, so the source has no fixed order. The chosen order decides which off-grid neighbour a corner start square is entered from, the order of the tuples `Direction.combinations` yields, and the index order that `Square.NeighbourPositions` states.

The line `square.vector_to(neighbour)` in `src/labpyrinth/maze.py:95` calls a method that `Square` does not define. `Grid.GoalSquareHasGoalNeighbour` shows that, whenever the goal block lies on the grid, every goal square reaches that line. The model uses the direction toward the neighbour instead, `neighbour.position - square.position` (see Findings).

## Model

| member | source | states |
|---|---|---|
| `Geometry.CoordinateEquality` | src/labpyrinth/geometry.py:12-14 | two coordinates are equal exactly when their x and their y agree |
| `Geometry.Coordinate.Scale` | src/labpyrinth/geometry.py:35-36 | scaling by 0 gives the origin, by 1 the same coordinate and by -1 its negation |
| `Geometry.ScaleLaws` | src/labpyrinth/geometry.py:35-36 | scaling distributes over addition of factors, `c * m + c * n == c * (m + n)`, and composes, `(c * m) * n == c * (m * n)` |
| `Geometry.CoordinateArithmetic` | src/labpyrinth/geometry.py:22-36 | `(a + b) - b == a`, `(a - b) + b == a`, `-(-a) == a`, `a - b == a + (-b)`, `a - b == -(b - a)`, scaling by -1 negates and by 1 is the identity |
| `Geometry.DirectionsAreUnitSteps` | src/labpyrinth/geometry.py:46-52 | a coordinate is one of the four directions exactly when it is one unit step; the iteration order lists the four directions, each once |
| `Geometry.StepIsAdjacent` | src/labpyrinth/geometry.py:47-50 | a step in any direction reaches a grid neighbour |
| `Geometry.Bit` | src/labpyrinth/geometry.py:54-66 | the `_int_lookup.get(d, 0)` value: one of 0, 1, 2, 4, 8, and non-zero exactly for the four directions |
| `Geometry.ToInt` | src/labpyrinth/geometry.py:63-66 | `to_int` is 0 exactly when none of its arguments is a direction |
| `Geometry.ToIntIsMask` | src/labpyrinth/geometry.py:54-66 | over distinct coordinates, `to_int` is the sum of bits 1/2/4/8 of up/down/left/right present; other coordinates add 0 |
| `Geometry.ToIntCharacterised` | src/labpyrinth/geometry.py:54-66 | over distinct coordinates `to_int` lies in 0..15, and two inputs give the same value exactly when they hold the same directions |
| `Geometry.Permutations` | src/labpyrinth/geometry.py:78 | `itertools.permutations(pool, k)` yields `n! / (n - k)!` tuples for a pool of n, none when `k > n` |
| `Geometry.Combinations` | src/labpyrinth/geometry.py:68-79 | `combinations` yields the empty tuple first, then 4 + 12 + 24 + 24 more: 65 tuples in all |
| `Geometry.PermutationsSound` | src/labpyrinth/geometry.py:78 | every tuple `itertools.permutations(pool, k)` yields has length k, no repeats, and only pool elements |
| `Geometry.PermutationsComplete` | src/labpyrinth/geometry.py:78 | every repeat-free tuple of pool elements is among the permutations of its length |
| `Geometry.CombinationsSound` | src/labpyrinth/geometry.py:69-79 | no tuple of `combinations` repeats a direction, and each holds only directions |
| `Geometry.CombinationsComplete` | src/labpyrinth/geometry.py:69-79 | every subset of the four directions is the element set of some tuple of `combinations` |
| `Geometry.Square.constructor` | src/labpyrinth/geometry.py:86-91 | a new square holds its position, has no links and neither flag |
| `Geometry.Square.OpenSides` | src/labpyrinth/geometry.py:93-96 | the open sides hold every `connected_to` entry and `connected_from` when set, and are empty exactly when neither is set |
| `Geometry.Square.Visited` | src/labpyrinth/geometry.py:123-125 | a start square and a square with a parent are visited; a blank square is not |
| `Geometry.Square.Assigned` | src/labpyrinth/geometry.py:127-129 | visited squares and goal squares are assigned; a blank square is not |
| `Geometry.Square.ClosedSides` | src/labpyrinth/geometry.py:93-100 | closed sides are directions, none of them open, and together with the open sides they cover all four; neither `connected_from` nor a `connected_to` entry is closed |
| `Geometry.Square.NeighbourPositions` | src/labpyrinth/geometry.py:102-104 | exactly four distinct positions, the i-th being `position + direction i`; a position is among them exactly when it is adjacent |
| `Geometry.Square.StartFrom` | src/labpyrinth/geometry.py:106-109 | sets `is_start` and `connected_from = p - position`, changes nothing else, returns the square, which is then visited |
| `Geometry.Square.LinkedFrom` | src/labpyrinth/geometry.py:111-115 | sets `connected_from` to the direction toward `other`, adds the opposite direction to `other.connected_to`, changes nothing else, returns the square, which is then visited |
| `Grid.InBounds` | src/labpyrinth/maze.py:98-102 | nothing is in bounds on an empty grid, and on a non-empty one both extreme corners are |
| `Grid.AllPositions` | src/labpyrinth/maze.py:28-30 | a position is in `all_positions` exactly when it lies in `[0, width) x [0, height)` |
| `Grid.Inside` | src/labpyrinth/maze.py:31-33 | `inside` is part of the grid and, on a grid at least 3x3, holds (1, 1) |
| `Grid.Circumference` | src/labpyrinth/maze.py:34-35 | `circumference` is part of the grid and shares nothing with `inside` |
| `Grid.BorderPartition` | src/labpyrinth/maze.py:31-35 | `inside` and `circumference` are disjoint and make up the grid; the circumference is exactly the grid positions on the first or last row or column |
| `Grid.FirstOffGrid` | src/labpyrinth/maze.py:55-63 | `next(filter(_out_of_bounds, ...))`: nothing when every position is in bounds, otherwise the earliest position that is off the grid |
| `Grid.BorderCellLeadsOffGrid` | src/labpyrinth/maze.py:59-63 | a border position has a neighbour off the grid, so `next` does not raise |
| `Grid.GoalCentresAsWritten` | src/labpyrinth/maze.py:77-81 | as written, both coordinates of a candidate lie in `[4, width - 4]` |
| `Grid.GoalCentresAsWrittenRange` | src/labpyrinth/maze.py:77-81 | as written, a centre is a candidate exactly when both of its coordinates lie in `[4, width - 4]` |
| `Grid.GoalCentresPlacement` | src/labpyrinth/maze.py:67-89 | with the y range taken from the height, a candidate has x in `[4, width - 4]` and y in `[4, height - 4]`; every goal cell is inside, with at least two cells between it and the outside; a 9x9 or larger maze has a candidate |
| `Grid.GoalCells` | src/labpyrinth/maze.py:83-89 | the goal block holds its centre (`Grid.GoalCellsCharacterised` states the whole block) |
| `Grid.GoalCellsCharacterised` | src/labpyrinth/maze.py:83-89 | the goal cells are the nine positions within one step of the centre on each axis |
| `Grid.GoalMissesBorder` | src/labpyrinth/maze.py:83-89 | the goal block holds its centre, lies on the grid and contains no border position |
| `Grid.GoalCentresAgreeWhenTall` | src/labpyrinth/maze.py:77-81 | when the grid is at least as tall as it is wide, every as-written centre is a correct one; on a square grid the two sets agree |
| `Grid.GoalCentresWiderWhenTaller` | src/labpyrinth/maze.py:79-80 | on a grid at least as tall as wide, the corrected centres beyond the as-written ones are exactly those whose `y` lies in `(width - 4, height - 4]`; (4, 8) on a 9-wide, 12-tall maze is one |
| `Grid.GoalCentreAsWrittenLeavesGrid` | src/labpyrinth/maze.py:77-89 | on a 12x9 maze the as-written range offers the centre (4, 8), whose goal cell (4, 9) is off the grid |
| `Grid.GoalAsWrittenMeetsBorder` | src/labpyrinth/maze.py:77-89 | on a 12x9 maze the as-written range offers the centre (4, 7), whose goal cell (4, 8) is a border position |
| `Grid.GoalLinks` | src/labpyrinth/maze.py:91-95 | every pre-set goal link is one of the four directions (`Grid.GoalLinkTarget` states where it leads) |
| `Grid.GoalLinkToward` | src/labpyrinth/maze.py:93-95 | for an adjacent position, the direction toward it is a pre-set goal link exactly when that position is on the grid and in the goal |
| `Grid.GoalLinkTarget` | src/labpyrinth/maze.py:93-95 | every pre-set goal link is a direction that leads to an adjacent goal cell on the grid |
| `Grid.GoalLinksSymmetric` | src/labpyrinth/maze.py:91-95 | pre-set goal links come in opposite pairs, and the centre is linked on all four sides |
| `Grid.GoalSquareHasGoalNeighbour` | src/labpyrinth/maze.py:93-95 | whenever the goal block lies on the grid, every goal square has at least one goal link, so the loop always reaches the line that adds one |
| `Grid.GoalBlockOnGrid` | src/labpyrinth/maze.py:79-89 | the 3x3 goal block lies on the grid for every corrected centre, and for every as-written centre when `height >= width` |
| `Grid.ClosedRegionCovered` | src/labpyrinth/maze.py:161-170 | a set of positions closed under grid steps that avoid the goal block, and holding one position outside the block, holds all of them |
| `Grid.ClosedGridCovered` | src/labpyrinth/maze.py:152-156 | a set of positions closed under grid steps that holds one grid position holds the whole grid |
| `Mazes.LinksToward` | src/labpyrinth/maze.py:93-95 | every neighbour that is in the goal contributes the direction toward it |
| `Mazes.LinksTowardAppend` | src/labpyrinth/maze.py:93-95 | one more neighbour adds its direction exactly when it is in the goal |
| `Mazes.NewMaze` | src/labpyrinth/maze.py:22-36 | construction fails with `ValueError("Maze must be at least 9x9")` exactly when width or height is below 9; otherwise it yields a maze of that size in the reset state, whose squares are all fresh |
| `Mazes.RemoveFirst` | src/labpyrinth/maze.py:139 | `list.remove` drops one occurrence: the length shrinks by one, the multiset loses exactly that element, and every other element stays |
| `Mazes.RemoveFirstDropsFirst` | src/labpyrinth/maze.py:139 | `list.remove` takes out the element at the first index that holds it and keeps everything before and after that index in order |
| `Mazes.RemoveFirstOfLast` | src/labpyrinth/maze.py:139 | on a list without repeats, removing its last element leaves the prefix before it |
| `Mazes.NotVisited` | src/labpyrinth/maze.py:153-156 | the primary walk's candidates are exactly the given neighbours that are not visited |
| `Mazes.NotAssigned` | src/labpyrinth/maze.py:167-170 | the branching candidates are exactly the given neighbours that are not assigned |
| `Mazes.Maze.constructor` | src/labpyrinth/maze.py:22-36 | a maze of the given size, with a fresh blank square per grid position and an empty `solution` |
| `Mazes.Maze.Reset` | src/labpyrinth/maze.py:43-48 | exactly one fresh blank square per grid position, square `p` at position `p`, and an empty `solution`, whatever the state before |
| `Mazes.Maze.At` | src/labpyrinth/maze.py:38-41 | a grid square at that position when it is in bounds, otherwise the `KeyError` case |
| `Mazes.Maze.SquaresAt` | src/labpyrinth/maze.py:104-108 | the grid squares at the in-bounds positions given, each at its own position; their positions are a subsequence of the positions given, so the order is kept; no repeats when the positions have none |
| `Mazes.Maze.Neighbours` | src/labpyrinth/maze.py:104-108 | exactly the grid squares adjacent to the square, each once |
| `Mazes.Maze.ChooseStart` | src/labpyrinth/maze.py:50-65 | `solution` becomes one border square, marked start, entered from a direction whose neighbour is off the grid; no other square changes |
| `Mazes.Maze.OffGridNeighbour` | src/labpyrinth/maze.py:55-65 | for a border square, the first neighbour position off the grid exists and lies one direction away |
| `Mazes.Maze.MarkGoalSquare` | src/labpyrinth/maze.py:91-96 | the square is marked end and gains the direction toward each of its neighbours that is a goal square, and nothing else |
| `Mazes.Maze.GoalSquareLinks` | src/labpyrinth/maze.py:93-95 | the links a goal square gains toward its grid neighbours are exactly the goal links of its position |
| `Mazes.Maze.MarkGoal` | src/labpyrinth/maze.py:83-96 | each square of the goal is marked end and gains exactly its goal links; no other square and no other field changes |
| `Mazes.Maze.ChooseEnd` | src/labpyrinth/maze.py:67-96 | the centre lies in `[4, width - 4] x [4, height - 4]`, the nine goal cells are on the grid and marked end, each with exactly the directions to its in-bounds goal neighbours |
| `Mazes.Maze.VisitsOne` | src/labpyrinth/maze.py:129-132 | linking one unvisited square removes exactly its position from the unvisited set |
| `Mazes.Maze.Next` | src/labpyrinth/maze.py:110-140 | with candidates, one of them is linked from `here` and appended, and the unvisited set loses exactly it; without, `here` is removed; no marker changes, other squares keep their parents, and when every candidate is unvisited `2 * unvisited + len(list)` drops |
| `Mazes.Maze.ExploredClosed` | src/labpyrinth/maze.py:152-156 | once the walk is empty, the visited positions are closed under grid steps |
| `Mazes.Maze.WalkBegins` | src/labpyrinth/maze.py:149-152 | a one-square walk from a non-goal start, with only the start visited, satisfies the walk invariant |
| `Mazes.Maze.ForwardKeepsPath` | src/labpyrinth/maze.py:129-132 | appending a newly linked, previously unvisited square keeps the list a simple linked path |
| `Mazes.Maze.ForwardKeepsExplored` | src/labpyrinth/maze.py:129-132 | appending the one newly visited square leaves nothing unexplored behind the walk |
| `Mazes.Maze.ForwardKeepsWalk` | src/labpyrinth/maze.py:152-156 | a forward step of the primary walk keeps the walk invariant |
| `Mazes.Maze.WalkKept` | src/labpyrinth/maze.py:138-140 | the walk invariant survives a step that changes no square |
| `Mazes.Maze.BackKeepsExplored` | src/labpyrinth/maze.py:138-140 | dropping the last square, whose neighbours are all visited, leaves nothing unexplored behind the shorter walk |
| `Mazes.Maze.WalkNeverEmpties` | src/labpyrinth/maze.py:152-156 | a walk not at a goal square with nowhere to go has at least two squares, so backtracking never empties `solution` |
| `Mazes.Maze.BackKeepsWalk` | src/labpyrinth/maze.py:138-140 | backtracking from a dead end keeps the walk invariant |
| `Mazes.Maze.PrimaryWalk` | src/labpyrinth/maze.py:152-156 | the walk starts at the start square and ends at the first goal square it enters; it is a simple path of linked adjacent squares with no goal square before its end; markers and goal links stay as they were |
| `Mazes.Maze.WalkStep` | src/labpyrinth/maze.py:152-156 | one pass of the first loop keeps the walk invariant and lowers the measure |
| `Mazes.Maze.WalkForward` | src/labpyrinth/maze.py:153-156 | a pass with unvisited candidates keeps the walk invariant and lowers the measure |
| `Mazes.Maze.WalkBack` | src/labpyrinth/maze.py:153-156 | a pass without candidates keeps the walk invariant, lowers the measure and changes no square |
| `Mazes.Maze.WalkStartsGrowing` | src/labpyrinth/maze.py:158-159 | `solution[:-1]` after the walk satisfies the branching invariant |
| `Mazes.Maze.ForwardKeepsGrowing` | src/labpyrinth/maze.py:167-170 | linking an unassigned square and appending it keeps the branching invariant |
| `Mazes.Maze.GrowingKept` | src/labpyrinth/maze.py:138-140 | the branching invariant survives a step that changes no square |
| `Mazes.Maze.BackKeepsGrowing` | src/labpyrinth/maze.py:138-140 | removing a square whose neighbours are all assigned keeps the branching invariant |
| `Mazes.Maze.GrownCovered` | src/labpyrinth/maze.py:161-170 | once `remainder` is empty, every square is visited or a goal square |
| `Mazes.Maze.PathKept` | src/labpyrinth/maze.py:158-170 | while parents stay put and squares only gain children, a linked path stays one |
| `Mazes.Maze.GrowBranches` | src/labpyrinth/maze.py:161-170 | branching ends with `remainder` empty and nothing left to link; goal squares are untouched, markers unchanged, visited squares keep their parents, and the solution path stays a path |
| `Mazes.Maze.BranchStep` | src/labpyrinth/maze.py:164-170 | one pass of the second loop, from the last element or a random one, keeps the branching invariant, lowers the measure and leaves goal squares untouched |
| `Mazes.Maze.BranchForward` | src/labpyrinth/maze.py:167-170 | a pass with unassigned candidates keeps the branching invariant and lowers the measure |
| `Mazes.Maze.BranchBack` | src/labpyrinth/maze.py:167-170 | a pass without candidates keeps the branching invariant, lowers the measure and changes no square |
| `Mazes.Maze.StartPlaced` | src/labpyrinth/maze.py:149 | after `choose_start` on a reset grid, only the start square is marked or visited and no square has children |
| `Mazes.Maze.ChooseEndAfterStart` | src/labpyrinth/maze.py:150 | `choose_end` after `choose_start`: the start stays the only visited and only start square and is not a goal square; the goal squares are exactly the block, with exactly the goal links; no other square has children |
| `Mazes.Maze.EndPlaced` | src/labpyrinth/maze.py:83-96 | the goal marks set on a grid where only the start is marked: the start stays the only start and only visited square, the goal squares are exactly the block with exactly the goal links, and no other square has children |
| `Mazes.Maze.PlaceStartAndGoal` | src/labpyrinth/maze.py:149-150 | the two placements together: one border start, off-grid entry, a goal block whose squares carry exactly the goal links, only the start visited, and the links a tree |
| `Mazes.Maze.MarkedKept` | src/labpyrinth/maze.py:152-170 | the start and goal markers and the goal links hold as long as no marker and no goal square's links change |
| `Mazes.Maze.Create` | src/labpyrinth/maze.py:142-170 | from a reset maze, `solution` ends as a simple linked path from an off-grid-entered border start to a goal square, with no goal square before its end; the only start and goal squares are the placed ones; every square is assigned; the links form a tree rooted at the start |
| `Mazes.Maze.Generate` | src/labpyrinth/maze.py:152-170 | the two loops of `create` after the placements establish the results of `Create`, the tree of links included |
| `Mazes.Maze.WalkToGoal` | src/labpyrinth/maze.py:152-156 | the first loop leaves in `solution` a walk from the start that ends at a goal square, with the markers kept and the links still a tree |
| `Mazes.Maze.BranchOff` | src/labpyrinth/maze.py:158-170 | the second loop leaves `solution` as it was and still a path, keeps the markers and the tree of links, and leaves every square assigned |
| `Mazes.Maze.TreeBegins` | src/labpyrinth/maze.py:149-150 | with only the start visited and no square outside the goal having children, the links form a tree |
| `Mazes.Maze.TreeGrows` | src/labpyrinth/maze.py:129-132 | linking an unvisited square from a visited one keeps the links a tree, the new square one level below its parent |
| `Mazes.Maze.OthersKept` | src/labpyrinth/maze.py:129-132 | such a link changes no other square's visited state or parent and only adds children |
| `Mazes.Maze.ParentsGrow` | src/labpyrinth/maze.py:129-132 | after such a link every visited square but the start still has its linked parent one level up |
| `Mazes.Maze.ChildrenGrow` | src/labpyrinth/maze.py:129-132 | after such a link every `connected_to` entry outside the goal still leads to a linked child |
| `Mazes.Maze.TreeKept` | src/labpyrinth/maze.py:138-140 | a step that changes no square keeps the tree |
| `Mazes.Maze.PathFromStartBy` | src/labpyrinth/maze.py:129-132 | following parents from a visited square gives a simple linked path from the start, every square on it less deep than the last |
| `Mazes.Maze.PathFromStart` | src/labpyrinth/maze.py:142-170 | while the links form a tree, every visited square is the end of a simple linked path of grid squares from the start |

## Findings

| source | as written | input that shows it | evidently intended | confidence | as-written member | corrected member |
|---|---|---|---|---|---|---|
| src/labpyrinth/maze.py:80 | the y range of the goal centre is `range(4, self.width - 3)` | `Maze(12, 9)`: the centre (4, 8) may be chosen; its goal cell (4, 9) is off the grid and `self[coord]` raises `KeyError` | `range(4, self.height - 3)`, which keeps the whole goal block inside | high, not executed | `Grid.GoalCentreAsWrittenLeavesGrid` | `Grid.GoalCentresPlacement` |
| src/labpyrinth/maze.py:80 | the same y range also lets the goal block reach the border, against the promise of at least two tiles between the goal and the outside (maze.py:71-74) | `Maze(12, 9)` with the centre (4, 7): the goal cells (3, 8), (4, 8) and (5, 8) are on the last row, so there is no tile between the goal and the outside. As written, `choose_end` then fails at line 95 (next row) before `create` reaches its loops; once line 95 is fixed, a start that `choose_start` put on that row is marked `is_end`, the first loop of `create` stops at once and no maze is generated | `range(4, self.height - 3)`, which keeps two cells between the goal and the outside | high, not executed | `Grid.GoalAsWrittenMeetsBorder` | `Grid.GoalMissesBorder` |
| src/labpyrinth/maze.py:95 | `square.vector_to(neighbour)` calls a method that `Square` does not define | any maze whose goal block lies on the grid, which is every maze with `height >= width` (`Grid.GoalCentresAgreeWhenTall`, `Grid.GoalBlockOnGrid`): every goal square has a goal neighbour, so `choose_end` raises `AttributeError` on the first goal square; on wider mazes the `KeyError` of the first row can come first | the direction toward the neighbour, `neighbour.position - square.position` | high, not executed | `Grid.GoalSquareHasGoalNeighbour` | `Mazes.Maze.MarkGoalSquare` |

`Grid.GoalCentresAsWritten` models the range as written. `Grid.GoalCentresAgreeWhenTall` shows that the bug cannot occur when `height >= width`. `Mazes.Maze.ChooseEnd` draws its centre from the corrected set `Grid.GoalCentres`.

## Left out

- Rendering, event handling, the window loop and packaging are not part of this model. This covers `src/labpyrinth/drawing.py`, `events.py`, `__init__.py`, `constants.py` and `setup.py`.
- `Coordinate.as_vector` is not modelled: it wraps a `pygame` vector.
- `__repr__`, `__iter__` and `__hash__` are not modelled. They are Python protocol plumbing.
- `Coordinate.__eq__` also accepts any pair it can unpack, such as a tuple. Only coordinate-to-coordinate equality is modelled, and `__getitem__`'s tuple-to-`Coordinate` conversion is left out.
- The probability distribution of `random.choice` is not modelled. Each choice is an arbitrary element of a non-empty candidate collection.
- Determinism under a fixed random source is not stated: the choices are nondeterministic.
- Mazes.Maze.Next: returns only the principal reported square, either the newly linked square or the removed one. The assigned neighbours that `_next` also yields for re-rendering are not returned, nor are the squares that `choose_start` and `choose_end` yield.
- Suspending and resuming between steps is not modelled. A step requested after `create` is exhausted is not modelled either. Each loop of `create` runs to completion.
- The lists `_next` changes in place (`solution`, `remainder`) are passed to and returned from `Mazes.Maze.Next` as values, so aliasing between them is not modelled. `remainder` is a copy in the source, so nothing is lost.
- Mazes.Maze.ChooseEnd: draws from the corrected centre range, not the range as written (see Findings). On square grids the two sets are equal. On taller grids every centre the code can pick is one the model can pick, and the model can also pick centres whose `y` lies in `(width - 4, height - 4]` (`Grid.GoalCentresWiderWhenTaller`).
