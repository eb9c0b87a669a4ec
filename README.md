# Smart warehouse routing: a verified model of its algorithms

The warehouse-routing application places items and obstacles on a 20 by 20 grid. It computes the convex hull of the items with Andrew's monotone chain and records every intermediate chain so that the hull can be replayed. It then finds a route between two items by breadth-first search. The search moves only through grid cells that are free of obstacles and lie inside the hull, and "inside" is decided by the even-odd ray-casting test.

This project models those algorithms in Dafny and proves what they guarantee:

- `HullSteps` (hull_steps.dfy) models `computeConvexHullSteps`. The sort, the lower and upper chain scans with their pops and pushes, and the snapshot log are all modelled. `ComputeConvexHullSteps` keeps the source's local `lower`, `upper` and `steps` sequences and its loops. It is proved equal to the pure definition `HullSteps`, whose properties are proved as lemmas:
  - every chain turns strictly left;
  - each chain starts at its extreme point;
  - the log length is exact;
  - each snapshot has a known shape;
  - the final hull is the last snapshot;
  - two worked examples, a collinear triple and a square with its centre.
- `HullConvexity` (hull_convexity.dfy) proves what the final hull is for. Every input point lies on or left of every edge of the final hull, the closing edge included. When the hull has three or more vertices, it turns strictly left at every vertex, so it is a convex polygon in counter-clockwise order.
- `RayCasting` (point_in_polygon.dfy) models `pointInPolygon`. The i/j loop is proved to compute the parity of the number of crossing edges. Lemmas cover flat edges, the closing vertex, rotation, the vertical range and the behaviour on the boundary.
- `GridSearch` (grid_search.dfy) holds what both path finders share:
  - the four moves and 4-adjacency;
  - walks and shortest walks;
  - the breadth-first invariants of the queue and the parent links, and the lemmas showing they are preserved;
  - the lemmas showing that the goal, when dequeued, has a shortest walk back along the parent links, and that an empty queue means the goal is unreachable.
- `ImprovedPathfinding` (improved_pathfinding.dfy) models `findPath` and `reconstructPath` of src/utils/improvedPathfinding.js:
  - it validates the inputs;
  - it searches over `maze[y][x]` with 2-D `visited` and `parent` arrays;
  - it rebuilds the path by `unshift`.

  The result is the empty path for invalid inputs. Otherwise it is a shortest walk through open cells, or empty when none exists.
- `RatMaze` (rat_maze.dfy) models `findPath` of src/utils/ratMaze.jsx:
  - the grid is transposed, indexed `maze[x][y]`;
  - a cell is accepted only when it reads `=== 0`;
  - the loop stops with `break`;
  - the path is rebuilt by push, then reverse.

  A reachable end gives a shortest walk. An unreachable end gives the one-cell list `[end]`, as the code does.
- `App` (app.dfy) models the parts of `computeConvexHull` and `computePath` in src/App.jsx that decide the outcome:
  - the construction of the 20 by 20 obstacle grid;
  - the guards before each algorithm, with alerts as outcome values.

  It proves that the grid's `[y][x]` write matches the path finder's `[newY][newX]` read, that ratMaze would read the same grid transposed, and that a route avoids every obstacle and stays inside the hull.
- `Geometry` (geometry.dfy) holds the point type, `Option` and sequence reversal.

Coordinates are integers. The cross product is exact. The ray-casting division is done exactly in `real`, and the source's `0.0000001` added to the denominator is kept.

The search loops keep ghost companions beside the source's arrays:
- `dist`, the hop count at which each cell was reached;
- `par`, the parent links;
- `closed`, the cells already expanded.

Predicates tie `visited` and `parent` to these ghost values cell by cell. The body of each source `findPath` is split into helper methods, each with its own contract:
- `StartSearch` sets up the arrays;
- `Search` runs the while-loop;
- `Explore` runs the for-loop over the directions;
- `VisitDirection` is one turn of that for-loop;
- `TryNeighbour` makes the checks and updates for one neighbour.

## Model

| member | source | states |
|---|---|---|
| HullSteps.ComputeConvexHullSteps | src/utils/convexHullSteps.jsx:1-40 | the returned log equals the specification `HullSteps(points)`: the snapshots of the lower scan over the sorted copy, then those of the upper scan over it reversed, then the final hull, which is its last entry |
| HullSteps.ScanLower | src/utils/convexHullSteps.jsx:10-20 | the first for-loop, with upper still empty, leaves `lower == Chain(sorted)` and logs exactly `ChainLog(true, [], sorted)`, one snapshot per pop and per push |
| HullSteps.ScanUpper | src/utils/convexHullSteps.jsx:22-33 | the second loop, from the last index down to 0, leaves `upper` as the chain of the reversed sorted points and appends that scan's snapshots, each being the finished lower chain followed by upper |
| HullSteps.LessEqOrder | src/utils/convexHullSteps.jsx:2 | a may precede b exactly when the comparator (`a.x - b.x`, or `a.y - b.y` on equal x) is not positive, and this order is total, antisymmetric and transitive |
| HullSteps.SortPointsCorrect | src/utils/convexHullSteps.jsx:2 | the sorted copy is ordered by x, then by y, and is a permutation of the input |
| HullSteps.SortedUnique | src/utils/convexHullSteps.jsx:2 | any two sorted permutations of the same points are equal, so which sorting algorithm the runtime uses, and whether it is stable, does not change the result |
| HullSteps.SortPointsUnique | src/utils/convexHullSteps.jsx:2 | a sorted permutation of the input is exactly the modelled sorted copy |
| HullSteps.PopNonLeft | src/utils/convexHullSteps.jsx:11-17 | the inner while-loop only removes points from the end, never leaves fewer than one point when it starts with one, and stops with a strict left turn towards the next point (or fewer than two points) |
| HullSteps.PushKeepsLeftTurns | src/utils/convexHullSteps.jsx:11-19 | if every three consecutive chain points turn strictly left, they still do after the pops and the push of p |
| HullSteps.ChainShape | src/utils/convexHullSteps.jsx:10-20 | a scanned chain is empty exactly for no points; otherwise it starts at the first scanned point (never popped), ends at the last one, turns strictly left throughout and holds only scanned points |
| HullSteps.ChainEnds | src/utils/convexHullSteps.jsx:10-33 | for n >= 1, `lower[0]` is `sorted[0]`, `upper[0]` is `sorted[n-1]`, and both chains turn strictly left at every point |
| HullSteps.ChainLogLength | src/utils/convexHullSteps.jsx:15-19 | one scan logs one snapshot per scanned point, since each is pushed once, plus one per pop (scanned points minus those remaining) |
| HullSteps.StepCount | src/utils/convexHullSteps.jsx:16-37 | the log has 2n push snapshots, one per pop of either chain, and the final one |
| HullSteps.ChainLogSnapshots | src/utils/convexHullSteps.jsx:16-32 | every snapshot of a scan is the current chain, which is a strict-left-turning chain of scanned points, joined with the other chain in the order `[...lower, ...upper]` |
| HullSteps.LowerPhaseSnapshots | src/utils/convexHullSteps.jsx:10-20 | the first part of the log is the lower scan's, and since upper is empty then, each of those snapshots is a lower chain alone |
| HullSteps.UpperPhaseSnapshots | src/utils/convexHullSteps.jsx:22-33 | every snapshot of the upper scan starts with the finished lower chain, followed by a strict-left-turning chain of the reversed sorted points |
| HullSteps.FinalSnapshot | src/utils/convexHullSteps.jsx:35-37 | the last snapshot is lower minus its last point followed by upper minus its last point; it is empty for zero or one point, and otherwise two shorter than the two chains together |
| HullSteps.FinalHullPoints | src/utils/convexHullSteps.jsx:35-37 | the final hull holds only input points |
| HullConvexity.CrossRotate | src/utils/convexHullSteps.jsx:3-4 | `cross(o, a, b)` is unchanged when its three points are rotated, and changes sign when the last two are swapped |
| HullConvexity.CrossSelf | src/utils/convexHullSteps.jsx:3-4 | `cross` is 0 when a point is repeated |
| HullConvexity.TurnsCompose | src/utils/convexHullSteps.jsx:13 | two consecutive strict left turns through points in sort order make the outer triangles strict left turns too |
| HullConvexity.BetweenStaysLeft | src/utils/convexHullSteps.jsx:13 | a point between two others in sort order, and not right of the chord joining them, is on or left of every directed edge that has both of them on or left of it |
| HullConvexity.ChainSupportsAll | src/utils/convexHullSteps.jsx:10-20 | the lower chain of sorted points is sorted, and every scanned point is on or left of every one of its edges |
| HullConvexity.UpperSupportsAll | src/utils/convexHullSteps.jsx:22-33 | every point is on or left of every edge of the upper chain |
| HullConvexity.NegChain | src/utils/convexHullSteps.jsx:10-33 | negating every point commutes with the scan, so the upper scan is the lower scan of the negated points |
| HullConvexity.GluedChainsEnclose | src/utils/convexHullSteps.jsx:35-37 | two chains joined end to end, each without its last point, close into a polygon with every supported point on or left of each edge |
| HullConvexity.HullEncloses | src/utils/convexHullSteps.jsx:35-37 | every input point lies on or left of every edge of the final hull, including the closing edge from its last vertex to its first |
| HullConvexity.ShortIfCollinear | src/utils/convexHullSteps.jsx:13 | when all points lie on one line, both chains keep at most two points |
| HullConvexity.FlatJunction | src/utils/convexHullSteps.jsx:13-37 | the lower chain's last edge and the upper chain's first point can be collinear only when all points lie on one line |
| HullConvexity.JunctionTurn | src/utils/convexHullSteps.jsx:35-37 | when the two chains hold five or more points together, the hull turns strictly left where lower hands over to upper |
| HullConvexity.ClosingTurn | src/utils/convexHullSteps.jsx:35-37 | the same holds where upper closes back onto lower |
| HullConvexity.GluedChainsConvex | src/utils/convexHullSteps.jsx:35-37 | two strictly-left-turning chains joined by strict left turns at both junctions give a polygon that turns strictly left at every vertex, wrap-around included |
| HullConvexity.SortedChainsConvex | src/utils/convexHullSteps.jsx:10-37 | for two or more sorted points, the two chains joined as the source joins them form a convex polygon |
| HullConvexity.HullConvex | src/utils/convexHullSteps.jsx:35-37 | the final hull of any input, when it has three or more vertices, turns strictly left at every vertex, so it is convex and counter-clockwise |
| HullSteps.CollinearTriple | src/utils/convexHullSteps.jsx:13 | for three distinct sorted collinear points the middle one is popped from both chains, and the hull is the two end points |
| HullSteps.CollinearExample | src/utils/convexHullSteps.jsx:13 | (0,0),(1,1),(2,2) ends as [(0,0),(2,2)] |
| HullSteps.SquareExample | src/utils/convexHullSteps.jsx:13-37 | the square corners (0,0),(4,0),(4,4),(0,4) with the centre (2,2) end as [(0,0),(4,0),(4,4),(0,4)], after a log of 15 snapshots |
| HullSteps.TwoPopsChain | src/utils/convexHullSteps.jsx:11-19 | a point that makes two earlier points non-left turns pops both of them: the chain keeps only the first point, the point that pops, and the next |
| RayCasting.PointInPolygon | src/utils/pointInPolygon.js:2-20 | the i/j loop returns the parity of the number of crossing edges over all wrap-around edges (polygon[j], polygon[i]); an empty polygon gives false |
| RayCasting.Crosses | src/utils/pointInPolygon.js:13-15 | an edge toggles the flag only when one end is strictly above the point's height and the other is not |
| RayCasting.EdgesWrapAround | src/utils/pointInPolygon.js:7 | the loop visits one edge per vertex: first the closing edge from the last vertex to the first, then each vertex from its predecessor |
| RayCasting.CrossingsStep | src/utils/pointInPolygon.js:13-16 | each visited edge toggles the flag exactly when it crosses |
| RayCasting.CrossingsAppend | src/utils/pointInPolygon.js:7-17 | the crossing count of two runs of edges is the sum of their counts |
| RayCasting.FlatEdgeNeverCrosses | src/utils/pointInPolygon.js:14 | an edge with equal end heights (horizontal or zero-length) never toggles the flag |
| RayCasting.FlatEdgesIgnored | src/utils/pointInPolygon.js:14 | dropping every flat edge keeps the crossing count |
| RayCasting.NoStraddleNoCrossing | src/utils/pointInPolygon.js:14 | edges that do not straddle the point's horizontal line add no crossing |
| RayCasting.OutsideVerticalRange | src/utils/pointInPolygon.js:14 | a point at or above every vertex, or strictly below every vertex, is reported outside |
| RayCasting.ClosingVertexIgnored | src/utils/pointInPolygon.js:7-14 | appending a copy of the first vertex leaves the result unchanged |
| RayCasting.RotatedEdges | src/utils/pointInPolygon.js:7-11 | starting the vertex list at vertex k visits the same oriented edges, rotated by k |
| RayCasting.RotationInvariant | src/utils/pointInPolygon.js:7-11 | rotating the vertex list leaves the result unchanged |
| RayCasting.SquareBoundaryExample | src/utils/pointInPolygon.js:13-16 | there is no on-edge test: on the square (0,0),(4,0),(4,4),(0,4), the bottom-side point (2,0) is inside and the top-side point (2,4) is outside |
| GridSearch.NeighboursAreMoves | src/utils/improvedPathfinding.js:34-39 | the four moves (0,+1),(+1,0),(0,-1),(-1,0), with dx added to x, reach exactly the cells that differ by one in exactly one coordinate |
| GridSearch.Neighbour | src/utils/improvedPathfinding.js:62-64 | `current.x + dx`, `current.y + dy` is always a 4-neighbour of the current cell |
| GridSearch.NeighboursDistinct | src/utils/improvedPathfinding.js:34-39 | the four moves reach four different cells |
| GridSearch.DiscoveredCells | src/utils/improvedPathfinding.js:62-89 | the cells queued by the first d moves are open, unvisited neighbours; every open, unvisited neighbour reached by those moves is among them; none is reached by a later move |
| GridSearch.NeighboursQueuedStep | src/utils/improvedPathfinding.js:62-89 | trying the d-th move turns the state after d moves into the state after d+1: the new neighbour is appended to the queue, one hop farther and with the current cell as parent, exactly when it is open and unvisited |
| GridSearch.NothingQueued | src/utils/improvedPathfinding.js:62-89 | the for-loop only adds visited cells, and when it adds none the queue is unchanged |
| GridSearch.NeighboursNear | src/utils/improvedPathfinding.js:62-89 | after the for-loop every open neighbour of the current cell is visited, at most one hop farther |
| GridSearch.SameEndpoints | src/utils/improvedPathfinding.js:56-59 | when start and end coincide, the answer is the one-cell path [start] |
| GridSearch.InitInv | src/utils/improvedPathfinding.js:46-47 | the queue holding start alone, with only start visited, is a breadth-first frontier with an empty parent tree |
| GridSearch.EnqueuePreserves | src/utils/improvedPathfinding.js:86-89 | marking an unvisited open neighbour visited, setting its parent to the current cell and queueing it keeps every cell queued at most once and the queue ordered by distance, and gives the new cell a parent one hop closer |
| GridSearch.ClosePreserves | src/utils/improvedPathfinding.js:51-90 | once every open neighbour of the dequeued cell is visited, expanding it keeps the frontier invariant |
| GridSearch.WalkMeetsFrontier | src/utils/improvedPathfinding.js:51-91 | every walk from start either ends at an expanded cell, no farther than the walk is long, or ends elsewhere, and then the queue's front is no farther than the walk is long |
| GridSearch.FrontIsNearest | src/utils/improvedPathfinding.js:56-58 | when the goal is at the front of the queue, its parent chain is a shortest walk from start |
| GridSearch.ExhaustedMeansUnreachable | src/utils/improvedPathfinding.js:93-94 | when the queue runs out without the goal, no walk reaches the goal |
| GridSearch.TreeWalkIsWalk | src/utils/improvedPathfinding.js:98-111 | following the parent links from a visited cell back to start gives a walk from start of dist hops |
| GridSearch.TreeWalkStep | src/utils/improvedPathfinding.js:103-106 | one step back along the parent links reaches a cell strictly closer to start |
| GridSearch.VisitedShrinkArea | src/utils/improvedPathfinding.js:47-89 | visiting new in-bounds cells shrinks the set of unvisited cells of the grid, so at most rows times cols cells are ever queued and the loop ends |
| ImprovedPathfinding.ValidInputs | src/utils/improvedPathfinding.js:15-32 | accepted inputs have both ends given and on the grid, and a hull of three or more points |
| ImprovedPathfinding.Obstacle | src/utils/improvedPathfinding.js:77 | a cell past the end of a short row is never an obstacle, as `undefined === 1` is false |
| ImprovedPathfinding.FindPath | src/utils/improvedPathfinding.js:4-95 | invalid inputs (a missing end, a hull under three points, an end out of bounds) give []; otherwise the result is a shortest walk from start to end through in-bounds, non-obstacle cells inside the hull when one exists, and [] when none does |
| ImprovedPathfinding.Search | src/utils/improvedPathfinding.js:42-94 | the search loop reports the goal found exactly when it is reachable, and then the parent arrays hold a shortest walk to it |
| ImprovedPathfinding.StartSearch | src/utils/improvedPathfinding.js:42-47 | the arrays start with no parent anywhere and only start visited |
| ImprovedPathfinding.Explore | src/utils/improvedPathfinding.js:62-90 | after the for-loop the queue is the old queue followed by the open, unvisited neighbours in move order; those are visited one hop farther with the current cell as parent, nothing visited before changes, every open neighbour is visited at most one hop farther, the frontier and the parent tree are kept, and the arrays mirror them |
| ImprovedPathfinding.VisitDirection | src/utils/improvedPathfinding.js:62-89 | one turn of the for-loop extends the state after d moves to the state after d+1, keeping the frontier, the parent tree and the arrays' mirror |
| ImprovedPathfinding.TryNeighbour | src/utils/improvedPathfinding.js:66-89 | when the neighbour is open (in bounds, not 1, inside the hull) and unvisited, it is appended to the queue, visited one hop farther and given the current cell as parent; otherwise queue, distances and parents are unchanged; the arrays mirror the new state |
| ImprovedPathfinding.ReconstructPath | src/utils/improvedPathfinding.js:98-115 | following `parent[y][x]` back from end and unshifting gives exactly the parent-link walk from start to end, of dist + 1 cells |
| RatMaze.Free | src/utils/ratMaze.jsx:30-36 | a cell past the end of a short column is never free, as `undefined === 0` is false |
| RatMaze.FindPath | src/utils/ratMaze.jsx:3-57 | a reachable end gives a shortest walk from start through free cells inside the polygon, read as `maze[x][y]`; an unreachable end gives [end], not [] |
| RatMaze.Search | src/utils/ratMaze.jsx:13-44 | the loop stops at the first dequeue of end; a reachable end has been visited with a shortest parent walk, and an unreachable one was never visited |
| RatMaze.StartSearch | src/utils/ratMaze.jsx:13-18 | the arrays start with no parent anywhere and only start visited, indexed `[x][y]` |
| RatMaze.Explore | src/utils/ratMaze.jsx:25-43 | after the for-loop the queue is the old queue followed by the free, unvisited neighbours inside the polygon in move order; those are visited one hop farther with the current cell as parent, nothing visited before changes, every such neighbour is visited at most one hop farther, and the frontier and parent tree are kept |
| RatMaze.VisitDirection | src/utils/ratMaze.jsx:25-42 | one turn of the for-loop extends the state after d moves to the state after d+1, keeping the frontier, the parent tree and the arrays' mirror |
| RatMaze.TryNeighbour | src/utils/ratMaze.jsx:30-42 | when the neighbour is in bounds, reads `=== 0`, is inside the polygon and is unvisited, it is appended to the queue, visited one hop farther and given the current cell as parent; otherwise queue, distances and parents are unchanged |
| RatMaze.Reconstruct | src/utils/ratMaze.jsx:46-56 | pushing from end back along the parent links and reversing gives the parent walk when end was visited, and [end] when it was not |
| App.ObstacleGrid | src/App.jsx:96-99 | the grid has 20 rows of 20 cells, and every listed obstacle on the grid is 1 at row y, column x |
| App.BuildMaze | src/App.jsx:96-99 | the grid built by the fill and the forEach is exactly `ObstacleGrid(obstacles)` |
| App.GridStep | src/App.jsx:97-99 | one more obstacle sets only its own cell to 1 when in range, and changes nothing otherwise |
| App.GridShape | src/App.jsx:96-99 | the grid has 20 rows of 20 cells, each 0 or 1, and out-of-range obstacles leave no mark |
| App.GridMatchesImprovedRead | src/App.jsx:98 | the path finder's `maze[newY][newX] === 1` read sees an obstacle at (x, y) exactly when one is listed there |
| App.GridTransposedInRatMaze | src/utils/ratMaze.jsx:36 | ratMaze would read the application's grid transposed: it finds (x, y) free exactly when no obstacle is listed at (y, x) |
| App.RouteAvoidsObstacles | src/App.jsx:96-103 | every cell of a route after start is on the grid, not a listed obstacle, and inside the hull |
| App.ComputeConvexHull | src/App.jsx:70-76 | the hull is refused exactly when fewer than three items exist; otherwise the replay log of the items is computed, ending with the final hull |
| App.ComputePath | src/App.jsx:86-108 | each alert is given exactly under its guard, in the source's order: a missing selection, a missing hull, an invalid index, the same item. A route is a shortest walk between the two items through open cells; "No path found." means invalid inputs to the path finder or no walk |

## Left out

- React state, `alert` (modelled as outcome values), the `setInterval` hull animation, the random generation of items and obstacles, the About text and the rendering components.
- The `try`/`catch` around the path finder in `computePath`: under the guards the call cannot throw, so the catch branch is not modelled.
- src/utils/findPath.js, src/utils/convexHull.jsx and src/utils/debugUtils.js are not part of this model. They rely on a plotting library and on functions that are not defined in the repository, and the application does not call them.
- `console.log` and `console.error` output and the `nodesExplored` counter of improvedPathfinding.js.
- IEEE-754 arithmetic. Coordinates are integers, the cross product is exact, and the ray-casting intersection is computed exactly in `real`. Rounding of the division is therefore not modelled.
- The JavaScript sort. The model sorts by insertion, and `SortedUnique` shows that every correct sort of the same points gives the same copy.
- ImprovedPathfinding.FindPath: `hull` is a sequence, so a null hull cannot be passed. In the source it throws at the first `console.log` before any check, so the `!convexHull` test never fires. The maze must have at least one row, because `maze[0].length` throws otherwise.
- RatMaze.FindPath: start must be in bounds. Out of bounds, `visited[start.x]` throws, or a property outside the array is written. The end must be start or have `end.x` within the rows, because `parent[end.x]` throws otherwise. These are preconditions, not modelled exceptions.
- ImprovedPathfinding.Search: the bound of rows times cols dequeues is the loop's termination measure (`VisitedShrinkArea`), not a numeric postcondition.
- The "Right/Down/Left/Up" comments beside the direction list. The model follows the arithmetic: dx is added to x.
- RatMaze.Reconstruct: `path.reverse()` works in place on the array. The model reverses a sequence value.
- ImprovedPathfinding.FindPath and RatMaze.FindPath: each body is split into helper methods (`StartSearch`, `Search`, `Explore`, `VisitDirection`, `TryNeighbour`) that together make up one source function. The source's `return` from inside the loop is modelled as `Search` returning `found`.
- Boundary points: the code has no on-edge test, so a point on an edge is inside or outside as the parity decides (`RayCasting.SquareBoundaryExample`).
- HullSteps.FinalHullPoints: the final hull holds only input points, but it need not list each point once: for repeated input points a hull vertex can appear twice, so no uniqueness is claimed.
