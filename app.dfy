/**
 * The glue of src/App.jsx around the algorithms: the 20 by 20 occupancy
 * grid built from the obstacle list, and the guards that decide whether the
 * hull and the path are computed. React state, alerts and the hull
 * animation are not part of this model; an alert is an outcome value here.
 */
module App {
  import opened Geometry
  import opened RayCasting
  import opened GridSearch
  import HullSteps
  import ImprovedPathfinding
  import RatMaze

  /** The grid is `Size` rows of `Size` cells. */
  const Size: int := 20

  /** The grid computePath builds: 1 at row y, column x exactly when (x, y) is an obstacle, 0 elsewhere. */
  function ObstacleGrid(obstacles: seq<Point>): (g: seq<seq<int>>)
    ensures |g| == Size && forall y :: 0 <= y < Size ==> |g[y]| == Size
    ensures forall p :: p in obstacles && 0 <= p.x < Size && 0 <= p.y < Size ==> g[p.y][p.x] == 1
  {
    seq(Size, y => seq(Size, x => if Point(x, y) in obstacles then 1 else 0))
  }

  /**
   * `Array.from({ length: 20 }, () => Array(20).fill(0))`, then for each
   * obstacle in range `maze[y][x] = 1`.
   */
  method BuildMaze(obstacles: seq<Point>) returns (maze: seq<seq<int>>)
    ensures maze == ObstacleGrid(obstacles)
  {
    maze := seq(Size, y => seq(Size, x => 0));
    SameGrid(maze, ObstacleGrid(obstacles[..0]));
    for i := 0 to |obstacles|
      invariant maze == ObstacleGrid(obstacles[..i])
    {
      var p := obstacles[i];
      assert obstacles[..i + 1] == obstacles[..i] + [p];
      GridStep(obstacles[..i], p);
      if p.x >= 0 && p.x < Size && p.y >= 0 && p.y < Size {
        maze := maze[p.y := maze[p.y][p.x := 1]];
      }
    }
    assert obstacles[..|obstacles|] == obstacles;
  }

  /** One more obstacle sets its own cell when it is in range and changes nothing otherwise. */
  lemma GridStep(obstacles: seq<Point>, p: Point)
    ensures var g := ObstacleGrid(obstacles);
            ObstacleGrid(obstacles + [p])
            == if 0 <= p.x < Size && 0 <= p.y < Size then g[p.y := g[p.y][p.x := 1]] else g
  {
    var g, h := ObstacleGrid(obstacles), ObstacleGrid(obstacles + [p]);
    var r := if 0 <= p.x < Size && 0 <= p.y < Size then g[p.y := g[p.y][p.x := 1]] else g;
    forall y, x | 0 <= y < Size && 0 <= x < Size
      ensures h[y][x] == r[y][x]
    {
      assert Point(x, y) in obstacles + [p] <==> Point(x, y) in obstacles || Point(x, y) == p;
    }
    SameGrid(h, r);
  }

  /** Two grids of 20 by 20 cells that agree cell by cell are equal. */
  lemma SameGrid(a: seq<seq<int>>, b: seq<seq<int>>)
    requires |a| == Size && |b| == Size
    requires forall y :: 0 <= y < Size ==> |a[y]| == Size && |b[y]| == Size
    requires forall y, x :: 0 <= y < Size && 0 <= x < Size ==> a[y][x] == b[y][x]
    ensures a == b
  {
    forall y | 0 <= y < Size ensures a[y] == b[y] {
      assert forall x :: 0 <= x < Size ==> a[y][x] == b[y][x];
    }
  }

  /** The grid has 20 rows of 20 cells, each 0 or 1, and out-of-range obstacles leave no mark. */
  lemma GridShape(obstacles: seq<Point>)
    ensures |ObstacleGrid(obstacles)| == Size
    ensures forall y :: 0 <= y < Size ==> |ObstacleGrid(obstacles)[y]| == Size
    ensures forall y, x :: 0 <= y < Size && 0 <= x < Size ==> ObstacleGrid(obstacles)[y][x] in {0, 1}
    ensures forall p :: p in obstacles && !(0 <= p.x < Size && 0 <= p.y < Size) ==>
              ObstacleGrid(obstacles) == ObstacleGrid(Remove(obstacles, p))
  {
    forall p | p in obstacles && !(0 <= p.x < Size && 0 <= p.y < Size)
      ensures ObstacleGrid(obstacles) == ObstacleGrid(Remove(obstacles, p))
    {
      RemoveKeeps(obstacles, p);
      SameGrid(ObstacleGrid(obstacles), ObstacleGrid(Remove(obstacles, p)));
    }
  }

  /** The obstacle list without any copy of p. */
  function Remove(obstacles: seq<Point>, p: Point): seq<Point>
  {
    if obstacles == [] then []
    else (if obstacles[0] == p then [] else [obstacles[0]]) + Remove(obstacles[1..], p)
  }

  lemma {:induction false} RemoveKeeps(obstacles: seq<Point>, p: Point)
    ensures forall q :: q in Remove(obstacles, p) <==> q in obstacles && q != p
    decreases |obstacles|
  {
    if obstacles != [] {
      RemoveKeeps(obstacles[1..], p);
      assert obstacles == [obstacles[0]] + obstacles[1..];
    }
  }

  /**
   * The `[y][x]` write matches the `[newY][newX]` read of improvedPathfinding:
   * the path finder sees an obstacle at (x, y) exactly when one was listed there.
   */
  lemma GridMatchesImprovedRead(obstacles: seq<Point>, x: int, y: int)
    requires 0 <= x < Size && 0 <= y < Size
    ensures ImprovedPathfinding.Obstacle(ObstacleGrid(obstacles), x, y) <==> Point(x, y) in obstacles
  {
  }

  /**
   * ratMaze reads the same grid transposed: it finds cell (x, y) free
   * exactly when no obstacle was listed at (y, x).
   */
  lemma GridTransposedInRatMaze(obstacles: seq<Point>, x: int, y: int)
    requires 0 <= x < Size && 0 <= y < Size
    ensures RatMaze.Free(ObstacleGrid(obstacles), x, y) <==> Point(y, x) !in obstacles
  {
  }

  /**
   * A route through the open cells of the grid stays on the grid, inside
   * the hull and off every listed obstacle after its first cell.
   */
  lemma RouteAvoidsObstacles(obstacles: seq<Point>, hull: seq<Point>, s: Point, e: Point, path: seq<Point>)
    requires WalkTo(ImprovedPathfinding.OpenCells(ObstacleGrid(obstacles), hull), s, e, path)
    ensures forall k :: 0 < k < |path| ==>
              && 0 <= path[k].x < Size && 0 <= path[k].y < Size
              && path[k] !in obstacles && Inside(path[k], hull)
  {
    var g := ObstacleGrid(obstacles);
    forall k | 0 < k < |path|
      ensures 0 <= path[k].x < Size && 0 <= path[k].y < Size && path[k] !in obstacles && Inside(path[k], hull)
    {
      var c := path[k];
      assert c in ImprovedPathfinding.OpenCells(g, hull);
      GridMatchesImprovedRead(obstacles, c.x, c.y);
    }
  }

  // ---------------------------------------------------------------------
  // The guards
  // ---------------------------------------------------------------------

  /** What `computeConvexHull` does: refuse with an alert, or compute the replay log. */
  datatype HullOutcome = TooFewItems | Steps(steps: seq<seq<Point>>)

  /** `computeConvexHull`: at least three items are needed. */
  method ComputeConvexHull(items: seq<Point>) returns (outcome: HullOutcome)
    ensures outcome.TooFewItems? <==> |items| < 3
    ensures outcome.Steps? ==> outcome.steps == HullSteps.HullSteps(items)
                               && outcome.steps[|outcome.steps| - 1] == HullSteps.FinalHull(items)
  {
    if |items| < 3 {
      return TooFewItems;
    }
    var steps := HullSteps.ComputeConvexHullSteps(items);
    return Steps(steps);
  }

  /** What `computePath` does: one of its four alerts before the search, "No path found.", or a path. */
  datatype PathOutcome = SelectionMissing | HullMissing | InvalidSelection | SameItem | NoPathFound | Route(path: seq<Point>)

  /**
   * `computePath`. The selections are item indices, null when unset; an
   * index outside the item list selects undefined. The checks run in the
   * source's order; then the grid is built and the path finder called.
   */
  method ComputePath(items: seq<Point>, obstacles: seq<Point>, hull: seq<Point>, start: Option<int>, end: Option<int>)
    returns (outcome: PathOutcome)
    ensures outcome.SelectionMissing? <==> start.None? || end.None?
    ensures outcome.HullMissing? <==> start.Some? && end.Some? && hull == []
    ensures outcome.InvalidSelection? <==>
              start.Some? && end.Some? && hull != [] && !(0 <= start.value < |items| && 0 <= end.value < |items|)
    ensures outcome.SameItem? <==>
              start.Some? && end.Some? && hull != [] && 0 <= start.value < |items| && 0 <= end.value < |items|
              && items[start.value] == items[end.value]
    ensures outcome.NoPathFound? || outcome.Route? ==>
              start.Some? && end.Some? && 0 <= start.value < |items| && 0 <= end.value < |items|
              && hull != [] && items[start.value] != items[end.value]
    ensures outcome.Route? ==>
              var maze, s, e := ObstacleGrid(obstacles), items[start.value], items[end.value];
              ImprovedPathfinding.ValidInputs(maze, Some(s), Some(e), hull)
              && ShortestWalk(ImprovedPathfinding.OpenCells(maze, hull), s, e, outcome.path)
    ensures outcome.NoPathFound? ==>
              var maze, s, e := ObstacleGrid(obstacles), items[start.value], items[end.value];
              !ImprovedPathfinding.ValidInputs(maze, Some(s), Some(e), hull)
              || !Reachable(ImprovedPathfinding.OpenCells(maze, hull), s, e)
  {
    if start.None? || end.None? {
      return SelectionMissing;
    }
    if hull == [] {
      return HullMissing;
    }
    if !(0 <= start.value < |items|) || !(0 <= end.value < |items|) {
      return InvalidSelection;
    }
    var s, e := items[start.value], items[end.value];
    if s.x == e.x && s.y == e.y {
      return SameItem;
    }
    var maze := BuildMaze(obstacles);
    var path := ImprovedPathfinding.FindPath(maze, Some(s), Some(e), hull);
    if |path| > 0 {
      outcome := Route(path);
    } else {
      outcome := NoPathFound;
    }
  }
}
