/**
 * The path finder the application calls (src/utils/improvedPathfinding.js):
 * input validation, then breadth-first search over an occupancy grid read
 * as `maze[y][x]`, confined to cells that are not obstacles and lie inside
 * the hull by the ray-casting test, then path reconstruction along the
 * parent links.
 *
 * `visited` and `parent` are the source's 2-D arrays, indexed `[y, x]`; the
 * ghost values `dist`, `closed` and `par` of the search state (see module
 * GridSearch) ride along so that the loop can be proved to return a
 * shortest walk.
 */
module ImprovedPathfinding {
  import opened Geometry
  import opened RayCasting
  import opened GridSearch

  /**
   * `maze[y][x] === 1`. Rows may differ in length: a cell past the end of its
   * row reads as undefined, which is not 1.
   */
  predicate Obstacle(maze: seq<seq<int>>, x: int, y: int): (r: bool)
    requires 0 <= y < |maze| && 0 <= x
    ensures x >= |maze[y]| ==> !r
  {
    x < |maze[y]| && maze[y][x] == 1
  }

  /** The cells the search may enter: in bounds, not an obstacle, inside the hull. */
  ghost function OpenCells(maze: seq<seq<int>>, hull: seq<Point>): set<Point>
    requires |maze| >= 1
  {
    set p | p in Cells(|maze[0]|, |maze|) && !Obstacle(maze, p.x, p.y) && Inside(p, hull)
  }

  /** The inputs the search accepts: both ends given and in bounds, and a hull of at least three points. */
  predicate ValidInputs(maze: seq<seq<int>>, start: Option<Point>, end: Option<Point>, hull: seq<Point>): (r: bool)
    requires |maze| >= 1
    ensures r ==> start.Some? && end.Some? && |hull| >= 3
    ensures r ==> start.value in Cells(|maze[0]|, |maze|) && end.value in Cells(|maze[0]|, |maze|)
  {
    var rows, cols := |maze|, |maze[0]|;
    && start.Some? && end.Some? && |hull| >= 3
    && 0 <= start.value.x < cols && 0 <= start.value.y < rows
    && 0 <= end.value.x < cols && 0 <= end.value.y < rows
  }

  /** The arrays agree with the ghost search state: `visited[y, x]` and `parent[y, x]` hold what dist and par say. */
  ghost predicate Mirrors(visited: array2<bool>, parent: array2<Option<Point>>, cols: int, rows: int,
                          dist: map<Point, nat>, par: map<Point, Point>)
    reads visited, parent
  {
    && visited.Length0 == rows && visited.Length1 == cols
    && ParentsMirror(parent, cols, rows, par)
    && (forall c :: c in dist ==> 0 <= c.x < cols && 0 <= c.y < rows)
    && (forall y, x {:trigger visited[y, x]} :: 0 <= y < rows && 0 <= x < cols ==> (visited[y, x] <==> Point(x, y) in dist))
  }

  ghost predicate ParentsMirror(parent: array2<Option<Point>>, cols: int, rows: int, par: map<Point, Point>)
    reads parent
  {
    && parent.Length0 == rows && parent.Length1 == cols
    && (forall y, x {:trigger parent[y, x]} :: 0 <= y < rows && 0 <= x < cols ==>
          parent[y, x] == if Point(x, y) in par then Some(par[Point(x, y)]) else None)
  }

  /**
   * `findPath(maze, start, end, convexHull)`. Invalid inputs give the empty
   * path; otherwise the answer is a shortest walk from start to end through
   * open cells when one exists, and the empty path when none does.
   */
  method FindPath(maze: seq<seq<int>>, start: Option<Point>, end: Option<Point>, hull: seq<Point>) returns (path: seq<Point>)
    requires |maze| >= 1
    ensures !ValidInputs(maze, start, end, hull) ==> path == []
    ensures ValidInputs(maze, start, end, hull) ==> SearchAnswer(OpenCells(maze, hull), start.value, end.value, path)
  {
    var rows := |maze|;
    var cols := |maze[0]|;
    if start.None? || end.None? || |hull| < 3 {
      return [];
    }
    var s, e := start.value, end.value;
    if s.x < 0 || s.x >= cols || s.y < 0 || s.y >= rows || e.x < 0 || e.x >= cols || e.y < 0 || e.y >= rows {
      return [];
    }
    ghost var open := OpenCells(maze, hull);
    var found, parent, dist, par := Search(maze, hull, s, e, open);
    if found {
      path := ReconstructPath(parent, s, e, cols, rows, open, dist, par);
    } else {
      path := [];
    }
  }

  /**
   * The search loop of `findPath`: queue start, then dequeue cells until the
   * queue runs out (`found` is false) or end is dequeued (`found` is true,
   * which the source follows at once by rebuilding the path). On finding
   * end, the parent links lead from end back to start along a shortest walk.
   */
  method Search(maze: seq<seq<int>>, hull: seq<Point>, s: Point, e: Point, ghost open: set<Point>)
    returns (found: bool, parent: array2<Option<Point>>, ghost dist: map<Point, nat>, ghost par: map<Point, Point>)
    requires |maze| >= 1 && open == OpenCells(maze, hull)
    requires 0 <= s.x < |maze[0]| && 0 <= s.y < |maze|
    ensures ParentsMirror(parent, |maze[0]|, |maze|, par) && TreeInv(open, s, dist, par)
    ensures forall c :: c in dist ==> 0 <= c.x < |maze[0]| && 0 <= c.y < |maze|
    ensures found ==> e in dist && SearchAnswer(open, s, e, TreeWalk(open, s, dist, par, e))
    ensures !found ==> !Reachable(open, s, e)
  {
    var rows := |maze|;
    var cols := |maze[0]|;
    ghost var area := Cells(cols, rows);
    var visited;
    visited, parent := StartSearch(cols, rows, s);
    var queue := [s];
    dist := map[s := 0];
    ghost var closed: set<Point> := {};
    par := map[];
    InitInv(open, s);

    while |queue| > 0
      invariant BfsInv(open, s, dist, closed, queue) && TreeInv(open, s, dist, par)
      invariant Mirrors(visited, parent, cols, rows, dist, par)
      invariant e !in closed
      decreases |area - dist.Keys|, |queue|
    {
      SplitFirst(queue);
      var current := queue[0];
      queue := queue[1..];
      if current == e {
        FrontIsNearest(open, s, dist, closed, queue, par, e);
        return true, parent, dist, par;
      }
      ghost var keys := dist.Keys;
      queue, dist, par := Explore(maze, hull, current, queue, visited, parent, cols, rows, open, s, dist, closed, par);
      VisitedShrinkArea(area, keys, dist.Keys, cols, rows);
      ClosePreserves(open, s, dist, closed, current, queue);
      closed := closed + {current};
    }
    ExhaustedMeansUnreachable(open, s, dist, closed, e);
    return false, parent, dist, par;
  }

  /**
   * The arrays of `findPath` before the loop: nothing visited and no parent
   * anywhere, then start marked visited.
   */
  method StartSearch(cols: nat, rows: nat, s: Point) returns (visited: array2<bool>, parent: array2<Option<Point>>)
    requires 0 <= s.x < cols && 0 <= s.y < rows
    ensures fresh(visited) && fresh(parent)
    ensures Mirrors(visited, parent, cols, rows, map[s := 0], map[])
  {
    visited := new bool[rows, cols]((y, x) => false);
    parent := new Option<Point>[rows, cols]((y, x) => None);
    visited[s.y, s.x] := true;
  }

  /**
   * The for-loop over the four directions: each neighbour of current is
   * handed to TryNeighbour. Afterwards every open neighbour of current has
   * been visited, one hop farther at most, and the visited cells only grew.
   */
  method Explore(maze: seq<seq<int>>, hull: seq<Point>, current: Point, queue: seq<Point>,
                 visited: array2<bool>, parent: array2<Option<Point>>, cols: int, rows: int,
                 ghost open: set<Point>, ghost s: Point, ghost dist: map<Point, nat>, ghost closed: set<Point>,
                 ghost par: map<Point, Point>)
    returns (queue': seq<Point>, ghost dist': map<Point, nat>, ghost par': map<Point, Point>)
    modifies visited, parent
    requires |maze| >= 1 && rows == |maze| && cols == |maze[0]| && open == OpenCells(maze, hull)
    requires BfsInv(open, s, dist, closed, [current] + queue) && TreeInv(open, s, dist, par)
    requires Mirrors(visited, parent, cols, rows, dist, par)
    ensures BfsInv(open, s, dist', closed, [current] + queue') && TreeInv(open, s, dist', par')
    ensures Mirrors(visited, parent, cols, rows, dist', par')
    ensures forall m :: m in open && Adjacent(current, m) ==> m in dist' && dist'[m] <= dist'[current] + 1
    ensures dist.Keys <= dist'.Keys
    ensures dist'.Keys == dist.Keys ==> queue' == queue
    ensures current in dist
    ensures NeighboursQueued(open, current, |Directions|, dist, par, queue, dist', par', queue')
  {
    queue', dist', par' := queue, dist, par;
    assert current in dist by {
      assert ([current] + queue)[0] == current;
    }
    for d := 0 to |Directions|
      invariant BfsInv(open, s, dist', closed, [current] + queue') && TreeInv(open, s, dist', par')
      invariant Mirrors(visited, parent, cols, rows, dist', par')
      invariant NeighboursQueued(open, current, d, dist, par, queue, dist', par', queue')
    {
      queue', dist', par' := VisitDirection(maze, hull, current, d, visited, parent, cols, rows,
                                            open, s, closed, dist, par, queue, dist', par', queue');
    }
    NeighboursNear(open, s, dist, closed, current, queue, par, dist', par', queue');
    NothingQueued(open, current, dist, par, queue, dist', par', queue');
  }

  /**
   * One turn of that for-loop: the neighbour of current in direction d goes
   * through TryNeighbour. The neighbours in directions 0 to d - 1 were
   * already handled; afterwards those in directions 0 to d are.
   */
  method VisitDirection(maze: seq<seq<int>>, hull: seq<Point>, current: Point, d: nat,
                        visited: array2<bool>, parent: array2<Option<Point>>, cols: int, rows: int,
                        ghost open: set<Point>, ghost s: Point, ghost closed: set<Point>,
                        ghost dist0: map<Point, nat>, ghost par0: map<Point, Point>, ghost queue0: seq<Point>,
                        ghost dist: map<Point, nat>, ghost par: map<Point, Point>, queue: seq<Point>)
    returns (queue': seq<Point>, ghost dist': map<Point, nat>, ghost par': map<Point, Point>)
    modifies visited, parent
    requires |maze| >= 1 && rows == |maze| && cols == |maze[0]| && open == OpenCells(maze, hull)
    requires d < |Directions| && current in dist0 && par0.Keys <= dist0.Keys
    requires BfsInv(open, s, dist, closed, [current] + queue) && TreeInv(open, s, dist, par)
    requires Mirrors(visited, parent, cols, rows, dist, par)
    requires NeighboursQueued(open, current, d, dist0, par0, queue0, dist, par, queue)
    ensures BfsInv(open, s, dist', closed, [current] + queue') && TreeInv(open, s, dist', par')
    ensures Mirrors(visited, parent, cols, rows, dist', par')
    ensures NeighboursQueued(open, current, d + 1, dist0, par0, queue0, dist', par', queue')
  {
    var n := Neighbour(current, d);
    queue', dist', par' := TryNeighbour(maze, hull, current, n, queue, visited, parent, cols, rows,
                                        open, s, dist, closed, par);
    NeighboursQueuedStep(open, current, d, dist0, par0, queue0, dist, par, queue, dist', par', queue');
  }

  /**
   * The body of that for-loop for one neighbour n: if n is in bounds,
   * unvisited, not an obstacle and inside the hull, mark it visited, give it
   * current as parent and queue it. Either way, if n is open it is now
   * visited at most one hop farther than current, and nothing visited
   * before has changed.
   */
  method TryNeighbour(maze: seq<seq<int>>, hull: seq<Point>, current: Point, n: Point, queue: seq<Point>,
                      visited: array2<bool>, parent: array2<Option<Point>>, cols: int, rows: int,
                      ghost open: set<Point>, ghost s: Point, ghost dist: map<Point, nat>, ghost closed: set<Point>,
                      ghost par: map<Point, Point>)
    returns (queue': seq<Point>, ghost dist': map<Point, nat>, ghost par': map<Point, Point>)
    modifies visited, parent
    requires |maze| >= 1 && rows == |maze| && cols == |maze[0]| && open == OpenCells(maze, hull)
    requires Adjacent(current, n)
    requires BfsInv(open, s, dist, closed, [current] + queue) && TreeInv(open, s, dist, par)
    requires Mirrors(visited, parent, cols, rows, dist, par)
    ensures BfsInv(open, s, dist', closed, [current] + queue') && TreeInv(open, s, dist', par')
    ensures Mirrors(visited, parent, cols, rows, dist', par')
    ensures forall m :: m in dist ==> m in dist' && dist'[m] == dist[m]
    ensures dist'.Keys == dist.Keys ==> queue' == queue
    ensures n in open ==> n in dist' && dist'[n] <= dist'[current] + 1
    ensures current in dist
    ensures if n in open && n !in dist
            then queue' == queue + [n] && dist' == dist[n := dist[current] + 1] && par' == par[n := current]
            else queue' == queue && dist' == dist && par' == par
  {
    queue', dist', par' := queue, dist, par;
    var q0 := [current] + queue;
    assert q0[0] == current;
    if 0 <= n.x < cols && 0 <= n.y < rows && !visited[n.y, n.x] && !Obstacle(maze, n.x, n.y) {
      var inside := PointInPolygon(n, hull);
      if inside {
        InCells(n, cols, rows);
        EnqueuePreserves(open, s, dist, closed, current, queue, par, n);
        visited[n.y, n.x] := true;
        parent[n.y, n.x] := Some(current);
        queue' := queue + [n];
        dist' := dist[n := dist[current] + 1];
        par' := par[n := current];
      }
    }
  }

  /**
   * `reconstructPath(parent, start, end)`: follow the parent links back from
   * end, putting each cell in front of the path, until start is met; then
   * put start in front. The result is the parent chain read from start.
   */
  method ReconstructPath(parent: array2<Option<Point>>, start: Point, end: Point, cols: int, rows: int,
                         ghost open: set<Point>, ghost dist: map<Point, nat>, ghost par: map<Point, Point>)
    returns (path: seq<Point>)
    requires ParentsMirror(parent, cols, rows, par)
    requires TreeInv(open, start, dist, par) && end in dist
    requires forall c :: c in dist ==> 0 <= c.x < cols && 0 <= c.y < rows
    ensures path == TreeWalk(open, start, dist, par, end)
    ensures WalkTo(open, start, end, path) && |path| == dist[end] + 1
  {
    TreeWalkIsWalk(open, start, dist, par, end);
    path := [];
    var current: Option<Point> := Some(end);
    while current.Some? && current.value != start
      invariant current.Some? && current.value in dist
      invariant TreeWalk(open, start, dist, par, end) == TreeWalk(open, start, dist, par, current.value) + path
      decreases dist[current.value]
    {
      var c := current.value;
      TreeWalkStep(open, start, dist, par, c, path);
      path := [c] + path;
      current := parent[c.y, c.x];
    }
    if current.Some? {
      path := [start] + path;
    }
  }
}
