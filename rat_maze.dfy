/**
 * The stand-alone path finder of src/utils/ratMaze.jsx: breadth-first search
 * over a grid read as `maze[x][y]`, with x the row (bounded by the number of
 * rows) and y the column (bounded by the length of the first row), which is
 * transposed relative to improvedPathfinding.js. There is no input
 * validation. The loop stops at the first dequeue of end; the path is
 * rebuilt by pushing cells from end back along the parent links and then
 * reversing.
 *
 * `visited` and `parent` are indexed `[x, y]`; the ghost search state of
 * module GridSearch rides along as in module ImprovedPathfinding.
 */
module RatMaze {
  import opened Geometry
  import opened RayCasting
  import opened GridSearch

  /** `maze[x][y] === 0`: a cell past the end of a short row reads as undefined, which is not 0. */
  predicate Free(maze: seq<seq<int>>, x: int, y: int): (r: bool)
    requires 0 <= x < |maze| && 0 <= y
    ensures y >= |maze[x]| ==> !r
  {
    y < |maze[x]| && maze[x][y] == 0
  }

  /** The cells the search may enter: in bounds, free, inside the polygon. */
  ghost function FreeCells(maze: seq<seq<int>>, polygon: seq<Point>): set<Point>
    requires |maze| >= 1
  {
    set p | p in Cells(|maze|, |maze[0]|) && Free(maze, p.x, p.y) && Inside(p, polygon)
  }

  /** The arrays agree with the ghost search state: `visited[x, y]` and `parent[x, y]` hold what dist and par say. */
  ghost predicate Mirrors(visited: array2<bool>, parent: array2<Option<Point>>, rows: int, cols: int,
                          dist: map<Point, nat>, par: map<Point, Point>)
    reads visited, parent
  {
    && visited.Length0 == rows && visited.Length1 == cols
    && ParentsMirror(parent, rows, cols, par)
    && (forall c :: c in dist ==> 0 <= c.x < rows && 0 <= c.y < cols)
    && (forall x, y {:trigger visited[x, y]} :: 0 <= x < rows && 0 <= y < cols ==> (visited[x, y] <==> Point(x, y) in dist))
  }

  ghost predicate ParentsMirror(parent: array2<Option<Point>>, rows: int, cols: int, par: map<Point, Point>)
    reads parent
  {
    && parent.Length0 == rows && parent.Length1 == cols
    && (forall x, y {:trigger parent[x, y]} :: 0 <= x < rows && 0 <= y < cols ==>
          parent[x, y] == if Point(x, y) in par then Some(par[Point(x, y)]) else None)
  }

  /**
   * `findPath(maze, start, end, polygon)`. A reachable end gives a shortest
   * walk from start through free cells inside the polygon; an unreachable
   * end gives the one-cell list [end]. Writing `visited[start.x]` needs
   * start in bounds, and reading `parent[end.x]` needs end.x to be a row
   * unless end is start.
   */
  method FindPath(maze: seq<seq<int>>, start: Point, end: Point, polygon: seq<Point>) returns (path: seq<Point>)
    requires |maze| >= 1
    requires 0 <= start.x < |maze| && 0 <= start.y < |maze[0]|
    requires end == start || 0 <= end.x < |maze|
    ensures Reachable(FreeCells(maze, polygon), start, end) ==> ShortestWalk(FreeCells(maze, polygon), start, end, path)
    ensures !Reachable(FreeCells(maze, polygon), start, end) ==> path == [end]
  {
    var rows := |maze|;
    var cols := |maze[0]|;
    ghost var open := FreeCells(maze, polygon);
    var parent, dist, par := Search(maze, polygon, start, end, open);
    path := Reconstruct(parent, start, end, rows, cols, open, dist, par);
  }

  /**
   * The while-loop of `findPath`: queue start, then dequeue cells until the
   * queue runs out or end is dequeued (`break`). A reachable end has been
   * reached along a shortest walk of parent links; an unreachable one was
   * never visited.
   */
  method Search(maze: seq<seq<int>>, polygon: seq<Point>, s: Point, e: Point, ghost open: set<Point>)
    returns (parent: array2<Option<Point>>, ghost dist: map<Point, nat>, ghost par: map<Point, Point>)
    requires |maze| >= 1 && open == FreeCells(maze, polygon)
    requires 0 <= s.x < |maze| && 0 <= s.y < |maze[0]|
    ensures ParentsMirror(parent, |maze|, |maze[0]|, par) && TreeInv(open, s, dist, par)
    ensures forall c :: c in dist ==> 0 <= c.x < |maze| && 0 <= c.y < |maze[0]|
    ensures Reachable(open, s, e) ==> e in dist && ShortestWalk(open, s, e, TreeWalk(open, s, dist, par, e))
    ensures !Reachable(open, s, e) ==> e !in dist
  {
    var rows := |maze|;
    var cols := |maze[0]|;
    ghost var area := Cells(rows, cols);
    var visited;
    visited, parent := StartSearch(rows, cols, s);
    var queue := [s];
    dist := map[s := 0];
    ghost var closed: set<Point> := {};
    par := map[];
    InitInv(open, s);
    ghost var found := false;

    while |queue| > 0
      invariant BfsInv(open, s, dist, closed, queue) && TreeInv(open, s, dist, par)
      invariant Mirrors(visited, parent, rows, cols, dist, par)
      invariant e !in closed && !found
      decreases |area - dist.Keys|, |queue|
    {
      SplitFirst(queue);
      var current := queue[0];
      queue := queue[1..];
      if current.x == e.x && current.y == e.y {
        FrontIsNearest(open, s, dist, closed, queue, par, e);
        found := true;
        break;
      }
      ghost var keys := dist.Keys;
      queue, dist, par := Explore(maze, polygon, current, queue, visited, parent, rows, cols, open, s, dist, closed, par);
      VisitedShrinkArea(area, keys, dist.Keys, rows, cols);
      ClosePreserves(open, s, dist, closed, current, queue);
      closed := closed + {current};
    }
    if !found {
      ExhaustedMeansUnreachable(open, s, dist, closed, e);
    }
    if e in dist {
      TreeWalkIsWalk(open, s, dist, par, e);
    }
  }

  /** The arrays before the loop: nothing visited and no parent anywhere, then start marked visited. */
  method StartSearch(rows: nat, cols: nat, s: Point) returns (visited: array2<bool>, parent: array2<Option<Point>>)
    requires 0 <= s.x < rows && 0 <= s.y < cols
    ensures fresh(visited) && fresh(parent)
    ensures Mirrors(visited, parent, rows, cols, map[s := 0], map[])
  {
    visited := new bool[rows, cols]((x, y) => false);
    parent := new Option<Point>[rows, cols]((x, y) => None);
    visited[s.x, s.y] := true;
  }

  /**
   * The for-loop over the four directions: each neighbour of current is
   * handed to TryNeighbour. Afterwards every open neighbour of current has
   * been visited, one hop farther at most, and the visited cells only grew.
   */
  method Explore(maze: seq<seq<int>>, polygon: seq<Point>, current: Point, queue: seq<Point>,
                 visited: array2<bool>, parent: array2<Option<Point>>, rows: int, cols: int,
                 ghost open: set<Point>, ghost s: Point, ghost dist: map<Point, nat>, ghost closed: set<Point>,
                 ghost par: map<Point, Point>)
    returns (queue': seq<Point>, ghost dist': map<Point, nat>, ghost par': map<Point, Point>)
    modifies visited, parent
    requires |maze| >= 1 && rows == |maze| && cols == |maze[0]| && open == FreeCells(maze, polygon)
    requires BfsInv(open, s, dist, closed, [current] + queue) && TreeInv(open, s, dist, par)
    requires Mirrors(visited, parent, rows, cols, dist, par)
    ensures BfsInv(open, s, dist', closed, [current] + queue') && TreeInv(open, s, dist', par')
    ensures Mirrors(visited, parent, rows, cols, dist', par')
    ensures forall m :: m in open && Adjacent(current, m) ==> m in dist' && dist'[m] <= dist'[current] + 1
    ensures dist.Keys <= dist'.Keys
    ensures dist'.Keys == dist.Keys ==> queue' == queue
    ensures current in dist
    ensures NeighboursQueued(open, current, |Directions|, dist, par, queue, dist', par', queue')
  {
    queue', dist', par' := queue, dist, par;
    assert current in dist by {
      assert ([current] + queue)[0] == current;
    }
    for d := 0 to |Directions|
      invariant BfsInv(open, s, dist', closed, [current] + queue') && TreeInv(open, s, dist', par')
      invariant Mirrors(visited, parent, rows, cols, dist', par')
      invariant NeighboursQueued(open, current, d, dist, par, queue, dist', par', queue')
    {
      queue', dist', par' := VisitDirection(maze, polygon, current, d, visited, parent, rows, cols,
                                            open, s, closed, dist, par, queue, dist', par', queue');
    }
    NeighboursNear(open, s, dist, closed, current, queue, par, dist', par', queue');
    NothingQueued(open, current, dist, par, queue, dist', par', queue');
  }

  /**
   * One turn of that for-loop: the neighbour of current in direction d goes
   * through TryNeighbour. The neighbours in directions 0 to d - 1 were
   * already handled; afterwards those in directions 0 to d are.
   */
  method VisitDirection(maze: seq<seq<int>>, polygon: seq<Point>, current: Point, d: nat,
                        visited: array2<bool>, parent: array2<Option<Point>>, rows: int, cols: int,
                        ghost open: set<Point>, ghost s: Point, ghost closed: set<Point>,
                        ghost dist0: map<Point, nat>, ghost par0: map<Point, Point>, ghost queue0: seq<Point>,
                        ghost dist: map<Point, nat>, ghost par: map<Point, Point>, queue: seq<Point>)
    returns (queue': seq<Point>, ghost dist': map<Point, nat>, ghost par': map<Point, Point>)
    modifies visited, parent
    requires |maze| >= 1 && rows == |maze| && cols == |maze[0]| && open == FreeCells(maze, polygon)
    requires d < |Directions| && current in dist0 && par0.Keys <= dist0.Keys
    requires BfsInv(open, s, dist, closed, [current] + queue) && TreeInv(open, s, dist, par)
    requires Mirrors(visited, parent, rows, cols, dist, par)
    requires NeighboursQueued(open, current, d, dist0, par0, queue0, dist, par, queue)
    ensures BfsInv(open, s, dist', closed, [current] + queue') && TreeInv(open, s, dist', par')
    ensures Mirrors(visited, parent, rows, cols, dist', par')
    ensures NeighboursQueued(open, current, d + 1, dist0, par0, queue0, dist', par', queue')
  {
    var n := Neighbour(current, d);
    queue', dist', par' := TryNeighbour(maze, polygon, current, n, queue, visited, parent, rows, cols,
                                        open, s, dist, closed, par);
    NeighboursQueuedStep(open, current, d, dist0, par0, queue0, dist, par, queue, dist', par', queue');
  }

  /**
   * The body of that for-loop for one neighbour n: if n is in bounds,
   * unvisited, free and inside the polygon, mark it visited, give it
   * current as parent and queue it. Either way, if n is open it is now
   * visited at most one hop farther than current, and nothing visited
   * before has changed.
   */
  method TryNeighbour(maze: seq<seq<int>>, polygon: seq<Point>, current: Point, n: Point, queue: seq<Point>,
                      visited: array2<bool>, parent: array2<Option<Point>>, rows: int, cols: int,
                      ghost open: set<Point>, ghost s: Point, ghost dist: map<Point, nat>, ghost closed: set<Point>,
                      ghost par: map<Point, Point>)
    returns (queue': seq<Point>, ghost dist': map<Point, nat>, ghost par': map<Point, Point>)
    modifies visited, parent
    requires |maze| >= 1 && rows == |maze| && cols == |maze[0]| && open == FreeCells(maze, polygon)
    requires Adjacent(current, n)
    requires BfsInv(open, s, dist, closed, [current] + queue) && TreeInv(open, s, dist, par)
    requires Mirrors(visited, parent, rows, cols, dist, par)
    ensures BfsInv(open, s, dist', closed, [current] + queue') && TreeInv(open, s, dist', par')
    ensures Mirrors(visited, parent, rows, cols, dist', par')
    ensures forall m :: m in dist ==> m in dist' && dist'[m] == dist[m]
    ensures dist'.Keys == dist.Keys ==> queue' == queue
    ensures n in open ==> n in dist' && dist'[n] <= dist'[current] + 1
    ensures current in dist
    ensures if n in open && n !in dist
            then queue' == queue + [n] && dist' == dist[n := dist[current] + 1] && par' == par[n := current]
            else queue' == queue && dist' == dist && par' == par
  {
    queue', dist', par' := queue, dist, par;
    var q0 := [current] + queue;
    assert q0[0] == current;
    if 0 <= n.x < rows && 0 <= n.y < cols && !visited[n.x, n.y] && Free(maze, n.x, n.y) {
      var inside := PointInPolygon(n, polygon);
      if inside {
        InCells(n, rows, cols);
        EnqueuePreserves(open, s, dist, closed, current, queue, par, n);
        visited[n.x, n.y] := true;
        parent[n.x, n.y] := Some(current);
        queue' := queue + [n];
        dist' := dist[n := dist[current] + 1];
        par' := par[n := current];
      }
    }
  }

  /**
   * The reconstruction: from end, push each cell and step to its parent
   * until start is met or the parent is null (or, for a column out of
   * range, undefined); push start if it was met; reverse. For a visited end
   * this is the parent chain read from start; otherwise it is [end].
   */
  method Reconstruct(parent: array2<Option<Point>>, start: Point, end: Point, rows: int, cols: int,
                     ghost open: set<Point>, ghost dist: map<Point, nat>, ghost par: map<Point, Point>)
    returns (path: seq<Point>)
    requires ParentsMirror(parent, rows, cols, par)
    requires TreeInv(open, start, dist, par)
    requires forall c :: c in dist ==> 0 <= c.x < rows && 0 <= c.y < cols
    requires end == start || 0 <= end.x < rows
    ensures end in dist ==> path == TreeWalk(open, start, dist, par, end)
    ensures end !in dist ==> path == [end]
  {
    var pushed: seq<Point> := [];
    var current: Option<Point> := Some(end);
    while current.Some? && !(current.value.x == start.x && current.value.y == start.y)
      invariant end in dist ==> current.Some? && current.value in dist
                                && TreeWalk(open, start, dist, par, end) == TreeWalk(open, start, dist, par, current.value) + Reverse(pushed)
      invariant end !in dist ==> (current == Some(end) && pushed == []) || (current.None? && pushed == [end])
      decreases if current.None? then 0 else if current.value in dist then dist[current.value] + 2 else 1
    {
      var c := current.value;
      if c in dist {
        TreeWalkStep(open, start, dist, par, c, Reverse(pushed));
        ReverseSnoc(pushed, c);
      }
      pushed := pushed + [c];
      current := if 0 <= c.y < cols then parent[c.x, c.y] else None;
    }
    if current.Some? {
      assert current.value == start;
      ReverseSnoc(pushed, start);
      pushed := pushed + [start];
    }
    if pushed == [end] {
      assert pushed[1..] == [];
      assert Reverse(pushed) == [end];
    }
    assert end !in dist ==> pushed == [end];
    path := Reverse(pushed);
  }
}
