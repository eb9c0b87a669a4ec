/**
 * Breadth-first search on a grid of 4-connected cells, as both path finders
 * run it (src/utils/improvedPathfinding.js, src/utils/ratMaze.jsx).
 *
 * The searches differ in how they index their grids and in which cells they
 * may enter; both are stated here over the set `open` of enterable cells.
 * The search state is described by ghost values kept beside the source's
 * arrays: `dist` (the hop count at which each visited cell was reached),
 * `closed` (the cells already dequeued and expanded), the queue, and `par`
 * (the parent links). The lemmas prove that the state kept by the loop is a
 * breadth-first frontier, so the first time the goal is dequeued its parent
 * chain is a shortest walk, and an exhausted queue means no walk exists.
 */
module GridSearch {
  import opened Geometry

  /** The moves tried from each cell, in order: (0, +1), (+1, 0), (0, -1), (-1, 0) as (dx, dy). */
  const Directions: seq<(int, int)> := [(0, 1), (1, 0), (0, -1), (-1, 0)]

  /** The cell the d-th move reaches from p: always a 4-neighbour of p. */
  function Neighbour(p: Point, d: nat): (n: Point)
    requires d < |Directions|
    ensures Adjacent(p, n)
  {
    Point(p.x + Directions[d].0, p.y + Directions[d].1)
  }

  /** p and q are 4-neighbours: they differ by one in exactly one coordinate. */
  predicate Adjacent(p: Point, q: Point)
  {
    (p.x == q.x && (p.y - q.y == 1 || q.y - p.y == 1))
    || (p.y == q.y && (p.x - q.x == 1 || q.x - p.x == 1))
  }

  /** Every move reaches a 4-neighbour, and every 4-neighbour is reached by one of the four moves. */
  lemma NeighboursAreMoves(p: Point, q: Point)
    ensures Adjacent(p, q) <==> exists d :: 0 <= d < |Directions| && Neighbour(p, d) == q
  {
    if Adjacent(p, q) {
      if q.y == p.y + 1 {
        assert Neighbour(p, 0) == q;
      } else if q.x == p.x + 1 {
        assert Neighbour(p, 1) == q;
      } else if q.y == p.y - 1 {
        assert Neighbour(p, 2) == q;
      } else {
        assert Neighbour(p, 3) == q;
      }
    }
  }

  /** The four moves lead to four different cells. */
  lemma NeighboursDistinct(p: Point, k: nat, d: nat)
    requires k < d < |Directions|
    ensures Neighbour(p, k) != Neighbour(p, d)
  {
    assert Directions[k] != Directions[d] by {
      if k == 0 {
        assert d == 1 || d == 2 || d == 3;
      }
    }
  }

  /**
   * The cells the for-loop over the first d moves from p queues, in move
   * order: the neighbours that are open and were not visited before it.
   */
  ghost function Discovered(open: set<Point>, dist: map<Point, nat>, p: Point, d: nat): seq<Point>
    requires d <= |Directions|
  {
    if d == 0 then []
    else
      var n := Neighbour(p, d - 1);
      Discovered(open, dist, p, d - 1) + (if n in open && n !in dist then [n] else [])
  }

  /**
   * The cells queued by the first d moves are open, were unvisited, and are
   * none of the cells the later moves lead to.
   */
  lemma {:induction false} DiscoveredCells(open: set<Point>, dist: map<Point, nat>, p: Point, d: nat)
    requires d <= |Directions|
    ensures forall m :: m in Discovered(open, dist, p, d) ==> m in open && m !in dist && Adjacent(p, m)
    ensures forall e :: d <= e < |Directions| ==> Neighbour(p, e) !in Discovered(open, dist, p, d)
    ensures forall e :: 0 <= e < d && Neighbour(p, e) in open && Neighbour(p, e) !in dist ==>
              Neighbour(p, e) in Discovered(open, dist, p, d)
  {
    if d > 0 {
      DiscoveredCells(open, dist, p, d - 1);
      forall e | d <= e < |Directions| ensures Neighbour(p, e) !in Discovered(open, dist, p, d) {
        NeighboursDistinct(p, d - 1, e);
      }
    }
  }

  /**
   * The state after the for-loop has tried the first d moves from p, given
   * the state before it: exactly the Discovered cells were queued (in move
   * order), visited one hop farther than p and given p as parent, and
   * nothing visited before changed.
   */
  ghost predicate NeighboursQueued(open: set<Point>, p: Point, d: nat,
                                   dist: map<Point, nat>, par: map<Point, Point>, queue: seq<Point>,
                                   dist': map<Point, nat>, par': map<Point, Point>, queue': seq<Point>)
    requires d <= |Directions| && p in dist
  {
    var found := Discovered(open, dist, p, d);
    && queue' == queue + found
    && (forall m :: m in dist' <==> m in dist || m in found)
    && (forall m :: m in dist ==> m in dist' && dist'[m] == dist[m])
    && (forall m :: m in par ==> m in par' && par'[m] == par[m])
    && (forall m :: m in found ==> m in dist' && m in par' && dist'[m] == dist[p] + 1 && par'[m] == p)
  }

  /** Trying the d-th move as the loop body does extends the state after d moves to the state after d + 1. */
  lemma NeighboursQueuedStep(open: set<Point>, p: Point, d: nat,
                             dist: map<Point, nat>, par: map<Point, Point>, queue: seq<Point>,
                             dist0: map<Point, nat>, par0: map<Point, Point>, queue0: seq<Point>,
                             dist1: map<Point, nat>, par1: map<Point, Point>, queue1: seq<Point>)
    requires d < |Directions| && p in dist && par.Keys <= dist.Keys
    requires NeighboursQueued(open, p, d, dist, par, queue, dist0, par0, queue0)
    requires var n := Neighbour(p, d);
             if n in open && n !in dist0
             then queue1 == queue0 + [n] && dist1 == dist0[n := dist0[p] + 1] && par1 == par0[n := p]
             else queue1 == queue0 && dist1 == dist0 && par1 == par0
    ensures NeighboursQueued(open, p, d + 1, dist, par, queue, dist1, par1, queue1)
  {
    var n := Neighbour(p, d);
    DiscoveredCells(open, dist, p, d);
    assert n !in Discovered(open, dist, p, d);
    assert n in dist0 <==> n in dist;
    if n in open && n !in dist0 {
      assert queue1 == queue + (Discovered(open, dist, p, d) + [n]);
    }
  }

  /** The loop only adds visited cells, and when it adds none it queues none. */
  lemma NothingQueued(open: set<Point>, p: Point,
                      dist: map<Point, nat>, par: map<Point, Point>, queue: seq<Point>,
                      dist': map<Point, nat>, par': map<Point, Point>, queue': seq<Point>)
    requires p in dist
    requires NeighboursQueued(open, p, |Directions|, dist, par, queue, dist', par', queue')
    ensures dist.Keys <= dist'.Keys
    ensures dist'.Keys == dist.Keys ==> queue' == queue
  {
    var found := Discovered(open, dist, p, |Directions|);
    DiscoveredCells(open, dist, p, |Directions|);
    if found != [] {
      assert found[0] in dist'.Keys - dist.Keys;
    }
  }

  /**
   * After the for-loop every open neighbour of the front cell p is visited,
   * at most one hop farther than p: it was visited before, and the frontier
   * bounds it, or it was queued just now.
   */
  lemma NeighboursNear(open: set<Point>, s: Point, dist: map<Point, nat>, closed: set<Point>, p: Point, queue: seq<Point>,
                       par: map<Point, Point>, dist': map<Point, nat>, par': map<Point, Point>, queue': seq<Point>)
    requires BfsInv(open, s, dist, closed, [p] + queue)
    requires p in dist && NeighboursQueued(open, p, |Directions|, dist, par, queue, dist', par', queue')
    ensures forall m :: m in open && Adjacent(p, m) ==> m in dist' && dist'[m] <= dist'[p] + 1
  {
    assert ([p] + queue)[0] == p;
    DiscoveredCells(open, dist, p, |Directions|);
    forall m | m in open && Adjacent(p, m) ensures m in dist' && dist'[m] <= dist'[p] + 1 {
      NeighboursAreMoves(p, m);
    }
  }

  /** The cells with 0 <= x < width and 0 <= y < height. */
  ghost function Cells(width: int, height: int): set<Point>
  {
    set x, y | 0 <= x < width && 0 <= y < height :: Point(x, y)
  }

  // ---------------------------------------------------------------------
  // Walks
  // ---------------------------------------------------------------------

  /** A walk from s to e: consecutive cells are 4-neighbours and every cell after s is open. */
  ghost predicate WalkTo(open: set<Point>, s: Point, e: Point, w: seq<Point>)
  {
    && |w| >= 1 && w[0] == s && w[|w| - 1] == e
    && forall k :: 0 < k < |w| ==> Adjacent(w[k - 1], w[k]) && w[k] in open
  }

  ghost predicate Reachable(open: set<Point>, s: Point, e: Point)
  {
    exists w :: WalkTo(open, s, e, w)
  }

  /** A walk from s to e with no more cells than any other. */
  ghost predicate ShortestWalk(open: set<Point>, s: Point, e: Point, w: seq<Point>)
  {
    WalkTo(open, s, e, w) && forall v :: WalkTo(open, s, e, v) ==> |w| <= |v|
  }

  /** The answer both searches give for a reachable goal: a shortest walk; otherwise the empty path. */
  ghost predicate SearchAnswer(open: set<Point>, s: Point, e: Point, path: seq<Point>)
  {
    if Reachable(open, s, e) then ShortestWalk(open, s, e, path) else path == []
  }

  lemma WalkExtend(open: set<Point>, s: Point, e: Point, w: seq<Point>, n: Point)
    requires WalkTo(open, s, e, w) && Adjacent(e, n) && n in open
    ensures WalkTo(open, s, n, w + [n])
  {
    var v := w + [n];
    forall k | 0 < k < |v| ensures Adjacent(v[k - 1], v[k]) && v[k] in open {
      if k < |w| {
        assert v[k - 1] == w[k - 1] && v[k] == w[k];
      }
    }
  }

  lemma {:induction false} WalkPrefix(open: set<Point>, s: Point, e: Point, w: seq<Point>)
    requires WalkTo(open, s, e, w) && |w| >= 2
    ensures WalkTo(open, s, w[|w| - 2], w[..|w| - 1])
    ensures Adjacent(w[|w| - 2], e) && e in open
  {
  }

  /** From s to s the walk [s] is the shortest, so a search from a cell to itself answers [s]. */
  lemma SameEndpoints(open: set<Point>, s: Point, path: seq<Point>)
    requires SearchAnswer(open, s, s, path)
    ensures path == [s]
  {
    assert WalkTo(open, s, s, [s]);
    assert |path| <= 1;
  }

  // ---------------------------------------------------------------------
  // The search state
  // ---------------------------------------------------------------------

  /**
   * The breadth-first frontier: the visited cells are the closed ones and
   * the queued ones; the queue holds each cell once, none of them closed,
   * in nondecreasing distance, all within one hop of the front; closed
   * cells are no farther than the front; and every open neighbour of a
   * closed cell has been visited at most one hop farther.
   */
  ghost predicate BfsInv(open: set<Point>, s: Point, dist: map<Point, nat>, closed: set<Point>, q: seq<Point>)
  {
    QueueInv(s, dist, closed, q) && ClosedInv(open, dist, closed)
  }

  /** The part of BfsInv about the visited cells and the queue. */
  ghost predicate QueueInv(s: Point, dist: map<Point, nat>, closed: set<Point>, q: seq<Point>)
  {
    && s in dist && dist[s] == 0
    && (forall c :: c in dist <==> c in closed || c in q)
    && (forall i :: 0 <= i < |q| ==> q[i] in dist && q[i] !in closed)
    && (forall i, j :: 0 <= i < j < |q| ==> q[i] != q[j])
    && (forall i, j :: 0 <= i < j < |q| ==> dist[q[i]] <= dist[q[j]])
    && (|q| > 0 ==> forall c :: c in dist ==> dist[c] <= dist[q[0]] + 1)
    && (|q| > 0 ==> forall c :: c in closed ==> dist[c] <= dist[q[0]])
  }

  /** The part of BfsInv about closed cells: their open neighbours are visited, at most one hop farther. */
  ghost predicate ClosedInv(open: set<Point>, dist: map<Point, nat>, closed: set<Point>)
  {
    && (forall c :: c in closed ==> c in dist)
    && (forall c, n {:trigger Adjacent(c, n), c in closed} ::
          c in closed && n in open && Adjacent(c, n) ==> n in dist && dist[n] <= dist[c] + 1)
  }

  /**
   * The parent links: every visited cell but s has a visited parent one hop
   * nearer, next to it; every such cell is open.
   */
  ghost predicate TreeInv(open: set<Point>, s: Point, dist: map<Point, nat>, par: map<Point, Point>)
  {
    && s in dist && dist[s] == 0
    && (forall c {:trigger c in par} :: c in par <==> c in dist && c != s)
    && (forall c :: c in par ==> par[c] in dist && dist[par[c]] + 1 == dist[c] && Adjacent(par[c], c) && c in open)
  }

  /** The state after queueing s alone. */
  lemma InitInv(open: set<Point>, s: Point)
    ensures BfsInv(open, s, map[s := 0], {}, [s])
    ensures TreeInv(open, s, map[s := 0], map[])
  {
  }

  /** Queueing an unvisited open neighbour n of the front cell cur keeps the frontier and the tree. */
  lemma EnqueuePreserves(open: set<Point>, s: Point, dist: map<Point, nat>, closed: set<Point>, cur: Point,
                         q: seq<Point>, par: map<Point, Point>, n: Point)
    requires BfsInv(open, s, dist, closed, [cur] + q) && TreeInv(open, s, dist, par)
    requires n in open && n !in dist && Adjacent(cur, n)
    ensures BfsInv(open, s, dist[n := dist[cur] + 1], closed, [cur] + (q + [n]))
    ensures TreeInv(open, s, dist[n := dist[cur] + 1], par[n := cur])
  {
    assert ([cur] + q)[0] == cur;
    EnqueueQueue(s, dist, closed, [cur] + q, n);
    EnqueueClosed(open, dist, closed, n, dist[cur] + 1);
    EnqueueTree(open, s, dist, par, cur, n);
    assert [cur] + (q + [n]) == [cur] + q + [n];
  }

  lemma EnqueueQueue(s: Point, dist: map<Point, nat>, closed: set<Point>, q0: seq<Point>, n: Point)
    requires QueueInv(s, dist, closed, q0) && |q0| > 0
    requires n !in dist
    ensures QueueInv(s, dist[n := dist[q0[0]] + 1], closed, q0 + [n])
  {
    var q1 := q0 + [n];
    var dist1 := dist[n := dist[q0[0]] + 1];
    assert q1[0] == q0[0];
    forall c ensures c in dist1 <==> c in closed || c in q1 {
      assert c in q1 <==> c in q0 || c == n;
    }
    forall i | 0 <= i < |q1| ensures q1[i] !in closed {
      if i < |q0| {
        assert q1[i] == q0[i];
      }
    }
    forall i, j | 0 <= i < j < |q1| ensures q1[i] != q1[j] && dist1[q1[i]] <= dist1[q1[j]] {
      assert q1[i] == q0[i] && q0[i] in dist;
      if j < |q0| {
        assert q1[j] == q0[j];
      }
    }
    forall c | c in dist1 ensures dist1[c] <= dist1[q1[0]] + 1 {
    }
    forall c | c in closed ensures dist1[c] <= dist1[q1[0]] {
    }
  }

  lemma EnqueueClosed(open: set<Point>, dist: map<Point, nat>, closed: set<Point>, n: Point, v: nat)
    requires ClosedInv(open, dist, closed) && n !in dist
    ensures ClosedInv(open, dist[n := v], closed)
  {
  }

  lemma EnqueueTree(open: set<Point>, s: Point, dist: map<Point, nat>, par: map<Point, Point>, cur: Point, n: Point)
    requires TreeInv(open, s, dist, par) && cur in dist
    requires n in open && n !in dist && Adjacent(cur, n)
    ensures TreeInv(open, s, dist[n := dist[cur] + 1], par[n := cur])
  {
    var dist1, par1 := dist[n := dist[cur] + 1], par[n := cur];
    forall c ensures c in par1 <==> c in dist1 && c != s {
      assert c in par1 <==> c in par || c == n;
    }
    forall c | c in par1
      ensures par1[c] in dist1 && dist1[par1[c]] + 1 == dist1[c] && Adjacent(par1[c], c) && c in open
    {
      if c != n {
        assert c in par && par1[c] == par[c] && par[c] != n;
      }
    }
  }

  /** Once every open neighbour of the front cell cur has been visited, closing cur keeps the frontier. */
  lemma ClosePreserves(open: set<Point>, s: Point, dist: map<Point, nat>, closed: set<Point>, cur: Point, q: seq<Point>)
    requires BfsInv(open, s, dist, closed, [cur] + q)
    requires forall n :: n in open && Adjacent(cur, n) ==> n in dist && dist[n] <= dist[cur] + 1
    ensures BfsInv(open, s, dist, closed + {cur}, q)
  {
    CloseQueue(s, dist, closed, cur, q);
    assert ([cur] + q)[0] == cur;
    CloseClosed(open, dist, closed, cur);
  }

  lemma CloseQueue(s: Point, dist: map<Point, nat>, closed: set<Point>, cur: Point, q: seq<Point>)
    requires QueueInv(s, dist, closed, [cur] + q)
    ensures QueueInv(s, dist, closed + {cur}, q)
  {
    var q0 := [cur] + q;
    assert cur == q0[0] && cur !in closed;
    DequeueKeys(dist, closed, cur, q);
    DequeueOrder(dist, closed, cur, q);
    if |q| > 0 {
      assert q0[1] == q[0];
    }
  }

  /** After dequeueing cur and closing it, the visited cells are still the closed and the queued ones. */
  lemma DequeueKeys(dist: map<Point, nat>, closed: set<Point>, cur: Point, q: seq<Point>)
    requires forall c :: c in dist <==> c in closed || c in [cur] + q
    ensures forall c :: c in dist <==> c in closed + {cur} || c in q
  {
    forall c ensures c in dist <==> c in closed + {cur} || c in q {
      assert c in [cur] + q <==> c == cur || c in q;
    }
  }

  /** The rest of a queue without repeats, in nondecreasing distance, keeps both properties and leaves out its front. */
  lemma DequeueOrder(dist: map<Point, nat>, closed: set<Point>, cur: Point, q: seq<Point>)
    requires forall i :: 0 <= i < |[cur] + q| ==> ([cur] + q)[i] in dist && ([cur] + q)[i] !in closed
    requires forall i, j :: 0 <= i < j < |[cur] + q| ==> ([cur] + q)[i] != ([cur] + q)[j]
    requires forall i, j :: 0 <= i < j < |[cur] + q| ==> dist[([cur] + q)[i]] <= dist[([cur] + q)[j]]
    ensures forall i :: 0 <= i < |q| ==> q[i] in dist && q[i] !in closed + {cur}
    ensures forall i, j :: 0 <= i < j < |q| ==> q[i] != q[j] && dist[q[i]] <= dist[q[j]]
  {
    var q0 := [cur] + q;
    forall i | 0 <= i < |q| ensures q[i] in dist && q[i] !in closed + {cur} {
      assert q[i] == q0[i + 1] && q0[0] == cur;
    }
    forall i, j | 0 <= i < j < |q| ensures q[i] != q[j] && dist[q[i]] <= dist[q[j]] {
      assert q[i] == q0[i + 1] && q[j] == q0[j + 1];
    }
  }

  lemma CloseClosed(open: set<Point>, dist: map<Point, nat>, closed: set<Point>, cur: Point)
    requires ClosedInv(open, dist, closed) && cur in dist
    requires forall n :: n in open && Adjacent(cur, n) ==> n in dist && dist[n] <= dist[cur] + 1
    ensures ClosedInv(open, dist, closed + {cur})
  {
  }

  // ---------------------------------------------------------------------
  // What the frontier guarantees
  // ---------------------------------------------------------------------

  /**
   * Every walk from s ends either at a closed cell no farther than the walk
   * is long, or at an unclosed cell, in which case the front of the queue is
   * no farther than the walk is long.
   */
  lemma {:induction false} WalkMeetsFrontier(open: set<Point>, s: Point, dist: map<Point, nat>, closed: set<Point>,
                                             q: seq<Point>, e: Point, w: seq<Point>)
    requires BfsInv(open, s, dist, closed, q)
    requires WalkTo(open, s, e, w)
    ensures e in closed ==> dist[e] <= |w| - 1
    ensures e !in closed ==> |q| > 0 && dist[q[0]] <= |w| - 1
    decreases |w|
  {
    if |w| == 1 {
      if s !in closed {
        var i :| 0 <= i < |q| && q[i] == s;
        if i > 0 {
          assert dist[q[0]] <= dist[q[i]];
        }
      }
    } else {
      var u := w[|w| - 2];
      WalkPrefix(open, s, e, w);
      WalkMeetsFrontier(open, s, dist, closed, q, u, w[..|w| - 1]);
      if u in closed {
        assert e in dist && dist[e] <= dist[u] + 1;
        if e !in closed {
          var i :| 0 <= i < |q| && q[i] == e;
          if i > 0 {
            assert dist[q[0]] <= dist[q[i]];
          }
        }
      }
    }
  }

  /** With the queue exhausted, a cell that was never closed cannot be reached. */
  lemma ExhaustedMeansUnreachable(open: set<Point>, s: Point, dist: map<Point, nat>, closed: set<Point>, e: Point)
    requires BfsInv(open, s, dist, closed, [])
    requires e !in closed
    ensures !Reachable(open, s, e)
  {
    if Reachable(open, s, e) {
      var w :| WalkTo(open, s, e, w);
      WalkMeetsFrontier(open, s, dist, closed, [], e, w);
    }
  }

  /** The walk from s to c along the parent links, read from s. */
  ghost function TreeWalk(open: set<Point>, s: Point, dist: map<Point, nat>, par: map<Point, Point>, c: Point): seq<Point>
    requires TreeInv(open, s, dist, par) && c in dist
    decreases dist[c]
  {
    if c == s then [s] else TreeWalk(open, s, dist, par, par[c]) + [c]
  }

  /** Following the parent links from a visited cell back to s is a walk of dist[c] hops. */
  lemma {:induction false} TreeWalkIsWalk(open: set<Point>, s: Point, dist: map<Point, nat>, par: map<Point, Point>, c: Point)
    requires TreeInv(open, s, dist, par) && c in dist
    ensures WalkTo(open, s, c, TreeWalk(open, s, dist, par, c))
    ensures |TreeWalk(open, s, dist, par, c)| == dist[c] + 1
    decreases dist[c]
  {
    if c != s {
      TreeWalkIsWalk(open, s, dist, par, par[c]);
      WalkExtend(open, s, par[c], TreeWalk(open, s, dist, par, par[c]), c);
    }
  }

  /** One step back along the parent links, as the reconstruction loops take it. */
  lemma TreeWalkStep(open: set<Point>, s: Point, dist: map<Point, nat>, par: map<Point, Point>, c: Point, rest: seq<Point>)
    requires TreeInv(open, s, dist, par) && c in dist && c != s
    ensures c in par && par[c] in dist && dist[par[c]] < dist[c]
    ensures TreeWalk(open, s, dist, par, c) + rest == TreeWalk(open, s, dist, par, par[c]) + ([c] + rest)
  {
  }

  /** When the goal is at the front of the queue, its parent chain is a shortest walk to it. */
  lemma FrontIsNearest(open: set<Point>, s: Point, dist: map<Point, nat>, closed: set<Point>, q: seq<Point>,
                       par: map<Point, Point>, e: Point)
    requires BfsInv(open, s, dist, closed, [e] + q) && TreeInv(open, s, dist, par)
    ensures e in dist
    ensures SearchAnswer(open, s, e, TreeWalk(open, s, dist, par, e))
  {
    var q0 := [e] + q;
    assert q0[0] == e && e !in closed;
    var path := TreeWalk(open, s, dist, par, e);
    TreeWalkIsWalk(open, s, dist, par, e);
    forall v | WalkTo(open, s, e, v) ensures |path| <= |v| {
      WalkMeetsFrontier(open, s, dist, closed, q0, e, v);
    }
  }

  lemma InCells(c: Point, width: int, height: int)
    requires 0 <= c.x < width && 0 <= c.y < height
    ensures c in Cells(width, height)
  {
    assert c == Point(c.x, c.y);
  }

  /**
   * Visiting more cells of the area, all of them in bounds, leaves fewer
   * unvisited cells in it: the measure the search loop decreases.
   */
  lemma VisitedShrinkArea(area: set<Point>, before: set<Point>, after: set<Point>, width: int, height: int)
    requires area == Cells(width, height) && before <= after
    requires forall c :: c in after ==> 0 <= c.x < width && 0 <= c.y < height
    ensures after == before || |area - after| < |area - before|
  {
    if after != before {
      var n :| n in after && n !in before;
      InCells(n, width, height);
      var left := (area - before) - {n};
      assert area - before == left + {n};
      assert left == (area - after) + (left - (area - after));
    }
  }
}
