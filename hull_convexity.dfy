/**
 * What the final snapshot of src/utils/convexHullSteps.jsx is: a convex
 * polygon that encloses every input point.
 *
 * Both chains are scanned over points in sort order, and every chain edge
 * has all scanned points on or to its left. The two chains share their end
 * points, so their edges are exactly the edges of the final hull, read
 * cyclically.
 */
module HullConvexity {
  import opened Geometry
  import opened HullSteps

  // ---------------------------------------------------------------------
  // Cross products of points taken in sort order
  // ---------------------------------------------------------------------

  lemma MulPos(a: int, b: int)
    requires a > 0 && b > 0
    ensures a * b > 0
  {
  }

  lemma MulNonNeg(a: int, b: int)
    requires a >= 0 && b >= 0
    ensures a * b >= 0
  {
  }

  /**
   * A strict left turn from a step u to a step v, both forward in sort
   * order, needs u to move strictly forward in x.
   */
  lemma ForwardStep(ux: int, uy: int, vx: int, vy: int)
    requires ux >= 0 && (ux == 0 ==> uy >= 0) && vx >= 0
    requires ux * vy - uy * vx > 0
    ensures ux > 0
  {
    if ux == 0 {
      MulNonNeg(uy, vx);
    }
  }

  /** How the turns between three consecutive steps u, v and w relate. */
  lemma ComposeIdentity(ux: int, uy: int, vx: int, vy: int, wx: int, wy: int)
    ensures (ux * wy - uy * wx) * vx == (vx * wy - vy * wx) * ux + (ux * vy - uy * vx) * wx
  {
  }

  lemma PosFactor(a: int, b: int)
    requires b > 0 && a * b > 0
    ensures a > 0
  {
    if a <= 0 {
      MulNonNeg(-a, b);
    }
  }

  /**
   * Two strict left turns along points in sort order compose: with a, b, c
   * and p in that order, turning left at b towards c and at c towards p
   * means p is strictly left of a to b and of a to c.
   */
  lemma TurnsCompose(a: Point, b: Point, c: Point, p: Point)
    requires LessEq(a, b) && LessEq(b, c) && LessEq(c, p)
    requires Cross(a, b, c) > 0 && Cross(b, c, p) > 0
    ensures Cross(a, b, p) > 0 && Cross(a, c, p) > 0
  {
    var ux, uy := b.x - a.x, b.y - a.y;
    var vx, vy := c.x - b.x, c.y - b.y;
    var wx, wy := p.x - c.x, p.y - c.y;
    var uv, vw, uw := ux * vy - uy * vx, vx * wy - vy * wx, ux * wy - uy * wx;
    assert Cross(a, b, c) == uv;
    assert Cross(b, c, p) == vw;
    assert Cross(a, b, p) == uv + uw;
    assert Cross(a, c, p) == uw + vw;
    ForwardStep(ux, uy, vx, vy);
    ForwardStep(vx, vy, wx, wy);
    ComposeIdentity(ux, uy, vx, vy, wx, wy);
    MulPos(vw, ux);
    MulNonNeg(uv, wx);
    PosFactor(uw, vx);
  }

  /**
   * A point q that lies, in sort order, between a and b and on or left of
   * the segment from a to b is on or left of any line e to p (with e before
   * p) that has a and b on or left of it.
   */
  lemma BetweenStaysLeft(a: Point, q: Point, b: Point, e: Point, p: Point)
    requires LessEq(a, q) && LessEq(q, b) && LessEq(e, p)
    requires Cross(e, p, a) >= 0 && Cross(e, p, b) >= 0 && Cross(a, b, q) >= 0
    ensures Cross(e, p, q) >= 0
  {
    var px, py := p.x - e.x, p.y - e.y;
    var dx := b.x - a.x;
    var delta := q.x - a.x;
    if dx == 0 {
      assert Cross(e, p, q) == Cross(e, p, a) + px * (q.y - a.y);
      MulNonNeg(px, q.y - a.y);
    } else {
      assert dx * Cross(e, p, q) == (dx - delta) * Cross(e, p, a) + delta * Cross(e, p, b) + Cross(a, b, q) * px;
      MulNonNeg(dx - delta, Cross(e, p, a));
      MulNonNeg(delta, Cross(e, p, b));
      MulNonNeg(Cross(a, b, q), px);
      if Cross(e, p, q) < 0 {
        MulNonNeg(dx, -Cross(e, p, q));
        MulPos(dx, -Cross(e, p, q));
      }
    }
  }

  /** Cross products read the three points cyclically, and change sign when two of them swap. */
  lemma CrossRotate(a: Point, b: Point, c: Point)
    ensures Cross(a, b, c) == Cross(b, c, a)
    ensures Cross(a, c, b) == -Cross(a, b, c)
  {
  }

  /** A triangle with a repeated corner has no area. */
  lemma CrossSelf(a: Point, b: Point)
    ensures Cross(a, b, a) == 0 && Cross(a, b, b) == 0
  {
  }

  // ---------------------------------------------------------------------
  // One chain over sorted points
  // ---------------------------------------------------------------------

  /** Every edge of the chain c has every point of s on it or to its left. */
  ghost predicate Supports(c: seq<Point>, s: seq<Point>)
  {
    forall k, q :: 0 <= k < |c| - 1 && q in s ==> Cross(c[k], c[k + 1], q) >= 0
  }

  /** Every point the pops removed made a turn that was not strictly left towards p. */
  lemma {:induction false} PoppedTurn(chain: seq<Point>, p: Point, j: nat)
    requires |PopNonLeft(chain, p)| <= j < |chain|
    ensures 1 <= j && Cross(chain[j - 1], chain[j], p) <= 0
    decreases |chain|
  {
    var rest := chain[..|chain| - 1];
    if j < |chain| - 1 {
      PoppedTurn(rest, p, j);
    }
  }

  /** A prefix of a sorted chain turning strictly left is one too. */
  lemma PrefixShape(c: seq<Point>, m: nat)
    requires Sorted(c) && LeftTurns(c) && m <= |c|
    ensures Sorted(c[..m]) && LeftTurns(c[..m])
  {
    assert forall i :: 0 <= i < m ==> c[..m][i] == c[i];
  }

  /**
   * In a sorted chain turning strictly left, whose last edge turns strictly
   * left towards a later point p, every edge does.
   */
  lemma {:induction false} TurnsTowards(r: seq<Point>, p: Point, k: nat)
    requires Sorted(r) && LeftTurns(r) && |r| >= 2 && k <= |r| - 2
    requires LessEq(r[|r| - 1], p) && Cross(r[|r| - 2], r[|r| - 1], p) > 0
    ensures Cross(r[k], r[k + 1], p) > 0
    decreases |r| - k
  {
    if k < |r| - 2 {
      TurnsTowards(r, p, k + 1);
      TurnsCompose(r[k], r[k + 1], r[k + 2], p);
    }
  }

  lemma EdgesTowards(r: seq<Point>, p: Point)
    requires Sorted(r) && LeftTurns(r) && |r| >= 1 && LessEq(r[|r| - 1], p)
    requires |r| < 2 || Cross(r[|r| - 2], r[|r| - 1], p) > 0
    ensures forall k :: 0 <= k < |r| - 1 ==> Cross(r[k], r[k + 1], p) > 0
  {
    forall k | 0 <= k < |r| - 1
      ensures Cross(r[k], r[k + 1], p) > 0
    {
      TurnsTowards(r, p, k);
    }
  }

  /** In the same chain, p is strictly left of the chord from every earlier point to the last one. */
  lemma {:induction false} ChordsTowards(r: seq<Point>, p: Point, j: nat)
    requires Sorted(r) && LeftTurns(r) && |r| >= 2 && j <= |r| - 2
    requires LessEq(r[|r| - 1], p) && Cross(r[|r| - 2], r[|r| - 1], p) > 0
    ensures Cross(r[j], r[|r| - 1], p) > 0
    decreases |r| - j
  {
    if j < |r| - 2 {
      var e := r[|r| - 1];
      var front := r[..|r| - 1];
      ChordsTowards(r, p, j + 1);
      assert Cross(front[|front| - 2], front[|front| - 1], e) > 0;
      TurnsTowards(front, e, j);
      TurnsCompose(r[j], r[j + 1], e, p);
    }
  }

  /**
   * In a sorted chain turning strictly left whose last edge turns strictly
   * left towards a later point p, every point of the chain is on or left of
   * the edge from its last point e to p.
   */
  lemma KeptSeenFromLastEdge(r: seq<Point>, p: Point, j: nat)
    requires Sorted(r) && LeftTurns(r) && j < |r| && LessEq(r[|r| - 1], p)
    requires |r| < 2 || Cross(r[|r| - 2], r[|r| - 1], p) > 0
    ensures Cross(r[|r| - 1], p, r[j]) >= 0
  {
    var e := r[|r| - 1];
    if j < |r| - 1 {
      ChordsTowards(r, p, j);
      CrossRotate(r[j], e, p);
    } else {
      CrossSelf(e, p);
    }
  }

  /** ... and so is every point the pops removed. */
  lemma {:induction false} PoppedSeenFromLastEdge(c: seq<Point>, p: Point, j: nat)
    requires Sorted(c) && |c| >= 1 && LessEq(c[|c| - 1], p)
    requires |PopNonLeft(c, p)| <= j < |c|
    ensures var r := PopNonLeft(c, p);
      Cross(r[|r| - 1], p, c[j]) >= 0
    decreases j
  {
    var r := PopNonLeft(c, p);
    var e := r[|r| - 1];
    PoppedTurn(c, p, j);
    CrossRotate(c[j - 1], c[j], p);
    if j > |r| {
      PoppedSeenFromLastEdge(c, p, j - 1);
      assert LessEq(c[j - 1], c[j]) && LessEq(c[j], c[|c| - 1]);
      BetweenStaysLeft(c[j - 1], c[j], p, e, p);
    } else {
      assert c[j - 1] == e;
    }
  }

  /**
   * After the pops before pushing p, every point of the old chain, kept or
   * popped, is on or left of the new last edge, from the last kept point to p.
   */
  lemma ChainSeenFromLastEdge(c: seq<Point>, p: Point, j: nat)
    requires Sorted(c) && LeftTurns(c) && |c| >= 1 && LessEq(c[|c| - 1], p) && j < |c|
    ensures Cross(PopNonLeft(c, p)[|PopNonLeft(c, p)| - 1], p, c[j]) >= 0
  {
    var r := PopNonLeft(c, p);
    if j < |r| {
      KeptPrefixSeen(c, r, p, j);
    } else {
      PoppedSeenFromLastEdge(c, p, j);
    }
  }

  /** A point of the prefix r the pops kept is on or left of the edge from r's last point to p. */
  lemma KeptPrefixSeen(c: seq<Point>, r: seq<Point>, p: Point, j: nat)
    requires Sorted(c) && LeftTurns(c) && |c| >= 1 && LessEq(c[|c| - 1], p)
    requires 1 <= |r| <= |c| && r == c[..|r|] && j < |r|
    requires |r| < 2 || Cross(r[|r| - 2], r[|r| - 1], p) > 0
    ensures Cross(r[|r| - 1], p, c[j]) >= 0
  {
    PrefixShape(c, |r|);
    assert LessEq(r[|r| - 1], p) by {
      if |r| < |c| {
        assert LessEq(c[|r| - 1], c[|c| - 1]);
      }
    }
    KeptSeenFromLastEdge(r, p, j);
  }

  /** Between the first and the last point of a sequence, a point falls between two neighbours. */
  lemma {:induction false} Locate(c: seq<Point>, q: Point, j: nat) returns (k: nat)
    requires j < |c| - 1 && LessEq(c[j], q) && LessEq(q, c[|c| - 1])
    ensures j <= k < |c| - 1 && LessEq(c[k], q) && LessEq(q, c[k + 1])
    decreases |c| - j
  {
    if LessEq(q, c[j + 1]) {
      k := j;
    } else {
      k := Locate(c, q, j + 1);
    }
  }

  /** The last point the pops keep comes, in sort order, before p. */
  lemma LastKeptBefore(c: seq<Point>, p: Point)
    requires Sorted(c) && |c| >= 1 && LessEq(c[|c| - 1], p)
    ensures var r := PopNonLeft(c, p);
      |r| >= 1 && LessEq(r[|r| - 1], p)
  {
    var r := PopNonLeft(c, p);
    if |r| < |c| {
      assert r[|r| - 1] == c[|r| - 1];
      assert LessEq(c[|r| - 1], c[|c| - 1]);
    }
  }

  /**
   * After the pops before pushing p, every remaining edge turns strictly
   * left towards p, and every point of the old chain is on or left of the
   * new last edge, from the last kept point e to p.
   */
  lemma PushFacts(c: seq<Point>, p: Point)
    requires Sorted(c) && LeftTurns(c) && |c| >= 1 && LessEq(c[|c| - 1], p)
    ensures var r := PopNonLeft(c, p);
      && |r| >= 1 && r == c[..|r|] && Sorted(r) && LessEq(r[|r| - 1], p)
      && (forall k :: 0 <= k < |r| - 1 ==> Cross(r[k], r[k + 1], p) > 0)
      && (forall j :: 0 <= j < |c| ==> Cross(r[|r| - 1], p, c[j]) >= 0)
  {
    var r := PopNonLeft(c, p);
    LastKeptBefore(c, p);
    PrefixShape(c, |r|);
    EdgesTowards(r, p);
    forall j | 0 <= j < |c|
      ensures Cross(r[|r| - 1], p, c[j]) >= 0
    {
      ChainSeenFromLastEdge(c, p, j);
    }
  }

  /**
   * A point q between the first and last point of a sorted chain c, on or
   * left of every edge of c, is on or left of a line e to p that has every
   * point of c on or to its left.
   */
  lemma LastEdgeSupports(c: seq<Point>, e: Point, p: Point, q: Point)
    requires Sorted(c) && |c| >= 1 && LessEq(e, p)
    requires LessEq(c[0], q) && LessEq(q, c[|c| - 1])
    requires forall j :: 0 <= j < |c| ==> Cross(e, p, c[j]) >= 0
    requires forall k :: 0 <= k < |c| - 1 ==> Cross(c[k], c[k + 1], q) >= 0
    ensures Cross(e, p, q) >= 0
  {
    if |c| == 1 {
      assert q == c[0];
    } else {
      var k := Locate(c, q, 0);
      BetweenStaysLeft(c[k], q, c[k + 1], e, p);
    }
  }

  /** A point after the last point of a sorted sequence can be pushed onto it. */
  lemma SortedPush(r: seq<Point>, p: Point)
    requires Sorted(r) && |r| >= 1 && LessEq(r[|r| - 1], p)
    ensures Sorted(r + [p])
  {
    var n := r + [p];
    forall i, j | 0 <= i < j < |n|
      ensures LessEq(n[i], n[j])
    {
      if j == |n| - 1 && i < |r| - 1 {
        assert LessEq(r[i], r[|r| - 1]);
      }
    }
  }

  /**
   * Scanning one more point p, after the points init that built the chain c,
   * keeps the chain sorted and keeps every scanned point on or left of every
   * edge.
   */
  lemma PushSupports(c: seq<Point>, init: seq<Point>, r: seq<Point>, p: Point)
    requires Sorted(init) && init != [] && LessEq(init[|init| - 1], p)
    requires Sorted(c) && |c| >= 1 && c[0] == init[0] && c[|c| - 1] == init[|init| - 1]
    requires Supports(c, init)
    requires 1 <= |r| <= |c| && r == c[..|r|] && Sorted(r) && LessEq(r[|r| - 1], p)
    requires forall k :: 0 <= k < |r| - 1 ==> Cross(r[k], r[k + 1], p) > 0
    requires forall j :: 0 <= j < |c| ==> Cross(r[|r| - 1], p, c[j]) >= 0
    ensures Sorted(r + [p]) && Supports(r + [p], init + [p])
  {
    var n := r + [p];
    SortedPush(r, p);
    forall k, q | 0 <= k < |n| - 1 && q in init + [p]
      ensures Cross(n[k], n[k + 1], q) >= 0
    {
      if k < |r| - 1 {
        KeptEdgeSupports(c, init, r, p, k, q);
      } else if q == p {
        CrossSelf(r[|r| - 1], p);
      } else {
        InitSeenFromLastEdge(c, init, r[|r| - 1], p, q);
      }
    }
  }

  /** An edge the pop kept still has every scanned point, and p, on or to its left. */
  lemma KeptEdgeSupports(c: seq<Point>, init: seq<Point>, r: seq<Point>, p: Point, k: nat, q: Point)
    requires Supports(c, init) && |r| <= |c| && r == c[..|r|] && k < |r| - 1 && q in init + [p]
    requires forall k :: 0 <= k < |r| - 1 ==> Cross(r[k], r[k + 1], p) > 0
    ensures Cross((r + [p])[k], (r + [p])[k + 1], q) >= 0
  {
    assert (r + [p])[k] == c[k] && (r + [p])[k + 1] == c[k + 1];
    if q != p {
      assert q in init;
    }
  }

  /**
   * A scanned point q, on or left of every edge of the chain c, is on or
   * left of a line e to p that has every point of c on or to its left.
   */
  lemma InitSeenFromLastEdge(c: seq<Point>, init: seq<Point>, e: Point, p: Point, q: Point)
    requires Sorted(init) && q in init
    requires Sorted(c) && |c| >= 1 && c[0] == init[0] && c[|c| - 1] == init[|init| - 1]
    requires Supports(c, init) && LessEq(e, p)
    requires forall j :: 0 <= j < |c| ==> Cross(e, p, c[j]) >= 0
    ensures Cross(e, p, q) >= 0
  {
    SortedFirst(init, q);
    var i :| 0 <= i < |init| && init[i] == q;
    assert LessEq(q, c[|c| - 1]) by {
      if i < |init| - 1 {
        assert LessEq(init[i], init[|init| - 1]);
      }
    }
    LastEdgeSupports(c, e, p, q);
  }

  /**
   * Scanning sorted points yields a sorted chain whose every edge has every
   * scanned point on or to its left.
   */
  lemma {:induction false} ChainSupportsAll(pts: seq<Point>)
    requires Sorted(pts)
    ensures Sorted(Chain(pts)) && Supports(Chain(pts), pts)
    decreases |pts|
  {
    if pts != [] {
      var init := pts[..|pts| - 1];
      var p := pts[|pts| - 1];
      assert pts == init + [p];
      assert Sorted(init);
      ChainSupportsAll(init);
      if init != [] {
        var c := Chain(init);
        var r := PopNonLeft(c, p);
        assert LessEq(init[|init| - 1], p);
        ChainEnds(init);
        ChainPushFacts(init, p);
        PushSupports(c, init, r, p);
        assert Chain(pts) == r + [p];
      }
    }
  }

  /** The chain over non-empty points starts at the first point and ends at the last. */
  lemma ChainEnds(pts: seq<Point>)
    requires pts != []
    ensures var c := Chain(pts);
      |c| >= 1 && c[0] == pts[0] && c[|c| - 1] == pts[|pts| - 1]
  {
    ChainShape(pts);
  }

  /** What PushFacts states about the chain scanned so far, when p comes after its points. */
  lemma ChainPushFacts(init: seq<Point>, p: Point)
    requires init != [] && Sorted(Chain(init)) && LessEq(init[|init| - 1], p)
    ensures var c := Chain(init);
      var r := PopNonLeft(c, p);
      && 1 <= |r| <= |c| && r == c[..|r|] && Sorted(r) && LessEq(r[|r| - 1], p)
      && (forall k :: 0 <= k < |r| - 1 ==> Cross(r[k], r[k + 1], p) > 0)
      && (forall j :: 0 <= j < |c| ==> Cross(r[|r| - 1], p, c[j]) >= 0)
  {
    var c := Chain(init);
    ChainShape(init);
    PushFacts(c, p);
  }

  // ---------------------------------------------------------------------
  // The upper chain, by a half-turn
  // ---------------------------------------------------------------------

  /** A half-turn about the origin: it reverses the sort order and keeps every turn. */
  function Neg(a: Point): Point
  {
    Point(-a.x, -a.y)
  }

  /** Every point of s, turned. */
  ghost function NegAll(s: seq<Point>): (t: seq<Point>)
    ensures |t| == |s| && forall i :: 0 <= i < |s| ==> t[i] == Neg(s[i])
  {
    if s == [] then [] else NegAll(s[..|s| - 1]) + [Neg(s[|s| - 1])]
  }

  lemma NegTurn(a: Point, b: Point, c: Point)
    ensures Cross(Neg(a), Neg(b), Neg(c)) == Cross(a, b, c)
  {
  }

  lemma NegSnoc(r: seq<Point>, p: Point)
    ensures NegAll(r + [p]) == NegAll(r) + [Neg(p)]
  {
  }

  /** The pops on the turned chain are the turned pops. */
  lemma {:induction false} NegPop(chain: seq<Point>, p: Point)
    ensures PopNonLeft(NegAll(chain), Neg(p)) == NegAll(PopNonLeft(chain, p))
    decreases |chain|
  {
    if |chain| >= 2 {
      var rest := chain[..|chain| - 1];
      NegTurn(chain[|chain| - 2], chain[|chain| - 1], p);
      assert NegAll(chain)[..|chain| - 1] == NegAll(rest);
      NegPop(rest, p);
    }
  }

  /** Scanning the turned points builds the turned chain. */
  lemma {:induction false} NegChain(pts: seq<Point>)
    ensures Chain(NegAll(pts)) == NegAll(Chain(pts))
    decreases |pts|
  {
    if pts != [] {
      var init := pts[..|pts| - 1];
      var p := pts[|pts| - 1];
      assert NegAll(pts)[..|pts| - 1] == NegAll(init);
      NegChain(init);
      NegPop(Chain(init), p);
      NegSnoc(PopNonLeft(Chain(init), p), p);
    }
  }

  /** Turning the reversed sorted points gives sorted points again. */
  lemma NegReverseSorted(s: seq<Point>)
    requires Sorted(s)
    ensures Sorted(NegAll(Reverse(s)))
  {
    var t := NegAll(Reverse(s));
    ReverseIndex(s);
    forall i, j | 0 <= i < j < |t|
      ensures LessEq(t[i], t[j])
    {
      assert LessEq(s[|s| - 1 - j], s[|s| - 1 - i]);
    }
  }

  /** Turning a chain and a point keeps the turn from each edge of the chain towards the point. */
  lemma NegEdge(u: seq<Point>, k: nat, q: Point)
    requires k < |u| - 1
    ensures Cross(NegAll(u)[k], NegAll(u)[k + 1], Neg(q)) == Cross(u[k], u[k + 1], q)
  {
    NegTurn(u[k], u[k + 1], q);
  }

  /**
   * The upper chain, scanned over the sorted points in reverse, has every
   * point on or left of every edge: it is the lower chain of the turned
   * points, turned back.
   */
  lemma UpperSupportsAll(s: seq<Point>)
    requires Sorted(s)
    ensures Supports(Chain(Reverse(s)), Reverse(s))
  {
    var rev := Reverse(s);
    var t := NegAll(rev);
    var u := Chain(rev);
    NegReverseSorted(s);
    ChainSupportsAll(t);
    NegChain(rev);
    forall k, q | 0 <= k < |u| - 1 && q in rev
      ensures Cross(u[k], u[k + 1], q) >= 0
    {
      var i :| 0 <= i < |rev| && rev[i] == q;
      var nu := NegAll(u);
      assert t[i] in t && t[i] == Neg(q);
      assert Cross(nu[k], nu[k + 1], t[i]) >= 0;
      NegEdge(u, k, q);
    }
  }

  // ---------------------------------------------------------------------
  // The final hull
  // ---------------------------------------------------------------------

  /** Two or more scanned points leave at least two on the chain. */
  lemma ChainTwo(pts: seq<Point>)
    requires |pts| >= 2
    ensures |Chain(pts)| >= 2
  {
    ChainShape(pts[..|pts| - 1]);
  }

  /**
   * Two chains glued at both ends, each without its last point: each cyclic
   * edge of the result is an edge of one of the two chains.
   */
  lemma CyclicEdges(lo: seq<Point>, up: seq<Point>, i: nat)
    requires |lo| >= 2 && |up| >= 2 && lo[|lo| - 1] == up[0] && up[|up| - 1] == lo[0]
    requires i < |lo| + |up| - 2
    ensures var h := lo[..|lo| - 1] + up[..|up| - 1];
      if i < |lo| - 1
      then h[i] == lo[i] && h[(i + 1) % |h|] == lo[i + 1]
      else h[i] == up[i - |lo| + 1] && h[(i + 1) % |h|] == up[i - |lo| + 2]
  {
    var n := |lo| + |up| - 2;
    NextOne(i, n);
    GluedAt(lo, up, i);
    GluedAt(lo, up, (i + 1) % n);
  }

  /** The vertex after vertex i of a closed polygon with n vertices. */
  lemma NextOne(i: nat, n: nat)
    requires i < n
    ensures (i + 1) % n == if i + 1 < n then i + 1 else 0
  {
  }

  /** q is on or left of the edge of the closed polygon h that leaves its vertex i. */
  ghost predicate OnOrLeftOfEdge(h: seq<Point>, i: nat, q: Point)
    requires i < |h|
  {
    Cross(h[i], h[(i + 1) % |h|], q) >= 0
  }

  /** The chain starts with the first scanned point and ends with the last one. */
  lemma ChainEndPoints(pts: seq<Point>)
    requires |pts| >= 2
    ensures var c := Chain(pts);
      |c| >= 2 && c[0] == pts[0] && c[|c| - 1] == pts[|pts| - 1]
  {
    ChainShape(pts);
    ChainTwo(pts);
  }

  /**
   * Two chains glued at both ends, each with every point of s on or left of
   * every edge, make a closed polygon with every point of s on or left of
   * every edge.
   */
  lemma GluedChainsEnclose(lo: seq<Point>, up: seq<Point>, s: seq<Point>)
    requires |lo| >= 2 && |up| >= 2 && lo[|lo| - 1] == up[0] && up[|up| - 1] == lo[0]
    requires Supports(lo, s) && Supports(up, s)
    ensures var h := lo[..|lo| - 1] + up[..|up| - 1];
      forall i: nat, q :: i < |h| && q in s ==> OnOrLeftOfEdge(h, i, q)
  {
    var h := lo[..|lo| - 1] + up[..|up| - 1];
    forall i: nat, q | i < |h| && q in s
      ensures OnOrLeftOfEdge(h, i, q)
    {
      CyclicEdges(lo, up, i);
    }
  }

  /** The points of a sequence and of its reverse are the same. */
  lemma SamePoints(s: seq<Point>, q: Point)
    requires q in s
    ensures q in Reverse(s)
  {
    ReverseIndex(s);
    var j :| 0 <= j < |s| && s[j] == q;
    assert Reverse(s)[|s| - 1 - j] == q;
  }

  /** Fewer than two points leave an empty final hull: each chain is the one point, and both drop it. */
  lemma SmallHull(points: seq<Point>)
    requires |points| < 2
    ensures FinalHull(points) == []
  {
    var sorted := SortPoints(points);
    SortPointsCorrect(points);
    if points != [] {
      var q := sorted[0];
      assert sorted == [q];
      ReverseIndex(sorted);
      assert Reverse(sorted) == [q];
      ChainSingle(q);
    }
  }

  /** The chain over one point is that point. */
  lemma ChainSingle(q: Point)
    ensures Chain([q]) == [q]
  {
    assert [q][..0] == [];
  }

  /**
   * Every input point is on or left of every edge of the final hull, read
   * cyclically: the hull encloses the input.
   */
  lemma HullEncloses(points: seq<Point>)
    ensures var h := FinalHull(points);
      forall i: nat, q :: i < |h| && q in points ==> OnOrLeftOfEdge(h, i, q)
  {
    var sorted := SortPoints(points);
    var rev := Reverse(sorted);
    var lo, up := Lower(points), Upper(points);
    var h := FinalHull(points);
    SortPointsCorrect(points);
    ReverseIndex(sorted);
    if |points| < 2 {
      SmallHull(points);
    } else {
      ChainEndPoints(sorted);
      ChainEndPoints(rev);
      ChainSupportsAll(sorted);
      UpperSupportsAll(sorted);
      assert Supports(up, sorted) by {
        forall q | q in sorted
          ensures q in rev
        {
          SamePoints(sorted, q);
        }
      }
      GluedChainsEnclose(lo, up, sorted);
      assert h == lo[..|lo| - 1] + up[..|up| - 1];
      assert forall q :: q in points ==> q in sorted by {
        forall q | q in points
          ensures q in sorted
        {
          assert q in multiset(sorted);
        }
      }
    }
  }

  // ---------------------------------------------------------------------
  // Strict turns where the two chains meet
  // ---------------------------------------------------------------------

  /** a, b, c make a strict left turn at b. */
  ghost predicate LeftTurn(a: Point, b: Point, c: Point)
  {
    Cross(a, b, c) > 0
  }

  /** Every three points of s lie on one line. */
  ghost predicate AllCollinear(s: seq<Point>)
  {
    forall x, y, z :: x in s && y in s && z in s ==> Cross(x, y, z) == 0
  }

  lemma MulZero(a: int, b: int)
    requires a * b == 0 && a != 0
    ensures b == 0
  {
  }

  /** Two vectors u and v, both parallel to a non-zero vector d, are parallel. */
  lemma Parallel(dx: int, dy: int, ux: int, uy: int, vx: int, vy: int)
    requires dx != 0 || dy != 0
    requires dx * uy - dy * ux == 0 && dx * vy - dy * vx == 0
    ensures ux * vy - uy * vx == 0
  {
    var uv := ux * vy - uy * vx;
    assert dx * uv == ux * (dx * vy - dy * vx) - vx * (dx * uy - dy * ux);
    assert dy * uv == uy * (dx * vy - dy * vx) - vy * (dx * uy - dy * ux);
    if dx != 0 {
      MulZero(dx, uv);
    } else {
      MulZero(dy, uv);
    }
  }

  /** Three points on the line through two distinct points a and b are collinear. */
  lemma OnOneLine(a: Point, b: Point, x: Point, y: Point, z: Point)
    requires a != b
    requires Cross(a, b, x) == 0 && Cross(a, b, y) == 0 && Cross(a, b, z) == 0
    ensures Cross(x, y, z) == 0
  {
    var dx, dy := b.x - a.x, b.y - a.y;
    Parallel(dx, dy, x.x - a.x, x.y - a.y, y.x - a.x, y.y - a.y);
    Parallel(dx, dy, y.x - a.x, y.y - a.y, z.x - a.x, z.y - a.y);
    Parallel(dx, dy, x.x - a.x, x.y - a.y, z.x - a.x, z.y - a.y);
    CrossFrom(a, x, y, z);
  }

  /** The cross product of x, y and z, written with the three points taken relative to a. */
  lemma CrossFrom(a: Point, x: Point, y: Point, z: Point)
    ensures Cross(x, y, z) ==
      ((x.x - a.x) * (y.y - a.y) - (x.y - a.y) * (y.x - a.x))
      + ((y.x - a.x) * (z.y - a.y) - (y.y - a.y) * (z.x - a.x))
      - ((x.x - a.x) * (z.y - a.y) - (x.y - a.y) * (z.x - a.x))
  {
  }

  /**
   * Where a forward edge a to b meets a backward edge b to c on one line,
   * a point on or left of both is on the line.
   */
  lemma OppositeEdges(a: Point, b: Point, c: Point, q: Point)
    requires LessEq(a, b) && a != b && LessEq(c, b) && c != b
    requires Cross(a, b, c) == 0 && Cross(a, b, q) >= 0 && Cross(b, c, q) >= 0
    ensures Cross(a, b, q) == 0
  {
    var dx, dy := b.x - a.x, b.y - a.y;
    var ex, ey := c.x - b.x, c.y - b.y;
    var wx, wy := q.x - b.x, q.y - b.y;
    var de, dw, ew := dx * ey - dy * ex, dx * wy - dy * wx, ex * wy - ey * wx;
    assert Cross(a, b, c) == de && Cross(a, b, q) == dw && Cross(b, c, q) == ew;
    assert ex * dw - dx * ew == wx * de;
    assert ey * dw - dy * ew == wy * de;
    if dx > 0 {
      if ex == 0 {
        MulZero(dx, ey);
      }
      if dw > 0 {
        MulPos(dw, -ex);
        MulNonNeg(dx, ew);
      }
    } else {
      assert dy > 0;
      MulZero(dy, ex);
      if dw > 0 {
        MulPos(dw, -ey);
        MulNonNeg(dy, ew);
      }
    }
  }

  /** Sorted points whose first and last point are equal are all that point. */
  lemma AllSame(s: seq<Point>)
    requires Sorted(s) && |s| >= 1 && s[0] == s[|s| - 1]
    ensures AllCollinear(s)
  {
    forall x | x in s
      ensures x == s[0]
    {
      SortedFirst(s, x);
      var i :| 0 <= i < |s| && s[i] == x;
      if i < |s| - 1 {
        assert LessEq(s[i], s[|s| - 1]);
      }
    }
    forall x, y, z | x in s && y in s && z in s
      ensures Cross(x, y, z) == 0
    {
      CrossSelf(x, x);
    }
  }

  /** A chain turning strictly left through collinear points has at most two of them. */
  lemma CollinearChainShort(c: seq<Point>, s: seq<Point>)
    requires LeftTurns(c) && forall q :: q in c ==> q in s
    ensures AllCollinear(s) ==> |c| <= 2
  {
    if |c| >= 3 {
      assert c[0] in s && c[1] in s && c[2] in s;
      assert Cross(c[0], c[1], c[2]) > 0;
    }
  }

  /** A chain of three or more points turning strictly left has no repeated point at either end. */
  lemma ChainEndsProper(c: seq<Point>)
    requires LeftTurns(c)
    ensures |c| >= 3 ==> c[0] != c[1] && c[|c| - 2] != c[|c| - 1]
  {
    if |c| >= 3 {
      assert Cross(c[0], c[1], c[2]) > 0;
      assert Cross(c[|c| - 3], c[|c| - 2], c[|c| - 1]) > 0;
      CrossSelf(c[0], c[0]);
      CrossSelf(c[|c| - 3], c[|c| - 1]);
    }
  }

  /**
   * The two chains over sorted points: both run between the first and the
   * last point, and a repeated point at the junction means the chain is only
   * those two points.
   */
  lemma JunctionShape(s: seq<Point>)
    requires Sorted(s) && |s| >= 2
    ensures var lo, up := Chain(s), Chain(Reverse(s));
      && |lo| >= 2 && lo[0] == s[0] && lo[|lo| - 1] == s[|s| - 1]
      && |up| >= 2 && up[0] == s[|s| - 1] && up[|up| - 1] == s[0]
      && (lo[|lo| - 2] == lo[|lo| - 1] ==> |lo| == 2)
      && (up[0] == up[1] ==> |up| == 2)
      && up[1] in s
  {
    var rev := Reverse(s);
    ReverseIndex(s);
    ChainEndPoints(s);
    ChainEndPoints(rev);
    ChainShape(s);
    ChainShape(rev);
    ChainEndsProper(Chain(s));
    ChainEndsProper(Chain(rev));
    assert Chain(rev)[1] in Chain(rev);
    ReversePoints(s, Chain(rev)[1]);
  }

  /**
   * Points on or left of a forward edge a to b and of a backward edge b to c
   * on the same line all lie on that line.
   */
  lemma FlatLine(s: seq<Point>, a: Point, b: Point, c: Point)
    requires LessEq(a, b) && a != b && LessEq(c, b) && c != b && Cross(a, b, c) == 0
    requires forall q :: q in s ==> Cross(a, b, q) >= 0 && Cross(b, c, q) >= 0
    ensures AllCollinear(s)
  {
    forall q | q in s
      ensures Cross(a, b, q) == 0
    {
      OppositeEdges(a, b, c, q);
    }
    forall x, y, z | x in s && y in s && z in s
      ensures Cross(x, y, z) == 0
    {
      OnOneLine(a, b, x, y, z);
    }
  }

  /** Every point of a sorted sequence may precede its last point. */
  lemma SortedLast(s: seq<Point>, q: Point)
    requires Sorted(s) && q in s
    ensures LessEq(q, s[|s| - 1])
  {
    var i :| 0 <= i < |s| && s[i] == q;
    if i < |s| - 1 {
      assert LessEq(s[i], s[|s| - 1]);
    }
  }

  /**
   * With no repeated point at the junction, a flat junction puts every
   * sorted point on one line.
   */
  lemma ProperFlatJunction(s: seq<Point>, lo: seq<Point>, up: seq<Point>)
    requires Sorted(s) && |s| >= 2 && |lo| >= 2 && |up| >= 2
    requires lo[|lo| - 1] == s[|s| - 1] && up[0] == s[|s| - 1] && up[1] in s && Sorted(lo)
    requires Supports(lo, s) && Supports(up, Reverse(s))
    requires lo[|lo| - 2] != lo[|lo| - 1] && up[1] != up[0]
    requires Cross(lo[|lo| - 2], lo[|lo| - 1], up[1]) == 0
    ensures AllCollinear(s)
  {
    var a, b, c := lo[|lo| - 2], lo[|lo| - 1], up[1];
    SortedLast(s, c);
    forall q | q in s
      ensures Cross(a, b, q) >= 0 && Cross(b, c, q) >= 0
    {
      SamePoints(s, q);
      assert Cross(up[0], up[1], q) >= 0;
    }
    FlatLine(s, a, b, c);
  }

  /**
   * If the lower chain's last edge and the upper chain's first edge lie on
   * one line, all the sorted points s do.
   */
  lemma FlatJunction(s: seq<Point>)
    requires Sorted(s) && |s| >= 2
    ensures |Chain(s)| >= 2 && |Chain(Reverse(s))| >= 2
    ensures Cross(Chain(s)[|Chain(s)| - 2], Chain(s)[|Chain(s)| - 1], Chain(Reverse(s))[1]) == 0 ==> AllCollinear(s)
  {
    var lo, up := Chain(s), Chain(Reverse(s));
    JunctionShape(s);
    var a, b, c := lo[|lo| - 2], lo[|lo| - 1], up[1];
    if Cross(a, b, c) == 0 {
      if a == b || c == b {
        AllSame(s);
      } else {
        ChainSupportsAll(s);
        UpperSupportsAll(s);
        ProperFlatJunction(s, lo, up);
      }
    }
  }

  /** Over collinear sorted points both chains have at most two points. */
  lemma ShortIfCollinear(s: seq<Point>)
    requires Sorted(s) && |s| >= 2
    ensures AllCollinear(s) ==> |Chain(s)| <= 2 && |Chain(Reverse(s))| <= 2
  {
    var rev := Reverse(s);
    ChainShape(s);
    ChainShape(rev);
    forall q | q in Chain(rev)
      ensures q in s
    {
      ReversePoints(s, q);
    }
    CollinearChainShort(Chain(s), s);
    CollinearChainShort(Chain(rev), s);
  }

  /**
   * Where the lower chain ends and the upper chain starts, the turn is
   * strictly left as soon as the two chains hold five points between them.
   */
  lemma JunctionTurn(s: seq<Point>)
    requires Sorted(s) && |s| >= 2
    ensures var lo, up := Chain(s), Chain(Reverse(s));
      && |lo| >= 2 && |up| >= 2
      && (|lo| + |up| >= 5 ==> LeftTurn(lo[|lo| - 2], lo[|lo| - 1], up[1]))
  {
    var lo, up := Chain(s), Chain(Reverse(s));
    JunctionShape(s);
    FlatJunction(s);
    ShortIfCollinear(s);
    ChainSupportsAll(s);
    assert Cross(lo[|lo| - 2], lo[|lo| - 1], up[1]) >= 0;
  }

  /** Turning the reversed turned points back gives the turned points. */
  lemma TurnedReverse(s: seq<Point>)
    ensures Reverse(NegAll(Reverse(s))) == NegAll(s)
  {
    ReverseIndex(s);
    ReverseIndex(NegAll(Reverse(s)));
  }

  /**
   * The turned points are sorted again; their lower chain is the turned
   * upper chain and their upper chain the turned lower chain.
   */
  lemma TurnedChains(s: seq<Point>)
    requires Sorted(s) && |s| >= 2
    ensures var t := NegAll(Reverse(s));
      && Sorted(t) && |t| >= 2
      && Chain(t) == NegAll(Chain(Reverse(s))) && Chain(Reverse(t)) == NegAll(Chain(s))
  {
    var rev := Reverse(s);
    ReverseIndex(s);
    NegReverseSorted(s);
    NegChain(rev);
    TurnedReverse(s);
    NegChain(s);
  }

  /**
   * The junction turn of the turned points: the turned upper chain nlo meets
   * the turned lower chain nup turning left.
   */
  lemma TurnedJunction(s: seq<Point>, lo: seq<Point>, up: seq<Point>, nlo: seq<Point>, nup: seq<Point>)
    requires Sorted(s) && |s| >= 2
    requires lo == Chain(s) && up == Chain(Reverse(s)) && nlo == NegAll(up) && nup == NegAll(lo)
    ensures |nlo| >= 2 && |nup| >= 2
    ensures |nlo| + |nup| >= 5 ==> LeftTurn(nlo[|nlo| - 2], nlo[|nlo| - 1], nup[1])
  {
    var t := NegAll(Reverse(s));
    TurnedChains(s);
    JunctionTurn(t);
  }

  /** The turn where the upper chain ends and the lower chain starts again is strictly left too. */
  lemma ClosingTurn(s: seq<Point>)
    requires Sorted(s) && |s| >= 2
    ensures |Chain(s)| >= 2 && |Chain(Reverse(s))| >= 2
    ensures |Chain(s)| + |Chain(Reverse(s))| >= 5 ==>
      LeftTurn(Chain(Reverse(s))[|Chain(Reverse(s))| - 2], Chain(Reverse(s))[|Chain(Reverse(s))| - 1], Chain(s)[1])
  {
    var lo, up := Chain(s), Chain(Reverse(s));
    var nlo, nup := NegAll(up), NegAll(lo);
    TurnedJunction(s, lo, up, nlo, nup);
    TurnedBack(lo, up, nlo, nup);
  }

  /**
   * A strict left turn where the turned chains meet is a strict left turn
   * where the chains themselves meet, at the other end.
   */
  lemma TurnedBack(lo: seq<Point>, up: seq<Point>, nlo: seq<Point>, nup: seq<Point>)
    requires nlo == NegAll(up) && nup == NegAll(lo)
    requires |nlo| >= 2 && |nup| >= 2
    requires |nlo| + |nup| >= 5 ==> LeftTurn(nlo[|nlo| - 2], nlo[|nlo| - 1], nup[1])
    ensures |lo| >= 2 && |up| >= 2
    ensures |lo| + |up| >= 5 ==> LeftTurn(up[|up| - 2], up[|up| - 1], lo[1])
  {
    if |lo| + |up| >= 5 {
      NegEdge(up, |up| - 2, lo[1]);
    }
  }

  /** The turn of the closed polygon h at its vertex i + 1 is strictly left. */
  ghost predicate TurnsLeftAt(h: seq<Point>, i: nat)
    requires i < |h|
  {
    Cross(h[i], h[(i + 1) % |h|], h[(i + 2) % |h|]) > 0
  }

  /** A closed polygon of three or more vertices that turns strictly left at every vertex. */
  ghost predicate ConvexPolygon(h: seq<Point>)
  {
    |h| >= 3 ==> forall i: nat :: i < |h| ==> TurnsLeftAt(h, i)
  }

  /**
   * Two chains glued at both ends, each without its last point: each cyclic
   * triple of the result is a triple of one chain or one of the two
   * junctions.
   */
  lemma CyclicTriples(lo: seq<Point>, up: seq<Point>, i: nat)
    requires |lo| >= 2 && |up| >= 2 && lo[|lo| - 1] == up[0] && up[|up| - 1] == lo[0]
    requires 3 <= |lo| + |up| - 2 && i < |lo| + |up| - 2
    ensures var h := lo[..|lo| - 1] + up[..|up| - 1];
      var n := |h|;
      if i < |lo| - 2 then
        h[i] == lo[i] && h[(i + 1) % n] == lo[i + 1] && h[(i + 2) % n] == lo[i + 2]
      else if i == |lo| - 2 then
        h[i] == lo[i] && h[(i + 1) % n] == lo[i + 1] && h[(i + 2) % n] == up[1]
      else if i < n - 1 then
        h[i] == up[i - |lo| + 1] && h[(i + 1) % n] == up[i - |lo| + 2] && h[(i + 2) % n] == up[i - |lo| + 3]
      else
        h[i] == up[|up| - 2] && h[(i + 1) % n] == up[|up| - 1] && h[(i + 2) % n] == lo[1]
  {
    var n := |lo| + |up| - 2;
    var j1, j2 := (i + 1) % n, (i + 2) % n;
    NextTwo(i, n);
    GluedAt(lo, up, i);
    GluedAt(lo, up, j1);
    GluedAt(lo, up, j2);
  }

  /** The two vertices after vertex i of a closed polygon with n >= 3 vertices. */
  lemma NextTwo(i: nat, n: nat)
    requires 3 <= n && i < n
    ensures (i + 1) % n == if i + 1 < n then i + 1 else 0
    ensures (i + 2) % n == if i + 2 < n then i + 2 else i + 2 - n
  {
  }

  /** Vertex j of two chains glued at both ends, each without its last point. */
  lemma GluedAt(lo: seq<Point>, up: seq<Point>, j: nat)
    requires |lo| >= 1 && |up| >= 1 && j < |lo| + |up| - 2
    ensures var h := lo[..|lo| - 1] + up[..|up| - 1];
      h[j] == if j < |lo| - 1 then lo[j] else up[j - |lo| + 1]
  {
  }

  /**
   * Two chains turning strictly left, glued at both ends with strict left
   * turns at both junctions, make a closed polygon turning strictly left at
   * every vertex.
   */
  lemma GluedChainsConvex(lo: seq<Point>, up: seq<Point>)
    requires |lo| >= 2 && |up| >= 2 && lo[|lo| - 1] == up[0] && up[|up| - 1] == lo[0]
    requires 3 <= |lo| + |up| - 2
    requires LeftTurns(lo) && LeftTurns(up)
    requires LeftTurn(lo[|lo| - 2], lo[|lo| - 1], up[1])
    requires LeftTurn(up[|up| - 2], up[|up| - 1], lo[1])
    ensures ConvexPolygon(lo[..|lo| - 1] + up[..|up| - 1])
  {
    var h := lo[..|lo| - 1] + up[..|up| - 1];
    forall i: nat | i < |h|
      ensures TurnsLeftAt(h, i)
    {
      CyclicTriples(lo, up, i);
    }
  }

  lemma ChainTurns(pts: seq<Point>)
    ensures LeftTurns(Chain(pts))
  {
    ChainShape(pts);
  }

  /** The two chains over sorted points, glued, turn strictly left at every vertex once they make three. */
  lemma SortedChainsConvex(s: seq<Point>)
    requires Sorted(s) && |s| >= 2
    ensures var lo, up := Chain(s), Chain(Reverse(s));
      |lo| >= 2 && |up| >= 2 && ConvexPolygon(lo[..|lo| - 1] + up[..|up| - 1])
  {
    var lo, up := Chain(s), Chain(Reverse(s));
    ChainsMeet(s);
    if |lo| + |up| >= 5 {
      JunctionTurn(s);
      ClosingTurn(s);
      GluedSortedChainsConvex(s, lo, up);
    } else {
      assert |lo[..|lo| - 1] + up[..|up| - 1]| < 3;
    }
  }

  /** The lower chain ends where the upper chain starts, and the other way round. */
  lemma ChainsMeet(s: seq<Point>)
    requires |s| >= 2
    ensures var lo, up := Chain(s), Chain(Reverse(s));
      |lo| >= 2 && |up| >= 2 && lo[|lo| - 1] == up[0] && up[|up| - 1] == lo[0]
  {
    ReverseIndex(s);
    ChainEndPoints(s);
    ChainEndPoints(Reverse(s));
  }

  lemma GluedSortedChainsConvex(s: seq<Point>, lo: seq<Point>, up: seq<Point>)
    requires lo == Chain(s) && up == Chain(Reverse(s))
    requires |lo| >= 2 && |up| >= 2 && lo[|lo| - 1] == up[0] && up[|up| - 1] == lo[0] && |lo| + |up| >= 5
    requires LeftTurn(lo[|lo| - 2], lo[|lo| - 1], up[1]) && LeftTurn(up[|up| - 2], up[|up| - 1], lo[1])
    ensures ConvexPolygon(lo[..|lo| - 1] + up[..|up| - 1])
  {
    ChainTurns(s);
    ChainTurns(Reverse(s));
    GluedChainsConvex(lo, up);
  }

  /**
   * The final hull of three or more vertices turns strictly left at every
   * vertex, read cyclically: it is a convex polygon in counter-clockwise
   * order with no collinear vertex.
   */
  lemma HullConvex(points: seq<Point>)
    ensures ConvexPolygon(FinalHull(points))
  {
    var sorted := SortPoints(points);
    var h := FinalHull(points);
    SortPointsCorrect(points);
    if |points| < 2 {
      SmallHull(points);
    } else {
      SortedChainsConvex(sorted);
      var lo, up := Lower(points), Upper(points);
      assert h == lo[..|lo| - 1] + up[..|up| - 1];
    }
  }
}
