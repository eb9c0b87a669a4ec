/**
 * The even-odd ray-casting test (src/utils/pointInPolygon.js).
 *
 * The loop visits every edge from `polygon[j]` to `polygon[i]`, where j is
 * the index before i with wrap-around, and toggles a flag for each edge that
 * straddles the horizontal line through the point and meets it strictly to
 * the right of the point. The specification is the parity of the number of
 * such edges. Coordinates are integers and the division is done exactly in
 * `real`, keeping the source's 0.0000001 added to the denominator.
 */
module RayCasting {
  import opened Geometry

  /** The constant the source adds to the denominator. */
  const Epsilon: real := 0.0000001

  /** An edge as the loop visits it: from polygon[j] to polygon[i]. */
  datatype Edge = Edge(from: Point, to: Point)

  /**
   * Whether the edge toggles the flag: its ends lie on opposite sides of the
   * line through the point (one strictly above, one not), and the point is
   * strictly left of where the edge meets that line.
   */
  predicate Crosses(pt: Point, e: Edge): (r: bool)
    ensures r ==> (e.from.y <= pt.y < e.to.y) || (e.to.y <= pt.y < e.from.y)
  {
    var xi, yi, xj, yj := e.to.x, e.to.y, e.from.x, e.from.y;
    && ((yi > pt.y) != (yj > pt.y))
    && (pt.x as real) < ((xj - xi) as real * (pt.y - yi) as real) / ((yj - yi) as real + Epsilon) + xi as real
  }

  /** The index visited just before i: j starts at n - 1 and then trails i by one. */
  function Before(n: nat, i: nat): nat
    requires i < n
  {
    if i == 0 then n - 1 else i - 1
  }

  /** The edges in the order the loop visits them. */
  function Edges(polygon: seq<Point>): seq<Edge>
  {
    seq(|polygon|, i requires 0 <= i < |polygon| => Edge(polygon[Before(|polygon|, i)], polygon[i]))
  }

  /** The loop visits every edge once: first the closing edge from the last vertex, then each vertex from its predecessor. */
  lemma EdgesWrapAround(polygon: seq<Point>)
    ensures |Edges(polygon)| == |polygon|
    ensures |polygon| > 0 ==> Edges(polygon)[0] == Edge(polygon[|polygon| - 1], polygon[0])
    ensures forall i :: 0 < i < |polygon| ==> Edges(polygon)[i] == Edge(polygon[i - 1], polygon[i])
  {
  }

  /** How many of the edges toggle the flag. */
  function Crossings(pt: Point, edges: seq<Edge>): nat
    decreases |edges|
  {
    if edges == [] then 0
    else Crossings(pt, edges[..|edges| - 1]) + (if Crosses(pt, edges[|edges| - 1]) then 1 else 0)
  }

  /** The answer the loop gives: an odd number of toggles. */
  predicate Inside(pt: Point, polygon: seq<Point>)
  {
    Crossings(pt, Edges(polygon)) % 2 == 1
  }

  /** `pointInPolygon(point, polygon)`. */
  method PointInPolygon(point: Point, polygon: seq<Point>) returns (inside: bool)
    ensures inside == Inside(point, polygon)
    ensures polygon == [] ==> !inside
  {
    var edges := Edges(polygon);
    inside := false;
    var i := 0;
    var j := |polygon| - 1;
    while i < |polygon|
      invariant 0 <= i <= |polygon|
      invariant j == if i == 0 then |polygon| - 1 else i - 1
      invariant inside == (Crossings(point, edges[..i]) % 2 == 1)
    {
      CrossingsStep(point, edges, i);
      assert edges[i] == Edge(polygon[j], polygon[i]);
      if Crosses(point, Edge(polygon[j], polygon[i])) {
        inside := !inside;
      }
      j := i;
      i := i + 1;
    }
    assert edges[..|polygon|] == edges;
  }

  /** One more edge of the loop adds one toggle if it crosses. */
  lemma CrossingsStep(pt: Point, edges: seq<Edge>, i: nat)
    requires i < |edges|
    ensures Crossings(pt, edges[..i + 1]) == Crossings(pt, edges[..i]) + (if Crosses(pt, edges[i]) then 1 else 0)
    ensures (Crossings(pt, edges[..i + 1]) % 2 == 1) == ((Crossings(pt, edges[..i]) % 2 == 1) != Crosses(pt, edges[i]))
  {
    assert edges[..i + 1][..i] == edges[..i];
  }

  // ---------------------------------------------------------------------
  // Properties of the parity
  // ---------------------------------------------------------------------

  /** Counting over two runs of edges adds up. */
  lemma {:induction false} CrossingsAppend(pt: Point, a: seq<Edge>, b: seq<Edge>)
    ensures Crossings(pt, a + b) == Crossings(pt, a) + Crossings(pt, b)
    decreases |b|
  {
    if b != [] {
      assert (a + b)[..|a + b| - 1] == a + b[..|b| - 1];
      assert (a + b)[|a + b| - 1] == b[|b| - 1];
      CrossingsAppend(pt, a, b[..|b| - 1]);
    } else {
      assert a + b == a;
    }
  }

  /** A horizontal or zero-length edge never toggles the flag. */
  lemma FlatEdgeNeverCrosses(pt: Point, e: Edge)
    requires e.from.y == e.to.y
    ensures !Crosses(pt, e)
  {
  }

  /** Only the edges that are not horizontal matter: dropping the flat ones keeps the count. */
  function SlopedEdges(edges: seq<Edge>): seq<Edge>
    decreases |edges|
  {
    if edges == [] then []
    else
      var last := edges[|edges| - 1];
      SlopedEdges(edges[..|edges| - 1]) + (if last.from.y != last.to.y then [last] else [])
  }

  lemma {:induction false} FlatEdgesIgnored(pt: Point, edges: seq<Edge>)
    ensures Crossings(pt, SlopedEdges(edges)) == Crossings(pt, edges)
    ensures forall e :: e in SlopedEdges(edges) ==> e.from.y != e.to.y
    decreases |edges|
  {
    if edges != [] {
      var init, last := edges[..|edges| - 1], edges[|edges| - 1];
      FlatEdgesIgnored(pt, init);
      var keep := if last.from.y != last.to.y then [last] else [];
      CrossingsAppend(pt, SlopedEdges(init), keep);
      if keep == [last] {
        assert keep[..0] == [];
      }
    }
  }

  /** A run of edges none of which straddles the point's line adds nothing. */
  lemma {:induction false} NoStraddleNoCrossing(pt: Point, edges: seq<Edge>)
    requires forall k :: 0 <= k < |edges| ==> (edges[k].to.y > pt.y) == (edges[k].from.y > pt.y)
    ensures Crossings(pt, edges) == 0
    decreases |edges|
  {
    if edges != [] {
      NoStraddleNoCrossing(pt, edges[..|edges| - 1]);
    }
  }

  /** A point on or above every vertex, or strictly below every vertex, is reported outside. */
  lemma OutsideVerticalRange(pt: Point, polygon: seq<Point>)
    requires (forall k :: 0 <= k < |polygon| ==> polygon[k].y <= pt.y)
          || (forall k :: 0 <= k < |polygon| ==> polygon[k].y > pt.y)
    ensures !Inside(pt, polygon)
  {
    NoStraddleNoCrossing(pt, Edges(polygon));
  }

  /**
   * Closing the polygon by repeating its first vertex at the end changes
   * nothing: the new first edge has zero length, and the edge from the old
   * last vertex back to the first is now visited last instead of first.
   */
  lemma ClosingVertexIgnored(pt: Point, polygon: seq<Point>)
    requires polygon != []
    ensures Inside(pt, polygon + [polygon[0]]) == Inside(pt, polygon)
  {
    var closed := polygon + [polygon[0]];
    var es := Edges(polygon);
    var zero := Edge(polygon[0], polygon[0]);
    assert Edges(closed) == [zero] + es[1..] + [es[0]];
    FlatEdgeNeverCrosses(pt, zero);
    CrossingsAppend(pt, [zero], es[1..]);
    CrossingsAppend(pt, [zero] + es[1..], [es[0]]);
    CrossingsAppend(pt, [es[0]], es[1..]);
    assert [zero][..0] == [] && [es[0]][..0] == [];
    assert es == [es[0]] + es[1..];
  }

  /** Starting the vertex list at another vertex visits the same edges in a rotated order. */
  lemma RotatedEdges(polygon: seq<Point>, k: nat)
    requires k < |polygon|
    ensures Edges(polygon[k..] + polygon[..k]) == Edges(polygon)[k..] + Edges(polygon)[..k]
  {
    var n := |polygon|;
    var rot := polygon[k..] + polygon[..k];
    var es := Edges(polygon);
    forall i | 0 <= i < n
      ensures Edges(rot)[i] == (es[k..] + es[..k])[i]
    {
      var src := if i + k < n then i + k else i + k - n;
      assert rot[i] == polygon[src];
      assert (es[k..] + es[..k])[i] == es[src];
      var b := Before(n, i);
      assert rot[b] == polygon[Before(n, src)];
    }
  }

  /** Rotating the vertex list leaves the answer unchanged. */
  lemma RotationInvariant(pt: Point, polygon: seq<Point>, k: nat)
    requires k < |polygon|
    ensures Inside(pt, polygon[k..] + polygon[..k]) == Inside(pt, polygon)
  {
    var es := Edges(polygon);
    RotatedEdges(polygon, k);
    CrossingsAppend(pt, es[k..], es[..k]);
    CrossingsAppend(pt, es[..k], es[k..]);
    assert es[..k] + es[k..] == es;
  }

  // ---------------------------------------------------------------------
  // No on-edge test: the square (0, 0), (4, 0), (4, 4), (0, 4)
  // ---------------------------------------------------------------------

  lemma SquareEdges(a: Point, b: Point, c: Point, d: Point)
    ensures Edges([a, b, c, d]) == [Edge(d, a), Edge(a, b), Edge(b, c), Edge(c, d)]
  {
  }

  lemma CrossingsOfFour(pt: Point, e0: Edge, e1: Edge, e2: Edge, e3: Edge)
    ensures Crossings(pt, [e0, e1, e2, e3])
         == (if Crosses(pt, e0) then 1 else 0) + (if Crosses(pt, e1) then 1 else 0)
          + (if Crosses(pt, e2) then 1 else 0) + (if Crosses(pt, e3) then 1 else 0)
  {
    CrossingsAppend(pt, [e0], [e1]);
    CrossingsAppend(pt, [e0, e1], [e2]);
    CrossingsAppend(pt, [e0, e1, e2], [e3]);
    assert [e0] + [e1] == [e0, e1] && [e0, e1] + [e2] == [e0, e1, e2] && [e0, e1, e2] + [e3] == [e0, e1, e2, e3];
    forall e: Edge ensures Crossings(pt, [e]) == if Crosses(pt, e) then 1 else 0 {
      assert [e][..0] == [];
    }
  }

  /**
   * A point on the bottom side counts as inside (only the right side
   * crosses its line to its right), a point on the top side as outside (no
   * edge straddles its line).
   */
  lemma SquareBoundary(a: Point, b: Point, c: Point, d: Point, bottom: Point, top: Point)
    requires a == Point(0, 0) && b == Point(4, 0) && c == Point(4, 4) && d == Point(0, 4)
    requires bottom == Point(2, 0) && top == Point(2, 4)
    ensures Inside(bottom, [a, b, c, d])
    ensures !Inside(top, [a, b, c, d])
  {
    SquareEdges(a, b, c, d);
    CrossingsOfFour(bottom, Edge(d, a), Edge(a, b), Edge(b, c), Edge(c, d));
    assert !Crosses(bottom, Edge(d, a));
    assert !Crosses(bottom, Edge(a, b));
    assert Crosses(bottom, Edge(b, c));
    assert !Crosses(bottom, Edge(c, d));
    OutsideVerticalRange(top, [a, b, c, d]);
  }

  lemma SquareBoundaryExample()
    ensures Inside(Point(2, 0), [Point(0, 0), Point(4, 0), Point(4, 4), Point(0, 4)])
    ensures !Inside(Point(2, 4), [Point(0, 0), Point(4, 0), Point(4, 4), Point(0, 4)])
  {
    SquareBoundary(Point(0, 0), Point(4, 0), Point(4, 4), Point(0, 4), Point(2, 0), Point(2, 4));
  }
}
