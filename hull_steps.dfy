/**
 * Andrew's monotone chain, instrumented with a replay log
 * (src/utils/convexHullSteps.jsx).
 *
 * The pure functions below are the specification: `Chain` is the chain left
 * after scanning a sequence of points, `ChainLog` the snapshots the scan
 * emits, `HullSteps` the whole log. `ComputeConvexHullSteps` is the loop the
 * source runs, proved to produce exactly `HullSteps`.
 */
module HullSteps {
  import opened Geometry

  /** Twice the signed area of the triangle o, a, b; positive for a left turn. */
  function Cross(o: Point, a: Point, b: Point): int
  {
    (a.x - o.x) * (b.y - o.y) - (a.y - o.y) * (b.x - o.x)
  }

  // ---------------------------------------------------------------------
  // The sort of the copy: ascending by x, ties by y
  // ---------------------------------------------------------------------

  /** The comparator `a.x - b.x || a.y - b.y` read as "a may come before b". */
  predicate LessEq(a: Point, b: Point)
  {
    a.x < b.x || (a.x == b.x && a.y <= b.y)
  }

  /** The source's comparator: the x difference, or the y difference when the x values are equal. */
  function Compare(a: Point, b: Point): int
  {
    if a.x - b.x != 0 then a.x - b.x else a.y - b.y
  }

  /**
   * a may come before b exactly when the comparator does not put b first,
   * and this order is total, antisymmetric and transitive, so the sort is
   * well defined.
   */
  lemma LessEqOrder(a: Point, b: Point, c: Point)
    ensures LessEq(a, b) <==> Compare(a, b) <= 0
    ensures LessEq(a, b) || LessEq(b, a)
    ensures LessEq(a, b) && LessEq(b, a) ==> a == b
    ensures LessEq(a, b) && LessEq(b, c) ==> LessEq(a, c)
  {
  }

  predicate Sorted(s: seq<Point>)
  {
    forall i, j :: 0 <= i < j < |s| ==> LessEq(s[i], s[j])
  }

  /** Inserts p before the first point it may precede. */
  function Insert(p: Point, s: seq<Point>): seq<Point>
  {
    if s == [] || LessEq(p, s[0]) then [p] + s else [s[0]] + Insert(p, s[1..])
  }

  /** The sorted copy `[...points].sort(...)`, computed by insertion. */
  function SortPoints(points: seq<Point>): seq<Point>
  {
    if points == [] then [] else Insert(points[0], SortPoints(points[1..]))
  }

  /** The first point of a sorted sequence may precede every point in it. */
  lemma SortedFirst(s: seq<Point>, q: Point)
    requires Sorted(s) && q in s
    ensures LessEq(s[0], q)
  {
    var k :| 0 <= k < |s| && s[k] == q;
    if k > 0 {
      assert LessEq(s[0], s[k]);
    }
  }

  /** A point that may precede every point of a sorted sequence can be put in front of it. */
  lemma ConsSorted(x: Point, rest: seq<Point>)
    requires Sorted(rest)
    requires forall k :: 0 <= k < |rest| ==> LessEq(x, rest[k])
    ensures Sorted([x] + rest)
  {
    var r := [x] + rest;
    forall i, j | 0 <= i < j < |r| ensures LessEq(r[i], r[j]) {
      assert r[j] == rest[j - 1];
      if i > 0 {
        assert r[i] == rest[i - 1];
      }
    }
  }

  lemma {:induction false} InsertSorted(p: Point, s: seq<Point>)
    requires Sorted(s)
    ensures Sorted(Insert(p, s))
    ensures multiset(Insert(p, s)) == multiset(s) + multiset{p}
    decreases |s|
  {
    if s == [] || LessEq(p, s[0]) {
      forall k | 0 <= k < |s| ensures LessEq(p, s[k]) {
        SortedFirst(s, s[k]);
      }
      ConsSorted(p, s);
    } else {
      var tail := s[1..];
      SortedTail(s);
      InsertSorted(p, tail);
      var rest := Insert(p, tail);
      assert s == [s[0]] + tail;
      forall k | 0 <= k < |rest| ensures LessEq(s[0], rest[k]) {
        var q := rest[k];
        assert q in multiset(rest);
        if q != p {
          assert q in multiset(tail);
          assert q in s;
          SortedFirst(s, q);
        }
      }
      ConsSorted(s[0], rest);
    }
  }

  /** The copy is sorted by x, then y, and holds exactly the input points (a permutation). */
  lemma {:induction false} SortPointsCorrect(points: seq<Point>)
    ensures Sorted(SortPoints(points))
    ensures multiset(SortPoints(points)) == multiset(points)
    ensures |SortPoints(points)| == |points|
    decreases |points|
  {
    if points != [] {
      SortPointsCorrect(points[1..]);
      InsertSorted(points[0], SortPoints(points[1..]));
      assert points == [points[0]] + points[1..];
    }
    assert |SortPoints(points)| == |multiset(SortPoints(points))|;
  }

  /**
   * The comparator is a total order in which only equal points tie, so every
   * sort (stable or not) produces the same copy: the one `SortPoints` gives.
   */
  lemma {:induction false} SortedUnique(s: seq<Point>, t: seq<Point>)
    requires Sorted(s) && Sorted(t)
    requires multiset(s) == multiset(t)
    ensures s == t
    decreases |s|
  {
    if s != [] {
      SameFirst(s, t);
      SameTails(s, t);
      SortedTail(s);
      SortedTail(t);
      SortedUnique(s[1..], t[1..]);
      assert s == [s[0]] + s[1..] && t == [t[0]] + t[1..];
    }
  }

  /** Two sorted permutations of the same non-empty points start with the same point. */
  lemma SameFirst(s: seq<Point>, t: seq<Point>)
    requires Sorted(s) && Sorted(t) && s != []
    requires multiset(s) == multiset(t)
    ensures t != [] && s[0] == t[0]
  {
    assert s[0] in multiset(t);
    assert t != [] && t[0] in multiset(s);
    SortedFirst(t, s[0]);
    SortedFirst(s, t[0]);
  }

  /** Removing the same first point from two permutations of each other leaves permutations of each other. */
  lemma SameTails(s: seq<Point>, t: seq<Point>)
    requires s != [] && t != [] && s[0] == t[0]
    requires multiset(s) == multiset(t)
    ensures multiset(s[1..]) == multiset(t[1..])
  {
    assert s == [s[0]] + s[1..] && t == [t[0]] + t[1..];
    assert multiset(s[1..]) == multiset(s) - multiset{s[0]};
    assert multiset(t[1..]) == multiset(t) - multiset{t[0]};
  }

  lemma SortedTail(s: seq<Point>)
    requires Sorted(s) && s != []
    ensures Sorted(s[1..])
  {
    forall i, j | 0 <= i < j < |s| - 1 ensures LessEq(s[1..][i], s[1..][j]) {
      assert s[1..][i] == s[i + 1] && s[1..][j] == s[j + 1];
    }
  }

  // ---------------------------------------------------------------------
  // One chain: pop while the turn is not strictly left, then push
  // ---------------------------------------------------------------------

  /** Every three consecutive points make a strict left turn. */
  ghost predicate LeftTurns(c: seq<Point>)
  {
    forall i :: 0 <= i < |c| - 2 ==> Cross(c[i], c[i + 1], c[i + 2]) > 0
  }

  /** The pops done before pushing p: they only shorten the chain, never below one point. */
  function PopNonLeft(chain: seq<Point>, p: Point): (r: seq<Point>)
    ensures |r| <= |chain| && r == chain[..|r|]
    ensures |chain| >= 1 ==> |r| >= 1
    ensures |r| < 2 || Cross(r[|r| - 2], r[|r| - 1], p) > 0
    decreases |chain|
  {
    if |chain| >= 2 && Cross(chain[|chain| - 2], chain[|chain| - 1], p) <= 0
    then PopNonLeft(chain[..|chain| - 1], p)
    else chain
  }

  /** The chain after scanning pts in order, starting from an empty chain. */
  function Chain(pts: seq<Point>): (r: seq<Point>)
    decreases |pts|
  {
    if pts == [] then []
    else PopNonLeft(Chain(pts[..|pts| - 1]), pts[|pts| - 1]) + [pts[|pts| - 1]]
  }

  /**
   * The snapshot `[...lower, ...upper]` taken while `chain` is the lower chain
   * (isLower) or the upper chain, and `other` is the other one.
   */
  function Snap(isLower: bool, chain: seq<Point>, other: seq<Point>): seq<Point>
  {
    if isLower then chain + other else other + chain
  }

  /** The snapshots emitted by the pops done on chain before pushing p. */
  function PopLog(isLower: bool, other: seq<Point>, chain: seq<Point>, p: Point): (r: seq<seq<Point>>)
    ensures |r| == |chain| - |PopNonLeft(chain, p)|
    decreases |chain|
  {
    if |chain| >= 2 && Cross(chain[|chain| - 2], chain[|chain| - 1], p) <= 0
    then [Snap(isLower, chain[..|chain| - 1], other)] + PopLog(isLower, other, chain[..|chain| - 1], p)
    else []
  }

  /** The snapshots emitted while scanning pts: one per pop, one per push. */
  function ChainLog(isLower: bool, other: seq<Point>, pts: seq<Point>): (r: seq<seq<Point>>)
    decreases |pts|
  {
    if pts == [] then []
    else
      var init := pts[..|pts| - 1];
      ChainLog(isLower, other, init) + PopLog(isLower, other, Chain(init), pts[|pts| - 1])
        + [Snap(isLower, Chain(pts), other)]
  }

  /** `array.pop()`: drops the last element, and does nothing to an empty array. */
  function DropLast(s: seq<Point>): seq<Point>
  {
    if s == [] then [] else s[..|s| - 1]
  }

  function Lower(points: seq<Point>): seq<Point>
  {
    Chain(SortPoints(points))
  }

  function Upper(points: seq<Point>): seq<Point>
  {
    Chain(Reverse(SortPoints(points)))
  }

  /** The final hull: lower chain and upper chain, each without its last point. */
  function FinalHull(points: seq<Point>): seq<Point>
  {
    DropLast(Lower(points)) + DropLast(Upper(points))
  }

  /** The whole replay log: the lower scan, the upper scan (after the finished lower chain), the final hull. */
  function HullSteps(points: seq<Point>): seq<seq<Point>>
  {
    var sorted := SortPoints(points);
    ChainLog(true, [], sorted) + ChainLog(false, Lower(points), Reverse(sorted)) + [FinalHull(points)]
  }

  /** One more scanned point: the chain and the log grow as the loop body makes them grow. */
  lemma ChainExtend(isLower: bool, other: seq<Point>, pts: seq<Point>)
    requires pts != []
    ensures Chain(pts) == PopNonLeft(Chain(pts[..|pts| - 1]), pts[|pts| - 1]) + [pts[|pts| - 1]]
    ensures ChainLog(isLower, other, pts)
         == ChainLog(isLower, other, pts[..|pts| - 1]) + PopLog(isLower, other, Chain(pts[..|pts| - 1]), pts[|pts| - 1])
            + [Snap(isLower, Chain(pts), other)]
  {
  }

  /** One pop: the pop log starts with the snapshot taken after it. */
  lemma PopOne(isLower: bool, other: seq<Point>, chain: seq<Point>, p: Point)
    requires |chain| >= 2 && Cross(chain[|chain| - 2], chain[|chain| - 1], p) <= 0
    ensures PopNonLeft(chain, p) == PopNonLeft(chain[..|chain| - 1], p)
    ensures PopLog(isLower, other, chain, p)
         == [Snap(isLower, chain[..|chain| - 1], other)] + PopLog(isLower, other, chain[..|chain| - 1], p)
  {
  }

  /** No more pops: the chain is what PopNonLeft leaves. */
  lemma PopDone(isLower: bool, other: seq<Point>, chain: seq<Point>, p: Point)
    requires !(|chain| >= 2 && Cross(chain[|chain| - 2], chain[|chain| - 1], p) <= 0)
    ensures PopNonLeft(chain, p) == chain && PopLog(isLower, other, chain, p) == []
  {
  }

  lemma ReverseSuffix(s: seq<Point>, i: nat)
    requires i < |s|
    ensures Reverse(s[i..]) == Reverse(s[i + 1..]) + [s[i]]
  {
    assert s[i..][1..] == s[i + 1..];
  }

  /*
   * Three regroupings of the log, stated apart so that the scan loops' own
   * proofs need not reason about sequence concatenation.
   */

  lemma AppendNil(s: seq<seq<Point>>)
    ensures s + [] == s
  {
  }

  lemma PushAssoc(a: seq<seq<Point>>, x: seq<Point>, r: seq<seq<Point>>)
    ensures a + [x] + r == a + ([x] + r)
  {
  }

  lemma LogAssoc(a: seq<seq<Point>>, b: seq<seq<Point>>, c: seq<seq<Point>>, d: seq<seq<Point>>)
    ensures a + b + c + d == a + (b + c + d)
  {
  }

  // ---------------------------------------------------------------------
  // What the scan guarantees
  // ---------------------------------------------------------------------

  /** A chain built from pts: it starts at pts[0], turns strictly left throughout and uses only points of pts. */
  ghost predicate ChainOf(c: seq<Point>, pts: seq<Point>)
  {
    && |c| >= 1 && |pts| >= 1 && c[0] == pts[0]
    && LeftTurns(c)
    && forall q :: q in c ==> q in pts
  }

  /** Pushing p after the pops keeps every turn strictly left. */
  lemma PushKeepsLeftTurns(chain: seq<Point>, p: Point)
    requires LeftTurns(chain)
    ensures LeftTurns(PopNonLeft(chain, p) + [p])
  {
    var r := PopNonLeft(chain, p);
    assert r == chain[..|r|];
    var c := r + [p];
    forall i | 0 <= i < |c| - 2
      ensures Cross(c[i], c[i + 1], c[i + 2]) > 0
    {
      if i + 2 < |r| {
        assert c[i] == chain[i] && c[i + 1] == chain[i + 1] && c[i + 2] == chain[i + 2];
      } else {
        assert c[i] == r[|r| - 2] && c[i + 1] == r[|r| - 1] && c[i + 2] == p;
      }
    }
  }

  /**
   * The scanned chain starts with the first point, ends with the last one,
   * turns strictly left at every point and holds only scanned points: the
   * first point is never popped, since a pop needs two points on the chain.
   */
  lemma {:induction false} ChainShape(pts: seq<Point>)
    ensures pts == [] ==> Chain(pts) == []
    ensures pts != [] ==> ChainOf(Chain(pts), pts) && Chain(pts)[|Chain(pts)| - 1] == pts[|pts| - 1]
    decreases |pts|
  {
    if pts != [] {
      var init := pts[..|pts| - 1];
      var p := pts[|pts| - 1];
      ChainShape(init);
      var before := Chain(init);
      var kept := PopNonLeft(before, p);
      if init != [] {
        PushKeepsLeftTurns(before, p);
        assert kept[0] == before[0] == init[0] == pts[0];
      } else {
        assert kept == [];
      }
      forall q | q in kept + [p] ensures q in pts {
        if q in kept {
          assert q in before;
          assert q in init;
        }
      }
    }
  }

  /** Each scanned point is pushed once and popped at most once: the log has a snapshot per push and per pop. */
  lemma {:induction false} ChainLogLength(isLower: bool, other: seq<Point>, pts: seq<Point>)
    ensures |ChainLog(isLower, other, pts)| == |pts| + (|pts| - |Chain(pts)|)
    decreases |pts|
  {
    if pts != [] {
      ChainLogLength(isLower, other, pts[..|pts| - 1]);
    }
  }

  /** Where a snapshot holds a chain built from pts, and where it holds the other chain. */
  ghost predicate SnapOf(isLower: bool, snap: seq<Point>, other: seq<Point>, pts: seq<Point>)
  {
    && |snap| >= |other|
    && (isLower ==> snap[|snap| - |other|..] == other && ChainOf(snap[..|snap| - |other|], pts))
    && (!isLower ==> snap[..|other|] == other && ChainOf(snap[|other|..], pts))
  }

  /** Every snapshot of a log is of that shape. */
  ghost predicate AllSnapOf(isLower: bool, log: seq<seq<Point>>, other: seq<Point>, pts: seq<Point>)
  {
    forall k :: 0 <= k < |log| ==> SnapOf(isLower, log[k], other, pts)
  }

  lemma AllSnapOfConcat(isLower: bool, a: seq<seq<Point>>, b: seq<seq<Point>>, other: seq<Point>, pts: seq<Point>)
    requires AllSnapOf(isLower, a, other, pts) && AllSnapOf(isLower, b, other, pts)
    ensures AllSnapOf(isLower, a + b, other, pts)
  {
    forall k | 0 <= k < |a + b| ensures SnapOf(isLower, (a + b)[k], other, pts) {
      if k < |a| {
        assert (a + b)[k] == a[k];
      } else {
        assert (a + b)[k] == b[k - |a|];
      }
    }
  }

  lemma SnapOfChain(isLower: bool, c: seq<Point>, other: seq<Point>, pts: seq<Point>)
    requires ChainOf(c, pts)
    ensures SnapOf(isLower, Snap(isLower, c, other), other, pts)
  {
    var snap := Snap(isLower, c, other);
    if isLower {
      assert snap[..|snap| - |other|] == c;
      assert snap[|snap| - |other|..] == other;
    } else {
      assert snap[|other|..] == c;
      assert snap[..|other|] == other;
    }
  }

  /** Every pop snapshot holds a non-empty prefix of the chain being popped. */
  lemma {:induction false} PopLogSnapshots(isLower: bool, other: seq<Point>, chain: seq<Point>, p: Point, pts: seq<Point>)
    requires ChainOf(chain, pts)
    ensures AllSnapOf(isLower, PopLog(isLower, other, chain, p), other, pts)
    decreases |chain|
  {
    if |chain| >= 2 && Cross(chain[|chain| - 2], chain[|chain| - 1], p) <= 0 {
      var c := chain[..|chain| - 1];
      assert ChainOf(c, pts) by {
        assert LeftTurns(c) by {
          forall i | 0 <= i < |c| - 2 ensures Cross(c[i], c[i + 1], c[i + 2]) > 0 {
            assert c[i] == chain[i] && c[i + 1] == chain[i + 1] && c[i + 2] == chain[i + 2];
          }
        }
        forall q | q in c ensures q in pts {
          assert q in chain;
        }
      }
      SnapOfChain(isLower, c, other, pts);
      PopLogSnapshots(isLower, other, c, p, pts);
      AllSnapOfConcat(isLower, [Snap(isLower, c, other)], PopLog(isLower, other, c, p), other, pts);
    }
  }

  /** A chain built from a prefix of pts is also a chain built from pts. */
  lemma SnapOfWider(isLower: bool, snap: seq<Point>, other: seq<Point>, init: seq<Point>, pts: seq<Point>)
    requires init != [] && |init| <= |pts| && init == pts[..|init|]
    requires SnapOf(isLower, snap, other, init)
    ensures SnapOf(isLower, snap, other, pts)
  {
    var c := if isLower then snap[..|snap| - |other|] else snap[|other|..];
    assert ChainOf(c, init);
    assert c[0] == init[0] == pts[0];
    forall q | q in c ensures q in pts {
      assert q in init;
    }
  }

  lemma AllSnapOfWider(isLower: bool, log: seq<seq<Point>>, other: seq<Point>, init: seq<Point>, pts: seq<Point>)
    requires init != [] && |init| <= |pts| && init == pts[..|init|]
    requires AllSnapOf(isLower, log, other, init)
    ensures AllSnapOf(isLower, log, other, pts)
  {
    forall k | 0 <= k < |log| ensures SnapOf(isLower, log[k], other, pts) {
      SnapOfWider(isLower, log[k], other, init, pts);
    }
  }

  /** The snapshot after pushing the last scanned point. */
  lemma PushSnapshot(isLower: bool, other: seq<Point>, pts: seq<Point>)
    requires pts != []
    ensures AllSnapOf(isLower, [Snap(isLower, Chain(pts), other)], other, pts)
  {
    ChainShape(pts);
    SnapOfChain(isLower, Chain(pts), other, pts);
  }

  /** The snapshots taken while popping before the last scanned point is pushed. */
  lemma PopSnapshots(isLower: bool, other: seq<Point>, pts: seq<Point>)
    requires |pts| >= 2
    ensures AllSnapOf(isLower, PopLog(isLower, other, Chain(pts[..|pts| - 1]), pts[|pts| - 1]), other, pts)
  {
    var init := pts[..|pts| - 1];
    ChainShape(init);
    assert ChainOf(Chain(init), pts) by {
      forall q | q in Chain(init) ensures q in pts {
        assert q in init;
      }
    }
    PopLogSnapshots(isLower, other, Chain(init), pts[|pts| - 1], pts);
  }

  /** Every snapshot of a scan holds a strict-left-turn chain that starts at the first scanned point. */
  lemma {:induction false} ChainLogSnapshots(isLower: bool, other: seq<Point>, pts: seq<Point>)
    ensures AllSnapOf(isLower, ChainLog(isLower, other, pts), other, pts)
    decreases |pts|
  {
    if pts != [] {
      var init := pts[..|pts| - 1];
      var first := ChainLog(isLower, other, init);
      var pops := PopLog(isLower, other, Chain(init), pts[|pts| - 1]);
      var last := [Snap(isLower, Chain(pts), other)];
      PushSnapshot(isLower, other, pts);
      if init != [] {
        ChainLogSnapshots(isLower, other, init);
        AllSnapOfWider(isLower, first, other, init, pts);
        PopSnapshots(isLower, other, pts);
      } else {
        assert first == [] && pops == [];
      }
      AllSnapOfConcat(isLower, first, pops, other, pts);
      AllSnapOfConcat(isLower, first + pops, last, other, pts);
    }
  }

  /**
   * The log has one snapshot per push (2n of them), one per pop, and the
   * final hull.
   */
  lemma StepCount(points: seq<Point>)
    ensures var n := |points|;
      |HullSteps(points)| == 2 * n + ((n - |Lower(points)|) + (n - |Upper(points)|)) + 1
  {
    var sorted := SortPoints(points);
    SortPointsCorrect(points);
    ReverseIndex(sorted);
    ChainLogLength(true, [], sorted);
    ChainLogLength(false, Lower(points), Reverse(sorted));
  }

  /** The lower chain starts at the leftmost-lowest point, the upper chain at the rightmost-highest one. */
  lemma ChainEnds(points: seq<Point>)
    requires points != []
    ensures var sorted := SortPoints(points);
      && |sorted| == |points|
      && |Lower(points)| >= 1 && Lower(points)[0] == sorted[0]
      && |Upper(points)| >= 1 && Upper(points)[0] == sorted[|sorted| - 1]
      && LeftTurns(Lower(points)) && LeftTurns(Upper(points))
  {
    var sorted := SortPoints(points);
    SortPointsCorrect(points);
    ReverseIndex(sorted);
    ChainShape(sorted);
    ChainShape(Reverse(sorted));
  }

  /** During the lower scan the upper chain is empty: each snapshot is the lower chain alone. */
  lemma LowerPhaseSnapshots(points: seq<Point>)
    ensures var sorted := SortPoints(points);
      forall k :: 0 <= k < |ChainLog(true, [], sorted)| ==> HullSteps(points)[k] == ChainLog(true, [], sorted)[k] && ChainOf(HullSteps(points)[k], sorted)
  {
    var sorted := SortPoints(points);
    var log := ChainLog(true, [], sorted);
    var b := ChainLog(false, Lower(points), Reverse(sorted));
    var steps := HullSteps(points);
    assert steps == log + b + [FinalHull(points)];
    ChainLogSnapshots(true, [], sorted);
    forall k | 0 <= k < |log| ensures steps[k] == log[k] && ChainOf(log[k], sorted) {
      IndexFront(log, b, FinalHull(points), k);
      assert SnapOf(true, log[k], [], sorted);
      SnapOfAlone(log[k], sorted);
    }
  }

  /** With nothing from the other scan, a lower-scan snapshot is a chain of its own. */
  lemma SnapOfAlone(snap: seq<Point>, pts: seq<Point>)
    requires SnapOf(true, snap, [], pts)
    ensures ChainOf(snap, pts)
  {
    assert snap[..|snap|] == snap;
  }

  lemma IndexFront(a: seq<seq<Point>>, b: seq<seq<Point>>, f: seq<Point>, k: int)
    requires 0 <= k < |a|
    ensures (a + b + [f])[k] == a[k]
  {
  }

  lemma IndexMiddle(a: seq<seq<Point>>, b: seq<seq<Point>>, f: seq<Point>, k: int)
    requires |a| <= k < |a| + |b|
    ensures (a + b + [f])[k] == b[k - |a|]
  {
  }

  /** During the upper scan each snapshot is the finished lower chain followed by the upper chain. */
  lemma UpperPhaseSnapshots(points: seq<Point>)
    ensures var sorted := SortPoints(points);
      var first := |ChainLog(true, [], sorted)|;
      forall k :: first <= k < |HullSteps(points)| - 1 ==>
        && |Lower(points)| <= |HullSteps(points)[k]|
        && HullSteps(points)[k][..|Lower(points)|] == Lower(points)
        && ChainOf(HullSteps(points)[k][|Lower(points)|..], Reverse(sorted))
  {
    var sorted := SortPoints(points);
    var lower := Lower(points);
    var a := ChainLog(true, [], sorted);
    var b := ChainLog(false, lower, Reverse(sorted));
    var steps := HullSteps(points);
    assert steps == a + b + [FinalHull(points)];
    ChainLogSnapshots(false, lower, Reverse(sorted));
    forall k | |a| <= k < |steps| - 1
      ensures |lower| <= |steps[k]| && steps[k][..|lower|] == lower
      ensures ChainOf(steps[k][|lower|..], Reverse(sorted))
    {
      IndexMiddle(a, b, FinalHull(points), k);
      assert SnapOf(false, b[k - |a|], lower, Reverse(sorted));
    }
  }

  /** The last snapshot is the final hull, and it is empty for fewer than two points. */
  lemma FinalSnapshot(points: seq<Point>)
    ensures |HullSteps(points)| >= 1
    ensures HullSteps(points)[|HullSteps(points)| - 1] == FinalHull(points)
    ensures |points| <= 1 ==> FinalHull(points) == []
    ensures |points| >= 1 ==> |FinalHull(points)| == |Lower(points)| + |Upper(points)| - 2
  {
    var sorted := SortPoints(points);
    SortPointsCorrect(points);
    ReverseIndex(sorted);
    if |points| == 1 {
      assert Chain(sorted) == PopNonLeft(Chain([]), sorted[0]) + [sorted[0]];
      assert Reverse(sorted) == sorted;
    }
  }

  lemma ChainPoints(pts: seq<Point>, q: Point)
    requires q in Chain(pts)
    ensures q in pts
  {
    ChainShape(pts);
  }

  lemma ReversePoints(s: seq<Point>, q: Point)
    requires q in Reverse(s)
    ensures q in s
  {
    ReverseIndex(s);
    var i :| 0 <= i < |s| && Reverse(s)[i] == q;
    assert s[|s| - 1 - i] == q;
  }

  /** The final hull holds only input points. */
  lemma FinalHullPoints(points: seq<Point>)
    ensures forall q :: q in FinalHull(points) ==> q in points
  {
    var sorted := SortPoints(points);
    SortPointsCorrect(points);
    forall q | q in FinalHull(points) ensures q in points {
      if q in DropLast(Lower(points)) {
        assert q in Lower(points);
        ChainPoints(sorted, q);
      } else {
        assert q in Upper(points);
        ChainPoints(Reverse(sorted), q);
        ReversePoints(sorted, q);
      }
      assert q in multiset(sorted);
    }
  }

  /** Scanning one, two and three points. */
  lemma ChainUpToThree(a: Point, b: Point, c: Point)
    ensures Chain([a]) == [a]
    ensures Chain([a, b]) == [a, b]
    ensures Chain([a, b, c]) == PopNonLeft([a, b], c) + [c]
  {
    assert [a][..0] == [];
    assert [a, b][..1] == [a];
    assert [a, b, c][..2] == [a, b];
  }

  lemma SortedTriple(a: Point, b: Point, c: Point)
    requires LessEq(a, b) && LessEq(b, c)
    ensures SortPoints([a, b, c]) == [a, b, c]
  {
    SortPointsCorrect([a, b, c]);
    assert Sorted([a, b, c]);
    SortedUnique(SortPoints([a, b, c]), [a, b, c]);
  }

  lemma ReverseTriple(a: Point, b: Point, c: Point)
    ensures Reverse([a, b, c]) == [c, b, a]
  {
    ReverseIndex([a, b, c]);
  }

  /** Three collinear points in sorted order: the middle one is popped, the hull keeps the two ends. */
  lemma CollinearTriple(a: Point, b: Point, c: Point)
    requires LessEq(a, b) && LessEq(b, c) && a != b && b != c
    requires Cross(a, b, c) == 0
    ensures FinalHull([a, b, c]) == [a, c]
  {
    var pts := [a, b, c];
    SortedTriple(a, b, c);
    ReverseTriple(a, b, c);
    CollinearChain(a, b, c);
    assert Cross(c, b, a) == -Cross(a, b, c);
    CollinearChain(c, b, a);
    assert Lower(pts) == [a, c];
    assert Upper(pts) == [c, a];
  }

  /** Scanning u, v, w where u, v, w is not a left turn: v is popped. */
  lemma CollinearChain(u: Point, v: Point, w: Point)
    requires Cross(u, v, w) <= 0
    ensures Chain([u, v, w]) == [u, w]
  {
    ChainUpToThree(u, v, w);
    PopThenPush(u, v, w);
  }

  /** The points (0, 0), (1, 1), (2, 2) give the hull (0, 0), (2, 2). */
  lemma CollinearExample()
    ensures FinalHull([Point(0, 0), Point(1, 1), Point(2, 2)]) == [Point(0, 0), Point(2, 2)]
  {
    CollinearTriple(Point(0, 0), Point(1, 1), Point(2, 2));
  }

  /**
   * The corners of a square plus its centre: sorted (0, 0), (0, 4), (2, 2),
   * (4, 0), (4, 4); each chain pops twice, so the log holds 15 snapshots and
   * the centre is dropped.
   */
  lemma SquareWithCentre(a: Point, b: Point, c: Point, d: Point, e: Point)
    requires a == Point(0, 0) && b == Point(4, 0) && c == Point(4, 4) && d == Point(0, 4) && e == Point(2, 2)
    ensures FinalHull([a, b, c, d, e]) == [a, b, c, d]
    ensures |HullSteps([a, b, c, d, e])| == 15
  {
    var pts := [a, b, c, d, e];
    SquareChains(a, b, c, d, e);
    StepCount(pts);
    assert DropLast([a, b, c]) == [a, b] && DropLast([c, d, a]) == [c, d];
  }

  /** Each chain of the square with its centre pops twice and keeps three corners. */
  lemma SquareChains(a: Point, b: Point, c: Point, d: Point, e: Point)
    requires a == Point(0, 0) && b == Point(4, 0) && c == Point(4, 4) && d == Point(0, 4) && e == Point(2, 2)
    ensures Lower([a, b, c, d, e]) == [a, b, c]
    ensures Upper([a, b, c, d, e]) == [c, d, a]
  {
    SquareSorted(a, b, c, d, e);
    ReverseFive(a, d, e, b, c);
    SquareTurns(a, b, c, d, e);
    TwoPopsChain(a, d, e, b, c);
    TwoPopsChain(c, b, e, d, a);
  }

  /** The turns the two scans meet on the square with its centre. */
  lemma SquareTurns(a: Point, b: Point, c: Point, d: Point, e: Point)
    requires a == Point(0, 0) && b == Point(4, 0) && c == Point(4, 4) && d == Point(0, 4) && e == Point(2, 2)
    ensures Cross(a, d, e) <= 0 && Cross(a, e, b) <= 0 && Cross(a, b, c) > 0
    ensures Cross(c, b, e) <= 0 && Cross(c, e, d) <= 0 && Cross(c, d, a) > 0
  {
  }

  /** A push after exactly one pop: the chain [u, v] loses v because u, v, w is not a left turn. */
  lemma PopThenPush(u: Point, v: Point, w: Point)
    requires Cross(u, v, w) <= 0
    ensures PopNonLeft([u, v], w) + [w] == [u, w]
  {
    assert [u, v][..1] == [u];
    PopOne(true, [], [u, v], w);
    PopDone(true, [], [u], w);
  }

  /** A push with no pop: u, v, w is a left turn. */
  lemma PushOnly(u: Point, v: Point, w: Point)
    requires Cross(u, v, w) > 0
    ensures PopNonLeft([u, v], w) + [w] == [u, v, w]
  {
    PopDone(true, [], [u, v], w);
  }

  /** Scanning one more point p after s. */
  lemma ChainSnoc(s: seq<Point>, p: Point)
    ensures Chain(s + [p]) == PopNonLeft(Chain(s), p) + [p]
  {
    assert (s + [p])[..|s|] == s;
  }

  /** Five points whose second and third are popped in turn: the chain keeps the first, fourth and fifth. */
  lemma TwoPopsChain(p0: Point, p1: Point, p2: Point, p3: Point, p4: Point)
    requires Cross(p0, p1, p2) <= 0 && Cross(p0, p2, p3) <= 0 && Cross(p0, p3, p4) > 0
    ensures Chain([p0, p1, p2, p3, p4]) == [p0, p3, p4]
  {
    ChainSnoc([], p0);
    assert [] + [p0] == [p0];
    PopDone(true, [], [p0], p1);
    ChainSnoc([p0], p1);
    assert [p0] + [p1] == [p0, p1];
    PopThenPush(p0, p1, p2);
    ChainSnoc([p0, p1], p2);
    assert [p0, p1] + [p2] == [p0, p1, p2];
    PopThenPush(p0, p2, p3);
    ChainSnoc([p0, p1, p2], p3);
    assert [p0, p1, p2] + [p3] == [p0, p1, p2, p3];
    PushOnly(p0, p3, p4);
    ChainSnoc([p0, p1, p2, p3], p4);
    assert [p0, p1, p2, p3] + [p4] == [p0, p1, p2, p3, p4];
  }

  /** Whatever order the points come in, a sorted permutation of them is the sorted copy. */
  lemma SortPointsUnique(points: seq<Point>, sorted: seq<Point>)
    requires Sorted(sorted) && multiset(sorted) == multiset(points)
    ensures SortPoints(points) == sorted
  {
    SortPointsCorrect(points);
    SortedUnique(SortPoints(points), sorted);
  }

  lemma SquareSorted(a: Point, b: Point, c: Point, d: Point, e: Point)
    requires a == Point(0, 0) && b == Point(4, 0) && c == Point(4, 4) && d == Point(0, 4) && e == Point(2, 2)
    ensures SortPoints([a, b, c, d, e]) == [a, d, e, b, c]
  {
    SortedFive(a, d, e, b, c);
    SquarePermutation(a, b, c, d, e);
    SortPointsUnique([a, b, c, d, e], [a, d, e, b, c]);
  }

  lemma SortedFive(p0: Point, p1: Point, p2: Point, p3: Point, p4: Point)
    requires LessEq(p0, p1) && LessEq(p1, p2) && LessEq(p2, p3) && LessEq(p3, p4)
    ensures Sorted([p0, p1, p2, p3, p4])
  {
  }

  lemma SquarePermutation(a: Point, b: Point, c: Point, d: Point, e: Point)
    requires a == Point(0, 0) && b == Point(4, 0) && c == Point(4, 4) && d == Point(0, 4) && e == Point(2, 2)
    ensures multiset([a, d, e, b, c]) == multiset([a, b, c, d, e])
  {
  }

  lemma ReverseFive(p0: Point, p1: Point, p2: Point, p3: Point, p4: Point)
    ensures Reverse([p0, p1, p2, p3, p4]) == [p4, p3, p2, p1, p0]
  {
    ReverseIndex([p0, p1, p2, p3, p4]);
  }

  lemma SquareExample()
    ensures FinalHull([Point(0, 0), Point(4, 0), Point(4, 4), Point(0, 4), Point(2, 2)])
         == [Point(0, 0), Point(4, 0), Point(4, 4), Point(0, 4)]
    ensures |HullSteps([Point(0, 0), Point(4, 0), Point(4, 4), Point(0, 4), Point(2, 2)])| == 15
  {
    SquareWithCentre(Point(0, 0), Point(4, 0), Point(4, 4), Point(0, 4), Point(2, 2));
  }

  // ---------------------------------------------------------------------
  // The loop the source runs
  // ---------------------------------------------------------------------

  /**
   * The first for-loop: scan the sorted points left to right, building the
   * lower chain and logging `[...lower, ...upper]` (upper still empty) after
   * every pop and every push.
   */
  method ScanLower(sorted: seq<Point>, upper: seq<Point>) returns (lower: seq<Point>, steps: seq<seq<Point>>)
    requires upper == []
    ensures lower == Chain(sorted)
    ensures steps == ChainLog(true, upper, sorted)
  {
    lower := [];
    steps := [];
    for k := 0 to |sorted|
      invariant lower == Chain(sorted[..k])
      invariant steps == ChainLog(true, upper, sorted[..k])
    {
      var p := sorted[k];
      ghost var before, logged := lower, steps;
      while |lower| >= 2 && Cross(lower[|lower| - 2], lower[|lower| - 1], p) <= 0
        invariant PopNonLeft(lower, p) == PopNonLeft(before, p)
        invariant steps + PopLog(true, upper, lower, p) == logged + PopLog(true, upper, before, p)
        decreases |lower|
      {
        PopOne(true, upper, lower, p);
        lower := lower[..|lower| - 1];
        PushAssoc(steps, lower + upper, PopLog(true, upper, lower, p));
        steps := steps + [lower + upper];
      }
      PopDone(true, upper, lower, p);
      AppendNil(steps);
      ghost var next := sorted[..k + 1];
      assert next[..k] == sorted[..k];
      ChainExtend(true, upper, next);
      lower := lower + [p];
      steps := steps + [lower + upper];
    }
    assert sorted[..|sorted|] == sorted;
  }

  /**
   * The second for-loop: scan the sorted points right to left, building the
   * upper chain and appending `[...lower, ...upper]` to the log after every
   * pop and every push.
   */
  method ScanUpper(sorted: seq<Point>, lower: seq<Point>, logged: seq<seq<Point>>) returns (upper: seq<Point>, steps: seq<seq<Point>>)
    ensures upper == Chain(Reverse(sorted))
    ensures steps == logged + ChainLog(false, lower, Reverse(sorted))
  {
    upper := [];
    steps := logged;
    var i := |sorted| - 1;
    assert sorted[i + 1..] == [];
    while i >= 0
      invariant -1 <= i < |sorted|
      invariant upper == Chain(Reverse(sorted[i + 1..]))
      invariant steps == logged + ChainLog(false, lower, Reverse(sorted[i + 1..]))
    {
      var p := sorted[i];
      ghost var before, pushed := upper, steps;
      while |upper| >= 2 && Cross(upper[|upper| - 2], upper[|upper| - 1], p) <= 0
        invariant PopNonLeft(upper, p) == PopNonLeft(before, p)
        invariant steps + PopLog(false, lower, upper, p) == pushed + PopLog(false, lower, before, p)
        decreases |upper|
      {
        PopOne(false, lower, upper, p);
        upper := upper[..|upper| - 1];
        PushAssoc(steps, lower + upper, PopLog(false, lower, upper, p));
        steps := steps + [lower + upper];
      }
      PopDone(false, lower, upper, p);
      AppendNil(steps);
      ghost var done := Reverse(sorted[i + 1..]);
      ReverseSuffix(sorted, i);
      ghost var next := Reverse(sorted[i..]);
      assert next[..|next| - 1] == done;
      ChainExtend(false, lower, next);
      upper := upper + [p];
      LogAssoc(logged, ChainLog(false, lower, done), PopLog(false, lower, before, p), [lower + upper]);
      steps := steps + [lower + upper];
      i := i - 1;
    }
    assert sorted[0..] == sorted;
  }

  /**
   * `computeConvexHullSteps`: sort a copy, run both scans, then pop the last
   * point of each chain and log the final hull.
   */
  method ComputeConvexHullSteps(points: seq<Point>) returns (steps: seq<seq<Point>>)
    ensures steps == HullSteps(points)
    ensures steps[|steps| - 1] == FinalHull(points)
  {
    var sorted := SortPoints(points);
    var upper: seq<Point> := [];
    var lower;
    lower, steps := ScanLower(sorted, upper);
    upper, steps := ScanUpper(sorted, lower, steps);
    upper := DropLast(upper);
    lower := DropLast(lower);
    steps := steps + [lower + upper];
  }
}
