/** The topological check of a zone: no two edges that are not neighbours may cross. Coordinates are
    exact reals. */
module PolygonValidator {

  datatype Point = Point(x: real, y: real)

  /** Twice the signed area of p, q, r, as the code computes it: positive for clockwise. */
  function Turn(p: Point, q: Point, r: Point): real {
    (q.y - p.y) * (r.x - q.x) - (q.x - p.x) * (r.y - q.y)
  }

  function Orientation(p: Point, q: Point, r: Point): int {
    var val := Turn(p, q, r);
    if val == 0.0 then 0 else if val > 0.0 then 1 else 2
  }

  predicate DoIntersect(p1: Point, q1: Point, p2: Point, q2: Point) {
    Orientation(p1, q1, p2) != Orientation(p1, q1, q2) && Orientation(p2, q2, p1) != Orientation(p2, q2, q1)
  }

  /** The point of the segment from p to q at t. */
  function Along(p: Point, q: Point, t: real): Point {
    Point(p.x + t * (q.x - p.x), p.y + t * (q.y - p.y))
  }

  ghost predicate MeetAt(p1: Point, q1: Point, p2: Point, q2: Point, t: real, u: real) {
    0.0 <= t <= 1.0 && 0.0 <= u <= 1.0 && Along(p1, q1, t) == Along(p2, q2, u)
  }

  /** The closed segments p1 q1 and p2 q2 have a point in common. */
  ghost predicate SharePoint(p1: Point, q1: Point, p2: Point, q2: Point) {
    exists t, u :: MeetAt(p1, q1, p2, q2, t, u)
  }

  /** Both ends of the second segment lie on the line of the first. */
  predicate IsOnOneLine(p1: Point, q1: Point, p2: Point, q2: Point) {
    && (p2.x - p1.x) * (q1.y - p1.y) == (p2.y - p1.y) * (q1.x - p1.x)
    && (q2.x - p1.x) * (q1.y - p1.y) == (q2.y - p1.y) * (q1.x - p1.x)
  }

  /** The code finds that by turning nowhere. */
  lemma TurnsNowhereOnLine(p: Point, q: Point, r: Point)
    ensures Turn(p, q, r) == 0.0 <==> (r.x - p.x) * (q.y - p.y) == (r.y - p.y) * (q.x - p.x)
  {
    var dx, dy := q.x - p.x, q.y - p.y;
    assert r.x - q.x == (r.x - p.x) - dx && r.y - q.y == (r.y - p.y) - dy;
    assert dy * (r.x - q.x) == dy * (r.x - p.x) - dy * dx;
    assert dx * (r.y - q.y) == dx * (r.y - p.y) - dx * dy;
  }

  // ---------------------------------------------------------- the algebra

  /** Turning is affine in the third point. */
  lemma TurnAlong(p: Point, q: Point, a: Point, b: Point, t: real)
    ensures Turn(p, q, Along(a, b, t)) == Turn(p, q, a) + t * (Turn(p, q, b) - Turn(p, q, a))
  {
    var dx, dy := q.x - p.x, q.y - p.y;
    var c := Along(a, b, t);
    assert c.x - q.x == (a.x - q.x) + t * (b.x - a.x);
    assert c.y - q.y == (a.y - q.y) + t * (b.y - a.y);
    Distributes(dy, a.x - q.x, t, b.x - a.x);
    Distributes(dx, a.y - q.y, t, b.y - a.y);
    assert Turn(p, q, b) - Turn(p, q, a) == dy * (b.x - a.x) - dx * (b.y - a.y);
    assert t * (dy * (b.x - a.x) - dx * (b.y - a.y)) == t * (dy * (b.x - a.x)) - t * (dx * (b.y - a.y));
  }

  lemma Distributes(k: real, a: real, t: real, b: real)
    ensures k * (a + t * b) == k * a + t * (k * b)
  {
  }

  /** The two differences of turns are each the determinant of the two directions. */
  lemma TurnsDiffer(p1: Point, q1: Point, p2: Point, q2: Point)
    ensures Turn(p1, q1, p2) - Turn(p1, q1, q2) == -(Turn(p2, q2, p1) - Turn(p2, q2, q1))
  {
  }

  /** Points of the line of p and q turn nowhere. */
  lemma TurnOnLine(p: Point, q: Point, t: real)
    ensures Turn(p, q, Along(p, q, t)) == 0.0
  {
    TurnAlong(p, q, p, q, t);
    assert Turn(p, q, p) == 0.0 && Turn(p, q, q) == 0.0;
  }

  /** Cramer's rule for the crossing point, with the denominators multiplied out. */
  lemma CrossingX(p1: Point, q1: Point, p2: Point, q2: Point)
    ensures (Turn(p1, q1, p2) - Turn(p1, q1, q2)) * (p1.x - p2.x) ==
      Turn(p2, q2, p1) * (q1.x - p1.x) + Turn(p1, q1, p2) * (q2.x - p2.x)
  {
    var rx, ry, sx, sy, wx, wy := q1.x - p1.x, q1.y - p1.y, q2.x - p2.x, q2.y - p2.y, p2.x - p1.x, p2.y - p1.y;
    InDifferences(p1, q1, p2, q2);
    Cramer(rx, ry, sx, sy, wx, wy);
  }

  lemma CrossingY(p1: Point, q1: Point, p2: Point, q2: Point)
    ensures (Turn(p1, q1, p2) - Turn(p1, q1, q2)) * (p1.y - p2.y) ==
      Turn(p2, q2, p1) * (q1.y - p1.y) + Turn(p1, q1, p2) * (q2.y - p2.y)
  {
    var rx, ry, sx, sy, wx, wy := q1.x - p1.x, q1.y - p1.y, q2.x - p2.x, q2.y - p2.y, p2.x - p1.x, p2.y - p1.y;
    InDifferences(p1, q1, p2, q2);
    Cramer(ry, rx, sy, sx, wy, wx);
  }

  lemma InDifferences(p1: Point, q1: Point, p2: Point, q2: Point)
    ensures var rx, ry, sx, sy, wx, wy := q1.x - p1.x, q1.y - p1.y, q2.x - p2.x, q2.y - p2.y, p2.x - p1.x, p2.y - p1.y;
      && Turn(p1, q1, p2) == ry * wx - rx * wy
      && Turn(p2, q2, p1) == sx * wy - sy * wx
      && Turn(p1, q1, p2) - Turn(p1, q1, q2) == rx * sy - ry * sx
  {
  }

  lemma Cramer(rx: real, ry: real, sx: real, sy: real, wx: real, wy: real)
    ensures (rx * sy - ry * sx) * (0.0 - wx) == (sx * wy - sy * wx) * rx + (ry * wx - rx * wy) * sx
    ensures (ry * sx - rx * sy) * (0.0 - wx) == (sy * wx - sx * wy) * rx + (rx * wy - ry * wx) * sx
  {
  }

  /** Between two ends of one sign every value has that sign. */
  lemma SignIsKeptBetween(a: real, b: real, u: real)
    requires 0.0 <= u <= 1.0
    ensures a > 0.0 && b > 0.0 ==> a + u * (b - a) > 0.0
    ensures a < 0.0 && b < 0.0 ==> a + u * (b - a) < 0.0
  {
    assert a + u * (b - a) == (1.0 - u) * a + u * b;
    if u == 0.0 {
    } else if a > 0.0 && b > 0.0 {
      assert u * b > 0.0 && (1.0 - u) * a >= 0.0;
    } else if a < 0.0 && b < 0.0 {
      assert u * b < 0.0 && (1.0 - u) * a <= 0.0;
    }
  }

  /** Ends of different sign have a zero between them. */
  lemma ZeroBetween(a: real, b: real) returns (u: real)
    requires a != b && !(a > 0.0 && b > 0.0) && !(a < 0.0 && b < 0.0)
    ensures u * (a - b) == a && 0.0 <= u <= 1.0
  {
    u := a / (a - b);
  }

  // ------------------------------------------------------- the exact test

  lemma MeetingIsSeen(p1: Point, q1: Point, p2: Point, q2: Point, t: real, u: real)
    requires MeetAt(p1, q1, p2, q2, t, u) && !IsOnOneLine(p1, q1, p2, q2)
    ensures DoIntersect(p1, q1, p2, q2)
  {
    var d1, d2 := Turn(p1, q1, p2), Turn(p1, q1, q2);
    var d3, d4 := Turn(p2, q2, p1), Turn(p2, q2, q1);
    TurnsNowhereOnLine(p1, q1, p2);
    TurnsNowhereOnLine(p1, q1, q2);
    TurnOnLine(p1, q1, t);
    TurnAlong(p1, q1, p2, q2, u);
    SignIsKeptBetween(d1, d2, u);
    TurnOnLine(p2, q2, u);
    TurnAlong(p2, q2, p1, q1, t);
    TurnsDiffer(p1, q1, p2, q2);
    assert d1 == d2 ==> u * (d2 - d1) == 0.0;
    SignIsKeptBetween(d3, d4, t);
  }

  lemma SeenIsMeeting(p1: Point, q1: Point, p2: Point, q2: Point) returns (t: real, u: real)
    requires DoIntersect(p1, q1, p2, q2)
    ensures MeetAt(p1, q1, p2, q2, t, u)
  {
    var d1, d2 := Turn(p1, q1, p2), Turn(p1, q1, q2);
    var d3, d4 := Turn(p2, q2, p1), Turn(p2, q2, q1);
    u := ZeroBetween(d1, d2);
    t := ZeroBetween(d3, d4);
    TurnsDiffer(p1, q1, p2, q2);
    var det := d1 - d2;
    assert t * det == -d3;
    CrossingX(p1, q1, p2, q2);
    CrossingY(p1, q1, p2, q2);
    SameCoordinate(det, d1, d3, p1.x, q1.x - p1.x, p2.x, q2.x - p2.x, t, u);
    SameCoordinate(det, d1, d3, p1.y, q1.y - p1.y, p2.y, q2.y - p2.y, t, u);
  }

  lemma SameCoordinate(det: real, d1: real, d3: real, p: real, r: real, q: real, s: real, t: real, u: real)
    requires det != 0.0 && u * det == d1 && t * det == -d3 && det * (p - q) == d3 * r + d1 * s
    ensures p + t * r == q + u * s
  {
    assert d3 * r == -(t * det) * r == -det * (t * r);
    assert d1 * s == (u * det) * s == det * (u * s);
    assert det * (p - q) == det * (u * s - t * r);
    Cancel(det, p - q, u * s - t * r);
  }

  lemma Cancel(det: real, a: real, b: real)
    requires det != 0.0 && det * a == det * b
    ensures a == b
  {
    assert det * (a - b) == 0.0;
  }

  /** The test is exact: it says yes exactly when the closed segments share a point and the second does
      not lie on the line of the first. */
  lemma IntersectionTestIsExact(p1: Point, q1: Point, p2: Point, q2: Point)
    ensures DoIntersect(p1, q1, p2, q2) <==> SharePoint(p1, q1, p2, q2) && !IsOnOneLine(p1, q1, p2, q2)
  {
    TurnsNowhereOnLine(p1, q1, p2);
    TurnsNowhereOnLine(p1, q1, q2);
    if DoIntersect(p1, q1, p2, q2) {
      var t, u := SeenIsMeeting(p1, q1, p2, q2);
    }
    if t, u :| MeetAt(p1, q1, p2, q2, t, u) {
      if !IsOnOneLine(p1, q1, p2, q2) {
        MeetingIsSeen(p1, q1, p2, q2, t, u);
      }
    }
  }

  /** On one line the test is blind: it does not see that a segment overlaps itself. */
  lemma OverlapOnOneLineIsNotSeen(p: Point, q: Point)
    ensures SharePoint(p, q, p, q) && !DoIntersect(p, q, p, q)
  {
    assert MeetAt(p, q, p, q, 0.0, 0.0);
    TurnOnLine(p, q, 0.0);
    TurnOnLine(p, q, 1.0);
    assert Along(p, q, 0.0) == p && Along(p, q, 1.0) == q;
  }

  // ------------------------------------------------------------- symmetry

  lemma TurnBack(p: Point, q: Point, r: Point)
    ensures Turn(q, p, r) == -Turn(p, q, r)
  {
  }

  /** Which segment comes first does not matter, nor from which end it is drawn. */
  lemma IntersectionIsSymmetric(p1: Point, q1: Point, p2: Point, q2: Point)
    ensures DoIntersect(p2, q2, p1, q1) == DoIntersect(p1, q1, p2, q2)
    ensures DoIntersect(q1, p1, p2, q2) == DoIntersect(p1, q1, p2, q2)
  {
    TurnBack(p1, q1, p2);
    TurnBack(p1, q1, q2);
  }

  /** The index after i, around. */
  function After(i: nat, n: nat): (r: nat)
    requires i < n
    ensures r < n
  {
    if i + 1 == n then 0 else i + 1
  }

  lemma AfterIsModulo(i: nat, n: nat)
    requires i < n
    ensures After(i, n) == (i + 1) % n
  {
  }

  /** Edge i of the closed polygon meets edge j. */
  predicate EdgesCross(points: seq<Point>, i: nat, j: nat)
    requires i < |points| && j < |points|
  {
    DoIntersect(points[i], points[After(i, |points|)], points[j], points[After(j, |points|)])
  }

  /** The same edge, or edges with a vertex in common. */
  predicate AreNeighbours(n: nat, i: nat, j: nat)
    requires i < n && j < n
  {
    i == j || After(i, n) == j || After(j, n) == i
  }

  ghost predicate IsValid(points: seq<Point>) {
    forall i, j :: 0 <= i < |points| && 0 <= j < |points| && !AreNeighbours(|points|, i, j) ==>
      !EdgesCross(points, i, j)
  }

  /** The pairs of edges that the two loops look at. */
  predicate IsScanned(n: nat, i: nat, j: nat) {
    i + 2 <= j < n && !(i == 0 && j == n - 1)
  }

  lemma ScannedAreStrangers(n: nat, i: nat, j: nat)
    requires IsScanned(n, i, j)
    ensures !AreNeighbours(n, i, j)
  {
  }

  lemma StrangersAreScanned(n: nat, i: nat, j: nat)
    requires i < n && j < n && !AreNeighbours(n, i, j)
    ensures if i < j then IsScanned(n, i, j) else IsScanned(n, j, i)
  {
  }

  method IsValidPolygon(points: seq<Point>) returns (valid: bool)
    ensures valid <==> IsValid(points)
  {
    var n := |points|;
    if n < 4 {
      return true;
    }
    for i := 0 to n
      invariant forall a, b :: 0 <= a < i && IsScanned(n, a, b) ==> !EdgesCross(points, a, b)
    {
      AfterIsModulo(i, n);
      var p1, q1 := points[i], points[(i + 1) % n];
      var j := i + 2;
      while j < n
        invariant i + 2 <= j
        invariant forall b :: 0 <= b < j && IsScanned(n, i, b) ==> !EdgesCross(points, i, b)
      {
        if !(i == 0 && j == n - 1) {
          AfterIsModulo(j, n);
          var p2, q2 := points[j], points[(j + 1) % n];
          if DoIntersect(p1, q1, p2, q2) {
            ScannedAreStrangers(n, i, j);
            assert EdgesCross(points, i, j);
            return false;
          }
        }
        j := j + 1;
      }
    }
    ScannedPairsSuffice(points);
    return true;
  }

  lemma ScannedPairsSuffice(points: seq<Point>)
    requires forall a, b :: 0 <= a < |points| && IsScanned(|points|, a, b) ==> !EdgesCross(points, a, b)
    ensures IsValid(points)
  {
    var n := |points|;
    forall i, j | 0 <= i < n && 0 <= j < n && !AreNeighbours(n, i, j) ensures !EdgesCross(points, i, j) {
      StrangersAreScanned(n, i, j);
      IntersectionIsSymmetric(points[j], points[After(j, n)], points[i], points[After(i, n)]);
    }
  }

  /** Edge i of one polygon is edge j of the other, from either end. */
  ghost predicate IsSameEdge(points: seq<Point>, i: nat, other: seq<Point>, j: nat)
    requires i < |points| && j < |other|
  {
    var p, q, r, s := points[i], points[After(i, |points|)], other[j], other[After(j, |other|)];
    (p == r && q == s) || (p == s && q == r)
  }

  lemma SameEdgesCrossAlike(points: seq<Point>, i: nat, j: nat, other: seq<Point>, i': nat, j': nat)
    requires i < |points| && j < |points| && i' < |other| && j' < |other|
    requires IsSameEdge(points, i, other, i') && IsSameEdge(points, j, other, j')
    ensures EdgesCross(points, i, j) == EdgesCross(other, i', j')
  {
    var p1, q1, p2, q2 := points[i], points[After(i, |points|)], points[j], points[After(j, |points|)];
    IntersectionIsSymmetric(p1, q1, p2, q2);
    IntersectionIsSymmetric(p2, q2, p1, q1);
    IntersectionIsSymmetric(q1, p1, p2, q2);
    IntersectionIsSymmetric(p2, q2, q1, p1);
    IntersectionIsSymmetric(q2, p2, p1, q1);
    IntersectionIsSymmetric(q2, p2, q1, p1);
  }

  function Rotated(points: seq<Point>, k: nat): (r: seq<Point>)
    requires k <= |points|
    ensures |r| == |points|
    ensures forall i :: 0 <= i < |r| ==> r[i] == points[if i + k < |points| then i + k else i + k - |points|]
  {
    points[k..] + points[..k]
  }

  function Reversed(points: seq<Point>): (r: seq<Point>)
    ensures |r| == |points|
    ensures forall i :: 0 <= i < |r| ==> r[i] == points[|points| - 1 - i]
  {
    seq(|points|, i requires 0 <= i < |points| => points[|points| - 1 - i])
  }

  /** Where edge i of the rotated polygon was. */
  function RotatedEdge(n: nat, k: nat, i: nat): nat
    requires k <= n && i < n
  {
    if i + k < n then i + k else i + k - n
  }

  function ReversedEdge(n: nat, i: nat): nat
    requires i < n
  {
    if i == n - 1 then i else n - 2 - i
  }

  lemma RotationKeepsValid(points: seq<Point>, k: nat)
    requires k <= |points| && IsValid(points)
    ensures IsValid(Rotated(points, k))
  {
    var n, other := |points|, Rotated(points, k);
    forall i, j | 0 <= i < n && 0 <= j < n && !AreNeighbours(n, i, j) ensures !EdgesCross(other, i, j) {
      var i', j' := RotatedEdge(n, k, i), RotatedEdge(n, k, j);
      assert IsSameEdge(other, i, points, i') && IsSameEdge(other, j, points, j');
      assert !AreNeighbours(n, i', j');
      SameEdgesCrossAlike(other, i, j, points, i', j');
    }
  }

  lemma ReversalKeepsValid(points: seq<Point>)
    requires IsValid(points)
    ensures IsValid(Reversed(points))
  {
    var n, other := |points|, Reversed(points);
    forall i, j | 0 <= i < n && 0 <= j < n && !AreNeighbours(n, i, j) ensures !EdgesCross(other, i, j) {
      var i', j' := ReversedEdge(n, i), ReversedEdge(n, j);
      assert IsSameEdge(other, i, points, i') && IsSameEdge(other, j, points, j');
      assert !AreNeighbours(n, i', j');
      SameEdgesCrossAlike(other, i, j, points, i', j');
    }
  }

  lemma RotatedBack(points: seq<Point>, k: nat)
    requires k <= |points|
    ensures Rotated(Rotated(points, k), |points| - k) == points
  {
  }

  lemma ReversedTwice(points: seq<Point>)
    ensures Reversed(Reversed(points)) == points
  {
  }

  /** The verdict does not depend on the vertex the outline starts at. */
  lemma VerdictIgnoresStart(points: seq<Point>, k: nat)
    requires k <= |points|
    ensures IsValid(Rotated(points, k)) <==> IsValid(points)
  {
    if IsValid(points) {
      RotationKeepsValid(points, k);
    }
    if IsValid(Rotated(points, k)) {
      RotationKeepsValid(Rotated(points, k), |points| - k);
      RotatedBack(points, k);
    }
  }

  /** Nor on the direction it is drawn in. */
  lemma VerdictIgnoresDirection(points: seq<Point>)
    ensures IsValid(Reversed(points)) <==> IsValid(points)
  {
    if IsValid(points) {
      ReversalKeepsValid(points);
    }
    if IsValid(Reversed(points)) {
      ReversalKeepsValid(Reversed(points));
      ReversedTwice(points);
    }
  }

  /** Edges i and j of the closed outline share a point, and do not lie on one line. */
  ghost predicate CrossProperly(points: seq<Point>, i: nat, j: nat)
    requires i < |points| && j < |points|
  {
    var n := |points|;
    && SharePoint(points[i], points[(i + 1) % n], points[j], points[(j + 1) % n])
    && !IsOnOneLine(points[i], points[(i + 1) % n], points[j], points[(j + 1) % n])
  }

  lemma CrossingIsProper(points: seq<Point>, i: nat, j: nat)
    requires i < |points| && j < |points|
    ensures EdgesCross(points, i, j) <==> CrossProperly(points, i, j)
    ensures AreNeighbours(|points|, i, j) <==> i == j || (i + 1) % |points| == j || (j + 1) % |points| == i
  {
    AfterIsModulo(i, |points|);
    AfterIsModulo(j, |points|);
    IntersectionTestIsExact(points[i], points[After(i, |points|)], points[j], points[After(j, |points|)]);
  }

  /** What a verdict means: an outline is accepted exactly when no two of its edges without a common vertex
      share a point, edges on one line aside. */
  lemma ValidMeansNoCrossing(points: seq<Point>)
    ensures IsValid(points) <==>
      forall i, j :: 0 <= i < |points| && 0 <= j < |points| && CrossProperly(points, i, j) ==>
        i == j || (i + 1) % |points| == j || (j + 1) % |points| == i
  {
    forall i, j | 0 <= i < |points| && 0 <= j < |points|
      ensures EdgesCross(points, i, j) <==> CrossProperly(points, i, j)
      ensures AreNeighbours(|points|, i, j) <==> i == j || (i + 1) % |points| == j || (j + 1) % |points| == i
    {
      CrossingIsProper(points, i, j);
    }
  }

  /** So an outline that runs back and forth over one edge is accepted, though its edges coincide. */
  lemma DoubledEdgeIsAccepted(p: Point, q: Point)
    ensures IsValid([p, q, p, q]) && SharePoint(p, q, p, q) && !AreNeighbours(4, 0, 2)
  {
    var points := [p, q, p, q];
    OverlapOnOneLineIsNotSeen(p, q);
    forall i, j | 0 <= i < 4 && 0 <= j < 4 && !AreNeighbours(4, i, j) ensures !EdgesCross(points, i, j) {
      assert (i == 0 && j == 2) || (i == 2 && j == 0) || (i == 1 && j == 3) || (i == 3 && j == 1);
      IntersectionIsSymmetric(p, q, p, q);
      OverlapOnOneLineIsNotSeen(q, p);
    }
  }
}
