/**
 * Integer points and the inclusive point-in-polygon test used to decide
 * whether a customer's foot point lies in a table zone.
 *
 * The analyzer converts every polygon to 32-bit integer vertices and asks
 * for the sign of the point-polygon test: positive inside, zero on an edge,
 * negative outside; a result >= 0 counts as "at this table". The test here
 * is a crossing-number test written in exact integer arithmetic.
 */
module Geometry {

  datatype Point = Point(x: int, y: int)

  type Polygon = seq<Point>

  /** Twice the signed area of the triangle a, b, p: zero iff the three are collinear. */
  function Cross(a: Point, b: Point, p: Point): int {
    (b.x - a.x) * (p.y - a.y) - (b.y - a.y) * (p.x - a.x)
  }

  /** v lies in the closed interval spanned by the two ends, in either order. */
  predicate Between(u: int, v: int, w: int) {
    (u <= v <= w) || (w <= v <= u)
  }

  /** p lies on the closed segment from a to b. */
  predicate OnSegment(p: Point, a: Point, b: Point) {
    Cross(a, b, p) == 0 && Between(a.x, p.x, b.x) && Between(a.y, p.y, b.y)
  }

  /**
   * The horizontal ray from p towards +x crosses the edge a-b. The edge is
   * taken half-open in y, so a vertex shared by two edges is counted once.
   * The comparison is the intersection abscissa multiplied by b.y - a.y,
   * with the inequality flipped when that factor is negative.
   */
  predicate CrossesRay(p: Point, a: Point, b: Point) {
    && (a.y > p.y) != (b.y > p.y)
    && if b.y > a.y then (p.x - a.x) * (b.y - a.y) < (p.y - a.y) * (b.x - a.x)
       else (p.x - a.x) * (b.y - a.y) > (p.y - a.y) * (b.x - a.x)
  }

  /** The vertex after vertex i, wrapping around to close the polygon. */
  function Next(poly: Polygon, i: nat): Point
    requires i < |poly|
  {
    poly[if i + 1 < |poly| then i + 1 else 0]
  }

  /** How many of the first k edges the ray from p crosses. */
  function Crossings(poly: Polygon, p: Point, k: nat): nat
    requires k <= |poly|
  {
    if k == 0 then 0
    else Crossings(poly, p, k - 1) + (if CrossesRay(p, poly[k - 1], Next(poly, k - 1)) then 1 else 0)
  }

  predicate OnBoundary(poly: Polygon, p: Point) {
    exists i :: 0 <= i < |poly| && OnSegment(p, poly[i], Next(poly, i))
  }

  /** Every vertex of the polygon is strictly below p. */
  predicate AllBelow(poly: Polygon, p: Point) {
    forall i :: 0 <= i < |poly| ==> poly[i].y < p.y
  }

  /**
   * The sign of the point-polygon test: 0 on an edge, 1 inside, -1 outside.
   * Every corner is on an edge, and a zone of at most two corners has no
   * inside: the test never reports 1 for it.
   */
  function PolygonTest(poly: Polygon, p: Point): (r: int)
    ensures -1 <= r <= 1
    ensures p in poly ==> r == 0
    ensures |poly| <= 2 ==> r <= 0
  {
    VerticesOnBoundary(poly);
    DegenerateNoInside(poly, p);
    if OnBoundary(poly, p) then 0
    else if Crossings(poly, p, |poly|) % 2 == 1 then 1
    else -1
  }

  /** The analyzer's acceptance rule: the test is >= 0, so the boundary counts as inside. */
  predicate Contains(poly: Polygon, p: Point) {
    PolygonTest(poly, p) >= 0
  }

  /** Every corner lies on its own outgoing edge. */
  lemma VerticesOnBoundary(poly: Polygon)
    ensures forall i :: 0 <= i < |poly| ==> OnBoundary(poly, poly[i])
  {
    forall i | 0 <= i < |poly|
      ensures OnBoundary(poly, poly[i])
    {
      assert OnSegment(poly[i], poly[i], Next(poly, i));
    }
  }

  /**
   * With one corner the only edge is a point and is never crossed; with two
   * corners the two edges are the same segment, crossed both or neither.
   */
  lemma DegenerateNoInside(poly: Polygon, p: Point)
    ensures |poly| <= 2 ==> Crossings(poly, p, |poly|) % 2 == 0
  {
    if |poly| == 1 {
      assert !CrossesRay(p, poly[0], Next(poly, 0));
    } else if |poly| == 2 {
      var a, b := poly[0], poly[1];
      assert Next(poly, 0) == b && Next(poly, 1) == a;
      SameSegmentCrossing(p, a, b);
      assert Crossings(poly, p, 1) == (if CrossesRay(p, a, b) then 1 else 0);
    }
  }

  /** An edge and its reverse are crossed together. */
  lemma SameSegmentCrossing(p: Point, a: Point, b: Point)
    ensures CrossesRay(p, a, b) <==> CrossesRay(p, b, a)
  {
    var dx, dy := b.x - a.x, b.y - a.y;
    assert (p.x - b.x) * (a.y - b.y) == (p.x - a.x) * (-dy) + dx * dy;
    assert (p.y - b.y) * (a.x - b.x) == (p.y - a.y) * (-dx) + dy * dx;
  }

  /** No edge below p is crossed by the ray from p. */
  lemma {:induction false} NoCrossingsAbove(poly: Polygon, p: Point, k: nat)
    requires k <= |poly|
    requires AllBelow(poly, p)
    ensures Crossings(poly, p, k) == 0
  {
    if k > 0 {
      NoCrossingsAbove(poly, p, k - 1);
    }
  }

  /** A point strictly beyond every vertex in y is in no zone. */
  lemma PointAboveOutside(poly: Polygon, p: Point)
    requires AllBelow(poly, p)
    ensures !Contains(poly, p)
  {
    NoCrossingsAbove(poly, p, |poly|);
  }

  /** The axis-aligned rectangle with corners (x0, y0) and (x1, y1), listed counter-clockwise. */
  function Rectangle(x0: int, y0: int, x1: int, y1: int): Polygon {
    [Point(x0, y0), Point(x1, y0), Point(x1, y1), Point(x0, y1)]
  }

  lemma {:induction false} MulPositive(a: int, b: int)
    requires b > 0
    ensures a * b < 0 <==> a < 0
    ensures a * b == 0 <==> a == 0
    decreases if a < 0 then -a else a
  {
    if a < 0 {
      MulPositive(a + 1, b);
      assert a * b == (a + 1) * b - b;
    } else if a > 0 {
      MulPositive(a - 1, b);
      assert a * b == (a - 1) * b + b;
    }
  }

  /** On a proper rectangle, the point lies on an edge exactly when it is on a side of the box. */
  lemma RectangleBoundary(x0: int, y0: int, x1: int, y1: int, p: Point)
    requires x0 < x1 && y0 < y1
    ensures OnBoundary(Rectangle(x0, y0, x1, y1), p) <==>
      ((p.y == y0 || p.y == y1) && x0 <= p.x <= x1) || ((p.x == x0 || p.x == x1) && y0 <= p.y <= y1)
  {
    var poly := Rectangle(x0, y0, x1, y1);
    var a, b, c, d := poly[0], poly[1], poly[2], poly[3];
    assert Next(poly, 0) == b && Next(poly, 1) == c && Next(poly, 2) == d && Next(poly, 3) == a;
    MulPositive(p.y - y0, x1 - x0);
    MulPositive(p.x - x1, y1 - y0);
    MulPositive(y1 - p.y, x1 - x0);
    MulPositive(x0 - p.x, y1 - y0);
    assert Cross(a, b, p) == (p.y - y0) * (x1 - x0);
    assert Cross(b, c, p) == -((p.x - x1) * (y1 - y0));
    assert Cross(c, d, p) == (y1 - p.y) * (x1 - x0);
    assert Cross(d, a, p) == -((x0 - p.x) * (y1 - y0));
    var edge := OnSegment(p, a, b) || OnSegment(p, b, c) || OnSegment(p, c, d) || OnSegment(p, d, a);
    if edge {
      if OnSegment(p, a, b) { assert OnSegment(p, poly[0], Next(poly, 0)); }
      else if OnSegment(p, b, c) { assert OnSegment(p, poly[1], Next(poly, 1)); }
      else if OnSegment(p, c, d) { assert OnSegment(p, poly[2], Next(poly, 2)); }
      else { assert OnSegment(p, poly[3], Next(poly, 3)); }
    }
  }

  /** The ray from p crosses only the two vertical sides, each when p is level with it and to its left. */
  lemma RectangleCrossings(x0: int, y0: int, x1: int, y1: int, p: Point)
    requires x0 < x1 && y0 < y1
    ensures Crossings(Rectangle(x0, y0, x1, y1), p, 4) ==
      (if y0 <= p.y < y1 && p.x < x1 then 1 else 0) + (if y0 <= p.y < y1 && p.x < x0 then 1 else 0)
  {
    var poly := Rectangle(x0, y0, x1, y1);
    var a, b, c, d := poly[0], poly[1], poly[2], poly[3];
    assert Next(poly, 0) == b && Next(poly, 1) == c && Next(poly, 2) == d && Next(poly, 3) == a;
    MulPositive(p.x - x1, y1 - y0);
    MulPositive(p.x - x0, y1 - y0);
    assert CrossesRay(p, b, c) <==> y0 <= p.y < y1 && (p.x - x1) * (y1 - y0) < 0;
    assert CrossesRay(p, d, a) <==> y0 <= p.y < y1 && (p.x - x0) * (y0 - y1) > 0 by {
      assert (p.x - x0) * (y0 - y1) == -((p.x - x0) * (y1 - y0));
    }
    assert !CrossesRay(p, a, b) && !CrossesRay(p, c, d);
    assert Crossings(poly, p, 2) == (if CrossesRay(p, b, c) then 1 else 0) by {
      assert Crossings(poly, p, 1) == 0;
    }
    assert Crossings(poly, p, 3) == Crossings(poly, p, 2);
  }

  /**
   * For a proper rectangle the test agrees with the closed box: the point is
   * contained exactly when both coordinates lie within the corner bounds.
   */
  lemma RectangleContains(x0: int, y0: int, x1: int, y1: int, p: Point)
    requires x0 < x1 && y0 < y1
    ensures Contains(Rectangle(x0, y0, x1, y1), p) <==> x0 <= p.x <= x1 && y0 <= p.y <= y1
  {
    RectangleBoundary(x0, y0, x1, y1, p);
    RectangleCrossings(x0, y0, x1, y1, p);
  }
}
