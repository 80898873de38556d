/** The two inputs behind the findings in the README. The kite is stated
    for every scale t > 0, so it is a whole family of point sets. The wedge
    takes its scale as a parameter pinned to 1 by its requires: its
    coordinates then stay symbolic in the proofs, while the seed search
    still sees the concrete values. */
module Findings {
  import opened Results
  import opened Util
  import opened Front
  import opened HalfEdges
  import opened Hash
  import opened Seeds
  import opened Sweep

  /** Three points whose seed circumcentre is the origin, with seed i2 on
      the ray from it toward negative x. */
  function WedgeOf(w: real): seq<Point> {
    [Point(-w, 0.0), Point(w, 0.0), Point(0.0, w)]
  }

  /** The bounding box of the wedge spans [-w, w] by [0, w]. */
  lemma WedgeBox(w: real)
    requires w == 1.0
    ensures Midpoint(WedgeOf(w)) == Point(0.0, w / 2.0)
  {
    hide Min, Max;  // MinIs and MaxIs give their values
    var pts := WedgeOf(w);
    MinIs(Xs(pts), 0);
    MaxIs(Xs(pts), 1);
    MinIs(Ys(pts), 0);
    MaxIs(Ys(pts), 2);
  }

  /** Point 2 is strictly nearest the box centre. */
  lemma WedgeI0(w: real)
    requires w == 1.0
    ensures SeedI0(WedgeOf(w)) == 2
  {
    WedgeBox(w);
    WedgeDistances(w);
    LastOfThreeNearest(WedgeOf(w), Point(0.0, w / 2.0));
  }

  lemma WedgeDistances(w: real)
    requires w == 1.0
    ensures var pts, m := WedgeOf(w), Point(0.0, w / 2.0);
            SqDist(pts[0], m) == 1.25 && SqDist(pts[1], m) == 1.25 && SqDist(pts[2], m) == 0.25
  {
  }

  /** Of three points, the last is i0 when it is strictly nearest the box
      centre m. */
  lemma LastOfThreeNearest(points: seq<Point>, m: Point)
    requires |points| == 3 && Midpoint(points) == m
    requires SqDist(points[2], m) < SqDist(points[0], m) && SqDist(points[2], m) < SqDist(points[1], m)
    ensures SeedI0(points) == 2
  {
    SeedI0Is(points, 2);
  }

  /** Points 0 and 1 are equally near point 2; the scan keeps the first. */
  lemma WedgeI1(w: real)
    requires w == 1.0
    ensures SeedI1(WedgeOf(w), 2) == 0
  {
    var pts := WedgeOf(w);
    assert pts[0] != pts[2];
    assert SqDist(pts[1], pts[2]) == SqDist(pts[0], pts[2]);
  }

  /** Point 1 is the only candidate for the third seed. */
  lemma WedgeI2(w: real)
    requires w == 1.0
    ensures ArgMin(RadiusScores(WedgeOf(w), 2, 0)) == Some(1)
  {
    WedgeNotCollinear(w);
    ThirdOfThree(WedgeOf(w), 2, 0, 1);
  }

  /** Of three points, the one left over after i0 and i1 is the third seed
      when the three are not collinear. */
  lemma ThirdOfThree(points: seq<Point>, i0: nat, i1: nat, k: nat)
    requires |points| == 3 && i0 < 3 && i1 < 3 && k < 3
    requires i0 != i1 && i0 != k && i1 != k
    requires Cross(points[i0], points[i1], points[k]) != 0.0
    ensures ArgMin(RadiusScores(points, i0, i1)) == Some(k)
  {
    var scores := RadiusScores(points, i0, i1);
    assert scores[k].Some?;
    OnlyScore(scores, k);
  }

  /** Seeds 2 and 0 with point 1 do not lie on one line. */
  lemma WedgeNotCollinear(w: real)
    requires w == 1.0
    ensures Cross(WedgeOf(w)[2], WedgeOf(w)[0], WedgeOf(w)[1]) != 0.0
  {
    assert w * w > 0.0;
  }

  /** A scan over scores with one defined entry picks that entry. */
  lemma OnlyScore(scores: seq<Option<real>>, k: nat)
    requires k < |scores| && scores[k].Some?
    requires forall j :: 0 <= j < |scores| && j != k ==> scores[j].None?
    ensures ArgMin(scores) == Some(k)
  {
    assert !NoneIn(scores, |scores|);
  }

  /** The seed phase picks i0 = 2 (nearest the box centre), i1 = 0 (the
      first of the two nearest it), i2 = 1, then swaps i1 and i2 because
      the triangle winds the wrong way. */
  lemma WedgeSeeds(w: real)
    requires w == 1.0
    ensures SeedsOf(WedgeOf(w)) == Ok(Seeds(2, 1, 0))
  {
    var pts := WedgeOf(w);
    WedgeI0(w);
    WedgeI1(w);
    WedgeI2(w);
    assert w * w > 0.0;
    assert Area(pts[2], pts[0], pts[1]) < 0.0;
  }

  /** The seed circumcentre is the origin, the one point equidistant from
      the three. */
  lemma WedgeCenter(w: real)
    requires w == 1.0
    ensures ValidSeeds(WedgeOf(w), Seeds(2, 1, 0))
    ensures SeedCenter(WedgeOf(w), Seeds(2, 1, 0)) == Point(0.0, 0.0)
  {
    var pts := WedgeOf(w);
    assert w * w > 0.0;
    assert Area(pts[2], pts[1], pts[0]) > 0.0;
    EquidistantIsOrigin(SeedCenter(pts, Seeds(2, 1, 0)), w);
  }

  /** The only point as far from (w, 0) as from (-w, 0) and (0, w) is the
      origin. */
  lemma EquidistantIsOrigin(c: Point, w: real)
    requires w > 0.0
    requires SqDist(c, Point(0.0, w)) == SqDist(c, Point(w, 0.0)) == SqDist(c, Point(-w, 0.0))
    ensures c == Point(0.0, 0.0)
  {
    assert 4.0 * w * c.x == 0.0;
    ZeroProduct(4.0 * w, c.x);
    assert 2.0 * w * c.y == 0.0;
    ZeroProduct(2.0 * w, c.y);
  }

  /** hashKey as written sends point 0 of the wedge, left of the seed
      circumcentre at its height, to key 2 in a table of ceil(sqrt(3)) = 2
      slots, so hashEdge indexes past the end; the reduced key is slot 0. */
  lemma WedgeKeyOverflows(w: real)
    requires w == 1.0
    ensures var pts := WedgeOf(w);
            && CeilSqrt(|pts|) == 2 && ValidSeeds(pts, Seeds(2, 1, 0))
            && HashKeyAsWritten(SeedCenter(pts, Seeds(2, 1, 0)), 2, pts[0]) == Ok(2)
            && HashKey(SeedCenter(pts, Seeds(2, 1, 0)), 2, pts[0]) == Ok(0)
  {
    assert CeilSqrtFrom(3, 2) == 2;
    assert CeilSqrtFrom(3, 1) == 2;
    WedgeCenter(w);
    var pts, o := WedgeOf(w), Point(0.0, 0.0);
    HashKeyAsWrittenRange(o, 2, pts[0]);
    HashKeyCorrects(o, 2, pts[0]);
  }

  /** Two unlinked triangles (0, 1, 2) and (3, 4, 5): half-edge 3 is a hull
      edge, and point 1, which Go's remainder makes the far corner of the
      missing twin, lies inside the circle through points 5, 3 and 4. */
  function KiteMesh(): Mesh {
    Mesh([0, 1, 2, 3, 4, 5], [-1, -1, -1, -1, -1, -1], 6)
  }

  function KiteOf(t: real): seq<Point> {
    [Point(5.0 * t, 5.0 * t), Point(t / 2.0, t / 2.0), Point(6.0 * t, 6.0 * t),
     Point(0.0, 0.0), Point(0.0, t), Point(t, 0.0)]
  }

  /** The kite mesh holds two whole triangles of point indices below 6,
      and half-edge 3 has no twin. */
  lemma KiteShape()
    ensures var m := KiteMesh();
            && Shaped(m) && PointsIn(m.triangles, 6) && m.len == 6
            && |m.halfedges| == 6 && m.halfedges[3] == -1
  {
  }

  /** Half-edge 3 of a hull edge in the second triangle: its neighbours are
      4 and 5, and Go's remainder on the twin -1 gives b0 = 0, bl = 1 and
      br = 0. */
  lemma HullCorners3(h: seq<int>)
    requires |h| == 6 && h[3] == -1
    ensures CornersOf(h, 3) == Corners(-1, 3, 0, 4, 5, 1, 0)
  {
    assert GoRem3(-1) == -1 && GoRem3(1) == 1 && GoRem3(0) == 0;
    assert GoRem3(3) == 0 && GoRem3(4) == 1 && GoRem3(5) == 2;
  }

  /** Point 1 lies strictly inside the circle through points 5, 3 and 4:
      the determinant is -t^4 / 2. */
  lemma KiteInCircle(t: real)
    requires t > 0.0
    ensures InCircle(KiteOf(t)[5], KiteOf(t)[3], KiteOf(t)[4], KiteOf(t)[1])
  {
    var pts := KiteOf(t);
    var h := t / 2.0;
    assert InCircleDet(pts[5], pts[3], pts[4], pts[1]) == InCircleExpr(h, -h, -h, -h, -h, h);
    assert InCircleExpr(h, -h, -h, -h, -h, h) == -8.0 * (h * h) * (h * h);
    assert h * h > 0.0;
  }

  /** legalize as written treats the hull edge 3 as illegal and writes
      through the twin -1; the corrected step returns ar = 5. */
  lemma KiteHullEdgeFlips(t: real)
    requires t > 0.0
    ensures LegalizeStepAsWritten(KiteMesh(), KiteOf(t), 3) == Err(IndexOutOfRange)
    ensures LegalizeStep(KiteMesh(), KiteOf(t), 3) == Ok(Legal(5))
  {
    KiteShape();
    HullCorners3(KiteMesh().halfedges);
    KiteInCircle(t);
    HullEdgeAsWritten(KiteMesh(), KiteOf(t), 3);
    HullEdgeIsLegal(KiteMesh(), KiteOf(t), 3);
  }
}
