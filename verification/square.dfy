/** The square of package_test.go's TestSquare, through the seed phase.
    Like the wedge, the side length is a parameter pinned to 1 by the
    requires, so the coordinates stay symbolic in the proofs. */
module Square {
  import opened Results
  import opened Util
  import opened Seeds
  import opened Sweep

  /** The corners (0, 0), (w, 0), (w, w), (0, w), in the test's order. */
  function SquareOf(w: real): seq<Point> {
    [Point(0.0, 0.0), Point(w, 0.0), Point(w, w), Point(0.0, w)]
  }

  /** The bounding box is the square itself. */
  lemma SquareBox(w: real)
    requires w == 1.0
    ensures Midpoint(SquareOf(w)) == Point(w / 2.0, w / 2.0)
  {
    hide Min, Max;  // MinIs and MaxIs give their values
    var pts := SquareOf(w);
    MinIs(Xs(pts), 0);
    MaxIs(Xs(pts), 1);
    MinIs(Ys(pts), 0);
    MaxIs(Ys(pts), 2);
  }

  /** Every corner is at squared distance w^2 / 2 from the middle. */
  lemma CornerToMiddle(w: real, k: nat)
    requires w == 1.0 && k < 4
    ensures SqDist(SquareOf(w)[k], Point(w / 2.0, w / 2.0)) == 0.5
    ensures SqDist(Point(w / 2.0, w / 2.0), SquareOf(w)[k]) == 0.5
  {
  }

  /** The squared distances from corner 0: its neighbours at w^2, the
      opposite corner at 2 w^2. */
  lemma CornerToFirst(w: real, k: nat)
    requires w == 1.0 && 0 < k < 4
    ensures SqDist(SquareOf(w)[k], SquareOf(w)[0]) == if k == 2 then 2.0 else 1.0
  {
  }

  /** All four corners are equally near the box centre; the scan keeps
      the first. */
  lemma SquareI0(w: real)
    requires w == 1.0
    ensures SeedI0(SquareOf(w)) == 0
  {
    hide SqDist;  // the distances come from the lemmas above
    SquareBox(w);
    CornerToMiddle(w, 0);
    CornerToMiddle(w, 1);
    CornerToMiddle(w, 2);
    CornerToMiddle(w, 3);
    FirstOfFourNearest(SquareOf(w), Point(w / 2.0, w / 2.0));
  }

  /** Of four points, the first is i0 when none is nearer the box centre. */
  lemma FirstOfFourNearest(points: seq<Point>, m: Point)
    requires |points| == 4 && Midpoint(points) == m
    requires SqDist(points[0], m) <= SqDist(points[1], m)
    requires SqDist(points[0], m) <= SqDist(points[2], m)
    requires SqDist(points[0], m) <= SqDist(points[3], m)
    ensures SeedI0(points) == 0
  {
    SeedI0Is(points, 0);
  }

  /** Corners 1 and 3 are nearest corner 0; the scan keeps corner 1. */
  lemma SquareI1(w: real)
    requires w == 1.0
    ensures SeedI1(SquareOf(w), 0) == 1
  {
    hide SqDist;  // the distances come from the lemmas above
    CornerToFirst(w, 1);
    CornerToFirst(w, 2);
    CornerToFirst(w, 3);
    SecondOfFourNearest(SquareOf(w));
  }

  /** Of four points, point 1 is i1 for i0 = 0 when it differs from point 0
      and no point is nearer it. */
  lemma SecondOfFourNearest(points: seq<Point>)
    requires |points| == 4 && points[1] != points[0]
    requires SqDist(points[1], points[0]) <= SqDist(points[2], points[0])
    requires SqDist(points[1], points[0]) <= SqDist(points[3], points[0])
    ensures SeedI1(points, 0) == 1
  {
    SeedI1Is(points, 0, 1);
  }

  /** A point as far from (0, 0) as from (w, 0) lies on the line x = w/2,
      and one as far from (0, 0) as from (0, w) on the line y = w/2. */
  lemma Bisectors(c: Point, w: real)
    requires w > 0.0
    ensures SqDist(c, Point(0.0, 0.0)) == SqDist(c, Point(w, 0.0)) ==> c.x == w / 2.0
    ensures SqDist(c, Point(0.0, 0.0)) == SqDist(c, Point(0.0, w)) ==> c.y == w / 2.0
  {
    if SqDist(c, Point(0.0, 0.0)) == SqDist(c, Point(w, 0.0)) {
      OnBisector(c.x, c.y, w);
    }
    if SqDist(c, Point(0.0, 0.0)) == SqDist(c, Point(0.0, w)) {
      OnBisector(c.y, c.x, w);
    }
  }

  /** x^2 + y^2 == (x - w)^2 + y^2 pins x to w / 2. */
  lemma OnBisector(x: real, y: real, w: real)
    requires w > 0.0
    requires SqDist(Point(x, y), Point(0.0, 0.0)) == SqDist(Point(x, y), Point(w, 0.0))
             || SqDist(Point(y, x), Point(0.0, 0.0)) == SqDist(Point(y, x), Point(0.0, w))
    ensures x == w / 2.0
  {
    assert (x - w) * (x - w) == x * x - 2.0 * w * x + w * w;
    assert w * (2.0 * x - w) == 0.0;
    ZeroProduct(w, 2.0 * x - w);
  }

  /** The circle through (0, 0), (w, 0) and (w, w) is centred at the
      middle of the square. */
  lemma CenterOfLowerRight(c: Point, w: real)
    requires w > 0.0
    requires SqDist(c, Point(0.0, 0.0)) == SqDist(c, Point(w, 0.0)) == SqDist(c, Point(w, w))
    ensures c == Point(w / 2.0, w / 2.0)
  {
    Bisectors(c, w);
    assert SqDist(c, Point(w, 0.0)) == SqDist(c, Point(w, w));
    OnBisector(c.y, c.x - w, w);
  }

  /** Corners 0 and 1 with either corner 2 or corner 3 are not collinear,
      and (0, 0), (w, 0), (w, w) winds clockwise on screen. */
  lemma SquareCross(w: real, k: nat)
    requires w == 1.0 && 2 <= k < 4
    ensures Cross(SquareOf(w)[0], SquareOf(w)[1], SquareOf(w)[k]) == 1.0
    ensures k == 2 ==> Area(SquareOf(w)[0], SquareOf(w)[1], SquareOf(w)[2]) == -1.0
  {
  }

  /** The two triangles over seeds 0 and 1 share their circumcircle, of
      squared radius w^2 / 2. */
  lemma SquareRadii(w: real)
    requires w == 1.0
    ensures var pts := SquareOf(w);
            && Circumradius(pts[0], pts[1], pts[2]) == Finite(0.5)
            && Circumradius(pts[0], pts[1], pts[3]) == Finite(0.5)
  {
    hide SqDist, Cross, Circumcenter, Circumradius;  // their contracts suffice
    var pts := SquareOf(w);
    SquareCross(w, 2);
    SquareCross(w, 3);
    var o2 := Circumcenter(pts[0], pts[1], pts[2]).value;
    var o3 := Circumcenter(pts[0], pts[1], pts[3]).value;
    CenterOfLowerRight(o2, w);
    Bisectors(o3, w);
    CornerToMiddle(w, 0);
  }

  /** A scan whose first defined score is no larger than any later one
      keeps that first score. */
  lemma FirstDefined(scores: seq<Option<real>>, k: nat)
    requires k < |scores| && scores[k].Some?
    requires forall j :: 0 <= j < k ==> scores[j].None?
    requires forall j :: k < j < |scores| && scores[j].Some? ==> scores[k].value <= scores[j].value
    ensures ArgMin(scores) == Some(k)
  {
    assert !NoneIn(scores, |scores|);
    assert FirstMinIn(scores, |scores|, k);
    FirstMinUnique(scores, ArgMin(scores).value, k);
  }

  /** Corners 2 and 3 tie for the smallest circle; the scan keeps 2. */
  lemma SquareI2(w: real)
    requires w == 1.0
    ensures ArgMin(RadiusScores(SquareOf(w), 0, 1)) == Some(2)
  {
    hide SqDist;  // the distances come from the lemmas above
    SquareRadii(w);
    var scores := RadiusScores(SquareOf(w), 0, 1);
    assert scores[2] == Some(0.5) && scores[3] == Some(0.5);
    FirstDefined(scores, 2);
  }

  /** The seed phase of TestSquare picks i0 = 0, i1 = 1, i2 = 2, then swaps
      i1 and i2 because (0, 0), (1, 0), (1, 1) winds the wrong way for the
      triangulator. */
  lemma SquareSeeds(w: real)
    requires w == 1.0
    ensures SeedsOf(SquareOf(w)) == Ok(Seeds(0, 2, 1))
  {
    hide SqDist, Cross, Area, Circumcenter, Circumradius;  // their contracts suffice
    SquareI0(w);
    SquareI1(w);
    SquareI2(w);
    SquareCross(w, 2);
  }

  /** The seed circumcentre, the point the sweep sorts by, is the middle
      of the square. */
  lemma SquareCenter(w: real)
    requires w == 1.0
    ensures ValidSeeds(SquareOf(w), Seeds(0, 2, 1))
    ensures SeedCenter(SquareOf(w), Seeds(0, 2, 1)) == Point(w / 2.0, w / 2.0)
  {
    hide SeedsOf, SeedCenter;  // their contracts suffice
    SquareSeeds(w);
    CenterOfSeeds(SquareOf(w), w, SeedCenter(SquareOf(w), Seeds(0, 2, 1)));
  }

  /** A point equidistant from corners 0, 2 and 1 is the middle. */
  lemma CenterOfSeeds(pts: seq<Point>, w: real, c: Point)
    requires pts == SquareOf(w) && w == 1.0
    requires SqDist(c, pts[0]) == SqDist(c, pts[2]) == SqDist(c, pts[1])
    ensures c == Point(w / 2.0, w / 2.0)
  {
    hide SqDist;
    CenterOfLowerRight(c, w);
  }
}
