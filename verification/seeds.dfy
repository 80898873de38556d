/** The preparation phase of triangulation.go `triangulate`: the bounding
    box, the three seed points, the orientation fix and the `Less` order
    the points are sorted by.

    Go measures with `distance` (a hypotenuse) and compares the results;
    the square root is monotone, so the model compares squared distances
    and picks the same indices. Go's "running minimum starting from
    infinity" loops become `ArgMin` over optional scores, where `None`
    marks an index the loop skips or whose value can never beat
    infinity. */
module Seeds {
  import opened Results
  import opened Util

  /** The least element of a non-empty sequence, found left to right as
      Go's bounds loop does (`if p.X < x0 { x0 = p.X }`). */
  function Min(xs: seq<real>): (r: real)
    requires |xs| > 0
    ensures forall k :: 0 <= k < |xs| ==> r <= xs[k]
    ensures exists k :: 0 <= k < |xs| && xs[k] == r
  {
    if |xs| == 1 then xs[0]
    else
      var m := Min(xs[..|xs| - 1]);
      assert forall k :: 0 <= k < |xs| - 1 ==> xs[..|xs| - 1][k] == xs[k];
      if xs[|xs| - 1] < m then xs[|xs| - 1] else m
  }

  /** The greatest element of a non-empty sequence. */
  function Max(xs: seq<real>): (r: real)
    requires |xs| > 0
    ensures forall k :: 0 <= k < |xs| ==> xs[k] <= r
    ensures exists k :: 0 <= k < |xs| && xs[k] == r
  {
    if |xs| == 1 then xs[0]
    else
      var m := Max(xs[..|xs| - 1]);
      assert forall k :: 0 <= k < |xs| - 1 ==> xs[..|xs| - 1][k] == xs[k];
      if xs[|xs| - 1] > m then xs[|xs| - 1] else m
  }

  /** An element no greater than any other is the minimum. */
  lemma MinIs(xs: seq<real>, k: nat)
    requires k < |xs| && forall j :: 0 <= j < |xs| ==> xs[k] <= xs[j]
    ensures Min(xs) == xs[k]
  {
  }

  /** An element no smaller than any other is the maximum. */
  lemma MaxIs(xs: seq<real>, k: nat)
    requires k < |xs| && forall j :: 0 <= j < |xs| ==> xs[j] <= xs[k]
    ensures Max(xs) == xs[k]
  {
  }

  function Xs(points: seq<Point>): (r: seq<real>)
    ensures |r| == |points| && forall k :: 0 <= k < |points| ==> r[k] == points[k].x
  {
    seq(|points|, k requires 0 <= k < |points| => points[k].x)
  }

  function Ys(points: seq<Point>): (r: seq<real>)
    ensures |r| == |points| && forall k :: 0 <= k < |points| ==> r[k] == points[k].y
  {
    seq(|points|, k requires 0 <= k < |points| => points[k].y)
  }

  /** The centre of the bounding box, Go's `m`. It lies inside the box. */
  function Midpoint(points: seq<Point>): (m: Point)
    requires |points| > 0
    ensures Min(Xs(points)) <= m.x <= Max(Xs(points))
    ensures Min(Ys(points)) <= m.y <= Max(Ys(points))
  {
    var x0, x1 := Min(Xs(points)), Max(Xs(points));
    var y0, y1 := Min(Ys(points)), Max(Ys(points));
    assert x0 <= Xs(points)[0] <= x1 && y0 <= Ys(points)[0] <= y1;
    Point((x0 + x1) / 2.0, (y0 + y1) / 2.0)
  }

  /** Index k holds the least defined score of the first n, and every
      earlier defined score is strictly larger: k is what a left-to-right
      scan with a strict `<` keeps. */
  predicate FirstMinIn(scores: seq<Option<real>>, n: nat, k: nat)
    requires n <= |scores|
  {
    k < n && scores[k].Some? &&
    forall j :: 0 <= j < n && scores[j].Some? ==>
      scores[k].value <= scores[j].value && (j < k ==> scores[k].value < scores[j].value)
  }

  /** No score among the first n is defined. */
  predicate NoneIn(scores: seq<Option<real>>, n: nat)
    requires n <= |scores|
  {
    forall j :: 0 <= j < n ==> scores[j].None?
  }

  /** The scan of Go's minimum loops from index k on, with best the index
      kept so far (None while the running minimum is still infinity). */
  function ArgMinFrom(scores: seq<Option<real>>, k: nat, best: Option<nat>): (r: Option<nat>)
    requires k <= |scores|
    requires best.None? ==> NoneIn(scores, k)
    requires best.Some? ==> FirstMinIn(scores, k, best.value)
    ensures r.None? ==> NoneIn(scores, |scores|)
    ensures r.Some? ==> FirstMinIn(scores, |scores|, r.value)
    decreases |scores| - k
  {
    if k == |scores| then best
    else match scores[k]
      case None => ArgMinFrom(scores, k + 1, best)
      case Some(d) =>
        if best.None? || d < scores[best.value].value then ArgMinFrom(scores, k + 1, Some(k))
        else ArgMinFrom(scores, k + 1, best)
  }

  /** The first index of the least defined score, or None when no score is
      defined. */
  function ArgMin(scores: seq<Option<real>>): (r: Option<nat>)
    ensures r.None? <==> NoneIn(scores, |scores|)
    ensures r.Some? ==> FirstMinIn(scores, |scores|, r.value)
  {
    ArgMinFrom(scores, 0, None)
  }

  /** The first minimum is unique, so FirstMinIn pins ArgMin's result down. */
  lemma FirstMinUnique(scores: seq<Option<real>>, k1: nat, k2: nat)
    requires FirstMinIn(scores, |scores|, k1) && FirstMinIn(scores, |scores|, k2)
    ensures k1 == k2
  {
  }

  /** The scores of the first seed loop: every point's distance to q. */
  function DistScores(points: seq<Point>, q: Point): (s: seq<Option<real>>)
    ensures |s| == |points|
    ensures forall k :: 0 <= k < |points| ==> s[k] == Some(SqDist(points[k], q))
  {
    seq(|points|, k requires 0 <= k < |points| => Some(SqDist(points[k], q)))
  }

  /** The scores of the second seed loop: i0 is skipped and a point at
      distance 0 from it never passes `d > 0`. */
  function NearScores(points: seq<Point>, i0: nat): (s: seq<Option<real>>)
    requires i0 < |points|
    ensures |s| == |points|
    ensures forall k :: 0 <= k < |points| ==>
              s[k] == (if k == i0 || SqDist(points[k], points[i0]) == 0.0 then None
                       else Some(SqDist(points[k], points[i0])))
  {
    seq(|points|, k requires 0 <= k < |points| =>
      if k == i0 || SqDist(points[k], points[i0]) == 0.0 then None
      else Some(SqDist(points[k], points[i0])))
  }

  /** The scores of the third seed loop: i0 and i1 are skipped and an
      infinite circumradius never beats the initial infinity. */
  function RadiusScores(points: seq<Point>, i0: nat, i1: nat): (s: seq<Option<real>>)
    requires i0 < |points| && i1 < |points|
    ensures |s| == |points|
    ensures forall k :: 0 <= k < |points| ==>
              s[k] == (if k == i0 || k == i1 then None
                       else match Circumradius(points[i0], points[i1], points[k])
                            case Infinite => None
                            case Finite(r) => Some(r))
  {
    seq(|points|, k requires 0 <= k < |points| =>
      if k == i0 || k == i1 then None
      else match Circumradius(points[i0], points[i1], points[k])
           case Infinite => None
           case Finite(r) => Some(r))
  }

  /** The first seed: the first point nearest the centre of the bounding
      box. */
  function SeedI0(points: seq<Point>): (i0: nat)
    requires |points| > 0
    ensures i0 < |points|
    ensures forall k :: 0 <= k < |points| ==>
              SqDist(points[i0], Midpoint(points)) <= SqDist(points[k], Midpoint(points))
    ensures forall k :: 0 <= k < i0 ==>
              SqDist(points[i0], Midpoint(points)) < SqDist(points[k], Midpoint(points))
  {
    var s := DistScores(points, Midpoint(points));
    var r := ArgMin(s);
    assert s[0].Some?;
    r.value
  }

  /** The first point nearest the box centre is i0. */
  lemma SeedI0Is(points: seq<Point>, i: nat)
    requires i < |points|
    requires forall k :: 0 <= k < |points| ==>
               SqDist(points[i], Midpoint(points)) <= SqDist(points[k], Midpoint(points))
    requires forall k :: 0 <= k < i ==>
               SqDist(points[i], Midpoint(points)) < SqDist(points[k], Midpoint(points))
    ensures SeedI0(points) == i
  {
    var i0 := SeedI0(points);
    assert SqDist(points[i0], Midpoint(points)) <= SqDist(points[i], Midpoint(points));
  }

  /** The second seed: the first point nearest i0 among those at a positive
      distance from it, or Go's initial 0 when every point sits on i0. */
  function SeedI1(points: seq<Point>, i0: nat): (i1: nat)
    requires i0 < |points|
    ensures i1 < |points|
    ensures (forall k :: 0 <= k < |points| ==> points[k] == points[i0]) ==> i1 == 0
    ensures (exists k :: 0 <= k < |points| && points[k] != points[i0]) ==>
              && i1 != i0 && points[i1] != points[i0]
              && (forall k :: 0 <= k < |points| && points[k] != points[i0] ==>
                    SqDist(points[i1], points[i0]) <= SqDist(points[k], points[i0]))
              && (forall k :: 0 <= k < i1 && points[k] != points[i0] ==>
                    SqDist(points[i1], points[i0]) < SqDist(points[k], points[i0]))
  {
    var s := NearScores(points, i0);
    match ArgMin(s)
    case None =>
      forall k | 0 <= k < |points|
        ensures points[k] == points[i0]
      {
        assert s[k].None?;
        if k != i0 {
          SamePointIffZero(points[k], points[i0]);
        }
      }
      0
    case Some(i1) =>
      SamePointIffZero(points[i1], points[i0]);
      assert forall k :: 0 <= k < |points| && points[k] != points[i0] ==> s[k].Some? by {
        forall k | 0 <= k < |points| && points[k] != points[i0]
          ensures s[k].Some?
        {
          SamePointIffZero(points[k], points[i0]);
        }
      }
      i1
  }
  /** The first point nearest i0 among those that differ from it is i1. */
  lemma SeedI1Is(points: seq<Point>, i0: nat, i: nat)
    requires i0 < |points| && i < |points| && points[i] != points[i0]
    requires forall k :: 0 <= k < |points| && points[k] != points[i0] ==>
               SqDist(points[i], points[i0]) <= SqDist(points[k], points[i0])
    requires forall k :: 0 <= k < i && points[k] != points[i0] ==>
               SqDist(points[i], points[i0]) < SqDist(points[k], points[i0])
    ensures SeedI1(points, i0) == i
  {
    var i1 := SeedI1(points, i0);
    assert SqDist(points[i1], points[i0]) <= SqDist(points[i], points[i0]);
  }


  /** Two points coincide exactly when their squared distance is zero. */
  lemma SamePointIffZero(p: Point, q: Point)
    ensures SqDist(p, q) >= 0.0
    ensures SqDist(p, q) == 0.0 <==> p == q
  {
    var dx, dy := p.x - q.x, p.y - q.y;
    assert SqDist(p, q) == Sq(dx) + Sq(dy);
    if p != q {
      SumSquaresPositive(dx, dy);
    }
  }

  /** The three seed indices, (i0, i1, i2) in the order Go uses them. */
  datatype Seeds = Seeds(i0: nat, i1: nat, i2: nat)

  /** Every triple of points is collinear: no triangle of positive area
      can be formed. */
  predicate AllCollinear(points: seq<Point>) {
    forall i, j, k {:trigger Area(points[i], points[j], points[k])} ::
      0 <= i < |points| && 0 <= j < |points| && 0 <= k < |points| ==>
      Area(points[i], points[j], points[k]) == 0.0
  }

  /** Three different points of the input that wind counter-clockwise. */
  predicate ValidSeeds(points: seq<Point>, s: Seeds) {
    && s.i0 < |points| && s.i1 < |points| && s.i2 < |points|
    && s.i0 != s.i1 && s.i0 != s.i2 && s.i1 != s.i2
    && Area(points[s.i0], points[s.i1], points[s.i2]) > 0.0
  }

  /** The seed phase of `triangulate`: i0, then i1, then the i2 with the
      smallest circumcircle through i0 and i1, and finally i1 and i2
      exchanged when the triangle winds the wrong way. With no finite
      circumradius the input has no triangulation. */
  function SeedsOf(points: seq<Point>): (r: Result<Seeds>)
    requires |points| > 0
    ensures r.Err? ==> r.error == NoTriangulation
    ensures r.Ok? ==> ValidSeeds(points, r.value)
  {
    var i0 := SeedI0(points);
    var i1 := SeedI1(points, i0);
    match ArgMin(RadiusScores(points, i0, i1))
    case None => Err(NoTriangulation)
    case Some(i2) =>
      assert Cross(points[i0], points[i1], points[i2]) != 0.0;
      AreaIsNegatedCross(points[i0], points[i1], points[i2]);
      if Area(points[i0], points[i1], points[i2]) < 0.0 then
        AreaSwap(points[i0], points[i1], points[i2]);
        Ok(Seeds(i0, i2, i1))
      else Ok(Seeds(i0, i1, i2))
  }

  /** The circumradius loop picked i2 as the first point with the smallest
      circumcircle through i0 and i1; the swap may then exchange it with
      i1. */
  lemma SeedsSmallestCircle(points: seq<Point>)
    requires |points| > 0 && SeedsOf(points).Ok?
    ensures var i0 := SeedI0(points);
            var i1 := SeedI1(points, i0);
            var s := SeedsOf(points).value;
            && s.i0 == i0
            && (s == Seeds(i0, i1, s.i2) || s == Seeds(i0, s.i1, i1))
            && var i2 := if s.i1 == i1 then s.i2 else s.i1;
               FirstMinIn(RadiusScores(points, i0, i1), |points|, i2)
  {
  }

  /** The seed search fails exactly when the points are all collinear
      (which covers one point, two points and all points equal). */
  lemma SeedsFailIffCollinear(points: seq<Point>)
    requires |points| > 0
    ensures SeedsOf(points).Err? <==> AllCollinear(points)
  {
    var i0 := SeedI0(points);
    var i1 := SeedI1(points, i0);
    if AllCollinear(points) {
      CollinearHasNoRadius(points, i0, i1);
    }
    if ArgMin(RadiusScores(points, i0, i1)).None? {
      if exists k :: 0 <= k < |points| && points[k] != points[i0] {
        NoRadiusIsCollinear(points, i0, i1);
      } else {
        CoincidentIsCollinear(points, i0);
      }
    }
  }

  lemma CollinearHasNoRadius(points: seq<Point>, i0: nat, i1: nat)
    requires i0 < |points| && i1 < |points| && AllCollinear(points)
    ensures ArgMin(RadiusScores(points, i0, i1)).None?
  {
    var s := RadiusScores(points, i0, i1);
    forall k | 0 <= k < |points|
      ensures s[k].None?
    {
      assert Area(points[i0], points[i1], points[k]) == 0.0;
      AreaIsNegatedCross(points[i0], points[i1], points[k]);
    }
  }

  lemma NoRadiusIsCollinear(points: seq<Point>, i0: nat, i1: nat)
    requires i0 < |points| && i1 < |points| && points[i0] != points[i1]
    requires ArgMin(RadiusScores(points, i0, i1)).None?
    ensures AllCollinear(points)
  {
    NoRadiusOnLine(points, i0, i1);
    forall i, j, k | 0 <= i < |points| && 0 <= j < |points| && 0 <= k < |points|
      ensures Area(points[i], points[j], points[k]) == 0.0
    {
      OnOneLine(points[i0], points[i1], points[i], points[j], points[k]);
    }
  }

  /** Without a finite circumradius every point lies on the line through
      i0 and i1. */
  lemma NoRadiusOnLine(points: seq<Point>, i0: nat, i1: nat)
    requires i0 < |points| && i1 < |points|
    requires ArgMin(RadiusScores(points, i0, i1)).None?
    ensures forall k :: 0 <= k < |points| ==> Cross(points[i0], points[i1], points[k]) == 0.0
  {
    var s := RadiusScores(points, i0, i1);
    forall k | 0 <= k < |points|
      ensures Cross(points[i0], points[i1], points[k]) == 0.0
    {
      assert s[k].None?;
      if k == i0 {
        CrossWithEnd(points[i0], points[i1]);
      } else if k == i1 {
        CrossWithEnd(points[i0], points[i1]);
      }
    }
  }

  lemma CrossWithEnd(a: Point, b: Point)
    ensures Cross(a, b, a) == 0.0 && Cross(a, b, b) == 0.0
  {
  }

  lemma CoincidentIsCollinear(points: seq<Point>, i0: nat)
    requires i0 < |points| && forall k :: 0 <= k < |points| ==> points[k] == points[i0]
    ensures AllCollinear(points)
  {
    forall i, j, k | 0 <= i < |points| && 0 <= j < |points| && 0 <= k < |points|
      ensures Area(points[i], points[j], points[k]) == 0.0
    {
      assert points[i] == points[i0] && points[j] == points[i0] && points[k] == points[i0];
    }
  }

  /** Three points on the line through two distinct points a and b are
      collinear. */
  lemma OnOneLine(a: Point, b: Point, u: Point, v: Point, w: Point)
    requires a != b
    requires Cross(a, b, u) == 0.0 && Cross(a, b, v) == 0.0 && Cross(a, b, w) == 0.0
    ensures Area(u, v, w) == 0.0
  {
    var dx, dy := b.x - a.x, b.y - a.y;
    var ux, uy := u.x - a.x, u.y - a.y;
    var vx, vy := v.x - a.x, v.y - a.y;
    var wx, wy := w.x - a.x, w.y - a.y;
    Parallel(dx, dy, ux, uy, vx, vy);
    Parallel(dx, dy, vx, vy, wx, wy);
    Parallel(dx, dy, ux, uy, wx, wy);
    AreaIsNegatedCross(u, v, w);
    assert Cross(u, v, w) == (vx - ux) * (wy - uy) - (vy - uy) * (wx - ux);
    assert (vx - ux) * (wy - uy) - (vy - uy) * (wx - ux)
        == (vx * wy - vy * wx) - (ux * wy - uy * wx) + (ux * vy - uy * vx);
  }

  /** Two vectors both parallel to a non-zero vector d are parallel. */
  lemma Parallel(dx: real, dy: real, ux: real, uy: real, vx: real, vy: real)
    requires dx != 0.0 || dy != 0.0
    requires dx * uy - dy * ux == 0.0 && dx * vy - dy * vx == 0.0
    ensures ux * vy - uy * vx == 0.0
  {
    assert dx * (ux * vy - uy * vx) == ux * (dx * vy - dy * vx) - vx * (dx * uy - dy * ux);
    assert dy * (ux * vy - uy * vx) == uy * (dx * vy - dy * vx) - vy * (dx * uy - dy * ux);
  }

  /** triangulation.go `Less` on the points themselves: nearer the centre
      first, then smaller x, then smaller y. Distance decides whenever it
      differs, and a point is never before itself. */
  predicate Less(c: Point, p1: Point, p2: Point): (r: bool)
    ensures SqDist(p1, c) < SqDist(p2, c) ==> r
    ensures r ==> SqDist(p1, c) <= SqDist(p2, c) && p1 != p2
  {
    if SqDist(p1, c) != SqDist(p2, c) then SqDist(p1, c) < SqDist(p2, c)
    else if p1.x != p2.x then p1.x < p2.x
    else p1.y < p2.y
  }

  /** Less is a strict total order on points: irreflexive, transitive, and
      any two different points are ordered one way. */
  lemma LessIsStrictTotal(c: Point, p: Point, q: Point, r: Point)
    ensures !Less(c, p, p)
    ensures Less(c, p, q) ==> !Less(c, q, p)
    ensures Less(c, p, q) && Less(c, q, r) ==> Less(c, p, r)
    ensures p != q ==> Less(c, p, q) || Less(c, q, p)
  {
  }

  /** ids is a permutation of the point indices, as sort.Sort leaves it. */
  predicate IsPermutation(ids: seq<int>, n: nat) {
    |ids| == n && (forall k :: 0 <= k < n ==> 0 <= ids[k] < n) &&
    forall k, l :: 0 <= k < l < n ==> ids[k] != ids[l]
  }

  /** ids lists the points in Less order about c. */
  predicate Sorted(c: Point, points: seq<Point>, ids: seq<int>)
    requires forall k :: 0 <= k < |ids| ==> 0 <= ids[k] < |points|
  {
    forall k, l :: 0 <= k < l < |ids| ==> !Less(c, points[ids[l]], points[ids[k]])
  }

  /** In Less order the copies of a point are contiguous. */
  lemma CopiesContiguous(c: Point, points: seq<Point>, ids: seq<int>, k: nat, m: nat, l: nat)
    requires forall j :: 0 <= j < |ids| ==> 0 <= ids[j] < |points|
    requires Sorted(c, points, ids)
    requires k < m < l < |ids| && points[ids[k]] == points[ids[l]]
    ensures points[ids[m]] == points[ids[k]]
  {
    LessIsStrictTotal(c, points[ids[k]], points[ids[m]], points[ids[k]]);
  }

  /** In Less order a point has an earlier copy exactly when the point just
      before it is a copy, which is all the duplicate test of the sweep
      looks at. */
  lemma EarlierCopyIsPrevious(c: Point, points: seq<Point>, ids: seq<int>, k: nat)
    requires forall j :: 0 <= j < |ids| ==> 0 <= ids[j] < |points|
    requires Sorted(c, points, ids) && k < |ids|
    ensures (k > 0 && points[ids[k - 1]] == points[ids[k]]) <==>
            (exists l :: 0 <= l < k && points[ids[l]] == points[ids[k]])
  {
    if l :| 0 <= l < k && points[ids[l]] == points[ids[k]] {
      if l < k - 1 {
        CopiesContiguous(c, points, ids, l, k - 1, k);
      }
    }
  }
}
