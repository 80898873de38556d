/** The predicates of robust.go.

    robust.go works on points rescaled into the square [1, 2) x [1, 2), where
    every float64 is 1 + m / 2^52 for an integer mantissa m < 2^52. Each
    predicate first evaluates its polynomial in floating point, trusts the
    result when it is further than an error bound from zero, and otherwise
    re-evaluates the polynomial exactly on the mantissas with math/big.

    Here the floating-point evaluation is exact (`real`), and the mantissas
    are `int`. The contracts state that every path, fast or exact, decides
    the same sign as the corresponding predicate of util.go evaluated on the
    points' values. */
module Robust {
  import opened Util

  /** 2^52: one unit in the last place of a float64 in [1, 2) is 1 / Scale. */
  const Scale: real := 4503599627370496.0

  /** floatErr = nextafter(1, 2) - 1, which is 2^-52. */
  const FloatErr: real := 1.0 / Scale

  const InCircleErr: real := 12.0 * FloatErr

  const AreaErr: real := 12.0 * FloatErr

  /** The 52 stored mantissa bits of a float64 in [1, 2): what extractBig
      reads out of such a value. */
  type Mantissa = m: int | 0 <= m < 0x10_0000_0000_0000

  /** A point of the rescaled square, held by the mantissas of its
      coordinates. */
  datatype UnitPoint = UnitPoint(mx: Mantissa, my: Mantissa)

  /** The float64 value 1 + m / 2^52 whose mantissa is m. */
  function Value(m: Mantissa): (v: real)
    ensures 1.0 <= v < 2.0
  {
    1.0 + (m as real) / Scale
  }

  /** Distinct mantissas are distinct values, so extractBig loses nothing. */
  lemma ValueInjective(m: Mantissa, n: Mantissa)
    ensures Value(m) == Value(n) <==> m == n
  {
  }

  /** The coordinates a robust predicate receives. */
  function ToPoint(u: UnitPoint): Point {
    Point(Value(u.mx), Value(u.my))
  }

  /** The mantissas of a point, read as a point of the integer grid: the
      big.Int values extractBig produces. */
  function Grid(u: UnitPoint): Point {
    Point(u.mx as real, u.my as real)
  }

  /** big.Int's Sign. */
  function Sign(z: int): (s: int)
    ensures s == -1 || s == 0 || s == 1
    ensures s < 0 <==> z < 0
    ensures s > 0 <==> z > 0
  {
    if z < 0 then -1 else if z > 0 then 1 else 0
  }

  /** The sign of an exact real, for stating the contracts. */
  function RealSign(z: real): int {
    if z < 0.0 then -1 else if z > 0.0 then 1 else 0
  }

  /** robust.go `dot`: the squared length of (x, y). */
  function Dot(x: int, y: int): int {
    x * x + y * y
  }

  // ---------------------------------------------------------------------
  // Scaling: differences of values are differences of mantissas / 2^52.

  lemma DiffScaled(m: Mantissa, n: Mantissa)
    ensures Value(n) - Value(m) == ((n - m) as real) / Scale
  {
  }

  lemma NumScale(dx: real, dy: real, ex: real, ey: real)
    ensures NumX(dx / Scale, dy / Scale, ex / Scale, ey / Scale) * (Scale * Scale * Scale) == NumX(dx, dy, ex, ey)
    ensures NumY(dx / Scale, dy / Scale, ex / Scale, ey / Scale) * (Scale * Scale * Scale) == NumY(dx, dy, ex, ey)
  {
  }

  lemma LiftedScale(ux: real, uy: real, vx: real, vy: real, wx: real, wy: real)
    ensures Lifted(ux / Scale, uy / Scale, vx / Scale, vy / Scale, wx / Scale, wy / Scale)
            * (Scale * Scale * Scale * Scale)
            == Lifted(ux, uy, vx, vy, wx, wy)
  {
  }

  /** The in-circle determinant of the values is that of the mantissas
      divided by 2^208, so the two have the same sign. */
  lemma InCircleScale(a: UnitPoint, b: UnitPoint, c: UnitPoint, p: UnitPoint)
    ensures InCircle(ToPoint(a), ToPoint(b), ToPoint(c), ToPoint(p))
            <==> InCircle(Grid(a), Grid(b), Grid(c), Grid(p))
  {
    var A, B, C, P := ToPoint(a), ToPoint(b), ToPoint(c), ToPoint(p);
    var ga, gb, gc, gp := Grid(a), Grid(b), Grid(c), Grid(p);
    var ux, uy := gb.x - ga.x, gb.y - ga.y;
    var vx, vy := gc.x - ga.x, gc.y - ga.y;
    var wx, wy := gp.x - ga.x, gp.y - ga.y;
    InCircleDetIsLifted(A, B, C, P);
    InCircleDetIsLifted(ga, gb, gc, gp);
    DiffScaled(a.mx, b.mx);
    DiffScaled(a.my, b.my);
    DiffScaled(a.mx, c.mx);
    DiffScaled(a.my, c.my);
    DiffScaled(a.mx, p.mx);
    DiffScaled(a.my, p.my);
    assert B.x - A.x == ux / Scale && B.y - A.y == uy / Scale;
    assert C.x - A.x == vx / Scale && C.y - A.y == vy / Scale;
    assert P.x - A.x == wx / Scale && P.y - A.y == wy / Scale;
    LiftedScale(ux, uy, vx, vy, wx, wy);
  }

  /** The area of the values is that of the mantissas divided by 2^104. */
  lemma AreaScale(a: UnitPoint, b: UnitPoint, c: UnitPoint)
    ensures Area(ToPoint(a), ToPoint(b), ToPoint(c)) * (Scale * Scale) == Area(Grid(a), Grid(b), Grid(c))
  {
    DiffScaled(a.mx, b.mx);
    DiffScaled(a.my, b.my);
    DiffScaled(b.mx, c.mx);
    DiffScaled(b.my, c.my);
    AreaOfScaled(ToPoint(a), ToPoint(b), ToPoint(c), Grid(a), Grid(b), Grid(c));
  }

  /** Points whose differences are those of other points divided by Scale
      have their area divided by Scale^2. */
  lemma AreaOfScaled(a: Point, b: Point, c: Point, ga: Point, gb: Point, gc: Point)
    requires b.x - a.x == (gb.x - ga.x) / Scale && b.y - a.y == (gb.y - ga.y) / Scale
    requires c.x - b.x == (gc.x - gb.x) / Scale && c.y - b.y == (gc.y - gb.y) / Scale
    ensures Area(a, b, c) * (Scale * Scale) == Area(ga, gb, gc)
  {
    TwoByTwoScale(gb.y - ga.y, gc.x - gb.x, gb.x - ga.x, gc.y - gb.y);
  }

  /** A 2x2 determinant of entries divided by Scale is the determinant
      divided by Scale^2. */
  lemma TwoByTwoScale(p: real, q: real, u: real, v: real)
    ensures ((p / Scale) * (q / Scale) - (u / Scale) * (v / Scale)) * (Scale * Scale) == p * q - u * v
  {
  }

  lemma CrossScale(p: UnitPoint, a: UnitPoint, b: UnitPoint)
    ensures Cross(ToPoint(p), ToPoint(a), ToPoint(b)) * (Scale * Scale) == Cross(Grid(p), Grid(a), Grid(b))
  {
    DiffScaled(p.mx, a.mx);
    DiffScaled(p.my, a.my);
    DiffScaled(p.mx, b.mx);
    DiffScaled(p.my, b.my);
  }

  lemma DistanceScale(p: UnitPoint, a: UnitPoint, b: UnitPoint)
    ensures (SqDist(ToPoint(p), ToPoint(a)) - SqDist(ToPoint(p), ToPoint(b))) * (Scale * Scale)
            == SqDist(Grid(p), Grid(a)) - SqDist(Grid(p), Grid(b))
  {
    DiffScaled(p.mx, a.mx);
    DiffScaled(p.my, a.my);
    DiffScaled(p.mx, b.mx);
    DiffScaled(p.my, b.my);
  }

  // ---------------------------------------------------------------------
  // The exact branches, on big integers.

  /** The polynomial exactInCircle accumulates, on b, c and p already
      translated by -a. */
  function ExactInCirclePoly(xb: int, yb: int, xc: int, yc: int, xp: int, yp: int): int {
    var br2, cr2, pr2 := Dot(xb, yb), Dot(xc, yc), Dot(xp, yp);
    0 + br2 * yc * xp - br2 * xc * yp + xb * cr2 * yp - xb * yc * pr2 + yb * xc * pr2 - yb * cr2 * xp
  }

  /** Go's exactInCircle subtracts a from the other points in place first. */
  function ExactInCircleValue(xa: int, ya: int, xb: int, yb: int, xc: int, yc: int, xp: int, yp: int): int {
    ExactInCirclePoly(xb - xa, yb - ya, xc - xa, yc - ya, xp - xa, yp - ya)
  }

  lemma CastMul3(x: int, y: int, z: int)
    ensures (x * y * z) as real == (x as real) * (y as real) * (z as real)
  {
  }

  lemma CastDot(x: int, y: int)
    ensures Dot(x, y) as real == (x as real) * (x as real) + (y as real) * (y as real)
  {
  }

  /** The six-term expansion of the lifted determinant, over plain reals. */
  lemma LiftedExpanded(ux: real, uy: real, vx: real, vy: real, wx: real, wy: real,
                       bl: real, cl: real, wl: real)
    requires bl == ux * ux + uy * uy && cl == vx * vx + vy * vy && wl == wx * wx + wy * wy
    ensures Lifted(ux, uy, vx, vy, wx, wy)
            == bl * vy * wx - bl * vx * wy + ux * cl * wy - ux * vy * wl + uy * vx * wl - uy * cl * wx
  {
  }

  /** The exact polynomial is util.go's lifted determinant on the integer
      points. */
  lemma ExactInCirclePolyIsLifted(xb: int, yb: int, xc: int, yc: int, xp: int, yp: int)
    ensures ExactInCirclePoly(xb, yb, xc, yc, xp, yp) as real
            == Lifted(xb as real, yb as real, xc as real, yc as real, xp as real, yp as real)
  {
    var br2, cr2, pr2 := Dot(xb, yb), Dot(xc, yc), Dot(xp, yp);
    CastDot(xb, yb);
    CastDot(xc, yc);
    CastDot(xp, yp);
    CastMul3(br2, yc, xp);
    CastMul3(br2, xc, yp);
    CastMul3(xb, cr2, yp);
    CastMul3(xb, yc, pr2);
    CastMul3(yb, xc, pr2);
    CastMul3(yb, cr2, xp);
    LiftedExpanded(xb as real, yb as real, xc as real, yc as real, xp as real, yp as real,
                   br2 as real, cr2 as real, pr2 as real);
  }

  lemma ExactInCircleValueIsLifted(xa: int, ya: int, xb: int, yb: int, xc: int, yc: int, xp: int, yp: int)
    ensures ExactInCircleValue(xa, ya, xb, yb, xc, yc, xp, yp) as real
            == Lifted((xb - xa) as real, (yb - ya) as real, (xc - xa) as real, (yc - ya) as real,
                      (xp - xa) as real, (yp - ya) as real)
  {
    ExactInCirclePolyIsLifted(xb - xa, yb - ya, xc - xa, yc - ya, xp - xa, yp - ya);
  }

  /** robust.go `exactInCircle`: on integer coordinates it decides exactly
      util.go's inCircle, although it expands the determinant around a
      instead of around p. */
  function ExactInCircle(xa: int, ya: int, xb: int, yb: int, xc: int, yc: int, xp: int, yp: int): (r: bool)
    ensures r <==> InCircle(Point(xa as real, ya as real), Point(xb as real, yb as real),
                            Point(xc as real, yc as real), Point(xp as real, yp as real))
  {
    ExactInCircleValueIsLifted(xa, ya, xb, yb, xc, yc, xp, yp);
    InCircleDetIsLifted(Point(xa as real, ya as real), Point(xb as real, yb as real),
                        Point(xc as real, yc as real), Point(xp as real, yp as real));
    Sign(ExactInCircleValue(xa, ya, xb, yb, xc, yc, xp, yp)) < 0
  }

  /** robust.go `robustInCircle`. Whichever path decides, the answer is
      util.go's inCircle on the point values. */
  function RobustInCircle(robust: bool, a: UnitPoint, b: UnitPoint, c: UnitPoint, p: UnitPoint): (r: bool)
    ensures r == InCircle(ToPoint(a), ToPoint(b), ToPoint(c), ToPoint(p))
  {
    var d := InCircleDet(ToPoint(a), ToPoint(b), ToPoint(c), ToPoint(p));
    if !robust then d < 0.0
    else if d < -InCircleErr then true
    else if d > InCircleErr then false
    else
      InCircleScale(a, b, c, p);
      ExactInCircle(a.mx, a.my, b.mx, b.my, c.mx, c.my, p.mx, p.my)
  }

  /** The exact branch of robustOrient: (yb - ya)(xc - xb) - (xb - xa)(yc - yb). */
  function ExactOrientValue(xa: int, ya: int, xb: int, yb: int, xc: int, yc: int): (v: int)
    ensures v as real == Area(Point(xa as real, ya as real), Point(xb as real, yb as real), Point(xc as real, yc as real))
  {
    var bay, cbx, bax, cby := yb - ya, xc - xb, xb - xa, yc - yb;
    bay * cbx - bax * cby
  }

  /** robust.go `robustOrient`: true when a, b, c wind the other way from the
      triangulator's positive area. */
  function RobustOrient(robust: bool, a: UnitPoint, b: UnitPoint, c: UnitPoint): (r: bool)
    ensures r == (Area(ToPoint(a), ToPoint(b), ToPoint(c)) < 0.0)
  {
    var d := Area(ToPoint(a), ToPoint(b), ToPoint(c));
    if !robust then d < 0.0
    else if d < -AreaErr then true
    else if d > AreaErr then false
    else
      AreaScale(a, b, c);
      Sign(ExactOrientValue(a.mx, a.my, b.mx, b.my, c.mx, c.my)) < 0
  }

  /** The exact branch of robustCross2D: (xa - xp)(yb - yp) - (ya - yp)(xb - xp). */
  function ExactCrossValue(xp: int, yp: int, xa: int, ya: int, xb: int, yb: int): (v: int)
    ensures v as real == Cross(Point(xp as real, yp as real), Point(xa as real, ya as real), Point(xb as real, yb as real))
  {
    var apx, bpy, apy, bpx := xa - xp, yb - yp, ya - yp, xb - xp;
    apx * bpy - apy * bpx
  }

  /** robust.go `robustCross2D`: the sign of (a - p) x (b - p). It never
      consults `robust`. */
  function RobustCross2D(robust: bool, p: UnitPoint, a: UnitPoint, b: UnitPoint): (r: int)
    ensures r == RealSign(Cross(ToPoint(p), ToPoint(a), ToPoint(b)))
    ensures r == -1 || r == 0 || r == 1
  {
    var d := Cross(ToPoint(p), ToPoint(a), ToPoint(b));
    if d < -AreaErr then -1
    else if d > AreaErr then 1
    else
      CrossScale(p, a, b);
      Sign(ExactCrossValue(p.mx, p.my, a.mx, a.my, b.mx, b.my))
  }

  /** Exchanging a and b negates robustCross2D, and `robust` is ignored. */
  lemma RobustCross2DAntisymmetric(robust: bool, p: UnitPoint, a: UnitPoint, b: UnitPoint)
    ensures RobustCross2D(robust, p, a, b) == -RobustCross2D(robust, p, b, a)
    ensures RobustCross2D(robust, p, a, b) == RobustCross2D(!robust, p, a, b)
  {
    var P, A, B := ToPoint(p), ToPoint(a), ToPoint(b);
    assert Cross(P, B, A) == -Cross(P, A, B);
  }

  /** The exact branch of robustDistanceComparison:
      dot(a - p) - dot(b - p). */
  function ExactDistanceValue(xp: int, yp: int, xa: int, ya: int, xb: int, yb: int): (v: int)
    ensures v as real == SqDist(Point(xp as real, yp as real), Point(xa as real, ya as real))
                         - SqDist(Point(xp as real, yp as real), Point(xb as real, yb as real))
  {
    Dot(xa - xp, ya - yp) - Dot(xb - xp, yb - yp)
  }

  /** math.Copysign(1, d) converted to int; in exact arithmetic there is no
      negative zero. */
  function CopySignOne(d: real): (r: int)
    ensures r == 1 <==> d >= 0.0
    ensures r == -1 <==> d < 0.0
  {
    if d < 0.0 then -1 else 1
  }

  /** robust.go `robustDistanceComparison`: compares |p - a| with |p - b|.
      On the robust path it is the exact sign of the difference of squared
      distances; on the plain path it is Copysign, which never yields 0. */
  function RobustDistanceComparison(robust: bool, p: UnitPoint, a: UnitPoint, b: UnitPoint): (r: int)
    ensures var d := SqDist(ToPoint(p), ToPoint(a)) - SqDist(ToPoint(p), ToPoint(b));
            robust ==> r == RealSign(d)
    ensures var d := SqDist(ToPoint(p), ToPoint(a)) - SqDist(ToPoint(p), ToPoint(b));
            !robust ==> (r == 1 <==> d >= 0.0) && (r == -1 <==> d < 0.0)
  {
    var d := SqDist(ToPoint(p), ToPoint(a)) - SqDist(ToPoint(p), ToPoint(b));
    if !robust || d < -AreaErr || d > AreaErr then CopySignOne(d)
    else
      DistanceScale(p, a, b);
      Sign(ExactDistanceValue(p.mx, p.my, a.mx, a.my, b.mx, b.my))
  }

  /** On the robust path the comparison is antisymmetric in a and b. */
  lemma RobustDistanceComparisonAntisymmetric(p: UnitPoint, a: UnitPoint, b: UnitPoint)
    ensures RobustDistanceComparison(true, p, a, b) == -RobustDistanceComparison(true, p, b, a)
  {
  }

  /** On the plain path a tie is reported as 1 in both orders, so that path
      is not antisymmetric. */
  lemma PlainDistanceComparisonTie(p: UnitPoint, a: UnitPoint)
    ensures RobustDistanceComparison(false, p, a, a) == 1
    ensures RobustDistanceComparison(true, p, a, a) == 0
  {
  }
}
