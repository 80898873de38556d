/** The geometric helpers of util.go, evaluated in exact real arithmetic.

    Coordinates are `real`, so every product and quotient is exact: there is
    no rounding, no infinity and no NaN. Where Go would produce an infinite
    or NaN value the model uses a datatype variant instead (`Infinite` for
    circumradius, `None` for circumcenter). */
module Util {
  import opened Results

  datatype Point = Point(x: real, y: real)

  /** Squared Euclidean distance. Comparing Go's `distance` (a hypotenuse)
      of two pairs is the same as comparing their squared distances. */
  function SqDist(a: Point, b: Point): real {
    (a.x - b.x) * (a.x - b.x) + (a.y - b.y) * (a.y - b.y)
  }

  /** util.go `area`: twice the signed area of (a, b, c), positive when the
      triple winds clockwise in y-up axes (counter-clockwise on screen). */
  function Area(a: Point, b: Point, c: Point): (r: real)
    ensures a == b || b == c || c == a ==> r == 0.0
  {
    (b.y - a.y) * (c.x - b.x) - (b.x - a.x) * (c.y - b.y)
  }

  /** The cross product (b - a) x (c - a): the denominator `d` shared by
      circumradius and circumcenter. */
  function Cross(a: Point, b: Point, c: Point): real {
    (b.x - a.x) * (c.y - a.y) - (b.y - a.y) * (c.x - a.x)
  }

  lemma AreaIsNegatedCross(a: Point, b: Point, c: Point)
    ensures Area(a, b, c) == -Cross(a, b, c)
  {
    var ux, uy := b.x - a.x, b.y - a.y;
    var vx, vy := c.x - b.x, c.y - b.y;
    assert c.x - a.x == ux + vx && c.y - a.y == uy + vy;
    assert Cross(a, b, c) == ux * (uy + vy) - uy * (ux + vx);
    assert ux * (uy + vy) - uy * (ux + vx) == ux * vy - uy * vx;
  }

  /** Exchanging the last two points negates the area. */
  lemma AreaSwap(a: Point, b: Point, c: Point)
    ensures Area(a, c, b) == -Area(a, b, c)
  {
    AreaIsNegatedCross(a, b, c);
    AreaIsNegatedCross(a, c, b);
  }

  /** A triangle with a repeated corner has zero area. */
  lemma AreaDegenerate(a: Point, b: Point)
    ensures Area(a, a, b) == 0.0 && Area(a, b, b) == 0.0 && Area(a, b, a) == 0.0
  {
    assert (b.y - a.y) * (a.x - b.x) == (b.x - a.x) * (a.y - b.y);
  }

  /** The area is invariant under the cyclic rotation (a, b, c) -> (b, c, a). */
  lemma AreaRotate(a: Point, b: Point, c: Point)
    ensures Area(b, c, a) == Area(a, b, c)
  {
    AreaIsNegatedCross(a, b, c);
    AreaIsNegatedCross(b, c, a);
    var ux, uy := b.x - a.x, b.y - a.y;
    var vx, vy := c.x - a.x, c.y - a.y;
    assert Cross(b, c, a) == (vx - ux) * (-uy) - (vy - uy) * (-ux);
    assert (vx - ux) * (-uy) - (vy - uy) * (-ux) == ux * vy - uy * vx;
  }

  /** util.go `inCircle`'s expression over the differences a - p, b - p
      and c - p. */
  function InCircleExpr(dx: real, dy: real, ex: real, ey: real, fx: real, fy: real): real {
    var ap := dx * dx + dy * dy;
    var bp := ex * ex + ey * ey;
    var cp := fx * fx + fy * fy;
    dx * (ey * cp - bp * fy) - dy * (ex * cp - bp * fx) + ap * (ex * fy - ey * fx)
  }

  /** The determinant util.go `inCircle` compares with zero, with every
      point translated by -p. */
  function InCircleDet(a: Point, b: Point, c: Point, p: Point): real {
    InCircleExpr(a.x - p.x, a.y - p.y, b.x - p.x, b.y - p.y, c.x - p.x, c.y - p.y)
  }

  /** util.go `inCircle`: the comparison is strict, so a corner of the
      triangle itself, or any repeated point, is never inside. */
  predicate InCircle(a: Point, b: Point, c: Point, p: Point): (r: bool)
    ensures p == a || p == b || p == c ==> !r
    ensures a == b || b == c || c == a ==> !r
  {
    InCircleDet(a, b, c, p) < 0.0
  }

  /** The numerators of the circumcenter offset from a, given b - a = (dx, dy)
      and c - a = (ex, ey); they are also the cofactors of the lifted
      determinant. */
  function NumX(dx: real, dy: real, ex: real, ey: real): real {
    ey * (dx * dx + dy * dy) - dy * (ex * ex + ey * ey)
  }

  function NumY(dx: real, dy: real, ex: real, ey: real): real {
    dx * (ex * ex + ey * ey) - ex * (dx * dx + dy * dy)
  }

  /** The same in-circle determinant with every point translated by -a
      instead: u = b - a, v = c - a, w = p - a. It is the form that
      robust.go's exact test evaluates. */
  function Lifted(ux: real, uy: real, vx: real, vy: real, wx: real, wy: real): real {
    NumX(ux, uy, vx, vy) * wx + NumY(ux, uy, vx, vy) * wy - (wx * wx + wy * wy) * (ux * vy - uy * vx)
  }

  /** A determinant identity in six variables: the p-translated expansion
      equals the a-translated one. */
  lemma DetTranslation(ux: real, uy: real, vx: real, vy: real, wx: real, wy: real)
    ensures InCircleExpr(-wx, -wy, ux - wx, uy - wy, vx - wx, vy - wy) == Lifted(ux, uy, vx, vy, wx, wy)
  {
  }

  lemma InCircleDetIsLifted(a: Point, b: Point, c: Point, p: Point)
    ensures InCircleDet(a, b, c, p)
            == Lifted(b.x - a.x, b.y - a.y, c.x - a.x, c.y - a.y, p.x - a.x, p.y - a.y)
  {
    var ux, uy := b.x - a.x, b.y - a.y;
    var vx, vy := c.x - a.x, c.y - a.y;
    var wx, wy := p.x - a.x, p.y - a.y;
    DetTranslation(ux, uy, vx, vy, wx, wy);
    assert a.x - p.x == -wx && a.y - p.y == -wy;
    assert b.x - p.x == ux - wx && b.y - p.y == uy - wy;
    assert c.x - p.x == vx - wx && c.y - p.y == vy - wy;
  }

  /** The circumradius of a triple, or the infinity Go uses to mark a
      degenerate one. */
  datatype Radius = Infinite | Finite(r: real)

  /** The offset of the circumcenter from a, given b - a = (dx, dy) and
      c - a = (ex, ey), as util.go computes it. */
  function OffsetX(dx: real, dy: real, ex: real, ey: real): real
    requires dx * ey - dy * ex != 0.0
  {
    NumX(dx, dy, ex, ey) * 0.5 / (dx * ey - dy * ex)
  }

  function OffsetY(dx: real, dy: real, ex: real, ey: real): real
    requires dx * ey - dy * ex != 0.0
  {
    NumY(dx, dy, ex, ey) * 0.5 / (dx * ey - dy * ex)
  }

  /** The offset is the numerator scaled by k = 0.5 / d. */
  lemma OffsetIsScaled(dx: real, dy: real, ex: real, ey: real)
    requires dx * ey - dy * ex != 0.0
    ensures 0.5 / (dx * ey - dy * ex) * (dx * ey - dy * ex) == 0.5
    ensures OffsetX(dx, dy, ex, ey) == NumX(dx, dy, ex, ey) * (0.5 / (dx * ey - dy * ex))
    ensures OffsetY(dx, dy, ex, ey) == NumY(dx, dy, ex, ey) * (0.5 / (dx * ey - dy * ex))
  {
    DivScale(NumX(dx, dy, ex, ey), dx * ey - dy * ex);
    DivScale(NumY(dx, dy, ex, ey), dx * ey - dy * ex);
  }

  /** Halving and dividing by d is multiplying by 0.5 / d. */
  lemma DivScale(n: real, d: real)
    requires d != 0.0
    ensures n * 0.5 / d == n * (0.5 / d) && 0.5 / d * d == 0.5
  {
  }

  lemma NumIdentities(dx: real, dy: real, ex: real, ey: real)
    ensures NumX(dx, dy, ex, ey) * dx + NumY(dx, dy, ex, ey) * dy == (dx * dx + dy * dy) * (dx * ey - dy * ex)
    ensures NumX(dx, dy, ex, ey) * ex + NumY(dx, dy, ex, ey) * ey == (ex * ex + ey * ey) * (dx * ey - dy * ex)
  {
  }

  lemma SolveScaled(X: real, Y: real, k: real, d: real, u: real, v: real, l: real)
    requires k * d == 0.5 && X * u + Y * v == l * d
    ensures 2.0 * ((X * k) * u + (Y * k) * v) == l
  {
    calc {
      2.0 * ((X * k) * u + (Y * k) * v);
      2.0 * k * (X * u + Y * v);
      2.0 * k * (l * d);
      l * (2.0 * (k * d));
    }
  }

  /** The offset solves the two linear equations that make the
      circumcenter equidistant from a, b and c. */
  lemma OffsetEquations(dx: real, dy: real, ex: real, ey: real)
    requires dx * ey - dy * ex != 0.0
    ensures 2.0 * (OffsetX(dx, dy, ex, ey) * dx + OffsetY(dx, dy, ex, ey) * dy) == dx * dx + dy * dy
    ensures 2.0 * (OffsetX(dx, dy, ex, ey) * ex + OffsetY(dx, dy, ex, ey) * ey) == ex * ex + ey * ey
  {
    var d := dx * ey - dy * ex;
    var X, Y := NumX(dx, dy, ex, ey), NumY(dx, dy, ex, ey);
    var k := 0.5 / d;
    OffsetIsScaled(dx, dy, ex, ey);
    NumIdentities(dx, dy, ex, ey);
    SolveScaled(X, Y, k, d, dx, dy, dx * dx + dy * dy);
    SolveScaled(X, Y, k, d, ex, ey, ex * ex + ey * ey);
  }

  lemma Equidistant(x: real, y: real, ux: real, uy: real)
    requires 2.0 * (x * ux + y * uy) == ux * ux + uy * uy
    ensures (x - ux) * (x - ux) + (y - uy) * (y - uy) == x * x + y * y
  {
  }

  /** A product with a nonzero factor is zero only when the other factor
      is. */
  lemma ZeroProduct(a: real, b: real)
    requires a != 0.0 && a * b == 0.0
    ensures b == 0.0
  {
  }

  /** util.go `circumcenter`. Go divides by d = Cross(a, b, c) and, when d
      is zero, returns a point with non-finite coordinates; the model returns
      None for that case. */
  function Circumcenter(a: Point, b: Point, c: Point): (o: Option<Point>)
    ensures o.Some? <==> Cross(a, b, c) != 0.0
    ensures o.Some? ==> SqDist(o.value, a) == SqDist(o.value, b)
    ensures o.Some? ==> SqDist(o.value, a) == SqDist(o.value, c)
  {
    if Cross(a, b, c) == 0.0 then None else Some(CenterOf(a, b, c))
  }

  /** The finite branch of `circumcenter`: a displaced by the offset, which
      is as far from b and from c as from a. */
  function CenterOf(a: Point, b: Point, c: Point): (o: Point)
    requires Cross(a, b, c) != 0.0
    ensures SqDist(o, a) == SqDist(o, b) && SqDist(o, a) == SqDist(o, c)
  {
    var dx, dy := b.x - a.x, b.y - a.y;
    var ex, ey := c.x - a.x, c.y - a.y;
    var x, y := OffsetX(dx, dy, ex, ey), OffsetY(dx, dy, ex, ey);
    OffsetDistances(a, b, c, dx, dy, ex, ey);
    Point(a.x + x, a.y + y)
  }

  /** The three squared distances from a + offset, each equal to the
      squared length of the offset. */
  lemma OffsetDistances(a: Point, b: Point, c: Point, dx: real, dy: real, ex: real, ey: real)
    requires dx == b.x - a.x && dy == b.y - a.y && ex == c.x - a.x && ey == c.y - a.y
    requires dx * ey - dy * ex != 0.0
    ensures var x, y := OffsetX(dx, dy, ex, ey), OffsetY(dx, dy, ex, ey);
            && SqDist(Point(a.x + x, a.y + y), a) == x * x + y * y
            && SqDist(Point(a.x + x, a.y + y), b) == x * x + y * y
            && SqDist(Point(a.x + x, a.y + y), c) == x * x + y * y
  {
    var x, y := OffsetX(dx, dy, ex, ey), OffsetY(dx, dy, ex, ey);
    assert 2.0 * (x * dx + y * dy) == dx * dx + dy * dy by {
      OffsetEquations(dx, dy, ex, ey);
    }
    assert 2.0 * (x * ex + y * ey) == ex * ex + ey * ey by {
      OffsetEquations(dx, dy, ex, ey);
    }
    CenterDistances(a, b, dx, dy, x, y);
    CenterDistances(a, c, ex, ey, x, y);
  }

  /** a + (x, y) is as far from b as from a when (x, y) solves the
      perpendicular-bisector equation of a and b = a + (ux, uy). */
  lemma CenterDistances(a: Point, b: Point, ux: real, uy: real, x: real, y: real)
    requires ux == b.x - a.x && uy == b.y - a.y
    requires 2.0 * (x * ux + y * uy) == ux * ux + uy * uy
    ensures SqDist(Point(a.x + x, a.y + y), a) == x * x + y * y
    ensures SqDist(Point(a.x + x, a.y + y), b) == x * x + y * y
  {
    var o := Point(a.x + x, a.y + y);
    Equidistant(x, y, ux, uy);
    assert o.x - a.x == x && o.y - a.y == y;
    assert o.x - b.x == x - ux && o.y - b.y == y - uy;
  }

  /** A product of two positive reals is positive. */
  function Product(a: real, b: real): (r: real)
    ensures a > 0.0 && b > 0.0 ==> r > 0.0
  {
    a * b
  }

  /** z * z, with the sign facts the circumradius guards depend on. */
  function Sq(z: real): (r: real)
    ensures r == z * z
    ensures r >= 0.0
    ensures z != 0.0 ==> r > 0.0
  {
    if z > 0.0 then Product(z, z) else if z < 0.0 then Product(-z, -z) else 0.0
  }

  /** A non-zero vector has a positive squared length. */
  lemma SumSquaresPositive(u: real, v: real)
    requires u != 0.0 || v != 0.0
    ensures Sq(u) + Sq(v) > 0.0
  {
  }

  /** With d != 0 none of Go's other guards can fire. */
  lemma CircumradiusPositive(dx: real, dy: real, ex: real, ey: real)
    requires dx * ey - dy * ex != 0.0
    ensures Sq(dx) + Sq(dy) > 0.0 && Sq(ex) + Sq(ey) > 0.0
    ensures Sq(OffsetX(dx, dy, ex, ey)) + Sq(OffsetY(dx, dy, ex, ey)) > 0.0
  {
    if dx == 0.0 && dy == 0.0 {
      assert false;
    }
    SumSquaresPositive(dx, dy);
    if ex == 0.0 && ey == 0.0 {
      assert false;
    }
    SumSquaresPositive(ex, ey);
    var x, y := OffsetX(dx, dy, ex, ey), OffsetY(dx, dy, ex, ey);
    OffsetEquations(dx, dy, ex, ey);
    if x == 0.0 && y == 0.0 {
      assert false;
    }
    SumSquaresPositive(x, y);
  }

  /** util.go `circumradius` on the differences b - a = (dx, dy) and
      c - a = (ex, ey): Go computes the squared offset first and then tests
      its four guards. */
  function RadiusOf(dx: real, dy: real, ex: real, ey: real): (r: Radius)
    ensures r.Infinite? <==> dx * ey - dy * ex == 0.0
    ensures r.Finite? ==> r.r > 0.0
    ensures r.Finite? ==> r.r == Sq(OffsetX(dx, dy, ex, ey)) + Sq(OffsetY(dx, dy, ex, ey))
  {
    var bl := Sq(dx) + Sq(dy);
    var cl := Sq(ex) + Sq(ey);
    var d := dx * ey - dy * ex;
    if d == 0.0 then Infinite
    else
      var r := Sq(OffsetX(dx, dy, ex, ey)) + Sq(OffsetY(dx, dy, ex, ey));
      CircumradiusPositive(dx, dy, ex, ey);
      if bl == 0.0 || cl == 0.0 || r == 0.0 then Infinite
      else Finite(r)
  }

  /** The circumcenter is a displaced by the offset. */
  lemma CircumcenterIsOffset(a: Point, b: Point, c: Point)
    requires Cross(a, b, c) != 0.0
    ensures var dx, dy, ex, ey := b.x - a.x, b.y - a.y, c.x - a.x, c.y - a.y;
            var x, y := OffsetX(dx, dy, ex, ey), OffsetY(dx, dy, ex, ey);
            && Circumcenter(a, b, c) == Some(Point(a.x + x, a.y + y))
            && SqDist(Point(a.x + x, a.y + y), a) == x * x + y * y
  {
    var dx, dy, ex, ey := b.x - a.x, b.y - a.y, c.x - a.x, c.y - a.y;
    OffsetDistances(a, b, c, dx, dy, ex, ey);
  }

  /** util.go `circumradius`: the SQUARED radius of the circle through a, b
      and c, or Infinite for a degenerate triple. Go tests four guards
      (b == a, c == a, collinear, zero radius); in exact arithmetic they
      all reduce to collinearity. */
  function Circumradius(a: Point, b: Point, c: Point): (r: Radius)
    ensures r.Infinite? <==> Cross(a, b, c) == 0.0
    ensures r.Finite? ==> r.r > 0.0 && r.r == SqDist(Circumcenter(a, b, c).value, a)
  {
    var r := RadiusOf(b.x - a.x, b.y - a.y, c.x - a.x, c.y - a.y);
    if r.Finite? then
      CircumcenterIsOffset(a, b, c);
      r
    else r
  }

  /** The power of p with respect to a circle centred at a + (x, y) through a. */
  lemma PowerOfPoint(a: Point, p: Point, x: real, y: real)
    ensures var wx, wy := p.x - a.x, p.y - a.y;
            SqDist(Point(a.x + x, a.y + y), a) - SqDist(Point(a.x + x, a.y + y), p)
            == 2.0 * (x * wx + y * wy) - (wx * wx + wy * wy)
  {
    var o := Point(a.x + x, a.y + y);
    var wx, wy := p.x - a.x, p.y - a.y;
    assert o.x - a.x == x && o.y - a.y == y;
    assert o.x - p.x == x - wx && o.y - p.y == y - wy;
  }

  /** The a-translated determinant is d times the power of w with respect
      to the circle centred at (x, y) = k (NumX, NumY), where k d = 1/2:
      the offset of the circumcenter (see OffsetIsScaled). */
  lemma LiftedIsScaledPower(dx: real, dy: real, ex: real, ey: real, wx: real, wy: real,
                            k: real, x: real, y: real)
    requires k * (dx * ey - dy * ex) == 0.5
    requires x == NumX(dx, dy, ex, ey) * k && y == NumY(dx, dy, ex, ey) * k
    ensures Lifted(dx, dy, ex, ey, wx, wy)
            == (dx * ey - dy * ex) * (2.0 * (x * wx + y * wy) - (wx * wx + wy * wy))
  {
    ScaledPower(Lifted(dx, dy, ex, ey, wx, wy), NumX(dx, dy, ex, ey), NumY(dx, dy, ex, ey),
                k, dx * ey - dy * ex, x, y, wx, wy);
  }

  /** The algebra of LiftedIsScaledPower over plain reals. */
  lemma ScaledPower(l: real, X: real, Y: real, k: real, d: real, x: real, y: real, wx: real, wy: real)
    requires l == X * wx + Y * wy - (wx * wx + wy * wy) * d
    requires k * d == 0.5 && x == X * k && y == Y * k
    ensures l == d * (2.0 * (x * wx + y * wy) - (wx * wx + wy * wy))
  {
    calc {
      d * (2.0 * (x * wx + y * wy));
      d * (2.0 * ((X * k) * wx + (Y * k) * wy));
      2.0 * (k * d) * (X * wx + Y * wy);
      X * wx + Y * wy;
    }
  }

  /** The in-circle determinant is the cross product times the power of p
      with respect to the circumcircle: it vanishes exactly on the circle. */
  lemma InCircleDetIsPower(a: Point, b: Point, c: Point, p: Point)
    requires Cross(a, b, c) != 0.0
    ensures var o := Circumcenter(a, b, c).value;
            InCircleDet(a, b, c, p) == Cross(a, b, c) * (SqDist(o, a) - SqDist(o, p))
  {
    hide InCircleDet, Lifted, SqDist, NumX, NumY;  // the steps below rest on lemma contracts
    var dx, dy, ex, ey := b.x - a.x, b.y - a.y, c.x - a.x, c.y - a.y;
    var wx, wy := p.x - a.x, p.y - a.y;
    assert dx * ey - dy * ex == Cross(a, b, c);
    var x, y := OffsetX(dx, dy, ex, ey), OffsetY(dx, dy, ex, ey);
    var o := Point(a.x + x, a.y + y);
    assert Circumcenter(a, b, c).value == o by {
      CircumcenterIsOffset(a, b, c);
    }
    assert InCircleDet(a, b, c, p) == Lifted(dx, dy, ex, ey, wx, wy) by {
      InCircleDetIsLifted(a, b, c, p);
    }
    assert Lifted(dx, dy, ex, ey, wx, wy)
           == (dx * ey - dy * ex) * (2.0 * (x * wx + y * wy) - (wx * wx + wy * wy)) by {
      OffsetIsScaled(dx, dy, ex, ey);
      LiftedIsScaledPower(dx, dy, ex, ey, wx, wy, 0.5 / (dx * ey - dy * ex), x, y);
    }
    assert SqDist(o, a) - SqDist(o, p) == 2.0 * (x * wx + y * wy) - (wx * wx + wy * wy) by {
      PowerOfPoint(a, p, x, y);
    }
    Chain(InCircleDet(a, b, c, p), Lifted(dx, dy, ex, ey, wx, wy), dx * ey - dy * ex, Cross(a, b, c),
          2.0 * (x * wx + y * wy) - (wx * wx + wy * wy), SqDist(o, a) - SqDist(o, p));
  }

  lemma Chain(det: real, l: real, d: real, cr: real, s: real, pw: real)
    requires det == l && l == d * s && cr == d && pw == s
    ensures det == cr * pw
  {
  }

  /** For a triple with the triangulator's winding (positive Area), inCircle
      holds exactly when p lies strictly inside the circumcircle. */
  lemma InCircleIffInside(a: Point, b: Point, c: Point, p: Point)
    requires Area(a, b, c) > 0.0
    ensures Cross(a, b, c) != 0.0
    ensures InCircle(a, b, c, p)
            <==> SqDist(Circumcenter(a, b, c).value, p) < SqDist(Circumcenter(a, b, c).value, a)
  {
    AreaIsNegatedCross(a, b, c);
    InCircleDetIsPower(a, b, c, p);
    var o := Circumcenter(a, b, c).value;
    NegativeTimes(Cross(a, b, c), SqDist(o, a) - SqDist(o, p));
  }

  /** With a negative first factor, the product is negative exactly when
      the second factor is positive. */
  lemma NegativeTimes(cr: real, pw: real)
    requires cr < 0.0
    ensures cr * pw < 0.0 <==> pw > 0.0
  {
    if pw > 0.0 {
      assert cr * pw < 0.0;
    } else {
      assert cr * pw >= 0.0;
    }
  }

  /** Strictness: a point on the circumcircle is never reported inside,
      whatever the winding; in particular neither is a, b or c itself. */
  lemma CocircularIsNotInCircle(a: Point, b: Point, c: Point, p: Point)
    requires Cross(a, b, c) != 0.0
    requires SqDist(Circumcenter(a, b, c).value, p) == SqDist(Circumcenter(a, b, c).value, a)
    ensures !InCircle(a, b, c, p)
  {
    InCircleDetIsPower(a, b, c, p);
    var o := Circumcenter(a, b, c).value;
    assert SqDist(o, a) - SqDist(o, p) == 0.0;
    assert InCircleDet(a, b, c, p) == 0.0;
  }
}
