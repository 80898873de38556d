/** The half-edge store of triangulation.go: `addTriangle`, `link` and
    `legalize`.

    Triangle t owns the half-edges 3t, 3t+1 and 3t+2; `triangles[e]` is
    the point the half-edge e starts from and `halfedges[e]` is its twin in
    the neighbouring triangle, or -1 on the hull. The arrays are allocated
    once at their final capacity and `len` (Go's `trianglesLen`) counts the
    entries in use. Writing past the capacity is a Go panic and comes back
    as `Err(IndexOutOfRange)`. */
module HalfEdges {
  import opened Results
  import opened Util

  datatype Mesh = Mesh(triangles: seq<int>, halfedges: seq<int>, len: nat)

  /** Go's `a % 3` on int. Go truncates toward zero, so the remainder has
      the sign of the dividend, unlike Dafny's Euclidean `%`. */
  function GoRem3(a: int): (r: int)
    ensures (a - r) % 3 == 0
    ensures a >= 0 ==> 0 <= r < 3
    ensures a < 0 ==> -3 < r <= 0
  {
    if a >= 0 then a % 3 else -((-a) % 3)
  }

  /** The two arrays have the same capacity and `len` whole triangles are
      in use. */
  predicate Shaped(m: Mesh) {
    |m.triangles| == |m.halfedges| && m.len <= |m.triangles| && m.len % 3 == 0
  }

  /** Half-edge e is on the hull or is the twin of its twin. */
  predicate TwinOk(h: seq<int>, len: nat, e: int)
    requires len <= |h| && 0 <= e < len
  {
    h[e] == -1 || (0 <= h[e] < len && h[h[e]] == e)
  }

  /** Every used half-edge is on the hull or is the twin of its twin. */
  predicate Reciprocal(h: seq<int>, len: nat)
    requires len <= |h|
  {
    forall e :: 0 <= e < len ==> TwinOk(h, len, e)
  }

  /** triangulation.go `link`: make b the twin of a and, unless b is the
      hull marker, a the twin of b. */
  function Link(h: seq<int>, a: int, b: int): (r: Result<seq<int>>)
    ensures r.Ok? <==> 0 <= a < |h| && b < |h|
    ensures r.Ok? ==> |r.value| == |h| && r.value[a] == b
    ensures r.Ok? && b >= 0 ==> r.value[b] == a
    ensures r.Ok? ==> forall k :: 0 <= k < |h| && k != a && k != b ==> r.value[k] == h[k]
    ensures r.Err? ==> r.error == IndexOutOfRange
  {
    if !(0 <= a < |h|) then Err(IndexOutOfRange)
    else if b < 0 then Ok(h[a := b])
    else if b < |h| then Ok(h[a := b][b := a])
    else Err(IndexOutOfRange)
  }

  /** triangulation.go `addTriangle`: write the triangle (i0, i1, i2) at
      the first unused slot, pair its half-edges with a, b and c, and
      return the index of its first half-edge. */
  function AddTriangle(m: Mesh, i0: int, i1: int, i2: int, a: int, b: int, c: int): (r: Result<(Mesh, int)>)
    ensures r.Ok? <==> m.len + 3 <= |m.triangles| && m.len + 3 <= |m.halfedges|
                       && a < |m.halfedges| && b < |m.halfedges| && c < |m.halfedges|
    ensures r.Ok? ==> var (m', t) := r.value;
              && t == m.len && m'.len == m.len + 3
              && |m'.triangles| == |m.triangles| && |m'.halfedges| == |m.halfedges|
              && m'.triangles[t] == i0 && m'.triangles[t + 1] == i1 && m'.triangles[t + 2] == i2
              && (forall k :: 0 <= k < |m.triangles| && !(t <= k < t + 3) ==> m'.triangles[k] == m.triangles[k])
    ensures r.Ok? && Shaped(m) ==> Shaped(r.value.0)
    ensures r.Err? ==> r.error == IndexOutOfRange
  {
    var t := m.len;
    if !(t + 2 < |m.triangles|) then Err(IndexOutOfRange)
    else
      var tr := m.triangles[t := i0][t + 1 := i1][t + 2 := i2];
      var h1 :- Link(m.halfedges, t, a);
      var h2 :- Link(h1, t + 1, b);
      var h3 :- Link(h2, t + 2, c);
      Ok((Mesh(tr, h3, t + 3), t))
  }

  /** Every entry of tr, used or not, is a point index below n. The
      arrays start zeroed, and 0 is a point index of any non-empty input. */
  predicate PointsIn(tr: seq<int>, n: int) {
    forall k :: 0 <= k < |tr| ==> 0 <= tr[k] < n
  }

  /** addTriangle with point indices below n keeps every entry below n. */
  lemma AddTrianglePointsIn(m: Mesh, i0: int, i1: int, i2: int, a: int, b: int, c: int, n: int)
    requires PointsIn(m.triangles, n) && 0 <= i0 < n && 0 <= i1 < n && 0 <= i2 < n
    requires AddTriangle(m, i0, i1, i2, a, b, c).Ok?
    ensures PointsIn(AddTriangle(m, i0, i1, i2, a, b, c).value.0.triangles, n)
  {
  }

  /** x is the hull marker, or a used half-edge that is still on the hull. */
  predicate OpenEdge(h: seq<int>, len: nat, x: int)
    requires len <= |h|
  {
    x == -1 || (0 <= x < len && h[x] == -1)
  }

  /** When a, b and c are distinct open edges (or -1), addTriangle pairs
      each of them with the matching new half-edge and touches nothing
      else. */
  lemma AddTriangleLinks(m: Mesh, i0: int, i1: int, i2: int, a: int, b: int, c: int)
    requires Shaped(m) && m.len + 3 <= |m.triangles|
    requires OpenEdge(m.halfedges, m.len, a) && OpenEdge(m.halfedges, m.len, b) && OpenEdge(m.halfedges, m.len, c)
    requires a == -1 || (a != b && a != c)
    requires b == -1 || b != c
    ensures AddTriangle(m, i0, i1, i2, a, b, c).Ok?
    ensures var (m', t) := AddTriangle(m, i0, i1, i2, a, b, c).value;
            && m'.halfedges[t] == a && m'.halfedges[t + 1] == b && m'.halfedges[t + 2] == c
            && (a >= 0 ==> m'.halfedges[a] == t)
            && (b >= 0 ==> m'.halfedges[b] == t + 1)
            && (c >= 0 ==> m'.halfedges[c] == t + 2)
            && forall k :: 0 <= k < |m.halfedges| && !(t <= k < t + 3) && k != a && k != b && k != c
                 ==> m'.halfedges[k] == m.halfedges[k]
  {
  }

  /** Linking the new triangle only to open edges keeps the used part of
      halfedges reciprocal. */
  lemma AddTrianglePreservesReciprocal(m: Mesh, i0: int, i1: int, i2: int, a: int, b: int, c: int)
    requires Shaped(m) && m.len + 3 <= |m.triangles|
    requires Reciprocal(m.halfedges, m.len)
    requires OpenEdge(m.halfedges, m.len, a) && OpenEdge(m.halfedges, m.len, b) && OpenEdge(m.halfedges, m.len, c)
    requires a == -1 || (a != b && a != c)
    requires b == -1 || b != c
    ensures AddTriangle(m, i0, i1, i2, a, b, c).Ok?
    ensures var m' := AddTriangle(m, i0, i1, i2, a, b, c).value.0;
            Reciprocal(m'.halfedges, m'.len)
  {
    hide AddTriangle, Link;  // AddTriangleLinks gives their effect
    AddTriangleLinks(m, i0, i1, i2, a, b, c);
    var (m', t) := AddTriangle(m, i0, i1, i2, a, b, c).value;
    var h, h' := m.halfedges, m'.halfedges;
    assert t == m.len;
    forall e | 0 <= e < m'.len
      ensures TwinOk(h', m'.len, e)
    {
      if e < t && e != a && e != b && e != c {
        assert h'[e] == h[e];
        assert TwinOk(h, m.len, e);
        if h[e] != -1 {
          var f := h[e];
          assert h[f] == e;
          assert f != a && f != b && f != c;
          assert h'[f] == h[f];
        }
      }
    }
  }

  /** The indices legalize derives from a and its twin b: a0 and b0 start
      their triangles, al and ar follow a in its triangle, bl and br
      follow b in its triangle. */
  datatype Corners = Corners(b: int, a0: int, b0: int, al: int, ar: int, bl: int, br: int)

  /** legalize's index arithmetic with Go's truncated `%`. al and ar are
      the other two half-edges of a's triangle, and so are bl and br for a
      twin b >= 0; for the hull marker b == -1 Go's remainder gives b0 = 0,
      bl = 1 and br = 0. */
  function CornersOf(h: seq<int>, a: int): (c: Corners)
    requires 0 <= a < |h|
    ensures c.b == h[a]
    ensures c.a0 == a - a % 3 && c.a0 % 3 == 0
    ensures c.a0 <= c.al < c.a0 + 3 && c.a0 <= c.ar < c.a0 + 3
    ensures c.al != a && c.ar != a && c.al != c.ar
    ensures c.b >= 0 ==> c.b0 == c.b - c.b % 3 && c.b0 % 3 == 0
                         && c.b0 <= c.bl < c.b0 + 3 && c.b0 <= c.br < c.b0 + 3
                         && c.bl != c.b && c.br != c.b && c.bl != c.br
    ensures c.b == -1 ==> c.b0 == 0 && c.bl == 1 && c.br == 0
  {
    var b := h[a];
    var a0 := a - GoRem3(a);
    var b0 := b - GoRem3(b);
    Corners(b, a0, b0, a0 + GoRem3(a + 1), a0 + GoRem3(a + 2), b0 + GoRem3(b + 2), b0 + GoRem3(b + 1))
  }

  /** The outcome of one legalize call before its recursive calls: either
      the edge is legal and ar is returned, or the two triangles were
      flipped and legalize continues on a and then on br. */
  datatype Step = Legal(ar: int) | Flipped(mesh: Mesh, a: int, br: int)

  /** The three `link` calls of legalize's flip, in Go's order: a takes the
      twin of bl, b takes the twin of ar (as it stands after the first
      link), and ar and bl become twins. */
  function Relink(h: seq<int>, a: int, b: int, ar: int, bl: int): (r: Result<seq<int>>)
    ensures r.Ok? ==> |r.value| == |h|
    ensures r.Ok? ==> 0 <= ar < |h| && 0 <= bl < |h| && r.value[ar] == bl && r.value[bl] == ar
    ensures r.Ok? ==> 0 <= a < |h| && 0 <= b < |h|
    ensures r.Err? ==> r.error == IndexOutOfRange
  {
    if !(0 <= bl < |h|) then Err(IndexOutOfRange)
    else
      var h1 :- Link(h, a, h[bl]);
      if !(0 <= ar < |h1|) then Err(IndexOutOfRange)
      else
        var h2 :- Link(h1, b, h1[ar]);
        Link(h2, ar, bl)
  }

  /** The 2-2 flip of legalize's illegal branch: the two opposite corners
      are rewritten and four half-edges re-paired. */
  function Flip(m: Mesh, a: int, c: Corners, p0: int, p1: int): (r: Result<Mesh>)
    requires 0 <= a < |m.triangles|
    ensures r.Ok? ==> r.value.len == m.len && |r.value.triangles| == |m.triangles|
                      && |r.value.halfedges| == |m.halfedges|
    ensures r.Ok? ==> 0 <= c.b < |m.triangles| && r.value.triangles == m.triangles[a := p1][c.b := p0]
    ensures r.Err? ==> r.error == IndexOutOfRange
  {
    if !(0 <= c.b < |m.triangles|) then Err(IndexOutOfRange)
    else
      var h :- Relink(m.halfedges, a, c.b, c.ar, c.bl);
      Ok(Mesh(m.triangles[a := p1][c.b := p0], h, m.len))
  }

  /** One call of legalize as written in triangulation.go: it reads the
      twin b = halfedges[a] without testing it for -1. */
  function LegalizeStepAsWritten(m: Mesh, pts: seq<Point>, a: int): (r: Result<Step>)
    ensures r.Ok? && r.value.Flipped? ==> r.value.a == a && r.value.mesh.len == m.len
                                          && |r.value.mesh.triangles| == |m.triangles|
                                          && |r.value.mesh.halfedges| == |m.halfedges|
    ensures r.Ok? && r.value.Flipped? && PointsIn(m.triangles, |pts|) ==> PointsIn(r.value.mesh.triangles, |pts|)
    ensures r.Err? ==> r.error == IndexOutOfRange
  {
    if !(0 <= a < |m.halfedges|) || !(0 <= a < |m.triangles|) then Err(IndexOutOfRange)
    else
      var c := CornersOf(m.halfedges, a);
      var tr := m.triangles;
      if !(0 <= c.ar < |tr| && 0 <= c.al < |tr| && 0 <= c.bl < |tr|) then Err(IndexOutOfRange)
      else
        var p0, pr, pl, p1 := tr[c.ar], tr[a], tr[c.al], tr[c.bl];
        if !(0 <= p0 < |pts| && 0 <= pr < |pts| && 0 <= pl < |pts| && 0 <= p1 < |pts|) then Err(IndexOutOfRange)
        else if InCircle(pts[p0], pts[pr], pts[pl], pts[p1]) then
          var m' :- Flip(m, a, c, p0, p1);
          Ok(Flipped(m', a, c.br))
        else Ok(Legal(c.ar))
  }

  /** One call of legalize with a hull edge treated as legal, as the
      algorithm it ports does: with halfedges[a] == -1 it returns ar at
      once. */
  function LegalizeStep(m: Mesh, pts: seq<Point>, a: int): (r: Result<Step>)
    ensures r.Ok? && r.value.Flipped? ==> r.value.a == a && r.value.mesh.len == m.len
                                          && |r.value.mesh.triangles| == |m.triangles|
                                          && |r.value.mesh.halfedges| == |m.halfedges|
    ensures r.Ok? && r.value.Flipped? && PointsIn(m.triangles, |pts|) ==> PointsIn(r.value.mesh.triangles, |pts|)
    ensures r.Err? ==> r.error == IndexOutOfRange
  {
    if 0 <= a < |m.halfedges| && m.halfedges[a] == -1 then Ok(Legal(CornersOf(m.halfedges, a).ar))
    else LegalizeStepAsWritten(m, pts, a)
  }

  /** A hull edge is legal: the corrected step never flips it and never
      fails on it. */
  lemma HullEdgeIsLegal(m: Mesh, pts: seq<Point>, a: int)
    requires 0 <= a < |m.halfedges| && m.halfedges[a] == -1
    ensures LegalizeStep(m, pts, a) == Ok(Legal(a - a % 3 + (a + 2) % 3))
  {
  }

  /** The correction changes nothing except where the step as written
      fails: on a twin >= 0 the two agree, and on a hull edge the step as
      written either returns the same ar or fails. */
  lemma LegalizeStepRefinesAsWritten(m: Mesh, pts: seq<Point>, a: int)
    ensures LegalizeStepAsWritten(m, pts, a).Ok? ==> LegalizeStep(m, pts, a) == LegalizeStepAsWritten(m, pts, a)
    ensures !(0 <= a < |m.halfedges| && m.halfedges[a] == -1) ==>
              LegalizeStep(m, pts, a) == LegalizeStepAsWritten(m, pts, a)
  {
    if 0 <= a < |m.halfedges| && m.halfedges[a] == -1 && LegalizeStepAsWritten(m, pts, a).Ok? {
      var c := CornersOf(m.halfedges, a);
      assert c.b == -1;
      assert !LegalizeStepAsWritten(m, pts, a).value.Flipped?;
    }
  }

  /** On a hull edge the step as written reads the corner tr[1] as the far
      corner of the missing twin: it fails exactly when that point lies
      inside the circle of a's triangle, and otherwise returns ar. */
  lemma HullEdgeAsWritten(m: Mesh, pts: seq<Point>, a: int)
    requires Shaped(m) && 0 <= a < m.len && m.halfedges[a] == -1 && PointsIn(m.triangles, |pts|)
    ensures var c := CornersOf(m.halfedges, a);
            0 <= c.ar < |m.triangles| && 0 <= c.al < |m.triangles| && 1 < |m.triangles|
    ensures var c, tr := CornersOf(m.halfedges, a), m.triangles;
            LegalizeStepAsWritten(m, pts, a)
            == if InCircle(pts[tr[c.ar]], pts[tr[a]], pts[tr[c.al]], pts[tr[1]]) then Err(IndexOutOfRange)
               else Ok(Legal(c.ar))
  {
    var c := CornersOf(m.halfedges, a);
    TriangleWithin(c.a0, a, m.len);
  }

  /** When the four corners are not in circle, legalize changes nothing and
      returns ar. */
  lemma LegalStepChangesNothing(m: Mesh, pts: seq<Point>, a: int)
    requires 0 <= a < |m.halfedges| && 0 <= a < |m.triangles|
    requires LegalizeStep(m, pts, a).Ok?
    requires var c := CornersOf(m.halfedges, a);
             c.b >= 0 ==>
             var tr := m.triangles;
             !InCircle(pts[tr[c.ar]], pts[tr[a]], pts[tr[c.al]], pts[tr[c.bl]])
    ensures LegalizeStep(m, pts, a) == Ok(Legal(CornersOf(m.halfedges, a).ar))
  {
  }

  /** The configuration of an illegal edge in a proper mesh: a and b are
      twins in two different triangles, and the twins of bl and ar lie
      outside both triangles. */
  predicate FlipReady(m: Mesh, a: int)
  {
    Shaped(m) && 0 <= a < m.len && Reciprocal(m.halfedges, m.len) &&
    var c := CornersOf(m.halfedges, a);
    var h := m.halfedges;
    && 0 <= c.b < m.len && c.b0 != c.a0
    && (h[c.bl] == -1 || !(c.a0 <= h[c.bl] < c.a0 + 3 || c.b0 <= h[c.bl] < c.b0 + 3))
    && (h[c.ar] == -1 || !(c.a0 <= h[c.ar] < c.a0 + 3 || c.b0 <= h[c.ar] < c.b0 + 3))
  }

  /** The weakest configuration the flip itself needs: the mesh is
      reciprocal, a's twin b lies in another triangle, and neither bl nor
      ar is its own twin. FlipReady implies it. */
  predicate Flippable(m: Mesh, a: int)
  {
    Shaped(m) && 0 <= a < m.len && Reciprocal(m.halfedges, m.len) &&
    var c := CornersOf(m.halfedges, a);
    var h := m.halfedges;
    && 0 <= c.b < m.len && c.b0 != c.a0
    && h[c.bl] != c.bl && h[c.ar] != c.ar
  }

  /** With four distinct half-edges whose outside twins x and y are distinct
      or -1, the three links pair a with x, b with y and ar with bl, and
      touch nothing else. */
  lemma RelinkEffect(h: seq<int>, a: int, b: int, ar: int, bl: int)
    requires 0 <= a < |h| && 0 <= b < |h| && 0 <= ar < |h| && 0 <= bl < |h|
    requires a != b && a != ar && a != bl && b != ar && b != bl && ar != bl
    requires h[bl] < |h| && h[ar] < |h|
    requires h[bl] != a && h[bl] != b && h[bl] != ar && h[bl] != bl
    requires h[ar] != a && h[ar] != b && h[ar] != ar && h[ar] != bl
    requires h[bl] == -1 || h[bl] != h[ar]
    ensures Relink(h, a, b, ar, bl).Ok?
    ensures var x, y, h' := h[bl], h[ar], Relink(h, a, b, ar, bl).value;
            && h'[a] == x && (x >= 0 ==> h'[x] == a)
            && h'[b] == y && (y >= 0 ==> h'[y] == b)
            && h'[ar] == bl && h'[bl] == ar
            && forall k :: 0 <= k < |h| && k != a && k != b && k != ar && k != bl && k != h[bl] && k != h[ar]
                 ==> h'[k] == h[k]
  {
    var h1 := Link(h, a, h[bl]).value;
    assert h1[ar] == h[ar];
  }

  /** The flip rewrites only triangles[a] and triangles[b], pairs a with the
      old twin of bl, b with the old twin of ar and ar with bl, leaves
      every other half-edge alone, and keeps the mesh reciprocal. */
  lemma FlipEffect(m: Mesh, a: int, p0: int, p1: int)
    requires FlipReady(m, a)
    ensures var c := CornersOf(m.halfedges, a);
            Flip(m, a, c, p0, p1).Ok?
    ensures var c := CornersOf(m.halfedges, a);
            var h := m.halfedges;
            var x, y := h[c.bl], h[c.ar];
            var m' := Flip(m, a, c, p0, p1).value;
            && m'.triangles == m.triangles[a := p1][c.b := p0]
            && m'.halfedges[a] == x && (x >= 0 ==> m'.halfedges[x] == a)
            && m'.halfedges[c.b] == y && (y >= 0 ==> m'.halfedges[y] == c.b)
            && m'.halfedges[c.ar] == c.bl && m'.halfedges[c.bl] == c.ar
            && (forall k :: 0 <= k < |h| && k != a && k != c.b && k != c.ar && k != c.bl && k != x && k != y
                  ==> m'.halfedges[k] == h[k])
            && Reciprocal(m'.halfedges, m'.len)
  {
    var c := CornersOf(m.halfedges, a);
    var h := m.halfedges;
    FlipReadyFacts(m, a);
    RelinkEffect(h, a, c.b, c.ar, c.bl);
    var h' := Relink(h, a, c.b, c.ar, c.bl).value;
    RepairPreservesReciprocal(h, h', m.len, a, c.b, c.ar, c.bl, h[c.bl], h[c.ar]);
  }

  /** Half-edges of two different triangles are different. */
  lemma DisjointTriangles(a0: int, b0: int, i: int, j: int)
    requires a0 % 3 == 0 && b0 % 3 == 0 && a0 != b0
    requires a0 <= i < a0 + 3 && b0 <= j < b0 + 3
    ensures i != j
  {
  }

  /** What FlipReady gives the flip: four distinct used half-edges, a and b
      twins, and outside twins x and y that are reciprocal and distinct. */
  lemma FlipReadyFacts(m: Mesh, a: int)
    requires FlipReady(m, a)
    ensures var c := CornersOf(m.halfedges, a);
            0 <= c.b < m.len && 0 <= c.ar < m.len && 0 <= c.bl < m.len
    ensures var c := CornersOf(m.halfedges, a);
            var h := m.halfedges;
            var x, y := h[c.bl], h[c.ar];
            && h[a] == c.b && h[c.b] == a
            && (x == -1 || (0 <= x < m.len && h[x] == c.bl))
            && (y == -1 || (0 <= y < m.len && h[y] == c.ar))
    ensures var c := CornersOf(m.halfedges, a);
            var h := m.halfedges;
            var x, y := h[c.bl], h[c.ar];
            && a != c.b && a != c.ar && a != c.bl && c.b != c.ar && c.b != c.bl && c.ar != c.bl
            && x != a && x != c.b && x != c.ar && x != c.bl
            && y != a && y != c.b && y != c.ar && y != c.bl
            && (x == -1 || x != y)
  {
    var c := CornersOf(m.halfedges, a);
    var h := m.halfedges;
    FlipReadyTwins(m, a, c);
    QuadDistinct(c.a0, c.b0, a, c.ar, c.b, c.bl);
    OutsideBoth(c.a0, c.b0, a, c.ar, c.b, c.bl, h[c.bl]);
    OutsideBoth(c.a0, c.b0, a, c.ar, c.b, c.bl, h[c.ar]);
  }

  lemma FlipReadyTwins(m: Mesh, a: int, c: Corners)
    requires FlipReady(m, a) && c == CornersOf(m.halfedges, a)
    ensures Shaped(m) && Reciprocal(m.halfedges, m.len)
    ensures 0 <= c.b < m.len && 0 <= c.ar < m.len && 0 <= c.bl < m.len && c.b0 != c.a0
    ensures var h := m.halfedges;
            && TwinOk(h, m.len, a) && TwinOk(h, m.len, c.bl) && TwinOk(h, m.len, c.ar)
            && (h[c.bl] == -1 || !(c.a0 <= h[c.bl] < c.a0 + 3 || c.b0 <= h[c.bl] < c.b0 + 3))
            && (h[c.ar] == -1 || !(c.a0 <= h[c.ar] < c.a0 + 3 || c.b0 <= h[c.ar] < c.b0 + 3))
  {
    TriangleWithin(c.a0, a, m.len);
    TriangleWithin(c.b0, c.b, m.len);
  }

  /** A triangle with a used half-edge is used as a whole. */
  lemma TriangleWithin(t0: int, e: int, len: int)
    requires t0 % 3 == 0 && len % 3 == 0 && t0 <= e < len && e < t0 + 3
    ensures t0 + 3 <= len
  {
  }

  /** Two half-edges of one triangle and two of another are four distinct
      half-edges. */
  lemma QuadDistinct(a0: int, b0: int, a: int, ar: int, b: int, bl: int)
    requires a0 % 3 == 0 && b0 % 3 == 0 && a0 != b0
    requires a0 <= a < a0 + 3 && a0 <= ar < a0 + 3 && a != ar
    requires b0 <= b < b0 + 3 && b0 <= bl < b0 + 3 && b != bl
    ensures a != b && a != bl && ar != b && ar != bl
  {
    DisjointTriangles(a0, b0, a, b);
    DisjointTriangles(a0, b0, a, bl);
    DisjointTriangles(a0, b0, ar, b);
    DisjointTriangles(a0, b0, ar, bl);
  }

  /** A half-edge outside both triangles is none of their half-edges. */
  lemma OutsideBoth(a0: int, b0: int, a: int, ar: int, b: int, bl: int, x: int)
    requires a0 <= a < a0 + 3 && a0 <= ar < a0 + 3
    requires b0 <= b < b0 + 3 && b0 <= bl < b0 + 3
    requires x == -1 || !(a0 <= x < a0 + 3 || b0 <= x < b0 + 3)
    requires a >= 0 && b >= 0 && ar >= 0 && bl >= 0
    ensures x != a && x != ar && x != b && x != bl
  {
  }

  /** The re-pairing of a flip over plain arrays: if a and b were twins and
      x, y were the twins of bl and ar, pairing a with x, b with y and ar
      with bl, and nothing else, keeps the array reciprocal. */
  lemma RepairPreservesReciprocal(h: seq<int>, h': seq<int>, len: nat,
                                  a: int, b: int, ar: int, bl: int, x: int, y: int)
    requires len <= |h| && |h'| == |h| && Reciprocal(h, len)
    requires 0 <= a < len && 0 <= b < len && 0 <= ar < len && 0 <= bl < len
    requires h[a] == b && h[b] == a && h[bl] == x && h[ar] == y
    requires a != b && a != ar && a != bl && b != ar && b != bl && ar != bl
    requires x != a && x != b && x != ar && x != bl
    requires y != a && y != b && y != ar && y != bl
    requires x < |h| && y < |h|
    requires h'[a] == x && (x >= 0 ==> h'[x] == a)
    requires h'[b] == y && (y >= 0 ==> h'[y] == b)
    requires h'[ar] == bl && h'[bl] == ar
    requires forall k :: 0 <= k < |h| && k != a && k != b && k != ar && k != bl && k != x && k != y
               ==> h'[k] == h[k]
    ensures Reciprocal(h', len)
  {
    assert TwinOk(h, len, bl) && TwinOk(h, len, ar);
    forall e | 0 <= e < len
      ensures TwinOk(h', len, e)
    {
      if e != a && e != b && e != ar && e != bl && e != x && e != y {
        assert h'[e] == h[e];
        assert TwinOk(h, len, e);
        if h[e] != -1 {
          var f := h[e];
          assert f != a && f != b && f != ar && f != bl;
          assert f != x && f != y;
          assert h'[f] == h[f];
        }
      }
    }
  }

  /** What Flippable gives the flip: a and b are twins, a, b, ar and bl
      are four distinct used half-edges, the outer twins x and y are none
      of a and b, and the triangles share the edge bl/ar exactly when x is
      ar, which is exactly when y is bl. Otherwise x and y are none of the
      four and are distinct unless both are -1. */
  lemma FlippableFacts(m: Mesh, a: int, c: Corners)
    requires Flippable(m, a) && c == CornersOf(m.halfedges, a)
    ensures 0 <= c.b < m.len && 0 <= c.ar < m.len && 0 <= c.bl < m.len
    ensures var h := m.halfedges;
            var x, y := h[c.bl], h[c.ar];
            && h[a] == c.b && h[c.b] == a
            && (x == -1 || (0 <= x < m.len && h[x] == c.bl))
            && (y == -1 || (0 <= y < m.len && h[y] == c.ar))
            && a != c.b && a != c.ar && a != c.bl && c.b != c.ar && c.b != c.bl && c.ar != c.bl
            && x != a && x != c.b && x != c.bl && y != a && y != c.b && y != c.ar
            && (x == c.ar <==> y == c.bl)
            && (x != c.ar ==> x != y || x == -1)
  {
    hide Flippable;  // FlippableTwins gives what is needed of it
    FlippableTwins(m, a, c);
    QuadDistinct(c.a0, c.b0, a, c.ar, c.b, c.bl);
  }

  lemma FlippableTwins(m: Mesh, a: int, c: Corners)
    requires Flippable(m, a) && c == CornersOf(m.halfedges, a)
    ensures 0 <= c.b < m.len && 0 <= c.ar < m.len && 0 <= c.bl < m.len && c.b0 != c.a0
    ensures var h := m.halfedges;
            && h[a] == c.b && h[c.b] == a && h[c.bl] != c.bl && h[c.ar] != c.ar
            && TwinOk(h, m.len, c.bl) && TwinOk(h, m.len, c.ar)
  {
    TriangleWithin(c.a0, a, m.len);
    TriangleWithin(c.b0, c.b, m.len);
    assert TwinOk(m.halfedges, m.len, a);
  }

  /** When the two triangles also share the edge bl/ar, the three links of
      the flip undo each other. */
  lemma SharedEdgeRelink(h: seq<int>, a: int, b: int, ar: int, bl: int)
    requires 0 <= a < |h| && 0 <= b < |h| && 0 <= ar < |h| && 0 <= bl < |h|
    requires a != b && a != ar && a != bl && b != ar && b != bl && ar != bl
    requires h[a] == b && h[b] == a && h[bl] == ar && h[ar] == bl
    ensures Relink(h, a, b, ar, bl) == Ok(h)
  {
    var h1 := Link(h, a, ar).value;
    var h2 := Link(h1, b, a).value;
    var h3 := Link(h2, ar, bl).value;
    assert h1[ar] == a;
    assert Relink(h, a, b, ar, bl) == Link(h2, ar, bl);
    assert forall k :: 0 <= k < |h| ==> h3[k] == h[k];
    assert h3 == h;
  }

  /** Any flip of an edge whose twin lies in another triangle keeps the
      twin relation reciprocal, with no requirement on where the outer
      twins lie. When the triangles also share the edge bl/ar the array
      comes back unchanged; otherwise a is paired with the old twin of bl,
      b with the old twin of ar, and ar with bl. */
  lemma FlipKeepsReciprocal(m: Mesh, a: int)
    requires Flippable(m, a)
    ensures var c := CornersOf(m.halfedges, a);
            Relink(m.halfedges, a, c.b, c.ar, c.bl).Ok?
    ensures var c := CornersOf(m.halfedges, a);
            Reciprocal(Relink(m.halfedges, a, c.b, c.ar, c.bl).value, m.len)
    ensures var c := CornersOf(m.halfedges, a);
            m.halfedges[c.bl] == c.ar ==> Relink(m.halfedges, a, c.b, c.ar, c.bl).value == m.halfedges
    ensures var c := CornersOf(m.halfedges, a);
            var h := m.halfedges;
            var x, y := h[c.bl], h[c.ar];
            var h' := Relink(h, a, c.b, c.ar, c.bl).value;
            x != c.ar ==> && h'[a] == x && (x >= 0 ==> h'[x] == a)
                          && h'[c.b] == y && (y >= 0 ==> h'[y] == c.b)
                          && h'[c.ar] == c.bl && h'[c.bl] == c.ar
  {
    var c := CornersOf(m.halfedges, a);
    var h := m.halfedges;
    FlippableFacts(m, a, c);
    if h[c.bl] == c.ar {
      SharedEdgeRelink(h, a, c.b, c.ar, c.bl);
    } else {
      RelinkEffect(h, a, c.b, c.ar, c.bl);
      var h' := Relink(h, a, c.b, c.ar, c.bl).value;
      RepairPreservesReciprocal(h, h', m.len, a, c.b, c.ar, c.bl, h[c.bl], h[c.ar]);
    }
  }

  /** When bl is twinned with al (the triangles share a-b and al-bl), the
      flip gives a the twin al, in a's own triangle, so Flippable no longer
      holds at a, the edge legalize goes on with. */
  lemma FlipTwinsWithinTriangle(m: Mesh, a: int)
    requires Flippable(m, a)
    requires m.halfedges[CornersOf(m.halfedges, a).bl] == CornersOf(m.halfedges, a).al
    ensures var c := CornersOf(m.halfedges, a);
            Relink(m.halfedges, a, c.b, c.ar, c.bl).Ok?
    ensures var c := CornersOf(m.halfedges, a);
            var h' := Relink(m.halfedges, a, c.b, c.ar, c.bl).value;
            h'[a] == c.al && !Flippable(Mesh(m.triangles, h', m.len), a)
  {
    var c := CornersOf(m.halfedges, a);
    hide Flippable, Relink;  // FlipKeepsReciprocal gives what is needed
    FlipKeepsReciprocal(m, a);
    var h' := Relink(m.halfedges, a, c.b, c.ar, c.bl).value;
    TwinInOwnTriangle(Mesh(m.triangles, h', m.len), a);
  }

  /** An edge twinned within its own triangle is not Flippable. */
  lemma TwinInOwnTriangle(m: Mesh, a: int)
    requires 0 <= a < |m.halfedges|
    requires var a0 := a - a % 3; a0 <= m.halfedges[a] < a0 + 3
    ensures !Flippable(m, a)
  {
    hide Reciprocal, Shaped;  // only the triangle test of Flippable fails
    var c := CornersOf(m.halfedges, a);
    ModThree(c.a0, c.b);
  }

  /** A number in the triple starting at a multiple of three starts the
      same triple. */
  lemma ModThree(t0: int, e: int)
    requires t0 % 3 == 0 && t0 <= e < t0 + 3
    ensures e - e % 3 == t0
  {
  }

  /** One instance: a = 0 twinned with b = 3 and al = 1 twinned with
      bl = 5. After the flip a's twin is al, in a's own triangle. */
  lemma FlipCanTwinWithinTriangle()
    ensures var m := Mesh([0, 1, 2, 3, 4, 5], [3, 5, -1, 0, -1, 1], 6);
            var c := CornersOf(m.halfedges, 0);
            && Flippable(m, 0) && c.al == 1 && c.bl == 5
            && Relink(m.halfedges, 0, c.b, c.ar, c.bl) == Ok([1, 0, 5, -1, -1, 2])
            && !Flippable(Mesh(m.triangles, [1, 0, 5, -1, -1, 2], 6), 0)
  {
    hide Relink, Reciprocal, CornersOf;  // the TwoShared lemmas give their values
    var m := Mesh([0, 1, 2, 3, 4, 5], [3, 5, -1, 0, -1, 1], 6);
    TwoSharedCorners(m.halfedges);
    TwoSharedReciprocal(m.halfedges);
    TwoSharedRelink(m.halfedges);
    var h' := [1, 0, 5, -1, -1, 2];
    assert CornersOf(h', 0).b == 1;
  }

  lemma TwoSharedCorners(h: seq<int>)
    requires h == [3, 5, -1, 0, -1, 1]
    ensures CornersOf(h, 0) == Corners(3, 0, 3, 1, 2, 5, 4)
  {
  }

  lemma TwoSharedReciprocal(h: seq<int>)
    requires h == [3, 5, -1, 0, -1, 1]
    ensures Reciprocal(h, 6)
  {
    forall e | 0 <= e < 6
      ensures TwinOk(h, 6, e)
    {
    }
  }

  lemma TwoSharedRelink(h: seq<int>)
    requires h == [3, 5, -1, 0, -1, 1]
    ensures Relink(h, 0, 3, 2, 5) == Ok([1, 0, 5, -1, -1, 2])
  {
    var h1 := Link(h, 0, 1).value;
    assert h1 == [1, 0, -1, 0, -1, 1];
    var h2 := Link(h1, 3, -1).value;
    assert h2 == [1, 0, -1, -1, -1, 1];
    assert Link(h2, 2, 5).value == [1, 0, 5, -1, -1, 2];
  }

  /** An illegal edge whose twin lies in another triangle is flipped: the
      opposite corners move to a and b, legalize goes on with br, and the
      mesh stays reciprocal. */
  lemma IllegalStepFlips(m: Mesh, pts: seq<Point>, a: int)
    requires Flippable(m, a)
    requires LegalizeStep(m, pts, a).Ok? && LegalizeStep(m, pts, a).value.Flipped?
    ensures var c := CornersOf(m.halfedges, a);
            var s := LegalizeStep(m, pts, a).value;
            && s.br == c.br
            && s.mesh.triangles == m.triangles[a := m.triangles[c.bl]][c.b := m.triangles[c.ar]]
            && Reciprocal(s.mesh.halfedges, s.mesh.len)
  {
    FlipKeepsReciprocal(m, a);
  }

  /** FlipReady is the special case in which the outer twins also lie
      outside both triangles. */
  lemma FlipReadyIsFlippable(m: Mesh, a: int)
    requires FlipReady(m, a)
    ensures Flippable(m, a)
  {
    FlipReadyFacts(m, a);
  }

  /** triangulation.go `legalize`, with its recursion bounded by fuel: flip
      while the edge is illegal, then recurse on a and on br, and return the
      half-edge of the last legal step. */
  function Legalize(m: Mesh, pts: seq<Point>, a: int, fuel: nat): (r: Result<(Mesh, int)>)
    ensures r.Ok? ==> r.value.0.len == m.len && |r.value.0.triangles| == |m.triangles|
                      && |r.value.0.halfedges| == |m.halfedges|
    ensures r.Ok? && PointsIn(m.triangles, |pts|) ==> PointsIn(r.value.0.triangles, |pts|)
    ensures r.Err? ==> r.error == IndexOutOfRange || r.error == OutOfFuel
    decreases fuel
  {
    if fuel == 0 then Err(OutOfFuel)
    else
      var step :- LegalizeStep(m, pts, a);
      match step
      case Legal(ar) => Ok((m, ar))
      case Flipped(m', a', br) =>
        var (m2, _) :- Legalize(m', pts, a', fuel - 1);
        Legalize(m2, pts, br, fuel - 1)
  }
}
