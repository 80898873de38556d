/** The sweep of triangulation.go `triangulate`: points are taken in
    `Less` order about the seed circumcentre, each new point finds a
    visible hull edge through the edge hash, fans triangles onto the hull
    forward and backward, and the hull ring and hash are updated.

    Loops whose termination rests on geometry (the visible-edge walk, the
    forward and backward walks, legalize's recursion) take a `fuel`
    bound and return `Err(OutOfFuel)` when it runs out. The sorted order
    that `sort.Sort` produces is an input: `ids`. */
module Sweep {
  import opened Results
  import opened Util
  import opened Front
  import opened HalfEdges
  import opened Hash
  import opened Seeds

  /** The triangulator's mutable fields during the sweep. */
  datatype State = State(mesh: Mesh, nodes: seq<Node>, hash: seq<int>)

  /** The arrays `Triangulate` hands back, trimmed to the used length. */
  datatype Triangulation = Triangulation(triangles: seq<int>, halfedges: seq<int>)

  /** Whole triangles, one twin per half-edge, over point indices below n. */
  predicate WholeTriangles(t: Triangulation, n: int) {
    && |t.triangles| == |t.halfedges| && |t.triangles| % 3 == 0 && |t.triangles| >= 3
    && PointsIn(t.triangles, n)
  }

  /** The errors the sweep itself can end with: a panic, a malformed
      input, a NaN key or running out of fuel, that is every error but the
      seed phase's. */
  predicate SweepError(e: Error) {
    !e.NoTriangulation?
  }

  /** Following a node pointer: nil and foreign pointers are panics. */
  function Get(nodes: seq<Node>, e: int): (r: Result<Node>)
    ensures r.Ok? <==> 0 <= e < |nodes|
    ensures r.Ok? ==> r.value == nodes[e]
    ensures r.Err? ==> Panic(r.error)
  {
    if e == Nil then Err(NilDereference)
    else if !(0 <= e < |nodes|) then Err(IndexOutOfRange)
    else Ok(nodes[e])
  }

  /** Every node names a point below n. */
  predicate NodeIndicesIn(nodes: seq<Node>, n: int) {
    forall k :: 0 <= k < |nodes| ==> 0 <= nodes[k].i < n
  }

  /** The hull edge from e to e.next faces p: area(p, e, e.next) < 0. */
  predicate Visible(nodes: seq<Node>, p: Point, e: int) {
    0 <= e < |nodes| && 0 <= nodes[e].next < |nodes| &&
    Area(p, nodes[e].p, nodes[nodes[e].next].p) < 0.0
  }

  /** The hull edge from e to e.next exists and does not face p. */
  predicate Hidden(nodes: seq<Node>, p: Point, e: int) {
    0 <= e < |nodes| && 0 <= nodes[e].next < |nodes| &&
    Area(p, nodes[e].p, nodes[nodes[e].next].p) >= 0.0
  }

  /** The node k steps along `next` from e (Nil once a pointer leaves the
      arena). */
  function Succ(nodes: seq<Node>, e: int, k: nat): int
    decreases k
  {
    if k == 0 then e
    else if 0 <= e < |nodes| then Succ(nodes, nodes[e].next, k - 1)
    else Nil
  }

  /** The visible-edge walk: from e follow `next` while the edge does not
      face p; coming back to start means the input is malformed. */
  function Walk(nodes: seq<Node>, p: Point, start: int, e: int, fuel: nat): (r: Result<int>)
    ensures r.Ok? ==> Visible(nodes, p, r.value)
    ensures r.Err? ==> Panic(r.error) || r.error == MalformedInput || r.error == OutOfFuel
    decreases fuel
  {
    if fuel == 0 then Err(OutOfFuel)
    else
      var en :- Get(nodes, e);
      var nn :- Get(nodes, en.next);
      if Area(p, en.p, nn.p) >= 0.0 then
        if en.next == start then Err(MalformedInput)
        else Walk(nodes, p, start, en.next, fuel - 1)
      else Ok(e)
  }

  /** The walk stops at the first edge of the ring, from start on, that
      faces p. */
  lemma WalkFindsFirstVisible(nodes: seq<Node>, p: Point, start: int, fuel: nat, k: nat)
    requires k < fuel
    requires forall j :: 0 <= j < k ==> Hidden(nodes, p, Succ(nodes, start, j))
    requires forall j :: 1 <= j <= k ==> Succ(nodes, start, j) != start
    requires Visible(nodes, p, Succ(nodes, start, k))
    ensures Walk(nodes, p, start, start, fuel) == Ok(Succ(nodes, start, k))
  {
    WalkFrom(nodes, p, start, start, fuel, k);
  }

  lemma {:induction false} WalkFrom(nodes: seq<Node>, p: Point, start: int, e: int, fuel: nat, k: nat)
    requires k < fuel
    requires forall j :: 0 <= j < k ==> Hidden(nodes, p, Succ(nodes, e, j))
    requires forall j :: 1 <= j <= k ==> Succ(nodes, e, j) != start
    requires Visible(nodes, p, Succ(nodes, e, k))
    ensures Walk(nodes, p, start, e, fuel) == Ok(Succ(nodes, e, k))
    decreases k
  {
    if k > 0 {
      assert Hidden(nodes, p, Succ(nodes, e, 0));
      var e' := nodes[e].next;
      SuccShift(nodes, e, k);
      assert Succ(nodes, e, 1) == e';
      WalkFrom(nodes, p, start, e', fuel - 1, k - 1);
    }
  }

  /** One step along next, then k more, is k + 1 steps. */
  lemma SuccShift(nodes: seq<Node>, e: int, k: nat)
    requires 0 <= e < |nodes|
    ensures forall j :: 0 <= j <= k ==> Succ(nodes, e, j + 1) == Succ(nodes, nodes[e].next, j)
  {
  }

  /** With no edge of the ring facing p, the walk goes once round and
      reports malformed input. */
  lemma WalkFullLap(nodes: seq<Node>, p: Point, start: int, fuel: nat, len: nat)
    requires 1 <= len <= fuel
    requires Succ(nodes, start, len) == start
    requires forall j :: 0 <= j < len ==> Hidden(nodes, p, Succ(nodes, start, j))
    requires forall j :: 1 <= j < len ==> Succ(nodes, start, j) != start
    ensures Walk(nodes, p, start, start, fuel) == Err(MalformedInput)
  {
    WalkLap(nodes, p, start, start, fuel, len);
  }

  lemma {:induction false} WalkLap(nodes: seq<Node>, p: Point, start: int, e: int, fuel: nat, m: nat)
    requires 1 <= m <= fuel
    requires Succ(nodes, e, m) == start
    requires forall j :: 0 <= j < m ==> Hidden(nodes, p, Succ(nodes, e, j))
    requires forall j :: 1 <= j < m ==> Succ(nodes, e, j) != start
    ensures Walk(nodes, p, start, e, fuel) == Err(MalformedInput)
    decreases m
  {
    assert Hidden(nodes, p, Succ(nodes, e, 0));
    var e' := nodes[e].next;
    SuccShift(nodes, e, m);
    if m > 1 {
      assert Succ(nodes, e, 1) == e';
      WalkLap(nodes, p, start, e', fuel - 1, m - 1);
    }
  }

  /** From a live node the walk never leaves the ring. */
  lemma {:induction false} WalkStaysInRing(nodes: seq<Node>, p: Point, start: int, e: int, fuel: nat)
    ensures Linked(nodes) && InRing(nodes, e) && Walk(nodes, p, start, e, fuel).Ok? ==>
              InRing(nodes, Walk(nodes, p, start, e, fuel).value)
    decreases fuel
  {
    if Linked(nodes) && InRing(nodes, e) && fuel > 0 {
      assert LinkedAt(nodes, e);
      if Area(p, nodes[e].p, nodes[nodes[e].next].p) >= 0.0 && nodes[e].next != start {
        WalkStaysInRing(nodes, p, start, nodes[e].next, fuel - 1);
      }
    }
  }

  /** b has a's capacities, and at least a's used triangles. */
  predicate Sized(a: State, b: State) {
    && |b.nodes| == |a.nodes| && |b.hash| == |a.hash|
    && |b.mesh.triangles| == |a.mesh.triangles| && |b.mesh.halfedges| == |a.mesh.halfedges|
    && a.mesh.len <= b.mesh.len
  }

  /** The arrays are shaped and every index they hold names one of the n
      points. */
  predicate Sound(st: State, n: int) {
    Shaped(st.mesh) && PointsIn(st.mesh.triangles, n) && NodeIndicesIn(st.nodes, n)
  }

  /** Every node keeps its point and point index; only links, flags and
      hull triangles may differ. */
  predicate SamePoints(a: seq<Node>, b: seq<Node>) {
    |a| == |b| && forall k :: 0 <= k < |a| ==> b[k].p == a[k].p && b[k].i == a[k].i
  }

  /** The start of the first triangle from point i onto the visible edge e:
      add the triangle (e, i, e.next) against e's hull triangle, record it
      as e's hull triangle, and make the hull node of i after e. Returns
      the new triangle's first half-edge. */
  function Open(st: State, points: seq<Point>, i: int, e: int): (r: Result<(State, int)>)
    requires 0 <= i < |points|
    ensures r.Ok? ==> var (st', t) := r.value;
              && Sized(st, st') && st'.hash == st.hash
              && t == st.mesh.len && st'.mesh.len == t + 3 && t + 3 <= |st.mesh.halfedges|
              && 0 <= e < |st.nodes| && 0 <= i < |st.nodes|
              && st'.nodes[i].p == points[i] && st'.nodes[i].i == i
              && SamePoints(st.nodes[i := st'.nodes[i]], st'.nodes)
    ensures r.Ok? && Sound(st, |points|) ==> Sound(r.value.0, |points|)
    ensures r.Ok? && Linked(st.nodes) && InRing(st.nodes, e) && !InRing(st.nodes, i) ==>
              var n := r.value.0.nodes;
              Linked(n) && InRing(n, i) && Evolves(st.nodes, n, i)
    ensures r.Err? ==> Panic(r.error)
  {
    var en :- Get(st.nodes, e);
    var nn :- Get(st.nodes, en.next);
    var (m1, t) :- AddTriangle(st.mesh, en.i, i, nn.i, -1, -1, en.t);
    var n1 := SetT(st.nodes, e, t);
    SpliceKeepsRing(st.nodes, e, t, points[i], i);
    var n2 :- NewNode(n1, points[i], i, e);
    Ok((State(m1, n2, st.hash), t))
  }

  /** The first triangle from the new point i onto the visible edge e:
      open it, then close it. */
  function FirstTriangle(st: State, points: seq<Point>, i: int, e: int, fuel: nat): (r: Result<State>)
    requires 0 <= i < |points|
    ensures r.Ok? ==> && Sized(st, r.value) && r.value.hash == st.hash
                      && r.value.mesh.len == st.mesh.len + 3
                      && 0 <= e < |st.nodes| && 0 <= i < |st.nodes|
                      && r.value.nodes[i].p == points[i] && r.value.nodes[i].i == i
    ensures r.Ok? && Sound(st, |points|) ==> Sound(r.value, |points|)
    ensures r.Ok? && Linked(st.nodes) && InRing(st.nodes, e) && !InRing(st.nodes, i) ==>
              Linked(r.value.nodes) && InRing(r.value.nodes, i) && Evolves(st.nodes, r.value.nodes, i)
    ensures r.Err? ==> Panic(r.error) || r.error == OutOfFuel
  {
    var (st1, t) :- Open(st, points, i, e);
    var st2 :- Close(st1, points, i, t, fuel);
    EvolvesTrans(st.nodes, st1.nodes, st2.nodes, i, Nil);
    Ok(st2)
  }

  /** The rest of the first triangle, whose first half-edge is t: legalize
      from t + 2 and record the result as i's hull triangle, then move the
      hull triangle of i.prev.prev to t + 2 when it was the one legalize
      just replaced. Only hull triangles change in the front. */
  function Close(st: State, points: seq<Point>, i: int, t: int, fuel: nat): (r: Result<State>)
    requires 0 <= i < |st.nodes| && 0 <= t && t + 3 <= |st.mesh.halfedges|
    ensures r.Ok? ==> && Sized(st, r.value) && r.value.hash == st.hash
                      && r.value.mesh.len == st.mesh.len && SamePoints(st.nodes, r.value.nodes)
    ensures r.Ok? && Sound(st, |points|) ==> Sound(r.value, |points|)
    ensures r.Ok? ==> && (Linked(st.nodes) ==> Linked(r.value.nodes))
                      && (forall k :: InRing(r.value.nodes, k) <==> InRing(st.nodes, k))
                      && Evolves(st.nodes, r.value.nodes, Nil)
    ensures r.Err? ==> Panic(r.error) || r.error == OutOfFuel
  {
    var (m2, ar) :- Legalize(st.mesh, points, t + 2, fuel);
    var n3 := SetT(st.nodes, i, ar);
    SetTKeepsRing(st.nodes, i, ar);
    var pv :- Get(n3, n3[i].prev);
    var pp :- Get(n3, pv.prev);
    var r := FirstTriangleTail(m2, n3, st.hash, pv.prev, t, pp);
    EvolvesTrans(st.nodes, n3, r.value.nodes, Nil, Nil);
    r
  }

  /** The last step of Close: the fix-up of e.prev.prev's hull
      triangle. */
  function FirstTriangleTail(m: Mesh, nodes: seq<Node>, hash: seq<int>, q: int, t: int, qn: Node): (r: Result<State>)
    requires 0 <= q < |nodes| && qn == nodes[q] && 0 <= t + 1 < |m.halfedges|
    ensures r.Ok? && r.value.mesh == m && r.value.hash == hash && |r.value.nodes| == |nodes|
    ensures forall k :: 0 <= k < |nodes| && k != q ==> r.value.nodes[k] == nodes[k]
    ensures r.value.nodes[q] == nodes[q].(t := r.value.nodes[q].t)
    ensures r.value.nodes[q].t == (if qn.t == m.halfedges[t + 1] then t + 2 else qn.t)
    ensures Linked(nodes) ==> Linked(r.value.nodes)
    ensures forall k :: InRing(r.value.nodes, k) <==> InRing(nodes, k)
    ensures Evolves(nodes, r.value.nodes, Nil)
  {
    SetTKeepsRing(nodes, q, t + 2);
    if qn.t == m.halfedges[t + 1] then Ok(State(m, SetT(nodes, q, t + 2), hash))
    else Ok(State(m, nodes, hash))
  }

  /** The mesh update of a walk step: add the triangle (a, b, c) whose
      edges have the outer twins ha, hb and hc, and legalize from its third
      half-edge. Returns the mesh, the new triangle's first half-edge and
      legalize's result. */
  function Fan(m: Mesh, points: seq<Point>, a: int, b: int, c: int, ha: int, hb: int, hc: int, fuel: nat): (r: Result<(Mesh, int, int)>)
    ensures r.Ok? ==> var (m', t, _) := r.value;
              && t == m.len && m'.len == m.len + 3
              && |m'.triangles| == |m.triangles| && |m'.halfedges| == |m.halfedges|
    ensures r.Ok? && Shaped(m) && PointsIn(m.triangles, |points|)
                  && 0 <= a < |points| && 0 <= b < |points| && 0 <= c < |points| ==>
              Shaped(r.value.0) && PointsIn(r.value.0.triangles, |points|)
    ensures r.Err? ==> r.error == IndexOutOfRange || r.error == OutOfFuel
  {
    var (m1, t) :- AddTriangle(m, a, b, c, ha, hb, hc);
    var (m2, ar) :- Legalize(m1, points, t + 2, fuel);
    Ok((m2, t, ar))
  }

  /** The front update that ends a walk step: q.prev's hull triangle
      becomes t and q leaves the hull. When q is live, not alone and not
      the point i being inserted, the ring stays linked, i and both of q's
      neighbours stay live, and q alone leaves. */
  function Retire(nodes: seq<Node>, q: int, t: int, i: int): (r: Result<seq<Node>>)
    requires 0 <= q < |nodes| && 0 <= nodes[q].prev < |nodes|
    ensures r.Ok? ==> && SamePoints(nodes, r.value)
                      && r.value[q].next == nodes[q].next && r.value[q].prev == nodes[q].prev
    ensures r.Ok? && Linked(nodes) && InRing(nodes, i) && InRing(nodes, q) && q != i
                  && (nodes[q].next != q || nodes[q].prev != q) ==>
              && Linked(r.value) && InRing(r.value, i) && !InRing(r.value, q)
              && InRing(r.value, nodes[q].next) && InRing(r.value, nodes[q].prev)
              && Evolves(nodes, r.value, Nil)
    ensures r.Err? ==> Panic(r.error)
  {
    var n1 := SetT(nodes, nodes[q].prev, t);
    RetireKeepsRing(nodes, nodes[q].prev, t, q, i);
    var (n2, _) :- Remove(n1, q);
    Ok(n2)
  }

  /** One step of the forward walk at hull node q, whose edge faces p:
      add the triangle (q, i, q.next) against q.prev's and q's hull
      triangles, legalize it and record the result as q.prev's hull
      triangle, and take q off the hull. Returns q.next. */
  function ForwardStep(st: State, points: seq<Point>, i: int, q: int, fuel: nat): (r: Result<(State, int)>)
    requires 0 <= i < |points|
    ensures r.Ok? ==> && Sized(st, r.value.0) && r.value.0.hash == st.hash
                      && r.value.0.mesh.len == st.mesh.len + 3
                      && SamePoints(st.nodes, r.value.0.nodes)
                      && 0 <= q < |st.nodes| && r.value.1 == st.nodes[q].next
    ensures r.Ok? && Sound(st, |points|) ==> Sound(r.value.0, |points|)
    ensures r.Ok? && Linked(st.nodes) && InRing(st.nodes, i) && InRing(st.nodes, q)
                  && q != i && st.nodes[q].next != q ==>
              var n := r.value.0.nodes;
              Linked(n) && InRing(n, i) && InRing(n, r.value.1) && Evolves(st.nodes, n, Nil)
    ensures r.Err? ==> Panic(r.error) || r.error == OutOfFuel
  {
    var qn :- Get(st.nodes, q);
    var nx :- Get(st.nodes, qn.next);
    var pv :- Get(st.nodes, qn.prev);
    var (m2, _, ar) :- Fan(st.mesh, points, qn.i, i, nx.i, pv.t, -1, qn.t, fuel);
    var n2 :- Retire(st.nodes, q, ar, i);
    Ok((State(m2, n2, st.hash), n2[q].next))
  }

  /** The forward walk: while the hull edge from q faces the new point,
      fan a triangle onto it and move on to q.next. The number of steps is
      bounded by fuel. */
  function WalkForward(st: State, points: seq<Point>, i: int, q: int, fuel: nat): (r: Result<State>)
    requires 0 <= i < |points|
    ensures r.Ok? ==> Sized(st, r.value) && r.value.hash == st.hash && SamePoints(st.nodes, r.value.nodes)
    ensures r.Ok? && Sound(st, |points|) ==> Sound(r.value, |points|)
    ensures r.Ok? && Linked(st.nodes) && InRing(st.nodes, i) && st.nodes[i].p == points[i] && InRing(st.nodes, q) ==>
              Linked(r.value.nodes) && InRing(r.value.nodes, i) && Evolves(st.nodes, r.value.nodes, Nil)
    ensures r.Err? ==> Panic(r.error) || r.error == OutOfFuel
    decreases fuel
  {
    if fuel == 0 then Err(OutOfFuel)
    else
      var qn :- Get(st.nodes, q);
      var nx :- Get(st.nodes, qn.next);
      if Area(points[i], qn.p, nx.p) < 0.0 then
        AreaDegenerate(points[i], nx.p);
        AreaDegenerate(points[i], qn.p);
        var (st1, q') :- ForwardStep(st, points, i, q, fuel);
        var st2 :- WalkForward(st1, points, i, q', fuel - 1);
        EvolvesTrans(st.nodes, st1.nodes, st2.nodes, Nil, Nil);
        Ok(st2)
      else Ok(st)
  }

  /** One step of the backward walk at hull node q, whose incoming edge
      faces p: add the triangle (q.prev, i, q) against q's and q.prev's
      hull triangles, legalize it, record the new triangle as q.prev's
      hull triangle, and take q off the hull. Returns q.prev. */
  function BackwardStep(st: State, points: seq<Point>, i: int, q: int, fuel: nat): (r: Result<(State, int)>)
    requires 0 <= i < |points|
    ensures r.Ok? ==> && Sized(st, r.value.0) && r.value.0.hash == st.hash
                      && r.value.0.mesh.len == st.mesh.len + 3
                      && SamePoints(st.nodes, r.value.0.nodes)
                      && 0 <= q < |st.nodes| && r.value.1 == st.nodes[q].prev
    ensures r.Ok? && Sound(st, |points|) ==> Sound(r.value.0, |points|)
    ensures r.Ok? && Linked(st.nodes) && InRing(st.nodes, i) && InRing(st.nodes, q)
                  && q != i && st.nodes[q].prev != q ==>
              var n := r.value.0.nodes;
              Linked(n) && InRing(n, i) && InRing(n, r.value.1) && Evolves(st.nodes, n, Nil)
    ensures r.Err? ==> Panic(r.error) || r.error == OutOfFuel
  {
    var qn :- Get(st.nodes, q);
    var pv :- Get(st.nodes, qn.prev);
    var (m2, t, _) :- Fan(st.mesh, points, pv.i, i, qn.i, -1, qn.t, pv.t, fuel);
    var n2 :- Retire(st.nodes, q, t, i);
    Ok((State(m2, n2, st.hash), n2[q].prev))
  }

  /** The backward walk: while the hull edge into q faces the new point,
      fan a triangle onto it and move on to q.prev. The number of steps is
      bounded by fuel. */
  function WalkBackward(st: State, points: seq<Point>, i: int, q: int, fuel: nat): (r: Result<State>)
    requires 0 <= i < |points|
    ensures r.Ok? ==> Sized(st, r.value) && r.value.hash == st.hash && SamePoints(st.nodes, r.value.nodes)
    ensures r.Ok? && Sound(st, |points|) ==> Sound(r.value, |points|)
    ensures r.Ok? && Linked(st.nodes) && InRing(st.nodes, i) && st.nodes[i].p == points[i] && InRing(st.nodes, q) ==>
              Linked(r.value.nodes) && InRing(r.value.nodes, i) && Evolves(st.nodes, r.value.nodes, Nil)
    ensures r.Err? ==> Panic(r.error) || r.error == OutOfFuel
    decreases fuel
  {
    if fuel == 0 then Err(OutOfFuel)
    else
      var qn :- Get(st.nodes, q);
      var pv :- Get(st.nodes, qn.prev);
      if Area(points[i], pv.p, qn.p) < 0.0 then
        AreaDegenerate(points[i], pv.p);
        AreaDegenerate(points[i], qn.p);
        var (st1, q') :- BackwardStep(st, points, i, q, fuel);
        var st2 :- WalkBackward(st1, points, i, q', fuel - 1);
        EvolvesTrans(st.nodes, st1.nodes, st2.nodes, Nil, Nil);
        Ok(st2)
      else Ok(st)
  }

  /** One iteration of the sweep for point i: find a hull node through the
      hash, walk to the first visible edge, fill in the triangles, and hash
      the two hull nodes that now meet at i. */
  function Insert(st: State, points: seq<Point>, center: Point, i: int, fuel: nat): (r: Result<State>)
    requires 0 <= i < |points| && |st.hash| > 0
    ensures r.Ok? ==> && Sized(st, r.value) && r.value.mesh.len >= st.mesh.len + 3
                      && 0 <= i < |r.value.nodes| && points[i] != center
                      && var k := HashKey(center, |st.hash|, points[i]).value;
                         r.value.hash[k] == i || r.value.hash[k] == r.value.nodes[i].prev
    ensures r.Ok? && Sound(st, |points|) ==> Sound(r.value, |points|)
    ensures r.Ok? && Linked(st.nodes) && HashOk(st.nodes, st.hash) && !InRing(st.nodes, i) ==>
              && Linked(r.value.nodes) && HashOk(r.value.nodes, r.value.hash) && InRing(r.value.nodes, i)
              && Evolves(st.nodes, r.value.nodes, i)
    ensures points[i] == center ==> r == Err(NaNKey)
    ensures r.Err? ==> SweepError(r.error)
  {
    var p := points[i];
    var key :- HashKey(center, |st.hash|, p);
    var start := Probe(st.hash, st.nodes, key, 0, Nil);
    ProbeFindsRing(st.hash, st.nodes, key);
    WalkStaysInRing(st.nodes, p, start, start, fuel);
    var e :- Walk(st.nodes, p, start, start, fuel);
    var st3 :- Fill(st, points, i, e, e == start, fuel);
    EntriesEvolve(st.nodes, st3.nodes, i, st.hash);
    InsertHash(st3, points, center, i)
  }

  /** The triangles of an iteration once the walk has found the visible
      edge e: the first triangle, the forward walk from i.next and, when
      back holds (e was the node the hash gave), the backward walk from
      i.prev. */
  function Fill(st: State, points: seq<Point>, i: int, e: int, back: bool, fuel: nat): (r: Result<State>)
    requires 0 <= i < |points|
    ensures r.Ok? ==> && Sized(st, r.value) && r.value.mesh.len >= st.mesh.len + 3 && r.value.hash == st.hash
                      && 0 <= i < |r.value.nodes| && r.value.nodes[i].p == points[i]
    ensures r.Ok? && Sound(st, |points|) ==> Sound(r.value, |points|)
    ensures r.Ok? && Linked(st.nodes) && InRing(st.nodes, e) && !InRing(st.nodes, i) ==>
              Linked(r.value.nodes) && InRing(r.value.nodes, i) && Evolves(st.nodes, r.value.nodes, i)
    ensures r.Err? ==> Panic(r.error) || r.error == OutOfFuel
  {
    var st1 :- FirstTriangle(st, points, i, e, fuel);
    LiveNeighbours(st1.nodes, i);
    var st2 :- WalkForward(st1, points, i, st1.nodes[i].next, fuel);
    EvolvesTrans(st.nodes, st1.nodes, st2.nodes, i, Nil);
    LiveNeighbours(st2.nodes, i);
    var st3 :- if back then WalkBackward(st2, points, i, st2.nodes[i].prev, fuel) else Ok(st2);
    EvolvesTrans(st.nodes, st2.nodes, st3.nodes, i, Nil);
    Ok(st3)
  }

  /** The end of an iteration: hash node i, then node i.prev. */
  function InsertHash(st: State, points: seq<Point>, center: Point, i: int): (r: Result<State>)
    requires 0 <= i < |points| && 0 <= i < |st.nodes| && |st.hash| > 0 && st.nodes[i].p == points[i]
    ensures r.Ok? ==> && r.value.mesh == st.mesh && r.value.nodes == st.nodes && |r.value.hash| == |st.hash|
                      && points[i] != center
                      && var k := HashKey(center, |st.hash|, points[i]).value;
                         r.value.hash[k] == i || r.value.hash[k] == st.nodes[i].prev
    ensures r.Ok? ==> forall j :: 0 <= j < |st.hash| ==>
                        r.value.hash[j] == st.hash[j] || r.value.hash[j] == i || r.value.hash[j] == st.nodes[i].prev
    ensures r.Ok? && Linked(st.nodes) && InRing(st.nodes, i)
                  && (forall j :: 0 <= j < |st.hash| ==> EntryOk(st.nodes, st.hash[j])) ==>
              HashOk(st.nodes, r.value.hash)
    ensures r.Err? ==> r.error == IndexOutOfRange || r.error == NaNKey
  {
    LiveNeighbours(st.nodes, i);
    var h1 :- HashEdge(st.hash, st.nodes, center, i);
    var h2 :- HashEdge(h1, st.nodes, center, st.nodes[i].prev);
    Ok(st.(hash := h2))
  }

  /** The point just before position k in sorted order, which is what the
      sweep's `pp` holds when it reaches position k. */
  function PrevPoint(points: seq<Point>, ids: seq<int>, k: nat): (r: Option<Point>)
    requires k <= |ids| && forall j :: 0 <= j < |ids| ==> 0 <= ids[j] < |points|
    ensures r.None? <==> k == 0
    ensures r.Some? ==> r.value == points[ids[k - 1]]
  {
    if k == 0 then None else Some(points[ids[k - 1]])
  }

  /** The sweep inserts the point at position k: it differs from the point
      before it and is not a seed. */
  predicate Inserts(points: seq<Point>, ids: seq<int>, s: Seeds, k: nat)
    requires k < |ids| && forall j :: 0 <= j < |ids| ==> 0 <= ids[j] < |points|
  {
    PrevPoint(points, ids, k) != Some(points[ids[k]]) && ids[k] != s.i0 && ids[k] != s.i1 && ids[k] != s.i2
  }

  /** The number of positions from k on whose point the sweep inserts. */
  function InsertCount(points: seq<Point>, ids: seq<int>, s: Seeds, k: nat): (c: nat)
    requires k <= |ids| && forall j :: 0 <= j < |ids| ==> 0 <= ids[j] < |points|
    ensures c <= |ids| - k
    decreases |ids| - k
  {
    if k == |ids| then 0
    else (if Inserts(points, ids, s, k) then 1 else 0) + InsertCount(points, ids, s, k + 1)
  }

  /** In sorted order the sweep inserts exactly the first copy of every
      point, unless that copy is itself a seed. */
  lemma InsertsFirstCopies(c: Point, points: seq<Point>, ids: seq<int>, s: Seeds, k: nat)
    requires forall j :: 0 <= j < |ids| ==> 0 <= ids[j] < |points|
    requires Sorted(c, points, ids) && k < |ids|
    ensures Inserts(points, ids, s, k) <==>
              && (forall l :: 0 <= l < k ==> points[ids[l]] != points[ids[k]])
              && ids[k] != s.i0 && ids[k] != s.i1 && ids[k] != s.i2
  {
    EarlierCopyIsPrevious(c, points, ids, k);
  }

  /** The duplicate test comes before the seed test: a copy of a seed point
      that sorts before the seed itself is inserted like any other point,
      and the seed is then skipped as its duplicate. */
  lemma SeedCopyInserted(c: Point, points: seq<Point>, ids: seq<int>, s: Seeds, k: nat, m: nat)
    requires forall j :: 0 <= j < |ids| ==> 0 <= ids[j] < |points|
    requires Sorted(c, points, ids) && k < m < |ids| && ids[m] == s.i0
    requires ids[k] != s.i0 && ids[k] != s.i1 && ids[k] != s.i2
    requires points[ids[k]] == points[s.i0]
    requires forall l :: 0 <= l < k ==> points[ids[l]] != points[s.i0]
    ensures Inserts(points, ids, s, k)
    ensures !Inserts(points, ids, s, m)
  {
    InsertsFirstCopies(c, points, ids, s, k);
  }

  /** The loop of `triangulate` from position k on. A position whose point
      equals the previous one is skipped without touching pp, a seed is
      skipped, and every other point is inserted. */
  function SweepFrom(st: State, points: seq<Point>, ids: seq<int>, center: Point, s: Seeds,
                     k: nat, pp: Option<Point>, fuel: nat): (r: Result<State>)
    requires k <= |ids| && (forall j :: 0 <= j < |ids| ==> 0 <= ids[j] < |points|) && |st.hash| > 0
    requires pp == PrevPoint(points, ids, k)
    ensures r.Ok? ==> Sized(st, r.value)
    ensures r.Ok? ==> r.value.mesh.len >= st.mesh.len + 3 * InsertCount(points, ids, s, k)
    ensures r.Ok? && Sound(st, |points|) ==> Sound(r.value, |points|)
    ensures r.Ok? ==> forall j :: k <= j < |ids| && Inserts(points, ids, s, j) ==> points[ids[j]] != center
    ensures r.Err? ==> SweepError(r.error)
    decreases |ids| - k
  {
    hide Insert;  // only the contract of Insert is needed here
    if k == |ids| then Ok(st)
    else
      var i := ids[k];
      var p := points[i];
      if pp == Some(p) then SweepFrom(st, points, ids, center, s, k + 1, pp, fuel)
      else if i == s.i0 || i == s.i1 || i == s.i2 then SweepFrom(st, points, ids, center, s, k + 1, Some(p), fuel)
      else
        var st1 :- Insert(st, points, center, i, fuel);
        SweepFrom(st1, points, ids, center, s, k + 1, Some(p), fuel)
  }

  /** The circumcentre of a counter-clockwise seed triangle. */
  function SeedCenter(points: seq<Point>, s: Seeds): (c: Point)
    requires ValidSeeds(points, s)
    ensures SqDist(c, points[s.i0]) == SqDist(c, points[s.i1]) == SqDist(c, points[s.i2])
  {
    AreaIsNegatedCross(points[s.i0], points[s.i1], points[s.i2]);
    Circumcenter(points[s.i0], points[s.i1], points[s.i2]).value
  }

  /** One node of the first hull: node k for point k after prev, with hull
      triangle t, hashed as soon as it is made. */
  function SeedNode(nodes: seq<Node>, hash: seq<int>, points: seq<Point>, center: Point,
                    k: int, prev: int, t: int): (r: Result<(seq<Node>, seq<int>)>)
    requires 0 <= k < |points| && |hash| > 0
    ensures r.Ok? ==> && |r.value.0| == |nodes| && |r.value.1| == |hash| && points[k] != center
                      && r.value.1[HashKey(center, |hash|, points[k]).value] == k
                      && forall j :: 0 <= j < |hash| ==> r.value.1[j] == hash[j] || r.value.1[j] == k
    ensures r.Ok? && NodeIndicesIn(nodes, |points|) ==> NodeIndicesIn(r.value.0, |points|)
    ensures r.Ok? && Linked(nodes) && !InRing(nodes, k) && (prev == Nil || InRing(nodes, prev)) ==>
              && Linked(r.value.0) && InRing(r.value.0, k)
              && forall j :: 0 <= j < |nodes| && j != k ==> (InRing(r.value.0, j) <==> InRing(nodes, j))
    ensures r.Err? ==> Panic(r.error) || r.error == NaNKey
  {
    var n1 :- NewNode(nodes, points[k], k, prev);
    NewNodeKeepsRing(nodes, points[k], k, prev);
    var n2 := SetT(n1, k, t);
    SetTKeepsRing(n1, k, t);
    var h :- HashEdge(hash, n2, center, k);
    Ok((n2, h))
  }

  /** The first hull: nodes for i0, i1 and i2 in that order, each after the
      last, with hull triangle 0, 1 and 2. On a front with no live node and
      an empty hash this makes the ring of the three seeds. */
  function SeedFront(nodes: seq<Node>, hash: seq<int>, points: seq<Point>, center: Point, s: Seeds): (r: Result<(seq<Node>, seq<int>)>)
    requires s.i0 < |points| && s.i1 < |points| && s.i2 < |points| && |hash| > 0
    ensures r.Ok? ==> |r.value.0| == |nodes| && |r.value.1| == |hash|
    ensures r.Ok? && NodeIndicesIn(nodes, |points|) ==> NodeIndicesIn(r.value.0, |points|)
    ensures r.Ok? && s.i0 != s.i1 && s.i0 != s.i2 && s.i1 != s.i2
                  && (forall k :: 0 <= k < |nodes| ==> !InRing(nodes, k))
                  && (forall j :: 0 <= j < |hash| ==> hash[j] == Nil) ==>
              && Linked(r.value.0) && HashOk(r.value.0, r.value.1)
              && forall k :: 0 <= k < |nodes| ==> (InRing(r.value.0, k) <==> k == s.i0 || k == s.i1 || k == s.i2)
    ensures r.Err? ==> Panic(r.error) || r.error == NaNKey
  {
    hide SeedNode;  // only the contract of SeedNode is needed here
    EmptyLinked(nodes);
    var (n1, h1) :- SeedNode(nodes, hash, points, center, s.i0, Nil, 0);
    var (n2, h2) :- SeedNode(n1, h1, points, center, s.i1, s.i0, 1);
    var (n3, h3) :- SeedNode(n2, h2, points, center, s.i2, s.i1, 2);
    assert h3[HashKey(center, |hash|, points[s.i2]).value] == s.i2;
    Ok((n3, h3))
  }

  /** The seed hull on fresh arrays: n unlinked nodes and an empty hash of
      ceil(sqrt(n)) slots, then the three seeds linked and hashed. */
  function SeedHull(points: seq<Point>, s: Seeds, center: Point): (r: Result<(seq<Node>, seq<int>)>)
    requires s.i0 < |points| && s.i1 < |points| && s.i2 < |points|
    requires s.i0 != s.i1 && s.i0 != s.i2 && s.i1 != s.i2
    ensures r.Ok? ==> && |r.value.0| == |points| && |r.value.1| == CeilSqrt(|points|) && |r.value.1| > 0
                      && NodeIndicesIn(r.value.0, |points|)
    ensures r.Ok? ==> && Linked(r.value.0) && HashOk(r.value.0, r.value.1)
                      && forall k :: 0 <= k < |points| ==>
                           (InRing(r.value.0, k) <==> k == s.i0 || k == s.i1 || k == s.i2)
    ensures r.Err? ==> Panic(r.error) || r.error == NaNKey
  {
    var n := |points|;
    var size := CeilSqrt(n);
    CeilSqrtPositive(n);
    var nodes: seq<Node> := seq(n, _ => Zero);
    var hash: seq<int> := seq(size, _ => Nil);
    assert forall k :: 0 <= k < |nodes| ==> !InRing(nodes, k);
    assert forall j :: 0 <= j < |hash| ==> hash[j] == Nil;
    assert NodeIndicesIn(nodes, n);
    SeedFront(nodes, hash, points, center, s)
  }

  /** The state before the sweep: an empty hash of ceil(sqrt(n)) slots, the
      seed hull, and arrays for 2n - 5 triangles holding the seed
      triangle. */
  function Start(points: seq<Point>, s: Seeds, center: Point): (r: Result<State>)
    requires s.i0 < |points| && s.i1 < |points| && s.i2 < |points|
    requires s.i0 != s.i1 && s.i0 != s.i2 && s.i1 != s.i2
    ensures r.Ok? ==> && |r.value.hash| == CeilSqrt(|points|) && |r.value.hash| > 0
                      && r.value.mesh.len == 3 && Sound(r.value, |points|)
    ensures r.Ok? ==> && Linked(r.value.nodes) && HashOk(r.value.nodes, r.value.hash)
                      && forall k :: 0 <= k < |points| ==>
                           (InRing(r.value.nodes, k) <==> k == s.i0 || k == s.i1 || k == s.i2)
    ensures r.Err? ==> Panic(r.error) || r.error == NaNKey
  {
    var (nodes, hash) :- SeedHull(points, s, center);
    var mesh := SeedMesh(|points|, s).value;
    Ok(State(mesh, nodes, hash))
  }

  /** Zeroed arrays for 2n - 5 triangles with the seed triangle added.
      Three distinct seeds mean n >= 3, so there is room for it. */
  function SeedMesh(n: nat, s: Seeds): (r: Result<Mesh>)
    requires s.i0 < n && s.i1 < n && s.i2 < n
    requires s.i0 != s.i1 && s.i0 != s.i2 && s.i1 != s.i2
    ensures r.Ok?
    ensures r.Ok? ==> && r.value.len == 3 && Shaped(r.value) && PointsIn(r.value.triangles, n)
                      && r.value.triangles[..3] == [s.i0, s.i1, s.i2]
  {
    var cap := 3 * (2 * n - 5);
    var m0 := Mesh(seq(cap, _ => 0), seq(cap, _ => 0), 0);
    var added := AddTriangle(m0, s.i0, s.i1, s.i2, -1, -1, -1);
    AddTrianglePointsIn(m0, s.i0, s.i1, s.i2, -1, -1, -1, n);
    Ok(added.value.0)
  }

  /** The used part of the arrays, as the end of `triangulate` slices
      them. */
  function Trim(m: Mesh): (r: Triangulation)
    requires Shaped(m)
    ensures |r.triangles| == |r.halfedges| == m.len
    ensures forall k :: 0 <= k < m.len ==> r.triangles[k] == m.triangles[k] && r.halfedges[k] == m.halfedges[k]
  {
    Triangulation(m.triangles[..m.len], m.halfedges[..m.len])
  }

  /** Everything after the seeds: the centre, the initial state, the sweep
      over ids and the final slicing. */
  function FromSeeds(points: seq<Point>, ids: seq<int>, s: Seeds, fuel: nat): (r: Result<Triangulation>)
    requires IsPermutation(ids, |points|) && ValidSeeds(points, s)
    ensures |points| >= 3
    ensures r.Ok? ==> WholeTriangles(r.value, |points|)
    ensures r.Err? ==> SweepError(r.error)
  {
    var center := SeedCenter(points, s);
    var st0 :- Start(points, s, center);
    var st :- SweepFrom(st0, points, ids, center, s, 0, None, fuel);
    Ok(Trim(st.mesh))
  }

  /** triangulation.go `triangulate` for the points and the order ids that
      `sort.Sort` leaves. No points give an empty triangulation; the seed
      search failing gives `NoTriangulation`, and no other path does;
      otherwise the result is whole triangles over the input's point
      indices. */
  function Triangulate(points: seq<Point>, ids: seq<int>, fuel: nat): (r: Result<Triangulation>)
    requires IsPermutation(ids, |points|)
    ensures |points| == 0 ==> r == Ok(Triangulation([], []))
    ensures |points| > 0 && SeedsOf(points).Err? ==> r == Err(NoTriangulation)
    ensures r.Err? && r.error == NoTriangulation ==> |points| > 0 && SeedsOf(points).Err?
    ensures r.Ok? && |points| > 0 ==> |points| >= 3 && WholeTriangles(r.value, |points|)
  {
    if |points| == 0 then Ok(Triangulation([], []))
    else
      var s :- SeedsOf(points);
      FromSeeds(points, ids, s, fuel)
  }

  /** `NoTriangulation` comes back exactly for inputs whose points all lie
      on one line. */
  lemma TriangulateFailsIffCollinear(points: seq<Point>, ids: seq<int>, fuel: nat)
    requires IsPermutation(ids, |points|)
    ensures var r := Triangulate(points, ids, fuel);
            (r.Err? && r.error == NoTriangulation) <==> |points| > 0 && AllCollinear(points)
  {
    var r := Triangulate(points, ids, fuel);
    if |points| > 0 {
      SeedsFailIffCollinear(points);
      if SeedsOf(points).Err? {
        assert r == Err(NoTriangulation);
        assert AllCollinear(points);
      } else {
        assert !AllCollinear(points);
        assert r.Err? ==> SweepError(r.error);
      }
    } else {
      assert r.Ok?;
    }
  }
}
