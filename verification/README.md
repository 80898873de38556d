# delaunay — a Dafny model of the sweep-hull triangulator

This project models the core of fogleman/delaunay, a Go port of the
"delaunator" sweep-hull Delaunay triangulation:

- **Preparation.** `triangulate` takes the bounding-box centre. It picks three
  seed points: the point nearest that centre, the point nearest to it, and the
  point giving the smallest circumcircle. It swaps two seeds so that `area` of
  the seed triangle is positive, then sorts all points by distance from the
  seed circumcentre.
- **Sweep.** It inserts the points one by one. Each new point finds a visible
  edge of the advancing convex hull through an edge hash keyed by pseudo-angle.
  It then fans new triangles onto the hull, forward and backward, and restores
  the Delaunay condition with recursive edge flips (`legalize`).
- **Output.** A triangle/half-edge pair of integer arrays.

How Go's constructs appear in the model:

- **Arithmetic.** Geometry is over exact `real`s. The predicates of `util.go`
  (`area`, `inCircle`, `circumradius`, `circumcenter`) are polynomial sign
  tests. The big-integer branches of `robust.go` work on the 52-bit
  mantissas of coordinates in [1, 2) as `int`s.
- **State.** The triangulator's arrays are immutable sequences. The hull ring
  of `node.go` is an arena of nodes with integer `prev`/`next` links and a
  `removed` flag.
- **Errors and panics.** Go's `error` results and its runtime panics (an index
  out of range, a nil dereference) are values of one `Result` type, so every
  operation is a total function.
- **Loops.** Loops whose termination depends on geometry (the visible-edge
  walk, the forward and backward walks, and `legalize`'s recursion) take a
  fuel bound and report `OutOfFuel` when it runs out.
- **Sorting.** The order that `sort.Sort` leaves is an input.
- **Corrections.** The two defects under "Findings" are modelled twice: once
  as written, and once corrected. The sweep uses the corrected `hashKey` and
  `legalize` step.

Modules follow the source files:

| module | file | models |
|---|---|---|
| `Results` | `results.dfy` | errors as values |
| `Util` | `util.dfy` | `util.go` |
| `Robust` | `robust.dfy` | `robust.go` |
| `Front` | `node.dfy` | `node.go` |
| `HalfEdges` | `mesh.dfy` | `link`, `addTriangle`, `legalize` |
| `Seeds` | `seeds.dfy` | bounds, seeds, orientation, `Less` |
| `Hash` | `hash.dfy` | `hashKey`, `hashEdge`, the probe |
| `Sweep` | `sweep.dfy` | the insertion loop and `Triangulate` |
| `Ring` | `ring.dfy` | the hull invariant across the whole sweep |
| `Findings` | `findings.dfy` | the inputs behind the findings below |
| `Square` | `square.dfy` | the square of package_test.go through the seed phase |

## Model

| member | source | states |
|---|---|---|
| Util.Area | util.go:7-9 | A triangle with a repeated corner has zero area, so it is oriented neither way. |
| Util.AreaSwap | util.go:7-9 | Exchanging the last two points negates the signed area. |
| Util.AreaRotate | util.go:7-9 | The signed area is unchanged by rotating (a, b, c) to (b, c, a). |
| Util.AreaDegenerate | util.go:7-9 | A triangle with a repeated vertex has zero area. |
| Util.AreaIsNegatedCross | util.go:7-9 | `area` is the negation of the cross product (b - a) x (c - a), the quantity `robustCross2D` and the circumcentre divide by. |
| Util.InCircle | util.go:11-24 | The comparison is strict: a corner of the triangle is never inside its own circle, and a triangle with a repeated corner has no inside. |
| Util.InCircleDetIsLifted | util.go:11-24 | The determinant `inCircle` evaluates relative to p equals the same lifted determinant taken relative to a. |
| Util.InCircleDetIsPower | util.go:11-24 | For a non-degenerate triangle, the `inCircle` determinant is the cross product times the power of p with respect to the circumcircle. |
| Util.InCircleIffInside | util.go:11-24 | For a triangle of positive area (the seed orientation), `inCircle` holds exactly when p is strictly nearer the circumcentre than the vertices are. |
| Util.CocircularIsNotInCircle | util.go:23 | The test is strict: a fourth point on the circumcircle is not "in circle". |
| Util.OffsetEquations | util.go:36-37 | The offset (x, y) that `circumradius` and `circumcenter` compute solves the two perpendicular-bisector equations for b and c. |
| Util.Circumcenter | util.go:48-62 | A centre exists exactly when the points are not collinear, and it is equidistant from a, b and c. |
| Util.CircumcenterIsOffset | util.go:26-62 | The circumcentre is a shifted by the same (x, y) `circumradius` computes, so x² + y² is its squared distance to a. |
| Util.CircumradiusPositive | util.go:41-43 | When d is non-zero, bl, cl and r are all positive, so of the four degeneracy tests only d == 0 can fire. |
| Util.RadiusOf | util.go:26-46 | The radius is infinite exactly when d == 0; otherwise it is the positive x² + y². |
| Util.Circumradius | util.go:26-46 | Infinite exactly for collinear points, including b == a, c == a and b == c; otherwise it is the squared distance from a to the circumcentre. |
| Robust.Value | robust.go:33-38 | A 52-bit mantissa denotes a coordinate in [1, 2). |
| Robust.ValueInjective | robust.go:33-38 | Distinct mantissas denote distinct coordinates, so the big-integer branches lose nothing. |
| Robust.ExactInCirclePolyIsLifted | robust.go:73-82 | The six `mul3` terms of `exactInCircle` sum to the lifted in-circle determinant of the translated integers. |
| Robust.ExactInCircleValueIsLifted | robust.go:66-82 | After the in-place subtraction of a, the big-integer value is the determinant relative to a. |
| Robust.ExactInCircle | robust.go:66-84 | `exactInCircle` is true exactly when `util.go`'s `inCircle` holds for the integer points. |
| Robust.InCircleScale | robust.go:106-115 | `inCircle` on the coordinates agrees with `inCircle` on the mantissa grid. |
| Robust.RobustInCircle | robust.go:86-116 | For both values of `robust`, and on both the fast and the exact path, the answer is `util.go`'s `inCircle`. |
| Robust.AreaScale | robust.go:150-162 | Area on the coordinates, scaled by 2^104, is the area on the mantissa grid. |
| Robust.ExactOrientValue | robust.go:150-162 | The big-integer expression of `robustOrient` equals `area` of the integer points. |
| Robust.RobustOrient | robust.go:139-164 | For both values of `robust`, the answer is "area is negative". |
| Robust.CrossScale | robust.go:174-186 | The cross product on the coordinates, scaled by 2^104, is the one on the mantissa grid. |
| Robust.ExactCrossValue | robust.go:174-186 | The big-integer expression of `robustCross2D` is the cross product of the integer points. |
| Robust.RobustCross2D | robust.go:166-187 | The result is the sign (-1, 0 or 1) of the cross product, whichever path decides it. |
| Robust.RobustCross2DAntisymmetric | robust.go:166-187 | Exchanging a and b negates the result, and the `robust` flag has no effect. |
| Robust.DistanceScale | robust.go:127-136 | The difference of squared distances, scaled by 2^104, is the one on the mantissa grid. |
| Robust.ExactDistanceValue | robust.go:134-136 | The big-integer `ad - bd` is the difference of squared distances of the integer points. |
| Robust.CopySignOne | robust.go:124 | `int(math.Copysign(1, d))` is 1 for non-negative d and -1 for negative d; it is never 0. |
| Robust.RobustDistanceComparison | robust.go:118-137 | With `robust`, the result is the sign of (squared distance p to a) minus (squared distance p to b). Without it, the result is 1 or -1, never 0. |
| Robust.RobustDistanceComparisonAntisymmetric | robust.go:118-137 | The robust comparison is antisymmetric in a and b. |
| Robust.PlainDistanceComparisonTie | robust.go:123-124 | On a tie, the non-robust path answers 1 while the robust path answers 0. |
| Front.NewNode | node.go:12-27 | Succeeds exactly when slot i exists and so do prev and prev.next, if prev is given. It writes p, i and removed = false into slot i and leaves t alone. With no prev it makes a one-node ring. With prev it splices the node in after prev and before prev's old next. |
| Front.Remove | node.go:29-34 | Links n's neighbours to each other, marks n removed and returns its old prev. It leaves n's own links, every point and every t unchanged, and leaves every non-neighbour untouched. |
| Front.NewRingLinked | node.go:17-19 | A one-node ring started in an arena whose links are consistent keeps them consistent. |
| Front.SpliceLinked | node.go:20-25 | Splicing a fresh node after a live one keeps next and prev mutual inverses over the live nodes. |
| Front.NewNodePreservesLinked | node.go:12-27 | Both cases of `newNode` keep the ring consistent, and the new node joins it. |
| Front.NewNodeKeepsRing | node.go:12-27 | `newNode` adds exactly node i to the ring: no other node joins or leaves. |
| Front.NewNodeKeepsOthers | node.go:12-27 | `newNode` changes no other node's membership or removed flag. |
| Front.RemovePreservesLinked | node.go:29-34 | Removing a live node keeps the ring consistent. The node leaves the ring and its returned prev stays in it, unless the node was alone. |
| Front.RemoveKeepsOthers | node.go:29-34 | Removal keeps n's own prev/next and keeps every other live node live. |
| Front.RemoveEvolves | node.go:29-34 | Removal only takes nodes out of the ring and moves no point. |
| Front.LiveNeighbours | node.go:20-33 | In a consistent ring, a live node's next and prev are live and link back to it. |
| Front.SetT | triangulation.go:209 | Only node k's triangle field changes. Every other field of k, and every other node, stays as it was. |
| Front.SetTKeepsRing | triangulation.go:209 | Setting a node's t changes neither ring membership nor linkage. |
| Front.SpliceKeepsRing | triangulation.go:209-210 | Recording the hull triangle on e and then inserting the new point after e keeps the ring consistent, with the new point in it. |
| Front.RetireKeepsRing | triangulation.go:222-223 | Setting q.prev.t and removing q keeps the ring consistent and the new point live, and keeps q's neighbours live. |
| HalfEdges.GoRem3 | triangulation.go:288-293 | Go's `x % 3` is congruent to x. It lies in [0, 3) for non-negative x and in (-3, 0] for negative x. |
| HalfEdges.Link | triangulation.go:278-283 | Sets halfedges[a] = b, and sets halfedges[b] = a only when b >= 0. No other entry changes; an index out of range is a panic. |
| HalfEdges.AddTriangle | triangulation.go:266-276 | Writes i0, i1, i2 at the old length and returns that index. It grows the length by exactly 3, so the length stays a multiple of 3. It fails exactly when the arrays are full or a twin a, b or c is at or past the end of `halfedges`, which is `link`'s index panic at triangulation.go:281. |
| HalfEdges.AddTriangleLinks | triangulation.go:266-283 | The three new half-edges get twins a, b and c, and each non-negative twin points back. Every other entry is unchanged. |
| HalfEdges.AddTrianglePreservesReciprocal | triangulation.go:266-283 | Linking only to half-edges without a twin, or to -1, keeps halfedges[halfedges[e]] == e for every paired e. |
| HalfEdges.AddTrianglePointsIn | triangulation.go:266-270 | Triangles over point indices below n stay so after adding one over such indices. |
| HalfEdges.CornersOf | triangulation.go:286-310 | a0 is the start of a's triangle; al and ar are the other two corners of that triangle. When b >= 0 the same holds for b0, bl and br. When b == -1, Go's remainder gives b0 = 0, bl = 1 and br = 0. |
| HalfEdges.Flip | triangulation.go:303-308 | A flip changes exactly triangles[a] and triangles[b] and keeps the arrays' sizes. |
| HalfEdges.Relink | triangulation.go:306-308 | On success a, b, ar and bl are all in range, ar and bl are twins of each other, and the array keeps its size. The only failure is an index out of range. |
| HalfEdges.RelinkEffect | triangulation.go:306-308 | The three `link` calls pair a with the old twin of bl, b with the old twin of ar, and ar with bl. Nothing else changes. |
| HalfEdges.FlipEffect | triangulation.go:302-308 | Under FlipReady (a's twin in another triangle, and the twins of bl and ar outside both triangles), a flip rewrites exactly triangles[a] and triangles[b] and the four pairs, and keeps every twin reciprocal. |
| HalfEdges.FlipReadyFacts | triangulation.go:286-298 | FlipReady assumes that a's twin b lies in another triangle and that the twins of bl and ar lie outside both triangles. From that, a, b, ar and bl are distinct and in range, and the outer twins are reciprocal, distinct from the four and from each other. |
| HalfEdges.FlipKeepsReciprocal | triangulation.go:302-308 | Whenever a's twin lies in another triangle and neither bl nor ar is its own twin, the three links keep every twin reciprocal, wherever the outer twins lie. If the triangles also share the edge bl/ar, the array comes back unchanged. Otherwise a pairs with bl's old twin, b with ar's old twin, and ar with bl. |
| HalfEdges.SharedEdgeRelink | triangulation.go:306-308 | When the two triangles share a second edge bl/ar, the three links undo each other. |
| HalfEdges.FlipTwinsWithinTriangle | triangulation.go:306-312 | The condition under which a flip keeps reciprocity is not itself kept. When bl is twinned with al (the triangles share a-b and al-bl), the flip gives a the twin al, in a's own triangle, so a is no longer Flippable. a is the edge legalize goes on with at line 312. |
| HalfEdges.FlipCanTwinWithinTriangle | triangulation.go:306-312 | One reciprocal mesh where the above happens: halfedges [3, 5, -1, 0, -1, 1] is Flippable at 0, and the flip gives [1, 0, 5, -1, -1, 2]. |
| HalfEdges.TwinInOwnTriangle | triangulation.go:286-290 | A half-edge whose twin lies in its own triangle gets b0 == a0 from legalize's index arithmetic, so it is not Flippable. |
| HalfEdges.RepairPreservesReciprocal | triangulation.go:306-308 | Rewiring the four pairs of a flip keeps the twin relation reciprocal. |
| HalfEdges.LegalizeStepAsWritten | triangulation.go:285-317 | One step of `legalize` as written, hull edges included. A flip keeps the length and the array sizes, and keeps triangles over valid points. Its only failure is an index out of range. |
| HalfEdges.HullEdgeAsWritten | triangulation.go:286-304 | On a half-edge without a twin, the step as written tests the far corner triangles[1]. If that point is in the circle, the step writes through index -1. |
| HalfEdges.LegalizeStep | triangulation.go:285-317 | One step of `legalize` with hull edges legal. It has the same guarantees as the step as written. |
| HalfEdges.HullEdgeIsLegal | triangulation.go:285-317 | A half-edge without a twin is legal, and the step returns ar. |
| HalfEdges.LegalizeStepRefinesAsWritten | triangulation.go:285-317 | Wherever the step as written succeeds, the corrected step gives the same result. The two differ only on hull edges. |
| HalfEdges.LegalStepChangesNothing | triangulation.go:300-316 | When the opposite corner is not in the circle, nothing is modified and ar is returned. |
| HalfEdges.IllegalStepFlips | triangulation.go:302-310 | An illegal edge is flipped when it is Flippable: the mesh is reciprocal, a's twin lies in another triangle, and neither bl nor ar is its own twin. Then triangles[a] takes p1, triangles[b] takes p0, twins stay reciprocal, and the recursion continues at br. |
| HalfEdges.Legalize | triangulation.go:285-317 | The recursion keeps the length and array sizes and keeps triangles over valid points. Its only failures are a panic or running out of fuel. |
| Seeds.Min | triangulation.go:70-88 | The bounds loop's minimum is a lower bound attained by some point. |
| Seeds.Max | triangulation.go:70-88 | The bounds loop's maximum is an upper bound attained by some point. |
| Seeds.Midpoint | triangulation.go:93 | The box centre lies inside the bounding box. |
| Seeds.ArgMin | triangulation.go:94-101 | The running-minimum loop finds nothing exactly when no candidate has a score. Otherwise it keeps the first index of least score. |
| Seeds.SeedI0 | triangulation.go:92-101 | i0 is nearest the box centre, and is the first among equally near points. |
| Seeds.SeedI0Is | triangulation.go:92-101 | That characterisation determines i0. |
| Seeds.SeedI1 | triangulation.go:103-114 | i1 is the nearest point to i0 that differs from it, first among ties. When every point coincides with i0, i1 stays 0. |
| Seeds.SeedI1Is | triangulation.go:103-114 | That characterisation determines i1. |
| Seeds.SamePointIffZero | triangulation.go:110 | `d > 0` excludes exactly the copies of point i0. |
| Seeds.SeedsOf | triangulation.go:90-135 | The seeds are three distinct valid indices whose triangle has positive area after the swap. The only failure is "no triangulation". |
| Seeds.SeedsSmallestCircle | triangulation.go:116-135 | i2 is the first point with the smallest finite circumradius over i0 and i1, and the swap only exchanges i1 and i2. |
| Seeds.SeedsFailIffCollinear | triangulation.go:116-130 | The seed phase fails exactly when all points are collinear. That includes one or two points and all-coincident input. |
| Seeds.Less | triangulation.go:46-58 | A point strictly nearer the centre sorts first. A point sorts before another only if it is no farther from the centre and is a different point. |
| Seeds.LessIsStrictTotal | triangulation.go:46-58 | `Less` is irreflexive, asymmetric and transitive, and orders any two distinct points. |
| Seeds.CopiesContiguous | triangulation.go:46-58 | In an order sorted by `Less`, copies of a point are contiguous. |
| Seeds.EarlierCopyIsPrevious | triangulation.go:172-176 | In a sorted order, a point has an earlier copy exactly when the previous position holds one. So the `pp` check skips exactly the repeated copies. |
| Hash.CeilSqrt | triangulation.go:144 | The table size is the least k with k² >= n. |
| Hash.PseudoAngle | triangulation.go:253-258 | The pseudo-angle lies in (-2, 2] and reaches 2 only on the negative x axis. |
| Hash.PseudoAngleSign | triangulation.go:255-258 | The pseudo-angle is positive above the centre and negative below it. |
| Hash.HashKeyAsWritten | triangulation.go:250-260 | The key as written fails (Go's NaN) exactly at the centre itself. |
| Hash.HashKeyAsWrittenRange | triangulation.go:250-260 | The key as written lies in [0, size], and equals size, one past the table, exactly on the ray from the centre toward negative x. |
| Hash.HashKey | triangulation.go:250-260 | The corrected key always lies in [0, size). |
| Hash.HashKeyCorrects | triangulation.go:259 | The corrected key differs from the key as written only on that ray, where it is slot 0. |
| Hash.TwoSlotKey | triangulation.go:250-260 | With two slots, a point above the centre hashes to 1 and one below to 0. |
| Hash.HashEdgeAsWritten | triangulation.go:262-264 | `hashEdge` as written needs a valid node, and keeps the table size when it succeeds. |
| Hash.HashEdge | triangulation.go:262-264 | The corrected `hashEdge` stores e in its key's slot and changes nothing else. It fails only for a missing node or a node at the centre. |
| Hash.HashEdgeRefinesAsWritten | triangulation.go:262-264 | Wherever `hashEdge` as written succeeds, the corrected one agrees. It succeeds where the one as written panics exactly for nodes on the negative-x ray. |
| Hash.Probe | triangulation.go:183-195 | `start` is always a table entry or the value it started with, and it is a table entry once the loop has looked at one slot. |
| Hash.ProbeIsFirstLive | triangulation.go:183-195 | The probe returns the first live entry in wrap-around order from the key. With none, it returns the last entry visited. |
| Hash.ProbeFindsRing | triangulation.go:183-195 | When the table names only ring nodes and at least one is live, the probe returns a node of the hull ring. |
| Hash.EntriesEvolve | triangulation.go:188 | Table entries that named ring nodes still do after the ring only gains the new point and loses removed nodes. |
| Sweep.Get | triangulation.go:197-198 | Following a pointer succeeds exactly for a node of the arena, and gives that node. A nil or foreign pointer is a panic. |
| Sweep.Walk | triangulation.go:197-203 | A found edge is visible from p (area(p, e, e.next) < 0). Failure is a panic, a full lap, or fuel. |
| Sweep.WalkFindsFirstVisible | triangulation.go:197-203 | The walk returns the first visible edge after start. |
| Sweep.WalkFullLap | triangulation.go:200-202 | A lap in which no edge is visible ends with "something is wrong with the input points". |
| Sweep.WalkStaysInRing | triangulation.go:197-203 | Starting on the hull, the walk stops on the hull. |
| Sweep.Open | triangulation.go:207-210 | The first triangle is appended, e.t is set, and the new point joins the ring after e. |
| Sweep.Close | triangulation.go:213-216 | Legalizing and updating e.prev.prev.t changes no ring membership or linkage, and grows no array. |
| Sweep.FirstTriangleTail | triangulation.go:214-216 | e.prev.prev.t becomes t + 2 exactly when it held the twin of half-edge t + 1. The mesh, the table, the ring and every other node are unchanged, and the step never fails. |
| Sweep.FirstTriangle | triangulation.go:207-216 | The first triangle adds three entries, keeps the mesh sound, and inserts the new point into a consistent ring. |
| Sweep.Fan | triangulation.go:221-222 | Adding a fan triangle and legalizing it grows the length by 3 and keeps triangles whole and over valid points. |
| Sweep.Retire | triangulation.go:222-223 | Setting prev.t and removing q keeps the ring consistent, keeps the new point live and keeps q's neighbours live. |
| Sweep.ForwardStep | triangulation.go:220-224 | One forward step adds a triangle, removes q and moves to q.next, keeping the ring consistent. |
| Sweep.WalkForward | triangulation.go:218-225 | The forward walk keeps the ring consistent, the new point live, and the mesh sound. |
| Sweep.BackwardStep | triangulation.go:229-235 | One backward step adds a triangle, removes q and moves to q.prev, keeping the ring consistent. |
| Sweep.WalkBackward | triangulation.go:227-237 | The backward walk keeps the ring consistent, the new point live, and the mesh sound. |
| Sweep.Fill | triangulation.go:205-237 | Inserting a point adds at least one triangle and leaves the point live in a consistent ring. |
| Sweep.InsertHash | triangulation.go:239-241 | After the two `hashEdge` calls, the new point's key slot names the point or its prev, and every other slot is unchanged or names one of them. |
| Sweep.Insert | triangulation.go:183-241 | One insertion keeps the ring consistent and the table pointing into it. A point at the seed circumcentre is a NaN key. |
| Sweep.InsertsFirstCopies | triangulation.go:172-181 | A sorted position is inserted exactly when it holds the first copy of a point and is not a seed. |
| Sweep.SeedCopyInserted | triangulation.go:172-181 | A copy of a seed that sorts before the seed is inserted, and the seed's own position is then skipped. |
| Sweep.SweepFrom | triangulation.go:167-242 | The sweep adds at least one triangle per inserted point, keeps the mesh sound, and never inserts the seed circumcentre. |
| Sweep.SeedCenter | triangulation.go:137 | The seed circumcentre is equidistant from the three seeds. |
| Sweep.SeedNode | triangulation.go:148-158 | Each seed node joins the ring and is stored in its key's slot. |
| Sweep.SeedFront | triangulation.go:147-158 | The three seed nodes form a consistent ring, exactly the seeds are live, and the table names them. |
| Sweep.SeedHull | triangulation.go:143-158 | The first hull over a fresh arena and a table of ceil(sqrt(n)) slots. |
| Sweep.SeedMesh | triangulation.go:160-165 | With three distinct seeds there is always room. The arrays hold 3(2n - 5) entries, the seed triangle fills the first three, and every entry names a point below n. |
| Sweep.Start | triangulation.go:143-165 | The state before the sweep holds one triangle, a consistent three-node ring, and a table that points into it. |
| Sweep.Trim | triangulation.go:244-245 | Trimming keeps exactly the first `trianglesLen` entries of both arrays. |
| Sweep.FromSeeds | triangulation.go:137-247 | From valid seeds, a successful run gives whole triangles over the input's points. |
| Sweep.Triangulate | triangulation.go:59-248 | No points give an empty result. "No triangulation" is returned exactly when the seed phase fails. A success over n > 0 points gives whole triangles over indices below n, and n >= 3. |
| Sweep.TriangulateFailsIffCollinear | triangulation.go:59-130 | `Triangulate` reports "no triangulation" exactly for a non-empty, all-collinear input. |
| Ring.InsertKeepsHull | triangulation.go:183-241 | Inserting a fresh point keeps the ring consistent and the table pointing into it, and keeps the points still to come off the front. |
| Ring.SweepKeepsHull | triangulation.go:167-242 | Every insertion keeps next and prev mutual inverses and the table pointing into the ring. |
| Ring.FrontStaysRing | triangulation.go:143-242 | The hull is a consistent ring with a valid table from the seeds to the end of the sweep. |
| Findings.WedgeSeeds | triangulation.go:90-135 | On (-1, 0), (1, 0), (0, 1) the seeds are i0 = 2, i1 = 1 and i2 = 0, after the swap. |
| Findings.WedgeCenter | triangulation.go:137 | The seed circumcentre of that input is the origin. |
| Findings.WedgeKeyOverflows | triangulation.go:250-264 | There point 0 gets key 2 in a two-slot table as written, and slot 0 with the corrected key. |
| Square.SquareBox | triangulation.go:70-93 | For package_test.go's square (side 1), the bounding-box centre is the middle of the square. |
| Square.SquareI0 | triangulation.go:92-101 | All four corners are equally near that centre, and the scan keeps corner 0. |
| Square.SquareI1 | triangulation.go:103-114 | Corners 1 and 3 are nearest corner 0, and the scan keeps corner 1. |
| Square.SquareI2 | triangulation.go:116-127 | Corners 2 and 3 tie for the smallest circle over corners 0 and 1, and the scan keeps corner 2. |
| Square.SquareSeeds | triangulation.go:90-135 | The seed phase of the square gives i0 = 0, i1 = 2 and i2 = 1, after the swap. |
| Square.SquareCenter | triangulation.go:137 | The seed circumcentre of the square, the point the sweep sorts by, is its middle (1/2, 1/2). |
| Findings.KiteInCircle | util.go:11-24 | Point (t/2, t/2) is strictly inside the circle through (t, 0), (0, 0) and (0, t). |
| Findings.KiteHullEdgeFlips | triangulation.go:285-317 | `legalize` as written panics on that hull edge, while the corrected step returns ar. |

## Left out

- IEEE-754 floating point: rounding, NaN and infinities, `math.Nextafter` and the error bounds `floatErr`, `inCircleErr` and `areaErr` (robust.go:8-10). The fast paths of `robust.go` are exact here, so they agree with the exact paths by construction.
- `extractBig` bit masking (robust.go:33-38) is replaced by taking the mantissa as the input. `makeRobustPoints` (robust.go:12-31) is not modelled: it calls `bounds`, which is not part of this model.
- Square roots. `point.go`'s `distance` (a `math.Hypot`) is replaced by squared distance everywhere, which picks the same seeds and the same `Less` order because the root is monotone. `math.Ceil(math.Sqrt(n))` is the exact integer ceiling root.
- Util.Circumradius: returns a `Radius` datatype (`Infinite` or `Finite`) rather than `+Inf` as a float.
- The seed circumcentre as a hashed point: Go converts NaN to an integer there. The model reports `NaNKey`, an error Go does not have.
- Sorting. `sort.Sort`'s algorithm is not modelled: `ids` is an input, any permutation. The duplicate lemmas additionally assume it is sorted by `Less`.
- HalfEdges.Legalize: states the shape of the result, not that the flips terminate or that the result is Delaunay. Both rest on a geometric argument, and the recursion is bounded by fuel instead. It also does not state that twins stay reciprocal (halfedges[halfedges[e]] == e) across the recursion. A single flip keeps reciprocity whenever a's twin lies in another triangle and neither bl nor ar is its own twin (`HalfEdges.FlipKeepsReciprocal`). A flip does not keep that condition. When bl is twinned with al (the triangles share a-b and al-bl), a's new twin is al, in a's own triangle, and legalize goes on with a (`HalfEdges.FlipTwinsWithinTriangle`). When instead ar is twinned with bl, the flip leaves the array unchanged (`HalfEdges.SharedEdgeRelink`). Only the planar geometry of a triangulation rules that out, and the model does not carry it.
- HalfEdges.FlipEffect: states the exact new pairs only under FlipReady. `HalfEdges.FlipKeepsReciprocal` covers every flip whose twin lies in another triangle. Go also flips an edge twinned within its own triangle, and the model states nothing about the result.
- HalfEdges.FlipReadyFacts: takes as an assumption, inside FlipReady, that the outer twins lie outside both triangles. It does not derive this from the mesh, because a reciprocal array need not satisfy it.
- HalfEdges.IllegalStepFlips: needs Flippable. Go also flips an edge whose twin lies in a's own triangle, or whose bl or ar is twinned with itself, and the model states nothing about those flips.
- Sweep.Walk, Sweep.WalkForward, Sweep.WalkBackward: termination is bounded by fuel. `OutOfFuel` is a model-only error.
- Sweep.Fan: states the length and that triangles stay whole and over valid points, not that twins stay reciprocal. It calls `legalize`, which does not promise that, for the reason given for `HalfEdges.Legalize`.
- Sweep.Triangulate: states whole triangles over the input's points and the exact failure conditions. It does not state the Delaunay property, the number of triangles, or that the halfedge array is reciprocal at the end. Reciprocity is not stated because `legalize` does not carry it (see `HalfEdges.Legalize`).
- Sweep.FromSeeds: same as `Triangulate`, shape only.
- Sweep.SweepFrom: states a lower bound on the triangles added, not the exact count. Like `Sweep.Fan`, it does not state that twins stay reciprocal.
- Sweep.Triangulate, Sweep.FromSeeds, Sweep.Start, Sweep.SeedHull, Sweep.SeedFront, Sweep.SeedNode, Sweep.SweepFrom, Sweep.Insert, Sweep.InsertHash, Sweep.Fill, Sweep.FirstTriangle, Sweep.Close, Sweep.WalkForward, Sweep.ForwardStep, Sweep.WalkBackward, Sweep.BackwardStep, Sweep.Fan, HalfEdges.Legalize, Ring.InsertKeepsHull, Ring.SweepKeepsHull, Ring.FrontStaysRing: these use the corrected `hashKey`/`hashEdge` and `legalize` step of "Findings". Where Go panics, the model goes on. That happens on an index one past the hash table at triangulation.go:158, 187 and 263, and on the write through index -1 at triangulation.go:304. For example, on the wedge (-1, 0), (1, 0), (0, 1) Go panics while hashing its third seed node (`Findings.WedgeKeyOverflows`), but the model continues the triangulation.
- The final arrays of package_test.go's square (lines 41-48: triangles [0, 2, 1, 0, 3, 2], halfedges [5, -1, -1, -1, -1, 0]) are not stated as a lemma. The model states the square's seed phase and seed circumcentre (`Square.SquareSeeds`, `Square.SquareCenter`), not the sort or the insertion of point 3.
- The public wrapper `Triangulate` (triangulation.go:15-21) only packages the arrays with the points. The model's `Sweep.Triangulate` returns the arrays.
- Error message text: errors are datatype variants.
- Both copies of `node`/`newNode`/`remove` exist in the source. The arena version of node.go is modelled. triangulation.go:319-347 allocates a fresh node instead, which is equivalent because each point is inserted at most once.
- Inconsistencies in the snapshot that have no behaviour to model:
  - It does not compile as a whole, because of that duplication.
  - `bounds` is missing.
  - The test reads a `Halfedges` field that the struct names `HalfEdges`.
- examples/ (rendering, sampling, timing), the benchmarks in package_test.go, and `Len`/`Swap` of the sort interface.
- `triangulate` calls `util.go`'s `area` and `inCircle`, not the `robust.go` predicates. The robust predicates are modelled on their own and shown to agree with `util.go`.

## Findings

| source | as written | input that shows it | evidently intended | confidence | as-written member | corrected member |
|---|---|---|---|---|---|---|
| triangulation.go:250-264 | `hashKey` maps a point at the centre's height and to its left to `len(hash)`, one past the table, and `hashEdge` then indexes past the end. | Points (-1, 0), (1, 0), (0, 1): seeds 2, 1, 0, centre (0, 0), table of 2 slots. Point 0 gets key 2 when its seed node is hashed (triangulation.go:158). | The key reduced modulo the table size, so the ray wraps to slot 0, as the JavaScript original does. | not executed | Hash.HashKeyAsWritten, Hash.HashEdgeAsWritten, Findings.WedgeKeyOverflows | Hash.HashKey, Hash.HashEdge, Hash.HashKeyCorrects |
| triangulation.go:285-317 | `legalize` reads the twin b without checking for -1. On a hull edge, Go's truncated `%` gives b0 = 0 and bl = 1, and when triangles[1] lies in the circle it writes `triangles[-1]`. The recursion reaches hull edges through `link(a, halfedges[bl])` at line 306. | Mesh triangles [0, 1, 2, 3, 4, 5], no twins, legalize(3), over points (5t, 5t), (t/2, t/2), (6t, 6t), (0, 0), (0, t), (t, 0) for any t > 0. | A half-edge without a twin is on the hull and is legal: return ar. | not executed | HalfEdges.LegalizeStepAsWritten, HalfEdges.HullEdgeAsWritten, Findings.KiteHullEdgeFlips | HalfEdges.LegalizeStep, HalfEdges.HullEdgeIsLegal, HalfEdges.LegalizeStepRefinesAsWritten |
