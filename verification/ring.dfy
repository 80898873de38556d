/** The advancing front stays well formed through the sweep of
    triangulation.go `triangulate`: `next` and `prev` stay mutual inverses,
    the point being inserted joins the ring, other nodes leave it only by
    removal, and the edge hash names only nodes of the front, at least one
    of them live, so that the probe of the next insertion finds a hull
    node. */
module Ring {
  import opened Results
  import opened Util
  import opened Front
  import opened HalfEdges
  import opened Hash
  import opened Seeds
  import opened Sweep

  /** The invariant of the front and the hash between two insertions. */
  predicate Hull(st: State) {
    Linked(st.nodes) && HashOk(st.nodes, st.hash)
  }

  /** No point still to come in the sweep order from position k on, other
      than a seed, has a live hull node yet. */
  predicate Fresh(st: State, ids: seq<int>, s: Seeds, k: nat) {
    forall j :: k <= j < |ids| && ids[j] != s.i0 && ids[j] != s.i1 && ids[j] != s.i2 ==>
      !InRing(st.nodes, ids[j])
  }

  /** Each insertion keeps the front a ring and the hash pointing into it,
      so every later probe starts from a hull node: the sweep from position
      k keeps Hull, given that the ids ahead are distinct and not yet on
      the front. */
  lemma {:induction false} SweepKeepsHull(st: State, points: seq<Point>, ids: seq<int>, center: Point,
                                          s: Seeds, k: nat, pp: Option<Point>, fuel: nat)
    requires k <= |ids| && (forall j :: 0 <= j < |ids| ==> 0 <= ids[j] < |points|) && |st.hash| > 0
    requires pp == PrevPoint(points, ids, k)
    requires forall a, b :: k <= a < b < |ids| ==> ids[a] != ids[b]
    requires Hull(st) && Fresh(st, ids, s, k)
    ensures var r := SweepFrom(st, points, ids, center, s, k, pp, fuel);
            r.Ok? ==> Hull(r.value)
    decreases |ids| - k
  {
    hide Insert;  // only the contract of Insert is needed here
    if k < |ids| {
      var i := ids[k];
      var p := points[i];
      if pp == Some(p) {
        SweepKeepsHull(st, points, ids, center, s, k + 1, pp, fuel);
      } else if i == s.i0 || i == s.i1 || i == s.i2 {
        SweepKeepsHull(st, points, ids, center, s, k + 1, Some(p), fuel);
      } else {
        var r1 := Insert(st, points, center, i, fuel);
        if r1.Ok? {
          InsertKeepsHull(st, r1.value, points, ids, center, s, k, fuel);
          SweepKeepsHull(r1.value, points, ids, center, s, k + 1, Some(p), fuel);
        }
      }
    }
  }

  /** Inserting the point at position k keeps Hull, and keeps the points
      after it off the front. */
  lemma InsertKeepsHull(st: State, st1: State, points: seq<Point>, ids: seq<int>, center: Point,
                        s: Seeds, k: nat, fuel: nat)
    requires k < |ids| && (forall j :: 0 <= j < |ids| ==> 0 <= ids[j] < |points|) && |st.hash| > 0
    requires forall a, b :: k <= a < b < |ids| ==> ids[a] != ids[b]
    requires Hull(st) && Fresh(st, ids, s, k)
    requires ids[k] != s.i0 && ids[k] != s.i1 && ids[k] != s.i2
    requires Insert(st, points, center, ids[k], fuel) == Ok(st1)
    ensures Hull(st1) && Fresh(st1, ids, s, k + 1)
  {
    var i := ids[k];
    assert !InRing(st.nodes, i);
    forall j | k + 1 <= j < |ids| && ids[j] != s.i0 && ids[j] != s.i1 && ids[j] != s.i2
      ensures !InRing(st1.nodes, ids[j])
    {
      assert ids[k] != ids[j];
      if 0 <= ids[j] < |st.nodes| {
        assert EvolvesAt(st.nodes, st1.nodes, ids[j]);
      }
    }
  }

  /** From the seed triangle to the end of the sweep, the front is a ring
      and the hash points into it. */
  lemma FrontStaysRing(points: seq<Point>, ids: seq<int>, s: Seeds, fuel: nat)
    requires IsPermutation(ids, |points|) && ValidSeeds(points, s)
    ensures var center := SeedCenter(points, s);
            var r0 := Start(points, s, center);
            r0.Ok? ==> && Hull(r0.value)
                       && var r := SweepFrom(r0.value, points, ids, center, s, 0, None, fuel);
                          r.Ok? ==> Hull(r.value)
  {
    var center := SeedCenter(points, s);
    var r0 := Start(points, s, center);
    if r0.Ok? {
      SweepKeepsHull(r0.value, points, ids, center, s, 0, None, fuel);
    }
  }

}
