/** The edge hash of triangulation.go: `hashSize`, `hashKey`, `hashEdge`
    and the probe that looks up a live hull node for a new point.

    The table maps a pseudo-angle about the seed circumcentre to a node of
    the advancing front; entries are arena indices, `Nil` for an empty
    slot. */
module Hash {
  import opened Results
  import opened Util
  import opened Front

  /** The table size Go computes as `int(math.Ceil(math.Sqrt(float64(n))))`:
      the least k with k * k >= n. */
  function CeilSqrt(n: nat): (k: nat)
    ensures k * k >= n
    ensures k == 0 || (k - 1) * (k - 1) < n
  {
    CeilSqrtFrom(n, 0)
  }

  /** The search behind CeilSqrt, upward from k. */
  function CeilSqrtFrom(n: nat, k: nat): (r: nat)
    requires k == 0 || (k - 1) * (k - 1) < n
    ensures r * r >= n
    ensures r == 0 || (r - 1) * (r - 1) < n
    decreases n - k
  {
    if k * k >= n then k
    else
      assert k <= k * k;
      CeilSqrtFrom(n, k + 1)
  }

  /** A positive table serves every non-empty input. */
  lemma CeilSqrtPositive(n: nat)
    requires n > 0
    ensures CeilSqrt(n) > 0
  {
  }

  function Abs(x: real): (r: real)
    ensures r >= 0.0 && (r == x || r == -x)
  {
    if x < 0.0 then -x else x
  }

  /** hashKey's pseudo-angle of the offset (dx, dy): a value in (-2, 2]
      that grows with the true angle, reaching 2 only on the negative x
      axis. */
  function PseudoAngle(dx: real, dy: real): (p: real)
    requires dx != 0.0 || dy != 0.0
    ensures -2.0 < p <= 2.0
    ensures p == 2.0 <==> dy == 0.0 && dx < 0.0
  {
    var s := Abs(dx) + Abs(dy);
    var q := dx / s;
    QuotientBounds(dx, dy, s);
    var p := 1.0 - q;
    if dy < 0.0 then -p else p
  }

  /** dx / (|dx| + |dy|) lies in [-1, 1], is -1 only when dy is zero and dx
      negative, and is 1 only when dy is zero and dx positive. */
  lemma QuotientBounds(dx: real, dy: real, s: real)
    requires dx != 0.0 || dy != 0.0
    requires s == Abs(dx) + Abs(dy)
    ensures s > 0.0
    ensures -1.0 <= dx / s <= 1.0
    ensures dx / s == -1.0 <==> dy == 0.0 && dx < 0.0
    ensures dx / s == 1.0 <==> dy == 0.0 && dx > 0.0
  {
    var q := dx / s;
    assert q * s == dx;
    if q == -1.0 {
      assert dx == -s;
    }
    if q == 1.0 {
      assert dx == s;
    }
  }

  /** triangulation.go `hashKey` as written: floor((2 + p) / 4 * size).
      At the seed circumcentre itself Go divides 0 by 0 and converts NaN
      to an integer; the model reports `NaNKey`. */
  function HashKeyAsWritten(center: Point, size: nat, q: Point): (r: Result<int>)
    ensures r.Err? <==> q == center
    ensures r.Err? ==> r.error == NaNKey
  {
    var dx, dy := q.x - center.x, q.y - center.y;
    if dx == 0.0 && dy == 0.0 then Err(NaNKey)
    else Ok(((2.0 + PseudoAngle(dx, dy)) / 4.0 * size as real).Floor)
  }

  /** The key as written lies in [0, size] and equals size, one past the
      last slot, exactly on the ray from the centre toward negative x. */
  lemma HashKeyAsWrittenRange(center: Point, size: nat, q: Point)
    requires size > 0 && q != center
    ensures var k := HashKeyAsWritten(center, size, q).value;
            && 0 <= k <= size
            && (k == size <==> q.y == center.y && q.x < center.x)
  {
    var dx, dy := q.x - center.x, q.y - center.y;
    assert dx != 0.0 || dy != 0.0 by {
      assert q.x != center.x || q.y != center.y;
    }
    AngleKey(PseudoAngle(dx, dy), size);
  }

  /** A pseudo-angle p in (-2, 2] maps to a key in [0, size] that is size
      only for p == 2. */
  lemma AngleKey(p: real, size: nat)
    requires -2.0 < p <= 2.0 && size > 0
    ensures var k := ((2.0 + p) / 4.0 * size as real).Floor;
            && 0 <= k <= size
            && (k == size <==> p == 2.0)
  {
    var f := (2.0 + p) / 4.0;
    assert 0.0 <= f <= 1.0;
    assert f == 1.0 <==> p == 2.0;
    ScaledFraction(f, size as real);
    FloorInRange(f * size as real, size);
  }

  /** The floor of a real in [0, n] lies in [0, n] and is n only at n. */
  lemma FloorInRange(v: real, n: nat)
    requires 0.0 <= v <= n as real
    ensures 0 <= v.Floor <= n
    ensures v.Floor == n <==> v == n as real
  {
  }

  /** A fraction f of a positive s lies in [0, s] and reaches s only for
      f == 1. */
  lemma ScaledFraction(f: real, s: real)
    requires 0.0 <= f <= 1.0 && s > 0.0
    ensures 0.0 <= f * s <= s
    ensures f * s == s <==> f == 1.0
  {
    assert (1.0 - f) * s >= 0.0;
    if f < 1.0 {
      assert (1.0 - f) * s > 0.0;
    }
  }

  /** The key reduced into the table: the as-written key modulo size, so
      the one out-of-range value wraps to slot 0 (what the JavaScript
      original does with `% hashSize`). */
  function HashKey(center: Point, size: nat, q: Point): (r: Result<int>)
    requires size > 0
    ensures r.Err? <==> q == center
    ensures r.Err? ==> r.error == NaNKey
    ensures r.Ok? ==> 0 <= r.value < size
  {
    var k :- HashKeyAsWritten(center, size, q);
    HashKeyAsWrittenRange(center, size, q);
    Ok(k % size)
  }

  /** The reduced key agrees with the key as written wherever the latter
      names a slot, and is 0 where it does not. */
  lemma HashKeyCorrects(center: Point, size: nat, q: Point)
    requires size > 0 && q != center
    ensures var k := HashKeyAsWritten(center, size, q).value;
            HashKey(center, size, q).value == (if k < size then k else 0)
  {
    HashKeyAsWrittenRange(center, size, q);
  }

  /** The pseudo-angle has the sign of dy: points above the centre get a
      positive angle and points below it a negative one. */
  lemma PseudoAngleSign(dx: real, dy: real)
    requires dx != 0.0 || dy != 0.0
    ensures dy > 0.0 ==> PseudoAngle(dx, dy) > 0.0
    ensures dy < 0.0 ==> PseudoAngle(dx, dy) < 0.0
  {
    QuotientBounds(dx, dy, Abs(dx) + Abs(dy));
  }

  /** A table of two slots splits the plane at the centre's height: points
      above it go to slot 1 and points below it to slot 0. */
  lemma TwoSlotKey(center: Point, q: Point)
    requires q.y != center.y
    ensures HashKey(center, 2, q) == Ok(if q.y > center.y then 1 else 0)
  {
    var dx, dy := q.x - center.x, q.y - center.y;
    PseudoAngleSign(dx, dy);
    var p := PseudoAngle(dx, dy);
    assert (2.0 + p) / 4.0 * 2.0 == 1.0 + p / 2.0;
    HashKeyAsWrittenRange(center, 2, q);
  }

  /** triangulation.go `hashEdge`: store node e under the key of its
      point. Go panics when the key is outside the table. */
  function HashEdgeAsWritten(hash: seq<int>, nodes: seq<Node>, center: Point, e: int): (r: Result<seq<int>>)
    ensures r.Ok? ==> |r.value| == |hash|
    ensures r.Ok? ==> 0 <= e < |nodes|
  {
    if !(0 <= e < |nodes|) then Err(IndexOutOfRange)
    else
      var k :- HashKeyAsWritten(center, |hash|, nodes[e].p);
      if !(0 <= k < |hash|) then Err(IndexOutOfRange)
      else Ok(hash[k := e])
  }

  /** hashEdge with the reduced key: node e lands in the slot of its point
      and every other slot keeps its entry. */
  function HashEdge(hash: seq<int>, nodes: seq<Node>, center: Point, e: int): (r: Result<seq<int>>)
    requires |hash| > 0
    ensures r.Ok? <==> 0 <= e < |nodes| && nodes[e].p != center
    ensures r.Ok? ==> var k := HashKey(center, |hash|, nodes[e].p).value;
              && |r.value| == |hash| && r.value[k] == e
              && forall j :: 0 <= j < |hash| && j != k ==> r.value[j] == hash[j]
    ensures r.Err? ==> r.error == IndexOutOfRange || r.error == NaNKey
  {
    if !(0 <= e < |nodes|) then Err(IndexOutOfRange)
    else
      var k :- HashKey(center, |hash|, nodes[e].p);
      Ok(hash[k := e])
  }

  /** The corrected hashEdge agrees with the one as written wherever the
      latter succeeds; the one as written fails where the corrected one
      succeeds exactly for a node on the ray from the centre toward
      negative x. */
  lemma HashEdgeRefinesAsWritten(hash: seq<int>, nodes: seq<Node>, center: Point, e: int)
    requires |hash| > 0
    ensures HashEdgeAsWritten(hash, nodes, center, e).Ok? ==>
              HashEdge(hash, nodes, center, e) == HashEdgeAsWritten(hash, nodes, center, e)
    ensures HashEdge(hash, nodes, center, e).Ok? && HashEdgeAsWritten(hash, nodes, center, e).Err? <==>
              0 <= e < |nodes| && nodes[e].p.y == center.y && nodes[e].p.x < center.x
  {
    if 0 <= e < |nodes| && nodes[e].p != center {
      HashKeyAsWrittenRange(center, |hash|, nodes[e].p);
      HashKeyCorrects(center, |hash|, nodes[e].p);
    }
  }

  /** A hash entry: nil, or a node that is live or has been removed. */
  predicate EntryOk(nodes: seq<Node>, e: int) {
    e == Nil || (0 <= e < |nodes| && (InRing(nodes, e) || nodes[e].removed))
  }

  /** The hash names only nodes of the front, and at least one live one. */
  predicate HashOk(nodes: seq<Node>, hash: seq<int>) {
    && (forall j :: 0 <= j < |hash| ==> EntryOk(nodes, hash[j]))
    && exists j :: 0 <= j < |hash| && InRing(nodes, hash[j])
  }

  /** Entries stay acceptable while the nodes evolve, given that the exempt
      node is live. */
  lemma EntriesEvolve(a: seq<Node>, b: seq<Node>, x: int, hash: seq<int>)
    ensures (forall j :: 0 <= j < |hash| ==> EntryOk(a, hash[j])) && Evolves(a, b, x) && InRing(b, x) ==>
              forall j :: 0 <= j < |hash| ==> EntryOk(b, hash[j])
  {
    if (forall j :: 0 <= j < |hash| ==> EntryOk(a, hash[j])) && Evolves(a, b, x) && InRing(b, x) {
      forall j | 0 <= j < |hash|
        ensures EntryOk(b, hash[j])
      {
        var e := hash[j];
        assert EntryOk(a, e);
        if e != Nil && e != x {
          assert EvolvesAt(a, b, e);
        }
      }
    }
  }

  /** An entry names a node of the front that has not been removed. */
  predicate Live(nodes: seq<Node>, s: int) {
    0 <= s < |nodes| && !nodes[s].removed
  }

  /** The probe loop of `triangulate`: look at most |hash| slots from key
      on, wrapping to 0, and stop at the first live node. When none is
      live Go's `start` is left holding the last slot it looked at. The
      result is always a table entry once one slot has been looked at. */
  function Probe(hash: seq<int>, nodes: seq<Node>, key: int, j: nat, start: int): (r: int)
    requires 0 <= key < |hash| && j <= |hash|
    ensures r == start || r in hash
    ensures j < |hash| ==> r in hash
    decreases |hash| - j
  {
    if j == |hash| then start
    else
      var s := hash[key];
      if Live(nodes, s) then s
      else Probe(hash, nodes, if key + 1 >= |hash| then 0 else key + 1, j + 1, s)
  }

  /** The slot d places after key, cyclically, for d within one lap. */
  function Slot(hash: seq<int>, key: int, d: int): int
    requires 0 <= key < |hash| && 0 <= d < |hash|
  {
    hash[if key + d < |hash| then key + d else key + d - |hash|]
  }

  /** The probe returns the first live node in cyclic order from key, and
      the last slot of the lap when none is live. */
  lemma ProbeIsFirstLive(hash: seq<int>, nodes: seq<Node>, key: int)
    requires 0 <= key < |hash|
    ensures var r := Probe(hash, nodes, key, 0, Nil);
            (exists d :: 0 <= d < |hash| && Live(nodes, Slot(hash, key, d))) ==>
              && Live(nodes, r)
              && exists d :: 0 <= d < |hash| && r == Slot(hash, key, d)
                   && forall d' :: 0 <= d' < d ==> !Live(nodes, Slot(hash, key, d'))
    ensures var r := Probe(hash, nodes, key, 0, Nil);
            (forall d :: 0 <= d < |hash| ==> !Live(nodes, Slot(hash, key, d))) ==>
              r == Slot(hash, key, |hash| - 1)
  {
    ProbeFrom(hash, nodes, key, key, 0, Nil);
  }

  /** Through a hash that names a live node the probe finds a live node. */
  lemma ProbeFindsRing(hash: seq<int>, nodes: seq<Node>, key: int)
    requires 0 <= key < |hash|
    ensures HashOk(nodes, hash) ==> InRing(nodes, Probe(hash, nodes, key, 0, Nil))
  {
    if HashOk(nodes, hash) {
      var j :| 0 <= j < |hash| && InRing(nodes, hash[j]);
      var d := if j >= key then j - key else j - key + |hash|;
      assert Slot(hash, key, d) == hash[j];
      assert Live(nodes, Slot(hash, key, d));
      ProbeIsFirstLive(hash, nodes, key);
      var r := Probe(hash, nodes, key, 0, Nil);
      var d' :| 0 <= d' < |hash| && r == Slot(hash, key, d');
      var at := if key + d' < |hash| then key + d' else key + d' - |hash|;
      assert r == hash[at];
      assert EntryOk(nodes, hash[at]);
    }
  }

  lemma {:induction false} ProbeFrom(hash: seq<int>, nodes: seq<Node>, key0: int, key: int, j: nat, start: int)
    requires 0 <= key0 < |hash| && j <= |hash|
    requires key == if key0 + j < |hash| then key0 + j else key0 + j - |hash|
    requires 0 <= key < |hash|
    requires forall d :: 0 <= d < j ==> !Live(nodes, Slot(hash, key0, d))
    requires j > 0 ==> start == Slot(hash, key0, j - 1)
    requires j == 0 ==> start == Nil
    ensures var r := Probe(hash, nodes, key, j, start);
            (exists d :: j <= d < |hash| && Live(nodes, Slot(hash, key0, d))) ==>
              && Live(nodes, r)
              && exists d :: 0 <= d < |hash| && r == Slot(hash, key0, d)
                   && forall d' :: 0 <= d' < d ==> !Live(nodes, Slot(hash, key0, d'))
    ensures var r := Probe(hash, nodes, key, j, start);
            (forall d :: j <= d < |hash| ==> !Live(nodes, Slot(hash, key0, d))) ==>
              r == Slot(hash, key0, |hash| - 1)
    decreases |hash| - j
  {
    if j < |hash| {
      assert hash[key] == Slot(hash, key0, j);
      if !Live(nodes, hash[key]) {
        ProbeFrom(hash, nodes, key0, if key + 1 >= |hash| then 0 else key + 1, j + 1, hash[key]);
      }
    }
  }
}
