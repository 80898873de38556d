/** The advancing front of node.go: a circular doubly linked list of hull
    vertices with insert-after and logical removal.

    Go's `*node` pointers become indices into an arena of nodes, and `nil`
    becomes `Nil`. node.go's `newNode` writes the arena slot keyed by the
    point index; triangulation.go's own copy of `newNode` allocates a fresh
    node instead, which is the same thing as long as every point is
    inserted at most once, as the sweep does. A dereference of `nil` is a
    Go panic and comes back as `Err(NilDereference)`. */
module Front {
  import opened Results
  import opened Util

  const Nil: int := -1

  datatype Node = Node(p: Point, i: int, t: int, removed: bool, prev: int, next: int)

  /** The zero value Go gives every slot of a fresh arena. */
  const Zero: Node := Node(Point(0.0, 0.0), 0, 0, false, Nil, Nil)

  /** A pointer held in a node is nil or names a slot of the arena: Go's
      pointers can be nothing else. */
  predicate Pointers(nodes: seq<Node>) {
    forall k :: 0 <= k < |nodes| ==>
      (nodes[k].prev == Nil || 0 <= nodes[k].prev < |nodes|) &&
      (nodes[k].next == Nil || 0 <= nodes[k].next < |nodes|)
  }

  /** Node k is a live member of some ring. */
  predicate InRing(nodes: seq<Node>, k: int) {
    0 <= k < |nodes| && !nodes[k].removed && nodes[k].next != Nil
  }

  /** Node k, when live, is the prev of its next and the next of its prev,
      and both are live. */
  predicate LinkedAt(nodes: seq<Node>, k: int)
    requires 0 <= k < |nodes|
  {
    InRing(nodes, k) ==>
      InRing(nodes, nodes[k].next) && nodes[nodes[k].next].prev == k &&
      InRing(nodes, nodes[k].prev) && nodes[nodes[k].prev].next == k
  }

  /** `next` and `prev` are mutual inverses over the live nodes, and a live
      node links only to live nodes. */
  predicate Linked(nodes: seq<Node>) {
    forall k {:trigger LinkedAt(nodes, k)} :: 0 <= k < |nodes| ==> LinkedAt(nodes, k)
  }

  /** node.go `newNode`: set up slot i for point p and, when prev is not
      nil, splice it in after prev. The writes happen in Go's order. */
  function NewNode(nodes: seq<Node>, p: Point, i: int, prev: int): (r: Result<seq<Node>>)
    ensures r.Ok? <==> 0 <= i < |nodes| &&
                       (prev == Nil || (0 <= prev < |nodes| && 0 <= nodes[prev].next < |nodes|))
    ensures r.Ok? ==> |r.value| == |nodes|
    ensures r.Ok? ==> r.value[i].p == p && r.value[i].i == i && !r.value[i].removed
                      && r.value[i].t == nodes[i].t
    ensures r.Ok? ==> forall k :: 0 <= k < |nodes| && k != i ==>
                        r.value[k].p == nodes[k].p && r.value[k].i == nodes[k].i
                        && r.value[k].t == nodes[k].t && r.value[k].removed == nodes[k].removed
    ensures r.Ok? && prev == Nil ==>
              r.value[i].prev == i && r.value[i].next == i
              && forall k :: 0 <= k < |nodes| && k != i ==> r.value[k] == nodes[k]
    ensures r.Ok? && prev != Nil && prev != i && nodes[prev].next != i ==>
              var q := nodes[prev].next;
              && r.value[prev].next == i && r.value[i].prev == prev
              && r.value[i].next == q && r.value[q].prev == i
              && r.value[prev] == nodes[prev].(next := i, prev := if q == prev then i else nodes[prev].prev)
              && r.value[q] == nodes[q].(prev := i, next := if q == prev then i else nodes[q].next)
              && forall k :: 0 <= k < |nodes| && k != i && k != prev && k != q ==> r.value[k] == nodes[k]
    ensures r.Err? ==> Panic(r.error)
  {
    if !(0 <= i < |nodes|) then Err(IndexOutOfRange)
    else
      var n0 := nodes[i].(p := p, i := i, removed := false);
      var s1 := nodes[i := n0];
      if prev == Nil then Ok(s1[i := n0.(prev := i, next := i)])
      else if !(0 <= prev < |nodes|) then Err(IndexOutOfRange)
      else
        var s2 := s1[i := s1[i].(next := s1[prev].next)];
        var s3 := s2[i := s2[i].(prev := prev)];
        var q := s3[prev].next;
        if q == Nil then Err(NilDereference)
        else if !(0 <= q < |nodes|) then Err(IndexOutOfRange)
        else
          var s4 := s3[q := s3[q].(prev := i)];
          Ok(s4[prev := s4[prev].(next := i)])
  }

  /** node.go `remove`: unlink n from its neighbours, mark it removed and
      return its predecessor. n keeps its own prev and next. */
  function Remove(nodes: seq<Node>, n: int): (r: Result<(seq<Node>, int)>)
    ensures r.Ok? <==> 0 <= n < |nodes|
                       && 0 <= nodes[n].prev < |nodes| && 0 <= nodes[n].next < |nodes|
    ensures r.Ok? ==> |r.value.0| == |nodes| && r.value.1 == nodes[n].prev
                      && r.value.0[n].removed
    ensures r.Ok? ==> forall k :: 0 <= k < |nodes| ==>
                        r.value.0[k].p == nodes[k].p && r.value.0[k].i == nodes[k].i && r.value.0[k].t == nodes[k].t
    ensures r.Ok? ==> var pv, nx := nodes[n].prev, nodes[n].next;
              pv != n && nx != n ==>
              && r.value.0[pv].next == nx && r.value.0[nx].prev == pv
              && r.value.0[n] == nodes[n].(removed := true)
              && r.value.0[pv] == nodes[pv].(next := nx, prev := if pv == nx then pv else nodes[pv].prev)
              && r.value.0[nx] == nodes[nx].(prev := pv, next := if pv == nx then nx else nodes[nx].next)
              && forall k :: 0 <= k < |nodes| && k != n && k != pv && k != nx ==> r.value.0[k] == nodes[k]
    ensures r.Ok? && nodes[n].prev == n && nodes[n].next == n ==>
              forall k :: 0 <= k < |nodes| && k != n ==> r.value.0[k] == nodes[k]
    ensures r.Err? ==> Panic(r.error)
  {
    if !(0 <= n < |nodes|) then Err(IndexOutOfRange)
    else
      var pv := nodes[n].prev;
      if pv == Nil then Err(NilDereference)
      else if !(0 <= pv < |nodes|) then Err(IndexOutOfRange)
      else
        var s1 := nodes[pv := nodes[pv].(next := nodes[n].next)];
        var nx := s1[n].next;
        if nx == Nil then Err(NilDereference)
        else if !(0 <= nx < |nodes|) then Err(IndexOutOfRange)
        else
          var s2 := s1[nx := s1[nx].(prev := s1[n].prev)];
          var s3 := s2[n := s2[n].(removed := true)];
          Ok((s3, s3[n].prev))
  }

  /** newNode for any arguments: a node that is not yet live joins a ring,
      its own when prev is nil, and no other node changes liveness. */
  lemma NewNodeKeepsRing(nodes: seq<Node>, p: Point, i: int, prev: int)
    ensures Linked(nodes) && 0 <= i < |nodes| && !InRing(nodes, i) && (prev == Nil || InRing(nodes, prev)) ==>
              && NewNode(nodes, p, i, prev).Ok?
              && var r := NewNode(nodes, p, i, prev).value;
                 && Linked(r) && InRing(r, i)
                 && forall k :: 0 <= k < |nodes| && k != i ==> (InRing(r, k) <==> InRing(nodes, k))
  {
    if Linked(nodes) && 0 <= i < |nodes| && !InRing(nodes, i) && (prev == Nil || InRing(nodes, prev)) {
      NewNodePreservesLinked(nodes, p, i, prev);
      NewNodeKeepsOthers(nodes, p, i, prev);
    }
  }

  /** A front with no live node is trivially linked. */
  lemma EmptyLinked(nodes: seq<Node>)
    ensures (forall k :: 0 <= k < |nodes| ==> !InRing(nodes, k)) ==> Linked(nodes)
  {
    if forall k :: 0 <= k < |nodes| ==> !InRing(nodes, k) {
      forall k | 0 <= k < |nodes|
        ensures LinkedAt(nodes, k)
      {
      }
    }
  }

  /** The neighbours of a live node of a linked front are live. */
  lemma LiveNeighbours(nodes: seq<Node>, k: int)
    ensures Linked(nodes) && InRing(nodes, k) ==>
              && InRing(nodes, nodes[k].next) && nodes[nodes[k].next].prev == k
              && InRing(nodes, nodes[k].prev) && nodes[nodes[k].prev].next == k
  {
    if Linked(nodes) && InRing(nodes, k) {
      assert LinkedAt(nodes, k);
    }
  }

  /** Inserting a node that is not yet live, as a ring of its own or after a
      live node, keeps `next` and `prev` mutual inverses. */
  lemma NewNodePreservesLinked(nodes: seq<Node>, p: Point, i: int, prev: int)
    requires Linked(nodes)
    requires 0 <= i < |nodes| && !InRing(nodes, i)
    requires prev == Nil || InRing(nodes, prev)
    ensures NewNode(nodes, p, i, prev).Ok?
    ensures Linked(NewNode(nodes, p, i, prev).value)
    ensures InRing(NewNode(nodes, p, i, prev).value, i)
  {
    if prev == Nil {
      NewRingLinked(nodes, p, i);
    } else {
      SpliceLinked(nodes, p, i, prev);
    }
  }

  lemma NewRingLinked(nodes: seq<Node>, p: Point, i: int)
    requires Linked(nodes)
    requires 0 <= i < |nodes| && !InRing(nodes, i)
    ensures NewNode(nodes, p, i, Nil).Ok?
    ensures Linked(NewNode(nodes, p, i, Nil).value)
  {
    var r := NewNode(nodes, p, i, Nil).value;
    forall k | 0 <= k < |r|
      ensures LinkedAt(r, k)
    {
      if k != i {
        assert r[k] == nodes[k] && LinkedAt(nodes, k);
      }
    }
  }

  lemma SpliceLinked(nodes: seq<Node>, p: Point, i: int, prev: int)
    requires Linked(nodes)
    requires 0 <= i < |nodes| && !InRing(nodes, i)
    requires InRing(nodes, prev)
    ensures NewNode(nodes, p, i, prev).Ok?
    ensures Linked(NewNode(nodes, p, i, prev).value)
  {
    assert LinkedAt(nodes, prev);
    var q := nodes[prev].next;
    assert LinkedAt(nodes, q);
    var r := NewNode(nodes, p, i, prev).value;
    forall k | 0 <= k < |r|
      ensures LinkedAt(r, k)
    {
      if k != i && k != prev && k != q {
        assert r[k] == nodes[k] && LinkedAt(nodes, k);
      }
    }
  }

  /** Removing a live node keeps `next` and `prev` mutual inverses over the
      nodes still live, and the returned predecessor is live unless the
      ring had only the removed node. */
  lemma RemovePreservesLinked(nodes: seq<Node>, n: int)
    requires Linked(nodes) && InRing(nodes, n)
    ensures Remove(nodes, n).Ok?
    ensures Linked(Remove(nodes, n).value.0)
    ensures !InRing(Remove(nodes, n).value.0, n)
    ensures nodes[n].next != n ==> InRing(Remove(nodes, n).value.0, Remove(nodes, n).value.1)
    ensures var r := Remove(nodes, n).value.0;
            && r[n].next == nodes[n].next && r[n].prev == nodes[n].prev
            && forall k :: 0 <= k < |nodes| && k != n && InRing(nodes, k) ==> InRing(r, k)
  {
    if nodes[n].next == n {
      RemoveAlone(nodes, n);
      RemoveKeepsOthers(nodes, n);
    } else {
      RemoveSpliced(nodes, n);
      RemoveKeepsOthers(nodes, n);
    }
  }

  /** Removal leaves n's own links alone and keeps every other live node
      live. */
  lemma RemoveKeepsOthers(nodes: seq<Node>, n: int)
    requires Linked(nodes) && InRing(nodes, n)
    ensures Remove(nodes, n).Ok?
    ensures var r := Remove(nodes, n).value.0;
            && r[n].next == nodes[n].next && r[n].prev == nodes[n].prev
            && forall k :: 0 <= k < |nodes| && k != n && InRing(nodes, k) ==> InRing(r, k)
  {
    var pv, nx := nodes[n].prev, nodes[n].next;
    assert LinkedAt(nodes, n);
    assert LinkedAt(nodes, pv) && LinkedAt(nodes, nx);
    if nx == n {
      assert pv == n;
    } else {
      assert pv != n;
    }
  }

  /** Between a and b no node other than x has joined a ring, no removed
      node has come back, and a live node has left its ring only by being
      removed. */
  predicate Evolves(a: seq<Node>, b: seq<Node>, x: int) {
    |a| == |b| && forall k {:trigger EvolvesAt(a, b, k)} :: 0 <= k < |a| && k != x ==> EvolvesAt(a, b, k)
  }

  /** Node k has not joined a ring, not come back from removal, and has
      left its ring only by removal. */
  predicate EvolvesAt(a: seq<Node>, b: seq<Node>, k: int)
    requires 0 <= k < |a| == |b|
  {
    && (InRing(b, k) ==> InRing(a, k))
    && (a[k].removed ==> b[k].removed)
    && (InRing(a, k) ==> InRing(b, k) || b[k].removed)
  }

  /** Two stretches of evolution make one, exempting the one node either
      exempts. */
  lemma EvolvesTrans(a: seq<Node>, b: seq<Node>, c: seq<Node>, x: int, y: int)
    ensures Evolves(a, b, x) && Evolves(b, c, y) && (x == Nil || y == Nil || x == y) ==>
              Evolves(a, c, if x == Nil then y else x)
  {
    var z := if x == Nil then y else x;
    if Evolves(a, b, x) && Evolves(b, c, y) && (x == Nil || y == Nil || x == y) {
      forall k | 0 <= k < |a| && k != z
        ensures EvolvesAt(a, c, k)
      {
        assert k != x && k != y;
        assert EvolvesAt(a, b, k) && EvolvesAt(b, c, k);
      }
    }
  }

  /** Inserting node i touches no other node's liveness or removal. */
  lemma NewNodeKeepsOthers(nodes: seq<Node>, p: Point, i: int, prev: int)
    requires Linked(nodes)
    requires 0 <= i < |nodes| && !InRing(nodes, i)
    requires prev == Nil || InRing(nodes, prev)
    ensures NewNode(nodes, p, i, prev).Ok?
    ensures var r := NewNode(nodes, p, i, prev).value;
            forall k :: 0 <= k < |nodes| && k != i ==>
              (InRing(r, k) <==> InRing(nodes, k)) && r[k].removed == nodes[k].removed
    ensures Evolves(nodes, NewNode(nodes, p, i, prev).value, i)
  {
    if prev != Nil {
      assert LinkedAt(nodes, prev);
      var q := nodes[prev].next;
      assert LinkedAt(nodes, q);
    }
    var r := NewNode(nodes, p, i, prev).value;
    forall k | 0 <= k < |nodes| && k != i
      ensures (InRing(r, k) <==> InRing(nodes, k)) && r[k].removed == nodes[k].removed
      ensures EvolvesAt(nodes, r, k)
    {
    }
  }

  /** Removing a live node is the one way a node leaves the ring. */
  lemma RemoveEvolves(nodes: seq<Node>, n: int)
    requires Linked(nodes) && InRing(nodes, n)
    ensures Remove(nodes, n).Ok?
    ensures Evolves(nodes, Remove(nodes, n).value.0, Nil)
  {
    var r := Remove(nodes, n).value.0;
    var pv, nx := nodes[n].prev, nodes[n].next;
    assert LinkedAt(nodes, n);
    assert LinkedAt(nodes, pv) && LinkedAt(nodes, nx);
    RemoveKeepsOthers(nodes, n);
    if nx == n {
      assert pv == n;
    } else {
      assert pv != n;
    }
    forall k | 0 <= k < |nodes|
      ensures EvolvesAt(nodes, r, k)
    {
      if k != n && k != pv && k != nx {
        assert r[k] == nodes[k];
      }
    }
  }

  /** The first triangle's update of the front: set e's triangle, then
      splice node i in after e. When e is live and i is not, the ring stays
      linked, i becomes live and no other node changes liveness. */
  lemma SpliceKeepsRing(nodes: seq<Node>, e: int, t: int, p: Point, i: int)
    requires 0 <= e < |nodes|
    ensures var n1 := SetT(nodes, e, t);
            Linked(nodes) && 0 <= i < |nodes| && !InRing(nodes, i) && InRing(nodes, e) ==>
              && NewNode(n1, p, i, e).Ok?
              && var r := NewNode(n1, p, i, e).value;
                 Linked(r) && InRing(r, i) && Evolves(nodes, r, i)
  {
    var n1 := SetT(nodes, e, t);
    if Linked(nodes) && 0 <= i < |nodes| && !InRing(nodes, i) && InRing(nodes, e) {
      SetTKeepsRing(nodes, e, t);
      NewNodePreservesLinked(n1, p, i, e);
      NewNodeKeepsOthers(n1, p, i, e);
      EvolvesTrans(nodes, n1, NewNode(n1, p, i, e).value, Nil, i);
    }
  }

  /** A walk step's update of the front: set node k's triangle, then
      remove q. When q is live, not alone and not i, the ring stays linked,
      i and both neighbours of q stay live, and q alone leaves. */
  lemma RetireKeepsRing(nodes: seq<Node>, k: int, t: int, q: int, i: int)
    requires 0 <= k < |nodes|
    ensures var n1 := SetT(nodes, k, t);
            Linked(nodes) && InRing(nodes, i) && InRing(nodes, q) && q != i
            && (nodes[q].next != q || nodes[q].prev != q) ==>
              && Remove(n1, q).Ok?
              && var n2 := Remove(n1, q).value.0;
                 && Linked(n2) && InRing(n2, i) && !InRing(n2, q)
                 && InRing(n2, nodes[q].next) && InRing(n2, nodes[q].prev)
                 && n2[q].next == nodes[q].next && n2[q].prev == nodes[q].prev
                 && Evolves(nodes, n2, Nil)
  {
    var n1 := SetT(nodes, k, t);
    if Linked(nodes) && InRing(nodes, i) && InRing(nodes, q) && q != i
       && (nodes[q].next != q || nodes[q].prev != q) {
      SetTKeepsRing(nodes, k, t);
      assert n1[q].next == nodes[q].next && n1[q].prev == nodes[q].prev;
      assert LinkedAt(nodes, q);
      assert LinkedAt(nodes, nodes[q].next) && LinkedAt(nodes, nodes[q].prev);
      assert nodes[q].prev != q && nodes[q].next != q;
      RemovePreservesLinked(n1, q);
      RemoveEvolves(n1, q);
      EvolvesTrans(nodes, n1, Remove(n1, q).value.0, Nil, Nil);
    }
  }

  /** Set the triangle field of node k, as the sweep does with `e.t = ...`. */
  function SetT(nodes: seq<Node>, k: int, t: int): (r: seq<Node>)
    requires 0 <= k < |nodes|
    ensures |r| == |nodes| && r[k].t == t
    ensures forall j :: 0 <= j < |nodes| ==> r[j].(t := 0) == nodes[j].(t := 0)
    ensures forall j :: 0 <= j < |nodes| && j != k ==> r[j] == nodes[j]
  {
    nodes[k := nodes[k].(t := t)]
  }

  /** The triangle field plays no part in the ring. */
  lemma SetTKeepsRing(nodes: seq<Node>, k: int, t: int)
    requires 0 <= k < |nodes|
    ensures forall j :: InRing(SetT(nodes, k, t), j) <==> InRing(nodes, j)
    ensures Linked(nodes) ==> Linked(SetT(nodes, k, t))
    ensures Evolves(nodes, SetT(nodes, k, t), Nil)
  {
    var r := SetT(nodes, k, t);
    assert forall j :: 0 <= j < |nodes| ==>
      r[j].next == nodes[j].next && r[j].prev == nodes[j].prev && r[j].removed == nodes[j].removed by {
      forall j | 0 <= j < |nodes|
        ensures r[j].next == nodes[j].next && r[j].prev == nodes[j].prev && r[j].removed == nodes[j].removed
      {
        assert r[j].(t := 0) == nodes[j].(t := 0);
      }
    }
    forall j | 0 <= j < |nodes|
      ensures EvolvesAt(nodes, r, j)
    {
    }
    if Linked(nodes) {
      forall j | 0 <= j < |r|
        ensures LinkedAt(r, j)
      {
        assert LinkedAt(nodes, j);
      }
    }
  }

  /** The last node of a ring: nothing else changes. */
  lemma RemoveAlone(nodes: seq<Node>, n: int)
    requires Linked(nodes) && InRing(nodes, n) && nodes[n].next == n
    ensures Remove(nodes, n).Ok?
    ensures Linked(Remove(nodes, n).value.0)
  {
    var r := Remove(nodes, n).value.0;
    assert LinkedAt(nodes, n);
    assert nodes[n].prev == n;
    forall k | 0 <= k < |r|
      ensures LinkedAt(r, k)
    {
      if k != n {
        assert r[k] == nodes[k] && LinkedAt(nodes, k);
      }
    }
  }

  lemma RemoveSpliced(nodes: seq<Node>, n: int)
    requires Linked(nodes) && InRing(nodes, n) && nodes[n].next != n
    ensures Remove(nodes, n).Ok?
    ensures Linked(Remove(nodes, n).value.0)
    ensures InRing(Remove(nodes, n).value.0, Remove(nodes, n).value.1)
  {
    var r := Remove(nodes, n).value.0;
    var pv, nx := nodes[n].prev, nodes[n].next;
    assert LinkedAt(nodes, n);
    assert LinkedAt(nodes, pv) && LinkedAt(nodes, nx);
    assert pv != n;
    forall k | 0 <= k < |r|
      ensures LinkedAt(r, k)
    {
      if k != n && k != pv && k != nx {
        assert r[k] == nodes[k] && LinkedAt(nodes, k);
      }
    }
  }
}
