/**
 * The graph store of src/core/graph.js: `Graph3D` keeps a map from node id to
 * node record and an edge list. Meshes, materials, text sprites and the scene
 * graph are not modelled; a node record keeps the id, label, optional url,
 * position and velocity that the source stores in `sphere.userData` and
 * `sphere.position`.
 *
 * `hasEdge`, `removeEdge` and `removeNode` are called by the editor but are not
 * defined in graph.js; the model gives them their documented meaning:
 * order-independent membership, removal of the first order-independent match,
 * and deletion of the node together with every edge that touches it.
 */
module Graph {
  import opened Common
  import ScaleAnim

  /** `this.originalScale` and `this.hoverScale` of graph.js. */
  const OriginalScale: real := 0.2
  const HoverScale: real := 0.45

  datatype Vec3 = Vec3(x: real, y: real, z: real)

  const Zero: Vec3 := Vec3(0.0, 0.0, 0.0)

  /** `sphere.userData` together with `sphere.position`. */
  datatype NodeRec = NodeRec(id: NodeId, labelText: string, url: Option<string>, position: Vec3, velocity: Vec3)

  /** `{ nodeId1, nodeId2 }` of an edge; the line geometry is not modelled. */
  datatype Edge = Edge(nodeId1: NodeId, nodeId2: NodeId)

  /** Three values of `Math.random()`, each in [0, 1). */
  predicate IsRandomDraw(v: Vec3) {
    0.0 <= v.x < 1.0 && 0.0 <= v.y < 1.0 && 0.0 <= v.z < 1.0
  }

  /** `(Math.random() - 0.5) * 10` for the draw `r`. */
  function RandomCoordinate(r: real): (c: real)
    requires 0.0 <= r < 1.0
    ensures -5.0 <= c < 5.0
  {
    (r - 0.5) * 10.0
  }

  /** Where `addNode` puts a node: at the given position, or at a random point of the cube [-5, 5)^3. */
  function Placement(position: Option<Vec3>, draw: Vec3): (p: Vec3)
    requires IsRandomDraw(draw)
    ensures position.Some? ==> p == position.value
    ensures position.None? ==> -5.0 <= p.x < 5.0 && -5.0 <= p.y < 5.0 && -5.0 <= p.z < 5.0
  {
    match position
    case Some(p) => p
    case None => Vec3(RandomCoordinate(draw.x), RandomCoordinate(draw.y), RandomCoordinate(draw.z))
  }

  /** Edge `e` connects `a` and `b`, in either order. */
  predicate Joins(e: Edge, a: NodeId, b: NodeId) {
    (e.nodeId1 == a && e.nodeId2 == b) || (e.nodeId1 == b && e.nodeId2 == a)
  }

  /** Some edge of `es` connects `a` and `b`, in either order: `hasEdge(a, b)`. */
  predicate Connected(es: seq<Edge>, a: NodeId, b: NodeId) {
    exists k :: 0 <= k < |es| && Joins(es[k], a, b)
  }

  /** `hasEdge` does not depend on the order of its arguments. */
  lemma ConnectedSymmetric(es: seq<Edge>, a: NodeId, b: NodeId)
    ensures Connected(es, a, b) <==> Connected(es, b, a)
  {
  }

  /** No two edges of `es` connect the same unordered pair. */
  predicate NoDuplicateEdges(es: seq<Edge>) {
    forall i, j :: 0 <= i < j < |es| ==> !Joins(es[j], es[i].nodeId1, es[i].nodeId2)
  }

  /** Appending edges never disconnects a pair. */
  lemma ConnectedExtends(es: seq<Edge>, more: seq<Edge>, a: NodeId, b: NodeId)
    requires Connected(es, a, b)
    ensures Connected(es + more, a, b)
  {
    var k :| 0 <= k < |es| && Joins(es[k], a, b);
    assert (es + more)[k] == es[k];
  }

  /** Appending an edge keeps every connected pair connected. */
  lemma AppendKeepsConnected(es: seq<Edge>, e: Edge)
    ensures Connected(es + [e], e.nodeId1, e.nodeId2)
    ensures forall a, b :: Connected(es, a, b) ==> Connected(es + [e], a, b)
  {
    assert (es + [e])[|es|] == e;
    forall a, b | Connected(es, a, b)
      ensures Connected(es + [e], a, b)
    {
      ConnectedExtends(es, [e], a, b);
    }
  }

  /** Appending an edge for a pair that is not yet connected keeps the list duplicate-free. */
  lemma AppendNoDuplicates(es: seq<Edge>, e: Edge)
    requires NoDuplicateEdges(es) && !Connected(es, e.nodeId1, e.nodeId2)
    ensures NoDuplicateEdges(es + [e])
  {
    var r := es + [e];
    forall i, j | 0 <= i < j < |r|
      ensures !Joins(r[j], r[i].nodeId1, r[i].nodeId2)
    {
      if j == |es| {
        assert r[i] == es[i] && r[j] == e;
        assert !Joins(es[i], e.nodeId1, e.nodeId2);
      } else {
        assert r[i] == es[i] && r[j] == es[j];
      }
    }
  }

  /** The index of the first edge connecting `a` and `b`, or -1 (as `findIndex` returns it). */
  function FindEdge(es: seq<Edge>, a: NodeId, b: NodeId): (k: int)
    ensures -1 <= k < |es|
    ensures k == -1 <==> !Connected(es, a, b)
    ensures k >= 0 ==> Joins(es[k], a, b) && forall i :: 0 <= i < k ==> !Joins(es[i], a, b)
  {
    if es == [] then -1
    else if Joins(es[0], a, b) then 0
    else
      var k := FindEdge(es[1..], a, b);
      assert forall i :: 1 <= i < |es| ==> es[i] == es[1..][i - 1];
      if k == -1 then -1 else k + 1
  }

  /** `removeEdge(a, b)`: the first order-independent match is dropped; nothing happens if there is none. */
  function WithoutFirstMatch(es: seq<Edge>, a: NodeId, b: NodeId): (r: seq<Edge>)
    ensures !Connected(es, a, b) ==> r == es
    ensures Connected(es, a, b) ==> |r| == |es| - 1
    ensures forall i :: 0 <= i < |r| ==> r[i] in es
  {
    var k := FindEdge(es, a, b);
    if k < 0 then es
    else
      var r := es[..k] + es[k + 1..];
      assert forall i :: 0 <= i < |r| ==> r[i] == if i < k then es[i] else es[i + 1];
      r
  }

  /** The edges kept by `WithoutFirstMatch` are those before the match, then those after it. */
  lemma WithoutFirstMatchAt(es: seq<Edge>, a: NodeId, b: NodeId, i: int)
    requires Connected(es, a, b) && 0 <= i < |es| - 1
    ensures var k := FindEdge(es, a, b);
      WithoutFirstMatch(es, a, b)[i] == if i < k then es[i] else es[i + 1]
  {
    var k := FindEdge(es, a, b);
    var r := WithoutFirstMatch(es, a, b);
    assert r == es[..k] + es[k + 1..];
    if i < k {
      assert r[i] == es[..k][i];
    } else {
      assert r[i] == es[k + 1..][i - k];
    }
  }

  /** Removing one edge keeps a duplicate-free list duplicate-free. */
  lemma WithoutFirstMatchNoDuplicates(es: seq<Edge>, a: NodeId, b: NodeId)
    requires NoDuplicateEdges(es)
    ensures NoDuplicateEdges(WithoutFirstMatch(es, a, b))
  {
    var r := WithoutFirstMatch(es, a, b);
    if Connected(es, a, b) {
      var k := FindEdge(es, a, b);
      forall i, j | 0 <= i < j < |r|
        ensures !Joins(r[j], r[i].nodeId1, r[i].nodeId2)
      {
        WithoutFirstMatchAt(es, a, b, i);
        WithoutFirstMatchAt(es, a, b, j);
        var i' := if i < k then i else i + 1;
        var j' := if j < k then j else j + 1;
        assert i' < j' && r[i] == es[i'] && r[j] == es[j'];
      }
    }
  }

  /** `removeEdge(a, b)` removes one occurrence of the first matching edge and no other edge. */
  lemma WithoutFirstMatchMultiset(es: seq<Edge>, a: NodeId, b: NodeId)
    requires Connected(es, a, b)
    ensures multiset(WithoutFirstMatch(es, a, b)) == multiset(es) - multiset{es[FindEdge(es, a, b)]}
  {
    var k := FindEdge(es, a, b);
    assert WithoutFirstMatch(es, a, b) == es[..k] + es[k + 1..];
    MultisetRemoveAt(es, k);
  }

  /** Cutting out position `k` removes one copy of `es[k]` from the multiset of edges. */
  lemma MultisetRemoveAt(es: seq<Edge>, k: int)
    requires 0 <= k < |es|
    ensures multiset(es[..k] + es[k + 1..]) == multiset(es) - multiset{es[k]}
  {
    var before, after := es[..k], es[k + 1..];
    assert es == before + ([es[k]] + after);
    assert multiset(es) == multiset(before) + multiset{es[k]} + multiset(after);
  }

  /** The number of edges of `es` that connect `a` and `b`, in either order. */
  function JoinCount(es: seq<Edge>, a: NodeId, b: NodeId): (c: nat)
    ensures c <= |es|
    ensures c > 0 <==> Connected(es, a, b)
  {
    if es == [] then 0
    else
      var tail := es[1..];
      var rest := JoinCount(tail, a, b);
      assert forall i :: 1 <= i < |es| ==> es[i] == tail[i - 1];
      assert Connected(tail, a, b) ==> Connected(es, a, b) by {
        if Connected(tail, a, b) {
          var k :| 0 <= k < |tail| && Joins(tail[k], a, b);
          assert es[k + 1] == tail[k];
        }
      }
      (if Joins(es[0], a, b) then 1 else 0) + rest
  }

  /** Counting over two lists one after the other adds the counts. */
  lemma {:induction false} JoinCountAppend(x: seq<Edge>, y: seq<Edge>, a: NodeId, b: NodeId)
    ensures JoinCount(x + y, a, b) == JoinCount(x, a, b) + JoinCount(y, a, b)
  {
    if x == [] {
      assert x + y == y;
    } else {
      assert (x + y)[1..] == x[1..] + y;
      JoinCountAppend(x[1..], y, a, b);
    }
  }

  /** `removeEdge(a, b)` lowers the count of a pair by one exactly when the edge it removes joins that pair. */
  lemma WithoutFirstMatchJoinCount(es: seq<Edge>, a: NodeId, b: NodeId, c: NodeId, d: NodeId)
    ensures JoinCount(WithoutFirstMatch(es, a, b), c, d) ==
      if Connected(es, a, b) && Joins(es[FindEdge(es, a, b)], c, d) then JoinCount(es, c, d) - 1 else JoinCount(es, c, d)
  {
    if Connected(es, a, b) {
      var k := FindEdge(es, a, b);
      var before, after := es[..k], es[k + 1..];
      assert es == before + ([es[k]] + after);
      assert WithoutFirstMatch(es, a, b) == before + after;
      JoinCountAppend(before, [es[k]] + after, c, d);
      JoinCountAppend([es[k]], after, c, d);
      JoinCountAppend(before, after, c, d);
      assert [es[k]][1..] == [];
    }
  }

  /** In a duplicate-free list, `removeEdge(a, b)` leaves `a` and `b` unconnected. */
  lemma WithoutFirstMatchDisconnects(es: seq<Edge>, a: NodeId, b: NodeId)
    requires NoDuplicateEdges(es)
    ensures !Connected(WithoutFirstMatch(es, a, b), a, b)
  {
    var r := WithoutFirstMatch(es, a, b);
    if Connected(es, a, b) {
      var k := FindEdge(es, a, b);
      forall m | 0 <= m < |r|
        ensures !Joins(r[m], a, b)
      {
        WithoutFirstMatchAt(es, a, b, m);
        if m >= k {
          assert r[m] == es[m + 1];
          assert !Joins(es[m + 1], es[k].nodeId1, es[k].nodeId2);
        }
      }
    }
  }

  /** `removeEdge(a, b)` keeps every edge that does not connect `a` and `b`. */
  lemma WithoutFirstMatchKeeps(es: seq<Edge>, a: NodeId, b: NodeId, e: Edge)
    requires e in es && !Joins(e, a, b)
    ensures e in WithoutFirstMatch(es, a, b)
  {
    if Connected(es, a, b) {
      var k := FindEdge(es, a, b);
      var m :| 0 <= m < |es| && es[m] == e;
      var i := if m < k then m else m - 1;
      WithoutFirstMatchAt(es, a, b, i);
    }
  }

  /** `removeEdge(a, b)` never connects a pair anew, and keeps every other pair connected. */
  lemma WithoutFirstMatchKeepsOthers(es: seq<Edge>, a: NodeId, b: NodeId, c: NodeId, d: NodeId)
    ensures Connected(WithoutFirstMatch(es, a, b), c, d) ==> Connected(es, c, d)
    ensures Connected(es, c, d) && !Joins(Edge(c, d), a, b) ==> Connected(WithoutFirstMatch(es, a, b), c, d)
  {
    var r := WithoutFirstMatch(es, a, b);
    if Connected(r, c, d) {
      var m :| 0 <= m < |r| && Joins(r[m], c, d);
      var m' :| 0 <= m' < |es| && es[m'] == r[m];
    }
    if Connected(es, c, d) && !Joins(Edge(c, d), a, b) && Connected(es, a, b) {
      var k := FindEdge(es, a, b);
      var m :| 0 <= m < |es| && Joins(es[m], c, d);
      assert m != k;
      var i := if m < k then m else m - 1;
      WithoutFirstMatchAt(es, a, b, i);
      assert r[i] == es[m];
    }
  }

  /** `e` has an endpoint in `ids`. */
  predicate Touches(e: Edge, ids: set<NodeId>) {
    e.nodeId1 in ids || e.nodeId2 in ids
  }

  /** The edges of `es` that touch no id of `ids`, in their original order (the cascade of `removeNode`). */
  function WithoutTouching(es: seq<Edge>, ids: set<NodeId>): (r: seq<Edge>)
    ensures |r| <= |es|
    ensures forall i :: 0 <= i < |r| ==> r[i] in es && !Touches(r[i], ids)
    ensures forall i :: 0 <= i < |es| && !Touches(es[i], ids) ==> es[i] in r
  {
    if es == [] then []
    else
      var rest := WithoutTouching(es[1..], ids);
      assert forall i :: 1 <= i < |es| ==> es[i] == es[1..][i - 1];
      (if Touches(es[0], ids) then [] else [es[0]]) + rest
  }

  /** Dropping the edges that touch `s`, then those that touch `t`, is dropping those that touch either. */
  lemma {:induction false} WithoutTouchingTwice(es: seq<Edge>, s: set<NodeId>, t: set<NodeId>)
    ensures WithoutTouching(WithoutTouching(es, s), t) == WithoutTouching(es, s + t)
  {
    if es != [] {
      var e, tail := es[0], es[1..];
      WithoutTouchingTwice(tail, s, t);
      var r1 := WithoutTouching(es, s);
      var rest := WithoutTouching(tail, s);
      if Touches(e, s) {
        assert r1 == rest;
        assert Touches(e, s + t);
      } else {
        assert r1 == [e] + rest;
        assert r1 != [] && r1[0] == e && r1[1..] == rest;
        assert WithoutTouching(r1, t) == (if Touches(e, t) then [] else [e]) + WithoutTouching(rest, t);
        assert Touches(e, s + t) == Touches(e, t);
      }
    }
  }

  /** Dropping edges keeps a duplicate-free list duplicate-free. */
  lemma {:induction false} WithoutTouchingNoDuplicates(es: seq<Edge>, ids: set<NodeId>)
    requires NoDuplicateEdges(es)
    ensures NoDuplicateEdges(WithoutTouching(es, ids))
  {
    if es != [] {
      var tail := es[1..];
      NoDuplicatesTail(es);
      WithoutTouchingNoDuplicates(tail, ids);
      var rest := WithoutTouching(tail, ids);
      if !Touches(es[0], ids) {
        forall k | 0 <= k < |rest|
          ensures !Joins(rest[k], es[0].nodeId1, es[0].nodeId2)
        {
          var m :| 0 <= m < |tail| && tail[m] == rest[k];
          assert tail[m] == es[m + 1];
        }
        NoDuplicatesCons(es[0], rest);
      }
    }
  }

  /** The tail of a duplicate-free list is duplicate-free. */
  lemma NoDuplicatesTail(es: seq<Edge>)
    requires es != [] && NoDuplicateEdges(es)
    ensures NoDuplicateEdges(es[1..])
  {
    var tail := es[1..];
    forall i, j | 0 <= i < j < |tail|
      ensures !Joins(tail[j], tail[i].nodeId1, tail[i].nodeId2)
    {
      assert tail[i] == es[i + 1] && tail[j] == es[j + 1];
    }
  }

  /** An edge no later edge duplicates, put in front of a duplicate-free list, keeps it duplicate-free. */
  lemma NoDuplicatesCons(e: Edge, rest: seq<Edge>)
    requires NoDuplicateEdges(rest)
    requires forall k :: 0 <= k < |rest| ==> !Joins(rest[k], e.nodeId1, e.nodeId2)
    ensures NoDuplicateEdges([e] + rest)
  {
    var r := [e] + rest;
    forall i, j | 0 <= i < j < |r|
      ensures !Joins(r[j], r[i].nodeId1, r[i].nodeId2)
    {
      assert r[j] == rest[j - 1];
      if i > 0 {
        assert r[i] == rest[i - 1];
      }
    }
  }


  class Graph3D {
    var nodes: map<NodeId, NodeRec>
    var edges: seq<Edge>
    const scaleAnimator: ScaleAnim.ScaleAnimator

    /** Every record sits under its own id, and every edge joins two stored nodes. */
    ghost predicate Valid()
      reads this
    {
      && (forall k :: k in nodes ==> nodes[k].id == k)
      && (forall i :: 0 <= i < |edges| ==> edges[i].nodeId1 in nodes && edges[i].nodeId2 in nodes)
    }

    constructor ()
      ensures Valid() && nodes == map[] && edges == []
      ensures fresh(scaleAnimator) && scaleAnimator.Valid() && scaleAnimator.State() == ScaleAnim.AnimState({}, map[], map[])
    {
      nodes := map[];
      edges := [];
      scaleAnimator := new ScaleAnim.ScaleAnimator();
    }

    /** `addNode(id, label, position, url)`; `draw` stands for the three `Math.random()` results. An existing id is overwritten. */
    method AddNode(id: NodeId, labelText: string, position: Option<Vec3>, url: Option<string>, draw: Vec3) returns (node: NodeRec)
      requires Valid() && IsRandomDraw(draw)
      modifies this
      ensures Valid()
      ensures node == NodeRec(id, labelText, url, Placement(position, draw), Zero)
      ensures nodes == old(nodes)[id := node] && edges == old(edges)
    {
      var p := Placement(position, draw);
      node := NodeRec(id, labelText, url, p, Zero);
      nodes := nodes[id := node];
    }

    /** `addEdge(a, b)`: appends `{a, b}` when both endpoints are stored, even when the pair is already connected or `a == b`. */
    method AddEdge(nodeId1: NodeId, nodeId2: NodeId) returns (edge: Option<Edge>)
      requires Valid()
      modifies this
      ensures Valid() && nodes == old(nodes)
      ensures edge == if nodeId1 in nodes && nodeId2 in nodes then Some(Edge(nodeId1, nodeId2)) else None
      ensures edges == if edge.Some? then old(edges) + [edge.value] else old(edges)
    {
      if nodeId1 in nodes && nodeId2 in nodes {
        var e := Edge(nodeId1, nodeId2);
        edges := edges + [e];
        edge := Some(e);
      } else {
        edge := None;
      }
    }

    function HasEdge(a: NodeId, b: NodeId): bool
      reads this
    {
      Connected(edges, a, b)
    }

    /** `removeEdge(a, b)`. The recolouring that follows is not modelled. */
    method RemoveEdge(a: NodeId, b: NodeId)
      requires Valid()
      modifies this
      ensures Valid() && nodes == old(nodes)
      ensures edges == WithoutFirstMatch(old(edges), a, b)
    {
      edges := WithoutFirstMatch(edges, a, b);
    }

    /** `removeNode(id)`: the node and every edge touching it go; nothing changes when `id` is not stored. */
    method RemoveNode(id: NodeId)
      requires Valid()
      modifies this
      ensures Valid()
      ensures nodes == old(nodes) - {id}
      ensures edges == WithoutTouching(old(edges), {id})
      ensures id !in old(nodes) ==> edges == old(edges)
    {
      if id !in nodes {
        WithoutTouchingNothing(edges, {id});
      }
      nodes := nodes - {id};
      edges := WithoutTouching(edges, {id});
    }

    /** The scale-animation part of `applyForces`; the physics step and the edge and label geometry refresh are not modelled. */
    method ApplyForces()
      requires scaleAnimator.Valid()
      modifies scaleAnimator
      ensures scaleAnimator.Valid() && scaleAnimator.State() == ScaleAnim.Tick(old(scaleAnimator.State()))
    {
      scaleAnimator.Update();
    }
  }

  /** When no edge touches `ids`, the cascade drops nothing. */
  lemma {:induction false} WithoutTouchingNothing(es: seq<Edge>, ids: set<NodeId>)
    requires forall i :: 0 <= i < |es| ==> !Touches(es[i], ids)
    ensures WithoutTouching(es, ids) == es
  {
    if es != [] {
      WithoutTouchingNothing(es[1..], ids);
    }
  }
}
