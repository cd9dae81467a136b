/**
 * The editor of src/core/GraphEditor.js: a selection of node ids and batch
 * operations over it, plus the guards of the add-node, add-edge and
 * remove-edge buttons. The DOM panel, the selection counter and the colour
 * changes are not modelled. A JavaScript `Set` iterates in insertion order,
 * and `Array.from(this.selectedNodes)` decides which endpoint comes first in a
 * new edge, so the selection is a duplicate-free sequence in insertion order.
 */
module Editor {
  import opened Common
  import opened Graph
  import JsString

  /** The members of a selection, as a set. */
  function Elements(s: seq<NodeId>): set<NodeId> {
    set x | x in s
  }

  predicate Distinct(s: seq<NodeId>) {
    forall i, j :: 0 <= i < j < |s| ==> s[i] != s[j]
  }

  /** `Set.prototype.delete(x)`: `x` leaves and every other member stays (in the same order, by `WithoutKeepsOrder`). */
  function Without(s: seq<NodeId>, x: NodeId): (r: seq<NodeId>)
    ensures forall y :: y in r <==> y in s && y != x
    ensures Distinct(s) ==> Distinct(r)
    ensures x !in s ==> r == s
  {
    if s == [] then []
    else
      var rest := Without(s[1..], x);
      assert forall i :: 1 <= i < |s| ==> s[i] == s[1..][i - 1];
      assert Distinct(s) ==> s[0] !in s[1..];
      if s[0] == x then rest else [s[0]] + rest
  }

  /** The position of the first `x` in `s`. */
  function IndexOf(s: seq<NodeId>, x: NodeId): (k: nat)
    requires x in s
    ensures k < |s| && s[k] == x && forall i :: 0 <= i < k ==> s[i] != x
  {
    if s[0] == x then 0 else 1 + IndexOf(s[1..], x)
  }

  /** How the slices of `s` around position `k + 1` relate to those of its tail. */
  lemma ConsSlices(s: seq<NodeId>, k: nat)
    requires k + 1 < |s|
    ensures s[..k + 1] == [s[0]] + s[1..][..k] && s[k + 2..] == s[1..][k + 1..]
  {
  }

  /** Deleting a member of a duplicate-free selection cuts it out of its place and keeps the order of the rest. */
  lemma {:induction false} WithoutKeepsOrder(s: seq<NodeId>, x: NodeId)
    requires Distinct(s) && x in s
    ensures Without(s, x) == s[..IndexOf(s, x)] + s[IndexOf(s, x) + 1..]
  {
    var tail := s[1..];
    if s[0] == x {
      assert x !in tail by {
        forall i | 0 <= i < |tail|
          ensures tail[i] != x
        {
          assert tail[i] == s[i + 1];
        }
      }
    } else {
      assert x in tail && Distinct(tail) by {
        assert forall i :: 1 <= i < |s| ==> s[i] == tail[i - 1];
      }
      WithoutKeepsOrder(tail, x);
      var k := IndexOf(tail, x);
      var front, back := tail[..k], tail[k + 1..];
      assert IndexOf(s, x) == k + 1;
      assert Without(s, x) == [s[0]] + (front + back);
      ConsSlices(s, k);
      assert [s[0]] + (front + back) == ([s[0]] + front) + back;
    }
  }

  /** Edge `e` joins two different members of `ids`: the only kind of edge the batch operations touch. */
  predicate LinksSelected(e: Edge, ids: seq<NodeId>) {
    e.nodeId1 in ids && e.nodeId2 in ids && e.nodeId1 != e.nodeId2
  }

  /** Every pair `ids[p], ids[q]` with `p < q` that the nested loops have passed, and whose nodes exist, is connected. */
  ghost predicate PairsConnected(es: seq<Edge>, ids: seq<NodeId>, nodes: map<NodeId, NodeRec>, i: int, j: int) {
    forall p, q :: 0 <= p < q < |ids| && (p < i || (p == i && q < j)) && ids[p] in nodes && ids[q] in nodes ==>
      Connected(es, ids[p], ids[q])
  }

  /** No pair that the nested loops have passed is connected. */
  ghost predicate PairsDisconnected(es: seq<Edge>, ids: seq<NodeId>, i: int, j: int) {
    forall p, q :: 0 <= p < q < |ids| && (p < i || (p == i && q < j)) ==> !Connected(es, ids[p], ids[q])
  }

  /** `es` is `es0` followed by edges `ids[p] -> ids[q]` with `p < q` only. */
  ghost predicate ExtendsWithPairs(es0: seq<Edge>, es: seq<Edge>, ids: seq<NodeId>) {
    && |es0| <= |es| && es[..|es0|] == es0
    && forall k :: |es0| <= k < |es| ==> exists p, q :: 0 <= p < q < |ids| && es[k] == Edge(ids[p], ids[q])
  }

  /** The facts the connect loop keeps, for the edge list `es` reached from `es0` over the stored `nodes`. */
  ghost predicate ConnectInv(es0: seq<Edge>, es: seq<Edge>, ids: seq<NodeId>, nodes: map<NodeId, NodeRec>, i: int, j: int) {
    && ExtendsWithPairs(es0, es, ids)
    && PairsConnected(es, ids, nodes, i, j)
    && (NoDuplicateEdges(es0) ==> NoDuplicateEdges(es))
  }

  /** One `if (!hasEdge) addEdge(ids[i], ids[j])` of the connect loop keeps its facts and passes pair `(i, j)`. */
  lemma ConnectStep(es0: seq<Edge>, es: seq<Edge>, ids: seq<NodeId>, nodes: map<NodeId, NodeRec>, i: int, j: int)
    requires 0 <= i < j < |ids| && ConnectInv(es0, es, ids, nodes, i, j)
    ensures var a, b := ids[i], ids[j];
      var es' := if !Connected(es, a, b) && a in nodes && b in nodes then es + [Edge(a, b)] else es;
      ConnectInv(es0, es', ids, nodes, i, j + 1)
  {
    var a, b := ids[i], ids[j];
    if !Connected(es, a, b) && a in nodes && b in nodes {
      var e := Edge(a, b);
      AppendKeepsConnected(es, e);
      if NoDuplicateEdges(es0) {
        AppendNoDuplicates(es, e);
      }
      var es' := es + [e];
      assert es'[..|es0|] == es[..|es0|];
      assert es'[|es|] == Edge(ids[i], ids[j]);
    }
  }

  /** Every edge of `es` from index `n` on joins a pair that the edges before it did not connect. */
  ghost predicate AddsOnlyUnconnected(es: seq<Edge>, n: nat) {
    forall k :: n <= k < |es| ==> !Connected(es[..k], es[k].nodeId1, es[k].nodeId2)
  }

  /** Appending an edge for an unconnected pair keeps `AddsOnlyUnconnected`. */
  lemma AppendUnconnected(es: seq<Edge>, n: nat, e: Edge)
    requires AddsOnlyUnconnected(es, n) && !Connected(es, e.nodeId1, e.nodeId2)
    ensures AddsOnlyUnconnected(es + [e], n)
  {
    var r := es + [e];
    forall k | n <= k < |r|
      ensures !Connected(r[..k], r[k].nodeId1, r[k].nodeId2)
    {
      if k < |es| {
        assert r[..k] == es[..k] && r[k] == es[k];
      } else {
        assert r[..k] == es && r[k] == e;
      }
    }
  }

  /** Once every pair has been passed, any two distinct selected ids that are stored are connected. */
  lemma ConnectedAllPairs(es: seq<Edge>, ids: seq<NodeId>, nodes: map<NodeId, NodeRec>)
    requires PairsConnected(es, ids, nodes, |ids|, |ids| + 1)
    ensures forall a, b :: a in ids && b in ids && a != b && a in nodes && b in nodes ==> Connected(es, a, b)
  {
    forall a, b | a in ids && b in ids && a != b && a in nodes && b in nodes
      ensures Connected(es, a, b)
    {
      var p :| 0 <= p < |ids| && ids[p] == a;
      var q :| 0 <= q < |ids| && ids[q] == b;
      ConnectedSymmetric(es, a, b);
    }
  }

  /** The members of `s + [x]`. */
  lemma ElementsSnoc(s: seq<NodeId>, x: NodeId)
    ensures Elements(s + [x]) == Elements(s) + {x}
  {
  }

  /** One `removeNode(ids[i])` of the delete loop extends the removed prefix by one id. */
  lemma DeleteStep(es0: seq<Edge>, nodes0: map<NodeId, NodeRec>, ids: seq<NodeId>, i: int)
    requires 0 <= i < |ids|
    ensures ids[..i] + [ids[i]] == ids[..i + 1]
    ensures WithoutTouching(WithoutTouching(es0, Elements(ids[..i])), {ids[i]}) == WithoutTouching(es0, Elements(ids[..i + 1]))
    ensures nodes0 - Elements(ids[..i]) - {ids[i]} == nodes0 - Elements(ids[..i + 1])
  {
    assert ids[..i + 1] == ids[..i] + [ids[i]];
    ElementsSnoc(ids[..i], ids[i]);
    WithoutTouchingTwice(es0, Elements(ids[..i]), {ids[i]});
  }

  /** After the last `removeNode`, the removed prefix is the whole selection, and no duplicate edge has appeared. */
  lemma DeleteDone(es0: seq<Edge>, nodes0: map<NodeId, NodeRec>, ids: seq<NodeId>)
    ensures ids[..|ids|] == ids
    ensures WithoutTouching(es0, Elements(ids[..|ids|])) == WithoutTouching(es0, Elements(ids))
    ensures nodes0 - Elements(ids[..|ids|]) == nodes0 - Elements(ids)
    ensures NoDuplicateEdges(es0) ==> NoDuplicateEdges(WithoutTouching(es0, Elements(ids)))
  {
    assert ids[..|ids|] == ids;
    if NoDuplicateEdges(es0) {
      WithoutTouchingNoDuplicates(es0, Elements(ids));
    }
  }

  /** `es` holds no edge that `es0` lacks, and as many copies of every edge not joining two selected ids. */
  ghost predicate DisconnectCounts(es0: seq<Edge>, es: seq<Edge>, ids: seq<NodeId>) {
    && multiset(es) <= multiset(es0)
    && forall e :: !LinksSelected(e, ids) ==> multiset(es)[e] == multiset(es0)[e]
  }

  /** The facts the disconnect loop keeps, for the edge list `es` reached from `es0`. */
  ghost predicate DisconnectInv(es0: seq<Edge>, es: seq<Edge>, ids: seq<NodeId>, i: int, j: int) {
    && DisconnectCounts(es0, es, ids)
    && (NoDuplicateEdges(es0) ==> NoDuplicateEdges(es) && PairsDisconnected(es, ids, i, j))
  }

  /** The outer disconnect loop before row `i`: its facts, and the rows still to run lead to the final list. */
  ghost predicate DisconnectOuter(es0: seq<Edge>, es: seq<Edge>, ids: seq<NodeId>, i: nat) {
    && DisconnectInv(es0, es, ids, i, i + 1)
    && DisconnectRows(es0, ids, 0) == DisconnectRows(es, ids, i)
  }

  /** The inner disconnect loop of row `i` before column `j`: its facts, and the rest of the loops lead to the final list. */
  ghost predicate DisconnectInner(es0: seq<Edge>, es: seq<Edge>, ids: seq<NodeId>, i: nat, j: nat) {
    && i < |ids|
    && DisconnectInv(es0, es, ids, i, j)
    && DisconnectRows(es0, ids, 0) == DisconnectRows(DisconnectRow(es, ids, i, j), ids, i + 1)
  }

  /** Row `i` begins at column `i + 1`. */
  lemma DisconnectRowStart(es0: seq<Edge>, es: seq<Edge>, ids: seq<NodeId>, i: nat)
    requires i < |ids| && DisconnectOuter(es0, es, ids, i)
    ensures DisconnectInner(es0, es, ids, i, i + 1)
  {
  }

  /** Row `i` ends once every column has been passed. */
  lemma DisconnectRowEnd(es0: seq<Edge>, es: seq<Edge>, ids: seq<NodeId>, i: nat)
    requires DisconnectInner(es0, es, ids, i, |ids|)
    ensures DisconnectOuter(es0, es, ids, i + 1)
  {
  }

  /** The counts imply membership: every edge left was there before, and every edge not joining two selected ids is still there. */
  lemma CountsKeepMembers(es0: seq<Edge>, es: seq<Edge>, ids: seq<NodeId>)
    requires DisconnectCounts(es0, es, ids)
    ensures forall k :: 0 <= k < |es| ==> es[k] in es0
    ensures forall e :: e in es0 && !LinksSelected(e, ids) ==> e in es
  {
    forall k | 0 <= k < |es|
      ensures es[k] in es0
    {
      assert es[k] in multiset(es);
    }
    forall e | e in es0 && !LinksSelected(e, ids)
      ensures e in es
    {
      assert e in multiset(es0);
    }
  }

  /** One `removeEdge(ids[i], ids[j])` removes a single copy of an edge that joins two selected ids. */
  lemma DisconnectCountsStep(es0: seq<Edge>, es: seq<Edge>, ids: seq<NodeId>, i: int, j: int)
    requires 0 <= i < j < |ids| && Distinct(ids) && DisconnectCounts(es0, es, ids) && Connected(es, ids[i], ids[j])
    ensures DisconnectCounts(es0, WithoutFirstMatch(es, ids[i], ids[j]), ids)
  {
    var k := FindEdge(es, ids[i], ids[j]);
    WithoutFirstMatchMultiset(es, ids[i], ids[j]);
    assert LinksSelected(es[k], ids);
  }

  /** A pair that `hasEdge` finds unconnected keeps the loop's facts with nothing removed. */
  lemma DisconnectInvSkip(es0: seq<Edge>, es: seq<Edge>, ids: seq<NodeId>, i: int, j: int)
    requires 0 <= i < j < |ids| && DisconnectInv(es0, es, ids, i, j) && !Connected(es, ids[i], ids[j])
    ensures DisconnectInv(es0, es, ids, i, j + 1)
  {
  }

  /** One `removeEdge(ids[i], ids[j])` keeps the loop's facts. */
  lemma DisconnectInvStep(es0: seq<Edge>, es: seq<Edge>, ids: seq<NodeId>, i: int, j: int)
    requires 0 <= i < j < |ids| && Distinct(ids) && DisconnectInv(es0, es, ids, i, j)
    ensures DisconnectInv(es0, WithoutFirstMatch(es, ids[i], ids[j]), ids, i, j + 1)
  {
    var a, b := ids[i], ids[j];
    var r := WithoutFirstMatch(es, a, b);
    if Connected(es, a, b) {
      DisconnectCountsStep(es0, es, ids, i, j);
    }
    if NoDuplicateEdges(es0) {
      WithoutFirstMatchNoDuplicates(es, a, b);
      WithoutFirstMatchDisconnects(es, a, b);
      forall p, q | 0 <= p < q < |ids| && (p < i || (p == i && q < j + 1))
        ensures !Connected(r, ids[p], ids[q])
      {
        WithoutFirstMatchKeepsOthers(es, a, b, ids[p], ids[q]);
      }
    }
  }

  /** Pair `(i, j)` is the first step of what is left of row `i`. */
  lemma DisconnectRowAdvance(es: seq<Edge>, ids: seq<NodeId>, i: nat, j: nat)
    requires i < j < |ids|
    ensures DisconnectRow(es, ids, i, j) == DisconnectRow(DisconnectPair(es, ids, i, j), ids, i, j + 1)
  {
  }

  /** A pair `(i, j)` that `hasEdge` finds unconnected is passed with nothing removed. */
  lemma DisconnectSkip(es0: seq<Edge>, es: seq<Edge>, ids: seq<NodeId>, i: int, j: int)
    requires 0 <= i < j < |ids| && DisconnectInner(es0, es, ids, i, j) && !Connected(es, ids[i], ids[j])
    ensures DisconnectInner(es0, es, ids, i, j + 1)
  {
    DisconnectInvSkip(es0, es, ids, i, j);
    DisconnectRowAdvance(es, ids, i, j);
  }

  /** One `removeEdge(ids[i], ids[j])` of the disconnect loop keeps its facts and passes pair `(i, j)`. */
  lemma DisconnectStep(es0: seq<Edge>, es: seq<Edge>, ids: seq<NodeId>, i: int, j: int)
    requires 0 <= i < j < |ids| && Distinct(ids) && DisconnectInner(es0, es, ids, i, j)
    ensures DisconnectInner(es0, WithoutFirstMatch(es, ids[i], ids[j]), ids, i, j + 1)
  {
    DisconnectInvStep(es0, es, ids, i, j);
    DisconnectRowAdvance(es, ids, i, j);
    assert DisconnectPair(es, ids, i, j) == WithoutFirstMatch(es, ids[i], ids[j]);
  }

  /** Once every pair has been passed, no two distinct selected ids are connected, when `es0` had no duplicates. */
  lemma DisconnectedAllPairs(es0: seq<Edge>, es: seq<Edge>, ids: seq<NodeId>)
    requires DisconnectInv(es0, es, ids, |ids|, |ids| + 1)
    ensures NoDuplicateEdges(es0) ==> forall a, b :: a in ids && b in ids && a != b ==> !Connected(es, a, b)
  {
    forall a, b | a in ids && b in ids && a != b && NoDuplicateEdges(es0)
      ensures !Connected(es, a, b)
    {
      var p :| 0 <= p < |ids| && ids[p] == a;
      var q :| 0 <= q < |ids| && ids[q] == b;
      ConnectedSymmetric(es, a, b);
    }
  }

  /** The edge list after pair `(ids[i], ids[j])` of the disconnect loop: `removeEdge` when `hasEdge` holds. */
  function DisconnectPair(es: seq<Edge>, ids: seq<NodeId>, i: nat, j: nat): seq<Edge>
    requires i < |ids| && j < |ids|
  {
    if Connected(es, ids[i], ids[j]) then WithoutFirstMatch(es, ids[i], ids[j]) else es
  }

  /** The inner disconnect loop for row `i`, from column `j` to the end of the selection. */
  function DisconnectRow(es: seq<Edge>, ids: seq<NodeId>, i: nat, j: nat): seq<Edge>
    requires i < |ids|
    decreases |ids| - j
  {
    if j >= |ids| then es else DisconnectRow(DisconnectPair(es, ids, i, j), ids, i, j + 1)
  }

  /** The outer disconnect loop, from row `i` to the end of the selection. */
  function DisconnectRows(es: seq<Edge>, ids: seq<NodeId>, i: nat): seq<Edge>
    decreases |ids| - i
  {
    if i >= |ids| then es else DisconnectRows(DisconnectRow(es, ids, i, i + 1), ids, i + 1)
  }

  /** One less, but never below zero. */
  function Dec(c: nat): nat {
    if c > 0 then c - 1 else 0
  }

  /** Pair `(i, j)` removes one edge joining its own two ids, if there is one, and none joining any other selected pair. */
  lemma DisconnectPairCount(es: seq<Edge>, ids: seq<NodeId>, i: nat, j: nat, p: nat, q: nat)
    requires Distinct(ids) && i < j < |ids| && p < q < |ids|
    ensures JoinCount(DisconnectPair(es, ids, i, j), ids[p], ids[q]) ==
      if i == p && j == q then Dec(JoinCount(es, ids[p], ids[q])) else JoinCount(es, ids[p], ids[q])
  {
    if Connected(es, ids[i], ids[j]) {
      WithoutFirstMatchJoinCount(es, ids[i], ids[j], ids[p], ids[q]);
      var e := es[FindEdge(es, ids[i], ids[j])];
      if !(i == p && j == q) {
        assert !Joins(e, ids[p], ids[q]);
      }
    }
  }

  /** Row `i`, from column `j` on, lowers by one the count of each pair `(i, q)` with `j <= q`, and of no other pair. */
  lemma {:induction false} DisconnectRowCount(es: seq<Edge>, ids: seq<NodeId>, i: nat, j: nat, p: nat, q: nat)
    requires Distinct(ids) && i < j <= |ids| && p < q < |ids|
    ensures JoinCount(DisconnectRow(es, ids, i, j), ids[p], ids[q]) ==
      if i == p && j <= q then Dec(JoinCount(es, ids[p], ids[q])) else JoinCount(es, ids[p], ids[q])
    decreases |ids| - j
  {
    if j < |ids| {
      var next := DisconnectPair(es, ids, i, j);
      assert DisconnectRow(es, ids, i, j) == DisconnectRow(next, ids, i, j + 1);
      DisconnectPairCount(es, ids, i, j, p, q);
      var c, c1 := JoinCount(es, ids[p], ids[q]), JoinCount(next, ids[p], ids[q]);
      assert c1 == if i == p && j == q then Dec(c) else c;
      DisconnectRowCount(next, ids, i, j + 1, p, q);
      assert JoinCount(DisconnectRow(next, ids, i, j + 1), ids[p], ids[q]) == if i == p && j + 1 <= q then Dec(c1) else c1;
    }
  }

  /** A whole row `i` lowers by one the count of each pair whose first index is `i`. */
  lemma DisconnectWholeRowCount(es: seq<Edge>, ids: seq<NodeId>, i: nat, p: nat, q: nat)
    requires Distinct(ids) && i < |ids| && p < q < |ids|
    ensures JoinCount(DisconnectRow(es, ids, i, i + 1), ids[p], ids[q]) ==
      if i == p then Dec(JoinCount(es, ids[p], ids[q])) else JoinCount(es, ids[p], ids[q])
  {
    DisconnectRowCount(es, ids, i, i + 1, p, q);
  }

  /** The rows from `i` on lower by one the count of each pair whose first index is at least `i`. */
  lemma {:induction false} DisconnectRowsCount(es: seq<Edge>, ids: seq<NodeId>, i: nat, p: nat, q: nat)
    requires Distinct(ids) && p < q < |ids|
    ensures JoinCount(DisconnectRows(es, ids, i), ids[p], ids[q]) ==
      if i <= p then Dec(JoinCount(es, ids[p], ids[q])) else JoinCount(es, ids[p], ids[q])
    decreases |ids| - i
  {
    if i < |ids| {
      var next := DisconnectRow(es, ids, i, i + 1);
      assert DisconnectRows(es, ids, i) == DisconnectRows(next, ids, i + 1);
      DisconnectWholeRowCount(es, ids, i, p, q);
      DisconnectRowsCount(next, ids, i + 1, p, q);
    }
  }

  /**
   * The whole disconnect loop removes exactly one edge joining each pair of
   * selected ids that has one, whatever duplicates the list holds.
   */
  lemma DisconnectAllPairsCount(es: seq<Edge>, ids: seq<NodeId>)
    requires Distinct(ids)
    ensures forall p, q :: 0 <= p < q < |ids| ==>
      JoinCount(DisconnectRows(es, ids, 0), ids[p], ids[q]) == Dec(JoinCount(es, ids[p], ids[q]))
  {
    forall p, q | 0 <= p < q < |ids|
      ensures JoinCount(DisconnectRows(es, ids, 0), ids[p], ids[q]) == Dec(JoinCount(es, ids[p], ids[q]))
    {
      DisconnectRowsCount(es, ids, 0, p, q);
    }
  }

  /** What the finished disconnect loop has achieved, stated on the list `es0` it started from and the list `es` it left. */
  lemma DisconnectDone(es0: seq<Edge>, es: seq<Edge>, ids: seq<NodeId>)
    requires Distinct(ids) && DisconnectOuter(es0, es, ids, |ids|)
    ensures forall k :: 0 <= k < |es| ==> es[k] in es0
    ensures forall e :: e in es0 && !LinksSelected(e, ids) ==> e in es
    ensures multiset(es) <= multiset(es0)
    ensures forall e :: !LinksSelected(e, ids) ==> multiset(es)[e] == multiset(es0)[e]
    ensures NoDuplicateEdges(es0) ==>
      && NoDuplicateEdges(es)
      && forall a, b :: a in ids && b in ids && a != b ==> !Connected(es, a, b)
    ensures es == DisconnectRows(es0, ids, 0)
    ensures forall p, q :: 0 <= p < q < |ids| ==> JoinCount(es, ids[p], ids[q]) == Dec(JoinCount(es0, ids[p], ids[q]))
  {
    DisconnectedAllPairs(es0, es, ids);
    CountsKeepMembers(es0, es, ids);
    DisconnectAllPairsCount(es0, ids);
  }

  /** The add-node button acts only on a label that is not blank once trimmed. */
  predicate AddNodeAccepted(labelInput: string) {
    JsString.Trim(labelInput) != []
  }

  /** The add-edge button acts only when both trimmed ids are non-empty and stored. */
  predicate AddEdgeAccepted(input1: string, input2: string, nodes: map<NodeId, NodeRec>) {
    var a, b := JsString.Trim(input1), JsString.Trim(input2);
    a != [] && b != [] && a in nodes && b in nodes
  }

  /** The remove-edge button acts only when both trimmed ids are non-empty and connected. */
  predicate RemoveEdgeAccepted(input1: string, input2: string, es: seq<Edge>) {
    var a, b := JsString.Trim(input1), JsString.Trim(input2);
    a != [] && b != [] && Connected(es, a, b)
  }

  /** An input of white space only is never accepted, by any of the three buttons. */
  lemma BlankInputRejected(s: string, other: string, nodes: map<NodeId, NodeRec>, es: seq<Edge>)
    requires forall i :: 0 <= i < |s| ==> JsString.IsWhiteSpace(s[i])
    ensures !AddNodeAccepted(s)
    ensures !AddEdgeAccepted(s, other, nodes) && !AddEdgeAccepted(other, s, nodes)
    ensures !RemoveEdgeAccepted(s, other, es) && !RemoveEdgeAccepted(other, s, es)
  {
  }

  class GraphEditor {
    const graph: Graph3D
    var selectedNodes: seq<NodeId>

    ghost predicate Valid()
      reads this
    {
      Distinct(selectedNodes)
    }

    constructor (graph: Graph3D)
      ensures Valid() && this.graph == graph && selectedNodes == []
    {
      this.graph := graph;
      selectedNodes := [];
    }

    /** `selectNode(id)`: the id joins the selection whether or not the graph stores such a node. */
    method SelectNode(nodeId: NodeId)
      requires Valid()
      modifies this
      ensures Valid()
      ensures selectedNodes == if nodeId in old(selectedNodes) then old(selectedNodes) else old(selectedNodes) + [nodeId]
    {
      if nodeId !in selectedNodes {
        selectedNodes := selectedNodes + [nodeId];
      }
    }

    /** `deselectNode(id)`: only that id leaves; a no-op when it is not selected. */
    method DeselectNode(nodeId: NodeId)
      requires Valid()
      modifies this
      ensures Valid()
      ensures selectedNodes == Without(old(selectedNodes), nodeId)
    {
      selectedNodes := Without(selectedNodes, nodeId);
    }

    method ClearSelection()
      modifies this
      ensures Valid() && selectedNodes == []
    {
      selectedNodes := [];
    }

    /**
     * `connectSelectedNodes()`: for each pair `i < j` of the selection it adds
     * an edge unless `hasEdge` already holds. No edge is removed, every pair of
     * distinct selected nodes that exist ends up connected, new edges run from
     * the earlier-selected to the later-selected node (so no self-loop), and a
     * duplicate-free edge list stays duplicate-free. The selection is cleared.
     */
    method ConnectSelectedNodes()
      requires Valid() && graph.Valid()
      modifies this, graph
      ensures Valid() && graph.Valid() && selectedNodes == []
      ensures graph.nodes == old(graph.nodes)
      ensures ExtendsWithPairs(old(graph.edges), graph.edges, old(selectedNodes))
      ensures forall a, b :: a in old(selectedNodes) && b in old(selectedNodes) && a != b && a in graph.nodes && b in graph.nodes ==>
        graph.HasEdge(a, b)
      ensures NoDuplicateEdges(old(graph.edges)) ==> NoDuplicateEdges(graph.edges)
      ensures forall k :: |old(graph.edges)| <= k < |graph.edges| ==>
        !Connected(graph.edges[..k], graph.edges[k].nodeId1, graph.edges[k].nodeId2)
    {
      var ids := selectedNodes;
      ghost var es0 := graph.edges;
      for i := 0 to |ids|
        invariant graph.Valid() && graph.nodes == old(graph.nodes)
        invariant ConnectInv(es0, graph.edges, ids, graph.nodes, i, i + 1)
        invariant AddsOnlyUnconnected(graph.edges, |es0|)
      {
        for j := i + 1 to |ids|
          invariant graph.Valid() && graph.nodes == old(graph.nodes)
          invariant ConnectInv(es0, graph.edges, ids, graph.nodes, i, j)
          invariant AddsOnlyUnconnected(graph.edges, |es0|)
        {
          ConnectStep(es0, graph.edges, ids, graph.nodes, i, j);
          if !graph.HasEdge(ids[i], ids[j]) {
            AppendUnconnected(graph.edges, |es0|, Edge(ids[i], ids[j]));
            var _ := graph.AddEdge(ids[i], ids[j]);
          }
        }
      }
      ConnectedAllPairs(graph.edges, ids, graph.nodes);
      ClearSelection();
    }

    /**
     * `disconnectSelectedNodes()`: for each pair `i < j` of the selection it
     * removes an edge when `hasEdge` holds, giving `DisconnectRows`. So each
     * selected pair loses exactly one joining edge if it had one. No edge is
     * added, every edge that does not join two different selected ids is
     * kept, and when the edge list had no duplicates no two selected nodes
     * remain connected. The selection is cleared.
     */
    method DisconnectSelectedNodes()
      requires Valid() && graph.Valid()
      modifies this, graph
      ensures Valid() && graph.Valid() && selectedNodes == []
      ensures graph.nodes == old(graph.nodes)
      ensures forall k :: 0 <= k < |graph.edges| ==> graph.edges[k] in old(graph.edges)
      ensures forall e :: e in old(graph.edges) && !LinksSelected(e, old(selectedNodes)) ==> e in graph.edges
      ensures multiset(graph.edges) <= multiset(old(graph.edges))
      ensures forall e :: !LinksSelected(e, old(selectedNodes)) ==> multiset(graph.edges)[e] == multiset(old(graph.edges))[e]
      ensures NoDuplicateEdges(old(graph.edges)) ==>
        && NoDuplicateEdges(graph.edges)
        && forall a, b :: a in old(selectedNodes) && b in old(selectedNodes) && a != b ==> !graph.HasEdge(a, b)
      ensures graph.edges == DisconnectRows(old(graph.edges), old(selectedNodes), 0)
      ensures forall p, q :: 0 <= p < q < |old(selectedNodes)| ==>
        JoinCount(graph.edges, old(selectedNodes)[p], old(selectedNodes)[q]) ==
        Dec(JoinCount(old(graph.edges), old(selectedNodes)[p], old(selectedNodes)[q]))
    {
      var ids := selectedNodes;
      ghost var es0 := graph.edges;
      for i := 0 to |ids|
        invariant graph.Valid() && graph.nodes == old(graph.nodes)
        invariant DisconnectOuter(es0, graph.edges, ids, i)
      {
        DisconnectRowStart(es0, graph.edges, ids, i);
        for j := i + 1 to |ids|
          invariant graph.Valid() && graph.nodes == old(graph.nodes)
          invariant DisconnectInner(es0, graph.edges, ids, i, j)
        {
          if graph.HasEdge(ids[i], ids[j]) {
            DisconnectStep(es0, graph.edges, ids, i, j);
            graph.RemoveEdge(ids[i], ids[j]);
          } else {
            DisconnectSkip(es0, graph.edges, ids, i, j);
          }
        }
        DisconnectRowEnd(es0, graph.edges, ids, i);
      }
      DisconnectDone(es0, graph.edges, ids);
      ClearSelection();
    }

    /**
     * `deleteSelectedNodes()`: `removeNode` is called once per selected id, in
     * selection order (`removed` is that call sequence). Afterwards the
     * selected nodes are gone, the others are untouched, and exactly the edges
     * touching a selected id have been dropped. The selection is cleared.
     */
    method DeleteSelectedNodes() returns (ghost removed: seq<NodeId>)
      requires Valid() && graph.Valid()
      modifies this, graph
      ensures Valid() && graph.Valid() && selectedNodes == []
      ensures removed == old(selectedNodes) && Distinct(removed)
      ensures graph.nodes == old(graph.nodes) - Elements(old(selectedNodes))
      ensures graph.edges == WithoutTouching(old(graph.edges), Elements(old(selectedNodes)))
      ensures NoDuplicateEdges(old(graph.edges)) ==> NoDuplicateEdges(graph.edges)
    {
      var ids := selectedNodes;
      ghost var es0 := graph.edges;
      removed := [];
      WithoutTouchingNothing(es0, {});
      assert Elements(ids[..0]) == {};
      for i := 0 to |ids|
        invariant graph.Valid() && removed == ids[..i]
        invariant graph.nodes == old(graph.nodes) - Elements(ids[..i])
        invariant graph.edges == WithoutTouching(es0, Elements(ids[..i]))
      {
        DeleteStep(es0, old(graph.nodes), ids, i);
        graph.RemoveNode(ids[i]);
        removed := removed + [ids[i]];
      }
      DeleteDone(es0, old(graph.nodes), ids);
      ClearSelection();
    }

    /** The add-node button: a node with the trimmed label and a random position, under the clock reading `now` as a decimal string. */
    method AddNodeClicked(labelInput: string, now: nat, draw: Vec3) returns (cleared: bool)
      requires graph.Valid() && IsRandomDraw(draw)
      modifies graph
      ensures graph.Valid() && graph.edges == old(graph.edges)
      ensures cleared == AddNodeAccepted(labelInput)
      ensures var id := JsString.DecimalString(now);
        graph.nodes == if cleared
          then old(graph.nodes)[id := NodeRec(id, JsString.Trim(labelInput), None, Placement(None, draw), Zero)]
          else old(graph.nodes)
    {
      var text := JsString.Trim(labelInput);
      if text != [] {
        var id := JsString.DecimalString(now);
        var _ := graph.AddNode(id, text, None, None, draw);
        cleared := true;
      } else {
        cleared := false;
      }
    }

    /** The add-edge button: one edge `a -> b` when the guard holds and `hasEdge` does not; the inputs are cleared whenever the guard holds. */
    method AddEdgeClicked(input1: string, input2: string) returns (cleared: bool)
      requires graph.Valid()
      modifies graph
      ensures graph.Valid() && graph.nodes == old(graph.nodes)
      ensures cleared == AddEdgeAccepted(input1, input2, old(graph.nodes))
      ensures var a, b := JsString.Trim(input1), JsString.Trim(input2);
        graph.edges == if cleared && !Connected(old(graph.edges), a, b) then old(graph.edges) + [Edge(a, b)] else old(graph.edges)
      ensures NoDuplicateEdges(old(graph.edges)) ==> NoDuplicateEdges(graph.edges)
    {
      var a := JsString.Trim(input1);
      var b := JsString.Trim(input2);
      if a != [] && b != [] && a in graph.nodes && b in graph.nodes {
        if !graph.HasEdge(a, b) {
          ghost var before := graph.edges;
          var _ := graph.AddEdge(a, b);
          if NoDuplicateEdges(before) {
            AppendNoDuplicates(before, Edge(a, b));
          }
        }
        cleared := true;
      } else {
        cleared := false;
      }
    }

    /** The remove-edge button: `removeEdge(a, b)` when the guard holds; the stored nodes are not consulted. */
    method RemoveEdgeClicked(input1: string, input2: string) returns (cleared: bool)
      requires graph.Valid()
      modifies graph
      ensures graph.Valid() && graph.nodes == old(graph.nodes)
      ensures cleared == RemoveEdgeAccepted(input1, input2, old(graph.edges))
      ensures var a, b := JsString.Trim(input1), JsString.Trim(input2);
        graph.edges == if cleared then WithoutFirstMatch(old(graph.edges), a, b) else old(graph.edges)
    {
      var a := JsString.Trim(input1);
      var b := JsString.Trim(input2);
      if a != [] && b != [] && graph.HasEdge(a, b) {
        graph.RemoveEdge(a, b);
        cleared := true;
      } else {
        cleared := false;
      }
    }
  }
}
