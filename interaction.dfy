/**
 * The pointer state machine of src/core/graphIntecation.js: a press, a move
 * that may turn the press into a drag and updates the hovered node, and a
 * release that may count as a click. The raycast is an input (the id of the
 * node whose sphere is hit first, if any), the clock is an input (`now`, the
 * reading of `Date.now()`), and the click's effect (`window.open` or
 * `console.log`) is an output value.
 */
module Interaction {
  import opened Common
  import opened Graph
  import opened ScaleAnim

  /** Pixels a press may travel on either axis and still be a click. */
  const DragThreshold: real := 5.0
  /** Milliseconds a press may last and still be a click. */
  const ClickTimeThreshold: int := 300
  /** The scale factor a hovered node is animated to, `hoverScale / originalScale`. */
  const HoverRatio: real := HoverScale / OriginalScale

  /** What `handleClick` does. */
  datatype ClickOutcome = OpenUrl(url: string) | Log(nodeId: NodeId) | Nothing

  /** One `animateNodeScale(node, target)` call. */
  datatype ScaleCall = ScaleCall(node: NodeId, target: real)

  /** The hovered node after `handleHover`, with the animation calls it made, in order. */
  datatype HoverResult = HoverResult(hovered: Option<NodeRec>, calls: seq<ScaleCall>)

  /** `handleClick`: a hovered node with a non-empty url opens it, any other hovered node logs its id. */
  function ClickOutcomeOf(hovered: Option<NodeRec>): (o: ClickOutcome)
    ensures o.Nothing? <==> hovered.None?
    ensures o.OpenUrl? <==> hovered.Some? && hovered.value.url.Some? && hovered.value.url.value != []
    ensures o.OpenUrl? ==> o.url == hovered.value.url.value
    ensures o.Log? ==> o.nodeId == hovered.value.id
  {
    match hovered
    case None => Nothing
    case Some(node) =>
      if node.url.Some? && node.url.value != [] then OpenUrl(node.url.value) else Log(node.id)
  }

  /**
   * The mouseup decision: `handleClick` runs only when the press did not turn
   * into a drag and lasted less than the click threshold. A release with no
   * recorded press (`mouseDownTime == 0`) at any realistic clock reading is
   * no click.
   */
  function MouseUpOutcome(isDragging: bool, mouseDownTime: int, now: int, hovered: Option<NodeRec>): (o: ClickOutcome)
    ensures !isDragging && now - mouseDownTime < ClickTimeThreshold ==> o == ClickOutcomeOf(hovered)
    ensures isDragging || now - mouseDownTime >= ClickTimeThreshold ==> o == Nothing
    ensures mouseDownTime == 0 && now >= ClickTimeThreshold ==> o == Nothing
    ensures !o.Nothing? ==> hovered.Some?
  {
    var clickDuration := now - mouseDownTime;
    if !isDragging && clickDuration < ClickTimeThreshold then ClickOutcomeOf(hovered) else Nothing
  }

  /**
   * `checkDragging`: the drag flag after a move to `(x, y)`. It never goes
   * back to false on a move, it stays put while no press is recorded, and it
   * is raised only by a move of more than the threshold on one axis.
   */
  function DragAfterMove(isDragging: bool, mouseDownTime: int, downX: real, downY: real, x: real, y: real): (d: bool)
    ensures isDragging ==> d
    ensures mouseDownTime <= 0 ==> d == isDragging
    ensures d && !isDragging ==> Abs(x - downX) > DragThreshold || Abs(y - downY) > DragThreshold
    ensures mouseDownTime > 0 && (Abs(x - downX) > DragThreshold || Abs(y - downY) > DragThreshold) ==> d
  {
    if mouseDownTime > 0 then
      var deltaX := Abs(x - downX);
      var deltaY := Abs(y - downY);
      if deltaX > DragThreshold || deltaY > DragThreshold then true else isDragging
    else isDragging
  }

  /** The threshold is strict and per axis: 5 px on both axes is still a click, 6 px on one is a drag. */
  lemma DragThresholdPerAxis(t: int, x: real, y: real)
    requires t > 0
    ensures !DragAfterMove(false, t, x, y, x + 5.0, y - 5.0)
    ensures DragAfterMove(false, t, x, y, x - 6.0, y)
    ensures DragAfterMove(false, t, x, y, x, y + 5.5)
  {
    assert Abs(x + 5.0 - x) == 5.0 && Abs(y - 5.0 - y) == 5.0;
    assert Abs(x - 6.0 - x) == 6.0;
    assert Abs(y + 5.5 - y) == 5.5;
  }

  /** The hovered node is enlarged by the ratio of the two scale constants, 0.45 / 0.2. */
  lemma HoverRatioValue()
    ensures HoverRatio == 2.25
  {
    assert HoverScale == 2.25 * OriginalScale;
  }

  /** The stored node whose sphere the ray hit: the `find` over `graph.nodes`, by the hit node's key. */
  function HitRecord(hit: Option<NodeId>, nodes: map<NodeId, NodeRec>): (r: Option<NodeRec>)
    ensures r.Some? <==> hit.Some? && hit.value in nodes
    ensures r.Some? ==> r.value == nodes[hit.value]
  {
    if hit.Some? && hit.value in nodes then Some(nodes[hit.value]) else None
  }

  /** The call that returns a previously hovered node to scale 1, if there is one. */
  function ResetCall(hovered: Option<NodeRec>): (c: seq<ScaleCall>)
    ensures hovered.None? ==> c == []
    ensures hovered.Some? ==> c == [ScaleCall(hovered.value.id, 1.0)]
  {
    match hovered
    case None => []
    case Some(node) => [ScaleCall(node.id, 1.0)]
  }

  /**
   * `handleHover` with the raycast abstracted to `hit`. The first block leaves
   * a node that is no longer under the pointer; the second enters the hit
   * node when it is not the hovered one, with the inner reset of the old node
   * as written.
   *
   * Afterwards the hovered node is exactly the hit node; a pointer that stays
   * on the same node makes no call; otherwise the old node (if any) goes back
   * to scale 1 and then the new node (if any) goes to `HoverRatio`. The inner
   * reset never fires: after the first block there is no other hovered node.
   */
  function HoverStep(hovered: Option<NodeRec>, hit: Option<NodeId>, nodes: map<NodeId, NodeRec>): (r: HoverResult)
    ensures r.hovered == HitRecord(hit, nodes)
    ensures r.calls == [] <==> hovered == HitRecord(hit, nodes)
    ensures hovered != HitRecord(hit, nodes) ==>
      r.calls == ResetCall(hovered) + (match HitRecord(hit, nodes)
                                        case None => []
                                        case Some(n) => [ScaleCall(n.id, HoverRatio)])
    ensures |r.calls| <= 2
  {
    var found := HitRecord(hit, nodes);
    var leave := hovered.Some? && (hit.None? || found != hovered);
    var h1 := if leave then None else hovered;
    var c1 := if leave then ResetCall(hovered) else [];
    if hit.Some? && found.Some? && found != h1 then
      HoverResult(found, c1 + ResetCall(h1) + [ScaleCall(found.value.id, HoverRatio)])
    else
      HoverResult(h1, c1)
  }

  /** Moving over the node that is already hovered changes nothing. */
  lemma HoverStepSettles(hovered: Option<NodeRec>, hit: Option<NodeId>, nodes: map<NodeId, NodeRec>)
    ensures var r := HoverStep(hovered, hit, nodes);
      HoverStep(r.hovered, hit, nodes) == HoverResult(r.hovered, [])
  {
  }

  /** The animator state after the calls of `calls`, in order. */
  function ApplyScaleCalls(s: AnimState, calls: seq<ScaleCall>): (r: AnimState)
    ensures s.active <= r.active && s.data.Keys <= r.data.Keys && r.scale == s.scale
    ensures forall k :: 0 <= k < |calls| ==> calls[k].node in r.active
    ensures forall n :: n in s.data && (forall k :: 0 <= k < |calls| ==> calls[k].node != n) ==> r.data[n] == s.data[n]
    decreases |calls|
  {
    if calls == [] then s
    else
      var rest := calls[1..];
      assert forall k :: 1 <= k < |calls| ==> calls[k] == rest[k - 1];
      ApplyScaleCalls(Animate(s, calls[0].node, calls[0].target), rest)
  }

  lemma {:induction false} ApplyScaleCallsAppend(s: AnimState, a: seq<ScaleCall>, b: seq<ScaleCall>)
    ensures ApplyScaleCalls(s, a + b) == ApplyScaleCalls(ApplyScaleCalls(s, a), b)
    decreases |a|
  {
    if a != [] {
      assert (a + b)[0] == a[0] && (a + b)[1..] == a[1..] + b;
      ApplyScaleCallsAppend(Animate(s, a[0].node, a[0].target), a[1..], b);
    } else {
      assert a + b == b;
    }
  }

  /** Animation calls keep the animator's bookkeeping consistent. */
  lemma {:induction false} ApplyScaleCallsPreservesInv(s: AnimState, calls: seq<ScaleCall>)
    requires Inv(s)
    ensures Inv(ApplyScaleCalls(s, calls))
    decreases |calls|
  {
    if calls != [] {
      AnimatePreservesInv(s, calls[0].node, calls[0].target);
      ApplyScaleCallsPreservesInv(Animate(s, calls[0].node, calls[0].target), calls[1..]);
    }
  }

  /**
   * What a hover change does to the animator: the newly hovered node is
   * animating towards `HoverRatio`; the node that was left, when it is a
   * different id, is animating back to 1; nodes not involved keep their
   * animation data.
   */
  lemma HoverEffect(s: AnimState, hovered: Option<NodeRec>, hit: Option<NodeId>, nodes: map<NodeId, NodeRec>)
    requires Inv(s) && hovered != HitRecord(hit, nodes)
    ensures var r := HoverStep(hovered, hit, nodes);
      var t := ApplyScaleCalls(s, r.calls);
      && Inv(t)
      && (r.hovered.Some? ==> var n := r.hovered.value.id; n in t.active && t.data[n].targetScale == HoverRatio)
      && (hovered.Some? && (r.hovered.None? || r.hovered.value.id != hovered.value.id) ==>
            var m := hovered.value.id; m in t.active && t.data[m].targetScale == 1.0)
      && (forall k :: k in s.data && (hovered.None? || k != hovered.value.id) && (r.hovered.None? || k != r.hovered.value.id) ==>
            k in t.data && t.data[k] == s.data[k])
  {
    var r := HoverStep(hovered, hit, nodes);
    ApplyScaleCallsPreservesInv(s, r.calls);
    var rc := ResetCall(hovered);
    var s1 := ApplyScaleCalls(s, rc);
    if hovered.Some? {
      assert rc[1..] == [];
      assert ApplyScaleCalls(Animate(s, hovered.value.id, 1.0), []) == Animate(s, hovered.value.id, 1.0);
      assert s1 == Animate(s, hovered.value.id, 1.0);
      AnimatePreservesInv(s, hovered.value.id, 1.0);
    }
    if r.hovered.Some? {
      var n := r.hovered.value.id;
      var last := [ScaleCall(n, HoverRatio)];
      ApplyScaleCallsAppend(s, rc, last);
      assert last[1..] == [];
      assert ApplyScaleCalls(s1, last) == Animate(s1, n, HoverRatio);
      AnimatePreservesInv(s1, n, HoverRatio);
    } else {
      assert r.calls == rc + [];
    }
  }

  class InteractionHandler {
    const graph: Graph3D
    var hoveredNode: Option<NodeRec>
    var isDragging: bool
    var mouseDownTime: int
    var mouseDownX: real
    var mouseDownY: real

    /** The animator is consistent, and a drag is only ever recorded during a press. */
    ghost predicate Valid()
      reads this, graph.scaleAnimator
    {
      graph.scaleAnimator.Valid() && (isDragging ==> mouseDownTime > 0)
    }

    constructor (graph: Graph3D)
      requires graph.scaleAnimator.Valid()
      ensures Valid() && this.graph == graph
      ensures hoveredNode.None? && !isDragging && mouseDownTime == 0 && mouseDownX == 0.0 && mouseDownY == 0.0
    {
      this.graph := graph;
      hoveredNode := None;
      isDragging := false;
      mouseDownTime := 0;
      mouseDownX := 0.0;
      mouseDownY := 0.0;
    }

    /** The mousedown listener: a new press at `(x, y)` at clock reading `now`. */
    method MouseDown(now: nat, x: real, y: real)
      requires Valid()
      modifies this
      ensures Valid()
      ensures !isDragging && mouseDownTime == now && mouseDownX == x && mouseDownY == y
      ensures hoveredNode == old(hoveredNode)
    {
      isDragging := false;
      mouseDownTime := now;
      mouseDownX := x;
      mouseDownY := y;
    }

    method CheckDragging(x: real, y: real)
      requires Valid()
      modifies this
      ensures Valid()
      ensures isDragging == DragAfterMove(old(isDragging), mouseDownTime, mouseDownX, mouseDownY, x, y)
      ensures mouseDownTime == old(mouseDownTime) && mouseDownX == old(mouseDownX) && mouseDownY == old(mouseDownY)
      ensures hoveredNode == old(hoveredNode)
    {
      if mouseDownTime > 0 {
        var deltaX := Abs(x - mouseDownX);
        var deltaY := Abs(y - mouseDownY);
        if deltaX > DragThreshold || deltaY > DragThreshold {
          isDragging := true;
        }
      }
    }

    method ResetDragState()
      requires Valid()
      modifies this
      ensures Valid() && !isDragging && mouseDownTime == 0
      ensures hoveredNode == old(hoveredNode) && mouseDownX == old(mouseDownX) && mouseDownY == old(mouseDownY)
    {
      isDragging := false;
      mouseDownTime := 0;
    }

    /** `handleHover` for a ray whose first hit is the sphere of node `hit`, if any. */
    method HandleHover(hit: Option<NodeId>)
      requires Valid()
      modifies this, graph.scaleAnimator
      ensures Valid()
      ensures var r := HoverStep(old(hoveredNode), hit, graph.nodes);
        hoveredNode == r.hovered && graph.scaleAnimator.State() == ApplyScaleCalls(old(graph.scaleAnimator.State()), r.calls)
      ensures isDragging == old(isDragging) && mouseDownTime == old(mouseDownTime)
      ensures mouseDownX == old(mouseDownX) && mouseDownY == old(mouseDownY)
    {
      ghost var s0 := graph.scaleAnimator.State();
      ghost var done: seq<ScaleCall> := [];
      var found := HitRecord(hit, graph.nodes);
      if hoveredNode.Some? && (hit.None? || found != hoveredNode) {
        var leaving := hoveredNode.value.id;
        graph.scaleAnimator.AnimateNodeScale(leaving, 1.0);
        done := [ScaleCall(leaving, 1.0)];
        assert graph.scaleAnimator.State() == ApplyScaleCalls(s0, done) by {
          assert done[1..] == [];
        }
        hoveredNode := None;
      }
      if hit.Some? {
        // The reset of the old node in this block cannot fire: `hoveredNode` is
        // now either null or the node that was hit.
        if found.Some? && found != hoveredNode {
          ghost var s1 := graph.scaleAnimator.State();
          hoveredNode := found;
          graph.scaleAnimator.AnimateNodeScale(found.value.id, HoverRatio);
          ghost var last := [ScaleCall(found.value.id, HoverRatio)];
          assert graph.scaleAnimator.State() == ApplyScaleCalls(s1, last) by {
            assert last[1..] == [];
          }
          ApplyScaleCallsAppend(s0, done, last);
          done := done + last;
        }
      }
      assert done == HoverStep(old(hoveredNode), hit, graph.nodes).calls;
    }

    /** The mousemove listener: the drag check, then the hover update for the ray through the new pointer position. */
    method MouseMove(x: real, y: real, hit: Option<NodeId>)
      requires Valid()
      modifies this, graph.scaleAnimator
      ensures Valid()
      ensures isDragging == DragAfterMove(old(isDragging), mouseDownTime, mouseDownX, mouseDownY, x, y)
      ensures mouseDownTime == old(mouseDownTime) && mouseDownX == old(mouseDownX) && mouseDownY == old(mouseDownY)
      ensures var r := HoverStep(old(hoveredNode), hit, graph.nodes);
        hoveredNode == r.hovered && graph.scaleAnimator.State() == ApplyScaleCalls(old(graph.scaleAnimator.State()), r.calls)
    {
      CheckDragging(x, y);
      HandleHover(hit);
    }

    /** `handleClick` on the current hovered node. */
    method HandleClick() returns (outcome: ClickOutcome)
      ensures outcome == ClickOutcomeOf(hoveredNode)
    {
      outcome := Nothing;
      if hoveredNode.Some? {
        var nodeId := hoveredNode.value.id;
        var url := hoveredNode.value.url;
        if url.Some? && url.value != [] {
          outcome := OpenUrl(url.value);
        } else {
          outcome := Log(nodeId);
        }
      }
    }

    /**
     * The mouseup listener at clock reading `now`: a click on the hovered node
     * when the press was short and not a drag; the press is forgotten either way.
     */
    method MouseUp(now: nat) returns (outcome: ClickOutcome)
      requires Valid()
      modifies this
      ensures Valid() && !isDragging && mouseDownTime == 0
      ensures outcome == MouseUpOutcome(old(isDragging), old(mouseDownTime), now, hoveredNode)
      ensures hoveredNode == old(hoveredNode)
      ensures mouseDownX == old(mouseDownX) && mouseDownY == old(mouseDownY)
    {
      var clickDuration := now - mouseDownTime;
      outcome := Nothing;
      if !isDragging && clickDuration < ClickTimeThreshold {
        outcome := HandleClick();
      }
      ResetDragState();
    }
  }
}
