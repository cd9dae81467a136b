/**
 * The scale animator of src/core/scale_anim.js: it eases each node's visual
 * scale towards a target, a fixed fraction of the remaining gap per tick, and
 * snaps once the gap is within an epsilon. Nodes are keyed by id; the scale of
 * a node's sphere, which only this animator writes, is kept in `scale` (a node
 * absent from it still has a fresh sphere's scale, 1).
 */
module ScaleAnim {
  import opened Common

  /** `this.animationSpeed`: the fraction of the gap closed per tick. */
  const AnimationSpeed: real := 0.15
  /** The gap at or below which `update` snaps to the target. */
  const SnapEpsilon: real := 0.01

  /** `sphere.userData.animationData` of one node. */
  datatype AnimData = AnimData(currentScale: real, targetScale: real, isAnimating: bool)

  /** The animator's whole state: the `animatingNodes` set, each node's animation data, each sphere's scale. */
  datatype AnimState = AnimState(active: set<NodeId>, data: map<NodeId, AnimData>, scale: map<NodeId, real>)

  /** `sphere.scale.x`. */
  function VisualScale(s: AnimState, n: NodeId): real {
    if n in s.scale then s.scale[n] else 1.0
  }

  function Gap(d: AnimData): real {
    d.targetScale - d.currentScale
  }

  /** The bookkeeping invariant: a node is in the active set exactly when its data says it is animating. */
  ghost predicate Inv(s: AnimState) {
    && (forall n :: n in s.active ==> n in s.data && s.data[n].isAnimating)
    && (forall n :: n in s.data && s.data[n].isAnimating ==> n in s.active)
  }

  /** The half of `Inv` that concerns one node. */
  predicate NodeInv(s: AnimState, n: NodeId) {
    n in s.active ==> n in s.data && s.data[n].isAnimating
  }

  /** `animateNodeScale(n, t)`: initialise the data from the sphere's scale on first use, then retarget and activate. */
  function Animate(s: AnimState, n: NodeId, t: real): (r: AnimState)
    ensures n in r.active && n in r.data
    ensures r.data[n].targetScale == t && r.data[n].isAnimating
    ensures r.data[n].currentScale == if n in s.data then s.data[n].currentScale else VisualScale(s, n)
  {
    var d := if n in s.data then s.data[n] else AnimData(VisualScale(s, n), t, false);
    AnimState(s.active + {n}, s.data[n := d.(targetScale := t, isAnimating := true)], s.scale)
  }

  /** What one `update` does to the data of one animating node. */
  function Step(d: AnimData): (r: AnimData)
    ensures r.targetScale == d.targetScale
    ensures Abs(Gap(d)) > SnapEpsilon ==> Gap(r) == (1.0 - AnimationSpeed) * Gap(d) && r.isAnimating == d.isAnimating
    ensures Abs(Gap(d)) <= SnapEpsilon ==> r.currentScale == d.targetScale && !r.isAnimating
  {
    var diff := d.targetScale - d.currentScale;
    if Abs(diff) > SnapEpsilon then d.(currentScale := d.currentScale + diff * AnimationSpeed)
    else d.(currentScale := d.targetScale, isAnimating := false)
  }

  /** `update` touches `n`: it is in the set and its data is animating (`animData?.isAnimating`). */
  predicate Advances(s: AnimState, n: NodeId) {
    n in s.active && n in s.data && s.data[n].isAnimating
  }

  /** `update` snaps `n` and takes it out of the set. */
  predicate Settles(s: AnimState, n: NodeId) {
    Advances(s, n) && Abs(Gap(s.data[n])) <= SnapEpsilon
  }

  /** The state once `update` has visited the members of `done` (each visit only touches its own node). */
  function TickPart(s: AnimState, done: set<NodeId>): AnimState {
    AnimState(
      s.active - (set n | n in done && Settles(s, n)),
      map n | n in s.data :: if n in done && Advances(s, n) then Step(s.data[n]) else s.data[n],
      map n | n in s.scale.Keys + (set m | m in done && Advances(s, m)) ::
        if n in done && Advances(s, n) then Step(s.data[n]).currentScale else s.scale[n])
  }

  /** `r` agrees, entry by entry, with `s` after `update` has visited `done`. */
  ghost predicate VisitedAs(s: AnimState, done: set<NodeId>, r: AnimState) {
    && (forall n :: n in r.active <==> n in s.active && !(n in done && Settles(s, n)))
    && (forall n :: n in r.data <==> n in s.data)
    && (forall n :: n in s.data ==> r.data[n] == if n in done && Advances(s, n) then Step(s.data[n]) else s.data[n])
    && (forall n :: n in r.scale <==> n in s.scale || (n in done && Advances(s, n)))
    && (forall n :: n in r.scale ==> r.scale[n] == if n in done && Advances(s, n) then Step(s.data[n]).currentScale else s.scale[n])
  }

  lemma VisitedIsTickPart(s: AnimState, done: set<NodeId>, r: AnimState)
    requires VisitedAs(s, done, r)
    ensures r == TickPart(s, done)
  {
    var q := TickPart(s, done);
    assert r.data == q.data;
    assert r.scale == q.scale;
  }

  /** One call of `update`'s `forEach` callback on node `n`: ease or snap an animating node, and skip any other. */
  function Visit(r: AnimState, n: NodeId): (v: AnimState)
    ensures v.active <= r.active && v.data.Keys == r.data.Keys
    ensures forall m :: m != n && m in r.data ==> v.data[m] == r.data[m]
    ensures n in r.data ==> v.data[n].targetScale == r.data[n].targetScale
  {
    if n in r.data && r.data[n].isAnimating then
      var d := Step(r.data[n]);
      AnimState(if d.isAnimating then r.active else r.active - {n}, r.data[n := d], r.scale[n := d.currentScale])
    else r
  }

  /** Visiting a not yet visited member of the active set extends `VisitedAs` by that member. */
  lemma VisitStep(s: AnimState, done: set<NodeId>, r: AnimState, n: NodeId)
    requires VisitedAs(s, done, r) && n in s.active && n !in done
    ensures VisitedAs(s, done + {n}, Visit(r, n))
  {
    if Advances(s, n) {
      assert r.data[n] == s.data[n];
    }
  }

  /** `VisitStep` stated over the set still to visit, as the loop of `update` keeps it. */
  lemma VisitPending(s: AnimState, pending: set<NodeId>, r: AnimState, n: NodeId)
    requires pending <= s.active && n in pending && VisitedAs(s, s.active - pending, r)
    ensures pending - {n} <= s.active && VisitedAs(s, s.active - (pending - {n}), Visit(r, n))
  {
    VisitStep(s, s.active - pending, r, n);
    assert s.active - (pending - {n}) == (s.active - pending) + {n};
  }

  /** Once `update` has visited the whole active set, the state is one `Tick` on, and the invariant still holds. */
  lemma UpdateDone(s: AnimState, r: AnimState)
    requires Inv(s) && VisitedAs(s, s.active, r)
    ensures r == Tick(s) && Inv(r)
  {
    VisitedIsTickPart(s, s.active, r);
    TickPreservesInv(s);
  }

  /** One `update()`: every member of the active set is visited once. */
  function Tick(s: AnimState): (r: AnimState)
    ensures r.active <= s.active && r.data.Keys == s.data.Keys
    ensures forall n :: n in s.data ==> r.data[n].targetScale == s.data[n].targetScale
    ensures forall n :: n in s.data && !Advances(s, n) ==> r.data[n] == s.data[n]
  {
    TickPart(s, s.active)
  }

  /** `resetNodeScale(n)`: scale 1, data (if any) settled at 1, out of the set. */
  function Reset(s: AnimState, n: NodeId): (r: AnimState)
    ensures n !in r.active && r.active <= s.active
    ensures n in r.scale && r.scale[n] == 1.0
    ensures n in r.data ==> r.data[n].currentScale == 1.0 && !r.data[n].isAnimating
  {
    AnimState(
      s.active - {n},
      if n in s.data then s.data[n := AnimData(1.0, 1.0, false)] else s.data,
      s.scale[n := 1.0])
  }

  lemma AnimatePreservesInv(s: AnimState, n: NodeId, t: real)
    requires Inv(s)
    ensures Inv(Animate(s, n, t))
    ensures forall m :: m != n && m in s.data ==> m in Animate(s, n, t).data && Animate(s, n, t).data[m] == s.data[m]
  {
  }

  lemma TickPreservesInv(s: AnimState)
    requires Inv(s)
    ensures Inv(Tick(s))
  {
  }

  lemma ResetPreservesInv(s: AnimState, n: NodeId)
    requires Inv(s)
    ensures Inv(Reset(s, n))
  {
  }

  /** After `update`, every node it touched shows its new current scale, and a settled node shows its target. */
  lemma TickShowsCurrentScale(s: AnimState, n: NodeId)
    requires Advances(s, n)
    ensures n in Tick(s).data && VisualScale(Tick(s), n) == Tick(s).data[n].currentScale
    ensures Tick(s).data[n] == Step(s.data[n])
    ensures Settles(s, n) ==>
      n !in Tick(s).active && !Tick(s).data[n].isAnimating && VisualScale(Tick(s), n) == s.data[n].targetScale
    ensures !Settles(s, n) ==>
      n in Tick(s).active && Gap(Tick(s).data[n]) == (1.0 - AnimationSpeed) * Gap(s.data[n])
  {
  }

  /** `resetNodeScale` leaves the node shown at scale 1, settled at 1 if it has data, and inactive; a second reset changes nothing. */
  lemma ResetSettles(s: AnimState, n: NodeId)
    ensures VisualScale(Reset(s, n), n) == 1.0 && n !in Reset(s, n).active
    ensures n in s.data ==> Reset(s, n).data[n] == AnimData(1.0, 1.0, false)
    ensures Reset(Reset(s, n), n) == Reset(s, n)
  {
    var r := Reset(s, n);
    assert r.scale[n := 1.0] == r.scale;
    if n in s.data {
      assert r.data[n := AnimData(1.0, 1.0, false)] == r.data;
    }
  }

  /** `k` ticks in a row, with no other call in between. */
  function Iterate(s: AnimState, k: nat): AnimState
    decreases k
  {
    if k == 0 then s else Iterate(Tick(s), k - 1)
  }

  /** A bound on the ticks a node needs before it leaves the active set: each easing tick closes more than 0.0015 of the gap. */
  function Ticks(d: AnimData): nat {
    if !d.isAnimating then 0
    else if Abs(Gap(d)) <= SnapEpsilon then 1
    else 1 + (Abs(Gap(d)) / 0.0015).Floor
  }

  function TicksOf(s: AnimState, n: NodeId): nat {
    if n in s.data then Ticks(s.data[n]) else 0
  }

  lemma StepDecreasesTicks(d: AnimData)
    requires d.isAnimating && Abs(Gap(d)) > SnapEpsilon
    ensures Ticks(Step(d)) < Ticks(d)
  {
    var g := Abs(Gap(d));
    var g' := Abs(Gap(Step(d)));
    assert g' == 0.85 * g;
    var y := g / 0.0015;
    assert y >= 1.0;
    assert y.Floor >= 1;
    if g' > SnapEpsilon {
      var x := g' / 0.0015;
      assert x <= y - 1.0;
      assert x.Floor <= (y - 1.0).Floor;
      assert (y - 1.0).Floor == y.Floor - 1;
    }
  }

  /** The active set never grows under `update`. */
  lemma {:induction false} IterateShrinks(s: AnimState, k: nat)
    ensures Iterate(s, k).active <= s.active
    decreases k
  {
    if k > 0 {
      IterateShrinks(Tick(s), k - 1);
    }
  }

  /** What one tick does to the tick bound of an animating node. */
  lemma TickProgress(s: AnimState, n: NodeId, k: nat)
    requires NodeInv(s, n) && k >= TicksOf(s, n) && n in s.active
    ensures k >= 1 && NodeInv(Tick(s), n)
    ensures Settles(s, n) ==> n !in Tick(s).active
    ensures !Settles(s, n) ==> k - 1 >= TicksOf(Tick(s), n)
  {
    assert Ticks(s.data[n]) >= 1;
    TickShowsCurrentScale(s, n);
    if !Settles(s, n) {
      StepDecreasesTicks(s.data[n]);
    }
  }

  /** One tick, then the remaining `k - 1`. */
  lemma IterateUnfold(s: AnimState, k: nat)
    requires k >= 1
    ensures Iterate(s, k) == Iterate(Tick(s), k - 1)
  {
  }

  /** A node leaves the active set within `TicksOf(s, n)` ticks and does not come back. */
  lemma {:induction false} LeavesWithin(s: AnimState, n: NodeId, k: nat)
    requires NodeInv(s, n) && k >= TicksOf(s, n)
    ensures n !in Iterate(s, k).active
    decreases k
  {
    if n !in s.active {
      IterateShrinks(s, k);
    } else {
      TickProgress(s, n, k);
      IterateUnfold(s, k);
      if Settles(s, n) {
        IterateShrinks(Tick(s), k - 1);
      } else {
        LeavesWithin(Tick(s), n, k - 1);
      }
    }
  }

  /** The largest `TicksOf` over the nodes of `nodes`. */
  ghost function MaxTicks(s: AnimState, nodes: set<NodeId>): (k: nat)
    ensures forall n :: n in nodes ==> TicksOf(s, n) <= k
    decreases nodes
  {
    if nodes == {} then 0
    else
      var n :| n in nodes;
      var m := MaxTicks(s, nodes - {n});
      if TicksOf(s, n) > m then TicksOf(s, n) else m
  }

  /** With no further `animateNodeScale` calls, repeated `update` empties the active set after finitely many ticks. */
  lemma EventuallyIdle(s: AnimState)
    requires Inv(s)
    ensures Iterate(s, MaxTicks(s, s.active)).active == {}
  {
    var k := MaxTicks(s, s.active);
    forall n | n in s.active
      ensures n !in Iterate(s, k).active
    {
      LeavesWithin(s, n, k);
    }
    IterateShrinks(s, k);
  }

  class ScaleAnimator {
    var animatingNodes: set<NodeId>
    var animationData: map<NodeId, AnimData>
    var scale: map<NodeId, real>

    function State(): AnimState
      reads this
    {
      AnimState(animatingNodes, animationData, scale)
    }

    ghost predicate Valid()
      reads this
    {
      Inv(State())
    }

    constructor ()
      ensures Valid() && State() == AnimState({}, map[], map[])
    {
      animatingNodes := {};
      animationData := map[];
      scale := map[];
    }

    method AnimateNodeScale(n: NodeId, targetScale: real)
      requires Valid()
      modifies this
      ensures Valid() && State() == Animate(old(State()), n, targetScale)
    {
      ghost var s0 := State();
      AnimatePreservesInv(s0, n, targetScale);
      if n !in animationData {
        animationData := animationData[n := AnimData(VisualScale(State(), n), targetScale, false)];
      }
      animationData := animationData[n := animationData[n].(targetScale := targetScale, isAnimating := true)];
      animatingNodes := animatingNodes + {n};
      assert State() == Animate(s0, n, targetScale);
    }

    method Update()
      requires Valid()
      modifies this
      ensures Valid() && State() == Tick(old(State()))
    {
      ghost var s0 := State();
      var pending := animatingNodes;
      while pending != {}
        invariant pending <= s0.active
        invariant VisitedAs(s0, s0.active - pending, State())
        decreases pending
      {
        var n :| n in pending;
        VisitPending(s0, pending, State(), n);
        VisitNode(n);
        pending := pending - {n};
      }
      UpdateDone(s0, State());
    }

    /** The `forEach` callback of `update` for node `n`. */
    method VisitNode(n: NodeId)
      modifies this
      ensures State() == Visit(old(State()), n)
    {
      if n in animationData && animationData[n].isAnimating {
        var d := animationData[n];
        var diff := d.targetScale - d.currentScale;
        if Abs(diff) > SnapEpsilon {
          var c := d.currentScale + diff * AnimationSpeed;
          animationData := animationData[n := d.(currentScale := c)];
          scale := scale[n := c];
        } else {
          animationData := animationData[n := d.(currentScale := d.targetScale, isAnimating := false)];
          scale := scale[n := d.targetScale];
          animatingNodes := animatingNodes - {n};
        }
      }
    }

    method ResetNodeScale(n: NodeId)
      requires Valid()
      modifies this
      ensures Valid() && State() == Reset(old(State()), n)
    {
      ResetPreservesInv(State(), n);
      scale := scale[n := 1.0];
      if n in animationData {
        animationData := animationData[n := AnimData(1.0, 1.0, false)];
      }
      animatingNodes := animatingNodes - {n};
    }
  }
}
