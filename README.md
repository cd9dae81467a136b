# A verified model of the 3D graph editor's core

The repository is a browser-based 3D graph editor written in JavaScript with THREE.js. This project models four parts of it in Dafny and proves properties about them:

- **The graph store** (`Graph3D`, src/core/graph.js). It keeps a map from node id to node record and a list of edges.
  - `addNode` inserts a node or overwrites the one with the same id. With no position given, it draws one at random in the cube [-5, 5)³.
  - `addEdge` appends an edge when both endpoints exist.
- **The selection editor** (`GraphEditor`, src/core/GraphEditor.js). It holds a set of selected ids and three batch operations over every pair or member of the selection: connect, disconnect and delete. It also has three buttons whose handlers trim their text inputs and check them.
- **The pointer state machine** (`InteractionHandler`, src/core/graphIntecation.js).
  - A press records its time and position.
  - A move more than 5 px on either axis turns the press into a drag.
  - A release before 300 ms, and not a drag, is a click on the hovered node.
  - Moving the pointer changes the hovered node and asks the animator to grow the new node and shrink the old one.
- **The scale animator** (`ScaleAnimator`, src/core/scale_anim.js). It eases each animating node's scale 15 % of the way to its target on every frame and snaps it once the gap is at most 0.01. An active set records which nodes are animating.

## How each part is modelled

Each of the four source classes is a Dafny class whose methods update its fields in place. The fields are those of the source that the core logic reads or writes. The differences:

- `Graph3D` keeps `nodes`, `edges` and `scaleAnimator`. `originalScale` and `hoverScale` (src/core/graph.js:19-20) are never reassigned, so they are the module constants `Graph.OriginalScale` and `Graph.HoverScale`. The scene, camera, renderer, groups and the `physics` and `interactionHandler` fields are not modelled.
- `InteractionHandler` keeps `graph`, `hoveredNode`, `isDragging` and `mouseDownTime`. `mouseDownPosition` is the pair `mouseDownX`, `mouseDownY`, and the two thresholds are module constants. The camera, renderer, raycaster and `mouse` vector are not modelled.
- `GraphEditor` keeps `graph` and `selectedNodes`.
- `ScaleAnimator` keeps `animatingNodes`, and `animationSpeed` is a module constant. It also has two fields the source does not have: `animationData` and `scale`. In the source, these values sit on each sphere, as `sphere.userData.animationData` and `sphere.scale`. The model gathers them into maps keyed by node id.

Most methods state their new state as a pure function of the old state, and the lemmas prove the promised properties of those functions. `connectSelectedNodes` is different: its `ensures` state what the nested loops guarantee, not a closed form. `disconnectSelectedNodes` has both. Its closed form is `DisconnectRows`, which folds `if (hasEdge) removeEdge` over the pairs in loop order, and its `ensures` also state the loops' guarantees directly. The files:

- `common.dfy`: the optional-value type (JavaScript `null`) and node ids.
- `js_string.dfy`: `String.prototype.trim` and the decimal rendering of `Date.now()`.
- `scale_anim.dfy`: the animator, its state as a value (`AnimState`), and termination of the easing.
- `graph.dfy`: the graph store, and the edge-list functions behind `hasEdge`, `removeEdge` and `removeNode`.
- `graph_editor.dfy`: the editor (module `Editor`).
- `interaction.dfy`: the pointer machine.
- `scenarios.dfy`: verified scenarios on concrete inputs. One of them is the start-up seeding of src/main.js (lines 28-35).

`hasEdge`, `removeEdge`, `removeNode` and `updateNodeColors` are called by the editor but are not defined in src/core/graph.js. The model gives `Graph3D` the first three with stated meanings:

- `hasEdge(a, b)` holds when some edge joins `a` and `b`, in either order.
- `removeEdge(a, b)` removes the first edge that `hasEdge` would find.
- `removeNode(id)` deletes the node and every edge that touches it.

The editor's properties are proved relative to these definitions.

Other modelling choices:

- **Selection.** The selection is a duplicate-free sequence in insertion order. A JavaScript `Set` iterates in that order, and the order decides which endpoint is first in an edge that `connectSelectedNodes` adds.
- **Animator keys.** The animator is keyed by node id. It keeps each sphere's scale in a map, where an absent entry means the initial scale 1.
- **Numbers.** Floating-point numbers are exact reals. The constants 0.15, 0.01, 0.2 and 0.45 are exact rationals, so the hover ratio is exactly 2.25.
- **Inputs.** `Math.random()`, `Date.now()` and the raycast are all parameters:
  - the three random draws are a `Vec3` with coordinates in [0, 1);
  - the clock reading is a natural number;
  - the raycast's first hit is an `Option<NodeId>`.
- **Click result.** The result of a click (`window.open` or `console.log`) is a returned `ClickOutcome` value.

## Model

| member | source | states |
|---|---|---|
| Graph.RandomCoordinate | src/core/graph.js:37-39 | For a draw in [0, 1), `(r - 0.5) * 10` lies in [-5, 5). |
| Graph.Placement | src/core/graph.js:34-41 | A given position is used exactly. An omitted one has every coordinate in [-5, 5). |
| Graph.Graph3D.constructor | src/core/graph.js:8-26 | No nodes and no edges, and a fresh animator with nothing animating. |
| Graph.Graph3D.AddNode | src/core/graph.js:34-70 | The record holds the id, label, url and placement with zero velocity. The map is the old one with that key set, so an old node with the same id is overwritten. Edges are unchanged. |
| Graph.Graph3D.AddEdge | src/core/graph.js:72-94 | With both endpoints stored, it appends exactly `{a, b}` and returns it, even for a pair already joined or for `a == b`. Otherwise it returns null and changes nothing. Nodes never change. |
| Graph.Connected | src/core/GraphEditor.js:68 | The meaning given to `hasEdge(a, b)`: some edge of the list joins `a` and `b`, in either order. |
| Graph.Graph3D.HasEdge | src/core/GraphEditor.js:68 | `hasEdge` on the graph is `Connected` on its current edge list. |
| Graph.ConnectedSymmetric | src/core/GraphEditor.js:68 | `hasEdge` does not depend on argument order. |
| Graph.AppendKeepsConnected | src/core/graph.js:89 | After a push, the new pair is connected and every pair that was connected still is. |
| Graph.AppendNoDuplicates | src/core/GraphEditor.js:68-69 | Pushing a pair that `hasEdge` rejects keeps the list free of duplicate pairs in either order. |
| Graph.FindEdge | src/core/GraphEditor.js:82 | The index of the first edge joining `a` and `b` in either order. It is -1 exactly when they are not connected. |
| Graph.WithoutFirstMatch | src/core/GraphEditor.js:82 | `removeEdge`: unchanged when nothing matches, otherwise one edge shorter. Every remaining edge was already there. |
| Graph.WithoutFirstMatchAt | src/core/GraphEditor.js:82 | The edges before the match keep their places, and those after it move down by one. |
| Graph.WithoutFirstMatchMultiset | src/core/GraphEditor.js:82 | As a multiset, `removeEdge` takes away exactly one copy of the first matching edge. |
| Graph.MultisetRemoveAt | src/core/GraphEditor.js:82 | Cutting one position out of the list removes one copy of that edge from its multiset. |
| Graph.JoinCount | src/core/GraphEditor.js:145 | The number of edges joining a pair in either order. It is positive exactly when `hasEdge` holds for the pair. |
| Graph.JoinCountAppend | src/core/GraphEditor.js:145 | The count over two lists in a row is the sum of their counts. |
| Graph.WithoutFirstMatchJoinCount | src/core/GraphEditor.js:146 | `removeEdge(a, b)` lowers a pair's count by one exactly when the edge it removes joins that pair. Otherwise the count is unchanged. |
| Graph.WithoutFirstMatchDisconnects | src/core/GraphEditor.js:82 | On a list without duplicates, after `removeEdge(a, b)` the pair is no longer connected. |
| Graph.WithoutFirstMatchKeeps | src/core/GraphEditor.js:82 | An edge that does not join `a` and `b` survives `removeEdge(a, b)`. |
| Graph.WithoutFirstMatchKeepsOthers | src/core/GraphEditor.js:82 | `removeEdge` creates no connection, and every other pair keeps its connection. |
| Graph.WithoutFirstMatchNoDuplicates | src/core/GraphEditor.js:82 | `removeEdge` keeps a duplicate-free list duplicate-free. |
| Graph.WithoutTouching | src/core/GraphEditor.js:157 | The cascade of `removeNode`: exactly the edges that touch none of the removed ids are kept. |
| Graph.WithoutTouchingTwice | src/core/GraphEditor.js:156-158 | Removing one set of nodes and then another drops the same edges as removing both sets at once. |
| Graph.WithoutTouchingNothing | src/core/GraphEditor.js:157 | When no edge touches the ids, the cascade drops nothing. |
| Graph.NoDuplicatesTail | src/core/GraphEditor.js:157 | Dropping the first edge of a duplicate-free list leaves it duplicate-free. |
| Graph.NoDuplicatesCons | src/core/GraphEditor.js:157 | Putting in front an edge that joins no pair already joined keeps a list duplicate-free. |
| Graph.WithoutTouchingNoDuplicates | src/core/GraphEditor.js:157 | The cascade keeps a duplicate-free list duplicate-free. |
| Graph.Graph3D.RemoveEdge | src/core/GraphEditor.js:82 | The edge list becomes `WithoutFirstMatch` of the old one. Nodes are unchanged. |
| Graph.Graph3D.RemoveNode | src/core/GraphEditor.js:157 | The node leaves the map and the edges touching it are dropped. Nothing changes for an absent id. |
| Graph.Graph3D.ApplyForces | src/core/graph.js:117-123 | The animator state advances by exactly one `update`. |
| Editor.Without | src/core/GraphEditor.js:115 | `Set.delete`: exactly `x` leaves and every other member stays; a duplicate-free selection stays duplicate-free; an absent `x` changes nothing. |
| Editor.IndexOf | src/core/GraphEditor.js:115 | The position of the first occurrence of an id in the selection. |
| Editor.WithoutKeepsOrder | src/core/GraphEditor.js:115 | `delete` on a duplicate-free selection cuts the id out of its place; the rest keep their insertion order. |
| Editor.GraphEditor.constructor | src/core/GraphEditor.js:2-6 | The editor works on the given graph, and the selection is empty. |
| Editor.GraphEditor.SelectNode | src/core/GraphEditor.js:105-106 | The id joins the selection at the end, whether or not the graph stores it. An id already selected changes nothing. |
| Editor.GraphEditor.DeselectNode | src/core/GraphEditor.js:114-115 | Only that id leaves. It is a no-op when the id is absent. |
| Editor.GraphEditor.ClearSelection | src/core/GraphEditor.js:131-132 | The selection is empty. |
| Editor.ConnectStep | src/core/GraphEditor.js:122-126 | One `if (!hasEdge) addEdge` of the loop keeps its facts: the old edges first, then only edges from an earlier- to a later-selected id; every passed pair of stored ids connected; no duplicate appears. |
| Editor.ConnectedAllPairs | src/core/GraphEditor.js:120-129 | Once every pair is passed, any two distinct selected ids that are stored are connected, in either order. |
| Editor.AppendUnconnected | src/core/GraphEditor.js:124 | Appending an edge whose pair `hasEdge` rejects keeps "every appended edge joined a pair the list before it did not connect". |
| Editor.GraphEditor.ConnectSelectedNodes | src/core/GraphEditor.js:120-129 | Nodes are unchanged and no edge is removed. Each added edge runs from an earlier-selected to a later-selected id, and joins a pair that no edge before it connected, also when the old list already had duplicates. Every two distinct selected ids that exist end up connected. A duplicate-free list stays duplicate-free. The selection is empty. |
| Editor.DisconnectCountsStep | src/core/GraphEditor.js:145-147 | One `removeEdge` takes away a single copy of an edge joining two distinct selected ids, so no edge gains copies and every other edge keeps its count. |
| Editor.DisconnectInvStep | src/core/GraphEditor.js:145-147 | One `removeEdge` keeps the loop's facts: the edge counts as above, and, on a list that had no duplicates, no duplicates and no passed pair connected. |
| Editor.DisconnectInvSkip | src/core/GraphEditor.js:145 | A pair that `hasEdge` rejects keeps the same facts with nothing removed. |
| Editor.DisconnectPair | src/core/GraphEditor.js:145-147 | The closed form of one pair: `removeEdge` when `hasEdge` holds, otherwise the list unchanged. |
| Editor.DisconnectRow | src/core/GraphEditor.js:144-148 | The closed form of the inner loop: the pairs `(i, j)`, `(i, j + 1)`, ... up to the end of the selection, in order. |
| Editor.DisconnectRows | src/core/GraphEditor.js:143-149 | The closed form of the outer loop: the rows `i`, `i + 1`, ... in order. |
| Editor.DisconnectRowAdvance | src/core/GraphEditor.js:144-148 | Pair `(i, j)` is the first step of what is left of row `i`. |
| Editor.DisconnectStep | src/core/GraphEditor.js:145-147 | The `hasEdge` branch of the loop: after `removeEdge`, the loop's facts hold and the rest of the loops still lead to the closed form. |
| Editor.DisconnectSkip | src/core/GraphEditor.js:145 | The branch where `hasEdge` fails: the same, with nothing removed. |
| Editor.DisconnectPairCount | src/core/GraphEditor.js:145-147 | Pair `(i, j)` lowers the count of its own two ids by one when it is positive, and leaves every other selected pair's count alone. |
| Editor.DisconnectRowCount | src/core/GraphEditor.js:144-148 | Row `i` from column `j` on lowers by one the count of every pair `(i, q)` with `j <= q`, and of no other pair. |
| Editor.DisconnectWholeRowCount | src/core/GraphEditor.js:144-148 | A whole row `i` lowers by one the count of every pair whose first index is `i`. |
| Editor.DisconnectRowsCount | src/core/GraphEditor.js:143-149 | The rows from `i` on lower by one the count of every pair whose first index is at least `i`. |
| Editor.DisconnectAllPairsCount | src/core/GraphEditor.js:143-149 | The whole loop removes exactly one edge from each selected pair that has one, whatever duplicates the list holds. Other pairs keep their counts. |
| Editor.DisconnectDone | src/core/GraphEditor.js:143-149 | What the finished loops achieve, stated from the loop facts: the membership, multiset and per-pair count facts, and the closed form. |
| Editor.CountsKeepMembers | src/core/GraphEditor.js:141-152 | The counts give membership: every edge left was an old edge, and every old edge not joining two distinct selected ids is still present. |
| Editor.DisconnectedAllPairs | src/core/GraphEditor.js:141-152 | Once every pair is passed, on a list that had no duplicates, no two distinct selected ids are connected. |
| Editor.GraphEditor.DisconnectSelectedNodes | src/core/GraphEditor.js:141-152 | Nodes are unchanged. The new edge list is the closed form `DisconnectRows` of the old list and selection. For each pair of selected ids, exactly one joining edge is removed if there was one, so with duplicates some copies remain. As multisets, the new edges are contained in the old ones, and every edge not joining two distinct selected ids keeps its number of copies. On a duplicate-free list, no two selected ids remain connected. The selection is empty. |
| Editor.DeleteStep | src/core/GraphEditor.js:156-158 | One `removeNode(ids[i])` after the first `i` is removing the first `i + 1` at once, for both the nodes and the edges. |
| Editor.DeleteDone | src/core/GraphEditor.js:156-158 | After the last `removeNode`, the whole selection is removed, and no duplicate edge has appeared. |
| Editor.GraphEditor.DeleteSelectedNodes | src/core/GraphEditor.js:154-160 | `removeNode` runs once per selected id, in order. The selected nodes are gone, the others are untouched, and exactly the edges touching a selected id are dropped. The selection is empty. |
| Editor.GraphEditor.AddNodeClicked | src/core/GraphEditor.js:53-61 | A node with the trimmed label is added under the decimal clock reading exactly when the trimmed label is non-empty. Edges are unchanged. |
| Editor.GraphEditor.AddEdgeClicked | src/core/GraphEditor.js:63-75 | The inputs are cleared exactly when both trimmed ids are non-empty and stored. The edge list grows by `{a, b}` exactly when that holds and `hasEdge` fails. |
| Editor.GraphEditor.RemoveEdgeClicked | src/core/GraphEditor.js:77-86 | `removeEdge` runs, and the inputs are cleared, exactly when both trimmed ids are non-empty and `hasEdge` holds. |
| Editor.AddNodeAccepted | src/core/GraphEditor.js:55 | The add-node guard: the trimmed label is non-empty. |
| Editor.AddEdgeAccepted | src/core/GraphEditor.js:67 | The add-edge guard: both trimmed ids are non-empty and stored. |
| Editor.RemoveEdgeAccepted | src/core/GraphEditor.js:81 | The remove-edge guard: both trimmed ids are non-empty and `hasEdge` holds for them. |
| Editor.BlankInputRejected | src/core/GraphEditor.js:53-86 | An input of white space only is refused by all three buttons, in either input field. |
| JsString.LeadingSpace | src/core/GraphEditor.js:54 | The count of leading characters `trim` removes: all of them are white space, and the next character (if any) is not. |
| JsString.TrailingSpace | src/core/GraphEditor.js:54 | The count of trailing characters `trim` removes: all of them are white space, and the character before them (if any) is not. |
| JsString.Trim | src/core/GraphEditor.js:54-65 | The result is empty exactly when the input is all white space. Otherwise it starts and ends with non-white space. |
| JsString.TrimIsSlice | src/core/GraphEditor.js:54 | `trim` returns the slice between a white-space prefix and a white-space suffix. |
| JsString.TrimIdempotent | src/core/GraphEditor.js:54 | Trimming twice is trimming once. |
| JsString.DecimalString | src/core/GraphEditor.js:56 | `Date.now().toString()` is a decimal numeral with no leading zero (except `"0"` itself) whose value is the clock reading. So distinct readings give distinct ids, and only clicks in the same millisecond overwrite each other. |
| JsString.DigitsValue | src/core/GraphEditor.js:56 | The number a string of decimal digits denotes, most significant digit first. |
| JsString.DecimalStringOfDigits | src/core/GraphEditor.js:56 | Conversely, every numeral without leading zeros is the rendering of its value, so the rendering is a bijection onto such numerals. |
| Interaction.ClickOutcomeOf | src/core/graphIntecation.js:88-95 | No hovered node does nothing. A hovered node with a non-empty url opens that url. Any other hovered node logs its id. |
| Interaction.MouseUpOutcome | src/core/graphIntecation.js:35-39 | A click fires exactly when the press is not a drag and lasted under 300 ms. A release with no recorded press, at any clock reading of 300 or more, is no click. |
| Interaction.DragAfterMove | src/core/graphIntecation.js:49-57 | A move never clears the drag flag. The flag stays put while no press is recorded. During a press it is raised exactly by a move of more than 5 px on some axis. |
| Interaction.DragThresholdPerAxis | src/core/graphIntecation.js:53 | The test is strict and per axis: (5, -5) is no drag, while 6 px or 5.5 px on one axis is. |
| Interaction.HoverRatioValue | src/core/graphIntecation.js:82 | The hover target is 0.45 / 0.2 = 2.25. |
| Interaction.HitRecord | src/core/graphIntecation.js:77 | The stored record whose sphere was hit, or none. |
| Interaction.ResetCall | src/core/graphIntecation.js:70 | The call that sends a previously hovered node back to scale 1: none when nothing was hovered. The same call is the one at line 80. |
| Interaction.ApplyScaleCalls | src/core/graphIntecation.js:70-82 | The `animateNodeScale` calls in order. The active set and data keys only grow, every called node ends up active, and sphere scales are untouched. A node never called keeps its data. |
| Interaction.HoverStep | src/core/graphIntecation.js:64-86 | Afterwards the hovered node is exactly the hit node. No call is made exactly when it was already hovered. Otherwise the old node goes to scale 1 and then the new one to 2.25, with at most two calls, so the inner reset never fires. |
| Interaction.HoverStepSettles | src/core/graphIntecation.js:69-79 | Re-hitting the hovered node issues no calls and keeps it. |
| Interaction.ApplyScaleCallsAppend | src/core/graphIntecation.js:69-85 | Running calls in two batches is running them in one. |
| Interaction.ApplyScaleCallsPreservesInv | src/core/graphIntecation.js:69-85 | Any sequence of `animateNodeScale` calls keeps the animator's invariant. |
| Interaction.HoverEffect | src/core/graphIntecation.js:69-85 | After a hover change, the new node animates towards 2.25 and a left node with another id animates towards 1. Every other node keeps its animation data. |
| Interaction.InteractionHandler.constructor | src/core/graphIntecation.js:4-18 | Nothing hovered, not dragging, and no press recorded (`mouseDownTime` 0, position (0, 0)). This is the "no press" state `MouseUpOutcome` relies on. |
| Interaction.InteractionHandler.MouseDown | src/core/graphIntecation.js:21-26 | Dragging is cleared, and the press time and position are recorded. |
| Interaction.InteractionHandler.CheckDragging | src/core/graphIntecation.js:49-57 | The flag becomes `DragAfterMove` of the old state. The press is kept. |
| Interaction.InteractionHandler.ResetDragState | src/core/graphIntecation.js:59-62 | Not dragging, with no press recorded. |
| Interaction.InteractionHandler.HandleHover | src/core/graphIntecation.js:64-86 | The hovered node and the animator state are what `HoverStep` and its calls give. |
| Interaction.InteractionHandler.MouseMove | src/core/graphIntecation.js:28-32 | The drag check, then the hover update. |
| Interaction.InteractionHandler.HandleClick | src/core/graphIntecation.js:88-95 | The outcome is `ClickOutcomeOf` the hovered node. |
| Interaction.InteractionHandler.MouseUp | src/core/graphIntecation.js:34-41 | The outcome is `MouseUpOutcome`. Afterwards there is no drag and no press, whether or not a click fired. |
| ScaleAnim.Inv | src/core/scale_anim.js:15-17 | The animator's invariant: a node is in the active set exactly when it has animation data that is animating. |
| ScaleAnim.Animate | src/core/scale_anim.js:7-18 | The node is active with the new target and animating. On first use its current scale comes from the sphere's scale; otherwise it is kept. |
| ScaleAnim.AnimatePreservesInv | src/core/scale_anim.js:15-17 | The invariant holds afterwards (membership in the set exactly when animating), and no other node's data changes. |
| ScaleAnim.Step | src/core/scale_anim.js:24-32 | Easing leaves 0.85 of the gap with the same sign. A snap sets current to target and stops animating. The target never changes. |
| ScaleAnim.Visit | src/core/scale_anim.js:22-34 | The `forEach` callback on one node. The active set can only shrink, the data keys stay, and only that node's data can change, never its target. |
| ScaleAnim.Tick | src/core/scale_anim.js:20-36 | One `update`. The active set can only shrink, the data keys stay, and no target changes. A node `update` does not advance keeps its data. |
| ScaleAnim.Reset | src/core/scale_anim.js:38-46 | `resetNodeScale`: the node leaves the set, its sphere shows 1, and its data (if any) is at 1 and not animating. |
| ScaleAnim.TickShowsCurrentScale | src/core/scale_anim.js:23-33 | A visited node's data is `Step` of the old data and its sphere shows the new current scale. A settling node leaves the set showing its target. Any other node stays in the set with 0.85 of its gap. |
| ScaleAnim.TickPreservesInv | src/core/scale_anim.js:21-35 | `update` keeps the invariant. |
| ScaleAnim.VisitedIsTickPart | src/core/scale_anim.js:21-35 | The loop's pointwise description of the visited nodes is the state `update` has reached. |
| ScaleAnim.VisitStep | src/core/scale_anim.js:21-35 | One callback on a not yet visited active node, whether it eases, snaps or skips, extends the loop's description by that node. |
| ScaleAnim.VisitPending | src/core/scale_anim.js:21-35 | The same step, stated over the set of nodes still to be visited. |
| ScaleAnim.UpdateDone | src/core/scale_anim.js:20-36 | Once every node of the active set has been visited, the state is one `Tick` on and the invariant holds. |
| ScaleAnim.ScaleAnimator.VisitNode | src/core/scale_anim.js:22-34 | The callback on one node: it eases or snaps the node's data and sphere scale when the data is animating, drops a snapped node from the set, and otherwise does nothing. |
| ScaleAnim.ResetPreservesInv | src/core/scale_anim.js:38-46 | `resetNodeScale` keeps the invariant. |
| ScaleAnim.ResetSettles | src/core/scale_anim.js:38-46 | The sphere shows 1, the node is inactive, its data (if any) is (1, 1, not animating), and a second reset changes nothing. |
| ScaleAnim.StepDecreasesTicks | src/core/scale_anim.js:25-26 | An easing step lowers the node's bound on remaining ticks. |
| ScaleAnim.IterateShrinks | src/core/scale_anim.js:21-35 | Repeated `update` never adds to the active set. |
| ScaleAnim.TickProgress | src/core/scale_anim.js:21-35 | One tick either removes an active node or lowers its tick bound. |
| ScaleAnim.IterateUnfold | src/core/scale_anim.js:20-36 | `k` ticks are one tick, then `k - 1`. |
| ScaleAnim.LeavesWithin | src/core/scale_anim.js:20-36 | An active node leaves the set within its tick bound and does not return. |
| ScaleAnim.MaxTicks | src/core/scale_anim.js:21 | A bound at least every given node's tick bound. |
| ScaleAnim.EventuallyIdle | src/core/scale_anim.js:20-36 | With no new `animateNodeScale` calls, finitely many `update`s empty the active set. |
| ScaleAnim.ScaleAnimator.constructor | src/core/scale_anim.js:2-5 | The active set is empty and no node has animation data or a changed scale. |
| ScaleAnim.ScaleAnimator.AnimateNodeScale | src/core/scale_anim.js:7-18 | The state becomes `Animate` of the old one, and the invariant holds. |
| ScaleAnim.ScaleAnimator.Update | src/core/scale_anim.js:20-36 | The state becomes `Tick` of the old one, and the invariant holds. |
| ScaleAnim.ScaleAnimator.ResetNodeScale | src/core/scale_anim.js:38-46 | The state becomes `Reset` of the old one, and the invariant holds. |

## Left out

- Rendering is not modelled: THREE meshes, materials, colours, text sprites, edge line geometry, the scene graph, the camera and the lil-gui panel. So `updateNodeColors` and the colour change in `selectNode` are absent.
- The force-directed physics (src/physics/graphPhysics.js) is not modelled. It is floating-point vector numerics.
- Graph.Graph3D.ApplyForces: keeps only the call to the animator and `modifies` only the animator. So node positions and velocities never change in the model, while `GraphPhysic.applyPhysic` moves them every frame. Comparing hovered records as whole values is sound only because of this freeze; with moving nodes the records would need an identity of their own.
- DOM wiring is not modelled: the editor panel, event listener setup, the selection counter, and clearing the input fields. The handlers' "cleared" result stands for the clearing.
- The raycast, the mouse coordinates normalised by window size, the cursor style, `window.open` and `console.log` are not modelled. They become the `hit` parameter and the `ClickOutcome` result.
- `Math.random()` and `Date.now()` are parameters. The model does not say which values they produce.
- Graph.Graph3D.RemoveEdge, Graph.Graph3D.RemoveNode and `Graph3D.HasEdge` are not in src/core/graph.js, so in the source the editor calls methods that do not exist. Their bodies here are stated meanings, not modelled code.
- Node identity is by id, not by JavaScript object. A node overwritten by `addNode` with the same id is a different object in the source, with a fresh sphere and no animation data. The model shares the animation data and scale under the id. The hover logic compares whole records, which stands in for object identity.
- Floating-point arithmetic is not modelled. Reals are exact, so rounding in the easing step is absent.
- Characters are Unicode scalar values, while JavaScript strings are UTF-16. Lone surrogates and the UTF-16 length of a label are outside the model.
- Interaction.InteractionHandler.HandleHover: the inner reset of the old node (src/core/graphIntecation.js:80) is omitted from the method, because it cannot fire there. `Interaction.HoverStep` keeps it as written and proves it adds no call.
- Interaction.InteractionHandler.MouseUp: the `updateMousePosition` call before `handleClick` only moves the ray for the next hover, so it is not modelled.
- The url test is JavaScript truthiness: a url of `""` logs the id, as `ClickOutcomeOf` states.
