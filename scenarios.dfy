/**
 * Verified scenarios that show the model's behaviour on concrete inputs: the
 * start-up seeding of src/main.js, an overwritten id, a duplicate edge, the
 * batch connect of the editor, and a press that turns into a drag.
 */
module Scenarios {
  import opened Common
  import opened Graph
  import opened Editor
  import opened Interaction
  import JsString

  const Centre: Vec3 := Vec3(0.5, 0.5, 0.5)

  /**
   * The seeding loop of src/main.js: every sample node first, then every
   * listed connection with no `hasEdge` check. Two nodes that list each other
   * end up joined by two edges, one in each direction.
   */
  method SeedingKeepsBothDirections() {
    var g := new Graph3D();
    var _ := g.AddNode("a", "A", None, Some("https://example.org"), Centre);
    var _ := g.AddNode("b", "B", None, None, Centre);
    var e1 := g.AddEdge("a", "b");
    var e2 := g.AddEdge("b", "a");
    assert e1 == Some(Edge("a", "b")) && e2 == Some(Edge("b", "a"));
    assert g.edges == [Edge("a", "b"), Edge("b", "a")];
    assert Joins(g.edges[1], g.edges[0].nodeId1, g.edges[0].nodeId2);
    assert !NoDuplicateEdges(g.edges);
    var e3 := g.AddEdge("a", "missing");
    assert e3 == None && |g.edges| == 2;
  }

  /** Re-adding an id replaces the record; the node count stays one. */
  method AddNodeOverwrites() {
    var g := new Graph3D();
    var _ := g.AddNode("x", "X", Some(Vec3(1.0, 2.0, 3.0)), None, Centre);
    var n := g.AddNode("x", "Y", None, None, Centre);
    assert g.nodes == map["x" := n];
    assert g.nodes["x"].labelText == "Y" && g.nodes["x"].position == Vec3(0.0, 0.0, 0.0);
  }

  /** A self-loop is accepted when the node exists. */
  method SelfLoopAccepted() {
    var g := new Graph3D();
    var _ := g.AddNode("x", "X", None, None, Centre);
    var e := g.AddEdge("x", "x");
    assert g.edges == [Edge("x", "x")] && Joins(g.edges[0], "x", "x");
    assert e == Some(Edge("x", "x")) && g.HasEdge("x", "x");
  }

  /**
   * Three stored nodes selected together with the id of a node that does not
   * exist: connecting the selection joins every pair of the three, skips the
   * missing id and empties the selection.
   */
  method ConnectThree(ed: Editor.GraphEditor)
    requires ed.Valid() && ed.graph.Valid() && ed.selectedNodes == []
    requires "a" in ed.graph.nodes && "b" in ed.graph.nodes && "c" in ed.graph.nodes && "z" !in ed.graph.nodes
    modifies ed, ed.graph
  {
    ed.SelectNode("a");
    ed.SelectNode("b");
    ed.SelectNode("c");
    ed.SelectNode("z");
    assert ed.selectedNodes == ["a", "b", "c", "z"];
    ghost var sel := ed.selectedNodes;
    assert "b" in sel && "c" in sel && "a" in sel;
    assert "b" != "c" && "c" != "a";
    ed.ConnectSelectedNodes();
    assert ed.graph.HasEdge("a", "b") && ed.graph.HasEdge("b", "c") && ed.graph.HasEdge("c", "a");
    assert ed.selectedNodes == [];
  }

  /** A pair that is already joined gets no second edge when the selection is connected. */
  method ConnectKeepsExisting(ed: Editor.GraphEditor)
    requires ed.Valid() && ed.graph.Valid() && ed.selectedNodes == []
    requires ed.graph.edges == [Edge("a", "b")]
    modifies ed, ed.graph
  {
    assert NoDuplicateEdges(ed.graph.edges);
    ed.SelectNode("b");
    ed.SelectNode("a");
    ed.ConnectSelectedNodes();
    assert ed.graph.edges[..1] == [Edge("a", "b")];
    assert ed.graph.edges[0] == Edge("a", "b");
    assert NoDuplicateEdges(ed.graph.edges) && ed.graph.HasEdge("a", "b");
  }

  /** A blank label adds nothing; a non-blank one adds a node under the clock reading. */
  method AddNodeButton() {
    var g := new Graph3D();
    var ed := new Editor.GraphEditor(g);
    assert JsString.IsWhiteSpace(" "[0]);
    var c1 := ed.AddNodeClicked(" ", 7, Centre);
    assert !c1 && g.nodes == map[];
    assert !JsString.IsWhiteSpace("n"[0]);
    var c2 := ed.AddNodeClicked("n", 42, Centre);
    assert c2;
    assert JsString.DecimalString(42) == "42";
    assert "42" in g.nodes;
  }

  /** A press that moves 6 px sideways is a drag, so the release opens nothing. */
  method DragIsNoClick() {
    var g := new Graph3D();
    var n := g.AddNode("a", "A", None, Some("https://example.org"), Centre);
    var h := new InteractionHandler(g);
    h.MouseMove(10.0, 10.0, Some("a"));
    assert h.hoveredNode == Some(n);
    h.MouseDown(1000, 10.0, 10.0);
    h.MouseMove(16.0, 10.0, Some("a"));
    assert h.isDragging;
    var o := h.MouseUp(1100);
    assert o == Nothing && !h.isDragging && h.mouseDownTime == 0;
    h.MouseDown(2000, 10.0, 10.0);
    var o2 := h.MouseUp(2100);
    assert o2 == OpenUrl("https://example.org");
  }
}
