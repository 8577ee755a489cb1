/**
 * `EnhancedSidebar`: for the selected node, the nodes at the other end of
 * its edges, those of them matching the sidebar's search, and the counts
 * of prerequisite and dependent modules behind the "Standalone Module"
 * message.
 */
module Sidebar {
  import opened Wrappers
  import opened Seqs
  import Text

  datatype GraphNode = GraphNode(id: string, nodeLabel: Option<string>, moduleCode: Option<string>)

  datatype GraphEdge = GraphEdge(source: string, target: string)

  datatype Graph = Graph(nodes: seq<GraphNode>, edges: seq<GraphEdge>)

  datatype ModuleStats = ModuleStats(totalModules: nat, prerequisiteModules: nat, dependentModules: nat)

  /** What the sidebar shows; it renders nothing without a selected node. */
  datatype Panel = Panel(connected: seq<GraphNode>, filtered: seq<GraphNode>, stats: ModuleStats)

  predicate Touches(e: GraphEdge, selected: string) {
    e.source == selected || e.target == selected
  }

  /** The end of `e` that is not the selected node (its target for an edge leaving it). */
  function OtherEnd(e: GraphEdge, selected: string): string {
    if e.source == selected then e.target else e.source
  }

  /** `graphData.nodes.find(node => node.id === id)`. */
  function FindNode(nodes: seq<GraphNode>, id: string): (r: Option<GraphNode>)
    ensures r.Some? <==> exists i :: 0 <= i < |nodes| && nodes[i].id == id
    ensures r.Some? ==> r.value in nodes && r.value.id == id
    ensures r.Some? ==> exists i :: 0 <= i < |nodes| && nodes[i] == r.value && forall j :: 0 <= j < i ==> nodes[j].id != id
  {
    FindFirst(nodes, (n: GraphNode) => n.id == id)
  }

  /** The node found at the other end of `e`, as a list of zero or one. */
  function Neighbour(nodes: seq<GraphNode>, e: GraphEdge, selected: string): seq<GraphNode> {
    if !Touches(e, selected) then []
    else match FindNode(nodes, OtherEnd(e, selected))
      case None => []
      case Some(n) => [n]
  }

  /** `connectedNodes` (EnhancedSidebar.js lines 46-52): one entry per edge touching the node whose other end is a node. */
  function Connected(nodes: seq<GraphNode>, edges: seq<GraphEdge>, selected: string): (r: seq<GraphNode>)
    ensures |r| <= |edges|
  {
    if edges == [] then []
    else Connected(nodes, edges[..|edges| - 1], selected) + Neighbour(nodes, edges[|edges| - 1], selected)
  }

  /** Edge `e` touches the selected node and its other end is the node `n`. */
  predicate LinksTo(nodes: seq<GraphNode>, e: GraphEdge, selected: string, n: GraphNode) {
    Touches(e, selected) && FindNode(nodes, OtherEnd(e, selected)) == Some(n)
  }

  /** A node is connected exactly when some edge touching the selected node leads to it. */
  lemma {:induction false} ConnectedSpec(nodes: seq<GraphNode>, edges: seq<GraphEdge>, selected: string, n: GraphNode)
    ensures n in Connected(nodes, edges, selected) <==> exists e :: e in edges && LinksTo(nodes, e, selected, n)
  {
    if edges != [] {
      var init, last := edges[..|edges| - 1], edges[|edges| - 1];
      assert edges == init + [last];
      ConnectedSpec(nodes, init, selected, n);
      NeighbourSpec(nodes, last, selected, n);
    }
  }

  lemma NeighbourSpec(nodes: seq<GraphNode>, e: GraphEdge, selected: string, n: GraphNode)
    ensures n in Neighbour(nodes, e, selected) <==> LinksTo(nodes, e, selected, n)
  {
  }

  /** Every edge's two ends are nodes of the graph. */
  predicate EndsAreNodes(nodes: seq<GraphNode>, edges: seq<GraphEdge>) {
    forall k :: 0 <= k < |edges| ==> FindNode(nodes, edges[k].source).Some? && FindNode(nodes, edges[k].target).Some?
  }

  /** The number of edges touching the selected node. */
  function TouchCount(edges: seq<GraphEdge>, selected: string): nat {
    if edges == [] then 0
    else TouchCount(edges[..|edges| - 1], selected) + (if Touches(edges[|edges| - 1], selected) then 1 else 0)
  }

  lemma NeighbourSize(nodes: seq<GraphNode>, e: GraphEdge, selected: string)
    requires FindNode(nodes, e.source).Some? && FindNode(nodes, e.target).Some?
    ensures |Neighbour(nodes, e, selected)| == if Touches(e, selected) then 1 else 0
  {
  }

  /** With every edge end among the nodes, there is one connected node per edge touching the selected node. */
  lemma {:induction false} ConnectedCount(nodes: seq<GraphNode>, edges: seq<GraphEdge>, selected: string)
    requires EndsAreNodes(nodes, edges)
    ensures |Connected(nodes, edges, selected)| == TouchCount(edges, selected)
  {
    if edges != [] {
      var init := edges[..|edges| - 1];
      var last := edges[|edges| - 1];
      assert EndsAreNodes(nodes, init) by {
        forall k | 0 <= k < |init|
          ensures FindNode(nodes, init[k].source).Some? && FindNode(nodes, init[k].target).Some?
        {
          assert init[k] == edges[k];
        }
      }
      ConnectedCount(nodes, init, selected);
      NeighbourSize(nodes, last, selected);
    }
  }

  /** Some edge runs from `n` into the selected node. */
  predicate Prerequisite(edges: seq<GraphEdge>, selected: string, n: GraphNode) {
    exists k :: 0 <= k < |edges| && edges[k].target == selected && edges[k].source == n.id
  }

  /** Some edge runs from the selected node to `n`. */
  predicate Dependent(edges: seq<GraphEdge>, selected: string, n: GraphNode) {
    exists k :: 0 <= k < |edges| && edges[k].source == selected && edges[k].target == n.id
  }

  /** `moduleStats` (lines 61-73). */
  function Stats(connected: seq<GraphNode>, edges: seq<GraphEdge>, selected: string): (r: ModuleStats)
    ensures r.totalModules == |connected|
    ensures r.prerequisiteModules == CountWhere(connected, (n: GraphNode) => Prerequisite(edges, selected, n))
    ensures r.dependentModules == CountWhere(connected, (n: GraphNode) => Dependent(edges, selected, n))
    ensures r.prerequisiteModules <= r.totalModules && r.dependentModules <= r.totalModules
    ensures r.prerequisiteModules == 0 <==> forall n :: n in connected ==> !Prerequisite(edges, selected, n)
    ensures r.dependentModules == 0 <==> forall n :: n in connected ==> !Dependent(edges, selected, n)
  {
    var prereqs := Filter(connected, (n: GraphNode) => Prerequisite(edges, selected, n));
    var dependents := Filter(connected, (n: GraphNode) => Dependent(edges, selected, n));
    assert prereqs != [] ==> prereqs[0] in prereqs;
    assert dependents != [] ==> dependents[0] in dependents;
    FilterCount(connected, (n: GraphNode) => Prerequisite(edges, selected, n));
    FilterCount(connected, (n: GraphNode) => Dependent(edges, selected, n));
    ModuleStats(|connected|, |prereqs|, |dependents|)
  }

  /** `filteredConnectedNodes` (lines 55-58). */
  function FilteredConnected(connected: seq<GraphNode>, searchTerm: string): (r: seq<GraphNode>)
    ensures Subsequence(r, connected)
  {
    var term := Text.Lower(searchTerm);
    Filter(connected, (n: GraphNode) =>
      (n.nodeLabel.Some? && Text.Contains(Text.Lower(n.nodeLabel.value), term))
      || (n.moduleCode.Some? && Text.Contains(Text.Lower(n.moduleCode.value), term)))
  }

  /** The search keeps a connected node exactly when its label or code contains the term, ignoring case. */
  lemma FilteredConnectedSpec(connected: seq<GraphNode>, searchTerm: string, n: GraphNode)
    ensures n in FilteredConnected(connected, searchTerm) <==> (n in connected
      && ((n.nodeLabel.Some? && Text.Contains(Text.Lower(n.nodeLabel.value), Text.Lower(searchTerm)))
          || (n.moduleCode.Some? && Text.Contains(Text.Lower(n.moduleCode.value), Text.Lower(searchTerm)))))
  {
  }

  /** An empty search keeps the connected nodes that have a label or a code. */
  lemma EmptySearchKeeps(connected: seq<GraphNode>)
    requires forall i :: 0 <= i < |connected| ==> connected[i].nodeLabel.Some? || connected[i].moduleCode.Some?
    ensures FilteredConnected(connected, "") == connected
  {
    forall i | 0 <= i < |connected|
      ensures connected[i].nodeLabel.Some? ==> Text.Contains(Text.Lower(connected[i].nodeLabel.value), Text.Lower(""))
      ensures connected[i].moduleCode.Some? ==> Text.Contains(Text.Lower(connected[i].moduleCode.value), Text.Lower(""))
    {
      if connected[i].nodeLabel.Some? {
        Text.ContainsEmpty(Text.Lower(connected[i].nodeLabel.value));
      }
      if connected[i].moduleCode.Some? {
        Text.ContainsEmpty(Text.Lower(connected[i].moduleCode.value));
      }
    }
    var term := Text.Lower("");
    FilterAll(connected, (n: GraphNode) =>
      (n.nodeLabel.Some? && Text.Contains(Text.Lower(n.nodeLabel.value), term))
      || (n.moduleCode.Some? && Text.Contains(Text.Lower(n.moduleCode.value), term)));
  }

  /** The panel for a render: nothing unless the sidebar is visible with a node selected; a missing graph has no edges. */
  function Render(isVisible: bool, selected: Option<GraphNode>, graph: Option<Graph>, searchTerm: string): (r: Option<Panel>)
    ensures r.None? <==> !isVisible || selected.None?
    ensures r.Some? ==> Subsequence(r.value.filtered, r.value.connected) && r.value.stats.totalModules == |r.value.connected|
  {
    if !isVisible || selected.None? then None
    else
      var connected := if graph.Some? then Connected(graph.value.nodes, graph.value.edges, selected.value.id) else [];
      var edges := if graph.Some? then graph.value.edges else [];
      Some(Panel(connected, FilteredConnected(connected, searchTerm), Stats(connected, edges, selected.value.id)))
  }

  /** The "Standalone Module" message (lines 645, 669, 693): both counts are zero. */
  predicate Standalone(stats: ModuleStats) {
    stats.prerequisiteModules == 0 && stats.dependentModules == 0
  }

  /**
   * The selected module is shown as standalone exactly when no edge
   * touching it has a node at its other end.
   */
  lemma StandaloneSpec(nodes: seq<GraphNode>, edges: seq<GraphEdge>, selected: string)
    ensures Standalone(Stats(Connected(nodes, edges, selected), edges, selected))
      <==> forall k :: 0 <= k < |edges| && Touches(edges[k], selected) ==> FindNode(nodes, OtherEnd(edges[k], selected)).None?
  {
    var connected := Connected(nodes, edges, selected);
    if !Standalone(Stats(connected, edges, selected)) {
      var n :| n in connected && (Prerequisite(edges, selected, n) || Dependent(edges, selected, n));
      ConnectedSpec(nodes, edges, selected, n);
      var e :| e in edges && LinksTo(nodes, e, selected, n);
      var k :| 0 <= k < |edges| && edges[k] == e;
      assert FindNode(nodes, OtherEnd(edges[k], selected)).Some?;
    }
    forall k | 0 <= k < |edges| && Touches(edges[k], selected) && FindNode(nodes, OtherEnd(edges[k], selected)).Some?
      ensures !Standalone(Stats(connected, edges, selected))
    {
      var n := FindNode(nodes, OtherEnd(edges[k], selected)).value;
      ConnectedSpec(nodes, edges, selected, n);
      assert edges[k] in edges && LinksTo(nodes, edges[k], selected, n);
      if edges[k].source == selected {
        assert Dependent(edges, selected, n);
      } else {
        assert Prerequisite(edges, selected, n);
      }
    }
  }
}
