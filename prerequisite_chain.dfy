/**
 * The prerequisite chain route of backend/src/routes/modules.js
 * (`/:moduleCode/prerequisites`): a depth-first walk that marks a code visited
 * before looking it up, emits a node per found module and, for every
 * prerequisite entry, pushes an edge and recurses one level deeper, stopping at
 * visited codes and below depth 5.
 *
 * `Visit` and `VisitAll` are the walk as functions over an explicit state;
 * `ChainResolver` is the walk as the route runs it, mutating shared state.
 */
module PrerequisiteChain {
  import opened Wrappers
  import opened Records
  import opened Graph

  /** The walk expands codes at depth 0..MaxDepth (`depth > 5` stops it). */
  const MaxDepth: nat := 5

  /** The closure's shared state: the `visited` set and the `nodes`/`edges` arrays. */
  datatype ChainState = ChainState(visited: set<string>, nodes: seq<Node>, edges: seq<Edge>)

  /** The payload of a successful request. */
  datatype ChainGraph = ChainGraph(nodes: seq<Node>, edges: seq<Edge>)

  /** The node pushed for a found module: id is its code, the depth it was reached at, four data fields. */
  function ChainNodeOf(m: ModuleRecord, depth: nat): Node {
    Node(m.moduleCode, m.moduleTitle, ModuleNode, Some(depth),
         ChainData(m.moduleCode, m.moduleTitle, m.creditValue, m.summaryOfContents))
  }

  /** The number of prerequisite entries of the stored module behind each node. */
  function PrereqTotal(modules: seq<ModuleRecord>, nodes: seq<Node>): nat
    decreases |nodes|
  {
    if nodes == [] then 0
    else
      var n := nodes[|nodes| - 1];
      PrereqTotal(modules, nodes[..|nodes| - 1])
        + match FindModule(modules, n.id) case Some(m) => |m.prerequisites| case None => 0
  }

  /**
   * The state invariant: node ids are distinct and all visited, and every edge
   * points at an emitted node.
   */
  predicate Inv(st: ChainState) {
    && DistinctIds(st.nodes)
    && (forall i :: 0 <= i < |st.nodes| ==> st.nodes[i].id in st.visited)
    && (forall e :: e in st.edges ==> e.target in NodeIds(st.nodes))
  }

  /** How a call may change the state: everything is extended, nothing is removed or rewritten. */
  predicate Extends(st: ChainState, r: ChainState) {
    && st.visited <= r.visited
    && |st.nodes| <= |r.nodes| && r.nodes[..|st.nodes|] == st.nodes
    && |st.edges| <= |r.edges| && r.edges[..|st.edges|] == st.edges
  }

  /** Every node added after position `from` was reached at a depth in `depth..MaxDepth`. */
  predicate NewDepthsWithin(nodes: seq<Node>, from: nat, depth: nat) {
    forall i :: from <= i < |nodes| ==>
      nodes[i].depth.Some? && depth <= nodes[i].depth.value <= MaxDepth
  }

  /** The prerequisite list of the stored module with that code (none when it is not stored). */
  function PrereqsOf(modules: seq<ModuleRecord>, code: string): seq<string> {
    match FindModule(modules, code)
    case Some(m) => m.prerequisites
    case None => []
  }

  /** `edges` holds `p -> code` for each prerequisite entry `p` of the stored module `code`. */
  predicate HasEdgesOf(modules: seq<ModuleRecord>, code: string, edges: seq<Edge>) {
    forall p :: p in PrereqsOf(modules, code) ==> PrereqEdge(p, code) in edges
  }

  /** Every node from position `from` on has the edge `p -> node` for each of its prerequisite entries. */
  predicate EdgesComplete(modules: seq<ModuleRecord>, nodes: seq<Node>, from: nat, edges: seq<Edge>) {
    forall i :: from <= i < |nodes| ==> HasEdgesOf(modules, nodes[i].id, edges)
  }

  /** `addModuleAndPrereqs(code, depth)` on state `st`. */
  function Visit(modules: seq<ModuleRecord>, code: string, depth: nat, st: ChainState): ChainState
    requires depth <= MaxDepth + 1
    decreases MaxDepth + 1 - depth, 0, 0
  {
    if code in st.visited || depth > MaxDepth then st
    else
      var st1 := st.(visited := st.visited + {code});
      match FindModule(modules, code)
      case None => st1
      case Some(m) =>
        VisitAll(modules, m.moduleCode, m.prerequisites, depth + 1,
                 st1.(nodes := st1.nodes + [ChainNodeOf(m, depth)]))
  }

  /**
   * The `for` loop over one module's prerequisites, run on the entries
   * `prereqs` (a prefix of the list): the edge `p -> target`, then the visit of `p`.
   */
  function VisitAll(modules: seq<ModuleRecord>, target: string, prereqs: seq<string>, depth: nat, st: ChainState): ChainState
    requires depth <= MaxDepth + 1
    decreases MaxDepth + 1 - depth, 1, |prereqs|
  {
    if prereqs == [] then st
    else
      var p := prereqs[|prereqs| - 1];
      var before := VisitAll(modules, target, prereqs[..|prereqs| - 1], depth, st);
      Visit(modules, p, depth, before.(edges := before.edges + [PrereqEdge(p, target)]))
  }

  /**
   * What one call of `addModuleAndPrereqs` does: nothing for a visited code or
   * below depth 5; only marks an unstored code; otherwise pushes the module's
   * node first and only extends the state, keeping ids distinct, depths within
   * `depth..5`, every edge's target a node, every new node's prerequisite
   * edges present, and one edge per prerequisite entry of the new nodes.
   */
  lemma {:induction false} VisitProps(modules: seq<ModuleRecord>, code: string, depth: nat, st: ChainState)
    requires depth <= MaxDepth + 1
    ensures var r := Visit(modules, code, depth, st);
      && (code in st.visited || depth > MaxDepth ==> r == st)
      && (code !in st.visited && depth <= MaxDepth && FindModule(modules, code).None? ==>
            r == st.(visited := st.visited + {code}))
      && (code !in st.visited && depth <= MaxDepth && FindModule(modules, code).Some? ==>
            |r.nodes| > |st.nodes| && r.nodes[|st.nodes|] == ChainNodeOf(FindModule(modules, code).value, depth))
      && (depth <= MaxDepth ==> code in r.visited)
      && Extends(st, r)
      && (Inv(st) ==> Inv(r))
      && NewDepthsWithin(r.nodes, |st.nodes|, depth)
      && EdgesComplete(modules, r.nodes, |st.nodes|, r.edges)
      && |r.edges| == |st.edges| + PrereqTotal(modules, r.nodes[|st.nodes|..])
    decreases MaxDepth + 1 - depth, 0, 1
  {
    if code in st.visited || depth > MaxDepth {
      assert st.nodes[|st.nodes|..] == [];
    } else if FindModule(modules, code).None? {
      assert st.nodes[|st.nodes|..] == [];
    } else {
      VisitFoundProps(modules, code, depth, st);
    }
  }

  /** `VisitProps` for an unvisited, stored code within the depth bound. */
  lemma {:induction false} VisitFoundProps(modules: seq<ModuleRecord>, code: string, depth: nat, st: ChainState)
    requires depth <= MaxDepth && code !in st.visited && FindModule(modules, code).Some?
    ensures var r := Visit(modules, code, depth, st);
      && |r.nodes| > |st.nodes| && r.nodes[|st.nodes|] == ChainNodeOf(FindModule(modules, code).value, depth)
      && code in r.visited
      && Extends(st, r)
      && (Inv(st) ==> Inv(r))
      && NewDepthsWithin(r.nodes, |st.nodes|, depth)
      && EdgesComplete(modules, r.nodes, |st.nodes|, r.edges)
      && |r.edges| == |st.edges| + PrereqTotal(modules, r.nodes[|st.nodes|..])
    decreases MaxDepth + 1 - depth, 0, 0
  {
    var m := FindModule(modules, code).value;
    var node := ChainNodeOf(m, depth);
    var st2 := ChainState(st.visited + {code}, st.nodes + [node], st.edges);
    VisitPushKeeps(code, node, st, st2);
    var r := VisitAll(modules, m.moduleCode, m.prerequisites, depth + 1, st2);
    assert Visit(modules, code, depth, st) == r;
    VisitAllProps(modules, m.moduleCode, m.prerequisites, depth + 1, st2);
    VisitFoundStep(modules, m, depth, st, st2, r);
  }

  /**
   * What the loop over `prereqs` does: it only extends the state, keeps the
   * invariant, pushes `p -> target` for every entry, completes the edges of
   * every node it adds, and adds one edge per entry plus one per prerequisite
   * entry of the nodes it adds.
   */
  lemma {:induction false} VisitAllProps(modules: seq<ModuleRecord>, target: string, prereqs: seq<string>, depth: nat, st: ChainState)
    requires 1 <= depth <= MaxDepth + 1
    requires target in NodeIds(st.nodes)
    ensures var r := VisitAll(modules, target, prereqs, depth, st);
      && Extends(st, r)
      && (Inv(st) ==> Inv(r))
      && NewDepthsWithin(r.nodes, |st.nodes|, depth)
      && EdgesComplete(modules, r.nodes, |st.nodes|, r.edges)
      && (forall p :: p in prereqs ==> PrereqEdge(p, target) in r.edges)
      && |r.edges| == |st.edges| + |prereqs| + PrereqTotal(modules, r.nodes[|st.nodes|..])
      && target in NodeIds(r.nodes)
    decreases MaxDepth + 1 - depth, 1, |prereqs|
  {
    if prereqs == [] {
      assert st.nodes[|st.nodes|..] == [];
    } else {
      var p := prereqs[|prereqs| - 1];
      var before := VisitAll(modules, target, prereqs[..|prereqs| - 1], depth, st);
      VisitAllProps(modules, target, prereqs[..|prereqs| - 1], depth, st);
      var pushed := before.(edges := before.edges + [PrereqEdge(p, target)]);
      VisitProps(modules, p, depth, pushed);
      var r := Visit(modules, p, depth, pushed);
      VisitAllStep(modules, target, prereqs, depth, st, before, pushed, r);
    }
  }

  /** The induction step of `VisitAllProps`: one more pushed edge followed by one more `Visit`. */
  lemma VisitAllStep(modules: seq<ModuleRecord>, target: string, prereqs: seq<string>, depth: nat,
                     st: ChainState, before: ChainState, pushed: ChainState, r: ChainState)
    requires prereqs != []
    requires Extends(st, before) && (Inv(st) ==> Inv(before))
    requires NewDepthsWithin(before.nodes, |st.nodes|, depth)
    requires EdgesComplete(modules, before.nodes, |st.nodes|, before.edges)
    requires forall p :: p in prereqs[..|prereqs| - 1] ==> PrereqEdge(p, target) in before.edges
    requires |before.edges| == |st.edges| + (|prereqs| - 1) + PrereqTotal(modules, before.nodes[|st.nodes|..])
    requires target in NodeIds(before.nodes)
    requires pushed == before.(edges := before.edges + [PrereqEdge(prereqs[|prereqs| - 1], target)])
    requires Extends(pushed, r) && (Inv(pushed) ==> Inv(r))
    requires NewDepthsWithin(r.nodes, |pushed.nodes|, depth)
    requires EdgesComplete(modules, r.nodes, |pushed.nodes|, r.edges)
    requires |r.edges| == |pushed.edges| + PrereqTotal(modules, r.nodes[|pushed.nodes|..])
    ensures Extends(st, r)
    ensures Inv(st) ==> Inv(r)
    ensures NewDepthsWithin(r.nodes, |st.nodes|, depth)
    ensures EdgesComplete(modules, r.nodes, |st.nodes|, r.edges)
    ensures forall p :: p in prereqs ==> PrereqEdge(p, target) in r.edges
    ensures |r.edges| == |st.edges| + |prereqs| + PrereqTotal(modules, r.nodes[|st.nodes|..])
    ensures target in NodeIds(r.nodes)
  {
    assert Extends(before, pushed) by {
      assert pushed.edges[..|before.edges|] == before.edges;
    }
    ExtendsTransitive(st, before, pushed);
    ExtendsTransitive(st, pushed, r);
    ExtendsTransitive(before, pushed, r);
    ExtendsKeepsIds(pushed, r);
    StepNewNodes(modules, depth, st, before, r);
    StepPrereqEdges(target, prereqs, before, pushed, r);
    StepEdgeCount(modules, |prereqs|, st, before, pushed, r);
  }

  /** The nodes the step adds after `before` join the ones `before` added, for the depths and the edges. */
  lemma StepNewNodes(modules: seq<ModuleRecord>, depth: nat, st: ChainState, before: ChainState, r: ChainState)
    requires Extends(st, before) && Extends(before, r)
    requires NewDepthsWithin(before.nodes, |st.nodes|, depth)
    requires EdgesComplete(modules, before.nodes, |st.nodes|, before.edges)
    requires NewDepthsWithin(r.nodes, |before.nodes|, depth)
    requires EdgesComplete(modules, r.nodes, |before.nodes|, r.edges)
    ensures NewDepthsWithin(r.nodes, |st.nodes|, depth)
    ensures EdgesComplete(modules, r.nodes, |st.nodes|, r.edges)
  {
    ExtendsKeepsEdges(before, r);
    EdgesCompleteJoin(modules, before, r, |st.nodes|);
    forall i | |st.nodes| <= i < |before.nodes|
      ensures r.nodes[i] == before.nodes[i]
    {
      assert r.nodes[..|before.nodes|][i] == r.nodes[i];
    }
  }

  /** The edge pushed for the last entry survives the visit, so every entry has its edge. */
  lemma StepPrereqEdges(target: string, prereqs: seq<string>, before: ChainState, pushed: ChainState, r: ChainState)
    requires prereqs != []
    requires forall p :: p in prereqs[..|prereqs| - 1] ==> PrereqEdge(p, target) in before.edges
    requires pushed == before.(edges := before.edges + [PrereqEdge(prereqs[|prereqs| - 1], target)])
    requires Extends(pushed, r)
    ensures forall p :: p in prereqs ==> PrereqEdge(p, target) in r.edges
  {
    ExtendsKeepsEdges(pushed, r);
    assert prereqs == prereqs[..|prereqs| - 1] + [prereqs[|prereqs| - 1]];
  }

  /** The step adds one edge for the entry and one per prerequisite entry of the nodes the visit adds. */
  lemma StepEdgeCount(modules: seq<ModuleRecord>, entries: nat, st: ChainState, before: ChainState, pushed: ChainState,
                      r: ChainState)
    requires entries >= 1
    requires Extends(st, before) && Extends(pushed, r) && pushed.nodes == before.nodes
    requires |pushed.edges| == |before.edges| + 1
    requires |before.edges| == |st.edges| + (entries - 1) + PrereqTotal(modules, before.nodes[|st.nodes|..])
    requires |r.edges| == |pushed.edges| + PrereqTotal(modules, r.nodes[|pushed.nodes|..])
    ensures |r.edges| == |st.edges| + entries + PrereqTotal(modules, r.nodes[|st.nodes|..])
  {
    assert r.nodes[|st.nodes|..] == before.nodes[|st.nodes|..] + r.nodes[|before.nodes|..] by {
      assert r.nodes[..|before.nodes|] == before.nodes;
    }
    PrereqTotalAppend(modules, before.nodes[|st.nodes|..], r.nodes[|before.nodes|..]);
  }

  /** Edges complete on an old stretch and on the new stretch are complete on both. */
  lemma EdgesCompleteJoin(modules: seq<ModuleRecord>, before: ChainState, r: ChainState, from: nat)
    requires from <= |before.nodes| <= |r.nodes| && r.nodes[..|before.nodes|] == before.nodes
    requires forall e :: e in before.edges ==> e in r.edges
    requires EdgesComplete(modules, before.nodes, from, before.edges)
    requires EdgesComplete(modules, r.nodes, |before.nodes|, r.edges)
    ensures EdgesComplete(modules, r.nodes, from, r.edges)
  {
    forall i | from <= i < |before.nodes| ensures HasEdgesOf(modules, r.nodes[i].id, r.edges) {
      assert r.nodes[i] == r.nodes[..|before.nodes|][i];
      assert HasEdgesOf(modules, before.nodes[i].id, before.edges);
    }
  }

  /** Marking `code` visited and pushing its node keeps the invariant and adds its id. */
  lemma VisitPushKeeps(code: string, node: Node, st: ChainState, st2: ChainState)
    requires code !in st.visited && node.id == code
    requires st2 == ChainState(st.visited + {code}, st.nodes + [node], st.edges)
    ensures Inv(st) ==> Inv(st2)
    ensures code in NodeIds(st2.nodes)
    ensures Extends(st, st2)
  {
    NodeIdsAppend(st.nodes, [node]);
    assert NodeIds([node]) == {code} by {
      assert [node][0].id == code;
    }
    assert st2.nodes[..|st.nodes|] == st.nodes;
    if Inv(st) {
      assert forall i :: 0 <= i < |st.nodes| ==> st.nodes[i].id != code;
    }
  }

  /** What `VisitProps` knows after recursing into the prerequisites of found module `m`. */
  lemma VisitFoundStep(modules: seq<ModuleRecord>, m: ModuleRecord, depth: nat,
                       st: ChainState, st2: ChainState, r: ChainState)
    requires depth <= MaxDepth
    requires FindModule(modules, m.moduleCode) == Some(m)
    requires st2 == ChainState(st.visited + {m.moduleCode}, st.nodes + [ChainNodeOf(m, depth)], st.edges)
    requires Extends(st, st2) && (Inv(st) ==> Inv(st2))
    requires Extends(st2, r) && (Inv(st2) ==> Inv(r))
    requires NewDepthsWithin(r.nodes, |st2.nodes|, depth + 1)
    requires EdgesComplete(modules, r.nodes, |st2.nodes|, r.edges)
    requires forall p :: p in m.prerequisites ==> PrereqEdge(p, m.moduleCode) in r.edges
    requires |r.edges| == |st2.edges| + |m.prerequisites| + PrereqTotal(modules, r.nodes[|st2.nodes|..])
    ensures |r.nodes| > |st.nodes| && r.nodes[|st.nodes|] == ChainNodeOf(m, depth)
    ensures m.moduleCode in r.visited
    ensures Extends(st, r)
    ensures Inv(st) ==> Inv(r)
    ensures NewDepthsWithin(r.nodes, |st.nodes|, depth)
    ensures EdgesComplete(modules, r.nodes, |st.nodes|, r.edges)
    ensures |r.edges| == |st.edges| + PrereqTotal(modules, r.nodes[|st.nodes|..])
  {
    ExtendsTransitive(st, st2, r);
    FoundNodes(modules, m, depth, st, st2, r);
    FoundEdgeCount(modules, m, depth, st, st2, r);
  }

  /** The found module's node heads the new nodes, with its depth and its edges. */
  lemma FoundNodes(modules: seq<ModuleRecord>, m: ModuleRecord, depth: nat, st: ChainState, st2: ChainState, r: ChainState)
    requires depth <= MaxDepth
    requires FindModule(modules, m.moduleCode) == Some(m)
    requires st2.nodes == st.nodes + [ChainNodeOf(m, depth)]
    requires Extends(st2, r)
    requires NewDepthsWithin(r.nodes, |st2.nodes|, depth + 1)
    requires EdgesComplete(modules, r.nodes, |st2.nodes|, r.edges)
    requires forall p :: p in m.prerequisites ==> PrereqEdge(p, m.moduleCode) in r.edges
    ensures |r.nodes| > |st.nodes| && r.nodes[|st.nodes|] == ChainNodeOf(m, depth)
    ensures NewDepthsWithin(r.nodes, |st.nodes|, depth)
    ensures EdgesComplete(modules, r.nodes, |st.nodes|, r.edges)
  {
    assert r.nodes[|st.nodes|] == r.nodes[..|st2.nodes|][|st.nodes|];
    assert PrereqsOf(modules, m.moduleCode) == m.prerequisites;
  }

  /** The found module adds one edge per entry of its list, on top of those of the nodes below it. */
  lemma FoundEdgeCount(modules: seq<ModuleRecord>, m: ModuleRecord, depth: nat, st: ChainState, st2: ChainState,
                       r: ChainState)
    requires FindModule(modules, m.moduleCode) == Some(m)
    requires st2.nodes == st.nodes + [ChainNodeOf(m, depth)] && st2.edges == st.edges
    requires Extends(st2, r)
    requires |r.edges| == |st2.edges| + |m.prerequisites| + PrereqTotal(modules, r.nodes[|st2.nodes|..])
    ensures |r.edges| == |st.edges| + PrereqTotal(modules, r.nodes[|st.nodes|..])
  {
    var node := ChainNodeOf(m, depth);
    assert r.nodes[|st.nodes|..] == [node] + r.nodes[|st2.nodes|..] by {
      assert r.nodes[..|st2.nodes|] == st2.nodes;
    }
    PrereqTotalAppend(modules, [node], r.nodes[|st2.nodes|..]);
    assert PrereqTotal(modules, [node]) == |m.prerequisites| by {
      assert [node][..0] == [];
    }
  }

  lemma ExtendsTransitive(a: ChainState, b: ChainState, c: ChainState)
    requires Extends(a, b) && Extends(b, c)
    ensures Extends(a, c)
  {
    assert c.nodes[..|a.nodes|] == c.nodes[..|b.nodes|][..|a.nodes|];
    assert c.edges[..|a.edges|] == c.edges[..|b.edges|][..|a.edges|];
  }

  /** A state that extends another still has all its node ids. */
  lemma ExtendsKeepsIds(a: ChainState, b: ChainState)
    requires Extends(a, b)
    ensures NodeIds(a.nodes) <= NodeIds(b.nodes)
  {
    assert b.nodes == a.nodes + b.nodes[|a.nodes|..];
    NodeIdsAppend(a.nodes, b.nodes[|a.nodes|..]);
  }

  /** A state that extends another still has all its edges. */
  lemma ExtendsKeepsEdges(a: ChainState, b: ChainState)
    requires Extends(a, b)
    ensures forall e :: e in a.edges ==> e in b.edges
  {
    forall e | e in a.edges ensures e in b.edges {
      var k :| 0 <= k < |a.edges| && a.edges[k] == e;
      assert b.edges[..|a.edges|][k] == e;
    }
  }

  /** The prerequisite total of a concatenation is the sum of the totals. */
  lemma {:induction false} PrereqTotalAppend(modules: seq<ModuleRecord>, a: seq<Node>, b: seq<Node>)
    ensures PrereqTotal(modules, a + b) == PrereqTotal(modules, a) + PrereqTotal(modules, b)
    decreases |b|
  {
    if b == [] {
      assert a + b == a;
    } else {
      PrereqTotalAppend(modules, a, b[..|b| - 1]);
      assert (a + b)[..|a + b| - 1] == a + b[..|b| - 1];
    }
  }

  /**
   * The route's answer: 404 "Module not found" when the root code is not
   * stored, otherwise the nodes and edges left by the walk from depth 0.
   */
  function ChainGraphOf(modules: seq<ModuleRecord>, moduleCode: string): (r: Result<ChainGraph>)
    ensures r.NotFound? <==> FindModule(modules, moduleCode).None?
    ensures r.NotFound? ==> r.message == "Module not found"
    ensures r.Ok? ==>
      && |r.value.nodes| >= 1
      && r.value.nodes[0] == ChainNodeOf(FindModule(modules, moduleCode).value, 0)
      && DistinctIds(r.value.nodes)
      && NewDepthsWithin(r.value.nodes, 0, 0)
      && (forall e :: e in r.value.edges ==> e.target in NodeIds(r.value.nodes))
      && EdgesComplete(modules, r.value.nodes, 0, r.value.edges)
      && |r.value.edges| == PrereqTotal(modules, r.value.nodes)
  {
    match FindModule(modules, moduleCode)
    case None => NotFound("Module not found")
    case Some(_) =>
      var st := Visit(modules, moduleCode, 0, ChainState({}, [], []));
      VisitProps(modules, moduleCode, 0, ChainState({}, [], []));
      assert st.nodes[0..] == st.nodes;
      Ok(ChainGraph(st.nodes, st.edges))
  }

  /** The closure of the route: the shared `visited` set and `nodes`/`edges` arrays it mutates. */
  class ChainResolver {
    const modules: seq<ModuleRecord>
    var visited: set<string>
    var nodes: seq<Node>
    var edges: seq<Edge>

    function State(): ChainState
      reads this
    {
      ChainState(visited, nodes, edges)
    }

    constructor(modules: seq<ModuleRecord>)
      ensures this.modules == modules
      ensures State() == ChainState({}, [], [])
    {
      this.modules := modules;
      visited := {};
      nodes := [];
      edges := [];
    }

    /** `addModuleAndPrereqs(code, depth)`: the state afterwards is the one `Visit` describes. */
    method AddModuleAndPrereqs(code: string, depth: nat)
      requires depth <= MaxDepth + 1
      modifies this
      ensures State() == Visit(modules, code, depth, old(State()))
      decreases MaxDepth + 1 - depth, 0
    {
      if code in visited || depth > MaxDepth {
        return;
      }
      ghost var st := State();
      visited := visited + {code};
      var found := FindModule(modules, code);
      if found.None? {
        return;
      }
      var m := found.value;
      nodes := nodes + [ChainNodeOf(m, depth)];
      VisitPushKeeps(code, ChainNodeOf(m, depth), st, State());
      AddPrerequisites(m, depth + 1);
    }

    /**
     * The `for` loop of `addModuleAndPrereqs` over the prerequisites of the
     * module just pushed: an edge, then the recursive call, per entry.
     */
    method AddPrerequisites(m: ModuleRecord, depth: nat)
      requires 1 <= depth <= MaxDepth + 1
      requires m.moduleCode in NodeIds(nodes)
      modifies this
      ensures State() == VisitAll(modules, m.moduleCode, m.prerequisites, depth, old(State()))
      decreases MaxDepth + 1 - depth, 1
    {
      ghost var st := State();
      var i := 0;
      assert m.prerequisites[..0] == [];
      while i < |m.prerequisites|
        invariant 0 <= i <= |m.prerequisites|
        invariant State() == VisitAll(modules, m.moduleCode, m.prerequisites[..i], depth, st)
      {
        var p := m.prerequisites[i];
        edges := edges + [PrereqEdge(p, m.moduleCode)];
        AddModuleAndPrereqs(p, depth);
        assert m.prerequisites[..i + 1][..i] == m.prerequisites[..i];
        i := i + 1;
      }
      assert m.prerequisites[..i] == m.prerequisites;
    }
  }

  /** The `/:moduleCode/prerequisites` handler: 404 for an unknown root, otherwise the walk from depth 0. */
  method PrerequisiteGraphRoute(modules: seq<ModuleRecord>, moduleCode: string) returns (r: Result<ChainGraph>)
    ensures r == ChainGraphOf(modules, moduleCode)
  {
    if FindModule(modules, moduleCode).None? {
      return NotFound("Module not found");
    }
    var resolver := new ChainResolver(modules);
    resolver.AddModuleAndPrereqs(moduleCode, 0);
    return Ok(ChainGraph(resolver.nodes, resolver.edges));
  }
}
