/**
 * The course graph route of backend/src/routes/courses.js (`/:courseCode/graph`)
 * and the module fetch of `/:courseCode`. The node list is one expression; the
 * edge list is accumulated by two loops, as in the route.
 */
module CourseGraph {
  import opened Wrappers
  import opened Records
  import opened Graph

  /** The payload of a successful graph request: the course document, nodes and edges. */
  datatype CourseGraphData = CourseGraphData(course: CourseRecord, nodes: seq<Node>, edges: seq<Edge>)

  /** The payload of `/:courseCode`: the course and its fetched modules. */
  datatype CourseDetail = CourseDetail(course: CourseRecord, modules: seq<ModuleRecord>)

  /** `allModuleCodes`: the core codes followed by the optional codes, duplicates kept. */
  function DeclaredCodes(c: CourseRecord): (codes: seq<string>)
    ensures |codes| == |c.core| + |c.optional|
    ensures forall i :: 0 <= i < |c.core| ==> codes[i] == c.core[i].code
    ensures forall i :: 0 <= i < |c.optional| ==> codes[|c.core| + i] == c.optional[i].code
  {
    RefCodes(c.core) + RefCodes(c.optional)
  }

  /** A code is declared exactly when a core or an optional reference carries it. */
  lemma DeclaredCodesIff(c: CourseRecord, x: string)
    ensures x in DeclaredCodes(c) <==>
              (exists r :: r in c.core && r.code == x) || (exists r :: r in c.optional && r.code == x)
  {
    InRefCodes(c.core, x);
    InRefCodes(c.optional, x);
  }

  /** The modules the route fetches for a course: `Module.find({ moduleCode: { $in: allModuleCodes } })`. */
  function FetchedModules(store: Store, c: CourseRecord): seq<ModuleRecord> {
    FindIn(store.modules, DeclaredCodes(c))
  }

  /** The course node: id is the code, label the name, data the four-field projection. */
  function CourseNodeOf(c: CourseRecord): Node {
    Node(c.courseCode, c.courseName, CourseNode, None,
         CourseData(c.courseName, c.degree, c.department, c.description))
  }

  /** A module node: id is the code, label the title, data the nine-field projection. */
  function ModuleNodeOf(m: ModuleRecord): Node {
    Node(m.moduleCode, m.moduleTitle, ModuleNode, None,
         ModuleData(m.moduleCode, m.moduleTitle, m.creditValue, m.summaryOfContents,
                    m.intendedLearningOutcomes, m.assessmentMethods, m.courseYear,
                    m.semester, m.isOptional))
  }

  /** The node array literal: the course node, then one node per fetched module. */
  function GraphNodes(c: CourseRecord, fetched: seq<ModuleRecord>): (nodes: seq<Node>)
    ensures |nodes| == 1 + |fetched|
    ensures nodes[0] == CourseNodeOf(c)
    ensures forall i :: 0 <= i < |fetched| ==> nodes[i + 1] == ModuleNodeOf(fetched[i])
  {
    [CourseNodeOf(c)] + seq(|fetched|, i requires 0 <= i < |fetched| => ModuleNodeOf(fetched[i]))
  }

  /** The membership edge of one fetched module: `core` when its code is in the core list. */
  function MembershipEdge(c: CourseRecord, m: ModuleRecord): Edge {
    Edge(EdgeId(c.courseCode, m.moduleCode), c.courseCode, m.moduleCode,
         if m.moduleCode in RefCodes(c.core) then Core else Optional)
  }

  /** What the first loop pushes: one membership edge per fetched module, in fetch order. */
  function MembershipEdges(c: CourseRecord, fetched: seq<ModuleRecord>): seq<Edge> {
    seq(|fetched|, i requires 0 <= i < |fetched| => MembershipEdge(c, fetched[i]))
  }

  /** What the inner loop pushes for one module: an edge per prerequisite entry found in `declared`. */
  function PrereqEdgesOf(declared: seq<string>, target: string, prereqs: seq<string>): seq<Edge>
    decreases |prereqs|
  {
    if prereqs == [] then []
    else
      var p := prereqs[|prereqs| - 1];
      PrereqEdgesOf(declared, target, prereqs[..|prereqs| - 1])
        + (if p in declared then [PrereqEdge(p, target)] else [])
  }

  /** What the second loop pushes, module after module. */
  function PrereqEdges(declared: seq<string>, fetched: seq<ModuleRecord>): seq<Edge>
    decreases |fetched|
  {
    if fetched == [] then []
    else
      var m := fetched[|fetched| - 1];
      PrereqEdges(declared, fetched[..|fetched| - 1]) + PrereqEdgesOf(declared, m.moduleCode, m.prerequisites)
  }

  /** The whole edge list: membership edges first, then prerequisite edges. */
  function GraphEdges(c: CourseRecord, fetched: seq<ModuleRecord>): seq<Edge> {
    MembershipEdges(c, fetched) + PrereqEdges(DeclaredCodes(c), fetched)
  }

  /** The response of `/:courseCode/graph` for a given store. */
  function BuildGraph(store: Store, courseCode: string): (r: Result<CourseGraphData>)
    ensures r.NotFound? <==> courseCode !in store.courses
    ensures r.NotFound? ==> r.message == "Course not found"
    ensures r.Ok? ==> r.value.course == store.courses[courseCode]
    ensures r.Ok? ==> |r.value.nodes| == 1 + |FetchedModules(store, r.value.course)|
    ensures r.Ok? ==> r.value.nodes[0].id == r.value.course.courseCode && r.value.nodes[0].kind == CourseNode
    ensures r.Ok? ==> |r.value.edges| >= |FetchedModules(store, r.value.course)|
  {
    match FindCourse(store, courseCode)
    case None => NotFound("Course not found")
    case Some(c) =>
      var fetched := FetchedModules(store, c);
      Ok(CourseGraphData(c, GraphNodes(c, fetched), GraphEdges(c, fetched)))
  }

  /** The two `forEach` loops of the route that fill `edges`. */
  method BuildEdges(c: CourseRecord, fetched: seq<ModuleRecord>) returns (edges: seq<Edge>)
    ensures edges == GraphEdges(c, fetched)
  {
    var coreCodes := RefCodes(c.core);
    var declared := DeclaredCodes(c);
    edges := [];
    var i := 0;
    while i < |fetched|
      invariant 0 <= i <= |fetched|
      invariant edges == MembershipEdges(c, fetched[..i])
    {
      var m := fetched[i];
      var kind := if m.moduleCode in coreCodes then Core else Optional;
      edges := edges + [Edge(EdgeId(c.courseCode, m.moduleCode), c.courseCode, m.moduleCode, kind)];
      i := i + 1;
      assert MembershipEdges(c, fetched[..i]) == MembershipEdges(c, fetched[..i - 1]) + [MembershipEdge(c, m)];
    }
    assert fetched[..i] == fetched;
    ghost var membership := edges;
    var j := 0;
    while j < |fetched|
      invariant 0 <= j <= |fetched|
      invariant edges == membership + PrereqEdges(declared, fetched[..j])
    {
      var m := fetched[j];
      ghost var before := edges;
      var k := 0;
      while k < |m.prerequisites|
        invariant 0 <= k <= |m.prerequisites|
        invariant edges == before + PrereqEdgesOf(declared, m.moduleCode, m.prerequisites[..k])
      {
        var p := m.prerequisites[k];
        if p in declared {
          edges := edges + [PrereqEdge(p, m.moduleCode)];
        }
        k := k + 1;
        assert m.prerequisites[..k][..k - 1] == m.prerequisites[..k - 1];
      }
      assert m.prerequisites[..k] == m.prerequisites;
      j := j + 1;
      assert fetched[..j][..j - 1] == fetched[..j - 1];
    }
    assert fetched[..j] == fetched;
  }

  /** The route handler: 404 for an unknown course, otherwise the assembled graph. */
  method CourseGraphRoute(store: Store, courseCode: string) returns (r: Result<CourseGraphData>)
    ensures r == BuildGraph(store, courseCode)
  {
    var found := FindCourse(store, courseCode);
    if found.None? {
      return NotFound("Course not found");
    }
    var c := found.value;
    var fetched := FindIn(store.modules, DeclaredCodes(c));
    var nodes := GraphNodes(c, fetched);
    var edges := BuildEdges(c, fetched);
    r := Ok(CourseGraphData(c, nodes, edges));
  }

  /** The `/:courseCode` route: the course and the fetched modules, or 404. */
  function CourseDetailRoute(store: Store, courseCode: string): (r: Result<CourseDetail>)
    ensures r.NotFound? <==> courseCode !in store.courses
    ensures r.Ok? ==> r.value.course == store.courses[courseCode]
    ensures r.Ok? ==> forall m :: m in r.value.modules <==>
              m in store.modules && m.moduleCode in DeclaredCodes(store.courses[courseCode])
  {
    match FindCourse(store, courseCode)
    case None => NotFound("Course not found")
    case Some(c) => Ok(CourseDetail(c, FetchedModules(store, c)))
  }

  /** A code is among the references' codes exactly when some reference carries it. */
  lemma {:induction false} InRefCodes(refs: seq<ModuleRef>, x: string)
    ensures x in RefCodes(refs) <==> exists r :: r in refs && r.code == x
  {
    if x in RefCodes(refs) {
      var i :| 0 <= i < |refs| && RefCodes(refs)[i] == x;
      assert refs[i] in refs;
    }
  }

  /**
   * One membership edge per fetched module, from the course to the module, with
   * id "<courseCode>-<moduleCode>"; it is `core` exactly when the code is in the
   * core list, so a module listed in both lists gets a single `core` edge.
   */
  lemma MembershipEdgesShape(c: CourseRecord, fetched: seq<ModuleRecord>)
    ensures |MembershipEdges(c, fetched)| == |fetched|
    ensures forall i :: 0 <= i < |fetched| ==>
              MembershipEdges(c, fetched)[i].id == EdgeId(c.courseCode, fetched[i].moduleCode)
              && MembershipEdges(c, fetched)[i].source == c.courseCode
              && MembershipEdges(c, fetched)[i].target == fetched[i].moduleCode
              && MembershipEdges(c, fetched)[i].kind != Prerequisite
              && (MembershipEdges(c, fetched)[i].kind == Core
                  <==> exists r :: r in c.core && r.code == fetched[i].moduleCode)
  {
    forall i | 0 <= i < |fetched|
      ensures MembershipEdges(c, fetched)[i].kind == Core
              <==> exists r :: r in c.core && r.code == fetched[i].moduleCode
    {
      InRefCodes(c.core, fetched[i].moduleCode);
    }
  }

  /** The inner loop emits `p -> target` exactly for the entries `p` that are declared. */
  lemma {:induction false} PrereqEdgesOfIff(declared: seq<string>, target: string, prereqs: seq<string>, e: Edge)
    ensures e in PrereqEdgesOf(declared, target, prereqs)
            <==> e.source in prereqs && e.source in declared && e == PrereqEdge(e.source, target)
    decreases |prereqs|
  {
    if prereqs != [] {
      var init := prereqs[..|prereqs| - 1];
      PrereqEdgesOfIff(declared, target, init, e);
      assert prereqs == init + [prereqs[|prereqs| - 1]];
    }
  }

  /**
   * Prerequisite edges are exactly the pairs (module, entry) of a fetched module
   * whose entry is in the declared code list; entries outside it are dropped.
   */
  lemma {:induction false} PrereqEdgesIff(declared: seq<string>, fetched: seq<ModuleRecord>, e: Edge)
    ensures e in PrereqEdges(declared, fetched)
            <==> exists m :: m in fetched && e.source in m.prerequisites && e.source in declared
                             && e == PrereqEdge(e.source, m.moduleCode)
    decreases |fetched|
  {
    if fetched != [] {
      var init, m := fetched[..|fetched| - 1], fetched[|fetched| - 1];
      PrereqEdgesIff(declared, init, e);
      PrereqEdgesOfIff(declared, m.moduleCode, m.prerequisites, e);
      assert fetched == init + [m];
    }
  }

  /**
   * No de-duplication: the edge `p -> target` occurs once per occurrence of `p`
   * in the prerequisite list, so a prerequisite listed twice gives two identical edges.
   */
  lemma {:induction false} PrereqEdgeMultiplicity(declared: seq<string>, target: string, prereqs: seq<string>, p: string)
    requires p in declared
    ensures multiset(PrereqEdgesOf(declared, target, prereqs))[PrereqEdge(p, target)] == multiset(prereqs)[p]
    decreases |prereqs|
  {
    if prereqs != [] {
      var init, q := prereqs[..|prereqs| - 1], prereqs[|prereqs| - 1];
      PrereqEdgeMultiplicity(declared, target, init, p);
      assert prereqs == init + [q];
      assert multiset(prereqs) == multiset(init) + multiset{q};
    }
  }

  /** Every edge points at a node of the graph, and every membership edge starts at the course node. */
  lemma EdgeTargetsAreNodes(c: CourseRecord, fetched: seq<ModuleRecord>)
    ensures forall e :: e in GraphEdges(c, fetched) ==> e.target in NodeIds(GraphNodes(c, fetched))
    ensures forall e :: e in MembershipEdges(c, fetched) ==> e.source in NodeIds(GraphNodes(c, fetched))
  {
    var nodes := GraphNodes(c, fetched);
    var ids := NodeIds(nodes);
    forall i | 0 <= i < |fetched| ensures fetched[i].moduleCode in ids {
      assert nodes[i + 1].id == fetched[i].moduleCode;
    }
    assert nodes[0].id == c.courseCode;
    MembershipEdgesShape(c, fetched);
    forall e | e in MembershipEdges(c, fetched) ensures e.target in ids && e.source in ids {
      var i :| 0 <= i < |fetched| && MembershipEdges(c, fetched)[i] == e;
    }
    forall e | e in PrereqEdges(DeclaredCodes(c), fetched) ensures e.target in ids {
      PrereqEdgesIff(DeclaredCodes(c), fetched, e);
      var m :| m in fetched && e == PrereqEdge(e.source, m.moduleCode);
      var i :| 0 <= i < |fetched| && fetched[i] == m;
    }
  }

  /**
   * The prerequisite test is against the declared code list, not the fetched
   * modules: a declared prerequisite with no stored record still gets an edge,
   * and that edge's source has no node.
   */
  lemma DanglingPrerequisiteEdge(store: Store, code: string, m: ModuleRecord, p: string)
    requires code in store.courses
    requires m in FetchedModules(store, store.courses[code])
    requires p in m.prerequisites && p in DeclaredCodes(store.courses[code])
    requires forall s :: s in store.modules ==> s.moduleCode != p
    requires p != store.courses[code].courseCode
    ensures PrereqEdge(p, m.moduleCode) in BuildGraph(store, code).value.edges
    ensures p !in NodeIds(BuildGraph(store, code).value.nodes)
  {
    var c := store.courses[code];
    var fetched := FetchedModules(store, c);
    PrereqEdgesIff(DeclaredCodes(c), fetched, PrereqEdge(p, m.moduleCode));
    var nodes := GraphNodes(c, fetched);
    forall i | 0 <= i < |nodes| ensures nodes[i].id != p {
      if i > 0 {
        assert nodes[i].id == fetched[i - 1].moduleCode;
        assert fetched[i - 1] in store.modules;
      }
    }
  }

  /**
   * With the unique index on module codes and a course code that is no module's
   * code, the node ids of the graph are distinct.
   */
  lemma NodeIdsDistinct(store: Store, code: string)
    requires UniqueCodes(store.modules)
    requires code in store.courses
    requires forall m :: m in store.modules ==> m.moduleCode != store.courses[code].courseCode
    ensures DistinctIds(BuildGraph(store, code).value.nodes)
  {
    var c := store.courses[code];
    var fetched := FetchedModules(store, c);
    FindInUnique(store.modules, DeclaredCodes(c));
    var nodes := GraphNodes(c, fetched);
    assert BuildGraph(store, code).value.nodes == nodes;
    forall i, j | 0 <= i < j < |nodes| ensures nodes[i].id != nodes[j].id {
      assert nodes[j].id == fetched[j - 1].moduleCode;
      if i == 0 {
        assert fetched[j - 1] in store.modules;
      } else {
        assert nodes[i].id == fetched[i - 1].moduleCode;
      }
    }
  }

  /** The prerequisite edges of a concatenation of fetched lists are the concatenation of their edges. */
  lemma {:induction false} PrereqEdgesAppend(declared: seq<string>, a: seq<ModuleRecord>, b: seq<ModuleRecord>)
    ensures PrereqEdges(declared, a + b) == PrereqEdges(declared, a) + PrereqEdges(declared, b)
    decreases |b|
  {
    if b == [] {
      assert a + b == a;
    } else {
      var init, m := b[..|b| - 1], b[|b| - 1];
      var last := PrereqEdgesOf(declared, m.moduleCode, m.prerequisites);
      PrereqEdgesAppend(declared, a, init);
      assert (a + b)[..|a + b| - 1] == a + init && (a + b)[|a + b| - 1] == m;
      assert PrereqEdges(declared, a + b) == PrereqEdges(declared, a + init) + last;
      assert PrereqEdges(declared, b) == PrereqEdges(declared, init) + last;
    }
  }
}
