/**
 * The node/edge shapes both backend graph routes return
 * (backend/src/routes/courses.js and backend/src/routes/modules.js).
 */
module Graph {
  import opened Wrappers
  import opened Records

  datatype NodeKind = CourseNode | ModuleNode

  datatype EdgeKind = Core | Optional | Prerequisite

  /** The fixed projections of the stored records that the routes copy into `data`. */
  datatype NodeData =
    | CourseData(courseName: string, degree: Degree, department: string, description: Option<string>)
    | ModuleData(
        moduleCode: string,
        moduleTitle: string,
        creditValue: int,
        summaryOfContents: string,
        intendedLearningOutcomes: seq<string>,
        assessmentMethods: seq<Assessment>,
        courseYear: Option<int>,
        semester: Semester,
        isOptional: bool)
    | ChainData(moduleCode: string, moduleTitle: string, creditValue: int, summaryOfContents: string)

  /** A graph node (`labelText` is the `label` field); `depth` is present only on prerequisite-chain nodes. */
  datatype Node = Node(id: string, labelText: string, kind: NodeKind, depth: Option<nat>, data: NodeData)

  datatype Edge = Edge(id: string, source: string, target: string, kind: EdgeKind)

  /** The template literal `${source}-${target}` used for edge ids. */
  function EdgeId(source: string, target: string): string {
    source + "-" + target
  }

  /** The prerequisite edge `prereq -> target` both routes push. */
  function PrereqEdge(prereq: string, target: string): (e: Edge)
    ensures e.source == prereq && e.target == target && e.kind == Prerequisite
  {
    Edge(EdgeId(prereq, target), prereq, target, Prerequisite)
  }

  /** The ids of a node list, as a set. */
  function NodeIds(nodes: seq<Node>): (ids: set<string>)
    ensures forall i :: 0 <= i < |nodes| ==> nodes[i].id in ids
    ensures forall x :: x in ids ==> exists i :: 0 <= i < |nodes| && nodes[i].id == x
  {
    set i | 0 <= i < |nodes| :: nodes[i].id
  }

  /** No two nodes of the list share an id. */
  predicate DistinctIds(nodes: seq<Node>) {
    forall i, j :: 0 <= i < j < |nodes| ==> nodes[i].id != nodes[j].id
  }

  /** The ids of a concatenation are the union of the ids. */
  lemma NodeIdsAppend(a: seq<Node>, b: seq<Node>)
    ensures NodeIds(a + b) == NodeIds(a) + NodeIds(b)
  {
    var ab := a + b;
    forall x | x in NodeIds(ab) ensures x in NodeIds(a) + NodeIds(b) {
      var i :| 0 <= i < |ab| && ab[i].id == x;
      if i >= |a| {
        assert b[i - |a|].id == x;
      }
    }
    forall x | x in NodeIds(a) ensures x in NodeIds(ab) {
      var i :| 0 <= i < |a| && a[i].id == x;
      assert ab[i].id == x;
    }
    forall x | x in NodeIds(b) ensures x in NodeIds(ab) {
      var i :| 0 <= i < |b| && b[i].id == x;
      assert ab[|a| + i].id == x;
    }
  }
}
