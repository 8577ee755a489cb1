/**
 * The graph route of the sample-data server, GET /api/courses/:courseCode/graph
 * (backend/src/server-standalone.js:204-345).
 *
 * The handler first sorts the module references of the course into
 * `modulesByYear`, one bucket per year key with a core and an optional list.
 * It then walks the year keys in string order and creates one node per
 * bucket entry, core entries first, numbering them `node_1`, `node_2`, ...
 * Last, it links every node to each of its prerequisites, taking as source
 * the first node that carries the prerequisite's code.
 *
 * The functions below state each phase; the methods are the handler's loops,
 * each proved equal to its function.
 */
module SampleGraph {
  import opened Wrappers
  import opened Text
  import opened Records
  import opened SampleServer

  /** `moduleRef.year || 1`, used as a key of `modulesByYear`: its decimal text. */
  function YearKey(year: Option<int>): string {
    IntToString(NumberOr(year, 1))
  }

  /** `a < b` on strings: character by character, a proper prefix first. */
  predicate StringLess(a: string, b: string)
    decreases |a|
  {
    if a == [] then b != []
    else if b == [] then false
    else if a[0] != b[0] then a[0] < b[0]
    else StringLess(a[1..], b[1..])
  }

  /** No key occurs twice. */
  predicate Distinct(s: seq<string>) {
    forall i, j :: 0 <= i < j < |s| ==> s[i] != s[j]
  }

  /** Ascending in the string order. */
  predicate Sorted(s: seq<string>) {
    forall i, j :: 0 <= i < j < |s| ==> !StringLess(s[j], s[i])
  }

  /** One step of sorting: `k` goes in front of the first key that is not below it. */
  function Insert(k: string, s: seq<string>): (r: seq<string>)
    ensures multiset(r) == multiset(s) + multiset{k}
  {
    if s == [] || !StringLess(s[0], k) then [k] + s
    else
      assert s == [s[0]] + s[1..];
      [s[0]] + Insert(k, s[1..])
  }

  /** `Object.keys(modulesByYear).sort()`: the default sort compares the keys as strings. */
  function SortKeys(keys: seq<string>): (r: seq<string>)
    ensures multiset(r) == multiset(keys)
  {
    if keys == [] then []
    else
      assert keys == [keys[0]] + keys[1..];
      Insert(keys[0], SortKeys(keys[1..]))
  }

  // ---------------------------------------------------------------------
  // modulesByYear

  /** The two lists of one year. */
  datatype Bucket = Bucket(core: seq<SampleModule>, optional: seq<SampleModule>)

  /** `modulesByYear`: its keys in the order they were added, and the bucket under each. */
  datatype YearTable = YearTable(keys: seq<string>, buckets: map<string, Bucket>)

  /** The keys listed are exactly the keys present, each once. */
  ghost predicate TableValid(t: YearTable) {
    Distinct(t.keys) && forall k :: k in t.buckets <==> k in t.keys
  }

  const EmptyTable := YearTable([], map[])

  /** Lines 258-260 and 267-269: create the year's bucket when missing, then push onto one list. */
  function Place(t: YearTable, key: string, m: SampleModule, isCore: bool): YearTable {
    var t1 := if key in t.buckets then t else YearTable(t.keys + [key], t.buckets[key := Bucket([], [])]);
    var b := t1.buckets[key];
    t1.(buckets := t1.buckets[key := if isCore then b.(core := b.core + [m]) else b.(optional := b.optional + [m])])
  }

  /** One of the `forEach` loops of lines 255-272, over the references in `refs`. */
  function Bucketed(modules: seq<SampleModule>, refs: seq<ModuleRef>, isCore: bool, t: YearTable): YearTable
    decreases |refs|
  {
    if refs == [] then t
    else
      var before := Bucketed(modules, refs[..|refs| - 1], isCore, t);
      var ref := refs[|refs| - 1];
      match FindSampleModule(modules, ref.code)
      case None => before
      case Some(m) => Place(before, YearKey(ref.year), m, isCore)
  }

  /** `modulesByYear` once both lists of the course are in. */
  function TableOf(modules: seq<SampleModule>, c: SampleCourse): YearTable {
    Bucketed(modules, c.optional, false, Bucketed(modules, c.core, true, EmptyTable))
  }

  lemma PlaceValid(t: YearTable, key: string, m: SampleModule, isCore: bool)
    requires TableValid(t)
    ensures TableValid(Place(t, key, m, isCore))
    ensures key in Place(t, key, m, isCore).buckets
  {
  }

  /** Filling the buckets keeps the keys and the buckets in step. */
  lemma {:induction false} BucketedValid(modules: seq<SampleModule>, refs: seq<ModuleRef>, isCore: bool, t: YearTable)
    requires TableValid(t)
    ensures TableValid(Bucketed(modules, refs, isCore, t))
    decreases |refs|
  {
    if refs != [] {
      BucketedValid(modules, refs[..|refs| - 1], isCore, t);
      var before := Bucketed(modules, refs[..|refs| - 1], isCore, t);
      var ref := refs[|refs| - 1];
      if FindSampleModule(modules, ref.code).Some? {
        PlaceValid(before, YearKey(ref.year), FindSampleModule(modules, ref.code).value, isCore);
      }
    }
  }

  // ---------------------------------------------------------------------
  // Nodes

  datatype Position = Position(x: int, y: int)

  /** Where one node goes before it is numbered: its module, year key, type and position. */
  datatype Placement = Placement(sampleModule: SampleModule, year: string, moduleType: ModuleType, position: Position)

  /** The position of the node with index `moduleIndex` within the year at `yearIndex` (lines 283-291). */
  function Slot(yearIndex: nat, moduleIndex: nat, moduleType: ModuleType): Position {
    Position(yearIndex * 300 + (moduleIndex % 3) * 150,
      (moduleIndex / 3) * 100 + (if moduleType == CoreModule then 0 else 200))
  }

  /** The placements of one list of a year, whose first entry has index `base` within the year. */
  function ListPlacements(ms: seq<SampleModule>, year: string, yearIndex: nat, base: nat, moduleType: ModuleType): (r: seq<Placement>)
    ensures |r| == |ms|
  {
    seq(|ms|, j requires 0 <= j < |ms| => Placement(ms[j], year, moduleType, Slot(yearIndex, base + j, moduleType)))
  }

  /** The placements of one year: its core list, then its optional list (lines 279-294). */
  function YearPlacements(t: YearTable, year: string, yearIndex: nat): seq<Placement> {
    if year in t.buckets then
      var b := t.buckets[year];
      ListPlacements(b.core, year, yearIndex, 0, CoreModule)
        + ListPlacements(b.optional, year, yearIndex, |b.core|, OptionalModule)
    else []
  }

  /** The placements of the years in `years`, each at its index. */
  function Placements(t: YearTable, years: seq<string>): seq<Placement>
    decreases |years|
  {
    if years == [] then []
    else Placements(t, years[..|years| - 1]) + YearPlacements(t, years[|years| - 1], |years| - 1)
  }

  /** `module.level || year`: the module's level, or the year key. */
  datatype Level = LevelNumber(n: int) | LevelYear(year: string)

  /** The `data` of a node. */
  datatype NodeInfo = NodeInfo(
    labelText: string,
    sampleModule: SampleModule,
    year: string,
    moduleType: ModuleType,
    credits: int,
    level: Level)

  datatype SampleNode = SampleNode(id: string, position: Position, data: NodeInfo)

  /** `node_${n}`. */
  function NodeId(n: nat): string {
    "node_" + NatToString(n)
  }

  /** `createNode` (lines 224-247) for the node numbered `n`; the styling is left out. */
  function CreateNode(p: Placement, n: nat): SampleNode {
    var m := p.sampleModule;
    SampleNode(NodeId(n), p.position, NodeInfo(
      m.moduleCode + "\n" + TextOr(m.title, "Module"),
      m,
      p.year,
      p.moduleType,
      NumberOr(m.credits, 20),
      if m.level.Some? && m.level.value != 0 then LevelNumber(m.level.value) else LevelYear(p.year)))
  }

  /** The nodes of the placements, numbered from 1 in order. */
  function NodesOf(ps: seq<Placement>): (r: seq<SampleNode>)
    ensures |r| == |ps|
    decreases |ps|
  {
    if ps == [] then [] else NodesOf(ps[..|ps| - 1]) + [CreateNode(ps[|ps| - 1], |ps|)]
  }

  /** The node list of the course. */
  function GraphNodes(modules: seq<SampleModule>, c: SampleCourse): seq<SampleNode> {
    var t := TableOf(modules, c);
    NodesOf(Placements(t, SortKeys(t.keys)))
  }

  // ---------------------------------------------------------------------
  // Edges

  datatype SampleEdge = SampleEdge(id: string, source: string, target: string)

  /** `nodes.find(n => n.data.module.moduleCode === code)`. */
  function FirstWithCode(nodes: seq<SampleNode>, code: string): (r: Option<SampleNode>)
    ensures r.Some? <==> exists i :: 0 <= i < |nodes| && nodes[i].data.sampleModule.moduleCode == code
    ensures r.Some? ==> r.value in nodes && r.value.data.sampleModule.moduleCode == code
  {
    if nodes == [] then None
    else if nodes[0].data.sampleModule.moduleCode == code then Some(nodes[0])
    else
      var r := FirstWithCode(nodes[1..], code);
      assert forall i :: 1 <= i < |nodes| ==> nodes[i] == nodes[1..][i - 1];
      r
  }

  /** The edge `source → target`, with id `edge_<source>_<target>` (lines 306-315). */
  function EdgeOf(source: SampleNode, target: SampleNode): SampleEdge {
    SampleEdge("edge_" + source.id + "_" + target.id, source.id, target.id)
  }

  /** The edges into `target` for the prerequisite entries in `prereqs` (lines 301-316). */
  function LinksOf(nodes: seq<SampleNode>, target: SampleNode, prereqs: seq<string>): seq<SampleEdge>
    decreases |prereqs|
  {
    if prereqs == [] then []
    else
      LinksOf(nodes, target, prereqs[..|prereqs| - 1])
        + match FirstWithCode(nodes, prereqs[|prereqs| - 1])
          case None => []
          case Some(source) => [EdgeOf(source, target)]
  }

  /** The edges into the nodes of `targets`, in order (lines 298-318). */
  function EdgesFrom(nodes: seq<SampleNode>, targets: seq<SampleNode>): seq<SampleEdge>
    decreases |targets|
  {
    if targets == [] then []
    else
      var target := targets[|targets| - 1];
      EdgesFrom(nodes, targets[..|targets| - 1]) + LinksOf(nodes, target, target.data.sampleModule.prerequisites)
  }

  // ---------------------------------------------------------------------
  // The answer

  /** The metadata of lines 327-332; the generation time is left out. */
  datatype Metadata = Metadata(totalNodes: nat, totalEdges: nat, coreModules: nat, optionalModules: nat)

  datatype GraphResponse =
    | GraphFound(course: SampleCourse, nodes: seq<SampleNode>, edges: seq<SampleEdge>, metadata: Metadata)
    | GraphMissing(message: string)

  /** `nodes.filter(n => n.data.moduleType === type).length`. */
  function CountType(nodes: seq<SampleNode>, moduleType: ModuleType): (n: nat)
    ensures n <= |nodes|
  {
    if nodes == [] then 0
    else (if nodes[0].data.moduleType == moduleType then 1 else 0) + CountType(nodes[1..], moduleType)
  }

  /** Every node is core or optional, so the two counts add up to the node count. */
  lemma {:induction false} CountTypeSum(nodes: seq<SampleNode>)
    ensures CountType(nodes, CoreModule) + CountType(nodes, OptionalModule) == |nodes|
  {
    if nodes != [] {
      CountTypeSum(nodes[1..]);
    }
  }

  /** The answer of the graph route. */
  function SampleGraphOf(courses: seq<SampleCourse>, modules: seq<SampleModule>, code: string): (r: GraphResponse)
    ensures r.GraphMissing? <==> FindSampleCourse(courses, code).None?
    ensures r.GraphMissing? ==> r.message == "Course with code '" + code + "' not found for graph generation"
    ensures r.GraphFound? ==>
      && CodeMatches(r.course, code) && r.course in courses
      && r.metadata.totalNodes == |r.nodes| && r.metadata.totalEdges == |r.edges|
      && r.metadata.coreModules + r.metadata.optionalModules == r.metadata.totalNodes
  {
    match FindSampleCourse(courses, code)
    case None => GraphMissing("Course with code '" + code + "' not found for graph generation")
    case Some(c) =>
      var nodes := GraphNodes(modules, c);
      var edges := EdgesFrom(nodes, nodes);
      CountTypeSum(nodes);
      GraphFound(c, nodes, edges,
        Metadata(|nodes|, |edges|, CountType(nodes, CoreModule), CountType(nodes, OptionalModule)))
  }

  // ---------------------------------------------------------------------
  // The handler's loops

  /** Lines 255-262 (or 265-272): bucket the references whose module exists. */
  method FillBuckets(modules: seq<SampleModule>, refs: seq<ModuleRef>, isCore: bool, t0: YearTable)
    returns (t: YearTable)
    ensures t == Bucketed(modules, refs, isCore, t0)
  {
    t := t0;
    for i := 0 to |refs|
      invariant t == Bucketed(modules, refs[..i], isCore, t0)
    {
      assert refs[..i + 1][..i] == refs[..i];
      var found := FindSampleModule(modules, refs[i].code);
      if found.Some? {
        var year := YearKey(refs[i].year);
        if year !in t.buckets {
          t := YearTable(t.keys + [year], t.buckets[year := Bucket([], [])]);
        }
        var b := t.buckets[year];
        if isCore {
          t := t.(buckets := t.buckets[year := b.(core := b.core + [found.value])]);
        } else {
          t := t.(buckets := t.buckets[year := b.(optional := b.optional + [found.value])]);
        }
      }
    }
    assert refs[..|refs|] == refs;
  }

  /** The nodes of the placements `ps`, numbered on from `first`. */
  function NumberedFrom(ps: seq<Placement>, first: nat): (r: seq<SampleNode>)
    ensures |r| == |ps|
  {
    seq(|ps|, i requires 0 <= i < |ps| => CreateNode(ps[i], first + i))
  }

  /** Node `i` of `NodesOf(ps)` is placement `i`, numbered `i + 1`. */
  lemma {:induction false} NodesOfAt(ps: seq<Placement>)
    ensures forall i :: 0 <= i < |ps| ==> NodesOf(ps)[i] == CreateNode(ps[i], i + 1)
    decreases |ps|
  {
    if ps != [] {
      NodesOfAt(ps[..|ps| - 1]);
    }
  }

  /** Numbering more placements continues from the last number. */
  lemma NodesOfSplit(a: seq<Placement>, b: seq<Placement>)
    ensures NodesOf(a + b) == NodesOf(a) + NumberedFrom(b, |a| + 1)
  {
    NodesOfAt(a + b);
    NodesOfAt(a);
  }

  lemma NumberedFromAppend(a: seq<Placement>, b: seq<Placement>, first: nat)
    ensures NumberedFrom(a + b, first) == NumberedFrom(a, first) + NumberedFrom(b, first + |a|)
  {
  }

  /**
   * One `forEach` of lines 282-292: a numbered node for each module of the
   * list, the module index running on from `base` and the node number from `nodeId0`.
   */
  method LayOutList(ms: seq<SampleModule>, year: string, yearIndex: nat, base: nat, moduleType: ModuleType,
                    nodes0: seq<SampleNode>, nodeId0: nat)
    returns (nodes: seq<SampleNode>, nodeId: nat)
    requires nodeId0 == |nodes0| + 1
    ensures nodes == nodes0 + NumberedFrom(ListPlacements(ms, year, yearIndex, base, moduleType), nodeId0)
    ensures nodeId == |nodes| + 1
  {
    nodes, nodeId := nodes0, nodeId0;
    var moduleIndex := base;
    for j := 0 to |ms|
      invariant |nodes| == |nodes0| + j && nodes[..|nodes0|] == nodes0
      invariant forall k :: 0 <= k < j ==>
        nodes[|nodes0| + k] == CreateNode(Placement(ms[k], year, moduleType, Slot(yearIndex, base + k, moduleType)), nodeId0 + k)
      invariant moduleIndex == base + j && nodeId == nodeId0 + j
    {
      var p := Placement(ms[j], year, moduleType, Slot(yearIndex, moduleIndex, moduleType));
      nodes := nodes + [CreateNode(p, nodeId)];
      nodeId := nodeId + 1;
      moduleIndex := moduleIndex + 1;
    }
  }

  /** Lines 277-293 for one year: its core list, then its optional list. */
  method LayOutYear(b: Bucket, year: string, yearIndex: nat, nodes0: seq<SampleNode>, nodeId0: nat)
    returns (nodes: seq<SampleNode>, nodeId: nat)
    requires nodeId0 == |nodes0| + 1
    ensures nodes == nodes0 + NumberedFrom(ListPlacements(b.core, year, yearIndex, 0, CoreModule)
      + ListPlacements(b.optional, year, yearIndex, |b.core|, OptionalModule), nodeId0)
    ensures nodeId == |nodes| + 1
  {
    var c := ListPlacements(b.core, year, yearIndex, 0, CoreModule);
    var o := ListPlacements(b.optional, year, yearIndex, |b.core|, OptionalModule);
    nodes, nodeId := LayOutList(b.core, year, yearIndex, 0, CoreModule, nodes0, nodeId0);
    nodes, nodeId := LayOutList(b.optional, year, yearIndex, |b.core|, OptionalModule, nodes, nodeId);
    NumberedFromAppend(c, o, nodeId0);
  }

  /** The placements of one more year are those of its core list, then those of its optional list. */
  lemma LayOutNodesStep(t: YearTable, years: seq<string>, i: nat)
    requires i < |years| && years[i] in t.buckets
    ensures Placements(t, years[..i + 1]) == Placements(t, years[..i])
      + (ListPlacements(t.buckets[years[i]].core, years[i], i, 0, CoreModule)
        + ListPlacements(t.buckets[years[i]].optional, years[i], i, |t.buckets[years[i]].core|, OptionalModule))
  {
    assert years[..i + 1][..i] == years[..i];
  }

  /** The nodes of one more year follow those of the years before, numbered on. */
  lemma LayOutNodesNext(t: YearTable, years: seq<string>, i: nat, nodes: seq<SampleNode>)
    requires i < |years| && years[i] in t.buckets
    requires nodes == NodesOf(Placements(t, years[..i]))
    ensures var b := t.buckets[years[i]];
      NodesOf(Placements(t, years[..i + 1])) == nodes
        + NumberedFrom(ListPlacements(b.core, years[i], i, 0, CoreModule)
          + ListPlacements(b.optional, years[i], i, |b.core|, OptionalModule), |nodes| + 1)
  {
    var b := t.buckets[years[i]];
    LayOutNodesStep(t, years, i);
    NodesOfSplit(Placements(t, years[..i]),
      ListPlacements(b.core, years[i], i, 0, CoreModule) + ListPlacements(b.optional, years[i], i, |b.core|, OptionalModule));
  }

  /** Every sorted key of a valid table has a bucket. */
  lemma SortedKeyPresent(t: YearTable, i: nat)
    requires TableValid(t) && i < |SortKeys(t.keys)|
    ensures SortKeys(t.keys)[i] in t.buckets
  {
    assert SortKeys(t.keys)[i] in multiset(t.keys);
  }

  /** Lines 274-295: the years in string order, each laid out in turn. */
  method LayOutNodes(t: YearTable) returns (nodes: seq<SampleNode>)
    requires TableValid(t)
    ensures nodes == NodesOf(Placements(t, SortKeys(t.keys)))
  {
    var years := SortKeys(t.keys);
    nodes := [];
    var nodeId := 1;
    for yearIndex := 0 to |years|
      invariant nodes == NodesOf(Placements(t, years[..yearIndex]))
      invariant nodeId == |nodes| + 1
    {
      SortedKeyPresent(t, yearIndex);
      LayOutNodesNext(t, years, yearIndex, nodes);
      nodes, nodeId := LayOutYear(t.buckets[years[yearIndex]], years[yearIndex], yearIndex, nodes, nodeId);
    }
    assert years[..|years|] == years;
  }

  /** Lines 300-316: for each prerequisite entry of `node`, an edge from the first node with that code. */
  method LinkInto(nodes: seq<SampleNode>, node: SampleNode, edges0: seq<SampleEdge>) returns (edges: seq<SampleEdge>)
    ensures edges == edges0 + LinksOf(nodes, node, node.data.sampleModule.prerequisites)
  {
    var prereqs := node.data.sampleModule.prerequisites;
    edges := edges0;
    for k := 0 to |prereqs|
      invariant edges == edges0 + LinksOf(nodes, node, prereqs[..k])
    {
      assert prereqs[..k + 1][..k] == prereqs[..k];
      var source := FirstWithCode(nodes, prereqs[k]);
      if source.Some? {
        edges := edges + [EdgeOf(source.value, node)];
      }
    }
    assert prereqs[..|prereqs|] == prereqs;
  }

  /** Lines 298-318: for each node and each prerequisite entry, an edge from the first node with that code. */
  method LinkNodes(nodes: seq<SampleNode>) returns (edges: seq<SampleEdge>)
    ensures edges == EdgesFrom(nodes, nodes)
  {
    edges := [];
    for i := 0 to |nodes|
      invariant edges == EdgesFrom(nodes, nodes[..i])
    {
      assert nodes[..i + 1][..i] == nodes[..i];
      edges := LinkInto(nodes, nodes[i], edges);
    }
    assert nodes[..|nodes|] == nodes;
  }

  /** The graph route (lines 204-345). */
  method SampleGraphRoute(courses: seq<SampleCourse>, modules: seq<SampleModule>, code: string)
    returns (r: GraphResponse)
    ensures r == SampleGraphOf(courses, modules, code)
  {
    var course := FindSampleCourse(courses, code);
    if course.None? {
      return GraphMissing("Course with code '" + code + "' not found for graph generation");
    }
    var c := course.value;
    var coreTable := FillBuckets(modules, c.core, true, EmptyTable);
    BucketedValid(modules, c.core, true, EmptyTable);
    var table := FillBuckets(modules, c.optional, false, coreTable);
    BucketedValid(modules, c.optional, false, coreTable);
    var nodes := LayOutNodes(table);
    var edges := LinkNodes(nodes);
    r := GraphFound(c, nodes, edges,
      Metadata(|nodes|, |edges|, CountType(nodes, CoreModule), CountType(nodes, OptionalModule)));
  }
}
