/** Concrete runs of the prerequisite chain walk. */
module ChainExamples {
  import opened Wrappers
  import opened Records
  import opened Graph
  import opened PrerequisiteChain
  import opened SampleData

  // One-step unfoldings of the walk, stated over an arbitrary module list.

  lemma VisitSeen(ms: seq<ModuleRecord>, code: string, depth: nat, st: ChainState)
    requires depth <= MaxDepth + 1 && code in st.visited
    ensures Visit(ms, code, depth, st) == st
  {
  }

  lemma VisitStored(ms: seq<ModuleRecord>, code: string, depth: nat, st: ChainState, m: ModuleRecord)
    requires depth <= MaxDepth && code !in st.visited && FindModule(ms, code) == Some(m)
    ensures Visit(ms, code, depth, st)
      == VisitAll(ms, code, m.prerequisites, depth + 1,
                  ChainState(st.visited + {code}, st.nodes + [ChainNodeOf(m, depth)], st.edges))
  {
  }

  lemma VisitAllEmpty(ms: seq<ModuleRecord>, target: string, depth: nat, st: ChainState)
    requires depth <= MaxDepth + 1
    ensures VisitAll(ms, target, [], depth, st) == st
  {
  }

  lemma VisitAllSnoc(ms: seq<ModuleRecord>, target: string, prereqs: seq<string>, p: string, depth: nat, st: ChainState)
    requires depth <= MaxDepth + 1
    ensures
      var before := VisitAll(ms, target, prereqs, depth, st);
      VisitAll(ms, target, prereqs + [p], depth, st)
        == Visit(ms, p, depth, before.(edges := before.edges + [PrereqEdge(p, target)]))
  {
    assert (prereqs + [p])[..|prereqs|] == prereqs;
  }

  // The states of the MTH3003 run, after each node is pushed.

  function N0(): Node { ChainNodeOf(Mth3003(), 0) }
  function N1(): Node { ChainNodeOf(Mth2001(), 1) }
  function N2(): Node { ChainNodeOf(Mth1001(), 2) }
  function N3(): Node { ChainNodeOf(Mth1002(), 1) }
  function E1(): Edge { PrereqEdge("MTH2001", "MTH3003") }
  function E2(): Edge { PrereqEdge("MTH1001", "MTH2001") }
  function E3(): Edge { PrereqEdge("MTH1002", "MTH3003") }
  function S1(): ChainState { ChainState({"MTH3003"}, [N0()], []) }
  function S2(): ChainState { ChainState({"MTH3003", "MTH2001"}, [N0(), N1()], [E1()]) }
  function S3(): ChainState { ChainState({"MTH3003", "MTH2001", "MTH1001"}, [N0(), N1(), N2()], [E1(), E2()]) }
  function S4(): ChainState {
    ChainState({"MTH3003", "MTH2001", "MTH1001", "MTH1002"}, [N0(), N1(), N2(), N3()], [E1(), E2(), E3()])
  }

  /** MTH2001 at depth 1 pushes its edge from MTH1001 and visits MTH1001 at depth 2. */
  lemma Mth2001Step(ms: seq<ModuleRecord>)
    requires FindModule(ms, "MTH2001") == Some(Mth2001())
    requires FindModule(ms, "MTH1001") == Some(Mth1001())
    ensures Visit(ms, "MTH2001", 1, S1().(edges := [E1()])) == S3()
  {
    VisitStored(ms, "MTH1001", 2, S2().(edges := [E1(), E2()]), Mth1001());
    assert ChainState(S2().visited + {"MTH1001"}, S2().nodes + [N2()], [E1(), E2()]) == S3();
    VisitAllEmpty(ms, "MTH1001", 3, S3());
    VisitAllEmpty(ms, "MTH2001", 2, S2());
    VisitAllSnoc(ms, "MTH2001", [], "MTH1001", 2, S2());
    assert VisitAll(ms, "MTH2001", ["MTH1001"], 2, S2()) == S3();
    VisitStored(ms, "MTH2001", 1, S1().(edges := [E1()]), Mth2001());
    assert ChainState(S1().visited + {"MTH2001"}, S1().nodes + [N1()], [E1()]) == S2();
  }

  /** MTH1002 at depth 1 has no prerequisites: one node, no edge. */
  lemma Mth1002Step(ms: seq<ModuleRecord>)
    requires FindModule(ms, "MTH1002") == Some(Mth1002())
    ensures Visit(ms, "MTH1002", 1, S3().(edges := [E1(), E2(), E3()])) == S4()
  {
    VisitStored(ms, "MTH1002", 1, S3().(edges := [E1(), E2(), E3()]), Mth1002());
    assert ChainState(S3().visited + {"MTH1002"}, S3().nodes + [N3()], [E1(), E2(), E3()]) == S4();
    VisitAllEmpty(ms, "MTH1002", 2, S4());
  }

  /** MTH3003's prerequisites at depth 1: MTH2001 with its own chain, then MTH1002. */
  lemma Mth3003Children(ms: seq<ModuleRecord>)
    requires FindModule(ms, "MTH2001") == Some(Mth2001())
    requires FindModule(ms, "MTH1001") == Some(Mth1001())
    requires FindModule(ms, "MTH1002") == Some(Mth1002())
    ensures VisitAll(ms, "MTH3003", ["MTH2001", "MTH1002"], 1, S1()) == S4()
  {
    Mth2001Step(ms);
    Mth1002Step(ms);
    VisitAllEmpty(ms, "MTH3003", 1, S1());
    VisitAllSnoc(ms, "MTH3003", [], "MTH2001", 1, S1());
    assert VisitAll(ms, "MTH3003", ["MTH2001"], 1, S1()) == S3();
    VisitAllSnoc(ms, "MTH3003", ["MTH2001"], "MTH1002", 1, S1());
  }

  /** The MTH3003 run, over any module list in which the four codes find the fixture's records. */
  lemma Mth3003ChainIn(ms: seq<ModuleRecord>)
    requires FindModule(ms, "MTH3003") == Some(Mth3003())
    requires FindModule(ms, "MTH2001") == Some(Mth2001())
    requires FindModule(ms, "MTH1001") == Some(Mth1001())
    requires FindModule(ms, "MTH1002") == Some(Mth1002())
    ensures Visit(ms, "MTH3003", 0, ChainState({}, [], [])) == S4()
  {
    var start := ChainState({}, [], []);
    VisitStored(ms, "MTH3003", 0, start, Mth3003());
    assert ChainState(start.visited + {"MTH3003"}, start.nodes + [ChainNodeOf(Mth3003(), 0)], start.edges) == S1();
    Mth3003Prerequisites();
    Mth3003Children(ms);
  }

  lemma Mth3003Prerequisites()
    ensures Mth3003().prerequisites == ["MTH2001", "MTH1002"]
  {
  }

  /**
   * The chain of MTH3003 in the fixture: MTH3003 at depth 0, then MTH2001 and
   * MTH1001 down the first prerequisite, then MTH1002; three edges in push order.
   */
  lemma Mth3003Chain()
    ensures ChainGraphOf(MathModules(), "MTH3003") == Ok(ChainGraph(
      [ChainNodeOf(Mth3003(), 0), ChainNodeOf(Mth2001(), 1), ChainNodeOf(Mth1001(), 2), ChainNodeOf(Mth1002(), 1)],
      [PrereqEdge("MTH2001", "MTH3003"), PrereqEdge("MTH1001", "MTH2001"), PrereqEdge("MTH1002", "MTH3003")]))
  {
    var ms := MathModules();
    MathModulesUnique();
    FindModuleUnique(ms, 7);
    FindModuleUnique(ms, 2);
    FindModuleUnique(ms, 0);
    FindModuleUnique(ms, 1);
    Mth3003ChainIn(ms);
  }

  /** A stored module that only has a code and a prerequisite list worth noting. */
  function Stub(code: string, prereqs: seq<string>): ModuleRecord {
    ModuleRecord(code, code, 15, prereqs, [], "", [], [], None, Autumn, false)
  }

  // A and B list each other as prerequisites.

  function CycleModules(): seq<ModuleRecord> { [Stub("A", ["B"]), Stub("B", ["A"])] }

  /**
   * The walk terminates on the cycle A <-> B: one node each, A first at depth
   * 0 and B at depth 1, and both edges, the second pushed even though A is
   * already visited.
   */
  lemma CycleTerminates()
    ensures ChainGraphOf(CycleModules(), "A") == Ok(ChainGraph(
      [ChainNodeOf(Stub("A", ["B"]), 0), ChainNodeOf(Stub("B", ["A"]), 1)],
      [PrereqEdge("B", "A"), PrereqEdge("A", "B")]))
  {
    var ms := CycleModules();
    var a, b := Stub("A", ["B"]), Stub("B", ["A"]);
    var na, nb := ChainNodeOf(a, 0), ChainNodeOf(b, 1);
    var eba, eab := PrereqEdge("B", "A"), PrereqEdge("A", "B");
    assert FindModule(ms, "A") == Some(a);
    assert FindModule(ms, "B") == Some(b);
    var s1 := ChainState({"A"}, [na], []);
    var s2 := ChainState({"A", "B"}, [na, nb], [eba]);
    var s3 := ChainState({"A", "B"}, [na, nb], [eba, eab]);
    VisitSeen(ms, "A", 2, s3);
    VisitAllEmpty(ms, "B", 2, s2);
    VisitAllSnoc(ms, "B", [], "A", 2, s2);
    assert VisitAll(ms, "B", ["A"], 2, s2) == s3;
    VisitStored(ms, "B", 1, s1.(edges := [eba]), b);
    assert ChainState(s1.visited + {"B"}, s1.nodes + [nb], [eba]) == s2;
    VisitAllEmpty(ms, "A", 1, s1);
    VisitAllSnoc(ms, "A", [], "B", 1, s1);
    assert VisitAll(ms, "A", ["B"], 1, s1) == s3;
    VisitStored(ms, "A", 0, ChainState({}, [], []), a);
    assert ChainState({} + {"A"}, [] + [na], []) == s1;
  }

  // X lists Y then Z; Y lists Z.

  function DiamondModules(): seq<ModuleRecord> { [DX(), DY(), DZ()] }

  function DX(): ModuleRecord { Stub("X", ["Y", "Z"]) }
  function DY(): ModuleRecord { Stub("Y", ["Z"]) }
  function DZ(): ModuleRecord { Stub("Z", []) }
  function EYX(): Edge { PrereqEdge("Y", "X") }
  function EZY(): Edge { PrereqEdge("Z", "Y") }
  function EZX(): Edge { PrereqEdge("Z", "X") }
  function D1(): ChainState { ChainState({"X"}, [ChainNodeOf(DX(), 0)], []) }
  function D2(): ChainState { ChainState({"X", "Y"}, [ChainNodeOf(DX(), 0), ChainNodeOf(DY(), 1)], [EYX()]) }
  function D3(): ChainState {
    ChainState({"X", "Y", "Z"}, [ChainNodeOf(DX(), 0), ChainNodeOf(DY(), 1), ChainNodeOf(DZ(), 2)], [EYX(), EZY()])
  }
  function D4(): ChainState { D3().(edges := [EYX(), EZY(), EZX()]) }

  lemma DiamondFinds()
    ensures FindModule(DiamondModules(), "X") == Some(DX())
    ensures FindModule(DiamondModules(), "Y") == Some(DY())
    ensures FindModule(DiamondModules(), "Z") == Some(DZ())
  {
  }

  /** Y at depth 1 pushes its edge from Z and visits Z at depth 2. */
  lemma DiamondYStep()
    ensures Visit(DiamondModules(), "Y", 1, D1().(edges := [EYX()])) == D3()
  {
    var ms := DiamondModules();
    DiamondFinds();
    VisitAllEmpty(ms, "Z", 3, D3());
    VisitStored(ms, "Z", 2, D2().(edges := [EYX(), EZY()]), DZ());
    assert ChainState(D2().visited + {"Z"}, D2().nodes + [ChainNodeOf(DZ(), 2)], [EYX(), EZY()]) == D3();
    VisitAllEmpty(ms, "Y", 2, D2());
    VisitAllSnoc(ms, "Y", [], "Z", 2, D2());
    assert VisitAll(ms, "Y", ["Z"], 2, D2()) == D3();
    VisitStored(ms, "Y", 1, D1().(edges := [EYX()]), DY());
    assert ChainState(D1().visited + {"Y"}, D1().nodes + [ChainNodeOf(DY(), 1)], [EYX()]) == D2();
  }

  /** X's prerequisites at depth 1: Y with its chain, then Z, already visited, which only adds its edge. */
  lemma DiamondXChildren()
    ensures VisitAll(DiamondModules(), "X", ["Y", "Z"], 1, D1()) == D4()
  {
    var ms := DiamondModules();
    DiamondYStep();
    VisitSeen(ms, "Z", 1, D4());
    VisitAllEmpty(ms, "X", 1, D1());
    VisitAllSnoc(ms, "X", [], "Y", 1, D1());
    assert VisitAll(ms, "X", ["Y"], 1, D1()) == D3();
    VisitAllSnoc(ms, "X", ["Y"], "Z", 1, D1());
  }

  /**
   * Z keeps the depth of its first pre-order visit (2, through Y) although X
   * lists it directly (depth 1); the direct edge Z -> X is still pushed.
   */
  lemma FirstVisitDepth()
    ensures ChainGraphOf(DiamondModules(), "X") == Ok(ChainGraph(
      [ChainNodeOf(Stub("X", ["Y", "Z"]), 0), ChainNodeOf(Stub("Y", ["Z"]), 1), ChainNodeOf(Stub("Z", []), 2)],
      [PrereqEdge("Y", "X"), PrereqEdge("Z", "Y"), PrereqEdge("Z", "X")]))
  {
    var ms := DiamondModules();
    DiamondFinds();
    DiamondXChildren();
    VisitStored(ms, "X", 0, ChainState({}, [], []), DX());
    assert ChainState({} + {"X"}, [] + [ChainNodeOf(DX(), 0)], []) == D1();
  }

  /** An unknown root is answered with 404 "Module not found". */
  lemma UnknownRoot()
    ensures ChainGraphOf(MathModules(), "MTH9999") == NotFound("Module not found")
  {
    var ms := MathModules();
    forall i | 0 <= i < |ms| ensures ms[i].moduleCode != "MTH9999" {
      assert ms[i].moduleCode[3] != '9';
    }
  }
}
