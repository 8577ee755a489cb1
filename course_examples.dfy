/** The course graph route on the MATHBSC fixture. */
module CourseExamples {
  import opened Wrappers
  import opened Records
  import opened Graph
  import opened CourseGraph
  import opened SampleData

  lemma MathCoreCodes()
    ensures RefCodes(MathCourse().core) == ["MTH1001", "MTH1002", "MTH2001", "MTH2002", "MTH3001"]
  {
    var refs := MathCourse().core;
    assert |RefCodes(refs)| == 5;
  }

  lemma MathOptionalCodes()
    ensures RefCodes(MathCourse().optional) == ["MTH2003", "MTH3002", "MTH3003"]
  {
    var refs := MathCourse().optional;
    assert |RefCodes(refs)| == 3;
  }

  lemma PrereqEdgesSnoc(declared: seq<string>, fetched: seq<ModuleRecord>, m: ModuleRecord)
    ensures PrereqEdges(declared, fetched + [m])
      == PrereqEdges(declared, fetched) + PrereqEdgesOf(declared, m.moduleCode, m.prerequisites)
  {
    assert (fetched + [m])[..|fetched|] == fetched;
  }

  lemma PrereqEdgesOfOne(declared: seq<string>, target: string, p: string)
    requires p in declared
    ensures PrereqEdgesOf(declared, target, [p]) == [PrereqEdge(p, target)]
  {
    assert [p][..0] == [];
  }

  lemma PrereqEdgesPair(d: seq<string>, g: seq<ModuleRecord>)
    requires |g| == 2
    ensures PrereqEdges(d, g)
      == PrereqEdgesOf(d, g[0].moduleCode, g[0].prerequisites) + PrereqEdgesOf(d, g[1].moduleCode, g[1].prerequisites)
  {
    PrereqEdgesSnoc(d, [], g[0]);
    PrereqEdgesSnoc(d, [g[0]], g[1]);
    assert [g[0]] + [g[1]] == g;
  }

  /** Four fetched modules contribute their edges module after module. */
  lemma PrereqEdgesQuad(d: seq<string>, g: seq<ModuleRecord>)
    requires |g| == 4
    ensures PrereqEdges(d, g) == (PrereqEdgesOf(d, g[0].moduleCode, g[0].prerequisites) + PrereqEdgesOf(d, g[1].moduleCode, g[1].prerequisites))
                              + (PrereqEdgesOf(d, g[2].moduleCode, g[2].prerequisites) + PrereqEdgesOf(d, g[3].moduleCode, g[3].prerequisites))
  {
    PrereqEdgesPair(d, g[..2]);
    PrereqEdgesPair(d, g[2..]);
    assert g[..2][0] == g[0] && g[..2][1] == g[1];
    assert g[2..][0] == g[2] && g[2..][1] == g[3];
    PrereqEdgesAppend(d, g[..2], g[2..]);
    assert g[..2] + g[2..] == g;
  }

  /** Eight fetched modules contribute their edges module after module. */
  lemma EightModulesInOrder(d: seq<string>, f: seq<ModuleRecord>)
    requires |f| == 8
    ensures PrereqEdges(d, f)
      == ((PrereqEdgesOf(d, f[0].moduleCode, f[0].prerequisites) + PrereqEdgesOf(d, f[1].moduleCode, f[1].prerequisites))
          + (PrereqEdgesOf(d, f[2].moduleCode, f[2].prerequisites) + PrereqEdgesOf(d, f[3].moduleCode, f[3].prerequisites)))
       + ((PrereqEdgesOf(d, f[4].moduleCode, f[4].prerequisites) + PrereqEdgesOf(d, f[5].moduleCode, f[5].prerequisites))
          + (PrereqEdgesOf(d, f[6].moduleCode, f[6].prerequisites) + PrereqEdgesOf(d, f[7].moduleCode, f[7].prerequisites)))
  {
    PrereqEdgesQuad(d, f[..4]);
    PrereqEdgesQuad(d, f[4..]);
    assert f[..4][0] == f[0] && f[..4][1] == f[1] && f[..4][2] == f[2] && f[..4][3] == f[3];
    assert f[4..][0] == f[4] && f[4..][1] == f[5] && f[4..][2] == f[6] && f[4..][3] == f[7];
    PrereqEdgesAppend(d, f[..4], f[4..]);
    assert f[..4] + f[4..] == f;
  }

  /** The prerequisite edges of eight modules shaped like the fixture's, when the three listed prerequisites are declared. */
  lemma EightModuleEdges(d: seq<string>, f: seq<ModuleRecord>)
    requires "MTH1001" in d && "MTH1002" in d && "MTH2001" in d
    requires |f| == 8
    requires f[0].moduleCode == "MTH1001" && f[0].prerequisites == []
    requires f[1].moduleCode == "MTH1002" && f[1].prerequisites == []
    requires f[2].moduleCode == "MTH2001" && f[2].prerequisites == ["MTH1001"]
    requires f[3].moduleCode == "MTH2002" && f[3].prerequisites == ["MTH1001"]
    requires f[4].moduleCode == "MTH2003" && f[4].prerequisites == ["MTH1001"]
    requires f[5].moduleCode == "MTH3001" && f[5].prerequisites == ["MTH2001"]
    requires f[6].moduleCode == "MTH3002" && f[6].prerequisites == ["MTH2001"]
    requires f[7].moduleCode == "MTH3003" && f[7].prerequisites == ["MTH2001", "MTH1002"]
    ensures PrereqEdges(d, f) == [
      PrereqEdge("MTH1001", "MTH2001"), PrereqEdge("MTH1001", "MTH2002"), PrereqEdge("MTH1001", "MTH2003"),
      PrereqEdge("MTH2001", "MTH3001"), PrereqEdge("MTH2001", "MTH3002"),
      PrereqEdge("MTH2001", "MTH3003"), PrereqEdge("MTH1002", "MTH3003")]
  {
    EightModulesInOrder(d, f);
    PrereqEdgesOfOne(d, "MTH2001", "MTH1001");
    PrereqEdgesOfOne(d, "MTH2002", "MTH1001");
    PrereqEdgesOfOne(d, "MTH2003", "MTH1001");
    PrereqEdgesOfOne(d, "MTH3001", "MTH2001");
    PrereqEdgesOfOne(d, "MTH3002", "MTH2001");
    PrereqEdgesOfOne(d, "MTH3003", "MTH2001");
    assert PrereqEdgesOf(d, "MTH3003", ["MTH2001", "MTH1002"])
      == [PrereqEdge("MTH2001", "MTH3003"), PrereqEdge("MTH1002", "MTH3003")] by {
      assert ["MTH2001", "MTH1002"][..1] == ["MTH2001"];
    }
  }

  /** The membership edge kinds of modules shaped like the fixture's: five core, three optional. */
  lemma MembershipKinds(c: CourseRecord, f: seq<ModuleRecord>)
    requires RefCodes(c.core) == ["MTH1001", "MTH1002", "MTH2001", "MTH2002", "MTH3001"]
    requires |f| == 8
    requires f[0].moduleCode == "MTH1001" && f[1].moduleCode == "MTH1002" && f[2].moduleCode == "MTH2001"
    requires f[3].moduleCode == "MTH2002" && f[4].moduleCode == "MTH2003" && f[5].moduleCode == "MTH3001"
    requires f[6].moduleCode == "MTH3002" && f[7].moduleCode == "MTH3003"
    ensures var mem := MembershipEdges(c, f);
      && |mem| == 8
      && mem[0].kind == Core && mem[1].kind == Core && mem[2].kind == Core && mem[3].kind == Core
      && mem[4].kind == Optional && mem[5].kind == Core && mem[6].kind == Optional && mem[7].kind == Optional
  {
    var cc := RefCodes(c.core);
    assert "MTH2003" !in cc by { assert forall i :: 0 <= i < |cc| ==> cc[i][4..] != "2003"; }
    assert "MTH3002" !in cc by { assert forall i :: 0 <= i < |cc| ==> cc[i][4..] != "3002"; }
    assert "MTH3003" !in cc by { assert forall i :: 0 <= i < |cc| ==> cc[i][4..] != "3003"; }
    assert cc[0] == "MTH1001" && cc[1] == "MTH1002" && cc[2] == "MTH2001" && cc[3] == "MTH2002" && cc[4] == "MTH3001";
  }

  /** The route's answer for a stored course in terms of its fetched modules and prerequisite edges. */
  lemma GraphOf(store: Store, code: string, c: CourseRecord, f: seq<ModuleRecord>, pe: seq<Edge>)
    requires code in store.courses && store.courses[code] == c
    requires FetchedModules(store, c) == f
    requires PrereqEdges(DeclaredCodes(c), f) == pe
    ensures BuildGraph(store, code) == Ok(CourseGraphData(c, GraphNodes(c, f), MembershipEdges(c, f) + pe))
  {
  }

  /** A course declaring MATHBSC's references lists the five core codes, then the three optional ones. */
  lemma MathShapedDeclared(c: CourseRecord)
    requires RefCodes(c.core) == ["MTH1001", "MTH1002", "MTH2001", "MTH2002", "MTH3001"]
    requires RefCodes(c.optional) == ["MTH2003", "MTH3002", "MTH3003"]
    ensures DeclaredCodes(c) == ["MTH1001", "MTH1002", "MTH2001", "MTH2002", "MTH3001", "MTH2003", "MTH3002", "MTH3003"]
  {
  }

  /** MATHBSC's code list fetches all eight modules of a collection holding exactly those codes, in store order. */
  lemma MathShapedFetch(d: seq<string>, ms: seq<ModuleRecord>)
    requires d == ["MTH1001", "MTH1002", "MTH2001", "MTH2002", "MTH3001", "MTH2003", "MTH3002", "MTH3003"]
    requires |ms| == 8
    requires ms[0].moduleCode == "MTH1001"
    requires ms[1].moduleCode == "MTH1002"
    requires ms[2].moduleCode == "MTH2001"
    requires ms[3].moduleCode == "MTH2002"
    requires ms[4].moduleCode == "MTH2003"
    requires ms[5].moduleCode == "MTH3001"
    requires ms[6].moduleCode == "MTH3002"
    requires ms[7].moduleCode == "MTH3003"
    ensures FindIn(ms, d) == ms
  {
    forall i | 0 <= i < |ms| ensures ms[i].moduleCode in d {
      if i == 4 { assert d[5] == ms[4].moduleCode; }
      else if i == 5 { assert d[4] == ms[5].moduleCode; }
      else { assert d[i] == ms[i].moduleCode; }
    }
    FindInAll(ms, d);
  }

  /**
   * The graph of any store shaped like the fixture: MATHBSC declares five core
   * and three optional codes and the collection holds exactly those eight
   * modules with the fixture's prerequisite lists.
   */
  lemma MathShapedGraph(store: Store, c: CourseRecord, ms: seq<ModuleRecord>)
    requires "MATHBSC" in store.courses && store.courses["MATHBSC"] == c && store.modules == ms
    requires RefCodes(c.core) == ["MTH1001", "MTH1002", "MTH2001", "MTH2002", "MTH3001"]
    requires RefCodes(c.optional) == ["MTH2003", "MTH3002", "MTH3003"]
    requires |ms| == 8
    requires ms[0].moduleCode == "MTH1001" && ms[0].prerequisites == []
    requires ms[1].moduleCode == "MTH1002" && ms[1].prerequisites == []
    requires ms[2].moduleCode == "MTH2001" && ms[2].prerequisites == ["MTH1001"]
    requires ms[3].moduleCode == "MTH2002" && ms[3].prerequisites == ["MTH1001"]
    requires ms[4].moduleCode == "MTH2003" && ms[4].prerequisites == ["MTH1001"]
    requires ms[5].moduleCode == "MTH3001" && ms[5].prerequisites == ["MTH2001"]
    requires ms[6].moduleCode == "MTH3002" && ms[6].prerequisites == ["MTH2001"]
    requires ms[7].moduleCode == "MTH3003" && ms[7].prerequisites == ["MTH2001", "MTH1002"]
    ensures BuildGraph(store, "MATHBSC").Ok?
    ensures var g := BuildGraph(store, "MATHBSC").value;
      && |g.nodes| == 9
      && |g.edges| == 15
      && g.edges[0].kind == Core && g.edges[1].kind == Core && g.edges[2].kind == Core && g.edges[3].kind == Core
      && g.edges[4].kind == Optional && g.edges[5].kind == Core && g.edges[6].kind == Optional && g.edges[7].kind == Optional
      && g.edges[8..] == [
           PrereqEdge("MTH1001", "MTH2001"), PrereqEdge("MTH1001", "MTH2002"), PrereqEdge("MTH1001", "MTH2003"),
           PrereqEdge("MTH2001", "MTH3001"), PrereqEdge("MTH2001", "MTH3002"),
           PrereqEdge("MTH2001", "MTH3003"), PrereqEdge("MTH1002", "MTH3003")]
  {
    var d := DeclaredCodes(c);
    MathShapedDeclared(c);
    MathShapedFetch(d, ms);
    EightModuleEdges(d, ms);
    MembershipKinds(c, ms);
    GraphOf(store, "MATHBSC", c, ms, PrereqEdges(d, ms));
    var g := BuildGraph(store, "MATHBSC").value;
    assert g.edges == MembershipEdges(c, ms) + PrereqEdges(d, ms);
    assert |MembershipEdges(c, ms)| == 8;
  }

  /**
   * MATHBSC in the fixture: nine nodes (the course and its eight modules),
   * eight membership edges of which five are core and three optional, then
   * seven prerequisite edges.
   */
  lemma MathGraph()
    ensures BuildGraph(MathStore(), "MATHBSC").Ok?
    ensures var g := BuildGraph(MathStore(), "MATHBSC").value;
      && |g.nodes| == 9
      && |g.edges| == 15
      && g.edges[0].kind == Core && g.edges[1].kind == Core && g.edges[2].kind == Core && g.edges[3].kind == Core
      && g.edges[4].kind == Optional && g.edges[5].kind == Core && g.edges[6].kind == Optional && g.edges[7].kind == Optional
      && g.edges[8..] == [
           PrereqEdge("MTH1001", "MTH2001"), PrereqEdge("MTH1001", "MTH2002"), PrereqEdge("MTH1001", "MTH2003"),
           PrereqEdge("MTH2001", "MTH3001"), PrereqEdge("MTH2001", "MTH3002"),
           PrereqEdge("MTH2001", "MTH3003"), PrereqEdge("MTH1002", "MTH3003")]
  {
    MathCoreCodes();
    MathOptionalCodes();
    MathShapedGraph(MathStore(), MathCourse(), MathModules());
  }
}
