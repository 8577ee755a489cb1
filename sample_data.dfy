/**
 * The Mathematics half of the fixture in backend/src/scrapers/sampleData.js
 * (the MATHBSC course and the eight MTH modules), used by the concrete
 * witness lemmas of the two graph routes. Codes, titles, credits,
 * prerequisites, years, semesters, assessments and flags are the fixture's;
 * the free-text fields (summaries, learning outcomes, course description and
 * URL) are left empty, since no route branches on them.
 */
module SampleData {
  import opened Wrappers
  import opened Records

  function Mth1001(): ModuleRecord {
    ModuleRecord("MTH1001", "Calculus and Linear Algebra", 20, [], [], "", [],
      [Assessment("Examination", 70), Assessment("Coursework", 30)],
      Some(1), FullYear, false)
  }

  function Mth1002(): ModuleRecord {
    ModuleRecord("MTH1002", "Probability and Statistics", 20, [], [], "", [],
      [Assessment("Examination", 80), Assessment("Coursework", 20)],
      Some(1), FullYear, false)
  }

  function Mth2001(): ModuleRecord {
    ModuleRecord("MTH2001", "Analysis", 20, ["MTH1001"], [], "", [],
      [Assessment("Examination", 100)],
      Some(2), Autumn, false)
  }

  function Mth2002(): ModuleRecord {
    ModuleRecord("MTH2002", "Abstract Algebra", 20, ["MTH1001"], [], "", [],
      [Assessment("Examination", 70), Assessment("Coursework", 30)],
      Some(2), Spring, false)
  }

  function Mth2003(): ModuleRecord {
    ModuleRecord("MTH2003", "Numerical Methods", 15, ["MTH1001"], [], "", [],
      [Assessment("Coursework", 100)],
      Some(2), Spring, true)
  }

  function Mth3001(): ModuleRecord {
    ModuleRecord("MTH3001", "Complex Analysis", 20, ["MTH2001"], [], "", [],
      [Assessment("Examination", 100)],
      Some(3), Autumn, false)
  }

  function Mth3002(): ModuleRecord {
    ModuleRecord("MTH3002", "Differential Equations", 20, ["MTH2001"], [], "", [],
      [Assessment("Examination", 80), Assessment("Coursework", 20)],
      Some(3), Spring, true)
  }

  function Mth3003(): ModuleRecord {
    ModuleRecord("MTH3003", "Mathematical Modeling", 15, ["MTH2001", "MTH1002"], [], "", [],
      [Assessment("Coursework", 100)],
      Some(3), FullYear, true)
  }

  /** The module collection in fixture order. */
  function MathModules(): seq<ModuleRecord> {
    [Mth1001(), Mth1002(), Mth2001(), Mth2002(), Mth2003(), Mth3001(), Mth3002(), Mth3003()]
  }

  function MathCourse(): CourseRecord {
    CourseRecord("Mathematics", "MATHBSC", BSc, "Mathematics and Statistics", 3,
      [ModuleRef("MTH1001", Some(1)), ModuleRef("MTH1002", Some(1)), ModuleRef("MTH2001", Some(2)),
       ModuleRef("MTH2002", Some(2)), ModuleRef("MTH3001", Some(3))],
      [ModuleRef("MTH2003", Some(2)), ModuleRef("MTH3002", Some(3)), ModuleRef("MTH3003", Some(3))],
      None,
      Some(""),
      "")
  }

  function MathStore(): Store {
    Store(map["MATHBSC" := MathCourse()], MathModules())
  }

  /** The fixture's module codes are distinct, as the unique index demands. */
  lemma MathModulesUnique()
    ensures UniqueCodes(MathModules())
  {
    var ms := MathModules();
    forall i, j | 0 <= i < j < |ms| ensures ms[i].moduleCode != ms[j].moduleCode {
      assert ms[i].moduleCode[3..] != ms[j].moduleCode[3..];
    }
  }
}
