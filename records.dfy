/**
 * The stored entities of backend/src/models/courseModel.js and the record
 * store the route handlers query. The store is the module collection in its
 * natural (insertion) order plus the courses keyed by code; `findOne` and the
 * `$in` query become the functions below.
 */
module Records {
  import opened Wrappers

  datatype Semester = Autumn | Spring | Summer | FullYear

  datatype Assessment = Assessment(methodName: string, percentage: int)

  /** A stored Module document (courseModel.js:3-56, bookkeeping fields left out). */
  datatype ModuleRecord = ModuleRecord(
    moduleCode: string,
    moduleTitle: string,
    creditValue: int,
    prerequisites: seq<string>,
    corequisites: seq<string>,
    summaryOfContents: string,
    intendedLearningOutcomes: seq<string>,
    assessmentMethods: seq<Assessment>,
    courseYear: Option<int>,
    semester: Semester,
    isOptional: bool)

  /** One `{ module, year }` entry (`code` is the `module` field) of a course's core or optional list. */
  datatype ModuleRef = ModuleRef(code: string, year: Option<int>)

  datatype Degree = BSc | BA | BEng | MSc | MA | MEng | PhD | MRes

  /** A stored Course document (courseModel.js:61-116). */
  datatype CourseRecord = CourseRecord(
    courseName: string,
    courseCode: string,
    degree: Degree,
    department: string,
    duration: int,
    core: seq<ModuleRef>,
    optional: seq<ModuleRef>,
    entryRequirements: Option<string>,
    description: Option<string>,
    url: string)

  /** The database: courses by code, and the module collection in natural order. */
  datatype Store = Store(courses: map<string, CourseRecord>, modules: seq<ModuleRecord>)

  /** The unique index on `moduleCode`: no two stored modules share a code. */
  predicate UniqueCodes(modules: seq<ModuleRecord>) {
    forall i, j :: 0 <= i < j < |modules| ==> modules[i].moduleCode != modules[j].moduleCode
  }

  /** The codes of a list of module references, in list order (`refs.map(m => m.module)`). */
  function RefCodes(refs: seq<ModuleRef>): (r: seq<string>)
    ensures |r| == |refs|
    ensures forall i :: 0 <= i < |refs| ==> r[i] == refs[i].code
  {
    if refs == [] then [] else [refs[0].code] + RefCodes(refs[1..])
  }

  /** `Course.findOne({ courseCode })`. */
  function FindCourse(store: Store, code: string): (r: Option<CourseRecord>)
    ensures r.Some? <==> code in store.courses
  {
    if code in store.courses then Some(store.courses[code]) else None
  }

  /** `Module.findOne({ moduleCode })`: the first stored module with that code. */
  function FindModule(modules: seq<ModuleRecord>, code: string): (r: Option<ModuleRecord>)
    ensures r.Some? <==> exists i :: 0 <= i < |modules| && modules[i].moduleCode == code
    ensures r.Some? ==> r.value in modules && r.value.moduleCode == code
  {
    if modules == [] then None
    else if modules[0].moduleCode == code then Some(modules[0])
    else FindModule(modules[1..], code)
  }

  /** `Module.find({ moduleCode: { $in: codes } })`: stored modules whose code is listed, in store order. */
  function FindIn(modules: seq<ModuleRecord>, codes: seq<string>): (r: seq<ModuleRecord>)
    ensures forall m :: m in r <==> m in modules && m.moduleCode in codes
    ensures |r| <= |modules|
  {
    if modules == [] then []
    else (if modules[0].moduleCode in codes then [modules[0]] else []) + FindIn(modules[1..], codes)
  }

  /** Each stored module is returned at most once: with the unique index, fetched codes are distinct. */
  lemma {:induction false} FindInUnique(modules: seq<ModuleRecord>, codes: seq<string>)
    requires UniqueCodes(modules)
    ensures UniqueCodes(FindIn(modules, codes))
  {
    if modules != [] {
      FindInUnique(modules[1..], codes);
      var rest := FindIn(modules[1..], codes);
      assert forall m :: m in rest ==> m in modules[1..];
    }
  }

  /** Under the unique index, `findOne` by a stored module's code returns that module. */
  lemma {:induction false} FindModuleUnique(modules: seq<ModuleRecord>, k: nat)
    requires k < |modules| && UniqueCodes(modules)
    ensures FindModule(modules, modules[k].moduleCode) == Some(modules[k])
  {
    if k > 0 {
      assert modules[0].moduleCode != modules[k].moduleCode;
      FindModuleUnique(modules[1..], k - 1);
    }
  }

  /** When every stored module's code is listed, the `$in` query returns the whole collection. */
  lemma {:induction false} FindInAll(modules: seq<ModuleRecord>, codes: seq<string>)
    requires forall i :: 0 <= i < |modules| ==> modules[i].moduleCode in codes
    ensures FindIn(modules, codes) == modules
  {
    if modules != [] {
      FindInAll(modules[1..], codes);
      assert [modules[0]] + modules[1..] == modules;
    }
  }
}
