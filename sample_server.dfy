/**
 * The sample-data routes of backend/src/server-standalone.js: the
 * case-insensitive course lookup, the course detail route and the two list
 * routes with their filters and `limit`/`offset` pagination.
 *
 * The objects are the ones this server reads, field by field: a course or
 * module field the server looks up may be missing from the object, which is
 * `None` here. JavaScript truthiness decides the `||` defaults and the `&&`
 * guards, so an empty string and the number 0 count as missing there.
 */
module SampleServer {
  import opened Wrappers
  import opened Text
  import opened Seqs
  import opened Records

  /** A module object, through the fields this server reads. */
  datatype SampleModule = SampleModule(
    moduleCode: string,
    title: Option<string>,
    credits: Option<int>,
    level: Option<int>,
    description: Option<string>,
    prerequisites: seq<string>)

  /** A course object; a missing `modules` object behaves as two empty lists. */
  datatype SampleCourse = SampleCourse(
    courseName: Option<string>,
    courseCode: Option<string>,
    degree: Option<string>,
    department: Option<string>,
    duration: Option<int>,
    url: Option<string>,
    core: seq<ModuleRef>,
    optional: seq<ModuleRef>)

  /** Truthiness of an optional string: present and non-empty. */
  predicate Truthy(s: Option<string>) {
    s.Some? && s.value != ""
  }

  /** `s || d` for an optional string. */
  function TextOr(s: Option<string>, d: string): string {
    if Truthy(s) then s.value else d
  }

  /** `n || d` for an optional number: a missing value and 0 both give `d`. */
  function NumberOr(n: Option<int>, d: int): int {
    if n.Some? && n.value != 0 then n.value else d
  }

  /** `c.courseCode && c.courseCode.toLowerCase() === code.toLowerCase()`. */
  predicate CodeMatches(c: SampleCourse, code: string) {
    Truthy(c.courseCode) && Lower(c.courseCode.value) == Lower(code)
  }

  /** `sampleCourses.find(...)` with the case-insensitive code test (lines 156-158 and 207-209). */
  function FindSampleCourse(courses: seq<SampleCourse>, code: string): (r: Option<SampleCourse>)
    ensures r.Some? <==> exists i :: 0 <= i < |courses| && CodeMatches(courses[i], code)
    ensures r.Some? ==> r.value in courses && CodeMatches(r.value, code)
  {
    if courses == [] then None
    else if CodeMatches(courses[0], code) then Some(courses[0])
    else
      var r := FindSampleCourse(courses[1..], code);
      assert r.Some? ==> r.value in courses;
      assert forall i :: 1 <= i < |courses| ==> courses[i] == courses[1..][i - 1];
      r
  }

  /** The lookup answers with the first course whose code matches. */
  lemma {:induction false} FindSampleCourseFirst(courses: seq<SampleCourse>, code: string, k: nat)
    requires k < |courses| && CodeMatches(courses[k], code)
    requires forall j :: 0 <= j < k ==> !CodeMatches(courses[j], code)
    ensures FindSampleCourse(courses, code) == Some(courses[k])
  {
    if k > 0 {
      FindSampleCourseFirst(courses[1..], code, k - 1);
    }
  }

  /** Codes that differ only in letter case find the same course. */
  lemma {:induction false} FindSampleCourseIgnoresCase(courses: seq<SampleCourse>, a: string, b: string)
    requires Lower(a) == Lower(b)
    ensures FindSampleCourse(courses, a) == FindSampleCourse(courses, b)
  {
    if courses != [] {
      FindSampleCourseIgnoresCase(courses[1..], a, b);
    }
  }

  /** `sampleModules.find(m => m.moduleCode === code)`: the first module carrying the code. */
  function FindSampleModule(modules: seq<SampleModule>, code: string): (r: Option<SampleModule>)
    ensures r.Some? <==> exists i :: 0 <= i < |modules| && modules[i].moduleCode == code
    ensures r.Some? ==> r.value in modules && r.value.moduleCode == code
  {
    if modules == [] then None
    else if modules[0].moduleCode == code then Some(modules[0])
    else
      var r := FindSampleModule(modules[1..], code);
      assert forall i :: 1 <= i < |modules| ==> modules[i] == modules[1..][i - 1];
      r
  }

  // ---------------------------------------------------------------------
  // GET /api/courses/:courseCode

  datatype ModuleType = CoreModule | OptionalModule

  /** One entry of the 404 answer's `suggestions`. */
  datatype Suggestion = Suggestion(courseCode: Option<string>, courseName: Option<string>)

  /** A related module with its `type`. */
  datatype TypedModule = TypedModule(sampleModule: SampleModule, moduleType: ModuleType)

  /** The detail answer: the course with its three counts, and the related modules. */
  datatype CourseDetail = CourseDetail(
    course: SampleCourse,
    moduleCount: nat,
    coreModuleCount: nat,
    optionalModuleCount: nat,
    modules: seq<TypedModule>)

  datatype DetailResponse =
    | DetailFound(detail: CourseDetail)
    | DetailMissing(message: string, suggestions: seq<Suggestion>)

  /** The first three courses, as code and name (lines 165-167). */
  function Suggestions(courses: seq<SampleCourse>): (r: seq<Suggestion>)
    ensures |r| == if |courses| < 3 then |courses| else 3
    ensures forall i :: 0 <= i < |r| ==> r[i] == Suggestion(courses[i].courseCode, courses[i].courseName)
  {
    SliceFromZero(courses, 3);
    var first := Slice(courses, 0, 3);
    seq(|first|, i requires 0 <= i < |first| => Suggestion(first[i].courseCode, first[i].courseName))
  }

  /** The declared codes, core then optional (lines 171-173). */
  function AllCodes(c: SampleCourse): seq<string> {
    RefCodes(c.core) + RefCodes(c.optional)
  }

  /** `sampleModules.filter(m => m.moduleCode && allModuleCodes.includes(m.moduleCode))`. */
  function RelatedModules(modules: seq<SampleModule>, codes: seq<string>): seq<SampleModule> {
    Filter(modules, (m: SampleModule) => m.moduleCode != "" && m.moduleCode in codes)
  }

  /** A related module is `core` when the core list names it, `optional` otherwise. */
  function TypeOf(m: SampleModule, coreCodes: seq<string>): TypedModule {
    TypedModule(m, if m.moduleCode in coreCodes then CoreModule else OptionalModule)
  }

  /** The answer of GET /api/courses/:courseCode (lines 153-192). */
  function CourseDetailOf(courses: seq<SampleCourse>, modules: seq<SampleModule>, code: string): (r: DetailResponse)
    ensures r.DetailMissing? <==> FindSampleCourse(courses, code).None?
    ensures r.DetailMissing? ==>
      r.message == "Course with code '" + code + "' not found" && |r.suggestions| <= 3
    ensures r.DetailFound? ==>
      var d := r.detail;
      CodeMatches(d.course, code) && d.course in courses
      && d.coreModuleCount == |d.course.core| && d.optionalModuleCount == |d.course.optional|
      && d.moduleCount == d.coreModuleCount + d.optionalModuleCount
  {
    match FindSampleCourse(courses, code)
    case None =>
      DetailMissing("Course with code '" + code + "' not found", Suggestions(courses))
    case Some(c) =>
      var coreCodes := RefCodes(c.core);
      var related := RelatedModules(modules, AllCodes(c));
      DetailFound(CourseDetail(c, |AllCodes(c)|, |c.core|, |c.optional|,
        seq(|related|, i requires 0 <= i < |related| => TypeOf(related[i], coreCodes))))
  }

  /**
   * The related modules are the sample modules with a non-empty code that
   * the course lists; each is `core` exactly when the core
   * list names it, so a code in both lists is `core`.
   */
  lemma DetailModules(courses: seq<SampleCourse>, modules: seq<SampleModule>, code: string)
    requires FindSampleCourse(courses, code).Some?
    ensures var c := FindSampleCourse(courses, code).value;
      var d := CourseDetailOf(courses, modules, code).detail;
      && (forall m :: m in modules && m.moduleCode != "" && m.moduleCode in AllCodes(c) <==>
            exists i :: 0 <= i < |d.modules| && d.modules[i].sampleModule == m)
      && (forall i :: 0 <= i < |d.modules| ==>
            (d.modules[i].moduleType == CoreModule <==>
              exists j :: 0 <= j < |c.core| && c.core[j].code == d.modules[i].sampleModule.moduleCode))
  {
    var c := FindSampleCourse(courses, code).value;
    var related := RelatedModules(modules, AllCodes(c));
    var d := CourseDetailOf(courses, modules, code).detail;
    assert |d.modules| == |related|;
    assert forall i :: 0 <= i < |d.modules| ==> d.modules[i].sampleModule == related[i];
    forall m | m in modules && m.moduleCode != "" && m.moduleCode in AllCodes(c)
      ensures exists i :: 0 <= i < |d.modules| && d.modules[i].sampleModule == m
    {
      var i :| 0 <= i < |related| && related[i] == m;
      assert d.modules[i].sampleModule == m;
    }
    forall i | 0 <= i < |d.modules|
      ensures d.modules[i].sampleModule in modules && d.modules[i].sampleModule.moduleCode != ""
        && d.modules[i].sampleModule.moduleCode in AllCodes(c)
    {
      assert related[i] in related;
    }
    forall i | 0 <= i < |d.modules|
      ensures d.modules[i].moduleType == CoreModule <==>
        exists j :: 0 <= j < |c.core| && c.core[j].code == d.modules[i].sampleModule.moduleCode
    {
      var x := d.modules[i].sampleModule.moduleCode;
      if x in RefCodes(c.core) {
        var j :| 0 <= j < |c.core| && RefCodes(c.core)[j] == x;
        assert c.core[j].code == x;
      }
      if exists j :: 0 <= j < |c.core| && c.core[j].code == x {
        var j :| 0 <= j < |c.core| && c.core[j].code == x;
        assert RefCodes(c.core)[j] == x;
      }
    }
  }

  // ---------------------------------------------------------------------
  // Pagination shared by GET /api/courses and GET /api/modules

  /**
   * `parseInt(v) || d`: `None` stands for a value `parseInt` reads as NaN
   * (absent or not numeric); 0 is falsy as well.
   */
  function ParsedOr(v: Option<int>, d: int): int {
    if v.Some? && v.value != 0 then v.value else d
  }

  /** `parseInt(offset) || 0`. */
  function PageOffset(offset: Option<int>): int {
    ParsedOr(offset, 0)
  }

  /** `Math.min(parseInt(limit) || 50, 100)`. */
  function PageLimit(limit: Option<int>): (n: int)
    ensures n <= 100
    ensures limit.None? ==> n == 50
  {
    var n := ParsedOr(limit, 50);
    if n < 100 then n else 100
  }

  /** `filtered.slice(startIndex, startIndex + limitNum)`. */
  function Page<T>(items: seq<T>, limit: Option<int>, offset: Option<int>): seq<T> {
    var start := PageOffset(offset);
    Slice(items, start, start + PageLimit(limit))
  }

  /** A limit that is not negative yields at most `limitNum` and so at most 100 items. */
  lemma PageBounded<T>(items: seq<T>, limit: Option<int>, offset: Option<int>)
    requires limit.None? || limit.value >= 0
    ensures 1 <= PageLimit(limit) <= 100
    ensures |Page(items, limit, offset)| <= PageLimit(limit)
  {
  }

  /**
   * With a limit that is not negative and an offset that is not negative, the
   * page is the run of items from the offset on, at most `limitNum` long.
   */
  lemma PageContents<T>(items: seq<T>, limit: Option<int>, offset: Option<int>)
    requires limit.None? || limit.value >= 0
    requires offset.None? || offset.value >= 0
    ensures var start, n := PageOffset(offset), PageLimit(limit);
      Page(items, limit, offset) ==
        if start >= |items| then []
        else if start + n <= |items| then items[start..start + n]
        else items[start..]
  {
  }

  /** A negative limit passes `Math.min` and becomes a slice end counted from the back. */
  lemma NegativeLimitOverflow()
    ensures |Page(seq(102, i => i), Some(-1), None)| == 101
  {
    var items := seq(102, i => i);
    assert PageLimit(Some(-1)) == -1;
    assert Slice(items, 0, -1) == items[0..101];
  }

  /** The cap as evidently intended: `limitNum` also kept from going below 0. */
  function ClampedPageLimit(limit: Option<int>): (n: nat)
    ensures n <= 100
  {
    var n := PageLimit(limit);
    if n < 0 then 0 else n
  }

  /** Pagination with the clamped limit. */
  function ClampedPage<T>(items: seq<T>, limit: Option<int>, offset: Option<int>): seq<T> {
    var start := PageOffset(offset);
    Slice(items, start, start + ClampedPageLimit(limit))
  }

  /** With the clamped limit no page has more than 100 items, whatever the query. */
  lemma ClampedPageBounded<T>(items: seq<T>, limit: Option<int>, offset: Option<int>)
    ensures |ClampedPage(items, limit, offset)| <= ClampedPageLimit(limit) <= 100
  {
  }

  /** The clamped pagination agrees with the route's whenever the limit is not negative. */
  lemma ClampedPageAgrees<T>(items: seq<T>, limit: Option<int>, offset: Option<int>)
    requires limit.None? || limit.value >= 0
    ensures ClampedPage(items, limit, offset) == Page(items, limit, offset)
  {
  }

  /** The envelope of a list route: `count`, `total` and `data`, or the 500 answer. */
  datatype Listing<T> = Listing(count: nat, total: nat, data: seq<T>) | ServerError(message: string)

  // ---------------------------------------------------------------------
  // GET /api/courses

  /** The query of GET /api/courses; `limit` and `offset` as `parseInt` reads them. */
  datatype CourseQuery = CourseQuery(
    search: Option<string>,
    degree: Option<string>,
    department: Option<string>,
    limit: Option<int>,
    offset: Option<int>)

  /** A value that is either a number or a text, as `duration || 'Unknown Duration'` can be. */
  datatype Shown = Number(n: int) | Label(text: string)

  /** One entry of the list answer, with the defaults of lines 130-137. */
  datatype CourseSummary = CourseSummary(
    courseName: string,
    courseCode: string,
    degree: string,
    department: string,
    duration: Shown,
    url: string)

  function Summary(c: SampleCourse): CourseSummary {
    CourseSummary(
      TextOr(c.courseName, "Unknown Course"),
      TextOr(c.courseCode, "Unknown Code"),
      TextOr(c.degree, "Unknown Degree"),
      TextOr(c.department, "Unknown Department"),
      if c.duration.Some? && c.duration.value != 0 then Number(c.duration.value) else Label("Unknown Duration"),
      TextOr(c.url, "#"))
  }

  /**
   * The search test of lines 104-108 for one course, given the lower-cased
   * term: `None` when it throws, which it does on a missing name, or on a
   * missing code once the name has not matched.
   */
  function SearchHit(c: SampleCourse, term: string): Option<bool> {
    if c.courseName.None? then None
    else if Contains(Lower(c.courseName.value), term) then Some(true)
    else if c.courseCode.None? then None
    else if Contains(Lower(c.courseCode.value), term) then Some(true)
    else Some(Truthy(c.department) && Contains(Lower(c.department.value), term))
  }

  /** The search filter over the courses; `None` when the test throws on one of them. */
  function SearchCourses(cs: seq<SampleCourse>, term: string): (r: Option<seq<SampleCourse>>)
    ensures r.None? <==> exists i :: 0 <= i < |cs| && SearchHit(cs[i], term).None?
    ensures r.Some? ==> r.value == Filter(cs, (c: SampleCourse) => SearchHit(c, term) == Some(true))
  {
    if exists i :: 0 <= i < |cs| && SearchHit(cs[i], term).None? then None
    else Some(Filter(cs, (c: SampleCourse) => SearchHit(c, term) == Some(true)))
  }

  /** `course.degree && course.degree.toLowerCase() === degree.toLowerCase()`. */
  predicate DegreeIs(c: SampleCourse, degree: string) {
    Truthy(c.degree) && Lower(c.degree.value) == Lower(degree)
  }

  /** `course.department && course.department.toLowerCase().includes(department.toLowerCase())`. */
  predicate InDepartment(c: SampleCourse, department: string) {
    Truthy(c.department) && ContainsIgnoringCase(c.department.value, department)
  }

  /** The three filters of lines 102-121, each applied only when its parameter is truthy. */
  function FilterCourses(courses: seq<SampleCourse>, q: CourseQuery): Option<seq<SampleCourse>> {
    var searched := if Truthy(q.search) then SearchCourses(courses, Lower(q.search.value)) else Some(courses);
    if searched.None? then None
    else
      var byDegree := if Truthy(q.degree) then Filter(searched.value, (c: SampleCourse) => DegreeIs(c, q.degree.value))
        else searched.value;
      Some(if Truthy(q.department) then Filter(byDegree, (c: SampleCourse) => InDepartment(c, q.department.value))
        else byDegree)
  }

  /** The answer of GET /api/courses (lines 98-141). */
  function CourseList(courses: seq<SampleCourse>, q: CourseQuery): (r: Listing<CourseSummary>)
    ensures r.ServerError? <==> FilterCourses(courses, q).None?
    ensures r.ServerError? ==> r.message == "Internal server error while fetching courses"
    ensures r.Listing? ==> r.count == |r.data| && r.total == |FilterCourses(courses, q).value|
  {
    match FilterCourses(courses, q)
    case None => ServerError("Internal server error while fetching courses")
    case Some(filtered) =>
      var page := Page(filtered, q.limit, q.offset);
      Listing(|page|, |filtered|, seq(|page|, i requires 0 <= i < |page| => Summary(page[i])))
  }

  /**
   * A course passes the filters exactly when it matches the search (if any),
   * has the degree (if any) and lies in the department (if any); the
   * survivors keep their order, and only the search can throw.
   */
  lemma FilterCoursesSpec(courses: seq<SampleCourse>, q: CourseQuery)
    ensures FilterCourses(courses, q).None? <==>
      Truthy(q.search) && exists i :: 0 <= i < |courses| && SearchHit(courses[i], Lower(q.search.value)).None?
    ensures FilterCourses(courses, q).Some? ==>
      var f := FilterCourses(courses, q).value;
      Subsequence(f, courses)
      && forall c :: c in f <==>
        c in courses
        && (Truthy(q.search) ==> SearchHit(c, Lower(q.search.value)) == Some(true))
        && (Truthy(q.degree) ==> DegreeIs(c, q.degree.value))
        && (Truthy(q.department) ==> InDepartment(c, q.department.value))
  {
    var searched := if Truthy(q.search) then SearchCourses(courses, Lower(q.search.value)) else Some(courses);
    if searched.Some? {
      SubsequenceReflexive(courses);
      var s := searched.value;
      var byDegree := if Truthy(q.degree) then Filter(s, (c: SampleCourse) => DegreeIs(c, q.degree.value)) else s;
      SubsequenceReflexive(s);
      SubsequenceTransitive(byDegree, s, courses);
      var f := FilterCourses(courses, q).value;
      SubsequenceReflexive(byDegree);
      SubsequenceTransitive(f, byDegree, courses);
    }
  }

  /** `d` summarises one of the courses `cs`. */
  predicate SummaryOfOne(d: CourseSummary, cs: seq<SampleCourse>) {
    exists c :: c in cs && d == Summary(c)
  }

  /** The page holds at most 100 summaries when the limit is not negative, each of a filtered course. */
  lemma CourseListPage(courses: seq<SampleCourse>, q: CourseQuery)
    requires q.limit.None? || q.limit.value >= 0
    requires CourseList(courses, q).Listing?
    ensures CourseList(courses, q).count <= 100
    ensures CourseList(courses, q).count <= CourseList(courses, q).total
    ensures forall i :: 0 <= i < |CourseList(courses, q).data| ==>
      SummaryOfOne(CourseList(courses, q).data[i], FilterCourses(courses, q).value)
  {
    var filtered := FilterCourses(courses, q).value;
    PageBounded(filtered, q.limit, q.offset);
    var page := Page(filtered, q.limit, q.offset);
    var r := CourseList(courses, q);
    assert r == Listing(|page|, |filtered|, seq(|page|, i requires 0 <= i < |page| => Summary(page[i])));
    assert page == Slice(filtered, PageOffset(q.offset), PageOffset(q.offset) + PageLimit(q.limit));
    forall i | 0 <= i < |r.data|
      ensures SummaryOfOne(r.data[i], filtered)
    {
      SliceWithin(filtered, PageOffset(q.offset), PageOffset(q.offset) + PageLimit(q.limit), i);
      assert r.data[i] == Summary(page[i]);
    }
  }

  /** An element of a slice is an element of the sequence. */
  lemma SliceWithin<T>(s: seq<T>, a: int, b: int, i: nat)
    requires i < |Slice(s, a, b)|
    ensures Slice(s, a, b)[i] in s
  {
    var x, y := SliceIndex(a, |s|), SliceIndex(b, |s|);
    assert Slice(s, a, b)[i] == s[x + i];
  }

  /** Without a search, degree or department the list counts every course and never fails. */
  lemma CourseListUnfiltered(courses: seq<SampleCourse>, q: CourseQuery)
    requires !Truthy(q.search) && !Truthy(q.degree) && !Truthy(q.department)
    ensures CourseList(courses, q).Listing? && CourseList(courses, q).total == |courses|
  {
  }

  // ---------------------------------------------------------------------
  // GET /api/modules

  /** The query of GET /api/modules; `level` and `credits` are compared as strings. */
  datatype ModuleQuery = ModuleQuery(
    search: Option<string>,
    level: Option<string>,
    credits: Option<string>,
    limit: Option<int>,
    offset: Option<int>)

  /** The search test of lines 355-359, given the lower-cased term. */
  predicate ModuleSearchHit(m: SampleModule, term: string) {
    (Truthy(m.title) && Contains(Lower(m.title.value), term))
    || (m.moduleCode != "" && Contains(Lower(m.moduleCode), term))
    || (Truthy(m.description) && Contains(Lower(m.description.value), term))
  }

  /** `module.x && module.x.toString() === v.toString()` for a numeric field. */
  predicate NumberIs(x: Option<int>, v: string) {
    x.Some? && x.value != 0 && IntToString(x.value) == v
  }

  /** The three filters of lines 354-371. */
  function FilterModules(modules: seq<SampleModule>, q: ModuleQuery): seq<SampleModule> {
    var searched := if Truthy(q.search) then Filter(modules, (m: SampleModule) => ModuleSearchHit(m, Lower(q.search.value)))
      else modules;
    var byLevel := if Truthy(q.level) then Filter(searched, (m: SampleModule) => NumberIs(m.level, q.level.value))
      else searched;
    if Truthy(q.credits) then Filter(byLevel, (m: SampleModule) => NumberIs(m.credits, q.credits.value))
    else byLevel
  }

  /** The answer of GET /api/modules (lines 350-383). */
  function ModuleList(modules: seq<SampleModule>, q: ModuleQuery): (r: Listing<SampleModule>)
    ensures r.Listing? && r.count == |r.data| && r.total == |FilterModules(modules, q)| <= |modules|
  {
    var filtered := FilterModules(modules, q);
    var page := Page(filtered, q.limit, q.offset);
    Listing(|page|, |filtered|, page)
  }

  /**
   * A module passes the filters exactly when it matches the search (if any)
   * and has the level and credits asked for (if any); the survivors keep
   * their order.
   */
  lemma FilterModulesSpec(modules: seq<SampleModule>, q: ModuleQuery)
    ensures var f := FilterModules(modules, q);
      Subsequence(f, modules)
      && forall m :: m in f <==>
        m in modules
        && (Truthy(q.search) ==> ModuleSearchHit(m, Lower(q.search.value)))
        && (Truthy(q.level) ==> NumberIs(m.level, q.level.value))
        && (Truthy(q.credits) ==> NumberIs(m.credits, q.credits.value))
  {
    var searched := if Truthy(q.search) then Filter(modules, (m: SampleModule) => ModuleSearchHit(m, Lower(q.search.value)))
      else modules;
    var byLevel := if Truthy(q.level) then Filter(searched, (m: SampleModule) => NumberIs(m.level, q.level.value))
      else searched;
    var f := FilterModules(modules, q);
    SubsequenceReflexive(modules);
    SubsequenceReflexive(searched);
    SubsequenceReflexive(byLevel);
    SubsequenceTransitive(byLevel, searched, modules);
    SubsequenceTransitive(f, byLevel, modules);
  }

  /** With a limit that is not negative the module page holds at most 100 modules, all filtered ones. */
  lemma ModuleListPage(modules: seq<SampleModule>, q: ModuleQuery)
    requires q.limit.None? || q.limit.value >= 0
    ensures var r := ModuleList(modules, q);
      r.count <= 100 && r.count <= r.total
      && forall i :: 0 <= i < |r.data| ==> r.data[i] in FilterModules(modules, q)
  {
    var filtered := FilterModules(modules, q);
    PageBounded(filtered, q.limit, q.offset);
    forall i | 0 <= i < |ModuleList(modules, q).data|
      ensures ModuleList(modules, q).data[i] in filtered
    {
      SliceWithin(filtered, PageOffset(q.offset), PageOffset(q.offset) + PageLimit(q.limit), i);
    }
  }
}
