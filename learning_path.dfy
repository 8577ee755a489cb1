/**
 * `LearningPathBuilder`: the modules dragged into a learning path, the
 * modules still available, and the analysis of the path (credits,
 * prerequisites missing from the path, level progression, semesters).
 *
 * A module here is the object the builder reads directly (`id`,
 * `moduleCode`, `credits`, `level`, `prerequisites`); each field it reads
 * with `||` or `?.` may be missing. Credits and levels are whole numbers.
 */
module LearningPath {
  import opened Wrappers
  import opened Seqs
  import Text

  datatype PathModule = PathModule(id: string, moduleCode: Option<string>, credits: Option<int>, level: Option<int>,
                                   prerequisites: Option<seq<string>>)

  /** An entry of `missingPrerequisites`: the module, and the code it needs that the path lacks. */
  datatype Missing = Missing(moduleCode: Option<string>, missing: string)

  /** An entry of `difficultyProgression`. */
  datatype Step = Step(position: nat, level: int, moduleCode: Option<string>, appropriate: bool)

  /** The analysis without `averageLevel` and `completionRate`, which are fractions. */
  datatype Analysis = Analysis(totalCredits: int, prerequisitesMet: bool, missingPrerequisites: seq<Missing>,
                               difficultyProgression: seq<Step>, estimatedSemesters: int)

  // ---------------------------------------------------------------------
  // Credits, levels and semesters (IntelligentFeatures.js lines 47-48, 64-69, 77)

  /** `mod.credits || 0`. */
  function CreditsOf(m: PathModule): int {
    if m.credits.Some? then m.credits.value else 0
  }

  /** `mod.level || 1`: a missing or zero level counts as 1. */
  function LevelOf(m: PathModule): (r: int)
    ensures r != 0
    ensures m.level.Some? && m.level.value != 0 ==> r == m.level.value
  {
    if m.level.Some? && m.level.value != 0 then m.level.value else 1
  }

  /** `modules.reduce((sum, mod) => sum + (mod.credits || 0), 0)`. */
  function TotalCredits(modules: seq<PathModule>): int {
    if modules == [] then 0 else TotalCredits(modules[..|modules| - 1]) + CreditsOf(modules[|modules| - 1])
  }

  lemma {:induction false} TotalCreditsAppend(a: seq<PathModule>, b: seq<PathModule>)
    ensures TotalCredits(a + b) == TotalCredits(a) + TotalCredits(b)
    decreases |b|
  {
    if b != [] {
      assert (a + b)[..|a + b| - 1] == a + b[..|b| - 1];
      TotalCreditsAppend(a, b[..|b| - 1]);
    } else {
      assert a + b == a;
    }
  }

  /** `Math.ceil(credits / 30)`: the fewest 30-credit semesters that hold the credits. */
  function Semesters(credits: int): (r: int)
    ensures 30 * (r - 1) < credits <= 30 * r
  {
    -((-credits) / 30)
  }

  /** The progression: entry `i` is at position `i + 1` and is appropriate when its level is no lower than the one before. */
  function Progression(modules: seq<PathModule>): (r: seq<Step>)
    ensures |r| == |modules|
  {
    seq(|modules|, i requires 0 <= i < |modules| =>
      Step(i + 1, LevelOf(modules[i]), modules[i].moduleCode, i == 0 || LevelOf(modules[i]) >= LevelOf(modules[i - 1])))
  }

  /** Every step is appropriate exactly when the levels never go down along the path. */
  lemma AllAppropriate(modules: seq<PathModule>)
    ensures (forall i :: 0 <= i < |modules| ==> Progression(modules)[i].appropriate)
      <==> (forall i, j :: 0 <= i <= j < |modules| ==> LevelOf(modules[i]) <= LevelOf(modules[j]))
  {
    var p := Progression(modules);
    if forall i :: 0 <= i < |modules| ==> p[i].appropriate {
      forall i, j | 0 <= i <= j < |modules|
        ensures LevelOf(modules[i]) <= LevelOf(modules[j])
      {
        AppropriateChain(modules, i, j);
      }
    }
    if forall i, j :: 0 <= i <= j < |modules| ==> LevelOf(modules[i]) <= LevelOf(modules[j]) {
      forall i | 0 <= i < |modules|
        ensures p[i].appropriate
      {
        if i > 0 {
          assert LevelOf(modules[i - 1]) <= LevelOf(modules[i]);
        }
      }
    }
  }

  lemma {:induction false} AppropriateChain(modules: seq<PathModule>, i: nat, j: nat)
    requires i <= j < |modules|
    requires forall k :: 0 <= k < |modules| ==> Progression(modules)[k].appropriate
    ensures LevelOf(modules[i]) <= LevelOf(modules[j])
    decreases j - i
  {
    if i < j {
      AppropriateChain(modules, i, j - 1);
      assert Progression(modules)[j].appropriate;
    }
  }

  // ---------------------------------------------------------------------
  // Missing prerequisites (lines 52-61)

  /** `modules.some(m => m.moduleCode === code)`. */
  predicate HasCode(path: seq<PathModule>, code: string) {
    exists i :: 0 <= i < |path| && path[i].moduleCode == Some(code)
  }

  /** The entries one module's prerequisite list adds, in list order. */
  function MissingIn(code: Option<string>, prereqs: seq<string>, path: seq<PathModule>): seq<Missing> {
    if prereqs == [] then []
    else
      var last := prereqs[|prereqs| - 1];
      MissingIn(code, prereqs[..|prereqs| - 1], path) + (if HasCode(path, last) then [] else [Missing(code, last)])
  }

  function MissingOf(m: PathModule, path: seq<PathModule>): seq<Missing> {
    if m.prerequisites.Some? then MissingIn(m.moduleCode, m.prerequisites.value, path) else []
  }

  /** The entries for the modules `mods`, in order, checked against the whole path. */
  function MissingAll(mods: seq<PathModule>, path: seq<PathModule>): seq<Missing> {
    if mods == [] then [] else MissingAll(mods[..|mods| - 1], path) + MissingOf(mods[|mods| - 1], path)
  }

  /** Module `m` of the path needs the code `x.missing`, which no module of the path has. */
  predicate Flags(m: PathModule, path: seq<PathModule>, x: Missing) {
    m.prerequisites.Some? && x.moduleCode == m.moduleCode && x.missing in m.prerequisites.value && !HasCode(path, x.missing)
  }

  lemma {:induction false} MissingInSpec(code: Option<string>, prereqs: seq<string>, path: seq<PathModule>, x: Missing)
    ensures x in MissingIn(code, prereqs, path) <==> x.moduleCode == code && x.missing in prereqs && !HasCode(path, x.missing)
  {
    if prereqs != [] {
      var init := prereqs[..|prereqs| - 1];
      MissingInSpec(code, init, path, x);
      assert prereqs == init + [prereqs[|prereqs| - 1]];
    }
  }

  lemma {:induction false} MissingAllSpec(mods: seq<PathModule>, path: seq<PathModule>, x: Missing)
    ensures x in MissingAll(mods, path) <==> exists i :: 0 <= i < |mods| && Flags(mods[i], path, x)
  {
    if mods != [] {
      var init := mods[..|mods| - 1];
      MissingAllSpec(init, path, x);
      MissingOfSpec(mods[|mods| - 1], path, x);
      if exists i :: 0 <= i < |init| && Flags(init[i], path, x) {
        var i :| 0 <= i < |init| && Flags(init[i], path, x);
        assert mods[i] == init[i];
      }
      if exists i :: 0 <= i < |mods| && Flags(mods[i], path, x) {
        var i :| 0 <= i < |mods| && Flags(mods[i], path, x);
        if i < |init| {
          assert init[i] == mods[i];
        }
      }
    }
  }

  lemma MissingOfSpec(m: PathModule, path: seq<PathModule>, x: Missing)
    ensures x in MissingOf(m, path) <==> Flags(m, path, x)
  {
    if m.prerequisites.Some? {
      MissingInSpec(m.moduleCode, m.prerequisites.value, path, x);
    }
  }

  /**
   * The missing list holds exactly the pairs (module, code) where a module
   * of the path lists the code and no module of the path, before or after
   * it, has that code.
   */
  lemma MissingSpec(path: seq<PathModule>, x: Missing)
    ensures x in MissingAll(path, path) <==> exists i :: 0 <= i < |path| && Flags(path[i], path, x)
  {
    MissingAllSpec(path, path, x);
  }

  /** Prerequisites are met exactly when every prerequisite any module lists is the code of a module of the path. */
  lemma MetSpec(path: seq<PathModule>)
    ensures MissingAll(path, path) == [] <==>
      forall i, p :: 0 <= i < |path| && path[i].prerequisites.Some? && p in path[i].prerequisites.value ==> HasCode(path, p)
  {
    if MissingAll(path, path) == [] {
      forall i, p | 0 <= i < |path| && path[i].prerequisites.Some? && p in path[i].prerequisites.value
        ensures HasCode(path, p)
      {
        MissingAllSpec(path, path, Missing(path[i].moduleCode, p));
      }
    } else {
      var x := MissingAll(path, path)[0];
      MissingAllSpec(path, path, x);
    }
  }

  /** `analyzeCurrentPath`: nothing for an empty path; the missing list is filled by the two nested loops. */
  method Analyze(modules: seq<PathModule>) returns (a: Option<Analysis>)
    ensures modules == [] <==> a.None?
    ensures a.Some? ==> a.value.totalCredits == TotalCredits(modules)
    ensures a.Some? ==> a.value.missingPrerequisites == MissingAll(modules, modules)
    ensures a.Some? ==> (a.value.prerequisitesMet <==> a.value.missingPrerequisites == [])
    ensures a.Some? ==> a.value.difficultyProgression == Progression(modules)
    ensures a.Some? ==> 30 * (a.value.estimatedSemesters - 1) < a.value.totalCredits <= 30 * a.value.estimatedSemesters
  {
    if |modules| == 0 {
      return None;
    }
    var credits := TotalCredits(modules);
    var missing: seq<Missing> := [];
    for i := 0 to |modules|
      invariant missing == MissingAll(modules[..i], modules)
    {
      var m := modules[i];
      assert modules[..i + 1][..i] == modules[..i];
      if m.prerequisites.Some? {
        var prereqs := m.prerequisites.value;
        for j := 0 to |prereqs|
          invariant missing == MissingAll(modules[..i], modules) + MissingIn(m.moduleCode, prereqs[..j], modules)
        {
          assert prereqs[..j + 1][..j] == prereqs[..j];
          if !(exists k :: 0 <= k < |modules| && modules[k].moduleCode == Some(prereqs[j])) {
            missing := missing + [Missing(m.moduleCode, prereqs[j])];
          }
        }
        assert prereqs[..|prereqs|] == prereqs;
      }
    }
    assert modules[..|modules|] == modules;
    a := Some(Analysis(credits, |missing| == 0, missing, Progression(modules), Semesters(credits)));
  }

  // ---------------------------------------------------------------------
  // Reordering (lines 134-140)

  /** `result.splice(i, 1)`. */
  function RemoveAt(s: seq<PathModule>, i: nat): (r: seq<PathModule>)
    requires i < |s|
    ensures |r| == |s| - 1
  {
    s[..i] + s[i + 1..]
  }

  /** `result.splice(j, 0, x)`. */
  function InsertAt(s: seq<PathModule>, j: nat, x: PathModule): (r: seq<PathModule>)
    requires j <= |s|
    ensures |r| == |s| + 1 && r[j] == x
  {
    s[..j] + [x] + s[j..]
  }

  /** `result.splice(start, 1)` then `result.splice(end, 0, removed)`, with `splice`'s reading of negative and large indices. */
  function Moved(s: seq<PathModule>, start: int, end: int): (r: seq<PathModule>)
    requires Text.SliceIndex(start, |s|) < |s|
    ensures |r| == |s|
  {
    var i := Text.SliceIndex(start, |s|);
    InsertAt(RemoveAt(s, i), Text.SliceIndex(end, |s| - 1), s[i])
  }

  lemma RemoveAtSpec(s: seq<PathModule>, i: nat)
    requires i < |s|
    ensures multiset(RemoveAt(s, i)) + multiset{s[i]} == multiset(s)
    ensures TotalCredits(RemoveAt(s, i)) + CreditsOf(s[i]) == TotalCredits(s)
  {
    RemoveAtMultiset(s, i);
    RemoveAtCredits(s, i);
  }

  lemma RemoveAtMultiset(s: seq<PathModule>, i: nat)
    requires i < |s|
    ensures multiset(RemoveAt(s, i)) + multiset{s[i]} == multiset(s)
  {
    var a, b := s[..i], s[i + 1..];
    assert s == a + [s[i]] + b;
    assert multiset(s) == multiset(a) + multiset{s[i]} + multiset(b);
  }

  lemma RemoveAtCredits(s: seq<PathModule>, i: nat)
    requires i < |s|
    ensures TotalCredits(RemoveAt(s, i)) + CreditsOf(s[i]) == TotalCredits(s)
  {
    TotalCreditsSplit(s, i);
    TotalCreditsSplit(s[i..], 1);
    assert s[i..][..1] == [s[i]] && s[i..][1..] == s[i + 1..];
    TotalCreditsSnoc([], s[i]);
    TotalCreditsAppend(s[..i], s[i + 1..]);
  }

  lemma TotalCreditsSplit(s: seq<PathModule>, k: nat)
    requires k <= |s|
    ensures TotalCredits(s) == TotalCredits(s[..k]) + TotalCredits(s[k..])
  {
    assert s == s[..k] + s[k..];
    TotalCreditsAppend(s[..k], s[k..]);
  }

  lemma InsertAtSpec(s: seq<PathModule>, j: nat, x: PathModule)
    requires j <= |s|
    ensures multiset(InsertAt(s, j, x)) == multiset(s) + multiset{x}
    ensures TotalCredits(InsertAt(s, j, x)) == TotalCredits(s) + CreditsOf(x)
  {
    InsertAtMultiset(s, j, x);
    InsertAtCredits(s, j, x);
  }

  lemma InsertAtMultiset(s: seq<PathModule>, j: nat, x: PathModule)
    requires j <= |s|
    ensures multiset(InsertAt(s, j, x)) == multiset(s) + multiset{x}
  {
    assert s == s[..j] + s[j..];
  }

  lemma InsertAtCredits(s: seq<PathModule>, j: nat, x: PathModule)
    requires j <= |s|
    ensures TotalCredits(InsertAt(s, j, x)) == TotalCredits(s) + CreditsOf(x)
  {
    var a, b := s[..j], s[j..];
    assert s == a + b;
    TotalCreditsSnoc(a, x);
    TotalCreditsAppend(a + [x], b);
    TotalCreditsAppend(a, b);
  }

  lemma TotalCreditsSnoc(a: seq<PathModule>, m: PathModule)
    ensures TotalCredits(a + [m]) == TotalCredits(a) + CreditsOf(m)
  {
    assert (a + [m])[..|a|] == a;
  }

  /** Moving keeps the same modules and the same credits, and puts the moved module at its new index. */
  lemma MovedSpec(s: seq<PathModule>, start: int, end: int)
    requires Text.SliceIndex(start, |s|) < |s|
    ensures multiset(Moved(s, start, end)) == multiset(s)
    ensures TotalCredits(Moved(s, start, end)) == TotalCredits(s)
    ensures Moved(s, start, end)[Text.SliceIndex(end, |s| - 1)] == s[Text.SliceIndex(start, |s|)]
  {
    var i := Text.SliceIndex(start, |s|);
    var j := Text.SliceIndex(end, |s| - 1);
    var rest := RemoveAt(s, i);
    assert Moved(s, start, end) == InsertAt(rest, j, s[i]);
    RemoveAtSpec(s, i);
    InsertAtSpec(rest, j, s[i]);
  }

  /** Two paths holding the same modules have the same codes. */
  lemma PermutedCodes(r: seq<PathModule>, s: seq<PathModule>, c: string)
    requires multiset(r) == multiset(s)
    ensures HasCode(r, c) <==> HasCode(s, c)
  {
    if HasCode(r, c) {
      var k :| 0 <= k < |r| && r[k].moduleCode == Some(c);
      assert r[k] in multiset(s);
      var k' :| 0 <= k' < |s| && s[k'] == r[k];
    }
    if HasCode(s, c) {
      var k :| 0 <= k < |s| && s[k].moduleCode == Some(c);
      assert s[k] in multiset(r);
      var k' :| 0 <= k' < |r| && r[k'] == s[k];
    }
  }

  /** Two paths holding the same modules miss the same prerequisites: the order of the path does not matter. */
  lemma PermutedMissing(r: seq<PathModule>, s: seq<PathModule>, x: Missing)
    requires multiset(r) == multiset(s)
    ensures x in MissingAll(r, r) <==> x in MissingAll(s, s)
  {
    MissingAllSpec(r, r, x);
    MissingAllSpec(s, s, x);
    PermutedCodes(r, s, x.missing);
    if exists i :: 0 <= i < |r| && Flags(r[i], r, x) {
      var i :| 0 <= i < |r| && Flags(r[i], r, x);
      assert r[i] in multiset(s);
      var i' :| 0 <= i' < |s| && s[i'] == r[i];
      assert Flags(s[i'], s, x);
    }
    if exists i :: 0 <= i < |s| && Flags(s[i], s, x) {
      var i :| 0 <= i < |s| && Flags(s[i], s, x);
      assert s[i] in multiset(r);
      var i' :| 0 <= i' < |r| && r[i'] == s[i];
      assert Flags(r[i'], r, x);
    }
  }

  /** Reordering changes neither the credits nor which prerequisites are missing. */
  lemma MovedKeepsAnalysis(s: seq<PathModule>, start: int, end: int, x: Missing)
    requires Text.SliceIndex(start, |s|) < |s|
    ensures TotalCredits(Moved(s, start, end)) == TotalCredits(s)
    ensures x in MissingAll(Moved(s, start, end), Moved(s, start, end)) <==> x in MissingAll(s, s)
  {
    MovedSpec(s, start, end);
    PermutedMissing(Moved(s, start, end), s, x);
  }

  // ---------------------------------------------------------------------
  // The available list, kept in module-code order (lines 112-114, 126-128)

  /** Character-by-character order of two strings; a prefix comes first. */
  predicate CodeLe(a: string, b: string)
    decreases |a|
  {
    a == [] || (b != [] && (a[0] < b[0] || (a[0] == b[0] && CodeLe(a[1..], b[1..]))))
  }

  lemma {:induction false} CodeLeTotal(a: string, b: string)
    ensures CodeLe(a, b) || CodeLe(b, a)
    decreases |a|
  {
    if a != [] && b != [] && a[0] == b[0] {
      CodeLeTotal(a[1..], b[1..]);
    }
  }

  lemma {:induction false} CodeLeTransitive(a: string, b: string, c: string)
    requires CodeLe(a, b) && CodeLe(b, c)
    ensures CodeLe(a, c)
    decreases |a|
  {
    if a != [] && a[0] == b[0] && b[0] == c[0] {
      CodeLeTransitive(a[1..], b[1..], c[1..]);
    }
  }

  /**
   * The code a module sorts by. The source's comparator returns 0 whenever
   * the left module has no code but orders a coded module after a code-less
   * one, so it is not a consistent order and where a code-less module lands
   * depends on the engine's sort; the model sorts a missing code as `''`.
   */
  function SortKey(m: PathModule): string {
    if m.moduleCode.Some? then m.moduleCode.value else ""
  }

  predicate ByCode(s: seq<PathModule>) {
    forall i, j :: 0 <= i < j < |s| ==> CodeLe(SortKey(s[i]), SortKey(s[j]))
  }

  /** Place `x` after every module whose code is not after its own. */
  function InsertByCode(sorted: seq<PathModule>, x: PathModule): (r: seq<PathModule>)
    ensures multiset(r) == multiset(sorted) + multiset{x}
    ensures |r| == |sorted| + 1
  {
    if sorted == [] then [x]
    else if !CodeLe(SortKey(sorted[0]), SortKey(x)) then [x] + sorted
    else
      assert sorted == [sorted[0]] + sorted[1..];
      [sorted[0]] + InsertByCode(sorted[1..], x)
  }

  /** `.sort((a, b) => a.moduleCode?.localeCompare(b.moduleCode || '') || 0)`, as a stable sort. */
  function SortByCode(s: seq<PathModule>): (r: seq<PathModule>)
    ensures multiset(r) == multiset(s)
    ensures |r| == |s|
  {
    if s == [] then []
    else
      assert s == s[..|s| - 1] + [s[|s| - 1]];
      InsertByCode(SortByCode(s[..|s| - 1]), s[|s| - 1])
  }

  lemma {:induction false} InsertByCodeSorted(sorted: seq<PathModule>, x: PathModule)
    requires ByCode(sorted)
    ensures ByCode(InsertByCode(sorted, x))
    decreases |sorted|
  {
    if sorted == [] {
    } else if !CodeLe(SortKey(sorted[0]), SortKey(x)) {
      CodeLeTotal(SortKey(sorted[0]), SortKey(x));
      forall y | y in sorted
        ensures CodeLe(SortKey(x), SortKey(y))
      {
        var j :| 0 <= j < |sorted| && sorted[j] == y;
        if j > 0 {
          CodeLeTransitive(SortKey(x), SortKey(sorted[0]), SortKey(sorted[j]));
        }
      }
      ConsByCode(x, sorted);
    } else {
      var rest := InsertByCode(sorted[1..], x);
      InsertByCodeSorted(sorted[1..], x);
      InsertByCodeElems(sorted[1..], x);
      forall y | y in rest
        ensures CodeLe(SortKey(sorted[0]), SortKey(y))
      {
        if y != x {
          var k :| 0 <= k < |sorted[1..]| && sorted[1..][k] == y;
          assert sorted[k + 1] == y;
        }
      }
      ConsByCode(sorted[0], rest);
    }
  }

  /** Every module of `InsertByCode(sorted, x)` is `x` or a module of `sorted`. */
  lemma {:induction false} InsertByCodeElems(sorted: seq<PathModule>, x: PathModule)
    ensures forall y :: y in InsertByCode(sorted, x) ==> y == x || y in sorted
    decreases |sorted|
  {
    if sorted != [] && CodeLe(SortKey(sorted[0]), SortKey(x)) {
      InsertByCodeElems(sorted[1..], x);
    }
  }

  /** A sorted list stays sorted with a module in front whose code comes no later than any of its own. */
  lemma ConsByCode(h: PathModule, s: seq<PathModule>)
    requires ByCode(s)
    requires forall y :: y in s ==> CodeLe(SortKey(h), SortKey(y))
    ensures ByCode([h] + s)
  {
    var r := [h] + s;
    forall i, j | 0 <= i < j < |r|
      ensures CodeLe(SortKey(r[i]), SortKey(r[j]))
    {
      assert r[j] == s[j - 1];
      if i > 0 {
        assert r[i] == s[i - 1];
      }
    }
  }

  /** The sorted list is in module-code order and holds the same modules. */
  lemma {:induction false} SortByCodeSorted(s: seq<PathModule>)
    ensures ByCode(SortByCode(s))
    decreases |s|
  {
    if s != [] {
      SortByCodeSorted(s[..|s| - 1]);
      InsertByCodeSorted(SortByCode(s[..|s| - 1]), s[|s| - 1]);
    }
  }

  // ---------------------------------------------------------------------
  // Moving modules between the lists (lines 29-35, 96-132)

  function WithoutIdOf(s: seq<PathModule>, id: string): (r: seq<PathModule>)
    ensures Subsequence(r, s)
    ensures forall m :: m in r <==> m in s && m.id != id
  {
    Filter(s, (m: PathModule) => m.id != id)
  }

  /** The effect of lines 29-35: the graph's modules whose id is not on the path, in graph order. */
  function AvailableFrom(nodes: seq<PathModule>, path: seq<PathModule>): (r: seq<PathModule>)
    ensures Subsequence(r, nodes)
    ensures forall m :: m in r <==> m in nodes && forall k :: 0 <= k < |path| ==> path[k].id != m.id
  {
    Filter(nodes, (n: PathModule) => forall k :: 0 <= k < |path| ==> path[k].id != n.id)
  }

  /** `currentPath.modules.find(m => m.id === id)`. */
  function FindId(s: seq<PathModule>, id: string): (r: Option<PathModule>)
    ensures r.Some? <==> exists i :: 0 <= i < |s| && s[i].id == id
    ensures r.Some? ==> r.value in s && r.value.id == id
  {
    if s == [] then None
    else if s[0].id == id then Some(s[0])
    else
      assert forall i :: 1 <= i < |s| ==> s[i] == s[1..][i - 1];
      FindId(s[1..], id)
  }

  /** Dropping a module onto the path and back again gives the path back, when its id was not on it. */
  lemma DropBackUndoesDrop(path: seq<PathModule>, m: PathModule)
    requires FindId(path, m.id).None?
    ensures WithoutIdOf(path + [m], m.id) == path
  {
    var f := (x: PathModule) => x.id != m.id;
    assert forall i :: 0 <= i < |path| ==> f(path[i]);
    FilterAll(path, f);
    FilterSnocDropped(path, m, f);
  }

  /** A module moved back to the available list lands in code order among the ones there. */
  lemma ReturnedInOrder(available: seq<PathModule>, m: PathModule)
    ensures ByCode(SortByCode(available + [m]))
    ensures multiset(SortByCode(available + [m])) == multiset(available) + multiset{m}
  {
    SortByCodeSorted(available + [m]);
  }

  datatype Zone = PathZone | AvailableZone | OtherZone

  /** The `pathToSave` handed to `onPathCreated`; the two timestamps are left out. */
  datatype SavedPath = SavedPath(id: string, name: string, modules: seq<PathModule>)

  /** The path `savePath()` hands on: none for a blank name, and the clock's reading as id when the path has none. */
  function SavedFrom(name: string, pathId: Option<string>, modules: seq<PathModule>, now: string): (r: Option<SavedPath>)
    ensures r.None? <==> Text.IsBlank(name)
    ensures r.Some? ==> r.value.name == name && r.value.modules == modules
    ensures r.Some? ==> r.value.id == (if pathId.Some? && pathId.value != "" then pathId.value else now)
  {
    if Text.IsBlank(name) then None
    else Some(SavedPath(if pathId.Some? && pathId.value != "" then pathId.value else now, name, modules))
  }

  /**
   * As written, a successful save leaves the form filled in, so pressing
   * Save again hands the same modules on once more; once the form is reset,
   * as intended, a second press saves nothing.
   */
  lemma SaveAgain(name: string, pathId: Option<string>, modules: seq<PathModule>, now: string, later: string)
    requires !Text.IsBlank(name)
    ensures SavedFrom(name, pathId, modules, later).Some?
    ensures SavedFrom(name, pathId, modules, later).value.modules == SavedFrom(name, pathId, modules, now).value.modules
    ensures SavedFrom("", None, [], later).None?
  {
  }

  class Builder {
    /** `graphData.nodes`. */
    const nodes: seq<PathModule>
    var name: string
    var pathId: Option<string>
    var modules: seq<PathModule>
    var available: seq<PathModule>
    var dragged: Option<PathModule>

    constructor(nodes: seq<PathModule>)
      ensures this.nodes == nodes && name == "" && pathId.None? && modules == [] && available == [] && dragged.None?
    {
      this.nodes := nodes;
      name := "";
      pathId := None;
      modules := [];
      available := [];
      dragged := None;
    }

    /** The effect that refills the available list while the builder is open. */
    method SyncAvailable()
      modifies this
      ensures available == AvailableFrom(nodes, old(modules))
      ensures modules == old(modules) && name == old(name) && pathId == old(pathId) && dragged == old(dragged)
    {
      available := AvailableFrom(nodes, modules);
    }

    method SetName(newName: string)
      modifies this
      ensures name == newName && modules == old(modules) && available == old(available)
      ensures pathId == old(pathId) && dragged == old(dragged)
    {
      name := newName;
    }

    /** `handleDragStart(e, module)`. */
    method DragStart(m: PathModule)
      modifies this
      ensures dragged == Some(m) && name == old(name) && modules == old(modules) && available == old(available)
      ensures pathId == old(pathId)
    {
      dragged := Some(m);
    }

    /** `handleDrop(e, zone)`. */
    method Drop(zone: Zone)
      modifies this
      ensures old(dragged).None? ==> modules == old(modules) && available == old(available) && dragged.None?
      ensures old(dragged).Some? && zone == PathZone ==>
        modules == old(modules) + [old(dragged).value] && available == WithoutIdOf(old(available), old(dragged).value.id)
      ensures old(dragged).Some? && zone == AvailableZone ==>
        modules == WithoutIdOf(old(modules), old(dragged).value.id) && available == SortByCode(old(available) + [old(dragged).value])
      ensures old(dragged).Some? && zone == OtherZone ==> modules == old(modules) && available == old(available)
      ensures dragged.None? && name == old(name) && pathId == old(pathId)
    {
      if dragged.None? {
        return;
      }
      var d := dragged.value;
      match zone {
        case PathZone =>
          modules := modules + [d];
          available := WithoutIdOf(available, d.id);
        case AvailableZone =>
          modules := WithoutIdOf(modules, d.id);
          available := SortByCode(available + [d]);
        case OtherZone =>
      }
      dragged := None;
    }

    /** `removeModuleFromPath(id)`. */
    method Remove(id: string)
      modifies this
      ensures FindId(old(modules), id).None? ==> modules == old(modules) && available == old(available)
      ensures FindId(old(modules), id).Some? ==>
        modules == WithoutIdOf(old(modules), id) && available == SortByCode(old(available) + [FindId(old(modules), id).value])
      ensures name == old(name) && pathId == old(pathId) && dragged == old(dragged)
    {
      var m := FindId(modules, id);
      if m.Some? {
        modules := WithoutIdOf(modules, id);
        available := SortByCode(available + [m.value]);
      }
    }

    /** `reorderPath(start, end)`. */
    method Reorder(start: int, end: int)
      requires Text.SliceIndex(start, |modules|) < |modules|
      modifies this
      ensures modules == Moved(old(modules), start, end)
      ensures name == old(name) && available == old(available) && pathId == old(pathId) && dragged == old(dragged)
    {
      var result := modules;
      var i := if start < 0 then (if |result| + start < 0 then 0 else |result| + start) else if start > |result| then |result| else start;
      var removed := result[i];
      result := result[..i] + result[i + 1..];
      var j := if end < 0 then (if |result| + end < 0 then 0 else |result| + end) else if end > |result| then |result| else end;
      result := result[..j] + [removed] + result[j..];
      modules := result;
    }

    /**
     * `savePath()` as intended: a blank name saves nothing and keeps the
     * form; otherwise the path is handed on and the form is reset.
     */
    method Save(now: string) returns (saved: Option<SavedPath>)
      modifies this
      ensures saved == SavedFrom(old(name), old(pathId), old(modules), now)
      ensures saved.None? ==> name == old(name) && modules == old(modules) && pathId == old(pathId)
      ensures saved.Some? ==> name == "" && modules == [] && pathId.None?
      ensures available == old(available) && dragged == old(dragged)
    {
      saved := SavedFrom(name, pathId, modules, now);
      if saved.Some? {
        name := "";
        modules := [];
        pathId := None;
      }
    }

    /**
     * `savePath()` as written: `useAnalytics()` supplies no `trackEvent`, so
     * the call after `onPathCreated` throws, and the reset of the form and
     * `onClose()` never run.
     */
    method SaveAsWritten(now: string) returns (saved: Option<SavedPath>)
      modifies this
      ensures saved == SavedFrom(old(name), old(pathId), old(modules), now)
      ensures name == old(name) && modules == old(modules) && pathId == old(pathId)
      ensures available == old(available) && dragged == old(dragged)
    {
      saved := SavedFrom(name, pathId, modules, now);
    }
  }
}
