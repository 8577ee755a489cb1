/**
 * `EnhancedCourseSelector` and `ModernButton`'s click guard: the search
 * with its ranking, the suggestion groups, the recent and favourite lists,
 * and the keyboard over the visible courses.
 *
 * A course field read through `?.` may be missing, so each is an `Option`.
 * The notifications the selector posts are returned as the objects it
 * hands to `showInfo` / `showSuccess`; the `localStorage` copies are left out.
 */
module CourseSelector {
  import opened Wrappers
  import opened Seqs
  import Text
  import Selection
  import Notifications

  datatype Course = Course(courseName: Option<string>, courseCode: Option<string>, department: Option<string>, degree: Option<string>)

  // ---------------------------------------------------------------------
  // Search (EnhancedComponents.js lines 225-250)

  /** `field?.toLowerCase().includes(term)`. */
  predicate FieldHas(field: Option<string>, term: string) {
    field.Some? && Text.Contains(Text.Lower(field.value), term)
  }

  /** `field?.toLowerCase().startsWith(term)`. */
  predicate FieldStarts(field: Option<string>, term: string) {
    field.Some? && Text.StartsWith(Text.Lower(field.value), term)
  }

  predicate MatchesTerm(c: Course, term: string) {
    FieldHas(c.courseName, term) || FieldHas(c.courseCode, term) || FieldHas(c.department, term) || FieldHas(c.degree, term)
  }

  /**
   * The place the comparator gives a course: code-prefix matches first,
   * then name-prefix matches; courses with the same rank compare equal.
   */
  function Rank(c: Course, term: string): (r: nat)
    ensures r < 4
    ensures FieldStarts(c.courseCode, term) <==> r < 2
  {
    (if FieldStarts(c.courseCode, term) then 0 else 2) + (if FieldStarts(c.courseName, term) then 0 else 1)
  }

  function WithRank(s: seq<Course>, term: string, k: nat): (r: seq<Course>)
    ensures Subsequence(r, s)
    ensures forall c :: c in r <==> c in s && Rank(c, term) == k
  {
    Filter(s, (c: Course) => Rank(c, term) == k)
  }

  /**
   * `.sort(compare)`: the sort is stable, so the result is the matches of
   * rank 0, then of rank 1, 2 and 3, each group in its original order.
   */
  function RankSorted(s: seq<Course>, term: string): seq<Course> {
    WithRank(s, term, 0) + WithRank(s, term, 1) + WithRank(s, term, 2) + WithRank(s, term, 3)
  }

  /** `filteredCourses`. */
  function FilteredCourses(courses: seq<Course>, searchTerm: string): seq<Course> {
    if Text.IsBlank(searchTerm) then courses
    else
      var term := Text.Lower(searchTerm);
      RankSorted(Filter(courses, (c: Course) => MatchesTerm(c, term)), term)
  }

  predicate RankOrdered(s: seq<Course>, term: string) {
    forall i, j :: 0 <= i < j < |s| ==> Rank(s[i], term) <= Rank(s[j], term)
  }

  /** The four rank groups together hold every course once. */
  lemma {:induction false} RankGroupsPartition(s: seq<Course>, term: string)
    ensures multiset(WithRank(s, term, 0)) + multiset(WithRank(s, term, 1)) + multiset(WithRank(s, term, 2))
      + multiset(WithRank(s, term, 3)) == multiset(s)
  {
    if s != [] {
      RankGroupsPartition(s[1..], term);
      assert s == [s[0]] + s[1..];
    }
  }

  lemma RankSortedOrdered(s: seq<Course>, term: string)
    ensures RankOrdered(RankSorted(s, term), term)
  {
    var g0, g1, g2, g3 := WithRank(s, term, 0), WithRank(s, term, 1), WithRank(s, term, 2), WithRank(s, term, 3);
    var r := RankSorted(s, term);
    forall i | 0 <= i < |r|
      ensures Rank(r[i], term) == if i < |g0| then 0 else if i < |g0| + |g1| then 1 else if i < |g0| + |g1| + |g2| then 2 else 3
    {
      if i < |g0| {
        assert r[i] == g0[i] && g0[i] in g0;
      } else if i < |g0| + |g1| {
        assert r[i] == g1[i - |g0|] && g1[i - |g0|] in g1;
      } else if i < |g0| + |g1| + |g2| {
        assert r[i] == g2[i - |g0| - |g1|] && g2[i - |g0| - |g1|] in g2;
      } else {
        assert r[i] == g3[i - |g0| - |g1| - |g2|] && g3[i - |g0| - |g1| - |g2|] in g3;
      }
    }
  }

  lemma WithRankAppend(a: seq<Course>, b: seq<Course>, term: string, k: nat)
    ensures WithRank(a + b, term, k) == WithRank(a, term, k) + WithRank(b, term, k)
  {
    FilterAppend(a, b, (c: Course) => Rank(c, term) == k);
  }

  /** Taking rank `k` from a group all of rank `j` gives the group when `j == k`, and nothing otherwise. */
  lemma WithRankOfGroup(g: seq<Course>, term: string, j: nat, k: nat)
    requires forall c :: c in g ==> Rank(c, term) == j
    ensures WithRank(g, term, k) == if j == k then g else []
  {
    if j == k {
      FilterAll(g, (c: Course) => Rank(c, term) == k);
    } else {
      FilterNone(g, (c: Course) => Rank(c, term) == k);
    }
  }

  /** Sorting by rank keeps the order of the courses within each rank. */
  lemma RankSortedStable(s: seq<Course>, term: string, k: nat)
    requires k < 4
    ensures WithRank(RankSorted(s, term), term, k) == WithRank(s, term, k)
  {
    var g0, g1, g2, g3 := WithRank(s, term, 0), WithRank(s, term, 1), WithRank(s, term, 2), WithRank(s, term, 3);
    WithRankAppend(g0 + g1 + g2, g3, term, k);
    WithRankAppend(g0 + g1, g2, term, k);
    WithRankAppend(g0, g1, term, k);
    WithRankOfGroup(g0, term, 0, k);
    WithRankOfGroup(g1, term, 1, k);
    WithRankOfGroup(g2, term, 2, k);
    WithRankOfGroup(g3, term, 3, k);
  }

  /**
   * The search: a blank term leaves the list as it is; otherwise the result
   * is the courses with a field containing the lower-cased term, reordered
   * by rank, and courses of equal rank keep their relative order.
   */
  lemma FilteredCoursesSpec(courses: seq<Course>, searchTerm: string)
    ensures Text.IsBlank(searchTerm) ==> FilteredCourses(courses, searchTerm) == courses
    ensures !Text.IsBlank(searchTerm) ==>
      var term := Text.Lower(searchTerm);
      var matches := Filter(courses, (c: Course) => MatchesTerm(c, term));
      && multiset(FilteredCourses(courses, searchTerm)) == multiset(matches)
      && (forall c :: c in FilteredCourses(courses, searchTerm) <==> c in courses && MatchesTerm(c, term))
      && RankOrdered(FilteredCourses(courses, searchTerm), term)
      && (forall k :: 0 <= k < 4 ==> Subsequence(WithRank(matches, term, k), courses))
      && (forall k :: 0 <= k < 4 ==> WithRank(FilteredCourses(courses, searchTerm), term, k) == WithRank(matches, term, k))
  {
    if !Text.IsBlank(searchTerm) {
      var term := Text.Lower(searchTerm);
      var matches := Filter(courses, (c: Course) => MatchesTerm(c, term));
      RankGroupsPartition(matches, term);
      RankSortedOrdered(matches, term);
      var r := FilteredCourses(courses, searchTerm);
      assert multiset(r) == multiset(matches);
      forall c
        ensures c in r <==> c in courses && MatchesTerm(c, term)
      {
        assert c in r <==> c in multiset(r);
        assert c in matches <==> c in multiset(matches);
      }
      forall k | 0 <= k < 4
        ensures Subsequence(WithRank(matches, term, k), courses)
      {
        SubsequenceTransitive(WithRank(matches, term, k), matches, courses);
      }
      forall k | 0 <= k < 4
        ensures WithRank(r, term, k) == WithRank(matches, term, k)
      {
        RankSortedStable(matches, term, k);
      }
    }
  }

  // ---------------------------------------------------------------------
  // Suggestions (lines 253-288)

  datatype GroupKind = Favorites | Recent | Popular

  datatype Group = Group(kind: GroupKind, courses: seq<Course>)

  /** `list.find(x => x.courseCode === c.courseCode)` finds something. */
  predicate HasCode(list: seq<Course>, c: Course) {
    exists i :: 0 <= i < |list| && list[i].courseCode == c.courseCode
  }

  function Min(a: int, b: int): int {
    if a <= b then a else b
  }

  /** The course is in neither the recent nor the favourite list, by code. */
  predicate Unlisted(c: Course, recent: seq<Course>, favorites: seq<Course>) {
    !HasCode(recent, c) && !HasCode(favorites, c)
  }

  /**
   * The first three courses in neither the recent nor the favourite list:
   * a prefix of those courses, in list order, and all of them when there
   * are fewer than three.
   */
  function PopularCourses(courses: seq<Course>, recent: seq<Course>, favorites: seq<Course>): (r: seq<Course>)
    ensures |r| <= 3
    ensures var kept := Filter(courses, (c: Course) => Unlisted(c, recent, favorites));
      r == kept[..Min(3, |kept|)]
    ensures Subsequence(r, courses)
    ensures forall c :: c in r ==> c in courses && Unlisted(c, recent, favorites)
    ensures |r| < 3 ==> forall c :: c in courses && Unlisted(c, recent, favorites) ==> c in r
  {
    var kept := Filter(courses, (c: Course) => Unlisted(c, recent, favorites));
    SlicePrefix(kept, 3);
    SubsequenceTransitive(Text.Slice(kept, 0, 3), kept, courses);
    assert kept[..|kept|] == kept;
    var r := Text.Slice(kept, 0, 3);
    assert forall c :: c in r ==> c in kept;
    r
  }

  /** The favourites group of lines 259-264, when it is pushed. */
  function FavoritesPart(favorites: seq<Course>, showFavorites: bool): seq<Group> {
    if showFavorites && |favorites| > 0 then [Group(Favorites, Text.Slice(favorites, 0, 3))] else []
  }

  /** The recent group of lines 267-272, when it is pushed. */
  function RecentPart(recent: seq<Course>, showRecent: bool, maxRecent: int): seq<Group> {
    if showRecent && |recent| > 0 then [Group(Recent, Text.Slice(recent, 0, maxRecent))] else []
  }

  /** The popular group of lines 275-285, when it is pushed. */
  function PopularPart(courses: seq<Course>, recent: seq<Course>, favorites: seq<Course>): seq<Group> {
    var popular := PopularCourses(courses, recent, favorites);
    if |popular| > 0 then [Group(Popular, popular)] else []
  }

  /** `suggestedCourses`. */
  function Suggestions(courses: seq<Course>, recent: seq<Course>, favorites: seq<Course>, searchTerm: string,
                       showRecent: bool, showFavorites: bool, maxRecent: int): seq<Group>
  {
    if !Text.IsBlank(searchTerm) then []
    else FavoritesPart(favorites, showFavorites) + RecentPart(recent, showRecent, maxRecent) + PopularPart(courses, recent, favorites)
  }

  /** Some group of `gs` is of kind `k`. */
  predicate HasGroup(gs: seq<Group>, k: GroupKind) {
    exists i :: 0 <= i < |gs| && gs[i].kind == k
  }

  /** The place of a group kind in the suggestions: favourites, recent, popular. */
  function KindRank(k: GroupKind): nat {
    match k
    case Favorites => 0
    case Recent => 1
    case Popular => 2
  }

  /** What each kind of group holds, when it appears. */
  predicate GroupHolds(g: Group, courses: seq<Course>, recent: seq<Course>, favorites: seq<Course>, maxRecent: int) {
    match g.kind
    case Favorites => g.courses == favorites[..Min(3, |favorites|)]
    case Recent => g.courses == Text.Slice(recent, 0, maxRecent)
        && (0 <= maxRecent ==> g.courses == recent[..Min(maxRecent, |recent|)])
    case Popular => g.courses == PopularCourses(courses, recent, favorites)
  }

  /** Every group of `gs` is of kind `k`, and there is at most one. */
  predicate AtMostOneOf(gs: seq<Group>, k: GroupKind) {
    |gs| <= 1 && forall i :: 0 <= i < |gs| ==> gs[i].kind == k
  }

  /** Three parts of one kind each, in kind order, make a list whose groups are in kind order and of which each kind is present iff its part is not empty. */
  lemma PartsInOrder(f: seq<Group>, rr: seq<Group>, p: seq<Group>)
    requires AtMostOneOf(f, Favorites) && AtMostOneOf(rr, Recent) && AtMostOneOf(p, Popular)
    ensures var gs := f + rr + p;
      && |gs| <= 3
      && (HasGroup(gs, Favorites) <==> f != [])
      && (HasGroup(gs, Recent) <==> rr != [])
      && (HasGroup(gs, Popular) <==> p != [])
      && (forall i, j :: 0 <= i < j < |gs| ==> KindRank(gs[i].kind) < KindRank(gs[j].kind))
  {
    var gs := f + rr + p;
    forall i | 0 <= i < |gs|
      ensures KindRank(gs[i].kind) == if i < |f| then 0 else if i < |f| + |rr| then 1 else 2
    {
      if i < |f| {
        assert gs[i] == f[i];
      } else if i < |f| + |rr| {
        assert gs[i] == rr[i - |f|];
      } else {
        assert gs[i] == p[i - |f| - |rr|];
      }
    }
    if f != [] {
      assert gs[0].kind == Favorites;
    }
    if rr != [] {
      assert gs[|f|].kind == Recent;
    }
    if p != [] {
      assert gs[|f| + |rr|].kind == Popular;
    }
  }

  /** Each part holds what its kind of group holds, and only the recent one can be empty. */
  lemma PartsHold(courses: seq<Course>, recent: seq<Course>, favorites: seq<Course>,
                  showRecent: bool, showFavorites: bool, maxRecent: int)
    ensures var gs := FavoritesPart(favorites, showFavorites) + RecentPart(recent, showRecent, maxRecent)
        + PopularPart(courses, recent, favorites);
      && (forall i :: 0 <= i < |gs| ==> GroupHolds(gs[i], courses, recent, favorites, maxRecent))
      && (forall i :: 0 <= i < |gs| ==> |gs[i].courses| > 0 || (gs[i].kind == Recent && maxRecent <= 0))
  {
    var f := FavoritesPart(favorites, showFavorites);
    var rr := RecentPart(recent, showRecent, maxRecent);
    var p := PopularPart(courses, recent, favorites);
    var gs := f + rr + p;
    Text.SliceFromZero(favorites, 3);
    if 0 <= maxRecent {
      Text.SliceFromZero(recent, maxRecent);
    }
    forall i | 0 <= i < |gs|
      ensures GroupHolds(gs[i], courses, recent, favorites, maxRecent)
      ensures |gs[i].courses| > 0 || (gs[i].kind == Recent && maxRecent <= 0)
    {
      if i < |f| {
        assert gs[i] == f[i];
      } else if i < |f| + |rr| {
        assert gs[i] == rr[i - |f|];
      } else {
        assert gs[i] == p[i - |f| - |rr|];
      }
    }
  }

  /**
   * While a term is typed there are no suggestions. Otherwise the
   * favourites group (the first three favourites) appears exactly when
   * favourites are shown and there are some; the recent group (the first
   * `maxRecent` recent courses) exactly when recent courses are shown and
   * there are some; and the popular group (`PopularCourses`) exactly when
   * that list is not empty; in that order, each kind at most once.
   */
  lemma SuggestionsSpec(courses: seq<Course>, recent: seq<Course>, favorites: seq<Course>, searchTerm: string,
                        showRecent: bool, showFavorites: bool, maxRecent: int)
    ensures var gs := Suggestions(courses, recent, favorites, searchTerm, showRecent, showFavorites, maxRecent);
      && (!Text.IsBlank(searchTerm) ==> gs == [])
      && |gs| <= 3
      && (HasGroup(gs, Favorites) <==> Text.IsBlank(searchTerm) && showFavorites && favorites != [])
      && (HasGroup(gs, Recent) <==> Text.IsBlank(searchTerm) && showRecent && recent != [])
      && (HasGroup(gs, Popular) <==> Text.IsBlank(searchTerm) && PopularCourses(courses, recent, favorites) != [])
      && (forall i, j :: 0 <= i < j < |gs| ==> KindRank(gs[i].kind) < KindRank(gs[j].kind))
      && (forall i :: 0 <= i < |gs| ==> GroupHolds(gs[i], courses, recent, favorites, maxRecent))
      && (forall i :: 0 <= i < |gs| ==> |gs[i].courses| > 0 || (gs[i].kind == Recent && maxRecent <= 0))
  {
    if Text.IsBlank(searchTerm) {
      PartsInOrder(FavoritesPart(favorites, showFavorites), RecentPart(recent, showRecent, maxRecent),
        PopularPart(courses, recent, favorites));
      PartsHold(courses, recent, favorites, showRecent, showFavorites, maxRecent);
    }
  }

  /** `s.slice(0, n)` is a prefix, and so a subsequence, of `s`. */
  lemma SlicePrefix<T>(s: seq<T>, n: nat)
    ensures Subsequence(Text.Slice(s, 0, n), s)
    ensures Text.Slice(s, 0, n) == s[..if n <= |s| then n else |s|]
  {
    Text.SliceFromZero(s, n);
    PrefixSubsequence(s, if n <= |s| then n else |s|);
  }

  lemma {:induction false} PrefixSubsequence<T>(s: seq<T>, n: nat)
    requires n <= |s|
    ensures Subsequence(s[..n], s)
    decreases |s|
  {
    if s == [] {
    } else if n == 0 {
      EmptySubsequence(s);
    } else {
      PrefixSubsequence(s[1..], n - 1);
      assert s[..n][1..] == s[1..][..n - 1];
    }
  }

  // ---------------------------------------------------------------------
  // Recent and favourite courses (lines 291-328)

  /**
   * `[course, ...recent.filter(r => r.courseCode !== course.courseCode)].slice(0, maxRecent)`:
   * the course first, then the other recent courses in their order, as many
   * as `maxRecent` allows; a negative `maxRecent` counts from the end.
   */
  function WithRecent(recent: seq<Course>, course: Course, maxRecent: int): (r: seq<Course>)
    ensures 0 <= maxRecent ==> |r| <= maxRecent
    ensures 0 < maxRecent ==> |r| > 0 && r[0] == course
    ensures var rest := Filter(recent, (x: Course) => x.courseCode != course.courseCode);
      0 < maxRecent ==> |r| == Min(maxRecent, 1 + |rest|) && r[1..] == rest[..|r| - 1]
    ensures var rest := Filter(recent, (x: Course) => x.courseCode != course.courseCode);
      maxRecent <= 0 ==> r == ([course] + rest)[..if 1 + |rest| + maxRecent < 0 || maxRecent == 0 then 0 else 1 + |rest| + maxRecent]
  {
    var rest := Filter(recent, (x: Course) => x.courseCode != course.courseCode);
    var r := Text.Slice([course] + rest, 0, maxRecent);
    if 0 <= maxRecent then
      Text.SliceFromZero([course] + rest, maxRecent);
      assert 0 < maxRecent ==> r[1..] == rest[..|r| - 1];
      r
    else r
  }

  /**
   * The selected course heads the list, no other entry carries its code,
   * every other entry was recent, and when there is room every recent
   * course with another code is kept.
   */
  lemma WithRecentUnique(recent: seq<Course>, course: Course, maxRecent: int)
    requires 0 < maxRecent
    ensures forall i :: 1 <= i < |WithRecent(recent, course, maxRecent)| ==>
      WithRecent(recent, course, maxRecent)[i].courseCode != course.courseCode
    ensures forall i :: 1 <= i < |WithRecent(recent, course, maxRecent)| ==> WithRecent(recent, course, maxRecent)[i] in recent
    ensures |WithRecent(recent, course, maxRecent)| < maxRecent ==>
      forall c :: c in recent && c.courseCode != course.courseCode ==> c in WithRecent(recent, course, maxRecent)
  {
    var rest := Filter(recent, (x: Course) => x.courseCode != course.courseCode);
    var r := WithRecent(recent, course, maxRecent);
    Text.SliceFromZero([course] + rest, maxRecent);
    forall i | 1 <= i < |r|
      ensures r[i].courseCode != course.courseCode && r[i] in recent
    {
      assert r[i] == rest[i - 1];
      assert rest[i - 1] in rest;
    }
  }

  /** Selecting the course that already heads the recent list changes nothing. */
  lemma WithRecentIdempotent(recent: seq<Course>, course: Course, maxRecent: int)
    requires 0 < maxRecent
    ensures WithRecent(WithRecent(recent, course, maxRecent), course, maxRecent) == WithRecent(recent, course, maxRecent)
  {
    var r := WithRecent(recent, course, maxRecent);
    var f := (x: Course) => x.courseCode != course.courseCode;
    WithRecentUnique(recent, course, maxRecent);
    assert r == [course] + r[1..];
    assert forall i :: 0 <= i < |r[1..]| ==> f(r[1..][i]) by {
      forall i | 0 <= i < |r[1..]|
        ensures f(r[1..][i])
      {
        assert r[1..][i] == r[i + 1];
      }
    }
    FilterAll(r[1..], f);
    assert Filter(r, f) == r[1..] by {
      assert r[1..] == ([course] + r[1..])[1..];
    }
    Text.SliceFromZero([course] + r[1..], maxRecent);
  }

  /**
   * The favourites after `toggleFavorite(course)`: when the code is present,
   * exactly the favourites with another code, in order; else the course in
   * front of them.
   */
  function Toggled(favorites: seq<Course>, course: Course): (r: seq<Course>)
    ensures HasCode(favorites, course) ==> forall i :: 0 <= i < |r| ==> r[i].courseCode != course.courseCode
    ensures HasCode(favorites, course) ==> Subsequence(r, favorites)
    ensures HasCode(favorites, course) ==> r == Filter(favorites, (f: Course) => f.courseCode != course.courseCode)
    ensures HasCode(favorites, course) ==> forall c :: c in favorites && c.courseCode != course.courseCode ==> c in r
    ensures !HasCode(favorites, course) ==> r == [course] + favorites
  {
    if HasCode(favorites, course) then
      var r := Filter(favorites, (f: Course) => f.courseCode != course.courseCode);
      assert forall i :: 0 <= i < |r| ==> r[i] in r;
      r
    else [course] + favorites
  }

  /** Toggling a course that is not a favourite twice gives the favourites back. */
  lemma ToggleTwice(favorites: seq<Course>, course: Course)
    requires !HasCode(favorites, course)
    ensures Toggled(Toggled(favorites, course), course) == favorites
  {
    var once := [course] + favorites;
    assert once[0] == course;
    assert HasCode(once, course);
    var f := (x: Course) => x.courseCode != course.courseCode;
    assert forall i :: 0 <= i < |favorites| ==> f(favorites[i]);
    FilterAll(favorites, f);
    assert once[1..] == favorites;
  }

  /** `Selected ${course.courseName}`-style text: a missing name reads "undefined". */
  function Shown(field: Option<string>): string {
    if field.Some? then field.value else "undefined"
  }

  /** The object `handleCourseSelect` hands to `showInfo`. */
  function SelectedNotice(course: Course): Notifications.Fields {
    Notifications.ShowFields(Notifications.Info, "Selected " + Shown(course.courseName),
      Notifications.NoFields.(title := Some("Course Selected"), duration := Some(2000)))
  }

  /** The object `toggleFavorite` hands to `showInfo` (removed) or `showSuccess` (added). */
  function FavoriteNotice(favorites: seq<Course>, course: Course): Notifications.Fields {
    if HasCode(favorites, course) then
      Notifications.ShowFields(Notifications.Info, "Removed " + Shown(course.courseName) + " from favorites", Notifications.NoFields)
    else
      Notifications.ShowFields(Notifications.Success, "Added " + Shown(course.courseName) + " to favorites", Notifications.NoFields)
  }

  // ---------------------------------------------------------------------
  // ModernButton (lines 103-109)

  /** `onClick` is called only when the button is neither disabled nor loading, and has a handler. */
  function ClickFires(disabled: bool, loading: bool, hasOnClick: bool): (r: bool)
    ensures r <==> !disabled && !loading && hasOnClick
  {
    if disabled || loading then false else hasOnClick
  }

  // ---------------------------------------------------------------------
  // The selector

  datatype Key = ArrowDown | ArrowUp | Enter | Escape | OtherKey

  /** `searchTerm ? filteredCourses : suggestedCourses.flatMap(group => group.courses)`. */
  function Flatten(gs: seq<Group>): seq<Course> {
    if gs == [] then [] else gs[0].courses + Flatten(gs[1..])
  }

  class Selector {
    const courses: seq<Course>
    const showRecent: bool
    const showFavorites: bool
    const maxRecent: int
    var searchTerm: string
    var isOpen: bool
    var selectedIndex: int
    var recent: seq<Course>
    var favorites: seq<Course>

    /** The courses the keyboard moves over. */
    function Visible(): seq<Course>
      reads this
    {
      if searchTerm != "" then FilteredCourses(courses, searchTerm)
      else Flatten(Suggestions(courses, recent, favorites, searchTerm, showRecent, showFavorites, maxRecent))
    }

    constructor(courses: seq<Course>, showRecent: bool, showFavorites: bool, maxRecent: int)
      ensures this.courses == courses && this.showRecent == showRecent
      ensures this.showFavorites == showFavorites && this.maxRecent == maxRecent
      ensures searchTerm == "" && !isOpen && selectedIndex == -1 && recent == [] && favorites == []
    {
      this.courses := courses;
      this.showRecent := showRecent;
      this.showFavorites := showFavorites;
      this.maxRecent := maxRecent;
      searchTerm := "";
      isOpen := false;
      selectedIndex := -1;
      recent := [];
      favorites := [];
    }

    /** The mount effect: the lists stored earlier, when they parsed, for the lists that are shown. */
    method LoadStored(storedRecent: Option<seq<Course>>, storedFavorites: Option<seq<Course>>)
      modifies this
      ensures recent == if showRecent && storedRecent.Some? then storedRecent.value else old(recent)
      ensures favorites == if showFavorites && storedFavorites.Some? then storedFavorites.value else old(favorites)
      ensures searchTerm == old(searchTerm) && isOpen == old(isOpen) && selectedIndex == old(selectedIndex)
    {
      if showRecent && storedRecent.Some? {
        recent := storedRecent.value;
      }
      if showFavorites && storedFavorites.Some? {
        favorites := storedFavorites.value;
      }
    }

    /** The input's `onChange`. */
    method Type(term: string)
      modifies this
      ensures searchTerm == term && isOpen == old(isOpen) && selectedIndex == old(selectedIndex)
      ensures recent == old(recent) && favorites == old(favorites)
    {
      searchTerm := term;
    }

    /**
     * The input's focus as written: the element carries two `onFocus` props,
     * and the later one, which only restyles the border, replaces the one
     * that opens the dropdown. No state of the selector changes.
     */
    method Focus()
      ensures searchTerm == old(searchTerm) && isOpen == old(isOpen) && selectedIndex == old(selectedIndex)
      ensures recent == old(recent) && favorites == old(favorites)
    {
    }

    /** The input's focus as evidently intended: `setIsOpen(true)`. */
    method FocusIntended()
      modifies this
      ensures isOpen && searchTerm == old(searchTerm) && selectedIndex == old(selectedIndex)
      ensures recent == old(recent) && favorites == old(favorites)
    {
      isOpen := true;
    }

    /** A click outside the dropdown. */
    method ClickOutside()
      modifies this
      ensures !isOpen && selectedIndex == -1 && searchTerm == old(searchTerm)
      ensures recent == old(recent) && favorites == old(favorites)
    {
      isOpen := false;
      selectedIndex := -1;
    }

    /** `handleCourseSelect(course)`: the code passed to `onCourseSelect`, and the notice posted. */
    method SelectCourse(course: Course) returns (code: Option<string>, notice: Notifications.Fields)
      modifies this
      ensures searchTerm == "" && !isOpen && selectedIndex == -1
      ensures recent == if showRecent then WithRecent(old(recent), course, maxRecent) else old(recent)
      ensures favorites == old(favorites)
      ensures code == course.courseCode && notice == SelectedNotice(course)
    {
      searchTerm := "";
      isOpen := false;
      selectedIndex := -1;
      if showRecent {
        recent := WithRecent(recent, course, maxRecent);
      }
      code := course.courseCode;
      notice := SelectedNotice(course);
    }

    /** `toggleFavorite(course)`. */
    method ToggleFavorite(course: Course) returns (notice: Notifications.Fields)
      modifies this
      ensures favorites == Toggled(old(favorites), course)
      ensures notice == FavoriteNotice(old(favorites), course)
      ensures recent == old(recent) && searchTerm == old(searchTerm) && isOpen == old(isOpen) && selectedIndex == old(selectedIndex)
    {
      notice := FavoriteNotice(favorites, course);
      favorites := Toggled(favorites, course);
    }

    /** `handleKeyDown`: the course Enter selects, if any. */
    method HandleKey(key: Key) returns (chosen: Option<Course>)
      modifies this
      ensures !old(isOpen) || key == OtherKey || (key == Enter && chosen.None?) ==>
        chosen.None? && isOpen == old(isOpen) && selectedIndex == old(selectedIndex)
        && searchTerm == old(searchTerm) && recent == old(recent)
      ensures old(isOpen) && (key == ArrowDown || key == ArrowUp) ==>
        chosen.None? && isOpen && searchTerm == old(searchTerm) && recent == old(recent)
      ensures old(isOpen) && key == ArrowDown ==> selectedIndex == Selection.Down(old(selectedIndex), |old(Visible())|)
      ensures old(isOpen) && key == ArrowUp ==> selectedIndex == Selection.Up(old(selectedIndex), |old(Visible())|)
      ensures old(isOpen) && key == Enter ==>
        chosen == (if 0 <= old(selectedIndex) < |old(Visible())| then Some(old(Visible())[old(selectedIndex)]) else None)
      ensures old(isOpen) && key == Enter && chosen.Some? ==>
        !isOpen && selectedIndex == -1 && searchTerm == ""
        && recent == (if showRecent then WithRecent(old(recent), chosen.value, maxRecent) else old(recent))
      ensures old(isOpen) && key == Escape ==>
        !isOpen && selectedIndex == -1 && chosen.None? && searchTerm == old(searchTerm) && recent == old(recent)
      ensures favorites == old(favorites)
    {
      chosen := None;
      if !isOpen {
        return;
      }
      var all := Visible();
      match key {
        case ArrowDown =>
          selectedIndex := if selectedIndex < |all| - 1 then selectedIndex + 1 else 0;
        case ArrowUp =>
          selectedIndex := if selectedIndex > 0 then selectedIndex - 1 else |all| - 1;
        case Enter =>
          if selectedIndex >= 0 && selectedIndex < |all| {
            chosen := Some(all[selectedIndex]);
            var _, _ := SelectCourse(all[selectedIndex]);
          }
        case Escape =>
          isOpen := false;
          selectedIndex := -1;
        case OtherKey =>
      }
    }
  }

  /** What the user can do to the selector while the program runs as written. */
  datatype Event =
    | Mounted(storedRecent: Option<seq<Course>>, storedFavorites: Option<seq<Course>>)
    | Typed(term: string)
    | Focused
    | KeyDown(key: Key)
    | ClickedOutside
    | Clicked(course: Course)
    | Starred(course: Course)

  /**
   * A selector driven by `events` through the handlers as written: it never
   * opens, its index stays -1, and no key ever selects a course.
   */
  method RunAsWritten(courses: seq<Course>, showRecent: bool, showFavorites: bool, maxRecent: int, events: seq<Event>)
    returns (everOpen: bool, index: int, keyChosen: seq<Course>)
    ensures !everOpen && index == -1 && keyChosen == []
  {
    var sel := new Selector(courses, showRecent, showFavorites, maxRecent);
    everOpen, keyChosen := false, [];
    var i := 0;
    while i < |events|
      invariant 0 <= i <= |events|
      invariant !sel.isOpen && sel.selectedIndex == -1
      invariant !everOpen && keyChosen == []
    {
      match events[i] {
        case Mounted(r, f) => sel.LoadStored(r, f);
        case Typed(t) => sel.Type(t);
        case Focused => sel.Focus();
        case KeyDown(k) =>
          var chosen := sel.HandleKey(k);
          if chosen.Some? {
            keyChosen := keyChosen + [chosen.value];
          }
        case ClickedOutside => sel.ClickOutside();
        case Clicked(c) => var _, _ := sel.SelectCourse(c);
        case Starred(c) => var _ := sel.ToggleFavorite(c);
      }
      everOpen := everOpen || sel.isOpen;
      i := i + 1;
    }
    index := sel.selectedIndex;
  }

  /** Focus, ArrowDown, Enter on a new selector, as written: nothing is chosen. */
  method FocusThenEnterAsWritten(courses: seq<Course>, showRecent: bool, showFavorites: bool, maxRecent: int)
    returns (visible: seq<Course>, chosen: Option<Course>)
    ensures visible == Flatten(Suggestions(courses, [], [], "", showRecent, showFavorites, maxRecent))
    ensures chosen.None?
  {
    var sel := new Selector(courses, showRecent, showFavorites, maxRecent);
    visible := sel.Visible();
    sel.Focus();
    var _ := sel.HandleKey(ArrowDown);
    chosen := sel.HandleKey(Enter);
  }

  /**
   * Focus, ArrowDown, Enter on a new selector, with focus opening the
   * dropdown: the first visible course is chosen, if there is one.
   */
  method FocusThenEnter(courses: seq<Course>, showRecent: bool, showFavorites: bool, maxRecent: int)
    returns (visible: seq<Course>, chosen: Option<Course>)
    ensures visible == Flatten(Suggestions(courses, [], [], "", showRecent, showFavorites, maxRecent))
    ensures chosen == if visible == [] then None else Some(visible[0])
  {
    var sel := new Selector(courses, showRecent, showFavorites, maxRecent);
    visible := sel.Visible();
    sel.FocusIntended();
    var _ := sel.HandleKey(ArrowDown);
    chosen := sel.HandleKey(Enter);
  }
}
