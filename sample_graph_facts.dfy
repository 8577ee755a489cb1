/**
 * What the sample-data graph route guarantees: node ids, the order of the
 * nodes, which references become nodes (with multiplicity), and which edges
 * are drawn.
 */
module SampleGraphFacts {
  import opened Wrappers
  import opened Text
  import opened Records
  import opened SampleServer
  import opened SampleGraph

  // ---------------------------------------------------------------------
  // The string order and the sorted year keys

  lemma {:induction false} StringLessIrreflexive(a: string)
    ensures !StringLess(a, a)
    decreases |a|
  {
    if a != [] {
      StringLessIrreflexive(a[1..]);
    }
  }

  lemma {:induction false} StringLessTransitive(a: string, b: string, c: string)
    requires StringLess(a, b) && StringLess(b, c)
    ensures StringLess(a, c)
    decreases |a|
  {
    if a != [] && b != [] && c != [] && a[0] == b[0] && b[0] == c[0] {
      StringLessTransitive(a[1..], b[1..], c[1..]);
    }
  }

  lemma {:induction false} StringLessTotal(a: string, b: string)
    requires a != b
    ensures StringLess(a, b) || StringLess(b, a)
    decreases |a|
  {
    if a != [] && b != [] && a[0] == b[0] {
      assert a == [a[0]] + a[1..] && b == [b[0]] + b[1..];
      StringLessTotal(a[1..], b[1..]);
    }
  }

  lemma StringLessAsymmetric(a: string, b: string)
    requires StringLess(a, b)
    ensures !StringLess(b, a)
  {
    if StringLess(b, a) {
      StringLessTransitive(a, b, a);
      StringLessIrreflexive(a);
    }
  }

  /** Inserting into an ascending list keeps it ascending. */
  lemma {:induction false} InsertSorted(k: string, s: seq<string>)
    requires Sorted(s)
    ensures Sorted(Insert(k, s))
    decreases |s|
  {
    if s == [] || !StringLess(s[0], k) {
      forall j | 0 <= j < |s|
        ensures !StringLess(s[j], k)
      {
        if StringLess(s[j], k) && s[j] != s[0] {
          StringLessTotal(s[j], s[0]);
          StringLessTransitive(s[0], s[j], k);
        }
      }
    } else {
      InsertSorted(k, s[1..]);
      var r := Insert(k, s[1..]);
      forall j | 0 <= j < |r|
        ensures !StringLess(r[j], s[0])
      {
        assert r[j] in multiset(r);
        if r[j] == k {
          StringLessAsymmetric(s[0], k);
        } else {
          assert r[j] in multiset(s[1..]);
          var i :| 0 <= i < |s[1..]| && s[1..][i] == r[j];
          assert s[i + 1] == r[j];
        }
      }
    }
  }

  /** The year keys come out ascending. */
  lemma {:induction false} SortKeysSorted(keys: seq<string>)
    ensures Sorted(SortKeys(keys))
    decreases |keys|
  {
    if keys != [] {
      SortKeysSorted(keys[1..]);
      InsertSorted(keys[0], SortKeys(keys[1..]));
    }
  }

  lemma {:induction false} DistinctCount(s: seq<string>, x: string)
    requires Distinct(s)
    ensures multiset(s)[x] <= 1
    decreases |s|
  {
    if s != [] {
      assert s == [s[0]] + s[1..];
      DistinctCount(s[1..], x);
      if x == s[0] {
        assert x !in s[1..];
      }
    }
  }

  lemma TwoCopies(s: seq<string>, i: nat, j: nat)
    requires i < j < |s| && s[i] == s[j]
    ensures multiset(s)[s[i]] >= 2
  {
    assert s == s[..j] + s[j..];
    assert s[..j][i] == s[i];
    assert s[j..][0] == s[i];
    assert s[i] in multiset(s[..j]) && s[i] in multiset(s[j..]);
  }

  /** A rearrangement of distinct keys has distinct keys. */
  lemma DistinctPermutation(s: seq<string>, t: seq<string>)
    requires Distinct(s) && multiset(s) == multiset(t)
    ensures Distinct(t)
  {
    forall i, j | 0 <= i < j < |t|
      ensures t[i] != t[j]
    {
      if t[i] == t[j] {
        TwoCopies(t, i, j);
        DistinctCount(s, t[i]);
      }
    }
  }

  /** With distinct keys, the sorted keys are strictly ascending. */
  lemma SortedYears(t: YearTable)
    requires TableValid(t)
    ensures forall i, j :: 0 <= i < j < |SortKeys(t.keys)| ==> StringLess(SortKeys(t.keys)[i], SortKeys(t.keys)[j])
  {
    var years := SortKeys(t.keys);
    SortKeysSorted(t.keys);
    DistinctPermutation(t.keys, years);
    forall i, j | 0 <= i < j < |years|
      ensures StringLess(years[i], years[j])
    {
      StringLessTotal(years[i], years[j]);
    }
  }

  // ---------------------------------------------------------------------
  // Node ids

  lemma NodeIdInjective(m: nat, n: nat)
    requires m != n
    ensures NodeId(m) != NodeId(n)
  {
    NatToStringInjective(m, n);
    assert NodeId(m)[5..] == NatToString(m);
    assert NodeId(n)[5..] == NatToString(n);
  }

  /** Node ids are `node_1`, `node_2`, ... in creation order, hence pairwise distinct. */
  lemma GraphNodeIds(modules: seq<SampleModule>, c: SampleCourse)
    ensures var nodes := GraphNodes(modules, c);
      && (forall i :: 0 <= i < |nodes| ==> nodes[i].id == NodeId(i + 1))
      && (forall i, j :: 0 <= i < j < |nodes| ==> nodes[i].id != nodes[j].id)
  {
    var t := TableOf(modules, c);
    var ps := Placements(t, SortKeys(t.keys));
    NodesOfAt(ps);
    var nodes := GraphNodes(modules, c);
    forall i, j | 0 <= i < j < |nodes|
      ensures nodes[i].id != nodes[j].id
    {
      NodeIdInjective(i + 1, j + 1);
    }
  }

  // ---------------------------------------------------------------------
  // Node order

  /** Placement `q` may follow placement `p`: not an earlier year, and no core entry after an optional one of its year. */
  predicate InOrder(p: Placement, q: Placement) {
    && !StringLess(q.year, p.year)
    && (p.year == q.year && q.moduleType == CoreModule ==> p.moduleType == CoreModule)
  }

  predicate Ordered(ps: seq<Placement>) {
    forall i, j :: 0 <= i < j < |ps| ==> InOrder(ps[i], ps[j])
  }

  /** Within a year: every entry carries the year, and the core ones come first. */
  lemma YearPlacementsShape(t: YearTable, year: string, yearIndex: nat, k: nat)
    requires k < |YearPlacements(t, year, yearIndex)|
    ensures YearPlacements(t, year, yearIndex)[k].year == year
    ensures YearPlacements(t, year, yearIndex)[k].moduleType == CoreModule <==> k < |t.buckets[year].core|
  {
  }

  /** Every placement carries one of the `years`. */
  predicate YearsWithin(ps: seq<Placement>, years: seq<string>) {
    forall i :: 0 <= i < |ps| ==> ps[i].year in years
  }

  /** Every placement of `years` carries one of those years. */
  lemma {:induction false} PlacementYears(t: YearTable, years: seq<string>)
    ensures YearsWithin(Placements(t, years), years)
    decreases |years|
  {
    if years != [] {
      var n := |years|;
      PlacementYears(t, years[..n - 1]);
      var a := Placements(t, years[..n - 1]);
      var y := YearPlacements(t, years[n - 1], n - 1);
      var ps: seq<Placement> := a + y;
      forall i | 0 <= i < |ps|
        ensures ps[i].year in years
      {
        if i < |a| {
          assert a[i].year in years[..n - 1];
        } else {
          YearPlacementsShape(t, years[n - 1], n - 1, i - |a|);
        }
      }
    }
  }

  /** The order of two placements, one from an earlier year and one from the last year. */
  lemma EarlierYear(years: seq<string>, x: string)
    requires years != []
    requires forall i, j :: 0 <= i < j < |years| ==> StringLess(years[i], years[j])
    requires x in years[..|years| - 1]
    ensures StringLess(x, years[|years| - 1])
  {
    var k :| 0 <= k < |years| - 1 && years[k] == x;
  }

  /** Two ordered runs, each entry of the first in order with each of the second, make an ordered run. */
  lemma OrderedConcat(a: seq<Placement>, y: seq<Placement>)
    requires Ordered(a) && Ordered(y)
    requires forall i, j :: 0 <= i < |a| && 0 <= j < |y| ==> InOrder(a[i], y[j])
    ensures Ordered(a + y)
  {
    var ps := a + y;
    forall i, j | 0 <= i < j < |ps|
      ensures InOrder(ps[i], ps[j])
    {
      if j < |a| {
        assert ps[i] == a[i] && ps[j] == a[j];
      } else if i < |a| {
        assert ps[i] == a[i] && ps[j] == y[j - |a|];
      } else {
        assert ps[i] == y[i - |a|] && ps[j] == y[j - |a|];
      }
    }
  }

  /** One year's placements are in order: its core entries, then its optional ones. */
  lemma YearOrdered(t: YearTable, year: string, yearIndex: nat)
    ensures Ordered(YearPlacements(t, year, yearIndex))
  {
    var y := YearPlacements(t, year, yearIndex);
    StringLessIrreflexive(year);
    forall i, j | 0 <= i < j < |y|
      ensures InOrder(y[i], y[j])
    {
      YearPlacementsShape(t, year, yearIndex, i);
      YearPlacementsShape(t, year, yearIndex, j);
    }
  }

  /** Appending the last year's placements keeps the order. */
  lemma OrderedAppendYear(t: YearTable, years: seq<string>)
    requires years != []
    requires forall i, j :: 0 <= i < j < |years| ==> StringLess(years[i], years[j])
    requires Ordered(Placements(t, years[..|years| - 1]))
    requires YearsWithin(Placements(t, years[..|years| - 1]), years[..|years| - 1])
    ensures Ordered(Placements(t, years))
  {
    var n := |years|;
    var last := years[n - 1];
    var a := Placements(t, years[..n - 1]);
    var y := YearPlacements(t, last, n - 1);
    YearOrdered(t, last, n - 1);
    StringLessIrreflexive(last);
    forall i, j | 0 <= i < |a| && 0 <= j < |y|
      ensures InOrder(a[i], y[j])
    {
      YearPlacementsShape(t, last, n - 1, j);
      EarlierYear(years, a[i].year);
      StringLessAsymmetric(a[i].year, last);
    }
    OrderedConcat(a, y);
  }

  /**
   * Placements follow the years in the order given and, within a year, all
   * core entries precede all optional ones.
   */
  lemma {:induction false} PlacementOrder(t: YearTable, years: seq<string>)
    requires forall i, j :: 0 <= i < j < |years| ==> StringLess(years[i], years[j])
    ensures Ordered(Placements(t, years))
    decreases |years|
  {
    if years != [] {
      PlacementOrder(t, years[..|years| - 1]);
      PlacementYears(t, years[..|years| - 1]);
      OrderedAppendYear(t, years);
    }
  }

  /** `modulesByYear` as built by the route keeps its keys and buckets in step. */
  lemma TableOfValid(modules: seq<SampleModule>, c: SampleCourse)
    ensures TableValid(TableOf(modules, c))
  {
    BucketedValid(modules, c.core, true, EmptyTable);
    BucketedValid(modules, c.optional, false, Bucketed(modules, c.core, true, EmptyTable));
  }

  /**
   * Nodes come year by year in the string order of the year keys, and within
   * a year every core node precedes every optional node.
   */
  lemma GraphNodeOrder(modules: seq<SampleModule>, c: SampleCourse)
    ensures var nodes := GraphNodes(modules, c);
      forall i, j :: 0 <= i < j < |nodes| ==>
        && !StringLess(nodes[j].data.year, nodes[i].data.year)
        && (nodes[i].data.year == nodes[j].data.year && nodes[j].data.moduleType == CoreModule
            ==> nodes[i].data.moduleType == CoreModule)
  {
    var t := TableOf(modules, c);
    TableOfValid(modules, c);
    SortedYears(t);
    var ps := Placements(t, SortKeys(t.keys));
    PlacementOrder(t, SortKeys(t.keys));
    NodesOfAt(ps);
    var nodes := GraphNodes(modules, c);
    forall i, j | 0 <= i < j < |nodes|
      ensures InOrder(ps[i], ps[j])
    {
    }
  }

  // ---------------------------------------------------------------------
  // Which references become nodes

  /** A node as module, year key and type. */
  datatype Entry = Entry(sampleModule: SampleModule, year: string, moduleType: ModuleType)

  function TypeOfList(isCore: bool): ModuleType {
    if isCore then CoreModule else OptionalModule
  }

  /** One entry per reference whose module exists, under the reference's year key. */
  function RefEntries(modules: seq<SampleModule>, refs: seq<ModuleRef>, moduleType: ModuleType): multiset<Entry>
    decreases |refs|
  {
    if refs == [] then multiset{}
    else
      var ref := refs[|refs| - 1];
      RefEntries(modules, refs[..|refs| - 1], moduleType)
        + match FindSampleModule(modules, ref.code)
          case None => multiset{}
          case Some(m) => multiset{Entry(m, YearKey(ref.year), moduleType)}
  }

  /** The number of references whose module exists. */
  function FoundCount(modules: seq<SampleModule>, refs: seq<ModuleRef>): nat
    decreases |refs|
  {
    if refs == [] then 0
    else FoundCount(modules, refs[..|refs| - 1]) + (if FindSampleModule(modules, refs[|refs| - 1].code).Some? then 1 else 0)
  }

  function ListEntries(ms: seq<SampleModule>, year: string, moduleType: ModuleType): seq<Entry> {
    seq(|ms|, j requires 0 <= j < |ms| => Entry(ms[j], year, moduleType))
  }

  function KeyEntries(t: YearTable, k: string): multiset<Entry> {
    if k in t.buckets then
      multiset(ListEntries(t.buckets[k].core, k, CoreModule) + ListEntries(t.buckets[k].optional, k, OptionalModule))
    else multiset{}
  }

  function TableEntries(t: YearTable, keys: seq<string>): multiset<Entry>
    decreases |keys|
  {
    if keys == [] then multiset{} else TableEntries(t, keys[..|keys| - 1]) + KeyEntries(t, keys[|keys| - 1])
  }

  lemma {:induction false} TableEntriesAppend(t: YearTable, a: seq<string>, b: seq<string>)
    ensures TableEntries(t, a + b) == TableEntries(t, a) + TableEntries(t, b)
    decreases |b|
  {
    if b == [] {
      assert a + b == a;
    } else {
      TableEntriesAppend(t, a, b[..|b| - 1]);
      assert (a + b)[..|a + b| - 1] == a + b[..|b| - 1];
    }
  }

  lemma TableEntriesCons(t: YearTable, keys: seq<string>)
    requires keys != []
    ensures TableEntries(t, keys) == KeyEntries(t, keys[0]) + TableEntries(t, keys[1..])
  {
    TableEntriesAppend(t, [keys[0]], keys[1..]);
    assert [keys[0]] + keys[1..] == keys;
    assert [keys[0]][..0] == [];
  }

  lemma {:induction false} TableEntriesInsert(t: YearTable, k: string, s: seq<string>)
    ensures TableEntries(t, Insert(k, s)) == KeyEntries(t, k) + TableEntries(t, s)
    decreases |s|
  {
    var r := Insert(k, s);
    TableEntriesCons(t, r);
    if s == [] || !StringLess(s[0], k) {
      assert r[1..] == s;
    } else {
      assert r[1..] == Insert(k, s[1..]);
      TableEntriesInsert(t, k, s[1..]);
      TableEntriesCons(t, s);
    }
  }

  /** Sorting the year keys does not change what the years hold. */
  lemma {:induction false} TableEntriesSort(t: YearTable, keys: seq<string>)
    ensures TableEntries(t, SortKeys(keys)) == TableEntries(t, keys)
    decreases |keys|
  {
    if keys != [] {
      TableEntriesSort(t, keys[1..]);
      TableEntriesInsert(t, keys[0], SortKeys(keys[1..]));
      TableEntriesCons(t, keys);
    }
  }

  lemma {:induction false} TableEntriesSame(t: YearTable, t2: YearTable, keys: seq<string>)
    requires forall k :: k in keys ==> KeyEntries(t, k) == KeyEntries(t2, k)
    ensures TableEntries(t, keys) == TableEntries(t2, keys)
    decreases |keys|
  {
    if keys != [] {
      TableEntriesSame(t, t2, keys[..|keys| - 1]);
    }
  }

  lemma ListEntriesSnoc(ms: seq<SampleModule>, m: SampleModule, year: string, moduleType: ModuleType)
    ensures multiset(ListEntries(ms + [m], year, moduleType)) == multiset(ListEntries(ms, year, moduleType)) + multiset{Entry(m, year, moduleType)}
  {
    assert ListEntries(ms + [m], year, moduleType) == ListEntries(ms, year, moduleType) + [Entry(m, year, moduleType)];
  }

  /** Pushing a module onto one list of a bucket adds its entry to the bucket's entries. */
  lemma PushEntries(b: Bucket, key: string, m: SampleModule, isCore: bool)
    ensures var b2 := if isCore then b.(core := b.core + [m]) else b.(optional := b.optional + [m]);
      multiset(ListEntries(b2.core, key, CoreModule) + ListEntries(b2.optional, key, OptionalModule))
      == multiset(ListEntries(b.core, key, CoreModule) + ListEntries(b.optional, key, OptionalModule)) + multiset{Entry(m, key, TypeOfList(isCore))}
  {
    if isCore {
      ListEntriesSnoc(b.core, m, key, CoreModule);
    } else {
      ListEntriesSnoc(b.optional, m, key, OptionalModule);
    }
  }

  /** The bucket of `key` after `Place` holds one more entry. */
  lemma PlaceKeyEntries(t: YearTable, key: string, m: SampleModule, isCore: bool)
    ensures KeyEntries(Place(t, key, m, isCore), key) == KeyEntries(t, key) + multiset{Entry(m, key, TypeOfList(isCore))}
  {
    var t1 := if key in t.buckets then t else YearTable(t.keys + [key], t.buckets[key := Bucket([], [])]);
    var b := t1.buckets[key];
    PushEntries(b, key, m, isCore);
    if key !in t.buckets {
      assert b == Bucket([], []);
      assert ListEntries(b.core, key, CoreModule) == [] && ListEntries(b.optional, key, OptionalModule) == [];
    }
  }

  lemma PlaceOtherKeys(t: YearTable, key: string, m: SampleModule, isCore: bool, keys: seq<string>)
    requires key !in keys
    ensures TableEntries(Place(t, key, m, isCore), keys) == TableEntries(t, keys)
  {
    var t2 := Place(t, key, m, isCore);
    forall k | k in keys
      ensures KeyEntries(t, k) == KeyEntries(t2, k)
    {
      assert k != key;
    }
    TableEntriesSame(t, t2, keys);
  }

  /** The sum over keys split around one position. */
  lemma TableEntriesSplit(t: YearTable, keys: seq<string>, i: nat)
    requires i < |keys|
    ensures TableEntries(t, keys) == TableEntries(t, keys[..i]) + KeyEntries(t, keys[i]) + TableEntries(t, keys[i + 1..])
  {
    assert keys == keys[..i] + [keys[i]] + keys[i + 1..];
    TableEntriesAppend(t, keys[..i] + [keys[i]], keys[i + 1..]);
    TableEntriesAppend(t, keys[..i], [keys[i]]);
    assert [keys[i]][..0] == [];
  }

  /** `Place` into the year at position `i` of the keys adds the placed module's entry. */
  lemma PlaceEntriesAt(t: YearTable, key: string, m: SampleModule, isCore: bool, i: nat)
    requires key in t.buckets && i < |t.keys| && t.keys[i] == key
    requires key !in t.keys[..i] && key !in t.keys[i + 1..]
    ensures var t2 := Place(t, key, m, isCore);
      TableEntries(t2, t2.keys) == TableEntries(t, t.keys) + multiset{Entry(m, key, TypeOfList(isCore))}
  {
    var t2 := Place(t, key, m, isCore);
    assert t2.keys == t.keys;
    var left, right := t.keys[..i], t.keys[i + 1..];
    PlaceKeyEntries(t, key, m, isCore);
    PlaceOtherKeys(t, key, m, isCore, left);
    PlaceOtherKeys(t, key, m, isCore, right);
    TableEntriesSplit(t, t.keys, i);
    TableEntriesSplit(t2, t.keys, i);
  }

  /** `Place` into a year already present adds the placed module's entry. */
  lemma PlaceEntriesPresent(t: YearTable, key: string, m: SampleModule, isCore: bool)
    requires TableValid(t) && key in t.buckets
    ensures var t2 := Place(t, key, m, isCore);
      TableEntries(t2, t2.keys) == TableEntries(t, t.keys) + multiset{Entry(m, key, TypeOfList(isCore))}
  {
    var i :| 0 <= i < |t.keys| && t.keys[i] == key;
    assert key !in t.keys[..i] && key !in t.keys[i + 1..];
    PlaceEntriesAt(t, key, m, isCore, i);
  }

  /** `Place` into a new year adds the year with just the placed module's entry. */
  lemma PlaceEntriesNew(t: YearTable, key: string, m: SampleModule, isCore: bool)
    requires TableValid(t) && key !in t.buckets
    ensures var t2 := Place(t, key, m, isCore);
      TableEntries(t2, t2.keys) == TableEntries(t, t.keys) + multiset{Entry(m, key, TypeOfList(isCore))}
  {
    var t2 := Place(t, key, m, isCore);
    assert t2.keys == t.keys + [key];
    assert (t.keys + [key])[..|t.keys|] == t.keys;
    PlaceKeyEntries(t, key, m, isCore);
    PlaceOtherKeys(t, key, m, isCore, t.keys);
  }

  /** `Place` adds exactly the placed module's entry to the table. */
  lemma PlaceEntries(t: YearTable, key: string, m: SampleModule, isCore: bool)
    requires TableValid(t)
    ensures var t2 := Place(t, key, m, isCore);
      TableEntries(t2, t2.keys) == TableEntries(t, t.keys) + multiset{Entry(m, key, TypeOfList(isCore))}
  {
    if key in t.buckets {
      PlaceEntriesPresent(t, key, m, isCore);
    } else {
      PlaceEntriesNew(t, key, m, isCore);
    }
  }

  /** Bucketing a list adds one entry per reference whose module exists. */
  lemma {:induction false} BucketedEntries(modules: seq<SampleModule>, refs: seq<ModuleRef>, isCore: bool, t: YearTable)
    requires TableValid(t)
    ensures var b := Bucketed(modules, refs, isCore, t);
      TableEntries(b, b.keys) == TableEntries(t, t.keys) + RefEntries(modules, refs, TypeOfList(isCore))
    decreases |refs|
  {
    if refs != [] {
      var init := refs[..|refs| - 1];
      BucketedEntries(modules, init, isCore, t);
      BucketedValid(modules, init, isCore, t);
      var ref := refs[|refs| - 1];
      var before := Bucketed(modules, init, isCore, t);
      match FindSampleModule(modules, ref.code)
      case None =>
      case Some(m) =>
        PlaceEntries(before, YearKey(ref.year), m, isCore);
    }
  }

  function PlacementEntries(ps: seq<Placement>): seq<Entry> {
    seq(|ps|, i requires 0 <= i < |ps| => Entry(ps[i].sampleModule, ps[i].year, ps[i].moduleType))
  }

  lemma PlacementEntriesAppend(a: seq<Placement>, b: seq<Placement>)
    ensures PlacementEntries(a + b) == PlacementEntries(a) + PlacementEntries(b)
  {
  }

  /** The placements of one year hold exactly the entries of its bucket. */
  lemma YearEntries(t: YearTable, year: string, yearIndex: nat)
    ensures multiset(PlacementEntries(YearPlacements(t, year, yearIndex))) == KeyEntries(t, year)
  {
    if year in t.buckets {
      var b := t.buckets[year];
      var c := ListPlacements(b.core, year, yearIndex, 0, CoreModule);
      var o := ListPlacements(b.optional, year, yearIndex, |b.core|, OptionalModule);
      PlacementEntriesAppend(c, o);
      assert PlacementEntries(c) == ListEntries(b.core, year, CoreModule);
      assert PlacementEntries(o) == ListEntries(b.optional, year, OptionalModule);
    }
  }

  /** The placements of the years hold exactly the entries of those years' buckets. */
  lemma {:induction false} PlacementsEntries(t: YearTable, years: seq<string>)
    ensures multiset(PlacementEntries(Placements(t, years))) == TableEntries(t, years)
    decreases |years|
  {
    if years != [] {
      var n := |years|;
      PlacementsEntries(t, years[..n - 1]);
      YearEntries(t, years[n - 1], n - 1);
      PlacementEntriesAppend(Placements(t, years[..n - 1]), YearPlacements(t, years[n - 1], n - 1));
    }
  }

  /**
   * The nodes are exactly the references whose module exists, each once,
   * with the reference's year key and its list's type: a reference to a
   * missing module gives no node, and a module listed twice gives two nodes.
   */
  /** The entry each node carries, in node order. */
  function NodeEntries(nodes: seq<SampleNode>): seq<Entry> {
    seq(|nodes|, i requires 0 <= i < |nodes| => Entry(nodes[i].data.sampleModule, nodes[i].data.year, nodes[i].data.moduleType))
  }

  lemma NodeEntriesOf(ps: seq<Placement>)
    ensures NodeEntries(NodesOf(ps)) == PlacementEntries(ps)
  {
    NodesOfAt(ps);
  }

  /** The table holds one entry per reference, core then optional, whose module exists. */
  lemma TableOfEntries(modules: seq<SampleModule>, c: SampleCourse)
    ensures var t := TableOf(modules, c);
      TableEntries(t, t.keys) == RefEntries(modules, c.core, CoreModule) + RefEntries(modules, c.optional, OptionalModule)
  {
    var t0 := Bucketed(modules, c.core, true, EmptyTable);
    BucketedEntries(modules, c.core, true, EmptyTable);
    BucketedValid(modules, c.core, true, EmptyTable);
    BucketedEntries(modules, c.optional, false, t0);
  }

  lemma GraphNodeEntries(modules: seq<SampleModule>, c: SampleCourse)
    ensures multiset(NodeEntries(GraphNodes(modules, c)))
        == RefEntries(modules, c.core, CoreModule) + RefEntries(modules, c.optional, OptionalModule)
  {
    var t := TableOf(modules, c);
    var ps := Placements(t, SortKeys(t.keys));
    TableOfEntries(modules, c);
    PlacementsEntries(t, SortKeys(t.keys));
    TableEntriesSort(t, t.keys);
    NodeEntriesOf(ps);
  }

  lemma {:induction false} RefEntriesSize(modules: seq<SampleModule>, refs: seq<ModuleRef>, moduleType: ModuleType)
    ensures |RefEntries(modules, refs, moduleType)| == FoundCount(modules, refs)
    decreases |refs|
  {
    if refs != [] {
      RefEntriesSize(modules, refs[..|refs| - 1], moduleType);
    }
  }

  /** One node per reference, core or optional, whose module exists. */
  lemma GraphNodeCount(modules: seq<SampleModule>, c: SampleCourse)
    ensures |GraphNodes(modules, c)| == FoundCount(modules, c.core) + FoundCount(modules, c.optional)
  {
    GraphNodeEntries(modules, c);
    RefEntriesSize(modules, c.core, CoreModule);
    RefEntriesSize(modules, c.optional, OptionalModule);
    var nodes := GraphNodes(modules, c);
    assert |multiset(NodeEntries(nodes))| == |NodeEntries(nodes)|;
  }

  lemma {:induction false} RefEntriesMember(modules: seq<SampleModule>, refs: seq<ModuleRef>, moduleType: ModuleType, e: Entry)
    requires e in RefEntries(modules, refs, moduleType)
    ensures e.moduleType == moduleType
    ensures exists ref :: ref in refs && FindSampleModule(modules, ref.code) == Some(e.sampleModule) && YearKey(ref.year) == e.year
    decreases |refs|
  {
    var init := refs[..|refs| - 1];
    var ref := refs[|refs| - 1];
    if e in RefEntries(modules, init, moduleType) {
      RefEntriesMember(modules, init, moduleType, e);
      var r :| r in init && FindSampleModule(modules, r.code) == Some(e.sampleModule) && YearKey(r.year) == e.year;
      assert r in refs;
    } else {
      assert FindSampleModule(modules, ref.code) == Some(e.sampleModule) && YearKey(ref.year) == e.year;
    }
  }

  /**
   * Each node comes from a reference of its own list whose module exists,
   * under that reference's year key (`year || 1`), and its data takes the
   * defaults of `createNode`: the title 'Module', 20 credits, and the year
   * as level.
   */
  lemma GraphNodeOrigin(modules: seq<SampleModule>, c: SampleCourse, i: nat)
    requires i < |GraphNodes(modules, c)|
    ensures var n := GraphNodes(modules, c)[i];
      var m := n.data.sampleModule;
      && (exists ref :: ref in (if n.data.moduleType == CoreModule then c.core else c.optional)
            && FindSampleModule(modules, ref.code) == Some(m) && YearKey(ref.year) == n.data.year)
      && n.data.labelText == m.moduleCode + "\n" + (if m.title.Some? && m.title.value != "" then m.title.value else "Module")
      && n.data.credits == (if m.credits.Some? && m.credits.value != 0 then m.credits.value else 20)
      && n.data.level == (if m.level.Some? && m.level.value != 0 then LevelNumber(m.level.value) else LevelYear(n.data.year))
  {
    var nodes := GraphNodes(modules, c);
    var t := TableOf(modules, c);
    NodesOfAt(Placements(t, SortKeys(t.keys)));
    GraphNodeEntries(modules, c);
    var es := NodeEntries(nodes);
    var e := es[i];
    assert e in multiset(es);
    if e in RefEntries(modules, c.core, CoreModule) {
      RefEntriesMember(modules, c.core, CoreModule, e);
    } else {
      RefEntriesMember(modules, c.optional, OptionalModule, e);
    }
  }

  /** A course listing one existing module as core and as optional gets two nodes for it. */
  lemma ListedTwiceTwoNodes(m: SampleModule, c: SampleCourse)
    requires c.core == [ModuleRef(m.moduleCode, Some(1))] && c.optional == [ModuleRef(m.moduleCode, Some(2))]
    ensures |GraphNodes([m], c)| == 2
  {
    GraphNodeCount([m], c);
    assert c.core[..0] == [] && c.optional[..0] == [];
    assert FindSampleModule([m], m.moduleCode) == Some(m);
  }

  // ---------------------------------------------------------------------
  // Edges

  /** The lookup answers with the first node carrying the code. */
  lemma {:induction false} FirstWithCodeFirst(nodes: seq<SampleNode>, code: string, k: nat)
    requires k < |nodes| && nodes[k].data.sampleModule.moduleCode == code
    requires forall j :: 0 <= j < k ==> nodes[j].data.sampleModule.moduleCode != code
    ensures FirstWithCode(nodes, code) == Some(nodes[k])
  {
    if k > 0 {
      FirstWithCodeFirst(nodes[1..], code, k - 1);
    }
  }

  /** `e` is the edge drawn into `target` for its prerequisite entry `p`. */
  predicate DrawnFor(nodes: seq<SampleNode>, target: SampleNode, p: string, e: SampleEdge) {
    FirstWithCode(nodes, p).Some? && e == EdgeOf(FirstWithCode(nodes, p).value, target)
  }

  /** The edges into one node are exactly those for its entries that some node carries. */
  lemma {:induction false} LinksOfIff(nodes: seq<SampleNode>, target: SampleNode, prereqs: seq<string>)
    ensures forall e :: e in LinksOf(nodes, target, prereqs) <==> exists p :: p in prereqs && DrawnFor(nodes, target, p, e)
    decreases |prereqs|
  {
    if prereqs != [] {
      var init := prereqs[..|prereqs| - 1];
      var last := prereqs[|prereqs| - 1];
      LinksOfIff(nodes, target, init);
      assert prereqs == init + [last];
      var tail: seq<SampleEdge> := match FirstWithCode(nodes, last)
        case None => []
        case Some(source) => [EdgeOf(source, target)];
      assert LinksOf(nodes, target, prereqs) == LinksOf(nodes, target, init) + tail;
      forall e
        ensures e in LinksOf(nodes, target, prereqs) <==> exists p :: p in prereqs && DrawnFor(nodes, target, p, e)
      {
        if e in LinksOf(nodes, target, init) {
          var p :| p in init && DrawnFor(nodes, target, p, e);
          assert p in prereqs;
        } else if e in tail {
          assert DrawnFor(nodes, target, last, e);
        }
        if exists p :: p in prereqs && DrawnFor(nodes, target, p, e) {
          var p :| p in prereqs && DrawnFor(nodes, target, p, e);
          if p !in init {
            assert p == last;
            assert e in tail;
          }
        }
      }
    }
  }

  /** `e` is the edge drawn into `targets[i]` for one of its prerequisite entries. */
  predicate DrawnInto(nodes: seq<SampleNode>, targets: seq<SampleNode>, i: int, e: SampleEdge) {
    0 <= i < |targets| && exists p :: p in targets[i].data.sampleModule.prerequisites && DrawnFor(nodes, targets[i], p, e)
  }

  lemma DrawnIntoPrefix(nodes: seq<SampleNode>, targets: seq<SampleNode>, i: int, e: SampleEdge)
    requires targets != [] && 0 <= i < |targets| - 1
    ensures DrawnInto(nodes, targets[..|targets| - 1], i, e) <==> DrawnInto(nodes, targets, i, e)
  {
    assert targets[..|targets| - 1][i] == targets[i];
  }

  /** The edges into `targets` are those into all but the last, then the last one's links. */
  lemma EdgesFromSnoc(nodes: seq<SampleNode>, targets: seq<SampleNode>, init: seq<SampleNode>)
    requires targets != [] && init == targets[..|targets| - 1]
    ensures var last := targets[|targets| - 1];
      EdgesFrom(nodes, targets) == EdgesFrom(nodes, init) + LinksOf(nodes, last, last.data.sampleModule.prerequisites)
  {
  }

  /** Forward half of one edge's step of `EdgesFromIff`. */
  lemma EdgesFromStepIn(nodes: seq<SampleNode>, targets: seq<SampleNode>, init: seq<SampleNode>, e: SampleEdge)
    requires targets != [] && init == targets[..|targets| - 1]
    requires e in EdgesFrom(nodes, init) ==> exists i :: DrawnInto(nodes, init, i, e)
    requires e in EdgesFrom(nodes, targets)
    ensures exists i :: DrawnInto(nodes, targets, i, e)
  {
    var n := |targets|;
    var last := targets[n - 1];
    EdgesFromSnoc(nodes, targets, init);
    if e in EdgesFrom(nodes, init) {
      var i :| DrawnInto(nodes, init, i, e);
      DrawnIntoPrefix(nodes, targets, i, e);
    } else {
      LinksOfIff(nodes, last, last.data.sampleModule.prerequisites);
      assert DrawnInto(nodes, targets, n - 1, e);
    }
  }

  /** Backward half of one edge's step of `EdgesFromIff`. */
  lemma EdgesFromStepOut(nodes: seq<SampleNode>, targets: seq<SampleNode>, init: seq<SampleNode>, e: SampleEdge, i: int)
    requires targets != [] && init == targets[..|targets| - 1]
    requires (exists j :: DrawnInto(nodes, init, j, e)) ==> e in EdgesFrom(nodes, init)
    requires DrawnInto(nodes, targets, i, e)
    ensures e in EdgesFrom(nodes, targets)
  {
    var n := |targets|;
    var last := targets[n - 1];
    EdgesFromSnoc(nodes, targets, init);
    if i < n - 1 {
      DrawnIntoPrefix(nodes, targets, i, e);
      assert e in EdgesFrom(nodes, init);
    } else {
      var p :| p in last.data.sampleModule.prerequisites && DrawnFor(nodes, last, p, e);
      LinkDrawn(nodes, last, p, e);
    }
  }

  /** The edge drawn into `target` for one of its entries is among its links. */
  lemma LinkDrawn(nodes: seq<SampleNode>, target: SampleNode, p: string, e: SampleEdge)
    requires p in target.data.sampleModule.prerequisites && DrawnFor(nodes, target, p, e)
    ensures e in LinksOf(nodes, target, target.data.sampleModule.prerequisites)
  {
    LinksOfIff(nodes, target, target.data.sampleModule.prerequisites);
  }

  /**
   * An edge is drawn exactly for a node and one of its prerequisite entries
   * that some node carries; it runs from the first such node to the node.
   */
  lemma {:induction false} EdgesFromIff(nodes: seq<SampleNode>, targets: seq<SampleNode>)
    ensures forall e :: e in EdgesFrom(nodes, targets) <==> exists i :: DrawnInto(nodes, targets, i, e)
    decreases |targets|
  {
    if targets != [] {
      var init := targets[..|targets| - 1];
      EdgesFromIff(nodes, init);
      forall e
        ensures e in EdgesFrom(nodes, targets) <==> exists i :: DrawnInto(nodes, targets, i, e)
      {
        if e in EdgesFrom(nodes, targets) {
          EdgesFromStepIn(nodes, targets, init, e);
        }
        if exists i :: DrawnInto(nodes, targets, i, e) {
          var i :| DrawnInto(nodes, targets, i, e);
          EdgesFromStepOut(nodes, targets, init, e, i);
        }
      }
    }
  }

  /** Every edge of the graph runs between two of its nodes; the source carries the prerequisite's code. */
  lemma GraphEdgeEnds(modules: seq<SampleModule>, c: SampleCourse)
    ensures var nodes := GraphNodes(modules, c);
      forall e :: e in EdgesFrom(nodes, nodes) ==>
        exists i, j :: 0 <= i < |nodes| && 0 <= j < |nodes|
          && e.source == nodes[i].id && e.target == nodes[j].id
          && nodes[i].data.sampleModule.moduleCode in nodes[j].data.sampleModule.prerequisites
          && e.id == "edge_" + nodes[i].id + "_" + nodes[j].id
  {
    var nodes := GraphNodes(modules, c);
    EdgesFromIff(nodes, nodes);
    forall e | e in EdgesFrom(nodes, nodes)
      ensures exists i, j :: (0 <= i < |nodes| && 0 <= j < |nodes|
          && e.source == nodes[i].id && e.target == nodes[j].id
          && nodes[i].data.sampleModule.moduleCode in nodes[j].data.sampleModule.prerequisites
          && e.id == "edge_" + nodes[i].id + "_" + nodes[j].id)
    {
      var j :| DrawnInto(nodes, nodes, j, e);
      var p :| p in nodes[j].data.sampleModule.prerequisites && DrawnFor(nodes, nodes[j], p, e);
      var src := FirstWithCode(nodes, p).value;
      var i :| 0 <= i < |nodes| && nodes[i] == src;
    }
  }
}
