/**
 * `AdvancedSearchPanel`: the department, level and semester choices drawn
 * from the graph's nodes, the search over the nodes under the chosen
 * filters, the set of highlighted node ids, and the filter record the
 * panel's controls update.
 *
 * Node fields are strings the panel compares with `===`; a field may be
 * missing. Credits are whole numbers; a node without them fails the range
 * test, as `undefined` compares false with any number.
 */
module SearchPanel {
  import opened Wrappers
  import opened Seqs
  import Text

  datatype SearchNode = SearchNode(id: string, nodeLabel: Option<string>, moduleCode: Option<string>,
                                   description: Option<string>, department: Option<string>, level: Option<string>,
                                   semester: Option<string>, credits: Option<int>)

  /** The panel's `filters` state; `nodeTypes` and `prerequisites` are kept but not used by the search. */
  datatype Filters = Filters(nodeTypes: seq<string>, creditLow: int, creditHigh: int, semester: string, level: string,
                             prerequisites: string, department: string)

  /** The filters the panel starts with and the Clear button restores (AdvancedFeatures.js lines 224-231, 485-492). */
  const DefaultFilters: Filters := Filters([], 0, 60, "all", "all", "all", "all")

  // ---------------------------------------------------------------------
  // Filter choices (lines 236-238)

  /** `vals[i]` is the first occurrence of the value `x`. */
  predicate FirstAt(vals: seq<Option<string>>, x: string, i: int) {
    0 <= i < |vals| && vals[i] == Some(x) && forall k :: 0 <= k < i ==> vals[k] != Some(x)
  }

  /** `[...new Set(values.filter(Boolean))]`: the present, non-empty values, each once, in order of first occurrence. */
  function Distinct(vals: seq<Option<string>>): (r: seq<string>)
  {
    if vals == [] then []
    else
      var u := Distinct(vals[..|vals| - 1]);
      var last := vals[|vals| - 1];
      if last.Some? && last.value != "" && last.value !in u then u + [last.value] else u
  }

  /** The choices are exactly the present, non-empty values, with no value twice. */
  lemma {:induction false} DistinctSpec(vals: seq<Option<string>>)
    ensures forall x :: x in Distinct(vals) <==> x != "" && Some(x) in vals
    ensures forall i, j :: 0 <= i < j < |Distinct(vals)| ==> Distinct(vals)[i] != Distinct(vals)[j]
  {
    if vals != [] {
      var init := vals[..|vals| - 1];
      DistinctSpec(init);
      assert vals == init + [vals[|vals| - 1]];
    }
  }

  /** The choices come in the order of the values' first occurrences. */
  lemma {:induction false} DistinctOrder(vals: seq<Option<string>>)
    ensures forall i, j, a, b ::
      (0 <= i < j < |Distinct(vals)| && FirstAt(vals, Distinct(vals)[i], a) && FirstAt(vals, Distinct(vals)[j], b)) ==> a < b
  {
    if vals != [] {
      var init := vals[..|vals| - 1];
      var u := Distinct(init);
      var r := Distinct(vals);
      DistinctOrder(init);
      DistinctSpec(init);
      forall i, j, a, b | 0 <= i < j < |r| && FirstAt(vals, r[i], a) && FirstAt(vals, r[j], b)
        ensures a < b
      {
        assert r[i] == u[i];
        FirstInPrefix(vals, r[i], a);
        if j < |u| {
          assert r[j] == u[j];
          FirstInPrefix(vals, r[j], b);
        } else {
          assert r[j] == vals[|vals| - 1].value && Some(r[j]) !in init;
          assert forall k :: 0 <= k < |init| ==> init[k] == vals[k];
        }
      }
    }
  }

  lemma FirstInPrefix(vals: seq<Option<string>>, x: string, a: int)
    requires vals != [] && FirstAt(vals, x, a) && Some(x) in vals[..|vals| - 1]
    ensures a < |vals| - 1 && FirstAt(vals[..|vals| - 1], x, a)
  {
    var init := vals[..|vals| - 1];
    var k :| 0 <= k < |init| && init[k] == Some(x);
    assert vals[k] == Some(x);
  }

  datatype Attribute = DepartmentColumn | LevelColumn | SemesterColumn

  function Field(n: SearchNode, c: Attribute): Option<string> {
    match c
    case DepartmentColumn => n.department
    case LevelColumn => n.level
    case SemesterColumn => n.semester
  }

  /** `graphData.nodes.map(n => n.department)`, and likewise for level and semester. */
  function Column(nodes: seq<SearchNode>, c: Attribute): (r: seq<Option<string>>)
    ensures |r| == |nodes| && forall i :: 0 <= i < |nodes| ==> r[i] == Field(nodes[i], c)
  {
    seq(|nodes|, i requires 0 <= i < |nodes| => Field(nodes[i], c))
  }

  /** `departments`, `levels` and `semesters`. */
  function Choices(nodes: seq<SearchNode>, c: Attribute): seq<string> {
    Distinct(Column(nodes, c))
  }

  /** A department, level or semester is offered exactly when some node has it, and none is offered twice. */
  lemma ChoicesSpec(nodes: seq<SearchNode>, c: Attribute, x: string)
    ensures x in Choices(nodes, c) <==> x != "" && exists i :: 0 <= i < |nodes| && Field(nodes[i], c) == Some(x)
    ensures forall i, j :: 0 <= i < j < |Choices(nodes, c)| ==> Choices(nodes, c)[i] != Choices(nodes, c)[j]
  {
    var vs := Column(nodes, c);
    DistinctSpec(vs);
    if Some(x) in vs {
      var i :| 0 <= i < |vs| && vs[i] == Some(x);
    }
  }

  // ---------------------------------------------------------------------
  // performSearch (lines 241-270)

  predicate FieldHas(field: Option<string>, term: string) {
    field.Some? && Text.Contains(Text.Lower(field.value), term)
  }

  /** The label, code, description or department contains the lower-cased term. */
  predicate MatchesText(n: SearchNode, searchTerm: string) {
    var term := Text.Lower(searchTerm);
    FieldHas(n.nodeLabel, term) || FieldHas(n.moduleCode, term) || FieldHas(n.description, term) || FieldHas(n.department, term)
  }

  /** Each of department, level and semester is 'all' or equal, and the credits lie in the range, ends included. */
  predicate MatchesFilters(n: SearchNode, f: Filters) {
    && (f.department == "all" || n.department == Some(f.department))
    && (f.level == "all" || n.level == Some(f.level))
    && (f.semester == "all" || n.semester == Some(f.semester))
    && n.credits.Some? && f.creditLow <= n.credits.value <= f.creditHigh
  }

  function Results(nodes: seq<SearchNode>, searchTerm: string, f: Filters): (r: seq<SearchNode>)
    ensures Subsequence(r, nodes)
  {
    if Text.IsBlank(searchTerm) then EmptySubsequence(nodes); []
    else Filter(nodes, (n: SearchNode) => MatchesText(n, searchTerm) && MatchesFilters(n, f))
  }

  /** `new Set(results.map(n => n.id))`. */
  function Ids(results: seq<SearchNode>): set<string> {
    set i | 0 <= i < |results| :: results[i].id
  }

  /**
   * A blank term finds nothing; otherwise a node is found exactly when its
   * text matches and it passes the filters, and the results keep node order.
   */
  lemma ResultsSpec(nodes: seq<SearchNode>, searchTerm: string, f: Filters)
    ensures Text.IsBlank(searchTerm) ==> Results(nodes, searchTerm, f) == [] && Ids(Results(nodes, searchTerm, f)) == {}
    ensures !Text.IsBlank(searchTerm) ==> forall n :: n in Results(nodes, searchTerm, f) <==>
      n in nodes && MatchesText(n, searchTerm) && MatchesFilters(n, f)
  {
  }

  /** A node without credits is never found, whatever the term and filters. */
  lemma NoCreditsNoMatch(nodes: seq<SearchNode>, searchTerm: string, f: Filters, n: SearchNode)
    requires n.credits.None?
    ensures n !in Results(nodes, searchTerm, f)
  {
  }

  /** The highlighted ids are exactly the ids of the results. */
  lemma HighlightedSpec(results: seq<SearchNode>, id: string)
    ensures id in Ids(results) <==> exists n :: n in results && n.id == id
  {
    if exists n :: n in results && n.id == id {
      var n :| n in results && n.id == id;
      var i :| 0 <= i < |results| && results[i] == n;
      assert results[i].id in Ids(results);
    }
  }

  // ---------------------------------------------------------------------
  // updateFilter (lines 278-280)

  datatype FilterKey = NodeTypes | CreditRange | Semester | Level | Prerequisites | Department

  datatype FilterValue = Names(names: seq<string>) | Range(low: int, high: int) | Choice(choice: string)

  /** The value suits the key: a list for the node types, a pair for the credit range, a string otherwise. */
  predicate Suits(key: FilterKey, value: FilterValue) {
    match key
    case NodeTypes => value.Names?
    case CreditRange => value.Range?
    case _ => value.Choice?
  }

  /** `{...prev, [key]: value}`. */
  function WithFilter(f: Filters, key: FilterKey, value: FilterValue): Filters
    requires Suits(key, value)
  {
    match key
    case NodeTypes => f.(nodeTypes := value.names)
    case CreditRange => f.(creditLow := value.low, creditHigh := value.high)
    case Semester => f.(semester := value.choice)
    case Level => f.(level := value.choice)
    case Prerequisites => f.(prerequisites := value.choice)
    case Department => f.(department := value.choice)
  }

  /** What a filter record holds under a key. */
  function Get(f: Filters, key: FilterKey): (r: FilterValue)
    ensures Suits(key, r)
  {
    match key
    case NodeTypes => Names(f.nodeTypes)
    case CreditRange => Range(f.creditLow, f.creditHigh)
    case Semester => Choice(f.semester)
    case Level => Choice(f.level)
    case Prerequisites => Choice(f.prerequisites)
    case Department => Choice(f.department)
  }

  /** Updating a key sets that key and no other; setting a key to what it holds changes nothing. */
  lemma WithFilterSpec(f: Filters, key: FilterKey, value: FilterValue)
    requires Suits(key, value)
    ensures Get(WithFilter(f, key, value), key) == value
    ensures forall k :: k != key ==> Get(WithFilter(f, key, value), k) == Get(f, k)
    ensures WithFilter(f, key, Get(f, key)) == f
  {
  }

  // ---------------------------------------------------------------------
  // The panel

  class Panel {
    /** `graphData.nodes`. */
    const nodes: seq<SearchNode>
    var searchTerm: string
    var filters: Filters
    var results: seq<SearchNode>
    var highlighted: set<string>

    constructor(nodes: seq<SearchNode>)
      ensures this.nodes == nodes && searchTerm == "" && filters == DefaultFilters && results == [] && highlighted == {}
    {
      this.nodes := nodes;
      searchTerm := "";
      filters := DefaultFilters;
      results := [];
      highlighted := {};
    }

    /** The search input's `onChange`. */
    method SetSearchTerm(term: string)
      modifies this
      ensures searchTerm == term && filters == old(filters) && results == old(results) && highlighted == old(highlighted)
    {
      searchTerm := term;
    }

    /** `updateFilter(key, value)`. */
    method UpdateFilter(key: FilterKey, value: FilterValue)
      requires Suits(key, value)
      modifies this
      ensures filters == WithFilter(old(filters), key, value)
      ensures searchTerm == old(searchTerm) && results == old(results) && highlighted == old(highlighted)
    {
      filters := WithFilter(filters, key, value);
    }

    /** `performSearch()`, run once the term and filters have settled: the ids it hands to `onHighlightNodes`, if any. */
    method PerformSearch() returns (reported: Option<set<string>>)
      modifies this
      ensures results == Results(nodes, searchTerm, filters) && highlighted == Ids(results)
      ensures Text.IsBlank(searchTerm) <==> reported.None?
      ensures reported.Some? ==> reported.value == highlighted
      ensures searchTerm == old(searchTerm) && filters == old(filters)
    {
      if Text.IsBlank(searchTerm) {
        results := [];
        highlighted := {};
        return None;
      }
      var term, f := searchTerm, filters;
      results := Filter(nodes, (n: SearchNode) => MatchesText(n, term) && MatchesFilters(n, f));
      highlighted := Ids(results);
      reported := Some(highlighted);
    }

    /** The Clear button: default filters, an empty term, and nothing highlighted. */
    method Clear() returns (reported: set<string>)
      modifies this
      ensures filters == DefaultFilters && searchTerm == "" && highlighted == {} && reported == {}
      ensures results == old(results)
    {
      filters := DefaultFilters;
      searchTerm := "";
      highlighted := {};
      reported := {};
    }
  }
}
