/**
 * `SearchFilter`: narrows the graph's nodes by a search term, a node type
 * and a study year, and reports the narrowed list.
 *
 * The year test as written looks for the regular expression `/\\d/`, which
 * matches a backslash followed by the letter `d`, not a digit; so with a
 * year chosen every module node is dropped. `YearKeepsAsWritten` models
 * that test, and the `FilterPanel` handlers report through it.
 * `YearKeeps`, the intended test, compares the first digit of the label,
 * as the comment beside the code says it should; `ApplyFilters` is the
 * intended filter built on it.
 */
module SearchFilter {
  import opened Wrappers
  import opened Seqs
  import Text

  datatype FilterNode = FilterNode(nodeLabel: string, description: Option<string>, nodeType: string)

  /** `node.label` contains the search, or a non-empty `node.data.description` does, ignoring case. */
  predicate SearchKeeps(n: FilterNode, search: string) {
    var term := Text.Lower(search);
    Text.Contains(Text.Lower(n.nodeLabel), term)
    || (n.description.Some? && n.description.value != "" && Text.Contains(Text.Lower(n.description.value), term))
  }

  // ---------------------------------------------------------------------
  // The year test (SearchFilter.js lines 41-47)

  /** The two characters `\d`, all the regular expression `/\\d/` can match. */
  const BackslashD: string := ['\\', 'd']

  /** `label.match(/\\d/)`: the match is always the two characters `\d`, when they occur. */
  function YearMatchAsWritten(nodeLabel: string): (r: Option<string>)
    ensures r.Some? ==> r.value == BackslashD
  {
    if Text.Contains(nodeLabel, BackslashD) then Some(BackslashD) else None
  }

  /** The year test as written: course nodes pass; module nodes pass when the match equals the year. */
  predicate YearKeepsAsWritten(n: FilterNode, year: string) {
    n.nodeType == "course" || (YearMatchAsWritten(n.nodeLabel).Some? && YearMatchAsWritten(n.nodeLabel).value == year)
  }

  function IsDigit(c: char): bool {
    '0' <= c <= '9'
  }

  /** `label.match(/\d/)`: the first digit of the label, as a one-character string. */
  function FirstDigit(nodeLabel: string): (r: Option<string>)
    ensures r.Some? <==> exists i :: 0 <= i < |nodeLabel| && IsDigit(nodeLabel[i])
    ensures r.Some? ==> |r.value| == 1 && IsDigit(r.value[0])
  {
    if nodeLabel == [] then None
    else if IsDigit(nodeLabel[0]) then Some([nodeLabel[0]])
    else
      assert forall i :: 1 <= i < |nodeLabel| ==> nodeLabel[i] == nodeLabel[1..][i - 1];
      FirstDigit(nodeLabel[1..])
  }

  /** The year test as intended: course nodes pass; module nodes pass when the first digit of the label is the year. */
  predicate YearKeeps(n: FilterNode, year: string) {
    n.nodeType == "course" || (FirstDigit(n.nodeLabel).Some? && FirstDigit(n.nodeLabel).value == year)
  }

  /** The years the year menu offers. */
  predicate MenuYear(year: string) {
    year == "1" || year == "2" || year == "3"
  }

  /** As written, no year the menu offers lets a module node through. */
  lemma YearDropsEveryModule(n: FilterNode, year: string)
    requires MenuYear(year) && n.nodeType != "course"
    ensures !YearKeepsAsWritten(n, year)
  {
    assert |BackslashD| == 2;
  }

  /** As written, choosing Year 1 drops `MTH1001`; the intended test keeps it. */
  lemma YearOneDropsFirstYearModule()
    ensures !YearKeepsAsWritten(FilterNode("MTH1001", None, "module"), "1")
    ensures YearKeeps(FilterNode("MTH1001", None, "module"), "1")
  {
    var s: string := "MTH1001";
    assert !IsDigit(s[0]) && !IsDigit(s[1]) && !IsDigit(s[2]) && IsDigit(s[3]);
    assert s[1..][1..][1..] == "1001";
    assert FirstDigit("1001") == Some("1");
    assert |BackslashD| == 2;
  }

  /** The intended test keeps a module node exactly when the first digit of its label is the year. */
  lemma YearKeepsSpec(n: FilterNode, year: string)
    requires n.nodeType != "course"
    ensures YearKeeps(n, year) <==> exists i :: FirstDigitAt(n.nodeLabel, i) && [n.nodeLabel[i]] == year
  {
    FirstDigitFound(n.nodeLabel);
  }

  /** Index `i` holds the first digit of `s`. */
  predicate FirstDigitAt(s: string, i: int) {
    0 <= i < |s| && IsDigit(s[i]) && forall k :: 0 <= k < i ==> !IsDigit(s[k])
  }

  lemma {:induction false} FirstDigitFound(s: string)
    ensures FirstDigit(s).Some? ==> exists i :: FirstDigitAt(s, i) && [s[i]] == FirstDigit(s).value
    ensures forall i :: FirstDigitAt(s, i) ==> FirstDigit(s) == Some([s[i]])
  {
    if s != [] && !IsDigit(s[0]) {
      FirstDigitFound(s[1..]);
      if FirstDigit(s).Some? {
        var i :| FirstDigitAt(s[1..], i) && [s[1..][i]] == FirstDigit(s).value;
        assert s[i + 1] == s[1..][i];
        forall k | 0 <= k < i + 1
          ensures !IsDigit(s[k])
        {
          if k > 0 {
            assert s[k] == s[1..][k - 1];
          }
        }
      }
      forall i | FirstDigitAt(s, i)
        ensures FirstDigit(s) == Some([s[i]])
      {
        assert i > 0;
        assert s[1..][i - 1] == s[i];
        forall k | 0 <= k < i - 1
          ensures !IsDigit(s[1..][k])
        {
          assert s[1..][k] == s[k + 1];
        }
        assert FirstDigitAt(s[1..], i - 1);
      }
    }
  }

  // ---------------------------------------------------------------------
  // applyFilters (lines 24-49)

  function BySearch(nodes: seq<FilterNode>, search: string): seq<FilterNode> {
    if Text.IsBlank(search) then nodes else Filter(nodes, (n: FilterNode) => SearchKeeps(n, search))
  }

  function ByType(nodes: seq<FilterNode>, nodeType: string): seq<FilterNode> {
    if nodeType == "all" then nodes else Filter(nodes, (n: FilterNode) => n.nodeType == nodeType)
  }

  function ByYear(nodes: seq<FilterNode>, year: string): seq<FilterNode> {
    if year == "all" then nodes else Filter(nodes, (n: FilterNode) => YearKeeps(n, year))
  }

  function ByYearAsWritten(nodes: seq<FilterNode>, year: string): seq<FilterNode> {
    if year == "all" then nodes else Filter(nodes, (n: FilterNode) => YearKeepsAsWritten(n, year))
  }

  /** `applyFilters(search, type, year)` with the intended year test. */
  function ApplyFilters(nodes: seq<FilterNode>, search: string, nodeType: string, year: string): seq<FilterNode> {
    ByYear(ByType(BySearch(nodes, search), nodeType), year)
  }

  /** `applyFilters(search, type, year)` as written. */
  function ApplyFiltersAsWritten(nodes: seq<FilterNode>, search: string, nodeType: string, year: string): seq<FilterNode> {
    ByYearAsWritten(ByType(BySearch(nodes, search), nodeType), year)
  }

  /** The node passes every criterion that is set. */
  predicate Passes(n: FilterNode, search: string, nodeType: string, year: string) {
    && (Text.IsBlank(search) || SearchKeeps(n, search))
    && (nodeType == "all" || n.nodeType == nodeType)
    && (year == "all" || YearKeeps(n, year))
  }

  /**
   * The reported list is a subsequence of the nodes, and holds exactly the
   * nodes that pass the search, the type and the year criteria that are set.
   */
  lemma ApplyFiltersSpec(nodes: seq<FilterNode>, search: string, nodeType: string, year: string)
    ensures Subsequence(ApplyFilters(nodes, search, nodeType, year), nodes)
    ensures forall n :: n in ApplyFilters(nodes, search, nodeType, year) <==> n in nodes && Passes(n, search, nodeType, year)
  {
    var a := BySearch(nodes, search);
    var b := ByType(a, nodeType);
    var c := ByYear(b, year);
    SubsequenceReflexive(nodes);
    SubsequenceReflexive(a);
    SubsequenceReflexive(b);
    SubsequenceTransitive(b, a, nodes);
    SubsequenceTransitive(c, b, nodes);
  }

  /** The node passes every criterion that is set, with the year test as written. */
  predicate PassesAsWritten(n: FilterNode, search: string, nodeType: string, year: string) {
    && (Text.IsBlank(search) || SearchKeeps(n, search))
    && (nodeType == "all" || n.nodeType == nodeType)
    && (year == "all" || YearKeepsAsWritten(n, year))
  }

  /**
   * As written, the reported list is a subsequence of the nodes, and holds
   * exactly the nodes that pass the criteria that are set, the year through
   * the `/\\d/` test.
   */
  lemma ApplyFiltersAsWrittenSpec(nodes: seq<FilterNode>, search: string, nodeType: string, year: string)
    ensures Subsequence(ApplyFiltersAsWritten(nodes, search, nodeType, year), nodes)
    ensures forall n :: n in ApplyFiltersAsWritten(nodes, search, nodeType, year) <==> n in nodes && PassesAsWritten(n, search, nodeType, year)
  {
    var a := BySearch(nodes, search);
    var b := ByType(a, nodeType);
    var c := ByYearAsWritten(b, year);
    SubsequenceReflexive(nodes);
    SubsequenceReflexive(a);
    SubsequenceReflexive(b);
    SubsequenceTransitive(b, a, nodes);
    SubsequenceTransitive(c, b, nodes);
  }

  /** With a blank search and every menu on 'all', the nodes come back unchanged. */
  lemma NoCriteriaKeepsAll(nodes: seq<FilterNode>, search: string)
    requires Text.IsBlank(search)
    ensures ApplyFilters(nodes, search, "all", "all") == nodes
    ensures ApplyFiltersAsWritten(nodes, search, "all", "all") == nodes
  {
  }

  /** As written, a year from the menu leaves only course nodes. */
  lemma AsWrittenYearKeepsOnlyCourses(nodes: seq<FilterNode>, search: string, nodeType: string, year: string)
    requires MenuYear(year)
    ensures forall n :: n in ApplyFiltersAsWritten(nodes, search, nodeType, year) ==> n.nodeType == "course"
  {
    forall n | n in ApplyFiltersAsWritten(nodes, search, nodeType, year)
      ensures n.nodeType == "course"
    {
      if n.nodeType != "course" {
        YearDropsEveryModule(n, year);
      }
    }
  }

  // ---------------------------------------------------------------------
  // The component (lines 4-57)

  class FilterPanel {
    const nodes: seq<FilterNode>
    var searchTerm: string
    var selectedType: string
    var selectedYear: string
    /** What was last handed to `onFilteredNodesChange`. */
    var reported: seq<FilterNode>

    constructor(nodes: seq<FilterNode>)
      ensures this.nodes == nodes && searchTerm == "" && selectedType == "all" && selectedYear == "all"
      ensures reported == nodes
    {
      this.nodes := nodes;
      searchTerm := "";
      selectedType := "all";
      selectedYear := "all";
      reported := nodes;
    }

    /** `handleSearch(value)`. */
    method HandleSearch(value: string)
      modifies this
      ensures searchTerm == value && selectedType == old(selectedType) && selectedYear == old(selectedYear)
      ensures reported == ApplyFiltersAsWritten(nodes, value, selectedType, selectedYear)
    {
      searchTerm := value;
      reported := ApplyFiltersAsWritten(nodes, value, selectedType, selectedYear);
    }

    /** `handleTypeFilter(type)`. */
    method HandleType(nodeType: string)
      modifies this
      ensures selectedType == nodeType && searchTerm == old(searchTerm) && selectedYear == old(selectedYear)
      ensures reported == ApplyFiltersAsWritten(nodes, searchTerm, nodeType, selectedYear)
    {
      selectedType := nodeType;
      reported := ApplyFiltersAsWritten(nodes, searchTerm, nodeType, selectedYear);
    }

    /** `handleYearFilter(year)`. */
    method HandleYear(year: string)
      modifies this
      ensures selectedYear == year && searchTerm == old(searchTerm) && selectedType == old(selectedType)
      ensures reported == ApplyFiltersAsWritten(nodes, searchTerm, selectedType, year)
    {
      selectedYear := year;
      reported := ApplyFiltersAsWritten(nodes, searchTerm, selectedType, year);
    }

    /** `clearFilters()`: every criterion back to its start, and the full node list reported. */
    method Clear()
      modifies this
      ensures searchTerm == "" && selectedType == "all" && selectedYear == "all"
      ensures reported == nodes && reported == ApplyFiltersAsWritten(nodes, searchTerm, selectedType, selectedYear)
    {
      searchTerm := "";
      selectedType := "all";
      selectedYear := "all";
      reported := nodes;
      NoCriteriaKeepsAll(nodes, "");
    }
  }
}
