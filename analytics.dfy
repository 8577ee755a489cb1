/**
 * `AnalyticsProvider`: the tracked events, capped at the last 1000, the
 * name filter of `getEvents` and the counts of `getStats`.
 *
 * The event id, the ISO timestamp and the stored session id come from the
 * clock, `Math.random` and `sessionStorage`; they are passed in.
 */
module Analytics {
  import opened Wrappers
  import opened Seqs
  import Text

  const MaxEvents := 1000
  const TopCount := 5

  datatype Event = Event(id: int, name: string, properties: map<string, string>, timestamp: string, sessionId: string)

  /** The event `track(name, properties = {})` records (EnhancedContexts.js lines 338-344). */
  function NewEvent(name: string, properties: Option<map<string, string>>, id: int, timestamp: string, storedSession: Option<string>): (e: Event)
    ensures e.name == name
    ensures e.id == id && e.timestamp == timestamp
    ensures properties.Some? ==> e.properties == properties.value
    ensures properties.None? ==> e.properties == map[]
    ensures storedSession.Some? && storedSession.value != "" ==> e.sessionId == storedSession.value
    ensures e.sessionId == "unknown" <==> storedSession.None? || storedSession.value == "" || storedSession.value == "unknown"
  {
    Event(id, name, properties.GetOr(map[]), timestamp,
      if storedSession.Some? && storedSession.value != "" then storedSession.value else "unknown")
  }

  /** `[...events, e].slice(-1000)`: the new event last, the oldest ones dropped. */
  function Appended(events: seq<Event>, e: Event): (r: seq<Event>)
    ensures |r| == if |events| + 1 <= MaxEvents then |events| + 1 else MaxEvents
    ensures r[|r| - 1] == e
    ensures r == (events + [e])[|events| + 1 - |r|..]
  {
    var all := events + [e];
    Text.Slice(all, -MaxEvents, |all|)
  }

  /** `getEvents({name})`: a non-empty name keeps the events of that name; the date filter is left out. */
  function EventsNamed(events: seq<Event>, name: Option<string>): (r: seq<Event>)
    ensures Subsequence(r, events)
    ensures name.Some? && name.value != "" ==> forall e :: e in r <==> e in events && e.name == name.value
    ensures name.None? || name.value == "" ==> r == events
  {
    if name.Some? && name.value != "" then Filter(events, (e: Event) => e.name == name.value)
    else
      SubsequenceReflexive(events);
      events
  }

  // ---------------------------------------------------------------------
  // getStats (lines 374-395)

  /** The number of events with the name. */
  function CountOf(events: seq<Event>, name: string): nat
    decreases |events|
  {
    if events == [] then 0
    else CountOf(events[..|events| - 1], name) + (if events[|events| - 1].name == name then 1 else 0)
  }

  /** `acc[name] = (acc[name] || 0) + 1` for one name: bump its entry, or add it last. */
  function Bump(tally: seq<(string, nat)>, name: string): (r: seq<(string, nat)>)
    ensures |r| == if exists i :: 0 <= i < |tally| && tally[i].0 == name then |tally| else |tally| + 1
  {
    if exists i :: 0 <= i < |tally| && tally[i].0 == name then
      seq(|tally|, i requires 0 <= i < |tally| => if tally[i].0 == name then (name, tally[i].1 + 1) else tally[i])
    else tally + [(name, 1)]
  }

  /** `Object.entries(events.reduce(...))`: each name once, with its count, here listed in order of first occurrence. */
  function Tally(events: seq<Event>): seq<(string, nat)>
    decreases |events|
  {
    if events == [] then []
    else Bump(Tally(events[..|events| - 1]), events[|events| - 1].name)
  }

  /** `.sort(([,a], [,b]) => b - a)`, a stable sort by descending count, as an insertion sort. */
  function SortByCount(s: seq<(string, nat)>): (r: seq<(string, nat)>)
    ensures multiset(r) == multiset(s)
    ensures |r| == |s|
    decreases |s|
  {
    if s == [] then []
    else
      var init := s[..|s| - 1];
      assert s == init + [s[|s| - 1]];
      InsertByCount(SortByCount(init), s[|s| - 1])
  }

  /** Place `x` after every entry whose count is at least its own. */
  function InsertByCount(sorted: seq<(string, nat)>, x: (string, nat)): (r: seq<(string, nat)>)
    ensures multiset(r) == multiset(sorted) + multiset{x}
    ensures |r| == |sorted| + 1
    decreases |sorted|
  {
    if sorted == [] then [x]
    else if sorted[0].1 < x.1 then [x] + sorted
    else
      assert sorted == [sorted[0]] + sorted[1..];
      [sorted[0]] + InsertByCount(sorted[1..], x)
  }

  datatype Stats = Stats(totalEvents: nat, uniqueEvents: nat, topEvents: seq<(string, nat)>)

  /** `getStats()`, without `recentEvents`, which compares timestamps with the clock. */
  function StatsOf(events: seq<Event>): Stats {
    Stats(|events|, |set i | 0 <= i < |events| :: events[i].name|, SortByCount(Tally(events))[..Min(TopCount, |Tally(events)|)])
  }

  function Min(a: int, b: int): int {
    if a <= b then a else b
  }

  predicate NamesDistinct(tally: seq<(string, nat)>) {
    forall i, j :: 0 <= i < j < |tally| ==> tally[i].0 != tally[j].0
  }

  predicate ByCountDescending(s: seq<(string, nat)>) {
    forall i, j :: 0 <= i < j < |s| ==> s[i].1 >= s[j].1
  }

  /** The tally has an entry for the name. */
  predicate Listed(tally: seq<(string, nat)>, name: string) {
    exists k :: 0 <= k < |tally| && tally[k].0 == name
  }

  /** Some event has the name. */
  predicate Occurs(events: seq<Event>, name: string) {
    exists i :: 0 <= i < |events| && events[i].name == name
  }

  /** Each entry's count is the number of events with its name. */
  predicate CountsRight(tally: seq<(string, nat)>, events: seq<Event>) {
    forall k :: 0 <= k < |tally| ==> tally[k].1 == CountOf(events, tally[k].0)
  }

  // ---------------------------------------------------------------------
  // Properties

  /** The cap holds after every `track`, and the newest event is kept. */
  lemma AppendedWithinCap(events: seq<Event>, e: Event)
    requires |events| <= MaxEvents
    ensures |Appended(events, e)| <= MaxEvents
    ensures |events| < MaxEvents ==> Appended(events, e) == events + [e]
    ensures |events| == MaxEvents ==> Appended(events, e) == events[1..] + [e]
  {
  }

  /** One bump: the entries keep their names, the named one gains one, a new name goes last. */
  lemma BumpSpec(t: seq<(string, nat)>, name: string)
    ensures forall k :: 0 <= k < |t| ==> Bump(t, name)[k].0 == t[k].0
    ensures forall k :: 0 <= k < |t| ==> Bump(t, name)[k].1 == t[k].1 + (if t[k].0 == name then 1 else 0)
    ensures !Listed(t, name) ==> |Bump(t, name)| == |t| + 1 && Bump(t, name)[|t|] == (name, 1)
    ensures Listed(t, name) ==> |Bump(t, name)| == |t|
  {
  }

  lemma BumpDistinct(t: seq<(string, nat)>, name: string)
    requires NamesDistinct(t)
    ensures NamesDistinct(Bump(t, name))
    ensures forall n :: Listed(Bump(t, name), n) <==> Listed(t, n) || n == name
  {
    BumpSpec(t, name);
    var r := Bump(t, name);
    forall n
      ensures Listed(r, n) <==> Listed(t, n) || n == name
    {
      if Listed(t, n) {
        var k :| 0 <= k < |t| && t[k].0 == n;
        assert r[k].0 == n;
      }
      if n == name && !Listed(t, n) {
        assert r[|t|].0 == n;
      }
      if Listed(r, n) {
        var k :| 0 <= k < |r| && r[k].0 == n;
        if k < |t| {
          assert t[k].0 == n;
        }
      }
    }
  }

  lemma {:induction false} CountOfAbsent(events: seq<Event>, name: string)
    requires !Occurs(events, name)
    ensures CountOf(events, name) == 0
    decreases |events|
  {
    if events != [] {
      var init := events[..|events| - 1];
      forall i | 0 <= i < |init|
        ensures init[i].name != name
      {
        assert init[i] == events[i];
      }
      CountOfAbsent(init, name);
    }
  }

  lemma BumpCounts(t: seq<(string, nat)>, events: seq<Event>)
    requires events != [] && CountsRight(t, events[..|events| - 1])
    requires forall n :: Listed(t, n) <==> Occurs(events[..|events| - 1], n)
    ensures CountsRight(Bump(t, events[|events| - 1].name), events)
  {
    var init := events[..|events| - 1];
    var name := events[|events| - 1].name;
    BumpSpec(t, name);
    var r := Bump(t, name);
    forall k | 0 <= k < |r|
      ensures r[k].1 == CountOf(events, r[k].0)
    {
      assert CountOf(events, r[k].0) == CountOf(init, r[k].0) + (if name == r[k].0 then 1 else 0);
      if k >= |t| {
        CountOfAbsent(init, name);
      }
    }
  }

  /** The tally lists each name of the events exactly once, with its count. */
  lemma {:induction false} TallyCounts(events: seq<Event>)
    ensures NamesDistinct(Tally(events))
    ensures CountsRight(Tally(events), events)
    ensures forall name :: Listed(Tally(events), name) <==> Occurs(events, name)
    decreases |events|
  {
    if events != [] {
      var init := events[..|events| - 1];
      var last := events[|events| - 1];
      TallyCounts(init);
      BumpDistinct(Tally(init), last.name);
      BumpCounts(Tally(init), events);
      forall name
        ensures Occurs(events, name) <==> Occurs(init, name) || name == last.name
      {
        if Occurs(events, name) {
          var i :| 0 <= i < |events| && events[i].name == name;
          if i < |init| {
            assert init[i].name == name;
          }
        }
        if Occurs(init, name) {
          var i :| 0 <= i < |init| && init[i].name == name;
          assert events[i].name == name;
        }
      }
    }
  }

  /** Inserting into a list sorted by descending count keeps it sorted. */
  lemma {:induction false} InsertByCountSorted(sorted: seq<(string, nat)>, x: (string, nat))
    requires ByCountDescending(sorted)
    ensures ByCountDescending(InsertByCount(sorted, x))
    decreases |sorted|
  {
    if sorted != [] && sorted[0].1 >= x.1 {
      InsertByCountSorted(sorted[1..], x);
      var rest := InsertByCount(sorted[1..], x);
      var r := InsertByCount(sorted, x);
      assert r == [sorted[0]] + rest;
      forall j | 0 <= j < |rest|
        ensures sorted[0].1 >= rest[j].1
      {
        assert rest[j] in multiset(rest);
        if rest[j] != x {
          assert rest[j] in multiset(sorted[1..]);
          assert rest[j] in sorted[1..];
        }
      }
    }
  }

  lemma {:induction false} SortByCountSorted(s: seq<(string, nat)>)
    ensures ByCountDescending(SortByCount(s))
    decreases |s|
  {
    if s != [] {
      SortByCountSorted(s[..|s| - 1]);
      InsertByCountSorted(SortByCount(s[..|s| - 1]), s[|s| - 1]);
    }
  }

  /** A name the original lacks is not a name of a permutation of it. */
  lemma PermutedUnlisted(a: seq<(string, nat)>, b: seq<(string, nat)>, n: string)
    requires multiset(a) == multiset(b) && !Listed(b, n)
    ensures !Listed(a, n)
  {
    forall k | 0 <= k < |a|
      ensures a[k].0 != n
    {
      assert a[k] in multiset(b);
      var j :| 0 <= j < |b| && b[j] == a[k];
    }
  }

  /** Inserting an entry whose name is new keeps the names distinct. */
  lemma {:induction false} InsertByCountDistinct(sorted: seq<(string, nat)>, x: (string, nat))
    requires NamesDistinct(sorted) && !Listed(sorted, x.0)
    ensures NamesDistinct(InsertByCount(sorted, x))
    decreases |sorted|
  {
    if sorted != [] && sorted[0].1 >= x.1 {
      var tail := sorted[1..];
      var rest := InsertByCount(tail, x);
      assert NamesDistinct(tail) && !Listed(tail, x.0) by {
        forall n | Listed(tail, n)
          ensures Listed(sorted, n)
        {
          var k :| 0 <= k < |tail| && tail[k].0 == n;
          assert sorted[k + 1].0 == n;
        }
      }
      InsertByCountDistinct(tail, x);
      forall j | 0 <= j < |rest|
        ensures rest[j].0 != sorted[0].0
      {
        assert rest[j] in multiset(rest);
        if rest[j] != x {
          var k :| 0 <= k < |tail| && tail[k] == rest[j];
          assert tail[k] == sorted[k + 1];
        }
      }
      assert InsertByCount(sorted, x) == [sorted[0]] + rest;
    }
  }

  /** Sorting by count keeps the names distinct. */
  lemma {:induction false} SortByCountDistinct(s: seq<(string, nat)>)
    requires NamesDistinct(s)
    ensures NamesDistinct(SortByCount(s))
    decreases |s|
  {
    if s != [] {
      var init := s[..|s| - 1];
      var last := s[|s| - 1];
      assert NamesDistinct(init) && !Listed(init, last.0) by {
        forall k | 0 <= k < |init|
          ensures init[k] == s[k]
        {
        }
      }
      SortByCountDistinct(init);
      PermutedUnlisted(SortByCount(init), init, last.0);
      InsertByCountDistinct(SortByCount(init), last);
    }
  }

  /** Distinct names make a set as large as the sequence. */
  lemma {:induction false} DistinctNamesCount(tally: seq<(string, nat)>)
    requires NamesDistinct(tally)
    ensures |set k | 0 <= k < |tally| :: tally[k].0| == |tally|
    decreases |tally|
  {
    if tally != [] {
      var init := tally[..|tally| - 1];
      DistinctNamesCount(init);
      var a := set k | 0 <= k < |init| :: init[k].0;
      var b := set k | 0 <= k < |tally| :: tally[k].0;
      assert b == a + {tally[|tally| - 1].0};
      assert tally[|tally| - 1].0 !in a;
    }
  }

  /** The names of the events are the names the tally lists. */
  lemma NameSets(events: seq<Event>)
    ensures (set i | 0 <= i < |events| :: events[i].name) == (set k | 0 <= k < |Tally(events)| :: Tally(events)[k].0)
  {
    var t := Tally(events);
    TallyCounts(events);
    var names := set i | 0 <= i < |events| :: events[i].name;
    var keys := set k | 0 <= k < |t| :: t[k].0;
    forall n | n in names
      ensures n in keys
    {
      assert Occurs(events, n);
      var k :| 0 <= k < |t| && t[k].0 == n;
    }
    forall n | n in keys
      ensures n in names
    {
      assert Listed(t, n);
      var i :| 0 <= i < |events| && events[i].name == n;
    }
  }

  /** The top list is a prefix of the sorted tally, so it inherits its order and counts. */
  lemma TopEntries(events: seq<Event>)
    ensures |StatsOf(events).topEvents| <= TopCount
    ensures ByCountDescending(StatsOf(events).topEvents)
    ensures CountsRight(StatsOf(events).topEvents, events)
  {
    var t := Tally(events);
    TallyCounts(events);
    var sorted := SortByCount(t);
    SortByCountSorted(t);
    var top := StatsOf(events).topEvents;
    forall k | 0 <= k < |top|
      ensures top[k].1 == CountOf(events, top[k].0)
    {
      assert top[k] == sorted[k];
      assert sorted[k] in multiset(t);
      var j :| 0 <= j < |t| && t[j] == sorted[k];
    }
  }

  /** Every name among the first `n` entries is listed in the prefix of length `n`. */
  lemma PrefixListed(s: seq<(string, nat)>, n: nat)
    requires n <= |s|
    ensures forall m :: 0 <= m < n ==> Listed(s[..n], s[m].0)
  {
    forall m | 0 <= m < n
      ensures Listed(s[..n], s[m].0)
    {
      assert s[..n][m] == s[m];
    }
  }

  /** A name that occurs but did not make the top list has no more events than the last name on it. */
  lemma TopBeatsRest(events: seq<Event>, name: string)
    requires Occurs(events, name) && !Listed(StatsOf(events).topEvents, name)
    ensures StatsOf(events).topEvents != []
    ensures CountOf(events, name) <= StatsOf(events).topEvents[|StatsOf(events).topEvents| - 1].1
  {
    var t := Tally(events);
    TallyCounts(events);
    assert Listed(t, name);
    var j :| 0 <= j < |t| && t[j].0 == name;
    assert t[j].1 == CountOf(events, name);
    var sorted := SortByCount(t);
    SortByCountSorted(t);
    assert t[j] in multiset(sorted);
    var m :| 0 <= m < |sorted| && sorted[m] == t[j];
    var n := Min(TopCount, |t|);
    assert StatsOf(events).topEvents == sorted[..n];
    PrefixListed(sorted, n);
    assert n <= m;
    assert sorted[..n][n - 1] == sorted[n - 1];
  }

  /**
   * `getStats`: the number of distinct names is the number of tally entries,
   * and the top list holds the five most frequent names (all of them when
   * there are fewer), by descending count, each with its true count; no name
   * left off it has more events than the last one on it.
   */
  lemma StatsSpec(events: seq<Event>)
    ensures StatsOf(events).totalEvents == |events|
    ensures StatsOf(events).uniqueEvents == |Tally(events)|
    ensures |StatsOf(events).topEvents| == Min(TopCount, |Tally(events)|)
    ensures ByCountDescending(StatsOf(events).topEvents)
    ensures CountsRight(StatsOf(events).topEvents, events)
    ensures NamesDistinct(StatsOf(events).topEvents)
    ensures forall name :: Occurs(events, name) && !Listed(StatsOf(events).topEvents, name) ==>
      StatsOf(events).topEvents != []
      && CountOf(events, name) <= StatsOf(events).topEvents[|StatsOf(events).topEvents| - 1].1
  {
    TallyCounts(events);
    DistinctNamesCount(Tally(events));
    NameSets(events);
    TopEntries(events);
    SortByCountDistinct(Tally(events));
    forall name | Occurs(events, name) && !Listed(StatsOf(events).topEvents, name)
      ensures StatsOf(events).topEvents != []
      ensures CountOf(events, name) <= StatsOf(events).topEvents[|StatsOf(events).topEvents| - 1].1
    {
      TopBeatsRest(events, name);
    }
  }

  // ---------------------------------------------------------------------
  // The provider

  class AnalyticsStore {
    var events: seq<Event>
    var isEnabled: bool

    constructor()
      ensures events == [] && isEnabled
    {
      events := [];
      isEnabled := true;
    }

    /** `track(name, properties)`: nothing while disabled. */
    method Track(name: string, properties: Option<map<string, string>>, id: int, timestamp: string, storedSession: Option<string>)
      modifies this
      ensures isEnabled == old(isEnabled)
      ensures events == if isEnabled then Appended(old(events), NewEvent(name, properties, id, timestamp, storedSession)) else old(events)
    {
      if !isEnabled {
        return;
      }
      var e := NewEvent(name, properties, id, timestamp, storedSession);
      events := Appended(events, e);
    }

    /** `clearEvents()`. */
    method Clear()
      modifies this
      ensures events == [] && isEnabled == old(isEnabled)
    {
      events := [];
    }

    method SetIsEnabled(enabled: bool)
      modifies this
      ensures isEnabled == enabled && events == old(events)
    {
      isEnabled := enabled;
    }
  }
}
