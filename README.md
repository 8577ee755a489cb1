# ExeterCourseNodeGraph: a Dafny model of the graph builders and client stores

ExeterCourseNodeGraph shows University of Exeter degree programmes as graphs. A course is a node, its modules are nodes, and edges mark membership and prerequisites. This project models the parts of the repository that decide what those graphs contain and how the client keeps its lists, and proves properties of them.

**Backend.**
- The record store is `Course` and `Module` documents, with the unique index on module codes. See `records.dfy`.
- The course graph route of `backend/src/routes/courses.js` is in `course_graph.dfy`: one course node, one node per fetched module, membership edges, and prerequisite edges filtered against the declared code list.
- The prerequisite chain route of `backend/src/routes/modules.js` is in `prerequisite_chain.dfy`: a depth-first walk with a shared `visited` set and a hard depth cut-off of 5. It is a `ChainResolver` class whose recursive methods are proved equal to the functions `Visit`/`VisitAll`.
- The sample-data server `backend/src/server-standalone.js` is split in three files:
  - `sample_server.dfy`: case-insensitive course lookup, the detail route, and the two list routes with filters and `limit`/`offset` pagination.
  - `sample_graph.dfy`: the second graph builder, with year buckets, string-sorted year keys, `node_1`, `node_2`, … ids, and edges from the first node carrying a code.
  - `sample_graph_facts.dfy`: the properties of that builder.
- The Mathematics half of `backend/src/scrapers/sampleData.js` is in `sample_data.dfy`. The concrete scenarios built on it are in `chain_examples.dfy` and `course_examples.dfy`.

**Frontend.** The deterministic list, map and set logic inside the React files:
- `notifications.dfy`: the bounded, newest-first notification list with its id counter.
- `shortcuts.dfy`, `commands.dfy`, `analytics.dfy` and `preferences.dfy`: the keyboard-shortcut map, the command registry, the 1000-event analytics buffer with its statistics, and the theme and settings stores.
- `command_palette.dfy`: the command palette's filter and keyboard highlight.
- `selection.dfy`: the wrap-around highlight that two components share.
- `course_selector.dfy`: the course selector's ranked search, suggestions, recent list, favourites and keyboard handling.
- `learning_path.dfy`: the learning-path builder's analysis, reorder, drag-and-drop moves and save.
- `sidebar.dfy`: the sidebar's connected nodes and statistics.
- `search_filter.dfy`: the search/type/year filter.
- `search_panel.dfy`: the advanced search panel.

State the source changes in place (closure state, `useState` stores, `useRef` maps) is a Dafny `class`. Each method's `ensures` ties the new state to a function of the old one, and lemmas prove what the source promises about those functions. Pure route logic is functions and lemmas. `wrappers.dfy`, `text.dfy` and `seqs.dfy` hold the JavaScript built-ins the code relies on:
- `||` defaults and truthiness
- ASCII `toLowerCase`, `includes`, `startsWith` and `trim`
- the index rules of `slice` and `splice`
- `filter`, with the subsequence relation it produces

The model follows the code as written:
- The course graph tests a prerequisite against the declared code list (`allModuleCodes`), not the fetched modules. A declared but unstored prerequisite therefore gets an edge whose source has no node (`CourseGraph.DanglingPrerequisiteEdge`).
- Duplicate prerequisite edges are not suppressed (`CourseGraph.PrereqEdgeMultiplicity`).
- The chain route pushes its edges `prerequisite -> current`.
- The depth ceiling is the constant 5.
- Node ids of the course graph are distinct only when the course code is no module's code (`CourseGraph.NodeIdsDistinct`).
- Record fields are not normalised. The standalone server reads `title`, `credits`, `level` and `description`, while the fixture's modules carry `moduleTitle`, `creditValue`, `courseYear` and `summaryOfContents`. Its module objects therefore have optional fields, and the `||` defaults decide.

## Model

| member | source | states |
|---|---|---|
| Records.RefCodes | backend/src/routes/courses.js:92-93 | one code per reference, in list order, each the reference's `module` |
| Records.FindCourse | backend/src/routes/courses.js:82 | a course is found exactly when its code is stored |
| Records.FindModule | backend/src/routes/modules.js:104 | a module is found exactly when some stored module has the code, and the one found carries it |
| Records.FindIn | backend/src/routes/courses.js:96 | the `$in` query returns exactly the stored modules whose code is listed, none more than the store holds |
| Records.FindInUnique | backend/src/models/courseModel.js:4-8 | under the unique index on `moduleCode`, the fetched modules have distinct codes |
| Records.FindModuleUnique | backend/src/models/courseModel.js:4-8 | under the unique index, `findOne` by a stored module's code returns that module |
| Records.FindInAll | backend/src/routes/courses.js:96 | when every stored code is listed, the query returns the whole collection |
| Graph.PrereqEdge | backend/src/routes/courses.js:147-152 | a prerequisite edge runs from the prerequisite to the module and is typed `prerequisite` |
| CourseGraph.DeclaredCodes | backend/src/routes/courses.js:92-94 | `allModuleCodes` is the core codes followed by the optional codes, duplicates kept |
| CourseGraph.DeclaredCodesIff | backend/src/routes/courses.js:92-94 | a code is declared exactly when a core or an optional reference carries it |
| CourseGraph.GraphNodes | backend/src/routes/courses.js:99-129 | the course node first, then one node per fetched module in fetch order, so `1 + fetched` nodes |
| CourseGraph.BuildGraph | backend/src/routes/courses.js:82-129 | 404 "Course not found" exactly for an unknown code; otherwise the stored course, the course node first, `1 + fetched` nodes and at least one edge per fetched module |
| CourseGraph.BuildEdges | backend/src/routes/courses.js:131-155 | the two `forEach` loops push exactly the membership edges and then the prerequisite edges |
| CourseGraph.CourseGraphRoute | backend/src/routes/courses.js:80-164 | the handler answers what `BuildGraph` describes |
| CourseGraph.CourseDetailRoute | backend/src/routes/courses.js:45-69 | 404 exactly for an unknown code; otherwise the course and exactly the stored modules it declares |
| CourseGraph.MembershipEdgesShape | backend/src/routes/courses.js:133-141 | one edge per fetched module, id `<course>-<module>`, course to module, `core` iff the code is in the core list |
| CourseGraph.PrereqEdgesOfIff | backend/src/routes/courses.js:145-154 | for one module, edge `p -> module` is pushed iff `p` is among its prerequisites and declared |
| CourseGraph.PrereqEdgesIff | backend/src/routes/courses.js:144-155 | prerequisite edges are exactly the (fetched module, declared entry) pairs; undeclared entries are dropped |
| CourseGraph.PrereqEdgeMultiplicity | backend/src/routes/courses.js:145-154 | no de-duplication: `p -> module` occurs once per occurrence of `p` in the list |
| CourseGraph.EdgeTargetsAreNodes | backend/src/routes/courses.js:99-155 | every edge's target is a node, and every membership edge starts at the course node |
| CourseGraph.DanglingPrerequisiteEdge | backend/src/routes/courses.js:146 | a declared prerequisite with no stored record still gets an edge, whose source is no node |
| CourseGraph.NodeIdsDistinct | backend/src/routes/courses.js:99-129 | with unique module codes and a course code that is no module's, node ids are distinct |
| CourseGraph.PrereqEdgesAppend | backend/src/routes/courses.js:144-155 | the module-by-module loop concatenates each module's edges in fetch order |
| PrerequisiteChain.VisitProps | backend/src/routes/modules.js:100-131 | one call: nothing for a visited code or depth > 5; only marks an unstored code; otherwise pushes the module's node first at its depth, only extends the state, keeps ids distinct and edge targets on nodes, and adds one edge per prerequisite entry of the new nodes |
| PrerequisiteChain.VisitFoundProps | backend/src/routes/modules.js:103-130 | for an unvisited stored code within the bound, the node is pushed first and the walk below keeps the invariants |
| PrerequisiteChain.VisitAllProps | backend/src/routes/modules.js:121-130 | the loop pushes `p -> current` for every entry, whether or not `p` is found or visited, and keeps the invariants |
| PrerequisiteChain.VisitPushKeeps | backend/src/routes/modules.js:101-119 | marking a code visited before pushing its node keeps ids distinct |
| PrerequisiteChain.ChainGraphOf | backend/src/routes/modules.js:86-133 | 404 "Module not found" exactly for an unknown root; otherwise the root first at depth 0, distinct ids, depths 0..5, every edge's target a node, and edge count equal to the total prerequisite count of the emitted nodes |
| PrerequisiteChain.ChainResolver.constructor | backend/src/routes/modules.js:96-98 | empty `visited`, `nodes` and `edges` |
| PrerequisiteChain.ChainResolver.AddModuleAndPrereqs | backend/src/routes/modules.js:100-131 | the recursive closure leaves exactly the state `Visit` describes |
| PrerequisiteChain.ChainResolver.AddPrerequisites | backend/src/routes/modules.js:121-130 | the `for` loop, edge then recursive call per entry, leaves exactly the state `VisitAll` describes |
| PrerequisiteChain.PrerequisiteGraphRoute | backend/src/routes/modules.js:84-141 | the handler answers what `ChainGraphOf` describes |
| ChainExamples.Mth3003Chain | backend/src/routes/modules.js:100-133 | for MTH3003 in the fixture: nodes MTH3003 (0), MTH2001 (1), MTH1001 (2), MTH1002 (1) in pre-order, and three edges in push order |
| ChainExamples.CycleTerminates | backend/src/routes/modules.js:101-129 | on A <-> B the walk ends with one node each and both edges |
| ChainExamples.FirstVisitDepth | backend/src/routes/modules.js:100-119 | a node keeps the depth of its first pre-order visit, not the least depth over all paths |
| ChainExamples.UnknownRoot | backend/src/routes/modules.js:86-93 | an unknown root gives 404 "Module not found" |
| CourseExamples.MathGraph | backend/src/routes/courses.js:80-164 | for MATHBSC in the fixture: nine nodes, eight membership edges (five core, three optional), then the prerequisite edges in fetch order |
| CourseExamples.MathShapedGraph | backend/src/routes/courses.js:80-164 | the same answer for any store shaped like the fixture |
| CourseExamples.MembershipKinds | backend/src/routes/courses.js:139 | the membership kinds for modules shaped like the fixture's: five core, three optional |
| SampleData.MathModulesUnique | backend/src/scrapers/sampleData.js:53-202 | the fixture's Mathematics module codes are distinct, as the unique index demands |
| SampleServer.FindSampleCourse | backend/src/server-standalone.js:156-158 | a course is found exactly when some course's code equals the asked code ignoring case |
| SampleServer.FindSampleCourseFirst | backend/src/server-standalone.js:156-158 | the lookup answers with the first matching course |
| SampleServer.FindSampleCourseIgnoresCase | backend/src/server-standalone.js:207-209 | codes differing only in letter case find the same course |
| SampleServer.FindSampleModule | backend/src/server-standalone.js:255 | the first sample module carrying the code, found exactly when one does |
| SampleServer.Suggestions | backend/src/server-standalone.js:164-166 | the first `min(3, n)` courses, each as code and name |
| SampleServer.CourseDetailOf | backend/src/server-standalone.js:153-192 | 404 with its message and at most 3 suggestions exactly when no course matches; otherwise the matched course with module counts that add up |
| SampleServer.DetailModules | backend/src/server-standalone.js:171-190 | the related modules are exactly the sample modules with a non-empty listed code, each `core` iff the core list names it |
| SampleServer.PageLimit | backend/src/server-standalone.js:126 | `limitNum` is at most 100, and 50 without a limit |
| SampleServer.PageBounded | backend/src/server-standalone.js:125-127 | a limit that is not negative gives at most `limitNum`, so at most 100, items |
| SampleServer.PageContents | backend/src/server-standalone.js:125-127 | with limit and offset not negative, the page is the run from the offset on, at most `limitNum` long |
| SampleServer.NegativeLimitOverflow | backend/src/server-standalone.js:126-127 | as written, `limit=-1` over 102 items returns 101 items |
| SampleServer.ClampedPageLimit | backend/src/server-standalone.js:126 | the intended cap, kept within 0..100 |
| SampleServer.ClampedPageBounded | backend/src/server-standalone.js:125-127 | with the intended cap no page exceeds 100 items, whatever the query |
| SampleServer.ClampedPageAgrees | backend/src/server-standalone.js:125-127 | the intended cap agrees with the route whenever the limit is not negative |
| SampleServer.SearchCourses | backend/src/server-standalone.js:103-110 | `None` (the route's 500) exactly when the test throws on a course; otherwise the courses that match |
| SampleServer.CourseList | backend/src/server-standalone.js:97-149 | 500 with its message exactly when filtering throws; otherwise `count` is the page length and `total` the number filtered |
| SampleServer.FilterCoursesSpec | backend/src/server-standalone.js:103-122 | a course passes iff it matches the search, has the degree and lies in the department, each only when given; the survivors keep their order |
| SampleServer.CourseListPage | backend/src/server-standalone.js:124-140 | with a limit that is not negative the page has at most 100 summaries, each of a filtered course |
| SampleServer.CourseListUnfiltered | backend/src/server-standalone.js:97-132 | without search, degree or department the list never fails and `total` counts every course |
| SampleServer.ModuleList | backend/src/server-standalone.js:347-383 | `count` is the page length, `total` the number filtered, never more than the modules |
| SampleServer.FilterModulesSpec | backend/src/server-standalone.js:352-371 | a module passes iff it matches the search, level and credits asked for, each only when given; the survivors keep their order |
| SampleServer.ModuleListPage | backend/src/server-standalone.js:373-382 | with a limit that is not negative the page has at most 100 modules, all filtered ones |
| SampleGraph.SortKeys | backend/src/server-standalone.js:274 | `Object.keys(...).sort()` rearranges the year keys |
| SampleGraph.BucketedValid | backend/src/server-standalone.js:254-271 | bucketing keeps the key list and the buckets in step |
| SampleGraph.NodesOf | backend/src/server-standalone.js:224-235 | one node per placement |
| SampleGraph.FirstWithCode | backend/src/server-standalone.js:302-304 | the node found is the first carrying the code, found exactly when one does |
| SampleGraph.CountTypeSum | backend/src/server-standalone.js:330-331 | core and optional counts add up to the node count |
| SampleGraph.SampleGraphOf | backend/src/server-standalone.js:204-335 | 404 with its message exactly when no course matches; otherwise `totalNodes`, `totalEdges` are the lengths and core + optional = `totalNodes` |
| SampleGraph.FillBuckets | backend/src/server-standalone.js:254-271 | the `forEach` over one list buckets exactly as `Bucketed` describes |
| SampleGraph.LayOutList | backend/src/server-standalone.js:279-294 | appends one node per module of the list, in order, numbered on from the current `nodeId`, the module index running on from `base` |
| SampleGraph.LayOutYear | backend/src/server-standalone.js:275-294 | appends a year's core nodes, then its optional nodes, the optional module index starting after the core list |
| SampleGraph.LayOutNodes | backend/src/server-standalone.js:274-295 | the nodes of the years in sorted key order, as `NodesOf(Placements(...))` |
| SampleGraph.LinkInto | backend/src/server-standalone.js:300-316 | the inner loop appends exactly one node's `LinksOf` edges |
| SampleGraph.LinkNodes | backend/src/server-standalone.js:298-318 | the nested loops push exactly the edges `EdgesFrom` describes |
| SampleGraph.SampleGraphRoute | backend/src/server-standalone.js:204-345 | the handler answers what `SampleGraphOf` describes |
| SampleGraphFacts.SortKeysSorted | backend/src/server-standalone.js:274 | the year keys come out in ascending string order |
| SampleGraphFacts.SortedYears | backend/src/server-standalone.js:274 | distinct keys come out strictly ascending |
| SampleGraphFacts.GraphNodeIds | backend/src/server-standalone.js:221-225 | node `i` has id `node_<i+1>`, so ids are pairwise distinct |
| SampleGraphFacts.PlacementOrder | backend/src/server-standalone.js:274-295 | placements follow the year order and, within a year, core precede optional |
| SampleGraphFacts.GraphNodeOrder | backend/src/server-standalone.js:274-295 | nodes come year by year in sorted key order; within a year every core node precedes every optional one |
| SampleGraphFacts.GraphNodeEntries | backend/src/server-standalone.js:254-295 | the nodes are exactly the references whose module exists, each once, with its year key and list type |
| SampleGraphFacts.GraphNodeCount | backend/src/server-standalone.js:254-295 | one node per reference, core or optional, whose module exists |
| SampleGraphFacts.GraphNodeOrigin | backend/src/server-standalone.js:224-235 | each node comes from a reference of its list under year `year \|\| 1`, with credits `\|\| 20` and level `\|\| year` |
| SampleGraphFacts.ListedTwiceTwoNodes | backend/src/server-standalone.js:254-294 | a module listed as core and as optional gets two nodes |
| SampleGraphFacts.FirstWithCodeFirst | backend/src/server-standalone.js:302-304 | the lookup answers with the first node carrying the code |
| SampleGraphFacts.LinksOfIff | backend/src/server-standalone.js:301-316 | the edges into a node are exactly those for its entries that some node carries |
| SampleGraphFacts.EdgesFromIff | backend/src/server-standalone.js:298-318 | an edge exists iff a node lists an entry some node carries; it runs from the first such node, id `edge_<src>_<tgt>` |
| SampleGraphFacts.GraphEdgeEnds | backend/src/server-standalone.js:298-318 | every edge joins two nodes, and its source carries the prerequisite's code |
| Notifications.Pushed | frontend/src/components/EnhancedNotificationSystem.js:364-368 | the new notification first, then the old list cut to `max - 1`, so length `min(max, n + 1)` |
| Notifications.Without | frontend/src/components/EnhancedNotificationSystem.js:373-375 | exactly the notifications with another id, in order |
| Notifications.Updated | frontend/src/components/EnhancedNotificationSystem.js:381-389 | the matching id merges the updates; length and other entries unchanged |
| Notifications.ShowDefaults | frontend/src/components/EnhancedNotificationSystem.js:392-437 | default titles, error duration 7000, others `globalDuration`, loading persistent, timestamp set |
| Notifications.ShowOverrides | frontend/src/components/EnhancedNotificationSystem.js:392-437 | every option passed wins over the helper's default; the timestamp is always set by `addNotification` |
| Notifications.PushedKeeps | frontend/src/components/EnhancedNotificationSystem.js:355-371 | adding with the next id keeps the list newest first with issued ids |
| Notifications.WithoutKeeps | frontend/src/components/EnhancedNotificationSystem.js:373-375 | removing keeps the list newest first with issued ids |
| Notifications.UpdatedKeeps | frontend/src/components/EnhancedNotificationSystem.js:381-389 | an update that sets no `id` leaves every id in place |
| Notifications.RemoveUndoesAdd | frontend/src/components/EnhancedNotificationSystem.js:355-375 | removing the notification just added restores the list when the cap cut nothing |
| Notifications.WithoutRemovesAll | frontend/src/components/EnhancedNotificationSystem.js:373-375 | no notification keeps the removed id |
| Notifications.NotificationCenter.constructor | frontend/src/components/EnhancedNotificationSystem.js:352-353 | an empty list and a counter at 0 |
| Notifications.NotificationCenter.Add | frontend/src/components/EnhancedNotificationSystem.js:355-371 | returns the next id and pushes the new notification, capped |
| Notifications.NotificationCenter.Show | frontend/src/components/EnhancedNotificationSystem.js:392-437 | a `show*` helper adds its defaulted notification |
| Notifications.NotificationCenter.Remove | frontend/src/components/EnhancedNotificationSystem.js:373-375 | the list without the id; the counter unchanged |
| Notifications.NotificationCenter.ClearAll | frontend/src/components/EnhancedNotificationSystem.js:377-379 | an empty list; the counter is not reset |
| Notifications.NotificationCenter.Update | frontend/src/components/EnhancedNotificationSystem.js:381-389 | the list with the id's entry merged |
| Shortcuts.Get | frontend/src/contexts/EnhancedContexts.js:149 | a shortcut is found exactly when an entry has the key, and it is that entry's |
| Shortcuts.Delete | frontend/src/contexts/EnhancedContexts.js:122 | exactly the entries with another key, in insertion order |
| Shortcuts.GetAt | frontend/src/contexts/EnhancedContexts.js:149 | with distinct keys the lookup finds the one entry under the key |
| Shortcuts.SetSpec | frontend/src/contexts/EnhancedContexts.js:118 | `set` keeps keys distinct, stores the shortcut, and leaves every other key as it was; a present key keeps its place in insertion order, a new key goes last |
| Shortcuts.DeleteSpec | frontend/src/contexts/EnhancedContexts.js:122 | `delete` keeps keys distinct, removes the key, and leaves every other key as it was |
| Shortcuts.DeleteUndoesSet | frontend/src/contexts/EnhancedContexts.js:117-123 | unregistering a key just registered gives the map back |
| Shortcuts.ComboKeyLower | frontend/src/contexts/EnhancedContexts.js:141-147 | the composed key is lower case, as stored keys are |
| Shortcuts.ComboKeyParts | frontend/src/contexts/EnhancedContexts.js:144-147 | modifiers in the fixed order ctrl, alt, shift, ahead of the lower-cased key |
| Shortcuts.RegisteredFires | frontend/src/contexts/EnhancedContexts.js:133-153 | a shortcut registered under the combination fires outside text fields |
| Shortcuts.FiredOnlyWhenRegistered | frontend/src/contexts/EnhancedContexts.js:134-153 | a callback fires iff enabled, outside INPUT/TEXTAREA, and the combination is registered; it is that entry's callback |
| Shortcuts.ShortcutRegistry.constructor | frontend/src/contexts/EnhancedContexts.js:114-115 | no shortcuts, enabled |
| Shortcuts.ShortcutRegistry.Register | frontend/src/contexts/EnhancedContexts.js:117-119 | stores under the lower-cased key, description defaulting to '' |
| Shortcuts.ShortcutRegistry.Unregister | frontend/src/contexts/EnhancedContexts.js:121-123 | deletes the lower-cased key |
| Shortcuts.ShortcutRegistry.GetShortcuts | frontend/src/contexts/EnhancedContexts.js:125-130 | keys and descriptions, in insertion order |
| Shortcuts.ShortcutRegistry.SetIsEnabled | frontend/src/contexts/EnhancedContexts.js:115 | sets the flag, shortcuts unchanged |
| Shortcuts.ShortcutRegistry.HandleKeyDown | frontend/src/contexts/EnhancedContexts.js:133-154 | the listener calls exactly the callback `Fired` gives |
| Commands.WithoutId | frontend/src/contexts/EnhancedContexts.js:290 | exactly the commands with another id, in order |
| Commands.Registered | frontend/src/contexts/EnhancedContexts.js:282-287 | the new command last, and otherwise exactly the commands with another id |
| Commands.FindById | frontend/src/contexts/EnhancedContexts.js:294 | a command is found exactly when one has the id |
| Commands.RegisteredDistinct | frontend/src/contexts/EnhancedContexts.js:282-287 | registering keeps ids distinct |
| Commands.RegisteredFinds | frontend/src/contexts/EnhancedContexts.js:282-299 | after registering, the id finds the new command and its action |
| Commands.ReRegisterMoves | frontend/src/contexts/EnhancedContexts.js:282-287 | re-registering an id replaces its command at the end without changing the count |
| Commands.OneWithId | frontend/src/contexts/EnhancedContexts.js:289-291 | with distinct ids, unregistering a present id drops exactly one command |
| Commands.UnregisterUndoesRegister | frontend/src/contexts/EnhancedContexts.js:282-291 | unregistering a new id undoes its registration |
| Commands.CommandRegistry.constructor | frontend/src/contexts/EnhancedContexts.js:279-280 | closed, no commands |
| Commands.CommandRegistry.Register | frontend/src/contexts/EnhancedContexts.js:282-287 | commands become `Registered(...)` |
| Commands.CommandRegistry.Unregister | frontend/src/contexts/EnhancedContexts.js:289-291 | commands become `WithoutId(...)` |
| Commands.CommandRegistry.Execute | frontend/src/contexts/EnhancedContexts.js:293-299 | runs the action and closes the palette exactly when the id has a command with an action |
| Commands.CommandRegistry.Toggle | frontend/src/contexts/EnhancedContexts.js:301-303 | flips `isOpen` |
| Commands.CommandRegistry.SetIsOpen | frontend/src/contexts/EnhancedContexts.js:279 | sets `isOpen` |
| Analytics.NewEvent | frontend/src/contexts/EnhancedContexts.js:338-344 | the event carries the given id, name and timestamp, the given properties or `{}` when none are passed, and the stored session id, or "unknown" exactly when none (or an empty one) is stored |
| Analytics.Appended | frontend/src/contexts/EnhancedContexts.js:346-350 | the new event last, only the last 1000 kept |
| Analytics.AppendedWithinCap | frontend/src/contexts/EnhancedContexts.js:346-350 | the cap holds after every `track`; below it nothing is dropped, at it the oldest is |
| Analytics.EventsNamed | frontend/src/contexts/EnhancedContexts.js:358-363 | a name keeps exactly the events of that name in order; no name keeps all |
| Analytics.Bump | frontend/src/contexts/EnhancedContexts.js:389-392 | one more entry exactly for a new name |
| Analytics.BumpSpec | frontend/src/contexts/EnhancedContexts.js:389-392 | names kept, the named count up by one, a new name last with count 1 |
| Analytics.BumpDistinct | frontend/src/contexts/EnhancedContexts.js:389-392 | bumping keeps names distinct and adds the name |
| Analytics.TallyCounts | frontend/src/contexts/EnhancedContexts.js:388-392 | the tally lists each event name exactly once with its count |
| Analytics.SortByCount | frontend/src/contexts/EnhancedContexts.js:393 | the sort rearranges the entries |
| Analytics.SortByCountSorted | frontend/src/contexts/EnhancedContexts.js:393 | entries come out by descending count |
| Analytics.NameSets | frontend/src/contexts/EnhancedContexts.js:379 | the names of the events are the names the tally lists |
| Analytics.TopBeatsRest | frontend/src/contexts/EnhancedContexts.js:388-393 | a name left off `topEvents` has no more events than its last entry |
| Analytics.StatsSpec | frontend/src/contexts/EnhancedContexts.js:377-395 | `totalEvents` is the length, `uniqueEvents` the number of distinct names, `topEvents` exactly `min(5, distinct names)` entries by descending count, no name twice, each with its true count, and no name left off has a higher count than the last entry |
| Analytics.SortByCountDistinct | frontend/src/contexts/EnhancedContexts.js:390-391 | sorting the tally's entries keeps each name once |
| Analytics.AnalyticsStore.constructor | frontend/src/contexts/EnhancedContexts.js:332-333 | no events, enabled |
| Analytics.AnalyticsStore.Track | frontend/src/contexts/EnhancedContexts.js:335-356 | nothing while disabled; otherwise the event appended under the cap |
| Analytics.AnalyticsStore.Clear | frontend/src/contexts/EnhancedContexts.js:373-375 | no events |
| Analytics.AnalyticsStore.SetIsEnabled | frontend/src/contexts/EnhancedContexts.js:333 | sets the flag, events unchanged |
| Preferences.Toggled | frontend/src/contexts/EnhancedContexts.js:21 | 'light' becomes 'dark'; anything else becomes 'light' |
| Preferences.ToggleTwice | frontend/src/contexts/EnhancedContexts.js:20-27 | toggling twice gives the theme back exactly when it was 'light' or 'dark' |
| Preferences.InitialTheme | frontend/src/contexts/EnhancedContexts.js:15-18 | the stored theme, or 'light' when none (or an empty one) is stored |
| Preferences.Defaults | frontend/src/contexts/EnhancedContexts.js:54-66 | exactly the eleven setting names; `graphLayout` is "force"; every flag is on except `soundEffects` |
| Preferences.WithSetting | frontend/src/contexts/EnhancedContexts.js:69-75 | the key takes the value and no other key changes |
| Preferences.WithSettingOrder | frontend/src/contexts/EnhancedContexts.js:69-75 | the second of two writes to a key wins; writes to different keys commute |
| Preferences.ThemeStore.constructor | frontend/src/contexts/EnhancedContexts.js:15-18 | the initial theme |
| Preferences.ThemeStore.Toggle | frontend/src/contexts/EnhancedContexts.js:20-27 | the theme becomes `Toggled` of the old one |
| Preferences.SettingsStore.constructor | frontend/src/contexts/EnhancedContexts.js:52-67 | the stored settings, or the defaults |
| Preferences.SettingsStore.Update | frontend/src/contexts/EnhancedContexts.js:69-75 | the settings with one key set |
| Preferences.SettingsStore.Reset | frontend/src/contexts/EnhancedContexts.js:77-93 | the defaults of lines 78-90, equal to those of 54-66 |
| Selection.Down | frontend/src/components/EnhancedComponents.js:344-346 | the next index, wrapping from the last to 0; in range for a non-empty list |
| Selection.Up | frontend/src/components/EnhancedComponents.js:350-352 | the previous index, wrapping from 0 (or -1) to the last; in range for a non-empty list |
| Selection.DownUpInverse | frontend/src/components/EnhancedComponents.js:342-353 | within a non-empty list ArrowUp undoes ArrowDown and back |
| Selection.DownCycles | frontend/src/components/EnhancedComponents.js:342-347 | `k` presses move `k` places forward round the list |
| CommandPalette.FilteredCommands | frontend/src/components/EnhancedDialogs.js:14-18 | exactly the commands whose name, description or a keyword contains the term ignoring case, in order |
| CommandPalette.EmptySearchKeepsAll | frontend/src/components/EnhancedDialogs.js:14-18 | an empty search keeps every command |
| CommandPalette.NameMatchOffered | frontend/src/components/EnhancedDialogs.js:15 | a name match is offered |
| CommandPalette.Chosen | frontend/src/components/EnhancedDialogs.js:50-58 | Enter runs the highlighted command exactly when the index is in range |
| CommandPalette.RenderedIndexAsWritten | frontend/src/components/EnhancedDialogs.js:21-23 | as written, the index is 0 after every render |
| CommandPalette.RenderedIndex | frontend/src/components/EnhancedDialogs.js:21-23 | intended: 0 when the filtered list changed, otherwise where the key moved it |
| CommandPalette.ArrowDownIsLost | frontend/src/components/EnhancedDialogs.js:21-58 | as written, with two matches ArrowDown then Enter runs the first command |
| CommandPalette.ArrowDownMoves | frontend/src/components/EnhancedDialogs.js:38-58 | intended: ArrowDown then Enter runs the next command, and `k` presses move `k` places |
| CommandPalette.PaletteView.constructor | frontend/src/components/EnhancedDialogs.js:7-9 | an empty term and index 0 over the registry |
| CommandPalette.PaletteView.SetSearchTerm | frontend/src/components/EnhancedDialogs.js:8 | sets the term |
| CommandPalette.PaletteView.Hover | frontend/src/components/EnhancedDialogs.js:9 | sets the highlighted index |
| CommandPalette.PaletteView.AfterRender | frontend/src/components/EnhancedDialogs.js:21-23 | as written, the index goes back to 0 after every render, the term untouched |
| CommandPalette.PaletteView.AfterRenderIntended | frontend/src/components/EnhancedDialogs.js:21-23 | intended: the index goes back to 0 only when the filtered list differs from the last render's, otherwise it stays |
| CommandPalette.PaletteView.HandleKey | frontend/src/components/EnhancedDialogs.js:36-64 | arrows move with wrap-around; Enter runs and reports the highlighted command when in range, and with none highlighted leaves the palette open; Escape closes |
| CourseSelector.Rank | frontend/src/components/EnhancedComponents.js:235-249 | code-prefix matches rank first, then name-prefix matches; rank < 2 iff the code starts with the term |
| CourseSelector.RankGroupsPartition | frontend/src/components/EnhancedComponents.js:235-249 | the rank groups together hold every match exactly once |
| CourseSelector.RankSortedOrdered | frontend/src/components/EnhancedComponents.js:235-249 | the stable sort leaves the matches in rank order |
| CourseSelector.FilteredCoursesSpec | frontend/src/components/EnhancedComponents.js:226-250 | a blank term leaves the list as it is; otherwise exactly the courses with a field containing the term, rank-ordered, and the courses of each rank in the result are those of the matches in list order |
| CourseSelector.RankSortedStable | frontend/src/components/EnhancedComponents.js:237-249 | the stable sort keeps the order of the courses within each rank |
| Seqs.FilterAppend | frontend/src/components/EnhancedComponents.js:226-249 | filtering a concatenation filters each part and concatenates the results |
| CourseSelector.PopularCourses | frontend/src/components/EnhancedComponents.js:275-278 | exactly the first 3 (or all, when fewer) of the courses in neither the recent nor the favourite list, in list order |
| CourseSelector.PartsInOrder | frontend/src/components/EnhancedComponents.js:256-285 | the groups are pushed in the order favourites, recent, popular, and each kind is present iff its `if` pushed it |
| CourseSelector.PartsHold | frontend/src/components/EnhancedComponents.js:259-285 | each pushed group holds exactly its slice: the first 3 favourites, the first `maxRecent` recent courses, the popular courses; only the recent one can be empty |
| CourseSelector.SuggestionsSpec | frontend/src/components/EnhancedComponents.js:253-288 | none while a term is typed; otherwise the favourites group iff favourites are shown and exist, the recent group iff recent courses are shown and exist, the popular group iff some course is in neither list; in that order, each with exactly its courses |
| CourseSelector.SlicePrefix | frontend/src/components/EnhancedComponents.js:262 | `slice(0, n)` is a prefix of its list |
| CourseSelector.WithRecent | frontend/src/components/EnhancedComponents.js:298-301 | for `maxRecent > 0`, the selected course followed by the first `min(maxRecent, 1 + n) - 1` of the `n` recent courses with another code, in order; for `maxRecent <= 0`, the slice of that list `slice(0, maxRecent)` gives |
| CourseSelector.WithRecentUnique | frontend/src/components/EnhancedComponents.js:298-301 | no entry after the head has the selected code, each was recent, and below the cap every recent course with another code is kept |
| CourseSelector.WithRecentIdempotent | frontend/src/components/EnhancedComponents.js:298-301 | re-selecting the head course changes nothing |
| CourseSelector.Toggled | frontend/src/components/EnhancedComponents.js:318-327 | a favourite's code present: exactly the favourites with another code, in order, none carrying it; otherwise the course in front of the favourites |
| CourseSelector.ToggleTwice | frontend/src/components/EnhancedComponents.js:318-327 | toggling a non-favourite twice gives the favourites back |
| CourseSelector.ClickFires | frontend/src/components/EnhancedComponents.js:103-109 | `onClick` runs iff the button is neither disabled nor loading and has a handler |
| CourseSelector.Selector.constructor | frontend/src/components/EnhancedComponents.js:186-194 | empty term, closed, index -1, no recent or favourite courses |
| CourseSelector.Selector.LoadStored | frontend/src/components/EnhancedComponents.js:200-223 | the stored lists that parsed replace the shown lists |
| CourseSelector.Selector.Type | frontend/src/components/EnhancedComponents.js:458 | sets the term |
| CourseSelector.Selector.Focus | frontend/src/components/EnhancedComponents.js:459-477 | focus as written: the second `onFocus` prop (474-477) replaces the first, so no state of the selector changes |
| CourseSelector.Selector.FocusIntended | frontend/src/components/EnhancedComponents.js:459 | focus as evidently intended: the dropdown opens and nothing else changes |
| CourseSelector.RunAsWritten | frontend/src/components/EnhancedComponents.js:186-477 | under any sequence of mount, typing, focus, key, outside-click, course-click and star events, as written, the selector never opens, its index stays -1 and no key selects a course |
| CourseSelector.FocusThenEnterAsWritten | frontend/src/components/EnhancedComponents.js:334-366 | as written, focus, ArrowDown and Enter on a new selector choose nothing |
| CourseSelector.FocusThenEnter | frontend/src/components/EnhancedComponents.js:334-366 | with focus opening the dropdown, focus, ArrowDown and Enter on a new selector choose the first visible course, if there is one |
| CourseSelector.Selector.ClickOutside | frontend/src/components/EnhancedComponents.js:369-375 | closes and resets the index to -1 |
| CourseSelector.Selector.SelectCourse | frontend/src/components/EnhancedComponents.js:291-312 | clears the term, closes, index -1, updates recent when shown, reports the code and the "Selected" notice |
| CourseSelector.Selector.ToggleFavorite | frontend/src/components/EnhancedComponents.js:315-331 | favourites become `Toggled(...)`, with the matching notice |
| CourseSelector.Selector.HandleKey | frontend/src/components/EnhancedComponents.js:334-366 | closed, another key, or Enter out of range: nothing changes; arrows wrap the index and change nothing else; Enter on an in-range index selects that course; Escape closes and resets the index, keeping the term and lists |
| LearningPath.LevelOf | frontend/src/components/IntelligentFeatures.js:48 | a missing or zero level counts as 1 |
| LearningPath.TotalCreditsAppend | frontend/src/components/IntelligentFeatures.js:47 | the credit sum of two paths is the sum of their sums |
| LearningPath.Semesters | frontend/src/components/IntelligentFeatures.js:77 | the fewest 30-credit semesters that hold the credits |
| LearningPath.Progression | frontend/src/components/IntelligentFeatures.js:64-69 | one step per module |
| LearningPath.AllAppropriate | frontend/src/components/IntelligentFeatures.js:64-69 | every step is appropriate iff levels never go down along the path |
| LearningPath.MissingSpec | frontend/src/components/IntelligentFeatures.js:52-61 | the missing list holds exactly the (module, code) pairs where a module lists the code and no module of the path has it |
| LearningPath.MetSpec | frontend/src/components/IntelligentFeatures.js:74 | prerequisites are met iff every listed prerequisite is a code on the path |
| LearningPath.Analyze | frontend/src/components/IntelligentFeatures.js:38-80 | no analysis for an empty path; otherwise the credit sum, the missing list from the nested loops, met iff nothing missing, the progression and the semester count |
| LearningPath.Moved | frontend/src/components/IntelligentFeatures.js:134-137 | two `splice` calls keep the length |
| LearningPath.MovedSpec | frontend/src/components/IntelligentFeatures.js:134-140 | a move keeps the same modules and credits and puts the moved module at its new index |
| LearningPath.PermutedMissing | frontend/src/components/IntelligentFeatures.js:52-61 | paths with the same modules miss the same prerequisites |
| LearningPath.MovedKeepsAnalysis | frontend/src/components/IntelligentFeatures.js:134-140 | reordering changes neither the credits nor the missing prerequisites |
| LearningPath.SortByCode | frontend/src/components/IntelligentFeatures.js:113-115 | the sort rearranges the list |
| LearningPath.SortByCodeSorted | frontend/src/components/IntelligentFeatures.js:113-115 | the sorted list is in module-code order with the same modules |
| LearningPath.WithoutIdOf | frontend/src/components/IntelligentFeatures.js:106 | exactly the modules with another id, in order |
| LearningPath.AvailableFrom | frontend/src/components/IntelligentFeatures.js:29-35 | exactly the graph's modules whose id is not on the path, in graph order |
| LearningPath.FindId | frontend/src/components/IntelligentFeatures.js:122 | a module is found exactly when one has the id |
| LearningPath.DropBackUndoesDrop | frontend/src/components/IntelligentFeatures.js:100-116 | dropping onto the path and back gives the path back when its id was not on it |
| LearningPath.ReturnedInOrder | frontend/src/components/IntelligentFeatures.js:128-130 | a module moved back lands in code order among the available ones |
| LearningPath.SavedFrom | frontend/src/components/IntelligentFeatures.js:142-153 | nothing for a blank name; otherwise the path with its name and modules, and the clock's reading as id when it has none |
| LearningPath.SaveAgain | frontend/src/components/IntelligentFeatures.js:142-173 | a filled form saves the same modules again; a reset form saves nothing |
| LearningPath.Builder.constructor | frontend/src/components/IntelligentFeatures.js:15-26 | an empty, unnamed path with no id and nothing dragged |
| LearningPath.Builder.SyncAvailable | frontend/src/components/IntelligentFeatures.js:29-35 | the available list becomes `AvailableFrom` of the graph and the path |
| LearningPath.Builder.SetName | frontend/src/components/IntelligentFeatures.js:15-23 | sets the name |
| LearningPath.Builder.DragStart | frontend/src/components/IntelligentFeatures.js:86-89 | remembers the dragged module |
| LearningPath.Builder.Drop | frontend/src/components/IntelligentFeatures.js:96-119 | nothing without a dragged module; onto the path it is appended and leaves the available list; back it leaves the path and joins the code-sorted list |
| LearningPath.Builder.Remove | frontend/src/components/IntelligentFeatures.js:121-132 | a module on the path leaves it and joins the code-sorted available list; an unknown id changes nothing |
| LearningPath.Builder.Reorder | frontend/src/components/IntelligentFeatures.js:134-140 | the path becomes `Moved(path, start, end)` |
| LearningPath.Builder.Save | frontend/src/components/IntelligentFeatures.js:142-173 | intended: hands on `SavedFrom(...)`; a blank name keeps the form, a save resets it |
| LearningPath.Builder.SaveAsWritten | frontend/src/components/IntelligentFeatures.js:142-160 | as written: hands on `SavedFrom(...)`, and the form keeps its name, modules and id |
| Seqs.FindFirst | frontend/src/components/EnhancedSidebar.js:50 | `find`: an element is found exactly when one passes the test, and it is the first that does |
| Sidebar.FindNode | frontend/src/components/EnhancedSidebar.js:50 | a node is found exactly when one has the id, and it is the first node with that id |
| Sidebar.Connected | frontend/src/components/EnhancedSidebar.js:46-52 | at most one connected node per edge |
| Sidebar.ConnectedSpec | frontend/src/components/EnhancedSidebar.js:46-52 | a node is connected iff an edge touching the selected node has it at the other end |
| Sidebar.ConnectedCount | frontend/src/components/EnhancedSidebar.js:46-52 | with every edge end a node, one connected node per touching edge |
| Sidebar.Stats | frontend/src/components/EnhancedSidebar.js:61-73 | total is the connected count; the prerequisite count is the number of connected nodes with an edge into the selected node, the dependent count the number with an edge from it; both within the total, zero iff no connected node is one |
| Seqs.FilterCount | frontend/src/components/EnhancedSidebar.js:63-72 | `filter(f).length` is the number of elements that pass `f` |
| Sidebar.FilteredConnected | frontend/src/components/EnhancedSidebar.js:55-58 | the search keeps connected nodes in order |
| Sidebar.FilteredConnectedSpec | frontend/src/components/EnhancedSidebar.js:55-58 | a connected node is kept iff its label or code contains the term ignoring case |
| Sidebar.EmptySearchKeeps | frontend/src/components/EnhancedSidebar.js:55-58 | an empty search keeps every connected node with a label or code |
| Sidebar.Render | frontend/src/components/EnhancedSidebar.js:43-73 | nothing iff not visible or nothing selected; otherwise the filtered nodes are a subsequence and the total is the connected count |
| Sidebar.StandaloneSpec | frontend/src/components/EnhancedSidebar.js:693 | "Standalone Module" shows iff no touching edge has a node at its other end |
| SearchFilter.YearMatchAsWritten | frontend/src/components/SearchFilter.js:44 | `/\\d/` can only ever match the two characters `\d` |
| SearchFilter.YearDropsEveryModule | frontend/src/components/SearchFilter.js:41-47 | as written, no year the menu offers keeps a module node |
| SearchFilter.YearOneDropsFirstYearModule | frontend/src/components/SearchFilter.js:41-47 | as written, Year 1 drops `MTH1001`; the intended test keeps it |
| SearchFilter.AsWrittenYearKeepsOnlyCourses | frontend/src/components/SearchFilter.js:41-47 | as written, a menu year leaves only course nodes |
| SearchFilter.FirstDigit | frontend/src/components/SearchFilter.js:44 | intended: the label's first digit, found exactly when the label has a digit |
| SearchFilter.YearKeepsSpec | frontend/src/components/SearchFilter.js:42-46 | intended: a module is kept iff the first digit of its label is the year |
| SearchFilter.ApplyFiltersSpec | frontend/src/components/SearchFilter.js:24-49 | intended: the list is a subsequence holding exactly the nodes that pass every criterion that is set, the year by the label's first digit |
| SearchFilter.ApplyFiltersAsWrittenSpec | frontend/src/components/SearchFilter.js:24-49 | as written: the reported list is a subsequence holding exactly the nodes that pass the search and type criteria and the `/\\d/` year test |
| SearchFilter.NoCriteriaKeepsAll | frontend/src/components/SearchFilter.js:24-49 | a blank search with both menus on 'all' reports every node |
| SearchFilter.FilterPanel.constructor | frontend/src/components/SearchFilter.js:5-7 | empty search, 'all' type and year |
| SearchFilter.FilterPanel.HandleSearch | frontend/src/components/SearchFilter.js:9-12 | sets the search, keeps the other criteria, and reports the nodes the as-written filter keeps |
| SearchFilter.FilterPanel.HandleType | frontend/src/components/SearchFilter.js:14-17 | sets the type, keeps the other criteria, and reports the nodes the as-written filter keeps |
| SearchFilter.FilterPanel.HandleYear | frontend/src/components/SearchFilter.js:19-22 | sets the year, keeps the other criteria, and reports the nodes the as-written filter keeps |
| SearchFilter.FilterPanel.Clear | frontend/src/components/SearchFilter.js:52-57 | resets every criterion and reports all nodes |
| SearchPanel.DistinctSpec | frontend/src/components/AdvancedFeatures.js:236-238 | the choices are exactly the present, non-empty values, none twice |
| SearchPanel.DistinctOrder | frontend/src/components/AdvancedFeatures.js:236-238 | the choices follow the values' first occurrences |
| SearchPanel.Column | frontend/src/components/AdvancedFeatures.js:236-238 | one entry per node, its department, level or semester |
| SearchPanel.ChoicesSpec | frontend/src/components/AdvancedFeatures.js:236-238 | a value is offered iff some node has it, none twice |
| SearchPanel.Results | frontend/src/components/AdvancedFeatures.js:249-265 | the results keep node order |
| SearchPanel.ResultsSpec | frontend/src/components/AdvancedFeatures.js:241-265 | a blank term finds nothing; otherwise a node is found iff its text matches and it passes the filters |
| SearchPanel.NoCreditsNoMatch | frontend/src/components/AdvancedFeatures.js:261 | a node without credits is never found |
| SearchPanel.HighlightedSpec | frontend/src/components/AdvancedFeatures.js:268 | the highlighted ids are exactly the results' ids |
| SearchPanel.Get | frontend/src/components/AdvancedFeatures.js:224-231 | each key holds a value of its shape |
| SearchPanel.WithFilterSpec | frontend/src/components/AdvancedFeatures.js:278-280 | an update sets that key and no other; writing back a key's value changes nothing |
| SearchPanel.Panel.constructor | frontend/src/components/AdvancedFeatures.js:223-233 | empty term, default filters, no results, nothing highlighted |
| SearchPanel.Panel.SetSearchTerm | frontend/src/components/AdvancedFeatures.js:354 | sets the term |
| SearchPanel.Panel.UpdateFilter | frontend/src/components/AdvancedFeatures.js:278-280 | filters become `WithFilter(...)` |
| SearchPanel.Panel.PerformSearch | frontend/src/components/AdvancedFeatures.js:241-271 | results and highlight follow `Results`; the ids are reported iff the term is not blank |
| SearchPanel.Panel.Clear | frontend/src/components/AdvancedFeatures.js:483-495 | default filters, empty term, nothing highlighted, the empty set reported |

## Left out

- HTTP transport, Express middleware, MongoDB connections and the 500 paths of the database routes, scrapers, the loader scripts and the duplicate `exeter-course-visualizer` tree are not part of this model. The record store is a value passed in.
- Clocks, randomness and storage are parameters. This covers `Date.now`, ISO timestamps, `Math.random` in analytics ids, `sessionStorage`, and `localStorage` reads and writes. `localStorage` and `JSON.parse` appear as already-parsed optional values.
- Timers are left out: notification auto-dismiss, the 300 ms search debounce (`PerformSearch` is the settled call), and the palette focus effect.
- JSX rendering, styles, node positions beyond their arithmetic, React Flow, and DOM events other than the keys modelled are left out.
- Floating point is left out: `averageLevel`, `completionRate` and its `toFixed` in `analyzeCurrentPath`. So is the unused `prerequisites` set there.
- Analytics.EventsNamed: the `since` date filter of `getEvents` and the `recentEvents` count of `getStats` are left out, because they compare clock readings.
- Text.Lower: `toLowerCase` is modelled on the ASCII letters only, and no Unicode case mapping.
- LearningPath.SortByCode: `localeCompare` is modelled as plain character order, with no locale collation. A module without a code is sorted as if its code were `''`, so it goes first. The source's comparator returns 0 whenever the left module has no code, but puts a coded module after a code-less one, so it is inconsistent and where a code-less module lands depends on the engine's sort. For example, V8 leaves it last when it is dropped back behind an already ordered list. `Builder.Drop`, `Builder.Remove` and `ReturnedInOrder` inherit this.
- LearningPath.Builder.Reorder: requires the start index, as `splice` reads it, to designate an element. `splice` on an empty slot would insert `undefined`, and no caller in the component invokes `reorderPath`.
- LearningPath.Builder.Save: `alert` on a blank name, the `learning_path_created` analytics event, `onClose()` and the `createdAt`/`updatedAt` stamps are left out.
- LearningPath.Builder.SyncAvailable: the effect on lines 29-35 re-runs after every change of the path and overwrites the sorted list `Drop` and `Remove` build. The model offers it as a separate step instead of scheduling it.
- SearchPanel.MatchesFilters: the level filter compares with `===` against the string a `<select>` yields. Levels are modelled as strings, so a numeric `level` field that would never match is not represented.
- CourseSelector.Selector.SelectCourse and CourseSelector.Selector.ToggleFavorite are modelled as callable at any time; as written they are reached only from the dropdown (EnhancedComponents.js:430, 547, 583) and from Enter, none of which can happen while the dropdown never opens (see Findings). `FocusIntended` stands for the behaviour under which they are reached.
- CourseSelector.Selector.ToggleFavorite: `e.stopPropagation()` and the notice kinds (success/info) beyond their text are left out.
- Commands.Registered: a command spec that carries its own `id` overriding the spread is not modelled; the registered id always wins.
- SampleServer.SearchCourses: a thrown `TypeError` is modelled only for a missing course name or code, the one throw the filter can reach. `parseInt` is an optional integer argument.
- SampleData.MathModulesUnique: the fixture's free-text fields (summaries, outcomes, descriptions, URLs) are left empty, and its Computer Science half is left out. No route branches on them.
- Analytics.Tally: names are listed in order of first occurrence. JavaScript's `Object.entries` lists integer-like keys first, in ascending numeric order, so names tied on count can come out of `topEvents` in another order. `acc[name] || 0` also reads names inherited from `Object.prototype`, such as `constructor`; the model counts them as fresh names.
- CommandPalette.PaletteView.HandleKey: the `command_executed` analytics call is reported as the returned id rather than tracked.

## Findings

| source | as written | input that shows it | evidently intended | confidence | as-written member | corrected member |
|---|---|---|---|---|---|---|
| backend/src/server-standalone.js:126 | `Math.min(parseInt(limit) \|\| 50, 100)` lets a negative limit through, and `slice(start, start + limitNum)` then counts the end from the back | `GET /api/courses?limit=-1` over 102 items returns 101 items, past the 100 cap | the limit clamped to 0..100, so no page exceeds 100 | not executed | SampleServer.NegativeLimitOverflow | SampleServer.ClampedPageLimit, SampleServer.ClampedPageBounded, SampleServer.ClampedPageAgrees |
| frontend/src/components/EnhancedDialogs.js:21-23 | the reset effect depends on `filteredCommands`, a new array on every render, so it sets the index to 0 after every key | two matching commands, ArrowDown then Enter: the first command runs | reset only when the filtered list changes, so ArrowDown moves the highlight | not executed | CommandPalette.RenderedIndexAsWritten, CommandPalette.ArrowDownIsLost, CommandPalette.PaletteView.AfterRender | CommandPalette.RenderedIndex, CommandPalette.ArrowDownMoves, CommandPalette.PaletteView.AfterRenderIntended |
| frontend/src/components/SearchFilter.js:44 | `/\\d/` matches a backslash followed by `d`, never a digit | year "1" with a module labelled `MTH1001`: the module is dropped, and every module is dropped for every menu year | the first digit of the label compared with the year | not executed | SearchFilter.YearMatchAsWritten, SearchFilter.YearDropsEveryModule, SearchFilter.YearOneDropsFirstYearModule, SearchFilter.ApplyFiltersAsWrittenSpec, SearchFilter.FilterPanel.HandleYear | SearchFilter.FirstDigit, SearchFilter.YearKeepsSpec, SearchFilter.ApplyFiltersSpec |
| frontend/src/components/IntelligentFeatures.js:14 | `useAnalytics()` provides `track`, not `trackEvent`, so `trackEvent(...)` on line 156 throws after `onPathCreated` | name "Plan", one module, Save: the path is handed on, the form is not reset, and a second Save hands it on again | the form reset after a save | not executed | LearningPath.Builder.SaveAsWritten, LearningPath.SaveAgain | LearningPath.Builder.Save |
| frontend/src/components/EnhancedComponents.js:459 | the input carries two `onFocus` props; the later one (474-477) only restyles the border and replaces the one that calls `setIsOpen(true)`, the only call that opens the dropdown, so `isOpen` stays false, `handleKeyDown` returns at 335 and the dropdown at 510 never renders | focus the input, press ArrowDown, then Enter: no course is chosen | focusing the input opens the dropdown | not executed | CourseSelector.Selector.Focus, CourseSelector.RunAsWritten, CourseSelector.FocusThenEnterAsWritten | CourseSelector.Selector.FocusIntended, CourseSelector.FocusThenEnter |
