# Graph visibility filters and search-table helpers, in Dafny

This project models the filtering engine of a graph explorer. Each filter
recomputes a `visible` flag on every node and every link of the current graph
and updates a small mode state: whether a self-centric view is on, which one,
the origin node, the isolated component and the link-visibility flag. The
filters are:

- reset;
- only-selected;
- direct neighbours of an origin;
- the union, intersection and origin-intersection of the selected nodes'
  neighbourhoods;
- the same-entry flood fill;
- component isolation.

The categorical colour table and the small flag toggles are modelled with
them.

Beside the engine, it models four data-shaping helpers of the Python search
server:

- the `or`/`and` merge of advanced-search results;
- the new-feature list collected from a query tree;
- the join that gives each search hit the id columns of the graph nodes built
  from it;
- the config and document helpers of a dataset upload.

Modules, one file each:

| module | file | what |
|---|---|---|
| `Wrappers` | wrappers.dfy | `Option` and `Result` |
| `Seqs` | seqs.dfy | flattening, removal, subsequences |
| `GraphModel` | graph.dfy | nodes, links, components, the orphan test, the "only visibility changed" frame |
| `EngineState` | engine_state.dfy | the mode enumeration and the engine's state |
| `Filters` | filters.dfy | reset, only-selected, direct, component isolation, flag toggles |
| `NeighbourQuery` | neighbour_query.dfy | `isNeighbourWith` and the mutual-neighbour groups |
| `MultiView` | multi_view.dfy | union / intersection / origin-intersection |
| `SameEntryView` | same_entry.dfy | the same-entry flood fill (a verified worklist loop) |
| `ColourScheme` | colours.dfy | the categorical colour table |
| `OrphanTest` | orphan_test.dfy | the orphan test as written (see Findings) |
| `RowMerge` | row_merge.dfy | the `or` / `and` merges |
| `NewFeatures` | new_features.dfy | `get_new_features` |
| `TableJoin` | table_join.dfy | `convert_table_data` |
| `DatasetConfig` | dataset_config.dfy | the dataset settings helpers and indexed documents |

### How the model represents the program

- **Node references.** Nodes are referred to by id. `selectedNodes`, a node's
  cached neighbour objects and the origin are id lists, looked up with the
  first-match `find` of the store (`GraphModel.FindNode`).
- **Errors.** A lookup that would dereference `undefined`, or a Python
  `KeyError`, is an `Err` of a fault datatype. A fault is never a
  precondition, with one exception: the same-entry view requires every cached
  neighbour object to resolve (`ObjectsResolve`, see "Left out").
- **Neighbour sets.** A node's neighbour Set is `Option<seq<Id>>`, absent or
  listed in insertion order. `GraphModel.IsOrphan` is "absent or empty". The
  list is not required to be duplicate-free, although a Set is. The neighbour
  count `NeighbourQuery.Matches` counts listings. So "adjacent to at least two
  selected nodes" is exact for duplicate-free lists, which are the lists a Set
  gives.
- **Selection.** The store reads both `node.selected` and the
  `selectedNodes` list. `GraphModel.SelectionConsistent` says the two agree.
  It is assumed only by the lemmas that need it.
- **Node selection.** The node-selection call of the direct view appends the
  id to `selectedNodes` and sets the node's `selected` flag
  (`Filters.SelectNode`).

### Behaviour worth noting

These behaviours of the code are easy to misread. The model follows the code
in each:

- The mode enumeration has no "none" value. The initial mode is `Direct`, and
  `SelectedComponent` is never assigned.
- Reset leaves the mode unchanged. It clears the origin even when no
  self-centric view is on.
- The same-entry flood continues only from nodes whose entries match the
  target entries. A node reachable only through a non-matching node stays
  hidden. `SameEntryView.TriggerSameEntry` proves the visible set is the
  least set closed under that rule.
- `toggleLinkVisibility(false)` flips the flag rather than clearing it.
- An `or`/`and` merge throws only when no sub-result has an `entry` column.
  That happens only when every sub-query yields a table without columns. Such
  a table comes from a leaf query without hits, or from a plain wrapper around
  one: the wrapper passes its sub-query's table up unchanged (search.py:123).
  A merge whose hits all drop out still has the column, so a merge over it
  succeeds with no hits.
- The colour table is filled from a list of values rather than a set. A value
  listed twice takes the colour of its last position.

## Model

| member | source | states |
|---|---|---|
| EngineState.Initial | app/src/stores/GraphInstanceStore.js:22-30 | Initially no self-centric view is on and there is no origin. The mode is `Direct`, links and orphans are shown, and all components are shown (-1). |
| GraphModel.FindNode | app/src/stores/GraphInstanceStore.js:265-267 | The lookup finds a node with that id exactly when one exists, and the node it returns is one of the graph's nodes. |
| GraphModel.ShowNodes | app/src/stores/GraphInstanceStore.js:482-487 | Only node visibility changes, and a node is visible iff its id is in the shown set. |
| GraphModel.ShowLinksBetween | app/src/stores/GraphInstanceStore.js:490-498 | Only link visibility changes, and a link is visible iff both endpoints are in the shown set. |
| GraphModel.VisibleIdsFromRule | app/src/stores/GraphInstanceStore.js:482-487 | When every node follows a membership rule, the visible ids are exactly the shown ids that are node ids. |
| Filters.ResetSelfCentric | app/src/stores/GraphInstanceStore.js:200-224 | The origin is cleared and the view is off. The mode is kept. Outside a self-centric view the graph is unchanged. Inside one every link is shown, non-orphans are shown, orphans follow the orphan flag, and nothing but visibility changes. |
| Filters.ResetIsIdempotent | app/src/stores/GraphInstanceStore.js:200-224 | Resetting twice is the same as resetting once. |
| Filters.ResetShowsAll | app/src/stores/GraphInstanceStore.js:206-220 | With orphans shown, reset makes every node visible. |
| Filters.TriggerSelectedNodes | app/src/stores/GraphInstanceStore.js:84-113 | A node is visible iff it is selected. A link is visible iff both ends are in `selectedNodes`. The view is on in mode `OnlySelected`, and nothing but visibility changes. |
| Filters.OnlySelectedShowsSelection | app/src/stores/GraphInstanceStore.js:88-108 | With a consistent selection, the visible ids are exactly the selected ids, and every visible link joins two selected nodes. |
| Filters.SelectNode | app/src/stores/GraphInstanceStore.js:236-238 | The id is appended to the selection. Nodes with that id become selected, and no other node or part of the graph changes. |
| Filters.ShowDirect | app/src/stores/GraphInstanceStore.js:243-256 | A node is visible iff it is the origin or in the origin's neighbour set. A link is visible iff an end is the origin. Nothing else changes. |
| Filters.TriggerSelfCentric | app/src/stores/GraphInstanceStore.js:226-261 | The stored origin is used, else the context menu's, else it is an error. On success the view is on in mode `Direct` and the visible nodes are the origin and its neighbours. Links are visible iff they touch the origin. The selection only grows, and it holds the origin. |
| Filters.DirectSelectsOrigin | app/src/stores/GraphInstanceStore.js:235-249 | After the direct view, the origin node is selected and visible. |
| Filters.FindComponent | app/src/stores/GraphInstanceStore.js:556-558 | A component with that id is found exactly when one exists, and it is the first one with that id, as `Array.find` returns. |
| Filters.RowsWithEntries | app/src/stores/GraphInstanceStore.js:560-562 | The kept rows are a subsequence of the table, so table order is kept. Each row whose entry is one of the component's entries appears as often as in the table, and no other row appears. |
| Filters.RowsWithEntriesMembers | app/src/stores/GraphInstanceStore.js:560-562 | A row is kept iff it is in the table and its entry is one of the component's entries. |
| Filters.RowsWithEntriesIsUnique | app/src/stores/GraphInstanceStore.js:560-562 | Any subsequence of the table with those counts is the filtered table, so the order and repetition of the kept rows are fixed. |
| Filters.ToggleVisibleComponents | app/src/stores/GraphInstanceStore.js:547-588 | It is an error exactly when the component is unknown and the table is non-empty. A node is visible iff it is in the component (any node for -1) and passes the orphan rule. A link is visible iff both ends are component members. The active table is the full table for -1, empty for a missing component in an empty table, else exactly `RowsWithEntries` of the table for the first component with that id. For a single component the graph store's own table is cleared. Only `visibleComponent` changes in the state. |
| Filters.ComponentNodes | app/src/stores/GraphInstanceStore.js:565-576 | Only visibility changes, and a node is visible iff it is in the component and passes the intended orphan test. |
| Filters.ShowAllComponentsIsDefaultView | app/src/stores/GraphInstanceStore.js:565-585 | Showing all components gives the node visibility reset gives, and every link between existing nodes is shown. |
| Filters.IsolationShowsComponent | app/src/stores/GraphInstanceStore.js:565-576 | With orphans shown, the visible ids are exactly the component's members. |
| Filters.ToggleLinkVisibility | app/src/stores/GraphInstanceStore.js:505-507 | `true` sets the flag and `false` flips it. Nothing else changes. |
| Filters.ToggleLinkVisibilityFalseTwice | app/src/stores/GraphInstanceStore.js:505-507 | Passing `false` twice restores the state. |
| Filters.SetOrphanNodeVisibility | app/src/stores/GraphInstanceStore.js:532-534 | The orphan flag takes the value, and nothing else changes. |
| Filters.ToggleOrphanNodeVisibility | app/src/stores/GraphInstanceStore.js:536-539 | The orphan flag is negated, and nothing else changes. |
| NeighbourQuery.CountUntilReachesThreshold | app/src/stores/GraphInstanceStore.js:284-293 | The counting loop answers true iff the threshold lies above the starting count and within reach of the matches, so a threshold of 0 never qualifies. |
| NeighbourQuery.IsNeighbourWith | app/src/stores/GraphInstanceStore.js:264-294 | It fails iff the node cannot be resolved or has no neighbour set. In origin mode it holds iff the node neighbours the origin and one of the ids. Otherwise it holds iff it neighbours at least the threshold number of ids, the threshold being the count or, when none is given, the number of ids. |
| NeighbourQuery.Qualifies | app/src/stores/GraphInstanceStore.js:304-313 | A candidate's test succeeds iff it can be resolved, and its answer is the rule's meaning. |
| NeighbourQuery.FilterGroup | app/src/stores/GraphInstanceStore.js:304-313 | The kept candidates are exactly the unselected ones that qualify. |
| NeighbourQuery.GroupOf | app/src/stores/GraphInstanceStore.js:301-314 | The origin's group is empty under the origin rule. Any other group fails iff its node does not resolve or, under a filtering rule, one of its unselected neighbours does not. Otherwise it holds exactly the node's qualifying neighbours. |
| NeighbourQuery.GroupsOf | app/src/stores/GraphInstanceStore.js:301-314 | There is one group per selected node, in order, and it fails iff some group fails. |
| NeighbourQuery.AllNeighbourGroups | app/src/stores/GraphInstanceStore.js:353-355 | Each selected node's group is its neighbour set. |
| NeighbourQuery.GetMutualNeighbours | app/src/stores/GraphInstanceStore.js:317-330 | It fails iff some selected node, or an unselected neighbour of one, does not resolve to a node with a neighbour set. Otherwise a selected node's group holds exactly its unselected neighbours that are adjacent to at least two selected nodes. |
| NeighbourQuery.GetMutualNeighboursWithOrigin | app/src/stores/GraphInstanceStore.js:296-315 | With nothing selected the result is empty. Without an origin it is an error. Otherwise it fails iff some selected non-origin node, or an unselected neighbour of one, does not resolve. The origin's group is empty. Any other group holds exactly its unselected neighbours that are adjacent to the origin and to a selected non-origin node. |
| NeighbourQuery.MutualGroupsWithinNeighbourSets | app/src/stores/GraphInstanceStore.js:296-330 | Every mutual group lies inside its node's neighbour set. |
| MultiView.FlattenedUnionGroups | app/src/stores/GraphInstanceStore.js:353-364 | The flattened union groups are exactly the neighbours of some selected node. |
| MultiView.FlattenedMutualGroups | app/src/stores/GraphInstanceStore.js:344-364 | The flattened intersection groups are exactly the mutual neighbours. |
| MultiView.FlattenedOriginGroups | app/src/stores/GraphInstanceStore.js:344-364 | The flattened origin groups are exactly the origin-mutual neighbours. |
| MultiView.FlattenedGroupsAreMembers | app/src/stores/GraphInstanceStore.js:341-364 | Whatever the flags, the flattened groups are exactly the members of the chosen rule. |
| MultiView.MultiLinks | app/src/stores/GraphInstanceStore.js:384-416 | In union mode a link is visible iff it touches the selection. In mutual mode it is visible iff it touches the selection and a group node, or joins two selected nodes. |
| MultiView.TriggerMultiSelfCentric | app/src/stores/GraphInstanceStore.js:332-425 | It succeeds iff the groups can be computed. A node is visible iff it is selected or in a group. Links follow the rule of the mode, the mode follows the flags, and nothing but visibility changes. |
| MultiView.UnionContainsIntersections | app/src/stores/GraphInstanceStore.js:344-381 | Both intersection views show a subset of what the union view shows. |
| MultiView.IntersectionLinksTouchSelection | app/src/stores/GraphInstanceStore.js:384-404 | In the intersection views every visible link has a selected end. |
| SameEntryView.EnqueueExtends | app/src/stores/GraphInstanceStore.js:463-472 | Queueing neighbours only extends the worklist: the old worklist is a prefix of the new one. |
| SameEntryView.EnqueueMembers | app/src/stores/GraphInstanceStore.js:463-472 | After queueing, an id is in the worklist iff it was there before or is one of the candidates. |
| SameEntryView.EnqueueFresh | app/src/stores/GraphInstanceStore.js:463-472 | Every id queued is a candidate that was not yet in the worklist, so no id is queued twice. |
| SameEntryView.Flood | app/src/stores/GraphInstanceStore.js:453-476 | The loop terminates. The worklist extends the initial one, its added ids are distinct node ids, and its length is at most the initial length plus the node count. The matched ids are exactly the worklist ids that share a target entry. Every entry-sharing id's neighbour objects are in the worklist. Every worklist id is initial or reached from an earlier matched id. |
| SameEntryView.FirstMissing | app/src/stores/GraphInstanceStore.js:434-441 | It finds an id that cannot be resolved exactly when some listed id cannot be. |
| SameEntryView.AllEntries | app/src/stores/GraphInstanceStore.js:442-444 | The target entries are exactly the entries of some seed. |
| SameEntryView.AllObjects | app/src/stores/GraphInstanceStore.js:438-441 | The initial worklist holds exactly the neighbour objects of some seed. |
| SameEntryView.StartOf | app/src/stores/GraphInstanceStore.js:433-451 | The seeds are the selection, or the origin (an error without one). The target entries and the initial worklist are the seeds' entries and neighbour objects. |
| SameEntryView.WalkGivesLeastView | app/src/stores/GraphInstanceStore.js:453-487 | The seeds with the matched ids form a closed view, and they lie inside every closed view. |
| SameEntryView.ShowInduced | app/src/stores/GraphInstanceStore.js:478-498 | Nodes are visible iff in the shown set and links iff both ends are. Nothing but visibility changes. |
| SameEntryView.TriggerSameEntry | app/src/stores/GraphInstanceStore.js:427-503 | It succeeds iff the starting point exists. The mode becomes `SameEntry`. The visible ids form the least set that holds the seeds and every entry-sharing neighbour object of its members. A link is visible iff both ends are visible. |
| ColourScheme.FillColours | app/src/stores/GraphInstanceStore.js:518-524 | After `k` steps the keys are the first `k` values, and each key holds the swatch of its last position. |
| ColourScheme.SchemeColours | app/src/stores/GraphInstanceStore.js:513-525 | The keys are exactly the values, and each value has the swatch of its last position. |
| ColourScheme.SchemeColoursFromPaletteOrRamp | app/src/stores/GraphInstanceStore.js:514-523 | With at most 10 values every colour is a palette slot below the count. With more, every colour is a ramp point of that count. |
| ColourScheme.DistinctValuesDistinctSwatches | app/src/stores/GraphInstanceStore.js:514-523 | Distinct values listed once get distinct swatches (palette positions or ramp samples). |
| ColourScheme.GenerateSchemeColours | app/src/stores/GraphInstanceStore.js:513-525 | It throws iff the current view has no colour table. Otherwise only the (view, feature) mapping changes. Its keys are exactly the values and each value has the swatch of its last position. |
| ColourScheme.GenerateReplacesMapping | app/src/stores/GraphInstanceStore.js:516 | Regenerating drops the keys of an earlier mapping. |
| OrphanTest.OrphanAsWrittenMissesEmptySet | app/src/stores/GraphInstanceStore.js:210-215 | The written test and `IsOrphan` disagree exactly on an empty Set. |
| OrphanTest.ResetAsWrittenShowsEmptySetNode | app/src/stores/GraphInstanceStore.js:206-216 | With orphans hidden, the written reset shows a node with an empty neighbour Set. Everywhere else it agrees with the model. |
| OrphanTest.IsolationAsWrittenShowsEmptySetNode | app/src/stores/GraphInstanceStore.js:565-576 | With orphans hidden, the written isolation shows a component member with an empty neighbour Set. Everywhere else it agrees with the model's component view. |
| RowMerge.KeepUpTo | server/app/routes/search.py:96-112 | The kept rows are at most the prefix and are drawn from it. |
| RowMerge.KeptPositions | server/app/routes/search.py:96-114 | The positions are increasing, and a position is listed iff its entry has not occurred before (`or`) or has (`and`). |
| RowMerge.KeptAtPositions | server/app/routes/search.py:96-114 | A filter keeps exactly the hits at its kept positions, in position order. |
| RowMerge.LeafFrame | server/app/routes/search.py:26-35 | A leaf's table has the `entry` column iff it has hits. |
| RowMerge.NoColumnNoHits | server/app/routes/search.py:26-35 | When no sub-result has an `entry` column, well-formed sub-results hold no hits. |
| RowMerge.OrMerge | server/app/routes/search.py:89-102 | No sub-results is an error, and so is a concatenation without an `entry` column. Otherwise the result keeps the column and holds exactly the hits of the concatenation at the positions where their entry first occurs, in order, so every entry present occurs exactly once. |
| RowMerge.AndMerge | server/app/routes/search.py:104-114 | It has the same errors as the `or` merge. Otherwise the result keeps the column and holds exactly the hits at the positions whose entry occurred earlier, in order, so an entry present `k` times occurs `k-1` times. |
| RowMerge.DropDuplicatesCounts | server/app/routes/search.py:96-100 | Dropping duplicates leaves each present entry exactly once. |
| RowMerge.DuplicatedCounts | server/app/routes/search.py:110-114 | The repeats hold each entry one time fewer than it occurs. |
| RowMerge.FiltersPartition | server/app/routes/search.py:96-114 | The first occurrences and the repeats together are as many rows as the input. |
| RowMerge.MergesKeepOrder | server/app/routes/search.py:89-114 | Both merges keep rows in concatenation order. |
| RowMerge.OrKeepsEveryEntryOnce | server/app/routes/search.py:96-102 | The `or` result has an entry iff some sub-result has it, and never twice. |
| RowMerge.TwoWayMerges | server/app/routes/search.py:89-114 | For two duplicate-free results, at least one with an `entry` column, `and` keeps exactly the common entries and `or` keeps exactly the entries of either. |
| NewFeatures.KeepTruthy | server/app/routes/search.py:136 | The result is a subsequence of the input that holds each truthy item as often as the input does and no falsy item. |
| NewFeatures.KeepTruthyMembers | server/app/routes/search.py:136 | An item is kept iff it occurs and is truthy. |
| NewFeatures.TruthySubsequenceIsUnique | server/app/routes/search.py:136 | Any subsequence with those counts is the kept list, so order and multiplicity are fixed. |
| NewFeatures.Collect | server/app/routes/search.py:128 | It succeeds iff every sub-query succeeds, giving one nested list per sub-query in order. |
| NewFeatures.GetNewFeatures | server/app/routes/search.py:126-136 | A missing `action` is a key error. A connect gives one nested list per sub-query, or a key error without `queries`. A named query gives its name and then its sub-query's list, or a key error without `query`. A leaf gives the empty list. A wrapper gives its sub-query's list in order with the falsy items removed. |
| NewFeatures.CollectedNamesAreDeclared | server/app/routes/search.py:126-136 | Every name in the result, at any depth, is declared in the query tree. |
| TableJoin.Skeleton | server/app/routes/search.py:143-147 | The first pass has exactly the nodes' entries as keys, each with an empty mapping. |
| TableJoin.TagEntries | server/app/routes/search.py:150-151 | One node writes its id column for its entries only. |
| TableJoin.TagUpTo | server/app/routes/search.py:149-151 | After `k` nodes, each node has written its column for each of its entries, and every column holds its last writer's id. |
| TableJoin.MergeRow | server/app/routes/search.py:153 | The merged row has the columns of both, and the hit's own value wins. |
| TableJoin.JoinRows | server/app/routes/search.py:153 | It succeeds iff every hit has a known entry, and then gives one merged row per hit in order. |
| TableJoin.ConvertTableData | server/app/routes/search.py:140-153 | It fails iff a hit lacks `entry` or its entry belongs to no node. Otherwise it gives one row per hit in order, each keeping all of the hit's columns and values. |
| TableJoin.JoinedRowCarriesNodeIds | server/app/routes/search.py:143-153 | A joined hit carries the id column of every node built from its entry, unless the hit has that column itself. |
| TableJoin.JoinedIdIsLastWriters | server/app/routes/search.py:149-153 | An id column from the join holds the id of the last node that writes that column for the entry. |
| DatasetConfig.FlaggedPositions | server/app/routes/file.py:34-71 | The positions are increasing and are exactly the flagged keys. |
| DatasetConfig.NamesWhere | server/app/routes/file.py:34-71 | The list holds the names at the flagged positions, in key order. |
| DatasetConfig.NamesWhereMembers | server/app/routes/file.py:34-71 | A name is in a flag list iff some flagged key has it. |
| DatasetConfig.DefaultVisibleDimensions | server/app/routes/file.py:34-41 | It holds exactly the names of keys marked default-visible. |
| DatasetConfig.DefaultSearchableDimensions | server/app/routes/file.py:44-51 | It holds exactly the names of keys marked default-search. |
| DatasetConfig.DefaultLinkDimensions | server/app/routes/file.py:54-61 | It holds exactly the names of keys marked default-link. |
| DatasetConfig.RemoveRowIfNullDimensions | server/app/routes/file.py:64-71 | It holds exactly the names of keys marked remove-if-null. |
| DatasetConfig.FlagListIsSubsequence | server/app/routes/file.py:34-85 | Every flag list is a subsequence of the list of all names. |
| DatasetConfig.Dimensions | server/app/routes/file.py:84-85 | It gives one name per key, in key order. |
| DatasetConfig.RenamedDimensions | server/app/routes/file.py:74-81 | A key is renamed iff its name differs from it, and with unique keys it maps to that name. |
| DatasetConfig.NoRenamingWhenNamesAreKeys | server/app/routes/file.py:74-81 | The renaming is empty iff every name equals its key. |
| DatasetConfig.DefaultConfig | server/app/routes/file.py:99-106 | The anchor is passed through, the three lists hold the flag helpers' names, and there is one `default` schema with no relations. |
| DatasetConfig.Document | server/app/routes/file.py:88-92 | A row lacking a column is an error. Otherwise the document has exactly the columns plus `_index`, each cell as text, and `_index` is the index name. |
| DatasetConfig.GenerateEntries | server/app/routes/file.py:88-92 | There is one document per row in order, and the first row lacking a column is an error. |
| DatasetConfig.EntriesCarryColumnsAndIndex | server/app/routes/file.py:88-92 | Every generated document has exactly the columns and `_index`, and holds the stringified cells and the index name. |

## Left out

- Rendering, camera, outline and screenshot code, the force-engine toggles and
  `changeShowLabelDistance`: these are foreign-library and DOM calls or
  floating-point arithmetic.
- The d3 colour functions. A colour is a symbolic `Palette(i)` or
  `Ramp(i, count)` swatch. The ramp's floating-point position `i / count` is
  not computed.
- The call into the graph store in `toggleOrphanNodeVisibility` and the
  context menu's `hideContextMenu`: that code is not part of this model.
- MobX reactivity, and `nodeColorScheme` / `setNodeColorScheme`. Each operation
  is one atomic state transition.
- The control panel's enablement guards (at least two selected nodes, an
  origin present). The model does not assume them: it handles every input
  and returns a fault where the store would throw.
- Node objects are referenced by id. An id that resolves to no node gives a
  fault (`UnknownNode`) where the store holds the object itself.
- Same-entry worklist entries that resolve to no node count as having no
  entries and no neighbour objects. `SameEntryView.TriggerSameEntry` requires
  every cached neighbour object to resolve (`ObjectsResolve`).
- The Elasticsearch queries, route handlers, spaCy keyword extraction, the
  `not` connector and the JSON/number parsers of the search server. The merges
  take the sub-results as given tables of hits keyed by `entry`, each marked
  with whether it has an `entry` column.
- RowMerge.OrMerge: each kept hit keeps only its own fields. pandas also gives it the columns of the other sub-results, filled with NaN, and renumbers the index. Neither is modelled.
- RowMerge.AndMerge: each kept hit keeps only its own fields. pandas also gives it the columns of the other sub-results, filled with NaN, and renumbers the index. Neither is modelled.
- Filters.ToggleVisibleComponents: when the component lookup throws, the store has already cleared its own table; a fault result carries no store, so that write on the throwing path is not modelled.
- The `console.log` calls of the mutual-neighbour views (GraphInstanceStore.js:318-321 and 350): logging only.
- CSV reading and writing, dtype sniffing, index creation, bulk load and
  file deletion of the upload route.
- DatasetConfig.Document: the text form of a cell (`str`) is a function parameter.
- DatasetConfig.RenamedDimensions: the settings object's keys are a sequence, so its values are exact only when the keys are unique, as they are in a JSON object.
- A settings entry lacking one of the flags or the name (a `KeyError`), and
  flags that are not booleans.
- NewFeatures.GetNewFeatures: a `newFeatureName` is a string, so a non-string name is not modelled.

## Findings

| source | as written | input that shows it | evidently intended | confidence | as-written member | corrected member |
|---|---|---|---|---|---|---|
| app/src/stores/GraphInstanceStore.js:210-215 | a node is an orphan when its neighbour value is falsy or its `length` is 0, but that value is a Set (read with `has` at line 247) and a Set has no `length` | a node whose neighbour Set is empty, reset while orphans are hidden | a node with an empty neighbour set is an orphan and follows the orphan flag | medium, not executed | OrphanTest.ResetAsWrittenShowsEmptySetNode | Filters.ResetSelfCentric |
| app/src/stores/GraphInstanceStore.js:565-576 | component isolation makes the same `length` test on the neighbour Set | a node of the isolated component whose neighbour Set is empty, while orphans are hidden | such a node is an orphan and follows the orphan flag | medium, not executed | OrphanTest.IsolationAsWrittenShowsEmptySetNode | Filters.ComponentNodes |
