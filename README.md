# llesca-vue entity engine, modelled in Dafny

llesca-vue is a Vue 3 library for editing OData entities. Its core is an entity engine.
- An entity is a proxy over its stored and changed property values. It has details and child collections.
- A collection lists stored members, new members and tombstoned positions.
- The engine syncs entities with server data and compares them with that data. It consolidates changes, clears them, clones entities and syncs state between a clone and its base.
- It loads entities, saves them through an OData batch and deletes them.

The project also models:
- the older engine in `composable/entity.js`, with its explicit create/read/update state machine;
- the utilities the engine relies on: property paths, list views, URL building and small array and object helpers.

Modules, one per file:

- `js_values.dfy` (`JsValues`): JavaScript values, property reads, `String(x)`, truthiness, and the error kinds a call can throw.
- `definitions.dfy` (`Definitions`): entity definitions (keys, primary key, details, children, date keys).
- `store.dfy` (`Entities`): the `Store` class. It holds every entity and collection record under a numeric handle (records are keyed by number), and has the `useEntity` and collection `create` / `delete` operations.
- `ownership.dfy` (`Ownership`): the parent/child tree over the store. It also states which records an operation may change.
- `records.dfy` (`Records`): pure operations on one record: the proxy `set`, reads, and consolidation of one record.
- `passes.dfy` (`Passes`): the tree walk shared by consolidate and clear.
- `sync_data.dfy`, `consolidate.dfy`, `clear.dfy`, `clone.dfy`, `sync_state.dfy`, `data.dfy`, `delete.dfy`, `load.dfy`, `save_plan.dfy`, `save.dfy`: one module per engine file in `composable/entity/`.
- `legacy_entity.dfy`, `legacy_load.dfy`, `legacy_save.dfy`, `legacy_batch.dfy`: the older `composable/entity.js`, modelled on values. Structures carry a uid, and a parent or root is named by its uid.
- `collections.dfy` (`ArrayUtils`), `object_clone.dfy` (`ObjectClone`), `odata_url.dfy` (`ODataUrl`), `reactive_url.dfy` (`ReactiveUrl`), `paths.dfy` (`Paths`), `list_view.dfy` (`ListView`): the utilities.

The engine's in-place updates are methods on the store with `modifies` clauses. Each method's `ensures` states the new state. Often it does so through a function on records, and lemmas state that function's properties. Loops carry invariants.

Network requests are not made. Each operation that awaits one takes the request's outcome as a parameter, either a value or an error. It returns the request it would have sent.

## Model

| member | source | states |
|---|---|---|
| ArrayUtils.FindLastIndex | utils/collections.js:1-8 | the result is -1 exactly when no element satisfies the predicate; otherwise the element at the result satisfies it and none after it does |
| ArrayUtils.ZipMap | utils/collections.js:10-17 | the output is as long as the longer array and element i is the predicate applied to both i-th items, undefined past the end of the shorter one |
| ArrayUtils.SubarrayEquals | utils/collections.js:19-33 | true exactly when every position in the window holds the same item in both arrays, dates compared by time value |
| ObjectClone.Clone | utils/object.js:9-26 | the copy is structurally equal to the original: dates keep their time, arrays and objects are copied element by element |
| ODataUrl.JoinStepSingleSlash | utils/odata.js:13-21 | whatever slashes the two sides bring, the seam of one reduce step holds exactly one slash |
| ODataUrl.FoldSkipsNullParts | utils/odata.js:9-12 | null and undefined parts after the first contribute nothing to the joined URL |
| ODataUrl.Present | utils/odata.js:10-12 | the parts kept are exactly the ones that are not null or undefined, in their order |
| ODataUrl.JoinParts | utils/odata.js:8-24 | an empty part list, or a null first part, throws; otherwise the joined URL is the first part folded with the rest |
| ODataUrl.QueryPairs | utils/odata.js:25-30 | one appended pair per parameter with a value, in order, under the parameter's name |
| ODataUrl.QueryPairsMembership | utils/odata.js:25-30 | a name/text pair is appended iff some parameter with that name has a non-null value whose string form is the text |
| ODataUrl.UniqueParamAppended | utils/odata.js:25-30 | a parameter whose name is unique is appended exactly when it has a value |
| ODataUrl.CreateUrl | utils/odata.js:7-32 | the URL holds the joined parts and the query pairs; a string URL is used as it is, and a failing join fails the whole call |
| ReactiveUrl.JoinRefPartsAgreesWithCreateUrl | composable/url.js:6-25 | apart from a single ref part, joining refs gives what `createUrl` gives on the unwrapped parts |
| ReactiveUrl.RefQueryPairsAsWritten | composable/url.js:29-35 | as written: the test looks at the unwrapped value, but the raw parameter is appended |
| ReactiveUrl.RefParamSentAsObjectText | composable/url.js:31-33 | a ref parameter holding 10 is sent as "[object Object]", not as "10" |
| ReactiveUrl.RefQueryPairs | composable/url.js:29-35 | as intended: the unwrapped value of each parameter with a value is appended |
| ReactiveUrl.RefQueryPairsMembership | composable/url.js:29-35 | a parameter is sent iff its unwrapped value is not null or undefined, under that value's text |
| ReactiveUrl.UseUrl | composable/url.js:3-40 | the computed URL is `createUrl` of the unwrapped parts with the unwrapped parameter values |
| Paths.Split | utils/properties.js:2 | splitting always gives at least one step |
| Paths.SplitStepsHaveNoSlash | utils/properties.js:2 | no step of a split path contains the separator |
| Paths.IsPathMultiple | utils/properties.js:1-3 | a path is multiple iff one of its steps starts with `*` |
| Paths.FirstStar | utils/properties.js:9 | the index found is a starred step and no earlier step is starred |
| Paths.Walk | utils/properties.js:32-36 | a walk stops on a falsy value and returns it; a walk of no steps returns where it started |
| Paths.WalkAppend | utils/properties.js:13-27 | walking a path in two pieces is walking it in one |
| Paths.WalkEndsFalsyOrComplete | utils/properties.js:32-36 | a truthy result means every prefix of the path was truthy, so every step was taken |
| Paths.SetAt | utils/properties.js:55 | a write succeeds only on objects and arrays, keeps the kind of value, and the key then reads back the value written |
| Paths.UpdateThenWalk | utils/properties.js:72-78 | after a successful update along a path, the path reads back the update applied to what it read before |
| Paths.UpdateItems | utils/properties.js:61-69 | each item of the array is updated along the remaining steps, the length kept |
| Paths.UpdatedItemsRead | utils/properties.js:61-69 | after the items of an array are updated, each reads along the remaining steps the parse of what it read before |
| Paths.StarOnLastStepFailsAsWritten | utils/properties.js:49-55 | as written, a star on the last step writes to the field "undefined" and fails on `*a` even when `a` holds an array; as intended it maps the parser over that array |
| Paths.ParsePropertiesFromPath | utils/properties.js:42-80 | after a successful parse the path reads the parse of what it read before: for a path without a star the value itself; with a star, an array as long as before whose every item is parsed, whether the star is on the last step or before it |
| Paths.StarLastParsesEveryItem | utils/properties.js:49-55 | with a star on the last step, the array at the stripped step reads back element-wise parsed, its length kept |
| Paths.UnstarredReadsParsed | utils/properties.js:71-79 | for a path without a star, a successful update leaves the path reading the parse of its former value |
| Paths.StarLastReadsParsed | utils/properties.js:49-55 | with a star on the last step, the path reads afterwards the array it read before, item by item parsed |
| Paths.FanOutReadsParsed | utils/properties.js:56-70 | with a star before the last step, the path reads afterwards an array as long as before whose every item is the parse of the item read before |
| ListView.NonEmpty | utils/list-view.js:8-9 | the names kept are exactly the non-empty ones given |
| ListView.JoinOrUndefined | utils/list-view.js:10 | undefined exactly for no parts, otherwise the comma-joined text |
| ListView.Selects | utils/list-view.js:7-9 | a name is listed iff some property has it as its non-empty `$select` |
| ListView.Expands | utils/list-view.js:12-14 | a name is listed iff some property has it as its non-empty `$expand` |
| ListView.OrderTerms | utils/list-view.js:17-19 | at most one non-empty term per order |
| ListView.OrderTermsMembership | utils/list-view.js:17-19 | a term is sent iff some order with direction `asc` or `desc` renders to `sentence direction` |
| ListView.NoOrderTerms | utils/list-view.js:17-20 | no term is produced iff no order has a valid direction |
| ListView.OrderbyOption | utils/list-view.js:17-20 | `$orderby` is undefined iff there is no order list or no valid order; otherwise the joined terms |
| ListView.DetailParams | utils/list-view.js:6-27 | seven parameters in the source's order: `$select` and `$expand` as the property list gives them, `$orderby` from the orders, `$filter` undefined iff the filter is empty and otherwise the filter, then `$top`, `$skip` and `$count` |
| ListView.DetailNamesSent | utils/list-view.js:7-15 | `$select` and `$expand` are sent iff some property has such a name, and then as the comma-joined names |
| ListView.DetailOrderSent | utils/list-view.js:17-20 | `$orderby` is sent iff there are orders with a valid direction, and then as their comma-joined terms |
| ListView.DetailFilterSent | utils/list-view.js:22 | `$filter` is sent iff the filter is not empty, and then as the filter itself |
| ListView.DetailPaging | utils/list-view.js:4-26 | `$top`, `$count` and `$skip` reach the query only for a positive integer page size; `$skip` is page times size and is dropped when that is 0 |
| ListView.AggregatedName | utils/list-view.js:204-206 | every alias starts with `aggregatedProperty` |
| ListView.AggregatedNameInjective | utils/list-view.js:204-206 | distinct positions get distinct aliases |
| ListView.AggregateEntries | utils/list-view.js:39-50 | at most one aggregate per property |
| ListView.AggregateEntriesAliased | utils/list-view.js:39-50 | an expression is aggregated under a position iff the property at that position has that aggregate expression |
| ListView.AggregateTerm | utils/list-view.js:43-45 | a term is never empty |
| ListView.AggregateTermsMembership | utils/list-view.js:39-51 | a term is aggregated iff some property has an aggregate expression and the term is that expression aliased by the property's position |
| ListView.GroupNames | utils/list-view.js:35-37 | one name per grouped property, in order: its path when it has a non-empty one, otherwise its `$select` |
| ListView.ApplyTransformations | utils/list-view.js:53-59 | the transformation is empty iff there is neither a grouping nor an aggregate |
| ListView.ApplyOption | utils/list-view.js:61-65 | `$apply` is undefined iff there is no filter, no grouping and no aggregate; it starts with `filter(` iff there is a filter |
| ListView.AggregatedQuery | utils/list-view.js:61-75 | the request carries `$apply` iff there is a filter, a grouping or an aggregate, and `$orderby` iff there are orders with a valid direction, as their joined terms |
| ListView.ParseField | utils/list-view.js:190-191 | after a successful write the field holds the parse of its former value |
| ListView.RowParsedFailsOnward | utils/list-view.js:185-202 | once a row fails under some leading properties, it fails under all of them |
| ListView.ParseEachRow | utils/list-view.js:189-197 | fails iff some row fails; otherwise every row is replaced by its update, the length kept |
| ListView.ParsePropertyRows | utils/list-view.js:186-199 | one property over every row: fails iff some row fails, otherwise each row is that property's update of it |
| ListView.ParseDataProperties | utils/list-view.js:185-202 | fails iff some row fails under the properties; otherwise each row is parsed by every property in turn |
| ListView.SelectParsed | utils/list-view.js:188-193 | a `$select` parser rewrites that field with the parse of its former value |
| ListView.RequestDetail | utils/list-view.js:3-32 | the request receives the detail parameters, and the answer's rows come back parsed, one for one, failing only if a row's parse fails |
| ListView.RowAggregatesFailOnward | utils/list-view.js:80-99 | once a row fails under some leading aggregates, it fails under all of them |
| ListView.ParseAggregates | utils/list-view.js:80-99 | fails iff some row fails; otherwise every aggregate with a parser rewrites its aliased field in every row |
| ListView.LoadAggregatedData | utils/list-view.js:34-102 | the request receives the aggregated parameters; grouped properties are parsed first, then the aggregates, row for row |
| ListView.CellValue | utils/list-view.js:213-219 | a column adds a cell iff it is aggregated in aggregate mode, or has an `$expand` or a `$select`; the cell is the row's aggregated alias, else what the path reads, else the `$select` field; reading a field of a null or undefined row throws |
| ListView.CellCount | utils/list-view.js:212-220 | no more cells than columns |
| ListView.RowCells | utils/list-view.js:211-220 | a row is built iff every column's cell can be read; it has one cell per column that adds one, and that cell sits after the cells of the columns before it |
| ListView.RowOk | utils/list-view.js:211-220 | a row is built iff every column's cell can be read |
| ListView.RowCellAt | utils/list-view.js:212-219 | the cell of a column that adds one sits in the row after the cells of the columns before it |
| ListView.SelectRow | utils/list-view.js:217-218 | a row built only from `$select` columns holds each column's field, in column order |
| ListView.BuildRow | utils/list-view.js:211-220 | the inner loop builds exactly the row of the entity |
| ListView.CreateRows | utils/list-view.js:208-225 | fails iff some entity's row fails; otherwise one row per entity, in order |
| ListView.GetOrderIcon | utils/list-view.js:227-235 | `SortDown` for ascending, `SortUp` for descending, the default otherwise |
| Records.WriteKey | composable/entity/entity.js:45-51 | the key then reads the value written and no other key changes; the key is dirty iff the value differs from the stored one; only the changed map is touched |
| Records.SetThenRevert | composable/entity/entity.js:45-51 | setting a key and then setting it back to its stored value leaves it clean |
| Records.WriteDetail | composable/entity/entity.js:118-123 | the detail then reads the value; it is present iff the value is not undefined; no other detail and nothing else changes |
| Records.Commit | composable/entity/consolidate.js:9-14 | every changed value becomes stored, the changed map empties, and no key reads differently |
| Records.CommitIdempotent | composable/entity/consolidate.js:9-14 | consolidating a consolidated record changes nothing |
| Records.Wipe | composable/entity/clear.js:9-23 | stored, changed and details are all empty, so every key reads undefined |
| Records.Kept | composable/entity/entity-collection.js:19-21 | the members kept are stored members, no more of them than stored |
| Records.Remaining | composable/entity/entity-collection.js:19-21 | every remaining member is a stored member |
| Records.KeptIndicesBounds | composable/entity/entity-collection.js:19-21 | the kept positions are within the stored list and not tombstoned |
| Records.KeptAt | composable/entity/entity-collection.js:19-21 | the remaining members are the stored members at the kept positions, in order |
| Records.KeptIndicesWithout | composable/entity/entity-collection.js:112 | tombstoning one more kept position removes exactly that position from the kept ones |
| Records.KeptIndicesSkip | composable/entity/entity-collection.js:19-21 | tombstoning a position before the range looked at does not change the kept positions in it |
| Records.IndexOf | composable/entity/entity-collection.js:111 | -1 iff the member is absent; otherwise the first position holding it |
| Records.DeleteAt | composable/entity/entity-collection.js:106-119 | outside the public view nothing changes; inside the remaining part the stored position of that member is tombstoned; in the new tail that member is spliced out; stored members are never touched |
| Records.RemainingWithout | composable/entity/entity-collection.js:110-112 | tombstoning the stored position behind a remaining index removes exactly that member from the remaining ones |
| Records.IndexOfRemaining | composable/entity/entity-collection.js:110-111 | when no member is stored twice, `indexOf` finds the very position a remaining index stands for |
| Records.DeleteAtShrinksView | composable/entity/entity-collection.js:106-119 | when no member is stored twice, deleting a public index removes exactly that member from the public view, in either branch |
| Records.Promote | composable/entity/consolidate.js:24-33 | the stored list becomes the public view, new members and tombstones empty, and the public view is unchanged |
| Records.KeptNothingDeleted | composable/entity/entity-collection.js:19-21 | with nothing tombstoned every stored member remains |
| Records.PromoteIdempotent | composable/entity/consolidate.js:24-33 | consolidating a consolidated collection changes nothing |
| Records.KeptWithin | composable/entity/entity-collection.js:19-21 | the members kept from a position on are stored from that position on |
| Records.KeptDistinct | composable/entity/entity-collection.js:19-22 | dropping tombstoned members keeps every member listed once |
| Records.ViewDistinct | composable/entity/entity-collection.js:22 | the public view lists every member once when the stored and new lists together do |
| Records.SpliceHighestFirst | composable/entity/consolidate.js:24-28 | removing the tombstoned positions one at a time from the highest down leaves exactly the remaining members |
| Records.AsWrittenSpliceOrder | composable/entity/consolidate.js:24 | the source's order: the set's positions sorted by their decimal text, then reversed; as many positions as tombstones |
| Records.TextOrderOfTwoAndTen | composable/entity/consolidate.js:24 | the text order puts 10 before 2, so reversed it splices position 2 first |
| Records.TextOrderSplicesWrongMember | composable/entity/consolidate.js:24-28 | with twelve stored members and positions 2 and 10 tombstoned, the source's order removes the members at 2 and 11 and keeps the tombstoned one at 10 |
| Records.RemapMembership | composable/entity/consolidate.js:25-26 | after a splice at k, a tombstone at j stands for the old one at j below k, and at j + 1 from k on |
| Records.RemapKeepsMembers | composable/entity/consolidate.js:25-26 | after splicing out position k, the remapped tombstones denote the same members as before, k's own aside, and stay within the shortened list |
| Records.SortByText | composable/entity/consolidate.js:24 | the default sort keeps the number of tombstones |
| Definitions.Children | composable/entity/entity.js:57 | a missing children list reads as empty, each child definition structurally smaller than its owner |
| Definitions.ChildNames | composable/entity/entity.js:56-58 | one name per child definition, in order: the navigation key, or else the entity name |
| Definitions.PositionOf | composable/entity/entity.js:91 | the first position holding the name, or the length exactly when the name is absent |
| Definitions.ChildDefinitionOf | composable/entity/entity.js:56-65 | the collection under a child name has one of the owner's child definitions, carrying that name |
| Definitions.ChildDefinitionAt | composable/entity/entity.js:56-65 | with distinct names, the i-th child definition is the one found under its own name |
| Definitions.ChildHeight | composable/entity/entity.js:56-65 | every child definition is strictly lower than its owner, so the structure built is finite |
| Definitions.ChildWellFormed | composable/entity/entity.js:56-65 | the conditions on child names hold again for every child definition |
| Entities.Store.UseEntity | composable/entity/entity.js:9-70 | a fresh entity with empty stored, changed and detail maps and one fresh, empty collection per child definition, owned by it and sharing its root; no other record changes and the store stays valid |
| Entities.Store.Create | composable/entity/entity-collection.js:84-90 | a fresh, empty entity with the collection's definition and root and the collection as parent, held by neither list; the collection itself is unchanged |
| Entities.Store.Delete | composable/entity/entity-collection.js:106-119 | only that collection's record changes, as `Records.DeleteAt` says; the store stays valid |
| Entities.NewEntity | composable/entity/entity.js:18-31 | no stored, changed or detail values, and one child collection per child definition, numbered after the entity |
| Entities.AllocationValid | composable/entity/entity.js:36-67 | adding an entity and its child collections numbered after it leaves the store valid |
| Entities.Read | composable/entity/entity.js:73-97 | `__v_skip` reads true and `__v_raw` false; otherwise a declared key reads its effective value, then a child name its collection, then any other name its detail |
| Entities.PrimaryValue | composable/entity/utils.js:4-10 | the primary value is what reading the primary key through the proxy gives |
| Entities.OwnKeys | composable/entity/entity.js:125-134 | the names listed are exactly the ones `has` accepts |
| Entities.ChildBelow | composable/entity/entity.js:56-65 | a child collection's parent is its owner, and it sits strictly below it |
| Entities.MemberBelow | composable/entity/entity-collection.js:97-103 | a member's parent is its collection, and it sits strictly below it |
| SyncData.Entries | composable/entity/sync-data.js:13-16 | a plain object is visited under its own fields, null, dates and primitives under nothing |
| SyncData.ArrayEntries | composable/entity/sync-data.js:13-16 | an array is visited under the index name of each element and under no other name |
| SyncData.SyncedDetails | composable/entity/sync-data.js:9-16 | after a sync, a detail is present iff the data carries that detail name with a value other than undefined, and holds that value |
| SyncData.FindMatch | composable/entity/sync-data.js:40 | the index found is the first element whose primary key reads the member's primary value; earlier elements read something else; it throws only when some element is null or undefined |
| SyncData.MatchingShape | composable/entity/sync-data.js:37-47 | one outcome per stored member, and each matched element carries that member's primary value |
| SyncData.MatchingConserves | composable/entity/sync-data.js:35-51 | no element is lost or duplicated: the matched elements and the leftover ones make up the data |
| SyncData.MatchingFails | composable/entity/sync-data.js:40 | matching only throws on a null or undefined element of the data |
| SyncData.Reset | composable/entity/sync-data.js:23-31 | the new members are dropped and every stored position is tombstoned, so the public view is empty |
| SyncData.ResetIdempotent | composable/entity/sync-data.js:23-31 | resetting a reset collection changes nothing |
| SyncData.SyncedChildOutcome | composable/entity/sync-data.js:22-55 | an entity sync leaves each child collection with its stored list kept and only fresh new members; data that is not an array resets it |
| SyncData.SetProperty | composable/entity/entity.js:98-124 | a Vue flag is refused and changes nothing; a declared key is written through its setter alone; a child name syncs that collection; any other name is written to the details; the store stays valid |
| SyncData.SyncCollection | composable/entity/sync-data.js:22-55 | the collection ends as the matching outcome says: each matched stored member's own record re-synced with its element and un-tombstoned, each leftover added as a fresh member synced with it; non-array data only resets it; a failing match fails the sync; only the collection's subtree changes |
| SyncData.SyncStored | composable/entity/sync-data.js:37-47 | every stored member whose primary value the data carries takes the first such element, is re-synced with it and loses its tombstone; the rest of the data is returned |
| SyncData.SyncMember | composable/entity/sync-data.js:38-46 | one stored member: looked up, and when matched re-synced and un-tombstoned |
| SyncData.Resync | composable/entity/sync-data.js:43-45 | the matched member is re-synced with its element and loses its tombstone |
| SyncData.AddLeftover | composable/entity/sync-data.js:49-51 | one new member per leftover element, in order, each synced with its element; old records untouched |
| SyncData.Add | composable/entity/entity-collection.js:97-104 | a fresh member is created, synced with the value and appended to the new members; nothing else of the collection and no old record changes |
| SyncData.SyncEntity | composable/entity/sync-data.js:8-20 | every owned name is reset and every name of object-type data written: keys and details end synced with the data, and each child collection keeps its stored list and gains only fresh members (reset for non-array data); reserved names make it throw |
| SyncData.ClearKeys | composable/entity/sync-data.js:9-11 | every declared key then reads undefined, only the changed map is touched |
| SyncData.ClearChildren | composable/entity/sync-data.js:9-11 | every child collection is reset, no entity record changes |
| SyncData.ClearDetails | composable/entity/sync-data.js:9-11 | every detail is deleted and nothing else changes |
| SyncData.AssignEntries | composable/entity/sync-data.js:13-17 | every name of the data is written through the `set` trap: keys and details end assigned from the data, child collections as `SyncData.SyncEntity` says |
| SyncData.IndexedMember | composable/entity/entity-collection.js:59-68 | a name reaches a member iff it is a canonical index within the public view |
| SyncData.IndexedMemberAt | composable/entity/entity-collection.js:62-63 | position i of the view is reached under the name `String(i)`, and "length" reaches nothing |
| SyncData.SetIndex | composable/entity/entity-collection.js:59-68 | object-type data written under a member's index syncs that member and returns the sync's result; any other write returns false and changes nothing |
| SyncData.Sync | composable/entity/sync-data.js:5-58 | an entity or a collection ends synced with the data as `SyncData.SyncEntity` and `SyncData.SyncCollection` say, returning true unless a write throws; any other value returns false and changes nothing |
| SyncState.CopyEntries | composable/entity/sync-state.js:14-21 | deleting the keys the source lacks and then writing every source entry leaves the target holding exactly the source's entries |
| SyncState.MergeEntries | composable/entity/sync-state.js:32-34 | every source entry overrides the target's, and keys only the target has stay |
| SyncState.SyncTarget | composable/entity/sync-state.js:5-78 | true iff the two values are entities or collections of the same kind and definition; then the target's own records are copied from the source and its collections list fresh members holding the source members' own values; otherwise nothing changes |
| SyncState.SyncEntityState | composable/entity/sync-state.js:14-40 | stored and changed values copied, details merged, and each child collection lists fresh members holding the stored, changed and detail values of the source's members; only the target and its subtree change |
| SyncState.SyncCollectionState | composable/entity/sync-state.js:48-74 | each stored and each new member of the source gets a fresh member holding its stored, changed and detail values, in the same list and position; the tombstones are taken over and no existing entity changes; a collection synced with itself ends empty |
| SyncState.CloneAll | composable/entity/sync-state.js:54-58 | one fresh member per source member, in order, holding its stored, changed and detail values, appended to the list that started empty; no existing entity changes |
| SyncState.CloneMember | composable/entity/sync-state.js:55-57 | `target.create()` given the member's stored, changed and detail values and pushed onto the chosen list, nothing else of the collection changing |
| Clone.CloneEntity | composable/entity/clone.js:5-15 | for an entity, a new entity based on it, its own root, holding its stored values, changed values and details, each child collection listing fresh members with the original members' own values; anything else throws and changes nothing |
| Clone.CloneChildren | composable/entity/clone.js:12-13 | every child collection of the clone lists fresh members holding the stored, changed and detail values of the original's members |
| Passes.EntityPass | composable/entity/consolidate.js:9-14 | a pass (consolidation commits, clearing wipes) keeps the entity's place in the tree and adds no detail name |
| Passes.CollectionPass | composable/entity/consolidate.js:24-33 | a pass keeps the collection's definition and place; afterwards there are no new members and no tombstones, and every stored member was a member before |
| Passes.PassIdempotent | composable/entity/consolidate.js:5-43 | running a pass over a record it has already run over changes nothing, for entities and collections alike |
| Passes.AppliedIdempotent | composable/entity/clear.js:5-41 | after a pass has run below a record, running it again there would change nothing |
| Consolidate.SpliceTombstones | composable/entity/consolidate.js:24-28 | taking the tombstones highest first in numeric order leaves exactly the remaining members; the source sorts by decimal text instead, see Findings |
| Consolidate.CommitKeys | composable/entity/consolidate.js:9-14 | the loop over the changed keys ends with the record `Records.Commit` describes |
| Consolidate.ConsolidateEntity | composable/entity/consolidate.js:8-21 | every record below the entity is consolidated (entities committed, collections promoted, all the way down), nothing outside it changes, and an already consolidated tree stays as it was |
| Consolidate.ConsolidateCollection | composable/entity/consolidate.js:23-40 | tombstoned members go, new members are promoted behind the remaining stored ones, every member is consolidated in turn, and nothing outside the collection changes; tombstones are spliced in numeric order, which the source does not do (see Findings) |
| Consolidate.ConsolidateTarget | composable/entity/consolidate.js:5-43 | true iff the value is an entity or a collection, which is then consolidated; anything else changes nothing |
| Clear.DeleteEach | composable/entity/clear.js:9-11 | deleting every key in turn leaves an empty map |
| Clear.ClearCollection | composable/entity/clear.js:28-38 | the collection lists nothing afterwards: stored and new members and tombstones are gone; the members themselves and everything else are left alone |
| Clear.ClearEntity | composable/entity/clear.js:8-26 | every record below the entity is cleared (entities wiped, child collections emptied), nothing outside it changes and no record is created |
| Clear.ClearTarget | composable/entity/clear.js:5-41 | true iff the value is an entity or a collection, which is then cleared; anything else changes nothing |
| Data.JsonCopy | composable/entity/data.js:29 | the copy is plain JSON data; it is null iff the value was null or undefined, and keeps being an array or an object |
| Data.JsonCopyOfPlain | composable/entity/data.js:29 | plain JSON data survives the round trip unchanged |
| Data.JsonCopyIdempotent | composable/entity/data.js:29 | copying a copy changes nothing |
| Data.DetailsData | composable/entity/data.js:25-32 | the non-null details, each through the JSON round trip |
| Data.KeyValues | composable/entity/data.js:19-23 | every declared key with the value its getter reads |
| Data.EntityData | composable/entity/data.js:16-44 | an entity's snapshot is an object |
| Data.CollectionData | composable/entity/data.js:46-50 | a collection's snapshot is an array with one object per member of its public view |
| Data.DataOf | composable/entity/data.js:5-51 | undefined exactly for a value that is neither an entity nor a collection; an object for an entity, an array as long as the view for a collection |
| Data.EntityDataParts | composable/entity/data.js:16-44 | an entity snapshot is put together from keys, then details, then children |
| Data.NamesApart | composable/entity/data.js:19-41 | keys, details and children of a consistent entity never share a name |
| Data.EntityDataKeys | composable/entity/data.js:19-23 | the snapshot holds every declared key with the value its getter reads |
| Data.EntityDataDetails | composable/entity/data.js:25-32 | the snapshot holds a detail iff details are included and the detail is neither null nor undefined, and then its JSON copy |
| Data.EntityDataChildren | composable/entity/data.js:34-41 | the snapshot holds each child collection's snapshot, one level down, under its child name, exactly when children are shown at this level |
| Data.EntityDataNothingElse | composable/entity/data.js:16-44 | the snapshot holds nothing but declared keys, details and child names |
| Data.CollectionDataItems | composable/entity/data.js:46-50 | a collection snapshot lists, in view order, the snapshots of the view's members at the same level |
| Data.DepthReached | composable/entity/data.js:34 | once the level reaches a numeric depth, the snapshot is the one taken without children |
| Data.SyncOwnDataKeepsKeys | composable/entity/sync-data.js:8-20 | writing an entity's own snapshot back keeps every declared key's value, and a key stays dirty exactly when it was dirty with a value other than the stored one |
| Data.SyncOwnDataKeepsDetails | composable/entity/sync-data.js:8-20 | the same round trip keeps the details that are plain JSON data |
| Delete.DropMembers | composable/entity/delete.js:20-41 | dropping an entity leaves every other member and only them |
| Delete.DropAt | composable/entity/delete.js:23-25 | removing the single occurrence at a position is the same as dropping the member |
| Delete.TombstonesAscending | composable/entity/delete.js:28-30 | the tombstones above the spliced position are visited in strictly ascending order |
| Delete.ShiftTombstones | composable/entity/delete.js:25-34 | the loop leaves the tombstones re-indexed: those below the spliced position kept, those above it moved down by one, the spliced one gone |
| Delete.Unlist | composable/entity/delete.js:20-41 | the collection keeps its definition and place and gains no member |
| Delete.UnlistValid | composable/entity/delete.js:23-40 | the members stay listed once and every tombstone still denotes a stored position |
| Delete.UnlistView | composable/entity/delete.js:20-41 | the public view afterwards is the old one with the entity filtered out, whether it was stored, tombstoned or new |
| Delete.UnlistFromParent | composable/entity/delete.js:20-41 | only the parent collection's record changes, to `Delete.Unlist` of it; an entity without a parent changes nothing |
| Delete.Origin | composable/entity/delete.js:10-12 | following the bases ends at an entity without a base |
| Delete.DeleteEntity | composable/entity/delete.js:5-48 | the DELETE goes to the origin's key URL, and none is sent for a nullish primary value (false); a failed request is rethrown and changes nothing; on success the origin leaves its parent collection |
| Delete.Delete | composable/entity/delete.js:5-48 | anything but an entity answers false and sends nothing; for an entity a request is sent iff the origin's primary value is not nullish, and the answer is true iff it was sent and succeeded |
| Delete.DeletedLeavesView | composable/entity/delete.js:20-41 | after the deletion the entity is gone from its collection's view and every other member keeps its place |
| Load.Unignored | composable/entity/load.js:64 | the keys that are not ignored, in their declared order |
| Load.UnignoredAppend | composable/entity/load.js:64 | filtering keeps the order: it distributes over concatenation |
| Load.UnignoredNone | composable/entity/load.js:64 | with nothing ignored the filter keeps every key |
| Load.KeyList | composable/entity/load.js:61-67 | a `$select` list exists only when keys and ignored keys are both non-empty arrays, and then names the unignored keys, comma-separated |
| Load.Subentities | composable/entity/load.js:72-75 | children first, then details |
| Load.ExpandQuery | composable/entity/load.js:69-98 | undefined exactly when the definition has no sub-entities |
| Load.ExpandEntries | composable/entity/load.js:77-93 | one entry per sub-entity, in order |
| Load.EntryShape | composable/entity/load.js:78-92 | an entry is the bare navigation name iff the sub-entity selects and expands nothing; otherwise the name with its options in parentheses, `$select` first |
| Load.DateKey | composable/entity/load.js:102-106 | a string under the key becomes a date; reading through null or undefined throws |
| Load.DateKeysObject | composable/entity/load.js:101-107 | on an object the field names stay and exactly the string fields named by a date key become dates |
| Load.ChildDatedObject | composable/entity/load.js:110-119 | one child's conversion keeps the object's field names and touches only that child's field |
| Load.ChildrenDatedObject | composable/entity/load.js:109-120 | the children touch only their own fields |
| Load.DatedObject | composable/entity/load.js:100-121 | converted entity objects keep their field names; a non-child field is a date exactly when it is a date key holding a string, otherwise it is unchanged |
| Load.DatedNullish | composable/entity/load.js:100-121 | null or undefined data throws exactly when there is a date key to read or a child to look up |
| Load.ReplaceDates | composable/entity/load.js:100-121 | the loop computes the converted data (or the error) that `Load.Dated` specifies |
| Load.ReplaceChildDates | composable/entity/load.js:111-118 | one child's step computes what `Load.ChildDated` specifies |
| Load.ReplaceItemsDates | composable/entity/load.js:113-115 | the loop over an array of children computes what `Load.ItemsDated` specifies |
| Load.LookupAt | composable/entity/load.js:35-38 | a listed option is found under its own name when names are unique |
| Load.QueryOf | composable/entity/load.js:35-38 | a name is sent with a text exactly when its option has a value, and the text is that value's |
| Load.LoadRequestQuery | composable/entity/load.js:32-40 | the entity request goes to `Name(id)` under the service root, selecting exactly the key list and expanding exactly the expand query when there are any |
| Load.SpreadLookup | composable/entity/load.js:49-53 | the spread keeps names unique and lets the later options win: a name takes its value from `getParams` when it has one, else from the load options |
| Load.CollectionRequestQuery | composable/entity/load.js:46-55 | a parameter the caller passes overrides the load option of the same name (a null one removes it) and every other parameter is sent as given |
| Load.DropContext | composable/entity/load.js:41 | deleting the annotation throws on null or undefined, removes only that field from an object, leaves other values alone |
| Load.PreparedEntity | composable/entity/load.js:41-43 | the annotation removed, then the dates converted |
| Load.PreparedCollectionAsWritten | composable/entity/load.js:56-58 | the dates are converted on the answer's wrapper rather than on the entities under `value` |
| Load.PreparedCollection | composable/entity/load.js:56-58 | the annotation removed, then every entity under `value` converted by the collection's definition |
| Load.WrapperLeavesEntities | composable/entity/load.js:57 | as written, the entities come back unconverted whenever the definition has no date key or child named `value` |
| Load.EntitiesConverted | composable/entity/load.js:57 | as intended, each entity object is converted on its own, with the `Load.DatedObject` guarantees |
| Load.WrapperExample | composable/entity/load.js:57 | a concrete answer whose date stays text as written and becomes a date as intended |
| Load.CommitSyncedLoaded | composable/entity/load.js:11-13 | a record wiped, synced with data and committed has no changes, and holds the data's declared keys and details |
| Load.EntityLoad | composable/entity/load.js:9-15 | the GET for the entity's key; a failed request rethrows and leaves the store as it was; otherwise the entity is cleared, synced and consolidated, ending with the prepared answer's keys and details and no changes, and the prepared answer is returned |
| Load.LoadCollection | composable/entity/load.js:24-30 | the GET for the entity set; a failure changes nothing; otherwise the collection lists one fresh member per entity under `value`, in order, each holding that entity's declared keys and details with no changes, and nothing new or tombstoned |
| Load.ClearedThenLoaded | composable/entity/load.js:26-28 | a collection cleared, synced with the entities and consolidated lists one fresh member per entity, in order, each holding that entity's keys and details with no changes |
| Load.ReplaceEntityDates | composable/entity/load.js:57 | the loop converts every entity under `value` as `Load.ValueDated` specifies |
| Load.UseEntityFromIdAsWritten | composable/entity/load.js:17-22 | the load is started without the service root or key, so no request can be built and `loaded` stays false |
| Load.UseEntityFromId | composable/entity/load.js:17-22 | a new entity loaded by its key; `loaded` is false when the request, the answer or its preparation fails, and when it is true the entity holds the prepared answer |
| Load.OptionValue | composable/entity/load.js:36-37 | an absent option is undefined and leaves the query; a present one is sent as its text |
| Load.LoadRequest | composable/entity/load.js:32-40 | built exactly when there is a service root, addressed to the entity set and key under it |
| Load.CollectionRequest | composable/entity/load.js:46-55 | built exactly when there is a service root |
| Load.ValueDated | composable/entity/load.js:57 | converting the entities of a defined answer keeps it defined; only a TypeError can occur |
| Save.Spread | composable/entity/save.js:105-106 | an object spreads to its fields, a string to its characters under index names, an array to index names only, any other value to nothing |
| Save.ResponseAdoptsKeys | composable/entity/save.js:104-108 | syncing an answer adopts the body's value for every declared key |
| Save.ResponseKeepsDetails | composable/entity/save.js:104-108 | every detail the entity held with a defined value survives the sync; the details win over body fields of the same name |
| Save.ResponseTarget | composable/entity/save.js:102-103 | an id without a verb suffix throws; a target found exists in the store |
| Save.ResponseTargetBelow | composable/entity/save.js:103 | an answer is addressed to a record below the saved entity |
| Save.PlannedResponseTarget | composable/entity/save.js:42-103 | the answer to a planned POST or PATCH is addressed to the entity that planned it |
| Save.PromoteSavedView | composable/entity/save.js:24-28 | the saved entity moves from the new members to behind the stored ones; the public view keeps its members and the collection invariant holds |
| Save.PromoteInParent | composable/entity/save.js:19-29 | only the parent collection's record changes, to the promoted one; without a parent nothing changes |
| Save.AssignResponse | composable/entity/save.js:100-110 | an answer without a truthy body is skipped and changes nothing; a failed walk throws and changes nothing; otherwise an entity target has its stored values and child collections synced with the body, its details written over it, or a collection target is synced with the spread body; only records below the saved entity change |
| Save.AssignResponses | composable/entity/save.js:99-111 | the answers in order, each doing what `Save.AssignResponse` says to the arena the earlier ones left; the loop ends with the first answer that throws, with its error, and otherwise takes every answer; only records below the saved entity change, and a batch without any body changes nothing |
| Save.ReplayedAt | composable/entity/save.js:100-110 | every answer taken, not only the last, did what `Save.AssignResponse` says |
| Save.ReplayedStep | composable/entity/save.js:100-110 | taking one more answer after answers that all went through extends the record of the write-back |
| Save.ReplayedSilent | composable/entity/save.js:100-101 | answers without a truthy body all go through and leave the arena as it was |
| Save.Settle | composable/entity/save.js:15-33 | an answer that throws ends the save with its error after the earlier write-backs; otherwise every answer is written back, the entity's record is the commit of what they left, the entity joins the stored members of its parent collection unless that collection is a child of its base, and an entity it was cloned from (same definition) holds its stored values and details with no changes left |
| Save.Finish | composable/entity/save.js:17-33 | the entity is committed, it joins the stored members of its parent collection unless the sync into its base rewrites that collection, and a base of the same definition ends with its stored values, no changes and its details |
| Save.FinishedAfterSync | composable/entity/save.js:31-33 | the sync into the base keeps what consolidation and promotion did to the entity and its parent, and leaves the base a copy of the entity's records |
| Save.SettledFromFinished | composable/entity/save.js:15-33 | the write-back followed by the last steps is the settled save |
| Save.Save | composable/entity/save.js:10-40 | anything but an entity answers false and sends nothing; for an entity the planned requests are sent, an empty plan answers true at once, a rejected batch throws before anything changes, and an answered batch is settled as `Save.Settle` says |
| SavePlan.OwnRequests | composable/entity/save.js:47-68 | a POST of the snapshot without details when the primary value is nullish, else a PATCH of the changed values when there are any |
| SavePlan.NewEntityPlan | composable/entity/save.js:49-57 | an entity without a primary value plans exactly one POST at `prefix/create`, whose body has every key, every child snapshot and no detail |
| SavePlan.PersistedParts | composable/entity/save.js:58-72 | a persisted entity's own request comes first, then its children's in order |
| SavePlan.PatchPlanned | composable/entity/save.js:60-68 | with changed values, the first request is the PATCH at `prefix/update` to the keyed URL whose body is exactly those values |
| SavePlan.PatchOnlyWhenChanged | composable/entity/save.js:58-72 | a persisted entity plans a request at `prefix/update` only when it has changed values, and never one at `prefix/create` |
| SavePlan.Tombstones | composable/entity/save.js:79 | the tombstoned positions below the stored count, ascending |
| SavePlan.TombstonesCover | composable/entity/save.js:79 | every tombstone is visited once |
| SavePlan.DeleteRequest | composable/entity/save.js:80-86 | the DELETE of the stored member at a position, keyed by its primary value |
| SavePlan.CollectionPlan | composable/entity/save.js:76-94 | the DELETEs first, one per tombstone and each for the stored member there, then the view members' requests |
| SavePlan.DeletesCover | composable/entity/save.js:79-87 | one DELETE per tombstone and a DELETE for every tombstone |
| SavePlan.Traverse | composable/entity/save.js:113-123 | an empty path ends the walk; a step that does not match throws; otherwise the walk reads `entity[navigation][index]` and goes on |
| SavePlan.IdPath | composable/entity/save.js:102 | the id without its verb suffix, if it has one |
| SavePlan.SplitSegment | composable/entity/save.js:118 | a `/name[i]` step splits into its navigation, its index and the rest |
| SavePlan.TraverseSegment | composable/entity/save.js:118-122 | from an entity, `/name[i]` reaches member `i` of the view of child collection `name` |
| SavePlan.EntityPlanLeadsBack | composable/entity/save.js:42-123 | every POST and PATCH an entity plans carries an id whose path leads back to the entity that planned it |
| SavePlan.ChildIdsApart | composable/entity/save.js:70 | ids planned below a child name are none of the entity's own |
| SavePlan.EntityRequests | composable/entity/save.js:42-74 | every request an entity plans is in the `entitySave` group and has an id under its prefix followed by `/` |
| SavePlan.ChildRequests | composable/entity/save.js:69-71 | the children's requests sit under `prefix/name` and are never the entity's own create or update ids |
| SavePlan.CollectionRequests | composable/entity/save.js:76-94 | a collection's requests have ids under its prefix followed by `(` or `[` |
| SavePlan.DeleteRequests | composable/entity/save.js:79-87 | every tombstone request is a DELETE whose id is the prefix followed by `(` |
| SavePlan.MemberRequests | composable/entity/save.js:89-91 | the members' requests have ids under the prefix followed by `[` |
| SavePlan.CollectionGet | composable/entity/entity-collection.js:40-58 | through the collection proxy a name yields an entity exactly when it is an index below the view's length, and then the view member there |
| SavePlan.Member | composable/entity/save.js:120 | a read throws exactly when it is a plain read of null or undefined; otherwise it yields a readable target |
| Save.PromoteSaved | composable/entity/save.js:24-28 | a collection that does not list the entity among its new members is unchanged; otherwise the entity leaves the new members and is pushed onto the stored ones |
| Save.ResponseValues | composable/entity/save.js:104-107 | an object whose names are the body's spread names and the detail names |
| Ownership.DescendsBelow | composable/entity/entity.js:56-65 | a record's parent was created before it, so going down the tree only reaches later records |
| Ownership.ChildDescends | composable/entity/entity.js:56-65 | a record lies below its parent |
| Ownership.Siblings | composable/entity/entity-collection.js:84-90 | of two different records with the same parent neither lies below the other |
| Ownership.FreshNotBelow | composable/entity/entity-collection.js:84-90 | no old record lies below a record created since |
| Ownership.DescendsStable | composable/entity/entity-collection.js:84-90 | creating records without touching old links does not change what an old record lies below |
| Ownership.ConfinedStep | composable/entity/save.js:100-110 | an update confined below an inner record, run after part of an outer update, keeps the outer update within its frame |
| Ownership.AncestorKept | composable/entity/sync-data.js:5-58 | an update below a record leaves that record's parent alone |
| Ownership.SiblingKept | composable/entity/sync-data.js:5-58 | an update below one record leaves its siblings alone |
| Ownership.ConfinedWiden | composable/entity/save.js:100-110 | the frame of a record lies inside the frame of every record above it |
| LegacyEntity.FreshTable | composable/entity.js:41-48 | a child table exists iff the definition lists children, with one empty container per child definition, in order, named by its navigation name |
| LegacyEntity.NullDetails | composable/entity.js:49-56 | a detail table exists iff the definition lists details, holding exactly the detail names, each null |
| LegacyEntity.Replant | composable/entity.js:402-420 | the structure hangs below the new parent and its root, every structure below it is re-linked to its owner and that root, and nothing else changes |
| LegacyEntity.ClonedDetailAsWritten | composable/entity.js:49 | as written, a clone's detail table is rebuilt with nulls, and building it throws when the source holds details its definition does not list |
| LegacyEntity.ClonedDetailLost | composable/entity.js:49 | a detail held as text is copied by the intended clone and lost (or the clone throws) as written |
| LegacyEntity.CloneTree | composable/entity.js:67-107 | a deep copy under a fresh uid with the given parent and base, its own root when none is given, every structure below it re-linked to the copy and that root; the detail table as written or as intended |
| LegacyEntity.SlotOf | composable/entity.js:133 | `entity.child[name]` throws exactly when there is no table or no container of that name, and otherwise finds it |
| LegacyEntity.FindById | composable/entity.js:217 | the first live child holding the id, or the count of children when none does |
| LegacyEntity.FindChildDefinition | composable/entity.js:388-391 | the first child definition answering to the name by navigation key or entity name; a TypeError exactly when none does |
| LegacyEntity.GetChild | composable/entity.js:132-137 | the live child with that id under the name, or null when no live child has it; a TypeError exactly when the container is missing |
| LegacyEntity.MarkAsUpdated | composable/entity.js:381-385 | a structure in state create stays in create, any other becomes updated, and nothing else changes |
| LegacyEntity.AssignForeignKey | composable/entity.js:387-400 | a new object copying the data's own properties, with the foreign key set to the parent's primary value when both keys are declared; a TypeError exactly when no child definition answers to the name or the parent's data is nullish |
| LegacyEntity.FindByEntityName | composable/entity.js:201 | the first child definition whose entity name is the name; a TypeError exactly when there is none |
| LegacyEntity.IssuedNumbered | composable/entity.js:203 | pushing a child under the container's next id, and advancing the counter, keeps ids issued, distinct and apart from the deleted children |
| LegacyEntity.CreateChildDataAsWritten | composable/entity.js:199-208 | as written the definition is looked up by entity name only, so the call throws whenever no child's entity name is the name |
| LegacyEntity.CreateChildData | composable/entity.js:199-208 | only the named container changes: it gains a new child in state create under its next id, below this entity and its root, holding the data with the foreign key assigned; the error cases are exactly a missing container or a failed foreign key |
| LegacyEntity.CreateByNavigationKeyFails | composable/entity.js:201 | a container named by a navigation key that is no entity name: the intended call adds a child while the one as written throws |
| LegacyEntity.CreatedChildFound | composable/entity.js:199-208 | the created child is what `getChild` finds under the id it received, in state create, and the container stays numbered |
| LegacyEntity.CreatedChildLinked | composable/entity.js:204-206 | creating a child keeps a linked tree linked |
| LegacyEntity.UpdateChildData | composable/entity.js:210-214 | only the child with that id changes: it holds the data with the foreign key assigned and is marked as updated; a missing container, a missing child or a failed foreign key throws |
| LegacyEntity.UpdatedChildFound | composable/entity.js:210-214 | the updated child is found under its id with its new data, not in state read, and the container stays numbered |
| LegacyEntity.RemovedKeeps | composable/entity.js:218-221 | taking a child out loses no child but one in state create |
| LegacyEntity.DeleteChildDataAsWritten | composable/entity.js:216-222 | as written `findIndex` answers -1 for an unknown id and the splice then takes out the last child, or reading the state of nothing throws |
| LegacyEntity.DeleteMissingIdTakesLast | composable/entity.js:217-218 | for an id no live child holds, the intended call changes nothing while the one as written drops the last live child |
| LegacyEntity.DeleteChildData | composable/entity.js:216-222 | the live child with the id leaves its container, the others kept in order, and it is filed among the deleted children unless it is in state create; an unknown id changes nothing |
| LegacyEntity.DeletedChildGone | composable/entity.js:216-222 | afterwards no live child holds the id, the container stays numbered, and only a child in state create is lost |
| LegacyEntity.CreateNewChild | composable/entity.js:226-240 | a detached child in state create with a null id, whose parent is this entity, whose root is itself, holding an empty object with the foreign key assigned |
| LegacyEntity.AddNewChild | composable/entity.js:242-246 | only the named container changes: the child is pushed under its next id |
| LegacyEntity.NewChildThenAdd | composable/entity.js:226-246 | creating a new child and adding it stores what `createChildData` with empty data stores, apart from the root link |
| LegacyEntity.CreateChildClone | composable/entity.js:248-255 | a detached copy of the live child with the id, based on that child and linked below itself; null when no live child has the id |
| LegacyEntity.ApplyChildClone | composable/entity.js:257-263 | the clone, replanted below this entity, takes the place of the live child with the id; an unknown id changes nothing |
| LegacyEntity.AppliedCloneLinked | composable/entity.js:257-263 | applying a clone keeps the tree linked, and the container numbered when the clone keeps the replaced child's id |
| LegacyEntity.Delete | composable/entity.js:294 | `delete` removes the field from an object, throws on null or undefined, and afterwards the property reads falsy |
| LegacyEntity.Iterated | composable/entity.js:296 | the fallback to an empty array iterates nothing for a falsy value, the elements of an array, and throws for a truthy value that is not iterable |
| LegacyEntity.LoadInto | composable/entity.js:290-319 | the structure is read and keeps its identity and links; its data keeps exactly the fields that are no child or detail name; and, for a shaped structure of a well-formed definition, every container holds one child per element under its name, each loaded from that element, all the way down |
| LegacyEntity.ShapedLoadedFrom | composable/entity.js:290-319 | a shaped structure, read, whose data and containers were each loaded from their part of the data, is loaded from the data |
| LegacyEntity.LoadedSettled | composable/entity.js:290-319 | loading a structure of a well-formed definition leaves every live structure of its tree in state read |
| LegacyEntity.LoadedKeeps | composable/entity.js:290-319 | loading keeps containers numbered and the tree linked |
| LegacyEntity.LoadedDetails | composable/entity.js:312-316 | every detail name takes the data's value and other detail entries stay |
| LegacyLoad.ExpandQuery | composable/entity.js:267-288 | undefined exactly when the definition lists no child and no detail; a TypeError exactly when some detail in the tree has no key list to join |
| LegacyLoad.ExpandQueryAgrees | composable/entity.js:267-288 | for a tree without details and without key lists the query is the one the current engine builds |
| LegacyLoad.DateKeysObject | composable/entity.js:423-429 | with distinct date keys an object's truthy date keys hold dates afterwards and every other field is unchanged |
| LegacyLoad.ConvertDatesAsWritten | composable/entity.js:432 | as written the child's array is looked up under a property no definition has, so only the entity name is tried |
| LegacyLoad.ConvertDates | composable/entity.js:422-441 | the date keys and the children found under their navigation names converted; an object keeps its field names |
| LegacyLoad.NavigationChildDates | composable/entity.js:432 | a concrete order whose line dates stay text as written and become dates as intended |
| LegacyLoad.LoadUrl | composable/entity.js:150-154 | built exactly when there is a service root and the expand query can be built: `EntityName(id)` under the root, `$expand` sent exactly when there is a query |
| LegacyLoad.Answer | composable/entity.js:444-445 | the answer's JSON copy as an object without the context annotation, every other field kept |
| LegacyLoad.Downloaded | composable/entity.js:443-448 | a nullish answer fails; otherwise the entity is read, keeps its identity and links, and its data has no context annotation; for an object answer and a shaped entity with a well-formed definition, the entity is loaded from the answer's JSON copy without context, dates converted: its data and every container's live children, all the way down |
| LegacyLoad.DownloadedData | composable/entity.js:443-448 | every field of the loaded entity's data that names no child, detail or context holds the JSON answer's value, turned into a date when it is a truthy date key |
| LegacyLoad.Loaded | composable/entity.js:155-156 | the entity is read, its id is its primary value, and for an object answer it is loaded from the converted answer as in `LegacyLoad.Downloaded` |
| LegacyLoad.ImportData | composable/entity.js:141-145 | nullish data throws; the state is the one given or read; the id is the data's primary key when that is no child or detail name |
| LegacySave.RequestDataAsWritten | composable/entity.js:321-333 | as written the body can be built exactly when options are given and no live child exists, and is then the intended one |
| LegacySave.NewEntityWithChildFails | composable/entity.js:326 | as written, a new entity with a live child cannot be saved |
| LegacySave.RequestData | composable/entity.js:321-333 | an object; when asked, the primary key is present and undefined |
| LegacySave.RequestDataChildren | composable/entity.js:323-328 | under each child name the body holds the array of the bodies of that name's live children, in order |
| LegacySave.RequestDataKeeps | composable/entity.js:322 | the body keeps every own property that is neither a child name nor the removed primary key |
| LegacySave.RequestDataArrays | composable/entity.js:323-328 | the body holds an array under every child name |
| LegacySave.SentWithoutPrimaryKey | composable/entity.js:329-331 | a body whose primary key was removed sends none |
| LegacySave.SaveRequests | composable/entity.js:335-379 | a new entity is exactly one POST of its body without primary key; an updated one starts with the PUT of its data to its keyed URL; every id lies under the entity's path, and below it for a read entity; a saved entity with keyable data fails exactly when some child name's requests fail, and otherwise each child name's requests appear as one run |
| LegacySave.SaveRequestsChildren | composable/entity.js:359-376 | under each child name, every deleted child's DELETE and all the requests of every live child are sent, and the DELETEs come before the live children's requests |
| LegacySave.SlotRequests | composable/entity.js:359-376 | fails exactly when some child name's requests fail; otherwise each name's requests appear as one run, all below the entity's path |
| LegacySave.ContainerRequests | composable/entity.js:360-375 | fails exactly when a deleted child's data is nullish or a live child's save fails; otherwise the deleted children's DELETEs in order, then each live child's requests as a run |
| LegacySave.ListRequests | composable/entity.js:369-375 | fails exactly when some live child's save fails; otherwise each child's requests appear as a run, all below the path |
| LegacySave.OwnRequestsBelow | composable/entity.js:335-379 | every request of a child lies below its parent's path |
| LegacySave.SaveNothingIff | composable/entity.js:335-379 | a save sends nothing exactly when nothing in the tree is created, updated or deleted |
| LegacyBatch.NodeAt | composable/entity.js:462-465 | the empty route leads to the structure itself |
| LegacyBatch.ReplaceAt | composable/entity.js:485 | the route leads to the new structure afterwards, and nothing off the route changes |
| LegacyBatch.RemoveAt | composable/entity.js:476-479 | the structure a route leads to is taken out of its list, the rest kept in order |
| LegacyBatch.ContainerStepOf | composable/entity.js:459-460 | a step written as `e-name/` or `d-name/` is read back as written |
| LegacyBatch.KeyDigitsOf | composable/entity.js:464 | the key of a word-named entity with a natural id yields that id's digits |
| LegacyBatch.FindByTextOfId | composable/entity.js:465 | among distinct issued ids, the text of a child's id finds that child |
| LegacyBatch.Walk | composable/entity.js:450-471 | the traversal fails only with a TypeError (a missing container or an unmatched key) or the invalid-path error |
| LegacyBatch.Traverse | composable/entity.js:450-471 | the loop follows `Walk`: it finds the same structure and container, or throws the same error |
| LegacyBatch.WalkLeads | composable/entity.js:450-471 | what a traversal finds is where its route leads |
| LegacyBatch.WalkChild | composable/entity.js:454-465 | the path a save request gives a live or deleted child leads back to that child |
| LegacyBatch.ParseResponseId | composable/entity.js:475 | an id that does not match throws; a match yields its path and action |
| LegacyBatch.ParseResponseIdOf | composable/entity.js:475 | an id written by a save request is read back into its path and action |
| LegacyBatch.AssignOneAsWritten | composable/entity.js:473-488 | as written the target read is always the root: a delete changes nothing, any other answer loads into the root and marks it read |
| LegacyBatch.AssignOne | composable/entity.js:473-488 | as intended: the error cases are a bad id or path; a delete takes the found structure out of its list; any other answer loads into the found structure |
| LegacyBatch.AssignOneReaches | composable/entity.js:476-486 | a deleted structure is gone from its parent's list, the rest in order; any other target is read afterwards |
| LegacyBatch.Assign | composable/entity.js:474-487 | one answer through the traversal loop computes `AssignOne` |
| LegacyBatch.AssignAll | composable/entity.js:473-488 | the answers in order, the first that throws stopping the loop with the earlier ones kept |
| LegacyBatch.AssignAllAppend | composable/entity.js:474 | a batch split in two is written as its first part and then, unless it threw, its second |
| LegacyBatch.AssignBatch | composable/entity.js:473-488 | the loop computes `AssignAll` |
| LegacyBatch.ChildAnswerFound | composable/entity.js:335-488 | the answer to a child's own request is found where the request came from |
| LegacyBatch.UpdateAnswerMissesChild | composable/entity.js:477-485 | as written, the empty answer to a child's update marks the root read and leaves the child updated |
| LegacyBatch.UpdateAnswerReadsChild | composable/entity.js:477-485 | as intended, the same answer marks the child read and leaves the root's state alone |
| LegacyBatch.DeleteAnswerKeepsChild | composable/entity.js:479 | as written, the answer to a child's delete leaves its tombstone in place |
| LegacyBatch.DeleteAnswerDropsChild | composable/entity.js:479 | as intended, that answer takes the tombstone out of the deleted list and keeps the rest |
| LegacyBatch.Pruned | composable/entity.js:476-479 | only the stepped-into list changes: the entity at the step leaves it and the others keep their order; every other list is unchanged |
| LegacyBatch.ContainerStep | composable/entity.js:459-460 | a matched step is `e-` or `d-`, a word, and a slash at the head of the rest |
| LegacyBatch.KeyDigits | composable/entity.js:464 | a match yields a non-empty run of digits |
| LegacyBatch.FindByText | composable/entity.js:465 | the first child whose id reads as the text, or the count of children when none does |
| LegacyBatch.Descend | composable/entity.js:460-465 | a step goes into an existing container of that name, shortens the rest, and finds a child whose id text is the key's digits |
| LegacyBatch.Round | composable/entity.js:453-469 | one pass of the loop either ends with the traversal's answer or moves on to a shorter rest with the same answer |
| LegacySave.DeleteRequest | composable/entity.js:360-367 | the DELETE of a deleted child, addressed by its primary value; nullish data throws |
| LegacySave.DeleteRequests | composable/entity.js:360-368 | one DELETE per deleted child, in order, each below the parent's path; throws exactly when a child's data is nullish |
| LegacyEntity.LoadChildren | composable/entity.js:291-311 | every child definition's container from the given position on is reloaded, with one child per element under its name, each loaded from that element; the other containers and the rest of the structure are unchanged, and the child names are taken out of the data |
| LegacyEntity.LoadChild | composable/entity.js:292-311 | one child definition: only its container changes, it holds one child per element under its name, each loaded from that element, and the name leaves the data |
| LegacyEntity.LoadChildrenKeeps | composable/entity.js:291-311 | the containers not named by the remaining child definitions are left alone |
| LegacyEntity.LoadChildrenDataStep | composable/entity.js:291-311 | a container once loaded is not touched again, and the later ones read the same elements from the data less the loaded name |
| LegacyEntity.LoadItems | composable/entity.js:296-310 | one child per element in order, holding consecutive ids from the container's counter, linked below the owner, and, for a well-formed definition, read and loaded from its element |
| LegacyEntity.LoadDetails | composable/entity.js:312-316 | only the detail table changes, and the detail names are taken out of the data |

## Left out

- Records.WriteKey, SyncData.FindMatch, SyncData.SyncStored, ArrayUtils.SubarrayEquals: JavaScript `===` is modelled as structural equality of values.
  - The source compares objects, arrays and dates by identity.
  - So writing back a fresh `Date` equal to the stored one counts as a change in the source, but as a revert in the model.
  - `JsValues.Value` has integer numbers only: fractions and `NaN` (which is never `===` itself) are not modelled.
- SyncData.Add: only the branch that builds a new entity from raw data is modelled (composable/entity/entity-collection.js:97-104).
  - The adoption branch is not modelled. It pushes an entity with the same root as that very object (lines 92-95).
  - The store invariant requires every member of a collection to have that collection as parent, and every member to be listed once. It therefore excludes the states adoption produces: the same entity listed twice, or a member of another collection whose parent still points there.
  - The model's frame and termination arguments rest on that invariant.
- Entities.Store.UseEntity: requires a well-formed definition (`Definitions.WellFormed`).
  - Child names must be distinct, and no child name may equal a declared key or the primary key.
  - The source accepts such definitions. A later child collection of the same name replaces the earlier one, and reads resolve the clash by their lookup order. Neither is modelled.
  - `Load.UseEntityFromId` and `Load.UseEntityFromIdAsWritten` inherit the requirement.
- SavePlan.DeleteRequests: tombstones are a set of positions, and the DELETEs are planned in ascending position order.
  - The source iterates its `Set` in insertion order. Deleting public index 3 and then index 1 sends DELETE(3) before DELETE(1) there, and the reverse here.
  - The same requests are sent; only their order differs.
- Entities.Store.Delete: models deletion by an index name only.
  - The source's `in` test also accepts names inherited by arrays, such as `map`.
  - For those, `Number(property)` is `NaN`. The splice then takes out the first new member, or throws when there is none. This is not modelled.
- Consolidate.SpliceTombstones, Consolidate.ConsolidateCollection: splice the tombstoned positions from the highest down, in numeric order.
  - The source sorts the positions as text (composable/entity/consolidate.js:24). Its order differs once a position has two digits; see Findings.
- LegacyEntity.CreateChildDataAsWritten: when the call throws, the container's counter in the source has already been advanced. The value model returns only the error.
- The older engine (`composable/entity.js`) is modelled on values.
  - Sharing of one structure between two places, and mutation seen through an alias, are not captured. This includes a clone's link to its base, and the structure a reactive proxy wraps.
  - `setProperty`, `setEntity` and `setDetail` (lines 182-196), the navigation getters (lines 116-130), `useEntity` and the `save()` wiring (lines 159-178) are not modelled. The wiring only composes `LegacySave.SaveRequests`, `LegacyLoad.Downloaded` and `LegacyBatch.AssignBatch` around network calls; all three are the corrected versions (see Findings and the lines below).
- Nested records: the sync, clone and load contracts state each record they create or rewrite one level down, not the whole tree below it. Each line below starts with a member whose contract stops there.
  - SyncData.SyncedChildOutcome: for array data, states only that the stored list is kept and new members are fresh, not what the members hold.
  - SyncData.SyncCollection: states the matched and added members' own records (keys and details), not their child collections.
  - SyncData.SyncEntity: states the entity's keys and details; of its child collections only what `SyncData.SyncedChildOutcome` gives.
  - SyncData.AssignEntries: the same limit as `SyncData.SyncEntity`.
  - SyncData.Sync: the same limit as `SyncData.SyncEntity` and `SyncData.SyncCollection`.
  - SyncState.SyncTarget: the copied members' own records only; their child collections are not stated as copies.
  - SyncState.SyncEntityState: the members of its child collections are copied one level; their own children are not stated.
  - SyncState.SyncCollectionState: each fresh member holds the source member's own values; its child collections are not stated.
  - SyncState.CloneAll: the same limit as `SyncState.SyncCollectionState`.
  - SyncState.CloneMember: the same limit as `SyncState.SyncCollectionState`.
  - Clone.CloneEntity: the clone's own records and its children's members' own values; deeper records are not stated.
  - Clone.CloneChildren: the same limit as `Clone.CloneEntity`.
  - Load.CommitSyncedLoaded: the entity's own keys and details; its child collections are not stated.
  - Load.EntityLoad: the same limit as `Load.CommitSyncedLoaded`.
  - Load.LoadCollection: each member's own keys and details; the members' child collections are not stated.
  - Save.Settle: states the entity's own commit, not the consolidation of every record below it (which `Consolidate.ConsolidateEntity` states on its own), and of the base's sync only the base's own records, not its child collections. When the parent collection is itself a child collection of the base, the sync rewrites it, and the promotion is not stated.
  - Save.Save: the same limit as `Save.Settle`.
  - LegacyEntity.LoadInto: the data of every structure below is stated only for object data, a well-formed definition and a structure shaped after it; otherwise only ids, links and states.
- Load.UseEntityFromId: `loaded` is false when the request, the answer or its preparation fails. When all three succeed, the sync can still throw on a reserved name, so the converse is not stated.
- Composite members that use a corrected helper. Each line starts with the member and names the correction (see Findings for the as-written halves).
  - Load.LoadCollection: converts the dates of each entity under `value` (`Load.ReplaceEntityDates`), where composable/entity/load.js:57 converts the wrapper.
  - LegacySave.SaveRequests: builds a new entity's body with options (`LegacySave.RequestData`), where composable/entity.js:326 passes none and throws for a live child.
  - LegacyLoad.Downloaded: converts the children found under their navigation key (`LegacyLoad.ConvertDates`), where composable/entity.js:432 reads `.navigation`.
  - LegacyLoad.Loaded: inherits the correction of `LegacyLoad.Downloaded`.
  - LegacyEntity.CreateChildClone: keeps the child's details (`LegacyEntity.CloneTree` as intended), where composable/entity.js:49 rebuilds them with nulls.
  - LegacyBatch.Assign: acts on the structure the path leads to (`LegacyBatch.AssignOne`), where composable/entity.js:477-485 acts on the root and removes nothing.
  - LegacyBatch.AssignAll: folds `LegacyBatch.AssignOne`, with the same correction.
  - LegacyBatch.AssignBatch: the same correction as `LegacyBatch.AssignAll`.
  - ReactiveUrl.UseUrl: appends the unwrapped parameter values (`ReactiveUrl.RefQueryPairs`), where composable/url.js:33 appends the raw ref.
  - ListView.ParseDataProperties: an `$expand` property goes through the corrected `Paths.ParsePropertiesFromPath`. The copy of the parser that this member reaches is utils/list-view.js:145-172, whose lines 154-158 fail for a star on the last step exactly as utils/properties.js:49-55 do.
  - ListView.RequestDetail: the same correction as `ListView.ParseDataProperties`.
  - ListView.LoadAggregatedData: the same correction as `ListView.ParseDataProperties`.
- Paths.SetAt: writing past the end of an array, or under a name that is no index, throws a TypeError in the model. JavaScript grows the array or adds the property to it.
- Entities.Read, Records.WriteDetail, SyncData.SetProperty: names an object inherits (`toString`, `constructor`, `hasOwnProperty` and the like) are routed to the details.
  - The source's `in` tests on `properties` and `children` accept them (composable/entity/entity.js:87, 91, 108, 113, 126-127).
  - There `get` then reads a property of the inherited function, and `set` writes onto it or syncs it.
- SyncState.SameKind, SyncState.SyncTarget: definitions are compared structurally. The source compares them by identity (`===`, composable/entity/sync-state.js:12, 46). For two equal but distinct definitions the source takes neither branch, answers false (line 77) and leaves the target unchanged; the model syncs.
- Network requests (`requestGet`, `requestPost`, `requestPut` and `requestDelete` in utils/odata.js, and the batch request) are parameters. Their outcome is given, headers are not modelled, and concurrency between pending requests is not modelled.
- Delete.DeleteEntity, Delete.Delete: the DELETE is a parameter whose outcome is given. As written, `requestDelete` calls `this.createUrl` inside an ES-module function (utils/odata.js:120), where `this` is undefined, so it throws a TypeError before any request and no delete can succeed. `requestPost` (line 64), which the older engine's save calls (composable/entity.js:161), and `requestPut` (line 92) share the defect. The model gives these requests the outcome they evidently intend.
- Save.Save: the batch request is a parameter whose outcome is given. As written, composable/entity/save.js:1 imports `requestBatch` from utils/odata.js, which exports only `createUrl`, `requestGet`, `requestPost`, `requestPut` and `requestDelete` (lines 7, 40, 63, 91, 119). So the module fails to link, or the call at save.js:15 is a call of undefined, and no batch save can succeed. The older engine imports it the same way (composable/entity.js:2, 173), in wiring that is not modelled.
- ODataUrl.JoinParts, ODataUrl.CreateUrl: keep the seedless `reduce` of utils/odata.js:9-22 as written. An empty part list, or a null or undefined first part, fails with a TypeError. No seeded variant is modelled: the engine's callers put the service root first (composable/entity/delete.js:18, composable/entity/load.js:33-34 and 47-48), so only a missing service root reaches that failure, and it fails as written.
- ListView.AggregateEntries, ListView.ParseAggregates, ListView.LoadAggregatedData: an `aggregate` of null is not modelled. In the source `typeof null` is `'object'`, so reading `property.aggregate.expression` (utils/list-view.js:44-45) or `property.aggregate.parse` (lines 90-91) throws a TypeError.
- Iterating a collection with `for … of` is not modelled. Its `Symbol.iterator` trap calls `.value()` on an array (composable/entity/entity-collection.js:122-124) and throws. The engine's own operations read the collection's internal lists and never reach that trap.
- Vue reactivity and lifecycle are not modelled: `effectScope` and `scope.stop()`, `computed`, `shallowReactive`, `readonly`, `markRaw`/`toRaw`. Nor are the read-only array methods a collection proxy delegates to (composable/entity/entity-collection.js:120-227).
- Dates built from strings (`new Date(text)`) are an opaque function parameter, and a date is modelled by its time value.
- Object field order is not kept: objects are maps. Iteration over children follows the definition's order, as in the source.
- The regular expression class `\w` is read as ASCII letters, digits and `_`.
- utils/odata.js `createUrl`: the `URL` constructor's normalisation is not modelled; the result is the joined text and its query pairs.
- UI code, directives, forms, validations and the fetch composable are not part of this model.

## Findings

| source | as written | input that shows it | evidently intended | confidence | as-written member | corrected member |
|---|---|---|---|---|---|---|
| composable/entity/consolidate.js:24 | tombstoned positions are sorted as text and then reversed | 12 stored members, tombstones {2, 10}: position 2 is spliced first, so the member at 11 goes instead of the one at 10 | splice from the highest position down, in numeric order | high, not executed | Records.TextOrderSplicesWrongMember | Consolidate.ConsolidateCollection |
| composable/entity/load.js:57 | dates of a collection answer are converted on the wrapper object, not on the entities under `value` | a definition with date key `placed`, and an answer whose entity holds `placed` as text | each entity under `value` converted by the definition | high, not executed | Load.WrapperExample | Load.PreparedCollection |
| composable/entity/load.js:20 | the load is started without service root, headers or id | any `useEntityFromId` call: the request cannot be built and `loaded` never becomes true | pass the service root, headers and id on | high, not executed | Load.UseEntityFromIdAsWritten | Load.UseEntityFromId |
| utils/properties.js:49-55 | a star on the last step writes to `steps[0]` of the empty remainder, the field "undefined"; the copy at utils/list-view.js:154-158 does the same | path `*a` on `{ a: [1] }` fails | map the parser over the starred array | high, not executed | Paths.StarOnLastStepFailsAsWritten | Paths.ParsePropertiesFromPath |
| composable/url.js:31-33 | the test unwraps the parameter, but the raw ref is appended | parameter `$top` given as a ref holding 10 is sent as "[object Object]" | append the unwrapped value | high, not executed | ReactiveUrl.RefParamSentAsObjectText | ReactiveUrl.RefQueryPairs |
| composable/entity.js:49 | `detail ?? Array.isArray(details) ? … : null` parses as `(detail ?? …) ? … : null` | a clone of a structure whose detail holds a text: the clone's table holds null there, or the clone throws when the definition lists no details | copy the source's detail table | high, not executed | LegacyEntity.ClonedDetailLost | LegacyEntity.CloneTree |
| composable/entity.js:201 | the child definition is looked up by entity name only | a container named by a navigation key that is no child's entity name: the call throws | look it up by navigation key or entity name, as line 228 does | medium, not executed | LegacyEntity.CreateByNavigationKeyFails | LegacyEntity.CreateChildData |
| composable/entity.js:217-218 | `findIndex` gives -1 for an unknown id and `splice(-1, 1)` takes out the last child | `deleteChildData` with an id no live child holds | change nothing | high, not executed | LegacyEntity.DeleteMissingIdTakesLast | LegacyEntity.DeleteChildData |
| composable/entity.js:326 | a child's body is requested without options, and destructuring `undefined` throws | saving a new entity with one live child | pass the options down | high, not executed | LegacySave.NewEntityWithChildFails | LegacySave.RequestData |
| composable/entity.js:432 | the child's array is looked up under `.navigation`, which no definition has | an order whose lines sit under navigation key `Lines`: their dates stay text | use `.navigationKey` | high, not executed | LegacyLoad.NavigationChildDates | LegacyLoad.ConvertDates |
| composable/entity.js:477-485 | the answer is destructured for a `target` the traversal never returns, so the root is used | the empty answer to a child's update marks the root read and leaves the child updated | use the entity the path leads to | high, not executed | LegacyBatch.UpdateAnswerMissesChild | LegacyBatch.UpdateAnswerReadsChild |
| composable/entity.js:479 | `splice(index, 0)` removes nothing | the answer to a child's delete leaves its tombstone in the deleted list | `splice(index, 1)` | high, not executed | LegacyBatch.DeleteAnswerKeepsChild | LegacyBatch.DeleteAnswerDropsChild |
