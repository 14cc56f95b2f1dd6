# React Query devtools for Flipper: the inspector's derived state

This project models, in Dafny, the logic of the Flipper desktop plugin that
inspects a React Query cache mirrored from a React Native app. Everything the
plugin shows is derived from a plain snapshot of the cache's queries:

- the **status classifier** (`utils.tsx` and the older `utils.ts`): a query's
  label (fetching, inactive, stale, fresh), its colour, its staleness and
  observer count, the "last updated" text, and the per-status counts;
- the **table model** (`utils.tsx`): the static column table, the default
  column visibility, `useSortedQueries` (copy, stable sort, reverse for
  "down"), and `useColumns` with `buildRow`;
- the **selection and view state** (`use-store.ts`, `QueryTable.tsx`): the
  selected query found by hash, the column visibility toggle, the
  highlight-to-selection collapse, and the table's row projection.

Modules, one per source file or concern:

| file | module | models |
|---|---|---|
| wrappers.dfy | Wrappers | `undefined`/`null` as `Option` |
| queries.dfy | Queries | the decoded `Query` fields the inspector reads |
| query_status.dfy | QueryStatus | `utils.tsx` lines 1-81 |
| legacy_status.dfy | LegacyStatus | `utils.ts` |
| query_columns.dfy | QueryColumns | `utils.tsx` lines 83-254 |
| sorting.dfy | Sorting | the in-place `sort` and `reverse` that `useSortedQueries` applies to its copy |
| store.dfy | Store | `use-store.ts` |
| query_table.dfy | QueryTable | `components/QueryTable.tsx` |

Modelling choices:

- `dataUpdatedAt` is an `int` where 0 means "never updated". That matches
  the source's falsy test `!query.state.dataUpdatedAt`. A column `size` of 0
  likewise stands for an absent size.
- Observers are `Option<seq<bool>>`, one `currentResult.isStale` flag per
  observer. `None` is the absent list that `observers?.length ?? 0` counts
  as zero in `QueryStatus.ObserversCount` (also `utils.ts:38-40`).
- JavaScript records built by `reduce` keep their keys in insertion order, so
  `columns`, `columnOrder` and `columnSizes` are sequences in declaration
  order. A visibility record is a `map<string, bool>` read for truthiness: a
  missing key means hidden.
- `String.prototype.localeCompare`, `Date.prototype.toLocaleTimeString` and
  `Date.prototype.toString` depend on the locale, so they are function
  parameters. Ordering results assume `localeCompare` is a total preorder
  (`Sorting.TotalPreorder`).
- `Array.prototype.sort` is stable (ECMA-262, 10th edition, section
  22.1.3.27). It is modelled by an in-place stable insertion sort on an array
  copy, followed by an in-place reversal for "down".
- The two classifier copies differ only in how the colours are named.
  `utils.ts`'s private `getIsStale` and `getObserversCount` are identical to
  those of `utils.tsx`, so both modules share one definition.
- The label checks inactivity before staleness; the colour checks staleness
  before inactivity. Both orders are kept as written. So a stale query with no
  observers is labelled "inactive" but coloured `#ffb200`
  (`QueryStatus.ColorFollowsLabelExceptInactiveStale`).
- The placeholder in `getLastUpdatedAtString` is modelled code point for code
  point as the literal stands in `utils.tsx:48`: U+00E2 U+20AC U+201C (`â€“`).
- Two behaviours of the code are kept as written:
  - A sort key that is neither a declared column nor a property inherited from
    `Object.prototype` makes the code throw at `utils.tsx:179`, because
    `queryTableColumns[key]` is undefined. So `UseSortedQueries` requires a
    declared key; it does not treat an unknown key as "no sort".
  - The colour is not a function of the label (see above).

## Model

| member | source | states |
|---|---|---|
| QueryStatus.ObserversCount | packages/flipper-plugin-react-query-devtools/src/utils.tsx:41-43 | an absent list counts 0, a present list its length; the count is 0 exactly when the list is absent or empty |
| QueryStatus.SomeObserverStale | packages/flipper-plugin-react-query-devtools/src/utils.tsx:37 | `some` over the observers' stale flags is true exactly when one flag is true |
| QueryStatus.IsStale | packages/flipper-plugin-react-query-devtools/src/utils.tsx:33-39 | stale exactly when invalidated, never updated (`dataUpdatedAt` 0), or some observer reports stale; an absent list contributes nothing |
| QueryStatus.GetQueryStatusLabel | packages/flipper-plugin-react-query-devtools/src/utils.tsx:6-14 | always one of the four labels; "fetching" iff fetching; "inactive" iff not fetching and no observers; "stale"/"fresh" split the observed non-fetching queries by staleness |
| QueryStatus.AbsentObserversAreInactive | packages/flipper-plugin-react-query-devtools/src/utils.tsx:41-43 | a non-fetching query whose observers list is absent or empty has count 0 and is "inactive", invalidated or not |
| QueryStatus.GetQueryStatusColor | packages/flipper-plugin-react-query-devtools/src/utils.tsx:16-31 | always one of the four `queryStatusColors`; fetching colour iff fetching; stale colour iff not fetching and stale, whatever the observers; inactive colour only for non-stale unobserved queries |
| QueryStatus.ColorFollowsLabelExceptInactiveStale | packages/flipper-plugin-react-query-devtools/src/utils.tsx:6-31 | the colour is the label's colour, except that an "inactive" query that is stale gets the stale colour |
| QueryStatus.InvalidatedUnobservedQuery | packages/flipper-plugin-react-query-devtools/src/utils.tsx:23-31 | an invalidated, unobserved, non-fetching query is labelled "inactive" and coloured `#ffb200` |
| QueryStatus.GetLastUpdatedAtString | packages/flipper-plugin-react-query-devtools/src/utils.tsx:45-49 | the placeholder when `dataUpdatedAt` is 0, otherwise the locale time of `dataUpdatedAt` |
| QueryStatus.Labels | packages/flipper-plugin-react-query-devtools/src/utils.tsx:54 | one label per query, in order: position k holds `getQueryStatusLabel` of query k |
| QueryStatus.CountWithLabel | packages/flipper-plugin-react-query-devtools/src/utils.tsx:54-72 | each `filter(...).length` count never exceeds the number of queries |
| QueryStatus.Occurrences | packages/flipper-plugin-react-query-devtools/src/utils.tsx:54 | a `filter(...).length` never exceeds the collection's length |
| QueryStatus.OccurrencesIsMultiplicity | packages/flipper-plugin-react-query-devtools/src/utils.tsx:54 | counting the entries equal to a label gives that label's multiplicity |
| QueryStatus.OccurrencesOfFourLabels | packages/flipper-plugin-react-query-devtools/src/utils.tsx:51-73 | when every entry is one of the four labels, the four counts add up to the length |
| QueryStatus.CountIsMultiplicity | packages/flipper-plugin-react-query-devtools/src/utils.tsx:57-62 | the count of a label equals that label's multiplicity among the queries' labels |
| QueryStatus.CountsSumToLength | packages/flipper-plugin-react-query-devtools/src/utils.tsx:63-73 | the fresh, fetching, stale and inactive counts add up to the number of queries |
| QueryStatus.UseQueryStatuses | packages/flipper-plugin-react-query-devtools/src/utils.tsx:51-81 | each of the four counts is the multiplicity of its label, and the four sum to `queries.length` |
| LegacyStatus.GetQueryStatusLabel | packages/flipper-plugin-react-query-devtools/src/utils.ts:3-11 | one of the four labels; fetching overrides all; an unobserved query is "inactive" before staleness is looked at |
| LegacyStatus.GetQueryStatusColor | packages/flipper-plugin-react-query-devtools/src/utils.ts:13-28 | one of the four `theme` colours; fetching gives `active`; staleness gives `warning` before zero observers can give `gray` |
| LegacyStatus.CopiesAgree | packages/flipper-plugin-react-query-devtools/src/utils.ts:1-40 | the older copy gives every query the same label and the same colour as `utils.tsx` |
| QueryColumns.FindColumn | packages/flipper-plugin-react-query-devtools/src/utils.tsx:179 | the lookup `queryTableColumns[key]` finds a column with that id, or none exists |
| QueryColumns.DeclaredColumn | packages/flipper-plugin-react-query-devtools/src/utils.tsx:179 | for a declared id, `queryTableColumns[id]` is a declared column with that id |
| QueryColumns.DeclaredColumnIds | packages/flipper-plugin-react-query-devtools/src/utils.tsx:94-160 | `queryTableColumns` declares seven columns, with these ids and sizes in this order |
| QueryColumns.DeclaredIdsDistinct | packages/flipper-plugin-react-query-devtools/src/utils.tsx:94-160 | the seven column ids are distinct |
| QueryColumns.DeclaredColumnsSortable | packages/flipper-plugin-react-query-devtools/src/utils.tsx:94-160 | every column is sortable, has a `compareFn` and a non-zero size |
| QueryColumns.DeclaredFilterable | packages/flipper-plugin-react-query-devtools/src/utils.tsx:94-160 | only the "status" column is filterable |
| QueryColumns.DeclaredDefaults | packages/flipper-plugin-react-query-devtools/src/utils.tsx:94-160 | exactly lastUpdated, queryHash and status are marked `default` |
| QueryColumns.OnlyStatusIsFilterable | packages/flipper-plugin-react-query-devtools/src/utils.tsx:127 | among declared columns, only "status" has `filterable` set |
| QueryColumns.DefaultVisibility | packages/flipper-plugin-react-query-devtools/src/utils.tsx:162-168 | every folded column's id is a key, and the last column folded sets its own entry to its `default` flag |
| QueryColumns.DefaultVisibilityKeys | packages/flipper-plugin-react-query-devtools/src/utils.tsx:162-163 | the default visibility map has a key for every declared id and no other |
| QueryColumns.DefaultVisibilityAt | packages/flipper-plugin-react-query-devtools/src/utils.tsx:164 | with distinct ids, each column's entry is its `default` flag |
| QueryColumns.DefaultVisibleColumnsExactly | packages/flipper-plugin-react-query-devtools/src/utils.tsx:162-168 | `defaultVisibleColumns` has exactly the declared ids as keys and is true exactly for lastUpdated, queryHash and status |
| QueryColumns.DefaultVisibleColumns | packages/flipper-plugin-react-query-devtools/src/utils.tsx:165-167 | the `reduce` loop builds the default visibility map |
| QueryColumns.VisibleColumnDefs | packages/flipper-plugin-react-query-devtools/src/utils.tsx:198 | no longer than the declared list, and every listed column is visible |
| QueryColumns.SizedColumnDefs | packages/flipper-plugin-react-query-devtools/src/utils.tsx:219 | no longer than the declared list, and every listed column is visible and has a size |
| QueryColumns.VisibleColumnDefsMembers | packages/flipper-plugin-react-query-devtools/src/utils.tsx:198 | a column is listed exactly when it is declared and its id is visible |
| QueryColumns.VisibleColumnDefsOrder | packages/flipper-plugin-react-query-devtools/src/utils.tsx:209-214 | listed columns keep their declaration order |
| QueryColumns.SizedIsVisibleWhenAllSized | packages/flipper-plugin-react-query-devtools/src/utils.tsx:219 | when every column has a size, the sized list is the visible list |
| QueryColumns.ColumnsOf | packages/flipper-plugin-react-query-devtools/src/utils.tsx:196-206 | the `columns` loop lists title and sortable flag of each visible column, in declaration order |
| QueryColumns.ColumnOrderOf | packages/flipper-plugin-react-query-devtools/src/utils.tsx:208-215 | the `columnOrder` loop lists each visible column's id, marked visible, in declaration order |
| QueryColumns.ColumnSizesOf | packages/flipper-plugin-react-query-devtools/src/utils.tsx:217-224 | the `columnSizes` loop lists id and size of each visible column that has a size, in declaration order |
| QueryColumns.UseColumns | packages/flipper-plugin-react-query-devtools/src/utils.tsx:195-224 | the three `reduce` loops give the headers (title, sortable), the order entries and the sizes of the visible columns, in declaration order |
| QueryColumns.UseColumnsListsVisibleColumns | packages/flipper-plugin-react-query-devtools/src/utils.tsx:196-224 | `columns`, `columnOrder` and `columnSizes` list the same columns: exactly the visible declared ones, in declaration order |
| QueryColumns.VisibleDefaultColumns | packages/flipper-plugin-react-query-devtools/src/utils.tsx:162-168 | under a visibility that agrees with the `default` flags, the visible columns are lastUpdated, queryHash and status |
| QueryColumns.DefaultColumnOrder | packages/flipper-plugin-react-query-devtools/src/utils.tsx:208-215 | under the default visibility, the column order is lastUpdated, queryHash, status |
| QueryColumns.GetValue | packages/flipper-plugin-react-query-devtools/src/utils.tsx:100-157 | last-updated time and hash render as text, status as a tag with one of the four labels and one of the four colours, the other columns as numbers |
| QueryColumns.CellFor | packages/flipper-plugin-react-query-devtools/src/utils.tsx:234-237 | a cell carries its column's id, that column's value, and is filterable exactly for "status" |
| QueryColumns.CellsFor | packages/flipper-plugin-react-query-devtools/src/utils.tsx:233-238 | one cell per column |
| QueryColumns.CellsForMatchColumns | packages/flipper-plugin-react-query-devtools/src/utils.tsx:233-238 | the k-th cell carries the k-th column's id; only "status" cells are filterable |
| QueryColumns.BuildRow | packages/flipper-plugin-react-query-devtools/src/utils.tsx:226-246 | the `for...in` loop builds the row keyed by `queryHash` with one cell per column |
| QueryColumns.Compare | packages/flipper-plugin-react-query-devtools/src/utils.tsx:99-156 | the numeric columns order ascending by their field; hash and status compare with `localeCompare` on the hash and on the label |
| QueryColumns.ComparatorIsTotalPreorder | packages/flipper-plugin-react-query-devtools/src/utils.tsx:99-156 | every column's `compareFn` is a total preorder on queries once `localeCompare` is one |
| QueryColumns.SortedQueries | packages/flipper-plugin-react-query-devtools/src/utils.tsx:174-192 | whatever the sort order, the result is a permutation of the queries |
| QueryColumns.UseSortedQueries | packages/flipper-plugin-react-query-devtools/src/utils.tsx:170-193 | copying into an array, sorting it in place and reversing it for "down" gives exactly `SortedQueries` |
| QueryColumns.UnsortedKeepsOrder | packages/flipper-plugin-react-query-devtools/src/utils.tsx:175-177 | with no sort order the queries are returned as they are |
| QueryColumns.SortedQueriesByKey | packages/flipper-plugin-react-query-devtools/src/utils.tsx:179-191 | a declared key's column has a `compareFn`; the result is its stable sort, reversed for "down" |
| QueryColumns.SortedQueriesCorrect | packages/flipper-plugin-react-query-devtools/src/utils.tsx:179-191 | with a declared key the result is a permutation of the input; non-decreasing under the column's `compareFn` for "up"; non-increasing for "down" |
| QueryColumns.DownIsReverseOfUp | packages/flipper-plugin-react-query-devtools/src/utils.tsx:187-189 | "down" is the exact reverse of "up", both ways round |
| QueryColumns.SortedInputUnchanged | packages/flipper-plugin-react-query-devtools/src/utils.tsx:185 | an input already in "up" order comes back unchanged (the stable sort moves nothing) |
| Sorting.Insert | packages/flipper-plugin-react-query-devtools/src/utils.tsx:185 | inserting adds one element |
| Sorting.InsertionSorted | packages/flipper-plugin-react-query-devtools/src/utils.tsx:185 | the sort keeps the length |
| Sorting.Reversed | packages/flipper-plugin-react-query-devtools/src/utils.tsx:188 | the reversal has the same length and puts element k at position length-1-k |
| Sorting.InsertionSortedPermutes | packages/flipper-plugin-react-query-devtools/src/utils.tsx:185 | sorting only rearranges: same multiset |
| Sorting.InsertionSortedIsSorted | packages/flipper-plugin-react-query-devtools/src/utils.tsx:185 | under a total preorder, the sorted copy is non-decreasing for every pair of positions |
| Sorting.InsertKeepsSorted | packages/flipper-plugin-react-query-devtools/src/utils.tsx:185 | inserting into a sorted sequence keeps it sorted |
| Sorting.InsertPermutes | packages/flipper-plugin-react-query-devtools/src/utils.tsx:185 | inserting adds exactly the inserted element |
| Sorting.InsertionSortedKeepsSortedInput | packages/flipper-plugin-react-query-devtools/src/utils.tsx:185 | a sorted input is its own sort |
| Sorting.ReversedPermutes | packages/flipper-plugin-react-query-devtools/src/utils.tsx:188 | reversing only rearranges |
| Sorting.ReversedTwice | packages/flipper-plugin-react-query-devtools/src/utils.tsx:187-189 | reversing twice is the identity |
| Sorting.ReversedOfSortedDescends | packages/flipper-plugin-react-query-devtools/src/utils.tsx:187-189 | the reverse of a non-decreasing sequence is non-increasing |
| Sorting.InsertStops | packages/flipper-plugin-react-query-devtools/src/utils.tsx:185 | an element that may follow the last one is appended |
| Sorting.InsertAfterPassing | packages/flipper-plugin-react-query-devtools/src/utils.tsx:185 | inserting lands just after the last element that may stay in front and before every element the comparator puts after it |
| Sorting.ShiftGreater | packages/flipper-plugin-react-query-devtools/src/utils.tsx:185 | the inner loop shifts right exactly the prefix elements that go after the inserted one and stops at one that may stay in front |
| Sorting.InsertAt | packages/flipper-plugin-react-query-devtools/src/utils.tsx:185 | moving one element left into the sorted prefix of an array equals `Insert` on sequences |
| Sorting.SortInPlace | packages/flipper-plugin-react-query-devtools/src/utils.tsx:185 | the in-place sort leaves the stable insertion sort of the old contents |
| Sorting.ReverseInPlace | packages/flipper-plugin-react-query-devtools/src/utils.tsx:188 | the in-place reversal leaves the reverse of the old contents |
| Store.FirstIndexWithHash | packages/flipper-plugin-react-query-devtools/src/use-store.ts:13-15 | the index found holds the hash and no earlier index does; none found means no index holds it |
| Store.SelectedQuery | packages/flipper-plugin-react-query-devtools/src/use-store.ts:11-17 | the first query with the selected hash; none when the hash is null or no query has it |
| Store.SelectionReattaches | packages/flipper-plugin-react-query-devtools/src/use-store.ts:11-17 | a hash missing from one collection selects nothing; a later collection holding it selects a query with that hash, with no new selection |
| Store.SelectedQueryOfUniqueHash | packages/flipper-plugin-react-query-devtools/src/use-store.ts:13-15 | with unique hashes, selecting a query's hash selects that query |
| Store.InitialColumnVisibility | packages/flipper-plugin-react-query-devtools/src/use-store.ts:18-20 | with nothing persisted, exactly lastUpdated, queryHash and status are visible; otherwise the persisted map is used |
| Store.ToggleColumnVisibility | packages/flipper-plugin-react-query-devtools/src/use-store.ts:22-30 | flips the truthiness of `id`, adds `id` as a key, and leaves every other entry unchanged |
| Store.ToggleTwiceRestores | packages/flipper-plugin-react-query-devtools/src/use-store.ts:24-27 | toggling the same id twice restores every column's visibility |
| Store.ToggleChangesOneColumn | packages/flipper-plugin-react-query-devtools/src/use-store.ts:22-30 | after a toggle, the visible columns differ only in the toggled one |
| QueryTable.ProjectRow | packages/flipper-plugin-react-query-devtools/src/components/QueryTable.tsx:28-41 | the row is keyed by `queryHash` and has one cell per declared table column, with that column's id, in order |
| QueryTable.Rows | packages/flipper-plugin-react-query-devtools/src/components/QueryTable.tsx:27-42 | one row per query in input order, keyed by `queryHash`, with exactly the cells updatedAt, status and queryHash, in the declared column order |
| QueryTable.OnRowHighlighted | packages/flipper-plugin-react-query-devtools/src/components/QueryTable.tsx:11-13 | the single key when exactly one row is highlighted; nothing for zero or several |
| QueryTable.HighlightSelectsRow | packages/flipper-plugin-react-query-devtools/src/components/QueryTable.tsx:11-13 | highlighting one row selects that row's query when hashes are unique; highlighting zero or several rows selects nothing |

## Left out

- The snapshot codec (`flatted`'s `stringify` and `parse`) is a third-party library. The model starts from the decoded queries.
- `plugin.ts` is not modelled. It holds the persisted states, the `queries` message handler that replaces the whole collection, and the four remote commands with their caught and logged failures. All of that is transport and persistence plumbing.
- `useFlipperDevtools.tsx` (registration, cache subscription, command handlers on the app side) is I/O against the live cache and is not modelled.
- `Sidebar.tsx` and the `index.tsx` files are rendering and wiring. The "refetch disabled while fetching" rule is not modelled.
- React hooks' memoisation (`useMemo`, `useCallback`) has no effect on the values. The hooks are modelled as the computations they memoise.
- Locale formatting and collation are left unspecified: `localeCompare`, `toLocaleTimeString` and `Date.toString` are parameters.
- Cell values stand for the rendered React nodes: `Text` of a string or number, or `Tag` with colour and label.
- JavaScript numbers are modelled as unbounded integers. The subtraction comparators are exact here. Not modelled: rounding beyond 2^53, fractional values, `NaN`, and `Infinity`, which react-query users commonly give `staleTime` and `cacheTime`. A large integer standing in for `Infinity`, above every finite value present, keeps the comparators' behaviour. `Infinity - Infinity` is `NaN`, which `Array.prototype.sort` treats as +0, just as two equal stand-ins give 0. A finite value minus `Infinity` is negative, and so is its difference with the stand-in.
- JavaScript records (`queryTableColumns`, `columnVisibility`) are modelled as maps without inherited properties. Ids that name an `Object.prototype` property (`"constructor"`, `"toString"`, `"valueOf"`, …) are not modelled. For such a key the source's `queryTableColumns[key]` is a function with no `compareFn`, so `useSortedQueries` takes its `!compareFn` branch and returns the queries unchanged, a branch the model reaches for no key. `!columnVisibility[key]` is `false` for such a key, so the source's toggle stores `false` where `Store.ToggleColumnVisibility` stores `true`, and `Store.InitialColumnVisibility`'s "exactly three ids visible" does not hold for them.
- Store.ToggleColumnVisibility: promises the flip only for ids that are not `Object.prototype` property names, whose inherited value the model does not represent.
- Store.InitialColumnVisibility: "exactly three ids visible" is stated over own keys only; inherited `Object.prototype` names are not modelled.
- QueryColumns.UseSortedQueries: requires the sort key to be a declared column, because the code throws on an unknown key.
- QueryColumns.SortedInputUnchanged: stability is stated only this way. The model does not prove that every stable sort gives the result of `InsertionSorted`.
