/**
 * The table model of utils.tsx: the static column table, the default visibility
 * map, `useSortedQueries`, and `useColumns` with its `buildRow`.
 *
 * A JavaScript object's keys iterate in insertion order, so the records the source
 * builds by `reduce` (`columns`, `columnSizes`) are modelled as sequences of entries
 * in that order. A visibility record is a `map<string, bool>` read with JavaScript
 * truthiness: a missing key is not visible.
 */
module QueryColumns {
  import opened Wrappers
  import opened Queries
  import opened Sorting
  import QueryStatus

  /** The facet of a query a column reads, for display and for comparison. */
  datatype Field = UpdatedAt | Hash | ObserverCount | StatusLabel | UpdateCount | CacheTime | StaleTime

  /**
   * One entry of `queryTableColumns`. `size` 0 stands for an absent size (both are
   * falsy); `compareBy` None stands for an absent `compareFn`.
   */
  datatype ColumnDef = ColumnDef(
    id: string,
    title: string,
    sortable: bool,
    filterable: bool,
    isDefault: bool,
    size: nat,
    value: Field,
    compareBy: Option<Field>)

  /** `queryTableColumns`, in declaration order. */
  const QueryTableColumns: seq<ColumnDef> := [
    ColumnDef("lastUpdated", "Last Updated", true, false, true, 150, UpdatedAt, Some(UpdatedAt)),
    ColumnDef("queryHash", "Query Hash", true, false, true, 275, Hash, Some(Hash)),
    ColumnDef("observerCount", "Observer Count", true, false, false, 130, ObserverCount, Some(ObserverCount)),
    ColumnDef("status", "Status", true, true, true, 130, StatusLabel, Some(StatusLabel)),
    ColumnDef("updateCount", "Update Count", true, false, false, 100, UpdateCount, Some(UpdateCount)),
    ColumnDef("cacheTime", "Cache Time (ms)", true, false, false, 130, CacheTime, Some(CacheTime)),
    ColumnDef("staleTime", "Stale Time (ms)", true, false, false, 130, StaleTime, Some(StaleTime))
  ]

  predicate DistinctIds(defs: seq<ColumnDef>) {
    forall i, j :: 0 <= i < j < |defs| ==> defs[i].id != defs[j].id
  }

  /** `queryTableColumns[id]`: the first column with that id, if any. */
  function FindColumn(defs: seq<ColumnDef>, id: string): (r: Option<ColumnDef>)
    ensures r.Some? ==> r.value in defs && r.value.id == id
    ensures r.None? ==> forall k :: 0 <= k < |defs| ==> defs[k].id != id
  {
    if defs == [] then None
    else if defs[0].id == id then Some(defs[0])
    else FindColumn(defs[1..], id)
  }

  /** `id` is the id of a declared column; `queryTableColumns[id]` is then defined. */
  predicate IsDeclaredColumn(id: string) {
    exists k :: 0 <= k < |QueryTableColumns| && QueryTableColumns[k].id == id
  }

  /** `queryTableColumns[id]` for an id that is declared. */
  function DeclaredColumn(id: string): (c: ColumnDef)
    requires IsDeclaredColumn(id)
    ensures c in QueryTableColumns && c.id == id
  {
    FindColumn(QueryTableColumns, id).value
  }

  /** The ids and sizes of `queryTableColumns`, in declaration order. */
  lemma DeclaredColumnIds()
    ensures |QueryTableColumns| == 7
    ensures seq(7, k requires 0 <= k < 7 => QueryTableColumns[k].id)
            == ["lastUpdated", "queryHash", "observerCount", "status", "updateCount", "cacheTime", "staleTime"]
    ensures seq(7, k requires 0 <= k < 7 => QueryTableColumns[k].size) == [150, 275, 130, 130, 100, 130, 130]
  {
  }

  /** No two declared columns share an id. */
  lemma DeclaredIdsDistinct()
    ensures DistinctIds(QueryTableColumns)
  {
  }

  /** Every declared column is sortable, has a `compareFn` and has a size. */
  lemma DeclaredColumnsSortable()
    ensures forall c :: c in QueryTableColumns ==> c.sortable && c.compareBy.Some? && c.size != 0
  {
  }

  /** Only "status" is declared filterable. */
  lemma DeclaredFilterable()
    ensures forall c :: c in QueryTableColumns ==> (c.filterable <==> c.id == "status")
  {
  }

  /** Only "lastUpdated", "queryHash" and "status" are declared `default`. */
  lemma DeclaredDefaults()
    ensures forall k :: 0 <= k < |QueryTableColumns| ==>
              (QueryTableColumns[k].isDefault <==>
                 QueryTableColumns[k].id == "lastUpdated" || QueryTableColumns[k].id == "queryHash"
                 || QueryTableColumns[k].id == "status")
  {
  }

  /** Only the status column marks its cells as filterable. */
  lemma OnlyStatusIsFilterable(id: string)
    requires IsDeclaredColumn(id)
    ensures DeclaredColumn(id).filterable <==> id == "status"
  {
    DeclaredFilterable();
  }

  /** `columnVisibility[id]`, read for truthiness. */
  predicate IsVisible(visibility: map<string, bool>, id: string) {
    id in visibility && visibility[id]
  }

  // ---------------------------------------------------------------------------
  // defaultVisibleColumns

  /** The `reduce` that sets `acc[columnDef.id] = !!columnDef.default` column by column. */
  function DefaultVisibility(defs: seq<ColumnDef>): (r: map<string, bool>)
    ensures forall k :: 0 <= k < |defs| ==> defs[k].id in r
    ensures defs != [] ==> r[defs[|defs| - 1].id] == defs[|defs| - 1].isDefault
  {
    if defs == [] then map[]
    else DefaultVisibility(defs[..|defs| - 1])[defs[|defs| - 1].id := defs[|defs| - 1].isDefault]
  }

  /** The map has a key for every declared id and no other. */
  lemma {:induction false} DefaultVisibilityKeys(defs: seq<ColumnDef>, id: string)
    ensures id in DefaultVisibility(defs) <==> exists k :: 0 <= k < |defs| && defs[k].id == id
  {
    if defs != [] {
      var init := defs[..|defs| - 1];
      DefaultVisibilityKeys(init, id);
      if exists k :: 0 <= k < |init| && init[k].id == id {
        var k :| 0 <= k < |init| && init[k].id == id;
        assert defs[k].id == id;
      }
      if exists k :: 0 <= k < |defs| && defs[k].id == id {
        var k :| 0 <= k < |defs| && defs[k].id == id;
        if k < |init| {
          assert init[k].id == id;
        }
      }
    }
  }

  /** With distinct ids, each column's entry is its `default` flag. */
  lemma {:induction false} DefaultVisibilityAt(defs: seq<ColumnDef>, k: nat)
    requires DistinctIds(defs)
    requires k < |defs|
    ensures defs[k].id in DefaultVisibility(defs)
    ensures DefaultVisibility(defs)[defs[k].id] == defs[k].isDefault
  {
    var init := defs[..|defs| - 1];
    if k < |init| {
      assert DistinctIds(init) by {
        forall i, j | 0 <= i < j < |init| ensures init[i].id != init[j].id {
          assert init[i] == defs[i] && init[j] == defs[j];
        }
      }
      assert init[k] == defs[k];
      DefaultVisibilityAt(init, k);
    }
  }

  /** `defaultVisibleColumns` shows exactly "lastUpdated", "queryHash" and "status". */
  lemma DefaultVisibleColumnsExactly(id: string)
    ensures id in DefaultVisibility(QueryTableColumns) <==> IsDeclaredColumn(id)
    ensures IsVisible(DefaultVisibility(QueryTableColumns), id) <==>
              id == "lastUpdated" || id == "queryHash" || id == "status"
  {
    DeclaredIdsDistinct();
    DeclaredDefaults();
    DefaultVisibilityKeys(QueryTableColumns, id);
    if IsDeclaredColumn(id) {
      var k :| 0 <= k < |QueryTableColumns| && QueryTableColumns[k].id == id;
      DefaultVisibilityAt(QueryTableColumns, k);
    } else {
      assert id != QueryTableColumns[0].id && id != QueryTableColumns[1].id && id != QueryTableColumns[3].id;
    }
  }

  /** The loop that computes `defaultVisibleColumns`. */
  method DefaultVisibleColumns() returns (acc: map<string, bool>)
    ensures acc == DefaultVisibility(QueryTableColumns)
  {
    acc := map[];
    for i := 0 to |QueryTableColumns|
      invariant acc == DefaultVisibility(QueryTableColumns[..i])
    {
      var columnDef := QueryTableColumns[i];
      assert QueryTableColumns[..i + 1][..i] == QueryTableColumns[..i];
      acc := acc[columnDef.id := columnDef.isDefault];
    }
    assert QueryTableColumns[..|QueryTableColumns|] == QueryTableColumns;
  }

  // ---------------------------------------------------------------------------
  // useColumns

  /** The declared columns whose id is visible, in declaration order. */
  function VisibleColumnDefs(defs: seq<ColumnDef>, visibility: map<string, bool>): (r: seq<ColumnDef>)
    ensures |r| <= |defs|
    ensures forall k :: 0 <= k < |r| ==> IsVisible(visibility, r[k].id)
  {
    if defs == [] then []
    else
      var init := VisibleColumnDefs(defs[..|defs| - 1], visibility);
      if IsVisible(visibility, defs[|defs| - 1].id) then init + [defs[|defs| - 1]] else init
  }

  /** The visible columns that also have a (truthy) size. */
  function SizedColumnDefs(defs: seq<ColumnDef>, visibility: map<string, bool>): (r: seq<ColumnDef>)
    ensures |r| <= |defs|
    ensures forall k :: 0 <= k < |r| ==> IsVisible(visibility, r[k].id) && r[k].size != 0
  {
    if defs == [] then []
    else
      var init := SizedColumnDefs(defs[..|defs| - 1], visibility);
      var last := defs[|defs| - 1];
      if IsVisible(visibility, last.id) && last.size != 0 then init + [last] else init
  }

  /** A column is kept exactly when it is declared and visible. */
  lemma {:induction false} VisibleColumnDefsMembers(defs: seq<ColumnDef>, visibility: map<string, bool>, c: ColumnDef)
    ensures c in VisibleColumnDefs(defs, visibility) <==> c in defs && IsVisible(visibility, c.id)
  {
    if defs != [] {
      var init := defs[..|defs| - 1];
      VisibleColumnDefsMembers(init, visibility, c);
      assert defs == init + [defs[|defs| - 1]];
    }
  }

  /** Kept columns keep their declaration order. */
  lemma {:induction false} VisibleColumnDefsOrder(defs: seq<ColumnDef>, visibility: map<string, bool>, i: nat, j: nat)
    requires i < j < |VisibleColumnDefs(defs, visibility)|
    ensures exists p, q :: 0 <= p < q < |defs| && defs[p] == VisibleColumnDefs(defs, visibility)[i]
                                                && defs[q] == VisibleColumnDefs(defs, visibility)[j]
  {
    var init := defs[..|defs| - 1];
    var v, vi := VisibleColumnDefs(defs, visibility), VisibleColumnDefs(init, visibility);
    if j < |vi| {
      assert v[i] == vi[i] && v[j] == vi[j];
      VisibleColumnDefsOrder(init, visibility, i, j);
      var p, q :| 0 <= p < q < |init| && init[p] == vi[i] && init[q] == vi[j];
      assert defs[p] == v[i] && defs[q] == v[j];
    } else {
      assert v[i] == vi[i] && v[j] == defs[|defs| - 1];
      VisibleColumnDefsMembers(init, visibility, vi[i]);
      var p :| 0 <= p < |init| && init[p] == vi[i];
      assert defs[p] == v[i] && defs[|defs| - 1] == v[j];
    }
  }

  /** When every column has a size, `columnSizes` lists the same columns as `columnOrder`. */
  lemma {:induction false} SizedIsVisibleWhenAllSized(defs: seq<ColumnDef>, visibility: map<string, bool>)
    requires forall c :: c in defs ==> c.size != 0
    ensures SizedColumnDefs(defs, visibility) == VisibleColumnDefs(defs, visibility)
  {
    if defs != [] {
      assert defs[|defs| - 1] in defs;
      SizedIsVisibleWhenAllSized(defs[..|defs| - 1], visibility);
    }
  }

  datatype ColumnHeader = ColumnHeader(id: string, value: string, sortable: bool)
  datatype ColumnOrderEntry = ColumnOrderEntry(key: string, visible: bool)
  datatype ColumnSize = ColumnSize(id: string, size: nat)

  function Headers(defs: seq<ColumnDef>): (r: seq<ColumnHeader>)
  {
    seq(|defs|, k requires 0 <= k < |defs| => ColumnHeader(defs[k].id, defs[k].title, defs[k].sortable))
  }

  function OrderEntries(defs: seq<ColumnDef>): (r: seq<ColumnOrderEntry>)
  {
    seq(|defs|, k requires 0 <= k < |defs| => ColumnOrderEntry(defs[k].id, true))
  }

  function Sizes(defs: seq<ColumnDef>): (r: seq<ColumnSize>)
  {
    seq(|defs|, k requires 0 <= k < |defs| => ColumnSize(defs[k].id, defs[k].size))
  }

  lemma VisibleColumnDefsStep(defs: seq<ColumnDef>, visibility: map<string, bool>, i: nat)
    requires i < |defs|
    ensures VisibleColumnDefs(defs[..i + 1], visibility)
            == if IsVisible(visibility, defs[i].id) then VisibleColumnDefs(defs[..i], visibility) + [defs[i]]
               else VisibleColumnDefs(defs[..i], visibility)
  {
    assert defs[..i + 1][..i] == defs[..i];
  }

  lemma SizedColumnDefsStep(defs: seq<ColumnDef>, visibility: map<string, bool>, i: nat)
    requires i < |defs|
    ensures SizedColumnDefs(defs[..i + 1], visibility)
            == if IsVisible(visibility, defs[i].id) && defs[i].size != 0
               then SizedColumnDefs(defs[..i], visibility) + [defs[i]]
               else SizedColumnDefs(defs[..i], visibility)
  {
    assert defs[..i + 1][..i] == defs[..i];
  }

  lemma HeadersAppend(defs: seq<ColumnDef>, c: ColumnDef)
    ensures Headers(defs + [c]) == Headers(defs) + [ColumnHeader(c.id, c.title, c.sortable)]
  {
    assert forall k :: 0 <= k < |defs| ==> (defs + [c])[k] == defs[k];
  }

  lemma OrderEntriesAppend(defs: seq<ColumnDef>, c: ColumnDef)
    ensures OrderEntries(defs + [c]) == OrderEntries(defs) + [ColumnOrderEntry(c.id, true)]
  {
    assert forall k :: 0 <= k < |defs| ==> (defs + [c])[k] == defs[k];
  }

  lemma SizesAppend(defs: seq<ColumnDef>, c: ColumnDef)
    ensures Sizes(defs + [c]) == Sizes(defs) + [ColumnSize(c.id, c.size)]
  {
    assert forall k :: 0 <= k < |defs| ==> (defs + [c])[k] == defs[k];
  }

  /** The `reduce` of `useColumns` that builds `columns`: title and sortable flag of each visible column. */
  method ColumnsOf(visibility: map<string, bool>) returns (columns: seq<ColumnHeader>)
    ensures columns == Headers(VisibleColumnDefs(QueryTableColumns, visibility))
  {
    var defs := QueryTableColumns;
    columns := [];
    for i := 0 to |defs|
      invariant columns == Headers(VisibleColumnDefs(defs[..i], visibility))
    {
      VisibleColumnDefsStep(defs, visibility, i);
      if IsVisible(visibility, defs[i].id) {
        HeadersAppend(VisibleColumnDefs(defs[..i], visibility), defs[i]);
        columns := columns + [ColumnHeader(defs[i].id, defs[i].title, defs[i].sortable)];
      }
    }
    assert defs[..|defs|] == defs;
  }

  /** The `reduce` of `useColumns` that builds `columnOrder`. */
  method ColumnOrderOf(visibility: map<string, bool>) returns (columnOrder: seq<ColumnOrderEntry>)
    ensures columnOrder == OrderEntries(VisibleColumnDefs(QueryTableColumns, visibility))
  {
    var defs := QueryTableColumns;
    columnOrder := [];
    for i := 0 to |defs|
      invariant columnOrder == OrderEntries(VisibleColumnDefs(defs[..i], visibility))
    {
      VisibleColumnDefsStep(defs, visibility, i);
      if IsVisible(visibility, defs[i].id) {
        OrderEntriesAppend(VisibleColumnDefs(defs[..i], visibility), defs[i]);
        columnOrder := columnOrder + [ColumnOrderEntry(defs[i].id, true)];
      }
    }
    assert defs[..|defs|] == defs;
  }

  /** The `reduce` of `useColumns` that builds `columnSizes`. */
  method ColumnSizesOf(visibility: map<string, bool>) returns (columnSizes: seq<ColumnSize>)
    ensures columnSizes == Sizes(SizedColumnDefs(QueryTableColumns, visibility))
  {
    var defs := QueryTableColumns;
    columnSizes := [];
    for i := 0 to |defs|
      invariant columnSizes == Sizes(SizedColumnDefs(defs[..i], visibility))
    {
      SizedColumnDefsStep(defs, visibility, i);
      if IsVisible(visibility, defs[i].id) && defs[i].size != 0 {
        SizesAppend(SizedColumnDefs(defs[..i], visibility), defs[i]);
        columnSizes := columnSizes + [ColumnSize(defs[i].id, defs[i].size)];
      }
    }
    assert defs[..|defs|] == defs;
  }

  /** `useColumns`: the three records, each over the visible columns in declaration order. */
  method UseColumns(visibility: map<string, bool>)
    returns (columns: seq<ColumnHeader>, columnOrder: seq<ColumnOrderEntry>, columnSizes: seq<ColumnSize>)
    ensures columns == Headers(VisibleColumnDefs(QueryTableColumns, visibility))
    ensures columnOrder == OrderEntries(VisibleColumnDefs(QueryTableColumns, visibility))
    ensures columnSizes == Sizes(VisibleColumnDefs(QueryTableColumns, visibility))
  {
    columns := ColumnsOf(visibility);
    columnOrder := ColumnOrderOf(visibility);
    columnSizes := ColumnSizesOf(visibility);
    DeclaredColumnsSortable();
    SizedIsVisibleWhenAllSized(QueryTableColumns, visibility);
  }

  /**
   * What `useColumns` promises about its three outputs: each lists exactly the
   * visible declared columns, in declaration order, and the three agree entry by entry.
   */
  lemma UseColumnsListsVisibleColumns(visibility: map<string, bool>, c: ColumnDef, i: nat, j: nat)
    ensures Sizes(SizedColumnDefs(QueryTableColumns, visibility))
            == Sizes(VisibleColumnDefs(QueryTableColumns, visibility))
    ensures c in VisibleColumnDefs(QueryTableColumns, visibility) <==>
              c in QueryTableColumns && IsVisible(visibility, c.id)
    ensures i < j < |VisibleColumnDefs(QueryTableColumns, visibility)| ==>
              exists p, q :: 0 <= p < q < |QueryTableColumns|
                             && QueryTableColumns[p] == VisibleColumnDefs(QueryTableColumns, visibility)[i]
                             && QueryTableColumns[q] == VisibleColumnDefs(QueryTableColumns, visibility)[j]
  {
    DeclaredColumnsSortable();
    SizedIsVisibleWhenAllSized(QueryTableColumns, visibility);
    VisibleColumnDefsMembers(QueryTableColumns, visibility, c);
    if i < j < |VisibleColumnDefs(QueryTableColumns, visibility)| {
      VisibleColumnDefsOrder(QueryTableColumns, visibility, i, j);
    }
  }

  /** Under any visibility that agrees with the `default` flags, the visible columns are the three defaults. */
  lemma VisibleDefaultColumns(vis: map<string, bool>)
    requires forall k :: 0 <= k < |QueryTableColumns| ==>
               IsVisible(vis, QueryTableColumns[k].id) == QueryTableColumns[k].isDefault
    ensures VisibleColumnDefs(QueryTableColumns, vis)
            == [QueryTableColumns[0], QueryTableColumns[1], QueryTableColumns[3]]
  {
    var defs := QueryTableColumns;
    assert defs[..1][..0] == [];
    assert VisibleColumnDefs(defs[..1], vis) == [defs[0]];
    assert defs[..2][..1] == defs[..1];
    assert VisibleColumnDefs(defs[..2], vis) == [defs[0], defs[1]];
    assert defs[..3][..2] == defs[..2];
    assert VisibleColumnDefs(defs[..3], vis) == [defs[0], defs[1]];
    assert defs[..4][..3] == defs[..3];
    assert VisibleColumnDefs(defs[..4], vis) == [defs[0], defs[1], defs[3]];
    assert defs[..5][..4] == defs[..4];
    assert VisibleColumnDefs(defs[..5], vis) == [defs[0], defs[1], defs[3]];
    assert defs[..6][..5] == defs[..5];
    assert VisibleColumnDefs(defs[..6], vis) == [defs[0], defs[1], defs[3]];
    assert defs[..7][..6] == defs[..6];
    assert defs[..7] == defs;
  }

  /** Under the default visibility the table shows "lastUpdated", "queryHash" and "status", in that order. */
  lemma DefaultColumnOrder()
    ensures OrderEntries(VisibleColumnDefs(QueryTableColumns, DefaultVisibility(QueryTableColumns)))
            == [ColumnOrderEntry("lastUpdated", true), ColumnOrderEntry("queryHash", true),
                ColumnOrderEntry("status", true)]
  {
    var defs, vis := QueryTableColumns, DefaultVisibility(QueryTableColumns);
    DeclaredIdsDistinct();
    forall k | 0 <= k < |defs| ensures IsVisible(vis, defs[k].id) == defs[k].isDefault {
      DefaultVisibilityAt(defs, k);
    }
    VisibleDefaultColumns(vis);
  }

  // ---------------------------------------------------------------------------
  // Cells and rows

  /** What a cell renders: a `<Text>` of a string or a number, or a coloured `<Tag>`. */
  datatype CellValue = Text(text: string) | Number(n: int) | Tag(color: string, tagLabel: string)

  /** The column's `getValue`. */
  function GetValue(f: Field, q: Query, toLocaleTimeString: int -> string): (r: CellValue)
    ensures r.Text? <==> f == UpdatedAt || f == Hash
    ensures r.Tag? <==> f == StatusLabel
    ensures r.Tag? ==> r.tagLabel in QueryStatus.StatusLabels && r.color in QueryStatus.QueryStatusColors.Values
  {
    match f
    case UpdatedAt => Text(QueryStatus.GetLastUpdatedAtString(q, toLocaleTimeString))
    case Hash => Text(q.queryHash)
    case ObserverCount => Number(QueryStatus.ObserversCount(q))
    case StatusLabel => Tag(QueryStatus.GetQueryStatusColor(q), QueryStatus.GetQueryStatusLabel(q))
    case UpdateCount => Number(q.dataUpdateCount)
    case CacheTime => Number(q.cacheTime)
    case StaleTime => Number(q.staleTime)
  }

  datatype Cell = Cell(id: string, value: CellValue, isFilterable: bool)
  datatype Row = Row(key: string, columns: seq<Cell>)

  /** The cell `buildRow` computes for the column `key`: its `getValue` and its `filterable` flag. */
  function CellFor(key: string, q: Query, toLocaleTimeString: int -> string): (c: Cell)
    requires IsDeclaredColumn(key)
    ensures c.id == key
    ensures c.value == GetValue(DeclaredColumn(key).value, q, toLocaleTimeString)
    ensures c.isFilterable <==> key == "status"
  {
    OnlyStatusIsFilterable(key);
    var columnDef := DeclaredColumn(key);
    Cell(key, GetValue(columnDef.value, q, toLocaleTimeString), columnDef.filterable)
  }

  /** The cells of a row, one per column in `columns`, in that order. */
  function CellsFor(columns: seq<ColumnHeader>, q: Query, toLocaleTimeString: int -> string): (r: seq<Cell>)
    requires forall k :: 0 <= k < |columns| ==> IsDeclaredColumn(columns[k].id)
    ensures |r| == |columns|
  {
    if columns == [] then []
    else CellsFor(columns[..|columns| - 1], q, toLocaleTimeString)
         + [CellFor(columns[|columns| - 1].id, q, toLocaleTimeString)]
  }

  /** The k-th cell belongs to the k-th column, and only "status" cells are filterable. */
  lemma {:induction false} CellsForMatchColumns(columns: seq<ColumnHeader>, q: Query, toLocaleTimeString: int -> string)
    requires forall k :: 0 <= k < |columns| ==> IsDeclaredColumn(columns[k].id)
    ensures forall k :: 0 <= k < |columns| ==>
              && CellsFor(columns, q, toLocaleTimeString)[k].id == columns[k].id
              && (CellsFor(columns, q, toLocaleTimeString)[k].isFilterable <==> columns[k].id == "status")
  {
    if columns != [] {
      var init := columns[..|columns| - 1];
      CellsForMatchColumns(init, q, toLocaleTimeString);
      var front := CellsFor(init, q, toLocaleTimeString);
      var last := CellFor(columns[|columns| - 1].id, q, toLocaleTimeString);
      var r := CellsFor(columns, q, toLocaleTimeString);
      assert r == front + [last];
      forall k | 0 <= k < |columns|
        ensures r[k].id == columns[k].id && (r[k].isFilterable <==> columns[k].id == "status")
      {
        if k < |init| {
          assert r[k] == front[k] && init[k] == columns[k];
        }
      }
    }
  }

  lemma CellsForExtend(columns: seq<ColumnHeader>, k: nat, q: Query, toLocaleTimeString: int -> string)
    requires k < |columns|
    requires forall j :: 0 <= j < |columns| ==> IsDeclaredColumn(columns[j].id)
    ensures CellsFor(columns[..k + 1], q, toLocaleTimeString)
            == CellsFor(columns[..k], q, toLocaleTimeString) + [CellFor(columns[k].id, q, toLocaleTimeString)]
  {
    assert columns[..k + 1][..k] == columns[..k];
  }

  /** `buildRow`: the row is keyed by the query's hash and holds one cell per entry of `columns`. */
  method BuildRow(columns: seq<ColumnHeader>, q: Query, toLocaleTimeString: int -> string) returns (row: Row)
    requires forall k :: 0 <= k < |columns| ==> IsDeclaredColumn(columns[k].id)
    ensures row.key == q.queryHash
    ensures row.columns == CellsFor(columns, q, toLocaleTimeString)
  {
    var computed: seq<Cell> := [];
    for k := 0 to |columns|
      invariant computed == CellsFor(columns[..k], q, toLocaleTimeString)
    {
      CellsForExtend(columns, k, q, toLocaleTimeString);
      computed := computed + [CellFor(columns[k].id, q, toLocaleTimeString)];
    }
    assert columns[..|columns|] == columns;
    row := Row(q.queryHash, computed);
  }

  // ---------------------------------------------------------------------------
  // useSortedQueries

  datatype Direction = Up | Down
  /** Flipper's `TableRowSortOrder`. */
  datatype SortOrder = SortOrder(key: string, direction: Direction)

  /** A column's `compareFn`; `localeCompare` is `String.prototype.localeCompare`. */
  function Compare(f: Field, localeCompare: (string, string) -> int, a: Query, b: Query): (r: int)
    ensures f == UpdatedAt ==> (r <= 0 <==> a.dataUpdatedAt <= b.dataUpdatedAt)
    ensures f == ObserverCount ==> (r <= 0 <==> QueryStatus.ObserversCount(a) <= QueryStatus.ObserversCount(b))
    ensures f == UpdateCount ==> (r <= 0 <==> a.dataUpdateCount <= b.dataUpdateCount)
    ensures f == CacheTime ==> (r <= 0 <==> a.cacheTime <= b.cacheTime)
    ensures f == StaleTime ==> (r <= 0 <==> a.staleTime <= b.staleTime)
    ensures f == Hash ==> r == localeCompare(a.queryHash, b.queryHash)
    ensures f == StatusLabel ==> r == localeCompare(QueryStatus.GetQueryStatusLabel(a), QueryStatus.GetQueryStatusLabel(b))
  {
    match f
    case UpdatedAt => a.dataUpdatedAt - b.dataUpdatedAt
    case Hash => localeCompare(a.queryHash, b.queryHash)
    case ObserverCount => QueryStatus.ObserversCount(a) - QueryStatus.ObserversCount(b)
    case StatusLabel => localeCompare(QueryStatus.GetQueryStatusLabel(a), QueryStatus.GetQueryStatusLabel(b))
    case UpdateCount => a.dataUpdateCount - b.dataUpdateCount
    case CacheTime => a.cacheTime - b.cacheTime
    case StaleTime => a.staleTime - b.staleTime
  }

  function ComparatorFn(f: Field, localeCompare: (string, string) -> int): (Query, Query) -> int
  {
    (a: Query, b: Query) => Compare(f, localeCompare, a, b)
  }

  /** Every column comparator is a total preorder once `localeCompare` is one. */
  lemma ComparatorIsTotalPreorder(f: Field, localeCompare: (string, string) -> int)
    requires TotalPreorder(localeCompare)
    ensures TotalPreorder(ComparatorFn(f, localeCompare))
  {
    var cmp := ComparatorFn(f, localeCompare);
    forall x, y ensures cmp(x, y) <= 0 || cmp(y, x) <= 0 {
      assert cmp(x, y) == Compare(f, localeCompare, x, y);
    }
    forall x, y, z | cmp(x, y) <= 0 && cmp(y, z) <= 0 ensures cmp(x, z) <= 0 {
      assert cmp(x, y) == Compare(f, localeCompare, x, y);
    }
  }

  /** What `useSortedQueries` returns, as a function of its inputs. */
  function SortedQueries(queries: seq<Query>, sortOrder: Option<SortOrder>, localeCompare: (string, string) -> int)
    : (r: seq<Query>)
    requires sortOrder.Some? ==> IsDeclaredColumn(sortOrder.value.key)
    ensures multiset(r) == multiset(queries)
  {
    if sortOrder.None? then queries
    else
      var compareBy := DeclaredColumn(sortOrder.value.key).compareBy;
      if compareBy.None? then queries
      else
        var cmp := ComparatorFn(compareBy.value, localeCompare);
        var sorted := InsertionSorted(queries, cmp);
        InsertionSortedPermutes(queries, cmp);
        ReversedPermutes(sorted);
        if sortOrder.value.direction == Down then Reversed(sorted) else sorted
  }

  /** `useSortedQueries`: copy, sort the copy in place, and reverse it in place for "down". */
  method UseSortedQueries(queries: seq<Query>, sortOrder: Option<SortOrder>, localeCompare: (string, string) -> int)
    returns (r: seq<Query>)
    requires sortOrder.Some? ==> IsDeclaredColumn(sortOrder.value.key)
    ensures r == SortedQueries(queries, sortOrder, localeCompare)
  {
    if sortOrder.None? {
      return queries;
    }
    var compareBy := DeclaredColumn(sortOrder.value.key).compareBy;
    if compareBy.None? {
      return queries;
    }
    var sorted := new Query[|queries|](k requires 0 <= k < |queries| => queries[k]);
    assert sorted[..] == queries;
    SortInPlace(sorted, ComparatorFn(compareBy.value, localeCompare));
    if sortOrder.value.direction == Down {
      ReverseInPlace(sorted);
    }
    r := sorted[..];
  }

  /** With no sort order the queries come back as they are. */
  lemma UnsortedKeepsOrder(queries: seq<Query>, localeCompare: (string, string) -> int)
    ensures SortedQueries(queries, None, localeCompare) == queries
  {
  }

  /** `useSortedQueries` for a declared key: its column's comparator, then the direction. */
  lemma SortedQueriesByKey(queries: seq<Query>, key: string, direction: Direction, localeCompare: (string, string) -> int)
    requires IsDeclaredColumn(key)
    ensures DeclaredColumn(key).compareBy.Some?
    ensures var sorted := InsertionSorted(queries, ComparatorFn(DeclaredColumn(key).compareBy.value, localeCompare));
            SortedQueries(queries, Some(SortOrder(key, direction)), localeCompare)
            == if direction == Down then Reversed(sorted) else sorted
  {
    DeclaredColumnsSortable();
  }

  /**
   * Sorting by a declared column gives a permutation of the input that is
   * non-decreasing under the column's comparator for "up" and non-increasing for "down".
   */
  lemma SortedQueriesCorrect(queries: seq<Query>, key: string, direction: Direction, localeCompare: (string, string) -> int)
    requires IsDeclaredColumn(key)
    requires TotalPreorder(localeCompare)
    ensures var r := SortedQueries(queries, Some(SortOrder(key, direction)), localeCompare);
            var cmp := ComparatorFn(DeclaredColumn(key).compareBy.value, localeCompare);
            && multiset(r) == multiset(queries)
            && (direction == Up ==> SortedBy(r, cmp))
            && (direction == Down ==> forall i, j :: 0 <= i < j < |r| ==> cmp(r[j], r[i]) <= 0)
  {
    SortedQueriesByKey(queries, key, direction, localeCompare);
    var f := DeclaredColumn(key).compareBy.value;
    var cmp := ComparatorFn(f, localeCompare);
    ComparatorIsTotalPreorder(f, localeCompare);
    var sorted := InsertionSorted(queries, cmp);
    InsertionSortedPermutes(queries, cmp);
    InsertionSortedIsSorted(queries, cmp);
    if direction == Down {
      ReversedPermutes(sorted);
      ReversedOfSortedDescends(sorted, cmp);
    }
  }

  /** "Down" is the exact reverse of "up": the direction does not change the comparator. */
  lemma DownIsReverseOfUp(queries: seq<Query>, key: string, localeCompare: (string, string) -> int)
    requires IsDeclaredColumn(key)
    ensures SortedQueries(queries, Some(SortOrder(key, Down)), localeCompare)
            == Reversed(SortedQueries(queries, Some(SortOrder(key, Up)), localeCompare))
    ensures SortedQueries(queries, Some(SortOrder(key, Up)), localeCompare)
            == Reversed(SortedQueries(queries, Some(SortOrder(key, Down)), localeCompare))
  {
    SortedQueriesByKey(queries, key, Up, localeCompare);
    SortedQueriesByKey(queries, key, Down, localeCompare);
    ReversedTwice(InsertionSorted(queries, ComparatorFn(DeclaredColumn(key).compareBy.value, localeCompare)));
  }

  /** A collection already in "up" order is left as it is: the sort is stable. */
  lemma SortedInputUnchanged(queries: seq<Query>, key: string, localeCompare: (string, string) -> int)
    requires IsDeclaredColumn(key)
    requires SortedBy(queries, ComparatorFn(DeclaredColumn(key).compareBy.value, localeCompare))
    ensures SortedQueries(queries, Some(SortOrder(key, Up)), localeCompare) == queries
  {
    SortedQueriesByKey(queries, key, Up, localeCompare);
    InsertionSortedKeepsSortedInput(queries, ComparatorFn(DeclaredColumn(key).compareBy.value, localeCompare));
  }
}
