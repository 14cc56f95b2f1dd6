/**
 * The table component of QueryTable.tsx: its three declared columns, the row it
 * projects from each query, and the collapse of a highlight event to one selection.
 */
module QueryTable {
  import opened Wrappers
  import opened Queries
  import Store

  /** The `columns` prop: id and title, in declaration order. */
  datatype TableColumn = TableColumn(id: string, title: string)

  const TableColumns: seq<TableColumn> := [
    TableColumn("updatedAt", "Updated Time"),
    TableColumn("status", "Status"),
    TableColumn("queryHash", "Query Hash")
  ]

  datatype TableCell = TableCell(id: string, text: string)
  datatype TableRow = TableRow(key: string, columns: seq<TableCell>)

  /**
   * The row of one query; `dateToString` is `new Date(ms).toString()`. The date is
   * rendered even when `dataUpdatedAt` is 0.
   */
  function ProjectRow(q: Query, dateToString: int -> string): (r: TableRow)
    ensures r.key == q.queryHash
    ensures |r.columns| == |TableColumns|
    ensures forall k :: 0 <= k < |TableColumns| ==> r.columns[k].id == TableColumns[k].id
  {
    TableRow(q.queryHash, [
      TableCell("updatedAt", dateToString(q.dataUpdatedAt)),
      TableCell("status", q.status),
      TableCell("queryHash", q.queryHash)
    ])
  }

  /** `queries.map(...)`: one row per query, in input order, with the declared cells. */
  function Rows(queries: seq<Query>, dateToString: int -> string): (rows: seq<TableRow>)
    ensures |rows| == |queries|
    ensures forall i :: 0 <= i < |queries| ==>
              && rows[i].key == queries[i].queryHash
              && |rows[i].columns| == |TableColumns|
              && (forall c :: 0 <= c < |TableColumns| ==> rows[i].columns[c].id == TableColumns[c].id)
              && rows[i].columns[0].text == dateToString(queries[i].dataUpdatedAt)
              && rows[i].columns[1].text == queries[i].status
              && rows[i].columns[2].text == queries[i].queryHash
  {
    seq(|queries|, i requires 0 <= i < |queries| => ProjectRow(queries[i], dateToString))
  }

  /** `onRowHighlighted`: the key when exactly one row is highlighted, otherwise nothing. */
  function OnRowHighlighted(rowArray: seq<string>): (r: Option<string>)
    ensures r.Some? <==> |rowArray| == 1
    ensures r.Some? ==> r.value == rowArray[0]
  {
    if |rowArray| == 1 then Some(rowArray[0]) else None
  }

  /**
   * Highlighting the row of a query selects that query when hashes are unique;
   * highlighting no row or several rows selects nothing.
   */
  lemma HighlightSelectsRow(queries: seq<Query>, dateToString: int -> string, rowArray: seq<string>, i: nat)
    requires forall a, b :: 0 <= a < b < |queries| ==> queries[a].queryHash != queries[b].queryHash
    ensures |rowArray| != 1 ==> Store.SelectedQuery(queries, OnRowHighlighted(rowArray)) == None
    ensures i < |queries| && rowArray == [Rows(queries, dateToString)[i].key] ==>
              Store.SelectedQuery(queries, OnRowHighlighted(rowArray)) == Some(queries[i])
  {
    if i < |queries| && rowArray == [Rows(queries, dateToString)[i].key] {
      Store.SelectedQueryOfUniqueHash(queries, i);
    }
  }
}
