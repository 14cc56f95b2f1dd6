/**
 * The derived state of use-store.ts: the selected query, resolved from the current
 * collection and the selected hash, and the column visibility with its toggle.
 */
module Store {
  import opened Wrappers
  import opened Queries
  import QueryColumns

  /** The index of the first query at or after `from` whose `queryHash` is `hash`. */
  function FirstIndexWithHash(queries: seq<Query>, hash: string, from: nat): (r: Option<nat>)
    requires from <= |queries|
    ensures r.Some? ==> from <= r.value < |queries| && queries[r.value].queryHash == hash
                        && forall j :: from <= j < r.value ==> queries[j].queryHash != hash
    ensures r.None? ==> forall j :: from <= j < |queries| ==> queries[j].queryHash != hash
    decreases |queries| - from
  {
    if from == |queries| then None
    else if queries[from].queryHash == hash then Some(from)
    else FirstIndexWithHash(queries, hash, from + 1)
  }

  /**
   * `queries.find(query => query.queryHash === selectedQueryHash)`: the first query
   * with the selected hash; none when nothing is selected or nothing matches.
   */
  function SelectedQuery(queries: seq<Query>, selectedQueryHash: Option<string>): (r: Option<Query>)
    ensures selectedQueryHash.None? ==> r.None?
    ensures selectedQueryHash.Some? && r.None? ==>
              forall j :: 0 <= j < |queries| ==> queries[j].queryHash != selectedQueryHash.value
    ensures r.Some? ==> && selectedQueryHash.Some?
                        && exists i :: && 0 <= i < |queries| && queries[i] == r.value
                                       && queries[i].queryHash == selectedQueryHash.value
                                       && forall j :: 0 <= j < i ==> queries[j].queryHash != selectedQueryHash.value
  {
    match selectedQueryHash
    case None => None
    case Some(hash) =>
      match FirstIndexWithHash(queries, hash, 0)
      case None => None
      case Some(i) => Some(queries[i])
  }

  /**
   * The selection is not cleared when its query disappears: a collection without
   * the hash shows nothing, and a later collection that holds it again shows that
   * query, with no new selection in between.
   */
  lemma SelectionReattaches(hash: string, without: seq<Query>, later: seq<Query>, k: nat)
    requires forall j :: 0 <= j < |without| ==> without[j].queryHash != hash
    requires k < |later| && later[k].queryHash == hash
    ensures SelectedQuery(without, Some(hash)) == None
    ensures SelectedQuery(later, Some(hash)).Some?
    ensures SelectedQuery(later, Some(hash)).value.queryHash == hash
  {
    assert FirstIndexWithHash(later, hash, 0).Some?;
  }

  /** When hashes are unique, selecting a query's hash selects that query. */
  lemma SelectedQueryOfUniqueHash(queries: seq<Query>, k: nat)
    requires k < |queries|
    requires forall i, j :: 0 <= i < j < |queries| ==> queries[i].queryHash != queries[j].queryHash
    ensures SelectedQuery(queries, Some(queries[k].queryHash)) == Some(queries[k])
  {
    var r := FirstIndexWithHash(queries, queries[k].queryHash, 0);
    assert r.Some?;
  }

  /** The visibility map before anything is persisted: `defaultVisibleColumns`. */
  function InitialColumnVisibility(persisted: Option<map<string, bool>>): (r: map<string, bool>)
    ensures persisted.Some? ==> r == persisted.value
    ensures persisted.None? ==>
              forall id :: QueryColumns.IsVisible(r, id) <==> id == "lastUpdated" || id == "queryHash" || id == "status"
  {
    match persisted
    case Some(visibility) => visibility
    case None =>
      var defaults := QueryColumns.DefaultVisibility(QueryColumns.QueryTableColumns);
      assert forall id :: QueryColumns.IsVisible(defaults, id) <==> id == "lastUpdated" || id == "queryHash" || id == "status" by {
        forall id ensures QueryColumns.IsVisible(defaults, id) <==> id == "lastUpdated" || id == "queryHash" || id == "status" {
          QueryColumns.DefaultVisibleColumnsExactly(id);
        }
      }
      defaults
  }

  /** `{...columnVisibility, [id]: !columnVisibility[id]}`: flips one entry and keeps the rest. */
  function ToggleColumnVisibility(visibility: map<string, bool>, id: string): (r: map<string, bool>)
    ensures QueryColumns.IsVisible(r, id) == !QueryColumns.IsVisible(visibility, id)
    ensures r.Keys == visibility.Keys + {id}
    ensures forall other :: other in visibility && other != id ==> r[other] == visibility[other]
  {
    visibility[id := !QueryColumns.IsVisible(visibility, id)]
  }

  /** Toggling the same id twice gives every column back its visibility. */
  lemma ToggleTwiceRestores(visibility: map<string, bool>, id: string, other: string)
    ensures QueryColumns.IsVisible(ToggleColumnVisibility(ToggleColumnVisibility(visibility, id), id), other)
            == QueryColumns.IsVisible(visibility, other)
  {
  }

  /**
   * Toggling one column changes which columns the table shows in that column only,
   * so switching off "observerCount" removes it and nothing else.
   */
  lemma ToggleChangesOneColumn(visibility: map<string, bool>, id: string, c: QueryColumns.ColumnDef)
    ensures c in QueryColumns.VisibleColumnDefs(QueryColumns.QueryTableColumns, ToggleColumnVisibility(visibility, id))
            <==> && c in QueryColumns.QueryTableColumns
                 && (if c.id == id then !QueryColumns.IsVisible(visibility, id) else QueryColumns.IsVisible(visibility, c.id))
  {
    QueryColumns.VisibleColumnDefsMembers(QueryColumns.QueryTableColumns, ToggleColumnVisibility(visibility, id), c);
  }
}
