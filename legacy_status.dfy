/**
 * The older status classifier of utils.ts. Its label is the same chain as in
 * utils.tsx; its colours come from a `theme` record. Its private `getIsStale` and
 * `getObserversCount` are word for word those of utils.tsx, so the model shares
 * QueryStatus.IsStale and QueryStatus.ObserversCount.
 */
module LegacyStatus {
  import opened Queries
  import QueryStatus

  datatype Theme = Theme(gray: string, success: string, active: string, warning: string)

  const theme: Theme := Theme("#3f4e60", "#00ab52", "#006bff", "#ffb200")

  function GetQueryStatusLabel(q: Query): (r: string)
    ensures r == "fetching" || r == "inactive" || r == "stale" || r == "fresh"
    ensures q.isFetching ==> r == "fetching"
    ensures !q.isFetching && QueryStatus.ObserversCount(q) == 0 ==> r == "inactive"
    ensures r == "stale" <==> !q.isFetching && QueryStatus.ObserversCount(q) != 0 && QueryStatus.IsStale(q)
    ensures r == "fresh" <==> !q.isFetching && QueryStatus.ObserversCount(q) != 0 && !QueryStatus.IsStale(q)
  {
    if q.isFetching then "fetching"
    else if QueryStatus.ObserversCount(q) == 0 then "inactive"
    else if QueryStatus.IsStale(q) then "stale"
    else "fresh"
  }

  /** Fetching wins; then a stale query is `warning` before an unobserved one can be `gray`. */
  function GetQueryStatusColor(q: Query): (r: string)
    ensures r == theme.active || r == theme.warning || r == theme.gray || r == theme.success
    ensures q.isFetching ==> r == theme.active
    ensures !q.isFetching && QueryStatus.IsStale(q) ==> r == theme.warning
    ensures r == theme.gray <==> !q.isFetching && !QueryStatus.IsStale(q) && QueryStatus.ObserversCount(q) == 0
    ensures r == theme.success <==> !q.isFetching && !QueryStatus.IsStale(q) && QueryStatus.ObserversCount(q) != 0
  {
    if q.isFetching then theme.active
    else if QueryStatus.IsStale(q) then theme.warning
    else if QueryStatus.ObserversCount(q) == 0 then theme.gray
    else theme.success
  }

  /** The two copies agree on every query, labels and colours alike. */
  lemma CopiesAgree(q: Query)
    ensures GetQueryStatusLabel(q) == QueryStatus.GetQueryStatusLabel(q)
    ensures GetQueryStatusColor(q) == QueryStatus.GetQueryStatusColor(q)
  {
  }
}
