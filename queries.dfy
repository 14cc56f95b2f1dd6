/**
 * The plain-data mirror of one react-query `Query` as the inspector receives it
 * after the snapshot has been decoded. Only the fields the inspector reads are kept.
 */
module Queries {
  import opened Wrappers

  datatype Query = Query(
    // query.state
    isFetching: bool,
    isInvalidated: bool,
    dataUpdatedAt: int,      // a timestamp in milliseconds; 0 stands for "never updated"
    dataUpdateCount: int,
    status: string,          // query.state.status, e.g. "success" or "loading"
    // query itself
    queryHash: string,
    cacheTime: int,
    staleTime: int,          // query.options.staleTime
    // query.observers, one entry per observer: its currentResult.isStale flag
    observers: Option<seq<bool>>
  )
}
