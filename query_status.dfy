/**
 * The status classifier of utils.tsx: the label and colour of one query, its
 * staleness and observer count, the last-updated text, and the per-status counts
 * shown above the table.
 */
module QueryStatus {
  import opened Wrappers
  import opened Queries

  /** The four labels, and the colour the record `queryStatusColors` gives each. */
  const StatusLabels: seq<string> := ["fetching", "inactive", "stale", "fresh"]

  const QueryStatusColors: map<string, string> := map[
    "inactive" := "#3f4e60",
    "fresh" := "#00ab52",
    "fetching" := "#006bff",
    "stale" := "#ffb200"
  ]

  /**
   * The text shown for a query that has never received data, code point for code
   * point as the literal stands in utils.tsx: U+00E2 U+20AC U+201C.
   */
  const NoUpdatePlaceholder: string := "\U{00E2}\U{20AC}\U{201C}"

  /** `observers?.length ?? 0`: an absent observers list counts as no observer. */
  function ObserversCount(q: Query): (n: nat)
    ensures q.observers.None? ==> n == 0
    ensures q.observers.Some? ==> n == |q.observers.value|
    ensures n == 0 <==> q.observers.None? || q.observers.value == []
  {
    match q.observers
    case None => 0
    case Some(flags) => |flags|
  }

  /** `Array.prototype.some` over the observers' `currentResult.isStale` flags. */
  function SomeObserverStale(flags: seq<bool>): (r: bool)
    ensures r <==> exists i :: 0 <= i < |flags| && flags[i]
  {
    if flags == [] then false else flags[0] || SomeObserverStale(flags[1..])
  }

  /** A query is stale when invalidated, when it never received data, or when one of its observers says so. */
  function IsStale(q: Query): (r: bool)
    ensures r <==> || q.isInvalidated
                   || q.dataUpdatedAt == 0
                   || (q.observers.Some? && exists i :: 0 <= i < |q.observers.value| && q.observers.value[i])
  {
    || q.isInvalidated
    || q.dataUpdatedAt == 0
    || (match q.observers
        case None => false
        case Some(flags) => SomeObserverStale(flags))
  }

  /** The label checks, in order: fetching, then no observers, then staleness. */
  function GetQueryStatusLabel(q: Query): (r: string)
    ensures r in StatusLabels
    ensures r == "fetching" <==> q.isFetching
    ensures r == "inactive" <==> !q.isFetching && ObserversCount(q) == 0
    ensures r == "stale" <==> !q.isFetching && ObserversCount(q) != 0 && IsStale(q)
    ensures r == "fresh" <==> !q.isFetching && ObserversCount(q) != 0 && !IsStale(q)
  {
    if q.isFetching then "fetching"
    else if ObserversCount(q) == 0 then "inactive"
    else if IsStale(q) then "stale"
    else "fresh"
  }

  /** The colour checks, in a different order: fetching, then staleness, then no observers. */
  function GetQueryStatusColor(q: Query): (r: string)
    ensures r in QueryStatusColors.Values
    ensures r == QueryStatusColors["fetching"] <==> q.isFetching
    ensures r == QueryStatusColors["stale"] <==> !q.isFetching && IsStale(q)
    ensures r == QueryStatusColors["inactive"] <==> !q.isFetching && !IsStale(q) && ObserversCount(q) == 0
    ensures r == QueryStatusColors["fresh"] <==> !q.isFetching && !IsStale(q) && ObserversCount(q) != 0
  {
    if q.isFetching then QueryStatusColors["fetching"]
    else if IsStale(q) then QueryStatusColors["stale"]
    else if ObserversCount(q) == 0 then QueryStatusColors["inactive"]
    else QueryStatusColors["fresh"]
  }

  /** A query nobody observes is "inactive" unless it is fetching, even when invalidated or never updated. */
  lemma AbsentObserversAreInactive(q: Query)
    requires !q.isFetching
    requires q.observers == None || q.observers == Some([])
    ensures GetQueryStatusLabel(q) == "inactive"
    ensures ObserversCount(q) == 0
  {
  }

  /**
   * The colour is the colour of the label, except for a stale query without
   * observers: it is labelled "inactive" but coloured as stale.
   */
  lemma ColorFollowsLabelExceptInactiveStale(q: Query)
    ensures GetQueryStatusLabel(q) in QueryStatusColors
    ensures GetQueryStatusLabel(q) == "inactive" && IsStale(q) ==>
              GetQueryStatusColor(q) == QueryStatusColors["stale"]
    ensures !(GetQueryStatusLabel(q) == "inactive" && IsStale(q)) ==>
              GetQueryStatusColor(q) == QueryStatusColors[GetQueryStatusLabel(q)]
  {
  }

  /** An invalidated query that nobody observes: labelled "inactive", coloured #ffb200. */
  lemma InvalidatedUnobservedQuery(q: Query)
    requires !q.isFetching && q.isInvalidated && ObserversCount(q) == 0
    ensures GetQueryStatusLabel(q) == "inactive"
    ensures GetQueryStatusColor(q) == "#ffb200"
  {
  }

  /** The "Last Updated" text: the locale time of `dataUpdatedAt`, or the placeholder when there is none. */
  function GetLastUpdatedAtString(q: Query, toLocaleTimeString: int -> string): (r: string)
    ensures q.dataUpdatedAt == 0 ==> r == NoUpdatePlaceholder
    ensures q.dataUpdatedAt != 0 ==> r == toLocaleTimeString(q.dataUpdatedAt)
  {
    if q.dataUpdatedAt != 0 then toLocaleTimeString(q.dataUpdatedAt) else NoUpdatePlaceholder
  }

  /** The label of every query, in order. */
  function Labels(queries: seq<Query>): (r: seq<string>)
    ensures |r| == |queries|
    ensures forall i :: 0 <= i < |queries| ==> r[i] == GetQueryStatusLabel(queries[i])
  {
    if queries == [] then []
    else Labels(queries[..|queries| - 1]) + [GetQueryStatusLabel(queries[|queries| - 1])]
  }

  /** The number of entries equal to `wanted`, counted from the front as `filter(...).length` does. */
  function Occurrences(labels: seq<string>, wanted: string): (n: nat)
    ensures n <= |labels|
  {
    if labels == [] then 0
    else Occurrences(labels[..|labels| - 1], wanted) + (if labels[|labels| - 1] == wanted then 1 else 0)
  }

  /** `queries.filter(q => getQueryStatusLabel(q) === wanted).length`. */
  function CountWithLabel(queries: seq<Query>, wanted: string): (n: nat)
    ensures n <= |queries|
  {
    Occurrences(Labels(queries), wanted)
  }

  /** A count is the multiplicity of the counted value. */
  lemma {:induction false} OccurrencesIsMultiplicity(labels: seq<string>, wanted: string)
    ensures Occurrences(labels, wanted) == multiset(labels)[wanted]
  {
    if labels != [] {
      var init, last := labels[..|labels| - 1], labels[|labels| - 1];
      OccurrencesIsMultiplicity(init, wanted);
      assert labels == init + [last];
      assert multiset(labels) == multiset(init) + multiset{last};
    }
  }

  /** When every entry is one of the four labels, their four counts add up to the length. */
  lemma {:induction false} OccurrencesOfFourLabels(labels: seq<string>)
    requires forall i :: 0 <= i < |labels| ==> labels[i] in StatusLabels
    ensures Occurrences(labels, "fresh") + Occurrences(labels, "fetching")
            + Occurrences(labels, "stale") + Occurrences(labels, "inactive") == |labels|
  {
    if labels != [] {
      var init := labels[..|labels| - 1];
      assert forall i :: 0 <= i < |init| ==> init[i] == labels[i];
      OccurrencesOfFourLabels(init);
      assert labels[|labels| - 1] in StatusLabels;
    }
  }

  /** The count of a label is its multiplicity among the labels of the collection. */
  lemma CountIsMultiplicity(queries: seq<Query>, wanted: string)
    ensures CountWithLabel(queries, wanted) == multiset(Labels(queries))[wanted]
  {
    OccurrencesIsMultiplicity(Labels(queries), wanted);
  }

  /** Every query falls in exactly one of the four buckets. */
  lemma CountsSumToLength(queries: seq<Query>)
    ensures CountWithLabel(queries, "fresh") + CountWithLabel(queries, "fetching")
            + CountWithLabel(queries, "stale") + CountWithLabel(queries, "inactive") == |queries|
  {
    OccurrencesOfFourLabels(Labels(queries));
  }

  datatype StatusCounts = StatusCounts(hasFresh: nat, hasFetching: nat, hasStale: nat, hasInactive: nat)

  /** The four counts of `useQueryStatuses`. */
  function UseQueryStatuses(queries: seq<Query>): (r: StatusCounts)
    ensures r.hasFresh == multiset(Labels(queries))["fresh"]
    ensures r.hasFetching == multiset(Labels(queries))["fetching"]
    ensures r.hasStale == multiset(Labels(queries))["stale"]
    ensures r.hasInactive == multiset(Labels(queries))["inactive"]
    ensures r.hasFresh + r.hasFetching + r.hasStale + r.hasInactive == |queries|
  {
    CountIsMultiplicity(queries, "fresh");
    CountIsMultiplicity(queries, "fetching");
    CountIsMultiplicity(queries, "stale");
    CountIsMultiplicity(queries, "inactive");
    CountsSumToLength(queries);
    StatusCounts(
      CountWithLabel(queries, "fresh"),
      CountWithLabel(queries, "fetching"),
      CountWithLabel(queries, "stale"),
      CountWithLabel(queries, "inactive"))
  }
}
