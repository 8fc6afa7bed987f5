/** The nutrition lookup (`query_usda`) past the HTTP call: the choice of the best-scoring
    candidate of a search response. The request itself is not modelled; its outcome is the
    `response` parameter, `None` when the call raised, timed out, returned a non-success
    status or had an undecodable body. */
module UsdaLookup {
  import opened Wrappers
  import opened Records

  /** A candidate's relevance score; a missing score counts as 0. */
  function Score(r: FoodRecord): real {
    r.score.GetOr(0.0)
  }

  /** `i` is where Python's `max(foods, key=...)` stops: a candidate of greatest score,
      and the first of them. */
  predicate IsFirstMax(foods: seq<FoodRecord>, i: nat) {
    && i < |foods|
    && (forall j :: 0 <= j < |foods| ==> Score(foods[j]) <= Score(foods[i]))
    && (forall j :: 0 <= j < i ==> Score(foods[j]) < Score(foods[i]))
  }

  /** The index `max` returns: it scans left to right and replaces its candidate only on a
      strictly greater score. */
  function MaxIndex(foods: seq<FoodRecord>): (i: nat)
    requires |foods| > 0
    ensures IsFirstMax(foods, i)
    decreases |foods|
  {
    if |foods| == 1 then 0
    else
      var best := MaxIndex(foods[..|foods| - 1]);
      if Score(foods[|foods| - 1]) > Score(foods[best]) then |foods| - 1 else best
  }

  /** `query_usda` after the request: `{}` when there was no response or its `foods` list is
      missing or empty, otherwise the first candidate of greatest score. */
  function QueryUsda(response: Option<SearchResponse>): (r: FoodRecord)
    ensures response.None? ==> r == EmptyRecord
    ensures response.Some? && (response.value.foods.None? || response.value.foods.value == []) ==> r == EmptyRecord
    ensures response.Some? && response.value.foods.Some? && response.value.foods.value != [] ==>
              exists i: nat :: IsFirstMax(response.value.foods.value, i) && r == response.value.foods.value[i]
  {
    match response
    case None => EmptyRecord
    case Some(data) =>
      match data.foods
      case None => EmptyRecord
      case Some(foods) =>
        if foods == [] then EmptyRecord else foods[MaxIndex(foods)]
  }
}
