/** The orchestrator (`nutrition_agent`): parse the reply into food items, look each named
    item up, keep those that resolved, and either stop with one of the two failure messages
    or total the meal and ask for the narrative. The three external calls are parameters:
    `parseReply` is the text-generation service's reply to the parsing prompt (`None` when
    the call raised), `decode` is `json.loads` (`None` when it raised), `search` is the food
    search request (`None` when it failed), and `analyse` is the text-generation service's
    reply to the analysis prompt built from the totals (`None` when the call raised). */
module Agent {
  import opened Wrappers
  import opened Records
  import opened FoodParser
  import opened UsdaLookup
  import opened NutrientExtractor
  import opened MealAggregator

  /** What `nutrition_agent` ends with: one of the two failures, or the totals together with
      the narrative written from them. */
  datatype Outcome = NoFoods | NoData | Analysis(totals: map<string, real>, narrative: string)

  const NoFoodsMessage: string := "\U{274C} Could not identify any foods in your input. Please try again with more specific descriptions."
  const NoDataMessage: string := "\U{26A0}\U{FE0F} No nutritional data found for the foods mentioned. Try different food names."
  const AnalysisFallback: string := "Unable to generate nutrition analysis at this time."

  /** The string `nutrition_agent` returns for an outcome. */
  function Reply(o: Outcome): string {
    match o
    case NoFoods => NoFoodsMessage
    case NoData => NoDataMessage
    case Analysis(_, narrative) => narrative
  }

  /** `generate_analysis`: the service's reply, or the fixed fallback when the call raised. */
  function GenerateAnalysis(totals: map<string, real>, analyse: map<string, real> -> Option<string>): string {
    analyse(totals).GetOr(AnalysisFallback)
  }

  /** An item's food name and amount; a missing field reads as "". */
  function FoodName(p: ParsedItem): string { p.food.GetOr("") }
  function Amount(p: ParsedItem): string { p.amount.GetOr("") }

  /** The lookup result for a food name. */
  function Lookup(name: string, search: string -> Option<SearchResponse>): FoodRecord {
    QueryUsda(search(name))
  }

  /** An item is skipped when its name is empty or its lookup returned `{}`. */
  predicate Skipped(p: ParsedItem, search: string -> Option<SearchResponse>) {
    FoodName(p) == "" || Lookup(FoodName(p), search) == EmptyRecord
  }

  /** The `meal_info` entry built for an item that is kept. */
  function MealEntry(p: ParsedItem, search: string -> Option<SearchResponse>): MealItem {
    MealItem(FoodName(p), Amount(p), Some(Extracted(Entries(Lookup(FoodName(p), search)))))
  }

  /** `meal_info` after the items `parsed` have been processed in order. */
  function ResolvedItems(parsed: seq<ParsedItem>, search: string -> Option<SearchResponse>): seq<MealItem> {
    if parsed == [] then []
    else
      var init := ResolvedItems(parsed[..|parsed| - 1], search);
      var p := parsed[|parsed| - 1];
      if Skipped(p, search) then init else init + [MealEntry(p, search)]
  }

  /** The outcome of the whole run on an already parsed food list. */
  function AgentOutcome(parsed: seq<ParsedItem>, search: string -> Option<SearchResponse>,
                        analyse: map<string, real> -> Option<string>): Outcome
  {
    if parsed == [] then NoFoods
    else
      var mealInfo := ResolvedItems(parsed, search);
      if mealInfo == [] then NoData
      else
        var totals := MealTotals(mealInfo);
        Analysis(totals, GenerateAnalysis(totals, analyse))
  }

  /** `nutrition_agent`. */
  method NutritionAgent(parseReply: Option<string>, decode: string -> Option<seq<ParsedItem>>,
                        search: string -> Option<SearchResponse>, analyse: map<string, real> -> Option<string>)
    returns (outcome: Outcome)
    ensures outcome == AgentOutcome(ParseFoodAmount(parseReply, decode), search, analyse)
  {
    var parsedFoods := ParseFoodAmount(parseReply, decode);
    if parsedFoods == [] {
      return NoFoods;
    }
    var mealInfo: seq<MealItem> := [];
    for i := 0 to |parsedFoods|
      invariant mealInfo == ResolvedItems(parsedFoods[..i], search)
    {
      var item := parsedFoods[i];
      var foodName := item.food.GetOr("");
      var amount := item.amount.GetOr("");
      assert parsedFoods[..i + 1][..i] == parsedFoods[..i];
      if foodName == "" {
        continue;
      }
      var usdaData := QueryUsda(search(foodName));
      if usdaData == EmptyRecord {
        continue;
      }
      var nutrients := ExtractNutrients(usdaData);
      mealInfo := mealInfo + [MealItem(foodName, amount, Some(nutrients))];
    }
    assert parsedFoods[..|parsedFoods|] == parsedFoods;
    if mealInfo == [] {
      return NoData;
    }
    var mealTotals := CalculateMealTotals(mealInfo);
    return Analysis(mealTotals, GenerateAnalysis(mealTotals, analyse));
  }

  /** Processing a concatenation resolves each part in turn. */
  lemma {:induction false} ResolvedAppend(a: seq<ParsedItem>, b: seq<ParsedItem>, search: string -> Option<SearchResponse>)
    ensures ResolvedItems(a + b, search) == ResolvedItems(a, search) + ResolvedItems(b, search)
  {
    if b == [] {
      assert a + b == a;
    } else {
      var b' := b[..|b| - 1];
      var p := b[|b| - 1];
      ResolvedAppend(a, b', search);
      assert (a + b)[..|a + b| - 1] == a + b';
      assert (a + b)[|a + b| - 1] == p;
      if Skipped(p, search) {
        assert ResolvedItems(b, search) == ResolvedItems(b', search);
      } else {
        assert ResolvedItems(b, search) == ResolvedItems(b', search) + [MealEntry(p, search)];
      }
    }
  }

  /** Every `meal_info` entry is the entry of a kept item, and `meal_info` is empty exactly
      when every item is skipped (the exact in-order correspondence is `ResolvedInOrder`). */
  lemma {:induction false} ResolvedAreKept(parsed: seq<ParsedItem>, search: string -> Option<SearchResponse>)
    ensures |ResolvedItems(parsed, search)| <= |parsed|
    ensures forall m :: m in ResolvedItems(parsed, search) ==>
              exists i :: 0 <= i < |parsed| && !Skipped(parsed[i], search) && m == MealEntry(parsed[i], search)
    ensures ResolvedItems(parsed, search) == [] <==> forall i :: 0 <= i < |parsed| ==> Skipped(parsed[i], search)
  {
    if parsed != [] {
      var init := parsed[..|parsed| - 1];
      ResolvedAreKept(init, search);
      forall i | 0 <= i < |init|
        ensures init[i] == parsed[i]
      {
      }
    }
  }

  /** `ys` lists `entry(x)` for the elements `x` of `xs` that `keep` accepts, in their order:
      `idx` holds the positions they come from, strictly increasing, and every accepted
      position is among them. */
  ghost predicate FilteredInOrder<T, U>(xs: seq<T>, keep: T -> bool, entry: T -> U, ys: seq<U>, idx: seq<nat>)
  {
    && |idx| == |ys|
    && (forall m :: 0 <= m < |idx| ==> idx[m] < |xs| && keep(xs[idx[m]]) && ys[m] == entry(xs[idx[m]]))
    && (forall m, n :: 0 <= m < n < |idx| ==> idx[m] < idx[n])
    && (forall i :: 0 <= i < |xs| && keep(xs[i]) ==> i in idx)
  }

  /** A rejected last element extends neither the list nor the positions. */
  lemma FilteredSkipLast<T, U>(xs: seq<T>, keep: T -> bool, entry: T -> U, ys: seq<U>, idx: seq<nat>)
    requires xs != [] && !keep(xs[|xs| - 1])
    requires FilteredInOrder(xs[..|xs| - 1], keep, entry, ys, idx)
    ensures FilteredInOrder(xs, keep, entry, ys, idx)
  {
    var init := xs[..|xs| - 1];
    assert forall i :: 0 <= i < |init| ==> init[i] == xs[i];
  }

  /** An accepted last element appends its entry and its position. */
  lemma FilteredKeepLast<T, U>(xs: seq<T>, keep: T -> bool, entry: T -> U, ys: seq<U>, idx: seq<nat>)
    requires xs != [] && keep(xs[|xs| - 1])
    requires FilteredInOrder(xs[..|xs| - 1], keep, entry, ys, idx)
    ensures FilteredInOrder(xs, keep, entry, ys + [entry(xs[|xs| - 1])], idx + [|xs| - 1])
  {
    var init := xs[..|xs| - 1];
    assert forall i :: 0 <= i < |init| ==> init[i] == xs[i];
  }

  /** The kept-item test and the entry an item becomes, as function values. */
  function IsKept(search: string -> Option<SearchResponse>): ParsedItem -> bool {
    p => !Skipped(p, search)
  }

  function EntryOf(search: string -> Option<SearchResponse>): ParsedItem -> MealItem {
    p => MealEntry(p, search)
  }

  /** `meal_info` is exactly the in-order list of the entries of the kept items. */
  lemma {:induction false} ResolvedInOrder(parsed: seq<ParsedItem>, search: string -> Option<SearchResponse>)
    ensures exists idx :: FilteredInOrder(parsed, IsKept(search), EntryOf(search), ResolvedItems(parsed, search), idx)
  {
    if parsed == [] {
      assert ResolvedItems(parsed, search) == [];
      assert FilteredInOrder(parsed, IsKept(search), EntryOf(search), [], []);
    } else {
      var init := parsed[..|parsed| - 1];
      var p := parsed[|parsed| - 1];
      ResolvedInOrder(init, search);
      var last: nat := |parsed| - 1;
      var keep, entry := IsKept(search), EntryOf(search);
      var items := ResolvedItems(init, search);
      var idx :| FilteredInOrder(init, keep, entry, items, idx);
      assert keep(p) == !Skipped(p, search) && entry(p) == MealEntry(p, search);
      if keep(p) {
        FilteredKeepLast(parsed, keep, entry, items, idx);
        assert FilteredInOrder(parsed, keep, entry, ResolvedItems(parsed, search), idx + [last]);
      } else {
        FilteredSkipLast(parsed, keep, entry, items, idx);
        assert FilteredInOrder(parsed, keep, entry, ResolvedItems(parsed, search), idx);
      }
    }
  }

  /** Every kept item has its entry in `meal_info`. */
  lemma KeptItemsAppear(parsed: seq<ParsedItem>, search: string -> Option<SearchResponse>, i: nat)
    requires i < |parsed| && !Skipped(parsed[i], search)
    ensures MealEntry(parsed[i], search) in ResolvedItems(parsed, search)
  {
    var keep, entry, items := IsKept(search), EntryOf(search), ResolvedItems(parsed, search);
    ResolvedInOrder(parsed, search);
    var idx :| FilteredInOrder(parsed, keep, entry, items, idx);
    assert keep(parsed[i]);
    var m :| 0 <= m < |idx| && idx[m] == i;
    assert items[m] == entry(parsed[i]) == MealEntry(parsed[i], search);
  }

  /** A skipped item leaves the outcome exactly as if it had not been in the list, as long as
      the list stays non-empty. */
  lemma SkippedItemIsInvisible(a: seq<ParsedItem>, p: ParsedItem, b: seq<ParsedItem>,
                               search: string -> Option<SearchResponse>, analyse: map<string, real> -> Option<string>)
    requires Skipped(p, search)
    requires a + b != []
    ensures AgentOutcome(a + [p] + b, search, analyse) == AgentOutcome(a + b, search, analyse)
  {
    ResolvedAppend(a + [p], b, search);
    ResolvedAppend(a, [p], search);
    ResolvedAppend(a, b, search);
    assert ResolvedItems([p], search) == [] by { assert [p][..0] == []; }
  }

  /** Every run ends in exactly one of three ways: no foods exactly when the parse is empty;
      no data exactly when there were foods but every one was skipped; otherwise the totals
      of the kept items, over exactly the eight keys. */
  lemma OutcomeCases(parsed: seq<ParsedItem>, search: string -> Option<SearchResponse>,
                     analyse: map<string, real> -> Option<string>)
    ensures AgentOutcome(parsed, search, analyse).NoFoods? <==> parsed == []
    ensures AgentOutcome(parsed, search, analyse).NoData? <==>
              parsed != [] && forall i :: 0 <= i < |parsed| ==> Skipped(parsed[i], search)
    ensures AgentOutcome(parsed, search, analyse).Analysis? ==>
              AgentOutcome(parsed, search, analyse).totals.Keys == KeySet
  {
    ResolvedAreKept(parsed, search);
  }
}
