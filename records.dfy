/** The JSON shapes the core reads and builds. A field the source reads with
    `dict.get(key, default)` is an `Option`, so that a missing field is a case of the model. */
module Records {
  import opened Wrappers

  /** One entry of a food's `foodNutrients` list. */
  datatype NutrientEntry = NutrientEntry(nutrientName: Option<string>, value: Option<real>, unitName: Option<string>)

  /** A food record of the search service. `otherFields` says whether the object has any key
      besides `score` and `foodNutrients` (`description`, `fdcId`, ...): together with the two
      modelled fields it decides whether the object is empty, which is what Python's
      `not usda_data` tests. */
  datatype FoodRecord = FoodRecord(score: Option<real>, foodNutrients: Option<seq<NutrientEntry>>, otherFields: bool)

  /** The empty object `{}` that the lookup returns for "no match". */
  const EmptyRecord := FoodRecord(None, None, false)

  /** The decoded body of a search response; only its `foods` list is read. */
  datatype SearchResponse = SearchResponse(foods: Option<seq<FoodRecord>>)

  /** One `{food, amount}` object of the parsed food list. */
  datatype ParsedItem = ParsedItem(food: Option<string>, amount: Option<string>)

  /** One entry of `meal_info`. `nutrients` is optional because the aggregator reads it
      with a default. */
  datatype MealItem = MealItem(food: string, amount: string, nutrients: Option<map<string, real>>)
}
