# Nutrition agent core, modelled in Dafny

The repository turns a free-text meal description into a nutrition report. It asks a
text-generation service to list the foods, looks each food up in the USDA FoodData Central
search service, maps the nutrient records of the best match to eight nutrient keys, totals
the meal and asks the text-generation service for a narrative. This project models the
deterministic steps between those external calls. The external calls themselves become
parameters.

| file | module | what it models |
|---|---|---|
| `wrappers.dfy` | `Wrappers` | `Option`, standing for `dict.get(key, default)` and for calls that fail |
| `strings.dfy` | `Strings` | Python's `in`, `str.lower`, `str.split`, `str.join` and `str.strip` |
| `records.dfy` | `Records` | the JSON objects the core reads and builds |
| `parser.dfy` | `FoodParser` | fence extraction and `parse_food_amount` after the service call |
| `lookup.dfy` | `UsdaLookup` | best-match selection in `query_usda` after the HTTP request |
| `nutrients.dfy` | `NutrientExtractor` | `extract_nutrients`: the ordered rule chain and the filling loop |
| `aggregator.dfy` | `MealAggregator` | `calculate_meal_totals`: the nested summing loop |
| `agent.dfy` | `Agent` | `nutrition_agent`: the item loop with its skips and its two early returns |

Modelling choices:

- The loops in `extract_nutrients`, `calculate_meal_totals` and `nutrition_agent` are
  methods with loops. Each is proved equal to a specification function (`Extracted`,
  `SumOf`/`MealTotals`, `ResolvedItems`/`AgentOutcome`), and the lemmas are proved about those
  functions.
- The fence extraction and the best-match selection are pure expressions in the source, so they
  are functions here.
- Nutrient values are exact `real`s and dictionary keys are strings. This makes "only the
  eight keys appear" a property to prove rather than a consequence of a type.
- A missing JSON field is `None`. The source's default for it (`""`, `0`, `[]`, `{}`) is
  applied where the source applies it.
- Python's `not usda_data` tests whether a dict is empty. `FoodRecord.otherFields` records
  whether the object has any key besides `score` and `foodNutrients`, so `{}` is exactly
  `EmptyRecord`.

Points of the code worth knowing before reading the model:

- The code takes the first "```json" block wherever it stands, even after an earlier plain
  "```" block. Only when the reply holds no "```json" does it fall back to the first plain
  block. `FoodParser.FencedJsonBlock` allows any text without "```json" before the fence,
  plain blocks included.
- The nutrient rules are an `if`/`elif` chain, so the first matching rule wins. For example,
  a kcal "energy" entry whose name also contains "protein" goes to calories.
  `NutrientExtractor.Classify` states this order.
- The fence step cuts the reply with `split`, not at "the next fence".
  `str.split('```json')[1]` ends at the next "```json". Only then is the text cut at its first
  "```". So when backticks run straight into a second "```json", they stay in the payload.
  `FoodParser.BackticksBeforeSecondJsonFence` proves this. On the usual reply shapes the two
  readings agree (`FencedJsonBlock`, `UnclosedJsonBlock`, `FencedPlainBlock`).

## Model

| member | source | states |
|---|---|---|
| `Strings.IndexFrom` | main.py:48-51 | the index found is an occurrence of the pattern, and no earlier index at or after the start is one; "none" means no occurrence at all (the search behind `in` and `split`) |
| `Strings.ContainsIff` | main.py:48-50 | `p in s` holds exactly when `p` occurs somewhere in `s` |
| `Strings.Split` | main.py:49-51 | `split` gives at least one field, and at least two exactly when the separator occurs, so `[1]` is in range whenever the guarding `in` test held; without the separator the only field is the text; otherwise field 0 is the text before the leftmost occurrence; no field contains the separator |
| `Strings.SplitJoin` | main.py:49-51 | joining the fields of a split with the same separator gives back the original text |
| `Strings.Strip` | main.py:49-51 | the stripped text is a slice of the input with only whitespace outside it, and it neither starts nor ends with whitespace |
| `Strings.StripFramed` | main.py:49-51 | text without whitespace at its ends comes back unchanged from between any two runs of whitespace |
| `FoodParser.ExtractFenced` | main.py:46-51 | a reply without any fence is returned unchanged; when a fence is present the result holds no fence; the indexing never goes out of range |
| `FoodParser.FencedJsonBlock` | main.py:48-49 | a reply "<pre>```json<body>```<post>" yields the stripped body, whenever `pre` holds no "```json" (plain blocks and inline backticks allowed), the closing fence is the first "```" after `body`, and `post` does not start with a backtick |
| `FoodParser.JsonBlockAfterPlainBlock` | main.py:48-49 | a "```json" block is taken, and yields its stripped body, even when a plain "```" block stands before it |
| `FoodParser.UnclosedJsonBlock` | main.py:48-49 | a "```json" block that is never closed yields the stripped text to the end of the reply, whenever `pre` holds no "```json" and the text after it no "```" |
| `FoodParser.FencedPlainBlock` | main.py:50-51 | without any "```json", the first plain block "<pre>```<body>```<post>" yields its stripped body, whenever its two fences are the first two "```" of the reply |
| `FoodParser.BackticksBeforeSecondJsonFence` | main.py:48-49 | the cut is made at the next "```json" before the text is cut at "```", so two backticks directly before a second "```json" stay in the payload |
| `FoodParser.ParseFoodAmount` | main.py:42-59 | a failed service call or a decoding error yields the empty list instead of an exception; otherwise the result is exactly the decoded list of the extracted payload |
| `FoodParser.ParsesFencedPayload` | main.py:46-53 | a reply with a "```json" block of the shape `FencedJsonBlock` describes is parsed as exactly the decoding of its stripped payload, or as the empty list when that fails |
| `UsdaLookup.MaxIndex` | main.py:87 | `max` with a key returns a candidate whose score is at least every candidate's, and every candidate before it scores strictly less (the first maximum) |
| `UsdaLookup.QueryUsda` | main.py:82-88 | no response, a missing `foods` list or an empty one gives `{}`; otherwise the result is the first candidate of greatest score, a missing score counting as 0 |
| `NutrientExtractor.Classify` | main.py:105-120 | an entry goes to the first rule, in the source's order, whose test holds, and to no key when none holds; calories exactly when the name has "energy" and the unit has "kcal"; a name with "protein" never goes below protein |
| `NutrientExtractor.ExtractNutrients` | main.py:96-122 | the loop builds exactly the dictionary of the entries' writes in list order; its keys are among the eight; a missing `foodNutrients` list gives `{}` |
| `NutrientExtractor.ExtractedKeys` | main.py:98-122 | the extracted keys are among the eight, and a key is present exactly when some entry is classified to it |
| `NutrientExtractor.LastWriteWins` | main.py:99-120 | a key's value is the value of the last entry classified to it; earlier values are overwritten, not summed |
| `NutrientExtractor.UnmatchedEntryIgnored` | main.py:105-120 | an entry that matches no rule changes nothing, wherever it stands in the list |
| `NutrientExtractor.WritesAppend` | main.py:99 | the writes of a concatenated entry list are the writes of each part in order |
| `NutrientExtractor.AppliedKeys` | main.py:106-120 | after any sequence of writes, the keys present are among the eight and are exactly the ones written |
| `NutrientExtractor.AppliedLastWrite` | main.py:106-120 | after any sequence of writes, a key holds the value of the last write to it |
| `NutrientExtractor.AppliedSkipsNone` | main.py:105-120 | a write to no key, anywhere in the sequence, changes nothing |
| `MealAggregator.CalculateMealTotals` | main.py:124-143 | the result has exactly the eight keys, and each equals the sum over the items of the item's value for that key, or 0 where the item lacks it |
| `MealAggregator.AddItem` | main.py:138-141 | adding one item raises each of the eight totals by that item's value for the key (0 when absent) and adds no key |
| `MealAggregator.SumOfAppend` | main.py:137-141 | the total of a concatenation is the sum of the totals of its parts |
| `MealAggregator.SumOfPermutation` | main.py:137-141 | any reordering of the items gives the same total for a key |
| `MealAggregator.TotalsIgnoreOrder` | main.py:124-143 | any reordering of the items gives the same totals |
| `MealAggregator.SumOfWithoutKey` | main.py:126-141 | items that do not carry a key, or carry no nutrients at all, give a total of 0 for it; an empty meal totals 0 everywhere |
| `MealAggregator.SumOfBounds` | main.py:137-141 | with non-negative values every total is at least each item's value |
| `Agent.NutritionAgent` | main.py:187-229 | the run ends in exactly the outcome of `AgentOutcome`: no foods for an empty parse, no data when nothing resolved, else the totals of the resolved items and the narrative written from them |
| `Agent.ResolvedAppend` | main.py:199-217 | `meal_info` for a concatenated food list is that of each part in order |
| `Agent.ResolvedAreKept` | main.py:199-217 | every `meal_info` entry comes from an item with a non-empty name and a non-empty lookup, paired with the nutrients extracted from that lookup; `meal_info` is empty exactly when every item is skipped |
| `Agent.ResolvedInOrder` | main.py:199-217 | `meal_info` is exactly the entries of the kept items in list order: there is a strictly increasing list of positions, naming every item with a non-empty name and a non-empty lookup, whose items give the entries one for one |
| `Agent.KeptItemsAppear` | main.py:199-217 | every item with a non-empty name and a non-empty lookup has its entry, with the nutrients extracted from that lookup, in `meal_info` |
| `Agent.SkippedItemIsInvisible` | main.py:204-210 | an item with an empty name or an empty lookup leaves the outcome exactly as if it were absent, totals included, provided some other item remains (a list holding only skipped items gives "no data", the empty list "no foods") |
| `Agent.OutcomeCases` | main.py:192-225 | "no foods" exactly when the parse is empty, "no data" exactly when foods were parsed but all were skipped, and otherwise the totals have exactly the eight keys |

## Left out

- The calls to the text-generation service (main.py:17-23, 27-43, 145-185), including the
  prompt texts. Its two replies are parameters: `parseReply`, and `analyse` applied to the totals.
  The fallback string of `generate_analysis` is the constant `AnalysisFallback`.
- The HTTP request of `query_usda` (main.py:63-80, 89-94), with its parameters, timeout,
  status check and body decoding. Its outcome is the `search` parameter, which is `None` for
  any failure.
- `json.loads` (main.py:53) is the `decode` parameter. It yields a list of food items or
  fails. A decoded value of another JSON type (an object, a number) is not modelled.
- Loading credentials, every `print` (main.py:13-14, 44, 55, 58, 83, 90, 93, 184, 189, 196,
  209, 219, 226) and the console entry point (main.py:8-14, 231-241).
- Floating-point arithmetic: values are exact reals. The order independence of the totals
  therefore holds exactly here, whereas the source only gets it up to rounding.
- Unicode: `Strings.Lower` lower-cases ASCII letters only. `Strings.Strip` removes only space,
  tab, line feed, carriage return, vertical tab and form feed. Python's `lower` and `strip`
  cover all of Unicode.
- JSON values of an unexpected type, such as a non-numeric `value` or `score`, a `null`
  name, or a `foodNutrients` that is not a list. In the source these raise, or are caught by
  the broad `except` clauses.
