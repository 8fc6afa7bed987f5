/** The meal aggregator (`calculate_meal_totals`): the eight totals start at zero and each
    item's value is added for every one of the eight keys the item carries. Values are exact
    reals, so the floating-point rounding of the source is not part of the model. */
module MealAggregator {
  import opened Wrappers
  import opened Records
  import opened NutrientExtractor

  /** What an item adds to a key's total: its value when it has the key, else 0; an item
      without a nutrients dictionary reads as `{}`. */
  function Contribution(item: MealItem, key: string): real {
    var nutrients := item.nutrients.GetOr(map[]);
    if key in nutrients then nutrients[key] else 0.0
  }

  /** The sum of the contributions of `items` to `key`. */
  function SumOf(items: seq<MealItem>, key: string): real {
    if items == [] then 0.0 else SumOf(items[..|items| - 1], key) + Contribution(items[|items| - 1], key)
  }

  /** The meal totals: exactly the eight keys, each mapped to its sum. */
  function MealTotals(items: seq<MealItem>): map<string, real> {
    map k | k in KeySet :: SumOf(items, k)
  }

  /** `calculate_meal_totals`: a loop over the items; the loop over the eight keys inside it
      is `AddItem`. */
  method CalculateMealTotals(mealInfo: seq<MealItem>) returns (totals: map<string, real>)
    ensures totals.Keys == KeySet
    ensures forall k :: k in KeySet ==> totals[k] == SumOf(mealInfo, k)
    ensures totals == MealTotals(mealInfo)
  {
    totals := map k | k in KeySet :: 0.0;
    for i := 0 to |mealInfo|
      invariant totals.Keys == KeySet
      invariant forall m :: 0 <= m < |KeyOrder| ==> totals[KeyOrder[m]] == SumOf(mealInfo[..i], KeyOrder[m])
    {
      totals := AddItem(totals, mealInfo[i]);
      forall m | 0 <= m < |KeyOrder|
        ensures totals[KeyOrder[m]] == SumOf(mealInfo[..i + 1], KeyOrder[m])
      {
        SumOfStep(mealInfo, i, KeyOrder[m]);
      }
    }
    assert mealInfo[..|mealInfo|] == mealInfo;
    forall k | k in KeySet
      ensures totals[k] == SumOf(mealInfo, k)
    {
      var m :| 0 <= m < |KeyOrder| && KeyOrder[m] == k;
    }
  }

  /** The body of the item loop: each of the eight keys the item carries is added to its total;
      every other key of the item is ignored. */
  method AddItem(totals: map<string, real>, item: MealItem) returns (updated: map<string, real>)
    requires totals.Keys == KeySet
    ensures updated.Keys == KeySet
    ensures forall m :: 0 <= m < |KeyOrder| ==> updated[KeyOrder[m]] == totals[KeyOrder[m]] + Contribution(item, KeyOrder[m])
  {
    KeyOrderFacts();
    var nutrients := item.nutrients.GetOr(map[]);
    updated := totals;
    for j := 0 to |KeyOrder|
      invariant updated.Keys == totals.Keys
      invariant forall m :: 0 <= m < j ==> updated[KeyOrder[m]] == totals[KeyOrder[m]] + Contribution(item, KeyOrder[m])
      invariant forall m :: j <= m < |KeyOrder| ==> updated[KeyOrder[m]] == totals[KeyOrder[m]]
    {
      var key := KeyOrder[j];
      if key in nutrients {
        updated := updated[key := updated[key] + nutrients[key]];
      }
    }
  }

  /** One more item adds its contribution. */
  lemma SumOfStep(items: seq<MealItem>, i: nat, key: string)
    requires i < |items|
    ensures SumOf(items[..i + 1], key) == SumOf(items[..i], key) + Contribution(items[i], key)
  {
    assert items[..i + 1][..i] == items[..i];
  }

  /** Summing a concatenation sums the parts. */
  lemma {:induction false} SumOfAppend(a: seq<MealItem>, b: seq<MealItem>, key: string)
    ensures SumOf(a + b, key) == SumOf(a, key) + SumOf(b, key)
  {
    if b != [] {
      var b' := b[..|b| - 1];
      SumOfAppend(a, b', key);
      assert (a + b)[..|a + b| - 1] == a + b';
    } else {
      assert a + b == a;
    }
  }

  /** Taking one item out of a meal takes its contribution out of the sum. */
  lemma SumOfRemove(b: seq<MealItem>, j: nat, key: string)
    requires j < |b|
    ensures SumOf(b, key) == SumOf(b[..j] + b[j + 1..], key) + Contribution(b[j], key)
  {
    assert b == b[..j] + ([b[j]] + b[j + 1..]);
    SumOfAppend(b[..j], [b[j]] + b[j + 1..], key);
    SumOfAppend([b[j]], b[j + 1..], key);
    SumOfAppend(b[..j], b[j + 1..], key);
    assert SumOf([b[j]], key) == Contribution(b[j], key) by { assert [b[j]][..0] == []; }
  }

  /** The totals do not depend on the order of the items. */
  lemma {:induction false} SumOfPermutation(a: seq<MealItem>, b: seq<MealItem>, key: string)
    requires multiset(a) == multiset(b)
    ensures SumOf(a, key) == SumOf(b, key)
    decreases |a|
  {
    if a != [] {
      var last := a[|a| - 1];
      var a' := a[..|a| - 1];
      assert a == a' + [last];
      assert last in multiset(b);
      var j :| 0 <= j < |b| && b[j] == last;
      var b' := b[..j] + b[j + 1..];
      assert b == b[..j] + [last] + b[j + 1..];
      assert multiset(b') == multiset(b) - multiset{last};
      assert multiset(a') == multiset(a) - multiset{last};
      SumOfPermutation(a', b', key);
      SumOfRemove(b, j, key);
    } else {
      assert |multiset(b)| == 0;
    }
  }

  /** Reordering the meal leaves every total unchanged. */
  lemma TotalsIgnoreOrder(a: seq<MealItem>, b: seq<MealItem>)
    requires multiset(a) == multiset(b)
    ensures MealTotals(a) == MealTotals(b)
  {
    forall k | k in KeySet
      ensures SumOf(a, k) == SumOf(b, k)
    {
      SumOfPermutation(a, b, k);
    }
  }

  /** Items that do not carry a key contribute nothing to it; in particular an empty meal,
      or a meal whose items have no nutrients, totals 0 everywhere. */
  lemma {:induction false} SumOfWithoutKey(items: seq<MealItem>, key: string)
    requires forall i :: 0 <= i < |items| ==> items[i].nutrients.None? || key !in items[i].nutrients.value
    ensures SumOf(items, key) == 0.0
  {
    if items != [] {
      SumOfWithoutKey(items[..|items| - 1], key);
    }
  }

  /** With non-negative values every total is at least any single item's value. */
  lemma {:induction false} SumOfBounds(items: seq<MealItem>, key: string, i: nat)
    requires forall j :: 0 <= j < |items| ==> Contribution(items[j], key) >= 0.0
    requires i < |items|
    ensures SumOf(items, key) >= Contribution(items[i], key) >= 0.0
  {
    var init := items[..|items| - 1];
    if i < |items| - 1 {
      assert forall j :: 0 <= j < |init| ==> init[j] == items[j];
      SumOfBounds(init, key, i);
    } else if init != [] {
      assert forall j :: 0 <= j < |init| ==> init[j] == items[j];
      SumOfBounds(init, key, 0);
    }
  }
}
