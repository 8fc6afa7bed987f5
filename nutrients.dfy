/** The nutrient extractor (`extract_nutrients`): each entry of a food's nutrient list is
    classified, by an ordered chain of substring tests on its lower-cased name and unit,
    into one of eight nutrient keys or dropped; the last entry classified to a key gives
    that key's value. */
module NutrientExtractor {
  import opened Wrappers
  import opened Strings
  import opened Records

  datatype Nutrient = Calories | Protein | Fat | Carbohydrates | Fiber | Sugars | SaturatedFat | Sodium

  /** The dictionary key under which a nutrient is stored. */
  function Key(n: Nutrient): string {
    match n
    case Calories => "calories"
    case Protein => "protein"
    case Fat => "fat"
    case Carbohydrates => "carbohydrates"
    case Fiber => "fiber"
    case Sugars => "sugars"
    case SaturatedFat => "saturated_fat"
    case Sodium => "sodium"
  }

  /** The eight keys, in the order the source lists them. */
  const KeyOrder: seq<string> := ["calories", "protein", "fat", "carbohydrates", "fiber", "sugars", "saturated_fat", "sodium"]

  const KeySet: set<string> := set m | 0 <= m < |KeyOrder| :: KeyOrder[m]

  /** The eight keys are distinct and are exactly the members of `KeySet`. */
  lemma KeyOrderFacts()
    ensures forall m, n :: 0 <= m < n < |KeyOrder| ==> KeyOrder[m] != KeyOrder[n]
  {
    forall m, n | 0 <= m < n < |KeyOrder|
      ensures KeyOrder[m] != KeyOrder[n]
    {
      KeyInjective(RuleOrder[m]);
      assert Key(RuleOrder[m]) == KeyOrder[m] && Key(RuleOrder[n]) == KeyOrder[n];
    }
  }

  /** The rules in the order they are tried. */
  const RuleOrder: seq<Nutrient> := [Calories, Protein, Fat, Carbohydrates, Fiber, Sugars, SaturatedFat, Sodium]

  /** The position of a nutrient's rule in `RuleOrder`. */
  function Rank(n: Nutrient): (i: nat)
    ensures i < |RuleOrder| && RuleOrder[i] == n
    ensures KeyOrder[i] == Key(n)
  {
    match n
    case Calories => 0
    case Protein => 1
    case Fat => 2
    case Carbohydrates => 3
    case Fiber => 4
    case Sugars => 5
    case SaturatedFat => 6
    case Sodium => 7
  }

  /** The test of one rule, taken on its own; `name` and `unit` are already lower-cased. */
  predicate RuleHolds(n: Nutrient, name: string, unit: string) {
    match n
    case Calories => Contains(name, "energy") && Contains(unit, "kcal")
    case Protein => Contains(name, "protein")
    case Fat => Contains(name, "total lipid") || Contains(name, "total fat")
    case Carbohydrates => Contains(name, "carbohydrate") && Contains(name, "by difference")
    case Fiber => Contains(name, "fiber") && Contains(name, "total dietary")
    case Sugars => Contains(name, "sugars") && Contains(name, "total")
    case SaturatedFat => Contains(name, "fatty acids") && Contains(name, "saturated")
    case Sodium => Contains(name, "sodium")
  }

  /** The `if`/`elif` chain: the entry goes to the first rule, in `RuleOrder`, whose test
      holds, and to no key when none holds. */
  function Classify(name: string, unit: string): (r: Option<Nutrient>)
    ensures r.Some? ==> RuleHolds(r.value, name, unit)
    ensures r.Some? ==> forall j :: 0 <= j < Rank(r.value) ==> !RuleHolds(RuleOrder[j], name, unit)
    ensures r.None? ==> forall n :: !RuleHolds(n, name, unit)
    ensures r == Some(Calories) <==> Contains(name, "energy") && Contains(unit, "kcal")
    ensures Contains(name, "protein") ==> r == Some(Calories) || r == Some(Protein)
  {
    if Contains(name, "energy") && Contains(unit, "kcal") then Some(Calories)
    else if Contains(name, "protein") then Some(Protein)
    else if Contains(name, "total lipid") || Contains(name, "total fat") then Some(Fat)
    else if Contains(name, "carbohydrate") && Contains(name, "by difference") then Some(Carbohydrates)
    else if Contains(name, "fiber") && Contains(name, "total dietary") then Some(Fiber)
    else if Contains(name, "sugars") && Contains(name, "total") then Some(Sugars)
    else if Contains(name, "fatty acids") && Contains(name, "saturated") then Some(SaturatedFat)
    else if Contains(name, "sodium") then Some(Sodium)
    else None
  }

  /** The classification of one entry: a missing name or unit reads as "". */
  function ClassifyEntry(e: NutrientEntry): Option<Nutrient> {
    Classify(Lower(e.nutrientName.GetOr("")), Lower(e.unitName.GetOr("")))
  }

  /** The value stored for an entry: a missing value reads as 0. */
  function EntryValue(e: NutrientEntry): real {
    e.value.GetOr(0.0)
  }

  /** A food record's nutrient list; a missing list reads as empty. */
  function Entries(r: FoodRecord): seq<NutrientEntry> {
    r.foodNutrients.GetOr([])
  }

  /** What one entry does to the dictionary: the key it writes, if any, and the value written. */
  datatype Write = Write(target: Option<Nutrient>, value: real)

  function EntryWrite(e: NutrientEntry): Write {
    Write(ClassifyEntry(e), EntryValue(e))
  }

  /** The writes of a list of entries, in list order. */
  function Writes(es: seq<NutrientEntry>): (ws: seq<Write>)
    ensures |ws| == |es|
  {
    if es == [] then [] else Writes(es[..|es| - 1]) + [EntryWrite(es[|es| - 1])]
  }

  /** The write at position `i` is the write of the entry at position `i`. */
  lemma {:induction false} WriteAt(es: seq<NutrientEntry>, i: nat)
    requires i < |es|
    ensures Writes(es)[i] == EntryWrite(es[i])
  {
    if i < |es| - 1 {
      WriteAt(es[..|es| - 1], i);
    }
  }

  lemma {:induction false} WritesAppend(a: seq<NutrientEntry>, b: seq<NutrientEntry>)
    ensures Writes(a + b) == Writes(a) + Writes(b)
  {
    if b == [] {
      assert a + b == a;
    } else {
      var b' := b[..|b| - 1];
      WritesAppend(a, b');
      assert (a + b)[..|a + b| - 1] == a + b';
      assert (a + b)[|a + b| - 1] == b[|b| - 1];
    }
  }

  /** The dictionary after the writes `ws` have been carried out in order, starting from `{}`. */
  function Applied(ws: seq<Write>): map<string, real> {
    if ws == [] then map[]
    else
      var m := Applied(ws[..|ws| - 1]);
      var w := ws[|ws| - 1];
      match w.target
      case None => m
      case Some(n) => m[Key(n) := w.value]
  }

  /** The dictionary `extract_nutrients` builds from the entries `es`. */
  function Extracted(es: seq<NutrientEntry>): map<string, real> {
    Applied(Writes(es))
  }

  /** `extract_nutrients`: fills the dictionary entry by entry. */
  method ExtractNutrients(usdaData: FoodRecord) returns (nutrients: map<string, real>)
    ensures nutrients == Extracted(Entries(usdaData))
    ensures nutrients.Keys <= KeySet
    ensures usdaData.foodNutrients.None? ==> nutrients == map[]
  {
    var es := Entries(usdaData);
    nutrients := map[];
    for i := 0 to |es|
      invariant nutrients == Applied(Writes(es[..i]))
    {
      var entry := es[i];
      var name := Lower(entry.nutrientName.GetOr(""));
      var value := entry.value.GetOr(0.0);
      var unit := Lower(entry.unitName.GetOr(""));
      assert es[..i + 1][..i] == es[..i];
      // the rule chain picks at most one key; an entry that matches no rule adds nothing
      match Classify(name, unit)
      case Some(n) => nutrients := nutrients[Key(n) := value];
      case None =>
    }
    assert es[..|es|] == es;
    AppliedKeys(Writes(es));
  }

  /** Only the eight keys ever appear, and a key appears exactly when some write targets it. */
  lemma {:induction false} AppliedKeys(ws: seq<Write>)
    ensures Applied(ws).Keys <= KeySet
    ensures forall n :: Key(n) in Applied(ws) <==> exists i :: 0 <= i < |ws| && ws[i].target == Some(n)
  {
    if ws != [] {
      var init := ws[..|ws| - 1];
      AppliedKeys(init);
      if ws[|ws| - 1].target.Some? {
        KeyInKeySet(ws[|ws| - 1].target.value);
      }
      forall n
        ensures Key(n) in Applied(ws) <==> exists i :: 0 <= i < |ws| && ws[i].target == Some(n)
      {
        if Key(n) in Applied(ws) && ws[|ws| - 1].target != Some(n) {
          KeyInjective(n);
          var i :| 0 <= i < |init| && init[i].target == Some(n);
          assert ws[i] == init[i];
        }
        if i :| 0 <= i < |ws| && ws[i].target == Some(n) {
          if i < |init| {
            assert init[i] == ws[i];
          }
        }
      }
    }
  }

  /** Every nutrient's key is one of the eight. */
  lemma KeyInKeySet(n: Nutrient)
    ensures Key(n) in KeySet
  {
    assert KeyOrder[Rank(n)] == Key(n);
  }

  /** Different nutrients have different keys. */
  lemma KeyInjective(n: Nutrient)
    ensures forall m :: Key(m) == Key(n) ==> m == n
  {
  }

  /** The value under a key is the value of the last write to it. */
  lemma {:induction false} AppliedLastWrite(ws: seq<Write>, n: Nutrient, i: nat)
    requires i < |ws| && ws[i].target == Some(n)
    requires forall j :: i < j < |ws| ==> ws[j].target != Some(n)
    ensures Key(n) in Applied(ws) && Applied(ws)[Key(n)] == ws[i].value
  {
    var init := ws[..|ws| - 1];
    if i < |ws| - 1 {
      assert init[i] == ws[i];
      AppliedLastWrite(init, n, i);
      KeyInjective(n);
    }
  }

  /** A write that targets no key changes nothing, wherever it stands. */
  lemma {:induction false} AppliedSkipsNone(a: seq<Write>, w: Write, b: seq<Write>)
    requires w.target.None?
    ensures Applied(a + [w] + b) == Applied(a + b)
  {
    if b == [] {
      assert (a + [w] + b)[..|a|] == a;
      assert a + b == a;
    } else {
      var b' := b[..|b| - 1];
      AppliedSkipsNone(a, w, b');
      assert (a + [w] + b)[..|a + [w] + b| - 1] == a + [w] + b';
      assert (a + b)[..|a + b| - 1] == a + b';
    }
  }

  /** The keys of the extracted dictionary are among the eight, and a key is present exactly
      when some entry is classified to it. */
  lemma ExtractedKeys(es: seq<NutrientEntry>)
    ensures Extracted(es).Keys <= KeySet
    ensures forall n :: Key(n) in Extracted(es) <==> exists i :: 0 <= i < |es| && ClassifyEntry(es[i]) == Some(n)
  {
    var ws := Writes(es);
    AppliedKeys(ws);
    forall n
      ensures (exists i :: 0 <= i < |ws| && ws[i].target == Some(n))
          <==> (exists i :: 0 <= i < |es| && ClassifyEntry(es[i]) == Some(n))
    {
      if i :| 0 <= i < |es| && ClassifyEntry(es[i]) == Some(n) {
        WriteAt(es, i);
      }
      if i :| 0 <= i < |ws| && ws[i].target == Some(n) {
        WriteAt(es, i);
      }
    }
  }

  /** Last write wins: the value under a key is the value of the last entry classified to it;
      the values of earlier entries of that key are overwritten, never added. */
  lemma LastWriteWins(es: seq<NutrientEntry>, n: Nutrient, i: nat)
    requires i < |es| && ClassifyEntry(es[i]) == Some(n)
    requires forall j :: i < j < |es| ==> ClassifyEntry(es[j]) != Some(n)
    ensures Key(n) in Extracted(es) && Extracted(es)[Key(n)] == EntryValue(es[i])
  {
    var ws := Writes(es);
    forall j | i < j < |ws|
      ensures ws[j].target != Some(n)
    {
      WriteAt(es, j);
    }
    WriteAt(es, i);
    AppliedLastWrite(ws, n, i);
  }

  /** An entry that matches no rule adds nothing, wherever it stands in the list. */
  lemma UnmatchedEntryIgnored(a: seq<NutrientEntry>, e: NutrientEntry, b: seq<NutrientEntry>)
    requires ClassifyEntry(e).None?
    ensures Extracted(a + [e] + b) == Extracted(a + b)
  {
    WritesAppend(a + [e], b);
    WritesAppend(a, [e]);
    WritesAppend(a, b);
    assert Writes([e]) == [EntryWrite(e)] by { assert [e][..0] == []; }
    AppliedSkipsNone(Writes(a), EntryWrite(e), Writes(b));
  }
}
