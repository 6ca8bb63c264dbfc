/**
 * The per-item normaliser of the ingestion task, `save_or_update_recipe`
 * (recipes/tasks.py), up to the record handed to `update_or_create`, and the
 * nutrient mapping of `create_or_update_nutrition`.
 *
 * A search result is a JSON object; `Item` keeps the keys the normaliser
 * reads.  A list-valued key that is missing is the empty list, which Python
 * treats the same way (`item.get(key, [])`, and `not` of a missing or empty
 * list).  The HTML cleaner that the code calls is a parameter `cleanHtml`.
 */
module ItemNormaliser {
  import opened Wrappers
  import opened PyText
  import opened TextCleaning
  import opened RecipeModels

  /** One entry of an ingredient list; `NoIngredient` is a falsy entry (`{}` or `null`). */
  datatype Ingredient =
    | NoIngredient
    | Ingredient(original: Option<string>, name: Option<string>, originalString: Option<string>)

  datatype Step = Step(number: int, text: string)

  /** One element of `analyzedInstructions`; a missing `steps` key is the empty list. */
  datatype StepGroup = StepGroup(steps: seq<Step>)

  datatype Nutrient = Nutrient(name: string, amount: real)

  datatype Item = Item(
    id: int,
    title: Option<string>,
    dishTypes: seq<string>,
    diets: seq<string>,
    extendedIngredients: seq<Ingredient>,
    usedIngredients: seq<Ingredient>,
    missedIngredients: seq<Ingredient>,
    analyzedInstructions: seq<StepGroup>,
    instructions: Option<string>,
    /** `None`: no "nutrition" key; otherwise its "nutrients" list. */
    nutrition: Option<seq<Nutrient>>,
    /** `None` for the next three: the key is absent (a JSON `null` is not modelled). */
    summary: Option<string>,
    readyInMinutes: Option<int>,
    servings: Option<int>,
    image: Option<string>)

  /** Python truthiness of an optional string: present and not "". */
  predicate Truthy(s: Option<string>) {
    s.Some? && s.value != ""
  }

  // ---------------------------------------------------------------------------
  // Completeness check
  // ---------------------------------------------------------------------------

  /** The three reasons to skip an item. */
  predicate Incomplete(item: Item) {
    || item.extendedIngredients == []
    || (item.analyzedInstructions == [] && !Truthy(item.instructions))
    || item.nutrition == None
  }

  // ---------------------------------------------------------------------------
  // Category and diet
  // ---------------------------------------------------------------------------

  /** `dt.lower()`, the form in which a dish type is looked up. */
  function CategoryKey(dt: string): string {
    Lower(dt)
  }

  /** `d.lower().replace("-", "_")`, the form in which a diet is looked up. */
  function DietKey(d: string): string {
    ReplaceChar(Lower(d), '-', '_')
  }

  /** The label chosen from `labels`: the normalised form of the first label whose
      normalised form is a key of the table, or "none". */
  function FirstLabel(labels: seq<string>, norm: string -> string, keys: set<string>): string {
    if labels == [] then NoLabel
    else if norm(labels[0]) in keys then norm(labels[0])
    else FirstLabel(labels[1..], norm, keys)
  }

  /** The first matching label wins, and "none" is the answer exactly when no label matches
      (or when the first match is itself "none"). */
  lemma {:induction false} FirstLabelSpec(labels: seq<string>, norm: string -> string, keys: set<string>)
    ensures FirstLabel(labels, norm, keys) == NoLabel || FirstLabel(labels, norm, keys) in keys
    ensures (forall i :: 0 <= i < |labels| ==> norm(labels[i]) !in keys) ==> FirstLabel(labels, norm, keys) == NoLabel
    ensures (exists i :: 0 <= i < |labels| && norm(labels[i]) in keys) ==>
      exists i :: 0 <= i < |labels| && norm(labels[i]) in keys
        && FirstLabel(labels, norm, keys) == norm(labels[i])
        && forall j :: 0 <= j < i ==> norm(labels[j]) !in keys
  {
    if labels != [] && norm(labels[0]) !in keys {
      var rest := labels[1..];
      FirstLabelSpec(rest, norm, keys);
      assert forall i :: 0 <= i < |rest| ==> rest[i] == labels[i + 1];
      if exists i :: 0 <= i < |labels| && norm(labels[i]) in keys {
        var i :| 0 <= i < |labels| && norm(labels[i]) in keys;
        assert norm(rest[i - 1]) in keys;
        var k :| 0 <= k < |rest| && norm(rest[k]) in keys
          && FirstLabel(rest, norm, keys) == norm(rest[k])
          && forall j :: 0 <= j < k ==> norm(rest[j]) !in keys;
        assert forall j :: 0 <= j < k + 1 ==> norm(labels[j]) !in keys by {
          forall j | 0 <= j < k + 1 ensures norm(labels[j]) !in keys {
            if j > 0 { assert labels[j] == rest[j - 1]; }
          }
        }
      }
    }
  }

  /** The early-break `for` loops over `dishTypes` and `diets`. */
  method MapLabel(labels: seq<string>, norm: string -> string, keys: set<string>) returns (chosen: string)
    ensures chosen == FirstLabel(labels, norm, keys)
  {
    chosen := NoLabel;
    var i := 0;
    while i < |labels|
      invariant 0 <= i <= |labels|
      invariant FirstLabel(labels[i..], norm, keys) == FirstLabel(labels, norm, keys)
      invariant chosen == NoLabel
    {
      var key := norm(labels[i]);
      if key in keys {
        chosen := key;
        break;
      }
      assert labels[i..][1..] == labels[i + 1..];
      i := i + 1;
    }
  }

  /** The category is a stored value of the category table, or "none" exactly when no
      dish type lower-cases to one. */
  lemma CategoryOfItem(dishTypes: seq<string>)
    ensures var c := FirstLabel(dishTypes, CategoryKey, Keys(CategoryChoices));
      (c == NoLabel || c in Keys(CategoryChoices))
      && (c == NoLabel <==> forall i :: 0 <= i < |dishTypes| ==> CategoryKey(dishTypes[i]) !in Keys(CategoryChoices))
  {
    FirstLabelSpec(dishTypes, CategoryKey, Keys(CategoryChoices));
    CategoryTableShape();
  }

  /** The diet is always a stored value of the diet table, "none" included. */
  lemma DietOfItem(diets: seq<string>)
    ensures FirstLabel(diets, DietKey, Keys(DietChoices)) in Keys(DietChoices)
  {
    FirstLabelSpec(diets, DietKey, Keys(DietChoices));
    DietTableShape();
  }

  /** The spelling used by the search service, "Gluten-Free", maps to "gluten_free". */
  lemma GlutenFreeDiet()
    ensures DietKey("Gluten-Free") == "gluten_free"
    ensures FirstLabel(["Gluten-Free"], DietKey, Keys(DietChoices)) == "gluten_free"
  {
    var d := "Gluten-Free";
    assert Lower(d) == "gluten-free";
    assert DietKey(d) == "gluten_free";
    assert DietChoices[2].0 == "gluten_free";
  }

  // ---------------------------------------------------------------------------
  // Ingredients
  // ---------------------------------------------------------------------------

  /** `ing.get("original") or ing.get("name") or ing.get("originalString", "")`. */
  function IngredientText(ing: Ingredient): string
    requires ing.Ingredient?
  {
    if Truthy(ing.original) then ing.original.value
    else if Truthy(ing.name) then ing.name.value
    else ing.originalString.GetOr("")
  }

  /** The comprehension `[(...).strip() for ing in raw_ingredients if ing]`. */
  function IngredientLines(ings: seq<Ingredient>): seq<string> {
    if ings == [] then []
    else (if ings[0].NoIngredient? then [] else [Strip(IngredientText(ings[0]))]) + IngredientLines(ings[1..])
  }

  /** The number of truthy entries. */
  function PresentCount(ings: seq<Ingredient>): nat {
    if ings == [] then 0 else (if ings[0].NoIngredient? then 0 else 1) + PresentCount(ings[1..])
  }

  const NoIngredientsText: string := "Ingredients not available."

  /** The list the lines are taken from: `extendedIngredients`, or the used and missed
      ingredients when it is empty. */
  function RawIngredients(item: Item): seq<Ingredient> {
    if item.extendedIngredients != [] then item.extendedIngredients
    else item.usedIngredients + item.missedIngredients
  }

  /** The stored `ingredients` text. */
  function IngredientsText(ings: seq<Ingredient>): string {
    var lines := IngredientLines(ings);
    if lines == [] then NoIngredientsText else JoinLines(lines)
  }

  /** Lines follow the input order: the lines of a concatenation are the concatenated lines. */
  lemma {:induction false} IngredientLinesAppend(a: seq<Ingredient>, b: seq<Ingredient>)
    ensures IngredientLines(a + b) == IngredientLines(a) + IngredientLines(b)
    ensures PresentCount(a + b) == PresentCount(a) + PresentCount(b)
  {
    if a == [] {
      assert a + b == b;
    } else {
      assert (a + b)[0] == a[0] && (a + b)[1..] == a[1..] + b;
      IngredientLinesAppend(a[1..], b);
    }
  }

  /** One line per truthy entry, each without whitespace at either end. */
  lemma {:induction false} IngredientLinesShape(ings: seq<Ingredient>)
    ensures |IngredientLines(ings)| == PresentCount(ings)
    ensures forall line :: line in IngredientLines(ings) ==> NoEdgeSpace(line)
  {
    if ings != [] {
      IngredientLinesShape(ings[1..]);
      var rest := IngredientLines(ings[1..]);
      if ings[0].Ingredient? {
        var head := Strip(IngredientText(ings[0]));
        StripNoEdge(IngredientText(ings[0]));
        assert IngredientLines(ings) == [head] + rest;
      } else {
        assert IngredientLines(ings) == rest;
      }
    }
  }

  /** An ingredient list with no truthy entry is stored as "Ingredients not available.";
      otherwise, when no line holds a line break, splitting the stored text at line
      breaks gives back the lines. */
  lemma IngredientsTextRoundTrip(ings: seq<Ingredient>)
    ensures PresentCount(ings) == 0 ==> IngredientsText(ings) == NoIngredientsText
    ensures PresentCount(ings) > 0
        && (forall i :: 0 <= i < |IngredientLines(ings)| ==> '\n' !in IngredientLines(ings)[i])
        ==> SplitLines(IngredientsText(ings)) == IngredientLines(ings)
  {
    IngredientLinesShape(ings);
    if PresentCount(ings) > 0 && forall i :: 0 <= i < |IngredientLines(ings)| ==> '\n' !in IngredientLines(ings)[i] {
      SplitJoinRoundTrip(IngredientLines(ings));
    }
  }

  /** The fallback to used and missed ingredients is never taken for an item that passes
      the completeness check. */
  lemma IngredientFallbackUnused(item: Item)
    requires !Incomplete(item)
    ensures RawIngredients(item) == item.extendedIngredients
  {
  }

  // ---------------------------------------------------------------------------
  // Instructions
  // ---------------------------------------------------------------------------

  /** `f"{step['number']}. {step['step']}"`. */
  function StepLine(s: Step): string {
    IntToString(s.number) + ". " + s.text
  }

  /** The lines appended for the steps of one group, in order. */
  function GroupLines(steps: seq<Step>): seq<string> {
    if steps == [] then [] else GroupLines(steps[..|steps| - 1]) + [StepLine(steps[|steps| - 1])]
  }

  /** The lines appended for all groups, group after group. */
  function StepLines(groups: seq<StepGroup>): seq<string> {
    if groups == [] then [] else StepLines(groups[..|groups| - 1]) + GroupLines(groups[|groups| - 1].steps)
  }

  function StepCount(groups: seq<StepGroup>): nat {
    if groups == [] then 0 else StepCount(groups[..|groups| - 1]) + |groups[|groups| - 1].steps|
  }

  /** Line `k` of a group is the `k`-th step, numbered. */
  lemma {:induction false} GroupLinesSpec(steps: seq<Step>)
    ensures |GroupLines(steps)| == |steps|
    ensures forall k :: 0 <= k < |steps| ==> GroupLines(steps)[k] == StepLine(steps[k])
  {
    if steps != [] {
      var init := steps[..|steps| - 1];
      GroupLinesSpec(init);
      assert forall k :: 0 <= k < |init| ==> init[k] == steps[k];
    }
  }

  /** One line per step, and the lines of consecutive groups follow each other. */
  lemma {:induction false} StepLinesAppend(a: seq<StepGroup>, b: seq<StepGroup>)
    ensures StepLines(a + b) == StepLines(a) + StepLines(b)
    ensures StepCount(a + b) == StepCount(a) + StepCount(b)
    decreases |b|
  {
    if b != [] {
      var b' := b[..|b| - 1];
      assert (a + b)[..|a + b| - 1] == a + b';
      assert (a + b)[|a + b| - 1] == b[|b| - 1];
      StepLinesAppend(a, b');
    } else {
      assert a + b == a;
    }
  }

  lemma {:induction false} StepLinesCount(groups: seq<StepGroup>)
    ensures |StepLines(groups)| == StepCount(groups)
  {
    if groups != [] {
      StepLinesCount(groups[..|groups| - 1]);
      GroupLinesSpec(groups[|groups| - 1].steps);
    }
  }

  /** The nested loops that append one "n. text" line per step. */
  method StructuredSteps(groups: seq<StepGroup>) returns (lines: seq<string>)
    ensures lines == StepLines(groups)
  {
    lines := [];
    var i := 0;
    while i < |groups|
      invariant 0 <= i <= |groups|
      invariant lines == StepLines(groups[..i])
    {
      var steps := groups[i].steps;
      ghost var before := StepLines(groups[..i]);
      var j := 0;
      while j < |steps|
        invariant 0 <= j <= |steps|
        invariant lines == before + GroupLines(steps[..j])
      {
        assert steps[..j + 1][..j] == steps[..j];
        assert GroupLines(steps[..j + 1]) == GroupLines(steps[..j]) + [StepLine(steps[j])];
        lines := lines + [StepLine(steps[j])];
        j := j + 1;
      }
      assert steps[..j] == steps;
      assert groups[..i + 1][..i] == groups[..i];
      assert StepLines(groups[..i + 1]) == before + GroupLines(steps);
      i := i + 1;
    }
    assert groups[..i] == groups;
  }

  const NoInstructionsText: string := "No instructions available."

  /** The `instructions` list before it is joined: numbered steps when
      `analyzedInstructions` is non-empty, else the steps found in the cleaned
      free text, else the placeholder line. */
  function InstructionLines(item: Item, cleanHtml: string -> string): seq<string> {
    if item.analyzedInstructions != [] then StepLines(item.analyzedInstructions)
    else if Truthy(item.instructions) then FreeTextSteps(cleanHtml(item.instructions.value))
    else [NoInstructionsText]
  }

  /** For an item that passes the completeness check the placeholder branch is never
      taken: the lines come from the structured steps or from the free text. */
  lemma InstructionPlaceholderUnused(item: Item, cleanHtml: string -> string)
    requires !Incomplete(item)
    ensures item.analyzedInstructions != [] ==> InstructionLines(item, cleanHtml) == StepLines(item.analyzedInstructions)
    ensures item.analyzedInstructions == [] ==>
      InstructionLines(item, cleanHtml) == FreeTextSteps(cleanHtml(item.instructions.value))
  {
  }

  // ---------------------------------------------------------------------------
  // Nutrients (create_or_update_nutrition)
  // ---------------------------------------------------------------------------

  /** `{n["name"].lower(): n["amount"] for n in nutrients}`: a later entry with the same
      lower-cased name overwrites an earlier one. */
  function NutrientMap(ns: seq<Nutrient>): map<string, real> {
    if ns == [] then map[]
    else NutrientMap(ns[..|ns| - 1])[Lower(ns[|ns| - 1].name) := ns[|ns| - 1].amount]
  }

  /** `nutrient_map.get(key, 0.0)`. */
  function AmountOf(m: map<string, real>, key: string): real {
    if key in m then m[key] else 0.0
  }

  /** The `defaults` record: each field looks up its own nutrient name. */
  function NutritionFrom(ns: seq<Nutrient>): Nutrition {
    var m := NutrientMap(ns);
    Nutrition(
      caloriesKcal := AmountOf(m, "calories"),
      protein := AmountOf(m, "protein"),
      fat := AmountOf(m, "fat"),
      carbs := AmountOf(m, "carbohydrates"),
      fiber := AmountOf(m, "fiber"),
      sugars := AmountOf(m, "sugar"),
      sodium := AmountOf(m, "sodium"),
      cholesterol := AmountOf(m, "cholesterol"),
      calcium := AmountOf(m, "calcium"),
      iron := AmountOf(m, "iron"),
      vitaminC := AmountOf(m, "vitamin c"))
  }

  /** A name is mapped exactly when some nutrient carries it, lower-cased. */
  lemma {:induction false} NutrientMapDomain(ns: seq<Nutrient>, key: string)
    ensures key in NutrientMap(ns) <==> exists i :: 0 <= i < |ns| && Lower(ns[i].name) == key
  {
    if ns != [] {
      var init := ns[..|ns| - 1];
      NutrientMapDomain(init, key);
      assert forall i :: 0 <= i < |init| ==> init[i] == ns[i];
      if Lower(ns[|ns| - 1].name) != key && exists i :: 0 <= i < |ns| && Lower(ns[i].name) == key {
        var i :| 0 <= i < |ns| && Lower(ns[i].name) == key;
        assert i < |init| && Lower(init[i].name) == key;
      }
    }
  }

  /** A mapped name holds the amount of the last nutrient that carries it. */
  lemma {:induction false} NutrientMapLastWins(ns: seq<Nutrient>, key: string, i: nat)
    requires i < |ns| && Lower(ns[i].name) == key
    requires forall j :: i < j < |ns| ==> Lower(ns[j].name) != key
    ensures key in NutrientMap(ns) && NutrientMap(ns)[key] == ns[i].amount
  {
    var init := ns[..|ns| - 1];
    if i < |ns| - 1 {
      assert forall j :: i < j < |init| ==> init[j] == ns[j];
      NutrientMapLastWins(init, key, i);
    }
  }

  lemma {:induction false} NutrientMapValues(ns: seq<Nutrient>)
    requires forall i :: 0 <= i < |ns| ==> ns[i].amount >= 0.0
    ensures forall k :: k in NutrientMap(ns) ==> NutrientMap(ns)[k] >= 0.0
  {
    if ns != [] {
      NutrientMapValues(ns[..|ns| - 1]);
    }
  }

  /** Non-negative amounts give a record that passes the field validators; no nutrient
      at all gives the all-zero default. */
  lemma NutritionFromValid(ns: seq<Nutrient>)
    requires forall i :: 0 <= i < |ns| ==> ns[i].amount >= 0.0
    ensures ValidNutrition(NutritionFrom(ns))
    ensures ns == [] ==> NutritionFrom(ns) == DefaultNutrition
  {
    NutrientMapValues(ns);
  }

  /** The service's "Carbohydrates" fills `carbs`; a later "carbohydrates" entry overrides it. */
  lemma CarbsExample(a: real, b: real)
    ensures NutritionFrom([Nutrient("Carbohydrates", a)]).carbs == a
    ensures NutritionFrom([Nutrient("Carbohydrates", a), Nutrient("carbohydrates", b)]).carbs == b
  {
    assert Lower("Carbohydrates") == "carbohydrates";
    assert Lower("carbohydrates") == "carbohydrates";
    var two := [Nutrient("Carbohydrates", a), Nutrient("carbohydrates", b)];
    assert two[..1] == [Nutrient("Carbohydrates", a)];
  }

  /** "Sugar" fills `sugars` and "Vitamin C" fills `vitamin_c`; fields without a nutrient stay 0.0. */
  lemma SugarVitaminExample(a: real, b: real)
    ensures NutritionFrom([Nutrient("Sugar", a), Nutrient("Vitamin C", b)]).sugars == a
    ensures NutritionFrom([Nutrient("Sugar", a), Nutrient("Vitamin C", b)]).vitaminC == b
    ensures NutritionFrom([Nutrient("Sugar", a), Nutrient("Vitamin C", b)]).protein == 0.0
  {
    assert Lower("Sugar") == "sugar";
    assert Lower("Vitamin C") == "vitamin c";
    var two := [Nutrient("Sugar", a), Nutrient("Vitamin C", b)];
    assert two[..1] == [Nutrient("Sugar", a)];
    var one := two[..1];
    assert one[..0] == [];
    assert NutrientMap(one) == map["sugar" := a];
    var m := NutrientMap(two);
    assert m == NutrientMap(one)["vitamin c" := b];
    assert "protein" !in m;
  }

  // ---------------------------------------------------------------------------
  // The record passed to update_or_create
  // ---------------------------------------------------------------------------

  /** The `defaults` of `update_or_create`; `author` is the id of the user the
      recipe belongs to, and fetched recipes belong to nobody. */
  datatype RecipeDefaults = RecipeDefaults(
    title: Option<string>,
    category: string,
    diet: string,
    cookingTime: int,
    imageUrl: Option<string>,
    ingredients: string,
    servings: int,
    instructions: string,
    description: string,
    author: Option<nat>)

  datatype SaveResult =
    | Skipped
    | Saved(apiId: int, recipe: RecipeDefaults, nutrition: Nutrition)

  /** What `save_or_update_recipe` computes for one item, given the HTML cleaner. */
  function Normalise(item: Item, cleanHtml: string -> string): SaveResult {
    if Incomplete(item) then Skipped
    else
      Saved(item.id,
        RecipeDefaults(
          title := item.title,
          category := FirstLabel(item.dishTypes, CategoryKey, Keys(CategoryChoices)),
          diet := FirstLabel(item.diets, DietKey, Keys(DietChoices)),
          cookingTime := item.readyInMinutes.GetOr(0),
          imageUrl := item.image,
          ingredients := IngredientsText(RawIngredients(item)),
          servings := item.servings.GetOr(0),
          instructions := JoinLines(InstructionLines(item, cleanHtml)),
          description := item.summary.GetOr(""),
          author := None),
        NutritionFrom(item.nutrition.value))
  }

  /** `save_or_update_recipe` up to the record handed to `update_or_create`. */
  method NormaliseItem(item: Item, cleanHtml: string -> string) returns (r: SaveResult)
    ensures r == Normalise(item, cleanHtml)
  {
    if item.extendedIngredients == [] || (item.analyzedInstructions == [] && !Truthy(item.instructions))
      || item.nutrition == None {
      return Skipped;
    }
    var category := MapLabel(item.dishTypes, CategoryKey, Keys(CategoryChoices));
    var diet := MapLabel(item.diets, DietKey, Keys(DietChoices));
    var raw := item.extendedIngredients;
    if raw == [] {
      raw := item.usedIngredients + item.missedIngredients;
    }
    var ingredients := IngredientsText(raw);
    var lines: seq<string>;
    if item.analyzedInstructions != [] {
      lines := StructuredSteps(item.analyzedInstructions);
    } else if Truthy(item.instructions) {
      lines := FreeTextSteps(cleanHtml(item.instructions.value));
    } else {
      lines := [NoInstructionsText];
    }
    var defaults := RecipeDefaults(
      item.title, category, diet, item.readyInMinutes.GetOr(0), item.image, ingredients,
      item.servings.GetOr(0), JoinLines(lines), item.summary.GetOr(""), None);
    r := Saved(item.id, defaults, NutritionFrom(item.nutrition.value));
  }

  /** The store key of a result: complete items are saved under their own id. */
  lemma NormaliseKey(item: Item, cleanHtml: string -> string)
    ensures Normalise(item, cleanHtml).Saved? <==> !Incomplete(item)
    ensures Normalise(item, cleanHtml).Saved? ==> Normalise(item, cleanHtml).apiId == item.id
  {
  }

  /** An item is skipped exactly when it fails the completeness check.  A saved record
      is keyed by the item's id, its category and diet are stored values of their
      tables (or "none"), its description is the raw summary, and its nutrition is
      the mapped nutrient list. */
  lemma NormaliseSpec(item: Item, cleanHtml: string -> string)
    ensures Normalise(item, cleanHtml).Skipped? <==> Incomplete(item)
    ensures Normalise(item, cleanHtml).Saved? ==>
      var r := Normalise(item, cleanHtml);
      && r.apiId == item.id
      && (r.recipe.category == NoLabel || r.recipe.category in Keys(CategoryChoices))
      && r.recipe.diet in Keys(DietChoices)
      && r.recipe.description == item.summary.GetOr("")
      && r.recipe.author == None
      && r.recipe.ingredients == IngredientsText(item.extendedIngredients)
      && r.nutrition == NutritionFrom(item.nutrition.value)
  {
    CategoryOfItem(item.dishTypes);
    DietOfItem(item.diets);
  }

  /** As written, the cleaner `clean_html_text` is not defined anywhere, so every item
      that passes the completeness check raises `NameError`; `None` stands for that
      exception. */
  function SaveOrUpdateAsWritten(item: Item): (r: Option<SaveResult>)
    ensures r != None <==> Incomplete(item)
  {
    if Incomplete(item) then Some(Skipped) else None
  }

  /** As written nothing is ever saved, while any defined cleaner saves every complete item. */
  lemma AsWrittenSavesNothing(item: Item, cleanHtml: string -> string)
    ensures SaveOrUpdateAsWritten(item) == None || SaveOrUpdateAsWritten(item) == Some(Skipped)
    ensures SaveOrUpdateAsWritten(item) == None <==> Normalise(item, cleanHtml).Saved?
  {
    NormaliseSpec(item, cleanHtml);
  }
}
