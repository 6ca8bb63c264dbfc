/**
 * The rules of the recipe models (recipes/models.py): the category and diet
 * choice tables with their "none" defaults, the slug default applied by
 * `Recipe.save`, the rating aggregates `avg_rating` and `total_ratings`, and
 * the eleven nutrition fields with their defaults and lower bounds.
 */
module RecipeModels {
  import opened Wrappers

  // ---------------------------------------------------------------------------
  // Choice tables
  // ---------------------------------------------------------------------------

  /** `Recipe.CATEGORY_CHOICES`: (stored value, label) pairs. */
  const CategoryChoices: seq<(string, string)> := [
    ("main course", "Main Course"), ("side dish", "Side Dish"), ("dessert", "Dessert"),
    ("appetizer", "Appetizer"), ("salad", "Salad"), ("bread", "Bread"),
    ("breakfast", "Breakfast"), ("soup", "Soup"), ("beverage", "Beverage"),
    ("sauce", "Sauce"), ("marinade", "Marinade"), ("fingerfood", "Fingerfood"),
    ("snack", "Snack"), ("drink", "Drink")
  ]

  /** `Recipe.DIET_CHOICES`. */
  const DietChoices: seq<(string, string)> := [
    ("vegan", "Vegan"), ("carnivore", "Carnivore"), ("gluten_free", "Gluten-free"),
    ("vegetarian", "Vegetarian"), ("dairy_free", "Dairy-free"), ("none", "None")
  ]

  /** The default of both `category` and `diet`. */
  const NoLabel: string := "none"

  /** The keys of `dict(choices)`. */
  function Keys(choices: seq<(string, string)>): set<string> {
    set i | 0 <= i < |choices| :: choices[i].0
  }

  /** The stored values of a table, in table order. */
  function KeyList(choices: seq<(string, string)>): (keys: seq<string>)
    ensures |keys| == |choices|
    ensures forall i :: 0 <= i < |choices| ==> keys[i] == choices[i].0
  {
    seq(|choices|, i requires 0 <= i < |choices| => choices[i].0)
  }

  predicate Distinct(keys: seq<string>) {
    forall i, j :: 0 <= i < j < |keys| ==> keys[i] != keys[j]
  }

  /** Fourteen distinct categories, none of them the "none" default. */
  lemma CategoryTableShape()
    ensures |CategoryChoices| == 14 && Distinct(KeyList(CategoryChoices))
    ensures NoLabel !in Keys(CategoryChoices)
  {
    var keys := KeyList(CategoryChoices);
    assert keys == ["main course", "side dish", "dessert", "appetizer", "salad", "bread",
      "breakfast", "soup", "beverage", "sauce", "marinade", "fingerfood", "snack", "drink"];
  }

  /** Six distinct diets, and "none", the default, is one of them. */
  lemma DietTableShape()
    ensures |DietChoices| == 6 && Distinct(KeyList(DietChoices))
    ensures NoLabel in Keys(DietChoices)
  {
    var keys := KeyList(DietChoices);
    assert keys == ["vegan", "carnivore", "gluten_free", "vegetarian", "dairy_free", "none"];
    assert DietChoices[5].0 == NoLabel;
  }

  // ---------------------------------------------------------------------------
  // Recipe.save
  // ---------------------------------------------------------------------------

  /** The columns that `save` writes, as far as this model follows them. */
  datatype RecipeRow = RecipeRow(title: string, slug: string)

  class Recipe {
    var title: string
    var slug: string
    /** The row most recently written by `save`, if any. */
    var stored: Option<RecipeRow>

    constructor(title: string, slug: string)
      ensures this.title == title && this.slug == slug && stored == None
    {
      this.title := title;
      this.slug := slug;
      stored := None;
    }

    /** `save()`: an empty slug is first set to `slugify(title)`; then the row is written. */
    method Save(slugify: string -> string)
      modifies this
      ensures title == old(title)
      ensures old(slug) != [] ==> slug == old(slug)
      ensures old(slug) == [] ==> slug == slugify(title)
      ensures slug == SlugAfterSave(old(title), old(slug), slugify)
      ensures stored == Some(RecipeRow(title, slug))
    {
      if slug == [] {
        slug := slugify(title);
      }
      stored := Some(RecipeRow(title, slug));
    }
  }

  /** The slug that `save` leaves behind. */
  function SlugAfterSave(title: string, slug: string, slugify: string -> string): string {
    if slug == [] then slugify(title) else slug
  }

  /** Saving twice leaves the same slug as saving once, and a given slug is never replaced. */
  lemma SaveSlugStable(title: string, slug: string, slugify: string -> string)
    ensures SlugAfterSave(title, SlugAfterSave(title, slug, slugify), slugify) == SlugAfterSave(title, slug, slugify)
    ensures slug != [] ==> SlugAfterSave(title, slug, slugify) == slug
  {
  }

  // ---------------------------------------------------------------------------
  // Ratings
  // ---------------------------------------------------------------------------

  /** The `rating` values of a recipe's ratings; the column is nullable. */
  type Ratings = seq<Option<real>>

  /** The validators on `Rating.rating` (ratings/models.py): between -5 and 5. */
  predicate InRatingRange(r: real) {
    -5.0 <= r <= 5.0
  }

  function RatedCount(rs: Ratings): nat {
    if rs == [] then 0 else (if rs[0].Some? then 1 else 0) + RatedCount(rs[1..])
  }

  function RatedSum(rs: Ratings): real {
    if rs == [] then 0.0 else (if rs[0].Some? then rs[0].value else 0.0) + RatedSum(rs[1..])
  }

  /** `avg_rating()`: SQL `AVG` ignores null ratings and yields null when nothing is
      left, and `or 0` turns that null into 0. */
  function AvgRating(rs: Ratings): real {
    if RatedCount(rs) == 0 then 0.0 else RatedSum(rs) / (RatedCount(rs) as real)
  }

  /** `total_ratings()`: the number of rating rows, null ratings included. */
  function TotalRatings(rs: Ratings): nat {
    |rs|
  }

  lemma {:induction false} RatedSumBounds(rs: Ratings)
    requires forall i :: 0 <= i < |rs| && rs[i].Some? ==> InRatingRange(rs[i].value)
    ensures -5.0 * (RatedCount(rs) as real) <= RatedSum(rs) <= 5.0 * (RatedCount(rs) as real)
    ensures RatedCount(rs) <= |rs|
  {
    if rs != [] {
      assert forall i :: 0 <= i < |rs[1..]| ==> rs[1..][i] == rs[i + 1];
      RatedSumBounds(rs[1..]);
    }
  }

  /** The average of ratings that pass validation passes validation too, and it is
      0 when there is no rating with a value; no more ratings have a value than
      `total_ratings` counts. */
  lemma AvgRatingBounds(rs: Ratings)
    requires forall i :: 0 <= i < |rs| && rs[i].Some? ==> InRatingRange(rs[i].value)
    ensures InRatingRange(AvgRating(rs))
    ensures RatedCount(rs) == 0 ==> AvgRating(rs) == 0.0
    ensures RatedCount(rs) <= TotalRatings(rs)
  {
    RatedSumBounds(rs);
    var n := RatedCount(rs) as real;
    if n > 0.0 {
      var s := RatedSum(rs);
      assert -5.0 * n <= s <= 5.0 * n;
      assert s / n <= 5.0 by { assert s <= 5.0 * n; }
      assert -5.0 <= s / n by { assert -5.0 * n <= s; }
    }
  }

  /** Adding one rated row moves the sum and the count by that rating. */
  lemma {:induction false} RatedAppend(rs: Ratings, r: real)
    ensures RatedCount(rs + [Some(r)]) == RatedCount(rs) + 1
    ensures RatedSum(rs + [Some(r)]) == RatedSum(rs) + r
  {
    if rs != [] {
      assert (rs + [Some(r)])[1..] == rs[1..] + [Some(r)];
      RatedAppend(rs[1..], r);
    }
  }

  // ---------------------------------------------------------------------------
  // NutritionalValue
  // ---------------------------------------------------------------------------

  /** The eleven fields of `NutritionalValue`; amounts are copied, never computed, so
      they are modelled as reals. */
  datatype Nutrition = Nutrition(
    caloriesKcal: real, protein: real, fat: real, carbs: real, fiber: real, sugars: real,
    sodium: real, cholesterol: real, calcium: real, iron: real, vitaminC: real)

  /** Every field defaults to 0.0. */
  const DefaultNutrition: Nutrition :=
    Nutrition(0.0, 0.0, 0.0, 0.0, 0.0, 0.0, 0.0, 0.0, 0.0, 0.0, 0.0)

  /** `MinValueValidator(0.0)` on every field. */
  predicate ValidNutrition(n: Nutrition) {
    n.caloriesKcal >= 0.0 && n.protein >= 0.0 && n.fat >= 0.0 && n.carbs >= 0.0
    && n.fiber >= 0.0 && n.sugars >= 0.0 && n.sodium >= 0.0 && n.cholesterol >= 0.0
    && n.calcium >= 0.0 && n.iron >= 0.0 && n.vitaminC >= 0.0
  }

  /** The defaults pass the validators: a fresh row is a valid row. */
  lemma DefaultNutritionValid()
    ensures ValidNutrition(DefaultNutrition)
  {
  }
}
