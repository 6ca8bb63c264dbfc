/**
 * `copy_and_clean_data` (recipes/migrations/0008_alter_recipe_category_alter_recipe_diet.py):
 * moving `category` and `diet` from strings to label lists, every recipe's two
 * values are rewritten into the temporary list columns, and every recipe is saved.
 */
module Migration0008 {
  import opened LabelValues

  /** The old `category` and `diet` columns of one recipe. */
  datatype LabelRow = LabelRow(category: FieldValue, diet: FieldValue)

  /** The new `category_temp` and `diet_temp` columns of one recipe. */
  datatype TempRow = TempRow(categoryTemp: seq<string>, dietTemp: seq<string>)

  /** The rule applied to each of the two fields: "none" and every other string or
      null become [], a list loses its "none" items. */
  function CleanField(v: FieldValue): seq<string> {
    match v
    // "none" and every other string alike: 0008 lines 12-13 and 16-17
    case Str(_) => []
    case List(xs) => RemoveNone(xs)
    case Null => []
  }

  /** What the rule promises: "none" never survives, a list keeps its other labels in
      order, and anything that is not a list comes out empty, a single real label such
      as "breakfast" included. */
  lemma CleanFieldSpec(v: FieldValue)
    ensures NoneLabel !in CleanField(v)
    ensures v.List? ==> IsSubsequence(CleanField(v), v.items)
    ensures v.List? ==> forall x :: x != NoneLabel ==> multiset(CleanField(v))[x] == multiset(v.items)[x]
    ensures !v.List? ==> CleanField(v) == []
  {
    if v.List? {
      RemoveNoneSpec(v.items);
    }
  }

  /** Cleaning the cleaned list again changes nothing. */
  lemma CleanFieldIdempotent(v: FieldValue)
    ensures CleanField(List(CleanField(v))) == CleanField(v)
  {
    if v.List? {
      RemoveNoneIdempotent(v.items);
    }
  }

  function CleanRow(row: LabelRow): TempRow {
    TempRow(CleanField(row.category), CleanField(row.diet))
  }

  /** The loop over all recipes: each recipe's temporary columns are computed from its
      own old columns, and every recipe is saved, in order. */
  method CopyAndCleanData(rows: seq<LabelRow>) returns (temps: seq<TempRow>, saved: seq<nat>)
    ensures |temps| == |rows|
    ensures forall i :: 0 <= i < |rows| ==> temps[i] == CleanRow(rows[i])
    ensures |saved| == |rows| && forall i :: 0 <= i < |rows| ==> saved[i] == i
  {
    temps := [];
    saved := [];
    var i := 0;
    while i < |rows|
      invariant 0 <= i <= |rows|
      invariant |temps| == i && forall j :: 0 <= j < i ==> temps[j] == CleanRow(rows[j])
      invariant |saved| == i && forall j :: 0 <= j < i ==> saved[j] == j
    {
      var categoryTemp := CleanField(rows[i].category);
      var dietTemp := CleanField(rows[i].diet);
      temps := temps + [TempRow(categoryTemp, dietTemp)];
      saved := saved + [i];
      i := i + 1;
    }
  }
}
