# Recipe app core, modelled in Dafny

This project models the data-handling core of a Django recipe application.

**Recipe ingestion (recipes/tasks.py).** The task is meant to call the Spoonacular search API at most fifty times a day. It saves each complete search result as a recipe with its nutrition row, and it schedules the next page while calls remain. The model covers:

- the daily-quota gate on the cache counter, and the outcome of one run: limit reached, credits depleted, retry with its countdown, fetched, or an escaping exception;
- the page loop and the continuation rule;
- `clean_text` and the splitting of free-text instructions into steps;
- the normaliser `save_or_update_recipe`: the completeness check, the mapping of dish types and diets onto the choice tables, the ingredient and instruction texts, and the record handed to `update_or_create`;
- the nutrient mapping of `create_or_update_nutrition`.

**Comment tree (recipes/utils.py).** `build_comment_tree` groups a flat list of comments under their parents, sorts the replies by creation time from the top-level comments down, and returns the sorted top-level comments.

**Comments (comments/models.py).** `Comment.depth` counts parent links up to a top-level comment; `is_reply` says whether a comment has a parent.

**Label migrations.** Two data migrations rewrite each recipe's `category` and `diet`. Such a value may be a string, a list of labels or null, and both migrations remove the "none" label:

- 0008 rewrites every recipe's two fields into new list columns and saves every recipe;
- 0010 repairs corrupted values, keeps a `changed` flag, and saves only the recipes it changed.

**Recipe models (recipes/models.py).** The category and diet choice tables, the slug default in `Recipe.save`, the aggregates `avg_rating` and `total_ratings`, and the eleven `NutritionalValue` fields with their defaults and bounds.

Modules:

- `Wrappers`: `Option`.
- `PyText`: the Python string primitives the code uses: the `str.isspace` set, `strip`, ASCII `lower`, `replace`, `"\n".join`, `str(int)`.
- `TextCleaning`: `clean_text` and the step splitting.
- `ItemNormaliser`: `save_or_update_recipe` and the nutrient map.
- `FetchTask`: the task itself, as a class `FetchWorker` whose fields are the cache and the recipe store.
- `CommentTree`, `Comments`: the comment tree and the `Comment` model.
- `LabelValues`, `Migration0008`, `Migration0010`: the label migrations.
- `RecipeModels`: the recipe models.

Three defects of the code (see "## Findings") make the program as written behave differently from the program its authors evidently meant. The model states both:

- The first call of a day stores the value 86400 under the counter key (tasks.py:26). `ClaimCallAsWritten` is that gate; `ClaimCall` is the intended one.
- The HTML cleaner that `save_or_update_recipe` calls (tasks.py:135, 152) is defined nowhere in the repository. The as-written function `SaveOrUpdateAsWritten` therefore fails on every complete item, and so does the as-written page loop `SaveItemsAsWritten`. The intended normaliser takes the cleaner as a parameter.
- The split at tasks.py:139 also cuts inside a multi-digit step number. As written it is never reached, since line 135 raises first. The instruction lines of the intended normaliser use the corrected split `SplitBeforeNumbersFixed`.
- `FetchWorker.FetchRecipes` takes a flag `asWritten`. With it set, the run uses the as-written gate and page loop: it stores nothing, and once past the gate and the request it ends in `Raised` at the first complete item. Without it, the run uses the intended gate, the cleaner parameter and the corrected split. The chain of continuation runs (`ChainRequests`) takes the same flag.

The model also follows these details of the code:

- The sentence split at tasks.py:143 is computed and never used. Free text without step numbers therefore yields no instruction lines.
- The description that is stored (tasks.py:166) is the raw summary, not the cleaned one computed at line 152.
- The `models.py` in the repository declares `category` and `diet` as `CharField`s. Migrations 0008 and 0010 treat them as list columns. The migration rules are modelled over all three shapes of value.

## Model

| member | source | states |
|---|---|---|
| FetchTask.ClaimCallAsWritten | recipes/tasks.py:20-27 | If today's key exists, its count rises by exactly 1 and `calls_used` is the new count. If the key is absent, it is set to 86400 and `calls_used` is 1. No other key changes. |
| FetchTask.ClaimCall | recipes/tasks.py:23-27 | The gate as intended: the key's count becomes the old count (0 when absent) plus 1, and `calls_used` equals it. No other key changes. |
| FetchTask.SecondCallOverLimitAsWritten | recipes/tasks.py:23-30 | As written, the first call of a day passes the gate and the second is already over the limit of 50. |
| FetchTask.ClaimTimesCounts | recipes/tasks.py:23-27 | Under the intended gate, the n-th call of a day sees `calls_used == n` and leaves n stored. |
| FetchTask.IntendedGateAdmitsFifty | recipes/tasks.py:17-30 | Under the intended gate, the n-th call of a day passes exactly when n <= 50. |
| FetchTask.IntendedChainFrom | recipes/tasks.py:23-30 | Starting from a stored count v below 50, the intended gate lets the self-scheduling chain make exactly 50 - v requests. |
| FetchTask.ChainRequestsPerDay | recipes/tasks.py:17-65 | From an empty counter, a chain makes 50 requests a day with the intended gate, and exactly 1 as written (86400 read back at line 62 stops any continuation). |
| FetchTask.NextCall | recipes/tasks.py:62-65 | A next run is scheduled iff the count read back is below 50. It starts at offset + batch_size, and its batch size is back at the default of 10. |
| FetchTask.SavePageUntouched | recipes/tasks.py:55-58 | An id that no complete item of the page carries keeps its earlier stored row, or stays absent. |
| FetchTask.SavePageLatest | recipes/tasks.py:155-169 | The last complete item with a given id decides that id's stored recipe and nutrition (`update_or_create` by `api_id`). |
| FetchTask.SavedCountBound | recipes/tasks.py:55-58 | The saved count is at most the page size, and 0 when every item is incomplete. |
| FetchTask.FetchWorker.SaveItems | recipes/tasks.py:55-58 | The loop leaves the store equal to the page applied in order. It returns the number of complete items and leaves the cache alone. |
| FetchTask.FetchWorker.FetchRecipes | recipes/tasks.py:14-67 | The gate (as written or as intended) runs first. Over the limit: the limit message, and nothing else changes. A failed request: retry after 20. HTTP status 402: the depleted message. Any other HTTP error: retry after 30. Otherwise, as intended, the page is saved and the result carries the fetched message, the saved count and the continuation. As written, nothing is stored, and the run raises unless every item is incomplete. |
| FetchTask.ContinuationRule | recipes/tasks.py:24-65 | With the intended gate, a run schedules a successor exactly when its own `calls_used` was below 50. |
| FetchTask.FirstRunEndsChainAsWritten | recipes/tasks.py:23-65 | As written, the first run of a day passes the gate and schedules no successor, because the count read back is 86400. |
| FetchTask.SaveItemsAsWritten | recipes/tasks.py:55-58 | The as-written page loop stores nothing. It completes, with a count of 0, exactly when every item is incomplete; otherwise the first complete item raises `NameError`. |
| TextCleaning.RemoveTags | recipes/tasks.py:77 | Removing tags never lengthens the text and never adds a '>'. What is removed and what is kept is stated by RemoveTagsDropsTag, RemoveTagsKeepsOpen and RemoveTagsPrefix. |
| TextCleaning.RemoveTagsLeavesNoTag | recipes/tasks.py:77 | After `re.sub(r'<[^>]+>', '', text)` the tag pattern matches nowhere. |
| TextCleaning.RemoveTagsPrefix | recipes/tasks.py:77 | A prefix without '<' passes through tag removal unchanged, in front of the processed rest. |
| TextCleaning.RemoveTagsNoOpen | recipes/tasks.py:77 | Text without '<' is left unchanged. |
| TextCleaning.RemoveTagsDropsTag | recipes/tasks.py:77 | A tag `<body>`, with a non-empty body and no '>' in it, is removed whole, and the rest is processed the same way. |
| TextCleaning.RemoveTagsKeepsOpen | recipes/tasks.py:77 | A '<' that opens no tag is kept, and the text after it is processed on its own. That is the case when nothing follows it, when '>' follows it at once (`<>`), or when no '>' follows it anywhere. |
| TextCleaning.CollapseSpaces | recipes/tasks.py:80 | After collapsing, no two whitespace characters are adjacent and the plain space is the only whitespace left. The result is empty iff the input is, and it starts with whitespace iff the input did. That each run becomes exactly one space is CollapseSpacesRun. |
| TextCleaning.CollapseSpacesNoSpace | recipes/tasks.py:80 | Text without whitespace is left unchanged. |
| TextCleaning.CollapseSpacesAppend | recipes/tasks.py:80 | Text that does not end in whitespace and the text after it are collapsed independently, since no run crosses the boundary. |
| TextCleaning.CollapseSpacesRun | recipes/tasks.py:80 | A non-empty whitespace run between non-whitespace characters (or a text end) becomes exactly one plain space. The text on either side is collapsed on its own. |
| TextCleaning.CollapseSpacesKeeps | recipes/tasks.py:80 | Collapsing whitespace keeps every non-whitespace character, in order: filtered by any test that rejects whitespace, the text is unchanged. |
| TextCleaning.CollapsePeriods | recipes/tasks.py:83 | No two periods are adjacent afterwards. The first character and emptiness are kept. That each run becomes exactly one period is CollapsePeriodsRun. |
| TextCleaning.CollapsePeriodsNoPeriod | recipes/tasks.py:83 | Text without '.' is left unchanged. |
| TextCleaning.CollapsePeriodsAppend | recipes/tasks.py:83 | Text that does not end in '.' and the text after it are collapsed independently. |
| TextCleaning.CollapsePeriodsRun | recipes/tasks.py:83 | A non-empty run of periods between other characters (or a text end) becomes exactly one '.'. The text on either side is collapsed on its own. |
| TextCleaning.CollapsePeriodsKeeps | recipes/tasks.py:83 | Collapsing periods keeps every character other than '.', in order. |
| TextCleaning.CollapsePeriodsKeepsSpacing | recipes/tasks.py:80-83 | Collapsing periods keeps the single-space property set up before it. |
| TextCleaning.CleanTextShape | recipes/tasks.py:69-85 | `clean_text` gives "" for None and "". Its result has no edge whitespace, no double whitespace, no double period, and no whitespace other than ' '. |
| TextCleaning.StripKeeps | recipes/tasks.py:85 | `strip()` keeps every non-whitespace character, in order. |
| TextCleaning.CleanTextKeeps | recipes/tasks.py:69-85 | For non-empty text, `clean_text` keeps exactly the characters other than whitespace and '.' of the text with its tags removed, in order. For text without '<', these are the characters of the text itself. |
| TextCleaning.SplitBeforeNumbersRoundTrip | recipes/tasks.py:139 | The pieces of `re.split(r'(?=\d+\.)', s)` concatenate back to s, and every piece after the first starts with a digit. The positions where those pieces start are exactly the positions where `\d+\.` matches. |
| TextCleaning.SplitBeforeNumbersCuts | recipes/tasks.py:139 | The pieces after the first start exactly at the positions where `\d+\.` matches: every such start is a match, and every match starts a piece. |
| TextCleaning.SplitCutsInsideNumber | recipes/tasks.py:139 | The as-written split cuts inside a multi-digit step number: "10. A" splits into "", "1" and "0. A". |
| TextCleaning.SplitBeforeNumbersFixedSpec | recipes/tasks.py:137-139 | The corrected split, which cuts only before a whole number: the pieces concatenate back to s, and every piece after the first starts with a numbered step. Those pieces start exactly at the cut positions: matches of `\d+\.` not preceded by a digit. |
| TextCleaning.SplitBeforeNumbersFixedCuts | recipes/tasks.py:137-139 | The pieces of the corrected split after the first start exactly at the cut positions, in both directions. |
| TextCleaning.SplitFixedKeepsNumber | recipes/tasks.py:139 | The corrected split keeps "10. A" in one numbered piece. |
| TextCleaning.StrippedNonEmptyShape | recipes/tasks.py:140 | `[step.strip() for step in steps if step.strip()]` keeps no more pieces than it is given, each non-empty and without edge whitespace. |
| TextCleaning.DropStepNumberNoEdge | recipes/tasks.py:145 | Removing a leading `\d+\.\s*` from a stripped step leaves a stripped step. |
| TextCleaning.DropStepNumbersShape | recipes/tasks.py:145 | The final instruction list has no line with edge whitespace and no more lines than pieces. |
| TextCleaning.FreeTextStepsShape | recipes/tasks.py:137-145 | Free text without any `\d+\.` yields no lines, because the sentence split is unused. Numbered text yields at most one line per piece, each stripped. |
| TextCleaning.NumberedPieceLine | recipes/tasks.py:140-145 | A piece that starts with `N.` survives the empty-piece filter, and its line is its step body: the text after `N.`, without whitespace at either end. |
| TextCleaning.NumberedPiecesLines | recipes/tasks.py:140-145 | Pieces that all start with a step number give exactly one line each, their step bodies, in order. |
| TextCleaning.FreeTextStepsBodies | recipes/tasks.py:137-145 | For numbered text, the pieces of the corrected split after the first start exactly at the cut positions, and each starts with `N.`. The lines are at most one line from the text before the first number, then the step body of every piece, in order. |
| TextCleaning.LeadingNumberNoLead | recipes/tasks.py:138-145 | Text that starts with a step number gives no line before its first step. |
| TextCleaning.StepBodyOf | recipes/tasks.py:145 | A piece made of a digit, '.', whitespace, a body without edge whitespace and trailing whitespace has that body as its step body. |
| TextCleaning.ExampleSplit | recipes/tasks.py:139 | The corrected split of "1. Mix. 2. Bake." is "", "1. Mix. " and "2. Bake.". |
| TextCleaning.FreeTextStepsExample | recipes/tasks.py:137-145 | "1. Mix. 2. Bake." gives the two lines "Mix." and "Bake.". |
| ItemNormaliser.FirstLabelSpec | recipes/tasks.py:99-111 | The chosen label is "none" or a table key. It is "none" when no label matches. Otherwise it is the normalised form of the first matching label. |
| ItemNormaliser.MapLabel | recipes/tasks.py:100-104 | The label loop with `break` returns the first-match label. |
| ItemNormaliser.CategoryOfItem | recipes/tasks.py:100-104 | The category is a category key or "none", and it is "none" iff no lower-cased dish type is a category key. |
| ItemNormaliser.DietOfItem | recipes/tasks.py:107-111 | The diet is always a diet key ("none" is one). |
| ItemNormaliser.GlutenFreeDiet | recipes/tasks.py:109-110 | "Gluten-Free" maps to "gluten_free" through lower-casing and the '-' to '_' replacement. |
| ItemNormaliser.IngredientLinesAppend | recipes/tasks.py:118-121 | Ingredient lines follow input order: the lines of a concatenation are the concatenated lines. |
| ItemNormaliser.IngredientLinesShape | recipes/tasks.py:118-121 | There is one line per truthy ingredient entry, and every line is stripped. |
| ItemNormaliser.IngredientsTextRoundTrip | recipes/tasks.py:118-122 | With no truthy entries the text is "Ingredients not available.". Otherwise, splitting the text on newlines gives back the lines. |
| ItemNormaliser.IngredientFallbackUnused | recipes/tasks.py:91-116 | For an item that passes the completeness check, the used/missed fallback is never taken. |
| ItemNormaliser.GroupLinesSpec | recipes/tasks.py:130-131 | A group gives one line per step, line k being "number. text" of step k. |
| ItemNormaliser.StepLinesAppend | recipes/tasks.py:129-131 | Groups contribute their lines group after group. |
| ItemNormaliser.StepLinesCount | recipes/tasks.py:129-131 | There are as many step lines as steps in all groups. |
| ItemNormaliser.StructuredSteps | recipes/tasks.py:125-131 | The nested loop over groups and steps produces exactly the step lines, in order. |
| ItemNormaliser.InstructionPlaceholderUnused | recipes/tasks.py:127-147 | For a complete item the instructions come from the structured steps, or else from the free text, never from the placeholder. |
| ItemNormaliser.NutrientMapDomain | recipes/tasks.py:179-182 | A name is in the nutrient map iff some nutrient carries it, lower-cased. |
| ItemNormaliser.NutrientMapLastWins | recipes/tasks.py:179-182 | For a repeated name, the last nutrient's amount wins. |
| ItemNormaliser.NutrientMapValues | recipes/tasks.py:179-182 | Non-negative amounts give a map with non-negative values. |
| ItemNormaliser.NutritionFromValid | recipes/tasks.py:184-196 | From non-negative amounts the defaults record passes the `>= 0` validators. With no nutrients it is all 0.0. |
| ItemNormaliser.CarbsExample | recipes/tasks.py:180-188 | "Carbohydrates" is looked up lower-cased, and a later entry overrides an earlier one. |
| ItemNormaliser.SugarVitaminExample | recipes/tasks.py:184-196 | "Sugar" fills `sugars`, "Vitamin C" fills `vitamin_c`, and a missing nutrient defaults to 0.0. |
| ItemNormaliser.NormaliseItem | recipes/tasks.py:87-169 | The imperative normaliser computes the record of the specification function `Normalise`. |
| ItemNormaliser.NormaliseKey | recipes/tasks.py:91-156 | An item is saved iff it is complete, and it is saved under its own id. |
| ItemNormaliser.NormaliseSpec | recipes/tasks.py:87-196 | An incomplete item is skipped. A complete item is saved under its id. Its category is "none" or a category key, and its diet a diet key. Its description is the raw summary, it has no author (`"author": None`, tasks.py:168), its ingredients come from `extendedIngredients`, and its nutrition is the defaults record. |
| ItemNormaliser.SaveOrUpdateAsWritten | recipes/tasks.py:133-152 | As written, the function returns (skips) exactly for incomplete items. Every complete item reaches the undefined cleaner and fails. |
| ItemNormaliser.AsWrittenSavesNothing | recipes/tasks.py:91-152 | As written, no item is ever saved. The failures are exactly the items the intended normaliser would save. |
| CommentTree.SortSpec | recipes/utils.py:21 | Sorting by `created_at` gives a sorted permutation of its input. |
| CommentTree.SortStable | recipes/utils.py:21 | The sort is stable: comments with equal times keep their input order. |
| CommentTree.SortIdempotent | recipes/utils.py:21 | Sorting twice is sorting once. |
| CommentTree.TopsSpec | recipes/utils.py:8-10 | The tree list holds exactly the comments without a parent, each as often as in the input. |
| CommentTree.ChildrenSpec | recipes/utils.py:11-16 | A parent's list holds exactly the comments whose parent id is that parent. |
| CommentTree.GroupComments | recipes/utils.py:5-16 | After the first loop the tree list holds the top-level comments in input order. Each parent present in the input gets an entry iff it has a reply, holding its replies in input order. |
| CommentTree.RootedIffBelowTop | recipes/utils.py:25-26 | A comment whose parent chain ends at a top-level comment lies below that top-level comment. |
| CommentTree.BelowTopIsRooted | recipes/utils.py:25-26 | Conversely, a comment below a top-level comment has a parent chain ending at a top-level comment. |
| CommentTree.SortReplies | recipes/utils.py:19-23 | After `sort_replies(node)` every reply list at or below the node is sorted, every other list is unchanged, and lists sorted before stay sorted. |
| CommentTree.BuildCommentTree | recipes/utils.py:1-28 | The result is the top-level comments sorted by time. Reply lists exist exactly for parents in the input with replies. A list is sorted iff its parent is reachable from a top-level comment; otherwise it keeps input order. |
| CommentTree.TreeSpec | recipes/utils.py:8-28 | The returned list is sorted and holds exactly the top-level comments. A reply appears only under its own parent, so an orphan appears nowhere. |
| Comments.Comment.Depth | comments/models.py:19-30 | The depth is 0 exactly for a top-level comment. It is the number of the comment's ancestors, one less than the size of the chain from the comment to its top-level comment. |
| Comments.Comment.constructor | comments/models.py:11 | A new comment's depth is 0 without a parent and its parent's depth plus 1 otherwise. |
| Comments.Comment.ComputeDepth | comments/models.py:25-30 | The `while obj.parent` loop returns the number of parent links, one less than the size of the chain: 0 iff there is no parent, else the parent's depth plus 1. |
| Comments.Comment.IsReply | comments/models.py:32-34 | `is_reply` holds iff the depth is greater than 0. |
| LabelValues.RemoveNoneSpec | recipes/migrations/0008_alter_recipe_category_alter_recipe_diet.py:15 | The filtered list has no "none". It keeps every other label as often as it occurs, and it is a subsequence of the input (order kept). |
| LabelValues.RemoveNoneUnchangedIff | recipes/migrations/0010_auto_20250914_1618.py:33-34 | The filter leaves a list unchanged iff the list holds no "none". |
| LabelValues.RemoveNoneIdempotent | recipes/migrations/0010_auto_20250914_1618.py:33 | Filtering twice is filtering once. |
| Migration0008.CleanFieldSpec | recipes/migrations/0008_alter_recipe_category_alter_recipe_diet.py:12-25 | The output never holds "none". A list becomes its "none"-free subsequence. Any other value, "breakfast" and null included, becomes []. |
| Migration0008.CleanFieldIdempotent | recipes/migrations/0008_alter_recipe_category_alter_recipe_diet.py:14-15 | Running the rule on its own output changes nothing. |
| Migration0008.CopyAndCleanData | recipes/migrations/0008_alter_recipe_category_alter_recipe_diet.py:10-28 | Every recipe gets both temp columns from its own two fields by the same rule, and every recipe is saved, in order. |
| Migration0010.FixChangedIffDiffers | recipes/migrations/0010_auto_20250914_1618.py:9-58 | `changed` is set for a field iff its value was replaced by a different one. Falsy values (null, "", []) are left alone without setting it. |
| Migration0010.FixFieldCases | recipes/migrations/0010_auto_20250914_1618.py:12-36 | "none" becomes [] with `changed`. Another string: parsed to a list, the list is filtered with `changed`; a failed parse gives [] with `changed`; a non-list parse leaves it untouched. A non-empty list is filtered, setting `changed` iff it held "none". |
| Migration0010.FixFieldDropsNone | recipes/migrations/0010_auto_20250914_1618.py:16-36 | Every list the rule leaves behind is free of "none". |
| Migration0010.FixFieldIdempotent | recipes/migrations/0010_auto_20250914_1618.py:12-36 | Applying the rule to its own output changes nothing and does not set `changed`. |
| Migration0010.ChangedRowsSpec | recipes/migrations/0010_auto_20250914_1618.py:8-62 | The saved recipes are exactly those whose flag is set, each once and in order. A recipe not saved keeps both its values. |
| Migration0010.FixCorruptedArrays | recipes/migrations/0010_auto_20250914_1618.py:8-62 | The loop repairs every recipe by the per-field rule and saves exactly the changed recipes. |
| RecipeModels.CategoryTableShape | recipes/models.py:9-24 | `CATEGORY_CHOICES` has 14 distinct keys, and "none", the category default, is not among them. |
| RecipeModels.DietTableShape | recipes/models.py:26-33 | `DIET_CHOICES` has 6 distinct keys, and "none", the diet default, is among them. |
| RecipeModels.Recipe.Save | recipes/models.py:63-66 | `save` leaves a non-empty slug as it is and sets an empty one to `slugify(title)`, then writes the row with that slug. |
| RecipeModels.SaveSlugStable | recipes/models.py:63-66 | Saving twice leaves the same slug as saving once. |
| RecipeModels.RatedSumBounds | ratings/models.py:12-19 | With every rating in [-5, 5], the sum of the non-null ratings lies within ±5 times their number. |
| RecipeModels.AvgRatingBounds | recipes/models.py:68-75 | `avg_rating` is 0 when no rating has a value, and otherwise stays within [-5, 5]. No more ratings have a value than `total_ratings` counts. |
| RecipeModels.RatedAppend | recipes/models.py:68-71 | One more rating with a value adds 1 to the count and its value to the sum the average divides. |
| RecipeModels.DefaultNutritionValid | recipes/models.py:86-98 | The 0.0 defaults of all eleven fields pass the `MinValueValidator(0.0)` bounds. |

## Left out

- HTTP and Celery. `requests.get`, `raise_for_status` and `response.json()` become an input `HttpResult`: a status and the results, or a failed request. An HTTP error is a status in [400, 600). `self.retry` and `apply_async` become outcome values, and the `max_retries=3` bound is not enforced. `date.today()` becomes the cache key parameter. The request parameters (`number=100`, the API key) and the `print` calls are left out.
- Django cache. It is a map from key to integer. Atomicity, expiry and several workers sharing it are not modelled.
- ORM persistence. `update_or_create` is a map update keyed by `api_id`. The `Recipe.objects.all()` loops of the migrations are loops over a sequence of rows, and `save(update_fields=...)` is the list of saved indices. The map update never fails, so the database constraints are not modelled:
  - the NOT NULL columns `title`, `description`, `servings` and `cooking_time` (recipes/models.py:46-56), which reject a saved record whose value is None, such as a missing "title";
  - the `unique=True` slug (recipes/models.py:47): two new recipes whose titles slugify to the same string fail at `Recipe.save` (recipes/models.py:63-66), while the model stores both.
- Library functions. `slugify`, `json.loads` and the missing HTML cleaner are function parameters. `lower()` is ASCII-only. The regular expressions are written out character by character.
- Floating point. Nutrient amounts and ratings are reals. The `DecimalField` precision of ratings is not modelled.
- JSON shapes. A list-valued key holding `null`, a non-list `analyzedInstructions`, non-string list items in migration 0010, and ingredient entries whose fallback key holds `null` are outside the model.
- JSON nulls with a default. In `ItemNormaliser.Item`, `None` for `summary`, `readyInMinutes`, `servings` and `nutrition` means the key is absent. A key present with the value `null` is outside the model, and Python treats it differently:
  - `item.get("summary", "")`, `item.get("readyInMinutes", 0)` and `item.get("servings", 0)` (recipes/tasks.py:161-166) use the default only for a missing key, so `null` stores None where the model stores "" or 0;
  - `"nutrition": null` passes `"nutrition" in item` (recipes/tasks.py:93), and `nutrition_data.get` (recipes/tasks.py:181) then raises AttributeError after the recipe row is written. The model has no such error path;
  - a `"nutrients": null` inside the nutrition object makes the loop of recipes/tasks.py:180-181 raise TypeError, which is not modelled either.
- Related names. The `related_name='replies'` on `Comment.parent` gives every `Comment` a reverse manager named `replies`. With real `Comment` instances, `hasattr(parent, 'replies')` is therefore always true, and `parent.replies.append` (recipes/utils.py:16) and `node.replies.sort` (recipes/utils.py:21) raise AttributeError on that manager. The model follows the evident logic of `build_comment_tree` instead: replies are a fresh map from comment id to list, and comment ids are required to be unique.
- FetchTask.FetchWorker.FetchRecipes: with `asWritten` unset the run uses the corrected gate `ClaimCall`, the cleaner parameter and the corrected split, which are the intended program rather than the code. With `asWritten` set, `NameError` is the outcome `Raised`; Celery's handling of the failed task is not modelled.
- TextCleaning.FreeTextSteps: uses the corrected split `SplitBeforeNumbersFixed`. The as-written split is the second finding.
- PyText.IsDigit: `\d` is modelled as the ASCII digits '0' to '9'. On `str` patterns Python's `\d` also matches the other Unicode decimal digits (category Nd), such as Arabic-Indic digits, so text numbered with those is not covered.
- Comments.Comment.Depth: `Valid()` requires the parent links to be acyclic. On a cycle of parent links the source's `depth` loop never ends, and that case is outside the model.
- The views, serializers, forms, permissions, admin, accounts, the JavaScript and the management command are not part of this model.

## Findings

| source | as written | input that shows it | evidently intended | confidence | as-written member | corrected member |
|---|---|---|---|---|---|---|
| recipes/tasks.py:26 | `cache.set(cache_key, 86400)` stores 86400 as the counter value (the timeout passed as the value) | the first call of a day; the second call then reads 86401 > 50 and stops | store 1 with a one-day timeout, so fifty calls a day pass | not executed | FetchTask.SecondCallOverLimitAsWritten | FetchTask.IntendedGateAdmitsFifty |
| recipes/tasks.py:139 | `re.split(r'(?=\d+\.)', clean)` also cuts before the last digits of a multi-digit step number | "10. A" splits into "", "1", "0. A", giving the lines "1" and "A" | cut only before a whole step number | not executed | TextCleaning.SplitCutsInsideNumber | TextCleaning.SplitBeforeNumbersFixedSpec |
| recipes/tasks.py:135 | `clean_html_text` is called but defined nowhere, so a complete item raises `NameError` | any item with ingredients, instructions and nutrition | call an existing cleaner (`clean_text`) | not executed | ItemNormaliser.AsWrittenSavesNothing | ItemNormaliser.NormaliseSpec |
