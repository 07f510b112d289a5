# Nutrition recommender — a verified model

This project models the recommendation core of the Nutrition_System meal
recommender. It has two front ends: a Streamlit app (`app.py`) and a
command-line script (`pythonscript.py`). Both work on a table of recipes.
`recommend_recipes` in `app.py` expects five nutrition columns (calories,
fat, sodium, carbohydrate, protein) and an average rating; the table that
`pythonscript.py` builds has an identifier, a name and four nutrition
columns (calories, fat, protein, carbohydrate), with no sodium and no rating:

- **Preference completion** (`app.py`): the user's preferences are completed
  by filling every missing nutrition column with the corpus median of that
  column.
- **Min-max scaling**: a scaler is fitted on the corpus, column by column,
  and applied to both the corpus and the query. A column whose range is zero
  is divided by 1 instead of by its range.
- **Similarity ranking**:
  - every recipe is scored by its similarity to the scaled query;
  - `app.py` sorts by similarity and then by rating, both descending, with a
    stable sort, and takes the first `top_n` rows;
  - `pythonscript.py` takes the last five positions of an ascending argsort,
    reversed.
- **Calorie-window filter** (`app.py`): the calorie target is the user's daily
  expenditure plus 500 kcal to gain weight, minus 500 to lose it, or
  unchanged otherwise. The filter keeps the recipes within 100 kcal of that
  target, in table order.
- **Threshold filter** (`pythonscript.py`): the user gives a maximum for
  calories, fat and carbohydrate and a minimum for protein. When some rows
  meet all four limits, a sample of those rows is shown; otherwise the five
  closest rows by similarity are shown.
- **Weekly meal plan** (`pythonscript.py`): a 7 × 3 grid of days and meal
  times. Cell `i` holds recipe `i mod n` of the shuffled recommendation pool.

Modules, one per part of the program:

| module | file | role |
|---|---|---|
| `Recipes` | recipes.dfy | the recipe record, the nutrition columns, results and errors |
| `Sorting` | sorting.dfy | stable insertion sort by a total preorder, with sortedness, permutation and distinctness lemmas |
| `Filtering` | filtering.dfy | the boolean-mask row selection and its laws |
| `FeatureNormalizer` | normalizer.dfy | min-max fitting and scaling, the median, and the preference-completion loop |
| `SimilarityRanker` | ranker.dfy | `sort_values` plus `head`, and argsort top-k |
| `CalorieRangeFilter` | calorie_filter.dfy | calorie target and window, the threshold filter |
| `MealPlanScheduler` | scheduler.dfy | the weekly plan loop and its repetition properties |
| `App` | app.dfy | `recommend_recipes` end to end |
| `Script` | script.dfy | the script's recommenders and its threshold step |

The core loops in three places. The model keeps two of them as methods with
loops:

- the preference-completion loop (`FeatureNormalizer.CompletePreferences`);
- the meal-plan double loop (`MealPlanScheduler.GenerateWeeklyMealPlan`).

The third, the median re-fill of the corpus columns (app.py:27-28), is not
modelled; "## Left out" says why.

`recommend_recipes` is the method `App.RecommendRecipes`. It has no loop of
its own: the preference completion runs inside it as a call to
`CompletePreferences`. Everything else is functions and lemmas.

## Model

| member | source | states |
|---|---|---|
| Recipes.ColumnIndex | app.py:25 | every nutrition feature has a position in the five-column list, and that position holds it |
| Sorting.SortSorted | app.py:45 | the sort's result is ordered by the given total preorder |
| Sorting.Sort | app.py:45 | the sort returns a permutation of its input (same length, same multiset) |
| Sorting.SortMembers | app.py:45 | a value is in the sorted sequence exactly when it is in the input |
| Sorting.SortDistinct | pythonscript.py:45 | sorting keeps a duplicate-free sequence duplicate-free |
| Filtering.Filter | app.py:94 | the mask keeps only rows of the input that pass it, and every passing row is kept |
| Filtering.FilterAppend | app.py:94 | the mask keeps the table's order: filtering a concatenation concatenates the filtered parts |
| Filtering.FilterMultiplicity | pythonscript.py:123-128 | a passing row is kept as often as it occurs, a failing row never |
| FeatureNormalizer.Min | app.py:37 | the minimum occurs in the column and bounds every value from below |
| FeatureNormalizer.Max | app.py:37 | the maximum occurs in the column and bounds every value from above |
| FeatureNormalizer.FitColumn | app.py:35-37 | the fitted bounds are values of the column and bound all of its values |
| FeatureNormalizer.TransformVector | app.py:39-40 | each query component is scaled with the bounds of its own column |
| FeatureNormalizer.ScaleRoundTrip | app.py:37 | scaling followed by unscaling gives back the original value, for every bound pair, the zero range included |
| FeatureNormalizer.ScaleWithinFit | app.py:37 | a value within the fitted bounds scales into [0, 1] |
| FeatureNormalizer.ScaleEndpoints | app.py:37 | the fitted minimum scales to 0 and, when the range is not zero, the fitted maximum scales to 1 |
| FeatureNormalizer.ScaleMonotone | app.py:37 | scaling preserves order |
| FeatureNormalizer.ScaleNotClamped | app.py:40 | a query above the fitted maximum scales above 1, one below the minimum scales below 0 |
| FeatureNormalizer.ScaleDegenerate | app.py:37 | with a zero range the value is only shifted by the minimum, because the divisor becomes 1 |
| FeatureNormalizer.ScaledCorpusInUnit | app.py:37 | every scaled corpus value lies in [0, 1] |
| FeatureNormalizer.ScaledCorpusAttainsBounds | app.py:37 | some row scales to 0 in each column and, when the column is not constant, some row scales to 1 |
| FeatureNormalizer.RealLeTotalPreorder | app.py:32 | the order used to sort a column for its median is total and transitive |
| FeatureNormalizer.MedianBounds | app.py:32 | the median lies between the column's minimum and maximum |
| FeatureNormalizer.MedianSplits | app.py:32 | the lower half of the sorted column is at most the median and the upper half is at least the median |
| FeatureNormalizer.CompletePreferences | app.py:30-34 | afterwards every feature has a preference; supplied ones are unchanged, and missing ones hold the corpus median of their column |
| SimilarityRanker.RankLeTotalPreorder | app.py:45 | the ranking order is a total preorder on scored rows |
| SimilarityRanker.Head | app.py:46 | `head(n)` is a prefix: min(n, len) rows for n ≥ 0, all but the last \|n\| rows for n < 0 |
| SimilarityRanker.RankIsSortedPrefix | app.py:45-46 | the ranking is a prefix of a permutation of the rows, with pandas' `head` length, and no row returned ranks below a row left out |
| SimilarityRanker.RankAdjacentOrder | app.py:45 | consecutive results have non-increasing similarity, rating breaks ties in descending order, and full ties keep table order |
| SimilarityRanker.SortedPositionsDiffer | app.py:45 | rows with distinct table positions keep distinct positions after sorting |
| SimilarityRanker.ArgSortIsSortingPermutation | pythonscript.py:45 | argsort returns each index exactly once, ordered by ascending score |
| SimilarityRanker.TopIndicesFromEnd | pythonscript.py:45 | the k chosen indices are the last k of the argsort, in reverse |
| SimilarityRanker.TopIndicesCorrect | pythonscript.py:45 | the top-k indices are min(k, n) distinct valid indices with non-increasing scores, and none scores below an index left out |
| CalorieRangeFilter.TargetByGoal | app.py:82-92 | the target is the expenditure +500 to gain, −500 to lose, unchanged otherwise, so lose ≤ any goal ≤ gain |
| CalorieRangeFilter.Window | app.py:85-92 | the window is 200 kcal wide and centred on the target |
| CalorieRangeFilter.RecommendMeals | app.py:82-95 | `recommend_meals` returns rows of the table that fall in the goal's window, and every row in the window |
| CalorieRangeFilter.RecommendMealsExact | app.py:94-95 | exactly the recipes within 100 kcal of the target are returned, each as often as in the table |
| CalorieRangeFilter.RecommendMealsKeepsOrder | app.py:94 | the calorie filter keeps table order |
| CalorieRangeFilter.WindowsAt2000 | app.py:82-92 | at 2000 kcal the windows are [2400, 2600] to gain, [1400, 1600] to lose and [1900, 2100] to maintain |
| CalorieRangeFilter.NoMatchAt2000 | app.py:94-95 | recipes of 500, 1500 and 2500 kcal give an empty result at 2000 kcal to maintain |
| CalorieRangeFilter.ThresholdFilterExact | pythonscript.py:123-128 | exactly the rows meeting all four limits are kept, each as often as in the table |
| CalorieRangeFilter.ThresholdFilterKeepsOrder | pythonscript.py:123-128 | the threshold filter keeps table order |
| MealPlanScheduler.GenerateWeeklyMealPlan | pythonscript.py:49-69 | an empty pool fails, and only an empty pool: any other pool gives a plan of 21 rows, row i being the cell for recipe i mod n of the shuffled pool |
| MealPlanScheduler.DaysDistinct | pythonscript.py:50-51 | the seven days and the three meal times are distinct names |
| MealPlanScheduler.GridCoveredOnce | pythonscript.py:56-60 | every (day, meal time) pair is filled, and by exactly one row |
| MealPlanScheduler.CellCopiesRecipe | pythonscript.py:58-67 | each row copies the name and the four nutrition values of its selected recipe |
| MealPlanScheduler.LargePoolNoRepeats | pythonscript.py:58 | with 21 or more distinct recipes, no recipe is served twice in the week |
| MealPlanScheduler.SingleRecipePool | pythonscript.py:58 | a one-recipe pool serves that recipe at every meal |
| MealPlanScheduler.NoImmediateRepeat | pythonscript.py:56-58 | with two or more distinct recipes in the pool, no two consecutive cells serve the same recipe |
| MealPlanScheduler.CyclicRepetition | pythonscript.py:58 | the selection repeats with period equal to the pool size |
| MealPlanScheduler.BalancedRepetition | pythonscript.py:54-58 | each recipe of a duplicate-free pool of size n is served 21/n or 21/n + 1 times; it is the larger count exactly when its shuffled position is below 21 mod n |
| MealPlanScheduler.AbsentRecipeNeverServed | pythonscript.py:54-58 | a recipe not in the pool is never served |
| App.ScaleRecipe | app.py:36-37 | the five nutrition values are replaced by their scaled values; the identity, name and rating are kept |
| App.FitCoversAllFeatures | app.py:35-37 | the scaler is fitted on all five nutrition columns |
| App.ScoredRows | app.py:36-43 | one scored row per recipe: row i sits at table position i, holds the recipe scaled with the corpus fit, and its similarity is the kernel applied to the scaled user vector and that scaled row |
| App.RecommendRecipes | app.py:24-46 | an empty corpus fails and leaves the preferences alone; otherwise the preferences are completed and the result is the ranking of the scored rows, of pandas' `head` length and in ranking order |
| App.SameFitForCorpusAndQuery | app.py:35-40 | the corpus and the query are scaled with the same per-column bounds, fitted on the corpus |
| App.PreferenceScaling | app.py:30-40 | a supplied preference outside the corpus range scales outside [0, 1]; a median-filled one scales into [0, 1] |
| Script.TargetVector | pythonscript.py:40-41 | the query repeats the goal's calorie target in all four columns |
| Script.PreferenceQuery | pythonscript.py:73 | the query lists calories, fat, protein, carbohydrate, in the scaler's column order |
| Script.Scores | pythonscript.py:42-44 | score i is the kernel applied to the query, scaled with the fitted scaler, and row i of the stored table |
| Script.Pick | pythonscript.py:46 | `iloc` returns the rows at the given positions, in that order |
| Script.TopMatches | pythonscript.py:44-46 | min(5, n) rows of the table are returned |
| Script.TopMatchesRanked | pythonscript.py:76-79 | the returned rows are distinct positions in non-increasing score order, and no position left out scores higher |
| Script.RecommendMeals | pythonscript.py:39-46 | `recommend_meals` returns min(5, n) rows, the rows at the top-5 indices of the scores for the goal's target: non-increasing in score, and none scores below a row left out |
| Script.RecommendMealsByPreferences | pythonscript.py:72-79 | `recommend_meals_by_preferences` returns the same kind of top-5 ranking for the user's four numbers |
| Script.RawRowInvertsScaleRow | pythonscript.py:15-18 | unscaling a stored row gives back the raw row |
| Script.MatchesSelectRawMatches | pythonscript.py:123-128 | on the stored table, the corrected filter selects exactly the stored forms of the raw rows that meet the limits, in order |
| Script.ScaledComparisonMissesMatches | pythonscript.py:123-128 | as written, a protein minimum of 2 g or more matches no stored row, although a raw row meets every limit |
| Script.StoredProteinAtMostOne | pythonscript.py:15-18 | every stored protein value is at most 1 |
| Script.SampleSize | pythonscript.py:131 | the corrected sample size is min(5, matches): all the matches when fewer than five matched, and 5 when at least five matched |
| Script.SuggestByThresholds | pythonscript.py:123-137 | matching rows are sampled exactly when some row matches, min(5, matches) of them; otherwise the result is the five closest rows by similarity to the same four numbers |
| Script.SuggestByThresholdsAsWritten | pythonscript.py:123-137 | as written: it fails exactly when one to four stored rows pass the filter; with five or more it samples five; with none it returns the closest rows |
| Script.OneMatchFailsAsWritten | pythonscript.py:130-131 | as written, a single matching row makes `sample(n=5)` fail |
| Script.AsWrittenFallsBack | pythonscript.py:123-136 | as written, a protein minimum of 2 g or more always falls through to the closest rows, where the corrected step samples the matches |
| Script.FewMatchesAllSampled | pythonscript.py:130-131 | with the correction, fewer than five matches are all shown |

## Left out

- Reading `recipes.csv` and `reviews.csv`, `dropna`, the reviews merge and `fillna(0)` for the rating (app.py:6-21, pythonscript.py:6-12): the corpus is an input sequence of complete, NaN-free records with the rating already attached.
- The median re-fill of the corpus columns (app.py:27-28): with NaN-free input it leaves the table unchanged, so it is not modelled.
- Cosine similarity (`sklearn.metrics.pairwise.cosine_similarity`): it needs square roots and floating point, so it is a function parameter, `kernel`. The properties proved hold for every kernel.
- Floating point: values are mathematical reals, with no rounding, NaN or infinity.
- The randomness of `sample(frac=1)` (pythonscript.py:54): the shuffled pool is an input, and its only requirement is to be a permutation of the pool.
- The randomness of `sample(n=…)` (pythonscript.py:131): `Script.Suggestion.Sampled` records the pool and the count drawn, not which rows were drawn.
- `calculate_bmr` and `calculate_tdee` (app.py:66-79, pythonscript.py:21-36): the daily expenditure is an input to the calorie target.
- The Streamlit pages, the command-line dialogue, and all printing and input parsing (app.py:98-177, pythonscript.py:81-140). The threshold step's decision logic at pythonscript.py:123-137 is modelled.
- `generate_weekly_meal_plan` in app.py (app.py:49-63): the file holds two interleaved versions with a stray, mis-indented return, and cannot be parsed as written. The weekly plan is modelled from pythonscript.py:49-69.
- The second `return` of app.py's `recommend_meals` (app.py:96) is unreachable and is not modelled.
- app.py:13-15 keeps only calories, fat, protein and carbohydrate, yet `recommend_recipes` also asks for `SodiumContent` (app.py:25), which such a table lacks. The model keeps sodium in the record and scales all five columns, as `recommend_recipes` states.
- `SimilarityRanker.ArgSort`: numpy's default argsort does not promise any order among equal scores. The model fixes the stable order; every property proved about the top five holds whatever the tie order.
- `App.RecommendRecipes`: an empty corpus is reported as `Err(EmptyCorpus)` before the preferences are completed. The scaler's fit would raise on an empty table; the median of an empty column (NaN) is not modelled.
- `FeatureNormalizer.Scale`: a zero-range column is divided by 1, as the library's scaler does. Corpus values then scale to 0, and query values to `x − min`, not to 0.
- `FeatureNormalizer.CompletePreferences`: app.py:30-34 updates the caller's dictionary in place. The model returns the completed map instead, and `App.RecommendRecipes` returns it beside the result.
- `Script.TopMatches`: its own contract states only the length and membership. The ranking is stated by `Script.TopMatchesRanked`.

## Findings

| source | as written | input that shows it | evidently intended | confidence | as-written member | corrected member |
|---|---|---|---|---|---|---|
| pythonscript.py:131 | `filtered_recipes.sample(n=5)` draws five rows without replacement from the matches | limits that exactly one row meets: pandas refuses a sample larger than the population | show all the matches when fewer than five match, i.e. sample min(5, matches) | not executed; high | Script.OneMatchFailsAsWritten | Script.FewMatchesAllSampled |
| pythonscript.py:123-128 | the limits, in kcal and grams, are compared to the table after the module-level scaling (pythonscript.py:15-18) put every value into [0, 1] | a raw table with a 30 g-protein row within every other limit, and a protein minimum of 20 g, for example: no row matches, and the step falls back to the closest rows | compare the limits to the raw values, i.e. unscale the stored rows first | not executed; high | Script.ScaledComparisonMissesMatches | Script.MatchesSelectRawMatches |

`Script.SampleSizeAsWritten` and `Script.SuggestByThresholdsAsWritten` are
the code as written. `Script.SampleSize`, `Script.Matches` and
`Script.SuggestByThresholds` are the corrected definitions. The rest of the
model uses the corrected ones.
