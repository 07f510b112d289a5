/** pythonscript.py's recommenders over its scaled table: the goal-based and
    the preference-based top-5 by similarity, and the threshold filter with
    its fallback to the preference-based top-5 when nothing matches. */
module Script {

  import opened Recipes
  import opened FeatureNormalizer
  import opened SimilarityRanker
  import opened CalorieRangeFilter

  /** The columns this script scales and compares, in its order. */
  const ScriptColumns: seq<Feature> := [Calories, FatContent, ProteinContent, CarbohydrateContent]

  /** How many recommendations each top-k call returns. */
  const TopK: nat := 5

  predicate Fitted(scaler: map<Feature, MinMax>)
    ensures Fitted(scaler) ==> forall k :: 0 <= k < |ScriptColumns| ==> ScriptColumns[k] in scaler
  {
    Calories in scaler && FatContent in scaler && ProteinContent in scaler && CarbohydrateContent in scaler
  }

  /** The goal's calorie target repeated in all four columns. */
  function TargetVector(tdee: real, goal: string): (v: seq<real>)
    ensures |v| == |ScriptColumns|
    ensures forall k :: 0 <= k < |v| ==> v[k] == TargetCalories(tdee, goal)
  {
    var t := TargetCalories(tdee, goal);
    [t, t, t, t]
  }

  /** The user's four numbers in column order: calories, fat, protein,
      carbohydrate. */
  function PreferenceQuery(calories: int, protein: int, fat: int, carbs: int): (v: seq<real>)
    ensures |v| == |ScriptColumns|
    ensures forall k :: 0 <= k < |v| ==>
      v[k] == match ScriptColumns[k]
              case Calories => calories as real
              case FatContent => fat as real
              case ProteinContent => protein as real
              case _ => carbs as real
  {
    [calories as real, fat as real, protein as real, carbs as real]
  }

  /** The similarity of the scaled query to every (already scaled) row. */
  function Scores(recipes: seq<Recipe>, scaler: map<Feature, MinMax>, query: seq<real>, kernel: Kernel): (s: seq<real>)
    requires Fitted(scaler) && |query| == |ScriptColumns|
    ensures |s| == |recipes|
    ensures forall i :: 0 <= i < |recipes| ==>
      s[i] == kernel(TransformVector(scaler, ScriptColumns, query), Vector(recipes[i], ScriptColumns))
  {
    var q := TransformVector(scaler, ScriptColumns, query);
    seq(|recipes|, i requires 0 <= i < |recipes| => kernel(q, Vector(recipes[i], ScriptColumns)))
  }

  /** recipes.iloc[indices]. */
  function Pick(recipes: seq<Recipe>, indices: seq<nat>): (r: seq<Recipe>)
    requires forall k :: 0 <= k < |indices| ==> indices[k] < |recipes|
    ensures |r| == |indices|
    ensures forall k :: 0 <= k < |r| ==> r[k] == recipes[indices[k]]
  {
    seq(|indices|, k requires 0 <= k < |indices| => recipes[indices[k]])
  }

  /** The five best rows for a query, best first. */
  function TopMatches(recipes: seq<Recipe>, scaler: map<Feature, MinMax>, query: seq<real>, kernel: Kernel): (r: seq<Recipe>)
    requires Fitted(scaler) && |query| == |ScriptColumns|
    ensures |r| == MinNat(TopK, |recipes|)
    ensures forall k :: 0 <= k < |r| ==> r[k] in recipes
  {
    var scores := Scores(recipes, scaler, query, kernel);
    TopIndicesCorrect(scores, TopK);
    Pick(recipes, TopIndices(scores, TopK))
  }

  /** The rows TopMatches returns are distinct rows of the table, in
      non-increasing order of score, and no row left out scores higher. */
  lemma TopMatchesRanked(recipes: seq<Recipe>, scaler: map<Feature, MinMax>, query: seq<real>, kernel: Kernel)
    requires Fitted(scaler) && |query| == |ScriptColumns|
    ensures var scores := Scores(recipes, scaler, query, kernel); var idx := TopIndices(scores, TopK);
      && |idx| == MinNat(TopK, |recipes|)
      && Sorting.Distinct(idx)
      && (forall k :: 0 <= k < |idx| ==> idx[k] < |recipes|)
      && TopMatches(recipes, scaler, query, kernel) == Pick(recipes, idx)
      && (forall k :: 0 <= k < |idx| - 1 ==> scores[idx[k]] >= scores[idx[k + 1]])
      && (forall k, j :: 0 <= k < |idx| && 0 <= j < |recipes| && j !in idx ==> scores[idx[k]] >= scores[j])
  {
    TopIndicesCorrect(Scores(recipes, scaler, query, kernel), TopK);
  }

  /** recommend_meals: the top five rows for the goal's calorie target. */
  function RecommendMeals(recipes: seq<Recipe>, scaler: map<Feature, MinMax>, tdee: real, goal: string, kernel: Kernel): (r: seq<Recipe>)
    requires Fitted(scaler)
    ensures var scores := Scores(recipes, scaler, TargetVector(tdee, goal), kernel);
            var idx := TopIndices(scores, TopK);
      && |r| == |idx| == MinNat(TopK, |recipes|)
      && (forall k :: 0 <= k < |r| ==> idx[k] < |recipes| && r[k] == recipes[idx[k]])
      && (forall k :: 0 <= k < |r| - 1 ==> scores[idx[k]] >= scores[idx[k + 1]])
      && (forall k, j :: 0 <= k < |r| && 0 <= j < |recipes| && j !in idx ==> scores[idx[k]] >= scores[j])
  {
    TopMatchesRanked(recipes, scaler, TargetVector(tdee, goal), kernel);
    TopMatches(recipes, scaler, TargetVector(tdee, goal), kernel)
  }

  /** recommend_meals_by_preferences: the top five rows for the user's numbers. */
  function RecommendMealsByPreferences(recipes: seq<Recipe>, scaler: map<Feature, MinMax>,
                                       calories: int, protein: int, fat: int, carbs: int, kernel: Kernel): (r: seq<Recipe>)
    requires Fitted(scaler)
    ensures var scores := Scores(recipes, scaler, PreferenceQuery(calories, protein, fat, carbs), kernel);
            var idx := TopIndices(scores, TopK);
      && |r| == |idx| == MinNat(TopK, |recipes|)
      && (forall k :: 0 <= k < |r| ==> idx[k] < |recipes| && r[k] == recipes[idx[k]])
      && (forall k :: 0 <= k < |r| - 1 ==> scores[idx[k]] >= scores[idx[k + 1]])
      && (forall k, j :: 0 <= k < |r| && 0 <= j < |recipes| && j !in idx ==> scores[idx[k]] >= scores[j])
  {
    TopMatchesRanked(recipes, scaler, PreferenceQuery(calories, protein, fat, carbs), kernel);
    TopMatches(recipes, scaler, PreferenceQuery(calories, protein, fat, carbs), kernel)
  }

  /** A raw row as the script's module-level scaling stores it: its four
      columns scaled with the scaler fitted on the raw table. */
  function ScaleRow(scaler: map<Feature, MinMax>, r: Recipe): Recipe
    requires Fitted(scaler)
  {
    r.(calories := Scale(scaler[Calories], r.calories),
       fat := Scale(scaler[FatContent], r.fat),
       protein := Scale(scaler[ProteinContent], r.protein),
       carbohydrate := Scale(scaler[CarbohydrateContent], r.carbohydrate))
  }

  /** A stored row taken back to kcal and grams. */
  function RawRow(scaler: map<Feature, MinMax>, r: Recipe): Recipe
    requires Fitted(scaler)
  {
    r.(calories := Unscale(scaler[Calories], r.calories),
       fat := Unscale(scaler[FatContent], r.fat),
       protein := Unscale(scaler[ProteinContent], r.protein),
       carbohydrate := Unscale(scaler[CarbohydrateContent], r.carbohydrate))
  }

  lemma RawRowInvertsScaleRow(scaler: map<Feature, MinMax>, r: Recipe)
    requires Fitted(scaler)
    ensures RawRow(scaler, ScaleRow(scaler, r)) == r
  {
    ScaleRoundTrip(scaler[Calories], r.calories);
    ScaleRoundTrip(scaler[FatContent], r.fat);
    ScaleRoundTrip(scaler[ProteinContent], r.protein);
    ScaleRoundTrip(scaler[CarbohydrateContent], r.carbohydrate);
  }

  /** The table as stored after the module-level scaling. */
  function ScaleTable(scaler: map<Feature, MinMax>, raw: seq<Recipe>): seq<Recipe>
    requires Fitted(scaler)
  {
    Filtering.Map(raw, r => ScaleRow(scaler, r))
  }

  /** The threshold test on a stored row's kcal and grams. */
  function RawThresholdMask(scaler: map<Feature, MinMax>, t: Thresholds): Recipe -> bool
  {
    r => Fitted(scaler) && MeetsThresholds(RawRow(scaler, r), t)
  }

  /** The threshold filter with the limits compared to kcal and grams. */
  function Matches(table: seq<Recipe>, scaler: map<Feature, MinMax>, t: Thresholds): seq<Recipe>
  {
    Filtering.Filter(table, RawThresholdMask(scaler, t))
  }

  /** On the stored table, the corrected filter selects exactly the rows whose
      raw values meet the limits, in order. */
  lemma MatchesSelectRawMatches(scaler: map<Feature, MinMax>, raw: seq<Recipe>, t: Thresholds)
    requires Fitted(scaler)
    ensures Matches(ScaleTable(scaler, raw), scaler, t) == ScaleTable(scaler, ThresholdFilter(raw, t))
  {
    forall i | 0 <= i < |raw|
      ensures RawThresholdMask(scaler, t)(ScaleRow(scaler, raw[i])) == ThresholdMask(t)(raw[i])
    {
      RawRowInvertsScaleRow(scaler, raw[i]);
    }
    Filtering.FilterMap(raw, r => ScaleRow(scaler, r), ThresholdMask(t), RawThresholdMask(scaler, t));
  }

  /** As written, the limits are compared to the stored, scaled values, which
      all lie in [0, 1]: a protein minimum of 2 g or more matches no row at
      all, even when a raw row meets every limit. */
  lemma {:induction false} ScaledComparisonMissesMatches(raw: seq<Recipe>, t: Thresholds, i: nat)
    requires 0 <= i < |raw| && MeetsThresholds(raw[i], t) && t.minProtein >= 2
    ensures Fitted(Fit(raw, ScriptColumns))
    ensures ThresholdFilter(ScaleTable(Fit(raw, ScriptColumns), raw), t) == []
    ensures Matches(ScaleTable(Fit(raw, ScriptColumns), raw), Fit(raw, ScriptColumns), t) != []
  {
    var scaler := Fit(raw, ScriptColumns);
    ScriptFitFitted(raw);
    var table := ScaleTable(scaler, raw);
    forall j | 0 <= j < |table| ensures !ThresholdMask(t)(table[j]) {
      StoredProteinAtMostOne(raw, j);
    }
    Filtering.FilterNone(table, ThresholdMask(t));
    MatchesSelectRawMatches(scaler, raw, t);
    var kept := ThresholdFilter(raw, t);
    assert raw[i] in kept;
    assert |ScaleTable(scaler, kept)| == |kept| > 0;
  }

  lemma ScriptFitFitted(raw: seq<Recipe>)
    requires |raw| > 0
    ensures Fitted(Fit(raw, ScriptColumns))
  {
  }

  /** Every stored protein value is at most 1. */
  lemma StoredProteinAtMostOne(raw: seq<Recipe>, j: nat)
    requires 0 <= j < |raw|
    ensures Fitted(Fit(raw, ScriptColumns))
    ensures ScaleTable(Fit(raw, ScriptColumns), raw)[j].protein <= 1.0
  {
    ScriptFitFitted(raw);
    var scaler := Fit(raw, ScriptColumns);
    ScaledCorpusInUnit(raw, ScriptColumns, j, 2);
    assert ScriptColumns[2] == ProteinContent;
    assert Scale(scaler[ProteinContent], Value(raw[j], ProteinContent)) <= 1.0;
    assert ScaleTable(scaler, raw)[j] == ScaleRow(scaler, raw[j]);
  }

  /** What the preference step shows: a sample of the matching rows, or the
      closest rows by similarity when none match. */
  datatype Suggestion =
    | Sampled(pool: seq<Recipe>, count: nat)
    | Closest(meals: seq<Recipe>)

  /** The number of rows drawn from the matches: at most five, as many as
      there are when fewer match. */
  function SampleSize(matches: seq<Recipe>): (n: nat)
    ensures n <= |matches| && n <= TopK
    ensures matches != [] ==> n > 0
    ensures |matches| >= TopK ==> n == TopK
    ensures |matches| < TopK ==> n == |matches|
  {
    MinNat(TopK, |matches|)
  }

  /** The sample size exactly as written, sample(n=5): without replacement it
      fails whenever fewer than five rows match. */
  function SampleSizeAsWritten(matches: seq<Recipe>): Result<nat>
  {
    if |matches| < TopK then Err(SampleLargerThanPopulation) else Ok(TopK)
  }

  /** The preference step with both corrections: limits compared to raw
      values, and at most as many rows sampled as matched. */
  function SuggestByThresholds(recipes: seq<Recipe>, scaler: map<Feature, MinMax>, t: Thresholds, kernel: Kernel): (s: Suggestion)
    requires Fitted(scaler)
    ensures s.Sampled? <==> Matches(recipes, scaler, t) != []
    ensures s.Sampled? ==> s.pool == Matches(recipes, scaler, t) && 0 < s.count <= |s.pool|
    ensures s.Sampled? ==> s.count == SampleSize(s.pool)
    ensures s.Closest? ==> s.meals == RecommendMealsByPreferences(recipes, scaler, t.maxCalories, t.minProtein, t.maxFat, t.maxCarbohydrate, kernel)
  {
    var matches := Matches(recipes, scaler, t);
    if matches != [] then Sampled(matches, SampleSize(matches))
    else Closest(RecommendMealsByPreferences(recipes, scaler, t.maxCalories, t.minProtein, t.maxFat, t.maxCarbohydrate, kernel))
  }

  /** The preference step as written. */
  function SuggestByThresholdsAsWritten(recipes: seq<Recipe>, scaler: map<Feature, MinMax>, t: Thresholds, kernel: Kernel): (s: Result<Suggestion>)
    requires Fitted(scaler)
    ensures s.Err? <==> 0 < |ThresholdFilter(recipes, t)| < TopK
    ensures s.Err? ==> s.error == SampleLargerThanPopulation
    ensures |ThresholdFilter(recipes, t)| >= TopK ==> s == Ok(Sampled(ThresholdFilter(recipes, t), TopK))
    ensures ThresholdFilter(recipes, t) == [] ==>
      s == Ok(Closest(RecommendMealsByPreferences(recipes, scaler, t.maxCalories, t.minProtein, t.maxFat, t.maxCarbohydrate, kernel)))
  {
    var matches := ThresholdFilter(recipes, t);
    if matches != [] then
      match SampleSizeAsWritten(matches)
      case Ok(n) => Ok(Sampled(matches, n))
      case Err(e) => Err(e)
    else Ok(Closest(RecommendMealsByPreferences(recipes, scaler, t.maxCalories, t.minProtein, t.maxFat, t.maxCarbohydrate, kernel)))
  }

  /** One stored row meeting the limits is enough to make the step as
      written fail. */
  lemma OneMatchFailsAsWritten(r: Recipe, scaler: map<Feature, MinMax>, t: Thresholds, kernel: Kernel)
    requires Fitted(scaler) && MeetsThresholds(r, t)
    ensures SuggestByThresholdsAsWritten([r], scaler, t, kernel) == Err(SampleLargerThanPopulation)
  {
    assert [r][1..] == [];
    assert ThresholdFilter([r], t) == [r];
  }

  /** As written, a protein minimum of 2 g or more always falls through to
      the closest rows, whatever the raw table holds. */
  lemma AsWrittenFallsBack(raw: seq<Recipe>, t: Thresholds, i: nat, kernel: Kernel)
    requires 0 <= i < |raw| && MeetsThresholds(raw[i], t) && t.minProtein >= 2
    ensures Fitted(Fit(raw, ScriptColumns))
    ensures SuggestByThresholdsAsWritten(ScaleTable(Fit(raw, ScriptColumns), raw), Fit(raw, ScriptColumns), t, kernel).Ok?
    ensures SuggestByThresholdsAsWritten(ScaleTable(Fit(raw, ScriptColumns), raw), Fit(raw, ScriptColumns), t, kernel).value.Closest?
    ensures SuggestByThresholds(ScaleTable(Fit(raw, ScriptColumns), raw), Fit(raw, ScriptColumns), t, kernel).Sampled?
  {
    ScaledComparisonMissesMatches(raw, t, i);
  }

  /** With the corrected sample size, fewer than five matches are all shown. */
  lemma FewMatchesAllSampled(recipes: seq<Recipe>, scaler: map<Feature, MinMax>, t: Thresholds, kernel: Kernel)
    requires Fitted(scaler)
    requires 0 < |Matches(recipes, scaler, t)| < TopK
    ensures SuggestByThresholds(recipes, scaler, t, kernel) == Sampled(Matches(recipes, scaler, t), |Matches(recipes, scaler, t)|)
  {
  }
}
