/** app.py's preference-based recommender: complete the preferences, fit the
    scaler on the corpus, scale corpus and preferences with the same fit,
    score every row with the similarity kernel, sort on (Similarity,
    AverageRating) descending and keep the head. */
module App {

  import opened Recipes
  import opened FeatureNormalizer
  import opened SimilarityRanker

  /** The row of the scaled copy of the table: the five nutrition values
      replaced by their scaled values, every other column as it was. */
  function ScaleRecipe(model: map<Feature, MinMax>, r: Recipe): (s: Recipe)
    requires forall f: Feature :: f in model
    ensures forall f: Feature :: Value(s, f) == Scale(model[f], Value(r, f))
    ensures s.id == r.id && s.name == r.name && s.averageRating == r.averageRating
  {
    r.(calories := Scale(model[Calories], r.calories),
       fat := Scale(model[FatContent], r.fat),
       sodium := Scale(model[SodiumContent], r.sodium),
       carbohydrate := Scale(model[CarbohydrateContent], r.carbohydrate),
       protein := Scale(model[ProteinContent], r.protein))
  }

  lemma FitCoversAllFeatures(corpus: seq<Recipe>)
    requires |corpus| > 0
    ensures forall f: Feature :: f in Fit(corpus, NutritionColumns)
  {
    AllFeaturesListed();
  }

  /** The completed preferences as a vector in column order. */
  function PreferenceVector(prefs: map<Feature, real>): (v: seq<real>)
    requires forall f: Feature :: f in prefs
    ensures |v| == |NutritionColumns|
    ensures forall k :: 0 <= k < |v| ==> v[k] == prefs[NutritionColumns[k]]
  {
    seq(|NutritionColumns|, k requires 0 <= k < |NutritionColumns| => prefs[NutritionColumns[k]])
  }

  /** The scaled user vector: transformed with the corpus fit, not clamped. */
  function UserVector(corpus: seq<Recipe>, prefs: map<Feature, real>): seq<real>
    requires |corpus| > 0
    requires forall f: Feature :: f in prefs
  {
    FitCoversAllFeatures(corpus);
    TransformVector(Fit(corpus, NutritionColumns), NutritionColumns, PreferenceVector(prefs))
  }

  /** The scaled corpus with its Similarity column. */
  function ScoredRows(corpus: seq<Recipe>, prefs: map<Feature, real>, kernel: Kernel): (rows: seq<ScoredRecipe>)
    requires |corpus| > 0
    requires forall f: Feature :: f in prefs
    ensures |rows| == |corpus|
    ensures DistinctPositions(rows)
    ensures forall f: Feature :: f in Fit(corpus, NutritionColumns)
    ensures forall i :: 0 <= i < |corpus| ==>
      rows[i] == ScoredRow(Fit(corpus, NutritionColumns), UserVector(corpus, prefs), kernel, i, corpus[i])
  {
    FitCoversAllFeatures(corpus);
    var model := Fit(corpus, NutritionColumns);
    var user := UserVector(corpus, prefs);
    seq(|corpus|, i requires 0 <= i < |corpus| => ScoredRow(model, user, kernel, i, corpus[i]))
  }

  /** One row of the scored frame: the scaled recipe at position i and its
      similarity to the scaled user vector. */
  function ScoredRow(model: map<Feature, MinMax>, user: seq<real>, kernel: Kernel, i: nat, r: Recipe): (row: ScoredRecipe)
    requires forall f: Feature :: f in model
    ensures row.pos == i && row.recipe == ScaleRecipe(model, r)
    ensures row.similarity == kernel(user, TransformVector(model, NutritionColumns, Vector(r, NutritionColumns)))
  {
    ScoredRecipe(i, ScaleRecipe(model, r), kernel(user, TransformVector(model, NutritionColumns, Vector(r, NutritionColumns))))
  }

  /** recommend_recipes. The completed preferences are returned as well,
      because the program fills them into the caller's dictionary. */
  method RecommendRecipes(userPrefs: map<Feature, real>, corpus: seq<Recipe>, topN: int, kernel: Kernel)
    returns (completed: map<Feature, real>, result: Result<seq<ScoredRecipe>>)
    ensures corpus == [] ==> completed == userPrefs && result == Err(EmptyCorpus)
    ensures corpus != [] ==> forall f: Feature :: f in completed
    ensures corpus != [] ==> forall f :: f in userPrefs ==> completed[f] == userPrefs[f]
    ensures corpus != [] ==> forall f :: f !in userPrefs ==> completed[f] == Median(Column(corpus, f))
    ensures corpus != [] ==> result == Ok(Rank(ScoredRows(corpus, completed, kernel), topN))
    ensures result.Ok? ==>
      |result.value| == if topN >= 0 then MinNat(topN, |corpus|) else |corpus| - MinNat(-topN, |corpus|)
    ensures result.Ok? ==> forall i :: 0 <= i < |result.value| - 1 ==>
      || result.value[i].similarity > result.value[i + 1].similarity
      || (result.value[i].similarity == result.value[i + 1].similarity
          && result.value[i].recipe.averageRating >= result.value[i + 1].recipe.averageRating)
  {
    if |corpus| == 0 {
      return userPrefs, Err(EmptyCorpus);
    }
    completed := CompletePreferences(userPrefs, corpus);
    var rows := ScoredRows(corpus, completed, kernel);
    RankIsSortedPrefix(rows, topN);
    RankAdjacentOrder(rows, topN);
    result := Ok(Rank(rows, topN));
  }

  /** The scaled corpus and the scaled user vector use one fit: feature k of
      row i and of the user vector are both (x - min) / (max - min) of that
      column. */
  lemma {:induction false} SameFitForCorpusAndQuery(corpus: seq<Recipe>, prefs: map<Feature, real>, kernel: Kernel, i: nat, f: Feature)
    requires 0 <= i < |corpus|
    requires forall g: Feature :: g in prefs
    ensures f in Fit(corpus, NutritionColumns)
    ensures var m := Fit(corpus, NutritionColumns)[f];
      && m == FitColumn(Column(corpus, f))
      && Value(ScoredRows(corpus, prefs, kernel)[i].recipe, f) == Scale(m, Value(corpus[i], f))
      && (exists k :: 0 <= k < |NutritionColumns| && NutritionColumns[k] == f
                      && UserVector(corpus, prefs)[k] == Scale(m, prefs[f]))
  {
    FitCoversAllFeatures(corpus);
    var k := ColumnIndex(f);
    assert UserVector(corpus, prefs)[k] == Scale(Fit(corpus, NutritionColumns)[f], prefs[f]);
  }

  /** A preference above the corpus maximum of a non-constant column scales
      above 1, and one below the minimum below 0: nothing is clamped. A
      preference filled with the median scales into [0, 1]. */
  lemma {:induction false} PreferenceScaling(corpus: seq<Recipe>, f: Feature, x: real)
    requires |corpus| > 0
    ensures f in Fit(corpus, NutritionColumns)
    ensures var m := Fit(corpus, NutritionColumns)[f];
      && (m.lo < m.hi && x > m.hi ==> Scale(m, x) > 1.0)
      && (m.lo < m.hi && x < m.lo ==> Scale(m, x) < 0.0)
      && 0.0 <= Scale(m, Median(Column(corpus, f))) <= 1.0
  {
    FitCoversAllFeatures(corpus);
    var c := Column(corpus, f);
    var m := Fit(corpus, NutritionColumns)[f];
    assert m == FitColumn(c) == MinMax(Min(c), Max(c));
    if m.lo < m.hi {
      ScaleNotClamped(m, x);
    }
    MedianBounds(c);
    ScaleWithinFit(m, Median(c));
  }
}
