/** The goal-based calorie target with its inclusive window filter
    (app.py's recommend_meals), and the conjunctive nutrition threshold filter
    of pythonscript.py's command-line flow. Both are boolean masks over the
    table, so both keep the table's order. */
module CalorieRangeFilter {

  import opened Recipes
  import Filtering

  /** The calorie target for a goal: a 500 kcal surplus to gain weight, a
      500 kcal deficit to lose it, and the expenditure itself for any other
      goal string, recognised or not. */
  function TargetCalories(tdee: real, goal: string): real
  {
    if goal == "Gain Weight" then tdee + 500.0
    else if goal == "Lose Weight" then tdee - 500.0
    else tdee
  }

  /** The three goals, and the fallback for every other string. */
  lemma TargetByGoal(tdee: real, goal: string)
    ensures TargetCalories(tdee, "Gain Weight") == tdee + 500.0
    ensures TargetCalories(tdee, "Lose Weight") == tdee - 500.0
    ensures goal != "Gain Weight" && goal != "Lose Weight" ==> TargetCalories(tdee, goal) == tdee
    ensures TargetCalories(tdee, "Lose Weight") <= TargetCalories(tdee, goal) <= TargetCalories(tdee, "Gain Weight")
  {
  }

  /** A closed calorie interval. */
  datatype CalorieRange = CalorieRange(low: real, high: real)

  /** 100 kcal either side of the target. */
  function Window(tdee: real, goal: string): (w: CalorieRange)
    ensures w.high - w.low == 200.0
    ensures (w.low + w.high) / 2.0 == TargetCalories(tdee, goal)
  {
    var target := TargetCalories(tdee, goal);
    CalorieRange(target - 100.0, target + 100.0)
  }

  predicate InRange(r: Recipe, w: CalorieRange)
  {
    w.low <= r.calories <= w.high
  }

  function RangeMask(w: CalorieRange): Recipe -> bool
  {
    r => InRange(r, w)
  }

  /** recommend_meals: the recipes whose calories fall in the goal's window. */
  function RecommendMeals(recipes: seq<Recipe>, tdee: real, goal: string): (r: seq<Recipe>)
    ensures |r| <= |recipes|
    ensures forall i :: 0 <= i < |r| ==> r[i] in recipes && InRange(r[i], Window(tdee, goal))
    ensures forall i :: 0 <= i < |recipes| && InRange(recipes[i], Window(tdee, goal)) ==> recipes[i] in r
  {
    Filtering.Filter(recipes, RangeMask(Window(tdee, goal)))
  }

  /** The result holds exactly the recipes with target - 100 <= Calories <=
      target + 100, each as often as in the input, in the input's order; an
      empty result is an ordinary value. */
  lemma {:induction false} RecommendMealsExact(recipes: seq<Recipe>, tdee: real, goal: string, x: Recipe)
    ensures var r := RecommendMeals(recipes, tdee, goal); var t := TargetCalories(tdee, goal);
      && (forall i :: 0 <= i < |r| ==> r[i] in recipes && t - 100.0 <= r[i].calories <= t + 100.0)
      && (forall i :: 0 <= i < |recipes| && t - 100.0 <= recipes[i].calories <= t + 100.0 ==> recipes[i] in r)
      && multiset(r)[x] == if t - 100.0 <= x.calories <= t + 100.0 then multiset(recipes)[x] else 0
  {
    var keep := RangeMask(Window(tdee, goal));
    Filtering.FilterMultiplicity(recipes, keep, x);
  }

  /** Order preservation: the filter of a concatenation is the concatenation
      of the filters. */
  lemma RecommendMealsKeepsOrder(a: seq<Recipe>, b: seq<Recipe>, tdee: real, goal: string)
    ensures RecommendMeals(a + b, tdee, goal) == RecommendMeals(a, tdee, goal) + RecommendMeals(b, tdee, goal)
  {
    Filtering.FilterAppend(a, b, RangeMask(Window(tdee, goal)));
  }

  /** The user's limits: at most this many calories, fat and carbohydrate
      grams, and at least this many protein grams. */
  datatype Thresholds = Thresholds(maxCalories: int, minProtein: int, maxFat: int, maxCarbohydrate: int)

  predicate MeetsThresholds(r: Recipe, t: Thresholds)
  {
    && r.calories <= t.maxCalories as real
    && r.protein >= t.minProtein as real
    && r.fat <= t.maxFat as real
    && r.carbohydrate <= t.maxCarbohydrate as real
  }

  function ThresholdMask(t: Thresholds): Recipe -> bool
  {
    r => MeetsThresholds(r, t)
  }

  function ThresholdFilter(recipes: seq<Recipe>, t: Thresholds): seq<Recipe>
  {
    Filtering.Filter(recipes, ThresholdMask(t))
  }

  /** The threshold filter keeps exactly the rows meeting all four limits,
      each as often as in the input. */
  lemma {:induction false} ThresholdFilterExact(recipes: seq<Recipe>, t: Thresholds, x: Recipe)
    ensures var r := ThresholdFilter(recipes, t);
      && (forall i :: 0 <= i < |r| ==> r[i] in recipes && MeetsThresholds(r[i], t))
      && (forall i :: 0 <= i < |recipes| && MeetsThresholds(recipes[i], t) ==> recipes[i] in r)
      && multiset(r)[x] == if MeetsThresholds(x, t) then multiset(recipes)[x] else 0
  {
    Filtering.FilterMultiplicity(recipes, ThresholdMask(t), x);
  }

  lemma ThresholdFilterKeepsOrder(a: seq<Recipe>, b: seq<Recipe>, t: Thresholds)
    ensures ThresholdFilter(a + b, t) == ThresholdFilter(a, t) + ThresholdFilter(b, t)
  {
    Filtering.FilterAppend(a, b, ThresholdMask(t));
  }

  /** With an expenditure of 2000 kcal the windows are [2400, 2600] to gain,
      [1400, 1600] to lose and [1900, 2100] to maintain. */
  lemma WindowsAt2000()
    ensures Window(2000.0, "Gain Weight") == CalorieRange(2400.0, 2600.0)
    ensures Window(2000.0, "Lose Weight") == CalorieRange(1400.0, 1600.0)
    ensures Window(2000.0, "Maintain Weight") == CalorieRange(1900.0, 2100.0)
  {
  }

  /** Recipes of 500, 1500 and 2500 kcal leave nothing in the maintenance
      window of a 2000 kcal expenditure. */
  lemma NoMatchAt2000(a: Recipe, b: Recipe, c: Recipe)
    requires a.calories == 500.0 && b.calories == 1500.0 && c.calories == 2500.0
    ensures RecommendMeals([a, b, c], 2000.0, "Maintain Weight") == []
  {
    WindowsAt2000();
    var keep := RangeMask(Window(2000.0, "Maintain Weight"));
    assert !keep(a) && !keep(b) && !keep(c);
    assert [c][1..] == [];
    assert Filtering.Filter([c], keep) == [];
    assert [b, c][1..] == [c];
    assert Filtering.Filter([b, c], keep) == [];
    assert [a, b, c][1..] == [b, c];
  }
}
