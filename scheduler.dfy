/** The weekly meal-plan scheduler of pythonscript.py: a 7-day by 3-slot grid
    filled day by day, cell i receiving the (i mod n)-th recipe of a shuffled
    pool of n recipes. The shuffle is an input. */
module MealPlanScheduler {

  import opened Recipes
  import Sorting

  const Days: seq<string> := ["Monday", "Tuesday", "Wednesday", "Thursday", "Friday", "Saturday", "Sunday"]
  const MealTimes: seq<string> := ["Breakfast", "Lunch", "Dinner"]

  /** The number of cells of the grid. */
  const Cells: nat := 21

  /** One row of the plan table. */
  datatype PlanRow = PlanRow(
    day: string,
    mealTime: string,
    mealName: string,
    calories: real,
    fat: real,
    protein: real,
    carbohydrate: real)

  function MealRow(day: string, mealTime: string, r: Recipe): PlanRow
  {
    PlanRow(day, mealTime, r.name, r.calories, r.fat, r.protein, r.carbohydrate)
  }

  /** The recipe that cell i receives from the shuffled pool. */
  function Selected(shuffled: seq<Recipe>, i: nat): Recipe
    requires |shuffled| > 0
  {
    shuffled[i % |shuffled|]
  }

  /** Cell i of the grid, walked day-major. */
  function Cell(shuffled: seq<Recipe>, i: nat): PlanRow
    requires |shuffled| > 0 && i < Cells
  {
    MealRow(Days[i / 3], MealTimes[i % 3], Selected(shuffled, i))
  }

  /** generate_weekly_meal_plan, given the order in which the pool was
      shuffled. Each cell takes the recipe at the current length of the plan
      modulo the pool size, so an empty pool fails at the first cell. */
  method GenerateWeeklyMealPlan(pool: seq<Recipe>, shuffled: seq<Recipe>) returns (plan: Result<seq<PlanRow>>)
    requires multiset(shuffled) == multiset(pool)
    ensures pool == [] <==> plan == Err(EmptyPool)
    ensures pool != [] ==> plan.Ok?
    ensures plan.Ok? ==> |shuffled| > 0 && |plan.value| == Cells
    ensures plan.Ok? ==> forall i :: 0 <= i < Cells ==> plan.value[i] == Cell(shuffled, i)
  {
    assert |shuffled| == |multiset(shuffled)| == |multiset(pool)| == |pool|;
    var rows: seq<PlanRow> := [];
    for d := 0 to |Days|
      invariant |rows| == 3 * d
      invariant |rows| > 0 ==> |shuffled| > 0
      invariant forall i :: 0 <= i < |rows| ==> rows[i] == Cell(shuffled, i)
    {
      for m := 0 to |MealTimes|
        invariant |rows| == 3 * d + m
        invariant |rows| > 0 ==> |shuffled| > 0
        invariant forall i :: 0 <= i < |rows| ==> rows[i] == Cell(shuffled, i)
      {
        if |shuffled| == 0 {
          return Err(EmptyPool);
        }
        var selected := shuffled[|rows| % |shuffled|];
        assert (3 * d + m) / 3 == d && (3 * d + m) % 3 == m;
        rows := rows + [MealRow(Days[d], MealTimes[m], selected)];
      }
    }
    plan := Ok(rows);
  }

  lemma DaysDistinct()
    ensures Sorting.Distinct(Days) && Sorting.Distinct(MealTimes)
  {
  }

  /** Every (day, slot) pair of the week occurs in exactly one cell, in
      day-major order. */
  lemma {:induction false} GridCoveredOnce(shuffled: seq<Recipe>)
    requires |shuffled| > 0
    ensures forall d, s :: 0 <= d < |Days| && 0 <= s < |MealTimes| ==>
      Cell(shuffled, 3 * d + s).day == Days[d] && Cell(shuffled, 3 * d + s).mealTime == MealTimes[s]
    ensures forall i, j ::
              && 0 <= i < Cells && 0 <= j < Cells
              && Cell(shuffled, i).day == Cell(shuffled, j).day
              && Cell(shuffled, i).mealTime == Cell(shuffled, j).mealTime
              ==> i == j
  {
    DaysDistinct();
    forall d, s | 0 <= d < |Days| && 0 <= s < |MealTimes|
      ensures Cell(shuffled, 3 * d + s).day == Days[d] && Cell(shuffled, 3 * d + s).mealTime == MealTimes[s]
    {
      assert (3 * d + s) / 3 == d && (3 * d + s) % 3 == s;
    }
    forall i, j | 0 <= i < Cells && 0 <= j < Cells &&
      Cell(shuffled, i).day == Cell(shuffled, j).day && Cell(shuffled, i).mealTime == Cell(shuffled, j).mealTime
      ensures i == j
    {
      assert i / 3 == j / 3 && i % 3 == j % 3;
    }
  }

  /** A row copies the name and the four nutrition values of its recipe. */
  lemma CellCopiesRecipe(shuffled: seq<Recipe>, i: nat)
    requires |shuffled| > 0 && i < Cells
    ensures var row, r := Cell(shuffled, i), shuffled[i % |shuffled|];
      && row.mealName == r.name && row.calories == r.calories && row.fat == r.fat
      && row.protein == r.protein && row.carbohydrate == r.carbohydrate
  {
  }

  /** With at least 21 recipes and none repeated, no recipe is served twice. */
  lemma LargePoolNoRepeats(pool: seq<Recipe>, shuffled: seq<Recipe>)
    requires multiset(shuffled) == multiset(pool)
    requires Sorting.Distinct(pool) && |pool| >= Cells
    ensures forall i, j :: 0 <= i < Cells && 0 <= j < Cells && i != j ==> Selected(shuffled, i) != Selected(shuffled, j)
  {
    Sorting.PermutationDistinct(shuffled, pool);
    assert |shuffled| == |multiset(shuffled)| == |multiset(pool)| == |pool|;
  }

  /** A pool of one recipe serves it in every cell. */
  lemma SingleRecipePool(r: Recipe, shuffled: seq<Recipe>)
    requires multiset(shuffled) == multiset([r])
    ensures forall i :: 0 <= i < Cells ==> Selected(shuffled, i) == r
  {
    assert |shuffled| == |multiset(shuffled)| == 1;
    assert shuffled[0] in multiset([r]);
  }

  /** With two or more distinct recipes, no recipe is served at two
      consecutive cells: cells i and i + 1 take neighbouring positions of the
      shuffled pool. */
  lemma NoImmediateRepeat(pool: seq<Recipe>, shuffled: seq<Recipe>, i: nat)
    requires multiset(shuffled) == multiset(pool)
    requires Sorting.Distinct(pool) && |pool| >= 2
    ensures Selected(shuffled, i) != Selected(shuffled, i + 1)
  {
    Sorting.PermutationDistinct(shuffled, pool);
    assert |shuffled| == |multiset(shuffled)| == |multiset(pool)| == |pool|;
    DivModSuccessor(i, |shuffled|);
  }

  /** The repetition is cyclic: cell i + n repeats cell i. */
  lemma {:induction false} CyclicRepetition(shuffled: seq<Recipe>, i: nat)
    requires |shuffled| > 0
    ensures Selected(shuffled, i + |shuffled|) == Selected(shuffled, i)
  {
    var n := |shuffled|;
    DivModUnique(i + n, n, i / n + 1, i % n);
  }

  lemma DivModUnique(a: int, n: int, q: int, r: int)
    requires n > 0 && 0 <= r < n && a == q * n + r
    ensures a / n == q && a % n == r
  {
    var q', r' := a / n, a % n;
    var e := q - q';
    assert e * n == r' - r;
    if e >= 1 {
      MultipleAtLeast(e, n);
    } else if e <= -1 {
      MultipleAtLeast(-e, n);
    }
  }

  lemma MultipleAtLeast(e: int, n: int)
    requires e >= 1 && n > 0
    ensures e * n >= n
  {
    assert e * n == n + (e - 1) * n;
  }

  /** How many of the first `cells` cells receive recipe r. */
  function Occurrences(shuffled: seq<Recipe>, r: Recipe, cells: nat): nat
    requires |shuffled| > 0
  {
    if cells == 0 then 0
    else Occurrences(shuffled, r, cells - 1) + (if Selected(shuffled, cells - 1) == r then 1 else 0)
  }

  /** How many of 0 .. cells - 1 leave remainder j modulo n. */
  function ResidueCount(cells: nat, n: nat, j: nat): nat
    requires n > 0
  {
    if cells == 0 then 0
    else ResidueCount(cells - 1, n, j) + (if (cells - 1) % n == j then 1 else 0)
  }

  lemma DivModSuccessor(c: nat, n: nat)
    requires n > 0
    ensures c % n + 1 < n ==> (c + 1) / n == c / n && (c + 1) % n == c % n + 1
    ensures c % n + 1 == n ==> (c + 1) / n == c / n + 1 && (c + 1) % n == 0
  {
    var q, r := c / n, c % n;
    if r + 1 < n {
      DivModUnique(c + 1, n, q, r + 1);
    } else {
      DivModUnique(c + 1, n, q + 1, 0);
    }
  }

  lemma {:induction false} ResidueCountFormula(cells: nat, n: nat, j: nat)
    requires 0 <= j < n
    ensures ResidueCount(cells, n, j) == cells / n + (if j < cells % n then 1 else 0)
  {
    if cells > 0 {
      var c := cells - 1;
      ResidueCountFormula(c, n, j);
      DivModSuccessor(c, n);
      if c % n + 1 < n {
        assert cells / n == c / n && cells % n == c % n + 1;
      } else {
        assert cells / n == c / n + 1 && cells % n == 0;
      }
    }
  }

  lemma {:induction false} OccurrencesOfPosition(shuffled: seq<Recipe>, j: nat, cells: nat)
    requires Sorting.Distinct(shuffled) && j < |shuffled|
    ensures Occurrences(shuffled, shuffled[j], cells) == ResidueCount(cells, |shuffled|, j)
  {
    if cells > 0 {
      OccurrencesOfPosition(shuffled, j, cells - 1);
    }
  }

  /** Every recipe of a pool without repeats fills floor(21 / n) or
      ceil(21 / n) cells: one more than floor(21 / n) exactly when it was
      shuffled into one of the first 21 mod n places. */
  lemma BalancedRepetition(pool: seq<Recipe>, shuffled: seq<Recipe>, r: Recipe)
    requires multiset(shuffled) == multiset(pool)
    requires Sorting.Distinct(pool) && r in pool
    ensures |shuffled| == |pool| > 0
    ensures var n := |pool|; var k := Occurrences(shuffled, r, Cells);
      k == Cells / n || k == Cells / n + 1
    ensures forall p :: 0 <= p < |shuffled| && shuffled[p] == r ==>
      Occurrences(shuffled, r, Cells) == Cells / |pool| + (if p < Cells % |pool| then 1 else 0)
  {
    assert |shuffled| == |multiset(shuffled)| == |multiset(pool)| == |pool|;
    Sorting.PermutationDistinct(shuffled, pool);
    assert r in multiset(shuffled);
    var p :| 0 <= p < |shuffled| && shuffled[p] == r;
    OccurrencesOfPosition(shuffled, p, Cells);
    ResidueCountFormula(Cells, |pool|, p);
    forall p' | 0 <= p' < |shuffled| && shuffled[p'] == r
      ensures Occurrences(shuffled, r, Cells) == Cells / |pool| + (if p' < Cells % |pool| then 1 else 0)
    {
      assert p' == p;
    }
  }

  /** A recipe outside the pool is never served. */
  lemma {:induction false} AbsentRecipeNeverServed(shuffled: seq<Recipe>, r: Recipe, cells: nat)
    requires |shuffled| > 0 && r !in shuffled
    ensures Occurrences(shuffled, r, cells) == 0
  {
    if cells > 0 {
      AbsentRecipeNeverServed(shuffled, r, cells - 1);
    }
  }
}
