/** Records shared by every component: a recipe row of the cleaned corpus,
    the nutrition features, and the error outcomes of the core. */
module Recipes {

  /** One row of the cleaned recipe table. */
  datatype Recipe = Recipe(
    id: int,
    name: string,
    calories: real,
    fat: real,
    sodium: real,
    carbohydrate: real,
    protein: real,
    averageRating: real)

  /** The nutrition columns a recommender can scale and compare. */
  datatype Feature = Calories | FatContent | SodiumContent | CarbohydrateContent | ProteinContent

  /** The columns of app.py's recommender, in the order it lists them. */
  const NutritionColumns: seq<Feature> :=
    [Calories, FatContent, SodiumContent, CarbohydrateContent, ProteinContent]

  /** Where a feature stands among the columns: every feature is listed. */
  function ColumnIndex(f: Feature): (k: nat)
    ensures k < |NutritionColumns| && NutritionColumns[k] == f
  {
    match f
    case Calories => 0
    case FatContent => 1
    case SodiumContent => 2
    case CarbohydrateContent => 3
    case ProteinContent => 4
  }

  lemma AllFeaturesListed()
    ensures forall f: Feature :: f in NutritionColumns
  {
    forall f: Feature ensures f in NutritionColumns {
      assert NutritionColumns[ColumnIndex(f)] == f;
    }
  }

  function Value(r: Recipe, f: Feature): real
  {
    match f
    case Calories => r.calories
    case FatContent => r.fat
    case SodiumContent => r.sodium
    case CarbohydrateContent => r.carbohydrate
    case ProteinContent => r.protein
  }

  /** The values of one column of the corpus, row by row. */
  function Column(corpus: seq<Recipe>, f: Feature): (c: seq<real>)
    ensures |c| == |corpus|
    ensures forall i :: 0 <= i < |corpus| ==> c[i] == Value(corpus[i], f)
  {
    seq(|corpus|, i requires 0 <= i < |corpus| => Value(corpus[i], f))
  }

  /** The values of the chosen columns of one row, in column order. */
  function Vector(r: Recipe, cols: seq<Feature>): (v: seq<real>)
    ensures |v| == |cols|
    ensures forall k :: 0 <= k < |cols| ==> v[k] == Value(r, cols[k])
  {
    seq(|cols|, k requires 0 <= k < |cols| => Value(r, cols[k]))
  }

  function MinNat(a: nat, b: nat): nat
  {
    if a <= b then a else b
  }

  datatype Error =
    | EmptyCorpus                 // a min-max fit over zero rows
    | EmptyPool                   // the scheduler's modulo by a pool of size zero
    | SampleLargerThanPopulation  // sampling more rows than there are, without replacement

  datatype Result<T> = Ok(value: T) | Err(error: Error)
}
