/** Ranking by similarity: app.py's sort on (Similarity, AverageRating), both
    descending, followed by head(top_n); and pythonscript.py's top-5 indices
    taken from an ascending argsort of the scores. The similarity scores
    themselves come from outside (the cosine kernel is not modelled here). */
module SimilarityRanker {

  import opened Recipes
  import Sorting

  /** A similarity between a scaled query and a scaled recipe row (cosine
      similarity in the program). */
  type Kernel = (seq<real>, seq<real>) -> real

  /** A row of the scaled frame with its Similarity column; `pos` is its index
      label, which is its position in the corpus. */
  datatype ScoredRecipe = ScoredRecipe(pos: nat, recipe: Recipe, similarity: real)

  /** `a` ranks no lower than `b` on the sort key (Similarity, AverageRating),
      both descending. */
  predicate KeyAtLeast(a: ScoredRecipe, b: ScoredRecipe)
  {
    || a.similarity > b.similarity
    || (a.similarity == b.similarity && a.recipe.averageRating >= b.recipe.averageRating)
  }

  /** The order the sort produces: the key, and among rows whose keys tie, the
      corpus order (the multi-key sort is stable). */
  predicate RankLe(a: ScoredRecipe, b: ScoredRecipe)
  {
    || a.similarity > b.similarity
    || (a.similarity == b.similarity && a.recipe.averageRating > b.recipe.averageRating)
    || (a.similarity == b.similarity && a.recipe.averageRating == b.recipe.averageRating && a.pos <= b.pos)
  }

  lemma RankLeTotalPreorder()
    ensures Sorting.TotalPreorder(RankLe)
  {
  }

  /** DataFrame.head(n): the first n rows, or all rows but the last -n when n
      is negative. */
  function Head<T>(s: seq<T>, n: int): (r: seq<T>)
    ensures |r| == if n >= 0 then MinNat(n, |s|) else |s| - MinNat(-n, |s|)
    ensures r == s[..|r|]
  {
    if n >= 0 then s[..MinNat(n, |s|)] else s[..|s| - MinNat(-n, |s|)]
  }

  function SortBySimilarity(rows: seq<ScoredRecipe>): seq<ScoredRecipe>
  {
    Sorting.Sort(rows, RankLe)
  }

  /** The recommendations: the sorted frame's head. */
  function Rank(rows: seq<ScoredRecipe>, topN: int): seq<ScoredRecipe>
  {
    Head(SortBySimilarity(rows), topN)
  }

  predicate DistinctPositions(rows: seq<ScoredRecipe>)
  {
    forall i, j :: 0 <= i < |rows| && 0 <= j < |rows| && i != j ==> rows[i].pos != rows[j].pos
  }

  /** The ranked output is a prefix of a permutation of the rows, of the
      length head promises, and no omitted row has a higher key than a
      returned one. */
  lemma RankIsSortedPrefix(rows: seq<ScoredRecipe>, topN: int)
    ensures var sorted := SortBySimilarity(rows); var r := Rank(rows, topN);
      && multiset(sorted) == multiset(rows)
      && r == sorted[..|r|]
      && |r| == (if topN >= 0 then MinNat(topN, |rows|) else |rows| - MinNat(-topN, |rows|))
      && (forall i, j :: 0 <= i < |r| <= j < |sorted| ==> KeyAtLeast(sorted[i], sorted[j]))
  {
    var sorted := SortBySimilarity(rows);
    RankLeTotalPreorder();
    Sorting.SortSorted(rows, RankLe);
    var r := Rank(rows, topN);
    forall i, j | 0 <= i < |r| <= j < |sorted| ensures KeyAtLeast(sorted[i], sorted[j]) {
      assert RankLe(sorted[i], sorted[j]);
    }
  }

  /** Adjacent output rows: similarity strictly decreases, or it ties and the
      rating does not increase; rows whose keys tie keep their corpus order. */
  lemma RankAdjacentOrder(rows: seq<ScoredRecipe>, topN: int)
    ensures var r := Rank(rows, topN);
      && (forall i :: 0 <= i < |r| - 1 ==>
            || r[i].similarity > r[i + 1].similarity
            || (r[i].similarity == r[i + 1].similarity && r[i].recipe.averageRating >= r[i + 1].recipe.averageRating))
      && (DistinctPositions(rows) ==>
            forall i :: 0 <= i < |r| - 1 && KeyAtLeast(r[i + 1], r[i]) ==> r[i].pos < r[i + 1].pos)
  {
    var sorted := SortBySimilarity(rows);
    RankLeTotalPreorder();
    Sorting.SortSorted(rows, RankLe);
    var r := Rank(rows, topN);
    forall i | 0 <= i < |r| - 1 ensures RankLe(r[i], r[i + 1]) {
      assert r[i] == sorted[i] && r[i + 1] == sorted[i + 1];
    }
    if DistinctPositions(rows) {
      Sorting.SortMembers(rows, RankLe);
      forall i | 0 <= i < |r| - 1 && KeyAtLeast(r[i + 1], r[i]) ensures r[i].pos < r[i + 1].pos {
        SortedPositionsDiffer(rows, i, i + 1);
        assert r[i] == sorted[i] && r[i + 1] == sorted[i + 1];
      }
    }
  }

  /** Two places of the sorted rows hold rows with different positions. */
  lemma SortedPositionsDiffer(rows: seq<ScoredRecipe>, p: nat, q: nat)
    requires DistinctPositions(rows)
    requires p < q < |rows|
    ensures SortBySimilarity(rows)[p].pos != SortBySimilarity(rows)[q].pos
  {
    var sorted := SortBySimilarity(rows);
    assert Sorting.Distinct(rows);
    Sorting.SortDistinct(rows, RankLe);
    Sorting.SortMembers(rows, RankLe);
    assert sorted[p] in rows && sorted[q] in rows;
    var i :| 0 <= i < |rows| && rows[i] == sorted[p];
    var j :| 0 <= j < |rows| && rows[j] == sorted[q];
    assert sorted[p] != sorted[q];
  }

  /** A score paired with the index it had, for argsort. */
  datatype IndexedScore = IndexedScore(index: nat, score: real)

  /** argsort's ascending order, with ties broken by index. */
  predicate AscendingLe(a: IndexedScore, b: IndexedScore)
  {
    a.score < b.score || (a.score == b.score && a.index <= b.index)
  }

  lemma AscendingLeTotalPreorder()
    ensures Sorting.TotalPreorder(AscendingLe)
  {
  }

  function Indexed(scores: seq<real>): (s: seq<IndexedScore>)
    ensures |s| == |scores|
    ensures forall i :: 0 <= i < |s| ==> s[i] == IndexedScore(i, scores[i])
  {
    seq(|scores|, i requires 0 <= i < |scores| => IndexedScore(i, scores[i]))
  }

  function Indices(s: seq<IndexedScore>): (r: seq<nat>)
    ensures |r| == |s|
    ensures forall i :: 0 <= i < |s| ==> r[i] == s[i].index
  {
    seq(|s|, i requires 0 <= i < |s| => s[i].index)
  }

  /** numpy's argsort: the indices of the scores in ascending score order. */
  function ArgSort(scores: seq<real>): seq<nat>
  {
    Indices(Sorting.Sort(Indexed(scores), AscendingLe))
  }

  function Reverse<T>(s: seq<T>): (r: seq<T>)
    ensures |r| == |s|
    ensures forall i :: 0 <= i < |s| ==> r[i] == s[|s| - 1 - i]
  {
    if s == [] then [] else Reverse(s[1..]) + [s[0]]
  }

  /** argsort()[-k:][::-1]: the last k indices of the ascending argsort, the
      highest score first. */
  function TopIndices(scores: seq<real>, k: nat): seq<nat>
  {
    var a := ArgSort(scores);
    Reverse(a[|a| - MinNat(k, |a|)..])
  }

  /** argsort returns every index exactly once, in ascending score order. */
  lemma {:induction false} ArgSortIsSortingPermutation(scores: seq<real>)
    ensures var a := ArgSort(scores);
      && |a| == |scores|
      && (forall i :: 0 <= i < |a| ==> a[i] < |scores|)
      && Sorting.Distinct(a)
      && (forall j :: 0 <= j < |scores| ==> j in a)
      && (forall i, j :: 0 <= i < j < |a| ==> scores[a[i]] <= scores[a[j]])
  {
    var s := Indexed(scores);
    var t := Sorting.Sort(s, AscendingLe);
    var a := ArgSort(scores);
    AscendingLeTotalPreorder();
    Sorting.SortSorted(s, AscendingLe);
    Sorting.SortMembers(s, AscendingLe);
    assert Sorting.Distinct(s);
    Sorting.SortDistinct(s, AscendingLe);
    forall i | 0 <= i < |t| ensures t[i].index < |scores| && t[i] == IndexedScore(t[i].index, scores[t[i].index]) {
      assert t[i] in s;
    }
    forall i, j | 0 <= i < |a| && 0 <= j < |a| && i != j ensures a[i] != a[j] {
      assert t[i] != t[j];
    }
    forall j | 0 <= j < |scores| ensures j in a {
      assert s[j] in t;
      var p :| 0 <= p < |t| && t[p] == s[j];
      assert a[p] == j;
    }
    forall i, j | 0 <= i < j < |a| ensures scores[a[i]] <= scores[a[j]] {
      assert AscendingLe(t[i], t[j]);
    }
  }

  /** The i-th top index is the i-th from the end of the argsort. */
  lemma TopIndicesFromEnd(scores: seq<real>, k: nat)
    ensures var a := ArgSort(scores); var r := TopIndices(scores, k);
      && |a| == |scores|
      && |r| == MinNat(k, |a|)
      && forall i :: 0 <= i < |r| ==> r[i] == a[|a| - 1 - i]
  {
    ArgSortIsSortingPermutation(scores);
  }

  /** Top-k selection returns min(k, n) distinct indices with non-increasing
      scores, and every returned score is at least every omitted one. */
  lemma {:induction false} TopIndicesCorrect(scores: seq<real>, k: nat)
    ensures |TopIndices(scores, k)| == MinNat(k, |scores|)
    ensures forall i :: 0 <= i < |TopIndices(scores, k)| ==> TopIndices(scores, k)[i] < |scores|
    ensures Sorting.Distinct(TopIndices(scores, k))
    ensures var r := TopIndices(scores, k);
      forall i :: 0 <= i < |r| - 1 ==> scores[r[i]] >= scores[r[i + 1]]
    ensures var r := TopIndices(scores, k);
      forall i, j :: 0 <= i < |r| && 0 <= j < |scores| && j !in r ==> scores[r[i]] >= scores[j]
  {
    TopIndicesFromEnd(scores, k);
    TopIndicesDistinctInRange(scores, k);
    TopIndicesOrdered(scores, k);
    TopIndicesDominate(scores, k);
  }

  lemma TopIndicesDistinctInRange(scores: seq<real>, k: nat)
    ensures forall i :: 0 <= i < |TopIndices(scores, k)| ==> TopIndices(scores, k)[i] < |scores|
    ensures Sorting.Distinct(TopIndices(scores, k))
  {
    var a := ArgSort(scores);
    ArgSortIsSortingPermutation(scores);
    TopIndicesFromEnd(scores, k);
    var n := |a|;
    var r := TopIndices(scores, k);
    forall i, j | 0 <= i < |r| && 0 <= j < |r| && i != j ensures r[i] != r[j] {
      assert a[n - 1 - i] != a[n - 1 - j];
    }
  }

  lemma TopIndicesOrdered(scores: seq<real>, k: nat)
    ensures var r := TopIndices(scores, k);
      (forall i :: 0 <= i < |r| ==> r[i] < |scores|) &&
      forall i :: 0 <= i < |r| - 1 ==> scores[r[i]] >= scores[r[i + 1]]
  {
    var a := ArgSort(scores);
    ArgSortIsSortingPermutation(scores);
    TopIndicesFromEnd(scores, k);
    TopIndicesDistinctInRange(scores, k);
    var n := |a|;
    var r := TopIndices(scores, k);
    forall i | 0 <= i < |r| - 1 ensures scores[r[i]] >= scores[r[i + 1]] {
      assert r[i] == a[n - 1 - i] && r[i + 1] == a[n - 1 - (i + 1)];
    }
  }

  lemma TopIndicesDominate(scores: seq<real>, k: nat)
    ensures var r := TopIndices(scores, k);
      forall i, j :: 0 <= i < |r| && 0 <= j < |scores| && j !in r ==> r[i] < |scores| && scores[r[i]] >= scores[j]
  {
    var a := ArgSort(scores);
    ArgSortIsSortingPermutation(scores);
    TopIndicesFromEnd(scores, k);
    var n := |a|;
    var r := TopIndices(scores, k);
    var m := |r|;
    forall i, j | 0 <= i < m && 0 <= j < |scores| && j !in r ensures r[i] < |scores| && scores[r[i]] >= scores[j] {
      OmittedComesEarlier(scores, k, j);
      var p :| 0 <= p < n - m && a[p] == j;
      assert r[i] == a[n - 1 - i];
    }
  }

  /** An index that top-k leaves out sits before the last k places of the
      argsort. */
  lemma OmittedComesEarlier(scores: seq<real>, k: nat, j: nat)
    requires j < |scores| && j !in TopIndices(scores, k)
    ensures exists p :: 0 <= p < |scores| - |TopIndices(scores, k)| && ArgSort(scores)[p] == j
  {
    var a := ArgSort(scores);
    ArgSortIsSortingPermutation(scores);
    TopIndicesFromEnd(scores, k);
    var r := TopIndices(scores, k);
    var n, m := |a|, |r|;
    forall q | n - m <= q < n ensures a[q] != j {
      assert a[q] == r[n - 1 - q];
      assert r[n - 1 - q] in r;
    }
    assert j in a;
    var p :| 0 <= p < n && a[p] == j;
    assert p < n - m;
  }
}
