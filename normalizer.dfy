/** Min-max feature scaling (sklearn's MinMaxScaler fitted on the request's
    corpus) and the median completion of a partial user preference vector. */
module FeatureNormalizer {

  import opened Recipes
  import Sorting

  function Min(s: seq<real>): (m: real)
    requires |s| > 0
    ensures m in s
    ensures forall i :: 0 <= i < |s| ==> m <= s[i]
  {
    if |s| == 1 then s[0]
    else
      var rest := Min(s[1..]);
      assert forall i :: 1 <= i < |s| ==> s[i] == s[1..][i - 1];
      if s[0] <= rest then s[0] else rest
  }

  function Max(s: seq<real>): (m: real)
    requires |s| > 0
    ensures m in s
    ensures forall i :: 0 <= i < |s| ==> s[i] <= m
  {
    if |s| == 1 then s[0]
    else
      var rest := Max(s[1..]);
      assert forall i :: 1 <= i < |s| ==> s[i] == s[1..][i - 1];
      if s[0] >= rest then s[0] else rest
  }

  /** The (data_min, data_max) pair fitted on one column. */
  datatype MinMax = MinMax(lo: real, hi: real)

  /** Fitting one column: its least and greatest values, both attained. */
  function FitColumn(c: seq<real>): (m: MinMax)
    requires |c| > 0
    ensures m.lo in c && m.hi in c
    ensures forall i :: 0 <= i < |c| ==> m.lo <= c[i] <= m.hi
  {
    MinMax(Min(c), Max(c))
  }

  /** The normalization model: one fitted pair per listed feature, from this
      corpus alone. */
  function Fit(corpus: seq<Recipe>, cols: seq<Feature>): map<Feature, MinMax>
    requires |corpus| > 0
  {
    map f | f in cols :: FitColumn(Column(corpus, f))
  }

  /** The divisor of the transform: the fitted range, replaced by 1 when it is
      zero, as the scaler does so that it never divides by zero. */
  function Range(m: MinMax): real
  {
    if m.hi - m.lo == 0.0 then 1.0 else m.hi - m.lo
  }

  /** transform: (x - min) / (max - min), with no clamping. */
  function Scale(m: MinMax, x: real): real
  {
    (x - m.lo) / Range(m)
  }

  /** inverse_transform. */
  function Unscale(m: MinMax, y: real): real
  {
    y * Range(m) + m.lo
  }

  /** Scaling a whole vector of listed features with their fitted pairs. */
  function TransformVector(model: map<Feature, MinMax>, cols: seq<Feature>, v: seq<real>): (w: seq<real>)
    requires |v| == |cols|
    requires forall k :: 0 <= k < |cols| ==> cols[k] in model
    ensures |w| == |v|
    ensures forall k :: 0 <= k < |v| ==> w[k] == Scale(model[cols[k]], v[k])
  {
    seq(|v|, k requires 0 <= k < |v| => Scale(model[cols[k]], v[k]))
  }

  lemma ScaleRoundTrip(m: MinMax, x: real)
    ensures Unscale(m, Scale(m, x)) == x
    ensures Scale(m, Unscale(m, x)) == x
  {
  }

  /** A value inside the fitted range scales into [0, 1]. */
  lemma ScaleWithinFit(m: MinMax, x: real)
    requires m.lo <= x <= m.hi
    ensures 0.0 <= Scale(m, x) <= 1.0
  {
    if m.lo < m.hi {
      var d := m.hi - m.lo;
      assert Scale(m, x) * d == x - m.lo;
    }
  }

  /** The column minimum scales to 0; a column maximum above it scales to 1. */
  lemma ScaleEndpoints(m: MinMax)
    requires m.lo <= m.hi
    ensures Scale(m, m.lo) == 0.0
    ensures m.lo < m.hi ==> Scale(m, m.hi) == 1.0
  {
    if m.lo < m.hi {
      var d := m.hi - m.lo;
      assert Range(m) == d;
      assert Scale(m, m.hi) == d / d;
      SelfQuotient(d);
    }
  }

  /** Scaling keeps the order of values within a column. */
  lemma ScaleMonotone(m: MinMax, x: real, y: real)
    requires m.lo <= m.hi
    requires x <= y
    ensures Scale(m, x) <= Scale(m, y)
  {
    var d := Range(m);
    assert d > 0.0;
    assert Scale(m, y) - Scale(m, x) == (y - x) / d;
  }

  /** Values outside the fitted range are extrapolated, not clamped. */
  lemma ScaleNotClamped(m: MinMax, x: real)
    requires m.lo < m.hi
    ensures x > m.hi ==> Scale(m, x) > 1.0
    ensures x < m.lo ==> Scale(m, x) < 0.0
  {
    var d := m.hi - m.lo;
    assert Range(m) == d;
    if x > m.hi {
      QuotientAboveOne(x - m.lo, d);
    } else if x < m.lo {
      QuotientNegative(x - m.lo, d);
    }
  }

  lemma SelfQuotient(d: real)
    requires d > 0.0
    ensures d / d == 1.0
  {
  }

  lemma QuotientAboveOne(a: real, d: real)
    requires a > d > 0.0
    ensures a / d > 1.0
  {
  }

  lemma QuotientNegative(a: real, d: real)
    requires a < 0.0 < d
    ensures a / d < 0.0
  {
  }

  /** A zero-variance column maps every row to 0, and a query to its distance
      from the constant. */
  lemma ScaleDegenerate(m: MinMax, x: real)
    requires m.lo == m.hi
    ensures Scale(m, x) == x - m.lo
  {
  }

  /** Every scaled corpus value lies in [0, 1]. */
  lemma {:induction false} ScaledCorpusInUnit(corpus: seq<Recipe>, cols: seq<Feature>, i: nat, k: nat)
    requires 0 <= i < |corpus| && 0 <= k < |cols|
    ensures cols[k] in Fit(corpus, cols)
    ensures 0.0 <= Scale(Fit(corpus, cols)[cols[k]], Value(corpus[i], cols[k])) <= 1.0
  {
    var c := Column(corpus, cols[k]);
    var m := FitColumn(c);
    assert Fit(corpus, cols)[cols[k]] == m;
    assert m.lo <= c[i] <= m.hi;
    ScaleWithinFit(m, c[i]);
  }

  /** In every fitted column some row scales to 0 and, unless the column is
      constant, some row scales to 1. */
  lemma {:induction false} ScaledCorpusAttainsBounds(corpus: seq<Recipe>, cols: seq<Feature>, k: nat)
    requires |corpus| > 0 && 0 <= k < |cols|
    ensures cols[k] in Fit(corpus, cols)
    ensures exists i :: 0 <= i < |corpus| && Scale(Fit(corpus, cols)[cols[k]], Value(corpus[i], cols[k])) == 0.0
    ensures (exists i, j :: 0 <= i < |corpus| && 0 <= j < |corpus| && Value(corpus[i], cols[k]) != Value(corpus[j], cols[k]))
            ==> exists i :: 0 <= i < |corpus| && Scale(Fit(corpus, cols)[cols[k]], Value(corpus[i], cols[k])) == 1.0
  {
    var c := Column(corpus, cols[k]);
    var m := FitColumn(c);
    assert Fit(corpus, cols)[cols[k]] == m;
    ScaleEndpoints(m);
    var lo :| 0 <= lo < |c| && c[lo] == m.lo;
    assert Scale(m, Value(corpus[lo], cols[k])) == 0.0;
    var hi :| 0 <= hi < |c| && c[hi] == m.hi;
    if exists i, j :: 0 <= i < |corpus| && 0 <= j < |corpus| && Value(corpus[i], cols[k]) != Value(corpus[j], cols[k]) {
      var i, j :| 0 <= i < |corpus| && 0 <= j < |corpus| && Value(corpus[i], cols[k]) != Value(corpus[j], cols[k]);
      assert c[i] != c[j];
      assert m.lo < m.hi;
      assert Scale(m, Value(corpus[hi], cols[k])) == 1.0;
    }
  }

  function RealLe(a: real, b: real): bool
  {
    a <= b
  }

  lemma RealLeTotalPreorder()
    ensures Sorting.TotalPreorder(RealLe)
  {
  }

  /** The middle value of a sorted column, or the mean of its two middle
      values when it has an even number of rows. */
  function Middle(t: seq<real>): real
    requires |t| > 0
  {
    var h := |t| / 2;
    if |t| % 2 == 1 then t[h] else (t[h - 1] + t[h]) / 2.0
  }

  /** The column median, as pandas computes it. */
  function Median(c: seq<real>): real
    requires |c| > 0
  {
    Middle(Sorting.Sort(c, RealLe))
  }

  /** The median lies between the column's least and greatest values, so a
      preference filled with it scales into [0, 1]. */
  lemma MedianBounds(c: seq<real>)
    requires |c| > 0
    ensures Min(c) <= Median(c) <= Max(c)
  {
    var lo, hi := Min(c), Max(c);
    SortedWithinBounds(c, lo, hi);
    MiddleBounds(Sorting.Sort(c, RealLe), lo, hi);
  }

  lemma SortedWithinBounds(c: seq<real>, lo: real, hi: real)
    requires forall i :: 0 <= i < |c| ==> lo <= c[i] <= hi
    ensures forall i :: 0 <= i < |c| ==> lo <= Sorting.Sort(c, RealLe)[i] <= hi
  {
    var t := Sorting.Sort(c, RealLe);
    Sorting.SortMembers(c, RealLe);
    forall i | 0 <= i < |t| ensures lo <= t[i] <= hi {
      assert t[i] in c;
    }
  }

  lemma MiddleBounds(t: seq<real>, lo: real, hi: real)
    requires |t| > 0
    requires forall i :: 0 <= i < |t| ==> lo <= t[i] <= hi
    ensures lo <= Middle(t) <= hi
  {
  }

  lemma MiddleSplits(t: seq<real>)
    requires |t| > 0
    requires Sorting.Sorted(t, RealLe)
    ensures forall i :: 0 <= i < |t| / 2 ==> t[i] <= Middle(t)
    ensures forall i :: (|t| + 1) / 2 <= i < |t| ==> Middle(t) <= t[i]
  {
    var h := |t| / 2;
    var m := Middle(t);
    if |t| % 2 == 1 {
      forall i | 0 <= i < h ensures t[i] <= m {
        assert RealLe(t[i], t[h]);
      }
      forall i | (|t| + 1) / 2 <= i < |t| ensures m <= t[i] {
        assert RealLe(t[h], t[i]);
      }
    } else {
      assert RealLe(t[h - 1], t[h]);
      forall i | 0 <= i < h ensures t[i] <= m {
        if i < h - 1 {
          assert RealLe(t[i], t[h - 1]);
        }
      }
      forall i | (|t| + 1) / 2 <= i < |t| ensures m <= t[i] {
        if i > h {
          assert RealLe(t[h], t[i]);
        }
      }
    }
  }

  /** The median splits the sorted column: the lower half is no greater than
      it and the upper half no smaller. */
  lemma MedianSplits(c: seq<real>)
    requires |c| > 0
    ensures var t := Sorting.Sort(c, RealLe);
      && multiset(t) == multiset(c)
      && (forall i :: 0 <= i < |t| / 2 ==> t[i] <= Median(c))
      && (forall i :: (|t| + 1) / 2 <= i < |t| ==> Median(c) <= t[i])
  {
    var t := Sorting.Sort(c, RealLe);
    RealLeTotalPreorder();
    Sorting.SortSorted(c, RealLe);
    MiddleSplits(t);
  }

  /** Completes the user's preferences: each feature the user did not supply
      is filled with the corpus median of that column, in column order; the
      supplied entries are left as they are. */
  method CompletePreferences(prefs: map<Feature, real>, corpus: seq<Recipe>) returns (full: map<Feature, real>)
    requires |corpus| > 0
    ensures forall f :: f in full
    ensures forall f :: f in prefs ==> full[f] == prefs[f]
    ensures forall f :: f !in prefs ==> full[f] == Median(Column(corpus, f))
  {
    full := prefs;
    for k := 0 to |NutritionColumns|
      invariant forall j :: 0 <= j < k ==> NutritionColumns[j] in full
      invariant forall f :: f in prefs ==> f in full && full[f] == prefs[f]
      invariant forall f :: f in full && f !in prefs ==> full[f] == Median(Column(corpus, f))
    {
      var col := NutritionColumns[k];
      if col !in full {
        full := full[col := Median(Column(corpus, col))];
      }
    }
    forall f ensures f in full {
      assert NutritionColumns[ColumnIndex(f)] == f;
    }
  }
}
