/** The interquartile-range outlier filter (`remove_time_outliers`). The
    quartiles are read off the sorted list at indices `n / 4` and `3n / 4`,
    without interpolation, and a value survives when it lies within 1.5
    interquartile ranges of them. */
module Outliers {
  import opened Sequences

  /** The closed interval of values the filter keeps. */
  datatype Fences = Fences(lower: real, upper: real)
  {
    predicate Contains(v: real)
    {
      lower <= v <= upper
    }
  }

  /** First quartile: the sorted list at index `n / 4` (integer division). */
  function Q1(times: seq<real>): real
    requires |times| > 0
  {
    SortAscendingSorts(times);
    SortAscending(times)[|times| / 4]
  }

  /** Third quartile: the sorted list at index `3 * n / 4` (integer division). */
  function Q3(times: seq<real>): real
    requires |times| > 0
  {
    SortAscendingSorts(times);
    SortAscending(times)[3 * |times| / 4]
  }

  /** `q1 - 1.5 * IQR` and `q3 + 1.5 * IQR`, with `IQR = q3 - q1`. */
  function OutlierFences(times: seq<real>): Fences
    requires |times| > 0
  {
    var iqr := Q3(times) - Q1(times);
    Fences(Q1(times) - 1.5 * iqr, Q3(times) + 1.5 * iqr)
  }

  /** The quartile indices satisfy `n / 4 <= 3n / 4 < n`, so `q1 <= q3`, the
      interquartile range is not negative and both quartiles lie inside the
      fences, which span four interquartile ranges. */
  lemma FencesAroundQuartiles(times: seq<real>)
    requires |times| > 0
    ensures Q1(times) <= Q3(times)
    ensures OutlierFences(times).lower <= Q1(times) && Q3(times) <= OutlierFences(times).upper
    ensures OutlierFences(times).upper - OutlierFences(times).lower == 4.0 * (Q3(times) - Q1(times))
  {
    SortAscendingSorts(times);
    var sorted := SortAscending(times);
    assert |times| / 4 <= 3 * |times| / 4 < |times|;
    assert sorted[|times| / 4] <= sorted[3 * |times| / 4];
  }

  /** The input values inside the fences, in their input order. */
  function RemoveTimeOutliers(times: seq<real>): seq<real>
    requires |times| > 0
  {
    var f := OutlierFences(times);
    KeepWithin(times, f.lower, f.upper)
  }

  /** The filter keeps an order-preserving selection of the input: every
      occurrence of a value inside the fences, and nothing else. */
  lemma {:induction false} OutliersSelect(times: seq<real>)
    requires |times| > 0
    ensures IsSubsequence(RemoveTimeOutliers(times), times)
    ensures forall v :: multiset(RemoveTimeOutliers(times))[v]
                     == if OutlierFences(times).Contains(v) then multiset(times)[v] else 0
  {
    var f := OutlierFences(times);
    KeepWithinSelects(times, f.lower, f.upper);
  }

  /** A value of the input survives the filter exactly when it lies inside
      the fences; duplicates of a value share its fate. */
  lemma KeptIffWithinFences(times: seq<real>, v: real)
    requires |times| > 0
    requires v in times
    ensures v in RemoveTimeOutliers(times) <==> OutlierFences(times).Contains(v)
  {
    var r := RemoveTimeOutliers(times);
    OutliersSelect(times);
    assert v in multiset(times);
    assert v in r <==> v in multiset(r);
  }

  /** The first quartile always survives, so the filter never empties a
      non-empty list. */
  lemma FirstQuartileKept(times: seq<real>)
    requires |times| > 0
    ensures Q1(times) in RemoveTimeOutliers(times)
    ensures |RemoveTimeOutliers(times)| > 0
  {
    SortAscendingSorts(times);
    var sorted := SortAscending(times);
    assert Q1(times) in multiset(sorted);
    FencesAroundQuartiles(times);
    KeptIffWithinFences(times, Q1(times));
  }

  /** The example of the docstring: the long pause 45.5 is dropped. */
  lemma DocstringExample()
    ensures RemoveTimeOutliers([1.2, 3.2, 5.2, 1.2, 45.5]) == [1.2, 3.2, 5.2, 1.2]
  {
  }

  /** On an input that is already ascending the quartiles are read off the
      input itself. */
  lemma SortedFences(times: seq<real>)
    requires |times| > 0 && Sorted(times)
    ensures var q1 := times[|times| / 4];
            var q3 := times[3 * |times| / 4];
            OutlierFences(times) == Fences(q1 - 1.5 * (q3 - q1), q3 + 1.5 * (q3 - q1))
  {
    SortAscendingSorts(times);
    SortedUnique(SortAscending(times), times);
  }

  /** Filtering twice can remove more than filtering once: the filter is not
      idempotent, because the quartile indices move when the list shrinks. */
  lemma NotIdempotent()
    ensures var once := RemoveTimeOutliers([0.0, 0.0, 0.0, 0.0, 0.0, 1.0, 3.0, 10.0]);
            && once == [0.0, 0.0, 0.0, 0.0, 0.0, 1.0, 3.0]
            && RemoveTimeOutliers(once) == [0.0, 0.0, 0.0, 0.0, 0.0, 1.0]
  {
    FilterEight();
    FilterSeven();
  }

  /** Fences -4.5 and 7.5: only 10.0 goes. */
  lemma FilterEight()
    ensures RemoveTimeOutliers([0.0, 0.0, 0.0, 0.0, 0.0, 1.0, 3.0, 10.0])
         == [0.0, 0.0, 0.0, 0.0, 0.0, 1.0, 3.0]
  {
    FencesEight();
    KeepEight();
  }

  lemma FencesEight()
    ensures OutlierFences([0.0, 0.0, 0.0, 0.0, 0.0, 1.0, 3.0, 10.0]) == Fences(-4.5, 7.5)
  {
    SortedFences([0.0, 0.0, 0.0, 0.0, 0.0, 1.0, 3.0, 10.0]);
  }

  lemma KeepEight()
    ensures KeepWithin([0.0, 0.0, 0.0, 0.0, 0.0, 1.0, 3.0, 10.0], -4.5, 7.5)
         == [0.0, 0.0, 0.0, 0.0, 0.0, 1.0, 3.0]
  {
    var kept := [0.0, 0.0, 0.0, 0.0, 0.0, 1.0, 3.0];
    assert [0.0, 0.0, 0.0, 0.0, 0.0, 1.0, 3.0, 10.0] == kept + [10.0];
    KeepWithinAll(kept, -4.5, 7.5);
    KeepWithinAppend(kept, [10.0], -4.5, 7.5);
  }

  /** Fences -1.5 and 2.5: now 3.0 goes. */
  lemma FilterSeven()
    ensures RemoveTimeOutliers([0.0, 0.0, 0.0, 0.0, 0.0, 1.0, 3.0])
         == [0.0, 0.0, 0.0, 0.0, 0.0, 1.0]
  {
    FencesSeven();
    KeepSeven();
  }

  lemma FencesSeven()
    ensures OutlierFences([0.0, 0.0, 0.0, 0.0, 0.0, 1.0, 3.0]) == Fences(-1.5, 2.5)
  {
    SortedFences([0.0, 0.0, 0.0, 0.0, 0.0, 1.0, 3.0]);
  }

  lemma KeepSeven()
    ensures KeepWithin([0.0, 0.0, 0.0, 0.0, 0.0, 1.0, 3.0], -1.5, 2.5)
         == [0.0, 0.0, 0.0, 0.0, 0.0, 1.0]
  {
    var kept := [0.0, 0.0, 0.0, 0.0, 0.0, 1.0];
    assert [0.0, 0.0, 0.0, 0.0, 0.0, 1.0, 3.0] == kept + [3.0];
    KeepWithinAll(kept, -1.5, 2.5);
    KeepWithinAppend(kept, [3.0], -1.5, 2.5);
  }
}
