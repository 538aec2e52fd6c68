/**
 * Six days of resting heart rates with one spike, run through both detectors.
 */
module SampleWeek {
  import opened Wrappers
  import opened Sorting
  import opened Statistics
  import opened ZScoreDetector
  import opened IqrDetector

  /** The column read day by day.  (A column given by its elements rather
      than as a literal keeps the verifier from unfolding `Sort` on it.) */
  predicate IsSampleColumn(c: seq<real>) {
    |c| == 6 && c[0] == 60.0 && c[1] == 62.0 && c[2] == 61.0 &&
    c[3] == 63.0 && c[4] == 200.0 && c[5] == 59.0
  }

  /** The values in ascending order. */
  lemma AscendingSample(s: seq<real>)
    requires s == [59.0, 60.0, 61.0, 62.0, 63.0, 200.0]
    ensures Sorted(s)
  {
  }

  /** The ascending values are a reordering of the column. */
  lemma SampleReordered(c: seq<real>, s: seq<real>)
    requires IsSampleColumn(c) && s == [59.0, 60.0, 61.0, 62.0, 63.0, 200.0]
    ensures multiset(c) == multiset(s)
  {
    assert c == [c[0], c[1], c[2], c[3], c[4], c[5]];
  }

  /** The sorted copy is [59, 60, 61, 62, 63, 200]. */
  lemma SampleSorted(c: seq<real>)
    requires IsSampleColumn(c)
    ensures Sort(c) == [59.0, 60.0, 61.0, 62.0, 63.0, 200.0]
  {
    var s := [59.0, 60.0, 61.0, 62.0, 63.0, 200.0];
    AscendingSample(s);
    SampleReordered(c, s);
    SortIsTheSortedPermutation(c, s);
  }

  /** Q1 interpolates a quarter of the way from the 2nd to the 3rd smallest
      value, Q3 three quarters of the way from the 4th to the 5th. */
  lemma QuartilesOfSix(c: seq<real>)
    requires |c| == 6
    ensures FirstQuartile(c) == Lerp(Sort(c)[1], Sort(c)[2], 0.25)
    ensures ThirdQuartile(c) == Lerp(Sort(c)[3], Sort(c)[4], 0.75)
  {
    assert FloorIndex(5) == 1 && CeilIndex(5) == 2 && Fraction(5) == 0.25;
    assert FloorIndex(15) == 3 && CeilIndex(15) == 4 && Fraction(15) == 0.75;
  }

  /** The fences of the sample. */
  lemma QuartilesOfSample(c: seq<real>)
    requires IsSampleColumn(c)
    ensures IqrFences(c) == Some(Fences(60.25, 62.75, 56.5, 66.5))
  {
    SampleSorted(c);
    QuartilesOfSix(c);
    var q1, q3 := Lerp(60.0, 61.0, 0.25), Lerp(62.0, 63.0, 0.75);
    assert q1 == 60.25 && q3 == 62.75;
    SameQuartilesFences(c, q1, q3);
  }

  /** Q1 = 60.25 and Q3 = 62.75 (indices 1.25 and 3.75), so IQR = 2.5 and
      the fences are 56.5 and 66.5; only the spike of 200 is flagged. */
  lemma SampleIqr(c: seq<real>)
    requires IsSampleColumn(c)
    ensures IqrFences(c) == Some(Fences(60.25, 62.75, 56.5, 66.5))
    ensures IqrMask(c) == [false, false, false, false, true, false]
  {
    QuartilesOfSample(c);
    IqrMaskByFences(c, Fences(60.25, 62.75, 56.5, 66.5));
  }

  /** The sums behind the mean and the variance, on the literal column. */
  lemma SampleSums()
    ensures Sum([60.0, 62.0, 61.0, 63.0, 200.0, 59.0]) == 505.0
    ensures SumSqDev([60.0, 62.0, 61.0, 63.0, 200.0, 59.0], 505.0 / 6.0) == 579990.0 / 36.0
  {
    var c := [60.0, 62.0, 61.0, 63.0, 200.0, 59.0];
    assert c[1..][1..][1..][1..][1..][1..] == [];
  }

  /** The mean is 505/6 and the sample variance 19333/6; only the spike of
      200 deviates from the mean by more than two standard deviations. */
  lemma SampleZScore(c: seq<real>)
    requires IsSampleColumn(c)
    ensures Mean(c) == 505.0 / 6.0
    ensures Variance(c) == 19333.0 / 6.0
    ensures ZScoreMask(c) == [false, false, false, false, true, false]
  {
    assert c == [60.0, 62.0, 61.0, 63.0, 200.0, 59.0];
    SampleSums();
  }
}
