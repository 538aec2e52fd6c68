/**
 * The z-score detector, `detect_anomalies_zscore`: the column's mean and
 * sample standard deviation are computed once, every value gets the score
 * z = (v - mean) / std, and the value is an anomaly when |z| > 2.
 *
 * Dafny has no square root, so the test is kept in squared form over the
 * sample variance var = std*std:  flag  <==>  var > 0 && (v - mean)^2 > 4*var.
 * This also covers what pandas does when there is no spread to divide by:
 * with fewer than two values `std()` is NaN, and with var = 0 every value
 * equals the mean, so z is 0/0 = NaN; a NaN never compares greater than 2.
 */
module ZScoreDetector {
  import opened Statistics

  /** The anomaly threshold on |z|. */
  const Threshold: real := 2.0

  /** One value's test, given the column's mean and sample variance. */
  predicate Exceeds(v: real, mean: real, variance: real) {
    variance > 0.0 && Sq(v - mean) > Sq(Threshold) * variance
  }

  /** The boolean mask returned by the detector, aligned with the column. */
  function ZScoreMask(col: seq<real>): (m: seq<bool>)
    ensures |m| == |col|
  {
    if |col| < 2 then seq(|col|, i => false)
    else
      var mean, variance := Mean(col), Variance(col);
      seq(|col|, i requires 0 <= i < |col| => Exceeds(col[i], mean, variance))
  }

  /** The squared test agrees with |d / std| > 2 for every std >= 0 whose
      square is the variance (pandas' std); std = 0 yields no flag. */
  lemma StandardScoreTest(d: real, std: real, variance: real)
    requires std >= 0.0 && variance == std * std
    ensures (variance > 0.0 && Sq(d) > Sq(Threshold) * variance) <==>
            (std > 0.0 && Abs(d / std) > Threshold)
  {
    if std > 0.0 {
      var z := d / std;
      assert d == z * std;
      assert Sq(d) == Sq(z) * variance by {
        assert (z * std) * (z * std) == (z * z) * (std * std);
      }
      calc {
        variance;
        std * std;
      > { MulPos(std, std); }
        0.0;
      }
      ScaledCompare(Sq(z), Sq(Threshold), variance);
      AbsGreaterIffSquare(z, Threshold);
    }
  }

  /** Element i of the mask is the source's test |(v_i - mean) / std| > 2,
      for the column's sample standard deviation std. */
  lemma ZScoreMaskMatchesSource(col: seq<real>, std: real, i: nat)
    requires |col| >= 2 && i < |col|
    requires std >= 0.0 && std * std == Variance(col)
    ensures ZScoreMask(col)[i] <==> std > 0.0 && Abs((col[i] - Mean(col)) / std) > Threshold
  {
    var d, variance := col[i] - Mean(col), Variance(col);
    StandardScoreTest(d, std, variance);
  }

  /** A column with no flag: fewer than two values, or all values equal. */
  lemma ZScoreDegenerate(col: seq<real>)
    requires |col| < 2 || forall i :: 0 <= i < |col| ==> col[i] == col[0]
    ensures forall i :: 0 <= i < |col| ==> !ZScoreMask(col)[i]
  {
    if |col| >= 2 {
      VarianceConstant(col, col[0]);
    }
  }

  /** Where the mask is set the variance is positive: a constant column of
      length >= 2 has none, and any flagged column is not constant. */
  lemma {:induction false} ZScoreFlagMeansSpread(col: seq<real>, i: nat)
    requires i < |col| && ZScoreMask(col)[i]
    ensures |col| >= 2 && Variance(col) > 0.0
    ensures col[i] != Mean(col)
    ensures exists j :: 0 <= j < |col| && col[j] != col[i]
  {
    var mean := Mean(col);
    assert Sq(col[i] - mean) > 0.0 by {
      MulPos(Sq(Threshold), Variance(col));
    }
    SqZero(col[i] - mean);
    if forall j :: 0 <= j < |col| ==> col[j] == col[i] {
      MeanConstant(col, col[i]);
      assert false;
    }
  }

  lemma ExceedsScaled(d: real, variance: real, a: real)
    requires a != 0.0
    ensures Exceeds(a * d, 0.0, a * a * variance) == Exceeds(d, 0.0, variance)
  {
    var c := a * a;
    SqPos(a);
    assert Sq(a * d - 0.0) == Sq(d - 0.0) * c by {
      assert (a * d) * (a * d) == (d * d) * (a * a);
    }
    assert c * variance == variance * c;
    ScaledCompare(variance, 0.0, c);
    assert Sq(Threshold) * (c * variance) == (Sq(Threshold) * variance) * c;
    ScaledCompare(Sq(d - 0.0), Sq(Threshold) * variance, c);
  }

  /** The test depends on the value only through its deviation from the mean. */
  lemma ExceedsShift(v: real, mean: real, variance: real, d: real)
    requires d == v - mean
    ensures Exceeds(v, mean, variance) == Exceeds(d, 0.0, variance)
  {
    assert d - 0.0 == v - mean;
  }

  /** One value's test is unchanged when the value and the column statistics
      are rescaled together. */
  lemma ExceedsAffine(x: real, m: real, v: real, a: real, b: real, tx: real, mt: real, vt: real)
    requires a != 0.0 && tx == a * x + b && mt == a * m + b && vt == a * a * v
    ensures Exceeds(tx, mt, vt) == Exceeds(x, m, v)
  {
    var d := x - m;
    var e := a * d;
    assert tx - mt == e;
    ExceedsShift(tx, mt, vt, e);
    ExceedsShift(x, m, v, d);
    ExceedsScaled(d, v, a);
  }

  /** The flags do not change when the column is rescaled v -> a*v + b with
      a != 0 (in particular a > 0): the z-scores are standardised. */
  lemma ZScoreAffineInvariant(col: seq<real>, a: real, b: real)
    requires a != 0.0
    ensures ZScoreMask(Affine(col, a, b)) == ZScoreMask(col)
  {
    var t := Affine(col, a, b);
    if |col| >= 2 {
      MeanAffine(col, a, b);
      VarianceAffine(col, a, b);
      forall i | 0 <= i < |col| ensures ZScoreMask(t)[i] == ZScoreMask(col)[i] {
        AffineAt(col, a, b, i);
        ExceedsAffine(col[i], Mean(col), Variance(col), a, b, t[i], Mean(t), Variance(t));
      }
    }
  }

  // ---------------------------------------------------------------------
  // Samuelson's bound: no value of an n-value column lies further than
  // (n-1)/sqrt(n) sample standard deviations from the mean.  For n <= 5
  // that is less than 2, so the detector cannot flag short columns.

  /** One value x of a column of n values set against the k = n-1 others:
      st and sr are the sums of the column and of the others, mr the mean of
      the others, s2 and t the squared deviations from the column mean of the
      column and of the others, q >= 0 those of the others from their own
      mean, and dd the squared distance of x from the mean. */
  predicate OneAgainstRest(x: real, mean: real, n: real, k: real, st: real, sr: real, mr: real,
                           s2: real, t: real, q: real, dd: real)
  {
    n == k + 1.0 && k >= 1.0 &&
    st == n * mean && st == x + sr && sr == k * mr &&
    dd == Sq(x - mean) && s2 == dd + t && t == q + k * Sq(mr - mean) && q >= 0.0
  }

  /** The arithmetic of the bound on plain numbers. */
  lemma SamuelsonStep(x: real, mean: real, n: real, k: real, st: real, sr: real, mr: real,
                      s2: real, t: real, q: real, dd: real)
    requires OneAgainstRest(x, mean, n, k, st, sr, mr, s2, t, q, dd)
    ensures n * dd <= k * s2
  {
    var d, e, e2 := x - mean, mr - mean, Sq(mr - mean);
    assert k * e == k * mr - k * mean;
    assert k * e == 0.0 - d;
    assert dd == (k * e) * (k * e);
    assert dd == k * (k * e2);
    assert k * t >= k * (k * e2) by {
      MulNonNeg(k, q);
      assert k * t == k * q + k * (k * e2);
    }
    assert k * s2 == k * dd + k * t;
    assert n * dd == k * dd + dd;
  }

  /** The numbers `OneAgainstRest` relates, for the i-th value of a column. */
  lemma SamuelsonParts(col: seq<real>, i: nat, mean: real, n: real, k: real, s2: real, dd: real)
    returns (st: real, sr: real, mr: real, t: real, q: real)
    requires |col| >= 2 && i < |col| && mean == Mean(col)
    requires n == |col| as real && k == n - 1.0
    requires s2 == SumSqDev(col, mean) && dd == Sq(col[i] - mean)
    ensures OneAgainstRest(col[i], mean, n, k, st, sr, mr, s2, t, q, dd)
  {
    var rest := Without(col, i);
    st, sr, mr := Sum(col), Sum(rest), Mean(rest);
    t, q := SumSqDev(rest, mean), SumSqDev(rest, mr);
    WithoutSums(col, i, mean);
    SumSqDevAroundMean(rest, mr, mean, k);
    SumIsCountTimesMean(col, mean, n);
    SumIsCountTimesMean(rest, mr, k);
  }

  /** Each squared deviation from the mean of a column of n values is at
      most (n-1)/n of the sum of all of them. */
  lemma SamuelsonBound(col: seq<real>, i: nat, mean: real, n: real, k: real, dd: real, s2: real)
    requires |col| >= 2 && i < |col| && mean == Mean(col)
    requires n == |col| as real && k == n - 1.0
    requires dd == Sq(col[i] - mean) && s2 == SumSqDev(col, mean)
    ensures n * dd <= k * s2
  {
    var st, sr, mr, t, q := SamuelsonParts(col, i, mean, n, k, s2, dd);
    SamuelsonStep(col[i], mean, n, k, st, sr, mr, s2, t, q, dd);
  }

  /** The bound against the threshold: a flag needs 4n < (n-1)^2. */
  lemma ThresholdStep(n: real, k: real, variance: real, s2: real, dd: real)
    requires n == k + 1.0 && k >= 1.0 && variance > 0.0
    requires s2 == variance * k
    requires n * dd <= k * s2 && dd > Sq(Threshold) * variance
    ensures 4.0 * n < k * k
  {
    assert n * dd > n * (4.0 * variance) by {
      ScaledCompare(dd, 4.0 * variance, n);
    }
    assert k * s2 == (k * k) * variance;
    assert (4.0 * n) * variance < (k * k) * variance;
    ScaledCompare(k * k, 4.0 * n, variance);
  }

  /** 4n < k^2 with n = k+1 holds only for k > 4. */
  lemma MoreThanFive(n: real, k: real)
    requires n == k + 1.0 && k > 0.0 && 4.0 * n < k * k
    ensures k > 4.0
  {
    ScaledCompare(k, 4.0, k);
  }

  /** The numbers behind a flag at position i, for n = |col| and k = n-1:
      the deviation dd = (col[i] - mean)^2 of the flagged value exceeds four
      variances, the squared deviations sum to s2 = k*variance, and dd obeys
      Samuelson's bound. */
  lemma FlagArithmetic(col: seq<real>, i: nat) returns (n: real, k: real, variance: real, s2: real, dd: real)
    requires i < |col| && ZScoreMask(col)[i]
    ensures n == |col| as real && n == k + 1.0 && k >= 1.0 && variance > 0.0
    ensures s2 == variance * k && n * dd <= k * s2 && dd > Sq(Threshold) * variance
  {
    ZScoreFlagMeansSpread(col, i);
    n := |col| as real;
    k := n - 1.0;
    var mean := Mean(col);
    variance := Variance(col);
    var x := col[i];
    dd, s2 := Sq(x - mean), SumSqDev(col, mean);
    SamuelsonBound(col, i, mean, n, k, dd, s2);
    VarianceTimesCount(col, mean, variance, k);
  }

  /** A column of at most five values never has a z-score flag. */
  lemma ZScoreNeedsSixValues(col: seq<real>, i: nat)
    requires i < |col| && ZScoreMask(col)[i]
    ensures |col| >= 6
  {
    var n, k, variance, s2, dd := FlagArithmetic(col, i);
    ThresholdStep(n, k, variance, s2, dd);
    MoreThanFive(n, k);
  }
}
