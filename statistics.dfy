/**
 * The statistics the two detectors compute over one metric column, in exact
 * real arithmetic: the mean, the Bessel-corrected sample variance (the
 * square of pandas' default `Series.std()`, divisor n-1) and the
 * linear-interpolation quantile of `Series.quantile`.  A column is an
 * ordered `seq<real>`, one value per row of the data frame.
 */
module Statistics {
  import opened Sorting

  function Sum(s: seq<real>): real {
    if s == [] then 0.0 else s[0] + Sum(s[1..])
  }

  /** Arithmetic mean (`Series.mean()`); pandas yields NaN on an empty column. */
  function Mean(s: seq<real>): real
    requires |s| > 0
  {
    Sum(s) / |s| as real
  }

  function Sq(x: real): real { x * x }

  function Abs(x: real): real { if x < 0.0 then 0.0 - x else x }

  lemma MulNonNeg(x: real, y: real)
    requires x >= 0.0 && y >= 0.0
    ensures x * y >= 0.0
  {
  }

  /** Multiplying by a non-negative factor keeps the order. */
  lemma MulMonotone(x: real, y: real, d: real)
    requires x <= y && d >= 0.0
    ensures x * d <= y * d
  {
    MulNonNeg(y - x, d);
  }

  lemma DivScale(c: real, y: real, k: real)
    requires k > 0.0
    ensures (c * y) / k == c * (y / k)
  {
    var z := y / k;
    assert y == z * k;
    assert c * y == (c * z) * k;
  }

  lemma ScaledQuotient(p: real, w: real, v: real, y: real, c: real, k: real)
    requires k > 0.0 && p == w / k && v == y / k && w == c * y
    ensures p == c * v
  {
    DivScale(c, y, k);
  }

  lemma MulPos(x: real, y: real)
    requires x > 0.0 && y > 0.0
    ensures x * y > 0.0
  {
  }

  lemma SqNonNeg(x: real)
    ensures Sq(x) >= 0.0
  {
    var y := if x < 0.0 then 0.0 - x else x;
    calc {
      Sq(x);
      y * y;
    >= { MulNonNeg(y, y); }
      0.0;
    }
  }

  lemma SqPos(x: real)
    requires x != 0.0
    ensures Sq(x) > 0.0
  {
    var y := if x < 0.0 then 0.0 - x else x;
    calc {
      Sq(x);
      y * y;
    > { MulPos(y, y); }
      0.0;
    }
  }

  /** Comparing by a positive factor on both sides. */
  lemma ScaledCompare(x: real, y: real, c: real)
    requires c > 0.0
    ensures x * c > y * c <==> x > y
  {
    if x > y {
      MulPos(x - y, c);
    } else {
      MulNonNeg(y - x, c);
    }
  }

  /** For t >= 0: |z| > t exactly when z*z > t*t. */
  lemma AbsGreaterIffSquare(z: real, t: real)
    requires t >= 0.0
    ensures Abs(z) > t <==> Sq(z) > Sq(t)
  {
    var u := Abs(z);
    assert Sq(z) == u * u by {
      if z < 0.0 { assert (0.0 - z) * (0.0 - z) == z * z; }
    }
    if u > t {
      calc {
        Sq(z);
        u * u;
      > { MulPos(u - t, u); assert (u - t) * u == u * u - t * u; }
        t * u;
      >= { MulMonotone(t, u, t); assert t * t <= u * t; }
        t * t;
        Sq(t);
      }
    } else {
      calc {
        Sq(z);
        u * u;
      <= { MulMonotone(u, t, u); }
        t * u;
      <= { MulMonotone(u, t, t); assert u * t == t * u; }
        t * t;
        Sq(t);
      }
    }
  }

  lemma SqZero(x: real)
    ensures Sq(x) == 0.0 <==> x == 0.0
  {
    if x != 0.0 {
      SqPos(x);
    }
  }

  /** Sum of squared deviations from `m`: never negative. */
  function SumSqDev(s: seq<real>, m: real): (r: real)
    ensures r >= 0.0
  {
    if s == [] then 0.0
    else
      SqNonNeg(s[0] - m);
      Sq(s[0] - m) + SumSqDev(s[1..], m)
  }

  /** Sample variance with divisor n-1 (`Series.var()`, i.e. `Series.std()`
      squared); pandas yields NaN for fewer than two values. */
  function Variance(s: seq<real>): (v: real)
    requires |s| >= 2
    ensures v >= 0.0
  {
    SumSqDev(s, Mean(s)) / (|s| - 1) as real
  }

  /** The column rescaled value by value: v -> a*v + b. */
  function Affine(s: seq<real>, a: real, b: real): seq<real> {
    seq(|s|, i requires 0 <= i < |s| => a * s[i] + b)
  }

  lemma AffineAt(s: seq<real>, a: real, b: real, i: nat)
    requires i < |s|
    ensures Affine(s, a, b)[i] == a * s[i] + b
  {
  }

  lemma AffineTail(s: seq<real>, a: real, b: real)
    requires s != []
    ensures Affine(s, a, b)[1..] == Affine(s[1..], a, b)
  {
    var l, r := Affine(s, a, b)[1..], Affine(s[1..], a, b);
    assert |l| == |r|;
    forall i | 0 <= i < |l| ensures l[i] == r[i] {
      assert l[i] == a * s[i + 1] + b;
    }
  }

  lemma {:induction false} SumAffine(s: seq<real>, a: real, b: real)
    ensures Sum(Affine(s, a, b)) == a * Sum(s) + b * |s| as real
  {
    if s != [] {
      AffineTail(s, a, b);
      SumAffine(s[1..], a, b);
    }
  }

  /** The variance times n-1 is the sum of squared deviations. */
  lemma VarianceTimesCount(s: seq<real>, m: real, v: real, k: real)
    requires |s| >= 2 && m == Mean(s) && v == Variance(s) && k == (|s| - 1) as real
    ensures v * k == SumSqDev(s, m)
  {
    DivTimes(SumSqDev(s, m), k, v);
  }

  lemma DivTimes(x: real, d: real, v: real)
    requires d > 0.0 && v == x / d
    ensures v * d == x
  {
  }

  /** Rescaling the column rescales its mean the same way. */
  lemma MeanAffine(s: seq<real>, a: real, b: real)
    requires |s| > 0
    ensures Mean(Affine(s, a, b)) == a * Mean(s) + b
  {
    var n := |s| as real;
    var m := Mean(s);
    SumAffine(s, a, b);
    assert Sum(s) == m * n;
    assert Sum(Affine(s, a, b)) == (a * m + b) * n;
  }

  lemma {:induction false} SumSqDevAffine(s: seq<real>, m: real, a: real, b: real)
    ensures SumSqDev(Affine(s, a, b), a * m + b) == a * a * SumSqDev(s, m)
  {
    if s != [] {
      var t, c := Affine(s, a, b), a * m + b;
      AffineTail(s, a, b);
      SumSqDevAffine(s[1..], m, a, b);
      AffineAt(s, a, b, 0);
      SqAffineDev(s[0], m, a, b, t[0], c);
      Distribute(a * a, Sq(s[0] - m), SumSqDev(s[1..], m));
    }
  }

  /** The deviation of a rescaled value from the rescaled centre. */
  lemma SqAffineDev(x: real, m: real, a: real, b: real, tx: real, c: real)
    requires tx == a * x + b && c == a * m + b
    ensures Sq(tx - c) == a * a * Sq(x - m)
  {
    var d := x - m;
    assert tx - c == a * d;
    assert (a * d) * (a * d) == a * a * (d * d);
  }

  lemma Distribute(c: real, x: real, y: real)
    ensures c * x + c * y == c * (x + y)
  {
  }

  /** Rescaling the column by a multiplies its sample variance by a*a. */
  lemma VarianceAffine(s: seq<real>, a: real, b: real)
    requires |s| >= 2
    ensures Variance(Affine(s, a, b)) == a * a * Variance(s)
  {
    var t, m, k := Affine(s, a, b), Mean(s), (|s| - 1) as real;
    MeanAffine(s, a, b);
    var mt := Mean(t);
    assert mt == a * m + b;
    SumSqDevAffine(s, m, a, b);
    var w, y := SumSqDev(t, mt), SumSqDev(s, m);
    assert w == a * a * y;
    ScaledQuotient(Variance(t), w, Variance(s), y, a * a, k);
  }

  lemma {:induction false} SumConstant(s: seq<real>, c: real)
    requires forall i :: 0 <= i < |s| ==> s[i] == c
    ensures Sum(s) == c * |s| as real
  {
    if s != [] {
      SumConstant(s[1..], c);
    }
  }

  /** The mean of a constant column is that constant. */
  lemma MeanConstant(s: seq<real>, c: real)
    requires |s| > 0
    requires forall i :: 0 <= i < |s| ==> s[i] == c
    ensures Mean(s) == c
  {
    SumConstant(s, c);
  }

  lemma {:induction false} SumSqDevZero(s: seq<real>, m: real)
    ensures SumSqDev(s, m) == 0.0 <==> forall i :: 0 <= i < |s| ==> s[i] == m
  {
    if s != [] {
      SumSqDevZero(s[1..], m);
      SqZero(s[0] - m);
      SqNonNeg(s[0] - m);
      if forall i :: 0 <= i < |s| ==> s[i] == m {
        forall i | 0 <= i < |s[1..]| ensures s[1..][i] == m {
          assert s[1..][i] == s[i + 1];
        }
      }
      if SumSqDev(s, m) == 0.0 {
        forall i | 0 <= i < |s| ensures s[i] == m {
          if i > 0 { assert s[i] == s[1..][i - 1]; }
        }
      }
    }
  }

  /** The sample variance vanishes exactly when every value equals the mean,
      i.e. when the column is constant. */
  lemma VarianceZeroIffConstant(s: seq<real>)
    requires |s| >= 2
    ensures Variance(s) == 0.0 <==> forall i :: 0 <= i < |s| ==> s[i] == Mean(s)
  {
    SumSqDevZero(s, Mean(s));
  }

  /** A constant column has sample variance zero. */
  lemma VarianceConstant(s: seq<real>, c: real)
    requires |s| >= 2
    requires forall i :: 0 <= i < |s| ==> s[i] == c
    ensures Variance(s) == 0.0
  {
    MeanConstant(s, c);
    SumSqDevZero(s, c);
  }

  lemma {:induction false} SumConcat(a: seq<real>, b: seq<real>)
    ensures Sum(a + b) == Sum(a) + Sum(b)
  {
    if a != [] {
      assert (a + b)[1..] == a[1..] + b;
      SumConcat(a[1..], b);
    } else {
      assert a + b == b;
    }
  }

  lemma {:induction false} SumSqDevConcat(a: seq<real>, b: seq<real>, m: real)
    ensures SumSqDev(a + b, m) == SumSqDev(a, m) + SumSqDev(b, m)
  {
    if a != [] {
      assert (a + b)[1..] == a[1..] + b;
      SumSqDevConcat(a[1..], b, m);
    } else {
      assert a + b == b;
    }
  }

  /** One squared deviation, measured from c instead of m: the difference
      a*x + b is affine in the value x, for a = 2(m-c), b = (m-c)^2 - a*m. */
  lemma SqShift(x: real, m: real, c: real, a: real, b: real)
    requires a == 2.0 * (m - c) && b == Sq(m - c) - a * m
    ensures Sq(x - c) == Sq(x - m) + (a * x + b)
  {
    var d, e := x - m, m - c;
    assert x - c == d + e;
    assert (d + e) * (d + e) == d * d + 2.0 * e * d + e * e;
    assert a * d == a * x - a * m;
    assert 2.0 * e * d == a * d;
  }

  lemma SumSqDevUnfold(s: seq<real>, m: real)
    requires s != []
    ensures SumSqDev(s, m) == Sq(s[0] - m) + SumSqDev(s[1..], m)
  {
  }

  /** The sum of an affine image, split into its first value and the rest. */
  lemma SumAffineUnfold(s: seq<real>, a: real, b: real)
    requires s != []
    ensures Sum(Affine(s, a, b)) == (a * s[0] + b) + Sum(Affine(s[1..], a, b))
  {
    AffineTail(s, a, b);
  }

  /** What is left of the squared deviations from c after those from m and
      the affine image a*x + b are taken away, value by value. */
  function ShiftResidual(s: seq<real>, m: real, c: real, a: real, b: real): real {
    if s == [] then 0.0
    else (Sq(s[0] - c) - Sq(s[0] - m) - (a * s[0] + b)) + ShiftResidual(s[1..], m, c, a, b)
  }

  lemma {:induction false} SumSqDevSplit(s: seq<real>, m: real, c: real, a: real, b: real)
    ensures SumSqDev(s, c) == SumSqDev(s, m) + Sum(Affine(s, a, b)) + ShiftResidual(s, m, c, a, b)
  {
    if s != [] {
      SumSqDevSplit(s[1..], m, c, a, b);
      SumAffineUnfold(s, a, b);
      SumSqDevUnfold(s, c);
      SumSqDevUnfold(s, m);
    }
  }

  /** With a = 2(m-c) and b = (m-c)^2 - a*m nothing is left (`SqShift`). */
  lemma {:induction false} ShiftResidualZero(s: seq<real>, m: real, c: real, a: real, b: real)
    requires a == 2.0 * (m - c) && b == Sq(m - c) - a * m
    ensures ShiftResidual(s, m, c, a, b) == 0.0
  {
    if s != [] {
      ShiftResidualZero(s[1..], m, c, a, b);
      SqShift(s[0], m, c, a, b);
    }
  }

  /** The sum of n values is n times their mean. */
  lemma SumIsCountTimesMean(s: seq<real>, m: real, n: real)
    requires |s| > 0 && m == Mean(s) && n == |s| as real
    ensures Sum(s) == n * m
  {
  }

  /** `AffineSumAtMean` on plain numbers: st is the column's sum, n its
      count and mean its mean, total the sum of a*x + b over the column, and
      e2 the squared distance (m-c)^2. */
  lemma AffineSumAtMeanStep(a: real, b: real, st: real, n: real, mean: real, e2: real, total: real)
    requires st == n * mean && b == e2 - a * mean && total == a * st + b * n
    ensures total == n * e2
  {
    assert a * st == n * (a * mean);
    assert b * n == n * e2 - n * (a * mean);
  }

  /** Moving the centre of the squared deviations from m to c adds the sum
      of the affine image a*x + b of the values. */
  lemma SumSqDevShift(s: seq<real>, m: real, c: real, a: real, b: real)
    requires a == 2.0 * (m - c) && b == Sq(m - c) - a * m
    ensures SumSqDev(s, c) == SumSqDev(s, m) + Sum(Affine(s, a, b))
  {
    SumSqDevSplit(s, m, c, a, b);
    ShiftResidualZero(s, m, c, a, b);
  }

  /** Summed over the column, the affine difference a*x + b of `SqShift`
      with m the mean is n times the squared distance e2 = (m-c)^2. */
  lemma AffineSumAtMean(s: seq<real>, m: real, c: real, a: real, b: real, n: real)
    requires |s| > 0 && m == Mean(s) && n == |s| as real && b == Sq(m - c) - a * m
    ensures Sum(Affine(s, a, b)) == n * Sq(m - c)
  {
    SumAffine(s, a, b);
    SumIsCountTimesMean(s, m, n);
    AffineSumAtMeanStep(a, b, Sum(s), n, m, Sq(m - c), Sum(Affine(s, a, b)));
  }

  /** The squared deviations from any centre c are those from the mean m
      plus n times the squared distance of c from the mean (Huygens). */
  lemma SumSqDevAroundMean(s: seq<real>, m: real, c: real, n: real)
    requires |s| > 0 && m == Mean(s) && n == |s| as real
    ensures SumSqDev(s, c) == SumSqDev(s, m) + n * Sq(m - c)
  {
    var a := 2.0 * (m - c);
    var b := Sq(m - c) - a * m;
    SumSqDevShift(s, m, c, a, b);
    AffineSumAtMean(s, m, c, a, b, n);
  }

  /** The column without its i-th value. */
  function Without(s: seq<real>, i: nat): (r: seq<real>)
    requires i < |s|
    ensures |r| == |s| - 1
  {
    s[..i] + s[i + 1..]
  }

  /** Taking one value out of a column takes it out of the sums. */
  lemma WithoutSums(s: seq<real>, i: nat, m: real)
    requires i < |s|
    ensures Sum(s) == s[i] + Sum(Without(s, i))
    ensures SumSqDev(s, m) == Sq(s[i] - m) + SumSqDev(Without(s, i), m)
  {
    assert s == s[..i] + ([s[i]] + s[i + 1..]);
    SumConcat(s[..i], [s[i]] + s[i + 1..]);
    SumConcat(s[..i], s[i + 1..]);
    SumSqDevConcat(s[..i], [s[i]] + s[i + 1..], m);
    SumSqDevConcat(s[..i], s[i + 1..], m);
  }

  // ---------------------------------------------------------------------
  // Linear-interpolation quantile (`Series.quantile(q)`, the default
  // interpolation 'linear'): for the fractional index h = q*(n-1) over the
  // sorted copy s, s[floor h] + (h - floor h) * (s[ceil h] - s[floor h]).
  // The detectors use q = 0.25 and q = 0.75, so h is always a whole number
  // of quarters; it is kept exactly as h4 = 4*h, a natural number.
  // ---------------------------------------------------------------------

  /** floor h, for h = h4/4. */
  function FloorIndex(h4: nat): nat { h4 / 4 }

  /** ceil h, for h = h4/4. */
  function CeilIndex(h4: nat): nat { if h4 % 4 == 0 then h4 / 4 else h4 / 4 + 1 }

  /** h - floor h, for h = h4/4. */
  function Fraction(h4: nat): real { (h4 % 4) as real / 4.0 }

  /** The point at fraction t of the way from x to y. */
  function Lerp(x: real, y: real, t: real): real {
    x + t * (y - x)
  }

  lemma LerpBetween(x: real, y: real, t: real)
    requires x <= y && 0.0 <= t <= 1.0
    ensures x <= Lerp(x, y, t) <= y
  {
    MulNonNeg(t, y - x);
    MulMonotone(t, 1.0, y - x);
  }

  lemma LerpMonotone(x: real, y: real, t: real, u: real)
    requires x <= y && 0.0 <= t <= u <= 1.0
    ensures Lerp(x, y, t) <= Lerp(x, y, u)
  {
    MulMonotone(t, u, y - x);
  }

  /** Linear interpolation between the order statistics around index h4/4. */
  function Interpolate(s: seq<real>, h4: nat): real
    requires |s| > 0 && h4 <= 4 * (|s| - 1)
  {
    Lerp(s[FloorIndex(h4)], s[CeilIndex(h4)], Fraction(h4))
  }

  /** The value at fractional index h4/4 of the sorted copy of a column. */
  function QuantileAtIndex(col: seq<real>, h4: nat): real
    requires |col| > 0 && h4 <= 4 * (|col| - 1)
  {
    Interpolate(Sort(col), h4)
  }

  /** `Series.quantile(0.25)`: interpolation at index 0.25*(n-1). */
  function FirstQuartile(col: seq<real>): real
    requires |col| > 0
  {
    QuantileAtIndex(col, |col| - 1)
  }

  /** `Series.quantile(0.75)`: interpolation at index 0.75*(n-1). */
  function ThirdQuartile(col: seq<real>): real
    requires |col| > 0
  {
    QuantileAtIndex(col, 3 * (|col| - 1))
  }

  /** On a sorted sequence the interpolated value lies between the two order
      statistics that bracket the index, floor h and ceil h. */
  lemma InterpolateBracketed(s: seq<real>, h4: nat)
    requires Sorted(s) && |s| > 0 && h4 <= 4 * (|s| - 1)
    ensures FloorIndex(h4) <= CeilIndex(h4) <= FloorIndex(h4) + 1
    ensures s[FloorIndex(h4)] <= Interpolate(s, h4) <= s[CeilIndex(h4)]
  {
    LerpBetween(s[FloorIndex(h4)], s[CeilIndex(h4)], Fraction(h4));
  }

  /** On a sorted sequence interpolation is monotone in the index. */
  lemma InterpolateMonotone(s: seq<real>, g4: nat, h4: nat)
    requires Sorted(s) && |s| > 0 && g4 <= h4 <= 4 * (|s| - 1)
    ensures Interpolate(s, g4) <= Interpolate(s, h4)
  {
    InterpolateBracketed(s, g4);
    InterpolateBracketed(s, h4);
    var lg, lh := FloorIndex(g4), FloorIndex(h4);
    if lg == lh {
      if CeilIndex(g4) == lg {
        assert Interpolate(s, g4) == s[lg];
      } else {
        LerpMonotone(s[lg], s[lg + 1], Fraction(g4), Fraction(h4));
      }
    } else {
      assert CeilIndex(g4) <= lh;
    }
  }

  /** The two quartiles sit between their bracketing order statistics of
      the sorted copy, and Q1 <= Q3. */
  lemma QuartilesBracketed(col: seq<real>)
    requires |col| > 0
    ensures var s, n := Sort(col), |col|;
            s[FloorIndex(n - 1)] <= FirstQuartile(col) <= s[CeilIndex(n - 1)] &&
            s[FloorIndex(3 * (n - 1))] <= ThirdQuartile(col) <= s[CeilIndex(3 * (n - 1))]
    ensures FirstQuartile(col) <= ThirdQuartile(col)
  {
    var s, n := Sort(col), |col|;
    InterpolateBracketed(s, n - 1);
    InterpolateBracketed(s, 3 * (n - 1));
    InterpolateMonotone(s, n - 1, 3 * (n - 1));
  }

  /** Any value of a sorted sequence lies between its first and last ones. */
  lemma SortedBetweenEnds(s: seq<real>, x: real)
    requires Sorted(s) && x in multiset(s)
    ensures s[0] <= x <= s[|s| - 1]
  {
    assert x in s;
    var j :| 0 <= j < |s| && s[j] == x;
    assert s[0] <= s[j] && s[j] <= s[|s| - 1];
  }

  /** The first and last elements of the sorted copy are the column's
      minimum and maximum. */
  lemma SortEnds(col: seq<real>)
    requires |col| > 0
    ensures Sort(col)[0] in col && Sort(col)[|col| - 1] in col
    ensures forall k :: 0 <= k < |col| ==> Sort(col)[0] <= col[k] <= Sort(col)[|col| - 1]
  {
    var s := Sort(col);
    assert s[0] in multiset(col) && s[|s| - 1] in multiset(col) by {
      assert s[0] in s && s[|s| - 1] in s;
    }
    forall k | 0 <= k < |col| ensures s[0] <= col[k] <= s[|s| - 1] {
      SortedBetweenEnds(s, col[k]);
    }
  }

  /** An interpolated order statistic of a column lies within [min, max]
      of the column: some value is at most it and some value at least it. */
  lemma QuantileWithinRange(col: seq<real>, h4: nat)
    requires |col| > 0 && h4 <= 4 * (|col| - 1)
    ensures exists i :: 0 <= i < |col| && col[i] <= QuantileAtIndex(col, h4)
    ensures exists j :: 0 <= j < |col| && QuantileAtIndex(col, h4) <= col[j]
  {
    var s := Sort(col);
    InterpolateBracketed(s, h4);
    SortEnds(col);
    assert s[0] <= s[FloorIndex(h4)] && s[CeilIndex(h4)] <= s[|s| - 1];
  }

  /** Interpolated order statistics depend only on the multiset of values,
      not on their order. */
  lemma QuantilePermutationInvariant(a: seq<real>, b: seq<real>, h4: nat)
    requires |a| > 0 && h4 <= 4 * (|a| - 1)
    requires multiset(a) == multiset(b)
    ensures |b| == |a| && QuantileAtIndex(a, h4) == QuantileAtIndex(b, h4)
  {
    assert |b| == |a| by { assert |multiset(a)| == |multiset(b)|; }
    SortPermutationInvariant(a, b);
  }
}
