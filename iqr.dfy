/**
 * The IQR detector, `detect_anomalies_iqr`: Q1 and Q3 are the column's
 * 25th and 75th linear-interpolation percentiles, IQR = Q3 - Q1, the Tukey
 * fences are Q1 - 1.5*IQR and Q3 + 1.5*IQR, and a value is an anomaly when
 * it lies strictly outside them.  An empty column has NaN quartiles in
 * pandas; the model returns no fences for it (and its mask is empty).
 */
module IqrDetector {
  import opened Wrappers
  import opened Sorting
  import opened Statistics

  /** The Tukey multiplier. */
  const Multiplier: real := 1.5

  /** The run-level statistics of one column; `lower` and `upper` are the
      two scalars the detector returns beside its mask. */
  datatype Fences = Fences(q1: real, q3: real, lower: real, upper: real) {
    function Iqr(): real { q3 - q1 }
  }

  /** Tukey's fences around the quartiles q1 and q3: for ordered quartiles
      they enclose [q1, q3], 1.5 IQRs beyond it on each side. */
  function TukeyFences(q1: real, q3: real): (f: Fences)
    ensures f.q1 == q1 && f.q3 == q3 && f.Iqr() == q3 - q1
    ensures q1 <= q3 ==> f.lower <= q1 <= q3 <= f.upper
    ensures q1 - f.lower == f.upper - q3 == Multiplier * f.Iqr()
  {
    var iqr := q3 - q1;
    Fences(q1, q3, q1 - Multiplier * iqr, q3 + Multiplier * iqr)
  }

  /** The fences of a column; none for an empty column. */
  function IqrFences(col: seq<real>): Option<Fences> {
    if |col| == 0 then None
    else Some(TukeyFences(FirstQuartile(col), ThirdQuartile(col)))
  }

  /** A value is anomalous when it is strictly below the lower fence or
      strictly above the upper one. */
  predicate Outside(v: real, f: Fences) {
    v < f.lower || v > f.upper
  }

  /** The boolean mask returned by the detector, aligned with the column. */
  function IqrMask(col: seq<real>): (m: seq<bool>)
    ensures |m| == |col|
  {
    if |col| == 0 then []
    else
      var f := IqrFences(col).value;
      seq(|col|, i requires 0 <= i < |col| => Outside(col[i], f))
  }

  /** The fences are determined by the two quartiles. */
  lemma SameQuartilesFences(col: seq<real>, q1: real, q3: real)
    requires |col| > 0 && FirstQuartile(col) == q1 && ThirdQuartile(col) == q3
    ensures IqrFences(col) == Some(TukeyFences(q1, q3))
  {
  }

  /** The mask compares every value with the same fences. */
  lemma IqrMaskByFences(col: seq<real>, f: Fences)
    requires IqrFences(col) == Some(f)
    ensures forall i :: 0 <= i < |col| ==> IqrMask(col)[i] == Outside(col[i], f)
  {
  }

  /** Fences exist exactly for a non-empty column; they are ordered
      lower <= Q1 <= Q3 <= upper, and span four IQRs. */
  lemma FencesOrdered(col: seq<real>)
    ensures IqrFences(col).Some? <==> |col| > 0
    ensures IqrFences(col).Some? ==>
              var f := IqrFences(col).value;
              f.lower <= f.q1 <= f.q3 <= f.upper &&
              f.upper - f.lower == 4.0 * f.Iqr() && f.Iqr() >= 0.0
  {
    if |col| > 0 {
      QuartilesBracketed(col);
    }
  }

  /** Both quartiles, and so the whole interval [Q1, Q3], lie within the
      column's range: some value is at most Q1 and some value at least Q3. */
  lemma QuartilesWithinRange(col: seq<real>)
    requires |col| > 0
    ensures exists i :: 0 <= i < |col| && col[i] <= IqrFences(col).value.q1
    ensures exists j :: 0 <= j < |col| && IqrFences(col).value.q3 <= col[j]
  {
    QuantileWithinRange(col, |col| - 1);
    QuantileWithinRange(col, 3 * (|col| - 1));
  }

  /** No value between the quartiles is flagged; a flagged value lies
      strictly outside the fences and hence outside [Q1, Q3]. */
  lemma IqrFlagMeansOutsideQuartiles(col: seq<real>, i: nat)
    requires i < |col|
    ensures IqrMask(col)[i] <==> Outside(col[i], IqrFences(col).value)
    ensures IqrMask(col)[i] ==> col[i] < IqrFences(col).value.q1 || col[i] > IqrFences(col).value.q3
  {
    FencesOrdered(col);
  }

  /** The fences depend only on the multiset of the column's values. */
  lemma FencesPermutationInvariant(a: seq<real>, b: seq<real>)
    requires multiset(a) == multiset(b)
    ensures IqrFences(a) == IqrFences(b)
  {
    SortPermutationInvariant(a, b);
    if |a| > 0 {
      assert |b| == |a|;
      var q1, q3 := FirstQuartile(a), ThirdQuartile(a);
      SameQuartilesFences(a, q1, q3);
      SameQuartilesFences(b, q1, q3);
    }
  }

  /** Reordering the rows moves each flag with its value. */
  lemma IqrPermutationInvariant(a: seq<real>, b: seq<real>, i: nat, j: nat)
    requires multiset(a) == multiset(b)
    requires i < |a| && j < |b| && a[i] == b[j]
    ensures IqrMask(a)[i] == IqrMask(b)[j]
  {
    FencesPermutationInvariant(a, b);
    var f := IqrFences(a).value;
    assert IqrMask(a)[i] == Outside(a[i], f);
    assert IqrMask(b)[j] == Outside(b[j], f);
  }

  lemma {:induction false} SortConstant(col: seq<real>, c: real)
    requires forall i :: 0 <= i < |col| ==> col[i] == c
    ensures forall i :: 0 <= i < |col| ==> Sort(col)[i] == c
  {
    forall i | 0 <= i < |col| ensures Sort(col)[i] == c {
      assert Sort(col)[i] in multiset(col) by {
        assert Sort(col)[i] in Sort(col);
      }
    }
  }

  lemma LerpSame(x: real, t: real)
    ensures Lerp(x, x, t) == x
  {
    assert t * (x - x) == t * 0.0;
  }

  lemma InterpolateConstant(s: seq<real>, h4: nat, c: real)
    requires |s| > 0 && h4 <= 4 * (|s| - 1)
    requires forall i :: 0 <= i < |s| ==> s[i] == c
    ensures Interpolate(s, h4) == c
  {
    assert s[FloorIndex(h4)] == c && s[CeilIndex(h4)] == c;
    LerpSame(c, Fraction(h4));
  }

  /** Both quartiles of a constant column are the constant. */
  lemma QuartilesConstant(col: seq<real>, c: real)
    requires |col| > 0
    requires forall i :: 0 <= i < |col| ==> col[i] == c
    ensures FirstQuartile(col) == c && ThirdQuartile(col) == c
  {
    SortConstant(col, c);
    InterpolateConstant(Sort(col), |col| - 1, c);
    InterpolateConstant(Sort(col), 3 * (|col| - 1), c);
  }

  /** A constant column has both fences at the constant and no flag. */
  lemma IqrConstant(col: seq<real>, c: real)
    requires |col| > 0
    requires forall i :: 0 <= i < |col| ==> col[i] == c
    ensures IqrFences(col) == Some(Fences(c, c, c, c))
    ensures forall i :: 0 <= i < |col| ==> !IqrMask(col)[i]
  {
    QuartilesConstant(col, c);
    SameQuartilesFences(col, c, c);
    assert TukeyFences(c, c) == Fences(c, c, c, c);
    IqrMaskByFences(col, Fences(c, c, c, c));
  }
}
