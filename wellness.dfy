/**
 * The wellness script: a table of daily observations (date, heart rate,
 * sleep hours) is extended, column by column, with the z-score flags of
 * both metrics and then with their IQR flags, and two views are cut out of
 * it: the rows where either metric has a z-score flag, and the rows where
 * either metric has an IQR flag.
 *
 * The z-score view is taken before the IQR columns exist and pandas'
 * boolean indexing copies the rows, so that view never gains IQR columns.
 * A row's IQR flags are therefore optional: `None` until they are attached.
 */
module Wellness {
  import opened Wrappers
  import opened Statistics
  import opened ZScoreDetector
  import opened IqrDetector

  /** The date column is kept as the text read from the file. */
  type Date = string

  /** One input row. */
  datatype Observation = Observation(date: Date, heartRate: real, sleepHours: real)

  /** One method's verdicts on the two metrics of a row. */
  datatype MetricFlags = MetricFlags(heartRate: bool, sleepHours: bool)

  /** A row of the extended table. */
  datatype Row = Row(date: Date, heartRate: real, sleepHours: real,
                     zscore: MetricFlags, iqr: Option<MetricFlags>)
  {
    /** The columns the row was read with. */
    function Base(): Observation { Observation(date, heartRate, sleepHours) }
  }

  /** The two detection methods, each with its own result view. */
  datatype Method = ZScore | Iqr

  function HeartRates(data: seq<Observation>): (col: seq<real>)
    ensures |col| == |data|
  {
    seq(|data|, i requires 0 <= i < |data| => data[i].heartRate)
  }

  function SleepHours(data: seq<Observation>): (col: seq<real>)
    ensures |col| == |data|
  {
    seq(|data|, i requires 0 <= i < |data| => data[i].sleepHours)
  }

  /** The input columns of the extended table. */
  function Observations(rows: seq<Row>): (data: seq<Observation>)
    ensures |data| == |rows|
  {
    seq(|rows|, i requires 0 <= i < |rows| => rows[i].Base())
  }

  /** The table after the z-score columns of both metrics are attached. */
  function WithZScoreFlags(data: seq<Observation>): (rows: seq<Row>)
    ensures |rows| == |data|
  {
    var hr, sl := ZScoreMask(HeartRates(data)), ZScoreMask(SleepHours(data));
    seq(|data|, i requires 0 <= i < |data| =>
      Row(data[i].date, data[i].heartRate, data[i].sleepHours, MetricFlags(hr[i], sl[i]), None))
  }

  /** The table after the IQR columns of both metrics are attached; the
      fences are computed from the table's own metric columns. */
  function WithIqrFlags(rows: seq<Row>): (r: seq<Row>)
    ensures |r| == |rows|
  {
    var data := Observations(rows);
    var hr, sl := IqrMask(HeartRates(data)), IqrMask(SleepHours(data));
    seq(|rows|, i requires 0 <= i < |rows| => rows[i].(iqr := Some(MetricFlags(hr[i], sl[i]))))
  }

  /** The view of the table without its IQR columns. */
  function WithoutIqr(rows: seq<Row>): (r: seq<Row>)
    ensures |r| == |rows|
  {
    seq(|rows|, i requires 0 <= i < |rows| => rows[i].(iqr := None))
  }

  /** The filter condition of a view: either metric is flagged by the method. */
  predicate Flagged(r: Row, m: Method) {
    match m
    case ZScore => r.zscore.heartRate || r.zscore.sleepHours
    case Iqr => r.iqr.Some? && (r.iqr.value.heartRate || r.iqr.value.sleepHours)
  }

  /** Boolean indexing by the method's condition: the flagged rows, in order. */
  function Select(rows: seq<Row>, m: Method): (r: seq<Row>)
    ensures |r| <= |rows|
    ensures forall k :: 0 <= k < |r| ==> r[k] in rows && Flagged(r[k], m)
  {
    if rows == [] then []
    else
      var last := rows[|rows| - 1];
      Select(rows[..|rows| - 1], m) + (if Flagged(last, m) then [last] else [])
  }

  /** The positions of the rows `Select` keeps. */
  function Positions(rows: seq<Row>, m: Method): seq<nat> {
    if rows == [] then []
    else
      var n := |rows| - 1;
      Positions(rows[..n], m) + (if Flagged(rows[n], m) then [n] else [])
  }

  // ---------------------------------------------------------------------
  // The derived columns

  /** Attaching the z-score columns keeps the input columns and order. */
  lemma ZScoreColumnsKeepRows(data: seq<Observation>)
    ensures Observations(WithZScoreFlags(data)) == data
    ensures forall i :: 0 <= i < |data| ==> WithZScoreFlags(data)[i].iqr.None?
  {
  }

  /** Each row keeps its own values and gets, for each metric, the source's
      test |(v - mean) / std| > 2 on that value against the whole column's
      mean and sample standard deviation std (std >= 0, std * std equal to
      the sample variance); with fewer than two rows no flag is set. */
  lemma ZScoreRowFlags(data: seq<Observation>, i: nat, stdHr: real, stdSl: real)
    requires i < |data| && stdHr >= 0.0 && stdSl >= 0.0
    requires |data| >= 2 ==> stdHr * stdHr == Variance(HeartRates(data)) &&
                             stdSl * stdSl == Variance(SleepHours(data))
    ensures var r := WithZScoreFlags(data)[i];
            r.Base() == data[i] && r.iqr.None? &&
            (|data| < 2 ==> r.zscore == MetricFlags(false, false))
    ensures |data| >= 2 ==>
              var r, hr, sl := WithZScoreFlags(data)[i], HeartRates(data), SleepHours(data);
              (r.zscore.heartRate <==> stdHr > 0.0 && Abs((data[i].heartRate - Mean(hr)) / stdHr) > Threshold) &&
              (r.zscore.sleepHours <==> stdSl > 0.0 && Abs((data[i].sleepHours - Mean(sl)) / stdSl) > Threshold)
  {
    var hr, sl := HeartRates(data), SleepHours(data);
    assert hr[i] == data[i].heartRate && sl[i] == data[i].sleepHours;
    if |data| >= 2 {
      ZScoreMaskMatchesSource(hr, stdHr, i);
      ZScoreMaskMatchesSource(sl, stdSl, i);
    }
  }

  /** Attaching the IQR columns keeps the input columns and order. */
  lemma IqrColumnsKeepRows(rows: seq<Row>)
    ensures Observations(WithIqrFlags(rows)) == Observations(rows)
  {
    var l, r := Observations(WithIqrFlags(rows)), Observations(rows);
    forall i | 0 <= i < |rows| ensures l[i] == r[i] {
      assert WithIqrFlags(rows)[i].Base() == rows[i].Base();
    }
  }

  /** Attaching the IQR columns keeps every other column, and each row's
      IQR flag is its value's position against the column's fences. */
  lemma IqrRowFlags(rows: seq<Row>, i: nat)
    requires i < |rows|
    ensures Observations(WithIqrFlags(rows)) == Observations(rows)
    ensures var r, data := WithIqrFlags(rows)[i], Observations(rows);
            r.(iqr := None) == rows[i].(iqr := None) &&
            r.iqr == Some(MetricFlags(Outside(r.heartRate, IqrFences(HeartRates(data)).value),
                                      Outside(r.sleepHours, IqrFences(SleepHours(data)).value)))
  {
    IqrColumnsKeepRows(rows);
    var data := Observations(rows);
    var hr, sl := HeartRates(data), SleepHours(data);
    assert hr[i] == rows[i].heartRate && sl[i] == rows[i].sleepHours;
  }

  // ---------------------------------------------------------------------
  // The views

  lemma PositionsBounded(rows: seq<Row>, m: Method)
    ensures forall k :: 0 <= k < |Positions(rows, m)| ==> Positions(rows, m)[k] < |rows|
  {
  }

  /** r is made of rows p[0], p[1], ... of the table, unchanged, for
      strictly increasing positions p. */
  predicate PicksInOrder(rows: seq<Row>, r: seq<Row>, p: seq<nat>) {
    |r| == |p| &&
    (forall k :: 0 <= k < |p| ==> p[k] < |rows| && r[k] == rows[p[k]]) &&
    (forall k, l :: 0 <= k < l < |p| ==> p[k] < p[l])
  }

  /** The positions p are exactly those of the flagged rows. */
  predicate PositionsOfFlagged(rows: seq<Row>, m: Method, p: seq<nat>) {
    forall i :: 0 <= i < |rows| ==> (i in p <==> Flagged(rows[i], m))
  }

  lemma PicksInOrderStep(rows: seq<Row>, m: Method)
    requires rows != []
    requires PicksInOrder(rows[..|rows| - 1], Select(rows[..|rows| - 1], m), Positions(rows[..|rows| - 1], m))
    ensures PicksInOrder(rows, Select(rows, m), Positions(rows, m))
  {
    var n := |rows| - 1;
    var front := rows[..n];
    var r, p := Select(rows, m), Positions(rows, m);
    var rf, pf := Select(front, m), Positions(front, m);
    assert r == rf + (if Flagged(rows[n], m) then [rows[n]] else []);
    assert p == pf + (if Flagged(rows[n], m) then [n] else []);
    forall k | 0 <= k < |p| ensures p[k] < |rows| && r[k] == rows[p[k]] {
      if k < |pf| {
        assert front[pf[k]] == rows[pf[k]];
      }
    }
  }

  lemma PositionsOfFlaggedStep(rows: seq<Row>, m: Method)
    requires rows != []
    requires PositionsOfFlagged(rows[..|rows| - 1], m, Positions(rows[..|rows| - 1], m))
    ensures PositionsOfFlagged(rows, m, Positions(rows, m))
  {
    var n := |rows| - 1;
    var front := rows[..n];
    PositionsBounded(front, m);
    var p, pf := Positions(rows, m), Positions(front, m);
    assert p == pf + (if Flagged(rows[n], m) then [n] else []);
    forall i | 0 <= i < |rows| ensures i in p <==> Flagged(rows[i], m) {
      if i < n {
        assert front[i] == rows[i];
        assert i != n;
      } else {
        assert n !in pf;
      }
    }
  }

  /** A view is the subsequence of the rows, in their original order, made of
      exactly the flagged rows: its k-th row is row p[k] of the table,
      unchanged, for strictly increasing positions p (so no row twice), and
      position i is among them iff row i is flagged. */
  lemma {:induction false} SelectIsFlaggedSubsequence(rows: seq<Row>, m: Method)
    ensures var r, p := Select(rows, m), Positions(rows, m);
            |r| == |p| &&
            (forall k :: 0 <= k < |p| ==> p[k] < |rows| && r[k] == rows[p[k]]) &&
            (forall k, l :: 0 <= k < l < |p| ==> p[k] < p[l]) &&
            (forall i :: 0 <= i < |rows| ==> (i in p <==> Flagged(rows[i], m)))
  {
    if rows != [] {
      SelectIsFlaggedSubsequence(rows[..|rows| - 1], m);
      PicksInOrderStep(rows, m);
      PositionsOfFlaggedStep(rows, m);
    }
  }

  /** Filtering a view again by its own condition changes nothing. */
  lemma {:induction false} SelectIdempotent(rows: seq<Row>, m: Method)
    ensures Select(Select(rows, m), m) == Select(rows, m)
  {
    if rows != [] {
      var n := |rows| - 1;
      SelectIdempotent(rows[..n], m);
      var r := Select(rows, m);
      var rf := Select(rows[..n], m);
      if Flagged(rows[n], m) {
        assert r == rf + [rows[n]];
        assert r[..|r| - 1] == rf;
      } else {
        assert r == rf;
      }
    }
  }

  /** Every row of the table is flagged exactly when the view keeps it: if no
      row is flagged the view is empty, and if every row is, it is the table. */
  lemma {:induction false} SelectExtremes(rows: seq<Row>, m: Method)
    ensures (forall i :: 0 <= i < |rows| ==> !Flagged(rows[i], m)) ==> Select(rows, m) == []
    ensures (forall i :: 0 <= i < |rows| ==> Flagged(rows[i], m)) ==> Select(rows, m) == rows
  {
    if rows != [] {
      var n := |rows| - 1;
      SelectExtremes(rows[..n], m);
      assert rows == rows[..n] + [rows[n]];
    }
  }

  /** Dropping the IQR columns commutes with the z-score filter, which does
      not look at them: the z-score view taken before the IQR columns exist
      is the z-score view of the final table without its IQR columns. */
  lemma {:induction false} ZScoreViewIgnoresIqr(rows: seq<Row>)
    ensures Select(WithoutIqr(rows), ZScore) == WithoutIqr(Select(rows, ZScore))
  {
    if rows != [] {
      var n := |rows| - 1;
      ZScoreViewIgnoresIqr(rows[..n]);
      assert WithoutIqr(rows)[..n] == WithoutIqr(rows[..n]);
      var s := Select(rows[..n], ZScore);
      if Flagged(rows[n], ZScore) {
        assert WithoutIqr(s + [rows[n]]) == WithoutIqr(s) + [rows[n].(iqr := None)];
      }
    }
  }

  /** Adding the IQR columns to a table that has only z-score columns and
      dropping them again gives the table back. */
  lemma IqrColumnsRemovable(rows: seq<Row>)
    requires forall i :: 0 <= i < |rows| ==> rows[i].iqr.None?
    ensures WithoutIqr(WithIqrFlags(rows)) == rows
  {
  }

  /** The fully extended table keeps the input, and its flag columns are the
      two detectors' masks of the input's metric columns. */
  lemma ExtendedTable(data: seq<Observation>)
    ensures var df := WithIqrFlags(WithZScoreFlags(data));
            Observations(df) == data &&
            forall i :: 0 <= i < |df| ==>
              df[i].zscore == MetricFlags(ZScoreMask(HeartRates(data))[i], ZScoreMask(SleepHours(data))[i]) &&
              df[i].iqr == Some(MetricFlags(IqrMask(HeartRates(data))[i], IqrMask(SleepHours(data))[i]))
  {
    ZScoreColumnsKeepRows(data);
    IqrColumnsKeepRows(WithZScoreFlags(data));
  }

  // ---------------------------------------------------------------------
  // The script

  /** Runs the detection steps in the script's order on the loaded table.
      Returns the extended table, the z-score view, the IQR view and the
      heart-rate and sleep fences (whose `lower` and `upper` are the
      script's run-level bounds). */
  method DetectAnomalies(data: seq<Observation>)
    returns (df: seq<Row>, anomalies: seq<Row>, iqrAnomalies: seq<Row>,
             heartRateFences: Option<Fences>, sleepFences: Option<Fences>)
    ensures |df| == |data| && Observations(df) == data
    ensures forall i :: 0 <= i < |df| ==>
              df[i].zscore == MetricFlags(ZScoreMask(HeartRates(data))[i], ZScoreMask(SleepHours(data))[i]) &&
              df[i].iqr == Some(MetricFlags(IqrMask(HeartRates(data))[i], IqrMask(SleepHours(data))[i]))
    ensures heartRateFences == IqrFences(HeartRates(data)) && sleepFences == IqrFences(SleepHours(data))
    ensures anomalies == Select(WithoutIqr(df), ZScore)
    ensures iqrAnomalies == Select(df, Iqr)
  {
    df := WithZScoreFlags(data);
    ZScoreColumnsKeepRows(data);
    anomalies := Select(df, ZScore);
    var zTable := df;
    heartRateFences := IqrFences(HeartRates(Observations(df)));
    sleepFences := IqrFences(SleepHours(Observations(df)));
    df := WithIqrFlags(df);
    iqrAnomalies := Select(df, Iqr);
    IqrColumnsRemovable(zTable);
    ExtendedTable(data);
  }
}
