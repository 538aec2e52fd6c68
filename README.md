# Wellness anomaly detection, modelled in Dafny

The wellness script reads a table of daily observations: a date, the resting
heart rate and the hours slept. It runs two anomaly detectors over each of
the two metric columns:

- **z-score** (`detect_anomalies_zscore`): a value is anomalous when it lies
  more than two sample standard deviations (divisor n-1) from the column mean.
- **IQR** (`detect_anomalies_iqr`): a value is anomalous when it lies strictly
  outside Tukey's fences, Q1 - 1.5·IQR and Q3 + 1.5·IQR. Q1 and Q3 are the
  linear-interpolation quartiles of the column.

The script attaches each detector's flags to the table as new columns. It then
cuts two views out of the table: the rows flagged by either metric under the
z-score test, and the rows flagged under the IQR test.

The model works in exact real arithmetic. Dafny has no square root, so the
z-score test is stated in squared form:

    flag  <==>  n >= 2 && var > 0 && (v - mean)^2 > 4 * var

This form also gives pandas' outcome in the degenerate cases:

- With n < 2, `std()` is NaN.
- With var = 0, every value equals the mean, so z is 0/0 = NaN.

A NaN never compares greater than 2, so neither case raises a flag.
`ZScoreDetector.StandardScoreTest` proves the squared test equal to
`|d / std| > 2` for every non-negative `std` whose square is the variance.

Quartiles are taken from the sorted copy of the column at index h = q·(n-1).
To stay in integers, the model keeps h as a whole number of quarters:
h4 = n-1 for Q1 and h4 = 3(n-1) for Q3. The sorted copy exists twice:

- `Sorting.Sort`, a functional insertion sort that serves as the specification;
- `Sorting.SortInPlace`, an in-place insertion sort over an array, proved to
  produce exactly `Sort` of the original contents.

The script extends one data frame step by step and filters it twice. This is
`Wellness.DetectAnomalies`, which runs over a sequence of `Row` values. The
z-score view is taken before the IQR columns exist, so a row's IQR flags are
`Option`al: `None` until they are attached.

Files:

- `wrappers.dfy`: `Option`.
- `sorting.dfy`: sortedness, the functional and the in-place sort, and uniqueness of the sorted permutation.
- `statistics.dfy`: sum, mean, sample variance, the linear-interpolation quantile, and their algebra.
- `zscore.dfy`: the z-score detector and its properties, including Samuelson's bound.
- `iqr.dfy`: the IQR detector and its properties.
- `wellness.dfy`: rows, derived columns, the two views, and the script as a method.
- `sample_week.dfy`: the six-day example column `[60, 62, 61, 63, 200, 59]` run through both detectors.

On the example column the code computes:

- mean 505/6 ≈ 84.17;
- sample variance 19333/6;
- Q1 60.25 and Q3 62.75;
- IQR 2.5, with fences 56.5 and 66.5.

Only the value 200 is flagged, by either detector (`SampleWeek.SampleZScore`,
`SampleWeek.SampleIqr`).

Each IQR call also returns its lower and upper bounds (lines 59, 62, 66),
which the script never uses. `Wellness.DetectAnomalies` returns them as the
`lower` and `upper` of each metric's `Fences`.

## Model

| member | source | states |
|---|---|---|
| Statistics.Mean | task3_anomaly_detection/anomaly_detection.py:14 | the arithmetic mean Sum/n of a non-empty column (`Series.mean()`); `Statistics.MeanAffine` proves how it follows a rescaling |
| Statistics.Variance | task3_anomaly_detection/anomaly_detection.py:15 | the Bessel-corrected sample variance (divisor n-1) of a column of at least two values, the square of `Series.std()`; it is never negative, and `Statistics.VarianceZeroIffConstant` proves it zero exactly for constant columns |
| Statistics.Interpolate | task3_anomaly_detection/anomaly_detection.py:50-51 | the linear interpolation s[floor h] + (h - floor h)·(s[ceil h] - s[floor h]) at the index h = h4/4 of a sequence; `Statistics.InterpolateBracketed` and `Statistics.InterpolateMonotone` prove it bracketed and monotone on sorted input |
| Statistics.QuantileAtIndex | task3_anomaly_detection/anomaly_detection.py:50-51 | the interpolated value at index h4/4 of the sorted copy of the column (`Series.quantile`, linear method) |
| Statistics.FirstQuartile | task3_anomaly_detection/anomaly_detection.py:50 | `Series.quantile(0.25)`: the interpolated value at index 0.25·(n-1) of the sorted copy |
| Statistics.ThirdQuartile | task3_anomaly_detection/anomaly_detection.py:51 | `Series.quantile(0.75)`: the interpolated value at index 0.75·(n-1) of the sorted copy |
| ZScoreDetector.Exceeds | task3_anomaly_detection/anomaly_detection.py:18-21 | one value's z-score test in squared form: positive variance and (v - mean)² > 2²·variance; `ZScoreDetector.StandardScoreTest` proves it equal to the source's \|(v - mean) / std\| > 2 |
| ZScoreDetector.ZScoreMask | task3_anomaly_detection/anomaly_detection.py:13-21 | the mask is aligned with the column (same length); element i is `Exceeds` of value i against the column's mean and sample variance, and no flag for fewer than two values (NaN std); `ZScoreDetector.ZScoreMaskMatchesSource` ties each element to the quotient test |
| IqrDetector.TukeyFences | task3_anomaly_detection/anomaly_detection.py:52-55 | the fences keep the two quartiles, IQR = Q3 - Q1, each fence lies 1.5·IQR beyond its quartile, and for Q1 <= Q3 they enclose [Q1, Q3] |
| IqrDetector.IqrFences | task3_anomaly_detection/anomaly_detection.py:49-55 | the run-level statistics of a column: Tukey's fences of its first and third quartiles, and none for an empty column (NaN quartiles) |
| IqrDetector.Outside | task3_anomaly_detection/anomaly_detection.py:57 | a value is anomalous when it is strictly below the lower fence or strictly above the upper one |
| IqrDetector.IqrMask | task3_anomaly_detection/anomaly_detection.py:57 | the mask is aligned with the column (same length), and element i is `Outside` of value i against the column's fences |
| Wellness.WithZScoreFlags | task3_anomaly_detection/anomaly_detection.py:24-31 | the table with both metrics' z-score flag columns attached, one row per input row; `Wellness.ZScoreColumnsKeepRows` and `Wellness.ZScoreRowFlags` prove what each row holds |
| Wellness.WithIqrFlags | task3_anomaly_detection/anomaly_detection.py:62-67 | the table with both metrics' IQR flag columns attached, one row per row; `Wellness.IqrColumnsKeepRows` and `Wellness.IqrRowFlags` prove what each row holds |
| Wellness.Flagged | task3_anomaly_detection/anomaly_detection.py:34 | the filter condition of a view: the heart-rate flag or the sleep flag of the method is set (the same shape is used for the IQR flags at line 70) |
| Sorting.Sort | task3_anomaly_detection/anomaly_detection.py:50-51 | the copy of a column that the quartiles are read from is sorted and is a permutation of the column (same length, same multiset) |
| Sorting.Insert | task3_anomaly_detection/anomaly_detection.py:50-51 | inserting into a sorted sequence keeps it sorted and adds exactly the inserted value to its multiset |
| Sorting.SortedUnique | task3_anomaly_detection/anomaly_detection.py:50-51 | two sorted sequences with the same multiset of values are equal, so "the sorted copy" is well defined |
| Sorting.SortPermutationInvariant | task3_anomaly_detection/anomaly_detection.py:50-51 | columns holding the same multiset of values have the same sorted copy |
| Sorting.SortIsTheSortedPermutation | task3_anomaly_detection/anomaly_detection.py:50-51 | any sorted permutation of a column is its sorted copy |
| Sorting.SiftLeft | task3_anomaly_detection/anomaly_detection.py:50-51 | one insertion step: a sorted prefix of length i followed by a[i] becomes a sorted prefix of length i+1; the prefix a[..i+1] keeps its multiset and a[i+1..] is unchanged |
| Sorting.SwapStep | task3_anomaly_detection/anomaly_detection.py:50-51 | swapping the misplaced value with its larger left neighbour moves the one misplaced position left by one, keeps the prefix multiset and leaves the suffix unchanged |
| Sorting.SortInPlace | task3_anomaly_detection/anomaly_detection.py:50-51 | sorting the column in place leaves it sorted and a permutation of its old contents, equal to the functional sorted copy of them |
| Statistics.MeanAffine | task3_anomaly_detection/anomaly_detection.py:14 | rescaling every value v -> a·v + b rescales the mean the same way |
| Statistics.VarianceAffine | task3_anomaly_detection/anomaly_detection.py:15 | rescaling v -> a·v + b multiplies the sample variance by a² (the shift b drops out) |
| Statistics.VarianceZeroIffConstant | task3_anomaly_detection/anomaly_detection.py:15 | for n >= 2 the sample variance is zero exactly when every value equals the mean |
| Statistics.VarianceConstant | task3_anomaly_detection/anomaly_detection.py:15 | a constant column of at least two values has zero sample variance |
| Statistics.SumSqDevAroundMean | task3_anomaly_detection/anomaly_detection.py:14-15 | the squared deviations around any centre c are those around the mean plus n·(mean - c)² |
| Statistics.WithoutSums | task3_anomaly_detection/anomaly_detection.py:14-15 | removing one value from a column removes exactly its share from the sum and from the squared deviations |
| Statistics.InterpolateBracketed | task3_anomaly_detection/anomaly_detection.py:50-51 | on a sorted sequence the interpolated value at h lies between the order statistics at floor h and ceil h, with ceil h <= floor h + 1 |
| Statistics.InterpolateMonotone | task3_anomaly_detection/anomaly_detection.py:50-51 | on a sorted sequence the interpolated value never decreases as the index grows |
| Statistics.QuartilesBracketed | task3_anomaly_detection/anomaly_detection.py:50-51 | Q1 and Q3 each lie between their bracketing order statistics of the sorted copy, and Q1 <= Q3 |
| Statistics.SortEnds | task3_anomaly_detection/anomaly_detection.py:50-51 | the first and last elements of the sorted copy are values of the column, and every value of the column lies between them |
| Statistics.QuantileWithinRange | task3_anomaly_detection/anomaly_detection.py:50-51 | an interpolated quantile lies within [min, max] of the column: some value is at most it and some value at least it |
| Statistics.QuantilePermutationInvariant | task3_anomaly_detection/anomaly_detection.py:50-51 | interpolated quantiles depend only on the multiset of the values, not on their order |
| ZScoreDetector.StandardScoreTest | task3_anomaly_detection/anomaly_detection.py:18-21 | for std >= 0 with std² = var, the squared test var > 0 && d² > 4·var holds iff std > 0 && \|d / std\| > 2 |
| ZScoreDetector.ZScoreMaskMatchesSource | task3_anomaly_detection/anomaly_detection.py:13-21 | element i of the mask holds iff \|(v_i - mean) / std\| > 2 for the column's sample standard deviation, as flagged by the source |
| ZScoreDetector.ZScoreDegenerate | task3_anomaly_detection/anomaly_detection.py:14-21 | a column of fewer than two values, or a constant column, has no z-score flag |
| ZScoreDetector.ZScoreFlagMeansSpread | task3_anomaly_detection/anomaly_detection.py:13-21 | where a z-score flag is set the column has at least two values and a positive variance, the flagged value differs from the mean, and some other value differs from it |
| ZScoreDetector.ExceedsAffine | task3_anomaly_detection/anomaly_detection.py:18-21 | one value's test is unchanged when the value, the mean and the variance are rescaled together by a != 0 |
| ZScoreDetector.ZScoreAffineInvariant | task3_anomaly_detection/anomaly_detection.py:13-21 | the z-score mask is unchanged when the column is rescaled v -> a·v + b, for any a != 0 (so in particular for a > 0) |
| ZScoreDetector.SamuelsonBound | task3_anomaly_detection/anomaly_detection.py:14-18 | no value's squared deviation from the mean exceeds (n-1)/n of the sum of all squared deviations |
| ZScoreDetector.ZScoreNeedsSixValues | task3_anomaly_detection/anomaly_detection.py:13-21 | the z-score detector can only flag a value in a column of at least six values |
| IqrDetector.FencesOrdered | task3_anomaly_detection/anomaly_detection.py:49-55 | fences exist exactly for a non-empty column, lower <= Q1 <= Q3 <= upper, IQR >= 0, and upper - lower = 4·IQR |
| IqrDetector.QuartilesWithinRange | task3_anomaly_detection/anomaly_detection.py:50-51 | some value of the column is at most Q1 and some value is at least Q3 |
| IqrDetector.IqrFlagMeansOutsideQuartiles | task3_anomaly_detection/anomaly_detection.py:54-57 | a value is flagged iff it is below the lower fence or above the upper one, and a flagged value lies outside [Q1, Q3] |
| IqrDetector.FencesPermutationInvariant | task3_anomaly_detection/anomaly_detection.py:49-55 | the quartiles and fences depend only on the multiset of the column's values |
| IqrDetector.IqrPermutationInvariant | task3_anomaly_detection/anomaly_detection.py:49-59 | reordering the column moves each IQR flag with its value |
| IqrDetector.QuartilesConstant | task3_anomaly_detection/anomaly_detection.py:50-51 | both quartiles of a constant column are the constant |
| IqrDetector.IqrConstant | task3_anomaly_detection/anomaly_detection.py:49-59 | a constant column has all four statistics at the constant and no IQR flag |
| Wellness.ZScoreColumnsKeepRows | task3_anomaly_detection/anomaly_detection.py:24-31 | attaching the z-score columns keeps every row's date and metrics in order, and no IQR column exists yet |
| Wellness.ZScoreRowFlags | task3_anomaly_detection/anomaly_detection.py:24-31 | each row keeps its own date and metrics, has no IQR flags yet, and its heart-rate and sleep flags hold iff \|(v - mean) / std\| > 2 for that row's value against the whole column's mean and sample standard deviation; with fewer than two rows no flag is set |
| Wellness.IqrColumnsKeepRows | task3_anomaly_detection/anomaly_detection.py:62-67 | attaching the IQR columns keeps every row's date and metrics in order |
| Wellness.IqrRowFlags | task3_anomaly_detection/anomaly_detection.py:62-67 | attaching the IQR columns changes no other column, and each row's IQR flags compare its own values with the fences of the whole column |
| Wellness.ExtendedTable | task3_anomaly_detection/anomaly_detection.py:24-67 | the fully extended table holds the input rows, and its four flag columns are the two detectors' masks of the two metric columns |
| Wellness.Select | task3_anomaly_detection/anomaly_detection.py:70 | the boolean-indexed view is no longer than the table, and holds only rows of the table that the method flags |
| Wellness.PositionsBounded | task3_anomaly_detection/anomaly_detection.py:34 | the positions a view keeps are row indices of the table |
| Wellness.SelectIsFlaggedSubsequence | task3_anomaly_detection/anomaly_detection.py:34 | a view is the rows of the table at strictly increasing positions, unchanged, and a position is kept iff its row is flagged by either metric; the same filter shape is used at line 70 |
| Wellness.SelectIdempotent | task3_anomaly_detection/anomaly_detection.py:70 | filtering a view again by its own condition changes nothing |
| Wellness.SelectExtremes | task3_anomaly_detection/anomaly_detection.py:34 | with no flagged row the view is empty, and with every row flagged it is the whole table |
| Wellness.ZScoreViewIgnoresIqr | task3_anomaly_detection/anomaly_detection.py:34 | the z-score filter does not look at IQR columns: dropping them before or after filtering gives the same view |
| Wellness.IqrColumnsRemovable | task3_anomaly_detection/anomaly_detection.py:63-67 | adding the IQR columns to a table that has none and dropping them again gives the table back |
| Wellness.DetectAnomalies | task3_anomaly_detection/anomaly_detection.py:24-70 | the script's steps in order: the final table keeps the input and carries both detectors' masks, the returned fences are each metric's IQR fences, the z-score view is the z-score filter of the table without IQR columns, and the IQR view is the IQR filter of the final table |
| SampleWeek.SampleSorted | task3_anomaly_detection/anomaly_detection.py:50-51 | the sorted copy of [60, 62, 61, 63, 200, 59] is [59, 60, 61, 62, 63, 200] |
| SampleWeek.QuartilesOfSix | task3_anomaly_detection/anomaly_detection.py:50-51 | for six values Q1 lies a quarter of the way from the 2nd to the 3rd smallest, and Q3 three quarters of the way from the 4th to the 5th |
| SampleWeek.SampleIqr | task3_anomaly_detection/anomaly_detection.py:49-59 | the sample's quartiles are 60.25 and 62.75 and its fences 56.5 and 66.5, and only the 200 is IQR-flagged |
| SampleWeek.SampleZScore | task3_anomaly_detection/anomaly_detection.py:13-21 | the sample's mean is 505/6 and its sample variance 19333/6, and only the 200 is z-flagged |

## Left out

- Loading the CSV file (line 6). The table is a parameter of `Wellness.DetectAnomalies`.
- Console printing (lines 8-10, 36-38, 42-47, 72-73, 77, 81-83, 121). It is output only.
- Writing the views with `to_csv` (lines 41, 76). It is file output only.
- Converting dates with `pd.to_datetime` (line 86). Dates are kept as the text read.
- All plotting (lines 88-121). It is graphics output only.
- The z-score values stored in `heart_rate_z` and `sleep_hours_z` (lines 18, 21, 25, 30). They need a square root and carry NaN and infinities. The model keeps only the flags. `ZScoreDetector.StandardScoreTest` and `ZScoreDetector.ZScoreMaskMatchesSource` relate the flags to the quotient for any standard deviation.
- Floating-point rounding. The model computes in exact reals.
- Missing cells. Pandas skips NaN entries in `mean`, `std` and `quantile`; the model assumes every cell holds a number.
- Non-numeric columns. These are left to pandas' own type errors.
- `Series.quantile` at other levels. The model has linear interpolation only at the two levels the script uses, 0.25 and 0.75.
- The in-place update of the data frame (`df[...] = ...`). It is modelled on row sequences that each step returns anew. The z-score view is a copy in pandas, so this loses no aliasing.
- task1_flask_firestore/app.py (a Flask and Firestore web application) is not part of this model.
