# Water infiltration rate calculator — verified model

This project models the calculation at the heart of a soakage-test calculator that follows the BRE Digest 365 method. The user gives:

- the plan dimensions of a trial pit (length, width, depth);
- the void ratio of the gravel fill;
- a table of time (minutes) and depth-to-water (metres below ground level) readings.

The calculator first drops incomplete rows. It then calculates only if at least two readings remain. It takes:

- h75 as the last recorded depth;
- h25 as 150 mm above it;
- the times t75 and t25 at which the water stood at those levels, found by piecewise-linear interpolation over the readings (numpy's `interp`, with depth as the x axis) and converted to seconds.

From these it derives:

- the effective volume v7525 = L·W·Δh·void ratio;
- the effective wetted area aP50 = 2LΔh + 2WΔh + LW;
- the infiltration rate f = v7525 / (aP50·Δt), or 0 where that denominator is 0.

Modules:

- `Readings` (readings.dfy): table rows with possibly empty cells. `Clean` is the model of pandas `dropna`.
- `Interpolation` (interp.dfy): `Interp`, a recursive model of numpy's `interp`. It follows numpy's algorithm:
  - it finds the largest index j whose depth is at most the query;
  - it extrapolates flat on both sides;
  - it requires depths that never decrease. numpy documents that xp must be strictly increasing and does not check it. The model also accepts repeated depths, because the calculator's default table has them. There it follows numpy's implementation rather than its documentation.
- `Infiltration` (infiltration.dfy): `Calculate`, the whole pipeline, returning either `InsufficientData` or the full record of results. Also the formula functions and the properties of the calculation, including the exact results on the calculator's default inputs.

All quantities are Dafny `real`s, which are exact.

Modelling notes:

- **Duplicate depths.** One might expect interpolation to be exact at every recorded depth, but that holds only when depths strictly increase. The default table repeats 0.75 m and 0.79 m. At such a repeated depth, numpy answers with the time of the last reading at that depth. `Interpolation.InterpAtKnot` states exactness for every reading whose successor is deeper, and that covers this case.
- **Time-doubling transforms.** `Interpolation.DoubleTimes` and `Infiltration.DoubleRowTimes` are not operations of the calculator. They build the input for the scaling property: the same test recorded at half the speed. They are stated by `Infiltration.CleanDoubleRowTimes`, `Interpolation.InterpDoubleTimes` and `Infiltration.CalculateDoubledTimesHalveRate`.
- **Pit depth.** The pit depth is kept as a field of `Pit` and is provably ignored.

## Model

| member | source | states |
|---|---|---|
| Readings.Clean | geo_app.py:26 | cleaning never produces more readings than there were rows |
| Readings.CleanCompleteTable | geo_app.py:26 | nothing is dropped iff every row has both cells; then row i becomes reading i unchanged |
| Readings.CleanMembership | geo_app.py:26 | a reading survives iff some complete row carries exactly that time and depth |
| Readings.CleanAppend | geo_app.py:26 | cleaning distributes over concatenation of tables, so surviving rows keep their relative order |
| Readings.CleanSingle | geo_app.py:26 | a single row is kept, as its reading, iff it is complete |
| Interpolation.AdjacentDepthsNonDecreasing | geo_app.py:38-39 | depth order between neighbours gives the non-decreasing order that interpolation requires |
| Interpolation.MinTime | geo_app.py:38-39 | the earliest time is a lower bound of all times and is one of them |
| Interpolation.MaxTime | geo_app.py:38-39 | the latest time is an upper bound of all times and is one of them |
| Interpolation.Lerp | geo_app.py:38-39 | on one segment the blend lies between the two segment times and equals the lower reading's time at its depth |
| Interpolation.InterpFlatOutside | geo_app.py:38-39 | a query shallower than the first depth gives the first time; one at or deeper than the last depth gives the last time |
| Interpolation.InterpAtKnot | geo_app.py:38-39 | querying the depth of a reading whose successor is deeper (or the last reading) returns that reading's time |
| Interpolation.InterpOnSegment | geo_app.py:38-39 | a query between two consecutive readings of distinct depth returns their linear blend, which lies between their times |
| Interpolation.InterpWithinRange | geo_app.py:38-39 | the interpolated time never leaves the range of the recorded times |
| Interpolation.InterpConstantTime | geo_app.py:38-39 | if all readings carry one time, every query returns it |
| Interpolation.InterpMonotone | geo_app.py:38-39 | with non-decreasing times, a deeper query never gives an earlier time |
| Interpolation.LerpMonotone | geo_app.py:38-39 | on one segment with non-decreasing times the blend does not decrease with depth |
| Interpolation.InterpDoubleTimes | geo_app.py:38-39 | doubling every recorded time doubles every interpolated time |
| Infiltration.Calculate | geo_app.py:26-44 | the outcome is "insufficient data" iff fewer than 2 complete readings remain; otherwise h75 is the last depth, h25 = h75 − 0.150, delta_h = 0.150 exactly, t75 = last time × 60, t25 = interpolated time at h25 × 60, delta_t = t75 − t25, and v7525, aP50, f are the formulas applied with delta_h = 0.150 |
| Infiltration.EffectiveVolumeBounds | geo_app.py:42 | for non-negative sides and void ratio in [0, 1], 0 ≤ v7525 ≤ L·W·Δh |
| Infiltration.EffectiveAreaCoversBase | geo_app.py:43 | aP50 is at least the base area L·W, and positive for positive sides |
| Infiltration.RateBalancesVolume | geo_app.py:44 | f·(aP50·Δt) = v7525 whenever aP50·Δt ≠ 0, f = 0 when it is 0 (no division by zero), and f ≥ 0 for non-negative volume, positive area and non-negative Δt |
| Infiltration.RateHalvesWhenTimeDoubles | geo_app.py:44 | doubling Δt halves f, including in the zero-fallback case |
| Infiltration.CalculateTimesOrdered | geo_app.py:38-40 | with non-decreasing times, t25 ≤ t75 and delta_t ≥ 0 |
| Infiltration.CalculateRateNonNegative | geo_app.py:42-44 | for positive sides and void ratio in [0, 1] with non-decreasing times, v7525 ≥ 0, aP50 > 0 and f ≥ 0 |
| Infiltration.CalculateIgnoresPitDepth | geo_app.py:42-44 | changing the pit depth (geo_app.py:14) never changes the outcome |
| Infiltration.CalculateConstantTimeGivesZeroRate | geo_app.py:38-44 | if every complete reading has the same time, delta_t = 0 and f falls back to 0 |
| Infiltration.CleanDoubleRowTimes | geo_app.py:26 | cleaning commutes with doubling the times |
| Infiltration.DoubleTimesAppend | geo_app.py:38-39 | doubling the times distributes over concatenation |
| Infiltration.CalculateDoubledTimesHalveRate | geo_app.py:38-44 | a test recorded at half the speed gives doubled t75, t25 and delta_t, equal v7525 and aP50, and half the rate |
| Infiltration.DefaultRowsClean | geo_app.py:21-26 | the default table is complete and cleans to its 14 readings |
| Infiltration.DefaultDepthsNonDecreasing | geo_app.py:23 | the default depths never decrease |
| Infiltration.DefaultInterpolation | geo_app.py:21-39 | on the default readings the time at 0.775 m is 6.75 min |
| Infiltration.DefaultFormulas | geo_app.py:12-44 | on the default pit, v7525 = 0.0189 m³ and aP50 = 0.885 m², and the default rate 0.0189 / (0.885·1095) lies in [1.95e-05, 1.96e-05) m/s |
| Infiltration.DefaultExample | geo_app.py:12-44 | on the default inputs: h75 = 0.925, h25 = 0.775, delta_h = 0.150, t75 = 1500 s, t25 = 405 s, delta_t = 1095 s, v7525 = 0.0189, aP50 = 0.885, f = 0.0189 / (0.885·1095), which lies in [1.95e-05, 1.96e-05) m/s |
| Infiltration.ExampleFor | geo_app.py:12-44 | the default example for any table that cleans to the default readings |

## Left out

- The Streamlit user interface (geo_app.py:6-25, 47-56, 72): page set-up, input widgets, the editable table, metrics, expander text and the warning. It is presentation and I/O. The inputs become parameters, and the warning becomes the `InsufficientData` outcome.
- The number formatting at geo_app.py:49-56. It is string rendering of floats.
- The matplotlib plot (geo_app.py:59-70). Its output is purely visual.
- IEEE-754 rounding. The model uses exact reals. In doubles, delta_h = h75 − (h75 − 0.150) is only approximately 0.150, and the zero test at geo_app.py:44 compares floats. Rounding can also move h25 across a repeated depth, where the interpolated time jumps. For example, 0.35 − 0.150 rounds to just below 0.2, so with depths 0.1, 0.2, 0.2, 0.35 at 0, 1, 2, 3 min the model's t25 is 120 s but the calculator's is about 60 s. When h25 falls on a repeated depth, the calculator's t25 (and so Δt and f) can therefore differ from the model's by a whole reading interval, not just by rounding error.
- `start_depth` (geo_app.py:30). It is computed but never used.
- pandas and numpy internals. `dropna` is modelled as a filter of rows with an empty cell. `np.interp` is modelled by the lookup of numpy's implementation: the largest index whose depth is at most the query. This includes:
  - the left and right fill values;
  - the answer at repeated depths, which numpy's documentation does not cover (it asks for strictly increasing xp);
  - numpy's undefined result for decreasing depths, which the model excludes by precondition.
- NaN and infinite cells are not modelled: a cell is either empty or a real number.
- Infiltration.CalculateDoubledTimesHalveRate: scaling the times is proved only for a factor of 2, not for an arbitrary positive factor.
- Infiltration.Calculate: it requires the cleaned depths not to decrease. The calculator does not check this, and numpy's result for such input is unspecified.
