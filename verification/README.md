# Swaption vol table — a Dafny model

This project models the statistics engine behind the swaption volatility
table: from a history of implied normal (basis-point) volatilities per
swaption instrument (option expiry × underlying swap tenor) and a history
of swap rates per tenor, it builds, as of a date, one row per grid
instrument with

- the current annualized implied vol, its 1-day, 1-week and 1-month
  changes and its 20-observation high and low;
- the same six numbers in daily units (divided by sqrt(252));
- the realized vol of the swap tenor over 10, 20, 60, 90, 120 and 180
  observations (rolling sample standard deviation of daily rate changes in
  basis points, annualized by sqrt(252));
- the display label `"<expiry> × <tenor>Y"`;
- three "largest mover" flags;

ordered by expiry (1M, 3M, 6M, 1Y, 2Y) and then by tenor (2, 5, 10, 30).
The entry point refuses a date outside the range of the implied-vol data.
The general volatility helpers of `src/volatility.py` (realized vol of one
series, changes, rolling statistics, z-score, unit conversions) are
modelled too.

The implementation in `src/modules/swaption_vol_table.py` is duplicated,
with the same logic, in `src/swaption_vol_table.py` (lines 11-47, 50-77,
80-121, 124-187); the model covers both, and the table below cites the
first copy.

Modelling choices:

- A data frame becomes a sequence of records: `Series.VolObs(date,
  expiry, tenor, vol)` and `Series.RateObs(date, tenor, rate)`. Dates are
  day numbers (`int`), tenors `nat`, values `real`.
- pandas' NaN for an undefined metric is `Options.None`; the exceptions
  the code raises for empty intermediate frames are `Options.Failure`
  values with a `Table.TableError` naming the case.
- Dafny has no square root on reals, so every operation that uses
  `np.sqrt` takes a parameter `sqrt: Stats.Root`, any function that is
  zero at zero, non-negative, and positive on positive inputs; sqrt(252)
  is then some positive constant.
- pandas' rolling sample standard deviation (`ddof=1`) is
  `Rolling.RollingStd`: defined when the window holds at least
  `min_periods` non-missing values and at least two.
- An instrument's series is its visible observations sorted by date
  (`Series.VolSeries`); the per-group loops become per-key functions whose
  results are collected once per distinct key.

## Model

| member | source | states |
|---|---|---|
| `Series.UpTo` | src/modules/swaption_vol_table.py:30 | exactly the observations dated on or before the as-of date are kept; the one filter behind both the implied-vol cut (:30, :215) and the swap-rate cut (:93) |
| `Series.LaterInvisible` | src/modules/swaption_vol_table.py:93 | inserting observations dated after the as-of date anywhere leaves the visible observations unchanged, for implied vols and swap rates alike |
| `Series.SortByDate` | src/modules/swaption_vol_table.py:41 | `sort_index()`: the result is ordered by date and is a rearrangement of the input points |
| `Series.VolPoints` | src/modules/swaption_vol_table.py:36-41 | one instrument's dated values: one observation gives its point when it is of that instrument and nothing otherwise; never longer than the input, and non-empty iff the instrument occurs |
| `Series.RatePoints` | src/modules/swaption_vol_table.py:99-104 | the same for one swap tenor's rates |
| `Series.VolPointsConcat` | src/modules/swaption_vol_table.py:36 | extracting an instrument's points distributes over concatenation of the observations, so with the singleton case each matching observation contributes exactly one point, in input order |
| `Series.RatePointsConcat` | src/modules/swaption_vol_table.py:99 | the same for a swap tenor |
| `Series.VolSeriesIsSortedVisibleHistory` | src/modules/swaption_vol_table.py:36-41 | an instrument's series is a date-ordered rearrangement of its visible points, has exactly as many values as the instrument has observations dated on or before the as-of date, and is empty iff none is visible |
| `Series.RateSeriesIsSortedVisibleHistory` | src/modules/swaption_vol_table.py:93-104 | a tenor's rate series is a date-ordered rearrangement of its visible points, has exactly as many values as the tenor has rates dated on or before the as-of date, and is empty iff none is visible |
| `Series.VolKeys` | src/modules/swaption_vol_table.py:36 | the groupby keys: every instrument that has an observation, each once |
| `Series.RateTenors` | src/modules/swaption_vol_table.py:99 | the groupby keys: every tenor that has a rate, each once |
| `Rolling.RollingStd` | src/modules/swaption_vol_table.py:116 | the rolling std at a position is defined iff its window holds at least `min_periods` and at least two present values, and is then the non-negative sample std of the window's present values |
| `Rolling.RollingStdOfConstant` | src/modules/swaption_vol_table.py:116 | over constant data every defined rolling std is zero |
| `Rolling.PresentInDifferenceWindow` | src/modules/swaption_vol_table.py:109-116 | on a difference series (first value missing, the rest present) the window ending at j holds min(w, j) values |
| `Volatility.Change` | src/volatility.py:47 | `data - data.shift(p)`: defined exactly from position p on, and adding it to the value p positions back gives the current value |
| `Volatility.CalculateChanges` | src/volatility.py:43-48 | one change column per period, each defined exactly from its period on and undoing the shift |
| `Volatility.DefaultChangesAreDayWeekMonth` | src/volatility.py:43 | without periods given, the columns are the 1-, 5- and 20-position changes |
| `Volatility.PositiveRatesConcat` | src/volatility.py:12 | the `rates > 0` filter distributes over concatenation |
| `Volatility.PositiveRatesOfPositive` | src/volatility.py:12 | the filter keeps a series of positive rates unchanged |
| `Volatility.PositiveRateIndex` | src/volatility.py:12 | a positive rate at position i sits in the filtered series at the number of positive rates before i |
| `Volatility.ScaledDiffs` | src/volatility.py:18-19 | first difference undefined, every later one the scaled change from the previous rate |
| `Volatility.ConsecutiveChanges` | src/volatility.py:18-19 | one fewer change than rates, each the scaled difference of two consecutive rates |
| `Volatility.DiffWindowIsChanges` | src/volatility.py:18-22 | the present values of the difference window ending at j are exactly the scaled consecutive changes of the rates from `DiffsInWindow(j, w)` positions back up to j |
| `Volatility.RollingIsTrailing` | src/volatility.py:18-25 | the scaled rolling std of the differences at j, where defined, is the sample std of the trailing changes of the rates up to j, times the factor |
| `Volatility.TrailingStdOfConstant` | src/volatility.py:18-22 | constant rates have zero trailing std |
| `Volatility.PositivePrefix` | src/volatility.py:12 | the positive rates up to a positive rate at i are the first `count + 1` positive rates, where count is the number of positive rates before i |
| `Volatility.ReindexAll` | src/volatility.py:27 | `reindex(rates.index)`: each position of a positive rate gets the value computed for it; every other position is undefined |
| `Volatility.CalculateRealizedVol` | src/volatility.py:10-27 | with annualization and percent quotes on unless turned off: one value per input rate; all undefined with fewer than two positive rates; defined exactly at positive rates whose window holds at least max(min(5, w//2), 2) differences; never negative; where defined, the sample std of the last `DiffsInWindow` bp changes among the positive rates up to that position, times sqrt(252) when annualized |
| `Volatility.NoSurvivorsUndefined` | src/volatility.py:14-15 | with fewer than two positive rates no window holds two differences, so the early return and the general path agree |
| `Volatility.RealizedVolOfConstantRates` | src/volatility.py:10-27 | rates that are constant wherever positive have zero realized vol wherever it is defined |
| `Volatility.AnnualizedIsScaledRaw` | src/volatility.py:24-25 | the annualized result is the raw result times sqrt(252), position by position |
| `Volatility.NonPositiveRateIsSkipped` | src/volatility.py:12 | inserting a non-positive rate anywhere inserts one undefined value there and leaves every other value unchanged |
| `Volatility.CalculateRealizedVolMultipleWindows` | src/volatility.py:30-40 | one column per window, the default window list when none is given (percent quotes and annualization on by default), each column the single-window realized vol, one value per rate, defined exactly where that window's realized vol is |
| `Volatility.CalculateRollingStats` | src/volatility.py:51-58 | with a 20-value window unless one is given: mean, min and max defined iff the window holds at least `window//2` (and one) values, std iff also two; the mean is the window's mean and the std its non-negative sample std; min and max are values of the window that bound all of it; min <= mean <= max |
| `Volatility.RollingStatsOfConstant` | src/volatility.py:51-58 | on constant data every defined mean, min and max is the constant and every defined std is zero |
| `Volatility.CalculateZScore` | src/volatility.py:61-73 | undefined iff the history is shorter than the window (60 when none is given) or the recent std is zero or undefined; otherwise the z-score times the std plus the mean gives back the current value |
| `Volatility.ZScoreOfFlatHistory` | src/volatility.py:70-71 | a flat recent history has no z-score |
| `Volatility.ConversionsAreInverse` | src/volatility.py:83-90 | the annualized-to-daily and daily-to-annualized conversions undo each other in both orders |
| `Implied.LookbackChange` | src/modules/swaption_vol_table.py:49-55 | `iloc[-1] - iloc[-1-p]`: defined iff the series has more than p values, and adding it to that earlier value gives the latest one |
| `Implied.LookbackIsLatestChange` | src/modules/swaption_vol_table.py:49-55 | the table's change is the last entry of the general `data - data.shift(p)` change column |
| `Implied.Tail` | src/modules/swaption_vol_table.py:58 | `tail(n)`: the last min(n, length) values, in order |
| `Implied.SeriesMetrics` | src/modules/swaption_vol_table.py:37-60 | metrics exist iff the series has at least 5 values; current is the latest; 1d/1w/1m changes defined iff at least 2/6/21 values; high and low are values of the last 20 and bound all of them, so low <= current <= high |
| `Implied.MetricsChangesAreLookbacks` | src/modules/swaption_vol_table.py:49-55 | the three changes are the 1-, 5- and 20-position lookback changes of the series |
| `Implied.FlatSeriesMetrics` | src/modules/swaption_vol_table.py:49-60 | a series flat over its last 20 values has equal high and low and a zero 1-day change |
| `Implied.ComputeImpliedVolChanges` | src/modules/swaption_vol_table.py:15-73 | a row for an instrument iff at least 5 of its observations are visible; each row holds the metrics of that instrument's visible series; no instrument twice |
| `Implied.RowIffEnoughObservations` | src/modules/swaption_vol_table.py:36-38 | an instrument has a row iff at least 5 of its observations are dated on or before the as-of date |
| `Implied.ImpliedRowOfInstrument` | src/modules/swaption_vol_table.py:36-71 | looking an instrument with enough history up in the result gives the metrics of its own series |
| `Realized.WindowVol` | src/modules/swaption_vol_table.py:109-121 | a window's realized vol is defined iff the series is at least as long as the window and the window holds max(w//2, 2) differences; never negative; where defined, the sample std of the last bp changes of the series, times sqrt(252) |
| `Realized.WindowVolDefined` | src/modules/swaption_vol_table.py:114-118 | every window of at least 3 observations that fits in the series gives a defined value |
| `Realized.WindowVolOfConstant` | src/modules/swaption_vol_table.py:109-118 | constant rates have zero realized vol |
| `Realized.LibraryAtLatest` | src/volatility.py:10-27 | on positive rates, the general helper's latest value (default flags) is defined iff the window holds max(min(5, w//2), 2) differences, and is then the annualized trailing std of the bp changes |
| `Realized.WindowVolAgreesWithLibrary` | src/modules/swaption_vol_table.py:116 | on positive rates, wherever the table's realized vol is defined it equals the latest value of the general realized-vol helper with its default flags |
| `Realized.SeriesRealized` | src/modules/swaption_vol_table.py:113-121 | one realized vol per window, each the window's value |
| `Realized.DefaultWindowsAllDefined` | src/modules/swaption_vol_table.py:100-121 | a tenor that passes the longest-window check has all six default realized vols defined |
| `Realized.RowIffEnoughObservations` | src/modules/swaption_vol_table.py:99-101 | with a non-empty window list, a tenor has a row iff its number of rates dated on or before the as-of date is positive and at least every window |
| `Realized.ComputeRealizedVol` | src/modules/swaption_vol_table.py:76-125 | with the windows 10, 20, 60, 90, 120 and 180 unless others are given: fails iff the window list is empty and some rate is visible; otherwise a row for a tenor iff its visible series is at least as long as every window; each row holds that series' realized vols; no tenor twice |
| `Movers.AbsChanges` | src/modules/swaption_vol_table.py:243-246 | the absolute changes over the trailing window, skipping positions with no value `period` back |
| `Movers.IsLargestMover` | src/modules/swaption_vol_table.py:248-252 | the flag is raised iff the history is long enough, the current change is defined, and its absolute value is one of the window's changes and bounds all of them |
| `Movers.LargestMoverIffNoLargerMove` | src/modules/swaption_vol_table.py:241-252 | with the series' own latest change, the flag is raised iff no position of the window moved more |
| `Movers.ComputeFlags` | src/modules/swaption_vol_table.py:228-282 | no flag below 21 values; otherwise each flag is its horizon's largest-mover test |
| `Movers.FlagsOfSeries` | src/modules/swaption_vol_table.py:228-282 | for a table row: 1d flag iff at least 21 values and the latest 1-day move is the largest of the last 10; 1w iff at least 26 values and largest 5-position move of the last 20; 1m iff at least 141 values and largest 20-position move of the last 120 |
| `Labels.NatToString` | src/modules/swaption_vol_table.py:163 | `str(n)`: a non-empty string of decimal digits that starts with `0` only for zero, so it has no leading zeros |
| `Labels.NatToStringRoundTrip` | src/modules/swaption_vol_table.py:163 | `str(tenor)` renders digits that read back as the tenor |
| `Labels.TermTenor` | src/modules/swaption_vol_table.py:163 | the label is the expiry, a space, the multiplication sign, a space, the tenor's digits and `Y` |
| `Labels.TermTenorRoundTrip` | src/modules/swaption_vol_table.py:163 | the label parses back into its expiry and tenor |
| `Labels.TermTenorInjective` | src/modules/swaption_vol_table.py:163 | distinct grid points get distinct labels |
| `Table.ToDaily` | src/modules/swaption_vol_table.py:152-157 | the daily columns times sqrt(252) give back the annualized ones; a change is defined daily iff annualized |
| `Table.DailyKeepsBracket` | src/modules/swaption_vol_table.py:152-157 | the daily high and low still bracket the daily current vol |
| `Table.RealizedFor` | src/modules/swaption_vol_table.py:160 | left join on tenor: the realized vols of a row of that tenor, or all missing when there is none |
| `Table.RealizedForUnique` | src/modules/swaption_vol_table.py:160 | with distinct tenors the join yields the one matching row |
| `Table.GridOnlyMembers` | src/modules/swaption_vol_table.py:166-167 | a row survives the grid filter iff its expiry and tenor are both listed |
| `Table.GridOnlyDistinct` | src/modules/swaption_vol_table.py:166-167 | filtering keeps instruments distinct |
| `Table.Rank` | src/modules/swaption_vol_table.py:188-189 | a listed expiry's rank is its position in the expiry list |
| `Table.SortRows` | src/modules/swaption_vol_table.py:190 | the result is ordered by expiry rank then tenor and is a rearrangement of the rows |
| `Table.SortedGridIsStrict` | src/modules/swaption_vol_table.py:188-191 | distinct grid rows, once sorted, are strictly ordered by expiry and then tenor |
| `Build.BuildSwaptionVolTable` | src/modules/swaption_vol_table.py:128-193 | fails iff no instrument has 5 visible values, or some has but no tenor has enough rates; otherwise a row exactly for each grid instrument with 5 visible values, each row its metrics, daily metrics, label, realized vols of its tenor (missing when too short) and flags, strictly ordered |
| `Build.DependsOnlyOnVisible` | src/modules/swaption_vol_table.py:30 | two inputs with the same visible observations give the same table |
| `Build.NoLookAhead` | src/modules/swaption_vol_table.py:93 | observations dated after the as-of date, inserted anywhere, do not change the table |
| `Build.PermutationKeepsDistinctKeys` | src/modules/swaption_vol_table.py:190 | sorting keeps instruments distinct |
| `Guard.EarliestDate` | src/modules/get_swaption_table.py:92 | the minimum date is an observation's date and bounds all of them from below |
| `Guard.LatestDate` | src/modules/get_swaption_table.py:93 | the maximum date is an observation's date and bounds all of them from above |
| `Guard.GetSwaptionTable` | src/modules/get_swaption_table.py:73-103 | refused with no data, for a date before every observation, or after every observation; any date in between, inclusive, gets the built table |
| `Guard.GetSwaptionTableLatest` | src/modules/get_swaption_table.py:129-138 | never refused for its date; refused only without data |
| `Guard.LatestIsTableAtLastDate` | src/modules/get_swaption_table.py:136-138 | the latest table is the table built at the last observation date, at which every implied-vol observation is visible |

## Left out

- Data loading (`_load_data`, src/modules/get_swaption_table.py:28-70): file and database I/O and the module-level cache; the model takes the two observation sequences as inputs.
- Excel export, rendering and the command-line entry point: presentation only.
- `calculate_z_scores` (src/volatility.py:76-80): rolling z-scores divide by a rolling std that may be zero, giving floating-point infinities that reals cannot represent.
- Floating point: values are exact reals, so rounding, infinities (replaced by NaN at src/volatility.py:21) and NaN inputs are not modelled; NaN appears only as a missing value.
- `np.sqrt`: a parameter, see above; sqrt(252) is not pinned to a number.
- The group enumeration order of pandas' groupby: `groupby(['expiry', 'tenor'])` (src/modules/swaption_vol_table.py:36, :228) and `groupby('tenor')` (:99) use the default `sort=True` and visit groups in sorted key order, while the model visits them in first-appearance order; the final sort at :190 makes the difference invisible in the table.
- Several observations of one instrument on the same date: the model orders them stably by date; the order pandas' sort leaves them in is not specified.
- A window list with a repeated window: pandas keeps one column per distinct window name; the model keeps one entry per list element (with equal values).
- Table columns: the model keeps the realized vols as a list in window order instead of named columns, and the flags as a record.
- Volatility.ReindexAll: `reindex(rates.index)` (src/volatility.py:27) is modelled by position, which is what it does when the rate series has unique index labels; with duplicate labels pandas raises instead, and the model does not represent index labels at all.
- Volatility.CalculateChanges: a period repeated in the list gives a repeated `change_{period}d` column name (src/volatility.py:47), so pandas keeps one column for it; the model keeps one entry per list element (the entries are equal).
- Negative periods and windows in the general helpers: periods and windows are `nat`.
- Guard.GetSwaptionTable: with no implied-vol data at all the source raises during date comparison or while building; the model reports `NoVolData` for that case.
- Stats.SampleStd: only "constant data has zero std" is proved, not the converse.
