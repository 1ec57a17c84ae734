# Traffic analytics dashboard: window heuristics, rolling aggregates, extremum marks and data-quality guards

This project models the small piece of original logic inside the traffic analytics dashboard
(`st_app.py`). The rest of that file is page layout, database loading, charting and calls into a
statistics library. The model covers:

- **Window heuristics** (`windows.dfy`, module `Windows`):
  - the odd-width coercion `_odd`;
  - the display smoother width `_win`;
  - the STL seasonal and trend windows for period 24;
  - the gate that needs at least 48 hourly points before any decomposition;
  - the bounds and initial value of the residual rolling-window slider.
- **Rolling aggregates** (`rolling.dfy`, module `Rolling`): the trailing `rolling(w, min_periods=1)`
  aggregate, as used by the residual navigator (`mean`, `sum`, `abs_sum`) and by the display moving
  average. A numeric cell that may be NaN is an `Option<int>`, with `None` for NaN. A window skips
  missing cells. A window with no observed cell gives a missing result. Windows near the start of
  the series are partial. `RollingTotals` computes the windows incrementally: each step adds the
  cell that enters and subtracts the one that leaves. It is proved equal, position by position, to
  the sums and counts over the cells `max(0, i-w+1)..i`. `abs_sum` takes absolute values first and
  then sums, so it is a separate aggregate and not `|sum|`.
- **Top-N marks** (`marks.dfy`, module `Marks`): `_mark(s, n)` returns the `n` highest and the `n`
  lowest cells, as pandas' `nlargest`/`nsmallest` do. Observed values come first, in ranking order,
  with equal values kept in series order. When fewer than `n` cells are observed, missing cells
  follow in series order until the result holds min(`n`, `len(s)`) cells. The result is empty when
  `n <= 0` or when nothing is observed. The model ranks the observed points by a stable insertion
  sort, appends the missing cells, and takes the first `n`. Lemmas state the result's length, that
  every cell is a cell of the series taken once, the observed-then-missing order, and that every
  observed point left out ranks after every observed point marked.
- **Data-quality guards** (`guards.dfy`, module `Guards`):
  - the working table is a `Frame` class, a map from column name to a column array;
  - `ApplyGuards` overwrites the speed and volume cells above their caps with missing values, in
    place, and leaves every other column alone;
  - lemmas show that the guard is idempotent, that two guards compose to the smaller cap, and that
    no observed value exceeds the cap afterwards.

The 48-point gate is exactly two periods of 24. The classical decomposition needs that many points,
and the STL trend window it allows always exceeds the period.

## Model

| member | source | states |
|---|---|---|
| `Windows.Odd` | st_app.py:280-281 | The result is odd, at least 3 and at least k, and at most max(3, k) + 1. An odd k >= 3 is returned unchanged; an even k >= 3 becomes k + 1. |
| `Windows.OddIdempotent` | st_app.py:280-281 | Coercing an already coerced width changes nothing. |
| `Windows.OddMonotonic` | st_app.py:280-281 | A larger input never gets a smaller odd width. |
| `Windows.SmootherWindow` | st_app.py:207 | The smoother width lies in [3, 24]. It is 3 below 60 points, n // 20 for 60 <= n < 500, and 24 from 480 points on. |
| `Windows.SeasonalWindow` | st_app.py:282 | The STL seasonal window is odd and lies in [7, 25] for every length. It is 25 from 192 points on. |
| `Windows.TrendWindow` | st_app.py:283 | The STL trend window is odd and lies in [7, 121]. Once the 48-point gate passes it lies in [25, 121] and exceeds the period 24. It is 121 from 240 points on. |
| `Windows.WindowsMonotonic` | st_app.py:282-283 | Both STL windows grow weakly with the series length. |
| `Windows.WindowsBoundedByLength` | st_app.py:282-283 | For every length, the seasonal window is at most max(7, n // 8) + 1 and the trend window at most max(7, n // 2) + 1. From 56 points on the seasonal window is at most n // 8 + 1, and from 16 points on the trend window is at most n // 2 + 1. |
| `Windows.PlanDecomposition` | st_app.py:276-290 | Nothing is decomposed exactly when n < 48; the result is then the "need 48" message. STL gets period 24, robust weighting, an odd seasonal window in [7, 25] and an odd trend window in [25, 121] above the period. The classical method gets period 24. |
| `Windows.MonthOfHours` | st_app.py:276-285 | For 744 hourly points, STL runs with seasonal window 25 and trend window 121. These are within 744 / 8 and 744 / 2. |
| `Windows.FortyPointsRefused` | st_app.py:276-277 | Forty points yield only the insufficient-data outcome, for either method. |
| `Windows.ResidualWindowSlider` | st_app.py:294-295 | The slider runs from 3 to min(168, n). Its initial value lies in that range when n >= 3, and it is 24 whenever the gate passed. |
| `Rolling.PresentCount` | st_app.py:300-302 | A window never holds more observations than cells. |
| `Rolling.CountPositive` | st_app.py:300-302 | The observed count (and so `PresentSum`, the NaN-skipping window sum) is positive exactly when some cell is observed. With no observation the sum is 0. |
| `Rolling.SumNonNegative` | st_app.py:300 | The NaN-skipping sum of non-negative values is non-negative. |
| `Rolling.TotalsFront` | st_app.py:300-302 | The observed sum and count of a window also split off its first cell, which is the cell a sliding window drops. |
| `Rolling.AbsAll` | st_app.py:300 | Absolute values keep the length and the missing cells, and map each observed value to its absolute value. |
| `Rolling.Window` | st_app.py:300-302 | The window at i has at most w cells and ends with cell i. It has exactly w cells once i + 1 >= w; before that it is the whole prefix up to i (a partial window). |
| `Rolling.Reduce` | st_app.py:300-302 | A window's aggregate is defined exactly when the window holds an observation (`min_periods=1`). |
| `Rolling.Rolled` | st_app.py:300-302 | The series the windows run over has the length of the residual. |
| `Rolling.SliceObserved` | st_app.py:300-302 | A slice holds an observation exactly when one of its cells is observed. |
| `Rolling.RolledWindow` | st_app.py:300-302 | The window of the rolled series at i holds an observation exactly when a cell of the trailing window of the residual is observed; for `abs_sum` its sum is never negative. |
| `Rolling.RollingAt` | st_app.py:300-302 | The aggregate at position i is defined exactly when some cell among max(0, i-w+1)..i is observed (`min_periods=1`). For `abs_sum` it is never negative. |
| `Rolling.Slide` | st_app.py:300-302 | Moving the window one step adds the entering cell and removes the cell that left, once the window is full. |
| `Rolling.RollingTotals` | st_app.py:300-302 | The incremental sums and counts have one entry per position. Each equals the observed sum and count over cells max(0, i-w+1)..i. |
| `Rolling.RollingAggregate` | st_app.py:300-302 | The output has the residual's length. At each position it is that window's mean, sum or abs_sum, or missing when the window holds no observation. |
| `Rolling.MovingAverage` | st_app.py:207-210 | The display moving average is the rolling mean whose width is `_win` of the series length. |
| `Rolling.AbsTotals` | st_app.py:300-301 | Summing absolute values keeps the observation count and gives a non-negative total of at least the absolute value of the sum. |
| `Rolling.AbsWindow` | st_app.py:300-301 | Taking absolute values and then cutting the window gives the same as cutting the window first. |
| `Rolling.AbsSumBoundsSum` | st_app.py:300-302 | At every position, abs_sum is defined exactly when sum is, and it is non-negative and at least the absolute value of the sum. |
| `Rolling.AbsSumExample` | st_app.py:300-302 | Over the window [-5, 5, -3], abs_sum is 13 and sum is -3, so abs_sum differs from the absolute value of the sum, 3. |
| `Rolling.SumWithin` | st_app.py:302 | If every observed value lies in [lo, hi], the observed sum lies between lo and hi times the count. |
| `Rolling.RatioBounds` | st_app.py:302 | Dividing such a sum by its positive count gives a value in [lo, hi]. |
| `Rolling.MeanWithin` | st_app.py:302 | The rolling mean lies within the range of the values in its window. |
| `Rolling.WidthOneIsIdentity` | st_app.py:300-302 | With width 1, mean and sum reproduce each observed cell and keep each missing cell missing. |
| `Marks.Observed` | st_app.py:214 | The observed points are exactly the non-missing cells, with their positions and values, in series order. |
| `Marks.MissingCells` | st_app.py:216 | The missing cells are exactly the cells not observed, each with its position, in series order. |
| `Marks.Insert` | st_app.py:216 | Inserting a point into a ranking adds exactly that point. |
| `Marks.InsertRanked` | st_app.py:216 | Inserting a point with a new position into a ranked list keeps it ranked. |
| `Marks.Rank` | st_app.py:216 | The ranking is a permutation of the points. |
| `Marks.RankRanked` | st_app.py:216 | Points with distinct positions come out ranked: larger values first (smaller for lows), and equal values by position. |
| `Marks.Take` | st_app.py:216 | For n > 0, taking n items (`iloc[:n]`, `head(n)`) gives the first min(n, length) items. For n <= 0 it gives nothing, the empty result the guard at line 214 returns. |
| `Marks.TopOfRanking` | st_app.py:216 | The first n ranked points number min(n, count). They come from the input, stay ranked, and outrank every point not taken. By `MarkedTop`, these are the observed cells of each side of `_mark`. |
| `Marks.ObservedMember` | st_app.py:214 | Every observed point is a non-missing cell of the series. |
| `Marks.AppendMissing` | st_app.py:216 | Ranked points followed by missing cells in series order: a cell is observed exactly when it lies in the ranked part, the observed part stays ranked, and the missing part stays in series order. |
| `Marks.OrderedCells` | st_app.py:216 | The taking order holds len(s) cells, each with its own position and value in the series. |
| `Marks.OrderedRanked` | st_app.py:216 | The taking order puts the #observed observed cells first, ranked, then the missing cells in series order. |
| `Marks.TakeKeepsOrder` | st_app.py:216 | Taking the first n cells of such an order keeps that shape, with min(n, #observed) observed cells. |
| `Marks.TakeBeatsRest` | st_app.py:216 | A ranked point left out of the first n cells ranks after every cell taken, and all of those are observed. |
| `Marks.RankBeatsRest` | st_app.py:216 | A point left out of the first n cells of its taking order (ranked points, then missing cells) ranks after every cell taken, and every cell taken is observed. |
| `Marks.MarkExtremes` | st_app.py:213-216 | Highs and lows have the same length. That length is at most len(s), and at most n when n > 0. |
| `Marks.MarkExtremesEmpty` | st_app.py:213-215 | Highs and lows are both empty when n <= 0 or when every cell is missing. |
| `Marks.LeadingMissing` | st_app.py:216 | Past the observed prefix, each side continues with the series' first missing cells, in series order. |
| `Marks.MarkExtremesShape` | st_app.py:216 | With n > 0 and some cell observed, each side holds min(n, len(s)) cells. The first min(n, #observed) are observed and ranked (ties by position), and the rest are missing cells in series order. |
| `Marks.TakeHead` | st_app.py:216 | The first n cells of ranked points followed by missing cells begin with the first n ranked points (`iloc[:n]` of the concatenation). |
| `Marks.MarkedTop` | st_app.py:216 | With n > 0 and some cell observed, the observed prefix of each side is exactly the first n points of the ranking of the observed points, so `TopOfRanking` describes it. |
| `Marks.MarkExtremesRanked` | st_app.py:216 | With n > 0 and some cell observed, each side holds min(n, len(s)) cells. The first min(n, #observed) are observed and ranked: descending for highs, ascending for lows, ties by position. The rest are the leading missing cells of the series, in series order: after the m = min(n, #observed) observed cells, cell j is the (j - m)-th missing cell. |
| `Marks.MarkExtremesObserved` | st_app.py:216 | Every cell of either side is a cell of the series, with its position and its value (observed or missing), and no position appears twice. |
| `Marks.MarkExtremesBeatRest` | st_app.py:216 | If an observed point is not marked, every marked cell is observed and ranks before it, so no missing cell pads the result. |
| `Marks.ZeroMarks` | st_app.py:213-215 | N = 0 gives two empty results for any series. |
| `Marks.SparseMarks` | st_app.py:213-216 | For [5, NaN, NaN, 3] and n = 3, the highs are 5, 3, then the NaN at position 1; the lows are 3, 5, then the same NaN. |
| `Guards.Capped` | st_app.py:143-146 | The column keeps its length. A cell becomes missing exactly when it was missing or above the cap; every other cell is unchanged. |
| `Guards.CapCell` | st_app.py:144 | A cell becomes missing exactly when it was missing or above the cap; otherwise it is kept. |
| `Guards.CappedIdempotent` | st_app.py:143-146 | Applying the same guard twice gives the same column as applying it once. |
| `Guards.CappedTwice` | st_app.py:143-146 | Two guards in a row act like one guard with the smaller cap. |
| `Guards.CappedBounded` | st_app.py:143-146 | After the guard, no observed value exceeds the cap. |
| `Guards.CapColumn` | st_app.py:144 | The column array is overwritten in place with the capped contents of its old contents. |
| `Guards.Frame.constructor` | st_app.py:137 | A frame built from a table of equal-length columns holds exactly that table in separate arrays. |
| `Guards.Frame.ApplyGuards` | st_app.py:143-146 | The speed column (if present) is capped at the speed limit and the volume column (if present) at the volume limit, in place. All other columns are unchanged, and the set of columns is the same. |

## Left out

- The page, sidebar, tabs, widgets, `st.stop` and the caching decorators are UI plumbing. The widget ranges enter only through the parameters of the modelled functions.
- The MongoDB client, `load_data`, CSV upload and export are I/O. The frame constructor takes the loaded table as a parameter.
- `_standardize_columns` (column renaming, `to_numeric`/`to_datetime` coercion, the default `incidents` column, dropping rows without coordinates) is left out: it is library parsing and coercion.
- `winsorize` is left out. It clips to quantiles that are floating-point library statistics.
- Resampling to the hourly or daily grid, and the forward fill of the decomposition input, are library operations. The models take the resampled series as their input.
- The STL fit and `seasonal_decompose` belong to an external statistics library. Only their parameters and the gate are modelled.
- Rolling.RollingAggregate: the `std` choice of the residual aggregate is not modelled. It needs the square root of a floating-point variance; the model covers `mean`, `sum` and `abs_sum`. In the source, `std` is also missing for a window with a single observation (one degree of freedom is subtracted), even with `min_periods=1`.
- Marks.MarkExtremesRanked: when n >= len(s), pandas ranks with its default sort, which is not guaranteed stable. The source therefore does not fix the order of equal values on that path. The model keeps series order there as well, which is what the stable path (n < len(s)) gives.
- Residuals and series values are integers, and the rolling mean is an exact rational. Floating-point rounding is not modelled.
- Medians, pivot tables, correlations, trendlines and every Plotly or pydeck figure, including the three-panel shared-axis layout, are rendering or library statistics.
- Series are indexed by position; the timestamps of the resampled index are not modelled.
