# Livestock-disease dashboard: aggregation model

`streamlit_app.py` is a dashboard of livestock-disease outbreak counts. It
reads one table with one row per year-month key (`연월`, for example 202403)
and one numeric column per region. The table may also hold a total column
(`소계`). From that table the dashboard derives:

- the year (`연`) and month (`월`) of every row;
- the region column set;
- a usable total column, derived from the region columns when the recorded
  one is absent or entirely empty;
- the twelve-month series of a year, zero-filled, and its year-to-date sum;
- the comparison with the previous year, shown only when that year is in the data;
- the default month of the month selector;
- the selected period's record, or an all-zero stand-in when the period has
  no data;
- the region sums of that period, with the regions with the most and the
  fewest cases and the top-five ranking;
- the trend line of the year;
- the region-by-month heatmap of the year.

This project models each of those steps as a Dafny function over an in-memory
table and proves what the dashboard relies on. The main results are:

- a key splits and rebuilds consistently;
- the total step is exact and idempotent;
- every series has twelve entries, each the sum of its month's rows, with
  zero fill;
- the year-to-date sum is an inclusive prefix sum and is monotone;
- the delta is present exactly when the previous year is;
- the default month is the latest month present, or 12;
- the stand-in record is all zero;
- the most and fewest are the first maximum and first minimum;
- the ranking is sorted, is a prefix of a permutation of the sums, and dominates what it leaves out;
- each heatmap cell is the sum of its region over its year and month.

Modules, one file each:

- `Frames` (`frames.dfy`): the table and its records. It covers loading (the
  key split), the region columns and the total step (`ensure_total_col`).
  A record holds its key, year, month and a map from column name to an
  `Option<int>` cell. `None` stands for a missing or unparseable value, which
  every sum counts as 0.
- `Grouping` (`grouping.dfy`): `groupby(...).sum()` and
  `reindex(..., fill_value=0)` over (key, value) pairs. Both are proved equal
  to a reference per-key sum `KeySum`.
- `Monthly` (`monthly.dfy`):
  - the rows of a year, with the total step applied to that subset;
  - the twelve-month series;
  - the year-to-date sum and the previous-year comparison;
  - the default month and the trend line.
- `Regions` (`regions.dfy`): the selected period and its zero stand-in, the
  case count, the region sums, first maximum and first minimum, and the
  top-five ranking.
- `Heatmap` (`heatmap.dfy`): the melt, the group sum over (month, region)
  and the reindex over months 1..12 × selected regions.

Python's `//` and `%` by 100 floor toward negative infinity. Dafny's `/` and
`%` are Euclidean. For the positive divisor 100 the two agree on every key,
so `YearOf` and `MonthOf` model the source exactly.

## Model

| member | source | states |
|---|---|---|
| Frames.KeyRoundTrip | streamlit_app.py:36-37 | For a month in 1..12, the key `year*100+month` built for the stand-in row and the trend splits back into that year and month at load time |
| Frames.SplitRoundTrip | streamlit_app.py:36-37 | Splitting any key and rebuilding it gives the key back; the month part is always in 0..99 |
| Frames.LoadRecord | streamlit_app.py:36-37 | A loaded record keeps its key and cells; its year and month rebuild the key, and its month is in 0..99 |
| Frames.Load | streamlit_app.py:31-38 | Loading adds the year and month columns and keeps every input column and every row, in order; each row's year and month rebuild its key |
| Frames.AddColumn | streamlit_app.py:36-37 | Assigning a column adds its name and keeps the other names |
| Frames.RegionColumns | streamlit_app.py:43 | A column is a region exactly when the table has it and it is none of the key, year, month and total columns; the regions keep the table's column order, which is the default selection order |
| Frames.RowSumNoValue | streamlit_app.py:49 | A row with no region value has row sum 0, not a missing total |
| Frames.NeedsTotal | streamlit_app.py:47 | An empty frame needs the total step; a frame whose total column has even one recorded value does not |
| Frames.WithRowTotal | streamlit_app.py:49 | The row's total becomes the sum of its region cells, missing as 0; every other cell, the key, year and month are kept |
| Frames.EnsureTotal | streamlit_app.py:45-50 | If the total column is absent or all missing, it is added and every row's total is its region sum, all else unchanged; otherwise the frame is returned unchanged, individually missing totals included |
| Frames.EnsureTotalHeals | streamlit_app.py:47-49 | After the step a frame with rows has a usable total column |
| Frames.EnsureTotalIdempotent | streamlit_app.py:45-50 | Applying the total step twice is the same as applying it once |
| Frames.Prepare | streamlit_app.py:40-52 | The prepared table has a total column, usable whenever there are rows. Its regions are exactly the input's non-reserved columns. Row i keeps input row i's key and non-total cells, and its year and month rebuild the key. Its total is the row's region sum when the loaded table needed the total step, and the recorded total otherwise |
| Grouping.GroupSum | streamlit_app.py:101 | The grouped sum has exactly the keys that occur, each mapped to the reference sum of its values, missing as 0 |
| Grouping.KeySumAbsent | streamlit_app.py:102 | A key that never occurs sums to 0, so zero fill agrees with the reference sum |
| Grouping.GroupLookup | streamlit_app.py:101-102 | Grouping and then reading a label with zero fill gives the reference sum at every label |
| Grouping.GroupReindex | streamlit_app.py:100-103 | Reindexing a grouped sum onto labels gives one entry per label, each the reference sum of that label |
| Grouping.KeySumAppend | streamlit_app.py:224-226 | The per-key sum of two concatenated entry lists is the sum of their per-key sums |
| Monthly.YearRows | streamlit_app.py:98 | The year's subset holds exactly the input rows of that year |
| Monthly.YearFrame | streamlit_app.py:98 | The year's subset after the total step: every row is of that year, the total column is usable whenever there are rows, and an absent year gives no rows |
| Monthly.MonthKeyedSum | streamlit_app.py:101 | Grouping the rows' (month, cell) pairs by month sums the column over the rows of that month |
| Monthly.MonthlySeries | streamlit_app.py:100-103 | The series has 12 entries; entry m-1 is the column's sum over the rows of month m, missing as 0 |
| Monthly.MonthlyTotals | streamlit_app.py:100-103 | A year's series of totals has 12 entries, entry m-1 summing the healed totals of month m; a year absent from the data gives all zeros |
| Monthly.MonthTotalOfYearRows | streamlit_app.py:98-101 | Summing a month over the year's subset is summing that year and month over the whole table |
| Monthly.HealedMonthTotal | streamlit_app.py:98-101 | Over rows whose totals were derived, a month's total is the sum of the region sums of that year and month |
| Monthly.HealedYearTotals | streamlit_app.py:98-101 | When the year's total column is unusable, the healed month totals equal the region sums of that year and month in the input |
| Monthly.UnhealedColumn | streamlit_app.py:220 | The total step leaves every other column's monthly sums unchanged |
| Monthly.MonthlyTotalsFromData | streamlit_app.py:98-103 | Entry m of a year's series is the sum of that year's recorded totals for month m; if the year's total column is unusable, it is the sum of the region sums instead |
| Monthly.NoYearNoRows | streamlit_app.py:98 | A year absent from the data selects no rows |
| Monthly.YearRowsOfYear | streamlit_app.py:98 | Selecting a year from rows all of that year keeps them all |
| Monthly.PeriodRegionOfYearRows | streamlit_app.py:98 | Restricting to the year first does not change a (year, month) region sum |
| Monthly.OutOfRangeMonthDropped | streamlit_app.py:102 | A row whose month is outside 1..12 does not change the series |
| Monthly.MissingCellContributesZero | streamlit_app.py:101 | A row with a missing cell does not change the series |
| Monthly.AbsentMonthIsZero | streamlit_app.py:102 | A month without rows sums to 0 |
| Monthly.AbsentPeriodIsZero | streamlit_app.py:102 | A (year, month) without rows sums to 0 |
| Monthly.Ytd | streamlit_app.py:104 | The cutoff is inclusive at both ends: through January it is January's entry, through December it is the whole year's sum |
| Monthly.YtdStep | streamlit_app.py:104 | Advancing the cutoff by a month adds exactly that month's entry |
| Monthly.YtdMonotone | streamlit_app.py:104 | With no negative entry, the year-to-date sum never falls as the cutoff month rises |
| Monthly.SumOfZeros | streamlit_app.py:102 | An all-zero series sums to 0 |
| Monthly.ZeroFillExample | streamlit_app.py:100-104 | Totals 10 in March and 20 in July give `[0,0,10,0,0,0,20,0,0,0,0,0]`; the year to date is 30 through July and 0 through February |
| Monthly.YtdCompare | streamlit_app.py:104-116 | The year to date is the inclusive sum of months 1..m. The previous year's sum and the delta are present exactly when the previous year is in the data; the delta is then the current sum minus the previous one |
| Monthly.YtdOfEmptyYear | streamlit_app.py:98-104 | A year without rows has year to date 0 |
| Monthly.LatestMonth | streamlit_app.py:87-88 | None exactly when the year has no rows; otherwise a month the year has rows for, and no row of the year has a later month |
| Monthly.DefaultMonth | streamlit_app.py:87-88 | 12 when the year has no rows; otherwise the largest month among the year's rows |
| Monthly.Trend | streamlit_app.py:166-173 | Twelve points for months 1..12 in order. Each key is `year*100+month` and splits back into that year and month; each total is the month's sum over the year's rows after the total step |
| Regions.PeriodRows | streamlit_app.py:130 | The period's rows are the input rows of that year and month, each kept as many times as it occurs in the input; empty exactly when the period has no data |
| Regions.ZeroRecord | streamlit_app.py:133-135 | The stand-in record has the period's year, month and key `year*100+month`; every region cell and the total are 0, and no cell counts as anything but 0 |
| Regions.SelectedRows | streamlit_app.py:129-137 | Never empty and all of the chosen period. It is exactly the zero record when the period has no data. Otherwise it is the period's input rows, each kept as many times as it occurs in the input |
| Regions.ColumnTotalAllMissing | streamlit_app.py:150 | A column with no value in any row sums to 0 |
| Regions.ColumnTotalOfPeriod | streamlit_app.py:150 | Over rows all of one year and month, a column's sum is its sum for that year and month |
| Regions.TotalCases | streamlit_app.py:150 | The cases shown are the sum of the totals of the input rows of the chosen year and month, duplicates included; 0 when the period has no data |
| Regions.SelectedColumnTotal | streamlit_app.py:129-150 | Every column of the selected rows sums to that column's sum over the input rows of the year and month, with or without data |
| Regions.EmptyPeriodIsZero | streamlit_app.py:150 | A period without data shows 0 in every column, the total included |
| Regions.PeriodCases | streamlit_app.py:150 | Any column summed over the period's rows equals its sum over the input rows of that year and month, duplicates included |
| Regions.RegionSums | streamlit_app.py:156 | One entry per selected region, in selection order, holding that region's sum over the period's rows, missing as 0 |
| Regions.RegionSumsFromData | streamlit_app.py:156 | Each region sum shown is that region's sum over the input rows of the year and month, duplicates included; 0 when the period has no data |
| Regions.ArgMax | streamlit_app.py:157 | The index of the largest sum, the first one on a tie |
| Regions.ArgMin | streamlit_app.py:158 | The index of the smallest sum, the first one on a tie |
| Regions.FirstMaxUnique | streamlit_app.py:157 | Only one index is the first maximum, so the region shown as most affected is determined |
| Regions.Insert | streamlit_app.py:260 | Inserting into the ranking adds exactly one entry |
| Regions.SortDesc | streamlit_app.py:260 | The descending sort keeps the number of entries |
| Regions.InsertPermutes | streamlit_app.py:260 | Inserting adds exactly the inserted entry to the multiset of entries |
| Regions.InsertSorted | streamlit_app.py:260 | Inserting into a nonincreasing ranking keeps it nonincreasing |
| Regions.ConsNonIncreasing | streamlit_app.py:260 | An entry at least as large as every entry of a nonincreasing ranking can lead it |
| Regions.SortDescSorted | streamlit_app.py:260 | The descending sort is nonincreasing in count |
| Regions.SortDescPermutes | streamlit_app.py:260 | The descending sort is a permutation of its input |
| Regions.SortDescCorrect | streamlit_app.py:260 | The sorted entries are nonincreasing in count and a permutation of the input |
| Regions.TopN | streamlit_app.py:260 | `head(n)` has min(n, number of entries) entries |
| Regions.TopNPartition | streamlit_app.py:260 | The ranking is nonincreasing; ranking and leftover together are the input, as a multiset |
| Regions.FromInput | streamlit_app.py:253-260 | Every ranked or left-out entry is an input entry |
| Regions.TopNDominates | streamlit_app.py:260 | No left-out entry has more cases than any ranked one |
| Regions.RegionReport | streamlit_app.py:153-160 | No statistics for an empty selection. Otherwise: the per-region sums; the most and fewest regions at the first maximum and first minimum; the top five of the descending sort, with min(5, selection size) entries |
| Regions.TopEntriesAreSums | streamlit_app.py:253-260 | Every ranked entry is a selected region paired with its own sum |
| Regions.TieBreakExample | streamlit_app.py:260 | Sums A 5, B 5, C 3 rank A before B, and A is the region with the most cases |
| Heatmap.MeltColumn | streamlit_app.py:224-225 | One melted entry per row for a region column |
| Heatmap.Melt | streamlit_app.py:224-225 | The melt has one entry per row and selected region |
| Heatmap.MeltColumnSum | streamlit_app.py:224-226 | Summing a region column's melted entries for (month, region) gives that region's month sum, and 0 for any other region |
| Heatmap.MeltSum | streamlit_app.py:224-226 | For a selection without repeats, summing the melt at (month, region) gives the region's month sum if it is selected and 0 otherwise |
| Heatmap.HeatmapMatrix | streamlit_app.py:219-230 | No heatmap for an empty selection; otherwise exactly one row per selected region, each with 12 monthly values |
| Heatmap.HeatmapCell | streamlit_app.py:222-227 | Cell (region, month) is the region's sum over all the year's rows of that month; duplicate rows add up |
| Heatmap.HeatmapFromData | streamlit_app.py:219-227 | A region cell is that region's sum over the input rows of the year and month, whatever the total step did |
| Heatmap.HeatmapAbsentMonth | streamlit_app.py:227 | A month the year has no rows for reads 0 for every selected region |

## Left out

- CSV reading with the cp949 encoding and numeric coercion with `pd.to_numeric(errors="coerce")` (lines 32-35) are not modelled. Cells arrive already parsed as `Option<int>`, where `None` is a value that did not parse or was missing. The key column is taken to be an integer.
- The `@st.cache_data` cache and the module-level dataset (lines 30 and 40) are not modelled. The table is passed explicitly.
- Widgets, layout, CSS, metric text formatting and notices (lines 10-25, 79-126, 142-280) are user interface. The `PALETTES` table and every Plotly figure (lines 57-74, 175-185, 205-214, 232-240, 262-269) are rendering only.
- The ascending sort of the bar chart (line 206) orders the display only and is not modelled.
- Counts are unbounded integers. The float results of pandas and the `int()` casts (lines 104, 150) are not modelled.
- `ensure_total_col` copies the frame and then assigns the total column (lines 48-49). It writes only to a fresh frame, so it is modelled as a function returning the new frame.
- Regions.TopN: pandas' `sort_values` does not promise a stable order. The model fixes a stable descending order, so equal counts keep selection order. This tie order is a choice of the model, not behaviour proved of the source.
- Heatmap.HeatmapMatrix: the heatmap is a map from region to its 12 monthly values. pandas' pivot orders the rows by region label, which is presentation only. The cell lemmas assume a selection without repeats, which the region multiselect guarantees.
- Monthly.DefaultMonth: returns the latest month as it is, even when the data holds a month outside 1..12. The month selector would then reject its index.
