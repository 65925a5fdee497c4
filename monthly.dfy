/** The per-year views of the dashboard: the twelve-month series of a column,
    the year-to-date sum with its comparison against the previous year, the
    default month of the month selector, and the trend line. */
module Monthly {
  import opened Frames
  import opened Grouping

  /** `range(1, 13)`: the months every series is reindexed onto. */
  const Months: seq<int> := [1, 2, 3, 4, 5, 6, 7, 8, 9, 10, 11, 12]

  predicate HasYear(rows: seq<Record>, y: int)
  {
    exists i :: 0 <= i < |rows| && rows[i].year == y
  }

  predicate HasPeriod(rows: seq<Record>, y: int, m: int)
  {
    exists i :: 0 <= i < |rows| && rows[i].year == y && rows[i].month == m
  }

  /** `df[df["연"] == y]`: the rows of one year, in their order. */
  function YearRows(rows: seq<Record>, y: int): (r: seq<Record>)
    ensures |r| <= |rows|
    ensures forall rec :: rec in r <==> rec in rows && rec.year == y
  {
    if rows == [] then []
    else
      var init := YearRows(rows[..|rows| - 1], y);
      var last := rows[|rows| - 1];
      assert rows == rows[..|rows| - 1] + [last];
      if last.year == y then init + [last] else init
  }

  /** The year's rows with the total column ensured on that subset alone. */
  function YearFrame(df: Frame, regions: seq<string>, y: int): (f: Frame)
    ensures TotalCol in f.columns && |f.rows| <= |df.rows|
    ensures forall i :: 0 <= i < |f.rows| ==> f.rows[i].year == y
    ensures |f.rows| > 0 ==> !NeedsTotal(f)
    ensures !HasYear(df.rows, y) ==> f.rows == []
  {
    var sub := Frame(df.columns, YearRows(df.rows, y));
    assert forall i :: 0 <= i < |sub.rows| ==> sub.rows[i].year == y by {
      forall i | 0 <= i < |sub.rows| ensures sub.rows[i].year == y {
        assert sub.rows[i] in sub.rows;
      }
    }
    assert |sub.rows| > 0 ==> !NeedsTotal(EnsureTotal(sub, regions)) by {
      if |sub.rows| > 0 { EnsureTotalHeals(sub, regions); }
    }
    assert !HasYear(df.rows, y) ==> sub.rows == [] by {
      if !HasYear(df.rows, y) { NoYearNoRows(df.rows, y); }
    }
    EnsureTotal(sub, regions)
  }

  // ---------------------------------------------------------------------
  // Monthly series

  /** Reference: the sum of column `col` over the rows of month `m`, missing as 0. */
  function MonthTotal(rows: seq<Record>, col: string, m: int): int
  {
    if rows == [] then 0
    else
      var last := rows[|rows| - 1];
      MonthTotal(rows[..|rows| - 1], col, m) + (if last.month == m then OrZero(Cell(last, col)) else 0)
  }

  /** Reference: the sum of column `col` over the rows of year `y` and month `m`. */
  function PeriodTotal(rows: seq<Record>, col: string, y: int, m: int): int
  {
    if rows == [] then 0
    else
      var last := rows[|rows| - 1];
      PeriodTotal(rows[..|rows| - 1], col, y, m)
        + (if last.year == y && last.month == m then OrZero(Cell(last, col)) else 0)
  }

  /** Reference: the sum of the region sums over the rows of year `y` and month `m`. */
  function PeriodRegionTotal(rows: seq<Record>, regions: seq<string>, y: int, m: int): int
  {
    if rows == [] then 0
    else
      var last := rows[|rows| - 1];
      PeriodRegionTotal(rows[..|rows| - 1], regions, y, m)
        + (if last.year == y && last.month == m then RowSum(last, regions) else 0)
  }

  /** The (month, cell) pairs that `groupby("월")[col]` works on. */
  function MonthKeyed(rows: seq<Record>, col: string): (es: seq<(int, Option<int>)>)
    ensures |es| == |rows|
  {
    seq(|rows|, i requires 0 <= i < |rows| => (rows[i].month, Cell(rows[i], col)))
  }

  lemma {:induction false} MonthKeyedSum(rows: seq<Record>, col: string, m: int)
    ensures KeySum(MonthKeyed(rows, col), m) == MonthTotal(rows, col, m)
  {
    if rows != [] {
      var init := rows[..|rows| - 1];
      assert MonthKeyed(rows, col)[..|rows| - 1] == MonthKeyed(init, col);
      MonthKeyedSum(init, col, m);
    }
  }

  /** `groupby("월")[col].sum().reindex(range(1, 13), fill_value=0)`: twelve
      entries, entry m-1 the sum of the column over the rows of month m;
      rows of any other month are dropped and empty months read 0. */
  function MonthlySeries(rows: seq<Record>, col: string): (s: seq<int>)
    ensures |s| == 12
    ensures forall i :: 0 <= i < 12 ==> s[i] == MonthTotal(rows, col, i + 1)
  {
    forall m ensures KeySum(MonthKeyed(rows, col), m) == MonthTotal(rows, col, m) {
      MonthKeyedSum(rows, col, m);
    }
    GroupReindex(MonthKeyed(rows, col), Months)
  }

  /** The series of monthly totals of year `y` (the sidebar's and the trend's). */
  function MonthlyTotals(df: Frame, regions: seq<string>, y: int): (s: seq<int>)
    ensures |s| == 12
    ensures forall i :: 0 <= i < 12 ==> s[i] == MonthTotal(YearFrame(df, regions, y).rows, TotalCol, i + 1)
    ensures !HasYear(df.rows, y) ==> forall i :: 0 <= i < 12 ==> s[i] == 0
  {
    MonthlySeries(YearFrame(df, regions, y).rows, TotalCol)
  }

  lemma {:induction false} MonthTotalOfYearRows(rows: seq<Record>, col: string, y: int, m: int)
    ensures MonthTotal(YearRows(rows, y), col, m) == PeriodTotal(rows, col, y, m)
  {
    if rows != [] {
      var init := rows[..|rows| - 1];
      var last := rows[|rows| - 1];
      MonthTotalOfYearRows(init, col, y, m);
      if last.year == y {
        assert (YearRows(init, y) + [last])[..|YearRows(init, y)|] == YearRows(init, y);
      }
    }
  }

  lemma {:induction false} HealedMonthTotal(rows: seq<Record>, healed: seq<Record>, regions: seq<string>, y: int, m: int)
    requires |healed| == |rows|
    requires forall i :: 0 <= i < |rows| ==> SameButTotal(rows[i], healed[i], Some(RowSum(rows[i], regions)))
    ensures MonthTotal(YearRows(healed, y), TotalCol, m) == PeriodRegionTotal(rows, regions, y, m)
  {
    if rows != [] {
      var n := |rows| - 1;
      HealedMonthTotal(rows[..n], healed[..n], regions, y, m);
      assert healed[..n + 1] == healed;
      if healed[n].year == y {
        assert (YearRows(healed[..n], y) + [healed[n]])[..|YearRows(healed[..n], y)|] == YearRows(healed[..n], y);
      }
    }
  }

  /** A column other than the total keeps its monthly sums through the total step. */
  lemma {:induction false} UnhealedColumn(rows: seq<Record>, healed: seq<Record>, c: string, total: seq<Option<int>>, m: int)
    requires c != TotalCol
    requires |healed| == |rows| == |total|
    requires forall i :: 0 <= i < |rows| ==> SameButTotal(rows[i], healed[i], total[i])
    ensures MonthTotal(healed, c, m) == MonthTotal(rows, c, m)
  {
    if rows != [] {
      var n := |rows| - 1;
      UnhealedColumn(rows[..n], healed[..n], c, total[..n], m);
    }
  }

  /** Entry m of the year's series is the sum of the year's recorded totals of
      month m, or, when the year's total column is unusable, the sum of the
      region sums of those rows. */
  lemma MonthlyTotalsFromData(df: Frame, regions: seq<string>, y: int, m: int)
    requires 1 <= m <= 12
    ensures var sub := Frame(df.columns, YearRows(df.rows, y));
      MonthlyTotals(df, regions, y)[m - 1] ==
        if NeedsTotal(sub) then PeriodRegionTotal(df.rows, regions, y, m)
        else PeriodTotal(df.rows, TotalCol, y, m)
  {
    var sub := Frame(df.columns, YearRows(df.rows, y));
    if NeedsTotal(sub) {
      HealedYearTotals(df.rows, df.columns, regions, y, m);
    } else {
      MonthTotalOfYearRows(df.rows, TotalCol, y, m);
    }
  }

  /** When the year's total column is unusable, the healed totals of month m
      add up to the region sums of the year's rows of that month. */
  lemma HealedYearTotals(rows: seq<Record>, cols: seq<string>, regions: seq<string>, y: int, m: int)
    requires NeedsTotal(Frame(cols, YearRows(rows, y)))
    ensures MonthTotal(EnsureTotal(Frame(cols, YearRows(rows, y)), regions).rows, TotalCol, m)
      == PeriodRegionTotal(rows, regions, y, m)
  {
    var yr := YearRows(rows, y);
    var healed := EnsureTotal(Frame(cols, yr), regions).rows;
    HealedMonthTotal(yr, healed, regions, y, m);
    YearRowsOfYear(healed, y);
    PeriodRegionOfYearRows(rows, regions, y, m);
  }

  lemma {:induction false} NoYearNoRows(rows: seq<Record>, y: int)
    requires !HasYear(rows, y)
    ensures YearRows(rows, y) == []
  {
    if rows != [] {
      NoYearNoRows(rows[..|rows| - 1], y);
      assert rows[|rows| - 1].year != y;
    }
  }

  lemma {:induction false} YearRowsOfYear(rows: seq<Record>, y: int)
    requires forall i :: 0 <= i < |rows| ==> rows[i].year == y
    ensures YearRows(rows, y) == rows
  {
    if rows != [] {
      YearRowsOfYear(rows[..|rows| - 1], y);
      assert rows[..|rows| - 1] + [rows[|rows| - 1]] == rows;
    }
  }

  lemma {:induction false} PeriodRegionOfYearRows(rows: seq<Record>, regions: seq<string>, y: int, m: int)
    ensures PeriodRegionTotal(YearRows(rows, y), regions, y, m) == PeriodRegionTotal(rows, regions, y, m)
  {
    if rows != [] {
      var init := rows[..|rows| - 1];
      var last := rows[|rows| - 1];
      PeriodRegionOfYearRows(init, regions, y, m);
      if last.year == y {
        assert (YearRows(init, y) + [last])[..|YearRows(init, y)|] == YearRows(init, y);
      }
    }
  }

  /** A row whose month is outside 1..12 leaves the series unchanged. */
  lemma OutOfRangeMonthDropped(rows: seq<Record>, col: string, rec: Record)
    requires rec.month < 1 || 12 < rec.month
    ensures MonthlySeries(rows + [rec], col) == MonthlySeries(rows, col)
  {
    var s, t := MonthlySeries(rows + [rec], col), MonthlySeries(rows, col);
    forall i | 0 <= i < 12 ensures s[i] == t[i] {
      assert (rows + [rec])[..|rows|] == rows;
    }
  }

  /** A row whose measured cell is missing leaves the series unchanged. */
  lemma MissingCellContributesZero(rows: seq<Record>, col: string, rec: Record)
    requires Cell(rec, col).None?
    ensures MonthlySeries(rows + [rec], col) == MonthlySeries(rows, col)
  {
    var s, t := MonthlySeries(rows + [rec], col), MonthlySeries(rows, col);
    forall i | 0 <= i < 12 ensures s[i] == t[i] {
      assert (rows + [rec])[..|rows|] == rows;
    }
  }

  /** A month without rows reads 0 in the series. */
  lemma {:induction false} AbsentMonthIsZero(rows: seq<Record>, col: string, m: int)
    requires forall i :: 0 <= i < |rows| ==> rows[i].month != m
    ensures MonthTotal(rows, col, m) == 0
  {
    if rows != [] {
      AbsentMonthIsZero(rows[..|rows| - 1], col, m);
    }
  }

  /** A (year, month) pair without rows sums to 0. */
  lemma {:induction false} AbsentPeriodIsZero(rows: seq<Record>, col: string, y: int, m: int)
    requires !HasPeriod(rows, y, m)
    ensures PeriodTotal(rows, col, y, m) == 0
  {
    if rows != [] {
      AbsentPeriodIsZero(rows[..|rows| - 1], col, y, m);
    }
  }

  // ---------------------------------------------------------------------
  // Year to date

  /** `series.loc[1:m].sum()`: the inclusive sum of months 1..m. */
  function Ytd(series: seq<int>, m: int): (r: int)
    requires |series| == 12 && 1 <= m <= 12
    ensures m == 1 ==> r == series[0]
    ensures m == 12 ==> r == Sum(series)
  {
    assert m == 1 ==> Sum(series[..m]) == series[0] by {
      if m == 1 {
        assert series[..1][..0] == [];
      }
    }
    assert series[..12] == series;
    Sum(series[..m])
  }

  lemma YtdStep(series: seq<int>, m: int)
    requires |series| == 12 && 1 <= m < 12
    ensures Ytd(series, m + 1) == Ytd(series, m) + series[m]
  {
    assert series[..m + 1][..m] == series[..m];
  }

  /** With no negative month the year-to-date sum never falls as the cutoff advances. */
  lemma {:induction false} YtdMonotone(series: seq<int>, m1: int, m2: int)
    requires |series| == 12 && 1 <= m1 <= m2 <= 12
    requires forall i :: 0 <= i < 12 ==> series[i] >= 0
    ensures Ytd(series, m1) <= Ytd(series, m2)
  {
    if m1 < m2 {
      YtdMonotone(series, m1, m2 - 1);
      YtdStep(series, m2 - 1);
    }
  }

  lemma {:induction false} SumOfZeros(s: seq<int>)
    requires forall i :: 0 <= i < |s| ==> s[i] == 0
    ensures Sum(s) == 0
  {
    if s != [] {
      SumOfZeros(s[..|s| - 1]);
    }
  }

  /** Totals 10 in March and 20 in July give [0,0,10,0,0,0,20,0,0,0,0,0],
      a year-to-date sum of 30 through July and of 0 through February. */
  lemma ZeroFillExample()
    ensures var rows := [Record(202403, 2024, 3, map[TotalCol := Some(10)]),
                         Record(202407, 2024, 7, map[TotalCol := Some(20)])];
      var s := MonthlySeries(rows, TotalCol);
      s == [0, 0, 10, 0, 0, 0, 20, 0, 0, 0, 0, 0] && Ytd(s, 7) == 30 && Ytd(s, 2) == 0
  {
    var rows := [Record(202403, 2024, 3, map[TotalCol := Some(10)]),
                 Record(202407, 2024, 7, map[TotalCol := Some(20)])];
    var s := MonthlySeries(rows, TotalCol);
    assert rows[..1] == [rows[0]];
    assert [rows[0]][..0] == [];
    assert Cell(rows[0], TotalCol) == Some(10) && Cell(rows[1], TotalCol) == Some(20);
    forall m ensures MonthTotal(rows, TotalCol, m) == (if m == 3 then 10 else 0) + (if m == 7 then 20 else 0) {
      assert MonthTotal(rows[..1], TotalCol, m) == if m == 3 then 10 else 0;
    }
    assert s == [0, 0, 10, 0, 0, 0, 20, 0, 0, 0, 0, 0];
    assert Ytd(s, 1) == 0 by {
      assert s[..1][..0] == [];
      assert Sum(s[..1]) == Sum(s[..1][..0]) + s[0];
    }
    YtdStep(s, 1);
    YtdStep(s, 2);
    YtdStep(s, 3);
    YtdStep(s, 4);
    YtdStep(s, 5);
    YtdStep(s, 6);
  }

  /** The sidebar's year-to-date figure: the current sum and, only when the
      previous year occurs in the data, that year's sum over the same months
      and the signed difference. */
  datatype YtdReport = YtdReport(ytd: int, prev: Option<int>, delta: Option<int>)

  function YtdCompare(df: Frame, regions: seq<string>, y: int, m: int): (r: YtdReport)
    requires 1 <= m <= 12
    ensures r.prev.Some? <==> HasYear(df.rows, y - 1)
    ensures r.delta.Some? <==> HasYear(df.rows, y - 1)
    ensures r.delta.Some? ==> r.delta.value == r.ytd - r.prev.value
    ensures r.ytd == Ytd(MonthlyTotals(df, regions, y), m)
    ensures r.prev.Some? ==> r.prev.value == Ytd(MonthlyTotals(df, regions, y - 1), m)
  {
    var ytd := Ytd(MonthlyTotals(df, regions, y), m);
    if HasYear(df.rows, y - 1) then
      var prev := Ytd(MonthlyTotals(df, regions, y - 1), m);
      YtdReport(ytd, Some(prev), Some(ytd - prev))
    else
      YtdReport(ytd, None, None)
  }

  /** A year without rows has a zero series, hence a zero year-to-date sum. */
  lemma YtdOfEmptyYear(df: Frame, regions: seq<string>, y: int, m: int)
    requires 1 <= m <= 12
    requires !HasYear(df.rows, y)
    ensures YtdCompare(df, regions, y, m).ytd == 0
  {
    NoYearNoRows(df.rows, y);
    var s := MonthlyTotals(df, regions, y);
    SumOfZeros(s[..m]);
  }

  // ---------------------------------------------------------------------
  // Default month and trend

  /** The latest month among the rows of year `y`, if any. */
  function LatestMonth(rows: seq<Record>, y: int): (r: Option<int>)
    ensures r.None? <==> !HasYear(rows, y)
    ensures r.Some? ==> HasPeriod(rows, y, r.value)
    ensures r.Some? ==> forall i :: 0 <= i < |rows| && rows[i].year == y ==> rows[i].month <= r.value
  {
    if rows == [] then None
    else
      var init := rows[..|rows| - 1];
      var last := rows[|rows| - 1];
      var best := LatestMonth(init, y);
      assert forall i :: 0 <= i < |init| ==> rows[i] == init[i];
      if last.year != y then best
      else if best.None? || best.value < last.month then Some(last.month)
      else best
  }

  /** The month selected at first: the latest month the year has rows for, or 12. */
  function DefaultMonth(df: Frame, y: int): (m: int)
    ensures !HasYear(df.rows, y) ==> m == 12
    ensures HasYear(df.rows, y) ==> HasPeriod(df.rows, y, m)
    ensures forall i :: 0 <= i < |df.rows| && df.rows[i].year == y ==> df.rows[i].month <= m
  {
    match LatestMonth(df.rows, y)
    case Some(latest) => latest
    case None => 12
  }

  datatype TrendPoint = TrendPoint(ym: int, month: int, total: int)

  /** The trend line of year `y`: twelve points keyed `y*100 + month`. */
  function Trend(df: Frame, regions: seq<string>, y: int): (t: seq<TrendPoint>)
    ensures |t| == 12
    ensures forall i :: 0 <= i < 12 ==>
      && t[i].month == i + 1
      && YearOf(t[i].ym) == y && MonthOf(t[i].ym) == i + 1
      && t[i].total == MonthTotal(YearFrame(df, regions, y).rows, TotalCol, i + 1)
  {
    var series := MonthlyTotals(df, regions, y);
    forall m | 1 <= m <= 12 ensures YearOf(MakeKey(y, m)) == y && MonthOf(MakeKey(y, m)) == m {
      KeyRoundTrip(y, m);
    }
    seq(12, i requires 0 <= i < 12 => TrendPoint(MakeKey(y, i + 1), i + 1, series[i]))
  }
}
