/** The region-by-month heatmap of one year: the year's rows melted into
    (month, region, value) entries, summed per (month, region) and reindexed
    over every month 1..12 and every selected region with zero fill. */
module Heatmap {
  import opened Frames
  import opened Grouping
  import opened Monthly

  type Melted = seq<((int, string), Option<int>)>

  /** The melted entries of one region column: one per row, keyed by (month, region). */
  function MeltColumn(rows: seq<Record>, c: string): (es: Melted)
    ensures |es| == |rows|
  {
    seq(|rows|, i requires 0 <= i < |rows| => ((rows[i].month, c), Cell(rows[i], c)))
  }

  /** `melt(id_vars=["연", "월"], value_vars=sel)`: the columns one after another. */
  function Melt(rows: seq<Record>, sel: seq<string>): (es: Melted)
    ensures |es| == |rows| * |sel|
  {
    if sel == [] then []
    else Melt(rows, sel[..|sel| - 1]) + MeltColumn(rows, sel[|sel| - 1])
  }

  predicate Distinct(sel: seq<string>)
  {
    forall i, j :: 0 <= i < j < |sel| ==> sel[i] != sel[j]
  }

  lemma {:induction false} MeltColumnSum(rows: seq<Record>, c: string, m: int, d: string)
    ensures KeySum(MeltColumn(rows, c), (m, d)) == if c == d then MonthTotal(rows, c, m) else 0
  {
    if rows != [] {
      var n := |rows| - 1;
      assert MeltColumn(rows, c)[..n] == MeltColumn(rows[..n], c);
      MeltColumnSum(rows[..n], c, m, d);
    }
  }

  /** Summing the melted entries of a (month, region) pair gives the region's
      monthly sum when the region is selected once, and 0 when it is not selected. */
  lemma {:induction false} MeltSum(rows: seq<Record>, sel: seq<string>, m: int, c: string)
    requires Distinct(sel)
    ensures KeySum(Melt(rows, sel), (m, c)) == if c in sel then MonthTotal(rows, c, m) else 0
  {
    if sel != [] {
      var init := sel[..|sel| - 1];
      var last := sel[|sel| - 1];
      assert sel == init + [last];
      assert Distinct(init);
      MeltSum(rows, init, m, c);
      KeySumAppend(Melt(rows, init), MeltColumn(rows, last), (m, c));
      MeltColumnSum(rows, last, m, c);
      if c == last {
        assert c !in init;
      }
    }
  }

  /** The heatmap as region -> twelve monthly values; None when no region is selected. */
  function HeatmapMatrix(df: Frame, regions: seq<string>, y: int, sel: seq<string>): (h: Option<map<string, seq<int>>>)
    ensures h.None? <==> sel == []
    ensures h.Some? ==> forall c :: c in h.value <==> c in sel
    ensures h.Some? ==> forall c :: c in h.value ==> |h.value[c]| == 12
  {
    if sel == [] then None
    else
      var g := GroupSum(Melt(YearFrame(df, regions, y).rows, sel));
      Some(map c | c in sel :: seq(12, i requires 0 <= i < 12 => Lookup0(g, (Months[i], c))))
  }

  /** Cell (c, m) is the sum of region c over the year's rows of month m;
      several rows of one month add up. */
  lemma HeatmapCell(df: Frame, regions: seq<string>, y: int, sel: seq<string>, c: string, m: int)
    requires Distinct(sel) && c in sel && 1 <= m <= 12
    ensures var h := HeatmapMatrix(df, regions, y, sel);
      h.Some? && h.value[c][m - 1] == MonthTotal(YearFrame(df, regions, y).rows, c, m)
  {
    var rows := YearFrame(df, regions, y).rows;
    var es := Melt(rows, sel);
    assert Months[m - 1] == m;
    GroupLookup(es, (m, c));
    MeltSum(rows, sel, m, c);
  }

  /** For a region column, the cell is the sum of that column over the input
      rows of the year and month, whatever the total step did. */
  lemma HeatmapFromData(df: Frame, regions: seq<string>, y: int, sel: seq<string>, c: string, m: int)
    requires Distinct(sel) && c in sel && c != TotalCol && 1 <= m <= 12
    ensures var h := HeatmapMatrix(df, regions, y, sel);
      h.Some? && h.value[c][m - 1] == PeriodTotal(df.rows, c, y, m)
  {
    HeatmapCell(df, regions, y, sel, c, m);
    var sub := Frame(df.columns, YearRows(df.rows, y));
    var healed := EnsureTotal(sub, regions);
    if NeedsTotal(sub) {
      var totals := seq(|sub.rows|, i requires 0 <= i < |sub.rows| => Some(RowSum(sub.rows[i], regions)));
      UnhealedColumn(sub.rows, healed.rows, c, totals, m);
    }
    MonthTotalOfYearRows(df.rows, c, y, m);
  }

  /** A month the year has no rows for reads 0 for every selected region. */
  lemma HeatmapAbsentMonth(df: Frame, regions: seq<string>, y: int, sel: seq<string>, c: string, m: int)
    requires Distinct(sel) && c in sel && c != TotalCol && 1 <= m <= 12
    requires !HasPeriod(df.rows, y, m)
    ensures var h := HeatmapMatrix(df, regions, y, sel);
      h.Some? && h.value[c][m - 1] == 0
  {
    HeatmapFromData(df, regions, y, sel, c, m);
    AbsentPeriodIsZero(df.rows, c, y, m);
  }
}
