/** The loaded dataset of the livestock-disease dashboard: one record per
    year-month key, a cell per numeric column (None where the value was
    missing or could not be parsed), the region column set, and the step
    that derives the total column from the region columns when it is unusable. */
module Frames {

  datatype Option<T> = None | Some(value: T)

  /** Reserved column names of the source table. */
  const KeyCol: string := "연월"
  const YearCol: string := "연"
  const MonthCol: string := "월"
  const TotalCol: string := "소계"
  const Reserved: seq<string> := [KeyCol, YearCol, MonthCol, TotalCol]

  /** A line of the input file after numeric coercion: the year-month key and
      the parsed cell of every other column. */
  datatype RawRecord = RawRecord(ym: int, cells: map<string, Option<int>>)
  datatype RawFrame = RawFrame(columns: seq<string>, rows: seq<RawRecord>)

  /** A loaded record: the key, the year and month derived from it, and the
      numeric cells by column name. */
  datatype Record = Record(ym: int, year: int, month: int, cells: map<string, Option<int>>)
  datatype Frame = Frame(columns: seq<string>, rows: seq<Record>)

  /** The value of column `c` in `rec`; a column the record lacks reads as missing. */
  function Cell(rec: Record, c: string): Option<int>
  {
    if c in rec.cells then rec.cells[c] else None
  }

  /** A missing value takes part in a sum as 0. */
  function OrZero(v: Option<int>): int
  {
    if v.Some? then v.value else 0
  }

  function Sum(s: seq<int>): int
  {
    if s == [] then 0 else Sum(s[..|s| - 1]) + s[|s| - 1]
  }

  // ---------------------------------------------------------------------
  // Year-month key

  function MakeKey(year: int, month: int): int
  {
    year * 100 + month
  }

  /** Floor division and modulo by 100, as Python's `//` and `%` on a positive divisor. */
  function YearOf(ym: int): int
  {
    ym / 100
  }

  function MonthOf(ym: int): int
  {
    ym % 100
  }

  /** Splitting a key rebuilt from a year and a calendar month gives them back. */
  lemma KeyRoundTrip(year: int, month: int)
    requires 1 <= month <= 12
    ensures YearOf(MakeKey(year, month)) == year
    ensures MonthOf(MakeKey(year, month)) == month
  {
  }

  /** Rebuilding a split key gives the key back; the month part is a two-digit number. */
  lemma SplitRoundTrip(ym: int)
    ensures MakeKey(YearOf(ym), MonthOf(ym)) == ym
    ensures 0 <= MonthOf(ym) < 100
  {
  }

  // ---------------------------------------------------------------------
  // Loading

  /** Appends a column name unless the frame already has it (assignment to an
      existing column keeps its position). */
  function AddColumn(cols: seq<string>, c: string): (r: seq<string>)
    ensures c in r
    ensures forall d :: d in r <==> d in cols || d == c
  {
    if c in cols then cols else cols + [c]
  }

  function LoadRecord(raw: RawRecord): (rec: Record)
    ensures rec.ym == raw.ym && rec.cells == raw.cells
    ensures MakeKey(rec.year, rec.month) == raw.ym && 0 <= rec.month < 100
  {
    Record(raw.ym, YearOf(raw.ym), MonthOf(raw.ym), raw.cells)
  }

  /** Derives the year and month columns from the key of every record. */
  function Load(raw: RawFrame): (f: Frame)
    ensures YearCol in f.columns && MonthCol in f.columns
    ensures forall c :: c in raw.columns ==> c in f.columns
    ensures |f.rows| == |raw.rows|
    ensures forall i :: 0 <= i < |f.rows| ==>
      f.rows[i].ym == raw.rows[i].ym && f.rows[i].cells == raw.rows[i].cells &&
      MakeKey(f.rows[i].year, f.rows[i].month) == raw.rows[i].ym && 0 <= f.rows[i].month < 100
  {
    Frame(AddColumn(AddColumn(raw.columns, YearCol), MonthCol),
          seq(|raw.rows|, i requires 0 <= i < |raw.rows| => LoadRecord(raw.rows[i])))
  }

  // ---------------------------------------------------------------------
  // Region columns

  /** Every column except the key, year, month and total columns, in column order:
      this is the default region selection, whose order breaks ties. */
  function RegionColumns(cols: seq<string>): (r: seq<string>)
    ensures |r| <= |cols|
    ensures forall c :: c in r <==> c in cols && c !in Reserved
    ensures forall i, j :: 0 <= i < j < |r| ==> Before(cols, r[i], r[j])
  {
    if cols == [] then []
    else
      var init := RegionColumns(cols[..|cols| - 1]);
      var last := cols[|cols| - 1];
      assert cols == cols[..|cols| - 1] + [last];
      forall i, j | 0 <= i < j < |init| ensures Before(cols, init[i], init[j]) {
        var p, q :| 0 <= p < q < |cols| - 1 && cols[p] == init[i] && cols[q] == init[j];
        assert cols[..|cols| - 1][p] == cols[p] && cols[..|cols| - 1][q] == cols[q];
      }
      forall i | 0 <= i < |init| ensures Before(cols, init[i], last) {
        assert init[i] in init;
        var p :| 0 <= p < |cols| - 1 && cols[..|cols| - 1][p] == init[i];
        assert cols[p] == init[i] && cols[|cols| - 1] == last;
      }
      if last in Reserved then init else init + [last]
  }

  /** Some occurrence of `a` in `cols` comes before some occurrence of `b`. */
  predicate Before(cols: seq<string>, a: string, b: string)
  {
    exists p, q :: 0 <= p < q < |cols| && cols[p] == a && cols[q] == b
  }

  // ---------------------------------------------------------------------
  // Total column

  /** Row-wise sum of the region cells, missing cells counted as 0. */
  function RowSum(rec: Record, regions: seq<string>): int
  {
    if regions == [] then 0
    else RowSum(rec, regions[..|regions| - 1]) + OrZero(Cell(rec, regions[|regions| - 1]))
  }

  /** A row with no region value sums to 0 (`sum(axis=1)` skips missing cells). */
  lemma {:induction false} RowSumNoValue(rec: Record, regions: seq<string>)
    requires NoRegionValue(rec, regions)
    ensures RowSum(rec, regions) == 0
  {
    if regions != [] {
      RowSumNoValue(rec, regions[..|regions| - 1]);
    }
  }

  /** No region cell of the record holds a value (its row sum is still 0, not missing). */
  predicate NoRegionValue(rec: Record, regions: seq<string>)
  {
    forall i :: 0 <= i < |regions| ==> Cell(rec, regions[i]).None?
  }

  predicate AllMissing(rows: seq<Record>, c: string)
  {
    forall i :: 0 <= i < |rows| ==> Cell(rows[i], c).None?
  }

  /** The total column is absent or holds no value at all (true of an empty
      frame); a single recorded value keeps the column as it is. */
  predicate NeedsTotal(f: Frame)
    ensures f.rows == [] ==> NeedsTotal(f)
    ensures TotalCol in f.columns && (exists i :: 0 <= i < |f.rows| && Cell(f.rows[i], TotalCol).Some?) ==>
      !NeedsTotal(f)
  {
    TotalCol !in f.columns || AllMissing(f.rows, TotalCol)
  }

  /** `b` is `a` with the total cell set to `total` and everything else kept. */
  ghost predicate SameButTotal(a: Record, b: Record, total: Option<int>)
  {
    && b.ym == a.ym && b.year == a.year && b.month == a.month
    && Cell(b, TotalCol) == total
    && forall c :: c != TotalCol ==> Cell(b, c) == Cell(a, c)
  }

  function WithRowTotal(rec: Record, regions: seq<string>): (r: Record)
    ensures SameButTotal(rec, r, Some(RowSum(rec, regions)))
  {
    rec.(cells := rec.cells[TotalCol := Some(RowSum(rec, regions))])
  }

  /** Fills the total column with the region sums when the column is absent or
      entirely missing; otherwise the frame is returned as it is, individually
      missing totals included. */
  function EnsureTotal(f: Frame, regions: seq<string>): (r: Frame)
    ensures TotalCol in r.columns
    ensures |r.rows| == |f.rows|
    ensures NeedsTotal(f) ==>
      && (forall c :: c in r.columns <==> c in f.columns || c == TotalCol)
      && (forall i :: 0 <= i < |f.rows| ==>
            SameButTotal(f.rows[i], r.rows[i], Some(RowSum(f.rows[i], regions))))
    ensures !NeedsTotal(f) ==> r == f
  {
    if NeedsTotal(f) then
      Frame(AddColumn(f.columns, TotalCol),
            seq(|f.rows|, i requires 0 <= i < |f.rows| => WithRowTotal(f.rows[i], regions)))
    else f
  }

  /** After the step the total column is usable, unless there are no rows. */
  lemma EnsureTotalHeals(f: Frame, regions: seq<string>)
    requires |f.rows| > 0
    ensures !NeedsTotal(EnsureTotal(f, regions))
  {
    var r := EnsureTotal(f, regions);
    if NeedsTotal(f) {
      assert Cell(r.rows[0], TotalCol).Some?;
    }
  }

  lemma EnsureTotalIdempotent(f: Frame, regions: seq<string>)
    ensures EnsureTotal(EnsureTotal(f, regions), regions) == EnsureTotal(f, regions)
  {
    var r := EnsureTotal(f, regions);
    if |f.rows| > 0 {
      EnsureTotalHeals(f, regions);
    } else {
      assert r.rows == [];
      assert AddColumn(r.columns, TotalCol) == r.columns;
    }
  }

  /** The dataset as the dashboard holds it: loaded, its region columns taken
      from the loaded header, and its total column ensured. */
  function Prepare(raw: RawFrame): (r: (Frame, seq<string>))
    ensures var (df, regions) := r;
      && TotalCol in df.columns
      && (forall c :: c in regions <==> c in raw.columns && c !in Reserved)
      && |df.rows| == |raw.rows|
      && (|raw.rows| > 0 ==> !NeedsTotal(df))
    ensures var (df, regions) := r;
      forall i :: 0 <= i < |df.rows| ==>
        && df.rows[i].ym == raw.rows[i].ym
        && MakeKey(df.rows[i].year, df.rows[i].month) == raw.rows[i].ym
        && 0 <= df.rows[i].month < 100
        && (forall c :: c != TotalCol ==> Cell(df.rows[i], c) == Cell(LoadRecord(raw.rows[i]), c))
        && Cell(df.rows[i], TotalCol) ==
             if NeedsTotal(Load(raw)) then Some(RowSum(LoadRecord(raw.rows[i]), regions))
             else Cell(LoadRecord(raw.rows[i]), TotalCol)
  {
    var loaded := Load(raw);
    var regions := RegionColumns(loaded.columns);
    assert |raw.rows| > 0 ==> !NeedsTotal(EnsureTotal(loaded, regions)) by {
      if |raw.rows| > 0 { EnsureTotalHeals(loaded, regions); }
    }
    assert forall i :: 0 <= i < |loaded.rows| ==> loaded.rows[i] == LoadRecord(raw.rows[i]);
    (EnsureTotal(loaded, regions), regions)
  }
}
