/** The selected period and the region statistics shown for it: the total
    number of cases, the per-region sums, the regions with the most and the
    fewest cases, and the top-five ranking. */
module Regions {
  import opened Frames
  import opened Monthly

  // ---------------------------------------------------------------------
  // Selected period

  /** `df[(df["연"] == y) & (df["월"] == m)]`, in row order. */
  function PeriodRows(rows: seq<Record>, y: int, m: int): (r: seq<Record>)
    ensures r == [] <==> !HasPeriod(rows, y, m)
    ensures forall rec :: rec in r <==> rec in rows && rec.year == y && rec.month == m
    ensures forall rec :: multiset(r)[rec] == if rec.year == y && rec.month == m then multiset(rows)[rec] else 0
  {
    if rows == [] then []
    else
      var init := rows[..|rows| - 1];
      var last := rows[|rows| - 1];
      assert rows == init + [last];
      assert HasPeriod(rows, y, m) <==> HasPeriod(init, y, m) || (last.year == y && last.month == m) by {
        if HasPeriod(rows, y, m) {
          var i :| 0 <= i < |rows| && rows[i].year == y && rows[i].month == m;
          if i < |init| { assert init[i] == rows[i]; }
        }
        if HasPeriod(init, y, m) {
          var i :| 0 <= i < |init| && init[i].year == y && init[i].month == m;
          assert rows[i] == init[i];
        }
      }
      var r := PeriodRows(init, y, m);
      assert multiset(rows) == multiset(init) + multiset{last};
      if last.year == y && last.month == m then r + [last] else r
  }

  /** The stand-in record for a period without data: every region and the total 0. */
  function ZeroRecord(regions: seq<string>, y: int, m: int): (rec: Record)
    ensures rec.year == y && rec.month == m && rec.ym == MakeKey(y, m)
    ensures forall c :: c in regions || c == TotalCol ==> Cell(rec, c) == Some(0)
    ensures forall c :: OrZero(Cell(rec, c)) == 0
  {
    Record(MakeKey(y, m), y, m, (map c | c in regions :: Some(0))[TotalCol := Some(0)])
  }

  /** The rows of the selected period, or the zero record when it has none. */
  function SelectedRows(df: Frame, regions: seq<string>, y: int, m: int): (r: seq<Record>)
    ensures r != []
    ensures forall i :: 0 <= i < |r| ==> r[i].year == y && r[i].month == m
    ensures !HasPeriod(df.rows, y, m) ==> r == [ZeroRecord(regions, y, m)]
    ensures HasPeriod(df.rows, y, m) ==>
      forall rec :: rec in r <==> rec in df.rows && rec.year == y && rec.month == m
    ensures HasPeriod(df.rows, y, m) ==>
      forall rec :: multiset(r)[rec] == if rec.year == y && rec.month == m then multiset(df.rows)[rec] else 0
  {
    var rows := PeriodRows(df.rows, y, m);
    if rows == [] then [ZeroRecord(regions, y, m)]
    else
      assert forall i :: 0 <= i < |rows| ==> rows[i] in rows;
      rows
  }

  /** `sum()` of one column over some rows, missing cells as 0. */
  function ColumnTotal(rows: seq<Record>, c: string): int
  {
    if rows == [] then 0
    else ColumnTotal(rows[..|rows| - 1], c) + OrZero(Cell(rows[|rows| - 1], c))
  }

  /** Rows that are of one year and month sum a column as their
      (year, month) sum does: the two sums agree on such rows. */
  lemma {:induction false} ColumnTotalOfPeriod(rows: seq<Record>, c: string, y: int, m: int)
    requires forall i :: 0 <= i < |rows| ==> rows[i].year == y && rows[i].month == m
    ensures ColumnTotal(rows, c) == PeriodTotal(rows, c, y, m)
  {
    if rows != [] {
      ColumnTotalOfPeriod(rows[..|rows| - 1], c, y, m);
    }
  }

  /** A column with no value in any row sums to 0. */
  lemma {:induction false} ColumnTotalAllMissing(rows: seq<Record>, c: string)
    requires AllMissing(rows, c)
    ensures ColumnTotal(rows, c) == 0
  {
    if rows != [] {
      ColumnTotalAllMissing(rows[..|rows| - 1], c);
    }
  }

  /** The number of cases shown for the selected period: the sum of the
      period's totals, 0 when it has no data. */
  function TotalCases(df: Frame, regions: seq<string>, y: int, m: int): (n: int)
    ensures n == PeriodTotal(df.rows, TotalCol, y, m)
    ensures !HasPeriod(df.rows, y, m) ==> n == 0
  {
    SelectedColumnTotal(df, regions, y, m, TotalCol);
    ColumnTotal(SelectedRows(df, regions, y, m), TotalCol)
  }

  /** Any column of the selected period sums, copies of a row included, to the
      column's sum over the input rows of that year and month. */
  lemma SelectedColumnTotal(df: Frame, regions: seq<string>, y: int, m: int, c: string)
    ensures ColumnTotal(SelectedRows(df, regions, y, m), c) == PeriodTotal(df.rows, c, y, m)
  {
    if HasPeriod(df.rows, y, m) {
      PeriodCases(df.rows, y, m, c);
    } else {
      EmptyPeriodIsZero(df, regions, y, m, c);
      AbsentPeriodIsZero(df.rows, c, y, m);
    }
  }

  /** A period without data shows 0 in every column, the total included. */
  lemma EmptyPeriodIsZero(df: Frame, regions: seq<string>, y: int, m: int, c: string)
    requires !HasPeriod(df.rows, y, m)
    ensures ColumnTotal(SelectedRows(df, regions, y, m), c) == 0
  {
    var z := ZeroRecord(regions, y, m);
    assert SelectedRows(df, regions, y, m) == [z];
    assert [z][..0] == [];
    assert ColumnTotal([z], c) == OrZero(Cell(z, c));
  }

  /** Summing a column over the period's rows is summing it over the input
      rows of that year and month. */
  lemma {:induction false} PeriodCases(rows: seq<Record>, y: int, m: int, c: string)
    ensures ColumnTotal(PeriodRows(rows, y, m), c) == PeriodTotal(rows, c, y, m)
  {
    if rows != [] {
      var init := rows[..|rows| - 1];
      var last := rows[|rows| - 1];
      PeriodCases(init, y, m, c);
      var r := PeriodRows(init, y, m);
      if last.year == y && last.month == m {
        assert (r + [last])[..|r|] == r;
      }
    }
  }

  // ---------------------------------------------------------------------
  // Region sums and extremes

  datatype RegionCount = RegionCount(region: string, count: int)

  /** `df_selected[sel].sum().fillna(0)`: one sum per selected region, in selection order. */
  function RegionSums(rows: seq<Record>, sel: seq<string>): (r: seq<RegionCount>)
    ensures |r| == |sel|
    ensures forall i :: 0 <= i < |sel| ==> r[i].region == sel[i] && r[i].count == ColumnTotal(rows, sel[i])
  {
    seq(|sel|, i requires 0 <= i < |sel| => RegionCount(sel[i], ColumnTotal(rows, sel[i])))
  }

  /** Each region sum of the selected period is the region's sum over the input
      rows of that year and month, and 0 when the period has no data. */
  lemma RegionSumsFromData(df: Frame, regions: seq<string>, y: int, m: int, sel: seq<string>, i: int)
    requires 0 <= i < |sel|
    ensures RegionSums(SelectedRows(df, regions, y, m), sel)[i].count == PeriodTotal(df.rows, sel[i], y, m)
    ensures !HasPeriod(df.rows, y, m) ==> RegionSums(SelectedRows(df, regions, y, m), sel)[i].count == 0
  {
    SelectedColumnTotal(df, regions, y, m, sel[i]);
    if !HasPeriod(df.rows, y, m) {
      AbsentPeriodIsZero(df.rows, sel[i], y, m);
    }
  }

  /** `k` is where the largest count first occurs (`idxmax`). */
  predicate IsFirstMax(rcs: seq<RegionCount>, k: int)
  {
    && 0 <= k < |rcs|
    && (forall j :: 0 <= j < |rcs| ==> rcs[j].count <= rcs[k].count)
    && (forall j :: 0 <= j < k ==> rcs[j].count < rcs[k].count)
  }

  /** `k` is where the smallest count first occurs (`idxmin`). */
  predicate IsFirstMin(rcs: seq<RegionCount>, k: int)
  {
    && 0 <= k < |rcs|
    && (forall j :: 0 <= j < |rcs| ==> rcs[k].count <= rcs[j].count)
    && (forall j :: 0 <= j < k ==> rcs[k].count < rcs[j].count)
  }

  function ArgMax(rcs: seq<RegionCount>): (k: int)
    requires rcs != []
    ensures IsFirstMax(rcs, k)
  {
    if |rcs| == 1 then 0
    else
      var k := ArgMax(rcs[..|rcs| - 1]);
      if rcs[k].count < rcs[|rcs| - 1].count then |rcs| - 1 else k
  }

  function ArgMin(rcs: seq<RegionCount>): (k: int)
    requires rcs != []
    ensures IsFirstMin(rcs, k)
  {
    if |rcs| == 1 then 0
    else
      var k := ArgMin(rcs[..|rcs| - 1]);
      if rcs[|rcs| - 1].count < rcs[k].count then |rcs| - 1 else k
  }

  /** The first occurrence of a maximum is unique. */
  lemma FirstMaxUnique(rcs: seq<RegionCount>, k1: int, k2: int)
    requires IsFirstMax(rcs, k1) && IsFirstMax(rcs, k2)
    ensures k1 == k2
  {
    assert rcs[k1].count <= rcs[k2].count && rcs[k2].count <= rcs[k1].count;
  }

  // ---------------------------------------------------------------------
  // Top ranking

  function Min(a: int, b: int): int
  {
    if a <= b then a else b
  }

  predicate NonIncreasing(rcs: seq<RegionCount>)
  {
    forall i, j :: 0 <= i < j < |rcs| ==> rcs[i].count >= rcs[j].count
  }

  /** Places `x` before the first entry whose count is not above its own. */
  function Insert(x: RegionCount, s: seq<RegionCount>): (r: seq<RegionCount>)
    ensures |r| == |s| + 1
  {
    if s == [] || s[0].count <= x.count then [x] + s
    else [s[0]] + Insert(x, s[1..])
  }

  /** `sort_values(ascending=False)`, taken as stable: an entry keeps ahead of
      later entries with the same count. */
  function SortDesc(rcs: seq<RegionCount>): (r: seq<RegionCount>)
    ensures |r| == |rcs|
  {
    if rcs == [] then [] else Insert(rcs[0], SortDesc(rcs[1..]))
  }

  lemma {:induction false} InsertPermutes(x: RegionCount, s: seq<RegionCount>)
    ensures multiset(Insert(x, s)) == multiset(s) + multiset{x}
  {
    if s != [] && s[0].count > x.count {
      InsertPermutes(x, s[1..]);
      assert s == [s[0]] + s[1..];
    }
  }

  lemma {:induction false} InsertSorted(x: RegionCount, s: seq<RegionCount>)
    requires NonIncreasing(s)
    ensures NonIncreasing(Insert(x, s))
  {
    if s != [] && s[0].count > x.count {
      var t := s[1..];
      assert NonIncreasing(t);
      InsertSorted(x, t);
      InsertPermutes(x, t);
      var r := Insert(x, t);
      forall j | 0 <= j < |r| ensures r[j].count <= s[0].count {
        assert r[j] in multiset(r);
        if r[j] != x {
          assert r[j] in multiset(t);
          var i :| 0 <= i < |t| && t[i] == r[j];
          assert s[i + 1] == t[i];
        }
      }
      ConsNonIncreasing(s[0], r);
    }
  }

  lemma ConsNonIncreasing(h: RegionCount, t: seq<RegionCount>)
    requires NonIncreasing(t)
    requires forall j :: 0 <= j < |t| ==> t[j].count <= h.count
    ensures NonIncreasing([h] + t)
  {
    var s := [h] + t;
    forall i, j | 0 <= i < j < |s| ensures s[i].count >= s[j].count {
      assert s[j] == t[j - 1];
      if i > 0 {
        assert s[i] == t[i - 1];
      }
    }
  }

  lemma {:induction false} SortDescSorted(rcs: seq<RegionCount>)
    ensures NonIncreasing(SortDesc(rcs))
  {
    if rcs != [] {
      SortDescSorted(rcs[1..]);
      InsertSorted(rcs[0], SortDesc(rcs[1..]));
    }
  }

  lemma {:induction false} SortDescPermutes(rcs: seq<RegionCount>)
    ensures multiset(SortDesc(rcs)) == multiset(rcs)
  {
    if rcs != [] {
      SortDescPermutes(rcs[1..]);
      InsertPermutes(rcs[0], SortDesc(rcs[1..]));
      assert rcs == [rcs[0]] + rcs[1..];
    }
  }

  /** The sorted entries are the input's, in nonincreasing order of count. */
  lemma SortDescCorrect(rcs: seq<RegionCount>)
    ensures NonIncreasing(SortDesc(rcs))
    ensures multiset(SortDesc(rcs)) == multiset(rcs)
  {
    SortDescSorted(rcs);
    SortDescPermutes(rcs);
  }

  /** `head(n)` of the descending sort. */
  function TopN(rcs: seq<RegionCount>, n: nat): (top: seq<RegionCount>)
    ensures |top| == Min(n, |rcs|)
  {
    SortDesc(rcs)[..Min(n, |rcs|)]
  }

  /** The entries the ranking leaves out. */
  function Leftover(rcs: seq<RegionCount>, n: nat): seq<RegionCount>
  {
    SortDesc(rcs)[Min(n, |rcs|)..]
  }

  /** The ranking is in nonincreasing order, and together with the entries it
      leaves out it is the input, as a multiset. */
  lemma TopNPartition(rcs: seq<RegionCount>, n: nat)
    ensures NonIncreasing(TopN(rcs, n))
    ensures multiset(TopN(rcs, n)) + multiset(Leftover(rcs, n)) == multiset(rcs)
  {
    var s := SortDesc(rcs);
    SortDescCorrect(rcs);
    assert s == TopN(rcs, n) + Leftover(rcs, n);
  }

  /** Every ranked or left-out entry is an entry of the input. */
  lemma FromInput(rcs: seq<RegionCount>, n: nat, x: RegionCount)
    requires x in TopN(rcs, n) || x in Leftover(rcs, n)
    ensures x in rcs
  {
    TopNPartition(rcs, n);
    assert x in multiset(TopN(rcs, n)) || x in multiset(Leftover(rcs, n));
    assert x in multiset(rcs);
  }

  /** No entry left out of the ranking has more cases than any entry in it. */
  lemma TopNDominates(rcs: seq<RegionCount>, n: nat, p: RegionCount, q: RegionCount)
    requires p in Leftover(rcs, n)
    requires q in TopN(rcs, n)
    ensures p.count <= q.count
  {
    var s := SortDesc(rcs);
    SortDescCorrect(rcs);
    var i :| 0 <= i < |TopN(rcs, n)| && TopN(rcs, n)[i] == q;
    var j :| 0 <= j < |Leftover(rcs, n)| && Leftover(rcs, n)[j] == p;
    assert s[i] == q && s[Min(n, |rcs|) + j] == p;
  }

  /** The statistics of the selected period over the selected regions. */
  datatype RegionStats = RegionStats(
    sums: seq<RegionCount>,
    most: RegionCount,
    fewest: RegionCount,
    top: seq<RegionCount>)

  /** None for an empty selection (the dashboard shows a notice instead). */
  function RegionReport(rows: seq<Record>, sel: seq<string>): (r: Option<RegionStats>)
    ensures r.None? <==> sel == []
    ensures r.Some? ==>
      && r.value.sums == RegionSums(rows, sel)
      && (exists k :: IsFirstMax(r.value.sums, k) && r.value.most == r.value.sums[k])
      && (exists k :: IsFirstMin(r.value.sums, k) && r.value.fewest == r.value.sums[k])
      && r.value.top == TopN(r.value.sums, 5)
      && |r.value.top| == Min(5, |sel|)
  {
    if sel == [] then None
    else
      var sums := RegionSums(rows, sel);
      Some(RegionStats(sums, sums[ArgMax(sums)], sums[ArgMin(sums)], TopN(sums, 5)))
  }

  /** Every entry of the ranking is a selected region paired with its own sum. */
  lemma TopEntriesAreSums(rows: seq<Record>, sel: seq<string>, e: RegionCount)
    requires e in TopN(RegionSums(rows, sel), 5)
    ensures e.region in sel && e.count == ColumnTotal(rows, e.region)
  {
    var sums := RegionSums(rows, sel);
    FromInput(sums, 5, e);
  }

  /** Equal counts keep selection order: sums {A: 5, B: 5, C: 3} rank A, B
      and make A the region with the most cases. */
  lemma TieBreakExample()
    ensures var rcs := [RegionCount("A", 5), RegionCount("B", 5), RegionCount("C", 3)];
      TopN(rcs, 2) == [rcs[0], rcs[1]] && rcs[ArgMax(rcs)] == rcs[0]
  {
    var rcs := [RegionCount("A", 5), RegionCount("B", 5), RegionCount("C", 3)];
    FirstMaxUnique(rcs, ArgMax(rcs), 0);
    assert SortDesc(rcs[2..]) == [rcs[2]];
    assert SortDesc(rcs[1..]) == [rcs[1], rcs[2]];
    assert SortDesc(rcs) == rcs;
  }
}
