/** The company-sales dashboard (streamlitappl.py): the slider limits are the
    smallest and largest Year of the sales table, the chosen range keeps the
    rows whose Year lies inside it, and the bar chart shows the total EVSales
    of each Year of what was kept.

    The slider itself is a widget; its value is the parameter pair `lo`, `hi`. */
module SalesApp {
  import opened Frames

  /** One row of `EVIndia.csv`: a company (or model), a Year and its EVSales. */
  datatype Sale = Sale(company: string, year: int, sales: nat)

  /** One row of `yearly_sales`: a Year and the EVSales summed over its rows. */
  datatype YearSales = YearSales(year: int, total: nat)

  function YearOf(s: Sale): int
  {
    s.year
  }

  /** The EVSales of the rows of Year `y`, added up. */
  function SalesIn(rows: seq<Sale>, y: int): nat
  {
    if rows == [] then 0
    else (if rows[0].year == y then rows[0].sales else 0) + SalesIn(rows[1..], y)
  }

  /** The EVSales of all rows, added up. */
  function TotalSales(rows: seq<Sale>): nat
  {
    if rows == [] then 0 else rows[0].sales + TotalSales(rows[1..])
  }

  /** The bar heights of the chart, added up. */
  function SumTotals(g: seq<YearSales>): nat
  {
    if g == [] then 0 else g[0].total + SumTotals(g[1..])
  }

  /** One `yearly_sales` row per key, in key order. */
  function Summarize(keys: seq<int>, rows: seq<Sale>): (g: seq<YearSales>)
    ensures |g| == |keys|
    ensures forall i :: 0 <= i < |keys| ==> g[i] == YearSales(keys[i], SalesIn(rows, keys[i]))
  {
    if keys == [] then []
    else [YearSales(keys[0], SalesIn(rows, keys[0]))] + Summarize(keys[1..], rows)
  }

  /** `filtered_df.groupby("Year")["EVSales"].sum().reset_index()`: one row
      per distinct Year, in ascending order, whose total is the EVSales of
      that Year's rows added up. */
  function YearlySales(rows: seq<Sale>): (g: seq<YearSales>)
    ensures forall i, j :: 0 <= i < j < |g| ==> g[i].year < g[j].year
    ensures forall i :: 0 <= i < |g| ==> g[i].year in Years(rows, YearOf)
    ensures forall y :: y in Years(rows, YearOf) ==> exists i :: 0 <= i < |g| && g[i].year == y
    ensures forall i :: 0 <= i < |g| ==> g[i].total == SalesIn(rows, g[i].year)
  {
    var keys := SortedKeys(Years(rows, YearOf), IntLess);
    YearKeysSorted(Years(rows, YearOf));
    var g := seq(|keys|, i requires 0 <= i < |keys| => YearSales(keys[i], SalesIn(rows, keys[i])));
    assert forall i :: 0 <= i < |keys| ==> keys[i] in keys;
    assert forall i :: 0 <= i < |keys| ==> g[i].year == keys[i];
    assert forall y :: y in keys ==> exists i :: 0 <= i < |keys| && keys[i] == y;
    g
  }

  lemma YearKeysSorted(ys: seq<int>)
    ensures forall i, j :: 0 <= i < j < |SortedKeys(ys, IntLess)| ==>
      SortedKeys(ys, IntLess)[i] < SortedKeys(ys, IntLess)[j]
  {
    IntLessIsStrictTotalOrder();
    SortedKeysSorted(ys, IntLess);
  }

  lemma {:induction false} SummarizeOfNothing(keys: seq<int>)
    ensures SumTotals(Summarize(keys, [])) == 0
  {
    if keys != [] {
      SummarizeOfNothing(keys[1..]);
    }
  }

  /** One more row adds its EVSales to the summary exactly when its Year is a
      key, and the keys are distinct, so it is counted once. */
  lemma {:induction false} SummarizeCons(keys: seq<int>, s: Sale, rest: seq<Sale>)
    requires NoDuplicates(keys)
    ensures SumTotals(Summarize(keys, [s] + rest)) ==
      SumTotals(Summarize(keys, rest)) + (if s.year in keys then s.sales else 0)
  {
    if keys != [] {
      assert ([s] + rest)[1..] == rest;
      assert forall i :: 0 <= i < |keys| - 1 ==> keys[1..][i] == keys[i + 1];
      SummarizeCons(keys[1..], s, rest);
      assert s.year in keys <==> s.year == keys[0] || s.year in keys[1..];
    }
  }

  lemma {:induction false} SummarizeConserves(keys: seq<int>, rows: seq<Sale>)
    requires NoDuplicates(keys)
    requires forall i :: 0 <= i < |rows| ==> rows[i].year in keys
    ensures SumTotals(Summarize(keys, rows)) == TotalSales(rows)
  {
    if rows == [] {
      SummarizeOfNothing(keys);
    } else {
      assert rows == [rows[0]] + rows[1..];
      SummarizeCons(keys, rows[0], rows[1..]);
      SummarizeConserves(keys, rows[1..]);
    }
  }

  /** The bars of the chart add up to the EVSales of the kept rows: grouping
      by Year neither adds nor loses sales. */
  lemma {:induction false} YearlySalesConserveTotal(rows: seq<Sale>)
    ensures SumTotals(YearlySales(rows)) == TotalSales(rows)
  {
    var keys := SortedKeys(Years(rows, YearOf), IntLess);
    IntLessIsStrictTotalOrder();
    SortedKeysSorted(Years(rows, YearOf), IntLess);
    SortedHasNoDuplicates(keys, IntLess);
    forall i | 0 <= i < |rows|
      ensures rows[i].year in keys
    {
      assert Years(rows, YearOf)[i] in Years(rows, YearOf);
    }
    SummarizeConserves(keys, rows);
    assert YearlySales(rows) == Summarize(keys, rows);
  }

  /** Every bar of the chart is a Year inside the chosen range, and it sums
      the EVSales of that Year over the whole table, not only over the kept
      rows. */
  lemma {:induction false} ChartStaysInRange(rows: seq<Sale>, lo: int, hi: int)
    ensures forall g :: g in YearlySales(InYearRange(rows, YearOf, lo, hi)) ==>
      lo <= g.year <= hi && g.total == SalesIn(rows, g.year)
  {
    var f := InYearRange(rows, YearOf, lo, hi);
    var g := YearlySales(f);
    forall k | 0 <= k < |g|
      ensures lo <= g[k].year <= hi && g[k].total == SalesIn(rows, g[k].year)
    {
      var i :| 0 <= i < |f| && Years(f, YearOf)[i] == g[k].year;
      FilteredYear(rows, lo, hi, g[k].year);
    }
  }

  /** Inside the range, the filter keeps all the sales of a Year. */
  lemma {:induction false} FilteredYear(rows: seq<Sale>, lo: int, hi: int, y: int)
    requires lo <= y <= hi
    ensures SalesIn(InYearRange(rows, YearOf, lo, hi), y) == SalesIn(rows, y)
  {
    if rows != [] {
      FilteredYear(rows[1..], lo, hi, y);
      assert rows == [rows[0]] + rows[1..];
      InYearRangeCons(rows[0], rows[1..], YearOf, lo, hi);
      var rest := InYearRange(rows[1..], YearOf, lo, hi);
      assert ([rows[0]] + rest)[1..] == rest;
    }
  }
}
