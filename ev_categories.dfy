/** The category-table pipeline of the India EV market dashboard
    (EV_dashboard.py, lines 82-121): drop the placeholder rows, keep a year
    range, reshape the wide table (one column per vehicle category) into
    long (Year, Category, Count) rows, and sum by Year or by (Year, Category).

    The table is a sequence of rows; the category columns are the explicit
    list `cats`, and every row holds one count per category, in column order. */
module EvCategories {
  import opened Frames
  import opened Text

  /** One row of the category table: its Year and its count for each category column. */
  datatype WideRow = WideRow(year: int, cells: seq<nat>)

  /** One row of the long table that `melt` builds, and of its sum by (Year, Category). */
  datatype Obs = Obs(year: int, category: string, count: nat)

  /** Every row has exactly one cell per category column. */
  predicate Rectangular(rows: seq<WideRow>, cats: seq<string>)
  {
    forall i :: 0 <= i < |rows| ==> |rows[i].cells| == |cats|
  }

  function YearOf(r: WideRow): int
  {
    r.year
  }

  // ---------------------------------------------------------------- cleaning

  /** `ev_data[ev_data['Year'] != 0]`: the rows whose Year is not the
      placeholder 0, in their original order, each as often as it occurs. */
  function Clean(rows: seq<WideRow>): (r: seq<WideRow>)
    ensures IsSubsequence(r, rows)
    ensures forall x :: multiset(r)[x] == if x.year != 0 then multiset(rows)[x] else 0
    ensures forall i :: 0 <= i < |r| ==> r[i].year != 0
  {
    var r := Where(rows, (x: WideRow) => x.year != 0);
    assert forall i :: 0 <= i < |r| ==> r[i] in r;
    r
  }

  lemma {:induction false} CleanIdempotent(rows: seq<WideRow>)
    ensures Clean(Clean(rows)) == Clean(rows)
  {
    WhereIdempotent(rows, (x: WideRow) => x.year != 0);
  }

  // -------------------------------------------------------------------- melt

  /** The long rows contributed by category column `j`: one per wide row. */
  function Column(rows: seq<WideRow>, cats: seq<string>, j: nat): seq<Obs>
    requires Rectangular(rows, cats) && j < |cats|
  {
    seq(|rows|, i requires 0 <= i < |rows| => Obs(rows[i].year, cats[j], rows[i].cells[j]))
  }

  /** The long rows of category columns `k` onwards, column after column. */
  function MeltFrom(rows: seq<WideRow>, cats: seq<string>, k: nat): seq<Obs>
    requires Rectangular(rows, cats) && k <= |cats|
    decreases |cats| - k
  {
    if k == |cats| then [] else Column(rows, cats, k) + MeltFrom(rows, cats, k + 1)
  }

  /** `range_data.melt(id_vars='Year', var_name='Category', value_name='Count')`:
      pandas stacks the category columns one after the other. There is one
      long row per (wide row, category) pair, zero counts included, and every
      long row comes from one wide row and one category column. */
  function Melt(rows: seq<WideRow>, cats: seq<string>): (m: seq<Obs>)
    requires Rectangular(rows, cats)
    ensures |m| == |rows| * |cats|
    ensures forall o :: o in m <==>
      exists i, j :: 0 <= i < |rows| && 0 <= j < |cats| && o == Obs(rows[i].year, cats[j], rows[i].cells[j])
  {
    var m := MeltFrom(rows, cats, 0);
    MeltFromLength(rows, cats, 0);
    assert forall o :: o in m <==>
      exists i, j :: 0 <= i < |rows| && 0 <= j < |cats| && o == Obs(rows[i].year, cats[j], rows[i].cells[j]) by {
      forall o | o in m
        ensures exists i, j :: 0 <= i < |rows| && 0 <= j < |cats| && o == Obs(rows[i].year, cats[j], rows[i].cells[j])
      {
        MeltFromMember(rows, cats, 0, o);
      }
      forall i, j | 0 <= i < |rows| && 0 <= j < |cats|
        ensures Obs(rows[i].year, cats[j], rows[i].cells[j]) in m
      {
        MeltFromAt(rows, cats, 0, j, i);
      }
    }
    m
  }

  lemma {:induction false} MeltFromLength(rows: seq<WideRow>, cats: seq<string>, k: nat)
    requires Rectangular(rows, cats) && k <= |cats|
    ensures |MeltFrom(rows, cats, k)| == (|cats| - k) * |rows|
    decreases |cats| - k
  {
    if k < |cats| {
      MeltFromLength(rows, cats, k + 1);
      MulStep(|cats| - k, |rows|);
    }
  }

  lemma {:induction false} MeltFromAt(rows: seq<WideRow>, cats: seq<string>, k: nat, j: nat, i: nat)
    requires Rectangular(rows, cats) && k <= j < |cats| && i < |rows|
    ensures (j - k) * |rows| + i < |MeltFrom(rows, cats, k)|
    ensures MeltFrom(rows, cats, k)[(j - k) * |rows| + i] == Obs(rows[i].year, cats[j], rows[i].cells[j])
    decreases |cats| - k
  {
    MeltFromLength(rows, cats, k);
    var n, col, rest := |rows|, Column(rows, cats, k), MeltFrom(rows, cats, k + 1);
    assert MeltFrom(rows, cats, k) == col + rest;
    if j == k {
      assert (j - k) * n + i == i;
    } else {
      MeltFromAt(rows, cats, k + 1, j, i);
      MulStep(j - k, n);
      assert (j - k) * n + i == n + ((j - (k + 1)) * n + i);
    }
  }

  lemma MulStep(m: nat, n: nat)
    requires m > 0
    ensures m * n == n + (m - 1) * n
  {
  }

  /** Position `j * |rows| + i` of the long table holds wide row `i`'s Year,
      the name of category `j` and row `i`'s count in that column, zero
      counts included. */
  lemma {:induction false} MeltAt(rows: seq<WideRow>, cats: seq<string>, j: nat, i: nat)
    requires Rectangular(rows, cats) && j < |cats| && i < |rows|
    ensures j * |rows| + i < |Melt(rows, cats)|
    ensures Melt(rows, cats)[j * |rows| + i] == Obs(rows[i].year, cats[j], rows[i].cells[j])
  {
    MeltFromAt(rows, cats, 0, j, i);
  }

  lemma {:induction false} MeltFromMember(rows: seq<WideRow>, cats: seq<string>, k: nat, o: Obs)
    requires Rectangular(rows, cats) && k <= |cats|
    requires o in MeltFrom(rows, cats, k)
    ensures exists i, j :: 0 <= i < |rows| && k <= j < |cats| && o == Obs(rows[i].year, cats[j], rows[i].cells[j])
    decreases |cats| - k
  {
    if o in Column(rows, cats, k) {
      var i :| 0 <= i < |rows| && Column(rows, cats, k)[i] == o;
      assert o == Obs(rows[i].year, cats[k], rows[i].cells[k]);
    } else {
      MeltFromMember(rows, cats, k + 1, o);
    }
  }

  // ------------------------------------------------------------------ totals

  function Sum(s: seq<nat>): nat
  {
    if s == [] then 0 else s[0] + Sum(s[1..])
  }

  /** The sum of all category cells over the wide rows whose Year is `y`. */
  function YearTotal(rows: seq<WideRow>, y: int): nat
  {
    if rows == [] then 0
    else (if rows[0].year == y then Sum(rows[0].cells) else 0) + YearTotal(rows[1..], y)
  }

  /** The sum of the cells of columns `k` onwards over the wide rows whose Year is `y`. */
  function TailTotal(rows: seq<WideRow>, y: int, k: nat): nat
    requires forall i :: 0 <= i < |rows| ==> k <= |rows[i].cells|
  {
    if rows == [] then 0
    else (if rows[0].year == y then Sum(rows[0].cells[k..]) else 0) + TailTotal(rows[1..], y, k)
  }

  /** The sum of column `j` over the wide rows whose Year is `y`. */
  function ColumnTotal(rows: seq<WideRow>, j: nat, y: int): nat
    requires forall i :: 0 <= i < |rows| ==> j < |rows[i].cells|
  {
    if rows == [] then 0
    else (if rows[0].year == y then rows[0].cells[j] else 0) + ColumnTotal(rows[1..], j, y)
  }

  /** The sum of Count over the long rows whose Year is `y`. */
  function YearCount(obs: seq<Obs>, y: int): nat
  {
    if obs == [] then 0
    else (if obs[0].year == y then obs[0].count else 0) + YearCount(obs[1..], y)
  }

  /** The sum of Count over the long rows whose Year is `y` and Category `c`. */
  function KeyCount(obs: seq<Obs>, y: int, c: string): nat
  {
    if obs == [] then 0
    else (if obs[0].year == y && obs[0].category == c then obs[0].count else 0) + KeyCount(obs[1..], y, c)
  }

  lemma {:induction false} YearCountAppend(a: seq<Obs>, b: seq<Obs>, y: int)
    ensures YearCount(a + b, y) == YearCount(a, y) + YearCount(b, y)
  {
    if a != [] {
      assert (a + b)[0] == a[0] && (a + b)[1..] == a[1..] + b;
      YearCountAppend(a[1..], b, y);
    } else {
      assert a + b == b;
    }
  }

  lemma {:induction false} KeyCountAppend(a: seq<Obs>, b: seq<Obs>, y: int, c: string)
    ensures KeyCount(a + b, y, c) == KeyCount(a, y, c) + KeyCount(b, y, c)
  {
    if a != [] {
      assert (a + b)[0] == a[0] && (a + b)[1..] == a[1..] + b;
      KeyCountAppend(a[1..], b, y, c);
    } else {
      assert a + b == b;
    }
  }

  lemma {:induction false} ColumnCounts(rows: seq<WideRow>, cats: seq<string>, k: nat, y: int, c: string)
    requires Rectangular(rows, cats) && k < |cats|
    ensures YearCount(Column(rows, cats, k), y) == ColumnTotal(rows, k, y)
    ensures KeyCount(Column(rows, cats, k), y, c) == if cats[k] == c then ColumnTotal(rows, k, y) else 0
  {
    if rows != [] {
      assert Column(rows, cats, k)[1..] == Column(rows[1..], cats, k);
      ColumnCounts(rows[1..], cats, k, y, c);
    }
  }

  lemma {:induction false} SplitFirstColumn(rows: seq<WideRow>, y: int, k: nat)
    requires forall i :: 0 <= i < |rows| ==> k < |rows[i].cells|
    ensures TailTotal(rows, y, k) == ColumnTotal(rows, k, y) + TailTotal(rows, y, k + 1)
  {
    if rows != [] {
      assert rows[0].cells[k..][1..] == rows[0].cells[k + 1..];
      SplitFirstColumn(rows[1..], y, k);
    }
  }

  lemma {:induction false} TailTotalEnds(rows: seq<WideRow>, y: int, k: nat)
    requires forall i :: 0 <= i < |rows| ==> |rows[i].cells| == k
    ensures TailTotal(rows, y, k) == 0
    ensures TailTotal(rows, y, 0) == YearTotal(rows, y)
  {
    if rows != [] {
      assert rows[0].cells[k..] == [] && rows[0].cells[0..] == rows[0].cells;
      TailTotalEnds(rows[1..], y, k);
    }
  }

  lemma {:induction false} MeltFromYearCount(rows: seq<WideRow>, cats: seq<string>, k: nat, y: int)
    requires Rectangular(rows, cats) && k <= |cats|
    ensures YearCount(MeltFrom(rows, cats, k), y) == TailTotal(rows, y, k)
    decreases |cats| - k
  {
    if k == |cats| {
      TailTotalEnds(rows, y, k);
    } else {
      YearCountAppend(Column(rows, cats, k), MeltFrom(rows, cats, k + 1), y);
      ColumnCounts(rows, cats, k, y, "");
      MeltFromYearCount(rows, cats, k + 1, y);
      SplitFirstColumn(rows, y, k);
    }
  }

  /** Reshaping never changes a magnitude: for every Year, the melted Counts
      add up to the total of all category cells of that Year's wide rows. */
  lemma {:induction false} MeltConservesYearTotal(rows: seq<WideRow>, cats: seq<string>, y: int)
    requires Rectangular(rows, cats)
    ensures YearCount(Melt(rows, cats), y) == YearTotal(rows, y)
  {
    MeltFromYearCount(rows, cats, 0, y);
    TailTotalEnds(rows, y, |cats|);
  }

  lemma {:induction false} MeltFromKeyCount(rows: seq<WideRow>, cats: seq<string>, k: nat, y: int, j: nat)
    requires Rectangular(rows, cats) && NoDuplicates(cats) && k <= |cats| && j < |cats|
    ensures KeyCount(MeltFrom(rows, cats, k), y, cats[j]) == if k <= j then ColumnTotal(rows, j, y) else 0
    decreases |cats| - k
  {
    if k < |cats| {
      KeyCountAppend(Column(rows, cats, k), MeltFrom(rows, cats, k + 1), y, cats[j]);
      ColumnCounts(rows, cats, k, y, cats[j]);
      MeltFromKeyCount(rows, cats, k + 1, y, j);
      assert cats[k] == cats[j] <==> k == j;
    }
  }

  /** With distinct column names, the melted Counts of one (Year, Category)
      add up to that category column's total over the Year's wide rows. */
  lemma {:induction false} MeltKeyCount(rows: seq<WideRow>, cats: seq<string>, y: int, j: nat)
    requires Rectangular(rows, cats) && NoDuplicates(cats) && j < |cats|
    ensures KeyCount(Melt(rows, cats), y, cats[j]) == ColumnTotal(rows, j, y)
  {
    MeltFromKeyCount(rows, cats, 0, y, j);
  }

  // ------------------------------------------------------------ group by Year

  /** The category cells of the group row for Year `y`: each column summed
      over the rows of that Year. */
  function ColumnTotals(rows: seq<WideRow>, cats: seq<string>, y: int): (cells: seq<nat>)
    requires Rectangular(rows, cats)
    ensures |cells| == |cats|
    ensures forall j :: 0 <= j < |cats| ==> cells[j] == ColumnTotal(rows, j, y)
    ensures Sum(cells) == YearTotal(rows, y)
  {
    var cells := seq(|cats|, j requires 0 <= j < |cats| => ColumnTotal(rows, j, y));
    CellsFrom(rows, cats, y, cells, 0);
    assert cells[0..] == cells;
    TailTotalEnds(rows, y, |cats|);
    cells
  }

  /** `range_data.groupby('Year').sum(numeric_only=True).reset_index()`: one
      row per distinct Year, in ascending order, whose cell for each category
      is that column's sum over the rows of the Year. */
  function GroupByYear(rows: seq<WideRow>, cats: seq<string>): (g: seq<WideRow>)
    requires Rectangular(rows, cats)
    ensures Rectangular(g, cats)
    ensures forall i, j :: 0 <= i < j < |g| ==> g[i].year < g[j].year
    ensures forall i :: 0 <= i < |g| ==> g[i].year in Years(rows, YearOf)
    ensures forall y :: y in Years(rows, YearOf) ==> exists i :: 0 <= i < |g| && g[i].year == y
    ensures forall i, j :: 0 <= i < |g| && 0 <= j < |cats| ==> g[i].cells[j] == ColumnTotal(rows, j, g[i].year)
  {
    var keys := SortedKeys(Years(rows, YearOf), IntLess);
    IntLessIsStrictTotalOrder();
    SortedKeysSorted(Years(rows, YearOf), IntLess);
    var g := seq(|keys|, i requires 0 <= i < |keys| => WideRow(keys[i], ColumnTotals(rows, cats, keys[i])));
    assert forall i :: 0 <= i < |keys| ==> keys[i] in keys;
    assert forall i :: 0 <= i < |keys| ==> g[i].year == keys[i];
    assert forall y :: y in keys ==> exists i :: 0 <= i < |keys| && keys[i] == y;
    g
  }

  /** Cells holding the column totals of columns `k` onwards add up to
      the Year's total over those columns. */
  lemma {:induction false} CellsFrom(rows: seq<WideRow>, cats: seq<string>, y: int, cells: seq<nat>, k: nat)
    requires Rectangular(rows, cats) && k <= |cats| && |cells| == |cats|
    requires forall j :: 0 <= j < |cats| ==> cells[j] == ColumnTotal(rows, j, y)
    ensures Sum(cells[k..]) == TailTotal(rows, y, k)
    decreases |cats| - k
  {
    if k == |cats| {
      TailTotalEnds(rows, y, k);
    } else {
      assert cells[k..][0] == ColumnTotal(rows, k, y) && cells[k..][1..] == cells[k + 1..];
      CellsFrom(rows, cats, y, cells, k + 1);
      SplitFirstColumn(rows, y, k);
    }
  }

  /** The cells of each group-by-Year row add up to that Year's total over
      the wide rows, which is also the sum of the melted Counts of the Year. */
  lemma {:induction false} GroupByYearRowTotals(rows: seq<WideRow>, cats: seq<string>)
    requires Rectangular(rows, cats)
    ensures forall i :: 0 <= i < |GroupByYear(rows, cats)| ==>
      var g := GroupByYear(rows, cats)[i];
      Sum(g.cells) == YearTotal(rows, g.year) == YearCount(Melt(rows, cats), g.year)
  {
    var gs := GroupByYear(rows, cats);
    forall i | 0 <= i < |gs|
      ensures Sum(gs[i].cells) == YearTotal(rows, gs[i].year) == YearCount(Melt(rows, cats), gs[i].year)
    {
      var y := gs[i].year;
      assert gs[i].cells == ColumnTotals(rows, cats, y);
      MeltConservesYearTotal(rows, cats, y);
    }
  }

  // -------------------------------------------------- group by Year, Category

  /** The order of the (Year, Category) group keys: by Year, then by the
      Python ordering of the category names. */
  predicate KeyLess(a: (int, string), b: (int, string))
  {
    a.0 < b.0 || (a.0 == b.0 && LexLess(a.1, b.1))
  }

  lemma KeyLessIsStrictTotalOrder()
    ensures StrictTotalOrder(KeyLess)
  {
    forall a: (int, string)
      ensures !KeyLess(a, a)
    {
      LexLessIrreflexive(a.1);
    }
    forall a: (int, string), b: (int, string), c: (int, string) | KeyLess(a, b) && KeyLess(b, c)
      ensures KeyLess(a, c)
    {
      if a.0 == b.0 == c.0 {
        LexLessTransitive(a.1, b.1, c.1);
      }
    }
    forall a: (int, string), b: (int, string)
      ensures a == b || KeyLess(a, b) || KeyLess(b, a)
    {
      LexLessTotal(a.1, b.1);
    }
  }

  /** The (Year, Category) column pair. */
  function Keys(obs: seq<Obs>): (ks: seq<(int, string)>)
    ensures |ks| == |obs| && forall i :: 0 <= i < |obs| ==> ks[i] == (obs[i].year, obs[i].category)
  {
    seq(|obs|, i requires 0 <= i < |obs| => (obs[i].year, obs[i].category))
  }

  /** One summed row per key of `keys`, in the order of `keys`. */
  function Aggregate(keys: seq<(int, string)>, obs: seq<Obs>): (g: seq<Obs>)
    ensures |g| == |keys|
    ensures forall i :: 0 <= i < |keys| ==> g[i] == Obs(keys[i].0, keys[i].1, KeyCount(obs, keys[i].0, keys[i].1))
  {
    if keys == [] then []
    else [Obs(keys[0].0, keys[0].1, KeyCount(obs, keys[0].0, keys[0].1))] + Aggregate(keys[1..], obs)
  }

  /** `ev_melted.groupby(['Year', 'Category']).sum().reset_index()`: one row
      per distinct (Year, Category) pair, sorted by Year and then by
      Category name, whose Count is the sum over the long rows of that pair. */
  function GroupByYearCategory(obs: seq<Obs>): (g: seq<Obs>)
    ensures forall i, j :: 0 <= i < j < |g| ==> KeyLess((g[i].year, g[i].category), (g[j].year, g[j].category))
    ensures forall i :: 0 <= i < |g| ==> (g[i].year, g[i].category) in Keys(obs)
    ensures forall i :: 0 <= i < |g| ==> g[i].count == KeyCount(obs, g[i].year, g[i].category)
    ensures forall i :: 0 <= i < |obs| ==>
      exists t :: 0 <= t < |g| && g[t].year == obs[i].year && g[t].category == obs[i].category
  {
    var keys := SortedKeys(Keys(obs), KeyLess);
    KeyLessIsStrictTotalOrder();
    SortedKeysSorted(Keys(obs), KeyLess);
    var g := Aggregate(keys, obs);
    assert forall i :: 0 <= i < |keys| ==> keys[i] in keys;
    assert forall i :: 0 <= i < |obs| ==> Keys(obs)[i] in Keys(obs);
    g
  }

  lemma {:induction false} AggregateOfNothing(keys: seq<(int, string)>, y: int)
    ensures YearCount(Aggregate(keys, []), y) == 0
  {
    if keys != [] {
      AggregateOfNothing(keys[1..], y);
    }
  }

  lemma {:induction false} AggregateCons(keys: seq<(int, string)>, o: Obs, rest: seq<Obs>, y: int)
    requires NoDuplicates(keys)
    ensures YearCount(Aggregate(keys, [o] + rest), y) ==
      YearCount(Aggregate(keys, rest), y) + (if o.year == y && (o.year, o.category) in keys then o.count else 0)
  {
    if keys != [] {
      assert ([o] + rest)[1..] == rest;
      assert forall i :: 0 <= i < |keys| - 1 ==> keys[1..][i] == keys[i + 1];
      AggregateCons(keys[1..], o, rest, y);
      assert (o.year, o.category) in keys <==> (o.year, o.category) == keys[0] || (o.year, o.category) in keys[1..];
    }
  }

  lemma {:induction false} AggregateYearCount(keys: seq<(int, string)>, obs: seq<Obs>, y: int)
    requires NoDuplicates(keys)
    requires forall i :: 0 <= i < |obs| ==> (obs[i].year, obs[i].category) in keys
    ensures YearCount(Aggregate(keys, obs), y) == YearCount(obs, y)
  {
    if obs == [] {
      AggregateOfNothing(keys, y);
    } else {
      assert obs == [obs[0]] + obs[1..];
      AggregateCons(keys, obs[0], obs[1..], y);
      AggregateYearCount(keys, obs[1..], y);
    }
  }

  /** Summing the grouped Counts of a Year over its categories gives the
      Year's total over the long rows: grouping neither adds nor loses counts. */
  lemma {:induction false} GroupByYearCategoryConserves(obs: seq<Obs>, y: int)
    ensures YearCount(GroupByYearCategory(obs), y) == YearCount(obs, y)
  {
    var keys := SortedKeys(Keys(obs), KeyLess);
    KeyLessIsStrictTotalOrder();
    SortedKeysSorted(Keys(obs), KeyLess);
    SortedHasNoDuplicates(keys, KeyLess);
    forall i | 0 <= i < |obs|
      ensures (obs[i].year, obs[i].category) in keys
    {
      assert Keys(obs)[i] in Keys(obs);
    }
    AggregateYearCount(keys, obs, y);
  }

  /** Line 121 against line 112: every cell of the Year table appears as a
      (Year, Category) row of the sum over the melted table. */
  lemma {:induction false} YearCellsAreGrouped(rows: seq<WideRow>, cats: seq<string>, i: nat, j: nat)
    requires Rectangular(rows, cats) && NoDuplicates(cats)
    requires i < |GroupByYear(rows, cats)| && j < |cats|
    ensures var g := GroupByYear(rows, cats)[i];
      Obs(g.year, cats[j], g.cells[j]) in GroupByYearCategory(Melt(rows, cats))
  {
    var g, m := GroupByYear(rows, cats)[i], Melt(rows, cats);
    var a := GroupByYearCategory(m);
    var y := g.year;
    assert y in Years(rows, YearOf);
    var r :| 0 <= r < |rows| && Years(rows, YearOf)[r] == y;
    var o := Obs(rows[r].year, cats[j], rows[r].cells[j]);
    assert o in m;
    var idx :| 0 <= idx < |m| && m[idx] == o;
    var t :| 0 <= t < |a| && a[t].year == m[idx].year && a[t].category == m[idx].category;
    MeltKeyCount(rows, cats, y, j);
    assert a[t] == Obs(y, cats[j], g.cells[j]);
  }

  /** Line 121 against line 112: every (Year, Category) row of the sum over
      the melted table is a cell of the Year table. */
  lemma {:induction false} GroupedRowsAreYearCells(rows: seq<WideRow>, cats: seq<string>, t: nat)
    requires Rectangular(rows, cats) && NoDuplicates(cats)
    requires t < |GroupByYearCategory(Melt(rows, cats))|
    ensures var g, a := GroupByYear(rows, cats), GroupByYearCategory(Melt(rows, cats))[t];
      exists i, j :: 0 <= i < |g| && 0 <= j < |cats| && a == Obs(g[i].year, cats[j], g[i].cells[j])
  {
    var g, m := GroupByYear(rows, cats), Melt(rows, cats);
    var a := GroupByYearCategory(m)[t];
    assert (a.year, a.category) in Keys(m);
    var idx :| 0 <= idx < |m| && Keys(m)[idx] == (a.year, a.category);
    assert m[idx] in m;
    var r, j :| 0 <= r < |rows| && 0 <= j < |cats| && m[idx] == Obs(rows[r].year, cats[j], rows[r].cells[j]);
    assert Years(rows, YearOf)[r] == a.year;
    assert a.year in Years(rows, YearOf);
    var i :| 0 <= i < |g| && g[i].year == a.year;
    MeltKeyCount(rows, cats, a.year, j);
    assert a == Obs(g[i].year, cats[j], g[i].cells[j]);
  }

  /** Line 121 against line 112: the (Year, Category) Counts of a Year add up
      to the total of that Year's row in the Year table. */
  lemma {:induction false} GroupedCountsMatchYearRows(rows: seq<WideRow>, cats: seq<string>)
    requires Rectangular(rows, cats)
    ensures var g, a := GroupByYear(rows, cats), GroupByYearCategory(Melt(rows, cats));
      forall i :: 0 <= i < |g| ==> YearCount(a, g[i].year) == Sum(g[i].cells)
  {
    var g, m := GroupByYear(rows, cats), Melt(rows, cats);
    GroupByYearRowTotals(rows, cats);
    forall i | 0 <= i < |g|
      ensures YearCount(GroupByYearCategory(m), g[i].year) == Sum(g[i].cells)
    {
      GroupByYearCategoryConserves(m, g[i].year);
    }
  }
}
