# India EV market dashboards — the table pipeline in Dafny

Two Streamlit dashboards read CSV tables of Indian electric-vehicle data with
pandas and chart them. This project models the table logic between loading
and charting as pure Dafny functions, and proves what those frames contain.

- **EV_dashboard.py**, category table (`EvCategories`, ev_categories.dfy):
  - the placeholder rows with Year 0 are dropped;
  - the slider limits are the smallest and largest Year;
  - the chosen inclusive Year range is kept;
  - the wide table (one count column per vehicle category) is melted into
    long (Year, Category, Count) rows;
  - the kept rows are summed by Year, and the melted rows by (Year, Category).
- **EV_dashboard.py**, maker map (`EvMakerMap`, ev_maker_map.dfy):
  - the first two columns of the maker table become State and EV_Maker;
  - State is title-cased;
  - the makers are inner-merged on State with the fixed eleven-entry
    `state_coords` table of latitudes and longitudes.
- **streamlitappl.py**, sales table (`SalesApp`, sales_app.dfy):
  - the slider limits are the smallest and largest Year;
  - the chosen inclusive Year range is kept;
  - EVSales is summed by Year.
- Shared pieces:
  - `Frames` (frames.dfy): mask selection `df[mask]`, a column's minimum and
    maximum, the Year column with its slider limits and range filter (used by
    both dashboards), and the ascending distinct keys a pandas `groupby`
    builds;
  - `Text` (text.dfy): Python's `str.title()` and Python's ordering of
    `str` values, both over ASCII.

Tables are sequences of row datatypes. Years are `int` and counts are `nat`.
The category columns of the wide table are an explicit list of names. The
slider's value is a pair of parameters `lo`, `hi`.

Behaviour of the code worth knowing:
- A range with `lo > hi` raises nothing. The mask simply selects no row
  (`Frames.ReversedRangeIsEmpty`).
- A maker whose State is not in `state_coords` is dropped without any report.
  The number dropped is what `EvMakerMap.GeoJoin` counts.
- `groupby(['Year', 'Category'])` sorts Category names lexicographically,
  not by first appearance (`EvCategories.KeyLessIsStrictTotalOrder`,
  `Text.LexLessMeans`).
- The number of map points is bounded by the number of makers, not by the
  number of `state_coords` entries: one State can have many makers
  (`EvMakerMap.JoinOutnumbersTable`).

## Model

| member | source | states |
|---|---|---|
| Frames.Where | EV_dashboard.py:82 | Selecting with a boolean mask keeps exactly the rows the mask accepts: in their original order (a subsequence), and each as many times as it occurs |
| Frames.WhereKeepsAll | EV_dashboard.py:100 | A mask that accepts every row selects the whole table unchanged |
| Frames.WhereIdempotent | EV_dashboard.py:82 | Applying the same mask twice selects the same rows as applying it once |
| Frames.WhereMonotone | EV_dashboard.py:100 | A weaker mask keeps, in order, every row that a stronger mask keeps |
| Frames.WherePartition | EV_dashboard.py:150 | A mask and its negation split the rows between them: their sizes add up to the table's size |
| Frames.Bounds | EV_dashboard.py:85 | `min()` and `max()` of a column: there are none exactly when the column is empty; otherwise both occur in the column and bound every value |
| Frames.Years | EV_dashboard.py:85 | The Year column has one entry per row: that row's Year (also `df['Year']` at streamlitappl.py:29-30) |
| Frames.YearBounds | EV_dashboard.py:85-86 | The slider limits exist exactly when the table is non-empty; then min ≤ max, both are Years of some row, and every row's Year lies between them (also `min_year`, `max_year` at streamlitappl.py:29-30) |
| Frames.InYearRange | EV_dashboard.py:100 | The range filter keeps exactly the rows with lo ≤ Year ≤ hi, in their original order, each as many times as it occurs (also `filtered_df` at streamlitappl.py:33) |
| Frames.InYearRangeCons | EV_dashboard.py:100 | The filter works row by row: the first row is kept exactly when its Year is in the range |
| Frames.DefaultRangeKeepsAll | EV_dashboard.py:85-100 | With the slider at its default (min, max), the filter returns the table unchanged (also streamlitappl.py:29-33) |
| Frames.InYearRangeMonotone | EV_dashboard.py:100 | Widening the range never drops a row the narrower range keeps, and never shrinks the result |
| Frames.ReversedRangeIsEmpty | EV_dashboard.py:100 | A range with hi < lo raises nothing and selects no row |
| Frames.SortedKeys | EV_dashboard.py:112 | The group index holds exactly the distinct key values of the column |
| Frames.SortedKeysSorted | EV_dashboard.py:112 | Under any strict total order, the group index is strictly ascending, so no key repeats |
| Frames.InsertSorted | EV_dashboard.py:112 | Adding a key to a strictly ascending index keeps it strictly ascending |
| Frames.SortedHasNoDuplicates | EV_dashboard.py:112 | A strictly ascending index has no repeated key |
| Frames.IntLessIsStrictTotalOrder | EV_dashboard.py:112 | `<` on Years is a strict total order, so `groupby('Year')` sorts by it |
| Text.ToUpper | EV_dashboard.py:132 | Upper-casing turns a letter into the upper-case letter at the same alphabet position and keeps every non-letter |
| Text.ToLower | EV_dashboard.py:132 | Lower-casing turns a letter into the lower-case letter at the same alphabet position and keeps every non-letter |
| Text.Title | EV_dashboard.py:132 | `str.title()` keeps the length; a letter right after a letter becomes lower case, any other letter upper case, and non-letters are kept |
| Text.TitleFixesTitled | EV_dashboard.py:132 | `str.title()` leaves a string unchanged exactly when the string is already in title case |
| Text.TitleIdempotent | EV_dashboard.py:132 | The result of `str.title()` is in title case, so calling it a second time changes nothing |
| Text.TitleIgnoresCase | EV_dashboard.py:132 | Two strings that differ only in letter case title-case to the same string |
| Text.LowerDecidesLetter | EV_dashboard.py:132 | Characters with the same lower-case form are both letters or both not, and have the same upper-case form |
| Text.TitledWord | EV_dashboard.py:134-146 | A capitalized word is in title case |
| Text.TitledWords | EV_dashboard.py:134-146 | Two capitalized words joined by a space are in title case |
| Text.LexLessIrreflexive | EV_dashboard.py:121 | No string sorts before itself |
| Text.LexLessTransitive | EV_dashboard.py:121 | The ordering of strings is transitive |
| Text.LexLessTotal | EV_dashboard.py:121 | Of two distinct strings, one sorts before the other |
| Text.LexLessMeans | EV_dashboard.py:121 | The recursive string order agrees with its closed form: a proper prefix comes first, and otherwise the first differing character decides |
| EvCategories.Clean | EV_dashboard.py:82 | Cleaning keeps exactly the rows whose Year is not 0, in their original order, each as many times as it occurs |
| EvCategories.CleanIdempotent | EV_dashboard.py:82 | Cleaning a cleaned table changes nothing |
| EvCategories.Melt | EV_dashboard.py:104 | The melt emits exactly rows × categories observations, zero counts kept, and an observation is in it exactly when it is (Year of some row, some category, that row's cell for the category) |
| EvCategories.MeltAt | EV_dashboard.py:104 | The melt is column after column: position j·rows + i holds row i's Year, category j and row i's cell for j |
| EvCategories.MeltConservesYearTotal | EV_dashboard.py:104 | For every Year, the melted Counts add up to the total of all category cells over the wide rows of that Year |
| EvCategories.MeltKeyCount | EV_dashboard.py:104 | With distinct category names, the melted Counts of (Year, category) add up to that category column's total over the rows of the Year |
| EvCategories.ColumnTotals | EV_dashboard.py:112 | The summed row of a Year has one cell per category, each cell is that column's sum over the Year's rows, and the cells add up to the Year's total over all category columns |
| EvCategories.CellsFrom | EV_dashboard.py:112 | Cells holding the column sums of columns k onwards add up to the Year's total over those columns |
| EvCategories.GroupByYear | EV_dashboard.py:112 | One row per distinct Year, in strictly ascending order, covering every Year of the input and no other; each cell is the column's sum over that Year's rows |
| EvCategories.GroupByYearRowTotals | EV_dashboard.py:104-112 | The cells of a grouped row add up to the Year's total over the wide rows, which is also the Year's total over the melted rows |
| EvCategories.KeyLessIsStrictTotalOrder | EV_dashboard.py:121 | Ordering by Year, then by Category name, is a strict total order |
| EvCategories.Keys | EV_dashboard.py:121 | The (Year, Category) key of each observation, one per observation |
| EvCategories.Aggregate | EV_dashboard.py:121 | One summed row per key, in key order, whose Count is the sum over the observations with that key |
| EvCategories.GroupByYearCategory | EV_dashboard.py:121 | One row per distinct (Year, Category) pair, strictly ascending by Year and then by Category name, with no other pairs; each Count is the sum over that pair's observations |
| EvCategories.GroupByYearCategoryConserves | EV_dashboard.py:121 | For every Year, grouping by (Year, Category) neither adds nor loses counts |
| EvCategories.AggregateYearCount | EV_dashboard.py:121 | Summing over distinct keys that cover every observation keeps each Year's total |
| EvCategories.YearCellsAreGrouped | EV_dashboard.py:112-121 | Every cell (Year, category) of the Year table appears as a row of the (Year, Category) table with the same Count |
| EvCategories.GroupedRowsAreYearCells | EV_dashboard.py:112-121 | Every row of the (Year, Category) table is a cell of the Year table |
| EvCategories.GroupedCountsMatchYearRows | EV_dashboard.py:112-121 | For each Year, the (Year, Category) Counts add up to the cells of that Year's row in the Year table |
| EvMakerMap.SelectMakers | EV_dashboard.py:130-132 | With fewer than two columns, renaming the columns fails. Otherwise each maker keeps its name, and its State is the row's State cell in title case, differing from it only in letter case |
| EvMakerMap.TitleKeepsLetters | EV_dashboard.py:132 | Title-casing changes only the case of letters |
| EvMakerMap.Lookup | EV_dashboard.py:134-150 | A State has coordinates exactly when some table entry has that key; the coordinates are that entry's |
| EvMakerMap.Located | EV_dashboard.py:150 | The reference join has one point per maker, carrying that maker's State, name and looked-up coordinates |
| EvMakerMap.MatchesWithUniqueKeys | EV_dashboard.py:150 | With unique keys, the merge gives a maker at most one point: none when its State is not a key |
| EvMakerMap.MergeWithUniqueKeys | EV_dashboard.py:150 | With unique keys, the inner merge equals the reference: keep the makers whose State is a key, then attach the coordinates |
| EvMakerMap.MergeSpec | EV_dashboard.py:150 | With unique keys, the merge keeps the matching makers in order with their coordinates; the kept and dropped makers add up to all makers |
| EvMakerMap.MergeAppend | EV_dashboard.py:150 | The merge works maker by maker: merging two tables of makers one after the other concatenates the results |
| EvMakerMap.MergeOneMore | EV_dashboard.py:150 | With unique keys, one more maker adds nothing when its State is not a key, and exactly its own point, at the end, when it is |
| EvMakerMap.MergeMembers | EV_dashboard.py:150 | For any table, unique keys or not, a point is in the inner merge exactly when it pairs some maker with an entry whose key is that maker's State |
| EvMakerMap.MatchesMembers | EV_dashboard.py:150 | The merged rows of one maker are exactly its pairings with the entries whose key is its State |
| EvMakerMap.StateCoordsKeysAreUnique | EV_dashboard.py:134-146 | No State is listed twice in `state_coords` |
| EvMakerMap.StateCoordsKeysAreTitled | EV_dashboard.py:132-146 | Every key of `state_coords` is already in title case, so title-casing never moves a key |
| EvMakerMap.GeoJoin | EV_dashboard.py:150 | The map points are, in maker order, exactly the makers whose State is a key, each with that key's Lat and Lon. Points plus dropped makers equal the makers, so points ≤ makers |
| EvMakerMap.GeoJoinOneMore | EV_dashboard.py:150 | One more maker adds nothing when its State is unknown, and exactly its own point at the end otherwise |
| EvMakerMap.AllMappedAllPlotted | EV_dashboard.py:150 | When every maker's State is a key, every maker reaches the map |
| EvMakerMap.JoinOutnumbersTable | EV_dashboard.py:134-150 | Twelve makers in Delhi give twelve map points, more than the eleven `state_coords` entries |
| EvMakerMap.MappedMakerIsPlotted | EV_dashboard.py:150 | A maker whose State is a key appears on the map with that key's coordinates |
| EvMakerMap.LookupUniqueKey | EV_dashboard.py:134-150 | With unique keys, looking up an entry's key returns that entry's coordinates |
| EvMakerMap.MapData | EV_dashboard.py:130-150 | The map pipeline fails exactly when the maker table has fewer than two columns. Otherwise its points are, in row order, the prepared makers whose title-cased State is a key, each once and with that key's coordinates; so there are at most as many points as maker rows |
| EvMakerMap.CaseVariantIsPlotted | EV_dashboard.py:130-150 | A maker row whose State differs from a key only in letter case ("tamil nadu") reaches the map with that key's coordinates |
| SalesApp.Summarize | streamlitappl.py:48 | One summed row per Year key, in key order, whose total is the EVSales of that Year's rows |
| SalesApp.YearlySales | streamlitappl.py:48 | One row per distinct Year of the input, strictly ascending, with no other Years; each total is the EVSales of that Year's rows added up |
| SalesApp.YearKeysSorted | streamlitappl.py:48 | The Year index of the groupby is strictly ascending |
| SalesApp.SummarizeCons | streamlitappl.py:48 | With distinct keys, one more row adds its EVSales to the summary exactly once when its Year is a key, and nothing otherwise |
| SalesApp.SummarizeConserves | streamlitappl.py:48 | Summing over distinct Year keys that cover every row keeps the grand total |
| SalesApp.YearlySalesConserveTotal | streamlitappl.py:48 | The yearly totals add up to the EVSales of all rows of `filtered_df` |
| SalesApp.ChartStaysInRange | streamlitappl.py:33-48 | Every Year in `yearly_sales` lies within the chosen range, and its total equals that Year's EVSales over the whole table |
| SalesApp.FilteredYear | streamlitappl.py:33-48 | Inside the range, the filter keeps all of a Year's EVSales |

## Left out

- Page setup, sidebar widgets, theme switching and CSS and markdown injection
  are not modelled: they are user interface. The slider is modelled only as
  the values `lo` and `hi` it passes on, with its default (min, max).
- Charts are not modelled: the plotly bar, line and `scatter_geo` figures, the
  `range_x` padding of `max() + 500`, and the seaborn and matplotlib plots.
  They draw through libraries whose code is not part of this model.
- `pd.read_csv`, `pd.to_numeric` and `astype(str)` are not modelled: they are
  file input and type coercion. The model starts from rows already in memory,
  with integer Years, string names and non-negative counts.
- Missing values (NaN) are not modelled: no Year, count or State is missing.
  pandas' `groupby` would drop rows whose key is missing, and `str.title()`
  would pass a missing State through unchanged.
- The sums by Year (EV_dashboard.py:112, EV_dashboard.py:121,
  streamlitappl.py:48) add int64 columns, which pandas wraps around silently
  on overflow. The model's sums are unbounded `nat`s, so it does not capture
  that wrap-around.
- Lat and Lon are Dafny `real`s written exactly as in `state_coords`. They
  are carried through the merge and never computed with, so floating point
  plays no part.
- Text.Title: covers ASCII letters only. Python's `str.title()` also cases
  non-ASCII letters, and so does its notion of "after a letter".
- Non-numeric columns of the category table are not modelled: the wide rows
  hold the Year and the count columns only, which is what `sum(numeric_only=True)`
  adds up.
- The category multiselect (EV_dashboard.py:113) is not modelled: it only
  chooses which summed columns are drawn.
- `vehicle_class_data.head(10)` (EV_dashboard.py:183) is not modelled: it is a
  table display.
- data.py is not part of this model: it wraps `dropna`, `to_datetime`,
  console output and plotting, with no logic of its own.
- EvMakerMap.Merge: orders the output by maker, the order pandas documents
  for an inner merge. Some older pandas versions grouped the output by key
  instead.
- EvMakerMap.SelectMakers: takes a maker table whose rows all have the same
  width, as a CSV frame does.
