# New England Airports Explorer — a Dafny model of its data core

The dashboard in `Final.py` reads a CSV file of airports and checks that the map columns
exist. It converts latitude, longitude and elevation to numbers and drops every incomplete
row. It then offers two selectors, airport type and ISO region, each with an `all` wildcard.
For a selection it shows:

- the matching rows;
- the five highest airports;
- two bar charts of airports per type;
- a map of the airports that have coordinates.

This project models that data path in Dafny and proves what each step keeps, drops and
orders. It leaves out the drawing.

## Structure

- `wrappers.dfy`: `Option` and `Result`.
- `selection.dfy`: `Select`, a boolean mask over a sequence, as pandas' `df[mask]`. Its
  lemmas cover order, composition, commutation and partition, plus `KeptIndices`, the
  positions a mask keeps.
- `uniques.dfy`: `Unique`, the distinct values in order of first appearance (`Series.unique`).
- `ranking.dfy`: a stable descending insertion sort, `SortDesc`, and its prefix `Top`.
  Together they give `nlargest(keep='first')` and the count order of `value_counts`.
- `frames.dfy`: the table. A `Frame` is a set of column labels and a sequence of rows, each
  row a map from label to `Cell`. A cell is `Text`, `Num` or `Missing`. `Blank` is
  `pd.DataFrame()`. `Canonical` is the shape of a successfully loaded table.
- `loader.dfy`: `load_data`. `Load` is the specification function and `LoadData` the method
  with the source's column loop.
- `filtering.dfy`: `filter_data`.
- `views.dfy`: the top five, `value_counts`, the map's re-filter and the selector options.
- `dashboard.dfy`: the script's top level. `Render` follows the code as written and
  `RenderChecked` is the corrected order; `Run` composes loading and rendering.
- `scenarios.dfy`: concrete inputs worked through the ranking and the counts.

The outside world becomes parameters:

- The file is `source: Option<seq<RawRow>>`. `None` means the file could not be opened or
  tokenised. Each `RawRow` maps header labels to `Option<string>`, with `None` where
  `csv.DictReader` fills a short line with its `restval`.
- `pd.to_numeric(..., errors='coerce')` is the parameter `parse: string -> Option<real>`.
  `None` stands for text that does not parse, and also for text that parses to NaN.

The script plans for a failed load, but one of its steps stops that plan from working.

- `load_data` catches every error. It reports the error and returns `pd.DataFrame()`
  (`Final.py:46-48`).
- The script has a branch that shows "The dataset is empty" (`Final.py:126-127`).
- The two selectors index `data['type']` and `data['iso_region']` first (`Final.py:123-124`).
  On the blank table, which has no columns, this raises a KeyError. So a failed load never
  reaches the "dataset is empty" branch.

As written, that branch is reached only when a load succeeds and every row is then dropped.
The model follows the code in `Render`. It records the discrepancy under "Findings" and uses
the corrected order in `Run`.

## Model

| member | source | states |
|---|---|---|
| Loader.Load | Final.py:20-48 | The value `load_data` computes. An unreadable source, a source without rows and a source without the three map columns are reported, in that order. The load succeeds exactly when the source is readable, has rows and has the three map columns: a cell that does not convert never aborts it. A successful load keeps the columns of `pd.DataFrame(rows)` and never has more rows than the source. |
| Loader.HasRequiredColumns | Final.py:36-38 | The required-column check holds exactly when longitude, latitude and elevation are all columns. |
| Loader.LoadData | Final.py:20-48 | Returns exactly the table `Load` describes with no error, or reports the error (unreadable source, no rows, or a missing longitude/latitude/elevation column) and returns the blank table. No error is reported exactly when the source is readable, has rows and has the three map columns. A table returned without an error is canonical. The numeric columns are converted one at a time by a loop. |
| Loader.Columns | Final.py:33 | The frame's columns are exactly the keys that occur in some raw row. |
| Loader.ToFrame | Final.py:33 | `pd.DataFrame(rows)` is well shaped, has one row per raw row and has the union of the keys as its columns. |
| Loader.Coerce | Final.py:43 | A coerced cell is a number or missing. It is a number exactly when it was one or was text that parses. |
| Loader.CoerceIdempotent | Final.py:42-43 | Coercing a cell twice is the same as coercing it once. |
| Loader.CoerceColumn | Final.py:43 | Overwriting one column keeps the frame's columns and number of rows. |
| Loader.CoerceColumns | Final.py:41-43 | Converting a list of columns keeps the frame's columns and number of rows. |
| Loader.CoerceColumnsCells | Final.py:41-43 | After the loop, a cell is coerced exactly when its column is in the list, and the frame stays well shaped. |
| Loader.DropNa | Final.py:45 | `dropna()` keeps the columns, and every row it keeps has no missing cell. |
| Loader.CoercedCellPresent | Final.py:41-45 | A converted cell is present exactly when its raw text exists and, in a numeric column, parses. It then holds the parsed number or the original text. |
| Loader.CoercedRowComplete | Final.py:41-45 | A converted row is complete exactly when its raw row has text everywhere and its three numeric texts parse. Such a row holds the parsed numbers and the original texts. |
| Loader.LoadKeepsParsedRows | Final.py:33-45 | The loaded rows are exactly the surviving raw rows, in their original order. In each, the numeric columns are parsed and the other columns are kept as text. |
| Loader.LoadIsCanonical | Final.py:36-45 | A successful load has the three map columns, a number in every numeric cell and text in every other cell. |
| Loader.LoadDropsMalformed | Final.py:41-45 | No raw row at a kept position has a missing or unparseable elevation. The loaded rows plus the raw rows with a bad elevation number at most the raw rows. |
| Frames.Where | Final.py:54-56 | Masking rows keeps the columns and preserves both well-shapedness and the loaded shape. |
| Frames.ColumnTexts | Final.py:65-81 | The text values of a column, row by row, as `value_counts` and `unique` see `data[c]`: never more values than rows, and each one taken from some row. |
| Frames.ColumnTextsCount | Final.py:65 | The number of times a type occurs in the type column is the number of rows the mask `type == t` selects. |
| Frames.ColumnTextsHas | Final.py:123-124 | Every text value of a column is among the values listed for it. |
| Frames.ColumnTextsLength | Final.py:65 | When every row has text in the column, the column has one value per row. |
| Selection.Select | Final.py:54-56 | A mask keeps a sub-multiset of the rows: exactly those that satisfy it, and no more of them than there were. |
| Selection.SelectKeepsOrder | Final.py:54-56 | The masked sequence is the input read at the strictly increasing positions the mask accepts. |
| Selection.SelectSelect | Final.py:53-56 | Applying two masks in turn is applying their conjunction. |
| Selection.SelectCommutes | Final.py:53-56 | Two masks commute. |
| Selection.SelectPartition | Final.py:45 | A mask and its negation split the rows between them. |
| Selection.SelectNone | Final.py:131 | A mask nothing satisfies gives the empty sequence. |
| Filtering.Matches | Final.py:53-56 | A row matches exactly when it passes the `type == airport_type` mask (unless that is `all`) and the `iso_region == location` mask (unless that is `all`). |
| Filtering.FilterData | Final.py:52-57 | The filtered table has the same columns. A row is in it exactly when it is in the input and matches the selection. The loaded shape is kept. Two wildcards return the input unchanged. |
| Filtering.FilterIsOneMask | Final.py:53-56 | The two successive masks equal the single mask "type matches unless `all` and region matches unless `all`". |
| Filtering.FilterKeepsOrder | Final.py:52-57 | Row k of the result is the input row at the k-th matching position, so order is kept and nothing is duplicated. |
| Filtering.FilterCommutes | Final.py:53-56 | Filtering by type then region equals filtering by region then type. |
| Filtering.FilterNoMatch | Final.py:52-57 | A selection no row matches yields the empty table with the same columns, not an error. |
| Ranking.Insert | Final.py:139 | Inserting into a ranking adds exactly that element. |
| Ranking.InsertDescending | Final.py:139 | Inserting into a descending sequence keeps it descending. |
| Ranking.SortDesc | Final.py:139 | The ranking is a permutation of its input, in descending key order. |
| Ranking.SortStable | Final.py:139 | Among elements of equal key, the ranking keeps input order. |
| Ranking.Top | Final.py:139 | The first n of the ranking: min(n, length) elements, descending, drawn from the input. |
| Ranking.TopLeavesOutNoLarger | Final.py:139 | No element left out ranks above an element kept. |
| Ranking.TopKeepsFirstOfTies | Final.py:139 | For every key, the kept elements of that key are the earliest such elements of the input (`keep='first'`). |
| Ranking.SortDistinct | Final.py:65 | Ranking a list without repetitions gives a list without repetitions. |
| Views.Top5 | Final.py:139 | `nlargest(5, 'elevation_ft')` has the same columns and min(5, rows) rows in descending elevation, taken from the table. No omitted row is higher than a shown row, and ties go to earlier rows. |
| Views.CountsSumToLength | Final.py:65 | The counts of the distinct values add up to the number of values. |
| Views.TotalSort | Final.py:65 | Ordering the bars does not change their total. |
| Views.ValueCounts | Final.py:65 | Gives one entry per distinct value, with its exact number of occurrences. The largest count comes first, and the counts add up to the number of values. |
| Views.TypeCounts | Final.py:65-81 | The same counts in `plot_bar_chart` (line 65) and `plot_chart` (line 81). Each bar's count is the number of rows of its type, and every type present has its bar. Types are distinct, counts descend, and on a loaded table they add up to the number of rows. |
| Views.Located | Final.py:150-151 | The map gets a table exactly when both coordinate columns exist. Its rows are those with both coordinates. |
| Views.LocatedIsNoOp | Final.py:150-151 | On a loaded table the map's re-filter returns the table unchanged. |
| Views.Options | Final.py:123-124 | The list is `all` followed by each text value of the column exactly once, in order of first appearance. It is a KeyError (`None`) exactly when the column is absent. |
| Uniques.Unique | Final.py:123-124 | Gives the same values as the input, without repetitions. |
| Uniques.UniqueFirstSeen | Final.py:123-124 | The distinct values come in the order of their first occurrence. |
| Dashboard.LoadedTable | Final.py:46-48 | The script's table is the blank one exactly when the load failed, and is otherwise canonical. |
| Dashboard.PlotCounts | Final.py:61-65 | Each chart warns exactly on an empty table. On a loaded table its counts add up to the number of rows. |
| Dashboard.ShowFiltered | Final.py:129-175 | A non-empty loaded table ends in either the "no matches" warning or the shown views. The shown table is a loaded table with rows and the input's columns. The top five is `Top5` of the shown table, and the matplotlib chart is `TypeCounts` of it. |
| Dashboard.Render | Final.py:123-136 | As written, the script stops with a KeyError exactly when the `type` or `iso_region` column is missing, because the selectors come first. A table with both columns and no rows shows "dataset is empty". |
| Dashboard.FailedLoadCrashes | Final.py:123-127 | As written, every failed load ends in a KeyError on `type` instead of the "dataset is empty" message. |
| Dashboard.RenderChecked | Final.py:126-136 | Corrected order: a table without rows reports "dataset is empty". A table with rows behaves as written. |
| Dashboard.FailedLoadReportsEmpty | Final.py:46-48 | With the corrected order, a failed load is reported as an empty dataset. |
| Dashboard.Run | Final.py:102-175 | The whole script for one source and one selection, with the emptiness check moved before the selectors (the corrected order, not the order as written). A failed load shows "dataset is empty". A loaded table with rows is rendered as written. A KeyError happens only on a loaded table with rows that lacks `type` or `iso_region`. |
| Dashboard.RunShowsSelection | Final.py:126-175 | On a loaded table with rows, the warning appears exactly when no row matches. Otherwise the shown table is the matching rows in order and the map draws all of them. The top five is `Top5` of the shown rows, and both charts show `TypeCounts` of them: each bar is its type's row count, and the bars add up to the shown rows. The result is never "dataset is empty" or a KeyError. |
| Scenarios.Top5Example | Final.py:139 | Airports at 10, 500 and 200 ft are shown as 500, 200, 10. |
| Scenarios.CountsExample | Final.py:65 | Two heliports and one small airport give the bars (heliport, 2) and (small_airport, 1). |
| Scenarios.UniqueExample | Final.py:123 | The type options of that table are heliport, then small_airport. |

## Left out

- Drawing, in any form, is not modelled: Streamlit widgets, page text, the background CSS,
  matplotlib, plotly and pydeck. Only the data each of them receives is modelled.
- `st.cache_data` is not modelled. The model loads once per run, as a cached first run does.
- Opening the file and CSV tokenising are a parameter. An unreadable file or a malformed CSV
  is the `None` source.
- DictReader's `restkey` is not modelled. DictReader stores the extra cells of a line longer
  than the header as a list under the key `None`. `pd.DataFrame(rows)` (`Final.py:33`) then has
  a `None` column that is NaN in every other row, so `dropna()` (`Final.py:45`) keeps only the
  long lines. The model has no such column and keeps the other rows.
- `pd.to_numeric` is the abstract `parse`. Floating-point parsing, rounding and IEEE values
  are not modelled, and text that parses to NaN must map to `None`.
- The pandas index labels are not modelled. Rows are identified by position.
- Filtering.FilterData: the KeyError pandas raises when a restricted column is absent is a
  precondition rather than an error value. In the dashboard the selectors raise that KeyError
  first, so the precondition always holds when `filter_data` is reached.
- Views.TypeCounts: requires the `type` column, for the same reason.
- Views.Top5: requires a numeric elevation in every row, since `nlargest` refuses a
  non-numeric column. Every loaded table has one.
- Views.ValueCounts: equal counts are put in order of first appearance. pandas does not
  promise an order among equal counts, so the contract only states that counts descend.
- Views.Options: lists only text values. `Series.unique()` also lists NaN and numbers, so on a
  column with a missing or numeric cell pandas shows more options than the model. No table
  `load_data` returns has such a cell in `type` or `iso_region`, since every non-numeric cell
  of a loaded table is text.
- Views.Elevation: its `0.0` fallback for a non-numeric cell cannot be reached on a loaded
  table.
- The loader never checks the `type` and `iso_region` columns, and a file without them
  loads. If some rows survive, `Render` and `RenderChecked` then end in a KeyError, as the
  script does. If no row survives, `Render` still ends in a KeyError, but `RenderChecked`
  reports "dataset is empty".

## Findings

| source | as written | input that shows it | evidently intended | confidence | as-written member | corrected member |
|---|---|---|---|---|---|---|
| Final.py:123-127 | The selectors read `data['type']` and `data['iso_region']` before `data.empty` is tested. | A missing file, a file with a header and no rows, or a file without `elevation_ft`: `load_data` returns `pd.DataFrame()`, which has no `type` column, so line 123 raises a KeyError. | The "dataset is empty" message at line 127 is shown for every failed load. | not executed | Dashboard.Render, Dashboard.FailedLoadCrashes | Dashboard.RenderChecked, Dashboard.FailedLoadReportsEmpty |
