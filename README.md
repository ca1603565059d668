# Global Volcano Explorer — verified model of the data core

The Global Volcano Explorer is a Streamlit page over the Smithsonian volcano
spreadsheet. Behind its widgets sits a small data pipeline:

- `load_data` normalises the table. It trims and lower-cases the column names,
  turns the eruption texts "Unknown", "?", "No data" and "" into missing
  values, and derives a `year erupted` column from the first four-digit run of
  the eruption text.
- Four query pages select rows with boolean masks: by region, minimum
  elevation, year range, tectonic setting and volcano type, and by whether the
  eruption is known.
- The pages summarise what they select:
  - `count_and_average_height` gives a count and a mean elevation;
  - `get_named_volcanoes` lists the names containing "Mount";
  - `value_counts().head(10)` gives the ten most common volcano types.

This project models that pipeline in Dafny. It proves what each step promises.

## Modules

- `Base` (base.dfy): `Option`, `Result`, the subsequence order, and `Filter`.
  `Filter` is the model of a mask selection `df[mask]`: it keeps the rows that
  pass, in their order. The file also holds the laws that filters obey.
- `Strings` (strings.dfy): Python's `str.strip()` (its full whitespace set) and
  `str.lower()` on ASCII letters, the cleaned column names, the substring test
  `sub in s`, and the search for `\d{4}` with its four-digit value.
- `Loader` (loader.dfy): cells, tables and `load_data`.
  - `Load` is the pure function.
  - `Frame` is the data frame whose columns `Normalize` reassigns in place, one
    assignment per source line.
- `Tally` (tally.dfy): `value_counts()` counts the categories of a column,
  drops missing ones, and sorts them by count with a stable insertion sort.
  `Head` is `.head(n)`.
- `Queries` (queries.dfy): the typed rows, the row masks of the four query
  pages, `count_and_average_height`, `get_named_volcanoes`, the default of the
  year slider, and `Query4`. `Query4` is a method that narrows `filtered` step
  by step, as the page does.

## Model

| member | source | states |
|---|---|---|
| Strings.Strip | CS230_Final.py:42 | the result has no whitespace at either end; it is the infix of the name after its leading whitespace, and only whitespace lies around it |
| Strings.StripTrimmed | CS230_Final.py:42 | a name with no surrounding whitespace is left unchanged by `strip()` |
| Strings.LowerChar | CS230_Final.py:42 | a capital becomes the lower-case letter at the same place in the alphabet; every other character is unchanged, so whitespace is kept and no capital remains |
| Strings.Lower | CS230_Final.py:42 | `lower()` keeps the length, lowers each character on its own, and leaves no capital |
| Strings.CleanName | CS230_Final.py:42 | `name.strip().lower()` is the stripped name with each character lowered: the same length, character for character. It therefore has no whitespace at either end, no capital, and is no longer than the name |
| Strings.CleanNameLetters | CS230_Final.py:42 | the cleaned name's characters are the name's characters after its leading whitespace, each lowered |
| Strings.CleanNames | CS230_Final.py:42 | the cleaned name list has one trimmed, cleaned name per column, in column order |
| Strings.CleanNameShape | CS230_Final.py:42 | a cleaned name cleans to itself |
| Strings.CleanNamesIdempotent | CS230_Final.py:42 | cleaning the cleaned column names again changes nothing |
| Strings.FirstRunFrom | CS230_Final.py:44 | the index found starts four digits and no earlier index does; None means no index starts four digits |
| Strings.RunValueRoundTrip | CS230_Final.py:44 | writing the value of a four-digit run with four digits gives back the run |
| Strings.FourDigitsRoundTrip | CS230_Final.py:44 | reading back a value written with four digits gives the value |
| Strings.ExtractYear | CS230_Final.py:44 | there is no year exactly when the text has no run of four digits; a year is at most 9999 |
| Strings.ExtractYearLeftmost | CS230_Final.py:44 | the year is the value of the leftmost four-digit run |
| Strings.ExtractYearNoRun | CS230_Final.py:44 | a text with no four adjacent digits yields no year |
| Strings.ContainsOccurs | CS230_Final.py:50 | `sub in s` holds exactly when `sub` occurs at some index of `s` |
| Loader.ReplaceSentinel | CS230_Final.py:43 | a cell becomes missing exactly when it was missing or a sentinel text; any other cell is unchanged |
| Loader.YearCell | CS230_Final.py:44 | the derived year is missing or a whole number in 0..9999; it is present exactly when the cell is text with a four-digit run |
| Loader.YearCellValue | CS230_Final.py:44 | the derived year is the value of the leftmost four-digit run of the text |
| Loader.SentinelHasNoYear | CS230_Final.py:43-44 | no sentinel text has a four-digit run |
| Loader.YearIgnoresSentinels | CS230_Final.py:43-44 | replacing sentinels before deriving the year does not change the year |
| Loader.SentinelRule | CS230_Final.py:43-44 | a non-missing cell is nulled exactly when it is a sentinel; then its year is missing; other cells are unchanged |
| Loader.IndexOf | CS230_Final.py:43 | the position found holds the name, and no earlier position does |
| Loader.CleanColumns | CS230_Final.py:42 | renaming keeps the rows; the new names are the old names cleaned one by one, and they clean to themselves |
| Loader.HeaderExample | CS230_Final.py:42 | the header " Last Known Eruption" with a trailing tab cleans to `last known eruption` |
| Loader.ReplaceInRow | CS230_Final.py:43 | in a row, each eruption cell follows the sentinel rule: a sentinel becomes missing and any other text is kept. No sentinel remains, and every other cell is unchanged |
| Loader.ReplaceSentinels | CS230_Final.py:43 | the sentinel pass keeps the columns and the row count, and the table stays rectangular |
| Loader.ReplaceSentinelsCells | CS230_Final.py:43 | after the sentinel pass each eruption cell of the table follows the sentinel rule, so no sentinel remains and any other text is kept. Every other cell is as it was |
| Loader.AddYearToRow | CS230_Final.py:44 | in a row, every `year erupted` cell, including a newly appended one, holds the year of the eruption cell; every other original cell is unchanged |
| Loader.AddYear | CS230_Final.py:44 | the year pass gives the columns plus `year erupted` when it was missing, keeps the row count, and stays rectangular |
| Loader.AddYearCells | CS230_Final.py:44 | after the year pass every `year erupted` cell holds the year of its row's eruption cell, and every other cell is as it was |
| Loader.WithYearColumn | CS230_Final.py:44 | the new columns contain `year erupted` and begin with the old columns. They are the old columns when `year erupted` was there already; otherwise exactly one column is added |
| Loader.Load | CS230_Final.py:42-44 | loading succeeds exactly when the cleaned names hold the eruption column once. Otherwise it fails with a missing-column or duplicate-column error. On success the table stays rectangular, keeps its row count, and has the cleaned names plus `year erupted` |
| Loader.YearColumnClean | CS230_Final.py:42-44 | the name `year erupted` is already clean and differs from the eruption column |
| Loader.CleanRowCell | CS230_Final.py:43-44 | after the two row passes, each cell is the cleaned eruption cell, the derived year, or the unchanged original |
| Loader.LoadCells | CS230_Final.py:42-44 | only the eruption column (by the sentinel rule) and `year erupted` (the year of the original eruption text) change. Every other cell keeps its value. The year is appended as a last column when there was none, and no other column is added |
| Loader.ReplaceTwice | CS230_Final.py:43 | the sentinel pass leaves a loaded row unchanged |
| Loader.AddYearTwice | CS230_Final.py:44 | deriving the year again from a loaded row puts the same year back |
| Loader.LoadedColumns | CS230_Final.py:42-44 | the loaded column names clean to themselves and hold the eruption column once, at the same index |
| Loader.LoadedTableColumns | CS230_Final.py:42-44 | a loaded table loads again, with the same columns |
| Loader.LoadTwiceRow | CS230_Final.py:42-44 | loading again leaves each row unchanged |
| Loader.LoadTwiceRows | CS230_Final.py:42-44 | loading again leaves all rows unchanged |
| Loader.LoadIdempotent | CS230_Final.py:42-44 | loading an already loaded table gives the same table |
| Loader.YearExamples | CS230_Final.py:43-44 | "1991 (Pinatubo)" gives 1991, "12345" gives 1234 and "1200 BCE" gives 1200; "Unknown" and "" give no year |
| Loader.Frame.Normalize | CS230_Final.py:42-44 | after the in-place update the frame equals `Load` of the old frame. On an error, the steps already taken remain: cleaned names, plus the sentinel pass for a duplicate column |
| Base.Filter | CS230_Final.py:34 | a selection is no longer than the table, keeps its order, and keeps each passing row as often as it occurs, and no other row |
| Base.FilterMembers | CS230_Final.py:34 | a row is selected exactly when it is in the table and passes the mask |
| Base.FilterCongruent | CS230_Final.py:34 | masks that agree on the table's rows give the same selection |
| Base.FilterKeepsAll | CS230_Final.py:34 | a mask every row passes selects the whole table |
| Base.FilterAbsorbs | CS230_Final.py:124-128 | filtering again by a weaker mask changes nothing |
| Base.FilterConjunction | CS230_Final.py:127-128 | one mask `p & q` gives the same selection as `p` followed by `q` |
| Base.FilterCommutes | CS230_Final.py:124-128 | two masks applied in either order give the same selection |
| Base.SubsequenceTrans | CS230_Final.py:188-194 | a selection of a selection is a subsequence of the table |
| Tally.Occurrences | CS230_Final.py:196 | a category count is at most the column length |
| Tally.OccurrencesCount | CS230_Final.py:196 | the count equals how often the category occurs; it is positive exactly when the category is present |
| Tally.Distinct | CS230_Final.py:196 | the categories are exactly the non-missing values of the column, each listed once |
| Tally.CountsOf | CS230_Final.py:196 | each category is paired with its number of occurrences |
| Tally.Insert | CS230_Final.py:196 | inserting into a sorted list keeps it sorted by non-increasing count and adds exactly the new entry |
| Tally.SortByCount | CS230_Final.py:196 | the result is sorted by non-increasing count and is a permutation of the input |
| Tally.ValueCounts | CS230_Final.py:196 | `value_counts()` is sorted by non-increasing count and holds exactly one entry per distinct category, paired with its count (`ValueCountsSpec` states the consequences) |
| Tally.Head | CS230_Final.py:200 | `.head(n)` is a prefix of at most `n` entries; it is everything when there are fewer than `n` |
| Tally.SumSort | CS230_Final.py:196 | sorting keeps the sum of the counts |
| Tally.CountsOfBound | CS230_Final.py:196 | distinct categories together count at most the column length |
| Tally.ValueCountsSpec | CS230_Final.py:196 | `value_counts()` lists every category of the column once, with its true positive count, in non-increasing order. Its counts sum to at most the column length |
| Tally.TopCountsSpec | CS230_Final.py:196-200 | the top ten have at most 10 entries, non-increasing true counts, distinct keys and a sum at most the row count. A category left out makes the list full, and it occurs no more often than the last entry shown |
| Queries.RegionSelection | CS230_Final.py:97 | for the placeholder, the selection is the table itself, every row in order with repeats kept. Otherwise it is the region filter `ByRegion`: in order, exactly the rows of the chosen region |
| Queries.ByRegion | CS230_Final.py:34 | `df[df["volcanic region"] == region]` keeps order and keeps exactly the rows of that region |
| Queries.ByMinElevation | CS230_Final.py:125 | `df[df["elevation (m)"] >= height]` keeps order and keeps exactly the rows with a known elevation ≥ height |
| Queries.ByYearRange | CS230_Final.py:153 | `between(lo, hi)` keeps order and keeps exactly the rows with a known year from lo to hi inclusive |
| Queries.BySetting | CS230_Final.py:154 | the setting mask keeps order and keeps exactly the rows of that tectonic setting |
| Queries.ByTypes | CS230_Final.py:194 | `isin(types)` keeps order and keeps exactly the rows whose known type is one of `types` |
| Queries.KnownOnly | CS230_Final.py:190 | `notna()` keeps order and keeps exactly the rows with a known eruption |
| Queries.RegionCount | CS230_Final.py:33-34 | a region selection has as many rows as the region column has entries equal to that region |
| Queries.Query1Named | CS230_Final.py:97-104 | each name that query 1 lists contains "Mount" and belongs to a row of the chosen region |
| Queries.CountAndAverageHeight | CS230_Final.py:32-35 | known elevations ≤ count ≤ table length |
| Queries.CountAndAverageHeightSpec | CS230_Final.py:32-35 | with "All" the summary covers the whole table. With any other string, the count is the number of rows of that region, and the elevation sum and known count are taken over those rows only |
| Queries.Mean | CS230_Final.py:35 | the mean exists exactly when an elevation is known; it times the known count gives the sum |
| Queries.ElevationTotal | CS230_Final.py:35 | the elevation sum is 0 when no elevation is known |
| Queries.ElevationKnown | CS230_Final.py:35 | at most one known elevation per row |
| Queries.Summarize | CS230_Final.py:35 | the count is the number of rows and bounds the known elevations; with none known the sum is 0 and there is no mean |
| Queries.ElevationBound | CS230_Final.py:126-130 | when all rows are at least `height`, all elevations are known and their sum is at least `height` per row |
| Queries.Query2Selection | CS230_Final.py:124-128 | the selection of query 2 is an order-preserving part of the table (`Query2Members` gives exactly which rows) |
| Queries.Query2Members | CS230_Final.py:124-128 | query 2 keeps order and keeps exactly the rows with a known elevation ≥ height. With a region chosen, the rows must also lie in it |
| Queries.Query2Order | CS230_Final.py:127-128 | the combined mask is region then elevation, and also elevation then region |
| Queries.RegionElevationCommute | CS230_Final.py:124-128 | the region filter and the elevation filter commute |
| Queries.Query2Refilter | CS230_Final.py:124-128 | filtering the result again with a threshold ≤ height changes nothing |
| Queries.Query2 | CS230_Final.py:124-130 | the page as written: the selection keeps order, and the count it reports bounds the known elevations and is at most the number of rows shown |
| Queries.Query2PlaceholderCount | CS230_Final.py:124-130 | as written, with the placeholder selected, the count is the number of selected rows whose region is the placeholder string |
| Queries.Query2PlaceholderExample | CS230_Final.py:124-130 | one African 3000 m row, no region, threshold 2000: one row is shown but the count is 0 and there is no mean |
| Queries.Query2Corrected | CS230_Final.py:124-130 | the corrected page shows the query 2 selection, and its summary is that of exactly the rows shown: their count, and the sum and number of their elevations for the mean. All of those elevations are known, and their sum is at least height × count, so the mean is at least the threshold |
| Queries.Query2CorrectedSummary | CS230_Final.py:124-130 | summarising the selection with "All" in place of the placeholder gives the summary of exactly the rows shown; all of their elevations are known, and the sum is at least height × count |
| Queries.Query2CorrectedAgrees | CS230_Final.py:124-130 | with a region chosen, the corrected page equals the page as written |
| Queries.Query2ExampleSelection | CS230_Final.py:124-128 | Africa 100 m and 3000 m with Asia 5000 m: Africa at ≥ 2000 m selects the second row alone |
| Queries.Query2Example | CS230_Final.py:124-130 | in the same example, count 1 and mean 3000 |
| Queries.MinYear | CS230_Final.py:147 | the minimum is the year of some row and no later than any known year; it is absent exactly when no year is known |
| Queries.EarliestYear | CS230_Final.py:147 | the slider default is 0 when no year is known; otherwise it is the smallest known year |
| Queries.Query3Selection | CS230_Final.py:153-154 | the selection of query 3 is an order-preserving part of the table (`Query3Members` gives exactly which rows) |
| Queries.Query3Members | CS230_Final.py:153-154 | query 3 keeps order and keeps exactly the rows whose known year is between the bounds inclusive, plus the chosen setting if any. The combined mask is the year filter followed by the setting filter |
| Queries.DefaultYearRange | CS230_Final.py:147-153 | with the lower bound at its default, the year filter keeps exactly the rows whose known year is ≤ the upper bound |
| Queries.YearRangeKnown | CS230_Final.py:153 | on loaded rows a known year implies a known eruption, so adding the known-eruption filter does not change a year selection |
| Queries.Names | CS230_Final.py:50 | the name list holds each row's name, in order |
| Queries.NamedVolcanoes | CS230_Final.py:50 | the names are returned when every row has one. Otherwise the error names the first row whose name is missing |
| Queries.NamedVolcanoesFilter | CS230_Final.py:50 | the result is the name list filtered by the "Mount" test |
| Queries.NamedVolcanoesSpec | CS230_Final.py:50 | the result is, in order, exactly the names in which "Mount" occurs |
| Queries.MountExamples | CS230_Final.py:50 | "Mount Fuji" and "Mountain" contain "Mount"; "mount x" does not |
| Queries.MountFilterExample | CS230_Final.py:50 | the filter keeps "Mount Fuji" and "Mountain" and drops "mount x" |
| Queries.NamedVolcanoesExample | CS230_Final.py:50 | for rows named "Mount Fuji", "mount x" and "Mountain", the result is ["Mount Fuji", "Mountain"] |
| Queries.Query4Mask | CS230_Final.py:188-194 | a row passes the combined mask exactly when it passes each step that is set: a known eruption if asked, the region unless the placeholder, and one of the types unless none is chosen |
| Queries.Query4MaskSpec | CS230_Final.py:188-194 | a row is kept exactly when it passes each step that is set; with no step set, the whole table is kept |
| Queries.AddStep | CS230_Final.py:188-194 | a mask applied to a selection is the conjunction of the two masks on the table |
| Queries.Query4 | CS230_Final.py:188-200 | `filtered` is the table under the conjunction of the set steps: in order, exactly the rows passing them, or the whole table when no step is set. `top` is the first ten of `value_counts()` of its types: at most 10 distinct entries, non-increasing true counts, and a sum at most the number of filtered rows |

## Left out

- The Streamlit page: setup, widgets, text, images, the cache decorator and
  page dispatch. This is user interface. The query functions take the
  widgets' values as parameters.
- Reading the spreadsheet with `pd.read_excel`, which is file input. `Load`
  and `Frame` start from the table it returns.
- The pydeck maps and the matplotlib charts, including label rotation and bar
  annotation. These are rendering.
- The floating-point mean. `Summary` carries the elevation sum and the number
  of known elevations, and `Mean` divides them as exact reals. It is undefined
  (None) where pandas gives NaN.
- The order of ties in `value_counts()`. The model sorts stably, but the
  properties proved assert only non-increasing counts.
- Sorting and de-duplicating the drop-down option lists. They only feed the
  widgets.
- Unicode case mapping and Unicode digits. `LowerChar` lowers ASCII letters
  only, and `\d` is read as the ASCII digits.
- Pandas dtype inference. The model lets `.str.extract` treat a non-text cell
  as missing. It does not model the AttributeError pandas raises when the
  whole eruption column holds no text.
- The link from the loaded `Table` to the typed `Volcano` rows (elevation as
  whole metres, the region, type and setting columns). The queries take typed
  rows.
  - `YearDerived` states the one link the queries rely on: the year column
    derived from the eruption cell.
- The slider limits: lower bound at least the default, upper bound 2025, lower
  ≤ upper. Also the elevation slider's range and step. The selections are
  proved for any bounds.
- Latitude and longitude. They only feed the map.
- `NamedVolcanoes`: a name that is present but not text (a number in the
  spreadsheet) is not modelled. Names are either text or missing, and a
  missing name is the error case.

## Findings

| source | as written | input that shows it | evidently intended | confidence | as-written member | corrected member |
|---|---|---|---|---|---|---|
| CS230_Final.py:130 | with no region selected, `count_and_average_height(filtered, region)` receives the placeholder "-- Please select a region --". Since it is not "All", it counts and averages only rows whose region is that placeholder | one African volcano at 3000 m, no region chosen, threshold 2000 m: one row is shown, but the count is 0 and the mean is NaN | count and average the rows shown, by passing "All" when the placeholder is selected | not executed | Queries.Query2PlaceholderExample | Queries.Query2Corrected |
