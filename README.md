# CRCS society dashboard: the filter and aggregation pipeline

The dashboard reads a workbook of registered cooperative societies. It
concatenates the workbook's sheets into one dataset and drops the trailing
column. It then derives one view per panel:

- the profile and area-of-operation list of a chosen society;
- the number of societies per sector type, for the whole dataset and for a
  chosen state;
- the top N states and the top N districts by number of societies;
- the monthly number of registrations, within a year range or within a
  state;
- a state by sector cross-tabulation;
- the text of the names of one state's societies, joined for the word cloud.

This project restates that pipeline in Dafny and proves what each view
holds.

- Rows are values of the `Record` datatype (`records.dfy`). Dates are
  validated calendar dates.
- The loader (`loader.dfy`) is a method. Its loop appends each parsed
  sheet, as the source's loop does.
- Every aggregation is a function over `seq<Record>`. Each one is built
  from the pandas operations it uses:
  - a boolean mask, a column, `unique` and `explode`: `sequences.dfy`;
  - `str.split`, `str.strip` and `' '.join`: `text.dfy`;
  - sorting: `sorting.dfy`;
  - `value_counts` and `head`: `frequency.dfy`.
- The dashboard's panels are in:
  - `filters.dfy`: the three masks;
  - `profile.dfy`: the society panel;
  - `panels.dfy`: the frequency panels and the name text;
  - `timeline.dfy`: the monthly series;
  - `crosstab.dfy`: the cross-tabulation.

Counting is stated through multisets. The count of `v` in a column is
`multiset(column)[v]`. It is proved equal to the number of rows the mask
"column equals `v`" selects.

Three behaviours of the pandas calls shape the model:

- `resample('M').sum()` on a date-indexed table yields every calendar month
  from the first to the last observed month. A month without registrations
  gets 0. Each bucket is labelled with the month's last day.
- `groupby(['State', 'Sector Type']).size().unstack(fill_value=0)` sorts its
  row and column labels ascending. The model sorts them by code-point order.
- `value_counts().head(n)` fixes no order among equal counts, so the top-N
  tables promise only non-increasing counts.

## Model

| member | source | states |
|---|---|---|
| Loader.Load | dashboard.py:13-21 | An empty workbook gives `Err` (concatenating no frames fails). Otherwise the result is the concatenation of the sheets parsed in sheet order, without its last column. It is rectangular, its header is the first sheet's header less the last name, and it has as many rows as all sheets together. |
| Loader.Concat | dashboard.py:20 | The concatenation keeps the first frame's header and has as many rows as all frames together. The rows of frame `k` are the slice that starts after the rows of the frames before it, so frames are stacked in order and keep their own row order. |
| Loader.AllRowsSlice | dashboard.py:20 | The rows of frame `k` lie, unchanged and in order, in the stacked rows right after the rows of the frames before it. |
| Loader.DropLastColumn | dashboard.py:21 | `iloc[:, :-1]` drops the last header name and the last cell of every row, keeps every row in its place, and keeps a rectangular frame rectangular. |
| Loader.LoadedRow | dashboard.py:17-21 | Row `j` of sheet `k` is row `RowsBefore(k) + j` of the loaded frame, less its last cell. Sheets are stacked in order and keep their own row order. |
| Loader.LoadedShape | dashboard.py:20-21 | The loaded frame is rectangular. Its row count is the sum of the sheets' row counts. |
| Loader.AllRowsLength | dashboard.py:20 | The concatenated rows number the sum of the sheet lengths. |
| Loader.DropLastCells | dashboard.py:21 | Every row keeps all its cells but the last, and no row is added or lost. |
| Sequences.Select | dashboard.py:42 | A boolean mask keeps at most all rows. Every kept row satisfies the mask, and every row that satisfies it is kept. |
| Sequences.SelectAtPositions | dashboard.py:42 | The mask keeps exactly the rows at the ascending positions where the mask holds, in their original order. |
| Sequences.SelectOccurrences | dashboard.py:42 | A row satisfying the mask is kept as often as it occurs. Any other row is kept zero times. |
| Sequences.SelectFirstIndex | dashboard.py:42-45 | The first row a "column equals v" mask keeps is the row at the first occurrence of v in that column. |
| Sequences.OccurrencesAreMatches | dashboard.py:94 | How often v occurs in a column equals the number of rows the mask "column equals v" keeps. |
| Sequences.Dedup | dashboard.py:67 | `unique` has no duplicates, holds exactly the values of its input and is no longer than it. |
| Sequences.DedupFirstSeen | dashboard.py:67 | `unique` lists values in the order of their first occurrence. |
| Sequences.DedupCardinality | dashboard.py:67 | `unique` has one entry per distinct value. |
| Sequences.Flatten | dashboard.py:67 | After `explode`, a value is present exactly when some row's list holds it. |
| Sequences.FlattenConcat | dashboard.py:67 | `explode` keeps the row order: two blocks of rows explode to the first block's values followed by the second's. |
| Sequences.FlattenSingle | dashboard.py:67 | A single row's list explodes to that list, in its own order. |
| Sequences.FlattenProject | dashboard.py:67 | After `explode`, a value is present exactly when it is in the list of some row. |
| Text.Split | dashboard.py:67 | `split(',')` gives at least one piece, and no piece contains the separator. |
| Text.SplitCount | dashboard.py:67 | There is one more piece than there are commas. |
| Text.JoinSplit | dashboard.py:67 | Joining the pieces of a split with the separator gives the text back. |
| Text.Join | dashboard.py:371 | An empty list joins to the empty text. Otherwise the text is as long as the pieces plus one separator between each two, and holds the pieces' own separators plus one between each two. |
| Text.SplitConcat | dashboard.py:371 | Splitting `a + sep + b` at `sep` gives the pieces of `a` followed by the pieces of `b`. |
| Text.SplitOfJoin | dashboard.py:371 | Splitting a join gives the pieces of each part's own split, part after part, for any parts: a part holding the separator falls apart, and an empty part stays as an empty piece. |
| Text.TokensWithoutSeparator | dashboard.py:371 | Parts without the separator are their own pieces. |
| Text.Strip | dashboard.py:67 | `strip()` gives the text between the leading and the trailing whitespace, and begins and ends with non-whitespace. |
| Text.StripIdempotent | dashboard.py:67 | Stripping twice is stripping once. |
| Text.SplitJoin | dashboard.py:371 | Splitting a `' '.join` of space-free names at spaces gives the names back. |
| Sorting.SortBy | dashboard.py:175 | Sorting is a permutation of its input. |
| Sorting.SortBySorted | dashboard.py:175 | Sorting by a total preorder gives a sequence ordered by it. |
| Sorting.StrLeTotalPreorder | dashboard.py:329 | Code-point string order is total, reflexive and transitive. |
| Sorting.StrLeAntisymmetric | dashboard.py:329 | Two strings ordered both ways are equal. |
| Sorting.SortedStringsAscend | dashboard.py:329 | A sorted sequence of distinct labels is strictly ascending. |
| Frequency.Tally | dashboard.py:94 | Each key is paired with the number of times it occurs in the column. |
| Frequency.TallyTotalWhere | dashboard.py:94 | Tallying a column against its distinct values gives counts whose sum over any key set is the number of column values in that set. |
| Frequency.TotalWherePermutation | dashboard.py:175 | Reordering a count table changes none of its sums. |
| Frequency.CountedFacts | dashboard.py:94 | The first-seen tally has distinct keys, exactly the column's values, each with its occurrence count. Its counts sum to the column length, with one entry per distinct value. |
| Frequency.ValueCounts | dashboard.py:94 | `value_counts` has one entry per distinct value with its occurrence count, no key twice, and non-increasing counts. Its counts sum to the column length. |
| Frequency.ValueCountsFacts | dashboard.py:94 | The first-seen tally sorted by descending count has all the properties of `value_counts`. |
| Frequency.TopN | dashboard.py:132 | `value_counts().head(n)` has `min(n, distinct values)` entries and is a prefix of the full table. No entry left out has a larger count than one kept. Keys are distinct, counts are non-increasing and each count is an occurrence count. |
| Frequency.PrefixFacts | dashboard.py:132 | A prefix of `value_counts` keeps its distinct keys, its order and its counts, and dominates every entry after it. |
| Frequency.PermutedTable | dashboard.py:175 | A reordered table has the same length and keys and keeps distinct keys distinct. |
| Filters.BySociety | dashboard.py:42 | Every kept row carries the selected name, and every row with that name is kept. |
| Filters.BySocietyExact | dashboard.py:42 | The society filter keeps exactly the rows whose name equals the selection, at their original positions and in original order, with their multiplicities. |
| Filters.ByYearRange | dashboard.py:166-169 | Every kept row's year lies in `[start, end]`, and every such row is kept. |
| Filters.ByYearRangeExact | dashboard.py:166-169 | The year filter keeps exactly the rows with `start <= year <= end`, in original order, with their multiplicities. |
| Filters.InvertedRangeEmpty | dashboard.py:166-169 | A range with `start > end` keeps nothing. |
| Filters.ByState | dashboard.py:214 | Every kept row is in the selected state, and every such row is kept. |
| Filters.ByStateExact | dashboard.py:255 | The state filter keeps exactly the rows of the selected state, in original order, with their multiplicities. |
| Filters.UnknownStateEmpty | dashboard.py:365 | A state that no row carries selects nothing. |
| Filters.ByStateConcat | dashboard.py:20 | Filtering two stacked blocks of rows by state gives the first block's rows of that state followed by the second's. |
| Filters.MinYear | dashboard.py:159 | The minimum year is at most every row's year and is the year of some row. |
| Filters.MaxYear | dashboard.py:160 | The maximum year is at least every row's year and is the year of some row. |
| Filters.YearSpan | dashboard.py:157-162 | The slider's range exists exactly when there are rows. It runs from the minimum to the maximum registration year of the rows, so its lower end is not above its upper end. |
| Filters.DefaultRangeKeepsAll | dashboard.py:157-169 | The slider's default range, from the minimum to the maximum year, keeps every row. |
| Profile.ProfileOf | dashboard.py:45-50 | The profile carries the row's name, address, state and sector. Its district is the row's district, or "" without a District column. Its date text reads back as the row's registration date. |
| Profile.AreaTokens | dashboard.py:67 | After `split(',')`, `explode` and `strip`, a text is a token exactly when it is a stripped piece of some row's area text, and no token has whitespace at either end. |
| Profile.AreaList | dashboard.py:67-73 | The area table is numbered 1, 2, ... in order, names no area twice, lists exactly the tokens, and lists only trimmed areas. |
| Profile.NumberedDistinct | dashboard.py:67-73 | Numbering the distinct trimmed tokens lists each token once and nothing else, all trimmed. |
| Profile.AreaListCovers | dashboard.py:67 | An area is listed exactly when it is a stripped comma-separated piece of the area text of one of the rows. |
| Profile.PiecesTrimmed | dashboard.py:67 | Every piece of a row's area text has no whitespace at either end. |
| Profile.AreaListFirstSeen | dashboard.py:67 | Areas are listed in the order in which they first occur in the exploded column. |
| Profile.SingleArea | dashboard.py:67 | A trimmed area text without commas yields that text as its only area. |
| Profile.SocietyInfo | dashboard.py:42-73 | The panel fails exactly when no row carries the selected name (`.iloc[0]` of an empty frame). Otherwise its area list is the list of the selected rows. |
| Profile.NameInColumn | dashboard.py:42-45 | The society filter keeps a row exactly when the name occurs in the name column. |
| Profile.SocietyProfile | dashboard.py:45-50 | For a name in the column, the panel succeeds with the profile of the first row carrying it. The profile's name is the selection. Its date text reads back as that row's date. Its district is "" without a District column. |
| Profile.SocietyChoices | dashboard.py:38 | The names offered are exactly the names in the column, each once. |
| Profile.ChoicesHaveProfiles | dashboard.py:38-45 | Every name the selectbox offers has a profile. |
| Records.FormatDate | dashboard.py:49 | `strftime("%Y-%m-%d")` gives ten characters with dashes at positions 4 and 7. |
| Records.ParseDate | dashboard.py:49 | The reader of the `%Y-%m-%d` text the profile shows: a text it accepts has ten characters with dashes at positions 4 and 7. |
| Records.ParseFormattedDate | dashboard.py:49 | A formatted date parses back to itself. |
| Records.FormatParsedDate | dashboard.py:49 | A text that reads as a date is that date's `%Y-%m-%d` text, so the profile's date text and the date it carries determine each other. |
| Records.DaysInMonth | dashboard.py:181 | Months have 28 to 31 days. 29 occurs exactly for February of a leap year. |
| Records.MonthEnd | dashboard.py:181 | A month's label lies in that month and is its last day. |
| Records.EarlierMonth | dashboard.py:181 | A date in an earlier month comes strictly before one in a later month. |
| Panels.SectorCounts | dashboard.py:94 | There is one entry per sector type, with no key twice and counts non-increasing. Each count is the number of rows of that type, every row's type is listed, and no count is 0. The counts sum to the number of rows. |
| Panels.RowCounts | dashboard.py:94 | Occurrence counts of a column are the numbers of rows with each value. |
| Panels.RowKeys | dashboard.py:94 | A table keyed by a column's values lists every row's value, with positive counts. |
| Panels.StateSectorCounts | dashboard.py:214-217 | The sector counts of a state have distinct keys and non-increasing counts. Each count is the number of rows with that (state, sector) pair, and no count is 0. Every sector of a row of that state is listed. The counts sum to the number of the state's rows. |
| Panels.StateRowsCounted | dashboard.py:214-217 | A table that lists the sector of every row the state filter keeps lists the sector of every row of that state. |
| Panels.PairCounts | dashboard.py:217 | Counting a sector within a state's rows is counting the (state, sector) pair in the whole dataset. |
| Panels.TopStates | dashboard.py:128-132 | For N in [1, 15] there are `min(N, distinct states)` entries, the first entries of the full descending state table. Each count is the number of rows of that state, and no state left out has more rows than one shown. |
| Panels.Districts | dashboard.py:304 | The district values counted are at most one per row, and a district is among them exactly when some row carries it (missing values are left out). |
| Panels.DistrictOccurrences | dashboard.py:304 | How often a district occurs among the present values is the number of rows with that district. |
| Panels.DistrictCounts | dashboard.py:304 | District counts are numbers of rows with that district. |
| Panels.TopDistricts | dashboard.py:300-304 | Without a District column the panel fails. Otherwise, for N in [1, 20], it has `min(N, distinct districts)` entries, a prefix of the full district table, with distinct keys and non-increasing counts. Each count is the number of rows with that district. |
| Panels.MissingDistrictUncounted | dashboard.py:304 | A row without a district adds nothing to the district counts. |
| Panels.NamesText | dashboard.py:365-371 | A state without rows gives the empty text. Otherwise the text is as long as the names together plus one space between each two. |
| Panels.NamesTextTokens | dashboard.py:365-371 | For a state with rows, splitting the text at spaces gives the space-separated words of each name, name after name, in row order. |
| Panels.NamesTextSplit | dashboard.py:365-371 | When no name of the state contains a space, splitting the joined text at spaces gives back the state's names in row order. |
| Panels.StateChoices | dashboard.py:206 | The states offered are exactly the states in the column, each once. |
| Panels.ChosenStateHasRows | dashboard.py:206-214 | Every state the selectbox offers selects at least one row. |
| Timeline.DateCounts | dashboard.py:172-177 | The per-date table is in strictly ascending date order and lists exactly the dates of the column. Each count is the number of times its date occurs, and the counts sum to the number of dates. |
| Timeline.SortedDateTable | dashboard.py:172-177 | Sorting `value_counts` by date gives a strictly ascending table of exactly the column's dates that keeps every date's count and the total. |
| Timeline.DateCountsPermutation | dashboard.py:172-175 | The per-date table holds the same entries as the first-seen tally. |
| Timeline.EarliestAt | dashboard.py:181 | Points at an entry of the earliest month of the table. |
| Timeline.LatestAt | dashboard.py:181 | Points at an entry of the latest month of the table. |
| Timeline.Bucket | dashboard.py:181 | A month's bucket is labelled by the month's last day and holds the sum of the counts of the table's dates in that month. |
| Timeline.Resample | dashboard.py:181 | The series is empty exactly when the table is. Otherwise it runs from the table's first month to its last, one bucket per consecutive month, in strictly ascending order. Each bucket is labelled with its month's last day and holds the sum of the counts of its month (0 for a month without dates). The buckets sum to the table's total. |
| Timeline.SpanSeries | dashboard.py:181 | The buckets of the months from the table's first to its last are consecutive, labelled by month ends, hold the month sums, ascend strictly and add up to the table's total. |
| Timeline.BucketSeries | dashboard.py:181 | Buckets of consecutive months from `lo` are labelled by those months' last days, hold those months' sums and ascend strictly. |
| Timeline.BucketTotals | dashboard.py:181 | Buckets of consecutive months add up to the month totals of those months. |
| Timeline.MonthTotalsWithin | dashboard.py:181 | The month totals of consecutive months are the table's sum over that span of months. |
| Timeline.SpanTotal | dashboard.py:181 | Buckets of consecutive months covering every date of the table add up to the table's total. |
| Timeline.MonthlySeries | dashboard.py:172-181 | The series is empty exactly when there are no dates. Its months are consecutive and strictly ascending, each labelled by its last day. Each month holds the number of dates in it (0 for a month without any), and the months sum to the number of dates. |
| Timeline.SeriesFacts | dashboard.py:172-181 | Resampling the per-date table gives a series that is empty exactly when there are no dates, counts each month's dates and sums to the number of dates. |
| Timeline.MonthCount | dashboard.py:172-181 | The per-date table's sum over a month is the number of dates in that month. |
| Timeline.ResampleCovers | dashboard.py:181 | The buckets run from the earliest to the latest observed month and cover every date. |
| Timeline.MonthlySpan | dashboard.py:172-181 | The first and last months of the series are the first and last months with a registration. |
| Timeline.EmptyMonths | dashboard.py:181 | A month's value is 0 exactly when no registration falls in it. |
| Timeline.RowsInMonth | dashboard.py:261 | Counting a month's dates in the date column counts the rows registered that month. |
| Timeline.RowSeries | dashboard.py:261-265 | Each month's value is the number of rows registered that month, and the values sum to the number of rows. |
| Timeline.RegistrationsInYears | dashboard.py:166-181 | The year-filtered series sums to the size of the filtered subset. Each month holds that month's rows of the subset, and every month lies within `[start, end]`. |
| Timeline.StateRegistrations | dashboard.py:255-265 | The state series sums to the number of the state's rows, and each month holds the state's rows of that month. |
| Timeline.YearOfMonth | dashboard.py:166-181 | A month index between those of January of `start` and December of `end` belongs to a year in `[start, end]`. |
| Timeline.YearsOfSeries | dashboard.py:166-181 | When all dates lie in `[start, end]`, so do all months of the series, including the zero-filled ones. |
| Timeline.ResampleYears | dashboard.py:166-181 | Resampling a table whose dates all lie in `[start, end]` gives buckets in those years only. |
| Crosstab.StateRow | dashboard.py:329 | One state's row has one cell per sector, in sector order. |
| Crosstab.StateSectorTable | dashboard.py:329 | The row labels are the distinct states of the data and the column labels its distinct sector types, each once and strictly ascending (the sorted group keys). There is one row per state label and one cell per sector label in each row, keyed by that sector. |
| Crosstab.SortedDistinct | dashboard.py:329 | The row and column labels are exactly the distinct values of their column, once each, strictly ascending. |
| Crosstab.SortedDedup | dashboard.py:329 | Sorting the distinct values of a column gives exactly the column's values, once each, strictly ascending. |
| Crosstab.CellCounts | dashboard.py:329 | Each cell is the number of rows with that (state, sector) pair. |
| Crosstab.PairCount | dashboard.py:329 | A sector's count within a state's rows is the number of rows with that (state, sector) pair. |
| Crosstab.PairAbsent | dashboard.py:329 | A (state, sector) pair is counted 0 times exactly when no row carries it. |
| Crosstab.CellZero | dashboard.py:329 | A cell is 0 exactly when no row has that (state, sector) pair (`fill_value=0`). |
| Crosstab.RowSum | dashboard.py:329 | Each row of the table sums to the number of that state's rows. |
| Crosstab.GrandTotalOfRows | dashboard.py:329 | When each row sums to its entry of a per-row table, all cells sum to that table's total. |
| Crosstab.TableTotal | dashboard.py:329 | All cells together sum to the number of rows. |

## Left out

- Streamlit widgets, sidebar layout and rendering calls are not modelled. The selections they return become parameters: the society name, N, the year range, the state. The `index=` defaults of the selectboxes (lines 38, 210, 251, 361) look up hard-coded names. They raise `ValueError` when the name is absent, and this is not modelled.
- Charts and their styling (matplotlib, seaborn, plotly) are presentation and are not modelled.
- The word cloud's tokenisation, stop words and layout come from a foreign library. Only the single-space join of the names (lines 368-371) is modelled. `WordCloud.generate` of an empty text raises an error, and this is not modelled either.
- Excel reading is I/O. The sheet parser is a parameter of `Loader.Load`, and the mapping from loaded cells to `Record` values is not modelled. Dates are taken as validated calendar dates. A missing value counts only in the District column (`None`).
- Loader.Load: requires every sheet to have the first sheet's header. `pd.concat` of frames with different headers aligns columns and fills with missing values, which is not modelled.
- Profile.AreaListCovers: the area text is a string. A missing value in that column (which `str.split` passes through as NaN) is not modelled.
- Frequency.ValueCounts: does not state the order among equal counts. pandas does not fix it, and the model's sort keeps one particular order that no contract relies on.
- Panels.TopStates: does not break ties by state name. The code does not do so.
- The column reassignment at line 258 converts a column whose values are already dates, and leaves them as they are. It is not modelled, and no member cites it.
- Integer widths are not a concern here: counts and years are unbounded integers, and pandas uses 64-bit integers well beyond the dataset's sizes.
- The unused `geopandas`, `urllib` and `json` imports and the empty choropleth section have no behaviour to model.
