# PAES 2023–2026 cut-off dashboard: the record-selection pipeline

This project models the data path of the `app.py` Streamlit dashboard. The dashboard shows PAES university-admission cut-off scores for 2023–2026. The model is a table of records (`seq<Record>`, one `Option` per nullable column) passed through five stages:

- **Loading** (`Loader`). The sheet must have all 19 expected columns. Otherwise loading fails with a message that names the sheet and the missing columns, sorted. Rows without a year (`PROCESO`), program code (`CODIGO_CARRERA`) or cut-off score (`PUNTAJE_CORTE`) are dropped. The repository-file path and the upload path do the same check and report it differently.
- **Sidebar filter** (`Filters`). Seven `isin` tests, a threshold on `N_MIN_23_26` and an optional search in the upper-cased program name. Together they produce the filtered table `df_f`.
- **Rankings tab** (`Rankings`). The 2026 rows, one per program code with the first occurrence kept, sorted by the 2023–2026 change in cut-off and cut to `n_show`.
- **Universities tab** (`Universities`). The guard that defines a university's change in median cut-off only when the pivot has both a 2023 and a 2026 column.
- **Detail tab** (`Detail`). The program list, the option labels `"code | name | university"`, reading the code back out of a label, and that program's rows in year order.

Supporting modules:

- `Seqs` holds the pandas table idioms as functions over sequences: boolean masks, keep-first `drop_duplicates` and `head`. It also holds the filtered list comprehension.
- `Sorting` holds `sort_values` over a total preorder. The sort is stable, as pandas' sort on several columns is. For the one-column sorts, where pandas gives no such promise, only order and permutation are used.
- `Text` holds the Python string operations the pipeline uses: `strip`, `upper`, `in`, string `<=`, `str(int)`, `int(str)` and `split("|")[0]`.
- `Records` holds the record type.
- `Wrappers` holds `Option` and `Result`.

Conventions of the model:

- Missing values are `None`.
- `isin` is false for a missing value, and `NaN >= min_n` is false.
- Sorts put missing keys last, as `na_position="last"` does.
- Numeric columns are integers, because the pipeline only compares them. The one subtraction, the change in median, takes the median as a parameter.

## Model

| member | source | states |
|---|---|---|
| Loader.Missing | app.py:18-41 | the missing-column list holds exactly the expected columns the sheet lacks, each once, in strictly increasing code-point order |
| Text.SortedSet | app.py:39-41 | `sorted(set(...))` on texts: the same members as its input, each once, strictly increasing by code point |
| Text.StrictlySortedUnique | app.py:41 | two strictly increasing lists with the same members are equal, so the sorted missing-column list is the only possible one |
| Loader.Load | app.py:14-57 | over records with integer columns, loading fails iff some expected column is absent; the error carries the sheet name and the sorted missing columns; on success the table is the sheet's complete rows |
| Loader.DropIncompleteKeepsComplete | app.py:56 | after `dropna`, every row has year, code and cut-off; every complete row keeps all its copies; the order is the sheet's |
| Loader.ItemsQuoteEach | app.py:41 | the printed list quotes every column it holds |
| Loader.MessageNamesSheetAndColumns | app.py:41 | the schema error's text contains the quoted sheet name and every quoted missing column |
| Loader.DisplayedNamesSheetAndColumns | app.py:121-123 | on either path (the exception text with the "Error cargando datos: " prefix at lines 140-141, or the upload path's message), the shown error contains the quoted sheet name and every quoted missing column |
| Filters.ApplyFilters | app.py:178-192 | masking and then, only for a non-empty query, rebinding `df_f` to the name matches gives exactly the one-mask filtered table |
| Filters.SelectSpec | app.py:180-192 | a row is kept iff it is in the table, all seven fields are present and accepted, `N_MIN_23_26` is present and at least `min_n`, and a non-empty query occurs in its upper-cased name; kept rows keep every copy; the result is an order-preserving subsequence |
| Filters.EmptySetSelectsNothing | app.py:180-189 | an empty accepted set in any of the seven dimensions gives an empty table |
| Filters.SelectMonotone | app.py:180-189 | narrowing any accepted set or raising `min_n` gives a subsequence of the previous result, never more rows |
| Filters.SelectIdempotent | app.py:180-192 | filtering the filtered table again with the same sidebar changes nothing |
| Filters.EmptyQueryIsNoOp | app.py:178-192 | a search that strips to nothing leaves the masked table unchanged |
| Filters.MissingNameNeverMatches | app.py:192 | with a non-empty query, a row without a program name (read as "") is dropped |
| Filters.Defaults | app.py:155-174 | each default multiselect holds exactly the present values of its column in the loaded table, every one of them and nothing else; `min_n` and the search text pass through unchanged |
| Filters.DefaultsKeepPresent | app.py:155-189 | with the defaults, the mask keeps a loaded row iff its seven fields and `N_MIN_23_26` are present and `N_MIN_23_26 >= min_n` |
| Rankings.Careers2026Spec | app.py:276-280 | the ranking base holds only 2026 rows of `df_f`, at most one per code, one for every code with a 2026 row, each the first 2026 row with its code, in `df_f` order |
| Rankings.Careers2026Empty | app.py:276-283 | the ranking base is empty iff `df_f` has no 2026 row |
| Rankings.TopOf | app.py:292-326 | the first `n` of a sort hold `min(n, len)` rows of the input, in key order, and no row left out ranks before a row kept |
| Rankings.TopSubenSpec | app.py:289-306 | "Top suben" has `min(n_show, len(careers))` rows from the base, with non-increasing change and missing changes last; no row left out has a larger change than a listed one |
| Rankings.TopBajanSpec | app.py:310-327 | "Top bajan" has `min(n_show, len(careers))` rows from the base, with non-decreasing change and missing changes last; no row left out has a smaller change than a listed one |
| Rankings.Ranking | app.py:276-329 | the tab shows the warning iff `df_f` has no 2026 row, and otherwise the two top lists of the base |
| Universities.PivotYears | app.py:334-349 | the pivot's year columns are exactly the years of the rows whose university and year are both present |
| Universities.Cutoffs | app.py:336-341 | a pivot cell's score list holds each score as many times as the cell has rows with that score, so the median sees every repeat; missing scores are skipped |
| Universities.CutoffsMembers | app.py:336-341 | a score is in the cell's list iff some row of the cell has that score |
| Universities.CellSpec | app.py:334-349 | a (university, year) cell has a median iff that university has a scored row in that year, and then it is the median of those scores |
| Universities.DeltaMedianaSpec | app.py:351-354 | `DELTA_MEDIANA_26_23` is defined for a university iff it has scored rows in both 2023 and 2026, which puts both years among the columns; it is then the 2026 median minus the 2023 median |
| Detail.ProgramOrderTotalPreorder | app.py:386 | ordering by university and then name, missing last, is total and transitive |
| Detail.ProgramListSpec | app.py:383-387 | the program list holds every program of `df_f` exactly once and nothing else, sorted by university and then name |
| Detail.ProgramTies | app.py:386 | two programs tie under the sort iff their university and name agree |
| Detail.ProgramListStable | app.py:383-387 | programs with the same university and name keep the order of their first appearance in `df_f`, as pandas' stable multi-column sort keeps them |
| Seqs.MapWhereOrder | app.py:389-393 | in a filtered comprehension `[f(x) for x in s if p(x)]`, the k-th result is `f` of the k-th element the filter keeps, and there is one result per kept element |
| Detail.OptionsOrder | app.py:389-398 | there is one option per listed program with a code, and the k-th option is the label of the k-th such program, so `index=0` selects the first of them |
| Detail.OptionsMembers | app.py:389-393 | every listed program with a code has its label among the options, and every option is the label of such a program |
| Detail.LabelRoundTrip | app.py:390-399 | `int(label.split("\|")[0].strip())` gives back the program's code, whatever its name and university contain, `\|` included |
| Detail.ProgramSeriesSpec | app.py:401 | the series holds exactly the rows of `df_f` with that code, every copy, in non-decreasing year order, missing years last |
| Detail.ListedProgramSeries | app.py:401-404 | every listed program with a code has a non-empty series made of its own rows |
| Detail.OptionSpec | app.py:395-404 | every offered option parses to the code of a listed program, and that code's series is non-empty, so `iloc[0]` exists |
| Detail.DetailFor | app.py:395-401 | the tab warns iff there is no option; otherwise it shows the code read back from the chosen label with that code's whole year-ordered series, which is non-empty and made of the program's own rows |
| Text.Strip | app.py:178 | `str.strip()` returns a slice of its input with only blanks around it, and the slice neither starts nor ends with a blank |
| Text.StripPadded | app.py:399 | stripping blank padding from a text with non-blank ends gives the text back |
| Text.Upper | app.py:178 | `str.upper()` maps each character to its upper case |
| Text.ContainsAt | app.py:192 | `sub in s` holds iff `sub` occurs at some position of `s` |
| Text.ContainsLeft | app.py:41 | a text extended on the right still contains what it contained |
| Text.ContainsRight | app.py:141 | a text extended on the left still contains what it contained |
| Text.LexLeTotalPreorder | app.py:41 | code-point order on texts is total and transitive |
| Text.LexLeAntisym | app.py:41 | two texts each at most the other are equal |
| Text.Decimal | app.py:390 | `str(n)` starts with a minus iff `n < 0`, and the rest is a non-empty run of digits without a leading zero, except for `"0"` itself |
| Text.ParseDecimal | app.py:390-399 | `int(str(n)) == n` |
| Text.FirstField | app.py:399 | `split("\|")[0]` is the longest prefix without a `\|` |
| Text.FirstFieldBefore | app.py:399 | the first field of a text is everything before its first `\|` |
| Seqs.Where | app.py:180-192 | a boolean mask keeps exactly the rows it accepts |
| Seqs.WhereWhere | app.py:191-192 | masking twice equals masking once by the conjunction, which is why the rebinding of `df_f` is one filter |
| Seqs.WhereMonotone | app.py:180-189 | a weaker mask keeps an order-preserving superset |
| Seqs.DistinctAfter | app.py:278 | keep-first `drop_duplicates`: pairwise distinct keys, the same key set as the input, elements from the input |
| Seqs.DistinctAfterKeepsFirst | app.py:278 | each kept row is the first row with its key |
| Sorting.SortBy | app.py:292 | `sort_values` returns a permutation of its input |
| Sorting.SortBySorted | app.py:292 | under a total preorder, the sort's output is ordered |
| Sorting.SortByStable | app.py:386 | the sort is stable: the elements tied with any given one come out in their input order |

## Left out

- Streamlit page setup, widgets, tabs, metrics, plots, `st.stop` control flow and `st.cache_data` are not modelled. They are interface wiring. The sidebar's values enter the model as a `Selection`.
- Reading the workbook (`pd.read_excel`) and the file-existence check are not modelled. A sheet enters as its name, its column set and its rows.
- The `pd.to_numeric(..., errors="coerce")` column overwrites (app.py:44-54, 127-137) are not modelled. Records arrive with the coerced values, and missing or unparseable cells are `None`. Columns beyond the 19 are not carried.
- Numbers are integers, not floats. Medians, means, sums, percentages and rounding (app.py:203-204, 334-371) are not modelled. `Universities.DeltaMediana` takes the median as a parameter.
- The university table's merge with the per-university share of rising programs and its final sort (app.py:356-376) are not modelled, apart from the dedup, which is `Rankings.Careers2026`.
- The data-sample table's sort (app.py:249) and the CSV export are not modelled. They are presentation.
- Sorting.SortBy: for the one-column sorts (app.py:292, 313, 401), the model states only that the output is ordered and a permutation. pandas' default sort on one column is not stable, so the order of rows with equal keys is left unspecified there. The two-column sort at app.py:386 is stable in pandas, and `Detail.ProgramListStable` states that.
- Filters.MatchesName: `str.contains` treats the query as a regular expression by default. The model tests for a plain substring. The two agree for queries without regular-expression metacharacters. A query that is not a valid pattern, such as `(` or `*A`, makes app.py:192 raise `re.error` outside the loading `try` block, which stops the script. That error path is not modelled.
- Text.Upper: covers ASCII and Latin-1 letters whose upper case is one character. `ß`, `µ`, `ÿ` and letters beyond Latin-1 are not mapped as Python maps them.
- Text.Strip: blanks are the Latin-1 characters Python's `str.isspace` accepts. Unicode blanks beyond U+00FF are not stripped.
- Text.ParseInt: accepts an optional sign and ASCII digits. Python's `int` also accepts underscores between digits and non-ASCII digits.
- Detail.Show: a missing name prints as "nan", which is how a missing text cell read from a workbook prints.
- Loader.Load: the two load paths differ only in how the error is reported (`Loader.Displayed`). The upload path's "no file yet" state is interface flow.
- Loader.Load: `astype("Int64")` (app.py:44-46, 54 and 127-129, 137) raises when `PROCESO`, `CODIGO_CARRERA`, `REG_CODIGO` or `CLUSTER` holds a number that is not whole. The error then reaches app.py:140-141 and is shown as "Error cargando datos: …". This second failure is not modelled, because records hold integers, which cannot be fractional.
