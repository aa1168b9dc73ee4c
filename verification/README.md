# CPI table refresh and bus-breakdown test helpers, modelled in Dafny

This project models two pieces of a small data-engineering repository.

The first is `load_functions.py`. It keeps a DuckDB table `cpi_table` of `(DATE, CPI)` rows in step with a real-time CPI workbook, downloaded from a URL the caller passes in. Each refresh works in two steps:

- `get_latest_data` derives the vintage column for the pull date. For example, the pull date `2025-03-01` selects `PCPI25M3`.
- `get_latest_data` then projects the workbook onto `DATE` and that column, renamed `CPI`.

Three policies then bring the table up to date:

- **append**: inserts only the rows whose date is not yet in the table.
- **truncate**: empties the table and inserts everything.
- **incremental**: replaces the rows whose date is new or whose reading changed. It finds them with a left merge on `DATE`.

`measure_time` applies one policy once per pull date, in order.

The second is the test helpers of `test.py`:

- `clean_data` rewrites every cell whose lower-cased text is `nan` or `none` to `None` and resets the row index.
- The tests count a value as `dataframe[dataframe[column] == value].shape[0]`.
- Two tests sum such counts over a list of categories in a loop.
- The function tests check the counts of the imported `process_*_request` helpers against a four-row fixture. The model states the counts the idiom gives on that fixture.

Modules, one per concern:

- `Wrappers` (`wrappers.dfy`): `Option`, `Result` and `Outcome`. A raised exception is a `Failure`/`Fail` value.
- `Text` (`text.dfy`): the Python built-ins the core relies on:
  - `str.split`, `int()` on a digit string and `str()` of an integer;
  - `date.strftime('%Y-%m-%d')` and `str.lower`.
- `Vintage` (`vintage.dfy`): `get_latest_data` and the vintage column name.
- `Refresh` (`refresh.dfy`): the three refresh policies as functions from the old table to the new one, with their laws. Also the replay of a whole `measure_time` run.
- `LoadFunctions` (`load_functions.dfy`): `cpi_table` as a class `CpiTable`. Its fields change under the SQL statements the policies issue (`SELECT`, `DELETE`, append-insert). The three `update_*` procedures and `measure_time` are methods proved to leave the table as `Refresh` specifies.
- `CleanData` (`clean_data.dfy`): cells and frames, and `clean_data`.
- `Counts` (`counts.dfy`): the equality-count idiom, the category-sum loop and the test fixture.

Modelling choices:

- A CPI reading is a `real` that is only compared for equality. A missing reading (NaN in pandas, NULL in SQL) is `None`.
- Dates are strings compared for equality.
- pandas' `==` is false whenever one side is missing, so a missing cell never counts.
- `measure_time` does not catch exceptions. The first pull whose data cannot be read ends the run, and the model returns that error together with the table as it then stands.

## Model

| member | source | states |
|---|---|---|
| Text.Split | load_functions.py:13 | `str.split('-')` yields one part more than there are separators, and no part contains the separator |
| Text.JoinSplit | load_functions.py:13 | joining the parts of `split` with the separator gives back the original string |
| Text.SplitThree | load_functions.py:13 | a string made of three separator-free parts splits into exactly those three parts |
| Text.ParseShowInt | load_functions.py:15 | `int(str(i)) == i` for every integer |
| Text.ShowNat | load_functions.py:15 | `str()` of a natural number is a non-empty digit string without a leading zero (except `0` itself) |
| Text.ShowNatDropsLeadingZeros | load_functions.py:15 | `str(int(s))` of a digit string is `s` with its leading zeros dropped (keeping one digit) |
| Text.ZeroPad | load_functions.py:61 | `%Y`/`%m`/`%d` zero padding: the width is reached, the original digits end the result, and only zeros are added |
| Text.ZeroPadValue | load_functions.py:61 | zero padding keeps the value of a digit string |
| Text.IsoDateParts | load_functions.py:61 | `strftime('%Y-%m-%d')` is three separator-free digit fields joined by `-` |
| Text.Lower | test.py:71 | `str.lower` keeps the length and maps every character on its own |
| Text.LowerIsCaseVariant | test.py:71 | for a target without upper-case letters, `s.lower()` equals it exactly when `s` spells it with any letters in upper case |
| Vintage.VintageColumn | load_functions.py:13-16 | the pull date fails to unpack exactly when it does not have two `-`; a successful name starts with `PCPI` and has an `M` after it |
| Vintage.VintageColumnOfParts | load_functions.py:13-16 | for `year-month-day` with a numeric month the name is `PCPI` + `year[2:]` + `M` + month without leading zeros |
| Vintage.NonNumericMonthFails | load_functions.py:15 | a month that `int()` rejects raises, with that month |
| Vintage.VintageColumnOfIsoDate | load_functions.py:13-16 | for a `%Y-%m-%d` pull date the name is `PCPI` + the year without its first two digits + `M` + the month number |
| Vintage.March2025Column | load_functions.py:13-16 | `2025-03-01` selects `PCPI25M3` |
| Vintage.GetLatestData | load_functions.py:12-19 | a bad pull date or a missing column raises; otherwise the result has one `(DATE, CPI)` row per workbook row, in the same order, with the reading from the vintage column |
| Refresh.Filter | load_functions.py:25 | a boolean mask keeps every copy of each row it selects and drops every other row, so it never adds rows |
| Refresh.FilterCongruent | load_functions.py:25 | two masks that agree on every row select the same rows |
| Refresh.FilterKeepsAll | load_functions.py:25 | a mask that selects every row keeps the table as it is |
| Refresh.EmptyWhenNothingSelected | load_functions.py:25 | a mask that selects no row leaves nothing |
| Refresh.DatesOf | load_functions.py:24 | the set of dates holds the date of every row, and only those |
| Refresh.KeepPresent | load_functions.py:23 | `dropna(subset=['CPI'])` keeps every copy of each row that has a reading, and no other row |
| Refresh.FreshRows | load_functions.py:23-25 | the rows `update_append` inserts are the latest rows that have a reading and a date not in the table, each as often as it occurs in the latest data |
| Refresh.AfterAppend | load_functions.py:21-27 | after `update_append` all old rows are still first and unchanged; the rows after them are the latest rows with a reading and a new date, each as often as it occurs in the latest data |
| Refresh.AppendCoversLatest | load_functions.py:24-27 | after `update_append` every date with a reading in the latest data is in the table |
| Refresh.AppendUnchangedWhenNothingNew | load_functions.py:26 | when every latest date is already present the table is unchanged |
| Refresh.AppendIdempotent | load_functions.py:21-27 | a second `update_append` with the same data changes nothing |
| Refresh.AfterTruncate | load_functions.py:29-34 | after `update_truncate` the table holds each latest row that has a reading exactly as often as the latest data does, and nothing else, whatever it held before; empty latest data leaves it empty |
| Refresh.Disagreeing | load_functions.py:42-46 | the number of table rows with the latest row's date and another reading is at most the table size, and 0 exactly when every table row of that date agrees |
| Refresh.Mismatches | load_functions.py:42-46 | the merge yields a changed row for a latest row exactly when some table row has its date and another reading |
| Refresh.MismatchesCopies | load_functions.py:42-47 | the merge and its filter yield one copy of the latest row per table row with its date and another reading, and nothing else |
| Refresh.EmittedCopies | load_functions.py:42-47 | a latest row contributes to `updated_data` only copies of itself: one if its date is not in the table (`CPI_old` is NaN), else one per disagreeing table row |
| Refresh.Changed | load_functions.py:42-47 | the rows `update_incremental` installs are exactly the latest rows whose date is absent from the table or whose reading differs from a table row of that date |
| Refresh.ChangedCopies | load_functions.py:42-47 | `updated_data` holds each row as often as the present latest data does, times the number of rows the merge emits for it |
| Refresh.AfterIncremental | load_functions.py:36-56 | on an empty table `update_incremental` inserts each latest row with a reading as often as it occurs; every row afterwards is an old row or a latest row with a reading |
| Refresh.IncrementalReplacesChangedDates | load_functions.py:41-54 | on a non-empty table, with no condition on the latest data: every row of a date in `updated_data` is deleted, other rows keep all their copies, and each latest row with a reading is appended once per row the merge emits for it; so every changed row is in the table and no other old row of its date survives |
| Refresh.IncrementalReplacesAll | load_functions.py:49-54 | when `updated_data` has a row of every date in a non-empty table, the table becomes `updated_data` |
| Refresh.IncrementalKeepsAgreeingRows | load_functions.py:41-54 | when every table row of a date agrees with every latest reading of that date, each of those rows keeps all its copies |
| Refresh.IncrementalKeepsAgreedReading | load_functions.py:41-54 | a table row whose reading agrees with every latest reading of its date is still in the table afterwards |
| Refresh.IncrementalDropsCopies | load_functions.py:41-54 | such a row can still lose copies: `[e, e, f]` with `f` another reading of the date and latest data `[e]` becomes `[e]` |
| Refresh.IncrementalKeepsUnlistedDates | load_functions.py:41-54 | a table row whose date has no reading in the latest data keeps all its copies |
| Refresh.IncrementalInstallsLatest | load_functions.py:41-56 | with one reading per date, every latest row with a reading is in the table afterwards and is the only row of its date |
| Refresh.NothingChangedWhenAgreeing | load_functions.py:44-49 | when every latest date is present with the same reading, nothing is to be updated |
| Refresh.IncrementalIdempotent | load_functions.py:36-56 | with one reading per date, a second `update_incremental` with the same data changes nothing |
| Refresh.IncrementalAlternates | load_functions.py:41-54 | with two readings `v` and `w` for one date, a table holding `v` gets `w` and a table holding `w` gets `v`: the table flips on every run, and a latest row can be absent afterwards |
| Refresh.IncrementalGrows | load_functions.py:41-56 | with three readings for one date, an empty table gets each once and the next run installs each twice, so the table grows from 3 to 6 rows |
| Refresh.PoliciesAgreeOnEmptyTable | load_functions.py:21-56 | on an empty table all three policies produce the same table |
| Refresh.NeverInsertsMissing | load_functions.py:21-38 | no policy inserts a row whose reading is missing, so a table without missing readings keeps none |
| Refresh.RefreshIdempotent | load_functions.py:21-56 | every policy is idempotent on the same latest data (incremental: with one reading per date) |
| Refresh.FirstErrorIsFirst | load_functions.py:60-61 | a run passes exactly when `get_latest_data` succeeds on every pull; otherwise it raises the error of the first pull on which it fails, after all earlier pulls succeeded |
| Refresh.ReplayRaisesFirstError | load_functions.py:58-63 | whatever the policy, a `measure_time` run raises exactly the first pull's error, if any |
| Refresh.ReplayNoMissing | load_functions.py:58-63 | however many pulls are applied, a table without missing readings never gets one |
| Refresh.ReplayTruncateKeepsLast | load_functions.py:29-34 | under `update_truncate`, a run in which every pull succeeds ends with exactly the last pull's rows |
| LoadFunctions.CpiTable.constructor | load_functions.py:21 | the table starts with the given rows: the `cpi_table` that the connection `con` already holds |
| LoadFunctions.CpiTable.SelectDates | load_functions.py:24 | `SELECT DATE ... .tolist()` lists the date of every row, in order |
| LoadFunctions.CpiTable.SelectAll | load_functions.py:39 | `SELECT *` returns the rows |
| LoadFunctions.CpiTable.DeleteAll | load_functions.py:32 | `DELETE FROM cpi_table` leaves no row |
| LoadFunctions.CpiTable.DeleteDates | load_functions.py:50-53 | `DELETE ... WHERE DATE IN (...)` removes exactly the rows with a listed date and keeps the others in order |
| LoadFunctions.CpiTable.Insert | load_functions.py:27 | `to_sql(..., if_exists='append')` adds the new rows after the existing ones |
| LoadFunctions.UpdateAppend | load_functions.py:21-27 | raises `get_latest_data`'s error with the table untouched, or leaves exactly `AfterAppend` of the old table |
| LoadFunctions.UpdateTruncate | load_functions.py:29-34 | raises with the table untouched, or leaves exactly `AfterTruncate` of the latest data |
| LoadFunctions.UpdateIncremental | load_functions.py:36-56 | raises with the table untouched, or leaves exactly `AfterIncremental` of the old table |
| LoadFunctions.RunPolicy | load_functions.py:61 | `update_method(...)` behaves as the chosen policy |
| LoadFunctions.MeasureTime | load_functions.py:58-63 | the table and outcome after the loop are those of replaying the policy over the pull dates in order, formatted `%Y-%m-%d`, stopping at the first error |
| CleanData.NumericTextIsNoToken | test.py:71 | the text of a number is never a null token |
| CleanData.DateTextIsNoToken | test.py:71 | the text of a date is never a null token |
| CleanData.NullTokenCells | test.py:71 | the null tokens are exactly `None`, NaN and the strings whose lower case is `nan` or `none` |
| CleanData.Normalize | test.py:71 | a cell becomes `None` exactly when it is a null token, and is otherwise unchanged |
| CleanData.NullTokenSpellings | test.py:71 | a text cell is a null token exactly when it spells `nan` or `none` in any mix of cases |
| CleanData.NullSpellingsCollapse | test.py:71 | `"NaN"`, `"nan"`, `"None"`, `"NONE"`, NaN and `None` all become the same marker |
| CleanData.NormalizeIdempotent | test.py:71 | normalising twice is normalising once |
| CleanData.Clean | test.py:70-73 | headers and shape are kept; each cell becomes `None` exactly when it is a null token and is otherwise unchanged; the index becomes 0..n-1 |
| CleanData.CleanLeavesOnlyMarker | test.py:71 | after cleaning the only null token left in any cell is `None` itself |
| CleanData.CleanIdempotent | test.py:70-73 | cleaning a cleaned frame changes nothing |
| Counts.CountEqual | test.py:90 | the count is at most the number of rows, and 0 exactly when no cell equals the value |
| Counts.ColumnIndex | test.py:100 | a header is found exactly when present, at a position holding that header |
| Counts.Column | test.py:100 | `dataframe[column]` has one cell per row, taken from that column |
| Counts.ExpectedCount | test.py:90 | an absent column raises `KeyError`; otherwise the count is at most the row count and 0 exactly when no row matches |
| Counts.CountEqualCongruent | test.py:90 | counts over two columns that match the value at the same rows are equal |
| Counts.CleanedNeverMatchesNullToken | test.py:71 | after cleaning, querying a null token such as `"none"` counts 0 |
| Counts.CleanKeepsGenuineCounts | test.py:71 | cleaning does not change the count of any value that is not a null token |
| Counts.CountAmong | test.py:139-143 | the number of rows whose value is one of the categories, at most the row count |
| Counts.CountAmongExtend | test.py:139-143 | adding a new category adds exactly its own count to the number of rows in the list |
| Counts.SumOfDistinctCategories | test.py:139-143 | summing the per-category counts over distinct categories gives the number of rows whose value is in the list |
| Counts.CategoryTotal | test.py:139-143 | the loop's total is the sum of the per-category counts, the number of rows in the list when categories are distinct, `KeyError` for a missing column, and 0 for no categories |
| Counts.FixtureReasonCount | test.py:14-25 | in the fixture's `Reason` column `Mechanical` occurs twice, `Accident` and `Weather` once, anything else never |
| Counts.FixtureBoroCount | test.py:14-25 | in the fixture's `Boro` column each of the four boroughs occurs once, anything else never |
| Counts.FixtureDateCount | test.py:14-25 | in the fixture's `Occurred_On` column 2025-02-27 occurs twice, 2025-02-28 and 2025-03-01 once, any other day never |
| Counts.FixtureReasonCounts | test.py:38-41 | the `Reason` counts the reason test expects: 2, 1, 0 |
| Counts.FixtureBoroCounts | test.py:43-46 | the `Boro` counts the borough test expects: 1, 1, 0 |
| Counts.FixtureDateCounts | test.py:33-36 | the `Occurred_On` counts the date test expects: 2, 1, 0 |

Definitions with no contract of their own, whose properties the rows above state:

- `Text.ParseInt` (`int()`, load_functions.py:15) and `Text.ShowInt` (`str()` of an integer): `Text.ParseShowInt`, `Text.ShowNatDropsLeadingZeros`.
- `Text.IsoDate` (`strftime('%Y-%m-%d')`, load_functions.py:61): `Text.IsoDateParts`, `Vintage.VintageColumnOfIsoDate`.
- `Vintage.DropCentury` (`year[2:]`, load_functions.py:14): `Vintage.VintageColumnOfParts`.
- `CleanData.Stringify` and `CleanData.IsNullToken` (the lambda at test.py:71): `CleanData.NullTokenCells`, `CleanData.NullTokenSpellings`.
- `Counts.CellEquals` (pandas `==` with missing values, test.py:90): `Counts.CountEqual`, `Counts.CleanedNeverMatchesNullToken`.
- `Counts.SumCounts` (the loop total of test.py:139-143): `Counts.CategoryTotal`, `Counts.SumOfDistinctCategories`.
- `Counts.Fixture` (`load_test_data`, test.py:14-25): `Counts.FixtureReasonCount`, `Counts.FixtureBoroCount`, `Counts.FixtureDateCount`.
- `Refresh.Copies` and `Refresh.Emitted` (the rows the merge emits per latest row, load_functions.py:42-47): `Refresh.EmittedCopies`, `Refresh.ChangedCopies`.
- `Refresh.After`, `Refresh.Fetched` and `Refresh.Replay` (one refresh, and the loop of load_functions.py:58-63): `Refresh.NeverInsertsMissing`, `Refresh.RefreshIdempotent`, `Refresh.ReplayRaisesFirstError`, `Refresh.ReplayNoMissing`, `Refresh.ReplayTruncateKeepsLast`, `LoadFunctions.MeasureTime`.

## Left out

- `load_data` (load_functions.py:6-10): the HTTP download and Excel parsing. The workbook each pull would download is a parameter, as a `RawFrame`.
- The clock in `measure_time`: the model returns the outcome and the table instead of the elapsed seconds.
- The placeholder string of the `DELETE ... IN (?, ...)` statement in `update_incremental`: only its effect is modelled. `CpiTable.DeleteDates` requires a non-empty list, as the source only issues the statement then.
- Row order in `cpi_table`: an SQL table has none. The model keeps rows in insertion order. The contracts about contents count the copies of each row (multisets), which do not depend on that order.
- app.py, add_users.py, delete_users.py, test_lab5_as.py, and the query functions test.py imports from app: these are web and I/O plumbing. The query functions are not part of this model.
- The HTTP-calling tests and the data-quality tests on the downloaded dataset, with their constants 44077 and 44081: they need a live server and the real data. Only their counting idiom is modelled.
- DuckDB reads and pandas timestamp parsing in the fixtures: dates are `CalendarDate` values or strings compared for equality.
- Text.ParseInt: models `int()` on an optional sign followed by ASCII digits. Python also accepts surrounding whitespace, underscores and non-ASCII digits, which a `%Y-%m-%d` month never contains.
- Text.Lower: lower-cases ASCII letters only. Other characters do not affect whether a cell reads `nan` or `none`.
- Text.IsoDate: pads the year to four digits. Some platforms' `strftime` does not pad years before 1000.
- Cells other than missing values, integers, strings and dates (floats, booleans) are not modelled. NaN is the only float.
- CleanData.Clean, CleanData.NullSpellingsCollapse, CleanData.CleanLeavesOnlyMarker: pandas re-infers each column's dtype after `map`, so in a numeric column the `None` the lambda returns is stored as NaN again, and the integers beside it become floats. The model keeps `None` and the integers as they are. No count changes, because NaN and `None` both never compare equal.
- Duplicate column headers: `Column` takes the first column with the header.
- Refresh.IncrementalIdempotent: requires one reading per date in the latest data. Without it a second run can change the table: `Refresh.IncrementalAlternates` shows a table that flips between two readings on every run, and `Refresh.IncrementalGrows` shows one that doubles its rows of a date, because the merge emits one row per disagreeing table row.
- Refresh.IncrementalInstallsLatest: requires one reading per date in the latest data. Without it a latest row with a reading can be missing afterwards, as `Refresh.IncrementalAlternates` shows for the reading the table held before. The general effect of a run, with no such condition, is `Refresh.IncrementalReplacesChangedDates`.
- Refresh.RefreshIdempotent: for the incremental policy, only under the same one-reading-per-date condition.
