# SVK power scraper: reconciliation and data-quality model

This project is a Dafny model of the parts of the SVK power scraper that decide what the stored hourly power series contains and how it is judged. The series is the master table of hourly forecast ("Prognos (MW)") and consumption ("Förbrukning (MW)") rows, keyed by (Date, Timme).

The model covers:

- `GitHubActionsDataManager.merge_dataframes` (module `Merging`). It merges a newly scraped batch into the stored table: concatenate, keep the last row per (Date, Timme), then sort by key. When one side is empty, the other side is returned unchanged.
- `GitHubActionsDataManager.get_missing_dates` (module `Runner`). It lists the days of the recent window. Days the table holds are left out only when the clock reads exactly midnight; at any other time every window day is listed (see the midnight quirk below).
- The backup retention of `save_master_data` (`Runner.DataManager`, with names and string order in `Backups`). Before the master file is overwritten it is copied to `backup_<stamp>.csv`. Then only the five greatest `backup_*.csv` names survive.
- `DataQualityChecker` (modules `Quality` and `QualityReport`). It covers:
  - date continuity, duplicate keys, null counts and incomplete days;
  - minimum, maximum and the outlier and suspicious counts of the numeric columns;
  - coverage of the last 30 days;
  - `run_all_checks`, which records every metric and files each judged check as passed or failed.

## Representation

- **Dates.** A date is a day ordinal (`Calendar.Day`). The table stores dates as ISO `YYYY-MM-DD` strings, which order and group like the ordinals.
- **Clock readings.** `datetime.now()` is an explicit `Instant(day, micros)` parameter: the day and the microseconds since midnight, the resolution `datetime` carries.
- **The midnight quirk.** A parsed date is midnight of its day (`Calendar.Midnight`). The windows of `calculate_coverage` and `get_missing_dates` start at now's time of day, because `timedelta` keeps the time of day.
  - This is modelled as written.
  - Rows of the window's first day count towards coverage only when now is exactly midnight, 00:00:00.000000 (`Quality.FirstCountedDay`).
  - The set difference in `get_missing_dates` removes nothing unless now is midnight (`Runner.MissingRecentDatesOffMidnight`).
- **Rows and tables.** A row is `Row(date, hour, cells)`. A cell is null, a number, or non-numeric text. A `Frame` is the header plus the rows.
- **Stateful objects.** `save_master_data` and `run_all_checks` update objects in place. They are the classes `Runner.DataManager` (the master file and the backup directory) and `QualityReport.QualityChecker` (the metrics dictionary as fields).
- **Loops.** The loops of `check_missing_values`, `check_data_gaps`, `check_value_ranges` and the backup deletion are methods with loop invariants. Each gathering loop is proved equal to a specification function. The deletion loop is proved to leave exactly the backups that the `KeepsGreatest` predicate describes.

## Model

| member | source | states |
|---|---|---|
| Merging.LastWith | scripts/github_actions_runner.py:120 | the row keep='last' retains for a key is a row of the input with that key |
| Merging.LastWithIsLast | scripts/github_actions_runner.py:120 | that row sits at a position after which no row carries the key, so it is the last one with the key |
| Merging.LastIndex | scripts/github_actions_runner.py:120 | the position of a key's last row, -1 when no row carries the key: that position holds the key and no later one does |
| Merging.LastIndexIsLastWith | scripts/github_actions_runner.py:120 | a key has a position iff some row carries it, and the row there is the one keep='last' retains |
| Merging.KeepLast | scripts/github_actions_runner.py:120 | keeps exactly the rows that are the last of their key, as a subsequence of the input; no key repeats and no key is lost |
| Merging.KeepLastOrder | scripts/github_actions_runner.py:120 | the kept rows appear in ascending order of their keys' last positions in the input (input order kept), so a row repeated verbatim sits where its last copy was |
| Merging.InLastOrderUnique | scripts/github_actions_runner.py:120 | two sequences with the same rows, both in last-position order, are equal |
| Merging.KeepLastDetermined | scripts/github_actions_runner.py:120 | any sequence holding exactly the last row of each key, in last-position order, is KeepLast's result: its contract and KeepLastOrder fix the output of keep='last' |
| Records.KeyLt | scripts/github_actions_runner.py:123 | the order of `sort_values(['Date', 'Timme'])`: by date, then by hour; SortByKeySorted and Merge state sortedness in it |
| Merging.SortByKey | scripts/github_actions_runner.py:123 | the result is a permutation of the input (multiset equality) |
| Merging.SortByKeySorted | scripts/github_actions_runner.py:123 | the sorted table holds exactly the input's rows and keys, is ordered by (Date, Timme), and strictly so when the keys are unique |
| Merging.Merge | scripts/github_actions_runner.py:109-127 | an empty existing table yields the batch unchanged; an empty batch yields the existing table; otherwise the result is strictly ascending by key, holds the union of both key sets, is no longer than both inputs together, and holds exactly the rows that are last of their key in existing ++ incoming |
| Merging.MergeMembers | scripts/github_actions_runner.py:117-123 | a row is in the merge of two non-empty tables iff its key occurs in either and it is that key's winner (the batch's last row, else the stored table's last row) |
| Merging.MergeLookup | scripts/github_actions_runner.py:117-120 | last write wins for any two tables, empty ones included: after a merge, a key of the batch holds the batch's last row with that key, and any other key holds the stored table's last row |
| Merging.LastWithAppend | scripts/github_actions_runner.py:117-120 | the last row of a key in a concatenation is the second part's last row, or the first part's when the second lacks the key |
| Merging.StrictlySortedUnique | scripts/github_actions_runner.py:123 | two strictly key-sorted tables with the same rows are equal, so the merge result does not depend on the sort algorithm |
| Merging.MergeSelfCanonical | scripts/github_actions_runner.py:109-127 | merging a canonical (strictly sorted) table with itself returns it |
| Merging.MergeIdempotent | scripts/github_actions_runner.py:109-127 | merging the same batch a second time changes nothing, when the stored table was non-empty or the batch is already strictly sorted |
| Merging.MergeIntoEmptyKeepsBatchOrder | scripts/github_actions_runner.py:111-112 | an unsorted batch merged into an empty table is returned as is, so merging it again reorders it; idempotence needs the precondition above |
| Merging.MergeAssociative | scripts/github_actions_runner.py:109-127 | merging three tables gives the same result whichever merge is done first, including when some are empty |
| Runner.MissingRecentDates | scripts/github_actions_runner.py:129-141 | an empty table yields no dates; the result is strictly ascending, has at most days_back + 1 days, all between now - days_back and now; a window day is listed iff it is not the case that now is midnight and the table holds that date |
| Runner.MissingRecentDatesOffMidnight | scripts/github_actions_runner.py:134-139 | when now is not midnight, all days_back + 1 window days are reported missing for any non-empty table |
| Runner.DataManager.PruneBackups | scripts/github_actions_runner.py:80-84 | only backup names are removed; surviving files keep their contents; non-backup files all survive; the surviving backup names are the min(5, n) greatest names; with at most five backups nothing changes |
| Runner.DataManager.SaveMasterData | scripts/github_actions_runner.py:71-87 | the master becomes the new table; without a previous master the backups are untouched; with one, the old master is stored under the stamped backup name, then the backups are pruned to the five greatest, and a stamp greater than every earlier backup name survives the pruning |
| Backups.IsBackupName | scripts/github_actions_runner.py:81 | the glob pattern backup_*.csv: a name that starts with "backup_", ends with ".csv", and is long enough for both not to overlap; BackupFileName and ListBackups are stated against it |
| Backups.LexLess | scripts/github_actions_runner.py:81 | Python's < on str: code-point order, a proper prefix first; its order properties are LexLessIrreflexive, LexLessTransitive and LexLessTotal |
| Backups.BackupFileName | scripts/github_actions_runner.py:75 | the name built from a stamp matches the backup_*.csv pattern |
| Backups.InsertName | scripts/github_actions_runner.py:81 | inserting a new name into an ascending listing keeps it ascending and adds exactly that name |
| Backups.ListBackups | scripts/github_actions_runner.py:81 | the listing is strictly ascending in string order and holds exactly the matching names |
| Backups.LexLessIrreflexive | scripts/github_actions_runner.py:81 | no name sorts before itself |
| Backups.LexLessTransitive | scripts/github_actions_runner.py:81 | the string order used by sorted() is transitive |
| Backups.LexLessTotal | scripts/github_actions_runner.py:81 | any two different names are ordered one way or the other |
| Backups.KeepsGreatestUnique | scripts/github_actions_runner.py:82-84 | the set of the n greatest names is determined by the directory |
| Backups.AscendingSuffixKeepsGreatest | scripts/github_actions_runner.py:83-84 | keeping the last n entries of the sorted listing keeps the n greatest names |
| Runner.DroppingOldestKeepsGreatest | scripts/github_actions_runner.py:81-84 | deleting all but the last n entries of the sorted backup listing deletes only backup names and leaves exactly the n greatest |
| Backups.NewestIsKept | scripts/github_actions_runner.py:75-84 | a name greater than every other backup name survives retention |
| Calendar.Midnight | scripts/github_actions_runner.py:138 | the timestamp `pd.to_datetime` gives a `YYYY-MM-DD` date: that day at 00:00:00.000000; MissingRecentDates and WindowIsDays are stated against it |
| Calendar.InstantLe | scripts/data_quality_check.py:191 | the `>=`/`<=` comparison of timestamps: earlier day first, and on the same day the earlier time of day; FirstCountedDay states the window test through it |
| Calendar.DaysBefore | scripts/github_actions_runner.py:135 | `now - timedelta(days=n)`: n days earlier at the same time of day; FirstCountedDay and MissingRecentDates state the windows that start there |
| Calendar.RangeMinus | scripts/data_quality_check.py:78-81 | the sorted daily timestamps of a range that are not present: strictly ascending, a day is listed iff it is in the range and its timestamp is absent, at most the range's length |
| Calendar.RangeMinusNothingPresent | scripts/github_actions_runner.py:137-139 | when no timestamp of the range is present, every day of the range is listed |
| Calendar.DayRangeSize | scripts/data_quality_check.py:78 | the daily range from lo to hi holds hi - lo + 1 days |
| Records.MinDate | scripts/data_quality_check.py:76 | the earliest date is a date of the table and no row is earlier |
| Records.MaxDate | scripts/data_quality_check.py:77 | the latest date is a date of the table and no row is later |
| Records.DayCount | scripts/data_quality_check.py:127 | the size of a date's group is at most the row count and positive iff the date occurs |
| Quality.DateContinuity | scripts/data_quality_check.py:63-87 | empty for an empty table or one without a Date column; always strictly ascending |
| Quality.DateContinuityMembers | scripts/data_quality_check.py:75-81 | for a non-empty table with a Date column, a day is listed iff it lies strictly between the first and the last date and no row carries it |
| Quality.DateContinuityCount | scripts/data_quality_check.py:76-81 | the number of missing dates is the span in days minus the number of distinct dates |
| Quality.DateContinuitySingleDate | scripts/data_quality_check.py:72-81 | a table with at most one distinct date has no missing dates |
| Quality.KeyCount | scripts/data_quality_check.py:97 | the number of rows with a key is at most the row count and positive iff the key occurs |
| Quality.DuplicateCount | scripts/data_quality_check.py:89-103 | 0 for an empty table or a missing Date or Timme column; never 1, since every row of a repeated key is counted; at most the row count; 0 iff all keys are unique when both key columns are present |
| Quality.MarkedCount | scripts/data_quality_check.py:97-98 | the number of rows of a table that duplicated(keep=False) marks; its properties are the three lemmas below |
| Quality.MarkedCountBound | scripts/data_quality_check.py:97-98 | no more rows are marked than there are rows |
| Quality.MarkedCountZero | scripts/data_quality_check.py:97-98 | no row is marked iff no row's key occurs twice in the table |
| Quality.MarkedCountCoversKey | scripts/data_quality_check.py:97-98 | when a key occurs at least twice, every row with that key is marked |
| Quality.UniqueIffSingleKeys | scripts/data_quality_check.py:97 | keys are unique iff no row's key occurs twice |
| Quality.TwoRowsOneKey | scripts/data_quality_check.py:97-98 | two rows sharing a key are both counted (keep=False) |
| Quality.MergedTableHasNoDuplicates | scripts/data_quality_check.py:89-103 | a table produced by merging two non-empty tables reports no duplicates |
| Quality.NullCount | scripts/data_quality_check.py:112 | the null count of a column is at most the row count and zero iff no row is null there |
| Quality.MissingValues | scripts/data_quality_check.py:105-116 | a column is reported iff it is in the header and some row is null there; each count is between 1 and the row count; nothing is reported when only key columns exist |
| Quality.CheckMissingValues | scripts/data_quality_check.py:105-116 | the column loop computes exactly MissingValues |
| Quality.GapsAmongSound | scripts/data_quality_check.py:130-136 | every reported gap is an incomplete date of the walked dates, with its hours found and missing |
| Quality.GapsAmongComplete | scripts/data_quality_check.py:130-136 | every walked date with fewer than 24 rows is reported with its hours found and missing |
| Quality.GapsAmongOrdered | scripts/data_quality_check.py:130-136 | gaps come out in the order of the walked dates |
| Quality.GroupDates | scripts/data_quality_check.py:127 | groupby('Date') visits exactly the table's dates, each once, in ascending order |
| Quality.DataGapsSound | scripts/data_quality_check.py:127-136 | every entry for the grouped dates is a date of the table with 1 to 23 rows, its row count as hours found, and found plus missing equal to 24 |
| Quality.DataGapsComplete | scripts/data_quality_check.py:127-136 | every date of the table with fewer than 24 rows has its entry among the grouped dates' entries |
| Quality.DataGapsReportsIncompleteDays | scripts/data_quality_check.py:118-142 | no gaps for an empty table or one without a Date column; gaps are ascending by date; each has a date of the table, 1 to 23 hours found equal to that date's row count, and found plus missing equal to 24; every date with fewer than 24 rows is reported |
| Quality.DataGaps | scripts/data_quality_check.py:118-142 | the list check_data_gaps returns; its properties are stated by DataGapsReportsIncompleteDays, and CheckDataGaps is proved equal to it |
| Quality.CheckDataGaps | scripts/data_quality_check.py:118-142 | the loop over the grouped dates computes exactly DataGaps, whatever the threshold |
| Quality.NumericValues | scripts/data_quality_check.py:158-159 | a column's coerced, non-null values: at most one per row; NumericValuesAreCells states which they are |
| Quality.NumericValuesAreCells | scripts/data_quality_check.py:158-159 | a value is among the coerced values of a column iff some row holds exactly that number in the column |
| Quality.Minimum | scripts/data_quality_check.py:163 | the minimum is one of the values and no value is smaller |
| Quality.Maximum | scripts/data_quality_check.py:164 | the maximum is one of the values and no value is larger |
| Quality.CountBelow | scripts/data_quality_check.py:167 | (values < 0).sum(): at most the number of values; CountBelowWitness says when it is positive |
| Quality.CountAbove | scripts/data_quality_check.py:168 | (values > 50000).sum(): at most the number of values; CountAboveWitness says when it is positive |
| Quality.CountsDisjoint | scripts/data_quality_check.py:167-168 | values below 0 and values above 50000 together are at most all values |
| Quality.CountBelowWitness | scripts/data_quality_check.py:167 | the negative count is positive iff some value is negative |
| Quality.CountAboveWitness | scripts/data_quality_check.py:168 | the suspicious count is positive iff some value exceeds the bound |
| Quality.Stats | scripts/data_quality_check.py:161-169 | min and max are values of the column and bound every value; outliers plus suspicious is at most the value count; outliers > 0 iff min < 0; suspicious > 0 iff max > 50000 |
| Quality.ValueRanges | scripts/data_quality_check.py:144-173 | a column has figures iff it is one of the two numeric columns, present in the header, and some row holds a number in it; its min and max are numbers of the column that bound every number in it; outliers is positive iff some number of the column is negative, and suspicious iff some number exceeds 50000 |
| Quality.ColumnHasNumbers | scripts/data_quality_check.py:158-161 | a column's coerced values are non-empty iff some row holds a number in it |
| Quality.StatsDescribeColumn | scripts/data_quality_check.py:161-168 | the figures of a column's coerced values describe its numeric cells, as ValueRanges states |
| Quality.CheckValueRanges | scripts/data_quality_check.py:144-173 | the loop over the two numeric columns computes exactly ValueRanges |
| Quality.CountInWindow | scripts/data_quality_check.py:190-192 | the rows whose parsed date lies in the window are at most all rows |
| Quality.Coverage | scripts/data_quality_check.py:175-201 | coverage is non-negative, and 0 for an empty table, a table without Date, or a negative window |
| Quality.FirstCountedDay | scripts/data_quality_check.py:182-191 | a day's midnight is at or after the window start (now - days_back, with now's time of day) iff the day is not before FirstCountedDay: the first day whose rows fall in the window |
| Quality.WindowIsDays | scripts/data_quality_check.py:182-192 | the rows in the window are exactly those dated from FirstCountedDay to today |
| Quality.CoverageCountsDays | scripts/data_quality_check.py:182-195 | coverage is 100 times the rows dated FirstCountedDay..today over 24 per window day |
| Quality.DaysCountFull | scripts/data_quality_check.py:187-192 | days of 24 rows each hold 24 rows per day together |
| Quality.CoverageFullWindow | scripts/data_quality_check.py:182-195 | a table with 24 rows on every window day scores 100% when now is midnight and 100 * days_back / (days_back + 1) otherwise |
| Quality.HoursOnCount | scripts/data_quality_check.py:127 | with unique keys, a date's row count equals its number of distinct hours |
| Quality.DayCountAtMostFull | scripts/data_quality_check.py:131 | with unique keys and hours 0..23, no date holds more than 24 rows |
| Quality.CoverageAtMostFull | scripts/data_quality_check.py:187-195 | coverage lies between 0 and 100 when keys are unique and hours lie in 0..23 |
| Quality.RoundingKeepsVerdict | scripts/data_quality_check.py:196 | any value within 0.005 of the exact 30-day coverage, such as its two-decimal rounding, falls on the same side of the 90% threshold |
| QualityReport.Judge | scripts/data_quality_check.py:221-263 | exactly five outcomes are filed; nothing fails iff there are no missing dates, duplicates, missing values or gaps and coverage is at least 90 |
| QualityReport.JudgeNamesFailures | scripts/data_quality_check.py:224-252 | each of the first four checks is listed among the failures, with its count, iff it found something |
| QualityReport.JudgeCoverage | scripts/data_quality_check.py:259-263 | low coverage is a failure iff below 90, and good coverage a pass iff at least 90, each quoting the percentage |
| QualityReport.CompleteTablePasses | scripts/data_quality_check.py:203-265 | a table without date holes, with 24 rows per date, unique keys, no nulls and at least 90% coverage fails no check |
| QualityReport.NoHoleNoMissingDates | scripts/data_quality_check.py:63-87 | a table whose dates run without a hole has no missing dates |
| QualityReport.FullDaysNoGaps | scripts/data_quality_check.py:118-142 | a table whose dates each hold 24 rows has no gaps |
| QualityReport.NoNullsNoMissingValues | scripts/data_quality_check.py:105-116 | a table without a null cell reports no missing values |
| QualityReport.QualityChecker.constructor | scripts/data_quality_check.py:35-47 | every metric starts at its initial value: zero counts, empty lists and maps, no issues |
| QualityReport.QualityChecker.RunAllChecks | scripts/data_quality_check.py:203-265 | an empty table marks issues, appends "No data found" and leaves every other metric alone; otherwise each metric equals its check's specification, the passed and failed lists grow by the verdict's outcomes, and issues are flagged iff a check failed or were already flagged |
| QualityReport.QualityChecker.RecordMetrics | scripts/data_quality_check.py:212-258 | records the record count, the date span (only when a Date column exists), and the result of every check |
| QualityReport.QualityChecker.FileOutcomes | scripts/data_quality_check.py:224-263 | appends the verdict of the recorded metrics to the passed and failed lists, and flags issues iff something failed |
| QualityReport.QualityChecker.FileOutcome | scripts/data_quality_check.py:224-228 | one check's outcome goes to passed when it holds and to failed otherwise; a failure flags issues |

## Left out

- File and process I/O is not modelled:
  - reading and writing CSV (UTF-8 with BOM), `update_state`'s JSON file, the HTML and JSON reports (`generate_html_report`, `save_reports`);
  - logging, environment variables, the scraper and the daily, weekly and custom workflows, and `main`.
  - The files are a map from name to rows held by `Runner.DataManager`.
- `load_data`: a missing or unreadable file becomes an empty table, which is modelled as a `Frame` without rows. The error path itself is not modelled.
- Empty tables: pandas also calls a table with rows but no columns empty. In the model only a table without rows is empty; a CSV with rows always has a header.
- Dates: every Date value is a well-formed ISO date. The `try/except` branches for unparseable dates are not modelled.
- Key columns: Date and Timme are never null in a row, so their null counts are always zero.
- Row contents: rows carry cells per column name. The column order of `pd.concat` over tables with different headers is not modelled.
- Numbers:
  - `pd.to_numeric(errors='coerce')` is modelled as "numeric cells count, text and nulls do not". Text that pandas would parse as a number is not recognised.
  - Values are exact reals, not floats.
- Quality.Stats: does not compute the `mean` and `std` figures of `check_value_ranges`, which need floating-point arithmetic.
- Quality.Coverage: returns the exact ratio instead of `round(coverage, 2)`, because Python's round-half-even on floats is not modelled. `Quality.RoundingKeepsVerdict` shows the rounding cannot change the 90% verdict at 30 days.
- Quality.CheckDataGaps: takes `threshold_hours` but, like the source, never consults it.
- Merging.Merge: a non-empty side without a `Date` or `Timme` column, where `drop_duplicates` and `sort_values` raise `KeyError`, is not modelled; every row carries its date and hour.
- Runner.MissingRecentDates: a non-empty table without a Date column, where the source raises `KeyError`, is not modelled; the function reads the rows' dates directly.
- Dates as text: `get_missing_dates` and `check_date_continuity` return `YYYY-MM-DD` strings. The model returns the days themselves, since formatting is a bijection on dates.
- Backup stamps: the `%Y%m%d_%H%M%S` stamp of the current time is a parameter of `SaveMasterData`. Two saves within one second share a name, and the second backup replaces the first.
- QualityReport.QualityChecker.RunAllChecks: computes every metric first and then files the five outcomes in check order. The source interleaves the two. The final state is the same because no check reads the outcome lists.
- QualityReport.QualityChecker.RunAllChecks: keeps the value ranges as `Some(...)` only after a run. The initial metrics dictionary has no `value_ranges` entry, modelled as `None`.
- Outcome text: the strings appended to `checks_passed` and `checks_failed` are modelled as an `Outcome` datatype carrying the same counts and, for coverage, the unrounded percentage (see Quality.Coverage) where the messages print `round(coverage, 2)`. The exact message text is not modelled.
