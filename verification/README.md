# COT data automation, modelled in Dafny

This project models the core of a small pipeline. The pipeline downloads the
CFTC Commitments of Traders (COT) reports, shapes them with pandas, stores them
as CSV files under `FILEDB` and upserts the same rows into a database. The
modelled operations are:

- `get_legacy_fut_opt` takes the legacy futures or futures-and-options report
  for one market. It tags the rows with `Report_Type` and rewrites the column
  names. It sorts by date, turns "." into NaN and adds `Market_Code`. When
  `hist` is false, it drops the rows whose date the history file already holds.
  Then it saves the result.
- `clean_disagg_fut_opt` takes the disaggregated report for one market. It
  sorts it, can keep a subset of the columns, adds the net speculative length
  and the percent-of-open-interest difference, sorts by date descending,
  replaces "." and adds `Market_Code`.
- `delayed_cot_df` shifts each report date forward by `lag` business days and
  forward-fills every business day with `resample('B').ffill()`. It then copies
  the last row onto each trading day between the last shifted date and
  yesterday.
- `populate_data` cleans the disaggregated report, tags it, applies the same
  history dedup and saves it.
- `check_if_exists`, `save_to_dir` and `insert_into_database` are the storage
  layer. `save_to_dir` creates the directories, creates or appends the CSV file
  and hands the rows to the database. `insert_into_database` tries a bulk
  insert, rolls back and tries a bulk update, and always closes the session.

The model is split by module:

- `Frames` holds the data frames. A frame is a list of column names plus rows;
  each row carries its date beside its cells.
- `Calendar` holds the business-day calendar: `BDay` offsets and the `'B'`
  frequency.
- `ColumnNames` holds the column-name cleaning chain.
- `Database` holds the session and its tables. The `Store` and `Session`
  classes carry the state that the session methods change.
- `Storage` holds the file system. The `FileSystem` class has the directories
  and files as fields.
- `Cot` holds the report shaping, the history dedup and the two entry points.
  Those are methods that act on the file system and the database, proved
  against reference functions.
- `Backfill` holds `delayed_cot_df`. Its nested loop over days and columns is a
  method with loop invariants.

Downloads arrive as a parameter `fetch`, which maps a report name to a frame.
The exchange calendar arrives as a predicate `validDay`, the current date as
`today`, and the database connection's availability as `engineAvailable`.

## Model

| member | source | states |
|---|---|---|
| Calendar.NextWeekday | cot.py:176 | the first weekday strictly after a day, with no weekday in between |
| Calendar.PrevWeekday | cot.py:176 | the last weekday strictly before a day, with no weekday in between |
| Calendar.RollForward | cot.py:176 | a zero business-day offset keeps a weekday and moves a weekend day to the next weekday, skipping no weekday |
| Calendar.AddBusinessDaysForward | cot.py:176 | for lag n >= 1, `d + n*BDay()` is a weekday after d with exactly n weekdays in (d, result] |
| Calendar.AddBusinessDaysBackward | cot.py:176 | for lag n <= -1, the result is a weekday before d with exactly -n weekdays in [result, d) |
| Calendar.AddBusinessDays | cot.py:176 | every business-day shift lands on a weekday, whatever the lag; a positive lag moves strictly forward, a negative one strictly back, and lag 0 is the roll-forward: a weekday is kept and a weekend day goes to the next weekday |
| Calendar.DaysWhereMembers | cot.py:184 | a day is enumerated as a valid day exactly when it lies in [start, end] and the calendar accepts it |
| Calendar.DaysWhereIncreasing | cot.py:184 | the valid days come out strictly increasing and inside the range |
| Calendar.DaysWhereSplit | cot.py:184 | splitting the date range splits the enumeration |
| Frames.IndexOf | cot.py:40 | the first column with the name, or None exactly when the name is absent |
| Frames.SetColumn | cot.py:56 | `df[name] = vals`: overwrites an existing column in place or appends a new one; row i holds vals[i]; dates and every other column unchanged |
| Frames.SelectColumns | cot.py:152 | `df[names]`: exactly the listed columns in the listed order, each cell read from the same row; a KeyError on a listed name that is absent, and only then |
| Frames.ReplaceDots | cot.py:167 | `replace('.', np.nan)`: each cell equal to "." becomes NaN and every other cell is unchanged; columns, dates and row count kept |
| Frames.GetReplaceDots | cot.py:54 | a cell that is not "." reads the same after the replacement |
| Frames.GetReplaceDot | cot.py:54 | after the replacement a lookup reads the old cell with "." as NaN, and an absent column stays absent |
| Frames.ProjectedPerm | cot.py:146 | reordering the rows leaves the bag of their (date, cells) projections unchanged |
| Frames.FilterEq | cot.py:145 | `df[df[col] == v]`: exactly the rows whose cell equals v, each kept row as many times as in the input and a dropped row not at all; a KeyError exactly when the column is absent |
| Frames.Filter | cot.py:65 | a boolean mask keeps exactly the rows that satisfy it, never more copies than the input |
| Frames.FilterCount | cot.py:65 | a boolean mask keeps every copy of a row that satisfies it and no copy of one that does not |
| Frames.FilterSubsequence | cot.py:65 | a mask keeps the surviving rows in their original order |
| Frames.FilterKeepsAll | cot.py:65 | a mask that holds on every row returns the frame unchanged |
| Frames.DropDuplicates | cot.py:63 | `drop_duplicates()`: the same set of rows, none repeated |
| Frames.SortByDate | cot.py:146 | `sort_values` by date: sorted in the requested direction and a permutation of the input |
| Frames.InsertSorted | cot.py:146 | inserting one row into a sorted list keeps it sorted |
| Frames.SortStrict | cot.py:191 | sorting rows with distinct dates gives a strictly ordered sequence |
| Frames.SortMembers | cot.py:164 | sorting keeps exactly the same rows |
| Frames.SortDates | cot.py:178 | sorting keeps exactly the same dates |
| ColumnNames.CleanIsCharwise | cot.py:50-51 | the six chained `str.replace` calls equal an independent one-pass rewrite of each character |
| ColumnNames.CleanChar | cot.py:50-51 | a character outside ' ', '(', ')', '-', '%', '=' is kept; every rewrite is free of those characters |
| ColumnNames.CleanAppend | cot.py:50-51 | the chain distributes over concatenation |
| ColumnNames.CleanNoReserved | cot.py:50-51 | a cleaned name contains none of ' ', '(', ')', '-', '%', '=' |
| ColumnNames.CleanFixpoints | cot.py:50-51 | the chain leaves a name unchanged if and only if the name has none of the reserved characters |
| ColumnNames.CleanIdempotent | cot.py:50-51 | cleaning twice equals cleaning once |
| ColumnNames.CleanCodeName | cot.py:40-51 | "CFTC Contract Market Code" cleans to "CFTC_Contract_Market_Code" |
| Database.ToValues | common.py:90 | a row as a dict has exactly the frame's column names as keys |
| Database.ToValuesAt | common.py:90 | a column name not repeated further right maps to its own cell |
| Database.Records | common.py:90 | `to_dict(orient="records")`: one record per row, in order, with the row's date and one key per column |
| Database.WriteBatch | common.py:112 | writing a batch adds exactly the batch's keys and leaves every other stored row alone |
| Database.WriteBatchOverride | common.py:112 | writing a batch overrides the table with the batch taken on its own |
| Database.WriteBatchTwice | common.py:110-124 | writing the same batch twice equals writing it once |
| Database.WriteBatchStores | common.py:112 | with distinct keys, every record of the batch is stored under its key |
| Database.Upsert | common.py:110-128 | the insert path is taken exactly when no key repeats and none is stored, the update path when that fails and every key is stored, and otherwise both fail and the table is kept; a write stores the old keys plus the batch's |
| Database.UpsertOutcome | common.py:110-128 | an insert adds exactly the batch's keys, none stored before, and stores every record; an update keeps the key set and, when no key repeats, stores every record; a failure leaves the table as it was; no stored key is ever lost |
| Database.UpsertTwice | common.py:110-124 | re-sending an inserted batch takes the update path and changes nothing |
| Database.Session.constructor | common.py:107-108 | a new session sees the committed tables and counts as open |
| Database.Session.BulkInsertMappings | common.py:112 | succeeds exactly when no key repeats and none is stored; then adds all records, otherwise changes nothing and marks the transaction failed |
| Database.Session.BulkUpdateMappings | common.py:122 | succeeds exactly when every key is stored; then replaces those rows, otherwise changes nothing and marks the transaction failed |
| Database.Session.Commit | common.py:113 | the session's work becomes the stored tables |
| Database.Session.Rollback | common.py:118 | discards the work and makes the session usable again |
| Database.Session.Close | common.py:130-132 | discards uncommitted work and releases the session |
| Database.InsertIntoDatabase | common.py:94-132 | ConnectionError with nothing written when no engine; otherwise the insert-else-update outcome on the mapper's table, the tables unchanged on failure, and no session left open |
| Storage.SavedAllAppends | common.py:83-86 | repeated saves to an existing file keep its header and append every frame's rows in call order |
| Storage.SavedAllFromNothing | common.py:83-86 | repeated saves to a new file write the header once, from the first frame, followed by all rows in call order |
| Storage.AnyCell | common.py:48-51 | true exactly when some row's cell in the column equals the value |
| Storage.CheckIfExists | common.py:26-56 | False when nothing exists at the path; an OSError on a directory; a KeyError when the file lacks a "File" column; otherwise True exactly when some "File" cell equals the parameter |
| Storage.HistoryDates | cot.py:61-63 | the dates of the history file's rows; FileNotFoundError when it is missing, OSError on a directory |
| Storage.SaveWritesTarget | common.py:74-86 | only the file at `directory[/sub_dir]/filename` changes: a new file gets the frame's header, an existing one keeps its header and gains the rows; an OSError leaves every file as it was |
| Storage.SaveEffect | common.py:74-90 | no directory is removed, no path becomes both file and directory, and the only errors are OSError and ConnectionError |
| Storage.Written | common.py:83-86 | a new file holds the frame's header and rows; an existing file keeps its header and rows and gains the frame's rows at the end |
| Storage.SaveHandsOff | common.py:88-90 | the tables change only when a mapper is given and the file was written, and then to the upsert of exactly the frame's records |
| Storage.SaveToDir | common.py:59-90 | the file system and tables end as SaveEffect says; the file system stays valid; no session is left open |
| Cot.LegacyFileNames | cot.py:42-47 | two legacy file names are equal if and only if report and market are equal |
| Cot.DisaggFileNames | cot.py:211-215 | the file is `<file_to_save>_<code>_opt.csv` or `_fut.csv`; the two reports never share a file |
| Cot.Differences | cot.py:156 | column subtraction row by row: a TypeError exactly when some row has a string facing a non-null cell; otherwise each cell is the difference, and NaN when either side is NaN, a string facing NaN included |
| Cot.Difference | cot.py:156 | a KeyError names the first absent operand column; otherwise the row-wise difference |
| Cot.AddDifference | cot.py:156 | `df[name] = df[a] - df[b]`: KeyError on an absent operand; otherwise the same number of rows |
| Cot.AddDifferenceRow | cot.py:156 | after the assignment each row holds a - b in the new column and keeps its date and every other column |
| Cot.AddDerived | cot.py:155-160 | KeyError when the long or short position column is absent; otherwise the same number of rows |
| Cot.AddDerivedRow | cot.py:155-160 | each row holds long minus short under the kind's name and the percent difference in `Pct_of_OI_MM_NSL`; everything else unchanged |
| Cot.AddDerivedHolds | cot.py:155-160 | every row holds both derived differences |
| Cot.AddDerivedConst | cot.py:155-160 | a column other than the two derived ones keeps its value in every row |
| Cot.AddDerivedProjected | cot.py:155-160 | every row keeps its date and its cells in every column but the two derived ones |
| Cot.KeepColumns | cot.py:151-152 | no list or an empty list keeps the frame; otherwise exactly the listed columns, with the same rows and dates; a KeyError exactly when a listed column is absent |
| Cot.KeepColumnsConst | cot.py:151-152 | a kept column keeps its value in every row |
| Cot.KeepColumnsProjected | cot.py:151-152 | every row keeps its date and its cells in every kept column |
| Cot.SortRows | cot.py:146 | sorting by date keeps the columns and the row count |
| Cot.Finish | cot.py:163-168 | sort, replace and tag keep the row count and add `Market_Code` only if it is absent |
| Cot.FinishSorted | cot.py:163-164 | the finished frame is sorted by date in the requested direction |
| Cot.FinishTagged | cot.py:168 | every finished row holds the market code in `Market_Code` |
| Cot.FinishReplaces | cot.py:163-167 | each cell other than `Market_Code`, taken at its sorted position, reads the same with "." as NaN |
| Cot.FinishProjection | cot.py:163-167 | the i-th finished row has the date and the cells, "." read as NaN, of the i-th sorted row in every column but `Market_Code` |
| Cot.FinishProjected | cot.py:163-168 | sorting, the replacement and the tag keep the bag of rows: the same (date, cells with "." as NaN) over any columns but `Market_Code` |
| Cot.FinishKeeps | cot.py:163-167 | each cell other than `Market_Code` and ".", taken at its sorted position, is unchanged |
| Cot.FinishKeepsDiff | cot.py:163-167 | a derived difference every row holds survives the sort, the replacement and the tag |
| Cot.FinishKeepsConst | cot.py:163-167 | a column every row holds at a value other than "." survives the sort, the replacement and the tag |
| Cot.CleanSteps | cot.py:145-168 | a KeyError when the download lacks `CFTC_Contract_Market_Code`; otherwise a well-formed frame |
| Cot.CleanStepsShape | cot.py:145-168 | one row per market row of the download, sorted by date descending, each holding the market code; a KeyError naming a listed column the download lacks |
| Cot.CleanStepsNetSpec | cot.py:154-160 | every cleaned row holds long minus short under `Net_Spec_Length_Cal` (opt) or `Net_Spec_Length` (fut), and the percent difference in `Pct_of_OI_MM_NSL` |
| Cot.CleanStepsRows | cot.py:145-168 | the cleaned report is the market's downloaded rows, each once: over the kept columns other than the derived ones and `Market_Code`, the bag of (date, cells with "." as NaN) equals the market rows' |
| Cot.CleanStepsMarket | cot.py:145-168 | when `CFTC_Contract_Market_Code` is kept, every cleaned row holds the requested market code there |
| Cot.CleanDisaggFutOpt | cot.py:136-142 | returns None exactly when `fut_opt` is neither "opt" nor "fut"; otherwise the cleaned report |
| Cot.CleanDisaggFutOptShape | cot.py:122-170 | for the report `fut_opt` names: the KeyError case, the descending order, the row count, the market code and the net speculative length |
| Cot.CleanDisaggFutOptRows | cot.py:122-170 | the returned frame is, row for row as a bag, the market's rows of the report `fut_opt` names, in the kept columns |
| Cot.SetConstRows | cot.py:41 | assigning a scalar column puts the value in every row, and another column that holds one value in every row still holds it |
| Cot.CleanColumns | cot.py:50-51 | one cleaned name per column, in position, each free of reserved characters |
| Cot.LegacyRenamed | cot.py:41-51 | tagging and renaming keep the row count; every column name is free of reserved characters |
| Cot.ShapeLegacy | cot.py:38-57 | an UnboundLocalError when `report_type` is neither "fut" nor "opt"; otherwise a well-formed frame and its file name |
| Cot.ShapeLegacyOf | cot.py:40-57 | fails exactly when the download lacks "CFTC Contract Market Code" (a KeyError naming it) or has a column that cleans to "Date" (the ValueError of `reset_index`) |
| Cot.CleanedHas | cot.py:50-51 | a name is among the cleaned column names if and only if some column cleans to it |
| Cot.AddedNameCleans | cot.py:41-51 | adding a column whose cleaned name differs from a target leaves unchanged whether some column cleans to that target |
| Cot.FinishHas | cot.py:52-56 | sorting, indexing by date, the NaN replacement and adding `Market_Code` keep every other column name present or absent |
| Cot.LegacyDateClash | cot.py:41-57 | the shaped legacy report has a `Date` column before `reset_index` if and only if some downloaded column cleans to "Date" |
| Cot.ShapeLegacyErrors | cot.py:38-57 | the errors of the legacy shaping, both directions: UnboundLocalError for a wrong kind, KeyError exactly when the code column is absent, and otherwise ValueError exactly when a downloaded column cleans to "Date" |
| Cot.ShapeLegacyProps | cot.py:38-57 | the shaped legacy report has one row per market row, sorted ascending, clean column names, the market code in every row, and the report's file name |
| Cot.ShapeLegacyOfColumns | cot.py:50-56 | every column name of the shaped legacy report is free of reserved characters |
| Cot.FinishNoReserved | cot.py:52-56 | finishing keeps column names free of reserved characters |
| Cot.ShapeLegacyOfProps | cot.py:40-57 | one row per market row, sorted ascending by date, each holding the market code |
| Cot.ReportTypeClean | cot.py:41-51 | the cleaning chain leaves "Report_Type" as it is |
| Cot.LegacyCodeClean | cot.py:40-51 | the cleaning chain renames the legacy code column to "CFTC_Contract_Market_Code" |
| Cot.RenamedConst | cot.py:50-51 | a column keeps its values under its cleaned name when no other column cleans to that name |
| Cot.LegacyRenamedRows | cot.py:40-51 | after tagging and renaming, every market row holds its report tag in `Report_Type` and its code in `CFTC_Contract_Market_Code` |
| Cot.LegacyShapedRows | cot.py:40-56 | when every market row holds the code, every finished legacy row holds its report tag and, for a code other than ".", the code in `CFTC_Contract_Market_Code` |
| Cot.LegacyRenamedRow | cot.py:41-51 | after tagging and renaming, a row's cell in a column moves to the column's cleaned name, when no other column cleans to it and it is not "Report_Type" |
| Cot.LegacyRenamedProjected | cot.py:41-51 | tagging and renaming keep every row's date and its cells, read under the cleaned names |
| Cot.ShapeLegacyOfCells | cot.py:40-56 | the shaped legacy report is the market's downloaded rows, each once: read under the cleaned names, the bag of (date, cells with "." as NaN) equals the market rows' |
| Cot.ShapeLegacyCells | cot.py:38-57 | the same for the report `report_type` names |
| Cot.ShapeLegacyOfRows | cot.py:38-57 | every shaped legacy row holds its report tag in `Report_Type` and the market code in `CFTC_Contract_Market_Code` |
| Cot.ResetIndex | cot.py:64 | `reset_index()` prepends the row positions as `index`, or as `level_0` when `index` is taken; a ValueError when both are taken |
| Cot.Dedup | cot.py:65 | `df[~df["Date"].isin(dates)]`: exactly the rows whose date is not in the history, each as many times as in the input |
| Cot.DedupKeepsNew | cot.py:65 | the history dedup keeps exactly the rows whose date is not in the history, every copy of each, in their order |
| Cot.DedupNothingOld | cot.py:65 | a history sharing no date with the rows removes nothing |
| Cot.LegacyToSave | cot.py:38-65 | the frame handed to `save_to_dir` is well formed |
| Cot.LegacyHistGatesDedup | cot.py:59-65 | with `hist` true, every shaped row is saved; with it false, exactly the rows (with their positions) whose date the existing history file lacks, every copy of each, in order |
| Cot.GetLegacyFutOpt | cot.py:22-68 | errors before the save leave files and tables untouched; otherwise the file system and database end as SaveEffect says for the Legacy mapper under FILEDB |
| Cot.TagReport | cot.py:213-216 | tagging keeps the row count |
| Cot.TagReportRows | cot.py:213-216 | every tagged row holds its report's `Report_Type`, and another column that holds one value in every row still holds it |
| Cot.PopulateToSave | cot.py:209-224 | an AttributeError when `fut_opt` is wrong; after a clean report, a ValueError exactly when it already has a `Date` column; otherwise the frame and its file name `<file_to_save>_<code>_<kind>.csv` |
| Cot.PopulateHistGatesDedup | cot.py:217-224 | with `hist` true, the whole tagged report is saved; with it false, exactly the tagged rows whose date the history file lacks, every copy of each, in order |
| Cot.PopulateTags | cot.py:209-224 | every saved row carries its report's `Report_Type` tag and the market code |
| Cot.PopulateData | cot.py:196-224 | errors before the save leave files and tables untouched; otherwise the file system and database end as SaveEffect says for the DisaggregatedFuturesOptions mapper |
| Backfill.ShiftDates | cot.py:176 | every date moves by `lag` business days onto a weekday; the cells are kept |
| Backfill.MinDate | cot.py:177 | the earliest date of the frame |
| Backfill.MaxDate | cot.py:178-179 | the latest date of the frame |
| Backfill.LatestOnOrBefore | cot.py:177 | the row a forward fill carries to a day: the latest one dated on or before it, or None exactly when every row is later |
| Backfill.LatestExists | cot.py:177 | every day from the first date on has a row to fill from |
| Backfill.ResampleDates | cot.py:177 | `resample('B')` has exactly the weekdays from the first to the last date |
| Backfill.ResampleSorted | cot.py:177 | the resampled frame is strictly ascending |
| Backfill.ResampleFilled | cot.py:177 | each resampled row carries the cells of the latest original row on or before its date |
| Backfill.BaseRows | cot.py:177-179 | after the descending sort, the first row is dated at the last shifted date and carries that date's cells |
| Backfill.FindDate | cot.py:189 | the position of a row with the date, or None exactly when the date is absent |
| Backfill.SetLoc | cot.py:189 | `loc[d, col] = v` overwrites the cell of an existing date, or appends a row for a new date with NaN elsewhere |
| Backfill.SetLocNew | cot.py:189 | writing the first column of a new day appends a row holding that cell |
| Backfill.SetLocLast | cot.py:189 | writing the next column of the newest day fills that cell of the last row |
| Backfill.AppendCopy | cot.py:189 | the inner loop over the columns appends one copy of the last row's values for the day |
| Backfill.AppendCopies | cot.py:188-189 | the nested loop appends, in order, one copy of the last row's values per extra day |
| Backfill.ValidExtensionOf | cot.py:184 | the extra days are the exchange's valid days after the last shifted date and before today, ascending |
| Backfill.ExtensionIsNew | cot.py:184-189 | no extra day is already a date of the resampled frame |
| Backfill.ExtendedDistinct | cot.py:184-189 | no date repeats once the extra days are appended |
| Backfill.ExtendedCells | cot.py:177-189 | each row carries its forward fill, or the last row's values after the last shifted date |
| Backfill.ExtendedDates | cot.py:177-189 | the dates are the resampled weekdays plus, when there are columns, the extra days |
| Backfill.FinalRows | cot.py:177-191 | the final frame is strictly descending, every row has one cell per column, its dates are the resampled weekdays plus the extra days, and its cells are the forward fill or the last row's values |
| Backfill.DelayedCotDf | cot.py:173-193 | an IndexError for an empty report; a ValueError exactly when two shifted dates coincide; otherwise the same columns, and the rows FinalRows describes |

## Left out

- The downloads from `cot_reports` become the `fetch` parameter. The model
  assumes each downloaded frame carries its report date as each row's date.
  That date is not among a frame's `columns`. So the KeyError at cot.py:152
  when `columns_to_keep` names `Report_Date_as_YYYY-MM-DD`, which is the
  index from cot.py:147 on, is not modelled. Neither is the KeyError when a
  legacy download lacks `As of Date in Form YYYY-MM-DD` (cot.py:52-53).
  `get_supplemental`, `get_financial_futures` and
  `get_financial_futures_options` (cot.py:71-119) only filter a download by
  market code, which `Frames.FilterEq` covers; they
  have no model of their own.
- `Cot.AddDerived`: the percent-of-open-interest columns are floats in the
  source, but the model subtracts integers. Rounding is not modelled.
- NaN is a single `Missing` cell, and arithmetic on it gives `Missing`. pandas
  dtype changes, such as integer columns becoming floats once NaN is written,
  are not modelled.
- `Storage.HistoryDates`: every modelled row carries its date, so the
  history file is assumed to have a `Date` column. The KeyError that
  `compare_df["Date"]` raises on a file without one (cot.py:62-65,
  cot.py:219-222) is not modelled.
- The CSV codec and the read-back type conversions are not modelled. A file is
  its header plus the rows written to it, and the index column that `to_csv`
  writes is not modelled either.
- `Frames.SortByDate` is a stable insertion sort. pandas' default sort is not
  stable, so rows with equal dates may come out in another order.
- With repeated column names, a lookup reads the first column of that name. In
  `Database.ToValues` the later cell wins, as a dict build does.
- The exchange calendar (`CME_Agriculture`) becomes the `validDay` predicate.
  `date.today()` becomes the `today` parameter.
- `Backfill.DelayedCotDf`: at cot.py:174 the source calls
  `clean_disagg_fut_opt()` without its required argument and unpacks a
  single frame into two names. The model takes the cleaned frame as a
  parameter instead.
- `Backfill.DelayedCotDf`: the date key that `loc` receives as a string is
  treated as the day it names.
- The connection settings from the environment are not modelled.
  `connect_to_database` is reduced to the `engineAvailable` flag, whose false
  case raises ConnectionError (backend/db/dbconnect.py:11-27).
- The ORM models in `backend/db/models` are not part of this model. The rule
  for when a bulk statement fails is the model's own: an insert fails on a
  repeated or already stored key, an update on a key that is not stored. The
  key is date, `Market_Code` and `Report_Type`.
- `Database.Session.Commit`: a commit never fails.
- The module-level script at cot.py:228-248, `migrate_db` and the controller
  under `backend/controllers` are not part of this model.
- Logging and the `print` calls (common.py:114, 124, 128; cot.py:141) produce
  no modelled effect.
- `hist` and `report_type` are `Optional` (cot.py:22). The model's `hist` is
  a bool, so `hist=None` is not expressed; the source treats it like false
  and dedups. `report_type=None` matches neither "fut" nor "opt", which is
  the UnboundLocalError case of `Cot.ShapeLegacy`.
- The docstrings of `get_legacy_fut_opt` and `populate_data` say `hist` keeps
  only new data. The code dedups only when `hist` is false, and the model
  follows the code.
- `Cot.ShapeLegacyOfRows`: the two tags are proved only when no other
  downloaded column cleans to "Report_Type" or "CFTC_Contract_Market_Code".
  The code proof for a market code of "." is also left out, because the
  replacement turns it into NaN.
- `Cot.CleanStepsMarket`: the market code is stated only when the code column
  is kept and the code is not ".". Otherwise no row carries that column, or
  NaN replaced the code.
- `Cot.LegacyToSave`: with `hist` false, the second `reset_index` (cot.py:64)
  adds an `index` column, so the rows it appends to a history file written
  by a `hist` true save are one field wider than that file's header. The
  model keeps this as the code has it. `Storage.Written` appends rows
  without comparing their width to the header, and no lemma states a width
  for a history file.
- `Cot.LegacyToSave`, `Cot.PopulateToSave`, `Cot.CleanSteps` and
  `Cot.ShapeLegacy` state only some of their errors and well-formedness.
  Their other errors and their row contents are stated by the lemmas beside
  them: ShapeLegacyErrors, LegacyHistGatesDedup, PopulateHistGatesDedup,
  PopulateTags, CleanStepsShape, CleanStepsRows, CleanDisaggFutOptRows,
  ShapeLegacyOfCells and ShapeLegacyCells. The row contents are stated as a
  bag of (date, cells) over the columns the steps carry through; the derived
  columns, `Market_Code` and `Report_Type` are stated by their own lemmas.
  They are proved only for columns that are the only ones cleaning to their
  new names.
