# Air-quality cleaning pipeline, modelled in Dafny

The analysis script reads twelve hourly air-quality tables, one per Beijing
monitoring station. It stores each table under a station name taken from the
file name, and cleans every table with `clean_air_quality_data`. Cleaning has
five steps:

1. Each missing pollutant value (PM2.5, PM10, SO2, NO2, CO, O3) is replaced by
   the median of its column.
2. `year`, `month`, `day` and `hour` are combined into a `date_time` timestamp
   with `pd.to_datetime`, and the four fields are then dropped.
3. Missing wind directions (`wd`) are replaced by the column's mode.
4. Duplicate rows are dropped, keeping the first occurrence.
5. `outliers` runs on each pollutant column. It computes Tukey's fences
   `Q1 - 1.5 IQR` and `Q3 + 1.5 IQR` from linearly interpolated quartiles. Every
   value strictly outside the fences becomes the column's median.

Later in the script, `plot_monthly_average` accepts only `PM2.5` and `PM10`.

The project has one Dafny module per concern:

- `Wrappers` (`wrappers.dfy`): `Option` and `Result`.
- `Stats` (`stats.dfy`): the column statistics pandas is asked for.
  - Sorting, `median`, numpy's linear `quantile`, the fences and the
    replacement rule.
  - `mode()[0]`: the smallest of the most frequent values, in Python's
    string order.
- `Calendar` (`calendar.dfy`): `pd.to_datetime` on the four time fields.
  - An instant is a count of whole hours since 1970-01-01 in the proleptic
    Gregorian calendar.
  - It is bounded by the range of a 64-bit nanosecond pandas timestamp.
  - Instants decompose back into the fields they came from.
- `Distinct` (`distinct.dfy`): `drop_duplicates(keep="first")`.
- `Frame` (`frame.dfy`): the value-level meaning of each cleaning step and of
  the whole pipeline. Each step is a function on tables, with lemmas stating
  what it guarantees.
- `Cleaning` (`cleaning.dfy`): the pipeline as it runs. Class `StationTable`
  holds the rows in an array. Each step is a method that updates the table in
  place. Each method's postcondition ties the new table to the matching
  `Frame` function of the old one.
- `Loader` (`loader.dfy`): `str.split` and the key `name.split('_')[2]`.
- `Report` (`report.dfy`): the pollutant guard of `plot_monthly_average`.

### Behaviour worth knowing

Three results of the model are not what a reader of the function's name might
expect.

- **Duplicates can return.** One might expect a cleaned table to have no
  duplicate rows. The code drops duplicates *before* the outlier step, though.
  Two distinct rows that differ only in one pollutant, where both values are
  outliers, become equal once both values turn into the median.
  `Frame.OutliersMergeRows` proves this in general, and
  `Frame.OutliersCanRecreateDuplicates` gives a five-row instance. The model
  therefore promises only that the table *before* the outlier step has no
  duplicates.
- **A second run fails.** One might expect cleaning an already cleaned table
  to change nothing. On a cleaned table, `df[['year', 'month', 'day', 'hour']]`
  raises `KeyError`, because those columns were dropped.
  `Frame.CleanTwiceFails` proves that a second run ends in
  `MissingDateColumns`.
- **A missing mode is an error.** With a `wd` column that is entirely
  missing, `mode()` is empty and `mode()[0]` raises. The model returns
  `NoWindMode`.

## Model

| member | source | states |
|---|---|---|
| `Stats.Sort` | analisis.py:91-92 | the sorted copy of a column is ordered and a permutation of the column (same multiset, same length) |
| `Stats.SortIsOrderIndependent` | analisis.py:91-92 | columns holding the same values in any order sort the same, so every statistic depends only on the multiset of values |
| `Stats.SortedUnique` | analisis.py:91-92 | two sorted sequences with the same multiset are equal |
| `Stats.InterpolateBetween` | analisis.py:91-92 | a linearly interpolated quantile lies between the order statistics around its virtual index, and within the column's minimum and maximum |
| `Stats.InterpolateMonotone` | analisis.py:91-92 | a higher quantile position never gives a smaller value |
| `Stats.FirstQuartile` | analisis.py:91 | Q1 lies between the column's minimum and maximum |
| `Stats.ThirdQuartile` | analisis.py:92 | Q3 lies between the column's minimum and maximum |
| `Stats.Median` | analisis.py:98 | the median lies between the column's minimum and maximum |
| `Stats.OutlierRule` | analisis.py:98 | the lambda keeps NaN as NaN and a value as a value, keeps every value inside the fences, and lands inside the fences whenever the median does |
| `Stats.MedianIsHalfQuantile` | analisis.py:98 | `median()` (the middle value, or the mean of the two middle values) equals the 0.5 quantile under linear interpolation |
| `Stats.QuartilesOrdered` | analisis.py:91-93 | minimum <= Q1 <= median <= Q3 <= maximum, so the IQR is not negative |
| `Stats.OutlierFences` | analisis.py:91-96 | the fences enclose Q1, Q3 and the median, their width is four IQRs, and the replacement value is the column's median |
| `Stats.OutlierRuleWithinFences` | analisis.py:98 | with the median inside the fences, a second pass of the lambda with the same fences changes nothing |
| `Stats.QuartilesOfFive` | analisis.py:91-92 | for five values, Q1, the median and Q3 are the 2nd, 3rd and 4th smallest |
| `Stats.ConcreteQuartiles` | analisis.py:91-96 | the column 1, 2, 3, 4, 100 has Q1 = 2, median 3, Q3 = 4 and fences -1 and 7, so 100 is an outlier |
| `Stats.StringLessIrreflexive` | analisis.py:112 | Python's string order is irreflexive |
| `Stats.StringLessTransitive` | analisis.py:112 | Python's string order is transitive |
| `Stats.StringLessTotal` | analisis.py:112 | Python's string order is total |
| `Stats.BestOfWins` | analisis.py:112 | the candidate chosen has the largest count, and no candidate with that count sorts before it |
| `Stats.Mode` | analisis.py:112 | `mode()[0]` of a non-empty column is one of its values |
| `Stats.ModeIsSmallestMode` | analisis.py:112 | `mode()[0]` occurs as often as any value, and no other most-frequent value sorts before it |
| `Stats.ModeUnique` | analisis.py:112 | the smallest most-frequent value is exactly `mode()[0]`: the tie-break determines the result |
| `Stats.ModeOfMajority` | analisis.py:112 | the mode of N, E, N, S is N |
| `Stats.ModeOfTie` | analisis.py:112 | in a tie between S and E, `mode()[0]` is E, the smaller string |
| `Calendar.DaysBeforeMonthStep` | analisis.py:107 | the cumulative day table grows by the length of each month and ends at the length of the year |
| `Calendar.DaysBeforeYearStep` | analisis.py:107 | the Gregorian day count grows by 365 or 366 (leap years) from one year to the next |
| `Calendar.YearOf` | analisis.py:107 | the year found for a day number is the one whose days contain it |
| `Calendar.YearUnique` | analisis.py:107 | only one year contains a given day number |
| `Calendar.MonthFrom` | analisis.py:107 | the month found for a day of the year is the one whose days contain it |
| `Calendar.MonthUnique` | analisis.py:107 | only one month contains a given day of the year |
| `Calendar.TimestampRangeInNanos` | analisis.py:107 | an hour count is in range exactly when its nanosecond count fits a 64-bit pandas timestamp |
| `Calendar.DecomposeEpochHours` | analisis.py:107 | decomposing the instant of valid fields gives the very same year, month, day and hour |
| `Calendar.EpochHoursDecompose` | analisis.py:107 | every instant decomposes into valid fields whose instant is that instant |
| `Calendar.ToTimestampDecompose` | analisis.py:107 | a converted timestamp's year, month, day and hour are the input fields |
| `Calendar.ToTimestampOfDecompose` | analisis.py:107 | every instant in the pandas range is what the conversion of its own year, month, day and hour gives, so conversion reaches every representable hour |
| `Calendar.ToTimestampInjective` | analisis.py:107 | distinct valid fields never share a timestamp, so `date_time` is uniquely derived |
| `Calendar.FirstRecordInstant` | analisis.py:107 | 2013-03-01 00:00, the first record of every station, is 378360 hours after the epoch |
| `Calendar.CalendarExamples` | analisis.py:107 | April 31, February 29 of 2015 and month 13 are rejected, and February 29 of 2016 is accepted; hour 24 is rejected by the model's own hour check (see `Calendar.ToTimestamp` under "Left out") |
| `Distinct.KeepFirst` | analisis.py:115 | the kept rows are exactly the input's distinct rows, none repeated, and there are no more of them than input rows |
| `Distinct.KeepFirstIsFirstOccurrences` | analisis.py:115 | the kept rows are the input rows at increasing indices, and those indices are exactly the first occurrences of their values |
| `Distinct.TwoIdenticalRowsLeaveOne` | analisis.py:115 | two identical rows leave one |
| `Frame.PresentMembers` | analisis.py:104 | the values a statistic sees are the non-missing cells of the column, each value as many times as cells hold it |
| `Frame.FillColumn` | analisis.py:104 | `fillna(m)` on column c leaves no missing cell there, keeps its present values, puts m in its missing cells, and changes no other column or field |
| `Frame.FillMissing` | analisis.py:103-104 | after the fill loop the row count is unchanged and no pollutant cell is missing |
| `Frame.FillUpToCells` | analisis.py:103-104 | after the first k columns are filled, a cell of those columns is its old value or the median, later columns are unchanged, and nothing else in the row changes |
| `Frame.FillUpToKeepsLaterColumn` | analisis.py:103-104 | filling the first k columns leaves column k as it was, so its median is the original one |
| `Frame.FillMissingSpec` | analisis.py:103-104 | after the fill loop no pollutant is missing, present values are unchanged, each missing cell holds its column's median, and the time, direction and other cells are untouched |
| `Frame.Filled` | analisis.py:103-104 | the filled table keeps its shape, row count, time fields, directions and other cells |
| `Frame.StampRows` | analisis.py:107 | a successful conversion stamps every row, and each row carries the timestamp of its own fields |
| `Frame.StampRowsSpec` | analisis.py:107 | conversion succeeds exactly when every row's fields convert, each row then carries its own timestamp, and a failure is the error of some row |
| `Frame.StampRowsFirstError` | analisis.py:107 | the error reported is that of the first row that fails |
| `Frame.ConvertDates` | analisis.py:107-108 | a successful conversion gives a dated table with the same rows, pollutants, directions and other cells |
| `Frame.ConvertDatesOutcome` | analisis.py:107 | conversion succeeds exactly when every row names a valid date within the pandas range, and an invalid date anywhere is an error |
| `Frame.ConvertDatesRoundTrip` | analisis.py:107-108 | each row's `date_time` decomposes into the four fields it replaced |
| `Frame.ConvertDatesNeedsFields` | analisis.py:107 | a table without year/month/day/hour fails with `MissingDateColumns` (the `KeyError`) |
| `Frame.PresentWd` | analisis.py:112 | the known directions are exactly the directions present in some row |
| `Frame.PresentWdCounts` | analisis.py:112 | each known direction occurs as many times as the `wd` column holds it, so the mode counts the column's own frequencies |
| `Frame.PresentWdNone` | analisis.py:112 | with every direction missing there is no known direction to take a mode of |
| `Frame.FillWind` | analisis.py:111-112 | the step fails, with `NoWindMode`, exactly when a `wd` column exists and holds no direction; on success no direction is missing, known ones are kept, the row count is unchanged, and pollutants, time and other cells are untouched |
| `Frame.FillWindSpec` | analisis.py:111-112 | with no `wd` column the table is unchanged; with one, the step fails exactly when no direction is known; otherwise no direction is missing, known ones are kept, missing ones become `mode()[0]`, and everything else is untouched |
| `Frame.ReplaceUpToCells` | analisis.py:118-120 | after the loop has treated the first k columns, each of their cells is the rule applied to the old value, and later columns and other cells are unchanged |
| `Frame.ReplaceUpToKeepsLaterColumn` | analisis.py:118-120 | treating the first k columns leaves column k as it was, so its fences are the original ones |
| `Frame.ReplaceColumn` | analisis.py:98 | `outliers(df, c)` keeps NaN as NaN and known values known, keeps every value inside the fences, lands every value inside them when the median is, and changes no other column or field |
| `Frame.ReplaceColumnWithoutFences` | analisis.py:98 | an all-missing column passes through `outliers` unchanged |
| `Frame.ReplaceColumnWellFormed` | analisis.py:98 | `outliers` keeps the table's shape |
| `Frame.ReplaceOutliers` | analisis.py:118-120 | the outlier loop keeps the row count, turns no known value into NaN nor NaN into a value, and leaves time, direction and other cells untouched |
| `Frame.ReplaceOutliersAt` | analisis.py:98-120 | each cell after the loop is the rule applied to its own value under its column's fences taken before the loop, so no cell depends on a cell replaced earlier |
| `Frame.ReplaceOutliersWithinFences` | analisis.py:98 | after the loop a value inside the fences is kept, one outside becomes the median, NaN stays NaN, and every value lies within the fences |
| `Frame.ReplaceOutliersSpec` | analisis.py:118-120 | on a filled non-empty table every column has fences, no value is missing, every value is within its column's fences, and non-pollutant cells are untouched |
| `Frame.DegenerateFences` | analisis.py:91-96 | a column -10, 0, 0, 0, 10 has zero IQR and both fences at 0 |
| `Frame.DropDuplicates` | analisis.py:115 | removing duplicates keeps the table's shape and columns |
| `Frame.DropDuplicatesSpec` | analisis.py:115 | the result has no duplicates, is not empty unless the input is, is no longer than the input, and every row is an input row |
| `Frame.CleanRun` | analisis.py:100-122 | a run fails exactly when its steps before the outlier loop fail, and with the same error |
| `Frame.PrepareAfterWindy` | analisis.py:100-115 | the steps before the outlier loop succeed exactly when the first three succeed, and their result is then the de-duplicated staged table |
| `Frame.WindySpec` | analisis.py:103-112 | after the first three steps every row is the matching input row, with no missing pollutant, a known direction if there is a `wd` column, and a `date_time` that decomposes into its old fields |
| `Frame.StampedSpec` | analisis.py:103-108 | after the first two steps every row is the matching input row, filled and dated, with its direction and other cells unchanged |
| `Frame.StagedOfStamped` | analisis.py:111-112 | filling directions on a dated, filled table gives the staged table |
| `Frame.DropDuplicatesOfStaged` | analisis.py:115 | dropping duplicates from the staged table keeps every staged property and adds "no duplicates, no longer than the input" |
| `Frame.Prepare` | analisis.py:100-115 | a failing step leaves a table with all input rows; on success the table is dated, duplicate-free and no longer than the input |
| `Frame.PrepareSpec` | analisis.py:100-115 | when the steps before the outlier loop succeed, the input had its time fields, and the result is dated, non-empty, duplicate-free, no longer than the input, free of missing pollutants and directions, and every row comes from an input row |
| `Frame.CleanFailsWithoutTimeFields` | analisis.py:107 | cleaning fails with `MissingDateColumns` exactly when the table has no time fields |
| `Frame.CleanFailsOnBadDate` | analisis.py:107 | cleaning fails with a date error exactly when some row's fields do not convert |
| `Frame.CleanFailsWithoutDirections` | analisis.py:111-112 | cleaning fails with `NoWindMode` exactly when the dates convert, there is a `wd` column, and every direction is missing |
| `Frame.CleanRunAfterPrepare` | analisis.py:117-122 | a successful run is the outlier loop applied to the table left by the first four steps |
| `Frame.ReplaceOutliersOnTable` | analisis.py:117-120 | the outlier loop keeps directions, leaves nothing missing, and brings every value within its column's fences |
| `Frame.CleanedOfPrepared` | analisis.py:117-122 | the outlier loop on a prepared table gives a cleaned one |
| `Frame.CleanGuarantees` | analisis.py:100-122 | a successful run returns a dated table, as long as the de-duplicated table and no longer than the input, with no missing pollutant or direction, and every pollutant within the fences of its column |
| `Frame.CleanTwiceFails` | analisis.py:107-125 | running the cleaner again on its own output fails with `MissingDateColumns` |
| `Frame.OutliersMerge` | analisis.py:98 | two rows equal except in one column, where both values are outliers, are equal after the loop |
| `Frame.OutliersMergeRows` | analisis.py:115-120 | such rows leave duplicates in the cleaned table |
| `Frame.OutliersCanRecreateDuplicates` | analisis.py:115-120 | a five-row table without duplicates has a duplicate after the outlier loop |
| `Cleaning.StationTable.constructor` | analisis.py:53 | a station table holds exactly the rows it is given |
| `Cleaning.StationTable.FillMissingPollutants` | analisis.py:103-104 | the fill loop turns the table in place into `Frame.Filled` of the old table |
| `Cleaning.StationTable.FillColumnWith` | analisis.py:104 | `fillna(m, inplace=True)` on one column changes exactly that column's missing cells |
| `Cleaning.StationTable.ComputeInstants` | analisis.py:107 | the conversion loop returns each row's timestamp, or the error of the first row that fails |
| `Cleaning.StationTable.StampAll` | analisis.py:107-108 | each row gets its timestamp in place of its four time fields |
| `Cleaning.StationTable.ConvertDateTime` | analisis.py:107-108 | on success the table becomes `Frame.ConvertDates` of the old one; on failure it is unchanged and the error is returned |
| `Cleaning.StationTable.FillWindDirection` | analisis.py:111-112 | on success the table becomes `Frame.FillWind` of the old one; on failure it is unchanged and `NoWindMode` is returned |
| `Cleaning.StationTable.FillWdWith` | analisis.py:112 | each missing direction becomes the mode, and every other row is kept |
| `Cleaning.StationTable.DropDuplicates` | analisis.py:115 | the table is replaced by `Frame.DropDuplicates` of the old one |
| `Cleaning.StationTable.Outliers` | analisis.py:89-98 | `outliers(df, c)` replaces column c by the rule under the fences of the column as it was on entry |
| `Cleaning.StationTable.ReplaceOutside` | analisis.py:98 | `apply(lambda ...)` replaces each value of column c by the rule's result |
| `Cleaning.StationTable.OutliersForEachPollutant` | analisis.py:118-120 | the loop over the six pollutants turns the rows into `Frame.ReplaceOutliers` of the old rows |
| `Cleaning.StationTable.Prepare` | analisis.py:103-115 | the first four steps leave `Frame.Prepare` of the old table, and report its error |
| `Cleaning.StationTable.Clean` | analisis.py:100-122 | `clean_air_quality_data` leaves the table the pipeline function `Frame.CleanRun` describes and returns its error, so `Frame.CleanGuarantees` holds of the result |
| `Loader.Split` | analisis.py:53 | `split` always returns at least one piece |
| `Loader.SplitPiecesHaveNoSeparator` | analisis.py:53 | no piece contains the separator |
| `Loader.JoinSplit` | analisis.py:53 | joining the pieces with the separator gives back the name |
| `Loader.SplitJoin` | analisis.py:53 | splitting a join of separator-free pieces gives back the pieces |
| `Loader.SplitAfterPiece` | analisis.py:53 | splitting `a + sep + s` gives `a` followed by the pieces of `s` |
| `Loader.SplitWithoutSeparator` | analisis.py:53 | a name without the separator splits into itself |
| `Loader.StationName` | analisis.py:53 | the key exists exactly when the name has at least three pieces, and it contains no underscore |
| `Loader.StationNameOfPieces` | analisis.py:53 | the key of `a_b_c_rest` is the third piece `c` |
| `Loader.FirstStationKey` | analisis.py:39-53 | the first file's key is `Aotizhongxin` |
| `Loader.StationNameNeedsTwoUnderscores` | analisis.py:53 | a name with fewer than two underscores has no key (the `IndexError`) |
| `Report.CheckPollutantAccepts` | analisis.py:165 | the guard accepts exactly `PM2.5` and `PM10`, which are the first two pollutant columns |
| `Report.CheckedPollutantIsColumn` | analisis.py:165 | every accepted pollutant is one of the six pollutant columns |
| `Report.CheckPollutantRejects` | analisis.py:165-166 | `CO2`, `SO2` and a lower-case `pm2.5` are rejected with the `ValueError` carrying the script's message |

## Left out

- Reading the CSV files (`pd.read_csv`, analisis.py:53). The constructor of `StationTable` takes the rows already loaded, and the dictionary of twelve tables is not modelled.
- The assessment loop (analisis.py:64-85). It only prints diagnostics.
- Plotting and printing (analisis.py:134-155, 168-183, 185-186, 195-202).
- The monthly grouping and mean (analisis.py:171-174). They are computed only for the plots.
- The correlation matrix and the temperature correlation (analisis.py:153, 201).
- `first_station` (analisis.py:153, 193). The name is never defined, so those lines raise `NameError`.
- Floating point. Pollutant values are mathematical reals, so rounding in quantiles, medians and the fence arithmetic is not modelled.
- The columns that cleaning never touches (TEMP, PRES, DEWP, RAIN, WSPM, station). They are an opaque list of cells compared as whole values. Pollutant columns are addressed by index in the fixed order of analisis.py:103 and analisis.py:118.
- Cleaning.StationTable.Clean: requires every pollutant column to have at least one value (`AllColumnsObserved`), as do `Frame.CleanRun`, `Frame.Filled` and the members they use. For a column that is entirely missing, pandas' median is NaN and the column stays missing; the model does not cover that case.
- Calendar.ToTimestamp: checks `hour` as 0 to 23 and the day against the month. It does not model pandas adding the hour as an offset to the date, nor the packing of year, month and day into one `YYYYMMDD` number that `pd.to_datetime` uses for a frame of components.
- Cleaning.StationTable.FillColumnWith: `df[col].fillna(..., inplace=True)` on a column selection is modelled as an update of the table. Under pandas copy-on-write the chained call would leave the table unchanged.
- Mutation of the caller's table between stations (analisis.py:124-125). `Clean` acts on one `StationTable`; the loop over the twelve tables is not modelled.
