# Precipitation pipeline, modelled in Dafny

The repository processes climate-projection precipitation files. Each `.dat`
file has one row per station-month, with the columns `id`, `year`, `month` and
`day_1` .. `day_31`. The value -999 means "no observation". Five pandas
scripts read these files and a small web page reads a summary CSV:

- `dades2.py` summarises each file per year (sum, mean, median) and adds a
  variation rate. It then regroups the per-file tables of a folder by year,
  keeps the years 2000..2100 and picks the driest and the wettest year.
- `E2/E02.py` validates and cleans every file of a subfolder and pools the
  raw per-day observations. It then summarises the pool per year.
- `E03/E03.py` reads every file into a frame, blanks the sentinel and
  computes whole-frame statistics: the missing share, annual values and
  their mean, sum and mean change, the extreme years and the monthly averages.
- `Dades.py` reports, per column, the share of sentinel cells among the
  non-missing cells.
- `dadesprova.py` reports the same shares, then prints a year table with
  only the total and the median.
- `js/app.js` drops the header line of the CSV, keeps the rows with three
  fields and a year in 2006..2100, and averages fields 1 and 2.
  `js/charts.js` builds the chart series from the same rows.

The model works on exact reals. A cell is `Missing`, a number or a string
token; `pd.to_numeric(errors='coerce')` and JavaScript `parseFloat` are
parameters (a partial conversion). pandas' in-place changes to a frame are
methods of the `Frame.DataFrame` class. The loops over files and rows are
methods with loop invariants, each proved equal to a specification function;
the properties of those functions are proved as lemmas. The per-script
members follow the scripts as written, so a string "-999" that converts is
kept (see Findings); the module `Slots` ties each year's group back to the
frame's cells, multiplicities included.

Modules: `Wrappers` (Option, Result), `Seqs` (flatten, map), `Stats` (sum,
mean, median, idxmin/idxmax, diff), `Grouping` (groupby over key/value
pairs), `Frame` (cells, rows, reading, sentinel replacement), `Pipeline`
(melt, coercion, per-year aggregation, variation rate, extremes), `Slots`
(the melt counted slot by slot), then one
module per script: `Dades2`, `E02`, `E03`, `Dades`, `Dadesprova`, `App`,
`Charts`.

The 3-field filter of `js/app.js` fits the `year,total,median` table of
`dadesprova.py`. The CSV written by `dades2.py` has five columns, so none of
its rows passes the filter and both averages are NaN (`App.FiveColumnRowsGiveNaN`).

## Model

| member | source | states |
|---|---|---|
| Frame.Ingest | dades2.py:6-9 | the first line is dropped exactly when the script passes `skiprows=1`; every other line becomes a row in order |
| Frame.CleanFrame | dades2.py:12 | every cell equal to the number -999, in every column, becomes missing; every other cell (a string "-999" included) is unchanged; no numeric -999 remains |
| Frame.CleanIdempotent | E03/E03.py:28 | replacing the sentinel twice is the same as replacing it once |
| Frame.CleanConcat | E03/E03.py:35 | replacing the sentinel commutes with stacking frames |
| Frame.DataFrame.constructor | E2/E02.py:60 | a new frame holds the rows it is given |
| Frame.DataFrame.ReplaceSentinel | E2/E02.py:38 | the caller's frame is cleaned in place: its new rows are the cleaned old rows |
| Pipeline.DayBlock | dades2.py:13-14 | the melt block of column day_k has one line per row, in row order, with that row's id, year, month |
| Pipeline.Melted | dades2.py:13-14 | `melt` on the 31 day columns: the blocks of day_1 .. day_31 one after the other; its length, positions and members are proved by Pipeline.MeltedAt, Pipeline.MeltedHas and Slots.MeltedIsRowMajor |
| Pipeline.MeltedAt | dades2.py:13-14 | the melt has 31 lines per row; row i's day_k slot sits at position (k-1)·rows + i |
| Pipeline.MeltedHas | E2/E02.py:40-41 | every (row, day slot) pair appears in the melt |
| Pipeline.KeptAsWritten | E2/E02.py:42-44 | as written: never more observations than melted slots |
| Pipeline.ObservationsAsWritten | E2/E02.py:38-44 | the observations the scripts keep from a frame, as written: melt, drop missing slots, coerce, drop what fails; one per present, converting slot with multiplicities (Slots.ObservationsAreSlots) |
| Pipeline.KeptAsWrittenConcat | E2/E02.py:42-44 | as written, the slots of two stacked listings keep the observations of each, one after the other |
| Pipeline.AsWrittenNeverSentinel | E2/E02.py:38-44 | as written, when no string cell converts to -999, no observation kept from the cleaned frame is -999 |
| Pipeline.Kept | dades2.py:15-17 | the corrected rule (see Findings): never more observations than slots, and no kept value is -999 |
| Pipeline.Observations | dades2.py:12-17 | the corrected rule on a frame: as written, but a converted -999 is dropped as well; its slot-by-slot meaning is Pipeline.ObservationHasSlot and Pipeline.SlotHasObservation |
| Pipeline.KeptComplete | dades2.py:15-17 | the corrected rule keeps every slot whose value is present, coerces to a number and is not -999 |
| Pipeline.KeptSound | dades2.py:15-17 | every observation the corrected rule keeps is the coerced value of one melted slot |
| Pipeline.ObservationHasSlot | E2/E02.py:38-44 | under the corrected rule, each observation comes from one row and one day_k slot, with that row's id, year and month and the slot's coerced value, and it is never -999 |
| Pipeline.SlotHasObservation | E2/E02.py:38-44 | under the corrected rule, each present, numeric, non-sentinel slot yields its observation with label day_k; a missing slot yields none, so it is never counted as zero |
| Pipeline.KeyedByYearKeys | dades2.py:18 | a year has a group exactly when some observation carries that numeric year |
| Pipeline.AnnualStats | dades2.py:18-19 | one line per year with a value, in ascending year order, holding the sum, mean and median of exactly that year's values |
| Pipeline.AnnualTotalsAddUp | E2/E02.py:48 | the year totals add up to the sum of all grouped values |
| Pipeline.VariationRates | dades2.py:23 | undefined on the first line; line i compares total i with total i-1, the line above, whatever years they are |
| Pipeline.Rate | dades2.py:23 | `pct_change() * 100` between two totals, undefined when the previous one is 0; inverted by Pipeline.RateInverse |
| Pipeline.RateInverse | dades2.py:23 | the rate is undefined exactly when the previous total is 0; otherwise the current total is the previous one grown by the rate in percent |
| Pipeline.RateReconstructs | dades2.py:23 | each defined rate, applied to the line above, gives back the line's total |
| Pipeline.FindExtremeYears | dades2.py:25-28 | none exactly for an empty table; otherwise two lines of the table bounding every total from below and from above |
| Pipeline.ExtremesFirstOnTies | E03/E03.py:123-126 | on ties the earliest line with the smallest (largest) total is chosen |
| Pipeline.StringSentinelKeptAsWritten | dades2.py:12-17 | as written, a -999 held as a string survives the replacement and becomes a -999 observation |
| Pipeline.AsWrittenMatchesWhenNoStringSentinel | E2/E02.py:38-44 | without a slot that coerces to -999, the rule as written and the corrected rule keep the same observations |
| Pipeline.CorrectionOnlyDropsStringSentinel | dadesprova.py:12-25 | on a cleaned frame whose strings never convert to -999, the corrected rule keeps exactly what the scripts keep |
| Stats.SumPermutation | dades2.py:18 | the sum of a group does not depend on the order of its values |
| Slots.MeltedIsRowMajor | dades2.py:13-14 | the melt lists every (row, day_k) slot of the frame exactly once: it is a rearrangement of the row-by-row, day-by-day listing |
| Slots.KeptAsWrittenPermutation | E2/E02.py:42-44 | the filter as written keeps the same observations, with the same multiplicities, from any rearrangement of the slots |
| Slots.KeptRowMajor | E2/E02.py:42-44 | on the row-by-row listing, the filter as written gives the reference listing: one observation per slot whose value is present and coerces, in order |
| Slots.ObservationsAreSlots | E2/E02.py:38-44 | the observations the scripts keep are the reference listing, observation for observation, with the same multiplicities: duplicates are neither removed nor added |
| Slots.YearGroupPermutation | dades2.py:18 | the values of a year do not depend, up to order, on the order of the observations |
| Slots.SlotGroups | dades2.py:18 | grouping the reference listing by year gives, per year, the present, numeric day values of that year's rows, row by row |
| Slots.YearGroupIsCells | dades2.py:13-18 | the group of each year that the scripts aggregate holds exactly the present, numeric day values of that year's rows, each as often as it occurs in the cells |
| Slots.YearStatsFromCells | dades2.py:18-19 | so each year's count, sum, mean and median are those of the values of that year's rows |
| Stats.InsertSorted | dades2.py:18 | inserting into a sorted group keeps it sorted and adds exactly one value |
| Stats.Sort | dades2.py:18 | the sorted group is sorted and a permutation of the group |
| Stats.Median | dades2.py:18 | pandas `median`: the middle of the sorted group; order-free, bounded and computed by Stats.MedianOrderIndependent, Stats.MedianBounds and Stats.MedianOfSorted |
| Stats.MedianOrderIndependent | E2/E02.py:48 | the median of a group does not depend on the order of its values |
| Stats.MedianBounds | dades2.py:18 | the median lies between two values of the group |
| Stats.MedianOfSorted | dadesprova.py:28 | on a sorted group the median is the middle value (odd count) or the mean of the two middle values (even count) |
| Stats.MeanWithin | E03/E03.py:51 | the mean of values between two bounds lies between them |
| Stats.ThreeValueExample | dades2.py:18 | values 2, 4, 6 give total 12, mean 4 and median 4 |
| Stats.FirstArgMin | E03/E03.py:48 | `idxmin`: an index of the least value, with every earlier value strictly greater |
| Stats.FirstArgMax | E03/E03.py:47 | `idxmax`: an index of the greatest value, with every earlier value strictly smaller |
| Stats.TiesPickFirst | dades2.py:26-27 | when all values are equal, both `idxmin` and `idxmax` pick the first |
| Stats.DiffsTelescope | E03/E03.py:45 | the consecutive differences add up to last minus first |
| Stats.DiffMeanIsSlope | E03/E03.py:45 | the mean change is undefined below two values, otherwise (last - first) / (n - 1) |
| Grouping.Keys | dades2.py:18 | the group keys are ascending, each once, and exactly the keys that occur |
| Grouping.ValuesOf | dades2.py:18 | a group is non-empty exactly when its key occurs |
| Grouping.ValuesOfConcat | E2/E02.py:63 | grouping stacked tables concatenates each group in table order |
| Grouping.GroupSumsAddUp | E2/E02.py:48 | once every key is named once, the group sums add up to the sum of all values: grouping loses and duplicates nothing |
| Dades2.AnnualTable.constructor | dades2.py:18-20 | a new table holds its rows and no `variation_rate` column |
| Dades2.AnnualTable.AddVariationRate | dades2.py:22-23 | adds only the rate column, computed from the totals; the rows are unchanged |
| Dades2.CalculateAnnualPrecipitation | dades2.py:11-20 | cleans the caller's frame in place and returns a fresh table, without a rate column, summarising the observations the script keeps from the cleaned frame (a string "-999" included) |
| Dades2.FileSummary | dades2.py:11-19 | the annual table of one cleaned frame, built on the observations kept as written; read off the cells by Dades2.FileSummaryFromCells |
| Dades2.FileSummaryFromCells | dades2.py:11-19 | a file's summary has a line for a year exactly when some row of that year has a present, numeric day value; the line's total, mean and median are those of all such values, each counted as often as it occurs in the cells |
| Dades2.ByYear | dades2.py:99 | one (year, field) pair per line, with exactly the years of the table |
| Dades2.Merge | dades2.py:99 | the merged line of a year of the stack: the sum of its totals, the mean of its means and the median of its medians; Dades2.RegroupFields states it of every regrouped line |
| Dades2.RegroupFields | dades2.py:99 | each regrouped line is a year of the stack; its total is the sum of that year's per-file totals, its mean the mean of the per-file means and its median the median of the per-file medians |
| Dades2.Regroup | dades2.py:99 | one line per year of the stack, ascending, each being the merge of that year's lines |
| Dades2.RegroupKeepsTotal | dades2.py:99 | regrouping keeps the grand total |
| Dades2.SingleYear | dades2.py:99 | a stack holding one year regroups into that year's merged line alone |
| Dades2.RegroupExample | dades2.py:99 | totals 10 and 20 with medians 2 and 5 in one year regroup to total 30, the mean of the means and median 3.5 |
| Dades2.InCentury | dades2.py:100 | keeps exactly the lines with years in 2000..2100, and keeps them ascending |
| Dades2.Contributions | dades2.py:91-97 | one contribution per file, in file order: its annual table, or nothing when reading raised |
| Dades2.ProcessFolder | dades2.py:87-102 | the loop over files computes the folder result |
| Dades2.FolderResult | dades2.py:82-111 | what `process_folder` computes: an error when no file reads or no year is left, otherwise the century table, its rates and its extremes; characterised by Dades2.FolderResultMeaning |
| Dades2.StackedSnoc | dades2.py:95 | each readable file appends its table to the stack |
| Dades2.FailingFileSkipped | dades2.py:91-97 | a file whose reading raises is skipped and the later files are still stacked |
| Dades2.CenturyTableMeaning | dades2.py:99-100 | the summary table is ascending and holds only years 2000..2100 of the stack, each with the sum of its per-file totals; every such year is present |
| Dades2.FolderResultMeaning | dades2.py:99-102 | the result fails exactly when no file reads or no year is left; otherwise it holds the century table, its rates and two extreme lines bounding every total |
| E02.ReadFile | E2/E02.py:13-21 | none exactly when reading raises; otherwise the forced labels and the rows without the first line |
| E02.ValidateFileFormat | E2/E02.py:23-34 | the file reads and its labels are the expected ones; equivalent to "the file reads" (E02.ValidIffReadable) |
| E02.ValidIffReadable | E2/E02.py:23-34 | validation succeeds exactly when the file reads, because the labels checked are the labels forced when reading |
| E02.ProcessData | E2/E02.py:36-45 | cleans the caller's frame in place and returns the observations the script keeps from the cleaned frame, a string "-999" included |
| E02.FileObservations | E2/E02.py:59-62 | what one file adds to the pool: the observations kept, as written, from its cleaned frame, or nothing when it does not read |
| E02.ObservationLists | E2/E02.py:59-63 | one observation list per file, in file order |
| E02.Pooled | E2/E02.py:63 | the observations of every valid file, in file order; its groups and medians are E02.PooledGroups and E02.PooledMedianIgnoresFileOrder |
| E02.SubfolderSummary | E2/E02.py:66-72 | nothing (the warning) when the pool is empty, otherwise the annual table of the pool; E02.NothingProcessed and E02.UnreadableFileSkipped |
| E02.ProcessSubfolder | E2/E02.py:52-72 | the loop pools the observations of the valid files and summarises the pool, or produces nothing |
| E02.PooledGroups | E2/E02.py:63-67 | the pool of two batches holds, per year, the raw values of both batches: the pool keeps raw values, not per-file summaries |
| E02.PooledMedianIgnoresFileOrder | E2/E02.py:63-67 | a year's median is the median of all raw values of that year, whatever the file order |
| E02.NothingProcessed | E2/E02.py:66-72 | no summary (the warning) exactly when no file contributed an observation |
| E02.UnreadableFileSkipped | E2/E02.py:59-61 | an unreadable file changes nothing in the summary |
| E03.ReadFrames | E03/E03.py:16-25 | never more frames than files |
| E03.FailingFileSkipped | E03/E03.py:19-24 | a file whose reading raises is skipped; the others are kept in order |
| E03.AllFilesRead | E03/E03.py:16-25 | when every file reads, one frame per file, in file order, without its first line |
| E03.ProcessFiles | E03/E03.py:16-25 | returns one new frame per readable file, in file order |
| E03.CheckDataConsistency | E03/E03.py:27-29 | cleans the frame in every column, in place, and returns the same frame |
| E03.NonYearColumns | E03/E03.py:42 | the yearly sum covers every column except year: id, month and the 31 days |
| E03.NonMonthColumns | E03/E03.py:51 | the monthly mean covers every column except month: id, year and the 31 days |
| E03.SumInEitherOrder | E03/E03.py:42 | summing columns then rows equals summing rows then columns |
| E03.Trunc | E03/E03.py:41 | `astype(int)` truncates toward zero |
| E03.Retyped | E03/E03.py:41 | only the year column changes, to its truncated value |
| E03.YearKeys | E03/E03.py:42 | the years of `annual_data`, ascending, exactly those that occur |
| E03.AnnualValuesAddUp | E03/E03.py:42-44 | the annual values add up to every non-missing cell outside the year column |
| E03.AnnualValueOfYear | E03/E03.py:42 | a year's value is the total of that year's rows over the non-year columns |
| E03.AnnualValues | E03/E03.py:42 | one value per year key; each is the year's rows' total over the non-year columns (E03.AnnualValueOfYear) and together they add up to every present non-year cell (E03.AnnualValuesAddUp) |
| E03.MissingPercent | E03/E03.py:38 | undefined exactly for an empty frame; otherwise in [0, 100] and 0 exactly when no cell is missing |
| E03.MaxDefined | E03/E03.py:52 | the largest defined monthly average, undefined exactly when none is defined |
| E03.MinDefined | E03/E03.py:53 | the smallest defined monthly average, undefined exactly when none is defined |
| E03.StatisticsErrors | E03/E03.py:32-48 | fails with "no files" exactly on an empty list; with numeric cells, finds no annual data exactly when every frame is empty |
| E03.CalculateStatistics | E03/E03.py:31-64 | `calculate_statistics` on the cleaned frames: the error cases in the order they arise, otherwise the eight figures; characterised by E03.StatisticsErrors and E03.StatisticsMeaning |
| E03.StatisticsMeaning | E03/E03.py:38-48 | the missing share is a percentage; the annual total is every non-missing non-year cell; the average spreads it over the years; the mean change is the slope; the extreme years are the first holding the largest and smallest values |
| E03.MonthlyExtremes | E03/E03.py:51-53 | the highest and lowest monthly averages are monthly averages, defined together exactly when one is, and bound every defined one |
| E03.MonthlyAverageWithin | E03/E03.py:51 | a month's average is defined exactly when one of its column means is, and lies between the smallest and largest of them |
| E03.MonthlyAverages | E03/E03.py:51 | one entry per month key, the mean of that month's defined column means; bounded by E03.MonthlyAverageWithin |
| Dades.SentinelsAreCounted | Dades.py:23-24 | every sentinel cell is a non-null cell |
| Dades.ColumnPercent | Dades.py:23-25 | undefined exactly when a column has no non-null cell; otherwise in [0, 100], 0 exactly without a sentinel and 100 exactly when every non-null cell is a sentinel |
| Dades.ColumnPercentages | Dades.py:23-25 | one percentage per column, each that column's share |
| Dades.CalculateTotalMissingPercentage | Dades.py:10-28 | a missing path and a failing read each return early; otherwise the shares are taken over every line of the file |
| Dadesprova.TotalsAndMedians | dadesprova.py:28-29 | one line per year with a value, ascending, with the sum and the median of exactly that year's values |
| Dadesprova.AnnualTable | dadesprova.py:10-29 | the year table of a cleaned frame, built on the observations kept as written; read off the cells by Dadesprova.AnnualTableFromCells |
| Dadesprova.CalculateAnnualPrecipitation | dadesprova.py:10-32 | cleans the caller's frame in place and returns the table of the observations the script keeps from the cleaned frame, a string "-999" included |
| Dadesprova.AnnualTableFromCells | dadesprova.py:10-29 | the table has a line for a year exactly when some row of that year has a present, numeric day value; its total and median are those of all such values, with their multiplicities |
| Dadesprova.CalculateTotalMissingPercentage | dadesprova.py:34-55 | the control flow of the script computes its outcome |
| Dadesprova.MissingReport | dadesprova.py:34-55 | the outcome of `calculate_total_missing_percentage`: the two early returns, or the shares of the frame as read and the table of the cleaned frame; characterised by Dadesprova.MissingReportMeaning |
| Dadesprova.MissingReportMeaning | dadesprova.py:34-55 | early returns exactly for a missing path or a failing read; otherwise every line is a row, the shares are percentages taken before the replacement, and the table comes from the observations kept, as written, from the cleaned frame |
| Dadesprova.AnnualValuesNeverSentinel | dadesprova.py:12-29 | when no string cell of the file converts to -999, no value summed or ranked in the annual table is -999 |
| Dadesprova.CountedBeforeReplacing | dadesprova.py:46-55 | the shares are counted before the replacement; counted after it, no sentinel would remain and the non-null count would drop by the sentinel count |
| App.Split | js/app.js:5 | at least one piece, none holding the separator |
| App.JoinSplit | js/app.js:18 | joining the pieces with the separator gives back the text |
| App.SplitJoin | js/app.js:18 | splitting joined separator-free pieces gives back the pieces |
| App.SplitCount | js/app.js:18 | a text splits into one piece more than it has separators |
| App.DataRows | js/app.js:5 | one row fewer than the lines of the text |
| App.HeaderDropped | js/app.js:5 | the first line, the header, is discarded and every later line is a row |
| App.Qualifying | js/app.js:19 | never more rows than given, each of them qualifying |
| App.QualifyingMembers | js/app.js:19 | a row is counted exactly when it is given and qualifies |
| App.FieldCountDecides | js/app.js:19 | a row qualifies only with exactly three fields, and then exactly when its year is in 2006..2100 |
| App.FieldSumMeaning | js/app.js:20-21 | a field sum is a number exactly when the field parses in every row, and then it is their sum |
| App.FieldSum | js/app.js:17-24 | the accumulator after the rows: fields added one row at a time, NaN from the first unparsed field on; its meaning is App.FieldSumMeaning |
| App.Divide | js/app.js:26-27 | a number exactly for a number sum and a positive count, and then count times the result is the sum |
| App.Average | js/app.js:13-28 | the page's average of field k, the field sum over the qualifying rows divided by their count; its meaning is App.AverageMeaning |
| App.CalculateStatistics | js/app.js:13-29 | the loop computes the average of fields 1 and 2 over the qualifying rows |
| App.AverageMeaning | js/app.js:20-28 | NaN exactly when no row qualifies or a field does not parse; otherwise the mean of the field over the qualifying rows |
| App.NoRowsGiveNaN | js/app.js:26-35 | without a qualifying row both averages are 0/0 and the page shows 'NaN' |
| App.FiveColumnRowsGiveNaN | js/app.js:19 | rows of five fields never qualify, so both averages are NaN |
| Charts.YearOf | js/charts.js:6-7 | the year of a qualifying row is in 2006..2100 |
| Charts.Labels | js/charts.js:8 | one label per qualifying row |
| Charts.Points | js/charts.js:9 | one data point per qualifying row |
| Charts.CreateChart | js/charts.js:1-11 | the loop builds exactly the labels and points of the qualifying rows |
| Charts.ChartMeaning | js/charts.js:4-10 | labels and data have equal length; label i is the year of the i-th qualifying row, a year in 2006..2100, and data i is its field 1 |

## Left out

- Reading files: `pd.read_csv` tokenising, chunked reading and `pd.concat` of the chunks. A file is given as its tokenised rows (`FileRead`); only the skipped header line is modelled.
- Directory walking (`os.walk`, `os.listdir`), `os.makedirs`, fixed paths and the script-level calls: the files of a folder are given as a sequence.
- Logging, printing, `describe()`, CSV export, browser CSV download, all plotting, Chart.js configuration (js/charts.js:13-52), DOM code and index.js: reporting and user interface only.
- IEEE floating point: values are exact reals. NaN and infinity are `None`; the formatting of `toFixed` is a parameter of `App.Display`.
- `pd.to_numeric` and `parseFloat`: each is a parameter `string -> Option<real>`.
- A year held as a string (its column was read as text) drops out of `groupby('year')` in the model, while pandas would group it under its own string key.
- E03.CalculateStatistics: any string cell gives `NonNumeric`, as `mean` on a text column raises. A string year gives `YearCast`. The exact exception types are not modelled.
- E03/E03.py `main` and the stub `validate_files_format`, which always returns true. `main` calls a function that file does not define.
- E02.ProcessSubfolder: the script reads each valid file twice. Both reads are the same `FileRead`.
- E02.ValidateFileFormat: because the labels are forced when reading, it is equivalent to "the file reads" (E02.ValidIffReadable).
- Dades2.ProcessFolder: the rate column added to each per-file table is not kept, because the regroup drops it.
- A row is always 34 cells wide; the model does not cover `read_csv` padding or rejecting ragged lines.
- The frames' pandas indices are not modelled; `idxmin` and `idxmax` return the line, or year label, they index.

## Findings

| source | as written | input that shows it | evidently intended | confidence | as-written member | corrected member |
|---|---|---|---|---|---|---|
| dades2.py:12-17 (also E2/E02.py:38-44, dadesprova.py:12-25) | `replace(-999, NA)` compares cells with the number -999 only; `to_numeric` then turns a string "-999" into -999, which is summed as rain | a day column read as strings (one non-numeric token in the column) holding the token "-999" | every -999 is a missing value, whatever type its column was read with | not executed | Pipeline.StringSentinelKeptAsWritten | Pipeline.CorrectionOnlyDropsStringSentinel |

The per-script members (`Dades2`, `E02`, `Dadesprova`) follow the rule as
written. The corrected rule, `Pipeline.Observations`, is proved to keep the
same observations whenever no string cell converts to -999
(`Pipeline.AsWrittenMatchesWhenNoStringSentinel`), and under that condition
the scripts never aggregate a -999 (`Dadesprova.AnnualValuesNeverSentinel`).
