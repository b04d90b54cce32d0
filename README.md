# daly_prev in Dafny

A model of the data-shaping core of `daly_prev`, a batch pipeline over two tables of
health metrics: disability-adjusted life years (DALY) and prevalence, per condition,
sex, age, location and year. The model covers these steps:

- parse the `--countries` and `--years` arguments;
- filter both tables by the same locations and years;
- rescale the rate columns by 100 000;
- inner-join the tables on the five key columns;
- pick the quadrant thresholds, either as overrides, as medians, or automatically
  from the top-N diseases by combined score;
- per analysis, export the "high/high" rows of each condition and compute the parts
  of the report that are not Markdown text: the filter type, the condition tables,
  the header figures and the PDF name.

Modules follow the source files:

- `YearsArgs`, `Export` and `Report` model `src/io_utils.py`.
- `Processing` and `Ranking` model `src/processing.py`.
- `Pipeline` models `src/main.py`.
- `Strings`, `Collections` and `Tables` give the Python and pandas built-ins the code
  relies on: ASCII `strip`, `split`, `join`, `int()`, `str()`, case changes and
  `replace`; `sorted(set(...))`, masks, `unique()`, `max`, `min`; the row types.

The imperative parts of the source are methods with loops, each proved equal to a
specification function:

- `parse_years_arg`: `YearsArgs.ParseYearsArg`;
- `format_years_list`: `YearsArgs.FormatYearsList`;
- the export loop: `Export.ExportHighHigh`;
- `normalize_rates`: `Processing.NormalizeRates`;
- the step-by-step body of `main`: `Pipeline.RunPipeline` and the methods it calls.

Everything else is functions, with lemmas about them.

Tables are sequences of rows. A row has its five key columns as fields and every
other column in a map to a real number. That includes the text columns (Measure,
Unit, Forecast Scenario, Data Suite, DA), whose values no modelled step reads. Each
table also carries its header, so the `KeyError`
raised for a missing column can be modelled. A merged row is the pair of joined
rows. Its `Value_daly` and `Value_prev` are the `Value` entries of the two sides.

A pandas `groupby("Condition")` visits conditions in sorted key order. The model
uses code-point order on strings, which is `Tables.Conditions`.

The automatic thresholds are 0.99 times the smallest per-axis maximum among the
selected conditions. They keep each selected condition's best point above each
threshold separately, on its own axis. They do not promise that a condition has a
row in the high/high quadrant, even though the comment at src/processing.py:51-52
suggests they do. `Processing.SelectedWithoutHighHighRow` shows a one-condition
table where the single selected condition has no high/high row.

A `--years` token with a doubled hyphen, such as `2018--2020`, is not rejected. It
splits at its first hyphen into `2018` and `-2020`, `int()` accepts both, and the
token adds every year from -2020 to 2018 (`YearsArgs.DoubleHyphen`).

## Model

| member | source | states |
|---|---|---|
| YearsArgs.ParseCountriesArg | src/io_utils.py:91-97 | `None` exactly when the argument is `None` or empty; otherwise every element is a trimmed, non-empty, comma-free token |
| YearsArgs.Tokens | src/io_utils.py:31 | `[p.strip() for p in arg.split(",") if p.strip()]`: every token is non-empty, comma-free and without whitespace at either end; `TokensOfJoin` shows they are the comma-separated pieces |
| YearsArgs.CountriesRoundTrip | src/io_utils.py:95-97 | joining trimmed tokens with `,` and parsing gives the same tokens in the same order |
| YearsArgs.TokensOfJoin | src/io_utils.py:31 | the tokens of a comma-joined list of trimmed tokens are those tokens, in order |
| YearsArgs.ParseYears | src/io_utils.py:19-53 | `None` exactly when the argument is `None` or empty; otherwise strictly increasing years whose set is the union of the years each token contributes |
| YearsArgs.ParseYearsArg | src/io_utils.py:19-53 | the loop over tokens returns the same result as `ParseYears`, strictly increasing and with exactly the tokens' years |
| YearsArgs.AddTokenYears | src/io_utils.py:33-51 | one loop step adds exactly the years of the token to the years collected so far |
| YearsArgs.ArgYearsMembers | src/io_utils.py:30-53 | a year is in the result exactly when some token contributes it |
| YearsArgs.TokenYears | src/io_utils.py:33-51 | the years one token adds; its behaviour on ranges, reversed ranges, empty sides, extra hyphens and non-integers is stated by the lemmas below |
| YearsArgs.TokenYearsRange | src/io_utils.py:34-43 | a token whose two sides around the first hyphen both parse as integers contributes exactly the years from the smaller bound to the larger, inclusive, whichever side is larger |
| YearsArgs.RangeTokenYears | src/io_utils.py:34-43 | the token `a-b` of two non-negative years contributes the inclusive range between them, in either order |
| YearsArgs.ReversedRange | src/io_utils.py:40-43 | a reversed range `b-a` contributes the same years as `a-b` |
| YearsArgs.EmptySide | src/io_utils.py:36-45 | a range token with an empty side, such as `-5`, contributes no year |
| YearsArgs.SecondHyphen | src/io_utils.py:36-45 | a range token whose stripped right side holds a hyphen after its first character, such as `2018-2020-2022`, contributes no year |
| YearsArgs.DoubleHyphen | src/io_utils.py:36-43 | `a--b` is not rejected: it splits into `a` and `-b`, `int()` accepts both, and it contributes every year from `-b` to `a` |
| YearsArgs.NotAnInteger | src/io_utils.py:47-51 | a token without a hyphen that is not an integer contributes no year |
| YearsArgs.OnlyCommas | src/io_utils.py:27-31 | the argument `,` has no tokens and yields the empty list, not `None` |
| YearsArgs.FormatYearsList | src/io_utils.py:55-89 | the loop that collects runs returns `FormatYears` of its input |
| YearsArgs.FormatYears | src/io_utils.py:55-89 | the year text: `N/A` for no years, otherwise the maximal runs of the distinct years joined by `, `; its properties are stated by the lemmas below |
| YearsArgs.RunsOfIncreasing | src/io_utils.py:69-87 | the runs of the sorted distinct years are maximal runs of consecutive years, cover exactly those years, and start and end at the first and last year |
| YearsArgs.FormatYearsOfSameSet | src/io_utils.py:63 | the text depends only on the set of years, not on their order or repeats |
| YearsArgs.FormatExample | src/io_utils.py:58 | `[2018, 2019, 2020, 2022]` is formatted as `2018-2020, 2022` |
| YearsArgs.RunTextYears | src/io_utils.py:76-87 | the text of a run is a token contributing exactly the run's years |
| YearsArgs.TokensOfCommaSpaceJoin | src/io_utils.py:89 | the `, `-joined run texts split back into the same texts |
| YearsArgs.FormatParseRoundTrip | src/io_utils.py:31-53 | for non-empty non-negative years, the years of the formatted text are exactly the input's years |
| YearsArgs.FormatThenParse | src/io_utils.py:55-89 | for non-empty non-negative years, `parse_years_arg(format_years_list(ys))` is the sorted distinct `ys` |
| Strings.Strip | src/io_utils.py:31 | the result has no whitespace at either end, and it is empty exactly when the input is all whitespace |
| Strings.StripSpec | src/io_utils.py:31 | `s.strip()` is a contiguous part `s[i..j]` of the input, and every character removed before `i` or after `j` is whitespace |
| Strings.Split | src/io_utils.py:31 | at least one piece, none holding the separator, and the pieces joined by the separator give back the input |
| Strings.ParseInt | src/io_utils.py:38-39 | `int()` succeeds exactly on an optionally signed digit string after stripping |
| Strings.ParseIntOfIntToStr | src/io_utils.py:77 | `int(str(i)) == i` |
| Strings.ParseIntInnerHyphen | src/io_utils.py:37-39 | text with a hyphen after its first character is not an integer |
| Collections.SortedDistinct | src/io_utils.py:53 | `sorted(list(set(...)))`: strictly increasing, with the same elements |
| Export.SafeNameChars | src/io_utils.py:130-131 | the sanitised name holds only ASCII letters, digits, `_` and `-` |
| Export.SafeName | src/io_utils.py:130-131 | the sanitised name: allowed characters kept, trailing whitespace stripped, spaces turned into `_`; its properties are stated by the `SafeName…` lemmas |
| Export.SafeNameOfSafe | src/io_utils.py:130-131 | a name made only of kept characters is left as it is |
| Export.SafeNameIdempotent | src/io_utils.py:130-131 | sanitising twice is the same as sanitising once |
| Export.SafeNameCollision | src/io_utils.py:130-131 | `a b` and `a_b` give the same file name, so two conditions can share one export file |
| Export.JoinPath | src/io_utils.py:131 | `os.path.join`: an absolute name is kept as it is; otherwise `dir + name` when `dir` is empty or ends in `/`, and `dir + "/" + name` when it does not |
| Export.ExportFileName | src/io_utils.py:130-131 | the export file of a condition; its shape is stated by `ExportFileNameShape` |
| Export.ExportFileNameShape | src/io_utils.py:131 | the file is the directory joined with `high_high_` + sanitised name + `.csv` |
| Export.ExportHighHigh | src/io_utils.py:110-135 | for a merged table with `Value_prev` and `Value_daly`, the loop over groups writes what `Exports` lists and returns exactly those files, in order |
| Export.ExportOfWhen | src/io_utils.py:121-128 | a group is written exactly when the whitelist admits its condition and the group has a row with `Value_prev > x` and `Value_daly > y` |
| Export.ExportOfWrites | src/io_utils.py:126-133 | a group's write goes to the condition's file, names the condition, and holds each high/high row of the condition as many times as the table does, and no other row |
| Export.GroupQuadrant | src/io_utils.py:121-126 | the high/high rows of a group are the rows of the table with that condition that are high/high |
| Export.Exports | src/io_utils.py:119-135 | the writes of the loop, one per exported group in group order; stated by `ExportsSpec` and `ExportsOrdered` |
| Export.ExportsSpec | src/io_utils.py:119-135 | a file is written for a condition exactly when it is whitelisted and has a high/high row; every export has the condition's file name and exactly its high/high rows, each as many times as the merged table has it |
| Export.ExportsOrdered | src/io_utils.py:121 | the exports follow the sorted group order, one per condition |
| Export.EmptyWhitelist | src/io_utils.py:123 | an empty whitelist exports nothing |
| Report.FilterType | src/io_utils.py:145 | `IndexError` exactly when the file name has no `_` |
| Report.FilterTypeOf | src/io_utils.py:145 | the filter type is the capitalised word between the first `_` and the next `_` or `.` |
| Report.DefaultReportName | src/io_utils.py:140-145 | the default name `REPORT.md` raises `IndexError` |
| Report.RowCountSpec | src/io_utils.py:158-188 | `all_hits.get(cond, 0)`: the number of rows of the condition, and 0 exactly when it has none |
| Report.TopTable | src/io_utils.py:181-190 | the top-N table, one entry per supplied condition; stated by `TopTableSpec` |
| Report.HitTable | src/io_utils.py:154-155 | the tally of the high/high rows; stated by `HitTableNames`, `HitTableOrder` and `HitTableCounts` |
| Report.TopTableSpec | src/io_utils.py:181-190 | the top table lists exactly the given conditions, in the given order, each with its unfiltered row count, 0 for an absent one |
| Report.HitTableNames | src/io_utils.py:154-155 | the hit table lists each condition with a high/high row exactly once, and no other |
| Report.HitTableOrder | src/io_utils.py:155 | hit counts never increase down the table |
| Report.HitTableCounts | src/io_utils.py:155-201 | each count is at least 1 and is the number of the condition's high/high rows |
| Report.TallyNames | src/io_utils.py:155 | `groupby().size()` of any rows lists each of their conditions exactly once |
| Report.TallyOrder | src/io_utils.py:155 | `sort_values(ascending=False)`: counts never increase |
| Report.TallyCounts | src/io_utils.py:155 | each count is the number of rows of that condition, at least 1 |
| Report.RankedMembers | src/io_utils.py:155 | the ranking holds each condition of the rows once |
| Report.RankedOrder | src/io_utils.py:155 | the ranking orders conditions by non-increasing row count |
| Report.EntriesSpec | src/io_utils.py:155 | the entries of an order are its conditions, in order, with their row counts |
| Report.YearRangeOfYears | src/io_utils.py:150-151 | the year text is `format_years_list` of the merged years |
| Report.Locations | src/io_utils.py:149 | `merged["Location"].unique()`: each location of the merged rows exactly once, and no other; the first-appearance order is stated by `ReportHeader` |
| Report.LocationsOrder | src/io_utils.py:149 | the distinct locations are no more and no fewer than those of the merged rows, without duplicates, listed by the position of their first appearance |
| Report.PdfName | src/io_utils.py:211-212 | `<out_dir>/<filter type>_<locations joined by _>_<year slug>_report.pdf`, through `JoinPath` |
| Report.YearSlugChars | src/io_utils.py:211 | the slug has no space and no comma; every character is a `.` or a non-comma character of the year text |
| Report.YearSlugJoin | src/io_utils.py:211 | the slug of `, `-joined texts without spaces or commas is those texts joined by `.` |
| Report.YearSlugExample | src/io_utils.py:211 | `2018-2020, 2022` becomes `2018-2020.2022` |
| Report.GenerateReport | src/io_utils.py:137-213 | for a merged table with `Value_prev` and `Value_daly`: `IndexError` exactly when the name has no `_`; the top table exactly when `top_n` is truthy and the top list is non-empty, and then it is `TopTable` of that list; the hit table exactly when `top_n` is falsy, and then it is `HitTable` of the merged rows; the report path; the PDF name |
| Report.ReportHeader | src/io_utils.py:145-151 | the filter type, the number of distinct conditions, the distinct locations in first-appearance order, and the year text of the merged years |
| Report.ReportTables | src/io_utils.py:154-203 | the report's top table lists the supplied conditions in order, each with its merged row count; its hit table lists each condition with a high/high row once, and no other, by non-increasing count |
| Collections.Unique | src/io_utils.py:149 | `unique()`: no repeats and the same elements |
| Collections.UniqueOrder | src/io_utils.py:149 | `unique()` keeps the order of first appearance |
| Tables.Conditions | src/io_utils.py:121 | the group keys: sorted, distinct, and exactly the conditions of the rows |
| Tables.HighHighRows | src/io_utils.py:126 | the rows with `Value_prev > x` and `Value_daly > y`, strictly |
| Processing.NormalizeRates | src/processing.py:7-16 | every row keeps its key and its columns; each column present in the header is divided by 100 000 once per time it is named, and every other value is unchanged |
| Processing.RateColumnsDivisor | src/processing.py:13-15 | with `Value`, `Lower`, `Upper`, the divisor is 100 000 for those present and 1 for every other column |
| Processing.RescaledWellFormed | src/processing.py:12-16 | rescaling keeps a table well formed |
| Processing.FilterDf | src/processing.py:18-27 | `KeyError` exactly when an active filter's column (`Location`, then `Year`) is missing; otherwise the header is kept and the rows are those that pass both active filters, in order |
| Processing.FilterInOrder | src/processing.py:22-27 | filtering by country and then by year equals one filter by both |
| Processing.FilterDfInactive | src/processing.py:23-26 | `None` or empty lists filter nothing |
| Processing.FilterDfRows | src/processing.py:22-27 | a row is kept exactly when it passes both active filters, and no row gains copies |
| Processing.MergeDalyPrev | src/processing.py:106-125 | `KeyError` naming the first key column either header lacks, exactly when one is missing; otherwise the suffixed header and the joined rows |
| Processing.JoinRows | src/processing.py:119-125 | the rows of the inner join, DALY order first; stated by `JoinMembers`, `JoinCount` and `JoinSize` |
| Processing.JoinMembers | src/processing.py:119-125 | the merged rows are exactly the pairs of a DALY row and a prevalence row with equal five-column keys |
| Processing.JoinCount | src/processing.py:119-125 | a pair with equal keys occurs (copies of the DALY row) × (copies of the prevalence row) times; other pairs never |
| Processing.JoinSize | src/processing.py:119-125 | the number of merged rows is the sum over keys of mult_daly(k) · mult_prev(k) |
| Processing.OneSidedKey | src/processing.py:119-125 | a key present in only one table yields no merged row |
| Processing.MergeHasValues | src/processing.py:119-125 | when both tables have `Value`, every merged row has both values, and the header has `Value_daly` and `Value_prev` |
| Processing.MergedValueColumns | src/processing.py:124 | a shared non-key column is named with the `_daly` and `_prev` suffixes |
| Processing.CalculateAutoIntersects | src/processing.py:29-70 | `ValueError("N must be positive")` exactly when `n` is `None` or not positive |
| Processing.Intersects | src/processing.py:39-66 | the selection and the two thresholds; stated by `IntersectsTop` and `IntersectsThresholds` |
| Processing.AutoTopSpec | src/processing.py:39-48 | `min(n, #conditions)` distinct conditions, all in the table; no unselected condition scores above a selected one |
| Processing.IntersectsTop | src/processing.py:39-48 | the same, for any distinct conditions and per-condition maxima |
| Processing.IntersectsThresholds | src/processing.py:61-66 | each threshold is 0.99 times the smallest selected maximum on its axis: at most 0.99 × each selected maximum and equal to one of them |
| Processing.AutoMaxPointAbove | src/processing.py:61-66 | for a selected condition with a positive maximum, some row of it lies strictly above that axis's threshold |
| Processing.SelectedWithoutHighHighRow | src/processing.py:51-66 | the top-1 selection of a two-row table picks a condition none of whose rows is in the high/high quadrant |
| Processing.FilterTopNDiseases | src/processing.py:72-104 | both tables unchanged when `n` is `None` or not positive; otherwise `KeyError` exactly when either table lacks `Condition` or `Value`, naming the first missing one (DALY table first) |
| Processing.TopNDiseases | src/processing.py:81-97 | the top-n common conditions by combined score, at most `n` of them; the selection is stated by `TopNDiseasesSpec` |
| Processing.FilterTopNRows | src/processing.py:97-104 | both outputs keep their header; each keeps every row whose condition is among the top n, as many times as the input has it, and no other row |
| Processing.TopNDiseasesSpec | src/processing.py:81-97 | `min(n, #common)` distinct conditions present in both tables; no unselected common condition scores above a selected one |
| Ranking.MaxWhere | src/processing.py:39-40 | the maximum of the condition's values: attained by one of its rows and at least each of them |
| Ranking.GroupMax | src/processing.py:39-40 | `groupby().max()`: defined exactly on the conditions, with the maximum of each |
| Ranking.Normalized | src/processing.py:44-45 | divided by the series maximum when that is positive, and then at most 1; left raw otherwise |
| Ranking.Scores | src/processing.py:47 | the sum of the two normalised maxima of each condition |
| Ranking.SortByScore | src/processing.py:48 | a permutation of the conditions with scores never increasing |
| Ranking.TopByScoreSpec | src/processing.py:48 | `head(n)` of the ranking: `min(n, #)` distinct conditions, none left out scoring above one kept |
| Pipeline.PrepareTables | src/main.py:56-63 | the first filter's `KeyError`, else the second's; otherwise both tables filtered by the same countries and years, then rescaled, with their headers kept |
| Pipeline.StandardAnalysis | src/main.py:93-107 | each axis at its override when given, otherwise at its median, independently; suffix `manual` exactly when both overrides are given, else `median` |
| Pipeline.PlanAnalyses | src/main.py:93-119 | the standard analysis first; a second, top-N analysis exactly when `num` is positive, at the automatic thresholds, whitelisted and listed by the top conditions; `ValueError` exactly when `num` is negative |
| Pipeline.AutoThresholdsDefined | src/main.py:113-114 | with rows and a positive `num`, both automatic thresholds exist |
| Pipeline.AutoTopTable | src/main.py:117-118 | in the top-N report no listed condition has count 0 |
| Pipeline.PlotFileName | src/main.py:76 | the plot path `<run_dir>/daly_vs_prev_<suffix>.png` |
| Pipeline.ExportDirName | src/main.py:81 | the export directory `<run_dir>/high_high_exports_<suffix>` |
| Pipeline.ReportFileName | src/main.py:87 | the report name `REPORT_<SUFFIX>.md`; its filter type is stated by `ReportFilterType` and `TopFilterType` |
| Pipeline.ReportFilterType | src/main.py:87 | the report named after a suffix has the capitalised suffix (`Median`, `Manual`) as its filter type |
| Pipeline.TopFilterType | src/main.py:87 | the top-N report `REPORT_TOP_<n>.md` has filter type `Top` |
| Pipeline.RunAnalysis | src/main.py:71-89 | the plot, export directory and report are named after the suffix; the exports and the report are those of the analysis |
| Pipeline.RunPlan | src/main.py:109-118 | the standard run, then the top-N run when the plan has one |
| Pipeline.AnalyseMerged | src/main.py:91-119 | the analyses run are those the plan chooses at the medians of the merged values, and the run ends with the plan's error, if any |
| Pipeline.RunPipeline | src/main.py:44-119 | a missing input ends the run and nothing else does; a filter `KeyError` ends it with that error, and a merge failure ends it with the `KeyError` of the first key column missing from either filtered table; an empty merge ends it; otherwise the plan's analyses are run in order |

## Left out

- Reading the TSV files, creating the run directory, logging, `to_csv` writes and
  plotting: the loaded tables are parameters, and a missing file is `None`.
- The Markdown text of the report, its timestamp and the `pandoc` run, whose failure
  the source swallows. The report is modelled by its computed fields only.
- The `plot_filename` parameter of `generate_report`. It only appears in the
  Markdown text.
- Float semantics:
  - Values are exact reals.
  - `pd.to_numeric(errors="coerce")`, NaN and NaN comparisons are not modelled.
  - `np.nanmedian` is a parameter (`median`) of `Pipeline.RunPipeline`.
- Pipeline.RunPipeline: requires both loaded tables to be well formed and to have a
  `Value` column. A table without one makes `merged["Value_prev"]` at
  src/main.py:93 raise `KeyError`, and that failure is not modelled.
- Processing.NormalizeRates: requires that no key column is named. `main` names
  only `Value`, `Lower` and `Upper` (src/main.py:62-63), so the requirement holds
  for every call the source makes; dividing a key column is not modelled.
- Strings.Strip: its own contract fixes only the ends and emptiness, to keep it
  cheap for its many callers. That the result is the input's middle part, with only
  whitespace removed, is stated by `Strings.StripSpec`.
- The text columns are modelled as real-valued entries like the numeric ones. Their
  values never enter a modelled computation, so only their presence in the header
  and in each row matters.
- Processing.CalculateAutoIntersects: requires every merged row to have
  `Value_daly` and `Value_prev`, which the merge guarantees for such tables
  (`Processing.MergeHasValues`).
- Report.GenerateReport: requires every merged row to carry `Value_daly` and
  `Value_prev`. On a merged table without those columns the source raises
  `KeyError` at src/io_utils.py:154; that failure is not modelled. `main` never
  reaches it, because src/main.py:93 reads `Value_prev` first.
- Export.ExportHighHigh: the same requirement; the `KeyError` the source raises at
  src/io_utils.py:126, for the first group the whitelist admits, is not modelled.
  The specification function `Export.Exports` stays total: a row without the
  values is never high/high.
- Report.ReportHeader: the same requirement, which `Report.GenerateReport` needs.
- Report.ReportTables: the same requirement, which `Report.GenerateReport` needs.
- Pipeline.RunAnalysis: the same requirement, passed on to the two members above.
- Pipeline.RunPlan: the same requirement, passed on to `Pipeline.RunAnalysis`.
- Tie order:
  - `sort_values` uses quicksort, which is not stable.
  - `Ranking.SortByScore`, `Report.HitTableOrder` and `Processing.AutoTopSpec`
    promise only the order of scores and counts, never the order among ties.
- Report.DefaultReportName: `generate_report` with its default file name raises.
  `main` always passes `REPORT_<SUFFIX>.md`, so this never happens there.
- Characters and integers:
  - `str.isalnum`, whitespace, `upper`, `lower` and `capitalize` are ASCII-only.
  - `int()` accepts an optional sign and ASCII digits, with surrounding whitespace
    stripped. It does not accept underscores or non-ASCII digits.
- The unused `top_subset` (src/processing.py:56) is not modelled.
- The unreachable branch of `format_years_list` at src/io_utils.py:66-67 is not
  modelled.
- The pandas group order is modelled as code-point order on condition names.
- `plotter.py` and `cli.py` are not part of this model.
