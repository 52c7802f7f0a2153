# NUMT overlap analyser

A Dafny model of the interval-overlap analyser of the NUMT_clinical scripts.
The analyser takes a table of NUMT records and a query region on the
mitochondrial genome. A NUMT is a segment of mitochondrial DNA found in a
nuclear chromosome. Each record has a code, a chromosome, and the
`[Mt Start, Mt End]` interval it covers on the mitochondrial axis. The analyser:

1. keeps the records whose interval meets the query. The test is inclusive
   at both ends (`Overlaps`, `Filter`);
2. adds to each kept row the overlap start (a maximum), the overlap end (a
   minimum), the overlap length, the overlap percentage and the overlap type
   (`Enrich`, `Categorize`, `Table`);
3. summarises the kept rows: count, raw sum of lengths, percent of the query
   covered, maximum, minimum and mean length. An empty result gives zeros
   (`Summarize`).

`AnalyzeNumtOverlaps` is the whole analysis as a method. It goes over the
records once and fills in the derived columns of each kept row. It is proved
equal to the function `Table` followed by `Summarize`, and the lemmas are
stated about those two functions.

Files:

- `aggregates.dfy` (module `Aggregates`): sum, maximum and minimum of an
  integer column, with their bounds.
- `numt_overlap_analysis.dfy` (module `NumtOverlapAnalysis`): records, the
  mask, the overlap geometry, the classification, the table, the summary,
  the analyser method and the lemmas about them.
- `numt_scenarios.dfy` (module `NumtScenarios`): worked examples on the
  default query `[10761, 12137]`. It also shows three inputs the source does
  not guard against: a reversed record, a reversed query and duplicate
  records.

Modelling choices:

- Coordinates are unbounded `int`s. The source does not check that
  `mtStart <= mtEnd`. `WellFormed` is a precondition only of the lemmas that
  need it. A reversed record still passes through the model, as it does
  through the source (`ScenarioReversedRecord`).
- Each percentage and the mean is an exact `Ratio(num, den)` over the integer
  lengths, so the model never divides. The source has no guard against a
  degenerate query, and neither does the model: the analysis is total. On an
  empty query (`query_end == query_start`) pandas gives infinite or
  not-a-number percentages, and the ratio has denominator 0. On a reversed
  query (`query_end < query_start`) records still pass the mask, and the
  percentages are finite but meaningless. For example, record `[5, 20]`
  against query start 15 and end 10 gets length -5 and percentage 100. The
  ratio then has a negative denominator. The lemmas about percentages
  require `qs < qe`.
- An empty result sets every statistic to the literal 0. The zero ratios are
  written as `Ratio(0, 1)` (`Ratio.IsZero`).

## Model

| member | source | states |
|---|---|---|
| `NumtOverlapAnalysis.DefaultQueryIsProper` | numt_overlap_analysis.py:5 | the default query region `[10761, 12137]` (`DefaultQueryStart`, `DefaultQueryEnd`) is a proper interval of length 1376 |
| `NumtOverlapAnalysis.Overlaps` | numt_overlap_analysis.py:22-23 | definition of the mask: `Mt Start <= query_end` and `Mt End >= query_start`, inclusive at both ends |
| `NumtOverlapAnalysis.OverlapsIffSharedPosition` | numt_overlap_analysis.py:21-24 | for well-formed intervals, the inclusive mask holds exactly when the record and the query share at least one coordinate (both directions) |
| `NumtOverlapAnalysis.Filter` | numt_overlap_analysis.py:21-24 | a record is kept iff it is in the input and `Mt Start <= query_end` and `Mt End >= query_start`; the result is no longer than the input |
| `NumtOverlapAnalysis.FilterIsSubsequence` | numt_overlap_analysis.py:21-24 | the kept records are a subsequence of the input: order is preserved and nothing is invented |
| `NumtOverlapAnalysis.FilterMultiplicity` | numt_overlap_analysis.py:21-24 | every copy of an overlapping record is kept and no copy of another record is kept (multiset count) |
| `NumtOverlapAnalysis.FilterAppend` | numt_overlap_analysis.py:21-24 | the mask works row by row: appending a record appends it to the result exactly when it passes |
| `NumtOverlapAnalysis.Categorize` | numt_overlap_analysis.py:35-43 | the first-match-wins chain gives exactly one type. Complete iff the record contains the query. Partial (Left) iff it starts at or before the query start and ends before the query end. Partial (Right) iff it starts after the query start and ends at or after the query end. Internal iff it lies strictly inside on both sides |
| `NumtOverlapAnalysis.Enrich` | numt_overlap_analysis.py:28-45 | the row keeps the record's own columns. The overlap interval is exactly the intersection of record and query. Its start is the larger start and its end is the smaller end. Its length is end minus start and is at most the query length and at most the record length. The percentage is 100 × length / query length. The type is the classification |
| `NumtOverlapAnalysis.OverlapNonNegative` | numt_overlap_analysis.py:28-30 | for a well-formed overlapping record and `qs <= qe`, overlap start <= overlap end and the length is >= 0 |
| `NumtOverlapAnalysis.PercentageWithinBounds` | numt_overlap_analysis.py:30-32 | for `qs < qe` the percentage has a positive denominator and is at most 100; for a well-formed overlapping record it is at least 0 |
| `NumtOverlapAnalysis.TouchingRecordHasZeroLength` | numt_overlap_analysis.py:21-30 | a record that meets the query only at its last coordinate (`Mt End == query_start`) or its first (`Mt Start == query_end`) is kept, with overlap length 0 |
| `NumtOverlapAnalysis.LengthOfCompleteAndInternal` | numt_overlap_analysis.py:28-43 | a Complete record's overlap length is the query length; an Internal record's is the record's own length |
| `NumtOverlapAnalysis.Table` | numt_overlap_analysis.py:21-45 | the table is no longer than the input. Every row carries a record of the input that passes the mask, and the row's derived columns are that record's overlap columns. The record column is the filtered input, in order |
| `NumtOverlapAnalysis.TableMembership` | numt_overlap_analysis.py:21-45 | a record has a row in the table iff it is in the input and passes the mask (both directions) |
| `NumtOverlapAnalysis.TableAppend` | numt_overlap_analysis.py:21-45 | appending a record to the input appends its enriched row to the table exactly when it passes the mask |
| `NumtOverlapAnalysis.TableLengthsNonNegative` | numt_overlap_analysis.py:28-30 | for well-formed records and `qs <= qe`, every overlap length in the table is >= 0 |
| `NumtOverlapAnalysis.SumOfLengthsAppend` | numt_overlap_analysis.py:30-51 | adding a row to the table adds exactly its overlap length to the sum of the `Overlap Length` column |
| `NumtOverlapAnalysis.Summarize` | numt_overlap_analysis.py:48-65 | an empty table gives zero in every field. Otherwise: the count is the number of rows; bases covered is the raw sum of lengths; percent covered is 100 × sum / query length; the mean is sum / count; min <= every length <= max, and some row attains each |
| `NumtOverlapAnalysis.MaxWithinTotal` | numt_overlap_analysis.py:50-53 | with non-negative lengths, bases covered is >= 0 and the longest overlap is at most the bases covered |
| `NumtOverlapAnalysis.MeanBetweenExtremes` | numt_overlap_analysis.py:53-55 | for a non-empty table the mean's denominator is positive and min <= mean <= max |
| `NumtOverlapAnalysis.AnalysisOfWellFormedRecords` | numt_overlap_analysis.py:21-54 | for well-formed records and `qs <= qe`: each length lies in `[0, query length]`, the minimum is >= 0, and the maximum is at most both the bases covered and the query length |
| `NumtOverlapAnalysis.AnalyzeNumtOverlaps` | numt_overlap_analysis.py:5-67 | the row-by-row analyser returns exactly `Table` of the records and `Summarize` of that table |
| `Aggregates.Sum` | numt_overlap_analysis.py:50-51 | definition of `.sum()` on a column: 0 for an empty column, otherwise the first value plus the sum of the rest |
| `Aggregates.SumAppend` | numt_overlap_analysis.py:50-51 | appending a value to a column adds that value to its sum |
| `Aggregates.MaxOf` | numt_overlap_analysis.py:53 | the maximum of a non-empty column bounds every value and is one of them |
| `Aggregates.MinOf` | numt_overlap_analysis.py:54 | the minimum of a non-empty column is below every value and is one of them |
| `Aggregates.SumDominatesElements` | numt_overlap_analysis.py:50 | a column of non-negative values has a non-negative sum that is at least each value |
| `Aggregates.MaxAtMostSum` | numt_overlap_analysis.py:50-53 | the maximum of a non-negative column is at most its sum |
| `Aggregates.SumBetweenBounds` | numt_overlap_analysis.py:50 | if every value lies in `[lo, hi]`, the sum lies in `[n × lo, n × hi]` |
| `Aggregates.MeanBetweenMinAndMax` | numt_overlap_analysis.py:53-55 | n × min <= sum <= n × max for a non-empty column |
| `NumtScenarios.ScenarioComplete` | numt_overlap_analysis.py:28-37 | `[10000, 12137]` against `[10761, 12137]` is Complete, length 1376, shown as 100.00 percent |
| `NumtScenarios.ScenarioInternal` | numt_overlap_analysis.py:28-43 | `[11000, 11500]` is Internal, length 500, and 36.34 percent after rounding |
| `NumtScenarios.ScenarioPartialRight` | numt_overlap_analysis.py:28-41 | `[12000, 13000]` is Partial (Right) with overlap `[12000, 12137]`, length 137 |
| `NumtScenarios.ScenarioTable` | numt_overlap_analysis.py:21-45 | `[5000, 9000]` is dropped; the table of the four records is A, B, C, enriched, in input order |
| `NumtScenarios.ScenarioSummary` | numt_overlap_analysis.py:48-54 | the summary of that table has count 3, bases covered 2013, max 1376 and min 137 |
| `NumtScenarios.ScenarioDoubleCounting` | numt_overlap_analysis.py:50-52 | two records that both contain the query give bases covered 2752, shown as 200.00 percent covered: the sum is not deduplicated |
| `NumtScenarios.ScenarioReversedRecord` | numt_overlap_analysis.py:21-30 | a reversed record `[8, 2]` against `[0, 10]` passes the mask and gets overlap length -6 |
| `NumtScenarios.ScenarioReversedQuery` | numt_overlap_analysis.py:21-32 | a reversed query (start 15, end 10) is not rejected: record `[5, 20]` passes the mask with length -5 and the finite percentage -500 / -5 |

## Left out

- Reading the spreadsheet (`pd.read_excel`) and writing the results (`to_excel`): library I/O. The records are an input sequence instead.
- `visualize_overlaps`: plotting, the colour per overlap type, the legend and the layout. It is rendering only.
- `main`: path resolution, creating the output directory, printing, saving the figure. It is I/O glue.
- Rounding to two decimals (`.round(2)`) of the overlap percentage, the percent covered and the mean. These are floating-point values. The model keeps the exact quotients as `Ratio` values. `NumtScenarios.ShowsAs` only checks, in the worked examples, that a quotient is within half a hundredth of its displayed value.
- pandas mechanics: boolean masks, `.apply` and `.copy()`. The model also does not carry the DataFrame index, which holds the input's own row labels because the mask does not reset it. The analyser never reads the index. Only the plot (its vertical slot `idx + 1`) and the printed table show it. Missing (NaN) cells, which the mask would drop, are not modelled either: the coordinates are integers.
- The model does not reject a degenerate query, because the source does not either. On an empty query (`query_end == query_start`) the source's percentages are infinite or not a number. On a reversed query (`query_end < query_start`) they are finite but meaningless, negative or bogus. The model follows the code here.
- The model carries only the four columns the analyser reads (`NumtS Code`, `Chr`, `Mt Start`, `Mt End`). The source's result table keeps every other column of the sheet unchanged, because the mask selects rows, not columns.
- On an empty result the source leaves the DataFrame without the derived columns. In the model an empty table is just the empty sequence.
