# Dengue case analysis: association measures, top-3 ranking and days-open statistics

This project models, in Dafny, the computational core of a Python/pandas analysis of
notified dengue cases (SINAN records):

- **Association between two categorical series** (`src/utils/statistic.py`):
  - `chi_square_test` builds the contingency table with margins, fills the frequency row,
    the expected-value table and the difference table, and sums the differences;
  - `crammer_V` and `contigency_coefficient` turn that statistic into Cramér's V and the
    contingency coefficient C.
  The table builder that `pd.crosstab(x, y, margins=True)` stands for is defined once
  (module `CrossTab`) and shared by all three. The three functions are modules
  `Association` (the arithmetic, over exact `real`s) and `CrossTab` (the counting).
- **Top-3 ranking of exam columns** (`top_3_counts_numpy`, module `TopCounts`): the column
  check, the dict of non-missing counts, the stable descending sort and the cut to three.
  The function exists twice, in `src/utils/statistic.py:111-138` and
  `src/hypothesis/hypothesis_5.py:121-148`; the two bodies are identical, so one model
  serves both.
- **Days a case stays open** (`analyze_case_days_open`, module `DaysOpen`): the checks on
  the two date columns, the cut-off and the period; the removal of duplicate index labels
  and duplicate column names (module `Frames`, which models the pandas DataFrame
  operations used); the day count; the removal of negative counts; the split at the
  cut-off; and the count, sum, average, minimum and maximum of the result.

Modelling choices:

- A pandas Series is a sequence of `Option<int>` cells, where `None` is NaN or NaT. A
  DataFrame is an index plus a sequence of named columns, with repeated names allowed.
  Dates are integer day numbers. The parsed cut-off is a day number, NaT (what `''`,
  `'NaT'` or `'nan'` parse to), or a string `pd.to_datetime` rejects.
- Category labels are integers, as `pd.qcut(..., labels=False)` produces. The table's
  row and column labels are sorted, as pandas sorts them.
- Errors are values. `TypeError` and `ValueError` become `Failure(...)`, and a NaN result
  becomes `Failure(NotANumber)`.
- `chi_square_test` mutates numpy/pandas tables step by step. It is modelled with `array`
  and `array2` and loops. Each loop is proved against a specification function, and the
  statistical facts are proved about those functions.
- `crammer_V` and `contigency_coefficient` are closed-form expressions. They are modelled
  by functions of the table, and the methods tie their results to those functions. They
  return V² and C² (see "Left out").
- The counting loop of `top_3_counts_numpy` is a method with an invariant. Its result is
  tied to the function `Top3(CountsOf(...))`, and lemmas prove what that function
  promises.
- `analyze_case_days_open` is a chain of rebindings of `df` with no loop. It is modelled
  as a pipeline of functions over the frame.

## Model

| member | source | states |
|---|---|---|
| CrossTab.Build | src/utils/statistic.py:23 | the crosstab's labels are the sorted distinct values that occur in paired, non-missing positions; every inner cell counts its label pair; each 'All' cell is the sum of its row or column; the corner is the number of paired observations; the table is usable exactly when that number is positive |
| CrossTab.BuildMargins | src/utils/statistic.py:23 | in the built table each 'All' cell is the sum of its row or column and the corner is the sum of either margin |
| CrossTab.BuildWellFormed | src/utils/statistic.py:23 | the built table is usable (a label on each side, every row and column total positive) exactly when some observation pairs up |
| CrossTab.SortedLabels | src/utils/statistic.py:23 | row/column labels come out strictly increasing and hold exactly the given values |
| Association.FillFrequencyRow | src/utils/statistic.py:26-29 | the loop leaves every cell j of `frequency_row` equal to the 'All'-row count of column j over the grand total |
| Association.FillExpectedValues | src/utils/statistic.py:32-40 | the nested loops leave every cell equal to its expected value: inner cells row total times column frequency, the 'All' column the sum of the row's inner expected values |
| Association.FillExpectedRow | src/utils/statistic.py:36-40 | one pass of the inner loop leaves every cell of that row equal to its expected value, the 'All' cell the sum of the row's inner values, and every other row untouched |
| Association.FillDifferenceTable | src/utils/statistic.py:43-45 | every cell, margins included, holds (observed - expected)^2 / expected |
| Association.SumDifferenceTable | src/utils/statistic.py:48-50 | summing the difference table row by row yields Pearson's chi-square over the inner cells |
| Association.ChiSquareTest | src/utils/statistic.py:6-52 | TypeError unless both arguments are Series; NaN when no observation pairs up; otherwise exactly Pearson's statistic of the crosstab |
| Association.ExpectedInner | src/utils/statistic.py:35-40 | an inner expected cell equals row total times column total over n |
| Association.ExpectedAllRow | src/utils/statistic.py:28-29 | the expected 'All' row repeats the observed column totals |
| Association.ExpectedAllColumn | src/utils/statistic.py:37-38 | the expected 'All' column repeats the observed row totals |
| Association.ExpectedRowSum | src/utils/statistic.py:35-40 | a row's inner expected values add up to the row total (the frequencies sum to one) |
| Association.ExpectedPositive | src/utils/statistic.py:40 | every expected cell is positive, so no division in the difference table is by zero |
| Association.TermBounds | src/utils/statistic.py:45 | one difference term is non-negative and zero exactly when observed equals expected |
| Association.DeviationInner | src/utils/statistic.py:44-45 | an inner difference cell is the textbook term with expectation row total times column total over n |
| Association.DeviationMargin | src/utils/statistic.py:44-45 | every margin cell of the difference table is zero |
| Association.MarginsContributeZero | src/utils/statistic.py:44-50 | the value the code computes over the whole table equals the textbook sum over inner cells |
| Association.ChiSquareBounds | src/utils/statistic.py:48-50 | chi-square is non-negative, and zero exactly when every inner count equals its independence expectation |
| Association.TermRowBounds | src/utils/statistic.py:49-50 | one row's contribution is non-negative, and zero exactly when every count in that row equals its independence expectation |
| Association.SingleCategoryChiSquare | src/utils/statistic.py:44-50 | with one category on either side chi-square is zero |
| Association.CramerUndefined | src/utils/statistic.py:75-79 | with one category on either side the denominator is zero and so is chi-square: the result is NaN (0/0), unguarded |
| Association.TermSplit | src/utils/statistic.py:44-45 | an inner difference term is n * O^2 / (row total * column total), less twice the count, plus the expectation |
| Association.ChiSquareSplit | src/utils/statistic.py:44-50 | chi-square equals the sum over inner cells of n * O^2 / (row total * column total), less n |
| Association.SquareRatioRowBound | src/utils/statistic.py:44-50 | the n * O^2 / (row total * column total) values of one row add up to at most n |
| Association.SquareRatioColumnBound | src/utils/statistic.py:44-50 | the n * O^2 / (row total * column total) values of one column add up to at most n |
| Association.ChiSquareAtMost | src/utils/statistic.py:44-50 | chi^2 + n <= r * n and chi^2 + n <= s * n, that is chi^2 <= n * (min(r, s) - 1) |
| Association.CramerAtMostOne | src/utils/statistic.py:75-79 | with at least two categories on both sides the quotient is defined and V^2 <= 1 |
| Association.CramerDefined | src/utils/statistic.py:75-79 | with at least two categories on both sides V^2 = chi^2 / (n * min(r - 1, s - 1)) and 0 <= V^2 <= 1, so V lies in [0, 1] |
| Association.CramerVSquared | src/utils/statistic.py:55-79 | TypeError unless both are Series; NaN without observations; otherwise the closed form of V^2 over the same crosstab |
| Association.ContingencyQuotientBounds | src/utils/statistic.py:103-107 | with observations, C^2 = chi^2 / (chi^2 + n) is defined and 0 <= C^2 < 1 |
| Association.ContingencyCoefficientSquared | src/utils/statistic.py:82-107 | TypeError unless both are Series; NaN without observations; otherwise the closed form of C^2 |
| Association.WorkedExample | test/utils/statistic.py:66-68 | on a 4 x 4 table with n = 100 and chi^2 = 7.2: V^2 = 0.024 and C^2 = 7.2 / 107.2, so V and C lie within the test's tolerance of 0.01 around 0.1549 and 0.2592 (compared through squares) |
| TopCounts.Top3Counts | src/utils/statistic.py:111-138 | TypeError exactly when a requested column is absent, naming the first absent one and raised before any counting; otherwise the first three of the descending sort of the counts dict |
| TopCounts.NonMissing | src/utils/statistic.py:133 | the number of non-missing cells never exceeds the number of cells |
| TopCounts.Put | src/utils/statistic.py:133 | dict assignment: a present key keeps its place and takes the new value, a new key goes last; keys stay unique |
| TopCounts.CountsOfEntries | src/utils/statistic.py:128-133 | the dict holds each requested name once, in order of first request, paired with its count of non-missing cells |
| TopCounts.CountColumnBound | src/utils/statistic.py:132-133 | a count never exceeds rows times the number of columns carrying that name |
| TopCounts.CountAtMostRows | src/utils/statistic.py:132-133 | with unique column names, a count never exceeds the number of rows |
| TopCounts.SortPermutation | src/utils/statistic.py:136 | the sort is a permutation of the dict's items |
| TopCounts.SortDescending | src/utils/statistic.py:136 | the sorted items have non-increasing counts |
| TopCounts.SortStable | src/utils/statistic.py:136 | items with equal counts keep their dict order |
| TopCounts.Top3Ranking | src/utils/statistic.py:136 | the result has min(3, number of items) items, in non-increasing count order, all taken from the dict |
| TopCounts.Top3KeepsLargest | src/utils/statistic.py:136 | no dropped item has a larger count than a kept one |
| TopCounts.AllTiedKeepOrder | src/utils/statistic.py:136 | when all counts tie, the first three requested columns are returned in request order |
| TopCounts.Top3Entries | src/hypothesis/hypothesis_5.py:121-148 | the result holds min(3, distinct requested names) entries, no name twice, each a requested name with its own count, largest first |
| Frames.SelectRows | src/hypothesis/hypothesis_5.py:49 | boolean row indexing keeps the index and every column cut by the same mask, names unchanged |
| Frames.SelectRowsAt | src/hypothesis/hypothesis_5.py:49 | row k of the selection is the k-th kept row of the frame, in the index and in every column |
| Frames.DropDuplicateRowsKeepsFirst | src/hypothesis/hypothesis_5.py:30-31 | after dropping duplicate labels the index is the first-occurrence selection, has no repeats, loses no label, and every column is cut alike |
| Frames.DropDuplicateRowsIdempotent | src/hypothesis/hypothesis_5.py:30-31 | dropping duplicate index labels twice equals doing it once |
| Frames.DropDuplicateColumnsKeepsFirst | src/hypothesis/hypothesis_5.py:34 | the surviving names are the first occurrences, unique, none lost, and each name reads the same cells as before |
| Frames.KeptColumn | src/hypothesis/hypothesis_5.py:34 | the column a name selects after deduplication is the one it selected before |
| Frames.DropDuplicateColumnsIdempotent | src/hypothesis/hypothesis_5.py:34 | dropping duplicate column names twice equals doing it once |
| Frames.SetColumnCells | src/hypothesis/hypothesis_5.py:46 | assigning a column makes that name read the new cells and leaves every other name's cells unchanged |
| DaysOpen.AnalyzeCaseDaysOpen | src/hypothesis/hypothesis_5.py:5-79 | missing DT_ENCERRA, then missing DT_NOTIFIC, then an unparseable cut-off, then an unknown period are reported in that order; success exactly when both columns exist, the cut-off parses (a NaT cut-off included) and the period is 'before' or 'after' |
| DaysOpen.NaTCutoff | src/hypothesis/hypothesis_5.py:40-57 | a cut-off that parses to NaT raises nothing; every comparison with it is false, so either period is empty and the result is all zeros |
| DaysOpen.NaTPeriodEmpty | src/hypothesis/hypothesis_5.py:52-55 | with a NaT cut-off the period filter keeps no row |
| DaysOpen.CleanedNames | src/hypothesis/hypothesis_5.py:29-37 | the two required date columns survive deduplication and the index reset |
| DaysOpen.WithDaysCells | src/hypothesis/hypothesis_5.py:46 | the new column holds closing minus notification day per row (missing when either date is), the date columns unchanged |
| DaysOpen.RetainedRows | src/hypothesis/hypothesis_5.py:46-49 | every retained row comes from a cleaned row with both dates present, its day count is closing minus notification and it is non-negative |
| DaysOpen.RetainedExactly | src/hypothesis/hypothesis_5.py:46-49 | a cleaned row is retained exactly when both dates are present and closing is not before notification |
| DaysOpen.RetainedDaysNonNegative | src/hypothesis/hypothesis_5.py:49 | every retained day count is present and at least zero |
| DaysOpen.PeriodExactly | src/hypothesis/hypothesis_5.py:52-57 | a cleaned row is in the 'before' result exactly when retained with notification <= cut-off, and in 'after' exactly when retained with notification > cut-off |
| DaysOpen.PeriodRows | src/hypothesis/hypothesis_5.py:52-55 | on rows whose notification dates are known, the period filter keeps exactly the rows on the requested side of the cut-off |
| DaysOpen.PeriodsPartition | src/hypothesis/hypothesis_5.py:52-55 | 'before' and 'after' split the retained rows: their sizes, their day-count multisets and their sums add up to the retained ones |
| DaysOpen.PeriodSplit | src/hypothesis/hypothesis_5.py:52-55 | on rows with known notification dates the two filters take complementary rows, so sizes, multisets and sums add up |
| DaysOpen.PeriodDaysNonNegative | src/hypothesis/hypothesis_5.py:49-57 | every day count in either period is at least zero |
| DaysOpen.BeforeAfterTotals | src/hypothesis/hypothesis_5.py:52-63 | for one frame and cut-off, the 'before' and 'after' record counts and sums of days add up to those of all retained rows |
| DaysOpen.MinOf | src/hypothesis/hypothesis_5.py:72 | the minimum is an element and bounds every element from below |
| DaysOpen.MaxOf | src/hypothesis/hypothesis_5.py:73 | the maximum is an element and bounds every element from above |
| DaysOpen.SumBounds | src/hypothesis/hypothesis_5.py:63 | a sum lies between count times the lower bound and count times the upper bound |
| DaysOpen.SummarizeBounds | src/hypothesis/hypothesis_5.py:60-76 | count and sum are those of the period; an empty period gives all zeros; otherwise min and max occur, bound every count, and min <= average <= max |
| DaysOpen.AnalyzeCaseDaysOpenBounds | src/hypothesis/hypothesis_5.py:60-76 | a successful result is all zeros when no case falls in the period, and otherwise has 0 <= min <= average <= max and a non-negative sum |

## Left out

- `src/utils/reading.py` (chunked CSV reading, merging, thread pool), `src/utils/timing.py` (clock), `src/config/__init__.py` (paths) and `src/utils/random.py` (random data) are I/O, clocks, configuration and randomness; they are not part of this model.
- `hypothesis5` and the module-level `pd.read_csv` in `src/hypothesis/hypothesis_5.py` only select columns for plotting and read a file; they are not part of this model.
- Association.CramerVSquared: returns V^2 rather than V, because `sqrt` is floating point; V is the non-negative square root of the modelled value.
- Association.ContingencyCoefficientSquared: returns C^2 rather than C, for the same reason.
- Association.ChiSquareTest: arithmetic is exact over `real`; float64 rounding is not modelled.
- Association.ChiSquareTest: with no paired observation the model answers NaN; pandas may instead raise while building an empty crosstab.
- Association.ChiSquareTest: series are paired by position (their default `RangeIndex`); alignment of other index labels is not modelled.
- Category labels are integers; string categories, which pandas would also sort, are not modelled.
- DaysOpen.AnalyzeCaseDaysOpen: the `std_dev`, `median`, `q1` and `q3` entries (pandas float statistics with interpolation) are not modelled; the `min`, `max`, `total_records`, `sum_of_days` and `average_days` entries are.
- DaysOpen.AnalyzeCaseDaysOpen: date strings are not parsed; the cut-off arrives as a day number, NaT, or `Unparseable` for a string `pd.to_datetime` rejects, and date cells as day numbers or `None` for NaT; a date column `pd.to_datetime` cannot parse at all (an exception at line 46) is not modelled.
- DaysOpen.AnalyzeCaseDaysOpen: `sum_of_days` and `average_days` are exact; NaN propagation and float division are not modelled.
- TopCounts.Top3Counts: a `columns` argument given as a string is the list of its characters in the source; the model takes the list form only.
- TopCounts.Top3Counts: the `TypeError` Python raises when `columns` or the DataFrame argument is not iterable at all (an int, say) is not modelled; the arguments are typed as a list of names and a frame.
- DaysOpen.AnalyzeCaseDaysOpen: the default `period='before'` is not modelled; the period is always passed explicitly.
- The seeded `qcut` fixtures of the tests are not modelled; their published numbers appear only as the worked example.
