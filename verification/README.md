# hvscan data reduction in Dafny

A model of the data-reduction core of `hvscan`, the script that reduces a
high-voltage (HV) scan of signal photomultipliers. It reads a table of
counts: one row per reading, an `HV` column, an `led` column with the number
of LED triggers, and one column per channel, where signal channels have
names starting with `s`. For every HV setting and signal channel it computes
a background-subtracted rate per LED trigger with an error bar. Then it
normalises each channel's rates to their peak.

The model is written in exact arithmetic (`real`) and has one module per
stage:

- `Outcome` holds the error values: `Result`, `Option` and `Fault`. Every
  `Fault` but one is an exception Python raises. The exception is
  `DivisionByZero`: numpy answers a zero divisor with infinity or NaN, and
  the model reports it as a failure instead.
- `Numerals` models Python 2's `int()` on a `str`. It skips whitespace
  around the literal and also between the sign and the digits, so `"- 1"`
  reads as -1. `float()` accepts the same literals except those with
  whitespace after the sign.
- `Ingest` models `process`. The first row supplies the header and signal
  header lists. Every later cell is coerced to a number and appended to
  the column of its header, matched by position.
- `Winnow` models `winnow`, which drops the pairs whose value is negative.
- `Stats` models `meanAndVar` as the mean and the population variance. It
  also defines `Max`.
- `Rates` models `calcRate`:
  1. The distinct HV values are taken in ascending order.
  2. Each HV value's rows are split into background rows (LED count 0) and
     signal rows (non-zero LED count). Rows with a negative count are
     dropped.
  3. HV values without signal rows are skipped.
  4. Each remaining HV value gives one point: a rate, a zero x-error and the
     rate's error bar.
- `Plots` holds the series that `plotRaw` and `plotRate` pass to the
  plotting layer:
  - the winnowed raw counts;
  - the rate series of one channel;
  - the same series divided by its peak rate.

An error bar is kept as `ErrorBar(scale, variance)`, meaning
`scale * sqrt(variance)`. The model never takes a square root. It proves
instead that the variance under the root is never negative.

## Model

| member | source | states |
|---|---|---|
| Numerals.ParseShowInt | hvscan.py:47 | every integer's decimal form reads back as that integer |
| Numerals.AcceptsPadding | hvscan.py:47 | `" -1\t"` reads as -1: surrounding whitespace is stripped |
| Numerals.AcceptsSign | hvscan.py:47 | `"+7"` reads as 7 |
| Numerals.PaddingIgnored | hvscan.py:47 | whitespace around any string changes neither what `int()` reads from it nor whether `float()` accepts it |
| Numerals.SpaceAfterSign | hvscan.py:47 | a sign, any whitespace and digits read as the signed value of the digits |
| Numerals.RejectsBlank | hvscan.py:47 | a cell holding only a space is rejected by `int()` |
| Numerals.RejectsNonIntegers | hvscan.py:47 | `"1.5"` and `"abc"` are rejected by `int()` |
| Ingest.Coerce | hvscan.py:45-50 | a failed cell is an `InvalidLiteral` error naming that cell |
| Ingest.CoerceAccepts | hvscan.py:45-50 | a cell is accepted exactly when it is blank, or `int()` reads it as -1, or both `int()` and `float()` read it |
| Ingest.CoerceIsIntValue | hvscan.py:47-50 | a non-blank accepted cell gives exactly its integer value, so -1 and the float fallback agree |
| Ingest.CoerceShowInt | hvscan.py:47-50 | the decimal form of any integer is stored as that integer |
| Ingest.BlankAndMinusOneAgree | hvscan.py:45-48 | a blank cell and the cell `-1` both give the sentinel -1 |
| Ingest.FractionIsFatal | hvscan.py:47-50 | `"1.5"` is an error; `int()` runs first, so `float()` is never reached |
| Ingest.SpaceCellIsFatal | hvscan.py:45-50 | a cell of one space is not blank, and `int()` rejects it |
| Ingest.SignSpaceCells | hvscan.py:45-50 | `"- 1"` passes `int()` as -1 and is stored as the sentinel; `"+ 7"` passes `int()` but fails at `float()` |
| Ingest.CoerceIsWhole | hvscan.py:45-50 | every accepted cell holds a whole number |
| Ingest.CoerceCells | hvscan.py:43-50 | a row's cells convert when every cell does, element by element; otherwise the fault is that of the first cell that fails |
| Ingest.AllValues | hvscan.py:43-50 | a list of conversions gives all the values when every one succeeds; otherwise it gives the fault of the first failure, with every earlier conversion successful |
| Ingest.Headers | hvscan.py:37-39 | the headers are the first-row cells with the blank ones removed: in order, each non-blank name as often as in the first row, and one fewer header per blank cell |
| Ingest.SignalHeaders | hvscan.py:37-40 | the signal headers are the first-row cells starting with `s`: in order, and each such name as often as in the first row |
| Ingest.HeadersAppend | hvscan.py:37-39 | header extraction works cell by cell: a concatenation of rows gives the concatenated headers |
| Ingest.SignalHeadersAppend | hvscan.py:37-40 | signal header extraction works cell by cell in the same way |
| Ingest.SignalHeadersAreSubsequence | hvscan.py:38-40 | the signal headers are the headers starting with `s`, in header order |
| Ingest.PickedCount | hvscan.py:43-51 | a header listed n times among the matched positions receives n values from one row |
| Ingest.PickedDistinct | hvscan.py:43-51 | with distinct headers, header `i` receives exactly the value of cell `i` |
| Ingest.AppendValues | hvscan.py:51 | appending a row's values keeps the set of columns and extends each column by the values matched to it |
| Ingest.IngestRow | hvscan.py:43-51 | a row is accepted when every cell under a header converts. Each column grows by one value per header position matched, the old values stay a prefix, and a column whose header is not matched is unchanged |
| Ingest.IngestRowDistinct | hvscan.py:43-51 | with distinct headers, each header below the row length gets its cell's value appended; each header past the row's end gets nothing |
| Ingest.ExtraCellsIgnored | hvscan.py:44 | cells beyond the number of headers have no effect on the result |
| Ingest.IngestRows | hvscan.py:34-51 | the rows are accepted exactly when every row parses. Each column then ends with, in row order, the values each row sends to it, and grows by one value per matched header position |
| Ingest.IngestRowsFullRows | hvscan.py:43-51 | with distinct headers and no short row, every column grows by exactly one value per row |
| Ingest.Process | hvscan.py:34-51 | an empty file gives an empty table. Otherwise the file is accepted exactly when every data row parses. The header and signal header lists are those of the first row, the columns are exactly the headers, and each column holds, row by row, the values matched to its header |
| Ingest.ProcessFullRows | hvscan.py:34-51 | with distinct headers and no short row, every column has one value per data row |
| Ingest.ReachedFullRows | hvscan.py:43-51 | with distinct headers, a header is matched once in every row that is at least as long as the header row |
| Ingest.OneCellTable | hvscan.py:34-51 | when one data row is read up to its first cell only, the first column gets that cell's value and every other column stays empty |
| Ingest.BlankHeaderShiftsData | hvscan.py:37-51 | with header row `["", "HV"]`, the first data cell lands in `HV` and the real `HV` cell is dropped |
| Ingest.HvSignalHeaders | hvscan.py:37-40 | headers `HV, s1` give signal headers `s1` |
| Ingest.ShortRowLeavesColumnsUneven | hvscan.py:43-51 | a short row leaves the later columns behind, so columns can differ in length |
| Winnow.Zip | hvscan.py:63 | `zip` pairs equal positions up to the shorter length |
| Winnow.KeepValid | hvscan.py:64 | the reference filter keeps exactly the pairs with a non-negative value, as an ordered subsequence |
| Winnow.Winnow | hvscan.py:58-67 | the two outputs have equal length and every kept value is non-negative |
| Winnow.WinnowIsFilteredZip | hvscan.py:62-67 | `winnow` equals zipping followed by the reference filter |
| Winnow.WinnowPairs | hvscan.py:62-67 | a pair is in the output exactly when it is an input pair with a non-negative value; the output keeps input order |
| Winnow.WinnowCount | hvscan.py:62-67 | the output length is the number of non-negative values among the zipped positions |
| Winnow.WinnowIdempotent | hvscan.py:62-67 | winnowing the output again changes nothing |
| Winnow.WinnowAppend | hvscan.py:62-67 | winnowing a concatenation of equally long pieces concatenates the winnowed pieces |
| Stats.Max | hvscan.py:152 | `max` returns an element that bounds every element |
| Stats.MeanAndVar | hvscan.py:122-128 | the variance returned is never negative |
| Stats.MeanWithin | hvscan.py:126 | the mean of values bounded by `lo` and `hi` is bounded by them too |
| Stats.MeanAndVarBounds | hvscan.py:122-128 | the mean lies between the sample's minimum and maximum |
| Stats.VarianceZeroIffConstant | hvscan.py:122-128 | the variance is zero exactly when all the values are equal; a constant sample has that value as its mean |
| Stats.ZeroDeviations | hvscan.py:127 | the squared deviations from `m` sum to zero exactly when every value is `m` |
| Rates.Samples | hvscan.py:95-98 | for indexable input there is one sample per `Xin` row, and every row with a non-negative count has its own `LEDin[i]` as LED count |
| Rates.Insert | hvscan.py:88-90 | inserting into a strictly ascending list keeps it strictly ascending and adds exactly the new value |
| Rates.SortedKeys | hvscan.py:87-90 | the de-duplicated, sorted `X` is strictly ascending and holds exactly the values of `Xin` |
| Rates.SortedKeysUnique | hvscan.py:87-90 | any strictly ascending list with the same members as `Xin` is that list |
| Rates.Collect | hvscan.py:92-102 | a group's signal counts and LED counts have the same length |
| Rates.CollectAppend | hvscan.py:95-102 | grouping goes row by row: the group of a concatenation is the concatenation of the groups |
| Rates.BackgroundMembers | hvscan.py:95-99 | the background holds exactly the counts of the rows with this HV value, a non-negative count and LED count 0, each as often as such rows carry it |
| Rates.SignalMembers | hvscan.py:95-102 | the signal and LED lists hold exactly the counts and LED counts of the rows with this HV value, a non-negative count and a non-zero LED count; each (count, LED) pair occurs as often as such rows carry it |
| Rates.CollectBackgroundCounts | hvscan.py:95-99 | each background count occurs as often as rows of this HV value are filed as background with that count |
| Rates.CollectSignalCounts | hvscan.py:95-102 | each (count, LED) pair of the signal occurs as often as signal rows of this HV value carry it |
| Rates.CollectHasSignal | hvscan.py:103 | a group has signal counts exactly when some row with its HV value is a signal row |
| Rates.RateOf | hvscan.py:107 | the rate `r` solves `r * aled == acts - abkg` |
| Rates.RateVariance | hvscan.py:108 | the variance `v` solves `v * aled^2 == vcts + vbkg + vled * r^2`, and it is non-negative when the three variances are |
| Rates.GroupRate | hvscan.py:103-112 | a group's rate variance is never negative, so the square root at line 112 is defined |
| Rates.GroupRateUnitLed | hvscan.py:104-108 | with every LED count 1, the rate is `mean(cts) - mean(bkg)` and its variance is `var(cts) + var(bkg)` |
| Rates.Emit | hvscan.py:115-121 | the four output lists have equal length, every x-error is 0 and every error bar is the root of a non-negative variance |
| Rates.EmitKeys | hvscan.py:103-121 | the output HV values are the keys that have signal rows, in key order |
| Rates.EmitRates | hvscan.py:103-121 | each output point is the rate and the rate variance of its HV value's group |
| Rates.AscendingSubsequence | hvscan.py:116 | a subsequence of a strictly ascending list is strictly ascending |
| Rates.CalcRate | hvscan.py:85-121 | the result is an error exactly when the inputs are too short to index, and then it is `IndexOutOfRange`. Otherwise the four lists have equal length, X is strictly ascending and drawn from `Xin`, every x-error is 0 and every variance is non-negative |
| Rates.CalcRateKeys | hvscan.py:88-103 | an HV value is in the output exactly when some row with that value has a non-negative count and a non-zero LED count |
| Rates.CalcRateValues | hvscan.py:91-121 | each output point is the rate and the rate variance of the rows of its HV value |
| Rates.ExampleScan | hvscan.py:85-121 | HV `[100,100,100,200,200]`, counts `[2,10,12,3,20]` and LED counts `[0,1,1,0,1]` give X `[100,200]`, Y `[9,17]` and variances `[1,0]` |
| Plots.Abs | hvscan.py:140 | each value is replaced by its absolute value |
| Plots.Divide | hvscan.py:154 | each element times the divisor gives back its input |
| Plots.DivideBars | hvscan.py:153 | each error bar's scale times the divisor gives back its input scale, and its variance is unchanged |
| Plots.Normalise | hvscan.py:152-154 | no rates give `EmptySequence`, and a peak of 0 gives `DivisionByZero`. Otherwise every rate and error bar, multiplied by the peak, gives back its input, and the lengths are kept |
| Plots.ScaledPeak | hvscan.py:152-154 | dividing a list by its positive maximum puts the new maximum at exactly 1 |
| Plots.ScaledOrder | hvscan.py:152-154 | dividing by a positive factor keeps the order of every pair of elements, in both directions |
| Plots.NormalisedPeak | hvscan.py:152-154 | with a positive peak, the normalised rates peak at exactly 1 |
| Plots.NormalisePreservesOrder | hvscan.py:152-154 | with a positive peak, the normalised rates are in the same order as the rates |
| Plots.NormaliseIdempotent | hvscan.py:152-154 | with a positive peak, normalising the normalised series changes nothing |
| Plots.NormaliseExample | hvscan.py:152-154 | rates `[4,8,2]` normalise to `[0.5,1,0.25]` |
| Plots.RawSeries | hvscan.py:73-78 | the raw series exists exactly when both columns exist. Its pairs are exactly the (absolute HV, count) pairs with a non-negative count, in row order, and all its values are non-negative |
| Plots.WinnowKeepsNonNegativeX | hvscan.py:75-78 | `winnow` keeps only input x's, so the absolute HV values it keeps are non-negative |
| Plots.RateSeriesKeys | hvscan.py:140-143 | the rate series exists exactly when the columns can be indexed, and its HV values are then, in ascending order, the absolute HV values of the rows with a non-negative count and a non-zero LED count |
| Plots.NormalisedRateSeries | hvscan.py:140-154 | the normalised series exists exactly when the rate series exists and its peak rate is defined and non-zero. It keeps the HV values and x-errors, and each rate times the peak gives back the rate |

## Left out

- Opening the file and `csv.reader` (hvscan.py:31-34): rows come in already split into cells.
- Every ROOT and `graphUtils` call: making, colouring and drawing graphs, multigraphs, `plotInfo` histograms and figure directories. These only display data.
- `print` diagnostics, the hard-coded paths, and the NaN check and message at hvscan.py:109-110.
- The loops over `colhdrs` in `plotRaw` and `plotRate`. `Plots.RawSeries` and `Plots.RateSeries` model one channel each.
- Floating point. Values are exact reals, so rounding, NaN and infinity do not arise, and `math.sqrt` is not taken.
- Rates.CalcRate: requires `GroupsDefined`. Every HV value with signal rows must have a non-empty background and a non-zero mean LED count. Outside this, `numpy.ma` returns masked or infinite values instead of raising, and the model has no counterpart for those values.
- Plots.Normalise: a zero peak is an error. In the source the rates are numpy floats, whose division by zero gives infinity or NaN with a warning rather than an exception.
- A short row leaves later columns shorter, so columns can differ in length. The model keeps this (`Ingest.ShortRowLeavesColumnsUneven`). An input too short to index is `IndexOutOfRange` in `Rates.CalcRate`.
