# Japanese population explorer — a Dafny model of its data pipeline

The application is a small Streamlit page over e-Stat population data. It
reads a wide-format table: one `age` column of age-band labels, then one
numeric column per year and sex, named `<year>_Male` and `<year>_Female`.
From the table it derives:

- the list of years, taken from the column headers;
- the bounds of the year slider;
- the population pyramid of the selected year, where male counts are
  negated so their bars point left;
- the long-term trend lists (years, total, male, female), one entry per
  year;
- the line traces the series multiselect switches on.

The model works on an already-parsed table (`PopulationTable.Table`). Each
step of the pipeline is a pure function with a `Result` error path. The
one loop, the trend accumulation, is a method proved equal to a functional
fold. Module by module:

- `Results`: `Option`, `Result` and the three failures. The failures are a
  missing column (pandas `KeyError`), a prefix that is not an integer
  (`astype(int)` fails), and an empty year list (`min([])` fails).
- `Text`: splitting a header at its first `_`, reading a decimal numeral,
  and writing an integer as `str`/f-string does. Reading and writing are
  proved inverse on canonical numerals.
- `Sequences`: `sum`, `* -1`, `unique()` and `sorted`, written out over
  sequences, with their algebraic laws.
- `PopulationTable`: the table, its headers (`df.columns`) and column
  lookup (`df[name]`).
- `YearDiscovery`: the year list, as the script computes it and as
  corrected, and the slider bounds.
- `Pyramid`: the pyramid slice and its bars. Also shows that a year the
  slider offers but the table lacks makes the pyramid fail.
- `TrendLists`: the four parallel lists and the loop that builds them,
  generic in the per-year body.
- `PopulationTrend`: the loop body over the table, and series selection.
- `Scenario`: a worked two-year, three-band table, taken through every step
  by lemmas.
  Years 2000 and 2010 are discovered, the trend is `[93, 93]`, and the gap
  year 2005 is selectable but its pyramid fails.

Three behaviours of the code shape the error paths:

- Year discovery accepts a header row with no year columns and yields an
  empty list. The failure comes later, when `min(year)` is evaluated to
  build the slider. `YearDiscovery.SliderBounds` reports it as `NoYears`.
- The pyramid is not guarded by membership in the year list. `df[male_col]`
  is indexed directly, so a year without columns fails with a missing
  column. `Pyramid.PyramidSlice` does the same.
- The pyramid slice keeps the counts as they are. The male counts are
  negated only in the bar trace (app.py:59), which `Pyramid.PyramidBars`
  models.

## Model

| member | source | states |
|---|---|---|
| Text.Prefix | app.py:22 | The header's first `split('_')` piece: a prefix of the header without `_`, followed in the header by `_` unless it is the whole header |
| Text.ParseDecimal | app.py:22 | A prefix converts exactly when it is a non-empty run of decimal digits, to a value that is never negative; `Text.ShowParse`, `Text.ParseShowNat` and `Text.LeadingZero` pin the value |
| Text.LeadingZero | app.py:22 | A zero-padded numeral converts to the same value as the unpadded one, so `02000` reads as 2000, as Python's `int` reads it |
| Text.PrefixOfTagged | app.py:22 | A header `<p>_<tag>` whose `p` has no `_` has prefix exactly `p` |
| Text.ShowInt | app.py:52-53 | The f-string numeral of a year has no `_`, and is a canonical numeral exactly when the year is not negative |
| Text.ParseShowNat | app.py:22 | Reading back the numeral written for a natural gives that natural |
| Text.ShowParse | app.py:22 | Writing the value of a canonical numeral reproduces that numeral, so writing and reading are inverse on canonical numerals |
| Text.ParseShowInt | app.py:22 | The numeral of a year reads back as that year exactly when the year is not negative |
| Text.ShowIntInjective | app.py:52-53 | Two years give the same column-name numeral only when they are equal |
| Sequences.Sum | app.py:75-76 | With non-negative counts a column's sum is non-negative and no smaller than any one cell |
| Sequences.Negate | app.py:59 | `* -1` keeps the length and makes each element the opposite of the count at that position |
| Sequences.NegateMirrors | app.py:59 | Negating twice restores the counts, and negation flips the sign of the total |
| Sequences.SumAppend | app.py:75-76 | The sum of a concatenation is the sum of the sums |
| Sequences.SumPointwise | app.py:80 | Summing row-by-row male+female equals male total plus female total |
| Sequences.Unique | app.py:22 | `unique()` keeps exactly the values present, without repetition, never lengthening the list |
| Sequences.Insert | app.py:22 | Inserting into an ascending list keeps it ascending and adds exactly one occurrence of the value |
| Sequences.Sort | app.py:22 | `sorted` yields an ascending permutation of its input |
| Sequences.SortDistinctIsStrict | app.py:22 | Sorting a list without repetitions yields a strictly ascending list |
| Sequences.StrictSameMembers | app.py:22 | Two strictly ascending lists with the same members are equal |
| Sequences.StrictPair | app.py:22 | The only strictly ascending list holding exactly `a < b` is `[a, b]` |
| PopulationTable.Headers | app.py:20 | `df.columns` is the label column's name followed by the numeric columns' names in table order |
| PopulationTable.HeaderPosition | app.py:20 | Every numeric column's name appears among `df.columns[1:]` |
| PopulationTable.Lookup | app.py:54-55 | `df[name]` succeeds exactly when the column exists and returns that column's cells unchanged; otherwise it fails naming the column |
| PopulationTable.AgeLabels | app.py:56 | `df['age']` succeeds exactly when the label column is called `age`, and then gives the label column's contents; otherwise it fails naming `age` |
| YearDiscovery.DataHeaders | app.py:20 | `df.columns[1:]`: every header after the first, in order |
| YearDiscovery.Prefixes | app.py:22 | The split-at-`_` prefix of every header, position by position |
| YearDiscovery.ParseAll | app.py:22 | `astype(int)` succeeds exactly when every string is a numeral, element by element, else fails naming a bad string |
| YearDiscovery.DataPrefixes | app.py:20-22 | The prefixes considered are exactly those of headers 1 onwards, so the label column never contributes a year |
| YearDiscovery.UniqueParses | app.py:22 | Deduplicating the prefix strings neither adds nor removes a spelled year or a conversion failure |
| YearDiscovery.DiscoverYearsAsWritten | app.py:20-22 | The line as written succeeds exactly when every data prefix converts, else reports a bad prefix; the result is ascending, holds exactly the years the data headers name, and holds each year once per distinct prefix spelling of it |
| YearDiscovery.DiscoverYears | app.py:20-22 | The corrected year list: same success condition and members, and strictly ascending, each year once |
| YearDiscovery.ParseCounts | app.py:22 | Converting strings without repetitions gives each value once per string that spells it |
| YearDiscovery.AsWrittenAgreesOnCanonical | app.py:22 | When every prefix is canonical, the line as written and the corrected list coincide |
| YearDiscovery.AsWrittenRepeatsYear | app.py:22 | Headers `2000_Male`, `02000_Female` give `[2000, 2000]` as written (not strictly ascending) and `[2000]` corrected |
| YearDiscovery.Min | app.py:29 | `min` of a non-empty list is an element no larger than any other |
| YearDiscovery.Max | app.py:30 | `max` of a non-empty list is an element no smaller than any other |
| YearDiscovery.SliderBounds | app.py:27-32 | The slider exists exactly when some year was found, its bounds are found years bracketing every year; an empty list fails with `NoYears` |
| YearDiscovery.SliderSpansYears | app.py:27-32 | On an ascending year list the slider runs from the first to the last year and offers every listed year |
| Pyramid.MaleColumn | app.py:52 | The male column name is the year's numeral followed by `_Male`; its prefix reads back as the year when the year is not negative |
| Pyramid.FemaleColumn | app.py:53 | The female column name is the year's numeral followed by `_Female`; its prefix reads back as the year when the year is not negative |
| Pyramid.ColumnNamesDistinct | app.py:52-53 | No male column name equals a female one, and two years give the same male (or female) column name exactly when they are the same year |
| Pyramid.PyramidSlice | app.py:52-56 | The pyramid exists exactly when both columns of the year and the `age` column exist; failures come in the order male, female, age; the data are the columns' cells unchanged, aligned with the labels |
| Pyramid.PyramidBars | app.py:59-60 | Male bars are the negated counts, mirror back to them and total minus the male total; female bars are the counts |
| Pyramid.TaggedHeaderNamesYear | app.py:22 | A data header `<y>_<tag>` makes `y` a listed year; `y` is not negative because the model converts digit strings only (Python's `int` would also list a year such as -5) |
| Pyramid.ColumnNamesYear | app.py:20-22 | A table column named `<y>_<tag>` puts `y` in the year list line 22 computes |
| Pyramid.UndiscoveredYearHasNoTaggedColumn | app.py:20-22 | A year missing from the year list line 22 computes names no column `<y>_<tag>` |
| Pyramid.UndiscoveredYearHasNoColumns | app.py:52-55 | A year missing from the year list line 22 computes has neither its male nor its female column |
| Pyramid.UndiscoveredYearFails | app.py:27-32 | A slider year missing from the year list line 22 computes, such as a gap year, makes the pyramid fail on its male column |
| PopulationTrend.YearPoint | app.py:75-76 | One loop pass succeeds exactly when the year has both columns, giving the two column sums; otherwise it fails on the first missing column |
| TrendLists.FoldPrefix | app.py:73-80 | After `n` years the four lists run parallel to the first `n` years with each year's sums and their total; the first failing year stops it with that year's failure |
| TrendLists.FoldStep | app.py:77-80 | A successful pass appends the year, the total and the two sums to the four lists |
| TrendLists.FoldStopsAtFirstGap | app.py:74-76 | Once a year fails, no later year changes the outcome |
| TrendLists.AccumulateTrend | app.py:73-80 | The loop computes exactly the fold of the per-year results |
| PopulationTrend.BuildTrend | app.py:73-80 | The trend loop over a table computes exactly the fold of the per-year column sums |
| PopulationTrend.TrendOf | app.py:73-80 | The trend exists exactly when every year has both columns; it lists the years in order, each with its male sum, female sum and their total; otherwise it fails on the first year missing a column |
| PopulationTrend.TotalOverAgeBands | app.py:80 | A year's total is the sum over age bands of male plus female |
| PopulationTrend.TrendMatchesPyramid | app.py:54-55 | A year's trend entries are the sums of that year's pyramid columns |
| PopulationTrend.SeriesTraces | app.py:83-88 | Traces come in the order total, male, female, each plotted against the year list with its own series; nothing selected gives no trace |
| PopulationTrend.SeriesShownIffSelected | app.py:83-88 | A series has a trace exactly when its label is selected |
| Scenario.ExampleYears | app.py:20-22 | The corrected year list of the example table is `[2000, 2010]` |
| Scenario.ExampleYearsAsWritten | app.py:20-22 | The year list line 22 computes for the example table is `[2000, 2010]` |
| Scenario.ExamplePyramid | app.py:52-56 | The example's 2000 pyramid is its 2000 columns with the three age bands |
| Scenario.ExampleTrend | app.py:73-80 | The example's trend is male `[45, 45]`, female `[48, 48]`, total `[93, 93]` |
| Scenario.ExampleGapYear | app.py:27-32 | The slider offers 2005 for the example, and its pyramid fails on `2005_Male` |

## Left out

- Reading the CSV file: the model starts from an already-parsed table whose data cells are integers.
- Missing and floating-point cells (`NaN`, floats in sums): every cell is an integer.
- Fixed-width integer overflow in the sums and in `astype(int)`: integers are unbounded.
- `astype(int)` on signed, whitespace-padded or non-ASCII-digit numerals: only ASCII digit strings convert. Python's `int` also reads full-width `２０００` as 2000, which would be one more spelling of the same year for the duplicate listing under Findings.
- Duplicate column names: `PopulationTable.Lookup` returns the first match, where pandas would return a frame.
- Using the label column as a lookup target, or a numeric column called `age`: lookups only search the numeric columns.
- The Streamlit page itself: layout, text, tabs, the default slider value and the default selection.
- Plotly details: colours, trace names, bar mode and the dashed marker at the selected year.
- The page's order of failures. The script runs top to bottom and stops at its first exception, so a gap year picked on the slider (the `KeyError` at app.py:54) also keeps the trend tab (app.py:70-96) from being drawn. The model gives each step's outcome separately.
- `PopulationTrend.SeriesTraces` models a trace as its series and its x and y lists only.
- `Text.ParseDecimal` does not model Python's handling of a leading `+` or `-` sign. A header such as `-5_Male` would list year -5 in the script, but fails to convert in the model.
- `Sequences.Unique` does not state that `unique()` keeps values in order of first occurrence. The order is not observable, because line 22 sorts the result.

## Findings

| source | as written | input that shows it | evidently intended | confidence | as-written member | corrected member |
|---|---|---|---|---|---|---|
| app.py:22 | The prefix strings are deduplicated before conversion to integers, so two spellings of one year both survive | headers `age`, `2000_Male`, `02000_Female` give the year list `[2000, 2000]` | each year listed once, in ascending order (`[2000]`) | not executed | YearDiscovery.DiscoverYearsAsWritten, YearDiscovery.AsWrittenRepeatsYear | YearDiscovery.DiscoverYears |
