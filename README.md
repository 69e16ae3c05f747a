# Column-type-aware dataframe filter, modelled in Dafny

This project models `filter_dataframe` from the E-MEC registry browser
(`App.py`). The function takes a table and lets the user narrow it column by
column. Each selected column gets a filter widget chosen from what the column
looks like.

The pass has three steps, and the model keeps all three:

1. **Switch.** If "add filters" is off, the input table comes back as it is.
2. **Conversion.** Otherwise the function works on a copy. Each
   generic-object column is re-read as date/times when every one of its
   values parses. If any value fails, the column is left unchanged.
3. **Narrowing.** For each selected column, in the order picked, the column
   is classified on the table *as narrowed so far*. The first matching rule
   wins: Categorical (tagged categorical, or fewer than 10 distinct
   non-missing values), then Numeric, then Temporal, then Text. The rows are
   then narrowed by that kind's test:
   - Categorical: membership in the chosen set.
   - Numeric: an inclusive range.
   - Temporal: an inclusive range from the first picked date's midnight to
     the second's, applied only when exactly two dates are picked.
   - Text: substring containment of the printed value, skipped when the
     text is empty.

Files, one module each:

- `frames.dfy` (`Frames`): cells, column types, tables, well-formedness,
  column lookup, the subsequence relation.
- `conversion.dfy` (`Conversion`): the date/time conversion pass.
- `classifier.dfy` (`Classifier`): the kind rule and how it behaves when rows
  are removed.
- `predicates.dfy` (`Predicates`):
  - the four per-kind tests;
  - `Select`, which narrows rows by a conjunction of tests;
  - the widget defaults and what they keep.
- `filter.dfy` (`Filter`):
  - the driver functions;
  - the imperative `FilterDataframe` method, with one loop per source loop;
  - the lemmas about the whole pass.

Tables are values. The input is never changed: the method narrows a local
copy, just as the source reassigns its local `df`.

The widgets are replaced by an explicit `Inputs` record. It holds the switch
and, for each selected column in order, a `Param` whose shape is the
widget's answer:

- `Allowed(set)` for Categorical;
- `Range(lo, hi)` for Numeric;
- `Dates(days)` for Temporal, as calendar day numbers;
- `Pattern(text)` for Text.

In the source the widget always matches the kind and the column list only
offers existing columns. The model has to say what happens otherwise, so it
returns `Err(WrongParameter)` or `Err(UnknownColumn)`. An unknown column is
what a `KeyError` would be in the source.

Four things about the code are easy to get wrong:

- **Filter order matters for classification.** Each column is classified on
  the already-narrowed table, and narrowing can only push a column *into*
  Categorical (`NarrowingOnlyDemotes`). Filtering column B first can
  therefore turn a Numeric column A into a Categorical one. A range chosen
  for A then no longer fits. This happens whenever B leaves fewer than 10
  rows (`EarlierSelectionDemotes`).
- **Re-running the selection loop either gives the result back or fails.**
  Running the same selections over the result never yields a different
  table (`ReapplyKeepsOrFails`). It gives the result back when each
  selection builds the same test on it (`ReapplyIsIdentity`). It always
  does when every selection is categorical (`CategoricalFilterIdempotent`).
  Re-running the whole of `filter_dataframe` is different, because the
  conversion pass runs again on the narrowed rows. An object column whose
  unparsable values were filtered out now parses and comes back as
  date/times (`RefilterConvertsAgain`).
- **The numeric default range drops missing values.** The default is the
  column's own min and max, but a missing value never lies in a range. So
  the default keeps every row only when the column has no missing value
  (`NumericDefaultKeepsAll`, `RangeKeepsInside`). The categorical default
  keeps missing values, because matching against the unique values does.
- **The date default drops the later rows of the latest day.** The picker
  starts on the calendar days of the column's earliest and latest instants.
  Reading those days back gives their midnights. So the default keeps only
  rows up to midnight at the start of the latest day
  (`TemporalDefaultKeeps`). It keeps every row exactly when the latest
  instant is itself a midnight (`TemporalDefaultKeepsAll`).

## Model

| member | source | states |
|---|---|---|
| Frames.IndexOf | App.py:116 | looking a column up by name returns the first column with that name, or none exactly when no column has it |
| Conversion.ParseInstant | App.py:103 | reading one value as an instant: a missing value always becomes a missing instant, and a result is always a date/time value |
| Conversion.ParseAll | App.py:102-105 | whole-column parsing succeeds iff every value parses, and then gives each value's parsed instant in place (all-or-nothing, no partial result) |
| Conversion.ConvertColumn | App.py:100-108 | one conversion iteration keeps the table well-formed (typed cells, same header size and row count) |
| Conversion.ConvertColumnSpec | App.py:100-108 | one iteration converts column c iff it holds objects and every value parses, and leaves every other column unchanged |
| Conversion.ConvertFromSpec | App.py:100-108 | the loop from column c on converts each later column on its own values and leaves the earlier columns alone |
| Conversion.ConvertFrom | App.py:100-108 | the conversion loop from column c on keeps the table well-formed, with the same number of columns and rows |
| Conversion.Converted | App.py:98-108 | the converted table is well-formed, with the same number of columns and rows |
| Conversion.ConvertedSpec | App.py:98-108 | after conversion: names, column order and row count are kept; each object column whose values all parse becomes date/time with the parsed instants; every other column is exactly as before |
| Classifier.Distinct | App.py:116 | the distinct values are exactly the column's non-missing entries: every non-missing entry is counted, only entries of the column are counted, and a missing value never is; their number never exceeds the number of entries |
| Classifier.PresentAtMost | App.py:116 | a column never holds more distinct non-missing values than it has entries |
| Classifier.Classify | App.py:116-144 | first match wins: Categorical iff tagged categorical or fewer than 10 distinct non-missing values; otherwise Numeric iff numeric type, Temporal iff date/time type, Text iff anything else |
| Classifier.ThresholdBoundary | App.py:116 | the count rule is strict: 9 distinct values give Categorical; 10 or more on an untagged column fall through to the rule the type selects |
| Classifier.NoValuesIsCategorical | App.py:116 | a column with no non-missing values has no distinct values and is Categorical |
| Classifier.NarrowingOnlyDemotes | App.py:116 | on a column holding only some of the values, the kind is unchanged or becomes Categorical; a Categorical column stays Categorical |
| Predicates.Passes | App.py:117-149 | one value's test per parameter shape: membership for a categorical choice; a missing value never passes a numeric range or a two-date range; a passing value of a two-date range is an instant on or before the second day; a non-two-date choice and an empty text pass everything |
| Predicates.Contains | App.py:149 | containment holds iff the text occurs at some position of the printed value |
| Predicates.Select | App.py:122-149 | narrowing keeps a row iff it is one of the input rows and passes every test |
| Predicates.SelectOrderAndCount | App.py:122-149 | narrowing keeps the surviving rows in input order (a subsequence) and each as often as it occurs in the input; a rejected row not at all |
| Predicates.SelectFusion | App.py:114-149 | narrowing by one list of tests and then another equals narrowing by their conjunction |
| Predicates.SelectKeepsAccepted | App.py:114-149 | tests that every row passes remove nothing |
| Predicates.SelectDropsRejected | App.py:114-149 | a test that no row passes removes every row |
| Predicates.SelectIdempotent | App.py:114-149 | narrowing twice by the same tests is narrowing once |
| Predicates.CategoricalDefaultKeepsAll | App.py:117-122 | the default choice (all values the column currently holds) keeps every row |
| Predicates.CategoricalKeepsMembers | App.py:117-122 | a categorical choice keeps exactly the rows whose value is one of the chosen values |
| Predicates.CategoricalNoneRemovesAll | App.py:117-122 | an empty categorical choice removes every row |
| Predicates.RangeKeepsInside | App.py:134 | a numeric range keeps exactly the rows with a number in [lo, hi], both ends included; a missing value never passes |
| Predicates.Bounds | App.py:124-125 | the default ends are the least and greatest number or instant present, attained by some value; there are none iff the column holds none |
| Predicates.NumericDefaultKeepsAll | App.py:124-134 | the default [min, max] range keeps every row of a numeric column with no missing value |
| Predicates.DayOf | App.py:138 | the calendar day the picker shows for an instant is the day whose midnight is at or before the instant and whose next midnight is after it |
| Predicates.MidnightOf | App.py:141 | a picked calendar date read back as a date/time is a midnight on that same day |
| Predicates.MidnightOfDay | App.py:138-141 | the midnight of an instant's day is at or before it and less than a day before; it equals the instant iff the instant is a midnight |
| Predicates.DatesKeepInside | App.py:140-143 | two picked dates keep exactly the rows whose instant lies between the first date's midnight and the second date's midnight, both included; a missing instant never passes |
| Predicates.TemporalDefaultKeeps | App.py:136-143 | the default dates (the days of the earliest and latest instant) keep exactly the rows with an instant no later than midnight at the start of the latest day |
| Predicates.TemporalDefaultKeepsAll | App.py:136-143 | with no missing instant, the default dates keep every row iff the latest instant is a midnight |
| Predicates.PartialDatesKeepAll | App.py:140 | a date choice with other than two ends is not applied: every row is kept |
| Predicates.EmptyPatternKeepsAll | App.py:148 | an empty text is not applied: every row is kept |
| Predicates.PatternKeepsMatches | App.py:149 | a non-empty text keeps exactly the rows whose printed value contains it, matched case-sensitively |
| Filter.KindOf | App.py:116-144 | the kind of a column on the current table: every column of a table with fewer than 10 rows is Categorical, a tagged categorical column is Categorical, and only number and date/time columns can be Numeric and Temporal |
| Filter.BuildTest | App.py:115-144 | a selection becomes a test exactly when it names a column and its choice has the shape of that column's kind, classified on the current table; an unknown column is reported iff no column has that name |
| Filter.Narrow | App.py:115-149 | one selection step keeps the header and narrows the rows by the selection's test; it fails exactly when the test cannot be built |
| Filter.ApplyFilters | App.py:114-149 | the selection loop keeps the table well-formed and its header unchanged |
| Filter.Trace | App.py:114-149 | the pass builds one test per selection; test k applies selection k's choice to the column that selection names |
| Filter.Filtered | App.py:93-150 | with the switch off the result is the input itself; with it on and nothing selected, the result is the converted table |
| Filter.FilterIsConjunction | App.py:114-150 | the pass keeps exactly the rows passing the AND of the tests it built (each built on the table narrowed so far), in order, header unchanged |
| Filter.FilterKeepsOrderedSubset | App.py:98-150 | a successful pass returns the input's column names in order, and its rows are an order-preserving subsequence of the converted rows: exactly those that pass every applied test, each as often as in the converted rows |
| Filter.TraceAccepted | App.py:114-149 | every row the pass keeps passes each test of the pass |
| Filter.ReapplyIsIdentity | App.py:114-149 | running the same selections over the result gives the result back, provided each selection builds the same test on it |
| Filter.SameTestOnSameHeader | App.py:115-116 | on two tables with the same header, a selection that builds a test on both builds the same test |
| Filter.RerunOnKept | App.py:114-149 | the selections of a pass, run over a same-header table whose rows the pass kept, give that table back or fail |
| Filter.ReapplyKeepsOrFails | App.py:114-149 | re-running the selection loop over its own result gives that result back or fails; it never yields another table |
| Filter.EarlierSelectionDemotes | App.py:114-134 | a range selection that applies on the table fails with a wrong-choice error for its column once an earlier selection has left fewer than 10 rows, because every column is then Categorical |
| Filter.ResultRowsFromInput | App.py:114-149 | every row the pass keeps is a row of the table it started from |
| Filter.CategoricalOnFewerRows | App.py:116 | a Categorical column stays Categorical on a table holding only some of its rows |
| Filter.CategoricalStepKeeps | App.py:117-122 | a categorical step leaves any same-header table whose rows the pass kept unchanged |
| Filter.CategoricalReapply | App.py:114-122 | categorical selections leave unchanged any same-header table whose rows the pass kept |
| Filter.CategoricalFilterIdempotent | App.py:114-122 | with only categorical selections, re-running the selection loop over its own result gives that result back |
| Filter.RefilterConvertsAgain | App.py:98-122 | re-running the whole filter over its own result can change it: in a two-row example with one categorical selection, a column the first pass left as objects is converted to date/times by the second |
| Filter.FilterDataframe | App.py:89-150 | the method, with its column-conversion loop and its selection loop, returns exactly `Filtered` |

## Left out

- `dataframe_to_pdf` (App.py:22-73) is not part of this model. It renders
  through the fpdf library. Its 35-character cell truncation is
  presentation only.
- The script body (App.py:78-84, 155-179) is not modelled. It covers page
  setup, CSV loading and error messages. The model takes the loaded table as
  a well-formed value: equal-width typed rows and unique column names.
- The widgets (App.py:93, 110-121, 127-133, 136-139, 145-147) are replaced by
  the explicit `Inputs` record. The model does not check that a slider value
  lies within the column's bounds; it takes the range as given.
- The library's date parser is an opaque parameter, `Coercions.toInstant`.
  Only its all-or-nothing use is modelled. The model parses each value on
  its own. The library infers one format for the whole column, so whether a
  value parses, and which instant it reads as, can depend on the column's
  other values. The model does not capture that.
- Converting a value to a string is an opaque parameter, `Coercions.toText`.
- Stripping the time zone (App.py:108) is the identity, because instants are
  naive integers.
- Text matching in the source uses regular expressions (App.py:149). The
  model covers substring containment only; regex semantics belong to a
  foreign library.
- Numbers, slider bounds and slider steps are floating point in the source
  (App.py:124-126). The model uses integers, and the step size plays no part
  in the filter.
- Instants are nanosecond counts. Calendar dates are day numbers, and the
  library's calendar arithmetic (months, leap years, display) is not
  modelled.
- Missing values follow the library's rules only as far as these three
  points go: they are not counted as distinct values, they are kept by the
  categorical default, and they never pass a range. Beyond that, NaN, NaT
  and None are not told apart.
- The source changes a pandas frame copy in place. The model does this on
  values: a local table that each loop iteration reassigns. Object identity
  and aliasing are not represented. Rows carry no index labels, although the
  source's result keeps the loaded frame's labels and displays them. The
  subsequence and multiplicity statements of `SelectOrderAndCount` stand in
  for them.
