# Telemarketing dashboard: the filter-and-summarise pipeline

The dashboard (`app_7.py`) loads a bank telemarketing table and lets the user
narrow it down through a form. The form has an age slider and eight
multiselects, for `job`, `marital`, `default`, `housing`, `loan`, `contact`,
`month` and `day_of_week`. Each multiselect offers the sorted distinct values
of its column plus the sentinel `"all"`, and `["all"]` is its default.

Submitting the form runs one chained expression. First an inclusive age
query, then eight `multiselect_filter` steps. A step returns the table
unchanged when `"all"` is among its selected values. Otherwise it keeps the
rows whose value in that column is selected and renumbers them. The
dashboard then shows the percentage breakdown of the outcome column `y`,
before and after filtering.

This project models that pipeline in Dafny and proves what it does.

- `frame.dfy` (module `Frame`): the dataframe. A `Table` has categorical
  column names, row labels (the pandas index) and rows. A `Row` has an
  integer `age` and a map from column name to value. `Keep` and
  `KeepLabels` model boolean-mask selection `df[mask]`. The lemmas prove
  which rows it keeps, how often, in what order, and under which labels.
- `filters.dfy` (module `Filters`): `multiselect_filter`, the age query, the
  submitted `Form`, and the eight-step `Pipeline`. The lemmas state what the
  pipeline keeps, when it fails, how it relabels, and its defaults,
  idempotence and monotonicity.
- `string_order.dfy` (module `StringOrder`): Python's `<` on `str`. It
  compares code point by code point, and a prefix sorts first. The module
  also holds `sorted(...)` of the distinct values.
- `options.dfy` (module `Options`): the option list of each multiselect.
- `proportions.dfy` (module `Proportions`):
  `value_counts(normalize=True).mul(100).sort_index()` as exact percentages.

Looking up a column the table does not have raises in pandas (`KeyError`,
`AttributeError`). The model returns `Err(UnknownColumn(col))` instead.
`multiselect_filter` tests for `"all"` before it reads the column. So a
selection containing `"all"` returns the table even when the column does not
exist, and the model keeps that order of checks.

In `app_7.py:130` an age range with its lower end above its upper end is not
an error. `query` simply keeps no rows, and the model follows the code
(`AgeQuerySelects`). The slider never produces such a range.

## Model

| member | source | states |
|---|---|---|
| `Filters.MultiselectFilter` | app_7.py:35-38 | If "all" is among the selected values, the result is the input table, labels included, even when other values or an unknown column are given. Otherwise it fails exactly when the column is missing, and the error names that column. A result is rectangular, has the same columns and is never longer than the input. |
| `Filters.MultiselectFilterSelects` | app_7.py:38 | With "all" not selected, a row is in the result iff it is an input row whose column value is selected. Every such row appears as often as in the input and no other row appears. The result is an order-preserving subsequence of the input, and its labels are 0..n-1 (`reset_index(drop=True)`). |
| `Filters.MultiselectFilterEmptySelection` | app_7.py:38 | An empty selection gives the empty table for an existing column, not an error. For a missing column it gives `UnknownColumn`. |
| `Filters.MultiselectFilterIdempotent` | app_7.py:35-38 | Applying the filter again with the same column and selection returns the table unchanged. |
| `Filters.FiltersCommute` | app_7.py:131-138 | Two chained categorical filters fail in one order iff they fail in the other. When both orders succeed they give the same table, labels included. |
| `Filters.AgeQuery` | app_7.py:130 | The query result is rectangular, keeps the columns and is never longer than the input. |
| `Filters.AgeQuerySelects` | app_7.py:130 | The query keeps exactly the rows with `lo <= age <= hi`, inclusive at both ends, each as often as in the input and in input order. Its (label, row) records are a subsequence of the input's, so labels are kept, not renumbered. A range with `lo > hi` keeps nothing. |
| `Filters.AgeRangeExample` | app_7.py:130 | Ages 20, 25, ..., 65 with range [30, 50] give exactly the rows aged 30, 35, 40, 45 and 50, under their original labels 2 to 6. |
| `Filters.ApplyStepsSpec` | app_7.py:131-138 | The chained steps fail iff some step without "all" names a missing column, and the error names the first such column. On success the rows are the mask of all active steps. Labels are 0..n-1 if any step was active, and the table is untouched if none was. |
| `Filters.PipelineKeeps` | app_7.py:129-139 | The pipeline's rows equal what one mask by the age predicate and all active membership predicates keeps. |
| `Filters.PipelineSelects` | app_7.py:129-139 | A row is in the filtered table iff it is an input row that the form admits. The form admits a row when its age is in range and, for each of the eight columns whose selection lacks "all", its value is selected. Each admitted row appears as often as in the input, in input order, and the result is never longer than the input. |
| `Filters.PipelineFails` | app_7.py:129-139 | The pipeline fails iff a multiselect without "all" names a column the table lacks. It reports the first such column in chain order. |
| `Filters.PipelineLabels` | app_7.py:129-139 | If any multiselect lacks "all", the filtered table is labelled 0..n-1. Otherwise it is exactly the age query's result, with the original labels. |
| `Filters.PipelineDefaults` | app_7.py:111-139 | With every multiselect at its default `["all"]`, the pipeline returns the age-filtered table and cannot fail. |
| `Filters.PipelineIdempotent` | app_7.py:129-139 | Running the pipeline again with the same form on its own output gives the same result. |
| `Filters.PipelineMonotone` | app_7.py:129-139 | A form at least as restrictive in every control yields a subsequence of the rows and never more rows. Restrictive means a narrower age range and, per column, either the wider form has "all" or the narrower one selects a subset without "all". |
| `Frame.KeepMembers` | app_7.py:38 | A boolean mask keeps a row iff it is an input row that satisfies every predicate. |
| `Frame.KeepMultiplicity` | app_7.py:38 | A mask keeps every satisfying row as often as it occurs in the input, and every other row zero times. |
| `Frame.KeepIsSubseq` | app_7.py:38 | The rows a mask keeps stay in their relative order. |
| `Frame.KeepLabelsIsSubseq` | app_7.py:130 | After masking, each row still carries the label it had in the input. |
| `Frame.KeepKeep` | app_7.py:129-139 | Masking by `ps` and then by `qs` equals masking once by `ps + qs`. This is why the chained filters compose into one predicate. |
| `Frame.KeepStricter` | app_7.py:129-139 | A mask whose predicates imply another's keeps a subsequence of what the other keeps. |
| `Frame.KeepAppend` | app_7.py:38 | Masking a concatenation of rows masks each part. |
| `StringOrder.LessIrreflexive` | app_7.py:109 | No string sorts before itself under Python's `<`. |
| `StringOrder.LessTransitive` | app_7.py:109 | Python's `<` on strings is transitive. |
| `StringOrder.LessTotal` | app_7.py:109 | Of two different strings, one sorts before the other. |
| `StringOrder.SortedDistinct` | app_7.py:109 | `sorted(series.unique())` is strictly ascending, holds exactly the values of the series, and is never longer than it. |
| `StringOrder.StrictlySortedUnique` | app_7.py:109 | Two strictly ascending lists with the same elements are equal. So the option list does not depend on how the values were sorted. |
| `Options.MultiselectOptions` | app_7.py:108-111 | The option list fails iff the column is missing. Otherwise it ends in "all", and everything before that is strictly ascending and is exactly the set of the column's values. |
| `Options.OptionsDetermined` | app_7.py:109-110 | Any strictly ascending list of the column's distinct values, followed by "all", is the option list. |
| `Options.DefaultIsAnOption` | app_7.py:111 | Every entry of the default selection `["all"]` is among the options. |
| `Options.SentinelOccurrences` | app_7.py:109-110 | "all" appears twice among the options when a real category is literally named "all", and once otherwise. |
| `Options.EveryOptionKeepsAllRows` | app_7.py:35-38 | Selecting every listed category except the appended "all" keeps every row of the table. |
| `Proportions.Distribution` | app_7.py:158-159 | The percentage table fails iff the column is missing. Its keys are strictly ascending and are exactly the column's distinct values. Each share is 100·count/total and lies in (0, 100]. The table is empty iff the input has no rows. |
| `Proportions.DistributionSumsTo100` | app_7.py:158-159 | For a non-empty table the percentages sum to exactly 100. |
| `Proportions.CountAllCovers` | app_7.py:158 | Counting every value under distinct keys that cover all the values counts each row exactly once. |
| `Proportions.OutcomeExample` | app_7.py:158 | Outcomes `yes, no, no, yes, no` give `[("no", 60), ("yes", 40)]`, with "no" first. |

## Left out

- `load_data` (app_7.py:26-31): parsing the upload with `read_csv` or `read_excel` is I/O inside a foreign library. The model starts from an already loaded table.
- `to_excel` (app_7.py:41-46): serialising to xlsx goes through `xlsxwriter` and produces binary output, so it is not modelled.
- `st.cache_data` memoisation: it has no effect on results.
- The Streamlit user interface is not modelled: page setup, uploader, form, slider, radio, the submit gate, `st.dataframe`, download buttons, charts, theme and image.
- The slider bounds from `bank.age.min()` and `bank.age.max()` are not modelled. Any age range is accepted, including an empty one.
- The multiselect widget restricts the selection to offered options. The model accepts any selection.
- `age` is a field of every row. A table without an `age` column, which would fail in the query, is not modelled.
- Cell values are strings. Missing values (NaN), pandas dtypes, and `isin` with non-string values are not modelled.
- `unique()` returns values in order of first appearance. That order is not modelled, because `sorted` removes it (`StringOrder.StrictlySortedUnique`).
- `Proportions.Distribution`: percentages are exact reals 100·count/total, not IEEE doubles. Their sum is therefore exactly 100, not 100 within rounding.
- `to_frame("y")` only names the result column, so it is not modelled.
