# Telemarketing dashboard: filter-and-aggregate pipeline

This project models, in Dafny, the data logic of the Streamlit telemarketing
dashboard `app_7.py`. A bank-marketing table is loaded once and kept as the
original. A copy of it goes through an inclusive age-range query and then
through eight categorical `multiselect_filter` stages, in which the
selection "all" switches a stage off. For both the original and the filtered
table, the dashboard shows the percentage distribution of the `y` column
(whether the client accepted the offer), keyed in ascending order. The
option lists of the multiselects are the sorted distinct values of each
column, with "all" appended and preselected.

The model is written as pure functions over values, like the source's
expression chains:

- `string_order.dfy` (`StringOrder`): Python's `<` on `str` (code-point
  lexicographic order, proper prefix first), proved a strict total order,
  and `sorted(set(...))` as `SortedDistinct`.
- `table.dfy` (`BankTable`): rows, the categorical columns, and the
  subsequence relation "obtained by deleting rows".
- `filters.dfy` (`Filters`): boolean-mask selection `Where`, the age query,
  `multiselect_filter`, the `.pipe` chain, the default controls.
- `options.dfy` (`Options`): `create_multiselect`.
- `percentage.dfy` (`Percentage`): `calculate_percentage`, with exact
  `real` percentages.
- `dashboard.dfy` (`Dashboard`): how `main` wires these pieces together,
  and the worked example of three clients.

The filters are specified by an independent description. A selection
result is the subsequence of the input that keeps only rows satisfying the
condition, and it keeps each such row as many times as the input has it.
The whole chain is proved equal to one selection by the conjunction of its
stages. Idempotence, the irrelevance of stage order, and "the original is
untouched, the result is never longer" all follow from that.

An empty selection without "all" keeps no row in `app_7.py:39`. One could
read an empty selection as "no filter"; the code keeps no row, and so does
the model (`EmptySelectionKeepsNothing`). On a table without a `y` column,
`df["y"]` raises an error; in the model every row has a `y` field, so that
case does not arise.

## Model

| member | source | states |
|---|---|---|
| `StringOrder.LessTotal` | app_7.py:93 | Two different strings are always ordered one way or the other, so sorting strings is well defined |
| `StringOrder.LessTransitive` | app_7.py:93 | The string order used by `sorted` and `sort_index` is transitive |
| `StringOrder.SortedDistinct` | app_7.py:93 | `sorted(unique())` is strictly ascending, holds exactly the elements of the input, and is non-empty when the input is |
| `StringOrder.AscendingUnique` | app_7.py:144 | Two strictly ascending sequences with the same elements are equal, so the key order of a sorted index is determined by its keys |
| `StringOrder.AscendingMultiplicity` | app_7.py:93 | In a sorted distinct list, each value occurs exactly once or not at all |
| `BankTable.SubseqColumnValues` | app_7.py:148 | Every `y` value of the filtered table also occurs in the original table |
| `BankTable.SubseqShorter` | app_7.py:109-119 | A table obtained by deleting rows is never longer and holds only rows of the original |
| `Filters.WhereSelects` | app_7.py:39 | `df[mask]` is a subsequence of the input, keeps only rows satisfying the mask, and drops none of them (same multiplicity as in the input) |
| `Filters.WhereSubseq` | app_7.py:39 | `df[mask]` only deletes rows and keeps the order of the rest |
| `Filters.WhereSound` | app_7.py:39 | Every row that `df[mask]` keeps satisfies the mask |
| `Filters.WhereComplete` | app_7.py:39 | Every row satisfying the mask occurs in `df[mask]` as often as in the input |
| `Filters.AgeQuery` | app_7.py:110 | The age query keeps exactly the rows with `lo <= age <= hi`, inclusive at both ends, in their original order |
| `Filters.MultiselectFilter` | app_7.py:36-39 | If the selection contains "all", the table is returned unchanged whatever else is selected. Otherwise the result keeps, in order, exactly the rows whose value in `col` was selected |
| `Filters.EmptySelectionKeepsNothing` | app_7.py:37-39 | An empty selection (no "all") yields a table with no rows, not an error |
| `Filters.WhereEquivalent` | app_7.py:39 | Masks that agree on every row select the same table |
| `Filters.WhereKeepsAll` | app_7.py:39 | A mask that every row satisfies returns the table unchanged |
| `Filters.WhereWhere` | app_7.py:109-119 | Selecting by some stages and then by others equals selecting by all of them at once |
| `Filters.ApplyIsWhere` | app_7.py:110-118 | Each `.pipe` stage (age query or multiselect filter) keeps exactly the rows that pass that stage |
| `Filters.PipelineIsWhere` | app_7.py:109-119 | A chain of stages keeps exactly the rows of the input that pass every stage |
| `Filters.ChainIsPipeline` | app_7.py:109-119 | The source's nested chain is the nine-stage pipeline: age first, then job, marital, default, housing, loan, contact, month, day_of_week |
| `Filters.ChainSelects` | app_7.py:109-119 | The filtered table is the selection of the original by all nine stages together, a subsequence of the original, and never longer |
| `Filters.ChainIdempotent` | app_7.py:109-119 | Applying the same range and selections a second time leaves the filtered table unchanged |
| `Filters.PipelineOrderIrrelevant` | app_7.py:111-118 | The result depends only on which stages occur, not on their order or repetition |
| `Filters.ChainOrderIrrelevant` | app_7.py:109-119 | Any rearrangement of the nine `.pipe` stages gives the same table as the order in the source |
| `Filters.MinAge` | app_7.py:83 | `age.min()` exists exactly when the table has rows; it is the age of some row and no row is younger |
| `Filters.MaxAge` | app_7.py:83 | `age.max()` exists exactly when the table has rows; it is the age of some row and no row is older |
| `Filters.DefaultControls` | app_7.py:83-104 | The initial form exists exactly for a table with rows: the slider is at (min age, max age) and every multiselect is at `["all"]` |
| `Filters.DefaultControlsKeepAll` | app_7.py:83-119 | Under the initial controls the filter chain returns the whole table |
| `Options.CreateMultiselect` | app_7.py:92-95 | The options are the column's distinct values in ascending order, with "all" as the last entry. The preselection is `["all"]`, which is among the options |
| `Options.InitialSelectionKeepsAll` | app_7.py:92-95 | With its preselection, every categorical filter is the identity |
| `Options.SentinelShadowsValue` | app_7.py:92-95 | If a column really holds the value "all", the option list has "all" twice. Choosing it keeps every row, so those rows cannot be singled out |
| `Percentage.Count` | app_7.py:141 | A value count is at most the number of rows, and it is positive exactly when the value occurs |
| `Percentage.CountIsMultiplicity` | app_7.py:141 | The value count equals the value's multiplicity in the column |
| `Percentage.PercentBounds` | app_7.py:141-142 | `100 * count / total` lies in (0, 100] when `0 < count <= total` |
| `Percentage.CalculatePercentage` | app_7.py:136-145 | A table with no rows gives an empty distribution. Otherwise the distribution is non-empty, its keys are strictly ascending and are exactly the `y` values of the table, and each line holds `100 * count / rows`, which lies in (0, 100] |
| `Percentage.PercentagesSumTo100` | app_7.py:139-145 | For a table with rows, the percentages sum to exactly 100 |
| `Dashboard.Analyze` | app_7.py:69-148 | For a loaded table with rows (an empty one fails at line 83 first): the original table is kept as loaded. The filtered table is exactly the selection of the original by all stages, and a subsequence of it. The two distributions are `calculate_percentage` of the original and of the filtered table. The original's is non-empty; the filtered one is empty exactly when no row passes, and it only names `y` values the original's distribution names |
| `Dashboard.ExampleChain` | app_7.py:109-119 | Ages 25 to 30 and job "admin" keep the clients aged 25 and 30 out of 25, 40 and 30 |
| `Dashboard.ExamplePercentage` | app_7.py:136-145 | The distribution of those two clients, who both said "yes", is `{"yes": 100}` |

## Left out

- `load_data` (app_7.py:27-32): it tries the semicolon CSV parser and then the Excel parser of a library whose behaviour is not part of this model. The model starts from a loaded table.
- `to_excel` (app_7.py:42-47): spreadsheet serialisation is done by an external writer library.
- `st.cache_data` memoisation (app_7.py:27, 35, 42): this is framework caching. It does not change any result.
- All widgets, page configuration, the form and its submit button, download buttons and charts (app_7.py:14-21, 56-106, 121-130, 150-221): these are UI and rendering. The form's output is the `Controls` value.
- The slider only offers `min_age <= lo <= hi <= max_age`. The model accepts any range, which is more general.
- Index labels: `query` keeps the original row labels and `reset_index(drop=True)` renumbers them. The model's tables have positions only.
- Floating point: the percentages are exact `real` numbers. Rounding, and the `%.2f` display format (app_7.py:189, 206), are not modelled. The sum of exactly 100 holds only in the model.
- Missing values: `value_counts` and `isin` skip NaN. Every cell is present in the model.
- `df.empty` is also true for a table with no columns. Such a table has no `y` column and fails earlier in the source. Tables in the model always have every column.
- `int(bank.age.min())` on a table without rows fails in the source (app_7.py:83). In the model this is `DefaultControls` returning `None`. Ages are integers, so the `int` conversion is the identity.
- Columns the dashboard never reads (`education`, `duration`, `campaign` and the rest of the bank-marketing file) are not part of `Row`. Filtering decides row by row on the columns modelled, so which rows are kept is unaffected; the filtered table the page shows and exports carries those columns too, which the model does not represent.
- The immutability of `bank_raw` (app_7.py:70) holds by construction in the model, because every operation works on values.
