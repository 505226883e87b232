# AI Data Analyst Assistant: the table pipeline, in Dafny

The assistant is a Streamlit page. A user uploads a CSV file. The page tidies
the parsed table and prints an overview of it. It also sends a few sampled
rows to a language model, and draws a ranked bar chart from two columns.
Under the page sits a small pipeline of pandas operations. This project
models that pipeline and proves what it guarantees:

- **Load-time normalisation** (`normalise.dfy`, `dedup.dfy`). The uploaded
  table is a `DataFrame` object. Two steps change it in place:
  - When a column name repeats, the reader's repeat-suffix rule renames the
    later copies: `c` becomes `c.1`, `c.2`, and a suffixed name that is
    already taken gets another suffix.
  - A column `Unnamed: 0` is renamed `index` when its values are unique and
    monotonic increasing. Otherwise it keeps its name and the page warns.

  The suffix rule is modelled twice. `MaybeDedupNames` is the reader's own
  `for`/`while` loop over a count dictionary. `DedupNames` is a recursive
  definition, and the loop is proved equal to it.
- **Overview** (`overview.dfy`): the row and column counts, the number of
  missing cells, the number of columns per dtype, and the column names
  listed per dtype.
- **Sampling** (`sampling.dfy`): `min(10, rows)` distinct rows, taken
  without replacement. The pandas sampler takes the first positions of a
  seeded shuffle of all rows. The shuffle is a parameter of the model.
- **Chart data** (`chart.dfy`). The two chosen columns go through four steps:
  drop rows with a missing cell, average Y per X when Y is not unique, sort
  by Y descending, and keep the first `top_n` rows (5 to 100).

`frame.dfy` holds the table value shared by all modules. A table is a list
of column names, one dtype per column, and equal-length columns of cells.
A cell is a number, a string, a boolean or the missing marker. Means are
computed over `real`.

Line 120 tests whether Y (the value) repeats. Averaging per category only
makes sense when X (the category) repeats, so the test probably meant X. The
model does what line 120 does. `RepeatedCategoryNotGrouped` shows a repeated
category that is not averaged. `GroupMeanOfDistinctCategories` shows that
averaging would change nothing when no category repeats. The rule that tests
X is modelled beside it as `MaybeGroupByCategory`. `GroupingRulesDiffer` shows
the two rules disagree on those rows.

## Model

| member | source | states |
|---|---|---|
| `Dedup.Resolve` | ai-dataanalyst-assistant.py:27 | the inner suffixing loop for one name; `ResolveFacts` states what it yields |
| `Dedup.DedupFrom` | ai-dataanalyst-assistant.py:27 | the outer loop from a given count state; `DedupFromFacts` states its result |
| `Dedup.DedupNames` | ai-dataanalyst-assistant.py:26-27 | the suffix rule on a whole column list; `DedupNamesFacts`, `DedupDistinctIsIdentity` and the two examples state it |
| `Dedup.MaybeDedupNames` | ai-dataanalyst-assistant.py:27 | the reader's dedup loop, with a count dictionary and an inner suffixing loop, computes exactly `DedupNames` |
| `Dedup.ResolveFacts` | ai-dataanalyst-assistant.py:27 | the inner suffixing loop ends on a name not yet taken; that name extends the original, and it equals the original exactly when the original was free; the set of taken names is unchanged |
| `Dedup.DedupFromFacts` | ai-dataanalyst-assistant.py:27 | from any count state: one result name per input name, all pairwise distinct, none already taken, each extending its input name, kept exactly when free |
| `Dedup.DedupNamesFacts` | ai-dataanalyst-assistant.py:26-27 | the new column list has the same length and pairwise distinct names; the first name is unchanged; every new name has its old name as a prefix; a name changes exactly when an earlier column already holds it |
| `Dedup.DedupDistinctIsIdentity` | ai-dataanalyst-assistant.py:26-27 | the suffix rule leaves a list of distinct names unchanged |
| `Dedup.DedupDateExample` | ai-dataanalyst-assistant.py:27 | `date, date, sales` becomes `date, date.1, sales` |
| `Dedup.DedupTakenSuffixExample` | ai-dataanalyst-assistant.py:27 | `a, a, a.1` becomes `a, a.1, a.1.1`: a suffixed name that is already taken gets another suffix |
| `Normalise.HasDuplicates` | ai-dataanalyst-assistant.py:26 | some name occurs at two positions; `FixDuplicatesFacts` ties the warning to it |
| `Normalise.FixDuplicates` | ai-dataanalyst-assistant.py:26-28 | the duplicate step on the table value; `FixDuplicatesFacts` states it |
| `Normalise.FixDuplicatesFacts` | ai-dataanalyst-assistant.py:26-28 | the warning is raised exactly when some name repeats, and without it the table is unchanged; names stay as many and become distinct; the first name is kept and each new name extends its old one; a name changes exactly when an earlier column already holds it; cells, dtypes and row count are untouched |
| `Normalise.IsProperIndex` | ai-dataanalyst-assistant.py:32 | `is_unique and is_monotonic_increasing`; `ProperIndexIsStrictlyIncreasing` characterises it |
| `Normalise.ProperIndexIsStrictlyIncreasing` | ai-dataanalyst-assistant.py:32 | `is_unique and is_monotonic_increasing` holds exactly when every value is present and strictly increasing (both directions) |
| `Normalise.IndexOf` | ai-dataanalyst-assistant.py:31 | finds `Unnamed: 0` exactly when it is present, at its first position |
| `Normalise.RenameIndexColumn` | ai-dataanalyst-assistant.py:33 | the rename of `Unnamed: 0` to `index`; `RenameKeepsDistinct` and `RenameCanCollide` state when names stay distinct |
| `Normalise.FixIndexColumn` | ai-dataanalyst-assistant.py:31-35 | the index step on the table value; `FixIndexColumnFacts` states it |
| `Normalise.FixIndexColumnFacts` | ai-dataanalyst-assistant.py:31-35 | `Unnamed: 0` becomes `index` exactly when its values are present and strictly increasing; otherwise the names are unchanged and a warning is raised exactly when the column exists; with distinct names no other name changes; cells, dtypes and rows never change |
| `Normalise.RenameKeepsDistinct` | ai-dataanalyst-assistant.py:33 | on distinct names without an `index` column, the rename keeps the names distinct |
| `Normalise.RenameCanCollide` | ai-dataanalyst-assistant.py:31-33 | a proper `Unnamed: 0` next to an existing `index` column leaves two columns named `index` |
| `Normalise.DataFrame.constructor` | ai-dataanalyst-assistant.py:23 | the DataFrame holds the parsed table |
| `Normalise.DataFrame.FixDuplicateColumns` | ai-dataanalyst-assistant.py:26-28 | reassigns the column list in place to the deduplicated one, returns the warning, and leaves distinct column names |
| `Normalise.DataFrame.FixUnnamedIndex` | ai-dataanalyst-assistant.py:31-35 | renames in place or warns, as `FixIndexColumn` says |
| `Normalise.DataFrame.Normalise` | ai-dataanalyst-assistant.py:25-35 | runs both steps in order; the names end distinct unless the rename meets an existing `index` column |
| `Overview.Summarise` | ai-dataanalyst-assistant.py:48-52 | the five overview values; `SummaryShape` and the `TypeGroups...` lemmas state them |
| `Overview.TotalMissing` | ai-dataanalyst-assistant.py:50 | `df.isnull().sum().sum()`; `TotalMissingCountsCells` and `TotalMissingBound` state it |
| `Overview.TypeCounts` | ai-dataanalyst-assistant.py:51 | `df.dtypes.value_counts()`; `TypeCountsFacts` states it |
| `Overview.UniqueDTypes` | ai-dataanalyst-assistant.py:52 | `df.dtypes.unique()`; `UniqueDTypesFacts` states it |
| `Overview.NamesOfType` | ai-dataanalyst-assistant.py:52 | the column names of one dtype; `NamesOfTypeCount` and `NamesOfTypeInTableOrder` state them |
| `Overview.ColsByType` | ai-dataanalyst-assistant.py:52 | `cols_by_type`; the `TypeGroups...` lemmas state it |
| `Overview.SummaryShape` | ai-dataanalyst-assistant.py:48-50 | `total_rows` and `total_cols` are the table's shape; `total_missing` is exactly the number of missing cells, lies in `[0, rows * cols]`, and is 0 for a table without rows |
| `Overview.TotalMissingCountsCells` | ai-dataanalyst-assistant.py:50 | summing the per-column missing counts gives the number of missing cells in the whole table |
| `Overview.TotalMissingBound` | ai-dataanalyst-assistant.py:50 | there are never more missing cells than cells |
| `Overview.UniqueDTypesFacts` | ai-dataanalyst-assistant.py:52 | `dtypes.unique()` lists every dtype present, and each only once |
| `Overview.TypeCountsFacts` | ai-dataanalyst-assistant.py:51 | `type_counts` has exactly the dtypes present as keys, each mapped to its positive number of columns |
| `Overview.TypeGroupsCoverDTypes` | ai-dataanalyst-assistant.py:52 | `cols_by_type` has one group per dtype present and no dtype twice |
| `Overview.TypeGroupsCountColumns` | ai-dataanalyst-assistant.py:51-52 | no group is empty; each group's size is its `type_counts` entry; group sizes sum to `total_cols` |
| `Overview.TypeGroupsPlaceColumns` | ai-dataanalyst-assistant.py:52 | every column is listed under its own dtype |
| `Overview.TypeGroupsHoldOwnType` | ai-dataanalyst-assistant.py:52 | a group lists only names of columns of its dtype |
| `Overview.NamesOfTypeCount` | ai-dataanalyst-assistant.py:52 | the names selected for a dtype are as many as the columns of that dtype |
| `Overview.NamesOfTypeInTableOrder` | ai-dataanalyst-assistant.py:52 | each dtype's list holds exactly the names of the columns of that dtype, each once and in table order: its k-th name is the name of the k-th column of that dtype |
| `Sampling.SampleSize` | ai-dataanalyst-assistant.py:68 | the sample size is at most 10 and at most the row count, and equals one of them |
| `Sampling.DrawSample` | ai-dataanalyst-assistant.py:90 | the sample has exactly `min(10, rows)` rows at distinct positions, each an actual row of the table; an empty table gives an empty sample; a table of at most 10 rows is sampled whole |
| `ChartData.Where` | ai-dataanalyst-assistant.py:118 | finds every column with the chosen name, in increasing order |
| `ChartData.DropIncomplete` | ai-dataanalyst-assistant.py:118 | `df[[x_col, y_col]].dropna()`; `DropIncompleteExact` and `DropIncompleteFacts` state it |
| `ChartData.DropIncompleteExact` | ai-dataanalyst-assistant.py:118 | `dropna` keeps every complete row exactly once, in table order, and nothing else. The complete positions are listed in increasing order, each exactly once, and the k-th point is the row at the k-th of them |
| `ChartData.DropIncompleteKeepsRepeats` | ai-dataanalyst-assistant.py:118-120 | two equal complete rows stay two rows, so line 120 then sees a repeated Y |
| `ChartData.DropIncompleteFacts` | ai-dataanalyst-assistant.py:118 | after `dropna`, no point has a missing X; every point is a complete row of the two columns; every complete row gives a point |
| `ChartData.CategoriesFacts` | ai-dataanalyst-assistant.py:122 | the group keys are distinct and are exactly the X values present |
| `ChartData.MeansOf` | ai-dataanalyst-assistant.py:122 | one point per key, carrying the mean of that key's (non-empty) Y values |
| `ChartData.GroupMean` | ai-dataanalyst-assistant.py:122 | `groupby(x_col).mean()`; `GroupMeanFacts` states it |
| `ChartData.MaybeGroup` | ai-dataanalyst-assistant.py:120-122 | grouping only when Y repeats; `MaybeGroupFacts` states it |
| `ChartData.GroupMeanFacts` | ai-dataanalyst-assistant.py:122 | after grouping, X values are pairwise distinct and are exactly the input's X values; each Y is the mean of the Y values of the rows with that X |
| `ChartData.MaybeGroupFacts` | ai-dataanalyst-assistant.py:120-122 | rows pass through unchanged when Y values are distinct; otherwise they are grouped, with the guarantees of `GroupMeanFacts` |
| `ChartData.MaybeGroupKeepsCategories` | ai-dataanalyst-assistant.py:120-122 | grouping never invents an X value |
| `ChartData.GroupMeanOfDistinctCategories` | ai-dataanalyst-assistant.py:120-122 | when no X value repeats, averaging per X returns the rows unchanged |
| `ChartData.RepeatedCategoryNotGrouped` | ai-dataanalyst-assistant.py:120 | two rows with the same X and different Y are not averaged, because the test looks at Y |
| `ChartData.MeanBounds` | ai-dataanalyst-assistant.py:122 | a group's mean lies between the smallest and largest Y it averages |
| `ChartData.MaybeGroupByCategory` | ai-dataanalyst-assistant.py:120-122 | the rule that tests X instead of Y; `MaybeGroupByCategoryFacts` states it |
| `ChartData.MaybeGroupByCategoryFacts` | ai-dataanalyst-assistant.py:120-122 | testing X always yields the per-category averaging: each category exactly once, the same categories as the input, each with the mean of its Y values |
| `ChartData.GroupingRulesDiffer` | ai-dataanalyst-assistant.py:120 | on two rows with the same category and different values, the rule as written keeps both, while the X test merges them into one |
| `ChartData.RankedInput` | ai-dataanalyst-assistant.py:118-122 | dropna, then the optional grouping: the rows that are ranked; `DropIncompleteExact` and `MaybeGroupFacts` state its two steps |
| `ChartData.SortByYDesc` | ai-dataanalyst-assistant.py:128 | `sort_values(by=y_col, ascending=False)`; `SortByYDescFacts` states it |
| `ChartData.Head` | ai-dataanalyst-assistant.py:128 | `head(top_n)`; `HeadOfSorted` states it |
| `ChartData.Rank` | ai-dataanalyst-assistant.py:128 | sort then head; `RankFacts` states it |
| `ChartData.SortByYDescFacts` | ai-dataanalyst-assistant.py:128 | the sort returns the same rows (as a multiset), ordered by non-increasing Y |
| `ChartData.HeadOfSorted` | ai-dataanalyst-assistant.py:128 | `head(n)` of a sorted sequence keeps `min(n, len)` rows as a prefix; they stay sorted, and no dropped row has a higher Y than a kept row |
| `ChartData.RankFacts` | ai-dataanalyst-assistant.py:128 | sort then head: `min(top_n, rows)` rows, a prefix of the sorted rows, sorted by non-increasing Y, a sub-multiset of the input, and none dropped above any kept |
| `ChartData.PrepareChart` | ai-dataanalyst-assistant.py:114-128 | the chart section's outcome; `BarsExactlyForValidSelection`, `SameAxisGivesNoChart` and `PrepareChartFacts` state it |
| `ChartData.SameAxisGivesNoChart` | ai-dataanalyst-assistant.py:115-116 | choosing the same non-empty column for X and Y ends in the same-axis warning, and never in bars |
| `ChartData.BarsExactlyForValidSelection` | ai-dataanalyst-assistant.py:114-128 | bars come out exactly when X and Y are both chosen and non-empty, differ, each names exactly one column, and Y is numeric (both directions) |
| `ChartData.PrepareChartFacts` | ai-dataanalyst-assistant.py:114-128 | chart data exists only for a chosen, distinct, uniquely named X and numeric Y. Its length is `min(top_n, n)`, where `n` is the number of rows after dropna and the optional grouping. It is the sorted prefix of those rows, at most 100 long and sorted by non-increasing Y. Every X on it is present and comes from the X column. No dropped row lies above a kept one |
| `ChartData.CategoriesComeFromX` | ai-dataanalyst-assistant.py:118-122 | every category on a bar is a present value of the X column |

## Left out

- The Streamlit page itself (title, widgets, buttons, previews, markdown, `st.stop()`): it is UI. Warnings are modelled as boolean results, failures as `Failed(...)` values.
- The language-model requests (lines 14-15, 69-82, 91-104) and the API key setup: they are calls to an external service. The gate "only when a question was typed" is part of that UI flow.
- `pd.read_csv`: the parser is library code. The model takes the parsed table as the `DataFrame` constructor's argument.
- dtype inference: each column's dtype is an input. Only the dtypes the CSV reader produces are modelled (`int64`, `float64`, `bool`, `object`). "Numeric" means `int64` or `float64`.
- `to_csv` of the sample and matplotlib drawing (lines 129-135): these are text and picture output.
- Sampling.DrawSample: pandas' random generator is not modelled. The model takes a parameter `shuffle(seed, n)` that must be a permutation of the row positions. The sample is its first `min(10, n)` positions, as in `RandomState.choice(n, k, replace=False)`. The seeds 1 and 2 of the two call sites only select that shuffle, so they are not modelled.
- ChartData.SortByYDesc: ties keep input order. pandas' default `quicksort` is not stable, so its tie order is unspecified.
- ChartData.GroupMean: groups come out in the order each X first appears, not in pandas' sorted key order. The sort by Y that follows reorders them anyway, so only the order of ties differs.
- Floating point: means are exact `real` divisions, not `float64` arithmetic.
- Normalise.CellLess: values of different kinds (a number next to a string, `True` next to `1`) never compare. So `is_monotonic_increasing` is false on a column that mixes kinds.
- ChartData.PrepareChart: a chosen column name that is missing or repeated becomes `UnknownColumn` or `AmbiguousColumn`. pandas fails in different ways at different lines in those cases. It may raise a `KeyError`, a groupby error or a chart error. A repeated Y name, which the rename at line 33 can produce, makes `chart_df[y_col]` a DataFrame; its `.is_unique` at line 120 then raises `AttributeError` outside any `try`.
- Normalise.FixDuplicates: lines 26-28 are applied to any parsed table. `pd.read_csv` with its default settings already renames repeated header names by the same rule, so for an uploaded file the warning at line 28 never shows. Line 27 also calls a private helper of pandas 1.x (`ParserBase._maybe_dedup_names`). The rule is modelled from that helper.
- Overview.TypeCounts: it is a map, so it does not keep `value_counts()`' order by descending count. That order only shows in the printed overview.
