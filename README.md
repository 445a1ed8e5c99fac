# ID3 decision tree (`DecisionTree` in main.py), modelled in Dafny

The model covers the `DecisionTree` class. It owns a table of strings. Row 0 is the header, every later row is an observation, and the last column is the label. For every feature column it computes an entropy score (`run`, `get_entropy`). It then splits on the first column with the lowest score and builds a nested tree (`build_tree`). For each category of the split column, in sorted order, the tree records either a leaf label or the tree of a new `DecisionTree` over that category's rows with the split column deleted.

Files and modules:

- `string_order.dfy` (`StringOrder`): the code-point order numpy sorts strings in, and `np.unique` as `Unique`. `Unique` gives a strictly sorted sequence with the same elements.
- `tables.dfy` (`Tables`): the table and its well-formedness, and `get_rows` as `Partition`. Also `np.delete` as `RemoveColumn`, `list.count` on the label column as `LabelCount`, and the header lookup of `np.where` as `IndexOf`.
- `entropy.dfy` (`Entropy`): the counts `get_entropy` computes, which are exact integers, and its score `Score` as a sum of per-category `Term`s. The float operations are an abstract `FloatOps` value.
- `id3.dfy` (`Id3`): the tree datatypes and `np.argmin` as `ArgMin`. `Build`, `BuildBranches` and `Decide` specify `build_tree` as functions of the table and of an arbitrary column scorer. `Put` is the dictionary merge.
- `id3_properties.dfy` (`Id3Properties`): what `build_tree` promises, proved over any scorer:
  - the tree's shape;
  - the leaf-or-recurse rule;
  - when the empty tree results;
  - when it raises;
  - the depth bound;
  - that clean two-label tables always succeed.
- `decision_tree.dfy` (`DecisionTrees`): the class itself. It has fields `table`, `entropies` and `tree`, and loop methods proved against the functions above. `NewDecisionTree` is the Python constructor call `DecisionTree(table)`: it sets the fields, then calls `run`. `build_tree` recurses through it.
- `worked_trees.dfy` (`WorkedTrees`): two small tables and the trees they produce.

Terms used below:

- **Exception.** The `IndexError` at `yes_no[1]` becomes `Outcome.Fail` and `Result.Err` (`SecondLabelMissing`).
- **Clean.** A table is *clean* (`Clean`) when no header cell reappears among the observations of its own column.
- **Following the code.** Where the design description and the code disagree, the model follows the code:
  - `get_rows` scans row 0 as well. A category equal to the header's own cell therefore gets the header row twice (`PartitionShape`).
  - Both `get_entropy` and `build_tree` count the header row's label along with the observations. So does the purity test (`QuirkTree`).
  - The design says that by the `log2(0) -> 1` convention a pure partition adds `probOfCategory * 1` to the entropy. Take a header whose label is not "Yes" and whose cell is not the category. In the code the substituted `1` is then multiplied by a zero probability, and `log2(1) = 0`, so a pure partition adds 0 (`Entropy.PureTermIsZero`, `Entropy.YesCountBounds`).
  - When the header's label is "Yes", the header row's "Yes" is counted with every partition. `no_in_subtable` can then be -1, and the substituted `1` multiplies the probability -1. The `Quirk` table scores -0.5 under exact arithmetic, although its partitions are pure (`WorkedTrees.QuirkScore`). So the design's claim that every entropy lies in `[0, 1]` does not hold for such tables.
  - The design says any two-valued label set works. `get_entropy` counts only the literal `"Yes"`, so with other labels every column scores 0 and the split is always column 0 (`Entropy.ScoreWithoutYes`, `Id3Properties.NoYesSplitsFirstColumn`).

## Model

| member | source | states |
|---|---|---|
| StringOrder.Unique | main.py:45 | `np.unique`: the result is strictly sorted and holds exactly the values of its input |
| Tables.Matching | main.py:37-39 | the rows kept by the scan are rows of the input, never more of them, and labelled when the input is |
| Tables.Partition | main.py:35-40 | the partition is again a well-formed table of the same width |
| Tables.MatchingMultiset | main.py:37-39 | every row whose cell is the category is kept as often as it occurs; every other row is dropped |
| Tables.PartitionShape | main.py:35-40 | `get_rows` is the header, then the header again if its own cell is the category, then the matching observations in their original order |
| Tables.PartitionContents | main.py:35-40 | when the header's cell is not the category, the partition is the header followed by exactly the matching observations, with multiplicity |
| Tables.CategoryPresent | main.py:49-52 | a category taken from the observations has at least one row in its partition |
| Tables.LabelCount | main.py:59-61 | a label count never exceeds the number of rows |
| Tables.LabelCountFull | main.py:86 | the count equals the row count exactly when every row carries that label (the purity test) |
| Tables.LabelCountPositive | main.py:82-83 | the count is positive exactly when some row carries the label |
| Tables.RemoveColumn | main.py:95 | `np.delete(..., 1)`: same row count, one column fewer, every remaining cell shifted left past the removed column |
| Tables.RemoveColumnKeepsLabels | main.py:95 | deleting a feature column keeps every row's label |
| Tables.IndexOf | main.py:44 | the column found is one the header names `attribute`, and no earlier header cell does |
| Tables.PartitionChild | main.py:95-96 | the table of a recursive call on a clean table is well formed, one column narrower, clean, and its observations carry the partition's labels |
| Entropy.CategorySizesSum | main.py:45-55 | the `x` values over all categories sum to `y`, plus one when the header's own cell also occurs in the column |
| Entropy.YesCountBounds | main.py:58-62 | the "Yes" count is at most `x` (plus one if the header's label is "Yes"); when the header's label is not "Yes", `0 <= no_in_subtable <= x`; when moreover the header's cell is not the category, it is the count over the matching observations |
| Entropy.DivisorsPositive | main.py:52-55 | both divisors of `get_entropy`, `x` and `y`, are at least 1 |
| Entropy.PureTermIsZero | main.py:63-66 | under the zero laws of float arithmetic, a category whose "Yes" count (header row included) is 0 or `x` adds a summand of 0 |
| Entropy.ExactOpsZeroLaws | main.py:63-66 | the zero laws hold of exact arithmetic with `log2(1) = 0`, so assuming them is consistent |
| Entropy.ScoreWithoutYes | main.py:58-66 | when no row is labelled "Yes", every column's score is 0 |
| Id3.Scores | main.py:31-32 | the collected scores have one entry per visited header cell |
| Id3.ArgMin | main.py:73 | `np.argmin`: a position of the minimum, and no earlier position holds that minimum |
| Id3.Put | main.py:87-99 | dict merge: a new key is appended with its value; an existing key keeps its position |
| Id3.PutExisting | main.py:87-99 | dict merge of a key already present, with distinct keys: the length is kept, the key takes the new value, and every other entry stays as it was |
| Id3.PutFresh | main.py:87-99 | merging a new category into the split's entries appends it after those already recorded |
| Id3Properties.EntropiesPerColumn | main.py:30-32 | after `run`, one score per feature column in column order, each the score of the first column with that header name (with distinct names, of the column itself) |
| Id3Properties.EntropyPerColumn | main.py:30-32 | with `get_entropy` as scorer, entry `i` is the entropy of the column header cell `i` names |
| Id3Properties.NoYesSplitsFirstColumn | main.py:58-66 | when no row is labelled "Yes", the split column is always column 0 |
| Id3Properties.BuildSplits | main.py:71-76 | with a feature column, `build_tree` succeeds exactly when its category loop does and then splits on the first lowest-scoring column |
| Id3Properties.CategoriesNonEmpty | main.py:74 | a table with an observation has at least one category in every column |
| Id3Properties.EmptyTree | main.py:71-76 | the tree is `{}` exactly when the table has no feature column or no observation |
| Id3Properties.TreeShape | main.py:74-99 | a completed tree has one attribute, the split column's name; its keys are that column's observation values, each once and in sorted order; each key's entry is that category's decision |
| Id3Properties.SingleLabelFails | main.py:79-82 | with a feature column, an observation and fewer than two distinct labels, `build_tree` raises at `yes_no[1]` |
| Id3Properties.BuildBranchesKeys | main.py:76-99 | the category loop records one entry per category, in loop order |
| Id3Properties.BuildBranchesEntries | main.py:76-99 | each entry the loop records is that category's decision |
| Id3Properties.BuildBranchesStep | main.py:76-99 | one more category appends its decision or propagates its error |
| Id3Properties.BuildBranchesErr | main.py:94-99 | an exception for any one category makes the whole loop raise |
| Id3Properties.LeafOrRecurse | main.py:79-99 | on a clean table: the leaf is `yes_no[1]` when all the partition's observations carry it; otherwise the leaf is `yes_no[0]` when all carry that; otherwise the entry is the subtree of the partition without the split column, and it raises when that subtree does |
| Id3Properties.DepthBound | main.py:95-96 | a completed tree is at most as deep as the table has feature columns |
| Id3Properties.SubtreeDepth | main.py:95-96 | a subtree's depth is bounded by the feature columns left after the split column is deleted |
| Id3Properties.ImpureChildLabels | main.py:79-96 | an impure partition of a clean two-label table recurses on a table with the same two labels |
| Id3Properties.CleanTwoLabelsSucceed | main.py:70-99 | on a clean table whose observations carry exactly two labels, `build_tree` never raises, at any depth |
| WorkedTrees.WeatherTree | main.py:70-99 | the weather table gives `{"Weather": {"Rainy": "Yes", "Sunny": "No"}}` whatever the scores |
| WorkedTrees.QuirkTree | main.py:77-99 | a header labelled "Yes" is counted with every partition: the "Yes" observation maps to `{}` and the "No" observation to "Yes" |
| WorkedTrees.QuirkCountsX | main.py:52-62 | in the `Quirk` table, category "x" has `x = 1`, a "Yes" count of 2 with the header row, and `no_in_subtable = -1` |
| WorkedTrees.QuirkCountsY | main.py:52-62 | in the `Quirk` table, category "y", whose one observation is "No", has `x = 1` and a "Yes" count of 1 |
| WorkedTrees.QuirkTermX | main.py:63-66 | with exact arithmetic, category "x" of `Quirk` has `prob2 = -1`, the substituted `1` multiplies it, and its summand is -0.5 |
| WorkedTrees.QuirkTermY | main.py:63-66 | with exact arithmetic, category "y" of `Quirk` adds 0 |
| WorkedTrees.QuirkScore | main.py:42-68 | with exact arithmetic and `log2(1) = 0`, `log2(2) = 1`, the `Quirk` table's feature column scores -0.5 |
| DecisionTrees.DecisionTree.constructor | main.py:13-27 | the table is stored, `entropies` is empty and `tree` is `{}` |
| DecisionTrees.DecisionTree.Run | main.py:30-33 | `entropies` becomes one `get_entropy` result per feature column, in order; it passes exactly when the specified tree exists, and `tree` is that tree |
| DecisionTrees.DecisionTree.GetRows | main.py:35-40 | the loop builds exactly the partition `get_rows` specifies |
| DecisionTrees.DecisionTree.GetEntropy | main.py:42-68 | the accumulated entropy is the score of the column the header names `attribute`, summed over its sorted categories |
| DecisionTrees.DecisionTree.CategoryTerm | main.py:50-66 | one category's summand, computed from the partition's counts |
| DecisionTrees.DecisionTree.CountYes | main.py:58-61 | `yes_in_subtable` is the number of rows labelled "Yes" |
| DecisionTrees.DecisionTree.BuildTree | main.py:70-99 | the category loop merges entry after entry into `tree`; it passes exactly when the specified tree exists, with `tree` equal to it, and raises the error otherwise |
| DecisionTrees.DecisionTree.ResolveCategory | main.py:77-99 | one loop pass yields exactly the specified decision for the category, building and running a new `DecisionTree` for an impure partition |
| DecisionTrees.DecisionTree.GetTree | main.py:101-102 | returns `tree` |
| DecisionTrees.NewDecisionTree | main.py:10-33 | constructing `DecisionTree(table)` gives a fresh object whose scores and tree are those specified, or the exception `build_tree` raises |

## Left out

- Loading a CSV file and the `isinstance` dispatch in `__init__` (main.py:11-24) are file I/O. The model constructs from a table, and `WellFormed` (rectangular, with a header and a label column) is the precondition of the loaded table.
- The module-level script (main.py:123-126) is terminal I/O and presentation: the `input` prompt, JSON dumping, pygments highlighting and `print`.
- The commented-out `_query`/`query` routine (main.py:104-120) is not live code.
- Floating point: `/`, `*`, `+`, unary `-` and `math.log2` are the abstract operations of `FloatOps`. No rounding behaviour is modelled. The properties that need arithmetic facts assume only `ZeroLaws`.
- The design's bound that entropy scores lie in `[0, 1]` is not proved. When the header's label is "Yes" it is false for the code as written (`WorkedTrees.QuirkScore` gives -0.5). Otherwise it depends on properties of `log2` and of float rounding that the abstract operations do not carry.
- DecisionTrees.DecisionTree.GetEntropy: requires the attribute to be a header cell. `np.where` on a missing name would raise, but `run` passes only header cells.
- DecisionTrees.DecisionTree.BuildTree: states nothing about `tree` when it raises. Python leaves a partly merged dictionary behind, but the exception leaves the constructor, so that object never reaches a caller.
- numpy internals are modelled by their results on sequences:
  - array dtypes;
  - `np.where` over the whole table, whose first match is in the header row;
  - `np.concatenate` as append;
  - `np.sort` of an already sorted `np.unique` result, which changes nothing.
- Python dictionaries are sequences of key/entry pairs in insertion order.
- Several preconditions (`Clean` and the label counts) appear only in the theorems that need them. The functions and methods model every table, quirks included.
