# Decision trees: a verified model of `decide/decision_tree.py`

This project models the decision-tree learner of the `buontempo` repository in Dafny.
The learner has three parts:

- it grows an ID3-style tree from rows of categorical data, splitting on the column of highest information gain;
- it classifies new rows by walking the tree;
- it renders the tree as nested `if … then …` rules.

A small edge finder, `find_edges`, classifies the diagonal points `(d, d)` of two coordinate lists. When the two lists are the same list of distinct values, it reports the coordinate range of the points classified `False`. When the lists differ, or when one list repeats a value, the ranges it reports can be wrong (see "Findings").

Modules, one per part of the program:

- `Wrappers` (`wrappers.dfy`): `Option` and `Result`. Each Python exception the modelled code raises on inputs of the expected shape is an `Err` with a `Dataset.Fault` value that names its cause. Rectangular rows, and a label for every feature column, are preconditions instead (see "Left out").
- `Dataset` (`dataset.dfy`): rows with their category last, columns, Python `set`s of column values, list comprehensions that partition rows, and `Counter` counts.
- `Selection` (`selection.dfy`):
  - `entropy` over the reals, with the logarithm as the parameter `log2`;
  - the information gain and `best_feature_for_split` (first-wins argmax);
  - `potential_leaf_node` (`most_common(1)`).
- `DecisionTree` (`tree.dfy`): the tree datatype, `create_tree`, `classify` and what a built tree promises about its training rows.
- `Rules` (`rules.dfy`): `as_rule_str` as a method with the source's loop, the function that specifies it, and the trailing-separator guard.
- `Edges` (`edges.dfy`):
  - `find_edges` as a method that sorts the caller's arrays in place;
  - the function of the sorted lists it computes;
  - the index arithmetic, and the discrepancy it has when the two lists differ.

How the model represents the source:

- **Tree.** A node is `Node(name, children)`, where `children` is the ordered list of `(key, subtree)` pairs of the Python dict `{name: {key: subtree}}`. A leaf is `Leaf(category)`.
- **Set and dict order.** Python's `set` and dict iteration order is modelled as first-occurrence order: `Dataset.Distinct` keeps each value at its first occurrence.
- **Gain.** `create_tree` takes the column scorer as the parameter `gain`. `Selection.EntropyGain(log2)` is the scorer the source uses, written out exactly over the reals.
- **Termination.** `create_tree` recurses without end when the chosen column holds only one value, for example on conflicting duplicate rows. With one value, the only partition is the whole data set. The model returns the error `Diverges` in that case, so every recursive call is on strictly fewer rows. `DecisionTree.ConflictingRowsFail` shows that conflicting duplicate rows always lead there, and `DecisionTree.CreateTreeErrors` lists every way a build can fail.
- **`classify` returning `None`.** The code returns `None` when no key matches, and the model keeps that as `Ok(None)`.
- **Categories in `find_edges`.** They are integers, because Python's `False` is the integer `0`. `L.index(False)` therefore matches exactly the category `0`, and never a `None` result.

## Model

| member | source | states |
|---|---|---|
| Dataset.IndexOf | buontempo/decide/decision_tree.py:56 | `label.index(root)`: the first position holding the value; no earlier position holds it |
| Dataset.IndexOfPrefix | buontempo/decide/decision_tree.py:56 | `list.index` of a value in a prefix is the same as over the whole list |
| Dataset.IndexOfUnique | buontempo/decide/decision_tree.py:56 | with distinct labels, `label.index(label[f])` is `f` |
| Dataset.FirstIndex | buontempo/decide/decision_tree.py:87 | `list.index`, or `None` exactly when the value is absent; the position found is the first one holding the value |
| Dataset.Distinct | buontempo/decide/decision_tree.py:46 | `set(...)` of a column: no duplicates, exactly the same members, no longer than the column |
| Dataset.DistinctKeepsOrder | buontempo/decide/decision_tree.py:15 | a value whose first occurrence comes earlier also comes earlier among the distinct values: the insertion order of a `Counter` |
| Dataset.Column | buontempo/decide/decision_tree.py:46 | `[d[f] for d in data]`: one entry per row, entry `i` is row `i`'s value in column `f` |
| Dataset.ColumnHas | buontempo/decide/decision_tree.py:46 | a row's own value occurs in its column |
| Dataset.ColumnLacks | buontempo/decide/decision_tree.py:46 | a value no row holds is not in the column |
| Dataset.Category | buontempo/decide/decision_tree.py:35 | no `ensures`: a row's last entry, `i[-1]` here and `item[-1]` at line 14; `CategoryColumn` states it per row |
| Dataset.CategoryColumn | buontempo/decide/decision_tree.py:15 | `[item[-1] for item in data]`, entry by entry |
| Dataset.Categories | buontempo/decide/decision_tree.py:15 | the `Counter` keys: distinct; every row's category is among them and each of them is some row's category |
| Dataset.Partition | buontempo/decide/decision_tree.py:48 | the comprehension is no longer than `data` |
| Dataset.PartitionMultiplicity | buontempo/decide/decision_tree.py:48 | the comprehension keeps every row that holds `v` in column `f` exactly as often as it occurs in `data`, and no other row |
| Dataset.PartitionMembers | buontempo/decide/decision_tree.py:48 | a row is in the partition for `v` if and only if it is a row of `data` whose column holds `v` |
| Dataset.PartitionSubset | buontempo/decide/decision_tree.py:48 | every row of a partition comes from `data` and holds `v` in the column |
| Dataset.Count | buontempo/decide/decision_tree.py:35 | a `Counter` entry never exceeds the number of rows |
| Dataset.CountIsMultiplicity | buontempo/decide/decision_tree.py:15 | the `Counter` entry for `c` is the number of rows whose category is `c` |
| Dataset.CountAll | buontempo/decide/decision_tree.py:39-40 | a category's count equals `len(data)` if and only if every row carries it |
| Dataset.CountPositive | buontempo/decide/decision_tree.py:35 | a category some row carries is counted at least once |
| Dataset.PartitionShrinks | buontempo/decide/decision_tree.py:48 | a row with another value in the column is left out, so the partition is strictly smaller |
| Dataset.PartitionShrinksOnOtherValue | buontempo/decide/decision_tree.py:46-48 | when the column holds a second value, each partition is strictly smaller than `data` |
| Dataset.PartitionWellFormed | buontempo/decide/decision_tree.py:48-49 | the partition for a value of the column is non-empty and has rows as wide as `data` |
| Dataset.NoDupsLength | buontempo/decide/decision_tree.py:84 | a list without duplicates is no longer than any list holding all its members |
| Selection.ItemEntropy | buontempo/decide/decision_tree.py:11-13 | no `ensures`: the body is the model of `item_entropy`; `WholeItemEntropy` and `ItemEntropyNonNegative` state its promises |
| Selection.EntropyOver | buontempo/decide/decision_tree.py:15-16 | no `ensures`: the body is the model of the sum over the `Counter` keys; `EntropyOverNonNegative` states its promise |
| Selection.Entropy | buontempo/decide/decision_tree.py:9-16 | no `ensures`: the body is the model of `entropy`; `PureEntropyIsZero` and `EntropyNonNegative` state its promises |
| Selection.WeightedEntropy | buontempo/decide/decision_tree.py:24-28 | no `ensures`: the body is the model of the size-weighted entropy of the feature partitions |
| Selection.Gain | buontempo/decide/decision_tree.py:20-29 | no `ensures`: the body is the model of the information gain of one column |
| Selection.EntropyGain | buontempo/decide/decision_tree.py:20-29 | no `ensures`: the gain as a scorer for `CreateTree`; all tree lemmas hold for every scorer and so for this one |
| Selection.FirstMax | buontempo/decide/decision_tree.py:30 | Python's `max`: a position whose value no entry exceeds, strictly above every earlier entry |
| Selection.FirstMaxUnique | buontempo/decide/decision_tree.py:30 | exactly one position has both properties |
| Selection.Gains | buontempo/decide/decision_tree.py:28-29 | one score per feature column, in column order |
| Selection.BestFeature | buontempo/decide/decision_tree.py:19-31 | fails on no rows (`data[0]`) and on rows without a feature column (`max([])`); otherwise a feature column index |
| Selection.BestFeatureIsFirstArgmax | buontempo/decide/decision_tree.py:28-31 | the chosen column is `f` if and only if `f`'s gain is at least every column's and strictly greater than every earlier column's |
| Selection.PotentialLeaf | buontempo/decide/decision_tree.py:34-35 | fails exactly on no rows; otherwise a category some row carries, with its true count |
| Selection.PotentialLeafFirstRow | buontempo/decide/decision_tree.py:35 | ties go by the rows: every row before the first row carrying the chosen category carries a strictly less common one |
| Selection.PotentialLeafIsMostCommon | buontempo/decide/decision_tree.py:35 | no category occurs in more rows than the one returned |
| Selection.PotentialLeafFirstWins | buontempo/decide/decision_tree.py:35 | every category whose first occurrence comes earlier is strictly less common |
| Selection.LeafTestIsPurity | buontempo/decide/decision_tree.py:39-41 | most-common count equals `len(data)` if and only if all rows share one category, and then it is that category |
| Selection.PureCategories | buontempo/decide/decision_tree.py:15 | a pure data set has exactly one `Counter` key |
| Selection.WholeItemEntropy | buontempo/decide/decision_tree.py:11-13 | with `log(1) = 0`, a category carried by every row contributes 0 |
| Selection.PureEntropyIsZero | buontempo/decide/decision_tree.py:9-16 | with `log(1) = 0`, a pure data set has entropy 0 |
| Selection.ItemEntropyNonNegative | buontempo/decide/decision_tree.py:11-13 | with a logarithm non-positive on (0, 1], `-ratio * log(ratio)` is non-negative |
| Selection.EntropyOverNonNegative | buontempo/decide/decision_tree.py:15-16 | every partial sum of item entropies is non-negative under that assumption |
| Selection.EntropyNonNegative | buontempo/decide/decision_tree.py:9-16 | entropy is never negative under that assumption |
| DecisionTree.CreateTree | buontempo/decide/decision_tree.py:38-50 | no `ensures`: the body is the model of `create_tree`; `CreateTreeLeaf`, `CreateTreeNode`, `CreateTreeChild`, `CreateTreeErrors` and `TrainingRowsClassified` state its promises |
| DecisionTree.Grower | buontempo/decide/decision_tree.py:48-49 | the loop body: defined for every class of the split column; `CreateTreeChild` states that each branch is the tree built from that class's partition |
| DecisionTree.MapBranches | buontempo/decide/decision_tree.py:47-49 | the `for c in classes` loop: on success the branch keys are exactly the classes, in order |
| DecisionTree.MapBranchesAt | buontempo/decide/decision_tree.py:47-49 | branch `i` holds exactly the subtree built for class `i` |
| DecisionTree.MapBranchesPair | buontempo/decide/decision_tree.py:47-49 | two classes whose subtrees build give two branches, in class order |
| DecisionTree.MapBranchesErr | buontempo/decide/decision_tree.py:47-49 | the loop fails if and only if some subtree fails, and then with the first failing class's error |
| DecisionTree.Lookup | buontempo/decide/decision_tree.py:57-58 | finds the first branch whose key equals the value, or reports that none does |
| DecisionTree.LookupKeys | buontempo/decide/decision_tree.py:57-58 | a branch is found if and only if the value is one of the node's keys |
| DecisionTree.Classify | buontempo/decide/decision_tree.py:53-61 | no `ensures`: the body is the model of `classify`; `ClassifyReachesLeaf`, `ClassifyFollows`, `ClassifyMisses`, `TrainingRowsClassified` and `UnseenValueUnclassified` state its promises |
| DecisionTree.ClassifyReachesLeaf | buontempo/decide/decision_tree.py:53-61 | a category returned by `classify` is one of the tree's leaves, never another value |
| DecisionTree.ClassifyMisses | buontempo/decide/decision_tree.py:57-61 | a row value that matches no key gives `None` |
| DecisionTree.ClassifyFollows | buontempo/decide/decision_tree.py:56-61 | the column is `label.index(root)`; the first matching branch is followed: a leaf answers, a subtree classifies further |
| DecisionTree.CreateTreeLeaf | buontempo/decide/decision_tree.py:38-41 | the build yields a leaf if and only if the rows are pure, and the leaf is their category |
| DecisionTree.CreateTreeNode | buontempo/decide/decision_tree.py:42-46 | an internal node is named `label[best feature]`; its keys are exactly the distinct values of that column; it has at least two |
| DecisionTree.CreateTreeChild | buontempo/decide/decision_tree.py:47-49 | each child is the tree built, with the same labels, from exactly the rows holding its key; that partition is strictly smaller |
| DecisionTree.CreateTreeErrors | buontempo/decide/decision_tree.py:38-50 | the only failures: `EmptyData` on no rows; `NoFeatureColumn` exactly when impure rows have no feature column; otherwise only `Diverges` |
| DecisionTree.ConflictingRowsFail | buontempo/decide/decision_tree.py:38-50 | two rows with equal features and different categories make every build fail, with `Diverges` when there is a feature column, for every scorer |
| DecisionTree.CreateTreeWellLabelled | buontempo/decide/decision_tree.py:44-49 | every node of a built tree is named by one of the labels |
| DecisionTree.TrainingRowBranch | buontempo/decide/decision_tree.py:46-58 | a training row's value at the split column selects a branch, built from a partition that contains the row |
| DecisionTree.TrainingRowsClassified | buontempo/decide/decision_tree.py:38-61 | a built tree that splits classifies every training row as the row's own category (given distinct labels) |
| DecisionTree.UnseenValueUnclassified | buontempo/decide/decision_tree.py:46-61 | a value never seen in the root's split column gives `None` |
| DecisionTree.TwoRowsTree | buontempo/decide/decision_tree.py:38-50 | rows `[0, 0, 7]` and `[0, 1, 8]` under labels `["a", "a"]`, with column 1 scored higher, build the node `a` split on column 1 |
| DecisionTree.RepeatedLabelMisclassifies | buontempo/decide/decision_tree.py:56-61 | on that tree, the training row `[0, 1, 8]` is classified `7`: `label.index` picks column 0 |
| Rules.Strips | buontempo/decide/decision_tree.py:76 | no `ensures`: the guard as written (`s[:-2]`) and as intended (`s[-2:]`); `StripNeverFires` states what the written one does |
| Rules.Render | buontempo/decide/decision_tree.py:64-78 | no `ensures`: the body is the model of `as_rule_str`; `RenderOk`, `RenderEndsInLineBreak`, `RenderAsWritten` and `BodyClause` state its promises |
| Rules.Body | buontempo/decide/decision_tree.py:65-75 | no `ensures`: the text after the first `n` passes of the loop; `BodyOk`, `BodyStart` and `BodyClause` state its promises |
| Rules.LeafEnd | buontempo/decide/decision_tree.py:75 | no `ensures`: `".\n"` at depth 0 and `", "` deeper; `BodyClause`, `AsWrittenTrailingSeparator` and `FlatBodyAgrees` state what it adds to the text |
| Rules.Indent | buontempo/decide/decision_tree.py:65 | `'  ' * ident`: `2 * ident` spaces |
| Rules.AsRuleStr | buontempo/decide/decision_tree.py:64-78 | the loop computes the rule text as specified, errors included; the text ends with a line break |
| Rules.BodyErrPersists | buontempo/decide/decision_tree.py:70-73 | once a branch's subtree fails, the whole loop fails with that error |
| Rules.RenderOk | buontempo/decide/decision_tree.py:64-73 | rendering succeeds if and only if the root is a node and every node's name is a label |
| Rules.BodyOk | buontempo/decide/decision_tree.py:70-73 | the first `n` passes succeed if and only if the first `n` subtrees are well labelled |
| Rules.BodyStep | buontempo/decide/decision_tree.py:70-75 | one more pass succeeds if and only if the earlier passes do and the branch's subtree, if any, renders |
| Rules.RenderEndsInLineBreak | buontempo/decide/decision_tree.py:78 | the result always ends with `"\n"` |
| Rules.BodyStart | buontempo/decide/decision_tree.py:65-71 | the text starts with the indentation and, once there is a branch, continues with `"if "` |
| Rules.BodyExtends | buontempo/decide/decision_tree.py:70-71 | each pass keeps the text so far and appends `"if "` and more |
| Rules.StripNeverFires | buontempo/decide/decision_tree.py:76-77 | the guard `s[:-2] == ', '` never holds on the text it tests |
| Rules.RenderAsWritten | buontempo/decide/decision_tree.py:76-78 | so the result is the loop's text plus `"\n"`, never shortened |
| Rules.BodyClause | buontempo/decide/decision_tree.py:70-75 | each branch adds exactly one clause `if <root> = <key>`; a leaf clause continues `then <category>` plus `".\n"` at depth 0 or `", "` deeper; a subtree clause continues with a line break, the indentation and the subtree's text |
| Rules.AsWrittenTrailingSeparator | buontempo/decide/decision_tree.py:75-78 | as written, a nested group whose last branch is a leaf ends in `", \n"` |
| Rules.IntendedEndsWithCategory | buontempo/decide/decision_tree.py:76-78 | with the guard testing `s[-2:]`, such a group ends with its last category and `"\n"` |
| Rules.FlatBodyAgrees | buontempo/decide/decision_tree.py:65-75 | at depth 0, when every branch ends in a leaf, the loop text succeeds, is the same under either guard, and ends in `".\n"` once there is a branch |
| Rules.IntendedAgreesOnFlatTree | buontempo/decide/decision_tree.py:64-78 | for a top-level node whose branches all end in leaves, the corrected guard gives exactly the text the code as written gives |
| Rules.BuiltTreeRenders | buontempo/decide/decision_tree.py:64-73 | every internal node `create_tree` builds renders |
| Edges.SortInPlace | buontempo/decide/decision_tree.py:82-83 | `list.sort()`: the array ends ascending and a permutation of its old contents |
| Edges.Insert | buontempo/decide/decision_tree.py:82 | one insertion step: one more entry sorted, same multiset, the entries after it untouched |
| Edges.Swap | buontempo/decide/decision_tree.py:82 | exchanges two entries and changes nothing else; the multiset stays the same |
| Edges.Diagonals | buontempo/decide/decision_tree.py:84-85 | the diagonal is no longer than `X` |
| Edges.DiagonalsMembers | buontempo/decide/decision_tree.py:84 | the diagonal holds exactly the values common to `X` and `Y` |
| Edges.DiagonalsAscending | buontempo/decide/decision_tree.py:85 | the diagonal is strictly ascending |
| Edges.DiagonalsShorter | buontempo/decide/decision_tree.py:84 | the diagonal is no longer than `Y` |
| Edges.AscendingUnique | buontempo/decide/decision_tree.py:85 | two strictly ascending lists with the same members are equal: `sorted(set)` is determined by the set |
| Edges.PointClass | buontempo/decide/decision_tree.py:86 | no `ensures`: `classify(tree, label, [d, d])` for one diagonal value |
| Edges.ClassifyAll | buontempo/decide/decision_tree.py:86 | `L` has one entry per diagonal value |
| Edges.ClassifyAllAt | buontempo/decide/decision_tree.py:86 | entry `i` of `L` is the classification of `d[i]` |
| Edges.ClassifyAllErr | buontempo/decide/decision_tree.py:86 | building `L` fails if and only if some point fails, and then with the first failing point's exception |
| Edges.Reverse | buontempo/decide/decision_tree.py:91 | `L[::-1]`: the same length, entry `i` from position `len - 1 - i` |
| Edges.LastIndex | buontempo/decide/decision_tree.py:91 | the last position holding a value |
| Edges.ReversedFirstIsLast | buontempo/decide/decision_tree.py:91 | `L[::-1].index(x)` is `len(L) - 1` minus the last position of `x` |
| Edges.FoundEdges | buontempo/decide/decision_tree.py:84-95 | no `ensures`: the result `find_edges` computes from the sorted lists; `EdgesRead`, `EdgesNoFalse` and `ReadEdgesRange` state its promises |
| Edges.ReadEdges | buontempo/decide/decision_tree.py:87-95 | no `ensures`: the index arithmetic from `L` onward; `ReadEdgesRange` states its promises |
| Edges.FindEdges | buontempo/decide/decision_tree.py:81-95 | sorts `X` and `Y` in place into ascending permutations and returns the edges of the sorted lists |
| Edges.FindEdgesIn | buontempo/decide/decision_tree.py:87-95 | the index arithmetic over the arrays equals that over their contents |
| Edges.EdgesNoFalse | buontempo/decide/decision_tree.py:87 | `ValueError` is raised if and only if every point is classified and none is `False` |
| Edges.ClassifyNeverNoFalse | buontempo/decide/decision_tree.py:86 | classification never raises the `L.index` error itself |
| Edges.EdgesRead | buontempo/decide/decision_tree.py:84-95 | a classification failure propagates; otherwise the edges depend only on `L` and the sorted lists, and `L` fits in both |
| Edges.ReadEdgesRange | buontempo/decide/decision_tree.py:87-95 | the result fails exactly when `L` has no `False`; otherwise `min_x = X[first]` and `max_x = X[len(X) - len(L) + last]`, where first and last are the first and last `False` positions of `L`; likewise for `Y`; `min ≤ max` for both |
| Edges.EdgesOnSharedGrid | buontempo/decide/decision_tree.py:84-95 | for one strictly ascending grid given as both lists, the diagonal is the grid and the edges are the intended ones |
| Edges.ReadAligned | buontempo/decide/decision_tree.py:87-95 | when `L` is as long as the list, the source's reads agree with the diagonal's |
| Edges.MismatchedListsDiagonal | buontempo/decide/decision_tree.py:84-85 | `X = [0, 1, 2]`, `Y = [1, 2]` give the diagonal `[1, 2]` |
| Edges.SplitOnXClassifiesDiagonal | buontempo/decide/decision_tree.py:86 | the tree `SplitOnX` gives `L = [False, True]` |
| Edges.MismatchedListsRead | buontempo/decide/decision_tree.py:87-93 | on that `L`, `low = 0` and `high = 1` |
| Edges.EdgesMisreadX | buontempo/decide/decision_tree.py:87-93 | as written, the edges are `((0, 1), (1, 1))` on the mismatched lists |
| Edges.MismatchedListsIntended | buontempo/decide/decision_tree.py:87-93 | the intended edges are `((1, 1), (1, 1))` on the same input |
| Edges.FalseClass | buontempo/decide/decision_tree.py:87-91 | no `ensures`: the `False` that `L.index` and `L[::-1].index` look for, the category `0`; `EdgesNoFalse` and `ReadEdgesRange` state how it is found |
| Edges.RepeatedGridDiagonal | buontempo/decide/decision_tree.py:84-85 | `X = Y = [0, 0, 1]` has the diagonal `[0, 1]` |
| Edges.FlipOnXClassifiesDiagonal | buontempo/decide/decision_tree.py:86 | the tree `FlipOnX` gives `L = [True, False]` |
| Edges.RepeatedGridRead | buontempo/decide/decision_tree.py:87-93 | on that `L`, `low = 1` and `high = 0`, so both ranges read `(0, 1)` |
| Edges.EdgesMisreadRepeatedGrid | buontempo/decide/decision_tree.py:84-95 | as written, one list with a repeated value, given as both lists, gives the edges `((0, 1), (0, 1))` although only `(1, 1)` is classified `False` |
| Edges.RepeatedGridIntended | buontempo/decide/decision_tree.py:84-95 | the intended edges are `((1, 1), (1, 1))` on the same input |
| Edges.IntendedEdges | buontempo/decide/decision_tree.py:84-93 | no `ensures`: the corrected edges read from the diagonal; `IntendedEdgesBound` states its promises |
| Edges.ReadIntended | buontempo/decide/decision_tree.py:87-93 | no `ensures`: the diagonal values at the first and last `False` of `L` |
| Edges.IntendedEdgesBound | buontempo/decide/decision_tree.py:87-93 | intended ranges: both ends are common values classified `False`, and together they enclose every such value; the errors are those of the source |

## Left out

- `entropy` uses `math.log` on floats. The model computes entropy exactly over the reals with the logarithm as the parameter `log2`. Float rounding, and ties between gains that are equal only in floating point, are not modelled.
- The learner takes its column scorer as the parameter `gain`. `Selection.EntropyGain(log2)` is the source's scorer. The tree lemmas hold for every scorer, so they also hold for that one.
- `DecisionTree.CreateTree` returns `Diverges` where Python recurses forever and finally raises `RecursionError`.
- `DecisionTree.CreateTree` does not model the order in which a Python `set` or dict is iterated. Branches follow the first occurrence of each value.
- `Trainable` (with `Dataset.WellFormed`) asks for rectangular, non-empty rows and a label for every feature column, because the learner is meant for that shape. It excludes two kinds of input that Python handles:
  - inputs Python accepts silently: ragged rows whose reads stay in range, such as `[[0, 'A'], [1, 2, 'B']]` with labels `['x', 'y']`, which builds `{'x': {0: 'A', 1: 'B'}}`; and a label list shorter than the feature count when every chosen column has a label, such as `[[0, 0, 'A'], [1, 0, 'B']]` with `['x']`;
  - inputs on which Python raises: an empty row (`i[-1]` at line 35), a row that lacks a column that is read, and a chosen column with no label (`label[feature]` at line 44).
- `Rules.AsRuleStr` takes `str()` of keys and categories as a parameter `show`. The text formatting of values is not modelled.
- `Rules.BodyClause` states the text that one pass of the loop appends: one clause per branch key. No lemma counts the clauses of the whole rendered text.
- `Rules.AsRuleStr` takes `ident` as a natural number. Python also accepts a negative `ident`, which gives no indentation and `", "` leaf endings; the model does not cover that call.
- `Edges.FindEdges` takes integer coordinates. The source works on floats.
- `Edges.FindEdges` models its categories as integers with `False` equal to `0`, instead of booleans. This matches Python's equality exactly: a category `0` also matches `False`, and `None` never does.
- `Edges.SortInPlace` is insertion sort. Python's `list.sort()` is Timsort, and the model states only the result: ascending, and a permutation of the old contents.
- The `__main__` demo and its printing (buontempo/decide/decision_tree.py:98-104) are not modelled.
- `buontempo/utils` (the `Data` type alias) is not part of this model. Rows are `seq<V>`.

## Findings

| source | as written | input that shows it | evidently intended | confidence | as-written member | corrected member |
|---|---|---|---|---|---|---|
| buontempo/decide/decision_tree.py:76 | `if s[:-2] == ', '` compares everything except the last two characters, so the guard never holds, and a nested group ends in `", \n"` | `as_rule_str({'x': {0: {'y': {0: 'A'}}}}, ['x', 'y'])`: the inner group renders as `'  if y = 0 then A, \n'` | `s[-2:] == ', '`: drop the trailing separator | medium, not executed | Rules.AsWrittenTrailingSeparator | Rules.IntendedEndsWithCategory |
| buontempo/decide/decision_tree.py:56 | `label.index(root)` finds the first label with the node's name; with a repeated label that is not the column the node splits on | rows `[0, 0, 7]`, `[0, 1, 8]`, labels `["a", "a"]`, a gain that prefers column 1: the tree splits on column 1 under the name `a`, and the training row `[0, 1, 8]` is classified `7` | labels name distinct columns, so that `label.index` finds the split column | low, not executed | DecisionTree.RepeatedLabelMisclassifies | DecisionTree.TrainingRowsClassified |
| buontempo/decide/decision_tree.py:88-93 | `X[low]` and `X[len(X) - 1 - high]` index `X` and `Y` with positions of `L`, which are positions in the diagonal | tree `{'x': {1: False, 2: True}}`, `X = [0, 1, 2]`, `Y = [1, 2]`: only `(1, 1)` is `False`, yet the x range is `(0, 1)` | read the diagonal: `diagonals[low]` and `diagonals[len(L) - 1 - high]` | low, not executed | Edges.EdgesMisreadX | Edges.IntendedEdgesBound |
| buontempo/decide/decision_tree.py:88-93 | the same indexing misreads one list with a repeated value, given as both `X` and `Y`: `L` is shorter than `X`, so positions of `L` are not positions of `X` | tree `{'x': {0: True, 1: False}}`, `X = Y = [0, 0, 1]`: only `(1, 1)` is `False`, yet both ranges are `(0, 1)` | read the diagonal, as above | low, not executed | Edges.EdgesMisreadRepeatedGrid | Edges.IntendedEdgesBound |

`Rules.AsRuleStr` and `Edges.FindEdges` model the code as written. `Rules.Render` with `Intended` and `Edges.IntendedEdges` are the corrected definitions. `Rules.StripNeverFires` shows that the as-written guard never fires. `Rules.IntendedAgreesOnFlatTree` shows that the two guards give the same text for a top-level node whose branches all end in leaves. They differ once a nested group ends in a leaf (`Rules.AsWrittenTrailingSeparator`, `Rules.IntendedEndsWithCategory`). `Edges.EdgesOnSharedGrid` shows that the two edge readings agree on one strictly ascending grid given as both lists. That grid must not repeat a value: `Edges.EdgesMisreadRepeatedGrid` shows a shared list with a repeated value misread. For repeated labels the model keeps `classify` as written, and `DecisionTree.TrainingRowsClassified` proves the intended property under the condition the code relies on: distinct labels.
