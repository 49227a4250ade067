# A verified model of a toy DBMS, an ID3 tree and a map-reduce harness

This project is a Dafny model of three small Python modules from a repository of
data-science exercises:

- **pkg/dbtable/dbms.py** is an in-memory relational table. A `Table` has column
  names, declared Python types and a list of dict rows. It supports `col2type`,
  `insert`, `update`, `delete`, `select`, `where`, `limit`, `groupby`, `orderby`
  and `join`. Four sample aggregates are modelled too: `min_userid`, `length`,
  `sum_userids` and `count_interests`.
- **pkg/tree/trees.py** is the ID3 decision tree: `Leaf` and `Split` nodes,
  `classify`, `partition_by` and `build_tree`.
- **pytemp/mapred.py** is a single-process map-reduce. It covers `tokenise`, the
  two word counts, the generic `map_reduce`, `values_reducer`,
  `count_distinct_reducer`, and the sparse matrix multiplication mapper and
  reducer.

Every Python exception the modelled code raises becomes `Failure(e)` of a
`Result`. Here `e` is one of `ValueError`, `TypeError`, `KeyError` and
`IndexError`. Mutating methods are functions that return the table after the
call. A failure means the exception was raised before any row changed, which
is what the source's check-then-mutate order gives.

## Layout

| file | module | what it holds |
|---|---|---|
| results.dfy | `Results` | `Result<T, E>` and the error kinds |
| seqs.dfy | `Seqs` | filter, flatten, count, first-occurrence dedup, sums |
| collect.dfy | `Collectors` | `defaultdict(list)` collection: first-seen key order, each group the filter of the input |
| values.dfy | `PyValues` | Python values, `isinstance`, Python `==` across `int`/`bool`/`float` |
| rows.dfy | `Rows` | dict rows built by `dict(zip(columns, values))` |
| table.dfy | `Tables` | schema validity, derived columns, `col2type`, `insert`, `update`, `delete`, `where`, `limit` |
| select.dfy | `Selection` | `select`, `orderby`, and what a `None` written by `update` does to later copies |
| sorting.dfy | `Sorting` | the stable `list.sort(key=...)` |
| groupby.dfy | `Grouping` | `groupby` |
| join.dfy | `Joins` | inner and left `join` |
| aggregates.dfy | `SampleAggregates` | `min_userid`, `length`, `sum_userids`, `count_interests` |
| trees.dfy | `Trees` | `classify`, `partition_by`, `build_tree` |
| tokens.dfy | `Tokens` | `tokenise` (`str.split()`) |
| mapred.dfy | `MapReduce` | `map_reduce`, the reducers, the two word counts |
| matrix.dfy | `MatrixMultiply` | the matrix multiplication mapper and reducer, and the demo product |

## Model

| member | source | states |
|---|---|---|
| Tables.Col2Type | pkg/dbtable/dbms.py:30-32 | Succeeds exactly for a column the table has, and gives the type declared at that column's first position. An unknown column raises ValueError. |
| Tables.Insert | pkg/dbtable/dbms.py:34-41 | Succeeds exactly when there is one value per column and each is an instance of its column's type. A wrong count raises ValueError and a wrong type TypeError. On success one row, the zip of columns and values, is appended and the schema is unchanged. |
| Tables.InsertAppendsRow | pkg/dbtable/dbms.py:41 | After an insert, the old rows are untouched. The new row has exactly the table's column names, and each name holds the value at its last position. |
| Tables.InsertAll | pkg/dbtable/dbms.py:74-78 | A loop of inserts succeeds exactly when every value list fits, and then appends all the zipped rows in order. When every list has one value per column, a failure is TypeError. |
| Tables.Update | pkg/dbtable/dbms.py:43-54 | Succeeds exactly when every updated column exists and every new value is `None` or an instance of the column's type; otherwise TypeError. Rows satisfying the predicate get the new values and keep their other cells. Other rows are unchanged, and so is the row count. |
| Tables.Delete | pkg/dbtable/dbms.py:56-59 | The corrected `delete`. A row remains exactly when it was in the table and fails the predicate. The remaining rows keep their original order (they are a subsequence of the table's rows). Remaining plus selected rows equal the original count, and the schema is kept. |
| Tables.DeleteAsWritten | pkg/dbtable/dbms.py:56-59 | `delete` as written, removing each selected row by `==`, never raises: every selected row is still present when its turn comes. It removes one row per selected row, keeps the schema, and every remaining row is one of the table's rows, so a valid table stays valid. |
| Tables.DeleteAsWrittenAgrees | pkg/dbtable/dbms.py:56-59 | When the predicate answers alike on rows Python finds equal, the code as written (remove each selected row by `==`) gives exactly the corrected result. |
| Tables.DeleteAsWrittenRemovesWrongRow | pkg/dbtable/dbms.py:56-59 | On rows `{'n': True}` and `{'n': 1}`, deleting the rows whose `n` is an `int` proper removes the `True` row and keeps the row that matched. |
| Tables.ReinsertSpec | pkg/dbtable/dbms.py:84-87 | Copying rows of the table's shape into an empty table of the same schema succeeds exactly when each row still type-checks. It then reproduces the rows; otherwise TypeError. |
| Tables.Where | pkg/dbtable/dbms.py:81-88 | Succeeds exactly when every row satisfying the predicate still type-checks, otherwise TypeError. The result has the same schema and exactly the satisfying rows, in order. |
| Tables.WhereDeleteSplit | pkg/dbtable/dbms.py:56-59 | `where(p)` and `delete(p)` split the table: a row is in one exactly when it satisfies `p` and in the other exactly when it does not, and their sizes add up. |
| Tables.LimitLoopKeepsPrefix | pkg/dbtable/dbms.py:93-95 | The loop over rows numbered from 1 that breaks at the first number above `n` reaches exactly the first `min(max(n, 0), len)` rows, for every `n`. |
| Tables.Limit | pkg/dbtable/dbms.py:90-98 | Copies the rows the loop reaches. Succeeds exactly when those rows, the first `min(max(n, 0), len)`, type-check, otherwise TypeError. The result is that prefix, with the same schema. |
| PyValues.IntColumnAcceptsBool | pkg/dbtable/dbms.py:39 | An `int` column accepts exactly the int-like values, `bool` included. |
| PyValues.PyEqAcrossKinds | pkg/dbtable/dbms.py:138 | Python `==` equates `True` with `1` and `1` with `1.0`. It does not equate `'1'` with `1` or `None` with `0`. |
| Rows.ZipValues | pkg/dbtable/dbms.py:86-87 | Zipping a row's own cells back under its columns reproduces the row. |
| Rows.ValuesZip | pkg/dbtable/dbms.py:41 | With distinct column names, reading back a zipped row gives the values inserted. |
| Selection.Select | pkg/dbtable/dbms.py:61-79 | An unknown kept column raises ValueError. Otherwise the call succeeds exactly when every output row fits the new types, and else raises TypeError. The result's columns are the kept ones then the computed ones, and its rows are the zipped selections, one per input row. |
| Selection.SelectRow | pkg/dbtable/dbms.py:74-78 | Each output row holds the input row's kept cells and each computed column's value on that row, for every name at its last position. |
| Selection.SelectCopy | pkg/dbtable/dbms.py:61-79 | `select()` with no arguments, on a well-typed table with distinct columns, returns the table unchanged. |
| Selection.OrderBy | pkg/dbtable/dbms.py:123-126 | Fails, with TypeError, exactly when the copy fails. Otherwise the rows are sorted by the key and are a permutation of the input. Rows with equal keys keep their input order. |
| Selection.OrderByIsTheStableSort | pkg/dbtable/dbms.py:123-126 | Any sorted arrangement that keeps equal-keyed rows in input order equals `orderby`'s result. |
| Selection.NullUpdateBreaksCopies | pkg/dbtable/dbms.py:49 | After `update` writes `None` into a row, a `where` selecting it, a `limit` reaching it, `select()` and `orderby` all raise TypeError. |
| Sorting.SortBy | pkg/dbtable/dbms.py:125 | The sorted copy is ordered by the key and is a permutation of the input. |
| Sorting.SortByStable | pkg/dbtable/dbms.py:125 | Sorting keeps the elements of every key in input order. |
| Sorting.StableSortUnique | pkg/dbtable/dbms.py:125 | Two sorted arrangements with the same elements per key, in the same order, are equal. |
| Grouping.KeyOfEq | pkg/dbtable/dbms.py:107-108 | Two rows get the same dict key exactly when their group-column cells are pairwise equal under Python `==`. |
| Grouping.GroupsPartition | pkg/dbtable/dbms.py:105-108 | Groups come in first-seen key order and are non-empty. Each group is exactly the rows with its key, in order, and keys differ between groups. Every row is in its key's group, and group sizes sum to the row count. |
| Grouping.NoGroupColumns | pkg/dbtable/dbms.py:105-108 | With no group column, a non-empty table forms one group holding all rows and an empty one forms none. |
| Grouping.AggValues | pkg/dbtable/dbms.py:118-119 | The aggregates of a group succeed exactly when each does, giving their values in order. Otherwise the error is one that some aggregate raised. |
| Grouping.GroupBy | pkg/dbtable/dbms.py:100-121 | An unknown group column raises KeyError when there are rows and ValueError otherwise. Otherwise the error is TypeError or one an aggregate raised, and with all aggregates computed the call succeeds exactly when every kept group's row fits. On success the columns are the group columns then the aggregate names, and the rows are the kept groups' rows in order. |
| Grouping.GroupByRow | pkg/dbtable/dbms.py:115-120 | Output row `i` comes from the `i`-th group passing `having`, a non-empty group of table rows. It holds the group's first row's cells for the group columns and each aggregate's value on the group. |
| Joins.ExtraColsExactly | pkg/dbtable/dbms.py:130-132 | The joined table gains exactly the right table's columns that the left table lacks. |
| Joins.Join | pkg/dbtable/dbms.py:128-149 | Raises only TypeError. It succeeds exactly when every right row that matches can be copied by `where` and every output fits the joined types. The result's columns are the left columns then the right-only ones, and its rows are the outputs in left-row order. |
| Joins.InnerJoinIsFilteredProduct | pkg/dbtable/dbms.py:137-144 | The inner join's outputs are the combined pairs of the left-by-right product that agree on the shared columns, in nested-loop order. |
| Joins.NoSharedColumns | pkg/dbtable/dbms.py:130-144 | Without shared columns, the inner join is the full cross product, with `len(left) * len(right)` outputs. |
| Joins.LeftJoinCovers | pkg/dbtable/dbms.py:145-148 | A left join has at least one output per left row and at least as many outputs as the inner join. |
| Joins.LeftJoinAllMatched | pkg/dbtable/dbms.py:145-148 | When every left row has a match, the left join equals the inner join. |
| Joins.LeftJoinUnmatchedLonger | pkg/dbtable/dbms.py:145-148 | A left row without a match makes the left join strictly longer than the inner join. |
| Joins.LeftJoinEqualsInnerIff | pkg/dbtable/dbms.py:137-148 | The left and inner joins are equal, and equally long, exactly when every left row has a match. |
| Joins.LeftJoinPaddingFails | pkg/dbtable/dbms.py:145-148 | A left row without a match, plus a right-only column not of type `str`, makes a left join raise TypeError, because the padding is `''`. |
| SampleAggregates.Less | pkg/dbtable/dbms.py:152 | Python `<` is defined on two numbers or two strings and compares numbers by value. Any other pair raises TypeError. |
| SampleAggregates.MinUserIdSpec | pkg/dbtable/dbms.py:151-152 | No rows raises ValueError, and a row without `userID` makes the call fail. With int-like ids the result is the first least id. |
| SampleAggregates.SumUserIdsSpec | pkg/dbtable/dbms.py:166-167 | With int-like ids, the result is their integer sum, and the sum over concatenated rows is the sum of the two sums. |
| SampleAggregates.CountInterestsSpec | pkg/dbtable/dbms.py:169-171 | Succeeds exactly when every row has an `interest` cell, otherwise KeyError. The result counts the rows whose cell is truthy and is at most `length`. |
| SampleAggregates.GroupCountsSumKept | pkg/dbtable/dbms.py:100-121 | For any `having`, the per-group row counts of a `groupby` with a `length` aggregate add up to the number of rows in the groups that pass `having`. |
| SampleAggregates.GroupCountsSumToRows | pkg/dbtable/dbms.py:100-121 | With no `having` filter, those counts add up to the table's row count. |
| Trees.Classify | pkg/tree/trees.py:109-121 | The answer is the value of some node of the tree. |
| Trees.ClassifyLeaf | pkg/tree/trees.py:112-113 | A leaf answers its own value, whatever the candidate. |
| Trees.ClassifySplit | pkg/tree/trees.py:115-121 | A split answers its default for an attribute value it has no branch for, and otherwise what that branch answers. |
| Trees.PartitionBySpec | pkg/tree/trees.py:91-97 | Values are distinct and buckets non-empty. Each bucket is exactly the candidates with its value, in input order, every candidate is in its value's bucket, and bucket sizes sum to the number of candidates. |
| Trees.MostCommon | pkg/tree/trees.py:126-127 | The result is a label of greatest count. Among labels of that count it is the first seen. |
| Trees.BestAttr | pkg/tree/trees.py:133-134 | The chosen attribute has the least impurity, and no attribute of equal impurity comes before it. |
| Trees.Grow | pkg/tree/trees.py:123-141 | The default is the most common label. The node is a leaf exactly when the labels agree or no attribute is left. A split is on a least-impurity attribute, has a branch for every candidate's value and no other, and tests only attributes left by its ancestors. |
| Trees.BuildTree | pkg/tree/trees.py:123-141 | No candidates raises IndexError. Otherwise the root's value is a training label, and the tree is at most as many splits deep as there are attributes. |
| Trees.ClassifyAnswersTrainingLabel | pkg/tree/trees.py:109-141 | Whatever it is asked about, a grown tree answers a label that occurs among its training candidates. |
| Trees.GrowFitsConsistent | pkg/tree/trees.py:109-141 | When the label is a function of the split attributes, the tree classifies every training candidate with its own label. |
| Tokens.Tokenise | pytemp/mapred.py:5-7 | Every token is non-empty and free of whitespace. |
| Tokens.TokensSpellDocument | pytemp/mapred.py:5-7 | The tokens, concatenated, are the document's non-whitespace characters in order. |
| Tokens.TokeniseSplitsAtSpace | pytemp/mapred.py:5-7 | Splitting around a whitespace character gives the tokens of the left part followed by those of the right part. |
| Tokens.TokeniseJoin | pytemp/mapred.py:5-7 | Splitting words joined by single spaces gives the words back. |
| MapReduce.MapReduceSpec | pytemp/mapred.py:36-44 | The reducer is called once per distinct key, in first-seen order, with all of that key's values in emission order. The outputs are concatenated. |
| MapReduce.EmittedKey | pytemp/mapred.py:39-41 | Every key any mapper call emits gets a reducer call. |
| MapReduce.MapReduceValues | pytemp/mapred.py:46-50 | With a `values_reducer`, the result pairs each key, in first-seen order, with the function applied to its values. |
| MapReduce.CountDistinctReducer | pytemp/mapred.py:78-79 | As written, the reducer yields one pair: the key with the number of values, duplicates included. |
| MapReduce.CountDistinctAgreesWhenDistinct | pytemp/mapred.py:78-79 | The reducer as written and the corrected one give the same output exactly when no value repeats. |
| MapReduce.CountDistinctCountsRepeats | pytemp/mapred.py:78-79 | As written, two likes from the same user count as 2 although there is 1 distinct liker. |
| MapReduce.MapReduceCountValues | pytemp/mapred.py:78-79 | With the reducer as written, each key is paired with the number of values emitted for it, repeats included. |
| MapReduce.DistinctCountReducer | pytemp/mapred.py:78-79 | The corrected reducer yields the key with the number of distinct values. That is at most the number of values and equal to it exactly when they are distinct. |
| MapReduce.EmittedWords | pytemp/mapred.py:13-15 | The word-count mapper emits `(word, 1)` for every token of every document, in order. |
| MapReduce.CountsForWord | pytemp/mapred.py:17-29 | The counts reduced for a word add up to its number of occurrences. |
| MapReduce.WordCountAgrees | pytemp/mapred.py:9-29 | The map-reduce word count equals the `Counter` one: each distinct word once, in first-seen order, with its number of occurrences. |
| MapReduce.WordCountTotals | pytemp/mapred.py:21-29 | `word_count` lists every word once, and its counts add up to the number of tokens. |
| MatrixMultiply.MapperCells | pytemp/mapred.py:87-99 | An `A` entry emits one pair per column of `B`, keyed by its row and tagged with its column and value. Any other entry emits one pair per row of `A`, keyed by its column and tagged with its row and value. |
| MatrixMultiply.Reducer | pytemp/mapred.py:101-110 | The reducer yields nothing when the sum of products is zero, and otherwise the key with that sum. |
| MatrixMultiply.SumProductIsPairSum | pytemp/mapred.py:102-108 | When no index occurs more than twice, the sum over indexes with exactly two values equals the sum of products of the value pairs sharing an index. |
| MatrixMultiply.ValuesForCell | pytemp/mapred.py:87-99 | The values collected for a cell are the tags of the `A` entries in its row and the `B` entries in its column, in entry order. |
| MatrixMultiply.CellSum | pytemp/mapred.py:87-110 | For entries inside the declared dimensions with one entry per matrix position, the reducer's sum for any cell is that cell of the matrix product. |
| MatrixMultiply.MatrixMultiplyComputes | pytemp/mapred.py:87-110 | Under the same conditions, `map_reduce` yields, for each emitted cell in first-seen order, the cell with its product entry when that entry is non-zero. |
| MatrixMultiply.MatrixMultiplyMembers | pytemp/mapred.py:87-110 | Under the same conditions, a pair `(cell, v)` is in the result exactly when the product at that cell is non-zero and equals `v`. |
| MatrixMultiply.DemoProduct | pytemp/mapred.py:154-162 | On the demo's entries, the result holds `((0, 0), 32)` and `((0, 1), -3)` and nothing for cell `(1, 0)`. |

## Left out

- Output formatting is not modelled: `__repr__`, `__getitem__`, `__iter__` and the `__main__` demos of dbms.py and trees.py. The matrix demo's entries are modelled (`DemoProduct`).
- The Go programs under cmd/ and the other packages under pkg/ (k-means, kNN, PCA, clustering) are not part of this model.
- `split_entropy`, `data_entropy` and the partition entropies use floating-point logarithms. The impurity is a parameter `impurity(cands, target, attr)` of the tree model, so only the choice it drives (first least value) is modelled.
- `day_mapper`, `words_per_user_mapper`, `most_popular_word_reducer`, `liker_mapper` and the status-update demo data of mapred.py are not modelled. They read dates and lower-case text, which is outside the core.
- Callables (predicates, computed columns, aggregates, `having`, sort keys, mappers, reducers) are total Dafny functions. Exceptions raised inside a predicate or a sort key, and side effects of callables, are not modelled. Aggregates return a `Result` so that their exceptions propagate.
- The return annotation a computed column or aggregate declares (`__annotations__['return']`) is passed in alongside the callable.
- `select(keep_cols=None)` is modelled by passing the table's own columns, and `additional_cols=None` by passing none.
- Float cells are exact reals: NaN (which is not `==` to itself), infinities and rounding are not modelled. This affects `insert`/`update` values, `groupby` keys, `join` matching and `<` in `min_userid`.
- Sort keys are real numbers. Python's ordering of strings and tuples as keys is not modelled.
- `Counter` is modelled by its items in first-seen order. `most_common(1)` returns the first label of greatest count, as CPython's `max` over the counter does.
- `word_count` has the same collect-and-reduce loop as `map_reduce`, so it is modelled as `map_reduce` with `wc_mapper` and `wc_reducer`.
- Tokens are split on the characters `str.isspace` accepts. Unicode normalisation is not modelled.
- MatrixMultiply.Reducer: matrix values are integers, not floats, so the `sumproduct != 0.0` test is exact.
- MatrixMultiply.MatrixMultiplyComputes: assumes entries lie within the declared dimensions and that each matrix position has at most one entry. The source checks neither.
- MatrixMultiply.CellSum: under the same two assumptions as MatrixMultiplyComputes.
- MatrixMultiply.MatrixMultiplyMembers: under the same two assumptions as MatrixMultiplyComputes.
- SampleAggregates.MinUserIdSpec: the result value is stated only for int-like ids. For other cell types the model follows Python's comparison rules, but no contract states the outcome.
- SampleAggregates.SumUserIdsSpec: stated only for int-like ids. Float sums are not modelled.
- Tables.Insert: every table is assumed valid, with as many types as columns, which the constructor's `assert` enforces.
- Error kinds follow the code: an arity mismatch in `insert` raises ValueError; an unknown column in `update` raises TypeError; an unknown kept column in `select` raises ValueError from `list.index`; an unknown `groupby` column raises KeyError when there are rows and ValueError when there are none.

## Findings

| source | as written | input that shows it | evidently intended | confidence | as-written member | corrected member |
|---|---|---|---|---|---|---|
| pkg/dbtable/dbms.py:56-59 | `delete` removes each selected row with `list.remove`, which removes the first row that is `==` to it, not that row itself | an `int` column holding rows `{'n': True}` then `{'n': 1}`, and the predicate "`n` is an `int` proper": the `True` row is removed and the matching row stays | remove exactly the rows that satisfy the predicate | not executed | Tables.DeleteAsWrittenRemovesWrongRow | Tables.Delete |
| pytemp/mapred.py:78-79 | `count_distinct_reducer` yields `len(likers)`, counting repeated likers | one user liked twice by `data_guy` (`["data_guy", "data_guy"]`): the reducer yields 2 | the number of distinct likers, here 1 | not executed | MapReduce.CountDistinctCountsRepeats | MapReduce.DistinctCountReducer |
