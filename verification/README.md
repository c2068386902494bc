# Keyword column classifier, modelled in Dafny

This project models the core of `dc_excel.py`: the function
`classify_columns_by_keywords`, which splits the columns of a table into named
groups by case-insensitive keyword matching on the column names, together
with the pure pieces of `dcEx` around it. Those pieces are the category
dictionary built from `group_cols`, the row-to-row difference of a numeric
column (as an integer sketch), and the 31-character sheet names.

The classifier works in four steps:

1. It sorts the categories by the length of their longest keyword, longest
   first. Python's `sorted` is stable, so categories of equal rank keep their
   declaration order.
2. It visits the categories in that order. Each one claims every still
   unclaimed column whose name contains one of its keywords, ignoring case.
3. Claimed columns are removed from the remaining set and never considered
   again.
4. Whatever is left over goes to a catch-all group named `"Other"`.

Modules:

- `Wrappers`: `Option` and `Result`.
- `OrderedDict`: Python's insertion-ordered `dict` as a sequence of entries.
  `Put` is `d[k] = v`: an existing key keeps its position and gets the new
  value, and a new key is appended.
- `Text`: ASCII lower-casing and substring containment.
- `Priority`: the sort key and the sort itself, written as a stable insertion
  sort.
- `Classifier`: the specification function `Classify` and the loop of the
  source as the method `ClassifyColumnsByKeywords`, which is proved equal to
  it. The rest of the module proves the partition and first-match properties
  about `Classify`.
- `Scenarios`: small classifications worked out in full.
- `Report`: the pieces of `dcEx`.

A column is represented by its name only; the table payload plays no part in
the classification. Each group is the set of its column names, because the
source builds groups by iterating a Python `set`.

Three behaviours of the code are modelled as they are, although a reader
might expect otherwise:

- `"Other"` is not a reserved name. A declared category called `"Other"` is
  overwritten by the catch-all as soon as any column is left over, and the
  columns it claimed are then in no group
  (`Scenarios.OtherCategoryIsOverwritten`). The lookup lemmas
  (`Classifier.ClassifyLookup`, `Classifier.FirstMatchWins`,
  `Classifier.CategoryWithoutColumnsIsAbsent`) hold for every dictionary of
  categories. The lemmas that claim every column lands in its group
  (`Classifier.ClassifyAssigns`, `Classifier.AssignedInGroup`,
  `Classifier.ClassifyPartitions`) assume that no category is named
  `"Other"`, because for such a category they are false.
- Sheet names that collide after truncation to 31 characters are not
  detected; the later sheet simply reuses the name
  (`Report.SheetNamesMayCollide`).
- An empty keyword list makes `max` raise in the sort key before any
  matching is done. The model returns `Err(EmptyKeywordList)` in that case.

## Model

| member | source | states |
|---|---|---|
| Classifier.ClassifyColumnsByKeywords | exc_rol_diff_classify/dc_excel.py:4-50 | The loop computes exactly `Classify`. It fills `classified_dfs` and shrinks `remaining_cols` one category at a time, and adds "Other" for the leftovers. |
| Classifier.ClassifyAssigns | exc_rol_diff_classify/dc_excel.py:4-50 | For `Classify`, the whole function, when no category is named "Other": a column is in group `n` exactly when it is an input column and `n` is its first matching category in priority order, or `n` is "Other" and nothing matches it. Keys are distinct and every group is non-empty. |
| Classifier.RunClassified | exc_rol_diff_classify/dc_excel.py:29-42 | For `Run`, the loop state after a prefix of the order: each visited category holds exactly the columns it is first to match, is present only when it holds some, and no other key is present (the remaining set: `Classifier.RunRemaining`). |
| Scenarios.MatchesOne | exc_rol_diff_classify/dc_excel.py:31 | For `Matches`, the compiled pattern's test: a one-keyword pattern matches exactly when the keyword occurs in the name, ignoring case. |
| Classifier.OwnedSnoc | exc_rol_diff_classify/dc_excel.py:34-42 | For `Matched`, the comprehension of line 34: visiting one more category leaves the columns of earlier categories unchanged, and the new category gets exactly its matches among the remaining columns. |
| Priority.LongestKeywordIsMaximum | exc_rol_diff_classify/dc_excel.py:24 | For `LongestKeyword`, the sort key: the length of some keyword, and no keyword is longer. |
| Priority.PriorityOrderIsSorted | exc_rol_diff_classify/dc_excel.py:23-25 | For `PriorityOrder`, the call to `sorted`: the visiting order is a permutation of the declared categories, in descending order of the sort key (stability: `Priority.PriorityOrderIsStable`). |
| Report.GroupColumnLookup | exc_rol_diff_classify/dc_excel.py:55 | For `GroupColumnCategories`, the comprehension: each given name, and nothing else, maps to the one-element list holding that name (order: `Report.GroupColumnOrder`). |
| Report.KeywordCategoriesLookup | exc_rol_diff_classify/dc_excel.py:54-57 | For `KeywordCategories`: with `group_cols`, each given name, and nothing else, maps to the list holding it; without it, the dictionary is empty. |
| Report.DcExNeverHitsEmptyKeywords | exc_rol_diff_classify/dc_excel.py:53-83 | For `SheetsWritten`, the sheets `dcEx` writes: the empty-keyword failure never occurs; with no numeric columns nothing is written, otherwise the writer loop (`Report.SheetNames`, lines 79-83) writes "Original" first, then one sheet per group in result order, at least one of them, and every sheet name is at most 31 characters. |
| Classifier.FirstClaimant | exc_rol_diff_classify/dc_excel.py:29-42 | The category that claims a column is the first one in visiting order whose keywords match it. No earlier category matches it, and when there is none, no category matches it at all. |
| Classifier.RunRemaining | exc_rol_diff_classify/dc_excel.py:19-42 | After the loop started from `Classifier.ColumnSet` (`set(df.columns)`, line 19), a column is still in `remaining_cols` exactly when it is an input column that no visited category matches. |
| Classifier.ClassifyFailsOnEmptyKeywords | exc_rol_diff_classify/dc_excel.py:23-25 | The call fails exactly when some category has an empty keyword list. |
| Classifier.AssignedInGroup | exc_rol_diff_classify/dc_excel.py:34-48 | The same characterisation for one key and one column, when no category is named "Other". |
| Classifier.ClassifyLookup | exc_rol_diff_classify/dc_excel.py:47-50 | For any categories with a keyword: the result is the loop's dictionary, except that "Other" holds the leftovers when there are any, replacing a category of that name. Keys stay distinct when the categories' keys are. |
| Classifier.ClassifyLookupWithoutOther | exc_rol_diff_classify/dc_excel.py:47-50 | When no category is named "Other": "Other" is a key of the result exactly when some column is left over, and it then holds the leftovers. |
| Classifier.PriorityOrderKeys | exc_rol_diff_classify/dc_excel.py:23-25 | The sorted items have distinct keys, and none of them is "Other" unless a category was declared with that name. |
| Classifier.ClassifyPartitions | exc_rol_diff_classify/dc_excel.py:19-48 | Every input column is in some group. Groups are non-empty, hold only input columns, and are pairwise disjoint. |
| Classifier.FirstMatchWins | exc_rol_diff_classify/dc_excel.py:31-42 | A column in a non-"Other" group matches a keyword of that category, and no category visited earlier matches it. |
| Classifier.UnclaimedMatchesNothing | exc_rol_diff_classify/dc_excel.py:23-34 | A column stays unclaimed after the sorted visit exactly when no declared category matches it. |
| Classifier.OtherHoldsUnmatched | exc_rol_diff_classify/dc_excel.py:47-48 | When some column matches no category, "Other" holds exactly those columns. When every column matches, and no category is named "Other" and the keys are distinct, "Other" is absent. |
| Classifier.CategoryWithoutColumnsIsAbsent | exc_rol_diff_classify/dc_excel.py:37-39 | A category that is first match for no column is not a key of the result. |
| Classifier.NoCategories | exc_rol_diff_classify/dc_excel.py:19-48 | No categories gives `{"Other": all columns}`, or an empty result when there are no columns. |
| Classifier.NoColumns | exc_rol_diff_classify/dc_excel.py:16-47 | No columns gives an empty result (unless an empty keyword list makes the call fail). |
| Classifier.RunOnNoColumns | exc_rol_diff_classify/dc_excel.py:29-42 | With no columns, the loop claims nothing and adds no key. |
| Classifier.AssignmentIgnoresCase | exc_rol_diff_classify/dc_excel.py:31 | Column names that differ only in ASCII case land in the same group. |
| Priority.PriorityOrderIsStable | exc_rol_diff_classify/dc_excel.py:23-25 | For each rank, the categories of that rank appear in declaration order, as Python's stable sort guarantees. |
| Priority.PriorityOrderKeepsKeysDistinct | exc_rol_diff_classify/dc_excel.py:23 | Sorting dictionary items keeps their keys distinct. |
| Priority.InsertPermutes | exc_rol_diff_classify/dc_excel.py:23-25 | One insertion step adds exactly the inserted category. |
| Priority.InsertKeepsDescending | exc_rol_diff_classify/dc_excel.py:23-25 | One insertion step keeps the order descending. |
| Priority.InsertWithRank | exc_rol_diff_classify/dc_excel.py:23-25 | One insertion step puts the new category before all categories of its own rank. |
| Priority.InsertKeepsKeysDistinct | exc_rol_diff_classify/dc_excel.py:23 | Inserting a category with a new key keeps the keys distinct. |
| Text.Lower | exc_rol_diff_classify/dc_excel.py:31 | Lower-casing keeps the length, maps each character on its own, and leaves no upper-case ASCII letter. |
| Text.ContainsAt | exc_rol_diff_classify/dc_excel.py:31-34 | The containment test holds exactly when the keyword starts at some position of the name. |
| Text.ContainsIgnoresCase | exc_rol_diff_classify/dc_excel.py:31 | A case-sensitive occurrence is also found when case is ignored. |
| Text.LowerIdempotent | exc_rol_diff_classify/dc_excel.py:31 | Lower-casing twice is lower-casing once. |
| Text.CaseOfArgumentsIrrelevant | exc_rol_diff_classify/dc_excel.py:31 | Changing the ASCII case of the column name or the keyword does not change a match. |
| OrderedDict.Keys | exc_rol_diff_classify/dc_excel.py:39-48 | The keys of a dictionary, listed in insertion order. |
| OrderedDict.Put | exc_rol_diff_classify/dc_excel.py:39-55 | Assigning to an existing key keeps the key order. Assigning to a new key appends it. Keys stay distinct. |
| OrderedDict.Get | exc_rol_diff_classify/dc_excel.py:39-48 | A lookup finds nothing exactly when the key is absent. |
| OrderedDict.PutGet | exc_rol_diff_classify/dc_excel.py:39-55 | After `d[k] = v`, looking up `k` gives `v`, and every other key is unchanged. |
| OrderedDict.GetEntry | exc_rol_diff_classify/dc_excel.py:81 | With distinct keys, each entry is what a lookup of its key returns. |
| Scenarios.TwoCategoriesOrder | exc_rol_diff_classify/dc_excel.py:23-25 | Two one-keyword categories: the longer keyword goes first, and a tie keeps declaration order. |
| Scenarios.FirstOfTwoClaimsAll | exc_rol_diff_classify/dc_excel.py:29-42 | When the first category matches every column, it takes them all, and the second gets nothing and is absent. |
| Scenarios.LongerKeywordClaimsFirst | exc_rol_diff_classify/dc_excel.py:23-42 | Two columns contain the longer keyword (e.g. "Total_Revenue" and "Revenue_Tax" with "Revenue" against "Tax"). Both go to the longer keyword's category, and neither the other category nor "Other" appears. |
| Scenarios.TieGoesToFirstDeclared | exc_rol_diff_classify/dc_excel.py:23-42 | Between equal-rank categories that both match a column, the one declared first takes it, in either declaration order. |
| Scenarios.OtherCategoryIsOverwritten | exc_rol_diff_classify/dc_excel.py:39-48 | A declared category "Other" loses its claimed columns to the catch-all once any column is left over. |
| Report.GroupColumnKeysDistinct | exc_rol_diff_classify/dc_excel.py:55 | The comprehension's dictionary holds each name once, even when `group_cols` repeats names. |
| Report.GroupColumnCategoriesAreSelfKeyed | exc_rol_diff_classify/dc_excel.py:55 | Every category from `group_cols` has its own name as its only keyword. Its keys are exactly the given names. |
| Report.GroupColumnOrder | exc_rol_diff_classify/dc_excel.py:55 | The categories appear in the order in which their names first occur in `group_cols`. |
| Report.GroupColumnSnocKeys | exc_rol_diff_classify/dc_excel.py:55 | One more name in `group_cols` leaves the keys unchanged when it repeats an earlier name. Otherwise the name is appended. |
| Report.GroupColumnStep | exc_rol_diff_classify/dc_excel.py:55 | One more name keeps the keys in order of first occurrence. |
| Report.GroupColumnIsClaimed | exc_rol_diff_classify/dc_excel.py:55-75 | With `group_cols` (none named "Other"), a numeric column named like one of them never lands in "Other". This holds for names without regular-expression metacharacters only; see "## Left out". |
| Report.OwnCategoryMatches | exc_rol_diff_classify/dc_excel.py:31-55 | A column named like a `group_cols` entry is matched by that entry's category, for names without regular-expression metacharacters. |
| Report.FirstIndex | exc_rol_diff_classify/dc_excel.py:55 | The position returned holds the name, and the name does not occur before it. |
| Report.Diff | exc_rol_diff_classify/dc_excel.py:73 | The difference column has one entry per row and no value in the first row. Every later row is reached from the previous one by adding its difference. |
| Report.DiffTelescopes | exc_rol_diff_classify/dc_excel.py:73 | Each value equals the first value plus the differences up to its row, so the differences lose nothing but the first value. |
| Report.DiffDeterminesValues | exc_rol_diff_classify/dc_excel.py:73 | Two columns of the same length with the same first value and the same differences are equal. |
| Report.SheetName | exc_rol_diff_classify/dc_excel.py:82 | The sheet name is the prefix of the category name of length min(31, length of the name): the whole name when it fits, otherwise exactly its first 31 characters. |
| Report.SheetNamesMayCollide | exc_rol_diff_classify/dc_excel.py:82 | Names that agree in their first 31 characters get the same sheet name, and nothing detects it. |
| Report.GroupsCoverEveryColumn | exc_rol_diff_classify/dc_excel.py:47-50 | A successful call over at least one column returns at least one group. |
| Report.RunClassifiedNonEmpty | exc_rol_diff_classify/dc_excel.py:37-39 | A column claimed during the loop leaves a non-empty dictionary behind. |

## Left out

- Reading the workbook (`pd.read_excel`) and writing it (`pd.ExcelWriter`, `to_excel`) are file I/O through pandas. The model returns the list of sheet names instead.
- The `print` calls are diagnostic output only and are not modelled.
- `select_dtypes` and the list of non-numeric columns depend on pandas' dtype inference. The numeric column names are a parameter of `Report.SheetsWritten`.
- Report.Diff: an integer sketch of `df.diff()`. Pandas computes in floating point with NaN for the first row; rounding and NaN are not modelled.
- Classifier.Matches: keywords are spliced into a regular expression without escaping. The model treats them as plain literals, so metacharacters in a keyword are not modelled: a keyword such as `Revenue (USD)` or `a+b` does not match itself in the source, and one such as `Price[USD` makes the pattern fail to compile.
- Report.GroupColumnIsClaimed: holds only for `group_cols` names without regular-expression metacharacters. Because `dcEx` uses the column names themselves as keywords, a name with metacharacters may fail to match its own column, which then goes to "Other", or may make the call raise.
- Report.DcExNeverHitsEmptyKeywords: says only that the empty-keyword failure cannot occur. `dcEx` can still fail on a pattern that does not compile or in the workbook I/O, neither of which is modelled.
- Text.Lower: case folding is ASCII only. `re.IGNORECASE` also folds non-ASCII letters, which the model does not.
- Classifier.Classify: the column order within a group comes from iterating a Python `set`, and the model keeps each group as a set of names. The table payload of each group (`df[matched_cols].copy()`) is represented by its column names.
- Classifier.ClassifyAssigns: proved only when no category is named "Other". Line 48 overwrites such a category with the leftovers, so its claimed columns are in no group and the characterisation is false (`Scenarios.OtherCategoryIsOverwritten`).
- Classifier.AssignedInGroup: proved only when no category is named "Other", for the same reason as `Classifier.ClassifyAssigns`.
- Classifier.ClassifyLookupWithoutOther: assumes no category is named "Other"; `Classifier.ClassifyLookup` states the general case.
- Classifier.ClassifyPartitions: proved only when no category is named "Other". With such a category the source loses columns, as `Scenarios.OtherCategoryIsOverwritten` shows.
- Non-string column names, which the source passes through `str(col)`, are not modelled. Columns are names.

